/** The memo table behind `binomial_coeff`: a process-wide Pascal triangle that
    grows row by row and is never shrunk or rewritten.  Entries are mathematical
    integers; the source stores them in C `int`. */
module Binomial {

  /** C(n, k), the reference definition the table is checked against. */
  function Choose(n: nat, k: nat): nat
  {
    if k > n then 0
    else if k == 0 || k == n then 1
    else Choose(n - 1, k - 1) + Choose(n - 1, k)
  }

  /** `row` is the Pascal successor of `prev`: one longer, 1 at both ends, and
      each inner entry the sum of the two entries above it. */
  ghost predicate IsNextRow(prev: seq<int>, row: seq<int>)
  {
    && |row| == |prev| + 1 && row[0] == 1 && row[|prev|] == 1
    && forall i :: 0 < i < |prev| ==> row[i] == prev[i - 1] + prev[i]
  }

  /** Row `r` has `r + 1` entries, row 0 is `[1]`, and every later row is the
      successor of the one before it. */
  ghost predicate IsPascal(rows: seq<seq<int>>)
  {
    && (forall r :: 0 <= r < |rows| ==> |rows[r]| == r + 1)
    && (|rows| > 0 ==> rows[0] == [1])
    && forall r :: 0 < r < |rows| ==> RowFollows(rows, r)
  }

  ghost predicate RowFollows(rows: seq<seq<int>>, r: nat)
    requires 0 < r < |rows|
  {
    IsNextRow(rows[r - 1], rows[r])
  }

  /** Every entry of a Pascal table is the binomial coefficient of its place. */
  lemma {:induction false} PascalIsChoose(rows: seq<seq<int>>, r: nat, i: nat)
    requires IsPascal(rows)
    requires r < |rows| && i <= r
    ensures rows[r][i] == Choose(r, i)
    decreases r
  {
    if r > 0 {
      assert RowFollows(rows, r);
      if 0 < i < r {
        PascalIsChoose(rows, r - 1, i - 1);
        PascalIsChoose(rows, r - 1, i);
      }
    }
  }

  /** Pascal symmetry: C(n, k) == C(n, n - k). */
  lemma {:induction false} ChooseSymmetric(n: nat, k: nat)
    requires k <= n
    ensures Choose(n, k) == Choose(n, n - k)
    decreases n
  {
    if 0 < k < n {
      ChooseSymmetric(n - 1, k - 1);
      ChooseSymmetric(n - 1, k);
    }
  }

  /** Appending the successor of the last row (or `[1]` to an empty table)
      keeps a table Pascal. */
  lemma PascalExtend(rows: seq<seq<int>>, row: seq<int>)
    requires IsPascal(rows)
    requires |rows| == 0 ==> row == [1]
    requires |rows| > 0 ==> IsNextRow(rows[|rows| - 1], row)
    ensures IsPascal(rows + [row])
  {
    var ext := rows + [row];
    forall r | 0 < r < |ext| ensures RowFollows(ext, r) {
      if r < |rows| {
        assert RowFollows(rows, r);
      }
    }
  }

  /** The loop body of `binomial_coeff`: row `s` of the triangle, built in a
      fresh buffer of `s + 1` entries from row `s - 1` (`prev`). */
  method PascalRow(prev: seq<int>, s: nat) returns (row: seq<int>)
    requires s > 0 ==> |prev| == s
    ensures s == 0 ==> row == [1]
    ensures s > 0 ==> IsNextRow(prev, row)
  {
    var coeffs := new int[s + 1];
    coeffs[0] := 1;
    var i := 1;
    while i < s
      invariant 1 <= i && (i <= s || i == 1)
      invariant coeffs[0] == 1
      invariant forall j :: 0 < j < i ==> coeffs[j] == prev[j - 1] + prev[j]
    {
      coeffs[i] := prev[i - 1] + prev[i];
      i := i + 1;
    }
    coeffs[s] := 1;
    row := coeffs[..];
  }

  /** The table of one process.  `rows` is `generated_binomial_coeffs` and
      `maxDegree` is `max_generated_degree`, the number of rows built so far. */
  class BinomialTable {
    var rows: seq<seq<int>>
    var maxDegree: nat

    ghost predicate Valid()
      reads this
    {
      maxDegree == |rows| && IsPascal(rows)
    }

    /** The empty table of a freshly started process. */
    constructor ()
      ensures Valid() && rows == []
    {
      rows := [];
      maxDegree := 0;
    }

    /** `binomial_coeff(n, k)`: builds every missing row up to and including
        row `n`, each from the row before it, then answers from row `n`.
        Rows already present are kept as they are, and no row is freed. */
    method Coeff(n: nat, k: nat) returns (c: int)
      requires Valid()
      requires k <= n
      modifies this
      ensures Valid()
      ensures |rows| == if n < old(|rows|) then old(|rows|) else n + 1
      ensures old(rows) <= rows
      ensures c == rows[n][k] && c == Choose(n, k)
    {
      while n >= maxDegree
        invariant Valid()
        invariant old(rows) <= rows
        invariant |rows| > old(|rows|) ==> |rows| <= n + 1
        decreases n + 1 - maxDegree
      {
        var s := maxDegree;
        var row := PascalRow(if s > 0 then rows[s - 1] else [], s);
        PascalExtend(rows, row);
        rows := rows + [row];
        maxDegree := maxDegree + 1;
      }
      c := rows[n][k];
      PascalIsChoose(rows, n, k);
    }
  }
}
