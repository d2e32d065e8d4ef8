/** The Bernstein-polynomial Bézier evaluator `bezier_polynomial`: each sample
    is the sum of the control points weighted by `C(n,k) (1-t)^(n-k) t^k`,
    where every weight of at most 0.001 is dropped to 0.  The binomial
    coefficients come from the shared memo table. */
module BezierPolynomial {
  import opened Bezier
  import Binomial

  function Pow(x: real, e: nat): real
  {
    if e == 0 then 1.0 else x * Pow(x, e - 1)
  }

  /** The Bernstein weight of control point `k` of a degree-`n` curve at `t`. */
  function Weight(n: nat, k: nat, t: real): real
    requires k <= n
  {
    (Binomial.Choose(n, k) as real) * Pow(1.0 - t, n - k) * Pow(t, k)
  }

  /** The noise filter of the source: a weight of at most 0.001 becomes 0. */
  function Cutoff(w: real): (r: real)
    ensures r == 0.0 || r > 0.001
    ensures w > 0.001 ==> r == w
    ensures w <= 0.001 ==> r == 0.0
  {
    if w > 0.001 then w else 0.0
  }

  /** Control point `k` of a degree-`n` polygon starts at coordinate `k*d`:
      the coordinate `k*d + i` of a point with `i < d` is in range. */
  lemma BlockIndex(k: nat, i: nat, n: nat, d: nat)
    requires k <= n && i < d
    ensures 0 <= k * d + i < d * (n + 1)
  {
    MulSign(d, n + 1 - k);
    assert d * (n + 1 - k) == d * (n + 1) - k * d;
  }

  /** Coordinate `i` of control point `k`. */
  function Coord(points: seq<real>, d: nat, n: nat, k: nat, i: nat): real
    requires k <= n && i < d && |points| == d * (n + 1)
  {
    BlockIndex(k, i, n, d);
    points[k * d + i]
  }

  /** The filtered weights of the `n + 1` control points at `t`. */
  function Weights(n: nat, t: real): (ws: seq<real>)
    ensures |ws| == n + 1
  {
    seq(n + 1, k requires 0 <= k <= n => Cutoff(Weight(n, k, t)))
  }

  /** Coordinate `i` of the sum over control points `0 .. k-1`, each scaled
      by its weight in `ws`, added in the source's order. */
  function Blend(points: seq<real>, d: nat, n: nat, ws: seq<real>, k: nat, i: nat): real
    requires k <= n + 1 && i < d && |points| == d * (n + 1) && |ws| == n + 1
    decreases k
  {
    if k == 0 then 0.0
    else Blend(points, d, n, ws, k - 1, i) + Coord(points, d, n, k - 1, i) * ws[k - 1]
  }

  /** The curve point the evaluator computes at `t`. */
  function PolySample(points: seq<real>, d: nat, n: nat, t: real): (r: seq<real>)
    requires |points| == d * (n + 1)
    ensures |r| == d
  {
    seq(d, i requires 0 <= i < d => Blend(points, d, n, Weights(n, t), n + 1, i))
  }

  /** The samples at times `k*step, (k+1)*step, ...` below 1. */
  function PolySamples(points: seq<real>, d: nat, n: nat, step: real, k: nat): (r: seq<real>)
    requires |points| == d * (n + 1) && step > 0.0
    ensures |r| == d * SampleCount(step, k)
    decreases StepBound(step) - k
  {
    if Time(step, k) < 1.0 then
      BelowBound(step, k);
      var rest := PolySamples(points, d, n, step, k + 1);
      assert d * SampleCount(step, k) == d + d * SampleCount(step, k + 1);
      PolySample(points, d, n, Time(step, k)) + rest
    else []
  }

  /** The degree `size / d - 1` the evaluator works with: one less than the
      number of whole points.  Coordinates left over at the end of a vector
      whose length is not a multiple of `d` belong to no blended point. */
  function Degree(points: seq<real>, d: nat): (n: nat)
    requires d >= 1 && |points| >= d
    ensures d * (n + 1) <= |points| < d * (n + 2)
    ensures IsPolygon(points, d) ==> |points| == d * (n + 1)
  {
    if IsPolygon(points, d) then
      WholePointsCount(|points|, d);
      |points| / d - 1
    else
      |points| / d - 1
  }

  /** The curve `bezier_polynomial` produces: the first `d` coordinates, one
      sample of the whole points per time `k*step < 1`, then the last `d`
      coordinates. */
  function PolyCurve(points: seq<real>, step: real, d: nat): (r: seq<real>)
    requires d >= 1 && |points| >= d && step > 0.0
    ensures |r| == d * (2 + SampleCount(step, 1))
  {
    var n := Degree(points, d);
    assert d * (2 + SampleCount(step, 1)) == d + d * SampleCount(step, 1) + d;
    points[..d] + PolySamples(points[..d * (n + 1)], d, n, step, 1) + points[|points| - d..]
  }

  /** One sample of `bezier_polynomial` at `t`: a zeroed accumulator of `d`
      coordinates to which every control point is added with its filtered
      weight.  The coefficients are read from (and may extend) the memo table. */
  method PolySampleAt(table: Binomial.BinomialTable, points: seq<real>, d: nat, n: nat, t: real)
    returns (v: array<real>)
    requires table.Valid()
    requires |points| >= d * (n + 1)
    modifies table
    ensures table.Valid() && old(table.rows) <= table.rows
    ensures fresh(v) && v[..] == PolySample(points[..d * (n + 1)], d, n, t)
  {
    v := new real[d];
    for i := 0 to d
      modifies v
      invariant forall i' :: 0 <= i' < i ==> v[i'] == 0.0
    {
      v[i] := 0.0;
    }
    var subT := 1.0 - t;
    ghost var ws := Weights(n, t);
    for k := 0 to n + 1
      invariant table.Valid() && old(table.rows) <= table.rows
      invariant forall i :: 0 <= i < d ==> v[i] == Blend(points[..d * (n + 1)], d, n, ws, k, i)
    {
      var coeff := FilteredWeight(table, n, k, subT, t);
      AddWeighted(v, points, d, n, ws, k, coeff);
    }
  }

  /** The weight of control point `k` as the evaluator computes it: the
      memoised coefficient times `subT^(n-k) * t^k`, dropped to 0 at or
      below 0.001. */
  method FilteredWeight(table: Binomial.BinomialTable, n: nat, k: nat, subT: real, t: real)
    returns (coeff: real)
    requires table.Valid() && k <= n && subT == 1.0 - t
    modifies table
    ensures table.Valid() && old(table.rows) <= table.rows
    ensures coeff == Weights(n, t)[k]
  {
    var subK := n - k;
    var c := table.Coeff(n, k);
    coeff := (c as real) * Pow(subT, subK) * Pow(t, k);
    coeff := if coeff > 0.001 then coeff else 0.0;
  }

  /** The innermost loop of `bezier_polynomial`: adds control point `k`,
      scaled by its filtered weight, to the accumulator. */
  method AddWeighted(v: array<real>, points: seq<real>, d: nat, n: nat, ghost ws: seq<real>, k: nat, coeff: real)
    requires |points| >= d * (n + 1) && |ws| == n + 1 && k <= n && v.Length == d
    requires coeff == ws[k]
    requires forall i :: 0 <= i < d ==> v[i] == Blend(points[..d * (n + 1)], d, n, ws, k, i)
    modifies v
    ensures forall i :: 0 <= i < d ==> v[i] == Blend(points[..d * (n + 1)], d, n, ws, k + 1, i)
  {
    ghost var whole := points[..d * (n + 1)];
    for i := 0 to d
      invariant forall i' :: 0 <= i' < i ==> v[i'] == Blend(whole, d, n, ws, k + 1, i')
      invariant forall i' :: i <= i' < d ==> v[i'] == Blend(whole, d, n, ws, k, i')
    {
      BlockIndex(k, i, n, d);
      assert Coord(whole, d, n, k, i) == points[k * d + i];
      ghost var before := v[i];
      v[i] := v[i] + points[k * d + i] * coeff;
      assert v[i] == before + Coord(whole, d, n, k, i) * coeff;
    }
  }

  /** `bezier_polynomial`: the first control point; one sample for each
      `t = step, 2*step, ...` while `t < 1`; then the last control point. */
  method BezierPolynomial(table: Binomial.BinomialTable, points: seq<real>, step: real, d: nat)
    returns (curve: seq<real>)
    requires table.Valid()
    requires d >= 1 && |points| >= d && step > 0.0
    modifies table
    ensures table.Valid() && old(table.rows) <= table.rows
    ensures curve == PolyCurve(points, step, d)
  {
    curve := points[..d];
    var n := |points| / d - 1;
    assert n == Degree(points, d);
    var s: nat := 1;
    var t := step;
    while t < 1.0
      invariant table.Valid() && old(table.rows) <= table.rows
      invariant t == Time(step, s)
      invariant curve + PolySamples(points[..d * (n + 1)], d, n, step, s)
             == points[..d] + PolySamples(points[..d * (n + 1)], d, n, step, 1)
      decreases StepBound(step) - s
    {
      BelowBound(step, s);
      var v := PolySampleAt(table, points, d, n, t);
      curve := curve + v[..];
      s := s + 1;
      t := t + step;
    }
    curve := curve + points[|points| - d..];
  }

  /** The polynomial curve begins with the first control point and ends with
      the last one, with `d` coordinates per sample in between. */
  lemma PolyCurveEnds(points: seq<real>, step: real, d: nat)
    requires d >= 1 && |points| >= d && step > 0.0
    ensures PolyCurve(points, step, d)[..d] == points[..d]
    ensures PolyCurve(points, step, d)[|PolyCurve(points, step, d)| - d..] == points[|points| - d..]
  {
    var n := Degree(points, d);
    var head, mid, last := points[..d], PolySamples(points[..d * (n + 1)], d, n, step, 1), points[|points| - d..];
    var curve := head + mid + last;
    assert curve[..d] == head;
    assert curve[|curve| - d..] == last;
  }

  /** `points'` differs from `points` at most in control point `j`. */
  ghost predicate SameOutside(points: seq<real>, points': seq<real>, d: nat, n: nat, j: nat)
    requires |points| == d * (n + 1) && |points'| == d * (n + 1)
  {
    forall k, i :: 0 <= k <= n && k != j && 0 <= i < d ==> Coord(points', d, n, k, i) == Coord(points, d, n, k, i)
  }

  lemma {:induction false} BlendIgnores(points: seq<real>, points': seq<real>, d: nat, n: nat, ws: seq<real>, j: nat, k: nat, i: nat)
    requires |points| == d * (n + 1) && |points'| == d * (n + 1) && |ws| == n + 1
    requires j <= n && ws[j] == 0.0
    requires SameOutside(points, points', d, n, j)
    requires k <= n + 1 && i < d
    ensures Blend(points', d, n, ws, k, i) == Blend(points, d, n, ws, k, i)
    decreases k
  {
    if k > 0 {
      BlendIgnores(points, points', d, n, ws, j, k - 1, i);
    }
  }

  /** A control point whose weight at `t` is filtered out contributes
      nothing: moving it leaves the sample at `t` unchanged. */
  lemma CutoffDropsPoint(points: seq<real>, points': seq<real>, d: nat, n: nat, t: real, j: nat)
    requires |points| == d * (n + 1) && |points'| == d * (n + 1)
    requires j <= n && Weight(n, j, t) <= 0.001
    requires SameOutside(points, points', d, n, j)
    ensures PolySample(points', d, n, t) == PolySample(points, d, n, t)
  {
    forall i | 0 <= i < d
      ensures PolySample(points', d, n, t)[i] == PolySample(points, d, n, t)[i]
    {
      BlendIgnores(points, points', d, n, Weights(n, t), j, n + 1, i);
    }
  }

  // ---------------------------------------------------------------------
  // The two evaluators agree where the cut-off drops nothing

  /** Coordinate `i` of every control point: the polygon seen in one
      dimension. */
  function Column(points: seq<real>, d: nat, n: nat, i: nat): (c: seq<real>)
    requires i < d && |points| == d * (n + 1)
    ensures |c| == n + 1
  {
    seq(n + 1, k requires 0 <= k <= n => Coord(points, d, n, k, i))
  }

  /** Any non-empty sequence is a polygon of one-dimensional points. */
  lemma LinePolygon(c: seq<real>)
    requires |c| >= 1
    ensures IsPolygon(c, 1)
  {
    WholeMultiple(|c|, 1);
  }

  /** A de Casteljau level commutes with taking one coordinate. */
  lemma LevelColumn(points: seq<real>, t: real, d: nat, n: nat, i: nat)
    requires n >= 1 && i < d && |points| == d * (n + 1)
    ensures |LerpLevel(points, t, d)| == d * n
    ensures Column(LerpLevel(points, t, d), d, n - 1, i) == LerpLevel(Column(points, d, n, i), t, 1)
  {
    var level, col := LerpLevel(points, t, d), Column(points, d, n, i);
    assert |level| == d * n by { assert d * (n + 1) - d == d * n; }
    forall k | 0 <= k < n
      ensures Column(level, d, n - 1, i)[k] == LerpLevel(col, t, 1)[k]
    {
      BlockIndex(k, i, n - 1, d);
      assert (k + 1) * d + i == k * d + i + d;
      assert Coord(points, d, n, k + 1, i) == points[k * d + i + d];
    }
  }

  /** Coordinate `i` of the curve point is the curve point of coordinate `i`
      of the polygon. */
  lemma {:induction false} KernelColumn(points: seq<real>, t: real, d: nat, n: nat, i: nat)
    requires d >= 1 && i < d && |points| == d * (n + 1)
    ensures IsPolygon(points, d) && IsPolygon(Column(points, d, n, i), 1)
    ensures Kernel(points, t, d)[i] == Kernel(Column(points, d, n, i), t, 1)[0]
    decreases n
  {
    WholeMultiple(n + 1, d);
    var col := Column(points, d, n, i);
    LinePolygon(col);
    if n == 0 {
      assert col == [points[i]];
    } else {
      MulSign(d, n);
      LevelColumn(points, t, d, n, i);
      KernelColumn(LerpLevel(points, t, d), t, d, n - 1, i);
    }
  }

  /** The combination `alpha a + beta b` of two equally long sequences. */
  function Combine(alpha: real, a: seq<real>, beta: real, b: seq<real>): (r: seq<real>)
    requires |a| == |b|
    ensures |r| == |a|
  {
    seq(|a|, m requires 0 <= m < |a| => alpha * a[m] + beta * b[m])
  }

  /** De Casteljau's point is linear in the control polygon. */
  lemma {:induction false} KernelLinear(alpha: real, a: seq<real>, beta: real, b: seq<real>, t: real)
    requires |a| == |b| >= 1
    ensures IsPolygon(a, 1) && IsPolygon(b, 1) && IsPolygon(Combine(alpha, a, beta, b), 1)
    ensures Kernel(Combine(alpha, a, beta, b), t, 1)[0]
         == alpha * Kernel(a, t, 1)[0] + beta * Kernel(b, t, 1)[0]
    decreases |a|
  {
    LinePolygon(a);
    LinePolygon(b);
    LinePolygon(Combine(alpha, a, beta, b));
    if |a| > 1 {
      var la, lb := LerpLevel(a, t, 1), LerpLevel(b, t, 1);
      var lc := LerpLevel(Combine(alpha, a, beta, b), t, 1);
      forall m | 0 <= m < |a| - 1
        ensures lc[m] == Combine(alpha, la, beta, lb)[m]
      {
        var u := 1.0 - t;
        assert u * (alpha * a[m] + beta * b[m]) + t * (alpha * a[m + 1] + beta * b[m + 1])
            == alpha * (u * a[m] + t * a[m + 1]) + beta * (u * b[m] + t * b[m + 1]);
      }
      assert lc == Combine(alpha, la, beta, lb);
      KernelLinear(alpha, la, beta, lb, t);
    }
  }

  /** The point a fraction `t` of the way from `a` to `b`, as a named term so
      that equals can be put for equals in it without arithmetic. */
  function Mix(t: real, a: real, b: real): real
  {
    (1.0 - t) * a + t * b
  }

  /** De Casteljau's recursion: the point of a polygon is the mix of the
      points of the polygon without its last point and without its first. */
  lemma KernelSplit(c: seq<real>, t: real)
    requires |c| >= 2
    ensures IsPolygon(c, 1) && IsPolygon(c[..|c| - 1], 1) && IsPolygon(c[1..], 1)
    ensures Kernel(c, t, 1)[0] == Mix(t, Kernel(c[..|c| - 1], t, 1)[0], Kernel(c[1..], t, 1)[0])
  {
    LinePolygon(c);
    var level, mix := LerpLevel(c, t, 1), Combine(1.0 - t, c[..|c| - 1], t, c[1..]);
    forall m | 0 <= m < |c| - 1
      ensures level[m] == mix[m]
    {
      assert c[..|c| - 1][m] == c[m] && c[1..][m] == c[m + 1];
    }
    assert level == mix;
    KernelLinear(1.0 - t, c[..|c| - 1], t, c[1..], t);
  }

  /** The sum of the first `m` coordinates of `c`, each scaled by its weight
      in `ws`. */
  function WeightedSum(c: seq<real>, ws: seq<real>, m: nat): real
    requires m <= |c| && m <= |ws|
    decreases m
  {
    if m == 0 then 0.0 else WeightedSum(c, ws, m - 1) + c[m - 1] * ws[m - 1]
  }

  /** Entry `j` of `low`, or 0 outside it. */
  function Below(low: seq<real>, j: int): real
  {
    if 0 <= j < |low| then low[j] else 0.0
  }

  /** One row of Pascal's triangle at `t`: each weight mixes the two below
      it in `low`, a missing one counting as 0. */
  function PascalMix(low: seq<real>, t: real): (ws: seq<real>)
    ensures |ws| == |low| + 1
  {
    seq(|low| + 1, k requires 0 <= k <= |low| => Mix(t, Below(low, k), Below(low, k - 1)))
  }

  /** The unfiltered Bernstein weights of degree `n` at `t`, built row by row
      as de Casteljau's scheme builds them. */
  function BernsteinWeights(n: nat, t: real): (ws: seq<real>)
    ensures |ws| == n + 1
  {
    if n == 0 then [1.0] else PascalMix(BernsteinWeights(n - 1, t), t)
  }

  /** The end weights of degree `n` come from those of degree `n - 1`. */
  lemma WeightEnds(n: nat, t: real)
    requires n >= 1
    ensures Weight(n, 0, t) == Mix(t, Weight(n - 1, 0, t), 0.0)
    ensures Weight(n, n, t) == Mix(t, 0.0, Weight(n - 1, n - 1, t))
  {
    assert Pow(1.0 - t, n) == (1.0 - t) * Pow(1.0 - t, n - 1);
    assert Pow(t, n) == t * Pow(t, n - 1);
  }

  /** Pascal's rule, carried over to the Bernstein weights. */
  lemma WeightPascal(n: nat, k: nat, t: real)
    requires 1 <= k < n
    ensures Weight(n, k, t) == Mix(t, Weight(n - 1, k, t), Weight(n - 1, k - 1, t))
  {
    var u := 1.0 - t;
    var c1, c2 := Binomial.Choose(n - 1, k - 1) as real, Binomial.Choose(n - 1, k) as real;
    var pu, pt := Pow(u, n - 1 - k), Pow(t, k - 1);
    assert Binomial.Choose(n, k) as real == c1 + c2;
    assert Pow(u, n - k) == u * pu;
    assert Pow(t, k) == t * pt;
    assert Weight(n, k, t) == (c1 + c2) * (u * pu) * (t * pt);
    assert Weight(n - 1, k, t) == c2 * pu * (t * pt);
    assert Weight(n - 1, k - 1, t) == c1 * (u * pu) * pt;
    assert (c1 + c2) * (u * pu) * (t * pt) == u * (c2 * pu * (t * pt)) + t * (c1 * (u * pu) * pt);
  }

  /** `ws` is built from the one shorter `low` by Pascal's rule at `t`: each
      weight mixes the two below it, a missing one counting as 0. */
  ghost predicate PascalStep(ws: seq<real>, low: seq<real>, t: real)
  {
    && |low| >= 1 && |ws| == |low| + 1
    && ws[0] == Mix(t, low[0], 0.0)
    && ws[|low|] == Mix(t, 0.0, low[|low| - 1])
    && forall k {:trigger ws[k]} :: 1 <= k < |low| ==> ws[k] == Mix(t, low[k], low[k - 1])
  }

  /** A row of Pascal's triangle is a Pascal step from the row below. */
  lemma PascalMixStep(low: seq<real>, t: real)
    requires |low| >= 1
    ensures PascalStep(PascalMix(low, t), low, t)
  {
  }

  /** Row `n` is the Pascal mix of row `n - 1`. */
  lemma BernsteinRow(n: nat, t: real)
    requires n >= 1
    ensures BernsteinWeights(n, t) == PascalMix(BernsteinWeights(n - 1, t), t)
  {
  }

  /** Weight `k` of a row of Pascal's triangle. */
  lemma PascalMixAt(low: seq<real>, t: real, k: nat)
    requires k <= |low|
    ensures PascalMix(low, t)[k] == Mix(t, Below(low, k), Below(low, k - 1))
  {
  }

  /** The ordinary Bernstein weights of degree `n` at `t`, from the closed
      formula. */
  function WeightRow(n: nat, t: real): (ws: seq<real>)
    ensures |ws| == n + 1
  {
    seq(n + 1, k requires 0 <= k <= n => Weight(n, k, t))
  }

  /** Built by Pascal's rule, row `n` is the row of closed-form Bernstein
      weights of degree `n`. */
  lemma {:induction false} BernsteinIsWeightRow(n: nat, t: real)
    ensures BernsteinWeights(n, t) == WeightRow(n, t)
    decreases n
  {
    if n == 0 {
      assert Weight(0, 0, t) == 1.0;
      assert WeightRow(0, t) == [1.0];
    } else {
      BernsteinIsWeightRow(n - 1, t);
      BernsteinRow(n, t);
      MixedWeightRow(n, t);
    }
  }

  /** Pascal's rule maps closed-form row `n - 1` to closed-form row `n`. */
  lemma MixedWeightRow(n: nat, t: real)
    requires n >= 1
    ensures PascalMix(WeightRow(n - 1, t), t) == WeightRow(n, t)
  {
    forall k | 0 <= k <= n
      ensures PascalMix(WeightRow(n - 1, t), t)[k] == WeightRow(n, t)[k]
    {
      if k == 0 {
        MixedFirst(n, t);
      } else if k == n {
        MixedLast(n, t);
      } else {
        MixedInner(n, k, t);
      }
    }
  }

  lemma MixedFirst(n: nat, t: real)
    requires n >= 1
    ensures PascalMix(WeightRow(n - 1, t), t)[0] == WeightRow(n, t)[0]
  {
    var low := WeightRow(n - 1, t);
    PascalMixAt(low, t, 0);
    WeightEnds(n, t);
    assert Below(low, 0) == Weight(n - 1, 0, t) && Below(low, -1) == 0.0;
  }

  lemma MixedLast(n: nat, t: real)
    requires n >= 1
    ensures PascalMix(WeightRow(n - 1, t), t)[n] == WeightRow(n, t)[n]
  {
    var low := WeightRow(n - 1, t);
    PascalMixAt(low, t, n);
    WeightEnds(n, t);
    assert Below(low, n) == 0.0 && Below(low, n - 1) == Weight(n - 1, n - 1, t);
  }

  lemma MixedInner(n: nat, k: nat, t: real)
    requires 1 <= k < n
    ensures PascalMix(WeightRow(n - 1, t), t)[k] == WeightRow(n, t)[k]
  {
    var low := WeightRow(n - 1, t);
    PascalMixAt(low, t, k);
    WeightPascal(n, k, t);
    assert Below(low, k) == Weight(n - 1, k, t) && Below(low, k - 1) == Weight(n - 1, k - 1, t);
  }

  /** One more term on each side of a mix: if `s` mixes `s1` and `s0` and
      `w` mixes `w1` and `w0`, then `s + x w` mixes `s1 + x w1` and
      `s0 + x w0`. */
  lemma MixStep(a: real, a1: real, a0: real, s: real, s1: real, s0: real,
                x: real, x1: real, x0: real, w: real, w1: real, w0: real, t: real)
    requires a == s + x * w && a1 == s1 + x1 * w1 && a0 == s0 + x0 * w0 && x1 == x && x0 == x
    requires s == Mix(t, s1, s0) && w == Mix(t, w1, w0)
    ensures a == Mix(t, a1, a0)
  {
    assert x * w == (1.0 - t) * (x * w1) + t * (x * w0);
  }

  /** The first term: `x w` with `w` mixing `w1` and 0 mixes `x w1` and 0. */
  lemma FirstStep(a: real, a1: real, a0: real, x: real, x1: real, w: real, w1: real, t: real)
    requires a == 0.0 + x * w && a1 == 0.0 + x1 * w1 && x1 == x && a0 == 0.0
    requires w == Mix(t, w1, 0.0)
    ensures a == Mix(t, a1, a0)
  {
    assert x * w == (1.0 - t) * (x * w1);
  }

  /** The last term: `s + x w` with `w` mixing 0 and `l` mixes `s1` and
      `s0 + x l`. */
  lemma LastStep(a: real, a0: real, s: real, s1: real, s0: real, x: real, x0: real, w: real, l: real, t: real)
    requires a == s + x * w && w == Mix(t, 0.0, l) && a0 == s0 + x0 * l && x0 == x
    requires s == Mix(t, s1, s0)
    ensures a == Mix(t, s1, a0)
  {
    assert x * w == t * (x * l);
    assert t * a0 == t * s0 + t * (x * l);
  }

  /** The first `m + 1` terms of the sum under `ws` are the mix of the sums
      under `low` over the polygon without its last point (`m + 1` terms)
      and without its first (`m` terms). */
  ghost predicate SplitHolds(c: seq<real>, ws: seq<real>, low: seq<real>, t: real, m: nat)
    requires |c| == |ws| == |low| + 1 && m < |low|
  {
    WeightedSum(c, ws, m + 1) == Mix(t, WeightedSum(c[..|low|], low, m + 1), WeightedSum(c[1..], low, m))
  }

  lemma {:induction false} SplitPrefix(c: seq<real>, ws: seq<real>, low: seq<real>, t: real, m: nat)
    requires PascalStep(ws, low, t) && |c| == |ws| && m < |low|
    ensures SplitHolds(c, ws, low, t, m)
    decreases m
  {
    if m == 0 {
      SplitFirst(c, ws, low, t);
    } else {
      SplitPrefix(c, ws, low, t, m - 1);
      SplitNext(c, ws, low, t, m);
    }
  }

  /** The first term of the split. */
  lemma SplitFirst(c: seq<real>, ws: seq<real>, low: seq<real>, t: real)
    requires PascalStep(ws, low, t) && |c| == |ws|
    ensures SplitHolds(c, ws, low, t, 0)
  {
    assert c[..|low|][0] == c[0];
    FirstStep(WeightedSum(c, ws, 1), WeightedSum(c[..|low|], low, 1), WeightedSum(c[1..], low, 0),
              c[0], c[..|low|][0], ws[0], low[0], t);
  }

  /** One more term of the split. */
  lemma SplitNext(c: seq<real>, ws: seq<real>, low: seq<real>, t: real, m: nat)
    requires PascalStep(ws, low, t) && |c| == |ws| && 1 <= m < |low|
    requires SplitHolds(c, ws, low, t, m - 1)
    ensures SplitHolds(c, ws, low, t, m)
  {
    var n := |low|;
    assert c[..n][m] == c[m] && c[1..][m - 1] == c[m];
    MixStep(WeightedSum(c, ws, m + 1), WeightedSum(c[..n], low, m + 1), WeightedSum(c[1..], low, m),
            WeightedSum(c, ws, m), WeightedSum(c[..n], low, m), WeightedSum(c[1..], low, m - 1),
            c[m], c[..n][m], c[1..][m - 1], ws[m], low[m], low[m - 1], t);
  }

  /** A sum under weights built by Pascal's rule obeys de Casteljau's
      recursion. */
  lemma SplitSum(c: seq<real>, ws: seq<real>, low: seq<real>, t: real)
    requires PascalStep(ws, low, t) && |c| == |ws|
    ensures WeightedSum(c, ws, |c|)
         == Mix(t, WeightedSum(c[..|c| - 1], low, |c| - 1), WeightedSum(c[1..], low, |c| - 1))
  {
    var n := |low|;
    SplitPrefix(c, ws, low, t, n - 1);
    SplitLast(c, ws, low, t, n);
    assert c[..|c| - 1] == c[..n];
  }

  /** The last term of the split. */
  lemma SplitLast(c: seq<real>, ws: seq<real>, low: seq<real>, t: real, n: nat)
    requires n == |low| >= 1 && |c| == |ws| == n + 1
    requires ws[n] == Mix(t, 0.0, low[n - 1])
    requires SplitHolds(c, ws, low, t, n - 1)
    ensures WeightedSum(c, ws, n + 1) == Mix(t, WeightedSum(c[..n], low, n), WeightedSum(c[1..], low, n))
  {
    assert c[1..][n - 1] == c[n];
    LastStep(WeightedSum(c, ws, n + 1), WeightedSum(c[1..], low, n),
             WeightedSum(c, ws, n), WeightedSum(c[..n], low, n), WeightedSum(c[1..], low, n - 1),
             c[n], c[1..][n - 1], ws[n], low[n - 1], t);
  }

  /** De Casteljau's point of a one-dimensional polygon is its Bernstein sum. */
  lemma {:induction false} KernelIsBernstein(c: seq<real>, t: real)
    requires |c| >= 1
    ensures IsPolygon(c, 1)
    ensures Kernel(c, t, 1)[0] == WeightedSum(c, BernsteinWeights(|c| - 1, t), |c|)
    decreases |c|
  {
    LinePolygon(c);
    if |c| == 1 {
      assert BernsteinWeights(0, t)[0] == 1.0;
    } else {
      var n := |c| - 1;
      KernelSplit(c, t);
      KernelIsBernstein(c[..n], t);
      KernelIsBernstein(c[1..], t);
      BernsteinRow(n, t);
      PascalMixStep(BernsteinWeights(n - 1, t), t);
      SplitSum(c, BernsteinWeights(n, t), BernsteinWeights(n - 1, t), t);
    }
  }

  /** Every weight of degree `n` at `t` passes the cut-off. */
  ghost predicate NothingCut(n: nat, t: real)
  {
    forall k :: 0 <= k <= n ==> Weight(n, k, t) > 0.001
  }

  /** Where nothing is cut, the filtered weights are the Bernstein weights. */
  lemma NothingCutWeights(n: nat, t: real)
    requires NothingCut(n, t)
    ensures Weights(n, t) == BernsteinWeights(n, t)
  {
    BernsteinIsWeightRow(n, t);
    forall k | 0 <= k <= n
      ensures Weights(n, t)[k] == WeightRow(n, t)[k]
    {
      assert Weight(n, k, t) > 0.001;
    }
  }

  /** The source's accumulation of coordinate `i` is the weighted sum of that
      coordinate of the control points. */
  lemma {:induction false} BlendIsWeightedSum(points: seq<real>, d: nat, n: nat, ws: seq<real>, k: nat, i: nat)
    requires |points| == d * (n + 1) && |ws| == n + 1 && k <= n + 1 && i < d
    ensures Blend(points, d, n, ws, k, i) == WeightedSum(Column(points, d, n, i), ws, k)
    decreases k
  {
    if k > 0 {
      BlendIsWeightedSum(points, d, n, ws, k - 1, i);
    }
  }

  /** Where the cut-off drops nothing, the two evaluators give the same curve
      point, in every dimension and for every degree. */
  lemma EvaluatorsAgree(points: seq<real>, d: nat, n: nat, t: real)
    requires d >= 1 && |points| == d * (n + 1)
    requires NothingCut(n, t)
    ensures IsPolygon(points, d)
    ensures Kernel(points, t, d) == PolySample(points, d, n, t)
  {
    WholeMultiple(n + 1, d);
    forall i | 0 <= i < d
      ensures Kernel(points, t, d)[i] == PolySample(points, d, n, t)[i]
    {
      CoordinateAgrees(points, d, n, t, i);
    }
  }

  /** One coordinate of `EvaluatorsAgree`. */
  lemma CoordinateAgrees(points: seq<real>, d: nat, n: nat, t: real, i: nat)
    requires d >= 1 && |points| == d * (n + 1) && i < d
    requires NothingCut(n, t)
    ensures IsPolygon(points, d)
    ensures Kernel(points, t, d)[i] == PolySample(points, d, n, t)[i]
  {
    WholeMultiple(n + 1, d);
    NothingCutWeights(n, t);
    KernelColumn(points, t, d, n, i);
    KernelIsBernstein(Column(points, d, n, i), t);
    BlendIsWeightedSum(points, d, n, Weights(n, t), n + 1, i);
  }

  /** Where the cut-off drops nothing at any sample time, the polynomial
      samples are the de Casteljau samples. */
  lemma {:induction false} SamplesAgree(points: seq<real>, d: nat, n: nat, step: real, k: nat)
    requires d >= 1 && |points| == d * (n + 1) && step > 0.0
    requires forall j :: j >= k && Time(step, j) < 1.0 ==> NothingCut(n, Time(step, j))
    ensures IsPolygon(points, d)
    ensures PolySamples(points, d, n, step, k) == DeCasteljauSamples(points, step, d, k)
    decreases StepBound(step) - k
  {
    WholeMultiple(n + 1, d);
    if Time(step, k) < 1.0 {
      BelowBound(step, k);
      EvaluatorsAgree(points, d, n, Time(step, k));
      SamplesAgree(points, d, n, step, k + 1);
    }
  }

  /** The two curves: where nothing is cut, the polynomial curve is the de
      Casteljau curve followed by the last control point, the one point the
      de Casteljau sampler leaves out. */
  lemma CurvesAgree(points: seq<real>, step: real, d: nat)
    requires IsPolygon(points, d) && step > 0.0
    requires forall j :: j >= 1 && Time(step, j) < 1.0 ==> NothingCut(Degree(points, d), Time(step, j))
    ensures PolyCurve(points, step, d) == DeCasteljauCurve(points, step, d) + points[|points| - d..]
  {
    var n := Degree(points, d);
    assert points[..d * (n + 1)] == points;
    SamplesAgree(points, d, n, step, 1);
  }
}
