/** Dimension-generic Bézier evaluation on flat coordinate sequences: a curve of
    `d`-dimensional control points is stored as one `seq<real>`, point `i` being
    coordinates `[d*i, d*i+d)`.  The parameter `t` runs over `step, 2*step, ...`
    while below 1; with reals, the source's `t += step` accumulation is exactly
    `t = k*step` for the `k`-th sample. */
module Bezier {
  import opened Geometry
  import Binomial

  /** `len` is a positive multiple of `d`: the coordinates of whole points. */
  predicate WholePoints(len: int, d: int)
    requires d >= 1
    decreases len
  {
    len == d || (len > d && WholePoints(len - d, d))
  }

  /** A flat control polygon of whole `d`-dimensional points, at least one. */
  predicate IsPolygon(points: seq<real>, d: int)
  {
    d >= 1 && WholePoints(|points|, d)
  }

  lemma MulSign(d: int, e: int)
    requires d >= 1
    ensures e >= 1 ==> d * e >= d
    ensures e <= -1 ==> d * e <= -d
  {
    assert d * e - d == d * (e - 1);
    assert d * e + d == d * (e + 1);
  }

  lemma ExactDiv(x: int, d: int, q: int)
    requires d >= 1 && x >= 0 && x == d * q
    ensures x / d == q
  {
    var r, m := x / d, x % d;
    assert x == d * r + m && 0 <= m < d;
    assert d * (q - r) == m by { assert d * (q - r) == d * q - d * r; }
    MulSign(d, q - r);
  }

  /** Whole points: the length is `d` times the point count `len / d`. */
  lemma {:induction false} WholePointsCount(len: int, d: int)
    requires d >= 1 && WholePoints(len, d)
    ensures len / d >= 1 && len == d * (len / d)
    decreases len
  {
    if len == d {
      ExactDiv(len, d, 1);
    } else {
      WholePointsCount(len - d, d);
      var q := (len - d) / d;
      assert len == d * (q + 1) by { assert d * (q + 1) == d * q + d; }
      ExactDiv(len, d, q + 1);
    }
  }

  /** The polygon's points as a sequence of `d`-coordinate blocks. */
  function Chunks(s: seq<real>, d: nat): seq<seq<real>>
    requires d >= 1
    decreases |s|
  {
    if |s| < d then [] else [s[..d]] + Chunks(s[d..], d)
  }

  lemma ChunksAppend(a: seq<real>, b: seq<real>, d: nat)
    requires d >= 1 && |a| == d
    ensures Chunks(a + b, d) == [a] + Chunks(b, d)
  {
    assert (a + b)[..d] == a;
    assert (a + b)[d..] == b;
  }

  /** One de Casteljau level: coordinate `m` of the result blends coordinate
      `m` of a point with the same coordinate of the point after it. */
  function LerpLevel(points: seq<real>, t: real, d: nat): seq<real>
    requires |points| >= d
  {
    seq(|points| - d, m requires 0 <= m < |points| - d => (1.0 - t) * points[m] + t * points[m + d])
  }

  /** The point of the curve at parameter `t`: the levels are applied until
      one point is left.  The result has exactly `d` coordinates. */
  function Kernel(points: seq<real>, t: real, d: nat): (r: seq<real>)
    requires IsPolygon(points, d)
    ensures |r| == d
    decreases |points|
  {
    if |points| <= d then points
    else Kernel(LerpLevel(points, t, d), t, d)
  }

  /** `deCasteljau_kernel`: each round lerps adjacent points into a fresh
      vector, one point shorter, and recurses on it. */
  method DeCasteljauKernel(points: seq<real>, t: real, d: nat) returns (r: seq<real>)
    requires IsPolygon(points, d)
    ensures r == Kernel(points, t, d)
    decreases |points|
  {
    if |points| <= d {
      return points;
    }
    ghost var level := LerpLevel(points, t, d);
    var curve: seq<real> := [];
    var i := 0;
    while i < |points| - d
      invariant 0 <= i <= |points| - d
      invariant i == |points| - d || WholePoints(|points| - d - i, d)
      invariant curve == level[..i]
    {
      assert i + d <= |points| - d;
      var j := 0;
      while j < d
        invariant 0 <= j <= d
        invariant curve == level[..i + j]
      {
        assert level[i + j] == (1.0 - t) * points[i + j] + t * points[i + d + j];
        assert level[..i + j + 1] == level[..i + j] + [level[i + j]];
        curve := curve + [(1.0 - t) * points[i + j] + t * points[i + d + j]];
        j := j + 1;
      }
      i := i + d;
    }
    assert curve == level;
    r := DeCasteljauKernel(curve, t, d);
  }

  /** At `t = 0` the curve is at its first control point. */
  lemma {:induction false} KernelAtZero(points: seq<real>, d: nat)
    requires IsPolygon(points, d)
    ensures Kernel(points, 0.0, d) == points[..d]
    decreases |points|
  {
    if |points| > d {
      var level := LerpLevel(points, 0.0, d);
      KernelAtZero(level, d);
      assert level[..d] == points[..d];
    }
  }

  /** At `t = 1` the curve is at its last control point. */
  lemma {:induction false} KernelAtOne(points: seq<real>, d: nat)
    requires IsPolygon(points, d)
    ensures Kernel(points, 1.0, d) == points[|points| - d..]
    decreases |points|
  {
    if |points| > d {
      KernelAtOne(LerpLevel(points, 1.0, d), d);
      LevelAtOne(points, d);
    }
  }

  /** At `t = 1` a level keeps the last control point. */
  lemma LevelAtOne(points: seq<real>, d: nat)
    requires IsPolygon(points, d) && |points| > d
    ensures |LerpLevel(points, 1.0, d)| >= d
    ensures LerpLevel(points, 1.0, d)[|points| - 2 * d..] == points[|points| - d..]
  {
    var level := LerpLevel(points, 1.0, d);
    assert WholePoints(|points| - d, d);
    var tail, last := level[|points| - 2 * d..], points[|points| - d..];
    forall j | 0 <= j < d
      ensures tail[j] == last[j]
    {
      var m := |points| - 2 * d + j;
      assert level[m] == (1.0 - 1.0) * points[m] + 1.0 * points[m + d];
    }
    assert tail == last;
  }

  /** Every control point `P` satisfies `a*P[cx] + b*P[cy] == c`: the control
      polygon lies on one line of the (cx, cy) coordinate plane. */
  ghost predicate OnLine(points: seq<real>, d: nat, cx: nat, cy: nat, a: real, b: real, c: real)
    requires cx < d && cy < d
    decreases |points|
  {
    |points| < d || (a * points[cx] + b * points[cy] == c && OnLine(points[d..], d, cx, cy, a, b, c))
  }

  /** Lerping adjacent points of a polygon on a line gives points on that line. */
  lemma {:induction false} LevelOnLine(points: seq<real>, t: real, d: nat, cx: nat, cy: nat, a: real, b: real, c: real)
    requires cx < d && cy < d && |points| >= d
    requires OnLine(points, d, cx, cy, a, b, c)
    ensures OnLine(LerpLevel(points, t, d), d, cx, cy, a, b, c)
    decreases |points|
  {
    var level := LerpLevel(points, t, d);
    if |level| >= d {
      var p, q := points[cx], points[d + cx];
      var p', q' := points[cy], points[d + cy];
      assert a * q + b * q' == c by { assert points[d..][cx] == q && points[d..][cy] == q'; }
      calc {
        a * level[cx] + b * level[cy];
        a * ((1.0 - t) * p + t * q) + b * ((1.0 - t) * p' + t * q');
        (1.0 - t) * (a * p + b * p') + t * (a * q + b * q');
        c;
      }
      LevelOnLine(points[d..], t, d, cx, cy, a, b, c);
      var shifted := LerpLevel(points[d..], t, d);
      assert |level[d..]| == |shifted|;
      forall m | 0 <= m < |shifted| ensures level[d..][m] == shifted[m] {
        assert points[d..][m] == points[d + m] && points[d..][m + d] == points[d + m + d];
      }
      assert level[d..] == shifted;
    }
  }

  /** A straight control polygon gives straight curve points: if every control
      point lies on a line, so does the curve point at any `t`. */
  lemma {:induction false} KernelOnLine(points: seq<real>, t: real, d: nat, cx: nat, cy: nat, a: real, b: real, c: real)
    requires IsPolygon(points, d) && cx < d && cy < d
    requires OnLine(points, d, cx, cy, a, b, c)
    ensures a * Kernel(points, t, d)[cx] + b * Kernel(points, t, d)[cy] == c
    decreases |points|
  {
    if |points| > d {
      LevelOnLine(points, t, d, cx, cy, a, b, c);
      KernelOnLine(LerpLevel(points, t, d), t, d, cx, cy, a, b, c);
    }
  }

  /** Sample time `k`: `step` added to 0.0 `k` times, as the source's
      `t += step` does (exactly, since reals do not round). */
  function Time(step: real, k: nat): real
  {
    if k == 0 then 0.0 else Time(step, k - 1) + step
  }

  /** Sample time `k` is `k*step`. */
  lemma {:induction false} TimeIsProduct(step: real, k: nat)
    ensures Time(step, k) == (k as real) * step
  {
    if k > 0 {
      TimeIsProduct(step, k - 1);
      assert (k as real) * step == ((k - 1) as real) * step + step;
    }
  }

  /** A later sample time is a larger one. */
  lemma {:induction false} TimeIncreases(step: real, j: nat, k: nat)
    requires step > 0.0 && j <= k
    ensures Time(step, j) <= Time(step, k)
    decreases k
  {
    if j < k {
      TimeIncreases(step, j, k - 1);
    }
  }

  /** The sample times stay below 1 for fewer than this many `k`; the bound
      makes the sampling loops terminate. */
  function StepBound(step: real): int
    requires step > 0.0
  {
    (1.0 / step).Floor + 1
  }

  lemma MulStrict(a: real, b: real, c: real)
    requires a < b && c > 0.0
    ensures a * c < b * c
  {
    assert (b - a) * c > 0.0;
  }

  /** A sample time below 1 has an index below the bound. */
  lemma BelowBound(step: real, k: nat)
    requires step > 0.0 && Time(step, k) < 1.0
    ensures k < StepBound(step)
  {
    TimeIsProduct(step, k);
    var inv := 1.0 / step;
    MulStrict((k as real) * step, 1.0, inv);
    assert ((k as real) * step) * inv == (k as real) * (step * inv);
  }

  /** The number of sample times from the `k`-th on that are below 1. */
  function SampleCount(step: real, k: nat): nat
    requires step > 0.0
    decreases StepBound(step) - k
  {
    if Time(step, k) < 1.0 then
      BelowBound(step, k);
      1 + SampleCount(step, k + 1)
    else 0
  }

  /** `SampleCount(step, 1)` is `#{k >= 1 : k*step < 1}`: the times from the
      `k`-th on are below 1 exactly for the first `SampleCount(step, k)`. */
  lemma {:induction false} SampleCountIsCount(step: real, k: nat, j: nat)
    requires step > 0.0 && k <= j
    ensures Time(step, j) < 1.0 <==> j < k + SampleCount(step, k)
    decreases StepBound(step) - k
  {
    if Time(step, k) < 1.0 {
      BelowBound(step, k);
      if j > k {
        SampleCountIsCount(step, k + 1, j);
      }
    } else {
      TimeIncreases(step, k, j);
    }
  }

  /** The samples of the de Casteljau sampler at times `j*step`, `j >= k`,
      while below 1, one curve point each. */
  function DeCasteljauSamples(points: seq<real>, step: real, d: nat, k: nat): seq<real>
    requires IsPolygon(points, d) && step > 0.0
    decreases StepBound(step) - k
  {
    if Time(step, k) < 1.0 then
      BelowBound(step, k);
      Kernel(points, Time(step, k), d) + DeCasteljauSamples(points, step, d, k + 1)
    else []
  }

  /** The curve `bezier_deCasteljau` produces: the first control point, then
      one curve point per sample time; the last control point is not added. */
  function DeCasteljauCurve(points: seq<real>, step: real, d: nat): (r: seq<real>)
    requires IsPolygon(points, d) && step > 0.0
    ensures |r| == d * (1 + SampleCount(step, 1))
  {
    SamplesShape(points, step, d, 1);
    assert d * (1 + SampleCount(step, 1)) == d + d * SampleCount(step, 1);
    points[..d] + DeCasteljauSamples(points, step, d, 1)
  }

  /** The curve points at times `k*step, (k+1)*step, ...`, `n` of them. */
  function KernelPoints(points: seq<real>, step: real, d: nat, k: nat, n: nat): (r: seq<seq<real>>)
    requires IsPolygon(points, d)
  {
    seq(n, j requires 0 <= j < n => Kernel(points, Time(step, k + j), d))
  }

  /** Seen as points, the samples from time `k` on are the curve points at
      those times, `SampleCount(step, k)` of them, `d` coordinates each. */
  lemma {:induction false} SamplesShape(points: seq<real>, step: real, d: nat, k: nat)
    requires IsPolygon(points, d) && step > 0.0
    ensures |DeCasteljauSamples(points, step, d, k)| == d * SampleCount(step, k)
    ensures Chunks(DeCasteljauSamples(points, step, d, k), d) == KernelPoints(points, step, d, k, SampleCount(step, k))
    decreases StepBound(step) - k
  {
    if Time(step, k) < 1.0 {
      BelowBound(step, k);
      SamplesShape(points, step, d, k + 1);
      var head := Kernel(points, Time(step, k), d);
      var rest := DeCasteljauSamples(points, step, d, k + 1);
      var n := SampleCount(step, k + 1);
      assert SampleCount(step, k) == n + 1;
      assert DeCasteljauSamples(points, step, d, k) == head + rest;
      assert d * (n + 1) == d * n + d;
      ChunksAppend(head, rest, d);
      var want, tail := KernelPoints(points, step, d, k, n + 1), KernelPoints(points, step, d, k + 1, n);
      assert want[0] == head;
      forall j | 0 <= j < n ensures want[j + 1] == tail[j] {
        assert k + (j + 1) == (k + 1) + j;
      }
      assert want == [head] + tail;
    }
  }

  /** The whole de Casteljau curve: `d * (1 + #{k >= 1 : k*step < 1})`
      coordinates; as points, the first control point and then the curve
      points at times `step, 2*step, ...` below 1. */
  lemma DeCasteljauCurveShape(points: seq<real>, step: real, d: nat)
    requires IsPolygon(points, d) && step > 0.0
    ensures |DeCasteljauCurve(points, step, d)| == d * (1 + SampleCount(step, 1))
    ensures Chunks(DeCasteljauCurve(points, step, d), d)
         == [points[..d]] + KernelPoints(points, step, d, 1, SampleCount(step, 1))
  {
    SamplesShape(points, step, d, 1);
    assert d * (1 + SampleCount(step, 1)) == d + d * SampleCount(step, 1);
    ChunksAppend(points[..d], DeCasteljauSamples(points, step, d, 1), d);
  }

  /** Coordinates `[d*j, d*j+d)` are point `j` of a flat sequence. */
  lemma {:induction false} ChunkAt(s: seq<real>, d: nat, j: nat)
    requires d >= 1 && j < |Chunks(s, d)|
    ensures d * j + d <= |s| && Chunks(s, d)[j] == s[d * j..d * j + d]
    decreases j
  {
    if j > 0 {
      ChunkAt(s[d..], d, j - 1);
      assert d * j == d + d * (j - 1);
    }
  }

  /** Point `j >= 1` of the de Casteljau curve is the curve point at time
      `j*step`; point 0 is the first control point. */
  lemma DeCasteljauCurvePoint(points: seq<real>, step: real, d: nat, j: nat)
    requires IsPolygon(points, d) && step > 0.0
    requires 1 <= j <= SampleCount(step, 1)
    ensures d * j + d <= |DeCasteljauCurve(points, step, d)|
    ensures DeCasteljauCurve(points, step, d)[d * j..d * j + d] == Kernel(points, Time(step, j), d)
  {
    DeCasteljauCurveShape(points, step, d);
    var curve := DeCasteljauCurve(points, step, d);
    ChunkAt(curve, d, j);
    assert Chunks(curve, d)[j] == KernelPoints(points, step, d, 1, SampleCount(step, 1))[j - 1];
    assert 1 + (j - 1) == j;
  }

  /** A polygon on a line stays on it after dropping its first point. */
  lemma OnLineTail(points: seq<real>, d: nat, cx: nat, cy: nat, a: real, b: real, c: real)
    requires cx < d && cy < d && |points| >= d
    requires OnLine(points, d, cx, cy, a, b, c)
    ensures a * points[cx] + b * points[cy] == c
    ensures OnLine(points[..d], d, cx, cy, a, b, c)
  {
    assert OnLine(points[..d][d..], d, cx, cy, a, b, c);
  }

  /** Prepending one point on the line keeps the polygon on it. */
  lemma OnLineCons(p: seq<real>, rest: seq<real>, d: nat, cx: nat, cy: nat, a: real, b: real, c: real)
    requires cx < d && cy < d && |p| == d
    requires a * p[cx] + b * p[cy] == c && OnLine(rest, d, cx, cy, a, b, c)
    ensures OnLine(p + rest, d, cx, cy, a, b, c)
  {
    assert (p + rest)[d..] == rest;
  }

  lemma {:induction false} SamplesOnLine(points: seq<real>, step: real, d: nat, k: nat,
                                         cx: nat, cy: nat, a: real, b: real, c: real)
    requires IsPolygon(points, d) && step > 0.0 && cx < d && cy < d
    requires OnLine(points, d, cx, cy, a, b, c)
    ensures OnLine(DeCasteljauSamples(points, step, d, k), d, cx, cy, a, b, c)
    decreases StepBound(step) - k
  {
    if Time(step, k) < 1.0 {
      BelowBound(step, k);
      SamplesOnLine(points, step, d, k + 1, cx, cy, a, b, c);
      KernelOnLine(points, Time(step, k), d, cx, cy, a, b, c);
      OnLineCons(Kernel(points, Time(step, k), d), DeCasteljauSamples(points, step, d, k + 1), d, cx, cy, a, b, c);
    }
  }

  /** Every point of the sampled curve of a straight control polygon lies on
      the polygon's line. */
  lemma CurveOnLine(points: seq<real>, step: real, d: nat, cx: nat, cy: nat, a: real, b: real, c: real)
    requires IsPolygon(points, d) && step > 0.0 && cx < d && cy < d
    requires OnLine(points, d, cx, cy, a, b, c)
    ensures OnLine(DeCasteljauCurve(points, step, d), d, cx, cy, a, b, c)
  {
    OnLineTail(points, d, cx, cy, a, b, c);
    SamplesOnLine(points, step, d, 1, cx, cy, a, b, c);
    OnLineCons(points[..d], DeCasteljauSamples(points, step, d, 1), d, cx, cy, a, b, c);
  }

  /** The sampler never emits the last control point on its own: for the 1-D
      polygon `0, 0, 1` with step 0.5 the curve is `0, 0.25`, which does not
      end at 1. */
  lemma DeCasteljauOmitsLast()
    ensures DeCasteljauCurve([0.0, 0.0, 1.0], 0.5, 1) == [0.0, 0.25]
  {
    var points := [0.0, 0.0, 1.0];
    assert WholePoints(1, 1) && WholePoints(2, 1) && WholePoints(3, 1);
    assert Time(0.5, 1) == 0.5 && Time(0.5, 2) == 1.0;
    assert LerpLevel(points, 0.5, 1) == [0.0, 0.5];
    assert LerpLevel([0.0, 0.5], 0.5, 1) == [0.25];
    assert Kernel(points, 0.5, 1) == [0.25];
    assert DeCasteljauSamples(points, 0.5, 1, 2) == [];
  }

  /** `bezier_deCasteljau`: the first control point, then, for `t = step,
      2*step, ...` while `t < 1`, the curve point at `t`. */
  method BezierDeCasteljau(points: seq<real>, step: real, d: nat) returns (curve: seq<real>)
    requires IsPolygon(points, d) && step > 0.0
    ensures curve == DeCasteljauCurve(points, step, d)
  {
    curve := points[..d];
    var k: nat := 1;
    var t := step;
    while t < 1.0
      invariant t == Time(step, k)
      invariant curve + DeCasteljauSamples(points, step, d, k) == DeCasteljauCurve(points, step, d)
      decreases StepBound(step) - k
    {
      BelowBound(step, k);
      var sub := DeCasteljauKernel(points, t, d);
      curve := curve + sub;
      k := k + 1;
      t := t + step;
    }
  }

  /** `generate_bezier_curve(control_points, step_size, dimension)`: two or
      fewer coordinates are returned as they are; anything longer goes to the
      de Casteljau sampler. */
  method GenerateBezierCurve(points: seq<real>, step: real, d: nat) returns (curve: seq<real>)
    requires |points| <= 2 || (IsPolygon(points, d) && step > 0.0)
    ensures |points| <= 2 ==> curve == points
    ensures |points| > 2 ==> curve == DeCasteljauCurve(points, step, d)
  {
    if |points| <= 2 {
      return points;
    }
    curve := BezierDeCasteljau(points, step, d);
  }

  /** `n >= 1` whole points of dimension `d` make a polygon. */
  lemma {:induction false} WholeMultiple(n: nat, d: nat)
    requires n >= 1 && d >= 1
    ensures WholePoints(d * n, d)
    decreases n
  {
    if n > 1 {
      WholeMultiple(n - 1, d);
      assert d * n - d == d * (n - 1);
    }
  }

  /** The plane wrapper of `generate_bezier_curve`: two or fewer control
      points come back as they are; otherwise the points are flattened to
      `x, y` pairs, sampled in dimension 2 and regrouped pair by pair. */
  method GenerateBezierCurve2(cps: seq<Vec2>, step: real) returns (r: seq<Vec2>)
    requires |cps| <= 2 || step > 0.0
    ensures |cps| <= 2 ==> r == cps
    ensures |cps| > 2 ==> IsPolygon(Flat2(cps), 2) && r == Group2(DeCasteljauCurve(Flat2(cps), step, 2))
  {
    if |cps| <= 2 {
      return cps;
    }
    var points := FlattenPoints2(cps);
    WholeMultiple(|cps|, 2);
    var curve := GenerateBezierCurve(points, step, 2);
    DeCasteljauCurveShape(points, step, 2);
    r := GroupPoints2(curve);
  }

  /** The `push_back(p.x); push_back(p.y)` loop of the plane wrapper. */
  method FlattenPoints2(cps: seq<Vec2>) returns (points: seq<real>)
    ensures points == Flat2(cps)
  {
    points := [];
    for i := 0 to |cps|
      invariant points == Flat2(cps[..i])
    {
      assert cps[..i + 1][..i] == cps[..i];
      points := points + [cps[i].x];
      points := points + [cps[i].y];
    }
    assert cps[..|cps|] == cps;
  }

  /** The loop of the plane wrapper that reads the curve back two
      coordinates at a time. */
  method GroupPoints2(curve: seq<real>) returns (r: seq<Vec2>)
    requires |curve| % 2 == 0
    ensures r == Group2(curve)
  {
    r := [];
    var i := 0;
    while i < |curve| - 1
      invariant i == 2 * |r| && i <= |curve|
      invariant forall j :: 0 <= j < |r| ==> r[j] == Vec2(curve[2 * j], curve[2 * j + 1])
    {
      r := r + [Vec2(curve[i], curve[i + 1])];
      i := i + 2;
    }
    assert |r| == |curve| / 2;
  }

  /** The space wrapper: the same with `x, y, z` triples. */
  method GenerateBezierCurve3(cps: seq<Vec3>, step: real) returns (r: seq<Vec3>)
    requires |cps| <= 2 || step > 0.0
    ensures |cps| <= 2 ==> r == cps
    ensures |cps| > 2 ==> IsPolygon(Flat3(cps), 3) && r == Group3(DeCasteljauCurve(Flat3(cps), step, 3))
  {
    if |cps| <= 2 {
      return cps;
    }
    var points := FlattenPoints3(cps);
    WholeMultiple(|cps|, 3);
    var curve := GenerateBezierCurve(points, step, 3);
    DeCasteljauCurveShape(points, step, 3);
    r := GroupPoints3(curve);
  }

  /** The `x, y, z` flattening loop of the space wrapper. */
  method FlattenPoints3(cps: seq<Vec3>) returns (points: seq<real>)
    ensures points == Flat3(cps)
  {
    points := [];
    for i := 0 to |cps|
      invariant points == Flat3(cps[..i])
    {
      assert cps[..i + 1][..i] == cps[..i];
      points := points + [cps[i].x];
      points := points + [cps[i].y];
      points := points + [cps[i].z];
    }
    assert cps[..|cps|] == cps;
  }

  /** The loop of the space wrapper that reads the curve back three
      coordinates at a time. */
  method GroupPoints3(curve: seq<real>) returns (r: seq<Vec3>)
    requires |curve| % 3 == 0
    ensures r == Group3(curve)
  {
    r := [];
    var i := 0;
    while i < |curve| - 2
      invariant i == 3 * |r| && i <= |curve|
      invariant forall j :: 0 <= j < |r| ==> r[j] == Vec3(curve[3 * j], curve[3 * j + 1], curve[3 * j + 2])
    {
      r := r + [Vec3(curve[i], curve[i + 1], curve[i + 2])];
      i := i + 3;
    }
    assert |r| == |curve| / 3;
  }

  /** What the plane wrapper returns, point by point: the first control point,
      then the curve point at each time `j*step < 1`. */
  lemma BezierCurve2Points(cps: seq<Vec2>, step: real, j: nat)
    requires step > 0.0 && |cps| > 2
    ensures IsPolygon(Flat2(cps), 2)
    ensures |Group2(DeCasteljauCurve(Flat2(cps), step, 2))| == 1 + SampleCount(step, 1)
    ensures Group2(DeCasteljauCurve(Flat2(cps), step, 2))[0] == cps[0]
    ensures 1 <= j <= SampleCount(step, 1) ==>
              var p := Kernel(Flat2(cps), Time(step, j), 2);
              Group2(DeCasteljauCurve(Flat2(cps), step, 2))[j] == Vec2(p[0], p[1])
  {
    WholeMultiple(|cps|, 2);
    var points := Flat2(cps);
    DeCasteljauCurveShape(points, step, 2);
    var curve := DeCasteljauCurve(points, step, 2);
    if 1 <= j <= SampleCount(step, 1) {
      DeCasteljauCurvePoint(points, step, 2, j);
      assert curve[2 * j] == curve[2 * j..2 * j + 2][0];
      assert curve[2 * j + 1] == curve[2 * j..2 * j + 2][1];
    }
  }
}
