/** Plane predicates: half-open rectangles and bounds, the orientation of an
    ordered triple, the segment-intersection test built on it, and the
    circumcentre of a triangle. */
module Planar {
  import opened Geometry

  /** `rect`: corner `(x, y)`, width `w`, height `h`. */
  datatype Rect = Rect(x: real, y: real, w: real, h: real)

  /** `bounds`: the two opposite corners. */
  datatype Bounds = Bounds(topLeft: Vec2, bottomRight: Vec2)

  // ---------------------------------------------------------------------
  // Rectangles and bounds

  /** `in_rect(p, r)` (all three overloads): the rectangle holds its left and
      top edges but not its right and bottom ones. */
  predicate InRect(p: Vec2, r: Rect)
  {
    p.x >= r.x && p.y >= r.y && p.x < r.x + r.w && p.y < r.y + r.h
  }

  /** `in_bounds(p, b)` (all three overloads), half-open the same way. */
  predicate InBounds(p: Vec2, b: Bounds)
  {
    p.x >= b.topLeft.x && p.y >= b.topLeft.y && p.x < b.bottomRight.x && p.y < b.bottomRight.y
  }

  /** The bounds covering the same region as a rectangle. */
  function RectBounds(r: Rect): (b: Bounds)
    ensures b.bottomRight.x - b.topLeft.x == r.w && b.bottomRight.y - b.topLeft.y == r.h
  {
    Bounds(Vec2(r.x, r.y), Vec2(r.x + r.w, r.y + r.h))
  }

  /** The two tests agree on every point. */
  lemma InRectIsInBounds(p: Vec2, r: Rect)
    ensures InRect(p, r) <==> InBounds(p, RectBounds(r))
  {
  }

  /** Half-openness: cutting a rectangle in two at `x + cut` puts every point
      of it in exactly one of the halves, so adjacent cells never both claim
      a point on their shared edge. */
  lemma RectSplit(p: Vec2, r: Rect, cut: real)
    requires 0.0 <= cut <= r.w
    ensures var left, right := Rect(r.x, r.y, cut, r.h), Rect(r.x + cut, r.y, r.w - cut, r.h);
            && (InRect(p, r) <==> InRect(p, left) || InRect(p, right))
            && !(InRect(p, left) && InRect(p, right))
  {
  }

  // ---------------------------------------------------------------------
  // Orientation

  /** `(q.y - p.y) * (r.x - q.x) - (q.x - p.x) * (r.y - q.y)`: positive for a
      clockwise triple, negative for a counter-clockwise one, zero when
      collinear. */
  function Cross(p: Vec2, q: Vec2, r: Vec2): real
  {
    (q.y - p.y) * (r.x - q.x) - (q.x - p.x) * (r.y - q.y)
  }

  /** Conversion of a floating value to C `int`: the fraction is dropped,
      rounding toward zero. */
  function Trunc(v: real): (n: int)
    ensures v >= 0.0 ==> n as real <= v < n as real + 1.0
    ensures v <= 0.0 ==> n as real - 1.0 < v <= n as real
  {
    if v >= 0.0 then v.Floor else -((-v).Floor)
  }

  lemma TruncOdd(v: real)
    ensures Trunc(-v) == -Trunc(v)
  {
  }

  /** `orientation(p, q, r)` as written: the cross value is stored in an
      `int`, so 0 (collinear) is reported for every value strictly between
      -1 and 1; otherwise 1 (clockwise) or 2 (counter-clockwise). */
  function Orientation(p: Vec2, q: Vec2, r: Vec2): (o: int)
    ensures o == 0 <==> -1.0 < Cross(p, q, r) < 1.0
    ensures o == 1 <==> Cross(p, q, r) >= 1.0
    ensures o == 2 <==> Cross(p, q, r) <= -1.0
  {
    var val := Trunc(Cross(p, q, r));
    if val == 0 then 0 else if val > 0 then 1 else 2
  }

  /** Clockwise and counter-clockwise exchanged. */
  function Flip(o: int): int
  {
    if o == 1 then 2 else if o == 2 then 1 else o
  }

  /** Exchanging the first two points reverses the orientation ... */
  lemma OrientationSwap(p: Vec2, q: Vec2, r: Vec2)
    ensures Orientation(q, p, r) == Flip(Orientation(p, q, r))
  {
    assert Cross(q, p, r) == -Cross(p, q, r);
  }

  /** ... and rotating the triple keeps it. */
  lemma OrientationRotate(p: Vec2, q: Vec2, r: Vec2)
    ensures Orientation(q, r, p) == Orientation(p, q, r)
  {
    assert Cross(q, r, p) == Cross(p, q, r);
  }

  /** On integer coordinates the truncation loses nothing: the orientation is
      the exact sign of the cross value. */
  lemma OrientationOfIntegerPoints(px: int, py: int, qx: int, qy: int, rx: int, ry: int)
    ensures var c := (qy - py) * (rx - qx) - (qx - px) * (ry - qy);
            Orientation(Vec2(px as real, py as real), Vec2(qx as real, qy as real), Vec2(rx as real, ry as real))
            == if c == 0 then 0 else if c > 0 then 1 else 2
  {
    var c := (qy - py) * (rx - qx) - (qx - px) * (ry - qy);
    var p, q, r := Vec2(px as real, py as real), Vec2(qx as real, qy as real), Vec2(rx as real, ry as real);
    assert ((qy - py) * (rx - qx)) as real == ((qy - py) as real) * ((rx - qx) as real);
    assert ((qx - px) * (ry - qy)) as real == ((qx - px) as real) * ((ry - qy) as real);
    assert Cross(p, q, r) == c as real;
  }

  /** The orientation the test is meant to use: the exact sign. */
  function ExactOrientation(p: Vec2, q: Vec2, r: Vec2): (o: int)
    ensures o == 0 <==> Cross(p, q, r) == 0.0
    ensures o == 1 <==> Cross(p, q, r) > 0.0
    ensures o == 2 <==> Cross(p, q, r) < 0.0
  {
    var val := Cross(p, q, r);
    if val == 0.0 then 0 else if val > 0.0 then 1 else 2
  }

  /** The two agree whenever the cross value is 0 or at least 1 in size. */
  lemma OrientationAgrees(p: Vec2, q: Vec2, r: Vec2)
    requires Cross(p, q, r) == 0.0 || Cross(p, q, r) >= 1.0 || Cross(p, q, r) <= -1.0
    ensures Orientation(p, q, r) == ExactOrientation(p, q, r)
  {
  }

  // ---------------------------------------------------------------------
  // Segments

  function Max(a: real, b: real): real { if a >= b then a else b }
  function Min(a: real, b: real): real { if a <= b then a else b }

  /** `on_segment(p, q, r)`: `q` lies in the closed bounding box of `p` and
      `r` (for collinear points, on the segment `pr`). */
  predicate OnSegment(p: Vec2, q: Vec2, r: Vec2)
  {
    q.x <= Max(p.x, r.x) && q.x >= Min(p.x, r.x) && q.y <= Max(p.y, r.y) && q.y >= Min(p.y, r.y)
  }

  /** The point at parameter `s` of the segment from `p` to `r`. */
  function Along(p: Vec2, r: Vec2, s: real): Vec2
  {
    Vec2(p.x + s * (r.x - p.x), p.y + s * (r.y - p.y))
  }

  /** Signs of a product. */
  lemma MulSigns(x: real, y: real)
    ensures x >= 0.0 && y >= 0.0 ==> x * y >= 0.0
    ensures x > 0.0 && y > 0.0 ==> x * y > 0.0
    ensures x >= 0.0 && y <= 0.0 ==> x * y <= 0.0
    ensures x > 0.0 && y < 0.0 ==> x * y < 0.0
  {
  }

  lemma BetweenCoord(a: real, b: real, s: real)
    requires 0.0 <= s <= 1.0
    ensures Min(a, b) <= a + s * (b - a) <= Max(a, b)
  {
    MulSigns(s, b - a);
    MulSigns(1.0 - s, b - a);
    assert (1.0 - s) * (b - a) == (b - a) - s * (b - a);
  }

  /** Every point of the segment passes the box test, and the test does not
      depend on which end comes first. */
  lemma OnSegmentHoldsOnSegment(p: Vec2, r: Vec2, s: real)
    requires 0.0 <= s <= 1.0
    ensures OnSegment(p, Along(p, r, s), r)
    ensures OnSegment(r, Along(p, r, s), p)
  {
    BetweenCoord(p.x, r.x, s);
    BetweenCoord(p.y, r.y, s);
  }

  /** Exactly the points of a line are mixes of its two points: a point with
      cross value 0 against two distinct points lies at some parameter of
      their segment's line. */
  lemma OnLineParameter(p: Vec2, q: Vec2, r: Vec2) returns (s: real)
    requires Cross(p, q, r) == 0.0 && p != r
    ensures q == Along(p, r, s)
    ensures p.x != r.x ==> s == (q.x - p.x) / (r.x - p.x)
    ensures p.x == r.x ==> s == (q.y - p.y) / (r.y - p.y)
  {
    // Collinearity, measured from p: (q - p) x (r - p) == 0.
    assert (q.y - p.y) * (r.x - p.x) == (q.x - p.x) * (r.y - p.y) by {
      assert (q.y - p.y) * (r.x - p.x) == (q.y - p.y) * (r.x - q.x) + (q.y - p.y) * (q.x - p.x);
      assert (q.x - p.x) * (r.y - p.y) == (q.x - p.x) * (r.y - q.y) + (q.x - p.x) * (q.y - p.y);
    }
    if p.x != r.x {
      s := (q.x - p.x) / (r.x - p.x);
      assert s * (r.x - p.x) == q.x - p.x;
      assert s * (r.y - p.y) * (r.x - p.x) == (q.y - p.y) * (r.x - p.x);
      CancelFactor(s * (r.y - p.y), q.y - p.y, r.x - p.x);
    } else {
      s := (q.y - p.y) / (r.y - p.y);
      assert s * (r.y - p.y) == q.y - p.y;
      assert (q.x - p.x) * (r.y - p.y) == 0.0;
      ZeroProduct(q.x - p.x, r.y - p.y);
    }
  }

  lemma CancelFactor(a: real, b: real, c: real)
    requires c != 0.0 && a * c == b * c
    ensures a == b
  {
    assert (a - b) * c == 0.0;
    ZeroProduct(a - b, c);
  }

  lemma ZeroProduct(a: real, b: real)
    requires a * b == 0.0
    ensures a == 0.0 || b == 0.0
  {
    if a != 0.0 && b != 0.0 {
      MulSigns(a, b);
      MulSigns(-a, b);
      MulSigns(a, -b);
      MulSigns(-a, -b);
    }
  }

  /** `x` lies between `a` and `b`, and `a != b`: its parameter `(x - a) /
      (b - a)` is in `[0, 1]`. */
  lemma BetweenParameter(a: real, b: real, x: real)
    requires a != b && Min(a, b) <= x <= Max(a, b)
    ensures 0.0 <= (x - a) / (b - a) <= 1.0
  {
    if b > a {
      UnitFraction(x - a, b - a);
    } else {
      assert (x - a) / (b - a) == (a - x) / (a - b);
      UnitFraction(a - x, a - b);
    }
  }

  lemma UnitFraction(n: real, m: real)
    requires 0.0 <= n <= m && m > 0.0
    ensures 0.0 <= n / m <= 1.0
  {
    var f := n / m;
    assert f * m == n;
    if f > 1.0 {
      assert f * m > m by { MulSigns(f - 1.0, m); }
    }
  }

  /** The converse: a point collinear with `p` and `r` that passes the box
      test lies on the segment `pr`. */
  lemma OnSegmentOnlyOnSegment(p: Vec2, q: Vec2, r: Vec2) returns (s: real)
    requires Cross(p, q, r) == 0.0 && OnSegment(p, q, r)
    ensures 0.0 <= s <= 1.0 && q == Along(p, r, s)
  {
    if p == r {
      s := 0.0;
      assert q == p;
    } else {
      s := OnLineParameter(p, q, r);
      if p.x != r.x {
        BetweenParameter(p.x, r.x, q.x);
      } else {
        BetweenParameter(p.y, r.y, q.y);
      }
    }
  }

  /** `do_intersect(p1, q1, p2, q2)` over a given orientation test `orient`:
      the general case (each segment's ends on different sides of the other's
      line), then the four collinear special cases in the source's order. */
  predicate Intersects(orient: (Vec2, Vec2, Vec2) -> int, p1: Vec2, q1: Vec2, p2: Vec2, q2: Vec2)
  {
    var o1, o2 := orient(p1, q1, p2), orient(p1, q1, q2);
    var o3, o4 := orient(p2, q2, p1), orient(p2, q2, q1);
    || (o1 != o2 && o3 != o4)
    || (o1 == 0 && OnSegment(p1, p2, q1))
    || (o2 == 0 && OnSegment(p1, q2, q1))
    || (o3 == 0 && OnSegment(p2, p1, q2))
    || (o4 == 0 && OnSegment(p2, q1, q2))
  }

  /** `do_intersect` as written, on the truncating orientation. */
  predicate DoIntersect(p1: Vec2, q1: Vec2, p2: Vec2, q2: Vec2)
  {
    Intersects(Orientation, p1, q1, p2, q2)
  }

  /** `do_intersect` on the exact orientation. */
  predicate ExactDoIntersect(p1: Vec2, q1: Vec2, p2: Vec2, q2: Vec2)
  {
    Intersects(ExactOrientation, p1, q1, p2, q2)
  }

  /** Neither test depends on which segment is given first. */
  lemma DoIntersectSymmetric(p1: Vec2, q1: Vec2, p2: Vec2, q2: Vec2)
    ensures DoIntersect(p1, q1, p2, q2) <==> DoIntersect(p2, q2, p1, q1)
    ensures ExactDoIntersect(p1, q1, p2, q2) <==> ExactDoIntersect(p2, q2, p1, q1)
  {
  }

  /** The truncation at work: the segments `(0,0)-(1,0)` and
      `(0.5,-0.25)-(0.5,0.25)` cross at `(0.5, 0)`, yet every cross value is
      `+-0.25`, all four orientations come out 0, none of the box tests
      passes, and the test answers false.  The exact test answers true. */
  lemma TruncationMissesCrossing()
    ensures var p1, q1, p2, q2 := Vec2(0.0, 0.0), Vec2(1.0, 0.0), Vec2(0.5, -0.25), Vec2(0.5, 0.25);
            && Along(p1, q1, 0.5) == Vec2(0.5, 0.0) == Along(p2, q2, 0.5)
            && !DoIntersect(p1, q1, p2, q2)
            && ExactDoIntersect(p1, q1, p2, q2)
  {
    var p1, q1, p2, q2 := Vec2(0.0, 0.0), Vec2(1.0, 0.0), Vec2(0.5, -0.25), Vec2(0.5, 0.25);
    assert Cross(p1, q1, p2) == 0.25 && Cross(p1, q1, q2) == -0.25;
    assert Cross(p2, q2, p1) == -0.25 && Cross(p2, q2, q1) == 0.25;
  }

  /** The cross value is affine in its last point. */
  lemma CrossAffine(p: Vec2, q: Vec2, a: Vec2, b: Vec2, u: real)
    ensures Cross(p, q, Along(a, b, u)) == (1.0 - u) * Cross(p, q, a) + u * Cross(p, q, b)
  {
  }

  /** Points of the line through `p` and `q` have cross value 0. */
  lemma CrossOnLine(p: Vec2, q: Vec2, s: real)
    ensures Cross(p, q, Along(p, q, s)) == 0.0
  {
    assert Along(p, q, s).x - q.x == (s - 1.0) * (q.x - p.x);
    assert Along(p, q, s).y - q.y == (s - 1.0) * (q.y - p.y);
  }

  /** A zero mix `(1-u) a + u b` with `0 <= u <= 1` of two values that are
      not both 0 has them in different sign classes: one is 0 and the other
      not, or they have opposite signs. */
  lemma MixSignsDiffer(a: real, b: real, u: real)
    requires 0.0 <= u <= 1.0 && (a != 0.0 || b != 0.0)
    requires (1.0 - u) * a + u * b == 0.0
    ensures !(a > 0.0 && b > 0.0) && !(a < 0.0 && b < 0.0)
  {
    MulSigns(1.0 - u, a);
    MulSigns(u, b);
    MulSigns(1.0 - u, -a);
    MulSigns(u, -b);
    assert u == 0.0 ==> (1.0 - u) * a == a;
  }

  /** Two values in different sign classes: `a / (a - b)` is a parameter in
      `[0, 1]`. */
  lemma MixParameter(a: real, b: real)
    requires ExactSign(a) != ExactSign(b)
    ensures a - b != 0.0 && 0.0 <= a / (a - b) <= 1.0
  {
    if a > 0.0 && b < 0.0 {
      UnitFraction(a, a - b);
    } else if a < 0.0 && b > 0.0 {
      assert a / (a - b) == (-a) / (b - a);
      UnitFraction(-a, b - a);
    } else if b == 0.0 {
      assert a / (a - b) == 1.0;
    }
  }

  /** The sign class of a value, as `ExactOrientation` reports it. */
  function ExactSign(v: real): int
  {
    if v == 0.0 then 0 else if v > 0.0 then 1 else 2
  }

  /** The cross value measured from `p`: `(r - p) x (q - p)`, in components. */
  lemma CrossFromStart(p: Vec2, q: Vec2, r: Vec2)
    ensures Cross(p, q, r) == (q.y - p.y) * (r.x - p.x) - (q.x - p.x) * (r.y - p.y)
  {
    assert (q.y - p.y) * (r.x - p.x) == (q.y - p.y) * (r.x - q.x) + (q.y - p.y) * (q.x - p.x);
    assert (q.x - p.x) * (r.y - p.y) == (q.x - p.x) * (r.y - q.y) + (q.x - p.x) * (q.y - p.y);
  }

  /** Cramer's rule for two direction vectors `(a, b)`, `(e, f)` and an
      offset `(g, h)`, written without division. */
  lemma CramerIdentity(a: real, b: real, e: real, f: real, g: real, h: real)
    ensures (a * f - b * e) * g + (b * g - a * h) * e + (e * h - f * g) * a == 0.0
    ensures (a * f - b * e) * h + (b * g - a * h) * f + (e * h - f * g) * b == 0.0
  {
  }

  /** The meeting parameters of two non-parallel lines: with `c1, c2, c3`
      the cross values of `p2`, `q2` against `p1 q1` and of `p1` against
      `p2 q2`, the point at `c3 / (c2 - c1)` of the first line is the point
      at `c1 / (c1 - c2)` of the second. */
  lemma LinesMeet(p1: Vec2, q1: Vec2, p2: Vec2, q2: Vec2, s: real, u: real)
    requires Cross(p1, q1, p2) != Cross(p1, q1, q2)
    requires u * (Cross(p1, q1, p2) - Cross(p1, q1, q2)) == Cross(p1, q1, p2)
    requires s * (Cross(p1, q1, p2) - Cross(p1, q1, q2)) == -Cross(p2, q2, p1)
    ensures Along(p1, q1, s) == Along(p2, q2, u)
  {
    var a, b := q1.x - p1.x, q1.y - p1.y;
    var e, f := q2.x - p2.x, q2.y - p2.y;
    var g, h := p2.x - p1.x, p2.y - p1.y;
    CrossFromStart(p1, q1, p2);
    CrossFromStart(p1, q1, q2);
    CrossFromStart(p2, q2, p1);
    var c1, c3 := Cross(p1, q1, p2), Cross(p2, q2, p1);
    var dd := Cross(p1, q1, p2) - Cross(p1, q1, q2);
    assert c1 == b * g - a * h;
    assert c3 == e * h - f * g;
    assert dd == a * f - b * e;
    CramerIdentity(a, b, e, f, g, h);
    var x1, x2 := Along(p1, q1, s), Along(p2, q2, u);
    assert dd * (x2.x - x1.x) == dd * g + (u * dd) * e - (s * dd) * a;
    assert dd * (x2.y - x1.y) == dd * h + (u * dd) * f - (s * dd) * b;
    ZeroProduct(dd, x2.x - x1.x);
    ZeroProduct(dd, x2.y - x1.y);
  }

  /** Reversing the last two points negates the cross value. */
  lemma CrossSwapLast(p: Vec2, q: Vec2, r: Vec2)
    ensures Cross(p, r, q) == -Cross(p, q, r)
  {
    CrossFromStart(p, q, r);
    CrossFromStart(p, r, q);
  }

  /** Soundness of the exact test: when it answers true the two segments
      share a point, found at parameter `s` of the first and `u` of the
      second. */
  lemma ExactDoIntersectSound(p1: Vec2, q1: Vec2, p2: Vec2, q2: Vec2) returns (s: real, u: real)
    requires ExactDoIntersect(p1, q1, p2, q2)
    ensures 0.0 <= s <= 1.0 && 0.0 <= u <= 1.0
    ensures Along(p1, q1, s) == Along(p2, q2, u)
  {
    var c1, c2 := Cross(p1, q1, p2), Cross(p1, q1, q2);
    var c3, c4 := Cross(p2, q2, p1), Cross(p2, q2, q1);
    if c1 == 0.0 && OnSegment(p1, p2, q1) {
      CrossSwapLast(p1, q1, p2);
      s := OnSegmentOnlyOnSegment(p1, p2, q1);
      u := 0.0;
    } else if c2 == 0.0 && OnSegment(p1, q2, q1) {
      CrossSwapLast(p1, q1, q2);
      s := OnSegmentOnlyOnSegment(p1, q2, q1);
      u := 1.0;
    } else if c3 == 0.0 && OnSegment(p2, p1, q2) {
      CrossSwapLast(p2, q2, p1);
      u := OnSegmentOnlyOnSegment(p2, p1, q2);
      s := 0.0;
    } else if c4 == 0.0 && OnSegment(p2, q1, q2) {
      CrossSwapLast(p2, q2, q1);
      u := OnSegmentOnlyOnSegment(p2, q1, q2);
      s := 1.0;
    } else {
      // The general case: each segment's ends are in different sign classes
      // against the other's line.
      assert ExactSign(c1) != ExactSign(c2) && ExactSign(c3) != ExactSign(c4);
      MixParameter(c1, c2);
      MixParameter(c3, c4);
      CrossFromStart(p1, q1, p2);
      CrossFromStart(p1, q1, q2);
      CrossFromStart(p2, q2, p1);
      CrossFromStart(p2, q2, q1);
      assert c3 - c4 == c2 - c1;
      u := c1 / (c1 - c2);
      s := c3 / (c3 - c4);
      LinesMeet(p1, q1, p2, q2, s, u);
    }
  }

  /** The point at parameter `u` between the points at `a` and `b` of one
      line is the point at `a + u (b - a)`. */
  lemma AlongAlong(p: Vec2, r: Vec2, a: real, b: real, u: real)
    ensures Along(Along(p, r, a), Along(p, r, b), u) == Along(p, r, a + u * (b - a))
  {
  }

  /** On a proper segment the parameter of a point is unique. */
  lemma AlongInjective(p: Vec2, r: Vec2, s: real, s': real)
    requires p != r && Along(p, r, s) == Along(p, r, s')
    ensures s == s'
  {
    assert (s - s') * (r.x - p.x) == 0.0 && (s - s') * (r.y - p.y) == 0.0;
    ZeroProduct(s - s', r.x - p.x);
    ZeroProduct(s - s', r.y - p.y);
  }

  /** Any end found on the other segment makes the exact test answer true. */
  lemma EndOnOtherFound(p1: Vec2, q1: Vec2, p2: Vec2, q2: Vec2)
    requires || (Cross(p1, q1, p2) == 0.0 && OnSegment(p1, p2, q1))
             || (Cross(p1, q1, q2) == 0.0 && OnSegment(p1, q2, q1))
             || (Cross(p2, q2, p1) == 0.0 && OnSegment(p2, p1, q2))
    ensures ExactDoIntersect(p1, q1, p2, q2)
  {
  }

  /** Parameters `a` and `b` on either side of `[0, 1]`: the point at 0 lies
      between the points at `a` and `b`. */
  lemma StraddleContainsStart(p: Vec2, r: Vec2, a: real, b: real)
    requires (a < 0.0 && b > 1.0) || (b < 0.0 && a > 1.0)
    ensures Cross(Along(p, r, a), Along(p, r, b), p) == 0.0
    ensures OnSegment(Along(p, r, a), p, Along(p, r, b))
  {
    BetweenParameter(a, b, 0.0);
    var v := (0.0 - a) / (b - a);
    assert v * (b - a) == -a;
    AlongAlong(p, r, a, b, v);
    assert Along(Along(p, r, a), Along(p, r, b), v) == p;
    CrossOnLine(Along(p, r, a), Along(p, r, b), v);
    OnSegmentHoldsOnSegment(Along(p, r, a), Along(p, r, b), v);
  }

  /** Two collinear segments sharing a point, the first a proper one: an end
      of one lies on the other. */
  lemma CollinearEndOnOther(p1: Vec2, q1: Vec2, p2: Vec2, q2: Vec2, s: real, u: real)
    requires p1 != q1
    requires 0.0 <= s <= 1.0 && 0.0 <= u <= 1.0
    requires Along(p1, q1, s) == Along(p2, q2, u)
    requires Cross(p1, q1, p2) == 0.0 && Cross(p1, q1, q2) == 0.0
    ensures || OnSegment(p1, p2, q1) || OnSegment(p1, q2, q1)
            || (Cross(p2, q2, p1) == 0.0 && OnSegment(p2, p1, q2))
  {
    CrossSwapLast(p1, q1, p2);
    CrossSwapLast(p1, q1, q2);
    var a := OnLineParameter(p1, p2, q1);
    var b := OnLineParameter(p1, q2, q1);
    AlongAlong(p1, q1, a, b, u);
    AlongInjective(p1, q1, s, a + u * (b - a));
    BetweenCoord(a, b, u);
    if 0.0 <= a <= 1.0 {
      OnSegmentHoldsOnSegment(p1, q1, a);
    } else if 0.0 <= b <= 1.0 {
      OnSegmentHoldsOnSegment(p1, q1, b);
    } else {
      StraddleContainsStart(p1, q1, a, b);
    }
  }

  /** Two collinear segments sharing a point: an end of one lies on the
      other, and the exact test finds it. */
  lemma CollinearOverlapFound(p1: Vec2, q1: Vec2, p2: Vec2, q2: Vec2, s: real, u: real)
    requires 0.0 <= s <= 1.0 && 0.0 <= u <= 1.0
    requires Along(p1, q1, s) == Along(p2, q2, u)
    requires Cross(p1, q1, p2) == 0.0 && Cross(p1, q1, q2) == 0.0
    ensures ExactDoIntersect(p1, q1, p2, q2)
  {
    if p1 == q1 {
      assert Along(p1, q1, s) == p1;
      CrossOnLine(p2, q2, u);
      OnSegmentHoldsOnSegment(p2, q2, u);
    } else {
      CollinearEndOnOther(p1, q1, p2, q2, s, u);
    }
    EndOnOtherFound(p1, q1, p2, q2);
  }

  /** Completeness of the exact test: any two segments that share a point,
      crossing, touching or overlapping, are reported as intersecting. */
  lemma ExactDoIntersectComplete(p1: Vec2, q1: Vec2, p2: Vec2, q2: Vec2, s: real, u: real)
    requires 0.0 <= s <= 1.0 && 0.0 <= u <= 1.0
    requires Along(p1, q1, s) == Along(p2, q2, u)
    ensures ExactDoIntersect(p1, q1, p2, q2)
  {
    var c1, c2 := Cross(p1, q1, p2), Cross(p1, q1, q2);
    var c3, c4 := Cross(p2, q2, p1), Cross(p2, q2, q1);
    if c1 == 0.0 && c2 == 0.0 {
      CollinearOverlapFound(p1, q1, p2, q2, s, u);
    } else if c3 == 0.0 && c4 == 0.0 {
      CollinearOverlapFound(p2, q2, p1, q1, u, s);
      DoIntersectSymmetric(p1, q1, p2, q2);
    } else {
      CrossOnLine(p1, q1, s);
      CrossAffine(p1, q1, p2, q2, u);
      MixSignsDiffer(c1, c2, u);
      CrossOnLine(p2, q2, u);
      CrossAffine(p2, q2, p1, q1, s);
      MixSignsDiffer(c3, c4, s);
    }
  }

  /** The exact test answers true exactly when the two closed segments share
      a point. */
  lemma ExactDoIntersectIff(p1: Vec2, q1: Vec2, p2: Vec2, q2: Vec2)
    ensures ExactDoIntersect(p1, q1, p2, q2)
        <==> exists s, u :: 0.0 <= s <= 1.0 && 0.0 <= u <= 1.0 && Along(p1, q1, s) == Along(p2, q2, u)
  {
    if ExactDoIntersect(p1, q1, p2, q2) {
      var s, u := ExactDoIntersectSound(p1, q1, p2, q2);
    }
    if exists s, u :: 0.0 <= s <= 1.0 && 0.0 <= u <= 1.0 && Along(p1, q1, s) == Along(p2, q2, u) {
      var s, u :| 0.0 <= s <= 1.0 && 0.0 <= u <= 1.0 && Along(p1, q1, s) == Along(p2, q2, u);
      ExactDoIntersectComplete(p1, q1, p2, q2, s, u);
    }
  }

  /** The truncation also invents intersections: `(0,0)-(10,0)` and
      `(0.05,0.05)-(0.05,1)` are disjoint, but their cross values `-0.5`,
      `-10`, `-0.0475` and `9.4525` truncate to orientations 0, 2, 0 and 1,
      so the general case fires. */
  lemma TruncationInventsCrossing()
    ensures var p1, q1, p2, q2 := Vec2(0.0, 0.0), Vec2(10.0, 0.0), Vec2(0.05, 0.05), Vec2(0.05, 1.0);
            && (forall s, u :: 0.0 <= s <= 1.0 && 0.0 <= u <= 1.0 ==> Along(p1, q1, s) != Along(p2, q2, u))
            && DoIntersect(p1, q1, p2, q2)
            && !ExactDoIntersect(p1, q1, p2, q2)
  {
    var p1, q1, p2, q2 := Vec2(0.0, 0.0), Vec2(10.0, 0.0), Vec2(0.05, 0.05), Vec2(0.05, 1.0);
    assert Cross(p1, q1, p2) == -0.5 && Cross(p1, q1, q2) == -10.0;
    assert Cross(p2, q2, p1) == -0.0475 && Cross(p2, q2, q1) == 9.4525;
    forall s, u | 0.0 <= s <= 1.0 && 0.0 <= u <= 1.0
      ensures Along(p1, q1, s) != Along(p2, q2, u)
    {
      assert Along(p1, q1, s).y == 0.0;
      assert Along(p2, q2, u).y == 0.05 + u * 0.95;
    }
  }

  // ---------------------------------------------------------------------
  // Circumcentre

  /** The `D` of the circumcentre formula: twice the signed area of the
      triangle, zero exactly for collinear corners. */
  function CircumDenominator(a: Vec2, b: Vec2, c: Vec2): real
  {
    2.0 * (a.x * (b.y - c.y) + b.x * (c.y - a.y) + c.x * (a.y - b.y))
  }

  function SquaredDistance(p: Vec2, q: Vec2): real
  {
    (p.x - q.x) * (p.x - q.x) + (p.y - q.y) * (p.y - q.y)
  }

  /** `compute_triangle_circumcenter(a, b, c)`: the point equally far from
      the three corners.  The corners must not be collinear (the source
      divides by `D`). */
  function Circumcenter(a: Vec2, b: Vec2, c: Vec2): Vec2
    requires CircumDenominator(a, b, c) != 0.0
  {
    ScaleDown(CircumNumeratorX(a, b, c), CircumNumeratorY(a, b, c), CircumDenominator(a, b, c))
  }

  /** The point `(nx / d, ny / d)`, computed as `1 / d` times each. */
  function ScaleDown(nx: real, ny: real, d: real): Vec2
    requires d != 0.0
  {
    Vec2(1.0 / d * nx, 1.0 / d * ny)
  }

  /** `|p|^2`, the `ad`, `bd`, `cd` of the formula. */
  function Norm2(p: Vec2): real
  {
    p.x * p.x + p.y * p.y
  }

  function CircumNumeratorX(a: Vec2, b: Vec2, c: Vec2): real
  {
    Norm2(a) * (b.y - c.y) + Norm2(b) * (c.y - a.y) + Norm2(c) * (a.y - b.y)
  }

  function CircumNumeratorY(a: Vec2, b: Vec2, c: Vec2): real
  {
    Norm2(a) * (c.x - b.x) + Norm2(b) * (a.x - c.x) + Norm2(c) * (b.x - a.x)
  }

  /** The numerators and the denominator of the formula for corners
      `(a1, a2)`, `(b1, b2)`, `(c1, c2)`, with the squared norms `na`, `nb`,
      `nc` taken as unknowns. */
  predicate ScaledParts(a1: real, a2: real, b1: real, b2: real, c1: real, c2: real,
                        na: real, nb: real, nc: real, nx: real, ny: real, d: real)
  {
    && nx == na * (b2 - c2) + nb * (c2 - a2) + nc * (a2 - b2)
    && ny == na * (c1 - b1) + nb * (a1 - c1) + nc * (b1 - a1)
    && d == 2.0 * (a1 * (b2 - c2) + b1 * (c2 - a2) + c1 * (a2 - b2))
  }
}
