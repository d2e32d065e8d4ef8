/** Parabolic arcs of a sweep-line (beach-line) construction: every arc is the
    set of points as far from a focus as from the horizontal directrix
    `y = dir`.  Heights, inverse heights, slopes and the meeting points of two
    arcs or of two lines, over the reals.  The square root is a parameter:
    any function that is a square root on the non-negative reals. */
module Arcs {
  import opened Geometry
  import Shapes

  /** `sqrt` agrees with `glm::sqrt` / `std::sqrt` wherever those are defined:
      on the non-negative reals it returns the non-negative square root. */
  ghost predicate IsSqrt(sqrt: real -> real)
  {
    forall x :: x >= 0.0 ==> sqrt(x) >= 0.0 && sqrt(x) * sqrt(x) == x
  }

  lemma ZeroFactor(p: real, q: real)
    requires p * q == 0.0 && q != 0.0
    ensures p == 0.0
  {
    assert p == (p * q) / q;
  }

  /** The square root of a square is the absolute value. */
  lemma SqrtOfSquare(sqrt: real -> real, v: real)
    requires IsSqrt(sqrt)
    ensures sqrt(v * v) == if v >= 0.0 then v else -v
  {
    var s, m := sqrt(v * v), if v >= 0.0 then v else -v;
    assert v * v >= 0.0;
    assert s >= 0.0 && s * s == v * v;
    assert m * m == v * v;
    assert (s - m) * (s + m) == 0.0;
    if s + m != 0.0 {
      ZeroFactor(s - m, s + m);
    }
  }

  // ---------------------------------------------------------------------
  // Height of an arc

  /** `compute_parabola_y(focus, directrix_y, x)`: the height of the arc of
      `focus` above `x`.  The arc is degenerate when the focus lies on the
      directrix, where the source divides by zero. */
  function ParabolaY(focus: Vec2, dir: real, x: real): real
    requires focus.y != dir
  {
    0.5 * ((x - focus.x) * (x - focus.x) / (focus.y - dir) + (focus.y + dir))
  }

  /** `2y = q/e + fy + dir` rearranged: the defining step shared by the two
      directions of the focus-directrix characterisation. */
  lemma HeightStep(focus: Vec2, dir: real, x: real, y: real)
    requires focus.y != dir
    ensures (y - dir) * (y - dir) - (y - focus.y) * (y - focus.y) == (focus.y - dir) * (2.0 * y - dir - focus.y)
    ensures y == ParabolaY(focus, dir, x)
        <==> (focus.y - dir) * (2.0 * y - dir - focus.y) == (x - focus.x) * (x - focus.x)
  {
    var e, q := focus.y - dir, (x - focus.x) * (x - focus.x);
    assert (q / e) * e == q;
    assert ParabolaY(focus, dir, x) == 0.5 * (q / e + (focus.y + dir));
    if y == ParabolaY(focus, dir, x) {
      assert 2.0 * y - dir - focus.y == q / e;
    }
    if e * (2.0 * y - dir - focus.y) == q {
      assert 2.0 * y - dir - focus.y == q / e;
    }
  }

  /** A point is on the arc exactly when it is as far from the focus as from
      the directrix (both directions). */
  lemma ParabolaYEquidistant(focus: Vec2, dir: real, x: real, y: real)
    requires focus.y != dir
    ensures y == ParabolaY(focus, dir, x)
        <==> (x - focus.x) * (x - focus.x) + (y - focus.y) * (y - focus.y) == (y - dir) * (y - dir)
  {
    HeightStep(focus, dir, x, y);
  }

  /** The arc of `focus` is the quadratic `A x^2 + B x + C` that
      `generate_parabola` samples, with `A = 1/(2e)`, `B = -fx/e` and
      `C = fx^2/(2e) + (fy + dir)/2`, `e = fy - dir`. */
  lemma ParabolaIsQuadratic(focus: Vec2, dir: real, x: real)
    requires focus.y != dir
    ensures var e := focus.y - dir;
            ParabolaY(focus, dir, x)
            == Shapes.Quadratic(1.0 / (2.0 * e), -focus.x / e, focus.x * focus.x / (2.0 * e) + 0.5 * (focus.y + dir), x)
  {
    var e, u := focus.y - dir, x - focus.x;
    var inv := 1.0 / e;
    assert u * u / e == (u * u) * inv;
    assert 1.0 / (2.0 * e) == 0.5 * inv;
    assert -focus.x / e == -focus.x * inv;
    assert focus.x * focus.x / (2.0 * e) == 0.5 * (focus.x * focus.x) * inv;
    assert u * u == x * x - 2.0 * focus.x * x + focus.x * focus.x;
  }

  // ---------------------------------------------------------------------
  // Inverse height

  /** What `compute_parabola_x` takes the square root of: `(fy - dir)(2y - fy - dir)`. */
  function Radicand(focus: Vec2, dir: real, y: real): real
  {
    2.0 * y * focus.y - 2.0 * y * dir - focus.y * focus.y + dir * dir
  }

  /** `compute_parabola_x(focus, directrix_y, y, right_zero = true)`: the `x`
      at height `y` on the right (`rightZero`) or left branch of the arc; the
      focus `x` when the focus lies on the directrix. */
  function ParabolaX(sqrt: real -> real, focus: Vec2, dir: real, y: real, rightZero: bool := true): real
  {
    if focus.y == dir then focus.x
    else
      var root := sqrt(Radicand(focus, dir, y));
      if rightZero then focus.x + root else focus.x - root
  }

  /** Where the square root is defined, the inverse lands on the arc at the
      requested height, on the requested side of the focus. */
  lemma ParabolaXOnArc(sqrt: real -> real, focus: Vec2, dir: real, y: real, rightZero: bool)
    requires IsSqrt(sqrt) && focus.y != dir
    requires Radicand(focus, dir, y) >= 0.0
    ensures ParabolaY(focus, dir, ParabolaX(sqrt, focus, dir, y, rightZero)) == y
    ensures rightZero ==> ParabolaX(sqrt, focus, dir, y, rightZero) >= focus.x
    ensures !rightZero ==> ParabolaX(sqrt, focus, dir, y, rightZero) <= focus.x
  {
    var x := ParabolaX(sqrt, focus, dir, y, rightZero);
    var root := sqrt(Radicand(focus, dir, y));
    assert (x - focus.x) * (x - focus.x) == root * root;
    assert Radicand(focus, dir, y) == (focus.y - dir) * (2.0 * y - dir - focus.y);
    HeightStep(focus, dir, x, y);
  }

  /** Height then inverse height is the identity, taking the branch on the
      side of `x`. */
  lemma ParabolaXInverts(sqrt: real -> real, focus: Vec2, dir: real, x: real)
    requires IsSqrt(sqrt) && focus.y != dir
    ensures Radicand(focus, dir, ParabolaY(focus, dir, x)) >= 0.0
    ensures ParabolaX(sqrt, focus, dir, ParabolaY(focus, dir, x), x >= focus.x) == x
  {
    var y, u := ParabolaY(focus, dir, x), x - focus.x;
    HeightStep(focus, dir, x, y);
    assert Radicand(focus, dir, y) == (focus.y - dir) * (2.0 * y - dir - focus.y);
    assert Radicand(focus, dir, y) == u * u;
    SqrtOfSquare(sqrt, u);
  }

  // ---------------------------------------------------------------------
  // Slope

  /** A line slope: a real number, or vertical (the source's `+infinity`). */
  datatype Slope = Finite(m: real) | Infinite

  /** `compute_parabola_slope(focus, directrix_y, x)`: vertical for a
      degenerate arc, otherwise `(x - fx) / (fy - dir)`. */
  function ParabolaSlope(focus: Vec2, dir: real, x: real): (s: Slope)
    ensures s.Infinite? <==> focus.y == dir
  {
    if focus.y == dir then Infinite else Finite((x - focus.x) / (focus.y - dir))
  }

  /** The slope is the derivative of the height: moving by `h` changes the
      height by `h` times the slope plus a term quadratic in `h`. */
  lemma SlopeIsDerivative(focus: Vec2, dir: real, x: real, h: real)
    requires focus.y != dir
    ensures var e := focus.y - dir;
            ParabolaY(focus, dir, x + h) == ParabolaY(focus, dir, x) + h * ParabolaSlope(focus, dir, x).m + h * h / (2.0 * e)
  {
    var e, u := focus.y - dir, x - focus.x;
    var inv := 1.0 / e;
    assert (x + h - focus.x) * (x + h - focus.x) / e == ((u + h) * (u + h)) * inv;
    assert u * u / e == (u * u) * inv;
    assert ParabolaSlope(focus, dir, x).m == u * inv;
    assert h * h / (2.0 * e) == 0.5 * (h * h) * inv;
    assert (u + h) * (u + h) == u * u + 2.0 * h * u + h * h;
  }

  // ---------------------------------------------------------------------
  // Meeting point of two arcs

  /** `1 / (2 (dir - y))`, the `d1`/`d2` of the collision computation. */
  function HalfInverse(dir: real, y: real): real
    requires y != dir
  {
    1.0 / (2.0 * (dir - y))
  }

  /** The coefficients of `a x^2 - b x + c`, whose roots are where the arcs
      of `f1` and `f2` have equal height. */
  function CoeffA(f1: Vec2, f2: Vec2, dir: real): real
    requires f1.y != dir && f2.y != dir
  {
    HalfInverse(dir, f1.y) - HalfInverse(dir, f2.y)
  }

  function CoeffB(f1: Vec2, f2: Vec2, dir: real): real
    requires f1.y != dir && f2.y != dir
  {
    2.0 * (f1.x * HalfInverse(dir, f1.y) - f2.x * HalfInverse(dir, f2.y))
  }

  function CoeffC(f1: Vec2, f2: Vec2, dir: real): real
    requires f1.y != dir && f2.y != dir
  {
    ArcConstant(f1, dir) - ArcConstant(f2, dir)
  }

  /** One arc's share of `c`: `(fy^2 + fx^2 - dir^2) * d`. */
  function ArcConstant(f: Vec2, dir: real): real
    requires f.y != dir
  {
    (f.y * f.y + f.x * f.x - dir * dir) * HalfInverse(dir, f.y)
  }

  function Delta(f1: Vec2, f2: Vec2, dir: real): real
    requires f1.y != dir && f2.y != dir
  {
    var a, b, c := CoeffA(f1, f2, dir), CoeffB(f1, f2, dir), CoeffC(f1, f2, dir);
    b * b - 4.0 * a * c
  }

  /** Foci at different heights give a proper quadratic. */
  lemma CoeffANonZero(f1: Vec2, f2: Vec2, dir: real)
    requires f1.y != dir && f2.y != dir && f1.y != f2.y
    ensures CoeffA(f1, f2, dir) != 0.0
  {
    var d1, d2 := HalfInverse(dir, f1.y), HalfInverse(dir, f2.y);
    var e1, e2 := 2.0 * (dir - f1.y), 2.0 * (dir - f2.y);
    assert d1 * e1 == 1.0 && d2 * e2 == 1.0;
    assert d1 - d2 == (d1 * d2) * (e2 - e1);
    assert (d1 * d2) * (e1 * e2) == 1.0;
    assert e2 - e1 != 0.0;
  }

  /** The quadratic branch of the collision: the root `(b - sqrt(delta)) / 2a`. */
  function QuadraticCollisionX(sqrt: real -> real, f1: Vec2, f2: Vec2, dir: real): real
    requires f1.y != dir && f2.y != dir && f1.y != f2.y
  {
    CoeffANonZero(f1, f2, dir);
    (CoeffB(f1, f2, dir) - sqrt(Delta(f1, f2, dir))) / (2.0 * CoeffA(f1, f2, dir))
  }

  /** `(b - s) / 2a` is a root of `a x^2 - b x + c` when `s^2 = b^2 - 4ac`. */
  lemma QuadraticRoot(a: real, b: real, c: real, s: real, x: real)
    requires a != 0.0 && s * s == b * b - 4.0 * a * c
    requires x == (b - s) / (2.0 * a)
    ensures a * x * x - b * x + c == 0.0
  {
    var y := 2.0 * a * x;
    assert y == b - s;
    assert 4.0 * a * (a * x * x - b * x + c) == y * y - 2.0 * b * y + 4.0 * a * c;
    assert y * y - 2.0 * b * y + 4.0 * a * c == s * s - b * b + 4.0 * a * c;
    ZeroFactor(a * x * x - b * x + c, 4.0 * a);
  }

  /** An arc's height `y` and share `k` of `c` in terms of `d`, the focus
      abscissa `p` and `h = (fy + dir) / 2`. */
  ghost predicate ArcTerms(y: real, k: real, d: real, x: real, p: real, h: real)
  {
    y == -d * ((x - p) * (x - p)) + h && k == d * (p * p) - h
  }

  /** An arc's height in terms of its `d = HalfInverse(dir, fy)`. */
  lemma HeightViaHalfInverse(f: Vec2, dir: real, x: real)
    requires f.y != dir
    ensures ArcTerms(ParabolaY(f, dir, x), ArcConstant(f, dir), HalfInverse(dir, f.y), x, f.x, 0.5 * (f.y + dir))
  {
    var d, e, q := HalfInverse(dir, f.y), f.y - dir, (x - f.x) * (x - f.x);
    assert d * (2.0 * (dir - f.y)) == 1.0;
    assert (q / e) * e == q;
    assert 0.5 * (q / e) == -d * q by {
      assert (0.5 * (q / e) + d * q) * (2.0 * e) == 0.0;
      ZeroFactor(0.5 * (q / e) + d * q, 2.0 * e);
    }
    assert (f.y * f.y - dir * dir) * d == -0.5 * (f.y + dir) by {
      assert (f.y * f.y - dir * dir) * d == (f.y + dir) * ((f.y - dir) * d);
      assert (f.y - dir) * d == -0.5;
    }
  }

  /** Two arcs' height gap is minus `(d1 - d2) x^2 - 2 (p1 d1 - p2 d2) x + (k1 - k2)`,
      over plain reals. */
  lemma GapOfTerms(y1: real, k1: real, d1: real, p1: real, h1: real,
                   y2: real, k2: real, d2: real, p2: real, h2: real, x: real)
    requires ArcTerms(y1, k1, d1, x, p1, h1) && ArcTerms(y2, k2, d2, x, p2, h2)
    ensures y1 - y2 == -((d1 - d2) * x * x - 2.0 * (p1 * d1 - p2 * d2) * x + (k1 - k2))
  {
    assert d1 * ((x - p1) * (x - p1)) == d1 * x * x - 2.0 * (p1 * d1) * x + d1 * (p1 * p1);
    assert d2 * ((x - p2) * (x - p2)) == d2 * x * x - 2.0 * (p2 * d2) * x + d2 * (p2 * p2);
  }

  /** The height gap in terms of each arc's `d` and share of `c`. */
  lemma GapViaHalfInverse(f1: Vec2, f2: Vec2, dir: real, x: real)
    requires f1.y != dir && f2.y != dir
    ensures var d1, d2 := HalfInverse(dir, f1.y), HalfInverse(dir, f2.y);
            ParabolaY(f1, dir, x) - ParabolaY(f2, dir, x)
            == -((d1 - d2) * x * x - 2.0 * (f1.x * d1 - f2.x * d2) * x + (ArcConstant(f1, dir) - ArcConstant(f2, dir)))
  {
    HeightViaHalfInverse(f1, dir, x);
    HeightViaHalfInverse(f2, dir, x);
    GapOfTerms(ParabolaY(f1, dir, x), ArcConstant(f1, dir), HalfInverse(dir, f1.y), f1.x, 0.5 * (f1.y + dir),
               ParabolaY(f2, dir, x), ArcConstant(f2, dir), HalfInverse(dir, f2.y), f2.x, 0.5 * (f2.y + dir), x);
  }

  /** The height gap of the two arcs is minus the collision quadratic. */
  lemma HeightGap(f1: Vec2, f2: Vec2, dir: real, x: real)
    requires f1.y != dir && f2.y != dir
    ensures ParabolaY(f1, dir, x) - ParabolaY(f2, dir, x)
         == -(CoeffA(f1, f2, dir) * x * x - CoeffB(f1, f2, dir) * x + CoeffC(f1, f2, dir))
  {
    GapViaHalfInverse(f1, f2, dir, x);
  }

  /** The quadratic branch meets both arcs at the same height, whenever the
      discriminant is non-negative (otherwise the source's square root is
      NaN). */
  lemma QuadraticCollisionMeets(sqrt: real -> real, f1: Vec2, f2: Vec2, dir: real)
    requires IsSqrt(sqrt)
    requires f1.y != dir && f2.y != dir && f1.y != f2.y
    requires Delta(f1, f2, dir) >= 0.0
    ensures ParabolaY(f1, dir, QuadraticCollisionX(sqrt, f1, f2, dir))
         == ParabolaY(f2, dir, QuadraticCollisionX(sqrt, f1, f2, dir))
  {
    CollisionIsRoot(sqrt, f1, f2, dir);
    HeightGap(f1, f2, dir, QuadraticCollisionX(sqrt, f1, f2, dir));
  }

  /** The quadratic branch is a root of the collision quadratic. */
  lemma CollisionIsRoot(sqrt: real -> real, f1: Vec2, f2: Vec2, dir: real)
    requires IsSqrt(sqrt)
    requires f1.y != dir && f2.y != dir && f1.y != f2.y
    requires Delta(f1, f2, dir) >= 0.0
    ensures var x := QuadraticCollisionX(sqrt, f1, f2, dir);
            CoeffA(f1, f2, dir) * x * x - CoeffB(f1, f2, dir) * x + CoeffC(f1, f2, dir) == 0.0
  {
    CoeffANonZero(f1, f2, dir);
    QuadraticRoot(CoeffA(f1, f2, dir), CoeffB(f1, f2, dir), CoeffC(f1, f2, dir),
                  sqrt(Delta(f1, f2, dir)), QuadraticCollisionX(sqrt, f1, f2, dir));
  }

  /** Two arcs whose foci are at the same height meet halfway between them. */
  lemma MidpointMeets(f1: Vec2, f2: Vec2, dir: real)
    requires f1.y != dir && f1.y == f2.y
    ensures ParabolaY(f1, dir, (f1.x + f2.x) / 2.0) == ParabolaY(f2, dir, (f1.x + f2.x) / 2.0)
  {
    var m := (f1.x + f2.x) / 2.0;
    assert (m - f1.x) * (m - f1.x) == (m - f2.x) * (m - f2.x);
  }

  /** `compute_parabolic_collision_x(left, right, directrix_y)`: the `x` where
      the arc of `left` meets the arc of `right`.  A focus on the directrix
      gives a vertical arc at its own `x` (the right one is looked at first,
      and not both may be degenerate); foci at equal heights meet halfway;
      otherwise the quadratic root, with `right` as the first focus. */
  function CollisionX(sqrt: real -> real, left: Vec2, right: Vec2, dir: real): real
    requires !(right.y == dir && left.y == dir)
  {
    if right.y == dir then right.x
    else if left.y == dir then left.x
    else if right.y == left.y then (right.x + left.x) / 2.0
    else QuadraticCollisionX(sqrt, right, left, dir)
  }

  /** Whenever neither arc is degenerate and the square root is defined, the
      collision `x` is where both arcs have the same height; a degenerate arc
      is met at its focus `x`. */
  lemma CollisionXMeets(sqrt: real -> real, left: Vec2, right: Vec2, dir: real)
    requires IsSqrt(sqrt)
    requires !(right.y == dir && left.y == dir)
    ensures right.y == dir ==> CollisionX(sqrt, left, right, dir) == right.x
    ensures right.y != dir && left.y == dir ==> CollisionX(sqrt, left, right, dir) == left.x
    ensures right.y != dir && left.y != dir && (right.y == left.y || Delta(right, left, dir) >= 0.0)
            ==> ParabolaY(left, dir, CollisionX(sqrt, left, right, dir))
                == ParabolaY(right, dir, CollisionX(sqrt, left, right, dir))
  {
    if right.y != dir && left.y != dir {
      if right.y == left.y {
        MidpointMeets(right, left, dir);
      } else if Delta(right, left, dir) >= 0.0 {
        QuadraticCollisionMeets(sqrt, right, left, dir);
      }
    }
  }

  /** The unguarded copy of `compute_parabolic_collision_x(focus1, focus2,
      directrix_y)`: always the quadratic root, `focus1` first. */
  function UnguardedCollisionX(sqrt: real -> real, focus1: Vec2, focus2: Vec2, dir: real): (x: real)
    requires focus1.y != dir && focus2.y != dir && focus1.y != focus2.y
  {
    QuadraticCollisionX(sqrt, focus1, focus2, dir)
  }

  /** Wherever the discriminant is non-negative, the unguarded copy's `x` is a
      root of the collision quadratic at which both arcs have the same
      height, and the guarded copy with the foci passed the other way round
      gives the same `x`. */
  lemma UnguardedCollisionMeets(sqrt: real -> real, focus1: Vec2, focus2: Vec2, dir: real)
    requires IsSqrt(sqrt)
    requires focus1.y != dir && focus2.y != dir && focus1.y != focus2.y
    requires Delta(focus1, focus2, dir) >= 0.0
    ensures var x := UnguardedCollisionX(sqrt, focus1, focus2, dir);
            && CoeffA(focus1, focus2, dir) * x * x - CoeffB(focus1, focus2, dir) * x + CoeffC(focus1, focus2, dir) == 0.0
            && ParabolaY(focus1, dir, x) == ParabolaY(focus2, dir, x)
            && x == CollisionX(sqrt, focus2, focus1, dir)
  {
    CollisionIsRoot(sqrt, focus1, focus2, dir);
    QuadraticCollisionMeets(sqrt, focus1, focus2, dir);
  }

  // ---------------------------------------------------------------------
  // Meeting point of two lines

  /** `p` is on the line through `o` with slope `s`. */
  predicate OnLineThrough(p: Vec2, o: Vec2, s: Slope)
  {
    match s
    case Infinite => p.x == o.x
    case Finite(m) => p.y == m * (p.x - o.x) + o.y
  }

  /** `compute_line_collision(origin1, slope1, origin2, slope2)`: the slopes
      must differ; a vertical line fixes `x`, otherwise `x` solves the two
      line equations. */
  function LineCollision(o1: Vec2, s1: Slope, o2: Vec2, s2: Slope): (p: Vec2)
    requires s1 != s2
    ensures OnLineThrough(p, o1, s1) && OnLineThrough(p, o2, s2)
  {
    if s1.Infinite? then Vec2(o1.x, o2.y + (o1.x - o2.x) * s2.m)
    else if s2.Infinite? then Vec2(o2.x, o1.y + (o2.x - o1.x) * s1.m)
    else
      var m1, m2 := s1.m, s2.m;
      var x := (m1 * o1.x - m2 * o2.x + o2.y - o1.y) / (m1 - m2);
      var y := m1 * (x - o1.x) + o1.y;
      assert x * (m1 - m2) == m1 * o1.x - m2 * o2.x + o2.y - o1.y;
      assert y == m2 * (x - o2.x) + o2.y;
      Vec2(x, y)
  }

  /** The meeting point is the only point on both lines. */
  lemma LineCollisionUnique(o1: Vec2, s1: Slope, o2: Vec2, s2: Slope, q: Vec2)
    requires s1 != s2
    requires OnLineThrough(q, o1, s1) && OnLineThrough(q, o2, s2)
    ensures q == LineCollision(o1, s1, o2, s2)
  {
    var p := LineCollision(o1, s1, o2, s2);
    if s1.Finite? && s2.Finite? {
      var m1, m2 := s1.m, s2.m;
      assert (q.x - p.x) * (m1 - m2) == 0.0;
      ZeroFactor(q.x - p.x, m1 - m2);
    }
  }
}
