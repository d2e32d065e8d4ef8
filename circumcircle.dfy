/** Properties of the circumcentre formula of `Planar.Circumcenter`: the
    point it computes is equally far from the three corners. */
module Circumcircle {
  import opened Geometry
  import opened Planar

  /** Before the division by `D`, the numerators satisfy the equal-distance
      condition for the pair `a`, `b` scaled by `D`.  The identity is linear
      in the three squared norms, and each of their coefficients cancels. */
  lemma CircumIdentityOverNorms(a1: real, a2: real, b1: real, b2: real, c1: real, c2: real,
                                na: real, nb: real, nc: real, nx: real, ny: real, d: real)
    requires ScaledParts(a1, a2, b1, b2, c1, c2, na, nb, nc, nx, ny, d)
    ensures 2.0 * (nx * (b1 - a1) + ny * (b2 - a2)) == d * (nb - na)
  {
    assert 2.0 * ((b2 - c2) * (b1 - a1) + (c1 - b1) * (b2 - a2)) == -d;
    assert 2.0 * ((c2 - a2) * (b1 - a1) + (a1 - c1) * (b2 - a2)) == d;
    assert (a2 - b2) * (b1 - a1) + (b1 - a1) * (b2 - a2) == 0.0;
  }

  /** The formula is unchanged by rotating the corners. */
  lemma CircumRotate(a: Vec2, b: Vec2, c: Vec2)
    ensures CircumNumeratorX(b, c, a) == CircumNumeratorX(a, b, c)
    ensures CircumNumeratorY(b, c, a) == CircumNumeratorY(a, b, c)
    ensures CircumDenominator(b, c, a) == CircumDenominator(a, b, c)
  {
  }

  /** `u` is as far from `p` as from `q` exactly when
      `2 u . (q - p) == |q|^2 - |p|^2`. */
  lemma EquidistantLinear(u: Vec2, p: Vec2, q: Vec2)
    ensures SquaredDistance(u, p) == SquaredDistance(u, q)
        <==> 2.0 * (u.x * (q.x - p.x) + u.y * (q.y - p.y)) == (q.x * q.x + q.y * q.y) - (p.x * p.x + p.y * p.y)
  {
  }

  /** The circumcentre is equally far from all three corners. */
  lemma CircumcenterEquidistant(a: Vec2, b: Vec2, c: Vec2)
    requires CircumDenominator(a, b, c) != 0.0
    ensures SquaredDistance(Circumcenter(a, b, c), a) == SquaredDistance(Circumcenter(a, b, c), b)
    ensures SquaredDistance(Circumcenter(a, b, c), a) == SquaredDistance(Circumcenter(a, b, c), c)
  {
    CircumPair(a, b, c);
    CircumRotate(c, a, b);
    CircumPair(c, a, b);
  }

  /** The parts of the formula for the corners `a`, `b`, `c`. */
  lemma CircumParts(a: Vec2, b: Vec2, c: Vec2)
    ensures ScaledParts(a.x, a.y, b.x, b.y, c.x, c.y, Norm2(a), Norm2(b), Norm2(c),
                        CircumNumeratorX(a, b, c), CircumNumeratorY(a, b, c), CircumDenominator(a, b, c))
    ensures Norm2(a) == a.x * a.x + a.y * a.y && Norm2(b) == b.x * b.x + b.y * b.y
  {
  }

  /** The circumcentre is as far from `a` as from `b`. */
  lemma CircumPair(a: Vec2, b: Vec2, c: Vec2)
    requires CircumDenominator(a, b, c) != 0.0
    ensures SquaredDistance(Circumcenter(a, b, c), a) == SquaredDistance(Circumcenter(a, b, c), b)
  {
    CircumParts(a, b, c);
    ScaledDownEquidistant(a, b, c.x, c.y, Norm2(a), Norm2(b), Norm2(c),
                          CircumNumeratorX(a, b, c), CircumNumeratorY(a, b, c), CircumDenominator(a, b, c));
  }

  /** The same with the squared norms, the numerators and the denominator
      named: `(nx / d, ny / d)` is as far from `a` as from `b`. */
  lemma ScaledDownEquidistant(a: Vec2, b: Vec2, c1: real, c2: real,
                              na: real, nb: real, nc: real, nx: real, ny: real, d: real)
    requires ScaledParts(a.x, a.y, b.x, b.y, c1, c2, na, nb, nc, nx, ny, d)
    requires na == a.x * a.x + a.y * a.y && nb == b.x * b.x + b.y * b.y
    requires d != 0.0
    ensures SquaredDistance(ScaleDown(nx, ny, d), a) == SquaredDistance(ScaleDown(nx, ny, d), b)
  {
    var u := ScaleDown(nx, ny, d);
    CircumIdentityOverNorms(a.x, a.y, b.x, b.y, c1, c2, na, nb, nc, nx, ny, d);
    Unscale(nx, ny, d, b.x - a.x, b.y - a.y, nb - na);
    assert 2.0 * (u.x * (b.x - a.x) + u.y * (b.y - a.y)) == nb - na;
    EquidistantLinear(u, a, b);
  }

  /** Dividing both numerators by `d` divides the scaled condition by `d`. */
  lemma Unscale(nx: real, ny: real, d: real, ex: real, ey: real, k: real)
    requires d != 0.0 && 2.0 * (nx * ex + ny * ey) == d * k
    ensures 2.0 * ((1.0 / d * nx) * ex + (1.0 / d * ny) * ey) == k
  {
    var inv := 1.0 / d;
    assert inv * d == 1.0;
    assert 2.0 * ((inv * nx) * ex + (inv * ny) * ey) == inv * (2.0 * (nx * ex + ny * ey));
    assert inv * (d * k) == (inv * d) * k;
  }

  /** The right triangle `(0,0), (2,0), (0,2)` has its circumcentre at the
      middle of the hypotenuse. */
  lemma CircumcenterOfRightTriangle()
    ensures CircumDenominator(Vec2(0.0, 0.0), Vec2(2.0, 0.0), Vec2(0.0, 2.0)) == 8.0
    ensures Circumcenter(Vec2(0.0, 0.0), Vec2(2.0, 0.0), Vec2(0.0, 2.0)) == Vec2(1.0, 1.0)
  {
    RightTriangleParts(Vec2(0.0, 0.0), Vec2(2.0, 0.0), Vec2(0.0, 2.0));
  }

  /** The parts of the formula for that triangle: `D = 8` and both
      numerators 8. */
  lemma RightTriangleParts(a: Vec2, b: Vec2, c: Vec2)
    requires a == Vec2(0.0, 0.0) && b == Vec2(2.0, 0.0) && c == Vec2(0.0, 2.0)
    ensures CircumDenominator(a, b, c) == 8.0
    ensures Circumcenter(a, b, c) == Vec2(1.0, 1.0)
  {
    CircumParts(a, b, c);
    assert Norm2(c) == 4.0;
    assert ScaleDown(8.0, 8.0, 8.0) == Vec2(1.0, 1.0);
  }
}
