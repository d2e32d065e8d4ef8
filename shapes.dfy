/** Point generators: the eight corners of an axis-aligned box, samples of a
    quadratic, and the pairing of a flat coordinate list into plane points. */
module Shapes {
  import opened Geometry

  /** `generate_box(width, height, length)`: the bottom face `z = 0` walked
      around from the origin, then the same face lifted to `z = length`. */
  function GenerateBox(w: real, h: real, l: real): (r: seq<Vec3>)
    ensures |r| == 8
    ensures forall i :: 0 <= i < 4 ==> r[i].z == 0.0 && r[i + 4] == Vec3(r[i].x, r[i].y, l)
    ensures forall i :: 0 <= i < 8 ==> (r[i].x == 0.0 || r[i].x == w) && (r[i].y == 0.0 || r[i].y == h)
    ensures r[0] == Vec3(0.0, 0.0, 0.0) && r[6] == Vec3(w, h, l)
  {
    [ Vec3(0.0, 0.0, 0.0), Vec3(w, 0.0, 0.0), Vec3(w, h, 0.0), Vec3(0.0, h, 0.0),
      Vec3(0.0, 0.0, l), Vec3(w, 0.0, l), Vec3(w, h, l), Vec3(0.0, h, l) ]
  }

  /** Corner of the box selected by one choice per axis. */
  function Corner(w: real, h: real, l: real, sx: bool, sy: bool, sz: bool): Vec3
  {
    Vec3(if sx then w else 0.0, if sy then h else 0.0, if sz then l else 0.0)
  }

  /** Every one of the eight corners of the box is produced. */
  lemma BoxCorners(w: real, h: real, l: real, sx: bool, sy: bool, sz: bool)
    ensures Corner(w, h, l, sx, sy, sz) in GenerateBox(w, h, l)
  {
    var r := GenerateBox(w, h, l);
    var i := (if sz then 4 else 0) + (if sy then (if sx then 2 else 3) else (if sx then 1 else 0));
    assert r[i] == Corner(w, h, l, sx, sy, sz);
  }

  /** With non-zero sides the eight corners are pairwise different. */
  lemma BoxDistinct(w: real, h: real, l: real, i: nat, j: nat)
    requires w != 0.0 && h != 0.0 && l != 0.0
    requires i < j < 8
    ensures GenerateBox(w, h, l)[i] != GenerateBox(w, h, l)[j]
  {
  }

  /** The quadratic `a*x^2 + b*x + c`. */
  function Quadratic(a: real, b: real, c: real, x: real): real
  {
    a * x * x + b * x + c
  }

  /** A quadratic with `a != 0` takes the same value at equal distances on
      either side of its vertex `-b / (2a)`. */
  lemma QuadraticSymmetric(a: real, b: real, c: real, h: real)
    requires a != 0.0
    ensures var v := -b / (2.0 * a);
            Quadratic(a, b, c, v + h) == Quadratic(a, b, c, v - h)
  {
    var v := -b / (2.0 * a);
    assert 2.0 * a * v == -b;
    assert Quadratic(a, b, c, v + h) - Quadratic(a, b, c, v - h) == 2.0 * h * (2.0 * a * v + b);
  }

  /** `generate_parabola(x, a = 1, b = 0, c = 0)`: one value `a*x^2 + b*x + c`
      per input, in order. */
  method GenerateParabola(xs: seq<real>, a: real := 1.0, b: real := 0.0, c: real := 0.0)
    returns (ys: seq<real>)
    ensures |ys| == |xs|
    ensures forall i :: 0 <= i < |xs| ==> ys[i] == Quadratic(a, b, c, xs[i])
  {
    ys := [];
    for k := 0 to |xs|
      invariant |ys| == k
      invariant forall i :: 0 <= i < k ==> ys[i] == Quadratic(a, b, c, xs[i])
    {
      ys := ys + [a * xs[k] * xs[k] + b * xs[k] + c];
    }
  }

  /** `convert_to_point_2(coords)`: consecutive coordinate pairs become
      points; the coordinate count must be even.  Flattening the result gives
      the input back. */
  method ConvertToPoint2(coords: seq<real>) returns (points: seq<Vec2>)
    requires |coords| % 2 == 0
    ensures points == Group2(coords)
    ensures Flat2(points) == coords
  {
    points := [];
    var i := 0;
    while i < |coords|
      invariant i == 2 * |points| && i <= |coords|
      invariant forall j :: 0 <= j < |points| ==> points[j] == Vec2(coords[2 * j], coords[2 * j + 1])
    {
      points := points + [Vec2(coords[i], coords[i + 1])];
      i := i + 2;
    }
    FlatGroup2(coords);
  }
}
