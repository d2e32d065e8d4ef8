/** Points of the plane and of space, and the flat coordinate sequences that the
    dimension-generic curve code works on.  Coordinates are mathematical reals:
    the `float`/`double` rounding of the original is not modelled. */
module Geometry {

  /** `glm::vec2` and CGAL's `Point_2`. */
  datatype Vec2 = Vec2(x: real, y: real)

  /** `glm::vec3`. */
  datatype Vec3 = Vec3(x: real, y: real, z: real)

  /** The coordinates of `ps`, two per point, in order (the `push_back(p.x);
      push_back(p.y)` loop of the 2-D curve wrapper). */
  function Flat2(ps: seq<Vec2>): (r: seq<real>)
    ensures |r| == 2 * |ps|
    ensures forall i :: 0 <= i < |ps| ==> r[2 * i] == ps[i].x && r[2 * i + 1] == ps[i].y
  {
    if ps == [] then [] else Flat2(ps[..|ps| - 1]) + [ps[|ps| - 1].x, ps[|ps| - 1].y]
  }

  /** The coordinates of `ps`, three per point, in order. */
  function Flat3(ps: seq<Vec3>): (r: seq<real>)
    ensures |r| == 3 * |ps|
    ensures forall i :: 0 <= i < |ps| ==>
              r[3 * i] == ps[i].x && r[3 * i + 1] == ps[i].y && r[3 * i + 2] == ps[i].z
  {
    if ps == [] then [] else Flat3(ps[..|ps| - 1]) + [ps[|ps| - 1].x, ps[|ps| - 1].y, ps[|ps| - 1].z]
  }

  /** Consecutive pairs of `coords` read back as points; point `i` is
      coordinates `[2i, 2i+2)`. */
  function Group2(coords: seq<real>): (r: seq<Vec2>)
    requires |coords| % 2 == 0
  {
    seq(|coords| / 2, i requires 0 <= i < |coords| / 2 => Vec2(coords[2 * i], coords[2 * i + 1]))
  }

  /** Consecutive triples of `coords` read back as points; point `i` is
      coordinates `[3i, 3i+3)`. */
  function Group3(coords: seq<real>): (r: seq<Vec3>)
    requires |coords| % 3 == 0
  {
    seq(|coords| / 3, i requires 0 <= i < |coords| / 3 =>
      Vec3(coords[3 * i], coords[3 * i + 1], coords[3 * i + 2]))
  }

  /** Regrouping undoes flattening, for points of the plane ... */
  lemma GroupFlat2(ps: seq<Vec2>)
    ensures Group2(Flat2(ps)) == ps
  {
    var f := Flat2(ps);
    assert |Group2(f)| == |ps|;
    forall i | 0 <= i < |ps| ensures Group2(f)[i] == ps[i] {
      assert f[2 * i] == ps[i].x && f[2 * i + 1] == ps[i].y;
    }
  }

  /** ... and of space. */
  lemma GroupFlat3(ps: seq<Vec3>)
    ensures Group3(Flat3(ps)) == ps
  {
    var f := Flat3(ps);
    assert |Group3(f)| == |ps|;
    forall i | 0 <= i < |ps| ensures Group3(f)[i] == ps[i] {
      assert f[3 * i] == ps[i].x && f[3 * i + 1] == ps[i].y && f[3 * i + 2] == ps[i].z;
    }
  }

  /** Flattening undoes regrouping: no coordinate is lost or reordered. */
  lemma FlatGroup2(coords: seq<real>)
    requires |coords| % 2 == 0
    ensures Flat2(Group2(coords)) == coords
  {
    var f := Flat2(Group2(coords));
    assert |f| == |coords|;
    forall m | 0 <= m < |coords| ensures f[m] == coords[m] {
      var g, i := Group2(coords), m / 2;
      assert g[i] == Vec2(coords[2 * i], coords[2 * i + 1]);
      assert f[2 * i] == g[i].x && f[2 * i + 1] == g[i].y;
      assert m == 2 * i || m == 2 * i + 1;
    }
  }

  /** The same for triples. */
  lemma FlatGroup3(coords: seq<real>)
    requires |coords| % 3 == 0
    ensures Flat3(Group3(coords)) == coords
  {
    var f := Flat3(Group3(coords));
    assert |f| == |coords|;
    forall m | 0 <= m < |coords| ensures f[m] == coords[m] {
      var g, i := Group3(coords), m / 3;
      assert g[i] == Vec3(coords[3 * i], coords[3 * i + 1], coords[3 * i + 2]);
      assert f[3 * i] == g[i].x && f[3 * i + 1] == g[i].y && f[3 * i + 2] == g[i].z;
      assert m == 3 * i || m == 3 * i + 1 || m == 3 * i + 2;
    }
  }
}
