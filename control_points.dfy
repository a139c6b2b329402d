/** The nine virtual control points of a mesh: the eight corners of its
    axis-aligned bounding box in binary-counting order, then the centre. */
module ControlPoints {

  /** A 3-D point (a row of the N-by-3 vertex matrix). */
  datatype Vec3 = Vec3(x: real, y: real, z: real)
  {
    function At(axis: nat): real
      requires axis < 3
    {
      if axis == 0 then x else if axis == 1 then y else z
    }
  }

  function RMin(a: real, b: real): real { if a <= b then a else b }
  function RMax(a: real, b: real): real { if a >= b then a else b }

  /** The smallest `axis` coordinate of vs[0..n). */
  function MinCoeff(vs: seq<Vec3>, n: nat, axis: nat): real
    requires 0 < n <= |vs| && axis < 3
  {
    if n == 1 then vs[0].At(axis) else RMin(MinCoeff(vs, n - 1, axis), vs[n - 1].At(axis))
  }

  /** The largest `axis` coordinate of vs[0..n). */
  function MaxCoeff(vs: seq<Vec3>, n: nat, axis: nat): real
    requires 0 < n <= |vs| && axis < 3
  {
    if n == 1 then vs[0].At(axis) else RMax(MaxCoeff(vs, n - 1, axis), vs[n - 1].At(axis))
  }

  /** MinCoeff and MaxCoeff bound every coordinate and are attained. */
  lemma {:induction false} CoeffBounds(vs: seq<Vec3>, n: nat, axis: nat)
    requires 0 < n <= |vs| && axis < 3
    ensures forall i :: 0 <= i < n ==> MinCoeff(vs, n, axis) <= vs[i].At(axis) <= MaxCoeff(vs, n, axis)
    ensures exists i :: 0 <= i < n && vs[i].At(axis) == MinCoeff(vs, n, axis)
    ensures exists i :: 0 <= i < n && vs[i].At(axis) == MaxCoeff(vs, n, axis)
  {
    if n > 1 {
      CoeffBounds(vs, n - 1, axis);
    }
  }

  /** X.colwise().minCoeff() and X.colwise().maxCoeff(). */
  function ColwiseMin(vs: seq<Vec3>): Vec3
    requires |vs| > 0
  {
    Vec3(MinCoeff(vs, |vs|, 0), MinCoeff(vs, |vs|, 1), MinCoeff(vs, |vs|, 2))
  }

  function ColwiseMax(vs: seq<Vec3>): Vec3
    requires |vs| > 0
  {
    Vec3(MaxCoeff(vs, |vs|, 0), MaxCoeff(vs, |vs|, 1), MaxCoeff(vs, |vs|, 2))
  }

  /** p lies in the closed box between lo and hi. */
  predicate InBox(lo: Vec3, p: Vec3, hi: Vec3)
  {
    lo.x <= p.x <= hi.x && lo.y <= p.y <= hi.y && lo.z <= p.z <= hi.z
  }

  /** The corner (xyz[i].x, xyz[j].y, xyz[k].z) with xyz = [lo, hi]. */
  function Corner(lo: Vec3, hi: Vec3, i: int, j: int, k: int): Vec3
  {
    Vec3((if i == 0 then lo else hi).x, (if j == 0 then lo else hi).y, (if k == 0 then lo else hi).z)
  }

  function Midpoint(lo: Vec3, hi: Vec3): Vec3
  {
    Vec3(0.5 * (lo.x + hi.x), 0.5 * (lo.y + hi.y), 0.5 * (lo.z + hi.z))
  }

  /** GenerateControlPoints: the per-column extremes, the eight corners from
      the nested i/j/k loops, then the centre. Element 4i + 2j + k is the
      corner taking x from xyz[i], y from xyz[j] and z from xyz[k]; every
      vertex, and the centre, lies in the box spanned by elements 0 and 7,
      which are the column-wise minimum and maximum. */
  method GenerateControlPoints(X: seq<Vec3>) returns (out: seq<Vec3>)
    requires |X| > 0
    ensures |out| == 9
    ensures forall n :: 0 <= n < 8 ==>
      out[n] == Corner(ColwiseMin(X), ColwiseMax(X), n / 4, (n / 2) % 2, n % 2)
    ensures out[8] == Midpoint(ColwiseMin(X), ColwiseMax(X))
    ensures out[0] == ColwiseMin(X) && out[7] == ColwiseMax(X)
    ensures forall v :: v in X ==> InBox(out[0], v, out[7])
    ensures InBox(out[0], out[8], out[7])
  {
    var xyzMax := ColwiseMax(X);
    var xyzMin := ColwiseMin(X);
    var xyz := [xyzMin, xyzMax];
    out := [];
    for i := 0 to 2
      invariant |out| == 4 * i
      invariant forall n :: 0 <= n < |out| ==> out[n] == Corner(xyzMin, xyzMax, n / 4, (n / 2) % 2, n % 2)
    {
      for j := 0 to 2
        invariant |out| == 4 * i + 2 * j
        invariant forall n :: 0 <= n < |out| ==> out[n] == Corner(xyzMin, xyzMax, n / 4, (n / 2) % 2, n % 2)
      {
        for k := 0 to 2
          invariant |out| == 4 * i + 2 * j + k
          invariant forall n :: 0 <= n < |out| ==> out[n] == Corner(xyzMin, xyzMax, n / 4, (n / 2) % 2, n % 2)
        {
          out := out + [Vec3(xyz[i].x, xyz[j].y, xyz[k].z)];
        }
      }
    }
    out := out + [Midpoint(xyzMin, xyzMax)];
    CoeffBounds(X, |X|, 0);
    CoeffBounds(X, |X|, 1);
    CoeffBounds(X, |X|, 2);
    forall v | v in X
      ensures InBox(out[0], v, out[7])
    {
      var i :| 0 <= i < |X| && X[i] == v;
      assert v.At(0) == v.x && v.At(1) == v.y && v.At(2) == v.z;
    }
    assert X[0].At(0) == X[0].x && X[0].At(1) == X[0].y && X[0].At(2) == X[0].z;
  }

  /** A vertex set bounded by the unit cube that touches two opposite
      corners has the unit cube as its box, so its control points are the
      cube's corners and (0.5, 0.5, 0.5). */
  lemma UnitCubeExtremes(X: seq<Vec3>)
    requires |X| > 0 && Vec3(0.0, 0.0, 0.0) in X && Vec3(1.0, 1.0, 1.0) in X
    requires forall v :: v in X ==> InBox(Vec3(0.0, 0.0, 0.0), v, Vec3(1.0, 1.0, 1.0))
    ensures ColwiseMin(X) == Vec3(0.0, 0.0, 0.0) && ColwiseMax(X) == Vec3(1.0, 1.0, 1.0)
    ensures Midpoint(ColwiseMin(X), ColwiseMax(X)) == Vec3(0.5, 0.5, 0.5)
  {
    forall axis | 0 <= axis < 3
      ensures MinCoeff(X, |X|, axis) == 0.0 && MaxCoeff(X, |X|, axis) == 1.0
    {
      CoeffBounds(X, |X|, axis);
      var lo :| 0 <= lo < |X| && X[lo] == Vec3(0.0, 0.0, 0.0);
      var hi :| 0 <= hi < |X| && X[hi] == Vec3(1.0, 1.0, 1.0);
      var a :| 0 <= a < |X| && X[a].At(axis) == MinCoeff(X, |X|, axis);
      var b :| 0 <= b < |X| && X[b].At(axis) == MaxCoeff(X, |X|, axis);
      assert X[lo].At(axis) == 0.0 && X[hi].At(axis) == 1.0;
      assert X[a] in X && X[b] in X;
    }
  }
}
