/**
 * The vector helpers of Program.cs over real numbers: the component swap
 * `perp`, the edge `normal`, the midpoint `averageVector`, and
 * `normalizeVector`, whose magnitude function is a parameter. A division by
 * a zero magnitude, which yields NaN components in single-precision floats,
 * is the result None.
 */
module Geometry {
  import opened Wrappers

  /** System.Numerics.Vector2 */
  datatype Vec = Vec(x: real, y: real)

  function Add(a: Vec, b: Vec): Vec { Vec(a.x + b.x, a.y + b.y) }

  function Sub(a: Vec, b: Vec): Vec { Vec(a.x - b.x, a.y - b.y) }

  /** Vector2 * float */
  function Scale(v: Vec, k: real): Vec { Vec(v.x * k, v.y * k) }

  /** The factor `(flip ? -1 : 1)` the source multiplies by. */
  function Sign(flip: bool): (r: real)
    ensures r == 1.0 || r == -1.0
  {
    if flip then -1.0 else 1.0
  }

  /** The reflection in the x axis. */
  function Mirror(v: Vec): Vec { Vec(v.x, -v.y) }

  /** What normalisation needs of the magnitude function: it is never
      negative and is zero exactly for the zero vector. */
  ghost predicate IsMagnitude(magnitude: Vec -> real) {
    forall v: Vec :: magnitude(v) >= 0.0 && (magnitude(v) == 0.0 <==> v == Vec(0.0, 0.0))
  }

  /** The Euclidean magnitude does not change under a reflection. */
  ghost predicate MirrorInvariant(magnitude: Vec -> real) {
    forall v: Vec :: magnitude(Mirror(v)) == magnitude(v)
  }

  /** normalizeVector: both components divided by the magnitude
      (MathF.Sqrt(x*x + y*y) in the source, a parameter here). */
  function NormalizeVector(v: Vec, magnitude: Vec -> real): (r: Option<Vec>)
    ensures r.None? <==> magnitude(v) == 0.0
    ensures r.Some? ==> Scale(r.value, magnitude(v)) == v
  {
    var m := magnitude(v);
    if m == 0.0 then None else Some(Vec(v.x / m, v.y / m))
  }

  /** Normalising fails exactly on the zero vector; otherwise the result
      times the positive magnitude is the vector. */
  lemma NormalizeNonZero(v: Vec, magnitude: Vec -> real)
    requires IsMagnitude(magnitude)
    ensures NormalizeVector(v, magnitude).None? <==> v == Vec(0.0, 0.0)
    ensures NormalizeVector(v, magnitude).Some? ==>
      magnitude(v) > 0.0 && Scale(NormalizeVector(v, magnitude).value, magnitude(v)) == v
  {
  }

  /** perp: the components swapped, optionally normalised, negated on flip. */
  function Perp(v: Vec, flip: bool, normalize: bool, magnitude: Vec -> real): (r: Option<Vec>)
    ensures r.None? <==> normalize && magnitude(Vec(v.y, v.x)) == 0.0
    ensures r.Some? && normalize ==> Scale(r.value, Sign(flip) * magnitude(Vec(v.y, v.x))) == Vec(v.y, v.x)
  {
    var swapped := Vec(v.y, v.x);
    if normalize then
      match NormalizeVector(swapped, magnitude)
      case None => None
      case Some(n) => Some(Scale(n, Sign(flip)))
    else Some(Scale(swapped, Sign(flip)))
  }

  /** Without normalisation perp never fails and, applied twice with the same
      flip, gives the vector back. */
  lemma PerpInvolution(v: Vec, flip: bool, magnitude: Vec -> real)
    ensures Perp(v, flip, false, magnitude).Some?
    ensures Perp(Perp(v, flip, false, magnitude).value, flip, false, magnitude) == Some(v)
  {
    var s := Sign(flip);
    assert s * s == 1.0;
    var w := Perp(v, flip, false, magnitude).value;
    assert w == Vec(v.y * s, v.x * s);
    assert v.x * s * s == v.x && v.y * s * s == v.y;
  }

  /** On flip, perp is the negation of the unflipped perp. */
  lemma PerpFlip(v: Vec, normalize: bool, magnitude: Vec -> real)
    ensures Perp(v, true, normalize, magnitude).Some? <==> Perp(v, false, normalize, magnitude).Some?
    ensures Perp(v, true, normalize, magnitude).Some? ==>
      Perp(v, true, normalize, magnitude).value == Scale(Perp(v, false, normalize, magnitude).value, -1.0)
  {
  }

  /** normal: the normalised vector (-dx, dy), its y negated on flipNormal,
      where (dx, dy) runs from start to end. */
  function Normal(start: Vec, end: Vec, flipNormal: bool, magnitude: Vec -> real): (r: Option<Vec>)
    ensures var e := Vec(start.x - end.x, (end.y - start.y) * Sign(flipNormal));
      (r.None? <==> magnitude(e) == 0.0) && (r.Some? ==> Scale(r.value, magnitude(e)) == e)
  {
    var dx := end.x - start.x;
    var dy := end.y - start.y;
    NormalizeVector(Vec(-dx, dy * Sign(flipNormal)), magnitude)
  }

  /** Flipping the normal keeps its x and negates its y, and the two fail
      together. */
  lemma NormalFlip(start: Vec, end: Vec, magnitude: Vec -> real)
    requires MirrorInvariant(magnitude)
    ensures Normal(start, end, true, magnitude).Some? <==> Normal(start, end, false, magnitude).Some?
    ensures Normal(start, end, true, magnitude).Some? ==>
      Normal(start, end, true, magnitude).value.x == Normal(start, end, false, magnitude).value.x &&
      Normal(start, end, true, magnitude).value.y == -Normal(start, end, false, magnitude).value.y
  {
    var dx := end.x - start.x;
    var dy := end.y - start.y;
    assert Vec(-dx, dy * Sign(true)) == Mirror(Vec(-dx, dy * Sign(false)));
  }

  /** The unflipped normal is (-dx, dy) divided by its positive magnitude; it
      fails only when start and end coincide. */
  lemma NormalDirection(start: Vec, end: Vec, magnitude: Vec -> real)
    requires IsMagnitude(magnitude)
    ensures Normal(start, end, false, magnitude).None? <==> start == end
    ensures Normal(start, end, false, magnitude).Some? ==>
      var d := Vec(-(end.x - start.x), end.y - start.y);
      magnitude(d) > 0.0 && Scale(Normal(start, end, false, magnitude).value, magnitude(d)) == d
  {
    var d := Vec(-(end.x - start.x), (end.y - start.y) * 1.0);
    assert d == Vec(-(end.x - start.x), end.y - start.y);
    assert d == Vec(0.0, 0.0) <==> start == end;
  }

  /** The normal is not in general perpendicular to its edge: for the edge
      (0, 0) to (1, 2) it points along (-1, 2), whose dot product with the
      edge is 3. */
  lemma NormalNotPerpendicular(magnitude: Vec -> real)
    requires IsMagnitude(magnitude)
    ensures var n := Normal(Vec(0.0, 0.0), Vec(1.0, 2.0), false, magnitude);
      n.Some? && n.value.x * 1.0 + n.value.y * 2.0 != 0.0
  {
    NormalDirection(Vec(0.0, 0.0), Vec(1.0, 2.0), magnitude);
    var n := Normal(Vec(0.0, 0.0), Vec(1.0, 2.0), false, magnitude).value;
    var m := magnitude(Vec(-1.0, 2.0));
    assert n.x * m == -1.0 && n.y * m == 2.0;
    DotWithEdge(n.x, n.y, m);
  }

  lemma DotWithEdge(a: real, b: real, m: real)
    requires a * m == -1.0 && b * m == 2.0
    ensures a + b * 2.0 != 0.0
  {
  }

  /** averageVector: the componentwise mean. */
  function AverageVector(v1: Vec, v2: Vec): (r: Vec)
    ensures Sub(r, v1) == Sub(v2, r)
    ensures Add(r, r) == Add(v1, v2)
  {
    Vec((v1.x + v2.x) / 2.0, (v1.y + v2.y) / 2.0)
  }
}
