/** The triangle primitive of src/scene/primitives/Triangle.cs: a plane test
    followed by an inside-outside test against each of the three edges. */
module Triangles {
  import opened Values

  datatype Triangle = Triangle(v0: Vec3, v1: Vec3, v2: Vec3, material: Material)

  const Epsilon: real := 0.000001

  /** The unnormalised face normal `(v1 - v0) x (v2 - v0)`. */
  function FaceNormal(tri: Triangle): Vec3 {
    tri.v1.Minus(tri.v0).Cross(tri.v2.Minus(tri.v0))
  }

  /** The parallel test: the ray is rejected when `|N . d|` is below 1e-6. */
  predicate Parallel(tri: Triangle, ray: Ray) {
    Abs(FaceNormal(tri).Dot(ray.direction)) < Epsilon
  }

  /** Ray parameter of the point where the ray meets the triangle's plane. */
  function Distance(tri: Triangle, ray: Ray): real
    requires !Parallel(tri, ray)
  {
    tri.v0.Minus(ray.origin).Dot(FaceNormal(tri)) / ray.direction.Dot(FaceNormal(tri))
  }

  /** The inside-outside test for the edge from `a` to `b`: `p` must not lie on
      the right of it, as seen along the face normal `n`. */
  predicate LeftOfEdge(n: Vec3, a: Vec3, b: Vec3, p: Vec3) {
    !(n.Dot(b.Minus(a).Cross(p.Minus(a))) < 0.0)
  }

  /** All three edge tests, in the order the source makes them. */
  predicate Inside(tri: Triangle, p: Vec3) {
    var n := FaceNormal(tri);
    LeftOfEdge(n, tri.v0, tri.v1, p) && LeftOfEdge(n, tri.v1, tri.v2, p) &&
    LeftOfEdge(n, tri.v2, tri.v0, p)
  }

  /** `Triangle.Intersect`. */
  function Intersect(m: Maths, tri: Triangle, ray: Ray): Option<RayHit> {
    if Parallel(tri, ray) then None
    else
      var t := Distance(tri, ray);
      if t < 0.0 then None
      else
        var p := ray.At(t);
        if !Inside(tri, p) then None
        else Some(RayHit(p, Normalized(m, FaceNormal(tri)), ray.direction, tri.material))
  }

  /** A hit happens exactly when the ray is not near-parallel, the plane is not
      behind it, and the plane point passes all three edge tests. */
  lemma HitIff(m: Maths, tri: Triangle, ray: Ray)
    ensures Intersect(m, tri, ray).Some? <==>
              && !Parallel(tri, ray)
              && 0.0 <= Distance(tri, ray)
              && Inside(tri, ray.At(Distance(tri, ray)))
  {
  }

  /** A hit lies on the ray at a non-negative parameter and in the triangle's
      plane; its normal is the normalised face normal and its incident the ray
      direction. */
  lemma HitInPlane(m: Maths, tri: Triangle, ray: Ray)
    requires Intersect(m, tri, ray).Some?
    ensures !Parallel(tri, ray)
    ensures var h := Intersect(m, tri, ray).value;
            && 0.0 <= Distance(tri, ray)
            && h.position == ray.At(Distance(tri, ray))
            && h.position.Minus(tri.v0).Dot(FaceNormal(tri)) == 0.0
            && h.normal == Normalized(m, FaceNormal(tri))
            && h.incident == ray.direction
            && h.material == tri.material
  {
    DivTimes(tri.v0.Minus(ray.origin).Dot(FaceNormal(tri)), ray.direction.Dot(FaceNormal(tri)));
    PlanePoint(ray, Distance(tri, ray), tri.v0, FaceNormal(tri));
  }

  /** The face normal is the same for every cyclic rotation of the vertices. */
  lemma RotatedNormal(tri: Triangle)
    ensures FaceNormal(Triangle(tri.v1, tri.v2, tri.v0, tri.material)) == FaceNormal(tri)
  {
  }

  /** Every vertex lies in the plane through `v0` with the face normal. */
  lemma VerticesInPlane(tri: Triangle)
    ensures tri.v1.Minus(tri.v0).Dot(FaceNormal(tri)) == 0.0
    ensures tri.v2.Minus(tri.v0).Dot(FaceNormal(tri)) == 0.0
  {
  }

  /** Rotating the vertices (`v1, v2, v0`) does not change what the ray hits. */
  lemma RotationInvariant(m: Maths, tri: Triangle, ray: Ray)
    ensures Intersect(m, Triangle(tri.v1, tri.v2, tri.v0, tri.material), ray) == Intersect(m, tri, ray)
  {
    var rot := Triangle(tri.v1, tri.v2, tri.v0, tri.material);
    RotatedNormal(tri);
    if !Parallel(tri, ray) {
      VerticesInPlane(tri);
      var n := FaceNormal(tri);
      assert tri.v1.Minus(ray.origin).Dot(n) == tri.v0.Minus(ray.origin).Dot(n) + tri.v1.Minus(tri.v0).Dot(n);
      assert Distance(rot, ray) == Distance(tri, ray);
    }
  }

  /** A degenerate triangle (all three vertices on one line, two of them
      possibly the same point) has a zero face normal and is never hit: one
      edge from `v0` is a multiple of the other. */
  lemma DegenerateNeverHit(m: Maths, tri: Triangle, ray: Ray, k: real)
    requires || tri.v2.Minus(tri.v0) == tri.v1.Minus(tri.v0).Times(k)
             || tri.v1.Minus(tri.v0) == tri.v2.Minus(tri.v0).Times(k)
    ensures Intersect(m, tri, ray).None?
  {
    if tri.v2.Minus(tri.v0) == tri.v1.Minus(tri.v0).Times(k) {
      CrossMultiple(tri.v1.Minus(tri.v0), k);
    } else {
      MultipleCross(tri.v2.Minus(tri.v0), k);
    }
    assert FaceNormal(tri) == Origin;
  }
}
