/** The infinite plane primitive of src/scene/primitives/Plane.cs. */
module Planes {
  import opened Values

  /** A plane through `center`; `normal` is the stored, already normalised normal. */
  datatype Plane = Plane(center: Vec3, normal: Vec3, material: Material)

  const Epsilon: real := 0.000001

  /** The constructor stores the normalised normal it is given. */
  function NewPlane(m: Maths, center: Vec3, normal: Vec3, material: Material): (p: Plane)
    ensures p.center == center && p.material == material
    ensures p.normal == Normalized(m, normal)
  {
    Plane(center, Normalized(m, normal), material)
  }

  /** The parallel-ray guard as the source writes it, `denom < 1e-6 || denom > 1e-6`:
      it lets through every value except exactly 1e-6, so near-parallel rays
      are never rejected by it. */
  function Guard(denom: real): (passes: bool)
    ensures passes <==> denom != Epsilon
  {
    denom < Epsilon || denom > Epsilon
  }

  /** Cosine-like term between the plane normal and the ray. */
  function Denominator(p: Plane, ray: Ray): real {
    p.normal.Dot(ray.direction)
  }

  /** Ray parameter at which the ray meets the plane. */
  function Distance(p: Plane, ray: Ray): real
    requires Denominator(p, ray) != 0.0
  {
    p.center.Minus(ray.origin).Dot(p.normal) / Denominator(p, ray)
  }

  /** `Plane.Intersect`. Where the source divides by a zero `denom` it
      produces a non-finite hit that the scene's `<` comparisons all reject;
      the model returns no hit there. */
  function Intersect(p: Plane, ray: Ray): Option<RayHit> {
    var denom := Denominator(p, ray);
    if Guard(denom) && denom != 0.0 then
      var t := Distance(p, ray);
      if t < 0.0 then None
      else Some(RayHit(ray.At(t), p.normal, ray.direction, p.material))
    else None
  }

  /** No hit comes only from the exact value 1e-6, from a zero denominator, or
      from a plane behind the ray origin. */
  lemma MissIff(p: Plane, ray: Ray)
    ensures Intersect(p, ray).None? <==>
              (Denominator(p, ray) == Epsilon || Denominator(p, ray) == 0.0 ||
               Distance(p, ray) < 0.0)
  {
  }

  /** A near-parallel ray (denominator 1e-7) in front of the plane still hits it. */
  lemma NearParallelAccepted(p: Plane, ray: Ray)
    requires Denominator(p, ray) == 0.0000001
    requires p.center.Minus(ray.origin).Dot(p.normal) >= 0.0
    ensures Intersect(p, ray).Some?
  {
    assert Distance(p, ray) >= 0.0;
  }

  /** A hit lies on the ray at a non-negative parameter, lies on the plane,
      carries the stored normal whichever side the ray comes from, and
      records the ray direction as incident. */
  lemma HitOnPlane(p: Plane, ray: Ray)
    requires Intersect(p, ray).Some?
    ensures Denominator(p, ray) != 0.0
    ensures var h := Intersect(p, ray).value;
            && 0.0 <= Distance(p, ray)
            && h.position == ray.At(Distance(p, ray))
            && h.position.Minus(p.center).Dot(p.normal) == 0.0
            && h.normal == p.normal
            && h.incident == ray.direction
            && h.material == p.material
  {
    var denom := Denominator(p, ray);
    var t := Distance(p, ray);
    var n := p.normal;
    var d := ray.direction;
    var o := ray.origin;
    var c := p.center;
    assert t * denom == c.Minus(o).Dot(n);
    calc {
      ray.At(t).Minus(c).Dot(n);
      o.Minus(c).Dot(n) + t * d.Dot(n);
      o.Minus(c).Dot(n) + t * denom;
      o.Minus(c).Dot(n) + c.Minus(o).Dot(n);
      0.0;
    }
  }

  /** The normal of every hit is the normalised normal the plane was built with. */
  lemma HitNormalIsConstructorNormal(m: Maths, center: Vec3, normal: Vec3, material: Material, ray: Ray)
    requires Intersect(NewPlane(m, center, normal, material), ray).Some?
    ensures Intersect(NewPlane(m, center, normal, material), ray).value.normal == Normalized(m, normal)
  {
  }
}
