/** The shading algorithm of src/scene/Scene.cs as specification functions:
    `castRay` with its scan over the entities, the per-material dispatch,
    `diffusion` with its hard-shadow test, and `Phong`. The class in
    scene.dfy runs the same algorithm with loops and is proved equal to
    these functions.

    The entity and light collections are sequences in iteration order.
    `Phong` casts its first reflection ray at the caller's depth (the source
    increments `depth` after the call), so recursion depth alone does not
    bound the recursion: every function takes a `fuel` budget, spent once per
    `castRay` that scans the entities, and answers `OutOfFuel` when the
    budget runs out. */
module Engine {
  import opened Values
  import Planes
  import Spheres
  import Triangles
  import opened Shading

  /** `MAXDEPTH`: a ray cast deeper than this is black. */
  const MaxDepth: int := 10
  /** `INFINITY`: the starting value of the nearest distance. */
  const Infinity: real := 9999999999.0
  /** `biasVal`: how far secondary rays start off the surface. */
  const Bias: real := 0.0001
  /** Phong's diffuse and specular weights and its specular exponent. */
  const Kd: real := 0.7
  const Ks: real := 0.3
  const SpecularExponent: nat := 10

  /** A scene entity: one of the three primitives. */
  datatype Entity =
    | PlaneEntity(plane: Planes.Plane)
    | SphereEntity(sphere: Spheres.Sphere)
    | TriangleEntity(triangle: Triangles.Triangle)

  /** The contents of a scene: its entities and its point lights, each in the
      order the scene iterates over them. */
  datatype World = World(entities: seq<Entity>, lights: seq<PointLight>)

  /** The result of a cast: a colour, or the fuel ran out first. */
  datatype Outcome = Shaded(color: Color) | OutOfFuel

  function EntityMaterial(e: Entity): Material {
    match e
    case PlaneEntity(p) => p.material
    case SphereEntity(s) => s.material
    case TriangleEntity(t) => t.material
  }

  /** `entity.Intersect(ray)`: every hit carries the entity's material and
      the ray's direction as incident. */
  function Hit(m: Maths, e: Entity, ray: Ray): (h: Option<RayHit>)
    ensures h.Some? ==> h.value.material == EntityMaterial(e) && h.value.incident == ray.direction
  {
    match e
    case PlaneEntity(p) => Planes.Intersect(p, ray)
    case SphereEntity(s) => Spheres.Intersect(m, s, ray)
    case TriangleEntity(t) => Triangles.Intersect(m, t, ray)
  }

  /** A refractive entity needs a positive refractive index for `fresnel`. */
  predicate Admissible(e: Entity) {
    EntityMaterial(e).kind == Refractive ==> 0.0 < EntityMaterial(e).refractiveIndex
  }

  predicate WellFormed(w: World) {
    forall k :: 0 <= k < |w.entities| ==> Admissible(w.entities[k])
  }

  // ---------------------------------------------------------------------
  // castRay
  // ---------------------------------------------------------------------

  /** `hit.Position.Length()`: the distance by which `castRay` ranks hits,
      measured from the world origin and not from the ray origin. */
  function HitDistance(m: Maths, e: Entity, ray: Ray): real
    requires Hit(m, e, ray).Some?
  {
    Length(m, Hit(m, e, ray).value.position)
  }

  /** The test `Length() < tnear && Length() > 0` that makes a hit the new
      nearest one. */
  predicate Candidate(m: Maths, e: Entity, ray: Ray, tnear: real) {
    Hit(m, e, ray).Some? && HitDistance(m, e, ray) < tnear && HitDistance(m, e, ray) > 0.0
  }

  /** The clamp `castRay` applies before returning: negative channels become 0. */
  function NonNegative(x: real): (y: real)
    ensures 0.0 <= y && (0.0 <= x ==> y == x)
    ensures x < 0.0 ==> y == 0.0
  {
    if x < 0.0 then 0.0 else x
  }

  function ClampColor(c: Color): Color {
    Color(NonNegative(c.r), NonNegative(c.g), NonNegative(c.b))
  }

  /** `castRay(ray, depth)`. */
  function Cast(m: Maths, w: World, fuel: nat, ray: Ray, depth: int): Outcome
    requires Lawful(m) && WellFormed(w)
    decreases fuel, 0, 0
  {
    if depth > MaxDepth then Shaded(Black)
    else if fuel == 0 then OutOfFuel
    else
      match Scan(m, w, fuel - 1, ray, depth, 0, Infinity, Black)
      case OutOfFuel => OutOfFuel
      case Shaded(c) => Shaded(ClampColor(c))
  }

  /** The `foreach` over the entities from index `i` on, with the nearest
      distance so far `tnear` and the colour so far `acc`. Every hit closer
      than `tnear` replaces the colour; a refractive one also ends the scan. */
  function Scan(m: Maths, w: World, fuel: nat, ray: Ray, depth: int, i: nat, tnear: real, acc: Color): Outcome
    requires Lawful(m) && WellFormed(w) && i <= |w.entities|
    decreases fuel, 2, |w.entities| - i
  {
    if i == |w.entities| then Shaded(acc)
    else
      var e := w.entities[i];
      if !Candidate(m, e, ray, tnear) then Scan(m, w, fuel, ray, depth, i + 1, tnear, acc)
      else
        match Shade(m, w, fuel, e, Hit(m, e, ray).value, depth)
        case OutOfFuel => OutOfFuel
        case Shaded(c) =>
          if EntityMaterial(e).kind == Refractive then Shaded(c)
          else Scan(m, w, fuel, ray, depth, i + 1, HitDistance(m, e, ray), c)
  }

  /** The origin of a secondary ray: the hit position pushed by `Bias` along
      the normal, forwards or backwards. */
  function Offset(hit: RayHit, forward: bool): Vec3 {
    if forward then hit.position.Plus(hit.normal.Times(Bias))
    else hit.position.Minus(hit.normal.Times(Bias))
  }

  /** The mirror ray of the reflective and glossy cases: from the biased hit
      position along the unnormalised `reflection(hit)`. */
  function ReflectionRay(hit: RayHit): Ray {
    Ray(Offset(hit, true), Reflection(hit))
  }

  /** The colour of the nearest hit, by material. */
  function Shade(m: Maths, w: World, fuel: nat, e: Entity, hit: RayHit, depth: int): Outcome
    requires Lawful(m) && WellFormed(w) && Admissible(e)
    decreases fuel, 1, 1
  {
    match EntityMaterial(e).kind
    case Diffuse => Shaded(DiffuseColor(m, w.entities, e, hit, w.lights))
    case Refractive => RefractiveShade(m, w, fuel, e, hit, depth)
    case Glossy => PhongColor(m, w, fuel, e, hit, depth)
    case Reflective => Cast(m, w, fuel, ReflectionRay(hit), depth + 1)
    case Unrecognised => Shaded(EntityMaterial(e).color)
  }

  /** The refractive case: `fresnel` gives `kr`, and the rest is `RefractiveMix`. */
  function RefractiveShade(m: Maths, w: World, fuel: nat, e: Entity, hit: RayHit, depth: int): Outcome
    requires Lawful(m) && WellFormed(w) && Admissible(e) && EntityMaterial(e).kind == Refractive
    decreases fuel, 1, 0
  {
    RefractiveMix(m, w, fuel, e, hit, depth, Fresnel(m, hit, EntityMaterial(e).refractiveIndex))
  }

  /** The ray leaves the surface on the side it came from when `I . N < 0`. */
  predicate Outside(hit: RayHit) {
    hit.incident.Dot(hit.normal) < 0.0
  }

  /** The refracted ray: from the hit pushed to the far side of the surface,
      along the normalised `refraction` direction. */
  function RefractedRay(m: Maths, hit: RayHit, ior: real): Ray
    requires ior != 0.0
  {
    Ray(Offset(hit, !Outside(hit)), Normalized(m, Refraction(m, hit, ior)))
  }

  /** The reflected ray of the refractive case: from the hit pushed to the
      near side, along the normalised `reflection` direction. */
  function ReflectedRay(m: Maths, hit: RayHit): Ray {
    Ray(Offset(hit, Outside(hit)), Normalized(m, Reflection(hit)))
  }

  /** The refracted colour: black under total internal reflection (`kr >= 1`),
      otherwise the refracted cast one level deeper, filtered by the
      Beer's-law factor when the ray is leaving the medium (`I . N > 0`). */
  function RefractedColor(m: Maths, w: World, fuel: nat, e: Entity, hit: RayHit, depth: int, kr: real): Outcome
    requires Lawful(m) && WellFormed(w) && Admissible(e) && EntityMaterial(e).kind == Refractive
    decreases fuel, 0, 1
  {
    if kr < 1.0 then
      match Cast(m, w, fuel, RefractedRay(m, hit, EntityMaterial(e).refractiveIndex), depth + 1)
      case OutOfFuel => OutOfFuel
      case Shaded(c) =>
        if hit.incident.Dot(hit.normal) > 0.0 then Shaded(c.Modulate(Transmittance(m, EntityMaterial(e), hit.position)))
        else Shaded(c)
    else Shaded(Black)
  }

  /** The two casts of the refractive case mixed as `reflection * kr +
      refraction * (1 - kr)`. */
  function RefractiveMix(m: Maths, w: World, fuel: nat, e: Entity, hit: RayHit, depth: int, kr: real): Outcome
    requires Lawful(m) && WellFormed(w) && Admissible(e) && EntityMaterial(e).kind == Refractive
    decreases fuel, 0, 2
  {
    var refracted := RefractedColor(m, w, fuel, e, hit, depth, kr);
    if refracted.OutOfFuel? then OutOfFuel
    else
      match Cast(m, w, fuel, ReflectedRay(m, hit), depth + 1)
      case OutOfFuel => OutOfFuel
      case Shaded(reflected) => Shaded(Mix(reflected, refracted.color, kr))
  }

  /** `reflected * kr + refracted * (1 - kr)`. */
  function Mix(reflected: Color, refracted: Color, kr: real): Color {
    reflected.Scaled(kr).Plus(refracted.Scaled(1.0 - kr))
  }

  // ---------------------------------------------------------------------
  // diffusion and the hard-shadow test
  // ---------------------------------------------------------------------

  /** The normalised direction from the hit to the light. */
  function LightDirection(m: Maths, hit: RayHit, light: PointLight): Vec3 {
    Normalized(m, light.position.Minus(hit.position))
  }

  function ShadowRay(m: Maths, hit: RayHit, light: PointLight): Ray {
    Ray(Offset(hit, true), LightDirection(m, hit, light))
  }

  /** `other` blocks the light: it is not the shaded entity, and it meets the
      shadow ray closer to the hit than the light is. */
  predicate Blocks(m: Maths, other: Entity, e: Entity, hit: RayHit, light: PointLight) {
    var h := Hit(m, other, ShadowRay(m, hit, light));
    && other != e
    && h.Some?
    && Length(m, h.value.position.Minus(hit.position)) < Length(m, light.position.Minus(hit.position))
  }

  /** The hard-shadow test: some entity of `entities` blocks the light. */
  predicate InShadow(m: Maths, entities: seq<Entity>, e: Entity, hit: RayHit, light: PointLight) {
    exists k :: 0 <= k < |entities| && Blocks(m, entities[k], e, hit, light)
  }

  /** `(material colour * light colour) * (N . L)`. */
  function LightTerm(m: Maths, e: Entity, hit: RayHit, light: PointLight): Color {
    EntityMaterial(e).color.Modulate(light.color).Scaled(hit.normal.Dot(LightDirection(m, hit, light)))
  }

  /** What one light adds to `diffusion`: nothing when the point is in its
      shadow. */
  function Contribution(m: Maths, entities: seq<Entity>, e: Entity, hit: RayHit, light: PointLight): Color {
    if InShadow(m, entities, e, hit, light) then Black else LightTerm(m, e, hit, light)
  }

  /** The colours `f` gives the lights, added up in order. */
  function LightSum(f: PointLight -> Color, lights: seq<PointLight>): Color
    decreases |lights|
  {
    if lights == [] then Black
    else LightSum(f, lights[..|lights| - 1]).Plus(f(lights[|lights| - 1]))
  }

  /** `diffusion(hit, entity)` over the lights `lights`, accumulated in order. */
  function DiffuseColor(m: Maths, entities: seq<Entity>, e: Entity, hit: RayHit, lights: seq<PointLight>): Color {
    LightSum(light => Contribution(m, entities, e, hit, light), lights)
  }

  // ---------------------------------------------------------------------
  // Phong
  // ---------------------------------------------------------------------

  function Power(x: real, k: nat): real {
    if k == 0 then 1.0 else x * Power(x, k - 1)
  }

  /** The highlight `pow(max(0, R . -I), n) / 2` one unshadowed light adds. */
  function Highlight(hit: RayHit): real {
    Power(Max(0.0, Reflection(hit).Dot(hit.incident.Neg())), SpecularExponent) / 2.0
  }

  /** `diffuse * Kd + specular * Ks`. */
  function PhongMix(diffuse: Color, specular: Color): Color {
    diffuse.Scaled(Kd).Plus(specular.Scaled(Ks))
  }

  /** The loop of `Phong` from light `j` on: `d` is the current value of
      `depth`, `specVec` and `specular` the two accumulators. Each unshadowed
      light adds its highlight and the colour cast along the mirror ray at
      depth `d`, and then `d` goes up by one. */
  function PhongLoop(m: Maths, w: World, fuel: nat, e: Entity, hit: RayHit, j: nat, d: int, specVec: real,
                     specular: Color): Outcome
    requires Lawful(m) && WellFormed(w) && j <= |w.lights|
    decreases fuel, 0, |w.lights| - j + 1
  {
    if j == |w.lights| then
      Shaded(PhongMix(DiffuseColor(m, w.entities, e, hit, w.lights), specular.Offset(specVec)))
    else if InShadow(m, w.entities, e, hit, w.lights[j]) then
      PhongLoop(m, w, fuel, e, hit, j + 1, d, specVec, specular)
    else
      match Cast(m, w, fuel, ReflectionRay(hit), d)
      case OutOfFuel => OutOfFuel
      case Shaded(c) => PhongLoop(m, w, fuel, e, hit, j + 1, d + 1, specVec + Highlight(hit), specular.Plus(c))
  }

  /** `Phong(hit, entity, depth)`. */
  function PhongColor(m: Maths, w: World, fuel: nat, e: Entity, hit: RayHit, depth: int): Outcome
    requires Lawful(m) && WellFormed(w)
    decreases fuel, 0, |w.lights| + 2
  {
    PhongLoop(m, w, fuel, e, hit, 0, depth, 0.0, Black)
  }
}
