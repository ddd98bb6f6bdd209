# Ray tracer core in Dafny

This project models the shading engine and the intersection routines of a
small recursive ray tracer written in C#:

- `Plane`, `Sphere` and `Triangle` `Intersect`, the plane constructor and the
  sphere's `solveQuadratic` (plane.dfy, sphere.dfy, triangle.dfy);
- the pure helpers `reflection`, `refraction` (Snell's law) and `fresnel` of
  `Scene` (shading.dfy);
- `castRay`, `diffusion` with its hard-shadow test and `Phong`, first as
  specification functions (engine.dfy) with their properties
  (engine_lemmas.dfy), then as the loops of the `Scene` class (scene.dfy).
  Each loop is proved to compute its specification function. `AddEntity`
  and `AddPointLight` are modelled as set insertion.

Doubles are `real`s. Vectors, colours, rays, hit records, materials and
lights are datatypes (values.dfy). `Math.Sqrt`, `Vector3.Normalized` and the
Beer's-law factor come from a `Maths` record passed as a parameter. The only
thing assumed of them is the square-root law: `sqrt(x) >= 0` and
`sqrt(x)^2 == x` for `x >= 0`. Lemmas that need it require `Lawful(m)`.

The entity and light sets are sequences in iteration order. `Phong` passes
`depth++` to `castRay`, so its first unshadowed light recurses at the
caller's own depth, and `MAXDEPTH` alone does not bound the recursion.
Every recursive function and method therefore takes a `fuel` budget, spent
once per entity scan. It answers `OutOfFuel` when the budget runs out.
`CastFuel` shows that more fuel never changes a finished colour.
`CastEnoughFuel` shows that `MAXDEPTH + 2 - depth` fuel always suffices in a
scene without glossy entities.

Some quirks of the code are modelled as written:

- The plane guard `denom < 1e-6 || denom > 1e-6` rejects only exactly 1e-6.
- `castRay` ranks hits by their distance from the world origin.
- A refractive hit ends the scan.
- `fresnel` returns 1 at grazing incidence (`cos i == 0`) as well as under
  total internal reflection. The textbook statement gives kr = 1 only under
  total internal reflection. `Shading.Fresnel` states both cases.

## Model

| member | source | states |
|---|---|---|
| Planes.Intersect | src/scene/primitives/Plane.cs:32-50 | the body follows `Plane.Intersect`: the parallel guard, no hit at a zero denominator, t = (c - o)·n / denom, no hit for t < 0, and the hit record |
| Planes.NewPlane | src/scene/primitives/Plane.cs:20-25 | the plane keeps the centre and material and stores the normalised normal |
| Planes.Guard | src/scene/primitives/Plane.cs:37 | the parallel guard passes every denominator except exactly 1e-6 |
| Planes.MissIff | src/scene/primitives/Plane.cs:32-50 | no hit exactly when the denominator is 1e-6 or zero, or the plane is behind the ray (t < 0) |
| Planes.NearParallelAccepted | src/scene/primitives/Plane.cs:36-45 | a near-parallel ray (denominator 1e-7) with the plane in front still hits |
| Planes.HitOnPlane | src/scene/primitives/Plane.cs:36-45 | a hit is at origin + t·direction with t >= 0, lies on the plane ((p - c)·n = 0), carries the stored normal from either side, the ray direction as incident, and the plane's material |
| Planes.HitNormalIsConstructorNormal | src/scene/primitives/Plane.cs:23 | every hit's normal is the normalised constructor argument |
| Spheres.Intersect | src/scene/primitives/Sphere.cs:32-65 | the body follows `Sphere.Intersect`: tca, d2, the miss when d2 > radius², thc, the swap, the choice of root and the hit record |
| Spheres.QuadraticRoots | src/scene/primitives/Sphere.cs:66-84 | the body follows `solveQuadratic`: no roots for a negative discriminant, the double root, otherwise the stable quotient q and the roots q/a and c/q in ascending order |
| Spheres.Ascending | src/scene/primitives/Sphere.cs:46-50 | the swap block yields the two roots in ascending order, as a permutation of its inputs |
| Spheres.SwapNeverFires | src/scene/primitives/Sphere.cs:42-50 | with thc >= 0 the swap leaves (tca - thc, tca + thc) unchanged |
| Spheres.ThcNonNegative | src/scene/primitives/Sphere.cs:42 | the half chord is non-negative when the ray meets the sphere |
| Spheres.ThcSquared | src/scene/primitives/Sphere.cs:42 | the half chord squared is radius² - d2 |
| Spheres.RootChoice | src/scene/primitives/Sphere.cs:37-59 | no hit when d2 > radius²; no hit when both roots are negative; t1 when only t0 is negative; t0 otherwise |
| Spheres.HitOnRay | src/scene/primitives/Sphere.cs:52-64 | a hit is at one of the two roots with t >= 0, its normal is Normalized(position - centre), its incident is the ray direction, and its material is the sphere's |
| Spheres.HitAtChosenRoot | src/scene/primitives/Sphere.cs:52-59 | a hit's position is origin + t·direction at the chosen root |
| Spheres.HitOnSurface | src/scene/primitives/Sphere.cs:37-59 | for a unit direction every hit lies on the surface: \|p - c\|² = radius² |
| Spheres.OnSurfaceAt | src/scene/primitives/Sphere.cs:37-44 | a ray point half a chord away from tca is on the surface |
| Spheres.ChosenRootChord | src/scene/primitives/Sphere.cs:42-55 | the chosen root is half a chord away from tca |
| Spheres.HitOffset | src/scene/primitives/Sphere.cs:37-40 | the squared distance of a ray point from the centre, in terms of tca |
| Spheres.HeadOn | src/scene/primitives/Sphere.cs:32-65 | a unit sphere-axis ray from outside hits the near pole at distance z0 - r |
| Spheres.SolveQuadratic | src/scene/primitives/Sphere.cs:66-84 | the result is true exactly when b² - 4ac >= 0; x0 and x1 are by-value, so there is no other effect |
| Spheres.StableQ | src/scene/primitives/Sphere.cs:72-74 | the stable quotient q is non-zero and satisfies q² + bq + ac = 0 |
| Spheres.FirstRoot | src/scene/primitives/Sphere.cs:75 | q / a solves the quadratic |
| Spheres.SecondRoot | src/scene/primitives/Sphere.cs:76 | c / q solves the quadratic |
| Spheres.DoubleRoot | src/scene/primitives/Sphere.cs:70 | with a zero discriminant -b / 2a solves the quadratic |
| Spheres.StableRoots | src/scene/primitives/Sphere.cs:72-83 | both ordered stable-form roots solve the quadratic |
| Spheres.RootMeansSolvable | src/scene/primitives/Sphere.cs:66-71 | an equation with a ≠ 0 and a real root makes the solver return true: a root is never missed |
| Spheres.QuadraticRootsSolve | src/scene/primitives/Sphere.cs:66-84 | the solver's local roots exist exactly when it returns true, are ascending, and both solve ax² + bx + c = 0 |
| Triangles.Intersect | src/scene/primitives/Triangle.cs:33-85 | the body follows `Triangle.Intersect`: the face normal, the parallel test, t, no hit for t < 0, the three edge tests and the hit record |
| Triangles.HitIff | src/scene/primitives/Triangle.cs:33-85 | a hit exactly when \|N·d\| >= 1e-6, t >= 0 and the plane point passes all three edge tests |
| Triangles.HitInPlane | src/scene/primitives/Triangle.cs:46-83 | a hit is at origin + t·direction with t >= 0, lies in the plane ((P - v0)·N = 0), has normal Normalized(N), the ray direction as incident, and the triangle's material |
| Triangles.RotatedNormal | src/scene/primitives/Triangle.cs:37-40 | the face normal is invariant under cyclic rotation of the vertices |
| Triangles.VerticesInPlane | src/scene/primitives/Triangle.cs:37-40 | v1 and v2 lie in the plane through v0 with normal N |
| Triangles.RotationInvariant | src/scene/primitives/Triangle.cs:33-85 | rotating the vertices does not change the intersection result |
| Triangles.DegenerateNeverHit | src/scene/primitives/Triangle.cs:37-48 | collinear vertices (one edge from v0 a multiple of the other, including two coincident vertices) give N = 0, so the parallel test rejects every ray |
| Shading.Reflection | src/scene/Scene.cs:227-230 | the body follows `reflection`: I - 2(I·N)N |
| Shading.Refraction | src/scene/Scene.cs:210-226 | the body follows `refraction`: the clamped cosine, the index exchange and flipped normal when cosi >= 0, k, and the zero vector when k < 0 |
| Shading.ReflectionAngle | src/scene/Scene.cs:227-230 | for a unit normal, R·N = -(I·N) |
| Shading.ReflectionLength | src/scene/Scene.cs:227-230 | for a unit normal, reflection keeps the length of I |
| Shading.ReflectionInvolution | src/scene/Scene.cs:227-230 | reflecting the reflection gives back I |
| Shading.RefractionInterface | src/scene/Scene.cs:212-222 | the oriented cosine lies in [0, 1] |
| Shading.InterfaceOrientation | src/scene/Scene.cs:212-222 | for unit vectors the clamp is inactive, I·n = -cosi for the flipped normal, and n is a unit vector |
| Shading.RefractionUnit | src/scene/Scene.cs:210-226 | Snell's law, length: unit inputs give a unit refracted direction when k >= 0 |
| Shading.RefractedUnit | src/scene/Scene.cs:225 | the combination eta I + (eta cosi - sqrt k) n has unit length |
| Shading.UnitCombination | src/scene/Scene.cs:225 | the vector identity behind the unit length |
| Shading.RefractionZeroIff | src/scene/Scene.cs:223-225 | for unit inputs, refraction is the zero vector exactly when k < 0 |
| Shading.TangentialPart | src/scene/Scene.cs:225 | the tangential part of a I + b n is a times that of I |
| Shading.RefractionSnell | src/scene/Scene.cs:210-226 | Snell's law, direction: the tangential part of the refracted direction is eta times that of I |
| Shading.NormalFlipUnit | src/scene/Scene.cs:214-221 | the flipped normal is a unit vector |
| Shading.FresnelIndices | src/scene/Scene.cs:235-240 | cosi is clamped to [-1, 1], and the indices are exchanged exactly when cosi > 0 |
| Shading.SinTransmitted | src/scene/Scene.cs:242 | sint is never negative |
| Shading.SinTransmittedSquare | src/scene/Scene.cs:242 | sint² = (etai/etat)²(1 - cosi²) |
| Shading.RatioSquared | src/scene/Scene.cs:250-252 | each squared polarisation ratio lies in [0, 1] and is 1 exactly when the cosine term is zero |
| Shading.Reflectance | src/scene/Scene.cs:248-252 | (Rs² + Rp²)/2 lies in [0, 1] and is 1 exactly at grazing incidence |
| Shading.Fresnel | src/scene/Scene.cs:232-257 | kr lies in [0, 1] and is 1 exactly when sint >= 1 or cosi = 0 |
| Shading.FresnelRefractionAgree | src/scene/Scene.cs:128-129 | whenever kr < 1 (a refracted ray is cast), refraction's k is positive: the two routines agree on total internal reflection |
| Shading.SameInterface | src/scene/Scene.cs:212-223 | refraction and fresnel use the same squared cosine and index ratio away from grazing incidence |
| Engine.Hit | src/scene/Scene.cs:108 | every hit carries the entity's material and the ray direction |
| Engine.NonNegative | src/scene/Scene.cs:171-179 | a negative channel becomes 0 and a non-negative one is unchanged |
| Engine.Cast | src/scene/Scene.cs:99-181 | the body follows `castRay`: black beyond MAXDEPTH, the entity scan, then the clamp of each channel |
| Engine.Scan | src/scene/Scene.cs:106-169 | the body follows the `foreach` of `castRay`: a candidate passes the distance test against tnear, is shaded, replaces the colour, and ends the scan when refractive |
| Engine.Shade | src/scene/Scene.cs:115-166 | the body follows the material dispatch: diffusion, the refractive case, Phong, the mirror ray one level deeper, or the material colour |
| Engine.RefractiveShade | src/scene/Scene.cs:119-153 | the body follows the refractive case: kr from fresnel, then the mix of the reflected and refracted colours |
| Engine.RefractedColor | src/scene/Scene.cs:121-144 | the body follows the refracted part: black when kr >= 1, otherwise the refracted ray cast one level deeper, filtered by Beer's law when I·N > 0 |
| Engine.RefractiveMix | src/scene/Scene.cs:146-152 | the body follows the reflected cast one level deeper and the mix reflected·kr + refracted·(1 - kr) |
| Engine.Blocks | src/scene/Scene.cs:192-200 | the body follows the inner test: another entity hit by the shadow ray nearer to the point than the light is |
| Engine.InShadow | src/scene/Scene.cs:187-201 | the body follows the shadow loop: some entity of the scene blocks the light |
| Engine.Contribution | src/scene/Scene.cs:187-205 | the body follows one pass of `diffusion`: black when shadowed, else colour × light colour × (N·L) |
| Engine.DiffuseColor | src/scene/Scene.cs:184-208 | the body follows `diffusion`: the sum of the contributions over the lights in order |
| Engine.PhongLoop | src/scene/Scene.cs:264-289 | the body follows the `Phong` loop from light j on, with depth++ passed to castRay, and the final mix |
| Engine.PhongColor | src/scene/Scene.cs:258-291 | the body follows `Phong`: the loop from the first light at the caller's depth with empty accumulators |
| EngineLemmas.DepthCutoff | src/scene/Scene.cs:103-105 | beyond MAXDEPTH = 10 a cast is black |
| EngineLemmas.CastNonNegative | src/scene/Scene.cs:171-180 | every channel of a cast colour is >= 0 |
| EngineLemmas.ScanNoCandidate | src/scene/Scene.cs:106-114 | without a further candidate the scan keeps its colour |
| EngineLemmas.ScanNearest | src/scene/Scene.cs:106-167 | when no refractive entity is shaded on the way to the nearest candidate (one that beats every candidate before it; a farther refractive entity skipped by the running tnear does not matter), the scan's colour is the shade of the nearest candidate (earliest on a tie), refractive or not |
| EngineLemmas.CastNearest | src/scene/Scene.cs:99-181 | when no refractive entity is shaded on the way to the nearest hit, the cast colour is the clamped shade of the hit with the smallest positive distance from the world origin |
| EngineLemmas.CastMiss | src/scene/Scene.cs:101-114 | a ray with no candidate hit is black |
| EngineLemmas.RefractiveEndsScan | src/scene/Scene.cs:119-153 | a refractive candidate ends the scan; later, nearer entities are never looked at |
| EngineLemmas.CastFuel | src/scene/Scene.cs:99-181 | a cast that finishes within some fuel gives the same colour with any more fuel |
| EngineLemmas.ScanFuel | src/scene/Scene.cs:106-169 | the same for the entity scan |
| EngineLemmas.ShadeFuel | src/scene/Scene.cs:115-166 | the same for the material dispatch |
| EngineLemmas.RefractiveFuel | src/scene/Scene.cs:119-154 | the same for the refractive case |
| EngineLemmas.RefractiveMixFuel | src/scene/Scene.cs:128-152 | the same for the two refractive casts |
| EngineLemmas.RefractedColorFuel | src/scene/Scene.cs:121-144 | the same for the refracted colour |
| EngineLemmas.PhongFuel | src/scene/Scene.cs:264-289 | the same for the Phong loop |
| EngineLemmas.CastEnoughFuel | src/scene/Scene.cs:99-181 | without glossy entities, MAXDEPTH + 2 - depth fuel always suffices: MAXDEPTH bounds the recursion |
| EngineLemmas.ScanEnoughFuel | src/scene/Scene.cs:106-169 | the same for the entity scan |
| EngineLemmas.ShadeEnoughFuel | src/scene/Scene.cs:115-166 | the same for the material dispatch |
| EngineLemmas.RefractiveEnoughFuel | src/scene/Scene.cs:119-154 | the same for the refractive case |
| EngineLemmas.RefractiveMixEnoughFuel | src/scene/Scene.cs:128-152 | the same for the two refractive casts |
| EngineLemmas.LightSumBlack | src/scene/Scene.cs:186-206 | lights that each add black add up to black |
| EngineLemmas.LightSumAppend | src/scene/Scene.cs:186-206 | the light sum over a + b is the sum over a plus the sum over b |
| EngineLemmas.LightSumRemove | src/scene/Scene.cs:186-206 | taking one light out removes exactly its colour |
| EngineLemmas.LightSumSplit | src/scene/Scene.cs:186-206 | the sum over before + [x] + after is the sum over before + after plus the colour of x |
| EngineLemmas.LightSumReorder | src/scene/Scene.cs:186-206 | the light sum depends only on the multiset of lights |
| EngineLemmas.LightSumPointwise | src/scene/Scene.cs:186-206 | colourings that agree on every light give the same sum |
| EngineLemmas.DiffuseAllShadowed | src/scene/Scene.cs:202-205 | a point shadowed from every light gets black from diffusion |
| EngineLemmas.DiffuseAppend | src/scene/Scene.cs:186-206 | diffusion is additive over the lights |
| EngineLemmas.DiffuseLightOrder | src/scene/Scene.cs:186-206 | diffusion does not depend on the order of the lights |
| EngineLemmas.ShadowEntityOrder | src/scene/Scene.cs:192-201 | the shadow test depends only on which entities the scene holds |
| EngineLemmas.DiffuseEntityOrder | src/scene/Scene.cs:184-208 | diffusion does not depend on the order of the entities |
| EngineLemmas.AloneUnshadowed | src/scene/Scene.cs:193 | the shaded entity never shadows itself |
| EngineLemmas.PhongShadowedStep | src/scene/Scene.cs:264-280 | a shadowed light leaves the Phong accumulators unchanged |
| EngineLemmas.PhongLitStep | src/scene/Scene.cs:280-285 | an unshadowed light adds its highlight and its mirror colour, and the depth goes up by one |
| EngineLemmas.PhongLitOutOfFuel | src/scene/Scene.cs:284 | Phong runs out of fuel when a mirror ray does |
| EngineLemmas.PhongLoopAllShadowed | src/scene/Scene.cs:264-289 | with every remaining light shadowed, Phong mixes diffusion with the accumulators as they are |
| EngineLemmas.PhongAllShadowed | src/scene/Scene.cs:258-291 | a glossy point shadowed from every light is black |
| EngineLemmas.PhongSameDepth | src/scene/Scene.cs:264-285 | at whatever index it comes, the first unshadowed light's mirror ray is cast at the caller's own depth and must finish for Phong to finish |
| Scenes.InsertSet | src/scene/Scene.cs:38-50 | set insertion keeps the elements distinct, adds exactly x, and grows only for a new x |
| Scenes.InsertIdempotent | src/scene/Scene.cs:38-50 | adding the same element twice equals adding it once |
| Scenes.Scene.constructor | src/scene/Scene.cs:27-32 | a new scene has no entities and no lights |
| Scenes.Scene.AddEntity | src/scene/Scene.cs:38-41 | the entities become their set insertion with e; the lights stay |
| Scenes.Scene.AddPointLight | src/scene/Scene.cs:47-50 | the lights become their set insertion with the light; the entities stay |
| Scenes.Scene.CastRay | src/scene/Scene.cs:99-181 | the loop computes Cast: depth cut-off, nearest-hit scan, refractive break, clamp |
| Scenes.Scene.ShadeHit | src/scene/Scene.cs:115-166 | the material dispatch computes Shade |
| Scenes.Scene.Refracted | src/scene/Scene.cs:128-144 | the refracted colour is black under total internal reflection, else the deeper cast, filtered by Beer's law when leaving |
| Scenes.Scene.IsInShadow | src/scene/Scene.cs:187-201 | the loop's flag is true exactly when some other entity blocks the light |
| Scenes.Scene.Diffusion | src/scene/Scene.cs:184-208 | the loop computes DiffuseColor over the scene's lights |
| Scenes.Scene.Phong | src/scene/Scene.cs:258-291 | the loop computes PhongColor |
| Scenes.Scene.PhongLight | src/scene/Scene.cs:264-285 | one pass of the Phong loop is one step of PhongLoop |

## Left out

- `Render`: the camera mapping, supersampling and image writes. It needs
  `Math.Tan` and an image sink. Its integer-division aspect ratio is not
  modelled.
- IEEE-754 behaviour: rounding, NaN and infinities. Where `Plane.Intersect`
  divides by a zero denominator, C# yields a non-finite hit that every `<`
  comparison rejects. `Planes.Intersect` returns no hit there instead.
- `Math.Sqrt`, `Normalized` and the Beer's-law factor are parameters.
  `Math.Exp` and the `-hit.Position` weighting inside the factor are not
  modelled.
- `Math.Pow(x, 10)` is the exact power `x^10`.
- A refractive entity must have a positive refractive index (`WellFormed`).
  Only a positive index keeps `kr` within [0, 1]. An index of 0 makes
  `fresnel` divide by zero. A negative index gives a finite `kr` that can
  exceed 1: for an index of -2 at I·N = -0.5, Rs is about 19.
- `HashSet` iteration order: the entities and lights are sequences in a
  fixed order. Set insertion uses value equality of the entity records, not
  the reference equality of C# objects. So does the shadow test's
  `entity2 != entity`: `Engine.Blocks` never lets an equal but separate copy
  of the shaded entity cast a shadow on it, where the C# code would.
- The recursion of `castRay` and `Phong` is bounded by `fuel`. A run that
  needs more nested scans than the budget gives answers `OutOfFuel`, not a
  colour. In particular the model does not decide whether `Phong` always
  terminates.
- `Scenes.Scene.IsInShadow` is one method for the shadow loop that
  `diffusion` and `Phong` each write out inline.
- `Scenes.Scene.PhongLight` is one method for the body of the `Phong` loop.
- `Scenes.Scene.Refracted` is one method for the refracted-ray part of the
  refractive branch of `castRay`.
- `Scenes.Scene.ShadeHit` is one method for the material dispatch inside
  the `castRay` loop.
- `Spheres.HitOnSurface` needs a unit ray direction, which the source only
  assumes. `Planes.HitOnPlane` and `Triangles.HitInPlane` need none.
