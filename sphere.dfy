/** The sphere primitive of src/scene/primitives/Sphere.cs, including its
    (unused) quadratic solver. */
module Spheres {
  import opened Values

  datatype Sphere = Sphere(center: Vec3, radius: real, material: Material)

  /** The swap block: puts a pair of candidate roots in ascending order. */
  function Ascending(a: real, b: real): (r: (real, real))
    ensures r.0 <= r.1
    ensures (r.0 == a && r.1 == b) || (r.0 == b && r.1 == a)
  {
    if a > b then (b, a) else (a, b)
  }

  /** Projection of the centre offset onto the ray direction. */
  function Tca(s: Sphere, ray: Ray): real {
    s.center.Minus(ray.origin).Dot(ray.direction)
  }

  /** Squared distance from the centre to the ray's line (for a unit direction). */
  function D2(s: Sphere, ray: Ray): real {
    var l := s.center.Minus(ray.origin);
    l.Dot(l) - Tca(s, ray) * Tca(s, ray)
  }

  /** `radius2 - d2`, the squared half chord. */
  function HalfChord2(s: Sphere, ray: Ray): real {
    s.radius * s.radius - D2(s, ray)
  }

  /** Half chord length `thc`. */
  function Thc(m: Maths, s: Sphere, ray: Ray): real {
    Sqrt(m, HalfChord2(s, ray))
  }

  /** The two candidate roots after the swap block. */
  function Roots(m: Maths, s: Sphere, ray: Ray): (real, real) {
    Ascending(Tca(s, ray) - Thc(m, s, ray), Tca(s, ray) + Thc(m, s, ray))
  }

  /** The hit record built for the chosen root `t`. */
  function HitAt(m: Maths, s: Sphere, ray: Ray, t: real): RayHit {
    var position := ray.At(t);
    RayHit(position, Normalized(m, position.Minus(s.center)), ray.direction, s.material)
  }

  /** `Sphere.Intersect`, geometric solution. */
  function Intersect(m: Maths, s: Sphere, ray: Ray): Option<RayHit> {
    if D2(s, ray) > s.radius * s.radius then None
    else
      var (t0, t1) := Roots(m, s, ray);
      if t0 < 0.0 then
        if t1 < 0.0 then None else Some(HitAt(m, s, ray, t1))
      else Some(HitAt(m, s, ray, t0))
  }

  /** With a lawful square root `thc` is non-negative, so the swap block
      never exchanges the roots. */
  lemma SwapNeverFires(m: Maths, s: Sphere, ray: Ray)
    requires Lawful(m) && D2(s, ray) <= s.radius * s.radius
    ensures Roots(m, s, ray) == (Tca(s, ray) - Thc(m, s, ray), Tca(s, ray) + Thc(m, s, ray))
  {
    ThcNonNegative(m, s, ray);
    AscendingAroundCentre(Tca(s, ray), Thc(m, s, ray));
  }

  lemma ThcNonNegative(m: Maths, s: Sphere, ray: Ray)
    requires Lawful(m) && D2(s, ray) <= s.radius * s.radius
    ensures 0.0 <= Thc(m, s, ray)
  {
    SqrtNonNegative(m, HalfChord2(s, ray));
  }

  lemma ThcSquared(m: Maths, s: Sphere, ray: Ray)
    requires Lawful(m) && D2(s, ray) <= s.radius * s.radius
    ensures Thc(m, s, ray) * Thc(m, s, ray) == HalfChord2(s, ray)
  {
    SqrtLaw(m, HalfChord2(s, ray));
  }

  lemma AscendingAroundCentre(c: real, h: real)
    requires 0.0 <= h
    ensures Ascending(c - h, c + h) == (c - h, c + h)
  {
  }

  /** Which root is used, and when there is no hit at all. */
  lemma RootChoice(m: Maths, s: Sphere, ray: Ray)
    ensures D2(s, ray) > s.radius * s.radius ==> Intersect(m, s, ray).None?
    ensures D2(s, ray) <= s.radius * s.radius ==>
              var (t0, t1) := Roots(m, s, ray);
              && (t0 < 0.0 && t1 < 0.0 ==> Intersect(m, s, ray).None?)
              && (t0 < 0.0 <= t1 ==> Intersect(m, s, ray) == Some(HitAt(m, s, ray, t1)))
              && (0.0 <= t0 ==> Intersect(m, s, ray) == Some(HitAt(m, s, ray, t0)))
  {
  }

  /** Every hit is on the ray at a non-negative root, its normal is the
      normalised offset from the centre, and its incident is the ray direction. */
  lemma HitOnRay(m: Maths, s: Sphere, ray: Ray)
    requires Intersect(m, s, ray).Some?
    ensures var h := Intersect(m, s, ray).value;
            var (t0, t1) := Roots(m, s, ray);
            && D2(s, ray) <= s.radius * s.radius
            && (exists t :: (t == t0 || t == t1) && 0.0 <= t && h == HitAt(m, s, ray, t))
            && h.normal == Normalized(m, h.position.Minus(s.center))
            && h.incident == ray.direction
            && h.material == s.material
  {
    var (t0, t1) := Roots(m, s, ray);
    if t0 < 0.0 {
      assert Intersect(m, s, ray).value == HitAt(m, s, ray, t1);
    } else {
      assert Intersect(m, s, ray).value == HitAt(m, s, ray, t0);
    }
  }

  /** The parameter of the hit the sphere returns, when it returns one. */
  function ChosenRoot(m: Maths, s: Sphere, ray: Ray): real {
    if Roots(m, s, ray).0 < 0.0 then Roots(m, s, ray).1 else Roots(m, s, ray).0
  }

  lemma HitAtChosenRoot(m: Maths, s: Sphere, ray: Ray)
    requires Intersect(m, s, ray).Some?
    ensures D2(s, ray) <= s.radius * s.radius
    ensures Intersect(m, s, ray).value.position == ray.At(ChosenRoot(m, s, ray))
  {
  }

  /** For a unit direction and a lawful square root, every hit lies on the
      sphere's surface. */
  lemma HitOnSurface(m: Maths, s: Sphere, ray: Ray)
    requires Lawful(m) && ray.direction.Dot(ray.direction) == 1.0
    requires Intersect(m, s, ray).Some?
    ensures var p := Intersect(m, s, ray).value.position.Minus(s.center);
            p.Dot(p) == s.radius * s.radius
  {
    HitAtChosenRoot(m, s, ray);
    ChosenRootChord(m, s, ray);
    OnSurfaceAt(s, ray, ChosenRoot(m, s, ray));
  }

  /** A point of the ray half a chord away from `tca` is on the surface. */
  lemma OnSurfaceAt(s: Sphere, ray: Ray, t: real)
    requires ray.direction.Dot(ray.direction) == 1.0
    requires (t - Tca(s, ray)) * (t - Tca(s, ray)) == HalfChord2(s, ray)
    ensures var p := ray.At(t).Minus(s.center);
            p.Dot(p) == s.radius * s.radius
  {
    var l := s.center.Minus(ray.origin);
    HitOffset(s, ray, t);
    SurfaceArithmetic(l.Dot(l), Tca(s, ray), HalfChord2(s, ray), t, s.radius * s.radius);
  }

  /** The chosen root lies half a chord away from `tca`. */
  lemma ChosenRootChord(m: Maths, s: Sphere, ray: Ray)
    requires Lawful(m) && D2(s, ray) <= s.radius * s.radius
    ensures (ChosenRoot(m, s, ray) - Tca(s, ray)) * (ChosenRoot(m, s, ray) - Tca(s, ray)) == HalfChord2(s, ray)
  {
    ThcSquared(m, s, ray);
    ChordSquare(Tca(s, ray), Thc(m, s, ray), ChosenRoot(m, s, ray));
  }

  /** The squared distance from the centre of the point at parameter `t`. */
  lemma HitOffset(s: Sphere, ray: Ray, t: real)
    requires ray.direction.Dot(ray.direction) == 1.0
    ensures var p := ray.At(t).Minus(s.center);
            var l := s.center.Minus(ray.origin);
            p.Dot(p) == (t - Tca(s, ray)) * (t - Tca(s, ray)) - Tca(s, ray) * Tca(s, ray) + l.Dot(l)
  {
    var l := s.center.Minus(ray.origin);
    assert ray.At(t).Minus(s.center) == ray.direction.Times(t).Minus(l);
    OffsetSquare(ray.direction, l, t);
  }

  lemma ChordSquare(c: real, h: real, t: real)
    requires t == Ascending(c - h, c + h).0 || t == Ascending(c - h, c + h).1
    ensures (t - c) * (t - c) == h * h
  {
  }

  lemma SurfaceArithmetic(ll: real, tca: real, hh: real, t: real, rr: real)
    requires hh == rr - (ll - tca * tca) && (t - tca) * (t - tca) == hh
    ensures (t - tca) * (t - tca) - tca * tca + ll == rr
  {
  }

  /** |t d - l|^2 = (t - l.d)^2 - (l.d)^2 + |l|^2 for a unit vector d. */
  lemma OffsetSquare(d: Vec3, l: Vec3, t: real)
    requires d.Dot(d) == 1.0
    ensures var p := d.Times(t).Minus(l);
            p.Dot(p) == (t - l.Dot(d)) * (t - l.Dot(d)) - l.Dot(d) * l.Dot(d) + l.Dot(l)
  {
    var p := d.Times(t).Minus(l);
    assert p.Dot(p) == t * t * d.Dot(d) - 2.0 * t * d.Dot(l) + l.Dot(l);
  }

  /** A sphere of radius r at the origin, hit head-on by a unit ray along +z
      from (0, 0, -z0) with z0 > r: the hit is at distance z0 - r, at
      (0, 0, -r), with the normalised position as normal. */
  lemma HeadOn(m: Maths, r: real, z0: real, material: Material)
    requires Lawful(m) && 0.0 < r < z0
    ensures var ray := Ray(Vec3(0.0, 0.0, -z0), Vec3(0.0, 0.0, 1.0));
            Intersect(m, Sphere(Origin, r, material), ray) ==
              Some(RayHit(Vec3(0.0, 0.0, -r), Normalized(m, Vec3(0.0, 0.0, -r)), ray.direction, material))
  {
    var s := Sphere(Origin, r, material);
    var ray := Ray(Vec3(0.0, 0.0, -z0), Vec3(0.0, 0.0, 1.0));
    assert Tca(s, ray) == z0;
    assert D2(s, ray) == 0.0;
    assert HalfChord2(s, ray) == r * r;
    SqrtOfSquare(m, HalfChord2(s, ray), r);
    assert Thc(m, s, ray) == r;
    AscendingAroundCentre(z0, r);
    assert Roots(m, s, ray) == (z0 - r, z0 + r);
    assert ray.At(z0 - r) == Vec3(0.0, 0.0, -r);
  }

  /** `solveQuadratic`: since `x0` and `x1` are passed by value, its only
      observable effect is whether the discriminant is non-negative. */
  function SolveQuadratic(a: real, b: real, c: real): (solvable: bool)
    ensures solvable <==> b * b - 4.0 * a * c >= 0.0
  {
    !(Discriminant(a, b, c) < 0.0)
  }

  function Discriminant(a: real, b: real, c: real): real {
    b * b - 4.0 * a * c
  }

  /** The roots `solveQuadratic` computes into its local copies of `x0`, `x1`
      (numerically stable form, then the swap block). */
  function QuadraticRoots(m: Maths, a: real, b: real, c: real): Option<(real, real)>
    requires Lawful(m) && a != 0.0
  {
    var discr := Discriminant(a, b, c);
    if discr < 0.0 then None
    else if discr == 0.0 then Some(Ascending(-0.5 * b / a, -0.5 * b / a))
    else
      SqrtLaw(m, discr);
      SqrtPositive(m, discr);
      StableQ(a, b, c, Sqrt(m, discr));
      var q := StableQuotient(b, Sqrt(m, discr));
      Some(Ascending(q / a, c / q))
  }

  /** `q = -0.5 * (b + sign(b) * sqrt(discr))`. */
  function StableQuotient(b: real, root: real): real {
    if b > 0.0 then -0.5 * (b + root) else -0.5 * (b - root)
  }

  /** The identity behind the stable form: q^2 + b q + a c = 0 for
      q = -(b + sign(b) sqrt(discr)) / 2. */
  lemma StableQ(a: real, b: real, c: real, root: real)
    requires 0.0 < root && root * root == b * b - 4.0 * a * c
    ensures var q := StableQuotient(b, root);
            q != 0.0 && q * q + b * q + a * c == 0.0
  {
  }

  /** x = q / a solves the equation when q^2 + b q + a c = 0. */
  lemma FirstRoot(a: real, b: real, c: real, q: real, x: real)
    requires a != 0.0 && x * a == q && q * q + b * q + a * c == 0.0
    ensures a * x * x + b * x + c == 0.0
  {
    assert a * (a * x * x + b * x + c) == q * q + b * q + a * c;
    ZeroProduct(a, a * x * x + b * x + c);
  }

  /** x = c / q solves the equation when q^2 + b q + a c = 0. */
  lemma SecondRoot(a: real, b: real, c: real, q: real, x: real)
    requires q != 0.0 && x * q == c && q * q + b * q + a * c == 0.0
    ensures a * x * x + b * x + c == 0.0
  {
    assert q * q * (a * x * x + b * x + c) == c * (a * c + b * q + q * q);
    ZeroProduct(q * q, a * x * x + b * x + c);
  }

  /** The double root -b / 2a solves the equation when the discriminant is zero. */
  lemma DoubleRoot(a: real, b: real, c: real, x: real)
    requires a != 0.0 && b * b - 4.0 * a * c == 0.0 && x * a == -0.5 * b
    ensures Solves(a, b, c, x)
  {
    assert a * (a * x * x + b * x + c) == 0.25 * b * b - 0.5 * b * b + a * c;
    ZeroProduct(a, a * x * x + b * x + c);
  }

  /** `x` is a root of a x^2 + b x + c. */
  predicate Solves(a: real, b: real, c: real, x: real) {
    a * x * x + b * x + c == 0.0
  }

  /** Conversely, an equation with a real root (and `a != 0`) is one
      `solveQuadratic` accepts: the discriminant is the square (2ax + b)^2. */
  lemma RootMeansSolvable(a: real, b: real, c: real, x: real)
    requires a != 0.0 && Solves(a, b, c, x)
    ensures SolveQuadratic(a, b, c)
  {
    assert (2.0 * a * x + b) * (2.0 * a * x + b) == b * b - 4.0 * a * c + 4.0 * a * (a * x * x + b * x + c);
    SquareNonNegative(2.0 * a * x + b);
  }

  /** Both stable-form roots solve the equation. */
  lemma StableRoots(a: real, b: real, c: real, root: real)
    requires a != 0.0 && 0.0 < root && root * root == b * b - 4.0 * a * c
    ensures StableQuotient(b, root) != 0.0
    ensures var q := StableQuotient(b, root);
            Solves(a, b, c, Ascending(q / a, c / q).0) && Solves(a, b, c, Ascending(q / a, c / q).1)
  {
    StableQ(a, b, c, root);
    var q := StableQuotient(b, root);
    DivTimes(q, a);
    DivTimes(c, q);
    FirstRoot(a, b, c, q, q / a);
    SecondRoot(a, b, c, q, c / q);
  }

  /** The solver's roots exist exactly when it reports success, come in
      ascending order, and both solve a x^2 + b x + c = 0. */
  lemma QuadraticRootsSolve(m: Maths, a: real, b: real, c: real)
    requires Lawful(m) && a != 0.0
    ensures QuadraticRoots(m, a, b, c).Some? <==> SolveQuadratic(a, b, c)
    ensures QuadraticRoots(m, a, b, c).Some? ==>
              var roots := QuadraticRoots(m, a, b, c).value;
              roots.0 <= roots.1 && Solves(a, b, c, roots.0) && Solves(a, b, c, roots.1)
  {
    var discr := Discriminant(a, b, c);
    if discr == 0.0 {
      DivTimes(-0.5 * b, a);
      DoubleRoot(a, b, c, -0.5 * b / a);
    } else if discr > 0.0 {
      SqrtLaw(m, discr);
      SqrtPositive(m, discr);
      StableRoots(a, b, c, Sqrt(m, discr));
    }
  }
}
