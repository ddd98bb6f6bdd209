/** Value types shared by the primitives and the scene: vectors, colours, rays,
    hit records, materials and point lights, together with the numeric library
    the tracer calls into (square root, normalisation and the Beer's-law
    transmittance), which the model receives as a parameter. */
module Values {

  datatype Option<T> = None | Some(value: T)

  /** A point or direction in space; `Vector3` of the C# source. */
  datatype Vec3 = Vec3(x: real, y: real, z: real) {
    function Plus(o: Vec3): Vec3 { Vec3(x + o.x, y + o.y, z + o.z) }
    function Minus(o: Vec3): Vec3 { Vec3(x - o.x, y - o.y, z - o.z) }
    function Neg(): Vec3 { Vec3(-x, -y, -z) }
    function Times(s: real): Vec3 { Vec3(x * s, y * s, z * s) }
    function Dot(o: Vec3): real { x * o.x + y * o.y + z * o.z }
    function Cross(o: Vec3): Vec3 {
      Vec3(y * o.z - z * o.y, z * o.x - x * o.z, x * o.y - y * o.x)
    }
  }

  const Origin := Vec3(0.0, 0.0, 0.0)

  /** An RGB colour with unbounded real channels. */
  datatype Color = Color(r: real, g: real, b: real) {
    function Plus(o: Color): Color { Color(r + o.r, g + o.g, b + o.b) }
    function Scaled(s: real): Color { Color(r * s, g * s, b * s) }
    /** Channel-by-channel product of two colours. */
    function Modulate(o: Color): Color { Color(r * o.r, g * o.g, b * o.b) }
    /** Adds the same amount to every channel. */
    function Offset(s: real): Color { Color(r + s, g + s, b + s) }
  }

  const Black := Color(0.0, 0.0, 0.0)

  /** A ray; the direction is meant to be of unit length, which lemmas
      that need it require explicitly. */
  datatype Ray = Ray(origin: Vec3, direction: Vec3) {
    function At(t: real): Vec3 { origin.Plus(direction.Times(t)) }
  }

  datatype MaterialType = Diffuse | Glossy | Reflective | Refractive | Unrecognised

  datatype Material = Material(kind: MaterialType, color: Color, refractiveIndex: real)

  /** A successful intersection: where, the surface normal there, the
      direction of the ray that arrived, and the surface's material. */
  datatype RayHit = RayHit(position: Vec3, normal: Vec3, incident: Vec3, material: Material)

  datatype PointLight = PointLight(position: Vec3, color: Color)

  /** The routines the tracer calls but whose code is not part of the model:
      `Math.Sqrt`, `Vector3.Normalized` and the Beer's-law transmittance of a
      material at a hit position. */
  datatype Maths = Maths(sqrt: real -> real, normalized: Vec3 -> Vec3,
                         transmittance: (Material, Vec3) -> Color)

  /** `Math.Sqrt`. */
  function Sqrt(m: Maths, x: real): real {
    m.sqrt(x)
  }

  /** `Vector3.Normalized()`. */
  function Normalized(m: Maths, v: Vec3): Vec3 {
    m.normalized(v)
  }

  /** The per-channel Beer's-law factor for a material at a hit position. */
  function Transmittance(m: Maths, material: Material, position: Vec3): Color {
    m.transmittance(material, position)
  }

  /** The square-root law at one point. */
  ghost predicate SqrtLawAt(m: Maths, x: real) {
    0.0 <= x ==> 0.0 <= Sqrt(m, x) && Sqrt(m, x) * Sqrt(m, x) == x
  }

  /** The only facts the model assumes about the square root; proofs use them
      one point at a time through `SqrtLaw`. */
  ghost predicate Lawful(m: Maths) {
    forall x: real :: SqrtLawAt(m, x)
  }

  lemma SqrtLaw(m: Maths, x: real)
    requires Lawful(m) && 0.0 <= x
    ensures 0.0 <= Sqrt(m, x) && Sqrt(m, x) * Sqrt(m, x) == x
  {
    assert SqrtLawAt(m, x);
  }

  lemma SqrtNonNegative(m: Maths, x: real)
    requires Lawful(m) && 0.0 <= x
    ensures 0.0 <= Sqrt(m, x)
  {
    SqrtLaw(m, x);
  }

  /** `Vector3.Length()`. */
  function Length(m: Maths, v: Vec3): real {
    Sqrt(m, v.Dot(v))
  }

  function Abs(x: real): (r: real)
    ensures 0.0 <= r && (r == x || r == -x)
  {
    if x < 0.0 then -x else x
  }

  function Max(a: real, b: real): (r: real)
    ensures a <= r && b <= r && (r == a || r == b)
  {
    if a < b then b else a
  }

  /** `Math.Clamp(x, lo, hi)`. */
  function Clamp(x: real, lo: real, hi: real): (r: real)
    requires lo <= hi
    ensures lo <= r <= hi
    ensures lo <= x <= hi ==> r == x
  {
    if x < lo then lo else if x > hi then hi else x
  }

  lemma SqrtPositive(m: Maths, x: real)
    requires Lawful(m) && 0.0 < x
    ensures 0.0 < Sqrt(m, x)
  {
    SqrtLaw(m, x);
  }

  /** The square root of a square is the non-negative base. */
  lemma SqrtOfSquare(m: Maths, x: real, y: real)
    requires Lawful(m) && 0.0 <= y && x == y * y
    ensures Sqrt(m, x) == y
  {
    var s := Sqrt(m, x);
    SqrtLaw(m, x);
    assert (s - y) * (s + y) == s * s - y * y == 0.0;
    ZeroProduct(s - y, s + y);
  }

  /** The square of a real; naming it keeps proofs about squares cheap. */
  function Sq(x: real): real {
    x * x
  }

  lemma NonNegativeProduct(a: real, b: real)
    requires 0.0 <= a && 0.0 <= b
    ensures 0.0 <= a * b
  {
  }

  lemma SquareNonNegative(x: real)
    ensures 0.0 <= x * x
  {
    if x < 0.0 {
      NonNegativeProduct(-x, -x);
    } else {
      NonNegativeProduct(x, x);
    }
  }

  /** Multiplying by a non-negative factor keeps the order. */
  lemma MulMonotone(a: real, b: real, c: real)
    requires 0.0 <= a && b <= c
    ensures a * b <= a * c
  {
    NonNegativeProduct(a, c - b);
    assert a * (c - b) == a * c - a * b;
  }

  /** A square of a value in [-1, 1] is at most 1, and below 1 inside (-1, 1). */
  lemma SquareAtMostOne(x: real)
    requires -1.0 <= x <= 1.0
    ensures x * x <= 1.0
    ensures -1.0 < x < 1.0 ==> x * x < 1.0
  {
    var y := Abs(x);
    assert x * x == y * y;
    MulMonotone(y, y, 1.0);
  }

  lemma ZeroProduct(a: real, b: real)
    requires a * b == 0.0
    ensures a == 0.0 || b == 0.0
  {
  }

  lemma DivTimes(x: real, y: real)
    requires y != 0.0
    ensures x / y * y == x
  {
  }

  /** Projecting a point of a ray on a direction `n`, measured from `c`. */
  lemma RayPointDot(ray: Ray, t: real, c: Vec3, n: Vec3)
    ensures ray.At(t).Minus(c).Dot(n) == ray.origin.Minus(c).Dot(n) + t * ray.direction.Dot(n)
  {
  }

  /** A ray parameter `t` with `t (d . n) = (c - o) . n` gives a point in the
      plane through `c` with normal `n`. */
  lemma PlanePoint(ray: Ray, t: real, c: Vec3, n: Vec3)
    requires t * ray.direction.Dot(n) == c.Minus(ray.origin).Dot(n)
    ensures ray.At(t).Minus(c).Dot(n) == 0.0
  {
    RayPointDot(ray, t, c, n);
    DotMinus(ray.origin, c, n);
    DotMinus(c, ray.origin, n);
  }

  /** A vector is parallel to every multiple of itself. */
  lemma CrossMultiple(u: Vec3, k: real)
    ensures u.Cross(u.Times(k)) == Origin
  {
    assert u.y * (u.z * k) - u.z * (u.y * k) == 0.0;
    assert u.z * (u.x * k) - u.x * (u.z * k) == 0.0;
    assert u.x * (u.y * k) - u.y * (u.x * k) == 0.0;
  }

  lemma MultipleCross(u: Vec3, k: real)
    ensures u.Times(k).Cross(u) == Origin
  {
    assert (u.y * k) * u.z - (u.z * k) * u.y == 0.0;
    assert (u.z * k) * u.x - (u.x * k) * u.z == 0.0;
    assert (u.x * k) * u.y - (u.y * k) * u.x == 0.0;
  }

  /** The dot product is symmetric and linear in each argument. */
  lemma DotSymmetric(a: Vec3, b: Vec3)
    ensures a.Dot(b) == b.Dot(a)
  {
  }

  lemma DotPlus(a: Vec3, b: Vec3, c: Vec3)
    ensures a.Plus(b).Dot(c) == a.Dot(c) + b.Dot(c)
  {
  }

  lemma DotMinus(a: Vec3, b: Vec3, c: Vec3)
    ensures a.Minus(b).Dot(c) == a.Dot(c) - b.Dot(c)
  {
  }

  lemma DotTimes(a: Vec3, s: real, c: Vec3)
    ensures a.Times(s).Dot(c) == s * a.Dot(c)
    ensures c.Dot(a.Times(s)) == s * c.Dot(a)
  {
  }

  lemma DotNeg(a: Vec3, b: Vec3)
    ensures a.Dot(b.Neg()) == -a.Dot(b)
    ensures a.Neg().Dot(a.Neg()) == a.Dot(a)
  {
  }

  /** Cauchy-Schwarz for unit vectors: their dot product lies in [-1, 1]. */
  lemma UnitDotBounded(a: Vec3, b: Vec3)
    requires a.Dot(a) == 1.0 && b.Dot(b) == 1.0
    ensures -1.0 <= a.Dot(b) <= 1.0
  {
    var s := a.Plus(b);
    var d := a.Minus(b);
    assert 0.0 <= s.Dot(s) == a.Dot(a) + 2.0 * a.Dot(b) + b.Dot(b);
    assert 0.0 <= d.Dot(d) == a.Dot(a) - 2.0 * a.Dot(b) + b.Dot(b);
  }
}
