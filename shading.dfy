/** The shading helpers of src/scene/Scene.cs that are expressions only:
    `reflection`, `refraction` (Snell's law) and `fresnel`. */
module Shading {
  import opened Values

  // ---------------------------------------------------------------------
  // Reflection
  // ---------------------------------------------------------------------

  /** `reflection`: the incident direction mirrored about the normal,
      I - 2 (I . N) N. */
  function Reflection(hit: RayHit): Vec3 {
    hit.incident.Minus(hit.normal.Times(2.0 * hit.incident.Dot(hit.normal)))
  }

  /** For a unit normal the reflected direction leaves at the angle it came in:
      R . N = -(I . N). */
  lemma ReflectionAngle(hit: RayHit)
    requires hit.normal.Dot(hit.normal) == 1.0
    ensures Reflection(hit).Dot(hit.normal) == -hit.incident.Dot(hit.normal)
  {
    var d := hit.incident.Dot(hit.normal);
    DotMinus(hit.incident, hit.normal.Times(2.0 * d), hit.normal);
    DotTimes(hit.normal, 2.0 * d, hit.normal);
  }

  /** |a - b|^2 = |a|^2 - 2 a.b + |b|^2. */
  lemma DotMinusSelf(a: Vec3, b: Vec3)
    ensures a.Minus(b).Dot(a.Minus(b)) == a.Dot(a) - 2.0 * a.Dot(b) + b.Dot(b)
  {
  }

  /** For a unit normal, reflection preserves the length of the incident. */
  lemma ReflectionLength(hit: RayHit)
    requires hit.normal.Dot(hit.normal) == 1.0
    ensures Reflection(hit).Dot(Reflection(hit)) == hit.incident.Dot(hit.incident)
  {
    var i := hit.incident;
    var n := hit.normal;
    var d := i.Dot(n);
    var b := n.Times(2.0 * d);
    DotMinusSelf(i, b);
    DotTimes(n, 2.0 * d, i);
    DotSymmetric(n, i);
    DotTimes(n, 2.0 * d, b);
    DotTimes(n, 2.0 * d, n);
    assert b.Dot(b) == 4.0 * d * d;
  }

  /** For a unit normal, reflecting the reflected direction about the same
      normal gives back the incident. */
  lemma ReflectionInvolution(hit: RayHit)
    requires hit.normal.Dot(hit.normal) == 1.0
    ensures Reflection(hit.(incident := Reflection(hit))) == hit.incident
  {
    var d := hit.incident.Dot(hit.normal);
    ReflectionAngle(hit);
    var r := Reflection(hit);
    assert r.Dot(hit.normal) == -d;
    var n := hit.normal;
    assert Reflection(hit.(incident := r)) == r.Minus(n.Times(2.0 * -d));
  }

  // ---------------------------------------------------------------------
  // Refraction
  // ---------------------------------------------------------------------

  /** What `refraction` derives from the side the ray arrives on: the
      non-negative cosine, the indices of the two media and the normal
      facing the incoming ray. */
  datatype Interface = Interface(cosi: real, etai: real, etat: real, n: Vec3)

  /** The branch of `refraction` on the sign of the clamped N . I: from
      outside (negative) the cosine is negated, otherwise the indices are
      exchanged and the normal flipped. */
  function RefractionInterface(hit: RayHit, ior: real): (f: Interface)
    ensures 0.0 <= f.cosi <= 1.0
  {
    var cosi := Clamp(hit.normal.Dot(hit.incident), -1.0, 1.0);
    if cosi < 0.0 then Interface(-cosi, 1.0, ior, hit.normal)
    else Interface(cosi, ior, 1.0, hit.normal.Neg())
  }

  /** The ratio of indices `eta = etai / etat`. */
  function Eta(hit: RayHit, ior: real): real
    requires ior != 0.0
  {
    var f := RefractionInterface(hit, ior);
    f.etai / f.etat
  }

  /** `k = 1 - eta^2 (1 - cosi^2)`; negative means total internal reflection. */
  function RefractionK(hit: RayHit, ior: real): real
    requires ior != 0.0
  {
    var f := RefractionInterface(hit, ior);
    var eta := Eta(hit, ior);
    1.0 - eta * eta * (1.0 - f.cosi * f.cosi)
  }

  /** `refraction`: the zero vector under total internal reflection, else
      eta I + (eta cosi - sqrt k) n. */
  function Refraction(m: Maths, hit: RayHit, ior: real): Vec3
    requires ior != 0.0
  {
    var f := RefractionInterface(hit, ior);
    var eta := Eta(hit, ior);
    var k := RefractionK(hit, ior);
    if k < 0.0 then Origin
    else hit.incident.Times(eta).Plus(f.n.Times(eta * f.cosi - Sqrt(m, k)))
  }

  /** For unit vectors the clamp is inactive and the oriented normal makes
      I . n = -cosi. */
  lemma InterfaceOrientation(hit: RayHit, ior: real)
    requires hit.normal.Dot(hit.normal) == 1.0 && hit.incident.Dot(hit.incident) == 1.0
    ensures var f := RefractionInterface(hit, ior);
            && hit.incident.Dot(f.n) == -f.cosi
            && f.n.Dot(f.n) == 1.0
            && f.cosi * f.cosi == hit.normal.Dot(hit.incident) * hit.normal.Dot(hit.incident)
  {
    var d := hit.normal.Dot(hit.incident);
    UnitDotBounded(hit.normal, hit.incident);
    DotSymmetric(hit.normal, hit.incident);
    DotNeg(hit.incident, hit.normal);
    DotNeg(hit.normal, hit.normal);
    var f := RefractionInterface(hit, ior);
    assert Clamp(d, -1.0, 1.0) == d;
    if d < 0.0 {
      assert f.n == hit.normal && f.cosi == -d;
    } else {
      assert f.n == hit.normal.Neg() && f.cosi == d;
    }
  }

  /** |a u + b w|^2 expanded. */
  lemma DotCombination(u: Vec3, w: Vec3, a: real, b: real)
    ensures var v := u.Times(a).Plus(w.Times(b));
            v.Dot(v) == a * a * u.Dot(u) + 2.0 * a * b * u.Dot(w) + b * b * w.Dot(w)
  {
  }

  /** The scalar identity behind the unit length of the refracted ray. */
  lemma RefractedUnitArithmetic(eta: real, c: real, s: real)
    requires s * s == 1.0 - eta * eta * (1.0 - c * c)
    ensures var b := eta * c - s;
            eta * eta * 1.0 + 2.0 * eta * b * -c + b * b * 1.0 == 1.0
  {
  }

  /** Without total internal reflection `refraction` is the combination
      eta I + (eta cosi - sqrt k) n. */
  lemma RefractionExpanded(m: Maths, hit: RayHit, ior: real)
    requires ior != 0.0 && 0.0 <= RefractionK(hit, ior)
    ensures Refraction(m, hit, ior) ==
              hit.incident.Times(Eta(hit, ior)).Plus(RefractionInterface(hit, ior).n.Times(
                Eta(hit, ior) * RefractionInterface(hit, ior).cosi - Sqrt(m, RefractionK(hit, ior))))
  {
  }

  /** `k` spelled out. */
  lemma RefractionKFormula(hit: RayHit, ior: real)
    requires ior != 0.0
    ensures RefractionK(hit, ior) ==
              1.0 - Eta(hit, ior) * Eta(hit, ior) *
                (1.0 - RefractionInterface(hit, ior).cosi * RefractionInterface(hit, ior).cosi)
  {
  }

  /** Snell's law, length part: without total internal reflection a unit
      incident and a unit normal give a unit refracted direction. */
  lemma RefractionUnit(m: Maths, hit: RayHit, ior: real)
    requires Lawful(m) && ior != 0.0
    requires hit.normal.Dot(hit.normal) == 1.0 && hit.incident.Dot(hit.incident) == 1.0
    requires 0.0 <= RefractionK(hit, ior)
    ensures Refraction(m, hit, ior).Dot(Refraction(m, hit, ior)) == 1.0
  {
    RefractionExpanded(m, hit, ior);
    RefractedUnit(m, hit, ior);
  }

  lemma RefractedUnit(m: Maths, hit: RayHit, ior: real)
    requires Lawful(m) && ior != 0.0
    requires hit.normal.Dot(hit.normal) == 1.0 && hit.incident.Dot(hit.incident) == 1.0
    requires 0.0 <= RefractionK(hit, ior)
    ensures var v := hit.incident.Times(Eta(hit, ior)).Plus(RefractionInterface(hit, ior).n.Times(
                       Eta(hit, ior) * RefractionInterface(hit, ior).cosi - Sqrt(m, RefractionK(hit, ior))));
            v.Dot(v) == 1.0
  {
    SqrtLaw(m, RefractionK(hit, ior));
    RefractionKFormula(hit, ior);
    InterfaceOrientation(hit, ior);
    UnitCombination(hit.incident, RefractionInterface(hit, ior).n, Eta(hit, ior),
                    RefractionInterface(hit, ior).cosi, Sqrt(m, RefractionK(hit, ior)), RefractionK(hit, ior));
  }

  /** eta u + (eta c - s) n is a unit vector when u, n are unit vectors with
      u . n = -c and s^2 = 1 - eta^2 (1 - c^2). */
  lemma UnitCombination(u: Vec3, n: Vec3, eta: real, c: real, s: real, k: real)
    requires u.Dot(u) == 1.0 && n.Dot(n) == 1.0 && u.Dot(n) == -c
    requires s * s == k && k == 1.0 - eta * eta * (1.0 - c * c)
    ensures var v := u.Times(eta).Plus(n.Times(eta * c - s));
            v.Dot(v) == 1.0
  {
    DotCombination(u, n, eta, eta * c - s);
    RefractedUnitArithmetic(eta, c, s);
  }

  /** For unit vectors, `refraction` returns the zero vector exactly under
      total internal reflection. */
  lemma RefractionZeroIff(m: Maths, hit: RayHit, ior: real)
    requires Lawful(m) && ior != 0.0
    requires hit.normal.Dot(hit.normal) == 1.0 && hit.incident.Dot(hit.incident) == 1.0
    ensures Refraction(m, hit, ior) == Origin <==> RefractionK(hit, ior) < 0.0
  {
    if 0.0 <= RefractionK(hit, ior) {
      RefractionUnit(m, hit, ior);
    }
  }

  /** The tangential part of v = a I + b n is a times that of I, for unit n. */
  lemma TangentialPart(i: Vec3, n: Vec3, a: real, b: real)
    requires n.Dot(n) == 1.0
    ensures var v := i.Times(a).Plus(n.Times(b));
            v.Minus(n.Times(v.Dot(n))) == i.Minus(n.Times(i.Dot(n))).Times(a)
  {
    DotPlus(i.Times(a), n.Times(b), n);
    DotTimes(i, a, n);
    DotTimes(n, b, n);
    TangentialComponents(i, n, a, b, i.Dot(n), i.Times(a).Plus(n.Times(b)).Dot(n));
  }

  lemma TangentialComponents(i: Vec3, n: Vec3, a: real, b: real, t: real, vn: real)
    requires vn == a * t + b
    ensures i.Times(a).Plus(n.Times(b)).Minus(n.Times(vn)) == i.Minus(n.Times(t)).Times(a)
  {
  }

  /** Snell's law, direction part: without total internal reflection the
      component of the refracted direction along the surface is eta times
      that of the incident. */
  lemma RefractionSnell(m: Maths, hit: RayHit, ior: real)
    requires ior != 0.0 && hit.normal.Dot(hit.normal) == 1.0
    requires 0.0 <= RefractionK(hit, ior)
    ensures var f := RefractionInterface(hit, ior);
            var v := Refraction(m, hit, ior);
            v.Minus(f.n.Times(v.Dot(f.n))) ==
              hit.incident.Minus(f.n.Times(hit.incident.Dot(f.n))).Times(Eta(hit, ior))
  {
    RefractionExpanded(m, hit, ior);
    NormalFlipUnit(hit, ior);
    TangentialPart(hit.incident, RefractionInterface(hit, ior).n, Eta(hit, ior),
                   Eta(hit, ior) * RefractionInterface(hit, ior).cosi - Sqrt(m, RefractionK(hit, ior)));
  }

  /** The oriented normal is a unit vector when the surface normal is. */
  lemma NormalFlipUnit(hit: RayHit, ior: real)
    requires hit.normal.Dot(hit.normal) == 1.0
    ensures RefractionInterface(hit, ior).n.Dot(RefractionInterface(hit, ior).n) == 1.0
  {
    DotNeg(hit.normal, hit.normal);
  }

  // ---------------------------------------------------------------------
  // Fresnel
  // ---------------------------------------------------------------------

  /** The clamped cosine `I . N` and the indices `fresnel` works with: they
      are exchanged when the cosine is positive (the ray leaves the medium). */
  datatype Indices = Indices(cosi: real, etai: real, etat: real)

  function FresnelIndices(hit: RayHit, ior: real): (f: Indices)
    ensures -1.0 <= f.cosi <= 1.0
    ensures f.cosi > 0.0 ==> (f.etai, f.etat) == (ior, 1.0)
    ensures f.cosi <= 0.0 ==> (f.etai, f.etat) == (1.0, ior)
  {
    var cosi := Clamp(hit.incident.Dot(hit.normal), -1.0, 1.0);
    if cosi > 0.0 then Indices(cosi, ior, 1.0) else Indices(cosi, 1.0, ior)
  }

  /** `sint = etai / etat * sqrt(max(0, 1 - cosi^2))`, never negative. */
  function SinTransmitted(m: Maths, hit: RayHit, ior: real): (sint: real)
    requires Lawful(m) && 0.0 < ior
    ensures 0.0 <= sint
  {
    var f := FresnelIndices(hit, ior);
    SqrtNonNegative(m, Max(0.0, 1.0 - Sq(f.cosi)));
    NonNegativeProduct(f.etai / f.etat, Sqrt(m, Max(0.0, 1.0 - Sq(f.cosi))));
    f.etai / f.etat * Sqrt(m, Max(0.0, 1.0 - Sq(f.cosi)))
  }

  /** The squared amplitude ratio ((a - b) / (a + b))^2 of one polarisation:
      at most 1, and equal to 1 exactly when a = 0. */
  function RatioSquared(a: real, b: real): (r2: real)
    requires 0.0 <= a && 0.0 < b
    ensures 0.0 <= r2 <= 1.0
    ensures r2 == 1.0 <==> a == 0.0
  {
    RatioSquare(a, b);
    Sq((a - b) / (a + b))
  }

  lemma RatioSquare(a: real, b: real)
    requires 0.0 <= a && 0.0 < b
    ensures 0.0 <= Sq((a - b) / (a + b)) <= 1.0
    ensures Sq((a - b) / (a + b)) == 1.0 <==> a == 0.0
  {
    DivTimes(a - b, a + b);
    RatioSquareEquation(a, b, (a - b) / (a + b));
    SquareNonNegative((a - b) / (a + b));
    SquareRatioBound(Sq((a - b) / (a + b)), a, b);
  }

  lemma RatioSquareEquation(a: real, b: real, r: real)
    requires r * (a + b) == a - b
    ensures Sq(r) * Sq(a + b) == Sq(a + b) - 4.0 * a * b
  {
    SquaredProduct(r, a + b, a - b);
    SquareDifference(a, b);
  }

  lemma SquareDifference(a: real, b: real)
    ensures Sq(a + b) - Sq(a - b) == 4.0 * a * b
  {
  }

  lemma SquaredProduct(r: real, s: real, d: real)
    requires r * s == d
    ensures Sq(r) * Sq(s) == Sq(d)
  {
    assert r * r * (s * s) == (r * s) * (r * s);
  }

  lemma PositiveSquare(s: real)
    requires 0.0 < s
    ensures 0.0 < Sq(s)
  {
    NonNegativeProduct(s, s);
    if Sq(s) == 0.0 {
      ZeroProduct(s, s);
    }
  }

  /** From x (a + b)^2 = (a + b)^2 - 4 a b with a >= 0 and b > 0: x <= 1,
      and x = 1 exactly when a = 0. */
  lemma SquareRatioBound(x: real, a: real, b: real)
    requires 0.0 <= a && 0.0 < b
    requires x * Sq(a + b) == Sq(a + b) - 4.0 * a * b
    ensures x <= 1.0 && (x == 1.0 <==> a == 0.0)
  {
    NonNegativeProduct(4.0 * a, b);
    PositiveSquare(a + b);
    OneMinusBound(x, Sq(a + b), 4.0 * a * b);
    if 4.0 * a * b == 0.0 {
      ZeroProduct(4.0 * a, b);
    }
  }

  lemma OneMinusBound(x: real, q: real, e: real)
    requires 0.0 < q && 0.0 <= e && x * q == q - e
    ensures x <= 1.0 && (x == 1.0 <==> e == 0.0)
  {
    assert (1.0 - x) * q == e;
    if e == 0.0 {
      ZeroProduct(1.0 - x, q);
    }
  }

  /** The Fresnel reflectance (Rs^2 + Rp^2) / 2 of unpolarised light, with
      Rs = (etat cosi - etai cost) / (etat cosi + etai cost) and
      Rp = (etai cosi - etat cost) / (etai cosi + etat cost). It lies in
      [0, 1] and is 1 exactly at grazing incidence. */
  function Reflectance(etai: real, etat: real, cosi: real, cost: real): (kr: real)
    requires 0.0 < etai && 0.0 < etat && 0.0 <= cosi && 0.0 < cost
    ensures 0.0 <= kr <= 1.0
    ensures kr == 1.0 <==> cosi == 0.0
  {
    NonNegativeProduct(etat, cosi);
    NonNegativeProduct(etai, cosi);
    PositiveProduct(etai, cost);
    PositiveProduct(etat, cost);
    ScaledZero(etat, cosi);
    ScaledZero(etai, cosi);
    (RatioSquared(etat * cosi, etai * cost) + RatioSquared(etai * cosi, etat * cost)) / 2.0
  }

  lemma ScaledZero(a: real, x: real)
    requires 0.0 < a
    ensures a * x == 0.0 <==> x == 0.0
  {
    if a * x == 0.0 {
      ZeroProduct(a, x);
    }
  }

  lemma PositiveProduct(a: real, b: real)
    requires 0.0 < a && 0.0 < b
    ensures 0.0 < a * b
  {
  }

  /** `fresnel`: 1 under total internal reflection (sint >= 1), otherwise the
      reflectance. The result lies in [0, 1], and is 1 exactly under total
      internal reflection or at grazing incidence (cosi = 0). */
  function Fresnel(m: Maths, hit: RayHit, ior: real): (kr: real)
    requires Lawful(m) && 0.0 < ior
    ensures 0.0 <= kr <= 1.0
    ensures kr == 1.0 <==> (1.0 <= SinTransmitted(m, hit, ior) || FresnelIndices(hit, ior).cosi == 0.0)
  {
    var f := FresnelIndices(hit, ior);
    var sint := SinTransmitted(m, hit, ior);
    if sint >= 1.0 then 1.0
    else
      SquareAtMostOne(sint);
      SqrtPositive(m, Max(0.0, 1.0 - sint * sint));
      var cost := Sqrt(m, Max(0.0, 1.0 - sint * sint));
      Reflectance(f.etai, f.etat, Abs(f.cosi), cost)
  }

  /** sint^2 = (etai / etat)^2 (1 - cosi^2) under a lawful square root. */
  lemma SinTransmittedSquare(m: Maths, hit: RayHit, ior: real)
    requires Lawful(m) && 0.0 < ior
    ensures Sq(SinTransmitted(m, hit, ior)) ==
              Sq(FresnelIndices(hit, ior).etai / FresnelIndices(hit, ior).etat) *
              (1.0 - Sq(FresnelIndices(hit, ior).cosi))
  {
    SquareAtMostOne(FresnelIndices(hit, ior).cosi);
    assert Max(0.0, 1.0 - Sq(FresnelIndices(hit, ior).cosi)) == 1.0 - Sq(FresnelIndices(hit, ior).cosi);
    SqrtLaw(m, 1.0 - Sq(FresnelIndices(hit, ior).cosi));
    ScaledRootSquare(FresnelIndices(hit, ior).etai / FresnelIndices(hit, ior).etat,
                     Sqrt(m, 1.0 - Sq(FresnelIndices(hit, ior).cosi)),
                     1.0 - Sq(FresnelIndices(hit, ior).cosi));
  }

  lemma ScaledRootSquare(e: real, s: real, x: real)
    requires s * s == x
    ensures Sq(e * s) == Sq(e) * x
  {
    assert (e * s) * (e * s) == e * e * (s * s);
  }

  /** `fresnel` and `refraction` agree on total internal reflection: whenever
      `castRay` casts a refracted ray (kr < 1), `refraction` is not in its
      total-internal-reflection branch. */
  lemma FresnelRefractionAgree(m: Maths, hit: RayHit, ior: real)
    requires Lawful(m) && 0.0 < ior
    requires Fresnel(m, hit, ior) < 1.0
    ensures 0.0 < RefractionK(hit, ior)
  {
    SinTransmittedSquare(m, hit, ior);
    SquareBelowOne(SinTransmitted(m, hit, ior));
    SameInterface(hit, ior);
    RefractionKSquares(hit, ior);
  }

  lemma SquareBelowOne(x: real)
    requires 0.0 <= x < 1.0
    ensures Sq(x) < 1.0
  {
    SquareAtMostOne(x);
  }

  /** Away from grazing incidence both routines see the same squared cosine
      and the same ratio of indices. */
  lemma SameInterface(hit: RayHit, ior: real)
    requires 0.0 < ior && FresnelIndices(hit, ior).cosi != 0.0
    ensures Sq(RefractionInterface(hit, ior).cosi) == Sq(FresnelIndices(hit, ior).cosi)
    ensures Eta(hit, ior) == FresnelIndices(hit, ior).etai / FresnelIndices(hit, ior).etat
  {
    DotSymmetric(hit.incident, hit.normal);
  }

  lemma RefractionKSquares(hit: RayHit, ior: real)
    requires ior != 0.0
    ensures RefractionK(hit, ior) == 1.0 - Sq(Eta(hit, ior)) * (1.0 - Sq(RefractionInterface(hit, ior).cosi))
  {
  }
}
