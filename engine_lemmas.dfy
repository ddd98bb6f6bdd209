/** Properties of the shading algorithm in engine.dfy: which hit `castRay`
    shades, what the depth cut-off and the fuel budget mean, how `diffusion`
    depends on the lights and on the shadowing entities, and what `Phong`
    returns when every light is blocked. */
module EngineLemmas {
  import opened Values
  import opened Shading
  import opened Engine

  // ---------------------------------------------------------------------
  // castRay
  // ---------------------------------------------------------------------

  /** Beyond `MAXDEPTH` a cast is black, whatever the scene. */
  lemma DepthCutoff(m: Maths, w: World, fuel: nat, ray: Ray, depth: int)
    requires Lawful(m) && WellFormed(w) && depth > MaxDepth
    ensures Cast(m, w, fuel, ray, depth) == Shaded(Black)
  {
  }

  /** Every colour `castRay` returns has non-negative channels, and a
      non-negative colour found by the scan is returned unchanged. */
  lemma CastNonNegative(m: Maths, w: World, fuel: nat, ray: Ray, depth: int)
    requires Lawful(m) && WellFormed(w)
    requires Cast(m, w, fuel, ray, depth).Shaded?
    ensures var c := Cast(m, w, fuel, ray, depth).color;
            0.0 <= c.r && 0.0 <= c.g && 0.0 <= c.b
  {
  }

  /** Entity `j` is one the scan from `i` (starting with `tnear`) shades on
      its way: a candidate strictly nearer than every candidate before it, so
      it still passes the test against the running `tnear`. */
  predicate ShadedOnTheWay(m: Maths, es: seq<Entity>, ray: Ray, i: nat, tnear: real, j: nat)
    requires j < |es|
  {
    && Candidate(m, es[j], ray, tnear)
    && forall l :: i <= l < j && Candidate(m, es[l], ray, tnear) ==>
         HitDistance(m, es[j], ray) < HitDistance(m, es[l], ray)
  }

  /** No entity the scan shades before reaching `k` is refractive, so no
      `break` ends the scan early. A refractive entity that the running
      `tnear` already rules out does not matter. */
  predicate NoRefractiveBefore(m: Maths, es: seq<Entity>, ray: Ray, i: nat, tnear: real, k: nat)
    requires k <= |es|
  {
    forall j :: i <= j < k && ShadedOnTheWay(m, es, ray, i, tnear, j) ==> EntityMaterial(es[j]).kind != Refractive
  }

  /** Entity `k` is the hit `castRay` keeps among the entities from `i` on:
      it passes the distance test against `tnear`, no candidate is nearer to
      the world origin, and every candidate before it is strictly farther
      (the first of equally near hits wins, since the test is strict). */
  predicate NearestFrom(m: Maths, es: seq<Entity>, ray: Ray, i: nat, tnear: real, k: nat) {
    && i <= k < |es|
    && Candidate(m, es[k], ray, tnear)
    && (forall j :: i <= j < |es| && Candidate(m, es[j], ray, tnear) ==>
          HitDistance(m, es[k], ray) <= HitDistance(m, es[j], ray))
    && (forall j :: i <= j < k && Candidate(m, es[j], ray, tnear) ==>
          HitDistance(m, es[k], ray) < HitDistance(m, es[j], ray))
  }

  /** With no candidate left, the scan returns the colour it has. */
  lemma {:induction false} ScanNoCandidate(m: Maths, w: World, fuel: nat, ray: Ray, depth: int, i: nat,
                                           tnear: real, acc: Color)
    requires Lawful(m) && WellFormed(w) && i <= |w.entities|
    requires forall j :: i <= j < |w.entities| ==> !Candidate(m, w.entities[j], ray, tnear)
    ensures Scan(m, w, fuel, ray, depth, i, tnear, acc) == Shaded(acc)
    decreases |w.entities| - i
  {
    if i < |w.entities| {
      ScanNoCandidate(m, w, fuel, ray, depth, i + 1, tnear, acc);
    }
  }

  /** When no refractive entity is shaded before the nearest hit, the scan's
      colour is the shade of the nearest hit (which may itself be refractive). */
  lemma {:induction false} ScanNearest(m: Maths, w: World, fuel: nat, ray: Ray, depth: int, i: nat,
                                       tnear: real, acc: Color, k: nat)
    requires Lawful(m) && WellFormed(w)
    requires NearestFrom(m, w.entities, ray, i, tnear, k)
    requires NoRefractiveBefore(m, w.entities, ray, i, tnear, k)
    requires Scan(m, w, fuel, ray, depth, i, tnear, acc).Shaded?
    ensures Scan(m, w, fuel, ray, depth, i, tnear, acc) ==
              Shade(m, w, fuel, w.entities[k], Hit(m, w.entities[k], ray).value, depth)
    decreases k - i
  {
    var es := w.entities;
    var near := HitDistance(m, es[k], ray);
    if i == k {
      var c := Shade(m, w, fuel, es[k], Hit(m, es[k], ray).value, depth).color;
      if EntityMaterial(es[k]).kind != Refractive {
        forall j | k < j < |es|
          ensures !Candidate(m, es[j], ray, near)
        {
        }
        ScanNoCandidate(m, w, fuel, ray, depth, k + 1, near, c);
      }
    } else if Candidate(m, es[i], ray, tnear) {
      var c := Shade(m, w, fuel, es[i], Hit(m, es[i], ray).value, depth).color;
      var near' := HitDistance(m, es[i], ray);
      assert NearestFrom(m, es, ray, i + 1, near', k);
      forall j | i + 1 <= j < k && ShadedOnTheWay(m, es, ray, i + 1, near', j)
        ensures ShadedOnTheWay(m, es, ray, i, tnear, j)
      {
        forall l | i <= l < j && Candidate(m, es[l], ray, tnear)
          ensures HitDistance(m, es[j], ray) < HitDistance(m, es[l], ray)
        {
          if l > i && HitDistance(m, es[l], ray) < near' {
            assert Candidate(m, es[l], ray, near');
          }
        }
      }
      assert NoRefractiveBefore(m, es, ray, i + 1, near', k);
      ScanNearest(m, w, fuel, ray, depth, i + 1, near', c, k);
    } else {
      assert NearestFrom(m, es, ray, i + 1, tnear, k);
      forall j | i + 1 <= j < k && ShadedOnTheWay(m, es, ray, i + 1, tnear, j)
        ensures ShadedOnTheWay(m, es, ray, i, tnear, j)
      {
      }
      ScanNearest(m, w, fuel, ray, depth, i + 1, tnear, acc, k);
    }
  }

  /** `castRay` when no refractive entity is shaded before the nearest hit:
      the colour is the clamped shade of the hit nearest to the world origin. */
  lemma CastNearest(m: Maths, w: World, fuel: nat, ray: Ray, depth: int, k: nat)
    requires Lawful(m) && WellFormed(w)
    requires depth <= MaxDepth && 0 < fuel
    requires NearestFrom(m, w.entities, ray, 0, Infinity, k)
    requires NoRefractiveBefore(m, w.entities, ray, 0, Infinity, k)
    requires Cast(m, w, fuel, ray, depth).Shaded?
    ensures Shade(m, w, fuel - 1, w.entities[k], Hit(m, w.entities[k], ray).value, depth).Shaded?
    ensures Cast(m, w, fuel, ray, depth) ==
              Shaded(ClampColor(Shade(m, w, fuel - 1, w.entities[k], Hit(m, w.entities[k], ray).value, depth).color))
  {
    ScanNearest(m, w, fuel - 1, ray, depth, 0, Infinity, Black, k);
  }

  /** A ray that hits nothing at a positive distance below `INFINITY` is black. */
  lemma CastMiss(m: Maths, w: World, fuel: nat, ray: Ray, depth: int)
    requires Lawful(m) && WellFormed(w) && 0 < fuel
    requires forall j :: 0 <= j < |w.entities| ==> !Candidate(m, w.entities[j], ray, Infinity)
    ensures Cast(m, w, fuel, ray, depth) == Shaded(Black)
  {
    ScanNoCandidate(m, w, fuel - 1, ray, depth, 0, Infinity, Black);
  }

  /** A refractive candidate ends the scan: the entities after it are never
      looked at, even when one of them is nearer. */
  lemma RefractiveEndsScan(m: Maths, w: World, fuel: nat, ray: Ray, depth: int, i: nat, tnear: real,
                           acc: Color)
    requires Lawful(m) && WellFormed(w) && i < |w.entities|
    requires EntityMaterial(w.entities[i]).kind == Refractive
    requires Candidate(m, w.entities[i], ray, tnear)
    ensures Scan(m, w, fuel, ray, depth, i, tnear, acc) ==
              Shade(m, w, fuel, w.entities[i], Hit(m, w.entities[i], ray).value, depth)
  {
  }

  // ---------------------------------------------------------------------
  // The fuel budget
  // ---------------------------------------------------------------------

  /** More fuel never changes a colour: a cast that finishes within `fuel`
      finishes with the same colour within any larger budget. */
  lemma {:induction false} CastFuel(m: Maths, w: World, fuel: nat, more: nat, ray: Ray, depth: int)
    requires Lawful(m) && WellFormed(w) && fuel <= more
    requires Cast(m, w, fuel, ray, depth).Shaded?
    ensures Cast(m, w, more, ray, depth) == Cast(m, w, fuel, ray, depth)
    decreases fuel, 0, 0
  {
    if depth <= MaxDepth {
      ScanFuel(m, w, fuel - 1, more - 1, ray, depth, 0, Infinity, Black);
    }
  }

  lemma {:induction false} ScanFuel(m: Maths, w: World, fuel: nat, more: nat, ray: Ray, depth: int, i: nat,
                                    tnear: real, acc: Color)
    requires Lawful(m) && WellFormed(w) && fuel <= more && i <= |w.entities|
    requires Scan(m, w, fuel, ray, depth, i, tnear, acc).Shaded?
    ensures Scan(m, w, more, ray, depth, i, tnear, acc) == Scan(m, w, fuel, ray, depth, i, tnear, acc)
    decreases fuel, 2, |w.entities| - i
  {
    if i < |w.entities| {
      var e := w.entities[i];
      if Candidate(m, e, ray, tnear) {
        ShadeFuel(m, w, fuel, more, e, Hit(m, e, ray).value, depth);
        if EntityMaterial(e).kind != Refractive {
          var c := Shade(m, w, fuel, e, Hit(m, e, ray).value, depth).color;
          ScanFuel(m, w, fuel, more, ray, depth, i + 1, HitDistance(m, e, ray), c);
        }
      } else {
        ScanFuel(m, w, fuel, more, ray, depth, i + 1, tnear, acc);
      }
    }
  }

  lemma {:induction false} ShadeFuel(m: Maths, w: World, fuel: nat, more: nat, e: Entity, hit: RayHit,
                                     depth: int)
    requires Lawful(m) && WellFormed(w) && Admissible(e) && fuel <= more
    requires Shade(m, w, fuel, e, hit, depth).Shaded?
    ensures Shade(m, w, more, e, hit, depth) == Shade(m, w, fuel, e, hit, depth)
    decreases fuel, 1, 1
  {
    match EntityMaterial(e).kind
    case Refractive => RefractiveFuel(m, w, fuel, more, e, hit, depth);
    case Glossy => PhongFuel(m, w, fuel, more, e, hit, 0, depth, 0.0, Black);
    case Reflective => CastFuel(m, w, fuel, more, ReflectionRay(hit), depth + 1);
    case Diffuse =>
    case Unrecognised =>
  }

  lemma {:induction false} RefractiveFuel(m: Maths, w: World, fuel: nat, more: nat, e: Entity, hit: RayHit,
                                          depth: int)
    requires Lawful(m) && WellFormed(w) && Admissible(e) && EntityMaterial(e).kind == Refractive
    requires fuel <= more
    requires RefractiveShade(m, w, fuel, e, hit, depth).Shaded?
    ensures RefractiveShade(m, w, more, e, hit, depth) == RefractiveShade(m, w, fuel, e, hit, depth)
    decreases fuel, 1, 0
  {
    RefractiveMixFuel(m, w, fuel, more, e, hit, depth, Fresnel(m, hit, EntityMaterial(e).refractiveIndex));
  }

  lemma {:induction false} RefractiveMixFuel(m: Maths, w: World, fuel: nat, more: nat, e: Entity, hit: RayHit,
                                             depth: int, kr: real)
    requires Lawful(m) && WellFormed(w) && Admissible(e) && EntityMaterial(e).kind == Refractive
    requires fuel <= more
    requires RefractiveMix(m, w, fuel, e, hit, depth, kr).Shaded?
    ensures RefractiveMix(m, w, more, e, hit, depth, kr) == RefractiveMix(m, w, fuel, e, hit, depth, kr)
    decreases fuel, 0, 2
  {
    RefractedColorFuel(m, w, fuel, more, e, hit, depth, kr);
    CastFuel(m, w, fuel, more, ReflectedRay(m, hit), depth + 1);
  }

  lemma {:induction false} RefractedColorFuel(m: Maths, w: World, fuel: nat, more: nat, e: Entity, hit: RayHit,
                                              depth: int, kr: real)
    requires Lawful(m) && WellFormed(w) && Admissible(e) && EntityMaterial(e).kind == Refractive
    requires fuel <= more
    requires RefractedColor(m, w, fuel, e, hit, depth, kr).Shaded?
    ensures RefractedColor(m, w, more, e, hit, depth, kr) == RefractedColor(m, w, fuel, e, hit, depth, kr)
    decreases fuel, 0, 1
  {
    if kr < 1.0 {
      CastFuel(m, w, fuel, more, RefractedRay(m, hit, EntityMaterial(e).refractiveIndex), depth + 1);
    }
  }

  lemma {:induction false} PhongFuel(m: Maths, w: World, fuel: nat, more: nat, e: Entity, hit: RayHit, j: nat,
                                     d: int, specVec: real, specular: Color)
    requires Lawful(m) && WellFormed(w) && fuel <= more && j <= |w.lights|
    requires PhongLoop(m, w, fuel, e, hit, j, d, specVec, specular).Shaded?
    ensures PhongLoop(m, w, more, e, hit, j, d, specVec, specular) == PhongLoop(m, w, fuel, e, hit, j, d, specVec, specular)
    decreases fuel, 0, |w.lights| - j + 1
  {
    if j < |w.lights| {
      if InShadow(m, w.entities, e, hit, w.lights[j]) {
        PhongFuel(m, w, fuel, more, e, hit, j + 1, d, specVec, specular);
      } else {
        CastFuel(m, w, fuel, more, ReflectionRay(hit), d);
        var c := Cast(m, w, fuel, ReflectionRay(hit), d).color;
        PhongFuel(m, w, fuel, more, e, hit, j + 1, d + 1, specVec + Highlight(hit), specular.Plus(c));
      }
    }
  }

  predicate NoGlossy(w: World) {
    forall k :: 0 <= k < |w.entities| ==> EntityMaterial(w.entities[k]).kind != Glossy
  }

  /** Without glossy entities every secondary ray is cast one level deeper,
      so `MAXDEPTH` bounds the recursion: `MaxDepth + 2 - depth` nested scans
      always suffice. */
  lemma {:induction false} CastEnoughFuel(m: Maths, w: World, fuel: nat, ray: Ray, depth: int)
    requires Lawful(m) && WellFormed(w) && NoGlossy(w)
    requires MaxDepth + 2 - depth <= fuel
    ensures Cast(m, w, fuel, ray, depth).Shaded?
    decreases fuel, 0, 0
  {
    if depth <= MaxDepth {
      ScanEnoughFuel(m, w, fuel - 1, ray, depth, 0, Infinity, Black);
    }
  }

  lemma {:induction false} ScanEnoughFuel(m: Maths, w: World, fuel: nat, ray: Ray, depth: int, i: nat,
                                          tnear: real, acc: Color)
    requires Lawful(m) && WellFormed(w) && NoGlossy(w) && i <= |w.entities|
    requires MaxDepth + 1 - depth <= fuel
    ensures Scan(m, w, fuel, ray, depth, i, tnear, acc).Shaded?
    decreases fuel, 2, |w.entities| - i
  {
    if i < |w.entities| {
      var e := w.entities[i];
      if Candidate(m, e, ray, tnear) {
        ShadeEnoughFuel(m, w, fuel, e, Hit(m, e, ray).value, depth);
        var c := Shade(m, w, fuel, e, Hit(m, e, ray).value, depth).color;
        ScanEnoughFuel(m, w, fuel, ray, depth, i + 1, HitDistance(m, e, ray), c);
      } else {
        ScanEnoughFuel(m, w, fuel, ray, depth, i + 1, tnear, acc);
      }
    }
  }

  lemma {:induction false} ShadeEnoughFuel(m: Maths, w: World, fuel: nat, e: Entity, hit: RayHit, depth: int)
    requires Lawful(m) && WellFormed(w) && NoGlossy(w) && Admissible(e)
    requires EntityMaterial(e).kind != Glossy
    requires MaxDepth + 1 - depth <= fuel
    ensures Shade(m, w, fuel, e, hit, depth).Shaded?
    decreases fuel, 1, 1
  {
    match EntityMaterial(e).kind
    case Refractive => RefractiveEnoughFuel(m, w, fuel, e, hit, depth);
    case Reflective => CastEnoughFuel(m, w, fuel, ReflectionRay(hit), depth + 1);
    case Diffuse =>
    case Unrecognised =>
  }

  lemma {:induction false} RefractiveEnoughFuel(m: Maths, w: World, fuel: nat, e: Entity, hit: RayHit, depth: int)
    requires Lawful(m) && WellFormed(w) && NoGlossy(w) && Admissible(e)
    requires EntityMaterial(e).kind == Refractive
    requires MaxDepth + 1 - depth <= fuel
    ensures RefractiveShade(m, w, fuel, e, hit, depth).Shaded?
    decreases fuel, 1, 0
  {
    RefractiveMixEnoughFuel(m, w, fuel, e, hit, depth, Fresnel(m, hit, EntityMaterial(e).refractiveIndex));
  }

  lemma {:induction false} RefractiveMixEnoughFuel(m: Maths, w: World, fuel: nat, e: Entity, hit: RayHit,
                                                   depth: int, kr: real)
    requires Lawful(m) && WellFormed(w) && NoGlossy(w) && Admissible(e)
    requires EntityMaterial(e).kind == Refractive
    requires MaxDepth + 1 - depth <= fuel
    ensures RefractiveMix(m, w, fuel, e, hit, depth, kr).Shaded?
    decreases fuel, 0, 2
  {
    if kr < 1.0 {
      CastEnoughFuel(m, w, fuel, RefractedRay(m, hit, EntityMaterial(e).refractiveIndex), depth + 1);
    }
    CastEnoughFuel(m, w, fuel, ReflectedRay(m, hit), depth + 1);
  }

  // ---------------------------------------------------------------------
  // diffusion
  // ---------------------------------------------------------------------

  /** Lights that each add black add up to black. */
  lemma {:induction false} LightSumBlack(f: PointLight -> Color, lights: seq<PointLight>)
    requires forall j :: 0 <= j < |lights| ==> f(lights[j]) == Black
    ensures LightSum(f, lights) == Black
    decreases |lights|
  {
    if lights != [] {
      LightSumBlack(f, lights[..|lights| - 1]);
    }
  }

  /** The sum over `a + b` is the sum over `a` plus the sum over `b`. */
  lemma {:induction false} LightSumAppend(f: PointLight -> Color, a: seq<PointLight>, b: seq<PointLight>)
    ensures LightSum(f, a + b) == LightSum(f, a).Plus(LightSum(f, b))
    decreases |b|
  {
    if b == [] {
      assert a + b == a;
    } else {
      var b' := b[..|b| - 1];
      assert (a + b)[..|a + b| - 1] == a + b';
      assert (a + b)[|a + b| - 1] == b[|b| - 1];
      LightSumAppend(f, a, b');
    }
  }

  /** Taking light `i` out of the sum takes away exactly its colour. */
  lemma LightSumRemove(f: PointLight -> Color, lights: seq<PointLight>, i: nat)
    requires i < |lights|
    ensures LightSum(f, lights) == LightSum(f, lights[..i] + lights[i + 1..]).Plus(f(lights[i]))
  {
    SplitAround(lights, i);
    LightSumSplit(f, lights[..i], lights[i], lights[i + 1..]);
  }

  lemma SplitAround<T>(s: seq<T>, i: nat)
    requires i < |s|
    ensures (s[..i] + [s[i]]) + s[i + 1..] == s
  {
    assert (s[..i] + [s[i]]) + s[i + 1..] == s;
  }

  /** The same, with the sequence given by its three parts. */
  lemma LightSumSplit(f: PointLight -> Color, before: seq<PointLight>, x: PointLight, after: seq<PointLight>)
    ensures LightSum(f, (before + [x]) + after) == LightSum(f, before + after).Plus(f(x))
  {
    LightSumAppend(f, before + [x], after);
    LightSumAppend(f, before, [x]);
    LightSumAppend(f, before, after);
    LightSumSingle(f, x);
    PlusSwap(LightSum(f, before), LightSum(f, after), f(x));
  }

  /** The sum over one light is that light's colour. */
  lemma LightSumSingle(f: PointLight -> Color, x: PointLight)
    ensures LightSum(f, [x]) == f(x)
  {
    assert [x][..0] == [];
  }

  lemma PlusSwap(a: Color, b: Color, c: Color)
    ensures a.Plus(c).Plus(b) == a.Plus(b).Plus(c)
  {
  }

  /** Removing one occurrence of `lights[i]` removes it from the multiset. */
  lemma MultisetRemove(lights: seq<PointLight>, i: nat)
    requires i < |lights|
    ensures multiset(lights[..i] + lights[i + 1..]) == multiset(lights) - multiset{lights[i]}
  {
    assert lights == lights[..i] + [lights[i]] + lights[i + 1..];
  }

  /** The sum does not depend on the order of the lights. */
  lemma {:induction false} LightSumReorder(f: PointLight -> Color, lights: seq<PointLight>, reordered: seq<PointLight>)
    requires multiset(lights) == multiset(reordered)
    ensures LightSum(f, lights) == LightSum(f, reordered)
    decreases |lights|
  {
    if lights == [] {
      assert |reordered| == |multiset(reordered)| == 0;
    } else {
      var n := |lights| - 1;
      assert lights[n] in multiset(reordered);
      var i :| 0 <= i < |reordered| && reordered[i] == lights[n];
      MultisetRemove(lights, n);
      MultisetRemove(reordered, i);
      assert lights[..n] + lights[n + 1..] == lights[..n];
      LightSumReorder(f, lights[..n], reordered[..i] + reordered[i + 1..]);
      LightSumRemove(f, reordered, i);
    }
  }

  /** Two colourings that agree on every light give the same sum. */
  lemma {:induction false} LightSumPointwise(f: PointLight -> Color, g: PointLight -> Color, lights: seq<PointLight>)
    requires forall j :: 0 <= j < |lights| ==> f(lights[j]) == g(lights[j])
    ensures LightSum(f, lights) == LightSum(g, lights)
    decreases |lights|
  {
    if lights != [] {
      LightSumPointwise(f, g, lights[..|lights| - 1]);
    }
  }

  /** A point every light is blocked from is black. */
  lemma DiffuseAllShadowed(m: Maths, es: seq<Entity>, e: Entity, hit: RayHit, lights: seq<PointLight>)
    requires forall j :: 0 <= j < |lights| ==> InShadow(m, es, e, hit, lights[j])
    ensures DiffuseColor(m, es, e, hit, lights) == Black
  {
    LightSumBlack(light => Contribution(m, es, e, hit, light), lights);
  }

  /** `diffusion` is additive over the lights: the colour for `a + b` is the
      colour for `a` plus the colour for `b`. */
  lemma DiffuseAppend(m: Maths, es: seq<Entity>, e: Entity, hit: RayHit, a: seq<PointLight>, b: seq<PointLight>)
    ensures DiffuseColor(m, es, e, hit, a + b) ==
              DiffuseColor(m, es, e, hit, a).Plus(DiffuseColor(m, es, e, hit, b))
  {
    LightSumAppend(light => Contribution(m, es, e, hit, light), a, b);
  }

  /** The order in which the lights are visited does not matter: `diffusion`
      depends only on the multiset of lights. */
  lemma DiffuseLightOrder(m: Maths, es: seq<Entity>, e: Entity, hit: RayHit, lights: seq<PointLight>,
                          reordered: seq<PointLight>)
    requires multiset(lights) == multiset(reordered)
    ensures DiffuseColor(m, es, e, hit, lights) == DiffuseColor(m, es, e, hit, reordered)
  {
    LightSumReorder(light => Contribution(m, es, e, hit, light), lights, reordered);
  }

  /** The shadow test depends only on which entities the scene holds, not on
      their order or repetition. */
  lemma ShadowEntityOrder(m: Maths, es: seq<Entity>, reordered: seq<Entity>, e: Entity, hit: RayHit,
                          light: PointLight)
    requires forall x :: x in es <==> x in reordered
    ensures InShadow(m, es, e, hit, light) == InShadow(m, reordered, e, hit, light)
  {
    if InShadow(m, es, e, hit, light) {
      var k :| 0 <= k < |es| && Blocks(m, es[k], e, hit, light);
      assert es[k] in reordered;
      var k' :| 0 <= k' < |reordered| && reordered[k'] == es[k];
    }
    if InShadow(m, reordered, e, hit, light) {
      var k :| 0 <= k < |reordered| && Blocks(m, reordered[k], e, hit, light);
      assert reordered[k] in es;
      var k' :| 0 <= k' < |es| && es[k'] == reordered[k];
    }
  }

  /** Hence `diffusion` does not depend on the order of the entities either. */
  lemma DiffuseEntityOrder(m: Maths, es: seq<Entity>, reordered: seq<Entity>, e: Entity, hit: RayHit,
                           lights: seq<PointLight>)
    requires forall x :: x in es <==> x in reordered
    ensures DiffuseColor(m, es, e, hit, lights) == DiffuseColor(m, reordered, e, hit, lights)
  {
    forall j | 0 <= j < |lights|
      ensures Contribution(m, es, e, hit, lights[j]) == Contribution(m, reordered, e, hit, lights[j])
    {
      ShadowEntityOrder(m, es, reordered, e, hit, lights[j]);
    }
    LightSumPointwise(light => Contribution(m, es, e, hit, light),
                      light => Contribution(m, reordered, e, hit, light), lights);
  }

  /** The shaded entity never shadows itself: alone in the scene, it is lit
      by every light. */
  lemma AloneUnshadowed(m: Maths, e: Entity, hit: RayHit, lights: seq<PointLight>)
    ensures DiffuseColor(m, [e], e, hit, lights) == DiffuseColor(m, [], e, hit, lights)
  {
    LightSumPointwise(light => Contribution(m, [e], e, hit, light),
                      light => Contribution(m, [], e, hit, light), lights);
  }

  // ---------------------------------------------------------------------
  // Phong
  // ---------------------------------------------------------------------

  /** One step of the `Phong` loop at a shadowed light: nothing changes. */
  lemma PhongShadowedStep(m: Maths, w: World, fuel: nat, e: Entity, hit: RayHit, j: nat, d: int, specVec: real,
                          specular: Color)
    requires Lawful(m) && WellFormed(w) && j < |w.lights|
    requires InShadow(m, w.entities, e, hit, w.lights[j])
    ensures PhongLoop(m, w, fuel, e, hit, j, d, specVec, specular) ==
              PhongLoop(m, w, fuel, e, hit, j + 1, d, specVec, specular)
  {
  }

  /** One step of the `Phong` loop at an unshadowed light whose mirror ray,
      cast at the current depth `d`, gives `c`: the loop goes on with the
      depth one higher, the highlight added to `specVec` and `c` added to
      `specular`. The primed parameters name the new state, so that a caller
      that has already updated its variables can use the lemma as it is. */
  lemma PhongLitStep(m: Maths, w: World, fuel: nat, e: Entity, hit: RayHit, j: nat, d: int, specVec: real,
                     specular: Color, c: Color, d': int, specVec': real, specular': Color)
    requires Lawful(m) && WellFormed(w) && j < |w.lights|
    requires !InShadow(m, w.entities, e, hit, w.lights[j])
    requires Cast(m, w, fuel, ReflectionRay(hit), d) == Shaded(c)
    requires d' == d + 1 && specVec' == specVec + Highlight(hit) && specular' == specular.Plus(c)
    ensures PhongLoop(m, w, fuel, e, hit, j, d, specVec, specular) ==
              PhongLoop(m, w, fuel, e, hit, j + 1, d', specVec', specular')
  {
  }

  /** The `Phong` loop runs out of fuel when a mirror ray does. */
  lemma PhongLitOutOfFuel(m: Maths, w: World, fuel: nat, e: Entity, hit: RayHit, j: nat, d: int, specVec: real,
                          specular: Color)
    requires Lawful(m) && WellFormed(w) && j < |w.lights|
    requires !InShadow(m, w.entities, e, hit, w.lights[j])
    requires Cast(m, w, fuel, ReflectionRay(hit), d) == OutOfFuel
    ensures PhongLoop(m, w, fuel, e, hit, j, d, specVec, specular) == OutOfFuel
  {
  }

  lemma {:induction false} PhongLoopAllShadowed(m: Maths, w: World, fuel: nat, e: Entity, hit: RayHit, j: nat,
                                                d: int, specVec: real, specular: Color)
    requires Lawful(m) && WellFormed(w) && j <= |w.lights|
    requires forall k :: j <= k < |w.lights| ==> InShadow(m, w.entities, e, hit, w.lights[k])
    ensures PhongLoop(m, w, fuel, e, hit, j, d, specVec, specular) ==
              Shaded(PhongMix(DiffuseColor(m, w.entities, e, hit, w.lights), specular.Offset(specVec)))
    decreases |w.lights| - j
  {
    if j < |w.lights| {
      PhongLoopAllShadowed(m, w, fuel, e, hit, j + 1, d, specVec, specular);
    }
  }

  /** A glossy point every light is blocked from is black: no highlight, no
      mirror ray, no diffuse term. */
  lemma PhongAllShadowed(m: Maths, w: World, fuel: nat, e: Entity, hit: RayHit, depth: int)
    requires Lawful(m) && WellFormed(w)
    requires forall k :: 0 <= k < |w.lights| ==> InShadow(m, w.entities, e, hit, w.lights[k])
    ensures PhongColor(m, w, fuel, e, hit, depth) == Shaded(Black)
  {
    PhongLoopAllShadowed(m, w, fuel, e, hit, 0, depth, 0.0, Black);
    DiffuseAllShadowed(m, w.entities, e, hit, w.lights);
    var diffuse := DiffuseColor(m, w.entities, e, hit, w.lights);
    assert Black.Offset(0.0) == Black;
    calc {
      PhongColor(m, w, fuel, e, hit, depth);
      PhongLoop(m, w, fuel, e, hit, 0, depth, 0.0, Black);
      Shaded(PhongMix(diffuse, Black.Offset(0.0)));
      { assert diffuse == Black; }
      Shaded(PhongMix(Black, Black));
      { assert Black.Scaled(Kd) == Black && Black.Scaled(Ks) == Black; }
      Shaded(Black);
    }
  }

  /** The mirror ray of the first unshadowed light, `lights[j]` after `j`
      shadowed ones, is cast at the caller's own depth and with the caller's
      own fuel: `Phong` finishes only if that cast does. */
  lemma PhongSameDepth(m: Maths, w: World, fuel: nat, e: Entity, hit: RayHit, depth: int, j: nat)
    requires Lawful(m) && WellFormed(w) && j < |w.lights|
    requires forall i :: 0 <= i < j ==> InShadow(m, w.entities, e, hit, w.lights[i])
    requires !InShadow(m, w.entities, e, hit, w.lights[j])
    requires PhongColor(m, w, fuel, e, hit, depth).Shaded?
    ensures Cast(m, w, fuel, ReflectionRay(hit), depth).Shaded?
  {
    var i := 0;
    while i < j
      invariant 0 <= i <= j
      invariant PhongLoop(m, w, fuel, e, hit, i, depth, 0.0, Black) == PhongColor(m, w, fuel, e, hit, depth)
    {
      PhongShadowedStep(m, w, fuel, e, hit, i, depth, 0.0, Black);
      i := i + 1;
    }
  }
}
