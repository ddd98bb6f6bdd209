/** The `Scene` class of src/scene/Scene.cs: it owns the entities and the
    point lights (hash sets in the source, sequences without repetition
    here) and runs the shading loops. Each method is proved to compute the
    specification function of engine.dfy for the scene's current contents.

    The methods take the numeric library `m` and, where they recurse, the
    `fuel` budget of engine.dfy; the hard-shadow loop that `diffusion` and
    `Phong` each write out inline is the one method `IsInShadow`. */
module Scenes {
  import opened Values
  import opened Shading
  import opened Engine
  import opened EngineLemmas

  /** `HashSet.Add`: the element joins the collection unless an equal one is
      already there. */
  function Insert<T(==)>(s: seq<T>, x: T): seq<T> {
    if x in s then s else s + [x]
  }

  /** No element occurs twice. */
  predicate Distinct<T(==)>(s: seq<T>) {
    forall i, j :: 0 <= i < j < |s| ==> s[i] != s[j]
  }

  /** After `Insert` the collection holds exactly the old elements and `x`,
      still without repetition, and it grew by one exactly when `x` was new. */
  lemma InsertSet<T>(s: seq<T>, x: T)
    requires Distinct(s)
    ensures Distinct(Insert(s, x))
    ensures forall y :: y in Insert(s, x) <==> y in s || y == x
    ensures |Insert(s, x)| == if x in s then |s| else |s| + 1
  {
  }

  /** Adding the same element twice is the same as adding it once. */
  lemma InsertIdempotent<T>(s: seq<T>, x: T)
    ensures Insert(Insert(s, x), x) == Insert(s, x)
  {
  }

  class Scene {
    var entities: seq<Entity>
    var lights: seq<PointLight>

    /** The two collections are sets: no entity and no light is held twice. */
    ghost predicate Valid()
      reads this
    {
      Distinct(entities) && Distinct(lights)
    }

    /** What the shading functions see of this scene. */
    function Contents(): World
      reads this
    {
      World(entities, lights)
    }

    /** A new scene has no entities and no lights. */
    constructor ()
      ensures Valid() && entities == [] && lights == []
    {
      entities := [];
      lights := [];
    }

    /** `AddEntity`: set insertion into the entities; the lights stay. */
    method AddEntity(e: Entity)
      requires Valid()
      modifies this
      ensures Valid()
      ensures entities == Insert(old(entities), e) && lights == old(lights)
    {
      InsertSet(entities, e);
      if e !in entities {
        entities := entities + [e];
      }
    }

    /** `AddPointLight`: set insertion into the lights; the entities stay. */
    method AddPointLight(light: PointLight)
      requires Valid()
      modifies this
      ensures Valid()
      ensures lights == Insert(old(lights), light) && entities == old(entities)
    {
      InsertSet(lights, light);
      if light !in lights {
        lights := lights + [light];
      }
    }

    /** `castRay`: scans the entities for the hit nearest to the world origin,
        shades each new nearest hit, stops at a refractive one, and clamps
        negative channels to zero. */
    method CastRay(m: Maths, ray: Ray, depth: int, fuel: nat) returns (o: Outcome)
      requires Lawful(m) && WellFormed(Contents())
      ensures o == Cast(m, Contents(), fuel, ray, depth)
      decreases fuel, 0
    {
      if depth > MaxDepth {
        return Shaded(Black);
      }
      if fuel == 0 {
        return OutOfFuel;
      }
      var tnear := Infinity;
      var hitColor := Black;
      var i := 0;
      while i < |entities|
        invariant 0 <= i <= |entities|
        invariant Scan(m, Contents(), fuel - 1, ray, depth, i, tnear, hitColor) ==
                  Scan(m, Contents(), fuel - 1, ray, depth, 0, Infinity, Black)
      {
        var entity := entities[i];
        var hit := Hit(m, entity, ray);
        if hit.Some? && Length(m, hit.value.position) < tnear && Length(m, hit.value.position) > 0.0 {
          tnear := Length(m, hit.value.position);
          var shaded := ShadeHit(m, fuel - 1, entity, hit.value, depth);
          if shaded.OutOfFuel? {
            return OutOfFuel;
          }
          hitColor := shaded.color;
          if EntityMaterial(entity).kind == Refractive {
            break;
          }
        }
        i := i + 1;
      }
      if hitColor.r < 0.0 {
        hitColor := Color(0.0, hitColor.g, hitColor.b);
      }
      if hitColor.g < 0.0 {
        hitColor := Color(hitColor.r, 0.0, hitColor.b);
      }
      if hitColor.b < 0.0 {
        hitColor := Color(hitColor.r, hitColor.g, 0.0);
      }
      o := Shaded(hitColor);
    }

    /** The material dispatch of `castRay` for a new nearest hit. */
    method ShadeHit(m: Maths, fuel: nat, entity: Entity, hit: RayHit, depth: int) returns (o: Outcome)
      requires Lawful(m) && WellFormed(Contents()) && Admissible(entity)
      ensures o == Shade(m, Contents(), fuel, entity, hit, depth)
      decreases fuel, 3
    {
      var material := EntityMaterial(entity);
      match material.kind
      case Diffuse =>
        var c := Diffusion(m, entity, hit);
        o := Shaded(c);
      case Refractive =>
        var kr := Fresnel(m, hit, material.refractiveIndex);
        assert Shade(m, Contents(), fuel, entity, hit, depth) == RefractiveMix(m, Contents(), fuel, entity, hit, depth, kr);
        var refracted := Refracted(m, fuel, entity, hit, depth, kr);
        if refracted.OutOfFuel? {
          return OutOfFuel;
        }
        var reflected := CastRay(m, ReflectedRay(m, hit), depth + 1, fuel);
        if reflected.OutOfFuel? {
          return OutOfFuel;
        }
        o := Shaded(Mix(reflected.color, refracted.color, kr));
      case Glossy =>
        o := Phong(m, fuel, entity, hit, depth);
      case Reflective =>
        var reflectionRay := Ray(hit.position.Plus(hit.normal.Times(Bias)), Reflection(hit));
        o := CastRay(m, reflectionRay, depth + 1, fuel);
      case Unrecognised =>
        o := Shaded(material.color);
    }

    /** The refracted colour of the refractive case: nothing under total
        internal reflection, otherwise the refracted ray cast one level
        deeper and, when it leaves the medium, filtered by Beer's law. */
    method Refracted(m: Maths, fuel: nat, entity: Entity, hit: RayHit, depth: int, kr: real) returns (o: Outcome)
      requires Lawful(m) && WellFormed(Contents()) && Admissible(entity)
      requires EntityMaterial(entity).kind == Refractive
      ensures o == RefractedColor(m, Contents(), fuel, entity, hit, depth, kr)
      decreases fuel, 1
    {
      var material := EntityMaterial(entity);
      if kr >= 1.0 {
        return Shaded(Black);
      }
      o := CastRay(m, RefractedRay(m, hit, material.refractiveIndex), depth + 1, fuel);
      if o.Shaded? && hit.incident.Dot(hit.normal) > 0.0 {
        o := Shaded(o.color.Modulate(Transmittance(m, material, hit.position)));
      }
    }

    /** The hard-shadow loop: is some other entity hit by the shadow ray
        closer to the point than the light is? */
    method IsInShadow(m: Maths, entity: Entity, hit: RayHit, light: PointLight) returns (inShadow: bool)
      ensures inShadow == InShadow(m, entities, entity, hit, light)
    {
      var lightDirection := Normalized(m, light.position.Minus(hit.position));
      var shadowRay := Ray(hit.position.Plus(hit.normal.Times(Bias)), lightDirection);
      inShadow := false;
      var k := 0;
      while k < |entities|
        invariant 0 <= k <= |entities|
        invariant inShadow <==> exists i :: 0 <= i < k && Blocks(m, entities[i], entity, hit, light)
      {
        var other := entities[k];
        if other != entity {
          var hit2 := Hit(m, other, shadowRay);
          if hit2.Some? {
            if Length(m, hit2.value.position.Minus(hit.position)) < Length(m, light.position.Minus(hit.position)) {
              inShadow := true;
            }
          }
        }
        k := k + 1;
      }
    }

    /** `diffusion`: the lights the point is not shadowed from, each weighted
        by the cosine between the normal and the light direction. */
    method Diffusion(m: Maths, entity: Entity, hit: RayHit) returns (hitColor: Color)
      ensures hitColor == DiffuseColor(m, entities, entity, hit, lights)
    {
      hitColor := Black;
      var j := 0;
      while j < |lights|
        invariant 0 <= j <= |lights|
        invariant hitColor == DiffuseColor(m, entities, entity, hit, lights[..j])
      {
        var light := lights[j];
        var lightDirection := Normalized(m, light.position.Minus(hit.position));
        var inShadow := IsInShadow(m, entity, hit, light);
        if !inShadow {
          var color := EntityMaterial(entity).color.Modulate(light.color).Scaled(hit.normal.Dot(lightDirection));
          hitColor := hitColor.Plus(color);
        }
        assert lights[..j + 1][..j] == lights[..j];
        j := j + 1;
      }
      assert lights[..j] == lights;
    }

    /** `Phong`: the diffuse term weighted by `Kd` plus, weighted by `Ks`, the
        highlights and the mirror-ray colours of the unshadowed lights. The
        mirror ray of each such light is cast at the current `depth`, which
        goes up by one afterwards. */
    method Phong(m: Maths, fuel: nat, entity: Entity, hit: RayHit, depth: int) returns (o: Outcome)
      requires Lawful(m) && WellFormed(Contents())
      ensures o == PhongColor(m, Contents(), fuel, entity, hit, depth)
      decreases fuel, 2
    {
      var specular := Black;
      var specVec := 0.0;
      var d := depth;
      var j := 0;
      while j < |lights|
        invariant 0 <= j <= |lights|
        invariant PhongLoop(m, Contents(), fuel, entity, hit, j, d, specVec, specular) ==
                  PhongColor(m, Contents(), fuel, entity, hit, depth)
      {
        var stop;
        stop, d, specVec, specular := PhongLight(m, fuel, entity, hit, j, d, specVec, specular);
        if stop {
          return OutOfFuel;
        }
        j := j + 1;
      }
      specular := specular.Offset(specVec);
      var diffuse := Diffusion(m, entity, hit);
      o := Shaded(PhongMix(diffuse, specular));
    }

    /** The body of the `Phong` loop for the light `lights[j]`: a shadowed
        light changes nothing; an unshadowed one adds its highlight to
        `specVec` and the colour of the mirror ray, cast at depth `d`, to
        `specular`, and raises the depth by one. `stop` reports a mirror ray
        that ran out of fuel. */
    method PhongLight(m: Maths, fuel: nat, entity: Entity, hit: RayHit, j: nat, d: int, specVec: real, specular: Color)
      returns (stop: bool, d': int, specVec': real, specular': Color)
      requires Lawful(m) && WellFormed(Contents()) && j < |lights|
      ensures stop ==> PhongLoop(m, Contents(), fuel, entity, hit, j, d, specVec, specular) == OutOfFuel
      ensures !stop ==> PhongLoop(m, Contents(), fuel, entity, hit, j, d, specVec, specular) ==
                          PhongLoop(m, Contents(), fuel, entity, hit, j + 1, d', specVec', specular')
      decreases fuel, 1
    {
      var inShadow := IsInShadow(m, entity, hit, lights[j]);
      if inShadow {
        PhongShadowedStep(m, Contents(), fuel, entity, hit, j, d, specVec, specular);
        return false, d, specVec, specular;
      }
      specVec' := specVec + Highlight(hit);
      var reflected := CastRay(m, ReflectionRay(hit), d, fuel);
      d' := d + 1;
      if reflected.OutOfFuel? {
        PhongLitOutOfFuel(m, Contents(), fuel, entity, hit, j, d, specVec, specular);
        return true, d', specVec', specular;
      }
      specular' := specular.Plus(reflected.color);
      PhongLitStep(m, Contents(), fuel, entity, hit, j, d, specVec, specular, reflected.color, d', specVec', specular');
      stop := false;
    }
  }
}
