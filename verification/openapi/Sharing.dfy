/** Components: a document with references means the same as one with every schema written out. */
module Sharing {
  import opened Prelude
  import opened Json
  import opened JsonSchema
  import opened Zod
  import opened ZodCompiler
  import opened SchemaMeaning
  import opened ZodMeaning

  // --- sharing preserves meaning ---

  // Components hide no enum from a nullable around it.
  predicate SameNullables(registry: Registry, z: Zod)
    decreases z
  {
    match z.def
    case ZodNullable(inner) =>
      SameNullables(registry, inner) && (BareEnum(map[], inner) ==> BareEnum(registry, inner))
    case ZodOptional(inner) => SameNullables(registry, inner)
    case ZodDefault(inner, _) => SameNullables(registry, inner)
    case ZodEffects(inner, _) => SameNullables(registry, inner)
    case ZodArray(element, _, _, _) => SameNullables(registry, element)
    case ZodRecord(valueType, _, _) => SameNullables(registry, valueType)
    case ZodUnion(options) => forall i :: 0 <= i < |options| ==> SameNullables(registry, options[i])
    case ZodDiscriminatedUnion(_, options) => forall i :: 0 <= i < |options| ==> SameNullables(registry, options[i])
    case ZodObject(shape, _, _) => forall i :: 0 <= i < |shape| ==> SameNullables(registry, shape[i].schema)
    case _ => true
  }

  lemma BareEnumUnshared(registry: Registry, z: Zod)
    requires BareEnum(registry, z)
    ensures BareEnum(map[], z)
  {
  }

  lemma {:induction false} MeansAlike(rules: Rules, registry: Registry, z: Zod, v: Json)
    requires SameNullables(registry, z)
    ensures Means(rules, registry, z, v) <==> Means(rules, map[], z, v)
    decreases z
  {
    hide Means;
    match z.def
    case ZodNullable(inner) =>
      MeansAlike(rules, registry, inner, v);
      NullableAlike(rules, registry, z, v);
    case ZodOptional(inner) =>
      MeansAlike(rules, registry, inner, v);
      WrapperAlike(rules, registry, z, v);
    case ZodDefault(inner, _) =>
      MeansAlike(rules, registry, inner, v);
      WrapperAlike(rules, registry, z, v);
    case ZodEffects(inner, _) =>
      MeansAlike(rules, registry, inner, v);
      WrapperAlike(rules, registry, z, v);
    case ZodArray(element, _, _, _) =>
      if v.Arr? {
        forall i | 0 <= i < |v.items| { MeansAlike(rules, registry, element, v.items[i]); }
      }
      ItemsAlike(rules, registry, z, v);
    case ZodRecord(valueType, _, _) =>
      if v.Obj? {
        forall k | k in v.fields { MeansAlike(rules, registry, valueType, v.fields[k]); }
      }
      ItemsAlike(rules, registry, z, v);
    case ZodUnion(options) =>
      forall i | 0 <= i < |options| { MeansAlike(rules, registry, options[i], v); }
      UnionAlike(rules, registry, z, v);
    case ZodDiscriminatedUnion(_, options) =>
      forall i | 0 <= i < |options| { MeansAlike(rules, registry, options[i], v); }
      UnionAlike(rules, registry, z, v);
    case ZodObject(shape, _, _) =>
      if v.Obj? {
        forall i | 0 <= i < |shape| && shape[i].key in v.fields {
          MeansAlike(rules, registry, shape[i].schema, v.fields[shape[i].key]);
        }
      }
      ObjectAlike(rules, registry, z, v);
    case _ =>
      LeafAlike(rules, registry, z, v);
  }

  // One node, given that its parts mean the same.
  lemma NullableAlike(rules: Rules, registry: Registry, z: Zod, v: Json)
    requires z.def.ZodNullable? && (BareEnum(map[], z.def.inner) ==> BareEnum(registry, z.def.inner))
    requires Means(rules, registry, z.def.inner, v) <==> Means(rules, map[], z.def.inner, v)
    ensures Means(rules, registry, z, v) <==> Means(rules, map[], z, v)
  {
    hide BareEnum;
    if BareEnum(registry, z.def.inner) {
      BareEnumUnshared(registry, z.def.inner);
    }
  }

  lemma WrapperAlike(rules: Rules, registry: Registry, z: Zod, v: Json)
    requires z.def.ZodOptional? || z.def.ZodDefault? || z.def.ZodEffects?
    requires Means(rules, registry, z.def.inner, v) <==> Means(rules, map[], z.def.inner, v)
    ensures Means(rules, registry, z, v) <==> Means(rules, map[], z, v)
  {
  }

  lemma ItemsAlike(rules: Rules, registry: Registry, z: Zod, v: Json)
    requires z.def.ZodArray? || z.def.ZodRecord?
    requires z.def.ZodArray? && v.Arr? ==> forall i :: 0 <= i < |v.items| ==>
      (Means(rules, registry, z.def.element, v.items[i]) <==> Means(rules, map[], z.def.element, v.items[i]))
    requires z.def.ZodRecord? && v.Obj? ==> forall k :: k in v.fields ==>
      (Means(rules, registry, z.def.valueType, v.fields[k]) <==> Means(rules, map[], z.def.valueType, v.fields[k]))
    ensures Means(rules, registry, z, v) <==> Means(rules, map[], z, v)
  {
  }

  lemma UnionAlike(rules: Rules, registry: Registry, z: Zod, v: Json)
    requires z.def.ZodUnion? || z.def.ZodDiscriminatedUnion?
    requires forall i :: 0 <= i < |z.def.options| ==>
      (Means(rules, registry, z.def.options[i], v) <==> Means(rules, map[], z.def.options[i], v))
    ensures Means(rules, registry, z, v) <==> Means(rules, map[], z, v)
  {
    hide Means;
    UnionMeans(rules, registry, z, v);
    UnionMeans(rules, map[], z, v);
  }

  lemma ObjectAlike(rules: Rules, registry: Registry, z: Zod, v: Json)
    requires z.def.ZodObject?
    requires v.Obj? ==> forall i :: 0 <= i < |z.def.shape| && z.def.shape[i].key in v.fields ==>
      var f := z.def.shape[i];
      (Means(rules, registry, f.schema, v.fields[f.key]) <==> Means(rules, map[], f.schema, v.fields[f.key]))
    ensures Means(rules, registry, z, v) <==> Means(rules, map[], z, v)
  {
    hide RequiredNowhere;
  }

  lemma LeafAlike(rules: Rules, registry: Registry, z: Zod, v: Json)
    requires z.def.ZodString? || z.def.ZodNumber? || z.def.ZodBoolean? || z.def.ZodDate? || z.def.ZodAny?
          || z.def.ZodLiteral? || z.def.ZodEnum? || z.def.Unsupported?
    ensures Means(rules, registry, z, v) <==> Means(rules, map[], z, v)
  {
  }

  // Sharing preserves meaning: with references resolved to their components, a schema accepts what
  // it accepts when nothing is shared, as long as no component hides an enum from a nullable.
  lemma SharedIsUnshared(rules: Rules, registry: Registry, env: Env, z: Zod, skipRef: bool, v: Json)
    requires Compilable(z) && Resolves(rules, registry, env) && SameNullables(registry, z)
    ensures Shared(rules, registry, env, z, skipRef, v) <==> Unshared(rules, z, v)
  {
    hide Shared, Unshared, Means, Resolves, SameNullables, Compilable;
    SharedIsMeant(rules, registry, env, z, skipRef, v);
    UnsharedIsMeant(rules, z, v);
    MeansAlike(rules, registry, z, v);
  }

  // A component that does hide an enum makes a difference: null passes then, and not before.
  lemma HiddenEnumTakesNull(rules: Rules, registry: Registry, env: Env, id: nat, inner: Zod)
    requires Compilable(inner) && Resolves(rules, registry, env)
    requires BareEnum(map[], inner) && !BareEnum(registry, inner)
    ensures var z := Zod(id, ZodNullable(inner));
            Shared(rules, registry, env, z, true, Null) && !Unshared(rules, z, Null)
  {
    hide Shared, Unshared, Resolves, BareEnum;
    var z := Zod(id, ZodNullable(inner));
    SharedIsMeant(rules, registry, env, z, true, Null);
    UnsharedIsMeant(rules, z, Null);
    EnumMeansNoNull(rules, inner);
  }

  lemma {:induction false} EnumMeansNoNull(rules: Rules, z: Zod)
    requires BareEnum(map[], z)
    ensures !Means(rules, map[], z, Null)
    decreases z
  {
    hide IsOptional;
    match z.def
    case ZodOptional(inner) => EnumMeansNoNull(rules, inner);
    case ZodDefault(inner, _) => EnumMeansNoNull(rules, inner);
    case ZodEffects(inner, _) => EnumMeansNoNull(rules, inner);
    case _ =>
  }

  // --- references can always be resolved, in one way ---

  ghost predicate DistinctNames(registry: Registry) {
    forall a, b :: a in registry && b in registry && Named(registry, a) && registry[a] == registry[b] ==> a == b
  }

  // The environment in which every reference stands for what its schema means.
  ghost function Resolution(rules: Rules, registry: Registry): Env {
    (ref, v) => exists z :: z in registry && Named(registry, z) && Reference(registry[z]) == ref && Means(rules, registry, z, v)
  }

  lemma ReferenceIsInjective(a: string, b: string)
    requires Reference(a) == Reference(b)
    ensures a == b
  {
    assert a == Reference(a)[|"#/components/schemas/"|..];
    assert b == Reference(b)[|"#/components/schemas/"|..];
  }

  // With distinct names there is an environment in which every reference stands for its component.
  lemma ResolutionExists(rules: Rules, registry: Registry)
    requires DistinctNames(registry)
    requires forall z :: z in registry ==> Compilable(z)
    ensures Resolves(rules, registry, Resolution(rules, registry))
  {
    hide Means, Shared;
    var env := Resolution(rules, registry);
    forall z, v | z in registry && Named(registry, z)
      ensures env(Reference(registry[z]), v) == Means(rules, registry, z, v)
    {
      if env(Reference(registry[z]), v) {
        var z' :| z' in registry && Named(registry, z') && Reference(registry[z']) == Reference(registry[z]) && Means(rules, registry, z', v);
        ReferenceIsInjective(registry[z], registry[z']);
      }
    }
    forall z, v | z in registry && Named(registry, z)
      ensures env(Reference(registry[z]), v) == Shared(rules, registry, env, z, true, v)
    {
      SharedIsMeant(rules, registry, env, z, true, v);
    }
  }

  // ... and only one: any two agree on every component.
  lemma ResolutionIsUnique(rules: Rules, registry: Registry, env: Env, env': Env, z: Zod, v: Json)
    requires Resolves(rules, registry, env) && Resolves(rules, registry, env')
    requires Named(registry, z) && Compilable(z)
    ensures env(Reference(registry[z]), v) == env'(Reference(registry[z]), v)
  {
    hide Means, Shared;
    SharedIsMeant(rules, registry, env, z, true, v);
    SharedIsMeant(rules, registry, env', z, true, v);
  }
}
