/** Writing a document out: every `$ref` is replaced by its component, and this comes to an end. */
module Expansion {
  import opened Prelude
  import opened Json
  import opened JsonSchema
  import opened Zod
  import opened ZodCompiler
  import opened SchemaMeaning
  import opened ZodMeaning
  import opened Sharing

  // --- how large a schema is ---

  function Size(z: Zod): nat
    decreases z, 1
  {
    match z.def
    case ZodNullable(inner) => 1 + Size(inner)
    case ZodOptional(inner) => 1 + Size(inner)
    case ZodDefault(inner, _) => 1 + Size(inner)
    case ZodEffects(inner, _) => 1 + Size(inner)
    case ZodArray(element, _, _, _) => 1 + Size(element)
    case ZodRecord(valueType, _, _) => 1 + Size(valueType)
    case ZodUnion(options) => 1 + SizeOfAll(options)
    case ZodDiscriminatedUnion(_, options) => 1 + SizeOfAll(options)
    case ZodObject(shape, _, _) => 1 + SizeOfFields(shape)
    case _ => 1
  }

  function SizeOfAll(zs: seq<Zod>): (n: nat)
    ensures forall i :: 0 <= i < |zs| ==> Size(zs[i]) <= n
    decreases zs, 0
  {
    if zs == [] then 0 else Size(zs[0]) + SizeOfAll(zs[1..])
  }

  function SizeOfFields(shape: seq<Field>): (n: nat)
    ensures forall i :: 0 <= i < |shape| ==> Size(shape[i].schema) <= n
    decreases shape, 0
  {
    if shape == [] then 0 else Size(shape[0].schema) + SizeOfFields(shape[1..])
  }

  // --- the expansion ---

  ghost predicate IsComponent(registry: Registry, ref: string, z: Zod) {
    z in registry && Named(registry, z) && Reference(registry[z]) == ref
  }

  // Is there a component under this reference, smaller than `bound`?
  ghost predicate Defined(registry: Registry, ref: string, bound: nat) {
    exists z :: IsComponent(registry, ref, z) && Size(z) < bound
  }

  ghost function Component(registry: Registry, ref: string, bound: nat): (z: Zod)
    requires Defined(registry, ref, bound)
    ensures IsComponent(registry, ref, z) && Size(z) < bound
  {
    var z :| IsComponent(registry, ref, z) && Size(z) < bound;
    z
  }

  // `s` with every `$ref` replaced by the expansion of its component. Inside a component only
  // smaller components are looked up: the bound goes down at each `$ref`.
  ghost function Expand(rules: Rules, registry: Registry, bound: nat, s: Schema): Schema
    decreases bound, s, 1
  {
    if s.ref.Some? then
      if Defined(registry, s.ref.value, bound) && Compile(rules, registry, Component(registry, s.ref.value, bound), true).Ok? then
        var z := Component(registry, s.ref.value, bound);
        Expand(rules, registry, Size(z), Compile(rules, registry, z, true).value)
      else s
    else s.(items := if s.items.Some? then Some(Expand(rules, registry, bound, s.items.value)) else None,
            additionalProperties :=
              if s.additionalProperties.Some? then Some(Expand(rules, registry, bound, s.additionalProperties.value)) else None,
            properties :=
              if s.properties.Properties? then Properties(ExpandProperties(rules, registry, bound, s.properties.list)) else NoProperties,
            anyOf := if s.anyOf.Schemas? then Schemas(ExpandAll(rules, registry, bound, s.anyOf.list)) else NoSchemas,
            oneOf := if s.oneOf.Schemas? then Schemas(ExpandAll(rules, registry, bound, s.oneOf.list)) else NoSchemas)
  }

  ghost function ExpandAll(rules: Rules, registry: Registry, bound: nat, ss: seq<Schema>): (r: seq<Schema>)
    ensures |r| == |ss| && forall i :: 0 <= i < |ss| ==> r[i] == Expand(rules, registry, bound, ss[i])
    decreases bound, ss, 0
  {
    if ss == [] then [] else [Expand(rules, registry, bound, ss[0])] + ExpandAll(rules, registry, bound, ss[1..])
  }

  ghost function ExpandProperties(rules: Rules, registry: Registry, bound: nat, ps: seq<Property>): (r: seq<Property>)
    ensures |r| == |ps|
    ensures forall i :: 0 <= i < |ps| ==> r[i].name == ps[i].name && r[i].schema == Expand(rules, registry, bound, ps[i].schema)
    decreases bound, ps, 0
  {
    if ps == [] then []
    else [Property(ps[0].name, Expand(rules, registry, bound, ps[0].schema))] + ExpandProperties(rules, registry, bound, ps[1..])
  }

  // No `$ref` anywhere.
  predicate HasNoRef(s: Schema)
    decreases s
  {
    && s.ref.None?
    && (s.items.Some? ==> HasNoRef(s.items.value))
    && (s.additionalProperties.Some? ==> HasNoRef(s.additionalProperties.value))
    && (s.properties.Properties? ==> forall i :: 0 <= i < |s.properties.list| ==> HasNoRef(s.properties.list[i].schema))
    && (s.anyOf.Schemas? ==> forall i :: 0 <= i < |s.anyOf.list| ==> HasNoRef(s.anyOf.list[i]))
    && (s.oneOf.Schemas? ==> forall i :: 0 <= i < |s.oneOf.list| ==> HasNoRef(s.oneOf.list[i]))
  }

  // --- every `$ref` the compiler writes names a smaller component ---

  ghost predicate RefsBelow(registry: Registry, bound: nat, s: Schema)
    decreases s
  {
    && (s.ref.Some? ==> s == EMPTY.(ref := s.ref) && Defined(registry, s.ref.value, bound))
    && (s.items.Some? ==> RefsBelow(registry, bound, s.items.value))
    && (s.additionalProperties.Some? ==> RefsBelow(registry, bound, s.additionalProperties.value))
    && (s.properties.Properties? ==> forall i :: 0 <= i < |s.properties.list| ==> RefsBelow(registry, bound, s.properties.list[i].schema))
    && (s.anyOf.Schemas? ==> forall i :: 0 <= i < |s.anyOf.list| ==> RefsBelow(registry, bound, s.anyOf.list[i]))
    && (s.oneOf.Schemas? ==> forall i :: 0 <= i < |s.oneOf.list| ==> RefsBelow(registry, bound, s.oneOf.list[i]))
  }

  lemma {:induction false} CompiledRefsBelow(rules: Rules, registry: Registry, bound: nat, z: Zod, skipRef: bool, s: Schema)
    requires Compile(rules, registry, z, skipRef) == Ok(s)
    requires bound >= if skipRef then Size(z) else Size(z) + 1
    ensures RefsBelow(registry, bound, s)
    decreases z
  {
    hide IsOptional, Reference, LastMin, LastMinLength, RefsBelow;
    if Named(registry, z) && !skipRef {
      NamedRefIsBelow(registry, bound, z);
    } else {
      match z.def
      case ZodNullable(inner) =>
        CompiledRefsBelow(rules, registry, bound, inner, false, Compile(rules, registry, inner, false).value);
        NullRefsBelow(registry, bound, Compile(rules, registry, inner, false).value);
      case ZodOptional(inner) => CompiledRefsBelow(rules, registry, bound, inner, false, s);
      case ZodDefault(inner, _) => CompiledRefsBelow(rules, registry, bound, inner, false, s);
      case ZodEffects(inner, _) => CompiledRefsBelow(rules, registry, bound, inner, false, s);
      case ZodArray(element, _, _, d) =>
        CompiledRefsBelow(rules, registry, bound, element, false, Compile(rules, registry, element, false).value);
        PartsRefsBelow(registry, bound, s);
      case ZodRecord(valueType, _, d) =>
        CompiledRefsBelow(rules, registry, bound, valueType, false, Compile(rules, registry, valueType, false).value);
        PartsRefsBelow(registry, bound, s);
      case ZodUnion(options) =>
        OptionsRefsBelow(rules, registry, bound, z, skipRef, s);
      case ZodDiscriminatedUnion(_, options) =>
        OptionsRefsBelow(rules, registry, bound, z, skipRef, s);
      case ZodObject(shape, _, d) =>
        FieldsRefsBelow(rules, registry, bound, z, skipRef, s);
      case _ =>
        PartsRefsBelow(registry, bound, s);
    }
  }

  lemma NamedRefIsBelow(registry: Registry, bound: nat, z: Zod)
    requires Named(registry, z) && Size(z) < bound
    ensures RefsBelow(registry, bound, EMPTY.(ref := Some(Reference(registry[z]))))
  {
    hide Reference;
    assert IsComponent(registry, Reference(registry[z]), z);
  }

  lemma PartsRefsBelow(registry: Registry, bound: nat, s: Schema)
    requires s.ref.None?
    requires s.items.Some? ==> RefsBelow(registry, bound, s.items.value)
    requires s.additionalProperties.Some? ==> RefsBelow(registry, bound, s.additionalProperties.value)
    requires s.properties.Properties? ==> forall i :: 0 <= i < |s.properties.list| ==> RefsBelow(registry, bound, s.properties.list[i].schema)
    requires s.anyOf.Schemas? ==> forall i :: 0 <= i < |s.anyOf.list| ==> RefsBelow(registry, bound, s.anyOf.list[i])
    requires s.oneOf.Schemas? ==> forall i :: 0 <= i < |s.oneOf.list| ==> RefsBelow(registry, bound, s.oneOf.list[i])
    ensures RefsBelow(registry, bound, s)
  {
  }

  lemma NullRefsBelow(registry: Registry, bound: nat, s: Schema)
    requires RefsBelow(registry, bound, s)
    ensures RefsBelow(registry, bound, WithNull(s))
  {
    hide RefsBelow;
    if s.ref.Some? || !s.typ.One? {
      PartsRefsBelow(registry, bound, NULL);
      PartsRefsBelow(registry, bound, WithNull(s));
    } else {
      SameRefs(registry, bound, s);
    }
  }

  lemma SameRefs(registry: Registry, bound: nat, s: Schema)
    requires RefsBelow(registry, bound, s) && s.ref.None? && s.typ.One?
    ensures RefsBelow(registry, bound, s.(typ := Many([s.typ.name, "null"])))
  {
  }

  lemma {:induction false} OptionsRefsBelow(rules: Rules, registry: Registry, bound: nat, z: Zod, skipRef: bool, s: Schema)
    requires (z.def.ZodUnion? || z.def.ZodDiscriminatedUnion?) && WrittenOut(registry, z, skipRef)
    requires Compile(rules, registry, z, skipRef) == Ok(s) && bound >= Size(z)
    ensures RefsBelow(registry, bound, s)
    decreases z, 0
  {
    hide IsOptional, RefsBelow;
    var ss := CompileAll(rules, registry, z.def.options).value;
    forall i | 0 <= i < |ss|
      ensures RefsBelow(registry, bound, ss[i])
    {
      CompiledRefsBelow(rules, registry, bound, z.def.options[i], false, ss[i]);
    }
    PartsRefsBelow(registry, bound, s);
  }

  lemma {:induction false} FieldsRefsBelow(rules: Rules, registry: Registry, bound: nat, z: Zod, skipRef: bool, s: Schema)
    requires z.def.ZodObject? && WrittenOut(registry, z, skipRef)
    requires Compile(rules, registry, z, skipRef) == Ok(s) && bound >= Size(z)
    ensures RefsBelow(registry, bound, s)
    decreases z, 0
  {
    hide IsOptional, RefsBelow;
    var ps := CompileFields(rules, registry, z.def.shape).value;
    forall i | 0 <= i < |ps|
      ensures RefsBelow(registry, bound, ps[i].schema)
    {
      CompiledRefsBelow(rules, registry, bound, z.def.shape[i].schema, false, ps[i].schema);
    }
    PartsRefsBelow(registry, bound, s);
  }

  // --- main results ---

  ghost predicate Document(registry: Registry) {
    DistinctNames(registry) && forall z :: z in registry ==> Compilable(z)
  }

  // What a `$ref` below the bound is replaced by.
  lemma ReferenceExpands(rules: Rules, registry: Registry, bound: nat, s: Schema) returns (z: Zod, t: Schema)
    requires Document(registry) && RefsBelow(registry, bound, s) && s.ref.Some?
    ensures IsComponent(registry, s.ref.value, z) && Size(z) < bound && Compilable(z)
    ensures Compile(rules, registry, z, true) == Ok(t) && RefsBelow(registry, Size(z), t)
    ensures Expand(rules, registry, bound, s) == Expand(rules, registry, Size(z), t)
  {
    hide Compile, Reference, Compilable;
    z := Component(registry, s.ref.value, bound);
    CompilableCompiles(rules, registry, z, true);
    t := Compile(rules, registry, z, true).value;
    CompiledRefsBelow(rules, registry, Size(z), z, true, t);
  }

  // The parts of an expansion are the expansions of the parts.
  lemma PartsOfExpansion(rules: Rules, registry: Registry, bound: nat, s: Schema)
    requires s.ref.None?
    ensures var e := Expand(rules, registry, bound, s);
            && e.ref.None?
            && e.items == (if s.items.Some? then Some(Expand(rules, registry, bound, s.items.value)) else None)
            && e.additionalProperties ==
               (if s.additionalProperties.Some? then Some(Expand(rules, registry, bound, s.additionalProperties.value)) else None)
            && e.properties ==
               (if s.properties.Properties? then Properties(ExpandProperties(rules, registry, bound, s.properties.list)) else NoProperties)
            && e.anyOf == (if s.anyOf.Schemas? then Schemas(ExpandAll(rules, registry, bound, s.anyOf.list)) else NoSchemas)
            && e.oneOf == (if s.oneOf.Schemas? then Schemas(ExpandAll(rules, registry, bound, s.oneOf.list)) else NoSchemas)
  {
  }

  lemma {:induction false} ExpandedHasNoRef(rules: Rules, registry: Registry, bound: nat, s: Schema)
    requires Document(registry) && RefsBelow(registry, bound, s)
    ensures HasNoRef(Expand(rules, registry, bound, s))
    decreases bound, s
  {
    hide Document, IsComponent, Compilable, Compile, Expand, ExpandAll, ExpandProperties;
    if s.ref.Some? {
      var z, t := ReferenceExpands(rules, registry, bound, s);
      ExpandedHasNoRef(rules, registry, Size(z), t);
    } else {
      PartsOfExpansion(rules, registry, bound, s);
      if s.items.Some? {
        ExpandedHasNoRef(rules, registry, bound, s.items.value);
      }
      if s.additionalProperties.Some? {
        ExpandedHasNoRef(rules, registry, bound, s.additionalProperties.value);
      }
      if s.properties.Properties? {
        forall i | 0 <= i < |s.properties.list| { ExpandedHasNoRef(rules, registry, bound, s.properties.list[i].schema); }
      }
      if s.anyOf.Schemas? {
        forall i | 0 <= i < |s.anyOf.list| { ExpandedHasNoRef(rules, registry, bound, s.anyOf.list[i]); }
      }
      if s.oneOf.Schemas? {
        forall i | 0 <= i < |s.oneOf.list| { ExpandedHasNoRef(rules, registry, bound, s.oneOf.list[i]); }
      }
    }
  }

  // Two schemas with the same assertions of their own and parts that accept the same.
  ghost predicate PartsAlike(env: Env, s: Schema, env': Env, t: Schema, v: Json) {
    && (s.items.Some? <==> t.items.Some?)
    && (s.items.Some? && v.Arr? ==> forall i :: 0 <= i < |v.items| ==>
          (Accepts(env, s.items.value, v.items[i]) <==> Accepts(env', t.items.value, v.items[i])))
    && (s.additionalProperties.Some? <==> t.additionalProperties.Some?)
    && (s.additionalProperties.Some? && v.Obj? ==> forall k :: k in v.fields ==>
          (Accepts(env, s.additionalProperties.value, v.fields[k]) <==> Accepts(env', t.additionalProperties.value, v.fields[k])))
    && (s.properties.Properties? <==> t.properties.Properties?)
    && (s.properties.Properties? ==> FieldsAlike(env, s.properties.list, env', t.properties.list, v))
    && (s.anyOf.Schemas? <==> t.anyOf.Schemas?)
    && (s.anyOf.Schemas? ==> ListsAlike(env, s.anyOf.list, env', t.anyOf.list, v))
    && (s.oneOf.Schemas? <==> t.oneOf.Schemas?)
    && (s.oneOf.Schemas? ==> ListsAlike(env, s.oneOf.list, env', t.oneOf.list, v))
  }

  ghost predicate FieldsAlike(env: Env, ps: seq<Property>, env': Env, qs: seq<Property>, v: Json) {
    && |ps| == |qs|
    && forall i :: 0 <= i < |ps| ==>
         && ps[i].name == qs[i].name
         && (v.Obj? && ps[i].name in v.fields ==>
               (Accepts(env, ps[i].schema, v.fields[ps[i].name]) <==> Accepts(env', qs[i].schema, v.fields[ps[i].name])))
  }

  ghost predicate ListsAlike(env: Env, ss: seq<Schema>, env': Env, ts: seq<Schema>, v: Json) {
    |ss| == |ts| && forall i :: 0 <= i < |ss| ==> (Accepts(env, ss[i], v) <==> Accepts(env', ts[i], v))
  }

  lemma PartsDecide(env: Env, s: Schema, env': Env, t: Schema, v: Json)
    requires PartsAlike(env, s, env', t, v)
    ensures ItemsOk(env, s, v) <==> ItemsOk(env', t, v)
    ensures PropertiesOk(env, s, v) <==> PropertiesOk(env', t, v)
    ensures OthersOk(env, s, v) <==> OthersOk(env', t, v)
    ensures AnyOfOk(env, s, v) <==> AnyOfOk(env', t, v)
    ensures OneOfOk(env, s, v) <==> OneOfOk(env', t, v)
  {
    hide Accepts, ExactlyOne;
    SameDeclarations(env, s, env', t, v);
    if s.oneOf.Schemas? {
      ExactlyOneAlike(env, s.oneOf.list, env', t.oneOf.list, v);
    }
  }

  lemma SameDeclarations(env: Env, s: Schema, env': Env, t: Schema, v: Json)
    requires PartsAlike(env, s, env', t, v)
    ensures forall k :: Declares(s.properties, k) <==> Declares(t.properties, k)
  {
    hide Accepts;
  }

  // The expansion accepts what the schema does with its references resolved.
  lemma {:induction false} ExpandedAccepts(rules: Rules, registry: Registry, env: Env, bound: nat, s: Schema, v: Json)
    requires Document(registry) && RefsBelow(registry, bound, s) && Resolves(rules, registry, env)
    ensures Accepts(NoReferences, Expand(rules, registry, bound, s), v) <==> Accepts(env, s, v)
    decreases bound, s, 1
  {
    hide Document, Compilable, Compile, Accepts, Expand, Shared;
    if s.ref.Some? {
      var z, t := ReferenceExpands(rules, registry, bound, s);
      ExpandedAccepts(rules, registry, env, Size(z), t, v);
      assert Accepts(env, t, v) <==> Shared(rules, registry, env, z, true, v) by { SharedByCompiled(rules, registry, env, z, t, v); }
      ReferenceMeaning(env, registry[z], v);
    } else {
      PartsExpand(rules, registry, env, bound, s, v);
      var e := Expand(rules, registry, bound, s);
      PartsDecide(env, s, NoReferences, e, v);
      AcceptsParts(env, s, v);
      AcceptsParts(NoReferences, e, v);
      SameScalars(rules, registry, bound, s, v);
    }
  }

  lemma SharedByCompiled(rules: Rules, registry: Registry, env: Env, z: Zod, t: Schema, v: Json)
    requires Compile(rules, registry, z, true) == Ok(t)
    ensures Shared(rules, registry, env, z, true, v) <==> Accepts(env, t, v)
  {
  }

  lemma SameScalars(rules: Rules, registry: Registry, bound: nat, s: Schema, v: Json)
    requires s.ref.None?
    ensures var e := Expand(rules, registry, bound, s); e.ref.None? && (ScalarOk(e, v) <==> ScalarOk(s, v))
  {
  }

  lemma {:induction false} PartsExpand(rules: Rules, registry: Registry, env: Env, bound: nat, s: Schema, v: Json)
    requires Document(registry) && RefsBelow(registry, bound, s) && Resolves(rules, registry, env) && s.ref.None?
    ensures PartsAlike(env, s, NoReferences, Expand(rules, registry, bound, s), v)
    decreases bound, s, 0
  {
    hide Document, Resolves, Accepts, Expand, ExpandAll, ExpandProperties, ListsAlike, FieldsAlike;
    PartsOfExpansion(rules, registry, bound, s);
    if s.items.Some? && v.Arr? {
      forall i | 0 <= i < |v.items| { ExpandedAccepts(rules, registry, env, bound, s.items.value, v.items[i]); }
    }
    if s.additionalProperties.Some? && v.Obj? {
      forall k | k in v.fields { ExpandedAccepts(rules, registry, env, bound, s.additionalProperties.value, v.fields[k]); }
    }
    if s.properties.Properties? {
      PropertiesExpand(rules, registry, env, bound, s.properties.list, v);
    }
    if s.anyOf.Schemas? {
      ListExpands(rules, registry, env, bound, s.anyOf.list, v);
    }
    if s.oneOf.Schemas? {
      ListExpands(rules, registry, env, bound, s.oneOf.list, v);
    }
  }

  lemma {:induction false} PropertiesExpand(rules: Rules, registry: Registry, env: Env, bound: nat, ps: seq<Property>, v: Json)
    requires Document(registry) && Resolves(rules, registry, env)
    requires forall i :: 0 <= i < |ps| ==> RefsBelow(registry, bound, ps[i].schema)
    ensures FieldsAlike(env, ps, NoReferences, ExpandProperties(rules, registry, bound, ps), v)
    decreases bound, ps, 2
  {
    hide Document, Resolves, Accepts, RefsBelow, Expand;
    if v.Obj? {
      forall i | 0 <= i < |ps| && ps[i].name in v.fields {
        ExpandedAccepts(rules, registry, env, bound, ps[i].schema, v.fields[ps[i].name]);
      }
    }
  }

  lemma {:induction false} ListExpands(rules: Rules, registry: Registry, env: Env, bound: nat, ss: seq<Schema>, v: Json)
    requires Document(registry) && Resolves(rules, registry, env)
    requires forall i :: 0 <= i < |ss| ==> RefsBelow(registry, bound, ss[i])
    ensures ListsAlike(env, ss, NoReferences, ExpandAll(rules, registry, bound, ss), v)
    decreases bound, ss, 2
  {
    hide Document, Resolves, Accepts, RefsBelow, Expand;
    forall i | 0 <= i < |ss| { ExpandedAccepts(rules, registry, env, bound, ss[i], v); }
  }

  // Resolving references comes to an end. The bound goes down at every `$ref`, no lookup fails, and
  // what is left holds no `$ref` and accepts what the schema accepts in its document.
  lemma ResolutionEnds(rules: Rules, registry: Registry, env: Env, z: Zod, skipRef: bool, v: Json)
    requires Document(registry) && Compilable(z) && Resolves(rules, registry, env)
    ensures Compile(rules, registry, z, skipRef).Ok?
    ensures var expanded := Expand(rules, registry, Size(z) + 1, Compile(rules, registry, z, skipRef).value);
            HasNoRef(expanded) && (Accepts(NoReferences, expanded, v) <==> Shared(rules, registry, env, z, skipRef, v))
  {
    hide Document, Compilable, Compile, Resolves, Accepts, Expand, HasNoRef, RefsBelow;
    CompilableCompiles(rules, registry, z, skipRef);
    var s := Compile(rules, registry, z, skipRef).value;
    CompiledRefsBelow(rules, registry, Size(z) + 1, z, skipRef, s);
    ExpandedHasNoRef(rules, registry, Size(z) + 1, s);
    ExpandedAccepts(rules, registry, env, Size(z) + 1, s, v);
  }
}
