/** What a compiled schema means: the values it accepts, read off the Zod schema it was compiled from. */
module ZodMeaning {
  import opened Prelude
  import opened Json
  import opened JsonSchema
  import opened Zod
  import opened ZodCompiler
  import opened SchemaMeaning

  // --- the schemas the generator compiles ---

  // Does the schema compile to a plain string enum (and not to a reference)?
  predicate BareEnum(registry: Registry, z: Zod) {
    !Named(registry, z) &&
    match z.def
    case ZodEnum(_, _) => true
    case ZodOptional(inner) => BareEnum(registry, inner)
    case ZodDefault(inner, _) => BareEnum(registry, inner)
    case ZodEffects(inner, _) => BareEnum(registry, inner)
    case _ => false
  }

  // No type the generator refuses.
  predicate Compilable(z: Zod)
    decreases z
  {
    match z.def
    case ZodNullable(inner) => Compilable(inner)
    case ZodOptional(inner) => Compilable(inner)
    case ZodDefault(inner, _) => Compilable(inner)
    case ZodEffects(inner, _) => Compilable(inner)
    case ZodArray(element, _, _, _) => Compilable(element)
    case ZodRecord(valueType, _, _) => Compilable(valueType)
    case ZodUnion(options) => forall i :: 0 <= i < |options| ==> Compilable(options[i])
    case ZodDiscriminatedUnion(_, options) => forall i :: 0 <= i < |options| ==> Compilable(options[i])
    case ZodObject(shape, _, _) => forall i :: 0 <= i < |shape| ==> Compilable(shape[i].schema)
    case Unsupported(_) => false
    case _ => true
  }

  lemma {:induction false} CompilableCompiles(rules: Rules, registry: Registry, z: Zod, skipRef: bool)
    requires Compilable(z)
    ensures Compile(rules, registry, z, skipRef).Ok?
    decreases z
  {
    hide IsOptional;
    match z.def
    case ZodNullable(inner) => CompilableCompiles(rules, registry, inner, false);
    case ZodOptional(inner) => CompilableCompiles(rules, registry, inner, false);
    case ZodDefault(inner, _) => CompilableCompiles(rules, registry, inner, false);
    case ZodEffects(inner, _) => CompilableCompiles(rules, registry, inner, false);
    case ZodArray(element, _, _, _) => CompilableCompiles(rules, registry, element, false);
    case ZodRecord(valueType, _, _) => CompilableCompiles(rules, registry, valueType, false);
    case ZodUnion(options) =>
      forall i | 0 <= i < |options| { CompilableCompiles(rules, registry, options[i], false); }
    case ZodDiscriminatedUnion(_, options) =>
      forall i | 0 <= i < |options| { CompilableCompiles(rules, registry, options[i], false); }
    case ZodObject(shape, _, _) =>
      forall i | 0 <= i < |shape| { CompilableCompiles(rules, registry, shape[i].schema, false); }
    case _ =>
  }

  // Without components just these schemas compile.
  lemma {:induction false} CompiledIsCompilable(rules: Rules, z: Zod)
    requires Compile(rules, map[], z, false).Ok?
    ensures Compilable(z)
    decreases z
  {
    hide IsOptional;
    match z.def
    case ZodNullable(inner) => CompiledIsCompilable(rules, inner);
    case ZodOptional(inner) => CompiledIsCompilable(rules, inner);
    case ZodDefault(inner, _) => CompiledIsCompilable(rules, inner);
    case ZodEffects(inner, _) => CompiledIsCompilable(rules, inner);
    case ZodArray(element, _, _, _) => CompiledIsCompilable(rules, element);
    case ZodRecord(valueType, _, _) => CompiledIsCompilable(rules, valueType);
    case ZodUnion(options) =>
      forall i | 0 <= i < |options| { CompiledIsCompilable(rules, options[i]); }
    case ZodDiscriminatedUnion(_, options) =>
      forall i | 0 <= i < |options| { CompiledIsCompilable(rules, options[i]); }
    case ZodObject(shape, _, _) =>
      forall i | 0 <= i < |shape| { CompiledIsCompilable(rules, shape[i].schema); }
    case _ =>
  }

  // A compiled schema with a single type asserts nothing else about null, except an enum.
  lemma {:induction false} CompiledShape(rules: Rules, registry: Registry, z: Zod, s: Schema)
    requires Compile(rules, registry, z, false) == Ok(s)
    ensures s.typ.One? ==> s.ref.None? && s.constant.None? && s.anyOf.NoSchemas? && s.oneOf.NoSchemas?
    ensures s.typ.One? && s.enumeration.Some? <==> BareEnum(registry, z)
    ensures s.typ.One? && s.enumeration.Some? ==> Null !in s.enumeration.value
    decreases z
  {
    hide IsOptional, CompileAll, CompileFields;
    if !Named(registry, z) {
      match z.def
      case ZodOptional(inner) => CompiledShape(rules, registry, inner, s);
      case ZodDefault(inner, _) => CompiledShape(rules, registry, inner, s);
      case ZodEffects(inner, _) => CompiledShape(rules, registry, inner, s);
      case ZodNullable(inner) =>
      case _ =>
    }
  }

  // So null passes a nullable's schema exactly when the inner one is no bare enum.
  lemma CompiledLetsNullPass(rules: Rules, registry: Registry, env: Env, z: Zod, s: Schema)
    requires Compile(rules, registry, z, false) == Ok(s)
    ensures s.ref.Some? || !s.typ.One? || Accepts(env, s.(typ := AnyType), Null) <==> !BareEnum(registry, z)
  {
    hide BareEnum, Compile;
    CompiledShape(rules, registry, z, s);
  }

  // --- what they mean ---

  predicate MeetsMinLength(checks: seq<StringCheck>, s: string) {
    LastMinLength(checks).Some? ==> |s| >= LastMinLength(checks).value
  }

  predicate MeetsNumber(checks: seq<NumberCheck>, n: real) {
    && (IsInt in checks ==> n == n.Floor as real)
    && (LastMin(checks).Some? ==> n >= LastMin(checks).value)
  }

  ghost predicate RequiredNowhere(rules: Rules, shape: seq<Field>, key: string) {
    forall i :: 0 <= i < |shape| && shape[i].key == key ==> IsOptional(rules, shape[i].schema)
  }

  // The values that the schema compiled from `z` accepts, in a document with these components.
  ghost predicate Means(rules: Rules, registry: Registry, z: Zod, v: Json)
    decreases z
  {
    match z.def
    case ZodString(checks, _) => v.Str? && MeetsMinLength(checks, v.s)
    case ZodNumber(checks, _) => v.Num? && MeetsNumber(checks, v.n)
    case ZodBoolean(_) => v.Bool?
    case ZodDate(_, _) => v.Str?
    case ZodAny(_) => true
    case ZodLiteral(value) => v == value
    case ZodEnum(values, _) => v.Str? && v.s in values
    case ZodNullable(inner) => (v == Null && !BareEnum(registry, inner)) || Means(rules, registry, inner, v)
    case ZodOptional(inner) => Means(rules, registry, inner, v)
    case ZodDefault(inner, _) => Means(rules, registry, inner, v)
    case ZodEffects(inner, _) => Means(rules, registry, inner, v)
    case ZodArray(element, minLength, _, _) =>
      && v.Arr? && (minLength.Some? ==> |v.items| >= minLength.value)
      && forall i :: 0 <= i < |v.items| ==> Means(rules, registry, element, v.items[i])
    case ZodRecord(valueType, _, _) =>
      v.Obj? && forall k :: k in v.fields ==> Means(rules, registry, valueType, v.fields[k])
    case ZodUnion(options) =>
      exists i :: 0 <= i < |options| && Means(rules, registry, options[i], v)
        && forall j :: 0 <= j < |options| && j != i ==> !Means(rules, registry, options[j], v)
    case ZodDiscriminatedUnion(_, options) =>
      exists i :: 0 <= i < |options| && Means(rules, registry, options[i], v)
        && forall j :: 0 <= j < |options| && j != i ==> !Means(rules, registry, options[j], v)
    case ZodObject(shape, _, _) =>
      && v.Obj?
      && forall i :: 0 <= i < |shape| ==>
           if shape[i].key in v.fields then Means(rules, registry, shape[i].schema, v.fields[shape[i].key])
           else RequiredNowhere(rules, shape, shape[i].key)
    case Unsupported(_) => false
  }

  // What a schema accepts in a document with components, and when nothing is shared.
  ghost predicate Shared(rules: Rules, registry: Registry, env: Env, z: Zod, skipRef: bool, v: Json) {
    var r := Compile(rules, registry, z, skipRef);
    r.Ok? && Accepts(env, r.value, v)
  }

  predicate NoReferences(name: string, v: Json) {
    false
  }

  ghost predicate Unshared(rules: Rules, z: Zod, v: Json) {
    Shared(rules, map[], NoReferences, z, false, v)
  }

  // Every reference stands for its component: the schema compiled with `skipRef`.
  ghost predicate Resolves(rules: Rules, registry: Registry, env: Env) {
    forall z, v | z in registry && Named(registry, z) ::
      env(Reference(registry[z]), v) == Shared(rules, registry, env, z, true, v)
  }

  // Every reference stands for what its schema means.
  ghost predicate StandsFor(rules: Rules, registry: Registry, env: Env) {
    forall z, v | z in registry && Named(registry, z) ::
      env(Reference(registry[z]), v) == Means(rules, registry, z, v)
  }

  // A node that is written out here: not a reference.
  predicate WrittenOut(registry: Registry, z: Zod, skipRef: bool) {
    skipRef || !Named(registry, z)
  }

  // --- one node, given what its parts mean ---

  lemma ScalarIsMeant(rules: Rules, registry: Registry, env: Env, z: Zod, skipRef: bool, v: Json)
    requires WrittenOut(registry, z, skipRef)
    requires z.def.ZodString? || z.def.ZodNumber? || z.def.ZodBoolean? || z.def.ZodDate?
          || z.def.ZodAny? || z.def.ZodLiteral? || z.def.ZodEnum?
    ensures Shared(rules, registry, env, z, skipRef, v) <==> Means(rules, registry, z, v)
  {
    hide Accepts, Means;
    ScalarMeans(rules, registry, z, v);
    if z.def.ZodString? || z.def.ZodNumber? {
      CheckedAccepts(rules, registry, env, z, skipRef, v);
    } else {
      UncheckedAccepts(rules, registry, env, z, skipRef, v);
    }
  }

  lemma CheckedAccepts(rules: Rules, registry: Registry, env: Env, z: Zod, skipRef: bool, v: Json)
    requires WrittenOut(registry, z, skipRef)
    ensures z.def.ZodString? ==> (Shared(rules, registry, env, z, skipRef, v) <==> v.Str? && MeetsMinLength(z.def.checks, v.s))
    ensures z.def.ZodNumber? ==> (Shared(rules, registry, env, z, skipRef, v) <==> v.Num? && MeetsNumber(z.def.numberChecks, v.n))
  {
    hide Accepts, LastMin, LastMinLength, Named;
    if z.def.ZodString? || z.def.ZodNumber? {
      ScalarMeaning(env, Compile(rules, registry, z, skipRef).value, v);
    }
  }

  lemma UncheckedAccepts(rules: Rules, registry: Registry, env: Env, z: Zod, skipRef: bool, v: Json)
    requires WrittenOut(registry, z, skipRef)
    ensures z.def.ZodBoolean? ==> (Shared(rules, registry, env, z, skipRef, v) <==> v.Bool?)
    ensures z.def.ZodDate? ==> (Shared(rules, registry, env, z, skipRef, v) <==> v.Str?)
    ensures z.def.ZodAny? ==> Shared(rules, registry, env, z, skipRef, v)
    ensures z.def.ZodLiteral? ==> (Shared(rules, registry, env, z, skipRef, v) <==> v == z.def.value)
    ensures z.def.ZodEnum? ==> (Shared(rules, registry, env, z, skipRef, v) <==> v.Str? && v.s in z.def.values)
  {
    hide Accepts, Named;
    if z.def.ZodBoolean? || z.def.ZodDate? || z.def.ZodAny? || z.def.ZodLiteral? || z.def.ZodEnum? {
      ScalarMeaning(env, Compile(rules, registry, z, skipRef).value, v);
      if z.def.ZodEnum? {
        EnumMembership(z.def.values, v);
      }
    }
  }

  lemma ScalarMeans(rules: Rules, registry: Registry, z: Zod, v: Json)
    ensures z.def.ZodString? ==> (Means(rules, registry, z, v) <==> v.Str? && MeetsMinLength(z.def.checks, v.s))
    ensures z.def.ZodNumber? ==> (Means(rules, registry, z, v) <==> v.Num? && MeetsNumber(z.def.numberChecks, v.n))
    ensures z.def.ZodBoolean? ==> (Means(rules, registry, z, v) <==> v.Bool?)
    ensures z.def.ZodDate? ==> (Means(rules, registry, z, v) <==> v.Str?)
    ensures z.def.ZodAny? ==> Means(rules, registry, z, v)
    ensures z.def.ZodLiteral? ==> (Means(rules, registry, z, v) <==> v == z.def.value)
    ensures z.def.ZodEnum? ==> (Means(rules, registry, z, v) <==> v.Str? && v.s in z.def.values)
  {
  }

  lemma EnumMembership(values: seq<string>, v: Json)
    ensures v in EnumValues(values) <==> v.Str? && v.s in values
  {
    if v.Str? && v.s in values {
      var i :| 0 <= i < |values| && values[i] == v.s;
      assert EnumValues(values)[i] == v;
    }
  }

  lemma NullableIsMeant(rules: Rules, registry: Registry, env: Env, z: Zod, skipRef: bool, v: Json)
    requires WrittenOut(registry, z, skipRef) && Compilable(z) && z.def.ZodNullable?
    requires Shared(rules, registry, env, z.def.inner, false, v) <==> Means(rules, registry, z.def.inner, v)
    ensures Shared(rules, registry, env, z, skipRef, v) <==> Means(rules, registry, z, v)
  {
    hide Accepts, WithNull, BareEnum, IsOptional;
    var inner := z.def.inner;
    CompilableCompiles(rules, registry, inner, false);
    var s := Compile(rules, registry, inner, false).value;
    CompiledLetsNullPass(rules, registry, env, inner, s);
    WithNullMeaning(env, s, v);
  }

  lemma WrapperIsMeant(rules: Rules, registry: Registry, env: Env, z: Zod, skipRef: bool, v: Json)
    requires WrittenOut(registry, z, skipRef)
    requires z.def.ZodOptional? || z.def.ZodDefault? || z.def.ZodEffects?
    requires Shared(rules, registry, env, z.def.inner, false, v) <==> Means(rules, registry, z.def.inner, v)
    ensures Shared(rules, registry, env, z, skipRef, v) <==> Means(rules, registry, z, v)
  {
    hide Accepts, IsOptional;
  }

  lemma ArrayIsMeant(rules: Rules, registry: Registry, env: Env, z: Zod, skipRef: bool, v: Json)
    requires WrittenOut(registry, z, skipRef) && Compilable(z) && z.def.ZodArray?
    requires v.Arr? ==> forall i :: 0 <= i < |v.items| ==>
      (Shared(rules, registry, env, z.def.element, false, v.items[i]) <==> Means(rules, registry, z.def.element, v.items[i]))
    ensures Shared(rules, registry, env, z, skipRef, v) <==> Means(rules, registry, z, v)
  {
    hide Accepts, ArraySchema, Describe, IsOptional;
    var e := z.def.element;
    CompilableCompiles(rules, registry, e, false);
    var s := Compile(rules, registry, e, false).value;
    DescriptionMeansNothing(env, ArraySchema(s, z.def.minLength), z.def.description, v);
    ArrayMeaning(env, s, z.def.minLength, v);
    if v.Arr? {
      forall i | 0 <= i < |v.items|
        ensures Accepts(env, s, v.items[i]) <==> Means(rules, registry, e, v.items[i])
      {
        assert Shared(rules, registry, env, e, false, v.items[i]) <==> Means(rules, registry, e, v.items[i]);
      }
    }
  }

  lemma RecordIsMeant(rules: Rules, registry: Registry, env: Env, z: Zod, skipRef: bool, v: Json)
    requires WrittenOut(registry, z, skipRef) && Compilable(z) && z.def.ZodRecord?
    requires v.Obj? ==> forall k :: k in v.fields ==>
      (Shared(rules, registry, env, z.def.valueType, false, v.fields[k]) <==> Means(rules, registry, z.def.valueType, v.fields[k]))
    ensures Shared(rules, registry, env, z, skipRef, v) <==> Means(rules, registry, z, v)
  {
    hide Accepts, RecordSchema, Describe, IsOptional;
    var e := z.def.valueType;
    CompilableCompiles(rules, registry, e, false);
    var s := Compile(rules, registry, e, false).value;
    DescriptionMeansNothing(env, RecordSchema(s), z.def.description, v);
    RecordMeaning(env, s, v);
    if v.Obj? {
      forall k | k in v.fields
        ensures Accepts(env, s, v.fields[k]) <==> Means(rules, registry, e, v.fields[k])
      {
        assert Shared(rules, registry, env, e, false, v.fields[k]) <==> Means(rules, registry, e, v.fields[k]);
      }
    }
  }

  // One of the options accepts and no other does.
  ghost predicate OneMeans(rules: Rules, registry: Registry, options: seq<Zod>, v: Json) {
    exists i :: 0 <= i < |options| && Means(rules, registry, options[i], v)
      && forall j :: 0 <= j < |options| && j != i ==> !Means(rules, registry, options[j], v)
  }

  lemma UnionMeans(rules: Rules, registry: Registry, z: Zod, v: Json)
    requires z.def.ZodUnion? || z.def.ZodDiscriminatedUnion?
    ensures Means(rules, registry, z, v) <==> OneMeans(rules, registry, z.def.options, v)
  {
  }

  lemma UnionIsMeant(rules: Rules, registry: Registry, env: Env, z: Zod, skipRef: bool, v: Json)
    requires WrittenOut(registry, z, skipRef) && Compilable(z)
    requires z.def.ZodUnion? || z.def.ZodDiscriminatedUnion?
    requires forall i :: 0 <= i < |z.def.options| ==>
      (Shared(rules, registry, env, z.def.options[i], false, v) <==> Means(rules, registry, z.def.options[i], v))
    ensures Shared(rules, registry, env, z, skipRef, v) <==> Means(rules, registry, z, v)
  {
    hide Accepts, Means, IsOptional, ExactlyOne, OneMeans;
    var options := z.def.options;
    var d := if z.def.ZodUnion? then None else Some(z.def.discriminator);
    CompilableCompiles(rules, registry, z, skipRef);
    var ss := CompileAll(rules, registry, options).value;
    OneOfMeaning(env, ss, d, v);
    UnionMeans(rules, registry, z, v);
    forall i | 0 <= i < |options|
      ensures Accepts(env, ss[i], v) <==> Means(rules, registry, options[i], v)
    {
      assert Shared(rules, registry, env, options[i], false, v) <==> Means(rules, registry, options[i], v);
    }
    ExactlyOneMeans(rules, registry, env, options, ss, v);
  }

  lemma ExactlyOneMeans(rules: Rules, registry: Registry, env: Env, options: seq<Zod>, ss: seq<Schema>, v: Json)
    requires |ss| == |options|
    requires forall i :: 0 <= i < |ss| ==> (Accepts(env, ss[i], v) <==> Means(rules, registry, options[i], v))
    ensures ExactlyOne(env, ss, v) <==> OneMeans(rules, registry, options, v)
  {
    hide Accepts, Means;
  }

  lemma ObjectIsMeant(rules: Rules, registry: Registry, env: Env, z: Zod, skipRef: bool, v: Json)
    requires WrittenOut(registry, z, skipRef) && Compilable(z) && z.def.ZodObject?
    requires v.Obj? ==> forall i :: 0 <= i < |z.def.shape| && z.def.shape[i].key in v.fields ==>
      var f := z.def.shape[i];
      (Shared(rules, registry, env, f.schema, false, v.fields[f.key]) <==> Means(rules, registry, f.schema, v.fields[f.key]))
    ensures Shared(rules, registry, env, z, skipRef, v) <==> Means(rules, registry, z, v)
  {
    hide Accepts, ObjectSchema, Describe, IsOptional;
    var shape := z.def.shape;
    CompilableCompiles(rules, registry, z, skipRef);
    var required := RequiredKeys(rules, shape);
    var ps := CompileFields(rules, registry, shape).value;
    DescriptionMeansNothing(env, ObjectSchema(ps, required), z.def.description, v);
    ObjectMeaning(env, ps, required, v);
    if v.Obj? {
      forall i | 0 <= i < |shape|
        ensures ps[i].name == shape[i].key
        ensures shape[i].key in v.fields ==>
                  (Accepts(env, ps[i].schema, v.fields[shape[i].key]) <==> Means(rules, registry, shape[i].schema, v.fields[shape[i].key]))
        ensures RequiredNowhere(rules, shape, shape[i].key) <==> shape[i].key !in required
      {
        var f := shape[i];
        assert f.key in v.fields ==>
            (Shared(rules, registry, env, f.schema, false, v.fields[f.key]) <==> Means(rules, registry, f.schema, v.fields[f.key]));
      }
    }
  }

  lemma ReferenceIsItsEnv(rules: Rules, registry: Registry, env: Env, z: Zod, v: Json)
    requires Named(registry, z)
    ensures Shared(rules, registry, env, z, false, v) <==> env(Reference(registry[z]), v)
  {
    hide Accepts;
    ReferenceMeaning(env, registry[z], v);
  }

  // In any document whose references stand for their components, a compiled schema accepts just the
  // values it means.
  lemma {:induction false} SharedIsMeant(rules: Rules, registry: Registry, env: Env, z: Zod, skipRef: bool, v: Json)
    requires Compilable(z) && (Resolves(rules, registry, env) || StandsFor(rules, registry, env))
    ensures Shared(rules, registry, env, z, skipRef, v) <==> Means(rules, registry, z, v)
    decreases z, if skipRef then 1 else 2
  {
    hide Shared, Means;
    if WrittenOut(registry, z, skipRef) {
      NodeIsMeant(rules, registry, env, z, skipRef, v);
    } else {
      ReferenceIsItsEnv(rules, registry, env, z, v);
      if Resolves(rules, registry, env) {
        SharedIsMeant(rules, registry, env, z, true, v);
      }
    }
  }

  lemma {:induction false} NodeIsMeant(rules: Rules, registry: Registry, env: Env, z: Zod, skipRef: bool, v: Json)
    requires Compilable(z) && (Resolves(rules, registry, env) || StandsFor(rules, registry, env))
    requires WrittenOut(registry, z, skipRef)
    ensures Shared(rules, registry, env, z, skipRef, v) <==> Means(rules, registry, z, v)
    decreases z, 0
  {
    hide Shared, Means, Resolves, StandsFor;
    match z.def
    case ZodNullable(inner) =>
      SharedIsMeant(rules, registry, env, inner, false, v);
      NullableIsMeant(rules, registry, env, z, skipRef, v);
    case ZodOptional(inner) =>
      SharedIsMeant(rules, registry, env, inner, false, v);
      WrapperIsMeant(rules, registry, env, z, skipRef, v);
    case ZodDefault(inner, _) =>
      SharedIsMeant(rules, registry, env, inner, false, v);
      WrapperIsMeant(rules, registry, env, z, skipRef, v);
    case ZodEffects(inner, _) =>
      SharedIsMeant(rules, registry, env, inner, false, v);
      WrapperIsMeant(rules, registry, env, z, skipRef, v);
    case ZodArray(element, _, _, _) =>
      if v.Arr? {
        forall i | 0 <= i < |v.items| { SharedIsMeant(rules, registry, env, element, false, v.items[i]); }
      }
      ArrayIsMeant(rules, registry, env, z, skipRef, v);
    case ZodRecord(valueType, _, _) =>
      if v.Obj? {
        forall k | k in v.fields { SharedIsMeant(rules, registry, env, valueType, false, v.fields[k]); }
      }
      RecordIsMeant(rules, registry, env, z, skipRef, v);
    case ZodUnion(options) =>
      forall i | 0 <= i < |options| { SharedIsMeant(rules, registry, env, options[i], false, v); }
      UnionIsMeant(rules, registry, env, z, skipRef, v);
    case ZodDiscriminatedUnion(_, options) =>
      forall i | 0 <= i < |options| { SharedIsMeant(rules, registry, env, options[i], false, v); }
      UnionIsMeant(rules, registry, env, z, skipRef, v);
    case ZodObject(shape, _, _) =>
      if v.Obj? {
        forall i | 0 <= i < |shape| && shape[i].key in v.fields {
          SharedIsMeant(rules, registry, env, shape[i].schema, false, v.fields[shape[i].key]);
        }
      }
      ObjectIsMeant(rules, registry, env, z, skipRef, v);
    case _ =>
      ScalarIsMeant(rules, registry, env, z, skipRef, v);
  }

  lemma UnsharedIsMeant(rules: Rules, z: Zod, v: Json)
    requires Compilable(z)
    ensures Unshared(rules, z, v) <==> Means(rules, map[], z, v)
  {
    hide Means, Shared;
    SharedIsMeant(rules, map[], NoReferences, z, false, v);
  }
}
