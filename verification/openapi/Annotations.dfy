/** What a compiled schema says beside its assertions, and what a failed compilation says. */
module Annotations {
  import opened Prelude
  import opened Json
  import opened JsonSchema
  import opened Zod
  import opened ZodCompiler
  import opened ZodMeaning

  // --- annotations ---

  // The description a schema carries itself; an empty one counts as none.
  function OwnDescription(z: Zod): Option<string> {
    var d := match z.def
      case ZodString(_, d) => d
      case ZodNumber(_, d) => d
      case ZodBoolean(d) => d
      case ZodDate(_, d) => d
      case ZodAny(d) => d
      case ZodEnum(_, d) => d
      case ZodArray(_, _, _, d) => d
      case ZodRecord(_, _, d) => d
      case ZodObject(_, _, d) => d
      case _ => None;
    if d == Some("") then None else d
  }

  predicate IsWrapper(z: Zod) {
    z.def.ZodOptional? || z.def.ZodDefault? || z.def.ZodEffects?
  }

  // A schema written out carries its own description, a date its format, a discriminated union its
  // discriminator; a wrapper carries what it wraps.
  lemma AnnotationsAreCarried(rules: Rules, registry: Registry, z: Zod, skipRef: bool, s: Schema)
    requires WrittenOut(registry, z, skipRef) && Compile(rules, registry, z, skipRef) == Ok(s)
    ensures IsWrapper(z) ==> Compile(rules, registry, z.def.inner, false) == Ok(s)
    ensures !IsWrapper(z) && !z.def.ZodNullable? ==>
              && s.description == OwnDescription(z)
              && s.format == (if z.def.ZodDate? then Some("date-time") else None)
              && s.discriminator == (if z.def.ZodDiscriminatedUnion? then Some(z.def.discriminator) else None)
  {
    hide StringSchema, NumberSchema, CompileAll, CompileFields, RequiredKeys;
    ScalarsSayNothing(z);
  }

  lemma ScalarsSayNothing(z: Zod)
    ensures z.def.ZodString? ==> Silent(StringSchema(z.def.checks))
    ensures z.def.ZodNumber? ==> Silent(NumberSchema(z.def.numberChecks))
  {
  }

  predicate Silent(s: Schema) {
    s.ref.None? && s.description.None? && s.format.None? && s.discriminator.None?
  }

  // A nullable keeps the annotations of a schema with a single type, and holds any other unchanged.
  lemma NullableKeeps(rules: Rules, registry: Registry, z: Zod, skipRef: bool, inner: Schema, s: Schema)
    requires WrittenOut(registry, z, skipRef) && z.def.ZodNullable?
    requires Compile(rules, registry, z.def.inner, false) == Ok(inner) && Compile(rules, registry, z, skipRef) == Ok(s)
    ensures if inner.ref.None? && inner.typ.One? then
              s.description == inner.description && s.format == inner.format && s.discriminator == inner.discriminator
            else Silent(s) && s.anyOf == Schemas([inner, NULL])
  {
  }

  // --- minimums ---

  predicate LastMinLengthAt(checks: seq<StringCheck>, i: nat) {
    i < |checks| && checks[i].MinLength? && forall j :: i < j < |checks| ==> !checks[j].MinLength?
  }

  predicate LastMinAt(checks: seq<NumberCheck>, i: nat) {
    i < |checks| && checks[i].Min? && forall j :: i < j < |checks| ==> !checks[j].Min?
  }

  // The minimum written is that of the last `min`, whatever checks stand around it, exclusive or not.
  lemma MinimumIsTheLast(rules: Rules, registry: Registry, z: Zod, skipRef: bool, s: Schema)
    requires WrittenOut(registry, z, skipRef) && Compile(rules, registry, z, skipRef) == Ok(s)
    ensures z.def.ZodString? ==>
              && (forall i: nat :: LastMinLengthAt(z.def.checks, i) ==> s.minLength == Some(z.def.checks[i].value))
              && ((forall i :: 0 <= i < |z.def.checks| ==> !z.def.checks[i].MinLength?) ==> s.minLength == None)
    ensures z.def.ZodNumber? ==>
              && (forall i: nat :: LastMinAt(z.def.numberChecks, i) ==> s.minimum == Some(z.def.numberChecks[i].value))
              && ((forall i :: 0 <= i < |z.def.numberChecks| ==> !z.def.numberChecks[i].Min?) ==> s.minimum == None)
    ensures z.def.ZodArray? ==> s.minItems == z.def.minLength
  {
    hide LastMin, LastMinLength, CompileAll, CompileFields, RequiredKeys, LastMinAt, LastMinLengthAt;
    if z.def.ZodString? {
      LastMinLengthIs(z.def.checks);
    } else if z.def.ZodNumber? {
      LastMinIs(z.def.numberChecks);
    }
  }

  lemma {:induction false} LastMinLengthIs(checks: seq<StringCheck>)
    ensures forall i: nat :: LastMinLengthAt(checks, i) ==> LastMinLength(checks) == Some(checks[i].value)
    ensures (forall i :: 0 <= i < |checks| ==> !checks[i].MinLength?) ==> LastMinLength(checks) == None
  {
    if checks != [] {
      var n := |checks| - 1;
      LastMinLengthIs(checks[..n]);
      assert forall i: nat :: LastMinLengthAt(checks, i) && i < n ==> LastMinLengthAt(checks[..n], i) && checks[n].OtherString?;
    }
  }

  lemma {:induction false} LastMinIs(checks: seq<NumberCheck>)
    ensures forall i: nat :: LastMinAt(checks, i) ==> LastMin(checks) == Some(checks[i].value)
    ensures (forall i :: 0 <= i < |checks| ==> !checks[i].Min?) ==> LastMin(checks) == None
  {
    if checks != [] {
      var n := |checks| - 1;
      LastMinIs(checks[..n]);
      assert forall i: nat :: LastMinAt(checks, i) && i < n ==> LastMinAt(checks[..n], i) && !checks[n].Min?;
    }
  }

  // An object's `required` is left out rather than empty.
  lemma RequiredIsNotEmpty(rules: Rules, registry: Registry, z: Zod, skipRef: bool, s: Schema)
    requires WrittenOut(registry, z, skipRef) && Compile(rules, registry, z, skipRef) == Ok(s) && z.def.ZodObject?
    ensures s.required.None? <==> forall i :: 0 <= i < |z.def.shape| ==> IsOptional(rules, z.def.shape[i].schema)
    ensures s.required != Some([])
  {
    hide IsOptional, CompileFields, RequiredKeys;
    NothingIsRequired(rules, z.def.shape);
  }

  lemma NothingIsRequired(rules: Rules, shape: seq<Field>)
    ensures RequiredKeys(rules, shape) == [] <==> forall i :: 0 <= i < |shape| ==> IsOptional(rules, shape[i].schema)
  {
    hide IsOptional, RequiredKeys;
    var keys := RequiredKeys(rules, shape);
    if keys != [] {
      assert keys[0] in keys;
    } else {
      forall i | 0 <= i < |shape|
        ensures IsOptional(rules, shape[i].schema)
      {
        assert shape[i].key !in keys;
      }
    }
  }

  // --- failures ---

  // A part that the compiler visits has an unsupported type of that name.
  predicate Refuses(registry: Registry, z: Zod, skipRef: bool, typeName: string)
    decreases z
  {
    WrittenOut(registry, z, skipRef) &&
    match z.def
    case ZodNullable(inner) => Refuses(registry, inner, false, typeName)
    case ZodOptional(inner) => Refuses(registry, inner, false, typeName)
    case ZodDefault(inner, _) => Refuses(registry, inner, false, typeName)
    case ZodEffects(inner, _) => Refuses(registry, inner, false, typeName)
    case ZodArray(element, _, _, _) => Refuses(registry, element, false, typeName)
    case ZodRecord(valueType, _, _) => Refuses(registry, valueType, false, typeName)
    case ZodUnion(options) => exists i :: 0 <= i < |options| && Refuses(registry, options[i], false, typeName)
    case ZodDiscriminatedUnion(_, options) => exists i :: 0 <= i < |options| && Refuses(registry, options[i], false, typeName)
    case ZodObject(shape, _, _) => exists i :: 0 <= i < |shape| && Refuses(registry, shape[i].schema, false, typeName)
    case Unsupported(name) => name == typeName
    case _ => false
  }

  // A failed compilation names an unsupported type that the schema holds.
  lemma {:induction false} FailureNamesTheType(rules: Rules, registry: Registry, z: Zod, skipRef: bool) returns (typeName: string)
    requires Compile(rules, registry, z, skipRef).Err?
    ensures Compile(rules, registry, z, skipRef).error == "openapi: unsupported zod type " + typeName
    ensures Refuses(registry, z, skipRef, typeName)
    decreases z, 1
  {
    hide IsOptional, CompileAll, CompileFields;
    match z.def
    case ZodNullable(inner) => typeName := FailureNamesTheType(rules, registry, inner, false);
    case ZodOptional(inner) => typeName := FailureNamesTheType(rules, registry, inner, false);
    case ZodDefault(inner, _) => typeName := FailureNamesTheType(rules, registry, inner, false);
    case ZodEffects(inner, _) => typeName := FailureNamesTheType(rules, registry, inner, false);
    case ZodArray(element, _, _, _) => typeName := FailureNamesTheType(rules, registry, element, false);
    case ZodRecord(valueType, _, _) => typeName := FailureNamesTheType(rules, registry, valueType, false);
    case ZodUnion(options) =>
      var i;
      i, typeName := OptionNamesTheType(rules, registry, options);
    case ZodDiscriminatedUnion(_, options) =>
      var i;
      i, typeName := OptionNamesTheType(rules, registry, options);
    case ZodObject(shape, _, _) =>
      var i;
      i, typeName := FieldNamesTheType(rules, registry, shape);
    case Unsupported(name) => typeName := name;
    case _ =>
      typeName := "";
      assert false;
  }

  lemma {:induction false} OptionNamesTheType(rules: Rules, registry: Registry, zs: seq<Zod>) returns (i: nat, typeName: string)
    requires CompileAll(rules, registry, zs).Err?
    ensures CompileAll(rules, registry, zs).error == "openapi: unsupported zod type " + typeName
    ensures i < |zs| && Refuses(registry, zs[i], false, typeName)
    decreases zs, 0
  {
    hide Refuses, Compile;
    if Compile(rules, registry, zs[0], false).Err? {
      i := 0;
      typeName := FailureNamesTheType(rules, registry, zs[0], false);
    } else {
      i, typeName := OptionNamesTheType(rules, registry, zs[1..]);
      i := i + 1;
    }
  }

  lemma {:induction false} FieldNamesTheType(rules: Rules, registry: Registry, shape: seq<Field>) returns (i: nat, typeName: string)
    requires CompileFields(rules, registry, shape).Err?
    ensures CompileFields(rules, registry, shape).error == "openapi: unsupported zod type " + typeName
    ensures i < |shape| && Refuses(registry, shape[i].schema, false, typeName)
    decreases shape, 0
  {
    hide Refuses, Compile;
    if Compile(rules, registry, shape[0].schema, false).Err? {
      i := 0;
      typeName := FailureNamesTheType(rules, registry, shape[0].schema, false);
    } else {
      i, typeName := FieldNamesTheType(rules, registry, shape[1..]);
      i := i + 1;
    }
  }
}
