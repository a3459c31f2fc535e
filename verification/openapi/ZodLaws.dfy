/** The compiler is sound: what a Zod schema accepts, its JSON Schema accepts. */
module ZodLaws {
  import opened Prelude
  import opened Json
  import opened JsonSchema
  import opened Zod
  import opened ZodCompiler
  import opened SchemaMeaning
  import opened ZodMeaning

  // --- lengths: Zod counts code units, JSON Schema counts characters ---

  // Every `min` check of a string asks for at most `n` code units.
  predicate MinsAtMost(checks: seq<StringCheck>, n: int) {
    forall i :: 0 <= i < |checks| && checks[i].MinLength? ==> checks[i].value <= n
  }

  // How few characters can have that many code units.
  function FewestCharacters(units: int): int {
    if units <= 0 then 0 else (units + 1) / 2
  }

  // The largest minimum, given that there is one.
  function LargestMin(checks: seq<StringCheck>): Option<int> {
    if checks == [] then None
    else
      var rest := LargestMin(checks[..|checks| - 1]);
      match checks[|checks| - 1]
      case OtherString(_) => rest
      case MinLength(n) => if rest.Some? && rest.value > n then rest else Some(n)
  }

  lemma {:induction false} LargestMinIsLargest(checks: seq<StringCheck>)
    ensures LargestMin(checks).Some? <==> LastMinLength(checks).Some?
    ensures LargestMin(checks).None? ==> forall i :: 0 <= i < |checks| ==> !checks[i].MinLength?
    ensures LargestMin(checks).Some? ==>
              && MinsAtMost(checks, LargestMin(checks).value)
              && MinLength(LargestMin(checks).value) in checks
              && MinLength(LastMinLength(checks).value) in checks
  {
    if checks != [] {
      var init := checks[..|checks| - 1];
      LargestMinIsLargest(init);
      assert checks == init + [checks[|checks| - 1]];
      assert forall i :: 0 <= i < |init| ==> checks[i] == init[i];
    }
  }

  // The compiled `minLength` asks for no more characters than any string of the required code
  // units has. It holds for `min(1)`, and fails for `min(2)`.
  predicate LengthSafe(checks: seq<StringCheck>) {
    var last, largest := LastMinLength(checks), LargestMin(checks);
    last.None? || largest.None? || last.value <= FewestCharacters(largest.value)
  }

  predicate LongEnough(checks: seq<StringCheck>, s: string) {
    forall i :: 0 <= i < |checks| && checks[i].MinLength? ==> Utf16Length(s) >= checks[i].value
  }

  function Astral(n: nat): (s: string)
    ensures |s| == n && Utf16Length(s) == 2 * n
  {
    if n == 0 then "" else ['\U{10000}'] + Astral(n - 1)
  }

  // The compiled length is met by every string Zod takes exactly when it is length safe.
  lemma LengthSafeIsExact(checks: seq<StringCheck>)
    ensures LengthSafe(checks) <==> forall s :: LongEnough(checks, s) ==> MeetsMinLength(checks, s)
  {
    LargestMinIsLargest(checks);
    var last, largest := LastMinLength(checks), LargestMin(checks);
    if last.Some? {
      if LengthSafe(checks) {
        forall s | LongEnough(checks, s)
          ensures MeetsMinLength(checks, s)
        {
        }
      } else {
        var s := Astral(FewestCharacters(largest.value));
        assert LongEnough(checks, s);
        assert !MeetsMinLength(checks, s);
      }
    }
  }

  // `z.string().min(2)` takes one character outside the basic plane, its JSON Schema does not.
  lemma MinTwoIsUnsound(rules: Rules)
    ensures var z := Zod(0, ZodString([MinLength(2)], None));
            var v := Str(Astral(1));
            Parses(rules, z, Some(v)) && !Unshared(rules, z, v)
  {
    hide Shared;
    var z := Zod(0, ZodString([MinLength(2)], None));
    assert LastMinLength([MinLength(2)]) == Some(2);
    UnsharedIsMeant(rules, z, Str(Astral(1)));
  }

  lemma BasicPlaneIsLongEnough(checks: seq<StringCheck>, s: string)
    requires LongEnough(checks, s) && (BasicPlane(s) || LengthSafe(checks))
    ensures MeetsMinLength(checks, s)
  {
    if LastMinLength(checks).Some? {
      LargestMinIsLargest(checks);
      if BasicPlane(s) {
        BasicPlaneLength(s);
        var i :| 0 <= i < |checks| && checks[i] == MinLength(LastMinLength(checks).value);
        assert Utf16Length(s) >= checks[i].value;
      } else {
        LengthSafeIsExact(checks);
      }
    }
  }

  // --- nullable over an enum ---

  // A nullable always takes null. Its JSON Schema does exactly when the inner schema does not
  // compile to a plain enum, whose `enum` keyword is kept.
  lemma NullableIsExact(rules: Rules, registry: Registry, env: Env, id: nat, inner: Zod)
    requires Compilable(inner) && Resolves(rules, registry, env)
    ensures Parses(rules, Zod(id, ZodNullable(inner)), Some(Null))
    ensures Shared(rules, registry, env, Zod(id, ZodNullable(inner)), true, Null) <==> !BareEnum(registry, inner)
  {
    hide Shared, BareEnum, Resolves, Compilable;
    var z := Zod(id, ZodNullable(inner));
    assert Compilable(z) by { NullableCompiles(id, inner); }
    SharedIsMeant(rules, registry, env, z, true, Null);
    EnumMeansNoNull(rules, registry, inner);
  }

  lemma NullableCompiles(id: nat, inner: Zod)
    requires Compilable(inner)
    ensures Compilable(Zod(id, ZodNullable(inner)))
  {
  }

  lemma {:induction false} EnumMeansNoNull(rules: Rules, registry: Registry, z: Zod)
    ensures BareEnum(registry, z) ==> !Means(rules, registry, z, Null)
    decreases z
  {
    hide IsOptional;
    match z.def
    case ZodOptional(inner) => EnumMeansNoNull(rules, registry, inner);
    case ZodDefault(inner, _) => EnumMeansNoNull(rules, registry, inner);
    case ZodEffects(inner, _) => EnumMeansNoNull(rules, registry, inner);
    case _ =>
  }

  // --- soundness ---

  // No value is accepted by two of the generated options.
  ghost predicate Exclusive(rules: Rules, registry: Registry, options: seq<Zod>) {
    forall v, i, j :: 0 <= i < j < |options| ==>
      !(Means(rules, registry, options[i], v) && Means(rules, registry, options[j], v))
  }

  // Each option is an object whose discriminator is a literal or an enum, and no literal is shared.
  ghost predicate Discriminates(discriminator: string, options: seq<Zod>) {
    && (forall i :: 0 <= i < |options| ==>
          options[i].def.ZodObject? && HasLiteral(options[i].def.shape, discriminator))
    && forall i, j, x :: 0 <= i < j < |options| && x in DiscriminatorValues(options[i], discriminator) ==>
          x !in DiscriminatorValues(options[j], discriminator)
  }

  predicate HasLiteral(shape: seq<Field>, key: string) {
    shape != [] &&
    if shape[0].key == key then shape[0].schema.def.ZodLiteral? || shape[0].schema.def.ZodEnum?
    else HasLiteral(shape[1..], key)
  }

  // The schemas the compiler is sound for: no nullable directly around a written-out enum, plain
  // unions are exclusive, discriminated unions discriminate, and either strings stay in the basic
  // plane or string minimums are length safe.
  ghost predicate Supported(rules: Rules, registry: Registry, z: Zod, basicPlane: bool)
    decreases z
  {
    match z.def
    case ZodString(checks, _) => basicPlane || LengthSafe(checks)
    case ZodNullable(inner) => Supported(rules, registry, inner, basicPlane) && !BareEnum(registry, inner)
    case ZodOptional(inner) => Supported(rules, registry, inner, basicPlane)
    case ZodDefault(inner, _) => Supported(rules, registry, inner, basicPlane)
    case ZodEffects(inner, _) => Supported(rules, registry, inner, basicPlane)
    case ZodArray(element, _, _, _) => Supported(rules, registry, element, basicPlane)
    case ZodRecord(valueType, _, _) => Supported(rules, registry, valueType, basicPlane)
    case ZodUnion(options) =>
      && (forall i :: 0 <= i < |options| ==> Supported(rules, registry, options[i], basicPlane))
      && Exclusive(rules, registry, options)
    case ZodDiscriminatedUnion(discriminator, options) =>
      && (forall i :: 0 <= i < |options| ==> Supported(rules, registry, options[i], basicPlane))
      && Discriminates(discriminator, options)
    case ZodObject(shape, _, _) => forall i :: 0 <= i < |shape| ==> Supported(rules, registry, shape[i].schema, basicPlane)
    case Unsupported(_) => false
    case _ => true
  }

  lemma {:induction false} SupportedIsCompilable(rules: Rules, registry: Registry, z: Zod, basicPlane: bool)
    requires Supported(rules, registry, z, basicPlane)
    ensures Compilable(z)
    decreases z
  {
    hide Exclusive, Discriminates, BareEnum, LengthSafe;
    match z.def
    case ZodNullable(inner) => SupportedIsCompilable(rules, registry, inner, basicPlane);
    case ZodOptional(inner) => SupportedIsCompilable(rules, registry, inner, basicPlane);
    case ZodDefault(inner, _) => SupportedIsCompilable(rules, registry, inner, basicPlane);
    case ZodEffects(inner, _) => SupportedIsCompilable(rules, registry, inner, basicPlane);
    case ZodArray(element, _, _, _) => SupportedIsCompilable(rules, registry, element, basicPlane);
    case ZodRecord(valueType, _, _) => SupportedIsCompilable(rules, registry, valueType, basicPlane);
    case ZodUnion(options) =>
      forall i | 0 <= i < |options| { SupportedIsCompilable(rules, registry, options[i], basicPlane); }
    case ZodDiscriminatedUnion(_, options) =>
      forall i | 0 <= i < |options| { SupportedIsCompilable(rules, registry, options[i], basicPlane); }
    case ZodObject(shape, _, _) =>
      forall i | 0 <= i < |shape| { SupportedIsCompilable(rules, registry, shape[i].schema, basicPlane); }
    case _ =>
  }

  lemma {:induction false} LastMinIsMember(checks: seq<NumberCheck>)
    ensures LastMin(checks).Some? ==>
              exists i :: 0 <= i < |checks| && checks[i].Min? && checks[i].value == LastMin(checks).value
  {
    if checks != [] {
      var init := checks[..|checks| - 1];
      LastMinIsMember(init);
      if LastMin(checks).Some? && !checks[|checks| - 1].Min? {
        var i :| 0 <= i < |init| && init[i].Min? && init[i].value == LastMin(init).value;
        assert checks[i] == init[i];
      }
    }
  }

  lemma SoundScalar(rules: Rules, registry: Registry, z: Zod, v: Json, basicPlane: bool)
    requires Supported(rules, registry, z, basicPlane) && Parses(rules, z, Some(v)) && (basicPlane ==> AllBasicPlane(v))
    requires z.def.ZodString? || z.def.ZodNumber?
    ensures Means(rules, registry, z, v)
  {
    hide LengthSafe, Utf16Length;
    if z.def.ZodString? {
      assert forall i :: 0 <= i < |z.def.checks| ==> StringCheckOk(rules, z.def.checks[i], v.s);
      BasicPlaneIsLongEnough(z.def.checks, v.s);
    } else {
      var checks := z.def.numberChecks;
      assert forall i :: 0 <= i < |checks| ==> NumberCheckOk(rules, checks[i], v.n);
      LastMinIsMember(checks);
    }
  }

  lemma SoundUnion(rules: Rules, registry: Registry, z: Zod, v: Json, i: nat)
    requires (z.def.ZodUnion? || z.def.ZodDiscriminatedUnion?) && Exclusive(rules, registry, z.def.options)
    requires i < |z.def.options| && Means(rules, registry, z.def.options[i], v)
    ensures Means(rules, registry, z, v)
  {
    hide Means;
    UnionMeans(rules, registry, z, v);
    forall j | 0 <= j < |z.def.options| && j != i
      ensures !Means(rules, registry, z.def.options[j], v)
    {
      assert 0 <= i < j < |z.def.options| || 0 <= j < i < |z.def.options|;
    }
  }

  // A generated option of a discriminated union accepts a value only by its literal.
  lemma OptionNeedsLiteral(rules: Rules, registry: Registry, option: Zod, key: string, v: Json)
    requires option.def.ZodObject? && HasLiteral(option.def.shape, key)
    requires Means(rules, registry, option, v)
    ensures v.Obj? && key in v.fields && v.fields[key] in DiscriminatorValues(option, key)
  {
    hide LiteralValues;
    var i := LiteralField(option.def.shape, key);
    var f := option.def.shape[i];
    assert !RequiredNowhere(rules, option.def.shape, key);
    assert key in v.fields;
    LiteralMembership(rules, registry, f.schema, v.fields[key]);
  }

  lemma LiteralMembership(rules: Rules, registry: Registry, z: Zod, v: Json)
    requires z.def.ZodLiteral? || z.def.ZodEnum?
    ensures v in LiteralValues(z) <==> Means(rules, registry, z, v)
    ensures v in LiteralValues(z) <==> Parses(rules, z, Some(v))
  {
    if z.def.ZodEnum? {
      assert LiteralValues(z) == EnumValues(z.def.values);
      EnumMembership(z.def.values, v);
    }
  }

  lemma {:induction false} LiteralField(shape: seq<Field>, key: string) returns (i: nat)
    requires HasLiteral(shape, key)
    ensures i < |shape| && shape[i].key == key
    ensures shape[i].schema.def.ZodLiteral? || shape[i].schema.def.ZodEnum?
    ensures FieldValues(shape, key) == LiteralValues(shape[i].schema)
  {
    if shape[0].key == key {
      i := 0;
    } else {
      var k := LiteralField(shape[1..], key);
      i := k + 1;
    }
  }

  // Discriminated unions need no assumption: no value is accepted by two generated options.
  lemma DiscriminatedIsExclusive(rules: Rules, registry: Registry, discriminator: string, options: seq<Zod>)
    requires Discriminates(discriminator, options)
    ensures Exclusive(rules, registry, options)
  {
    hide Means;
    forall v, i, j | 0 <= i < j < |options|
      ensures !(Means(rules, registry, options[i], v) && Means(rules, registry, options[j], v))
    {
      if Means(rules, registry, options[i], v) {
        OptionNeedsLiteral(rules, registry, options[i], discriminator, v);
        if Means(rules, registry, options[j], v) {
          OptionNeedsLiteral(rules, registry, options[j], discriminator, v);
        }
      }
    }
  }

  lemma {:induction false} ParsedIsMeant(rules: Rules, registry: Registry, z: Zod, v: Json, basicPlane: bool)
    requires Supported(rules, registry, z, basicPlane) && (basicPlane ==> AllBasicPlane(v))
    requires Parses(rules, z, Some(v))
    ensures Means(rules, registry, z, v)
    decreases z, 1
  {
    hide LengthSafe, Exclusive, Discriminates, BareEnum, MeetsMinLength, MeetsNumber;
    match z.def
    case ZodString(_, _) => SoundScalar(rules, registry, z, v, basicPlane);
    case ZodNumber(_, _) => SoundScalar(rules, registry, z, v, basicPlane);
    case ZodNullable(inner) =>
      if v != Null {
        ParsedIsMeant(rules, registry, inner, v, basicPlane);
      }
    case ZodOptional(inner) => ParsedIsMeant(rules, registry, inner, v, basicPlane);
    case ZodDefault(inner, _) => ParsedIsMeant(rules, registry, inner, v, basicPlane);
    case ZodEffects(inner, _) => ParsedIsMeant(rules, registry, inner, v, basicPlane);
    case ZodArray(element, _, _, _) =>
      ParsedItemsAreMeant(rules, registry, z, v, basicPlane);
    case ZodRecord(valueType, _, _) =>
      ParsedItemsAreMeant(rules, registry, z, v, basicPlane);
    case ZodUnion(options) =>
      ParsedUnionIsMeant(rules, registry, z, v, basicPlane);
    case ZodDiscriminatedUnion(discriminator, options) =>
      ParsedUnionIsMeant(rules, registry, z, v, basicPlane);
    case ZodObject(shape, _, _) =>
      ParsedObjectIsMeant(rules, registry, z, v, basicPlane);
    case _ =>
  }

  lemma {:induction false} ParsedItemsAreMeant(rules: Rules, registry: Registry, z: Zod, v: Json, basicPlane: bool)
    requires Supported(rules, registry, z, basicPlane) && (basicPlane ==> AllBasicPlane(v))
    requires (z.def.ZodArray? || z.def.ZodRecord?) && Parses(rules, z, Some(v))
    ensures Means(rules, registry, z, v)
    decreases z, 0
  {
    if z.def.ZodArray? {
      forall i | 0 <= i < |v.items| { ParsedIsMeant(rules, registry, z.def.element, v.items[i], basicPlane); }
    } else {
      forall k | k in v.fields { ParsedIsMeant(rules, registry, z.def.valueType, v.fields[k], basicPlane); }
    }
  }

  lemma {:induction false} ParsedUnionIsMeant(rules: Rules, registry: Registry, z: Zod, v: Json, basicPlane: bool)
    requires Supported(rules, registry, z, basicPlane) && (basicPlane ==> AllBasicPlane(v))
    requires (z.def.ZodUnion? || z.def.ZodDiscriminatedUnion?) && Parses(rules, z, Some(v))
    ensures Means(rules, registry, z, v)
    decreases z, 0
  {
    hide Exclusive, Discriminates, Means;
    var options := z.def.options;
    var i :| 0 <= i < |options| && Parses(rules, options[i], Some(v));
    ParsedIsMeant(rules, registry, options[i], v, basicPlane);
    if z.def.ZodDiscriminatedUnion? {
      DiscriminatedIsExclusive(rules, registry, z.def.discriminator, options);
    }
    SoundUnion(rules, registry, z, v, i);
  }

  lemma {:induction false} ParsedObjectIsMeant(rules: Rules, registry: Registry, z: Zod, v: Json, basicPlane: bool)
    requires Supported(rules, registry, z, basicPlane) && (basicPlane ==> AllBasicPlane(v)) && z.def.ZodObject?
    requires Parses(rules, z, Some(v))
    ensures Means(rules, registry, z, v)
    decreases z, 0
  {
    hide LengthSafe, Exclusive, Discriminates, BareEnum, Supported;
    var shape := z.def.shape;
    SupportedFields(rules, registry, z, basicPlane);
    forall i | 0 <= i < |shape|
      ensures if shape[i].key in v.fields then Means(rules, registry, shape[i].schema, v.fields[shape[i].key])
              else RequiredNowhere(rules, shape, shape[i].key)
    {
      var f := shape[i];
      if f.key in v.fields {
        ParsedIsMeant(rules, registry, f.schema, v.fields[f.key], basicPlane);
      } else {
        forall j | 0 <= j < |shape| && shape[j].key == f.key
          ensures IsOptional(rules, shape[j].schema)
        {
          assert Parses(rules, shape[j].schema, At(v.fields, shape[j].key));
        }
      }
    }
  }

  lemma SupportedFields(rules: Rules, registry: Registry, z: Zod, basicPlane: bool)
    requires Supported(rules, registry, z, basicPlane) && z.def.ZodObject?
    ensures forall i :: 0 <= i < |z.def.shape| ==> Supported(rules, registry, z.def.shape[i].schema, basicPlane)
  {
  }

  // Soundness: every value a supported schema parses is accepted by its JSON Schema, in any document
  // whose references stand for their components.
  lemma DocumentIsSound(rules: Rules, registry: Registry, env: Env, z: Zod, skipRef: bool, v: Json, basicPlane: bool)
    requires Resolves(rules, registry, env)
    requires Supported(rules, registry, z, basicPlane) && (basicPlane ==> AllBasicPlane(v))
    requires Parses(rules, z, Some(v))
    ensures Shared(rules, registry, env, z, skipRef, v)
  {
    hide Means, Shared, Supported, Parses, Resolves, Compilable;
    SupportedIsCompilable(rules, registry, z, basicPlane);
    ParsedIsMeant(rules, registry, z, v, basicPlane);
    SharedIsMeant(rules, registry, env, z, skipRef, v);
  }

  // In particular without components.
  lemma CompilerIsSound(rules: Rules, z: Zod, v: Json, basicPlane: bool)
    requires Supported(rules, map[], z, basicPlane) && (basicPlane ==> AllBasicPlane(v))
    requires Parses(rules, z, Some(v))
    ensures Unshared(rules, z, v)
  {
    hide Shared, Supported, Parses;
    DocumentIsSound(rules, map[], NoReferences, z, false, v, basicPlane);
  }

  // --- completeness on the fragment without dropped constraints ---

  // Nothing the schema checks is dropped or weakened.
  ghost predicate Exact(rules: Rules, z: Zod)
    decreases z
  {
    match z.def
    case ZodString(checks, _) =>
      && (forall i :: 0 <= i < |checks| ==> checks[i].MinLength?)
      && (LastMinLength(checks).Some? ==> MinsAtMost(checks, LastMinLength(checks).value))
    case ZodNumber(checks, _) =>
      && (forall i :: 0 <= i < |checks| ==> !checks[i].OtherNumber?)
      && forall i :: 0 <= i < |checks| && checks[i].Min? ==>
           checks[i].inclusive && LastMin(checks).Some? && checks[i].value <= LastMin(checks).value
    case ZodDate(wire, _) => forall s :: rules(wire, Some(Str(s)))
    case ZodNullable(inner) => Exact(rules, inner)
    case ZodOptional(inner) => Exact(rules, inner)
    case ZodDefault(inner, _) => Exact(rules, inner)
    case ZodEffects(_, _) => false
    case ZodArray(element, _, others, _) => others == [] && Exact(rules, element)
    case ZodRecord(valueType, others, _) => others == [] && Exact(rules, valueType)
    case ZodUnion(options) => forall i :: 0 <= i < |options| ==> Exact(rules, options[i])
    case ZodDiscriminatedUnion(discriminator, options) =>
      (forall i :: 0 <= i < |options| ==> Exact(rules, options[i])) && Discriminates(discriminator, options)
    case ZodObject(shape, strict, _) => !strict && forall i :: 0 <= i < |shape| ==> Exact(rules, shape[i].schema)
    case Unsupported(_) => false
    case _ => true
  }

  lemma MeantScalarIsParsed(rules: Rules, registry: Registry, z: Zod, v: Json)
    requires Exact(rules, z) && Means(rules, registry, z, v) && (z.def.ZodString? || z.def.ZodNumber?)
    ensures Parses(rules, z, Some(v))
  {
    if z.def.ZodString? {
      LargestMinIsLargest(z.def.checks);
    } else {
      forall i | 0 <= i < |z.def.numberChecks|
        ensures NumberCheckOk(rules, z.def.numberChecks[i], v.n)
      {
      }
    }
  }

  lemma {:induction false} MeantIsParsed(rules: Rules, registry: Registry, z: Zod, v: Json)
    requires Exact(rules, z) && Means(rules, registry, z, v)
    ensures Parses(rules, z, Some(v))
    decreases z, 1
  {
    hide BareEnum, Discriminates, MinsAtMost, MeetsMinLength, MeetsNumber;
    match z.def
    case ZodString(_, _) => MeantScalarIsParsed(rules, registry, z, v);
    case ZodNumber(_, _) => MeantScalarIsParsed(rules, registry, z, v);
    case ZodNullable(inner) =>
      if v != Null {
        MeantIsParsed(rules, registry, inner, v);
      }
    case ZodOptional(inner) => MeantIsParsed(rules, registry, inner, v);
    case ZodDefault(inner, _) => MeantIsParsed(rules, registry, inner, v);
    case ZodArray(element, _, _, _) =>
      MeantItemsAreParsed(rules, registry, z, v);
    case ZodRecord(valueType, _, _) =>
      MeantItemsAreParsed(rules, registry, z, v);
    case ZodUnion(options) =>
      MeantOptionIsParsed(rules, registry, z, v);
    case ZodDiscriminatedUnion(discriminator, options) =>
      MeantOptionIsParsed(rules, registry, z, v);
    case ZodObject(shape, _, _) =>
      MeantObjectIsParsed(rules, registry, z, v);
    case _ =>
  }

  lemma {:induction false} MeantItemsAreParsed(rules: Rules, registry: Registry, z: Zod, v: Json)
    requires Exact(rules, z) && (z.def.ZodArray? || z.def.ZodRecord?)
    requires Means(rules, registry, z, v)
    ensures Parses(rules, z, Some(v))
    decreases z, 0
  {
    if z.def.ZodArray? {
      forall i | 0 <= i < |v.items| { MeantIsParsed(rules, registry, z.def.element, v.items[i]); }
    } else {
      forall k | k in v.fields { MeantIsParsed(rules, registry, z.def.valueType, v.fields[k]); }
    }
  }

  lemma {:induction false} MeantOptionIsParsed(rules: Rules, registry: Registry, z: Zod, v: Json)
    requires Exact(rules, z) && (z.def.ZodUnion? || z.def.ZodDiscriminatedUnion?)
    requires Means(rules, registry, z, v)
    ensures Parses(rules, z, Some(v))
    decreases z, 0
  {
    hide BareEnum, DiscriminatorValues, Means;
    UnionMeans(rules, registry, z, v);
    var options := z.def.options;
    var i :| 0 <= i < |options| && Means(rules, registry, options[i], v);
    MeantIsParsed(rules, registry, options[i], v);
    if z.def.ZodDiscriminatedUnion? {
      OptionNeedsLiteral(rules, registry, options[i], z.def.discriminator, v);
    }
  }

  lemma {:induction false} MeantObjectIsParsed(rules: Rules, registry: Registry, z: Zod, v: Json)
    requires Exact(rules, z) && z.def.ZodObject?
    requires Means(rules, registry, z, v)
    ensures Parses(rules, z, Some(v))
    decreases z, 0
  {
    hide BareEnum, Discriminates, MinsAtMost;
    var shape := z.def.shape;
    forall i | 0 <= i < |shape|
      ensures Parses(rules, shape[i].schema, At(v.fields, shape[i].key))
    {
      if shape[i].key in v.fields {
        MeantIsParsed(rules, registry, shape[i].schema, v.fields[shape[i].key]);
      } else {
        assert RequiredNowhere(rules, shape, shape[i].key);
      }
    }
  }

  // Completeness: every value its JSON Schema accepts, an exact schema parses.
  lemma CompilerIsComplete(rules: Rules, registry: Registry, env: Env, z: Zod, skipRef: bool, v: Json)
    requires Exact(rules, z) && Compilable(z) && Resolves(rules, registry, env)
    requires Shared(rules, registry, env, z, skipRef, v)
    ensures Parses(rules, z, Some(v))
  {
    hide Means, Shared, Exact, Parses, Resolves, Compilable;
    SharedIsMeant(rules, registry, env, z, skipRef, v);
    MeantIsParsed(rules, registry, z, v);
  }

  // On supported schemas without dropped constraints the two languages accept the same values.
  lemma CompilerIsExact(rules: Rules, registry: Registry, env: Env, z: Zod, skipRef: bool, v: Json, basicPlane: bool)
    requires Resolves(rules, registry, env)
    requires Supported(rules, registry, z, basicPlane) && Exact(rules, z) && (basicPlane ==> AllBasicPlane(v))
    ensures Parses(rules, z, Some(v)) <==> Shared(rules, registry, env, z, skipRef, v)
  {
    hide Shared, Exact, Supported, Parses, Resolves, Compilable;
    SupportedIsCompilable(rules, registry, z, basicPlane);
    if Parses(rules, z, Some(v)) {
      DocumentIsSound(rules, registry, env, z, skipRef, v, basicPlane);
    } else if Shared(rules, registry, env, z, skipRef, v) {
      CompilerIsComplete(rules, registry, env, z, skipRef, v);
    }
  }
}
