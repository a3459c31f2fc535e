/** `zodToJsonSchema`: the Zod subset compiled to JSON Schema. */
module ZodCompiler {
  import opened Prelude
  import opened Json
  import opened JsonSchema
  import opened Zod

  // Components by schema identity.
  type Registry = map<Zod, string>

  const NULL := EMPTY.(typ := One("null"))

  function WithNull(s: Schema): Schema {
    if s.ref.Some? then EMPTY.(anyOf := Schemas([s, NULL]))
    else if s.typ.One? then s.(typ := Many([s.typ.name, "null"]))
    else EMPTY.(anyOf := Schemas([s, NULL]))
  }

  function Describe(s: Schema, description: Option<string>): Schema {
    if description.Some? && description.value != "" && s.ref.None? then s.(description := description) else s
  }

  // The value of the last `min` check: a later one overwrites an earlier one.
  function LastMinLength(checks: seq<StringCheck>): Option<int> {
    if checks == [] then None
    else match checks[|checks| - 1]
      case MinLength(n) => Some(n)
      case OtherString(_) => LastMinLength(checks[..|checks| - 1])
  }

  function LastMin(checks: seq<NumberCheck>): Option<real> {
    if checks == [] then None
    else match checks[|checks| - 1]
      case Min(n, _) => Some(n)
      case _ => LastMin(checks[..|checks| - 1])
  }

  function StringSchema(checks: seq<StringCheck>): Schema {
    EMPTY.(typ := One("string"), minLength := LastMinLength(checks))
  }

  function NumberSchema(checks: seq<NumberCheck>): Schema {
    EMPTY.(typ := One(if IsInt in checks then "integer" else "number"), minimum := LastMin(checks))
  }

  function Reference(name: string): string {
    "#/components/schemas/" + name
  }

  predicate Named(registry: Registry, z: Zod) {
    z in registry && registry[z] != ""
  }

  function Compile(rules: Rules, registry: Registry, z: Zod, skipRef: bool): Result<Schema, string>
    decreases z, 1
  {
    if Named(registry, z) && !skipRef then Ok(EMPTY.(ref := Some(Reference(registry[z]))))
    else match z.def
      case ZodString(checks, d) => Ok(Describe(StringSchema(checks), d))
      case ZodNumber(checks, d) => Ok(Describe(NumberSchema(checks), d))
      case ZodBoolean(d) => Ok(Describe(EMPTY.(typ := One("boolean")), d))
      case ZodDate(_, d) => Ok(Describe(EMPTY.(typ := One("string"), format := Some("date-time")), d))
      case ZodAny(d) => Ok(Describe(EMPTY, d))
      case ZodLiteral(value) => Ok(EMPTY.(constant := Some(value)))
      case ZodEnum(values, d) =>
        Ok(Describe(EMPTY.(typ := One("string"), enumeration := Some(EnumValues(values))), d))
      case ZodNullable(inner) =>
        (match Compile(rules, registry, inner, false)
         case Ok(s) => Ok(WithNull(s))
         case Err(e) => Err(e))
      case ZodOptional(inner) => Compile(rules, registry, inner, false)
      case ZodDefault(inner, _) => Compile(rules, registry, inner, false)
      case ZodEffects(inner, _) => Compile(rules, registry, inner, false)
      case ZodArray(element, minLength, _, d) =>
        (match Compile(rules, registry, element, false)
         case Ok(s) => Ok(Describe(ArraySchema(s, minLength), d))
         case Err(e) => Err(e))
      case ZodRecord(valueType, _, d) =>
        (match Compile(rules, registry, valueType, false)
         case Ok(s) => Ok(Describe(RecordSchema(s), d))
         case Err(e) => Err(e))
      case ZodUnion(options) =>
        (match CompileAll(rules, registry, options)
         case Ok(ss) => Ok(EMPTY.(oneOf := Schemas(ss)))
         case Err(e) => Err(e))
      case ZodDiscriminatedUnion(discriminator, options) =>
        (match CompileAll(rules, registry, options)
         case Ok(ss) => Ok(EMPTY.(oneOf := Schemas(ss), discriminator := Some(discriminator)))
         case Err(e) => Err(e))
      case ZodObject(shape, _, d) =>
        (match CompileFields(rules, registry, shape)
         case Ok(ps) => Ok(Describe(ObjectSchema(ps, RequiredKeys(rules, shape)), d))
         case Err(e) => Err(e))
      case Unsupported(typeName) => Err("openapi: unsupported zod type " + typeName)
  }

  function EnumValues(values: seq<string>): (r: seq<Json>)
    ensures |r| == |values|
    ensures forall i :: 0 <= i < |values| ==> r[i] == Str(values[i])
  {
    seq(|values|, i requires 0 <= i < |values| => Str(values[i]))
  }

  function ArraySchema(items: Schema, minLength: Option<int>): Schema {
    EMPTY.(typ := One("array"), items := Some(items), minItems := minLength)
  }

  function RecordSchema(values: Schema): Schema {
    EMPTY.(typ := One("object"), additionalProperties := Some(values))
  }

  function ObjectSchema(properties: seq<Property>, required: seq<string>): Schema {
    EMPTY.(typ := One("object"), properties := Properties(properties),
           required := if required == [] then None else Some(required))
  }

  function CompileAll(rules: Rules, registry: Registry, zs: seq<Zod>): (r: Result<seq<Schema>, string>)
    ensures r.Ok? ==> |r.value| == |zs|
    ensures r.Ok? <==> forall i :: 0 <= i < |zs| ==> Compile(rules, registry, zs[i], false).Ok?
    ensures r.Ok? ==> forall i :: 0 <= i < |zs| ==> Compile(rules, registry, zs[i], false) == Ok(r.value[i])
    decreases zs, 0
  {
    if zs == [] then Ok([])
    else match Compile(rules, registry, zs[0], false)
      case Err(e) => Err(e)
      case Ok(s) =>
        match CompileAll(rules, registry, zs[1..])
        case Err(e) => Err(e)
        case Ok(ss) => Ok([s] + ss)
  }

  function CompileFields(rules: Rules, registry: Registry, shape: seq<Field>): (r: Result<seq<Property>, string>)
    ensures r.Ok? ==> |r.value| == |shape|
    ensures r.Ok? <==> forall i :: 0 <= i < |shape| ==> Compile(rules, registry, shape[i].schema, false).Ok?
    ensures r.Ok? ==> forall i :: 0 <= i < |shape| ==>
      r.value[i].name == shape[i].key && Compile(rules, registry, shape[i].schema, false) == Ok(r.value[i].schema)
    decreases shape, 0
  {
    if shape == [] then Ok([])
    else match Compile(rules, registry, shape[0].schema, false)
      case Err(e) => Err(e)
      case Ok(s) =>
        match CompileFields(rules, registry, shape[1..])
        case Err(e) => Err(e)
        case Ok(ps) => Ok([Property(shape[0].key, s)] + ps)
  }

  function RequiredKeys(rules: Rules, shape: seq<Field>): (r: seq<string>)
    ensures forall k :: k in r <==>
      exists i :: 0 <= i < |shape| && shape[i].key == k && !IsOptional(rules, shape[i].schema)
  {
    if shape == [] then []
    else
      var rest := RequiredKeys(rules, shape[1..]);
      if IsOptional(rules, shape[0].schema) then rest else [shape[0].key] + rest
  }

  // --- the loops of the source ---

  lemma LastMinLengthStep(checks: seq<StringCheck>, i: nat)
    requires i < |checks|
    ensures LastMinLength(checks[..i + 1]) ==
            if checks[i].MinLength? then Some(checks[i].value) else LastMinLength(checks[..i])
  {
    assert checks[..i + 1][..i] == checks[..i];
  }

  lemma LastMinStep(checks: seq<NumberCheck>, i: nat)
    requires i < |checks|
    ensures LastMin(checks[..i + 1]) ==
            if checks[i].Min? then Some(checks[i].value) else LastMin(checks[..i])
  {
    assert checks[..i + 1][..i] == checks[..i];
  }

  method BuildStringSchema(checks: seq<StringCheck>) returns (out: Schema)
    ensures out == StringSchema(checks)
  {
    out := EMPTY.(typ := One("string"));
    for i := 0 to |checks|
      invariant out == StringSchema(checks[..i])
    {
      LastMinLengthStep(checks, i);
      if checks[i].MinLength? {
        out := out.(minLength := Some(checks[i].value));
      }
    }
    assert checks[..|checks|] == checks;
  }

  method BuildNumberSchema(checks: seq<NumberCheck>) returns (out: Schema)
    ensures out == NumberSchema(checks)
  {
    out := EMPTY.(typ := One(if IsInt in checks then "integer" else "number"));
    for i := 0 to |checks|
      invariant out == NumberSchema(checks).(minimum := LastMin(checks[..i]))
    {
      LastMinStep(checks, i);
      if checks[i].Min? {
        out := out.(minimum := Some(checks[i].value));
      }
    }
    assert checks[..|checks|] == checks;
  }

  function Prepend(done: seq<Property>, r: Result<seq<Property>, string>): Result<seq<Property>, string> {
    match r
    case Ok(ps) => Ok(done + ps)
    case Err(e) => Err(e)
  }

  lemma FieldStep(rules: Rules, registry: Registry, shape: seq<Field>, i: nat, done: seq<Property>)
    requires i < |shape|
    ensures Prepend(done, CompileFields(rules, registry, shape[i..])) ==
            match Compile(rules, registry, shape[i].schema, false)
            case Ok(s) => Prepend(done + [Property(shape[i].key, s)], CompileFields(rules, registry, shape[i + 1..]))
            case Err(e) => Err(e)
    ensures RequiredKeys(rules, shape[i..]) ==
            (if IsOptional(rules, shape[i].schema) then [] else [shape[i].key]) + RequiredKeys(rules, shape[i + 1..])
  {
    hide Compile, IsOptional;
    var rest := shape[i..];
    assert rest[1..] == shape[i + 1..] && rest[0] == shape[i];
    match Compile(rules, registry, shape[i].schema, false)
    case Err(_) =>
    case Ok(s) =>
      match CompileFields(rules, registry, shape[i + 1..])
      case Err(_) =>
      case Ok(ps) =>
        assert done + ([Property(shape[i].key, s)] + ps) == done + [Property(shape[i].key, s)] + ps;
  }

  // The object case: properties and required keys are filled field by field.
  method BuildObjectSchema(rules: Rules, registry: Registry, shape: seq<Field>)
    returns (r: Result<Schema, string>)
    ensures r == match CompileFields(rules, registry, shape)
                 case Ok(ps) => Ok(ObjectSchema(ps, RequiredKeys(rules, shape)))
                 case Err(e) => Err(e)
  {
    hide Compile, IsOptional, CompileFields, RequiredKeys;
    var properties: seq<Property> := [];
    var required: seq<string> := [];
    var i := 0;
    assert shape[0..] == shape;
    NothingPrepended(rules, registry, shape);
    while i < |shape|
      invariant 0 <= i <= |shape|
      invariant CompileFields(rules, registry, shape) == Prepend(properties, CompileFields(rules, registry, shape[i..]))
      invariant RequiredKeys(rules, shape) == required + RequiredKeys(rules, shape[i..])
    {
      var field := shape[i];
      FieldStep(rules, registry, shape, i, properties);
      var s := Compile(rules, registry, field.schema, false);
      if s.Err? {
        return Err(s.error);
      }
      properties := properties + [Property(field.key, s.value)];
      if !IsOptional(rules, field.schema) {
        required := required + [field.key];
      }
      i := i + 1;
    }
    assert shape[i..] == [];
    NoFields(rules, registry);
    assert properties + [] == properties && required + [] == required;
    r := Ok(ObjectSchema(properties, required));
  }

  lemma NothingPrepended(rules: Rules, registry: Registry, shape: seq<Field>)
    ensures Prepend([], CompileFields(rules, registry, shape)) == CompileFields(rules, registry, shape)
  {
    var r := CompileFields(rules, registry, shape);
    if r.Ok? {
      assert [] + r.value == r.value;
    }
  }

  lemma NoFields(rules: Rules, registry: Registry)
    ensures CompileFields(rules, registry, []) == Ok([]) && RequiredKeys(rules, []) == []
  {
  }
}
