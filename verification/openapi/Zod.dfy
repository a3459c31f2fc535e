/** The Zod subset of the route table, and which wire values each schema accepts. */
module Zod {
  import opened Prelude
  import opened Json

  // Checks the compiler reads, and `Other` checks it drops (max, regex, finite, ...).
  datatype StringCheck = MinLength(value: int) | OtherString(rule: nat)

  datatype NumberCheck = IsInt | Min(value: real, inclusive: bool) | OtherNumber(rule: nat)

  // Schemas are told apart by identity, as a JavaScript Map tells its keys apart.
  datatype Zod = Zod(id: nat, def: Def)

  datatype Def =
    | ZodString(checks: seq<StringCheck>, description: Option<string>)
    | ZodNumber(numberChecks: seq<NumberCheck>, description: Option<string>)
    | ZodBoolean(description: Option<string>)
    | ZodDate(wire: nat, description: Option<string>)
    | ZodAny(description: Option<string>)
    | ZodLiteral(value: Json)
    | ZodEnum(values: seq<string>, description: Option<string>)
    | ZodNullable(inner: Zod)
    | ZodOptional(inner: Zod)
    | ZodDefault(inner: Zod, default: Json)
    | ZodEffects(inner: Zod, refinement: nat)
    | ZodArray(element: Zod, minLength: Option<int>, others: seq<nat>, description: Option<string>)
    | ZodRecord(valueType: Zod, others: seq<nat>, description: Option<string>)
    | ZodUnion(options: seq<Zod>)
    | ZodDiscriminatedUnion(discriminator: string, options: seq<Zod>)
    | ZodObject(shape: seq<Field>, strict: bool, description: Option<string>)
    | Unsupported(typeName: string)

  datatype Field = Field(key: string, schema: Zod)

  // A wire value, or undefined.
  type Wire = Option<Json>

  // What the refinements and the dropped checks decide, by their number.
  type Rules = (nat, Wire) -> bool

  predicate Obeys(rules: Rules, ids: seq<nat>, v: Wire) {
    forall i :: 0 <= i < |ids| ==> rules(ids[i], v)
  }

  predicate StringCheckOk(rules: Rules, c: StringCheck, s: string) {
    match c
    case MinLength(n) => Utf16Length(s) >= n
    case OtherString(rule) => rules(rule, Some(Str(s)))
  }

  predicate NumberCheckOk(rules: Rules, c: NumberCheck, n: real) {
    match c
    case IsInt => n == n.Floor as real
    case Min(value, inclusive) => if inclusive then n >= value else n > value
    case OtherNumber(rule) => rules(rule, Some(Num(n)))
  }

  // Does `schema.safeParse(v)` succeed? A date is the string it is written as.
  predicate Parses(rules: Rules, z: Zod, v: Wire)
    decreases z
  {
    match z.def
    case ZodString(checks, _) =>
      v.Some? && v.value.Str? && forall i :: 0 <= i < |checks| ==> StringCheckOk(rules, checks[i], v.value.s)
    case ZodNumber(checks, _) =>
      v.Some? && v.value.Num? && forall i :: 0 <= i < |checks| ==> NumberCheckOk(rules, checks[i], v.value.n)
    case ZodBoolean(_) => v.Some? && v.value.Bool?
    case ZodDate(wire, _) => v.Some? && v.value.Str? && rules(wire, v)
    case ZodAny(_) => true
    case ZodLiteral(value) => v == Some(value)
    case ZodEnum(values, _) => v.Some? && v.value.Str? && v.value.s in values
    case ZodNullable(inner) => v == Some(Null) || Parses(rules, inner, v)
    case ZodOptional(inner) => v == None || Parses(rules, inner, v)
    case ZodDefault(inner, default) => Parses(rules, inner, if v == None then Some(default) else v)
    case ZodEffects(inner, refinement) => Parses(rules, inner, v) && rules(refinement, v)
    case ZodArray(element, minLength, others, _) =>
      && v.Some? && v.value.Arr?
      && (minLength.Some? ==> |v.value.items| >= minLength.value)
      && Obeys(rules, others, v)
      && forall i :: 0 <= i < |v.value.items| ==> Parses(rules, element, Some(v.value.items[i]))
    case ZodRecord(valueType, others, _) =>
      && v.Some? && v.value.Obj? && Obeys(rules, others, v)
      && forall k :: k in v.value.fields ==> Parses(rules, valueType, Some(v.value.fields[k]))
    case ZodUnion(options) =>
      exists i :: 0 <= i < |options| && Parses(rules, options[i], v)
    case ZodDiscriminatedUnion(discriminator, options) =>
      && v.Some? && v.value.Obj? && discriminator in v.value.fields
      && exists i :: 0 <= i < |options| &&
           v.value.fields[discriminator] in DiscriminatorValues(options[i], discriminator) && Parses(rules, options[i], v)
    case ZodObject(shape, strict, _) =>
      && v.Some? && v.value.Obj?
      && (strict ==> forall k :: k in v.value.fields ==> exists i :: 0 <= i < |shape| && shape[i].key == k)
      && forall i :: 0 <= i < |shape| ==> Parses(rules, shape[i].schema, At(v.value.fields, shape[i].key))
    case Unsupported(_) => false
  }

  function At(fields: map<string, Json>, key: string): Wire {
    if key in fields then Some(fields[key]) else None
  }

  // The literals an option of a discriminated union answers to.
  function DiscriminatorValues(option: Zod, discriminator: string): seq<Json> {
    if !option.def.ZodObject? then []
    else FieldValues(option.def.shape, discriminator)
  }

  function FieldValues(shape: seq<Field>, key: string): seq<Json> {
    if shape == [] then []
    else if shape[0].key == key then LiteralValues(shape[0].schema)
    else FieldValues(shape[1..], key)
  }

  function LiteralValues(z: Zod): seq<Json> {
    match z.def
    case ZodLiteral(value) => [value]
    case ZodEnum(values, _) => seq(|values|, i requires 0 <= i < |values| => Str(values[i]))
    case _ => []
  }

  // `schema.isOptional()`
  predicate IsOptional(rules: Rules, z: Zod) {
    Parses(rules, z, None)
  }
}
