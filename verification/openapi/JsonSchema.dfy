/** The JSON Schema subset of the generated document, with the 2020-12 meaning of its keywords. */
module JsonSchema {
  import opened Prelude
  import opened Json

  datatype TypeKeyword = AnyType | One(name: string) | Many(names: seq<string>)

  datatype Property = Property(name: string, schema: Schema)

  // An optional list of schemas, or of named schemas.
  datatype Schemas = NoSchemas | Schemas(list: seq<Schema>)

  datatype Properties = NoProperties | Properties(list: seq<Property>)

  // `format`, `description` and `discriminator` are annotations and assert nothing.
  datatype Schema = Schema(
    ref: Option<string>,
    typ: TypeKeyword,
    properties: Properties,
    required: Option<seq<string>>,
    items: Option<Schema>,
    enumeration: Option<seq<Json>>,
    constant: Option<Json>,
    description: Option<string>,
    format: Option<string>,
    minimum: Option<real>,
    minLength: Option<int>,
    minItems: Option<int>,
    additionalProperties: Option<Schema>,
    oneOf: Schemas,
    anyOf: Schemas,
    discriminator: Option<string>)

  const EMPTY := Schema(None, AnyType, NoProperties, None, None, None, None, None, None, None, None, None, None, NoSchemas, NoSchemas, None)

  // `type`: an integer is a number without a fraction.
  predicate HasType(name: string, v: Json) {
    match v
    case Null => name == "null"
    case Bool(_) => name == "boolean"
    case Num(n) => name == "number" || (name == "integer" && n == n.Floor as real)
    case Str(_) => name == "string"
    case Arr(_) => name == "array"
    case Obj(_) => name == "object"
  }

  predicate TypeOk(typ: TypeKeyword, v: Json) {
    match typ
    case AnyType => true
    case One(name) => HasType(name, v)
    case Many(names) => exists i :: 0 <= i < |names| && HasType(names[i], v)
  }

  // What each reference stands for: the values its target accepts.
  type Env = (string, Json) -> bool

  // Assertions on values of one kind. Keywords for one type ignore values of another.
  predicate ScalarOk(s: Schema, v: Json) {
    && TypeOk(s.typ, v)
    && (s.enumeration.Some? ==> v in s.enumeration.value)
    && (s.constant.Some? ==> v == s.constant.value)
    && (s.minimum.Some? && v.Num? ==> v.n >= s.minimum.value)
    && (s.minLength.Some? && v.Str? ==> |v.s| >= s.minLength.value)
    && (s.minItems.Some? && v.Arr? ==> |v.items| >= s.minItems.value)
    && (s.required.Some? && v.Obj? ==> forall k :: k in s.required.value ==> k in v.fields)
  }

  predicate Declares(props: Properties, key: string) {
    props.Properties? && exists i :: 0 <= i < |props.list| && props.list[i].name == key
  }

  predicate Accepts(env: Env, s: Schema, v: Json)
    decreases s
  {
    && (s.ref.Some? ==> env(s.ref.value, v))
    && ScalarOk(s, v)
    && (s.items.Some? && v.Arr? ==> forall i :: 0 <= i < |v.items| ==> Accepts(env, s.items.value, v.items[i]))
    && (s.properties.Properties? && v.Obj? ==>
          forall i :: 0 <= i < |s.properties.list| && s.properties.list[i].name in v.fields ==>
            Accepts(env, s.properties.list[i].schema, v.fields[s.properties.list[i].name]))
    && (s.additionalProperties.Some? && v.Obj? ==>
          forall k :: k in v.fields && !Declares(s.properties, k) ==>
            Accepts(env, s.additionalProperties.value, v.fields[k]))
    && (s.anyOf.Schemas? ==> exists i :: 0 <= i < |s.anyOf.list| && Accepts(env, s.anyOf.list[i], v))
    && (s.oneOf.Schemas? ==>
          exists i :: 0 <= i < |s.oneOf.list| && Accepts(env, s.oneOf.list[i], v)
            && forall j :: 0 <= j < |s.oneOf.list| && j != i ==> !Accepts(env, s.oneOf.list[j], v))
  }
}
