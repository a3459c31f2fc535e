/** What the schemas the compiler builds accept, shape by shape. */
module SchemaMeaning {
  import opened Prelude
  import opened Json
  import opened JsonSchema
  import opened Zod
  import opened ZodCompiler

  // No keyword but those of `ScalarOk`.
  predicate Scalar(s: Schema) {
    && s.ref.None? && s.items.None? && s.properties.NoProperties? && s.additionalProperties.None?
    && s.anyOf.NoSchemas? && s.oneOf.NoSchemas?
  }

  lemma ScalarMeaning(env: Env, s: Schema, v: Json)
    requires Scalar(s)
    ensures Accepts(env, s, v) <==> ScalarOk(s, v)
  {
  }

  lemma DescriptionMeansNothing(env: Env, s: Schema, d: Option<string>, v: Json)
    ensures Accepts(env, Describe(s, d), v) <==> Accepts(env, s, v)
  {
  }

  lemma ReferenceMeaning(env: Env, name: string, v: Json)
    ensures Accepts(env, EMPTY.(ref := Some(Reference(name))), v) <==> env(Reference(name), v)
  {
  }

  lemma ArrayMeaning(env: Env, items: Schema, min: Option<int>, v: Json)
    ensures Accepts(env, ArraySchema(items, min), v) <==>
            && v.Arr? && (min.Some? ==> |v.items| >= min.value)
            && forall i :: 0 <= i < |v.items| ==> Accepts(env, items, v.items[i])
  {
  }

  lemma RecordMeaning(env: Env, values: Schema, v: Json)
    ensures Accepts(env, RecordSchema(values), v) <==>
            v.Obj? && forall k :: k in v.fields ==> Accepts(env, values, v.fields[k])
  {
  }

  lemma ObjectMeaning(env: Env, ps: seq<Property>, required: seq<string>, v: Json)
    ensures Accepts(env, ObjectSchema(ps, required), v) <==>
            && v.Obj? && (forall k :: k in required ==> k in v.fields)
            && forall i :: 0 <= i < |ps| && ps[i].name in v.fields ==> Accepts(env, ps[i].schema, v.fields[ps[i].name])
  {
  }

  // `oneOf`: one of the schemas accepts and no other does.
  ghost predicate ExactlyOne(env: Env, ss: seq<Schema>, v: Json) {
    exists i :: 0 <= i < |ss| && Accepts(env, ss[i], v)
      && forall j :: 0 <= j < |ss| && j != i ==> !Accepts(env, ss[j], v)
  }

  lemma OneOfMeaning(env: Env, ss: seq<Schema>, d: Option<string>, v: Json)
    ensures Accepts(env, EMPTY.(oneOf := Schemas(ss), discriminator := d), v) <==> ExactlyOne(env, ss, v)
  {
  }

  lemma AnyOfMeaning(env: Env, a: Schema, b: Schema, v: Json)
    ensures Accepts(env, EMPTY.(anyOf := Schemas([a, b])), v) <==> Accepts(env, a, v) || Accepts(env, b, v)
  {
    var ss := [a, b];
    assert ss[0] == a && ss[1] == b;
  }

  lemma NullSchemaMeaning(env: Env, v: Json)
    ensures Accepts(env, NULL, v) <==> v == Null
  {
    ScalarMeaning(env, NULL, v);
  }

  lemma NullableType(name: string, v: Json)
    ensures TypeOk(Many([name, "null"]), v) <==> HasType(name, v) || v == Null
  {
    var names := [name, "null"];
    assert names[0] == name && names[1] == "null";
  }

  // The parts of `Accepts`, one keyword each.
  ghost predicate ItemsOk(env: Env, s: Schema, v: Json) {
    s.items.Some? && v.Arr? ==> forall i :: 0 <= i < |v.items| ==> Accepts(env, s.items.value, v.items[i])
  }

  ghost predicate PropertiesOk(env: Env, s: Schema, v: Json) {
    s.properties.Properties? && v.Obj? ==>
      forall i :: 0 <= i < |s.properties.list| && s.properties.list[i].name in v.fields ==>
        Accepts(env, s.properties.list[i].schema, v.fields[s.properties.list[i].name])
  }

  ghost predicate OthersOk(env: Env, s: Schema, v: Json) {
    s.additionalProperties.Some? && v.Obj? ==>
      forall k :: k in v.fields && !Declares(s.properties, k) ==> Accepts(env, s.additionalProperties.value, v.fields[k])
  }

  ghost predicate AnyOfOk(env: Env, s: Schema, v: Json) {
    s.anyOf.Schemas? ==> exists i :: 0 <= i < |s.anyOf.list| && Accepts(env, s.anyOf.list[i], v)
  }

  ghost predicate OneOfOk(env: Env, s: Schema, v: Json) {
    s.oneOf.Schemas? ==> ExactlyOne(env, s.oneOf.list, v)
  }

  lemma AcceptsParts(env: Env, s: Schema, v: Json)
    ensures Accepts(env, s, v) <==>
            && (s.ref.Some? ==> env(s.ref.value, v))
            && ScalarOk(s, v) && ItemsOk(env, s, v) && PropertiesOk(env, s, v) && OthersOk(env, s, v)
            && AnyOfOk(env, s, v) && OneOfOk(env, s, v)
  {
    hide ScalarOk;
  }

  // What a schema with a single type asserts apart from it.
  lemma TypedMeaning(env: Env, s: Schema, v: Json)
    requires s.typ.One?
    ensures Accepts(env, s, v) <==> HasType(s.typ.name, v) && Accepts(env, s.(typ := AnyType), v)
    ensures Accepts(env, s.(typ := Many([s.typ.name, "null"])), v) <==>
            (HasType(s.typ.name, v) || v == Null) && Accepts(env, s.(typ := AnyType), v)
  {
    hide Accepts, HasType, TypeOk;
    AcceptsParts(env, s, v);
    AcceptsParts(env, s.(typ := AnyType), v);
    AcceptsParts(env, s.(typ := Many([s.typ.name, "null"])), v);
    TypedScalars(s, v);
  }

  lemma TypedScalars(s: Schema, v: Json)
    requires s.typ.One?
    ensures ScalarOk(s, v) <==> HasType(s.typ.name, v) && ScalarOk(s.(typ := AnyType), v)
    ensures ScalarOk(s.(typ := Many([s.typ.name, "null"])), v) <==>
            (HasType(s.typ.name, v) || v == Null) && ScalarOk(s.(typ := AnyType), v)
  {
    NullableType(s.typ.name, v);
  }

  // `withNull` adds null if the rest of the schema lets null pass, and nothing else.
  lemma WithNullMeaning(env: Env, s: Schema, v: Json)
    ensures Accepts(env, WithNull(s), v) <==>
            Accepts(env, s, v) || (v == Null && (s.ref.Some? || !s.typ.One? || Accepts(env, s.(typ := AnyType), Null)))
  {
    hide Accepts;
    if s.ref.None? && s.typ.One? {
      TypedMeaning(env, s, v);
    } else {
      AnyOfMeaning(env, s, NULL, v);
      NullSchemaMeaning(env, v);
    }
  }

  // `oneOf` only looks at what its schemas accept.
  lemma ExactlyOneAlike(env: Env, ss: seq<Schema>, env': Env, ss': seq<Schema>, v: Json)
    requires |ss| == |ss'|
    requires forall i :: 0 <= i < |ss| ==> (Accepts(env, ss[i], v) <==> Accepts(env', ss'[i], v))
    ensures ExactlyOne(env, ss, v) <==> ExactlyOne(env', ss', v)
  {
    hide Accepts;
  }
}
