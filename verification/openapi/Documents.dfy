/** The OpenAPI document as references see it: every `$ref` leads to its component. */
module Documents {
  import opened Prelude
  import opened Text
  import opened Json
  import opened JsonSchema
  import opened Zod
  import opened ZodCompiler
  import opened SchemaMeaning
  import opened ZodMeaning
  import opened Sharing
  import opened ZodLaws

  // --- the document ---

  // Objects down to the component schemas; the rest of the document does not matter to references.
  datatype Node = Component(schema: Schema) | Object(members: map<string, Node>)

  // The schemas of the components, by name.
  ghost predicate IsNamed(registry: Registry, name: string, z: Zod) {
    z in registry && registry[z] == name && name != ""
  }

  ghost predicate Holds(rules: Rules, registry: Registry, schemas: map<string, Node>) {
    && (forall name :: name in schemas ==> exists z :: IsNamed(registry, name, z))
    && forall name, z :: IsNamed(registry, name, z) ==>
         && name in schemas && Compile(rules, registry, z, true).Ok?
         && schemas[name] == Component(Compile(rules, registry, z, true).value)
  }

  function Document(schemas: map<string, Node>): Node {
    Object(map["components" := Object(map["schemas" := Object(schemas)])])
  }

  // --- evaluating a reference ---

  // `~1` and `~0` of a JSON Pointer (RFC 6901 section 4).
  function Unescape(s: string): string {
    if s == "" then ""
    else if s[0] == '~' && |s| > 1 && s[1] == '1' then "/" + Unescape(s[2..])
    else if s[0] == '~' && |s| > 1 && s[1] == '0' then "~" + Unescape(s[2..])
    else [s[0]] + Unescape(s[1..])
  }

  function Walk(node: Node, tokens: seq<string>): Option<Node>
    decreases |tokens|
  {
    if tokens == [] then Some(node)
    else if node.Object? && Unescape(tokens[0]) in node.members then
      Walk(node.members[Unescape(tokens[0])], tokens[1..])
    else None
  }

  // A reference inside the document: `#`, then a JSON Pointer (RFC 6901 section 6).
  function Evaluate(doc: Node, ref: string): Option<Node> {
    if ref == "" || ref[0] != '#' then None
    else if ref == "#" then Some(doc)
    else if ref[1] != '/' then None
    else Walk(doc, Split(ref[2..], '/'))
  }

  // Every reference stands for what is at its place in the document.
  ghost predicate ResolvesIn(doc: Node, env: Env) {
    forall ref, v :: env(ref, v) <==>
      Evaluate(doc, ref).Some? && Evaluate(doc, ref).value.Component? && Accepts(env, Evaluate(doc, ref).value.schema, v)
  }

  // A name that needs no escaping in a reference.
  predicate PlainName(name: string) {
    forall i :: 0 <= i < |name| ==> name[i] !in {'/', '~', '%'}
  }

  ghost predicate PlainNames(registry: Registry) {
    forall z :: z in registry ==> PlainName(registry[z])
  }

  // --- where references lead ---

  lemma {:induction false} UnescapePlain(s: string)
    requires '~' !in s
    ensures Unescape(s) == s
  {
    if s != "" {
      assert s == [s[0]] + s[1..] && s[0] in s;
      UnescapePlain(s[1..]);
    }
  }

  lemma TokensOf(name: string)
    requires '/' !in name
    ensures var ref := "#/components/schemas/" + name;
            && |ref| > 2 && ref[0] == '#' && ref[1] == '/'
            && Split(ref[2..], '/') == ["components", "schemas", name]
  {
    hide Split;
    var ref := "#/components/schemas/" + name;
    var tokens := ["components", "schemas", name];
    var rest := "schemas" + ("/" + name);
    assert ref[2..] == "components" + ("/" + rest);
    NoSlashes();
    SplitOfTwo("components", '/', rest);
    SplitOfTwo("schemas", '/', name);
    SplitOfPlain(name, '/');
  }

  lemma NoSlashes()
    ensures '/' !in "components" && '/' !in "schemas" && '~' !in "components" && '~' !in "schemas"
  {
  }

  lemma WalkToComponent(schemas: map<string, Node>, name: string)
    requires '~' !in name
    ensures Walk(Document(schemas), ["components", "schemas", name]) ==
            if name in schemas then Some(schemas[name]) else None
  {
    hide Unescape;
    NoSlashes();
    UnescapePlain("components");
    UnescapePlain("schemas");
    UnescapePlain(name);
    var tokens := ["components", "schemas", name];
    var two := ["schemas", name];
    var one := [name];
    assert tokens[1..] == two && two[1..] == one && one[1..] == [];
    assert Walk(Object(schemas), one) == if name in schemas then Some(schemas[name]) else None;
    assert Walk(Object(map["schemas" := Object(schemas)]), two) == Walk(Object(schemas), one);
  }

  lemma PlainHasNone(name: string)
    requires PlainName(name)
    ensures '/' !in name && '~' !in name
  {
  }

  // The `$ref` a component compiles to is `#/components/schemas/` and its name, and at that place of
  // the document stands the component, written out.
  lemma ReferenceLeads(rules: Rules, registry: Registry, schemas: map<string, Node>, z: Zod)
    requires Holds(rules, registry, schemas) && Named(registry, z) && PlainName(registry[z])
    ensures Compile(rules, registry, z, false).Ok? && Compile(rules, registry, z, true).Ok?
    ensures var ref := Compile(rules, registry, z, false).value.ref;
            && ref == Some("#/components/schemas/" + registry[z])
            && Evaluate(Document(schemas), ref.value) == Some(Component(Compile(rules, registry, z, true).value))
  {
    hide Split, Walk, Document, CompileAll, CompileFields;
    var name := registry[z];
    assert IsNamed(registry, name, z);
    PlainHasNone(name);
    TokensOf(name);
    WalkToComponent(schemas, name);
  }

  // So references resolved by place stand for their components.
  lemma PlacesResolve(rules: Rules, registry: Registry, schemas: map<string, Node>, env: Env)
    requires Holds(rules, registry, schemas) && PlainNames(registry) && ResolvesIn(Document(schemas), env)
    ensures Resolves(rules, registry, env)
  {
    hide Compile, Accepts, Evaluate, Document, PlainName;
    forall z, v | z in registry && Named(registry, z)
      ensures env(Reference(registry[z]), v) == Shared(rules, registry, env, z, true, v)
    {
      ReferenceLeads(rules, registry, schemas, z);
      ReferenceOfNamed(rules, registry, z);
    }
  }

  lemma ReferenceOfNamed(rules: Rules, registry: Registry, z: Zod)
    requires Named(registry, z)
    ensures Compile(rules, registry, z, false) == Ok(EMPTY.(ref := Some(Reference(registry[z]))))
  {
  }

  // --- no other reference leads to a component ---

  lemma {:induction false} UnescapedPlain(s: string)
    ensures Unescape(s) == s || '/' in Unescape(s) || '~' in Unescape(s)
  {
    if s != "" {
      if s[0] == '~' && |s| > 1 && (s[1] == '1' || s[1] == '0') {
        assert Unescape(s)[0] in {'/', '~'} && Unescape(s)[0] in Unescape(s);
      } else {
        UnescapedPlain(s[1..]);
        assert Unescape(s) == [s[0]] + Unescape(s[1..]);
      }
    }
  }

  predicate Leads(node: Node, tokens: seq<string>) {
    Walk(node, tokens).Some? && Walk(node, tokens).value.Component?
  }

  lemma WalkInto(key: string, inner: Node, tokens: seq<string>)
    requires '/' !in key && '~' !in key && Leads(Object(map[key := inner]), tokens)
    ensures tokens != [] && tokens[0] == key
    ensures Walk(Object(map[key := inner]), tokens) == Walk(inner, tokens[1..])
  {
    hide Unescape;
    UnescapedPlain(tokens[0]);
  }

  lemma WalkToLast(schemas: map<string, Node>, tokens: seq<string>)
    requires forall name :: name in schemas ==> PlainName(name) && schemas[name].Component?
    requires Leads(Object(schemas), tokens)
    ensures |tokens| == 1 && tokens[0] in schemas && Walk(Object(schemas), tokens) == Some(schemas[tokens[0]])
  {
    hide Unescape, PlainName;
    var name := Unescape(tokens[0]);
    PlainHasNone(name);
    UnescapedPlain(tokens[0]);
    WalkStops(schemas[name], tokens[1..]);
  }

  lemma WalkStops(node: Node, tokens: seq<string>)
    requires node.Component? && Walk(node, tokens).Some?
    ensures tokens == [] && Walk(node, tokens) == Some(node)
  {
  }

  lemma WalkedTokens(schemas: map<string, Node>, tokens: seq<string>)
    requires forall name :: name in schemas ==> PlainName(name) && schemas[name].Component?
    requires Leads(Document(schemas), tokens)
    ensures |tokens| == 3 && tokens[0] == "components" && tokens[1] == "schemas"
    ensures tokens[2] in schemas && Walk(Document(schemas), tokens) == Some(schemas[tokens[2]])
  {
    hide Walk, PlainName;
    NoSlashes();
    WalkInto("components", Object(map["schemas" := Object(schemas)]), tokens);
    WalkInto("schemas", Object(schemas), tokens[1..]);
    WalkToLast(schemas, tokens[1..][1..]);
  }

  lemma OnlyReferencesLead(schemas: map<string, Node>, ref: string)
    requires forall name :: name in schemas ==> PlainName(name) && schemas[name].Component?
    requires Evaluate(Document(schemas), ref).Some? && Evaluate(Document(schemas), ref).value.Component?
    ensures exists name :: name in schemas && ref == Reference(name) && Evaluate(Document(schemas), ref) == Some(schemas[name])
  {
    hide Split, Walk, PlainName, Document, Reference, JoinWith;
    assert ref != "#" by { DocumentIsObject(schemas); }
    var tokens := Split(ref[2..], '/');
    WalkedTokens(schemas, tokens);
    JoinOfSplit(ref[2..], '/');
    ReferenceOfTokens(ref, tokens);
  }

  lemma DocumentIsObject(schemas: map<string, Node>)
    ensures Document(schemas).Object?
  {
  }

  lemma ReferenceOfTokens(ref: string, tokens: seq<string>)
    requires |ref| >= 2 && ref[0] == '#' && ref[1] == '/' && ref[2..] == JoinWith(tokens, "/")
    requires |tokens| == 3 && tokens[0] == "components" && tokens[1] == "schemas"
    ensures ref == Reference(tokens[2])
  {
    hide JoinWith;
    assert tokens == ["components", "schemas", tokens[2]];
    ThreeJoined("components", "schemas", tokens[2]);
    assert ref == "#/" + ref[2..];
  }

  lemma ThreeJoined(a: string, b: string, c: string)
    ensures JoinWith([a, b, c], "/") == a + ("/" + (b + ("/" + c)))
  {
    assert [a, b, c][1..] == [b, c] && [b, c][1..] == [c];
    assert JoinWith([b, c], "/") == b + ("/" + JoinWith([c], "/"));
  }

  // --- documents exist, and mean what the compiler promises ---

  // Resolving by place is possible: some environment does it.
  lemma PlacesCanResolve(rules: Rules, registry: Registry, schemas: map<string, Node>)
    requires Holds(rules, registry, schemas) && PlainNames(registry)
    requires DistinctNames(registry) && forall z :: z in registry ==> Compilable(z)
    ensures ResolvesIn(Document(schemas), Resolution(rules, registry))
  {
    hide Compile, Accepts, Evaluate, Document, PlainName, Means, Reference, Compilable;
    var doc, env := Document(schemas), Resolution(rules, registry);
    ResolutionExists(rules, registry);
    ComponentsArePlain(rules, registry, schemas);
    forall ref, v
      ensures env(ref, v) <==>
        Evaluate(doc, ref).Some? && Evaluate(doc, ref).value.Component? && Accepts(env, Evaluate(doc, ref).value.schema, v)
    {
      PlaceAgrees(rules, registry, schemas, ref, v);
    }
  }

  lemma ComponentsArePlain(rules: Rules, registry: Registry, schemas: map<string, Node>)
    requires Holds(rules, registry, schemas) && PlainNames(registry)
    ensures forall name :: name in schemas ==> PlainName(name) && schemas[name].Component?
  {
    hide Compile, PlainName;
    forall name | name in schemas
      ensures PlainName(name) && schemas[name].Component?
    {
      var z :| IsNamed(registry, name, z);
    }
  }

  lemma PlaceAgrees(rules: Rules, registry: Registry, schemas: map<string, Node>, ref: string, v: Json)
    requires Holds(rules, registry, schemas) && PlainNames(registry) && DistinctNames(registry)
    requires forall z :: z in registry ==> Compilable(z)
    requires Resolves(rules, registry, Resolution(rules, registry))
    requires forall name :: name in schemas ==> PlainName(name) && schemas[name].Component?
    ensures var doc, env := Document(schemas), Resolution(rules, registry);
            env(ref, v) <==>
            Evaluate(doc, ref).Some? && Evaluate(doc, ref).value.Component? && Accepts(env, Evaluate(doc, ref).value.schema, v)
  {
    hide Compile, Accepts, Evaluate, Document, PlainName, Means, Reference, Resolves, Holds;
    var doc, env := Document(schemas), Resolution(rules, registry);
    if env(ref, v) {
      var z :| z in registry && Named(registry, z) && Reference(registry[z]) == ref && Means(rules, registry, z, v);
      ComponentMeans(rules, registry, schemas, env, z, v);
    }
    if Evaluate(doc, ref).Some? && Evaluate(doc, ref).value.Component? {
      OnlyReferencesLead(schemas, ref);
      var name :| name in schemas && ref == Reference(name) && Evaluate(doc, ref) == Some(schemas[name]);
      var z := NamedComponent(rules, registry, schemas, name);
      ComponentMeans(rules, registry, schemas, env, z, v);
    }
  }

  lemma NamedComponent(rules: Rules, registry: Registry, schemas: map<string, Node>, name: string) returns (z: Zod)
    requires Holds(rules, registry, schemas) && name in schemas
    ensures Named(registry, z) && registry[z] == name
  {
    hide Compile;
    z :| IsNamed(registry, name, z);
  }

  // At a component's place stands a schema that accepts what the component means.
  lemma ComponentMeans(rules: Rules, registry: Registry, schemas: map<string, Node>, env: Env, z: Zod, v: Json)
    requires Holds(rules, registry, schemas) && PlainNames(registry) && Named(registry, z) && Compilable(z)
    requires Resolves(rules, registry, env)
    ensures var there := Evaluate(Document(schemas), Reference(registry[z]));
            && there.Some? && there.value.Component?
            && (Accepts(env, there.value.schema, v) <==> Means(rules, registry, z, v))
  {
    hide Compile, Accepts, Evaluate, Document, Means, Reference, Resolves, Holds, PlainName;
    ReferenceLeads(rules, registry, schemas, z);
    ReferenceOfNamed(rules, registry, z);
    SharedIsMeant(rules, registry, env, z, true, v);
  }

  // In a document whose references are resolved by place, a supported schema is sound and a
  // supported, exact one accepts exactly the values it parses.
  lemma DocumentIsExact(rules: Rules, registry: Registry, schemas: map<string, Node>, env: Env, z: Zod, skipRef: bool, v: Json, basicPlane: bool)
    requires Holds(rules, registry, schemas) && PlainNames(registry) && ResolvesIn(Document(schemas), env)
    requires Supported(rules, registry, z, basicPlane) && (basicPlane ==> AllBasicPlane(v))
    ensures Parses(rules, z, Some(v)) ==> Shared(rules, registry, env, z, skipRef, v)
    ensures Exact(rules, z) ==> (Parses(rules, z, Some(v)) <==> Shared(rules, registry, env, z, skipRef, v))
  {
    hide Shared, Supported, Parses, Resolves, ResolvesIn, Holds, PlainNames, Exact;
    PlacesResolve(rules, registry, schemas, env);
    if Parses(rules, z, Some(v)) {
      DocumentIsSound(rules, registry, env, z, skipRef, v, basicPlane);
    }
    if Exact(rules, z) {
      CompilerIsExact(rules, registry, env, z, skipRef, v, basicPlane);
    }
  }
}
