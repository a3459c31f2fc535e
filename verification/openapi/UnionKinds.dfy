/** Plain unions: `oneOf` is right when no two options share a kind of value. */
module UnionKinds {
  import opened Prelude
  import opened Json
  import opened JsonSchema
  import opened Zod
  import opened ZodCompiler
  import opened SchemaMeaning
  import opened ZodMeaning
  import opened ZodLaws

  // --- kinds of values ---

  datatype Kind = NullKind | BoolKind | NumKind | StrKind | ArrKind | ObjKind

  const ALL_KINDS := {NullKind, BoolKind, NumKind, StrKind, ArrKind, ObjKind}

  function KindOf(v: Json): Kind {
    match v
    case Null => NullKind
    case Bool(_) => BoolKind
    case Num(_) => NumKind
    case Str(_) => StrKind
    case Arr(_) => ArrKind
    case Obj(_) => ObjKind
  }

  // The kinds of values a schema has room for, read off its syntax.
  function Kinds(z: Zod): set<Kind>
    decreases z, 1
  {
    match z.def
    case ZodString(_, _) => {StrKind}
    case ZodNumber(_, _) => {NumKind}
    case ZodBoolean(_) => {BoolKind}
    case ZodDate(_, _) => {StrKind}
    case ZodAny(_) => ALL_KINDS
    case ZodLiteral(value) => {KindOf(value)}
    case ZodEnum(_, _) => {StrKind}
    case ZodNullable(inner) => Kinds(inner) + {NullKind}
    case ZodOptional(inner) => Kinds(inner)
    case ZodDefault(inner, _) => Kinds(inner)
    case ZodEffects(inner, _) => Kinds(inner)
    case ZodArray(_, _, _, _) => {ArrKind}
    case ZodRecord(_, _, _) => {ObjKind}
    case ZodUnion(options) => KindsOfAll(options)
    case ZodDiscriminatedUnion(_, options) => KindsOfAll(options)
    case ZodObject(_, _, _) => {ObjKind}
    case Unsupported(_) => {}
  }

  function KindsOfAll(zs: seq<Zod>): (ks: set<Kind>)
    ensures forall i :: 0 <= i < |zs| ==> Kinds(zs[i]) <= ks
    ensures forall k :: k in ks ==> exists i :: 0 <= i < |zs| && k in Kinds(zs[i])
    decreases zs, 0
  {
    if zs == [] then {}
    else
      var rest := KindsOfAll(zs[1..]);
      assert forall k :: k in rest ==> exists i :: 0 <= i < |zs| && k in Kinds(zs[i]) by {
        forall k | k in rest
          ensures exists i :: 0 <= i < |zs| && k in Kinds(zs[i])
        {
          var i :| 0 <= i < |zs| - 1 && k in Kinds(zs[1..][i]);
          assert k in Kinds(zs[i + 1]);
        }
      }
      Kinds(zs[0]) + rest
  }

  predicate DisjointKinds(options: seq<Zod>) {
    forall i, j :: 0 <= i < j < |options| ==> Kinds(options[i]) !! Kinds(options[j])
  }

  // What a generated schema accepts is of a kind the schema has room for.
  lemma {:induction false} MeansOneOfItsKinds(rules: Rules, registry: Registry, z: Zod, v: Json)
    requires Means(rules, registry, z, v)
    ensures KindOf(v) in Kinds(z)
    decreases z, 1
  {
    hide BareEnum, MeetsMinLength, MeetsNumber, RequiredNowhere;
    match z.def
    case ZodNullable(inner) =>
      if v != Null {
        MeansOneOfItsKinds(rules, registry, inner, v);
      }
    case ZodOptional(inner) => MeansOneOfItsKinds(rules, registry, inner, v);
    case ZodDefault(inner, _) => MeansOneOfItsKinds(rules, registry, inner, v);
    case ZodEffects(inner, _) => MeansOneOfItsKinds(rules, registry, inner, v);
    case ZodUnion(options) => UnionMeansOneOfItsKinds(rules, registry, z, v);
    case ZodDiscriminatedUnion(_, options) => UnionMeansOneOfItsKinds(rules, registry, z, v);
    case _ =>
  }

  lemma {:induction false} UnionMeansOneOfItsKinds(rules: Rules, registry: Registry, z: Zod, v: Json)
    requires (z.def.ZodUnion? || z.def.ZodDiscriminatedUnion?) && Means(rules, registry, z, v)
    ensures KindOf(v) in Kinds(z)
    decreases z, 0
  {
    hide Means;
    UnionMeans(rules, registry, z, v);
    var i :| 0 <= i < |z.def.options| && Means(rules, registry, z.def.options[i], v);
    MeansOneOfItsKinds(rules, registry, z.def.options[i], v);
  }

  // Options of different kinds are exclusive.
  lemma DisjointKindsAreExclusive(rules: Rules, registry: Registry, options: seq<Zod>)
    requires DisjointKinds(options)
    ensures Exclusive(rules, registry, options)
  {
    hide Means, Kinds;
    forall v, i, j | 0 <= i < j < |options|
      ensures !(Means(rules, registry, options[i], v) && Means(rules, registry, options[j], v))
    {
      assert Kinds(options[i]) !! Kinds(options[j]);
      if Means(rules, registry, options[i], v) {
        MeansOneOfItsKinds(rules, registry, options[i], v);
        if Means(rules, registry, options[j], v) {
          MeansOneOfItsKinds(rules, registry, options[j], v);
        }
      }
    }
  }

  // So a union of supported options of different kinds is supported.
  lemma DisjointKindsAreSupported(rules: Rules, registry: Registry, z: Zod, basicPlane: bool)
    requires z.def.ZodUnion? && DisjointKinds(z.def.options)
    requires forall i :: 0 <= i < |z.def.options| ==> Supported(rules, registry, z.def.options[i], basicPlane)
    ensures Supported(rules, registry, z, basicPlane)
  {
    hide Exclusive, DisjointKinds;
    DisjointKindsAreExclusive(rules, registry, z.def.options);
  }

  // --- options that take the plainest value of each of their kinds ---

  function Plainest(k: Kind): (v: Json)
    ensures KindOf(v) == k
  {
    match k
    case NullKind => Null
    case BoolKind => Bool(false)
    case NumKind => Num(0.0)
    case StrKind => Str("")
    case ArrKind => Arr([])
    case ObjKind => Obj(map[])
  }

  // No constraint keeps out the plainest value of a kind: no checks (but `int`), no minimum length,
  // no required property.
  predicate Unconstrained(rules: Rules, registry: Registry, z: Zod)
    decreases z
  {
    match z.def
    case ZodString(checks, _) => checks == []
    case ZodNumber(checks, _) => forall i :: 0 <= i < |checks| ==> checks[i].IsInt?
    case ZodBoolean(_) => true
    case ZodAny(_) => true
    case ZodNullable(inner) => Unconstrained(rules, registry, inner) && !BareEnum(registry, inner)
    case ZodOptional(inner) => Unconstrained(rules, registry, inner)
    case ZodDefault(inner, _) => Unconstrained(rules, registry, inner)
    case ZodArray(_, minLength, others, _) => (minLength.Some? ==> minLength.value <= 0) && others == []
    case ZodRecord(_, others, _) => others == []
    case ZodUnion(options) =>
      (forall i :: 0 <= i < |options| ==> Unconstrained(rules, registry, options[i])) && DisjointKinds(options)
    case ZodObject(shape, _, _) => forall i :: 0 <= i < |shape| ==> IsOptional(rules, shape[i].schema)
    case _ => false
  }

  lemma {:induction false} PlainestIsTaken(rules: Rules, registry: Registry, z: Zod, k: Kind)
    requires Unconstrained(rules, registry, z) && k in Kinds(z)
    ensures Means(rules, registry, z, Plainest(k)) && Parses(rules, z, Some(Plainest(k)))
    decreases z, 1
  {
    hide BareEnum, DisjointKinds, MeetsMinLength, MeetsNumber;
    match z.def
    case ZodString(checks, _) => PlainestScalar(rules, registry, z);
    case ZodNumber(checks, _) => PlainestScalar(rules, registry, z);
    case ZodArray(_, _, _, _) => PlainestContainer(rules, registry, z);
    case ZodRecord(_, _, _) => PlainestContainer(rules, registry, z);
    case ZodObject(_, _, _) => PlainestContainer(rules, registry, z);
    case ZodNullable(inner) =>
      if k != NullKind {
        PlainestIsTaken(rules, registry, inner, k);
      }
    case ZodOptional(inner) => PlainestIsTaken(rules, registry, inner, k);
    case ZodDefault(inner, _) => PlainestIsTaken(rules, registry, inner, k);
    case ZodUnion(options) => PlainestOfUnion(rules, registry, z, k);
    case _ =>
  }

  lemma PlainestScalar(rules: Rules, registry: Registry, z: Zod)
    requires Unconstrained(rules, registry, z)
    ensures z.def.ZodString? ==> Means(rules, registry, z, Str("")) && Parses(rules, z, Some(Str("")))
    ensures z.def.ZodNumber? ==> Means(rules, registry, z, Num(0.0)) && Parses(rules, z, Some(Num(0.0)))
  {
    if z.def.ZodNumber? {
      NoMinimum(z.def.numberChecks);
    }
  }

  lemma PlainestContainer(rules: Rules, registry: Registry, z: Zod)
    requires Unconstrained(rules, registry, z)
    ensures z.def.ZodArray? ==> Means(rules, registry, z, Arr([])) && Parses(rules, z, Some(Arr([])))
    ensures z.def.ZodRecord? || z.def.ZodObject? ==> Means(rules, registry, z, Obj(map[])) && Parses(rules, z, Some(Obj(map[])))
  {
  }

  lemma {:induction false} PlainestOfUnion(rules: Rules, registry: Registry, z: Zod, k: Kind)
    requires z.def.ZodUnion? && Unconstrained(rules, registry, z) && k in Kinds(z)
    ensures Means(rules, registry, z, Plainest(k)) && Parses(rules, z, Some(Plainest(k)))
    decreases z, 0
  {
    hide Means, Exclusive;
    var options := z.def.options;
    var i :| 0 <= i < |options| && k in Kinds(options[i]);
    PlainestIsTaken(rules, registry, options[i], k);
    DisjointKindsAreExclusive(rules, registry, options);
    SoundUnion(rules, registry, z, Plainest(k), i);
  }

  lemma {:induction false} NoMinimum(checks: seq<NumberCheck>)
    requires forall i :: 0 <= i < |checks| ==> checks[i].IsInt?
    ensures LastMin(checks).None?
  {
    if checks != [] {
      NoMinimum(checks[..|checks| - 1]);
    }
  }

  // For such options different kinds are necessary too.
  lemma ExclusiveIffDisjointKinds(rules: Rules, registry: Registry, options: seq<Zod>)
    requires forall i :: 0 <= i < |options| ==> Unconstrained(rules, registry, options[i])
    ensures Exclusive(rules, registry, options) <==> DisjointKinds(options)
  {
    hide Means, Kinds, Unconstrained, Parses;
    if DisjointKinds(options) {
      DisjointKindsAreExclusive(rules, registry, options);
    } else {
      var i, j :| 0 <= i < j < |options| && !(Kinds(options[i]) !! Kinds(options[j]));
      var k :| k in Kinds(options[i]) && k in Kinds(options[j]);
      PlainestIsTaken(rules, registry, options[i], k);
      PlainestIsTaken(rules, registry, options[j], k);
    }
  }

  // --- soundness of plain unions ---

  // A plain union of sound options is sound exactly when no value it parses is accepted by two of
  // the generated options.
  lemma UnionIsSoundIffExclusive(rules: Rules, registry: Registry, env: Env, z: Zod, skipRef: bool)
    requires Compilable(z) && z.def.ZodUnion? && Resolves(rules, registry, env)
    requires forall i, v :: 0 <= i < |z.def.options| && Parses(rules, z.def.options[i], Some(v)) ==>
      Means(rules, registry, z.def.options[i], v)
    ensures (forall v :: Parses(rules, z, Some(v)) ==> Shared(rules, registry, env, z, skipRef, v))
       <==> (forall v :: Parses(rules, z, Some(v)) ==> !TwoMean(rules, registry, z.def.options, v))
  {
    hide Means, Shared, Resolves, Compilable, Parses, TwoMean;
    forall v | Parses(rules, z, Some(v))
      ensures Shared(rules, registry, env, z, skipRef, v) <==> !TwoMean(rules, registry, z.def.options, v)
    {
      SharedIsMeant(rules, registry, env, z, skipRef, v);
      ParsedUnionIsMeantIffOnce(rules, registry, z, v);
    }
  }

  lemma ParsedUnionIsMeantIffOnce(rules: Rules, registry: Registry, z: Zod, v: Json)
    requires z.def.ZodUnion? && Parses(rules, z, Some(v))
    requires forall i :: 0 <= i < |z.def.options| && Parses(rules, z.def.options[i], Some(v)) ==> Means(rules, registry, z.def.options[i], v)
    ensures Means(rules, registry, z, v) <==> !TwoMean(rules, registry, z.def.options, v)
  {
    hide Means, OneMeans, TwoMean;
    UnionMeans(rules, registry, z, v);
    var i :| 0 <= i < |z.def.options| && Parses(rules, z.def.options[i], Some(v));
    OneUnlessTwo(rules, registry, z.def.options, v, i);
  }

  ghost predicate TwoMean(rules: Rules, registry: Registry, options: seq<Zod>, v: Json) {
    exists i, j :: 0 <= i < j < |options| && Means(rules, registry, options[i], v) && Means(rules, registry, options[j], v)
  }

  lemma OneUnlessTwo(rules: Rules, registry: Registry, options: seq<Zod>, v: Json, i: nat)
    requires i < |options| && Means(rules, registry, options[i], v)
    ensures OneMeans(rules, registry, options, v) <==> !TwoMean(rules, registry, options, v)
  {
    hide Means;
    if !TwoMean(rules, registry, options, v) {
      forall j | 0 <= j < |options| && j != i
        ensures !Means(rules, registry, options[j], v)
      {
        var p, q := if i < j then i else j, if i < j then j else i;
        assert 0 <= p < q < |options|;
        assert !(Means(rules, registry, options[p], v) && Means(rules, registry, options[q], v));
      }
    } else {
      var p, q :| 0 <= p < q < |options| && Means(rules, registry, options[p], v) && Means(rules, registry, options[q], v);
      forall k | 0 <= k < |options|
        ensures Means(rules, registry, options[k], v) ==>
                  exists j :: 0 <= j < |options| && j != k && Means(rules, registry, options[j], v)
      {
        var j := if k == p then q else p;
        assert j != k && Means(rules, registry, options[j], v);
      }
    }
  }

  // A caller can tell: a plain union of supported, unconstrained options is sound exactly when no
  // two of them share a kind.
  lemma UnionIsSoundIffKindsDiffer(rules: Rules, registry: Registry, env: Env, z: Zod, skipRef: bool, basicPlane: bool)
    requires z.def.ZodUnion? && Resolves(rules, registry, env)
    requires forall i :: 0 <= i < |z.def.options| ==>
      Supported(rules, registry, z.def.options[i], basicPlane) && Unconstrained(rules, registry, z.def.options[i])
    ensures (forall v :: (basicPlane ==> AllBasicPlane(v)) && Parses(rules, z, Some(v)) ==> Shared(rules, registry, env, z, skipRef, v))
       <==> DisjointKinds(z.def.options)
  {
    hide Means, Shared, Resolves, Supported, Parses, Unconstrained, Kinds;
    var options := z.def.options;
    if DisjointKinds(options) {
      DisjointKindsAreSupported(rules, registry, z, basicPlane);
      forall v | (basicPlane ==> AllBasicPlane(v)) && Parses(rules, z, Some(v))
        ensures Shared(rules, registry, env, z, skipRef, v)
      {
        DocumentIsSound(rules, registry, env, z, skipRef, v, basicPlane);
      }
    } else {
      var i, j :| 0 <= i < j < |options| && !(Kinds(options[i]) !! Kinds(options[j]));
      var k :| k in Kinds(options[i]) && k in Kinds(options[j]);
      PlainestIsTaken(rules, registry, options[i], k);
      PlainestIsTaken(rules, registry, options[j], k);
      UnionParses(rules, z, i, Some(Plainest(k)));
      TwiceIsRefused(rules, registry, env, z, skipRef, i, j, Plainest(k), basicPlane);
      assert AllBasicPlane(Plainest(k));
    }
  }

  lemma UnionParses(rules: Rules, z: Zod, i: nat, v: Wire)
    requires z.def.ZodUnion? && i < |z.def.options| && Parses(rules, z.def.options[i], v)
    ensures Parses(rules, z, v)
  {
  }

  // A value that two generated options accept is refused by `oneOf`.
  lemma TwiceIsRefused(rules: Rules, registry: Registry, env: Env, z: Zod, skipRef: bool, i: nat, j: nat, v: Json, basicPlane: bool)
    requires z.def.ZodUnion? && Resolves(rules, registry, env) && i < j < |z.def.options|
    requires forall i :: 0 <= i < |z.def.options| ==> Supported(rules, registry, z.def.options[i], basicPlane)
    requires Means(rules, registry, z.def.options[i], v) && Means(rules, registry, z.def.options[j], v)
    ensures !Shared(rules, registry, env, z, skipRef, v)
  {
    hide Means, Shared, Resolves, Supported;
    forall i | 0 <= i < |z.def.options| { SupportedIsCompilable(rules, registry, z.def.options[i], basicPlane); }
    SharedIsMeant(rules, registry, env, z, skipRef, v);
    UnionMeans(rules, registry, z, v);
  }

  // `z.union([z.string(), z.string()])` takes "x", its JSON Schema does not.
  lemma StringOrStringIsUnsound(rules: Rules)
    ensures var z := Zod(0, ZodUnion([Zod(1, ZodString([], None)), Zod(2, ZodString([], None))]));
            Parses(rules, z, Some(Str("x"))) && !Unshared(rules, z, Str("x"))
  {
    hide Shared;
    var options := [Zod(1, ZodString([], None)), Zod(2, ZodString([], None))];
    var z := Zod(0, ZodUnion(options));
    var v := Str("x");
    assert Parses(rules, options[0], Some(v));
    assert Means(rules, map[], options[0], v) && Means(rules, map[], options[1], v);
    UnsharedIsMeant(rules, z, v);
    UnionMeans(rules, map[], z, v);
  }

  // The union of the introspection response's audience, a string or a list of strings, is exact.
  lemma AudienceIsExact(rules: Rules, registry: Registry, env: Env, z: Zod, skipRef: bool, v: Json)
    requires Resolves(rules, registry, env)
    requires z.def.ZodUnion? && |z.def.options| == 2
    requires z.def.options[0].def.ZodString? && z.def.options[0].def.checks == []
    requires z.def.options[1].def.ZodArray? && z.def.options[1].def.minLength.None? && z.def.options[1].def.others == []
    requires z.def.options[1].def.element.def.ZodString? && z.def.options[1].def.element.def.checks == []
    ensures Parses(rules, z, Some(v)) <==> Shared(rules, registry, env, z, skipRef, v)
  {
    hide Shared, Parses, Resolves;
    var element := z.def.options[1].def.element;
    assert Supported(rules, registry, element, false) && Exact(rules, element);
    assert forall i :: 0 <= i < 2 ==> Supported(rules, registry, z.def.options[i], false) && Exact(rules, z.def.options[i]);
    DisjointKindsAreSupported(rules, registry, z, false);
    CompilerIsExact(rules, registry, env, z, skipRef, v, false);
  }
}
