/** `replaceCode` leaves no mapped name behind: a second pass finds nothing. */
module RewriteTwice {
  import opened Text
  import opened Words
  import opened Rewriter

  // The pass matches nowhere in `s`.
  predicate Inert(t: Table, prev: bool, s: string)
    decreases |s|
  {
    s == "" || ((prev || (EnvHead(s) == 0 && !NameHere(t, s))) && Inert(t, IdentChar(s[0]), s[1..]))
  }

  lemma InertIsKept(t: Table, prev: bool, s: string)
    requires Inert(t, prev, s)
    ensures Pieces(t, prev, s) == Kept(s)
    decreases |s|
  {
    if s != "" {
      InertIsKept(t, IdentChar(s[0]), s[1..]);
    }
  }

  // --- building inert text ---

  lemma InertStep(t: Table, prev: bool, s: string)
    requires s != "" && (prev || (EnvHead(s) == 0 && !NameHere(t, s)))
    requires Inert(t, IdentChar(s[0]), s[1..])
    ensures Inert(t, prev, s)
  {
  }

  lemma {:induction false} InertIdent(t: Table, u: string, y: string)
    requires AllIdent(u) && Inert(t, true, y)
    ensures Inert(t, true, u + y)
  {
    if u == "" {
      assert u + y == y;
    } else {
      InertIdent(t, u[1..], y);
      assert (u + y)[1..] == u[1..] + y;
      InertStep(t, true, u + y);
    }
  }

  predicate NoIdent(w: string) {
    forall i :: 0 <= i < |w| ==> !IdentChar(w[i])
  }

  lemma {:induction false} InertOther(t: Table, prev: bool, w: string, y: string)
    requires w != "" && NoIdent(w) && Inert(t, false, y)
    ensures Inert(t, prev, w + y)
  {
    assert (w + y)[1..] == w[1..] + y;
    if |w| == 1 {
      assert w[1..] + y == y;
    } else {
      InertOther(t, false, w[1..], y);
    }
    InertStep(t, prev, w + y);
  }

  // `y` starts behind a maximal run.
  predicate Behind(y: string) {
    y != "" ==> !IdentChar(y[0])
  }

  lemma InertWord(t: Table, u: string, y: string)
    requires u != "" && AllIdent(u) && u !in t && Behind(y)
    requires EnvHead(u + y) == 0 && Inert(t, true, y)
    ensures Inert(t, false, u + y)
  {
    hide IdentChar, EnvHead;
    RunIs(IdentChar, u + y, |u|);
    assert (u + y)[..|u|] == u;
    InertIdent(t, u[1..], y);
    assert (u + y)[1..] == u[1..] + y;
    InertStep(t, false, u + y);
  }

  // --- what the pass does to the first characters ---

  lemma Unfold(t: Table, prev: bool, s: string)
    requires s != ""
    ensures var m := Match(t, prev, s);
            Rewritten(t, prev, s) == After(m.head) + Rewritten(t, m.prev, m.rest)
  {
    var m := Match(t, prev, s);
    AfterConcat(m.head, Pieces(t, m.prev, m.rest));
  }

  lemma KeepStep(t: Table, prev: bool, s: string)
    requires s != "" && (prev || (EnvHead(s) == 0 && !NameHere(t, s)))
    ensures Rewritten(t, prev, s) == [s[0]] + Rewritten(t, IdentChar(s[0]), s[1..])
  {
    Unfold(t, prev, s);
    assert After([Keep(s[0])]) == [s[0]];
  }

  lemma NameStep(t: Table, s: string)
    requires NameHere(t, s) && EnvHead(s) == 0
    ensures var n := Run(IdentChar, s);
            Rewritten(t, false, s) == t[s[..n]] + Rewritten(t, true, s[n..])
  {
    Unfold(t, false, s);
    var m := Match(t, false, s);
    assert After(m.head) == m.head[0].to + "";
  }

  lemma EnvStep(t: Table, s: string)
    requires EnvHead(s) > 0
    ensures var b := EnvHead(s);
            Rewritten(t, false, s) == s[..b] + ENV_PREFIX_NEW + Rewritten(t, true, s[b + 7..])
  {
    Unfold(t, false, s);
    EnvHitCovers(s[..EnvHead(s)], s[EnvHead(s) + 7..]);
  }

  lemma {:induction false} IdentStep(t: Table, u: string, y: string)
    requires AllIdent(u)
    ensures Rewritten(t, true, u + y) == u + Rewritten(t, true, y)
  {
    hide IdentChar, EnvHead, NameHere, Rewritten;
    if u == "" {
      assert u + y == y;
    } else {
      IdentStep(t, u[1..], y);
      assert (u + y)[1..] == u[1..] + y;
      KeepStep(t, true, u + y);
    }
  }

  predicate StartsWithIdent(s: string) {
    s != "" && IdentChar(s[0])
  }

  lemma EnvStart(t: Table, s: string)
    requires EnvHead(s) > 0
    ensures StartsWithIdent(Rewritten(t, false, s)) && Rewritten(t, false, s)[0] in {'p', 'i'}
  {
    EnvStep(t, s);
    assert (s[..EnvHead(s)] + ENV_PREFIX_NEW + Rewritten(t, true, s[EnvHead(s) + 7..]))[0] == s[0];
  }

  lemma NameStart(t: Table, s: string)
    requires ValidTable(t) && NameHere(t, s) && EnvHead(s) == 0
    ensures StartsWithIdent(Rewritten(t, false, s))
  {
    NameStep(t, s);
    var n := Run(IdentChar, s);
    assert AllIdent(s[..n]);
    assert AllIdent(t[s[..n]]);
  }

  // The pass keeps the first character, or both first characters are identifier characters.
  lemma OtherFirst(t: Table, prev: bool, s: string)
    requires s != "" && !IdentChar(s[0])
    ensures Rewritten(t, prev, s) == [s[0]] + Rewritten(t, false, s[1..])
  {
    KeepStep(t, prev, s);
  }

  lemma IdentFirst(t: Table, prev: bool, s: string)
    requires ValidTable(t) && s != "" && IdentChar(s[0])
    ensures StartsWithIdent(Rewritten(t, prev, s))
    ensures prev ==> Rewritten(t, prev, s) == [s[0]] + Rewritten(t, true, s[1..])
  {
    if prev || (EnvHead(s) == 0 && !NameHere(t, s)) {
      KeepStep(t, prev, s);
    } else if EnvHead(s) > 0 {
      EnvStart(t, s);
    } else {
      NameStart(t, s);
    }
  }

  lemma FirstKept(t: Table, prev: bool, s: string)
    requires ValidTable(t)
    ensures s == "" <==> Rewritten(t, prev, s) == ""
    ensures s != "" ==> IdentChar(s[0]) == IdentChar(Rewritten(t, prev, s)[0])
    ensures s != "" && !IdentChar(s[0]) ==> Rewritten(t, prev, s)[0] == s[0]
  {
    if s != "" {
      if IdentChar(s[0]) {
        IdentFirst(t, prev, s);
      } else {
        OtherFirst(t, prev, s);
      }
    }
  }

  // --- the env pattern is not created by the pass ---

  lemma {:induction false} SpacesKept(t: Table, prev: bool, x: string)
    requires ValidTable(t)
    ensures var a := Run(Space, x);
            && Run(Space, Rewritten(t, prev, x)) == a
            && Rewritten(t, prev, x) == x[..a] + Rewritten(t, prev && a == 0, x[a..])
  {
    hide Rewritten, Run, IdentChar, Space;
    var a := Run(Space, x);
    if a == 0 {
      NoSpaceKept(t, prev, x);
    } else {
      SpaceIsNoIdent(x[0]);
      OtherFirst(t, prev, x);
      var rest := Rewritten(t, false, x[1..]);
      SpacesKept(t, false, x[1..]);
      assert ([x[0]] + rest)[1..] == rest;
    }
  }

  lemma NoSpaceKept(t: Table, prev: bool, x: string)
    requires ValidTable(t) && Run(Space, x) == 0
    ensures Run(Space, Rewritten(t, prev, x)) == 0
    ensures Rewritten(t, prev, x) == x[..0] + Rewritten(t, prev, x[0..])
  {
    hide Rewritten;
    FirstKept(t, prev, x);
    RunIs(Space, Rewritten(t, prev, x), 0);
    assert x[0..] == x;
  }

  lemma SpaceIsNoIdent(c: char)
    ensures Space(c) ==> !IdentChar(c)
  {
  }

  // No name's replacement starts with `lit`.
  ghost predicate Foreign(t: Table, lit: string) {
    lit != "" && AllIdent(lit) && lit[0] != 'p' && lit[0] != 'i' && forall k :: k in t ==> !(lit <= t[k])
  }

  lemma NotAcross(lit: string, v: string, y: string)
    requires AllIdent(lit) && Behind(y) && !(lit <= v)
    ensures !(lit <= v + y)
  {
    if |lit| <= |v| {
      assert (v + y)[..|lit|] == v[..|lit|];
    } else if y != "" {
      assert (v + y)[|v|] == y[0];
      assert IdentChar(lit[|v|]);
    }
  }

  lemma NoMatchUnder(t: Table, z: string, lit: string)
    requires ValidTable(t) && Foreign(t, lit) && lit <= Rewritten(t, false, z)
    ensures z != "" && EnvHead(z) == 0 && !NameHere(t, z)
  {
    if EnvHead(z) > 0 {
      EnvStart(t, z);
    } else if NameHere(t, z) {
      NameStep(t, z);
      var n := Run(IdentChar, z);
      FirstKept(t, true, z[n..]);
      NotAcross(lit, t[z[..n]], Rewritten(t, true, z[n..]));
    }
  }

  lemma {:induction false} LiteralAfterIdent(t: Table, z: string, lit: string)
    requires ValidTable(t) && AllIdent(lit) && lit <= Rewritten(t, true, z)
    ensures lit <= z && Rewritten(t, true, z) == lit + Rewritten(t, true, z[|lit|..])
  {
    if lit != "" {
      FirstKept(t, true, z);
      IdentFirst(t, true, z);
      LiteralAfterIdent(t, z[1..], lit[1..]);
      assert z[1..][|lit| - 1..] == z[|lit|..];
    }
  }

  lemma {:induction false} LiteralKept(t: Table, z: string, lit: string)
    requires ValidTable(t) && Foreign(t, lit) && lit <= Rewritten(t, false, z)
    ensures lit <= z && Rewritten(t, false, z) == lit + Rewritten(t, true, z[|lit|..])
  {
    hide Rewritten, IdentChar, EnvHead, NameHere, ValidTable;
    NoMatchUnder(t, z, lit);
    KeepStep(t, false, z);
    assert lit[0] == z[0] && IdentChar(z[0]);
    var r := Rewritten(t, IdentChar(z[0]), z[1..]);
    assert Rewritten(t, false, z)[0] == z[0] == lit[0];
    assert lit[1..] <= r;
    LiteralAfterIdent(t, z[1..], lit[1..]);
    assert lit == [z[0]] + lit[1..];
    assert z[1..][|lit| - 1..] == z[|lit|..];
  }

  lemma KavachNameKept(t: Table, z: string)
    requires ValidTable(t) && KavachName(Rewritten(t, false, z))
    ensures KavachName(z)
  {
    hide Rewritten;
    LiteralKept(t, z, ENV_PREFIX_OLD);
    var r := Rewritten(t, true, z[7..]);
    assert Rewritten(t, false, z)[7] == r[0];
    FirstKept(t, true, z[7..]);
    IdentFirst(t, true, z[7..]);
  }

  function Strip(x: string): string {
    x[Run(Space, x)..]
  }

  lemma EnvTailIff(x: string)
    ensures EnvTail(x) > 0 <==>
            var y := Strip(x);
            y != "" && y[0] == '.' && KavachName(Strip(y[1..]))
  {
    var a := Run(Space, x);
    if a < |x| {
      assert x[a..][1..] == x[a + 1..];
      var b := a + 1 + Run(Space, x[a + 1..]);
      assert x[a + 1..][b - a - 1..] == x[b..];
    }
  }

  lemma StripKept(t: Table, prev: bool, x: string) returns (p: bool)
    requires ValidTable(t)
    ensures Strip(Rewritten(t, prev, x)) == Rewritten(t, p, Strip(x))
    ensures !prev ==> !p
  {
    hide Rewritten;
    SpacesKept(t, prev, x);
    p := prev && Run(Space, x) == 0;
  }

  // `Rewritten` behind an env object has an env tail only if the original had it.
  lemma TailKept(t: Table, x: string)
    requires ValidTable(t) && EnvTail(Rewritten(t, true, x)) > 0
    ensures EnvTail(x) > 0
  {
    hide Rewritten, EnvTail, Strip;
    var r := Rewritten(t, true, x);
    EnvTailIff(x);
    EnvTailIff(r);
    var p := StripKept(t, true, x);
    var y := Strip(x);
    FirstKept(t, p, y);
    OtherFirst(t, p, y);
    assert Strip(r)[1..] == Rewritten(t, false, y[1..]);
    var q := StripKept(t, false, y[1..]);
    KavachNameKept(t, Strip(y[1..]));
  }

  // A literal `.word` behind a run is kept.
  lemma DotWordKept(t: Table, y: string, w: string)
    requires ValidTable(t) && Foreign(t, w) && "." + w <= Rewritten(t, true, y)
    ensures "." + w <= y && Rewritten(t, true, y) == "." + w + Rewritten(t, true, y[1 + |w|..])
  {
    hide Rewritten;
    assert Rewritten(t, true, y)[0] == '.';
    FirstKept(t, true, y);
    OtherFirst(t, true, y);
    assert w == ("." + w)[1..] <= Rewritten(t, true, y)[1..];
    LiteralKept(t, y[1..], w);
    assert y[1..][|w|..] == y[1 + |w|..];
  }

  // The run an env object starts with is exactly `process` or `import`.
  lemma RunOfObject(u: string, y: string, w: string, rest: string)
    requires AllIdent(u) && Behind(y) && AllIdent(w) && w + ("." + rest) <= u + y
    ensures u == w && "." + rest <= y
  {
    var s := u + y;
    assert s[..|w| + 1 + |rest|] == w + ("." + rest);
    assert s[|w|] == (w + ("." + rest))[|w|] == '.';
    assert forall i :: 0 <= i < |w| ==> s[i] == w[i];
    assert |u| <= |w|;
    assert |u| < |s| ==> s[|u|] == y[0];
    assert |u| == |w|;
    assert s[|u|..] == y;
    assert s[|u|..][..1 + |rest|] == "." + rest;
    assert s[..|u|] == u && s[..|w|] == w;
  }

  lemma ForeignWords(t: Table)
    requires ValidTable(t)
    ensures Foreign(t, "env") && Foreign(t, "meta") && Foreign(t, ENV_PREFIX_OLD)
  {
  }

  lemma EnvHeadCases(s: string)
    ensures EnvHead(s) > 0 <==>
            || ("process.env" <= s && EnvTail(s[11..]) > 0)
            || ("import.meta.env" <= s && EnvTail(s[15..]) > 0)
  {
    hide EnvTail;
    assert "process.env"[0] == 'p' && "import.meta.env"[0] == 'i';
  }

  lemma ProcessNotCreated(t: Table, u: string, y: string)
    requires ValidTable(t) && AllIdent(u) && Behind(y)
    requires var out := u + Rewritten(t, true, y); "process.env" <= out && EnvTail(out[11..]) > 0
    ensures "process.env" <= u + y && EnvTail((u + y)[11..]) > 0
  {
    hide Rewritten, EnvTail, Run, ValidTable, Foreign;
    var r := Rewritten(t, true, y);
    BehindKept(t, y);
    ForeignWords(t);
    assert "process" + ("." + "env") == "process.env";
    RunOfObject(u, r, "process", "env");
    DotWordKept(t, y, "env");
    assert (u + r)[11..] == r[4..] == Rewritten(t, true, y[4..]);
    assert (u + y)[11..] == y[4..];
    TailKept(t, y[4..]);
  }

  lemma ImportNotCreated(t: Table, u: string, y: string)
    requires ValidTable(t) && AllIdent(u) && Behind(y)
    requires var out := u + Rewritten(t, true, y); "import.meta.env" <= out && EnvTail(out[15..]) > 0
    ensures "import.meta.env" <= u + y && EnvTail((u + y)[15..]) > 0
  {
    hide Rewritten, EnvTail, Run, ValidTable, Foreign;
    var r := Rewritten(t, true, y);
    BehindKept(t, y);
    assert "import" + ("." + "meta.env") == "import.meta.env";
    RunOfObject(u, r, "import", "meta.env");
    MetaEnvKept(t, y);
    assert (u + r)[15..] == r[9..] == Rewritten(t, true, y[9..]);
    assert (u + y)[15..] == y[9..];
    TailKept(t, y[9..]);
  }

  lemma MetaEnvKept(t: Table, y: string)
    requires ValidTable(t) && ".meta.env" <= Rewritten(t, true, y)
    ensures ".meta.env" <= y && Rewritten(t, true, y)[9..] == Rewritten(t, true, y[9..])
  {
    hide Rewritten, EnvTail, Run, ValidTable, Foreign;
    var r := Rewritten(t, true, y);
    ForeignWords(t);
    assert "." + "meta" == ".meta.env"[..5];
    DotWordKept(t, y, "meta");
    var r' := Rewritten(t, true, y[5..]);
    assert r[5..] == r' && ".meta.env"[5..] == "." + "env";
    DotWordKept(t, y[5..], "env");
    assert y[5..][4..] == y[9..] && r'[4..] == r[9..];
  }

  // Behind a run that was kept, the pass creates no env match.
  lemma EnvNotCreated(t: Table, u: string, y: string)
    requires ValidTable(t) && AllIdent(u) && Behind(y)
    requires EnvHead(u + Rewritten(t, true, y)) > 0
    ensures EnvHead(u + y) > 0
  {
    hide Rewritten, EnvTail, EnvHead, EnvObject, Run, ValidTable;
    var out := u + Rewritten(t, true, y);
    EnvHeadCases(out);
    EnvHeadCases(u + y);
    if "process.env" <= out && EnvTail(out[11..]) > 0 {
      ProcessNotCreated(t, u, y);
    } else {
      ImportNotCreated(t, u, y);
    }
  }

  lemma BehindKept(t: Table, y: string)
    requires ValidTable(t) && Behind(y)
    ensures Behind(Rewritten(t, true, y))
  {
    FirstKept(t, true, y);
  }

  // --- a rewritten env match is inert ---

  lemma StripOf(v: string, y: string)
    requires forall i :: 0 <= i < |v| ==> Space(v[i])
    requires y != "" && !Space(y[0])
    ensures Strip(v + y) == y
  {
    RunIs(Space, v + y, |v|);
  }

  lemma EnvTailShape(x: string) returns (v: string, w: string)
    requires EnvTail(x) > 0
    ensures x[..EnvTail(x)] == v + "." + w
    ensures forall i :: 0 <= i < |v| ==> Space(v[i])
    ensures forall i :: 0 <= i < |w| ==> Space(w[i])
  {
    var a := Run(Space, x);
    v, w := x[..a], x[a + 1..EnvTail(x)];
    assert w == x[a + 1..][..EnvTail(x) - a - 1];
  }

  // Text between an env object and KAVACH_ has no env tail once KAVACH_ is gone.
  lemma TailGone(x: string, z: string)
    requires EnvTail(x) > 0 && StartsWithIdent(z) && !(ENV_PREFIX_OLD <= z)
    ensures var mid := x[..EnvTail(x)];
            mid != "" && NoIdent(mid) && EnvTail(mid + z) == 0
  {
    hide EnvTail, Strip;
    var v, w := EnvTailShape(x);
    var y := "." + (w + z);
    assert v + "." + w + z == v + y;
    StripOf(v, y);
    StripOf(w, z);
    assert y[1..] == w + z;
    EnvTailIff(v + y);
  }

  lemma NoEnvHead(s: string)
    requires s == "" || (s[0] != 'p' && s[0] != 'i')
    ensures EnvHead(s) == 0
  {
    assert "process.env"[0] == 'p' && "import.meta.env"[0] == 'i';
  }

  lemma NoEnvHeadBefore(x: string)
    requires EnvTail(x) == 0
    ensures EnvHead("process.env" + x) == 0 && EnvHead("import.meta.env" + x) == 0
  {
    hide EnvTail, Run;
    var p, i := "process.env" + x, "import.meta.env" + x;
    assert p[0] == 'p' && i[0] == 'i' && "process.env"[0] == 'p' && "import.meta.env"[0] == 'i';
    assert p[11..] == x && i[15..] == x;
    EnvHeadCases(p);
    EnvHeadCases(i);
  }

  // `env` and what follows it, behind the dot of an env object.
  lemma EnvWordInert(t: Table, mid: string, z: string)
    requires ValidTable(t) && mid != "" && NoIdent(mid) && Inert(t, false, z)
    ensures Inert(t, true, ".env" + mid + z)
  {
    hide Run, Inert;
    var y := mid + z;
    InertOther(t, true, mid, z);
    assert y[0] == mid[0];
    assert ("env" + y)[0] == 'e';
    NoEnvHead("env" + y);
    InertWord(t, "env", y);
    InertOther(t, true, ".", "env" + y);
    assert "." + ("env" + y) == ".env" + mid + z;
  }

  lemma ProcessInert(t: Table, mid: string, z: string)
    requires ValidTable(t) && mid != "" && NoIdent(mid) && Inert(t, false, z) && EnvTail(mid + z) == 0
    ensures Inert(t, false, "process.env" + mid + z)
  {
    hide Run, Inert, EnvTail;
    EnvWordInert(t, mid, z);
    var y := ".env" + mid + z;
    assert "process" + y == "process.env" + (mid + z) == "process.env" + mid + z;
    NoEnvHeadBefore(mid + z);
    InertWord(t, "process", y);
  }

  lemma MetaWordInert(t: Table, mid: string, z: string)
    requires ValidTable(t) && mid != "" && NoIdent(mid) && Inert(t, false, z)
    ensures Inert(t, true, "." + ("meta" + (".env" + mid + z)))
  {
    hide Run, Inert, EnvTail;
    EnvWordInert(t, mid, z);
    var y := ".env" + mid + z;
    assert y[0] == '.' && ("meta" + y)[0] == 'm';
    NoEnvHead("meta" + y);
    InertWord(t, "meta", y);
    InertOther(t, true, ".", "meta" + y);
  }

  lemma ImportInert(t: Table, mid: string, z: string)
    requires ValidTable(t) && mid != "" && NoIdent(mid) && Inert(t, false, z) && EnvTail(mid + z) == 0
    ensures Inert(t, false, "import.meta.env" + mid + z)
  {
    hide Run, Inert, EnvTail, ValidTable;
    MetaWordInert(t, mid, z);
    var y := "." + ("meta" + (".env" + mid + z));
    assert "import" + y == "import.meta.env" + (mid + z) == "import.meta.env" + mid + z;
    NoEnvHeadBefore(mid + z);
    ImportIsNew(t);
    InertWord(t, "import", y);
  }

  lemma ImportIsNew(t: Table)
    requires ValidTable(t)
    ensures "import" !in t
  {
  }

  // --- the main result ---

  lemma EnvHeadShape(s: string) returns (x: string)
    requires EnvHead(s) > 0
    ensures EnvTail(x) > 0
    ensures s[..EnvHead(s)] == "process.env" + x[..EnvTail(x)] || s[..EnvHead(s)] == "import.meta.env" + x[..EnvTail(x)]
  {
    hide EnvTail;
    x := s[EnvObject(s)..];
  }

  lemma RewrittenEnvInert(t: Table, s: string, y: string)
    requires ValidTable(t) && EnvHead(s) > 0 && Inert(t, true, y)
    ensures Inert(t, false, s[..EnvHead(s)] + (ENV_PREFIX_NEW + y))
  {
    hide Inert, EnvTail, EnvHead, Run;
    var z := ENV_PREFIX_NEW + y;
    NewPrefixInert(t, y);
    var x := EnvHeadShape(s);
    TailGone(x, z);
    ProcessInert(t, x[..EnvTail(x)], z);
    ImportInert(t, x[..EnvTail(x)], z);
  }

  lemma NewPrefixInert(t: Table, y: string)
    requires ValidTable(t) && Inert(t, true, y)
    ensures Inert(t, false, ENV_PREFIX_NEW + y)
  {
    hide Inert;
    var z := ENV_PREFIX_NEW + y;
    var n := Run(IdentChar, z);
    NoEnvHead(z);
    if n > 0 {
      var m := |ENV_PREFIX_NEW|;
      assert z[..m] == ENV_PREFIX_NEW && AllIdent(z[..m]);
      assert z[n..] == "" || !IdentChar(z[n]);
      assert m <= n;
      assert ENV_PREFIX_NEW == z[..n][..m];
      assert z[..n] !in t;
    }
    assert !NameHere(t, z);
    InertIdent(t, ENV_PREFIX_NEW[1..], y);
    assert z[1..] == ENV_PREFIX_NEW[1..] + y;
    InertStep(t, false, z);
  }

  lemma KeptRun(t: Table, s: string)
    requires s != "" && EnvHead(s) == 0 && !NameHere(t, s) && IdentChar(s[0])
    ensures var n := Run(IdentChar, s);
            Rewritten(t, false, s) == s[..n] + Rewritten(t, true, s[n..])
  {
    hide Rewritten, EnvHead;
    var n := Run(IdentChar, s);
    var u, y := s[..n], s[n..];
    KeepStep(t, false, s);
    assert s[1..] == u[1..] + y && u == [s[0]] + u[1..];
    IdentStep(t, u[1..], y);
  }

  // A kept run followed by rewritten text is inert.
  lemma KeptRunInert(t: Table, s: string)
    requires ValidTable(t) && s != "" && EnvHead(s) == 0 && !NameHere(t, s) && IdentChar(s[0])
    requires Inert(t, true, Rewritten(t, true, s[Run(IdentChar, s)..]))
    ensures Inert(t, false, Rewritten(t, false, s))
  {
    hide Rewritten, Inert, EnvHead, ValidTable;
    KeptRun(t, s);
    var n := Run(IdentChar, s);
    var u, y := s[..n], s[n..];
    assert u + y == s && AllIdent(u);
    var r := Rewritten(t, true, y);
    BehindKept(t, y);
    if EnvHead(u + r) > 0 {
      EnvNotCreated(t, u, y);
    }
    InertWord(t, u, r);
  }

  lemma RewrittenNameInert(t: Table, s: string)
    requires ValidTable(t) && EnvHead(s) == 0 && NameHere(t, s)
    requires Inert(t, true, Rewritten(t, true, s[Run(IdentChar, s)..]))
    ensures Inert(t, false, Rewritten(t, false, s))
  {
    hide Rewritten, Inert, EnvHead;
    var n := Run(IdentChar, s);
    var u, y := t[s[..n]], s[n..];
    assert AllIdent(s[..n]) && AllIdent(u);
    NameStep(t, s);
    BehindKept(t, y);
    var r := Rewritten(t, true, y);
    CanonicalHasNoEnvHead(t, s[..n], r);
    InertWord(t, u, r);
  }

  lemma CanonicalHasNoEnvHead(t: Table, k: string, r: string)
    requires ValidTable(t) && k in t && AllIdent(t[k]) && Behind(r)
    ensures EnvHead(t[k] + r) == 0
  {
    hide EnvHead, EnvTail;
    var u := t[k];
    EnvHeadCases(u + r);
    if "process.env" <= u + r {
      assert "process" + ("." + "env") == "process.env";
      RunOfObject(u, r, "process", "env");
    }
    if "import.meta.env" <= u + r {
      assert "import" + ("." + "meta.env") == "import.meta.env";
      RunOfObject(u, r, "import", "meta.env");
    }
  }

  // A second pass over rewritten text matches nowhere.
  lemma {:induction false} RewrittenIsInert(t: Table, prev: bool, s: string)
    requires ValidTable(t)
    ensures Inert(t, prev, Rewritten(t, prev, s))
    decreases |s|
  {
    hide Rewritten, Inert, EnvHead, NameHere, ValidTable;
    if s == "" {
      NothingInert(t, prev);
    } else if !IdentChar(s[0]) {
      RewrittenIsInert(t, false, s[1..]);
      OtherFirst(t, prev, s);
      InertOther(t, prev, [s[0]], Rewritten(t, false, s[1..]));
    } else if prev {
      RewrittenIsInert(t, true, s[1..]);
      IdentFirst(t, true, s);
      InertIdent(t, [s[0]], Rewritten(t, true, s[1..]));
    } else if EnvHead(s) > 0 {
      RewrittenIsInert(t, true, s[EnvHead(s) + 7..]);
      EnvMatchInert(t, s);
    } else {
      RewrittenIsInert(t, true, s[Run(IdentChar, s)..]);
      if NameHere(t, s) {
        RewrittenNameInert(t, s);
      } else {
        KeptRunInert(t, s);
      }
    }
  }

  lemma NothingInert(t: Table, prev: bool)
    ensures Inert(t, prev, Rewritten(t, prev, ""))
  {
  }

  lemma EnvMatchInert(t: Table, s: string)
    requires ValidTable(t) && EnvHead(s) > 0
    requires Inert(t, true, Rewritten(t, true, s[EnvHead(s) + 7..]))
    ensures Inert(t, false, Rewritten(t, false, s))
  {
    hide Rewritten, Inert, EnvHead, ValidTable;
    var y := Rewritten(t, true, s[EnvHead(s) + 7..]);
    EnvStep(t, s);
    RewrittenEnvInert(t, s, y);
    assert s[..EnvHead(s)] + ENV_PREFIX_NEW + y == s[..EnvHead(s)] + (ENV_PREFIX_NEW + y);
  }

  // `replaceCode` is idempotent, and its second pass counts nothing.
  lemma ReplaceCodeTwice(t: Table, s: string)
    requires ValidTable(t)
    ensures ReplaceCode(t, ReplaceCode(t, s)) == ReplaceCode(t, s)
    ensures CodeKeys(t, ReplaceCode(t, s)) == []
  {
    RewrittenIsInert(t, false, s);
    InertIsKept(t, false, ReplaceCode(t, s));
    KeptIsInert(ReplaceCode(t, s));
  }

  lemma {:induction false} NoMatchInInert(t: Table, prev: bool, s: string, i: nat)
    requires Inert(t, prev, s) && i < |s|
    requires if i == 0 then !prev else !IdentChar(s[i - 1])
    ensures !NameHere(t, s[i..]) && EnvHead(s[i..]) == 0
    decreases i
  {
    if i == 0 {
      assert s[0..] == s;
    } else {
      NoMatchInInert(t, IdentChar(s[0]), s[1..], i - 1);
      assert s[1..][i - 1..] == s[i..];
    }
  }

  // After the pass no old name and no env match is left at any place where one could start.
  lemma NoOldNameLeft(t: Table, s: string, i: nat)
    requires ValidTable(t) && i < |ReplaceCode(t, s)|
    requires i > 0 ==> !IdentChar(ReplaceCode(t, s)[i - 1])
    ensures !NameHere(t, ReplaceCode(t, s)[i..]) && EnvHead(ReplaceCode(t, s)[i..]) == 0
  {
    RewrittenIsInert(t, false, s);
    NoMatchInInert(t, false, ReplaceCode(t, s), i);
  }
}
