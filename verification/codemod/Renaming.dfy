/** What `replaceCode` does, word by word: these equations leave it no choice. */
module Renaming {
  import opened Text
  import opened Words
  import opened Rewriter
  import opened RewriteTwice
  import opened Contexts

  // `s` starts with `process.env` or `import.meta.env`, a dot with white space around it, and an
  // old env name, which starts the word `w` after its prefix.
  predicate EnvSplit(s: string, object_: string, ws1: string, ws2: string, w: string) {
    && object_ in {"process.env", "import.meta.env"} && AllSpace(ws1) && AllSpace(ws2)
    && w != "" && WordChar(w[0])
    && s == object_ + (ws1 + ("." + (ws2 + ("KAVACH_" + w))))
  }

  ghost predicate StartsEnv(s: string) {
    exists object_, ws1, ws2, w :: EnvSplit(s, object_, ws1, ws2, w)
  }

  lemma SpacesRun(ws: string, y: string)
    requires AllSpace(ws) && (y != "" ==> !Space(y[0]))
    ensures Run(Space, ws + y) == |ws|
  {
    hide Space;
    var s := ws + y;
    assert forall i :: 0 <= i < |ws| ==> s[i] == ws[i];
    assert |ws| < |s| ==> s[|ws|] == y[0];
    RunIs(Space, s, |ws|);
  }

  lemma KavachStarts(w: string)
    requires w != "" && WordChar(w[0])
    ensures KavachName("KAVACH_" + w) && ("KAVACH_" + w)[0] == 'K' && !Space('K') && !Space('.')
  {
    var z := "KAVACH_" + w;
    assert z[..7] == "KAVACH_" && z[7] == w[0];
  }

  lemma TailOfSplit(ws1: string, ws2: string, w: string)
    requires AllSpace(ws1) && AllSpace(ws2) && w != "" && WordChar(w[0])
    ensures EnvTail(ws1 + ("." + (ws2 + ("KAVACH_" + w)))) == |ws1| + 1 + |ws2|
  {
    hide Space, WordChar, KavachName;
    KavachStarts(w);
    var z := "KAVACH_" + w;
    var y := ws2 + z;
    var x := ws1 + ("." + y);
    SpacesRun(ws1, "." + y);
    SpacesRun(ws2, z);
    assert x[|ws1|] == '.' && x[|ws1| + 1..] == y;
    assert x[|ws1| + 1 + |ws2|..] == z;
  }

  lemma SplitOfTail(x: string) returns (ws1: string, ws2: string, w: string)
    requires EnvTail(x) > 0
    ensures AllSpace(ws1) && AllSpace(ws2) && w != "" && WordChar(w[0])
    ensures x == ws1 + ("." + (ws2 + ("KAVACH_" + w)))
  {
    hide Space, WordChar, Run, KavachName;
    var a := Run(Space, x);
    var y := x[a + 1..];
    var b := Run(Space, y);
    var z := y[b..];
    assert x[a + 1 + b..] == z;
    KavachShape(z);
    ws1, ws2, w := x[..a], y[..b], z[7..];
    assert y == ws2 + z;
    assert x == ws1 + ([x[a]] + y);
  }

  lemma KavachShape(z: string)
    requires KavachName(z)
    ensures |z| > 7 && z == "KAVACH_" + z[7..] && WordChar(z[7..][0])
  {
    hide WordChar;
    assert z[..7] == "KAVACH_";
  }

  lemma ObjectShape(s: string)
    requires EnvObject(s) > 0
    ensures s[..EnvObject(s)] in {"process.env", "import.meta.env"}
  {
    if "process.env" <= s {
      assert s[..11] == "process.env";
    } else {
      assert s[..15] == "import.meta.env";
    }
  }

  lemma ObjectOf(object_: string, x: string)
    requires object_ in {"process.env", "import.meta.env"}
    ensures EnvObject(object_ + x) == |object_| && (object_ + x)[|object_|..] == x
  {
    var s := object_ + x;
    assert s[..|object_|] == object_;
    assert s[0] == object_[0];
    assert "process.env"[0] == 'p' && "import.meta.env"[0] == 'i';
  }

  // The env alternative of the pattern, without running it.
  lemma EnvHeadOfSplit(s: string, object_: string, ws1: string, ws2: string, w: string)
    requires EnvSplit(s, object_, ws1, ws2, w)
    ensures EnvHead(s) == |object_| + |ws1| + 1 + |ws2|
  {
    hide EnvTail, EnvObject, Space, WordChar;
    var x := ws1 + ("." + (ws2 + ("KAVACH_" + w)));
    ObjectOf(object_, x);
    TailOfSplit(ws1, ws2, w);
  }

  lemma EnvHeadIsSplit(s: string)
    ensures EnvHead(s) > 0 <==> StartsEnv(s)
  {
    hide EnvTail, EnvSplit;
    if EnvHead(s) > 0 {
      SplitOfHead(s);
    }
    forall object_, ws1, ws2, w | EnvSplit(s, object_, ws1, ws2, w)
      ensures EnvHead(s) > 0
    {
      EnvHeadOfSplit(s, object_, ws1, ws2, w);
    }
  }

  lemma SplitOfHead(s: string)
    requires EnvHead(s) > 0
    ensures StartsEnv(s)
  {
    hide EnvTail, EnvObject, Space, WordChar;
    var h := EnvObject(s);
    ObjectShape(s);
    var ws1, ws2, w := SplitOfTail(s[h..]);
    var object_ := s[..h];
    assert s == object_ + s[h..];
    assert EnvSplit(s, object_, ws1, ws2, w);
  }

  // --- the equations ---

  lemma NothingIsKept(t: Table, prev: bool)
    ensures Rewritten(t, prev, "") == ""
  {
  }

  // A character outside words is kept.
  lemma OtherIsKept(t: Table, prev: bool, c: char, y: string)
    requires !IdentChar(c)
    ensures Rewritten(t, prev, [c] + y) == [c] + Rewritten(t, false, y)
  {
    hide Rewritten;
    assert ([c] + y)[1..] == y;
    OtherFirst(t, prev, [c] + y);
  }

  // So is what follows a word character.
  lemma RestOfWordIsKept(t: Table, u: string, y: string)
    requires AllIdent(u)
    ensures Rewritten(t, true, u + y) == u + Rewritten(t, true, y)
  {
    IdentStep(t, u, y);
  }

  // A whole word that starts no env name is replaced if and only if it is an old name.
  lemma WordIsRenamed(t: Table, u: string, y: string)
    requires u != "" && AllIdent(u) && (y != "" ==> !IdentChar(y[0])) && !StartsEnv(u + y)
    ensures Rewritten(t, false, u + y) == (if u in t then t[u] else u) + Rewritten(t, true, y)
  {
    hide Rewritten, StartsEnv, EnvHead;
    EnvHeadIsSplit(u + y);
    var s := u + y;
    RunIs(IdentChar, s, |u|);
    assert s[..|u|] == u && s[|u|..] == y;
    if u in t {
      NameStep(t, s);
    } else {
      KeepStep(t, false, s);
      assert s[1..] == u[1..] + y && u == [u[0]] + u[1..];
      IdentStep(t, u[1..], y);
    }
  }

  // An env name gets the new prefix; the rest of its word is kept.
  lemma EnvNameIsRenamed(t: Table, s: string, object_: string, ws1: string, ws2: string, w: string)
    requires EnvSplit(s, object_, ws1, ws2, w)
    ensures Rewritten(t, false, s) == object_ + (ws1 + ("." + (ws2 + ("THEAUTH_" + Rewritten(t, true, w)))))
  {
    hide Rewritten, EnvHead, Space, WordChar, AllSpace;
    EnvHeadOfSplit(s, object_, ws1, ws2, w);
    EnvStep(t, s);
    var h := object_ + (ws1 + ("." + ws2));
    EnvGroups(object_, ws1, ws2, "KAVACH_" + w);
    EnvGroups(object_, ws1, ws2, "THEAUTH_" + Rewritten(t, true, w));
    CutOut(s, h, "KAVACH_", w);
    Reassociate(h, "THEAUTH_", Rewritten(t, true, w));
  }

  lemma CutOut(s: string, h: string, p: string, w: string)
    requires s == h + (p + w)
    ensures s[..|h|] == h && s[|h| + |p|..] == w
  {
    assert s == h + p + w;
  }

  lemma Reassociate(a: string, b: string, c: string)
    ensures a + b + c == a + (b + c)
  {
  }

  lemma EnvGroups(a: string, b: string, c: string, d: string)
    ensures a + (b + ("." + (c + d))) == a + (b + ("." + c)) + d
  {
    assert "." + (c + d) == "." + c + d;
    assert b + ("." + c + d) == b + ("." + c) + d;
  }
}
