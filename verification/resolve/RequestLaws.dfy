/** The order of `resolveItems`, request by request: three equations that fix it on every registry. */
module RequestLaws {
  import opened Prelude
  import opened Text
  import opened Resolve
  import opened ResolveLaws
  import opened ResolveOrder

  // What of `s` is not in `c`, in its order.
  function Without(s: seq<string>, c: seq<string>): seq<string> {
    if s == [] then [] else (if s[0] in c then [] else [s[0]]) + Without(s[1..], c)
  }

  lemma {:induction false} WithoutHolds(s: seq<string>, c: seq<string>, k: string)
    ensures k in Without(s, c) <==> k in s && k !in c
  {
    if s != [] {
      assert s == [s[0]] + s[1..];
      WithoutHolds(s[1..], c, k);
    }
  }

  lemma {:induction false} WithoutOfTwo(a: seq<string>, b: seq<string>, c: seq<string>)
    ensures Without(a + b, c) == Without(a, c) + Without(b, c)
  {
    if a == [] {
      assert a + b == b;
    } else {
      assert (a + b)[1..] == a[1..] + b;
      WithoutOfTwo(a[1..], b, c);
    }
  }

  lemma {:induction false} WithoutOneMore(s: seq<string>, k: string, c: seq<string>)
    ensures Without(s + [k], c) == Without(s, c) + if k in c then [] else [k]
  {
    WithoutOfTwo(s, [k], c);
    assert Without([k], c) == (if k in c then [] else [k]) + Without([], c);
  }

  lemma {:induction false} WithoutDeleted(s: seq<string>, k: string, c: seq<string>)
    ensures Without(Delete(s, k), c) == Delete(Without(s, c), k)
  {
    if s != [] {
      WithoutDeleted(s[1..], k, c);
      var rest := Without(s[1..], c);
      assert [] + rest == rest && ([s[0]] + rest)[1..] == rest;
      if s[0] != k {
        assert ([s[0]] + Delete(s[1..], k))[1..] == Delete(s[1..], k);
      } else {
        assert Delete([k] + rest, k) == Delete(rest, k);
      }
    }
  }

  lemma {:induction false} DeleteBehind(c: seq<string>, s: seq<string>, k: string)
    requires k !in c
    ensures Delete(c + s, k) == c + Delete(s, k)
  {
    if c == [] {
      assert c + s == s;
    } else {
      assert c == [c[0]] + c[1..] && (c + s)[1..] == c[1..] + s;
      DeleteBehind(c[1..], s, k);
    }
  }

  // --- what is resolved already only falls away ---

  // Known items whose dependencies are among them.
  predicate Closed(g: Registry, c: seq<string>) {
    forall u :: u in c ==> u in g && forall k :: 0 <= k < |g[u]| ==> Name(g[u][k]) in c
  }

  // The result of a search, as one that starts from `c` gives it.
  function Behind(c: seq<string>, r: Result<seq<string>, string>): Result<seq<string>, string> {
    if r.Ok? then Ok(c + Without(r.value, c)) else r
  }

  lemma {:induction false} AllSeen(g: Registry, seen: seq<string>, raws: seq<string>)
    requires forall k :: 0 <= k < |raws| ==> Name(raws[k]) in seen
    ensures VisitAll(g, seen, raws) == Ok(seen)
    decreases |raws|
  {
    hide Name;
    if raws != [] {
      AllSeen(g, seen, raws[1..]);
    }
  }

  // The end of a visit, behind `c`.
  lemma MovedBehind(c: seq<string>, r: seq<string>, name: string)
    ensures name !in c ==> Delete(c + Without(r, c), name) + [name] == c + Without(Delete(r, name) + [name], c)
    ensures name in c ==> Without(Delete(r, name) + [name], c) == Without(r, c)
  {
    WithoutOneMore(Delete(r, name), name, c);
    WithoutDeleted(r, name, c);
    WithoutHolds(r, c, name);
    if name in c {
      DeleteAbsent(Without(r, c), name);
    } else {
      DeleteBehind(c, Without(r, c), name);
    }
  }

  lemma {:induction false} NameBehind(g: Registry, c: seq<string>, seen: seq<string>, name: string)
    requires Closed(g, c)
    ensures VisitName(g, c + Without(seen, c), name) == Behind(c, VisitName(g, seen, name))
    decreases g.Keys - Elements(seen), 0
  {
    hide Name, Without, VisitAll, Delete;
    WithoutHolds(seen, c, name);
    if name !in seen && name in g {
      var s := c + Without(seen, c);
      Smaller(g, seen, name);
      AllBehind(g, c, seen + [name], g[name]);
      WithoutOneMore(seen, name, c);
      var r := VisitAll(g, seen + [name], g[name]);
      if r.Ok? {
        MovedBehind(c, r.value, name);
      }
      if name in c {
        assert Without(seen, c) + [] == Without(seen, c);
        AllSeen(g, s, g[name]);
      } else {
        assert c + (Without(seen, c) + [name]) == s + [name];
      }
    }
  }

  lemma {:induction false} AllBehind(g: Registry, c: seq<string>, seen: seq<string>, raws: seq<string>)
    requires Closed(g, c)
    ensures VisitAll(g, c + Without(seen, c), raws) == Behind(c, VisitAll(g, seen, raws))
    decreases g.Keys - Elements(seen), |raws|
  {
    hide Name, Without, VisitName, Closed;
    if raws != [] {
      NameBehind(g, c, seen, Name(raws[0]));
      var r := VisitName(g, seen, Name(raws[0]));
      if r.Ok? {
        NoLarger(g, seen, r.value);
        AllBehind(g, c, r.value, raws[1..]);
      }
    }
  }

  // --- the dependencies of what is in progress do not count ---

  lemma {:induction false} NameIgnores(g: Registry, n: string, seen: seq<string>, name: string)
    requires n in seen && n in g
    ensures VisitName(g, seen, name) == VisitName(g[n := []], seen, name)
    decreases g.Keys - Elements(seen), 0
  {
    hide Name, VisitAll;
    if name !in seen && name in g {
      Smaller(g, seen, name);
      AllIgnores(g, n, seen + [name], g[name]);
    }
  }

  lemma {:induction false} AllIgnores(g: Registry, n: string, seen: seq<string>, raws: seq<string>)
    requires n in seen && n in g
    ensures VisitAll(g, seen, raws) == VisitAll(g[n := []], seen, raws)
    decreases g.Keys - Elements(seen), |raws|
  {
    hide Name, VisitName;
    if raws != [] {
      NameIgnores(g, n, seen, Name(raws[0]));
      var r := VisitName(g, seen, Name(raws[0]));
      if r.Ok? {
        NoLarger(g, seen, r.value);
        assert n in Elements(r.value);
        AllIgnores(g, n, r.value, raws[1..]);
      }
    }
  }

  // --- main results ---

  lemma {:induction false} AllOfTwo(g: Registry, seen: seq<string>, a: seq<string>, b: seq<string>)
    ensures VisitAll(g, seen, a + b) ==
            if VisitAll(g, seen, a).Ok? then VisitAll(g, VisitAll(g, seen, a).value, b) else VisitAll(g, seen, a)
    decreases |a|
  {
    hide Name, VisitName;
    if a == [] {
      assert a + b == b;
    } else {
      assert (a + b)[1..] == a[1..] + b && (a + b)[0] == a[0];
      var r := VisitName(g, seen, Name(a[0]));
      if r.Ok? {
        AllOfTwo(g, r.value, a[1..], b);
      }
    }
  }

  lemma ResolvedIsClosed(g: Registry, raws: seq<string>)
    requires ResolveItems(g, raws).Ok?
    ensures Closed(g, ResolveItems(g, raws).value)
  {
    hide Name, VisitAll, Edge, InProgressAt;
    var r := ResolveItems(g, raws).value;
    AllExtends(g, [], raws);
    forall u, k | u in r && 0 <= k < |g[u]|
      ensures Name(g[u][k]) in r
    {
      assert Edge(g, u, Name(g[u][k])) by { ItsDependency(g, u, k); }
      var i := EdgeIsTimed(g, raws, u, Name(g[u][k]));
    }
  }

  lemma ItsDependency(g: Registry, u: string, k: nat)
    requires u in g && k < |g[u]|
    ensures Edge(g, u, Name(g[u][k]))
  {
  }

  lemma NothingAsked(g: Registry)
    ensures ResolveItems(g, []) == Ok([])
  {
  }

  // One more item asked for adds, behind what the others need, what it needs besides, in its own order.
  lemma OneMoreAsked(g: Registry, raws: seq<string>, raw: string)
    ensures var a, b := ResolveItems(g, raws), ResolveItems(g, [raw]);
            ResolveItems(g, raws + [raw]) ==
            if a.Err? then a else if b.Err? then b else Ok(a.value + Without(b.value, a.value))
  {
    hide Name, VisitAll, Closed;
    var a := ResolveItems(g, raws);
    AllOfTwo(g, [], raws, [raw]);
    if a.Ok? {
      ResolvedIsClosed(g, raws);
      AllBehind(g, a.value, [], [raw]);
      assert a.value + Without([], a.value) == a.value;
    }
  }

  // One item comes behind its dependencies, resolved as a request of their own in which it has none
  // itself.
  lemma OneAsked(g: Registry, raw: string)
    ensures var n := Name(raw);
            ResolveItems(g, [raw]) ==
            if n !in g then Err(n)
            else
              var b := ResolveItems(g[n := []], g[n]);
              if b.Err? then b else Ok(Without(b.value, [n]) + [n])
  {
    hide Name, VisitAll, VisitName, Delete;
    var n := Name(raw);
    JustOne(g, raw);
    NameStep(g, [], {}, n, map[]);
    if n in g {
      assert [] + [n] == [n];
      AllIgnores(g, n, [n], g[n]);
      assert Closed(g[n := []], [n]);
      AllBehind(g[n := []], [n], [], g[n]);
      assert [n] + Without([], [n]) == [n];
      var b := ResolveItems(g[n := []], g[n]);
      if b.Ok? {
        var w := Without(b.value, [n]);
        WithoutHolds(b.value, [n], n);
        DeleteAt([], n, w);
        assert [] + [n] + w == [n] + w && [] + w == w;
      }
    }
  }

  lemma JustOne(g: Registry, raw: string)
    ensures ResolveItems(g, [raw]) == VisitName(g, [], Name(raw))
  {
    hide Name, VisitName;
    var r := VisitName(g, [], Name(raw));
    assert [raw][0] == raw && [raw][1..] == [];
    if r.Ok? {
      assert VisitAll(g, r.value, []) == r;
    }
  }

  // --- names ---

  // The name of any text: its last segment, before any slashes at its end, less one `.json`.
  lemma NameIsExact(dir: string, segment: string, slashes: string)
    requires dir == "" || dir[|dir| - 1] == '/'
    requires segment != "" && '/' !in segment && forall i :: 0 <= i < |slashes| ==> slashes[i] == '/'
    ensures var json := |segment| >= 5 && segment[|segment| - 5..] == ".json";
            Name(dir + segment + slashes) == if json then segment[..|segment| - 5] else segment
  {
    hide LastSegment;
    var s := dir + segment;
    assert s[|s| - 1] == segment[|segment| - 1] && segment[|segment| - 1] in segment;
    SlashesFall(s, slashes);
    LastOfPath(dir, segment);
  }

  lemma {:induction false} SlashesFall(s: string, slashes: string)
    requires s == "" || s[|s| - 1] != '/'
    requires forall i :: 0 <= i < |slashes| ==> slashes[i] == '/'
    ensures WithoutSlashes(s + slashes) == s
    decreases |slashes|
  {
    if slashes == "" {
      assert s + slashes == s;
    } else {
      var n := |slashes| - 1;
      assert (s + slashes)[..|s + slashes| - 1] == s + slashes[..n];
      SlashesFall(s, slashes[..n]);
    }
  }

  lemma SlashesHaveNoName(slashes: string)
    requires forall i :: 0 <= i < |slashes| ==> slashes[i] == '/'
    ensures Name(slashes) == ""
  {
    SlashesFall("", slashes);
    assert "" + slashes == slashes;
  }
}
