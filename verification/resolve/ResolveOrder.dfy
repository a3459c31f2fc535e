/** The order `Resolve` gives: a dependency comes late exactly when its visit is still going on. */
module ResolveOrder {
  import opened Prelude
  import opened Resolve
  import opened ResolveLaws

  // --- the order ---

  type Entered = map<string, set<string>>

  // The i-th item was entered when the visits of `entered[r[i]]` were going on. Its dependencies are
  // among these, or finished before it (an item of `open` is not at its place yet); and what was
  // going on finishes after it.
  predicate Timed(g: Registry, r: seq<string>, i: nat, open: set<string>, entered: Entered)
    requires i < |r|
  {
    && r[i] in entered
    && (forall k :: r[i] in g && 0 <= k < |g[r[i]]| ==> DependencyTimed(r, i, Name(g[r[i]][k]), open, entered[r[i]]))
    && forall a :: a in entered[r[i]] ==> a in open || ComesAfter(r, i, a)
  }

  predicate DependencyTimed(r: seq<string>, i: nat, v: string, open: set<string>, during: set<string>)
    requires i < |r|
  {
    v in r && (v == r[i] || v in during || (v !in open && ComesBefore(r, i, v)))
  }

  predicate ComesBefore(r: seq<string>, i: nat, v: string)
    requires i < |r|
  {
    exists j :: 0 <= j < i && r[j] == v
  }

  predicate ComesAfter(r: seq<string>, i: nat, v: string)
    requires i < |r|
  {
    exists j :: i < j < |r| && r[j] == v
  }

  predicate AllTimed(g: Registry, r: seq<string>, from: nat, open: set<string>, entered: Entered) {
    && (forall i: nat :: from <= i < |r| ==> Timed(g, r, i, open, entered))
    && forall x :: x in entered ==> exists i :: from <= i < |r| && r[i] == x
  }

  lemma {:induction false} VisitIsTimed(g: Registry, seen: seq<string>, open: set<string>, name: string)
    requires Distinct(seen) && VisitName(g, seen, name).Ok?
    ensures AllTimed(g, VisitName(g, seen, name).value, |seen|, open, EnteredName(g, seen, open, name))
    decreases g.Keys - Elements(seen), 0
  {
    hide Name, VisitAll, EnteredAll, Timed;
    if name !in seen {
      VisitStep(g, seen, name);
      Smaller(g, seen, name);
      var r := VisitAll(g, seen + [name], g[name]).value;
      AllIsTimed(g, seen + [name], open + {name}, g[name]);
      MovedIsTimed(g, seen, open, name, r);
    }
  }

  lemma {:induction false} AllIsTimed(g: Registry, seen: seq<string>, open: set<string>, raws: seq<string>)
    requires Distinct(seen) && VisitAll(g, seen, raws).Ok?
    ensures AllTimed(g, VisitAll(g, seen, raws).value, |seen|, open, EnteredAll(g, seen, open, raws))
    decreases g.Keys - Elements(seen), |raws|
  {
    hide Name, VisitName, EnteredName, Extends, Timed, AllTimed;
    if raws == [] {
      NothingNew(g, seen, open);
    } else {
      var name := Name(raws[0]);
      VisitExtends(g, seen, name);
      VisitIsTimed(g, seen, open, name);
      var r := VisitName(g, seen, name).value;
      NoLarger(g, seen, r);
      IsLonger(g, seen, r);
      AllExtends(g, r, raws[1..]);
      AllIsTimed(g, r, open, raws[1..]);
      TimedTwice(g, |seen|, r, VisitAll(g, r, raws[1..]).value, open,
                 EnteredName(g, seen, open, name), EnteredAll(g, r, open, raws[1..]));
    }
  }

  lemma NothingNew(g: Registry, seen: seq<string>, open: set<string>)
    ensures AllTimed(g, seen, |seen|, open, map[])
  {
  }

  lemma IsLonger(g: Registry, seen: seq<string>, r: seq<string>)
    requires Extends(g, seen, r)
    ensures |seen| <= |r| && Distinct(r)
  {
  }

  // What finished later leaves the earlier items as they were.
  lemma TimedTwice(g: Registry, from: nat, b: seq<string>, c: seq<string>, open: set<string>, first: Entered, second: Entered)
    requires from <= |b| && Extends(g, b, c)
    requires AllTimed(g, b, from, open, first) && AllTimed(g, c, |b|, open, second)
    ensures AllTimed(g, c, from, open, first + second)
  {
    hide Name, Timed;
    assert forall i :: 0 <= i < |b| ==> c[i] == c[..|b|][i] == b[i];
    forall i: nat | from <= i < |c|
      ensures Timed(g, c, i, open, first + second)
    {
      if i < |b| {
        NotEntered(g, c, i, |b|, open, second);
        TimedIsEntered(g, b, i, open, first);
        TimedInLonger(g, b, c, i, open, first, first + second);
      } else {
        TimedIsEntered(g, c, i, open, second);
        TimedAlike(g, c, i, open, second, first + second);
      }
    }
    forall x | x in first + second
      ensures exists i :: from <= i < |c| && c[i] == x
    {
      if x in second {
        var i :| |b| <= i < |c| && c[i] == x;
      } else {
        var i :| from <= i < |b| && b[i] == x;
        assert c[i] == x;
      }
    }
  }

  lemma NotEntered(g: Registry, r: seq<string>, i: nat, from: nat, open: set<string>, entered: Entered)
    requires i < from <= |r| && Distinct(r) && AllTimed(g, r, from, open, entered)
    ensures r[i] !in entered
  {
  }

  lemma TimedIsEntered(g: Registry, r: seq<string>, i: nat, open: set<string>, entered: Entered)
    requires i < |r| && Timed(g, r, i, open, entered)
    ensures r[i] in entered
  {
  }

  lemma TimedAlike(g: Registry, c: seq<string>, i: nat, open: set<string>, e: Entered, e': Entered)
    requires i < |c| && Timed(g, c, i, open, e) && c[i] in e' && e'[c[i]] == e[c[i]]
    ensures Timed(g, c, i, open, e')
  {
    hide Name, DependencyTimed, ComesAfter;
  }

  lemma TimedInLonger(g: Registry, b: seq<string>, c: seq<string>, i: nat, open: set<string>, e: Entered, e': Entered)
    requires i < |b| <= |c| && forall j :: 0 <= j < |b| ==> c[j] == b[j]
    requires Timed(g, b, i, open, e) && b[i] in e' && e'[b[i]] == e[b[i]]
    ensures Timed(g, c, i, open, e')
  {
    hide Name;
    var u := b[i];
    if u in g {
      forall k | 0 <= k < |g[u]|
        ensures DependencyTimed(c, i, Name(g[u][k]), open, e'[u])
      {
        var v := Name(g[u][k]);
        assert DependencyTimed(b, i, v, open, e[u]);
        var j :| 0 <= j < |b| && b[j] == v;
        assert c[j] == v;
        if ComesBefore(b, i, v) {
          var l :| 0 <= l < i && b[l] == v;
          assert c[l] == v;
        }
      }
    }
    forall a | a in e'[u]
      ensures a in open || ComesAfter(c, i, a)
    {
      if a !in open {
        assert ComesAfter(b, i, a);
        var j :| i < j < |b| && b[j] == a;
        assert c[j] == a;
      }
    }
  }

  // The end of a visit: its name moves behind all it has found.
  lemma MovedIsTimed(g: Registry, seen: seq<string>, open: set<string>, name: string, r: seq<string>)
    requires name !in seen && name in g && Extends(g, seen + [name], r)
    requires VisitAll(g, seen + [name], g[name]) == Ok(r)
    requires AllTimed(g, r, |seen| + 1, open + {name}, EnteredAll(g, seen + [name], open + {name}, g[name]))
    ensures AllTimed(g, seen + r[|seen| + 1..] + [name], |seen|, open,
                     map[name := open] + EnteredAll(g, seen + [name], open + {name}, g[name]))
  {
    hide Name, VisitAll, EnteredAll, Extends, Timed;
    SamePlaces(g, seen, name, r);
    IsLonger(g, seen + [name], r);
    var n := |seen|;
    var s := seen + r[n + 1..] + [name];
    var e := EnteredAll(g, seen + [name], open + {name}, g[name]);
    var e' := map[name := open] + e;
    NotEntered(g, r, n, n + 1, open + {name}, e);
    forall i: nat | n <= i < |s|
      ensures Timed(g, s, i, open, e')
    {
      if i < |s| - 1 {
        assert Timed(g, r, i + 1, open + {name}, e);
        TimedIsEntered(g, r, i + 1, open + {name}, e);
        TimedMoves(g, r, s, n, i, open, name, e, e');
      } else {
        LastIsTimed(g, seen, open, name, r, s, e');
      }
    }
    forall x | x in e'
      ensures exists i :: n <= i < |s| && s[i] == x
    {
      if x in e {
        var j :| n + 1 <= j < |r| && r[j] == x;
        assert s[j - 1] == x;
      } else {
        assert s[|s| - 1] == x;
      }
    }
  }

  // `s` is `r` with the item at `n` moved to the end.
  predicate IsMoved(r: seq<string>, s: seq<string>, n: nat, name: string) {
    && n < |r| == |s| && r[n] == name == s[|s| - 1]
    && (forall i :: 0 <= i < n ==> s[i] == r[i])
    && forall i :: n <= i < |s| - 1 ==> s[i] == r[i + 1]
  }

  lemma PlaceMoves(r: seq<string>, s: seq<string>, n: nat, name: string, j: nat)
    requires IsMoved(r, s, n, name) && j < |r| && j != n
    ensures var j' := if j < n then j else j - 1; j' < |s| && s[j'] == r[j]
  {
  }

  lemma TimedMoves(g: Registry, r: seq<string>, s: seq<string>, n: nat, i: nat, open: set<string>, name: string, e: Entered, e': Entered)
    requires IsMoved(r, s, n, name) && n <= i < |s| - 1
    requires Timed(g, r, i + 1, open + {name}, e) && s[i] in e' && e'[s[i]] == e[s[i]]
    ensures Timed(g, s, i, open, e')
  {
    hide Name, IsMoved;
    var u := s[i];
    LastIsName(r, s, n, name);
    PlaceMoves(r, s, n, name, i + 1);
    if u in g {
      forall k | 0 <= k < |g[u]|
        ensures DependencyTimed(s, i, Name(g[u][k]), open, e'[u])
      {
        assert DependencyTimed(r, i + 1, Name(g[u][k]), open + {name}, e[u]);
        DependencyMoves(r, s, n, i, open, name, Name(g[u][k]), e[u]);
      }
    }
    forall a | a in e'[u]
      ensures a in open || ComesAfter(s, i, a)
    {
      if a !in open {
        LaterMoves(r, s, n, i, name, a);
      }
    }
  }

  lemma LaterMoves(r: seq<string>, s: seq<string>, n: nat, i: nat, name: string, a: string)
    requires IsMoved(r, s, n, name) && n <= i < |s| - 1 && (a == name || ComesAfter(r, i + 1, a))
    ensures ComesAfter(s, i, a)
  {
    if a == name {
      assert s[|s| - 1] == a;
    } else {
      var j :| i + 1 < j < |r| && r[j] == a;
      assert s[j - 1] == a;
    }
  }

  lemma DependencyMoves(r: seq<string>, s: seq<string>, n: nat, i: nat, open: set<string>, name: string, v: string, during: set<string>)
    requires IsMoved(r, s, n, name) && n <= i < |s| - 1
    requires DependencyTimed(r, i + 1, v, open + {name}, during)
    ensures DependencyTimed(s, i, v, open, during)
  {
    hide IsMoved;
    var k :| 0 <= k < |r| && r[k] == v;
    if k != n {
      PlaceMoves(r, s, n, name, k);
    }
    LastIsName(r, s, n, name);
    PlaceMoves(r, s, n, name, i + 1);
    if v !in open + {name} && ComesBefore(r, i + 1, v) {
      var j :| 0 <= j < i + 1 && r[j] == v;
      PlaceMoves(r, s, n, name, j);
    }
  }

  lemma LastIsName(r: seq<string>, s: seq<string>, n: nat, name: string)
    requires IsMoved(r, s, n, name)
    ensures n < |r| == |s| && r[n] == name == s[|s| - 1]
  {
  }

  // The finished item itself: everything it needs has been seen.
  lemma LastIsTimed(g: Registry, seen: seq<string>, open: set<string>, name: string, r: seq<string>, s: seq<string>, e': Entered)
    requires name in g && VisitAll(g, seen + [name], g[name]) == Ok(r)
    requires IsMoved(r, s, |seen|, name) && name in e' && e'[name] == open
    ensures Timed(g, s, |s| - 1, open, e')
  {
    hide Name, VisitAll, IsMoved;
    LastIsName(r, s, |seen|, name);
    forall k | 0 <= k < |g[name]|
      ensures DependencyTimed(s, |s| - 1, Name(g[name][k]), open, open)
    {
      var v := Name(g[name][k]);
      AskedAreSeen(g, seen + [name], g[name], k);
      var j :| 0 <= j < |r| && r[j] == v;
      if j != |seen| {
        PlaceMoves(r, s, |seen|, name, j);
      }
    }
  }

  lemma SamePlaces(g: Registry, seen: seq<string>, name: string, r: seq<string>)
    requires Extends(g, seen + [name], r)
    ensures |r| > |seen| && r[|seen|] == name
    ensures var s := seen + r[|seen| + 1..] + [name];
            && |s| == |r|
            && (forall i :: 0 <= i < |seen| ==> s[i] == r[i])
            && (forall i :: |seen| <= i < |s| - 1 ==> s[i] == r[i + 1])
            && forall v :: v in r <==> v in s
  {
    var n := |seen|;
    var s := seen + r[n + 1..] + [name];
    assert r[..n + 1] == seen + [name];
    assert forall i :: 0 <= i < n ==> r[i] == r[..n + 1][i];
    assert r[n] == r[..n + 1][n];
    assert r == seen + [name] + r[n + 1..];
  }

  // --- what is in progress leads to what is entered ---

  ghost predicate LeadsTo(g: Registry, open: set<string>, raws: seq<string>) {
    forall a, k :: a in open && 0 <= k < |raws| ==> Reaches(g, a, Name(raws[k]))
  }

  lemma {:induction false} EnteredNameIsReached(g: Registry, seen: seq<string>, open: set<string>, name: string, u: string, a: string)
    requires forall b :: b in open ==> Reaches(g, b, name)
    requires u in EnteredName(g, seen, open, name) && a in EnteredName(g, seen, open, name)[u]
    ensures Reaches(g, a, u)
    decreases g.Keys - Elements(seen), 0
  {
    hide Name, Reaches, EnteredAll;
    Smaller(g, seen, name);
    StackLeads(g, open, name);
    if u in EnteredAll(g, seen + [name], open + {name}, g[name]) {
      EnteredAllIsReached(g, seen + [name], open + {name}, g[name], u, a);
    }
  }

  lemma {:induction false} EnteredAllIsReached(g: Registry, seen: seq<string>, open: set<string>, raws: seq<string>, u: string, a: string)
    requires LeadsTo(g, open, raws)
    requires u in EnteredAll(g, seen, open, raws) && a in EnteredAll(g, seen, open, raws)[u]
    ensures Reaches(g, a, u)
    decreases g.Keys - Elements(seen), |raws|
  {
    hide Name, Reaches, EnteredName, VisitName;
    var r := VisitName(g, seen, Name(raws[0]));
    if r.Ok? && u in EnteredAll(g, r.value, open, raws[1..]) {
      NoLarger(g, seen, r.value);
      EnteredAllIsReached(g, r.value, open, raws[1..], u, a);
    } else {
      EnteredNameIsReached(g, seen, open, Name(raws[0]), u, a);
    }
  }

  lemma StackLeads(g: Registry, open: set<string>, name: string)
    requires name in g && forall a :: a in open ==> Reaches(g, a, name)
    ensures LeadsTo(g, open + {name}, g[name])
  {
    hide Name, Reaches;
    ReachesItself(g, name);
    forall a, k | a in open + {name} && 0 <= k < |g[name]|
      ensures Reaches(g, a, Name(g[name][k]))
    {
      ReachesFurther(g, a, name, Name(g[name][k]));
    }
  }

  // What is in progress at an item leads to it.
  lemma InProgressLeadsHere(g: Registry, raws: seq<string>, u: string, a: string)
    requires a in InProgressAt(g, raws, u)
    ensures Reaches(g, a, u)
  {
    hide EnteredAll, Reaches;
    EnteredAllIsReached(g, [], {}, raws, u, a);
  }

  // --- main results ---

  // Each name reachable from the request comes exactly once, and nothing else; the request fails
  // just when one of those names is unknown.
  lemma ResolvesTheNeeded(g: Registry, raws: seq<string>)
    ensures var r := ResolveItems(g, raws);
            && (r.Ok? <==> forall v :: Needed(g, raws, v) ==> v in g)
            && (r.Ok? ==> Distinct(r.value) && forall v :: v in r.value <==> Needed(g, raws, v))
            && (r.Err? ==> Needed(g, raws, r.error) && r.error !in g)
  {
    hide Name, Reaches, VisitAll, VisitName, Edge;
    var r := ResolveItems(g, raws);
    if r.Err? {
      var k := NewAreNeeded(g, [], raws, r.error);
    } else {
      AllExtends(g, [], raws);
      forall v
        ensures v in r.value <==> Needed(g, raws, v)
      {
        if v in r.value {
          var k := NewAreNeeded(g, [], raws, v);
        } else if Needed(g, raws, v) {
          NeededIsThere(g, raws, v);
        }
      }
    }
  }

  lemma NeededIsThere(g: Registry, raws: seq<string>, v: string)
    requires ResolveItems(g, raws).Ok? && Needed(g, raws, v)
    ensures v in ResolveItems(g, raws).value
  {
    hide Name, VisitAll, Edge;
    var k :| 0 <= k < |raws| && Reaches(g, Name(raws[k]), v);
    AskedAreSeen(g, [], raws, k);
    var p :| PathBetween(g, p, Name(raws[k]), v);
    PathStays(g, raws, p);
  }

  lemma {:induction false} PathStays(g: Registry, raws: seq<string>, p: seq<string>)
    requires ResolveItems(g, raws).Ok? && IsPath(g, p) && p[0] in ResolveItems(g, raws).value
    ensures p[|p| - 1] in ResolveItems(g, raws).value
    decreases |p|
  {
    hide Edge, ResolveItems;
    if |p| > 1 {
      assert Edge(g, p[0], p[1]);
      var i := EdgeIsTimed(g, raws, p[0], p[1]);
      PathStays(g, raws, p[1..]);
    }
  }

  lemma EdgeIsTimed(g: Registry, raws: seq<string>, u: string, v: string) returns (i: nat)
    requires ResolveItems(g, raws).Ok? && u in ResolveItems(g, raws).value && Edge(g, u, v)
    ensures var r := ResolveItems(g, raws).value;
            && i < |r| && r[i] == u && v in r
            && DependencyTimed(r, i, v, {}, InProgressAt(g, raws, u))
            && forall a :: a in InProgressAt(g, raws, u) ==> ComesAfter(r, i, a)
  {
    hide Name, VisitAll, EnteredAll;
    var r := ResolveItems(g, raws).value;
    AllIsTimed(g, [], {}, raws);
    i :| 0 <= i < |r| && r[i] == u;
    assert Timed(g, r, i, {}, EnteredAll(g, [], {}, raws));
  }

  predicate Precedes(r: seq<string>, v: string, u: string) {
    exists i, j :: 0 <= j < i < |r| && r[j] == v && r[i] == u
  }

  // On every registry, cyclic or not: a dependency comes before its dependent unless it is the
  // dependent itself, or its own visit was going on when the dependency was followed.
  lemma OnlyThoseInProgressComeLate(g: Registry, raws: seq<string>, u: string, v: string)
    requires ResolveItems(g, raws).Ok? && u in ResolveItems(g, raws).value && Edge(g, u, v)
    ensures v in ResolveItems(g, raws).value
    ensures Precedes(ResolveItems(g, raws).value, v, u) <==> v != u && v !in InProgressAt(g, raws, u)
  {
    hide ResolveItems, Edge, InProgressAt;
    var r := ResolveItems(g, raws).value;
    assert Distinct(r) by { ResolvedIsDistinct(g, raws); }
    var i := EdgeIsTimed(g, raws, u, v);
    PlaceDecides(r, i, v);
  }

  lemma PlaceDecides(r: seq<string>, i: nat, v: string)
    requires Distinct(r) && i < |r|
    ensures ComesBefore(r, i, v) <==> Precedes(r, v, r[i])
    ensures v == r[i] || ComesAfter(r, i, v) ==> !ComesBefore(r, i, v)
  {
    if Precedes(r, v, r[i]) {
      var k, j :| 0 <= j < k < |r| && r[j] == v && r[k] == r[i];
      assert k == i;
    }
  }

  lemma ResolvedIsDistinct(g: Registry, raws: seq<string>)
    requires ResolveItems(g, raws).Ok?
    ensures Distinct(ResolveItems(g, raws).value)
  {
    hide VisitAll;
    AllExtends(g, [], raws);
  }

  // In particular it comes first unless the two are on a cycle.
  lemma DependenciesComeFirst(g: Registry, raws: seq<string>, u: string, v: string)
    requires ResolveItems(g, raws).Ok? && u in ResolveItems(g, raws).value && Edge(g, u, v)
    ensures v in ResolveItems(g, raws).value
    ensures Precedes(ResolveItems(g, raws).value, v, u) || Reaches(g, v, u)
  {
    hide ResolveItems, Edge, InProgressAt, Reaches, Precedes;
    OnlyThoseInProgressComeLate(g, raws, u, v);
    if v in InProgressAt(g, raws, u) {
      InProgressLeadsHere(g, raws, u, v);
    }
    ReachesItself(g, u);
  }

  ghost predicate Acyclic(g: Registry, r: seq<string>) {
    forall u, v :: u in r && Reaches(g, u, v) && Reaches(g, v, u) ==> u == v
  }

  // Without a cycle of two or more items, whatever an item leads to comes before it.
  lemma AcyclicIsTopological(g: Registry, raws: seq<string>, u: string, v: string)
    requires ResolveItems(g, raws).Ok? && Acyclic(g, ResolveItems(g, raws).value)
    requires u in ResolveItems(g, raws).value && Reaches(g, u, v) && u != v
    ensures Precedes(ResolveItems(g, raws).value, v, u)
  {
    hide VisitAll, Edge;
    AllExtends(g, [], raws);
    var p :| PathBetween(g, p, u, v);
    PathDescends(g, raws, p);
  }

  lemma {:induction false} PathDescends(g: Registry, raws: seq<string>, p: seq<string>)
    requires ResolveItems(g, raws).Ok? && Distinct(ResolveItems(g, raws).value)
    requires Acyclic(g, ResolveItems(g, raws).value) && IsPath(g, p) && p[0] in ResolveItems(g, raws).value
    ensures var r := ResolveItems(g, raws).value; p[|p| - 1] == p[0] || Precedes(r, p[|p| - 1], p[0])
    decreases |p|
  {
    hide ResolveItems, Edge, Reaches;
    var r := ResolveItems(g, raws).value;
    if |p| > 1 {
      var u, w, v := p[0], p[1], p[|p| - 1];
      assert Edge(g, u, w);
      DependenciesComeFirst(g, raws, u, w);
      PathDescends(g, raws, p[1..]);
      ReachesItself(g, u);
      ReachesFurther(g, u, u, w);
      assert w == u || Precedes(r, w, u);
      if v != w && w != u {
        PrecedesAll(r, v, w, u);
      }
    }
  }

  lemma PrecedesAll(r: seq<string>, x: string, y: string, z: string)
    requires Distinct(r) && Precedes(r, x, y) && Precedes(r, y, z)
    ensures Precedes(r, x, z)
  {
    var i, j :| 0 <= j < i < |r| && r[j] == x && r[i] == y;
    var k, l :| 0 <= l < k < |r| && r[l] == y && r[k] == z;
    assert i == l;
  }

  // On a cycle the order says nothing about longer ways: `v` is needed by `u` through `x`, does not
  // need `u`, and still comes after it.
  lemma CyclesBreakLongerOrder()
    ensures var g: Registry := map["x" := ["u", "v"], "u" := ["x"], "v" := []];
            && ResolveItems(g, ["x"]) == Ok(["u", "v", "x"])
            && Edge(g, "u", "x") && Edge(g, "x", "v") && !Reaches(g, "v", "u")
  {
    hide Name;
    var g: Registry := map["x" := ["u", "v"], "u" := ["x"], "v" := []];
    AddressesMeanTheItem("", "x");
    AddressesMeanTheItem("", "u");
    AddressesMeanTheItem("", "v");
    assert g["x"][0] == "u" && g["x"][1] == "v" && g["u"][0] == "x" && g["v"] == [];
    assert Name("x") == "x" && Name("u") == "u" && Name("v") == "v";
    assert ["x"] + ["u"] == ["x", "u"] && ["x", "u"] + ["v"] == ["x", "u", "v"] && ["u", "v"] + ["x"] == ["u", "v", "x"];
    assert [] + ["x"] == ["x"];
    assert VisitName(g, ["x", "u"], "x") == Ok(["x", "u"]);
    assert VisitAll(g, ["x", "u"], ["x"]) == Ok(["x", "u"]);
    assert Delete(["x", "u"], "u") == ["x"];
    assert VisitName(g, ["x"], "u") == Ok(["x", "u"]);
    assert VisitAll(g, ["x", "u", "v"], []) == Ok(["x", "u", "v"]);
    assert Delete(["x", "u", "v"], "v") == ["x", "u"];
    assert VisitName(g, ["x", "u"], "v") == Ok(["x", "u", "v"]);
    assert VisitAll(g, ["x", "u"], ["v"]) == Ok(["x", "u", "v"]);
    assert VisitAll(g, ["x"], ["u", "v"]) == Ok(["x", "u", "v"]);
    assert Delete(["x", "u", "v"], "x") == ["u", "v"];
    assert VisitName(g, [], "x") == Ok(["u", "v", "x"]);
    assert VisitAll(g, ["u", "v", "x"], []) == Ok(["u", "v", "x"]);
    assert ["x"][1..] == [];
    NothingBehind(g, "v", "u");
  }

  lemma NothingBehind(g: Registry, u: string, v: string)
    requires u in g && g[u] == [] && u != v
    ensures !Reaches(g, u, v)
  {
    hide Edge;
    forall p
      ensures !PathBetween(g, p, u, v)
    {
      if |p| > 1 {
        NoEdge(g, u, p[1]);
      }
    }
  }

  lemma NoEdge(g: Registry, u: string, v: string)
    requires u in g && g[u] == []
    ensures !Edge(g, u, v)
  {
  }
}
