/** Laws of `Resolve`: which items a request brings, and in which order, on cyclic registries too. */
module ResolveLaws {
  import opened Prelude
  import opened Text
  import opened Resolve

  // --- the dependency graph ---

  predicate Edge(g: Registry, u: string, v: string) {
    u in g && exists k :: 0 <= k < |g[u]| && Name(g[u][k]) == v
  }

  predicate IsPath(g: Registry, p: seq<string>) {
    p != [] && forall i :: 0 <= i < |p| - 1 ==> Edge(g, p[i], p[i + 1])
  }

  predicate PathBetween(g: Registry, p: seq<string>, u: string, v: string) {
    IsPath(g, p) && p[0] == u && p[|p| - 1] == v
  }

  ghost predicate Reaches(g: Registry, u: string, v: string) {
    exists p :: PathBetween(g, p, u, v)
  }

  // Reached from one of the names asked for.
  ghost predicate Needed(g: Registry, raws: seq<string>, v: string) {
    exists k :: 0 <= k < |raws| && Reaches(g, Name(raws[k]), v)
  }

  lemma ReachesItself(g: Registry, u: string)
    ensures Reaches(g, u, u)
  {
    assert PathBetween(g, [u], u, u);
  }

  lemma ReachesFurther(g: Registry, u: string, v: string, w: string)
    requires Reaches(g, u, v) && Edge(g, v, w)
    ensures Reaches(g, u, w)
  {
    hide Edge;
    var p :| PathBetween(g, p, u, v);
    assert PathBetween(g, p + [w], u, w);
  }

  lemma ReachesAll(g: Registry, u: string, v: string, w: string)
    requires Reaches(g, u, v) && Reaches(g, v, w)
    ensures Reaches(g, u, w)
  {
    hide Edge;
    var p :| PathBetween(g, p, u, v);
    var q :| PathBetween(g, q, v, w);
    var r := p + q[1..];
    forall i | 0 <= i < |r| - 1
      ensures Edge(g, r[i], r[i + 1])
    {
      if i < |p| - 1 {
        assert Edge(g, p[i], p[i + 1]);
      } else {
        assert r[i] == q[i - |p| + 1] && r[i + 1] == q[i - |p| + 2];
      }
    }
    assert PathBetween(g, r, u, w);
  }

  // --- the shape of a visit: finished names behind the ones seen before ---

  predicate Distinct(s: seq<string>) {
    forall i, j :: 0 <= i < j < |s| ==> s[i] != s[j]
  }

  predicate Extends(g: Registry, seen: seq<string>, r: seq<string>) {
    && |seen| <= |r| && r[..|seen|] == seen && Distinct(r)
    && forall i :: |seen| <= i < |r| ==> r[i] in g
  }

  lemma {:induction false} DeleteAbsent(s: seq<string>, k: string)
    requires k !in s
    ensures Delete(s, k) == s
  {
    if s != [] {
      DeleteAbsent(s[1..], k);
    }
  }

  lemma {:induction false} DeleteAt(a: seq<string>, k: string, b: seq<string>)
    requires k !in a && k !in b
    ensures Delete(a + [k] + b, k) == a + b
  {
    var s := a + [k] + b;
    if a == [] {
      assert s[1..] == b;
      DeleteAbsent(b, k);
    } else {
      assert s[1..] == a[1..] + [k] + b;
      DeleteAt(a[1..], k, b);
      assert [a[0]] + (a[1..] + b) == a + b;
    }
  }

  // Moving a finished name to the end takes its placeholder away.
  lemma MovedToEnd(g: Registry, seen: seq<string>, name: string, r: seq<string>)
    requires name !in seen && Extends(g, seen + [name], r)
    ensures Delete(r, name) + [name] == seen + r[|seen| + 1..] + [name]
  {
    var found := r[|seen| + 1..];
    assert r == seen + [name] + found;
    assert r[|seen|] == name;
    assert forall i :: 0 <= i < |found| ==> found[i] == r[|seen| + 1 + i];
    DeleteAt(seen, name, found);
  }

  lemma MovedExtends(g: Registry, seen: seq<string>, name: string, r: seq<string>)
    requires name in g && name !in seen && Extends(g, seen + [name], r)
    ensures Extends(g, seen, seen + r[|seen| + 1..] + [name])
  {
    var n := |seen|;
    var s := seen + r[n + 1..] + [name];
    assert r[n] == name;
    assert forall i :: 0 <= i < n ==> s[i] == seen[i] == r[i];
    assert forall i :: n <= i < |s| - 1 ==> s[i] == r[i + 1];
    forall i, j | 0 <= i < j < |s|
      ensures s[i] != s[j]
    {
      if j < |s| - 1 {
        assert s[i] == r[if i < n then i else i + 1] && s[j] == r[if j < n then j else j + 1];
      } else if i >= n {
        assert s[i] == r[i + 1] && r[n] != r[i + 1];
      }
    }
  }

  lemma ExtendsTwice(g: Registry, a: seq<string>, b: seq<string>, c: seq<string>)
    requires Extends(g, a, b) && Extends(g, b, c)
    ensures Extends(g, a, c)
  {
    assert c[..|a|] == c[..|b|][..|a|];
    assert forall i :: 0 <= i < |b| ==> c[i] == c[..|b|][i] == b[i];
  }

  lemma {:induction false} VisitExtends(g: Registry, seen: seq<string>, name: string)
    requires Distinct(seen) && VisitName(g, seen, name).Ok?
    ensures Extends(g, seen, VisitName(g, seen, name).value)
    decreases g.Keys - Elements(seen), 0
  {
    hide Name;
    if name !in seen {
      Smaller(g, seen, name);
      AllExtends(g, seen + [name], g[name]);
      var r := VisitAll(g, seen + [name], g[name]).value;
      MovedToEnd(g, seen, name, r);
      MovedExtends(g, seen, name, r);
    }
  }

  lemma {:induction false} AllExtends(g: Registry, seen: seq<string>, raws: seq<string>)
    requires Distinct(seen) && VisitAll(g, seen, raws).Ok?
    ensures Extends(g, seen, VisitAll(g, seen, raws).value)
    decreases g.Keys - Elements(seen), |raws|
  {
    hide Name, VisitName;
    if raws != [] {
      VisitExtends(g, seen, Name(raws[0]));
      var r := VisitName(g, seen, Name(raws[0])).value;
      NoLarger(g, seen, r);
      AllExtends(g, r, raws[1..]);
      ExtendsTwice(g, seen, r, VisitAll(g, seen, raws).value);
    }
  }

  lemma Smaller(g: Registry, seen: seq<string>, name: string)
    requires name in g && name !in seen
    ensures g.Keys - Elements(seen + [name]) < g.Keys - Elements(seen)
  {
    assert name in g.Keys - Elements(seen) && name !in g.Keys - Elements(seen + [name]);
  }

  lemma NoLarger(g: Registry, seen: seq<string>, r: seq<string>)
    requires Elements(seen) <= Elements(r)
    ensures g.Keys - Elements(r) <= g.Keys - Elements(seen)
  {
  }

  // What a finished visit looks like, at one step of the search.
  lemma VisitStep(g: Registry, seen: seq<string>, name: string)
    requires Distinct(seen) && name !in seen && VisitName(g, seen, name).Ok?
    ensures name in g && VisitAll(g, seen + [name], g[name]).Ok?
    ensures var r := VisitAll(g, seen + [name], g[name]).value;
            && Extends(g, seen + [name], r)
            && VisitName(g, seen, name).value == seen + r[|seen| + 1..] + [name]
  {
    hide Name;
    AllExtends(g, seen + [name], g[name]);
    MovedToEnd(g, seen, name, VisitAll(g, seen + [name], g[name]).value);
  }

  // --- every name asked for is there ---

  lemma {:induction false} AskedAreSeen(g: Registry, seen: seq<string>, raws: seq<string>, k: nat)
    requires VisitAll(g, seen, raws).Ok? && k < |raws|
    ensures Name(raws[k]) in VisitAll(g, seen, raws).value
    decreases |raws|
  {
    hide Name;
    var r := VisitName(g, seen, Name(raws[0])).value;
    if k == 0 {
      assert Name(raws[0]) in r;
      assert Name(raws[0]) in Elements(VisitAll(g, r, raws[1..]).value);
    } else {
      AskedAreSeen(g, r, raws[1..], k - 1);
    }
  }

  // --- only needed names are new, and only a needed name can be unknown ---

  lemma {:induction false} NewAreReached(g: Registry, seen: seq<string>, name: string, v: string)
    requires Distinct(seen)
    requires var r := VisitName(g, seen, name); if r.Ok? then v in r.value && v !in seen else v == r.error
    ensures Reaches(g, name, v)
    ensures VisitName(g, seen, name).Err? ==> v !in g
    decreases g.Keys - Elements(seen), 0
  {
    hide Name, Reaches;
    ReachesItself(g, name);
    if name in g && v != name {
      Smaller(g, seen, name);
      var k := NewAreNeeded(g, seen + [name], g[name], v);
      assert Edge(g, name, Name(g[name][k]));
      ReachesFurther(g, name, name, Name(g[name][k]));
      ReachesAll(g, name, Name(g[name][k]), v);
    } else if name in g && VisitName(g, seen, name).Err? {
      Smaller(g, seen, name);
      var k := NewAreNeeded(g, seen + [name], g[name], v);
    }
  }

  lemma {:induction false} NewAreNeeded(g: Registry, seen: seq<string>, raws: seq<string>, v: string) returns (k: nat)
    requires Distinct(seen)
    requires var r := VisitAll(g, seen, raws); if r.Ok? then v in r.value && v !in seen else v == r.error
    ensures k < |raws| && Reaches(g, Name(raws[k]), v)
    ensures VisitAll(g, seen, raws).Err? ==> v !in g
    decreases g.Keys - Elements(seen), |raws|
  {
    hide Name, Reaches, VisitName;
    var r := VisitName(g, seen, Name(raws[0]));
    if r.Err? || (VisitAll(g, seen, raws).Ok? && v in r.value) {
      NewAreReached(g, seen, Name(raws[0]), v);
      k := 0;
    } else {
      NoLarger(g, seen, r.value);
      VisitExtends(g, seen, Name(raws[0]));
      k := NewAreNeeded(g, r.value, raws[1..], v);
      k := k + 1;
    }
  }

  // --- names ---

  predicate BareName(s: string) {
    s != "" && '/' !in s && !EndsWith(s, ".json")
  }

  lemma NameIsItself(n: string)
    requires BareName(n)
    ensures Name(n) == n
  {
    hide EndsWith, LastSegment;
    assert n[|n| - 1] in n;
    LastOfPath("", n);
    assert "" + n == n;
  }

  // The name of a file, behind any directories.
  lemma NameOfFile(dir: string, n: string)
    requires BareName(n) && (dir == "" || dir[|dir| - 1] == '/')
    ensures Name(dir + (n + ".json")) == n
  {
    hide LastSegment, EndsWith;
    var file := n + ".json";
    var s := dir + file;
    assert s[|s| - 1] == file[|file| - 1] == 'n';
    LastOfPath(dir, file);
    Suffixed(n, ".json");
    assert file[..|file| - 5] == n;
  }

  // An item's bare name and any address of its file mean the same item.
  lemma AddressesMeanTheItem(base: string, n: string)
    requires BareName(n)
    ensures Name(n) == n && Name(n + ".json") == n && Name(base + "/" + n + ".json") == n
  {
    hide Name, BareName;
    NameIsItself(n);
    NameOfFile("", n);
    assert "" + (n + ".json") == n + ".json";
    NameOfFile(base + "/", n);
    assert base + "/" + n + ".json" == base + "/" + (n + ".json");
  }

  lemma Suffixed(s: string, t: string)
    ensures EndsWith(s + t, t)
  {
  }

  lemma {:induction false} LastOfPath(dir: string, s: string)
    requires '/' !in s && (dir == "" || dir[|dir| - 1] == '/')
    ensures LastSegment(dir + s) == s
    decreases |s|
  {
    hide LastSegment;
    if s == "" {
      assert dir + s == dir;
      EmptySegment(dir);
    } else {
      var n := |s| - 1;
      assert s[n] in s;
      NoSlashBefore(s, n);
      LastOfPath(dir, s[..n]);
      SegmentGrows(dir + s[..n], s[n]);
      assert dir + s == dir + s[..n] + [s[n]] && s == s[..n] + [s[n]];
    }
  }

  lemma EmptySegment(dir: string)
    requires dir == "" || dir[|dir| - 1] == '/'
    ensures LastSegment(dir) == ""
  {
  }

  lemma NoSlashBefore(s: string, n: nat)
    requires '/' !in s && n <= |s|
    ensures '/' !in s[..n]
  {
  }

  lemma SegmentGrows(s: string, c: char)
    requires c != '/'
    ensures LastSegment(s + [c]) == LastSegment(s) + [c]
  {
    assert (s + [c])[..|s + [c]| - 1] == s;
  }
}
