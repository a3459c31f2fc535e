/** `resolveItems`: the components an `add` request needs, dependencies first. */
module Resolve {
  import opened Prelude
  import opened Text

  // The loader: for each item it knows, the dependencies as the item spells them.
  type Registry = map<string, seq<string>>

  // --- item names ---

  function WithoutSlashes(s: string): (r: string)
    ensures r == "" || r[|r| - 1] != '/'
  {
    if s != "" && s[|s| - 1] == '/' then WithoutSlashes(s[..|s| - 1]) else s
  }

  function LastSegment(s: string): (r: string)
    ensures '/' !in r
  {
    if s == "" || s[|s| - 1] == '/' then "" else LastSegment(s[..|s| - 1]) + [s[|s| - 1]]
  }

  // `basename(raw).replace(/\.json$/, "")`
  function Name(raw: string): (r: string)
    ensures '/' !in r
  {
    var base := LastSegment(WithoutSlashes(raw));
    if EndsWith(base, ".json") then base[..|base| - 5] else base
  }

  // --- a Map's keys, in insertion order ---

  // Setting a key that is there keeps its place.
  function Put(keys: seq<string>, k: string): seq<string> {
    if k in keys then keys else keys + [k]
  }

  function Delete(keys: seq<string>, k: string): (r: seq<string>)
    ensures forall x :: x in r <==> x in keys && x != k
  {
    if keys == [] then []
    else
      assert keys == [keys[0]] + keys[1..];
      if keys[0] == k then Delete(keys[1..], k) else [keys[0]] + Delete(keys[1..], k)
  }

  // --- the search ---

  function Elements(s: seq<string>): set<string> {
    set x | x in s
  }

  lemma StillSeen(seen: seq<string>, keys: seq<string>, name: string)
    requires Elements(seen + [name]) <= Elements(keys)
    ensures Elements(seen) <= Elements(Delete(keys, name) + [name])
  {
    forall x | x in Elements(seen)
      ensures x in Delete(keys, name) + [name]
    {
      assert x in seen + [name];
      assert x in Elements(keys);
    }
  }

  // The keys of `seen` after a visit, or the name the loader does not know.
  function VisitName(g: Registry, seen: seq<string>, name: string): (r: Result<seq<string>, string>)
    ensures r.Ok? ==> Elements(seen) <= Elements(r.value)
    decreases g.Keys - Elements(seen), 0
  {
    if name in seen then Ok(seen)
    else if name !in g then Err(name)
    else
      assert name in g.Keys - Elements(seen) && name !in g.Keys - Elements(seen + [name]);
      assert g.Keys - Elements(seen + [name]) <= g.Keys - Elements(seen);
      var r := VisitAll(g, seen + [name], g[name]);
      if r.Ok? then
        StillSeen(seen, r.value, name);
        Ok(Delete(r.value, name) + [name])
      else r
  }

  function VisitAll(g: Registry, seen: seq<string>, raws: seq<string>): (r: Result<seq<string>, string>)
    ensures r.Ok? ==> Elements(seen) <= Elements(r.value)
    decreases g.Keys - Elements(seen), |raws|
  {
    if raws == [] then Ok(seen)
    else
      var r := VisitName(g, seen, Name(raws[0]));
      if r.Ok? then
        assert g.Keys - Elements(r.value) <= g.Keys - Elements(seen);
        VisitAll(g, r.value, raws[1..])
      else r
  }

  function ResolveItems(g: Registry, raws: seq<string>): Result<seq<string>, string> {
    VisitAll(g, [], raws)
  }

  // --- which visits are going on ---

  // For each name a visit enters, the names whose visits are going on at that moment: those in
  // `open`, and the ones between.
  function EnteredName(g: Registry, seen: seq<string>, open: set<string>, name: string): map<string, set<string>>
    decreases g.Keys - Elements(seen), 0
  {
    if name in seen || name !in g then map[]
    else
      assert name in g.Keys - Elements(seen) && name !in g.Keys - Elements(seen + [name]);
      assert g.Keys - Elements(seen + [name]) <= g.Keys - Elements(seen);
      map[name := open] + EnteredAll(g, seen + [name], open + {name}, g[name])
  }

  function EnteredAll(g: Registry, seen: seq<string>, open: set<string>, raws: seq<string>): map<string, set<string>>
    decreases g.Keys - Elements(seen), |raws|
  {
    if raws == [] then map[]
    else
      var first := EnteredName(g, seen, open, Name(raws[0]));
      var r := VisitName(g, seen, Name(raws[0]));
      if r.Ok? then
        assert g.Keys - Elements(r.value) <= g.Keys - Elements(seen);
        first + EnteredAll(g, r.value, open, raws[1..])
      else first
  }

  // The names in progress while the dependencies of `u` are followed, without `u` itself.
  function InProgressAt(g: Registry, raws: seq<string>, u: string): set<string> {
    var entered := EnteredAll(g, [], {}, raws);
    if u in entered then entered[u] else {}
  }

  // The closure of the source: one registry, and the map it fills. `inProgress` holds the names
  // whose visits have begun and not ended, `entered` what it was when each visit began.
  class Resolver {
    const registry: Registry
    var seen: seq<string>
    ghost var inProgress: set<string>
    ghost var entered: map<string, set<string>>

    constructor (registry: Registry)
      ensures this.registry == registry && seen == [] && inProgress == {} && entered == map[]
    {
      this.registry := registry;
      seen := [];
      inProgress := {};
      entered := map[];
    }

    // An unknown name abandons the search, and `seen` with it.
    method Visit(raw: string) returns (failure: Option<string>)
      requires inProgress <= Elements(seen)
      modifies this
      ensures var r := VisitName(registry, old(seen), Name(raw));
              if r.Err? then failure == Some(r.error)
              else failure == None && seen == r.value && inProgress == old(inProgress)
                   && entered == old(entered) + EnteredName(registry, old(seen), old(inProgress), Name(raw))
      decreases registry.Keys - Elements(seen), 0
    {
      hide Name, VisitAll, VisitName, EnteredName, EnteredAll, Delete;
      var name := Name(raw);
      NameStep(registry, seen, inProgress, name, entered);
      if name in seen {
        return None;
      }
      if name !in registry {
        return Some(name);
      }
      assert Put(seen, name) == seen + [name];
      seen := Put(seen, name);
      inProgress, entered := inProgress + {name}, entered[name := inProgress];
      failure := VisitDependencies(registry[name]);
      if failure.Some? {
        return;
      }
      seen := Delete(seen, name);
      seen := Put(seen, name);
      inProgress := inProgress - {name};
    }

    method VisitDependencies(raws: seq<string>) returns (failure: Option<string>)
      requires inProgress <= Elements(seen)
      modifies this
      ensures var r := VisitAll(registry, old(seen), raws);
              if r.Err? then failure == Some(r.error)
              else failure == None && seen == r.value && inProgress == old(inProgress)
                   && entered == old(entered) + EnteredAll(registry, old(seen), old(inProgress), raws)
      decreases registry.Keys - Elements(seen), |raws|
    {
      hide Name;
      ghost var all := VisitAll(registry, seen, raws);
      ghost var allEntered := entered + EnteredAll(registry, seen, inProgress, raws);
      assert raws[0..] == raws;
      for i := 0 to |raws|
        invariant Elements(old(seen)) <= Elements(seen)
        invariant VisitAll(registry, seen, raws[i..]) == all
        invariant inProgress == old(inProgress)
        invariant all.Ok? ==> entered + EnteredAll(registry, seen, inProgress, raws[i..]) == allEntered
      {
        hide VisitAll, VisitName, EnteredName, EnteredAll;
        AllStep(registry, seen, inProgress, raws[i..], entered);
        assert raws[i..][1..] == raws[i + 1..];
        failure := Visit(raws[i]);
        if failure.Some? {
          return;
        }
      }
      return None;
    }
  }

  lemma NameStep(g: Registry, seen: seq<string>, open: set<string>, name: string, entered: map<string, set<string>>)
    ensures name in seen ==> VisitName(g, seen, name) == Ok(seen)
    ensures name !in seen && name !in g ==> VisitName(g, seen, name) == Err(name)
    ensures name in seen || name !in g ==> entered + EnteredName(g, seen, open, name) == entered
    ensures name !in seen && name in g ==>
              var r := VisitAll(g, seen + [name], g[name]);
              && VisitName(g, seen, name) == (if r.Ok? then Ok(Delete(r.value, name) + [name]) else r)
              && entered + EnteredName(g, seen, open, name) ==
                 entered[name := open] + EnteredAll(g, seen + [name], open + {name}, g[name])
              && g.Keys - Elements(seen + [name]) < g.Keys - Elements(seen)
              && (open <= Elements(seen) ==> name !in open && open + {name} <= Elements(seen + [name]))
  {
    hide VisitAll, EnteredAll, Delete;
    if name !in seen && name in g {
      assert name in g.Keys - Elements(seen) && name !in g.Keys - Elements(seen + [name]);
    }
  }

  lemma AllStep(g: Registry, seen: seq<string>, open: set<string>, raws: seq<string>, entered: map<string, set<string>>)
    requires raws != []
    ensures var r := VisitName(g, seen, Name(raws[0]));
            && VisitAll(g, seen, raws) == (if r.Ok? then VisitAll(g, r.value, raws[1..]) else r)
            && (r.Ok? ==>
                  entered + EnteredAll(g, seen, open, raws) ==
                  entered + EnteredName(g, seen, open, Name(raws[0])) + EnteredAll(g, r.value, open, raws[1..]))
  {
    hide Name, VisitName, EnteredName;
  }

  method ResolveRequest(registry: Registry, raws: seq<string>) returns (r: Result<seq<string>, string>)
    ensures r == ResolveItems(registry, raws)
  {
    var search := new Resolver(registry);
    var failure := search.VisitDependencies(raws);
    return if failure.Some? then Err(failure.value) else Ok(search.seen);
  }
}
