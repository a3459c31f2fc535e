/** Laws of `Grants`: what a key identifies, and what any trace of grants and lookups does. */
module GrantLaws {
  import opened Prelude
  import opened Canonical
  import opened CanonicalLaws
  import opened Grants

  // --- the key of a call ---

  lemma SplitAtNul(a: string, p: string, b: string, q: string)
    requires a + "\0" + p == b + "\0" + q && NoNul(p) && NoNul(q)
    ensures a == b && p == q
  {
    var s := a + "\0" + p;
    assert s[|a|] == '\0' && s[|b|] == '\0';
    assert forall i :: |a| < i < |s| ==> s[i] == p[i - |a| - 1];
    assert forall i :: |b| < i < |s| ==> s[i] == q[i - |b| - 1];
    assert |a| == |b|;
    assert s[..|a|] == a && s[..|b|] == b && s[|a| + 1..] == p && s[|b| + 1..] == q;
  }

  // Two calls share a key exactly when they name the same tool and pass the same arguments up to
  // key order, whatever characters the tool names hold.
  lemma KeyIsExact(toolName: string, args: Value, toolName': string, args': Value)
    requires WellFormed(args) && WellFormed(args')
    ensures Key(toolName, args) == Key(toolName', args') <==> toolName == toolName' && MeaningOf(args) == MeaningOf(args')
  {
    hide Print, MeaningOf, WellFormed, NoNul;
    PrintHasNoNul(args);
    PrintHasNoNul(args');
    PrintIsCanonical(args, args');
    if Key(toolName, args) == Key(toolName', args') {
      SplitAtNul(toolName, Print(args), toolName', Print(args'));
    }
  }

  // --- refinement of an abstract map, over every trace ---

  // What a grant is for: a tool and its arguments up to key order.
  type Call = (string, Meaning)

  type Outstanding = map<Call, string>

  function CallOf(op: Op): Call {
    (op.toolName, MeaningOf(op.args))
  }

  function AbstractAfter(m: Outstanding, op: Op): Outstanding {
    match op
    case Grant(_, _, id) => m[CallOf(op) := id]
    case Spend(_, _) => m - {CallOf(op)}
  }

  function AbstractAnswer(m: Outstanding, op: Op): Option<string> {
    if op.Spend? && CallOf(op) in m then Some(m[CallOf(op)]) else None
  }

  // The store holds, under the keys of its calls, exactly the outstanding grants.
  ghost predicate Represents(store: Store, m: Outstanding) {
    && |store| == |m|
    && forall toolName, args :: WellFormed(args) ==>
         var k, c := Key(toolName, args), (toolName, MeaningOf(args));
         && (k in store <==> c in m)
         && (k in store && c in m ==> store[k] == m[c])
  }

  lemma StepRefines(store: Store, m: Outstanding, op: Op)
    requires Represents(store, m) && WellFormed(op.args)
    ensures Represents(After(store, op), AbstractAfter(m, op))
    ensures Answer(store, op) == AbstractAnswer(m, op)
  {
    hide Key, MeaningOf, WellFormed;
    var store', m' := After(store, op), AbstractAfter(m, op);
    var k0, c0 := Key(op.toolName, op.args), CallOf(op);
    assert k0 in store <==> c0 in m;
    SizesAlike(store, k0, m, c0, op);
    forall toolName, args | WellFormed(args)
      ensures var k, c := Key(toolName, args), (toolName, MeaningOf(args));
              && (k in store' <==> c in m')
              && (k in store' && c in m' ==> store'[k] == m'[c])
    {
      KeyIsExact(toolName, args, op.toolName, op.args);
      assert Key(toolName, args) in store <==> (toolName, MeaningOf(args)) in m;
    }
  }

  lemma SizesAlike(store: Store, k: string, m: Outstanding, c: Call, op: Op)
    requires |store| == |m| && (k in store <==> c in m)
    requires k == Key(op.toolName, op.args) && c == CallOf(op)
    ensures |After(store, op)| == |AbstractAfter(m, op)|
  {
    hide Key, CallOf;
    if op.Spend? {
      RemovedSize(store, k);
      RemovedSize(m, c);
    } else {
      AddedSize(store, k, op.id);
      AddedSize(m, c, op.id);
    }
  }

  lemma AddedSize<K, V>(m: map<K, V>, k: K, v: V)
    ensures |m[k := v]| == |m| + if k in m then 0 else 1
  {
    assert m[k := v].Keys == m.Keys + {k};
    assert |m| == |m.Keys| && |m[k := v]| == |m[k := v].Keys|;
  }

  lemma RemovedSize<K, V>(m: map<K, V>, k: K)
    ensures |m - {k}| == |m| - if k in m then 1 else 0
  {
    assert (m - {k}).Keys == m.Keys - {k};
    assert |m| == |m.Keys| && |m - {k}| == |(m - {k}).Keys|;
  }

  predicate ValidTrace(ops: seq<Op>) {
    forall i :: 0 <= i < |ops| ==> WellFormed(ops[i].args)
  }

  function Run(ops: seq<Op>): Store {
    if ops == [] then map[] else After(Run(ops[..|ops| - 1]), ops[|ops| - 1])
  }

  function AbstractRun(ops: seq<Op>): Outstanding {
    if ops == [] then map[] else AbstractAfter(AbstractRun(ops[..|ops| - 1]), ops[|ops| - 1])
  }

  lemma {:induction false} TraceRefines(ops: seq<Op>)
    requires ValidTrace(ops)
    ensures Represents(Run(ops), AbstractRun(ops))
  {
    hide After, AbstractAfter, Key, MeaningOf, WellFormed;
    if ops != [] {
      var n := |ops| - 1;
      TraceRefines(ops[..n]);
      StepRefines(Run(ops[..n]), AbstractRun(ops[..n]), ops[n]);
    }
  }

  // The grant a call would spend after the first `n` operations: the latest one for that call,
  // unless the call was looked up since.
  function LatestUnspent(ops: seq<Op>, n: nat, c: Call): Option<nat>
    requires n <= |ops|
  {
    if n == 0 then None
    else if CallOf(ops[n - 1]) == c then (if ops[n - 1].Grant? then Some(n - 1) else None)
    else LatestUnspent(ops, n - 1, c)
  }

  lemma {:induction false} LatestIsGrant(ops: seq<Op>, n: nat, c: Call)
    requires n <= |ops| && LatestUnspent(ops, n, c).Some?
    ensures var g := LatestUnspent(ops, n, c).value;
            && g < n && ops[g].Grant? && CallOf(ops[g]) == c
            && forall i :: g < i < n ==> CallOf(ops[i]) != c
    decreases n
  {
    hide CallOf;
    if CallOf(ops[n - 1]) != c {
      LatestIsGrant(ops, n - 1, c);
    }
  }

  lemma {:induction false} OutstandingIsLatest(ops: seq<Op>, n: nat, c: Call)
    requires n <= |ops|
    ensures c in AbstractRun(ops[..n]) <==> LatestUnspent(ops, n, c).Some?
    ensures LatestUnspent(ops, n, c).Some? ==>
              var g := LatestUnspent(ops, n, c).value;
              g < n && ops[g].Grant? && AbstractRun(ops[..n])[c] == ops[g].id
    decreases n
  {
    hide CallOf;
    if n > 0 {
      OutstandingIsLatest(ops, n - 1, c);
      assert ops[..n][..n - 1] == ops[..n - 1];
      assert ops[..n] != [] && ops[..n][n - 1] == ops[n - 1];
    }
  }

  // What the store answers: over every trace, a lookup returns the latest unspent grant of its
  // call, and nothing if there is none.
  lemma LookupIsLatest(ops: seq<Op>, n: nat)
    requires ValidTrace(ops) && n < |ops| && ops[n].Spend?
    ensures var g := LatestUnspent(ops, n, CallOf(ops[n]));
            if g.None? then Answer(Run(ops[..n]), ops[n]) == None
            else g.value < n && ops[g.value].Grant? && Answer(Run(ops[..n]), ops[n]) == Some(ops[g.value].id)
  {
    hide Run, AbstractRun, LatestUnspent, Key, MeaningOf, WellFormed, Represents;
    TraceRefines(ops[..n]);
    StepRefines(Run(ops[..n]), AbstractRun(ops[..n]), ops[n]);
    OutstandingIsLatest(ops, n, CallOf(ops[n]));
  }

  // The grant an operation hands out.
  function Spent(ops: seq<Op>, n: nat): Option<nat>
    requires n < |ops|
  {
    if ops[n].Spend? then LatestUnspent(ops, n, CallOf(ops[n])) else None
  }

  // Each grant is handed out at most once.
  lemma SpentOnce(ops: seq<Op>, i: nat, j: nat)
    requires i < j < |ops| && Spent(ops, i).Some? && Spent(ops, j).Some?
    ensures Spent(ops, i) != Spent(ops, j)
  {
    hide LatestUnspent, CallOf;
    LatestIsGrant(ops, i, CallOf(ops[i]));
    LatestIsGrant(ops, j, CallOf(ops[j]));
  }

  // `size` counts the calls with an unspent grant.
  lemma SizeCountsOutstanding(ops: seq<Op>)
    requires ValidTrace(ops)
    ensures |Run(ops)| == |AbstractRun(ops).Keys|
    ensures forall c :: c in AbstractRun(ops).Keys <==> LatestUnspent(ops, |ops|, c).Some?
  {
    hide Run, AbstractRun, LatestUnspent;
    TraceRefines(ops);
    assert ops[..|ops|] == ops;
    forall c
      ensures c in AbstractRun(ops).Keys <==> LatestUnspent(ops, |ops|, c).Some?
    {
      OutstandingIsLatest(ops, |ops|, c);
    }
  }
}
