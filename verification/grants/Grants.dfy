/** `createApprovalGrants` and `resumeAfterApproval`: approved requests wait here until one retry spends them. */
module Grants {
  import opened Prelude
  import opened Canonical

  // --- the key of a call ---

  function Key(toolName: string, args: Value): string {
    toolName + "\0" + Print(args)
  }

  // --- the store ---

  datatype Op = Grant(toolName: string, args: Value, id: string) | Spend(toolName: string, args: Value)

  type Store = map<string, string>

  // The store behind an operation, and what the operation answers.
  function After(store: Store, op: Op): Store {
    match op
    case Grant(toolName, args, id) => store[Key(toolName, args) := id]
    case Spend(toolName, args) => store - {Key(toolName, args)}
  }

  function Answer(store: Store, op: Op): Option<string> {
    match op
    case Grant(_, _, _) => None
    case Spend(toolName, args) =>
      if Key(toolName, args) in store then Some(store[Key(toolName, args)]) else None
  }

  class ApprovalGrants {
    var grants: Store

    constructor ()
      ensures grants == map[]
    {
      grants := map[];
    }

    method Grant(toolName: string, args: Value, approvalRequestId: string)
      modifies this
      ensures grants == After(old(grants), Op.Grant(toolName, args, approvalRequestId))
    {
      grants := grants[Key(toolName, args) := approvalRequestId];
    }

    // The lookup `approvalIdFor` returns, on the arguments of a retry.
    method ApprovalIdFor(toolName: string, args: Value) returns (id: Option<string>)
      modifies this
      ensures id == Answer(old(grants), Spend(toolName, args))
      ensures grants == After(old(grants), Spend(toolName, args))
    {
      var k := Key(toolName, args);
      id := None;
      if k in grants {
        id := Some(grants[k]);
        grants := grants - {k};
      }
    }

    method Size() returns (n: nat)
      ensures n == |grants|
    {
      n := |grants|;
    }
  }

  // --- resumeAfterApproval ---

  datatype ResumeResult = Approved(approvalId: string) | Pending | Denied | Expired | NotFound

  // `host(k)` is the status the k-th check finds, if the request exists. Checks until one is decisive
  // or the waiting time is over, and answers what that last check found; an approval is stored for
  // the call it is for.
  method ResumeAfterApproval(host: nat -> Option<string>, requestId: string, waitMs: Option<int>, pollMs: Option<int>,
                             grants: ApprovalGrants?, call: Option<(string, Value)>)
    returns (r: ResumeResult, checks: nat, waited: int)
    modifies grants
    ensures var wait := if waitMs.Some? then waitMs.value else 0;
            var step := if pollMs.None? then 1000 else if pollMs.value < 1 then 1 else pollMs.value;
            && checks > 0 && waited == (checks - 1) * step
            && (checks > 1 ==> waited - step < wait)
            && (r == Pending ==> waited >= wait)
    ensures forall k :: 0 <= k < checks - 1 ==>
              host(k) !in {None, Some("approved"), Some("denied"), Some("expired")}
    ensures var last := host(checks - 1);
            && (r == NotFound <==> last == None)
            && (r == Approved(requestId) <==> last == Some("approved"))
            && (r == Denied <==> last == Some("denied"))
            && (r == Expired <==> last == Some("expired"))
            && (r == Pending <==> last !in {None, Some("approved"), Some("denied"), Some("expired")})
    ensures grants != null ==>
              var granted := host(checks - 1) == Some("approved") && call.Some?;
              && (granted ==> grants.grants == old(grants.grants)[Key(call.value.0, call.value.1) := requestId])
              && (grants.grants != old(grants.grants) <==>
                    granted && var k := Key(call.value.0, call.value.1);
                    !(k in old(grants.grants) && old(grants.grants)[k] == requestId))
  {
    var wait := if waitMs.Some? then waitMs.value else 0;
    var step := if pollMs.None? then 1000 else if pollMs.value < 1 then 1 else pollMs.value;
    waited := 0;
    checks := 0;
    while true
      invariant waited == checks * step
      invariant forall k :: 0 <= k < checks ==> host(k) !in {None, Some("approved"), Some("denied"), Some("expired")}
      invariant checks > 0 ==> waited - step < wait
      invariant grants != null ==> grants.grants == old(grants.grants)
      decreases wait - waited
    {
      var status := host(checks);
      checks := checks + 1;
      if status.None? {
        r := NotFound;
        return;
      }
      if status.value == "approved" {
        if grants != null && call.Some? {
          grants.Grant(call.value.0, call.value.1, requestId);
        }
        r := Approved(requestId);
        return;
      }
      if status.value == "denied" {
        r := Denied;
        return;
      }
      if status.value == "expired" {
        r := Expired;
        return;
      }
      if waited >= wait {
        r := Pending;
        return;
      }
      waited := waited + step;
    }
  }
}
