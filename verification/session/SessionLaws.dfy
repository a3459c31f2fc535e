/** What holds in every reachable state of the session store, in every interleaving. */
module SessionLaws {
  import opened Prelude
  import opened SessionStore

  // --- runs ---

  // The state after the first `n` events of a run, if each was enabled when it happened.
  ghost predicate IsRun(c: Config, stored: Option<Session>, es: seq<Event>)
    decreases |es|, 0
  {
    es == [] ||
    var n := |es| - 1;
    IsRun(c, stored, es[..n]) && Enabled(StateAfter(c, stored, es[..n]), es[n])
  }

  ghost function StateAfter(c: Config, stored: Option<Session>, es: seq<Event>): State
    requires IsRun(c, stored, es)
    decreases |es|, 1
  {
    if es == [] then Initial(stored)
    else Apply(c, StateAfter(c, stored, es[..|es| - 1]), es[|es| - 1])
  }

  lemma {:induction false} PrefixIsRun(c: Config, stored: Option<Session>, es: seq<Event>, n: nat)
    requires IsRun(c, stored, es) && n <= |es|
    ensures IsRun(c, stored, es[..n])
    ensures n < |es| ==>
              && Enabled(StateAfter(c, stored, es[..n]), es[n])
              && IsRun(c, stored, es[..n + 1])
              && StateAfter(c, stored, es[..n + 1]) == Apply(c, StateAfter(c, stored, es[..n]), es[n])
    decreases |es|
  {
    hide Apply, Enabled;
    if n == |es| {
      assert es[..n] == es;
    } else {
      var m := |es| - 1;
      if n < m {
        PrefixIsRun(c, stored, es[..m], n);
        assert es[..m][..n] == es[..n] && es[..m][..n + 1] == es[..n + 1] && es[..m][n] == es[n];
      } else {
        assert es[..n + 1] == es;
      }
    }
  }

  ghost function At(c: Config, stored: Option<Session>, es: seq<Event>, n: nat): State
    requires IsRun(c, stored, es) && n <= |es|
  {
    PrefixIsRun(c, stored, es, n);
    StateAfter(c, stored, es[..n])
  }

  lemma Next(c: Config, stored: Option<Session>, es: seq<Event>, n: nat)
    requires IsRun(c, stored, es) && n < |es|
    ensures Enabled(At(c, stored, es, n), es[n])
    ensures At(c, stored, es, n + 1) == Apply(c, At(c, stored, es, n), es[n])
  {
    hide Apply, Enabled;
    PrefixIsRun(c, stored, es, n);
  }

  // Events that decide the session.
  predicate Decisive(e: Event) {
    e.AuthSucceeded? || e.Hydrate? || e.SignOut? || e.Destroy?
  }

  // Has a refresh started, or a decisive event happened?
  predicate Started(es: seq<Event>) {
    exists i :: 0 <= i < |es| && (es[i].Refresh? || Decisive(es[i]))
  }

  // The same, but `destroy` decides nothing about the session itself.
  predicate Decided(es: seq<Event>) {
    exists i :: 0 <= i < |es| && (es[i].Refresh? || (Decisive(es[i]) && !es[i].Destroy?))
  }

  lemma StartedStep(es: seq<Event>, n: nat)
    requires n < |es|
    ensures Started(es[..n + 1]) <==> Started(es[..n]) || es[n].Refresh? || Decisive(es[n])
    ensures Decided(es[..n + 1]) <==> Decided(es[..n]) || es[n].Refresh? || (Decisive(es[n]) && !es[n].Destroy?)
  {
    var a, b := es[..n], es[..n + 1];
    assert b == a + [es[n]];
    if Started(a) {
      var i :| 0 <= i < |a| && (a[i].Refresh? || Decisive(a[i]));
      assert b[i] == a[i];
    }
    if Decided(a) {
      var i :| 0 <= i < |a| && (a[i].Refresh? || (Decisive(a[i]) && !a[i].Destroy?));
      assert b[i] == a[i];
    }
    assert b[n] == es[n];
  }

  // --- invariants ---

  // One refresh at a time: while `inFlight` is set exactly one refresh is suspended or finishing,
  // otherwise none is.
  ghost predicate SingleFlight(s: State) {
    && (s.inFlight ==> exists r :: (s.frames.Keys == {r} && s.finishing == {}) || (s.frames.Keys == {} && s.finishing == {r}))
    && (!s.inFlight ==> s.frames.Keys == {} && s.finishing == {})
    && (forall r :: r in s.frames ==> r < s.nextRun && s.frames[r].mine <= s.epoch)
    && (forall r :: r in s.finishing ==> r < s.nextRun)
  }

  // The controller belongs to the suspended refresh.
  predicate ControllerIsLive(c: Config, s: State) {
    && (c.hasAbort ==> forall r :: r in s.frames ==> s.controller == Some(r))
    && (s.controller.Some? ==> s.controller.value in s.frames)
  }

  // A suspended refresh whose answer will still count.
  predicate CurrentRefresh(s: State) {
    exists r :: r in s.frames && s.frames[r].mine == s.epoch
  }

  lemma ApplySingleFlight(c: Config, s: State, e: Event)
    requires SingleFlight(s) && Enabled(s, e)
    ensures SingleFlight(Apply(c, s, e))
  {
    var s' := Apply(c, s, e);
    if s.inFlight {
      var r :| (s.frames.Keys == {r} && s.finishing == {}) || (s.frames.Keys == {} && s.finishing == {r});
      match e
      case Answered(run, status) =>
        assert run in s.frames.Keys;
        if s.frames[run].mine == s.epoch && status == Success {
          assert s'.frames.Keys == {r};
        } else {
          assert s'.frames.Keys == {} && s'.finishing == {r};
        }
      case Failed(run) =>
        assert run in s.frames.Keys;
        assert s'.frames.Keys == {} && s'.finishing == {r};
      case BodyRead(run, _, _) =>
        assert run in s.frames.Keys;
        assert s'.frames.Keys == {} && s'.finishing == {r};
      case Cleared(run) =>
        assert s'.frames.Keys == {} && s'.finishing == {};
      case _ =>
        assert s'.frames == s.frames && s'.finishing == s.finishing;
    } else if e.Refresh? {
      assert s'.frames.Keys == {s.nextRun} && s'.finishing == {};
    } else {
      NothingSuspended(c, s, e);
    }
  }

  lemma NothingSuspended(c: Config, s: State, e: Event)
    requires SingleFlight(s) && Enabled(s, e) && !s.inFlight && !e.Refresh?
    ensures var s' := Apply(c, s, e);
            s'.frames == s.frames && s'.finishing == s.finishing && !s'.inFlight && s'.epoch >= s.epoch && s'.nextRun == s.nextRun
  {
    assert forall r :: r !in s.frames.Keys && r !in s.finishing;
  }

  lemma ApplyControllerIsLive(c: Config, s: State, e: Event)
    requires SingleFlight(s) && ControllerIsLive(c, s) && Enabled(s, e)
    ensures ControllerIsLive(c, Apply(c, s, e))
  {
    var s' := Apply(c, s, e);
    if s.controller.Some? && s'.controller == s.controller {
      assert s.controller.value in s.frames;
    }
  }

  // Loading is shown only before anything started, or while one current refresh is suspended.
  ghost predicate LoadingIsLive(s: State, started: bool) {
    && (s.visible.isLoading ==> !started || CurrentRefresh(s))
    && (!started ==> !s.inFlight && s.visible.session.None?)
  }

  lemma ApplyLoadingIsLive(c: Config, s: State, e: Event, started: bool)
    requires SingleFlight(s) && LoadingIsLive(s, started) && Enabled(s, e)
    ensures LoadingIsLive(Apply(c, s, e), started || e.Refresh? || Decisive(e))
  {
    var s' := Apply(c, s, e);
    if e.Refresh? && !s.inFlight {
      assert s.nextRun in s'.frames && s'.frames[s.nextRun].mine == s'.epoch;
    } else if s'.visible.isLoading && started {
      assert CurrentRefresh(s);
      var r :| r in s.frames && s.frames[r].mine == s.epoch;
      assert r in s'.frames && s'.frames[r].mine == s'.epoch;
    }
  }

  // Storage mirrors the session, unless the session has no token.
  predicate StorageMirrors(c: Config, s: State, decided: bool) {
    && (c.hasStorage && TokenOf(s.visible.session) != "" ==> s.visible.storage == s.visible.session)
    && (decided && s.visible.session.None? ==> Read(c, s.visible.storage).None?)
    && (!decided ==> s.visible.session.None? && !s.inFlight)
  }

  lemma ApplyStorageMirrors(c: Config, s: State, e: Event, decided: bool)
    requires SingleFlight(s) && StorageMirrors(c, s, decided) && Enabled(s, e)
    ensures StorageMirrors(c, Apply(c, s, e), decided || e.Refresh? || (Decisive(e) && !e.Destroy?))
  {
  }

  ghost predicate Invariant(c: Config, s: State, es: seq<Event>) {
    && SingleFlight(s) && ControllerIsLive(c, s)
    && LoadingIsLive(s, Started(es)) && StorageMirrors(c, s, Decided(es))
  }

  lemma {:induction false} InvariantHolds(c: Config, stored: Option<Session>, es: seq<Event>, n: nat)
    requires IsRun(c, stored, es) && n <= |es|
    ensures Invariant(c, At(c, stored, es, n), es[..n])
    decreases n
  {
    hide Apply, Enabled, SingleFlight, ControllerIsLive, LoadingIsLive, StorageMirrors, Started, Decided;
    if n == 0 {
      InitialInvariant(c, stored);
      assert es[..0] == [];
    } else {
      var s, e := At(c, stored, es, n - 1), es[n - 1];
      InvariantHolds(c, stored, es, n - 1);
      Next(c, stored, es, n - 1);
      StartedStep(es, n - 1);
      ApplySingleFlight(c, s, e);
      ApplyControllerIsLive(c, s, e);
      ApplyLoadingIsLive(c, s, e, Started(es[..n - 1]));
      ApplyStorageMirrors(c, s, e, Decided(es[..n - 1]));
    }
  }

  lemma InitialInvariant(c: Config, stored: Option<Session>)
    ensures Invariant(c, Initial(stored), [])
  {
    assert Initial(stored).frames.Keys == {};
  }

  // --- what a user of the store is promised ---

  // Loading never sticks: once anything started, `isLoading` means that exactly one refresh is
  // suspended and that its answer still counts.
  lemma LoadingNeverSticks(c: Config, stored: Option<Session>, es: seq<Event>, n: nat)
    requires IsRun(c, stored, es) && n <= |es|
    ensures var s := At(c, stored, es, n);
            && (s.visible.isLoading && Started(es[..n]) ==>
                  exists r :: r in s.frames && s.frames[r].mine == s.epoch && s.inFlight)
            && (forall r, r' :: r in s.frames && r' in s.frames ==> r == r')
  {
    hide Apply, Enabled, Started, Decided;
    InvariantHolds(c, stored, es, n);
  }

  // Whenever the outstanding refresh settles, `isLoading` is false.
  lemma SettledIsNotLoading(c: Config, stored: Option<Session>, es: seq<Event>, n: nat, r: nat)
    requires IsRun(c, stored, es) && n < |es|
    requires r in At(c, stored, es, n).frames && r !in At(c, stored, es, n + 1).frames
    ensures !At(c, stored, es, n + 1).visible.isLoading
  {
    hide Enabled, Decided, Started;
    var s := At(c, stored, es, n);
    InvariantHolds(c, stored, es, n);
    InvariantHolds(c, stored, es, n + 1);
    Next(c, stored, es, n);
    StartedStep(es, n);
    assert s.inFlight && Started(es[..n]);
  }

  // Storage agrees with memory.
  lemma StorageAgrees(c: Config, stored: Option<Session>, es: seq<Event>, n: nat)
    requires IsRun(c, stored, es) && n <= |es|
    ensures var v := At(c, stored, es, n).visible;
            && (c.hasStorage && v.session.Some? && v.session.value.token != "" ==> v.storage == v.session)
            && (Decided(es[..n]) && v.session.None? ==> Read(c, v.storage).None?)
  {
    hide Apply, Enabled, Started, Decided;
    InvariantHolds(c, stored, es, n);
  }

  // Only sessions with a token are written.
  predicate StoredHasToken(storage: Option<Session>) {
    storage.Some? ==> storage.value.token != ""
  }

  lemma {:induction false} StorageHasToken(c: Config, stored: Option<Session>, es: seq<Event>, n: nat)
    requires IsRun(c, stored, es) && n <= |es| && StoredHasToken(stored)
    ensures StoredHasToken(At(c, stored, es, n).visible.storage)
    decreases n
  {
    hide Enabled;
    if n > 0 {
      StorageHasToken(c, stored, es, n - 1);
      Next(c, stored, es, n - 1);
    } else {
      assert es[..0] == [];
    }
  }

  // A reload, as soon as it refreshes, shows the session that was there if and only if that session
  // has a token.
  lemma ReloadShowsTheSession(c: Config, stored: Option<Session>, es: seq<Event>, n: nat)
    requires IsRun(c, stored, es) && n <= |es| && c.hasStorage && StoredHasToken(stored)
    requires At(c, stored, es, n).visible.session.Some?
    ensures var v := At(c, stored, es, n).visible;
            StartRun(c, Initial(v.storage)).visible.session == v.session <==> v.session.value.token != ""
  {
    hide IsRun, At;
    StorageHasToken(c, stored, es, n);
    StorageAgrees(c, stored, es, n);
  }

  // Without one the old session stays behind: hydrating `user` over a stored session leaves that in
  // storage, and the next refresh carries its token.
  lemma {:induction false} HydrateWithoutToken(stored: Session, user: User, expiresAt: Option<string>)
    requires stored.token != ""
    ensures var c := Config(true, true);
            var es := [Hydrate(Some(HydrateInput("", Some(user), expiresAt, false))), Refresh];
            && IsRun(c, Some(stored), es)
            && var s := At(c, Some(stored), es, 2);
            s.visible.session == Some(Session("", user, expiresAt)) && s.visible.storage == Some(stored)
            && 0 in s.frames && s.frames[0].token == stored.token
  {
    hide IsRun, StateAfter, Apply, Enabled;
    var c := Config(true, true);
    var h := Hydrate(Some(HydrateInput("", Some(user), expiresAt, false)));
    NothingHappened(c, Some(stored));
    HydratedThenRefreshed(stored, user, expiresAt);
    OneMoreEvent(c, Some(stored), [], h);
    assert [] + [h] == [h];
    OneMoreEvent(c, Some(stored), [h], Event.Refresh);
    assert [h] + [Event.Refresh] == [h, Event.Refresh];
    assert [h, Event.Refresh][..2] == [h, Event.Refresh];
  }

  lemma NothingHappened(c: Config, stored: Option<Session>)
    ensures IsRun(c, stored, []) && StateAfter(c, stored, []) == Initial(stored)
  {
  }

  lemma {:induction false} HydratedThenRefreshed(stored: Session, user: User, expiresAt: Option<string>)
    ensures var c := Config(true, true);
            var h := Hydrate(Some(HydrateInput("", Some(user), expiresAt, false)));
            && Enabled(Initial(Some(stored)), h)
            && var s1 := Apply(c, Initial(Some(stored)), h);
            && Enabled(s1, Event.Refresh)
            && var s := Apply(c, s1, Event.Refresh);
            && s.visible.session == Some(Session("", user, expiresAt)) && s.visible.storage == Some(stored)
            && 0 in s.frames && s.frames[0].token == stored.token
  {
  }

  lemma {:induction false} OneMoreEvent(c: Config, stored: Option<Session>, es: seq<Event>, e: Event)
    requires IsRun(c, stored, es) && Enabled(StateAfter(c, stored, es), e)
    ensures IsRun(c, stored, es + [e]) && StateAfter(c, stored, es + [e]) == Apply(c, StateAfter(c, stored, es), e)
  {
    hide Apply, Enabled;
    var more := es + [e];
    assert more[..|more| - 1] == es;
  }

  // Sign-out and destroy abort the outstanding request, where requests can be aborted.
  lemma DecisionAborts(c: Config, stored: Option<Session>, es: seq<Event>, n: nat, r: nat)
    requires IsRun(c, stored, es) && n < |es| && c.hasAbort && (es[n].SignOut? || es[n].Destroy?)
    requires r in At(c, stored, es, n).frames
    ensures r in At(c, stored, es, n + 1).aborted
  {
    hide Enabled, Started, Decided;
    InvariantHolds(c, stored, es, n);
    Next(c, stored, es, n);
    assert At(c, stored, es, n).controller == Some(r);
  }

  // --- a refresh commits atomically ---

  // A refresh that still counts, behind one event: it counted before and nothing visible changed,
  // or it has just started.
  lemma StillCurrent(c: Config, s: State, e: Event, r: nat)
    requires SingleFlight(s) && Enabled(s, e)
    requires var s' := Apply(c, s, e); r in s'.frames && s'.frames[r].mine == s'.epoch
    requires r < s.nextRun
    ensures r in s.frames && s.frames[r].mine == s.epoch
    ensures Apply(c, s, e).visible == s.visible && !Decisive(e)
  {
  }

  // An event of refresh `r`: its answer, its failure, or its body.
  predicate Settles(e: Event, r: nat) {
    match e
    case Answered(run, _) => run == r
    case Failed(run) => run == r
    case BodyRead(run, _, _) => run == r
    case _ => false
  }

  // Only a refresh that still counts can change what is visible.
  lemma OnlyCurrentCommits(c: Config, s: State, e: Event, r: nat)
    requires Settles(e, r) && Enabled(s, e) && Apply(c, s, e).visible != s.visible
    ensures r in s.frames && s.frames[r].mine == s.epoch
  {
  }

  lemma {:induction false} NothingSinceStart(c: Config, stored: Option<Session>, es: seq<Event>, i: nat, n: nat, r: nat)
    requires IsRun(c, stored, es) && i < n <= |es|
    requires At(c, stored, es, i).nextRun == r < At(c, stored, es, i + 1).nextRun
    requires r in At(c, stored, es, n).frames && At(c, stored, es, n).frames[r].mine == At(c, stored, es, n).epoch
    ensures forall k :: i < k <= n ==> At(c, stored, es, k).visible == At(c, stored, es, n).visible
    ensures forall k :: i < k < n ==> !Decisive(es[k])
    decreases n
  {
    hide Apply, Enabled, Decided, Started, IsRun;
    if n > i + 1 {
      var s := At(c, stored, es, n - 1);
      InvariantHolds(c, stored, es, n - 1);
      Next(c, stored, es, n - 1);
      NextRunGrows(c, stored, es, i + 1, n - 1);
      StillCurrent(c, s, es[n - 1], r);
      NothingSinceStart(c, stored, es, i, n - 1, r);
    }
  }

  lemma {:induction false} NextRunGrows(c: Config, stored: Option<Session>, es: seq<Event>, i: nat, n: nat)
    requires IsRun(c, stored, es) && i <= n <= |es|
    ensures At(c, stored, es, i).nextRun <= At(c, stored, es, n).nextRun
    ensures At(c, stored, es, i).epoch <= At(c, stored, es, n).epoch
    decreases n
  {
    hide IsRun, Enabled;
    if i < n {
      NextRunGrows(c, stored, es, i, n - 1);
      Next(c, stored, es, n - 1);
    }
  }

  // Atomic commit: if refresh `r`, started by event `i`, changes the state or the storage at event
  // `j`, then nothing visible changed and nothing decisive happened in between. So a refresh that
  // was overtaken by a sign-in, sign-out, hydrate or destroy changes nothing.
  lemma RefreshIsAtomic(c: Config, stored: Option<Session>, es: seq<Event>, i: nat, j: nat, r: nat)
    requires IsRun(c, stored, es) && i < j < |es|
    requires At(c, stored, es, i).nextRun == r < At(c, stored, es, i + 1).nextRun
    requires Settles(es[j], r)
    requires At(c, stored, es, j + 1).visible != At(c, stored, es, j).visible
    ensures forall k :: i < k <= j ==> At(c, stored, es, k).visible == At(c, stored, es, j).visible
    ensures forall k :: i < k < j ==> !Decisive(es[k])
  {
    hide Apply, Enabled, IsRun;
    Next(c, stored, es, j);
    OnlyCurrentCommits(c, At(c, stored, es, j), es[j], r);
    NothingSinceStart(c, stored, es, i, j, r);
  }

  // --- after sign-out ---

  // Does the event bring a session: a sign-in or sign-up, a hydrate, or a refresh numbered `first`
  // or later that reads a user?
  predicate BringsSession(e: Event, first: nat) {
    match e
    case AuthSucceeded(_) => true
    case Hydrate(initial) => initial.Some?
    case BodyRead(run, user, _) => run >= first && user.Some?
    case _ => false
  }

  predicate SignedOutState(c: Config, s: State, first: nat) {
    && s.visible.session.None? && Read(c, s.visible.storage).None?
    && first <= s.nextRun
    && forall r :: r in s.frames && r < first ==> s.frames[r].mine < s.epoch
  }

  lemma SignedOutStep(c: Config, s: State, e: Event, first: nat)
    requires SignedOutState(c, s, first) && SingleFlight(s) && Enabled(s, e) && !BringsSession(e, first)
    ensures SignedOutState(c, Apply(c, s, e), first)
  {
  }

  lemma SignOutSignsOut(c: Config, s: State)
    requires SingleFlight(s)
    ensures SignedOutState(c, Apply(c, s, SignOut), s.nextRun)
  {
  }

  // After a sign-out the session stays null, and storage empty, until a sign-in or sign-up
  // completes, a hydrate runs, or a refresh started later reads a user.
  lemma {:induction false} SignedOutStays(c: Config, stored: Option<Session>, es: seq<Event>, i: nat, n: nat)
    requires IsRun(c, stored, es) && i < n <= |es| && es[i].SignOut?
    requires forall k :: i < k < n ==> !BringsSession(es[k], At(c, stored, es, i).nextRun)
    ensures SignedOutState(c, At(c, stored, es, n), At(c, stored, es, i).nextRun)
    decreases n
  {
    hide Apply, Enabled, IsRun, SignedOutState, Decided, Started;
    var s := At(c, stored, es, n - 1);
    Next(c, stored, es, n - 1);
    InvariantHolds(c, stored, es, n - 1);
    if n == i + 1 {
      SignOutSignsOut(c, s);
    } else {
      SignedOutStays(c, stored, es, i, n - 1);
      SignedOutStep(c, s, es[n - 1], At(c, stored, es, i).nextRun);
    }
  }
}
