/** What a user sees after each step of the session store, in any run. */
module SessionOutcomes {
  import opened Prelude
  import opened SessionStore
  import opened SessionLaws

  // What is shown, and stored, before and behind the n-th event.
  ghost function Before(c: Config, stored: Option<Session>, es: seq<Event>, n: nat): Visible
    requires IsRun(c, stored, es) && n < |es|
  {
    At(c, stored, es, n).visible
  }

  ghost function Behind(c: Config, stored: Option<Session>, es: seq<Event>, n: nat): Visible
    requires IsRun(c, stored, es) && n < |es|
  {
    At(c, stored, es, n + 1).visible
  }

  // `session` is shown, and written if it has a token and there is storage.
  predicate Shows(c: Config, before: Visible, behind: Visible, session: Session) {
    && behind.session == Some(session) && !behind.isLoading
    && behind.storage == if c.hasStorage && session.token != "" then Some(session) else before.storage
  }

  // Nobody is signed in, and nothing is left in storage.
  predicate ShowsNobody(c: Config, before: Visible, behind: Visible) {
    && behind.session == None && !behind.isLoading
    && behind.storage == if c.hasStorage then None else before.storage
  }

  // Only loading is over.
  predicate Settled(before: Visible, behind: Visible) {
    behind.session == before.session && behind.storage == before.storage && !behind.isLoading
  }

  // --- signing in and out ---

  // A successful sign-in or sign-up signs in.
  lemma SignInShows(c: Config, stored: Option<Session>, es: seq<Event>, n: nat)
    requires IsRun(c, stored, es) && n < |es| && es[n].AuthSucceeded?
    ensures es[n].session.token != ""
    ensures Shows(c, Before(c, stored, es, n), Behind(c, stored, es, n), es[n].session)
  {
    Next(c, stored, es, n);
  }

  // A hydrated session is shown as given, unless it is expired or has no user; then nobody is.
  lemma HydrateShows(c: Config, stored: Option<Session>, es: seq<Event>, n: nat)
    requires IsRun(c, stored, es) && n < |es| && es[n].Hydrate?
    ensures match es[n].initial
            case Some(HydrateInput(token, Some(user), expiresAt, false)) =>
              Shows(c, Before(c, stored, es, n), Behind(c, stored, es, n), Session(token, user, expiresAt))
            case _ => ShowsNobody(c, Before(c, stored, es, n), Behind(c, stored, es, n))
  {
    Next(c, stored, es, n);
  }

  lemma SignOutShowsNobody(c: Config, stored: Option<Session>, es: seq<Event>, n: nat)
    requires IsRun(c, stored, es) && n < |es| && es[n].SignOut?
    ensures ShowsNobody(c, Before(c, stored, es, n), Behind(c, stored, es, n))
  {
    Next(c, stored, es, n);
  }

  // Destroying the store only stops it loading.
  lemma DestroySettles(c: Config, stored: Option<Session>, es: seq<Event>, n: nat)
    requires IsRun(c, stored, es) && n < |es| && es[n].Destroy?
    ensures Settled(Before(c, stored, es, n), Behind(c, stored, es, n))
  {
    Next(c, stored, es, n);
  }

  // A failed sign-in shows nothing, nor does a request that has only been sent.
  lemma NothingShown(c: Config, stored: Option<Session>, es: seq<Event>, n: nat)
    requires IsRun(c, stored, es) && n < |es| && (es[n].AuthStarted? || es[n].AuthFailed? || es[n].Cleared?)
    ensures Behind(c, stored, es, n) == Before(c, stored, es, n)
  {
    Next(c, stored, es, n);
  }

  // --- refreshing ---

  // A refresh that begins shows the stored session while none is shown, and asks with its token.
  lemma RefreshBegins(c: Config, stored: Option<Session>, es: seq<Event>, n: nat)
    requires IsRun(c, stored, es) && n < |es| && es[n].Refresh? && !At(c, stored, es, n).inFlight
    ensures var s, s' := At(c, stored, es, n), At(c, stored, es, n + 1);
            var found := if c.hasStorage then s.visible.storage else None;
            && s'.visible.storage == s.visible.storage
            && (if s.visible.session.None? && found.Some? then s'.visible.session == found && s'.visible.isLoading
                else s'.visible.session == s.visible.session && s'.visible.isLoading == s.visible.isLoading)
            && s.nextRun in s'.frames && s'.inFlight && s'.nextRun == s.nextRun + 1
            && s'.frames[s.nextRun].mine == s.epoch && !s'.frames[s.nextRun].reading
            && s'.frames[s.nextRun].token ==
               (if s.visible.session.Some? && s.visible.session.value.token != "" then s.visible.session.value.token
                else if found.Some? then found.value.token else "")
  {
    Next(c, stored, es, n);
  }

  // While one is in flight another does nothing.
  lemma RefreshOnce(c: Config, stored: Option<Session>, es: seq<Event>, n: nat)
    requires IsRun(c, stored, es) && n < |es| && es[n].Refresh? && At(c, stored, es, n).inFlight
    ensures At(c, stored, es, n + 1) == At(c, stored, es, n)
  {
    Next(c, stored, es, n);
  }

  // The refresh `r` still counts: nothing has been decided since it began.
  ghost predicate Counts(s: State, r: nat) {
    r in s.frames && s.frames[r].mine == s.epoch
  }

  // The answer to a refresh that counts: signed out on 401 and 403, the body is read on success, and
  // anything else leaves the session.
  lemma AnswerShows(c: Config, stored: Option<Session>, es: seq<Event>, n: nat)
    requires IsRun(c, stored, es) && n < |es| && es[n].Answered? && Counts(At(c, stored, es, n), es[n].run)
    ensures match es[n].status
            case Unauthorized => ShowsNobody(c, Before(c, stored, es, n), Behind(c, stored, es, n))
            case Success =>
              && Behind(c, stored, es, n) == Before(c, stored, es, n)
              && Counts(At(c, stored, es, n + 1), es[n].run) && At(c, stored, es, n + 1).frames[es[n].run].reading
            case OtherStatus => Settled(Before(c, stored, es, n), Behind(c, stored, es, n))
  {
    Next(c, stored, es, n);
  }

  // A body with a user shows that user under the token the refresh asked with, and an expiry if the
  // body or the session has one; a body without a user leaves the session.
  lemma BodyShows(c: Config, stored: Option<Session>, es: seq<Event>, n: nat)
    requires IsRun(c, stored, es) && n < |es| && es[n].BodyRead? && Counts(At(c, stored, es, n), es[n].run)
    ensures match es[n].user
            case None => Settled(Before(c, stored, es, n), Behind(c, stored, es, n))
            case Some(user) =>
              var shown := Before(c, stored, es, n).session;
              var expiry := if es[n].expiresAt.Some? then es[n].expiresAt
                            else if shown.Some? then shown.value.expiresAt else None;
              Shows(c, Before(c, stored, es, n), Behind(c, stored, es, n),
                    Session(At(c, stored, es, n).frames[es[n].run].token, user, expiry))
  {
    Next(c, stored, es, n);
  }

  lemma FailureSettles(c: Config, stored: Option<Session>, es: seq<Event>, n: nat)
    requires IsRun(c, stored, es) && n < |es| && es[n].Failed? && Counts(At(c, stored, es, n), es[n].run)
    ensures Settled(Before(c, stored, es, n), Behind(c, stored, es, n))
  {
    Next(c, stored, es, n);
  }

  // A refresh that was overtaken shows nothing.
  lemma OvertakenShowsNothing(c: Config, stored: Option<Session>, es: seq<Event>, n: nat, r: nat)
    requires IsRun(c, stored, es) && n < |es| && Settles(es[n], r) && !Counts(At(c, stored, es, n), r)
    ensures Behind(c, stored, es, n) == Before(c, stored, es, n)
  {
    hide Apply;
    Next(c, stored, es, n);
    var s := At(c, stored, es, n);
    if Apply(c, s, es[n]).visible != s.visible {
      OnlyCurrentCommits(c, s, es[n], r);
    }
  }

  // With its last answer a refresh is over, overtaken or not; a success is not the last.
  lemma SettledIsOver(c: Config, stored: Option<Session>, es: seq<Event>, n: nat, r: nat)
    requires IsRun(c, stored, es) && n < |es| && Settles(es[n], r)
    requires es[n].Answered? && es[n].status.Success? ==> !Counts(At(c, stored, es, n), r)
    ensures r !in At(c, stored, es, n + 1).frames && r in At(c, stored, es, n + 1).finishing
  {
    Next(c, stored, es, n);
  }

  // Once that is noticed the next refresh can begin.
  lemma ClearedMakesRoom(c: Config, stored: Option<Session>, es: seq<Event>, n: nat)
    requires IsRun(c, stored, es) && n < |es| && es[n].Cleared?
    ensures !At(c, stored, es, n + 1).inFlight
  {
    Next(c, stored, es, n);
  }

  // A sign-in is pending from its request to its answer, and only sign-out and destroy abort.
  lemma WhatIsOutstanding(c: Config, stored: Option<Session>, es: seq<Event>, n: nat)
    requires IsRun(c, stored, es) && n < |es|
    ensures var s, s' := At(c, stored, es, n), At(c, stored, es, n + 1);
            && (es[n].AuthStarted? ==> s'.pendingAuth == s.pendingAuth + 1)
            && (es[n].AuthFailed? || es[n].AuthSucceeded? ==> s.pendingAuth == s'.pendingAuth + 1)
            && (!es[n].AuthStarted? && !es[n].AuthFailed? && !es[n].AuthSucceeded? ==> s'.pendingAuth == s.pendingAuth)
            && (s'.aborted != s.aborted ==> es[n].SignOut? || es[n].Destroy?)
            && forall r :: r in s'.aborted && r !in s.aborted ==> s.controller == Some(r)
  {
    Next(c, stored, es, n);
  }

  // --- a sign-in lasts ---

  // No decision, and no answer to a refresh numbered `first` or later.
  ghost predicate LeavesSession(e: Event, first: nat) {
    !Decisive(e) && forall r: nat :: Settles(e, r) ==> r < first
  }

  // The session of a sign-in is shown, and the refreshes before it do not count.
  ghost predicate SignedInState(c: Config, s: State, session: Session, first: nat) {
    && s.visible.session == Some(session) && !s.visible.isLoading
    && (c.hasStorage ==> s.visible.storage == Some(session))
    && s.nextRun >= first && forall r :: r in s.frames && r < first ==> s.frames[r].mine < s.epoch
  }

  lemma SignedInStep(c: Config, s: State, e: Event, session: Session, first: nat)
    requires Enabled(s, e) && SignedInState(c, s, session, first) && LeavesSession(e, first)
    ensures SignedInState(c, Apply(c, s, e), session, first)
  {
    SettledBefore(e, first);
  }

  lemma SettledBefore(e: Event, first: nat)
    requires LeavesSession(e, first)
    ensures e.Answered? || e.Failed? || e.BodyRead? ==> e.run < first
  {
    if e.Answered? || e.Failed? || e.BodyRead? {
      assert Settles(e, e.run);
    }
  }

  lemma SignInSignsIn(c: Config, s: State, session: Session)
    requires SingleFlight(s) && Enabled(s, AuthSucceeded(session))
    ensures SignedInState(c, Apply(c, s, AuthSucceeded(session)), session, s.nextRun)
  {
  }

  // After a sign-in its session is shown, in every interleaving, until the next decision or the
  // answer to a refresh that began after it.
  lemma {:induction false} SignedInStays(c: Config, stored: Option<Session>, es: seq<Event>, i: nat, n: nat)
    requires IsRun(c, stored, es) && i < n <= |es| && es[i].AuthSucceeded?
    requires forall k :: i < k < n ==> LeavesSession(es[k], At(c, stored, es, i).nextRun)
    ensures SignedInState(c, At(c, stored, es, n), es[i].session, At(c, stored, es, i).nextRun)
    decreases n
  {
    hide Apply, Enabled, SignedInState, SingleFlight;
    Next(c, stored, es, n - 1);
    if n == i + 1 {
      InvariantHolds(c, stored, es, i);
      SignInSignsIn(c, At(c, stored, es, i), es[i].session);
    } else {
      SignedInStays(c, stored, es, i, n - 1);
      SignedInStep(c, At(c, stored, es, n - 1), es[n - 1], es[i].session, At(c, stored, es, i).nextRun);
    }
  }
}
