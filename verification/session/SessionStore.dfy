/** `createSessionStore`: the store's state, and what happens to it between two awaits. */
module SessionStore {
  import opened Prelude

  datatype User = User(id: string, email: Option<string>, name: Option<string>, image: Option<string>)

  // The empty token stands for "no token".
  datatype Session = Session(token: string, user: User, expiresAt: Option<string>)

  datatype Config = Config(hasStorage: bool, hasAbort: bool)

  // What a refresh remembers across its awaits. `reading` says which one it is at: the fetch, or
  // the body of its answer.
  datatype Frame = Frame(mine: nat, token: string, reading: bool)

  // What a subscriber, or a reload of the page, can see.
  datatype Visible = Visible(session: Option<Session>, isLoading: bool, storage: Option<Session>)

  // `frames` holds the refreshes that are suspended at an await, by number. `finishing` holds those
  // that have ended and whose `finally` has not yet cleared `inFlight`.
  datatype State = State(
    visible: Visible,
    epoch: nat,
    inFlight: bool,
    controller: Option<nat>,
    aborted: set<nat>,
    frames: map<nat, Frame>,
    finishing: set<nat>,
    nextRun: nat,
    pendingAuth: nat)

  function Initial(stored: Option<Session>): State {
    State(Visible(None, true, stored), 0, false, None, {}, map[], {}, 0, 0)
  }

  datatype Status = Unauthorized | Success | OtherStatus

  datatype HydrateInput = HydrateInput(token: string, user: Option<User>, expiresAt: Option<string>, expired: bool)

  // One step per piece of code that runs without an await.
  datatype Event =
    | Refresh
    | Answered(run: nat, status: Status)
    | Failed(run: nat)
    | BodyRead(run: nat, user: Option<User>, expiresAt: Option<string>)
    | Cleared(run: nat)
    | AuthStarted
    | AuthFailed
    | AuthSucceeded(session: Session)
    | Hydrate(initial: Option<HydrateInput>)
    | SignOut
    | Destroy

  predicate Enabled(s: State, e: Event) {
    match e
    case Answered(run, _) => run in s.frames && !s.frames[run].reading
    case Failed(run) => run in s.frames && !s.frames[run].reading
    case BodyRead(run, _, _) => run in s.frames && s.frames[run].reading
    case Cleared(run) => run in s.finishing
    case AuthFailed => s.pendingAuth > 0
    case AuthSucceeded(session) => s.pendingAuth > 0 && session.token != ""
    case _ => true
  }

  function TokenOf(session: Option<Session>): string {
    match session
    case None => ""
    case Some(x) => x.token
  }

  // `a || b`
  function Or(a: string, b: string): string {
    if a != "" then a else b
  }

  // `remember`: a session without a token, or a store without storage, is not written.
  function Remembered(c: Config, storage: Option<Session>, session: Session): Option<Session> {
    if session.token != "" && c.hasStorage then Some(session) else storage
  }

  function Forgotten(c: Config, storage: Option<Session>): Option<Session> {
    if c.hasStorage then None else storage
  }

  function Read(c: Config, storage: Option<Session>): Option<Session> {
    if c.hasStorage then storage else None
  }

  function Persisted(c: Config, v: Visible, session: Session): Visible {
    Visible(Some(session), false, Remembered(c, v.storage, session))
  }

  function SignedOut(c: Config, v: Visible): Visible {
    Visible(None, false, Forgotten(c, v.storage))
  }

  // The end of `run`: its controller is released, and `inFlight` is about to be cleared.
  function Ended(s: State, run: nat): State {
    s.(frames := s.frames - {run},
       finishing := s.finishing + {run},
       controller := if s.controller == Some(run) then None else s.controller)
  }

  function StartRun(c: Config, s: State): State {
    var stored := Read(c, s.visible.storage);
    var v := if s.visible.session.None? && stored.Some? then s.visible.(session := stored, isLoading := true) else s.visible;
    s.(visible := v,
       inFlight := true,
       controller := if c.hasAbort then Some(s.nextRun) else None,
       frames := s.frames[s.nextRun := Frame(s.epoch, Or(TokenOf(v.session), TokenOf(stored)), false)],
       nextRun := s.nextRun + 1)
  }

  function ExpiryOf(session: Option<Session>): Option<string> {
    match session
    case None => None
    case Some(x) => x.expiresAt
  }

  function Apply(c: Config, s: State, e: Event): State
    requires Enabled(s, e)
  {
    match e
    case Refresh => if s.inFlight then s else StartRun(c, s)
    case Answered(run, status) =>
      if s.frames[run].mine != s.epoch then Ended(s, run)
      else (match status
        case Unauthorized => Ended(s.(visible := SignedOut(c, s.visible)), run)
        case OtherStatus => Ended(s.(visible := s.visible.(isLoading := false)), run)
        case Success => s.(frames := s.frames[run := s.frames[run].(reading := true)]))
    case Failed(run) =>
      if s.frames[run].mine != s.epoch then Ended(s, run)
      else Ended(s.(visible := s.visible.(isLoading := false)), run)
    case BodyRead(run, user, expiresAt) =>
      if s.frames[run].mine != s.epoch then Ended(s, run)
      else if user.None? then Ended(s.(visible := s.visible.(isLoading := false)), run)
      else
        var expiry := if expiresAt.Some? then expiresAt else ExpiryOf(s.visible.session);
        Ended(s.(visible := Persisted(c, s.visible, Session(s.frames[run].token, user.value, expiry))), run)
    case Cleared(run) => s.(inFlight := false, finishing := s.finishing - {run})
    case AuthStarted => s.(pendingAuth := s.pendingAuth + 1)
    case AuthFailed => s.(pendingAuth := s.pendingAuth - 1)
    case AuthSucceeded(session) =>
      s.(pendingAuth := s.pendingAuth - 1, epoch := s.epoch + 1, visible := Persisted(c, s.visible, session))
    case Hydrate(initial) =>
      s.(epoch := s.epoch + 1,
         visible := if initial.None? || initial.value.user.None? || initial.value.expired then SignedOut(c, s.visible)
                    else Persisted(c, s.visible, Session(initial.value.token, initial.value.user.value, initial.value.expiresAt)))
    case SignOut =>
      s.(epoch := s.epoch + 1, aborted := Aborted(s), visible := SignedOut(c, s.visible))
    case Destroy =>
      s.(epoch := s.epoch + 1, aborted := Aborted(s), visible := s.visible.(isLoading := false))
  }

  function Aborted(s: State): set<nat> {
    s.aborted + if s.controller.Some? then {s.controller.value} else {}
  }

  // The store as the source writes it: closure variables that its functions update in place. The
  // locals of a suspended `run` are its frame.
  class Store {
    const config: Config
    var session: Option<Session>
    var isLoading: bool
    var epoch: nat
    var inFlight: bool
    var controller: Option<nat>
    var aborted: set<nat>
    var storage: Option<Session>
    var frames: map<nat, Frame>
    var finishing: set<nat>
    var nextRun: nat
    var pendingAuth: nat

    function View(): State
      reads this
    {
      State(Visible(session, isLoading, storage), epoch, inFlight, controller, aborted, frames, finishing, nextRun, pendingAuth)
    }

    constructor (config: Config, stored: Option<Session>)
      ensures this.config == config && View() == Initial(stored)
    {
      this.config := config;
      session, isLoading, storage := None, true, stored;
      epoch, inFlight, controller, aborted := 0, false, None, {};
      frames, finishing, nextRun, pendingAuth := map[], {}, 0, 0;
    }

    // --- the helpers of the source ---

    method Set(session: Option<Session>, isLoading: bool)
      modifies this`session, this`isLoading
      ensures this.session == session && this.isLoading == isLoading
    {
      this.session := session;
      this.isLoading := isLoading;
    }

    method ReadStored() returns (r: Option<Session>)
      ensures r == Read(config, storage)
    {
      r := None;
      if config.hasStorage {
        r := storage;
      }
    }

    method Forget()
      modifies this`storage
      ensures storage == Forgotten(config, old(storage))
    {
      if config.hasStorage {
        storage := None;
      }
    }

    method Remember(session: Session)
      modifies this`storage
      ensures storage == Remembered(config, old(storage), session)
    {
      if session.token == "" {
        return;
      }
      if config.hasStorage {
        storage := Some(session);
      }
    }

    method Persist(session: Session)
      modifies this`storage, this`session, this`isLoading
      ensures Visible(this.session, isLoading, storage) ==
              Persisted(config, old(Visible(this.session, isLoading, storage)), session)
    {
      Remember(session);
      Set(Some(session), false);
    }

    // The `finally` of `run`.
    method Finally(run: nat)
      modifies this`controller, this`frames, this`finishing
      ensures View() == Ended(old(View()), run)
    {
      if controller == Some(run) {
        controller := None;
      }
      frames := frames - {run};
      finishing := finishing + {run};
    }

    // --- refresh, piece by piece ---

    // `refresh`, and `run` up to its fetch. Answers with the bearer token of the request.
    method Refresh() returns (token: Option<string>)
      modifies this
      ensures View() == Apply(config, old(View()), Event.Refresh)
      ensures token.Some? <==> !old(inFlight)
      ensures token.Some? ==> old(nextRun) in frames && frames[old(nextRun)].token == token.value
    {
      if inFlight {
        return None;
      }
      var run, mine := nextRun, epoch;
      nextRun := nextRun + 1;
      controller := if config.hasAbort then Some(run) else None;
      var stored := ReadStored();
      if session.None? && stored.Some? {
        Set(stored, true);
      }
      var bearer := Or(TokenOf(session), TokenOf(stored));
      frames := frames[run := Frame(mine, bearer, false)];
      inFlight := true;
      return Some(bearer);
    }

    // `run` from the answer of its fetch to its end or its next await.
    method OnAnswer(run: nat, status: Status)
      requires Enabled(View(), Answered(run, status))
      modifies this
      ensures View() == Apply(config, old(View()), Answered(run, status))
    {
      if frames[run].mine != epoch {
        Finally(run);
        return;
      }
      match status {
        case Unauthorized =>
          Forget();
          Set(None, false);
          Finally(run);
        case Success =>
          frames := frames[run := frames[run].(reading := true)];
        case OtherStatus =>
          Set(session, false);
          Finally(run);
      }
    }

    // The `catch` of `run`: offline or aborted.
    method OnFailure(run: nat)
      requires Enabled(View(), Failed(run))
      modifies this
      ensures View() == Apply(config, old(View()), Failed(run))
    {
      if frames[run].mine == epoch {
        Set(session, false);
      }
      Finally(run);
    }

    // `run` from the parsed body to its end.
    method OnBody(run: nat, user: Option<User>, expiresAt: Option<string>)
      requires Enabled(View(), BodyRead(run, user, expiresAt))
      modifies this
      ensures View() == Apply(config, old(View()), BodyRead(run, user, expiresAt))
    {
      if frames[run].mine != epoch {
        Finally(run);
        return;
      }
      if user.Some? {
        var expiry := if expiresAt.Some? then expiresAt else ExpiryOf(session);
        Persist(Session(frames[run].token, user.value, expiry));
      } else {
        Set(session, false);
      }
      Finally(run);
    }

    // `inFlight = null`, behind the end of the run.
    method OnCleared(run: nat)
      requires Enabled(View(), Cleared(run))
      modifies this
      ensures View() == Apply(config, old(View()), Cleared(run))
    {
      inFlight := false;
      finishing := finishing - {run};
    }

    // --- the actions that decide the session ---

    method StartAuthenticate()
      modifies this
      ensures View() == Apply(config, old(View()), AuthStarted)
    {
      pendingAuth := pendingAuth + 1;
    }

    // The end of `authenticate`. None is any answer that brings no session.
    method FinishAuthenticate(answer: Option<Session>)
      requires Enabled(View(), if answer.None? then AuthFailed else AuthSucceeded(answer.value))
      modifies this
      ensures View() == Apply(config, old(View()), if answer.None? then AuthFailed else AuthSucceeded(answer.value))
    {
      pendingAuth := pendingAuth - 1;
      if answer.Some? {
        epoch := epoch + 1;
        Persist(answer.value);
      }
    }

    method HydrateSession(initial: Option<HydrateInput>)
      modifies this
      ensures View() == Apply(config, old(View()), Hydrate(initial))
    {
      epoch := epoch + 1;
      if initial.None? || initial.value.user.None? || initial.value.expired {
        Forget();
        Set(None, false);
        return;
      }
      Persist(Session(initial.value.token, initial.value.user.value, initial.value.expiresAt));
    }

    // `signOut` up to its request. Answers with the token to revoke: the one that was held.
    method BeginSignOut() returns (token: string)
      modifies this
      ensures View() == Apply(config, old(View()), SignOut)
      ensures token == if old(session).Some? && old(session).value.token != "" then old(session).value.token
                       else if config.hasStorage && old(storage).Some? then old(storage).value.token else ""
    {
      epoch := epoch + 1;
      if controller.Some? {
        aborted := aborted + {controller.value};
      }
      var stored := ReadStored();
      token := Or(TokenOf(session), TokenOf(stored));
      Forget();
      Set(None, false);
    }

    method DestroyStore()
      modifies this
      ensures View() == Apply(config, old(View()), Destroy)
    {
      epoch := epoch + 1;
      if controller.Some? {
        aborted := aborted + {controller.value};
      }
      if isLoading {
        Set(session, false);
      }
    }
  }
}
