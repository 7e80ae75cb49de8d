/** `server` and `manager`: accepting connections and keeping their sessions alive. */
module Server {
  import opened Session

  // ---- manager.ipp

  class Manager<T(==)> {
    var data: set<T>

    constructor ()
      ensures data == {}
    {
      data := {};
    }

    method Run(object_: T)
      modifies this
      ensures data == old(data) + {object_}
    {
      data := data + {object_};
    }

    method Stop(object_: T)
      modifies this
      ensures data == old(data) - {object_}
    {
      data := data - {object_};
    }
  }

  // ---- The server and its sessions as one state

  /** Sessions are told apart by `S`: in the objects below, by reference. */
  datatype World<S(==)> = World(
    accepts: set<S>,              // waiting in async_accept
    accepted: set<S>,             // accepted, successfully or not
    failed: set<S>,               // accepted with an error
    managed: set<S>,              // held by the manager
    sessions: map<S, SessionState>,
    starts: nat)                  // calls of `start` from outside

  /** A new session waits for the next connection. */
  function Arm<S>(w: World<S>, id: S): World<S> {
    w.(accepts := w.accepts + {id}, sessions := w.sessions[id := NEW_SESSION])
  }

  /** The accepted session becomes `s` and is managed; `next` waits for the next accept. */
  function Admit<S>(w: World<S>, id: S, s: SessionState, ok: bool, next: S): World<S> {
    World(w.accepts - {id} + {next}, w.accepted + {id}, if ok then w.failed else w.failed + {id},
      w.managed + {id}, w.sessions[next := NEW_SESSION][id := s], w.starts)
  }

  /** A session moves on to `s`; if the close handler ran, it is no longer managed. */
  function Advance<S>(w: World<S>, id: S, s: SessionState): World<S>
    requires id in w.sessions
  {
    w.(sessions := w.sessions[id := s],
       managed := if s.closeCalls > w.sessions[id].closeCalls then w.managed - {id} else w.managed)
  }

  datatype Action<S> =
    | StartCalled(id: S)                     // with the new session
    | Accepted(id: S, ok: bool, next: S)     // with the session for the next accept
    | Delivered(id: S, e: Event)

  predicate Possible<S(==)>(w: World<S>, a: Action<S>) {
    match a
    case StartCalled(id) => id !in w.sessions
    case Accepted(id, _, next) => id in w.accepts && id in w.sessions && next !in w.sessions
    case Delivered(id, e) => id in w.sessions && Enabled(w.sessions[id], e)
  }

  function Act<S>(w: World<S>, a: Action<S>, handler: RequestHandler): World<S>
    requires Possible(w, a)
  {
    match a
    case StartCalled(id) => Arm(w, id).(starts := w.starts + 1)
    case Accepted(id, ok, next) =>
      Admit(w, id, if ok then OnStart(w.sessions[id]) else w.sessions[id].(closed := true), ok, next)
    case Delivered(id, e) => Advance(w, id, React(w.sessions[id], e, handler))
  }

  // ---- server.ipp

  class HttpServer {
    const manage: Manager<HttpSession>
    var accepts: set<HttpSession>   // sessions waiting in async_accept
    ghost var accepted: set<HttpSession>
    ghost var failed: set<HttpSession>
    ghost var starts: nat

    constructor ()
      ensures View() == World({}, {}, {}, {}, map[], 0) && fresh(manage)
    {
      manage := new Manager<HttpSession>();
      accepts, accepted, failed, starts := {}, {}, {}, 0;
    }

    ghost function View(): World<HttpSession>
      reads this, manage, accepts, accepted
    {
      World(accepts, accepted, failed, manage.data, map s | s in accepts + accepted :: s.State(), starts)
    }

    /** What `start` does, called from outside or by `handle_accept`. */
    method ArmAccept() returns (newSession: HttpSession)
      modifies this`accepts
      ensures fresh(newSession) && newSession.State() == NEW_SESSION
      ensures View() == Arm(old(View()), newSession) && newSession !in old(View()).sessions
    {
      newSession := new HttpSession();
      accepts := accepts + {newSession};
      SameSessions(View().sessions, old(View()).sessions[newSession := NEW_SESSION]);
    }

    ghost method CountStart()
      modifies this`starts
      ensures View() == old(View()).(starts := old(starts) + 1)
    {
      starts := starts + 1;
      SameSessions(View().sessions, old(View()).sessions);
    }

    /** `start`, called from outside. */
    method Start() returns (newSession: HttpSession)
      modifies this`accepts, this`starts
      ensures fresh(newSession) && newSession.State() == NEW_SESSION
      ensures View() == Arm(old(View()), newSession).(starts := old(starts) + 1)
      ensures old(WorldInv(View())) ==> WorldInv(View())
    {
      ghost var before := View();
      newSession := ArmAccept();
      CountStart();
      if WorldInv(before) {
        StartedKeepsInv(before, newSession);
      }
    }

    /** `handle_accept`: re-arm first, then manage and start the accepted session; a failed
        accept is ended with an empty close handler and stays managed. */
    method HandleAccept(newSession: HttpSession, ok: bool) returns (next: HttpSession)
      requires newSession in accepts
      modifies this`accepts, this`accepted, this`failed, manage, newSession
      ensures fresh(next)
      ensures newSession.State() ==
        (if ok then OnStart(old(newSession.State())) else old(newSession.State()).(closed := true))
      ensures View() == Admit(old(View()), newSession, newSession.State(), ok, next)
      ensures old(WorldInv(View())) ==> WorldInv(View())
    {
      ghost var before := View();
      accepts := accepts - {newSession};  // the accept has completed
      next := ArmAccept();
      Keep(newSession, ok);
      SameSessions(View().sessions, before.sessions[next := NEW_SESSION][newSession := newSession.State()]);
      if WorldInv(before) {
        AdmitKeepsInv(before, newSession, newSession.State(), ok, next);
      }
    }

    /** The session is managed and started, or ended. */
    method Keep(session: HttpSession, ok: bool)
      modifies this`accepted, this`failed, manage, session
      ensures session.State() ==
        (if ok then OnStart(old(session.State())) else old(session.State()).(closed := true))
      ensures var v := old(View());
        View() == World(v.accepts, v.accepted + {session}, if ok then v.failed else v.failed + {session},
          v.managed + {session}, v.sessions[session := session.State()], v.starts)
    {
      manage.Run(session);
      accepted := accepted + {session};
      failed := if ok then failed else failed + {session};
      Launch(session, ok);
      forall x | x in accepts + accepted && x != session ensures x.State() == old(x.State()) {
      }
      SameSessions(View().sessions, old(View()).sessions[session := session.State()]);
    }

    method Launch(session: HttpSession, ok: bool)
      modifies session
      ensures session.State() == if ok then OnStart(old(session.State())) else old(session.State()).(closed := true)
    {
      if ok {
        session.Start();
      } else {
        session.End(false);
      }
    }

    method HandleClosed(session: HttpSession)
      modifies manage
      ensures manage.data == old(manage.data) - {session}
    {
      manage.Stop(session);
    }

    /** A completion reaches its session; if that ran the close handler, the server hears of it. */
    method Notify(session: HttpSession, e: Event, handler: RequestHandler)
      requires session in accepts + accepted && Enabled(session.State(), e)
      modifies manage, session
      ensures session.State() == React(old(session.State()), e, handler)
      ensures View() == Advance(old(View()), session, session.State())
    {
      var before := session.closeCalls;
      session.Dispatch(e, handler);
      if session.closeCalls > before {
        HandleClosed(session);
      }
      forall x | x in accepts + accepted && x != session ensures x.State() == old(x.State()) {
      }
      SameSessions(View().sessions, old(View()).sessions[session := session.State()]);
    }

    /** The event loop delivers a session's completion. */
    method Deliver(session: HttpSession, e: Event, handler: RequestHandler)
      requires session in accepts + accepted && Enabled(session.State(), e)
      modifies manage, session
      ensures session.State() == React(old(session.State()), e, handler)
      ensures View() == Advance(old(View()), session, session.State())
      ensures old(WorldInv(View())) ==> WorldInv(View())
    {
      ghost var before := View();
      Notify(session, e, handler);
      if WorldInv(before) {
        DeliveredKeepsInv(before, session, e, handler);
      }
    }
  }

  lemma SameSessions<S>(a: map<S, SessionState>, b: map<S, SessionState>)
    requires a.Keys == b.Keys && forall x :: x in a ==> a[x] == b[x]
    ensures a == b
  {
  }

  // ---- All interleavings

  function Empty<S(==)>(): World<S> {
    World({}, {}, {}, {}, map[], 0)
  }

  predicate PossibleRun<S>(w: World<S>, run: seq<Action<S>>, handler: RequestHandler)
    decreases |run|
  {
    run == [] || (Possible(w, run[0]) && PossibleRun(Act(w, run[0], handler), run[1..], handler))
  }

  function WorldAfter<S>(w: World<S>, run: seq<Action<S>>, handler: RequestHandler): World<S>
    requires PossibleRun(w, run, handler)
    decreases |run|
  {
    if run == [] then w else WorldAfter(Act(w, run[0], handler), run[1..], handler)
  }

  /** What holds of one session, given what the server holds about it. */
  predicate SessionFits(s: SessionState, waiting: bool, accepted: bool, failed: bool, managed: bool) {
    && SessionInv(s)
    && (managed <==> accepted && s.closeCalls == 0)
    && (waiting ==> s == NEW_SESSION)
    && (failed ==> accepted && s == NEW_SESSION.(closed := true))
    && (accepted && !failed ==> s.busy)
    && waiting != accepted
  }

  /** - One accept is outstanding for every call of `start`.
      - The managed sessions are the accepted ones whose close handler has not run.
      - A session waiting to be accepted is untouched, and one whose accept failed never starts.
      - Every session keeps its own invariant. */
  predicate WorldInv<S>(w: World<S>) {
    SetsInv(w) && forall id :: id in w.sessions ==> Fits(w, id)
  }

  predicate SetsInv<S>(w: World<S>) {
    && |w.accepts| == w.starts && w.accepts + w.accepted == w.sessions.Keys
    && w.managed <= w.accepted && w.failed <= w.accepted
  }

  predicate Fits<S>(w: World<S>, id: S)
    requires id in w.sessions
  {
    SessionFits(w.sessions[id], id in w.accepts, id in w.accepted, id in w.failed, id in w.managed)
  }

  /** Sessions an action does not concern keep what holds of them. */
  lemma OthersFit<S>(w: World<S>, w2: World<S>, touched: set<S>)
    requires (forall id :: id in w.sessions ==> Fits(w, id)) && w2.sessions.Keys <= w.sessions.Keys + touched
    requires forall x :: x in w.sessions && x !in touched ==> x in w2.sessions && w2.sessions[x] == w.sessions[x]
    requires forall x :: x !in touched ==>
      (x in w2.accepts <==> x in w.accepts) && (x in w2.accepted <==> x in w.accepted) &&
      (x in w2.failed <==> x in w.failed) && (x in w2.managed <==> x in w.managed)
    ensures forall x :: x in w2.sessions && x !in touched ==> Fits(w2, x)
  {
    forall x | x in w2.sessions && x !in touched ensures Fits(w2, x) {
      assert Fits(w, x);
    }
  }

  lemma NewSessionFits()
    ensures SessionFits(NEW_SESSION, true, false, false, false)
    ensures SessionFits(OnStart(NEW_SESSION), false, true, false, true)
    ensures SessionFits(NEW_SESSION.(closed := true), false, true, true, true)
  {
  }

  lemma ArmKeepsSets<S>(w: World<S>, id: S)
    requires SetsInv(w) && id !in w.sessions
    ensures SetsInv(Arm(w, id).(starts := w.starts + 1))
  {
    assert id !in w.accepts + w.accepted;
  }

  lemma AdmitKeepsSets<S>(w: World<S>, id: S, s: SessionState, ok: bool, next: S)
    requires SetsInv(w) && id in w.accepts && next !in w.sessions
    ensures SetsInv(Admit(w, id, s, ok, next))
  {
    assert id in w.accepts + w.accepted && next !in w.accepts + w.accepted;
    var w2 := Admit(w, id, s, ok, next);
    assert |w.accepts - {id}| == w.starts - 1;
    assert w2.sessions.Keys == w.sessions.Keys + {next};
  }

  lemma StartedKeepsInv<S>(w: World<S>, id: S)
    requires WorldInv(w) && id !in w.sessions
    ensures WorldInv(Arm(w, id).(starts := w.starts + 1))
  {
    var w2 := Arm(w, id).(starts := w.starts + 1);
    assert id !in w.accepts + w.accepted;
    ArmKeepsSets(w, id);
    OthersFit(w, w2, {id});
    NewSessionFits();
    assert Fits(w2, id);
  }

  /** Sessions other than the two concerned keep what holds of them. */
  lemma AdmitOthers<S>(w: World<S>, id: S, s: SessionState, ok: bool, next: S)
    requires WorldInv(w) && id in w.accepts && id in w.sessions
    ensures var w2 := Admit(w, id, s, ok, next);
      forall x :: x in w2.sessions && x !in {id, next} ==> Fits(w2, x)
  {
    OthersFit(w, Admit(w, id, s, ok, next), {id, next});
  }

  lemma AdmitNewKeepsInv<S>(w: World<S>, id: S, s: SessionState, ok: bool, next: S)
    requires WorldInv(w) && id in w.accepts && id in w.sessions && next !in w.sessions
    requires id !in w.failed && s == if ok then OnStart(NEW_SESSION) else NEW_SESSION.(closed := true)
    ensures WorldInv(Admit(w, id, s, ok, next))
  {
    assert next !in w.accepts + w.accepted;
    AdmitKeepsSets(w, id, s, ok, next);
    AdmitOthers(w, id, s, ok, next);
    AdmittedFit(w, id, s, ok, next);
  }

  lemma AdmitKeepsInv<S>(w: World<S>, id: S, s: SessionState, ok: bool, next: S)
    requires WorldInv(w) && id in w.accepts && id in w.sessions && next !in w.sessions
    requires s == if ok then OnStart(w.sessions[id]) else w.sessions[id].(closed := true)
    ensures WorldInv(Admit(w, id, s, ok, next))
  {
    assert Fits(w, id);
    AdmitNewKeepsInv(w, id, s, ok, next);
  }

  lemma AdmittedFit<S>(w: World<S>, id: S, s: SessionState, ok: bool, next: S)
    requires id in w.accepts && id != next && next !in w.accepted && next !in w.managed && next !in w.failed
    requires id !in w.failed && s == if ok then OnStart(NEW_SESSION) else NEW_SESSION.(closed := true)
    ensures Fits(Admit(w, id, s, ok, next), id) && Fits(Admit(w, id, s, ok, next), next)
  {
    NewSessionFits();
  }

  lemma AdvanceKeepsInv<S>(w: World<S>, id: S, s: SessionState)
    requires WorldInv(w) && id in w.sessions && id !in w.accepts && id !in w.failed
    requires SessionInv(s) && w.sessions[id].closeCalls <= s.closeCalls && s.busy == w.sessions[id].busy
    ensures WorldInv(Advance(w, id, s))
  {
    assert Fits(w, id);
    OthersFit(w, Advance(w, id, s), {id});
    assert Fits(Advance(w, id, s), id);
  }

  /** A session that was never started has nothing to complete. */
  lemma IdleIgnores(s: SessionState, e: Event)
    requires s.ops == [] && s.timers == 0
    ensures !Enabled(s, e)
  {
  }

  lemma CloseCallsGrow(s: SessionState, e: Event, handler: RequestHandler)
    ensures s.closeCalls <= React(s, e, handler).closeCalls
  {
  }

  lemma DeliveredKeepsInv<S>(w: World<S>, id: S, e: Event, handler: RequestHandler)
    requires WorldInv(w) && id in w.sessions && Enabled(w.sessions[id], e)
    ensures WorldInv(Advance(w, id, React(w.sessions[id], e, handler)))
    ensures id !in w.failed
  {
    var s := w.sessions[id];
    IdleIgnores(NEW_SESSION, e);
    IdleIgnores(NEW_SESSION.(closed := true), e);
    assert Fits(w, id);
    ReactKeepsInv(s, e, handler);
    CloseCallsGrow(s, e, handler);
    OneReport(s, e, handler);
    AdvanceKeepsInv(w, id, React(s, e, handler));
  }

  lemma ActKeepsInv<S>(w: World<S>, a: Action<S>, handler: RequestHandler)
    requires WorldInv(w) && Possible(w, a)
    ensures WorldInv(Act(w, a, handler)) && w.failed <= Act(w, a, handler).failed
  {
    match a
    case StartCalled(id) => StartedKeepsInv(w, id);
    case Accepted(id, ok, next) =>
      AdmitKeepsInv(w, id, if ok then OnStart(w.sessions[id]) else w.sessions[id].(closed := true), ok, next);
    case Delivered(id, e) => DeliveredKeepsInv(w, id, e, handler);
  }

  /** Safety over every interleaving of starts, accepts, I/O completions and timer reports. */
  lemma {:induction false} RunKeepsInv<S>(w: World<S>, run: seq<Action<S>>, handler: RequestHandler)
    requires WorldInv(w) && PossibleRun(w, run, handler)
    ensures WorldInv(WorldAfter(w, run, handler)) && w.failed <= WorldAfter(w, run, handler).failed
    decreases |run|
  {
    if run != [] {
      ActKeepsInv(w, run[0], handler);
      RunKeepsInv(Act(w, run[0], handler), run[1..], handler);
    }
  }

  lemma EveryRunIsSafe<S>(run: seq<Action<S>>, handler: RequestHandler)
    requires PossibleRun(Empty<S>(), run, handler)
    ensures WorldInv(WorldAfter(Empty<S>(), run, handler))
  {
    RunKeepsInv(Empty<S>(), run, handler);
  }

  /** Accepted, but nothing is in flight and no round was ever begun: the accept failed, or the
      handshake did. */
  predicate Stuck<S>(w: World<S>, id: S) {
    id in w.sessions && id in w.accepted && w.sessions[id].ops == [] && w.sessions[id].rounds == 0
  }

  lemma StuckStays<S>(w: World<S>, a: Action<S>, handler: RequestHandler, id: S)
    requires WorldInv(w) && Possible(w, a) && Stuck(w, id)
    ensures Stuck(Act(w, a, handler), id) && Act(w, a, handler).sessions[id] == w.sessions[id]
  {
    assert Fits(w, id);
    match a
    case StartCalled(_) =>
    case Accepted(_, _, _) =>
    case Delivered(_, e) => IdleIgnores(w.sessions[id], e);
  }

  /** Such a session is managed for ever. */
  lemma {:induction false} StuckIsNeverReleased<S>(w: World<S>, run: seq<Action<S>>, handler: RequestHandler, id: S)
    requires WorldInv(w) && PossibleRun(w, run, handler) && Stuck(w, id)
    ensures Stuck(WorldAfter(w, run, handler), id) && id in WorldAfter(w, run, handler).managed
    decreases |run|
  {
    if run == [] {
      assert Fits(w, id);
    } else {
      StuckStays(w, run[0], handler, id);
      ActKeepsInv(w, run[0], handler);
      StuckIsNeverReleased(Act(w, run[0], handler), run[1..], handler, id);
    }
  }

  lemma FailedAcceptIsNeverReleased<S>(w: World<S>, run: seq<Action<S>>, handler: RequestHandler, id: S)
    requires WorldInv(w) && PossibleRun(w, run, handler) && id in w.failed
    ensures id in WorldAfter(w, run, handler).managed
  {
    assert id in w.accepts + w.accepted;
    assert Fits(w, id);
    StuckIsNeverReleased(w, run, handler, id);
  }

  /** A failed handshake is such a case. */
  lemma FailedHandshakeIsStuck<S>(w: World<S>, id: S, handler: RequestHandler)
    requires WorldInv(w) && id in w.sessions && Enabled(w.sessions[id], HandshakeDone(false))
    ensures Stuck(Act(w, Delivered(id, HandshakeDone(false)), handler), id)
  {
    assert Fits(w, id);
    NothingLeft(w.sessions[id], HandshakeDone(false));
  }

  /** How many of the actions report this session's read timer. */
  function ReportsOf<S(==)>(run: seq<Action<S>>, id: S): nat {
    if run == [] then 0 else (if run[0] == Delivered(id, TimerReported) then 1 else 0) + ReportsOf(run[1..], id)
  }

  /** The reports that a session's timer has given so far. */
  function Reported<S>(w: World<S>, id: S): int {
    if id in w.sessions then w.sessions[id].rounds - w.sessions[id].timers else 0
  }

  lemma DeliveredReported<S>(w: World<S>, x: S, e: Event, handler: RequestHandler, id: S)
    requires x in w.sessions && Enabled(w.sessions[x], e)
    ensures var w2 := Advance(w, x, React(w.sessions[x], e, handler));
      Reported(w2, id) == Reported(w, id) + if x == id && e.TimerReported? then 1 else 0
  {
    OneReport(w.sessions[x], e, handler);
  }

  lemma AdmitReported<S>(w: World<S>, x: S, s: SessionState, ok: bool, next: S, id: S)
    requires x in w.sessions && next !in w.sessions && w.sessions[x] == NEW_SESSION
    requires s.rounds == s.timers == 0
    ensures Reported(Admit(w, x, s, ok, next), id) == Reported(w, id)
  {
  }

  lemma OneActReported<S>(w: World<S>, a: Action<S>, handler: RequestHandler, id: S)
    requires WorldInv(w) && Possible(w, a)
    ensures Reported(Act(w, a, handler), id) == Reported(w, id) + if a == Delivered(id, TimerReported) then 1 else 0
  {
    match a
    case StartCalled(x) =>
    case Accepted(x, ok, next) =>
      assert Fits(w, x);
      AdmitReported(w, x, if ok then OnStart(w.sessions[x]) else w.sessions[x].(closed := true), ok, next, id);
    case Delivered(x, e) => DeliveredReported(w, x, e, handler, id);
  }

  lemma {:induction false} RunReported<S>(w: World<S>, run: seq<Action<S>>, handler: RequestHandler, id: S)
    requires WorldInv(w) && PossibleRun(w, run, handler)
    ensures Reported(WorldAfter(w, run, handler), id) == Reported(w, id) + ReportsOf(run, id)
    decreases |run|
  {
    if run != [] {
      OneActReported(w, run[0], handler, id);
      ActKeepsInv(w, run[0], handler);
      RunReported(Act(w, run[0], handler), run[1..], handler, id);
    }
  }

  lemma FitsClosed(s: SessionState, waiting: bool, accepted: bool, failed: bool, managed: bool, reports: nat)
    requires SessionFits(s, waiting, accepted, failed, managed) && s.rounds - s.timers == reports
    ensures s.closed <==> failed || reports > 0 || s.finished
    ensures s.closeCalls == reports + if s.finished then 1 else 0
    ensures managed <==> accepted && reports == 0 && !s.finished
  {
  }

  /** At every moment of every run, in use or at rest: a session is closed exactly when its accept
      failed, its read timer reported, or its final response was written; the server's close
      handler ran once for each of the last two; and the session is managed exactly when it was
      accepted and neither of them happened. */
  lemma SessionClosedExactly<S>(w: World<S>, run: seq<Action<S>>, handler: RequestHandler, id: S)
    requires PossibleRun(Empty<S>(), run, handler) && w == WorldAfter(Empty<S>(), run, handler)
    requires id in w.sessions
    ensures var s := w.sessions[id];
      && (s.closed <==> id in w.failed || ReportsOf(run, id) > 0 || s.finished)
      && s.closeCalls == ReportsOf(run, id) + (if s.finished then 1 else 0)
      && (id in w.managed <==> id in w.accepted && ReportsOf(run, id) == 0 && !s.finished)
  {
    EveryRunIsSafe(run, handler);
    RunReported(Empty<S>(), run, handler, id);
    assert Fits(w, id);
    FitsClosed(w.sessions[id], id in w.accepts, id in w.accepted, id in w.failed, id in w.managed, ReportsOf(run, id));
  }

  /** A session with nothing left in flight was reported closed once for every header read it
      started and once more for a final response.  It is managed if and only if it was accepted
      and never started to read. */
  lemma QuietSessionIsClosed<S>(w: World<S>, run: seq<Action<S>>, handler: RequestHandler, id: S)
    requires PossibleRun(Empty<S>(), run, handler) && w == WorldAfter(Empty<S>(), run, handler)
    requires id in w.sessions && w.sessions[id].ops == [] && w.sessions[id].timers == 0
    ensures var s := w.sessions[id];
      && s.closeCalls == s.rounds + (if s.finished then 1 else 0)
      && |s.handled| <= s.rounds
      && (s.rounds > 0 ==> s.closed)
      && (id in w.managed <==> id in w.accepted && s.rounds == 0)
  {
    EveryRunIsSafe(run, handler);
    assert Fits(w, id);
  }

  // ---- Every session of a server run is a run of a new session

  /** What a run delivers to one session. */
  function EventsOf<S(==)>(run: seq<Action<S>>, id: S): seq<Event> {
    if run == [] then []
    else if run[0].Delivered? && run[0].id == id then [run[0].e] + EventsOf(run[1..], id)
    else EventsOf(run[1..], id)
  }

  /** `id` was accepted without an error. */
  predicate Begun<S>(w: World<S>, id: S) {
    id in w.sessions && id in w.accepted && id !in w.failed
  }

  lemma BegunMoves<S>(w: World<S>, a: Action<S>, handler: RequestHandler, id: S)
    requires WorldInv(w) && Possible(w, a) && Begun(w, id)
    ensures Begun(Act(w, a, handler), id)
    ensures Act(w, a, handler).sessions[id] ==
      if a.Delivered? && a.id == id then React(w.sessions[id], a.e, handler) else w.sessions[id]
  {
    assert Fits(w, id);
  }

  lemma {:induction false} BegunRuns<S>(w: World<S>, run: seq<Action<S>>, handler: RequestHandler, id: S)
    requires WorldInv(w) && PossibleRun(w, run, handler) && Begun(w, id)
    ensures PossibleEvents(w.sessions[id], EventsOf(run, id), handler)
    ensures Begun(WorldAfter(w, run, handler), id)
    ensures WorldAfter(w, run, handler).sessions[id] == After(w.sessions[id], EventsOf(run, id), handler)
    decreases |run|
  {
    if run != [] {
      BegunMoves(w, run[0], handler, id);
      ActKeepsInv(w, run[0], handler);
      BegunRuns(Act(w, run[0], handler), run[1..], handler, id);
      if run[0].Delivered? && run[0].id == id {
        var more := EventsOf(run[1..], id);
        assert ([run[0].e] + more)[1..] == more;
      }
    }
  }

  lemma NotBegunMoves<S>(w: World<S>, a: Action<S>, handler: RequestHandler, id: S)
    requires WorldInv(w) && Possible(w, a) && id !in w.accepted
    ensures !(a.Delivered? && a.id == id)
    ensures Begun(Act(w, a, handler), id) ==> Act(w, a, handler).sessions[id] == OnStart(NEW_SESSION)
    ensures id in Act(w, a, handler).accepted && id !in Act(w, a, handler).failed ==> Begun(Act(w, a, handler), id)
    ensures id in Act(w, a, handler).failed ==> id in Act(w, a, handler).accepted
  {
    if id in w.sessions {
      assert id in w.accepts + w.accepted;
      assert Fits(w, id);
      if a.Delivered? {
        IdleIgnores(NEW_SESSION, a.e);
      }
    }
  }

  /** The session's state at the end of a run is the one after its own events, from a new session on. */
  lemma {:induction false} NotBegunRuns<S>(w: World<S>, run: seq<Action<S>>, handler: RequestHandler, id: S)
    requires WorldInv(w) && PossibleRun(w, run, handler) && id !in w.accepted
    requires Begun(WorldAfter(w, run, handler), id)
    ensures PossibleEvents(OnStart(NEW_SESSION), EventsOf(run, id), handler)
    ensures WorldAfter(w, run, handler).sessions[id] == After(OnStart(NEW_SESSION), EventsOf(run, id), handler)
    decreases |run|
  {
    var w2 := Act(w, run[0], handler);
    NotBegunMoves(w, run[0], handler, id);
    ActKeepsInv(w, run[0], handler);
    if id !in w2.accepted {
      NotBegunRuns(w2, run[1..], handler, id);
    } else {
      if id in w2.failed {
        RunKeepsInv(w2, run[1..], handler);
      }
      BegunRuns(w2, run[1..], handler, id);
    }
  }

  /** In every server run, each session that was accepted without an error has gone through a run
      of a new session: what holds after those holds of it. */
  lemma SessionIsRun<S>(run: seq<Action<S>>, handler: RequestHandler, id: S)
    requires PossibleRun(Empty<S>(), run, handler) && Begun(WorldAfter(Empty<S>(), run, handler), id)
    ensures PossibleEvents(OnStart(NEW_SESSION), EventsOf(run, id), handler)
    ensures WorldAfter(Empty<S>(), run, handler).sessions[id] ==
      After(OnStart(NEW_SESSION), EventsOf(run, id), handler)
  {
    NotBegunRuns(Empty<S>(), run, handler, id);
  }

  // ---- No short bodies on the whole server

  predicate WorldPending<S>(w: World<S>) {
    forall id :: id in w.sessions ==> PendingInv(w.sessions[id])
  }

  /** Every request shown to the handler, by any session, was complete. */
  ghost predicate WorldComplete<S>(w: World<S>) {
    forall id :: id in w.sessions ==> AllComplete(w.sessions[id].handled)
  }

  predicate ActSuffices<S>(w: World<S>, a: Action<S>)
    requires Possible(w, a)
  {
    a.Delivered? ==> Suffices(w.sessions[a.id], a.e)
  }

  predicate RunSuffices<S>(w: World<S>, run: seq<Action<S>>, handler: RequestHandler)
    requires PossibleRun(w, run, handler)
    decreases |run|
  {
    run == [] ||
    (ActSuffices(w, run[0]) && RunSuffices(Act(w, run[0], handler), run[1..], handler))
  }

  lemma DeliveredServes<S>(w: World<S>, id: S, e: Event, handler: RequestHandler)
    requires WorldPending(w) && id in w.sessions && Enabled(w.sessions[id], e)
    ensures var w2 := Advance(w, id, React(w.sessions[id], e, handler));
      WorldPending(w2) && (WorldComplete(w2) <==> WorldComplete(w) && Suffices(w.sessions[id], e))
  {
    ReactExact(w.sessions[id], e, handler);
    var s := React(w.sessions[id], e, handler);
    var w2 := Advance(w, id, s);
    assert w2.sessions[id] == s;
    assert forall x :: x in w.sessions && x != id ==> w2.sessions[x] == w.sessions[x];
  }

  lemma AdmitServes<S>(w: World<S>, id: S, s: SessionState, ok: bool, next: S)
    requires WorldPending(w) && id in w.sessions && next !in w.sessions
    requires w.sessions[id] == NEW_SESSION && s == if ok then OnStart(NEW_SESSION) else NEW_SESSION.(closed := true)
    ensures var w2 := Admit(w, id, s, ok, next);
      WorldPending(w2) && (WorldComplete(w2) <==> WorldComplete(w))
  {
    var w2 := Admit(w, id, s, ok, next);
    assert w2.sessions[id] == s && w2.sessions[next] == NEW_SESSION;
    assert forall x :: x in w.sessions && x != id ==> w2.sessions[x] == w.sessions[x];
    StartsPending();
  }

  lemma ArmServes<S>(w: World<S>, id: S)
    requires WorldPending(w) && id !in w.sessions
    ensures var w2 := Arm(w, id).(starts := w.starts + 1);
      WorldPending(w2) && (WorldComplete(w2) <==> WorldComplete(w))
  {
    var w2 := Arm(w, id).(starts := w.starts + 1);
    assert w2.sessions[id] == NEW_SESSION;
    assert forall x :: x in w.sessions ==> w2.sessions[x] == w.sessions[x];
  }

  lemma ActServes<S>(w: World<S>, a: Action<S>, handler: RequestHandler)
    requires WorldInv(w) && WorldPending(w) && Possible(w, a)
    ensures var w2 := Act(w, a, handler);
      WorldPending(w2) && (WorldComplete(w2) <==> WorldComplete(w) && ActSuffices(w, a))
  {
    match a
    case StartCalled(id) => ArmServes(w, id);
    case Accepted(id, ok, next) =>
      assert Fits(w, id);
      AdmitServes(w, id, if ok then OnStart(w.sessions[id]) else w.sessions[id].(closed := true), ok, next);
    case Delivered(id, e) => DeliveredServes(w, id, e, handler);
  }

  lemma {:induction false} RunServes<S>(w: World<S>, run: seq<Action<S>>, handler: RequestHandler)
    requires WorldInv(w) && WorldPending(w) && PossibleRun(w, run, handler)
    ensures WorldComplete(WorldAfter(w, run, handler)) <==> WorldComplete(w) && RunSuffices(w, run, handler)
    decreases |run|
  {
    if run != [] {
      ActServes(w, run[0], handler);
      ActKeepsInv(w, run[0], handler);
      RunServes(Act(w, run[0], handler), run[1..], handler);
    }
  }

  /** No body read of any session brings a NUL. */
  predicate NulFreeRun<S(==)>(run: seq<Action<S>>) {
    forall i :: 0 <= i < |run| && run[i].Delivered? && run[i].e.BodyDone? ==> '\0' !in run[i].e.buf
  }

  lemma {:induction false} NulFreeSuffices<S>(w: World<S>, run: seq<Action<S>>, handler: RequestHandler)
    requires WorldInv(w) && WorldPending(w) && PossibleRun(w, run, handler) && NulFreeRun(run)
    ensures RunSuffices(w, run, handler)
    decreases |run|
  {
    if run != [] {
      var a := run[0];
      if a.Delivered? {
        NoNulSuffices(w.sessions[a.id], a.e);
      }
      ActServes(w, a, handler);
      ActKeepsInv(w, a, handler);
      NulFreeSuffices(Act(w, a, handler), run[1..], handler);
    }
  }

  /** Over every interleaving of any number of sessions, no request is handled short of its
      Content-Length, as long as no body text holds a NUL. */
  lemma ServerCompletesBodies<S>(run: seq<Action<S>>, handler: RequestHandler)
    requires PossibleRun(Empty<S>(), run, handler) && NulFreeRun(run)
    ensures WorldComplete(WorldAfter(Empty<S>(), run, handler))
  {
    NulFreeSuffices(Empty<S>(), run, handler);
    RunServes(Empty<S>(), run, handler);
  }
}
