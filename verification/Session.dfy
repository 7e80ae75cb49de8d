/** `http_session`: one server-side connection as a chain of completion handlers. */
module Session {
  import opened Text
  import opened Radix
  import opened OrderedMap
  import opened Grammar
  import opened Messages

  type RequestHandler = Request -> Response

  /** An asynchronous operation in flight. */
  datatype Op = Handshake | HeaderRead | BodyRead(atLeast: nat) | Write(text: string)

  datatype SessionState = SessionState(
    busy: bool,
    keepAlive: bool,
    request: Request,
    ops: seq<Op>,            // operations in flight
    timers: nat,             // waits on the read timer not yet reported, expired or cancelled
    closed: bool,            // the socket was closed
    rounds: nat,             // how often a header read was started
    finished: bool,          // a response was written without keep-alive
    closeCalls: nat,         // calls of the server's close handler
    handled: seq<Request>)   // requests shown to the request handler

  const NEW_SESSION := SessionState(false, false, FRESH_REQUEST, [], 0, false, 0, false, 0, [])

  function FindOr(m: Fields, key: string, default: string): string {
    if key in m then m[key] else default
  }

  /** `size_t byte = int_parser(...)`: what `qi::int_` reads, or 0; a negative value wraps. */
  function DeclaredSize(header: Fields): (n: nat)
    ensures n < SIZE_MOD
  {
    match ParseInt(FindOr(header, "Content-Length", "0"))
    case Fail => 0
    case Match(v, _) => v % SIZE_MOD
  }

  /** The Content-Length a request declares: the number its text reads as, from 2^64 downwards if
      negative; nothing without a number or without the field. */
  ghost predicate Declares(header: Fields, n: nat) {
    if "Content-Length" in header && ReadsSome(header["Content-Length"]) then
      n < SIZE_MOD && (ReadsInt(header["Content-Length"], n) || ReadsInt(header["Content-Length"], n - SIZE_MOD))
    else n == 0
  }

  ghost predicate ReadsSome(s: string) {
    exists v :: ReadsInt(s, v)
  }

  lemma ReadsSomeIff(s: string)
    ensures ReadsSome(s) <==> ParseInt(s).Match?
  {
    if ParseInt(s).Match? {
      ParseIntExact(s, ParseInt(s).value);
    }
    if ReadsSome(s) {
      var v :| ReadsInt(s, v);
      ParseIntExact(s, v);
    }
  }

  /** What a parsed number is as a `size_t`. */
  lemma Wrapped(v: int, n: nat)
    requires -INT_MAX - 1 <= v <= INT_MAX
    ensures v % SIZE_MOD == n <==> n < SIZE_MOD && (v == n || v == n - SIZE_MOD)
  {
    if v < 0 {
      assert v % SIZE_MOD == v + SIZE_MOD;
    }
  }

  lemma ReadsIff(s: string, n: nat)
    requires ParseInt(s).Match?
    ensures ReadsInt(s, n) || ReadsInt(s, n - SIZE_MOD) <==> ParseInt(s).value == n || ParseInt(s).value == n - SIZE_MOD
  {
    ParseIntExact(s, n);
    ParseIntExact(s, n - SIZE_MOD);
  }

  lemma DeclaresExact(header: Fields, n: nat)
    ensures Declares(header, n) <==> DeclaredSize(header) == n
  {
    if "Content-Length" in header {
      var s := header["Content-Length"];
      ReadsSomeIff(s);
      if ParseInt(s).Match? {
        ReadsIff(s, n);
        Wrapped(ParseInt(s).value, n);
      }
    } else {
      NoLength(header);
    }
  }

  lemma NoLength(header: Fields)
    requires "Content-Length" !in header
    ensures DeclaredSize(header) == 0
  {
    var zero := IntText(0);
    IntRoundTrip(0, "");
    assert zero + "" == zero && zero == "0";
  }

  /** A printed number declares itself; a negative one wraps around. */
  lemma NumeralDeclares(header: Fields, v: int, n: nat)
    requires -INT_MAX - 1 <= v <= INT_MAX
    requires "Content-Length" in header && header["Content-Length"] == IntText(v)
    ensures Declares(header, n) <==> n == if v < 0 then v + SIZE_MOD else v
  {
    var text := IntText(v);
    IntRoundTrip(v, "");
    assert text + "" == text;
    Wrapped(v, n);
    DeclaresExact(header, n);
  }

  predicate WantsKeepAlive(header: Fields) {
    FindOr(header, "Connection", "close") == "Keep-Alive" ||
    FindOr(header, "Proxy-Connection", "close") == "Keep-Alive"
  }

  function Begin(s: SessionState, op: Op): SessionState {
    s.(ops := s.ops + [op])
  }

  // ---- The handlers

  function OnStart(s: SessionState): SessionState {
    if s.busy then s else Begin(s.(busy := true), Handshake)
  }

  /** `end` with the server's close handler. */
  function OnEnd(s: SessionState): (t: SessionState)
    ensures t.busy == s.busy && t.rounds - t.timers == s.rounds - s.timers && t.closeCalls >= s.closeCalls
  {
    s.(closed := true, closeCalls := s.closeCalls + 1)
  }

  function OnHandshake(s: SessionState, ok: bool): (t: SessionState)
    ensures t.busy == s.busy && t.rounds - t.timers == s.rounds - s.timers && t.closeCalls >= s.closeCalls
  {
    if ok then Begin(s.(timers := s.timers + 1, rounds := s.rounds + 1), HeaderRead) else s
  }

  function OnComplete(s: SessionState, handler: RequestHandler): (t: SessionState)
    ensures t.busy == s.busy && t.rounds - t.timers == s.rounds - s.timers && t.closeCalls >= s.closeCalls
  {
    Begin(s.(keepAlive := WantsKeepAlive(s.request.header), handled := s.handled + [s.request]),
          Write(PrintResponse(handler(s.request))))
  }

  /** The request as `handle_header_read` leaves it. */
  function HeaderTaken(q: Request, buf: string): Request {
    var text := CString(buf);
    var (q1, n) := ReadRequestHeader(text, q);
    q1.(body := q1.body + text[n..])
  }

  function OnHeaderRead(s: SessionState, ok: bool, buf: string, handler: RequestHandler): (t: SessionState)
    ensures t.busy == s.busy && t.rounds - t.timers == s.rounds - s.timers && t.closeCalls >= s.closeCalls
  {
    if !ok then s else
      var q := HeaderTaken(s.request, buf);
      var byte := DeclaredSize(q.header);
      if byte != 0 then Begin(s.(request := q), BodyRead(SizeSub(byte, |q.body|)))
      else OnComplete(s.(request := q), handler)
  }

  function OnBodyRead(s: SessionState, ok: bool, buf: string, handler: RequestHandler): (t: SessionState)
    ensures t.busy == s.busy && t.rounds - t.timers == s.rounds - s.timers && t.closeCalls >= s.closeCalls
  {
    if !ok then s
    else OnComplete(s.(request := s.request.(body := s.request.body + CString(buf))), handler)
  }

  function OnWrite(s: SessionState, ok: bool): (t: SessionState)
    ensures t.busy == s.busy && t.rounds - t.timers == s.rounds - s.timers && t.closeCalls >= s.closeCalls
  {
    if !ok then s
    else if s.keepAlive then OnHandshake(s, true)
    else OnEnd(s.(finished := true))
  }

  // ---- Completions

  datatype Event =
    | HandshakeDone(ok: bool)
    | HeaderDone(ok: bool, buf: string)
    | BodyDone(ok: bool, buf: string)
    | Written(ok: bool)
    | TimerReported       // expired or cancelled: `read_timeout` does not look

  /** Which operation an event completes. */
  predicate Completes(e: Event, op: Op) {
    match e
    case HandshakeDone(_) => op.Handshake?
    case HeaderDone(ok, buf) => op.HeaderRead? && (ok ==> Contains(buf, BLANK_LINE))
    case BodyDone(ok, buf) => op.BodyRead? && (ok ==> op.atLeast <= |buf|)
    case Written(_) => op.Write?
    case TimerReported => false
  }

  predicate Enabled(s: SessionState, e: Event) {
    if e.TimerReported? then s.timers > 0 else exists i :: 0 <= i < |s.ops| && Completes(e, s.ops[i])
  }

  /** The completed operation leaves, the timer report leaves, then the handler runs. */
  function React(s: SessionState, e: Event, handler: RequestHandler): SessionState {
    match e
    case TimerReported => if s.timers > 0 then OnEnd(s.(timers := s.timers - 1)) else s
    case HandshakeDone(ok) => OnHandshake(s.(ops := Without(s.ops, e)), ok)
    case HeaderDone(ok, buf) => OnHeaderRead(s.(ops := Without(s.ops, e)), ok, buf, handler)
    case BodyDone(ok, buf) => OnBodyRead(s.(ops := Without(s.ops, e)), ok, buf, handler)
    case Written(ok) => OnWrite(s.(ops := Without(s.ops, e)), ok)
  }

  /** The operations without the first one the event completes. */
  function Without(ops: seq<Op>, e: Event): seq<Op> {
    if ops == [] then [] else if Completes(e, ops[0]) then ops[1..] else [ops[0]] + Without(ops[1..], e)
  }

  // ---- What every run keeps

  /** - At most one operation is in flight, and none before `start`.
      - While a request is being served, a timer report is outstanding or the server was told.
      - The close handler runs once for every timer report and once for a final response, and
        never on an open socket; nothing else closes it. */
  predicate SessionInv(s: SessionState) {
    && |s.ops| <= 1
    && (!s.busy ==> s.ops == [] && s.rounds == 0)
    && (s.ops != [] && !s.ops[0].Handshake? ==> s.timers > 0 || s.closeCalls > 0)
    && (s.ops != [] ==> (s.ops[0].Handshake? <==> s.rounds == 0))
    && (s.finished ==> s.ops == [] && s.busy && s.rounds > 0)
    && s.timers <= s.rounds
    && s.closeCalls == s.rounds - s.timers + (if s.finished then 1 else 0)
    && (s.closeCalls > 0 ==> s.closed)
    && (s.busy && s.closed ==> s.closeCalls > 0)
    && |s.handled| + (if s.ops != [] && (s.ops[0].HeaderRead? || s.ops[0].BodyRead?) then 1 else 0) <= s.rounds
  }

  lemma NothingLeft(s: SessionState, e: Event)
    requires SessionInv(s) && Enabled(s, e) && !e.TimerReported?
    ensures |s.ops| == 1 && Completes(e, s.ops[0]) && Without(s.ops, e) == []
  {
  }

  lemma HandshakeKeepsInv(s: SessionState, ok: bool)
    requires SessionInv(s) && |s.ops| == 1 && s.ops[0].Handshake?
    ensures SessionInv(OnHandshake(s.(ops := []), ok))
  {
  }

  lemma HeaderReadKeepsInv(s: SessionState, ok: bool, buf: string, handler: RequestHandler)
    requires SessionInv(s) && |s.ops| == 1 && s.ops[0].HeaderRead?
    ensures SessionInv(OnHeaderRead(s.(ops := []), ok, buf, handler))
  {
  }

  lemma BodyReadKeepsInv(s: SessionState, ok: bool, buf: string, handler: RequestHandler)
    requires SessionInv(s) && |s.ops| == 1 && s.ops[0].BodyRead?
    ensures SessionInv(OnBodyRead(s.(ops := []), ok, buf, handler))
  {
  }

  lemma WriteKeepsInv(s: SessionState, ok: bool)
    requires SessionInv(s) && |s.ops| == 1 && s.ops[0].Write?
    ensures SessionInv(OnWrite(s.(ops := []), ok))
  {
  }

  lemma ReactKeepsInv(s: SessionState, e: Event, handler: RequestHandler)
    requires SessionInv(s) && Enabled(s, e)
    ensures SessionInv(React(s, e, handler))
  {
    if !e.TimerReported? {
      NothingLeft(s, e);
    }
    match e
    case TimerReported =>
    case HandshakeDone(ok) => HandshakeKeepsInv(s, ok);
    case HeaderDone(ok, buf) => HeaderReadKeepsInv(s, ok, buf, handler);
    case BodyDone(ok, buf) => BodyReadKeepsInv(s, ok, buf, handler);
    case Written(ok) => WriteKeepsInv(s, ok);
  }

  // ---- When a request is handled before its body is complete

  /** The body is no shorter than the Content-Length says. */
  ghost predicate BodyComplete(q: Request) {
    forall n: nat :: Declares(q.header, n) ==> n <= |q.body|
  }

  lemma BodyCompleteIff(q: Request)
    ensures BodyComplete(q) <==> DeclaredSize(q.header) <= |q.body|
  {
    DeclaresExact(q.header, DeclaredSize(q.header));
    forall n: nat | Declares(q.header, n) ensures n == DeclaredSize(q.header) {
      DeclaresExact(q.header, n);
    }
  }

  ghost predicate AllComplete(handled: seq<Request>) {
    forall i :: 0 <= i < |handled| ==> BodyComplete(handled[i])
  }

  /** The pending body read asks for whatever is missing. */
  predicate PendingInv(s: SessionState) {
    && SessionInv(s)
    && (s.ops != [] && s.ops[0].BodyRead? ==>
        s.ops[0].atLeast == SizeSub(DeclaredSize(s.request.header), |s.request.body|))
  }

  /** A session begins without an unserved promise. */
  lemma StartsPending()
    ensures PendingInv(OnStart(NEW_SESSION)) && OnStart(NEW_SESSION).handled == []
  {
  }

  lemma CStringEnds(s: string)
    ensures |CString(s)| == Find(s, "\0")
  {
    if s != "" && s[0] != '\0' {
      CStringEnds(s[1..]);
    }
  }

  /** The text in front of the first NUL of a body read is as long as what is missing. */
  predicate Suffices(s: SessionState, e: Event) {
    e.BodyDone? && e.ok ==> DeclaredSize(s.request.header) <= |s.request.body| + Find(e.buf, "\0")
  }

  /** Also when `wanted - have` wraps around, the sum is enough. */
  lemma CompletedRead(have: nat, wanted: nat, more: nat)
    requires wanted < SIZE_MOD && SizeSub(wanted, have) <= more
    ensures wanted <= have + more
  {
  }

  /** A body read without a NUL always suffices. */
  lemma NoNulSuffices(s: SessionState, e: Event)
    requires PendingInv(s) && Enabled(s, e)
    requires e.BodyDone? ==> '\0' !in e.buf
    ensures Suffices(s, e)
  {
    if e.BodyDone? && e.ok {
      NothingLeft(s, e);
      CompletedRead(|s.request.body|, DeclaredSize(s.request.header), |e.buf|);
      CStringEnds(e.buf);
    }
  }

  lemma LastComplete(handled: seq<Request>, q: Request)
    ensures AllComplete(handled + [q]) <==> AllComplete(handled) && BodyComplete(q)
  {
    var all := handled + [q];
    assert all[|handled|] == q && forall i :: 0 <= i < |handled| ==> all[i] == handled[i];
  }

  /** What a body read shows the request handler is complete exactly when the read suffices. */
  lemma BodyReadExact(s: SessionState, buf: string, handler: RequestHandler)
    ensures var t := OnBodyRead(s.(ops := []), true, buf, handler);
      AllComplete(t.handled) <==> AllComplete(s.handled) && Suffices(s, BodyDone(true, buf))
  {
    var q := s.request.(body := s.request.body + CString(buf));
    CStringEnds(buf);
    BodyCompleteIff(q);
    LastComplete(s.handled, q);
  }

  lemma HeaderReadSteps(s: SessionState, buf: string, handler: RequestHandler, q: Request)
    requires s.ops == [] && q == HeaderTaken(s.request, buf)
    ensures var t := OnHeaderRead(s, true, buf, handler);
      var byte := DeclaredSize(q.header);
      && t.request == q
      && (byte == 0 ==> t.handled == s.handled + [q] && t.ops != [] && t.ops[0].Write?)
      && (byte != 0 ==> t.handled == s.handled && t.ops == [BodyRead(SizeSub(byte, |q.body|))])
  {
  }

  /** A header read leaves the right body read pending, or handles a request without a body. */
  lemma HeaderReadExact(s: SessionState, buf: string, handler: RequestHandler)
    ensures var t := OnHeaderRead(s.(ops := []), true, buf, handler);
      && (AllComplete(t.handled) <==> AllComplete(s.handled))
      && (t.ops != [] && t.ops[0].BodyRead? ==>
          t.ops[0].atLeast == SizeSub(DeclaredSize(t.request.header), |t.request.body|))
  {
    var q := HeaderTaken(s.request, buf);
    HeaderReadSteps(s.(ops := []), buf, handler, q);
    BodyCompleteIff(q);
    LastComplete(s.handled, q);
  }

  /** Every event leaves the right body read pending, and the handled requests stay complete
      exactly when the event suffices. */
  lemma ReactExact(s: SessionState, e: Event, handler: RequestHandler)
    requires PendingInv(s) && Enabled(s, e)
    ensures PendingInv(React(s, e, handler))
    ensures AllComplete(React(s, e, handler).handled) <==> AllComplete(s.handled) && Suffices(s, e)
  {
    ReactKeepsInv(s, e, handler);
    if !e.TimerReported? {
      NothingLeft(s, e);
      if e.BodyDone? && e.ok {
        BodyReadExact(s, e.buf, handler);
      } else if e.HeaderDone? && e.ok {
        HeaderReadExact(s, e.buf, handler);
      }
    }
  }

  predicate PossibleEvents(s: SessionState, events: seq<Event>, handler: RequestHandler)
    decreases |events|
  {
    events == [] ||
    (Enabled(s, events[0]) && PossibleEvents(React(s, events[0], handler), events[1..], handler))
  }

  function After(s: SessionState, events: seq<Event>, handler: RequestHandler): SessionState
    requires PossibleEvents(s, events, handler)
    decreases |events|
  {
    if events == [] then s else After(React(s, events[0], handler), events[1..], handler)
  }

  /** Every body read of the run suffices. */
  predicate AllSuffice(s: SessionState, events: seq<Event>, handler: RequestHandler)
    requires PossibleEvents(s, events, handler)
    decreases |events|
  {
    events == [] ||
    (Suffices(s, events[0]) && AllSuffice(React(s, events[0], handler), events[1..], handler))
  }

  lemma {:induction false} RunExact(s: SessionState, events: seq<Event>, handler: RequestHandler)
    requires PendingInv(s) && PossibleEvents(s, events, handler)
    ensures PendingInv(After(s, events, handler))
    ensures AllComplete(After(s, events, handler).handled) <==>
      AllComplete(s.handled) && AllSuffice(s, events, handler)
    decreases |events|
  {
    if events != [] {
      ReactExact(s, events[0], handler);
      RunExact(React(s, events[0], handler), events[1..], handler);
    }
  }

  /** Without a NUL every body read of a run suffices. */
  lemma {:induction false} NoNulRun(s: SessionState, events: seq<Event>, handler: RequestHandler)
    requires PendingInv(s) && PossibleEvents(s, events, handler)
    requires NulFree(events)
    ensures AllSuffice(s, events, handler)
    decreases |events|
  {
    if events != [] {
      NoNulSuffices(s, events[0]);
      ReactExact(s, events[0], handler);
      NoNulRun(React(s, events[0], handler), events[1..], handler);
    }
  }

  /** No body read of the run brings a NUL. */
  predicate NulFree(events: seq<Event>) {
    forall i :: 0 <= i < |events| && events[i].BodyDone? ==> '\0' !in events[i].buf
  }

  /** Over every run of a new session, keep-alive rounds included, the request handler is never
      shown a body shorter than its Content-Length, as long as no body text holds a NUL. */
  lemma RunCompletesBodies(events: seq<Event>, handler: RequestHandler)
    requires PossibleEvents(OnStart(NEW_SESSION), events, handler) && NulFree(events)
    ensures AllComplete(After(OnStart(NEW_SESSION), events, handler).handled)
  {
    StartsPending();
    NoNulRun(OnStart(NEW_SESSION), events, handler);
    RunExact(OnStart(NEW_SESSION), events, handler);
  }

  // ---- What a run answers

  /** The text being written, if any. */
  function PendingText(s: SessionState): seq<string> {
    if s.ops != [] && s.ops[0].Write? then [s.ops[0].text] else []
  }

  /** The texts whose write completed in a run. */
  function Wrote(s: SessionState, events: seq<Event>, handler: RequestHandler): seq<string>
    requires PossibleEvents(s, events, handler)
    decreases |events|
  {
    if events == [] then []
    else (if events[0].Written? then PendingText(s) else []) + Wrote(React(s, events[0], handler), events[1..], handler)
  }

  /** The printed answers to some requests. */
  function Answers(handled: seq<Request>, handler: RequestHandler): (texts: seq<string>)
    ensures |texts| == |handled|
    ensures forall i :: 0 <= i < |handled| ==> texts[i] == PrintResponse(handler(handled[i]))
  {
    seq(|handled|, i requires 0 <= i < |handled| => PrintResponse(handler(handled[i])))
  }

  lemma AnswersNext(handled: seq<Request>, q: Request, handler: RequestHandler)
    ensures Answers(handled + [q], handler) == Answers(handled, handler) + [PrintResponse(handler(q))]
    ensures Answers(handled, handler) + [] == Answers(handled, handler)
  {
  }

  /** `texts` and the text being written are the answers to what was handled. */
  predicate Answered(s: SessionState, texts: seq<string>, handler: RequestHandler) {
    texts + PendingText(s) == Answers(s.handled, handler)
  }

  lemma OneAnswer(s: SessionState, e: Event, texts: seq<string>, handler: RequestHandler)
    requires SessionInv(s) && Enabled(s, e) && Answered(s, texts, handler)
    ensures Answered(React(s, e, handler), texts + (if e.Written? then PendingText(s) else []), handler)
  {
    assert texts + [] == texts;
    if !e.TimerReported? {
      NothingLeft(s, e);
      AnswersNext(s.handled, React(s, e, handler).request, handler);
    }
  }

  lemma {:induction false} RunAnswered(s: SessionState, events: seq<Event>, texts: seq<string>, handler: RequestHandler)
    requires SessionInv(s) && PossibleEvents(s, events, handler) && Answered(s, texts, handler)
    ensures Answered(After(s, events, handler), texts + Wrote(s, events, handler), handler)
    decreases |events|
  {
    if events == [] {
      assert texts + [] == texts;
    } else {
      ReactKeepsInv(s, events[0], handler);
      OneAnswer(s, events[0], texts, handler);
      var now := if events[0].Written? then PendingText(s) else [];
      RunAnswered(React(s, events[0], handler), events[1..], texts + now, handler);
      assert texts + (now + Wrote(React(s, events[0], handler), events[1..], handler)) ==
        texts + now + Wrote(React(s, events[0], handler), events[1..], handler);
    }
  }

  /** Over every run, the texts written so far, with the one being written, are the printed answers
      of the request handler to the requests it was shown: one each, in their order. */
  lemma RunAnswers(events: seq<Event>, handler: RequestHandler)
    requires PossibleEvents(OnStart(NEW_SESSION), events, handler)
    ensures var s := After(OnStart(NEW_SESSION), events, handler);
      Wrote(OnStart(NEW_SESSION), events, handler) + PendingText(s) == Answers(s.handled, handler)
  {
    StartsPending();
    RunAnswered(OnStart(NEW_SESSION), events, [], handler);
    var wrote := Wrote(OnStart(NEW_SESSION), events, handler);
    assert [] + wrote == wrote;
  }

  // ---- Later requests pile up on earlier ones

  lemma GrowsOn(a: Request, b: Request, c: Request)
    requires Grows(a, b) && Grows(b, c)
    ensures Grows(a, c)
  {
  }

  lemma HeaderTakenGrows(q: Request, buf: string)
    ensures Grows(q, HeaderTaken(q, buf))
  {
    RequestHeaderGrows(CString(buf), q);
  }

  lemma HeaderReadShows(s: SessionState, buf: string, handler: RequestHandler, q: Request)
    requires q == HeaderTaken(s.request, buf)
    ensures var t := OnHeaderRead(s, true, buf, handler);
      t.request == q && (t.handled == s.handled || t.handled == s.handled + [q])
  {
  }

  lemma HeaderReadGrows(s: SessionState, ok: bool, buf: string, handler: RequestHandler)
    ensures var t := OnHeaderRead(s, ok, buf, handler);
      Grows(s.request, t.request) && (t.handled == s.handled || t.handled == s.handled + [t.request])
  {
    if ok {
      var q := HeaderTaken(s.request, buf);
      HeaderTakenGrows(s.request, buf);
      HeaderReadShows(s, buf, handler, q);
    }
  }

  lemma BodyReadGrows(s: SessionState, ok: bool, buf: string, handler: RequestHandler)
    ensures var t := OnBodyRead(s, ok, buf, handler);
      Grows(s.request, t.request) && (t.handled == s.handled || t.handled == s.handled + [t.request])
  {
  }

  /** An event lets the request grow, and shows it to the request handler as it then is, or not. */
  lemma RequestGrows(s: SessionState, e: Event, handler: RequestHandler)
    ensures var t := React(s, e, handler);
      Grows(s.request, t.request) && (t.handled == s.handled || t.handled == s.handled + [t.request])
  {
    match e
    case TimerReported =>
    case HandshakeDone(_) =>
    case HeaderDone(ok, buf) => HeaderReadGrows(s.(ops := Without(s.ops, e)), ok, buf, handler);
    case BodyDone(ok, buf) => BodyReadGrows(s.(ops := Without(s.ops, e)), ok, buf, handler);
    case Written(_) =>
  }

  /** Each request has grown out of the ones before, and `q` out of them all. */
  predicate PiledUp(handled: seq<Request>, q: Request) {
    && (forall i :: 0 <= i < |handled| ==> Grows(handled[i], q))
    && forall i, j :: 0 <= i <= j < |handled| ==> Grows(handled[i], handled[j])
  }

  lemma PilesOn(handled: seq<Request>, q: Request, q2: Request)
    requires PiledUp(handled, q) && Grows(q, q2)
    ensures PiledUp(handled, q2) && PiledUp(handled + [q2], q2)
  {
    forall i | 0 <= i < |handled| ensures Grows(handled[i], q2) {
      GrowsOn(handled[i], q, q2);
    }
  }

  lemma ReactPilesUp(s: SessionState, e: Event, handler: RequestHandler)
    requires PiledUp(s.handled, s.request)
    ensures PiledUp(React(s, e, handler).handled, React(s, e, handler).request)
  {
    RequestGrows(s, e, handler);
    PilesOn(s.handled, s.request, React(s, e, handler).request);
  }

  lemma {:induction false} RunPilesUp(s: SessionState, events: seq<Event>, handler: RequestHandler)
    requires PiledUp(s.handled, s.request) && PossibleEvents(s, events, handler)
    ensures PiledUp(After(s, events, handler).handled, After(s, events, handler).request)
    decreases |events|
  {
    if events != [] {
      ReactPilesUp(s, events[0], handler);
      RunPilesUp(React(s, events[0], handler), events[1..], handler);
    }
  }

  /** Over every run: the handler sees each request with everything that came before in front of it. */
  lemma RunAccumulates(events: seq<Event>, handler: RequestHandler, i: nat, j: nat)
    requires PossibleEvents(OnStart(NEW_SESSION), events, handler)
    requires i <= j < |After(OnStart(NEW_SESSION), events, handler).handled|
    ensures var handled := After(OnStart(NEW_SESSION), events, handler).handled; Grows(handled[i], handled[j])
  {
    RunPilesUp(OnStart(NEW_SESSION), events, handler);
  }

  // ---- When another request is awaited

  predicate AsksToKeep(header: Fields) {
    ("Connection", "Keep-Alive") in header.Items || ("Proxy-Connection", "Keep-Alive") in header.Items
  }

  lemma WantsIffAsks(header: Fields)
    ensures WantsKeepAlive(header) <==> AsksToKeep(header)
  {
    assert "close" != "Keep-Alive" by {
      assert |"close"| == 5 && |"Keep-Alive"| == 10;
    }
  }

  /** While an answer is written, the session remembers what the request asked for. */
  predicate KeepInv(s: SessionState) {
    s.ops != [] && s.ops[0].Write? ==>
      s.handled != [] && (s.keepAlive <==> AsksToKeep(s.handled[|s.handled| - 1].header))
  }

  lemma ReactKeepsKeepInv(s: SessionState, e: Event, handler: RequestHandler)
    requires SessionInv(s) && Enabled(s, e) && KeepInv(s)
    ensures KeepInv(React(s, e, handler))
  {
    if !e.TimerReported? {
      NothingLeft(s, e);
      WantsIffAsks(React(s, e, handler).request.header);
    }
  }

  lemma {:induction false} RunKeepsKeepInv(s: SessionState, events: seq<Event>, handler: RequestHandler)
    requires SessionInv(s) && PossibleEvents(s, events, handler) && KeepInv(s)
    ensures SessionInv(After(s, events, handler)) && KeepInv(After(s, events, handler))
    decreases |events|
  {
    if events != [] {
      ReactKeepsInv(s, events[0], handler);
      ReactKeepsKeepInv(s, events[0], handler);
      RunKeepsKeepInv(React(s, events[0], handler), events[1..], handler);
    }
  }

  lemma WrittenDecides(s: SessionState, handler: RequestHandler)
    requires SessionInv(s) && KeepInv(s) && Enabled(s, Written(true))
    ensures var t := React(s, Written(true), handler);
      && s.handled != [] && t.handled == s.handled
      && if AsksToKeep(s.handled[|s.handled| - 1].header)
         then t == s.(ops := [HeaderRead], timers := s.timers + 1, rounds := s.rounds + 1)
         else t == s.(ops := [], closed := true, finished := true, closeCalls := s.closeCalls + 1)
  {
    NothingLeft(s, Written(true));
  }

  /** After every run: when an answer is written, another header is read if the request asked to
      keep the connection, and otherwise the session is over. */
  lemma WrittenExact(events: seq<Event>, handler: RequestHandler)
    requires PossibleEvents(OnStart(NEW_SESSION), events, handler)
    requires Enabled(After(OnStart(NEW_SESSION), events, handler), Written(true))
    ensures var s := After(OnStart(NEW_SESSION), events, handler);
      var t := React(s, Written(true), handler);
      && s.handled != [] && t.handled == s.handled
      && if AsksToKeep(s.handled[|s.handled| - 1].header)
         then t == s.(ops := [HeaderRead], timers := s.timers + 1, rounds := s.rounds + 1)
         else t == s.(ops := [], closed := true, finished := true, closeCalls := s.closeCalls + 1)
  {
    StartsPending();
    RunKeepsKeepInv(OnStart(NEW_SESSION), events, handler);
    WrittenDecides(After(OnStart(NEW_SESSION), events, handler), handler);
  }

  /** An operation that failed ends the chain: nothing else changes, and nothing more is started. */
  lemma FailureStops(s: SessionState, e: Event, handler: RequestHandler)
    requires SessionInv(s) && Enabled(s, e) && !e.TimerReported? && !e.ok
    ensures React(s, e, handler) == s.(ops := [])
  {
    NothingLeft(s, e);
  }

  // ---- When the connection is closed

  /** How many of the events report the read timer. */
  function Reports(events: seq<Event>): nat {
    if events == [] then 0 else (if events[0].TimerReported? then 1 else 0) + Reports(events[1..])
  }

  lemma {:induction false} ReportsIff(events: seq<Event>)
    ensures Reports(events) > 0 <==> exists i :: 0 <= i < |events| && events[i].TimerReported?
  {
    if events != [] {
      ReportsIff(events[1..]);
      assert forall i :: 0 < i < |events| ==> events[i] == events[1..][i - 1];
    }
  }

  /** The reports of a run are the timers armed less those still running. */
  lemma {:induction false} ReportsCounted(s: SessionState, events: seq<Event>, handler: RequestHandler)
    requires SessionInv(s) && PossibleEvents(s, events, handler)
    ensures var t := After(s, events, handler);
      SessionInv(t) && t.busy == s.busy && t.rounds - t.timers == s.rounds - s.timers + Reports(events)
    decreases |events|
  {
    if events != [] {
      ReactKeepsInv(s, events[0], handler);
      OneReport(s, events[0], handler);
      ReportsCounted(React(s, events[0], handler), events[1..], handler);
    }
  }

  lemma OneReport(s: SessionState, e: Event, handler: RequestHandler)
    requires Enabled(s, e)
    ensures var t := React(s, e, handler);
      t.busy == s.busy && t.rounds - t.timers == s.rounds - s.timers + if e.TimerReported? then 1 else 0
  {
  }

  /** A connection is closed exactly when its read timer reported, expired or merely cancelled, or
      its final response was written; the close handler runs for each of these. */
  lemma ClosedExactly(events: seq<Event>, handler: RequestHandler)
    requires PossibleEvents(OnStart(NEW_SESSION), events, handler)
    ensures var s := After(OnStart(NEW_SESSION), events, handler);
      && (s.closed <==> (exists i :: 0 <= i < |events| && events[i].TimerReported?) || s.finished)
      && s.closeCalls == Reports(events) + if s.finished then 1 else 0
  {
    StartsPending();
    ReportsCounted(OnStart(NEW_SESSION), events, handler);
    ReportsIff(events);
  }

  // ---- The session object

  class HttpSession {
    var socketBusy: bool
    var keepAlive: bool
    var request: Request
    var ops: seq<Op>
    var timers: nat
    var closed: bool
    var rounds: nat
    var finished: bool
    var closeCalls: nat
    var handled: seq<Request>

    constructor ()
      ensures State() == NEW_SESSION
    {
      socketBusy, keepAlive, request, ops, timers := false, false, FRESH_REQUEST, [], 0;
      closed, rounds, finished, closeCalls, handled := false, 0, false, 0, [];
    }

    function State(): SessionState
      reads this
    {
      SessionState(socketBusy, keepAlive, request, ops, timers, closed, rounds, finished, closeCalls, handled)
    }

    /** `start` */
    method Start()
      modifies this
      ensures State() == OnStart(old(State()))
    {
      if socketBusy {
        return;
      }
      socketBusy := true;
      ops := ops + [Handshake];
    }

    /** `end`; `notify` says whether the close handler is the server's or an empty one. */
    method End(notify: bool)
      modifies this
      ensures State() == if notify then OnEnd(old(State())) else old(State()).(closed := true)
    {
      closed := true;
      if notify {
        closeCalls := closeCalls + 1;
      }
    }

    method HandleHandshake(ok: bool)
      modifies this
      ensures State() == OnHandshake(old(State()), ok)
    {
      if ok {
        ops := ops + [HeaderRead];
        rounds := rounds + 1;
        timers := timers + 1;
      }
    }

    method ReadTimeout()
      modifies this
      ensures State() == OnEnd(old(State()))
    {
      End(true);
    }

    method HandleHeaderRead(ok: bool, readBuf: string, handler: RequestHandler)
      modifies this
      ensures State() == OnHeaderRead(old(State()), ok, readBuf, handler)
    {
      if ok {
        var requestStr := CString(readBuf);
        var (parsed, n) := ReadRequestHeader(requestStr, request);
        request := parsed;
        requestStr := requestStr[n..];
        request := request.(body := request.body + requestStr);
        var byte := DeclaredSize(request.header);
        if byte != 0 {
          ops := ops + [BodyRead(SizeSub(byte, |request.body|))];
        } else {
          HandleRequestReadComplete(handler);
        }
      }
    }

    method HandleBodyRead(ok: bool, readBuf: string, handler: RequestHandler)
      modifies this
      ensures State() == OnBodyRead(old(State()), ok, readBuf, handler)
    {
      if ok {
        var bodyStr := CString(readBuf);
        request := request.(body := request.body + bodyStr);
        HandleRequestReadComplete(handler);
      }
    }

    method HandleRequestReadComplete(handler: RequestHandler)
      modifies this
      ensures State() == OnComplete(old(State()), handler)
    {
      keepAlive := WantsKeepAlive(request.header);
      handled := handled + [request];
      var response := handler(request);
      ops := ops + [Write(PrintResponse(response))];
    }

    method HandleWrite(ok: bool)
      modifies this
      ensures State() == OnWrite(old(State()), ok)
    {
      if ok {
        if keepAlive {
          HandleHandshake(true);
        } else {
          finished := true;
          End(true);
        }
      }
    }

    /** The event loop delivers a completion to its handler. */
    method Dispatch(e: Event, handler: RequestHandler)
      requires Enabled(State(), e)
      modifies this
      ensures State() == React(old(State()), e, handler)
      ensures SessionInv(old(State())) ==> SessionInv(State())
    {
      if SessionInv(State()) {
        ReactKeepsInv(State(), e, handler);
      }
      match e
      case TimerReported =>
        timers := timers - 1;
        ReadTimeout();
      case HandshakeDone(ok) =>
        ops := Without(ops, e);
        HandleHandshake(ok);
      case HeaderDone(ok, buf) =>
        ops := Without(ops, e);
        HandleHeaderRead(ok, buf, handler);
      case BodyDone(ok, buf) =>
        ops := Without(ops, e);
        HandleBodyRead(ok, buf, handler);
      case Written(ok) =>
        ops := Without(ops, e);
        HandleWrite(ok);
    }
  }
}
