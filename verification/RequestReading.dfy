/** The first request of a session: header read, then body read, under every segmentation. */
module RequestReading {
  import opened Text
  import opened OrderedMap
  import opened Grammar
  import opened Messages
  import opened Wire
  import opened Session

  /** A new session once it is started and its handshake is done. */
  function AwaitingHeader(handler: RequestHandler): SessionState {
    React(OnStart(NEW_SESSION), HandshakeDone(true), handler)
  }

  /** The session after the header read and, if one was started, the body read.  The body read
      uses a fresh buffer. */
  function FirstRequest(segs: seq<string>, handler: RequestHandler): SessionState {
    var (l, ec) := ReadUntil(Link("", segs), BLANK_LINE);
    var s1 := React(AwaitingHeader(handler), HeaderDone(ec == Ok, l.buf), handler);
    if s1.ops != [] && s1.ops[0].BodyRead? then
      var (l2, ec2) := ReadAtLeast(Link("", l.segs), s1.ops[0].atLeast);
      React(s1, BodyDone(ec2 == Ok, l2.buf), handler)
    else s1
  }

  ghost predicate Receives(segs: seq<string>, handler: RequestHandler, q: Request) {
    FirstRequest(segs, handler).handled == [q]
  }

  lemma RequestBlockHasNoNul(q: Request)
    requires SendableHead(q)
    ensures '\0' !in RequestBlock(q)
  {
    GoodEntries(q.header, ":");
    LinesHaveNoNul(Entries(q.header), ":");
    RequestTextIsLine(q);
  }

  /** What the header read leaves in the buffer is the block and a prefix of the body. */
  lemma RequestBlockRead(q: Request, segs: seq<string>) returns (l: Link, ahead: string)
    requires SendableHead(q) && Concat(segs) == RequestBlock(q) + q.body
    ensures ReadUntil(Link("", segs), BLANK_LINE) == (l, Ok)
    ensures l.buf == RequestBlock(q) + ahead && ahead + Concat(l.segs) == q.body
  {
    var start := Link("", segs);
    l := ReadUntil(start, BLANK_LINE).0;
    assert start.Bytes() == RequestBlock(q) + q.body;
    BlockHasBlankLine(RequestText(q), Entries(q.header), q.body);
    ReadUntilExact(start, BLANK_LINE);
    GoodEntries(q.header, ":");
    RequestTextIsLine(q);
    assert l.buf <= l.Bytes();
    BlockIsComplete(RequestText(q), Entries(q.header), ":", q.body, l.buf);
    ahead := l.buf[|RequestBlock(q)|..];
    SplitAfter(RequestBlock(q), ahead, Concat(l.segs), q.body);
  }

  lemma QuietPart(x: string, y: string)
    requires !Swallows(x + y, ":")
    ensures !Swallows(x, ":")
  {
    if Swallows(x, ":") {
      SwallowsExtends(x, y, ":");
    }
  }

  lemma HeaderTakenIs(buf: string, text: string, q1: Request, n: nat)
    requires CString(buf) == text && ReadRequestHeader(text, FRESH_REQUEST) == (q1, n)
    ensures HeaderTaken(FRESH_REQUEST, buf) == q1.(body := text[n..]) && n <= |text|
  {
    assert "" + text[n..] == text[n..];
  }

  /** The request as parsed from the block and some text read ahead. */
  lemma HeaderTakenExact(q: Request, ahead: string)
    requires SendableHead(q)
    ensures var got := HeaderTaken(FRESH_REQUEST, RequestBlock(q) + ahead);
      if Swallows(CString(ahead), ":") then got.header != q.header else got == q.(body := CString(ahead))
  {
    var block, cut := RequestBlock(q), CString(ahead);
    RequestBlockHasNoNul(q);
    CStringConcat(block, ahead);
    RequestHeaderExact(q, cut);
    var (q1, n) := ReadRequestHeader(block + cut, FRESH_REQUEST);
    HeaderTakenIs(block + ahead, block + cut, q1, n);
    assert (block + cut)[|block|..] == cut;
  }

  /** The session right after the header read. */
  function AfterHeaderRead(q: Request, handler: RequestHandler): SessionState {
    var s := NEW_SESSION.(busy := true, timers := 1, rounds := 1, request := q);
    if DeclaredSize(q.header) != 0 then Begin(s, BodyRead(SizeSub(DeclaredSize(q.header), |q.body|)))
    else OnComplete(s, handler)
  }

  lemma OneOperation(op: Op, e: Event)
    requires Completes(e, op)
    ensures Without([op], e) == []
  {
  }

  lemma AwaitingHeaderIs(handler: RequestHandler)
    ensures AwaitingHeader(handler) == NEW_SESSION.(busy := true, timers := 1, rounds := 1, ops := [HeaderRead])
  {
    OneOperation(Handshake, HandshakeDone(true));
  }

  lemma HeaderReacts(buf: string, handler: RequestHandler)
    requires Contains(buf, BLANK_LINE)
    ensures Enabled(AwaitingHeader(handler), HeaderDone(true, buf))
    ensures React(AwaitingHeader(handler), HeaderDone(true, buf), handler)
      == AfterHeaderRead(HeaderTaken(FRESH_REQUEST, buf), handler)
  {
    AwaitingHeaderIs(handler);
    OneOperation(HeaderRead, HeaderDone(true, buf));
    assert AwaitingHeader(handler).ops[0] == HeaderRead;
  }

  lemma BodyReacts(s: SessionState, segs: seq<string>, handler: RequestHandler)
    requires |s.ops| == 1 && s.ops[0].BodyRead?
    ensures var (l, ec) := ReadAtLeast(Link("", segs), s.ops[0].atLeast);
      && Enabled(s, BodyDone(ec == Ok, l.buf))
      && React(s, BodyDone(ec == Ok, l.buf), handler) == OnBodyRead(s.(ops := []), ec == Ok, l.buf, handler)
  {
    var (l, ec) := ReadAtLeast(Link("", segs), s.ops[0].atLeast);
    ReadAtLeastExact(Link("", segs), s.ops[0].atLeast);
    OneOperation(s.ops[0], BodyDone(ec == Ok, l.buf));
    assert s.ops == [s.ops[0]];
  }

  lemma FirstRequestUnfolds(segs: seq<string>, l: Link, handler: RequestHandler)
    requires ReadUntil(Link("", segs), BLANK_LINE) == (l, Ok)
    ensures var got := HeaderTaken(FRESH_REQUEST, l.buf);
      var s1 := AfterHeaderRead(got, handler);
      FirstRequest(segs, handler) ==
        if DeclaredSize(got.header) != 0 then
          var (l2, ec2) := ReadAtLeast(Link("", l.segs), SizeSub(DeclaredSize(got.header), |got.body|));
          OnBodyRead(s1.(ops := []), ec2 == Ok, l2.buf, handler)
        else s1
  {
    ReadUntilExact(Link("", segs), BLANK_LINE);
    HeaderReacts(l.buf, handler);
    var s1 := AfterHeaderRead(HeaderTaken(FRESH_REQUEST, l.buf), handler);
    if DeclaredSize(s1.request.header) != 0 {
      BodyReacts(s1, l.segs, handler);
    }
  }

  /** It is a run of a new session. */
  lemma FirstRequestRuns(segs: seq<string>, handler: RequestHandler) returns (events: seq<Event>)
    requires ReadUntil(Link("", segs), BLANK_LINE).1 == Ok
    ensures PossibleEvents(OnStart(NEW_SESSION), events, handler)
    ensures After(OnStart(NEW_SESSION), events, handler) == FirstRequest(segs, handler)
  {
    var l := ReadUntil(Link("", segs), BLANK_LINE).0;
    ReadUntilExact(Link("", segs), BLANK_LINE);
    HeaderReacts(l.buf, handler);
    var s0 := OnStart(NEW_SESSION);
    assert Completes(HandshakeDone(true), s0.ops[0]);
    var s1 := React(AwaitingHeader(handler), HeaderDone(true, l.buf), handler);
    var last := [];
    if s1.ops[0].BodyRead? {
      BodyReacts(s1, l.segs, handler);
      var (l2, ec2) := ReadAtLeast(Link("", l.segs), s1.ops[0].atLeast);
      last := OneEvent(s1, BodyDone(ec2 == Ok, l2.buf), [], handler);
    }
    events := OneEvent(AwaitingHeader(handler), HeaderDone(true, l.buf), last, handler);
    events := OneEvent(s0, HandshakeDone(true), events, handler);
  }

  lemma OneEvent(s: SessionState, e: Event, more: seq<Event>, handler: RequestHandler) returns (events: seq<Event>)
    requires Enabled(s, e) && PossibleEvents(React(s, e, handler), more, handler)
    ensures events == [e] + more && PossibleEvents(s, events, handler)
    ensures After(s, events, handler) == After(React(s, e, handler), more, handler)
  {
    events := [e] + more;
    assert events[1..] == more;
  }

  /** A sized read for exactly what is left brings exactly that. */
  lemma RestRead(segs: seq<string>)
    ensures ReadAtLeast(Link("", segs), |Concat(segs)|).0.buf == Concat(segs)
    ensures ReadAtLeast(Link("", segs), |Concat(segs)|).1 == Ok
  {
    var l, rest := Link("", segs), Concat(segs);
    assert l.Bytes() == rest;
    ReadAtLeastExact(l, |rest|);
    var l2 := ReadAtLeast(l, |rest|).0;
    assert l2.Bytes()[..|l2.buf|] == l2.buf && rest[..|rest|] == rest;
  }

  lemma ShownHandled(q: Request, ahead: string, text: string, handler: RequestHandler)
    requires DeclaredSize(q.header) != 0
    ensures OnBodyRead(AfterHeaderRead(q.(body := ahead), handler).(ops := []), true, text, handler).handled ==
      [q.(body := ahead + CString(text))]
  {
  }

  /** The handler is shown what was read ahead and the rest of the body up to its first NUL. */
  lemma BodyHandled(q: Request, segs: seq<string>, l: Link, ahead: string, handler: RequestHandler)
    requires ReadUntil(Link("", segs), BLANK_LINE) == (l, Ok)
    requires HeaderTaken(FRESH_REQUEST, l.buf) == q.(body := ahead) && ahead + Concat(l.segs) == q.body
    requires DeclaredSize(q.header) == |q.body| && q.body != ""
    ensures FirstRequest(segs, handler).handled == [q.(body := ahead + CString(Concat(l.segs)))]
  {
    var rest := Concat(l.segs);
    assert SizeSub(|q.body|, |ahead|) == |rest| by {
      assert |q.body| == |ahead| + |rest|;
    }
    RestRead(l.segs);
    FirstRequestUnfolds(segs, l, handler);
    ShownHandled(q, ahead, rest, handler);
  }

  lemma EmptyBodyHandled(q: Request, segs: seq<string>, l: Link, handler: RequestHandler)
    requires ReadUntil(Link("", segs), BLANK_LINE) == (l, Ok)
    requires HeaderTaken(FRESH_REQUEST, l.buf) == q && DeclaredSize(q.header) == 0
    ensures Receives(segs, handler, q)
  {
    FirstRequestUnfolds(segs, l, handler);
  }

  lemma WholeBodyHandled(q: Request, segs: seq<string>, l: Link, ahead: string, handler: RequestHandler)
    requires ReadUntil(Link("", segs), BLANK_LINE) == (l, Ok)
    requires HeaderTaken(FRESH_REQUEST, l.buf) == q.(body := ahead) && ahead + Concat(l.segs) == q.body
    requires DeclaredSize(q.header) == |q.body| && '\0' !in q.body
    ensures Receives(segs, handler, q)
  {
    if q.body == "" {
      assert ahead == q.body;
      EmptyBodyHandled(q, segs, l, handler);
    } else {
      BodyHandled(q, segs, l, ahead, handler);
      var rest := Concat(l.segs);
      assert CString(rest) == rest;
    }
  }

  /** A body without NUL that does not look like a field arrives whole, wherever it is cut. */
  lemma ReceivesQuiet(q: Request, segs: seq<string>, handler: RequestHandler)
    requires SendableHead(q) && Declares(q.header, |q.body|)
    requires !Swallows(q.body, ":") && '\0' !in q.body
    requires Concat(segs) == RequestBlock(q) + q.body
    ensures Receives(segs, handler, q)
  {
    var l, ahead := RequestBlockRead(q, segs);
    QuietPart(ahead, Concat(l.segs));
    HeaderTakenExact(q, ahead);
    assert CString(ahead) == ahead;
    DeclaresExact(q.header, |q.body|);
    WholeBodyHandled(q, segs, l, ahead, handler);
  }

  lemma CutShort(s: string)
    requires '\0' in s
    ensures |CString(s)| < |s|
  {
  }

  /** Whatever the body read brings, the handler sees the header as it was parsed. */
  lemma HandledHeader(segs: seq<string>, l: Link, handler: RequestHandler) returns (handled: seq<Request>)
    requires ReadUntil(Link("", segs), BLANK_LINE) == (l, Ok)
    ensures handled == FirstRequest(segs, handler).handled
    ensures handled == [] || handled[0].header == HeaderTaken(FRESH_REQUEST, l.buf).header
  {
    FirstRequestUnfolds(segs, l, handler);
    handled := FirstRequest(segs, handler).handled;
  }

  lemma OneSegmentRead(q: Request) returns (l: Link)
    requires SendableHead(q)
    ensures var wire := RequestBlock(q) + q.body;
      Concat([wire]) == wire && ReadUntil(Link("", [wire]), BLANK_LINE) == (l, Ok) && l == Link(wire, [])
  {
    var wire := RequestBlock(q) + q.body;
    assert wire + "" == wire;
    var ahead;
    l, ahead := RequestBlockRead(q, [wire]);
    assert "" + wire == wire && [wire][1..] == [];
  }

  /** With nothing left to read, a body cut short is never handled. */
  lemma ShortIsNotHandled(segs: seq<string>, l: Link, handler: RequestHandler)
    requires ReadUntil(Link("", segs), BLANK_LINE) == (l, Ok) && l.segs == []
    requires var got := HeaderTaken(FRESH_REQUEST, l.buf); |got.body| < DeclaredSize(got.header)
    ensures FirstRequest(segs, handler).handled == []
  {
    FirstRequestUnfolds(segs, l, handler);
  }

  lemma WrongHeaderFails(segs: seq<string>, l: Link, q: Request, handler: RequestHandler)
    requires ReadUntil(Link("", segs), BLANK_LINE) == (l, Ok)
    requires HeaderTaken(FRESH_REQUEST, l.buf).header != q.header
    ensures !Receives(segs, handler, q)
  {
    var handled := HandledHeader(segs, l, handler);
    if handled != [] {
      assert [q][0] == q;
    }
  }

  /** Delivered in one piece, any other body is lost or misread. */
  lemma ReceivesFails(q: Request, handler: RequestHandler)
    requires SendableHead(q) && Declares(q.header, |q.body|)
    requires Swallows(CString(q.body), ":") || '\0' in q.body
    ensures Concat([RequestBlock(q) + q.body]) == RequestBlock(q) + q.body
    ensures !Receives([RequestBlock(q) + q.body], handler, q)
  {
    DeclaresExact(q.header, |q.body|);
    var l := OneSegmentRead(q);
    var got := HeaderTaken(FRESH_REQUEST, l.buf);
    assert if Swallows(CString(q.body), ":") then got.header != q.header else got == q.(body := CString(q.body)) by {
      HeaderTakenExact(q, q.body);
    }
    if got.header != q.header {
      WrongHeaderFails([RequestBlock(q) + q.body], l, q, handler);
    } else {
      CutShort(q.body);
      ShortIsNotHandled([RequestBlock(q) + q.body], l, handler);
    }
  }

  ghost predicate AlwaysReceives(q: Request, handler: RequestHandler) {
    forall segs :: Concat(segs) == RequestBlock(q) + q.body ==> Receives(segs, handler, q)
  }

  lemma QuietIsReceived(q: Request, handler: RequestHandler)
    requires SendableHead(q) && Declares(q.header, |q.body|)
    requires !Swallows(q.body, ":") && '\0' !in q.body
    ensures AlwaysReceives(q, handler)
  {
    forall segs | Concat(segs) == RequestBlock(q) + q.body ensures Receives(segs, handler, q) {
      ReceivesQuiet(q, segs, handler);
    }
  }

  lemma LoudIsNot(q: Request, handler: RequestHandler)
    requires SendableHead(q) && Declares(q.header, |q.body|)
    requires Swallows(q.body, ":") || '\0' in q.body
    ensures !AlwaysReceives(q, handler)
  {
    if '\0' !in q.body {
      assert CString(q.body) == q.body;
    }
    ReceivesFails(q, handler);
  }

  /** The request handler receives exactly the request that was sent, under every segmentation,
      if and only if the body has no NUL and does not look like a header field. */
  lemma RequestRoundTrip(q: Request, handler: RequestHandler)
    requires SendableHead(q) && Declares(q.header, |q.body|)
    ensures AlwaysReceives(q, handler) <==> !Swallows(q.body, ":") && '\0' !in q.body
  {
    if Swallows(q.body, ":") || '\0' in q.body {
      LoudIsNot(q, handler);
    } else {
      QuietIsReceived(q, handler);
    }
  }

  lemma CompleteAnswers(s: SessionState, handler: RequestHandler, q: Request)
    requires s.ops == [] && s.handled == [] && OnComplete(s, handler).handled == [q]
    ensures OnComplete(s, handler).ops == [Write(PrintResponse(handler(q)))]
  {
    assert OnComplete(s, handler).handled[0] == s.request && [q][0] == q;
  }

  lemma ShownAnswered(got: Request, ok: bool, buf: string, handler: RequestHandler, q: Request)
    requires DeclaredSize(got.header) != 0
    ensures var t := OnBodyRead(AfterHeaderRead(got, handler).(ops := []), ok, buf, handler);
      t.handled == [q] ==> t.ops == [Write(PrintResponse(handler(q)))]
  {
    var s := AfterHeaderRead(got, handler).(ops := []);
    if OnBodyRead(s, ok, buf, handler).handled == [q] {
      CompleteAnswers(s.(request := s.request.(body := s.request.body + CString(buf))), handler, q);
    }
  }

  lemma HeadAnswered(got: Request, handler: RequestHandler, q: Request)
    requires DeclaredSize(got.header) == 0 && AfterHeaderRead(got, handler).handled == [q]
    ensures AfterHeaderRead(got, handler).ops == [Write(PrintResponse(handler(q)))]
  {
    CompleteAnswers(NEW_SESSION.(busy := true, timers := 1, rounds := 1, request := got), handler, q);
  }

  /** The request that is shown to the handler is the one that is answered. */
  lemma HandledIsAnswered(segs: seq<string>, l: Link, handler: RequestHandler, q: Request)
    requires ReadUntil(Link("", segs), BLANK_LINE) == (l, Ok) && Receives(segs, handler, q)
    ensures FirstRequest(segs, handler).ops == [Write(PrintResponse(handler(q)))]
  {
    FirstRequestUnfolds(segs, l, handler);
    var got := HeaderTaken(FRESH_REQUEST, l.buf);
    if DeclaredSize(got.header) != 0 {
      var (l2, ec2) := ReadAtLeast(Link("", l.segs), SizeSub(DeclaredSize(got.header), |got.body|));
      ShownAnswered(got, ec2 == Ok, l2.buf, handler, q);
    } else {
      HeadAnswered(got, handler, q);
    }
  }

  // ---- Bodies shown too short

  lemma ShownComplete(got: Request, buf: string, handler: RequestHandler)
    requires DeclaredSize(got.header) != 0 && DeclaredSize(got.header) <= |got.body| + |buf| && '\0' !in buf
    ensures AllComplete(OnBodyRead(AfterHeaderRead(got, handler).(ops := []), true, buf, handler).handled)
  {
    BodyReadExact(AfterHeaderRead(got, handler), buf, handler);
    CStringEnds(buf);
  }

  lemma UnreadNotShown(got: Request, buf: string, handler: RequestHandler)
    requires DeclaredSize(got.header) != 0
    ensures AllComplete(OnBodyRead(AfterHeaderRead(got, handler).(ops := []), false, buf, handler).handled)
  {
  }

  lemma NoBodyShown(got: Request, handler: RequestHandler)
    requires DeclaredSize(got.header) == 0
    ensures AllComplete(AfterHeaderRead(got, handler).handled)
  {
    BodyCompleteIff(got);
  }

  /** Whatever is read, a request without NUL in its body is shown complete or not at all. */
  lemma NeverShort(q: Request, segs: seq<string>, handler: RequestHandler)
    requires SendableHead(q) && '\0' !in q.body && Concat(segs) == RequestBlock(q) + q.body
    ensures AllComplete(FirstRequest(segs, handler).handled)
  {
    var l, ahead := RequestBlockRead(q, segs);
    var got := HeaderTaken(FRESH_REQUEST, l.buf);
    FirstRequestUnfolds(segs, l, handler);
    if DeclaredSize(got.header) != 0 {
      var wanted := SizeSub(DeclaredSize(got.header), |got.body|);
      var (l2, ec2) := ReadAtLeast(Link("", l.segs), wanted);
      ReadAtLeastExact(Link("", l.segs), wanted);
      PartHasNoNul(q.body, ahead, Concat(l.segs), l2);
      if ec2 == Ok {
        CompletedRead(|got.body|, DeclaredSize(got.header), |l2.buf|);
        ShownComplete(got, l2.buf, handler);
      } else {
        UnreadNotShown(got, l2.buf, handler);
      }
    } else {
      NoBodyShown(got, handler);
    }
  }

  lemma PartHasNoNul(body: string, ahead: string, rest: string, l2: Link)
    requires '\0' !in body && body == ahead + rest && l2.Bytes() == rest
    ensures '\0' !in l2.buf
  {
    assert body[|ahead|..] == rest;
    assert rest[..|l2.buf|] == l2.buf;
  }

  lemma CutBehindHeader(q: Request, handler: RequestHandler)
    requires SendableHead(q) && DeclaredSize(q.header) == |q.body| && q.body != ""
    ensures FirstRequest([RequestBlock(q), q.body], handler).handled == [q.(body := "" + CString(q.body))]
  {
    var segs, l, none := [RequestBlock(q), q.body], Link(RequestBlock(q), [q.body]), "";
    assert ReadUntil(Link("", segs), BLANK_LINE) == (l, Ok) by {
      BlockAlone(q);
    }
    assert HeaderTaken(FRESH_REQUEST, l.buf) == q.(body := none) by {
      HeadAlone(q);
    }
    assert none + Concat(l.segs) == q.body by {
      ConcatOne(q.body);
    }
    BodyHandled(q, segs, l, none, handler);
    ConcatOne(q.body);
  }

  /** Cut behind the header, a body with a NUL is shown short of its Content-Length: from a new
      session, for every such request. */
  lemma NulCutsBody(q: Request, handler: RequestHandler)
    requires SendableHead(q) && Declares(q.header, |q.body|) && '\0' in q.body
    ensures Concat([RequestBlock(q), q.body]) == RequestBlock(q) + q.body
    ensures FirstRequest([RequestBlock(q), q.body], handler).handled == [q.(body := CString(q.body))]
    ensures !AllComplete(FirstRequest([RequestBlock(q), q.body], handler).handled)
  {
    DeclaresExact(q.header, |q.body|);
    ConcatTwo(RequestBlock(q), q.body);
    CutBehindHeader(q, handler);
    CutShort(q.body);
    ShownShort(q);
  }

  lemma HeadAlone(q: Request)
    requires SendableHead(q)
    ensures HeaderTaken(FRESH_REQUEST, RequestBlock(q)) == q.(body := "")
  {
    var block, none := RequestBlock(q), "";
    assert block + none == block;
    HeaderTakenExact(q, none);
  }

  lemma ShownShort(q: Request)
    requires DeclaredSize(q.header) == |q.body| && |CString(q.body)| < |q.body|
    ensures "" + CString(q.body) == CString(q.body)
    ensures !AllComplete([q.(body := CString(q.body))])
  {
    var handled := [q.(body := CString(q.body))];
    BodyCompleteIff(handled[0]);
    assert !BodyComplete(handled[0]);
  }

  lemma BlockAlone(q: Request)
    requires SendableHead(q)
    ensures ReadUntil(Link("", [RequestBlock(q), q.body]), BLANK_LINE) == (Link(RequestBlock(q), [q.body]), Ok)
  {
    var block := RequestBlock(q);
    BlockHasBlankLine(RequestText(q), Entries(q.header), "");
    assert block + "" == block && "" + block == block && [block, q.body][1..] == [q.body];
  }

  /** The request handler is never shown a body shorter than its Content-Length, under any
      segmentation, if and only if the body has no NUL. */
  lemma ShortBodyExact(q: Request, handler: RequestHandler)
    requires SendableHead(q) && Declares(q.header, |q.body|)
    ensures AlwaysComplete(q, handler) <==> '\0' !in q.body
  {
    if '\0' in q.body {
      NulIsNot(q, handler);
    } else {
      forall segs | Concat(segs) == RequestBlock(q) + q.body
        ensures AllComplete(FirstRequest(segs, handler).handled)
      {
        NeverShort(q, segs, handler);
      }
    }
  }

  ghost predicate AlwaysComplete(q: Request, handler: RequestHandler) {
    forall segs :: Concat(segs) == RequestBlock(q) + q.body ==> AllComplete(FirstRequest(segs, handler).handled)
  }

  lemma NulIsNot(q: Request, handler: RequestHandler)
    requires SendableHead(q) && Declares(q.header, |q.body|) && '\0' in q.body
    ensures !AlwaysComplete(q, handler)
  {
    NulCutsBody(q, handler);
  }

  // ---- A keep-alive connection cut by its own timer

  /** A request without a body that asks to keep the connection. */
  ghost predicate AsksKeepAlive(q: Request) {
    SendableHead(q) && q.body == "" && Declares(q.header, 0) && AsksToKeep(q.header)
  }

  lemma ServedIs(q: Request, handler: RequestHandler)
    requires AsksKeepAlive(q)
    ensures var s := AfterHeaderRead(q, handler);
      && |s.ops| == 1 && s.ops[0].Write? && s.keepAlive && s.handled == [q]
      && s.timers == 1 && s.rounds == 1 && !s.finished && s.request == q
  {
    DeclaresExact(q.header, 0);
    WantsIffAsks(q.header);
  }

  lemma WrittenKeepsAlive(s: SessionState, handler: RequestHandler)
    requires |s.ops| == 1 && s.ops[0].Write? && s.keepAlive
    ensures Enabled(s, Written(true))
    ensures var t := React(s, Written(true), handler);
      && t.ops == [HeaderRead] && t.timers == s.timers + 1 && t.rounds == s.rounds + 1
      && t.finished == s.finished && t.handled == s.handled && t.request == s.request
  {
    OneOperation(s.ops[0], Written(true));
    assert s.ops == [s.ops[0]];
  }

  lemma KeepAliveHeader(q: Request, handler: RequestHandler)
    requires AsksKeepAlive(q)
    ensures Enabled(AwaitingHeader(handler), HeaderDone(true, RequestBlock(q)))
    ensures React(AwaitingHeader(handler), HeaderDone(true, RequestBlock(q)), handler) == AfterHeaderRead(q, handler)
  {
    var block, none := RequestBlock(q), "";
    assert Contains(block, BLANK_LINE) by {
      BlockHasBlankLine(RequestText(q), Entries(q.header), none);
      assert block + none == block;
    }
    HeadAlone(q);
    HeaderReacts(block, handler);
  }

  lemma TwoEvents(s: SessionState, e: Event, f: Event, handler: RequestHandler) returns (events: seq<Event>)
    requires Enabled(s, e) && Enabled(React(s, e, handler), f)
    ensures events == [e, f] && PossibleEvents(s, events, handler)
    ensures After(s, events, handler) == React(React(s, e, handler), f, handler)
  {
    events := OneEvent(React(s, e, handler), f, [], handler);
    events := OneEvent(s, e, events, handler);
  }

  /** Handshake and header of a first request, then whatever can happen. */
  lemma FirstRound(q: Request, last: seq<Event>, handler: RequestHandler) returns (events: seq<Event>)
    requires AsksKeepAlive(q) && PossibleEvents(AfterHeaderRead(q, handler), last, handler)
    ensures events == [HandshakeDone(true), HeaderDone(true, RequestBlock(q))] + last
    ensures PossibleEvents(OnStart(NEW_SESSION), events, handler)
    ensures After(OnStart(NEW_SESSION), events, handler) == After(AfterHeaderRead(q, handler), last, handler)
  {
    var more := HeaderFirst(q, last, handler);
    events := HandshakeFirst(more, handler);
    TwoInFront(HandshakeDone(true), HeaderDone(true, RequestBlock(q)), last);
  }

  lemma TwoInFront(a: Event, b: Event, last: seq<Event>)
    ensures [a] + ([b] + last) == [a, b] + last
  {
  }

  lemma HeaderFirst(q: Request, last: seq<Event>, handler: RequestHandler) returns (events: seq<Event>)
    requires AsksKeepAlive(q) && PossibleEvents(AfterHeaderRead(q, handler), last, handler)
    ensures events == [HeaderDone(true, RequestBlock(q))] + last
    ensures PossibleEvents(AwaitingHeader(handler), events, handler)
    ensures After(AwaitingHeader(handler), events, handler) == After(AfterHeaderRead(q, handler), last, handler)
  {
    KeepAliveHeader(q, handler);
    events := OneEvent(AwaitingHeader(handler), HeaderDone(true, RequestBlock(q)), last, handler);
  }

  lemma HandshakeFirst(more: seq<Event>, handler: RequestHandler) returns (events: seq<Event>)
    requires PossibleEvents(AwaitingHeader(handler), more, handler)
    ensures events == [HandshakeDone(true)] + more
    ensures PossibleEvents(OnStart(NEW_SESSION), events, handler)
    ensures After(OnStart(NEW_SESSION), events, handler) == After(AwaitingHeader(handler), more, handler)
  {
    HandshakeEnabled();
    events := OneEvent(OnStart(NEW_SESSION), HandshakeDone(true), more, handler);
  }

  lemma TimerUnderRead(s: SessionState, handler: RequestHandler)
    requires s.timers == 2 && s.ops == [HeaderRead] && !s.finished
    ensures Enabled(s, TimerReported)
    ensures var t := React(s, TimerReported, handler);
      t.closed && !t.finished && t.ops == [HeaderRead] && t.timers > 0 && t.handled == s.handled
  {
  }

  /** The input on which `read_timeout` fails its purpose: the first round is served, the next one
      waits for its header, and the report of the first round's timer, which re-arming it has
      cancelled, closes the connection under that read. */
  lemma TimerCutsKeepAlive(q: Request, handler: RequestHandler) returns (events: seq<Event>)
    requires AsksKeepAlive(q)
    ensures events == [HandshakeDone(true), HeaderDone(true, RequestBlock(q)), Written(true), TimerReported]
    ensures PossibleEvents(OnStart(NEW_SESSION), events, handler)
    ensures var s := After(OnStart(NEW_SESSION), events, handler);
      s.closed && !s.finished && s.ops == [HeaderRead] && s.timers > 0 && s.handled == [q]
  {
    var s2 := AfterHeaderRead(q, handler);
    ServedIs(q, handler);
    WrittenKeepsAlive(s2, handler);
    var s3 := React(s2, Written(true), handler);
    TimerUnderRead(s3, handler);
    var last := TwoEvents(s2, Written(true), TimerReported, handler);
    events := FirstRound(q, last, handler);
    FourEvents(HandshakeDone(true), HeaderDone(true, RequestBlock(q)), Written(true), TimerReported);
  }

  // ---- A second request on the same connection

  /** A request parsed on top of an earlier one, and the text read ahead behind it. */
  lemma HeaderTakenOnto(q0: Request, q: Request, ahead: string)
    requires SendableHead(q) && !Swallows(CString(ahead), ":")
    ensures HeaderTaken(q0, RequestBlock(q) + ahead) == Onto(q0, q).(body := q0.body + CString(ahead))
  {
    var block, cut := RequestBlock(q), CString(ahead);
    RequestBlockHasNoNul(q);
    CStringConcat(block, ahead);
    RequestHeaderOnto(q0, q, cut);
    assert (block + cut)[|block|..] == cut;
  }

  lemma HeadOnto(q0: Request, q: Request)
    requires SendableHead(q)
    ensures HeaderTaken(q0, RequestBlock(q)) == Onto(q0, q)
  {
    var block, none := RequestBlock(q), "";
    HeaderTakenOnto(q0, q, none);
    assert block + none == block && q0.body + none == q0.body;
  }

  lemma NextHeader(s: SessionState, q: Request, handler: RequestHandler)
    requires SendableHead(q) && s.ops == [HeaderRead] && "Content-Length" !in Onto(s.request, q).header
    ensures Enabled(s, HeaderDone(true, RequestBlock(q)))
    ensures React(s, HeaderDone(true, RequestBlock(q)), handler).handled == s.handled + [Onto(s.request, q)]
  {
    var block, none := RequestBlock(q), "";
    assert Contains(block, BLANK_LINE) by {
      BlockHasBlankLine(RequestText(q), Entries(q.header), none);
      assert block + none == block;
    }
    OneOperation(HeaderRead, HeaderDone(true, block));
    HeadOnto(s.request, q);
    NoLength(Onto(s.request, q).header);
    assert s.ops[0] == HeaderRead;
    HeaderReadSteps(s.(ops := []), block, handler, Onto(s.request, q));
  }

  lemma OntoDiffers(q1: Request, q2: Request)
    requires q1.method_ != ""
    ensures Onto(q1, q2) != q2
  {
    assert |q1.method_ + q2.method_| > |q2.method_|;
  }

  /** A second request on a kept connection is never received as it was sent: the handler is shown
      both requests run together. */
  lemma SecondRequest(q1: Request, q2: Request, handler: RequestHandler) returns (events: seq<Event>)
    requires AsksKeepAlive(q1) && SendableHead(q2)
    requires "Content-Length" !in q1.header && "Content-Length" !in q2.header
    ensures events ==
      [HandshakeDone(true), HeaderDone(true, RequestBlock(q1)), Written(true), HeaderDone(true, RequestBlock(q2))]
    ensures PossibleEvents(OnStart(NEW_SESSION), events, handler)
    ensures After(OnStart(NEW_SESSION), events, handler).handled == [q1, Onto(q1, q2)] && Onto(q1, q2) != q2
  {
    assert [q1] + [Onto(q1, q2)] == [q1, Onto(q1, q2)];
    var s2, read2 := AfterHeaderRead(q1, handler), HeaderDone(true, RequestBlock(q2));
    ServedIs(q1, handler);
    WrittenKeepsAlive(s2, handler);
    NextHeader(React(s2, Written(true), handler), q2, handler);
    OntoDiffers(q1, q2);
    var last := TwoEvents(s2, Written(true), read2, handler);
    events := FirstRound(q1, last, handler);
    FourEvents(HandshakeDone(true), HeaderDone(true, RequestBlock(q1)), Written(true), read2);
  }

  lemma FourEvents(a: Event, b: Event, c: Event, d: Event)
    ensures [a, b] + [c, d] == [a, b, c, d]
  {
  }

  lemma HandshakeEnabled()
    ensures Enabled(OnStart(NEW_SESSION), HandshakeDone(true))
  {
    assert Completes(HandshakeDone(true), OnStart(NEW_SESSION).ops[0]);
  }

  lemma OneRequestField(name: string, value: string, q: Request)
    requires FieldText(name) && FieldText(value) && ':' !in name && q.header == map[name := value]
    requires FieldText(q.method_) && ' ' !in q.method_ && FieldText(q.path) && ' ' !in q.path && FieldText(q.version)
    ensures SendableHead(q)
  {
    LacksFirst(name, ":");
  }

  lemma KeepAliveExample() returns (q: Request)
    ensures AsksKeepAlive(q)
  {
    q := Request("GET", "/", "HTTP/1.1", map["Connection" := "Keep-Alive"], "");
    OneRequestField("Connection", "Keep-Alive", q);
    assert q.header["Connection"] == "Keep-Alive";
  }
}
