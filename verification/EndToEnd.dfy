/** Responses from the server's printer, or from a chunking peer, through the client's readers. */
module EndToEnd {
  import opened Text
  import opened OrderedMap
  import opened Grammar
  import opened Messages
  import opened Wire
  import opened Reader
  import opened ResponseReading

  // ---- The header stage

  lemma BlockHasNoNul(r: Response)
    requires PrintableHead(r)
    ensures '\0' !in ResponseBlock(r) && ResponseBlock(r) != ""
  {
    GoodEntries(r.header, ": ");
    LinesHaveNoNul(Entries(r.header), ": ");
    StatusTextIsLine(r);
  }

  /** A quiet payload stays quiet in every part that may be read ahead. */
  lemma QuietPrefix(x: string, y: string, stop: string)
    requires NameStop(stop) && !Swallows(CString(x + y), stop)
    ensures !Swallows(CString(x), stop)
  {
    CStringPrefix(x, y);
    var more := CString(x + y)[|CString(x)|..];
    assert CString(x + y) == CString(x) + more;
    if Swallows(CString(x), stop) {
      SwallowsExtends(CString(x), more, stop);
    }
  }

  /** What `read_until` leaves in the buffer is the block and a prefix of the payload. */
  lemma BlockRead(r: Response, payload: string, segs: seq<string>) returns (l: Link, ahead: string)
    requires PrintableHead(r) && Concat(segs) == ResponseBlock(r) + payload
    ensures ReadUntil(Link("", segs), BLANK_LINE) == (l, Ok)
    ensures l.buf == ResponseBlock(r) + ahead && ahead + Concat(l.segs) == payload
  {
    var start := Link("", segs);
    l := ReadUntil(start, BLANK_LINE).0;
    assert start.Bytes() == ResponseBlock(r) + payload;
    BlockHasBlankLine(StatusText(r), Entries(r.header), payload);
    ReadUntilExact(start, BLANK_LINE);
    GoodEntries(r.header, ": ");
    StatusTextIsLine(r);
    assert l.buf <= l.Bytes();
    BlockIsComplete(StatusText(r), Entries(r.header), ": ", payload, l.buf);
    ahead := l.buf[|ResponseBlock(r)|..];
    SplitAfter(ResponseBlock(r), ahead, Concat(l.segs), payload);
  }

  /** The reading behind the header. */
  ghost predicate AtPayload(st: Reading, r: Response, payload: string) {
    st.response == r.(body := "") && st.link.Bytes() == payload && st.ended == [] && st.progress == []
  }

  /** Under every segmentation the header is read exactly and the payload is still to come. */
  lemma HeaderRead(r: Response, payload: string, segs: seq<string>) returns (l: Link)
    requires PrintableHead(r) && Concat(segs) == ResponseBlock(r) + payload && !Swallows(CString(payload), ": ")
    ensures ReadUntil(Link("", segs), BLANK_LINE) == (l, Ok) && l.buf != ""
    ensures AtPayload(TakeHeader(Start(segs).(link := l)), r, payload)
    ensures TakeHeader(Start(segs).(link := l)).link == l.Consume(|ResponseBlock(r)|)
  {
    var ahead;
    l, ahead := BlockRead(r, payload, segs);
    QuietPrefix(ahead, Concat(l.segs), ": ");
    BlockHasNoNul(r);
    CStringConcat(ResponseBlock(r), ahead);
    HeaderExact(r, CString(ahead));
    assert l.buf[|ResponseBlock(r)|..] == ahead;
  }

  /** Delivered in one piece, a payload shaped like a field ends up in the header. */
  lemma HeaderSwallowed(r: Response, payload: string) returns (l: Link)
    requires PrintableHead(r) && Swallows(CString(payload), ": ")
    ensures var wire := ResponseBlock(r) + payload;
      && Concat([wire]) == wire
      && ReadUntil(Link("", [wire]), BLANK_LINE) == (l, Ok) && l.buf != ""
      && TakeHeader(Start([wire]).(link := l)).response.header != r.header
  {
    var wire := ResponseBlock(r) + payload;
    ConcatOne(wire);
    var ahead;
    l, ahead := BlockRead(r, payload, [wire]);
    OneSegment(wire, BLANK_LINE);
    assert ahead == payload;
    BlockHasNoNul(r);
    CStringConcat(ResponseBlock(r), ahead);
    HeaderExact(r, CString(payload));
  }

  lemma OneSegment(wire: string, d: string)
    requires d != "" && ReadUntil(Link("", [wire]), d).1 == Ok
    ensures ReadUntil(Link("", [wire]), d).0 == Link(wire, [])
  {
    assert "" + wire == wire;
    assert [wire][1..] == [];
  }

  // ---- Both forms, behind the header

  lemma SyncFromHeader(segs: seq<string>, l: Link, h: ChunkHandler)
    requires ReadUntil(Link("", segs), BLANK_LINE) == (l, Ok)
    ensures SyncRead(Start(segs), h) == SyncPayload(TakeHeader(Start(segs).(link := l)), h)
  {
  }

  lemma AsyncFromHeader(segs: seq<string>, l: Link, h: ChunkHandler)
    requires ReadUntil(Link("", segs), BLANK_LINE) == (l, Ok) && l.buf != ""
    ensures var st := TakeHeader(Start(segs).(link := l));
      var next := Route(st).1;
      AsyncRead(Start(segs), h) == if next.Wait? then AsyncRun(st, next.p, h) else (st, next.o)
  {
    var st := TakeHeader(Start(segs).(link := l));
    RouteProgress(st);
    assert Step(Start(segs), Header, h) == (st, Route(st).1);
    AsyncUnroll(Start(segs), Header, h, st, Route(st).1);
  }

  /** A payload neither chunked nor longer than a Content-Length. */
  predicate PlainPayload(header: Fields, payload: string) {
    && !IsChunked(header)
    && ("Content-Length" in header ==>
        SizeCast(header["Content-Length"]).Match? && |payload| <= SizeCast(header["Content-Length"]).value)
  }

  /** A sized read that wants no less than the stream holds ends with all of it. */
  lemma SizedReadAll(l: Link, wanted: nat)
    requires |l.Bytes()| <= wanted < SIZE_MOD
    ensures ReadAtLeast(l, SizeSub(wanted, |l.buf|)).0.buf == l.Bytes()
  {
    SizedRead(l, wanted);
    var l2 := ReadAtLeast(l, SizeSub(wanted, |l.buf|)).0;
    assert l2.buf == l2.Bytes()[..|l2.buf|];
    assert l2.Bytes()[..|l2.Bytes()|] == l2.Bytes();
  }

  /** The error code that a read of the whole payload ends with. */
  function PlainCode(header: Fields, payload: string): ErrorCode
    requires PlainPayload(header, payload)
  {
    if "Content-Length" in header && SizeCast(header["Content-Length"]).value == |payload| then Ok else Eof
  }

  /** All of the payload is taken, and the code says whether it was announced. */
  ghost predicate PlainEnd(st: Reading, st2: Reading)
    requires PlainPayload(st.response.header, st.link.Bytes())
  {
    && st2.response == Append(st.response, st.link.Bytes())
    && st2.ended == st.ended + [PlainCode(st.response.header, st.link.Bytes())]
    && st2.progress == st.progress && st2.link.Bytes() == ""
  }

  lemma AllTaken(l: Link, bytes: string, n: nat)
    requires l.buf == bytes == l.Bytes() && |bytes| <= n
    ensures l.Consume(n).Bytes() == ""
  {
    assert |l.Bytes()| == |l.buf| + |Concat(l.segs)|;
  }

  /** The sized read of a plain payload takes in all of it. */
  lemma PlainSizedRead(l: Link, wanted: nat)
    requires |l.Bytes()| <= wanted < SIZE_MOD
    ensures var (l2, ec) := ReadAtLeast(l, SizeSub(wanted, |l.buf|));
      && l2.buf == l2.Bytes() == l.Bytes() && (ec == Ok <==> wanted == |l.Bytes()|)
  {
    SizedReadAll(l, wanted);
    ReadAtLeastExact(l, SizeSub(wanted, |l.buf|));
  }

  lemma SyncPlain(st: Reading, h: ChunkHandler)
    requires PlainPayload(st.response.header, st.link.Bytes())
    ensures var (st2, o) := SyncPayload(st, h); o == Returned && PlainEnd(st, st2)
  {
    var header := st.response.header;
    if "Content-Length" in header {
      var wanted := SizeCast(header["Content-Length"]).value;
      PlainSizedRead(st.link, wanted);
      AllTaken(ReadAtLeast(st.link, SizeSub(wanted, |st.link.buf|)).0, st.link.Bytes(), wanted);
    }
  }

  /** The read that `Route` starts for a plain payload takes in all of it. */
  lemma PlainRead(st: Reading)
    requires PlainPayload(st.response.header, st.link.Bytes())
    ensures Route(st).1.Wait? && (Route(st).1.p.Rest? || Route(st).1.p.Sized?)
    ensures var (l, ec) := Complete(st.link, Route(st).1.p);
      && l.buf == l.Bytes() == st.link.Bytes()
      && ec == PlainCode(st.response.header, st.link.Bytes())
  {
    var header := st.response.header;
    if "Content-Length" in header {
      PlainSizedRead(st.link, SizeCast(header["Content-Length"]).value);
    } else {
      assert st.link.Bytes() + "" == st.link.Bytes();
    }
  }

  lemma AllReadStep(st: Reading, p: Pending, h: ChunkHandler)
    requires p.Rest? || p.Sized?
    ensures var (l, ec) := Complete(st.link, p);
      Step(st, p, h) == AfterAll(st.(link := l), ec)
  {
  }

  lemma AfterAllTakes(st: Reading, ec: ErrorCode)
    requires st.link.buf == st.link.Bytes()
    ensures var (st2, next) := AfterAll(st, ec);
      && st2.response == Append(st.response, st.link.buf) && st2.ended == st.ended + [ec]
      && st2.progress == st.progress && st2.link.Bytes() == ""
      && next == Stop(if st.link.buf == "" then ThrowIf(ec) else Returned)
  {
    AppendTwice(st.response, "", "");
    AllTaken(st.link, st.link.buf, |st.link.buf|);
  }

  /** The asynchronous form needs a byte of payload, or a length of zero, to end without an error. */
  lemma AsyncPlain(st: Reading, h: ChunkHandler)
    requires PlainPayload(st.response.header, st.link.Bytes())
    ensures Route(st).1.Wait?
    ensures var (st2, o) := AsyncRun(st, Route(st).1.p, h);
      && PlainEnd(st, st2)
      && o == if st.link.Bytes() == "" then ThrowIf(PlainCode(st.response.header, "")) else Returned
  {
    PlainRead(st);
    var p := Route(st).1.p;
    var (l, ec) := Complete(st.link, p);
    AllReadStep(st, p, h);
    AfterAllTakes(st.(link := l), ec);
    var (st2, next) := AfterAll(st.(link := l), ec);
    AsyncUnroll(st, p, h, st2, next);
  }

  // ---- Round trips

  /** RFC 7230 section 3.3.3: the header says how the end of the body is told. */
  predicate MarkedChunked(header: Fields) {
    ("Transfer-Encoding", "chunked") in header.Items
  }

  lemma ChunkedIffMarked(header: Fields)
    ensures IsChunked(header) <==> MarkedChunked(header)
  {
  }

  /** Without either mark only the end of the stream ends the body. */
  function EndCode(header: Fields): ErrorCode {
    if MarkedChunked(header) || "Content-Length" in header then Ok else Eof
  }

  /** `r` is returned, the end handler was called once, with `ec`, and just `left` was not read or
      not used. */
  ghost predicate EndsWith(result: (Reading, Outcome), r: Response, ec: ErrorCode, left: string) {
    result.1 == Returned && result.0.response == r && result.0.ended == [ec] && result.0.link.Bytes() == left
  }

  ghost predicate SyncDelivers(segs: seq<string>, h: ChunkHandler, r: Response, left: string) {
    EndsWith(SyncRead(Start(segs), h), r, EndCode(r.header), left)
  }

  ghost predicate AsyncDelivers(segs: seq<string>, h: ChunkHandler, r: Response, left: string) {
    EndsWith(AsyncRead(Start(segs), h), r, EndCode(r.header), left)
  }

  /** Not chunked, and a Content-Length, if present, spells the length of the body. */
  ghost predicate Framed(r: Response) {
    && !MarkedChunked(r.header)
    && ("Content-Length" in r.header ==> SpellsSize(r.header["Content-Length"], |r.body|))
  }

  lemma FramedIsPlain(r: Response)
    requires Framed(r)
    ensures PlainPayload(r.header, r.body) && PlainCode(r.header, r.body) == EndCode(r.header)
  {
    ChunkedIffMarked(r.header);
    if "Content-Length" in r.header {
      SizeCastExact(r.header["Content-Length"], |r.body|);
    }
  }

  lemma PrintedWithBody(r: Response)
    requires r.body != ""
    ensures PrintResponse(r) == ResponseBlock(r) + r.body
  {
    BlockSplit(StatusText(r), Entries(r.header), r.body);
  }

  lemma BodyRestored(r: Response, body: string)
    ensures Append(r.(body := ""), body) == r.(body := body)
  {
    assert "" + body == body;
  }

  lemma DeliversQuiet(r: Response, segs: seq<string>, h: ChunkHandler)
    requires PrintableHead(r) && Framed(r) && r.body != "" && !Swallows(CString(r.body), ": ")
    requires Concat(segs) == PrintResponse(r)
    ensures SyncDelivers(segs, h, r, "") && AsyncDelivers(segs, h, r, "")
  {
    PrintedWithBody(r);
    var l := HeaderRead(r, r.body, segs);
    var st := TakeHeader(Start(segs).(link := l));
    BodyRestored(r, r.body);
    FramedIsPlain(r);
    SyncFromHeader(segs, l, h);
    SyncPlain(st, h);
    AsyncFromHeader(segs, l, h);
    AsyncPlain(st, h);
  }

  /** Whatever follows, a swallowed payload leaves a wrong header behind, in both forms. */
  lemma SwallowedFails(r: Response, payload: string, h: ChunkHandler, r2: Response, left: string)
    requires PrintableHead(r) && Swallows(CString(payload), ": ") && r2.header == r.header
    ensures var wire := ResponseBlock(r) + payload;
      Concat([wire]) == wire && !SyncDelivers([wire], h, r2, left) && !AsyncDelivers([wire], h, r2, left)
  {
    var wire := ResponseBlock(r) + payload;
    var l := HeaderSwallowed(r, payload);
    SyncFromHeader([wire], l, h);
    AsyncFromHeader([wire], l, h);
    RouteProgress(TakeHeader(Start([wire]).(link := l)));
  }

  // An empty body: the printer leaves the blank line out.

  lemma NoBlankLine(r: Response)
    requires PrintableHead(r) && r.body == ""
    ensures !Contains(PrintResponse(r), BLANK_LINE) && PrintResponse(r) + CRLF == ResponseBlock(r)
  {
    var text, es := PrintResponse(r), Entries(r.header);
    assert FieldLines(es) + "" == FieldLines(es);
    Regroup(CRLF, FieldLines(es), CRLF);
    Regroup(StatusText(r), CRLF + FieldLines(es), CRLF);
    if Contains(text, BLANK_LINE) {
      var i := Find(text, BLANK_LINE);
      AtChars(text, i, BLANK_LINE);
      AtExtends(text, CRLF, i, BLANK_LINE);
      GoodEntries(r.header, ": ");
      StatusTextIsLine(r);
      assert ResponseBlock(r) + "" == ResponseBlock(r);
      BlankAtBlockEnd(StatusText(r), es, ": ", "", i);
    }
  }

  /** The synchronous reader then finds no end of the header and throws. */
  lemma EmptyBodySync(r: Response, segs: seq<string>, h: ChunkHandler)
    requires PrintableHead(r) && r.body == "" && Concat(segs) == PrintResponse(r)
    ensures SyncRead(Start(segs), h).1 == Thrown && SyncRead(Start(segs), h).0.ended == []
  {
    NoBlankLine(r);
    var start := Link("", segs);
    assert start.Bytes() == PrintResponse(r);
    ReadUntilExact(start, BLANK_LINE);
  }

  /** The client's `read` of what `response_generater` prints gives the response back under every
      segmentation if and only if the body is non-empty and does not look like a header field. */
  lemma SyncRoundTrip(r: Response, h: ChunkHandler)
    requires PrintableHead(r) && Framed(r)
    ensures (forall segs :: Concat(segs) == PrintResponse(r) ==> SyncDelivers(segs, h, r, ""))
      <==> r.body != "" && !Swallows(CString(r.body), ": ")
  {
    if r.body == "" {
      ConcatOne(PrintResponse(r));
      EmptyBodySync(r, [PrintResponse(r)], h);
    } else if Swallows(CString(r.body), ": ") {
      PrintedWithBody(r);
      SwallowedFails(r, r.body, h, r, "");
    } else {
      forall segs | Concat(segs) == PrintResponse(r) ensures SyncDelivers(segs, h, r, "") {
        DeliversQuiet(r, segs, h);
      }
    }
  }

  // The asynchronous reader goes on at the end of the stream, so it does see the header.

  lemma ReadHeaderSteps(source: string, r: Response, s1: string, es: seq<Entry>)
    requires StatusLine(source, FRESH_RESPONSE) == (r, s1) && FieldList(s1, ": ") == (es, "")
    ensures ReadHeader(source, FRESH_RESPONSE) == (r.(header := InsertAll(r.header, es)), |source|)
  {
  }

  lemma HeadWithoutBlankLine(r: Response)
    requires PrintableHead(r) && r.body == ""
    ensures ReadHeader(PrintResponse(r), FRESH_RESPONSE) == (r, |PrintResponse(r)|)
  {
    var es := Entries(r.header);
    var lines := FieldLines(es);
    GoodEntries(r.header, ": ");
    Appended(lines, es);
    StatusLineParses(r, lines);
    FieldsAlone(es, ": ");
    ReadHeaderSteps(PrintResponse(r), r.(header := map[], body := ""), lines, es);
    Rebuild(r.header);
  }

  lemma EmptyBodyHeader(r: Response, segs: seq<string>) returns (l: Link)
    requires PrintableHead(r) && r.body == "" && Concat(segs) == PrintResponse(r)
    ensures ReadUntil(Link("", segs), BLANK_LINE) == (l, Eof) && l.buf != ""
    ensures AtPayload(TakeHeader(Start(segs).(link := l)), r, "")
  {
    NoBlankLine(r);
    var text := PrintResponse(r);
    assert Link("", segs).Bytes() == text;
    ReadUntilExact(Link("", segs), BLANK_LINE);
    l := Link(text, []);
    BlockHasNoNul(r);
    assert text <= ResponseBlock(r) && text != "";
    HeadWithoutBlankLine(r);
    assert text[|text|..] == "";
  }

  lemma AsyncFromEof(segs: seq<string>, l: Link, h: ChunkHandler)
    requires ReadUntil(Link("", segs), BLANK_LINE) == (l, Eof) && l.buf != ""
    ensures var st := TakeHeader(Start(segs).(link := l));
      var next := Route(st).1;
      AsyncRead(Start(segs), h) == if next.Wait? then AsyncRun(st, next.p, h) else (st, next.o)
  {
    var st := TakeHeader(Start(segs).(link := l));
    RouteProgress(st);
    assert Step(Start(segs), Header, h) == (st, Route(st).1);
    AsyncUnroll(Start(segs), Header, h, st, Route(st).1);
  }

  lemma EmptyBodyRun(st: Reading, r: Response, h: ChunkHandler)
    requires AtPayload(st, r, "") && Framed(r) && r.body == ""
    ensures Route(st).1.Wait?
    ensures var (st2, o) := AsyncRun(st, Route(st).1.p, h);
      && st2.response == r && st2.ended == [EndCode(r.header)] && st2.link.Bytes() == ""
      && (o == Returned <==> "Content-Length" in r.header)
  {
    FramedIsPlain(r);
    AsyncPlain(st, h);
    BodyRestored(r, r.body);
  }

  lemma EmptyBodyAsync(r: Response, segs: seq<string>, h: ChunkHandler)
    requires PrintableHead(r) && Framed(r) && r.body == "" && Concat(segs) == PrintResponse(r)
    ensures AsyncDelivers(segs, h, r, "") <==> "Content-Length" in r.header
  {
    var l := EmptyBodyHeader(r, segs);
    AsyncFromEof(segs, l, h);
    EmptyBodyRun(TakeHeader(Start(segs).(link := l)), r, h);
  }

  /** The same through the asynchronous reader, which also manages an empty body if a
      Content-Length announces it: there the two forms differ. */
  lemma AsyncRoundTrip(r: Response, h: ChunkHandler)
    requires PrintableHead(r) && Framed(r)
    ensures (forall segs :: Concat(segs) == PrintResponse(r) ==> AsyncDelivers(segs, h, r, ""))
      <==> (r.body != "" || "Content-Length" in r.header) && !Swallows(CString(r.body), ": ")
  {
    if r.body == "" {
      ConcatOne(PrintResponse(r));
      EmptyBodyAsync(r, [PrintResponse(r)], h);
      forall segs | Concat(segs) == PrintResponse(r)
        ensures AsyncDelivers(segs, h, r, "") <==> "Content-Length" in r.header
      {
        EmptyBodyAsync(r, segs, h);
      }
    } else if Swallows(CString(r.body), ": ") {
      PrintedWithBody(r);
      SwallowedFails(r, r.body, h, r, "");
    } else {
      forall segs | Concat(segs) == PrintResponse(r) ensures AsyncDelivers(segs, h, r, "") {
        DeliversQuiet(r, segs, h);
      }
    }
  }

  /** A response that comes through unharmed. */
  ghost predicate Sendable(r: Response) {
    PrintableHead(r) && Framed(r) && r.body != "" && !Swallows(CString(r.body), ": ")
  }

  /** The reading half of `sync_connection::send`: a fresh reader on the answering stream. */
  method SyncResponse(segs: seq<string>, h: ChunkHandler) returns (response: Response, o: Outcome)
    ensures forall r :: Sendable(r) && Concat(segs) == PrintResponse(r) ==> o == Returned && response == r
  {
    var socket := new Socket(segs);
    var reader := new HttpReader();
    o := reader.ReadStarter(socket, h);
    response := reader.response;
    forall r | Sendable(r) && Concat(segs) == PrintResponse(r) ensures SyncDelivers(segs, h, r, "") {
      DeliversQuiet(r, segs, h);
    }
  }

  /** `async_connection::send`, once the request is written. */
  method AsyncResponse(segs: seq<string>, h: ChunkHandler) returns (response: Response, o: Outcome)
    ensures forall r :: Sendable(r) && Concat(segs) == PrintResponse(r) ==> o == Returned && response == r
  {
    var socket := new Socket(segs);
    var reader := new HttpReader();
    o := reader.AsyncReadStarter(socket, h);
    response := reader.response;
    forall r | Sendable(r) && Concat(segs) == PrintResponse(r) ensures AsyncDelivers(segs, h, r, "") {
      DeliversQuiet(r, segs, h);
    }
  }

  // ---- Responses that are not there, or not all there

  /** A stream without a blank line: the synchronous reader throws with nothing done. */
  lemma NoHeaderEnd(segs: seq<string>, h: ChunkHandler)
    requires !Contains(Concat(segs), BLANK_LINE)
    ensures SyncRead(Start(segs), h).0 == Reading(Link(Concat(segs), []), Response("", 0, "", map[], ""), [], [])
    ensures SyncRead(Start(segs), h).1 == Thrown
  {
    var start := Link("", segs);
    assert start.Bytes() == Concat(segs);
    ReadUntilExact(start, BLANK_LINE);
    assert ReadUntil(start, BLANK_LINE) == (Link(Concat(segs), []), Eof);
  }

  /** An empty one: the asynchronous reader tells its end handler `eof` before it throws. */
  lemma NoResponse(segs: seq<string>, h: ChunkHandler)
    requires Concat(segs) == ""
    ensures AsyncRead(Start(segs), h).0 == Reading(Link("", []), Response("", 0, "", map[], ""), [Eof], [])
    ensures AsyncRead(Start(segs), h).1 == Thrown
  {
    var start := Link("", segs);
    assert start.Bytes() == "";
    ReadUntilExact(start, BLANK_LINE);
    var st := End(Start([]), Eof);
    assert Step(Start(segs), Header, h) == (st, Stop(Thrown));
    AsyncUnroll(Start(segs), Header, h, st, Stop(Thrown));
  }

  ghost predicate SpellsNoSize(s: string) {
    forall n: nat :: !SpellsSize(s, n)
  }

  lemma NoSizeNoCast(s: string)
    ensures SizeCast(s).Fail? <==> SpellsNoSize(s)
  {
    if SizeCast(s).Match? {
      SizeCastExact(s, SizeCast(s).value);
    } else {
      forall n: nat ensures !SpellsSize(s, n) {
        SizeCastExact(s, n);
      }
    }
  }

  /** Both forms end with `bad_lexical_cast`, and without a word to the end handler, exactly when
      the Content-Length is not a number that fits `size_t`. */
  lemma BadLengthExact(r: Response, payload: string, segs: seq<string>, h: ChunkHandler)
    requires PrintableHead(r) && !MarkedChunked(r.header) && "Content-Length" in r.header
    requires Concat(segs) == ResponseBlock(r) + payload && !Swallows(CString(payload), ": ")
    ensures SyncRead(Start(segs), h).1 == BadCast <==> SpellsNoSize(r.header["Content-Length"])
    ensures AsyncRead(Start(segs), h).1 == BadCast <==> SpellsNoSize(r.header["Content-Length"])
    ensures SpellsNoSize(r.header["Content-Length"]) ==>
      var st, st' := SyncRead(Start(segs), h).0, AsyncRead(Start(segs), h).0;
      st.ended == st'.ended == [] && st.response == st'.response == r.(body := "")
  {
    var l := HeaderRead(r, payload, segs);
    var st := TakeHeader(Start(segs).(link := l));
    ChunkedIffMarked(r.header);
    NoSizeNoCast(r.header["Content-Length"]);
    SyncFromHeader(segs, l, h);
    AsyncFromHeader(segs, l, h);
    if SizeCast(r.header["Content-Length"]).Match? {
      SizedNeverBad(st, SizeCast(r.header["Content-Length"]).value, h);
    }
  }

  lemma SizedNeverBad(st: Reading, length: nat, h: ChunkHandler)
    ensures AsyncRun(st, Sized(length), h).1 != BadCast
  {
    AllReadStep(st, Sized(length), h);
    var (st2, next) := Step(st, Sized(length), h);
    AsyncUnroll(st, Sized(length), h, st2, next);
  }

  // ---- More bytes than announced

  /** A response whose header announces `n` bytes, in front of any payload. */
  ghost predicate Announces(r: Response, payload: string, n: nat) {
    && PrintableHead(r) && !MarkedChunked(r.header) && !Swallows(CString(payload), ": ")
    && "Content-Length" in r.header && SpellsSize(r.header["Content-Length"], n)
  }

  lemma AnnouncedCast(r: Response, payload: string, n: nat)
    requires Announces(r, payload, n)
    ensures !IsChunked(r.header) && SizeCast(r.header["Content-Length"]) == Match(n, "") && n < SIZE_MOD
  {
    ChunkedIffMarked(r.header);
    SizeCastExact(r.header["Content-Length"], n);
  }

  function AnnouncedPart(payload: string, n: nat): string {
    if |payload| < n then payload else payload[..n]
  }

  ghost predicate SyncBody(segs: seq<string>, h: ChunkHandler, body: string) {
    SyncRead(Start(segs), h).0.response.body == body
  }

  ghost predicate AsyncBody(segs: seq<string>, h: ChunkHandler, body: string) {
    AsyncRead(Start(segs), h).0.response.body == body
  }

  /** A peer that sends no more than it announced: both forms hand over what came, and the end
      handler is told `eof` exactly when something is missing. */
  lemma SizedBodyEnds(r: Response, payload: string, n: nat, segs: seq<string>, h: ChunkHandler)
    requires Announces(r, payload, n) && |payload| <= n && Concat(segs) == ResponseBlock(r) + payload
    ensures var ec := if |payload| == n then Ok else Eof;
      && EndsWith(SyncRead(Start(segs), h), r.(body := payload), ec, "")
      && (payload != "" || n == 0 ==> EndsWith(AsyncRead(Start(segs), h), r.(body := payload), ec, ""))
    ensures SyncBody(segs, h, payload) && AsyncBody(segs, h, payload)
  {
    AnnouncedCast(r, payload, n);
    var l := HeaderRead(r, payload, segs);
    var st := TakeHeader(Start(segs).(link := l));
    SyncFromHeader(segs, l, h);
    SyncPlain(st, h);
    AsyncFromHeader(segs, l, h);
    AsyncPlain(st, h);
    BodyRestored(r, payload);
  }

  /** The sized read wraps around and meets the end of the stream, unless it wraps to nothing. */
  function SurplusCode(announced: nat, came: nat): (ec: ErrorCode)
    ensures announced < came < SIZE_MOD ==> ec == Eof
  {
    if SizeSub(announced, came) == 0 then Ok else Eof
  }

  /** With the stream at its end, a sized read leaves the buffer as it is. */
  lemma ReadAheadTaken(st: Reading, r: Response, payload: string, n: nat, h: ChunkHandler)
    requires AtPayload(st, r, payload) && st.link == Link(payload, []) && n < |payload|
    requires !IsChunked(r.header) && "Content-Length" in r.header
    requires SizeCast(r.header["Content-Length"]) == Match(n, "")
    ensures EndsWith(SyncPayload(st, h), r.(body := payload), SurplusCode(n, |payload|), payload[n..])
    ensures Route(st) == (st, Wait(Sized(n)))
    ensures EndsWith(AsyncRun(st, Sized(n), h), r.(body := payload), SurplusCode(n, |payload|), "")
  {
    assert payload[n..] + "" == payload[n..];
    BodyRestored(r, payload);
    var ec := SurplusCode(n, |payload|);
    assert ReadAtLeast(st.link, SizeSub(n, |payload|)) == (st.link, ec);
    AllReadStep(st, Sized(n), h);
    AfterAllTakes(st, ec);
    var (st2, next) := AfterAll(st, ec);
    AsyncUnroll(st, Sized(n), h, st2, next);
  }

  lemma WholeReadAhead(r: Response, payload: string) returns (st: Reading)
    requires PrintableHead(r) && !Swallows(CString(payload), ": ")
    ensures AtPayload(st, r, payload) && st.link == Link(payload, [])
    ensures var wire := ResponseBlock(r) + payload;
      && Concat([wire]) == wire && ReadUntil(Link("", [wire]), BLANK_LINE).1 == Ok
      && ReadUntil(Link("", [wire]), BLANK_LINE).0.buf != ""
      && st == TakeHeader(Start([wire]).(link := ReadUntil(Link("", [wire]), BLANK_LINE).0))
  {
    var wire := ResponseBlock(r) + payload;
    ConcatOne(wire);
    var l := HeaderRead(r, payload, [wire]);
    OneSegment(wire, BLANK_LINE);
    st := TakeHeader(Start([wire]).(link := l));
    assert wire[|ResponseBlock(r)|..] == payload;
  }

  /** More than announced, in one piece: both forms append it all and report `eof`; behind the
      synchronous form the surplus is still in the buffer as well. */
  lemma SurplusTaken(r: Response, payload: string, n: nat, h: ChunkHandler)
    requires Announces(r, payload, n) && n < |payload|
    ensures var segs := [ResponseBlock(r) + payload];
      && Concat(segs) == ResponseBlock(r) + payload
      && EndsWith(SyncRead(Start(segs), h), r.(body := payload), SurplusCode(n, |payload|), payload[n..])
      && EndsWith(AsyncRead(Start(segs), h), r.(body := payload), SurplusCode(n, |payload|), "")
  {
    var segs := [ResponseBlock(r) + payload];
    AnnouncedCast(r, payload, n);
    var st := WholeReadAhead(r, payload);
    var l := ReadUntil(Link("", segs), BLANK_LINE).0;
    SyncFromHeader(segs, l, h);
    AsyncFromHeader(segs, l, h);
    ReadAheadTaken(st, r, payload, n, h);
  }

  ghost predicate SyncAlways(wire: string, h: ChunkHandler, body: string) {
    forall segs :: Concat(segs) == wire ==> SyncBody(segs, h, body)
  }

  ghost predicate AsyncAlways(wire: string, h: ChunkHandler, body: string) {
    forall segs :: Concat(segs) == wire ==> AsyncBody(segs, h, body)
  }

  lemma AlwaysAll(r: Response, payload: string, n: nat, h: ChunkHandler)
    requires Announces(r, payload, n) && |payload| <= n
    ensures var wire := ResponseBlock(r) + payload;
      SyncAlways(wire, h, payload) && AsyncAlways(wire, h, payload)
  {
    forall segs | Concat(segs) == ResponseBlock(r) + payload
      ensures SyncBody(segs, h, payload) && AsyncBody(segs, h, payload)
    {
      SizedBodyEnds(r, payload, n, segs, h);
    }
  }

  lemma NotAlwaysLess(r: Response, payload: string, n: nat, h: ChunkHandler, body: string)
    requires Announces(r, payload, n) && n < |payload| && body != payload
    ensures var wire := ResponseBlock(r) + payload;
      !SyncAlways(wire, h, body) && !AsyncAlways(wire, h, body)
  {
    SurplusTaken(r, payload, n, h);
    var segs := [ResponseBlock(r) + payload];
    assert !SyncBody(segs, h, body) && !AsyncBody(segs, h, body);
  }

  lemma AnnouncedIs(payload: string, n: nat)
    ensures AnnouncedPart(payload, n) == payload <==> |payload| <= n
  {
  }

  /** With a Content-Length, the body is the announced prefix of the payload under every
      segmentation if and only if the peer sends no more than it announced: surplus bytes that
      were read ahead are appended as well, by both forms. */
  lemma SizedBodyExact(r: Response, payload: string, n: nat, h: ChunkHandler)
    requires Announces(r, payload, n)
    ensures SyncAlways(ResponseBlock(r) + payload, h, AnnouncedPart(payload, n)) <==> |payload| <= n
    ensures AsyncAlways(ResponseBlock(r) + payload, h, AnnouncedPart(payload, n)) <==> |payload| <= n
  {
    AnnouncedIs(payload, n);
    if |payload| <= n {
      AlwaysAll(r, payload, n, h);
    } else {
      NotAlwaysLess(r, payload, n, h, AnnouncedPart(payload, n));
    }
  }
}
