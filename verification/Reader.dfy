/** `connection_base::reader`: a response read from a socket, in the synchronous form of mutual
    recursion and in the asynchronous form of a chain of callbacks.

    `Reading` is the state both forms work on; the functions are their specification, for every
    stream, and the class holds the imperative readers proved equal to them. */
module Reader {
  import opened Text
  import opened OrderedMap
  import opened Grammar
  import opened Messages
  import opened Wire

  /** The chunk handler: shown the response so far and the error of the last read, it says
      whether to go on. */
  type ChunkHandler = (Response, ErrorCode) -> bool

  datatype Reading = Reading(
    link: Link,
    response: Response,
    ended: seq<ErrorCode>,    // calls of the end handler
    progress: seq<Response>)  // calls of the chunk handler

  /** How a read ends: normally, with an Asio exception, with `bad_lexical_cast`, by reading a
      chunk size that was never set, or (asynchronously) by re-arming the same read forever. */
  datatype Outcome = Returned | Thrown | BadCast | Undefined | Spinning

  function Start(segs: seq<string>): Reading {
    Reading(Link("", segs), FRESH_RESPONSE, [], [])
  }

  predicate IsChunked(header: Fields) {
    "Transfer-Encoding" in header && header["Transfer-Encoding"] == "chunked"
  }

  /** Parse the header out of the buffer and drop it there. */
  function TakeHeader(st: Reading): Reading {
    var (response, n) := ReadHeader(CString(st.link.buf), st.response);
    st.(response := response, link := st.link.Consume(n))
  }

  function Append(r: Response, data: string): Response {
    r.(body := r.body + data)
  }

  function End(st: Reading, ec: ErrorCode): Reading {
    st.(ended := st.ended + [ec])
  }

  /** The chunk in front of the buffer becomes body, and the chunk handler is told. */
  function TakeChunk(st: Reading, n: nat): Reading
    requires n <= |st.link.buf|
  {
    var response := Append(st.response, st.link.buf[..n]);
    st.(response := response, link := st.link.Consume(n + 2), progress := st.progress + [response])
  }

  // ---- The synchronous form

  /** The size line at the front of the stream, and what is left when it is consumed. */
  function TakeSizeLine(l: Link): (Parsed<nat>, Link) {
    var l1 := ReadUntil(l, CRLF).0;
    var line := ChunkLine(CString(l1.buf));
    (line, if line.Fail? then l1 else l1.Consume(|CString(l1.buf)| - |line.rest|))
  }

  lemma SizeLineShrinks(l: Link)
    ensures var (line, l2) := TakeSizeLine(l); line.Match? ==> |l2.Bytes()| < |l.Bytes()|
  {
    ReadUntilExact(l, CRLF);
  }

  function SyncChunkSize(st: Reading, h: ChunkHandler): (result: (Reading, Outcome))
    ensures result.0.response.header == st.response.header
    decreases |st.link.Bytes()|
  {
    SizeLineShrinks(st.link);
    var (line, l) := TakeSizeLine(st.link);
    var st2 := st.(link := l);
    if line.Fail? then (st2, Undefined)
    else if line.value == 0 then (st2, Returned)
    else SyncChunkBody(st2, line.value, h)
  }

  function SyncChunkBody(st: Reading, chunk: nat, h: ChunkHandler): (result: (Reading, Outcome))
    ensures result.0.response.header == st.response.header
    decreases |st.link.Bytes()|
  {
    ReadAtLeastExact(st.link, SizeSub(chunk + 2, |st.link.buf|));
    var (l, ec) := ReadAtLeast(st.link, SizeSub(chunk + 2, |st.link.buf|));
    if |l.buf| < chunk + 2 then (End(st.(link := l), ec), Thrown) else
      var st2 := TakeChunk(st.(link := l), chunk);
      if !h(st2.response, ec) then (st2, Returned) else SyncChunkSize(st2, h)
  }

  /** `read_starter` behind the header. */
  function SyncPayload(st: Reading, h: ChunkHandler): (result: (Reading, Outcome))
    ensures result.0.response.header == st.response.header
  {
    var header := st.response.header;
    if IsChunked(header) then
      var (st2, o) := SyncChunkSize(st, h);
      if o == Returned then (End(st2, Ok), o) else (st2, o)
    else if "Content-Length" !in header then
      var (l, ec) := ReadAll(st.link);
      (End(st.(link := l.Consume(|l.buf|), response := Append(st.response, l.buf)), ec), Returned)
    else
      match SizeCast(header["Content-Length"])
      case Fail => (st, BadCast)
      case Match(length, _) =>
        var (l, ec) := ReadAtLeast(st.link, SizeSub(length, |st.link.buf|));
        (End(st.(link := l.Consume(length), response := Append(st.response, l.buf)), ec), Returned)
  }

  /** `read_starter` */
  function SyncRead(st: Reading, h: ChunkHandler): (Reading, Outcome) {
    var (l, ec) := ReadUntil(st.link, BLANK_LINE);
    if ec == Eof then (st.(link := l), Thrown) else SyncPayload(TakeHeader(st.(link := l)), h)
  }

  // ---- The asynchronous form

  /** The read in flight, named after the callback it completes into. */
  datatype Pending =
    | Header
    | ChunkSize
    | ChunkBody(chunk: nat)
    | Rest                  // transfer_all, into async_read_all
    | Sized(length: nat)    // transfer_at_least(length - buffered), into async_read_all
    | Finish

  /** What a callback leads to: another read, the end, or the very read that called it. */
  datatype Next = Wait(p: Pending) | Stop(o: Outcome) | Again

  function Complete(l: Link, p: Pending): (Link, ErrorCode) {
    match p
    case Header => ReadUntil(l, BLANK_LINE)
    case ChunkSize => ReadUntil(l, CRLF)
    case ChunkBody(chunk) => ReadAtLeast(l, SizeSub(chunk + 2, |l.buf|))
    case Rest => ReadAll(l)
    case Sized(length) => ReadAtLeast(l, SizeSub(length, |l.buf|))
    case Finish => ReadAtLeast(l, 0)
  }

  /** `throw_error` throws only a set error. */
  function ThrowIf(ec: ErrorCode): Outcome {
    if ec == Ok then Returned else Thrown
  }

  /** The parsed header decides how the body is read. */
  function Route(st: Reading): (Reading, Next) {
    var header := st.response.header;
    if IsChunked(header) then (st, Wait(ChunkSize))
    else if "Content-Length" !in header then (st, Wait(Rest))
    else
      match SizeCast(header["Content-Length"])
      case Fail => (st, Stop(BadCast))
      case Match(length, _) => (st, Wait(Sized(length)))
  }

  /** With an empty buffer the end handler is told; the callback goes on unless `ec` is set. */
  function AfterHeader(st: Reading, ec: ErrorCode): (Reading, Next) {
    if st.link.buf != "" then Route(TakeHeader(st))
    else if ec != Ok then (End(st, ec), Stop(Thrown))
    else Route(TakeHeader(End(st, ec)))
  }

  function AfterAll(st: Reading, ec: ErrorCode): (Reading, Next) {
    if st.link.buf == "" then (End(st, ec), Stop(ThrowIf(ec))) else
      (End(st.(response := Append(st.response, st.link.buf), link := st.link.Consume(|st.link.buf|)), ec),
       Stop(Returned))
  }

  function AfterChunkSize(st: Reading, ec: ErrorCode): (Reading, Next) {
    if st.link.buf == "" then (End(st, ec), Stop(ThrowIf(ec)))
    else if |st.link.buf| <= 2 then (st, Again)
    else
      match ChunkLine(CString(st.link.buf))
      case Fail => (st, Stop(Undefined))
      case Match(chunk, rest) =>
        var st2 := st.(link := st.link.Consume(|CString(st.link.buf)| - |rest|));
        (st2, Wait(if chunk == 0 then Finish else ChunkBody(chunk)))
  }

  /** Too short a buffer ends the chain without a word to any handler. */
  function AfterChunkBody(st: Reading, chunk: nat, ec: ErrorCode, h: ChunkHandler): (Reading, Next) {
    if st.link.buf == "" then (End(st, ec), Stop(ThrowIf(ec)))
    else if |st.link.buf| < chunk + 2 then (st, Stop(Returned))
    else
      var st2 := TakeChunk(st, chunk);
      (st2, if h(st2.response, ec) then Wait(ChunkSize) else Stop(Returned))
  }

  function Callback(st: Reading, p: Pending, ec: ErrorCode, h: ChunkHandler): (Reading, Next) {
    match p
    case Header => AfterHeader(st, ec)
    case ChunkSize => AfterChunkSize(st, ec)
    case ChunkBody(chunk) => AfterChunkBody(st, chunk, ec, h)
    case Rest => AfterAll(st, ec)
    case Sized(_) => AfterAll(st, ec)
    case Finish => (End(st, ec), Stop(Returned))
  }

  /** One completed read and its callback. */
  function Step(st: Reading, p: Pending, h: ChunkHandler): (Reading, Next) {
    var (l, ec) := Complete(st.link, p);
    Callback(st.(link := l), p, ec, h)
  }

  function Rank(p: Pending): nat {
    if p.Header? then 1 else 0
  }

  lemma CompleteKeepsBytes(l: Link, p: Pending)
    ensures Complete(l, p).0.Bytes() == l.Bytes()
  {
    match p
    case Header => ReadUntilExact(l, BLANK_LINE);
    case ChunkSize => ReadUntilExact(l, CRLF);
    case ChunkBody(chunk) => ReadAtLeastExact(l, SizeSub(chunk + 2, |l.buf|));
    case Rest => assert l.Bytes() + Concat([]) == l.Bytes();
    case Sized(length) => ReadAtLeastExact(l, SizeSub(length, |l.buf|));
    case Finish => ReadAtLeastExact(l, 0);
  }

  lemma ConsumeBytes(l: Link, n: nat)
    ensures |l.Consume(n).Bytes()| == |l.Bytes()| - (if n <= |l.buf| then n else |l.buf|)
  {
  }

  /** A callback never adds bytes, removes some before it asks for another chunk read, and
      never goes back to the header. */
  ghost predicate Progresses(st: Reading, p: Pending, result: (Reading, Next)) {
    var (st2, next) := result;
    && |st2.link.Bytes()| <= |st.link.Bytes()|
    && (next.Wait? ==> Rank(next.p) < Rank(p) || |st2.link.Bytes()| < |st.link.Bytes()|)
    && (next.Wait? ==> !next.p.Header?)
    && (!p.Header? ==> st2.response.header == st.response.header)
  }

  lemma TakeHeaderBytes(st: Reading)
    ensures |TakeHeader(st).link.Bytes()| <= |st.link.Bytes()|
  {
    ConsumeBytes(st.link, ReadHeader(CString(st.link.buf), st.response).1);
  }

  lemma RouteProgress(st: Reading)
    ensures Route(st).0 == st && (Route(st).1.Wait? ==> !Route(st).1.p.Header?)
  {
  }

  lemma RoutedProgress(st: Reading)
    ensures Progresses(st, Header, Route(TakeHeader(st)))
  {
    TakeHeaderBytes(st);
    RouteProgress(TakeHeader(st));
  }

  lemma HeaderProgress(st: Reading, ec: ErrorCode)
    ensures Progresses(st, Header, AfterHeader(st, ec))
  {
    RoutedProgress(if st.link.buf == "" then End(st, ec) else st);
  }

  lemma ChunkSizeProgress(st: Reading, ec: ErrorCode)
    ensures Progresses(st, ChunkSize, AfterChunkSize(st, ec))
  {
    var line := ChunkLine(CString(st.link.buf));
    if line.Match? {
      ConsumeBytes(st.link, |CString(st.link.buf)| - |line.rest|);
    }
  }

  lemma CallbackProgress(st: Reading, p: Pending, ec: ErrorCode, h: ChunkHandler)
    ensures Progresses(st, p, Callback(st, p, ec, h))
  {
    match p
    case Header => HeaderProgress(st, ec);
    case ChunkSize => ChunkSizeProgress(st, ec);
    case ChunkBody(chunk) => ConsumeBytes(st.link, chunk + 2);
    case Rest => ConsumeBytes(st.link, |st.link.buf|);
    case Sized(_) => ConsumeBytes(st.link, |st.link.buf|);
    case Finish =>
  }

  /** The whole chain of callbacks. */
  function AsyncRun(st: Reading, p: Pending, h: ChunkHandler): (result: (Reading, Outcome))
    ensures !p.Header? ==> result.0.response.header == st.response.header
    decreases |st.link.Bytes()| + Rank(p), |st.link.Bytes()|
  {
    CompleteKeepsBytes(st.link, p);
    CallbackProgress(st.(link := Complete(st.link, p).0), p, Complete(st.link, p).1, h);
    var (st2, next) := Step(st, p, h);
    match next
    case Wait(q) => AsyncRun(st2, q, h)
    case Stop(o) => (st2, o)
    case Again => (st2, Spinning)
  }

  /** `async_read_starter` */
  function AsyncRead(st: Reading, h: ChunkHandler): (Reading, Outcome) {
    AsyncRun(st, Header, h)
  }

  /** What a callback leads to when its own completion leads to it again, `n` times over. */
  function Repeated(callback: Reading -> (Reading, Next), st: Reading, n: nat): (Reading, Next) {
    callback(if n == 0 then st else Repeated(callback, st, n - 1).0)
  }

  lemma {:induction false} FixedPoint(callback: Reading -> (Reading, Next), st: Reading, n: nat)
    requires callback(callback(st).0) == callback(st)
    ensures Repeated(callback, st, n) == callback(st)
  {
    if n > 0 {
      FixedPoint(callback, st, n - 1);
    }
  }

  function SizeLineCallback(h: ChunkHandler): Reading -> (Reading, Next) {
    st => Step(st, ChunkSize, h)
  }

  lemma ReadAgain(l: Link)
    ensures var (l2, ec) := ReadUntil(l, CRLF); ReadUntil(l2, CRLF) == (l2, ec)
  {
    ReadUntilExact(l, CRLF);
  }

  lemma StepAgain(st: Reading, h: ChunkHandler)
    requires Step(st, ChunkSize, h).1 == Again
    ensures Step(Step(st, ChunkSize, h).0, ChunkSize, h) == Step(st, ChunkSize, h)
  {
    ReadAgain(st.link);
  }

  /** After a read that ends with one or two characters in the buffer, each re-armed read completes
      at once with nothing changed and is re-armed again: the chain calls itself for ever. */
  lemma RearmedForever(st: Reading, n: nat, h: ChunkHandler)
    requires 1 <= |ReadUntil(st.link, CRLF).0.buf| <= 2
    ensures Repeated(SizeLineCallback(h), st, n) == (Step(st, ChunkSize, h).0, Again)
  {
    StepAgain(st, h);
    FixedPoint(SizeLineCallback(h), st, n);
  }

  // ---- The imperative readers

  class HttpReader {
    var readBuf: string
    var response: Response
    var ended: seq<ErrorCode>
    var progress: seq<Response>
    var pending: Pending

    constructor ()
      ensures readBuf == "" && response == FRESH_RESPONSE && ended == [] && progress == []
    {
      readBuf, response, ended, progress, pending := "", FRESH_RESPONSE, [], [], Header;
    }

    function State(socket: Socket): Reading
      reads this, socket
    {
      Reading(Link(readBuf, socket.segments), response, ended, progress)
    }

    method Consume(n: nat)
      modifies this`readBuf
      ensures forall segs :: Link(readBuf, segs) == Link(old(readBuf), segs).Consume(n)
    {
      readBuf := if n <= |readBuf| then readBuf[n..] else "";
    }

    method ParseHeader(socket: Socket)
      modifies this`readBuf, this`response
      ensures State(socket) == TakeHeader(old(State(socket)))
    {
      var (parsed, n) := ReadHeader(CString(readBuf), response);
      response := parsed;
      Consume(n);
    }

    method CallEndHandler(ec: ErrorCode)
      modifies this`ended
      ensures ended == old(ended) + [ec]
    {
      ended := ended + [ec];
    }

    method CallChunkHandler(ec: ErrorCode, h: ChunkHandler) returns (more: bool)
      modifies this`progress
      ensures progress == old(progress) + [response] && more == h(response, ec)
    {
      progress := progress + [response];
      more := h(response, ec);
    }

    /** The chunk in front of the buffer becomes body, and the chunk handler is asked. */
    method StoreChunk(socket: Socket, chunk: nat, ec: ErrorCode, h: ChunkHandler) returns (more: bool)
      requires chunk <= |readBuf|
      modifies this`readBuf, this`response, this`progress
      ensures State(socket) == TakeChunk(old(State(socket)), chunk) && more == h(response, ec)
    {
      response := response.(body := response.body + readBuf[..chunk]);
      Consume(chunk + 2);
      more := CallChunkHandler(ec, h);
    }

    /** The size line is read and, if it parses, consumed. */
    method ReadSizeLine(socket: Socket) returns (line: Parsed<nat>)
      modifies this`readBuf, socket
      ensures line == TakeSizeLine(old(State(socket)).link).0
      ensures State(socket) == old(State(socket)).(link := TakeSizeLine(old(State(socket)).link).1)
    {
      var ec;
      readBuf, ec := socket.Until(readBuf, CRLF);
      line := ChunkLine(CString(readBuf));
      if line.Match? {
        Consume(|CString(readBuf)| - |line.rest|);
      }
    }

    /** `read_chunk_size` */
    method ReadChunkSize(socket: Socket, h: ChunkHandler) returns (o: Outcome)
      modifies this, socket
      ensures (State(socket), o) == SyncChunkSize(old(State(socket)), h)
      decreases |Link(readBuf, socket.segments).Bytes()|
    {
      SizeLineShrinks(Link(readBuf, socket.segments));
      var line := ReadSizeLine(socket);
      if line.Fail? {
        return Undefined;
      }
      if line.value == 0 {
        return Returned;
      }
      o := ReadChunkBody(socket, line.value, h);
    }

    /** `read_chunk_body` */
    method ReadChunkBody(socket: Socket, chunk: nat, h: ChunkHandler) returns (o: Outcome)
      modifies this, socket
      ensures (State(socket), o) == SyncChunkBody(old(State(socket)), chunk, h)
      decreases |Link(readBuf, socket.segments).Bytes()|
    {
      ReadAtLeastExact(Link(readBuf, socket.segments), SizeSub(chunk + 2, |readBuf|));
      var ec;
      readBuf, ec := socket.AtLeast(readBuf, SizeSub(chunk + 2, |readBuf|));
      if |readBuf| < chunk + 2 {
        CallEndHandler(ec);
        return Thrown;
      }
      ConsumeBytes(State(socket).link, chunk + 2);
      var more := StoreChunk(socket, chunk, ec, h);
      if !more {
        return Returned;
      }
      o := ReadChunkSize(socket, h);
    }

    /** `read_starter` behind the header. */
    method ReadPayload(socket: Socket, h: ChunkHandler) returns (o: Outcome)
      modifies this, socket
      ensures (State(socket), o) == SyncPayload(old(State(socket)), h)
    {
      var ec := Ok;
      if IsChunked(response.header) {
        o := ReadChunkSize(socket, h);
        if o != Returned {
          return;
        }
      } else if "Content-Length" !in response.header {
        readBuf, ec := socket.All(readBuf);
        response := response.(body := response.body + readBuf);
        Consume(|readBuf|);
      } else {
        var cast := SizeCast(response.header["Content-Length"]);
        if cast.Fail? {
          return BadCast;
        }
        var contentLength := cast.value;
        readBuf, ec := socket.AtLeast(readBuf, SizeSub(contentLength, |readBuf|));
        response := response.(body := response.body + readBuf);
        Consume(contentLength);
      }
      CallEndHandler(ec);
      o := Returned;
    }

    /** `read_starter` */
    method ReadStarter(socket: Socket, h: ChunkHandler) returns (o: Outcome)
      modifies this, socket
      ensures (State(socket), o) == SyncRead(old(State(socket)), h)
    {
      var headerEc;
      readBuf, headerEc := socket.Until(readBuf, BLANK_LINE);
      if headerEc == Eof {
        return Thrown;
      }
      ParseHeader(socket);
      o := ReadPayload(socket, h);
    }

    /** The parsed header decides which read comes next. */
    method ChooseRead(socket: Socket) returns (next: Next)
      ensures (State(socket), next) == Route(State(socket))
    {
      if IsChunked(response.header) {
        next := Wait(ChunkSize);
      } else if "Content-Length" !in response.header {
        next := Wait(Rest);
      } else {
        var cast := SizeCast(response.header["Content-Length"]);
        next := if cast.Fail? then Stop(BadCast) else Wait(Sized(cast.value));
      }
    }

    /** `async_read_header` behind its check. */
    method RouteByHeader(socket: Socket) returns (next: Next)
      modifies this`readBuf, this`response
      ensures (State(socket), next) == Route(TakeHeader(old(State(socket))))
    {
      ParseHeader(socket);
      next := ChooseRead(socket);
    }

    /** `async_read_header` */
    method AsyncReadHeader(socket: Socket, ec: ErrorCode) returns (next: Next)
      modifies this`readBuf, this`response, this`ended, this`progress
      ensures (State(socket), next) == AfterHeader(old(State(socket)), ec)
    {
      if |readBuf| == 0 {
        CallEndHandler(ec);
        assert State(socket) == End(old(State(socket)), ec);
        if ec != Ok {
          return Stop(Thrown);
        }
      }
      next := RouteByHeader(socket);
    }

    /** `async_read_all` */
    method AsyncReadAll(socket: Socket, ec: ErrorCode) returns (next: Next)
      modifies this`readBuf, this`response, this`ended, this`progress
      ensures (State(socket), next) == AfterAll(old(State(socket)), ec)
    {
      if |readBuf| == 0 {
        CallEndHandler(ec);
        return Stop(ThrowIf(ec));
      }
      response := response.(body := response.body + readBuf);
      Consume(|readBuf|);
      CallEndHandler(ec);
      next := Stop(Returned);
    }

    /** `async_read_chunk_size` */
    method AsyncReadChunkSize(socket: Socket, ec: ErrorCode) returns (next: Next)
      modifies this`readBuf, this`response, this`ended, this`progress
      ensures (State(socket), next) == AfterChunkSize(old(State(socket)), ec)
    {
      if |readBuf| == 0 {
        CallEndHandler(ec);
        return Stop(ThrowIf(ec));
      }
      if |readBuf| <= 2 {
        return Again;
      }
      match ChunkLine(CString(readBuf))
      case Fail =>
        next := Stop(Undefined);
      case Match(chunk, rest) =>
        Consume(|CString(readBuf)| - |rest|);
        next := if chunk == 0 then Wait(Finish) else Wait(ChunkBody(chunk));
    }

    /** `async_read_chunk_body` */
    method AsyncReadChunkBody(socket: Socket, chunk: nat, ec: ErrorCode, h: ChunkHandler) returns (next: Next)
      modifies this`readBuf, this`response, this`ended, this`progress
      ensures (State(socket), next) == AfterChunkBody(old(State(socket)), chunk, ec, h)
    {
      if |readBuf| == 0 {
        CallEndHandler(ec);
        return Stop(ThrowIf(ec));
      }
      if |readBuf| < chunk + 2 {
        return Stop(Returned);
      }
      var more := StoreChunk(socket, chunk, ec, h);
      next := if more then Wait(ChunkSize) else Stop(Returned);
    }

    /** Asio completes the pending read. */
    method CompleteRead(socket: Socket) returns (ec: ErrorCode)
      modifies this`readBuf, socket
      ensures (Link(readBuf, socket.segments), ec) == Complete(Link(old(readBuf), old(socket.segments)), pending)
    {
      match pending
      case Header => readBuf, ec := socket.Until(readBuf, BLANK_LINE);
      case ChunkSize => readBuf, ec := socket.Until(readBuf, CRLF);
      case ChunkBody(chunk) => readBuf, ec := socket.AtLeast(readBuf, SizeSub(chunk + 2, |readBuf|));
      case Rest => readBuf, ec := socket.All(readBuf);
      case Sized(length) => readBuf, ec := socket.AtLeast(readBuf, SizeSub(length, |readBuf|));
      case Finish => readBuf, ec := socket.AtLeast(readBuf, 0);
    }

    method RunCallback(socket: Socket, ec: ErrorCode, h: ChunkHandler) returns (next: Next)
      modifies this`readBuf, this`response, this`ended, this`progress
      ensures (State(socket), next) == Callback(old(State(socket)), pending, ec, h)
    {
      match pending
      case Header => next := AsyncReadHeader(socket, ec);
      case ChunkSize => next := AsyncReadChunkSize(socket, ec);
      case ChunkBody(chunk) => next := AsyncReadChunkBody(socket, chunk, ec, h);
      case Rest => next := AsyncReadAll(socket, ec);
      case Sized(_) => next := AsyncReadAll(socket, ec);
      case Finish =>
        CallEndHandler(ec);
        next := Stop(Returned);
    }

    /** The event loop: complete the pending read, run its callback, and go on with the read
        that the callback started.  Where the chain would call itself for ever, the loop stops
        and says so. */
    method AsyncReadStarter(socket: Socket, h: ChunkHandler) returns (o: Outcome)
      modifies this, socket
      ensures (State(socket), o) == AsyncRead(old(State(socket)), h)
    {
      pending := Header;
      while true
        invariant AsyncRun(State(socket), pending, h) == AsyncRead(old(State(socket)), h)
        decreases |State(socket).link.Bytes()| + Rank(pending), |State(socket).link.Bytes()|
      {
        ghost var before := State(socket);
        CompleteKeepsBytes(before.link, pending);
        ghost var (l, ec') := Complete(before.link, pending);
        CallbackProgress(before.(link := l), pending, ec', h);
        var ec := CompleteRead(socket);
        var next := RunCallback(socket, ec, h);
        match next
        case Wait(p) => pending := p;
        case Stop(outcome) => return outcome;
        case Again => return Spinning;
      }
    }
  }
}
