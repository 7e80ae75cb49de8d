/** Chunked payloads that need not be well-formed: what becomes of any text behind the header of a
    chunked response, when the chunk handler lets every chunk pass. */
module ChunkFate {
  import opened Text
  import opened Radix
  import opened OrderedMap
  import opened Grammar
  import opened Messages
  import opened Wire
  import opened Reader
  import opened ResponseReading
  import opened EndToEnd
  import opened ChunkedResponses

  /** Where the rounds end: at a zero size line; at text without a size line; or at a size line
      with too little text behind it for its chunk. */
  datatype RoundsEnd = AtZero | AtNoSize(rest: string) | AtShort(rest: string)

  datatype Fate = Fate(data: string, end: RoundsEnd)

  /** The rounds a text has in it. */
  function FateOf(text: string): Fate
    decreases |text|
  {
    match ChunkLine(text)
    case Fail => Fate("", AtNoSize(text))
    case Match(n, rest) =>
      if n == 0 then Fate("", AtZero)
      else if |rest| < n + 2 then Fate("", AtShort(rest))
      else
        var f := FateOf(rest[n + 2..]);
        f.(data := rest[..n] + f.data)
  }

  /** A size line with enough text behind it for its chunk. */
  predicate HasRound(text: string) {
    var line := ChunkLine(text);
    line.Match? && line.value > 0 && line.value + 2 <= |line.rest|
  }

  function RoundData(text: string): string
    requires HasRound(text)
  {
    ChunkLine(text).rest[..ChunkLine(text).value]
  }

  function AfterRound(text: string): (more: string)
    requires HasRound(text)
    ensures |more| < |text|
  {
    ChunkLine(text).rest[ChunkLine(text).value + 2..]
  }

  lemma FateStep(text: string)
    requires HasRound(text)
    ensures var f := FateOf(AfterRound(text)); FateOf(text) == Fate(RoundData(text) + f.data, f.end)
  {
  }

  // ---- Size lines in a stream

  lemma ChunkLineShape(text: string) returns (size: string)
    requires ChunkLine(text).Match?
    ensures SizeText(size, ChunkLine(text).value) && text == size + (CRLF + ChunkLine(text).rest)
  {
    var n := DigitCount(16, text);
    size := text[..n];
    assert text == text[..n] + text[n..];
    assert text[n..] == CRLF + text[n..][2..];
  }

  lemma ChunkLineExtends(text: string, more: string)
    requires ChunkLine(text).Match?
    ensures ChunkLine(text + more) == ChunkLine(text).(rest := ChunkLine(text).rest + more)
  {
    var size := ChunkLineShape(text);
    var rest := ChunkLine(text).rest;
    Regroup(CRLF, rest, more);
    Regroup(size, CRLF + rest, more);
    ChunkLineParses(size, rest + more);
  }

  lemma SplitPrefix(text: string, buf: string, unread: string)
    requires text <= buf
    ensures buf + unread == text + (buf[|text|..] + unread)
  {
  }

  /** A buffer has a size line only if the stream has one. */
  lemma NoLineInPart(buf: string, unread: string)
    requires ChunkLine(buf + unread).Fail?
    ensures ChunkLine(CString(buf)).Fail?
  {
    var text := CString(buf);
    if ChunkLine(text).Match? {
      SplitPrefix(text, buf, unread);
      ChunkLineExtends(text, buf[|text|..] + unread);
    }
  }

  /** A buffer that was filled up to a CRLF and has no more than two characters is that CRLF. */
  lemma CrlfInBuffer(buf: string, text: string)
    requires Contains(buf, CRLF) && buf <= text
    ensures 2 <= |buf| && (|buf| == 2 ==> CRLF <= text)
  {
    var i := Find(buf, CRLF);
    AtChars(buf, i, CRLF);
    if i == 0 {
      assert buf[..2] == CRLF;
    }
  }

  /** Without a size line the buffer ends up with all that is left, or with a CRLF and what
      came along with it. */
  lemma NoSizeRead(l: Link, l1: Link)
    requires l1 == ReadUntil(l, CRLF).0 && ChunkLine(l.Bytes()).Fail?
    ensures ChunkLine(CString(l1.buf)).Fail? && l1.buf <= l.Bytes()
    ensures l1.buf == "" <==> l.Bytes() == ""
    ensures 0 < |l.Bytes()| <= 2 ==> 0 < |l1.buf| <= 2
    ensures 2 < |l.Bytes()| && !(CRLF <= l.Bytes()) ==> 2 < |l1.buf|
    ensures l.segs == [] ==> l1 == l
  {
    ReadUntilExact(l, CRLF);
    NoLineInPart(l1.buf, Concat(l1.segs));
    assert l.Bytes() == l1.buf + Concat(l1.segs);
    if Contains(l1.buf, CRLF) {
      CrlfInBuffer(l1.buf, l.Bytes());
    }
  }

  // ---- The outcomes

  function SyncOutcome(end: RoundsEnd): Outcome {
    match end
    case AtZero => Returned
    case AtNoSize(_) => Undefined
    case AtShort(_) => Thrown
  }

  /** What the end handler of the synchronous form is told. */
  function SyncCodes(end: RoundsEnd): seq<ErrorCode> {
    match end
    case AtZero => [Ok]
    case AtNoSize(_) => []
    case AtShort(_) => [Eof]
  }

  /** And that of the asynchronous form: a text that breaks off with something left ends in silence. */
  function AsyncCodes(end: RoundsEnd): seq<ErrorCode> {
    match end
    case AtZero => [Ok]
    case AtNoSize(rest) => if rest == "" then [Eof] else []
    case AtShort(rest) => if rest == "" then [Eof] else []
  }

  /** What the asynchronous form can come to, under one segmentation or another.  A size line
      that is missing or cut down to two bytes makes it re-arm its read; so does a CRLF that
      arrives alone.  Too short a chunk ends it without a word, unless nothing is left at all. */
  predicate AsyncMay(end: RoundsEnd, o: Outcome) {
    match end
    case AtZero => o == Returned
    case AtNoSize(rest) =>
      if rest == "" then o == Thrown
      else if |rest| <= 2 then o == Spinning
      else o == Undefined || (o == Spinning && CRLF <= rest)
    case AtShort(rest) => o == if rest == "" then Thrown else Returned
  }

  lemma ThreeParts(s: string, n: nat)
    requires n + 2 <= |s|
    ensures s == s[..n] + (s[n..n + 2] + s[n + 2..])
  {
  }

  lemma TextRound(text: string) returns (size: string, data: string, sep: string, more: string)
    requires HasRound(text)
    ensures RoundText(text, size, data, sep, more) && data == RoundData(text) && more == AfterRound(text)
  {
    size := ChunkLineShape(text);
    var rest, n := ChunkLine(text).rest, ChunkLine(text).value;
    data, sep, more := rest[..n], rest[n..n + 2], rest[n + 2..];
    ThreeParts(rest, n);
  }

  ghost predicate SyncFated(st: Reading, h: ChunkHandler, f: Fate) {
    var (st2, o) := SyncChunkSize(st, h);
    && o == SyncOutcome(f.end) && st2.response == Append(st.response, f.data)
    && st2.ended == st.ended + if f.end.AtShort? then [Eof] else []
  }

  ghost predicate AsyncFated(st: Reading, h: ChunkHandler, f: Fate) {
    var (st2, o) := AsyncRun(st, ChunkSize, h);
    && AsyncMay(f.end, o) && st2.response == Append(st.response, f.data)
    && st2.ended == st.ended + AsyncCodes(f.end)
    && (st.link.segs == [] && f.end.AtNoSize? && 2 < |f.end.rest| ==> o == Undefined)
  }

  lemma SyncNoSize(st: Reading, h: ChunkHandler)
    requires ChunkLine(st.link.Bytes()).Fail?
    ensures SyncFated(st, h, FateOf(st.link.Bytes()))
  {
    NoSizeRead(st.link, ReadUntil(st.link, CRLF).0);
    assert SyncChunkSize(st, h) == (st.(link := ReadUntil(st.link, CRLF).0), Undefined);
    AppendTwice(st.response, "", "");
  }

  lemma NoSizeStep(st: Reading, h: ChunkHandler, l1: Link, ec: ErrorCode)
    requires ReadUntil(st.link, CRLF) == (l1, ec) && ChunkLine(CString(l1.buf)).Fail?
    requires l1.buf == "" ==> ec == Eof
    ensures var st1 := st.(link := l1);
      Step(st, ChunkSize, h) ==
        if l1.buf == "" then (End(st1, Eof), Stop(Thrown))
        else if |l1.buf| <= 2 then (st1, Again)
        else (st1, Stop(Undefined))
  {
  }

  lemma NoSizeRun(st: Reading, h: ChunkHandler, l1: Link)
    requires ReadUntil(st.link, CRLF).0 == l1 && ChunkLine(st.link.Bytes()).Fail?
    ensures var st1 := st.(link := l1);
      AsyncRun(st, ChunkSize, h) ==
        if l1.buf == "" then (End(st1, Eof), Thrown)
        else if |l1.buf| <= 2 then (st1, Spinning)
        else (st1, Undefined)
  {
    NoSizeRead(st.link, l1);
    ReadUntilExact(st.link, CRLF);
    NoSizeStep(st, h, l1, ReadUntil(st.link, CRLF).1);
    var (st2, next) := Step(st, ChunkSize, h);
    AsyncUnroll(st, ChunkSize, h, st2, next);
  }

  lemma AsyncNoSize(st: Reading, h: ChunkHandler)
    requires ChunkLine(st.link.Bytes()).Fail?
    ensures AsyncFated(st, h, FateOf(st.link.Bytes()))
  {
    var l1 := ReadUntil(st.link, CRLF).0;
    NoSizeRead(st.link, l1);
    NoSizeRun(st, h, l1);
    AppendTwice(st.response, "", "");
  }

  /** The sized read behind a size line falls short: everything left is in the buffer. */
  lemma ShortRead(behind: Link, n: nat)
    requires n <= UINT_MAX && |behind.Bytes()| < n + 2
    ensures ReadAtLeast(behind, SizeSub(n + 2, |behind.buf|)) == (Link(behind.Bytes(), []), Eof)
  {
    SizedRead(behind, n + 2);
  }

  lemma SyncShort(st: Reading, n: nat, h: ChunkHandler)
    requires n <= UINT_MAX && |st.link.Bytes()| < n + 2
    ensures SyncChunkBody(st, n, h) == (End(st.(link := Link(st.link.Bytes(), [])), Eof), Thrown)
  {
    ShortRead(st.link, n);
  }

  lemma AsyncShortStep(st: Reading, n: nat, l: Link, h: ChunkHandler)
    requires Complete(st.link, ChunkBody(n)) == (l, Eof) && |l.buf| < n + 2
    ensures var st2 := st.(link := l);
      Step(st, ChunkBody(n), h) ==
        if l.buf == "" then (End(st2, Eof), Stop(Thrown)) else (st2, Stop(Returned))
  {
  }

  lemma AsyncShort(st: Reading, n: nat, h: ChunkHandler)
    requires n <= UINT_MAX && |st.link.Bytes()| < n + 2
    ensures var st2 := st.(link := Link(st.link.Bytes(), []));
      AsyncRun(st, ChunkBody(n), h) ==
        if st.link.Bytes() == "" then (End(st2, Eof), Thrown) else (st2, Returned)
  {
    ShortRead(st.link, n);
    AsyncShortStep(st, n, Link(st.link.Bytes(), []), h);
    var (st2, next) := Step(st, ChunkBody(n), h);
    AsyncUnroll(st, ChunkBody(n), h, st2, next);
  }

  /** Both forms at a size line with too short a chunk behind it. */
  lemma ShortChunk(st: Reading, h: ChunkHandler)
    requires var line := ChunkLine(st.link.Bytes()); line.Match? && 0 < line.value && |line.rest| < line.value + 2
    ensures SyncFated(st, h, FateOf(st.link.Bytes())) && AsyncFated(st, h, FateOf(st.link.Bytes()))
  {
    var size := ChunkLineShape(st.link.Bytes());
    var n, rest := ChunkLine(st.link.Bytes()).value, ChunkLine(st.link.Bytes()).rest;
    var l1, behind := SizeReads(st.link, size, n, rest);
    var st1 := st.(link := behind);
    SyncSizeStep(st, l1, n, behind, h);
    SyncShort(st1, n, h);
    AsyncSizeStep(st, l1, n, behind, h);
    AsyncUnroll(st, ChunkSize, h, st1, Wait(ChunkBody(n)));
    AsyncShort(st1, n, h);
    AppendTwice(st.response, "", "");
  }

  lemma ZeroSize(st: Reading, h: ChunkHandler)
    requires var line := ChunkLine(st.link.Bytes()); line.Match? && line.value == 0
    ensures SyncFated(st, h, FateOf(st.link.Bytes())) && AsyncFated(st, h, FateOf(st.link.Bytes()))
  {
    var zero := ChunkLineShape(st.link.Bytes());
    var st2 := ZeroLine(st, zero, ChunkLine(st.link.Bytes()).rest, h);
    AppendTwice(st.response, "", "");
  }

  /** Both forms get from `st` to `st2` by one accepted chunk. */
  ghost predicate Rounded(st: Reading, st2: Reading, h: ChunkHandler) {
    && HasRound(st.link.Bytes())
    && st2.link.Bytes() == AfterRound(st.link.Bytes())
    && st2.response == Append(st.response, RoundData(st.link.Bytes())) && st2.ended == st.ended
    && SyncChunkSize(st, h) == SyncChunkSize(st2, h)
    && AsyncRun(st, ChunkSize, h) == AsyncRun(st2, ChunkSize, h)
    && (st.link.segs == [] ==> st2.link.segs == [])
  }

  lemma AcceptedRound(st: Reading, h: ChunkHandler) returns (st2: Reading)
    requires Accepts(h) && HasRound(st.link.Bytes())
    ensures Rounded(st, st2, h)
  {
    var size, data, sep, more := TextRound(st.link.Bytes());
    var ec;
    st2, ec := ChunkRound(st, size, data, sep, more, h);
  }

  ghost predicate Fated(st: Reading, h: ChunkHandler) {
    SyncFated(st, h, FateOf(st.link.Bytes())) && AsyncFated(st, h, FateOf(st.link.Bytes()))
  }

  lemma FatedBefore(st: Reading, st2: Reading, h: ChunkHandler)
    requires Rounded(st, st2, h) && Fated(st2, h)
    ensures Fated(st, h)
  {
    FateStep(st.link.Bytes());
    AppendTwice(st.response, RoundData(st.link.Bytes()), FateOf(st2.link.Bytes()).data);
  }

  lemma NoRoundFated(st: Reading, h: ChunkHandler)
    requires !HasRound(st.link.Bytes())
    ensures Fated(st, h)
  {
    var line := ChunkLine(st.link.Bytes());
    if line.Fail? {
      SyncNoSize(st, h);
      AsyncNoSize(st, h);
    } else if line.value == 0 {
      ZeroSize(st, h);
    } else {
      ShortChunk(st, h);
    }
  }

  /** On any text, under every segmentation, the two forms deliver the same data; the synchronous
      form comes to one outcome, the asynchronous one to nothing else than it may. */
  lemma {:induction false} BothFated(st: Reading, h: ChunkHandler)
    requires Accepts(h)
    ensures Fated(st, h)
    decreases |st.link.Bytes()|
  {
    if HasRound(st.link.Bytes()) {
      var st2 := AcceptedRound(st, h);
      BothFated(st2, h);
      FatedBefore(st, st2, h);
    } else {
      NoRoundFated(st, h);
    }
  }

  // ---- A segmentation that spins

  /** One segment for each round, and a CRLF of its own in front of the rest. */
  function Rounds(text: string): seq<string>
    decreases |text|
  {
    if HasRound(text) then
      [text[..|text| - |AfterRound(text)|]] + Rounds(AfterRound(text))
    else if CRLF <= text then [CRLF, text[2..]]
    else [text]
  }

  lemma FrontOf(text: string, size: string, data: string, sep: string, more: string)
    requires text == size + (CRLF + (data + (sep + more)))
    ensures var front := text[..|text| - |more|];
      front == size + (CRLF + (data + sep)) && text == front + more
  {
    var round := size + (CRLF + (data + sep));
    assert text == round + more;
  }

  lemma RoundCut(text: string)
    requires HasRound(text)
    ensures text == text[..|text| - |AfterRound(text)|] + AfterRound(text)
  {
    var size, data, sep, more := TextRound(text);
    FrontOf(text, size, data, sep, more);
  }

  lemma {:induction false} RoundsConcat(text: string)
    ensures Concat(Rounds(text)) == text
    decreases |text|
  {
    if HasRound(text) {
      RoundsConcat(AfterRound(text));
      RoundCut(text);
      ConcatFirst(text[..|text| - |AfterRound(text)|], Rounds(AfterRound(text)));
    } else if CRLF <= text {
      ConcatTwo(CRLF, text[2..]);
      assert CRLF + text[2..] == text;
    } else {
      ConcatOne(text);
    }
  }

  lemma FirstLine(line: string, rest: string, segs: seq<string>)
    ensures ReadUntil(Link("", [line + (CRLF + rest)] + segs), CRLF).0 == Link(line + (CRLF + rest), segs)
  {
    var s := line + (CRLF + rest);
    assert Contains(s, CRLF) by {
      assert s[|line|..] == CRLF + rest;
      ContainsAt(s, CRLF, |line|);
    }
    assert "" + s == s && ([s] + segs)[1..] == segs;
  }

  /** A round that arrives in a segment of its own is read without reading ahead. */
  lemma OwnSegment(round: string, size: string, data: string, sep: string, segs: seq<string>)
    requires round == size + (CRLF + (data + sep)) && |sep| == 2
    ensures AfterChunk(Link("", [round] + segs), |size|, |data|) == (Link("", segs), Ok)
  {
    FirstLine(size, data + sep, segs);
    assert round[|size| + 2..] == data + sep;
    assert (data + sep)[|data| + 2..] == "";
  }

  lemma TextHasRound(text: string, size: string, data: string, sep: string, more: string)
    requires RoundText(text, size, data, sep, more)
    ensures HasRound(text) && AfterRound(text) == more
  {
    var rest := data + (sep + more);
    ChunkLineParses(size, rest);
    assert rest[|data| + 2..] == more;
  }

  lemma RoundsStep(text: string, size: string, data: string, sep: string, more: string)
    requires RoundText(text, size, data, sep, more)
    ensures HasRound(text) && AfterRound(text) == more
    ensures Rounds(text) == [size + (CRLF + (data + sep))] + Rounds(more)
  {
    TextHasRound(text, size, data, sep, more);
    FrontOf(text, size, data, sep, more);
  }

  lemma {:induction false} RoundsSpin(st: Reading, text: string, h: ChunkHandler)
    requires Accepts(h) && st.link == Link("", Rounds(text))
    requires FateOf(text).end.AtNoSize? && CRLF <= FateOf(text).end.rest
    ensures AsyncRun(st, ChunkSize, h).1 == Spinning
    decreases |text|
  {
    RoundsConcat(text);
    assert st.link.Bytes() == text;
    if HasRound(text) {
      var size, data, sep, more := TextRound(text);
      var st2, ec := ChunkRound(st, size, data, sep, more, h);
      RoundsStep(text, size, data, sep, more);
      OwnSegment(size + (CRLF + (data + sep)), size, data, sep, Rounds(more));
      FateStep(text);
      RoundsSpin(st2, more, h);
    } else {
      LoneCrlf(st, text, h);
    }
  }

  lemma LoneCrlf(st: Reading, text: string, h: ChunkHandler)
    requires ChunkLine(text).Fail? && CRLF <= text && st.link == Link("", Rounds(text)) && st.link.Bytes() == text
    ensures AsyncRun(st, ChunkSize, h).1 == Spinning
  {
    var l1 := Link(CRLF, [text[2..]]);
    assert st.link == Link("", [CRLF, text[2..]]);
    assert Contains(CRLF, CRLF) by {
      ContainsAt(CRLF, CRLF, 0);
    }
    assert "" + CRLF == CRLF && [CRLF, text[2..]][1..] == [text[2..]];
    assert ReadUntil(st.link, CRLF).0 == l1;
    NoSizeRun(st, h, l1);
  }

  // ---- Whole responses

  /** A chunked response with any payload behind its header, as long as the header can be told
      from it. */
  ghost predicate AnyChunked(r: Response, payload: string) {
    PrintableHead(r) && MarkedChunked(r.header) && !Swallows(CString(payload), ": ")
  }

  lemma SyncPayloadFated(st: Reading, h: ChunkHandler, f: Fate)
    requires IsChunked(st.response.header) && st.ended == [] && SyncFated(st, h, f)
    ensures var (st2, o) := SyncPayload(st, h);
      && o == SyncOutcome(f.end) && st2.ended == SyncCodes(f.end) && st2.response == Append(st.response, f.data)
  {
    SyncChunkedPayload(st, h);
  }

  /** The synchronous outcome is decided by the payload alone, and both forms hand over the data
      of its rounds, however the stream is cut. */
  lemma SyncClassified(r: Response, payload: string, segs: seq<string>, h: ChunkHandler)
    requires AnyChunked(r, payload) && Accepts(h) && Concat(segs) == ResponseBlock(r) + payload
    ensures SyncRead(Start(segs), h).1 == SyncOutcome(FateOf(payload).end)
    ensures SyncRead(Start(segs), h).0.ended == SyncCodes(FateOf(payload).end)
    ensures AsyncRead(Start(segs), h).0.ended == AsyncCodes(FateOf(payload).end)
    ensures SyncRead(Start(segs), h).0.response == r.(body := FateOf(payload).data)
    ensures AsyncRead(Start(segs), h).0.response == r.(body := FateOf(payload).data)
    ensures AsyncMay(FateOf(payload).end, AsyncRead(Start(segs), h).1)
  {
    var st := AtChunks(r, payload, segs, h);
    BothFated(st, h);
    ChunkedIffMarked(r.header);
    SyncPayloadFated(st, h, FateOf(payload));
    assert [] + AsyncCodes(FateOf(payload).end) == AsyncCodes(FateOf(payload).end);
    BodyRestored(r, FateOf(payload).data);
  }

  ghost predicate AsyncCan(wire: string, h: ChunkHandler, o: Outcome) {
    exists segs :: Concat(segs) == wire && AsyncRead(Start(segs), h).1 == o
  }

  lemma BlockFirst(r: Response, segs: seq<string>)
    requires PrintableHead(r)
    ensures ReadUntil(Link("", [ResponseBlock(r)] + segs), BLANK_LINE).0 == Link(ResponseBlock(r), segs)
  {
    var block := ResponseBlock(r);
    BlockHasBlankLine(StatusText(r), Entries(r.header), "");
    assert block + "" == block && "" + block == block && ([block] + segs)[1..] == segs;
  }

  lemma SpinsInRounds(r: Response, payload: string, h: ChunkHandler)
    requires AnyChunked(r, payload) && Accepts(h)
    requires FateOf(payload).end.AtNoSize? && CRLF <= FateOf(payload).end.rest
    ensures AsyncCan(ResponseBlock(r) + payload, h, Spinning)
  {
    var segs := [ResponseBlock(r)] + Rounds(payload);
    RoundsConcat(payload);
    ConcatFirst(ResponseBlock(r), Rounds(payload));
    var st := AtChunks(r, payload, segs, h);
    BlockFirst(r, Rounds(payload));
    assert ResponseBlock(r)[|ResponseBlock(r)|..] == "";
    RoundsSpin(st, payload, h);
  }

  /** In one piece the stream is at its end behind the header. */
  lemma OnePiece(r: Response, payload: string, h: ChunkHandler)
    requires AnyChunked(r, payload) && Accepts(h)
    ensures var wire := ResponseBlock(r) + payload;
      && Concat([wire]) == wire
      && AsyncMay(FateOf(payload).end, AsyncRead(Start([wire]), h).1)
      && (FateOf(payload).end.AtNoSize? && 2 < |FateOf(payload).end.rest| ==>
          AsyncRead(Start([wire]), h).1 == Undefined)
  {
    var wire := ResponseBlock(r) + payload;
    ConcatOne(wire);
    var st := AtChunks(r, payload, [wire], h);
    var l, ahead := BlockRead(r, payload, [wire]);
    OneSegment(wire, BLANK_LINE);
    BothFated(st, h);
  }

  lemma AsyncClassifiedAt(r: Response, payload: string, h: ChunkHandler, o: Outcome)
    requires AnyChunked(r, payload) && Accepts(h)
    ensures AsyncCan(ResponseBlock(r) + payload, h, o) <==> AsyncMay(FateOf(payload).end, o)
  {
    var wire, end := ResponseBlock(r) + payload, FateOf(payload).end;
    if AsyncMay(end, o) {
      if o == Spinning && CRLF <= end.rest {
        SpinsInRounds(r, payload, h);
      } else {
        OnePiece(r, payload, h);
        assert AsyncRead(Start([wire]), h).1 == o;
      }
    }
    forall segs | Concat(segs) == wire ensures AsyncMay(end, AsyncRead(Start(segs), h).1) {
      SyncClassified(r, payload, segs, h);
    }
  }

  /** Everything that the asynchronous form can come to, under one segmentation or another. */
  ghost function AsyncOutcomes(wire: string, h: ChunkHandler): iset<Outcome> {
    iset o | AsyncCan(wire, h, o)
  }

  ghost function Allowed(end: RoundsEnd): iset<Outcome> {
    iset o | AsyncMay(end, o)
  }

  /** The asynchronous form can come to exactly what the end of the payload allows. */
  lemma AsyncClassified(r: Response, payload: string, h: ChunkHandler)
    requires AnyChunked(r, payload) && Accepts(h)
    ensures AsyncOutcomes(ResponseBlock(r) + payload, h) == Allowed(FateOf(payload).end)
  {
    forall o: Outcome
      ensures AsyncCan(ResponseBlock(r) + payload, h, o) <==> AsyncMay(FateOf(payload).end, o)
    {
      AsyncClassifiedAt(r, payload, h, o);
    }
  }

  // ---- Well-formed chunks and then any text

  lemma {:induction false} FateAfterChunks(chunks: seq<Chunk>, ending: string)
    requires GoodChunks(chunks)
    ensures FateOf(EncodeChunks(chunks, ending))
      == Fate(Concat(Datas(chunks)) + FateOf(ending).data, FateOf(ending).end)
    decreases |chunks|
  {
    var f := FateOf(ending);
    if chunks == [] {
      assert "" + f.data == f.data;
    } else {
      var c, more := chunks[0], chunks[1..];
      FirstChunk(chunks);
      FateAfterChunks(more, ending);
      OneRoundFate(c, EncodeChunks(more, ending));
      DatasFirst(chunks);
      Regroup(c.data, Concat(Datas(more)), f.data);
    }
  }

  lemma OneRoundFate(c: Chunk, more: string)
    requires GoodChunk(c)
    ensures FateOf(c.size + (CRLF + (c.data + (CRLF + more)))) == Fate(c.data + FateOf(more).data, FateOf(more).end)
  {
    var rest := c.data + (CRLF + more);
    ChunkLineParses(c.size, rest);
    assert rest[..|c.data|] == c.data && rest[|c.data| + 2..] == more;
    FateStep(c.size + (CRLF + rest));
  }

  ghost function NoSizeOutcomes(ending: string): iset<Outcome> {
    if ending == "" then iset{Thrown}
    else if |ending| <= 2 then iset{Spinning}
    else if CRLF <= ending then iset{Spinning, Undefined}
    else iset{Undefined}
  }

  lemma NoSizeAllowed(ending: string)
    ensures Allowed(AtNoSize(ending)) == NoSizeOutcomes(ending)
  {
  }

  /** Behind well-formed chunks, a text that has no size line leaves the synchronous form with an
      unset chunk size under every segmentation.  What the asynchronous form can come to depends
      on the text: it throws at once if there is none, calls itself for ever on one or two
      characters, and otherwise gets an unset chunk size or, if the text starts with CRLF and
      this arrives alone, calls itself for ever with more to come. */
  lemma NoSizeDecides(r: Response, chunks: seq<Chunk>, ending: string, h: ChunkHandler)
    requires AnyChunked(r, EncodeChunks(chunks, ending)) && GoodChunks(chunks) && Accepts(h)
    requires ChunkLine(ending).Fail?
    ensures var wire := ResponseBlock(r) + EncodeChunks(chunks, ending);
      && (forall segs :: Concat(segs) == wire ==> SyncRead(Start(segs), h).1 == Undefined)
      && AsyncOutcomes(wire, h) == NoSizeOutcomes(ending)
  {
    var payload := EncodeChunks(chunks, ending);
    FateAfterChunks(chunks, ending);
    NoSizeAllowed(ending);
    AsyncClassified(r, payload, h);
    forall segs | Concat(segs) == ResponseBlock(r) + payload ensures SyncRead(Start(segs), h).1 == Undefined {
      SyncClassified(r, payload, segs, h);
    }
  }
}
