/** What the two readers deliver on well-formed responses, under every segmentation. */
module ResponseReading {
  import opened Text
  import opened Radix
  import opened Grammar
  import opened Messages
  import opened Wire
  import opened Reader

  // ---- Chunked payloads (RFC 7230 section 4.1)

  datatype Chunk = Chunk(size: string, data: string)

  predicate SizeText(size: string, n: nat) {
    size != "" && (forall i :: 0 <= i < |size| ==> IsDigit(16, size[i])) && Value(16, size) == n
  }

  /** A chunk the reader can take: any hexadecimal spelling of its size, which must fit
      `unsigned int`; its data is arbitrary. */
  predicate GoodChunk(c: Chunk) {
    SizeText(c.size, |c.data|) && 0 < |c.data| <= UINT_MAX
  }

  predicate GoodChunks(chunks: seq<Chunk>) {
    forall i :: 0 <= i < |chunks| ==> GoodChunk(chunks[i])
  }

  /** The chunks, then the text from the zero size line on. */
  function EncodeChunks(chunks: seq<Chunk>, ending: string): string {
    if chunks == [] then ending
    else chunks[0].size + (CRLF + (chunks[0].data + (CRLF + EncodeChunks(chunks[1..], ending))))
  }

  function Datas(chunks: seq<Chunk>): seq<string> {
    seq(|chunks|, i requires 0 <= i < |chunks| => chunks[i].data)
  }

  /** What a reader should do with the chunks: append each, tell the handler, together with the
      error code of the read that brought the chunk, and stop when the handler says so. */
  datatype Delivery = Delivery(response: Response, progress: seq<Response>, left: seq<Chunk>, complete: bool)

  function DeliverUnder(r: Response, chunks: seq<Chunk>, h: ChunkHandler, codes: seq<ErrorCode>): Delivery
    requires |codes| == |chunks|
    decreases |chunks|
  {
    if chunks == [] then Delivery(r, [], [], true) else
      var r1 := Append(r, chunks[0].data);
      if !h(r1, codes[0]) then Delivery(r1, [r1], chunks[1..], false) else
        var d := DeliverUnder(r1, chunks[1..], h, codes[1..]);
        d.(progress := [r1] + d.progress)
  }

  function Throughout(ec: ErrorCode, n: nat): (codes: seq<ErrorCode>)
    ensures |codes| == n && forall i :: 0 <= i < n ==> codes[i] == ec
  {
    seq(n, _ => ec)
  }

  lemma ThroughoutTail(ec: ErrorCode, n: nat)
    requires n > 0
    ensures Throughout(ec, n)[1..] == Throughout(ec, n - 1)
    ensures Throughout(ec, n) == [ec] + Throughout(ec, n - 1)
  {
  }

  /** The delivery as the peer intends it, without any error on the way. */
  function Deliver(r: Response, chunks: seq<Chunk>, h: ChunkHandler): Delivery {
    DeliverUnder(r, chunks, h, Throughout(Ok, |chunks|))
  }

  lemma DatasTail(chunks: seq<Chunk>, k: nat)
    requires k < |chunks|
    ensures Concat(Datas(chunks)[..k + 1]) == chunks[0].data + Concat(Datas(chunks[1..])[..k])
  {
    var ds := Datas(chunks)[..k + 1];
    assert ds[1..] == Datas(chunks[1..])[..k];
  }

  lemma DatasFirst(chunks: seq<Chunk>)
    requires chunks != []
    ensures Concat(Datas(chunks)) == chunks[0].data + Concat(Datas(chunks[1..]))
  {
    assert Datas(chunks)[1..] == Datas(chunks[1..]);
  }

  lemma AppendTwice(r: Response, a: string, b: string)
    ensures Append(Append(r, a), b) == Append(r, a + b)
    ensures Append(r, "") == r
  {
    assert r.body + a + b == r.body + (a + b);
    assert r.body + "" == r.body;
  }

  /** At the k-th call of the chunk handler the body is the concatenation of the first k chunks,
      and the final body is that of the last call. */
  lemma {:induction false} DeliverProgress(
      r: Response, chunks: seq<Chunk>, h: ChunkHandler, codes: seq<ErrorCode>, k: nat)
    requires |codes| == |chunks| && k <= |DeliverUnder(r, chunks, h, codes).progress|
    ensures var d := DeliverUnder(r, chunks, h, codes);
      && |d.progress| + |d.left| == |chunks|
      && (k > 0 ==> d.progress[k - 1] == Append(r, Concat(Datas(chunks)[..k])))
      && (k == |d.progress| ==> d.response == Append(r, Concat(Datas(chunks)[..k])))
    decreases |chunks|
  {
    AppendTwice(r, "", "");
    if chunks != [] {
      var r1, more := Append(r, chunks[0].data), chunks[1..];
      DatasTail(chunks, 0);
      assert Datas(more)[..0] == [];
      assert chunks[0].data + "" == chunks[0].data;
      if h(r1, codes[0]) {
        DeliverProgress(r1, more, h, codes[1..], if k == 0 then 0 else k - 1);
        if k > 0 {
          DatasTail(chunks, k - 1);
          AppendTwice(r, chunks[0].data, Concat(Datas(more)[..k - 1]));
        }
      }
    }
  }

  /** The calls stop at the first refusal, and without one every chunk is delivered. */
  lemma {:induction false} DeliverStops(r: Response, chunks: seq<Chunk>, h: ChunkHandler, codes: seq<ErrorCode>)
    requires |codes| == |chunks|
    ensures var d := DeliverUnder(r, chunks, h, codes);
      && |d.progress| <= |chunks|
      && (forall k :: 0 <= k < |d.progress| - 1 ==> h(d.progress[k], codes[k]))
      && (d.complete ==> d.left == [] && forall k :: 0 <= k < |d.progress| ==> h(d.progress[k], codes[k]))
      && (!d.complete ==> d.progress != [] && !h(d.progress[|d.progress| - 1], codes[|d.progress| - 1]))
    decreases |chunks|
  {
    if chunks != [] {
      DeliverStops(Append(r, chunks[0].data), chunks[1..], h, codes[1..]);
    }
  }

  // ---- When the error codes make no difference

  /** The handler lets every chunk pass. */
  ghost predicate Accepts(h: ChunkHandler) {
    forall r, ec :: h(r, ec)
  }

  /** At each response the handler is shown, its answer does not depend on the error code. */
  ghost predicate Steady(h: ChunkHandler, progress: seq<Response>) {
    forall k :: 0 <= k < |progress| ==> h(progress[k], Ok) == h(progress[k], Eof)
  }

  lemma SteadyJoin(h: ChunkHandler, r: Response, progress: seq<Response>)
    ensures Steady(h, [r] + progress) <==> h(r, Ok) == h(r, Eof) && Steady(h, progress)
  {
    var all := [r] + progress;
    assert all[0] == r && forall k :: 0 <= k < |progress| ==> all[k + 1] == progress[k];
  }

  lemma {:induction false} SteadyDelivers(r: Response, chunks: seq<Chunk>, h: ChunkHandler, codes: seq<ErrorCode>)
    requires |codes| == |chunks| && Steady(h, Deliver(r, chunks, h).progress)
    ensures DeliverUnder(r, chunks, h, codes) == Deliver(r, chunks, h)
    decreases |chunks|
  {
    if chunks != [] {
      var r1, more := Append(r, chunks[0].data), chunks[1..];
      ThroughoutTail(Ok, |chunks|);
      assert codes[0] == Ok || codes[0] == Eof;
      if h(r1, Ok) {
        SteadyJoin(h, r1, Deliver(r1, more, h).progress);
        SteadyDelivers(r1, more, h, codes[1..]);
      } else {
        var progress := Deliver(r, chunks, h).progress;
        assert progress[0] == r1 && h(progress[0], Ok) == h(progress[0], Eof);
      }
    }
  }

  lemma NothingDelivered(r: Response, chunks: seq<Chunk>, h: ChunkHandler, codes: seq<ErrorCode>)
    requires |codes| == |chunks|
    ensures var d := DeliverUnder(r, chunks, h, codes);
      d.progress == [] ==> chunks == [] && d.complete
  {
  }

  lemma HeadsAgree(r: Response, a: seq<Response>, b: seq<Response>)
    requires [r] + a == [r] + b
    ensures a == b
  {
    assert ([r] + a)[1..] == a && ([r] + b)[1..] == b;
  }

  /** If `eof` all the way leads to the same calls and the same end, the handler is steady. */
  lemma {:induction false} SameThroughEof(r: Response, chunks: seq<Chunk>, h: ChunkHandler)
    requires var d, e := Deliver(r, chunks, h), DeliverUnder(r, chunks, h, Throughout(Eof, |chunks|));
      d.progress == e.progress && d.complete == e.complete
    ensures Steady(h, Deliver(r, chunks, h).progress)
    decreases |chunks|
  {
    if chunks != [] {
      var r1, more := Append(r, chunks[0].data), chunks[1..];
      ThroughoutTail(Ok, |chunks|);
      ThroughoutTail(Eof, |chunks|);
      var d, e := Deliver(r1, more, h), DeliverUnder(r1, more, h, Throughout(Eof, |more|));
      NothingDelivered(r1, more, h, Throughout(Ok, |more|));
      NothingDelivered(r1, more, h, Throughout(Eof, |more|));
      if h(r1, Ok) && h(r1, Eof) {
        HeadsAgree(r1, d.progress, e.progress);
        SameThroughEof(r1, more, h);
        SteadyJoin(h, r1, d.progress);
      } else {
        OneCall(r1, d.progress);
        OneCall(r1, e.progress);
        SteadyJoin(h, r1, []);
      }
    }
  }

  lemma OneCall(r: Response, progress: seq<Response>)
    ensures [r] + progress == [r] <==> progress == []
  {
    assert progress != [] ==> |[r] + progress| > 1;
    assert progress == [] ==> [r] + progress == [r];
  }

  // ---- One round of reads

  lemma HexIsPlain(size: string)
    requires forall i :: 0 <= i < |size| ==> IsDigit(16, size[i])
    ensures '\r' !in size && '\0' !in size
  {
  }

  /** A buffer that reaches past the first CRLF of the stream holds the whole line. */
  lemma LineInBuffer(buf: string, unread: string, line: string, rest: string)
    requires '\r' !in line && Contains(buf, CRLF) && buf + unread == line + (CRLF + rest)
    ensures |line| + 2 <= |buf|
  {
    LacksFirst(line, CRLF);
    FindDelimiter(line, CRLF, rest);
    Regroup(line, CRLF, rest);
    FindExtends(buf, unread, CRLF);
    AtChars(buf, |line|, CRLF);
  }

  lemma SizeLineParses(size: string, n: nat, more: string)
    requires SizeText(size, n) && n <= UINT_MAX
    ensures var text := CString(size + (CRLF + more));
      var line := ChunkLine(text);
      line.Match? && line.value == n && |text| - |line.rest| == |size| + 2
  {
    HexIsPlain(size);
    CStringConcat(size, CRLF + more);
    CStringConcat(CRLF, more);
    ChunkLineParses(size, CString(more));
  }

  /** Reading up to CRLF puts the whole size line into the buffer, and it parses. */
  lemma SizeLineRead(l: Link, l2: Link, ec: ErrorCode, size: string, n: nat, rest: string)
    requires SizeText(size, n) && n <= UINT_MAX && l.Bytes() == size + (CRLF + rest)
    requires (l2, ec) == ReadUntil(l, CRLF)
    ensures ec == Ok && |l2.buf| > 2
    ensures var line := ChunkLine(CString(l2.buf));
      line.Match? && line.value == n && |CString(l2.buf)| - |line.rest| == |size| + 2
    ensures l2.Consume(|size| + 2).Bytes() == rest
  {
    assert Contains(l.Bytes(), CRLF) by {
      assert l.Bytes()[|size|..] == CRLF + rest;
      ContainsAt(l.Bytes(), CRLF, |size|);
    }
    ReadUntilExact(l, CRLF);
    HexIsPlain(size);
    LineInBuffer(l2.buf, Concat(l2.segs), size, rest);
    SplitStream(l2.buf, Concat(l2.segs), size, CRLF, rest);
    SizeLineParses(size, n, l2.buf[|size| + 2..]);
  }

  /** The sized read puts the whole chunk into the buffer, also when its length wraps around.
      The two bytes behind it are skipped unseen. */
  lemma ChunkDataRead(l: Link, l2: Link, ec: ErrorCode, data: string, sep: string, rest: string)
    requires |data| <= UINT_MAX && |sep| == 2 && l.Bytes() == data + (sep + rest)
    requires (l2, ec) == ReadAtLeast(l, SizeSub(|data| + 2, |l.buf|))
    ensures |data| + 2 <= |l2.buf| && l2.buf[..|data|] == data
    ensures l2.Consume(|data| + 2).Bytes() == rest
  {
    SizedRead(l, |data| + 2);
    SplitStream(l2.buf, Concat(l2.segs), data, sep, rest);
  }

  lemma FirstChunk(chunks: seq<Chunk>)
    requires chunks != [] && GoodChunks(chunks)
    ensures GoodChunk(chunks[0]) && GoodChunks(chunks[1..])
  {
  }

  /** The state in which a reader stops in front of the payload `left`. */
  ghost predicate StopsWith(st: Reading, d: Delivery, before: Reading, left: string) {
    st.response == d.response && st.progress == before.progress + d.progress && st.link.Bytes() == left
  }

  function LeftOver(d: Delivery, ending: string, tail: string): string {
    if d.complete then tail else EncodeChunks(d.left, ending)
  }

  /** The size line read and consumed: `n` bytes and a CRLF are next in `behind`. */
  ghost predicate SizeTaken(l: Link, l1: Link, n: nat, behind: Link) {
    && ReadUntil(l, CRLF).0 == l1
    && |l1.buf| > 2
    && var text := CString(l1.buf);
    && ChunkLine(text).Match? && ChunkLine(text).value == n
    && behind == l1.Consume(|text| - |ChunkLine(text).rest|)
  }

  /** The chunk of `n` bytes read, not yet consumed. */
  ghost predicate DataTaken(behind: Link, n: nat, l2: Link, ec2: ErrorCode) {
    ReadAtLeast(behind, SizeSub(n + 2, |behind.buf|)) == (l2, ec2) && n + 2 <= |l2.buf|
  }

  /** What the two reads of a round leave, and the error code of the second. */
  function AfterChunk(l: Link, size: nat, n: nat): (Link, ErrorCode) {
    var behind := ReadUntil(l, CRLF).0.Consume(size + 2);
    var (l2, ec) := ReadAtLeast(behind, SizeSub(n + 2, |behind.buf|));
    (l2.Consume(n + 2), ec)
  }

  /** The error codes the chunk handler gets to see: they depend on the segmentation alone. */
  function Codes(l: Link, chunks: seq<Chunk>): (codes: seq<ErrorCode>)
    ensures |codes| == |chunks|
    decreases |chunks|
  {
    if chunks == [] then [] else
      var (l2, ec) := AfterChunk(l, |chunks[0].size|, |chunks[0].data|);
      [ec] + Codes(l2, chunks[1..])
  }

  lemma CodesTail(l: Link, chunks: seq<Chunk>, l2: Link, ec: ErrorCode)
    requires chunks != [] && (l2, ec) == AfterChunk(l, |chunks[0].size|, |chunks[0].data|)
    ensures Codes(l, chunks)[0] == ec && Codes(l, chunks)[1..] == Codes(l2, chunks[1..])
  {
  }

  lemma SizeReads(l: Link, size: string, n: nat, rest: string) returns (l1: Link, behind: Link)
    requires SizeText(size, n) && n <= UINT_MAX && l.Bytes() == size + (CRLF + rest)
    ensures SizeTaken(l, l1, n, behind) && behind.Bytes() == rest
    ensures behind == ReadUntil(l, CRLF).0.Consume(|size| + 2)
  {
    var r1 := ReadUntil(l, CRLF);
    l1 := r1.0;
    SizeLineRead(l, l1, r1.1, size, n, rest);
    behind := l1.Consume(|size| + 2);
  }

  lemma DataReads(behind: Link, data: string, sep: string, more: string) returns (l2: Link, ec2: ErrorCode)
    requires |data| <= UINT_MAX && |sep| == 2 && behind.Bytes() == data + (sep + more)
    ensures DataTaken(behind, |data|, l2, ec2)
    ensures l2.buf[..|data|] == data && l2.Consume(|data| + 2).Bytes() == more
  {
    var r2 := ReadAtLeast(behind, SizeSub(|data| + 2, |behind.buf|));
    l2, ec2 := r2.0, r2.1;
    ChunkDataRead(behind, l2, ec2, data, sep, more);
  }

  /** A size line, its data and two more bytes in front of `more`. */
  predicate RoundText(text: string, size: string, data: string, sep: string, more: string) {
    && SizeText(size, |data|) && 0 < |data| <= UINT_MAX && |sep| == 2
    && text == size + (CRLF + (data + (sep + more)))
  }

  lemma RoundReads(l: Link, size: string, data: string, sep: string, more: string)
      returns (l1: Link, behind: Link, l2: Link, ec2: ErrorCode)
    requires RoundText(l.Bytes(), size, data, sep, more)
    ensures SizeTaken(l, l1, |data|, behind) && DataTaken(behind, |data|, l2, ec2)
    ensures l2.buf[..|data|] == data && l2.Consume(|data| + 2).Bytes() == more
    ensures (l2.Consume(|data| + 2), ec2) == AfterChunk(l, |size|, |data|)
  {
    l1, behind := SizeReads(l, size, |data|, data + (sep + more));
    l2, ec2 := DataReads(behind, data, sep, more);
  }

  lemma SyncSizeStep(st: Reading, l1: Link, n: nat, behind: Link, h: ChunkHandler)
    requires SizeTaken(st.link, l1, n, behind)
    ensures var st1 := st.(link := behind);
      SyncChunkSize(st, h) == if n == 0 then (st1, Returned) else SyncChunkBody(st1, n, h)
  {
    var (line, l) := TakeSizeLine(st.link);
    assert line.Match? && line.value == n && l == behind;
  }

  lemma SyncBodyStep(st: Reading, n: nat, l: Link, ec: ErrorCode, h: ChunkHandler)
    requires DataTaken(st.link, n, l, ec)
    ensures var st2 := TakeChunk(st.(link := l), n);
      SyncChunkBody(st, n, h) == if h(st2.response, ec) then SyncChunkSize(st2, h) else (st2, Returned)
  {
  }

  /** One round of the synchronous reader: size line, data, chunk handler. */
  lemma SyncRound(st: Reading, l1: Link, n: nat, behind: Link, l2: Link, ec2: ErrorCode, h: ChunkHandler)
    requires SizeTaken(st.link, l1, n, behind) && DataTaken(behind, n, l2, ec2) && n > 0
    ensures var st2 := TakeChunk(st.(link := l2), n);
      SyncChunkSize(st, h) == if h(st2.response, ec2) then SyncChunkSize(st2, h) else (st2, Returned)
  {
    SyncSizeStep(st, l1, n, behind, h);
    SyncBodyStep(st.(link := behind), n, l2, ec2, h);
  }

  lemma AsyncUnroll(st: Reading, p: Pending, h: ChunkHandler, st2: Reading, next: Next)
    requires Step(st, p, h) == (st2, next)
    ensures next.Wait? ==> AsyncRun(st, p, h) == AsyncRun(st2, next.p, h)
    ensures next.Stop? ==> AsyncRun(st, p, h) == (st2, next.o)
    ensures next.Again? ==> AsyncRun(st, p, h) == (st2, Spinning)
  {
  }

  lemma AsyncSizeStep(st: Reading, l1: Link, n: nat, behind: Link, h: ChunkHandler)
    requires SizeTaken(st.link, l1, n, behind)
    ensures Step(st, ChunkSize, h) == (st.(link := behind), Wait(if n == 0 then Finish else ChunkBody(n)))
  {
  }

  lemma AsyncBodyStep(st: Reading, n: nat, l: Link, ec: ErrorCode, h: ChunkHandler)
    requires DataTaken(st.link, n, l, ec)
    ensures var st2 := TakeChunk(st.(link := l), n);
      Step(st, ChunkBody(n), h) == (st2, if h(st2.response, ec) then Wait(ChunkSize) else Stop(Returned))
  {
  }

  /** One round of the asynchronous reader. */
  lemma AsyncRound(st: Reading, l1: Link, n: nat, behind: Link, l2: Link, ec2: ErrorCode, h: ChunkHandler)
    requires SizeTaken(st.link, l1, n, behind) && DataTaken(behind, n, l2, ec2) && n > 0
    ensures var st2 := TakeChunk(st.(link := l2), n);
      AsyncRun(st, ChunkSize, h) == if h(st2.response, ec2) then AsyncRun(st2, ChunkSize, h) else (st2, Returned)
  {
    var st1, st2 := st.(link := behind), TakeChunk(st.(link := l2), n);
    AsyncSizeStep(st, l1, n, behind, h);
    AsyncBodyStep(st1, n, l2, ec2, h);
    AsyncUnroll(st, ChunkSize, h, st1, Wait(ChunkBody(n)));
    AsyncUnroll(st1, ChunkBody(n), h, st2, if h(st2.response, ec2) then Wait(ChunkSize) else Stop(Returned));
  }

  lemma FinishEnds(st: Reading, h: ChunkHandler)
    ensures AsyncRun(st, Finish, h) == (End(st, Ok), Returned)
  {
    assert Step(st, Finish, h) == (End(st, Ok), Stop(Returned));
    AsyncUnroll(st, Finish, h, End(st, Ok), Stop(Returned));
  }

  /** The zero size line ends both forms in front of the tail. */
  lemma ZeroLine(st: Reading, zero: string, tail: string, h: ChunkHandler) returns (st2: Reading)
    requires SizeText(zero, 0) && st.link.Bytes() == zero + (CRLF + tail)
    ensures st2.link.Bytes() == tail && st2 == st.(link := st2.link)
    ensures SyncChunkSize(st, h) == (st2, Returned)
    ensures AsyncRun(st, ChunkSize, h) == (End(st2, Ok), Returned)
  {
    var l1, behind := SizeReads(st.link, zero, 0, tail);
    st2 := st.(link := behind);
    SyncSizeStep(st, l1, 0, behind, h);
    AsyncSizeStep(st, l1, 0, behind, h);
    AsyncUnroll(st, ChunkSize, h, st2, Wait(Finish));
    FinishEnds(st2, h);
  }

  /** The reading after one chunk of data. */
  ghost predicate TookChunk(st: Reading, st2: Reading, data: string, more: string) {
    && st2.response == Append(st.response, data) && st2.progress == st.progress + [st2.response]
    && st2.ended == st.ended && st2.link.Bytes() == more
  }

  /** One round of either form consumes exactly the size line, the data and two bytes, and asks
      the chunk handler once. */
  lemma ChunkRound(st: Reading, size: string, data: string, sep: string, more: string, h: ChunkHandler)
      returns (st2: Reading, ec: ErrorCode)
    requires RoundText(st.link.Bytes(), size, data, sep, more)
    ensures TookChunk(st, st2, data, more) && (st2.link, ec) == AfterChunk(st.link, |size|, |data|)
    ensures SyncChunkSize(st, h) == if h(st2.response, ec) then SyncChunkSize(st2, h) else (st2, Returned)
    ensures AsyncRun(st, ChunkSize, h) ==
      if h(st2.response, ec) then AsyncRun(st2, ChunkSize, h) else (st2, Returned)
  {
    var l1, behind, l2, ec2 := RoundReads(st.link, size, data, sep, more);
    SyncRound(st, l1, |data|, behind, l2, ec2, h);
    AsyncRound(st, l1, |data|, behind, l2, ec2, h);
    st2, ec := TakeChunk(st.(link := l2), |data|), ec2;
  }

  lemma ProgressJoins(a: seq<Response>, r: Response, b: seq<Response>)
    ensures (a + [r]) + b == a + ([r] + b)
  {
  }

  /** The synchronous reader delivers the chunks: at every size line, buffered and unread bytes
      are the encoding of the chunks still to come. */
  lemma {:induction false} SyncChunks(st: Reading, chunks: seq<Chunk>, zero: string, tail: string, h: ChunkHandler)
    requires GoodChunks(chunks) && SizeText(zero, 0)
    requires st.link.Bytes() == EncodeChunks(chunks, zero + (CRLF + tail))
    ensures var (st2, o) := SyncChunkSize(st, h);
      var d := DeliverUnder(st.response, chunks, h, Codes(st.link, chunks));
      && o == Returned && st2.ended == st.ended
      && StopsWith(st2, d, st, LeftOver(d, zero + (CRLF + tail), tail))
    decreases |chunks|
  {
    var ending := zero + (CRLF + tail);
    if chunks == [] {
      var st2 := ZeroLine(st, zero, tail, h);
      assert st.progress + [] == st.progress;
    } else {
      var c, more := chunks[0], chunks[1..];
      FirstChunk(chunks);
      var st2, ec := ChunkRound(st, c.size, c.data, CRLF, EncodeChunks(more, ending), h);
      CodesTail(st.link, chunks, st2.link, ec);
      if h(st2.response, ec) {
        SyncChunks(st2, more, zero, tail, h);
        ProgressJoins(st.progress, st2.response,
          DeliverUnder(st2.response, more, h, Codes(st2.link, more)).progress);
      }
    }
  }

  /** The asynchronous reader delivers the same, calls the end handler only when it got to the
      end, and never re-arms a read. */
  lemma {:induction false} AsyncChunks(st: Reading, chunks: seq<Chunk>, zero: string, tail: string, h: ChunkHandler)
    requires GoodChunks(chunks) && SizeText(zero, 0)
    requires st.link.Bytes() == EncodeChunks(chunks, zero + (CRLF + tail))
    ensures var (st2, o) := AsyncRun(st, ChunkSize, h);
      var d := DeliverUnder(st.response, chunks, h, Codes(st.link, chunks));
      && o == Returned && st2.ended == st.ended + (if d.complete then [Ok] else [])
      && StopsWith(st2, d, st, LeftOver(d, zero + (CRLF + tail), tail))
    decreases |chunks|
  {
    var ending := zero + (CRLF + tail);
    if chunks == [] {
      var st2 := ZeroLine(st, zero, tail, h);
      assert st.progress + [] == st.progress;
    } else {
      var c, more := chunks[0], chunks[1..];
      FirstChunk(chunks);
      var st2, ec := ChunkRound(st, c.size, c.data, CRLF, EncodeChunks(more, ending), h);
      CodesTail(st.link, chunks, st2.link, ec);
      if h(st2.response, ec) {
        AsyncChunks(st2, more, zero, tail, h);
        ProgressJoins(st.progress, st2.response,
          DeliverUnder(st2.response, more, h, Codes(st2.link, more)).progress);
      } else {
        assert st.ended + [] == st.ended;
      }
    }
  }

  // ---- Everything in one segment

  /** With the stream at its end, the wrapped length asks for more than there is. */
  lemma WrappedRead(buf: string, wanted: nat)
    requires wanted < |buf| < SIZE_MOD
    ensures ReadAtLeast(Link(buf, []), SizeSub(wanted, |buf|)) == (Link(buf, []), Eof)
  {
  }

  lemma OneSegmentRound(buf: string, size: string, data: string, sep: string, more: string)
    requires RoundText(buf, size, data, sep, more) && more != "" && |buf| < SIZE_MOD
    ensures AfterChunk(Link(buf, []), |size|, |data|) == (Link(more, []), Eof)
  {
    assert Contains(buf, CRLF) by {
      assert buf[|size|..] == CRLF + (data + (sep + more));
      ContainsAt(buf, CRLF, |size|);
    }
    var rest := data + (sep + more);
    assert buf[|size| + 2..] == rest;
    WrappedRead(rest, |data| + 2);
    assert rest[|data| + 2..] == more;
  }

  /** When the whole payload is read ahead, every chunk comes with `eof`. */
  lemma {:induction false} OneSegmentCodes(chunks: seq<Chunk>, ending: string)
    requires GoodChunks(chunks) && ending != "" && |EncodeChunks(chunks, ending)| < SIZE_MOD
    ensures Codes(Link(EncodeChunks(chunks, ending), []), chunks) == Throughout(Eof, |chunks|)
    decreases |chunks|
  {
    if chunks != [] {
      var c, more := chunks[0], chunks[1..];
      FirstChunk(chunks);
      EncodingNotEmpty(more, ending);
      var buf := EncodeChunks(chunks, ending);
      OneSegmentRound(buf, c.size, c.data, CRLF, EncodeChunks(more, ending));
      OneSegmentCodes(more, ending);
      ThroughoutTail(Eof, |chunks|);
    }
  }

  lemma EncodingNotEmpty(chunks: seq<Chunk>, ending: string)
    requires ending != ""
    ensures EncodeChunks(chunks, ending) != ""
  {
  }

  /** What is left in the stream tells whether the delivery was complete. */
  lemma LeftOverTells(d: Delivery, e: Delivery, zero: string, tail: string)
    requires zero != "" && |d.left| == |e.left|
    requires LeftOver(d, zero + (CRLF + tail), tail) == LeftOver(e, zero + (CRLF + tail), tail)
    requires (d.complete ==> d.left == []) && (e.complete ==> e.left == [])
    ensures d.complete == e.complete
  {
  }
}
