/** Whole chunked responses through both readers. */
module ChunkedResponses {
  import opened Text
  import opened Grammar
  import opened Messages
  import opened Wire
  import opened Reader
  import opened ResponseReading
  import opened EndToEnd

  function ChunkedPayload(chunks: seq<Chunk>, zero: string, tail: string): string {
    EncodeChunks(chunks, zero + (CRLF + tail))
  }

  /** A chunked response, well-formed up to its zero size line, whose payload is not taken for a
      field. */
  ghost predicate GoodResponse(r: Response, chunks: seq<Chunk>, zero: string, tail: string) {
    && PrintableHead(r) && MarkedChunked(r.header) && GoodChunks(chunks) && SizeText(zero, 0)
    && !Swallows(CString(ChunkedPayload(chunks, zero, tail)), ": ")
  }

  /** Both forms end behind the delivery `d`.  The end handler runs once in the synchronous form,
      and in the asynchronous one exactly when no chunk was refused. */
  ghost predicate BothEndWith(segs: seq<string>, h: ChunkHandler, d: Delivery, left: string) {
    var (st, o) := SyncRead(Start(segs), h);
    var (st', o') := AsyncRead(Start(segs), h);
    && o == o' == Returned
    && st.response == st'.response == d.response && st.progress == st'.progress == d.progress
    && st.link.Bytes() == st'.link.Bytes() == left
    && st.ended == [Ok] && st'.ended == if d.complete then [Ok] else []
  }

  /** Where both forms are behind the header of a chunked response. */
  lemma AtChunks(r: Response, payload: string, segs: seq<string>, h: ChunkHandler) returns (st: Reading)
    requires PrintableHead(r) && MarkedChunked(r.header)
    requires Concat(segs) == ResponseBlock(r) + payload && !Swallows(CString(payload), ": ")
    ensures AtPayload(st, r, payload)
    ensures st.link == ReadUntil(Link("", segs), BLANK_LINE).0.Consume(|ResponseBlock(r)|)
    ensures SyncRead(Start(segs), h) == SyncPayload(st, h)
    ensures AsyncRead(Start(segs), h) == AsyncRun(st, ChunkSize, h)
  {
    ChunkedIffMarked(r.header);
    var l := HeaderRead(r, payload, segs);
    st := TakeHeader(Start(segs).(link := l));
    SyncFromHeader(segs, l, h);
    AsyncFromHeader(segs, l, h);
  }

  lemma SyncChunkedPayload(st: Reading, h: ChunkHandler)
    requires IsChunked(st.response.header)
    ensures var (st2, o) := SyncChunkSize(st, h);
      SyncPayload(st, h) == if o == Returned then (End(st2, Ok), o) else (st2, o)
  {
  }

  lemma BothEndBehind(segs: seq<string>, h: ChunkHandler, st: Reading, d: Delivery, left: string)
    requires IsChunked(st.response.header) && st.ended == [] && st.progress == []
    requires SyncRead(Start(segs), h) == SyncPayload(st, h) && AsyncRead(Start(segs), h) == AsyncRun(st, ChunkSize, h)
    requires var (st2, o) := SyncChunkSize(st, h); o == Returned && st2.ended == [] && StopsWith(st2, d, st, left)
    requires var (st2, o) := AsyncRun(st, ChunkSize, h);
      o == Returned && st2.ended == (if d.complete then [Ok] else []) && StopsWith(st2, d, st, left)
    ensures BothEndWith(segs, h, d, left)
  {
    SyncChunkedPayload(st, h);
    assert [] + d.progress == d.progress;
  }

  /** For every chunk handler and every segmentation, both forms hand over the same response
      after the same calls; what they see of the segmentation is `codes`. */
  lemma ChunkedAgree(r: Response, chunks: seq<Chunk>, zero: string, tail: string, segs: seq<string>, h: ChunkHandler)
      returns (st: Reading, codes: seq<ErrorCode>)
    requires GoodResponse(r, chunks, zero, tail)
    requires Concat(segs) == ResponseBlock(r) + ChunkedPayload(chunks, zero, tail)
    ensures st.link == ReadUntil(Link("", segs), BLANK_LINE).0.Consume(|ResponseBlock(r)|)
    ensures codes == Codes(st.link, chunks)
    ensures var d := DeliverUnder(r.(body := ""), chunks, h, codes);
      BothEndWith(segs, h, d, LeftOver(d, zero + (CRLF + tail), tail))
  {
    st := AtChunks(r, ChunkedPayload(chunks, zero, tail), segs, h);
    codes := Codes(st.link, chunks);
    SyncChunks(st, chunks, zero, tail, h);
    AsyncChunks(st, chunks, zero, tail, h);
    ChunkedIffMarked(r.header);
    var d := DeliverUnder(r.(body := ""), chunks, h, codes);
    BothEndBehind(segs, h, st, d, LeftOver(d, zero + (CRLF + tail), tail));
  }

  /** Whatever the handler answers, in both forms its k-th call sees the first k chunks, and the
      body ends as the last call saw it. */
  lemma ChunkedProgress(
      r: Response, chunks: seq<Chunk>, zero: string, tail: string, segs: seq<string>, h: ChunkHandler, k: nat)
    requires GoodResponse(r, chunks, zero, tail)
    requires Concat(segs) == ResponseBlock(r) + ChunkedPayload(chunks, zero, tail)
    requires k <= |SyncRead(Start(segs), h).0.progress|
    ensures var st, st' := SyncRead(Start(segs), h).0, AsyncRead(Start(segs), h).0;
      && st.progress == st'.progress && k <= |chunks|
      && (k > 0 ==> st.progress[k - 1] == r.(body := Concat(Datas(chunks)[..k])))
      && (k == |st.progress| ==> st.response == st'.response == r.(body := Concat(Datas(chunks)[..k])))
  {
    var _, codes := ChunkedAgree(r, chunks, zero, tail, segs, h);
    DeliverProgress(r.(body := ""), chunks, h, codes, k);
    BodyRestored(r, Concat(Datas(chunks)[..k]));
  }

  // ---- When every segmentation gives the same

  ghost predicate AlwaysEndsWith(wire: string, h: ChunkHandler, d: Delivery, left: string) {
    forall segs :: Concat(segs) == wire ==> BothEndWith(segs, h, d, left)
  }

  /** Delivered in one piece, every chunk comes with `eof`. */
  lemma OnePieceCodes(r: Response, chunks: seq<Chunk>, zero: string, tail: string, st: Reading)
    requires GoodResponse(r, chunks, zero, tail) && |ChunkedPayload(chunks, zero, tail)| < SIZE_MOD
    requires st.link ==
      ReadUntil(Link("", [ResponseBlock(r) + ChunkedPayload(chunks, zero, tail)]), BLANK_LINE).0
        .Consume(|ResponseBlock(r)|)
    ensures Codes(st.link, chunks) == Throughout(Eof, |chunks|)
  {
    var payload := ChunkedPayload(chunks, zero, tail);
    var wire := ResponseBlock(r) + payload;
    ConcatOne(wire);
    var l, ahead := BlockRead(r, payload, [wire]);
    OneSegment(wire, BLANK_LINE);
    assert wire[|ResponseBlock(r)|..] == payload;
    OneSegmentCodes(chunks, zero + (CRLF + tail));
  }

  lemma OnePieceDiffers(r: Response, chunks: seq<Chunk>, zero: string, tail: string, h: ChunkHandler)
    requires GoodResponse(r, chunks, zero, tail) && |ChunkedPayload(chunks, zero, tail)| < SIZE_MOD
    requires var d := Deliver(r.(body := ""), chunks, h);
      BothEndWith([ResponseBlock(r) + ChunkedPayload(chunks, zero, tail)], h, d,
        LeftOver(d, zero + (CRLF + tail), tail))
    ensures Steady(h, Deliver(r.(body := ""), chunks, h).progress)
  {
    var wire := ResponseBlock(r) + ChunkedPayload(chunks, zero, tail);
    ConcatOne(wire);
    var st, codes := ChunkedAgree(r, chunks, zero, tail, [wire], h);
    OnePieceCodes(r, chunks, zero, tail, st);
    var r0 := r.(body := "");
    SameEnd(r0, chunks, zero, tail, h, Deliver(r0, chunks, h), DeliverUnder(r0, chunks, h, codes));
  }

  lemma SameEnd(r: Response, chunks: seq<Chunk>, zero: string, tail: string, h: ChunkHandler, d: Delivery, e: Delivery)
    requires d == Deliver(r, chunks, h) && e == DeliverUnder(r, chunks, h, Throughout(Eof, |chunks|))
    requires zero != "" && d.progress == e.progress
    requires LeftOver(d, zero + (CRLF + tail), tail) == LeftOver(e, zero + (CRLF + tail), tail)
    ensures Steady(h, d.progress)
  {
    DeliverProgress(r, chunks, h, Throughout(Ok, |chunks|), 0);
    DeliverProgress(r, chunks, h, Throughout(Eof, |chunks|), 0);
    DeliverStops(r, chunks, h, Throughout(Ok, |chunks|));
    DeliverStops(r, chunks, h, Throughout(Eof, |chunks|));
    LeftOverTells(d, e, zero, tail);
    SameThroughEof(r, chunks, h);
  }

  /** Every segmentation gives the intended delivery, in both forms, if and only if at each
      response the handler is shown its answer does not depend on the error code. */
  lemma ChunkedExact(r: Response, chunks: seq<Chunk>, zero: string, tail: string, h: ChunkHandler)
    requires GoodResponse(r, chunks, zero, tail) && |ChunkedPayload(chunks, zero, tail)| < SIZE_MOD
    ensures var d := Deliver(r.(body := ""), chunks, h);
      AlwaysEndsWith(ResponseBlock(r) + ChunkedPayload(chunks, zero, tail), h, d,
        LeftOver(d, zero + (CRLF + tail), tail))
      <==> Steady(h, d.progress)
  {
    var d, wire := Deliver(r.(body := ""), chunks, h), ResponseBlock(r) + ChunkedPayload(chunks, zero, tail);
    var left := LeftOver(d, zero + (CRLF + tail), tail);
    if Steady(h, d.progress) {
      forall segs | Concat(segs) == wire ensures BothEndWith(segs, h, d, left) {
        SteadyAgree(r, chunks, zero, tail, segs, h);
      }
    } else {
      ConcatOne(wire);
      if BothEndWith([wire], h, d, left) {
        OnePieceDiffers(r, chunks, zero, tail, h);
      }
    }
  }

  lemma SteadyAgree(r: Response, chunks: seq<Chunk>, zero: string, tail: string, segs: seq<string>, h: ChunkHandler)
    requires GoodResponse(r, chunks, zero, tail)
    requires Concat(segs) == ResponseBlock(r) + ChunkedPayload(chunks, zero, tail)
    requires Steady(h, Deliver(r.(body := ""), chunks, h).progress)
    ensures var d := Deliver(r.(body := ""), chunks, h);
      BothEndWith(segs, h, d, LeftOver(d, zero + (CRLF + tail), tail))
  {
    var _, codes := ChunkedAgree(r, chunks, zero, tail, segs, h);
    SteadyDelivers(r.(body := ""), chunks, h, codes);
  }

  /** A handler that stops at an error does make a difference. */
  lemma StopsAtErrors(r: Response, chunks: seq<Chunk>, zero: string, tail: string, h: ChunkHandler)
    requires GoodResponse(r, chunks, zero, tail) && |ChunkedPayload(chunks, zero, tail)| < SIZE_MOD
    requires chunks != [] && forall p, ec :: h(p, ec) <==> ec == Ok
    ensures var d := Deliver(r.(body := ""), chunks, h);
      !AlwaysEndsWith(ResponseBlock(r) + ChunkedPayload(chunks, zero, tail), h, d,
        LeftOver(d, zero + (CRLF + tail), tail))
  {
    ChunkedExact(r, chunks, zero, tail, h);
    var d := Deliver(r.(body := ""), chunks, h);
    NothingDelivered(r.(body := ""), chunks, h, Throughout(Ok, |chunks|));
    assert h(d.progress[0], Ok) && !h(d.progress[0], Eof);
  }

  // ---- Handlers that let every chunk pass

  lemma DeliverAll(r: Response, chunks: seq<Chunk>, h: ChunkHandler, codes: seq<ErrorCode>)
    requires Accepts(h) && |codes| == |chunks|
    ensures var d := DeliverUnder(r, chunks, h, codes);
      d.complete && d.response == Append(r, Concat(Datas(chunks)))
  {
    DeliverStops(r, chunks, h, codes);
    var n := |DeliverUnder(r, chunks, h, codes).progress|;
    DeliverProgress(r, chunks, h, codes, n);
    assert Datas(chunks)[..|chunks|] == Datas(chunks);
  }

  ghost predicate BothDeliver(segs: seq<string>, h: ChunkHandler, r: Response, left: string) {
    SyncDelivers(segs, h, r, left) && AsyncDelivers(segs, h, r, left)
  }

  /** Both forms hand over `r` under every segmentation of the wire, and stop in front of `left`. */
  ghost predicate AlwaysDelivered(wire: string, h: ChunkHandler, r: Response, left: string) {
    forall segs :: Concat(segs) == wire ==> BothDeliver(segs, h, r, left)
  }

  lemma ChunkedDelivers(r: Response, chunks: seq<Chunk>, zero: string, tail: string, segs: seq<string>, h: ChunkHandler)
    requires GoodResponse(r, chunks, zero, tail) && Accepts(h)
    requires Concat(segs) == ResponseBlock(r) + ChunkedPayload(chunks, zero, tail)
    ensures BothDeliver(segs, h, r.(body := Concat(Datas(chunks))), tail)
  {
    var _, codes := ChunkedAgree(r, chunks, zero, tail, segs, h);
    DeliverAll(r.(body := ""), chunks, h, codes);
    BodyRestored(r, Concat(Datas(chunks)));
  }

  lemma SwallowedNotDelivered(r: Response, payload: string, h: ChunkHandler, r2: Response, left: string)
    requires PrintableHead(r) && Swallows(CString(payload), ": ") && r2.header == r.header
    ensures !AlwaysDelivered(ResponseBlock(r) + payload, h, r2, left)
  {
    SwallowedFails(r, payload, h, r2, left);
    assert !BothDeliver([ResponseBlock(r) + payload], h, r2, left);
  }

  /** A chunked response is decoded to the concatenation of its chunks by both forms, under
      every segmentation, if and only if the encoded payload does not look like a field. */
  lemma ChunkedRoundTrip(r: Response, chunks: seq<Chunk>, zero: string, tail: string, h: ChunkHandler)
    requires PrintableHead(r) && MarkedChunked(r.header)
    requires GoodChunks(chunks) && SizeText(zero, 0) && Accepts(h)
    ensures AlwaysDelivered(ResponseBlock(r) + ChunkedPayload(chunks, zero, tail), h,
        r.(body := Concat(Datas(chunks))), tail)
      <==> !Swallows(CString(ChunkedPayload(chunks, zero, tail)), ": ")
  {
    var payload, r2 := ChunkedPayload(chunks, zero, tail), r.(body := Concat(Datas(chunks)));
    if Swallows(CString(payload), ": ") {
      SwallowedNotDelivered(r, payload, h, r2, tail);
    } else {
      forall segs | Concat(segs) == ResponseBlock(r) + payload ensures BothDeliver(segs, h, r2, tail) {
        ChunkedDelivers(r, chunks, zero, tail, segs, h);
      }
    }
  }

  lemma ColonlessIsQuiet(payload: string)
    requires ':' !in payload
    ensures !Swallows(CString(payload), ": ")
  {
    LacksFirst(CString(payload), ": ");
    QuietWithoutStop(CString(payload), ": ");
  }

  lemma QuietChunk(c: Chunk, zero: string, tail: string)
    requires ':' !in c.size && ':' !in c.data && ':' !in zero && ':' !in tail
    ensures !Swallows(CString(ChunkedPayload([c], zero, tail)), ": ")
  {
    var ending := zero + (CRLF + tail);
    assert EncodeChunks([c], ending) == c.size + (CRLF + (c.data + (CRLF + ending)));
    ColonlessIsQuiet(EncodeChunks([c], ending));
  }

  /** One chunk of plain text. */
  lemma OneChunk(r: Response, c: Chunk, zero: string, tail: string)
    requires PrintableHead(r) && MarkedChunked(r.header) && GoodChunk(c) && SizeText(zero, 0)
    requires ':' !in c.size && ':' !in c.data && ':' !in zero && ':' !in tail
    ensures GoodResponse(r, [c], zero, tail)
  {
    QuietChunk(c, zero, tail);
  }

  lemma OneField(name: string, value: string, r: Response)
    requires FieldText(name) && FieldText(value) && ':' !in name && r.header == map[name := value]
    requires FieldText(r.version) && ' ' !in r.version && FieldText(r.message) && r.status == 200
    ensures PrintableHead(r)
  {
    LacksFirst(name, ": ");
  }

  lemma ChunkedHead() returns (r: Response)
    ensures PrintableHead(r) && MarkedChunked(r.header)
  {
    r := Response("1.1", 200, "OK", map["Transfer-Encoding" := "chunked"], "");
    OneField("Transfer-Encoding", "chunked", r);
    assert r.header["Transfer-Encoding"] == "chunked";
  }

  lemma SmallChunk() returns (c: Chunk, zero: string)
    ensures GoodChunk(c) && ':' !in c.size && ':' !in c.data && SizeText(zero, 0) && ':' !in zero
  {
    c, zero := Chunk("1", "a"), "0";
  }

  /** A chunked response that meets every requirement above: one chunk, "a". */
  lemma ChunkedExample() returns (r: Response, chunks: seq<Chunk>, zero: string, tail: string)
    ensures GoodResponse(r, chunks, zero, tail) && chunks != []
  {
    r := ChunkedHead();
    var c;
    c, zero := SmallChunk();
    chunks, tail := [c], "";
    OneChunk(r, c, zero, tail);
  }
}
