/** A request to the server and its answer back to the client. */
module Exchange {
  import opened Text
  import opened Grammar
  import opened Messages
  import opened EndToEnd
  import opened Session
  import opened RequestReading
  import opened Server

  /** Both of the client's readers get `r` from this text, however it is cut. */
  ghost predicate Arrives(text: string, r: Response) {
    forall segs, h :: Concat(segs) == text ==> SyncDelivers(segs, h, r, "") && AsyncDelivers(segs, h, r, "")
  }

  lemma PrintedArrives(r: Response)
    requires Sendable(r)
    ensures Arrives(PrintResponse(r), r)
  {
    forall segs, h | Concat(segs) == PrintResponse(r)
      ensures SyncDelivers(segs, h, r, "") && AsyncDelivers(segs, h, r, "")
    {
      DeliversQuiet(r, segs, h);
    }
  }

  /** The first exchange of a connection: the request handler is shown the request that was sent,
      and what the session writes reaches the client as the handler's answer to that request,
      wherever the two streams are cut. */
  lemma FirstExchange(q: Request, segs: seq<string>, handler: RequestHandler) returns (text: string)
    requires SendableHead(q) && Declares(q.header, |q.body|) && !Swallows(q.body, ":") && '\0' !in q.body
    requires Concat(segs) == RequestBlock(q) + q.body && Sendable(handler(q))
    ensures Receives(segs, handler, q) && FirstRequest(segs, handler).ops == [Write(text)]
    ensures Arrives(text, handler(q))
  {
    ReceivesQuiet(q, segs, handler);
    var l, ahead := RequestBlockRead(q, segs);
    HandledIsAnswered(segs, l, handler, q);
    text := PrintResponse(handler(q));
    PrintedArrives(handler(q));
  }

  /** Each printed answer arrives as the answer to its request ... */
  ghost predicate Answering(texts: seq<string>, handled: seq<Request>, handler: RequestHandler) {
    && |texts| == |handled|
    && forall i :: 0 <= i < |handled| && Sendable(handler(handled[i])) ==> Arrives(texts[i], handler(handled[i]))
  }

  lemma AnswersArrive(handled: seq<Request>, handler: RequestHandler)
    ensures Answering(Answers(handled, handler), handled, handler)
  {
    forall i | 0 <= i < |handled| && Sendable(handler(handled[i]))
      ensures Arrives(Answers(handled, handler)[i], handler(handled[i]))
    {
      PrintedArrives(handler(handled[i]));
    }
  }

  /** ... over every run of a session, keep-alive rounds included: the texts written so far and the
      one being written are the answers to the requests handled, in order. */
  lemma RunExchanges(events: seq<Event>, handler: RequestHandler)
    requires PossibleEvents(OnStart(NEW_SESSION), events, handler)
    ensures var s := After(OnStart(NEW_SESSION), events, handler);
      Answering(Wrote(OnStart(NEW_SESSION), events, handler) + PendingText(s), s.handled, handler)
  {
    RunAnswers(events, handler);
    AnswersArrive(After(OnStart(NEW_SESSION), events, handler).handled, handler);
  }

  /** ... and over every run of the server, for each of its sessions. */
  lemma ServerExchanges<S>(run: seq<Action<S>>, handler: RequestHandler, id: S)
    requires PossibleRun(Empty<S>(), run, handler) && Begun(WorldAfter(Empty<S>(), run, handler), id)
    ensures PossibleEvents(OnStart(NEW_SESSION), EventsOf(run, id), handler)
    ensures var s := WorldAfter(Empty<S>(), run, handler).sessions[id];
      Answering(Wrote(OnStart(NEW_SESSION), EventsOf(run, id), handler) + PendingText(s), s.handled, handler)
  {
    SessionIsRun(run, handler, id);
    RunExchanges(EventsOf(run, id), handler);
  }
}
