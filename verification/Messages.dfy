/** Responses and requests: what `http_session` prints and parses, and what the client's
    `reader::read_header` parses. */
module Messages {
  import opened Text
  import opened Radix
  import opened OrderedMap
  import opened Grammar

  datatype Response = Response(version: string, status: int, message: string, header: Fields, body: string)
  datatype Request = Request(method_: string, path: string, version: string, header: Fields, body: string)

  const FRESH_RESPONSE := Response("", 0, "", map[], "")
  const FRESH_REQUEST := Request("", "", "", map[], "")

  // ---- The client's header parser

  /** `qi::int_ >> " " >> +(qi::char_ - "\r\n") >> "\r\n"`, the rest of the status line. */
  function CodeAndMessage(s: string, r: Response): (result: (Response, Parsed<()>))
    ensures result.1.Match? ==> |result.1.rest| <= |s|
    ensures result.0.header == r.header && result.0.body == r.body && result.0.version == r.version
  {
    match ParseInt(s) case Fail => (r, Fail) case Match(status, s1) =>
    var r1 := r.(status := status);
    match Literal(s1, " ") case Fail => (r1, Fail) case Match(_, s2) =>
    match UpTo(s2, CRLF) case Fail => (r1, Fail) case Match(message, s3) =>
    (r1.(message := r1.message + message), Literal(s3, CRLF))
  }

  /** The status line.  A rule that fails leaves what it had already stored in place and
      consumes nothing. */
  function StatusLine(s: string, r: Response): (result: (Response, string))
    ensures |result.1| <= |s| && result.0.header == r.header && result.0.body == r.body
  {
    match Literal(s, "HTTP/") case Fail => (r, s) case Match(_, s1) =>
    match UpTo(s1, " ") case Fail => (r, s) case Match(version, s2) =>
    var r2 := r.(version := r.version + version);
    match Literal(s2, " ") case Fail => (r2, s) case Match(_, s3) =>
    var (r4, end) := CodeAndMessage(s3, r2);
    (r4, if end.Match? then end.rest else s)
  }

  /** `reader::read_header`: the updated response and the number of characters consumed. */
  function ReadHeader(source: string, r: Response): (result: (Response, nat))
    ensures result.1 <= |source| && result.0.body == r.body
  {
    var (r1, s1) := StatusLine(source, r);
    var (es, s2) := FieldList(s1, ": ");
    var s3 := match Literal(s2, CRLF) case Fail => s2 case Match(_, rest) => rest;
    (r1.(header := InsertAll(r1.header, es)), |source| - |s3|)
  }

  // ---- The server's printer

  function StatusText(r: Response): string {
    "HTTP/" + (r.version + (" " + (IntText(r.status) + (" " + r.message))))
  }

  /** `response_generater`: the blank line is written only in front of a non-empty body. */
  function PrintResponse(r: Response): string {
    StatusText(r) + (CRLF + (FieldLines(Entries(r.header)) + (if r.body == "" then "" else CRLF + r.body)))
  }

  function ResponseBlock(r: Response): string {
    Block(StatusText(r), Entries(r.header))
  }

  /** A head the printed form can carry. */
  predicate PrintableHead(r: Response) {
    && FieldText(r.version) && ' ' !in r.version
    && FieldText(r.message)
    && -INT_MAX - 1 <= r.status <= INT_MAX
    && forall k :: k in r.header ==> GoodField((k, r.header[k]), ": ")
  }

  lemma IntTextIsPlain(v: int)
    ensures var s := IntText(v); '\r' !in s && '\0' !in s && ' ' !in s
  {
  }

  lemma StatusTextIsLine(r: Response)
    requires PrintableHead(r)
    ensures FieldText(StatusText(r))
  {
    IntTextIsPlain(r.status);
  }

  lemma CodeAndMessageParses(status: int, message: string, r: Response, rest: string)
    requires -INT_MAX - 1 <= status <= INT_MAX && FieldText(message)
    ensures CodeAndMessage(IntText(status) + (" " + (message + (CRLF + rest))), r)
      == (r.(status := status, message := r.message + message), Match((), rest))
  {
    var s2 := message + (CRLF + rest);
    IntRoundTrip(status, " " + s2);
    LiteralMatches(" ", s2);
    LacksFirst(message, CRLF);
    UpToStops(message, CRLF, rest);
    LiteralMatches(CRLF, rest);
  }

  lemma WordParses(word: string, on: string)
    requires word != "" && ' ' !in word
    ensures var s := word + (" " + on);
      UpTo(s, " ") == Match(word, " " + on) && Literal(" " + on, " ") == Match((), on)
  {
    LacksFirst(word, " ");
    UpToStops(word, " ", on);
    LiteralMatches(" ", on);
  }

  lemma StatusLineSteps(s1: string, version: string, s2: string, s3: string, r: Response)
    requires UpTo(s1, " ") == Match(version, s2) && Literal(s2, " ") == Match((), s3)
    requires CodeAndMessage(s3, r.(version := r.version + version)).1.Match?
    ensures var (r4, end) := CodeAndMessage(s3, r.(version := r.version + version));
      StatusLine("HTTP/" + s1, r) == (r4, end.rest)
  {
    LiteralMatches("HTTP/", s1);
  }

  /** The status line as one text in front of `rest`. */
  lemma StatusTextSplit(r: Response, rest: string)
    ensures StatusText(r) + rest
      == "HTTP/" + (r.version + (" " + (IntText(r.status) + (" " + (r.message + rest)))))
  {
    var a := " " + r.message;
    var b := IntText(r.status) + a;
    Regroup(" ", r.message, rest);
    Regroup(IntText(r.status), a, rest);
    Regroup(" ", b, rest);
    Regroup(r.version, " " + b, rest);
    Regroup("HTTP/", r.version + (" " + b), rest);
  }

  lemma StatusLineParses(r: Response, rest: string)
    requires PrintableHead(r)
    ensures StatusLine(StatusText(r) + (CRLF + rest), FRESH_RESPONSE)
      == (r.(header := map[], body := ""), rest)
  {
    var s3 := IntText(r.status) + (" " + (r.message + (CRLF + rest)));
    StatusTextSplit(r, CRLF + rest);
    WordParses(r.version, s3);
    CodeAndMessageParses(r.status, r.message, FRESH_RESPONSE.(version := "" + r.version), rest);
    StatusLineSteps(r.version + (" " + s3), r.version, " " + s3, s3, FRESH_RESPONSE);
    assert "" + r.version == r.version && "" + r.message == r.message;
  }

  lemma UpToAll(s: string, stop: string)
    requires s != "" && stop != "" && !Contains(s, stop)
    ensures UpTo(s, stop) == Match(s, "")
  {
    assert s[..|s|] == s && s[|s|..] == "";
  }

  lemma BehindVersion(version: string, s3: string, r: Response)
    requires version != "" && ' ' !in version
    ensures var s := "HTTP/" + (version + (" " + s3));
      var (r4, end) := CodeAndMessage(s3, r.(version := r.version + version));
      StatusLine(s, r) == (r4, if end.Match? then end.rest else s)
  {
    LiteralMatches("HTTP/", version + (" " + s3));
    WordParses(version, s3);
  }

  /** A malformed status line is not consumed, but the parts in front of the failure are kept:
      nothing, the version, ... */
  lemma StatusLineBroken(version: string, more: string, r: Response)
    requires version != "" && ' ' !in version
    ensures forall s: string :: !("HTTP/" <= s) ==> StatusLine(s, r) == (r, s)
    ensures StatusLine("HTTP/" + version, r) == (r.(version := r.version + version), "HTTP/" + version)
    ensures var s := "HTTP/" + (version + (" " + more));
      ParseInt(more).Fail? ==> StatusLine(s, r) == (r.(version := r.version + version), s)
  {
    LiteralMatches("HTTP/", version);
    LacksFirst(version, " ");
    UpToAll(version, " ");
    LiteralMatches("HTTP/", version + (" " + more));
    WordParses(version, more);
  }

  /** ... the status code and the message as well. */
  lemma StatusLineCutOff(version: string, status: int, more: string, message: string, r: Response)
    requires version != "" && ' ' !in version && -INT_MAX - 1 <= status <= INT_MAX
    requires message != "" && !Contains(message, CRLF)
    ensures var s := "HTTP/" + (version + (" " + (IntText(status) + more)));
      more == "" || (!IsDigit(10, more[0]) && more[0] != ' ') ==>
        StatusLine(s, r) == (r.(version := r.version + version, status := status), s)
    ensures var s := "HTTP/" + (version + (" " + (IntText(status) + (" " + message))));
      StatusLine(s, r) ==
        (r.(version := r.version + version, status := status, message := r.message + message), s)
  {
    BehindVersion(version, IntText(status) + more, r);
    BehindVersion(version, IntText(status) + (" " + message), r);
    CodeBroken(status, more, r.(version := r.version + version));
    MessageBroken(status, message, r.(version := r.version + version));
  }

  /** Where a part is empty: the text ends, or what should end the part begins it. */
  predicate NoPart(s: string, stop: string) {
    s == "" || stop <= s
  }

  lemma NoPartFails(s: string, stop: string)
    requires stop != "" && NoPart(s, stop)
    ensures UpTo(s, stop) == Fail
  {
    assert s[0..] == s;
  }

  /** The same where the version or the message is missing. */
  lemma StatusLineEmptyPart(version: string, status: int, more: string, r: Response)
    requires version != "" && ' ' !in version && -INT_MAX - 1 <= status <= INT_MAX
    ensures var s := "HTTP/" + more; NoPart(more, " ") ==> StatusLine(s, r) == (r, s)
    ensures var s := "HTTP/" + (version + (" " + (IntText(status) + (" " + more))));
      NoPart(more, CRLF) ==> StatusLine(s, r) == (r.(version := r.version + version, status := status), s)
  {
    LiteralMatches("HTTP/", more);
    if NoPart(more, " ") {
      NoPartFails(more, " ");
    }
    BehindVersion(version, IntText(status) + (" " + more), r);
    if NoPart(more, CRLF) {
      MessageMissing(status, more, r.(version := r.version + version));
    }
  }

  lemma MessageMissing(status: int, more: string, r: Response)
    requires -INT_MAX - 1 <= status <= INT_MAX && NoPart(more, CRLF)
    ensures CodeAndMessage(IntText(status) + (" " + more), r) == (r.(status := status), Fail)
  {
    IntRoundTrip(status, " " + more);
    LiteralMatches(" ", more);
    NoPartFails(more, CRLF);
  }

  lemma CodeBroken(status: int, more: string, r: Response)
    requires -INT_MAX - 1 <= status <= INT_MAX
    ensures more == "" || (!IsDigit(10, more[0]) && more[0] != ' ') ==>
      CodeAndMessage(IntText(status) + more, r) == (r.(status := status), Fail)
  {
    if more == "" || (!IsDigit(10, more[0]) && more[0] != ' ') {
      IntRoundTrip(status, more);
      assert Literal(more, " ").Fail?;
    }
  }

  lemma MessageBroken(status: int, message: string, r: Response)
    requires -INT_MAX - 1 <= status <= INT_MAX && message != "" && !Contains(message, CRLF)
    ensures CodeAndMessage(IntText(status) + (" " + message), r)
      == (r.(status := status, message := r.message + message), Fail)
  {
    IntRoundTrip(status, " " + message);
    LiteralMatches(" ", message);
    UpToAll(message, CRLF);
  }

  lemma BlockSplit(first: string, es: seq<Entry>, rest: string)
    ensures Block(first, es) + rest == first + (CRLF + (FieldLines(es) + (CRLF + rest)))
  {
  }

  /** The header block is consumed exactly, with exactly its fields, if and only if what the
      buffer holds after it does not look like another field. */
  lemma HeaderExact(r: Response, rest: string)
    requires PrintableHead(r)
    ensures var (got, n) := ReadHeader(ResponseBlock(r) + rest, FRESH_RESPONSE);
      if Swallows(rest, ": ") then got.header != r.header
      else got == r.(body := "") && n == |ResponseBlock(r)|
  {
    var es := Entries(r.header);
    var source := ResponseBlock(r) + rest;
    BlockSplit(StatusText(r), es, rest);
    GoodEntries(r.header, ": ");
    var s1 := FieldLines(es) + (CRLF + rest);
    StatusLineParses(r, s1);
    FieldListExact(es, ": ", rest);
    var (found, s2) := FieldList(s1, ": ");
    if Swallows(rest, ": ") {
      ExtraKey(r.header, found, |es|);
    } else {
      Rebuild(r.header);
      LiteralMatches(CRLF, rest);
    }
  }

  lemma StatusLineOnto(r0: Response, r: Response, rest: string)
    requires PrintableHead(r)
    ensures StatusLine(ResponseBlock(r) + rest, r0) ==
      (r0.(version := r0.version + r.version, status := r.status, message := r0.message + r.message),
       FieldLines(Entries(r.header)) + (CRLF + rest))
  {
    var s1 := FieldLines(Entries(r.header)) + (CRLF + rest);
    BlockSplit(StatusText(r), Entries(r.header), rest);
    StatusTextSplit(r, CRLF + s1);
    BehindVersion(r.version, IntText(r.status) + (" " + (r.message + (CRLF + s1))), r0);
    CodeAndMessageParses(r.status, r.message, r0.(version := r0.version + r.version), s1);
  }

  lemma ResponseHeaderSteps(
      source: string, r: Response, r1: Response, s1: string, es: seq<Entry>, s2: string, rest: string)
    requires StatusLine(source, r) == (r1, s1) && FieldList(s1, ": ") == (es, s2)
    requires Literal(s2, CRLF) == Match((), rest)
    ensures ReadHeader(source, r).0 == r1.(header := InsertAll(r1.header, es))
    ensures ReadHeader(source, r).1 == |source| - |rest|
  {
  }

  lemma ResponseFields(r: Response, rest: string)
    requires PrintableHead(r) && !Swallows(rest, ": ")
    ensures FieldList(FieldLines(Entries(r.header)) + (CRLF + rest), ": ") == (Entries(r.header), CRLF + rest)
  {
    GoodEntries(r.header, ": ");
    FieldListExact(Entries(r.header), ": ", rest);
  }

  /** A response parsed on top of another one: texts are appended, and fields already there stay. */
  lemma HeaderOnto(r0: Response, r: Response, rest: string)
    requires PrintableHead(r) && !Swallows(rest, ": ")
    ensures var (got, n) := ReadHeader(ResponseBlock(r) + rest, r0);
      && got == Response(r0.version + r.version, r.status, r0.message + r.message, r.header + r0.header, r0.body)
      && n == |ResponseBlock(r)|
  {
    StatusLineOnto(r0, r, rest);
    ResponseFields(r, rest);
    var (r1, s1) := StatusLine(ResponseBlock(r) + rest, r0);
    InsertOnto(r0.header, r.header);
    LiteralMatches(CRLF, rest);
    ResponseHeaderSteps(ResponseBlock(r) + rest, r0, r1, s1, Entries(r.header), CRLF + rest, rest);
  }

  lemma ExtraKey(m: Fields, found: seq<Entry>, i: nat)
    requires forall k :: k in m ==> '\r' !in k
    requires i < |found| && found[i].0 != "" && found[i].0[0] == '\r'
    ensures InsertAll(map[], found) != m
  {
    InsertAllKeeps(map[], found);
    var (k, v) := found[i];
    assert (k, v) in found;
    assert k[0] in k;
  }

  // ---- The server's request parser

  /** `+(char_-"\r\n") >> "\r\n"`, the rest of the request line. */
  function VersionRule(s: string, q: Request): (result: (Request, Parsed<()>))
    ensures result.1.Match? ==> |result.1.rest| <= |s|
    ensures result.0.header == q.header && result.0.body == q.body
  {
    match UpTo(s, CRLF) case Fail => (q, Fail) case Match(version, s1) =>
    (q.(version := q.version + version), Literal(s1, CRLF))
  }

  /** `+(char_-' ') >> ' ' >> +(char_-' ') >> ' ' >> +(char_-"\r\n") >> "\r\n"` */
  function RequestLine(s: string, q: Request): (result: (Request, string))
    ensures |result.1| <= |s| && result.0.header == q.header && result.0.body == q.body
  {
    match UpTo(s, " ") case Fail => (q, s) case Match(method_, s1) =>
    var q1 := q.(method_ := q.method_ + method_);
    match Literal(s1, " ") case Fail => (q1, s) case Match(_, s2) =>
    match UpTo(s2, " ") case Fail => (q1, s) case Match(path, s3) =>
    var q3 := q1.(path := q1.path + path);
    match Literal(s3, " ") case Fail => (q3, s) case Match(_, s4) =>
    var (q5, end) := VersionRule(s4, q3);
    (q5, if end.Match? then end.rest else s)
  }

  /** `request_header_parser`: the fields and the blank line are one rule, so without the blank
      line nothing after the request line counts as consumed, though the fields are kept. */
  function ReadRequestHeader(source: string, q: Request): (result: (Request, nat))
    ensures result.1 <= |source| && result.0.body == q.body
  {
    var (q1, s1) := RequestLine(source, q);
    var (es, s2) := FieldList(s1, ":");
    var s3 := match Literal(s2, CRLF) case Fail => s1 case Match(_, rest) => rest;
    (q1.(header := InsertAll(q1.header, es)), |source| - |s3|)
  }

  function RequestText(q: Request): string {
    q.method_ + (" " + (q.path + (" " + q.version)))
  }

  function RequestBlock(q: Request): string {
    Block(RequestText(q), Entries(q.header))
  }

  predicate SendableHead(q: Request) {
    && FieldText(q.method_) && ' ' !in q.method_
    && FieldText(q.path) && ' ' !in q.path
    && FieldText(q.version)
    && forall k :: k in q.header ==> GoodField((k, q.header[k]), ":")
  }

  /** A malformed request line is not consumed, but the parts in front of the failure are kept. */
  lemma RequestLineBroken(method_: string, path: string, version: string, q: Request)
    requires method_ != "" && ' ' !in method_ && path != "" && ' ' !in path
    requires version != "" && !Contains(version, CRLF)
    ensures RequestLine(method_, q) == (q.(method_ := q.method_ + method_), method_)
    ensures var s := method_ + (" " + path);
      RequestLine(s, q) == (q.(method_ := q.method_ + method_, path := q.path + path), s)
    ensures var s := method_ + (" " + (path + (" " + version)));
      RequestLine(s, q) ==
        (q.(method_ := q.method_ + method_, path := q.path + path, version := q.version + version), s)
  {
    LacksFirst(method_, " ");
    LacksFirst(path, " ");
    UpToAll(method_, " ");
    UpToAll(path, " ");
    UpToAll(version, CRLF);
    WordParses(method_, path);
    WordParses(method_, path + (" " + version));
    WordParses(path, version);
  }

  /** The same where a part is missing. */
  lemma RequestLineEmptyPart(method_: string, path: string, more: string, q: Request)
    requires method_ != "" && ' ' !in method_ && path != "" && ' ' !in path
    ensures NoPart(more, " ") ==> RequestLine(more, q) == (q, more)
    ensures var s := method_ + (" " + more);
      NoPart(more, " ") ==> RequestLine(s, q) == (q.(method_ := q.method_ + method_), s)
    ensures var s := method_ + (" " + (path + (" " + more)));
      NoPart(more, CRLF) ==>
        RequestLine(s, q) == (q.(method_ := q.method_ + method_, path := q.path + path), s)
  {
    WordParses(method_, more);
    WordParses(method_, path + (" " + more));
    WordParses(path, more);
    if NoPart(more, " ") {
      NoPartFails(more, " ");
    }
    if NoPart(more, CRLF) {
      NoPartFails(more, CRLF);
    }
  }

  lemma RequestTextIsLine(q: Request)
    requires SendableHead(q)
    ensures FieldText(RequestText(q))
  {
  }

  lemma RequestTextSplit(q: Request, rest: string)
    ensures RequestText(q) + rest == q.method_ + (" " + (q.path + (" " + (q.version + rest))))
  {
    var a := " " + q.version;
    var b := q.path + a;
    Regroup(" ", q.version, rest);
    Regroup(q.path, a, rest);
    Regroup(" ", b, rest);
    Regroup(q.method_, " " + b, rest);
  }

  lemma RequestLineSteps(
      s: string, method_: string, s1: string, s2: string, path: string, s3: string, s4: string, q: Request)
    requires UpTo(s, " ") == Match(method_, s1) && Literal(s1, " ") == Match((), s2)
    requires UpTo(s2, " ") == Match(path, s3) && Literal(s3, " ") == Match((), s4)
    ensures var (q5, end) := VersionRule(s4, q.(method_ := q.method_ + method_, path := q.path + path));
      end.Match? ==> RequestLine(s, q) == (q5, end.rest)
  {
  }

  lemma VersionRuleParses(version: string, rest: string, q: Request)
    requires FieldText(version)
    ensures VersionRule(version + (CRLF + rest), q) == (q.(version := q.version + version), Match((), rest))
  {
    LacksFirst(version, CRLF);
    UpToStops(version, CRLF, rest);
    LiteralMatches(CRLF, rest);
  }

  lemma RequestLineParses(q: Request, rest: string)
    requires SendableHead(q)
    ensures RequestLine(RequestText(q) + (CRLF + rest), FRESH_REQUEST) == (q.(header := map[], body := ""), rest)
  {
    RequestTextSplit(q, CRLF + rest);
    RequestLineOnto(q.method_, q.path, q.version, rest, FRESH_REQUEST);
    assert "" + q.method_ == q.method_ && "" + q.path == q.path && "" + q.version == q.version;
  }

  lemma RequestLineOnto(method_: string, path: string, version: string, rest: string, q: Request)
    requires FieldText(version) && method_ != "" && ' ' !in method_ && path != "" && ' ' !in path
    ensures RequestLine(method_ + (" " + (path + (" " + (version + (CRLF + rest))))), q)
      == (q.(method_ := q.method_ + method_, path := q.path + path, version := q.version + version), rest)
  {
    var s4 := version + (CRLF + rest);
    var s2 := path + (" " + s4);
    WordParses(method_, s2);
    WordParses(path, s4);
    VersionRuleParses(version, rest, q.(method_ := q.method_ + method_, path := q.path + path));
    RequestLineSteps(method_ + (" " + s2), method_, " " + s2, s2, path, " " + s4, s4, q);
  }

  lemma RequestLineAtBlock(q0: Request, q: Request, rest: string)
    requires SendableHead(q)
    ensures RequestLine(RequestBlock(q) + rest, q0) ==
      (q0.(method_ := q0.method_ + q.method_, path := q0.path + q.path, version := q0.version + q.version),
       FieldLines(Entries(q.header)) + (CRLF + rest))
  {
    var s1 := FieldLines(Entries(q.header)) + (CRLF + rest);
    BlockSplit(RequestText(q), Entries(q.header), rest);
    RequestTextSplit(q, CRLF + s1);
    RequestLineOnto(q.method_, q.path, q.version, s1, q0);
  }

  lemma FieldsBehindLine(q: Request, rest: string)
    requires SendableHead(q) && !Swallows(rest, ":")
    ensures FieldList(FieldLines(Entries(q.header)) + (CRLF + rest), ":") == (Entries(q.header), CRLF + rest)
  {
    GoodEntries(q.header, ":");
    FieldListExact(Entries(q.header), ":", rest);
  }

  /** A request parsed on top of an earlier one: text is appended, and fields already there stay. */
  function Onto(q0: Request, q: Request): Request {
    Request(q0.method_ + q.method_, q0.path + q.path, q0.version + q.version, q.header + q0.header, q0.body)
  }

  lemma RequestHeaderOnto(q0: Request, q: Request, rest: string)
    requires SendableHead(q) && !Swallows(rest, ":")
    ensures ReadRequestHeader(RequestBlock(q) + rest, q0).0 == Onto(q0, q)
    ensures ReadRequestHeader(RequestBlock(q) + rest, q0).1 == |RequestBlock(q)|
  {
    RequestLineAtBlock(q0, q, rest);
    FieldsBehindLine(q, rest);
    var (q1, s1) := RequestLine(RequestBlock(q) + rest, q0);
    InsertOnto(q0.header, q.header);
    RequestHeaderSteps(
      RequestBlock(q) + rest, q0, q1, s1, Entries(q.header), rest, Onto(q0, q), |RequestBlock(q)|);
  }

  lemma RequestHeaderSteps(
      source: string, q: Request, q1: Request, s1: string, es: seq<Entry>, rest: string, got: Request, n: nat)
    requires RequestLine(source, q) == (q1, s1) && FieldList(s1, ":") == (es, CRLF + rest)
    requires got == q1.(header := InsertAll(q1.header, es)) && n + |rest| == |source|
    ensures ReadRequestHeader(source, q).0 == got && ReadRequestHeader(source, q).1 == n
  {
    LiteralMatches(CRLF, rest);
  }

  lemma RequestHeaderOpen(
      source: string, q: Request, q1: Request, s1: string, es: seq<Entry>, got: Request, n: nat)
    requires RequestLine(source, q) == (q1, s1) && FieldList(s1, ":") == (es, "")
    requires got == q1.(header := InsertAll(q1.header, es)) && n + |s1| == |source|
    ensures ReadRequestHeader(source, q).0 == got && ReadRequestHeader(source, q).1 == n
  {
  }

  /** Without the blank line the fields are kept, but only the request line counts as consumed. */
  lemma RequestWithoutBlankLine(q: Request)
    requires SendableHead(q)
    ensures var lines := FieldLines(Entries(q.header));
      var (got, n) := ReadRequestHeader(RequestText(q) + (CRLF + lines), FRESH_REQUEST);
      got == q.(body := "") && n == |RequestText(q)| + 2
  {
    OpenHeader(q, FieldLines(Entries(q.header)), RequestText(q) + (CRLF + FieldLines(Entries(q.header))));
  }

  lemma OpenHeader(q: Request, lines: string, source: string)
    requires SendableHead(q) && lines == FieldLines(Entries(q.header)) && source == RequestText(q) + (CRLF + lines)
    ensures ReadRequestHeader(source, FRESH_REQUEST).0 == q.(body := "")
    ensures ReadRequestHeader(source, FRESH_REQUEST).1 == |RequestText(q)| + 2
  {
    RequestLineParses(q, lines);
    LinesAlone(q);
    Rebuild(q.header);
    var q1, n := q.(header := map[], body := ""), |RequestText(q)| + 2;
    RequestHeaderOpen(source, FRESH_REQUEST, q1, lines, Entries(q.header), q.(body := ""), n);
  }

  lemma LinesAlone(q: Request)
    requires SendableHead(q)
    ensures FieldList(FieldLines(Entries(q.header)), ":") == (Entries(q.header), "")
  {
    GoodEntries(q.header, ":");
    FieldsAlone(Entries(q.header), ":");
  }

  /** Parsing never takes anything back: text is only appended, and fields are only added. */
  predicate Grows(a: Request, b: Request) {
    && a.method_ <= b.method_ && a.path <= b.path && a.version <= b.version && a.body <= b.body
    && forall k :: k in a.header ==> k in b.header && b.header[k] == a.header[k]
  }

  lemma RequestLineGrows(s: string, q: Request)
    ensures Grows(q, RequestLine(s, q).0)
  {
  }

  lemma RequestHeaderGrows(source: string, q: Request)
    ensures Grows(q, ReadRequestHeader(source, q).0)
  {
    RequestLineGrows(source, q);
    var (q1, s1) := RequestLine(source, q);
    InsertAllKeeps(q1.header, FieldList(s1, ":").0);
  }

  /** As `HeaderExact`, for requests and their looser rule for names. */
  lemma RequestHeaderExact(q: Request, rest: string)
    requires SendableHead(q)
    ensures var (got, n) := ReadRequestHeader(RequestBlock(q) + rest, FRESH_REQUEST);
      if Swallows(rest, ":") then got.header != q.header
      else got == q.(body := "") && n == |RequestBlock(q)|
  {
    var es := Entries(q.header);
    BlockSplit(RequestText(q), es, rest);
    GoodEntries(q.header, ":");
    var s1 := FieldLines(es) + (CRLF + rest);
    RequestLineParses(q, s1);
    FieldListExact(es, ":", rest);
    var (found, s2) := FieldList(s1, ":");
    if Swallows(rest, ":") {
      ExtraKey(q.header, found, |es|);
    } else {
      Rebuild(q.header);
      LiteralMatches(CRLF, rest);
    }
  }
}
