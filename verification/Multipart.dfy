/** Multipart bodies as values: rendering, and why it can be undone (RFC 2046 section 5.1.1). */
module Multipart {
  import opened Text
  import opened OrderedMap
  import opened Grammar
  import opened Options

  /** A content object with its caches forgotten.  `mediaType` is what
      `content_base::get_content_type` prints: type and attributes. */
  datatype Tree =
    | Leaf(mediaType: string, body: string)
    | Multi(mediaType: string, boundary: string, parts: seq<Part>)

  datatype Part = Part(header: Fields, content: Tree)

  const BOUNDARY_MARK := "; boundary=\""
  const CONTENT_TYPE := "Content-Type"

  function ContentType(t: Tree): string {
    match t
    case Leaf(mediaType, _) => mediaType
    case Multi(mediaType, boundary, _) => mediaType + (BOUNDARY_MARK + (boundary + "\""))
  }

  function Body(t: Tree): string
    decreases t, 0
  {
    match t
    case Leaf(_, body) => body
    case Multi(_, boundary, parts) => PartsText(parts, boundary) + ("--" + (boundary + "--"))
  }

  /** A part's header lines, blank line and body. */
  function PartText(p: Part): string
    decreases p, 0
  {
    FieldLines(Entries(p.header)) + (CONTENT_TYPE + (": " + (ContentType(p.content) + (BLANK_LINE + Body(p.content)))))
  }

  function PartsText(parts: seq<Part>, boundary: string): string
    decreases parts, 1
  {
    if parts == [] then "" else
      "--" + (boundary + (CRLF + (PartText(parts[0]) + (CRLF + PartsText(parts[1..], boundary)))))
  }

  // ---- Splitting at the delimiter

  function Delimiter(boundary: string): string {
    CRLF + ("--" + boundary)
  }

  function SplitOn(s: string, d: string): (pieces: seq<string>)
    requires d != ""
    ensures pieces != [] && forall i :: 0 <= i < |pieces| ==> !Contains(pieces[i], d)
    decreases |s|
  {
    var i := Find(s, d);
    if i == |s| then [s] else
      AtChars(s, i, d);
      PieceLacks(s, d);
      [s[..i]] + SplitOn(s[i + |d|..], d)
  }

  lemma PieceLacks(s: string, d: string)
    requires d != ""
    ensures !Contains(s[..Find(s, d)], d)
  {
    var i := Find(s, d);
    assert s[..i] + s[i..] == s;
    if Contains(s[..i], d) {
      FindExtends(s[..i], s[i..], d);
    }
  }

  /** `d text0 d text1 ... d "--"` */
  function Interleaved(texts: seq<string>, d: string): string {
    d + (if texts == [] then "--" else texts[0] + Interleaved(texts[1..], d))
  }

  lemma SplitStep(x: string, d: string, rest: string)
    requires Leads(d) && !Contains(x, d)
    ensures SplitOn(x + (d + rest), d) == [x] + SplitOn(rest, d)
  {
    var s := x + (d + rest);
    Regroup(x, d, rest);
    FindDelimiter(x, d, rest);
    assert s[..|x|] == x && s[|x| + |d|..] == rest;
  }

  lemma {:induction false} SplitInverts(x: string, texts: seq<string>, d: string)
    requires Leads(d) && |d| > 2 && !Contains(x, d)
    requires forall i :: 0 <= i < |texts| ==> !Contains(texts[i], d)
    ensures SplitOn(x + Interleaved(texts, d), d) == [x] + (texts + ["--"])
    decreases |texts|
  {
    if texts == [] {
      SplitStep(x, d, "--");
      AtChars("--", Find("--", d), d);
      assert texts + ["--"] == ["--"];
    } else {
      var more := texts[1..];
      SplitStep(x, d, texts[0] + Interleaved(more, d));
      SplitInverts(texts[0], more, d);
      HeadAndTail(texts, ["--"]);
    }
  }

  /** A part as it stands between two delimiters. */
  function Enclosed(parts: seq<Part>): (texts: seq<string>)
    ensures |texts| == |parts|
    ensures forall i :: 0 <= i < |parts| ==> texts[i] == CRLF + PartText(parts[i])
  {
    seq(|parts|, i requires 0 <= i < |parts| => CRLF + PartText(parts[i]))
  }

  /** Nothing in the parts looks like the delimiter. */
  predicate Unambiguous(parts: seq<Part>, boundary: string) {
    forall i :: 0 <= i < |parts| ==> !Contains(CRLF + PartText(parts[i]), Delimiter(boundary))
  }

  predicate GoodBoundary(boundary: string) {
    '\r' !in boundary && '"' !in boundary && '\0' !in boundary
  }

  lemma DelimiterLeads(boundary: string)
    requires GoodBoundary(boundary)
    ensures Leads(Delimiter(boundary)) && |Delimiter(boundary)| > 2
  {
    assert Delimiter(boundary)[1..] == "\n--" + boundary;
  }

  lemma {:induction false} BodyInterleaves(parts: seq<Part>, boundary: string)
    ensures CRLF + (PartsText(parts, boundary) + ("--" + (boundary + "--")))
      == Interleaved(Enclosed(parts), Delimiter(boundary))
    decreases |parts|
  {
    var d, ending := Delimiter(boundary), "--" + (boundary + "--");
    if parts == [] {
      assert "" + ending == ending;
      Regroup("--", boundary, "--");
      Regroup(CRLF, "--" + boundary, "--");
    } else {
      var p, more := PartText(parts[0]), PartsText(parts[1..], boundary);
      BodyInterleaves(parts[1..], boundary);
      assert Enclosed(parts)[1..] == Enclosed(parts[1..]);
      OnePart(boundary, p, more, ending);
    }
  }

  lemma OnePart(boundary: string, p: string, more: string, ending: string)
    ensures CRLF + ("--" + (boundary + (CRLF + (p + (CRLF + more)))) + ending)
      == CRLF + ("--" + boundary) + (CRLF + p + (CRLF + (more + ending)))
  {
    var a := CRLF + more;
    Regroup(CRLF, more, ending);
    Regroup(p, a, ending);
    Regroup(CRLF, p + a, ending);
    Regroup(boundary, CRLF + (p + a), ending);
    Regroup("--", boundary + (CRLF + (p + a)), ending);
    var b := CRLF + (p + (CRLF + (more + ending)));
    Regroup(CRLF, p, CRLF + (more + ending));
    Regroup("--", boundary, b);
    Regroup(CRLF, "--" + boundary, b);
  }

  lemma SplitClean(parts: seq<Part>, boundary: string)
    requires GoodBoundary(boundary) && Unambiguous(parts, boundary)
    ensures SplitOn(Interleaved(Enclosed(parts), Delimiter(boundary)), Delimiter(boundary))
      == [""] + (Enclosed(parts) + ["--"])
  {
    var all := Interleaved(Enclosed(parts), Delimiter(boundary));
    DelimiterLeads(boundary);
    SplitInverts("", Enclosed(parts), Delimiter(boundary));
    assert "" + all == all;
  }

  lemma PiecesAreClean(s: string, parts: seq<Part>, boundary: string)
    requires SplitOn(s, Delimiter(boundary)) == [""] + (Enclosed(parts) + ["--"])
    ensures Unambiguous(parts, boundary)
  {
    var pieces, d := SplitOn(s, Delimiter(boundary)), Delimiter(boundary);
    forall i | 0 <= i < |parts| ensures !Contains(CRLF + PartText(parts[i]), d) {
      MiddleElement(Enclosed(parts), i);
      assert !Contains(pieces[i + 1], d);
    }
  }

  lemma MiddleElement(texts: seq<string>, i: nat)
    requires i < |texts|
    ensures ([""] + (texts + ["--"]))[i + 1] == texts[i]
  {
  }

  /** Splitting a rendered body at its delimiters gives back exactly its parts if and only if no
      part looks like a delimiter. */
  lemma SplitBody(parts: seq<Part>, boundary: string, mediaType: string)
    requires GoodBoundary(boundary)
    ensures SplitOn(CRLF + Body(Multi(mediaType, boundary, parts)), Delimiter(boundary))
        == [""] + (Enclosed(parts) + ["--"])
      <==> Unambiguous(parts, boundary)
  {
    BodyInterleaves(parts, boundary);
    if Unambiguous(parts, boundary) {
      SplitClean(parts, boundary);
    } else {
      var s := CRLF + Body(Multi(mediaType, boundary, parts));
      if SplitOn(s, Delimiter(boundary)) == [""] + (Enclosed(parts) + ["--"]) {
        PiecesAreClean(s, parts, boundary);
      }
    }
  }

  // ---- Reading a part back

  /** Header lines up to the first blank line. */
  function ReadBlock(s: string): Option<(seq<Entry>, string)>
    decreases |s|
  {
    if CRLF <= s then Some(([], s[2..])) else
      match Field(s, ": ")
      case Fail => None
      case Match(e, rest) =>
        match ReadBlock(rest)
        case None => None
        case Some((es, body)) => Some(([e] + es, body))
  }

  lemma ReadBlockStep(s: string, e: Entry, rest: string, es: seq<Entry>, body: string)
    requires !(CRLF <= s) && Field(s, ": ") == Match(e, rest) && ReadBlock(rest) == Some((es, body))
    ensures ReadBlock(s) == Some(([e] + es, body))
  {
  }

  lemma {:induction false} ReadBlockInverts(es: seq<Entry>, body: string)
    requires GoodFields(es, ": ")
    ensures ReadBlock(FieldLines(es) + (CRLF + body)) == Some((es, body))
    decreases |es|
  {
    if es == [] {
      assert FieldLines(es) + (CRLF + body) == CRLF + body && (CRLF + body)[2..] == body;
    } else {
      var s, rest := FieldLines(es) + (CRLF + body), FieldLines(es[1..]) + (CRLF + body);
      assert es == [es[0]] + es[1..];
      LinesCons(es[0], es[1..], CRLF + body);
      FieldParses(es[0], ": ", rest);
      ReadBlockInverts(es[1..], body);
      assert s[0] == es[0].0[0] && s[0] != '\r';
      ReadBlockStep(s, es[0], rest, es[1..], body);
    }
  }

  /** The header lines of a part, its content type last. */
  function PartLines(p: Part): seq<Entry> {
    Entries(p.header) + [(CONTENT_TYPE, ContentType(p.content))]
  }

  predicate GoodPart(p: Part) {
    (forall k :: k in p.header ==> GoodField((k, p.header[k]), ": ")) && FieldText(ContentType(p.content))
  }

  lemma {:induction false} LinesAppend(es: seq<Entry>, e: Entry)
    ensures FieldLines(es + [e]) == FieldLines(es) + FieldLine(e)
  {
    if es == [] {
      assert es + [e] == [e] && FieldLines([]) == "" && [e][1..] == [];
      assert FieldLine(e) + "" == FieldLine(e);
    } else {
      LinesAppend(es[1..], e);
      assert (es + [e])[1..] == es[1..] + [e];
      Regroup(FieldLine(es[0]), FieldLines(es[1..]), FieldLine(e));
    }
  }

  lemma PartTextLines(p: Part)
    ensures PartText(p) == FieldLines(PartLines(p)) + (CRLF + Body(p.content))
  {
    var ct, body, lines := ContentType(p.content), Body(p.content), FieldLines(Entries(p.header));
    LinesAppend(Entries(p.header), (CONTENT_TYPE, ct));
    Regroup(lines, FieldLine((CONTENT_TYPE, ct)), CRLF + body);
    Regroup(CONTENT_TYPE, ": " + (ct + CRLF), CRLF + body);
    Regroup(": ", ct + CRLF, CRLF + body);
    Regroup(ct, CRLF, CRLF + body);
    assert CRLF + (CRLF + body) == BLANK_LINE + body;
  }

  lemma PlainNameIsGood(name: string, value: string)
    requires FieldText(name) && ':' !in name && FieldText(value)
    ensures GoodField((name, value), ": ")
  {
    LacksFirst(name, ": ");
  }

  lemma PartLinesAreGood(p: Part)
    requires GoodPart(p)
    ensures GoodFields(PartLines(p), ": ")
  {
    GoodEntries(p.header, ": ");
    PlainNameIsGood(CONTENT_TYPE, ContentType(p.content));
    GoodFieldsAppend(Entries(p.header), (CONTENT_TYPE, ContentType(p.content)), ": ");
  }

  /** `text` reads as this part: its header lines, its content type as the last one, its body. */
  predicate ReadsAsPart(text: string, p: Part) {
    ReadBlock(text) == Some((Entries(p.header) + [("Content-Type", ContentType(p.content))], Body(p.content)))
  }

  /** A part's text determines its header, content type and body. */
  lemma ReadPart(p: Part)
    requires GoodPart(p)
    ensures ReadsAsPart(PartText(p), p)
  {
    PartTextLines(p);
    PartLinesAreGood(p);
    ReadBlockInverts(PartLines(p), Body(p.content));
  }

  // ---- Rendering is injective

  /** Everywhere in the tree: boundaries that cannot be confused with text, header fields that
      can be read back, and a media type that tells multiparts from other content. */
  predicate Clean(t: Tree) {
    match t
    case Leaf(mediaType, _) => !("multipart/" <= mediaType)
    case Multi(mediaType, boundary, parts) =>
      && "multipart/" <= mediaType && GoodBoundary(boundary) && Unambiguous(parts, boundary)
      && forall i :: 0 <= i < |parts| ==> GoodPart(parts[i]) && Clean(parts[i].content)
  }

  /** Between its delimiters `body` has exactly the parts of `t`, and each can be read. */
  predicate ReadsBack(body: string, t: Tree)
    requires t.Multi?
  {
    PiecesRead(SplitOn("\r\n" + body, "\r\n--" + t.boundary), t.parts)
  }

  predicate PiecesRead(pieces: seq<string>, parts: seq<Part>) {
    && |pieces| == |parts| + 2 && pieces[0] == "" && pieces[|parts| + 1] == "--"
    && forall i :: 0 <= i < |parts| ==> PieceReads(pieces[i + 1], parts[i])
  }

  predicate PieceReads(piece: string, p: Part) {
    "\r\n" <= piece && ReadsAsPart(piece[2..], p)
  }

  lemma PartReads(p: Part)
    requires GoodPart(p)
    ensures PieceReads(CRLF + PartText(p), p)
  {
    ReadPart(p);
    assert (CRLF + PartText(p))[2..] == PartText(p);
  }

  lemma PiecesAre(texts: seq<string>, parts: seq<Part>)
    requires |texts| == |parts| && forall i :: 0 <= i < |parts| ==> PieceReads(texts[i], parts[i])
    ensures PiecesRead([""] + (texts + ["--"]), parts)
  {
    forall i | 0 <= i < |parts| ensures ([""] + (texts + ["--"]))[i + 1] == texts[i] {
      MiddleElement(texts, i);
    }
  }

  lemma DelimiterText(boundary: string)
    ensures "\r\n--" + boundary == Delimiter(boundary)
  {
    assert "\r\n--" == CRLF + "--";
    Regroup(CRLF, "--", boundary);
  }

  lemma BodyReadsBack(t: Tree)
    requires t.Multi? && Clean(t)
    ensures ReadsBack(Body(t), t)
  {
    SplitBody(t.parts, t.boundary, t.mediaType);
    DelimiterText(t.boundary);
    forall i | 0 <= i < |t.parts| ensures PieceReads(Enclosed(t.parts)[i], t.parts[i]) {
      PartReads(t.parts[i]);
    }
    PiecesAre(Enclosed(t.parts), t.parts);
  }

  /** Two content types with the same text name the same media type and boundary. */
  lemma MarkUnique(m: string, b: string, m': string, b': string)
    requires '"' !in b && '"' !in b'
    requires m + (BOUNDARY_MARK + (b + "\"")) == m' + (BOUNDARY_MARK + (b' + "\""))
    ensures m == m' && b == b'
  {
    MarkNotLonger(m, b, m', b');
    MarkNotLonger(m', b', m, b);
    var s, n := m + (BOUNDARY_MARK + (b + "\"")), |m|;
    assert |m| == |m'|;
    assert s[..n] == m && s[..n] == m';
    assert s[n + 12..|s| - 1] == b && s[n + 12..|s| - 1] == b';
  }

  lemma MarkNotLonger(m: string, b: string, m': string, b': string)
    requires '"' !in b
    requires m + (BOUNDARY_MARK + (b + "\"")) == m' + (BOUNDARY_MARK + (b' + "\""))
    ensures |b| <= |b'|
  {
    var s, s' := m + (BOUNDARY_MARK + (b + "\"")), m' + (BOUNDARY_MARK + (b' + "\""));
    var i := |m'| + 11;
    assert s'[i] == BOUNDARY_MARK[11] == '"';
    assert s[|m| + 12..|m| + 12 + |b|] == b;
    assert forall j :: |m| + 12 <= j < |m| + 12 + |b| ==> s[j] == b[j - |m| - 12];
    assert |s| == |m| + 13 + |b| && |s'| == |m'| + 13 + |b'|;
  }

  lemma MultiPrefix(t: Tree)
    requires Clean(t)
    ensures "multipart/" <= ContentType(t) <==> t.Multi?
  {
  }

  lemma EntriesInjective(m: Fields, m': Fields)
    requires Entries(m) == Entries(m')
    ensures m == m'
  {
    Rebuild(m);
    Rebuild(m');
  }

  /** Content of the same content type and body is the same content, nested multiparts included. */
  lemma {:induction false} RenderingInjective(t: Tree, t': Tree)
    requires Clean(t) && Clean(t') && ContentType(t) == ContentType(t') && Body(t) == Body(t')
    ensures t == t'
    decreases t
  {
    MultiPrefix(t);
    MultiPrefix(t');
    if t.Multi? {
      MarkUnique(t.mediaType, t.boundary, t'.mediaType, t'.boundary);
      SameTexts(t, t');
      forall i | 0 <= i < |t.parts| ensures t.parts[i] == t'.parts[i] {
        SameLines(t.parts[i], t'.parts[i]);
        RenderingInjective(t.parts[i].content, t'.parts[i].content);
      }
    }
  }

  lemma SameTexts(t: Tree, t': Tree)
    requires Clean(t) && Clean(t') && t.Multi? && t'.Multi? && t.boundary == t'.boundary && Body(t) == Body(t')
    ensures |t.parts| == |t'.parts|
    ensures forall i :: 0 <= i < |t.parts| ==> PartText(t.parts[i]) == PartText(t'.parts[i])
  {
    SplitBody(t.parts, t.boundary, t.mediaType);
    SplitBody(t'.parts, t'.boundary, t'.mediaType);
    var a, b := Enclosed(t.parts), Enclosed(t'.parts);
    assert a == b by {
      assert ([""] + (a + ["--"]))[1..] == a + ["--"] && ([""] + (b + ["--"]))[1..] == b + ["--"];
      assert (a + ["--"])[..|a|] == a && (b + ["--"])[..|b|] == b;
    }
    forall i | 0 <= i < |t.parts| ensures PartText(t.parts[i]) == PartText(t'.parts[i]) {
      assert a[i][2..] == PartText(t.parts[i]) && b[i][2..] == PartText(t'.parts[i]);
    }
  }

  lemma SameLines(p: Part, p': Part)
    requires GoodPart(p) && GoodPart(p') && PartText(p) == PartText(p')
    ensures p.header == p'.header
    ensures ContentType(p.content) == ContentType(p'.content) && Body(p.content) == Body(p'.content)
  {
    ReadPart(p);
    ReadPart(p');
    var a, b := Entries(p.header), Entries(p'.header);
    assert PartLines(p)[..|a|] == a && PartLines(p')[..|b|] == b;
    assert PartLines(p)[|a|].1 == ContentType(p.content) && PartLines(p')[|b|].1 == ContentType(p'.content);
    EntriesInjective(p.header, p'.header);
  }
}
