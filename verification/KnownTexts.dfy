/** Small texts that every printer here must agree with, written out. */
module KnownTexts {
  import opened Text
  import opened Radix
  import opened OrderedMap
  import opened Grammar
  import opened Messages
  import opened PercentEncoder
  import opened Syntax
  import opened Multipart

  /** The digits and what they are worth, in both cases. */
  lemma DigitTable(v: nat)
    requires v < 16
    ensures DigitChar(v) == "0123456789ABCDEF"[v]
    ensures DigitValue("0123456789ABCDEF"[v]) == v == DigitValue("0123456789abcdef"[v])
  {
  }

  lemma Numerals()
    ensures IntText(-205) == "-205" && IntText(0) == "0" && TwoDigits(0x2f) == "2F"
    ensures Value(10, "205") == 205 && Value(16, "2f") == 0x2f
  {
  }

  lemma OneEntry(k: string, v: string)
    ensures Entries(map[k := v]) == [(k, v)]
  {
    var m := map[k := v];
    assert (k, v) in Entries(m);
  }

  lemma OneLine(k: string, v: string)
    ensures FieldLines([(k, v)]) == k + (": " + (v + "\r\n"))
  {
    assert [(k, v)][1..] == [];
    assert FieldLine((k, v)) + "" == FieldLine((k, v));
  }

  /** RFC 7230 section 3: start line, header field, blank line, body. */
  lemma PrintedResponse(version: string, message: string, k: string, v: string, body: string)
    requires body != ""
    ensures PrintResponse(Response(version, 200, message, map[k := v], body)) ==
      "HTTP/" + version + " 200 " + message + "\r\n" + k + ": " + v + "\r\n" + "\r\n" + body
  {
    OneEntry(k, v);
    OneLine(k, v);
    assert IntText(200) == "200";
  }

  lemma PrintedRequest(method_: string, path: string, version: string, k: string, v: string)
    ensures RequestBlock(Request(method_, path, version, map[k := v], "")) ==
      method_ + " " + path + " " + version + "\r\n" + k + ": " + v + "\r\n" + "\r\n"
  {
    OneEntry(k, v);
    OneLine(k, v);
  }

  /** RFC 3986 section 2.3: letters, digits and four marks stand for themselves, and nothing else. */
  lemma StandsForItself(c: char)
    requires c as int < 256
    ensures EncodeByte(c) == [c] <==>
      'A' <= c <= 'Z' || 'a' <= c <= 'z' || '0' <= c <= '9' || c in "-._~"
  {
  }

  lemma EncodedOne(c: char)
    ensures Encoded([c]) == EncodeByte(c)
  {
    assert EncodeByte(c) + "" == EncodeByte(c);
  }

  /** RFC 3986 section 2.1. */
  lemma PrintedEscape()
    ensures Encoded("/") == "%2F" && Encoded("~") == "~"
  {
    EncodedOne('/');
    EncodedOne('~');
    Numerals();
  }

  lemma EncodedPair(k: string, v: string)
    ensures EncodedMap(map[k := v]) == map[Encoded(k) := Encoded(v)]
  {
    OneEntry(k, v);
    var es := [(Encoded(k), Encoded(v))];
    assert EncodeEntries([(k, v)]) == es && es[1..] == [];
    assert InsertAll(map[], es) == InsertAll(Insert(map[], es[0].0, es[0].1), []);
  }

  lemma PrintedMaps(k: string, v: string)
    ensures UrlEncoded(map[k := v]) == Encoded(k) + "=" + Encoded(v)
    ensures AuthorizationField(map[k := v]) == Encoded(k) + "=\"" + Encoded(v) + "\""
  {
    EncodedPair(k, v);
    OneEntry(Encoded(k), Encoded(v));
    BareField(Encoded(k), Encoded(v));
    QuotedField(Encoded(k), Encoded(v));
  }

  lemma BareField(k: string, v: string)
    ensures Joined([(k, v)], "=", "&", "") == k + "=" + v
  {
    assert "" + (v + "") == v;
  }

  lemma QuotedField(k: string, v: string)
    ensures Joined([(k, v)], "=", ",", "\"") == k + "=\"" + v + "\""
  {
    assert "=\"" == "=" + "\"";
  }

  lemma PlainPart(partType: string, text: string)
    ensures PartText(Part(map[], Leaf(partType, text))) == "Content-Type: " + partType + "\r\n\r\n" + text
  {
    var own := CONTENT_TYPE + (": " + (partType + (BLANK_LINE + text)));
    assert "" + own == own;
    assert "Content-Type" + ": " == "Content-Type: ";
  }

  lemma OnePartText(p: Part, boundary: string)
    ensures PartsText([p], boundary) == "--" + boundary + "\r\n" + PartText(p) + "\r\n"
  {
    assert [p][1..] == [] && PartsText([], boundary) == "";
  }

  /** RFC 2046 section 5.1.1. */
  lemma PrintedMultipart(mediaType: string, boundary: string, partType: string, text: string)
    ensures var t := Multi(mediaType, boundary, [Part(map[], Leaf(partType, text))]);
      && ContentType(t) == mediaType + "; boundary=\"" + boundary + "\""
      && Body(t) == "--" + boundary + "\r\n" + ("Content-Type: " + partType + "\r\n\r\n" + text) + "\r\n"
        + ("--" + (boundary + "--"))
  {
    PlainPart(partType, text);
    OnePartText(Part(map[], Leaf(partType, text)), boundary);
  }
}
