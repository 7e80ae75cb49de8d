/** `generator` and `parser`: maps printed as separated fields, plain or percent-coded. */
module Syntax {
  import opened Text
  import opened OrderedMap
  import opened PercentEncoder
  import opened Grammar
  import opened Options

  // ---- The skipper `qi::space` and the rules under it

  predicate IsSpace(c: char) {
    c == ' ' || 9 <= c as int <= 13
  }

  function Skip(s: string): (r: string)
    ensures |r| <= |s| && (r != "" ==> !IsSpace(r[0]))
  {
    if s != "" && IsSpace(s[0]) then Skip(s[1..]) else s
  }

  /** `qi::lit(d)`: skip, then match exactly. */
  function Lit(s: string, d: string): (r: Option<string>)
    ensures r.Some? ==> |r.value| + |d| <= |s|
  {
    var t := Skip(s);
    if d <= t then Some(t[|d|..]) else None
  }

  /** `*(qi::char_ - qi::lit(stop))`: what it collects, and where it stops. */
  function Run(s: string, stop: string): (r: (string, string))
    ensures |r.0| + |r.1| <= |s|
    decreases |s|
  {
    var t := Skip(s);
    if stop <= t || t == "" then ("", t) else
      var (text, rest) := Run(t[1..], stop);
      ([t[0]] + text, rest)
  }

  /** The second alternative of the value rule.  It appends to what the first alternative had
      already collected: a string attribute is not rolled back. */
  function BareValue(s: string, fieldSep: string, carry: string): (r: Parsed<string>)
    ensures r.Match? ==> |r.rest| <= |s| && r.value != ""
  {
    var (text, rest) := Run(s, fieldSep);
    if text == "" then Fail else Match(carry + text, rest)
  }

  function FieldValue(s: string, fieldSep: string, container: string): (r: Parsed<string>)
    ensures r.Match? ==> |r.rest| <= |s| && r.value != ""
  {
    match Lit(s, container)
    case None => BareValue(s, fieldSep, "")
    case Some(inner) =>
      var (text, rest) := Run(inner, container);
      if text == "" then BareValue(s, fieldSep, "") else
        match Lit(rest, container)
        case None => BareValue(s, fieldSep, text)
        case Some(after) => Match(text, after)
  }

  function Pair(s: string, keySep: string, fieldSep: string, container: string): (r: Parsed<Entry>)
    ensures r.Match? ==> |r.rest| < |s| && r.value.0 != "" && r.value.1 != ""
  {
    var (key, rest) := Run(s, keySep);
    if key == "" then Fail else
      match Lit(rest, keySep)
      case None => Fail
      case Some(after) =>
        match FieldValue(after, fieldSep, container)
        case Fail => Fail
        case Match(value, tail) => Match((key, value), tail)
  }

  /** `pair % qi::lit(fieldSep)`. */
  function Pairs(s: string, keySep: string, fieldSep: string, container: string): (es: seq<Entry>)
    ensures forall i :: 0 <= i < |es| ==> es[i].0 != "" && es[i].1 != ""
    decreases |s|
  {
    match Pair(s, keySep, fieldSep, container)
    case Fail => []
    case Match(e, rest) =>
      match Lit(rest, fieldSep)
      case None => [e]
      case Some(more) => [e] + Pairs(more, keySep, fieldSep, container)
  }

  /** `parser::operator()` */
  function Parse(src: string, keySep: string, fieldSep: string, container: string): Fields {
    InsertAll(map[], Pairs(src, keySep, fieldSep, container))
  }

  function PairText(e: Entry, keySep: string, container: string): string {
    e.0 + (keySep + (container + (e.1 + container)))
  }

  /** `field % karma::lit(fieldSep)`; nothing at all for an empty map. */
  function Joined(es: seq<Entry>, keySep: string, fieldSep: string, container: string): string {
    if es == [] then ""
    else if |es| == 1 then PairText(es[0], keySep, container)
    else PairText(es[0], keySep, container) + (fieldSep + Joined(es[1..], keySep, fieldSep, container))
  }

  /** `generator::operator()` */
  function Generate(m: Fields, keySep: string, fieldSep: string, container: string): string {
    Joined(Entries(m), keySep, fieldSep, container)
  }

  // ---- The generic grammar inverts the generic printer

  predicate Separator(d: string) {
    Leads(d) && !IsSpace(d[0])
  }

  predicate Spaceless(s: string) {
    s != "" && forall i :: 0 <= i < |s| ==> !IsSpace(s[i])
  }

  predicate Delimited(e: Entry, keySep: string, fieldSep: string, container: string)
    requires keySep != "" && fieldSep != ""
  {
    Spaceless(e.0) && Spaceless(e.1) && !Contains(e.0, keySep) &&
    !Contains(e.1, if container == "" then fieldSep else container)
  }

  lemma TailLacks(t: string, d: string)
    requires t != "" && d != "" && !Contains(t, d)
    ensures !Contains(t[1..], d)
  {
    assert t == [t[0]] + t[1..] + "";
    SubtextLacks([t[0]], t[1..], "", d);
  }

  lemma RunStep(c: char, s: string, stop: string)
    requires !IsSpace(c) && !(stop <= [c] + s)
    ensures Run([c] + s, stop) == ([c] + Run(s, stop).0, Run(s, stop).1)
  {
    assert ([c] + s)[1..] == s;
  }

  lemma NotYet(t: string, stop: string, rest: string)
    requires t != "" && Leads(stop) && !Contains(t, stop)
    ensures !(stop <= t + (stop + rest))
  {
    FindDelimiter(t, stop, rest);
    var s := t + stop + rest;
    assert t + (stop + rest) == s && s[0..] == s;
    assert !At(s, 0, stop);
  }

  lemma {:induction false} RunStops(t: string, stop: string, rest: string)
    requires Separator(stop) && !Contains(t, stop)
    requires forall i :: 0 <= i < |t| ==> !IsSpace(t[i])
    ensures Run(t + (stop + rest), stop) == (t, stop + rest)
  {
    if t == "" {
      assert t + (stop + rest) == stop + rest;
    } else {
      var more := t[1..];
      assert t == [t[0]] + more;
      NotYet(t, stop, rest);
      TailLacks(t, stop);
      RunStops(more, stop, rest);
      Regroup([t[0]], more, stop + rest);
      RunStep(t[0], more + (stop + rest), stop);
    }
  }

  lemma {:induction false} RunEnds(t: string, stop: string)
    requires stop != "" && !Contains(t, stop)
    requires forall i :: 0 <= i < |t| ==> !IsSpace(t[i])
    ensures Run(t, stop) == (t, "")
  {
    if t != "" {
      assert !At(t, 0, stop) && t[0..] == t;
      TailLacks(t, stop);
      RunEnds(t[1..], stop);
      assert [t[0]] + t[1..] == t;
    }
  }

  lemma LitMatches(d: string, rest: string)
    requires Separator(d)
    ensures Lit(d + rest, d) == Some(rest)
  {
    assert (d + rest)[|d|..] == rest;
  }

  /** A field's value is read back up to the end of the text or to the next field separator. */
  lemma ValueParses(v: string, fieldSep: string, container: string, more: string, last: bool)
    requires Separator(fieldSep) && (container == "" || Separator(container)) && Spaceless(v)
    requires !Contains(v, if container == "" then fieldSep else container)
    ensures var tail := if last then "" else fieldSep + more;
      FieldValue(container + (v + container) + tail, fieldSep, container) == Match(v, tail)
  {
    var tail := if last then "" else fieldSep + more;
    var s := container + (v + container) + tail;
    if container == "" {
      assert s == v + tail && "" + v == v;
      assert s[0..] == s;
      if last {
        assert s == v;
        RunEnds(v, fieldSep);
      } else {
        RunStops(v, fieldSep, more);
      }
    } else {
      assert s == container + (v + (container + tail));
      LitMatches(container, v + (container + tail));
      RunStops(v, container, tail);
      LitMatches(container, tail);
    }
  }

  lemma PairParses(e: Entry, keySep: string, fieldSep: string, container: string, more: string, last: bool)
    requires Separator(keySep) && Separator(fieldSep) && (container == "" || Separator(container))
    requires Delimited(e, keySep, fieldSep, container)
    ensures var tail := if last then "" else fieldSep + more;
      Pair(PairText(e, keySep, container) + tail, keySep, fieldSep, container) == Match(e, tail)
  {
    var tail := if last then "" else fieldSep + more;
    var value := container + (e.1 + container) + tail;
    assert PairText(e, keySep, container) + tail == e.0 + (keySep + value);
    RunStops(e.0, keySep, value);
    LitMatches(keySep, value);
    ValueParses(e.1, fieldSep, container, more, last);
  }

  lemma PairsStep(s: string, keySep: string, fieldSep: string, container: string, e: Entry, rest: string)
    requires Pair(s, keySep, fieldSep, container) == Match(e, rest)
    ensures Pairs(s, keySep, fieldSep, container) == match Lit(rest, fieldSep)
      case None => [e]
      case Some(more) => [e] + Pairs(more, keySep, fieldSep, container)
  {
  }

  lemma LastField(e: Entry, keySep: string, fieldSep: string, container: string)
    requires Separator(keySep) && Separator(fieldSep) && (container == "" || Separator(container))
    requires Delimited(e, keySep, fieldSep, container)
    ensures Pairs(PairText(e, keySep, container), keySep, fieldSep, container) == [e]
  {
    var text := PairText(e, keySep, container);
    PairParses(e, keySep, fieldSep, container, "", true);
    assert text + "" == text;
    PairsStep(text, keySep, fieldSep, container, e, "");
    assert Lit("", fieldSep).None?;
  }

  lemma NextField(e: Entry, keySep: string, fieldSep: string, container: string, more: string)
    requires Separator(keySep) && Separator(fieldSep) && (container == "" || Separator(container))
    requires Delimited(e, keySep, fieldSep, container)
    ensures var text := PairText(e, keySep, container) + (fieldSep + more);
      Pairs(text, keySep, fieldSep, container) == [e] + Pairs(more, keySep, fieldSep, container)
  {
    var text := PairText(e, keySep, container) + (fieldSep + more);
    PairParses(e, keySep, fieldSep, container, more, false);
    PairsStep(text, keySep, fieldSep, container, e, fieldSep + more);
    LitMatches(fieldSep, more);
  }

  predicate AllDelimited(es: seq<Entry>, keySep: string, fieldSep: string, container: string)
    requires keySep != "" && fieldSep != ""
  {
    forall i :: 0 <= i < |es| ==> Delimited(es[i], keySep, fieldSep, container)
  }

  lemma FirstDelimited(es: seq<Entry>, keySep: string, fieldSep: string, container: string)
    requires keySep != "" && fieldSep != "" && es != [] && AllDelimited(es, keySep, fieldSep, container)
    ensures Delimited(es[0], keySep, fieldSep, container) && AllDelimited(es[1..], keySep, fieldSep, container)
  {
  }

  lemma JoinedOne(es: seq<Entry>, keySep: string, fieldSep: string, container: string)
    requires |es| == 1
    ensures Joined(es, keySep, fieldSep, container) == PairText(es[0], keySep, container) && es == [es[0]]
  {
  }

  lemma JoinedNext(es: seq<Entry>, keySep: string, fieldSep: string, container: string)
    requires |es| > 1
    ensures Joined(es, keySep, fieldSep, container)
      == PairText(es[0], keySep, container) + (fieldSep + Joined(es[1..], keySep, fieldSep, container))
    ensures es == [es[0]] + es[1..]
  {
  }

  lemma {:induction false} PairsInvertJoined(es: seq<Entry>, keySep: string, fieldSep: string, container: string)
    requires Separator(keySep) && Separator(fieldSep) && (container == "" || Separator(container))
    requires AllDelimited(es, keySep, fieldSep, container)
    ensures Pairs(Joined(es, keySep, fieldSep, container), keySep, fieldSep, container) == es
    decreases |es|
  {
    if es == [] {
      NoPairs(keySep, fieldSep, container);
    } else {
      FirstDelimited(es, keySep, fieldSep, container);
      if |es| == 1 {
        JoinedOne(es, keySep, fieldSep, container);
        LastField(es[0], keySep, fieldSep, container);
      } else {
        PairsInvertJoined(es[1..], keySep, fieldSep, container);
        JoinedNext(es, keySep, fieldSep, container);
        NextField(es[0], keySep, fieldSep, container, Joined(es[1..], keySep, fieldSep, container));
      }
    }
  }

  lemma NoPairs(keySep: string, fieldSep: string, container: string)
    requires keySep != ""
    ensures Pairs("", keySep, fieldSep, container) == []
  {
  }

  /** The parser inverts the generator whenever the separators can be told from the entries:
      each separator starts with a non-space character it does not repeat, entries are non-empty
      and free of whitespace, keys lack the key separator, and values lack their closing mark
      (the container, or with no container the field separator). */
  lemma ParseInvertsGenerate(m: Fields, keySep: string, fieldSep: string, container: string)
    requires Separator(keySep) && Separator(fieldSep) && (container == "" || Separator(container))
    requires forall k :: k in m ==> Delimited((k, m[k]), keySep, fieldSep, container)
    ensures Parse(Generate(m, keySep, fieldSep, container), keySep, fieldSep, container) == m
  {
    var es := Entries(m);
    forall i | 0 <= i < |es| ensures Delimited(es[i], keySep, fieldSep, container) {
      assert (es[i].0, es[i].1) in es;
    }
    PairsInvertJoined(es, keySep, fieldSep, container);
    Rebuild(m);
  }

  // ---- White space does not matter

  /** Blank, tab, line feed, vertical tab, form feed, carriage return. */
  predicate White(c: char) {
    c == ' ' || c == '\t' || c == '\n' || c as int == 11 || c as int == 12 || c == '\r'
  }

  function Squeezed(s: string): string {
    if s == "" then "" else if White(s[0]) then Squeezed(s[1..]) else [s[0]] + Squeezed(s[1..])
  }

  /** A separator or container of the library: one character that is not white. */
  predicate Single(d: string) {
    |d| == 1 && !White(d[0])
  }

  lemma {:induction false} SkipSqueezes(s: string)
    ensures Skip(s) == "" ==> Squeezed(s) == ""
    ensures Skip(s) != "" ==> !White(Skip(s)[0]) && Squeezed(s) == [Skip(s)[0]] + Squeezed(Skip(s)[1..])
    ensures Squeezed(Skip(s)) == Squeezed(s)
  {
    if s != "" && IsSpace(s[0]) {
      SkipSqueezes(s[1..]);
    }
  }

  lemma SqueezedSkips(s: string)
    ensures Skip(Squeezed(s)) == Squeezed(s)
  {
    SkipSqueezes(s);
  }

  lemma LitSqueezes(s: string, d: string)
    requires d == "" || Single(d)
    ensures Lit(Squeezed(s), d) == match Lit(s, d)
      case None => None
      case Some(rest) => Some(Squeezed(rest))
  {
    SkipSqueezes(s);
    SqueezedSkips(s);
    var t := Skip(s);
    if t != "" && d != "" {
      assert ([t[0]] + Squeezed(t[1..]))[1..] == Squeezed(t[1..]);
    }
  }

  lemma {:induction false} RunSqueezes(s: string, stop: string)
    requires stop == "" || Single(stop)
    ensures Run(Squeezed(s), stop) == (Run(s, stop).0, Squeezed(Run(s, stop).1))
    decreases |s|
  {
    SkipSqueezes(s);
    SqueezedSkips(s);
    var t := Skip(s);
    if !(stop <= t || t == "") {
      RunSqueezes(t[1..], stop);
      var q := Squeezed(t[1..]);
      assert ([t[0]] + q)[1..] == q;
    }
  }

  function SqueezedRest<T>(p: Parsed<T>): Parsed<T> {
    match p
    case Fail => Fail
    case Match(value, rest) => Match(value, Squeezed(rest))
  }

  lemma BareValueSqueezes(s: string, fieldSep: string, carry: string)
    requires Single(fieldSep)
    ensures BareValue(Squeezed(s), fieldSep, carry) == SqueezedRest(BareValue(s, fieldSep, carry))
  {
    RunSqueezes(s, fieldSep);
  }

  lemma FieldValueSqueezes(s: string, fieldSep: string, container: string)
    requires Single(fieldSep) && (container == "" || Single(container))
    ensures FieldValue(Squeezed(s), fieldSep, container) == SqueezedRest(FieldValue(s, fieldSep, container))
  {
    LitSqueezes(s, container);
    BareValueSqueezes(s, fieldSep, "");
    if Lit(s, container).Some? {
      var inner := Lit(s, container).value;
      RunSqueezes(inner, container);
      var (text, rest) := Run(inner, container);
      LitSqueezes(rest, container);
      BareValueSqueezes(s, fieldSep, text);
    }
  }

  lemma PairSqueezes(s: string, keySep: string, fieldSep: string, container: string)
    requires Single(keySep) && Single(fieldSep) && (container == "" || Single(container))
    ensures Pair(Squeezed(s), keySep, fieldSep, container) == SqueezedRest(Pair(s, keySep, fieldSep, container))
  {
    RunSqueezes(s, keySep);
    var rest := Run(s, keySep).1;
    LitSqueezes(rest, keySep);
    if Lit(rest, keySep).Some? {
      FieldValueSqueezes(Lit(rest, keySep).value, fieldSep, container);
    }
  }

  lemma {:induction false} PairsSqueeze(s: string, keySep: string, fieldSep: string, container: string)
    requires Single(keySep) && Single(fieldSep) && (container == "" || Single(container))
    ensures Pairs(Squeezed(s), keySep, fieldSep, container) == Pairs(s, keySep, fieldSep, container)
    decreases |s|
  {
    PairSqueezes(s, keySep, fieldSep, container);
    var p := Pair(s, keySep, fieldSep, container);
    if p.Match? {
      LitSqueezes(p.rest, fieldSep);
      var more := Lit(p.rest, fieldSep);
      if more.Some? {
        PairsSqueeze(more.value, keySep, fieldSep, container);
      }
    }
  }

  /** White space anywhere in the source, inside keys and values too, makes no difference. */
  lemma WhiteDoesNotMatter(src: string, keySep: string, fieldSep: string, container: string)
    requires Single(keySep) && Single(fieldSep) && (container == "" || Single(container))
    ensures Parse(Squeezed(src), keySep, fieldSep, container) == Parse(src, keySep, fieldSep, container)
  {
    PairsSqueeze(src, keySep, fieldSep, container);
  }

  // ---- Texts that are not printed maps

  /** Behind printed fields the list goes on if it can, and otherwise keeps what it has. */
  lemma {:induction false} PairsGoOn(
      es: seq<Entry>, keySep: string, fieldSep: string, container: string, more: string)
    requires Separator(keySep) && Separator(fieldSep) && (container == "" || Separator(container))
    requires es != [] && AllDelimited(es, keySep, fieldSep, container)
    ensures Pairs(Joined(es, keySep, fieldSep, container) + (fieldSep + more), keySep, fieldSep, container)
      == es + Pairs(more, keySep, fieldSep, container)
    decreases |es|
  {
    FirstDelimited(es, keySep, fieldSep, container);
    var tail := Pairs(more, keySep, fieldSep, container);
    if |es| == 1 {
      JoinedOne(es, keySep, fieldSep, container);
      NextField(es[0], keySep, fieldSep, container, more);
    } else {
      var text, on := PairText(es[0], keySep, container), Joined(es[1..], keySep, fieldSep, container);
      PairsGoOn(es[1..], keySep, fieldSep, container, more);
      JoinedNext(es, keySep, fieldSep, container);
      NextField(es[0], keySep, fieldSep, container, on + (fieldSep + more));
      Regroup(text, fieldSep + on, fieldSep + more);
      Regroup(fieldSep, on, fieldSep + more);
      HeadAndTail(es, tail);
    }
  }

  /** What follows a closing container is ignored, unless it is a field separator. */
  lemma RestIgnored(e: Entry, keySep: string, fieldSep: string, container: string, more: string)
    requires Separator(keySep) && Separator(fieldSep) && Separator(container)
    requires Delimited(e, keySep, fieldSep, container) && !(fieldSep <= Skip(more))
    ensures Pairs(PairText(e, keySep, container) + more, keySep, fieldSep, container) == [e]
  {
    var text := PairText(e, keySep, container) + more;
    ClosedPair(e, keySep, fieldSep, container, more);
    PairsStep(text, keySep, fieldSep, container, e, more);
  }

  lemma ClosedPair(e: Entry, keySep: string, fieldSep: string, container: string, more: string)
    requires Separator(keySep) && Separator(fieldSep) && Separator(container)
    requires Delimited(e, keySep, fieldSep, container)
    ensures Pair(PairText(e, keySep, container) + more, keySep, fieldSep, container) == Match(e, more)
  {
    var value := container + (e.1 + (container + more));
    assert PairText(e, keySep, container) + more == e.0 + (keySep + value);
    RunStops(e.0, keySep, value);
    LitMatches(keySep, value);
    LitMatches(container, e.1 + (container + more));
    RunStops(e.1, container, more);
    LitMatches(container, more);
  }

  /** A value whose container is never closed is read twice over: once by the first alternative,
      which fails in the end, and again, behind that, by the second. */
  lemma UnclosedValue(v: string, fieldSep: string, container: string)
    requires Separator(fieldSep) && Separator(container) && Spaceless(v)
    requires forall i :: 0 <= i < |container| ==> !IsSpace(container[i])
    requires !Contains(v, container) && !Contains(container + v, fieldSep)
    ensures FieldValue(container + v, fieldSep, container) == Match(v + (container + v), "")
  {
    LitMatches(container, v);
    RunEnds(v, container);
    RunEnds(container + v, fieldSep);
    assert Lit("", container).None?;
  }

  // ---- Percent-coded maps

  function EncodeEntries(es: seq<Entry>): (r: seq<Entry>)
    ensures |r| == |es|
    ensures forall i :: 0 <= i < |es| ==> r[i] == (Encoded(es[i].0), Encoded(es[i].1))
  {
    if es == [] then [] else [(Encoded(es[0].0), Encoded(es[0].1))] + EncodeEntries(es[1..])
  }

  function DecodeEntries(es: seq<Entry>): (r: Option<seq<Entry>>)
    ensures r.Some? ==> |r.value| == |es|
    ensures r.Some? ==> forall i :: 0 <= i < |es| ==>
      Decoded(es[i].0) == Some(r.value[i].0) && Decoded(es[i].1) == Some(r.value[i].1)
    ensures (forall i :: 0 <= i < |es| ==> Decoded(es[i].0).Some? && Decoded(es[i].1).Some?) ==> r.Some?
  {
    if es == [] then Some([]) else
      match (Decoded(es[0].0), Decoded(es[0].1), DecodeEntries(es[1..]))
      case (Some(k), Some(v), Some(rest)) => Some([(k, v)] + rest)
      case _ => None
  }

  /** The map printed by `urlencode`: re-keyed and re-sorted. */
  function EncodedMap(m: Fields): Fields {
    InsertAll(map[], EncodeEntries(Entries(m)))
  }

  function InsertDecoded(m: Fields, es: Option<seq<Entry>>): Option<Fields> {
    if es.None? then None else Some(InsertAll(m, es.value))
  }

  function DecodedMap(m: Fields): Option<Fields> {
    InsertDecoded(map[], DecodeEntries(Entries(m)))
  }

  function UrlEncoded(m: Fields): string { Generate(EncodedMap(m), "=", "&", "") }
  function UrlDecoded(src: string): Option<Fields> { DecodedMap(Parse(src, "=", "&", "")) }
  function AuthorizationField(m: Fields): string { Generate(EncodedMap(m), "=", ",", "\"") }
  function AuthorizationDecoded(src: string): Option<Fields> { DecodedMap(Parse(src, "=", ",", "\"")) }

  /** The loop shared by both printers. */
  method EncodeMap(data: Fields) returns (encoded: Fields)
    ensures encoded == EncodedMap(data)
  {
    encoded := map[];
    var es := Entries(data);
    var i := 0;
    while i < |es|
      invariant i <= |es|
      invariant InsertAll(encoded, EncodeEntries(es[i..])) == EncodedMap(data)
    {
      var key := Encode(es[i].0);
      var value := Encode(es[i].1);
      assert es[i..][1..] == es[i + 1..];
      encoded := Insert(encoded, key, value);
      i := i + 1;
    }
  }

  lemma DecodeEntriesCons(m: Fields, e: Entry, es: seq<Entry>, key: Option<string>, value: Option<string>)
    requires key == Decoded(e.0) && value == Decoded(e.1)
    ensures InsertDecoded(m, DecodeEntries([e] + es)) ==
      if key.None? || value.None? then None else InsertDecoded(Insert(m, key.value, value.value), DecodeEntries(es))
  {
    assert ([e] + es)[1..] == es;
    var all := DecodeEntries([e] + es);
    if all.Some? {
      assert all.value[1..] == DecodeEntries(es).value;
    }
  }

  lemma DecodeRound(m: Fields, es: seq<Entry>, i: nat, key: Option<string>, value: Option<string>)
    requires i < |es| && key == Decoded(es[i].0) && value == Decoded(es[i].1)
    ensures InsertDecoded(m, DecodeEntries(es[i..])) ==
      if key.None? || value.None? then None
      else InsertDecoded(Insert(m, key.value, value.value), DecodeEntries(es[i + 1..]))
  {
    DecodeEntriesCons(m, es[i], es[i + 1..], key, value);
    assert [es[i]] + es[i + 1..] == es[i..];
  }

  /** The loop shared by both parsers; None where decoding an entry is undefined. */
  method DecodeMap(data: Fields) returns (decoded: Option<Fields>)
    ensures decoded == DecodedMap(data)
  {
    var result := map[];
    var es := Entries(data);
    var i := 0;
    while i < |es|
      invariant i <= |es|
      invariant DecodedMap(data) == InsertDecoded(result, DecodeEntries(es[i..]))
    {
      var key := Decode(es[i].0);
      var value := Decode(es[i].1);
      DecodeRound(result, es, i, key, value);
      if key.None? || value.None? {
        return None;
      }
      result := Insert(result, key.value, value.value);
      i := i + 1;
    }
    decoded := Some(result);
  }

  predicate ByteMap(m: Fields) {
    forall k :: k in m ==> IsBytes(k) && IsBytes(m[k])
  }

  predicate NoEmptyEntry(m: Fields) {
    forall k :: k in m ==> k != "" && m[k] != ""
  }

  lemma EncodedKeysDistinct(es: seq<Entry>)
    requires Distinct(es) && forall i :: 0 <= i < |es| ==> IsBytes(es[i].0)
    ensures Distinct(EncodeEntries(es))
  {
    forall i, j | 0 <= i < j < |es| ensures Encoded(es[i].0) != Encoded(es[j].0) {
      if Encoded(es[i].0) == Encoded(es[j].0) {
        EncodeInjective(es[i].0, es[j].0);
      }
    }
  }

  /** Re-keying loses nothing: no two keys collide, so `insert` keeps every entry. */
  lemma EncodedMapSize(m: Fields)
    requires ByteMap(m)
    ensures |EncodedMap(m)| == |m|
  {
    EntriesExact(m);
    EncodedKeysDistinct(Entries(m));
    Collect(EncodeEntries(Entries(m)));
  }

  lemma EncodedMapLookup(m: Fields, k: string)
    requires ByteMap(m) && k in m
    ensures Encoded(k) in EncodedMap(m) && EncodedMap(m)[Encoded(k)] == Encoded(m[k])
  {
    EntriesExact(m);
    EncodedKeysDistinct(Entries(m));
    Collect(EncodeEntries(Entries(m)));
    var i := EntryIndex(m, k);
    assert EncodeEntries(Entries(m))[i] == (Encoded(k), Encoded(m[k]));
  }

  lemma EncodedMapOrigin(m: Fields, x: string) returns (k: string)
    requires ByteMap(m) && x in EncodedMap(m)
    ensures k in m && x == Encoded(k) && EncodedMap(m)[x] == Encoded(m[k])
    ensures Decoded(x) == Some(k) && Decoded(EncodedMap(m)[x]) == Some(m[k])
  {
    EntriesExact(m);
    var i := CollectedFrom(EncodeEntries(Entries(m)), x);
    k := Entries(m)[i].0;
    DecodeEncode(k);
    DecodeEncode(m[k]);
  }

  /** Decoding an encoded map gives the map back. */
  lemma DecodeEncodedMap(m: Fields)
    requires ByteMap(m)
    ensures DecodedMap(EncodedMap(m)) == Some(m)
  {
    var em := EncodedMap(m);
    var coded := Entries(em);
    EntriesExact(em);
    forall i | 0 <= i < |coded| ensures Decoded(coded[i].0).Some? && Decoded(coded[i].1).Some? {
      var k := EncodedMapOrigin(m, coded[i].0);
    }
    var es := DecodeEntries(coded).value;
    forall i | 0 <= i < |es|
      ensures es[i].0 in m && m[es[i].0] == es[i].1 && coded[i].0 == Encoded(es[i].0)
    {
      var k := EncodedMapOrigin(m, coded[i].0);
    }
    Collect(es);
    EncodedMapSize(m);
    var r := InsertAll(map[], es);
    forall k | k in r ensures k in m && r[k] == m[k] {
      var i := CollectedFrom(es, k);
    }
    SameSizeSubmap(r, m);
  }

  /** Encoded text is made of unreserved characters and '%': no separator, quote or space. */
  lemma EncodedLacks(s: string, d: string)
    requires d == "=" || d == "&" || d == "," || d == "\""
    ensures !Contains(Encoded(s), d) && (s != "" ==> Spaceless(Encoded(s)))
  {
    EncodedAlphabet(s);
    assert !Unreserved(d[0]) && d[0] != '%';
    LacksFirst(Encoded(s), d);
    forall i | 0 <= i < |Encoded(s)| ensures !IsSpace(Encoded(s)[i]) {
      var c := Encoded(s)[i];
      assert c in Encoded(s);
    }
  }

  /** The separators and containers of the two printers. */
  predicate Style(fieldSep: string, container: string) {
    (fieldSep == "&" && container == "") || (fieldSep == "," && container == "\"")
  }

  predicate Mark(c: char, fieldSep: string, container: string) {
    c == '=' || [c] == fieldSep || [c] == container
  }

  /** How often `c` occurs. */
  function Count(s: string, c: char): nat {
    multiset(s)[c]
  }

  /** One key separator in a field, and a container on each side of the value. */
  function MarksInField(c: char, container: string): nat {
    if c == '=' then 1 else if [c] == container then 2 else 0
  }

  lemma CountField(e: Entry, fieldSep: string, container: string, c: char)
    requires Style(fieldSep, container) && Mark(c, fieldSep, container) && c !in e.0 && c !in e.1
    ensures Count(PairText(e, "=", container), c) == MarksInField(c, container)
  {
  }

  lemma CountJoin(a: string, b: string, fieldSep: string, c: char)
    ensures Count(a + (fieldSep + b), c) == Count(a, c) + Count(fieldSep, c) + Count(b, c)
  {
  }

  predicate Unmarked(es: seq<Entry>, c: char) {
    forall i :: 0 <= i < |es| ==> c !in es[i].0 && c !in es[i].1
  }

  lemma FirstUnmarked(es: seq<Entry>, c: char)
    requires es != [] && Unmarked(es, c)
    ensures c !in es[0].0 && c !in es[0].1 && Unmarked(es[1..], c)
  {
  }

  function MarksInFields(n: nat, container: string, c: char): nat
    requires n > 0
  {
    if c == '=' then n else if [c] == container then 2 * n else n - 1
  }

  lemma CountNext(text: string, more: string, n: nat, fieldSep: string, container: string, c: char)
    requires Style(fieldSep, container) && Mark(c, fieldSep, container) && n > 0
    requires Count(text, c) == MarksInField(c, container) && Count(more, c) == MarksInFields(n, container, c)
    ensures Count(text + (fieldSep + more), c) == MarksInFields(n + 1, container, c)
  {
    CountJoin(text, more, fieldSep, c);
  }

  lemma {:induction false} CountJoined(es: seq<Entry>, fieldSep: string, container: string, c: char)
    requires es != [] && Style(fieldSep, container) && Mark(c, fieldSep, container) && Unmarked(es, c)
    ensures Count(Joined(es, "=", fieldSep, container), c) == MarksInFields(|es|, container, c)
    decreases |es|
  {
    FirstUnmarked(es, c);
    CountField(es[0], fieldSep, container, c);
    if |es| > 1 {
      CountJoined(es[1..], fieldSep, container, c);
      var text, more := PairText(es[0], "=", container), Joined(es[1..], "=", fieldSep, container);
      CountNext(text, more, |es| - 1, fieldSep, container, c);
    }
  }

  lemma CodedLacks(s: string, fieldSep: string, container: string, c: char)
    requires Style(fieldSep, container) && Mark(c, fieldSep, container)
    ensures c !in Encoded(s)
  {
    EncodedAlphabet(s);
  }

  lemma CodedEntryLacks(m: Fields, x: string, fieldSep: string, container: string, c: char)
    requires ByteMap(m) && x in EncodedMap(m) && Style(fieldSep, container) && Mark(c, fieldSep, container)
    ensures c !in x && c !in EncodedMap(m)[x]
  {
    var k := EncodedMapOrigin(m, x);
    CodedLacks(k, fieldSep, container, c);
    CodedLacks(m[k], fieldSep, container, c);
  }

  lemma MarkCount(m: Fields, fieldSep: string, container: string, c: char)
    requires ByteMap(m) && m != map[] && Style(fieldSep, container) && Mark(c, fieldSep, container)
    ensures Count(Generate(EncodedMap(m), "=", fieldSep, container), c) ==
      MarksInFields(|m|, container, c)
  {
    EncodedMapSize(m);
    var em := EncodedMap(m);
    EntriesExact(em);
    var es := Entries(em);
    forall i | 0 <= i < |es| ensures c !in es[i].0 && c !in es[i].1 {
      CodedEntryLacks(m, es[i].0, fieldSep, container, c);
    }
    CountJoined(es, fieldSep, container, c);
  }

  /** Each printed map has exactly one field per entry, empty keys and values included. */
  lemma OneFieldPerEntry(m: Fields)
    requires ByteMap(m) && m != map[]
    ensures Count(UrlEncoded(m), '=') == |m| && Count(UrlEncoded(m), '&') == |m| - 1
    ensures Count(AuthorizationField(m), '=') == |m| && Count(AuthorizationField(m), ',') == |m| - 1
    ensures Count(AuthorizationField(m), '"') == 2 * |m|
  {
    MarkCount(m, "&", "", '=');
    MarkCount(m, "&", "", '&');
    MarkCount(m, ",", "\"", '=');
    MarkCount(m, ",", "\"", ',');
    MarkCount(m, ",", "\"", '"');
  }

  lemma EncodedEntryDelimited(k: string, v: string, fieldSep: string, container: string)
    requires k != "" && v != ""
    requires Style(fieldSep, container)
    ensures Delimited((Encoded(k), Encoded(v)), "=", fieldSep, container)
  {
    EncodedLacks(k, "=");
    EncodedLacks(v, if container == "" then fieldSep else container);
  }

  /** A map never comes back with an empty key or value. */
  lemma NothingEmptyComesBack(src: string, fieldSep: string, container: string)
    ensures var r := DecodedMap(Parse(src, "=", fieldSep, container));
      r.Some? ==> NoEmptyEntry(r.value)
  {
    var es := Pairs(src, "=", fieldSep, container);
    var m := Parse(src, "=", fieldSep, container);
    EntriesExact(m);
    var coded := Entries(m);
    if DecodeEntries(coded).Some? {
      var ds := DecodeEntries(coded).value;
      var r := InsertAll(map[], ds);
      forall k | k in r ensures k != "" && r[k] != "" {
        var i := CollectedFrom(ds, k);
        var j := CollectedFrom(es, coded[i].0);
      }
    }
  }

  lemma CodedRoundTrip(m: Fields, fieldSep: string, container: string)
    requires ByteMap(m)
    requires Style(fieldSep, container)
    ensures DecodedMap(Parse(Generate(EncodedMap(m), "=", fieldSep, container), "=", fieldSep, container)) == Some(m)
      <==> NoEmptyEntry(m)
  {
    var em := EncodedMap(m);
    if NoEmptyEntry(m) {
      forall x | x in em ensures Delimited((x, em[x]), "=", fieldSep, container) {
        var k := EncodedMapOrigin(m, x);
        EncodedEntryDelimited(k, m[k], fieldSep, container);
      }
      ParseInvertsGenerate(em, "=", fieldSep, container);
      DecodeEncodedMap(m);
    }
    NothingEmptyComesBack(Generate(em, "=", fieldSep, container), fieldSep, container);
  }

  /** `parser::urlencode(generator::urlencode(m)) == m`, exactly for maps without empty entries;
      the empty map is one of them. */
  lemma UrlencodeRoundTrip(m: Fields)
    requires ByteMap(m)
    ensures UrlDecoded(UrlEncoded(m)) == Some(m) <==> NoEmptyEntry(m)
  {
    CodedRoundTrip(m, "&", "");
  }

  lemma AuthorizationRoundTrip(m: Fields)
    requires ByteMap(m)
    ensures AuthorizationDecoded(AuthorizationField(m)) == Some(m) <==> NoEmptyEntry(m)
  {
    CodedRoundTrip(m, ",", "\"");
  }

  /** Distinct maps print differently. */
  lemma UrlencodeInjective(m: Fields, n: Fields)
    requires ByteMap(m) && ByteMap(n) && NoEmptyEntry(m) && NoEmptyEntry(n)
    requires UrlEncoded(m) == UrlEncoded(n)
    ensures m == n
  {
    UrlencodeRoundTrip(m);
    UrlencodeRoundTrip(n);
  }

  // ---- The entry points

  /** `generator::urlencode`: what it prints parses back. */
  method GenerateUrlencode(data: Fields) returns (text: string)
    ensures text == UrlEncoded(data)
    ensures ByteMap(data) ==> (UrlDecoded(text) == Some(data) <==> NoEmptyEntry(data))
  {
    var encoded := EncodeMap(data);
    text := Generate(encoded, "=", "&", "");
    if ByteMap(data) {
      UrlencodeRoundTrip(data);
    }
  }

  /** `generator::authorization_field`, likewise. */
  method GenerateAuthorizationField(data: Fields) returns (text: string)
    ensures text == AuthorizationField(data)
    ensures ByteMap(data) ==> (AuthorizationDecoded(text) == Some(data) <==> NoEmptyEntry(data))
  {
    var encoded := EncodeMap(data);
    text := Generate(encoded, "=", ",", "\"");
    if ByteMap(data) {
      AuthorizationRoundTrip(data);
    }
  }

  /** `parser::urlencode`: from printed text it recovers the map, and from no text one with an
      empty key or value. */
  method ParseUrlencode(src: string) returns (data: Option<Fields>)
    ensures data == UrlDecoded(src) && (data.Some? ==> NoEmptyEntry(data.value))
    ensures forall m :: ByteMap(m) && NoEmptyEntry(m) && src == UrlEncoded(m) ==> data == Some(m)
  {
    data := DecodeMap(Parse(src, "=", "&", ""));
    NothingEmptyComesBack(src, "&", "");
    forall m | ByteMap(m) && NoEmptyEntry(m) && src == UrlEncoded(m) ensures data == Some(m) {
      UrlencodeRoundTrip(m);
    }
  }

  /** `parser::authorization_field`, likewise. */
  method ParseAuthorizationField(src: string) returns (data: Option<Fields>)
    ensures data == AuthorizationDecoded(src) && (data.Some? ==> NoEmptyEntry(data.value))
    ensures forall m :: ByteMap(m) && NoEmptyEntry(m) && src == AuthorizationField(m) ==> data == Some(m)
  {
    data := DecodeMap(Parse(src, "=", ",", "\""));
    NothingEmptyComesBack(src, ",", "\"");
    forall m | ByteMap(m) && NoEmptyEntry(m) && src == AuthorizationField(m) ensures data == Some(m) {
      AuthorizationRoundTrip(m);
    }
  }
}
