/** The Spirit rules without a skipper: greedy, ordered choice, and no backtracking into a
    repetition.  Every rule yields the value it matched and the text it left. */
module Grammar {
  import opened Text
  import opened Radix
  import opened OrderedMap

  const UINT_MAX := 0xffff_ffff
  const SIZE_MOD := 0x1_0000_0000_0000_0000

  datatype Parsed<+T> = Fail | Match(value: T, rest: string) {
    predicate IsFailure() { Fail? }

    function PropagateFailure<U>(): Parsed<U>
      requires Fail?
    {
      Fail
    }

    function Extract(): (T, string)
      requires Match?
    {
      (value, rest)
    }
  }

  /** `qi::lit(d)` */
  function Literal(s: string, d: string): (r: Parsed<()>)
    ensures r.Match? ==> |r.rest| == |s| - |d|
  {
    if d <= s then Match((), s[|d|..]) else Fail
  }

  /** `+(qi::char_ - stop)` */
  function UpTo(s: string, stop: string): (r: Parsed<string>)
    requires stop != ""
    ensures r.Match? ==> r.value != "" && |r.rest| == |s| - |r.value|
  {
    var n := Find(s, stop);
    if n == 0 then Fail else Match(s[..n], s[n..])
  }

  /** `qi::int_`: fails without digits and on a value outside `int`. */
  function ParseInt(s: string): (r: Parsed<int>)
    ensures r.Match? ==> |r.rest| < |s| && -INT_MAX - 1 <= r.value <= INT_MAX
  {
    var d := if s != "" && (s[0] == '-' || s[0] == '+') then s[1..] else s;
    var n := DigitCount(10, d);
    var m: int := Value(10, d[..n]);
    var v := if s != "" && s[0] == '-' then -m else m;
    if n == 0 || v < -INT_MAX - 1 || v > INT_MAX then Fail else Match(v, d[n..])
  }

  /** `karma::int_` */
  function IntText(v: int): (s: string)
    ensures s != "" && forall i :: 0 <= i < |s| ==> s[i] == '-' || IsDigit(10, s[i])
  {
    if v < 0 then "-" + Print(10, -v) else Print(10, v)
  }

  predicate Digits(digits: string) {
    digits != "" && forall i :: 0 <= i < |digits| ==> IsDigit(10, digits[i])
  }

  /** An optional sign, digits, and nothing that continues them. */
  predicate Signed(s: string, sign: string, digits: string, rest: string) {
    && (sign == "" || sign == "+" || sign == "-") && Digits(digits)
    && (rest == "" || !IsDigit(10, rest[0])) && s == sign + (digits + rest)
  }

  function SignedValue(sign: string, digits: string): int {
    var m: int := Value(10, digits);
    if sign == "-" then -m else m
  }

  /** The front of `s` is the number `v`. */
  ghost predicate ReadsInt(s: string, v: int) {
    -INT_MAX - 1 <= v <= INT_MAX &&
    exists sign, digits, rest :: Signed(s, sign, digits, rest) && v == SignedValue(sign, digits)
  }

  lemma SignedParses(s: string, sign: string, digits: string, rest: string)
    requires Signed(s, sign, digits, rest)
    ensures var v := SignedValue(sign, digits);
      ParseInt(s) == if -INT_MAX - 1 <= v <= INT_MAX then Match(v, rest) else Fail
  {
    var d := digits + rest;
    DigitsParse(digits, rest);
    if sign == "" {
      assert s == d;
    } else {
      assert s[0] == sign[0] && s[1..] == d;
    }
  }

  lemma SplitSigned(s: string) returns (sign: string, digits: string, rest: string)
    requires ParseInt(s).Match?
    ensures Signed(s, sign, digits, rest)
  {
    var d := if s != "" && (s[0] == '-' || s[0] == '+') then s[1..] else s;
    var n := DigitCount(10, d);
    sign, digits, rest := s[..|s| - |d|], d[..n], d[n..];
    assert d == digits + rest;
    assert s == s[..|s| - |d|] + s[|s| - |d|..];
  }

  /** What `qi::int_` reads: an optional sign and digits, as far as they go, if the number fits `int`;
      it fails on every other text. */
  lemma ParseIntExact(s: string, v: int)
    ensures ParseInt(s).Match? && ParseInt(s).value == v <==> ReadsInt(s, v)
  {
    if ParseInt(s).Match? {
      var sign, digits, rest := SplitSigned(s);
      SignedParses(s, sign, digits, rest);
    }
    if ReadsInt(s, v) {
      var sign, digits, rest :| Signed(s, sign, digits, rest) && v == SignedValue(sign, digits);
      SignedParses(s, sign, digits, rest);
    }
  }

  lemma DigitsParse(digits: string, rest: string)
    requires digits != "" && forall i :: 0 <= i < |digits| ==> IsDigit(10, digits[i])
    requires rest == "" || !IsDigit(10, rest[0])
    ensures var d := digits + rest;
      DigitCount(10, d) == |digits| && d[..|digits|] == digits && d[|digits|..] == rest && IsDigit(10, d[0])
  {
    DigitCountIs(10, digits, rest);
    assert (digits + rest)[0] == digits[0];
  }

  lemma NaturalParses(digits: string, rest: string, m: int)
    requires digits != "" && forall i :: 0 <= i < |digits| ==> IsDigit(10, digits[i])
    requires rest == "" || !IsDigit(10, rest[0])
    requires Value(10, digits) == m <= INT_MAX
    ensures ParseInt(digits + rest) == Match(m, rest)
  {
    DigitsParse(digits, rest);
  }

  lemma ParseNegative(d: string, n: nat, m: int)
    requires DigitCount(10, d) == n > 0 && Value(10, d[..n]) == m <= INT_MAX + 1
    ensures ParseInt("-" + d) == Match(-m, d[n..])
  {
    var s := "-" + d;
    assert s[1..] == d;
  }

  lemma NegativeParses(digits: string, rest: string, m: int)
    requires digits != "" && forall i :: 0 <= i < |digits| ==> IsDigit(10, digits[i])
    requires rest == "" || !IsDigit(10, rest[0])
    requires Value(10, digits) == m <= INT_MAX + 1
    ensures ParseInt("-" + (digits + rest)) == Match(-m, rest)
  {
    DigitsParse(digits, rest);
    ParseNegative(digits + rest, |digits|, m);
  }

  lemma IntRoundTrip(v: int, rest: string)
    requires -INT_MAX - 1 <= v <= INT_MAX
    requires rest == "" || !IsDigit(10, rest[0])
    ensures ParseInt(IntText(v) + rest) == Match(v, rest)
  {
    if v < 0 {
      NegativeParses(Print(10, -v), rest, -v);
      Regroup("-", Print(10, -v), rest);
    } else {
      NaturalParses(Print(10, v), rest, v);
    }
  }

  /** The printed text has no leading zeros and no needless sign. */
  lemma IntTextIs(digits: string)
    requires PlainDecimal(digits)
    ensures var v: int := Value(10, digits);
      IntText(v) == digits && (v > 0 ==> IntText(-v) == "-" + digits)
  {
    PrintUnique(digits);
  }

  /** `qi::hex >> "\r\n"`: the chunk-size line, an `unsigned int`. */
  function ChunkLine(s: string): (r: Parsed<nat>)
    ensures r.Match? ==> |r.rest| + 3 <= |s| && r.value <= UINT_MAX
  {
    var n := DigitCount(16, s);
    var v := Value(16, s[..n]);
    if n == 0 || v > UINT_MAX then Fail else
      var (_, rest) :- Literal(s[n..], CRLF);
      Match(v, rest)
  }

  lemma ChunkLineParses(size: string, rest: string)
    requires size != "" && (forall i :: 0 <= i < |size| ==> IsDigit(16, size[i])) && Value(16, size) <= UINT_MAX
    ensures ChunkLine(size + (CRLF + rest)) == Match(Value(16, size), rest)
  {
    DigitCountIs(16, size, CRLF + rest);
    var s := size + (CRLF + rest);
    assert s[..|size|] == size && s[|size|..] == CRLF + rest;
    LiteralMatches(CRLF, rest);
    ChunkLineSteps(s, |size|, rest);
  }

  lemma ChunkLineSteps(s: string, n: nat, rest: string)
    requires 0 < n <= |s| && DigitCount(16, s) == n && Value(16, s[..n]) <= UINT_MAX
    requires Literal(s[n..], CRLF) == Match((), rest)
    ensures ChunkLine(s) == Match(Value(16, s[..n]), rest)
  {
  }

  /** `boost::lexical_cast<std::size_t>`: the whole text, with an optional sign; a negative
      value wraps around; anything else throws. */
  function SizeCast(s: string): (r: Parsed<nat>)
    ensures r.Match? ==> r.value < SIZE_MOD && r.rest == ""
  {
    var d := if s != "" && (s[0] == '-' || s[0] == '+') then s[1..] else s;
    var v := Value(10, d);
    if d == "" || DigitCount(10, d) < |d| || v >= SIZE_MOD then Fail
    else Match(if s[0] == '-' then (SIZE_MOD - v) % SIZE_MOD else v, "")
  }

  /** The whole text is a number that makes the `std::size_t` value `n`. */
  ghost predicate SpellsSize(s: string, n: nat) {
    n < SIZE_MOD && exists sign, digits :: Signed(s, sign, digits, "") && MakesSize(sign, Value(10, digits), n)
  }

  /** A negative number counts from 2^64 downwards. */
  predicate MakesSize(sign: string, m: nat, n: nat) {
    m < SIZE_MOD && if sign == "-" then n == 0 == m || n + m == SIZE_MOD else n == m
  }

  lemma SignedCasts(s: string, sign: string, digits: string, n: nat)
    requires Signed(s, sign, digits, "") && n < SIZE_MOD
    ensures SizeCast(s) == Match(n, "") <==> MakesSize(sign, Value(10, digits), n)
  {
    assert digits + "" == digits;
    if sign == "" {
      assert s == digits;
    } else {
      assert s[0] == sign[0] && s[1..] == digits;
    }
    CastSteps(s, digits, Value(10, digits));
    if Value(10, digits) < SIZE_MOD {
      CountsDown(Value(10, digits), n);
    }
  }

  lemma CastSteps(s: string, d: string, v: nat)
    requires s != "" && Digits(d) && d == if s[0] == '-' || s[0] == '+' then s[1..] else s
    requires v == Value(10, d)
    ensures SizeCast(s) ==
      if v >= SIZE_MOD then Fail else Match(if s[0] == '-' then (SIZE_MOD - v) % SIZE_MOD else v, "")
  {
    DigitsParse(d, "");
    assert d + "" == d;
  }

  lemma CountsDown(v: nat, n: nat)
    requires v < SIZE_MOD && n < SIZE_MOD
    ensures (SIZE_MOD - v) % SIZE_MOD == n <==> n == 0 == v || n + v == SIZE_MOD
  {
    if v > 0 {
      assert (SIZE_MOD - v) % SIZE_MOD == SIZE_MOD - v;
    }
  }

  lemma SplitSize(s: string) returns (sign: string, digits: string)
    requires SizeCast(s).Match?
    ensures Signed(s, sign, digits, "")
  {
    digits := if s[0] == '-' || s[0] == '+' then s[1..] else s;
    sign := s[..|s| - |digits|];
    assert digits + "" == digits && s == sign + digits;
  }

  lemma SizeCastExact(s: string, n: nat)
    ensures SizeCast(s) == Match(n, "") <==> SpellsSize(s, n)
  {
    if SizeCast(s).Match? {
      var sign, digits := SplitSize(s);
      SignedCasts(s, sign, digits, SizeCast(s).value);
    }
    if SpellsSize(s, n) {
      var sign, digits :| Signed(s, sign, digits, "") && MakesSize(sign, Value(10, digits), n);
      SignedCasts(s, sign, digits, n);
    }
  }

  /** Decimal digits spell their value and nothing else. */
  lemma DigitsSpell(digits: string, n: nat)
    requires Digits(digits) && Value(10, digits) < SIZE_MOD
    ensures SpellsSize(digits, n) <==> n == Value(10, digits)
    ensures SizeCast(digits) == Match(Value(10, digits), "")
  {
    assert "" + (digits + "") == digits;
    SignedCasts(digits, "", digits, Value(10, digits));
    SizeCastExact(digits, n);
    SizeCastExact(digits, Value(10, digits));
  }

  /** `std::size_t` subtraction. */
  function SizeSub(a: nat, b: nat): (r: nat)
    ensures r < SIZE_MOD
    ensures b <= a < SIZE_MOD ==> r == a - b
  {
    (a - b) % SIZE_MOD
  }

  // ---- Header fields

  /** `+(char_ - stop) >> ": " >> +(char_ - "\r\n") >> "\r\n"`.  The client's name stops at ": ",
      the server's at ":". */
  function Field(s: string, stop: string): (r: Parsed<Entry>)
    requires stop != ""
    ensures r.Match? ==> |r.rest| < |s|
  {
    var (name, s1) :- UpTo(s, stop);
    var (_, s2) :- Literal(s1, ": ");
    var (value, s3) :- UpTo(s2, CRLF);
    var (_, s4) :- Literal(s3, CRLF);
    Match((name, value), s4)
  }

  /** `*field` */
  function FieldList(s: string, stop: string): (r: (seq<Entry>, string))
    requires stop != ""
    ensures |r.1| <= |s|
    decreases |s|
  {
    match Field(s, stop)
    case Fail => ([], s)
    case Match(e, rest) =>
      var (es, tail) := FieldList(rest, stop);
      ([e] + es, tail)
  }

  function FieldLine(e: Entry): string {
    e.0 + (": " + (e.1 + CRLF))
  }

  function FieldLines(es: seq<Entry>): string {
    if es == [] then "" else FieldLine(es[0]) + FieldLines(es[1..])
  }

  predicate NameStop(stop: string) {
    stop == ":" || stop == ": "
  }

  predicate FieldText(s: string) {
    s != "" && '\r' !in s && '\0' !in s
  }

  /** An entry a header line can carry: both parts non-empty and without CR or NUL, and no
      early end of the name. */
  predicate GoodField(e: Entry, stop: string)
    requires stop != ""
  {
    FieldText(e.0) && FieldText(e.1) && !Contains(e.0, stop)
  }

  predicate GoodFields(es: seq<Entry>, stop: string)
    requires stop != ""
  {
    forall i :: 0 <= i < |es| ==> GoodField(es[i], stop)
  }

  lemma GoodEntries(m: Fields, stop: string)
    requires stop != "" && forall k :: k in m ==> GoodField((k, m[k]), stop)
    ensures GoodFields(Entries(m), stop)
  {
    EntriesExact(m);
  }

  lemma GoodFieldsAppend(es: seq<Entry>, e: Entry, stop: string)
    requires stop != "" && GoodFields(es, stop) && GoodField(e, stop)
    ensures GoodFields(es + [e], stop)
  {
  }

  lemma UpToStops(a: string, d: string, b: string)
    requires a != "" && Leads(d) && !Contains(a, d)
    ensures UpTo(a + (d + b), d) == Match(a, d + b)
  {
    assert a + (d + b) == a + d + b;
    FindDelimiter(a, d, b);
    assert (a + (d + b))[..|a|] == a && (a + (d + b))[|a|..] == d + b;
  }

  lemma NameParses(name: string, stop: string, on: string)
    requires NameStop(stop) && name != "" && !Contains(name, stop)
    ensures UpTo(name + (": " + on), stop) == Match(name, ": " + on)
  {
    if stop == ":" {
      assert ": " + on == ":" + (" " + on);
      UpToStops(name, ":", " " + on);
    } else {
      UpToStops(name, ": ", on);
    }
  }

  lemma LiteralMatches(d: string, rest: string)
    ensures Literal(d + rest, d) == Match((), rest)
  {
    assert (d + rest)[|d|..] == rest;
  }

  lemma FieldSteps(s: string, stop: string, name: string, s1: string, s2: string, value: string, s3: string, s4: string)
    requires stop != ""
    requires UpTo(s, stop) == Match(name, s1) && Literal(s1, ": ") == Match((), s2)
    requires UpTo(s2, CRLF) == Match(value, s3) && Literal(s3, CRLF) == Match((), s4)
    ensures Field(s, stop) == Match((name, value), s4)
  {
  }

  lemma FieldParses(e: Entry, stop: string, rest: string)
    requires NameStop(stop) && GoodField(e, stop)
    ensures Field(FieldLine(e) + rest, stop) == Match(e, rest)
  {
    var valueOn := e.1 + (CRLF + rest);
    var s := e.0 + (": " + valueOn);
    assert FieldLine(e) + rest == s;
    NameParses(e.0, stop, valueOn);
    LiteralMatches(": ", valueOn);
    LacksFirst(e.1, CRLF);
    UpToStops(e.1, CRLF, rest);
    LiteralMatches(CRLF, rest);
    FieldSteps(s, stop, e.0, ": " + valueOn, valueOn, e.1, CRLF + rest, rest);
  }

  lemma FieldListStep(s: string, stop: string, e: Entry, rest: string, es: seq<Entry>, tail: string)
    requires stop != "" && Field(s, stop) == Match(e, rest) && FieldList(rest, stop) == (es, tail)
    ensures FieldList(s, stop) == ([e] + es, tail)
  {
  }

  lemma HeadAndTail<T>(s: seq<T>, t: seq<T>)
    requires s != []
    ensures [s[0]] + (s[1..] + t) == s + t
  {
  }

  lemma LinesCons(e: Entry, es: seq<Entry>, rest: string)
    ensures FieldLines([e] + es) + rest == FieldLine(e) + (FieldLines(es) + rest)
  {
  }

  lemma {:induction false} FieldListParses(es: seq<Entry>, stop: string, rest: string, found: seq<Entry>, tail: string)
    requires NameStop(stop) && GoodFields(es, stop)
    requires FieldList(rest, stop) == (found, tail)
    ensures FieldList(FieldLines(es) + rest, stop) == (es + found, tail)
    decreases |es|
  {
    if es == [] {
      assert FieldLines(es) + rest == rest;
      assert es + found == found;
    } else {
      var s, on := FieldLines(es) + rest, FieldLines(es[1..]) + rest;
      assert s == FieldLine(es[0]) + on by {
        assert es == [es[0]] + es[1..];
        LinesCons(es[0], es[1..], rest);
      }
      assert Field(s, stop) == Match(es[0], on) by {
        FieldParses(es[0], stop, on);
      }
      assert FieldList(on, stop) == (es[1..] + found, tail) by {
        FieldListParses(es[1..], stop, rest, found, tail);
      }
      assert FieldList(s, stop) == ([es[0]] + (es[1..] + found), tail) by {
        FieldListStep(s, stop, es[0], on, es[1..] + found, tail);
      }
      HeadAndTail(es, found);
    }
  }

  lemma FieldsAlone(es: seq<Entry>, stop: string)
    requires NameStop(stop) && GoodFields(es, stop)
    ensures FieldList(FieldLines(es), stop) == (es, "")
  {
    var none := "";
    FieldListParses(es, stop, none, [], none);
    Appended(FieldLines(es), es);
  }

  lemma Appended(s: string, es: seq<Entry>)
    ensures s + "" == s && es + [] == es
  {
  }

  // ---- The blank line does not end the field list

  /** ": " at `p`, then a non-empty text up to a CRLF. */
  predicate FieldEnd(s: string, p: nat) {
    At(s, p, ": ") && p < |s| && 0 < Find(s[p + 2..], CRLF) < |s[p + 2..]|
  }

  /** What follows the blank line has the shape of one more field: ": " where the name rule
      stops, then some text, then CRLF. */
  predicate Swallows(rest: string, stop: string)
    requires NameStop(stop)
  {
    FieldEnd(rest, Find(rest, stop))
  }

  /** Text without the name stop is never taken for a field. */
  lemma QuietWithoutStop(rest: string, stop: string)
    requires NameStop(stop) && !Contains(rest, stop)
    ensures !Swallows(rest, stop)
  {
  }

  lemma FindSkips(c: char, s: string, d: string)
    requires d != "" && d[0] != c
    ensures Find([c] + s, d) == 1 + Find(s, d)
  {
    var t := [c] + s;
    assert t[1..] == s;
    assert !(d <= t) by {
      assert t[0] == c;
    }
  }

  lemma FindAfterCrlf(rest: string, stop: string)
    requires NameStop(stop)
    ensures Find(CRLF + rest, stop) == 2 + Find(rest, stop)
  {
    FindSkips('\n', rest, stop);
    FindSkips('\r', "\n" + rest, stop);
    assert CRLF + rest == ['\r'] + (['\n'] + rest);
  }

  /** `Field`, said with `Find`. */
  lemma FieldMatches(s: string, stop: string)
    requires stop != ""
    ensures Field(s, stop).Match? <==> 0 < Find(s, stop) && FieldEnd(s, Find(s, stop))
    ensures Field(s, stop).Match? ==> Field(s, stop).value.0 == s[..Find(s, stop)]
  {
    var p := Find(s, stop);
    if 0 < p && At(s, p, ": ") && p < |s| {
      assert s[p..][2..] == s[p + 2..];
      var s2 := s[p + 2..];
      var q := Find(s2, CRLF);
      if q < |s2| {
        assert At(s2, q, CRLF);
      } else {
        assert s2[q..] == "";
      }
    }
  }

  lemma FieldEndShifts(rest: string, p: nat)
    ensures FieldEnd(CRLF + rest, p + 2) <==> FieldEnd(rest, p)
  {
    if p <= |rest| {
      assert (CRLF + rest)[p + 2..] == rest[p..];
      if p + 2 <= |rest| {
        assert (CRLF + rest)[p + 4..] == rest[p + 2..];
      }
    }
  }

  lemma FieldAcross(s: string, rest: string, stop: string)
    requires NameStop(stop) && s != "" && Find(s, stop) == 2 + Find(rest, stop)
    requires FieldEnd(s, Find(s, stop)) <==> FieldEnd(rest, Find(rest, stop))
    ensures Swallows(rest, stop) <==> Field(s, stop).Match?
    ensures var f := Field(s, stop); f.Match? ==> f.value.0 != "" && f.value.0[0] == s[0]
  {
    FieldMatches(s, stop);
  }

  /** The name rule runs over the blank line exactly when the rest has that shape. */
  lemma SwallowsIff(rest: string, stop: string)
    requires NameStop(stop)
    ensures Swallows(rest, stop) <==> Field(CRLF + rest, stop).Match?
    ensures var f := Field(CRLF + rest, stop); f.Match? ==> f.value.0 != "" && f.value.0[0] == '\r'
  {
    FindAfterCrlf(rest, stop);
    FieldEndShifts(rest, Find(rest, stop));
    FirstCr(rest);
    FieldAcross(CRLF + rest, rest, stop);
  }

  lemma FirstCr(rest: string)
    ensures CRLF + rest != "" && (CRLF + rest)[0] == '\r'
  {
  }

  lemma FieldEndExtends(s: string, more: string, p: nat)
    requires FieldEnd(s, p)
    ensures FieldEnd(s + more, p)
  {
    var value := s[p + 2..];
    assert (s + more)[p + 2..] == value + more;
    AtExtends(s, more, p, ": ");
    FindExtends(value, more, CRLF);
  }

  lemma SwallowsExtends(rest: string, more: string, stop: string)
    requires NameStop(stop) && Swallows(rest, stop)
    ensures Swallows(rest + more, stop)
  {
    FindExtends(rest, more, stop);
    FieldEndExtends(rest, more, Find(rest, stop));
  }

  /** The fields found in front of a blank line: exactly those written, if and only if what
      follows the blank line does not look like a field. */
  lemma FieldListExact(es: seq<Entry>, stop: string, rest: string)
    requires NameStop(stop) && GoodFields(es, stop)
    ensures !Swallows(rest, stop) ==> FieldList(FieldLines(es) + (CRLF + rest), stop) == (es, CRLF + rest)
    ensures Swallows(rest, stop) ==>
      var (found, _) := FieldList(FieldLines(es) + (CRLF + rest), stop);
      |found| > |es| && found[|es|].0 != "" && found[|es|].0[0] == '\r'
  {
    var (found, tail) := FieldList(CRLF + rest, stop);
    FieldListParses(es, stop, CRLF + rest, found, tail);
    SwallowsIff(rest, stop);
    if !Swallows(rest, stop) {
      assert es + [] == es;
    }
  }

  // ---- The blank line is where `read_until(..., "\r\n\r\n")` stops

  lemma LineStep(t: string, more: string, i: nat)
    requires '\r' !in t && (more != "" ==> more[0] != '\r')
    requires At(t + (CRLF + more), i, BLANK_LINE)
    ensures i >= |t| + 2 && At(more, i - |t| - 2, BLANK_LINE)
  {
    var s := t + (CRLF + more);
    AtChars(s, i, BLANK_LINE);
    assert s[i] == '\r' && s[i + 2] == '\r';
    assert forall k :: 0 <= k < |t| ==> s[k] == t[k];
    assert s[|t| + 1] == '\n' && s[|t| + 2..] == more;
    assert s[i..] == more[i - |t| - 2..];
  }

  lemma {:induction false} BlankLineIsLast(es: seq<Entry>, stop: string, rest: string, i: nat)
    requires stop != "" && GoodFields(es, stop)
    requires At(FieldLines(es) + (CRLF + rest), i, BLANK_LINE)
    ensures i + 2 >= |FieldLines(es)|
  {
    if es != [] {
      var t := es[0].0 + (": " + es[0].1);
      var more := FieldLines(es[1..]) + (CRLF + rest);
      assert FieldLines(es) + (CRLF + rest) == t + (CRLF + more);
      if |es| > 1 {
        assert more[0] == es[1].0[0];
        LineStep(t, more, i);
        BlankLineIsLast(es[1..], stop, rest, i - |t| - 2);
      } else {
        BlankInLastLine(t, rest, i);
      }
    }
  }

  lemma BlankInLastLine(t: string, rest: string, i: nat)
    requires '\r' !in t && At(t + (CRLF + (CRLF + rest)), i, BLANK_LINE)
    ensures i >= |t|
  {
    var s := t + (CRLF + (CRLF + rest));
    AtChars(s, i, BLANK_LINE);
    assert s[i] == '\r';
    assert forall k :: 0 <= k < |t| ==> s[k] == t[k];
  }

  /** A first line, header lines and the blank line. */
  function Block(first: string, es: seq<Entry>): string {
    first + (CRLF + (FieldLines(es) + CRLF))
  }

  lemma BlankAtBlockEnd(first: string, es: seq<Entry>, stop: string, payload: string, i: nat)
    requires first != "" && '\r' !in first && stop != "" && GoodFields(es, stop)
    requires At(Block(first, es) + payload, i, BLANK_LINE)
    ensures i + 4 >= |Block(first, es)|
  {
    var more := FieldLines(es) + (CRLF + payload);
    assert Block(first, es) + payload == first + (CRLF + more);
    if es == [] {
      assert more == CRLF + payload;
      BlankInLastLine(first, payload, i);
    } else {
      assert more[0] == es[0].0[0];
      LineStep(first, more, i);
      BlankLineIsLast(es, stop, payload, i - |first| - 2);
    }
  }

  /** A prefix of a message that contains a blank line contains the whole block. */
  lemma BlockIsComplete(first: string, es: seq<Entry>, stop: string, payload: string, buf: string)
    requires first != "" && '\r' !in first && stop != "" && GoodFields(es, stop)
    requires buf <= Block(first, es) + payload && Contains(buf, BLANK_LINE)
    ensures |Block(first, es)| <= |buf|
    ensures buf == Block(first, es) + buf[|Block(first, es)|..] && buf[|Block(first, es)|..] <= payload
  {
    var wire, i := Block(first, es) + payload, Find(buf, BLANK_LINE);
    AtChars(buf, i, BLANK_LINE);
    AtExtends(buf, wire[|buf|..], i, BLANK_LINE);
    assert wire == buf + wire[|buf|..];
    BlankAtBlockEnd(first, es, stop, payload, i);
    PrefixSplit(Block(first, es), payload, buf);
  }

  lemma PrefixSplit(a: string, b: string, buf: string)
    requires buf <= a + b && |a| <= |buf|
    ensures buf == a + buf[|a|..] && buf[|a|..] <= b
  {
    var ab := a + b;
    assert buf == ab[..|buf|];
    assert ab[..|buf|][..|a|] == a && ab[..|buf|][|a|..] == b[..|buf| - |a|];
  }

  lemma BlockHasBlankLine(first: string, es: seq<Entry>, payload: string)
    ensures Contains(Block(first, es) + payload, BLANK_LINE)
  {
    var wire := Block(first, es) + payload;
    if es == [] {
      assert wire[|first|..] == BLANK_LINE + payload;
      ContainsAt(wire, BLANK_LINE, |first|);
    } else {
      LinesEndInCrlf(es);
      var i := |Block(first, es)| - 4;
      assert wire[i..] == BLANK_LINE + payload;
      ContainsAt(wire, BLANK_LINE, i);
    }
  }

  lemma {:induction false} LinesEndInCrlf(es: seq<Entry>)
    requires es != []
    ensures var s := FieldLines(es); |s| >= 2 && s[|s| - 2..] == CRLF
  {
    var s, line := FieldLines(es), FieldLine(es[0]);
    if |es| == 1 {
      assert es[1..] == [] && s == line + FieldLines([]) == line;
      assert line[|line| - 2..] == CRLF;
    } else {
      LinesEndInCrlf(es[1..]);
      var tail := FieldLines(es[1..]);
      assert s[|s| - 2..] == tail[|tail| - 2..];
    }
  }

  lemma {:induction false} LinesHaveNoNul(es: seq<Entry>, stop: string)
    requires stop != "" && GoodFields(es, stop)
    ensures '\0' !in FieldLines(es)
  {
    if es != [] {
      LinesHaveNoNul(es[1..], stop);
    }
  }
}
