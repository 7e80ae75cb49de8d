/** `percent_encoder`: RFC 3986 percent-coding, sections 2.1 and 2.3. */
module PercentEncoder {
  import opened Text
  import opened Radix
  import opened Options

  predicate Unreserved(c: char) {
    '0' <= c <= '9' || 'A' <= c <= 'Z' || 'a' <= c <= 'z'
    || c == '-' || c == '.' || c == '_' || c == '~'
  }

  function EncodeByte(c: char): string {
    if Unreserved(c) then [c] else "%" + TwoDigits(c as int % 256)
  }

  function Encoded(s: string): string {
    if s == "" then "" else EncodeByte(s[0]) + Encoded(s[1..])
  }

  function Prepend(s: string, r: Option<string>): Option<string> {
    match r
    case None => None
    case Some(rest) => Some(s + rest)
  }

  lemma PrependTwice(a: string, b: string, r: Option<string>)
    ensures Prepend(a, Prepend(b, r)) == Prepend(a + b, r)
    ensures Prepend("", r) == r
  {
    if r.Some? {
      assert a + (b + r.value) == a + b + r.value;
      assert "" + r.value == r.value;
    }
  }

  /** The decoding of `t`, or None where the code would read past the end of an escape. */
  function Decoded(t: string): (r: Option<string>)
    ensures r.Some? ==> IsBytes(t) ==> IsBytes(r.value)
    ensures r.Some? ==> (t == "" <==> r.value == "")
  {
    if t == "" then Some("")
    else if t[0] == '%' then
      if |t| < 3 then None else
        TwoHexDigitsFit(t[1..3]);
        Prepend([Value(16, t[1..3]) as char], Decoded(t[3..]))
    else
      Prepend([t[0]], Decoded(t[1..]))
  }

  method Encode(s: string) returns (out: string)
    ensures out == Encoded(s)
  {
    out := "";
    var first := 0;
    while first != |s|
      invariant first <= |s|
      invariant out + Encoded(s[first..]) == Encoded(s)
      decreases |s| - first
    {
      var c := s[first];
      ghost var rest := Encoded(s[first + 1..]);
      assert s[first..][1..] == s[first + 1..];
      Regroup(out, EncodeByte(c), rest);
      if 0x30 <= c as int <= 0x39 || 0x41 <= c as int <= 0x5a || 0x61 <= c as int <= 0x7a
         || c as int == 0x2d || c as int == 0x2e || c as int == 0x5f || c as int == 0x7e {
        out := out + [c];
      } else {
        out := out + ("%" + TwoDigits(c as int % 256));
      }
      first := first + 1;
    }
  }

  /** None: the input ends inside an escape, where `std::string(first+1, first+3)` is undefined. */
  method Decode(t: string) returns (out: Option<string>)
    ensures out == Decoded(t)
  {
    var done := "";
    var first := 0;
    assert t[0..] == t;
    PrependTwice("", "", Decoded(t));
    while first != |t|
      invariant first <= |t|
      invariant Decoded(t) == Prepend(done, Decoded(t[first..]))
      decreases |t| - first
    {
      if t[first] == '%' {
        if |t| - first < 3 {
          return None;
        }
        assert t[first..][1..3] == t[first + 1..first + 3];
        assert t[first..][3..] == t[first + 3..];
        TwoHexDigitsFit(t[first + 1..first + 3]);
        var dec := HexToDec(t[first + 1..first + 3]);
        PrependTwice(done, [dec as char], Decoded(t[first + 3..]));
        done := done + [dec as char];
        first := first + 3;
      } else {
        assert t[first..][1..] == t[first + 1..];
        PrependTwice(done, [t[first]], Decoded(t[first + 1..]));
        done := done + [t[first]];
        first := first + 1;
      }
    }
    assert t[first..] == "";
    assert done + "" == done;
    out := Some(done);
  }

  lemma DecodeByte(c: char, t: string)
    requires c as int < 256
    ensures Decoded(EncodeByte(c) + t) == Prepend([c], Decoded(t))
  {
    var text := EncodeByte(c) + t;
    if Unreserved(c) {
      assert text[1..] == t;
    } else {
      assert text[1..3] == TwoDigits(c as int) && text[3..] == t;
    }
  }

  /** Decoding undoes encoding, for every byte string, whatever text follows. */
  lemma {:induction false} DecodePrefix(s: string, t: string)
    requires IsBytes(s)
    ensures Decoded(Encoded(s) + t) == Prepend(s, Decoded(t))
  {
    if s == "" {
      assert Encoded(s) + t == t;
      PrependTwice("", "", Decoded(t));
    } else {
      var rest := Encoded(s[1..]);
      DecodePrefix(s[1..], t);
      assert (EncodeByte(s[0]) + rest) + t == EncodeByte(s[0]) + (rest + t);
      DecodeByte(s[0], rest + t);
      PrependTwice([s[0]], s[1..], Decoded(t));
      assert [s[0]] + s[1..] == s;
    }
  }

  lemma EncodedEmptyTail(s: string)
    ensures Encoded(s) + "" == Encoded(s)
  {
    var e := Encoded(s);
    assert e + "" == e;
  }

  lemma DecodeEncode(s: string)
    requires IsBytes(s)
    ensures Decoded(Encoded(s)) == Some(s)
  {
    DecodePrefix(s, "");
    EncodedEmptyTail(s);
    assert s + "" == s;
  }

  lemma EncodeInjective(s: string, t: string)
    requires IsBytes(s) && IsBytes(t) && Encoded(s) == Encoded(t)
    ensures s == t
  {
    DecodeEncode(s);
    DecodeEncode(t);
  }

  lemma EncodedCons(c: char, s: string)
    ensures Encoded([c] + s) == EncodeByte(c) + Encoded(s)
  {
    assert ([c] + s)[1..] == s;
  }

  lemma {:induction false} EncodeConcat(s: string, t: string)
    ensures Encoded(s + t) == Encoded(s) + Encoded(t)
  {
    if s == "" {
      assert s + t == t;
    } else {
      var c, rest := s[0], s[1..];
      EncodeConcat(rest, t);
      EncodedCons(c, rest);
      EncodedCons(c, rest + t);
      assert s == [c] + rest;
      Regroup([c], rest, t);
      Regroup(EncodeByte(c), Encoded(rest), Encoded(t));
    }
  }

  /** Two digits that stand for a byte which is not unreserved. */
  predicate CodesReserved(digits: string)
    requires |digits| == 2
  {
    TwoHexDigitsFit(digits);
    !Unreserved(Value(16, digits) as char)
  }

  /** The text is one that `encode` could have written: every character either unreserved and
      plain, or an upper-case escape of a byte that is not unreserved. */
  predicate Canonical(t: string) {
    t == "" ||
    if t[0] == '%' then
      |t| >= 3 && UpperHex(t[1]) && UpperHex(t[2]) && CodesReserved(t[1..3]) && Canonical(t[3..])
    else
      Unreserved(t[0]) && Canonical(t[1..])
  }

  lemma ByteIsCanonical(c: char, t: string)
    requires c as int < 256 && Canonical(t)
    ensures Canonical(EncodeByte(c) + t)
  {
    var text := EncodeByte(c) + t;
    if Unreserved(c) {
      assert text[1..] == t;
    } else {
      assert text[0] == '%' && text[1..3] == TwoDigits(c as int) && text[3..] == t;
      var v := Value(16, text[1..3]);
      assert v == c as int && v % 256 == v && v as char == c;
    }
  }

  lemma {:induction false} EncodedIsCanonical(s: string)
    requires IsBytes(s)
    ensures Canonical(Encoded(s))
  {
    if s != "" {
      EncodedIsCanonical(s[1..]);
      ByteIsCanonical(s[0], Encoded(s[1..]));
    }
  }

  /** An upper-case escape is the encoding of what it decodes to. */
  lemma EscapeBack(digits: string, v: nat, c: char)
    requires v < 256 && TwoDigits(v) == digits && c == v as char && !Unreserved(c)
    ensures EncodeByte(c) == "%" + digits
  {
    assert c as int % 256 == v;
  }

  lemma EscapeDecodes(digits: string, rest: string, v: nat)
    requires |digits| == 2 && v == Value(16, digits) < 256
    ensures Decoded("%" + digits + rest) == Prepend([v as char], Decoded(rest))
  {
    var t := "%" + digits + rest;
    assert t[1..3] == digits && t[3..] == rest;
  }

  lemma CanonicalEscape(digits: string, rest: string, v: nat)
    requires |digits| == 2 && v == Value(16, digits) < 256 && TwoDigits(v) == digits && !Unreserved(v as char)
    requires Decoded(rest).Some? && Encoded(Decoded(rest).value) == rest
    ensures Decoded("%" + digits + rest).Some?
    ensures Encoded(Decoded("%" + digits + rest).value) == "%" + digits + rest
  {
    EscapeDecodes(digits, rest, v);
    EscapeBack(digits, v, v as char);
    EncodedCons(v as char, Decoded(rest).value);
  }

  lemma {:induction false} CanonicalDecodes(t: string)
    requires Canonical(t) && IsBytes(t)
    ensures Decoded(t).Some? && Encoded(Decoded(t).value) == t
  {
    if t != "" {
      if t[0] == '%' {
        CanonicalDecodes(t[3..]);
        TwoDigitsUnique(t[1..3]);
        CanonicalEscape(t[1..3], t[3..], Value(16, t[1..3]));
        assert t == "%" + t[1..3] + t[3..];
      } else {
        CanonicalDecodes(t[1..]);
        EncodedCons(t[0], Decoded(t[1..]).value);
      }
    }
  }

  /** Re-encoding a decodable text is the identity on canonical text and on no other. */
  lemma ReencodeFixesCanonical(t: string)
    requires IsBytes(t) && Decoded(t).Some?
    ensures Encoded(Decoded(t).value) == t <==> Canonical(t)
  {
    EncodedIsCanonical(Decoded(t).value);
    if Canonical(t) {
      CanonicalDecodes(t);
    }
  }

  /** Re-encoding is a normal form: canonical, and with the same decoding as its input. */
  lemma NormalForm(t: string)
    requires IsBytes(t) && Decoded(t).Some?
    ensures var n := Encoded(Decoded(t).value);
      Canonical(n) && Decoded(n) == Decoded(t) && Encoded(Decoded(n).value) == n
  {
    EncodedIsCanonical(Decoded(t).value);
    DecodeEncode(Decoded(t).value);
  }

  // ---- Which texts can be decoded

  /** A plain character or a whole escape. */
  predicate Item(s: string) {
    s != "" && |s| == if s[0] == '%' then 3 else 1
  }

  /** What an item decodes to. */
  function ItemText(s: string): string
    requires Item(s)
  {
    if s[0] == '%' then
      TwoHexDigitsFit(s[1..3]);
      [Value(16, s[1..3]) as char]
    else [s[0]]
  }

  lemma DecodeItem(s: string, t: string)
    requires Item(s)
    ensures Decoded(s + t) == Prepend(ItemText(s), Decoded(t))
  {
    assert (s + t)[|s|..] == t;
    if s[0] == '%' {
      assert (s + t)[1..3] == s[1..3];
    }
  }

  lemma FirstItem(t: string) returns (s: string, more: string)
    requires t != "" && (t[0] == '%' ==> |t| >= 3)
    ensures Item(s) && t == s + more
  {
    var n := if t[0] == '%' then 3 else 1;
    s, more := t[..n], t[n..];
  }

  lemma {:induction false} DecodeAfter(p: string, t: string)
    requires Decoded(p).Some?
    ensures Decoded(p + t) == Prepend(Decoded(p).value, Decoded(t))
    decreases |p|
  {
    if p == "" {
      assert p + t == t;
      PrependTwice("", "", Decoded(t));
    } else {
      var s, more := FirstItem(p);
      DecodeItem(s, more);
      DecodeAfter(more, t);
      Regroup(s, more, t);
      DecodeItem(s, more + t);
      PrependTwice(ItemText(s), Decoded(more).value, Decoded(t));
    }
  }

  /** After the decodable text `p` comes an escape that the end of `t` cuts off. */
  predicate CutOffAfter(p: string, t: string) {
    p <= t && Decoded(p).Some? && |p| < |t| <= |p| + 2 && t[|p|] == '%'
  }

  lemma CutOffFails(p: string, t: string)
    requires CutOffAfter(p, t)
    ensures Decoded(t).None?
  {
    DecodeAfter(p, t[|p|..]);
    assert p + t[|p|..] == t;
  }

  lemma PrependPrefix(s: string, p: string, t: string)
    requires CutOffAfter(p, t) && Decoded(s).Some?
    ensures CutOffAfter(s + p, s + t)
  {
    DecodeAfter(s, p);
  }

  lemma {:induction false} FindCutOff(t: string) returns (p: string)
    requires Decoded(t).None?
    ensures CutOffAfter(p, t)
    decreases |t|
  {
    if t[0] == '%' && |t| < 3 {
      p := "";
    } else {
      var s, more := FirstItem(t);
      DecodeItem(s, more);
      p := FindCutOff(more);
      ItemDecodes(s);
      PrependPrefix(s, p, more);
      p := s + p;
    }
  }

  lemma ItemDecodes(s: string)
    requires Item(s)
    ensures Decoded(s).Some?
  {
    DecodeItem(s, "");
    assert s + "" == s;
  }

  /** Decoding runs past the end exactly when an escape is cut off: "%" alone or with one
      character, behind text that decodes. */
  lemma UndefinedIfCutOff(t: string)
    ensures Decoded(t).None? <==> exists p :: CutOffAfter(p, t)
  {
    if Decoded(t).None? {
      var p := FindCutOff(t);
    }
    forall p | CutOffAfter(p, t) ensures Decoded(t).None? {
      CutOffFails(p, t);
    }
  }

  /** RFC 3986 section 2.1: every '%' is followed by two hexadecimal digits. */
  predicate WellFormed(t: string) {
    forall i :: 0 <= i < |t| && t[i] == '%' ==> i + 2 < |t| && IsDigit(16, t[i + 1]) && IsDigit(16, t[i + 2])
  }

  lemma WellFormedTail(t: string, n: nat)
    requires WellFormed(t) && n <= |t|
    ensures WellFormed(t[n..])
  {
    assert forall i :: 0 <= i < |t| - n ==> t[n..][i] == t[n + i];
  }

  lemma {:induction false} WellFormedDecodes(t: string)
    requires WellFormed(t)
    ensures Decoded(t).Some?
  {
    if t != "" {
      var n := if t[0] == '%' then 3 else 1;
      WellFormedTail(t, n);
      WellFormedDecodes(t[n..]);
    }
  }

  /** Section 2.1 again: the digits an encoder writes are upper-case. */
  predicate UpperEscapes(t: string) {
    forall i :: 0 <= i < |t| && t[i] == '%' ==>
      i + 2 < |t| && UpperHex(t[i + 1]) && UpperHex(t[i + 2])
  }

  /** In encoded text every '%' is followed by two upper-case hexadecimal digits. */
  lemma {:induction false} EncodedIsUpper(s: string)
    ensures UpperEscapes(Encoded(s))
  {
    if s != "" {
      EncodedIsUpper(s[1..]);
      JoinUpper(s[0], Encoded(s[1..]));
    }
  }

  lemma JoinUpper(c: char, t: string)
    requires UpperEscapes(t)
    ensures UpperEscapes(EncodeByte(c) + t)
  {
    var head := EncodeByte(c);
    if !Unreserved(c) {
      TwoDigitsAreDigits(c as int % 256);
      assert head[1..] == TwoDigits(c as int % 256) && head[1] != '%' && head[2] != '%';
    }
    forall i | |head| <= i < |head + t| && (head + t)[i] == '%'
      ensures i + 2 < |head + t| && UpperHex((head + t)[i + 1]) && UpperHex((head + t)[i + 2])
    {
      var k := i - |head|;
      assert t[k] == '%' && (head + t)[i + 1] == t[k + 1] && (head + t)[i + 2] == t[k + 2];
    }
  }

  lemma EncodedIsWellFormed(s: string)
    ensures WellFormed(Encoded(s))
  {
    EncodedIsUpper(s);
    var t := Encoded(s);
    forall i | 0 <= i < |t| && t[i] == '%'
      ensures i + 2 < |t| && IsDigit(16, t[i + 1]) && IsDigit(16, t[i + 2])
    {
      assert UpperHex(t[i + 1]) && UpperHex(t[i + 2]);
    }
  }

  /** An escape without digits is not refused: it decodes to NUL. */
  lemma EscapeWithoutDigits(t: string)
    requires t == "%zz"
    ensures Decoded(t) == Some("\0") && !WellFormed(t)
  {
    NoNumeral();
    assert t[1..3] == "zz" && t[3..] == "";
    assert Decoded(t[3..]) == Some("");
    assert [0 as char] + "" == "\0";
    assert !IsDigit(16, t[1]);
  }

  /** Encoded text is made of unreserved characters and '%' alone, so it holds no whitespace,
      no quote and none of the separators. */
  lemma {:induction false} EncodedAlphabet(s: string)
    ensures forall c :: c in Encoded(s) ==> Unreserved(c) || c == '%'
    ensures s == "" <==> Encoded(s) == ""
  {
    if s != "" {
      EncodedAlphabet(s[1..]);
      forall c | c in Encoded(s) ensures Unreserved(c) || c == '%' {
        assert c in EncodeByte(s[0]) || c in Encoded(s[1..]);
      }
    }
  }
}
