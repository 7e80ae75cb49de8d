/** Numerals: the digit strings that `radix_converter`, `qi::hex`, `qi::int_`,
    `karma::int_` and `boost::format("%02X")` read and write. */
module Radix {
  import opened Options

  const INT_MAX := 0x7fff_ffff

  predicate IsDigit(base: nat, c: char) {
    '0' <= c <= '9' || (base == 16 && ('A' <= c <= 'F' || 'a' <= c <= 'f'))
  }

  /** The value of one digit; as in `hex_to_dec`, any other character is worth nothing. */
  function DigitValue(c: char): (v: nat)
    ensures v < 16
    ensures '0' <= c <= '9' ==> v < 10
  {
    if '0' <= c <= '9' then c as int - '0' as int
    else if 'A' <= c <= 'F' then c as int - 'A' as int + 10
    else if 'a' <= c <= 'f' then c as int - 'a' as int + 10
    else 0
  }

  /** The digits of an upper-case hexadecimal numeral. */
  predicate UpperHex(c: char) {
    '0' <= c <= '9' || 'A' <= c <= 'F'
  }

  function DigitChar(v: nat): (c: char)
    requires v < 16
    ensures DigitValue(c) == v && IsDigit(16, c) && (v < 10 ==> IsDigit(10, c))
    ensures UpperHex(c)
  {
    if v < 10 then (v + '0' as int) as char else (v - 10 + 'A' as int) as char
  }

  lemma DigitsAre(c: char)
    requires IsDigit(10, c) || UpperHex(c)
    ensures c == DigitChar(DigitValue(c))
  {
  }

  function Value(base: nat, s: string): nat {
    if s == "" then 0 else Value(base, s[..|s| - 1]) * base + DigitValue(s[|s| - 1])
  }

  function Power(base: nat, e: nat): nat {
    if e == 0 then 1 else base * Power(base, e - 1)
  }

  lemma ValueSnoc(base: nat, s: string, c: char)
    ensures Value(base, s + [c]) == Value(base, s) * base + DigitValue(c)
  {
    assert (s + [c])[..|s|] == s;
  }

  lemma Distribute(x: nat, p: nat, y: nat, base: nat)
    ensures (x * p + y) * base == x * (base * p) + y * base
  {
    assert (x * p + y) * base == (x * p) * base + y * base;
    assert (x * p) * base == x * (p * base);
  }

  lemma LastDigit(s: string)
    requires s != ""
    ensures s == s[..|s| - 1] + [s[|s| - 1]]
  {
  }

  lemma {:induction false} ValueConcat(base: nat, a: string, b: string)
    ensures Value(base, a + b) == Value(base, a) * Power(base, |b|) + Value(base, b)
    decreases |b|
  {
    if b == "" {
      assert a + b == a;
    } else {
      var high, c := b[..|b| - 1], b[|b| - 1];
      ValueConcat(base, a, high);
      LastDigit(b);
      assert Value(base, a + b) == Value(base, a + high) * base + DigitValue(c) by {
        assert a + b == (a + high) + [c];
        ValueSnoc(base, a + high, c);
      }
      Distribute(Value(base, a), Power(base, |high|), Value(base, high), base);
    }
  }

  /** A numeral of n digits stays below base^n. */
  lemma {:induction false} ValueBound(base: nat, s: string)
    requires base == 16 || (base == 10 && forall i :: 0 <= i < |s| ==> IsDigit(10, s[i]))
    ensures Value(base, s) < Power(base, |s|)
  {
    if s != "" {
      var s', c := s[..|s| - 1], s[|s| - 1];
      ValueBound(base, s');
      if base == 16 {
        assert Value(16, s') * 16 + 16 <= 16 * Power(16, |s'|);
      } else {
        assert Value(10, s') * 10 + 10 <= 10 * Power(10, |s'|);
      }
    }
  }

  lemma TwoHexDigitsFit(s: string)
    requires |s| == 2
    ensures Value(16, s) < 256
  {
    ValueBound(16, s);
    assert Power(16, 2) == 16 * Power(16, 1) == 16 * (16 * Power(16, 0));
  }

  lemma SevenHexDigitsFit(s: string)
    requires |s| <= 7
    ensures Value(16, s) < 0x1000_0000
  {
    ValueBound(16, s + seq(7 - |s|, _ => '0'));
    ValuePrefix(16, s + seq(7 - |s|, _ => '0'), |s|);
    assert (s + seq(7 - |s|, _ => '0'))[..|s|] == s;
    assert Power(16, 4) == 16 * Power(16, 3) == 256 * Power(16, 2) == 4096 * Power(16, 1);
    assert Power(16, 7) == 16 * Power(16, 6) == 256 * Power(16, 5) == 4096 * Power(16, 4);
  }

  lemma Scale(x: nat, base: nat)
    requires base >= 1
    ensures x <= x * base
  {
  }

  /** Removing digits at the end never increases a numeral: the loop's running value is
      largest at the end, so only the final value decides whether `int` overflows. */
  lemma {:induction false} ValuePrefix(base: nat, s: string, i: nat)
    requires base >= 1 && i <= |s|
    ensures Value(base, s[..i]) <= Value(base, s)
    decreases |s|
  {
    if i < |s| {
      var s' := s[..|s| - 1];
      ValuePrefix(base, s', i);
      assert s'[..i] == s[..i];
      Scale(Value(base, s'), base);
    } else {
      assert s[..i] == s;
    }
  }

  /** `radix_converter::hex_to_dec`; a value beyond `int` is undefined behaviour there. */
  method HexToDec(hex: string) returns (dec: int)
    requires Value(16, hex) <= INT_MAX
    ensures dec == Value(16, hex)
  {
    dec := 0;
    for i := 0 to |hex|
      invariant dec == Value(16, hex[..i]) <= INT_MAX
    {
      ValuePrefix(16, hex, i + 1);
      assert hex[..i + 1][..i] == hex[..i];
      dec := dec * 16;
      assert dec <= Value(16, hex[..i + 1]) <= INT_MAX;  // no overflow between the two statements
      if '0' <= hex[i] <= '9' {
        dec := dec + (hex[i] as int - '0' as int);
      } else if 'A' <= hex[i] <= 'F' {
        dec := dec + (hex[i] as int - 'A' as int + 10);
      } else if 'a' <= hex[i] <= 'f' {
        dec := dec + (hex[i] as int - 'a' as int + 10);
      }
    }
    assert hex[..|hex|] == hex;
  }

  /** The number a text of hexadecimal digits stands for, and no number for any other text. */
  function Numeral(s: string): (v: Option<nat>) {
    if s == "" then Some(0)
    else if !IsDigit(16, s[0]) then None
    else match Numeral(s[1..])
      case None => None
      case Some(rest) => Some(DigitValue(s[0]) * Power(16, |s| - 1) + rest)
  }

  /** `hex_to_dec` never fails: it yields the number that is written exactly when there is one. */
  lemma {:induction false} ValueIsNumeral(s: string)
    ensures Numeral(s) == Some(Value(16, s)) <==> forall i :: 0 <= i < |s| ==> IsDigit(16, s[i])
    ensures Numeral(s).None? || Numeral(s) == Some(Value(16, s))
  {
    if s != "" {
      ValueIsNumeral(s[1..]);
      ValueConcat(16, [s[0]], s[1..]);
      assert [s[0]] + s[1..] == s;
      assert forall i :: 0 <= i < |s| ==> s[i] == if i == 0 then s[0] else s[1..][i - 1];
    }
  }

  /** Any other character counts as a zero. */
  lemma {:induction false} NonDigitsAreZeros(s: string)
    ensures Value(16, s) == Value(16, seq(|s|, i requires 0 <= i < |s| => if IsDigit(16, s[i]) then s[i] else '0'))
  {
    if s != "" {
      var high := s[..|s| - 1];
      NonDigitsAreZeros(high);
      var zeroed := seq(|s|, i requires 0 <= i < |s| => if IsDigit(16, s[i]) then s[i] else '0');
      assert zeroed[..|s| - 1] ==
        seq(|high|, i requires 0 <= i < |high| => if IsDigit(16, high[i]) then high[i] else '0');
    }
  }

  lemma NoNumeral()
    ensures Value(16, "zz") == 0 && Numeral("zz").None?
  {
  }

  function FlipCase(c: char): char {
    if 'A' <= c <= 'Z' then (c as int + 32) as char
    else if 'a' <= c <= 'z' then (c as int - 32) as char
    else c
  }

  /** The case of hexadecimal letters does not matter, digit by digit. */
  lemma {:induction false} CaseDoesNotMatter(s: string, t: string)
    requires |s| == |t| && forall i :: 0 <= i < |s| ==> t[i] == s[i] || t[i] == FlipCase(s[i])
    ensures Value(16, s) == Value(16, t)
  {
    if s != "" {
      CaseDoesNotMatter(s[..|s| - 1], t[..|t| - 1]);
    }
  }

  /** Decimal or upper-case hexadecimal numeral without leading zeros. */
  function Print(base: nat, n: nat): (s: string)
    requires base == 10 || base == 16
    ensures s != "" && forall i :: 0 <= i < |s| ==> IsDigit(base, s[i])
    ensures Value(base, s) == n
    ensures n > 0 ==> s[0] != '0'
    decreases n
  {
    if n < base then
      [DigitChar(n)]
    else
      var high, last := Print(base, n / base), DigitChar(n % base);
      assert (high + [last])[..|high|] == high;
      high + [last]
  }

  /** A decimal numeral that does not start with a needless zero. */
  predicate PlainDecimal(s: string) {
    s != "" && (forall i :: 0 <= i < |s| ==> IsDigit(10, s[i])) && (|s| > 1 ==> s[0] != '0')
  }

  lemma {:induction false} PositiveStart(s: string)
    requires s != "" && (forall i :: 0 <= i < |s| ==> IsDigit(10, s[i])) && s[0] != '0'
    ensures Value(10, s) > 0
  {
    if |s| > 1 {
      PositiveStart(s[..|s| - 1]);
    }
  }

  /** A decimal numeral is determined by its value. */
  lemma {:induction false} PrintUnique(s: string)
    requires PlainDecimal(s)
    ensures s == Print(10, Value(10, s))
  {
    var high, c := s[..|s| - 1], s[|s| - 1];
    LastDigit(s);
    DigitsAre(c);
    if high != "" {
      PositiveStart(high);
      PrintUnique(high);
      assert Value(10, s) / 10 == Value(10, high) && Value(10, s) % 10 == DigitValue(c);
    }
  }

  /** `boost::format("%02X")` on a byte. */
  function TwoDigits(n: nat): (s: string)
    requires n < 256
    ensures |s| == 2 && Value(16, s) == n
    ensures UpperHex(s[0]) && UpperHex(s[1])
  {
    ValueSnoc(16, [], DigitChar(n / 16));
    ValueSnoc(16, [DigitChar(n / 16)], DigitChar(n % 16));
    [DigitChar(n / 16)] + [DigitChar(n % 16)]
  }

  /** It is the only such text of two upper-case digits. */
  lemma TwoDigitsUnique(s: string)
    requires |s| == 2 && UpperHex(s[0]) && UpperHex(s[1])
    ensures Value(16, s) < 256 && TwoDigits(Value(16, s)) == s
  {
    var a, b := s[0], s[1];
    DigitsAre(a);
    DigitsAre(b);
    ValueSnoc(16, [], a);
    ValueSnoc(16, [a], b);
    assert s == [a] + [b] && [] + [a] == [a];
  }

  lemma TwoDigitsAreDigits(n: nat)
    requires n < 256
    ensures IsDigit(16, TwoDigits(n)[0]) && IsDigit(16, TwoDigits(n)[1])
  {
  }

  /** How many digits a text starts with. */
  function DigitCount(base: nat, s: string): (n: nat)
    ensures n <= |s|
    ensures forall i :: 0 <= i < n ==> IsDigit(base, s[i])
    ensures n < |s| ==> !IsDigit(base, s[n])
  {
    if s == "" || !IsDigit(base, s[0]) then 0 else 1 + DigitCount(base, s[1..])
  }

  lemma {:induction false} DigitCountIs(base: nat, d: string, rest: string)
    requires forall i :: 0 <= i < |d| ==> IsDigit(base, d[i])
    requires rest == "" || !IsDigit(base, rest[0])
    ensures DigitCount(base, d + rest) == |d|
  {
    if d == "" {
      assert d + rest == rest;
    } else {
      DigitCountIs(base, d[1..], rest);
      assert (d + rest)[1..] == d[1..] + rest;
    }
  }
}
