/** Byte strings and substring search.

    A `std::string` of the library is a Dafny `string`; `IsBytes` says where its
    characters must be byte values.  `Find` is what every Spirit rule of the form
    `+(char_ - stop)` scans with. */
module Text {

  const CRLF := "\r\n"
  const BLANK_LINE := "\r\n\r\n"

  predicate IsBytes(s: string) {
    forall i :: 0 <= i < |s| ==> s[i] as int < 256
  }

  /** `d` starts at position `i` of `s`. */
  predicate At(s: string, i: nat, d: string) {
    i <= |s| && d <= s[i..]
  }

  /** Index of the first occurrence of `d`, or |s| when there is none. */
  function Find(s: string, d: string): (i: nat)
    requires d != ""
    ensures i <= |s|
    ensures i < |s| ==> At(s, i, d)
    ensures forall j :: 0 <= j < i ==> !At(s, j, d)
  {
    if s == "" || d <= s then 0 else
      var i := 1 + Find(s[1..], d);
      assert forall j :: 1 <= j < |s| ==> s[j..] == s[1..][j - 1..];
      assert forall j :: 1 <= j < i ==> (At(s, j, d) <==> At(s[1..], j - 1, d));
      i
  }

  predicate Contains(s: string, d: string)
    requires d != ""
  {
    Find(s, d) < |s|
  }

  /** The first character of `d` does not come back inside `d`, so `d` cannot overlap itself. */
  predicate Leads(d: string) {
    d != "" && d[0] !in d[1..]
  }

  lemma FindIs(s: string, d: string, i: nat)
    requires d != "" && At(s, i, d)
    requires forall j :: 0 <= j < i ==> !At(s, j, d)
    ensures Find(s, d) == i && i < |s|
  {
  }

  lemma ContainsAt(s: string, d: string, i: nat)
    requires d != "" && At(s, i, d)
    ensures Contains(s, d) && Find(s, d) <= i
  {
  }

  lemma AtExtends(s: string, t: string, i: nat, d: string)
    requires i + |d| <= |s|
    ensures At(s + t, i, d) <==> At(s, i, d)
  {
    assert (s + t)[i..] == s[i..] + t;
    if At(s + t, i, d) {
      assert d == (s + t)[i..][..|d|] == s[i..][..|d|];
    }
  }

  /** An occurrence found in `s` is still the first one when more text follows. */
  lemma FindExtends(s: string, t: string, d: string)
    requires d != "" && Contains(s, d)
    ensures Find(s + t, d) == Find(s, d) && Contains(s + t, d)
  {
    var i := Find(s, d);
    forall j | 0 <= j <= i ensures At(s + t, j, d) <==> At(s, j, d) {
      AtExtends(s, t, j, d);
    }
    FindIs(s + t, d, i);
  }

  /** The characters an occurrence pins down. */
  lemma AtChars(s: string, i: nat, d: string)
    ensures At(s, i, d) ==> i + |d| <= |s| && forall k :: 0 <= k < |d| ==> s[i + k] == d[k]
  {
    if At(s, i, d) {
      forall k | 0 <= k < |d| ensures s[i + k] == d[k] {
        assert s[i..][k] == d[k];
      }
    }
  }

  /** A text free of `d` ends exactly where the following `d` begins. */
  lemma FindDelimiter(a: string, d: string, b: string)
    requires Leads(d) && !Contains(a, d)
    ensures Find(a + d + b, d) == |a| && Contains(a + d + b, d)
  {
    var s := a + d + b;
    assert s[|a|..] == d + b;
    forall j | 0 <= j < |a| ensures !At(s, j, d) {
      assert s == a + (d + b);
      if j + |d| <= |a| {
        AtExtends(a, d + b, j, d);
        assert !At(a, j, d);
      } else {
        AtChars(s, j, d);
        assert s[j + (|a| - j)] == d[0] && d[|a| - j] == d[1..][|a| - j - 1];
      }
    }
    FindIs(s, d, |a|);
  }

  /** A text that lacks the first character of `d` lacks `d`. */
  lemma LacksFirst(s: string, d: string)
    requires d != "" && d[0] !in s
    ensures !Contains(s, d)
  {
    AtChars(s, Find(s, d), d);
  }

  lemma SubtextLacks(p: string, s: string, t: string, d: string)
    requires d != "" && !Contains(p + s + t, d)
    ensures !Contains(s, d)
  {
    if Contains(s, d) {
      var i := Find(s, d);
      assert (p + s + t)[|p| + i..] == s[i..] + t;
      ContainsAt(p + s + t, d, |p| + i);
    }
  }

  /** What `(std::string)buffer_cast<const char*>(...)` yields: the text before the first NUL.
      A buffer without NUL is taken to be followed by one. */
  function CString(s: string): (r: string)
    ensures r <= s && '\0' !in r
    ensures '\0' !in s ==> r == s
  {
    if s == "" || s[0] == '\0' then "" else [s[0]] + CString(s[1..])
  }

  lemma {:induction false} CStringConcat(a: string, b: string)
    requires '\0' !in a
    ensures CString(a + b) == a + CString(b)
  {
    if a == "" {
      assert a + b == b;
    } else {
      CStringConcat(a[1..], b);
      assert (a + b)[1..] == a[1..] + b;
    }
  }

  function Concat(parts: seq<string>): string {
    if parts == [] then "" else parts[0] + Concat(parts[1..])
  }

  lemma ConcatFirst(s: string, segs: seq<string>)
    ensures Concat([s] + segs) == s + Concat(segs)
  {
    assert ([s] + segs)[1..] == segs;
  }

  lemma ConcatOne(s: string)
    ensures Concat([s]) == s
  {
    assert s + "" == s;
  }

  lemma ConcatTwo(a: string, b: string)
    ensures Concat([a, b]) == a + b
  {
    assert [a, b] == [a] + [b];
    ConcatFirst(a, [b]);
    ConcatOne(b);
  }

  lemma Regroup(a: string, b: string, c: string)
    ensures (a + b) + c == a + (b + c)
  {
  }

  /** A buffer that reaches past `front + mid` starts with them; the rest is still to come. */
  lemma SplitStream(buf: string, unread: string, front: string, mid: string, rest: string)
    requires buf + unread == front + (mid + rest) && |front| + |mid| <= |buf|
    ensures buf[..|front|] == front
    ensures buf == front + (mid + buf[|front| + |mid|..])
    ensures buf[|front| + |mid|..] + unread == rest
  {
    var s, n := buf + unread, |front| + |mid|;
    assert s == (front + mid) + rest;
    assert s[..n] == buf[..n] == front + mid;
    assert s[n..] == buf[n..] + unread == rest;
    assert buf[..n][..|front|] == front;
    assert buf == buf[..n] + buf[n..];
  }

  lemma {:induction false} CStringPrefix(x: string, y: string)
    ensures CString(x) <= CString(x + y)
  {
    if x != "" && x[0] != '\0' {
      CStringPrefix(x[1..], y);
      assert (x + y)[1..] == x[1..] + y;
    }
  }

  lemma SplitAfter(a: string, x: string, y: string, payload: string)
    requires (a + x) + y == a + payload
    ensures x + y == payload
  {
    assert (a + x) + y == a + (x + y);
    assert (a + (x + y))[|a|..] == x + y && (a + payload)[|a|..] == payload;
  }
}
