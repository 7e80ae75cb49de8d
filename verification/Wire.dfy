/** The socket and Asio's composed reads.

    The peer's bytes arrive cut into segments, one per `read_some`, followed by the end of the
    stream.  A claim for every segmentation is a claim for every list of segments with the
    same concatenation. */
module Wire {
  import opened Text
  import opened Grammar

  datatype ErrorCode = Ok | Eof

  /** A `streambuf` and what the socket has yet to deliver. */
  datatype Link = Link(buf: string, segs: seq<string>) {
    /** Buffered and unread bytes. */
    function Bytes(): string {
      buf + Concat(segs)
    }

    /** `streambuf::consume` */
    function Consume(n: nat): Link {
      this.(buf := if n <= |buf| then buf[n..] else "")
    }
  }

  lemma Absorb(l: Link)
    requires l.segs != []
    ensures Link(l.buf + l.segs[0], l.segs[1..]).Bytes() == l.Bytes()
  {
    var a, b, c := l.buf, l.segs[0], Concat(l.segs[1..]);
    assert a + b + c == a + (b + c);
  }

  /** `read_until`: more segments are taken only while the buffer lacks the delimiter. */
  function ReadUntil(l: Link, d: string): (r: (Link, ErrorCode))
    requires d != ""
    decreases |l.segs|
  {
    if Contains(l.buf, d) then (l, Ok)
    else if l.segs == [] then (l, Eof)
    else ReadUntil(Link(l.buf + l.segs[0], l.segs[1..]), d)
  }

  /** `read` with `transfer_at_least(n)`. */
  function ReadAtLeast(l: Link, n: nat): (r: (Link, ErrorCode))
    decreases |l.segs|
  {
    if n == 0 then (l, Ok)
    else if l.segs == [] then (l, Eof)
    else ReadAtLeast(Link(l.buf + l.segs[0], l.segs[1..]), if n <= |l.segs[0]| then 0 else n - |l.segs[0]|)
  }

  /** `read` with `transfer_all()`. */
  function ReadAll(l: Link): (Link, ErrorCode) {
    (Link(l.Bytes(), []), Eof)
  }

  /** `read_until` loses nothing, and succeeds exactly when the delimiter is still to come,
      however the bytes are cut. */
  lemma {:induction false} ReadUntilExact(l: Link, d: string)
    requires d != ""
    ensures var (l2, ec) := ReadUntil(l, d);
      && l2.Bytes() == l.Bytes()
      && (ec == Ok <==> Contains(l.Bytes(), d))
      && (ec == Ok ==> Contains(l2.buf, d))
      && (ec == Eof ==> l2 == Link(l.Bytes(), []))
    decreases |l.segs|
  {
    if Contains(l.buf, d) {
      FindExtends(l.buf, Concat(l.segs), d);
    } else if l.segs == [] {
      assert l.Bytes() == l.buf;
    } else {
      Absorb(l);
      ReadUntilExact(Link(l.buf + l.segs[0], l.segs[1..]), d);
    }
  }

  /** No segment is taken while the buffer has the delimiter. */
  lemma {:induction false} ReadUntilLeast(l: Link, d: string) returns (k: nat)
    requires d != ""
    ensures k <= |l.segs| && ReadUntil(l, d).0 == Link(l.buf + Concat(l.segs[..k]), l.segs[k..])
    ensures forall j :: 0 <= j < k ==> !Contains(l.buf + Concat(l.segs[..j]), d)
    decreases |l.segs|
  {
    k := 0;
    assert l.buf + "" == l.buf && l.segs[0..] == l.segs;
    if !Contains(l.buf, d) && l.segs != [] {
      var l1 := Link(l.buf + l.segs[0], l.segs[1..]);
      k := ReadUntilLeast(l1, d);
      forall j | 0 <= j <= k ensures l1.buf + Concat(l1.segs[..j]) == l.buf + Concat(l.segs[..j + 1]) {
        FrontSegments(l.buf, l.segs, j);
      }
      assert forall j :: 0 < j <= k ==> l.buf + Concat(l.segs[..j]) == l1.buf + Concat(l1.segs[..j - 1]);
      k := k + 1;
    }
  }

  lemma FrontSegments(buf: string, segs: seq<string>, j: nat)
    requires j < |segs|
    ensures (buf + segs[0]) + Concat(segs[1..][..j]) == buf + Concat(segs[..j + 1])
  {
    assert segs[..j + 1] == [segs[0]] + segs[1..][..j];
    ConcatFirst(segs[0], segs[1..][..j]);
    Regroup(buf, segs[0], Concat(segs[1..][..j]));
  }

  lemma {:induction false} ReadAtLeastExact(l: Link, n: nat)
    ensures var (l2, ec) := ReadAtLeast(l, n);
      && l2.Bytes() == l.Bytes()
      && l.buf <= l2.buf
      && (ec == Ok <==> |l.buf| + n <= |l.Bytes()|)
      && (ec == Ok ==> |l.buf| + n <= |l2.buf|)
      && (ec == Eof ==> l2 == Link(l.Bytes(), []))
    decreases |l.segs|
  {
    if n != 0 {
      if l.segs == [] {
        assert l.Bytes() == l.buf;
      } else {
        Absorb(l);
        ReadAtLeastExact(Link(l.buf + l.segs[0], l.segs[1..]), if n <= |l.segs[0]| then 0 else n - |l.segs[0]|);
      }
    }
  }

  /** No segment is taken once `n` bytes have come. */
  lemma {:induction false} ReadAtLeastLeast(l: Link, n: nat) returns (k: nat)
    ensures k <= |l.segs| && ReadAtLeast(l, n).0 == Link(l.buf + Concat(l.segs[..k]), l.segs[k..])
    ensures forall j :: 0 <= j < k ==> |Concat(l.segs[..j])| < n
    decreases |l.segs|
  {
    k := 0;
    assert l.buf + "" == l.buf && l.segs[0..] == l.segs;
    if n != 0 && l.segs != [] {
      var l1 := Link(l.buf + l.segs[0], l.segs[1..]);
      var left: nat := if n <= |l.segs[0]| then 0 else n - |l.segs[0]|;
      k := ReadAtLeastLeast(l1, left);
      forall j | 0 <= j <= k
        ensures l1.buf + Concat(l1.segs[..j]) == l.buf + Concat(l.segs[..j + 1])
        ensures |Concat(l.segs[..j + 1])| == |l.segs[0]| + |Concat(l1.segs[..j])|
      {
        FrontSegments(l.buf, l.segs, j);
      }
      assert forall j :: 0 < j <= k ==> |Concat(l.segs[..j])| == |l.segs[0]| + |Concat(l1.segs[..j - 1])|;
      k := k + 1;
    }
  }

  /** A sized read asks for `wanted - buffered` modulo 2^64.  When it reports success the buffer
      holds what was wanted; when it falls short the stream has ended; and when the subtraction
      wraps, the buffer held more than enough before the read. */
  lemma SizedRead(l: Link, wanted: nat)
    requires wanted < SIZE_MOD
    ensures var (l2, ec) := ReadAtLeast(l, SizeSub(wanted, |l.buf|));
      && l2.Bytes() == l.Bytes()
      && l.buf <= l2.buf
      && (ec == Ok ==> wanted <= |l2.buf|)
      && (|l2.buf| < wanted <==> |l.Bytes()| < wanted)
      && (ec == Eof ==> l2 == Link(l.Bytes(), []))
  {
    ReadAtLeastExact(l, SizeSub(wanted, |l.buf|));
  }

  class Socket {
    var segments: seq<string>

    constructor (segments: seq<string>)
      ensures this.segments == segments
    {
      this.segments := segments;
    }

    method ReadSome() returns (data: string, ec: ErrorCode)
      modifies this
      ensures old(segments) == [] ==> data == "" && ec == Eof && segments == []
      ensures old(segments) != [] ==> data == old(segments)[0] && ec == Ok && segments == old(segments)[1..]
    {
      if segments == [] {
        return "", Eof;
      }
      data, ec, segments := segments[0], Ok, segments[1..];
    }

    method Until(buf: string, d: string) returns (buf': string, ec: ErrorCode)
      requires d != ""
      modifies this
      ensures (Link(buf', segments), ec) == ReadUntil(Link(buf, old(segments)), d)
    {
      buf', ec := buf, Ok;
      while ec == Ok && !Contains(buf', d)
        invariant ec == Ok ==> ReadUntil(Link(buf', segments), d) == ReadUntil(Link(buf, old(segments)), d)
        invariant ec == Eof ==> (Link(buf', segments), ec) == ReadUntil(Link(buf, old(segments)), d)
        decreases |segments|, ec == Ok
      {
        var data;
        data, ec := ReadSome();
        if ec == Ok {
          buf' := buf' + data;
        }
      }
    }

    method AtLeast(buf: string, n: nat) returns (buf': string, ec: ErrorCode)
      modifies this
      ensures (Link(buf', segments), ec) == ReadAtLeast(Link(buf, old(segments)), n)
    {
      buf', ec := buf, Ok;
      var missing: nat := n;
      while ec == Ok && missing > 0
        invariant ec == Ok ==> ReadAtLeast(Link(buf', segments), missing) == ReadAtLeast(Link(buf, old(segments)), n)
        invariant ec == Eof ==> (Link(buf', segments), ec) == ReadAtLeast(Link(buf, old(segments)), n)
        decreases |segments|, ec == Ok
      {
        var data;
        data, ec := ReadSome();
        if ec == Ok {
          buf' := buf' + data;
          missing := if missing <= |data| then 0 else missing - |data|;
        }
      }
    }

    method All(buf: string) returns (buf': string, ec: ErrorCode)
      modifies this
      ensures (Link(buf', segments), ec) == ReadAll(Link(buf, old(segments)))
    {
      buf', ec := buf, Ok;
      while ec == Ok
        invariant Link(buf', segments).Bytes() == Link(buf, old(segments)).Bytes()
        invariant ec == Eof ==> segments == []
        decreases |segments|, ec == Ok
      {
        if segments != [] {
          Absorb(Link(buf', segments));
        }
        var data;
        data, ec := ReadSome();
        if ec == Ok {
          buf' := buf' + data;
        }
      }
      assert buf' + Concat(segments) == buf';
    }
  }
}
