/** Byte framing of the signal protocols (zen_rtsp/sig_service.c): a body, one byte that
    makes the XOR of all bytes zero, delimiters around, and in between every delimiter and
    escape byte replaced by two bytes.  One protocol uses the bytes of RFC 1055, the other
    those of section 4.2 of RFC 1662; the code is the same twice. */
module Framing {

  type Byte = bv8

  datatype Table = Table(flag: Byte, esc: Byte, flagCode: Byte, escCode: Byte)

  const SLIP := Table(0xC0, 0xDB, 0xDC, 0xDD)
  const HDLC := Table(0x7E, 0x7D, 0x5E, 0x5D)

  /** The four bytes differ. */
  predicate Sound(t: Table) {
    && t.flag != t.esc && t.flag != t.flagCode && t.flag != t.escCode
    && t.esc != t.flagCode && t.esc != t.escCode && t.flagCode != t.escCode
  }

  lemma {:induction false} TablesAreSound()
    ensures Sound(SLIP) && Sound(HDLC)
  {
  }

  // ---------------------------------------------------------------- specification

  predicate Special(t: Table, b: Byte) {
    b == t.flag || b == t.esc
  }

  function Stuffed(t: Table, b: Byte): seq<Byte> {
    if b == t.flag then [t.esc, t.flagCode] else if b == t.esc then [t.esc, t.escCode] else [b]
  }

  function Encode(t: Table, s: seq<Byte>): seq<Byte> {
    if s == [] then [] else Stuffed(t, s[0]) + Encode(t, s[1..])
  }

  /** The byte meant by `a` followed by `b`, if they are an escape. */
  predicate Escape(t: Table, a: Byte, b: Byte) {
    a == t.esc && (b == t.flagCode || b == t.escCode)
  }

  function Unescaped(t: Table, b: Byte): Byte {
    if b == t.flagCode then t.flag else t.esc
  }

  /** Decoding looks one byte past the end, at `x`.  An escape completed by that byte is
      dropped. */
  function Decode(t: Table, s: seq<Byte>, x: Byte): seq<Byte> {
    if s == [] then []
    else if |s| == 1 then if Escape(t, s[0], x) then [] else s
    else if Escape(t, s[0], s[1]) then [Unescaped(t, s[1])] + Decode(t, s[2..], x)
    else [s[0]] + Decode(t, s[1..], x)
  }

  function SpecialCount(t: Table, s: seq<Byte>): nat {
    if s == [] then 0 else (if Special(t, s[0]) then 1 else 0) + SpecialCount(t, s[1..])
  }

  /** No delimiter, and every escape byte followed by one of the two codes. */
  predicate WellStuffed(t: Table, s: seq<Byte>) {
    if s == [] then true
    else if s[0] == t.esc then |s| > 1 && Escape(t, s[0], s[1]) && WellStuffed(t, s[2..])
    else s[0] != t.flag && WellStuffed(t, s[1..])
  }

  lemma {:induction false} EncodeCons(t: Table, b: Byte, s: seq<Byte>)
    ensures Encode(t, [b] + s) == Stuffed(t, b) + Encode(t, s)
  {
    assert ([b] + s)[1..] == s;
  }

  /** Lossless, whatever byte comes after the body. */
  lemma {:induction false} RoundTrip(t: Table, s: seq<Byte>, x: Byte)
    requires Sound(t)
    ensures Decode(t, Encode(t, s), x) == s
  {
    if s != [] {
      RoundTrip(t, s[1..], x);
      var e := Encode(t, s);
      var rest := Encode(t, s[1..]);
      if Special(t, s[0]) {
        assert e[2..] == rest;
      } else {
        assert e[1..] == rest && e[0] == s[0];
      }
    }
  }

  lemma {:induction false} EncodeIsInjective(t: Table, a: seq<Byte>, b: seq<Byte>)
    requires Sound(t) && Encode(t, a) == Encode(t, b)
    ensures a == b
  {
    RoundTrip(t, a, 0);
    RoundTrip(t, b, 0);
  }

  lemma {:induction false} EncodedSize(t: Table, s: seq<Byte>)
    ensures |Encode(t, s)| == |s| + SpecialCount(t, s)
  {
    if s != [] {
      EncodedSize(t, s[1..]);
    }
  }

  lemma {:induction false} EncodeIsWellStuffed(t: Table, s: seq<Byte>)
    requires Sound(t)
    ensures WellStuffed(t, Encode(t, s))
  {
    if s != [] {
      EncodeIsWellStuffed(t, s[1..]);
      var e := Encode(t, s);
      if Special(t, s[0]) {
        assert e[2..] == Encode(t, s[1..]);
      } else {
        assert e[1..] == Encode(t, s[1..]);
      }
    }
  }

  lemma {:induction false} NoDelimiterInside(t: Table, s: seq<Byte>)
    requires Sound(t) && WellStuffed(t, s)
    ensures t.flag !in s
  {
    if s != [] {
      if s[0] == t.esc {
        NoDelimiterInside(t, s[2..]);
        assert s == [s[0], s[1]] + s[2..];
      } else {
        NoDelimiterInside(t, s[1..]);
        assert s == [s[0]] + s[1..];
      }
    }
  }

  lemma {:induction false} DecodeOfWellStuffed(t: Table, s: seq<Byte>, x: Byte)
    requires Sound(t) && WellStuffed(t, s)
    ensures Encode(t, Decode(t, s, x)) == s
  {
    if s != [] {
      if s[0] == t.esc {
        DecodeOfWellStuffed(t, s[2..], x);
        EncodeCons(t, Unescaped(t, s[1]), Decode(t, s[2..], x));
        assert s == [s[0], s[1]] + s[2..];
      } else {
        DecodeOfWellStuffed(t, s[1..], x);
        EncodeCons(t, s[0], Decode(t, s[1..], x));
        assert s == [s[0]] + s[1..];
      }
    }
  }

  /** The other way round: encoding what was decoded gives the wire bytes back exactly when
      they were well stuffed, and those are exactly the bytes an encoder can send. */
  lemma {:induction false} ReverseRoundTrip(t: Table, s: seq<Byte>, x: Byte)
    requires Sound(t)
    ensures Encode(t, Decode(t, s, x)) == s <==> WellStuffed(t, s)
  {
    if WellStuffed(t, s) {
      DecodeOfWellStuffed(t, s, x);
    }
    EncodeIsWellStuffed(t, Decode(t, s, x));
  }

  // ---------------------------------------------------------------- the bytes on the wire

  lemma {:induction false} EncodeConcat(t: Table, s: seq<Byte>, u: seq<Byte>)
    ensures Encode(t, s + u) == Encode(t, s) + Encode(t, u)
  {
    if s == [] {
      assert s + u == u;
    } else {
      assert (s + u)[1..] == s[1..] + u;
      EncodeConcat(t, s[1..], u);
    }
  }

  lemma {:induction false} EncodeAround(t: Table, s: seq<Byte>, b: Byte, u: seq<Byte>)
    ensures Encode(t, s + [b] + u) == Encode(t, s) + Stuffed(t, b) + Encode(t, u)
  {
    EncodeConcat(t, s + [b], u);
    EncodeConcat(t, s, [b]);
    EncodeCons(t, b, []);
    assert [b] + [] == [b] && Stuffed(t, b) + Encode(t, []) == Stuffed(t, b);
  }

  /** RFC 1055: wherever they stand, 0xC0 is sent as DB DC, 0xDB as DB DD, and every other byte
      as it is. */
  lemma {:induction false} SlipBytes(s: seq<Byte>, u: seq<Byte>)
    ensures Encode(SLIP, []) == []
    ensures Encode(SLIP, s + [0xC0] + u) == Encode(SLIP, s) + [0xDB, 0xDC] + Encode(SLIP, u)
    ensures Encode(SLIP, s + [0xDB] + u) == Encode(SLIP, s) + [0xDB, 0xDD] + Encode(SLIP, u)
    ensures forall b: Byte :: b != 0xC0 && b != 0xDB ==> Encode(SLIP, s + [b] + u) == Encode(SLIP, s) + [b] + Encode(SLIP, u)
  {
    forall b: Byte ensures Encode(SLIP, s + [b] + u) == Encode(SLIP, s) + Stuffed(SLIP, b) + Encode(SLIP, u) {
      EncodeAround(SLIP, s, b, u);
    }
  }

  /** Section 4.2 of RFC 1662: 0x7E is sent as 7D 5E, 0x7D as 7D 5D; here no other byte is
      escaped. */
  lemma {:induction false} HdlcBytes(s: seq<Byte>, u: seq<Byte>)
    ensures Encode(HDLC, []) == []
    ensures Encode(HDLC, s + [0x7E] + u) == Encode(HDLC, s) + [0x7D, 0x5E] + Encode(HDLC, u)
    ensures Encode(HDLC, s + [0x7D] + u) == Encode(HDLC, s) + [0x7D, 0x5D] + Encode(HDLC, u)
    ensures forall b: Byte :: b != 0x7E && b != 0x7D ==> Encode(HDLC, s + [b] + u) == Encode(HDLC, s) + [b] + Encode(HDLC, u)
  {
    forall b: Byte ensures Encode(HDLC, s + [b] + u) == Encode(HDLC, s) + Stuffed(HDLC, b) + Encode(HDLC, u) {
      EncodeAround(HDLC, s, b, u);
    }
  }

  /** What goes out for these bytes, from the last to the first. */
  function SlipWire(s: seq<Byte>): seq<Byte> {
    if s == [] then []
    else
      var b := s[|s| - 1];
      SlipWire(s[..|s| - 1]) + if b == 0xC0 then [0xDB, 0xDC] else if b == 0xDB then [0xDB, 0xDD] else [b]
  }

  function HdlcWire(s: seq<Byte>): seq<Byte> {
    if s == [] then []
    else
      var b := s[|s| - 1];
      HdlcWire(s[..|s| - 1]) + if b == 0x7E then [0x7D, 0x5E] else if b == 0x7D then [0x7D, 0x5D] else [b]
  }

  lemma {:induction false} SlipIsWire(s: seq<Byte>)
    ensures Encode(SLIP, s) == SlipWire(s)
  {
    if s != [] {
      var rest, b := s[..|s| - 1], s[|s| - 1];
      SlipIsWire(rest);
      SlipBytes(rest, []);
      assert rest + [b] + [] == s;
    }
  }

  lemma {:induction false} HdlcIsWire(s: seq<Byte>)
    ensures Encode(HDLC, s) == HdlcWire(s)
  {
    if s != [] {
      var rest, b := s[..|s| - 1], s[|s| - 1];
      HdlcIsWire(rest);
      HdlcBytes(rest, []);
      assert rest + [b] + [] == s;
    }
  }

  /** What a receiver makes of any bytes, with `x` after them: DB DC is 0xC0, DB DD is 0xDB, and
      every other byte, also a stray DB, is itself; a DB at the end is dropped when `x` would
      complete it. */
  lemma {:induction false} SlipReads(b: Byte, c: Byte, u: seq<Byte>, x: Byte)
    ensures Decode(SLIP, [], x) == []
    ensures Decode(SLIP, [0xDB, 0xDC] + u, x) == [0xC0] + Decode(SLIP, u, x)
    ensures Decode(SLIP, [0xDB, 0xDD] + u, x) == [0xDB] + Decode(SLIP, u, x)
    ensures b != 0xDB || (c != 0xDC && c != 0xDD) ==> Decode(SLIP, [b, c] + u, x) == [b] + Decode(SLIP, [c] + u, x)
    ensures Decode(SLIP, [b], x) == if b == 0xDB && (x == 0xDC || x == 0xDD) then [] else [b]
  {
    assert ([0xDB, 0xDC] + u)[2..] == u && ([0xDB, 0xDD] + u)[2..] == u && ([b, c] + u)[1..] == [c] + u;
  }

  function Xor(s: seq<Byte>): Byte {
    if s == [] then 0 else Xor(s[..|s| - 1]) ^ s[|s| - 1]
  }

  /** How many of the bytes have the bit of `mask`. */
  function Having(s: seq<Byte>, mask: Byte): nat {
    if s == [] then 0 else Having(s[..|s| - 1], mask) + if s[|s| - 1] & mask != 0 then 1 else 0
  }

  predicate OneBit(mask: Byte) {
    mask != 0 && mask & (mask - 1) == 0
  }

  /** The check byte has a bit just when an odd number of the bytes have it. */
  lemma {:induction false} CheckIsParity(s: seq<Byte>, mask: Byte)
    requires OneBit(mask)
    ensures Xor(s) & mask != 0 <==> Having(s, mask) % 2 == 1
  {
    if s != [] {
      CheckIsParity(s[..|s| - 1], mask);
      BitOfXor(Xor(s[..|s| - 1]), s[|s| - 1], mask);
    }
  }

  lemma {:induction false} BitOfXor(a: Byte, b: Byte, mask: Byte)
    requires OneBit(mask)
    ensures (a ^ b) & mask != 0 <==> ((a & mask != 0) != (b & mask != 0))
  {
  }

  function WithCheck(body: seq<Byte>): seq<Byte> {
    body + [Xor(body)]
  }

  function Frame(t: Table, body: seq<Byte>): seq<Byte> {
    [t.flag] + Encode(t, WithCheck(body)) + [t.flag]
  }

  lemma {:induction false} CheckMakesZero(body: seq<Byte>)
    ensures Xor(WithCheck(body)) == 0
  {
    assert WithCheck(body)[..|body|] == body;
    var c := Xor(body);
    assert c ^ c == 0;
  }

  /** A frame has its delimiter at both ends and nowhere else, and its inside decodes to
      the body and a byte that makes the XOR zero. */
  lemma {:induction false} FrameIsSound(t: Table, body: seq<Byte>, x: Byte)
    requires Sound(t)
    ensures var f := Frame(t, body);
      && (forall i :: 0 <= i < |f| ==> (f[i] == t.flag <==> i == 0 || i == |f| - 1))
      && Decode(t, f[1..|f| - 1], x) == WithCheck(body)
      && Xor(WithCheck(body)) == 0
  {
    var e := Encode(t, WithCheck(body));
    assert Frame(t, body)[1..|Frame(t, body)| - 1] == e;
    RoundTrip(t, WithCheck(body), x);
    CheckMakesZero(body);
    EncodeIsWellStuffed(t, WithCheck(body));
    NoDelimiterInside(t, e);
    forall i | 0 < i < |e| + 1 ensures Frame(t, body)[i] != t.flag {
      assert Frame(t, body)[i] == e[i - 1] && e[i - 1] in e;
    }
  }

  lemma {:induction false} FramesDiffer(t: Table, a: seq<Byte>, b: seq<Byte>)
    requires Sound(t) && Frame(t, a) == Frame(t, b)
    ensures a == b
  {
    FrameIsSound(t, a, 0);
    FrameIsSound(t, b, 0);
    assert WithCheck(a)[..|WithCheck(a)| - 1] == a;
    assert WithCheck(b)[..|WithCheck(b)| - 1] == b;
  }

  // ---------------------------------------------------------------- in place

  /** Shift `buf[at..end - 1]` one place up, last byte first. */
  method OpenGap(buf: array<Byte>, at: nat, end: nat)
    requires at < end <= buf.Length
    modifies buf
    ensures forall k :: 0 <= k <= at || end <= k < buf.Length ==> buf[k] == old(buf[k])
    ensures forall k :: at < k < end ==> buf[k] == old(buf[k - 1])
  {
    var j := end - 1;
    while j > at
      invariant at <= j < end
      invariant forall k :: 0 <= k <= j || end <= k < buf.Length ==> buf[k] == old(buf[k])
      invariant forall k :: j < k < end ==> buf[k] == old(buf[k - 1])
    {
      buf[j] := buf[j - 1];
      j := j - 1;
    }
  }

  /** Shift `buf[at + 1..end + 1]` one place down. */
  method CloseGap(buf: array<Byte>, at: nat, end: nat)
    requires at <= end < buf.Length
    modifies buf
    ensures forall k :: 0 <= k < at || end <= k < buf.Length ==> buf[k] == old(buf[k])
    ensures forall k :: at <= k < end ==> buf[k] == old(buf[k + 1])
  {
    var j := at;
    while j < end
      invariant at <= j <= end
      invariant forall k :: 0 <= k < at || j <= k < buf.Length ==> buf[k] == old(buf[k])
      invariant forall k :: at <= k < j ==> buf[k] == old(buf[k + 1])
    {
      buf[j] := buf[j + 1];
      j := j + 1;
    }
  }

  /** What one round of the encoder does to the whole buffer: the special byte at `at` is
      replaced by two, and everything up to the end moves up. */
  ghost predicate EncodedAt(t: Table, before: seq<Byte>, after: seq<Byte>, at: nat, end: nat, newEnd: nat) {
    && at < end <= newEnd <= |before| == |after|
    && (forall k :: 0 <= k < at || newEnd <= k < |before| ==> after[k] == before[k])
    && after[at] == Stuffed(t, before[at])[0]
    && if Special(t, before[at])
       then newEnd == end + 1 && after[at + 1] == Stuffed(t, before[at])[1] &&
            forall k :: at + 1 < k < newEnd ==> after[k] == before[k - 1]
       else newEnd == end && forall k :: at < k < end ==> after[k] == before[k]
  }

  method EscapeAt(buf: array<Byte>, at: nat, end: nat, esc: Byte, code: Byte)
    requires at < end < buf.Length
    modifies buf
    ensures forall k :: 0 <= k < at || end < k < buf.Length ==> buf[k] == old(buf[k])
    ensures buf[at] == esc && buf[at + 1] == code
    ensures forall k :: at + 1 < k <= end ==> buf[k] == old(buf[k - 1])
  {
    buf[at] := esc;
    OpenGap(buf, at + 1, end + 1);
    buf[at + 1] := code;
  }

  /** The branches of the loop body for one byte. */
  method EncodeByte(t: Table, buf: array<Byte>, at: nat, end: nat) returns (newEnd: nat)
    requires at < end <= buf.Length && (Special(t, buf[at]) ==> end < buf.Length)
    modifies buf
    ensures EncodedAt(t, old(buf[..]), buf[..], at, end, newEnd)
  {
    newEnd := end;
    if buf[at] == t.flag {
      newEnd := newEnd + 1;
      EscapeAt(buf, at, end, t.esc, t.flagCode);
    } else if buf[at] == t.esc {
      newEnd := newEnd + 1;
      EscapeAt(buf, at, end, t.esc, t.escCode);
    }
  }

  /** The two codes are plain bytes: after the first byte of an escape the loop may go on
      with the second. */
  lemma {:induction false} EncodeRest(t: Table, b: Byte, rest: seq<Byte>)
    requires Sound(t)
    ensures Encode(t, [b] + rest) == [Stuffed(t, b)[0]] + Encode(t, Stuffed(t, b)[1..] + rest)
    ensures |Encode(t, [b] + rest)| >= |Stuffed(t, b)| + |rest|
  {
    EncodeCons(t, b, rest);
    EncodedSize(t, rest);
    if Special(t, b) {
      EncodeCons(t, Stuffed(t, b)[1], rest);
      assert Stuffed(t, b)[1..] == [Stuffed(t, b)[1]];
    } else {
      assert Stuffed(t, b)[1..] + rest == rest;
    }
  }

  /** The buffer is split into what is done, what is to do, and what it held before. */
  ghost predicate Parts(all: seq<Byte>, front: seq<Byte>, tail: seq<Byte>, was: seq<Byte>, end: nat) {
    && end == |front| + |tail| <= |was| == |all|
    && (forall k :: 0 <= k < |front| ==> all[k] == front[k])
    && (forall k :: |front| <= k < end ==> all[k] == tail[k - |front|])
    && (forall k :: end <= k < |all| ==> all[k] == was[k])
  }

  /** The encoder's loop before round `i`. */
  ghost predicate Encoding(t: Table, all: seq<Byte>, front: seq<Byte>, tail: seq<Byte>, was: seq<Byte>,
                           at: nat, end: nat, want: seq<Byte>) {
    && |front| == at && Parts(all, front, tail, was, end)
    && want == front + Encode(t, tail) && end <= |want| <= |was|
  }

  lemma {:induction false} RoomForRound(t: Table, all: seq<Byte>, front: seq<Byte>, tail: seq<Byte>, was: seq<Byte>,
                                        at: nat, end: nat, want: seq<Byte>)
    requires Sound(t) && Encoding(t, all, front, tail, was, at, end, want) && at < end
    ensures all[at] == tail[0] && end + |Stuffed(t, tail[0])| - 1 <= |want|
  {
    assert tail == [tail[0]] + tail[1..];
    EncodeRest(t, tail[0], tail[1..]);
  }

  lemma {:induction false} PartsRound(t: Table, before: seq<Byte>, after: seq<Byte>, front: seq<Byte>, tail: seq<Byte>,
                                      was: seq<Byte>, end: nat, newEnd: nat)
    requires Parts(before, front, tail, was, end) && tail != []
    requires EncodedAt(t, before, after, |front|, end, newEnd)
    ensures Parts(after, front + [Stuffed(t, tail[0])[0]], Stuffed(t, tail[0])[1..] + tail[1..], was, newEnd)
  {
  }

  lemma {:induction false} EncodeRound(t: Table, before: seq<Byte>, after: seq<Byte>, front: seq<Byte>, tail: seq<Byte>,
                                       was: seq<Byte>, at: nat, end: nat, newEnd: nat, want: seq<Byte>)
    requires Sound(t) && Encoding(t, before, front, tail, was, at, end, want)
    requires EncodedAt(t, before, after, at, end, newEnd)
    ensures Encoding(t, after, front + [Stuffed(t, tail[0])[0]], Stuffed(t, tail[0])[1..] + tail[1..], was, at + 1, newEnd, want)
  {
    PartsRound(t, before, after, front, tail, was, end, newEnd);
    WantRound(t, front, tail);
    EncodedSize(t, Stuffed(t, tail[0])[1..] + tail[1..]);
  }

  lemma {:induction false} WantRound(t: Table, front: seq<Byte>, tail: seq<Byte>)
    requires Sound(t) && tail != []
    ensures front + Encode(t, tail) == (front + [Stuffed(t, tail[0])[0]]) + Encode(t, Stuffed(t, tail[0])[1..] + tail[1..])
  {
    assert tail == [tail[0]] + tail[1..];
    EncodeRest(t, tail[0], tail[1..]);
  }

  lemma {:induction false} EncodeDone(t: Table, all: seq<Byte>, front: seq<Byte>, tail: seq<Byte>, was: seq<Byte>,
                                      off: nat, end: nat, e: seq<Byte>)
    requires off <= |was| && Encoding(t, all, front, tail, was, end, end, was[..off] + e)
    ensures end == off + |e| && all[off..end] == e
    ensures forall k :: 0 <= k < off || end <= k < |all| ==> all[k] == was[k]
  {
    assert front == was[..off] + e;
  }

  /** The loop body. */
  method EncodeStep(t: Table, buf: array<Byte>, off: nat, i: nat, size: nat,
                    ghost front: seq<Byte>, ghost tail: seq<Byte>, ghost was: seq<Byte>, ghost want: seq<Byte>)
    returns (newSize: nat)
    requires Sound(t) && i < size && Encoding(t, buf[..], front, tail, was, off + i, off + size, want)
    modifies buf
    ensures i < newSize && newSize >= size
    ensures Encoding(t, buf[..], front + [Stuffed(t, tail[0])[0]], Stuffed(t, tail[0])[1..] + tail[1..],
                     was, off + i + 1, off + newSize, want)
  {
    ghost var before := buf[..];
    RoomForRound(t, before, front, tail, was, off + i, off + size, want);
    var newEnd := EncodeByte(t, buf, off + i, off + size);
    EncodeRound(t, before, buf[..], front, tail, was, off + i, off + size, newEnd, want);
    newSize := newEnd - off;
  }

  /** `externalProtocolEncode` and `encode_radar`: escape the `size` bytes from `off` on. */
  method EncodeInPlace(t: Table, buf: array<Byte>, off: nat, size: nat) returns (newSize: nat)
    requires Sound(t) && off + size <= buf.Length
    requires off + |Encode(t, buf[off..off + size])| <= buf.Length
    modifies buf
    ensures newSize == |Encode(t, old(buf[off..off + size]))| && off + newSize <= buf.Length
    ensures buf[off..off + newSize] == Encode(t, old(buf[off..off + size]))
    ensures forall k :: 0 <= k < off || off + newSize <= k < buf.Length ==> buf[k] == old(buf[k])
  {
    ghost var was, front, tail := buf[..], buf[..off], buf[off..off + size];
    ghost var want := front + Encode(t, tail);
    newSize := size;
    EncodedSize(t, tail);
    var i := 0;
    while i < newSize
      invariant 0 <= i <= newSize
      invariant Encoding(t, buf[..], front, tail, was, off + i, off + newSize, want)
      decreases |want| - i
    {
      newSize := EncodeStep(t, buf, off, i, newSize, front, tail, was, want);
      front, tail := front + [Stuffed(t, tail[0])[0]], Stuffed(t, tail[0])[1..] + tail[1..];
      i := i + 1;
    }
    EncodeDone(t, buf[..], front, tail, was, off, off + newSize, Encode(t, was[off..off + size]));
  }

  /** What one round of the decoder does to the whole buffer. */
  ghost predicate DecodedAt(t: Table, before: seq<Byte>, after: seq<Byte>, at: nat, end: nat, newEnd: nat) {
    && at < end < |before| == |after|
    && if Escape(t, before[at], before[at + 1])
       then newEnd == end - 1 && after[at] == Unescaped(t, before[at + 1]) &&
            (forall k :: 0 <= k < at || end <= k < |before| ==> after[k] == before[k]) &&
            (forall k :: at < k < end ==> after[k] == before[k + 1])
       else newEnd == end && after == before
  }

  /** The branches of the loop body for one byte. */
  method DecodeByte(t: Table, buf: array<Byte>, at: nat, end: nat) returns (newEnd: nat)
    requires Sound(t) && at < end < buf.Length
    modifies buf
    ensures DecodedAt(t, old(buf[..]), buf[..], at, end, newEnd)
  {
    newEnd := end;
    if buf[at] == t.esc && buf[at + 1] == t.flagCode {
      buf[at] := t.flag;
      CloseGap(buf, at + 1, end);
      newEnd := newEnd - 1;
    } else if buf[at] == t.esc && buf[at + 1] == t.escCode {
      buf[at] := t.esc;
      CloseGap(buf, at + 1, end);
      newEnd := newEnd - 1;
    }
  }

  /** The decoder's loop before round `i`.  When the last byte was an escape completed by
      the byte after the end, `i` has moved past the new end. */
  ghost predicate Decoding(t: Table, was: seq<Byte>, all: seq<Byte>, off: nat, size: nat, i: nat, newSize: nat, want: seq<Byte>) {
    && newSize <= size && off + size < |was| == |all|
    && (forall k :: 0 <= k < off || off + size <= k < |was| ==> all[k] == was[k])
    && if i <= newSize
       then all[off + newSize] == was[off + size] &&
            want == all[off..off + i] + Decode(t, all[off + i..off + newSize], was[off + size])
       else want == all[off..off + newSize] && Escape(t, t.esc, was[off + size])
  }

  lemma {:induction false} DecodeRound(t: Table, was: seq<Byte>, before: seq<Byte>, after: seq<Byte>, off: nat, size: nat,
                                       i: nat, newSize: nat, newSize': nat, want: seq<Byte>)
    requires i < newSize && Decoding(t, was, before, off, size, i, newSize, want)
    requires DecodedAt(t, before, after, off + i, off + newSize, off + newSize')
    ensures Decoding(t, was, after, off, size, i + 1, newSize', want)
  {
    if i + 1 == newSize {
      DecodeRoundLast(t, was, before, after, off, size, i, newSize', want);
    } else {
      DecodeRoundMore(t, was, before, after, off, size, i, newSize, newSize', want);
    }
  }

  lemma {:induction false} DecodeRoundLast(t: Table, was: seq<Byte>, before: seq<Byte>, after: seq<Byte>, off: nat, size: nat,
                                           i: nat, newSize': nat, want: seq<Byte>)
    requires Decoding(t, was, before, off, size, i, i + 1, want)
    requires DecodedAt(t, before, after, off + i, off + i + 1, off + newSize')
    ensures Decoding(t, was, after, off, size, i + 1, newSize', want)
  {
    assert before[off..off + i] == after[off..off + i];
    assert before[off + i..off + i + 1] == [before[off + i]];
    DecodeLast(t, before, after, off, off + i, off + newSize');
  }

  /** What a round leaves: the bytes before it, one byte decoded, the rest closed up. */
  ghost predicate RoundLeaves(t: Table, before: seq<Byte>, after: seq<Byte>, off: nat, at: nat, end: nat, newEnd: nat) {
    && off <= at && at + 1 < end < |before| == |after| && at < newEnd <= end
    && after[off..at + 1] == before[off..at] + [after[at]] && after[newEnd] == before[end]
    && after[at] == (if Escape(t, before[at], before[at + 1]) then Unescaped(t, before[at + 1]) else before[at])
    && after[at + 1..newEnd] == (if Escape(t, before[at], before[at + 1]) then before[at..end][2..] else before[at..end][1..])
    && forall k :: 0 <= k < at || end <= k < |before| ==> after[k] == before[k]
  }

  lemma {:induction false} RoundIs(t: Table, before: seq<Byte>, after: seq<Byte>, off: nat, at: nat, end: nat, newEnd: nat)
    requires DecodedAt(t, before, after, at, end, newEnd) && off <= at && at + 1 < end
    ensures RoundLeaves(t, before, after, off, at, end, newEnd)
  {
    DecodeTail(t, before, after, at, end, newEnd);
    assert before[off..at] == after[off..at];
    assert after[off..at + 1] == after[off..at] + [after[at]];
  }

  lemma {:induction false} DecodeRoundMore(t: Table, was: seq<Byte>, before: seq<Byte>, after: seq<Byte>, off: nat, size: nat,
                                           i: nat, newSize: nat, newSize': nat, want: seq<Byte>)
    requires i + 1 < newSize && Decoding(t, was, before, off, size, i, newSize, want)
    requires DecodedAt(t, before, after, off + i, off + newSize, off + newSize')
    ensures Decoding(t, was, after, off, size, i + 1, newSize', want)
  {
    RoundIs(t, before, after, off, off + i, off + newSize, off + newSize');
    DecodeRoundKeeps(t, was, before, after, off, size, i, newSize, newSize', want);
  }

  lemma {:induction false} DecodeRoundKeeps(t: Table, was: seq<Byte>, before: seq<Byte>, after: seq<Byte>, off: nat, size: nat,
                                            i: nat, newSize: nat, newSize': nat, want: seq<Byte>)
    requires i + 1 < newSize && Decoding(t, was, before, off, size, i, newSize, want)
    requires RoundLeaves(t, before, after, off, off + i, off + newSize, off + newSize')
    ensures Decoding(t, was, after, off, size, i + 1, newSize', want)
  {
    var at, end := off + i, off + newSize;
    var front, s, x := before[off..at], before[at..end], was[off + size];
    var rest := if Escape(t, before[at], before[at + 1]) then s[2..] else s[1..];
    assert s[0] == before[at] && s[1] == before[at + 1];
    DecodeWant(t, front, s, x, after[at], rest, want);
    DecodingFrom(t, was, after, off, size, i + 1, newSize', want, front + [after[at]], rest);
  }

  lemma {:induction false} DecodingFrom(t: Table, was: seq<Byte>, all: seq<Byte>, off: nat, size: nat, i: nat, newSize: nat,
                                        want: seq<Byte>, front: seq<Byte>, rest: seq<Byte>)
    requires i <= newSize <= size && off + size < |was| == |all| && all[off + newSize] == was[off + size]
    requires forall k :: 0 <= k < off || off + size <= k < |was| ==> all[k] == was[k]
    requires all[off..off + i] == front && all[off + i..off + newSize] == rest
    requires want == front + Decode(t, rest, was[off + size])
    ensures Decoding(t, was, all, off, size, i, newSize, want)
  {
  }

  /** What is wanted, when the next byte is taken out of what is to do. */
  lemma {:induction false} DecodeWant(t: Table, front: seq<Byte>, s: seq<Byte>, x: Byte, a: Byte, rest: seq<Byte>, want: seq<Byte>)
    requires |s| > 1 && want == front + Decode(t, s, x)
    requires a == if Escape(t, s[0], s[1]) then Unescaped(t, s[1]) else s[0]
    requires rest == if Escape(t, s[0], s[1]) then s[2..] else s[1..]
    ensures want == (front + [a]) + Decode(t, rest, x)
  {
    assert Decode(t, s, x) == [a] + Decode(t, rest, x);
  }

  lemma {:induction false} DecodeLast(t: Table, before: seq<Byte>, after: seq<Byte>, off: nat, at: nat, newEnd: nat)
    requires off <= at && DecodedAt(t, before, after, at, at + 1, newEnd)
    ensures at < newEnd ==> after[off..at + 1] == before[off..at] + before[at..at + 1] && after[at + 1..newEnd] == []
  {
  }

  lemma {:induction false} DecodeTail(t: Table, before: seq<Byte>, after: seq<Byte>, at: nat, end: nat, newEnd: nat)
    requires DecodedAt(t, before, after, at, end, newEnd) && at + 1 < end
    ensures after[at + 1..newEnd] == if Escape(t, before[at], before[at + 1]) then before[at..end][2..] else before[at..end][1..]
  {
  }

  lemma {:induction false} DecodeStart(t: Table, was: seq<Byte>, off: nat, size: nat)
    requires off + size < |was|
    ensures Decoding(t, was, was, off, size, 0, size, Decode(t, was[off..off + size], was[off + size]))
  {
    assert was[off + 0..off + size] == was[off..off + size] && was[off..off + 0] == [];
  }

  lemma {:induction false} DecodeDone(t: Table, was: seq<Byte>, all: seq<Byte>, off: nat, size: nat, i: nat, newSize: nat, want: seq<Byte>)
    requires Decoding(t, was, all, off, size, i, newSize, want) && i >= newSize
    ensures all[off..off + newSize] == want && all[off + size] == was[off + size]
    ensures Escape(t, t.esc, all[off + size]) || all[off + newSize] == all[off + size]
    ensures forall k :: 0 <= k < off || off + size <= k < |was| ==> all[k] == was[k]
  {
    assert i == newSize ==> all[off + i..off + newSize] == [];
  }

  method DecodeStep(t: Table, buf: array<Byte>, off: nat, size: nat, i: nat, newSize: nat, ghost was: seq<Byte>, ghost want: seq<Byte>)
    returns (newSize': nat)
    requires Sound(t) && i < newSize && Decoding(t, was, buf[..], off, size, i, newSize, want)
    modifies buf
    ensures newSize' <= newSize <= newSize' + 1 && Decoding(t, was, buf[..], off, size, i + 1, newSize', want)
  {
    ghost var before := buf[..];
    var newEnd := DecodeByte(t, buf, off + i, off + newSize);
    ghost var after := buf[..];
    newSize' := newEnd - off;
    DecodeRound(t, was, before, after, off, size, i, newSize, newSize', want);
  }

  /** The decoder's loop. */
  method DecodeLoop(t: Table, buf: array<Byte>, off: nat, size: nat, ghost was: seq<Byte>, ghost want: seq<Byte>)
    returns (newSize: nat)
    requires Sound(t) && Decoding(t, was, buf[..], off, size, 0, size, want)
    modifies buf
    ensures newSize <= size && off + size < |was| == buf.Length
    ensures buf[off..off + newSize] == want && buf[off + size] == was[off + size]
    ensures Escape(t, t.esc, buf[off + size]) || buf[off + newSize] == buf[off + size]
    ensures forall k :: 0 <= k < off || off + size <= k < |was| ==> buf[k] == was[k]
  {
    newSize := size;
    var i := 0;
    while i < newSize
      invariant 0 <= i <= newSize + 1 && newSize <= size
      invariant Decoding(t, was, buf[..], off, size, i, newSize, want)
      decreases newSize - i
    {
      newSize := DecodeStep(t, buf, off, size, i, newSize, was, want);
      i := i + 1;
    }
    ghost var all := buf[..];
    DecodeDone(t, was, all, off, size, i, newSize, want);
  }

  /** `externalProtocolDecode`: undo the escapes in the `size` bytes from `off` on.  Every
      shift takes the byte after the end along. */
  method DecodeInPlace(t: Table, buf: array<Byte>, off: nat, size: nat) returns (newSize: nat)
    requires Sound(t) && off + size < buf.Length
    modifies buf
    ensures newSize <= size
    ensures buf[off..off + newSize] == Decode(t, old(buf[off..off + size]), old(buf[off + size]))
    ensures forall k :: 0 <= k < off || off + size <= k < buf.Length ==> buf[k] == old(buf[k])
    ensures Escape(t, t.esc, buf[off + size]) || buf[off + newSize] == buf[off + size]
  {
    ghost var was := buf[..];
    DecodeStart(t, was, off, size);
    newSize := DecodeLoop(t, buf, off, size, was, Decode(t, was[off..off + size], was[off + size]));
    assert was[off..off + size] == old(buf[off..off + size]);
  }

  // ---------------------------------------------------------------- whole frames

  /** `get_crc` and the loops of `externalProtocolAddCrcCode` and `externalProtocolCheckCrc`. */
  method XorOf(buf: array<Byte>, off: nat, size: nat) returns (crc: Byte)
    requires off + size <= buf.Length
    ensures crc == Xor(buf[off..off + size])
  {
    crc := 0;
    var i := 0;
    while i < size
      invariant 0 <= i <= size && crc == Xor(buf[off..off + i])
    {
      crc := crc ^ buf[off + i];
      assert buf[off..off + i + 1][..i] == buf[off..off + i];
      i := i + 1;
    }
  }

  /** `encode_radar`: what it sends never contains its delimiter, and tells bodies apart. */
  method EncodeRadar(buf: array<Byte>, off: nat, size: nat) returns (newSize: nat)
    requires off + size <= buf.Length
    requires off + |Encode(HDLC, buf[off..off + size])| <= buf.Length
    modifies buf
    ensures off + newSize <= buf.Length && buf[off..off + newSize] == Encode(HDLC, old(buf[off..off + size]))
    ensures buf[off..off + newSize] == HdlcWire(old(buf[off..off + size]))
    ensures 0x7E !in buf[off..off + newSize]
    ensures forall s: seq<Byte> :: buf[off..off + newSize] == Encode(HDLC, s) ==> s == old(buf[off..off + size])
    ensures forall k :: 0 <= k < off || off + newSize <= k < buf.Length ==> buf[k] == old(buf[k])
  {
    ghost var body := buf[off..off + size];
    newSize := EncodeInPlace(HDLC, buf, off, size);
    RadarEncoding(body);
    HdlcIsWire(body);
  }

  lemma {:induction false} RadarEncoding(body: seq<Byte>)
    ensures 0x7E !in Encode(HDLC, body)
    ensures forall s: seq<Byte> :: Encode(HDLC, body) == Encode(HDLC, s) ==> s == body
  {
    EncodeIsWellStuffed(HDLC, body);
    NoDelimiterInside(HDLC, Encode(HDLC, body));
    forall s: seq<Byte> | Encode(HDLC, body) == Encode(HDLC, s) ensures s == body {
      EncodeIsInjective(HDLC, body, s);
    }
  }

  /** The body in `buf[1..1 + size]` becomes a frame that starts at 0: check byte, escapes,
      delimiters.  The source does these three steps in this order for both protocols. */
  method BuildFrame(t: Table, buf: array<Byte>, size: nat) returns (newSize: nat)
    requires Sound(t) && 1 + size <= buf.Length && |Frame(t, buf[1..1 + size])| <= buf.Length
    modifies buf
    ensures newSize <= buf.Length && buf[..newSize] == Frame(t, old(buf[1..1 + size]))
    ensures t == SLIP ==> buf[..newSize] == [0xC0] + SlipWire(WithCheck(old(buf[1..1 + size]))) + [0xC0]
    ensures t == HDLC ==> buf[..newSize] == [0x7E] + HdlcWire(WithCheck(old(buf[1..1 + size]))) + [0x7E]
  {
    ghost var body := buf[1..1 + size];
    EncodedSize(t, WithCheck(body));
    var crc := XorOf(buf, 1, size);
    buf[1 + size] := crc;
    assert buf[1..2 + size] == WithCheck(body);
    newSize := EncodeInPlace(t, buf, 1, size + 1);
    ghost var e := Encode(t, WithCheck(body));
    buf[0] := t.flag;
    buf[newSize + 1] := t.flag;
    newSize := newSize + 2;
    assert buf[1..newSize - 1] == e;
    ghost var all := buf[..];
    Delimited(all, newSize, t.flag);
    assert all[1..newSize - 1] == buf[1..newSize - 1] && all[..newSize] == buf[..newSize];
    SlipIsWire(WithCheck(body));
    HdlcIsWire(WithCheck(body));
  }

  lemma {:induction false} Delimited(all: seq<Byte>, n: nat, flag: Byte)
    requires 2 <= n <= |all| && all[0] == flag && all[n - 1] == flag
    ensures all[..n] == [flag] + all[1..n - 1] + [flag]
  {
  }

  /** A `char`, as the compilers for the target platform sign it. */
  function SignedChar(b: Byte): int {
    if b as int < 128 then b as int else b as int - 256
  }

  /** The check of a received frame (`RequestPro`): delimiters, decode, XOR.  A single
      delimiter passes as a frame of size -1. */
  method Receive(buf: array<Byte>, len: nat) returns (accepted: bool, size: int)
    requires 1 <= len <= buf.Length
    modifies buf
    ensures accepted <==> old(buf[0]) == 0xC0 && old(buf[len - 1]) == 0xC0
    ensures accepted && len == 1 ==> size == -1
    ensures accepted && len > 1 ==> 0 <= size && 1 + size < len && buf[1..1 + size] == Decode(SLIP, old(buf[1..len - 1]), 0xC0)
  {
    size := 0;
    accepted := false;
    if buf[0] != SLIP.flag || buf[len - 1] != SLIP.flag {
      return;
    }
    size := len - 2;
    var crc: Byte := 0;
    if size >= 0 {
      size := DecodeInPlace(SLIP, buf, 1, size);
      crc := XorOf(buf, 1, size);
    }
    // The byte compared is one past the decoded bytes, the delimiter 0xC0: no signed char
    // equals it, so this never rejects.
    accepted := SignedChar(crc) != buf[1 + size] as int;
  }

  /** What is received from a sender that builds its frames this way is its body and a byte
      that makes the XOR zero. */
  method RoundTripInPlace(buf: array<Byte>, size: nat) returns (accepted: bool, newSize: int)
    requires 1 + size <= buf.Length && |Frame(SLIP, buf[1..1 + size])| <= buf.Length
    modifies buf
    ensures accepted && newSize == size + 1
    ensures newSize + 1 <= buf.Length && buf[1..1 + newSize] == WithCheck(old(buf[1..1 + size]))
    ensures buf[1..1 + size] == old(buf[1..1 + size]) && Xor(buf[1..1 + newSize]) == 0
  {
    ghost var body := buf[1..1 + size];
    var len := BuildFrame(SLIP, buf, size);
    FrameIsSound(SLIP, body, SLIP.flag);
    assert buf[0] == buf[..len][0] && buf[len - 1] == buf[..len][len - 1];
    assert buf[1..len - 1] == Frame(SLIP, body)[1..len - 1];
    accepted, newSize := Receive(buf, len);
    assert buf[1..1 + size] == buf[1..1 + newSize][..size];
  }
}
