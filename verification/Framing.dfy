/** Byte-stuffed frames: the encoder `EscapeMsg`, the resynchronising parser `ParseRxMessage` and the
    in-place decoder `UnescapeMsg` of AccessNode/Shared/h.cpp. */
module Framing {
  import opened Bytes

  const STX: byte := 0xF0
  const ETX: byte := 0xF1
  const CHX: byte := 0xF2

  predicate IsMark(b: byte) {
    b == STX || b == ETX
  }

  function EscapeByte(b: byte): (s: seq<byte>)
    ensures 1 <= |s| <= 2 && forall i :: 0 <= i < |s| ==> !IsMark(s[i])
  {
    if IsMark(b) || b == CHX then [CHX, Complement(b)] else [b]
  }

  /** The payload as it goes between the two marks. */
  function Escape(msg: seq<byte>): (s: seq<byte>)
    ensures |msg| <= |s| <= 2 * |msg|
    ensures forall i :: 0 <= i < |s| ==> !IsMark(s[i])
  {
    if msg == [] then [] else EscapeByte(msg[0]) + Escape(msg[1..])
  }

  function Frame(msg: seq<byte>): seq<byte> {
    [STX] + Escape(msg) + [ETX]
  }

  /** The decoder's loop over the bytes `s`; `after` is the byte that follows them in the buffer,
      which an escape character in the last place reaches for. */
  function Decode(s: seq<byte>, after: byte): seq<byte> {
    if s == [] then []
    else if s[0] != CHX then [s[0]] + Decode(s[1..], after)
    else if |s| == 1 then [Complement(after)]
    else [Complement(s[1])] + Decode(s[2..], after)
  }

  /** What `UnescapeMsg` leaves of a buffer: the first and the last byte go, whatever they are. */
  function Unframe(f: seq<byte>): seq<byte> {
    if |f| < 2 then [] else Decode(f[1..|f| - 1], f[|f| - 1])
  }

  lemma {:induction false} DecodeEscape(msg: seq<byte>, after: byte)
    ensures Decode(Escape(msg), after) == msg
  {
    if msg != [] {
      DecodeEscape(msg[1..], after);
      var s := Escape(msg);
      if IsMark(msg[0]) || msg[0] == CHX {
        assert s[2..] == Escape(msg[1..]);
      } else {
        assert s[1..] == Escape(msg[1..]);
      }
    }
  }

  /** Decoding a frame gives back the message, for every message. */
  lemma RoundTrip(msg: seq<byte>)
    ensures Unframe(Frame(msg)) == msg
  {
    var f := Frame(msg);
    assert f[1..|f| - 1] == Escape(msg);
    DecodeEscape(msg, f[|f| - 1]);
  }

  /** The frame, byte by byte: the three special bytes go as 0xF2 and their complement. */
  lemma FrameSays(b: byte, msg: seq<byte>)
    ensures Frame(msg) == [0xF0] + Escape(msg) + [0xF1] && Escape([]) == []
    ensures Escape([b] + msg) == (if 0xF0 <= b <= 0xF2 then [0xF2, 255 - b] else [b]) + Escape(msg)
  {
    assert ([b] + msg)[1..] == msg;
  }

  /** The decoder on any bytes: 0xF2 gives way to the complement of the byte behind it, whatever that is,
      and every other byte stays, a mark included. */
  lemma DecodeSays(b: byte, c: byte, s: seq<byte>, after: byte)
    ensures Decode([], after) == [] && Decode([0xF2], after) == [255 - after]
    ensures Decode([0xF2, c] + s, after) == [255 - c] + Decode(s, after)
    ensures b != 0xF2 ==> Decode([b] + s, after) == [b] + Decode(s, after)
    ensures Unframe([]) == [] && Unframe([b]) == [] && Unframe([b] + s + [c]) == Decode(s, c)
  {
    assert ([b] + s + [c])[1..|s| + 1] == s;
    assert ([0xF2, c] + s)[2..] == s;
    assert ([b] + s)[1..] == s;
  }

  lemma {:induction false} EscapeSnoc(msg: seq<byte>, i: nat)
    requires i < |msg|
    ensures Escape(msg[..i + 1]) == Escape(msg[..i]) + EscapeByte(msg[i])
    decreases i
  {
    if i == 0 {
      assert msg[..1][1..] == [];
    } else {
      EscapeSnoc(msg[1..], i - 1);
      assert msg[..i + 1][1..] == msg[1..][..i] && msg[..i][1..] == msg[1..][..i - 1];
      calc {
        Escape(msg[..i + 1]);
        EscapeByte(msg[0]) + (Escape(msg[1..][..i - 1]) + EscapeByte(msg[i]));
        EscapeByte(msg[0]) + Escape(msg[1..][..i - 1]) + EscapeByte(msg[i]);
      }
    }
  }

  /** One turn of the encoding loop. */
  method PutEscaped(emsg: array<byte>, p: nat, b: byte) returns (p': nat)
    requires p + 2 <= emsg.Length
    modifies emsg
    ensures p' == p + |EscapeByte(b)|
    ensures emsg[..p'] == old(emsg[..p]) + EscapeByte(b)
  {
    if b == STX || b == ETX || b == CHX {
      emsg[p] := CHX;
      emsg[p + 1] := Complement(b);
      p' := p + 2;
    } else {
      emsg[p] := b;
      p' := p + 1;
    }
  }

  /** Writes the frame of `msg` into a buffer of the size that `Write` allocates, and returns its
      length as a 16-bit number. */
  method EscapeMsg(msg: seq<byte>, emsg: array<byte>) returns (n: nat)
    requires 2 * |msg| + 2 <= emsg.Length
    modifies emsg
    ensures |Frame(msg)| <= emsg.Length && emsg[..|Frame(msg)|] == Frame(msg)
    ensures n == |Frame(msg)| % 0x10000
  {
    var p := 0;
    emsg[p] := STX;
    p := p + 1;
    for i := 0 to |msg|
      invariant 1 <= p <= 1 + 2 * i && emsg[..p] == [STX] + Escape(msg[..i])
    {
      EscapeSnoc(msg, i);
      Assoc([STX], Escape(msg[..i]), EscapeByte(msg[i]));
      p := PutEscaped(emsg, p, msg[i]);
    }
    assert msg[..|msg|] == msg;
    emsg[p] := ETX;
    p := p + 1;
    n := p % 0x10000;
  }

  /** Index of the first STX at or behind `i`, or the length. */
  function FindStx(s: seq<byte>, i: nat): (k: nat)
    requires i <= |s|
    ensures i <= k <= |s|
    decreases |s| - i
  {
    if i == |s| || s[i] == STX then i else FindStx(s, i + 1)
  }

  /** Index of the first STX or ETX at or behind `i`, or the length. */
  function FindMark(s: seq<byte>, i: nat): (k: nat)
    requires i <= |s|
    ensures i <= k <= |s|
    decreases |s| - i
  {
    if i == |s| || IsMark(s[i]) then i else FindMark(s, i + 1)
  }

  lemma {:induction false} StxIs(s: seq<byte>, i: nat, k: nat)
    requires i <= k <= |s| && (forall j :: i <= j < k ==> s[j] != STX) && (k < |s| ==> s[k] == STX)
    ensures FindStx(s, i) == k
    decreases |s| - i
  {
    if i < k {
      StxIs(s, i + 1, k);
    }
  }

  lemma {:induction false} MarkIs(s: seq<byte>, i: nat, k: nat)
    requires i <= k <= |s| && (forall j :: i <= j < k ==> !IsMark(s[j])) && (k < |s| ==> IsMark(s[k]))
    ensures FindMark(s, i) == k
    decreases |s| - i
  {
    if i < k {
      MarkIs(s, i + 1, k);
    }
  }

  lemma {:induction false} StxAt(s: seq<byte>, i: nat)
    requires i <= |s|
    ensures FindStx(s, i) < |s| ==> s[FindStx(s, i)] == STX
    decreases |s| - i
  {
    if i < |s| && s[i] != STX {
      StxAt(s, i + 1);
    }
  }

  lemma {:induction false} MarkAt(s: seq<byte>, i: nat)
    requires i <= |s|
    ensures forall j :: i <= j < FindMark(s, i) ==> !IsMark(s[j])
    ensures FindMark(s, i) < |s| ==> IsMark(s[FindMark(s, i)])
    decreases |s| - i
  {
    if i < |s| && !IsMark(s[i]) {
      MarkAt(s, i + 1);
    }
  }

  /** What one parser call makes of the receive buffer, and the length of the frame it reports. */
  function Parse(buf: seq<byte>): (r: (seq<byte>, nat))
    ensures |r.0| <= |buf| && r.1 <= |r.0| && r.1 != 1
  {
    var b := buf[FindStx(buf, 0)..];
    if b == [] then ([], 0)
    else
      var k := FindMark(b, 1);
      if k == |b| then (b, 0)
      else if b[k] == STX then ([], 0)
      else (b, k + 1)
  }

  /** The parser, form by form: what stands before the first 0xF0 is dropped; a frame that is not complete
      stays; a second 0xF0 drops everything; and 0xF1 completes a frame, which is reported with what is
      behind it kept. */
  lemma ParseSays(noise: seq<byte>, body: seq<byte>, rest: seq<byte>)
    requires 0xF0 !in noise && 0xF0 !in body && 0xF1 !in body
    ensures Parse(noise) == ([], 0)
    ensures Parse(noise + ([0xF0] + body)) == ([0xF0] + body, 0)
    ensures Parse(noise + ([0xF0] + body + [0xF0] + rest)) == ([], 0)
    ensures Parse(noise + ([0xF0] + body + [0xF1] + rest)) == ([0xF0] + body + [0xF1] + rest, |body| + 2)
  {
    StxIs(noise, 0, |noise|);
    assert noise[|noise|..] == [];
    ParseFrom(noise, [0xF0] + body, |body| + 1);
    ParseFrom(noise, [0xF0] + body + [0xF0] + rest, |body| + 1);
    ParseFrom(noise, [0xF0] + body + [0xF1] + rest, |body| + 1);
  }

  lemma ParseFrom(noise: seq<byte>, b: seq<byte>, k: nat)
    requires STX !in noise && 1 <= k <= |b| && b[0] == STX
    requires (forall j :: 1 <= j < k ==> !IsMark(b[j])) && (k < |b| ==> IsMark(b[k]))
    ensures Parse(noise + b) == if k == |b| then (b, 0) else if b[k] == STX then ([], 0) else (b, k + 1)
  {
    StxIs(noise + b, 0, |noise|);
    assert (noise + b)[|noise|..] == b;
    MarkIs(b, 1, k);
  }

  /** `CNivisFrameParser_v3::ParseRxMessage`: drops what stands before the first STX, then looks for
      the ETX; a second STX drops the whole buffer. */
  method ParseRxMessage(buf: array<byte>, len: nat) returns (newLen: nat, n: nat)
    requires len <= buf.Length
    modifies buf
    ensures newLen <= len && n <= newLen
    ensures (buf[..newLen], n) == Parse(old(buf[..len]))
  {
    ghost var s := buf[..len];
    if len == 0 {
      return 0, 0;
    }
    newLen := len;
    var diff := 0;
    while diff < len && buf[diff] != STX
      invariant diff <= len && forall j :: 0 <= j < diff ==> buf[j] != STX
    {
      diff := diff + 1;
    }
    StxIs(s, 0, diff);
    if diff == len {
      return 0, 0;
    }
    if diff > 0 {
      MemMove(buf, 0, diff, len - diff);
      newLen := len - diff;
    }
    ghost var b := s[diff..];
    assert buf[..newLen] == b;
    var i := 1;
    while i < newLen
      invariant 1 <= i <= newLen == |b| && buf[..newLen] == b
      invariant forall j :: 1 <= j < i ==> !IsMark(b[j])
    {
      assert buf[i] == b[i];
      if buf[i] == STX {
        MarkIs(b, 1, i);
        return 0, 0;
      }
      if buf[i] == ETX {
        MarkIs(b, 1, i);
        return newLen, i + 1;
      }
      i := i + 1;
    }
    MarkIs(b, 1, newLen);
    return newLen, 0;
  }

  /** One turn of the decoding loop, seen in its result `total`. */
  lemma DecodeStep(s: seq<byte>, after: byte, total: seq<byte>, i: nat, o: nat)
    requires i < |s| && o <= |total| && total[o..] == Decode(s[i..], after)
    ensures o < |total|
    ensures s[i] != CHX ==> total[o] == s[i] && total[o + 1..] == Decode(s[i + 1..], after)
    ensures s[i] == CHX && i + 1 < |s| ==>
              total[o] == Complement(s[i + 1]) && total[o + 1..] == Decode(s[i + 2..], after)
    ensures s[i] == CHX && i + 1 == |s| ==> total[o] == Complement(after) && o + 1 == |total|
  {
    assert s[i..][1..] == s[i + 1..];
    assert i + 1 < |s| ==> s[i..][2..] == s[i + 2..];
    assert total[o..][1..] == total[o + 1..];
  }

  /** The decoding loop: rewrites the first `n` bytes in place, reading at most one byte past them. */
  method DecodeInPlace(msg: array<byte>, n: nat) returns (o: nat)
    requires n < msg.Length
    modifies msg
    ensures o <= n && msg[..o] == Decode(old(msg[..n]), old(msg[n]))
  {
    ghost var s, after := msg[..n], msg[n];
    ghost var total := Decode(s, after);
    var i := 0;
    o := 0;
    while i < n
      invariant o <= i && o <= |total| && (i <= n || (i == n + 1 && o <= n))
      invariant forall j :: 0 <= j < o ==> msg[j] == total[j]
      invariant forall j :: i <= j < n ==> msg[j] == s[j]
      invariant i <= n ==> msg[n] == after
      invariant if i <= n then total[o..] == Decode(s[i..], after) else o == |total|
    {
      DecodeStep(s, after, total, i, o);
      if msg[i] != CHX {
        msg[o] := msg[i];
      } else {
        i := i + 1;
        msg[o] := Complement(msg[i]);
      }
      o := o + 1;
      i := i + 1;
    }
    assert |total| == o + |total[o..]|;
  }

  /** `CNivisFrameParser_v3::UnescapeMsg`: strips the first byte and decodes up to the last one, all
      within the first `size` bytes of the buffer. */
  method UnescapeMsg(msg: array<byte>, size: nat) returns (o: nat)
    requires size <= msg.Length
    modifies msg
    ensures o <= size && msg[..o] == Unframe(old(msg[..size]))
  {
    if size == 0 {
      return 0;
    }
    ghost var f := msg[..size];
    MemMove(msg, 0, 1, size - 1);
    if size == 1 {
      return 0;
    }
    assert msg[..size - 1] == f[1..];
    assert msg[..size - 2] == f[1..|f| - 1];
    o := DecodeInPlace(msg, size - 2);
  }
}
