/** `CPacketStream` of AccessNode/Shared/PacketStream.cpp in escaped mode without a timeout: a 512-byte
    receive buffer filled by link reads of any size, out of which whole frames are cut. */
module PacketStreams {
  import opened Basics
  import opened Bytes
  import opened Framing

  const CAPACITY: nat := 512

  /** A buffer that holds the beginning of a frame, as far as the parser can tell. */
  predicate HalfFrame(room: seq<byte>) {
    0 < |room| < CAPACITY && room[0] == STX && forall i :: 1 <= i < |room| ==> !IsMark(room[i])
  }

  /** What a read has in the buffer when it turns to the wire. */
  function RoomOf(buf: seq<byte>): seq<byte> {
    if |Parse(buf).0| >= CAPACITY then [] else Parse(buf).0
  }

  lemma RoomIsHalf(buf: seq<byte>)
    requires Parse(buf).1 == 0 && RoomOf(buf) != []
    ensures HalfFrame(RoomOf(buf))
  {
    StxAt(buf, 0);
    MarkAt(buf[FindStx(buf, 0)..], 1);
  }

  /** The second half of `GetMsgLen`: one read of the link behind what is in the buffer, and a parse.
      `n` is how much the link feels like delivering. */
  function FillStep(room: seq<byte>, wire: seq<byte>, n: nat): (r: (seq<byte>, seq<byte>, nat))
    requires |room| <= CAPACITY
    ensures |r.0| <= CAPACITY && r.2 <= |r.0| && r.2 != 1
  {
    var k := Min(n, Min(CAPACITY - |room|, |wire|));
    if k == 0 then (room, wire, 0)
    else
      var (b, len) := Parse(room + wire[..k]);
      (b, wire[k..], len)
  }

  /** One call of `GetMsgLen`: the buffer afterwards, what is left on the wire, and the length of the
      frame at the front of the buffer. */
  function MsgLenStep(buf: seq<byte>, wire: seq<byte>, n: nat): (r: (seq<byte>, seq<byte>, nat))
    requires |buf| <= CAPACITY
    ensures |r.0| <= CAPACITY && r.2 <= |r.0| && r.2 != 1
  {
    var (b, len) := Parse(buf);
    if len > 0 then (b, wire, len) else FillStep(RoomOf(buf), wire, n)
  }

  /** One call of `Read`. */
  function ReadStep(buf: seq<byte>, wire: seq<byte>, n: nat): (r: (seq<byte>, seq<byte>, Option<seq<byte>>))
    requires |buf| <= CAPACITY
    ensures |r.0| <= CAPACITY
  {
    var (b, w, len) := MsgLenStep(buf, wire, n);
    if len == 0 then (b, w, None) else (b[len..], w, Some(Unframe(b[..len])))
  }

  function Packets(p: Option<seq<byte>>): seq<seq<byte>> {
    if p == None then [] else [p.value]
  }

  /** The state after a run of reads, and the packets they returned, in order. */
  function Run(buf: seq<byte>, wire: seq<byte>, chops: seq<nat>): (r: (seq<byte>, seq<byte>, seq<seq<byte>>))
    requires |buf| <= CAPACITY
    ensures |r.0| <= CAPACITY
    decreases |chops|
  {
    if chops == [] then (buf, wire, [])
    else
      var (b, w, p) := ReadStep(buf, wire, chops[0]);
      var (b', w', ps) := Run(b, w, chops[1..]);
      (b', w', Packets(p) + ps)
  }

  /** A message on the wire, and the line noise that follows its frame. */
  datatype Item = Item(msg: seq<byte>, noise: seq<byte>)

  predicate Quiet(s: seq<byte>) {
    STX !in s
  }

  predicate QuietItems(items: seq<Item>) {
    forall i :: 0 <= i < |items| ==> Quiet(items[i].noise)
  }

  function Wire(items: seq<Item>): seq<byte> {
    if items == [] then [] else Frame(items[0].msg) + (items[0].noise + Wire(items[1..]))
  }

  /** The messages whose frames fit the receive buffer. */
  function Fitting(items: seq<Item>): seq<seq<byte>> {
    if items == [] then []
    else (if |Frame(items[0].msg)| <= CAPACITY then [items[0].msg] else []) + Fitting(items[1..])
  }

  /** Buffer and wire together hold leftover noise and then exactly the frames of `items`. */
  ghost predicate Pending(buf: seq<byte>, wire: seq<byte>, noise: seq<byte>, items: seq<Item>) {
    |buf| <= CAPACITY && Quiet(noise) && QuietItems(items) && buf + wire == noise + Wire(items)
  }

  lemma FrameMarks(msg: seq<byte>)
    ensures var f := Frame(msg);
            && |f| >= 2 && f[0] == STX && f[|f| - 1] == ETX
            && forall i :: 1 <= i < |f| - 1 ==> !IsMark(f[i])
  {
  }

  /** Two ways of cutting one sequence in two. */
  lemma TwoCuts(a: seq<byte>, b: seq<byte>, c: seq<byte>, d: seq<byte>)
    requires a + b == c + d && |a| <= |c|
    ensures a == c[..|a|] && b == c[|a|..] + d
  {
    assert a == (a + b)[..|a|] && (c + d)[..|a|] == c[..|a|];
    assert b == (a + b)[|a|..] && (c + d)[|a|..] == c[|a|..] + d;
  }

  /** The parser on a buffer that begins with noise and continues with the pending frames: noise is
      dropped, a whole frame is reported, part of a frame is kept. */
  lemma ParsePending(buf: seq<byte>, wire: seq<byte>, noise: seq<byte>, items: seq<Item>)
    requires Pending(buf, wire, noise, items)
    ensures var (b, len) := Parse(buf);
            if |buf| <= |noise| then
              len == 0 && b == [] && Pending(b, wire, noise[|buf|..], items)
            else
              && items != [] && Pending(b, wire, [], items) && |b| == |buf| - |noise|
              && len == if |b| < |Frame(items[0].msg)| then 0 else |Frame(items[0].msg)|
  {
    if |buf| <= |noise| {
      TwoCuts(buf, wire, noise, Wire(items));
      assert forall i :: 0 <= i < |buf| ==> buf[i] == noise[i];
      StxIs(buf, 0, |buf|);
    } else {
      assert items != [];
      TwoCuts(noise, Wire(items), buf, wire);
      ParseFrame(buf, wire, noise, items);
    }
  }

  lemma ParseFrame(buf: seq<byte>, wire: seq<byte>, noise: seq<byte>, items: seq<Item>)
    requires |noise| < |buf| && Quiet(noise) && items != []
    requires noise == buf[..|noise|] && Wire(items) == buf[|noise|..] + wire
    ensures var len := |Frame(items[0].msg)|;
            Parse(buf) == (buf[|noise|..], if |buf| - |noise| < len then 0 else len)
  {
    var f := Frame(items[0].msg);
    FrameMarks(items[0].msg);
    var b := buf[|noise|..];
    assert forall i :: 0 <= i < |b| && i < |f| ==> b[i] == (b + wire)[i] == f[i];
    assert b[0] == f[0] == STX;
    assert forall i :: 0 <= i < |noise| ==> buf[i] == noise[i];
    StxIs(buf, 0, |noise|);
    if |b| < |f| {
      MarkIs(b, 1, |b|);
    } else {
      MarkIs(b, 1, |f| - 1);
    }
  }

  /** What is left of a frame once its beginning has been dropped is noise. */
  lemma DropStart(buf: seq<byte>, wire: seq<byte>, items: seq<Item>)
    returns (noise: seq<byte>)
    requires Pending(buf, wire, [], items) && items != [] && 0 < |buf| < |Frame(items[0].msg)|
    ensures Pending([], wire, noise, items[1..])
    ensures |Frame(items[0].msg)| > CAPACITY ==> Fitting(items) == Fitting(items[1..])
  {
    var f := Frame(items[0].msg);
    FrameMarks(items[0].msg);
    var rest := items[0].noise + Wire(items[1..]);
    TwoCuts(buf, wire, f, rest);
    noise := f[|buf|..] + items[0].noise;
    assert [] + wire == wire == noise + Wire(items[1..]);
  }

  /** Cutting a whole frame off the front of the buffer leaves the noise behind it and the rest. */
  lemma CutFrame(buf: seq<byte>, wire: seq<byte>, items: seq<Item>)
    requires Pending(buf, wire, [], items) && items != [] && |Frame(items[0].msg)| <= |buf|
    ensures var f := Frame(items[0].msg);
            buf[..|f|] == f && Pending(buf[|f|..], wire, items[0].noise, items[1..])
  {
    var f := Frame(items[0].msg);
    var rest := items[0].noise + Wire(items[1..]);
    TwoCuts(f, rest, buf, wire);
  }

  /** What is left of the items, when the first ones are gone. */
  ghost predicate IsTail<T>(rest: seq<T>, all: seq<T>) {
    |rest| <= |all| && rest == all[|all| - |rest|..]
  }

  lemma TailOfTail<T>(a: seq<T>, b: seq<T>, c: seq<T>)
    requires IsTail(a, b) && IsTail(b, c)
    ensures IsTail(a, c)
  {
  }

  /** After a parse that has possibly reported a frame, the bookkeeping of what is pending. */
  lemma Deliver(buf: seq<byte>, wire: seq<byte>, noise: seq<byte>, items: seq<Item>)
    returns (noise': seq<byte>, items': seq<Item>)
    requires Pending(buf, wire, noise, items)
    ensures var (b, len) := Parse(buf);
            && Pending(b[len..], wire, noise', items') && IsTail(items', items)
            && Fitting(items) == (if len == 0 then [] else [Unframe(b[..len])]) + Fitting(items')
            && (len == 0 ==> items' == items)
            && (len == 0 && b != [] ==> noise' == [] && items != [] && |b| < |Frame(items[0].msg)|)
  {
    var (b, len) := Parse(buf);
    ParsePending(buf, wire, noise, items);
    if |buf| <= |noise| {
      noise', items' := noise[|buf|..], items;
      assert b[len..] == [];
    } else if len == 0 {
      noise', items' := [], items;
      assert b[len..] == b;
    } else {
      CutFrame(b, wire, items);
      RoundTrip(items[0].msg);
      noise', items' := items[0].noise, items[1..];
    }
  }

  lemma DrainedIsDone(b: seq<byte>, noise: seq<byte>, items: seq<Item>)
    requires Pending(b, [], noise, items)
    requires b != [] ==> noise == [] && items != [] && |b| < |Frame(items[0].msg)|
    ensures b == [] && items == []
  {
    assert |b| == |noise| + |Wire(items)|;
  }

  lemma MoveBytes(room: seq<byte>, wire: seq<byte>, k: nat)
    requires k <= |wire|
    ensures room + wire == (room + wire[..k]) + wire[k..]
  {
  }

  /** The first parse of a read that reports no frame, and the drop behind it: nothing that fits is
      lost, and with the wire drained nothing is left. */
  lemma ReadRoom(buf: seq<byte>, wire: seq<byte>, noise: seq<byte>, items: seq<Item>)
    returns (noise': seq<byte>, items': seq<Item>)
    requires Pending(buf, wire, noise, items) && Parse(buf).1 == 0
    ensures Pending(RoomOf(buf), wire, noise', items') && IsTail(items', items) && Fitting(items) == Fitting(items')
    ensures wire == [] ==> RoomOf(buf) == [] && items' == []
  {
    var b := Parse(buf).0;
    noise', items' := Deliver(buf, wire, noise, items);
    assert b[0..] == b;
    if wire == [] {
      DrainedIsDone(b, noise', items');
    }
    if |b| >= CAPACITY {
      // Only a frame larger than the buffer can fill it without being complete.
      noise' := DropStart(b, wire, items');
      items' := items'[1..];
    }
  }

  /** The second half of a read: `k` bytes come in and are parsed. */
  lemma ReadMore(room: seq<byte>, wire: seq<byte>, noise: seq<byte>, items: seq<Item>, k: nat)
    returns (noise': seq<byte>, items': seq<Item>)
    requires Pending(room, wire, noise, items) && k <= |wire| && |room| + k <= CAPACITY
    ensures var (b, len) := Parse(room + wire[..k]);
            && Pending(b[len..], wire[k..], noise', items') && IsTail(items', items)
            && Fitting(items) == (if len == 0 then [] else [Unframe(b[..len])]) + Fitting(items')
  {
    MoveBytes(room, wire, k);
    noise', items' := Deliver(room + wire[..k], wire[k..], noise, items);
  }

  /** The second half as it is called. */
  lemma FillConserves(room: seq<byte>, wire: seq<byte>, noise: seq<byte>, items: seq<Item>, n: nat)
    returns (noise': seq<byte>, items': seq<Item>)
    requires Pending(room, wire, noise, items)
    ensures var (b, w, len) := FillStep(room, wire, n);
            && Pending(b[len..], w, noise', items') && IsTail(items', items)
            && Fitting(items) == (if len == 0 then [] else [Unframe(b[..len])]) + Fitting(items')
  {
    var k := Min(n, Min(CAPACITY - |room|, |wire|));
    if k == 0 {
      noise', items' := noise, items;
      assert room[0..] == room && [] + Fitting(items) == Fitting(items);
    } else {
      noise', items' := ReadMore(room, wire, noise, items, k);
    }
  }

  /** One read conserves the messages: what it returns, followed by what is still to come, is what
      was to come before.  A read that returns nothing with the wire drained leaves nothing behind. */
  lemma ReadConserves(buf: seq<byte>, wire: seq<byte>, noise: seq<byte>, items: seq<Item>, n: nat)
    returns (noise': seq<byte>, items': seq<Item>)
    requires Pending(buf, wire, noise, items)
    ensures var (b, w, p) := ReadStep(buf, wire, n);
            && Pending(b, w, noise', items') && IsTail(items', items)
            && Fitting(items) == Packets(p) + Fitting(items')
            && (wire == [] && p == None ==> Fitting(items') == [] && b == [])
  {
    if Parse(buf).1 > 0 {
      noise', items' := Deliver(buf, wire, noise, items);
      return;
    }
    var noise1, items1 := ReadRoom(buf, wire, noise, items);
    noise', items' := FillConserves(RoomOf(buf), wire, noise1, items1, n);
    TailOfTail(items', items1, items);
    var b := FillStep(RoomOf(buf), wire, n).0;
    assert b[0..] == b;
  }

  lemma Chain<T>(all: seq<T>, first: seq<T>, later: seq<T>, next: seq<T>, last: seq<T>)
    requires all == first + later && later == next + last
    ensures all == first + next + last
  {
  }

  /** For every list of messages, whatever STX-free noise stands before, between and behind their
      frames, and however the byte stream is chopped by the reads: the packets returned are, in
      order, a prefix of the messages whose frames fit the buffer, and what is missing is still
      pending.  A message whose frame does not fit is lost alone. */
  lemma {:induction false} EveryChopping(buf: seq<byte>, wire: seq<byte>, noise: seq<byte>, items: seq<Item>,
                                         chops: seq<nat>)
    returns (noise': seq<byte>, items': seq<Item>)
    requires Pending(buf, wire, noise, items)
    ensures var (b, w, ps) := Run(buf, wire, chops);
            && Pending(b, w, noise', items') && IsTail(items', items)
            && Fitting(items) == ps + Fitting(items')
    decreases |chops|
  {
    if chops == [] {
      noise', items' := noise, items;
    } else {
      var (b, w, p) := ReadStep(buf, wire, chops[0]);
      var noise1, items1 := ReadConserves(buf, wire, noise, items, chops[0]);
      noise', items' := EveryChopping(b, w, noise1, items1, chops[1..]);
      TailOfTail(items', items1, items);
      Chain(Fitting(items), Packets(p), Fitting(items1), Run(b, w, chops[1..]).2, Fitting(items'));
    }
  }

  /** Once the wire is drained and a read comes back empty, everything that fits was delivered. */
  lemma AllDelivered(noise: seq<byte>, items: seq<Item>, chops: seq<nat>, n: nat)
    requires Quiet(noise) && QuietItems(items)
    requires var (b, w, _) := Run([], noise + Wire(items), chops);
             w == [] && ReadStep(b, w, n).2 == None
    ensures Run([], noise + Wire(items), chops).2 == Fitting(items)
  {
    var (b, w, ps) := Run([], noise + Wire(items), chops);
    assert [] + (noise + Wire(items)) == noise + Wire(items);
    var noise', items' := EveryChopping([], noise + Wire(items), noise, items, chops);
    var _, items'' := ReadConserves(b, w, noise', items', n);
    assert Fitting(items') == [];
  }

  function Plain(msgs: seq<seq<byte>>): (items: seq<Item>)
    ensures |items| == |msgs| && forall i :: 0 <= i < |msgs| ==> items[i] == Item(msgs[i], [])
  {
    seq(|msgs|, i requires 0 <= i < |msgs| => Item(msgs[i], []))
  }

  function Concat(ss: seq<seq<byte>>): seq<byte> {
    if ss == [] then [] else ss[0] + Concat(ss[1..])
  }

  function Frames(msgs: seq<seq<byte>>): seq<seq<byte>> {
    if msgs == [] then [] else [Frame(msgs[0])] + Frames(msgs[1..])
  }

  lemma PlainTail(msgs: seq<seq<byte>>)
    requires msgs != []
    ensures Plain(msgs)[0] == Item(msgs[0], []) && Plain(msgs)[1..] == Plain(msgs[1..])
  {
  }

  lemma {:induction false} PlainWire(msgs: seq<seq<byte>>)
    ensures Wire(Plain(msgs)) == Concat(Frames(msgs))
  {
    if msgs != [] {
      PlainWire(msgs[1..]);
      PlainTail(msgs);
      var rest := Wire(Plain(msgs[1..]));
      assert [] + rest == rest;
      assert Frames(msgs)[1..] == Frames(msgs[1..]);
    }
  }

  lemma {:induction false} PlainFits(msgs: seq<seq<byte>>)
    requires forall i :: 0 <= i < |msgs| ==> |Frame(msgs[i])| <= CAPACITY
    ensures Fitting(Plain(msgs)) == msgs
  {
    if msgs != [] {
      assert |Frame(msgs[0])| <= CAPACITY;
      PlainFits(msgs[1..]);
      PlainTail(msgs);
    }
  }

  /** The special case of a clean line: the frames of `msgs`, all of which fit, chopped any way. */
  lemma CleanLine(msgs: seq<seq<byte>>, chops: seq<nat>)
    requires forall i :: 0 <= i < |msgs| ==> |Frame(msgs[i])| <= CAPACITY
    ensures Run([], Concat(Frames(msgs)), chops).2 <= msgs
  {
    PlainWire(msgs);
    PlainFits(msgs);
    var w := Wire(Plain(msgs));
    assert [] + w == w;
    var _, items := EveryChopping([], w, [], Plain(msgs), chops);
    var ps := Run([], w, chops).2;
    assert msgs == ps + Fitting(items);
  }

  /** The test that drops a full buffer. */
  predicate Drops(buf: seq<byte>) {
    Parse(buf).1 == 0 && |Parse(buf).0| >= CAPACITY
  }

  /** When every frame fits, no read of any run ever finds the buffer full without a whole frame in it:
      the drop is never taken. */
  lemma NeverFull(noise: seq<byte>, items: seq<Item>, chops: seq<nat>)
    requires Quiet(noise) && QuietItems(items)
    requires forall i :: 0 <= i < |items| ==> |Frame(items[i].msg)| <= CAPACITY
    ensures !Drops(Run([], noise + Wire(items), chops).0)
  {
    var (b, w, ps) := Run([], noise + Wire(items), chops);
    assert [] + (noise + Wire(items)) == noise + Wire(items);
    var noise', items' := EveryChopping([], noise + Wire(items), noise, items, chops);
    var _, items'' := Deliver(b, w, noise', items');
    assert items'' != [] ==> items''[0] in items;
  }

  /** What a read that is offered something uses up: a packet leaves the buffer, or bytes the wire. */
  lemma ReadAdvances(buf: seq<byte>, wire: seq<byte>, n: nat)
    requires |buf| <= CAPACITY && n > 0
    ensures var (b, w, p) := ReadStep(buf, wire, n);
            if p == None && wire == [] then w == [] else |b| + 2 * |w| < |buf| + 2 * |wire|
  {
  }

  /** However the stream is chopped, and however little each read is offered, if only something: after
      twice as many reads as there are bytes, every message that fits has been returned. */
  lemma {:induction false} AllInTime(buf: seq<byte>, wire: seq<byte>, noise: seq<byte>, items: seq<Item>,
                                     chops: seq<nat>)
    requires Pending(buf, wire, noise, items)
    requires (forall i :: 0 <= i < |chops| ==> chops[i] > 0) && |chops| >= |buf| + 2 * |wire|
    ensures Run(buf, wire, chops).2 == Fitting(items)
    decreases |chops|
  {
    if chops == [] {
      assert buf + wire == [] && noise + Wire(items) == [];
    } else {
      var (b, w, p) := ReadStep(buf, wire, chops[0]);
      var noise1, items1 := ReadConserves(buf, wire, noise, items, chops[0]);
      ReadAdvances(buf, wire, chops[0]);
      AllInTime(b, w, noise1, items1, chops[1..]);
    }
  }

  /** The link: bytes wait on it, and a read delivers some of them. */
  class StreamLink {
    var pending: seq<byte>

    constructor (bytes: seq<byte>)
      ensures pending == bytes
    {
      pending := bytes;
    }

    /** How much one read delivers is up to the link; `n` is what it would have liked to deliver. */
    method Read(buf: array<byte>, at: nat, max: nat) returns (rv: nat, ghost n: nat)
      requires at + max <= buf.Length
      modifies this, buf
      ensures rv == Min(n, Min(max, |old(pending)|))
      ensures pending == old(pending)[rv..]
      ensures buf[..at + rv] == old(buf[..at]) + old(pending)[..rv]
    {
      rv :| 0 <= rv <= max && rv <= |pending|;
      n := rv;
      Put(buf, at, pending[..rv]);
      pending := pending[rv..];
    }
  }

  class PacketStream {
    const buf: array<byte>
    var bufLen: nat
    const link: StreamLink

    ghost predicate Valid()
      reads this
    {
      buf.Length == CAPACITY && bufLen <= CAPACITY
    }

    /** The bytes held in the receive buffer. */
    ghost function Held(): (s: seq<byte>)
      requires Valid()
      reads this, buf
      ensures |s| <= CAPACITY
    {
      buf[..bufLen]
    }

    constructor (link: StreamLink)
      ensures Valid() && fresh(buf) && this.link == link && Held() == []
    {
      this.link := link;
      buf := new byte[CAPACITY](_ => 0);
      bufLen := 0;
    }

    /** Reads once, behind what is in the buffer, and parses. */
    method Fill() returns (length: nat, ghost n: nat)
      requires Valid()
      modifies this`bufLen, buf, link
      ensures Valid() && length <= bufLen
      ensures (Held(), link.pending, length) == FillStep(old(Held()), old(link.pending), n)
    {
      length := 0;
      ghost var room, wire := Held(), link.pending;
      var rv;
      rv, n := link.Read(buf, bufLen, CAPACITY - bufLen);
      if rv == 0 {
        assert Held() == room && link.pending == wire;
        return;
      }
      bufLen := bufLen + rv;
      assert Held() == room + wire[..rv];
      bufLen, length := ParseRxMessage(buf, bufLen);
      assert (Held(), length) == Parse(room + wire[..rv]);
    }

    /** Parses what is there; failing that, drops a full buffer, reads once and parses again. */
    method GetMsgLen() returns (length: nat, ghost n: nat)
      requires Valid()
      modifies this`bufLen, buf, link
      ensures Valid() && length <= bufLen
      ensures (Held(), link.pending, length) == MsgLenStep(old(Held()), old(link.pending), n)
    {
      n := 0;
      bufLen, length := ParseRxMessage(buf, bufLen);
      if length > 0 {
        return;
      }
      if bufLen >= CAPACITY {
        bufLen := 0;
      }
      assert Held() == RoomOf(old(Held()));
      length, n := Fill();
    }

    /** Cuts the first `n` bytes of the buffer off and decodes them. */
    method CutFrame(n: nat) returns (pkt: seq<byte>)
      requires Valid() && n <= bufLen
      modifies this`bufLen, buf
      ensures Valid() && Held() == old(Held())[n..] && pkt == Unframe(old(Held())[..n])
    {
      ghost var held := Held();
      var out := new byte[n](i requires 0 <= i < n reads this, buf requires n <= buf.Length => buf[i]);
      assert out[..n] == held[..n];
      MemMove(buf, 0, n, bufLen - n);
      bufLen := bufLen - n;
      assert Held() == held[n..];
      var size := UnescapeMsg(out, n);
      pkt := out[..size];
    }

    /** Returns the next frame of the stream, decoded, if one read of the link completes it. */
    method Read() returns (pkt: Option<seq<byte>>, ghost n: nat)
      requires Valid()
      modifies this`bufLen, buf, link
      ensures Valid()
      ensures (Held(), link.pending, pkt) == ReadStep(old(Held()), old(link.pending), n)
    {
      var rb;
      rb, n := GetMsgLen();
      if rb == 0 {
        return None, n;
      }
      var msg := CutFrame(rb);
      pkt := Some(msg);
    }
  }
}
