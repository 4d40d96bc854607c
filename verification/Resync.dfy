/** Resynchronisation of the receive buffer of AccessNode/Shared/PacketStream.cpp: what is recovered of a
    stream of frames after arbitrary garbage. */
module Resync {
  import opened Basics
  import opened Bytes
  import opened Framing
  import opened PacketStreams

  /** A wire in step: leftover noise, then exactly the frames of `items`. */
  ghost predicate InStep(wire: seq<byte>, noise: seq<byte>, items: seq<Item>) {
    Quiet(noise) && QuietItems(items) && wire == noise + Wire(items)
  }

  lemma CutBehind(a: seq<byte>, b: seq<byte>, k: nat)
    requires k <= |a| + |b|
    ensures k <= |a| ==> (a + b)[k..] == a[k..] + b
    ensures k >= |a| ==> (a + b)[k..] == b[k - |a|..]
  {
  }

  lemma WireTail(items: seq<Item>, n: nat)
    requires 0 < n <= |items|
    ensures Wire(items[..n]) == Frame(items[0].msg) + (items[0].noise + Wire(items[1..][..n - 1]))
  {
    assert items[..n][1..] == items[1..][..n - 1];
  }

  lemma InsideFrame(msg: seq<byte>, noise: seq<byte>, k: nat)
    requires 0 < k <= |Frame(msg)| + |noise| && Quiet(noise)
    ensures Quiet((Frame(msg) + noise)[k..])
  {
    FrameMarks(msg);
  }

  lemma {:induction false} LoseItems(items: seq<Item>, k: nat) returns (noise': seq<byte>, lost: nat)
    requires QuietItems(items) && k <= |Wire(items)|
    ensures lost <= |items| && InStep(Wire(items)[k..], noise', items[lost..]) && (k > 0 ==> lost > 0)
    ensures lost > 0 ==> |Wire(items[..lost - 1])| < k
    decreases |items|
  {
    if k == 0 {
      noise', lost := [], 0;
      assert items[0..] == items && [] + Wire(items) == Wire(items);
      return;
    }
    var first, rest := Frame(items[0].msg) + items[0].noise, items[1..];
    Assoc(Frame(items[0].msg), items[0].noise, Wire(rest));
    CutBehind(first, Wire(rest), k);
    if k <= |first| {
      InsideFrame(items[0].msg, items[0].noise, k);
      noise', lost := first[k..], 1;
      assert items[..0] == [];
    } else {
      noise', lost := LoseItems(rest, k - |first|);
      assert rest[lost..] == items[lost + 1..];
      WireTail(items, lost);
      lost := lost + 1;
    }
  }

  /** Where `k` bytes are lost off the wire, what is left of a frame is noise, and the messages behind
      are still to come; all but the last of those that are lost lay in the bytes lost. */
  lemma {:induction false} LoseBytes(wire: seq<byte>, noise: seq<byte>, items: seq<Item>, k: nat)
    returns (noise': seq<byte>, lost: nat)
    requires InStep(wire, noise, items) && k <= |wire|
    ensures lost <= |items| && InStep(wire[k..], noise', items[lost..])
    ensures lost > 0 ==> |Wire(items[..lost - 1])| < k
  {
    CutBehind(noise, Wire(items), k);
    if k <= |noise| {
      noise', lost := noise[k..], 0;
      assert items[0..] == items;
    } else {
      noise', lost := LoseItems(items, k - |noise|);
    }
  }

  lemma WireStarts(wire: seq<byte>, noise: seq<byte>, items: seq<Item>)
    requires InStep(wire, noise, items) && |noise| < |wire|
    ensures wire[|noise|] == STX
  {
    assert items != [];
    FrameMarks(items[0].msg);
  }

  lemma MarkBehindHalf(room: seq<byte>, chunk: seq<byte>)
    requires HalfFrame(room)
    ensures FindMark(room + chunk, 1) == |room| + FindMark(chunk, 0)
  {
    var b, m := room + chunk, FindMark(chunk, 0);
    MarkAt(chunk, 0);
    forall i | 1 <= i < |room| + m ensures !IsMark(b[i]) {
      if i < |room| {
        assert b[i] == room[i];
      } else {
        assert b[i] == chunk[i - |room|];
      }
    }
    assert m < |chunk| ==> b[|room| + m] == chunk[m];
    MarkIs(b, 1, |room| + m);
  }

  lemma ParseIs(b: seq<byte>, m: nat)
    requires b != [] && b[0] == STX && m == FindMark(b, 1)
    ensures Parse(b) == if m == |b| then (b, 0) else if b[m] == STX then ([], 0) else (b, m + 1)
  {
    assert b[0..] == b;
  }

  lemma ParseHalf(room: seq<byte>, chunk: seq<byte>, b: seq<byte>)
    requires HalfFrame(room) && b == room + chunk
    ensures var m := FindMark(chunk, 0);
            Parse(b) == if m == |chunk| then (b, 0)
                        else if chunk[m] == STX then ([], 0)
                        else (b, |room| + m + 1)
  {
    MarkBehindHalf(room, chunk);
    var m := FindMark(chunk, 0);
    ParseIs(b, |room| + m);
    assert m < |chunk| ==> b[|room| + m] == chunk[m];
  }

  /** The bytes up to the first mark on the wire, which is not an STX, are noise. */
  lemma StillNoise(wire: seq<byte>, noise: seq<byte>, items: seq<Item>, t: nat)
    requires InStep(wire, noise, items) && t <= |wire| && forall i :: 0 <= i < t ==> wire[i] != STX
    ensures t <= |noise| && InStep(wire[t..], noise[t..], items)
  {
    if |noise| < |wire| {
      WireStarts(wire, noise, items);
    }
    CutBehind(noise, Wire(items), t);
  }

  lemma CutMiddle(s: seq<byte>, i: nat, k: nat)
    requires i <= k <= |s|
    ensures s[..k][i..] + s[k..] == s[i..]
  {
  }

  /** Half a frame of garbage, with `k` bytes of the wire behind it that end it: it goes as a packet. */
  lemma HalfReturns(room: seq<byte>, wire: seq<byte>, noise: seq<byte>, items: seq<Item>, k: nat, m: nat)
    requires HalfFrame(room) && InStep(wire, noise, items) && m < k <= |wire| && |room| + k <= CAPACITY
    requires m == FindMark(wire[..k], 0) && wire[m] != STX
    ensures m < |noise| && Parse(room + wire[..k]) == (room + wire[..k], |room| + m + 1)
    ensures Pending((room + wire[..k])[|room| + m + 1..], wire[k..], noise[m + 1..], items)
  {
    ParseHalf(room, wire[..k], room + wire[..k]);
    MarkAt(wire[..k], 0);
    StillNoise(wire, noise, items, m + 1);
    CutBehind(room, wire[..k], |room| + m + 1);
    CutMiddle(wire, m + 1, k);
  }

  lemma HalfStays(wire: seq<byte>, noise: seq<byte>, items: seq<Item>, k: nat)
    requires InStep(wire, noise, items) && k <= |wire| && FindMark(wire[..k], 0) == k
    ensures k <= |noise| && InStep(wire[k..], noise[k..], items)
  {
    MarkAt(wire[..k], 0);
    StillNoise(wire, noise, items, k);
  }

  /** What one read with garbage in the buffer comes to: still out of step, or in step with `lost`
      messages gone. */
  datatype Garble = Still(noise: seq<byte>) | Again(lost: nat, noise: seq<byte>)

  /** All but the last of the lost messages lie within one buffer of bytes. */
  predicate LostInOne(all: seq<Item>, lost: nat) {
    lost <= |all| && (lost > 0 ==> |Wire(all[..lost - 1])| < CAPACITY)
  }

  ghost predicate ComesTo(buf: seq<byte>, wire: seq<byte>, all: seq<Item>, g: Garble) {
    match g
    case Still(noise) => InStep(wire, noise, all)
    case Again(lost, noise) => LostInOne(all, lost) && Pending(buf, wire, noise, all[lost..])
  }

  lemma HalfDrops(wire: seq<byte>, noise: seq<byte>, items: seq<Item>, k: nat) returns (g: Garble)
    requires InStep(wire, noise, items) && k <= |wire| && k <= CAPACITY
    ensures ComesTo([], wire[k..], items, g) && g.Again?
  {
    var noise', lost := LoseBytes(wire, noise, items, k);
    assert [] + wire[k..] == wire[k..];
    g := Again(lost, noise');
  }

  /** What becomes of half a frame of garbage when `k` bytes of the wire come in behind it. */
  lemma HalfRead(room: seq<byte>, wire: seq<byte>, noise: seq<byte>, items: seq<Item>, k: nat) returns (g: Garble)
    requires HalfFrame(room) && InStep(wire, noise, items) && 0 < k <= |wire| && |room| + k <= CAPACITY
    ensures var (b, len) := Parse(room + wire[..k]);
            ComesTo(b[len..], wire[k..], items, g) && (g.Still? ==> len == 0)
  {
    var m := FindMark(wire[..k], 0);
    ParseHalf(room, wire[..k], room + wire[..k]);
    if m == k {
      HalfStays(wire, noise, items, k);
      g := Still(noise[m..]);
    } else if wire[m] == STX {
      g := HalfDrops(wire, noise, items, k);
    } else {
      HalfReturns(room, wire, noise, items, k, m);
      assert items[0..] == items;
      g := Again(0, noise[m + 1..]);
    }
  }

  /** A read with garbage in the buffer: it may return that as a packet, or lose what it has just read
      with it; then it is in step again. */
  lemma GarbledRead(buf: seq<byte>, wire: seq<byte>, noise: seq<byte>, items: seq<Item>, n: nat) returns (g: Garble)
    requires |buf| <= CAPACITY && InStep(wire, noise, items) && (Parse(buf).1 > 0 || RoomOf(buf) != [])
    ensures ComesTo(ReadStep(buf, wire, n).0, ReadStep(buf, wire, n).1, items, g)
  {
    var room := RoomOf(buf);
    var k := Min(n, Min(CAPACITY - |room|, |wire|));
    if Parse(buf).1 > 0 || k == 0 {
      g := Still(noise);
    } else {
      RoomIsHalf(buf);
      g := HalfRead(room, wire, noise, items, k);
      var b := Parse(room + wire[..k]).0;
      assert b[0..] == b;
    }
  }

  lemma RunIgnoresGarbage(buf: seq<byte>, wire: seq<byte>, chops: seq<nat>)
    requires |buf| <= CAPACITY && Parse(buf).1 == 0 && RoomOf(buf) == [] && chops != []
    ensures Run(buf, wire, chops) == Run([], wire, chops)
  {
    assert ReadStep(buf, wire, chops[0]) == ReadStep([], wire, chops[0]);
  }

  /** What a run has come to that began with garbage in the buffer.  Out of step it has returned garbage
      only and lost nothing.  In step it has returned `junk` packets of garbage, and then the messages
      that fit, from number `lost` on, up to those that are pending. */
  datatype Sync =
    | OutOfStep(noise: seq<byte>)
    | Synced(junk: nat, lost: nat, noise: seq<byte>, items: seq<Item>)

  ghost predicate Recovered(buf: seq<byte>, wire: seq<byte>, ps: seq<seq<byte>>, all: seq<Item>, o: Sync) {
    match o
    case OutOfStep(noise) => InStep(wire, noise, all)
    case Synced(junk, lost, noise, items) =>
      && junk <= |ps| && LostInOne(all, lost)
      && Pending(buf, wire, noise, items) && Fitting(all[lost..]) == ps[junk..] + Fitting(items)
  }

  /** The same for the state after a run, and what it has returned. */
  ghost predicate RunRecovers(buf: seq<byte>, wire: seq<byte>, chops: seq<nat>, all: seq<Item>, o: Sync)
    requires |buf| <= CAPACITY
  {
    Recovered(Run(buf, wire, chops).0, Run(buf, wire, chops).1, Run(buf, wire, chops).2, all, o)
  }

  /** With `n` packets of garbage more in front. */
  function Later(o: Sync, n: nat): Sync {
    match o
    case OutOfStep(_) => o
    case Synced(junk, lost, noise, items) => Synced(n + junk, lost, noise, items)
  }

  lemma DropMore<T>(a: seq<T>, b: seq<T>, n: nat)
    requires n <= |b|
    ensures (a + b)[|a| + n..] == b[n..]
  {
  }

  lemma MoreGarbage(buf: seq<byte>, wire: seq<byte>, first: seq<seq<byte>>, ps: seq<seq<byte>>, all: seq<Item>, o: Sync)
    requires Recovered(buf, wire, ps, all, o)
    ensures Recovered(buf, wire, first + ps, all, Later(o, |first|))
  {
    match o
    case OutOfStep(_) =>
    case Synced(junk, _, _, _) => DropMore(first, ps, junk);
  }

  lemma RecoveredLater(buf: seq<byte>, wire: seq<byte>, chops: seq<nat>, all: seq<Item>, o: Sync)
    requires |buf| <= CAPACITY && chops != []
    requires RunRecovers(ReadStep(buf, wire, chops[0]).0, ReadStep(buf, wire, chops[0]).1, chops[1..], all, o)
    ensures RunRecovers(buf, wire, chops, all, Later(o, |Packets(ReadStep(buf, wire, chops[0]).2)|))
  {
    var (b, w, p) := ReadStep(buf, wire, chops[0]);
    var r := Run(b, w, chops[1..]);
    MoreGarbage(r.0, r.1, Packets(p), r.2, all, o);
  }

  /** A run in step recovers everything that is pending. */
  lemma RecoveredFrom(buf: seq<byte>, wire: seq<byte>, noise: seq<byte>, all: seq<Item>, lost: nat, chops: seq<nat>)
    returns (o: Sync)
    requires LostInOne(all, lost) && Pending(buf, wire, noise, all[lost..])
    ensures RunRecovers(buf, wire, chops, all, o)
  {
    var noise', items' := EveryChopping(buf, wire, noise, all[lost..], chops);
    var ps := Run(buf, wire, chops).2;
    assert ps[0..] == ps;
    o := Synced(0, lost, noise', items');
  }

  /** Resynchronisation, whatever the buffer holds when the frames begin to arrive, and however they are
      chopped. */
  lemma {:induction false} AfterGarbage(buf: seq<byte>, wire: seq<byte>, noise: seq<byte>, items: seq<Item>,
                                        chops: seq<nat>) returns (o: Sync)
    requires |buf| <= CAPACITY && InStep(wire, noise, items)
    ensures RunRecovers(buf, wire, chops, items, o)
    decreases |chops|
  {
    if chops == [] {
      o := OutOfStep(noise);
    } else if Parse(buf).1 == 0 && RoomOf(buf) == [] {
      RunIgnoresGarbage(buf, wire, chops);
      assert [] + wire == wire && items[0..] == items;
      o := RecoveredFrom([], wire, noise, items, 0, chops);
    } else {
      var (b, w, p) := ReadStep(buf, wire, chops[0]);
      var g := GarbledRead(buf, wire, noise, items, chops[0]);
      match g {
        case Still(noise1) =>
          o := AfterGarbage(b, w, noise1, items, chops[1..]);
        case Again(lost, noise1) =>
          o := RecoveredFrom(b, w, noise1, items, lost, chops[1..]);
      }
      RecoveredLater(buf, wire, chops, items, o);
      o := Later(o, |Packets(p)|);
    }
  }

  lemma ReadTakes(buf: seq<byte>, wire: seq<byte>, n: nat) returns (k: nat)
    requires |buf| <= CAPACITY
    ensures k <= CAPACITY && k <= |wire| && ReadStep(buf, wire, n).1 == wire[k..]
  {
    k := if Parse(buf).1 > 0 then 0 else Min(n, Min(CAPACITY - |RoomOf(buf)|, |wire|));
    assert wire[0..] == wire;
  }

  /** A run on a wire that begins with garbage `g` has either not gone past it; or it recovers the
      messages from number `first` on, all but the last of those before lying in the one read that went
      past the garbage. */
  ghost predicate Passes(buf: seq<byte>, g: seq<byte>, wire: seq<byte>, chops: seq<nat>, all: seq<Item>, first: nat,
                         o: Option<Sync>)
    requires |buf| <= CAPACITY
  {
    match o
    case None => IsTail(wire, Run(buf, g + wire, chops).1)
    case Some(sync) =>
      LostInOne(all, first) && RunRecovers(buf, g + wire, chops, all[first..], sync)
  }

  lemma PassesLater(buf: seq<byte>, g: seq<byte>, wire: seq<byte>, chops: seq<nat>, all: seq<Item>, first: nat,
                    k: nat, o: Option<Sync>)
    requires |buf| <= CAPACITY && chops != [] && k <= |g|
    requires ReadStep(buf, g + wire, chops[0]).1 == g[k..] + wire
    requires Passes(ReadStep(buf, g + wire, chops[0]).0, g[k..], wire, chops[1..], all, first, o)
    ensures Passes(buf, g, wire, chops, all, first,
                   if o == None then None else Some(Later(o.value, |Packets(ReadStep(buf, g + wire, chops[0]).2)|)))
  {
    if o.Some? {
      RecoveredLater(buf, g + wire, chops, all[first..], o.value);
    }
  }

  /** The same with any garbage on the wire, in front of the frames. */
  lemma {:induction false} GarbageOnWire(buf: seq<byte>, g: seq<byte>, wire: seq<byte>, noise: seq<byte>,
                                         items: seq<Item>, chops: seq<nat>) returns (first: nat, o: Option<Sync>)
    requires |buf| <= CAPACITY && InStep(wire, noise, items)
    ensures Passes(buf, g, wire, chops, items, first, o)
    decreases |chops|
  {
    if chops == [] {
      first, o := 0, None;
      return;
    }
    var k := ReadTakes(buf, g + wire, chops[0]);
    var (b, w, p) := ReadStep(buf, g + wire, chops[0]);
    CutBehind(g, wire, k);
    if k <= |g| {
      first, o := GarbageOnWire(b, g[k..], wire, noise, items, chops[1..]);
      PassesLater(buf, g, wire, chops, items, first, k, o);
      o := if o == None then None else Some(Later(o.value, |Packets(p)|));
    } else {
      var noise1;
      noise1, first := LoseBytes(wire, noise, items, k - |g|);
      var sync := AfterGarbage(b, w, noise1, items[first..], chops[1..]);
      RecoveredLater(buf, g + wire, chops, items[first..], sync);
      o := Some(Later(sync, |Packets(p)|));
    }
  }
}
