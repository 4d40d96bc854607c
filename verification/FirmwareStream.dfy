/** `MakeStream` of AccessNode/Shared/Utils.cpp: firmware records become length-prefixed flash
    commands, followed by one activation command that lists the written segments. */
module FirmwareStream {
  import opened Basics
  import opened Bytes
  import opened LengthPrefixed

  const CODE_START: nat := 0x2202
  const MEMORY_SIZE: nat := 0x10000
  const FLASH_UPDATE: byte := 0x21
  const ACTIVATE_FLASH: byte := 0x22
  const ON_DEMAND_BROADCAST: byte := 0xA3
  const PACKET_SPACE: nat := 124

  /** A data record of the firmware file: `data` goes to address `addr`. */
  datatype Record = Record(addr: nat, data: seq<byte>) {
    predicate Fits() {
      addr < MEMORY_SIZE && addr + |data| <= MEMORY_SIZE && 4 + |data| <= PACKET_SPACE
    }
  }

  predicate AllFit(recs: seq<Record>) {
    forall i :: 0 <= i < |recs| ==> recs[i].Fits()
  }

  datatype Packet = Packet(off: nat, data: seq<byte>)

  predicate InFlash(packets: seq<Packet>) {
    forall i :: 0 <= i < |packets| ==>
      packets[i].off < MEMORY_SIZE && packets[i].off + |packets[i].data| <= MEMORY_SIZE
  }

  /** A stretch of memory the activation command lists, with the bytes its checksums are taken over. */
  datatype Segment = Segment(start: nat, bytes: seq<byte>)

  type Flash = s: seq<byte> | |s| == MEMORY_SIZE witness seq(MEMORY_SIZE, _ => 0)

  function Write(f: Flash, off: nat, data: seq<byte>): Flash
    requires off + |data| <= MEMORY_SIZE
  {
    f[..off] + data + f[off + |data|..]
  }

  /** The records that `MakeStream` does not skip. */
  function Kept(recs: seq<Record>): (kept: seq<Record>)
    ensures forall r :: r in kept ==> r in recs && r.addr >= CODE_START
  {
    if recs == [] then []
    else (if recs[0].addr < CODE_START then [] else [recs[0]]) + Kept(recs[1..])
  }

  /** What loading the records one after the other makes of the flash. */
  function Load(f: Flash, recs: seq<Record>): Flash
    requires AllFit(recs)
    decreases |recs|
  {
    if recs == [] then f else Load(Write(f, recs[0].addr, recs[0].data), recs[1..])
  }

  /** What executing the flash packets one after the other makes of it. */
  function Execute(f: Flash, packets: seq<Packet>): Flash
    requires InFlash(packets)
    decreases |packets|
  {
    if packets == [] then f else Execute(Write(f, packets[0].off, packets[0].data), packets[1..])
  }

  /** The packets still to be emitted while `data`, from address `off` on, is being collected. */
  function Pack(maxLen: int, off: nat, data: seq<byte>, recs: seq<Record>): (packets: seq<Packet>)
    ensures |packets| > 0
    decreases |recs|
  {
    if recs == [] then [Packet(off, data)]
    else
      var r := recs[0];
      if 4 + |data| + |r.data| > maxLen || r.addr != off + |data| then
        [Packet(off, data)] + Pack(maxLen, r.addr, r.data, recs[1..])
      else
        Pack(maxLen, off, data + r.data, recs[1..])
  }

  /** The segments still to be listed while memory from `start` up to `last` is contiguous; `mem` is
      the memory image so far. */
  function Segments(mem: Flash, start: nat, last: nat, recs: seq<Record>): (segs: seq<Segment>)
    requires start <= last <= MEMORY_SIZE && AllFit(recs)
    ensures |segs| > 0
    decreases |recs|
  {
    if recs == [] then [Segment(start, mem[start..last])]
    else
      var r := recs[0];
      var mem' := Write(mem, r.addr, r.data);
      if r.addr != last then
        [Segment(start, mem'[start..last])] + Segments(mem', r.addr, r.addr + |r.data|, recs[1..])
      else
        Segments(mem', start, last + |r.data|, recs[1..])
  }

  lemma {:induction false} PackFits(maxLen: int, off: nat, data: seq<byte>, recs: seq<Record>)
    requires off < MEMORY_SIZE && off + |data| <= MEMORY_SIZE && AllFit(recs)
    ensures InFlash(Pack(maxLen, off, data, recs))
    decreases |recs|
  {
    if recs != [] {
      var r := recs[0];
      if 4 + |data| + |r.data| > maxLen || r.addr != off + |data| {
        PackFits(maxLen, r.addr, r.data, recs[1..]);
      } else {
        PackFits(maxLen, off, data + r.data, recs[1..]);
      }
    }
  }

  lemma WriteTwice(f: Flash, off: nat, a: seq<byte>, b: seq<byte>)
    requires off + |a| + |b| <= MEMORY_SIZE
    ensures Write(Write(f, off, a), off + |a|, b) == Write(f, off, a + b)
  {
  }

  /** Packetising preserves meaning: the packets do to any flash what the records do. */
  lemma {:induction false} PackingPreservesFlash(maxLen: int, f: Flash, off: nat, data: seq<byte>, recs: seq<Record>)
    requires off < MEMORY_SIZE && off + |data| <= MEMORY_SIZE && AllFit(recs)
    ensures InFlash(Pack(maxLen, off, data, recs))
    ensures Execute(f, Pack(maxLen, off, data, recs)) == Load(Write(f, off, data), recs)
    decreases |recs|
  {
    PackFits(maxLen, off, data, recs);
    if recs != [] {
      var r := recs[0];
      if 4 + |data| + |r.data| > maxLen || r.addr != off + |data| {
        PackingPreservesFlash(maxLen, Write(f, off, data), r.addr, r.data, recs[1..]);
        PackFits(maxLen, r.addr, r.data, recs[1..]);
        var rest := Pack(maxLen, r.addr, r.data, recs[1..]);
        assert ([Packet(off, data)] + rest)[1..] == rest;
      } else {
        PackingPreservesFlash(maxLen, f, off, data + r.data, recs[1..]);
        WriteTwice(f, off, data, r.data);
      }
    }
  }

  predicate Within(packets: seq<Packet>, maxLen: int) {
    forall i :: 0 <= i < |packets| ==> 4 + |packets[i].data| <= maxLen
  }

  /** No packet exceeds the limit when no record does. */
  lemma {:induction false} PacketsWithinLimit(maxLen: int, off: nat, data: seq<byte>, recs: seq<Record>)
    requires 4 + |data| <= maxLen && forall i :: 0 <= i < |recs| ==> 4 + |recs[i].data| <= maxLen
    ensures Within(Pack(maxLen, off, data, recs), maxLen)
    decreases |recs|
  {
    if recs != [] {
      var r := recs[0];
      assert 4 + |recs[0].data| <= maxLen;
      if 4 + |data| + |r.data| > maxLen || r.addr != off + |data| {
        PacketsWithinLimit(maxLen, r.addr, r.data, recs[1..]);
      } else {
        PacketsWithinLimit(maxLen, off, data + r.data, recs[1..]);
      }
    }
  }

  function Span(start: nat, len: nat): seq<nat> {
    seq(len, i requires 0 <= i => start + i)
  }

  lemma SpanSplit(start: nat, a: nat, b: nat, rest: seq<nat>)
    ensures Span(start, a + b) + rest == Span(start, a) + (Span(start + a, b) + rest)
  {
  }

  /** The addresses a list of segments names, in order. */
  function Listed(segs: seq<Segment>): seq<nat> {
    if segs == [] then [] else Span(segs[0].start, |segs[0].bytes|) + Listed(segs[1..])
  }

  /** The addresses a list of records writes, in order. */
  function Written(recs: seq<Record>): seq<nat> {
    if recs == [] then [] else Span(recs[0].addr, |recs[0].data|) + Written(recs[1..])
  }

  lemma ListedOneMore(s: Segment, segs: seq<Segment>)
    ensures Listed([s] + segs) == Span(s.start, |s.bytes|) + Listed(segs)
  {
    assert ([s] + segs)[1..] == segs;
  }

  lemma ListJump(mem: Flash, start: nat, last: nat, recs: seq<Record>)
    requires start <= last <= MEMORY_SIZE && AllFit(recs) && recs != [] && recs[0].addr != last
    requires var r := recs[0];
             && r.addr + |r.data| <= MEMORY_SIZE
             && Listed(Segments(Write(mem, r.addr, r.data), r.addr, r.addr + |r.data|, recs[1..])) == Written(recs)
    ensures Listed(Segments(mem, start, last, recs)) == Span(start, last - start) + Written(recs)
  {
    var r := recs[0];
    var mem' := Write(mem, r.addr, r.data);
    ListedOneMore(Segment(start, mem'[start..last]), Segments(mem', r.addr, r.addr + |r.data|, recs[1..]));
  }

  lemma ListOn(mem: Flash, start: nat, last: nat, recs: seq<Record>)
    requires start <= last <= MEMORY_SIZE && AllFit(recs) && recs != [] && recs[0].addr == last
    requires var r := recs[0];
             && r.addr + |r.data| <= MEMORY_SIZE
             && Listed(Segments(Write(mem, r.addr, r.data), start, last + |r.data|, recs[1..]))
             == Span(start, last + |r.data| - start) + Written(recs[1..])
    ensures Listed(Segments(mem, start, last, recs)) == Span(start, last - start) + Written(recs)
  {
    SpanSplit(start, last - start, |recs[0].data|, Written(recs[1..]));
  }

  /** The segments name exactly the addresses the records write, in the same order. */
  lemma {:induction false} SegmentsListRecords(mem: Flash, start: nat, last: nat, recs: seq<Record>)
    requires start <= last <= MEMORY_SIZE && AllFit(recs)
    ensures Listed(Segments(mem, start, last, recs)) == Span(start, last - start) + Written(recs)
    decreases |recs|
  {
    if recs == [] {
      ListedOneMore(Segment(start, mem[start..last]), []);
      return;
    }
    var r, rest := recs[0], recs[1..];
    assert r.Fits();
    var mem' := Write(mem, r.addr, r.data);
    if r.addr != last {
      SegmentsListRecords(mem', r.addr, r.addr + |r.data|, rest);
      ListJump(mem, start, last, recs);
    } else {
      SegmentsListRecords(mem', start, last + |r.data|, rest);
      ListOn(mem, start, last, recs);
    }
  }

  /** No segment could be joined to the one after it. */
  lemma {:induction false} SegmentsAreMaximal(mem: Flash, start: nat, last: nat, recs: seq<Record>)
    requires start <= last <= MEMORY_SIZE && AllFit(recs)
    ensures var segs := Segments(mem, start, last, recs);
            && segs[0].start == start
            && forall i :: 0 <= i < |segs| - 1 ==> segs[i].start + |segs[i].bytes| != segs[i + 1].start
    decreases |recs|
  {
    if recs != [] {
      var r := recs[0];
      var mem' := Write(mem, r.addr, r.data);
      if r.addr != last {
        SegmentsAreMaximal(mem', r.addr, r.addr + |r.data|, recs[1..]);
      } else {
        SegmentsAreMaximal(mem', start, last + |r.data|, recs[1..]);
      }
    }
  }

  predicate Apart(a: nat, b: nat, r: Record) {
    r.data == [] || b <= r.addr || r.addr + |r.data| <= a
  }

  predicate AllApart(a: nat, b: nat, recs: seq<Record>) {
    forall i :: 0 <= i < |recs| ==> Apart(a, b, recs[i])
  }

  predicate Disjoint(recs: seq<Record>) {
    forall i, j :: 0 <= i < j < |recs| ==> Apart(recs[i].addr, recs[i].addr + |recs[i].data|, recs[j])
  }

  lemma {:induction false} LoadElsewhere(f: Flash, a: nat, b: nat, recs: seq<Record>)
    requires a <= b <= MEMORY_SIZE && AllFit(recs)
    requires AllApart(a, b, recs)
    ensures Load(f, recs)[a..b] == f[a..b]
    decreases |recs|
  {
    if recs != [] {
      var g := Write(f, recs[0].addr, recs[0].data);
      assert Apart(a, b, recs[0]);
      assert g[a..b] == f[a..b];
      LoadElsewhere(g, a, b, recs[1..]);
    }
  }

  /** Every segment carries the bytes that `f` holds where it lies. */
  predicate Describes(segs: seq<Segment>, f: Flash) {
    forall i :: 0 <= i < |segs| ==>
      && segs[i].start + |segs[i].bytes| <= MEMORY_SIZE
      && segs[i].bytes == f[segs[i].start..segs[i].start + |segs[i].bytes|]
  }

  lemma DescribesOneMore(seg: Segment, segs: seq<Segment>, f: Flash)
    requires seg.start + |seg.bytes| <= MEMORY_SIZE && seg.bytes == f[seg.start..seg.start + |seg.bytes|]
    requires Describes(segs, f)
    ensures Describes([seg] + segs, f)
  {
  }

  lemma DisjointTail(start: nat, last: nat, recs: seq<Record>)
    requires recs != [] && start <= last && Disjoint(recs) && AllApart(start, last, recs)
    ensures Disjoint(recs[1..]) && AllApart(start, last, recs[1..])
    ensures var r := recs[0]; AllApart(r.addr, r.addr + |r.data|, recs[1..])
    ensures recs[0].addr == last ==> AllApart(start, last + |recs[0].data|, recs[1..])
  {
    var rest := recs[1..];
    assert forall i :: 0 <= i < |rest| ==> rest[i] == recs[i + 1];
    assert forall i :: 0 <= i < |rest| ==> Apart(start, last, rest[i]);
  }

  lemma WriteSame(f: Flash, g: Flash, start: nat, last: nat, r: Record)
    requires start <= last <= MEMORY_SIZE && f[start..last] == g[start..last]
    requires r.addr + |r.data| <= MEMORY_SIZE && Apart(start, last, r)
    ensures var f', g' := Write(f, r.addr, r.data), Write(g, r.addr, r.data);
            && f'[start..last] == g'[start..last] == g[start..last]
            && f'[r.addr..r.addr + |r.data|] == g'[r.addr..r.addr + |r.data|]
            && (r.addr == last ==> f'[start..last + |r.data|] == g'[start..last + |r.data|])
  {
    var f', g' := Write(f, r.addr, r.data), Write(g, r.addr, r.data);
    assert f'[r.addr..r.addr + |r.data|] == r.data == g'[r.addr..r.addr + |r.data|];
    WriteApart(f, start, last, r);
    WriteApart(g, start, last, r);
    if r.addr == last {
      assert f'[start..last + |r.data|] == f'[start..last] + f'[r.addr..r.addr + |r.data|];
      assert g'[start..last + |r.data|] == g'[start..last] + g'[r.addr..r.addr + |r.data|];
    }
  }

  lemma WriteApart(f: Flash, a: nat, b: nat, r: Record)
    requires a <= b <= MEMORY_SIZE && r.addr + |r.data| <= MEMORY_SIZE && Apart(a, b, r)
    ensures Write(f, r.addr, r.data)[a..b] == f[a..b]
  {
  }

  /** When no two records overlap, the checksums in the activation command are taken over the bytes
      that the segment holds once everything is loaded, whatever stood in the flash before. */
  lemma {:induction false} ChecksumsAreFinal(mem: Flash, f: Flash, start: nat, last: nat, recs: seq<Record>)
    requires start <= last <= MEMORY_SIZE && AllFit(recs) && Disjoint(recs) && AllApart(start, last, recs)
    requires mem[start..last] == f[start..last]
    ensures Describes(Segments(mem, start, last, recs), Load(f, recs))
    decreases |recs|
  {
    if recs == [] {
      DescribesOneMore(Segment(start, mem[start..last]), [], f);
      return;
    }
    var r := recs[0];
    var mem', f' := Write(mem, r.addr, r.data), Write(f, r.addr, r.data);
    DisjointTail(start, last, recs);
    WriteSame(mem, f, start, last, r);
    if r.addr != last {
      ChecksumsAreFinal(mem', f', r.addr, r.addr + |r.data|, recs[1..]);
      LoadElsewhere(f', start, last, recs[1..]);
      DescribesOneMore(Segment(start, mem'[start..last]),
                       Segments(mem', r.addr, r.addr + |r.data|, recs[1..]), Load(f, recs));
    } else {
      ChecksumsAreFinal(mem', f', start, last + |r.data|, recs[1..]);
    }
  }

  type word = x: int | 0 <= x < 0x10000

  type Dna = s: seq<byte> | |s| == 4 witness [0, 0, 0, 0]

  /** The arguments of `MakeStream`; `ansi` and `rf` are the two block checksums as they are stored. */
  datatype Params = Params(cmd: byte, meta: seq<byte>, target: word, dna: Dna, writeFlag: int, maxLen: int,
                           ansi: seq<byte> -> word, rf: seq<byte> -> word) {
    /** The widths of the arguments, and packets that fit the local buffers.  Headers that do not fit
        theirs have no length, which only matters to a command that writes them. */
    predicate Sane() {
      (cmd == ON_DEMAND_BROADCAST ==> |meta| <= 128) && -0x8000 <= writeFlag < 0x8000 && maxLen < PACKET_SPACE
    }

    predicate Uploads() {
      writeFlag < 0x100
    }
  }

  /** A 16-bit quantity as the machine stores it, low byte first. */
  function Le16(n: word): seq<byte> {
    [n % 256, n / 256]
  }

  /** What stands before a packet: an on-demand broadcast wraps it for its DNA target. */
  function Head(p: Params, wrapped: byte, direct: byte): (s: seq<byte>)
    ensures p.Sane() ==> 1 <= |s| <= 134
  {
    if p.cmd == ON_DEMAND_BROADCAST then [p.cmd] + p.dna + p.meta + [wrapped] else [direct]
  }

  /** The packet buffer: target, destination offset, code. */
  function PacketBytes(p: Params, k: Packet): (s: seq<byte>)
    ensures |s| == 4 + |k.data|
  {
    Be16(p.target) + Be16(k.off % 0x10000) + k.data
  }

  function Update(p: Params, k: Packet): seq<byte> {
    Head(p, FLASH_UPDATE, p.cmd) + PacketBytes(p, k)
  }

  function Updates(p: Params, ks: seq<Packet>): (bodies: seq<seq<byte>>)
    ensures |bodies| == |ks| && forall i :: 0 <= i < |ks| ==> bodies[i] == Update(p, ks[i])
  {
    seq(|ks|, i requires 0 <= i < |ks| => Update(p, ks[i]))
  }

  function Entry(p: Params, s: Segment): (e: seq<byte>)
    ensures |e| == 8
  {
    Le16(p.ansi(s.bytes)) + Be16(s.start % 0x10000) + Be16(|s.bytes| % 0x10000) + Le16(p.rf(s.bytes))
  }

  function Entries(p: Params, segs: seq<Segment>): (s: seq<byte>)
    ensures |s| == 8 * |segs|
    decreases |segs|
  {
    if segs == [] then [] else Entry(p, segs[0]) + Entries(p, segs[1..])
  }

  lemma {:induction false} EntriesAppend(p: Params, a: seq<Segment>, b: seq<Segment>)
    ensures Entries(p, a + b) == Entries(p, a) + Entries(p, b)
  {
    if a == [] {
      assert a + b == b;
    } else {
      EntriesAppend(p, a[1..], b);
      assert (a + b)[1..] == a[1..] + b;
      Assoc(Entry(p, a[0]), Entries(p, a[1..]), Entries(p, b));
    }
  }

  /** The activation buffer: target, requested action, table of segments. */
  function Table(p: Params, segs: seq<Segment>): (s: seq<byte>)
    ensures |s| == 3 + 8 * |segs|
  {
    Be16(p.target) + [p.writeFlag % 256] + Entries(p, segs)
  }

  function Activation(p: Params, segs: seq<Segment>): seq<byte> {
    Head(p, ACTIVATE_FLASH, if p.cmd >= 0x80 then 0x80 + ACTIVATE_FLASH else ACTIVATE_FLASH) + Table(p, segs)
  }

  function PacketsOf(p: Params, recs: seq<Record>): seq<Packet> {
    Pack(p.maxLen, CODE_START, [], Kept(recs))
  }

  function Blank(): Flash {
    seq(MEMORY_SIZE, _ => 255)
  }

  lemma {:induction false} KeptFit(recs: seq<Record>)
    requires AllFit(recs)
    ensures AllFit(Kept(recs))
  {
    if recs != [] {
      assert recs[0].Fits();
      KeptFit(recs[1..]);
    }
  }

  function SegmentsOf(recs: seq<Record>): (segs: seq<Segment>)
    requires AllFit(recs)
    ensures |segs| > 0
  {
    KeptFit(recs);
    Segments(Blank(), CODE_START, CODE_START, Kept(recs))
  }

  /** Where the last of the records ends. */
  function End(last: nat, recs: seq<Record>): nat
    decreases |recs|
  {
    if recs == [] then last else End(recs[0].addr + |recs[0].data|, recs[1..])
  }

  function Commands(p: Params, recs: seq<Record>): seq<seq<byte>>
    requires AllFit(recs)
  {
    (if p.Uploads() then Updates(p, PacketsOf(p, recs)) else []) + [Activation(p, SegmentsOf(recs))]
  }

  /** The return code. */
  function Outcome(p: Params, recs: seq<Record>): (code: int)
    requires AllFit(recs)
    ensures code == 0 <==> End(CODE_START, Kept(recs)) != CODE_START && 8 * |SegmentsOf(recs)| < p.maxLen + 5
  {
    var n := |SegmentsOf(recs)|;
    if n >= 2 && 3 + 8 * (n - 2) >= p.maxLen then 4
    else if End(CODE_START, Kept(recs)) == CODE_START then 3
    else if 3 + 8 * (n - 1) >= p.maxLen then 4
    else 0
  }

  /** The packet in a flash update command. */
  function Received(p: Params, body: seq<byte>): Packet {
    var h := |Head(p, FLASH_UPDATE, p.cmd)|;
    if |body| < h + 4 then Packet(0, []) else Packet(FromBe16(body[h + 2..h + 4]), body[h + 4..])
  }

  function AllReceived(p: Params, bodies: seq<seq<byte>>): seq<Packet> {
    seq(|bodies|, i requires 0 <= i < |bodies| => Received(p, bodies[i]))
  }

  lemma ReceivedIsSent(p: Params, k: Packet)
    requires k.off < MEMORY_SIZE
    ensures Received(p, Update(p, k)) == k
  {
    Be16RoundTrip(k.off);
    BehindHead(Head(p, FLASH_UPDATE, p.cmd), Be16(p.target), Be16(k.off), k.data);
  }

  lemma BehindHead(head: seq<byte>, target: seq<byte>, off: seq<byte>, data: seq<byte>)
    requires |target| == |off| == 2
    ensures var body := head + (target + off + data);
            |body| >= |head| + 4 && body[|head| + 2..|head| + 4] == off && body[|head| + 4..] == data
  {
  }

  /** The address ranges in an activation table. */
  function Ranges(table: seq<byte>): seq<nat> {
    if |table| < 8 then []
    else Span(FromBe16(table[2..4]), FromBe16(table[4..6])) + Ranges(table[8..])
  }

  lemma EntryFields(p: Params, s: Segment, rest: seq<byte>)
    requires s.start < 0x10000 && |s.bytes| < 0x10000
    ensures var t := Entry(p, s) + rest;
            t[2..4] == Be16(s.start) && t[4..6] == Be16(|s.bytes|) && t[8..] == rest
  {
    FourPairs(Le16(p.ansi(s.bytes)), Be16(s.start), Be16(|s.bytes|), Le16(p.rf(s.bytes)), rest);
  }

  lemma FourPairs(a: seq<byte>, b: seq<byte>, c: seq<byte>, d: seq<byte>, rest: seq<byte>)
    requires |a| == |b| == |c| == |d| == 2
    ensures var t := a + b + c + d + rest;
            t[2..4] == b && t[4..6] == c && t[8..] == rest
  {
  }

  predicate AllBounded(segs: seq<Segment>) {
    forall i :: 0 <= i < |segs| ==> segs[i].start < 0x10000 && |segs[i].bytes| < 0x10000
  }

  lemma {:induction false} RangesAreListed(p: Params, segs: seq<Segment>)
    requires AllBounded(segs)
    ensures Ranges(Entries(p, segs)) == Listed(segs)
  {
    if segs != [] {
      var s := segs[0];
      assert s.start < 0x10000 && |s.bytes| < 0x10000;
      RangesAreListed(p, segs[1..]);
      EntryFields(p, s, Entries(p, segs[1..]));
      Be16RoundTrip(s.start);
      Be16RoundTrip(|s.bytes|);
    }
  }

  lemma {:induction false} SegmentsBounded(mem: Flash, start: nat, last: nat, recs: seq<Record>)
    requires CODE_START <= start <= last <= MEMORY_SIZE && AllFit(recs) && start < MEMORY_SIZE
    requires forall i :: 0 <= i < |recs| ==> recs[i].addr >= CODE_START
    ensures AllBounded(Segments(mem, start, last, recs))
    decreases |recs|
  {
    if recs != [] {
      var r := recs[0];
      assert r.Fits() && r.addr >= CODE_START;
      var mem' := Write(mem, r.addr, r.data);
      if r.addr != last {
        SegmentsBounded(mem', r.addr, r.addr + |r.data|, recs[1..]);
      } else {
        SegmentsBounded(mem', start, last + |r.data|, recs[1..]);
      }
    }
  }

  lemma {:induction false} PacketsSmall(p: Params, off: nat, data: seq<byte>, recs: seq<Record>)
    requires p.Sane() && AllFit(recs) && 4 + |data| <= PACKET_SPACE
    ensures Within(Pack(p.maxLen, off, data, recs), PACKET_SPACE)
    decreases |recs|
  {
    if recs != [] {
      var r := recs[0];
      assert r.Fits();
      if 4 + |data| + |r.data| > p.maxLen || r.addr != off + |data| {
        PacketsSmall(p, r.addr, r.data, recs[1..]);
      } else {
        PacketsSmall(p, off, data + r.data, recs[1..]);
      }
    }
  }

  /** The stream cut at its length prefixes gives back the commands. */
  lemma CommandsRecovered(p: Params, recs: seq<Record>)
    requires p.Sane() && AllFit(recs) && Outcome(p, recs) == 0
    ensures Split(Stream(Commands(p, recs))) == Some(Commands(p, recs))
  {
    KeptFit(recs);
    PacketsSmall(p, CODE_START, [], Kept(recs));
    var bodies := Commands(p, recs);
    var ks := PacketsOf(p, recs);
    forall i | 0 <= i < |bodies| ensures |bodies[i]| < 0x10000 {
      if i < |bodies| - 1 {
        assert bodies[i] == Update(p, ks[i]) && 4 + |ks[i].data| <= PACKET_SPACE;
      }
    }
    SplitStream(bodies);
  }

  /** Executing the update commands on any flash does what loading the kept records does. */
  lemma UpdatesLoadRecords(p: Params, recs: seq<Record>, f: Flash)
    requires AllFit(recs)
    ensures AllFit(Kept(recs))
    ensures var ks := AllReceived(p, Updates(p, PacketsOf(p, recs)));
            InFlash(ks) && Execute(f, ks) == Load(f, Kept(recs))
  {
    KeptFit(recs);
    assert Write(f, CODE_START, []) == f;
    PackingPreservesFlash(p.maxLen, f, CODE_START, [], Kept(recs));
    var ks := PacketsOf(p, recs);
    forall i | 0 <= i < |ks| ensures Received(p, Updates(p, ks)[i]) == ks[i] {
      ReceivedIsSent(p, ks[i]);
    }
    assert AllReceived(p, Updates(p, ks)) == ks;
  }

  /** The activation table names the addresses that the kept records write, in order. */
  lemma TableListsRecords(p: Params, recs: seq<Record>)
    requires AllFit(recs)
    ensures Ranges(Entries(p, SegmentsOf(recs))) == Written(Kept(recs))
  {
    KeptFit(recs);
    SegmentsBounded(Blank(), CODE_START, CODE_START, Kept(recs));
    RangesAreListed(p, SegmentsOf(recs));
    SegmentsListRecords(Blank(), CODE_START, CODE_START, Kept(recs));
    assert Span(CODE_START, 0) == [];
  }

  /** What a receiver does with an activation table: for every entry it takes the two checksums over
      the range named, and compares. */
  predicate Checks(p: Params, table: seq<byte>, f: Flash) {
    |table| < 8 ||
    (var start, len := FromBe16(table[2..4]), FromBe16(table[4..6]);
     && start + len <= MEMORY_SIZE
     && table[..2] == Le16(p.ansi(f[start..start + len])) && table[6..8] == Le16(p.rf(f[start..start + len]))
     && Checks(p, table[8..], f))
  }

  lemma {:induction false} EntriesCheck(p: Params, segs: seq<Segment>, f: Flash)
    requires AllBounded(segs) && Describes(segs, f)
    ensures Checks(p, Entries(p, segs), f)
  {
    if segs != [] {
      var s, rest := segs[0], Entries(p, segs[1..]);
      assert s.start < 0x10000 && |s.bytes| < 0x10000 && s.bytes == f[s.start..s.start + |s.bytes|];
      assert Describes(segs[1..], f) by {
        assert forall i :: 0 <= i < |segs[1..]| ==> segs[1..][i] == segs[i + 1];
      }
      EntriesCheck(p, segs[1..], f);
      EntryFields(p, s, rest);
      EntrySums(p, s, rest);
      Be16RoundTrip(s.start);
      Be16RoundTrip(|s.bytes|);
    }
  }

  lemma EntrySums(p: Params, s: Segment, rest: seq<byte>)
    ensures var t := Entry(p, s) + rest;
            t[..2] == Le16(p.ansi(s.bytes)) && t[6..8] == Le16(p.rf(s.bytes))
  {
  }

  lemma SegmentsAreDescribed(p: Params, recs: seq<Record>, f: Flash)
    requires AllFit(recs) && Disjoint(Kept(recs))
    ensures InFlash(PacketsOf(p, recs)) && AllBounded(SegmentsOf(recs))
    ensures Describes(SegmentsOf(recs), Execute(f, PacketsOf(p, recs)))
  {
    KeptFit(recs);
    assert Write(f, CODE_START, []) == f;
    PackingPreservesFlash(p.maxLen, f, CODE_START, [], Kept(recs));
    SegmentsBounded(Blank(), CODE_START, CODE_START, Kept(recs));
    ChecksumsAreFinal(Blank(), f, CODE_START, CODE_START, Kept(recs));
  }

  /** A receiver with any flash that executes the packets and then checks the activation table finds
      every checksum to agree, when no two records overlap. */
  lemma TableChecks(p: Params, recs: seq<Record>, f: Flash)
    requires AllFit(recs) && Disjoint(Kept(recs))
    ensures InFlash(PacketsOf(p, recs))
    ensures Checks(p, Entries(p, SegmentsOf(recs)), Execute(f, PacketsOf(p, recs)))
  {
    SegmentsAreDescribed(p, recs, f);
    EntriesCheck(p, SegmentsOf(recs), Execute(f, PacketsOf(p, recs)));
  }

  lemma UpdatesSnoc(p: Params, ks: seq<Packet>, k: Packet)
    ensures Stream(Updates(p, ks + [k])) == Stream(Updates(p, ks)) + Prefixed(Update(p, k))
  {
    assert Updates(p, ks + [k]) == Updates(p, ks) + [Update(p, k)];
    StreamAppend(Updates(p, ks), [Update(p, k)]);
    assert Stream([Update(p, k)]) == Prefixed(Update(p, k)) + Stream([]);
  }

  lemma PrefixIs(body: seq<byte>, n: nat)
    requires |body| == n < 0x10000
    ensures Prefixed(body) == Be16(n) + body
  {
  }

  /** The writes that put a packet buffer into the stream. */
  method PutUpdate(p: Params, packet: seq<byte>, fws: seq<byte>) returns (out: seq<byte>)
    requires p.Sane() && |packet| <= PACKET_SPACE
    ensures out == fws + Prefixed(Head(p, FLASH_UPDATE, p.cmd) + packet)
  {
    if p.cmd == ON_DEMAND_BROADCAST {
      var n := (|packet| + 1 + 5) % 0x10000 + |p.meta|;
      PrefixIs(Head(p, FLASH_UPDATE, p.cmd) + packet, n);
      out := fws + (Be16(n) + ([p.cmd] + p.dna + p.meta + [FLASH_UPDATE] + packet));
    } else {
      var n := (|packet| + 1) % 0x10000;
      PrefixIs(Head(p, FLASH_UPDATE, p.cmd) + packet, n);
      out := fws + (Be16(n) + ([p.cmd] + packet));
    }
  }

  method PutActivation(p: Params, activate: seq<byte>, fws: seq<byte>) returns (out: seq<byte>)
    requires p.Sane() && |activate| <= PACKET_SPACE
    ensures out == fws + Prefixed(Head(p, ACTIVATE_FLASH,
                                       if p.cmd >= 0x80 then 0x80 + ACTIVATE_FLASH else ACTIVATE_FLASH) + activate)
  {
    var code := if p.cmd >= 0x80 then 0x80 + ACTIVATE_FLASH else ACTIVATE_FLASH;
    if p.cmd == ON_DEMAND_BROADCAST {
      var n := (|activate| + 5 + 1) % 0x10000 + |p.meta|;
      PrefixIs(Head(p, ACTIVATE_FLASH, code) + activate, n);
      out := fws + (Be16(n) + ([p.cmd] + p.dna + p.meta + [ACTIVATE_FLASH] + activate));
    } else {
      var n := (|activate| + 1) % 0x10000;
      PrefixIs(Head(p, ACTIVATE_FLASH, code) + activate, n);
      out := fws + (Be16(n) + ([code] + activate));
    }
  }

  /** Appends the table entry of the memory from `start` up to `last`. */
  method PutEntry(p: Params, activate: seq<byte>, mem: array<byte>, start: nat, last: nat) returns (out: seq<byte>)
    requires mem.Length == MEMORY_SIZE && start <= last <= MEMORY_SIZE
    ensures out == activate + Entry(p, Segment(start, mem[start..last]))
  {
    var block := mem[start..last];
    out := activate + Le16(p.ansi(block));
    out := out + Be16(start % 0x10000);
    out := out + Be16((last - start) % 0x10000);
    out := out + Le16(p.rf(block));
  }

  /** Where the loop of `MakeStream` stands: packets emitted and segments listed so far, the packet
      being collected, and the records still to be read. */
  datatype Cursor = Cursor(sent: seq<Packet>, off: nat, data: seq<byte>, listed: seq<Segment>, start: nat) {
    function Last(): nat { off + |data| }
  }

  /** What is done, followed by what the remaining records call for, is the whole. */
  ghost predicate OnTrack(p: Params, recs: seq<Record>, rest: seq<Record>, mem: Flash, c: Cursor)
    requires AllFit(recs)
  {
    && AllFit(rest)
    && c.off < MEMORY_SIZE && c.start <= c.Last() <= MEMORY_SIZE
    && c.sent + Pack(p.maxLen, c.off, c.data, rest) == PacketsOf(p, recs)
    && c.listed + Segments(mem, c.start, c.Last(), rest) == SegmentsOf(recs)
    && End(c.Last(), rest) == End(CODE_START, Kept(recs))
  }

  lemma AtStart(p: Params, recs: seq<Record>)
    requires AllFit(recs)
    ensures OnTrack(p, recs, Kept(recs), Blank(), Cursor([], CODE_START, [], [], CODE_START))
  {
    KeptFit(recs);
    assert [] + PacketsOf(p, recs) == PacketsOf(p, recs);
    assert [] + SegmentsOf(recs) == SegmentsOf(recs);
  }

  /** The cursor behind record `r`. */
  function Advance(p: Params, c: Cursor, r: Record, mem': Flash): (c': Cursor)
    requires c.start <= c.Last() <= MEMORY_SIZE
    ensures c'.Last() == r.addr + |r.data|
  {
    var full := 4 + |c.data| + |r.data| > p.maxLen || r.addr != c.Last();
    var jump := r.addr != c.Last();
    Cursor(if full then c.sent + [Packet(c.off, c.data)] else c.sent,
           if full then r.addr else c.off,
           if full then r.data else c.data + r.data,
           if jump then c.listed + [Segment(c.start, mem'[c.start..c.Last()])] else c.listed,
           if jump then r.addr else c.start)
  }

  lemma StaysOnTrack(p: Params, recs: seq<Record>, rest: seq<Record>, mem: Flash, c: Cursor)
    requires AllFit(recs) && OnTrack(p, recs, rest, mem, c) && rest != []
    ensures var r := rest[0];
            && r.addr + |r.data| <= MEMORY_SIZE
            && OnTrack(p, recs, rest[1..], Write(mem, r.addr, r.data),
                       Advance(p, c, r, Write(mem, r.addr, r.data)))
  {
    var r := rest[0];
    assert r.Fits();
    var mem' := Write(mem, r.addr, r.data);
    var c' := Advance(p, c, r, mem');
    Assoc(c.sent, [Packet(c.off, c.data)], Pack(p.maxLen, c'.off, c'.data, rest[1..]));
    Assoc(c.listed, [Segment(c.start, mem'[c.start..c.Last()])], Segments(mem', c'.start, c'.Last(), rest[1..]));
  }

  lemma KeptStep(recs: seq<Record>, i: nat)
    requires i < |recs|
    ensures Kept(recs[i..]) == (if recs[i].addr < CODE_START then [] else [recs[i]]) + Kept(recs[i + 1..])
  {
    assert recs[i..][1..] == recs[i + 1..];
  }

  lemma TableGrows(p: Params, segs: seq<Segment>, s: Segment)
    ensures Table(p, segs + [s]) == Table(p, segs) + Entry(p, s)
  {
    EntriesAppend(p, segs, [s]);
    assert Entry(p, s) + [] == Entry(p, s);
    Assoc(Be16(p.target) + [p.writeFlag % 256], Entries(p, segs), Entry(p, s));
  }

  lemma TableFull(p: Params, recs: seq<Record>, rest: seq<Record>, mem: Flash, c: Cursor)
    requires AllFit(recs) && OnTrack(p, recs, rest, mem, c)
    requires rest != [] && rest[0].addr != c.Last() && 3 + 8 * |c.listed| >= p.maxLen
    ensures Outcome(p, recs) == 4
  {
    var r := rest[0];
    assert |Segments(mem, c.start, c.Last(), rest)| >= 2;
  }

  lemma AtEnd(p: Params, recs: seq<Record>, mem: Flash, c: Cursor)
    requires AllFit(recs) && OnTrack(p, recs, [], mem, c)
    ensures PacketsOf(p, recs) == c.sent + [Packet(c.off, c.data)]
    ensures SegmentsOf(recs) == c.listed + [Segment(c.start, mem[c.start..c.Last()])]
    ensures End(CODE_START, Kept(recs)) == c.Last()
  {
  }

  lemma CommandsStream(p: Params, recs: seq<Record>)
    requires AllFit(recs)
    ensures Stream(Commands(p, recs)) ==
            (if p.Uploads() then Stream(Updates(p, PacketsOf(p, recs))) else [])
            + Prefixed(Activation(p, SegmentsOf(recs)))
  {
    var updates := if p.Uploads() then Updates(p, PacketsOf(p, recs)) else [];
    var last := Activation(p, SegmentsOf(recs));
    StreamAppend(updates, [last]);
    assert Stream([last]) == Prefixed(last);
  }

  /** What the buffers hold while `c` is reached. */
  ghost predicate Holds(p: Params, c: Cursor, packet: seq<byte>, activate: seq<byte>, fws: seq<byte>) {
    && packet == PacketBytes(p, Packet(c.off, c.data))
    && activate == Table(p, c.listed)
    && fws == if p.Uploads() then Stream(Updates(p, c.sent)) else []
  }

  lemma PacketGrows(p: Params, off: nat, a: seq<byte>, b: seq<byte>)
    ensures PacketBytes(p, Packet(off, a)) + b == PacketBytes(p, Packet(off, a + b))
  {
    Assoc(Be16(p.target) + Be16(off % 0x10000), a, b);
  }

  /** Sends the packet collected so far and begins a new one at the record, and where that does not go on
      behind the last one, a new entry of the table.  False when the table has no room left. */
  method StartPacket(p: Params, r: Record, mem: array<byte>, packet0: seq<byte>, activate0: seq<byte>, fws0: seq<byte>,
                     lastOffset: nat, lastContiguous0: nat, ghost c: Cursor)
    returns (ok: bool, packet: seq<byte>, activate: seq<byte>, fws: seq<byte>, lastContiguous: nat)
    requires p.Sane() && r.Fits() && mem.Length == MEMORY_SIZE
    requires c.off < MEMORY_SIZE && c.start <= c.Last() <= MEMORY_SIZE
    requires Holds(p, c, packet0, activate0, fws0) && lastOffset == c.Last() && lastContiguous0 == c.start
    requires |packet0| <= PACKET_SPACE
    ensures ok <==> r.addr == c.Last() || 3 + 8 * |c.listed| < p.maxLen
    ensures packet == PacketBytes(p, Packet(r.addr, []))
    ensures ok ==> fws == if p.Uploads() then Stream(Updates(p, c.sent + [Packet(c.off, c.data)])) else []
    ensures ok && r.addr == c.Last() ==> activate == Table(p, c.listed) && lastContiguous == c.start
    ensures ok && r.addr != c.Last() ==>
              && activate == Table(p, c.listed + [Segment(c.start, mem[..][c.start..c.Last()])])
              && lastContiguous == r.addr
  {
    ok, packet, activate, fws, lastContiguous := true, packet0, activate0, fws0, lastContiguous0;
    packet := Be16(p.target) + Be16(r.addr % 0x10000);
    if p.writeFlag < 0x100 {
      UpdatesSnoc(p, c.sent, Packet(c.off, c.data));
      fws := PutUpdate(p, packet0, fws);
    }
    if r.addr != lastOffset {
      if |activate| >= p.maxLen {
        ok := false;
        return;
      }
      TableGrows(p, c.listed, Segment(c.start, mem[..][c.start..c.Last()]));
      activate := PutEntry(p, activate, mem, lastContiguous, lastOffset);
      lastContiguous := r.addr;
    }
  }

  /** Takes one kept record up: the body of the loop from the copy into the memory image on.  False
      when the activation table has no room left. */
  method TakeRecord(p: Params, r: Record, mem: array<byte>, packet0: seq<byte>, activate0: seq<byte>,
                    fws0: seq<byte>, lastOffset0: nat, lastContiguous0: nat, ghost c: Cursor)
    returns (ok: bool, packet: seq<byte>, activate: seq<byte>, fws: seq<byte>, lastOffset: nat, lastContiguous: nat)
    requires p.Sane() && r.Fits() && mem.Length == MEMORY_SIZE
    requires c.off < MEMORY_SIZE && c.start <= c.Last() <= MEMORY_SIZE
    requires Holds(p, c, packet0, activate0, fws0) && lastOffset0 == c.Last() && lastContiguous0 == c.start
    requires |packet0| <= PACKET_SPACE
    modifies mem
    ensures mem[..] == Write(old(mem[..]), r.addr, r.data)
    ensures ok <==> r.addr == c.Last() || 3 + 8 * |c.listed| < p.maxLen
    ensures ok ==>
              var c' := Advance(p, c, r, mem[..]);
              && Holds(p, c', packet, activate, fws) && lastOffset == c'.Last() && lastContiguous == c'.start
              && |packet| <= PACKET_SPACE
  {
    packet, activate, fws, lastOffset, lastContiguous := packet0, activate0, fws0, lastOffset0, lastContiguous0;
    Put(mem, r.addr, r.data);
    if |packet| + |r.data| > p.maxLen || r.addr != lastOffset {
      ok, packet, activate, fws, lastContiguous :=
        StartPacket(p, r, mem, packet, activate, fws, lastOffset, lastContiguous, c);
      if !ok {
        return;
      }
      lastOffset := r.addr;
      PacketGrows(p, r.addr, [], r.data);
      assert [] + r.data == r.data;
    } else {
      PacketGrows(p, c.off, c.data, r.data);
    }
    packet := packet + r.data;
    lastOffset := lastOffset + |r.data|;
    ok := true;
  }

  /** The whole compiler over the parsed records.  The stream of a failing run is a fragment. */
  method MakeStream(p: Params, recs: seq<Record>) returns (code: int, fws: seq<byte>)
    requires p.Sane() && AllFit(recs)
    ensures code == Outcome(p, recs)
    ensures code == 0 ==> fws == Stream(Commands(p, recs))
  {
    var mem := new byte[MEMORY_SIZE](_ => 255);
    assert mem[..] == Blank();
    var activate: seq<byte> := Be16(p.target) + [p.writeFlag % 256];
    var written := true;
    var lastOffset, lastContiguous := CODE_START, CODE_START;
    var packet: seq<byte> := Be16(p.target) + Be16(lastOffset);
    fws := [];
    ghost var c := Cursor([], CODE_START, [], [], CODE_START);
    AtStart(p, recs);
    assert recs[0..] == recs;
    for i := 0 to |recs|
      invariant OnTrack(p, recs, Kept(recs[i..]), mem[..], c)
      invariant Holds(p, c, packet, activate, fws) && lastOffset == c.Last() && lastContiguous == c.start
      invariant |packet| <= PACKET_SPACE
      invariant c.listed != [] ==> 3 + 8 * (|c.listed| - 1) < p.maxLen
      invariant written ==> lastOffset == CODE_START
    {
      var r := recs[i];
      KeptStep(recs, i);
      if r.addr >= CODE_START {
        ghost var rest := Kept(recs[i..]);
        assert rest[0] == r && rest[1..] == Kept(recs[i + 1..]);
        StaysOnTrack(p, recs, rest, mem[..], c);
        if r.addr != c.Last() && 3 + 8 * |c.listed| >= p.maxLen {
          TableFull(p, recs, rest, mem[..], c);
        }
        var ok;
        ok, packet, activate, fws, lastOffset, lastContiguous :=
          TakeRecord(p, r, mem, packet, activate, fws, lastOffset, lastContiguous, c);
        if !ok {
          return 4, fws;
        }
        written := false;
        c := Advance(p, c, r, mem[..]);
      } else {
        assert Kept(recs[i..]) == Kept(recs[i + 1..]);
      }
    }
    code, fws := Finish(p, recs, mem, packet, activate, fws, lastOffset, lastContiguous, written, c);
  }

  /** What `MakeStream` does behind its loop: the last packet, the last table entry, the activation. */
  method Finish(p: Params, ghost recs: seq<Record>, mem: array<byte>, packet: seq<byte>, activate0: seq<byte>,
                fws0: seq<byte>, lastOffset: nat, lastContiguous: nat, written: bool, ghost c: Cursor)
    returns (code: int, fws: seq<byte>)
    requires p.Sane() && AllFit(recs) && mem.Length == MEMORY_SIZE && OnTrack(p, recs, [], mem[..], c)
    requires Holds(p, c, packet, activate0, fws0) && lastOffset == c.Last() && lastContiguous == c.start
    requires |packet| <= PACKET_SPACE && (c.listed != [] ==> 3 + 8 * (|c.listed| - 1) < p.maxLen)
    requires written ==> lastOffset == CODE_START
    ensures code == Outcome(p, recs)
    ensures code == 0 ==> fws == Stream(Commands(p, recs))
  {
    AtEnd(p, recs, mem[..], c);
    fws := fws0;
    if lastOffset == CODE_START {
      return 3, fws;
    }
    if !written && p.writeFlag < 0x100 {
      UpdatesSnoc(p, c.sent, Packet(c.off, c.data));
      fws := PutUpdate(p, packet, fws);
    }
    if |activate0| >= p.maxLen {
      return 4, fws;
    }
    assert |activate0| == 3 + 8 * |c.listed| && |c.listed| <= 14;
    TableGrows(p, c.listed, Segment(c.start, mem[..][c.start..c.Last()]));
    var activate := PutEntry(p, activate0, mem, lastContiguous, lastOffset);
    assert |activate| == |activate0| + 8;
    CommandsStream(p, recs);
    fws := PutActivation(p, activate, fws);
    code := 0;
  }

  /** Which records count: in order, those from the start of the code on. */
  lemma {:induction false} KeptAre(recs: seq<Record>, r: Record)
    ensures Kept([]) == []
    ensures Kept(recs + [r]) == Kept(recs) + (if r.addr < 0x2202 then [] else [r])
    decreases |recs|
  {
    if recs == [] {
      assert [] + [r] == [r];
      assert Kept([r]) == (if r.addr < 0x2202 then [] else [r]) + Kept([]);
    } else {
      KeptAre(recs[1..], r);
      assert (recs + [r])[1..] == recs[1..] + [r];
    }
  }

  /** The return code, spelled out: 4 when the activation table is full before the last entry, else 3 when
      nothing was written behind the start of the code, else 4 when there is no room for the last
      entry. */
  lemma OutcomeMeans(p: Params, recs: seq<Record>)
    requires AllFit(recs)
    ensures var n, kept := |SegmentsOf(recs)|, Kept(recs);
            var last := if kept == [] then 0x2202 else kept[|kept| - 1].addr + |kept[|kept| - 1].data|;
            Outcome(p, recs) == if n >= 2 && 3 + 8 * (n - 2) >= p.maxLen then 4
                                else if last == 0x2202 then 3
                                else if 3 + 8 * (n - 1) >= p.maxLen then 4
                                else 0
  {
    EndIs(CODE_START, Kept(recs));
  }

  lemma {:induction false} EndIs(last: nat, recs: seq<Record>)
    ensures End(last, recs) == if recs == [] then last else recs[|recs| - 1].addr + |recs[|recs| - 1].data|
    decreases |recs|
  {
    if recs != [] {
      EndIs(recs[0].addr + |recs[0].data|, recs[1..]);
    }
  }

  /** Packets are as large as the limit allows: where one goes on behind another, the two together would
      exceed it. */
  lemma {:induction false} PacketsAreMaximal(maxLen: int, off: nat, data: seq<byte>, recs: seq<Record>)
    ensures var ks := Pack(maxLen, off, data, recs);
            && ks[0].off == off && |ks[0].data| >= |data| && ks[0].data[..|data|] == data
            && forall i :: 0 <= i < |ks| - 1 ==>
                 ks[i + 1].off != ks[i].off + |ks[i].data| || 4 + |ks[i].data| + |ks[i + 1].data| > maxLen
    decreases |recs|
  {
    if recs != [] {
      var r := recs[0];
      if 4 + |data| + |r.data| > maxLen || r.addr != off + |data| {
        PacketsAreMaximal(maxLen, r.addr, r.data, recs[1..]);
        var rest := Pack(maxLen, r.addr, r.data, recs[1..]);
        assert Pack(maxLen, off, data, recs) == [Packet(off, data)] + rest;
        assert forall i :: 0 <= i < |rest| ==> ([Packet(off, data)] + rest)[i + 1] == rest[i];
      } else {
        PacketsAreMaximal(maxLen, off, data + r.data, recs[1..]);
        var first := Pack(maxLen, off, data, recs)[0].data;
        assert first[..|data|] == first[..|data + r.data|][..|data|] == data;
      }
    }
  }
}
