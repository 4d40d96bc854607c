/** A receiver of the stream that `MakeStream` of AccessNode/Shared/Utils.cpp writes, byte by byte: whom a
    command is for, what it says, and what becomes of the flash. */
module FlashReceiver {
  import opened Basics
  import opened Bytes
  import opened LengthPrefixed
  import opened FirmwareStream

  /** A command without its wrapping: the DNA target and the headers, if it was wrapped, the code, and the
      rest. */
  datatype Message = Message(dna: seq<byte>, meta: seq<byte>, code: byte, payload: seq<byte>)

  /** Takes a command apart; `n` is how long the headers of a wrapped one are. */
  function Unwrap(body: seq<byte>, n: nat): Option<Message> {
    if body == [] then None
    else if body[0] != 0xA3 then Some(Message([], [], body[0], body[1..]))
    else if |body| < 6 + n then None
    else Some(Message(body[1..5], body[5..5 + n], body[5 + n], body[6 + n..]))
  }

  /** A number of two bytes, the high one first. */
  function Word(s: seq<byte>, at: nat): nat
    requires at + 2 <= |s|
  {
    256 * (s[at] as int) + s[at + 1] as int
  }

  /** What the receiver for target `me` makes of its flash: it obeys a packet that names this target, and
      ignores any other. */
  function Obey(f: Flash, me: nat, payload: seq<byte>): Flash {
    if |payload| < 4 || Word(payload, 0) != me then f
    else
      var off, data := Word(payload, 2), payload[4..];
      if off + |data| > MEMORY_SIZE then f else f[..off] + data + f[off + |data|..]
  }

  function ObeyAll(f: Flash, me: nat, bodies: seq<seq<byte>>, n: nat): Flash
    decreases |bodies|
  {
    if bodies == [] then f
    else
      var m := Unwrap(bodies[0], n);
      ObeyAll(if m == None then f else Obey(f, me, m.value.payload), me, bodies[1..], n)
  }

  /** What was wrapped comes out of its wrapping. */
  lemma HeadUnwraps(p: Params, wrapped: byte, direct: byte, payload: seq<byte>)
    requires p.cmd != 0xA3 ==> direct != 0xA3
    ensures Unwrap(Head(p, wrapped, direct) + payload, |p.meta|)
         == Some(if p.cmd == 0xA3 then Message(p.dna, p.meta, wrapped, payload) else Message([], [], direct, payload))
  {
    if p.cmd == 0xA3 {
      WrappedUnwraps(Head(p, wrapped, direct) + payload, p.dna, p.meta, wrapped, payload);
    } else {
      assert ([direct] + payload)[1..] == payload;
    }
  }

  lemma WrappedUnwraps(body: seq<byte>, dna: seq<byte>, meta: seq<byte>, code: byte, payload: seq<byte>)
    requires |dna| == 4 && body == [0xA3] + dna + meta + [code] + payload
    ensures Unwrap(body, |meta|) == Some(Message(dna, meta, code, payload))
  {
    var n := |meta|;
    assert body[1..5] == dna && body[5..5 + n] == meta && body[6 + n..] == payload;
  }

  lemma PacketWords(p: Params, k: Packet)
    requires k.off < 0x10000
    ensures var s := PacketBytes(p, k);
            Word(s, 0) == p.target && Word(s, 2) == k.off && s[4..] == k.data
  {
  }

  /** An update command: its code, for whom it is, where its data goes and the data. */
  lemma UpdateSays(p: Params, k: Packet)
    requires k.off < 0x10000
    ensures var m := Unwrap(Update(p, k), |p.meta|);
            && m.Some? && |m.value.payload| >= 4
            && (if p.cmd == 0xA3 then m.value.dna == p.dna && m.value.meta == p.meta && m.value.code == 0x21
                else m.value.code == p.cmd)
            && Word(m.value.payload, 0) == p.target && Word(m.value.payload, 2) == k.off && m.value.payload[4..] == k.data
  {
    HeadUnwraps(p, 0x21, p.cmd, PacketBytes(p, k));
    PacketWords(p, k);
  }

  /** The activation command: its code, for whom it is, the action asked for, and the table. */
  lemma ActivationSays(p: Params, segs: seq<Segment>)
    ensures var m := Unwrap(Activation(p, segs), |p.meta|);
            && m.Some? && |m.value.payload| >= 3
            && (if p.cmd == 0xA3 then m.value.dna == p.dna && m.value.meta == p.meta && m.value.code == 0x22
                else m.value.code == if p.cmd >= 0x80 then 0xA2 else 0x22)
            && Word(m.value.payload, 0) == p.target && m.value.payload[2] == p.writeFlag % 256
            && m.value.payload[3..] == Entries(p, segs)
  {
    HeadUnwraps(p, 0x22, if p.cmd >= 0x80 then 0x80 + 0x22 else 0x22, Table(p, segs));
  }

  /** A table entry: the first checksum, low byte first, the start and the length, high byte first, and the
      second checksum, low byte first. */
  lemma EntrySays(p: Params, s: Segment)
    requires s.start < 0x10000 && |s.bytes| < 0x10000
    ensures var e := Entry(p, s);
            && |e| == 8
            && (e[0] as int) + 256 * (e[1] as int) == p.ansi(s.bytes) && Word(e, 2) == s.start && Word(e, 4) == |s.bytes|
            && (e[6] as int) + 256 * (e[7] as int) == p.rf(s.bytes)
  {
  }

  lemma {:induction false} EntryAt(p: Params, segs: seq<Segment>, i: nat)
    requires i < |segs|
    ensures Entries(p, segs)[8 * i..8 * i + 8] == Entry(p, segs[i])
  {
    var rest := Entries(p, segs[1..]);
    assert Entries(p, segs) == Entry(p, segs[0]) + rest;
    if i > 0 {
      EntryAt(p, segs[1..], i - 1);
      assert Entries(p, segs)[8 * i..8 * i + 8] == rest[8 * (i - 1)..8 * (i - 1) + 8];
    }
  }

  /** The table that the activation of an upload carries has 8 bytes for every segment, and they name it. */
  lemma TableSays(p: Params, recs: seq<Record>, i: nat)
    requires AllFit(recs) && i < |SegmentsOf(recs)|
    ensures var s, table := SegmentsOf(recs)[i], Entries(p, SegmentsOf(recs));
            && |table| == 8 * |SegmentsOf(recs)|
            && Word(table, 8 * i + 2) == s.start && Word(table, 8 * i + 4) == |s.bytes|
            && (table[8 * i] as int) + 256 * (table[8 * i + 1] as int) == p.ansi(s.bytes)
            && (table[8 * i + 6] as int) + 256 * (table[8 * i + 7] as int) == p.rf(s.bytes)
  {
    var segs := SegmentsOf(recs);
    KeptFit(recs);
    SegmentsBounded(Blank(), CODE_START, CODE_START, Kept(recs));
    EntryAt(p, segs, i);
    EntrySays(p, segs[i]);
    var table, e := Entries(p, segs), Entry(p, segs[i]);
    assert forall j :: 0 <= j < 8 ==> table[8 * i + j] == table[8 * i..8 * i + 8][j] == e[j];
  }

  lemma ObeyIsWrite(p: Params, f: Flash, me: nat, k: Packet)
    requires k.off < MEMORY_SIZE && k.off + |k.data| <= MEMORY_SIZE
    ensures Obey(f, me, PacketBytes(p, k)) == if me == p.target then Write(f, k.off, k.data) else f
  {
    PacketWords(p, k);
  }

  lemma {:induction false} ObeyAllExecutes(p: Params, f: Flash, me: nat, ks: seq<Packet>)
    requires InFlash(ks)
    ensures ObeyAll(f, me, Updates(p, ks), |p.meta|) == if me == p.target then Execute(f, ks) else f
    decreases |ks|
  {
    if ks != [] {
      HeadUnwraps(p, 0x21, p.cmd, PacketBytes(p, ks[0]));
      ObeyIsWrite(p, f, me, ks[0]);
      assert Updates(p, ks)[1..] == Updates(p, ks[1..]);
      ObeyAllExecutes(p, if me == p.target then Write(f, ks[0].off, ks[0].data) else f, me, ks[1..]);
    }
  }

  /** From end to end.  The stream splits into commands; the last is the activation; the others, which are
      there exactly if the write flag asks for an upload, are updates for the target that was given.
      A receiver for that target that executes them has the kept records in its flash, whatever the
      flash held; one for any other target is left as it was. */
  lemma StreamIsObeyed(p: Params, recs: seq<Record>, f: Flash, me: nat)
    requires p.Sane() && AllFit(recs) && Outcome(p, recs) == 0
    ensures AllFit(Kept(recs))
    ensures var bodies := Split(Stream(Commands(p, recs)));
            && bodies.Some? && |bodies.value| >= 1
            && var updates := bodies.value[..|bodies.value| - 1];
               && bodies.value[|bodies.value| - 1] == Activation(p, SegmentsOf(recs))
               && (p.writeFlag >= 256 ==> updates == [])
               && (p.writeFlag < 256 ==>
                     ObeyAll(f, me, updates, |p.meta|) == if me == p.target then Load(f, Kept(recs)) else f)
  {
    CommandsRecovered(p, recs);
    UpdatesLoadRecords(p, recs, f);
    KeptFit(recs);
    PackFits(p.maxLen, CODE_START, [], Kept(recs));
    assert Write(f, CODE_START, []) == f;
    PackingPreservesFlash(p.maxLen, f, CODE_START, [], Kept(recs));
    ObeyAllExecutes(p, f, me, PacketsOf(p, recs));
    var front := if p.Uploads() then Updates(p, PacketsOf(p, recs)) else [];
    assert Commands(p, recs) == front + [Activation(p, SegmentsOf(recs))];
    assert Commands(p, recs)[..|front|] == front;
  }

  /** Every update in the stream says what `UpdateSays` says. */
  lemma UpdatesSay(p: Params, recs: seq<Record>, i: nat)
    requires AllFit(recs) && i < |Updates(p, PacketsOf(p, recs))|
    ensures var m := Unwrap(Updates(p, PacketsOf(p, recs))[i], |p.meta|);
            && m.Some? && |m.value.payload| >= 4 && Word(m.value.payload, 0) == p.target
            && (if p.cmd == 0xA3 then m.value.dna == p.dna && m.value.meta == p.meta && m.value.code == 0x21
                else m.value.code == p.cmd)
  {
    KeptFit(recs);
    PackFits(p.maxLen, CODE_START, [], Kept(recs));
    var k := PacketsOf(p, recs)[i];
    assert k.off < MEMORY_SIZE;
    UpdateSays(p, k);
  }

  /** What loading does to each byte of the flash: the last record that covers it counts. */
  lemma {:induction false} LoadedBytes(f: Flash, recs: seq<Record>, r: Record, x: nat)
    requires AllFit(recs) && r.Fits() && x < MEMORY_SIZE
    ensures AllFit(recs + [r])
    ensures Load(f, recs + [r])[x] == if r.addr <= x < r.addr + |r.data| then r.data[x - r.addr] else Load(f, recs)[x]
    ensures Load(f, []) == f
    decreases |recs|
  {
    assert AllFit(recs + [r]);
    if recs == [] {
      assert recs + [r] == [r];
      assert Load(f, [r]) == Load(Write(f, r.addr, r.data), []);
    } else {
      LoadedBytes(Write(f, recs[0].addr, recs[0].data), recs[1..], r, x);
      assert (recs + [r])[1..] == recs[1..] + [r];
    }
  }
}
