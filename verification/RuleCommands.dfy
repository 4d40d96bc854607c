/** Commands of a rule: `validateCommand` (AccessNode/Shared/RuleDefFile.cpp) packs them into the
    rule's event record, `getCommandFromEvent` (AccessNode/EventsScheduler/AppS.cpp) turns the record
    into the bytes sent to the controller. */
module RuleCommands {
  import opened Basics
  import opened Bytes
  import opened LengthPrefixed

  const LINKED: byte := 0xFF
  const WRITE_IN_FLASH: byte := 0x11
  const ROOM: nat := 256
  const REG_SPACE: nat := 512
  const MAX_PACKET: nat := 32

  datatype Command = Command(code: byte, data: seq<byte>) {
    function Body(): seq<byte> { [code] + data }
  }

  function Bodies(cmds: seq<Command>): seq<seq<byte>> {
    if cmds == [] then [] else [cmds[0].Body()] + Bodies(cmds[1..])
  }

  /** What the controller is to receive: the commands one after the other. */
  function WireOf(cmds: seq<Command>): seq<byte> {
    Stream(Bodies(cmds))
  }

  /** The room that linked commands take in the message buffer. */
  function Cost(cmds: seq<Command>): nat {
    if cmds == [] then 0 else |cmds[0].data| + 3 + Cost(cmds[1..])
  }

  predicate Accepted(cmds: seq<Command>) {
    if |cmds| == 1 then |cmds[0].data| <= ROOM else |cmds| > 0 && Cost(cmds) <= ROOM
  }

  lemma {:induction false} CostIsWire(cmds: seq<Command>)
    ensures Cost(cmds) == |WireOf(cmds)|
  {
    if cmds != [] {
      CostIsWire(cmds[1..]);
    }
  }

  /** Which lists of commands a rule can hold: one with up to 256 bytes of data, or several that with
      their lengths make up to 256 bytes. */
  lemma AcceptedMeans(cmds: seq<Command>)
    ensures Accepted(cmds) <==> (|cmds| == 1 && |cmds[0].data| <= 256) || (|cmds| >= 2 && |WireOf(cmds)| <= 256)
  {
    CostIsWire(cmds);
  }

  lemma {:induction false} BodiesAppend(a: seq<Command>, b: seq<Command>)
    ensures Bodies(a + b) == Bodies(a) + Bodies(b)
  {
    if a == [] {
      assert a + b == b;
    } else {
      BodiesAppend(a[1..], b);
      assert (a + b)[1..] == a[1..] + b;
    }
  }

  lemma WireSnoc(cmds: seq<Command>, c: Command)
    ensures WireOf(cmds + [c]) == WireOf(cmds) + Prefixed(c.Body())
  {
    BodiesAppend(cmds, [c]);
    StreamAppend(Bodies(cmds), [c.Body()]);
    assert Bodies([c]) == [c.Body()];
    assert Stream([c.Body()]) == Prefixed(c.Body()) + Stream([]);
  }

  lemma {:induction false} CostSnoc(cmds: seq<Command>, c: Command)
    ensures Cost(cmds + [c]) == Cost(cmds) + |c.data| + 3
  {
    if cmds != [] {
      CostSnoc(cmds[1..], c);
      assert (cmds + [c])[1..] == cmds[1..] + [c];
    } else {
      assert ([c])[1..] == [];
    }
  }

  lemma {:induction false} CostOfPart(a: seq<Command>, b: seq<Command>)
    ensures Cost(a) <= Cost(a + b)
  {
    if a != [] {
      CostOfPart(a[1..], b);
      assert (a + b)[1..] == a[1..] + b;
    }
  }

  lemma OneMore(cmds: seq<Command>, i: nat)
    requires i < |cmds|
    ensures WireOf(cmds[..i + 1]) == WireOf(cmds[..i]) + Prefixed(cmds[i].Body())
    ensures Cost(cmds[..i + 1]) == Cost(cmds[..i]) + |cmds[i].data| + 3 <= Cost(cmds)
    ensures i == 0 ==> WireOf(cmds[..1]) == Prefixed(cmds[0].Body())
  {
    assert cmds[..i + 1] == cmds[..i] + [cmds[i]];
    WireSnoc(cmds[..i], cmds[i]);
    CostSnoc(cmds[..i], cmds[i]);
    CostOfPart(cmds[..i + 1], cmds[i + 1..]);
    assert cmds[..i + 1] + cmds[i + 1..] == cmds;
  }

  /** What the receiver reads back: a linked command splits into its parts again. */
  lemma LinkedSplits(cmds: seq<Command>)
    requires Cost(cmds) <= ROOM
    ensures Split(WireOf(cmds)) == Some(Bodies(cmds))
  {
    BodiesShort(cmds);
    SplitStream(Bodies(cmds));
  }

  lemma {:induction false} BodiesShort(cmds: seq<Command>)
    requires Cost(cmds) <= ROOM
    ensures AllShort(Bodies(cmds))
  {
    if cmds != [] {
      BodiesShort(cmds[1..]);
    }
  }

  function ChunkLen(n: nat): nat {
    if n < MAX_PACKET then n else MAX_PACKET
  }

  /** One flash-write command: code, offset, at most 32 bytes. */
  function Chunk(off: nat, data: seq<byte>): seq<byte> {
    [WRITE_IN_FLASH] + Be16(off % 0x10000) + data
  }

  /** The flash-write commands for `payload`, which starts at offset `off`. */
  function Chunks(payload: seq<byte>, off: nat): seq<seq<byte>>
    decreases |payload|
  {
    if payload == [] then []
    else
      var n := ChunkLen(|payload|);
      [Chunk(off, payload[..n])] + Chunks(payload[n..], off + n)
  }

  /** Where a flash-write command writes. */
  function OffsetIn(b: seq<byte>): nat
    requires |b| >= 3
  {
    256 * (b[1] as int) + b[2] as int
  }

  /** What the controller's flash region becomes by executing one command: only one with the code 0x11 is
      a flash write, any other leaves the region alone. */
  function ExecuteOne(region: seq<byte>, b: seq<byte>): seq<byte> {
    if |b| < 3 || b[0] != 0x11 || OffsetIn(b) + |b[3..]| > |region| then region
    else region[..OffsetIn(b)] + b[3..] + region[OffsetIn(b) + |b[3..]|..]
  }

  /** And by executing one after the other. */
  function Executed(region: seq<byte>, bodies: seq<seq<byte>>): seq<byte>
    decreases |bodies|
  {
    if bodies == [] then region else Executed(ExecuteOne(region, bodies[0]), bodies[1..])
  }

  lemma ChunkFields(off: nat, data: seq<byte>)
    requires off < 0x10000
    ensures var b := Chunk(off, data);
            |b| == 3 + |data| && b[0] == 0x11 && OffsetIn(b) == off && b[3..] == data
  {
  }

  lemma ExecuteFirst(region: seq<byte>, all: seq<seq<byte>>, b: seq<byte>, rest: seq<seq<byte>>)
    requires all != [] && all[0] == b && all[1..] == rest
    ensures Executed(region, all) == Executed(ExecuteOne(region, b), rest)
  {
  }

  lemma OneChunk(region: seq<byte>, off: nat, data: seq<byte>)
    requires off + |data| <= |region| <= 0x10000 && data != []
    ensures ExecuteOne(region, Chunk(off, data)) == region[..off] + data + region[off + |data|..]
  {
    ChunkFields(off, data);
  }

  lemma PlaceChunk(region: seq<byte>, done: seq<byte>, part: seq<byte>)
    requires |done| + |part| <= |region| && region[..|done|] == done
    ensures var region' := region[..|done|] + part + region[|done| + |part|..];
            |region'| == |region| && region'[..|done + part|] == done + part
  {
  }

  lemma ChunksSplit(payload: seq<byte>, off: nat, n: nat)
    requires payload != [] && n == ChunkLen(|payload|)
    ensures Chunks(payload, off) != [] && Chunks(payload, off)[0] == Chunk(off, payload[..n])
    ensures Chunks(payload, off)[1..] == Chunks(payload[n..], off + n)
  {
  }

  /** Executing the first of the commands for a payload. */
  lemma ExecuteStep(payload: seq<byte>, done: seq<byte>, region: seq<byte>, n: nat) returns (region': seq<byte>)
    requires payload != [] && n == ChunkLen(|payload|) && |done| + |payload| == |region| <= 0x10000
    requires region[..|done|] == done
    ensures Executed(region, Chunks(payload, |done|)) == Executed(region', Chunks(payload[n..], |done| + n))
    ensures |region'| == |region| && region'[..|done| + n] == done + payload[..n]
  {
    var part := payload[..n];
    region' := region[..|done|] + part + region[|done| + n..];
    ChunksSplit(payload, |done|, n);
    OneChunk(region, |done|, part);
    ExecuteFirst(region, Chunks(payload, |done|), Chunk(|done|, part), Chunks(payload[n..], |done| + n));
    PlaceChunk(region, done, part);
  }

  /** The commands carry the whole payload to where it belongs: executing them on any region of the
      payload's size leaves the payload there. */
  lemma {:induction false} ChunksWritePayload(payload: seq<byte>, done: seq<byte>, region: seq<byte>)
    requires |done| + |payload| == |region| <= 0x10000 && region[..|done|] == done
    ensures Executed(region, Chunks(payload, |done|)) == done + payload
    decreases |payload|
  {
    if payload == [] {
      assert region == region[..|done|] && done + payload == done;
    } else {
      var n := ChunkLen(|payload|);
      var part, rest := payload[..n], payload[n..];
      var region' := ExecuteStep(payload, done, region, n);
      ChunksWritePayload(rest, done + part, region');
      Assoc(done, part, rest);
      assert part + rest == payload;
    }
  }

  /** Command `i` is a flash write of the 32 bytes at 32 * i, or of what is left there. */
  lemma {:induction false} ChunkAt(payload: seq<byte>, off: nat, i: nat)
    requires off + |payload| <= 0x10000
    ensures |Chunks(payload, off)| == (|payload| + 31) / 32
    ensures 32 * i < |payload| ==>
              var b := Chunks(payload, off)[i];
              && |b| >= 3 && b[0] == 0x11 && OffsetIn(b) == off + 32 * i
              && b[3..] == if 32 * i + 32 <= |payload| then payload[32 * i..32 * i + 32] else payload[32 * i..]
    decreases |payload|
  {
    if payload != [] {
      var n := ChunkLen(|payload|);
      ChunksSplit(payload, off, n);
      ChunkFields(off, payload[..n]);
      ChunkAt(payload[n..], off + n, if i == 0 then 0 else i - 1);
    }
  }

  lemma {:induction false} ChunksSize(payload: seq<byte>, off: nat)
    ensures |Stream(Chunks(payload, off))| == |payload| + 5 * ((|payload| + MAX_PACKET - 1) / MAX_PACKET)
    ensures AllShort(Chunks(payload, off))
    decreases |payload|
  {
    if payload != [] {
      ChunksSize(payload[ChunkLen(|payload|)..], off + ChunkLen(|payload|));
    }
  }

  /** The answer to a write-in-flash command, given the file it names. */
  function FlashStream(file: Option<seq<byte>>): Option<seq<byte>> {
    match file
    case None => None
    case Some(s) =>
      if |s| < REG_SPACE || |s| > REG_SPACE / 5 * MAX_PACKET then None
      else Some(Stream(Chunks(s[REG_SPACE..], 0)))
  }

  /** Which files are sent, and as what: the bytes behind the first 512, in commands that name where
      each 32 of them go. */
  lemma FlashCommands(file: Option<seq<byte>>)
    ensures FlashStream(file).Some? <==> file.Some? && 512 <= |file.value| <= 3264
    ensures FlashStream(file).Some? ==>
              Split(FlashStream(file).value) == Some(Chunks(file.value[512..], 0))
  {
    if FlashStream(file).Some? {
      ChunksSize(file.value[512..], 0);
      SplitStream(Chunks(file.value[512..], 0));
    }
  }

  /** The bytes of a command: its length, the high byte first, its code and its data. */
  lemma WireBytes(c: Command, rest: seq<Command>)
    requires |c.data| < 0xFFFF
    ensures WireOf([c] + rest) == [(|c.data| + 1) / 256, (|c.data| + 1) % 256, c.code] + c.data + WireOf(rest)
    ensures WireOf([]) == []
  {
    assert ([c] + rest)[1..] == rest;
    assert Prefixed(c.Body()) == [(|c.data| + 1) / 256, (|c.data| + 1) % 256, c.code] + c.data;
  }

  /** The flash commands never outgrow the file they come from, they split into their parts again, and
      executing them programs the file behind its register space. */
  lemma FlashStreamMeans(file: seq<byte>)
    requires FlashStream(Some(file)).Some?
    ensures var out := FlashStream(Some(file)).value;
            && |out| <= |file|
            && Split(out).Some?
            && forall region: seq<byte> :: |region| == |file| - REG_SPACE ==>
                 Executed(region, Split(out).value) == file[REG_SPACE..]
  {
    var payload := file[REG_SPACE..];
    ChunksSize(payload, 0);
    SplitStream(Chunks(payload, 0));
    forall region: seq<byte> | |region| == |payload| ensures Executed(region, Chunks(payload, 0)) == payload {
      ChunksWritePayload(payload, [], region);
      assert [] + payload == payload;
    }
  }

  function ChunkHead(n: nat, off: nat): (s: seq<byte>)
    requires n + 3 < 0x10000
    ensures |s| == 5
  {
    Be16(n + 3) + ([WRITE_IN_FLASH] + Be16(off % 0x10000))
  }

  lemma ChunkBytes(off: nat, data: seq<byte>)
    requires |data| <= MAX_PACKET
    ensures Prefixed(Chunk(off, data)) == ChunkHead(|data|, off) + data
  {
    assert |Chunk(off, data)| == |data| + 3;
    Assoc(Be16(|data| + 3), [WRITE_IN_FLASH] + Be16(off % 0x10000), data);
  }

  method PutHead(a: array<byte>, i: nat, n: nat, off: nat)
    requires i + 5 <= a.Length && n <= MAX_PACKET
    modifies a
    ensures a[i..i + 5] == ChunkHead(n, off)
    ensures forall k :: 0 <= k < i || i + 5 <= k < a.Length ==> a[k] == old(a[k])
  {
    a[i], a[i + 1] := (n + 3) / 256, (n + 3) % 256;
    a[i + 2] := WRITE_IN_FLASH;
    a[i + 3], a[i + 4] := off % 0x10000 / 256, off % 0x10000 % 256;
    ghost var head := ChunkHead(n, off);
    assert a[i] == head[0] && a[i + 1] == head[1] && a[i + 2] == head[2] && a[i + 3] == head[3] && a[i + 4] == head[4];
  }

  /** Writes the command for the `n` bytes at `j` at `i`, in the same buffer. */
  method PutChunk(a: array<byte>, i: nat, j: nat, n: nat, ghost out: seq<byte>)
    requires i + 5 + n <= j && j + n <= a.Length && j >= REG_SPACE && n <= MAX_PACKET
    requires out == Prefixed(Chunk(j - REG_SPACE, a[j..j + n]))
    modifies a
    ensures forall k :: i <= k < i + 5 + n ==> a[k] == out[k - i]
    ensures forall k :: 0 <= k < i || i + 5 + n <= k < a.Length ==> a[k] == old(a[k])
  {
    ghost var data := a[j..j + n];
    ChunkBytes(j - REG_SPACE, data);
    PutHead(a, i, n, j - REG_SPACE);
    assert a[j..j + n] == data;
    ghost var head := a[i..i + 5];
    MemCpy(a, i + 5, j, n);
    assert a[i..i + 5] == head;
    forall k | i <= k < i + 5 + n ensures a[k] == out[k - i] {
      if k < i + 5 {
        assert a[i..i + 5][k - i] == head[k - i];
      } else {
        assert a[i + 5..i + 5 + n][k - i - 5] == data[k - i - 5];
      }
    }
  }

  /** What is still to be written when the file is expanded up to `j`. */
  function Rest(file: seq<byte>, j: nat): seq<byte>
    requires j >= REG_SPACE
  {
    if j < |file| then Stream(Chunks(file[j..], j - REG_SPACE)) else []
  }

  lemma FirstChunk(payload: seq<byte>, off: nat, n: nat, first: seq<byte>, more: seq<byte>)
    requires payload != [] && n == ChunkLen(|payload|) && first == payload[..n] && more == payload[n..]
    ensures Stream(Chunks(payload, off)) == Prefixed(Chunk(off, first)) + Stream(Chunks(more, off + n))
  {
    ChunksSplit(payload, off, n);
  }

  lemma RestBehind(file: seq<byte>, j: nat, n: nat, more: seq<byte>)
    requires REG_SPACE <= j < |file| && n == ChunkLen(|file| - j) && more == file[j + n..]
    ensures Rest(file, j + MAX_PACKET) == Stream(Chunks(more, j - REG_SPACE + n))
  {
    if |file| - j <= MAX_PACKET {
      assert more == [];
    }
  }

  lemma RestFrom(file: seq<byte>, j: nat, payload: seq<byte>)
    requires REG_SPACE <= j < |file| && payload == file[j..]
    ensures Rest(file, j) == Stream(Chunks(payload, j - REG_SPACE))
  {
  }

  lemma CutTwice(file: seq<byte>, j: nat, n: nat)
    requires j + n <= |file|
    ensures file[j..][..n] == file[j..j + n] && file[j..][n..] == file[j + n..]
  {
  }

  lemma NextChunk(file: seq<byte>, j: nat, n: nat)
    requires REG_SPACE <= j < |file| && n == ChunkLen(|file| - j)
    ensures Rest(file, j) == Prefixed(Chunk(j - REG_SPACE, file[j..j + n])) + Rest(file, j + MAX_PACKET)
  {
    var payload, first, more := file[j..], file[j..j + n], file[j + n..];
    CutTwice(file, j, n);
    RestFrom(file, j, payload);
    FirstChunk(payload, j - REG_SPACE, n, first, more);
    RestBehind(file, j, n, more);
  }

  lemma CutFront(total: seq<byte>, i: nat, front: seq<byte>, rest: seq<byte>)
    requires i <= |total| && total[i..] == front + rest
    ensures i + |front| <= |total| && total[i + |front|..] == rest
    ensures forall k :: i <= k < i + |front| ==> total[k] == front[k - i]
  {
    assert total[i..][|front|..] == rest;
    assert forall k :: i <= k < i + |front| ==> total[k] == total[i..][k - i];
  }

  /** The next command to be written, and where the result goes on behind it. */
  lemma NextOut(file: seq<byte>, j: nat, total: seq<byte>, i: nat, n: nat) returns (out: seq<byte>)
    requires REG_SPACE <= j < |file| && n == ChunkLen(|file| - j)
    requires i <= |total| && total[i..] == Rest(file, j)
    ensures out == Prefixed(Chunk(j - REG_SPACE, file[j..j + n])) && |out| == 5 + n
    ensures i + 5 + n <= |total| && total[i + 5 + n..] == Rest(file, j + MAX_PACKET)
    ensures forall k :: i <= k < i + 5 + n ==> total[k] == out[k - i]
  {
    NextChunk(file, j, n);
    out := Prefixed(Chunk(j - REG_SPACE, file[j..j + n]));
    CutFront(total, i, out, Rest(file, j + MAX_PACKET));
  }

  lemma RestOfAll(file: seq<byte>)
    requires REG_SPACE <= |file| <= REG_SPACE / 5 * MAX_PACKET
    ensures FlashStream(Some(file)) == Some(Rest(file, REG_SPACE))
  {
  }

  /** The in-place expansion of a file of accepted size: every copy is between stretches that do not
      overlap, and no byte of the payload is overwritten before it is copied. */
  method ExpandInPlace(a: array<byte>, len: nat) returns (i: nat)
    requires REG_SPACE <= len <= REG_SPACE / 5 * MAX_PACKET && len <= a.Length
    modifies a
    ensures i <= len
    ensures Some(a[..i]) == FlashStream(Some(old(a[..len])))
  {
    ghost var file := a[..len];
    ghost var total := Rest(file, REG_SPACE);
    RestOfAll(file);
    i := 0;
    assert total[0..] == total;
    var j := REG_SPACE;
    var left: int := len - REG_SPACE;
    while left > 0
      invariant left == len - j && j >= REG_SPACE && 32 * i <= 37 * (j - REG_SPACE)
      invariant left + MAX_PACKET > 0 && i <= a.Length && i <= |total|
      invariant forall m :: j <= m < len ==> a[m] == file[m]
      invariant forall m :: 0 <= m < i ==> a[m] == total[m]
      invariant total[i..] == Rest(file, j)
    {
      var n := if MAX_PACKET < left then MAX_PACKET else left;
      ghost var out := NextOut(file, j, total, i, n);
      assert a[j..j + n] == file[j..j + n];
      PutChunk(a, i, j, n, out);
      i := i + n + 5;
      left := left - MAX_PACKET;
      j := j + MAX_PACKET;
    }
    assert |total| == i + |total[i..]|;
    assert a[..i] == total;
  }

  lemma PrefixedAt(code: byte, data: seq<byte>)
    requires |data| + 1 < 0x10000
    ensures Prefixed([code] + data) == Be16(|data| + 1) + [code] + data
  {
    Assoc(Be16(|data| + 1), [code], data);
  }

  /** How an event carries a list of commands. */
  predicate Carries(nodeCommand: byte, msgLen: int, msg: seq<byte>, cmds: seq<Command>) {
    && cmds != [] && |msg| == ROOM
    && if |cmds| == 1 then
         var c := cmds[0];
         |c.data| <= ROOM && nodeCommand == c.code && msgLen == |c.data| + 1 && msg[..|c.data|] == c.data
       else
         nodeCommand == LINKED && msgLen == Cost(cmds) <= ROOM && msg[..msgLen] == WireOf(cmds)
  }

  /** The part of an event record that holds its commands. */
  class Event {
    var nodeCommand: byte
    var msgLen: int
    const message: array<byte>

    constructor (m: array<byte>)
      requires m.Length == ROOM
      ensures message == m
    {
      message := m;
      nodeCommand := 0;
      msgLen := 0;
    }

    /** Makes room in front of the one command held so far and writes its length and code there. */
    method Shift() returns (p: nat)
      requires message.Length == ROOM && 1 <= msgLen && msgLen + 3 <= ROOM
      modifies message
      ensures p == msgLen + 2
      ensures message[..p] == Prefixed([nodeCommand] + old(message[..msgLen - 1]))
    {
      ghost var data := message[..msgLen - 1];
      MemMove(message, 3, 0, msgLen);
      p := msgLen + 2;
      assert message[3..p] == message[3..3 + msgLen][..msgLen - 1] == data;
      message[2] := nodeCommand;
      message[0], message[1] := msgLen / 256, msgLen % 256;
      assert message[3..p] == data;
      assert message[..p] == message[..3] + message[3..p];
      assert message[..3] == Be16(|data| + 1) + [nodeCommand];
      PrefixedAt(nodeCommand, data);
    }

    /** Writes one linked command at `p`. */
    method Append(p: nat, c: Command) returns (q: nat)
      requires message.Length == ROOM && p + 3 + |c.data| <= ROOM
      modifies message
      ensures q == p + 3 + |c.data|
      ensures message[..q] == old(message[..p]) + Prefixed(c.Body())
    {
      var n := |c.data| + 1;
      message[p], message[p + 1] := n / 256, n % 256;
      message[p + 2] := c.code;
      Put(message, p + 3, c.data);
      q := p + 3 + |c.data|;
    }

    /** Takes the first command up, which may be the only one. */
    method PutFirst(c: Command)
      requires message.Length == ROOM && |c.data| <= ROOM
      modifies this, message
      ensures Carries(nodeCommand, msgLen, message[..], [c])
    {
      nodeCommand := c.code;
      Put(message, 0, c.data);
      msgLen := |c.data| + 1;
    }

    /** Takes a further command up, behind the commands `done`. */
    method Link(p: nat, ghost done: seq<Command>, c: Command, second: bool) returns (q: nat)
      requires message.Length == ROOM && Cost(done) + |c.data| + 3 <= ROOM && second == (|done| == 1)
      requires if second then Carries(nodeCommand, msgLen, message[..], done)
               else p == Cost(done) && message[..p] == WireOf(done)
      modifies message
      ensures q == Cost(done + [c]) <= ROOM && message[..q] == WireOf(done + [c])
    {
      WireSnoc(done, c);
      CostSnoc(done, c);
      q := p;
      if second {
        OneMore(done, 0);
        assert done[..1] == done && done[..0] == [];
        q := Shift();
      }
      q := Append(q, c);
    }

    /** `validateCommand` over the parsed commands. */
    method ValidateCommand(cmds: seq<Command>) returns (ok: bool)
      requires message.Length == ROOM
      modifies this, message
      ensures ok <==> Accepted(cmds)
      ensures ok ==> Carries(nodeCommand, msgLen, message[..], cmds)
    {
      var room := ROOM;
      var p: nat := 0;
      var i := 0;
      while i < |cmds|
        invariant i <= |cmds| && room >= 0
        invariant i == 0 ==> room == ROOM
        invariant i == 1 ==> room == ROOM - |cmds[0].data| && Carries(nodeCommand, msgLen, message[..], cmds[..1])
        invariant i >= 2 ==> room == ROOM - Cost(cmds[..i]) && p == Cost(cmds[..i]) && message[..p] == WireOf(cmds[..i])
      {
        var c := cmds[i];
        var n := |c.data|;
        OneMore(cmds, i);
        if i == 0 {
          room := room - n;
        } else {
          if i == 1 {
            room := room - 3;
          }
          room := room - (n + 3);
        }
        if room < 0 {
          return false;
        }
        if i == 0 {
          PutFirst(c);
          assert cmds[..1] == [c];
        } else {
          assert cmds[..i + 1] == cmds[..i] + [c];
          p := Link(p, cmds[..i], c, i == 1);
        }
        i := i + 1;
      }
      assert cmds[..|cmds|] == cmds;
      if i == 0 {
        return false;
      }
      if i > 1 {
        nodeCommand := LINKED;
        msgLen := p;
      }
      ok := true;
    }

    /** `getCommandFromEvent`; `files` looks a file up by its name. */
    method GetCommand(files: seq<byte> -> Option<seq<byte>>) returns (ok: bool, commands: array<byte>, len: nat)
      requires message.Length == ROOM && WellSized(nodeCommand, msgLen, message[..])
      ensures fresh(commands) && len <= commands.Length
      ensures Sent(nodeCommand, msgLen, message[..], files) == if ok then Some(commands[..len]) else None
    {
      ok, commands, len := false, new byte[0], 0;
      if nodeCommand == LINKED {
        if message[2] == WRITE_IN_FLASH {
          var n := FromBe16(message[..2]) - 1;
          var file := files(message[3..3 + n]);
          if file == None {
            return;
          }
          var data := file.value;
          commands := new byte[|data| + 1];
          Put(commands, 0, data);
          if |data| < REG_SPACE || |data| > REG_SPACE / 5 * MAX_PACKET {
            return;
          }
          assert commands[..|data|] == data;
          len := ExpandInPlace(commands, |data|);
          return true, commands, len;
        }
        commands := new byte[msgLen];
        Put(commands, 0, message[..msgLen]);
        assert commands[..msgLen] == message[..msgLen];
        return true, commands, msgLen;
      }
      commands := new byte[2 + msgLen];
      commands[0], commands[1] := msgLen / 256, msgLen % 256;
      commands[2] := nodeCommand;
      assert commands[..3] == Be16(msgLen) + [nodeCommand];
      Put(commands, 3, message[..msgLen - 1]);
      return true, commands, 2 + msgLen;
    }
  }

  /** The bounds that the composer takes on trust: an event built by the packer meets them, unless its
      single command has the code of a linked one. */
  predicate WellSized(nodeCommand: byte, msgLen: int, msg: seq<byte>) {
    && |msg| == ROOM
    && if nodeCommand != LINKED then 1 <= msgLen <= ROOM + 1
       else if msg[2] == WRITE_IN_FLASH then 1 <= FromBe16(msg[..2]) <= ROOM - 2
       else 0 <= msgLen <= ROOM
  }

  /** The bytes sent for an event. */
  function Sent(nodeCommand: byte, msgLen: int, msg: seq<byte>, files: seq<byte> -> Option<seq<byte>>):
      Option<seq<byte>>
    requires WellSized(nodeCommand, msgLen, msg)
  {
    if nodeCommand != LINKED then Some(Be16(msgLen) + [nodeCommand] + msg[..msgLen - 1])
    else if msg[2] != WRITE_IN_FLASH then Some(msg[..msgLen])
    else FlashStream(files(msg[3..2 + FromBe16(msg[..2])]))
  }

  lemma LinkedHead(msg: seq<byte>, cmds: seq<Command>)
    requires |msg| == ROOM && |cmds| > 1 && Cost(cmds) <= ROOM && msg[..Cost(cmds)] == WireOf(cmds)
    ensures var d := cmds[0].data;
            |d| + 6 <= ROOM && msg[2] == cmds[0].code && FromBe16(msg[..2]) == |d| + 1 && msg[3..3 + |d|] == d
  {
    var c := cmds[0];
    var n := 3 + |c.data|;
    var rest := WireOf(cmds[1..]);
    var head := Prefixed(c.Body());
    assert Bodies(cmds)[1..] == Bodies(cmds[1..]);
    assert WireOf(cmds) == head + rest;
    assert Cost(cmds[1..]) >= 3;
    assert msg[..n] == msg[..Cost(cmds)][..n] == head;
    Be16RoundTrip(|c.data| + 1);
    assert msg[..2] == head[..2] && msg[2] == head[2] && msg[3..n] == head[3..];
  }

  /** Packing and then composing sends exactly the commands' frames, unless a lone command bears the
      code that marks linked ones, or the first of several is a flash write, which sends the file it
      names instead. */
  lemma PackedThenSent(nodeCommand: byte, msgLen: int, msg: seq<byte>, cmds: seq<Command>,
                       files: seq<byte> -> Option<seq<byte>>)
    requires Carries(nodeCommand, msgLen, msg, cmds)
    ensures |cmds| > 1 || cmds[0].code != LINKED ==> WellSized(nodeCommand, msgLen, msg)
    ensures WellSized(nodeCommand, msgLen, msg) ==>
              var sent := Sent(nodeCommand, msgLen, msg, files);
              if |cmds| == 1 then sent == Some(WireOf(cmds)) <==> cmds[0].code != LINKED
              else if cmds[0].code == WRITE_IN_FLASH then sent == FlashStream(files(cmds[0].data))
              else sent == Some(WireOf(cmds))
  {
    if |cmds| > 1 {
      LinkedHead(msg, cmds);
    } else {
      var c := cmds[0];
      OneMore(cmds, 0);
      assert cmds[..1] == cmds;
      assert Be16(|c.data| + 1) + [c.code] + c.data == WireOf(cmds);
      if c.code == LINKED && WellSized(nodeCommand, msgLen, msg) {
        LoneLinkedNotFramed(msg, c, files);
      }
    }
  }

  /** A lone command with the code 0xFF goes out raw or as flash writes, never as its frame. */
  lemma LoneLinkedNotFramed(msg: seq<byte>, c: Command, files: seq<byte> -> Option<seq<byte>>)
    requires c.code == LINKED && |c.data| <= ROOM && WellSized(LINKED, |c.data| + 1, msg)
    ensures Sent(LINKED, |c.data| + 1, msg, files) != Some(Prefixed(c.Body()))
  {
    if msg[2] == WRITE_IN_FLASH {
      var file := files(msg[3..2 + FromBe16(msg[..2])]);
      if FlashStream(file).Some? && file.value[REG_SPACE..] != [] {
        var payload := file.value[REG_SPACE..];
        var first := Prefixed(Chunk(0, payload[..ChunkLen(|payload|)]));
        assert first[2] == WRITE_IN_FLASH;
        assert FlashStream(file).value[2] == first[2];
        assert Prefixed(c.Body())[2] == LINKED;
      }
    }
  }
}
