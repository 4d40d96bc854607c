/** The activation table with the CRC of `crcRFBlock` in AccessNode/Shared/Utils.cpp: what a receiver
    finds when it checks its flash against the table. */
module FlashChecks {
  import opened Bytes
  import opened FirmwareStream
  import Crc

  function Bits(s: seq<byte>): (bits: seq<bv8>)
    ensures |bits| == |s|
  {
    seq(|s|, i requires 0 <= i < |s| => s[i] as bv8)
  }

  /** What `crcRFBlock` returns for a block. */
  function BlockCrc(s: seq<byte>): word {
    Crc.Htons(Crc.Fold(0, Bits(s))) as int
  }

  function WithCrc(p: Params): Params {
    p.(rf := BlockCrc)
  }

  lemma HtonsInjective(x: bv16, y: bv16)
    requires Crc.Htons(x) == Crc.Htons(y)
    ensures x == y
  {
  }

  lemma BitsOf(b: byte, v: bv8)
    requires v as int == b
    ensures b as bv8 == v
  {
  }

  lemma OneMore(v: bv8)
    requires v != 255
    ensures (v + 1) as int == v as int + 1
  {
  }

  lemma {:induction false} AsBits(b: byte)
    ensures (b as bv8) as int == b
  {
    if b > 0 {
      AsBits(b - 1);
      var v := (b - 1) as bv8;
      OneMore(v);
      BitsOf(b, v + 1);
    }
  }

  lemma BitsDiffer(b: byte, c: byte, x: bv8, y: bv8)
    requires x as int == b && y as int == c && b != c
    ensures x != y
  {
  }

  lemma WordsDiffer(x: bv16, y: bv16)
    requires x != y
    ensures x as int != y as int
  {
    assert (x as int) as bv16 == x && (y as int) as bv16 == y;
  }

  lemma BitsAppend(a: seq<byte>, b: seq<byte>)
    ensures Bits(a + b) == Bits(a) + Bits(b)
  {
  }

  lemma BitsOfOne(b: byte)
    ensures Bits([b]) == [b as bv8]
  {
  }

  lemma BitsSplit(a: seq<byte>, b: byte, c: seq<byte>)
    ensures Bits(a + [b] + c) == Bits(a) + [b as bv8] + Bits(c)
  {
    BitsAppend(a, [b]);
    BitsOfOne(b);
    BitsAppend(a + [b], c);
  }

  lemma WrongByteFolds(a: seq<byte>, b: byte, c: byte, d: seq<byte>)
    requires b != c
    ensures Crc.Fold(0, Bits(a + [b] + d)) != Crc.Fold(0, Bits(a + [c] + d))
  {
    BitsSplit(a, b, d);
    BitsSplit(a, c, d);
    AsBits(b);
    AsBits(c);
    BitsDiffer(b, c, b as bv8, c as bv8);
    Crc.OneBadByteShows(0, Bits(a), b as bv8, c as bv8, Bits(d));
  }

  lemma WordsFromFolds(x: bv16, y: bv16)
    requires x != y
    ensures Crc.Htons(x) as int != Crc.Htons(y) as int
  {
    if Crc.Htons(x) == Crc.Htons(y) {
      HtonsInjective(x, y);
    }
    WordsDiffer(Crc.Htons(x), Crc.Htons(y));
  }

  /** One wrong byte in a block always shows in what `crcRFBlock` returns. */
  lemma WrongByteShows(a: seq<byte>, b: byte, c: byte, d: seq<byte>)
    requires b != c
    ensures BlockCrc(a + [b] + d) != BlockCrc(a + [c] + d)
  {
    WrongByteFolds(a, b, c, d);
    WordsFromFolds(Crc.Fold(0, Bits(a + [b] + d)), Crc.Fold(0, Bits(a + [c] + d)));
  }

  /** A table that checks has every entry right. */
  lemma {:induction false} ChecksAt(p: Params, segs: seq<Segment>, f: Flash, i: nat)
    requires AllBounded(segs) && i < |segs| && Checks(p, Entries(p, segs), f)
    ensures segs[i].start + |segs[i].bytes| <= MEMORY_SIZE
    ensures p.rf(segs[i].bytes) == p.rf(f[segs[i].start..segs[i].start + |segs[i].bytes|])
  {
    var s, rest := segs[0], Entries(p, segs[1..]);
    assert s.start < 0x10000 && |s.bytes| < 0x10000;
    EntryFields(p, s, rest);
    EntrySums(p, s, rest);
    Be16RoundTrip(s.start);
    Be16RoundTrip(|s.bytes|);
    if i > 0 {
      ChecksAt(p, segs[1..], f, i - 1);
    }
  }

  /** A receiver whose flash differs in one byte of a listed segment finds the table not to agree. */
  lemma WrongFlashShows(p: Params, segs: seq<Segment>, f: Flash, i: nat, x: nat, b: byte)
    requires AllBounded(segs) && Describes(segs, f) && i < |segs|
    requires segs[i].start <= x < segs[i].start + |segs[i].bytes| && x < MEMORY_SIZE && f[x] != b
    ensures !Checks(WithCrc(p), Entries(WithCrc(p), segs), f[x := b])
  {
    var g := f[x := b];
    var start, end := segs[i].start, segs[i].start + |segs[i].bytes|;
    assert f[start..end] == f[start..x] + [f[x]] + f[x + 1..end];
    assert g[start..end] == f[start..x] + [b] + f[x + 1..end];
    WrongByteShows(f[start..x], f[x], b, f[x + 1..end]);
    if Checks(WithCrc(p), Entries(WithCrc(p), segs), g) {
      ChecksAt(WithCrc(p), segs, g, i);
    }
  }

  /** From end to end: after the packets have been executed on any flash the table agrees, and after any
      further change of one byte in a listed range it does not, when no two records overlap. */
  lemma TableGuardsFlash(p: Params, recs: seq<Record>, f: Flash, i: nat, x: nat, b: byte)
    requires AllFit(recs) && Disjoint(Kept(recs)) && i < |SegmentsOf(recs)|
    requires SegmentsOf(recs)[i].start <= x < SegmentsOf(recs)[i].start + |SegmentsOf(recs)[i].bytes| && x < MEMORY_SIZE
    ensures InFlash(PacketsOf(p, recs))
    ensures var g := Execute(f, PacketsOf(p, recs));
            var table := Entries(WithCrc(p), SegmentsOf(recs));
            Checks(WithCrc(p), table, g) && (g[x] != b ==> !Checks(WithCrc(p), table, g[x := b]))
  {
    TableChecks(WithCrc(p), recs, f);
    SegmentsAreDescribed(p, recs, f);
    assert PacketsOf(WithCrc(p), recs) == PacketsOf(p, recs);
    var g := Execute(f, PacketsOf(p, recs));
    if g[x] != b {
      WrongFlashShows(p, SegmentsOf(recs), g, i, x, b);
    }
  }
}
