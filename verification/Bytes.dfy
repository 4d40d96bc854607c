/** Bytes, byte buffers and the few library operations on them that the modelled code uses. */
module Bytes {
  type byte = x: int | 0 <= x < 256

  /** The bitwise complement of a byte. */
  function Complement(b: byte): byte {
    255 - b
  }

  /** A 16-bit quantity in network order. */
  function Be16(n: int): (s: seq<byte>)
    requires 0 <= n < 0x10000
    ensures |s| == 2
  {
    [n / 256, n % 256]
  }

  function FromBe16(s: seq<byte>): (n: nat)
    requires |s| == 2
    ensures n < 0x10000
  {
    256 * (s[0] as int) + s[1] as int
  }

  lemma Be16RoundTrip(n: int)
    requires 0 <= n < 0x10000
    ensures FromBe16(Be16(n)) == n
  {
  }

  lemma Assoc<T>(a: seq<T>, b: seq<T>, c: seq<T>)
    ensures a + b + c == a + (b + c)
  {
  }

  /** `memmove`: the `n` bytes at `src` come to stand at `dst`, overlap or not. */
  method MemMove(a: array<byte>, dst: nat, src: nat, n: nat)
    requires dst + n <= a.Length && src + n <= a.Length
    modifies a
    ensures a[dst..dst + n] == old(a[src..src + n])
    ensures forall i :: 0 <= i < dst || dst + n <= i < a.Length ==> a[i] == old(a[i])
  {
    forall i | dst <= i < dst + n {
      a[i] := a[i - dst + src];
    }
  }

  /** `memcpy` within one buffer: the two stretches must not overlap. */
  method MemCpy(a: array<byte>, dst: nat, src: nat, n: nat)
    requires dst + n <= a.Length && src + n <= a.Length
    requires dst + n <= src || src + n <= dst
    modifies a
    ensures a[dst..dst + n] == old(a[src..src + n])
    ensures forall i :: 0 <= i < dst || dst + n <= i < a.Length ==> a[i] == old(a[i])
  {
    ghost var before := a[..];
    for k := 0 to n
      invariant forall j :: dst <= j < dst + k ==> a[j] == before[j - dst + src]
      invariant forall j :: 0 <= j < dst || dst + k <= j < a.Length ==> a[j] == before[j]
    {
      a[dst + k] := a[src + k];
    }
  }

  /** `memcpy` of a value into a buffer. */
  method Put(a: array<byte>, at: nat, s: seq<byte>)
    requires at + |s| <= a.Length
    modifies a
    ensures a[..] == old(a[..at]) + s + old(a[at + |s|..])
  {
    forall i | at <= i < at + |s| {
      a[i] := s[i - at];
    }
  }
}
