/** `CBase64` of AccessNode/Shared/SmtpSupport.cpp: the coder of section 4 of RFC 4648, with its two
    tables. */
module Base64 {
  import opened Bytes

  const PAD: byte := '=' as int
  const INVALID: byte := 0x80

  /** `m_aTable`, in rows of 16. */
  function TableRow(row: nat): (r: seq<char>)
    requires row < 4
    ensures |r| == 16
  {
    match row
    case 0 => ['A', 'B', 'C', 'D', 'E', 'F', 'G', 'H', 'I', 'J', 'K', 'L', 'M', 'N', 'O', 'P']
    case 1 => ['Q', 'R', 'S', 'T', 'U', 'V', 'W', 'X', 'Y', 'Z', 'a', 'b', 'c', 'd', 'e', 'f']
    case 2 => ['g', 'h', 'i', 'j', 'k', 'l', 'm', 'n', 'o', 'p', 'q', 'r', 's', 't', 'u', 'v']
    case 3 => ['w', 'x', 'y', 'z', '0', '1', '2', '3', '4', '5', '6', '7', '8', '9', '+', '/']
  }

  /** `m_aRevTable`, in rows of 16; the upper half holds no character. */
  function RevRow(row: nat): (r: seq<byte>)
    requires row < 16
    ensures |r| == 16
  {
    match row
    case 0 => [0x80, 0x80, 0x80, 0x80, 0x80, 0x80, 0x80, 0x80, 0x80, 0x80, 0x80, 0x80, 0x80, 0x80, 0x80, 0x80]
    case 1 => [0x80, 0x80, 0x80, 0x80, 0x80, 0x80, 0x80, 0x80, 0x80, 0x80, 0x80, 0x80, 0x80, 0x80, 0x80, 0x80]
    case 2 => [0x80, 0x80, 0x80, 0x80, 0x80, 0x80, 0x80, 0x80, 0x80, 0x80, 0x80, 0x3E, 0x80, 0x80, 0x80, 0x3F]
    case 3 => [0x34, 0x35, 0x36, 0x37, 0x38, 0x39, 0x3A, 0x3B, 0x3C, 0x3D, 0x80, 0x80, 0x80, 0x80, 0x80, 0x80]
    case 4 => [0x80, 0x00, 0x01, 0x02, 0x03, 0x04, 0x05, 0x06, 0x07, 0x08, 0x09, 0x0A, 0x0B, 0x0C, 0x0D, 0x0E]
    case 5 => [0x0F, 0x10, 0x11, 0x12, 0x13, 0x14, 0x15, 0x16, 0x17, 0x18, 0x19, 0x80, 0x80, 0x80, 0x80, 0x80]
    case 6 => [0x80, 0x1A, 0x1B, 0x1C, 0x1D, 0x1E, 0x1F, 0x20, 0x21, 0x22, 0x23, 0x24, 0x25, 0x26, 0x27, 0x28]
    case 7 => [0x29, 0x2A, 0x2B, 0x2C, 0x2D, 0x2E, 0x2F, 0x30, 0x31, 0x32, 0x33, 0x80, 0x80, 0x80, 0x80, 0x80]
    case _ => [0x80, 0x80, 0x80, 0x80, 0x80, 0x80, 0x80, 0x80, 0x80, 0x80, 0x80, 0x80, 0x80, 0x80, 0x80, 0x80]
  }

  lemma RevRowRange(row: nat, k: nat)
    requires row < 16 && k < 16
    ensures RevRow(row)[k] < 64 || RevRow(row)[k] == INVALID
  {
  }

  lemma TableChar(row: nat, k: nat)
    requires row < 4 && k < 16
    ensures var i := 16 * row + k;
            TableRow(row)[k] as int == (if i < 26 then 65 + i else if i < 52 then 71 + i
                                        else if i < 62 then i - 4 else if i == 62 then 43 else 47)
  {
  }

  function Table(i: nat): (c: byte)
    requires i < 64
    ensures c != PAD
  {
    TableChar(i / 16, i % 16);
    TableRow(i / 16)[i % 16] as int
  }

  function Rev(c: byte): (b: byte)
    ensures b < 64 || b == INVALID
  {
    RevRowRange(c / 16, c % 16);
    RevRow(c / 16)[c % 16]
  }

  lemma RevOfCapital(c: byte)
    requires 65 <= c <= 90
    ensures Rev(c) == c - 65
  {
  }

  lemma RevOfLetter(c: byte)
    requires 97 <= c <= 122
    ensures Rev(c) == c - 71
  {
  }

  lemma RevOfDigit(c: byte)
    ensures 48 <= c <= 57 ==> Rev(c) == c + 4
    ensures c == 43 ==> Rev(c) == 62
    ensures c == 47 ==> Rev(c) == 63
  {
  }

  /** The reverse table inverts the table. */
  lemma RevOfTable(i: nat)
    requires i < 64
    ensures Rev(Table(i)) == i
  {
    TableChar(i / 16, i % 16);
    if i < 26 {
      RevOfCapital(Table(i));
    } else if i < 52 {
      RevOfLetter(Table(i));
    } else {
      RevOfDigit(Table(i));
    }
  }

  lemma RevOfOther(c: byte)
    requires !(65 <= c <= 90 || 97 <= c <= 122 || 47 <= c <= 57 || c == 43)
    ensures Rev(c) == 0x80
  {
  }

  type Alphabet = t: seq<byte> | |t| == 64 witness seq(64, _ => 0)

  /** Six bits for every character, or that it is none. */
  type Reverse = r: seq<byte> | |r| == 256 && forall c :: 0 <= c < 256 ==> r[c] < 64 || r[c] == INVALID
    witness seq(256, _ => 0)

  /** All that coding and decoding ask of the two tables. */
  predicate Inverse(t: Alphabet, r: Reverse) {
    forall i :: 0 <= i < 64 ==> t[i] != PAD && r[t[i]] == i
  }

  function StandardAlphabet(): Alphabet {
    seq(64, i requires 0 <= i < 64 => Table(i))
  }

  function StandardReverse(): Reverse {
    seq(256, c requires 0 <= c < 256 => Rev(c))
  }

  /** The two tables of the source are inverse. */
  lemma TablesAreInverse()
    ensures Inverse(StandardAlphabet(), StandardReverse())
  {
    forall i | 0 <= i < 64
      ensures StandardAlphabet()[i] != PAD && StandardReverse()[StandardAlphabet()[i]] == i
    {
      RevOfTable(i);
    }
  }

  /** They are those of the RFC: capitals, small letters, digits, `+` and `/`, and every other character is
      invalid. */
  lemma TablesAreStandard()
    ensures forall i :: 0 <= i < 64 ==>
              StandardAlphabet()[i] == if i < 26 then 65 + i else if i < 52 then 71 + i else if i < 62 then i - 4
                                       else if i == 62 then 43 else 47
    ensures forall c :: 0 <= c < 256 && !(65 <= c <= 90 || 97 <= c <= 122 || 47 <= c <= 57 || c == 43) ==>
              StandardReverse()[c] == 0x80
  {
    forall i | 0 <= i < 64
      ensures StandardAlphabet()[i] == if i < 26 then 65 + i else if i < 52 then 71 + i else if i < 62 then i - 4
                                       else if i == 62 then 43 else 47
    {
      TableChar(i / 16, i % 16);
    }
    forall c | 0 <= c < 256 && !(65 <= c <= 90 || 97 <= c <= 122 || 47 <= c <= 57 || c == 43)
      ensures StandardReverse()[c] == 0x80
    {
      RevOfOther(c);
    }
  }

  /** The bitwise or of two numbers. */
  function Or(a: nat, b: nat): nat {
    if a == 0 && b == 0 then 0 else (if a % 2 == 1 || b % 2 == 1 then 1 else 0) + 2 * Or(a / 2, b / 2)
  }

  lemma {:induction false} OrZero(a: nat)
    ensures Or(a, 0) == a
  {
    if a > 0 {
      OrZero(a / 2);
    }
  }

  lemma OrTwice(a: nat, b: nat)
    ensures Or(2 * a, b) == b % 2 + 2 * Or(a, b / 2)
  {
  }

  function Pow2(k: nat): (n: nat)
    ensures n > 0
  {
    if k == 0 then 1 else 2 * Pow2(k - 1)
  }

  /** Where the low bits of one number are free, oring another into them is adding it: so the coder
      below may be specified by sums. */
  lemma {:induction false} OrIsSum(a: nat, k: nat, b: nat)
    requires b < Pow2(k)
    ensures Or(a * Pow2(k), b) == a * Pow2(k) + b
  {
    if k == 0 {
      OrZero(a);
    } else {
      var y := a * Pow2(k - 1);
      assert a * Pow2(k) == 2 * y;
      OrTwice(y, b);
      OrIsSum(a, k - 1, b / 2);
    }
  }

  lemma OrShifted(a: nat, b: nat)
    ensures b < 4 ==> Or(a * 4, b) == a * 4 + b
    ensures b < 16 ==> Or(a * 16, b) == a * 16 + b
    ensures b < 64 ==> Or(a * 64, b) == a * 64 + b
  {
    assert Pow2(2) == 4;
    assert Pow2(4) == 4 * Pow2(2);
    assert Pow2(6) == 4 * Pow2(4);
    if b < 4 { OrIsSum(a, 2, b); }
    if b < 16 { OrIsSum(a, 4, b); }
    if b < 64 { OrIsSum(a, 6, b); }
  }

  /** The four characters that stand for the first group of at most three bytes. */
  function EncodeGroup(t: Alphabet, s: seq<byte>): (e: seq<byte>)
    requires s != []
    ensures |e| == 4
  {
    if |s| == 1 then
      [t[s[0] / 4], t[s[0] % 4 * 16], PAD, PAD]
    else if |s| == 2 then
      [t[s[0] / 4], t[s[0] % 4 * 16 + s[1] / 16], t[s[1] % 16 * 4], PAD]
    else
      [t[s[0] / 4], t[s[0] % 4 * 16 + s[1] / 16], t[s[1] % 16 * 4 + s[2] / 64], t[s[2] % 64]]
  }

  function Behind(s: seq<byte>): seq<byte> {
    if |s| <= 3 then [] else s[3..]
  }

  function Encode(t: Alphabet, s: seq<byte>): (e: seq<byte>)
    ensures s != [] ==> |e| >= 4
    decreases |s|
  {
    if s == [] then [] else EncodeGroup(t, s) + Encode(t, Behind(s))
  }

  lemma Groups(n: nat)
    ensures n > 3 ==> (n - 3 + 2) / 3 + 1 == (n + 2) / 3
    ensures 0 < n <= 3 ==> (n + 2) / 3 == 1
  {
  }

  lemma {:induction false} EncodeLength(t: Alphabet, s: seq<byte>)
    ensures |Encode(t, s)| == (|s| + 2) / 3 * 4
    decreases |s|
  {
    if s != [] {
      EncodeLength(t, Behind(s));
      Groups(|s|);
    }
  }

  lemma EncodeStep(t: Alphabet, total: seq<byte>, p: nat, s: seq<byte>)
    requires s != [] && p <= |total| && total[p..] == Encode(t, s)
    ensures p + 4 <= |total| && total[p + 4..] == Encode(t, Behind(s))
    ensures forall k :: p <= k < p + 4 ==> total[k] == EncodeGroup(t, s)[k - p]
  {
    assert forall k :: p <= k < p + 4 ==> total[k] == total[p..][k - p];
    assert total[p..][4..] == total[p + 4..];
  }

  /** The two sums in a group, as the encoder computes them. */
  lemma GroupByOr(s: seq<byte>)
    requires |s| >= 2
    ensures s[0] % 4 * 16 + s[1] / 16 == Or(s[0] % 4 * 16, s[1] / 16) < 64
    ensures |s| >= 3 ==> s[1] % 16 * 4 + s[2] / 64 == Or(s[1] % 16 * 4, s[2] / 64) < 64
  {
    OrShifted(s[0] % 4, s[1] / 16);
    if |s| >= 3 {
      OrShifted(s[1] % 16, s[2] / 64);
    }
  }

  /** One turn of the encoder, for the bytes `s` that remain. */
  method PutGroup(t: Alphabet, s: seq<byte>, rsp: array<byte>, p: nat)
    requires s != [] && p + 4 <= rsp.Length
    modifies rsp
    ensures forall k :: p <= k < p + 4 ==> rsp[k] == EncodeGroup(t, s)[k - p]
    ensures forall k :: 0 <= k < p || p + 4 <= k < rsp.Length ==> rsp[k] == old(rsp[k])
  {
    if |s| >= 2 {
      GroupByOr(s);
    }
    rsp[p] := t[s[0] / 4];
    match |s|
    case 1 =>
      rsp[p + 1] := t[s[0] % 4 * 16];
      rsp[p + 2] := PAD;
      rsp[p + 3] := PAD;
    case 2 =>
      rsp[p + 1] := t[Or(s[0] % 4 * 16, s[1] / 16)];
      rsp[p + 2] := t[s[1] % 16 * 4];
      rsp[p + 3] := PAD;
    case _ =>
      rsp[p + 1] := t[Or(s[0] % 4 * 16, s[1] / 16)];
      rsp[p + 2] := t[Or(s[1] % 16 * 4, s[2] / 64)];
      rsp[p + 3] := t[s[2] % 64];
  }

  function From(s: seq<byte>, i: nat): seq<byte> {
    if i < |s| then s[i..] else []
  }

  method EncodeBuffer(t: Alphabet, buffer: seq<byte>, rsp: array<byte>) returns (len: nat)
    requires rsp.Length >= (|buffer| + 2) / 3 * 4
    modifies rsp
    ensures len == |Encode(t, buffer)| <= rsp.Length && rsp[..len] == Encode(t, buffer)
  {
    ghost var total := Encode(t, buffer);
    EncodeLength(t, buffer);
    assert From(buffer, 0) == buffer && total[0..] == total;
    len := 0;
    var i := 0;
    while i < |buffer|
      invariant len <= |total| && total[len..] == Encode(t, From(buffer, i))
      invariant forall k :: 0 <= k < len ==> rsp[k] == total[k]
    {
      assert Behind(buffer[i..]) == From(buffer, i + 3);
      EncodeStep(t, total, len, buffer[i..]);
      PutGroup(t, buffer[i..], rsp, len);
      len := len + 4;
      i := i + 3;
    }
    assert |total| == len + |total[len..]|;
  }

  predicate Ends(r: Reverse, c: byte) {
    c == PAD || r[c] == INVALID
  }

  /** How many of four characters come before the first that ends the input. */
  function Valid(r: Reverse, q: seq<byte>): (j: nat)
    requires |q| == 4
    ensures j <= 4
  {
    if Ends(r, q[0]) then 0 else if Ends(r, q[1]) then 1 else if Ends(r, q[2]) then 2
    else if Ends(r, q[3]) then 3 else 4
  }

  /** Two pieces of a byte, cut to a byte; the bits of `low` are those that the shift leaves free. */
  function Merge(high: byte, factor: nat, low: nat): byte {
    (high * factor + low) % 256
  }

  lemma OrMerges(high: byte, low: byte)
    ensures low < 4 ==> Or(high * 4, low) % 256 == Merge(high, 4, low)
    ensures low < 16 ==> Or(high * 16, low) % 256 == Merge(high, 16, low)
    ensures low < 64 ==> Or(high * 64, low) % 256 == Merge(high, 64, low)
  {
    OrShifted(high, low);
  }

  /** The bytes that `n` remaining characters, the next four of them `q`, stand for. */
  function DecodeGroup(r: Reverse, q: seq<byte>, n: nat): (d: seq<byte>)
    requires |q| == 4
    ensures |d| <= 3
  {
    var b0 := Merge(r[q[0]], 4, r[q[1]] / 16);
    var b1 := Merge(r[q[1]], 16, r[q[2]] / 4);
    if n == 0 then []
    else if n == 1 then [(r[q[0]] as int) * 4 % 256]
    else if n == 2 then [b0, (r[q[1]] as int) * 16 % 256]
    else if n == 3 then [b0, b1, (r[q[2]] as int) * 64 % 256]
    else [b0, b1, Merge(r[q[2]], 64, r[q[3]])]
  }

  /** The four characters at `i`; behind the end stands the terminator of a string. */
  function Quad(buf: seq<byte>, i: nat): (q: seq<byte>)
    ensures |q| == 4
  {
    seq(4, j requires 0 <= j => if i + j < |buf| then buf[i + j] else 0)
  }

  /** The length of the input once the four characters at `i` have been looked at. */
  function Shorten(r: Reverse, buf: seq<byte>, i: nat, n: nat): (n': nat)
    ensures n' <= i + 4 || n' == n
  {
    var j := Valid(r, Quad(buf, i));
    if j < 4 then i + j else n
  }

  /** What the decoder makes of the input from `i` on, when the input has the length `n`. */
  function Decoded(r: Reverse, buf: seq<byte>, i: nat, n: nat): seq<byte>
    decreases if i < n then n - i else 0
  {
    if i >= n then []
    else
      var n' := Shorten(r, buf, i, n);
      DecodeGroup(r, Quad(buf, i), n' - i) + Decoded(r, buf, i + 4, n')
  }

  /** The length of the input in the end. */
  function EndLength(r: Reverse, buf: seq<byte>, i: nat, n: nat): nat
    decreases if i < n then n - i else 0
  {
    if i >= n then n else EndLength(r, buf, i + 4, Shorten(r, buf, i, n))
  }

  /** The check of the next four characters. */
  method LookAhead(r: Reverse, buf: seq<byte>, i: nat, n: nat) returns (left: nat)
    ensures left == Shorten(r, buf, i, n)
  {
    var q := Quad(buf, i);
    left := n;
    for j := 0 to 4
      invariant left == n && forall k :: 0 <= k < j ==> !Ends(r, q[k])
    {
      if q[j] == PAD || r[q[j]] == INVALID {
        return i + j;
      }
    }
  }

  lemma DecodeStep(r: Reverse, buf: seq<byte>, i: nat, n: nat, total: seq<byte>, p: nat, d: seq<byte>)
    requires i < n && p <= |total| && total[p..] == Decoded(r, buf, i, n)
    requires d == DecodeGroup(r, Quad(buf, i), Shorten(r, buf, i, n) - i)
    ensures p + |d| <= |total| && forall k :: p <= k < p + |d| ==> total[k] == d[k - p]
    ensures total[p + |d|..] == Decoded(r, buf, i + 4, Shorten(r, buf, i, n))
  {
    assert forall k :: p <= k < p + |d| ==> total[k] == total[p..][k - p];
    assert total[p + |d|..] == total[p..][|d|..];
  }

  /** The switch of the decoder over the characters that remain.  With none left the source takes the
      four for a whole group and writes it behind the end. */
  method PutSwitch(r: Reverse, q: seq<byte>, left: int, rsp: array<byte>, p: nat) returns (p': nat)
    requires |q| == 4 && left >= 0 && p + 3 <= rsp.Length
    requires forall j :: 0 <= j < 4 && j < left ==> !Ends(r, q[j])
    modifies rsp
    ensures p' == p + |DecodeGroup(r, q, left)|
    ensures forall k :: p <= k < p' ==> rsp[k] == DecodeGroup(r, q, left)[k - p]
    ensures forall k :: 0 <= k < p ==> rsp[k] == old(rsp[k])
  {
    var b0, b1, b2, b3 := r[q[0]], r[q[1]], r[q[2]], r[q[3]];
    if left >= 2 { OrMerges(b0, b1 / 16); }
    if left >= 3 { OrMerges(b1, b2 / 4); }
    if left >= 4 { OrMerges(b2, b3); }
    match left
    case 1 =>
      rsp[p] := (b0 as int) * 4 % 256;
      return p + 1;
    case 2 =>
      rsp[p] := Or((b0 as int) * 4, b1 / 16) % 256;
      rsp[p + 1] := (b1 as int) * 16 % 256;
      return p + 2;
    case 3 =>
      rsp[p] := Or((b0 as int) * 4, b1 / 16) % 256;
      rsp[p + 1] := Or((b1 as int) * 16, b2 / 4) % 256;
      rsp[p + 2] := (b2 as int) * 64 % 256;
      return p + 3;
    case _ =>
      rsp[p] := Or((b0 as int) * 4, b1 / 16) % 256;
      rsp[p + 1] := Or((b1 as int) * 16, b2 / 4) % 256;
      rsp[p + 2] := Or((b2 as int) * 64, b3) % 256;
      return if left == 0 then p else p + 3;
  }

  /** One turn of the decoder behind the check. */
  method PutDecoded(r: Reverse, buf: seq<byte>, i: nat, n: nat, n': nat, rsp: array<byte>, p: nat,
                    ghost total: seq<byte>) returns (p': nat)
    requires i < n && n' == Shorten(r, buf, i, n) && p + 3 <= rsp.Length
    requires p <= |total| && total[p..] == Decoded(r, buf, i, n)
    modifies rsp
    ensures p <= p' <= p + 3 && p' <= |total| && total[p'..] == Decoded(r, buf, i + 4, n')
    ensures forall k :: p <= k < p' ==> rsp[k] == total[k]
    ensures forall k :: 0 <= k < p ==> rsp[k] == old(rsp[k])
  {
    var q := Quad(buf, i);
    ghost var d := DecodeGroup(r, q, n' - i);
    DecodeStep(r, buf, i, n, total, p, d);
    p' := PutSwitch(r, q, n' - i, rsp, p);
  }

  /** The decoder's loop. */
  method DecodeAll(r: Reverse, buf: seq<byte>, rsp: array<byte>) returns (n: nat)
    requires rsp.Length >= |buf| + 3
    modifies rsp
    ensures var out := Decoded(r, buf, 0, |buf|); |out| <= rsp.Length && rsp[..|out|] == out
    ensures n == EndLength(r, buf, 0, |buf|)
  {
    ghost var total := Decoded(r, buf, 0, |buf|);
    var p: nat, i: nat := 0, 0;
    n := |buf|;
    assert total[0..] == total;
    while i < n
      invariant n <= |buf| + 3 && p <= i && i <= |buf| + 3 && (i < n ==> n == |buf|)
      invariant EndLength(r, buf, i, n) == EndLength(r, buf, 0, |buf|)
      invariant p <= |total| && total[p..] == Decoded(r, buf, i, n)
      invariant forall k :: 0 <= k < p ==> rsp[k] == total[k]
      decreases |buf| + 4 - i
    {
      var n' := LookAhead(r, buf, i, n);
      p := PutDecoded(r, buf, i, n, n', rsp, p, total);
      n := n';
      i := i + 4;
    }
    assert |total| == p + |total[p..]|;
  }

  /** `CBase64::Decode`: the bytes decoded, and the length it reports. */
  method DecodeBuffer(r: Reverse, buf: seq<byte>, rsp: array<byte>) returns (len: nat)
    requires rsp.Length >= |buf| + 3
    modifies rsp
    ensures var out := Decoded(r, buf, 0, |buf|); |out| <= rsp.Length && rsp[..|out|] == out
    ensures len == EndLength(r, buf, 0, |buf|) * 3 / 4
  {
    var n := DecodeAll(r, buf, rsp);
    len := n * 3 / 4;
  }

  lemma Cut(h: nat, b: byte)
    ensures (256 * h + b) % 256 == b
  {
  }

  lemma FirstByte(a: byte, b: byte)
    ensures Merge(a / 4, 4, (a % 4 * 16 + b / 16) / 16) == a
  {
    assert (a % 4 * 16 + b / 16) / 16 == a % 4;
    assert a / 4 * 4 + a % 4 == a;
  }

  lemma SecondByte(a: byte, b: byte, c: byte)
    ensures Merge(a % 4 * 16 + b / 16, 16, (b % 16 * 4 + c / 64) / 4) == b
  {
    var h := a % 4 * 16 + b / 16;
    assert (b % 16 * 4 + c / 64) / 4 == b % 16;
    assert h * 16 + b % 16 == 256 * (a % 4) + b;
    Cut(a % 4, b);
  }

  lemma ThirdByte(b: byte, c: byte)
    ensures Merge(b % 16 * 4 + c / 64, 64, c % 64) == c
  {
    var h := b % 16 * 4 + c / 64;
    assert h * 64 + c % 64 == 256 * (b % 16) + c;
    Cut(b % 16, c);
  }

  lemma {:induction false} GroupOfThree(t: Alphabet, r: Reverse, s: seq<byte>, n: nat)
    requires Inverse(t, r) && |s| >= 3 && n >= 4
    ensures var q := EncodeGroup(t, s);
            Valid(r, q) == 4 && DecodeGroup(r, q, n) == s[..3]
  {
    FirstByte(s[0], s[1]);
    SecondByte(s[0], s[1], s[2]);
    ThirdByte(s[1], s[2]);
  }

  lemma {:induction false} LastGroup(t: Alphabet, r: Reverse, s: seq<byte>)
    requires Inverse(t, r) && 0 < |s| < 3
    ensures var q := EncodeGroup(t, s);
            && Valid(r, q) == |s| + 1
            && |DecodeGroup(r, q, |s| + 1)| >= |s| && DecodeGroup(r, q, |s| + 1)[..|s|] == s
  {
    if |s| == 1 {
      FirstByte(s[0], 0);
    } else {
      FirstByte(s[0], s[1]);
      SecondByte(s[0], s[1], 0);
    }
  }

  lemma Glue(s: seq<byte>, d: seq<byte>, rest: seq<byte>)
    requires |s| >= 3 && d == s[..3] && |rest| >= |s| - 3 && rest[..|s| - 3] == s[3..]
    ensures (d + rest)[..|s|] == s
  {
    assert (d + rest)[..|s|] == d + rest[..|s| - 3];
  }

  /** Decoding what stands for `s`, wherever in a buffer it begins. */
  lemma {:induction false} RoundTripAt(t: Alphabet, r: Reverse, e: seq<byte>, i: nat, s: seq<byte>)
    requires Inverse(t, r) && i <= |e| && e[i..] == Encode(t, s)
    ensures var out := Decoded(r, e, i, |e|); |s| <= |out| && out[..|s|] == s
    ensures 4 * |s| <= 3 * (EndLength(r, e, i, |e|) - i) < 4 * |s| + 4
    decreases |s|
  {
    if s != [] {
      var q := EncodeGroup(t, s);
      assert Quad(e, i) == e[i..][..4] == q;
      if |s| >= 3 {
        GroupOfThree(t, r, s, |e| - i);
        assert Shorten(r, e, i, |e|) == |e|;
        assert e[i + 4..] == e[i..][4..] == Encode(t, Behind(s));
        RoundTripAt(t, r, e, i + 4, Behind(s));
        Glue(s, DecodeGroup(r, q, |e| - i), Decoded(r, e, i + 4, |e|));
      } else {
        LastGroup(t, r, s);
        var n' := i + |s| + 1;
        assert Shorten(r, e, i, |e|) == n';
        assert Decoded(r, e, i, |e|) == DecodeGroup(r, q, |s| + 1) + [];
        assert EndLength(r, e, i, |e|) == n';
      }
    }
  }

  /** Decoding what was encoded gives back the length and the bytes, for every buffer. */
  lemma RoundTrip(t: Alphabet, r: Reverse, s: seq<byte>)
    requires Inverse(t, r)
    ensures var e := Encode(t, s);
            var out, len := Decoded(r, e, 0, |e|), EndLength(r, e, 0, |e|) * 3 / 4;
            len == |s| <= |out| && out[..len] == s
  {
    var e := Encode(t, s);
    assert e[0..] == e;
    RoundTripAt(t, r, e, 0, s);
  }

  /** The three bytes of a group and its four characters are the same number, to the base 256 and 64. */
  lemma EncodesNumber(t: Alphabet, r: Reverse, s: seq<byte>)
    requires Inverse(t, r) && s != []
    ensures |Encode(t, s)| >= 4
    ensures var e := Encode(t, s);
            && (|s| >= 3 ==>
                  && 65536 * (s[0] as int) + 256 * (s[1] as int) + s[2] as int
                  == 262144 * (r[e[0]] as int) + 4096 * (r[e[1]] as int) + 64 * (r[e[2]] as int) + r[e[3]] as int
                  && e[4..] == Encode(t, s[3..]))
            && (|s| == 2 ==>
                  && (256 * (s[0] as int) + s[1] as int) * 4 == 4096 * (r[e[0]] as int) + 64 * (r[e[1]] as int) + r[e[2]] as int
                  && e[3..] == [61])
            && (|s| == 1 ==> (s[0] as int) * 16 == 64 * (r[e[0]] as int) + r[e[1]] as int && e[2..] == [61, 61])
  {
    var g := EncodeGroup(t, s);
    assert Encode(t, s)[..4] == g && Encode(t, s)[4..] == Encode(t, Behind(s));
    assert |s| <= 3 ==> Encode(t, Behind(s)) == [];
    assert |s| == 3 ==> s[3..] == [];
  }

  /** Four valid characters decode to the three bytes of their number; three and two of them to the
      bytes that they complete. */
  lemma DecodesNumber(r: Reverse, q: seq<byte>, n: nat)
    requires |q| == 4 && n > 0 && forall j :: 0 <= j < 4 && j < n ==> r[q[j]] < 64
    ensures var d := DecodeGroup(r, q, n);
            && (n >= 4 ==>
                  && |d| == 3
                  && 65536 * (d[0] as int) + 256 * (d[1] as int) + d[2] as int
                  == 262144 * (r[q[0]] as int) + 4096 * (r[q[1]] as int) + 64 * (r[q[2]] as int) + r[q[3]] as int)
            && (n == 3 ==>
                  && |d| == 3
                  && 256 * (d[0] as int) + d[1] as int == (4096 * (r[q[0]] as int) + 64 * (r[q[1]] as int) + r[q[2]] as int) / 4)
            && (n == 2 ==> |d| == 2 && d[0] as int == (64 * (r[q[0]] as int) + r[q[1]] as int) / 16)
  {
    if n >= 2 {
      FirstMerged(r[q[0]], r[q[1]]);
    }
    if n >= 3 {
      SecondMerged(r[q[1]], r[q[2]]);
    }
    if n >= 4 {
      ThirdMerged(r[q[2]], r[q[3]]);
    }
  }

  lemma FirstMerged(a: nat, b: nat)
    requires a < 64 && b < 64
    ensures Merge(a, 4, b / 16) == a * 4 + b / 16
  {
  }

  lemma SecondMerged(b: nat, c: nat)
    requires b < 64 && c < 64
    ensures Merge(b, 16, c / 4) == b % 16 * 16 + c / 4
  {
    Cut(b / 16, b % 16 * 16 + c / 4);
    assert b * 16 == 256 * (b / 16) + b % 16 * 16;
  }

  lemma ThirdMerged(c: nat, d: nat)
    requires c < 64 && d < 64
    ensures Merge(c, 64, d) == c % 4 * 64 + d
  {
    Cut(c / 4, c % 4 * 64 + d);
    assert c * 64 == 256 * (c / 4) + c % 4 * 64;
  }

  /** The first `k` characters are valid, and what stands behind them, if anything, is not. */
  predicate StopsAt(r: Reverse, buf: seq<byte>, k: nat) {
    k <= |buf| && (forall j :: 0 <= j < k ==> !Ends(r, buf[j])) && (k < |buf| ==> Ends(r, buf[k]))
  }

  /** Decoding stops at the first character that is not valid: the length is what stands before it. */
  lemma {:induction false} EndsAtStop(r: Reverse, buf: seq<byte>, i: nat, k: nat)
    requires i <= k && StopsAt(r, buf, k) && Ends(r, 0)
    ensures EndLength(r, buf, i, |buf|) == k
    decreases k - i
  {
    if i + 4 <= k {
      FullQuad(r, buf, i, k);
      EndsAtStop(r, buf, i + 4, k);
    } else if i < |buf| {
      LastQuad(r, buf, i, k);
    }
  }

  /** And what stands behind it does not matter. */
  lemma {:induction false} OnlyTheFrontCounts(r: Reverse, buf: seq<byte>, i: nat, k: nat)
    requires i <= k && StopsAt(r, buf, k) && Ends(r, 0)
    ensures Decoded(r, buf, i, |buf|) == Decoded(r, buf[..k], i, k)
    decreases k - i
  {
    if i + 4 <= k {
      FullQuad(r, buf, i, k);
      FullQuad(r, buf[..k], i, k);
      OnlyTheFrontCounts(r, buf, i + 4, k);
    } else if i < k {
      SameEnd(r, buf, i, k);
    } else if i < |buf| {
      LastQuad(r, buf, i, k);
    }
  }

  lemma SameEnd(r: Reverse, buf: seq<byte>, i: nat, k: nat)
    requires i < k < i + 4 && StopsAt(r, buf, k) && Ends(r, 0)
    ensures Decoded(r, buf, i, |buf|) == Decoded(r, buf[..k], i, k)
  {
    LastQuad(r, buf, i, k);
    LastQuad(r, buf[..k], i, k);
    SameGroup(r, Quad(buf, i), Quad(buf[..k], i), k - i);
  }

  lemma FullQuad(r: Reverse, buf: seq<byte>, i: nat, k: nat)
    requires i + 4 <= k && StopsAt(r, buf, k)
    ensures Quad(buf, i) == buf[i..i + 4] && Shorten(r, buf, i, |buf|) == |buf|
  {
    assert forall j :: 0 <= j < 4 ==> Quad(buf, i)[j] == buf[i + j];
  }

  lemma SameGroup(r: Reverse, q: seq<byte>, q': seq<byte>, n: nat)
    requires |q| == 4 && |q'| == 4 && n < 4 && forall j :: 0 <= j < n ==> q[j] == q'[j]
    ensures DecodeGroup(r, q, n) == DecodeGroup(r, q', n)
  {
  }

  lemma LastQuad(r: Reverse, buf: seq<byte>, i: nat, k: nat)
    requires i <= k < i + 4 && i < |buf| && StopsAt(r, buf, k) && Ends(r, 0)
    ensures Shorten(r, buf, i, |buf|) == k
    ensures EndLength(r, buf, i, |buf|) == k
    ensures Decoded(r, buf, i, |buf|) == DecodeGroup(r, Quad(buf, i), k - i)
  {
    var q := Quad(buf, i);
    assert forall j :: 0 <= j < k - i ==> q[j] == buf[i + j];
    assert q[k - i] == if k < |buf| then buf[k] else 0;
    assert Decoded(r, buf, i + 4, k) == [];
  }
}
