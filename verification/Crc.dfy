/** The CRC loops of AccessNode/Shared/Utils.cpp and AccessNode/Shared/h.cpp: bit by bit, and byte by
    byte through a table. */
module Crc {

  /** The table, as the source prints it, eight entries to a line; both source files hold the same. */
  const CRC_TABLE: seq<seq<bv16>> := [
    [0x0000, 0x1021, 0x2042, 0x3063, 0x4084, 0x50A5, 0x60C6, 0x70E7],
    [0x8108, 0x9129, 0xA14A, 0xB16B, 0xC18C, 0xD1AD, 0xE1CE, 0xF1EF],
    [0x1231, 0x0210, 0x3273, 0x2252, 0x52B5, 0x4294, 0x72F7, 0x62D6],
    [0x9339, 0x8318, 0xB37B, 0xA35A, 0xD3BD, 0xC39C, 0xF3FF, 0xE3DE],
    [0x2462, 0x3443, 0x0420, 0x1401, 0x64E6, 0x74C7, 0x44A4, 0x5485],
    [0xA56A, 0xB54B, 0x8528, 0x9509, 0xE5EE, 0xF5CF, 0xC5AC, 0xD58D],
    [0x3653, 0x2672, 0x1611, 0x0630, 0x76D7, 0x66F6, 0x5695, 0x46B4],
    [0xB75B, 0xA77A, 0x9719, 0x8738, 0xF7DF, 0xE7FE, 0xD79D, 0xC7BC],
    [0x48C4, 0x58E5, 0x6886, 0x78A7, 0x0840, 0x1861, 0x2802, 0x3823],
    [0xC9CC, 0xD9ED, 0xE98E, 0xF9AF, 0x8948, 0x9969, 0xA90A, 0xB92B],
    [0x5AF5, 0x4AD4, 0x7AB7, 0x6A96, 0x1A71, 0x0A50, 0x3A33, 0x2A12],
    [0xDBFD, 0xCBDC, 0xFBBF, 0xEB9E, 0x9B79, 0x8B58, 0xBB3B, 0xAB1A],
    [0x6CA6, 0x7C87, 0x4CE4, 0x5CC5, 0x2C22, 0x3C03, 0x0C60, 0x1C41],
    [0xEDAE, 0xFD8F, 0xCDEC, 0xDDCD, 0xAD2A, 0xBD0B, 0x8D68, 0x9D49],
    [0x7E97, 0x6EB6, 0x5ED5, 0x4EF4, 0x3E13, 0x2E32, 0x1E51, 0x0E70],
    [0xFF9F, 0xEFBE, 0xDFDD, 0xCFFC, 0xBF1B, 0xAF3A, 0x9F59, 0x8F78],
    [0x9188, 0x81A9, 0xB1CA, 0xA1EB, 0xD10C, 0xC12D, 0xF14E, 0xE16F],
    [0x1080, 0x00A1, 0x30C2, 0x20E3, 0x5004, 0x4025, 0x7046, 0x6067],
    [0x83B9, 0x9398, 0xA3FB, 0xB3DA, 0xC33D, 0xD31C, 0xE37F, 0xF35E],
    [0x02B1, 0x1290, 0x22F3, 0x32D2, 0x4235, 0x5214, 0x6277, 0x7256],
    [0xB5EA, 0xA5CB, 0x95A8, 0x8589, 0xF56E, 0xE54F, 0xD52C, 0xC50D],
    [0x34E2, 0x24C3, 0x14A0, 0x0481, 0x7466, 0x6447, 0x5424, 0x4405],
    [0xA7DB, 0xB7FA, 0x8799, 0x97B8, 0xE75F, 0xF77E, 0xC71D, 0xD73C],
    [0x26D3, 0x36F2, 0x0691, 0x16B0, 0x6657, 0x7676, 0x4615, 0x5634],
    [0xD94C, 0xC96D, 0xF90E, 0xE92F, 0x99C8, 0x89E9, 0xB98A, 0xA9AB],
    [0x5844, 0x4865, 0x7806, 0x6827, 0x18C0, 0x08E1, 0x3882, 0x28A3],
    [0xCB7D, 0xDB5C, 0xEB3F, 0xFB1E, 0x8BF9, 0x9BD8, 0xABBB, 0xBB9A],
    [0x4A75, 0x5A54, 0x6A37, 0x7A16, 0x0AF1, 0x1AD0, 0x2AB3, 0x3A92],
    [0xFD2E, 0xED0F, 0xDD6C, 0xCD4D, 0xBDAA, 0xAD8B, 0x9DE8, 0x8DC9],
    [0x7C26, 0x6C07, 0x5C64, 0x4C45, 0x3CA2, 0x2C83, 0x1CE0, 0x0CC1],
    [0xEF1F, 0xFF3E, 0xCF5D, 0xDF7C, 0xAF9B, 0xBFBA, 0x8FD9, 0x9FF8],
    [0x6E17, 0x7E36, 0x4E55, 0x5E74, 0x2E93, 0x3EB2, 0x0ED1, 0x1EF0]
  ]

  predicate IsTable(table: seq<seq<bv16>>) {
    |table| == 32 && forall r :: 0 <= r < 32 ==> |table[r]| == 8
  }

  lemma TableShape()
    ensures IsTable(CRC_TABLE)
  {
  }

  function Entry(i: bv8): bv16
    requires IsTable(CRC_TABLE)
  {
    CRC_TABLE[i as int / 8][i as int % 8]
  }

  /** One step of the polynomial division, most significant bit first. */
  function Bit(x: bv16): bv16 {
    if x & 0x8000 != 0 then (x << 1) ^ 0x1021 else x << 1
  }

  function Bit2(x: bv16): bv16 {
    Bit(Bit(x))
  }

  function Bit4(x: bv16): bv16 {
    Bit2(Bit2(x))
  }

  function Bit8(x: bv16): bv16 {
    Bit4(Bit4(x))
  }

  lemma Rows0And1(acc: bv16, b: bv8, i: bv8)
    requires i == ((acc >> 8) as bv8) ^ b && i as int / 16 == 0 && IsTable(CRC_TABLE)
    ensures TableByte(acc, b) == BitwiseByte(acc, b)
  {
    match i as int
    case 0 => case 1 => case 2 => case 3 => case 4 => case 5 => case 6 => case 7 =>
    case 8 => case 9 => case 10 => case 11 => case 12 => case 13 => case 14 => case 15 =>
  }

  lemma Rows2And3(acc: bv16, b: bv8, i: bv8)
    requires i == ((acc >> 8) as bv8) ^ b && i as int / 16 == 1 && IsTable(CRC_TABLE)
    ensures TableByte(acc, b) == BitwiseByte(acc, b)
  {
    match i as int
    case 16 => case 17 => case 18 => case 19 => case 20 => case 21 => case 22 => case 23 =>
    case 24 => case 25 => case 26 => case 27 => case 28 => case 29 => case 30 => case 31 =>
  }

  lemma Rows4And5(acc: bv16, b: bv8, i: bv8)
    requires i == ((acc >> 8) as bv8) ^ b && i as int / 16 == 2 && IsTable(CRC_TABLE)
    ensures TableByte(acc, b) == BitwiseByte(acc, b)
  {
    match i as int
    case 32 => case 33 => case 34 => case 35 => case 36 => case 37 => case 38 => case 39 =>
    case 40 => case 41 => case 42 => case 43 => case 44 => case 45 => case 46 => case 47 =>
  }

  lemma Rows6And7(acc: bv16, b: bv8, i: bv8)
    requires i == ((acc >> 8) as bv8) ^ b && i as int / 16 == 3 && IsTable(CRC_TABLE)
    ensures TableByte(acc, b) == BitwiseByte(acc, b)
  {
    match i as int
    case 48 => case 49 => case 50 => case 51 => case 52 => case 53 => case 54 => case 55 =>
    case 56 => case 57 => case 58 => case 59 => case 60 => case 61 => case 62 => case 63 =>
  }

  lemma Rows8And9(acc: bv16, b: bv8, i: bv8)
    requires i == ((acc >> 8) as bv8) ^ b && i as int / 16 == 4 && IsTable(CRC_TABLE)
    ensures TableByte(acc, b) == BitwiseByte(acc, b)
  {
    match i as int
    case 64 => case 65 => case 66 => case 67 => case 68 => case 69 => case 70 => case 71 =>
    case 72 => case 73 => case 74 => case 75 => case 76 => case 77 => case 78 => case 79 =>
  }

  lemma Rows10And11(acc: bv16, b: bv8, i: bv8)
    requires i == ((acc >> 8) as bv8) ^ b && i as int / 16 == 5 && IsTable(CRC_TABLE)
    ensures TableByte(acc, b) == BitwiseByte(acc, b)
  {
    match i as int
    case 80 => case 81 => case 82 => case 83 => case 84 => case 85 => case 86 => case 87 =>
    case 88 => case 89 => case 90 => case 91 => case 92 => case 93 => case 94 => case 95 =>
  }

  lemma Rows12And13(acc: bv16, b: bv8, i: bv8)
    requires i == ((acc >> 8) as bv8) ^ b && i as int / 16 == 6 && IsTable(CRC_TABLE)
    ensures TableByte(acc, b) == BitwiseByte(acc, b)
  {
    match i as int
    case 96 => case 97 => case 98 => case 99 => case 100 => case 101 => case 102 => case 103 =>
    case 104 => case 105 => case 106 => case 107 => case 108 => case 109 => case 110 => case 111 =>
  }

  lemma Rows14And15(acc: bv16, b: bv8, i: bv8)
    requires i == ((acc >> 8) as bv8) ^ b && i as int / 16 == 7 && IsTable(CRC_TABLE)
    ensures TableByte(acc, b) == BitwiseByte(acc, b)
  {
    match i as int
    case 112 => case 113 => case 114 => case 115 => case 116 => case 117 => case 118 => case 119 =>
    case 120 => case 121 => case 122 => case 123 => case 124 => case 125 => case 126 => case 127 =>
  }

  lemma Rows16And17(acc: bv16, b: bv8, i: bv8)
    requires i == ((acc >> 8) as bv8) ^ b && i as int / 16 == 8 && IsTable(CRC_TABLE)
    ensures TableByte(acc, b) == BitwiseByte(acc, b)
  {
    match i as int
    case 128 => case 129 => case 130 => case 131 => case 132 => case 133 => case 134 => case 135 =>
    case 136 => case 137 => case 138 => case 139 => case 140 => case 141 => case 142 => case 143 =>
  }

  lemma Rows18And19(acc: bv16, b: bv8, i: bv8)
    requires i == ((acc >> 8) as bv8) ^ b && i as int / 16 == 9 && IsTable(CRC_TABLE)
    ensures TableByte(acc, b) == BitwiseByte(acc, b)
  {
    match i as int
    case 144 => case 145 => case 146 => case 147 => case 148 => case 149 => case 150 => case 151 =>
    case 152 => case 153 => case 154 => case 155 => case 156 => case 157 => case 158 => case 159 =>
  }

  lemma Rows20And21(acc: bv16, b: bv8, i: bv8)
    requires i == ((acc >> 8) as bv8) ^ b && i as int / 16 == 10 && IsTable(CRC_TABLE)
    ensures TableByte(acc, b) == BitwiseByte(acc, b)
  {
    match i as int
    case 160 => case 161 => case 162 => case 163 => case 164 => case 165 => case 166 => case 167 =>
    case 168 => case 169 => case 170 => case 171 => case 172 => case 173 => case 174 => case 175 =>
  }

  lemma Rows22And23(acc: bv16, b: bv8, i: bv8)
    requires i == ((acc >> 8) as bv8) ^ b && i as int / 16 == 11 && IsTable(CRC_TABLE)
    ensures TableByte(acc, b) == BitwiseByte(acc, b)
  {
    match i as int
    case 176 => case 177 => case 178 => case 179 => case 180 => case 181 => case 182 => case 183 =>
    case 184 => case 185 => case 186 => case 187 => case 188 => case 189 => case 190 => case 191 =>
  }

  lemma Rows24And25(acc: bv16, b: bv8, i: bv8)
    requires i == ((acc >> 8) as bv8) ^ b && i as int / 16 == 12 && IsTable(CRC_TABLE)
    ensures TableByte(acc, b) == BitwiseByte(acc, b)
  {
    match i as int
    case 192 => case 193 => case 194 => case 195 => case 196 => case 197 => case 198 => case 199 =>
    case 200 => case 201 => case 202 => case 203 => case 204 => case 205 => case 206 => case 207 =>
  }

  lemma Rows26And27(acc: bv16, b: bv8, i: bv8)
    requires i == ((acc >> 8) as bv8) ^ b && i as int / 16 == 13 && IsTable(CRC_TABLE)
    ensures TableByte(acc, b) == BitwiseByte(acc, b)
  {
    match i as int
    case 208 => case 209 => case 210 => case 211 => case 212 => case 213 => case 214 => case 215 =>
    case 216 => case 217 => case 218 => case 219 => case 220 => case 221 => case 222 => case 223 =>
  }

  lemma Rows28And29(acc: bv16, b: bv8, i: bv8)
    requires i == ((acc >> 8) as bv8) ^ b && i as int / 16 == 14 && IsTable(CRC_TABLE)
    ensures TableByte(acc, b) == BitwiseByte(acc, b)
  {
    match i as int
    case 224 => case 225 => case 226 => case 227 => case 228 => case 229 => case 230 => case 231 =>
    case 232 => case 233 => case 234 => case 235 => case 236 => case 237 => case 238 => case 239 =>
  }

  lemma Rows30And31(acc: bv16, b: bv8, i: bv8)
    requires i == ((acc >> 8) as bv8) ^ b && i as int / 16 == 15 && IsTable(CRC_TABLE)
    ensures TableByte(acc, b) == BitwiseByte(acc, b)
  {
    match i as int
    case 240 => case 241 => case 242 => case 243 => case 244 => case 245 => case 246 => case 247 =>
    case 248 => case 249 => case 250 => case 251 => case 252 => case 253 => case 254 => case 255 =>
  }

  /** The loop body of `crcRFBlock` and `computeCRC`: one byte through the table. */
  function TableByte(acc: bv16, b: bv8): bv16 {
    TableShape();
    (acc << 8) ^ Entry(((acc >> 8) as bv8) ^ b)
  }

  /** One byte of the bitwise algorithm. */
  function BitwiseByte(acc: bv16, b: bv8): bv16 {
    Bit8(acc ^ ((b as bv16) << 8))
  }

  /** Through the table or bit by bit: the same, for every accumulator and every byte. */
  lemma TableIsBitwise(acc: bv16, b: bv8)
    ensures TableByte(acc, b) == BitwiseByte(acc, b)
  {
    TableShape();
    var i := ((acc >> 8) as bv8) ^ b;
    match i as int / 16
    case 0 => Rows0And1(acc, b, i);
    case 1 => Rows2And3(acc, b, i);
    case 2 => Rows4And5(acc, b, i);
    case 3 => Rows6And7(acc, b, i);
    case 4 => Rows8And9(acc, b, i);
    case 5 => Rows10And11(acc, b, i);
    case 6 => Rows12And13(acc, b, i);
    case 7 => Rows14And15(acc, b, i);
    case 8 => Rows16And17(acc, b, i);
    case 9 => Rows18And19(acc, b, i);
    case 10 => Rows20And21(acc, b, i);
    case 11 => Rows22And23(acc, b, i);
    case 12 => Rows24And25(acc, b, i);
    case 13 => Rows26And27(acc, b, i);
    case 14 => Rows28And29(acc, b, i);
    case 15 => Rows30And31(acc, b, i);
  }

  function StepsDone(x: bv16, n: nat): bv16 {
    if n == 0 then x else Bit(StepsDone(x, n - 1))
  }

  function Shifted(x: bv16, n: nat): bv16 {
    if n == 0 then x else Shifted(x, n - 1) << 1
  }

  lemma Last(r: bv16, added: bv16, d: bv16)
    requires added == 0 && r ^ added == d
    ensures r == d
  {
  }

  lemma EightSteps(x: bv16, d: bv16)
    requires d == StepsDone(x, 8)
    ensures d == Bit8(x)
  {
    assert StepsDone(x, 1) == Bit(x);
    assert StepsDone(x, 2) == Bit2(x);
    assert StepsDone(x, 3) == Bit(Bit2(x));
    assert StepsDone(x, 4) == Bit4(x);
    assert StepsDone(x, 5) == Bit(Bit4(x));
    assert StepsDone(x, 6) == Bit2(Bit4(x));
    assert StepsDone(x, 7) == Bit(Bit2(Bit4(x)));
  }

  lemma ShiftedOut(x: bv16)
    ensures Shifted(x << 8, 8) == 0
  {
    assert Shifted(x << 8, 1) == x << 9;
    assert Shifted(x << 8, 2) == x << 10;
    assert Shifted(x << 8, 3) == x << 11;
    assert Shifted(x << 8, 4) == x << 12;
    assert Shifted(x << 8, 5) == x << 13;
    assert Shifted(x << 8, 6) == x << 14;
    assert Shifted(x << 8, 7) == x << 15;
  }

  lemma StepWithFeedback(r: bv16, added: bv16, d: bv16)
    requires d == r ^ added && (added ^ r) & 0x8000 != 0
    ensures ((r << 1) ^ 0x1021) ^ (added << 1) == Bit(d)
  {
  }

  lemma StepWithout(r: bv16, added: bv16, d: bv16)
    requires d == r ^ added && (added ^ r) & 0x8000 == 0
    ensures (r << 1) ^ (added << 1) == Bit(d)
  {
  }

  /** The body of the loop in `crc`. */
  method CrcStep(addedByte: bv16, current: bv16, ghost d: bv16)
    returns (added: bv16, r: bv16, ghost d': bv16)
    requires d == current ^ addedByte
    ensures d' == Bit(d) && d' == r ^ added && added == addedByte << 1
  {
    if (addedByte ^ current) & 0x8000 != 0 {
      StepWithFeedback(current, addedByte, d);
      r := (current << 1) ^ 0x1021;
    } else {
      StepWithout(current, addedByte, d);
      r := current << 1;
    }
    added := addedByte << 1;
    d' := r ^ added;
  }

  lemma OneStepMore(x: bv16, first: bv16, n: nat)
    ensures StepsDone(x, n + 1) == Bit(StepsDone(x, n)) && Shifted(first, n + 1) == Shifted(first, n) << 1
  {
  }

  /** The loop in `crc`, on a byte already moved up; `d` is the difference it works on. */
  method CrcLoop(first: bv16, current: bv16, ghost x: bv16) returns (added: bv16, r: bv16, ghost d: bv16)
    requires x == current ^ first
    ensures d == r ^ added && d == StepsDone(x, 8) && added == Shifted(first, 8)
  {
    added, r, d := first, current, x;
    ghost var n: nat := 0;
    for i := 8 downto 0
      invariant n == 8 - i && d == r ^ added
      invariant d == StepsDone(x, n)
      invariant added == Shifted(first, n)
    {
      OneStepMore(x, first, n);
      added, r, d := CrcStep(added, r, d);
      n := n + 1;
    }
  }

  /** `crc`: eight steps on a byte that is shifted out against the accumulator. */
  method Crc(addedByte: bv16, current: bv16) returns (r: bv16)
    ensures r == Bit8(current ^ (addedByte << 8))
  {
    ghost var x := current ^ (addedByte << 8);
    var added;
    ghost var d;
    added, r, d := CrcLoop(addedByte << 8, current, x);
    ShiftedOut(addedByte);
    Last(r, added, d);
    EightSteps(x, r);
  }

  function Fold(acc: bv16, s: seq<bv8>): bv16 {
    if s == [] then acc else BitwiseByte(Fold(acc, s[..|s| - 1]), s[|s| - 1])
  }

  lemma {:induction false} FoldAppend(acc: bv16, a: seq<bv8>, b: seq<bv8>)
    ensures Fold(acc, a + b) == Fold(Fold(acc, a), b)
    decreases |b|
  {
    if b == [] {
      assert a + b == a;
    } else {
      FoldAppend(acc, a, b[..|b| - 1]);
      assert (a + b)[..|a + b| - 1] == a + b[..|b| - 1];
    }
  }

  /** The nine digits from 1 to 9. */
  const DIGITS: seq<bv8> := [0x31, 0x32, 0x33, 0x34, 0x35, 0x36, 0x37, 0x38, 0x39]

  /** The values that the register takes on the way through `s`. */
  predicate Passes(v: seq<bv16>, s: seq<bv8>) {
    |v| == |s| + 1 && forall k :: 0 <= k < |s| ==> BitwiseByte(v[k], s[k]) == v[k + 1]
  }

  lemma {:induction false} FoldPasses(v: seq<bv16>, s: seq<bv8>)
    requires Passes(v, s)
    ensures Fold(v[0], s) == v[|s|]
    decreases |s|
  {
    if s != [] {
      FoldPasses(v[..|s|], s[..|s| - 1]);
    }
  }

  lemma FromZero(v: seq<bv16>)
    requires v == [0x0000, 0x2672, 0x20B5, 0x9752, 0xD789, 0x546C, 0x20E4, 0x86D6, 0x9015, 0x31C3]
    ensures Passes(v, DIGITS)
  {
  }

  /** The published check value of the CRC with this polynomial, from zero. */
  lemma CheckValue()
    ensures Fold(0, DIGITS) == 0x31C3 && Htons(0x31C3) == 0xC331
  {
    var v := [0x0000, 0x2672, 0x20B5, 0x9752, 0xD789, 0x546C, 0x20E4, 0x86D6, 0x9015, 0x31C3];
    FromZero(v);
    FoldPasses(v, DIGITS);
  }

  /** `htons` on a little-endian host. */
  function Htons(x: bv16): bv16 {
    (x << 8) | (x >> 8)
  }

  method TableCrc(start: bv16, block: seq<bv8>) returns (acc: bv16)
    ensures acc == Fold(start, block)
  {
    acc := start;
    for i := 0 to |block|
      invariant acc == Fold(start, block[..i])
    {
      TableIsBitwise(acc, block[i]);
      assert block[..i + 1][..i] == block[..i];
      acc := TableByte(acc, block[i]);
    }
    assert block[..|block|] == block;
  }

  /** `crcRFBlock` starts from zero. */
  method CrcRFBlock(block: seq<bv8>) returns (r: bv16)
    ensures r == Htons(Fold(0, block))
  {
    var acc := TableCrc(0, block);
    r := Htons(acc);
  }

  /** `computeCRC` starts from all ones. */
  method ComputeCRCTable(buff: seq<bv8>) returns (r: bv16)
    ensures r == Htons(Fold(0xFFFF, buff))
  {
    var acc := TableCrc(0xFFFF, buff);
    r := Htons(acc);
  }

  /** `ComputeCRC`: the bitwise loop over a packet; a result byte that would read as a frame mark or
      as the escape character is complemented. */
  method ComputeCRC(packet: seq<bv8>, start: bv16) returns (hi: bv8, lo: bv8)
    ensures hi == Plain((Fold(start, packet) >> 8) as bv8)
    ensures lo == Plain((Fold(start, packet) & 0xFF) as bv8)
  {
    var current := start;
    for i := 0 to |packet|
      invariant current == Fold(start, packet[..i])
    {
      assert packet[..i + 1][..i] == packet[..i];
      current := Crc(packet[i] as bv16, current);
    }
    assert packet[..|packet|] == packet;
    hi, lo := Plain((current >> 8) as bv8), Plain((current & 0xFF) as bv8);
  }

  function Plain(b: bv8): bv8 {
    if b == 0xF0 || b == 0xF1 || b == 0xF2 then 0xFF - b else b
  }

  /** No result byte is a mark or the escape character, and any other byte stays. */
  lemma PlainSays(b: bv8)
    ensures Plain(b) != 0xF0 && Plain(b) != 0xF1 && Plain(b) != 0xF2
    ensures Plain(b) == if b == 0xF0 then 0x0F else if b == 0xF1 then 0x0E else if b == 0xF2 then 0x0D else b
  {
  }

  lemma HighByteCancels(c: bv16)
    ensures BitwiseByte(c, (c >> 8) as bv8) == c << 8
  {
  }

  lemma LowByteCancels(c: bv16)
    ensures BitwiseByte(c << 8, (c & 0xFF) as bv8) == 0
  {
  }

  /** A block that carries its own CRC, high byte first, checks to zero. */
  lemma AppendedCrcChecks(start: bv16, block: seq<bv8>)
    ensures var c := Fold(start, block);
            Fold(start, block + [(c >> 8) as bv8, (c & 0xFF) as bv8]) == 0
  {
    var c := Fold(start, block);
    FoldTwo(start, block, (c >> 8) as bv8, (c & 0xFF) as bv8);
    Residue(c);
  }

  lemma FoldTwo(start: bv16, block: seq<bv8>, b: bv8, c: bv8)
    ensures Fold(start, block + [b, c]) == BitwiseByte(BitwiseByte(Fold(start, block), b), c)
  {
    var s := block + [b, c];
    assert s[..|s| - 1] == block + [b] && (block + [b])[..|block|] == block;
  }

  lemma Residue(c: bv16)
    ensures BitwiseByte(BitwiseByte(c, (c >> 8) as bv8), (c & 0xFF) as bv8) == 0
  {
    HighByteCancels(c);
    LowByteCancels(c);
  }

  lemma BitInjective(x: bv16, y: bv16)
    requires Bit(x) == Bit(y)
    ensures x == y
  {
    if x & 0x8000 != 0 {
      if y & 0x8000 != 0 {
      }
    } else {
      if y & 0x8000 != 0 {
      }
    }
  }

  lemma Bit2Injective(x: bv16, y: bv16)
    requires Bit2(x) == Bit2(y)
    ensures x == y
  {
    BitInjective(Bit(x), Bit(y));
    BitInjective(x, y);
  }

  lemma Bit4Injective(x: bv16, y: bv16)
    requires Bit4(x) == Bit4(y)
    ensures x == y
  {
    Bit2Injective(Bit2(x), Bit2(y));
    Bit2Injective(x, y);
  }

  lemma Bit8Injective(x: bv16, y: bv16)
    requires Bit8(x) == Bit8(y)
    ensures x == y
  {
    Bit4Injective(Bit4(x), Bit4(y));
    Bit4Injective(x, y);
  }

  lemma ByteInjective(x: bv16, b: bv8, y: bv16, c: bv8)
    requires BitwiseByte(x, b) == BitwiseByte(y, c)
    ensures b == c ==> x == y
    ensures x == y ==> b == c
  {
    Bit8Injective(x ^ ((b as bv16) << 8), y ^ ((c as bv16) << 8));
    Cancel(x, b, y, c);
  }

  lemma Cancel(x: bv16, b: bv8, y: bv16, c: bv8)
    requires x ^ ((b as bv16) << 8) == y ^ ((c as bv16) << 8)
    ensures b == c ==> x == y
    ensures x == y ==> b == c
  {
  }

  lemma {:induction false} FoldInjective(x: bv16, y: bv16, s: seq<bv8>)
    requires Fold(x, s) == Fold(y, s)
    ensures x == y
    decreases |s|
  {
    if s != [] {
      var s', b := s[..|s| - 1], s[|s| - 1];
      ByteInjective(Fold(x, s'), b, Fold(y, s'), b);
      FoldInjective(x, y, s');
    }
  }

  /** One corrupted byte, wherever it stands in a block of any length, always changes the CRC. */
  lemma OneBadByteShows(start: bv16, before: seq<bv8>, b: bv8, c: bv8, after: seq<bv8>)
    requires b != c
    ensures Fold(start, before + [b] + after) != Fold(start, before + [c] + after)
  {
    FoldAppend(start, before + [b], after);
    FoldAppend(start, before + [c], after);
    var acc := Fold(start, before);
    assert (before + [b])[..|before|] == before && (before + [c])[..|before|] == before;
    if Fold(start, before + [b] + after) == Fold(start, before + [c] + after) {
      FoldInjective(Fold(start, before + [b]), Fold(start, before + [c]), after);
      ByteInjective(acc, b, acc, c);
    }
  }
}
