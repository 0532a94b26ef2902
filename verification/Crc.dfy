/** The keyed checksum of a message: CRC-32 over the message and one byte chosen by the message index. */
module Crc {
  import opened LittleEndian

  // ---- The key table ----

  /** EncryptCode, sixteen entries to a row. */
  function KeyRow(r: nat): (row: seq<nat>)
    requires r < 16
    ensures |row| == 16
  {
    match r
    case 0 =>
      [0xdc, 0x6e, 0x2d, 0xc4, 0x67, 0x18, 0x3c, 0x9d, 0x5d, 0x26, 0xfe, 0x5c, 0x98, 0x64, 0x8c, 0xea]
    case 1 =>
      [0x6d, 0x25, 0x42, 0x59, 0x79, 0xa7, 0x15, 0xc1, 0x3a, 0x82, 0xde, 0xe3, 0x2e, 0x89, 0x3f, 0xe7]
    case 2 =>
      [0xd5, 0xcc, 0xa1, 0x6b, 0x97, 0xeb, 0x68, 0x1e, 0x01, 0xad, 0x0e, 0x74, 0x10, 0x11, 0x61, 0x2b]
    case 3 =>
      [0x38, 0xb8, 0x4e, 0xc8, 0xa6, 0x8e, 0xce, 0x55, 0xbf, 0x32, 0x0f, 0x87, 0x1b, 0x9f, 0xb9, 0xd8]
    case 4 =>
      [0xf2, 0x5a, 0xe1, 0x9a, 0x62, 0x5b, 0x4d, 0x95, 0x93, 0x49, 0x39, 0xfc, 0xe6, 0x7c, 0xc2, 0xbc]
    case 5 =>
      [0x4c, 0x83, 0x14, 0x86, 0x27, 0x80, 0x17, 0xd7, 0x5e, 0x08, 0x58, 0x4b, 0x73, 0xe2, 0x75, 0x8d]
    case 6 =>
      [0x29, 0x50, 0x8a, 0xd1, 0x88, 0x8b, 0x02, 0xf6, 0x4f, 0x7e, 0x69, 0x9b, 0xb5, 0x00, 0xb4, 0xcf]
    case 7 =>
      [0x84, 0x7b, 0x19, 0x6f, 0xcb, 0x90, 0x37, 0xd6, 0xab, 0xbb, 0x03, 0xa9, 0x43, 0x2c, 0x12, 0x33]
    case 8 =>
      [0x0d, 0x51, 0xed, 0x35, 0xc6, 0x4a, 0xee, 0x70, 0x0a, 0x13, 0x3e, 0x56, 0x1c, 0xfa, 0x91, 0xb0]
    case 9 =>
      [0x16, 0xf4, 0xa5, 0xf8, 0x44, 0x92, 0xc0, 0xff, 0xa4, 0x3d, 0x1f, 0x8f, 0xdb, 0x54, 0xae, 0x46]
    case 10 =>
      [0xc5, 0x6a, 0x2a, 0xb1, 0xe4, 0xaf, 0xa3, 0x3b, 0x1a, 0x60, 0x36, 0x24, 0xd2, 0xb2, 0xcd, 0xca]
    case 11 =>
      [0xe9, 0xb3, 0x9e, 0x53, 0x72, 0x47, 0x57, 0x48, 0xe8, 0x0c, 0x81, 0xac, 0x41, 0xf3, 0x40, 0x52]
    case 12 =>
      [0xc7, 0xf7, 0x34, 0x99, 0xc3, 0x30, 0x06, 0xf1, 0x65, 0xf5, 0xa8, 0xa2, 0x7a, 0x05, 0x6c, 0xd4]
    case 13 =>
      [0x45, 0xd3, 0xec, 0x2f, 0x0b, 0xaa, 0x1d, 0xc9, 0xa0, 0x22, 0xdd, 0x71, 0xdf, 0xb6, 0x96, 0xf0]
    case 14 =>
      [0x23, 0xef, 0xe5, 0x04, 0x21, 0xda, 0x7d, 0x09, 0x20, 0xfd, 0x78, 0xbe, 0xd9, 0x66, 0x7f, 0x85]
    case _ =>
      [0x31, 0xd0, 0x28, 0x63, 0x5f, 0x07, 0xb7, 0xba, 0x94, 0xe0, 0x9c, 0xbd, 0xf9, 0xfb, 0x76, 0x77]
  }

  /** The inverse table: where in EncryptCode a byte stands. */
  function IndexRow(r: nat): (row: seq<nat>)
    requires r < 16
    ensures |row| == 16
  {
    match r
    case 0 =>
      [0x6d, 0x28, 0x66, 0x7a, 0xe3, 0xcd, 0xc6, 0xf5, 0x59, 0xe7, 0x88, 0xd4, 0xb9, 0x80, 0x2a, 0x3a]
    case 1 =>
      [0x2c, 0x2d, 0x7e, 0x89, 0x52, 0x16, 0x90, 0x56, 0x05, 0x72, 0xa8, 0x3c, 0x8c, 0xd6, 0x27, 0x9a]
    case 2 =>
      [0xe8, 0xe4, 0xd9, 0xe0, 0xab, 0x11, 0x09, 0x54, 0xf2, 0x60, 0xa2, 0x2f, 0x7d, 0x02, 0x1c, 0xd3]
    case 3 =>
      [0xc5, 0xf0, 0x39, 0x7f, 0xc2, 0x83, 0xaa, 0x76, 0x30, 0x4a, 0x18, 0xa7, 0x06, 0x99, 0x8a, 0x1e]
    case 4 =>
      [0xbe, 0xbc, 0x12, 0x7c, 0x94, 0xd0, 0x9f, 0xb5, 0xb7, 0x49, 0x85, 0x5b, 0x50, 0x46, 0x32, 0x68]
    case 5 =>
      [0x61, 0x81, 0xbf, 0xb3, 0x9d, 0x37, 0x8b, 0xb6, 0x5a, 0x13, 0x41, 0x45, 0x0b, 0x08, 0x58, 0xf4]
    case 6 =>
      [0xa9, 0x2e, 0x44, 0xf3, 0x0d, 0xc8, 0xed, 0x04, 0x26, 0x6a, 0xa1, 0x23, 0xce, 0x10, 0x01, 0x73]
    case 7 =>
      [0x87, 0xdb, 0xb4, 0x5c, 0x2b, 0x5e, 0xfe, 0xff, 0xea, 0x14, 0xcc, 0x71, 0x4d, 0xe6, 0x69, 0xee]
    case 8 =>
      [0x55, 0xba, 0x19, 0x51, 0x70, 0xef, 0x53, 0x3b, 0x64, 0x1d, 0x62, 0x65, 0x0e, 0x5f, 0x35, 0x9b]
    case 9 =>
      [0x75, 0x8e, 0x95, 0x48, 0xf8, 0x47, 0xde, 0x24, 0x0c, 0xc3, 0x43, 0x6b, 0xfa, 0x07, 0xb2, 0x3d]
    case 10 =>
      [0xd8, 0x22, 0xcb, 0xa6, 0x98, 0x92, 0x34, 0x15, 0xca, 0x7b, 0xd5, 0x78, 0xbb, 0x29, 0x9e, 0xa5]
    case 11 =>
      [0x8f, 0xa3, 0xad, 0xb1, 0x6e, 0x6c, 0xdd, 0xf6, 0x31, 0x3e, 0xf7, 0x79, 0x4f, 0xfb, 0xeb, 0x38]
    case 12 =>
      [0x96, 0x17, 0x4e, 0xc4, 0x03, 0xa0, 0x84, 0xc0, 0x33, 0xd7, 0xaf, 0x74, 0x21, 0xae, 0x36, 0x6f]
    case 13 =>
      [0xf1, 0x63, 0xac, 0xd1, 0xcf, 0x20, 0x77, 0x57, 0x3f, 0xec, 0xe5, 0x9c, 0x00, 0xda, 0x1a, 0xdc]
    case 14 =>
      [0xf9, 0x42, 0x5d, 0x1b, 0xa4, 0xe2, 0x4c, 0x1f, 0xb8, 0xb0, 0x0f, 0x25, 0xd2, 0x82, 0x86, 0xe1]
    case _ =>
      [0xdf, 0xc7, 0x40, 0xbd, 0x91, 0xc9, 0x67, 0xc1, 0x93, 0xfc, 0x8d, 0xfd, 0x4b, 0xe9, 0x0a, 0x97]
  }

  function Key(i: nat): nat
    requires i < 256
  {
    KeyRow(i / 16)[i % 16]
  }

  predicate StandsAt(k: nat, i: nat) {
    k < 256 && IndexRow(k / 16)[k % 16] == i
  }

  lemma Row0(c: nat)
    requires c < 16
    ensures StandsAt(KeyRow(0)[c], 0 + c)
  {
  }

  lemma Row1(c: nat)
    requires c < 16
    ensures StandsAt(KeyRow(1)[c], 16 + c)
  {
  }

  lemma Row2(c: nat)
    requires c < 16
    ensures StandsAt(KeyRow(2)[c], 32 + c)
  {
  }

  lemma Row3(c: nat)
    requires c < 16
    ensures StandsAt(KeyRow(3)[c], 48 + c)
  {
  }

  lemma Row4(c: nat)
    requires c < 16
    ensures StandsAt(KeyRow(4)[c], 64 + c)
  {
  }

  lemma Row5(c: nat)
    requires c < 16
    ensures StandsAt(KeyRow(5)[c], 80 + c)
  {
  }

  lemma Row6(c: nat)
    requires c < 16
    ensures StandsAt(KeyRow(6)[c], 96 + c)
  {
  }

  lemma Row7(c: nat)
    requires c < 16
    ensures StandsAt(KeyRow(7)[c], 112 + c)
  {
  }

  lemma Row8(c: nat)
    requires c < 16
    ensures StandsAt(KeyRow(8)[c], 128 + c)
  {
  }

  lemma Row9(c: nat)
    requires c < 16
    ensures StandsAt(KeyRow(9)[c], 144 + c)
  {
  }

  lemma Row10(c: nat)
    requires c < 16
    ensures StandsAt(KeyRow(10)[c], 160 + c)
  {
  }

  lemma Row11(c: nat)
    requires c < 16
    ensures StandsAt(KeyRow(11)[c], 176 + c)
  {
  }

  lemma Row12(c: nat)
    requires c < 16
    ensures StandsAt(KeyRow(12)[c], 192 + c)
  {
  }

  lemma Row13(c: nat)
    requires c < 16
    ensures StandsAt(KeyRow(13)[c], 208 + c)
  {
  }

  lemma Row14(c: nat)
    requires c < 16
    ensures StandsAt(KeyRow(14)[c], 224 + c)
  {
    match c case 0 => case 1 => case 2 => case 3 => case 4 => case 5 => case 6 => case 7 =>
      case 8 => case 9 => case 10 => case 11 => case 12 => case 13 => case 14 => case _ =>
  }

  lemma Row15(c: nat)
    requires c < 16
    ensures StandsAt(KeyRow(15)[c], 240 + c)
  {
    match c case 0 => case 1 => case 2 => case 3 => case 4 => case 5 => case 6 => case 7 =>
      case 8 => case 9 => case 10 => case 11 => case 12 => case 13 => case 14 => case _ =>
  }

  /** The table is a permutation: every index can be told from its entry. */
  lemma KeyIsInvertible(i: nat)
    requires i < 256
    ensures StandsAt(Key(i), i)
  {
    var c := i % 16;
    match i / 16
    case 0 => Row0(c);
    case 1 => Row1(c);
    case 2 => Row2(c);
    case 3 => Row3(c);
    case 4 => Row4(c);
    case 5 => Row5(c);
    case 6 => Row6(c);
    case 7 => Row7(c);
    case 8 => Row8(c);
    case 9 => Row9(c);
    case 10 => Row10(c);
    case 11 => Row11(c);
    case 12 => Row12(c);
    case 13 => Row13(c);
    case 14 => Row14(c);
    case 15 => Row15(c);
  }

  function KeyByte(index: nat): byte {
    KeyIsInvertible(index % 256);
    Key(index % 256)
  }

  /** The key byte is entry c of row r of the table, where the index is 16 r + c, give or take multiples of 256. */
  lemma KeyByteIsEntry(k: nat, r: nat, c: nat)
    requires r < 16 && c < 16
    ensures KeyByte(256 * k + 16 * r + c) == KeyRow(r)[c]
  {
    var i := 16 * r + c;
    assert (256 * k + i) % 256 == i && i / 16 == r && i % 16 == c;
  }

  lemma KeyByteInjective(i: nat, j: nat)
    ensures KeyByte(i) == KeyByte(j) <==> i % 256 == j % 256
  {
    KeyIsInvertible(i % 256);
    KeyIsInvertible(j % 256);
  }

  // ---- Words as bits, least significant first ----

  type Bits = seq<bool>

  type Word = s: Bits | |s| == 32 witness Zeros(32)

  function Zeros(n: nat): Bits {
    seq(n, i => false)
  }

  /** The n low-order bits of a number. */
  function ToBits(x: nat, n: nat): (s: Bits)
    ensures |s| == n
  {
    if n == 0 then [] else [x % 2 == 1] + ToBits(x / 2, n - 1)
  }

  function Xor(a: Bits, b: Bits): (c: Bits)
    requires |a| == |b|
    ensures |c| == |a|
  {
    seq(|a|, i requires 0 <= i < |a| => a[i] != b[i])
  }

  function Not(a: Word): Word {
    seq(32, i requires 0 <= i < 32 => !a[i])
  }

  /** s >> n. */
  function Down(s: Word, n: nat): Word
    requires n <= 32
  {
    s[n..] + Zeros(n)
  }

  /** A byte as a word. */
  function Low(b: byte): Word {
    ToBits(b, 8) + Zeros(24)
  }

  // ---- CRC-32, table driven ----

  /** The IEEE polynomial, reversed. The register is described for any polynomial g. */
  const POLYNOMIAL: Word := ToBits(0xedb8_8320, 32)

  /** One step of the shift register. */
  function Shift(g: Word, s: Word): Word {
    if s[0] then Xor(Down(s, 1), g) else Down(s, 1)
  }

  function Shifts(g: Word, s: Word, n: nat): Word
    decreases n
  {
    if n == 0 then s else Shifts(g, Shift(g, s), n - 1)
  }

  /** The entry of the IEEE table for a byte, given as its bits. */
  function TableEntry(g: Word, b: Bits): Word
    requires |b| == 8
  {
    Shifts(g, b + Zeros(24), 8)
  }

  function Step(g: Word, s: Word, b: byte): Word {
    Xor(TableEntry(g, Xor(s[..8], ToBits(b, 8))), Down(s, 8))
  }

  function FoldWith(step: (Word, byte) -> Word, s: Word, p: seq<byte>): Word
    decreases |p|
  {
    if p == [] then s else FoldWith(step, step(s, p[0]), p[1..])
  }

  function Stepper(g: Word): (Word, byte) -> Word {
    (s, b) => Step(g, s, b)
  }

  function Fold(g: Word, s: Word, p: seq<byte>): Word {
    FoldWith(Stepper(g), s, p)
  }

  /** crc32.Update: the register is kept inverted between calls. */
  function Update(g: Word, crc: Word, p: seq<byte>): Word {
    Not(Fold(g, Not(crc), p))
  }

  function Checksum(g: Word, p: seq<byte>): Word {
    Update(g, Zeros(32), p)
  }

  function Keyed(g: Word, p: seq<byte>, index: nat): Word {
    Update(g, Checksum(g, p), [KeyByte(index)])
  }

  /** CRC, with its key byte chosen by the low byte of the index. */
  function KeyedCrc(p: seq<byte>, index: nat): Word {
    Keyed(POLYNOMIAL, p, index)
  }

  // ---- The reference: a register fed bit by bit ----

  function BitIn(g: Word, s: Word, bit: bool): Word {
    Shift(g, if bit then s[0 := !s[0]] else s)
  }

  function BitsIn(g: Word, s: Word, bits: Bits): Word
    decreases |bits|
  {
    if bits == [] then s else BitsIn(g, BitIn(g, s, bits[0]), bits[1..])
  }

  /** The bits of a message in the order of transmission. */
  function MessageBits(p: seq<byte>): Bits {
    if p == [] then [] else ToBits(p[0], 8) + MessageBits(p[1..])
  }

  /** Preset to ones, fed the message bit by bit, and inverted. */
  function CrcOf(g: Word, p: seq<byte>): Word {
    Not(BitsIn(g, Not(Zeros(32)), MessageBits(p)))
  }

  function Crc32(p: seq<byte>): Word {
    CrcOf(POLYNOMIAL, p)
  }

  // ---- Arithmetic of the register ----

  lemma ShiftLinear(g: Word, a: Word, b: Word)
    ensures Shift(g, Xor(a, b)) == Xor(Shift(g, a), Shift(g, b))
  {
  }

  lemma {:induction false} ShiftsLinear(g: Word, a: Word, b: Word, n: nat)
    ensures Shifts(g, Xor(a, b), n) == Xor(Shifts(g, a, n), Shifts(g, b, n))
    decreases n
  {
    if n > 0 {
      ShiftLinear(g, a, b);
      ShiftsLinear(g, Shift(g, a), Shift(g, b), n - 1);
    }
  }

  lemma {:induction false} TopBit(x: nat, n: nat, half: nat)
    requires n > 0 && Power(n - 1) == half && half <= x < 2 * half
    ensures ToBits(x, n)[n - 1]
    decreases n
  {
    if n > 1 {
      TopBit(x / 2, n - 1, half / 2);
    }
  }

  function Power(n: nat): nat {
    if n == 0 then 1 else 2 * Power(n - 1)
  }

  lemma PolynomialTop()
    ensures POLYNOMIAL[31]
  {
    assert Power(8) == 0x100 && Power(16) == 0x1_0000 && Power(24) == 0x100_0000;
    assert Power(31) == 0x8000_0000;
    TopBit(0xedb8_8320, 32, 0x8000_0000);
  }

  /** As the polynomial ends in a one, the bit shifted out can be told from the result. */
  lemma ShiftInjective(g: Word, a: Word, b: Word)
    requires g[31] && Shift(g, a) == Shift(g, b)
    ensures a == b
  {
    assert Shift(g, a)[31] == a[0] && Shift(g, b)[31] == b[0];
    forall i | 1 <= i < 32 ensures a[i] == b[i] {
      assert Down(a, 1)[i - 1] == a[i] && Down(b, 1)[i - 1] == b[i];
      assert Shift(g, a)[i - 1] == Shift(g, b)[i - 1];
    }
  }

  lemma {:induction false} ShiftsInjective(g: Word, a: Word, b: Word, n: nat)
    requires g[31] && Shifts(g, a, n) == Shifts(g, b, n)
    ensures a == b
    decreases n
  {
    if n > 0 {
      ShiftsInjective(g, Shift(g, a), Shift(g, b), n - 1);
      ShiftInjective(g, a, b);
    }
  }

  /** Bits with nothing below them move down unchanged. */
  lemma {:induction false} ShiftsDown(g: Word, h: Word, n: nat)
    requires n <= 32 && h[..n] == Zeros(n)
    ensures Shifts(g, h, n) == Down(h, n)
    decreases n
  {
    if n > 0 {
      assert !h[..n][0];
      assert Down(h, 1)[..n - 1] == Zeros(n - 1) by {
        forall i | 0 <= i < n - 1 ensures !Down(h, 1)[i] {
          assert !h[..n][i + 1];
        }
      }
      ShiftsDown(g, Down(h, 1), n - 1);
      assert Down(Down(h, 1), n - 1) == Down(h, n);
    } else {
      assert Down(h, 0) == h;
    }
  }

  /** The table step shifts the register by eight with the byte already in it. */
  lemma StepIsShifts(g: Word, s: Word, b: byte)
    ensures Step(g, s, b) == Shifts(g, Xor(s, Low(b)), 8)
  {
    var low, high := Xor(s[..8], ToBits(b, 8)) + Zeros(24), Zeros(8) + s[8..];
    assert Xor(s, Low(b)) == Xor(low, high);
    ShiftsLinear(g, low, high, 8);
    ShiftsDown(g, high, 8);
    assert Down(high, 8) == Down(s, 8);
  }

  // ---- The checksum is CRC-32 ----

  lemma XorOneDown(s: Word, s': Word, y: Word, y': Word)
    requires s'[1..] == s[1..] && y'[..31] == y[1..] && !y'[31]
    ensures Xor(Down(s', 1), y') == Down(Xor(s, y), 1)
  {
    var a, b := Xor(Down(s', 1), y'), Down(Xor(s, y), 1);
    forall i | 0 <= i < 32 ensures a[i] == b[i] {
      if i < 31 {
        assert s'[1..][i] == s[1..][i] && y'[..31][i] == y[1..][i];
      }
    }
  }

  /** Feeding bits one at a time, or all of them at once before shifting, comes to the same. */
  lemma {:induction false} BitsAhead(g: Word, s: Word, bits: Bits)
    requires |bits| <= 32
    ensures BitsIn(g, s, bits) == Shifts(g, Xor(s, bits + Zeros(32 - |bits|)), |bits|)
    decreases |bits|
  {
    var n := |bits|;
    if n == 0 {
      assert Xor(s, Zeros(32)) == s;
    } else {
      var y, y' := bits + Zeros(32 - n), bits[1..] + Zeros(33 - n);
      BitsAhead(g, BitIn(g, s, bits[0]), bits[1..]);
      assert Xor(BitIn(g, s, bits[0]), y') == Shift(g, Xor(s, y)) by {
        var s0 := if bits[0] then s[0 := !s[0]] else s;
        assert s0[0] == Xor(s, y)[0];
        XorOneDown(s, s0, y, y');
      }
    }
  }

  lemma {:induction false} BitsInAppend(g: Word, s: Word, a: Bits, b: Bits)
    ensures BitsIn(g, s, a + b) == BitsIn(g, BitsIn(g, s, a), b)
    decreases |a|
  {
    if a == [] {
      assert a + b == b;
    } else {
      BitsInAppend(g, BitIn(g, s, a[0]), a[1..], b);
      assert (a + b)[1..] == a[1..] + b;
    }
  }

  lemma {:induction false} FoldIsRegister(g: Word, s: Word, p: seq<byte>)
    ensures Fold(g, s, p) == BitsIn(g, s, MessageBits(p))
    decreases |p|
  {
    if p != [] {
      StepIsShifts(g, s, p[0]);
      BitsAhead(g, s, ToBits(p[0], 8));
      BitsInAppend(g, s, ToBits(p[0], 8), MessageBits(p[1..]));
      FoldIsRegister(g, Step(g, s, p[0]), p[1..]);
    }
  }

  lemma {:induction false} FoldAppend(step: (Word, byte) -> Word, s: Word, p: seq<byte>, q: seq<byte>)
    ensures FoldWith(step, s, p + q) == FoldWith(step, FoldWith(step, s, p), q)
    decreases |p|
  {
    if p == [] {
      assert p + q == q;
    } else {
      FoldAppend(step, step(s, p[0]), p[1..], q);
      assert (p + q)[1..] == p[1..] + q;
    }
  }

  lemma NotNot(a: Word)
    ensures Not(Not(a)) == a
  {
  }

  /** The keyed checksum is one fold over the message and its key byte, inverted. */
  lemma KeyedIsFold(g: Word, p: seq<byte>, index: nat)
    ensures Keyed(g, p, index) == Not(Fold(g, Not(Zeros(32)), p + [KeyByte(index)]))
  {
    NotNot(Fold(g, Not(Zeros(32)), p));
    FoldAppend(Stepper(g), Not(Zeros(32)), p, [KeyByte(index)]);
  }

  /** The keyed checksum is the CRC-32 of the message followed by its key byte. */
  lemma KeyedCrcIsCrc32(p: seq<byte>, index: nat)
    ensures KeyedCrc(p, index) == Crc32(p + [KeyByte(index)])
  {
    KeyedIsFold(POLYNOMIAL, p, index);
    FoldIsRegister(POLYNOMIAL, Not(Zeros(32)), p + [KeyByte(index)]);
  }

  // ---- What it tells apart ----

  lemma {:induction false} ToBitsInjective(x: nat, y: nat, n: nat)
    requires x < Power(n) && y < Power(n) && ToBits(x, n) == ToBits(y, n)
    ensures x == y
    decreases n
  {
    if n > 0 {
      assert ToBits(x, n)[0] == ToBits(y, n)[0];
      assert ToBits(x, n)[1..] == ToBits(y, n)[1..];
      ToBitsInjective(x / 2, y / 2, n - 1);
    }
  }

  lemma ByteBitsInjective(a: byte, b: byte)
    requires ToBits(a, 8) == ToBits(b, 8)
    ensures a == b
  {
    assert Power(8) == 256;
    ToBitsInjective(a, b, 8);
  }

  lemma XorCancels(s: Bits, a: Bits, b: Bits)
    requires |s| == |a| == |b|
    ensures Xor(s, a) == Xor(s, b) ==> a == b
    ensures Xor(a, s) == Xor(b, s) ==> a == b
  {
    if Xor(s, a) == Xor(s, b) {
      forall i | 0 <= i < |s| ensures a[i] == b[i] {
        assert Xor(s, a)[i] == Xor(s, b)[i];
      }
    }
    if Xor(a, s) == Xor(b, s) {
      forall i | 0 <= i < |s| ensures a[i] == b[i] {
        assert Xor(a, s)[i] == Xor(b, s)[i];
      }
    }
  }

  lemma NotInjective(a: Word, b: Word)
    requires Not(a) == Not(b)
    ensures a == b
  {
    NotNot(a);
    NotNot(b);
  }

  lemma FoldOne(step: (Word, byte) -> Word, s: Word, b: byte)
    ensures FoldWith(step, s, [b]) == step(s, b)
  {
    assert FoldWith(step, s, [b]) == FoldWith(step, step(s, b), [b][1..]);
  }

  lemma IndexMattersFor(g: Word, p: seq<byte>, i: nat, j: nat)
    requires g[31]
    ensures Keyed(g, p, i) == Keyed(g, p, j) <==> i % 256 == j % 256
  {
    KeyByteInjective(i, j);
    if Keyed(g, p, i) == Keyed(g, p, j) {
      var s, k, l := Not(Checksum(g, p)), KeyByte(i), KeyByte(j);
      FoldOne(Stepper(g), s, k);
      FoldOne(Stepper(g), s, l);
      NotInjective(Step(g, s, k), Step(g, s, l));
      StepInjective(g, s, k, l);
    }
  }

  lemma StepInjective(g: Word, s: Word, k: byte, l: byte)
    requires g[31] && Step(g, s, k) == Step(g, s, l)
    ensures k == l
  {
    StepIsShifts(g, s, k);
    StepIsShifts(g, s, l);
    ShiftsInjective(g, Xor(s, Low(k)), Xor(s, Low(l)), 8);
    XorCancels(s, Low(k), Low(l));
    assert Low(k)[..8] == ToBits(k, 8) && Low(l)[..8] == ToBits(l, 8);
    ByteBitsInjective(k, l);
  }

  /** Two indices give the same checksum of a message exactly when they agree modulo 256. */
  lemma IndexMatters(p: seq<byte>, i: nat, j: nat)
    ensures KeyedCrc(p, i) == KeyedCrc(p, j) <==> i % 256 == j % 256
  {
    PolynomialTop();
    IndexMattersFor(POLYNOMIAL, p, i, j);
  }

  lemma {:induction false} FoldInjective(g: Word, s: Word, t: Word, p: seq<byte>)
    requires g[31] && Fold(g, s, p) == Fold(g, t, p)
    ensures s == t
    decreases |p|
  {
    if p != [] {
      FoldInjective(g, Step(g, s, p[0]), Step(g, t, p[0]), p[1..]);
      StepIsShifts(g, s, p[0]);
      StepIsShifts(g, t, p[0]);
      ShiftsInjective(g, Xor(s, Low(p[0])), Xor(t, Low(p[0])), 8);
      XorCancels(Low(p[0]), s, t);
    }
  }

  /** Up to four bytes as one word. */
  function WordOf(u: seq<byte>): Word
    requires |u| <= 4
  {
    if u == [] then Zeros(32) else ToBits(u[0], 8) + WordOf(u[1..])[..24]
  }

  lemma {:induction false} WordTop(u: seq<byte>)
    requires |u| <= 3
    ensures forall i :: 8 * |u| <= i < 32 ==> !WordOf(u)[i]
    decreases |u|
  {
    if u != [] {
      WordTop(u[1..]);
    }
  }

  lemma {:induction false} WordOfInjective(u: seq<byte>, w: seq<byte>)
    requires |u| == |w| <= 4 && WordOf(u) == WordOf(w)
    ensures u == w
    decreases |u|
  {
    if u != [] {
      var u', w' := WordOf(u[1..]), WordOf(w[1..]);
      assert WordOf(u)[..8] == ToBits(u[0], 8) && WordOf(w)[..8] == ToBits(w[0], 8);
      ByteBitsInjective(u[0], w[0]);
      WordTop(u[1..]);
      WordTop(w[1..]);
      assert WordOf(u)[8..] == u'[..24] && WordOf(w)[8..] == w'[..24];
      assert u' == u'[..24] + Zeros(8) && w' == w'[..24] + Zeros(8);
      WordOfInjective(u[1..], w[1..]);
    }
  }

  /** Registers whose difference after a byte each reaches no higher than bit 23 differed by that, eight bits up. */
  lemma StepDifference(g: Word, s: Word, t: Word, a: byte, b: byte, v: Word)
    requires g[31] && Xor(Step(g, s, a), Step(g, t, b)) == v && forall i :: 24 <= i < 32 ==> !v[i]
    ensures Xor(Xor(s, Low(a)), Xor(t, Low(b))) == Zeros(8) + v[..24]
  {
    var x, y := Xor(s, Low(a)), Xor(t, Low(b));
    var raised: Word := Zeros(8) + v[..24];
    StepIsShifts(g, s, a);
    StepIsShifts(g, t, b);
    ShiftsLinear(g, x, y, 8);
    assert raised[..8] == Zeros(8);
    ShiftsDown(g, raised, 8);
    assert Down(raised, 8) == v;
    ShiftsInjective(g, Xor(x, y), raised, 8);
  }

  /** Runs of at most four bytes end in the same register only from registers that differ by the words fed. */
  lemma {:induction false} EqualRuns(g: Word, s: Word, t: Word, u: seq<byte>, w: seq<byte>)
    requires g[31] && |u| == |w| <= 4 && Fold(g, s, u) == Fold(g, t, w)
    ensures Xor(s, t) == Xor(WordOf(u), WordOf(w))
    decreases |u|
  {
    if u != [] {
      var v := Xor(WordOf(u[1..]), WordOf(w[1..]));
      EqualRuns(g, Step(g, s, u[0]), Step(g, t, w[0]), u[1..], w[1..]);
      WordTop(u[1..]);
      WordTop(w[1..]);
      StepDifference(g, s, t, u[0], w[0], v);
      RegroupRun(s, t, u, w, Zeros(8) + v[..24]);
    }
  }

  lemma RegroupRun(s: Word, t: Word, u: seq<byte>, w: seq<byte>, raised: Word)
    requires 0 < |u| == |w| <= 4
    requires Xor(Xor(s, Low(u[0])), Xor(t, Low(w[0]))) == raised
    requires raised == Zeros(8) + Xor(WordOf(u[1..]), WordOf(w[1..]))[..24]
    ensures Xor(s, t) == Xor(WordOf(u), WordOf(w))
  {
    forall i | 0 <= i < 32 ensures Xor(s, t)[i] == Xor(WordOf(u), WordOf(w))[i] {
      assert raised[i] == ((s[i] != Low(u[0])[i]) != (t[i] != Low(w[0])[i]));
    }
  }

  lemma BurstDetectedBy(g: Word, before: seq<byte>, u: seq<byte>, w: seq<byte>, after: seq<byte>, index: nat)
    requires g[31] && |u| == |w| <= 4 && u != w
    ensures Keyed(g, before + u + after, index) != Keyed(g, before + w + after, index)
  {
    var tail := after + [KeyByte(index)];
    var s := Fold(g, Not(Zeros(32)), before);
    if Keyed(g, before + u + after, index) == Keyed(g, before + w + after, index) {
      FoldInParts(g, before, u, after, index);
      FoldInParts(g, before, w, after, index);
      NotInjective(Fold(g, Fold(g, s, u), tail), Fold(g, Fold(g, s, w), tail));
      FoldInjective(g, Fold(g, s, u), Fold(g, s, w), tail);
      EqualRuns(g, s, s, u, w);
      assert Xor(s, s) == Zeros(32) == Xor(WordOf(u), WordOf(u));
      XorCancels(WordOf(u), WordOf(w), WordOf(u));
      WordOfInjective(u, w);
    }
  }

  lemma FoldInParts(g: Word, before: seq<byte>, u: seq<byte>, after: seq<byte>, index: nat)
    ensures Keyed(g, before + u + after, index) ==
            Not(Fold(g, Fold(g, Fold(g, Not(Zeros(32)), before), u), after + [KeyByte(index)]))
  {
    var key := [KeyByte(index)];
    KeyedIsFold(g, before + u + after, index);
    assert before + u + after + key == before + (u + (after + key));
    FoldAppend(Stepper(g), Not(Zeros(32)), before, u + (after + key));
    FoldAppend(Stepper(g), Fold(g, Not(Zeros(32)), before), u, after + key);
  }

  /** Any change confined to four consecutive bytes changes the checksum. */
  lemma BurstDetected(before: seq<byte>, u: seq<byte>, w: seq<byte>, after: seq<byte>, index: nat)
    requires |u| == |w| <= 4 && u != w
    ensures KeyedCrc(before + u + after, index) != KeyedCrc(before + w + after, index)
  {
    PolynomialTop();
    BurstDetectedBy(POLYNOMIAL, before, u, w, after, index);
  }

  // ---- A check value ----

  lemma {:induction false} Complement(x: nat, y: nat, n: nat, i: nat)
    requires x + y + 1 == Power(n) && i < n
    ensures ToBits(y, n)[i] == !ToBits(x, n)[i]
    decreases n
  {
    var x', y' := x / 2, y / 2;
    assert x' + y' + 1 == Power(n - 1) && y % 2 != x % 2;
    if i > 0 {
      Complement(x', y', n - 1, i - 1);
      assert ToBits(x, n)[i] == ToBits(x', n - 1)[i - 1] && ToBits(y, n)[i] == ToBits(y', n - 1)[i - 1];
    }
  }

  lemma {:induction false} ZeroBits(n: nat)
    ensures ToBits(0, n) == Zeros(n)
    decreases n
  {
    if n > 0 {
      ZeroBits(n - 1);
    }
  }

  lemma {:induction false} OneBit(n: nat)
    ensures ToBits(Power(n), n + 1) == Zeros(n) + [true]
    decreases n
  {
    if n == 0 {
      assert ToBits(1, 1) == [true] + ToBits(0, 0);
    } else {
      OneBit(n - 1);
      assert Zeros(n) == [false] + Zeros(n - 1);
    }
  }

  lemma {:induction false} MessageBitsAppend(p: seq<byte>, q: seq<byte>)
    ensures MessageBits(p + q) == MessageBits(p) + MessageBits(q)
  {
    if p == [] {
      assert p + q == q;
    } else {
      MessageBitsAppend(p[1..], q);
      assert (p + q)[1..] == p[1..] + q;
    }
  }

  ghost predicate AllOnes(bits: Bits, n: nat) {
    |bits| == n && forall i :: 0 <= i < n ==> bits[i]
  }

  lemma ByteOfOnes()
    ensures AllOnes(MessageBits([0xff]), 8)
  {
    assert Power(4) == 16 && Power(8) == 0x100;
    ZeroBits(8);
    forall i: nat | i < 8 ensures ToBits(0xff, 8)[i] {
      Complement(0, 0xff, 8, i);
    }
    assert MessageBits([0xff]) == ToBits(0xff, 8) + MessageBits([]);
  }

  lemma BytesOfOnes()
    ensures MessageBits([0xff, 0xff, 0xff, 0xff]) == Not(Zeros(32))
  {
    ByteOfOnes();
    assert [0xff, 0xff] == [0xff] + [0xff] && [0xff, 0xff, 0xff, 0xff] == [0xff, 0xff] + [0xff, 0xff];
    MessageBitsAppend([0xff], [0xff]);
    assert AllOnes(MessageBits([0xff, 0xff]), 16);
    MessageBitsAppend([0xff, 0xff], [0xff, 0xff]);
    assert AllOnes(MessageBits([0xff, 0xff, 0xff, 0xff]), 32);
  }

  lemma LastByte()
    ensures MessageBits([0x80]) == Zeros(7) + [true]
  {
    assert Power(4) == 16 && Power(7) == 0x80;
    OneBit(7);
    assert MessageBits([0x80]) == ToBits(0x80, 8) + MessageBits([]);
  }

  /** Fed its own content, a register comes out empty. */
  lemma RegisterCancels(g: Word, s: Word)
    ensures BitsIn(g, s, s) == Zeros(32)
  {
    var zero: Word := Zeros(32);
    BitsAhead(g, s, s);
    assert s + Zeros(0) == s;
    assert Xor(s, s) == zero;
    assert zero[..32] == zero;
    ShiftsDown(g, zero, 32);
    assert Down(zero, 32) == zero;
  }

  lemma LastBitShowsPolynomial(g: Word)
    ensures BitsIn(g, Zeros(32), Zeros(7) + [true]) == g
  {
    var bits := Zeros(7) + [true];
    var s: Word := bits + Zeros(24);
    BitsAhead(g, Zeros(32), bits);
    assert Xor(Zeros(32), s) == s;
    ShiftsSplit(g, s, 7, 1);
    ShiftsDown(g, s, 7);
    var t := Down(s, 7);
    assert t[0] == s[7];
    forall i | 0 <= i < 32 ensures !Down(t, 1)[i] {
      if i < 31 {
        assert Down(t, 1)[i] == t[i + 1];
      }
    }
    assert Down(t, 1) == Zeros(32);
    assert Xor(Zeros(32), g) == g;
    assert Shifts(g, t, 1) == Shifts(g, Shift(g, t), 0);
  }

  lemma {:induction false} ShiftsSplit(g: Word, s: Word, m: nat, n: nat)
    ensures Shifts(g, s, m + n) == Shifts(g, Shifts(g, s, m), n)
    decreases m
  {
    if m > 0 {
      ShiftsSplit(g, Shift(g, s), m - 1, n);
    }
  }

  lemma RegisterShows(g: Word)
    ensures CrcOf(g, [0xff, 0xff, 0xff, 0xff, 0x80]) == Not(g)
  {
    var p, q: seq<byte> := [0xff, 0xff, 0xff, 0xff], [0x80];
    assert p + q == [0xff, 0xff, 0xff, 0xff, 0x80];
    MessageBitsAppend(p, q);
    BytesOfOnes();
    LastByte();
    BitsInAppend(g, Not(Zeros(32)), MessageBits(p), MessageBits(q));
    RegisterCancels(g, Not(Zeros(32)));
    LastBitShowsPolynomial(g);
  }

  /** Four bytes of ones empty a register that starts with ones, and the last bit then shows the polynomial. */
  lemma RegisterShowsPolynomial(x: nat, y: nat)
    requires x + y + 1 == Power(32)
    ensures CrcOf(ToBits(x, 32), [0xff, 0xff, 0xff, 0xff, 0x80]) == ToBits(y, 32)
  {
    RegisterShows(ToBits(x, 32));
    forall i: nat | i < 32 ensures ToBits(y, 32)[i] == !ToBits(x, 32)[i] {
      Complement(x, y, 32, i);
    }
    assert Not(ToBits(x, 32)) == ToBits(y, 32);
  }

  /** The CRC-32 of the bytes ff ff ff ff 80 is 12477cdf. */
  lemma CheckValue()
    ensures Crc32([0xff, 0xff, 0xff, 0xff, 0x80]) == ToBits(0x1247_7cdf, 32)
  {
    assert Power(8) == 0x100 && Power(16) == 0x1_0000 && Power(24) == 0x100_0000;
    assert Power(32) == 0x1_0000_0000;
    RegisterShowsPolynomial(0xedb8_8320, 0x1247_7cdf);
  }
}
