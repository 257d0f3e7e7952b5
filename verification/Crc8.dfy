/**
 Models the CRC-8 of src/edac.c and its lookup table, proved against a bit-serial register with the
 generator x^8 + x^2 + x + 1, most significant bit first.
 */
module Crc8 {
  import opened Common
  import opened Bytes
  import opened Edac

  // ---------------------------------------------------------------- the reference

  predicate Top(x: bv32) { x & 0x80 == 0x80 }

  /** The register moved up by one, its top bit lost. */
  function Double(x: bv32): bv32 { (x << 1) & 0xff }

  /** One division step. */
  function Climb(x: bv32): bv32 { if Top(x) then Xor(Double(x), 7) else Double(x) }

  function Climb8(x: bv32): bv32 { Climb(Climb(Climb(Climb(Climb(Climb(Climb(Climb(x)))))))) }

  /** A message bit enters the register. */
  function FeedTop(crc: bv32, b: bool): bv32 { if b then Climb(Xor(crc, 0x80)) else Climb(crc) }

  function SerialTop(crc: bv32, bits: seq<bool>): bv32
    decreases |bits|
  {
    if bits == [] then crc else SerialTop(FeedTop(crc, bits[0]), bits[1..])
  }

  /** The bits of a byte, most significant first. */
  function MsbBits(b: byte): (bits: seq<bool>)
    ensures |bits| == 8
  {
    var d := ToBits(b, 8);
    [d[7], d[6], d[5], d[4], d[3], d[2], d[1], d[0]]
  }

  function MsbStream(data: seq<byte>): seq<bool> {
    if data == [] then [] else MsbBits(data[0]) + MsbStream(data[1..])
  }

  /** The CRC of `data`, bit by bit, from a register of zeroes. */
  function ReferenceCrc8(data: seq<byte>): bv32 { SerialTop(0, MsbStream(data)) }

  // ---------------------------------------------------------------- a byte at a time

  lemma DoubleXor(x: bv32, y: bv32)
    ensures Double(Xor(x, y)) == Xor(Double(x), Double(y))
    ensures Top(Xor(x, y)) == (Top(x) != Top(y))
  {
  }

  lemma ClimbXor(x: bv32, y: bv32)
    ensures Climb(Xor(x, y)) == Xor(Climb(x), Climb(y))
  {
    DoubleXor(x, y);
    var a, b, g: bv32 := Double(x), Double(y), 7;
    if Top(x) && Top(y) {
      XorAssociates(Xor(a, g), b, g);
      XorAssociates(a, g, b);
      XorCommutes(g, b);
      XorAssociates(a, b, g);
      XorCancels(Xor(a, b), g);
    } else if Top(x) {
      XorAssociates(a, g, b);
      XorCommutes(g, b);
      XorAssociates(a, b, g);
    } else if Top(y) {
      XorAssociates(a, b, g);
    }
  }

  lemma Climb8Xor(x: bv32, y: bv32)
    ensures Climb8(Xor(x, y)) == Xor(Climb8(x), Climb8(y))
  {
    ClimbXor(x, y);
    var x1, y1 := Climb(x), Climb(y);
    ClimbXor(x1, y1);
    var x2, y2 := Climb(x1), Climb(y1);
    ClimbXor(x2, y2);
    var x3, y3 := Climb(x2), Climb(y2);
    ClimbXor(x3, y3);
    var x4, y4 := Climb(x3), Climb(y3);
    ClimbXor(x4, y4);
    var x5, y5 := Climb(x4), Climb(y4);
    ClimbXor(x5, y5);
    var x6, y6 := Climb(x5), Climb(y5);
    ClimbXor(x6, y6);
    ClimbXor(Climb(x6), Climb(y6));
  }

  /** Only the low byte of a word matters. */
  lemma ClimbLow(x: bv32)
    ensures Climb(LowByte(x)) == Climb(x)
  {
    DoubleLow(x);
  }

  lemma DoubleLow(x: bv32)
    ensures Double(LowByte(x)) == Double(x) && Top(LowByte(x)) == Top(x)
  {
  }

  lemma TopCleared(r: bv32, p: bv32)
    requires Top(p)
    ensures Xor(Xor(r, 0x80), Xor(p, 0x80)) == Xor(r, p) && !Top(Xor(p, 0x80)) && Double(Xor(p, 0x80)) == Double(p)
  {
  }

  /** Feeding one bit of `p` and keeping the others pending. */
  lemma AbsorbTop(r: bv32, p: bv32)
    ensures Climb(Xor(r, p)) == Xor(FeedTop(r, Top(p)), Double(p))
  {
    if Top(p) {
      TopCleared(r, p);
      ClimbXor(Xor(r, 0x80), Xor(p, 0x80));
    } else {
      ClimbXor(r, p);
    }
  }

  function Doubled(p: bv32, n: nat): bv32
    decreases n
  {
    if n == 0 then p else Doubled(Double(p), n - 1)
  }

  function Climbed(x: bv32, n: nat): bv32
    decreases n
  {
    if n == 0 then x else Climbed(Climb(x), n - 1)
  }

  lemma EightClimbs(x: bv32)
    ensures Climbed(x, 8) == Climb8(x)
  {
  }

  /** `bits` are the high bits of the byte `p`. */
  ghost predicate HighBits(p: bv32, bits: seq<bool>)
    decreases |bits|
  {
    bits == [] || (Top(p) == bits[0] && HighBits(Double(p), bits[1..]))
  }

  lemma {:induction false} ConsumeTop(r: bv32, p: bv32, bits: seq<bool>)
    requires HighBits(p, bits)
    ensures Climbed(Xor(r, p), |bits|) == Xor(SerialTop(r, bits), Doubled(p, |bits|))
    decreases |bits|
  {
    if bits != [] {
      AbsorbTop(r, p);
      ConsumeTop(FeedTop(r, bits[0]), Double(p), bits[1..]);
    }
  }

  /** The eight registers a byte goes through while it is moved out at the top. */
  lemma PackTops(d: seq<bool>)
    requires |d| == 8
    ensures var p := Pack(d);
      && Top(p) == d[7] && Top(Double(p)) == d[6] && Top(Double(Double(p))) == d[5] &&
         Top(Double(Double(Double(p)))) == d[4]
      && Top(Double(Double(Double(Double(p))))) == d[3] && Top(Double(Double(Double(Double(Double(p)))))) == d[2]
      && Top(Double(Double(Double(Double(Double(Double(p))))))) == d[1]
      && Top(Double(Double(Double(Double(Double(Double(Double(p)))))))) == d[0]
  {
  }

  lemma DoubledAway(p: bv32)
    ensures Double(Double(Double(Double(Double(Double(Double(Double(p)))))))) == 0
  {
  }

  lemma DoubledEight(p: bv32)
    ensures Doubled(p, 8) == 0
  {
    DoubledAway(p);
  }

  lemma HighBitsFrom(p: bv32, e: seq<bool>)
    requires |e| == 8
    requires Top(p) == e[0] && Top(Double(p)) == e[1] && Top(Double(Double(p))) == e[2] &&
        Top(Double(Double(Double(p)))) == e[3]
    requires Top(Double(Double(Double(Double(p))))) == e[4] && Top(Double(Double(Double(Double(Double(p)))))) == e[5]
    requires Top(Double(Double(Double(Double(Double(Double(p))))))) == e[6]
    requires Top(Double(Double(Double(Double(Double(Double(Double(p)))))))) == e[7]
    ensures HighBits(p, e)
  {
    assert e[1..][1..] == e[2..] && e[2..][1..] == e[3..] && e[3..][1..] == e[4..];
    assert e[4..][1..] == e[5..] && e[5..][1..] == e[6..] && e[6..][1..] == e[7..];
    assert HighBits(Double(Double(Double(Double(Double(Double(Double(p))))))), e[7..]);
    assert HighBits(Double(Double(Double(Double(Double(Double(p)))))), e[6..]);
    assert HighBits(Double(Double(Double(Double(Double(p))))), e[5..]);
    assert HighBits(Double(Double(Double(Double(p)))), e[4..]);
    assert HighBits(Double(Double(Double(p))), e[3..]);
    assert HighBits(Double(Double(p)), e[2..]);
    assert HighBits(Double(p), e[1..]);
  }

  /** A byte entering bit by bit. */
  lemma SerialTopByte(r: bv32, b: byte)
    ensures SerialTop(r, MsbBits(b)) == Climb8(Xor(r, Widen(b)))
  {
    PackTops(ToBits(b, 8));
    HighBitsFrom(Widen(b), MsbBits(b));
    ConsumeTop(r, Widen(b), MsbBits(b));
    DoubledEight(Widen(b));
    XorCancels(SerialTop(r, MsbBits(b)), 0);
    EightClimbs(Xor(r, Widen(b)));
  }

  lemma {:induction false} SerialTopConcat(r: bv32, a: seq<bool>, b: seq<bool>)
    ensures SerialTop(r, a + b) == SerialTop(SerialTop(r, a), b)
    decreases |a|
  {
    if a == [] {
      assert a + b == b;
    } else {
      assert (a + b)[1..] == a[1..] + b;
      SerialTopConcat(FeedTop(r, a[0]), a[1..], b);
    }
  }

  lemma {:induction false} MsbStreamConcat(a: seq<byte>, b: seq<byte>)
    ensures MsbStream(a + b) == MsbStream(a) + MsbStream(b)
  {
    if a == [] {
      assert a + b == b;
    } else {
      assert (a + b)[1..] == a[1..] + b;
      MsbStreamConcat(a[1..], b);
    }
  }

  // ---------------------------------------------------------------- the table

  function Crc8Row0(): seq<bv32> { [
    0x00, 0x07, 0x0e, 0x09, 0x1c, 0x1b, 0x12, 0x15, 0x38, 0x3f, 0x36, 0x31, 0x24, 0x23, 0x2a, 0x2d
  ] }

  function Crc8Row1(): seq<bv32> { [
    0x70, 0x77, 0x7e, 0x79, 0x6c, 0x6b, 0x62, 0x65, 0x48, 0x4f, 0x46, 0x41, 0x54, 0x53, 0x5a, 0x5d
  ] }

  function Crc8Row2(): seq<bv32> { [
    0xe0, 0xe7, 0xee, 0xe9, 0xfc, 0xfb, 0xf2, 0xf5, 0xd8, 0xdf, 0xd6, 0xd1, 0xc4, 0xc3, 0xca, 0xcd
  ] }

  function Crc8Row3(): seq<bv32> { [
    0x90, 0x97, 0x9e, 0x99, 0x8c, 0x8b, 0x82, 0x85, 0xa8, 0xaf, 0xa6, 0xa1, 0xb4, 0xb3, 0xba, 0xbd
  ] }

  function Crc8Row4(): seq<bv32> { [
    0xc7, 0xc0, 0xc9, 0xce, 0xdb, 0xdc, 0xd5, 0xd2, 0xff, 0xf8, 0xf1, 0xf6, 0xe3, 0xe4, 0xed, 0xea
  ] }

  function Crc8Row5(): seq<bv32> { [
    0xb7, 0xb0, 0xb9, 0xbe, 0xab, 0xac, 0xa5, 0xa2, 0x8f, 0x88, 0x81, 0x86, 0x93, 0x94, 0x9d, 0x9a
  ] }

  function Crc8Row6(): seq<bv32> { [
    0x27, 0x20, 0x29, 0x2e, 0x3b, 0x3c, 0x35, 0x32, 0x1f, 0x18, 0x11, 0x16, 0x03, 0x04, 0x0d, 0x0a
  ] }

  function Crc8Row7(): seq<bv32> { [
    0x57, 0x50, 0x59, 0x5e, 0x4b, 0x4c, 0x45, 0x42, 0x6f, 0x68, 0x61, 0x66, 0x73, 0x74, 0x7d, 0x7a
  ] }

  function Crc8Row8(): seq<bv32> { [
    0x89, 0x8e, 0x87, 0x80, 0x95, 0x92, 0x9b, 0x9c, 0xb1, 0xb6, 0xbf, 0xb8, 0xad, 0xaa, 0xa3, 0xa4
  ] }

  function Crc8Row9(): seq<bv32> { [
    0xf9, 0xfe, 0xf7, 0xf0, 0xe5, 0xe2, 0xeb, 0xec, 0xc1, 0xc6, 0xcf, 0xc8, 0xdd, 0xda, 0xd3, 0xd4
  ] }

  function Crc8Row10(): seq<bv32> { [
    0x69, 0x6e, 0x67, 0x60, 0x75, 0x72, 0x7b, 0x7c, 0x51, 0x56, 0x5f, 0x58, 0x4d, 0x4a, 0x43, 0x44
  ] }

  function Crc8Row11(): seq<bv32> { [
    0x19, 0x1e, 0x17, 0x10, 0x05, 0x02, 0x0b, 0x0c, 0x21, 0x26, 0x2f, 0x28, 0x3d, 0x3a, 0x33, 0x34
  ] }

  function Crc8Row12(): seq<bv32> { [
    0x4e, 0x49, 0x40, 0x47, 0x52, 0x55, 0x5c, 0x5b, 0x76, 0x71, 0x78, 0x7f, 0x6a, 0x6d, 0x64, 0x63
  ] }

  function Crc8Row13(): seq<bv32> { [
    0x3e, 0x39, 0x30, 0x37, 0x22, 0x25, 0x2c, 0x2b, 0x06, 0x01, 0x08, 0x0f, 0x1a, 0x1d, 0x14, 0x13
  ] }

  function Crc8Row14(): seq<bv32> { [
    0xae, 0xa9, 0xa0, 0xa7, 0xb2, 0xb5, 0xbc, 0xbb, 0x96, 0x91, 0x98, 0x9f, 0x8a, 0x8d, 0x84, 0x83
  ] }

  function Crc8Row15(): seq<bv32> { [
    0xde, 0xd9, 0xd0, 0xd7, 0xc2, 0xc5, 0xcc, 0xcb, 0xe6, 0xe1, 0xe8, 0xef, 0xfa, 0xfd, 0xf4, 0xf3
  ] }

  function Crc8Row(k: nat): (row: seq<bv32>)
    requires k < 16
    ensures |row| == 16
  {
    match k
    case 0 => Crc8Row0()
    case 1 => Crc8Row1()
    case 2 => Crc8Row2()
    case 3 => Crc8Row3()
    case 4 => Crc8Row4()
    case 5 => Crc8Row5()
    case 6 => Crc8Row6()
    case 7 => Crc8Row7()
    case 8 => Crc8Row8()
    case 9 => Crc8Row9()
    case 10 => Crc8Row10()
    case 11 => Crc8Row11()
    case 12 => Crc8Row12()
    case 13 => Crc8Row13()
    case 14 => Crc8Row14()
    case _ => Crc8Row15()
  }

  /** The entries of the first row, each combined with `h`. */
  function Crc8Translate(h: bv32): seq<bv32> { [
    Xor(0x00, h), Xor(0x07, h), Xor(0x0e, h), Xor(0x09, h),
    Xor(0x1c, h), Xor(0x1b, h), Xor(0x12, h), Xor(0x15, h),
    Xor(0x38, h), Xor(0x3f, h), Xor(0x36, h), Xor(0x31, h),
    Xor(0x24, h), Xor(0x23, h), Xor(0x2a, h), Xor(0x2d, h)
  ] }

  /** The first entry of row `k`. */
  function Crc8Head(k: nat): bv32
    requires k < 16
  {
    match k
    case 0 => 0x00
    case 1 => 0x70
    case 2 => 0xe0
    case 3 => 0x90
    case 4 => 0xc7
    case 5 => 0xb7
    case 6 => 0x27
    case 7 => 0x57
    case 8 => 0x89
    case 9 => 0xf9
    case 10 => 0x69
    case 11 => 0x19
    case 12 => 0x4e
    case 13 => 0x3e
    case 14 => 0xae
    case _ => 0xde
  }

  lemma Crc8Rows0()
    ensures Crc8Row0() == Crc8Translate(0x00)
    ensures Crc8Row1() == Crc8Translate(0x70)
    ensures Crc8Row2() == Crc8Translate(0xe0)
    ensures Crc8Row3() == Crc8Translate(0x90)
  {
  }

  lemma Crc8Rows4()
    ensures Crc8Row4() == Crc8Translate(0xc7)
    ensures Crc8Row5() == Crc8Translate(0xb7)
    ensures Crc8Row6() == Crc8Translate(0x27)
    ensures Crc8Row7() == Crc8Translate(0x57)
  {
  }

  lemma Crc8Rows8()
    ensures Crc8Row8() == Crc8Translate(0x89)
    ensures Crc8Row9() == Crc8Translate(0xf9)
    ensures Crc8Row10() == Crc8Translate(0x69)
    ensures Crc8Row11() == Crc8Translate(0x19)
  {
  }

  lemma Crc8Rows12()
    ensures Crc8Row12() == Crc8Translate(0x4e)
    ensures Crc8Row13() == Crc8Translate(0x3e)
    ensures Crc8Row14() == Crc8Translate(0xae)
    ensures Crc8Row15() == Crc8Translate(0xde)
  {
  }

  /** Each row is the first one, shifted by its own first entry. */
  lemma Crc8RowTranslate(k: nat)
    requires k < 16
    ensures Crc8Row(k) == Crc8Translate(Crc8Head(k))
  {
    match k
    case 0 => Crc8Rows0();
    case 1 => Crc8Rows0();
    case 2 => Crc8Rows0();
    case 3 => Crc8Rows0();
    case 4 => Crc8Rows4();
    case 5 => Crc8Rows4();
    case 6 => Crc8Rows4();
    case 7 => Crc8Rows4();
    case 8 => Crc8Rows8();
    case 9 => Crc8Rows8();
    case 10 => Crc8Rows8();
    case 11 => Crc8Rows8();
    case 12 => Crc8Rows12();
    case 13 => Crc8Rows12();
    case 14 => Crc8Rows12();
    case _ => Crc8Rows12();
  }

  /** `crc8_table[b]`. */
  function Crc8Table(b: byte): bv32 { Crc8Row(b / 16)[b % 16] }

  function LowPart8(d0: bool, d1: bool, d2: bool, d3: bool): bv32 {
    Xor(Xor(Pick(d0, 0x07), Pick(d1, 0x0e)), Xor(Pick(d2, 0x1c), Pick(d3, 0x38)))
  }

  function HighPart8(d0: bool, d1: bool, d2: bool, d3: bool): bv32 {
    Xor(Xor(Pick(d0, 0x70), Pick(d1, 0xe0)), Xor(Pick(d2, 0xc7), Pick(d3, 0x89)))
  }

  lemma BasisEntries8(d: bool)
    ensures Climb8(Pick(d, 0x01)) == Pick(d, 0x07) && Climb8(Pick(d, 0x02)) == Pick(d, 0x0e)
    ensures Climb8(Pick(d, 0x04)) == Pick(d, 0x1c) && Climb8(Pick(d, 0x08)) == Pick(d, 0x38)
    ensures Climb8(Pick(d, 0x10)) == Pick(d, 0x70) && Climb8(Pick(d, 0x20)) == Pick(d, 0xe0)
    ensures Climb8(Pick(d, 0x40)) == Pick(d, 0xc7) && Climb8(Pick(d, 0x80)) == Pick(d, 0x89)
  {
  }

  lemma Climb8Sum(a: bv32, b: bv32, c: bv32, d: bv32)
    ensures Climb8(Xor(Xor(a, b), Xor(c, d))) == Xor(Xor(Climb8(a), Climb8(b)), Xor(Climb8(c), Climb8(d)))
  {
    Climb8Xor(Xor(a, b), Xor(c, d));
    Climb8Xor(a, b);
    Climb8Xor(c, d);
  }

  lemma Climb8Digits(d0: bool, d1: bool, d2: bool, d3: bool, d4: bool, d5: bool, d6: bool, d7: bool)
    ensures Climb8(Pack([d0, d1, d2, d3, d4, d5, d6, d7])) == Xor(LowPart8(d0, d1, d2, d3), HighPart8(d4, d5, d6, d7))
  {
    PackXor(d0, d1, d2, d3, d4, d5, d6, d7);
    Climb8Xor(Xor(Xor(Pick(d0, 0x01), Pick(d1, 0x02)), Xor(Pick(d2, 0x04), Pick(d3, 0x08))),
              Xor(Xor(Pick(d4, 0x10), Pick(d5, 0x20)), Xor(Pick(d6, 0x40), Pick(d7, 0x80))));
    Climb8Sum(Pick(d0, 0x01), Pick(d1, 0x02), Pick(d2, 0x04), Pick(d3, 0x08));
    Climb8Sum(Pick(d4, 0x10), Pick(d5, 0x20), Pick(d6, 0x40), Pick(d7, 0x80));
    BasisEntries8(d0);
    BasisEntries8(d1);
    BasisEntries8(d2);
    BasisEntries8(d3);
    BasisEntries8(d4);
    BasisEntries8(d5);
    BasisEntries8(d6);
    BasisEntries8(d7);
  }

  lemma FirstRow8(j: nat)
    requires j < 16
    ensures Crc8Row0()[j] == LowPart8(Digit(j, 0), Digit(j, 1), Digit(j, 2), Digit(j, 3))
  {
    match j
    case 0 => case 1 => case 2 => case 3 => case 4 => case 5 => case 6 => case 7 =>
    case 8 => case 9 => case 10 => case 11 => case 12 => case 13 => case 14 => case _ =>
  }

  lemma FirstColumn8(k: nat)
    requires k < 16
    ensures Crc8Head(k) == HighPart8(Digit(k, 0), Digit(k, 1), Digit(k, 2), Digit(k, 3))
  {
    match k
    case 0 => case 1 => case 2 => case 3 => case 4 => case 5 => case 6 => case 7 =>
    case 8 => case 9 => case 10 => case 11 => case 12 => case 13 => case 14 => case _ =>
  }

  lemma TranslateAt8(h: bv32, j: nat)
    requires j < 16
    ensures Crc8Translate(h)[j] == Xor(Crc8Row0()[j], h)
  {
    match j
    case 0 => case 1 => case 2 => case 3 => case 4 => case 5 => case 6 => case 7 =>
    case 8 => case 9 => case 10 => case 11 => case 12 => case 13 => case 14 => case _ =>
  }

  lemma TableSum8(k: nat, j: nat)
    requires k < 16 && j < 16
    ensures Crc8Row(k)[j] == Xor(LowPart8(Digit(j, 0), Digit(j, 1), Digit(j, 2), Digit(j, 3)),
                                 HighPart8(Digit(k, 0), Digit(k, 1), Digit(k, 2), Digit(k, 3)))
  {
    Crc8RowTranslate(k);
    TranslateAt8(Crc8Head(k), j);
    FirstRow8(j);
    FirstColumn8(k);
  }

  lemma ClimbSum(b: byte, k: nat, j: nat)
    requires k < 16 && j < 16 && b == 16 * k + j
    ensures Climb8(Widen(b)) == Xor(LowPart8(Digit(j, 0), Digit(j, 1), Digit(j, 2), Digit(j, 3)),
                                    HighPart8(Digit(k, 0), Digit(k, 1), Digit(k, 2), Digit(k, 3)))
  {
    NibbleDigits(b, k, j);
    Climb8Digits(Digit(j, 0), Digit(j, 1), Digit(j, 2), Digit(j, 3), Digit(k, 0), Digit(k, 1), Digit(k, 2),
                 Digit(k, 3));
  }

  /** Every entry of `crc8_table` is eight division steps applied to its index. */
  lemma Crc8TableEntry(b: byte)
    ensures Crc8Table(b) == Climb8(Widen(b))
  {
    TableSum8(b / 16, b % 16);
    ClimbSum(b, b / 16, b % 16);
  }

  // ---------------------------------------------------------------- the code

  lemma LookUpIsSerial(crc: bv32, b: byte)
    ensures Crc8Table(Narrow(Xor(crc, Widen(b)))) == SerialTop(crc, MsbBits(b))
  {
    var x := Xor(crc, Widen(b));
    SerialTopByte(crc, b);
    WidenNarrow(x);
    Crc8TableEntry(Narrow(x));
    ClimbLow(x);
  }

  lemma SerialTopPrefix(data: seq<byte>, i: nat)
    requires i < |data|
    ensures SerialTop(0, MsbStream(data[..i + 1])) == SerialTop(SerialTop(0, MsbStream(data[..i])), MsbBits(data[i]))
  {
    var done, next := data[..i], [data[i]];
    assert data[..i + 1] == done + next;
    MsbStreamConcat(done, next);
    assert MsbStream(next) == MsbBits(data[i]) + MsbStream(next[1..]) == MsbBits(data[i]);
    SerialTopConcat(0, MsbStream(done), MsbBits(data[i]));
  }

  /** The register after the first i bytes. */
  ghost predicate Fed(data: seq<byte>, i: nat, r: bv32) { i <= |data| && r == SerialTop(0, MsbStream(data[..i])) }

  /** One turn of the loop. */
  lemma TurnIsSerial(data: seq<byte>, i: nat, r: bv32)
    requires i < |data| && Fed(data, i, r)
    ensures Fed(data, i + 1, Crc8Table(Narrow(Xor(r, Widen(data[i])))))
  {
    SerialTopPrefix(data, i);
    LookUpIsSerial(r, data[i]);
  }

  lemma AllFed(data: seq<byte>, r: bv32)
    requires Fed(data, |data|, r)
    ensures r == ReferenceCrc8(data)
  {
    assert data[..|data|] == data;
  }

  lemma FirstIndex(b: byte, w: bv32)
    requires w == Xor(0, Widen(b))
    ensures Narrow(w) == b
  {
    XorCommutes(0, Widen(b));
    XorCancels(Widen(b), 0);
    NarrowWiden(b);
  }

  lemma StreamOfOne(data: seq<byte>)
    requires |data| == 1
    ensures MsbStream(data) == MsbBits(data[0])
  {
    assert MsbStream(data[1..]) == [];
  }

  lemma FirstByte(data: seq<byte>, b: byte, r: bv32)
    requires data == [b] && r == 0
    ensures ReferenceCrc8(data) == Crc8Table(Narrow(Xor(r, Widen(b))))
  {
    StreamOfOne(data);
    LookUpIsSerial(r, b);
  }

  lemma SecondEntry()
    ensures Crc8Table(1) == 7
  {
  }

  /** The CRC of a single byte is its table entry; that of 0x01 is the generator. */
  lemma OneByte(b: byte)
    ensures ReferenceCrc8([b]) == Crc8Table(b)
    ensures b == 0x01 ==> ReferenceCrc8([b]) == 0x07
  {
    FirstIndex(b, Xor(0, Widen(b)));
    FirstByte([b], b, 0);
    SecondEntry();
  }

  /** pldm_edac_crc8. */
  method Compute(data: seq<byte>) returns (r: bv32)
    ensures r == ReferenceCrc8(data)
  {
    r := 0;
    var i: nat := 0;
    while i < |data|
      invariant Fed(data, i, r)
    {
      TurnIsSerial(data, i, r);
      r := Crc8Table(Narrow(Xor(r, Widen(data[i]))));
      i := i + 1;
    }
    AllFed(data, r);
  }
}
