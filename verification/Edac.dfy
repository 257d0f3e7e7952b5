/**
 Models the CRC-32 of src/edac.c and its lookup table.

 The reference it is proved against is a bit-serial shift register with the reflected
 generator 0xEDB88320 of clause 3.2.9 of IEEE 802.3. What the register detects, bursts
 and changes of four bytes, follows from its steps being bijections.

 Words are `bv32`. Their operators appear only inside the named functions of the
 first section, so that every longer proof is algebra over those names.
 */
module Edac {
  import opened Common
  import opened Bytes

  // ---------------------------------------------------------------- word operators

  function Xor(a: bv32, b: bv32): bv32 { a ^ b }

  function Half(x: bv32): bv32 { x >> 1 }

  predicate Odd(x: bv32) { x & 1 == 1 }

  function Down8(x: bv32): bv32 { x >> 8 }

  function Up8(x: bv32): bv32 { x << 8 }

  function LowByte(x: bv32): bv32 { x & 0xff }

  function AboveByte(x: bv32): bv32 { x & 0xFFFF_FF00 }

  const ONES: bv32 := 0xFFFF_FFFF

  lemma XorCommutes(a: bv32, b: bv32)
    ensures Xor(a, b) == Xor(b, a)
  {
  }

  lemma XorAssociates(a: bv32, b: bv32, c: bv32)
    ensures Xor(Xor(a, b), c) == Xor(a, Xor(b, c))
  {
  }

  lemma XorCancels(a: bv32, b: bv32)
    ensures Xor(a, a) == 0 && Xor(a, 0) == a && Xor(Xor(a, b), b) == a
  {
  }

  /** `Xor` with a fixed word is injective. */
  lemma XorInjective(a: bv32, b: bv32, c: bv32)
    requires Xor(a, c) == Xor(b, c)
    ensures a == b
  {
    XorCancels(a, c);
    XorCancels(b, c);
  }

  lemma XorHalf(a: bv32, b: bv32)
    ensures Half(Xor(a, b)) == Xor(Half(a), Half(b))
    ensures Odd(Xor(a, b)) == (Odd(a) != Odd(b))
  {
  }

  lemma SplitByte(x: bv32)
    ensures x == Xor(LowByte(x), AboveByte(x))
    ensures LowByte(AboveByte(x)) == 0 && Down8(AboveByte(x)) == Down8(x)
  {
  }

  // ---------------------------------------------------------------- bits and bytes

  /** The low `n` binary digits of `v`, least significant first. */
  function ToBits(v: nat, n: nat): (bits: seq<bool>)
    ensures |bits| == n
  {
    if n == 0 then [] else [v % 2 == 1] + ToBits(v / 2, n - 1)
  }

  lemma {:induction false} FromToBits(v: nat, n: nat)
    requires v < Pow2(n)
    ensures FromBits(ToBits(v, n)) == v
  {
    if n > 0 {
      FromToBits(v / 2, n - 1);
      assert ToBits(v, n)[1..] == ToBits(v / 2, n - 1);
    }
  }

  lemma {:induction false} ToFromBits(bits: seq<bool>)
    ensures FromBits(bits) < Pow2(|bits|)
    ensures ToBits(FromBits(bits), |bits|) == bits
  {
    if bits != [] {
      ToFromBits(bits[1..]);
      var rest := FromBits(bits[1..]);
      assert FromBits(bits) / 2 == rest && (FromBits(bits) % 2 == 1) == bits[0];
      assert bits == [bits[0]] + bits[1..];
    }
  }

  function Pick(d: bool, w: bv32): bv32 { if d then w else 0 }

  function Bit(b: bool): bv32 { if b then 1 else 0 }

  /** The word whose low eight bits are `d`. */
  function Pack(d: seq<bool>): bv32
    requires |d| == 8
  {
    Bit(d[0]) | (Bit(d[1]) << 1) | (Bit(d[2]) << 2) | (Bit(d[3]) << 3) |
    (Bit(d[4]) << 4) | (Bit(d[5]) << 5) | (Bit(d[6]) << 6) | (Bit(d[7]) << 7)
  }

  /** The low eight bits of `w`. */
  function Spread(w: bv32): (bits: seq<bool>)
    ensures |bits| == 8
  {
    [Odd(w), Odd(Half(w)), Odd(Half(Half(w))), Odd(Half(Half(Half(w)))),
     Odd(Half(Half(Half(Half(w))))), Odd(Half(Half(Half(Half(Half(w)))))),
     Odd(Half(Half(Half(Half(Half(Half(w))))))), Odd(Half(Half(Half(Half(Half(Half(Half(w))))))))]
  }

  lemma SpreadPack(d: seq<bool>)
    requires |d| == 8
    ensures Spread(Pack(d)) == d
  {
  }

  lemma PackIsLow(d: seq<bool>)
    requires |d| == 8
    ensures LowByte(Pack(d)) == Pack(d)
  {
  }

  lemma PackSpread(w: bv32)
    ensures Pack(Spread(w)) == LowByte(w)
  {
  }

  /** Zero extension of a byte. */
  function Widen(b: byte): bv32 { Pack(ToBits(b, 8)) }

  /** The low byte of a word. */
  function Narrow(w: bv32): byte {
    assert Pow2(8) == 256;
    ToFromBits(Spread(w));
    FromBits(Spread(w))
  }

  lemma WidenNarrow(w: bv32)
    ensures Widen(Narrow(w)) == LowByte(w)
  {
    ToFromBits(Spread(w));
    PackSpread(w);
  }

  lemma NarrowWiden(b: byte)
    ensures Narrow(Widen(b)) == b
    ensures LowByte(Widen(b)) == Widen(b)
  {
    SpreadPack(ToBits(b, 8));
    PackIsLow(ToBits(b, 8));
    assert Pow2(8) == 256;
    FromToBits(b, 8);
  }

  lemma WidenInjective(a: byte, b: byte)
    requires Widen(a) == Widen(b)
    ensures a == b
  {
    NarrowWiden(a);
    NarrowWiden(b);
  }

  // ---------------------------------------------------------------- the CRC-32 reference

  /** One division step by the reflected generator. */
  function Shift(crc: bv32): bv32 {
    if Odd(crc) then Xor(Half(crc), 0xEDB8_8320) else Half(crc)
  }

  function Shift8(crc: bv32): bv32 {
    Shift(Shift(Shift(Shift(Shift(Shift(Shift(Shift(crc))))))))
  }

  /** A message bit enters the register. */
  function Feed(crc: bv32, b: bool): bv32 {
    if b then Shift(Xor(crc, 1)) else Shift(crc)
  }

  function Serial(crc: bv32, bits: seq<bool>): bv32
    decreases |bits|
  {
    if bits == [] then crc else Serial(Feed(crc, bits[0]), bits[1..])
  }

  /** The bits of a byte string in transmission order: each byte least significant bit first. */
  function Stream(data: seq<byte>): seq<bool> {
    if data == [] then [] else ToBits(data[0], 8) + Stream(data[1..])
  }

  /** The CRC of `data`, bit by bit: register preset to ones, complemented at the end. */
  function ReferenceCrc32(data: seq<byte>): bv32 {
    Xor(Serial(ONES, Stream(data)), ONES)
  }

  lemma ShiftInjective(x: bv32, y: bv32)
    requires Shift(x) == Shift(y)
    ensures x == y
  {
  }

  lemma ShiftXor(x: bv32, y: bv32)
    ensures Shift(Xor(x, y)) == Xor(Shift(x), Shift(y))
  {
    XorHalf(x, y);
    var a, b, g: bv32 := Half(x), Half(y), 0xEDB8_8320;
    if Odd(x) && Odd(y) {
      XorAssociates(Xor(a, g), b, g);
      XorAssociates(a, g, b);
      XorCommutes(g, b);
      XorAssociates(a, b, g);
      XorCancels(Xor(a, b), g);
    } else if Odd(x) {
      XorAssociates(a, g, b);
      XorCommutes(g, b);
      XorAssociates(a, b, g);
    } else if Odd(y) {
      XorAssociates(a, b, g);
    }
  }

  lemma Shift8Xor(x: bv32, y: bv32)
    ensures Shift8(Xor(x, y)) == Xor(Shift8(x), Shift8(y))
  {
    ShiftXor(x, y);
    var x1, y1 := Shift(x), Shift(y);
    ShiftXor(x1, y1);
    var x2, y2 := Shift(x1), Shift(y1);
    ShiftXor(x2, y2);
    var x3, y3 := Shift(x2), Shift(y2);
    ShiftXor(x3, y3);
    var x4, y4 := Shift(x3), Shift(y3);
    ShiftXor(x4, y4);
    var x5, y5 := Shift(x4), Shift(y4);
    ShiftXor(x5, y5);
    var x6, y6 := Shift(x5), Shift(y5);
    ShiftXor(x6, y6);
    ShiftXor(Shift(x6), Shift(y6));
  }

  lemma Halves(y: bv32)
    ensures Half(Half(Half(Half(Half(Half(Half(Half(y)))))))) == Down8(y)
    ensures LowByte(y) == 0 ==>
              !Odd(y) && !Odd(Half(y)) && !Odd(Half(Half(y))) && !Odd(Half(Half(Half(y)))) &&
              !Odd(Half(Half(Half(Half(y))))) && !Odd(Half(Half(Half(Half(Half(y)))))) &&
              !Odd(Half(Half(Half(Half(Half(Half(y))))))) && !Odd(Half(Half(Half(Half(Half(Half(Half(y))))))))
  {
  }

  /** Eight clear low bits just move the rest of the register down. */
  lemma Shift8Even(y: bv32)
    requires LowByte(y) == 0
    ensures Shift8(y) == Down8(y)
  {
    Halves(y);
  }

  /** The identity behind the lookup table: only the low byte feeds back. */
  lemma Shift8Split(x: bv32)
    ensures Shift8(x) == Xor(Shift8(LowByte(x)), Down8(x))
  {
    SplitByte(x);
    Shift8Xor(LowByte(x), AboveByte(x));
    Shift8Even(AboveByte(x));
  }

  lemma ClearBit(r: bv32, p: bv32)
    requires Odd(p)
    ensures Xor(Xor(r, 1), Xor(p, 1)) == Xor(r, p)
    ensures !Odd(Xor(p, 1)) && Half(Xor(p, 1)) == Half(p)
  {
    XorAssociates(r, 1, Xor(p, 1));
    XorCommutes(1, Xor(p, 1));
    XorCancels(p, 1);
    XorHalf(p, 1);
    XorCancels(Half(p), 0);
  }

  /** Feeding one bit of `p` and keeping the others pending. */
  lemma Absorb(r: bv32, p: bv32)
    ensures Shift(Xor(r, p)) == Xor(Feed(r, Odd(p)), Half(p))
  {
    if Odd(p) {
      ClearBit(r, p);
      ShiftXor(Xor(r, 1), Xor(p, 1));
    } else {
      ShiftXor(r, p);
    }
  }

  function Halved(p: bv32, n: nat): bv32
    decreases n
  {
    if n == 0 then p else Halved(Half(p), n - 1)
  }

  function Shifted(crc: bv32, n: nat): bv32
    decreases n
  {
    if n == 0 then crc else Shifted(Shift(crc), n - 1)
  }

  lemma EightShifts(x: bv32)
    ensures Shifted(x, 8) == Shift8(x)
  {
  }

  /** `bits` are the low bits of `p`. */
  ghost predicate LowBits(p: bv32, bits: seq<bool>)
    decreases |bits|
  {
    bits == [] || (Odd(p) == bits[0] && LowBits(Half(p), bits[1..]))
  }

  /** Bits entering one by one have the effect of the word they spell entering at once. */
  lemma {:induction false} Consume(r: bv32, p: bv32, bits: seq<bool>)
    requires LowBits(p, bits)
    ensures Shifted(Xor(r, p), |bits|) == Xor(Serial(r, bits), Halved(p, |bits|))
    decreases |bits|
  {
    if bits != [] {
      Absorb(r, p);
      Consume(Feed(r, bits[0]), Half(p), bits[1..]);
    }
  }

  lemma LowBitsFrom(p: bv32, d: seq<bool>)
    requires |d| == 8
    requires Odd(p) == d[0] && Odd(Half(p)) == d[1] && Odd(Half(Half(p))) == d[2] && Odd(Half(Half(Half(p)))) == d[3]
    requires Odd(Half(Half(Half(Half(p))))) == d[4] && Odd(Half(Half(Half(Half(Half(p)))))) == d[5]
    requires Odd(Half(Half(Half(Half(Half(Half(p))))))) == d[6] &&
        Odd(Half(Half(Half(Half(Half(Half(Half(p)))))))) == d[7]
    ensures LowBits(p, d)
  {
    assert d[1..][1..] == d[2..] && d[2..][1..] == d[3..] && d[3..][1..] == d[4..];
    assert d[4..][1..] == d[5..] && d[5..][1..] == d[6..] && d[6..][1..] == d[7..];
    assert LowBits(Half(Half(Half(Half(Half(Half(Half(p))))))), d[7..]);
    assert LowBits(Half(Half(Half(Half(Half(Half(p)))))), d[6..]);
    assert LowBits(Half(Half(Half(Half(Half(p))))), d[5..]);
    assert LowBits(Half(Half(Half(Half(p)))), d[4..]);
    assert LowBits(Half(Half(Half(p))), d[3..]);
    assert LowBits(Half(Half(p)), d[2..]);
    assert LowBits(Half(p), d[1..]);
  }

  lemma SpreadLowBits(p: bv32)
    ensures LowBits(p, Spread(p))
  {
    LowBitsFrom(p, Spread(p));
  }

  lemma HalvedEight(p: bv32)
    ensures Halved(p, 8) == Down8(p)
  {
    Halves(p);
  }

  /** A word whose low byte is `b` starts with the bits of `b`. */
  lemma ByteLowBits(p: bv32, b: byte)
    requires LowByte(p) == Widen(b)
    ensures LowBits(p, ToBits(b, 8)) && Halved(p, 8) == Down8(p)
  {
    SpreadLowBits(p);
    HalvedEight(p);
    PackSpread(p);
    SpreadPack(Spread(p));
    SpreadPack(ToBits(b, 8));
  }

  lemma DownWiden(b: byte)
    ensures Down8(Widen(b)) == 0
  {
    NarrowWiden(b);
    DownLow(Widen(b));
  }

  lemma DownLow(w: bv32)
    ensures Down8(LowByte(w)) == 0
  {
  }

  /** A byte entering bit by bit. */
  lemma SerialByte(r: bv32, b: byte)
    ensures Serial(r, ToBits(b, 8)) == Shift8(Xor(r, Widen(b)))
  {
    NarrowWiden(b);
    ByteLowBits(Widen(b), b);
    DownWiden(b);
    Consume(r, Widen(b), ToBits(b, 8));
    XorCancels(Serial(r, ToBits(b, 8)), 0);
    EightShifts(Xor(r, Widen(b)));
  }

  lemma {:induction false} SerialConcat(r: bv32, a: seq<bool>, b: seq<bool>)
    ensures Serial(r, a + b) == Serial(Serial(r, a), b)
    decreases |a|
  {
    if a == [] {
      assert a + b == b;
    } else {
      assert (a + b)[1..] == a[1..] + b;
      SerialConcat(Feed(r, a[0]), a[1..], b);
    }
  }

  lemma {:induction false} StreamConcat(a: seq<byte>, b: seq<byte>)
    ensures Stream(a + b) == Stream(a) + Stream(b)
  {
    if a == [] {
      assert a + b == b;
    } else {
      assert (a + b)[1..] == a[1..] + b;
      StreamConcat(a[1..], b);
    }
  }

  // ---------------------------------------------------------------- the CRC-32 table

  function Crc32Row0(): seq<bv32> { [
    0x0000_0000, 0x7707_3096, 0xee0e_612c, 0x9909_51ba, 0x076d_c419, 0x706a_f48f, 0xe963_a535, 0x9e64_95a3,
    0x0edb_8832, 0x79dc_b8a4, 0xe0d5_e91e, 0x97d2_d988, 0x09b6_4c2b, 0x7eb1_7cbd, 0xe7b8_2d07, 0x90bf_1d91
  ] }

  function Crc32Row1(): seq<bv32> { [
    0x1db7_1064, 0x6ab0_20f2, 0xf3b9_7148, 0x84be_41de, 0x1ada_d47d, 0x6ddd_e4eb, 0xf4d4_b551, 0x83d3_85c7,
    0x136c_9856, 0x646b_a8c0, 0xfd62_f97a, 0x8a65_c9ec, 0x1401_5c4f, 0x6306_6cd9, 0xfa0f_3d63, 0x8d08_0df5
  ] }

  function Crc32Row2(): seq<bv32> { [
    0x3b6e_20c8, 0x4c69_105e, 0xd560_41e4, 0xa267_7172, 0x3c03_e4d1, 0x4b04_d447, 0xd20d_85fd, 0xa50a_b56b,
    0x35b5_a8fa, 0x42b2_986c, 0xdbbb_c9d6, 0xacbc_f940, 0x32d8_6ce3, 0x45df_5c75, 0xdcd6_0dcf, 0xabd1_3d59
  ] }

  function Crc32Row3(): seq<bv32> { [
    0x26d9_30ac, 0x51de_003a, 0xc8d7_5180, 0xbfd0_6116, 0x21b4_f4b5, 0x56b3_c423, 0xcfba_9599, 0xb8bd_a50f,
    0x2802_b89e, 0x5f05_8808, 0xc60c_d9b2, 0xb10b_e924, 0x2f6f_7c87, 0x5868_4c11, 0xc161_1dab, 0xb666_2d3d
  ] }

  function Crc32Row4(): seq<bv32> { [
    0x76dc_4190, 0x01db_7106, 0x98d2_20bc, 0xefd5_102a, 0x71b1_8589, 0x06b6_b51f, 0x9fbf_e4a5, 0xe8b8_d433,
    0x7807_c9a2, 0x0f00_f934, 0x9609_a88e, 0xe10e_9818, 0x7f6a_0dbb, 0x086d_3d2d, 0x9164_6c97, 0xe663_5c01
  ] }

  function Crc32Row5(): seq<bv32> { [
    0x6b6b_51f4, 0x1c6c_6162, 0x8565_30d8, 0xf262_004e, 0x6c06_95ed, 0x1b01_a57b, 0x8208_f4c1, 0xf50f_c457,
    0x65b0_d9c6, 0x12b7_e950, 0x8bbe_b8ea, 0xfcb9_887c, 0x62dd_1ddf, 0x15da_2d49, 0x8cd3_7cf3, 0xfbd4_4c65
  ] }

  function Crc32Row6(): seq<bv32> { [
    0x4db2_6158, 0x3ab5_51ce, 0xa3bc_0074, 0xd4bb_30e2, 0x4adf_a541, 0x3dd8_95d7, 0xa4d1_c46d, 0xd3d6_f4fb,
    0x4369_e96a, 0x346e_d9fc, 0xad67_8846, 0xda60_b8d0, 0x4404_2d73, 0x3303_1de5, 0xaa0a_4c5f, 0xdd0d_7cc9
  ] }

  function Crc32Row7(): seq<bv32> { [
    0x5005_713c, 0x2702_41aa, 0xbe0b_1010, 0xc90c_2086, 0x5768_b525, 0x206f_85b3, 0xb966_d409, 0xce61_e49f,
    0x5ede_f90e, 0x29d9_c998, 0xb0d0_9822, 0xc7d7_a8b4, 0x59b3_3d17, 0x2eb4_0d81, 0xb7bd_5c3b, 0xc0ba_6cad
  ] }

  function Crc32Row8(): seq<bv32> { [
    0xedb8_8320, 0x9abf_b3b6, 0x03b6_e20c, 0x74b1_d29a, 0xead5_4739, 0x9dd2_77af, 0x04db_2615, 0x73dc_1683,
    0xe363_0b12, 0x9464_3b84, 0x0d6d_6a3e, 0x7a6a_5aa8, 0xe40e_cf0b, 0x9309_ff9d, 0x0a00_ae27, 0x7d07_9eb1
  ] }

  function Crc32Row9(): seq<bv32> { [
    0xf00f_9344, 0x8708_a3d2, 0x1e01_f268, 0x6906_c2fe, 0xf762_575d, 0x8065_67cb, 0x196c_3671, 0x6e6b_06e7,
    0xfed4_1b76, 0x89d3_2be0, 0x10da_7a5a, 0x67dd_4acc, 0xf9b9_df6f, 0x8ebe_eff9, 0x17b7_be43, 0x60b0_8ed5
  ] }

  function Crc32Row10(): seq<bv32> { [
    0xd6d6_a3e8, 0xa1d1_937e, 0x38d8_c2c4, 0x4fdf_f252, 0xd1bb_67f1, 0xa6bc_5767, 0x3fb5_06dd, 0x48b2_364b,
    0xd80d_2bda, 0xaf0a_1b4c, 0x3603_4af6, 0x4104_7a60, 0xdf60_efc3, 0xa867_df55, 0x316e_8eef, 0x4669_be79
  ] }

  function Crc32Row11(): seq<bv32> { [
    0xcb61_b38c, 0xbc66_831a, 0x256f_d2a0, 0x5268_e236, 0xcc0c_7795, 0xbb0b_4703, 0x2202_16b9, 0x5505_262f,
    0xc5ba_3bbe, 0xb2bd_0b28, 0x2bb4_5a92, 0x5cb3_6a04, 0xc2d7_ffa7, 0xb5d0_cf31, 0x2cd9_9e8b, 0x5bde_ae1d
  ] }

  function Crc32Row12(): seq<bv32> { [
    0x9b64_c2b0, 0xec63_f226, 0x756a_a39c, 0x026d_930a, 0x9c09_06a9, 0xeb0e_363f, 0x7207_6785, 0x0500_5713,
    0x95bf_4a82, 0xe2b8_7a14, 0x7bb1_2bae, 0x0cb6_1b38, 0x92d2_8e9b, 0xe5d5_be0d, 0x7cdc_efb7, 0x0bdb_df21
  ] }

  function Crc32Row13(): seq<bv32> { [
    0x86d3_d2d4, 0xf1d4_e242, 0x68dd_b3f8, 0x1fda_836e, 0x81be_16cd, 0xf6b9_265b, 0x6fb0_77e1, 0x18b7_4777,
    0x8808_5ae6, 0xff0f_6a70, 0x6606_3bca, 0x1101_0b5c, 0x8f65_9eff, 0xf862_ae69, 0x616b_ffd3, 0x166c_cf45
  ] }

  function Crc32Row14(): seq<bv32> { [
    0xa00a_e278, 0xd70d_d2ee, 0x4e04_8354, 0x3903_b3c2, 0xa767_2661, 0xd060_16f7, 0x4969_474d, 0x3e6e_77db,
    0xaed1_6a4a, 0xd9d6_5adc, 0x40df_0b66, 0x37d8_3bf0, 0xa9bc_ae53, 0xdebb_9ec5, 0x47b2_cf7f, 0x30b5_ffe9
  ] }

  function Crc32Row15(): seq<bv32> { [
    0xbdbd_f21c, 0xcaba_c28a, 0x53b3_9330, 0x24b4_a3a6, 0xbad0_3605, 0xcdd7_0693, 0x54de_5729, 0x23d9_67bf,
    0xb366_7a2e, 0xc461_4ab8, 0x5d68_1b02, 0x2a6f_2b94, 0xb40b_be37, 0xc30c_8ea1, 0x5a05_df1b, 0x2d02_ef8d
  ] }

  function Crc32Row(k: nat): (row: seq<bv32>)
    requires k < 16
    ensures |row| == 16
  {
    match k
    case 0 => Crc32Row0()
    case 1 => Crc32Row1()
    case 2 => Crc32Row2()
    case 3 => Crc32Row3()
    case 4 => Crc32Row4()
    case 5 => Crc32Row5()
    case 6 => Crc32Row6()
    case 7 => Crc32Row7()
    case 8 => Crc32Row8()
    case 9 => Crc32Row9()
    case 10 => Crc32Row10()
    case 11 => Crc32Row11()
    case 12 => Crc32Row12()
    case 13 => Crc32Row13()
    case 14 => Crc32Row14()
    case _ => Crc32Row15()
  }

  /** The entries of the first row, each combined with `h`. */
  function Crc32Translate(h: bv32): seq<bv32> { [
    Xor(0x0000_0000, h), Xor(0x7707_3096, h), Xor(0xee0e_612c, h), Xor(0x9909_51ba, h),
    Xor(0x076d_c419, h), Xor(0x706a_f48f, h), Xor(0xe963_a535, h), Xor(0x9e64_95a3, h),
    Xor(0x0edb_8832, h), Xor(0x79dc_b8a4, h), Xor(0xe0d5_e91e, h), Xor(0x97d2_d988, h),
    Xor(0x09b6_4c2b, h), Xor(0x7eb1_7cbd, h), Xor(0xe7b8_2d07, h), Xor(0x90bf_1d91, h)
  ] }

  /** The first entry of row `k`. */
  function Crc32Head(k: nat): bv32
    requires k < 16
  {
    match k
    case 0 => 0x0000_0000
    case 1 => 0x1db7_1064
    case 2 => 0x3b6e_20c8
    case 3 => 0x26d9_30ac
    case 4 => 0x76dc_4190
    case 5 => 0x6b6b_51f4
    case 6 => 0x4db2_6158
    case 7 => 0x5005_713c
    case 8 => 0xedb8_8320
    case 9 => 0xf00f_9344
    case 10 => 0xd6d6_a3e8
    case 11 => 0xcb61_b38c
    case 12 => 0x9b64_c2b0
    case 13 => 0x86d3_d2d4
    case 14 => 0xa00a_e278
    case _ => 0xbdbd_f21c
  }

  lemma Crc32Rows0()
    ensures Crc32Row0() == Crc32Translate(0x0000_0000)
    ensures Crc32Row1() == Crc32Translate(0x1db7_1064)
    ensures Crc32Row2() == Crc32Translate(0x3b6e_20c8)
    ensures Crc32Row3() == Crc32Translate(0x26d9_30ac)
  {
  }

  lemma Crc32Rows4()
    ensures Crc32Row4() == Crc32Translate(0x76dc_4190)
    ensures Crc32Row5() == Crc32Translate(0x6b6b_51f4)
    ensures Crc32Row6() == Crc32Translate(0x4db2_6158)
    ensures Crc32Row7() == Crc32Translate(0x5005_713c)
  {
  }

  lemma Crc32Rows8()
    ensures Crc32Row8() == Crc32Translate(0xedb8_8320)
    ensures Crc32Row9() == Crc32Translate(0xf00f_9344)
    ensures Crc32Row10() == Crc32Translate(0xd6d6_a3e8)
    ensures Crc32Row11() == Crc32Translate(0xcb61_b38c)
  {
  }

  lemma Crc32Rows12()
    ensures Crc32Row12() == Crc32Translate(0x9b64_c2b0)
    ensures Crc32Row13() == Crc32Translate(0x86d3_d2d4)
    ensures Crc32Row14() == Crc32Translate(0xa00a_e278)
    ensures Crc32Row15() == Crc32Translate(0xbdbd_f21c)
  {
  }

  /** Each row is the first one, shifted by its own first entry. */
  lemma Crc32RowTranslate(k: nat)
    requires k < 16
    ensures Crc32Row(k) == Crc32Translate(Crc32Head(k))
  {
    match k
    case 0 => Crc32Rows0();
    case 1 => Crc32Rows0();
    case 2 => Crc32Rows0();
    case 3 => Crc32Rows0();
    case 4 => Crc32Rows4();
    case 5 => Crc32Rows4();
    case 6 => Crc32Rows4();
    case 7 => Crc32Rows4();
    case 8 => Crc32Rows8();
    case 9 => Crc32Rows8();
    case 10 => Crc32Rows8();
    case 11 => Crc32Rows8();
    case 12 => Crc32Rows12();
    case 13 => Crc32Rows12();
    case 14 => Crc32Rows12();
    case _ => Crc32Rows12();
  }
  /** `crc32_tab[b]`. */
  function Crc32Table(b: byte): bv32 {
    Crc32Row(b / 16)[b % 16]
  }

  /** What the four low digits, and the four high digits, of a byte contribute to its entry. */
  function LowPart(d0: bool, d1: bool, d2: bool, d3: bool): bv32 {
    Xor(Xor(Pick(d0, 0x7707_3096), Pick(d1, 0xee0e_612c)), Xor(Pick(d2, 0x076d_c419), Pick(d3, 0x0edb_8832)))
  }

  function HighPart(d0: bool, d1: bool, d2: bool, d3: bool): bv32 {
    Xor(Xor(Pick(d0, 0x1db7_1064), Pick(d1, 0x3b6e_20c8)), Xor(Pick(d2, 0x76dc_4190), Pick(d3, 0xedb8_8320)))
  }

  lemma BasisEntries(d: bool)
    ensures Shift8(Pick(d, 0x01)) == Pick(d, 0x7707_3096) && Shift8(Pick(d, 0x02)) == Pick(d, 0xee0e_612c)
    ensures Shift8(Pick(d, 0x04)) == Pick(d, 0x076d_c419) && Shift8(Pick(d, 0x08)) == Pick(d, 0x0edb_8832)
    ensures Shift8(Pick(d, 0x10)) == Pick(d, 0x1db7_1064) && Shift8(Pick(d, 0x20)) == Pick(d, 0x3b6e_20c8)
    ensures Shift8(Pick(d, 0x40)) == Pick(d, 0x76dc_4190) && Shift8(Pick(d, 0x80)) == Pick(d, 0xedb8_8320)
  {
  }

  lemma Shift8Sum(a: bv32, b: bv32, c: bv32, d: bv32)
    ensures Shift8(Xor(Xor(a, b), Xor(c, d))) == Xor(Xor(Shift8(a), Shift8(b)), Xor(Shift8(c), Shift8(d)))
  {
    Shift8Xor(Xor(a, b), Xor(c, d));
    Shift8Xor(a, b);
    Shift8Xor(c, d);
  }

  lemma PackXor(d0: bool, d1: bool, d2: bool, d3: bool, d4: bool, d5: bool, d6: bool, d7: bool)
    ensures Pack([d0, d1, d2, d3, d4, d5, d6, d7]) ==
            Xor(Xor(Xor(Pick(d0, 0x01), Pick(d1, 0x02)), Xor(Pick(d2, 0x04), Pick(d3, 0x08))),
                Xor(Xor(Pick(d4, 0x10), Pick(d5, 0x20)), Xor(Pick(d6, 0x40), Pick(d7, 0x80))))
  {
  }

  /** Eight division steps are linear, so a byte's entry is the sum of what its digits contribute. */
  lemma Shift8Digits(d0: bool, d1: bool, d2: bool, d3: bool, d4: bool, d5: bool, d6: bool, d7: bool)
    ensures Shift8(Pack([d0, d1, d2, d3, d4, d5, d6, d7])) == Xor(LowPart(d0, d1, d2, d3), HighPart(d4, d5, d6, d7))
  {
    PackXor(d0, d1, d2, d3, d4, d5, d6, d7);
    Shift8Xor(Xor(Xor(Pick(d0, 0x01), Pick(d1, 0x02)), Xor(Pick(d2, 0x04), Pick(d3, 0x08))),
              Xor(Xor(Pick(d4, 0x10), Pick(d5, 0x20)), Xor(Pick(d6, 0x40), Pick(d7, 0x80))));
    Shift8Sum(Pick(d0, 0x01), Pick(d1, 0x02), Pick(d2, 0x04), Pick(d3, 0x08));
    Shift8Sum(Pick(d4, 0x10), Pick(d5, 0x20), Pick(d6, 0x40), Pick(d7, 0x80));
    BasisEntries(d0);
    BasisEntries(d1);
    BasisEntries(d2);
    BasisEntries(d3);
    BasisEntries(d4);
    BasisEntries(d5);
    BasisEntries(d6);
    BasisEntries(d7);
  }

  /** Binary digit `i` of a nibble. */
  predicate Digit(n: nat, i: nat)
    requires i < 4
  {
    (if i == 0 then n else if i == 1 then n / 2 else if i == 2 then n / 2 / 2 else n / 2 / 2 / 2) % 2 == 1
  }

  function Scale(k: nat, m: nat): nat { if m == 0 then k else 2 * Scale(k, m - 1) }

  lemma {:induction false} SplitBits(k: nat, j: nat, m: nat, n: nat)
    requires j < Pow2(m)
    ensures ToBits(Scale(k, m) + j, m + n) == ToBits(j, m) + ToBits(k, n)
  {
    if m > 0 {
      var t := Scale(k, m - 1);
      assert (2 * t + j) % 2 == j % 2 && (2 * t + j) / 2 == t + j / 2;
      SplitBits(k, j / 2, m - 1, n);
    }
  }

  lemma FourDigits(k: nat)
    ensures ToBits(k, 4) == [Digit(k, 0), Digit(k, 1), Digit(k, 2), Digit(k, 3)]
  {
    assert ToBits(k, 4) == [Digit(k, 0)] + ToBits(k / 2, 3);
    assert ToBits(k / 2, 3) == [Digit(k, 1)] + ToBits(k / 2 / 2, 2);
    assert ToBits(k / 2 / 2, 2) == [Digit(k, 2)] + ToBits(k / 2 / 2 / 2, 1);
    assert ToBits(k / 2 / 2 / 2, 1) == [Digit(k, 3)] + [];
  }

  lemma FirstRow(j: nat)
    requires j < 16
    ensures Crc32Row0()[j] == LowPart(Digit(j, 0), Digit(j, 1), Digit(j, 2), Digit(j, 3))
  {
    match j
    case 0 => case 1 => case 2 => case 3 => case 4 => case 5 => case 6 => case 7 =>
    case 8 => case 9 => case 10 => case 11 => case 12 => case 13 => case 14 => case _ =>
  }

  lemma FirstColumn(k: nat)
    requires k < 16
    ensures Crc32Head(k) == HighPart(Digit(k, 0), Digit(k, 1), Digit(k, 2), Digit(k, 3))
  {
    match k
    case 0 => case 1 => case 2 => case 3 => case 4 => case 5 => case 6 => case 7 =>
    case 8 => case 9 => case 10 => case 11 => case 12 => case 13 => case 14 => case _ =>
  }

  lemma TranslateAt(h: bv32, j: nat)
    requires j < 16
    ensures Crc32Translate(h)[j] == Xor(Crc32Row0()[j], h)
  {
    match j
    case 0 => case 1 => case 2 => case 3 => case 4 => case 5 => case 6 => case 7 =>
    case 8 => case 9 => case 10 => case 11 => case 12 => case 13 => case 14 => case _ =>
  }

  lemma TableSum(k: nat, j: nat)
    requires k < 16 && j < 16
    ensures Crc32Row(k)[j] == Xor(LowPart(Digit(j, 0), Digit(j, 1), Digit(j, 2), Digit(j, 3)),
                                  HighPart(Digit(k, 0), Digit(k, 1), Digit(k, 2), Digit(k, 3)))
  {
    Crc32RowTranslate(k);
    TranslateAt(Crc32Head(k), j);
    FirstRow(j);
    FirstColumn(k);
  }

  lemma NibbleDigits(b: byte, k: nat, j: nat)
    requires k < 16 && j < 16 && b == 16 * k + j
    ensures ToBits(b, 8) == [Digit(j, 0), Digit(j, 1), Digit(j, 2), Digit(j, 3),
                             Digit(k, 0), Digit(k, 1), Digit(k, 2), Digit(k, 3)]
  {
    assert Pow2(4) == 16;
    assert Scale(k, 1) == 2 * k;
    assert Scale(k, 2) == 4 * k;
    assert Scale(k, 3) == 8 * k;
    assert Scale(k, 4) == 16 * k;
    SplitBits(k, j, 4, 4);
    FourDigits(j);
    FourDigits(k);
  }

  lemma WidenSum(b: byte, k: nat, j: nat)
    requires k < 16 && j < 16 && b == 16 * k + j
    ensures Shift8(Widen(b)) == Xor(LowPart(Digit(j, 0), Digit(j, 1), Digit(j, 2), Digit(j, 3)),
                                    HighPart(Digit(k, 0), Digit(k, 1), Digit(k, 2), Digit(k, 3)))
  {
    NibbleDigits(b, k, j);
    Shift8Digits(Digit(j, 0), Digit(j, 1), Digit(j, 2), Digit(j, 3), Digit(k, 0), Digit(k, 1), Digit(k, 2),
                 Digit(k, 3));
  }

  /** Every entry of `crc32_tab` is eight division steps applied to its index. */
  lemma Crc32TableEntry(b: byte)
    ensures Crc32Table(b) == Shift8(Widen(b))
  {
    TableSum(b / 16, b % 16);
    WidenSum(b, b / 16, b % 16);
  }

  // ---------------------------------------------------------------- the table-driven CRC-32

  /** One iteration of the loop of pldm_edac_crc32_extend. */
  function Crc32Step(crc: bv32, b: byte): bv32 {
    Xor(Crc32Table(Narrow(Xor(crc, Widen(b)))), Down8(crc))
  }

  lemma DownXor(crc: bv32, w: bv32)
    requires LowByte(w) == w
    ensures Down8(Xor(crc, w)) == Down8(crc)
  {
  }

  lemma Crc32StepIsSerial(crc: bv32, b: byte)
    ensures Crc32Step(crc, b) == Serial(crc, ToBits(b, 8))
  {
    var x := Xor(crc, Widen(b));
    SerialByte(crc, b);
    Shift8Split(x);
    WidenNarrow(x);
    Crc32TableEntry(Narrow(x));
    NarrowWiden(b);
    DownXor(crc, Widen(b));
  }

  lemma SerialPrefix(r: bv32, data: seq<byte>, i: nat)
    requires i < |data|
    ensures Crc32Step(Serial(r, Stream(data[..i])), data[i]) == Serial(r, Stream(data[..i + 1]))
  {
    var done, next := data[..i], [data[i]];
    assert data[..i + 1] == done + next;
    StreamConcat(done, next);
    assert Stream(next) == ToBits(data[i], 8) + Stream(next[1..]) == ToBits(data[i], 8);
    SerialConcat(r, Stream(done), ToBits(data[i], 8));
    Crc32StepIsSerial(Serial(r, Stream(done)), data[i]);
  }

  /** The loop of pldm_edac_crc32_extend: `data` is read byte by byte through the lookup table. */
  method Crc32Loop(data: seq<byte>, start: bv32) returns (r: bv32)
    ensures r == Serial(start, Stream(data))
  {
    r := start;
    var i := 0;
    while i < |data|
      invariant 0 <= i <= |data|
      invariant r == Serial(start, Stream(data[..i]))
    {
      SerialPrefix(start, data, i);
      r := Crc32Step(r, data[i]);
      i := i + 1;
    }
    assert data[..i] == data;
  }

  /** pldm_edac_crc32_extend. */
  method Crc32Extend(data: seq<byte>, crc: bv32) returns (r: bv32)
    ensures r == Xor(Serial(Xor(crc, ONES), Stream(data)), ONES)
  {
    r := Crc32Loop(data, Xor(crc, ONES));
    r := Xor(r, ONES);
  }

  /** pldm_edac_crc32. */
  method Crc32(data: seq<byte>) returns (r: bv32)
    ensures r == ReferenceCrc32(data)
  {
    XorCommutes(0, ONES);
    XorCancels(ONES, 0);
    r := Crc32Extend(data, 0);
  }

  datatype Validation = Clean | Unclean | Inval

  /** pldm_edac_crc32_validate; a null buffer is acceptable when there is nothing in it. */
  method Crc32Validate(expected: bv32, data: Option<seq<byte>>, size: nat) returns (v: Validation)
    requires data.Some? ==> size <= |data.value|
    ensures v == Inval <==> data.None? && size != 0
    ensures v != Inval ==> (v == Clean <==> expected == ReferenceCrc32(if data.Some? then data.value[..size] else []))
  {
    if data.None? && size != 0 {
      return Inval;
    }
    var actual := Crc32(if data.Some? then data.value[..size] else []);
    v := if expected == actual then Clean else Unclean;
  }

  /** Extending the CRC of one buffer over a second gives the CRC of both together. */
  lemma ExtendIsConcat(a: seq<byte>, b: seq<byte>)
    ensures Xor(Serial(Xor(ReferenceCrc32(a), ONES), Stream(b)), ONES) == ReferenceCrc32(a + b)
  {
    XorCancels(Serial(ONES, Stream(a)), ONES);
    StreamConcat(a, b);
    SerialConcat(ONES, Stream(a), Stream(b));
  }

  // ---------------------------------------------------------------- little-endian words

  /** A little-endian 32-bit field. */
  function LeWord(f: seq<byte>): bv32
    requires |f| == 4
  {
    Join(f[0], Join(f[1], Join(f[2], Join(f[3], 0))))
  }

  function Join(b: byte, rest: bv32): bv32 { Xor(Widen(b), Up8(rest)) }

  function LeBytes(w: bv32): (f: seq<byte>)
    ensures |f| == 4
  {
    [Narrow(w), Narrow(Down8(w)), Narrow(Down8(Down8(w))), Narrow(Down8(Down8(Down8(w))))]
  }

  lemma JoinWord(w: bv32)
    ensures Xor(LowByte(w), Up8(Xor(LowByte(Down8(w)), Up8(Xor(LowByte(Down8(Down8(w))),
                Up8(Xor(LowByte(Down8(Down8(Down8(w)))), Up8(0)))))))) == w
  {
  }

  /** Writing a word and reading it back. */
  lemma LeRoundTrip(w: bv32)
    ensures LeWord(LeBytes(w)) == w
  {
    WidenNarrow(w);
    WidenNarrow(Down8(w));
    WidenNarrow(Down8(Down8(w)));
    WidenNarrow(Down8(Down8(Down8(w))));
    JoinWord(w);
  }

  predicate Fits(v: bv32, bytes: nat)
    requires bytes <= 3
  {
    if bytes == 0 then v == 0 else if bytes == 1 then v & 0xFFFF_FF00 == 0
    else if bytes == 2 then v & 0xFFFF_0000 == 0 else v & 0xFF00_0000 == 0
  }

  lemma JoinFits(p: bv32, rest: bv32, n: nat)
    requires LowByte(p) == p && n < 3 && Fits(rest, n)
    ensures Fits(Xor(p, Up8(rest)), n + 1)
  {
  }

  lemma JoinParts(p: bv32, rest: bv32, n: nat)
    requires LowByte(p) == p && n <= 3 && Fits(rest, n)
    ensures LowByte(Xor(p, Up8(rest))) == p && Down8(Xor(p, Up8(rest))) == rest
  {
    FitsTop(rest, n);
    JoinApart(p, rest);
  }

  lemma FitsTop(v: bv32, n: nat)
    requires n <= 3 && Fits(v, n)
    ensures v & 0xFF00_0000 == 0
  {
    match n
    case 0 =>
    case 1 => assert v & 0xFFFF_FF00 == 0;
    case 2 => assert v & 0xFFFF_0000 == 0;
    case _ =>
  }

  lemma JoinApart(p: bv32, rest: bv32)
    requires LowByte(p) == p && rest & 0xFF00_0000 == 0
    ensures LowByte(Xor(p, Up8(rest))) == p && Down8(Xor(p, Up8(rest))) == rest
  {
  }

  /** `p` spells exactly the bits of `data`. */
  ghost predicate Spells(p: bv32, data: seq<byte>) {
    LowBits(p, Stream(data)) && Halved(p, |Stream(data)|) == 0
  }

  lemma {:induction false} HalvedAdd(p: bv32, m: nat, n: nat)
    ensures Halved(p, m + n) == Halved(Halved(p, m), n)
    decreases m
  {
    if m > 0 {
      HalvedAdd(Half(p), m - 1, n);
    }
  }

  lemma {:induction false} LowBitsConcat(p: bv32, a: seq<bool>, b: seq<bool>)
    requires LowBits(p, a) && LowBits(Halved(p, |a|), b)
    ensures LowBits(p, a + b)
    decreases |a|
  {
    if a == [] {
      assert a + b == b;
    } else {
      assert (a + b)[1..] == a[1..] + b;
      LowBitsConcat(Half(p), a[1..], b);
    }
  }

  lemma SpellsCons(p: bv32, b: byte, data: seq<byte>)
    requires LowByte(p) == Widen(b) && Spells(Down8(p), data)
    ensures Spells(p, [b] + data)
  {
    ByteLowBits(p, b);
    LowBitsConcat(p, ToBits(b, 8), Stream(data));
    HalvedAdd(p, 8, |Stream(data)|);
    assert ([b] + data)[1..] == data;
  }

  lemma SpellsJoin(b: byte, rest: bv32, data: seq<byte>, n: nat)
    requires n <= 3 && Fits(rest, n) && Spells(rest, data)
    ensures Spells(Join(b, rest), [b] + data)
    ensures n < 3 ==> Fits(Join(b, rest), n + 1)
  {
    NarrowWiden(b);
    JoinParts(Widen(b), rest, n);
    SpellsCons(Join(b, rest), b, data);
    if n < 3 { JoinFits(Widen(b), rest, n); }
  }

  lemma LeWordSpells(f: seq<byte>)
    requires |f| == 4
    ensures Spells(LeWord(f), f)
  {
    var w3 := Join(f[3], 0);
    var w2 := Join(f[2], w3);
    var w1 := Join(f[1], w2);
    SpellsJoin(f[3], 0, [], 0);
    SpellsJoin(f[2], w3, [f[3]] + [], 1);
    SpellsJoin(f[1], w2, [f[2]] + ([f[3]] + []), 2);
    SpellsJoin(f[0], w1, [f[1]] + ([f[2]] + ([f[3]] + [])), 3);
    assert f == [f[0]] + ([f[1]] + ([f[2]] + ([f[3]] + [])));
  }

  lemma {:induction false} StreamLength(data: seq<byte>)
    ensures |Stream(data)| == 8 * |data|
  {
    if data != [] {
      StreamLength(data[1..]);
    }
  }

  // ---------------------------------------------------------------- error detection

  /** The word spelled by at most 32 bits. */
  function Word(bits: seq<bool>): bv32 {
    if bits == [] then 0 else Push(bits[0], Word(bits[1..]))
  }

  function Push(b: bool, w: bv32): bv32 { Bit(b) | (w << 1) }

  predicate TopClear(w: bv32) { w & 0x8000_0000 == 0 }

  lemma PushParts(b: bool, w: bv32)
    requires TopClear(w)
    ensures Odd(Push(b, w)) == b && Half(Push(b, w)) == w
  {
    PushLow(b, w);
    PushHigh(b, w);
  }

  lemma PushLow(b: bool, w: bv32)
    ensures Odd(Push(b, w)) == b
  {
  }

  lemma PushHigh(b: bool, w: bv32)
    requires TopClear(w)
    ensures Half(Push(b, w)) == w
  {
    if b { assert Half(Push(true, w)) == w; } else { assert Half(Push(false, w)) == w; }
  }

  lemma HalvedZero(n: nat)
    ensures Halved(0, n) == 0
  {
    if n > 0 {
      assert Half(0) == 0;
      HalvedZero(n - 1);
    }
  }

  lemma TopBit(w: bv32)
    requires Half(Half(Half(Half(Half(Half(Half(Down8(Down8(Down8(w)))))))))) == 0
    ensures TopClear(w)
  {
  }

  lemma SevenHalves(x: bv32)
    ensures Halved(x, 7) == Half(Half(Half(Half(Half(Half(Half(x)))))))
  {
  }

  /** A word that 31 or fewer halvings exhaust has a clear top bit. */
  lemma ShortIsTopClear(w: bv32, n: nat)
    requires n <= 31 && Halved(w, n) == 0
    ensures TopClear(w)
  {
    HalvedAdd(w, n, 31 - n);
    HalvedZero(31 - n);
    HalvedAdd(w, 8, 23);
    HalvedAdd(Down8(w), 8, 15);
    HalvedAdd(Down8(Down8(w)), 8, 7);
    HalvedEight(w);
    HalvedEight(Down8(w));
    HalvedEight(Down8(Down8(w)));
    SevenHalves(Down8(Down8(Down8(w))));
    TopBit(w);
  }

  lemma {:induction false} WordSpells(bits: seq<bool>)
    requires |bits| <= 32
    ensures LowBits(Word(bits), bits) && Halved(Word(bits), |bits|) == 0
  {
    if bits != [] {
      WordSpells(bits[1..]);
      ShortIsTopClear(Word(bits[1..]), |bits| - 1);
      PushParts(bits[0], Word(bits[1..]));
    }
  }

  lemma {:induction false} LowBitsDetermine(p: bv32, a: seq<bool>, b: seq<bool>)
    requires |a| == |b| && LowBits(p, a) && LowBits(p, b)
    ensures a == b
    decreases |a|
  {
    if a != [] {
      LowBitsDetermine(Half(p), a[1..], b[1..]);
      assert a == [a[0]] + a[1..] && b == [b[0]] + b[1..];
    }
  }

  lemma {:induction false} ShiftedInjective(x: bv32, y: bv32, n: nat)
    requires Shifted(x, n) == Shifted(y, n)
    ensures x == y
    decreases n
  {
    if n > 0 {
      ShiftedInjective(Shift(x), Shift(y), n - 1);
      ShiftInjective(x, y);
    }
  }

  /** At most 32 bits act injectively on the register. */
  lemma BitsInjective(r: bv32, a: seq<bool>, b: seq<bool>)
    requires |a| == |b| <= 32 && Serial(r, a) == Serial(r, b)
    ensures a == b
  {
    WordSpells(a);
    WordSpells(b);
    Consume(r, Word(a), a);
    Consume(r, Word(b), b);
    ShiftedInjective(Xor(r, Word(a)), Xor(r, Word(b)), |a|);
    XorCommutes(r, Word(a));
    XorCommutes(r, Word(b));
    XorInjective(Word(a), Word(b), r);
    LowBitsDetermine(Word(a), a, b);
  }

  /** Each message bit acts as a bijection on the register. */
  lemma {:induction false} SerialInjective(x: bv32, y: bv32, bits: seq<bool>)
    requires Serial(x, bits) == Serial(y, bits)
    ensures x == y
    decreases |bits|
  {
    if bits != [] {
      var b := bits[0];
      SerialInjective(Feed(x, b), Feed(y, b), bits[1..]);
      if b {
        ShiftInjective(Xor(x, 1), Xor(y, 1));
        XorInjective(x, y, 1);
      } else {
        ShiftInjective(x, y);
      }
    }
  }

  /** `a` and `b` differ, and only inside a window of `width` bits starting at bit `i`. */
  ghost predicate BurstAt(a: seq<bool>, b: seq<bool>, i: nat, width: nat) {
    |a| == |b| && i + width <= |a| && a != b && a[..i] == b[..i] && a[i + width..] == b[i + width..]
  }

  /** A burst of at most 32 bits always changes the register. */
  lemma BurstChangesRegister(r: bv32, a: seq<bool>, b: seq<bool>, i: nat, width: nat)
    requires BurstAt(a, b, i, width) && width <= 32
    ensures Serial(r, a) != Serial(r, b)
  {
    var x, y := a[i..i + width], b[i..i + width];
    var tail := a[i + width..];
    assert a == a[..i] + (x + tail);
    assert b == b[..i] + (y + tail);
    SerialConcat(r, a[..i], x + tail);
    SerialConcat(r, b[..i], y + tail);
    var s := Serial(r, a[..i]);
    SerialConcat(s, x, tail);
    SerialConcat(s, y, tail);
    if Serial(r, a) == Serial(r, b) {
      SerialInjective(Serial(s, x), Serial(s, y), tail);
      BitsInjective(s, x, y);
    }
  }

  /** A buffer closed by its own CRC, as a little-endian field. */
  predicate Sealed(t: seq<byte>)
    requires |t| >= 4
  {
    LeWord(t[|t| - 4..]) == ReferenceCrc32(t[..|t| - 4])
  }

  lemma SealIsComplement(s: bv32, w: bv32)
    ensures w == Xor(s, ONES) <==> Xor(s, w) == ONES
  {
    XorCommutes(s, w);
    XorCommutes(s, ONES);
    XorCancels(ONES, s);
    XorCancels(w, s);
  }

  /** A buffer is sealed exactly when the register ends at a fixed residue, CRC field included. */
  lemma SealedIsResidue(t: seq<byte>)
    requires |t| >= 4
    ensures Sealed(t) <==> Serial(ONES, Stream(t)) == Shifted(ONES, 32)
  {
    var body, f := t[..|t| - 4], t[|t| - 4..];
    assert t == body + f;
    StreamConcat(body, f);
    SerialConcat(ONES, Stream(body), Stream(f));
    var s := Serial(ONES, Stream(body));
    LeWordSpells(f);
    StreamLength(f);
    Consume(s, LeWord(f), Stream(f));
    XorCancels(Serial(s, Stream(f)), 0);
    SealIsComplement(s, LeWord(f));
    if Serial(s, Stream(f)) == Shifted(ONES, 32) {
      ShiftedInjective(Xor(s, LeWord(f)), ONES, 32);
    }
  }

  lemma {:induction false} StreamInjective(a: seq<byte>, b: seq<byte>)
    requires |a| == |b| && Stream(a) == Stream(b)
    ensures a == b
  {
    if a != [] {
      assert Stream(a)[..8] == ToBits(a[0], 8) && Stream(b)[..8] == ToBits(b[0], 8);
      assert Stream(a)[8..] == Stream(a[1..]) && Stream(b)[8..] == Stream(b[1..]);
      WidenInjective(a[0], b[0]);
      StreamInjective(a[1..], b[1..]);
      assert a == [a[0]] + a[1..] && b == [b[0]] + b[1..];
    }
  }

  /** A sealed buffer hit by a burst of at most 32 bits, anywhere, CRC field included, is no longer sealed. */
  lemma BurstBreaksSeal(t: seq<byte>, u: seq<byte>, i: nat, width: nat)
    requires |t| >= 4 && Sealed(t) && |u| == |t|
    requires BurstAt(Stream(t), Stream(u), i, width) && width <= 32
    ensures !Sealed(u)
  {
    SealedIsResidue(t);
    SealedIsResidue(u);
    BurstChangesRegister(ONES, Stream(t), Stream(u), i, width);
  }

  lemma StreamSlices(t: seq<byte>, k: nat)
    requires k <= |t|
    ensures |Stream(t)| == 8 * |t|
    ensures Stream(t)[..8 * k] == Stream(t[..k]) && Stream(t)[8 * k..] == Stream(t[k..])
  {
    assert t == t[..k] + t[k..];
    StreamConcat(t[..k], t[k..]);
    StreamLength(t);
    StreamLength(t[..k]);
  }

  lemma ByteBurst(t: seq<byte>, u: seq<byte>, k: nat)
    requires |t| == |u| && k + 4 <= |t|
    requires t != u && t[..k] == u[..k] && t[k + 4..] == u[k + 4..]
    ensures BurstAt(Stream(t), Stream(u), 8 * k, 32)
  {
    StreamSlices(t, k);
    StreamSlices(u, k);
    StreamSlices(t, k + 4);
    StreamSlices(u, k + 4);
    if Stream(t) == Stream(u) { StreamInjective(t, u); }
  }

  /** In particular, any change confined to four consecutive bytes. */
  lemma FourBytesBreakSeal(t: seq<byte>, u: seq<byte>, k: nat)
    requires |t| == |u| && k + 4 <= |t| && Sealed(t)
    requires t != u && t[..k] == u[..k] && t[k + 4..] == u[k + 4..]
    ensures !Sealed(u)
  {
    ByteBurst(t, u, k);
    BurstBreaksSeal(t, u, 8 * k, 32);
  }

  /** The field that closes a buffer. */
  function CrcField(data: seq<byte>): (f: seq<byte>)
    ensures |f| == 4
  {
    LeBytes(ReferenceCrc32(data))
  }

  lemma FieldSeals(data: seq<byte>)
    ensures Sealed(data + CrcField(data))
  {
    var t := data + CrcField(data);
    assert t[..|t| - 4] == data && t[|t| - 4..] == CrcField(data);
    LeRoundTrip(ReferenceCrc32(data));
  }

  // ---------------------------------------------------------------- a change that is not a burst

  lemma SerialTwo(x: byte, y: byte)
    ensures Serial(ONES, Stream([x, y])) == Shift8(Xor(Shift8(Xor(ONES, Widen(x))), Widen(y)))
  {
    var a, b := ToBits(x, 8), ToBits(y, 8);
    assert Stream([y]) == b by {
      assert [y][1..] == [] && b + [] == b;
    }
    assert Stream([x, y]) == a + b by {
      assert [x, y][1..] == [y];
    }
    SerialConcat(ONES, a, b);
    SerialByte(ONES, x);
    SerialByte(Serial(ONES, a), y);
  }

  /** A byte from its digits, the lowest one first. */
  lemma WidenDigits(x: byte, h: bool, g: bool, f: bool, e: bool, d: bool, c: bool, b: bool, a: bool)
    requires ToBits(x, 8) == [a, b, c, d, e, f, g, h]
    ensures Widen(x) == Bit(a) | (Bit(b) << 1) | (Bit(c) << 2) | (Bit(d) << 3) |
                        (Bit(e) << 4) | (Bit(f) << 5) | (Bit(g) << 6) | (Bit(h) << 7)
  {
  }

  lemma WidenZero()
    ensures Widen(0) == 0
  {
    WidenDigits(0, false, false, false, false, false, false, false, false);
  }

  lemma Widen61()
    ensures Widen(0x61) == 0x61
  {
    WidenDigits(0x61, false, true, true, false, false, false, false, true);
  }

  lemma WidenD8()
    ensures Widen(0xd8) == 0xd8
  {
    WidenDigits(0xd8, true, true, false, true, true, false, false, false);
  }

  lemma TwoZeros()
    ensures ReferenceCrc32([0, 0]) == 0x41d9_12ff
  {
    SerialTwo(0, 0);
    WidenZero();
    FourShifts();
  }

  /** The four registers that the two pairs of bytes lead through. */
  lemma FourShifts()
    ensures Shift8(0xffff_ffff) == 0x2dfd_1072 && Shift8(0x2dfd_1072) == 0xbe26_ed00
    ensures Shift8(0xffff_ff9e) == 0x1748_41bc && Shift8(0x1748_4164) == 0x4ac8_ed00
  {
  }

  lemma TwoOthers()
    ensures ReferenceCrc32([0x61, 0xd8]) == 0xb537_12ff
  {
    SerialTwo(0x61, 0xd8);
    Widen61();
    WidenD8();
    FourShifts();
    assert Xor(ONES, 0x61) == 0xffff_ff9e && Xor(0x1748_41bc, 0xd8) == 0x1748_4164;
  }

  lemma SameNarrow(v: bv32, w: bv32)
    requires LowByte(v) == LowByte(w)
    ensures Narrow(v) == Narrow(w)
  {
    WidenNarrow(v);
    WidenNarrow(w);
    WidenInjective(Narrow(v), Narrow(w));
  }

  lemma SameHalf(p: seq<byte>, q: seq<byte>, v: bv32, w: bv32)
    requires ReferenceCrc32(p) == v && ReferenceCrc32(q) == w
    requires LowByte(v) == LowByte(w) && LowByte(Down8(v)) == LowByte(Down8(w))
    ensures CrcField(p)[0] == CrcField(q)[0] && CrcField(p)[1] == CrcField(q)[1]
  {
    SameNarrow(v, w);
    SameNarrow(Down8(v), Down8(w));
  }

  /** Two pairs of bytes whose CRC fields agree in their first two bytes. */
  lemma HalfAlike(p: seq<byte>, q: seq<byte>)
    requires p == [0, 0] && q == [0x61, 0xd8]
    ensures CrcField(p)[0] == CrcField(q)[0] && CrcField(p)[1] == CrcField(q)[1]
  {
    TwoZeros();
    TwoOthers();
    SameHalf(p, q, 0x41d9_12ff, 0xb537_12ff);
  }

  // ---------------------------------------------------------------- the CRC of the base version

  lemma WidenF0()
    ensures Widen(0xf0) == 0xf0
  {
    WidenDigits(0xf0, true, true, true, true, false, false, false, false);
  }

  lemma WidenF1()
    ensures Widen(0xf1) == 0xf1
  {
    WidenDigits(0xf1, true, true, true, true, false, false, false, true);
  }

  lemma WidenBa()
    ensures Widen(0xba) == 0xba
  {
    WidenDigits(0xba, true, false, true, true, true, false, true, false);
  }

  lemma WidenBe()
    ensures Widen(0xbe) == 0xbe
  {
    WidenDigits(0xbe, true, false, true, true, true, true, true, false);
  }

  lemma Widen9d()
    ensures Widen(0x9d) == 0x9d
  {
    WidenDigits(0x9d, true, false, false, true, true, true, false, true);
  }

  lemma Widen53()
    ensures Widen(0x53) == 0x53
  {
    WidenDigits(0x53, false, true, false, true, false, false, true, true);
  }

  /** The registers that the four bytes of version 1.1.0 lead through. */
  lemma VersionShifts()
    ensures Shift8(0xffff_ffff) == 0x2dfd_1072 && Shift8(0x2dfd_1082) == 0x039b_1f1c
    ensures Shift8(0x039b_1fed) == 0xdeb8_05da && Shift8(0xdeb8_052b) == 0xac62_4145
  {
  }

  lemma SerialFour(w: byte, x: byte, y: byte, z: byte)
    ensures Serial(ONES, Stream([w, x, y, z])) ==
            Shift8(Xor(Shift8(Xor(Serial(ONES, Stream([w, x])), Widen(y))), Widen(z)))
  {
    var a, b, c := [w, x], [y], [z];
    assert [w, x, y, z] == a + b + c;
    StreamConcat(a + b, c);
    StreamConcat(a, b);
    assert Stream(b) == ToBits(y, 8) && Stream(c) == ToBits(z, 8) by {
      assert b[1..] == [] && c[1..] == [] && ToBits(y, 8) + [] == ToBits(y, 8) && ToBits(z, 8) + [] == ToBits(z, 8);
    }
    SerialConcat(ONES, Stream(a + b), Stream(c));
    SerialConcat(ONES, Stream(a), Stream(b));
    SerialByte(Serial(ONES, Stream(a)), y);
    SerialByte(Serial(ONES, Stream(a + b)), z);
  }

  lemma VersionCrc()
    ensures ReferenceCrc32([0x00, 0xf0, 0xf1, 0xf1]) == 0x539d_beba
  {
    SerialFour(0x00, 0xf0, 0xf1, 0xf1);
    SerialTwo(0x00, 0xf0);
    WidenZero();
    WidenF0();
    WidenF1();
    VersionShifts();
  }

  lemma VersionField()
    ensures LeWord([0xba, 0xbe, 0x9d, 0x53]) == 0x539d_beba
  {
    WidenBa();
    WidenBe();
    Widen9d();
    Widen53();
  }

  /** The last word of the base type's versions is the CRC of the one in front of it. */
  lemma VersionIsSealed()
    ensures Sealed([0x00, 0xf0, 0xf1, 0xf1, 0xba, 0xbe, 0x9d, 0x53])
  {
    var t := [0x00, 0xf0, 0xf1, 0xf1, 0xba, 0xbe, 0x9d, 0x53];
    assert t[4..] == [0xba, 0xbe, 0x9d, 0x53] && t[..4] == [0x00, 0xf0, 0xf1, 0xf1];
    VersionCrc();
    VersionField();
  }
}
