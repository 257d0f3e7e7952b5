/**
 Octets and little-endian integers, shared by every codec of the model.
 */
module Bytes {
  type byte = x: int | 0 <= x < 256
  type u16 = x: int | 0 <= x < 0x1_0000
  type u32 = x: int | 0 <= x < 0x1_0000_0000
  type u64 = x: int | 0 <= x < 0x1_0000_0000_0000_0000

  function Word(lo: byte, hi: byte): u16 { lo + 256 * hi }

  function Le16(x: u16): (b: seq<byte>)
    ensures |b| == 2 && Word(b[0], b[1]) == x
  {
    [x % 256, x / 256]
  }

  function Le(x: nat, width: nat): (b: seq<byte>)
    ensures |b| == width
    decreases width
  {
    if width == 0 then [] else [x % 256] + Le(x / 256, width - 1)
  }

  function FromLe(b: seq<byte>): nat {
    if b == [] then 0 else b[0] + 256 * FromLe(b[1..])
  }

  function Pow256(n: nat): nat { if n == 0 then 1 else 256 * Pow256(n - 1) }

  lemma {:induction false} FromLeOfLe(x: nat, width: nat)
    requires x < Pow256(width)
    ensures FromLe(Le(x, width)) == x
    decreases width
  {
    if width > 0 {
      FromLeOfLe(x / 256, width - 1);
      assert Le(x, width)[1..] == Le(x / 256, width - 1);
    }
  }

  lemma {:induction false} FromLeBound(b: seq<byte>)
    ensures FromLe(b) < Pow256(|b|)
  {
    if b != [] {
      FromLeBound(b[1..]);
    }
  }

  function FromLe32(b: seq<byte>): u32
    requires |b| == 4
  {
    FromLeBound(b);
    assert Pow256(4) == 0x1_0000_0000;
    FromLe(b)
  }

  function FromLe64(b: seq<byte>): u64
    requires |b| == 8
  {
    FromLeBound(b);
    assert Pow256(8) == 0x1_0000_0000_0000_0000;
    FromLe(b)
  }

  /** Widths as names, so that the verifier does not unroll `Le` on every mention. */
  const WIDTH32: nat := 4
  const WIDTH64: nat := 8

  function Le32(x: u32): (b: seq<byte>)
    ensures |b| == 4 && FromLe(b) == x
  {
    assert Pow256(4) == 0x1_0000_0000;
    FromLeOfLe(x, WIDTH32);
    Le(x, WIDTH32)
  }

  function Le64(x: u64): (b: seq<byte>)
    ensures |b| == 8 && FromLe(b) == x
  {
    assert Pow256(8) == 0x1_0000_0000_0000_0000;
    FromLeOfLe(x, WIDTH64);
    Le(x, WIDTH64)
  }

  /** The bytes of `b` from t on start with `part`. */
  ghost predicate Holds(b: seq<byte>, t: nat, part: seq<byte>) { t + |part| <= |b| && b[t..t + |part|] == part }

  lemma HoldsParts(b: seq<byte>, t: nat, x: seq<byte>, y: seq<byte>)
    requires Holds(b, t, x + y)
    ensures Holds(b, t, x) && Holds(b, t + |x|, y)
  {
    assert b[t..t + |x|] == b[t..t + |x + y|][..|x|];
    assert b[t + |x|..t + |x| + |y|] == b[t..t + |x + y|][|x|..];
  }

  /** A buffer with `d` written over it from `at` on. */
  function Overlay(buf: seq<byte>, at: nat, d: seq<byte>): (r: seq<byte>)
    requires at + |d| <= |buf|
    ensures |r| == |buf|
  {
    buf[..at] + d + buf[at + |d|..]
  }

  lemma OverlayAppend(buf: seq<byte>, at: nat, x: seq<byte>, y: seq<byte>)
    requires at + |x| + |y| <= |buf|
    ensures Overlay(Overlay(buf, at, x), at + |x|, y) == Overlay(buf, at, x + y)
  {
  }

  lemma OverlayBeyond(buf: seq<byte>, d: seq<byte>, c: nat)
    requires |d| <= c <= |buf|
    ensures Overlay(buf, 0, d)[c..] == buf[c..]
  {
  }

  /** Writing a later part first comes to the same. */
  lemma OverlayGap(buf: seq<byte>, x: seq<byte>, y: seq<byte>, z: seq<byte>)
    requires |x| + |y| + |z| <= |buf|
    ensures Overlay(Overlay(Overlay(buf, 0, x), |x| + |y|, z), |x|, y) == Overlay(buf, 0, x + y + z)
  {
  }

  /** memcpy into a buffer. */
  method Blit(a: array<byte>, at: nat, s: seq<byte>)
    requires at + |s| <= a.Length
    modifies a
    ensures a[..] == Overlay(old(a[..]), at, s)
  {
    for i := 0 to |s|
      invariant a[..at] == old(a[..at]) && a[at + |s|..] == old(a[at + |s|..])
      invariant a[at..at + i] == s[..i]
    {
      a[at + i] := s[i];
    }
    assert a[..] == a[..at] + a[at..at + |s|] + a[at + |s|..];
  }

  /** The next part of a record that is being written from the start of a buffer. */
  method Append(a: array<byte>, ghost was: seq<byte>, ghost done: seq<byte>, at: nat, s: seq<byte>)
    requires at == |done| && at + |s| <= a.Length == |was| && a[..] == Overlay(was, 0, done)
    modifies a
    ensures a[..] == Overlay(was, 0, done + s)
  {
    OverlayAppend(was, 0, done, s);
    Blit(a, at, s);
  }
}
