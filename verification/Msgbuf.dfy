/**
 Models the read-only message buffer of src/msgbuf.h and src/msgbuf/core.h: a cursor and a signed count of
 bytes remaining. Errors may be checked late: an access out of bounds drives the count below zero, where it
 stays, so that one test at the end covers every access before it.
 */
module Msgbuf {
  import opened Common
  import opened Bytes

  const INTMAX_MAX: int := 0x7FFF_FFFF_FFFF_FFFF
  const INTMAX_MIN: int := -0x8000_0000_0000_0000

  // ---------------------------------------------------------------- the count

  /** What an access of n bytes does to the count. */
  function Spend(remaining: int, n: nat): int {
    if remaining >= n then remaining - n
    else if remaining > INTMAX_MIN + n then remaining - n
    else INTMAX_MIN
  }

  function SpendAll(remaining: int, sizes: seq<nat>): int
    decreases |sizes|
  {
    if sizes == [] then remaining else SpendAll(Spend(remaining, sizes[0]), sizes[1..])
  }

  function Sum(sizes: seq<nat>): nat { if sizes == [] then 0 else sizes[0] + Sum(sizes[1..]) }

  /** The mathematical count, kept inside the range of intmax_t. */
  function Clamp(x: int): int { if x > INTMAX_MIN then x else INTMAX_MIN }

  lemma SpendIsClamped(x: int, n: nat)
    requires x <= INTMAX_MAX
    ensures Spend(Clamp(x), n) == Clamp(x - n)
  {
  }

  lemma {:induction false} SpendAllIsClamped(x: int, sizes: seq<nat>)
    requires x <= INTMAX_MAX
    ensures SpendAll(Clamp(x), sizes) == Clamp(x - Sum(sizes))
    decreases |sizes|
  {
    if sizes != [] {
      SpendIsClamped(x, sizes[0]);
      SpendAllIsClamped(x - sizes[0], sizes[1..]);
    }
  }

  lemma {:induction false} PrefixSum(sizes: seq<nat>, k: nat)
    requires k <= |sizes|
    ensures Sum(sizes[..k]) <= Sum(sizes)
    decreases |sizes|
  {
    if k > 0 {
      PrefixSum(sizes[1..], k - 1);
      assert sizes[..k][1..] == sizes[1..][..k - 1];
    }
  }

  /** The k-th access of a run, as the extractors decide it on the spot. */
  predicate InBounds(length: nat, sizes: seq<nat>, k: nat)
    requires k < |sizes|
  {
    SpendAll(length, sizes[..k]) >= sizes[k]
  }

  /**
   Checking once at the end is sound and complete: after any run of unchecked accesses the count is non-negative
   exactly when each of them was in bounds; then it is what is left, and it never leaves the range of intmax_t.
   */
  lemma DeferredErrorsAreSound(length: nat, sizes: seq<nat>)
    requires length <= INTMAX_MAX
    ensures var end := SpendAll(length, sizes);
      && INTMAX_MIN <= end <= INTMAX_MAX
      && (end >= 0 <==> forall k :: 0 <= k < |sizes| ==> InBounds(length, sizes, k))
      && (end >= 0 ==> end == length - Sum(sizes))
  {
    SpendAllIsClamped(length, sizes);
    forall k | 0 <= k < |sizes| ensures InBounds(length, sizes, k) <==> Sum(sizes[..k + 1]) <= length {
      SpendAllIsClamped(length, sizes[..k]);
      SumStep(sizes, k);
    }
    if SpendAll(length, sizes) >= 0 {
      forall k | 0 <= k < |sizes| ensures InBounds(length, sizes, k) {
        PrefixSum(sizes, k + 1);
      }
    } else if sizes != [] {
      assert sizes[..|sizes| - 1 + 1] == sizes;
      assert !InBounds(length, sizes, |sizes| - 1);
    }
  }

  lemma {:induction false} SumStep(sizes: seq<nat>, k: nat)
    requires k < |sizes|
    ensures Sum(sizes[..k + 1]) == Sum(sizes[..k]) + sizes[k]
    decreases |sizes|
  {
    if k > 0 {
      SumStep(sizes[1..], k - 1);
      assert sizes[..k + 1][1..] == sizes[1..][..k] && sizes[..k][1..] == sizes[1..][..k - 1];
    }
  }

  // ---------------------------------------------------------------- the buffer

  /** Widths of the extractors; named, so that the verifier does not unroll `Number` on every mention. */
  const U8: nat := 1
  const U16: nat := 2
  const U32: nat := 4

  /** The n bytes from i on, as a little-endian number. */
  function Number(data: seq<byte>, i: nat, n: nat): nat
    requires i + n <= |data|
    decreases n
  {
    if n == 0 then 0 else data[i] + 256 * Number(data, i + 1, n - 1)
  }

  lemma {:induction false} NumberBound(data: seq<byte>, i: nat, n: nat)
    requires i + n <= |data|
    ensures Number(data, i, n) < Pow256(n)
    decreases n
  {
    if n > 0 {
      NumberBound(data, i + 1, n - 1);
    }
  }

  lemma NumberFits(data: seq<byte>, i: nat, n: nat)
    requires i + n <= |data| && n <= 4
    ensures Number(data, i, n) <= 0xFFFF_FFFF
  {
    NumberBound(data, i, n);
    assert Pow256(0) == 1 && Pow256(1) == 0x100 && Pow256(2) == 0x1_0000 && Pow256(3) == 0x100_0000 &&
      Pow256(4) == 0x1_0000_0000;
  }

  lemma Numbers(data: seq<byte>, i: nat)
    ensures i + 1 <= |data| ==> Number(data, i, U8) == data[i]
    ensures i + 2 <= |data| ==> Number(data, i, U16) == Word(data[i], data[i + 1])
  {
    if i + 2 <= |data| {
      assert Number(data, i, U16) == data[i] + 256 * Number(data, i + 1, U16 - 1);
      assert Number(data, i + 1, U16 - 1) == data[i + 1] + 256 * Number(data, i + 2, 0);
    }
  }

  /** The lowest byte of a number comes first. */
  lemma Digits(data: seq<byte>, i: nat)
    requires i + 4 <= |data|
    ensures var a: int, b: int, c: int, d: int := data[i], data[i + 1], data[i + 2], data[i + 3];
      && Number(data, i, U8) == a
      && Number(data, i, U16) == a + 0x100 * b
      && Number(data, i, U32) == a + 0x100 * b + 0x1_0000 * c + 0x100_0000 * d
  {
    Numbers(data, i);
    assert Number(data, i + 2, U32 - 2) == data[i + 2] + 256 * Number(data, i + 3, 1);
    assert Number(data, i, U32) == data[i] + 256 * Number(data, i + 1, U32 - 1);
  }

  /** A piece of a buffer, as offset and length. */
  datatype Span = Span(start: nat, length: nat)

  function End(s: Span): nat { s.start + s.length }

  /** The pieces lie end to end, from the first offset to the last. */
  predicate Tiles(pieces: seq<Span>, from: nat, to: nat)
    decreases |pieces|
  {
    if pieces == [] then from == to else pieces[0].start == from && Tiles(pieces[1..], End(pieces[0]), to)
  }

  /** struct pldm_msgbuf_ro over the bytes of `data` from `start` to `end`. */
  class Reader {
    const data: seq<byte>
    ghost const start: nat
    ghost const end: nat
    var pos: nat
    var remaining: int
    /** All bytes asked for so far, whether they were there or not. */
    ghost var asked: nat

    ghost predicate Valid()
      reads this
    {
      && start <= end <= |data| && end - start <= INTMAX_MAX
      && remaining == Clamp(end - start - asked)
      && (remaining >= 0 ==> pos == start + asked)
    }

    /** pldm_msgbuf_init_errno, where the length is acceptable. */
    constructor (data: seq<byte>, start: nat, length: nat)
      requires start + length <= |data| && length <= INTMAX_MAX
      ensures Valid() && asked == 0 && pos == start && remaining == length
      ensures this.data == data && this.start == start && end == start + length
    {
      this.data, this.start, this.end := data, start, start + length;
      pos, remaining, asked := start, length, 0;
    }

    /** pldm_msgbuf_span_required, and the bounds handling of every extractor. */
    method Take(n: nat) returns (ok: bool, at: nat)
      requires Valid()
      modifies this
      ensures Valid() && asked == old(asked) + n
      ensures ok <==> start + asked <= end
      ensures ok ==> at == old(pos) == start + old(asked)
    {
      SpendIsClamped(end - start - asked, n);
      at := pos;
      asked := asked + n;
      if remaining >= n {
        pos, remaining := pos + n, remaining - n;
        return true, at;
      }
      remaining := if remaining > INTMAX_MIN + n then remaining - n else INTMAX_MIN;
      return false, at;
    }

    /** The integer extractors; an access out of bounds leaves the destination at zero. */
    method Get(n: nat) returns (ok: bool, v: nat)
      requires Valid()
      modifies this
      ensures Valid() && asked == old(asked) + n
      ensures ok <==> start + asked <= end
      ensures v == if ok then Number(data, start + old(asked), n) else 0
    {
      var at;
      ok, at := Take(n);
      v := if ok then Number(data, at, n) else 0;
    }

    /** pldm_msgbuf_span_until: everything but a trailer. */
    method TakeUntil(trailer: nat) returns (at: nat, length: nat)
      requires Valid()
      modifies this
      ensures Valid()
      ensures start + old(asked) + trailer <= end ==>
                asked == end - start - trailer && at == start + old(asked) && length == end - trailer - at
      ensures start + old(asked) + trailer > end ==> start + asked > end
    {
      at, length := pos, 0;
      if trailer > INTMAX_MAX {
        remaining := INTMAX_MIN;
        asked := end - start - remaining;
      } else if remaining >= trailer {
        length := remaining - trailer;
        pos, remaining := pos + length, trailer;
        asked := asked + length;
      } else {
        remaining := if remaining > INTMAX_MIN + trailer then INTMAX_MIN + trailer else INTMAX_MIN;
        asked := end - start - remaining;
      }
    }

    /** pldm_msgbuf_span_remaining. */
    method TakeRest() returns (ok: bool, at: nat, length: nat)
      requires Valid()
      modifies this
      ensures Valid()
      ensures ok <==> start + old(asked) <= end
      ensures ok ==> at == start + old(asked) && length == end - at && start + asked == end
      ensures !ok ==> asked == old(asked)
    {
      if remaining < 0 {
        return false, 0, 0;
      }
      ok, at, length := true, pos, remaining;
      pos, remaining, asked := pos + remaining, 0, asked + remaining;
    }

    /** pldm_msgbuf_complete: were all accesses in bounds? */
    method Complete() returns (ok: bool)
      requires Valid()
      ensures ok <==> start + asked <= end
    {
      return remaining >= 0;
    }

    /** pldm_msgbuf_complete_consumed: did they take the buffer up exactly? */
    method Consumed() returns (ok: bool)
      requires Valid()
      ensures ok <==> start + asked == end
    {
      return remaining == 0;
    }
  }

  lemma {:induction false} NumberOfLe(data: seq<byte>, i: nat, x: nat, n: nat)
    requires i + n <= |data| && data[i..i + n] == Le(x, n) && x < Pow256(n)
    ensures Number(data, i, n) == x
    decreases n
  {
    if n > 0 {
      assert data[i + 1..i + 1 + (n - 1)] == data[i..i + n][1..] == Le(x / 256, n - 1);
      assert data[i] == data[i..i + n][0];
      NumberOfLe(data, i + 1, x / 256, n - 1);
    }
  }

  lemma {:induction false} LeOfNumber(data: seq<byte>, i: nat, n: nat)
    requires i + n <= |data|
    ensures Le(Number(data, i, n), n) == data[i..i + n]
    decreases n
  {
    if n > 0 {
      LeOfNumber(data, i + 1, n - 1);
      var x := Number(data, i, n);
      assert x % 256 == data[i] && x / 256 == Number(data, i + 1, n - 1);
      assert data[i..i + n] == [data[i]] + data[i + 1..i + 1 + (n - 1)];
    }
  }

  // ---------------------------------------------------------------- the buffer for writing

  /**
   struct pldm_msgbuf_rw over the `length` bytes of an array from `start` on; what was written in front of them is
   `lead`.
   */
  class Writer {
    const data: array<byte>
    const start: nat
    const length: nat
    var remaining: int
    ghost const was: seq<byte>
    ghost const lead: seq<byte>
    /** All that was inserted so far, as far as it fitted. */
    ghost var out: seq<byte>
    ghost var asked: nat

    ghost predicate Valid()
      reads this, data
    {
      && start + length <= data.Length == |was| && length <= INTMAX_MAX && |lead| == start
      && remaining == Clamp(length - asked) && |out| <= length
      && (remaining >= 0 ==> |out| == asked)
      && data[..] == Overlay(was, 0, lead + out)
    }

    constructor (data: array<byte>, start: nat, length: nat, ghost was: seq<byte>, ghost lead: seq<byte>)
      requires start + length <= data.Length == |was| && length <= INTMAX_MAX
      requires |lead| == start && data[..] == Overlay(was, 0, lead)
      ensures Valid() && this.data == data && this.length == length && out == [] && asked == 0
      ensures this.was == was && this.lead == lead
    {
      this.data, this.start, this.length, this.remaining := data, start, length, length;
      this.was, this.lead, this.out, this.asked := was, lead, [], 0;
      assert lead + [] == lead;
    }

    /** The integer inserters and pldm_msgbuf_insert_array: all of it or, out of bounds, nothing more at all. */
    method Put(s: seq<byte>) returns (ok: bool)
      requires Valid()
      modifies this, data
      ensures Valid() && asked == old(asked) + |s|
      ensures ok <==> asked <= length
      ensures out == if ok then old(out) + s else old(out)
    {
      SpendIsClamped(length - asked, |s|);
      asked := asked + |s|;
      if remaining >= |s| {
        Append(data, was, lead + out, start + length - remaining, s);
        Associates(lead, out, s);
        out := out + s;
        remaining := remaining - |s|;
        return true;
      }
      remaining := if remaining > INTMAX_MIN + |s| then remaining - |s| else INTMAX_MIN;
      return false;
    }

    /** pldm_msgbuf_complete_used: were all inserts in bounds, and how much did they take? */
    method CompleteUsed() returns (ok: bool, used: nat)
      requires Valid()
      ensures ok <==> asked <= length
      ensures ok ==> used == asked == |out|
    {
      if remaining < 0 {
        return false, 0;
      }
      return true, length - remaining;
    }
  }
}
