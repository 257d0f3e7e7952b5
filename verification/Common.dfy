/**
 What several modules share: optional values, numbers as bits, and the associativity of concatenation.
 */
module Common {
  datatype Option<+T> = None | Some(value: T)

  function Pow2(n: nat): nat { if n == 0 then 1 else 2 * Pow2(n - 1) }

  /** Bits as a number, the first one lowest. */
  function FromBits(bits: seq<bool>): nat {
    if bits == [] then 0 else (if bits[0] then 1 else 0) + 2 * FromBits(bits[1..])
  }

  lemma {:induction false} FromBitsBound(bits: seq<bool>)
    ensures FromBits(bits) < Pow2(|bits|)
  {
    if bits != [] {
      FromBitsBound(bits[1..]);
    }
  }

  lemma Associates<T>(a: seq<T>, b: seq<T>, c: seq<T>)
    ensures a + b + c == a + (b + c)
  {
  }

  lemma AtLeastOnce(d: int, s: int)
    requires s >= 0
    ensures d >= 1 ==> d * s >= s
    ensures d <= -1 ==> d * s <= -s
  {
    assert d * s == s + (d - 1) * s;
    assert d * s == -s + (d + 1) * s;
  }
}
