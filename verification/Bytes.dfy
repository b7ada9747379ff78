/** Bytes and the shifts the bus code applies to them. */
module Bytes {
  type Byte = x: int | 0 <= x < 256

  datatype Option<+T> = None | Some(value: T)

  function Word(high: int, low: int): int {
    256 * high + low
  }

  function ByteOf(x: nat): Byte {
    x % 256
  }

  /** x >> k for a non-negative x. */
  function Shr(x: nat, k: nat): nat
    decreases k
  {
    if k == 0 then x else Shr(x, k - 1) / 2
  }

  /** Bit k of x, counted from the least significant one. */
  predicate BitAt(x: nat, k: nat) {
    Shr(x, k) % 2 == 1
  }

  function BitValue(b: bool): nat {
    if b then 1 else 0
  }

  /** Shifting a byte right drops the lowest bit and nothing else. */
  lemma ShrStep(x: nat, k: nat)
    ensures Shr(x, k) == 2 * Shr(x, k + 1) + BitValue(BitAt(x, k))
  {
  }

  lemma {:induction false} ShrBound(x: nat, k: nat, limit: nat)
    requires x < limit * Pow2(k)
    ensures Shr(x, k) < limit
    decreases k
  {
    if k > 0 {
      assert Pow2(k) == 2 * Pow2(k - 1);
      assert limit * Pow2(k) == (2 * limit) * Pow2(k - 1);
      ShrBound(x, k - 1, 2 * limit);
    }
  }

  function Pow2(k: nat): (p: nat)
    ensures p > 0
  {
    if k == 0 then 1 else 2 * Pow2(k - 1)
  }

  lemma ByteTopIsZero(b: Byte)
    ensures Shr(b, 8) == 0
  {
    Pow2Of8();
    ShrBound(b, 8, 1);
  }

  lemma Pow2Of8()
    ensures Pow2(8) == 256
  {
    assert Pow2(4) == 16;
  }

  /** The bits of v from i upwards, in place: v with the bits below i cleared. */
  function Upper(v: nat, i: nat): nat {
    Shr(v, i) * Pow2(i)
  }

  lemma UpperEnds(v: Byte)
    ensures Upper(v, 8) == 0 && Upper(v, 0) == v
  {
    ByteTopIsZero(v);
  }

  /** Or-ing bit i into the bits above it. */
  lemma UpperStep(v: nat, i: nat)
    ensures Upper(v, i) == Upper(v, i + 1) + if BitAt(v, i) then Pow2(i) else 0
    ensures Pow2(i + 1) == 2 * Pow2(i)
  {
    ShrStep(v, i);
    assert 2 * Shr(v, i + 1) * Pow2(i) == Shr(v, i + 1) * Pow2(i + 1);
  }
}
