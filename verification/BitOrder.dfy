/** Bytes as eight levels, most significant first. */
module BitOrder {
  import opened Bytes

  function FromBits(bits: seq<bool>): nat {
    if bits == [] then 0 else 2 * FromBits(bits[..|bits| - 1]) + BitValue(bits[|bits| - 1])
  }

  function ToBits(b: nat, n: nat): (r: seq<bool>)
    ensures |r| == n
  {
    seq(n, i requires 0 <= i < n => BitAt(b, n - 1 - i))
  }

  lemma NoBits()
    ensures FromBits([]) == 0
  {
  }

  lemma FromBitsSnoc(bits: seq<bool>, b: bool)
    ensures FromBits(bits + [b]) == 2 * FromBits(bits) + BitValue(b)
  {
    assert (bits + [b])[..|bits|] == bits;
  }

  lemma {:induction false} FromBitsBound(bits: seq<bool>)
    ensures FromBits(bits) < Pow2(|bits|)
    decreases |bits|
  {
    if bits != [] {
      FromBitsBound(bits[..|bits| - 1]);
    }
  }

  lemma Shifted(x: nat, p: nat, f: nat, v: nat)
    ensures 2 * (x * p + f) + v == x * (2 * p) + (2 * f + v)
  {
  }

  lemma {:induction false} FromBitsAppend(a: seq<bool>, b: seq<bool>)
    ensures FromBits(a + b) == FromBits(a) * Pow2(|b|) + FromBits(b)
    decreases |b|
  {
    hide FromBits;
    if b == [] {
      NoBits();
      assert a + b == a;
    } else {
      var front, last := b[..|b| - 1], b[|b| - 1];
      FromBitsAppend(a, front);
      assert a + b == (a + front) + [last] && b == front + [last];
      FromBitsSnoc(a + front, last);
      FromBitsSnoc(front, last);
      Shifted(FromBits(a), Pow2(|front|), FromBits(front), BitValue(last));
    }
  }

  /** Shifting drops the bits received last. */
  lemma {:induction false} ShrFromBits(bits: seq<bool>, k: nat)
    requires k <= |bits|
    ensures Shr(FromBits(bits), k) == FromBits(bits[..|bits| - k])
    decreases k
  {
    if k == 0 {
      assert bits[..|bits|] == bits;
    } else {
      ShrFromBits(bits, k - 1);
      var front := bits[..|bits| - (k - 1)];
      assert front[..|front| - 1] == bits[..|bits| - k];
    }
  }

  /** A byte read back from the levels it was sent as... */
  lemma SentThenReceived(b: nat, n: nat)
    requires b < Pow2(n)
    ensures FromBits(ToBits(b, n)) == b
  {
    ShrBound(b, n, 1);
    TopOfBits(b, n, n);
    assert ToBits(b, n)[..n] == ToBits(b, n);
  }

  lemma {:induction false} TopOfBits(b: nat, n: nat, k: nat)
    requires k <= n && Shr(b, n) == 0
    ensures FromBits(ToBits(b, n)[..k]) == Shr(b, n - k)
    decreases k
  {
    if k > 0 {
      TopOfBits(b, n, k - 1);
      var front := ToBits(b, n)[..k];
      assert front[..k - 1] == ToBits(b, n)[..k - 1];
      assert front[k - 1] == BitAt(b, n - k);
      ShrStep(b, n - k);
    }
  }

  /** ...and levels sent again as the byte they were received as. */
  lemma ReceivedThenSent(bits: seq<bool>)
    ensures ToBits(FromBits(bits), |bits|) == bits
  {
    forall i | 0 <= i < |bits|
      ensures BitAt(FromBits(bits), |bits| - 1 - i) == bits[i]
    {
      ShrFromBits(bits, |bits| - 1 - i);
      var front := bits[..i + 1];
      assert front[..|front| - 1] == bits[..i] && front[|front| - 1] == bits[i];
    }
  }

  /** The bits so far, in the place they get in the byte: i bits are still to come. */
  function InPlace(bits: seq<bool>, i: nat): nat {
    FromBits(bits) * Pow2(i)
  }

  lemma Distribute(v: nat, b: nat, p: nat)
    ensures (2 * v + b) * p == v * (2 * p) + b * p
  {
  }

  /** Or-ing in bit i, which is still clear, is adding it. */
  lemma InPlaceSnoc(bits: seq<bool>, b: bool, i: nat)
    ensures InPlace(bits + [b], i) == InPlace(bits, i + 1) + if b then Pow2(i) else 0
  {
    FromBitsSnoc(bits, b);
    Distribute(FromBits(bits), BitValue(b), Pow2(i));
  }

  lemma InPlaceIsByte(bits: seq<bool>, i: nat)
    requires |bits| + i == 8
    ensures InPlace(bits, i) < 256
    ensures i == 0 ==> InPlace(bits, i) == FromBits(bits)
    decreases i
  {
    FromBitsBound(bits);
    PowProduct(|bits|, i);
    Pow2Of8();
    assert FromBits(bits) * Pow2(i) < Pow2(|bits|) * Pow2(i);
  }

  lemma {:induction false} PowProduct(a: nat, b: nat)
    ensures Pow2(a) * Pow2(b) == Pow2(a + b)
    decreases b
  {
    if b > 0 {
      PowProduct(a, b - 1);
      assert Pow2(a) * Pow2(b) == 2 * (Pow2(a) * Pow2(b - 1));
    }
  }
}
