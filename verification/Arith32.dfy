/** Unsigned 32-bit arithmetic, and the same arithmetic without the limit. */
module Arith32 {
  const LIMIT: nat := 0x1_0000_0000

  type U32 = x: int | 0 <= x < LIMIT

  /** How a product is stored: in 32 bits, or exactly. */
  datatype Width = Wrapping | Exact {
    function Mul(a: nat, b: nat): nat {
      match this
      case Wrapping => a * b % LIMIT
      case Exact => a * b
    }
  }

  /** A clock, and the largest product formed on the way to it. */
  datatype Clock = Clock(value: nat, peak: nat)

  function Max(a: nat, b: nat): nat {
    if a < b then b else a
  }

  function Fixed(value: nat): Clock {
    Clock(value, 0)
  }

  /** A clock times a number. */
  function Scaled(w: Width, c: Clock, n: nat): Clock {
    Clock(w.Mul(c.value, n), Max(c.peak, c.value * n))
  }

  /** Twice a clock, divided by at least two. */
  function Halved(w: Width, c: Clock, div: nat): Clock
    requires div > 0
  {
    var twice := Scaled(w, c, 2);
    DivBound(twice.value, div);
    Clock(twice.value / div, twice.peak)
  }

  /** No product on the way overflows, and the result is at most `cap`. */
  predicate Fits(c: Clock, cap: nat) {
    c.value <= cap && c.peak < LIMIT
  }

  lemma HalvedFits(c: Clock, cap: nat, div: nat)
    requires Fits(c, cap) && 2 * cap < LIMIT && div >= 2
    ensures Halved(Wrapping, c, div) == Halved(Exact, c, div)
    ensures Fits(Halved(Exact, c, div), cap)
  {
    MulFits(c.value, 2);
    HalfBound(c.value, div);
  }

  /** Bit k of a register. */
  predicate BitSet(x: nat, mask: nat)
    requires mask > 0
  {
    x / mask % 2 == 1
  }

  lemma MulBound(a: nat, b: nat, c: nat, d: nat)
    requires a <= c && b <= d
    ensures a * b <= c * d
  {
    assert a * b <= c * b;
    assert c * b <= c * d;
  }

  lemma Times(q: nat, b: nat)
    requires b > 0
    ensures q <= q * b
  {
  }

  /** Dividing by a positive number does not make a number larger. */
  lemma DivBound(a: nat, b: nat)
    requires b > 0
    ensures 0 <= a / b <= a
  {
    Quotient(a, b);
    if a / b >= 0 {
      Times(a / b, b);
    }
  }

  lemma Quotient(a: nat, b: nat)
    requires b > 0
    ensures 0 <= a / b && a / b * b <= a
  {
  }

  /** Doubling and dividing by at least two does not make it larger either. */
  lemma HalfBound(a: nat, b: nat)
    requires b >= 2
    ensures 0 <= a * 2 / b <= a
  {
    var q := a * 2 / b;
    Quotient(a * 2, b);
    MulBound(q, 2, q, b);
  }

  /** A product below the limit is stored exactly. */
  lemma MulFits(a: nat, b: nat)
    requires a * b < LIMIT
    ensures Wrapping.Mul(a, b) == Exact.Mul(a, b) == a * b
  {
  }

  /** v is num / den, rounded down. */
  predicate Floor(v: nat, num: nat, den: nat) {
    v * den <= num < (v + 1) * den
  }

  lemma DivIsFloor(num: nat, den: nat)
    requires den > 0
    ensures Floor(num / den, num, den)
  {
  }

  lemma HalvedIs(c: Clock, div: nat)
    requires div > 0
    ensures Floor(Halved(Exact, c, div).value, 2 * c.value, div)
  {
    DivIsFloor(c.value * 2, div);
  }
}
