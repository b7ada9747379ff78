/**
 * The regulator behind WinbondW836x/WinbondW836x.cpp updateTachometers: one
 * step of a fan's divisor exponent from the count it reads.
 */
module FanDivisor {
  import opened Bytes

  /** The next divisor exponent. */
  function Next(offset: nat, count: nat): (r: nat)
    ensures offset <= 7 ==> r <= 7 && r <= offset + 1 && offset <= r + 1
  {
    if count > 192 && offset < 7 then offset + 1
    else if count < 96 && offset > 0 then offset - 1
    else offset
  }

  /** What the tachometer counts for a fan of constant period: the period over 2^offset, saturated. */
  function Reading(period: nat, offset: nat): nat {
    var c := Shr(period, offset);
    if c > 255 then 255 else c
  }

  /** Shifting divides by the power of two, rounding down. */
  lemma {:induction false} ShrDivides(x: nat, k: nat)
    ensures Shr(x, k) * Pow2(k) <= x < (Shr(x, k) + 1) * Pow2(k)
    decreases k
  {
    if k > 0 {
      ShrDivides(x, k - 1);
      Halves(Shr(x, k - 1), Pow2(k - 1), x);
    }
  }

  lemma Halves(c: nat, p: nat, x: nat)
    requires c * p <= x < (c + 1) * p
    ensures c / 2 * (2 * p) <= x < (c / 2 + 1) * (2 * p)
  {
    var h := c / 2;
    assert h * (2 * p) == (2 * h) * p && (h + 1) * (2 * p) == (2 * h + 2) * p;
    Ordered(2 * h, c, p);
    Ordered(c + 1, 2 * h + 2, p);
  }

  lemma Ordered(a: nat, b: nat, p: nat)
    requires a <= b
    ensures a * p <= b * p
  {
  }

  /** Short of saturation the count times the divisor is the period, rounded down. */
  lemma ReadingMeasures(period: nat, offset: nat)
    ensures var c, d := Reading(period, offset), Pow2(offset);
            if c < 255 then c * d <= period < (c + 1) * d else 255 * d <= period
    ensures Reading(period, offset) < 255 ==> period < 255 * Pow2(offset)
  {
    var c, d := Shr(period, offset), Pow2(offset);
    ShrDivides(period, offset);
    if c < 255 {
      Ordered(c + 1, 255, d);
    } else {
      Ordered(255, c, d);
    }
  }

  /** The exponent after k updates. */
  function Iterate(period: nat, offset: nat, k: nat): (r: nat)
    ensures offset <= 7 ==> r <= 7
    decreases k
  {
    if k == 0 then offset
    else var o := Iterate(period, offset, k - 1); Next(o, Reading(period, o))
  }

  /** The count is in the band, or the exponent is pinned at an end of its range. */
  predicate Settled(period: nat, offset: nat) {
    var c := Reading(period, offset);
    96 <= c <= 192 || (offset == 0 && c < 96) || (offset == 7 && c > 192)
  }

  lemma SettledIffFixed(period: nat, offset: nat)
    requires offset <= 7
    ensures Settled(period, offset) == (Next(offset, Reading(period, offset)) == offset)
  {
  }

  /** The hysteresis: a step up lands at 96 or more, a step down at 192 or less. */
  lemma NoReversal(period: nat, offset: nat)
    ensures Reading(period, offset) > 192 ==> Reading(period, offset + 1) >= 96
    ensures Reading(period, offset + 1) < 96 ==> Reading(period, offset) <= 192
  {
    ShrStep(period, offset);
  }

  /** From a count of 96 or more the exponent only rises, and settles within 7 - offset updates. */
  lemma {:induction false} Rises(period: nat, offset: nat, k: nat)
    requires offset <= 7 && Reading(period, offset) >= 96
    ensures var o := Iterate(period, offset, k);
            && offset <= o && Reading(period, o) >= 96
            && (k > 0 ==> Iterate(period, offset, k - 1) <= o)
            && (o < offset + k ==> Settled(period, o))
    decreases k
  {
    if k > 0 {
      Rises(period, offset, k - 1);
      NoReversal(period, Iterate(period, offset, k - 1));
    }
  }

  /** From a count of 192 or less it only falls, and settles within offset updates. */
  lemma {:induction false} Falls(period: nat, offset: nat, k: nat)
    requires offset <= 7 && Reading(period, offset) <= 192
    ensures var o := Iterate(period, offset, k);
            && o <= offset && Reading(period, o) <= 192
            && (k > 0 ==> o <= Iterate(period, offset, k - 1))
            && (offset < o + k ==> Settled(period, o))
    decreases k
  {
    if k > 0 {
      Falls(period, offset, k - 1);
      var o := Iterate(period, offset, k - 1);
      if o > 0 {
        NoReversal(period, o - 1);
      }
    }
  }

  /** Whatever the fan and the starting exponent, it has settled after seven updates and stays. */
  lemma Converges(period: nat, offset: nat, k: nat)
    requires offset <= 7 && k >= 7
    ensures Settled(period, Iterate(period, offset, k))
    ensures Iterate(period, offset, k + 1) == Iterate(period, offset, k)
  {
    if Reading(period, offset) >= 96 {
      Rises(period, offset, k);
    } else {
      Falls(period, offset, k);
    }
    SettledIffFixed(period, Iterate(period, offset, k));
  }

  /** It never oscillates: once it has moved one way it does not move the other way. */
  lemma {:induction false} Monotone(period: nat, offset: nat, i: nat, j: nat)
    requires offset <= 7 && i <= j
    ensures Reading(period, offset) >= 96 ==> Iterate(period, offset, i) <= Iterate(period, offset, j)
    ensures Reading(period, offset) <= 192 ==> Iterate(period, offset, j) <= Iterate(period, offset, i)
    decreases j - i
  {
    if i < j {
      Monotone(period, offset, i, j - 1);
      if Reading(period, offset) >= 96 {
        Rises(period, offset, j);
      }
      if Reading(period, offset) <= 192 {
        Falls(period, offset, j);
      }
    }
  }
}
