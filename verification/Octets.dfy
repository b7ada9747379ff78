/**
 * Octets read off a recording of the bus, wherever they came from: eight
 * levels, most significant first, and the ninth that answers them (UM10204
 * sections 3.1.5, 3.1.6, 3.1.10 and 3.1.11).
 */
module Octets {
  import opened Bytes
  import opened BitOrder
  import opened Wire

  /** There are n data bits from p on. */
  predicate BitsAt(s: seq<Symbol>, p: nat, n: nat) {
    p + n <= |s| && forall i :: p <= i < p + n ==> s[i].Bit?
  }

  function LevelsAt(s: seq<Symbol>, p: nat, n: nat): (r: seq<bool>)
    requires BitsAt(s, p, n)
    ensures |r| == n
  {
    seq(n, i requires 0 <= i < n => s[p + i].level)
  }

  /** An octet at p and the level of its ninth bit. */
  predicate OctetAt(s: seq<Symbol>, p: nat, value: nat, ninth: bool) {
    BitsAt(s, p, 9) && FromBits(LevelsAt(s, p, 8)) == value && s[p + 8].level == ninth
  }

  /** An address octet: seven bits of address, then the direction, high for a read, then SDA released. */
  predicate AddressAt(s: seq<Symbol>, p: nat, addr: nat, read: bool) {
    BitsAt(s, p, 9) && FromBits(LevelsAt(s, p, 7)) == addr && s[p + 7].level == read && s[p + 8].level
  }

  /** A byte that is put on the wire is read off it. */
  lemma SentIsOctet(before: seq<Symbol>, b: Byte, after: seq<Symbol>)
    ensures OctetAt(before + SentByte(b) + after, |before|, b, true)
  {
    var s := before + SentByte(b) + after;
    Pow2Of8();
    SentThenReceived(b, 8);
    assert forall i :: 0 <= i < 9 ==> s[|before| + i] == SentByte(b)[i];
    assert LevelsAt(s, |before|, 8) == ToBits(b, 8);
  }

  /** The lowest bit of an octet is its direction, the others are its address. */
  lemma OctetIsAddress(s: seq<Symbol>, p: nat, value: nat)
    requires OctetAt(s, p, value, true)
    ensures AddressAt(s, p, value / 2, value % 2 == 1)
  {
    var eight := LevelsAt(s, p, 8);
    assert eight[..7] == LevelsAt(s, p, 7);
    assert FromBits(eight) == 2 * FromBits(eight[..7]) + BitValue(eight[7]);
  }

  /** What was recorded at a place stays there. */
  lemma OctetStays(s: seq<Symbol>, t: seq<Symbol>, p: nat, value: nat, ninth: bool)
    requires OctetAt(s, p, value, ninth) && s <= t
    ensures OctetAt(t, p, value, ninth)
  {
    assert LevelsAt(t, p, 8) == LevelsAt(s, p, 8);
  }

  lemma AddressStays(s: seq<Symbol>, t: seq<Symbol>, p: nat, addr: nat, read: bool)
    requires AddressAt(s, p, addr, read) && s <= t
    ensures AddressAt(t, p, addr, read)
  {
    assert LevelsAt(t, p, 7) == LevelsAt(s, p, 7);
  }

  /** A run of octets with these values, the master's bytes: SDA is released after each. */
  predicate SentAt(s: seq<Symbol>, p: nat, data: seq<Byte>) {
    p + 9 * |data| <= |s| && forall k :: 0 <= k < |data| ==> OctetAt(s, p + 9 * k, data[k], true)
  }

  /** SDA is released for n bits. */
  predicate ReleasedAt(s: seq<Symbol>, p: nat, n: nat) {
    p + n <= |s| && forall i :: p <= i < p + n ==> s[i] == Bit(true)
  }

  /** One octet that the other side sends, and the master's answer to it, which may be left out. */
  predicate TakenAt(s: seq<Symbol>, p: nat, answer: Option<bool>) {
    ReleasedAt(s, p, 8) && (answer.Some? ==> p + 8 < |s| && s[p + 8] == Bit(answer.value))
  }

  function Stride(answered: bool): nat {
    if answered then 9 else 8
  }

  /** n octets from the other side, each but the last answered with an ACK, or none answered at all. */
  predicate ReceivedAt(s: seq<Symbol>, p: nat, n: nat, answered: bool) {
    && p + Stride(answered) * n <= |s|
    && forall k :: 0 <= k < n ==> TakenAt(s, p + Stride(answered) * k, if answered then Some(k == n - 1) else None)
  }

  lemma SentStep(s: seq<Symbol>, p: nat, data: seq<Byte>, b: Byte)
    requires SentAt(s, p, data) && |s| == p + 9 * |data|
    ensures SentAt(s + SentByte(b), p, data + [b])
  {
    hide OctetAt, SentByte;
    var t, all := s + SentByte(b), data + [b];
    SentIsOctet(s, b, []);
    assert s + SentByte(b) + [] == t;
    forall k | 0 <= k < |all|
      ensures OctetAt(t, p + 9 * k, all[k], true)
    {
      if k < |data| {
        OctetStays(s, t, p + 9 * k, data[k], true);
      }
    }
  }

  lemma {:induction false} SentBytesAt(before: seq<Symbol>, data: seq<Byte>)
    ensures SentAt(before + SentBytes(data), |before|, data)
    ensures |SentBytes(data)| == 9 * |data|
  {
    if data != [] {
      hide SentAt, SentByte;
      var n := |data| - 1;
      SentBytesAt(before, data[..n]);
      SentStep(before + SentBytes(data[..n]), |before|, data[..n], data[n]);
      assert before + SentBytes(data[..n]) + SentByte(data[n]) == before + SentBytes(data);
      assert data[..n] + [data[n]] == data;
    }
  }

  lemma SentStays(s: seq<Symbol>, t: seq<Symbol>, p: nat, data: seq<Byte>)
    requires SentAt(s, p, data) && s <= t
    ensures SentAt(t, p, data)
  {
    hide OctetAt;
    forall k | 0 <= k < |data|
      ensures OctetAt(t, p + 9 * k, data[k], true)
    {
      OctetStays(s, t, p + 9 * k, data[k], true);
    }
  }

  lemma ReceivedStays(s: seq<Symbol>, t: seq<Symbol>, p: nat, n: nat, answered: bool)
    requires ReceivedAt(s, p, n, answered) && s <= t
    ensures ReceivedAt(t, p, n, answered)
  {
  }

  lemma {:induction false} ReceivedBytesAt(before: seq<Symbol>, done: nat, n: nat)
    ensures var t := before + ReceivedBytes(done, n);
            && |t| == |before| + 9 * done
            && forall k :: 0 <= k < done ==> TakenAt(t, |before| + 9 * k, Some(k + 1 == n))
    decreases done
  {
    if done > 0 {
      hide ReceivedByte;
      ReceivedBytesAt(before, done - 1, n);
      var s, t := before + ReceivedBytes(done - 1, n), before + ReceivedBytes(done, n);
      assert t == s + ReceivedByte(done == n);
      TakenNow(s, done == n);
    }
  }

  lemma TakenNow(s: seq<Symbol>, last: bool)
    ensures TakenAt(s + ReceivedByte(last), |s|, Some(last))
  {
  }
}
