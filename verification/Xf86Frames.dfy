/**
 * What transfers of GeForceSensors/xf86i2c.cpp put on the wire: as a sequence
 * of symbols and as it reads from a recording, and the conditions that the
 * failed ones may leave.
 */
module Xf86Frames {
  import opened Bytes
  import opened Octets
  import opened RegisterSlave
  import opened Wire

  /** The address needs a second byte: 11-bit or general call format. */
  predicate Extended(addr: nat) {
    0xF0 <= addr % 256 <= 0xF7 || addr % 256 <= 1
  }

  /** The address bytes after a START. */
  function AddressBytes(addr: nat): (s: seq<Symbol>)
  {
    SentByte(addr % 256) + if Extended(addr) then SentByte(addr / 256 % 256) else []
  }

  lemma AddressSteps(before: seq<Symbol>, addr: nat)
    ensures !Extended(addr) ==> before + SentByte(addr % 256) == before + AddressBytes(addr)
    ensures Extended(addr) ==> before + SentByte(addr % 256) + SentByte(addr / 256 % 256) == before + AddressBytes(addr)
  {
  }

  function WriteAddress(addr: nat): nat { addr - addr % 2 }

  function ReadAddress(addr: nat): nat { addr - addr % 2 + 1 }

  /** The R/W bit does not change which device is addressed or how. */
  lemma DirectionBit(addr: nat)
    ensures WriteAddress(addr) % 256 / 2 == addr % 256 / 2 == ReadAddress(addr) % 256 / 2
    ensures WriteAddress(addr) % 256 % 2 == 0 && ReadAddress(addr) % 256 % 2 == 1
    ensures Extended(WriteAddress(addr)) == Extended(addr) == Extended(ReadAddress(addr))
  {
    var h, l := addr / 256, addr % 256;
    assert addr == 256 * h + l && addr % 2 == l % 2;
    LowByte(h, l - l % 2);
    LowByte(h, l - l % 2 + 1);
  }

  lemma LowByte(h: nat, l: Byte)
    ensures (256 * h + l) % 256 == l
  {
  }

  /** A whole transfer that writes bs and then reads n bytes, after what was on the wire before. */
  function Frame(before: seq<Symbol>, addr: nat, bs: seq<Byte>, n: nat): seq<Symbol> {
    if bs == [] && n == 0 then before else ReadFrame(WriteFrame(before, addr, bs), addr, n) + [Symbol.Stop]
  }

  function WriteFrame(before: seq<Symbol>, addr: nat, bs: seq<Byte>): seq<Symbol> {
    if bs == [] then before else before + [Symbol.Start] + AddressBytes(WriteAddress(addr)) + SentBytes(bs)
  }

  function ReadFrame(before: seq<Symbol>, addr: nat, n: nat): seq<Symbol> {
    if n == 0 then before else before + [Symbol.Start] + AddressBytes(ReadAddress(addr)) + ReceivedBytes(n, n)
  }

  lemma EmptyFrame(before: seq<Symbol>, addr: nat)
    ensures ReadFrame(WriteFrame(before, addr, []), addr, 0) == before
  {
  }

  /** The conditions a failed message may add: none, or one START and one STOP. */
  predicate FailedMessage(before: seq<Symbol>, after: seq<Symbol>) {
    after == before || after == before + [Symbol.Start, Symbol.Stop]
  }

  /** With a second message they may also be these: the last case is a doubly stopped transfer. */
  predicate FailedTransfer(before: seq<Symbol>, after: seq<Symbol>) {
    || FailedMessage(before, after)
    || after == before + [Symbol.Start, Symbol.Start, Symbol.Stop]
    || after == before + [Symbol.Start, Symbol.Start, Symbol.Stop, Symbol.Stop]
  }

  /** It ended with two STOPs. */
  predicate DoublyStopped(before: seq<Symbol>, after: seq<Symbol>) {
    |after| >= |before| + 2 && after[|after| - 2..] == [Symbol.Stop, Symbol.Stop]
  }

  lemma FailedMessageStopsOnce(before: seq<Symbol>, after: seq<Symbol>)
    requires FailedMessage(before, after)
    ensures !DoublyStopped(before, after)
  {
    if after != before {
      assert after[|after| - 2] == Symbol.Start;
    }
  }

  lemma WholeStopsOnce(before: seq<Symbol>, n: nat)
    ensures !DoublyStopped(before, before)
    ensures n > 0 ==> !DoublyStopped(before, before + Starts(n) + [Symbol.Stop])
  {
    if n > 0 {
      var after := before + Starts(n) + [Symbol.Stop];
      assert after[|after| - 2] == Symbol.Start;
    }
  }

  /** One repeated START and one write message for each pair. */
  function VecFrame(before: seq<Symbol>, addr: nat, vec: seq<(Byte, Byte)>): seq<Symbol> {
    if vec == [] then before
    else
      var (sub, value) := vec[|vec| - 1];
      WriteFrame(VecFrame(before, addr, vec[..|vec| - 1]), addr, [sub, value])
  }

  lemma VecFrameStep(before: seq<Symbol>, addr: nat, vec: seq<(Byte, Byte)>, i: nat)
    requires i < |vec|
    ensures WriteFrame(VecFrame(before, addr, vec[..i]), addr, [vec[i].0, vec[i].1]) == VecFrame(before, addr, vec[..i + 1])
  {
    assert vec[..i + 1][..i] == vec[..i];
  }

  lemma NoRounds(before: seq<Symbol>, addr: nat, s: Slave)
    requires |s.regs| == 256
    ensures VecFrame(before, addr, []) == before && VecWritten(s, []) == s
  {
  }

  /** The conditions a vector write that failed may add: two STOPs only from the second pair on. */
  ghost predicate FailedVec(n: nat, before: seq<Symbol>, after: seq<Symbol>) {
    || after == before
    || exists j :: 1 <= j <= n && (|| after == before + Starts(j) + [Symbol.Stop]
                                   || (j >= 2 && after == before + Starts(j) + [Symbol.Stop, Symbol.Stop]))
  }

  /** A vector of at most one pair fails like a single message. */
  lemma ShortVecFails(n: nat, before: seq<Symbol>, after: seq<Symbol>)
    requires n <= 1
    ensures FailedVec(n, before, after) ==> FailedMessage(before, after)
  {
    assert Starts(1) == [Symbol.Start];
    assert before + Starts(1) + [Symbol.Stop] == before + [Symbol.Start, Symbol.Stop];
  }

  /** What a failed round of a vector write and the closing STOP leave. */
  lemma FailedRound(i: nat, n: nat, before: seq<Symbol>, mid: seq<Symbol>, began: bool)
    requires i < n
    requires if began then mid == before + Starts(i) + [Symbol.Start]
             else mid == before + Starts(i) || mid == before + Starts(i) + [Symbol.Start, Symbol.Stop]
    ensures i > 0 || began ==> FailedVec(n, before, mid + [Symbol.Stop])
    ensures i == 0 && !began ==> FailedVec(n, before, mid)
  {
    StartsStep(before, i);
    if began {
      assert mid + [Symbol.Stop] == before + Starts(i + 1) + [Symbol.Stop];
    } else if mid == before + Starts(i) {
      assert i > 0 ==> mid + [Symbol.Stop] == before + Starts(i) + [Symbol.Stop];
    } else {
      assert mid == before + Starts(i + 1) + [Symbol.Stop];
      assert mid + [Symbol.Stop] == before + Starts(i + 1) + [Symbol.Stop, Symbol.Stop];
    }
  }

  /** One half of xf86I2CWriteRead: left out, standing with one START, or refused. */
  predicate Half(before: seq<Symbol>, after: seq<Symbol>, none: bool, ok: bool, starts: nat) {
    if none then after == before && ok && starts == 0
    else if starts == 0 then FailedMessage(before, after) && !ok
    else starts == 1 && after == before + [Symbol.Start]
  }

  /** What the two halves and the closing STOP add up to. */
  lemma Closed(before: seq<Symbol>, mid: seq<Symbol>, last: seq<Symbol>, after: seq<Symbol>,
               noWrite: bool, noRead: bool, wrote: bool, starts: nat, ok: bool, more: nat)
    requires Half(before, mid, noWrite, wrote, starts)
    requires if wrote then Half(mid, last, noRead, ok, more) else last == mid && !ok && more == 0
    requires after == if starts + more > 0 then last + [Symbol.Stop] else last
    ensures ok ==> !DoublyStopped(before, after)
    ensures !ok ==> if noWrite || noRead then FailedMessage(before, after) else FailedTransfer(before, after)
    ensures DoublyStopped(before, after) <==> wrote && starts == 1 && last == mid + [Symbol.Start, Symbol.Stop]
  {
    if starts + more == 0 {
      FailedMessageStopsOnce(before, after);
    } else if wrote && last == mid + [Symbol.Start, Symbol.Stop] {
      assert after[|after| - 2..] == [Symbol.Stop, Symbol.Stop];
    } else {
      assert after[|after| - 2] == Symbol.Start;
    }
  }

  /** The same for a vector write whose loop ended in round i. */
  lemma VecClosed(before: seq<Symbol>, mid: seq<Symbol>, after: seq<Symbol>, n: nat, i: nat, began: nat, ok: bool)
    requires if ok then i == began == n && mid == before + Starts(n)
             else i < n && if began == i + 1 then mid == before + Starts(i) + [Symbol.Start]
                           else began == i && FailedMessage(before + Starts(i), mid)
    requires after == if began > 0 then mid + [Symbol.Stop] else mid
    ensures ok ==> !DoublyStopped(before, after)
    ensures !ok ==> FailedVec(n, before, after) && (n <= 1 ==> FailedMessage(before, after))
    ensures DoublyStopped(before, after) <==>
              !ok && began == i > 0 && mid == before + Starts(i) + [Symbol.Start, Symbol.Stop]
  {
    if ok {
      WholeStopsOnce(before, n);
      assert n == 0 ==> after == before;
    } else {
      StartsStep(before, 0);
      FailedRound(i, n, before, mid, began == i + 1);
      if n <= 1 {
        ShortVecFails(n, before, after);
      }
      if began == 0 {
        FailedMessageStopsOnce(before, after);
      } else if mid == before + Starts(i) + [Symbol.Start, Symbol.Stop] {
        assert after[|after| - 2..] == [Symbol.Stop, Symbol.Stop];
      } else {
        assert after[|after| - 2] == Symbol.Start;
      }
    }
  }

  /** Read off the wire from p on: START and address, with a second octet for the extended formats. */
  predicate HeaderAt(s: seq<Symbol>, p: nat, addr: nat, read: bool) {
    && p < |s| && s[p] == Symbol.Start && AddressAt(s, p + 1, addr % 256 / 2, read)
    && (Extended(addr) ==> OctetAt(s, p + 10, addr / 256 % 256, true))
  }

  function HeaderSize(addr: nat): nat {
    if Extended(addr) then 19 else 10
  }

  function WriteSize(addr: nat, n: nat): nat {
    if n == 0 then 0 else HeaderSize(addr) + 9 * n
  }

  /** Read off the wire from p on: a message that writes bs, and one that reads n bytes; either may be left out. */
  predicate FrameAt(s: seq<Symbol>, p: nat, addr: nat, bs: seq<Byte>, n: nat) {
    var q := p + WriteSize(addr, |bs|);
    && (bs != [] ==> HeaderAt(s, p, addr, false) && SentAt(s, p + HeaderSize(addr), bs))
    && (n > 0 ==> HeaderAt(s, q, addr, true) && ReceivedAt(s, q + HeaderSize(addr), n, true))
    && (bs != [] || n > 0 ==> q + WriteSize(addr, n) < |s| && s[q + WriteSize(addr, n)] == Symbol.Stop)
  }

  lemma ExtendedIs(addr: nat)
    ensures Extended(addr) == (addr % 256 / 8 == 30 || addr % 256 / 2 == 0)
  {
  }

  lemma HeaderReads(before: seq<Symbol>, addr: nat, read: bool)
    requires addr % 256 % 2 == (if read then 1 else 0)
    ensures var s := before + [Symbol.Start] + AddressBytes(addr);
            before <= s && |s| == |before| + HeaderSize(addr) && HeaderAt(s, |before|, addr, read)
  {
    hide SentByte, OctetAt, AddressAt;
    var start, b := before + [Symbol.Start], addr % 256;
    var first, second := start + SentByte(b), addr / 256 % 256;
    ExtendedIs(addr);
    assert first == start + SentByte(b) + [];
    SentIsOctet(start, b, []);
    OctetIsAddress(first, |start|, b);
    if Extended(addr) {
      var s := first + SentByte(second);
      assert s == first + SentByte(second) + [];
      SentIsOctet(first, second, []);
      AddressStays(first, s, |start|, b / 2, read);
      assert start + AddressBytes(addr) == s;
    } else {
      assert start + AddressBytes(addr) == first;
    }
  }

  lemma HeaderStays(s: seq<Symbol>, t: seq<Symbol>, p: nat, addr: nat, read: bool)
    requires HeaderAt(s, p, addr, read) && s <= t
    ensures HeaderAt(t, p, addr, read)
  {
    AddressStays(s, t, p + 1, addr % 256 / 2, read);
    if Extended(addr) {
      OctetStays(s, t, p + 10, addr / 256 % 256, true);
    }
  }

  lemma SameDevice(addr: nat)
    ensures HeaderSize(WriteAddress(addr)) == HeaderSize(addr) == HeaderSize(ReadAddress(addr))
    ensures WriteAddress(addr) / 256 == addr / 256 == ReadAddress(addr) / 256
  {
    DirectionBit(addr);
  }

  lemma WriteReads(before: seq<Symbol>, addr: nat, bs: seq<Byte>)
    requires bs != []
    ensures var s := WriteFrame(before, addr, bs);
            && before <= s && |s| == |before| + WriteSize(addr, |bs|)
            && HeaderAt(s, |before|, addr, false) && SentAt(s, |before| + HeaderSize(addr), bs)
  {
    hide HeaderAt, SentAt, AddressBytes, HeaderSize;
    var header := before + [Symbol.Start] + AddressBytes(WriteAddress(addr));
    DirectionBit(addr);
    SameDevice(addr);
    HeaderReads(before, WriteAddress(addr), false);
    SentBytesAt(header, bs);
    HeaderStays(header, header + SentBytes(bs), |before|, WriteAddress(addr), false);
    SameHeader(header + SentBytes(bs), |before|, WriteAddress(addr), addr, false);
  }

  lemma SameHeader(s: seq<Symbol>, p: nat, a: nat, b: nat, read: bool)
    requires HeaderAt(s, p, a, read) && a % 256 / 2 == b % 256 / 2 && a / 256 == b / 256
    ensures HeaderAt(s, p, b, read)
  {
  }

  lemma ReadReads(before: seq<Symbol>, addr: nat, n: nat)
    requires n > 0
    ensures var s := ReadFrame(before, addr, n);
            && before <= s && |s| == |before| + WriteSize(addr, n)
            && HeaderAt(s, |before|, addr, true) && ReceivedAt(s, |before| + HeaderSize(addr), n, true)
  {
    hide HeaderAt, AddressBytes, HeaderSize, TakenAt;
    var header := before + [Symbol.Start] + AddressBytes(ReadAddress(addr));
    DirectionBit(addr);
    SameDevice(addr);
    HeaderReads(before, ReadAddress(addr), true);
    ReceivedBytesAt(header, n, n);
    HeaderStays(header, header + ReceivedBytes(n, n), |before|, ReadAddress(addr), true);
    SameHeader(header + ReceivedBytes(n, n), |before|, ReadAddress(addr), addr, true);
  }

  /** The symbols of a transfer read as that transfer. */
  lemma FrameReads(before: seq<Symbol>, addr: nat, bs: seq<Byte>, n: nat)
    ensures var s := Frame(before, addr, bs, n);
            before <= s && FrameAt(s, |before|, addr, bs, n)
    ensures bs != [] || n > 0 ==>
              |Frame(before, addr, bs, n)| == |before| + WriteSize(addr, |bs|) + WriteSize(addr, n) + 1
  {
    hide HeaderAt, SentAt, ReceivedAt, HeaderSize;
    var written := WriteFrame(before, addr, bs);
    var read := ReadFrame(written, addr, n);
    var s := read + [Symbol.Stop];
    if bs != [] {
      WriteReads(before, addr, bs);
    }
    if n > 0 {
      ReadReads(written, addr, n);
      HeaderStays(read, s, |written|, addr, true);
      ReceivedStays(read, s, |written| + HeaderSize(addr), n, true);
    }
    if bs != [] {
      HeaderStays(written, s, |before|, addr, false);
      SentStays(written, s, |before| + HeaderSize(addr), bs);
    }
  }
}
