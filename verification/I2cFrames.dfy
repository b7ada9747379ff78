/**
 * What transfers of GeForceSensors/i2c_algo_bit.cpp put on the wire: as a
 * sequence of symbols, and as it reads from a recording.
 */
module I2cFrames {
  import opened Bytes
  import opened BitOrder
  import opened Octets
  import opened Wire

  const ETIMEDOUT: int := 110
  const EIO: int := 5
  const ENXIO: int := 6
  const EPROTO: int := 71

  const I2C_SMBUS_BLOCK_MAX: nat := 32

  datatype Flags = Flags(ten: bool, read: bool, noStart: bool, revDirAddr: bool, ignoreNak: bool, noRdAck: bool, recvLen: bool)

  /** STARTs, each of them possibly after a STOP: what addressing and its retries put on the wire. */
  predicate Restarts(cs: seq<Symbol>)
  {
    cs == []
    || (cs[0] == Symbol.Start && Restarts(cs[1..]))
    || (|cs| >= 2 && cs[0] == Symbol.Stop && cs[1] == Symbol.Start && Restarts(cs[2..]))
  }

  lemma {:induction false} RestartsAppend(a: seq<Symbol>, b: seq<Symbol>)
    requires Restarts(a) && Restarts(b)
    ensures Restarts(a + b)
    decreases |a|
  {
    if a == [] {
      assert a + b == b;
    } else if a[0] == Symbol.Start {
      assert (a + b)[1..] == a[1..] + b;
      RestartsAppend(a[1..], b);
    } else {
      assert (a + b)[2..] == a[2..] + b;
      RestartsAppend(a[2..], b);
    }
  }

  /** Only restarts were added. */
  ghost predicate Restarted(before: seq<Symbol>, after: seq<Symbol>) {
    before <= after && Restarts(after[|before|..])
  }

  lemma RestartedTrans(a: seq<Symbol>, b: seq<Symbol>, c: seq<Symbol>)
    requires Restarted(a, b) && Restarted(b, c)
    ensures Restarted(a, c)
  {
    RestartsAppend(b[|a|..], c[|b|..]);
    assert c[|a|..] == b[|a|..] + c[|b|..];
  }

  lemma RestartedOnce(a: seq<Symbol>, b: seq<Symbol>)
    ensures Restarted(a, b) ==> Restarted(a, b + [Symbol.Start])
  {
    if Restarted(a, b) {
      assert (b + [Symbol.Start])[|b|..] == [Symbol.Start];
      RestartedTrans(a, b, b + [Symbol.Start]);
    }
  }

  lemma RestartedRound(a: seq<Symbol>, b: seq<Symbol>)
    ensures Restarted(a, a)
    ensures Restarted(a, b) ==> Restarted(a, b + [Symbol.Stop] + [Symbol.Start])
  {
    if Restarted(a, b) {
      var c := b + [Symbol.Stop] + [Symbol.Start];
      assert c[|b|..] == [Symbol.Stop, Symbol.Start];
      RestartedTrans(a, b, c);
    }
  }

  /** n received bytes out of `total`: each but the last of all is acknowledged, or none is answered at all. */
  function ReadFrame(before: seq<Symbol>, n: nat, total: nat, noRdAck: bool): seq<Symbol> {
    if n == 0 then before
    else ReadFrame(before, n - 1, total, noRdAck) + Released(8) + if noRdAck then [] else [Bit(n == total)]
  }

  /** An address byte, refused `refused` times and each time repeated after a STOP and a new START. */
  function Attempts(before: seq<Symbol>, addr: Byte, refused: nat): seq<Symbol> {
    if refused == 0 then before + SentByte(addr)
    else Attempts(before, addr, refused - 1) + [Symbol.Stop, Symbol.Start] + SentByte(addr)
  }

  lemma AttemptsStep(before: seq<Symbol>, addr: Byte, refused: nat)
    ensures Attempts(before, addr, 0) == before + SentByte(addr)
    ensures Attempts(before, addr, refused + 1) == Attempts(before, addr, refused) + [Symbol.Stop, Symbol.Start] + SentByte(addr)
  {
  }

  function SevenBitByte(addr: nat, flags: Flags): Byte {
    addr * 2 % 256 + if flags.read == flags.revDirAddr then 0 else 1
  }

  /** 11110, the two highest bits of a ten-bit address, and a zero. */
  function TenBitByte(addr: nat): (b: Byte)
    ensures b < 255
  {
    0xf0 + 2 * (addr / 256 % 4)
  }

  /** UM10204 sections 3.1.10 and 3.1.11: a ten-bit read repeats the first byte after a repeated START. */
  function Addressed(before: seq<Symbol>, addr: nat, flags: Flags, first: nat, second: nat): seq<Symbol> {
    if flags.ten then
      var both := Attempts(before, TenBitByte(addr), first) + SentByte(addr % 256);
      if flags.read then Attempts(both + [Symbol.Start], TenBitByte(addr) + 1, second) else both
    else
      Attempts(before, SevenBitByte(addr, flags), first)
  }

  /** Read off the wire from p on: an address octet and its repetitions, each after a STOP and a START. */
  predicate TriedAt(s: seq<Symbol>, p: nat, addr: nat, read: bool, refused: nat) {
    && p + 11 * refused + 9 <= |s|
    && (forall j :: 0 <= j <= refused ==> AddressAt(s, p + 11 * j, addr, read))
    && forall j :: 0 <= j < refused ==> RestartAt(s, p + 11 * j + 9)
  }

  predicate RestartAt(s: seq<Symbol>, p: nat) {
    p + 1 < |s| && s[p] == Symbol.Stop && s[p + 1] == Symbol.Start
  }

  /** The address octets of a message: 11110 and two bits of a ten-bit address make 120 and more. */
  predicate AddressedAt(s: seq<Symbol>, p: nat, addr: nat, flags: Flags, first: nat, second: nat) {
    if flags.ten then
      var high, q := 120 + addr / 256 % 4, p + 11 * first + 9;
      && TriedAt(s, p, high, false, first) && OctetAt(s, q, addr % 256, true)
      && (flags.read ==> q + 9 < |s| && s[q + 9] == Symbol.Start && TriedAt(s, q + 10, high, true, second))
    else
      TriedAt(s, p, addr % 128, flags.read != flags.revDirAddr, first)
  }

  function AddressSize(flags: Flags, first: nat, second: nat): nat {
    11 * first + 9 + (if flags.ten then 9 else 0) + if flags.ten && flags.read then 11 * second + 10 else 0
  }

  /** Addressing from p on was given up: after all retries of an octet, or at the second octet of a ten-bit address. */
  predicate GivenUpAt(s: seq<Symbol>, p: nat, addr: nat, flags: Flags, retries: nat, first: nat, ret: int) {
    var high, q, tried := 120 + addr / 256 % 4, p + 11 * first + 9, 11 * retries + 9;
    if !flags.ten then
      ret == -ENXIO && |s| == p + tried && TriedAt(s, p, addr % 128, flags.read != flags.revDirAddr, retries)
    else
      || (ret == -ENXIO && |s| == p + tried && TriedAt(s, p, high, false, retries))
      || (ret == -ENXIO && |s| == q + 9 && TriedAt(s, p, high, false, first) && OctetAt(s, q, addr % 256, true))
      || (&& ret == -EIO && flags.read && |s| == q + 10 + tried
          && TriedAt(s, p, high, false, first) && OctetAt(s, q, addr % 256, true)
          && s[q + 9] == Symbol.Start && TriedAt(s, q + 10, high, true, retries))
  }

  /** The data of a received message; the first byte of a block counts the bytes beyond those asked for. */
  predicate Received(flags: Flags, asked: nat, data: seq<Byte>) {
    if asked > 0 && flags.recvLen then
      |data| > 0 && 1 <= data[0] <= 32 && |data| == asked + data[0]
    else
      |data| == asked
  }

  /** After `bytes` of a message, `count` are still to come and the message is `len` long. */
  predicate Reading(flags: Flags, asked: nat, bytes: seq<Byte>, count: nat, len: nat) {
    if bytes == [] then
      count == asked == len < 0x10000
    else
      && asked > 0 && len == (|bytes| + count) % 0x10000
      && (if flags.recvLen
          then 1 <= bytes[0] <= 32 && |bytes| + count == asked + bytes[0]
          else |bytes| + count == asked)
  }

  /** A message that went through: its data, and how often its address bytes were refused. */
  datatype Moved = Moved(addr: nat, flags: Flags, data: seq<Byte>, first: nat, second: nat)

  /** The whole of a message went through and nothing else of it changed. */
  predicate Whole(flags: Flags, asked: nat, was: seq<Byte>, len: nat, buf: seq<Byte>, data: seq<Byte>) {
    && |data| <= |buf| == |was|
    && (if flags.read then Received(flags, asked, data) else |data| == asked && buf == was)
    && len == |data| % 0x10000 && data == buf[..|data|] && buf[|data|..] == was[|data|..]
  }

  function AddressPart(before: seq<Symbol>, m: Moved, first: bool): seq<Symbol> {
    if m.flags.noStart then before
    else Addressed(if first then before else before + [Symbol.Start], m.addr, m.flags, m.first, m.second)
  }

  function DataPart(before: seq<Symbol>, flags: Flags, data: seq<Byte>): seq<Symbol> {
    if flags.read then ReadFrame(before, |data|, |data|, flags.noRdAck) else before + SentBytes(data)
  }

  function Carried(before: seq<Symbol>, m: Moved, first: bool): seq<Symbol> {
    DataPart(AddressPart(before, m, first), m.flags, m.data)
  }

  function Transfer(before: seq<Symbol>, ms: seq<Moved>): seq<Symbol> {
    if ms == [] then before else Carried(Transfer(before, ms[..|ms| - 1]), ms[|ms| - 1], |ms| == 1)
  }

  /** The levels that received bytes come as. */
  function Levels(before: seq<bool>, bs: seq<Byte>): seq<bool> {
    if bs == [] then before else Levels(before, bs[..|bs| - 1]) + ToBits(bs[|bs| - 1], 8)
  }

  function HeardIn(before: seq<bool>, flags: Flags, data: seq<Byte>): seq<bool> {
    if flags.read then Levels(before, data) else before
  }

  function HeardInAll(before: seq<bool>, ms: seq<Moved>): seq<bool> {
    if ms == [] then before
    else
      var m := ms[|ms| - 1];
      HeardIn(HeardInAll(before, ms[..|ms| - 1]), m.flags, m.data)
  }

  lemma NothingRead(before: seq<Symbol>, heard: seq<bool>, total: nat, noRdAck: bool)
    ensures ReadFrame(before, 0, total, noRdAck) == before && Levels(heard, []) == heard
  {
  }

  /** One more byte read; the first one may still change the total. */
  lemma ReadStep(before: seq<Symbol>, got: nat, expected: nat, total: nat, noRdAck: bool)
    requires got == 0 || total == expected
    ensures ReadFrame(before, got, expected, noRdAck) + Released(8) + (if noRdAck then [] else [Bit(got + 1 == total)])
            == ReadFrame(before, got + 1, total, noRdAck)
  {
  }

  lemma ReadingStarts(flags: Flags, len: nat)
    requires len < 0x10000
    ensures Reading(flags, len, [], len, len)
  {
  }

  lemma ReadingBound(flags: Flags, asked: nat, bytes: seq<Byte>, count: nat, len: nat)
    requires Reading(flags, asked, bytes, count, len)
    ensures |bytes| + count <= asked + (if flags.recvLen then 32 else 0) && len < 0x10000
    ensures bytes == [] ==> count == asked == len
  {
  }

  /** After the first byte the total stays. */
  lemma SameTotal(flags: Flags, asked: nat, was: seq<Byte>, count: nat, len: nat, bytes: seq<Byte>, left: nat, newLen: nat)
    requires Reading(flags, asked, was, count, len) && Reading(flags, asked, bytes, left, newLen)
    requires was == [] || (|bytes| > 0 && bytes[0] == was[0])
    ensures was == [] || |was| + count == |bytes| + left
  {
  }

  lemma ReadingDone(flags: Flags, asked: nat, bytes: seq<Byte>, len: nat)
    requires Reading(flags, asked, bytes, 0, len)
    ensures Received(flags, asked, bytes) && len == |bytes| % 0x10000
  {
  }

  lemma LevelsStep(before: seq<bool>, bs: seq<Byte>, b: Byte)
    ensures Levels(before, bs) + ToBits(b, 8) == Levels(before, bs + [b])
  {
    assert (bs + [b])[..|bs|] == bs;
  }

  /** Read off the wire from p on: the octets of a message's data. */
  predicate DataAt(s: seq<Symbol>, p: nat, flags: Flags, data: seq<Byte>) {
    if flags.read then ReceivedAt(s, p, |data|, !flags.noRdAck) else SentAt(s, p, data)
  }

  function DataSize(flags: Flags, n: nat): nat {
    (if flags.read then Stride(!flags.noRdAck) else 9) * n
  }

  /** Read off the wire from p on: a whole message; the START of the first one comes before it. */
  predicate MessageAt(s: seq<Symbol>, p: nat, m: Moved, first: bool) {
    var q := if m.flags.noStart || first then p else p + 1;
    && (q > p ==> p < |s| && s[p] == Symbol.Start)
    && if m.flags.noStart then DataAt(s, q, m.flags, m.data)
       else
         && AddressedAt(s, q, m.addr, m.flags, m.first, m.second)
         && DataAt(s, q + AddressSize(m.flags, m.first, m.second), m.flags, m.data)
  }

  function MessageSize(m: Moved, first: bool): nat {
    DataSize(m.flags, |m.data|)
    + if m.flags.noStart then 0 else (if first then 0 else 1) + AddressSize(m.flags, m.first, m.second)
  }

  /** Where message n begins, and where the last one ends. */
  function Begins(from: nat, ms: seq<Moved>, n: nat): nat
    requires n <= |ms|
  {
    if n == 0 then from else Begins(from, ms, n - 1) + MessageSize(ms[n - 1], n == 1)
  }

  /** Read off the wire from p on: the first n messages, one behind the other. */
  predicate MessagesAt(s: seq<Symbol>, from: nat, ms: seq<Moved>, n: nat) {
    n <= |ms| && forall i :: 0 <= i < n ==> MessageAt(s, Begins(from, ms, i), ms[i], i == 0)
  }

  lemma TriedStays(s: seq<Symbol>, t: seq<Symbol>, p: nat, addr: nat, read: bool, refused: nat)
    requires TriedAt(s, p, addr, read, refused) && s <= t
    ensures TriedAt(t, p, addr, read, refused)
  {
    hide AddressAt;
    forall j | 0 <= j <= refused
      ensures AddressAt(t, p + 11 * j, addr, read)
    {
      AddressStays(s, t, p + 11 * j, addr, read);
    }
    assert forall j :: 0 <= j < refused ==> RestartAt(s, p + 11 * j + 9);
  }

  lemma AddressedStays(s: seq<Symbol>, t: seq<Symbol>, p: nat, addr: nat, flags: Flags, first: nat, second: nat)
    requires AddressedAt(s, p, addr, flags, first, second) && s <= t
    ensures AddressedAt(t, p, addr, flags, first, second)
  {
    hide TriedAt, OctetAt;
    if flags.ten {
      var high, q := 120 + addr / 256 % 4, p + 11 * first + 9;
      TriedStays(s, t, p, high, false, first);
      OctetStays(s, t, q, addr % 256, true);
      if flags.read {
        TriedStays(s, t, q + 10, high, true, second);
      }
    } else {
      TriedStays(s, t, p, addr % 128, flags.read != flags.revDirAddr, first);
    }
  }

  lemma DataStays(s: seq<Symbol>, t: seq<Symbol>, p: nat, flags: Flags, data: seq<Byte>)
    requires DataAt(s, p, flags, data) && s <= t
    ensures DataAt(t, p, flags, data)
  {
    if flags.read {
      ReceivedStays(s, t, p, |data|, !flags.noRdAck);
    } else {
      SentStays(s, t, p, data);
    }
  }

  lemma MessageStays(s: seq<Symbol>, t: seq<Symbol>, p: nat, m: Moved, first: bool)
    requires MessageAt(s, p, m, first) && s <= t
    ensures MessageAt(t, p, m, first)
  {
    hide AddressedAt, DataAt;
    var q := if m.flags.noStart || first then p else p + 1;
    if m.flags.noStart {
      DataStays(s, t, q, m.flags, m.data);
    } else {
      AddressedStays(s, t, q, m.addr, m.flags, m.first, m.second);
      DataStays(s, t, q + AddressSize(m.flags, m.first, m.second), m.flags, m.data);
    }
  }

  lemma MessagesStay(s: seq<Symbol>, t: seq<Symbol>, from: nat, ms: seq<Moved>, n: nat)
    requires MessagesAt(s, from, ms, n) && s <= t
    ensures MessagesAt(t, from, ms, n)
  {
    hide MessageAt, Begins;
    forall i | 0 <= i < n
      ensures MessageAt(t, Begins(from, ms, i), ms[i], i == 0)
    {
      MessageStays(s, t, Begins(from, ms, i), ms[i], i == 0);
    }
  }

  lemma SentIsAddress(before: seq<Symbol>, b: Byte)
    ensures AddressAt(before + SentByte(b), |before|, b / 2, b % 2 == 1)
  {
    hide SentByte, OctetAt, AddressAt;
    assert before + SentByte(b) + [] == before + SentByte(b);
    SentIsOctet(before, b, []);
    OctetIsAddress(before + SentByte(b), |before|, b);
  }

  lemma TriedAgain(s: seq<Symbol>, p: nat, b: Byte, refused: nat)
    requires TriedAt(s, p, b / 2, b % 2 == 1, refused) && |s| == p + 11 * refused + 9
    ensures TriedAt(s + [Symbol.Stop, Symbol.Start] + SentByte(b), p, b / 2, b % 2 == 1, refused + 1)
  {
    hide AddressAt, SentByte;
    var again := s + [Symbol.Stop, Symbol.Start];
    var t := again + SentByte(b);
    TriedStays(s, t, p, b / 2, b % 2 == 1, refused);
    SentIsAddress(again, b);
    assert t[|s|] == Symbol.Stop && t[|s| + 1] == Symbol.Start;
    assert RestartAt(t, p + 11 * refused + 9);
  }

  /** Attempts at an address byte read as such. */
  lemma {:induction false} AttemptsAt(before: seq<Symbol>, b: Byte, refused: nat)
    ensures var s := Attempts(before, b, refused);
            && before <= s && |s| == |before| + 11 * refused + 9
            && TriedAt(s, |before|, b / 2, b % 2 == 1, refused)
    decreases refused
  {
    if refused == 0 {
      SentIsAddress(before, b);
    } else {
      hide TriedAt, SentByte;
      AttemptsAt(before, b, refused - 1);
      TriedAgain(Attempts(before, b, refused - 1), |before|, b, refused - 1);
    }
  }

  lemma SevenBitParts(addr: nat, flags: Flags)
    ensures var b := SevenBitByte(addr, flags);
            b / 2 == addr % 128 && (b % 2 == 1) == (flags.read != flags.revDirAddr)
  {
    var h, l := addr / 128, addr % 128;
    assert addr * 2 == 256 * h + 2 * l;
  }

  /** The symbols of an address read as that address. */
  lemma AddressedReads(before: seq<Symbol>, addr: nat, flags: Flags, first: nat, second: nat)
    ensures var s := Addressed(before, addr, flags, first, second);
            && before <= s && |s| == |before| + AddressSize(flags, first, second)
            && AddressedAt(s, |before|, addr, flags, first, second)
  {
    hide TriedAt, OctetAt, Attempts;
    if flags.ten {
      TenBitReads(before, addr, first);
      if flags.read {
        var both := Attempts(before, TenBitByte(addr), first) + SentByte(addr % 256);
        RepeatedReads(both, addr, second);
        var s := Attempts(both + [Symbol.Start], TenBitByte(addr) + 1, second);
        TriedStays(both, s, |before|, 120 + addr / 256 % 4, false, first);
        OctetStays(both, s, |before| + 11 * first + 9, addr % 256, true);
      }
    } else {
      AttemptsAt(before, SevenBitByte(addr, flags), first);
      SevenBitParts(addr, flags);
    }
  }

  /** The two octets of a ten-bit address... */
  lemma TenBitReads(before: seq<Symbol>, addr: nat, first: nat)
    ensures var s := Attempts(before, TenBitByte(addr), first) + SentByte(addr % 256);
            && before <= s && |s| == |before| + 11 * first + 18
            && TriedAt(s, |before|, 120 + addr / 256 % 4, false, first)
            && OctetAt(s, |before| + 11 * first + 9, addr % 256, true)
  {
    hide TriedAt, OctetAt, Attempts;
    var high := Attempts(before, TenBitByte(addr), first);
    AttemptsAt(before, TenBitByte(addr), first);
    assert high + SentByte(addr % 256) + [] == high + SentByte(addr % 256);
    SentIsOctet(high, addr % 256, []);
    TriedStays(high, high + SentByte(addr % 256), |before|, 120 + addr / 256 % 4, false, first);
  }

  /** ...and the first one again after a repeated START, to read. */
  lemma RepeatedReads(both: seq<Symbol>, addr: nat, second: nat)
    ensures var s := Attempts(both + [Symbol.Start], TenBitByte(addr) + 1, second);
            && both <= s && |s| == |both| + 11 * second + 10 && s[|both|] == Symbol.Start
            && TriedAt(s, |both| + 1, 120 + addr / 256 % 4, true, second)
  {
    hide TriedAt, Attempts;
    AttemptsAt(both + [Symbol.Start], TenBitByte(addr) + 1, second);
  }

  lemma AddressedIs(before: seq<Symbol>, addr: nat, flags: Flags, first: nat, second: nat)
    ensures Addressed(before, addr, flags, first, second) ==
            if !flags.ten then Attempts(before, SevenBitByte(addr, flags), first)
            else
              var both := Attempts(before, TenBitByte(addr), first) + SentByte(addr % 256);
              if flags.read then Attempts(both + [Symbol.Start], TenBitByte(addr) + 1, second) else both
  {
    hide Attempts, SentByte;
  }

  /** The places where addressing is given up: at its first octet... */
  lemma GivenUpFirst(before: seq<Symbol>, addr: nat, flags: Flags, retries: nat, first: nat)
    ensures var s := Attempts(before, if flags.ten then TenBitByte(addr) else SevenBitByte(addr, flags), retries);
            before <= s && GivenUpAt(s, |before|, addr, flags, retries, first, -ENXIO)
  {
    hide Attempts, TriedAt, OctetAt;
    AttemptsAt(before, if flags.ten then TenBitByte(addr) else SevenBitByte(addr, flags), retries);
    SevenBitParts(addr, flags);
  }

  /** ...at the second one of a ten-bit address... */
  lemma GivenUpSecond(before: seq<Symbol>, addr: nat, flags: Flags, retries: nat, first: nat)
    requires flags.ten
    ensures var s := Attempts(before, TenBitByte(addr), first) + SentByte(addr % 256);
            before <= s && GivenUpAt(s, |before|, addr, flags, retries, first, -ENXIO)
  {
    hide Attempts, TriedAt, OctetAt;
    TenBitReads(before, addr, first);
  }

  /** ...or at the first one repeated. */
  lemma GivenUpRepeated(before: seq<Symbol>, addr: nat, flags: Flags, retries: nat, first: nat)
    requires flags.ten && flags.read
    ensures var both := Attempts(before, TenBitByte(addr), first) + SentByte(addr % 256);
            var s := Attempts(both + [Symbol.Start], TenBitByte(addr) + 1, retries);
            before <= s && GivenUpAt(s, |before|, addr, flags, retries, first, -EIO)
  {
    hide Attempts, TriedAt, OctetAt;
    var both := Attempts(before, TenBitByte(addr), first) + SentByte(addr % 256);
    var s := Attempts(both + [Symbol.Start], TenBitByte(addr) + 1, retries);
    TenBitReads(before, addr, first);
    RepeatedReads(both, addr, retries);
    TriedStays(both, s, |before|, 120 + addr / 256 % 4, false, first);
    OctetStays(both, s, |before| + 11 * first + 9, addr % 256, true);
  }

  lemma {:induction false} ReadFrameAt(before: seq<Symbol>, n: nat, total: nat, noRdAck: bool)
    ensures var s, d := ReadFrame(before, n, total, noRdAck), Stride(!noRdAck);
            && before <= s && |s| == |before| + d * n
            && forall k :: 0 <= k < n ==> TakenAt(s, |before| + d * k, if noRdAck then None else Some(k + 1 == total))
    decreases n
  {
    if n > 0 {
      ReadFrameAt(before, n - 1, total, noRdAck);
      var s := ReadFrame(before, n - 1, total, noRdAck);
      TakenNext(s, n == total, noRdAck);
    }
  }

  lemma TakenNext(s: seq<Symbol>, last: bool, noRdAck: bool)
    ensures TakenAt(s + Released(8) + (if noRdAck then [] else [Bit(last)]), |s|, if noRdAck then None else Some(last))
  {
  }

  lemma DataReads(before: seq<Symbol>, flags: Flags, data: seq<Byte>)
    ensures var s := DataPart(before, flags, data);
            before <= s && |s| == |before| + DataSize(flags, |data|) && DataAt(s, |before|, flags, data)
  {
    if flags.read {
      ReadFrameAt(before, |data|, |data|, flags.noRdAck);
    } else {
      SentBytesAt(before, data);
    }
  }

  lemma MessageReads(before: seq<Symbol>, m: Moved, first: bool)
    ensures var s := Carried(before, m, first);
            before <= s && |s| == |before| + MessageSize(m, first) && MessageAt(s, |before|, m, first)
  {
    hide Addressed, AddressedAt, AddressSize, DataPart, DataAt, DataSize;
    var start := AddressPart(before, m, first);
    DataReads(start, m.flags, m.data);
    if !m.flags.noStart {
      var from := if first then before else before + [Symbol.Start];
      AddressedReads(from, m.addr, m.flags, m.first, m.second);
      AddressedStays(start, Carried(before, m, first), |from|, m.addr, m.flags, m.first, m.second);
    }
  }

  lemma NoMessages(before: seq<Symbol>, ms: seq<Moved>)
    ensures Transfer(before, ms[..0]) == before && MessagesAt(before, |before|, ms, 0)
  {
  }

  lemma MessagesStep(s: seq<Symbol>, from: nat, ms: seq<Moved>, n: nat)
    requires n < |ms| && MessagesAt(s, from, ms, n) && MessageAt(s, Begins(from, ms, n), ms[n], n == 0)
    ensures MessagesAt(s, from, ms, n + 1)
  {
    hide MessageAt, Begins;
  }

  lemma TransferStep(before: seq<Symbol>, ms: seq<Moved>, n: nat)
    requires n < |ms|
    ensures Transfer(before, ms[..n + 1]) == Carried(Transfer(before, ms[..n]), ms[n], n == 0)
  {
    hide Carried;
    assert ms[..n + 1][..n] == ms[..n];
  }

  /** The symbols of a transfer read as its messages. */
  lemma {:induction false} TransferReads(before: seq<Symbol>, ms: seq<Moved>, n: nat)
    requires n <= |ms|
    ensures var s := Transfer(before, ms[..n]);
            before <= s && |s| == Begins(|before|, ms, n) && MessagesAt(s, |before|, ms, n)
    decreases n
  {
    hide Transfer, Carried, MessageAt, MessagesAt, MessageSize;
    if n == 0 {
      NoMessages(before, ms);
    } else {
      TransferReads(before, ms, n - 1);
      TransferStep(before, ms, n - 1);
      var s := Transfer(before, ms[..n - 1]);
      var t := Carried(s, ms[n - 1], n == 1);
      MessageReads(s, ms[n - 1], n == 1);
      MessagesStay(s, t, |before|, ms, n - 1);
      MessagesStep(t, |before|, ms, n - 1);
    }
  }

  lemma XferReads(before: seq<Symbol>, ms: seq<Moved>)
    ensures var s := Transfer(before, ms) + [Symbol.Stop];
            && before <= s && |s| == Begins(|before|, ms, |ms|) + 1 && MessagesAt(s, |before|, ms, |ms|)
  {
    hide Transfer, Begins, MessagesAt;
    TransferReads(before, ms, |ms|);
    assert ms[..|ms|] == ms;
    MessagesStay(Transfer(before, ms), Transfer(before, ms) + [Symbol.Stop], |before|, ms, |ms|);
  }

  lemma ToBitsOf30()
    ensures ToBits(30, 5) == [true, true, true, true, false]
  {
    assert BitAt(30, 4) && BitAt(30, 3) && BitAt(30, 2) && BitAt(30, 1) && !BitAt(30, 0);
  }

  /** The two octets of a ten-bit address are marked as such, and their ten bits are the address. */
  lemma TenBitAddress(s: seq<Symbol>, p: nat, q: nat, addr: nat, read: bool)
    requires AddressAt(s, p, 120 + addr / 256 % 4, read) && OctetAt(s, q, addr % 256, true)
    ensures LevelsAt(s, p, 5) == [true, true, true, true, false]
    ensures FromBits(LevelsAt(s, p + 5, 2) + LevelsAt(s, q, 8)) == addr % 1024
  {
    hide FromBits, ToBits;
    var five, two, eight := LevelsAt(s, p, 5), LevelsAt(s, p + 5, 2), LevelsAt(s, q, 8);
    assert LevelsAt(s, p, 7) == five + two;
    Pow2Of8();
    FromBitsAppend(five, two);
    FromBitsAppend(two, eight);
    FromBitsBound(two);
    ReceivedThenSent(five);
    ToBitsOf30();
    assert Pow2(2) == 4;
    TenBits(addr);
  }

  lemma TenBits(addr: nat)
    ensures addr / 256 % 4 * 256 + addr % 256 == addr % 1024
  {
    var q := addr / 1024;
    assert addr / 256 == 4 * q + addr / 256 % 4;
  }
}
