/**
 * The I2C master of GeForceSensors/nouveau_i2c_bit.cpp, which drives SCL and
 * SDA separately. Nothing is assumed of the other side: what it lets the
 * master sense is arbitrary, except that a line the master drives low is low.
 */
module NouveauI2cBit {
  import opened Bytes
  import opened BitOrder
  import opened Octets
  import opened Wire

  const EBUSY: int := 16
  const ETIMEDOUT: int := 110
  const EIO: int := 5

  const T_TIMEOUT: nat := 2200000
  const T_RISEFALL: nat := 2000

  /** What the other side did: held SCL low too long, answered a byte, or sent a bit. */
  datatype Event = TimedOut | Ack(level: bool) | DataBit(level: bool)

  predicate Fault(e: Event) {
    e == TimedOut || e == Ack(true)
  }

  function Faults(es: seq<Event>, n: nat): nat
    requires n <= |es|
  {
    if n == 0 then 0 else Faults(es, n - 1) + if Fault(es[n - 1]) then 1 else 0
  }

  lemma {:induction false} FaultsPrefix(es: seq<Event>, e: Event, n: nat)
    requires n <= |es|
    ensures Faults(es + [e], n) == Faults(es, n)
    decreases n
  {
    if n > 0 {
      FaultsPrefix(es, e, n - 1);
    }
  }

  datatype Tally = Tally(events: seq<Event>, faults: nat) {
    ghost predicate Consistent() {
      faults == Faults(events, |events|)
    }

    function Add(e: Event): (t: Tally)
      ensures Consistent() ==> t.Consistent()
    {
      FaultsPrefix(events, e, |events|);
      Tally(events + [e], faults + if Fault(e) then 1 else 0)
    }
  }

  /** Everything the other side did, and how much of it was a fault. */
  type Log = t: Tally | t.Consistent() ghost witness Tally([], 0)

  /** A message: the buffer holds at least `len` bytes. */
  datatype Msg = Msg(addr: nat, read: bool, len: nat, buf: seq<Byte>) {
    predicate Valid() {
      len < 0x10000 && len <= |buf|
    }

    /** The transfer loop counts in eight bits. */
    function Moved(): nat {
      len % 256
    }

    function AddressByte(): Byte {
      (2 * addr + if read then 1 else 0) % 256
    }
  }

  /** The bytes of a buffer that a message moves. */
  function DataOf(m: Msg, buf: seq<Byte>): seq<Byte> {
    if m.Moved() <= |buf| then buf[..m.Moved()] else buf
  }

  function Opening(before: seq<Symbol>, m: Msg): seq<Symbol> {
    before + [Symbol.Start] + SentByte(m.AddressByte())
  }

  function Data(before: seq<Symbol>, m: Msg): seq<Symbol> {
    before + if m.read then ReceivedBytes(m.Moved(), m.Moved()) else SentBytes(DataOf(m, m.buf))
  }

  /** A whole message, after what was on the wire before. */
  function MsgFrame(before: seq<Symbol>, m: Msg): seq<Symbol> {
    Data(Opening(before, m), m)
  }

  /** These messages after what was on the wire before. */
  function Frames(before: seq<Symbol>, ms: seq<Msg>): seq<Symbol> {
    if ms == [] then before else MsgFrame(Frames(before, ms[..|ms| - 1]), ms[|ms| - 1])
  }

  predicate AllValid(ms: seq<Msg>) {
    forall i :: 0 <= i < |ms| ==> ms[i].Valid()
  }

  /** The other side's part in receiving these bytes. */
  function ByteEvents(bs: seq<Byte>): seq<Event> {
    if bs == [] then [] else ByteEvents(bs[..|bs| - 1]) + LevelEvents(ToBits(bs[|bs| - 1], 8))
  }

  function LevelEvents(bits: seq<bool>): seq<Event> {
    seq(|bits|, i requires 0 <= i < |bits| => DataBit(bits[i]))
  }

  function Acks(n: nat): seq<Event> {
    seq(n, i => Ack(false))
  }

  lemma AcksStep(before: seq<Event>, n: nat)
    ensures before + Acks(n) + Acks(1) == before + Acks(n + 1)
  {
    assert Acks(n + 1) == Acks(n) + Acks(1);
  }

  function DataEvents(before: seq<Event>, m: Msg, buf: seq<Byte>): seq<Event> {
    before + if m.read then ByteEvents(DataOf(m, buf)) else Acks(m.Moved())
  }

  /** The other side's part in a whole message that leaves `buf` in its buffer. */
  function MsgEvents(before: seq<Event>, m: Msg, buf: seq<Byte>): seq<Event> {
    DataEvents(before + Acks(1), m, buf)
  }

  /** Read off the wire from p on: START, address and direction, and the message's bytes one by one. */
  predicate Conveyed(s: seq<Symbol>, p: nat, m: Msg) {
    && p < |s| && s[p] == Symbol.Start && AddressAt(s, p + 1, m.addr % 128, m.read)
    && if m.read then ReceivedAt(s, p + 10, m.len % 256, true)
       else m.len % 256 <= |m.buf| && SentAt(s, p + 10, m.buf[..m.len % 256])
  }

  /** Where the i-th message of a transfer begins. */
  function Begins(from: nat, ms: seq<Msg>, i: nat): nat
    requires i <= |ms|
  {
    if i == 0 then from else Begins(from, ms, i - 1) + 10 + 9 * (ms[i - 1].len % 256)
  }

  lemma DataConveys(before: seq<Symbol>, m: Msg)
    requires m.Valid()
    ensures var s := Data(before, m);
            && before <= s && |s| == |before| + 9 * (m.len % 256)
            && if m.read then ReceivedAt(s, |before|, m.len % 256, true) else SentAt(s, |before|, m.buf[..m.len % 256])
  {
    hide SentAt, TakenAt;
    if m.read {
      ReceivedBytesAt(before, m.Moved(), m.Moved());
    } else {
      SentBytesAt(before, DataOf(m, m.buf));
    }
  }

  lemma FrameConveys(before: seq<Symbol>, m: Msg)
    requires m.Valid()
    ensures var s := MsgFrame(before, m);
            Conveyed(s, |before|, m) && |s| == |before| + 10 + 9 * (m.len % 256) && before <= s
  {
    hide Data, Opening, AddressAt, SentAt, ReceivedAt;
    var open := Opening(before, m);
    OpeningConveys(before, m);
    DataConveys(open, m);
    AddressStays(open, Data(open, m), |before| + 1, m.addr % 128, m.read);
  }

  lemma OpeningConveys(before: seq<Symbol>, m: Msg)
    ensures var s := Opening(before, m);
            && |s| == |before| + 10 && before <= s && s[|before|] == Symbol.Start
            && AddressAt(s, |before| + 1, m.addr % 128, m.read)
  {
    hide SentByte, OctetAt, AddressAt, Msg.AddressByte;
    var s, start := Opening(before, m), before + [Symbol.Start];
    assert s == start + SentByte(m.AddressByte()) + [];
    SentIsOctet(start, m.AddressByte(), []);
    AddressParts(m);
    OctetIsAddress(s, |before| + 1, m.AddressByte());
  }

  lemma AddressParts(m: Msg)
    ensures m.AddressByte() / 2 == m.addr % 128 && (m.AddressByte() % 2 == 1) == m.read
  {
    var h, l := m.addr / 128, m.addr % 128;
    assert 2 * m.addr + (if m.read then 1 else 0) == 256 * h + (2 * l + if m.read then 1 else 0);
  }

  lemma ConveyedStays(s: seq<Symbol>, t: seq<Symbol>, p: nat, m: Msg)
    requires Conveyed(s, p, m) && s <= t
    ensures Conveyed(t, p, m)
  {
    AddressStays(s, t, p + 1, m.addr % 128, m.read);
    if m.read {
      ReceivedStays(s, t, p + 10, m.len % 256, true);
    } else {
      SentStays(s, t, p + 10, m.buf[..m.len % 256]);
    }
  }

  /** The first n messages of a transfer, one behind the other. */
  predicate AllConveyed(s: seq<Symbol>, from: nat, ms: seq<Msg>, n: nat) {
    n <= |ms| && forall i :: 0 <= i < n ==> Conveyed(s, Begins(from, ms, i), ms[i])
  }

  lemma AllConveyedStays(s: seq<Symbol>, t: seq<Symbol>, from: nat, ms: seq<Msg>, n: nat)
    requires AllConveyed(s, from, ms, n) && s <= t
    ensures AllConveyed(t, from, ms, n)
  {
    hide Conveyed, Begins;
    forall i | 0 <= i < n
      ensures Conveyed(t, Begins(from, ms, i), ms[i])
    {
      ConveyedStays(s, t, Begins(from, ms, i), ms[i]);
    }
  }

  lemma AllConveyedStep(s: seq<Symbol>, from: nat, ms: seq<Msg>, n: nat)
    requires n < |ms| && AllConveyed(s, from, ms, n) && Conveyed(s, Begins(from, ms, n), ms[n])
    ensures AllConveyed(s, from, ms, n + 1)
  {
    hide Conveyed, Begins;
  }

  lemma {:induction false} FramesConvey(before: seq<Symbol>, ms: seq<Msg>, n: nat)
    requires n <= |ms| && AllValid(ms)
    ensures var s := Frames(before, ms[..n]);
            before <= s && |s| == Begins(|before|, ms, n) && AllConveyed(s, |before|, ms, n)
    decreases n
  {
    hide Conveyed, Frames, MsgFrame, AllConveyed;
    if n == 0 {
      NoFrames(before, ms);
    } else {
      FramesConvey(before, ms, n - 1);
      FramesStep(before, ms, n - 1);
      var s := Frames(before, ms[..n - 1]);
      var t := MsgFrame(s, ms[n - 1]);
      FrameConveys(s, ms[n - 1]);
      AllConveyedStays(s, t, |before|, ms, n - 1);
      AllConveyedStep(t, |before|, ms, n - 1);
    }
  }

  /** What a message's buffer may have become: only a read changes it, and only where bytes moved. */
  predicate Moved(m: Msg, buf: seq<Byte>) {
    && m.Valid() && |buf| == |m.buf|
    && buf[m.Moved()..] == m.buf[m.Moved()..]
    && (!m.read ==> buf == m.buf)
  }

  predicate Settled(ms: seq<Msg>, bufs: seq<seq<Byte>>) {
    |bufs| <= |ms| && forall i :: 0 <= i < |bufs| ==> Moved(ms[i], bufs[i])
  }

  /** The other side's part in these messages. */
  function XferEvents(before: seq<Event>, ms: seq<Msg>, bufs: seq<seq<Byte>>): seq<Event>
    requires |ms| == |bufs|
  {
    if ms == [] then before
    else
      var n := |ms| - 1;
      MsgEvents(XferEvents(before, ms[..n], bufs[..n]), ms[n], bufs[n])
  }

  lemma NoFrames(before: seq<Symbol>, ms: seq<Msg>)
    ensures Frames(before, ms[..0]) == before && AllConveyed(before, |before|, ms, 0)
  {
  }

  lemma NoEvents(events: seq<Event>, ms: seq<Msg>)
    ensures XferEvents(events, ms[..0], []) == events && Settled(ms, [])
  {
  }

  lemma FramesStep(before: seq<Symbol>, ms: seq<Msg>, k: nat)
    requires k < |ms|
    ensures Frames(before, ms[..k + 1]) == MsgFrame(Frames(before, ms[..k]), ms[k])
  {
    hide MsgFrame;
    assert ms[..k + 1][..k] == ms[..k];
  }

  /** One more message, all in order. */
  lemma MessageStep(ms: seq<Msg>, bufs: seq<seq<Byte>>, buf: seq<Byte>, before: seq<Symbol>, events: seq<Event>)
    requires |bufs| < |ms| && Settled(ms, bufs) && Moved(ms[|bufs|], buf)
    ensures var k := |bufs|;
            && Settled(ms, bufs + [buf])
            && Frames(before, ms[..k + 1]) == MsgFrame(Frames(before, ms[..k]), ms[k])
            && XferEvents(events, ms[..k + 1], bufs + [buf]) == MsgEvents(XferEvents(events, ms[..k], bufs), ms[k], buf)
  {
    hide MsgFrame, MsgEvents, Moved;
    var k, front, all := |bufs|, ms[..|bufs| + 1], bufs + [buf];
    assert front[..k] == ms[..k] && front[k] == ms[k];
    assert all[..k] == bufs && all[k] == buf;
  }

  class Port {
    var scl: bool
    var sda: bool
    var state: nat
    ghost var wire: Analyzer
    ghost var log: Log
    /** Every level sensed on SCL. */
    ghost var sensed: seq<bool>

    ghost predicate Valid()
      reads this
    {
      wire.line == Line(scl, sda)
    }

    method DriveScl(level: bool)
      requires Valid()
      modifies this`scl, this`wire
      ensures Valid() && scl == level && wire == old(wire).Feed(Line(level, sda))
    {
      scl := level;
      wire := wire.Feed(Line(scl, sda));
    }

    method DriveSda(level: bool)
      requires Valid()
      modifies this`sda, this`wire
      ensures Valid() && sda == level && wire == old(wire).Feed(Line(scl, level))
    {
      sda := level;
      wire := wire.Feed(Line(scl, sda));
    }

    method SenseScl() returns (level: bool)
      modifies this`sensed
      ensures (level ==> scl) && sensed == old(sensed) + [level]
    {
      var other: bool := *;
      level := scl && other;
      sensed := sensed + [level];
    }

    method SenseSda() returns (level: bool)
      ensures level ==> sda
    {
      var other: bool := *;
      level := sda && other;
    }

    /** i2c_raise_scl: polls SCL until it is high, at most 1100 times. */
    method RaiseScl() returns (ok: bool)
      requires Valid()
      modifies this`scl, this`wire, this`log, this`sensed
      ensures Valid() && scl && wire == old(wire).Feed(Line(true, sda))
      ensures |old(sensed)| < |sensed| <= |old(sensed)| + 1100 && ok == sensed[|sensed| - 1]
      ensures forall i :: |old(sensed)| <= i < |sensed| - 1 ==> !sensed[i]
      ensures log == if ok then old(log) else old(log).Add(TimedOut)
    {
      var timeout := T_TIMEOUT / T_RISEFALL;
      DriveScl(true);
      var high := false;
      while true
        invariant timeout > 0 && |sensed| + timeout == |old(sensed)| + 1100
        invariant forall i :: |old(sensed)| <= i < |sensed| ==> !sensed[i]
        invariant Valid() && scl && wire == old(wire).Feed(Line(true, sda)) && log == old(log)
        decreases timeout
      {
        high := SenseScl();
        if high {
          break;
        }
        timeout := timeout - 1;
        if timeout == 0 {
          break;
        }
      }
      ok := timeout != 0;
      if !ok {
        log := log.Add(TimedOut);
      }
    }

    method Start() returns (ret: int)
      requires Valid() && (scl ==> wire.pending.None?)
      modifies this
      ensures Valid() && !scl && ret <= 0
      ensures wire.symbols == old(wire.symbols) + [Symbol.Start]
      ensures wire.conditions == old(wire.conditions) + [Symbol.Start]
      ensures log.events == old(log.events) + if ret == 0 then [] else [TimedOut]
      ensures log.faults == old(log.faults) + if ret == 0 then 0 else 1
    {
      ret := 0;
      var c := SenseScl();
      var d := SenseSda();
      state := BitValue(c) + 2 * BitValue(d);
      if state != 3 {
        DriveScl(false);
        DriveSda(true);
        var ok := RaiseScl();
        if !ok {
          ret := -EBUSY;
        }
      }
      DriveSda(false);
      DriveScl(false);
    }

    method Stop()
      requires Valid()
      modifies this
      ensures Valid() && scl && sda && wire.pending.None? && log == old(log)
      ensures wire.conditions == old(wire.conditions) + [Symbol.Stop]
      ensures !old(scl) ==> wire.symbols == old(wire.symbols) + [Symbol.Stop]
    {
      DriveScl(false);
      DriveSda(false);
      DriveScl(true);
      DriveSda(true);
    }

    method WriteBit(bit: bool) returns (ret: int)
      requires Valid() && !scl
      modifies this
      ensures Valid() && (ret == 0 || ret == -ETIMEDOUT) && wire.conditions == old(wire.conditions)
      ensures ret == 0 ==> !scl && wire.symbols == old(wire.symbols) + [Bit(bit)] && log.events == old(log.events)
      ensures ret < 0 ==> log.events == old(log.events) + [TimedOut]
      ensures log.faults == old(log.faults) + if ret == 0 then 0 else 1
    {
      DriveSda(bit);
      var ok := RaiseScl();
      if !ok {
        return -ETIMEDOUT;
      }
      DriveScl(false);
      ret := 0;
    }

    /** i2c_bitr; `ack` says what the bit means to the caller. */
    method ReadBit(ghost ack: bool) returns (ret: int)
      requires Valid() && !scl
      modifies this
      ensures Valid() && ret in {0, 1, -ETIMEDOUT} && wire.conditions == old(wire.conditions)
      ensures ret >= 0 ==>
                && !scl && wire.symbols == old(wire.symbols) + [Bit(true)]
                && log.events == old(log.events) + [if ack then Ack(ret == 1) else DataBit(ret == 1)]
      ensures ret < 0 ==> log.events == old(log.events) + [TimedOut]
      ensures log.faults == old(log.faults) + if ret < 0 || (ack && ret == 1) then 1 else 0
    {
      DriveSda(true);
      var ok := RaiseScl();
      if !ok {
        return -ETIMEDOUT;
      }
      var level := SenseSda();
      log := log.Add(if ack then Ack(level) else DataBit(level));
      DriveScl(false);
      ret := BitValue(level);
    }

    /** i2c_put_byte */
    method PutByte(b: Byte) returns (ret: int)
      requires Valid() && !scl
      modifies this
      ensures Valid() && ret <= 0 && wire.conditions == old(wire.conditions)
      ensures ret == 0 ==> !scl && wire.symbols == old(wire.symbols) + SentByte(b) && log.events == old(log.events) + Acks(1)
      ensures log.faults == old(log.faults) + if ret == 0 then 0 else 1
    {
      var i := 7;
      while i >= 0
        invariant -1 <= i <= 7
        invariant Valid() && !scl && wire.symbols == old(wire.symbols) + TopBits(b, 7 - i)
        invariant wire.conditions == old(wire.conditions) && log == old(log)
      {
        TopBitsStep(old(wire.symbols), b, 7 - i);
        ret := WriteBit(BitAt(b, i));
        if ret < 0 {
          return;
        }
        i := i - 1;
      }
      ret := ReadBit(true);
      if ret == 1 {
        ret := -EIO;
      } else if ret == 0 {
        assert Acks(1) == [Ack(false)];
        assert wire.symbols == old(wire.symbols) + SentByte(b);
      }
    }

    /** i2c_get_byte */
    method GetByte(last: bool) returns (ret: int, b: Byte)
      requires Valid() && !scl
      modifies this
      ensures Valid() && ret <= 0 && wire.conditions == old(wire.conditions)
      ensures ret == 0 ==> !scl && wire.symbols == old(wire.symbols) + ReceivedByte(last)
      ensures ret == 0 ==> log.events == old(log.events) + LevelEvents(ToBits(b, 8))
      ensures log.faults == old(log.faults) + if ret == 0 then 0 else 1
    {
      b := 0;
      ghost var bits: seq<bool> := [];
      var i := 7;
      while i >= 0
        invariant -1 <= i <= 7 && |bits| == 7 - i
        invariant Valid() && !scl && wire.symbols == old(wire.symbols) + Released(7 - i)
        invariant wire.conditions == old(wire.conditions)
        invariant log.events == old(log.events) + LevelEvents(bits) && log.faults == old(log.faults)
        invariant b == InPlace(bits, i + 1)
      {
        var bit := ReadBit(false);
        if bit < 0 {
          return bit, b;
        }
        InPlaceSnoc(bits, bit == 1, i);
        InPlaceIsByte(bits + [bit == 1], i);
        assert LevelEvents(bits + [bit == 1]) == LevelEvents(bits) + [DataBit(bit == 1)];
        bits := bits + [bit == 1];
        b := b + if bit == 1 then Pow2(i) else 0;
        i := i - 1;
      }
      InPlaceIsByte(bits, 0);
      ReceivedThenSent(bits);
      ret := WriteBit(last);
      assert Released(8) + [Bit(last)] == ReceivedByte(last);
    }

    /** START and address. */
    method Open(m: Msg) returns (ret: int)
      requires Valid() && (scl ==> wire.pending.None?)
      modifies this
      ensures Valid() && ret <= 0 && wire.conditions == old(wire.conditions) + [Symbol.Start]
      ensures ret == 0 ==> !scl && wire.symbols == Opening(old(wire.symbols), m) && log.events == old(log.events) + Acks(1)
      ensures log.faults == old(log.faults) + if ret == 0 then 0 else 1
    {
      ret := Start();
      if ret == 0 {
        ret := PutByte(m.AddressByte());
      }
    }

    /** The bytes in order. */
    method Move(m: Msg) returns (ret: int, buf: seq<Byte>)
      requires Valid() && m.Valid() && !scl
      modifies this
      ensures Valid() && ret <= 0 && Moved(m, buf) && wire.conditions == old(wire.conditions)
      ensures ret == 0 ==>
                && !scl && wire.symbols == Data(old(wire.symbols), m)
                && log.events == DataEvents(old(log.events), m, buf)
      ensures log.faults == old(log.faults) + if ret == 0 then 0 else 1
    {
      buf := m.buf;
      if m.read {
        ret, buf := GetBytes(m);
      } else {
        ret := PutBytes(m);
      }
    }

    /** One message of i2c_bit_xfer. */
    method Message(m: Msg) returns (ret: int, buf: seq<Byte>)
      requires Valid() && m.Valid() && (scl ==> wire.pending.None?)
      modifies this
      ensures Valid() && ret <= 0 && Moved(m, buf)
      ensures wire.conditions == old(wire.conditions) + [Symbol.Start]
      ensures ret == 0 ==>
                && !scl && wire.symbols == MsgFrame(old(wire.symbols), m)
                && log.events == MsgEvents(old(log.events), m, buf)
      ensures ret == 0 ==>
                && old(wire.symbols) <= wire.symbols && Conveyed(wire.symbols, |old(wire.symbols)|, m)
                && |wire.symbols| == |old(wire.symbols)| + 10 + 9 * (m.len % 256)
      ensures log.faults == old(log.faults) + if ret == 0 then 0 else 1
    {
      FrameConveys(wire.symbols, m);
      buf := m.buf;
      ret := Open(m);
      if ret == 0 {
        ret, buf := Move(m);
      }
    }

    /** The write loop. */
    method PutBytes(m: Msg) returns (ret: int)
      requires Valid() && m.Valid() && !scl
      modifies this
      ensures Valid() && ret <= 0 && wire.conditions == old(wire.conditions)
      ensures ret == 0 ==> !scl && wire.symbols == old(wire.symbols) + SentBytes(m.buf[..m.Moved()])
      ensures ret == 0 ==> log.events == old(log.events) + Acks(m.Moved())
      ensures log.faults == old(log.faults) + if ret == 0 then 0 else 1
    {
      ret := 0;
      var remaining, k := m.Moved(), 0;
      while remaining > 0
        invariant 0 <= remaining && remaining + k == m.Moved() && ret == 0
        invariant Valid() && !scl && wire.conditions == old(wire.conditions)
        invariant wire.symbols == old(wire.symbols) + SentBytes(m.buf[..k])
        invariant log.events == old(log.events) + Acks(k) && log.faults == old(log.faults)
      {
        remaining := remaining - 1;
        ret := PutByte(m.buf[k]);
        if ret != 0 {
          return;
        }
        SentBytesStep(old(wire.symbols), m.buf[..m.Moved()], k);
        assert m.buf[..m.Moved()][..k] == m.buf[..k] && m.buf[..m.Moved()][..k + 1] == m.buf[..k + 1];
        AcksStep(old(log.events), k);
        k := k + 1;
      }
    }

    /** The read loop: each byte but the last is acknowledged. */
    method GetBytes(m: Msg) returns (ret: int, buf: seq<Byte>)
      requires Valid() && m.Valid() && !scl
      modifies this
      ensures Valid() && ret <= 0 && |buf| == |m.buf| && wire.conditions == old(wire.conditions)
      ensures ret == 0 ==> !scl && wire.symbols == old(wire.symbols) + ReceivedBytes(m.Moved(), m.Moved())
      ensures ret == 0 ==> log.events == old(log.events) + ByteEvents(buf[..m.Moved()])
      ensures buf[m.Moved()..] == m.buf[m.Moved()..]
      ensures log.faults == old(log.faults) + if ret == 0 then 0 else 1
    {
      ret, buf := 0, m.buf;
      var remaining, k := m.Moved(), 0;
      while remaining > 0
        invariant 0 <= remaining && remaining + k == m.Moved() && ret == 0 && |buf| == |m.buf|
        invariant Valid() && !scl && wire.conditions == old(wire.conditions)
        invariant wire.symbols == old(wire.symbols) + ReceivedBytes(k, m.Moved())
        invariant log.events == old(log.events) + ByteEvents(buf[..k]) && log.faults == old(log.faults)
        invariant buf[m.Moved()..] == m.buf[m.Moved()..]
      {
        remaining := remaining - 1;
        var b;
        ret, b := GetByte(remaining == 0);
        buf := buf[k := b];
        if ret != 0 {
          return;
        }
        ReceivedBytesStep(old(wire.symbols), k, m.Moved());
        assert buf[..k + 1][..k] == buf[..k];
        k := k + 1;
      }
    }

    /** The next message of a transfer that found the wire at `before` and the log at `events`. */
    method Turn(ms: seq<Msg>, bufs: seq<seq<Byte>>, ghost before: seq<Symbol>, ghost events: seq<Event>)
      returns (ret: int, more: seq<seq<Byte>>)
      requires Valid() && (scl ==> wire.pending.None?) && |bufs| < |ms| && AllValid(ms) && Settled(ms, bufs)
      requires wire.symbols == Frames(before, ms[..|bufs|])
      requires log.events == XferEvents(events, ms[..|bufs|], bufs)
      modifies this
      ensures Valid() && ret <= 0 && |more| == |bufs| + 1 && Settled(ms, more)
      ensures wire.conditions == old(wire.conditions) + [Symbol.Start]
      ensures ret == 0 ==>
                && !scl && wire.symbols == Frames(before, ms[..|more|])
                && log.events == XferEvents(events, ms[..|more|], more)
      ensures log.faults == old(log.faults) + if ret == 0 then 0 else 1
    {
      var buf;
      ret, buf := Message(ms[|bufs|]);
      MessageStep(ms, bufs, buf, before, events);
      more := bufs + [buf];
    }

    /** The message loop of i2c_bit_xfer. */
    method Messages(ms: seq<Msg>) returns (ret: int, bufs: seq<seq<Byte>>)
      requires Valid() && (scl ==> wire.pending.None?) && AllValid(ms)
      modifies this
      ensures Valid() && ret <= 0 && Settled(ms, bufs)
      ensures wire.conditions == old(wire.conditions) + Starts(|bufs|)
      ensures ret == 0 ==> |bufs| == |ms| && (ms != [] ==> !scl) && wire.symbols == Frames(old(wire.symbols), ms)
      ensures ms == [] ==> scl == old(scl) && wire == old(wire)
      ensures ret == 0 ==> log.events == XferEvents(old(log.events), ms, bufs)
      ensures log.faults == old(log.faults) + if ret == 0 then 0 else 1
    {
      hide Frames, XferEvents, Settled, Starts;
      ret, bufs := 0, [];
      NoFrames(wire.symbols, ms);
      NoEvents(log.events, ms);
      StartsStep(wire.conditions, 0);
      var k := 0;
      while k < |ms|
        invariant 0 <= k <= |ms| && |bufs| == k && ret == 0 && Settled(ms, bufs)
        invariant Valid() && (if k > 0 then !scl else scl == old(scl) && wire == old(wire))
        invariant wire.symbols == Frames(old(wire.symbols), ms[..k])
        invariant wire.conditions == old(wire.conditions) + Starts(k)
        invariant log.events == XferEvents(old(log.events), ms[..k], bufs) && log.faults == old(log.faults)
      {
        ret, bufs := Turn(ms, bufs, old(wire.symbols), old(log.events));
        StartsStep(old(wire.conditions), k);
        if ret != 0 {
          return;
        }
        k := k + 1;
      }
      assert ms[..k] == ms;
    }

    /**
     * i2c_bit_xfer: the number of messages exactly when the other side held
     * nothing up and acknowledged everything, a negative code otherwise; one
     * STOP ends it either way.
     */
    method Xfer(ms: seq<Msg>) returns (ret: int, bufs: seq<seq<Byte>>)
      requires Valid() && (scl ==> wire.pending.None?) && AllValid(ms)
      modifies this
      ensures Valid() && scl && sda && (ret < 0 || ret == |ms|) && Settled(ms, bufs)
      ensures ret == |ms| <==> log.faults == old(log.faults)
      ensures wire.conditions == old(wire.conditions) + Starts(|bufs|) + [Symbol.Stop]
      ensures ret == |ms| ==>
                && |bufs| == |ms|
                && log.events == XferEvents(old(log.events), ms, bufs)
                && (!old(scl) || ms != [] ==> wire.symbols == Frames(old(wire.symbols), ms) + [Symbol.Stop])
      ensures ret == |ms| && (!old(scl) || ms != []) ==>
                && old(wire.symbols) <= wire.symbols
                && |wire.symbols| == Begins(|old(wire.symbols)|, ms, |ms|) + 1 && wire.symbols[|wire.symbols| - 1] == Symbol.Stop
                && AllConveyed(wire.symbols, |old(wire.symbols)|, ms, |ms|)
    {
      hide AllConveyed;
      ret, bufs := Messages(ms);
      Stop();
      XferConveys(old(wire.symbols), ms);
      ret := if ret < 0 then ret else |ms|;
    }
  }

  lemma XferConveys(before: seq<Symbol>, ms: seq<Msg>)
    requires AllValid(ms)
    ensures var s := Frames(before, ms) + [Symbol.Stop];
            before <= s && |s| == Begins(|before|, ms, |ms|) + 1 && AllConveyed(s, |before|, ms, |ms|)
  {
    hide AllConveyed;
    FramesConvey(before, ms, |ms|);
    assert ms[..|ms|] == ms;
    AllConveyedStays(Frames(before, ms), Frames(before, ms) + [Symbol.Stop], |before|, ms, |ms|);
  }

  /** Messages are moved whole exactly when their lengths fit the eight-bit counter. */
  lemma MovedWhole(m: Msg)
    requires m.Valid()
    ensures (m.Moved() == m.len) == (m.len <= 255)
  {
  }
}
