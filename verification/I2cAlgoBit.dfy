/**
 * The I2C master of GeForceSensors/i2c_algo_bit.cpp. Nothing is assumed of the
 * other side but that SCL rises in time: a run in which it once did not is
 * marked, and nothing is claimed of it. (After a timeout SCL is left driven
 * high, where the STOP that follows would move SDA.)
 */
module I2cAlgoBit {
  import opened Bytes
  import opened BitOrder
  import opened I2cFrames
  import opened Wire

  /** struct i2c_msg; the buffer has room for a received block. */
  class Msg {
    const addr: nat
    const flags: Flags
    var len: nat
    var buf: seq<Byte>

    ghost predicate Valid()
      reads this
    {
      addr < 0x10000 && len < 0x10000 && |buf| >= len + if flags.recvLen then I2C_SMBUS_BLOCK_MAX else 0
    }
  }

  /** The received byte goes behind those before it. */
  lemma Store(bytes: seq<Byte>, was: seq<Byte>, b: Byte)
    requires |bytes| < |was|
    ensures (bytes + was[|bytes|..])[|bytes| := b] == bytes + [b] + was[|bytes| + 1..]
  {
    var l, r := (bytes + was[|bytes|..])[|bytes| := b], bytes + [b] + was[|bytes| + 1..];
    assert |l| == |r|;
    forall i | 0 <= i < |l|
      ensures l[i] == r[i]
    {
      assert i > |bytes| ==> l[i] == was[i] == was[|bytes| + 1..][i - |bytes| - 1];
    }
  }

  /** Levels sensed until the last one was high, or all low. */
  predicate Waited(before: seq<bool>, after: seq<bool>, high: bool) {
    && |before| < |after| && after[..|before|] == before
    && (forall i :: |before| <= i < |after| - 1 ==> !after[i]) && after[|after| - 1] == high
  }

  class Adapter {
    const retries: nat
    const hasScl: bool

    var scl: bool
    var sda: bool
    ghost var wire: Analyzer
    /** SCL has not risen in time at least once. */
    ghost var timedOut: bool
    /** How many bytes were not acknowledged, and the data bits received. */
    ghost var refusals: nat
    ghost var heard: seq<bool>
    /** Every level of SCL that was sensed. */
    ghost var sensed: seq<bool>

    ghost predicate Valid()
      reads this
    {
      wire.line == Line(scl, sda)
    }

    /** Where each routine finds and leaves the bus: SCL low, unless it timed out. */
    ghost predicate InMessage()
      reads this
    {
      Valid() && (timedOut || !scl)
    }

    method SetScl(level: bool)
      requires Valid()
      modifies this`scl, this`wire
      ensures Valid() && scl == level && wire == old(wire).Feed(Line(level, sda))
    {
      scl := level;
      wire := wire.Feed(Line(scl, sda));
    }

    method SetSda(level: bool)
      requires Valid()
      modifies this`sda, this`wire
      ensures Valid() && sda == level && wire == old(wire).Feed(Line(scl, level))
    {
      sda := level;
      wire := wire.Feed(Line(scl, sda));
    }

    /** `ack` says what the level means to the caller. */
    method GetSda(ghost ack: bool) returns (level: bool)
      modifies this`refusals, this`heard
      ensures level ==> sda
      ensures if ack then refusals == old(refusals) + BitValue(level) && heard == old(heard)
              else refusals == old(refusals) && heard == old(heard) + [level]
    {
      var other: bool := *;
      level := sda && other;
      if ack {
        refusals := refusals + BitValue(level);
      } else {
        heard := heard + [level];
      }
    }

    method GetScl() returns (level: bool)
      modifies this`sensed
      ensures sensed == old(sensed) + [level]
    {
      level := *;
      sensed := sensed + [level];
    }

    /**
     * sclhi: without a sense line SCL is taken to be high, with one it is
     * sensed until it is, or once more when the deadline has passed.
     */
    method SclHi() returns (ret: int)
      requires Valid()
      modifies this`scl, this`wire, this`timedOut, this`sensed
      ensures Valid() && scl && wire == old(wire).Feed(Line(true, sda))
      ensures ret in {0, -ETIMEDOUT} && timedOut == (old(timedOut) || ret < 0)
      ensures if !hasScl then ret == 0 && sensed == old(sensed) else Waited(old(sensed), sensed, ret == 0)
    {
      SetScl(true);
      ret := 0;
      if !hasScl {
        return;
      }
      // how often it can be sensed before the deadline
      var patience: nat :| patience >= 0;
      var level := GetScl();
      while !level
        invariant patience >= 0 && Waited(old(sensed), sensed, level)
        invariant Valid() && ret == 0 && scl && sda == old(sda) && timedOut == old(timedOut)
        invariant wire == old(wire).Feed(Line(true, sda))
        decreases patience
      {
        if patience == 0 {
          level := GetScl();
          if level {
            break;
          }
          ret := -ETIMEDOUT;
          timedOut := true;
          return;
        }
        patience := patience - 1;
        level := GetScl();
      }
    }

    /** i2c_start: both lines are high. */
    method Start()
      requires Valid() && (timedOut || (scl && sda))
      modifies this`scl, this`sda, this`wire
      ensures InMessage()
      ensures !timedOut ==>
                && wire.symbols == old(wire.symbols) + [Symbol.Start]
                && wire.conditions == old(wire.conditions) + [Symbol.Start]
    {
      SetSda(false);
      SetScl(false);
    }

    /** i2c_repstart */
    method RepStart()
      requires InMessage()
      modifies this`scl, this`sda, this`wire, this`timedOut, this`sensed
      ensures InMessage() && (old(timedOut) ==> timedOut)
      ensures !timedOut ==>
                && wire.symbols == old(wire.symbols) + [Symbol.Start]
                && wire.conditions == old(wire.conditions) + [Symbol.Start]
    {
      SetSda(true);
      var ret := SclHi();
      SetSda(false);
      SetScl(false);
    }

    /** i2c_stop */
    method Stop()
      requires InMessage()
      modifies this`scl, this`sda, this`wire, this`timedOut, this`sensed
      ensures Valid() && (old(timedOut) ==> timedOut) && scl && sda
      ensures !timedOut ==>
                && wire.symbols == old(wire.symbols) + [Symbol.Stop]
                && wire.conditions == old(wire.conditions) + [Symbol.Stop]
    {
      SetSda(false);
      var ret := SclHi();
      SetSda(true);
    }

    /** One clock with the line at `sb`. */
    method ClockOut(sb: bool) returns (ret: int)
      requires InMessage()
      modifies this`scl, this`sda, this`wire, this`timedOut, this`sensed
      ensures InMessage() && (old(timedOut) ==> timedOut) && (ret == 0 || (ret < 0 && timedOut))
      ensures !timedOut ==> wire.symbols == old(wire.symbols) + [Bit(sb)] && wire.conditions == old(wire.conditions)
      ensures sda == sb
    {
      SetSda(sb);
      ret := SclHi();
      if ret == 0 {
        SetScl(false);
      }
    }

    /** i2c_outb: 1 for ACK, 0 for NAK. */
    method OutB(c: Byte) returns (ret: int)
      requires InMessage()
      modifies this`scl, this`sda, this`wire, this`timedOut, this`sensed, this`refusals, this`heard
      ensures InMessage() && (old(timedOut) ==> timedOut) && ret <= 1 && (ret < 0 ==> timedOut)
      ensures !timedOut ==> refusals == old(refusals) + 1 - ret
      ensures heard == old(heard)
      ensures !timedOut ==> wire.symbols == old(wire.symbols) + SentByte(c) && wire.conditions == old(wire.conditions)
    {
      var i := 7;
      while i >= 0
        invariant -1 <= i <= 7 && InMessage() && (old(timedOut) ==> timedOut) && refusals == old(refusals) && heard == old(heard)
        invariant !timedOut ==> wire.symbols == old(wire.symbols) + TopBits(c, 7 - i) && wire.conditions == old(wire.conditions)
      {
        TopBitsStep(old(wire.symbols), c, 7 - i);
        ret := ClockOut(BitAt(c, i));
        if ret < 0 {
          return -ETIMEDOUT;
        }
        i := i - 1;
      }
      SetSda(true);
      ret := SclHi();
      if ret < 0 {
        return -ETIMEDOUT;
      }
      var level := GetSda(true);
      SetScl(false);
      ret := if level then 0 else 1;
      assert !timedOut ==> wire.symbols == old(wire.symbols) + SentByte(c);
    }

    /** i2c_inb: the byte, or a negative code. */
    method InB() returns (ret: int)
      requires InMessage()
      modifies this`scl, this`sda, this`wire, this`timedOut, this`sensed, this`refusals, this`heard
      ensures InMessage() && (old(timedOut) ==> timedOut) && ret < 256 && (ret < 0 ==> timedOut)
      ensures !timedOut ==> wire.symbols == old(wire.symbols) + Released(8) && wire.conditions == old(wire.conditions)
      ensures refusals == old(refusals)
      ensures !timedOut ==> ret >= 0 && heard == old(heard) + ToBits(ret, 8)
      ensures sda
    {
      hide FromBits, ToBits, Released;
      var indata := 0;
      SetSda(true);
      ghost var bits: seq<bool> := [];
      ReleasedStep(old(wire.symbols), 0);
      NoBits();
      var i := 0;
      while i < 8
        invariant 0 <= i <= 8 && InMessage() && (old(timedOut) ==> timedOut) && sda
        invariant |bits| == i && indata == FromBits(bits) && heard == old(heard) + bits && refusals == old(refusals)
        invariant !timedOut ==> wire.symbols == old(wire.symbols) + Released(i) && wire.conditions == old(wire.conditions)
      {
        ret := SclHi();
        if ret < 0 {
          return -ETIMEDOUT;
        }
        var level := GetSda(false);
        FromBitsSnoc(bits, level);
        bits := bits + [level];
        indata := indata * 2 + BitValue(level);
        SetScl(false);
        ReleasedStep(old(wire.symbols), i);
        i := i + 1;
      }
      FromBitsBound(bits);
      Pow2Of8();
      ReceivedThenSent(bits);
      ret := indata;
    }

    /** acknak: SDA is high on entry. */
    method AckNak(isAck: bool) returns (ret: int)
      requires InMessage() && sda
      modifies this`scl, this`sda, this`wire, this`timedOut, this`sensed
      ensures InMessage() && (old(timedOut) ==> timedOut) && (ret == 0 || (ret < 0 && timedOut))
      ensures !timedOut ==> wire.symbols == old(wire.symbols) + [Bit(!isAck)] && wire.conditions == old(wire.conditions)
    {
      if isAck {
        SetSda(false);
      }
      ret := SclHi();
      if ret == 0 {
        SetScl(false);
      }
    }

    /** try_address: after each refusal a STOP and a new START, at most `tries` times. */
    method TryAddress(addr: Byte, tries: nat) returns (ret: int, ghost used: nat)
      requires InMessage()
      modifies this`scl, this`sda, this`wire, this`timedOut, this`sensed, this`refusals, this`heard
      ensures InMessage() && (old(timedOut) ==> timedOut) && ret <= 1 && (ret < 0 ==> timedOut)
      ensures heard == old(heard)
      ensures !timedOut ==> Restarted(old(wire.conditions), wire.conditions)
      ensures !timedOut ==> wire.symbols == Attempts(old(wire.symbols), addr, used)
      ensures !timedOut ==> used <= tries && (ret == 0 ==> used == tries) && refusals == old(refusals) + used + 1 - ret
    {
      hide SentByte, Attempts, Restarted;
      AttemptsStep(wire.symbols, addr, 0);
      RestartedRound(wire.conditions, wire.conditions);
      var i := 0;
      used := 0;
      while true
        invariant heard == old(heard) && 0 <= i <= tries && used == i && InMessage() && (old(timedOut) ==> timedOut)
        invariant !timedOut ==> Restarted(old(wire.conditions), wire.conditions) && refusals == old(refusals) + i
        invariant !timedOut ==> wire.symbols + SentByte(addr) == Attempts(old(wire.symbols), addr, i)
        decreases tries - i
      {
        RestartedRound(old(wire.conditions), wire.conditions);
        ret := OutB(addr);
        if ret == 1 || i == tries {
          return;
        }
        Stop();
        Start();
        AttemptsStep(old(wire.symbols), addr, i);
        i := i + 1;
        used := i;
      }
    }

    /** sendbytes: the whole buffer, or -EIO at the first NAK that may not be ignored. */
    method SendBytes(msg: Msg) returns (ret: int)
      requires InMessage() && msg.Valid()
      modifies this`scl, this`sda, this`wire, this`timedOut, this`sensed, this`refusals, this`heard
      ensures InMessage() && (old(timedOut) ==> timedOut) && heard == old(heard)
      ensures !timedOut ==>
                && wire.conditions == old(wire.conditions)
                && (ret == msg.len || (ret == -EIO && !msg.flags.ignoreNak))
                && (ret == msg.len ==> wire.symbols == old(wire.symbols) + SentBytes(msg.buf[..msg.len]))
                && refusals >= old(refusals) && (ret < 0 ==> refusals > old(refusals))
                && (!msg.flags.ignoreNak && ret >= 0 ==> refusals == old(refusals))
    {
      var count, sent := msg.len, 0;
      while count > 0
        invariant 0 <= count && sent + count == msg.len && InMessage() && (old(timedOut) ==> timedOut) && heard == old(heard)
        invariant !timedOut ==> wire.conditions == old(wire.conditions)
        invariant !timedOut ==> wire.symbols == old(wire.symbols) + SentBytes(msg.buf[..sent])
        invariant !timedOut ==> if msg.flags.ignoreNak then refusals >= old(refusals) else refusals == old(refusals)
      {
        var acked := OutB(msg.buf[sent]);
        assert msg.buf[..sent + 1][..sent] == msg.buf[..sent];
        if acked > 0 || (msg.flags.ignoreNak && acked == 0) {
          count := count - 1;
          sent := sent + 1;
        } else if acked == 0 {
          return -EIO;
        } else {
          return acked;
        }
      }
      ret := sent;
    }

    /** The next byte, stored behind `bytes`. */
    method NextByte(msg: Msg, got: nat, ghost bytes: seq<Byte>, ghost was: seq<Byte>) returns (ret: int)
      requires InMessage() && got == |bytes| < |was| && msg.buf == bytes + was[got..]
      modifies this`scl, this`sda, this`wire, this`timedOut, this`sensed, this`refusals, this`heard, msg`buf
      ensures InMessage() && (old(timedOut) ==> timedOut) && refusals == old(refusals)
      ensures sda && (ret < 0 ==> timedOut && msg.buf == old(msg.buf))
      ensures 0 <= ret ==> ret < 256 && msg.buf == bytes + [ret] + was[got + 1..]
      ensures !timedOut ==>
                && ret >= 0 && wire.conditions == old(wire.conditions)
                && wire.symbols == old(wire.symbols) + Released(8) && heard == old(heard) + ToBits(ret, 8)
    {
      ret := InB();
      if ret >= 0 {
        Store(bytes, was, ret);
        msg.buf := msg.buf[got := ret];
      }
    }

    /** The answer to a received byte, unless the message forbids one. */
    method Answer(msg: Msg, more: bool) returns (ret: int)
      requires InMessage() && sda
      modifies this`scl, this`sda, this`wire, this`timedOut, this`sensed
      ensures InMessage() && (old(timedOut) ==> timedOut) && (ret == 0 || (ret < 0 && timedOut))
      ensures !timedOut ==> wire.conditions == old(wire.conditions)
      ensures !timedOut ==> wire.symbols == old(wire.symbols) + if msg.flags.noRdAck then [] else [Bit(!more)]
    {
      ret := 0;
      if !msg.flags.noRdAck {
        ret := AckNak(more);
      }
    }

    /** One round of readbytes, `got` bytes being there and `count` still to come. */
    method ReadRound(msg: Msg, got: nat, count: nat, ghost bytes: seq<Byte>, ghost was: seq<Byte>, ghost asked: nat)
      returns (ret: int, left: nat, ghost more: seq<Byte>)
      requires InMessage() && count > 0 && |was| >= asked + if msg.flags.recvLen then I2C_SMBUS_BLOCK_MAX else 0
      requires got == |bytes| < |was| && msg.buf == bytes + was[got..] && Reading(msg.flags, asked, bytes, count, msg.len)
      modifies this`scl, this`sda, this`wire, this`timedOut, this`sensed, this`refusals, this`heard, msg`len, msg`buf
      ensures InMessage() && (old(timedOut) ==> timedOut) && refusals == old(refusals) && |more| <= |was| && msg.buf == more + was[|more|..]
      ensures ret == 0 ==> |more| == got + 1 && more[..got] == bytes && Reading(msg.flags, asked, more, left, msg.len)
      ensures ret > 0 ==> timedOut
      ensures !timedOut ==>
                && |more| == got + 1 && more[..got] == bytes
                && wire.conditions == old(wire.conditions) && heard == old(heard) + ToBits(more[got], 8)
                && wire.symbols == old(wire.symbols) + Released(8)
                                   + if msg.flags.noRdAck then [] else [Bit(ret < 0 || left == 0)]
      ensures ret < 0 && !timedOut ==>
                && ret == -EPROTO && msg.flags.recvLen && got == 0 && msg.len == old(msg.len)
                && !(1 <= more[0] <= 32)
    {
      left, more := count, bytes;
      var inval := NextByte(msg, got, bytes, was);
      if inval < 0 {
        return 1, left, more;
      }
      more := bytes + [inval];
      left := count - 1;
      if got == 0 && msg.flags.recvLen {
        if inval <= 0 || inval > I2C_SMBUS_BLOCK_MAX {
          var _ := Answer(msg, false);
          return -EPROTO, left, more;
        }
        left := left + inval;
        msg.len := (msg.len + inval) % 0x10000;
      }
      ret := Answer(msg, left != 0);
    }

    /** That round in a message that found the wire at `start` and `heard` at `levels`. */
    method ReadNext(msg: Msg, got: nat, count: nat, ghost bytes: seq<Byte>, ghost was: seq<Byte>, ghost asked: nat,
                    ghost start: seq<Symbol>, ghost levels: seq<bool>)
      returns (ret: int, left: nat, ghost more: seq<Byte>)
      requires InMessage() && count > 0 && |was| >= asked + if msg.flags.recvLen then I2C_SMBUS_BLOCK_MAX else 0
      requires got == |bytes| <= |was| && msg.buf == bytes + was[got..] && Reading(msg.flags, asked, bytes, count, msg.len)
      requires !timedOut ==> wire.symbols == ReadFrame(start, got, got + count, msg.flags.noRdAck) && heard == Levels(levels, bytes)
      modifies this`scl, this`sda, this`wire, this`timedOut, this`sensed, this`refusals, this`heard, msg`len, msg`buf
      ensures InMessage() && (old(timedOut) ==> timedOut) && refusals == old(refusals)
      ensures |more| <= |was| && msg.buf == more + was[|more|..] && (ret > 0 ==> timedOut)
      ensures ret == 0 ==> |more| == got + 1 && Reading(msg.flags, asked, more, left, msg.len)
      ensures !timedOut ==> wire.conditions == old(wire.conditions) && heard == Levels(levels, more)
      ensures !timedOut && ret == 0 ==> wire.symbols == ReadFrame(start, got + 1, got + 1 + left, msg.flags.noRdAck)
      ensures !timedOut && ret < 0 ==>
                && ret == -EPROTO && msg.flags.recvLen && asked > 0 && msg.len == asked
                && |more| == 1 && !(1 <= more[0] <= 32)
                && wire.symbols == start + Released(8) + if msg.flags.noRdAck then [] else [Bit(true)]
    {
      hide ReadFrame, Levels, Released, ToBits, Reading, InMessage;
      ReadingBound(msg.flags, asked, bytes, count, msg.len);
      NothingRead(start, levels, got + count, msg.flags.noRdAck);
      ghost var len := msg.len;
      ret, left, more := ReadRound(msg, got, count, bytes, was, asked);
      if !timedOut {
        assert more == bytes + [more[got]];
        LevelsStep(levels, bytes, more[got]);
      }
      if ret == 0 {
        SameTotal(msg.flags, asked, bytes, count, len, more, left, msg.len);
        ReadStep(start, got, got + count, got + 1 + left, msg.flags.noRdAck);
      }
    }

    /**
     * readbytes: every byte but the last is acknowledged; the first byte of a
     * block transfer is its length and makes the message longer, or is refused.
     */
    method ReadBytes(msg: Msg) returns (ret: int, ghost bytes: seq<Byte>)
      requires InMessage() && msg.Valid()
      modifies this`scl, this`sda, this`wire, this`timedOut, this`sensed, this`refusals, this`heard, msg`len, msg`buf
      ensures InMessage() && (old(timedOut) ==> timedOut) && refusals == old(refusals)
      ensures |bytes| <= |old(msg.buf)| && msg.buf == bytes + old(msg.buf)[|bytes|..]
      ensures !timedOut ==> wire.conditions == old(wire.conditions) && heard == Levels(old(heard), bytes)
      ensures !timedOut && ret >= 0 ==>
                && ret == |bytes| && Received(msg.flags, old(msg.len), bytes) && msg.len == ret % 0x10000
                && wire.symbols == ReadFrame(old(wire.symbols), ret, ret, msg.flags.noRdAck)
      ensures !timedOut && ret < 0 ==>
                && ret == -EPROTO && msg.flags.recvLen && old(msg.len) > 0 && msg.len == old(msg.len)
                && |bytes| == 1 && !(1 <= bytes[0] <= 32)
                && wire.symbols == old(wire.symbols) + Released(8) + if msg.flags.noRdAck then [] else [Bit(true)]
    {
      hide ReadFrame, Levels, Released, Received, Reading, InMessage;
      var count, got := msg.len, 0;
      bytes := [];
      NothingRead(old(wire.symbols), old(heard), count, msg.flags.noRdAck);
      ReadingStarts(msg.flags, msg.len);
      while count > 0
        invariant 0 <= count && got == |bytes| <= |old(msg.buf)|
        invariant msg.buf == bytes + old(msg.buf)[got..]
        invariant Reading(msg.flags, old(msg.len), bytes, count, msg.len)
        invariant InMessage() && (old(timedOut) ==> timedOut) && refusals == old(refusals)
        invariant !timedOut ==> wire.conditions == old(wire.conditions) && heard == Levels(old(heard), bytes)
        invariant !timedOut ==> wire.symbols == ReadFrame(old(wire.symbols), got, got + count, msg.flags.noRdAck)
        decreases |old(msg.buf)| - got
      {
        ret, count, bytes := ReadNext(msg, got, count, bytes, old(msg.buf), old(msg.len), old(wire.symbols), old(heard));
        if ret > 0 {
          break;
        }
        if ret < 0 {
          return;
        }
        got := got + 1;
      }
      if !timedOut {
        ReadingDone(msg.flags, old(msg.len), bytes, msg.len);
      }
      ret := got;
    }

    /** The ten-bit branch of bit_doAddress. */
    method TenBitAddress(msg: Msg) returns (ret: int, ghost first: nat, ghost second: nat)
      requires InMessage() && msg.Valid() && msg.flags.ten
      modifies this`scl, this`sda, this`wire, this`timedOut, this`sensed, this`refusals, this`heard
      ensures InMessage() && (old(timedOut) ==> timedOut) && ret <= 0 && (msg.flags.ignoreNak ==> ret == 0) && heard == old(heard)
      ensures !timedOut ==>
                && Restarted(old(wire.conditions), wire.conditions)
                && (ret == 0 ==> wire.symbols == Addressed(old(wire.symbols), msg.addr, msg.flags, first, second))
                && (ret == 0 && !msg.flags.ignoreNak ==> refusals == old(refusals) + first + second)
                && first <= (if msg.flags.ignoreNak then 0 else retries) && second <= (if msg.flags.ignoreNak then 0 else retries)
                && refusals >= old(refusals) && (ret < 0 ==> refusals > old(refusals))
      ensures !timedOut && ret < 0 ==>
                && old(wire.symbols) <= wire.symbols
                && GivenUpAt(wire.symbols, |old(wire.symbols)|, msg.addr, msg.flags, retries, first, ret)
    {
      hide Attempts, Addressed, GivenUpAt, Restarted, SentByte;
      first, second := 0, 0;
      var tries := if msg.flags.ignoreNak then 0 else retries;
      ghost var from, conditions := wire.symbols, wire.conditions;
      ret, first := TryAddress(TenBitByte(msg.addr), tries);
      if ret != 1 && !msg.flags.ignoreNak {
        GivenUpFirst(from, msg.addr, msg.flags, retries, first);
        return -ENXIO, first, second;
      }
      ret := OutB(msg.addr % 256);
      if ret != 1 && !msg.flags.ignoreNak {
        GivenUpSecond(from, msg.addr, msg.flags, retries, first);
        return -ENXIO, first, second;
      }
      if msg.flags.read {
        RestartedOnce(conditions, wire.conditions);
        RepStart();
        ghost var again := wire.conditions;
        ret, second := TryAddress(TenBitByte(msg.addr) + 1, tries);
        if !timedOut {
          RestartedTrans(conditions, again, wire.conditions);
        }
        if ret != 1 && !msg.flags.ignoreNak {
          GivenUpRepeated(from, msg.addr, msg.flags, retries, first);
          return -EIO, first, second;
        }
      }
      AddressedIs(from, msg.addr, msg.flags, first, second);
      ret := 0;
    }

    /** bit_doAddress */
    method DoAddress(msg: Msg) returns (ret: int, ghost first: nat, ghost second: nat)
      requires InMessage() && msg.Valid()
      modifies this`scl, this`sda, this`wire, this`timedOut, this`sensed, this`refusals, this`heard
      ensures InMessage() && (old(timedOut) ==> timedOut) && ret <= 0 && (msg.flags.ignoreNak ==> ret == 0) && heard == old(heard)
      ensures !timedOut ==>
                && Restarted(old(wire.conditions), wire.conditions)
                && (ret == 0 ==> wire.symbols == Addressed(old(wire.symbols), msg.addr, msg.flags, first, second))
                && (ret == 0 && !msg.flags.ignoreNak ==> refusals == old(refusals) + first + second)
                && first <= (if msg.flags.ignoreNak then 0 else retries) && second <= (if msg.flags.ignoreNak then 0 else retries)
                && refusals >= old(refusals) && (ret < 0 ==> refusals > old(refusals))
      ensures !timedOut && ret < 0 ==>
                && old(wire.symbols) <= wire.symbols
                && GivenUpAt(wire.symbols, |old(wire.symbols)|, msg.addr, msg.flags, retries, first, ret)
      ensures !timedOut && ret == 0 ==>
                var s, p := wire.symbols, |old(wire.symbols)|;
                && old(wire.symbols) <= s && |s| == p + AddressSize(msg.flags, first, second)
                && AddressedAt(s, p, msg.addr, msg.flags, first, second)
    {
      hide Attempts, Addressed, AddressedAt, AddressSize, GivenUpAt, Restarted;
      first, second := 0, 0;
      ghost var from := wire.symbols;
      if msg.flags.ten {
        ret, first, second := TenBitAddress(msg);
      } else {
        var tries := if msg.flags.ignoreNak then 0 else retries;
        ret, first := TryAddress(SevenBitByte(msg.addr, msg.flags), tries);
        if ret != 1 && !msg.flags.ignoreNak {
          GivenUpFirst(from, msg.addr, msg.flags, retries, first);
          return -ENXIO, first, second;
        }
        AddressedIs(from, msg.addr, msg.flags, first, second);
        ret := 0;
      }
      AddressedReads(from, msg.addr, msg.flags, first, second);
    }

    /** The addressing part of one message of bit_xfer. */
    method Address(msg: Msg, first: bool) returns (ret: int, ghost tries: nat, ghost again: nat)
      requires InMessage() && msg.Valid()
      modifies this`scl, this`sda, this`wire, this`timedOut, this`sensed, this`refusals, this`heard
      ensures InMessage() && (old(timedOut) ==> timedOut) && ret <= 0 && heard == old(heard)
      ensures !timedOut ==> Restarted(old(wire.conditions), wire.conditions)
      ensures !timedOut && ret == 0 ==>
                wire.symbols == AddressPart(old(wire.symbols), Moved(msg.addr, msg.flags, [], tries, again), first)
      ensures !timedOut ==> refusals >= old(refusals) && (ret < 0 ==> refusals > old(refusals))
      ensures !timedOut ==> tries <= retries && again <= retries
    {
      ret, tries, again := 0, 0, 0;
      if !msg.flags.noStart {
        if !first {
          RepStart();
          assert !timedOut ==> wire.conditions[|old(wire.conditions)|..] == [Symbol.Start];
        }
        ghost var conditions := wire.conditions;
        ret, tries, again := DoAddress(msg);
        if !timedOut {
          RestartedTrans(old(wire.conditions), conditions, wire.conditions);
        }
        if msg.flags.ignoreNak {
          ret := 0;
        }
      }
    }

    /** The data part of one message of bit_xfer. */
    method Data(msg: Msg) returns (ret: int, ghost data: seq<Byte>)
      requires InMessage() && msg.Valid()
      modifies this`scl, this`sda, this`wire, this`timedOut, this`sensed, this`refusals, this`heard, msg`len, msg`buf
      ensures InMessage() && (old(timedOut) ==> timedOut)
      ensures !timedOut ==> wire.conditions == old(wire.conditions) && refusals >= old(refusals)
      ensures !timedOut && ret >= 0 ==>
                && Whole(msg.flags, old(msg.len), old(msg.buf), msg.len, msg.buf, data)
                && wire.symbols == DataPart(old(wire.symbols), msg.flags, data)
                && heard == HeardIn(old(heard), msg.flags, data)
      ensures !timedOut && ret < 0 ==> ret == -EPROTO || refusals > old(refusals)
    {
      if msg.flags.read {
        ret, data := ReadBytes(msg);
      } else {
        ret := SendBytes(msg);
        data := msg.buf[..msg.len];
      }
      if 0 <= ret < msg.len {
        ret := -EIO;
      }
    }

    /** One message of bit_xfer; `ret` is negative when the transfer must end here. */
    method Message(msg: Msg, first: bool) returns (ret: int, ghost moved: Moved)
      requires InMessage() && msg.Valid()
      modifies this`scl, this`sda, this`wire, this`timedOut, this`sensed, this`refusals, this`heard, msg`len, msg`buf
      ensures InMessage() && (old(timedOut) ==> timedOut)
      ensures !timedOut ==> Restarted(old(wire.conditions), wire.conditions) && refusals >= old(refusals)
      ensures !timedOut && ret >= 0 ==>
                && Went(msg, old(msg.len), old(msg.buf), moved)
                && wire.symbols == Carried(old(wire.symbols), moved, first)
                && heard == HeardIn(old(heard), msg.flags, moved.data)
      ensures !timedOut && ret < 0 ==> ret == -EPROTO || refusals > old(refusals)
    {
      ghost var tries, again, data;
      ret, tries, again := Address(msg, first);
      moved := Moved(msg.addr, msg.flags, [], tries, again);
      if ret == 0 {
        ret, data := Data(msg);
        moved := moved.(data := data);
      }
    }

    /** One turn of that loop touches no other message. */
    method Turn(msgs: seq<Msg>, i: nat) returns (ret: int, ghost moved: Moved)
      requires InMessage() && i < |msgs| && msgs[i].Valid()
      requires forall j, k :: 0 <= j < k < |msgs| ==> msgs[j] != msgs[k]
      modifies this, msgs[i]
      ensures InMessage() && (old(timedOut) ==> timedOut)
      ensures !timedOut ==> Restarted(old(wire.conditions), wire.conditions) && refusals >= old(refusals)
      ensures !timedOut && ret >= 0 ==>
                && Went(msgs[i], old(msgs[i].len), old(msgs[i].buf), moved)
                && wire.symbols == Carried(old(wire.symbols), moved, i == 0)
                && heard == HeardIn(old(heard), moved.flags, moved.data)
      ensures !timedOut && ret < 0 ==> ret == -EPROTO || refusals > old(refusals)
      ensures forall j :: 0 <= j < |msgs| && j != i ==> msgs[j].len == old(msgs[j].len) && msgs[j].buf == old(msgs[j].buf)
    {
      ret, moved := Message(msgs[i], i == 0);
    }

    /** The message went through whole. */
    ghost predicate Went(msg: Msg, asked: nat, was: seq<Byte>, moved: Moved)
      reads msg
    {
      && moved.addr == msg.addr && moved.flags == msg.flags
      && moved.first <= retries && moved.second <= retries
      && Whole(msg.flags, asked, was, msg.len, msg.buf, moved.data)
    }

    /** The message loop of bit_xfer. */
    method Messages(msgs: seq<Msg>) returns (ret: int, ghost moved: seq<Moved>)
      requires InMessage()
      requires forall i :: 0 <= i < |msgs| ==> msgs[i].Valid()
      requires forall i, j :: 0 <= i < j < |msgs| ==> msgs[i] != msgs[j]
      modifies this, msgs
      ensures InMessage() && (old(timedOut) ==> timedOut)
      ensures !timedOut ==> Restarted(old(wire.conditions), wire.conditions)
      ensures !timedOut ==> ret == |msgs| || ret == -EPROTO || (ret < 0 && refusals > old(refusals))
      ensures !timedOut && ret == |msgs| ==>
                && wire.symbols == Transfer(old(wire.symbols), moved)
                && heard == HeardInAll(old(heard), moved)
                && |moved| == |msgs| && AllWhole(msgs, moved, |msgs|)
    {
      moved, ret := [], 0;
      var i := 0;
      while i < |msgs|
        invariant 0 <= i <= |msgs| && |moved| == i && InMessage() && (old(timedOut) ==> timedOut)
        invariant !timedOut ==> Restarted(old(wire.conditions), wire.conditions) && refusals >= old(refusals)
        invariant !timedOut ==> wire.symbols == Transfer(old(wire.symbols), moved)
        invariant !timedOut ==> heard == HeardInAll(old(heard), moved)
        invariant forall j :: i <= j < |msgs| ==> msgs[j].len == old(msgs[j].len) && msgs[j].buf == old(msgs[j].buf)
        invariant !timedOut ==> AllWhole(msgs, moved, i)
      {
        ghost var conditions := wire.conditions;
        ghost var m;
        ret, m := Turn(msgs, i);
        if !timedOut {
          RestartedTrans(old(wire.conditions), conditions, wire.conditions);
        }
        if ret < 0 {
          return;
        }
        assert (moved + [m])[..i] == moved;
        moved := moved + [m];
        i := i + 1;
      }
      ret := i;
    }

    /** The first n messages went through whole. */
    twostate predicate AllWhole(msgs: seq<Msg>, moved: seq<Moved>, n: nat)
      reads msgs
    {
      n <= |msgs| && n <= |moved| && forall i {:trigger moved[i]} :: 0 <= i < n ==>
        Went(msgs[i], old(msgs[i].len), old(msgs[i].buf), moved[i])
    }

    /**
     * bit_xfer: the number of messages only when each of them was moved whole,
     * and one STOP at the end either way.
     */
    method Xfer(msgs: seq<Msg>, preXfer: int) returns (ret: int, ghost moved: seq<Moved>)
      requires Valid() && scl && sda
      requires forall i :: 0 <= i < |msgs| ==> msgs[i].Valid()
      requires forall i, j :: 0 <= i < j < |msgs| ==> msgs[i] != msgs[j]
      modifies this, msgs
      ensures Valid() && scl && sda && (old(timedOut) ==> timedOut) && (preXfer < 0 ==> ret == preXfer && wire == old(wire))
      ensures preXfer >= 0 && !timedOut ==>
                && |wire.conditions| > 0
                && Restarted(old(wire.conditions) + [Symbol.Start], wire.conditions[..|wire.conditions| - 1])
                && wire.conditions[|wire.conditions| - 1] == Symbol.Stop
                && (ret == |msgs| || ret == -EPROTO || (ret < 0 && refusals > old(refusals)))
      ensures preXfer >= 0 && !timedOut && ret == |msgs| ==>
                && wire.symbols == Transfer(old(wire.symbols) + [Symbol.Start], moved) + [Symbol.Stop]
                && heard == HeardInAll(old(heard), moved)
                && |moved| == |msgs| && AllWhole(msgs, moved, |msgs|)
      ensures preXfer >= 0 && !timedOut && ret == |msgs| ==>
                var s, p := wire.symbols, |old(wire.symbols)|;
                && old(wire.symbols) <= s && p < |s| && s[p] == Symbol.Start && MessagesAt(s, p + 1, moved, |msgs|)
                && |s| == Begins(p + 1, moved, |msgs|) + 1 && s[|s| - 1] == Symbol.Stop
    {
      hide Transfer, MessagesAt, Begins, HeardInAll, Restarted, Whole;
      if preXfer < 0 {
        return preXfer, [];
      }
      Start();
      ret, moved := Messages(msgs);
      ghost var conditions := wire.conditions;
      Stop();
      assert !timedOut ==> wire.conditions[..|wire.conditions| - 1] == conditions;
      XferReads(old(wire.symbols) + [Symbol.Start], moved);
    }
  }
}
