/**
 * The software I2C master of GeForceSensors/xf86i2c.cpp, down to the line
 * levels. The bus is a wired AND of what the master drives and what the peer
 * pulls. The peer is either a register file, which may stretch the clock, or
 * unknown, in which case every level read back is arbitrary.
 */
module Xf86I2C {
  import opened Bytes
  import opened Wire
  import opened RegisterSlave
  import opened Xf86Frames

  /** An I2CDevRec: slave address (low byte with the R/W bit clear) and timeouts in microseconds. */
  datatype I2CDev = I2CDev(slaveAddr: nat, bitTimeout: int, byteTimeout: int, acknTimeout: int, startTimeout: int)

  class I2CBus {
    const holdTime: int
    const riseFallTime: int
    /** The longest the register file holds SCL low, in microseconds. */
    const stretch: nat

    var scl: bool
    var sda: bool
    /** The register file on the bus, or None for an unknown peer. */
    var dev: Option<Slave>
    /** How much longer the register file holds SCL low. */
    var hold: nat
    /** A passive observer of the driven levels. */
    ghost var wire: Analyzer
    /** Every level of SCL that was sensed. */
    ghost var sensed: seq<bool>
    /** Microseconds since the master last moved a line, at least. */
    ghost var quiet: nat
    /** How long the last wait for SCL or an ACK took, at least. */
    ghost var waited: nat
    /** How often a line was moved at the wrong time. */
    ghost var faults: nat

    ghost predicate Valid()
      reads this
    {
      && holdTime > 0 && riseFallTime > 0
      && wire.line == Line(scl, sda)
      && (dev.None? ==> hold == 0)
      && (dev.Some? ==> dev.value.Valid() && hold <= stretch)
    }

    /** A register file that stretches the clock no longer than the timeouts allow. */
    ghost predicate InTime(timeout: int)
      reads this
    {
      dev.Some? ==> 0 < timeout && stretch <= timeout
    }

    ghost predicate Responsive(d: I2CDev)
      reads this
    {
      && InTime(holdTime) && InTime(d.bitTimeout) && InTime(d.byteTimeout) && InTime(d.startTimeout)
      && (dev.Some? ==> d.acknTimeout > 0)
    }

    /** Both lines driven high, nothing addressed. */
    ghost predicate AtRest()
      reads this
    {
      scl && sda && hold == 0 && (dev.Some? ==> dev.value.phase == Idle)
    }

    /**
     * The lines are about to move both at once, or SCL to fall before holdTime
     * or another edge to come before riseFallTime or holdTime is over.
     */
    ghost predicate Fault(newScl: bool, newSda: bool)
      reads this
    {
      || (newScl != scl && newSda != sda)
      || (scl && !newScl && quiet < holdTime)
      || ((newScl != scl || newSda != sda) && quiet < riseFallTime && quiet < holdTime)
    }

    /** The wait for the n-th clock of a byte took as long as the device may take. */
    ghost predicate Waited(d: I2CDev, n: int)
      reads this
    {
      waited >= if n == 1 then d.byteTimeout else d.bitTimeout
    }

    /** The register file is on the bus and SDA is released, and has been for holdTime. */
    ghost predicate Calm()
      reads this
    {
      dev.Some? && sda && quiet >= holdTime
    }

    /** The levels on the wires. */
    function Lines(): Line
      reads this
    {
      Line(scl && hold == 0, sda && !(dev.Some? && dev.value.Pulls()))
    }

    /** What the observer makes of the lines before they move. */
    ghost method Watch(newScl: bool, newSda: bool)
      modifies this`wire, this`quiet, this`faults
      ensures wire == old(wire).Feed(Line(newScl, newSda))
      ensures faults == old(faults) + if old(Fault(newScl, newSda)) then 1 else 0
      ensures quiet == if newScl == scl && newSda == sda then old(quiet) else 0
    {
      faults := faults + if Fault(newScl, newSda) then 1 else 0;
      quiet := if newScl == scl && newSda == sda then quiet else 0;
      wire := wire.Feed(Line(newScl, newSda));
    }

    method PutBits(newScl: bool, newSda: bool)
      requires Valid()
      modifies this`scl, this`sda, this`wire, this`dev, this`hold, this`quiet, this`faults
      ensures Valid() && scl == newScl && sda == newSda
      ensures faults == old(faults) + if old(Fault(newScl, newSda)) then 1 else 0
      ensures quiet == if newScl == old(scl) && newSda == old(sda) then old(quiet) else 0
      ensures wire == old(wire).Feed(Line(newScl, newSda))
      ensures dev.Some? == old(dev.Some?)
      ensures old(dev.Some?) ==>
                var now := Line(newScl && old(hold) == 0, newSda && !old(dev.value.Pulls()));
                dev.value == old(dev.value).See(old(Lines()), now)
      ensures newScl || !old(Lines()).scl ==> hold == old(hold)
    {
      var was := Lines();
      Watch(newScl, newSda);
      scl, sda := newScl, newSda;
      if dev.Some? {
        var now := Lines();
        dev.value.SeeKeepsValid(was, now);
        dev := Some(dev.value.See(was, now));
        if was.scl && !scl {
          var h: nat :| h <= stretch;
          hold := h;
        }
      }
    }

    method GetBits() returns (c: bool, d: bool)
      modifies this`sensed
      ensures dev.Some? ==> Line(c, d) == Lines()
      ensures sensed == old(sensed) + [c]
    {
      if dev.Some? {
        c, d := Lines().scl, Lines().sda;
      } else {
        c := *;
        d := *;
      }
      sensed := sensed + [c];
    }

    /** I2CUDelay: at least usec microseconds pass, and the slave may let go of SCL. */
    method Delay(usec: int)
      requires Valid() && usec > 0
      modifies this`hold, this`dev, this`quiet
      ensures Valid() && dev.Some? == old(dev.Some?) && quiet >= old(quiet) + usec
      ensures hold == 0 || hold + usec <= old(hold)
      ensures old(dev.Some?) ==>
                dev.value == if scl && old(hold) > 0 && hold == 0 then old(dev.value).Rise(old(Lines()).sda)
                             else old(dev.value)
    {
      var elapsed: int :| elapsed >= usec;
      var was := Lines();
      hold := if hold <= elapsed then 0 else hold - elapsed;
      quiet := quiet + elapsed;
      if dev.Some? {
        var now := Lines();
        dev.value.SeeKeepsValid(was, now);
        dev := Some(dev.value.See(was, now));
      }
    }

    /** The loop of I2CRaiseSCL and of I2CStart: SCL is sensed until it is high or the time is over. */
    method AwaitSCL(timeout: int) returns (ok: bool)
      requires Valid() && scl
      requires dev.Some? ==> timeout > 0 && (hold == 0 || hold + riseFallTime <= timeout)
      modifies this`hold, this`dev, this`quiet, this`waited, this`sensed
      ensures Valid() && dev.Some? == old(dev.Some?)
      ensures |sensed| >= |old(sensed)| && forall i :: |old(sensed)| <= i < |sensed| - 1 ==> !sensed[i]
      ensures ok == (|sensed| > |old(sensed)| && sensed[|sensed| - 1])
      ensures waited == quiet >= old(quiet) && (!ok ==> waited >= timeout)
      ensures old(dev.Some?) ==>
                && ok && hold == 0
                && dev.value == if old(hold) > 0 then old(dev.value).Rise(old(Lines()).sda) else old(dev.value)
    {
      ghost var d0, level := dev, Lines().sda;
      var i := timeout;
      while i > 0
        invariant Valid() && dev.Some? == d0.Some? && quiet >= old(quiet) && quiet + i >= timeout
        invariant |sensed| >= |old(sensed)| && forall j :: |old(sensed)| <= j < |sensed| ==> !sensed[j]
        invariant dev.Some? ==>
                    if hold == 0 then i > 0 && dev.value == if old(hold) > 0 then d0.value.Rise(level) else d0.value
                    else i >= hold + riseFallTime && dev == d0 && old(hold) > 0
      {
        var c, _ := GetBits();
        if c {
          break;
        }
        Delay(riseFallTime);
        i := i - riseFallTime;
      }
      waited := quiet;
      return i > 0;
    }

    /** I2CRaiseSCL, and the same opening of I2CStart. */
    method RaiseSCL(newSda: bool, timeout: int) returns (ok: bool)
      requires Valid() && InTime(timeout)
      modifies this
      ensures Valid() && scl && sda == newSda
      ensures wire == old(wire).Feed(Line(true, newSda))
      ensures dev.Some? == old(dev.Some?)
      ensures |sensed| >= |old(sensed)| && forall i :: |old(sensed)| <= i < |sensed| - 1 ==> !sensed[i]
      ensures ok == (|sensed| > |old(sensed)| && sensed[|sensed| - 1])
      ensures waited == quiet && (!ok ==> waited >= timeout)
      ensures quiet >= riseFallTime && faults == old(faults) + if old(Fault(true, newSda)) then 1 else 0
      ensures old(dev.Some?) ==> ok && hold == 0
      ensures old(dev.Some?) ==>
                dev.value == old(dev.value).See(old(Lines()), Line(true, newSda && !old(dev.value.Pulls())))
    {
      ghost var d0, was := dev, Lines();
      hide Fault, Recording.Feed, Slave.Valid, Slave.Pulls;
      PutBits(true, newSda);
      if d0.Some? && !was.scl {
        d0.value.RiseKeepsValid(newSda && !d0.value.Pulls());
      }
      Delay(riseFallTime);
      ok := AwaitSCL(timeout);
    }

    method Start(timeout: int) returns (ok: bool)
      requires Valid() && InTime(timeout)
      requires scl ==> sda
      requires dev.Some? ==> !dev.value.Pulls()
      modifies this
      ensures Valid() && dev.Some? == old(dev.Some?)
      ensures wire.conditions == if ok then old(wire.conditions) + [Symbol.Start]
                                           else old(wire.conditions)
      ensures ok ==> !scl && wire.symbols == old(wire.symbols) + [Symbol.Start]
      ensures !ok ==> scl && sda && wire.symbols == old(wire.symbols) && waited >= timeout
      ensures old(sda) && old(quiet) >= holdTime ==> faults == old(faults) && (ok ==> !sda && quiet >= holdTime)
      ensures old(dev.Some?) ==> ok && dev.value == old(dev.value).Addressed()
    {
      ok := RaiseSCL(true, timeout);
      if ok {
        PutBits(true, false);
        Delay(holdTime);
        PutBits(false, false);
        Delay(holdTime);
        assert wire.symbols == old(wire.symbols) + [Symbol.Start];
      }
    }

    method Stop()
      requires Valid() && InTime(holdTime)
      requires dev.Some? && scl ==> dev.value.phase == Idle
      modifies this
      ensures Valid() && scl && sda && dev.Some? == old(dev.Some?)
      ensures wire.conditions == old(wire.conditions) + [Symbol.Stop]
      ensures !old(scl) ==> wire.symbols == old(wire.symbols) + [Symbol.Stop]
      ensures quiet >= holdTime
      ensures old(quiet) >= holdTime ==> faults == old(faults) + if old(scl && sda) then 1 else 0
      ensures old(dev.Some?) ==> hold == 0
      ensures old(dev.Some?) && !old(dev.value.Pulls()) ==> dev.value == old(dev.value).InPhase(Idle)
      ensures old(dev.Some?) && old(dev.value.Pulls()) ==> dev.value == old(dev.value)
    {
      PutBits(false, false);
      Delay(riseFallTime);
      PutBits(true, false);
      Delay(holdTime);
      PutBits(true, true);
      Delay(holdTime);
    }

    method WriteBit(bit: bool, timeout: int) returns (ok: bool)
      requires Valid() && InTime(timeout) && !scl
      modifies this
      ensures Valid() && !scl && dev.Some? == old(dev.Some?)
      ensures wire.symbols == old(wire.symbols) + [Bit(bit)] && wire.conditions == old(wire.conditions)
      ensures sda == bit && quiet >= holdTime && (old(quiet) >= holdTime ==> faults == old(faults))
      ensures !ok ==> waited >= timeout
      ensures old(dev.Some?) ==> ok && dev.value == old(dev.value).Pulse(bit && !old(dev.value).Pulls())
    {
      PutBits(false, bit);
      Delay(riseFallTime);
      ok := RaiseSCL(bit, timeout);
      Delay(holdTime);
      PutBits(false, bit);
      Delay(holdTime);
    }

    method ReadBit(timeout: int) returns (ok: bool, level: bool)
      requires Valid() && InTime(timeout) && !scl
      modifies this
      ensures Valid() && !scl && dev.Some? == old(dev.Some?)
      ensures wire.symbols == old(wire.symbols) + [Bit(true)] && wire.conditions == old(wire.conditions)
      ensures sda && quiet >= holdTime && (!ok ==> waited >= timeout)
      ensures old(sda) && (old(quiet) >= holdTime || old(quiet) >= riseFallTime) ==> faults == old(faults)
      ensures old(dev.Some?) ==>
                && ok && level == !old(dev.value).Pulls()
                && dev.value == old(dev.value).Pulse(level)
    {
      if dev.Some? {
        dev.value.RiseKeepsValid(!dev.value.Pulls());
      }
      ok := RaiseSCL(true, timeout);
      Delay(holdTime);
      var _, d := GetBits();
      level := d;
      PutBits(false, true);
      Delay(holdTime);
    }

    /** The slave, if there is one, is at a byte boundary and takes the byte to mean `role`. */
    ghost predicate Hears(role: Role)
      reads this
    {
      dev.Some? && dev.value.phase == Receiving(role, 0, 0)
    }

    ghost predicate Deaf()
      reads this
    {
      dev.Some? && dev.value.phase == Idle
    }

    /** The eight data bits of I2CPutByte. */
    method PutEight(d: I2CDev, data: Byte, ghost role: Role) returns (ok: bool)
      requires Valid() && Responsive(d) && !scl
      modifies this
      ensures Valid() && !scl && dev.Some? == old(dev.Some?)
      ensures wire.conditions == old(wire.conditions)
      ensures ok ==> wire.symbols == old(wire.symbols) + TopBits(data, 8)
      ensures !ok ==> var n := |wire.symbols| - |old(wire.symbols)|; 1 <= n <= 8 && Waited(d, n)
      ensures old(quiet) >= holdTime ==> quiet >= holdTime && faults == old(faults)
      ensures old(Deaf()) ==> ok && dev == old(dev)
      ensures old(Hears(role)) ==> ok && dev.value == old(dev.value).Judge(role, data)
    {
      ghost var start, d0 := wire.symbols, dev;
      ghost var hears, deaf := Hears(role), Deaf();
      hide TopBits, BitAt, Slave.Pulse, Slave.Pulls, Slave.MidByte, Slave.Judge;
      NoTopBits(start, data);
      if hears {
        MidByteEnds(d0.value, role, data);
      }
      var i := 7;
      while i >= 0
        invariant -1 <= i <= 7
        invariant Valid() && !scl && dev.Some? == d0.Some?
        invariant wire.symbols == start + TopBits(data, 7 - i) && wire.conditions == old(wire.conditions)
        invariant old(quiet) >= holdTime ==> quiet >= holdTime && faults == old(faults)
        invariant deaf ==> dev == d0
        invariant hears ==> dev.value == d0.value.MidByte(role, data, 7 - i)
      {
        if hears {
          ReceivePulse(d0.value, role, data, 7 - i);
        }
        if deaf {
          IdlePulse(d0.value, BitAt(data, i));
        }
        TopBitsStep(start, data, 7 - i);
        ok := WriteBit(BitAt(data, i), if i == 7 then d.byteTimeout else d.bitTimeout);
        if !ok {
          return;
        }
        i := i - 1;
      }
      ok := true;
    }

    /** Both lines as I2CPutByte and I2CGetByte leave them to the slave between two clocks. */
    method Release()
      requires Valid() && !scl
      modifies this
      ensures Valid() && !scl && sda && dev == old(dev) && hold <= old(hold) && quiet >= riseFallTime
      ensures wire.symbols == old(wire.symbols) && wire.conditions == old(wire.conditions)
      ensures old(quiet) >= holdTime ==> faults == old(faults)
    {
      PutBits(false, true);
      Delay(riseFallTime);
    }

    /** The ninth clock of I2CPutByte: SDA released, polled for the slave's ACK while SCL is high. */
    method AwaitAck(d: I2CDev) returns (ok: bool)
      requires Valid() && Responsive(d) && !scl
      requires dev.Some? ==> dev.value.phase.Acking? || dev.value.phase == Idle
      modifies this
      ensures Valid() && !scl && dev.Some? == old(dev.Some?)
      ensures wire.symbols == old(wire.symbols) + [Bit(true)] && wire.conditions == old(wire.conditions)
      ensures sda && quiet >= holdTime && (ok || dev.Some? ==> old(quiet) >= holdTime ==> faults == old(faults))
      ensures old(dev.Some?) && !ok ==> waited >= d.acknTimeout
      ensures old(dev.Some?) ==> ok == old(dev.value).Pulls() && dev.value == old(dev.value).Fall()
    {
      hide Slave.Fall, Slave.Pulls;
      ghost var d0 := dev;
      Release();
      ok := RaiseSCL(true, holdTime);
      ghost var raised := wire;
      if ok {
        var i := d.acknTimeout;
        while i > 0
          invariant Valid() && scl && sda && dev == d0 && wire == raised
          invariant (i == d.acknTimeout || quiet >= holdTime) && quiet + i >= d.acknTimeout
          invariant old(quiet) >= holdTime ==> faults == old(faults)
          invariant dev.Some? ==> hold == 0 && d.acknTimeout > 0 && (dev.value.Pulls() ==> i > 0)
        {
          Delay(holdTime);
          var _, level := GetBits();
          if !level {
            break;
          }
          i := i - holdTime;
        }
        ok := i > 0;
        waited := quiet;
      }
      PutBits(false, true);
      Delay(holdTime);
    }

    method PutByte(d: I2CDev, data: Byte, ghost role: Role) returns (ok: bool)
      requires Valid() && Responsive(d) && !scl
      requires dev.Some? ==> Hears(role) || Deaf()
      modifies this
      ensures Valid() && !scl && dev.Some? == old(dev.Some?)
      ensures wire.conditions == old(wire.conditions)
      ensures ok ==> wire.symbols == old(wire.symbols) + SentByte(data)
      ensures !ok ==> var n := |wire.symbols| - |old(wire.symbols)|; 1 <= n <= 9 && (n <= 8 ==> Waited(d, n))
      ensures old(dev.Some?) && !ok ==> waited >= d.acknTimeout
      ensures old(dev.Some?) && old(quiet) >= holdTime ==> Calm() && faults == old(faults)
      ensures old(Deaf()) ==> !ok && dev == old(dev)
      ensures old(Hears(role)) ==>
                var s := old(dev.value);
                && ok == s.Accepts(role, data)
                && dev.value == if ok then s.Commit(role, data) else s.InPhase(Idle)
    {
      ok := PutEight(d, data, role);
      if ok {
        ok := AwaitAck(d);
        assert wire.symbols == old(wire.symbols) + SentByte(data);
      }
    }

    /** The slave is about to send a byte. */
    ghost predicate Talks()
      reads this
    {
      dev.Some? && dev.value.phase.Sending? && dev.value.phase.sent == 0
    }

    /** The eight data bits of I2CGetByte. */
    method GetEight(d: I2CDev) returns (ok: bool, data: Byte)
      requires Valid() && Responsive(d) && !scl
      modifies this
      ensures Valid() && !scl && dev.Some? == old(dev.Some?)
      ensures wire.conditions == old(wire.conditions)
      ensures ok ==> wire.symbols == old(wire.symbols) + Released(8)
      ensures !ok ==> var n := |wire.symbols| - |old(wire.symbols)|; 1 <= n <= 8 && Waited(d, n)
      ensures old(quiet) >= holdTime ==> quiet >= holdTime && faults == old(faults)
      ensures old(Talks()) ==>
                ok && data == old(dev.value.phase.value) && dev.value == old(dev.value).InPhase(Listening)
    {
      ghost var start, d0, talks := wire.symbols, dev, Talks();
      ghost var value: Byte := if talks then d0.value.phase.value else 0;
      hide Upper, Released, BitAt, Pow2, Slave.Pulse, Slave.Pulls;
      Release();
      data := 0;
      UpperEnds(value);
      Pow2Of8();
      ReleasedStep(start, 0);
      var i := 7;
      while i >= 0
        invariant -1 <= i <= 7
        invariant Valid() && !scl && dev.Some? == d0.Some?
        invariant wire.symbols == start + Released(7 - i) && wire.conditions == old(wire.conditions)
        invariant old(quiet) >= holdTime ==>
                    sda && faults == old(faults) && (quiet >= holdTime || (i == 7 && quiet >= riseFallTime))
        invariant data + Pow2(i + 1) <= 256
        invariant talks ==> data == Upper(value, i + 1)
        invariant talks ==> dev.value == d0.value.InPhase(if i >= 0 then Sending(value, 7 - i) else Listening)
      {
        if talks {
          SendPulse(d0.value, value, 7 - i);
        }
        var level;
        ok, level := ReadBit(if i == 7 then d.byteTimeout else d.bitTimeout);
        ReleasedStep(start, 7 - i);
        if !ok {
          return;
        }
        UpperStep(value, i);
        // the bit is still clear, so or-ing it in is adding it
        data := data + if level then Pow2(i) else 0;
        i := i - 1;
      }
      ok := true;
    }

    method GetByte(d: I2CDev, last: bool) returns (ok: bool, data: Byte)
      requires Valid() && Responsive(d) && !scl
      modifies this
      ensures Valid() && !scl && dev.Some? == old(dev.Some?)
      ensures wire.conditions == old(wire.conditions)
      ensures ok ==> wire.symbols == old(wire.symbols) + ReceivedByte(last)
      ensures !ok ==> var n := |wire.symbols| - |old(wire.symbols)|; 1 <= n <= 9 && Waited(d, n)
      ensures old(quiet) >= holdTime ==> quiet >= holdTime && faults == old(faults) && (ok ==> sda == last)
      ensures old(Talks()) ==>
                && ok && data == old(dev.value.phase.value)
                && dev.value == if last then old(dev.value).InPhase(Idle) else old(dev.value).Fetch()
    {
      ok, data := GetEight(d);
      if ok {
        ok := WriteBit(last, d.bitTimeout);
        assert wire.symbols == old(wire.symbols) + ReceivedByte(last);
      }
    }

    method Address(d: I2CDev, addr: nat) returns (ok: bool)
      requires Valid() && Responsive(d) && (scl ==> sda)
      requires dev.Some? ==> !dev.value.Pulls() && !Extended(addr)
      modifies this
      ensures Valid() && dev.Some? == old(dev.Some?)
      ensures if ok then !scl else scl && sda
      ensures ok ==> wire.symbols == old(wire.symbols) + [Symbol.Start] + AddressBytes(addr)
      ensures ok ==> wire.conditions == old(wire.conditions) + [Symbol.Start]
      ensures !ok ==> FailedMessage(old(wire.conditions), wire.conditions)
      ensures old(Calm()) ==> Calm() && faults == old(faults)
      ensures old(dev.Some?) ==>
                var s := old(dev.value);
                && ok == (s.Accepts(Role.Address, addr % 256) && s.Ready())
                && dev.value == if ok then s.Commit(Role.Address, addr % 256) else s.InPhase(Idle)
      ensures old(dev.Some?) && !ok ==>
                hold == 0 && wire.conditions == old(wire.conditions) + [Symbol.Start, Symbol.Stop]
    {
      hide SentByte, AddressBytes, Extended;
      AddressSteps(wire.symbols + [Symbol.Start], addr);
      ExtendedIs(addr);
      ok := Start(d.startTimeout);
      if ok {
        ok := PutByte(d, addr % 256, Role.Address);
        if ok {
          if addr % 256 / 8 != 30 && addr % 256 / 2 != 0 {
            return;
          }
          ok := PutByte(d, addr / 256 % 256, Role.Address);
          if ok {
            return;
          }
        }
        Stop();
      }
    }

    /** How a message ended: on the wire and open, refused at its address, or broken off after it. */
    ghost predicate Outcome(ok: bool, began: bool, before: seq<Symbol>)
      reads this
    {
      && (ok ==> began)
      && (began ==> !scl && wire.conditions == before + [Symbol.Start])
      && (!began ==>
            && scl && sda && FailedMessage(before, wire.conditions)
            && (dev.Some? ==> hold == 0 && wire.conditions == before + [Symbol.Start, Symbol.Stop]))
    }

    /** The device addressed is the register file. */
    ghost predicate Hit(d: I2CDev)
      reads this
    {
      dev.Some? && dev.value.addr == d.slaveAddr % 256 / 2
    }

    /** It answers a START that comes now. */
    ghost predicate Answers(d: I2CDev)
      reads this
    {
      Hit(d) && dev.value.Ready()
    }

    /** The write loop, from the slave's sub-address byte on. */
    method PutAll(d: I2CDev, bs: seq<Byte>, ghost s: Slave) returns (ok: bool)
      requires Valid() && Responsive(d) && !scl
      requires dev.Some? ==> s.Valid() && dev.value == MidWrite(s, bs, 0)
      modifies this
      ensures Valid() && !scl && dev.Some? == old(dev.Some?)
      ensures wire.conditions == old(wire.conditions)
      ensures ok ==> wire.symbols == old(wire.symbols) + SentBytes(bs)
      ensures old(Calm()) ==> Calm() && faults == old(faults)
      ensures old(dev.Some?) ==> ok && dev.value == MidWrite(s, bs, |bs|)
    {
      ok := true;
      var k := 0;
      while k < |bs|
        invariant 0 <= k <= |bs|
        invariant ok && Valid() && !scl && dev.Some? == old(dev.Some?)
        invariant wire.symbols == old(wire.symbols) + SentBytes(bs[..k])
        invariant wire.conditions == old(wire.conditions)
        invariant dev.Some? ==> dev.value == MidWrite(s, bs, k)
        invariant old(Calm()) ==> Calm() && faults == old(faults)
      {
        ok := PutNext(d, bs, k, s);
        if !ok {
          return;
        }
        SentBytesStep(old(wire.symbols), bs, k);
        k := k + 1;
      }
      assert bs[..k] == bs;
    }

    /** One round of that loop. */
    method PutNext(d: I2CDev, bs: seq<Byte>, k: nat, ghost s: Slave) returns (ok: bool)
      requires Valid() && Responsive(d) && !scl && k < |bs|
      requires dev.Some? ==> s.Valid() && dev.value == MidWrite(s, bs, k)
      modifies this
      ensures Valid() && !scl && dev.Some? == old(dev.Some?) && wire.conditions == old(wire.conditions)
      ensures ok ==> wire.symbols == old(wire.symbols) + SentByte(bs[k])
      ensures old(Calm()) ==> Calm() && faults == old(faults)
      ensures old(dev.Some?) ==> ok && dev.value == MidWrite(s, bs, k + 1)
    {
      if dev.Some? {
        WriteStep(s, bs, k);
      }
      ok := PutByte(d, bs[k], if k == 0 then SubAddress else Data);
    }

    /** One round of the read loop. */
    method GetNext(d: I2CDev, n: nat, k: nat, ghost s: Slave) returns (ok: bool, b: Byte)
      requires Valid() && Responsive(d) && !scl && k < n
      requires dev.Some? ==> s.Valid() && dev.value == MidRead(s, k)
      modifies this
      ensures Valid() && !scl && dev.Some? == old(dev.Some?) && wire.conditions == old(wire.conditions)
      ensures ok ==> wire.symbols == old(wire.symbols) + ReceivedByte(k + 1 == n)
      ensures old(quiet) >= holdTime ==> quiet >= holdTime && faults == old(faults) && (ok && k + 1 == n ==> sda)
      ensures old(dev.Some?) ==>
                && ok && b == Window(s.regs, s.ptr, k + 1)[k]
                && dev.value == if k + 1 < n then MidRead(s, k + 1) else Advanced(s, n).InPhase(Idle)
    {
      if dev.Some? {
        ReadStep(s, k);
      }
      ok, b := GetByte(d, k == n - 1);
    }

    /** The read loop: every byte but the last is acknowledged. */
    method GetAll(d: I2CDev, n: nat, ghost s: Slave) returns (ok: bool, rs: seq<Byte>)
      requires Valid() && Responsive(d) && !scl && n > 0
      requires dev.Some? ==> s.Valid() && dev.value == MidRead(s, 0)
      modifies this
      ensures Valid() && !scl && dev.Some? == old(dev.Some?)
      ensures wire.conditions == old(wire.conditions)
      ensures ok ==> |rs| == n && wire.symbols == old(wire.symbols) + ReceivedBytes(n, n)
      ensures old(Calm()) ==> Calm() && faults == old(faults)
      ensures old(dev.Some?) ==> ok && rs == Window(s.regs, s.ptr, n) && dev.value == Advanced(s, n).InPhase(Idle)
    {
      hide ReceivedBytes, Window, MidRead;
      ok, rs := true, [];
      NoBytes(n);
      var k := 0;
      while k < n
        invariant 0 <= k <= n && |rs| == k
        invariant ok && Valid() && !scl && dev.Some? == old(dev.Some?)
        invariant wire.symbols == old(wire.symbols) + ReceivedBytes(k, n)
        invariant wire.conditions == old(wire.conditions)
        invariant dev.Some? ==> rs == Window(s.regs, s.ptr, k)
        invariant old(Calm()) ==> quiet >= holdTime && faults == old(faults) && (k == n ==> sda)
        invariant dev.Some? ==> dev.value == if k < n then MidRead(s, k) else Advanced(s, n).InPhase(Idle)
      {
        var b;
        ok, b := GetNext(d, n, k, s);
        if !ok {
          return;
        }
        ReceivedBytesStep(old(wire.symbols), k, n);
        if dev.Some? {
          WindowStep(s.regs, s.ptr, k);
        }
        rs := rs + [b];
        k := k + 1;
      }
    }

    /** The first step of xf86I2CWriteRead. */
    method WriteMessage(d: I2CDev, bs: seq<Byte>) returns (ok: bool, began: bool)
      requires Valid() && Responsive(d) && (scl ==> sda) && |bs| > 0
      requires dev.Some? ==> !dev.value.Pulls() && !Extended(d.slaveAddr)
      modifies this
      ensures Valid() && dev.Some? == old(dev.Some?) && Outcome(ok, began, old(wire.conditions))
      ensures ok ==> wire.symbols == WriteFrame(old(wire.symbols), d.slaveAddr, bs)
      ensures old(Calm()) ==> Calm() && faults == old(faults)
      ensures old(dev.Some?) ==>
                if old(Answers(d)) then ok && dev.value == MidWrite(old(dev.value), bs, |bs|)
                else !began && dev.value == old(dev.value).InPhase(Idle)
    {
      ghost var s := if dev.Some? then dev.value else Slave(0, [], 0, Idle, true);
      DirectionBit(d.slaveAddr);
      began := Address(d, WriteAddress(d.slaveAddr));
      ok := began;
      if began {
        ok := PutAll(d, bs, s);
      }
    }

    /** The second step of xf86I2CWriteRead. */
    method ReadMessage(d: I2CDev, n: nat) returns (ok: bool, began: bool, rs: seq<Byte>)
      requires Valid() && Responsive(d) && (scl ==> sda) && n > 0
      requires dev.Some? ==> !dev.value.Pulls() && !Extended(d.slaveAddr)
      modifies this
      ensures Valid() && dev.Some? == old(dev.Some?) && Outcome(ok, began, old(wire.conditions))
      ensures ok ==> |rs| == n && wire.symbols == ReadFrame(old(wire.symbols), d.slaveAddr, n)
      ensures old(Calm()) ==> Calm() && faults == old(faults)
      ensures old(dev.Some?) ==>
                var s := old(dev.value);
                if old(Answers(d)) then ok && rs == Window(s.regs, s.ptr, n) && dev.value == Advanced(s, n).InPhase(Idle)
                else !began && dev.value == s.InPhase(Idle)
    {
      ghost var s := if dev.Some? then dev.value else Slave(0, [], 0, Idle, true);
      rs := [];
      DirectionBit(d.slaveAddr);
      began := Address(d, ReadAddress(d.slaveAddr));
      ok := began;
      if began {
        ok, rs := GetAll(d, n, s);
      }
    }

    /** xf86I2CWriteRead up to the read; `starts` counts the STARTs that stand. */
    method WriteHalf(d: I2CDev, bs: seq<Byte>) returns (ok: bool, starts: nat)
      requires Valid() && Responsive(d) && AtRest()
      requires dev.Some? ==> !Extended(d.slaveAddr)
      modifies this
      ensures Valid() && dev.Some? == old(dev.Some?) && (ok ==> starts == if bs == [] then 0 else 1)
      ensures if starts == 0 then AtRest() && FailedMessage(old(wire.conditions), wire.conditions)
              else starts == 1 && !scl && wire.conditions == old(wire.conditions) + [Symbol.Start]
      ensures bs == [] ==> ok && wire.conditions == old(wire.conditions)
      ensures ok ==> wire.symbols == WriteFrame(old(wire.symbols), d.slaveAddr, bs)
      ensures old(Calm()) ==> Calm() && faults == old(faults)
      ensures old(dev.Some?) ==>
                if bs == [] then dev == old(dev)
                else if old(Hit(d)) then
                  && ok && !dev.value.Pulls() && dev.value.phase != Idle
                  && dev.value.InPhase(Idle) == Written(old(dev.value), bs)
                else !ok && starts == 0 && dev == old(dev)
    {
      ok, starts := true, 0;
      if |bs| > 0 {
        var began;
        ok, began := WriteMessage(d, bs);
        if began {
          starts := starts + 1;
        }
        assert bs[..|bs|] == bs;
      }
    }

    /** The rest of xf86I2CWriteRead but for the STOP. */
    method ReadHalf(d: I2CDev, n: nat) returns (ok: bool, starts: nat, rs: seq<Byte>)
      requires Valid() && Responsive(d) && (scl ==> sda)
      requires dev.Some? ==> !dev.value.Pulls() && !Extended(d.slaveAddr)
      modifies this
      ensures Valid() && dev.Some? == old(dev.Some?) && starts <= 1
      ensures n == 0 ==> ok && starts == 0 && rs == [] && scl == old(scl) && sda == old(sda) && hold == old(hold)
                         && wire == old(wire) && dev == old(dev)
      ensures n > 0 ==> Outcome(ok, starts == 1, old(wire.conditions))
      ensures ok ==> |rs| == n && wire.symbols == ReadFrame(old(wire.symbols), d.slaveAddr, n)
      ensures old(Calm()) ==> Calm() && faults == old(faults)
      ensures old(dev.Some?) && n > 0 ==>
                var s := old(dev.value);
                if old(Answers(d)) then ok && rs == Window(s.regs, s.ptr, n) && dev.value == Advanced(s, n).InPhase(Idle)
                else !ok && starts == 0 && dev.value == s.InPhase(Idle)
    {
      ok, starts, rs := true, 0, [];
      if n > 0 {
        var began;
        ok, began, rs := ReadMessage(d, n);
        if began {
          starts := starts + 1;
        }
      }
    }

    /** A second START is called for that the register file does not answer. */
    ghost predicate NoRestart(d: I2CDev, bs: seq<Byte>, n: nat)
      reads this
    {
      Hit(d) && bs != [] && n > 0 && !dev.value.restarts
    }

    /**
     * xf86I2CWriteRead: the read buffer is what was received before the
     * transfer ended. It can be doubly stopped only with bytes to write and
     * bytes to read, and is exactly when the second message is not answered.
     */
    method WriteRead(d: I2CDev, bs: seq<Byte>, n: nat) returns (ok: bool, rs: seq<Byte>)
      requires Valid() && Responsive(d) && AtRest()
      requires dev.Some? ==> !Extended(d.slaveAddr)
      modifies this
      ensures Valid() && AtRest() && dev.Some? == old(dev.Some?)
      ensures ok ==> |rs| == n && wire.symbols == Frame(old(wire.symbols), d.slaveAddr, bs, n)
      ensures ok ==> old(wire.symbols) <= wire.symbols && FrameAt(wire.symbols, |old(wire.symbols)|, d.slaveAddr, bs, n)
      ensures ok ==> !DoublyStopped(old(wire.conditions), wire.conditions)
      ensures !ok ==> if bs == [] || n == 0 then FailedMessage(old(wire.conditions), wire.conditions)
                      else FailedTransfer(old(wire.conditions), wire.conditions)
      ensures old(dev.Some?) ==>
                (DoublyStopped(old(wire.conditions), wire.conditions) <==> old(NoRestart(d, bs, n)))
      ensures old(Calm()) ==>
                && Calm()
                && faults == old(faults) + if DoublyStopped(old(wire.conditions), wire.conditions) then 1 else 0
      ensures old(dev.Some?) ==>
                var s := old(dev.value);
                if bs == [] && n == 0 then ok && dev.value == s
                else if old(Hit(d)) then
                  var w := Written(s, bs);
                  if old(NoRestart(d, bs, n)) then !ok && dev.value == w
                  else ok && dev.value == Advanced(w, n) && rs == Window(w.regs, w.ptr, n)
                else !ok && dev.value == s
    {
      hide FrameAt, WriteFrame, ReadFrame, Window, Written, FailedMessage, FailedTransfer, DoublyStopped;
      if dev.Some? {
        NothingMoved(dev.value, bs);
      }
      EmptyFrame(wire.symbols, d.slaveAddr);
      FrameReads(wire.symbols, d.slaveAddr, bs, n);
      ghost var before := wire.conditions;
      rs := [];
      var starts, more := 0, 0;
      ok, starts := WriteHalf(d, bs);
      ghost var mid, wrote := wire.conditions, ok;
      if ok {
        ok, more, rs := ReadHalf(d, n);
      }
      ghost var last := wire.conditions;
      if starts + more > 0 {
        Stop();
      }
      Closed(before, mid, last, wire.conditions, bs == [], n == 0, wrote, starts, ok, more);
    }

    /**
     * xf86I2CProbeAddress. A device that answers a read probe is already
     * driving its first data bit when the STOP comes: if that bit is 0 the
     * STOP is lost on it and SDA stays low.
     */
    method ProbeAddress(d: I2CDev, addr: nat) returns (ok: bool)
      requires Valid() && Responsive(d) && AtRest()
      requires dev.Some? ==> !Extended(addr)
      modifies this
      ensures Valid() && scl && sda && dev.Some? == old(dev.Some?)
      ensures ok ==> wire.conditions == old(wire.conditions) + [Symbol.Start, Symbol.Stop]
      ensures !ok ==> FailedMessage(old(wire.conditions), wire.conditions)
      ensures old(Calm()) ==> Calm() && faults == old(faults)
      ensures old(dev.Some?) ==> dev.value.regs == old(dev.value.regs)
      ensures old(dev.Some?) ==>
                var s, b := old(dev.value), addr % 256;
                && ok == (b / 2 == s.addr)
                && AtRest() == Lines().sda == !(ok && b % 2 == 1 && !BitAt(s.regs[s.ptr], 7))
    {
      ghost var s := if dev.Some? then dev.value else Slave(0, [], 0, Idle, true);
      ghost var low := dev.Some? && s.Commit(Role.Address, addr % 256).Pulls();
      if dev.Some? {
        AddressedPulls(s, addr % 256);
      }
      ok := Address(d, addr);
      assert dev.Some? ==> dev.value.regs == s.regs && (ok ==> dev.value.Pulls() == low);
      if ok {
        Stop();
      }
      assert dev.Some? ==> dev.value.regs == s.regs && AtRest() == Lines().sda == !(ok && low);
    }

    /** xf86I2CReadStatus */
    method ReadStatus(d: I2CDev) returns (ok: bool, b: Byte)
      requires Valid() && Responsive(d) && AtRest()
      requires dev.Some? ==> !Extended(d.slaveAddr)
      modifies this
      ensures Valid() && AtRest() && dev.Some? == old(dev.Some?)
      ensures ok ==> wire.symbols == Frame(old(wire.symbols), d.slaveAddr, [], 1)
      ensures !ok ==> FailedMessage(old(wire.conditions), wire.conditions)
      ensures old(dev.Some?) ==> ok == old(Hit(d))
      ensures old(dev.Some?) && ok ==>
                b == old(dev.value.regs[dev.value.ptr]) && dev.value == Advanced(old(dev.value), 1)
    {
      if dev.Some? {
        WindowStart(dev.value.regs, dev.value.ptr, 1);
      }
      var rs;
      ok, rs := WriteRead(d, [], 1);
      b := if ok then rs[0] else 0;
    }

    /** xf86I2CReadBytes; with n == 1 xf86I2CReadByte. */
    method ReadBytes(d: I2CDev, sub: Byte, n: nat) returns (ok: bool, rs: seq<Byte>)
      requires Valid() && Responsive(d) && AtRest()
      requires dev.Some? ==> !Extended(d.slaveAddr)
      modifies this
      ensures Valid() && AtRest() && dev.Some? == old(dev.Some?)
      ensures ok ==> |rs| == n && wire.symbols == Frame(old(wire.symbols), d.slaveAddr, [sub], n)
      ensures !ok ==> FailedTransfer(old(wire.conditions), wire.conditions)
      ensures old(dev.Some?) ==>
                && ok == (old(Hit(d)) && (n == 0 || old(dev.value.restarts)))
                && dev.value.regs == old(dev.value.regs) && dev.value.restarts == old(dev.value.restarts)
      ensures old(dev.Some?) && ok ==> rs == Window(old(dev.value.regs), sub, n)
    {
      if dev.Some? {
        PointAt(dev.value, sub);
      }
      ok, rs := WriteRead(d, [sub], n);
    }

    /** xf86I2CReadWord: high byte first. */
    method ReadWord(d: I2CDev, sub: Byte) returns (ok: bool, word: nat)
      requires Valid() && Responsive(d) && AtRest()
      requires dev.Some? ==> !Extended(d.slaveAddr)
      modifies this
      ensures Valid() && AtRest() && dev.Some? == old(dev.Some?) && word < 0x10000
      ensures ok ==> wire.symbols == Frame(old(wire.symbols), d.slaveAddr, [sub], 2)
      ensures !ok ==> FailedTransfer(old(wire.conditions), wire.conditions)
      ensures old(dev.Some?) ==>
                ok == (old(Hit(d)) && old(dev.value.restarts)) && dev.value.regs == old(dev.value.regs)
      ensures old(dev.Some?) && ok ==> word == Word(old(dev.value.regs)[sub], old(dev.value.regs)[Slot(sub, 1)])
    {
      if dev.Some? {
        WindowStart(dev.value.regs, sub, 2);
      }
      var rs;
      ok, rs := ReadBytes(d, sub, 2);
      word := if ok then Word(rs[0], rs[1]) else 0;
    }

    /** xf86I2CWriteByte */
    method WriteByte(d: I2CDev, sub: Byte, b: Byte) returns (ok: bool)
      requires Valid() && Responsive(d) && AtRest()
      requires dev.Some? ==> !Extended(d.slaveAddr)
      modifies this
      ensures Valid() && AtRest() && dev.Some? == old(dev.Some?)
      ensures ok ==> wire.symbols == Frame(old(wire.symbols), d.slaveAddr, [sub, b], 0)
      ensures !ok ==> FailedMessage(old(wire.conditions), wire.conditions)
      ensures old(dev.Some?) ==>
                && ok == old(Hit(d)) && dev.value.addr == old(dev.value.addr) && dev.value.restarts == old(dev.value.restarts)
      ensures old(dev.Some?) ==>
                dev.value.regs == if ok then old(dev.value.regs)[sub := b] else old(dev.value.regs)
    {
      if dev.Some? {
        WriteOne(dev.value, sub, b);
      }
      var none;
      ok, none := WriteRead(d, [sub, b], 0);
    }

    /** xf86I2CWriteWord: high byte first. */
    method WriteWord(d: I2CDev, sub: Byte, word: nat) returns (ok: bool)
      requires word < 0x10000
      requires Valid() && Responsive(d) && AtRest()
      requires dev.Some? ==> !Extended(d.slaveAddr)
      modifies this
      ensures Valid() && AtRest() && dev.Some? == old(dev.Some?)
      ensures ok ==> wire.symbols == Frame(old(wire.symbols), d.slaveAddr, [sub, word / 256, word % 256], 0)
      ensures !ok ==> FailedMessage(old(wire.conditions), wire.conditions)
      ensures old(dev.Some?) ==> ok == old(Hit(d)) && dev.value.addr == old(dev.value.addr)
      ensures old(dev.Some?) ==>
                dev.value.regs == if ok then Stored(old(dev.value.regs), sub, [word / 256, word % 256])
                                  else old(dev.value.regs)
    {
      var bs: seq<Byte> := [sub, word / 256, word % 256];
      assert bs[1..] == [word / 256, word % 256];
      var none;
      ok, none := WriteRead(d, bs, 0);
    }

    /** xf86I2CWriteBytes */
    method WriteBytes(d: I2CDev, sub: Byte, bs: seq<Byte>) returns (ok: bool)
      requires Valid() && Responsive(d) && AtRest()
      requires dev.Some? ==> !Extended(d.slaveAddr)
      modifies this
      ensures Valid() && AtRest() && dev.Some? == old(dev.Some?)
      ensures ok ==> wire.symbols == Frame(old(wire.symbols), d.slaveAddr, if bs == [] then [] else [sub] + bs, 0)
      ensures old(Calm()) ==> Calm() && faults == old(faults)
      ensures !ok ==> FailedMessage(old(wire.conditions), wire.conditions)
      ensures old(dev.Some?) ==>
                if bs == [] then ok && dev == old(dev)
                else ok == old(Hit(d)) && dev.value == if ok then Written(old(dev.value), [sub] + bs) else old(dev.value)
    {
      ok := true;
      if |bs| > 0 {
        var began;
        ghost var before := wire.conditions;
        ok, began := WriteMessage(d, [sub] + bs);
        assert ([sub] + bs)[..|bs| + 1] == [sub] + bs;
        if began {
          Stop();
          assert wire.conditions == before + [Symbol.Start, Symbol.Stop];
        }
      }
    }

    /** One round of the loop in xf86I2CWriteVec. */
    method WritePair(d: I2CDev, sub: Byte, value: Byte) returns (ok: bool, began: bool)
      requires Valid() && Responsive(d) && (scl ==> sda)
      requires dev.Some? ==> !dev.value.Pulls() && !Extended(d.slaveAddr)
      modifies this
      ensures Valid() && dev.Some? == old(dev.Some?) && Outcome(ok, began, old(wire.conditions))
      ensures ok ==> wire.symbols == WriteFrame(old(wire.symbols), d.slaveAddr, [sub, value])
      ensures old(Calm()) ==> Calm() && faults == old(faults)
      ensures old(dev.Some?) ==>
                if old(Answers(d)) then ok && dev.value == Written(old(dev.value), [sub, value]).InPhase(Receiving(Data, 0, 0))
                else !began && dev.value == old(dev.value).InPhase(Idle)
    {
      ok, began := WriteMessage(d, [sub, value]);
      assert [sub, value][..2] == [sub, value];
    }

    /** Between the rounds of a vector write that began with the slave at `s`. */
    ghost predicate InVec(d: I2CDev, vec: seq<(Byte, Byte)>, i: nat, s: Slave)
      reads this
    {
      && i <= |vec| && (if i == 0 then AtRest() else !scl)
      && (dev.Some? ==>
            && |s.regs| == 256 && s.phase == Idle
            && if i == 0 then dev.value == s
               else Hit(d) && dev.value == VecWritten(s, vec[..i]).InPhase(Receiving(Data, 0, 0)))
    }

    /** WritePair as the next round of such a loop: only the first one finds the bus idle. */
    method VecRound(d: I2CDev, vec: seq<(Byte, Byte)>, i: nat, ghost before: seq<Symbol>, ghost s: Slave)
      returns (ok: bool, began: bool)
      requires Valid() && Responsive(d) && i < |vec| && InVec(d, vec, i, s)
      requires dev.Some? ==> !Extended(d.slaveAddr)
      requires wire.symbols == VecFrame(before, d.slaveAddr, vec[..i])
      modifies this
      ensures Valid() && dev.Some? == old(dev.Some?) && Outcome(ok, began, old(wire.conditions))
      ensures ok ==> InVec(d, vec, i + 1, s) && wire.symbols == VecFrame(before, d.slaveAddr, vec[..i + 1])
      ensures old(Calm()) ==> Calm() && faults == old(faults)
      ensures old(dev.Some?) ==>
                && ok == (old(Hit(d)) && (i == 0 || s.restarts))
                && (!ok ==> !began && dev.value == VecWritten(s, vec[..i]))
    {
      VecFrameStep(before, d.slaveAddr, vec, i);
      if dev.Some? {
        VecStep(s, vec, i, dev.value.phase, Receiving(Data, 0, 0));
        assert i == 0 ==> vec[..i] == [];
      }
      ok, began := WritePair(d, vec[i].0, vec[i].1);
    }

    /** The loop of xf86I2CWriteVec; `began` counts the STARTs that stand. */
    method VecLoop(d: I2CDev, vec: seq<(Byte, Byte)>, ghost s: Slave) returns (ok: bool, began: nat, i: nat)
      requires Valid() && Responsive(d) && AtRest()
      requires dev.Some? ==> dev.value == s && !Extended(d.slaveAddr)
      modifies this
      ensures Valid() && dev.Some? == old(dev.Some?) && i <= |vec|
      ensures ok ==>
                && i == began == |vec| && wire.symbols == VecFrame(old(wire.symbols), d.slaveAddr, vec)
                && wire.conditions == old(wire.conditions) + Starts(i) && InVec(d, vec, i, s)
      ensures !ok ==> i < |vec| && BrokenOff(old(wire.conditions), i, began)
      ensures old(Calm()) ==> Calm() && faults == old(faults)
      ensures old(dev.Some?) ==>
                && ok == (vec == [] || (old(Hit(d)) && (|vec| == 1 || s.restarts)))
                && (!ok ==> i <= 1 && began == i == (if old(Hit(d)) then 1 else 0) && dev.value.phase == Idle)
                && !dev.value.Pulls() && dev.value.InPhase(Idle) == VecWritten(s, vec[..i])
    {
      hide VecFrame, VecWritten, Starts;
      ok, began, i := true, 0, 0;
      assert vec[..0] == [];
      NoRounds(wire.symbols, d.slaveAddr, if dev.Some? then s else Slave(0, seq(256, k => 0), 0, Idle, true));
      StartsStep(wire.conditions, 0);
      while i < |vec|
        invariant 0 <= i == began <= |vec| && ok
        invariant Valid() && dev.Some? == old(dev.Some?) && InVec(d, vec, i, s)
        invariant wire.symbols == VecFrame(old(wire.symbols), d.slaveAddr, vec[..i])
        invariant wire.conditions == old(wire.conditions) + Starts(i)
        invariant old(Calm()) ==> Calm() && faults == old(faults)
        invariant old(dev.Some?) ==> Hit(d) == old(Hit(d)) && (i > 0 ==> Hit(d)) && (i > 1 ==> s.restarts)
      {
        var start;
        ok, start := VecRound(d, vec, i, old(wire.symbols), s);
        if start {
          began := began + 1;
        }
        StartsStep(old(wire.conditions), i);
        if !ok {
          return;
        }
        i := i + 1;
      }
      assert vec[..i] == vec;
    }

    /** A vector write that failed in round i, with `began` STARTs standing. */
    ghost predicate BrokenOff(before: seq<Symbol>, i: nat, began: nat)
      reads this
    {
      && (began == i || began == i + 1)
      && (if began == i + 1 then !scl && wire.conditions == before + Starts(i) + [Symbol.Start]
          else
            && scl && sda && FailedMessage(before + Starts(i), wire.conditions)
            && (dev.Some? ==> hold == 0 && wire.conditions == before + Starts(i) + [Symbol.Start, Symbol.Stop]))
    }

    /** xf86I2CWriteVec: separate registers, repeated STARTs, one STOP. */
    method WriteVec(d: I2CDev, vec: seq<(Byte, Byte)>) returns (ok: bool)
      requires Valid() && Responsive(d) && AtRest()
      requires dev.Some? ==> !Extended(d.slaveAddr)
      modifies this
      ensures Valid() && AtRest() && dev.Some? == old(dev.Some?)
      ensures ok ==> wire.symbols == VecFrame(old(wire.symbols), d.slaveAddr, vec) + if vec == [] then [] else [Symbol.Stop]
      ensures ok ==> !DoublyStopped(old(wire.conditions), wire.conditions)
      ensures !ok ==> FailedVec(|vec|, old(wire.conditions), wire.conditions)
      ensures !ok && |vec| <= 1 ==> FailedMessage(old(wire.conditions), wire.conditions)
      ensures old(dev.Some?) ==>
                && ok == (vec == [] || (old(Hit(d)) && (|vec| == 1 || old(dev.value.restarts))))
                && (DoublyStopped(old(wire.conditions), wire.conditions) <==>
                      old(Hit(d)) && |vec| >= 2 && !old(dev.value.restarts))
      ensures old(Calm()) ==>
                && Calm()
                && faults == old(faults) + if DoublyStopped(old(wire.conditions), wire.conditions) then 1 else 0
      ensures old(dev.Some?) ==>
                dev.value == if ok then VecWritten(old(dev.value), vec)
                             else if old(Hit(d)) then VecWritten(old(dev.value), vec[..1]) else old(dev.value)
    {
      ghost var before := wire.conditions;
      ghost var s := if dev.Some? then dev.value else Slave(0, [], 0, Idle, true);
      var began;
      var i;
      ok, began, i := VecLoop(d, vec, s);
      ghost var mid := wire.conditions;
      assert vec[..|vec|] == vec && vec[..0] == [];
      if began > 0 {
        Stop();
      }
      assert dev.Some? ==> dev.value == VecWritten(s, vec[..i]);
      VecClosed(before, mid, wire.conditions, |vec|, i, began, ok);
    }
  }

  /**
   * A register written over the wire reads back as written, and no other
   * register changes; it can be read exactly if the device answers repeated STARTs.
   */
  method WriteThenRead(bus: I2CBus, d: I2CDev, sub: Byte, b: Byte) returns (wrote: bool, read: bool, v: Byte)
    requires bus.Valid() && bus.Responsive(d) && bus.AtRest()
    requires bus.dev.Some? && bus.Hit(d) && !Extended(d.slaveAddr)
    modifies bus
    ensures wrote && read == old(bus.dev.value.restarts) && (read ==> v == b)
    ensures bus.Valid() && bus.AtRest() && bus.dev.Some?
    ensures bus.dev.value.regs == old(bus.dev.value.regs)[sub := b]
    ensures read ==>
              bus.wire.symbols == Frame(Frame(old(bus.wire.symbols), d.slaveAddr, [sub, b], 0), d.slaveAddr, [sub], 1)
  {
    hide Frame, Window, FailedMessage, FailedTransfer;
    wrote := bus.WriteByte(d, sub, b);
    ghost var r1 := bus.dev.value.regs;
    WindowStart(r1, sub, 1);
    var rs;
    read, rs := bus.ReadBytes(d, sub, 1);
    assert bus.dev.value.regs == r1 && (read ==> rs == Window(r1, sub, 1));
    v := if read then rs[0] else 0;
  }
}
