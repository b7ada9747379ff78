/**
 * An I2C register file seen from the wire: 256 byte registers behind a 7-bit
 * address and an auto-incrementing pointer. It reacts to line edges only
 * (UM10204 sections 3.1.4 to 3.1.6 and 3.1.10).
 */
module RegisterSlave {
  import opened Bytes
  import opened Wire

  /** What the byte being received means. */
  datatype Role = Address | SubAddress | Data

  datatype Phase =
    | Idle                                // not addressed: waits for START
    | Receiving(role: Role, n: nat, acc: nat)  // n bits sampled
    | Acking(role: Role, byte: nat)       // pulls SDA low for the ninth clock
    | Sending(value: nat, sent: nat)      // drives bit 7 - sent
    | Listening                           // SDA released for the master's ACK
    | Heard(ack: bool)

  /** `restarts`: it also answers to a repeated START, not only to one on an idle bus. */
  datatype Slave = Slave(addr: nat, regs: seq<Byte>, ptr: nat, phase: Phase, restarts: bool) {
    ghost predicate Valid() {
      && addr < 128 && |regs| == 256 && ptr < 256
      && (phase.Receiving? ==> phase.n <= 8 && phase.acc < Pow2(phase.n))
      && (phase.Acking? ==> phase.byte < 256)
      && (phase.Sending? ==> phase.value < 256 && phase.sent < 8)
    }

    predicate Pulls() {
      phase.Acking? || (phase.Sending? && phase.sent < 8 && !BitAt(phase.value, 7 - phase.sent))
    }

    predicate Accepts(role: Role, byte: nat) {
      role.Address? ==> byte / 2 == addr
    }

    /** It will answer the address after a START that comes now. */
    predicate Ready() {
      restarts || phase == Idle
    }

    function InPhase(p: Phase): Slave {
      this.(phase := p)
    }

    /** Puts the register under the pointer on the wire and advances. */
    function Fetch(): Slave
      requires |regs| == 256 && ptr < 256
    {
      this.(ptr := Slot(ptr, 1), phase := Sending(regs[ptr], 0))
    }

    /** The effect of an acknowledged byte. */
    function Commit(role: Role, byte: nat): Slave
      requires |regs| == 256 && ptr < 256 && byte < 256
    {
      match role
      case Address => if byte % 2 == 1 then Fetch() else InPhase(Receiving(SubAddress, 0, 0))
      case SubAddress => this.(ptr := byte, phase := Receiving(Data, 0, 0))
      case Data => this.(regs := regs[ptr := byte], ptr := Slot(ptr, 1), phase := Receiving(Data, 0, 0))
    }

    function Rise(sda: bool): Slave {
      match phase
      case Receiving(role, n, acc) => if n < 8 then InPhase(Receiving(role, n + 1, 2 * acc + BitValue(sda))) else this
      case Listening => InPhase(Heard(!sda))
      case _ => this
    }

    function Fall(): Slave
      requires Valid()
    {
      match phase
      case Receiving(role, n, acc) =>
        if n < 8 then this
        else if Accepts(role, acc) then InPhase(Acking(role, acc)) else InPhase(Idle)
      case Acking(role, byte) => Commit(role, byte)
      case Sending(value, sent) => InPhase(if sent < 7 then Sending(value, sent + 1) else Listening)
      case Heard(ack) => if ack then Fetch() else InPhase(Idle)
      case _ => this
    }

    function Addressed(): Slave {
      InPhase(if Ready() then Receiving(Address, 0, 0) else Idle)
    }

    /** Reaction to the lines moving from `was` to `now`. */
    function See(was: Line, now: Line): Slave
      requires Valid()
    {
      if was.scl && now.scl then
        if was.sda == now.sda then this else if now.sda then InPhase(Idle) else Addressed()
      else if now.scl then Rise(now.sda)
      else if was.scl then Fall()
      else this
    }

    /** One whole clock with SDA at `sda`. */
    function Pulse(sda: bool): Slave
      requires Valid()
    {
      RiseKeepsValid(sda);
      Rise(sda).Fall()
    }

    lemma RiseKeepsValid(sda: bool)
      requires Valid()
      ensures Rise(sda).Valid() && Rise(sda).Pulls() == Pulls()
      ensures Rise(sda).regs == regs && Rise(sda).addr == addr && Rise(sda).ptr == ptr
      ensures Rise(sda).phase.Receiving? == phase.Receiving?
    {
    }

    lemma FallKeepsValid()
      requires Valid()
      ensures Fall().Valid()
    {
      if phase.Receiving? && phase.n == 8 {
        Pow2Of8();
      }
    }

    lemma SeeKeepsValid(was: Line, now: Line)
      requires Valid()
      ensures See(was, now).Valid()
    {
      RiseKeepsValid(now.sda);
      FallKeepsValid();
    }

    /** What the slave is once it has sampled a whole byte. */
    function Judge(role: Role, byte: nat): Slave {
      if Accepts(role, byte) then InPhase(Acking(role, byte)) else InPhase(Idle)
    }

    /** The slave after the first k clocks of a byte. */
    function MidByte(role: Role, byte: Byte, k: nat): Slave
      requires k <= 8
    {
      if k < 8 then InPhase(Receiving(role, k, Shr(byte, 8 - k))) else Judge(role, byte)
    }
  }

  lemma IdlePulse(s: Slave, sda: bool)
    requires s.Valid() && s.phase == Idle
    ensures !s.Pulls() && s.Pulse(sda) == s
  {
  }

  lemma MidByteEnds(s: Slave, role: Role, byte: Byte)
    ensures s.phase == Receiving(role, 0, 0) ==> s.MidByte(role, byte, 0) == s
    ensures s.MidByte(role, byte, 8) == s.Judge(role, byte)
  {
    ByteTopIsZero(byte);
  }

  /** The next clock of a byte sent to a slave. */
  lemma ReceivePulse(s: Slave, role: Role, byte: Byte, k: nat)
    requires k < 8 && s.MidByte(role, byte, k).Valid()
    ensures !s.MidByte(role, byte, k).Pulls()
    ensures s.MidByte(role, byte, k).Pulse(BitAt(byte, 7 - k)) == s.MidByte(role, byte, k + 1)
  {
    ShrStep(byte, 7 - k);
  }

  /** The next clock of a byte a slave sends. */
  lemma SendPulse(s: Slave, value: Byte, k: nat)
    requires s.Valid() && k < 8
    ensures var t := s.InPhase(Sending(value, k));
            && t.Valid() && t.Pulls() == !BitAt(value, 7 - k)
            && t.Pulse(!t.Pulls()) == s.InPhase(if k < 7 then Sending(value, k + 1) else Listening)
  {
  }

  /** A slave addressed for reading drives its first bit at once; no register changes. */
  lemma AddressedPulls(s: Slave, byte: nat)
    requires s.Valid() && byte < 256
    ensures var t := s.Commit(Role.Address, byte);
            t.regs == s.regs && t.Pulls() == (byte % 2 == 1 && !BitAt(s.regs[s.ptr], 7))
  {
  }

  /** The register i places after p; the pointer wraps at 256. */
  function Slot(p: nat, i: nat): (q: nat)
    ensures q < 256
  {
    (p + i) % 256
  }

  lemma SlotsDiffer(p: nat, i: nat, j: nat)
    requires i < j < i + 256
    ensures Slot(p, i) != Slot(p, j)
  {
    var a, b := (p + i) / 256, (p + j) / 256;
    assert p + i == 256 * a + Slot(p, i) && p + j == 256 * b + Slot(p, j);
  }

  /** Consecutive registers from p on take the bytes xs. */
  function Stored(regs: seq<Byte>, p: nat, xs: seq<Byte>): (r: seq<Byte>)
    requires |regs| == 256
    ensures |r| == 256
  {
    if xs == [] then regs
    else Stored(regs, p, xs[..|xs| - 1])[Slot(p, |xs| - 1) := xs[|xs| - 1]]
  }

  /** At most 256 bytes each end up in a register of their own... */
  lemma {:induction false} StoredThere(regs: seq<Byte>, p: nat, xs: seq<Byte>, i: nat)
    requires |regs| == 256 && i < |xs| <= 256
    ensures Stored(regs, p, xs)[Slot(p, i)] == xs[i]
  {
    var last := |xs| - 1;
    if i < last {
      StoredThere(regs, p, xs[..last], i);
      SlotsDiffer(p, i, last);
    }
  }

  /** ...and no other register changes. */
  lemma {:induction false} StoredElsewhere(regs: seq<Byte>, p: nat, xs: seq<Byte>, q: nat)
    requires |regs| == 256 && q < 256
    requires forall i: nat :: i < |xs| ==> Slot(p, i) != q
    ensures Stored(regs, p, xs)[q] == regs[q]
  {
    if xs != [] {
      assert Slot(p, |xs| - 1) != q;
      StoredElsewhere(regs, p, xs[..|xs| - 1], q);
    }
  }

  /** The n registers from p on. */
  function Window(regs: seq<Byte>, p: nat, n: nat): (r: seq<Byte>)
    requires |regs| == 256
    ensures |r| == n
  {
    seq(n, i requires 0 <= i < n => regs[Slot(p, i)])
  }

  lemma WindowStart(regs: seq<Byte>, p: nat, n: nat)
    requires |regs| == 256 && p < 256 && n > 0
    ensures Window(regs, p, n)[0] == regs[p]
    ensures n > 1 ==> Window(regs, p, n)[1] == regs[Slot(p, 1)]
  {
    assert Slot(p, 0) == p;
  }

  lemma WindowStep(regs: seq<Byte>, p: nat, k: nat)
    requires |regs| == 256
    ensures Window(regs, p, k) + [Window(regs, p, k + 1)[k]] == Window(regs, p, k + 1)
  {
  }

  /** What a write message leaves: its first byte is the pointer, the rest are data. */
  function Written(s: Slave, bs: seq<Byte>): (r: Slave)
    requires |s.regs| == 256
    ensures |r.regs| == 256
  {
    if bs == [] then s
    else s.(ptr := Slot(bs[0], |bs| - 1), regs := Stored(s.regs, bs[0], bs[1..]))
  }

  /** What reading n bytes leaves: the pointer moves, the registers do not. */
  function Advanced(s: Slave, n: nat): Slave {
    s.(ptr := Slot(s.ptr, n))
  }

  lemma NothingMoved(s: Slave, bs: seq<Byte>)
    requires s.Valid()
    ensures Written(s, []) == s && Advanced(Written(s, bs), 0) == Written(s, bs)
    ensures Written(s, bs).restarts == s.restarts && Written(s, bs).addr == s.addr && Written(s, bs).phase == s.phase
  {
  }

  lemma SlotStep(p: nat, i: nat)
    ensures Slot(Slot(p, i), 1) == Slot(p, i + 1)
  {
  }

  /** A slave that has taken the first k bytes of a write message. */
  function MidWrite(s: Slave, bs: seq<Byte>, k: nat): (r: Slave)
    requires |s.regs| == 256 && k <= |bs|
  {
    Written(s, bs[..k]).InPhase(Receiving(if k == 0 then SubAddress else Data, 0, 0))
  }

  /** Acknowledging the next byte is one step of `Written`. */
  lemma WriteStep(s: Slave, bs: seq<Byte>, k: nat)
    requires s.Valid() && k < |bs|
    ensures var w := MidWrite(s, bs, k);
            w.ptr < 256 && w.Commit(w.phase.role, bs[k]) == MidWrite(s, bs, k + 1)
  {
    var done := bs[..k + 1];
    if k > 0 {
      SlotStep(bs[0], k - 1);
      assert done[1..][..k - 1] == bs[..k][1..];
      assert Stored(s.regs, bs[0], done[1..]) == Stored(s.regs, bs[0], bs[..k][1..])[Slot(bs[0], k - 1) := bs[k]];
    } else {
      assert done[1..] == [];
    }
  }

  /** A slave that has k bytes of a read message behind it and the next one on the wire. */
  function MidRead(s: Slave, k: nat): Slave
    requires |s.regs| == 256
  {
    Advanced(s, k).Fetch()
  }

  lemma ReadStep(s: Slave, k: nat)
    requires s.Valid()
    ensures MidRead(s, k).phase == Sending(Window(s.regs, s.ptr, k + 1)[k], 0)
    ensures MidRead(s, k).Fetch() == MidRead(s, k + 1)
    ensures MidRead(s, k).InPhase(Idle) == Advanced(s, k + 1).InPhase(Idle)
  {
    SlotStep(s.ptr, k);
    SlotStep(s.ptr, k + 1);
  }

  /** What a vector of separate (sub-address, value) writes leaves. */
  function VecWritten(s: Slave, vec: seq<(Byte, Byte)>): (r: Slave)
    requires |s.regs| == 256
    ensures |r.regs| == 256 && r.phase == s.phase && r.addr == s.addr && r.restarts == s.restarts
  {
    if vec == [] then s
    else
      var (sub, value) := vec[|vec| - 1];
      Written(VecWritten(s, vec[..|vec| - 1]), [sub, value])
  }

  /** One more pair of a vector write, whatever phase the slave was left in. */
  lemma VecStep(s: Slave, vec: seq<(Byte, Byte)>, i: nat, before: Phase, after: Phase)
    requires |s.regs| == 256 && i < |vec|
    ensures Written(VecWritten(s, vec[..i]).InPhase(before), [vec[i].0, vec[i].1]).InPhase(after) ==
            VecWritten(s, vec[..i + 1]).InPhase(after)
  {
    assert vec[..i + 1][..i] == vec[..i];
  }

  /** Writing up to 256 bytes from register p on and reading them back from p returns them. */
  lemma ReadBack(s: Slave, p: Byte, xs: seq<Byte>)
    requires |s.regs| == 256 && |xs| <= 256
    ensures var w := Written(Written(s, [p] + xs), [p]);
            Window(w.regs, w.ptr, |xs|) == xs
  {
    var w := Written(Written(s, [p] + xs), [p]);
    assert ([p] + xs)[1..] == xs;
    PointAt(Written(s, [p] + xs), p);
    forall i | 0 <= i < |xs|
      ensures Window(w.regs, w.ptr, |xs|)[i] == xs[i]
    {
      StoredThere(s.regs, p, xs, i);
    }
  }

  /** A lone byte only sets the pointer. */
  lemma PointAt(s: Slave, p: Byte)
    requires |s.regs| == 256
    ensures Written(s, [p]) == s.(ptr := p)
  {
    assert [p][1..] == [];
  }

  /** Writing a single register leaves the other 255 alone. */
  lemma WriteOne(s: Slave, p: Byte, x: Byte)
    requires |s.regs| == 256
    ensures Written(s, [p, x]).regs == s.regs[p := x]
  {
    assert [p, x][1..] == [x] && [x][..0] == [];
    assert Stored(s.regs, p, [x]) == Stored(s.regs, p, [])[Slot(p, 0) := x];
  }
}
