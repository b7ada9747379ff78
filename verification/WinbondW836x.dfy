/**
 * The fan divisor registers of WinbondW836x/WinbondW836x.cpp: five byte
 * registers read into one 40-bit word, edited bit by bit and written back
 * where they changed. A steady fan is one whose count follows its period.
 */
module WinbondW836x {
  import opened Bytes
  import opened FanDivisor

  const FANS: nat := 5

  /** Each fan's three divisor bits: register and bit, lowest bit first. */
  function Div0(fan: nat): nat { if fan <= 1 then 0x47 else if fan == 2 then 0x4B else 0x59 }
  function Div0Bit(fan: nat): bv64 { if fan == 0 then 4 else if fan <= 2 then 6 else if fan == 3 then 0 else 2 }
  function Div1(fan: nat): nat { if fan <= 1 then 0x47 else if fan == 2 then 0x4B else 0x59 }
  function Div1Bit(fan: nat): bv64 { if fan == 0 then 5 else if fan <= 2 then 7 else if fan == 3 then 1 else 3 }
  function Div2(fan: nat): nat { if fan <= 2 then 0x5D else if fan == 3 then 0x4C else 0x59 }
  function Div2Bit(fan: nat): bv64 { if fan == 0 then 5 else if fan == 1 then 6 else 7 }

  /** The registers in the order they are read, and the bits' places in the word. */
  function Divisor(i: nat): nat {
    if i == 0 then 0x47 else if i == 1 then 0x4B else if i == 2 then 0x4C else if i == 3 then 0x59 else 0x5D
  }
  function Divisor0(fan: nat): bv64 {
    if fan == 0 then 36 else if fan == 1 then 38 else if fan == 2 then 30 else if fan == 3 then 8 else 10
  }
  function Divisor1(fan: nat): bv64 {
    if fan == 0 then 37 else if fan == 1 then 39 else if fan == 2 then 31 else if fan == 3 then 9 else 11
  }
  function Divisor2(fan: nat): bv64 {
    if fan == 0 then 5 else if fan == 1 then 6 else if fan == 2 then 7 else if fan == 3 then 23 else 15
  }

  predicate BitOn(x: bv64, p: bv64)
    requires p <= 63
  {
    (x >> p) & 1 == 1
  }

  function Raise(x: bv64, p: bv64): bv64
    requires p <= 63
  {
    x | (1 << p)
  }

  function Clear(x: bv64, p: bv64): bv64
    requires p <= 63
  {
    x & !(1 << p)
  }

  lemma RaiseAt(x: bv64, p: bv64, q: bv64)
    requires p <= 63 && q <= 63
    ensures BitOn(Raise(x, p), q) == (q == p || BitOn(x, q))
  {
  }

  lemma BitOfAnd(x: bv64, y: bv64, q: bv64)
    requires q <= 63
    ensures BitOn(x & y, q) == (BitOn(x, q) && BitOn(y, q))
  {
  }

  lemma MaskBit(p: bv64, q: bv64)
    requires p <= 63 && q <= 63
    ensures BitOn(!(1 << p), q) == (p != q)
  {
  }

  lemma ClearAt(x: bv64, p: bv64, q: bv64)
    requires p <= 63 && q <= 63
    ensures BitOn(Clear(x, p), q) == (q != p && BitOn(x, q))
  {
    hide BitOn;
    BitOfAnd(x, !(1 << p), q);
    MaskBit(p, q);
  }

  /** setBit */
  function SetBit(target: bv64, bit: bv64, value: bv64): bv64 {
    if value & 1 == value && bit <= 63 then
      if value > 0 then Raise(target, bit) else Clear(target, bit)
    else value
  }

  function AsBit(on: bool): bv64 {
    if on then 1 else 0
  }

  lemma SetBitAt(x: bv64, p: bv64, on: bool, q: bv64)
    requires p <= 63 && q <= 63
    ensures BitOn(SetBit(x, p, AsBit(on)), q) == if q == p then on else BitOn(x, q)
  {
    RaiseAt(x, p, q);
    ClearAt(x, p, q);
  }

  function Offset(b0: bool, b1: bool, b2: bool): (o: nat)
    ensures o <= 7
  {
    BitValue(b0) + 2 * BitValue(b1) + 4 * BitValue(b2)
  }

  /** The divisor exponent of a fan in the 40-bit word. */
  function WordOffset(bits: bv64, fan: nat): (o: nat)
    ensures o <= 7
  {
    Offset(BitOn(bits, Divisor0(fan)), BitOn(bits, Divisor1(fan)), BitOn(bits, Divisor2(fan)))
  }

  function SetThree(x: bv64, p0: bv64, p1: bv64, p2: bv64, on0: bool, on1: bool, on2: bool): bv64 {
    SetBit(SetBit(SetBit(x, p2, AsBit(on2)), p1, AsBit(on1)), p0, AsBit(on0))
  }

  lemma SetThreeAt(x: bv64, p0: bv64, p1: bv64, p2: bv64, on0: bool, on1: bool, on2: bool, q: bv64)
    requires p0 <= 63 && p1 <= 63 && p2 <= 63 && q <= 63
    ensures BitOn(SetThree(x, p0, p1, p2, on0, on1, on2), q) ==
            if q == p0 then on0 else if q == p1 then on1 else if q == p2 then on2 else BitOn(x, q)
  {
    var x2 := SetBit(x, p2, AsBit(on2));
    var x1 := SetBit(x2, p1, AsBit(on1));
    SetBitAt(x, p2, on2, q);
    SetBitAt(x2, p1, on1, q);
    SetBitAt(x1, p0, on0, q);
  }

  /** A fan's three bits set to an exponent. */
  function SetOffset(bits: bv64, fan: nat, o: nat): bv64 {
    SetThree(bits, Divisor0(fan), Divisor1(fan), Divisor2(fan), o % 2 == 1, o / 2 % 2 == 1, o / 4 % 2 == 1)
  }

  predicate PlaceOf(fan: nat, q: bv64) {
    q == Divisor0(fan) || q == Divisor1(fan) || q == Divisor2(fan)
  }

  lemma OffsetOfBits(o: nat)
    requires o <= 7
    ensures Offset(o % 2 == 1, o / 2 % 2 == 1, o / 4 % 2 == 1) == o
  {
  }

  lemma OwnPlacesDiffer(fan: nat)
    ensures Divisor0(fan) != Divisor1(fan) && Divisor0(fan) != Divisor2(fan) && Divisor1(fan) != Divisor2(fan)
  {
  }

  lemma SetOffsetHere(bits: bv64, fan: nat, o: nat)
    requires o <= 7
    ensures WordOffset(SetOffset(bits, fan, o), fan) == o
  {
    var on0, on1, on2 := o % 2 == 1, o / 2 % 2 == 1, o / 4 % 2 == 1;
    var p0, p1, p2 := Divisor0(fan), Divisor1(fan), Divisor2(fan);
    OffsetOfBits(o);
    OwnPlacesDiffer(fan);
    SetThreeAt(bits, p0, p1, p2, on0, on1, on2, p0);
    SetThreeAt(bits, p0, p1, p2, on0, on1, on2, p1);
    SetThreeAt(bits, p0, p1, p2, on0, on1, on2, p2);
  }

  lemma SetOffsetElsewhere(bits: bv64, fan: nat, o: nat, q: bv64)
    requires q <= 63 && !PlaceOf(fan, q)
    ensures BitOn(SetOffset(bits, fan, o), q) == BitOn(bits, q)
  {
    SetThreeAt(bits, Divisor0(fan), Divisor1(fan), Divisor2(fan), o % 2 == 1, o / 2 % 2 == 1, o / 4 % 2 == 1, q);
  }

  lemma PlacesDisjoint(f: nat, g: nat, q: bv64)
    requires f < g < FANS && PlaceOf(f, q)
    ensures !PlaceOf(g, q)
  {
  }

  type UInt8 = x: bv64 | x <= 0xff

  /** The registers as the chip holds them. */
  type Registers = map<nat, UInt8>

  predicate IsDivisor(r: nat) {
    r in {0x47, 0x4B, 0x4C, 0x59, 0x5D}
  }

  predicate HasDivisors(regs: Registers) {
    forall i: nat :: i < 5 ==> Divisor(i) in regs
  }

  predicate RegisterBit(r: UInt8, b: bv64)
    requires b <= 7
  {
    BitOn(r, b)
  }

  function LowByte(bits: bv64): UInt8 {
    bits & 0xff
  }

  /** The n low bytes of a word, the lowest last. */
  function LowBytes(bits: bv64, n: nat): (r: seq<UInt8>)
    ensures |r| == n
  {
    if n == 0 then [] else LowBytes(bits >> 8, n - 1) + [LowByte(bits)]
  }

  lemma LowBytesStep(bits: bv64, n: nat, bytes: seq<UInt8>)
    requires n < |bytes| && LowBytes(bits, n + 1) == bytes[..n + 1]
    ensures LowByte(bits) == bytes[n] && LowBytes(bits >> 8, n) == bytes[..n]
  {
    assert LowBytes(bits, n + 1)[..n] == LowBytes(bits >> 8, n);
    assert bytes[..n + 1][..n] == bytes[..n];
  }

  lemma ShiftTwice(bits: bv64)
    ensures (bits >> 8) >> 8 == bits >> 16 && (bits >> 16) >> 8 == bits >> 24 && (bits >> 24) >> 8 == bits >> 32
  {
  }

  lemma LowBytesAre(bits: bv64)
    ensures LowBytes(bits, 5) ==
            [LowByte(bits >> 32), LowByte(bits >> 24), LowByte(bits >> 16), LowByte(bits >> 8), LowByte(bits)]
  {
    ShiftTwice(bits);
    assert LowBytes(bits >> 32, 1) == [LowByte(bits >> 32)];
    assert LowBytes(bits >> 24, 2) == LowBytes(bits >> 32, 1) + [LowByte(bits >> 24)];
    assert LowBytes(bits >> 16, 3) == LowBytes(bits >> 24, 2) + [LowByte(bits >> 16)];
    assert LowBytes(bits >> 8, 4) == LowBytes(bits >> 16, 3) + [LowByte(bits >> 8)];
  }

  function ByteAt(bits: bv64, i: nat): UInt8 {
    LowByte(if i == 0 then bits >> 32 else if i == 1 then bits >> 24 else if i == 2 then bits >> 16
            else if i == 3 then bits >> 8 else bits)
  }

  lemma LowBytesAt(bits: bv64, i: nat)
    requires i < 5
    ensures LowBytes(bits, 5)[i] == ByteAt(bits, i)
  {
    LowBytesAre(bits);
  }

  lemma LowByteBit(bits: bv64, b: bv64)
    requires b <= 7
    ensures BitOn(LowByte(bits), b) == BitOn(bits, b)
  {
  }

  lemma ShiftedBit(bits: bv64, k: bv64, b: bv64)
    requires k <= 32 && b <= 7
    ensures BitOn(bits >> k, b) == BitOn(bits, k + b)
  {
  }

  /** The byte from bit k up holds the bits from there. */
  lemma ByteBit(bits: bv64, k: bv64, b: bv64)
    requires k <= 32 && b <= 7
    ensures BitOn(LowByte(bits >> k), b) == BitOn(bits, k + b)
  {
    hide BitOn, LowByte;
    LowByteBit(bits >> k, b);
    ShiftedBit(bits, k, b);
  }

  function RegisterBytes(regs: Registers): seq<UInt8>
    requires HasDivisors(regs)
  {
    HasAll(regs);
    [regs[0x47], regs[0x4B], regs[0x4C], regs[0x59], regs[0x5D]]
  }

  lemma RegisterByteAt(regs: Registers, i: nat)
    requires HasDivisors(regs) && i < 5
    ensures RegisterBytes(regs)[i] == regs[Divisor(i)]
  {
  }

  lemma WriteRegister(regs: Registers, i: nat, value: UInt8)
    requires HasDivisors(regs) && i < 5
    ensures HasDivisors(regs[Divisor(i) := value])
    ensures RegisterBytes(regs[Divisor(i) := value]) == RegisterBytes(regs)[i := value]
  {
    HasAll(regs);
  }

  /** The word holds exactly these registers. */
  ghost predicate Holds(bits: bv64, regs: Registers)
    requires HasDivisors(regs)
  {
    LowBytes(bits, 5) == RegisterBytes(regs)
  }

  /** A fan's divisor exponent in the registers, by the register and bit tables. */
  function FanOffset(regs: Registers, fan: nat): (o: nat)
    requires HasDivisors(regs)
    ensures o <= 7
  {
    HasAll(regs);
    Offset(RegisterBit(regs[Div0(fan)], Div0Bit(fan)),
           RegisterBit(regs[Div1(fan)], Div1Bit(fan)),
           RegisterBit(regs[Div2(fan)], Div2Bit(fan)))
  }

  lemma HasAll(regs: Registers)
    requires HasDivisors(regs)
    ensures 0x47 in regs && 0x4B in regs && 0x4C in regs && 0x59 in regs && 0x5D in regs
  {
    assert Divisor(0) in regs && Divisor(1) in regs && Divisor(2) in regs && Divisor(3) in regs && Divisor(4) in regs;
  }

  /** Bit b of a register is one of the fan's three. */
  predicate RegisterPlaceOf(fan: nat, reg: nat, b: bv64) {
    || (reg == Div0(fan) && b == Div0Bit(fan))
    || (reg == Div1(fan) && b == Div1Bit(fan))
    || (reg == Div2(fan) && b == Div2Bit(fan))
  }

  ghost predicate NoPlaceOf(fans: nat, reg: nat, b: bv64) {
    forall f: nat :: f < fans ==> !RegisterPlaceOf(f, reg, b)
  }

  lemma PlacesAgree(fan: nat, b: bv64)
    requires fan < FANS && b <= 7
    ensures PlaceOf(fan, 32 + b) == RegisterPlaceOf(fan, 0x47, b)
    ensures PlaceOf(fan, 24 + b) == RegisterPlaceOf(fan, 0x4B, b)
    ensures PlaceOf(fan, 16 + b) == RegisterPlaceOf(fan, 0x4C, b)
    ensures PlaceOf(fan, 8 + b) == RegisterPlaceOf(fan, 0x59, b)
    ensures PlaceOf(fan, b) == RegisterPlaceOf(fan, 0x5D, b)
  {
  }

  lemma BytesAt0(bits: bv64)
    ensures BitOn(bits, 36) == BitOn(LowByte(bits >> 32), 4)
    ensures BitOn(bits, 37) == BitOn(LowByte(bits >> 32), 5)
    ensures BitOn(bits, 5) == BitOn(LowByte(bits), 5)
  {
  }

  lemma BytesAt1(bits: bv64)
    ensures BitOn(bits, 38) == BitOn(LowByte(bits >> 32), 6)
    ensures BitOn(bits, 39) == BitOn(LowByte(bits >> 32), 7)
    ensures BitOn(bits, 6) == BitOn(LowByte(bits), 6)
  {
  }

  lemma BytesAt2(bits: bv64)
    ensures BitOn(bits, 30) == BitOn(LowByte(bits >> 24), 6)
    ensures BitOn(bits, 31) == BitOn(LowByte(bits >> 24), 7)
    ensures BitOn(bits, 7) == BitOn(LowByte(bits), 7)
  {
  }

  lemma BytesAt3(bits: bv64)
    ensures BitOn(bits, 8) == BitOn(LowByte(bits >> 8), 0)
    ensures BitOn(bits, 9) == BitOn(LowByte(bits >> 8), 1)
    ensures BitOn(bits, 23) == BitOn(LowByte(bits >> 16), 7)
  {
  }

  lemma BytesAt4(bits: bv64)
    ensures BitOn(bits, 10) == BitOn(LowByte(bits >> 8), 2)
    ensures BitOn(bits, 11) == BitOn(LowByte(bits >> 8), 3)
    ensures BitOn(bits, 15) == BitOn(LowByte(bits >> 8), 7)
  {
  }

  /** The position tables for the word and the register tables agree. */
  lemma TablesAgree(bits: bv64, regs: Registers, fan: nat)
    requires HasDivisors(regs) && Holds(bits, regs) && fan < FANS
    ensures WordOffset(bits, fan) == FanOffset(regs, fan)
  {
    LowBytesAre(bits);
    match fan {
      case 0 => BytesAt0(bits);
      case 1 => BytesAt1(bits);
      case 2 => BytesAt2(bits);
      case 3 => BytesAt3(bits);
      case 4 => BytesAt4(bits);
    }
  }

  /** The word after the first n fans have been regulated on these counts. */
  function Regulated(bits: bv64, counts: seq<nat>, n: nat): bv64
    requires n <= |counts|
  {
    if n == 0 then bits
    else SetOffset(Regulated(bits, counts, n - 1), n - 1, Next(WordOffset(bits, n - 1), counts[n - 1]))
  }

  lemma {:induction false} RegulatedPrefix(bits: bv64, counts: seq<nat>, count: nat, n: nat)
    requires n <= |counts|
    ensures Regulated(bits, counts + [count], n) == Regulated(bits, counts, n)
  {
    hide SetOffset, WordOffset, Next;
    if n > 0 {
      RegulatedPrefix(bits, counts, count, n - 1);
    }
  }

  lemma {:induction false} RegulatedElsewhere(bits: bv64, counts: seq<nat>, n: nat, q: bv64)
    requires n <= |counts| && q <= 63
    requires forall f: nat :: f < n ==> !PlaceOf(f, q)
    ensures BitOn(Regulated(bits, counts, n), q) == BitOn(bits, q)
    decreases n
  {
    if n > 0 {
      RegulatedElsewhere(bits, counts, n - 1, q);
      SetOffsetElsewhere(Regulated(bits, counts, n - 1), n - 1, Next(WordOffset(bits, n - 1), counts[n - 1]), q);
    }
  }

  /** Fans do not disturb each other's bits. */
  lemma OtherFansKeep(bits: bv64, fan: nat, other: nat, o: nat)
    requires fan < other < FANS
    ensures WordOffset(SetOffset(bits, other, o), fan) == WordOffset(bits, fan)
  {
    PlacesDisjoint(fan, other, Divisor0(fan));
    PlacesDisjoint(fan, other, Divisor1(fan));
    PlacesDisjoint(fan, other, Divisor2(fan));
    SetOffsetElsewhere(bits, other, o, Divisor0(fan));
    SetOffsetElsewhere(bits, other, o, Divisor1(fan));
    SetOffsetElsewhere(bits, other, o, Divisor2(fan));
  }

  lemma {:induction false} RegulatedOffset(bits: bv64, counts: seq<nat>, n: nat, fan: nat)
    requires fan < n <= |counts| && n <= FANS
    ensures WordOffset(Regulated(bits, counts, n), fan) == Next(WordOffset(bits, fan), counts[fan])
    decreases n
  {
    hide WordOffset, SetOffset, Next;
    var before, o := Regulated(bits, counts, n - 1), Next(WordOffset(bits, n - 1), counts[n - 1]);
    if fan == n - 1 {
      SetOffsetHere(before, fan, o);
    } else {
      RegulatedOffset(bits, counts, n - 1, fan);
      OtherFansKeep(before, fan, n - 1, o);
    }
  }

  /** What one update does to the registers: every active fan regulated, every other bit kept. */
  ghost predicate Updated(regs: Registers, counts: seq<nat>, fans: nat, after: Registers)
    requires HasDivisors(regs) && fans <= |counts|
  {
    && HasDivisors(after)
    && (forall f: nat :: f < fans ==> FanOffset(after, f) == Next(FanOffset(regs, f), counts[f]))
    && (forall i: nat, b: bv64 :: i < 5 && b <= 7 && NoPlaceOf(fans, Divisor(i), b) ==>
          RegisterBit(after[Divisor(i)], b) == RegisterBit(regs[Divisor(i)], b))
    && (forall r :: r in regs && !IsDivisor(r) ==> r in after && after[r] == regs[r])
  }

  lemma RegulatedKeeps(bits: bv64, counts: seq<nat>, n: nat, q: bv64, reg: nat, b: bv64)
    requires n <= |counts| && n <= FANS && q <= 63 && b <= 7 && NoPlaceOf(n, reg, b)
    requires forall f: nat :: f < n ==> PlaceOf(f, q) == RegisterPlaceOf(f, reg, b)
    ensures BitOn(Regulated(bits, counts, n), q) == BitOn(bits, q)
  {
    RegulatedElsewhere(bits, counts, n, q);
  }

  lemma BytesKept(bits: bv64, counts: seq<nat>, n: nat, i: nat, b: bv64)
    requires n <= |counts| && n <= FANS && i < 5 && b <= 7 && NoPlaceOf(n, Divisor(i), b)
    ensures RegisterBit(ByteAt(Regulated(bits, counts, n), i), b) == RegisterBit(ByteAt(bits, i), b)
  {
    forall f: nat | f < n {
      PlacesAgree(f, b);
    }
    hide BitOn, LowByte, Regulated;
    var regulated := Regulated(bits, counts, n);
    match i {
      case 0 =>
        ByteBit(bits, 32, b);
        ByteBit(regulated, 32, b);
        RegulatedKeeps(bits, counts, n, 32 + b, 0x47, b);
      case 1 =>
        ByteBit(bits, 24, b);
        ByteBit(regulated, 24, b);
        RegulatedKeeps(bits, counts, n, 24 + b, 0x4B, b);
      case 2 =>
        ByteBit(bits, 16, b);
        ByteBit(regulated, 16, b);
        RegulatedKeeps(bits, counts, n, 16 + b, 0x4C, b);
      case 3 =>
        ByteBit(bits, 8, b);
        ByteBit(regulated, 8, b);
        RegulatedKeeps(bits, counts, n, 8 + b, 0x59, b);
      case 4 =>
        LowByteBit(bits, b);
        LowByteBit(regulated, b);
        RegulatedKeeps(bits, counts, n, b, 0x5D, b);
    }
  }

  lemma RegulatedIsUpdate(bits: bv64, regs: Registers, counts: seq<nat>, fans: nat, after: Registers)
    requires HasDivisors(regs) && HasDivisors(after) && fans <= |counts| && fans <= FANS
    requires Holds(bits, regs) && Holds(Regulated(bits, counts, fans), after)
    requires forall r :: r in regs && !IsDivisor(r) ==> r in after && after[r] == regs[r]
    ensures Updated(regs, counts, fans, after)
  {
    forall f: nat | f < fans
      ensures FanOffset(after, f) == Next(FanOffset(regs, f), counts[f])
    {
      TablesAgree(bits, regs, f);
      TablesAgree(Regulated(bits, counts, fans), after, f);
      RegulatedOffset(bits, counts, fans, f);
    }
    forall i: nat, b: bv64 | i < 5 && b <= 7 && NoPlaceOf(fans, Divisor(i), b)
      ensures RegisterBit(after[Divisor(i)], b) == RegisterBit(regs[Divisor(i)], b)
    {
      BytesKept(bits, counts, fans, i, b);
      LowBytesAt(bits, i);
      LowBytesAt(Regulated(bits, counts, fans), i);
      RegisterByteAt(regs, i);
      RegisterByteAt(after, i);
    }
  }

  function PushByte(bits: bv64, r: UInt8): bv64 {
    (bits << 8) | r
  }

  /** The divisor registers read so far, most significant first. */
  function Assembled(regs: Registers, i: nat): bv64
    requires i <= 5 && HasDivisors(regs)
  {
    if i == 0 then 0 else PushByte(Assembled(regs, i - 1), regs[Divisor(i - 1)])
  }

  lemma FiveBytes(r0: UInt8, r1: UInt8, r2: UInt8, r3: UInt8, r4: UInt8)
    ensures var w := PushByte(PushByte(PushByte(PushByte(PushByte(0, r0), r1), r2), r3), r4);
            LowByte(w >> 32) == r0 && LowByte(w >> 24) == r1 && LowByte(w >> 16) == r2 && LowByte(w >> 8) == r3
            && LowByte(w) == r4
  {
  }

  lemma AssembledIs(regs: Registers)
    requires HasDivisors(regs) && 0x47 in regs && 0x4B in regs && 0x4C in regs && 0x59 in regs && 0x5D in regs
    ensures Assembled(regs, 5) ==
            PushByte(PushByte(PushByte(PushByte(PushByte(0, regs[0x47]), regs[0x4B]), regs[0x4C]), regs[0x59]), regs[0x5D])
  {
    assert Assembled(regs, 1) == PushByte(Assembled(regs, 0), regs[0x47]);
    assert Assembled(regs, 2) == PushByte(Assembled(regs, 1), regs[0x4B]);
    assert Assembled(regs, 3) == PushByte(Assembled(regs, 2), regs[0x4C]);
    assert Assembled(regs, 4) == PushByte(Assembled(regs, 3), regs[0x59]);
  }

  lemma AssembledHolds(regs: Registers)
    requires HasDivisors(regs)
    ensures Holds(Assembled(regs, 5), regs)
  {
    HasAll(regs);
    AssembledIs(regs);
    LowBytesAre(Assembled(regs, 5));
    FiveBytes(regs[0x47], regs[0x4B], regs[0x4C], regs[0x59], regs[0x5D]);
  }

  lemma SameByte(x: UInt8, y: UInt8)
    requires forall b: bv64 :: b <= 7 ==> RegisterBit(x, b) == RegisterBit(y, b)
    ensures x == y
  {
    assert RegisterBit(x, 0) == RegisterBit(y, 0) && RegisterBit(x, 1) == RegisterBit(y, 1);
    assert RegisterBit(x, 2) == RegisterBit(y, 2) && RegisterBit(x, 3) == RegisterBit(y, 3);
    assert RegisterBit(x, 4) == RegisterBit(y, 4) && RegisterBit(x, 5) == RegisterBit(y, 5);
    assert RegisterBit(x, 6) == RegisterBit(y, 6) && RegisterBit(x, 7) == RegisterBit(y, 7);
  }

  lemma OffsetInjective(a0: bool, a1: bool, a2: bool, b0: bool, b1: bool, b2: bool)
    requires Offset(a0, a1, a2) == Offset(b0, b1, b2)
    ensures a0 == b0 && a1 == b1 && a2 == b2
  {
  }

  lemma FanBitsKept(regs: Registers, after: Registers, fan: nat, i: nat, b: bv64)
    requires HasDivisors(regs) && HasDivisors(after) && fan < FANS && i < 5 && b <= 7
    requires FanOffset(after, fan) == FanOffset(regs, fan) && RegisterPlaceOf(fan, Divisor(i), b)
    ensures RegisterBit(after[Divisor(i)], b) == RegisterBit(regs[Divisor(i)], b)
  {
    HasAll(regs);
    HasAll(after);
    OffsetInjective(RegisterBit(regs[Div0(fan)], Div0Bit(fan)), RegisterBit(regs[Div1(fan)], Div1Bit(fan)),
                    RegisterBit(regs[Div2(fan)], Div2Bit(fan)),
                    RegisterBit(after[Div0(fan)], Div0Bit(fan)), RegisterBit(after[Div1(fan)], Div1Bit(fan)),
                    RegisterBit(after[Div2(fan)], Div2Bit(fan)));
  }

  /** When no fan wants another divisor, no register changes. */
  lemma FixedFansFixRegisters(regs: Registers, counts: seq<nat>, fans: nat, after: Registers)
    requires HasDivisors(regs) && fans <= |counts| && fans <= FANS && Updated(regs, counts, fans, after)
    requires forall f: nat :: f < fans ==> Next(FanOffset(regs, f), counts[f]) == FanOffset(regs, f)
    ensures RegisterBytes(after) == RegisterBytes(regs)
  {
    forall i: nat | i < 5
      ensures after[Divisor(i)] == regs[Divisor(i)]
    {
      forall b: bv64 | b <= 7
        ensures RegisterBit(after[Divisor(i)], b) == RegisterBit(regs[Divisor(i)], b)
      {
        if !NoPlaceOf(fans, Divisor(i), b) {
          var f: nat :| f < fans && RegisterPlaceOf(f, Divisor(i), b);
          FanBitsKept(regs, after, f, i, b);
        }
      }
      SameByte(after[Divisor(i)], regs[Divisor(i)]);
    }
    assert after[Divisor(0)] == regs[Divisor(0)] && after[Divisor(1)] == regs[Divisor(1)];
    assert after[Divisor(2)] == regs[Divisor(2)] && after[Divisor(3)] == regs[Divisor(3)];
    assert after[Divisor(4)] == regs[Divisor(4)];
  }

  lemma {:induction false} NothingLogged(log: seq<(nat, UInt8)>, bytes: seq<UInt8>, i: nat)
    requires |bytes| == 5 && i <= 5
    ensures Logged(log, bytes, bytes, i) == log
    decreases 5 - i
  {
    if i < 5 {
      NothingLogged(log, bytes, i + 1);
    }
  }

  /** A register is written if and only if its byte changed. */
  function Change(i: nat, was: UInt8, now: UInt8): seq<(nat, UInt8)> {
    if was != now then [(Divisor(i), now)] else []
  }

  /** A log of writes extended by the changed registers from the last one back to register i. */
  function Logged(log: seq<(nat, UInt8)>, was: seq<UInt8>, now: seq<UInt8>, i: nat): seq<(nat, UInt8)>
    requires |was| == |now| == 5 && i <= 5
    decreases 5 - i
  {
    if i == 5 then log else Logged(log, was, now, i + 1) + Change(i, was[i], now[i])
  }

  /** A fan value before it is turned into RPM: 1.35e6 over count * divisor, or none when the count saturates. */
  datatype Sample = Stopped | Sample(count: nat, divisor: nat)

  /** What is recorded of a fan that showed this count while its divisor was 2^offset. */
  predicate Records(v: Sample, count: nat, offset: nat) {
    match v
    case Stopped => count == 255
    case Sample(c, d) => c == count < 255 && d == Pow2(offset)
  }

  /** The value of a steady fan: its period divided by the divisor, or none from 255 times the divisor on. */
  predicate Measures(v: Sample, period: nat, offset: nat) {
    match v
    case Stopped => period >= 255 * Pow2(offset)
    case Sample(count, divisor) =>
      && divisor == Pow2(offset) && count * divisor <= period < (count + 1) * divisor
      && period < 255 * divisor
  }

  lemma RecordMeasures(v: Sample, period: nat, offset: nat)
    requires Records(v, Reading(period, offset), offset)
    ensures Measures(v, period, offset)
  {
    ReadingMeasures(period, offset);
  }

  class W836x {
    const fanLimit: nat
    /** Steady fans have a period; the others count anything. */
    const fans: seq<Option<nat>>

    var regs: Registers
    var fanValue: seq<Sample>
    var fanValueObsolete: seq<bool>
    /** Every register write so far. */
    ghost var writes: seq<(nat, UInt8)>

    ghost predicate Valid()
      reads this
    {
      && fanLimit <= FANS == |fans| == |fanValue| == |fanValueObsolete|
      && HasDivisors(regs)
    }

    /** Fan f may show this count with the divisors in r. */
    ghost predicate MayShow(f: nat, r: Registers, count: nat)
      requires f < |fans| && HasDivisors(r)
    {
      count <= 255 && (fans[f].Some? ==> count == Reading(fans[f].value, FanOffset(r, f)))
    }

    /** These counts are ones the fans may show with the divisors in r. */
    ghost predicate Plausible(r: Registers, counts: seq<nat>)
    {
      && |counts| == fanLimit <= |fans| && HasDivisors(r)
      && forall f: nat :: f < fanLimit ==> MayShow(f, r, counts[f])
    }

    method ReadTach(fan: nat) returns (count: nat)
      requires Valid() && fan < fanLimit
      ensures count <= 255 && (fans[fan].Some? ==> count == Reading(fans[fan].value, FanOffset(regs, fan)))
    {
      if fans[fan].Some? {
        count := Reading(fans[fan].value, FanOffset(regs, fan));
      } else {
        count :| 0 <= count <= 255;
      }
    }

    method WriteByte(reg: nat, value: UInt8)
      requires Valid()
      modifies this`regs, this`writes
      ensures Valid() && regs == old(regs)[reg := value] && writes == old(writes) + [(reg, value)]
    {
      regs := regs[reg := value];
      writes := writes + [(reg, value)];
    }

    method PutIfChanged(i: nat, oldByte: UInt8, newByte: UInt8)
      requires Valid() && i < 5 && RegisterBytes(regs)[i] == oldByte
      modifies this`regs, this`writes
      ensures Valid() && RegisterBytes(regs) == RegisterBytes(old(regs))[i := newByte]
      ensures writes == old(writes) + Change(i, oldByte, newByte)
      ensures forall r :: r in old(regs) && !IsDivisor(r) ==> r in regs && regs[r] == old(regs)[r]
    {
      if oldByte != newByte {
        WriteRegister(regs, i, newByte);
        WriteByte(Divisor(i), newByte);
      }
    }

    /** The write-back loop of updateTachometers. */
    method WriteBack(oldBits: bv64, newBits: bv64)
      requires Valid() && Holds(oldBits, regs)
      modifies this`regs, this`writes
      ensures Valid() && Holds(newBits, regs)
      ensures writes == Logged(old(writes), RegisterBytes(old(regs)), RegisterBytes(regs), 0)
      ensures forall r :: r in old(regs) && !IsDivisor(r) ==> r in regs && regs[r] == old(regs)[r]
    {
      var bits, next := oldBits, newBits;
      ghost var was, now := LowBytes(oldBits, 5), LowBytes(newBits, 5);
      var i := 4;
      while i >= 0
        invariant -1 <= i <= 4 && Valid()
        invariant LowBytes(bits, i + 1) == was[..i + 1] && LowBytes(next, i + 1) == now[..i + 1]
        invariant forall j :: 0 <= j < 5 ==> RegisterBytes(regs)[j] == if j <= i then was[j] else now[j]
        invariant forall r :: r in old(regs) && !IsDivisor(r) ==> r in regs && regs[r] == old(regs)[r]
        invariant writes == Logged(old(writes), was, now, i + 1)
      {
        var oldByte, newByte := LowByte(bits), LowByte(next);
        LowBytesStep(bits, i, was);
        LowBytesStep(next, i, now);
        PutIfChanged(i, oldByte, newByte);
        bits, next := bits >> 8, next >> 8;
        i := i - 1;
      }
      assert RegisterBytes(regs) == now && RegisterBytes(old(regs)) == was;
    }

    /** The new exponent of one fan, as updateTachometers computes it. */
    method Regulate(offset: nat, count: nat) returns (next: nat)
      requires offset <= 7
      ensures next == Next(offset, count)
    {
      next := offset;
      if count > 192 && offset < 7 {
        next := next + 1;
      } else if count < 96 && offset > 0 {
        next := next - 1;
      }
    }

    /** The five divisor registers as one word. */
    method ReadBits() returns (bits: bv64)
      requires Valid()
      ensures Holds(bits, regs)
    {
      bits := 0;
      for i := 0 to 5
        invariant bits == Assembled(regs, i)
      {
        bits := (bits << 8) | regs[Divisor(i)];
      }
      AssembledHolds(regs);
    }

    /** One round of the regulation loop. */
    method RegulateFan(bits: bv64, i: nat, newBits: bv64) returns (count: nat, next: bv64)
      requires Valid() && Holds(bits, regs) && i < fanLimit
      modifies this`fanValue, this`fanValueObsolete
      ensures Valid() && next == SetOffset(newBits, i, Next(WordOffset(bits, i), count))
      ensures MayShow(i, regs, count)
      ensures fanValue == old(fanValue)[i := fanValue[i]] && Records(fanValue[i], count, FanOffset(regs, i))
      ensures fanValueObsolete == old(fanValueObsolete)[i := false]
    {
      var offset := WordOffset(bits, i);
      TablesAgree(bits, regs, i);
      count := ReadTach(i);
      var o := Regulate(offset, count);
      fanValue := fanValue[i := if count < 255 then Sample(count, Pow2(offset)) else Stopped];
      fanValueObsolete := fanValueObsolete[i := false];
      next := SetBit(newBits, Divisor2(i), AsBit(o / 4 % 2 == 1));
      next := SetBit(next, Divisor1(i), AsBit(o / 2 % 2 == 1));
      next := SetBit(next, Divisor0(i), AsBit(o % 2 == 1));
    }

    /** The first n fans showed these counts, and this is what is recorded of them. */
    ghost predicate Recorded(counts: seq<nat>, n: nat)
      requires Valid()
      reads this
    {
      n <= fanLimit && n <= |counts| && forall f: nat :: f < n ==>
        MayShow(f, regs, counts[f]) && Records(fanValue[f], counts[f], FanOffset(regs, f))
    }

    /** That round as the next step of the loop. */
    method RegulateNext(bits: bv64, i: nat, newBits: bv64, ghost counts: seq<nat>) returns (next: bv64, ghost more: seq<nat>)
      requires Valid() && Holds(bits, regs) && i < fanLimit && |counts| == i
      requires newBits == Regulated(bits, counts, i) && Recorded(counts, i)
      modifies this`fanValue, this`fanValueObsolete
      ensures Valid() && |more| == i + 1 && next == Regulated(bits, more, i + 1) && Recorded(more, i + 1)
      ensures fanValueObsolete == old(fanValueObsolete)[i := false]
    {
      var count;
      count, next := RegulateFan(bits, i, newBits);
      RegulatedPrefix(bits, counts, count, i);
      more := counts + [count];
    }

    method RegulateFans(bits: bv64) returns (newBits: bv64, ghost counts: seq<nat>)
      requires Valid() && Holds(bits, regs)
      modifies this`fanValue, this`fanValueObsolete
      ensures Valid() && Plausible(regs, counts) && newBits == Regulated(bits, counts, fanLimit)
      ensures forall f :: 0 <= f < FANS ==> fanValueObsolete[f] == (f >= fanLimit && old(fanValueObsolete)[f])
      ensures forall f: nat :: f < fanLimit ==> Records(fanValue[f], counts[f], FanOffset(regs, f))
    {
      newBits, counts := bits, [];
      for i := 0 to fanLimit
        invariant Valid() && |counts| == i && newBits == Regulated(bits, counts, i) && Recorded(counts, i)
        invariant forall f :: 0 <= f < FANS ==> fanValueObsolete[f] == (f >= i && old(fanValueObsolete)[f])
      {
        newBits, counts := RegulateNext(bits, i, newBits, counts);
      }
    }

    method UpdateTachometers() returns (ghost counts: seq<nat>)
      requires Valid()
      modifies this
      ensures Valid() && Plausible(old(regs), counts) && Updated(old(regs), counts, fanLimit, regs)
      ensures writes == Logged(old(writes), RegisterBytes(old(regs)), RegisterBytes(regs), 0)
      ensures forall f :: 0 <= f < FANS ==> fanValueObsolete[f] == (f >= fanLimit && old(fanValueObsolete)[f])
      ensures forall f: nat :: f < fanLimit ==>
                && Records(fanValue[f], counts[f], FanOffset(old(regs), f))
                && (fans[f].Some? ==> Measures(fanValue[f], fans[f].value, FanOffset(old(regs), f)))
    {
      var bits := ReadBits();
      var newBits;
      newBits, counts := RegulateFans(bits);
      WriteBack(bits, newBits);
      RegulatedIsUpdate(bits, old(regs), counts, fanLimit, regs);
      forall f: nat | f < fanLimit && fans[f].Some?
        ensures Measures(fanValue[f], fans[f].value, FanOffset(old(regs), f))
      {
        assert MayShow(f, old(regs), counts[f]);
        RecordMeasures(fanValue[f], fans[f].value, FanOffset(old(regs), f));
      }
    }

    /** A second read of a fan takes a new sample of all of them. */
    method ReadTachometer(index: nat) returns (value: Sample, ghost counts: seq<nat>)
      requires Valid() && index < fanLimit
      modifies this
      ensures Valid() && value == fanValue[index] && fanValueObsolete[index]
      ensures !old(fanValueObsolete)[index] ==>
                && value == old(fanValue)[index] && regs == old(regs) && writes == old(writes)
                && fanValue == old(fanValue) && fanValueObsolete == old(fanValueObsolete)[index := true]
      ensures old(fanValueObsolete)[index] ==>
                && Plausible(old(regs), counts) && Updated(old(regs), counts, fanLimit, regs)
                && writes == Logged(old(writes), RegisterBytes(old(regs)), RegisterBytes(regs), 0)
                && (forall f: nat :: f < fanLimit ==> Records(fanValue[f], counts[f], FanOffset(old(regs), f)))
                && (fans[index].Some? ==> Measures(value, fans[index].value, FanOffset(old(regs), index)))
                && forall f :: 0 <= f < fanLimit && f != index ==> !fanValueObsolete[f]
    {
      counts := [];
      if fanValueObsolete[index] {
        counts := UpdateTachometers();
      }
      fanValueObsolete := fanValueObsolete[index := true];
      value := fanValue[index];
    }
  }

  /** With steady fans seven updates settle every divisor. */
  method Settle(chip: W836x)
    requires chip.Valid() && forall f: nat :: f < chip.fanLimit ==> chip.fans[f].Some?
    modifies chip
    ensures chip.Valid()
    ensures forall f: nat :: f < chip.fanLimit ==>
              && FanOffset(chip.regs, f) == Iterate(chip.fans[f].value, FanOffset(old(chip.regs), f), 7)
              && Settled(chip.fans[f].value, FanOffset(chip.regs, f))
  {
    for k := 0 to 7
      invariant chip.Valid()
      invariant forall f: nat :: f < chip.fanLimit ==>
                  FanOffset(chip.regs, f) == Iterate(chip.fans[f].value, FanOffset(old(chip.regs), f), k)
    {
      ghost var counts := chip.UpdateTachometers();
    }
    forall f: nat | f < chip.fanLimit
      ensures Settled(chip.fans[f].value, FanOffset(chip.regs, f))
    {
      Converges(chip.fans[f].value, FanOffset(old(chip.regs), f), 7);
    }
  }

  /** From then on an update writes no register. */
  method UpdateSettled(chip: W836x)
    requires chip.Valid()
    requires forall f: nat :: f < chip.fanLimit ==>
               chip.fans[f].Some? && Settled(chip.fans[f].value, FanOffset(chip.regs, f))
    modifies chip
    ensures chip.Valid() && chip.writes == old(chip.writes)
    ensures RegisterBytes(chip.regs) == RegisterBytes(old(chip.regs))
  {
    ghost var regs, log := chip.regs, chip.writes;
    ghost var counts := chip.UpdateTachometers();
    forall f: nat | f < chip.fanLimit
      ensures Next(FanOffset(regs, f), counts[f]) == FanOffset(regs, f)
    {
      SettledIffFixed(chip.fans[f].value, FanOffset(regs, f));
    }
    FixedFansFixRegisters(regs, counts, chip.fanLimit, chip.regs);
    NothingLogged(log, RegisterBytes(regs), 0);
  }
}
