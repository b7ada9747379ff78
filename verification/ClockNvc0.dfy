/**
 * The clock readers of GeForceSensors/nvc0.cpp, evaluated in 32-bit unsigned
 * arithmetic as the code does, or exactly. With a zero divider in an enabled
 * PLL the code divides by zero.
 */
module ClockNvc0 {
  import opened Bytes
  import opened Arith32

  type Registers = nat -> U32

  function MulOf(coef: U32): nat { coef / 0x100 % 0x100 }
  function DivOf(coef: U32): nat { coef % 0x100 }
  function PostOf(coef: U32): nat { coef / 0x1_0000 % 0x40 }

  /** The PLLs: two for the VCO, eight for the engines, two for the memory. */
  predicate IsPll(pll: nat) {
    || pll == 0x00e800 || pll == 0x00e820
    || (0x137000 <= pll <= 0x1370e0 && pll % 0x20 == 0)
    || pll == 0x132000 || pll == 0x132020
  }

  /** Every enabled PLL has a nonzero divider, and a nonzero post-divider where it has one. */
  ghost predicate Dividable(rd: Registers) {
    forall pll: nat :: IsPll(pll) && BitSet(rd(pll), 1) ==>
      DivOf(rd(pll + 4)) != 0 && (pll / 0x1000 == 0x00e || PostOf(rd(pll + 4)) != 0)
  }

  function PllRank(pll: nat): nat {
    if pll / 0x1000 == 0x00e then 0 else if pll == 0x132000 then 4 else 3
  }

  function ReadVco(rd: Registers, w: Width, dsrc: nat): Clock
    requires Dividable(rd)
    decreases 1
  {
    if !BitSet(rd(dsrc), 0x100) then ReadPll(rd, w, 0x00e800) else ReadPll(rd, w, 0x00e820)
  }

  function ReadPll(rd: Registers, w: Width, pll: nat): Clock
    requires Dividable(rd) && IsPll(pll)
    decreases PllRank(pll)
  {
    var ctrl, coef := rd(pll), rd(pll + 4);
    if !BitSet(ctrl, 1) then Fixed(0)
    else if pll / 0x1000 == 0x00e then Ratio(w, Fixed(27000), MulOf(coef), DivOf(coef), 1)
    else if pll / 0x1000 == 0x137 then
      Ratio(w, ReadDiv(rd, w, (pll - 0x137000) / 0x20, 0x137120, 0x137140), MulOf(coef), DivOf(coef), PostOf(coef))
    else if pll == 0x132000 then
      Ratio(w, ReadPll(rd, w, 0x132020), MulOf(coef), DivOf(coef), PostOf(coef))
    else
      Ratio(w, ReadDiv(rd, w, 0, 0x137320, 0x137330), MulOf(coef), DivOf(coef), PostOf(coef))
  }

  function Ratio(w: Width, c: Clock, n: nat, m: nat, p: nat): Clock
    requires m > 0 && p > 0
  {
    var times := Scaled(w, c, n);
    DivBound(times.value, m);
    DivBound(times.value / m, p);
    Clock(times.value / m / p, times.peak)
  }

  function ReadDiv(rd: Registers, w: Width, doff: nat, dsrc: nat, dctl: nat): Clock
    requires Dividable(rd)
    decreases 2
  {
    var ssrc, sctl := rd(dsrc + doff * 4), rd(dctl + doff * 4);
    if ssrc % 4 == 0 then Fixed(if ssrc / 0x1_0000 % 4 != 3 then 27000 else 108000)
    else if ssrc % 4 == 2 then Fixed(100000)
    else if ssrc % 4 == 3 then
      var vco := ReadVco(rd, w, dsrc + doff * 4);
      if BitSet(sctl, 0x8000_0000) then Halved(w, vco, sctl % 0x40 + 2) else vco
    else Fixed(0)
  }

  /** The PLL of an engine. */
  function EnginePll(clk: nat): (pll: nat)
    ensures IsPll(pll) && pll / 0x1000 == 0x137
  {
    if clk < 7 then 0x137000 + clk * 0x20 else 0x1370e0
  }

  function ReadClk(rd: Registers, w: Width, clk: nat): Clock
    requires Dividable(rd)
  {
    var sctl, ssel := rd(0x137250 + clk * 4), rd(0x137100);
    var onPll := BitSet(ssel, Pow2(clk));
    var sclk := if onPll then ReadPll(rd, w, EnginePll(clk)) else ReadDiv(rd, w, clk, 0x137160, 0x1371d0);
    var sdiv := (if onPll then sctl / 0x100 % 0x40 else sctl % 0x40) + 2;
    if BitSet(sctl, 0x8000_0000) then Halved(w, sclk, sdiv) else sclk
  }

  datatype ClockSource = Core | Shader | Rop | Hub01 | Hub06 | Hub07 | Vdec | Daemon | Copy | Other

  /** nvc0_clocks_get without the memory clock. */
  function ClocksGet(rd: Registers, w: Width, source: ClockSource): Clock
    requires Dividable(rd)
  {
    match source
    case Core =>
      var twice := ReadClk(rd, w, 0x00);
      Clock(twice.value / 2, twice.peak)
    case Shader => ReadClk(rd, w, 0x00)
    case Rop => ReadClk(rd, w, 0x01)
    case Hub01 => ReadClk(rd, w, 0x08)
    case Hub06 => ReadClk(rd, w, 0x07)
    case Hub07 => ReadClk(rd, w, 0x02)
    case Vdec => ReadClk(rd, w, 0x0e)
    case Daemon => ReadClk(rd, w, 0x0c)
    case Copy => ReadClk(rd, w, 0x09)
    case Other => Fixed(0)
  }

  const VCO_CAP: nat := 6885000     // 27000 * 255
  const PLL_CAP: nat := 1755675000  // VCO_CAP * 255

  lemma RatioFits(c: Clock, cap: nat, n: nat, m: nat, p: nat)
    requires n <= 255 && m > 0 && p > 0 && Fits(c, cap) && cap * 255 < LIMIT
    ensures Ratio(Wrapping, c, n, m, p) == Ratio(Exact, c, n, m, p)
    ensures Fits(Ratio(Exact, c, n, m, p), cap * 255)
  {
    var x := c.value * n;
    MulBound(c.value, n, cap, 255);
    MulFits(c.value, n);
    DivBound(x, m);
    DivBound(x / m, p);
  }

  lemma VcoFits(rd: Registers, dsrc: nat)
    requires Dividable(rd)
    ensures ReadVco(rd, Wrapping, dsrc) == ReadVco(rd, Exact, dsrc)
    ensures Fits(ReadVco(rd, Exact, dsrc), VCO_CAP)
  {
    var pll := if !BitSet(rd(dsrc), 0x100) then 0x00e800 else 0x00e820;
    var coef := rd(pll + 4);
    if BitSet(rd(pll), 1) {
      RatioFits(Fixed(27000), 27000, MulOf(coef), DivOf(coef), 1);
    }
  }

  lemma DivFits(rd: Registers, doff: nat, dsrc: nat, dctl: nat)
    requires Dividable(rd)
    ensures ReadDiv(rd, Wrapping, doff, dsrc, dctl) == ReadDiv(rd, Exact, doff, dsrc, dctl)
    ensures Fits(ReadDiv(rd, Exact, doff, dsrc, dctl), VCO_CAP)
  {
    VcoFits(rd, dsrc + doff * 4);
    HalvedFits(ReadVco(rd, Exact, dsrc + doff * 4), VCO_CAP, rd(dctl + doff * 4) % 0x40 + 2);
  }

  /** The PLLs that feed the engines. */
  lemma PllFits(rd: Registers, pll: nat)
    requires Dividable(rd) && IsPll(pll) && pll / 0x1000 == 0x137
    ensures ReadPll(rd, Wrapping, pll) == ReadPll(rd, Exact, pll)
    ensures Fits(ReadPll(rd, Exact, pll), PLL_CAP)
  {
    var coef := rd(pll + 4);
    if BitSet(rd(pll), 1) {
      var doff := (pll - 0x137000) / 0x20;
      DivFits(rd, doff, 0x137120, 0x137140);
      RatioFits(ReadDiv(rd, Exact, doff, 0x137120, 0x137140), VCO_CAP, MulOf(coef), DivOf(coef), PostOf(coef));
    }
  }

  lemma ClkFits(rd: Registers, clk: nat)
    requires Dividable(rd)
    ensures ReadClk(rd, Wrapping, clk) == ReadClk(rd, Exact, clk)
    ensures Fits(ReadClk(rd, Exact, clk), PLL_CAP)
  {
    var sctl := rd(0x137250 + clk * 4);
    PllFits(rd, EnginePll(clk));
    DivFits(rd, clk, 0x137160, 0x1371d0);
    var onPll := BitSet(rd(0x137100), Pow2(clk));
    var sclk := if onPll then ReadPll(rd, Exact, EnginePll(clk)) else ReadDiv(rd, Exact, clk, 0x137160, 0x1371d0);
    HalvedFits(sclk, PLL_CAP, (if onPll then sctl / 0x100 % 0x40 else sctl % 0x40) + 2);
  }

  /** No product formed on the way overflows 32 bits, and the int returned is not negative. */
  lemma NothingOverflows(rd: Registers, source: ClockSource)
    requires Dividable(rd)
    ensures ClocksGet(rd, Wrapping, source) == ClocksGet(rd, Exact, source)
    ensures Fits(ClocksGet(rd, Exact, source), PLL_CAP) && PLL_CAP < 0x8000_0000
  {
    ClkFits(rd, 0x00);
    ClkFits(rd, 0x01);
    ClkFits(rd, 0x02);
    ClkFits(rd, 0x07);
    ClkFits(rd, 0x08);
    ClkFits(rd, 0x09);
    ClkFits(rd, 0x0c);
    ClkFits(rd, 0x0e);
  }

  /** The largest core clock there is: its PLL and the VCO both multiply by 255. */
  function Largest(): Registers {
    r => if r == 0x137100 || r == 0x137000 || r == 0x00e800 then 1
         else if r == 0x137004 then 0x1_ff01
         else if r == 0x00e804 then 0xff01
         else if r == 0x137120 then 3
         else 0
  }

  lemma TimesOnly(c: Clock, n: nat)
    ensures Ratio(Exact, c, n, 1, 1).value == c.value * n
  {
  }

  lemma LargestIsDividable()
    ensures Dividable(Largest())
  {
    assert BitSet(1, 1) && !BitSet(0, 1) && DivOf(0x1_ff01) == PostOf(0x1_ff01) == DivOf(0xff01) == 1;
  }

  lemma LargestVco()
    requires Dividable(Largest())
    ensures ReadDiv(Largest(), Exact, 0, 0x137120, 0x137140).value == VCO_CAP
  {
    assert !BitSet(3, 0x100) && BitSet(1, 1) && !BitSet(0, 0x8000_0000);
    assert MulOf(0xff01) == 255 && DivOf(0xff01) == 1;
    TimesOnly(Fixed(27000), 255);
  }

  lemma LargestPll()
    requires Dividable(Largest())
    ensures ReadPll(Largest(), Exact, 0x137000).value == PLL_CAP
  {
    LargestVco();
    assert BitSet(1, 1) && MulOf(0x1_ff01) == 255 && DivOf(0x1_ff01) == PostOf(0x1_ff01) == 1;
    TimesOnly(ReadDiv(Largest(), Exact, 0, 0x137120, 0x137140), 255);
  }

  /** The bound is reached. */
  lemma CapReached()
    ensures Dividable(Largest()) && ClocksGet(Largest(), Exact, Shader).value == PLL_CAP
  {
    LargestIsDividable();
    LargestPll();
    assert BitSet(1, Pow2(0)) && !BitSet(0, 0x8000_0000) && EnginePll(0) == 0x137000;
  }

  /** A divider's source, and the halving divider behind it if it is used. */
  datatype Feed = Off | From27MHz | From108MHz | From100MHz | FromVco(second: bool, divider: Option<nat>)

  datatype Setting = Stopped | Running(n: nat, m: nat, p: nat)

  /** An engine's clock: its PLL or its divider, and the halving divider behind that if it is used. */
  datatype Engine = OnPll(feed: Feed, pll: Setting, divider: Option<nat>) | OnDivider(feed: Feed, divider: Option<nat>)

  predicate ValidDivider(x: Option<nat>) {
    x.Some? ==> 2 <= x.value <= 65
  }

  function DividerField(x: Option<nat>): nat {
    if x.Some? && x.value >= 2 then x.value - 2 else 0
  }

  function SourceWord(f: Feed): nat {
    match f
    case Off => 1
    case From27MHz => 0
    case From108MHz => 0x3_0000
    case From100MHz => 2
    case FromVco(second, _) => if second then 0x103 else 3
  }

  ghost predicate Fed(rd: Registers, dsrc: nat, dctl: nat, f: Feed) {
    && rd(dsrc) == SourceWord(f)
    && (f.FromVco? ==>
          && ValidDivider(f.divider)
          && rd(dctl) == (if f.divider.Some? then 0x8000_0000 else 0) + DividerField(f.divider))
  }

  ghost predicate Set(rd: Registers, pll: nat, x: Setting) {
    match x
    case Stopped => rd(pll) == 0
    case Running(n, m, p) =>
      n <= 255 && 1 <= m <= 255 && p <= 63 && rd(pll) == 1 && rd(pll + 4) == 0x1_0000 * p + 0x100 * n + m
  }

  /** v is ref * n / m / p, rounded down. */
  predicate Multiplies(x: Setting, ref: nat, v: nat) {
    match x
    case Stopped => v == 0
    case Running(n, m, p) => Floor(v, ref * n, m * p)
  }

  predicate Halves(divider: Option<nat>, ref: nat, v: nat) {
    if divider.Some? then Floor(v, 2 * ref, divider.value) else v == ref
  }

  predicate Feeds(f: Feed, first: nat, second: nat, v: nat) {
    match f
    case Off => v == 0
    case From27MHz => v == 27000
    case From108MHz => v == 108000
    case From100MHz => v == 100000
    case FromVco(other, divider) => Halves(divider, if other then second else first, v)
  }

  lemma Regroup(v: nat, p: nat, m: nat)
    ensures v * p * m == v * (m * p)
  {
  }

  /** Dividing twice and rounding each time is dividing once by the product. */
  lemma FloorTwice(x: nat, m: nat, p: nat)
    requires m > 0 && p > 0
    ensures Floor(x / m / p, x, m * p)
  {
    DivIsFloor(x, m);
    DivIsFloor(x / m, p);
    FloorOfFloor(x, x / m, x / m / p, m, p);
  }

  lemma FloorOfFloor(x: nat, q: nat, v: nat, m: nat, p: nat)
    requires Floor(q, x, m) && Floor(v, q, p)
    ensures Floor(v, x, m * p)
  {
    MulBound(v * p, m, q, m);
    MulBound(q + 1, m, (v + 1) * p, m);
    Regroup(v, p, m);
    Regroup(v + 1, p, m);
  }

  lemma RatioIs(c: Clock, n: nat, m: nat, p: nat)
    requires m > 0 && p > 0
    ensures Floor(Ratio(Exact, c, n, m, p).value, c.value * n, m * p)
  {
    FloorTwice(c.value * n, m, p);
  }

  lemma CoefFields(n: nat, m: nat, p: nat)
    requires n <= 255 && m <= 255 && p <= 63
    ensures var coef := 0x1_0000 * p + 0x100 * n + m;
            MulOf(coef) == n && DivOf(coef) == m && PostOf(coef) == p
  {
    var coef := 0x1_0000 * p + 0x100 * n + m;
    assert coef / 0x100 == 0x100 * p + n;
  }

  lemma Enabled()
    ensures BitSet(1, 1) && !BitSet(0, 1)
  {
  }

  /** The VCOs multiply 27 MHz and have no post-divider. */
  lemma VcoReads(rd: Registers, second: bool, x: Setting)
    requires Dividable(rd) && Set(rd, if second then 0xe820 else 0xe800, x)
    ensures Multiplies(if x.Running? then Running(x.n, x.m, 1) else x, 27000, ReadPll(rd, Exact, if second then 0xe820 else 0xe800).value)
  {
    Enabled();
    if x.Running? {
      CoefFields(x.n, x.m, x.p);
      RatioIs(Fixed(27000), x.n, x.m, 1);
    }
  }

  lemma ControlFields(x: Option<nat>, shift: nat)
    requires ValidDivider(x) && shift in {1, 0x100}
    ensures var w := (if x.Some? then 0x8000_0000 else 0) + shift * DividerField(x);
            BitSet(w, 0x8000_0000) == x.Some? && (x.Some? ==> w / shift % 0x40 + 2 == x.value)
  {
    var f := DividerField(x);
    if shift == 1 {
      LowField(0x200_0000, f);
    } else {
      LowField(0x2_0000, f);
      assert (0x8000_0000 + 0x100 * f) / 0x100 == 0x80_0000 + f;
    }
  }

  lemma LowField(h: nat, f: nat)
    requires f < 0x40
    ensures (0x40 * h + f) % 0x40 == f
  {
  }

  lemma HalvesIs(c: Clock, x: Option<nat>)
    requires ValidDivider(x)
    ensures Halves(x, c.value, (if x.Some? then Halved(Exact, c, x.value) else c).value)
  {
    if x.Some? {
      HalvedIs(c, x.value);
    }
  }

  lemma SourceFields(f: Feed)
    ensures var w := SourceWord(f);
            && w % 4 == (match f case Off => 1 case From27MHz => 0 case From108MHz => 0 case From100MHz => 2 case FromVco(_, _) => 3)
            && (f.From27MHz? ==> w / 0x1_0000 % 4 == 0) && (f.From108MHz? ==> w / 0x1_0000 % 4 == 3)
            && (f.FromVco? ==> BitSet(w, 0x100) == f.second)
  {
  }

  /** A divider reads as what feeds it. */
  lemma DivReads(rd: Registers, doff: nat, dsrc: nat, dctl: nat, f: Feed)
    requires Dividable(rd) && Fed(rd, dsrc + 4 * doff, dctl + 4 * doff, f)
    ensures Feeds(f, ReadPll(rd, Exact, 0xe800).value, ReadPll(rd, Exact, 0xe820).value,
                  ReadDiv(rd, Exact, doff, dsrc, dctl).value)
  {
    hide Halves, Halved, Dividable, SourceWord, DividerField;
    SourceFields(f);
    assert dsrc + doff * 4 == dsrc + 4 * doff && dctl + doff * 4 == dctl + 4 * doff;
    if f.FromVco? {
      ControlFields(f.divider, 1);
      HalvesIs(ReadVco(rd, Exact, dsrc + doff * 4), f.divider);
    }
  }

  /** The number of a clock's engine. */
  function EngineOf(source: ClockSource): nat {
    match source
    case Core => 0
    case Shader => 0
    case Rop => 1
    case Hub01 => 8
    case Hub06 => 7
    case Hub07 => 2
    case Vdec => 14
    case Daemon => 12
    case Copy => 9
    case Other => 0
  }

  /** Engine k, the first seven with a PLL of their own and the others with the eighth one. */
  ghost predicate Programmed(rd: Registers, k: nat, e: Engine) {
    && ValidDivider(e.divider)
    && (BitSet(rd(0x137100), Pow2(k)) == e.OnPll?)
    && match e
       case OnPll(feed, pll, divider) =>
         var i := if k < 7 then k else 7;
         && Fed(rd, 0x137120 + 4 * i, 0x137140 + 4 * i, feed) && Set(rd, 0x137000 + 0x20 * i, pll)
         && rd(0x137250 + 4 * k) == (if divider.Some? then 0x8000_0000 else 0) + 0x100 * DividerField(divider)
       case OnDivider(feed, divider) =>
         && Fed(rd, 0x137160 + 4 * k, 0x1371d0 + 4 * k, feed)
         && rd(0x137250 + 4 * k) == (if divider.Some? then 0x8000_0000 else 0) + DividerField(divider)
  }

  lemma PllReads(rd: Registers, i: nat, feed: Feed, x: Setting) returns (fed: nat)
    requires Dividable(rd) && i <= 7 && Fed(rd, 0x137120 + 4 * i, 0x137140 + 4 * i, feed) && Set(rd, 0x137000 + 0x20 * i, x)
    ensures Feeds(feed, ReadPll(rd, Exact, 0xe800).value, ReadPll(rd, Exact, 0xe820).value, fed)
    ensures Multiplies(x, fed, ReadPll(rd, Exact, 0x137000 + 0x20 * i).value)
  {
    hide Feeds, Fed;
    Enabled();
    DivReads(rd, i, 0x137120, 0x137140, feed);
    var c := ReadDiv(rd, Exact, i, 0x137120, 0x137140);
    fed := c.value;
    var pll := 0x137000 + 0x20 * i;
    assert IsPll(pll) && (pll - 0x137000) / 0x20 == i && pll / 0x1000 == 0x137;
    if x.Running? {
      CoefFields(x.n, x.m, x.p);
      assert BitSet(rd(pll), 1);
      RatioIs(c, x.n, x.m, x.p);
    }
  }

  /** An engine on its PLL... */
  lemma OnPllReads(rd: Registers, k: nat, e: Engine) returns (fed: nat, undivided: nat)
    requires Dividable(rd) && Programmed(rd, k, e) && e.OnPll?
    ensures Feeds(e.feed, ReadPll(rd, Exact, 0xe800).value, ReadPll(rd, Exact, 0xe820).value, fed)
    ensures Multiplies(e.pll, fed, undivided) && Halves(e.divider, undivided, ReadClk(rd, Exact, k).value)
  {
    hide Feeds, Fed, Multiplies, Halves, Halved, Dividable, DividerField;
    var i := if k < 7 then k else 7;
    fed := PllReads(rd, i, e.feed, e.pll);
    assert EnginePll(k) == 0x137000 + 0x20 * i;
    var c := ReadPll(rd, Exact, EnginePll(k));
    undivided := c.value;
    ControlFields(e.divider, 0x100);
    HalvesIs(c, e.divider);
  }

  /** ...and one on its divider. */
  lemma OnDividerReads(rd: Registers, k: nat, e: Engine) returns (fed: nat)
    requires Dividable(rd) && Programmed(rd, k, e) && e.OnDivider?
    ensures Feeds(e.feed, ReadPll(rd, Exact, 0xe800).value, ReadPll(rd, Exact, 0xe820).value, fed)
    ensures Halves(e.divider, fed, ReadClk(rd, Exact, k).value)
  {
    hide Feeds, Fed, Halves, Halved, Dividable, DividerField;
    DivReads(rd, k, 0x137160, 0x1371d0, e.feed);
    var c := ReadDiv(rd, Exact, k, 0x137160, 0x1371d0);
    fed := c.value;
    ControlFields(e.divider, 1);
    HalvesIs(c, e.divider);
  }

  /** Every clock reads as its engine was programmed, each stage rounded down; the core's is half the shader's. */
  lemma ReadsAsProgrammed(rd: Registers, source: ClockSource, e: Engine, first: Setting, second: Setting)
    returns (vco1: nat, vco2: nat, fed: nat, undivided: nat, clock: nat)
    requires Dividable(rd) && Set(rd, 0xe800, first) && Set(rd, 0xe820, second)
    requires !source.Other? && Programmed(rd, EngineOf(source), e)
    ensures Multiplies(if first.Running? then Running(first.n, first.m, 1) else first, 27000, vco1)
    ensures Multiplies(if second.Running? then Running(second.n, second.m, 1) else second, 27000, vco2)
    ensures Feeds(e.feed, vco1, vco2, fed)
    ensures if e.OnPll? then Multiplies(e.pll, fed, undivided) else undivided == fed
    ensures Halves(e.divider, undivided, clock)
    ensures if source.Core? then Floor(ClocksGet(rd, Exact, source).value, clock, 2)
            else ClocksGet(rd, Exact, source).value == clock
  {
    hide Feeds, Fed, Multiplies, Halves, Programmed, Dividable;
    VcoReads(rd, false, first);
    VcoReads(rd, true, second);
    vco1, vco2 := ReadPll(rd, Exact, 0xe800).value, ReadPll(rd, Exact, 0xe820).value;
    var k := EngineOf(source);
    if e.OnPll? {
      fed, undivided := OnPllReads(rd, k, e);
    } else {
      fed := OnDividerReads(rd, k, e);
      undivided := fed;
    }
    clock := ReadClk(rd, Exact, k).value;
  }
}
