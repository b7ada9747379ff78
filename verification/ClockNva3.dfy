/**
 * The clock readers of GeForceSensors/nva3.cpp, evaluated in 32-bit unsigned
 * arithmetic as the code does, or exactly.
 */
module ClockNva3 {
  import opened Arith32

  type Registers = nat -> U32

  datatype Device = Device(chipset: nat, crystal: U32, rd: Registers)

  function Divided(w: Width, c: Clock, n: nat, m: nat, p: nat): Clock {
    var below := Scaled(w, Fixed(m), p);
    if below.value != 0 then
      var above := Scaled(w, c, n);
      DivBound(above.value, below.value);
      Clock(above.value / below.value, Max(above.peak, below.peak))
    else
      Clock(0, Max(c.peak, below.peak))
  }

  function ReadVco(d: Device, w: Width, clk: nat): Clock
    decreases 2
  {
    var sctl := d.rd(0x4120 + clk * 4);
    if sctl / 0x10 % 4 != 3 then ReadPll(d, w, 0x41, 0x00e820) else ReadPll(d, w, 0x42, 0x00e8a0)
  }

  function ReadClk(d: Device, w: Width, clk: nat, ignoreEn: bool): Clock
    decreases if clk >= 0x40 then 0 else 3
  {
    if clk >= 0x40 then
      if d.chipset == 0xaf then Scaled(w, Fixed(d.rd(0x00471c)), 1000) else Fixed(d.crystal)
    else
      var sctl := d.rd(0x4120 + clk * 4);
      if !ignoreEn && !BitSet(sctl, 0x100) then Fixed(0)
      else
        var sel := sctl / 0x1000 % 4;
        if sel == 0 then Fixed(d.crystal)
        else if sel == 2 then Fixed(if BitSet(sctl, 0x40) then 108000 else 100000)
        else if sel == 3 then Halved(w, ReadVco(d, w, clk), sctl / 0x1_0000 % 0x40 + 2)
        else Fixed(0)
  }

  function ReadPll(d: Device, w: Width, clk: nat, pll: nat): Clock
    decreases if clk >= 0x40 then 1 else 4
  {
    var ctrl := d.rd(pll);
    if !BitSet(ctrl, 0x8) then
      if BitSet(ctrl, 0x1) then
        var coef := d.rd(pll + 4);
        var p := if pll / 0x100 % 0x100 == 0xe8 then 1 else coef / 0x1_0000 % 0x40;
        Divided(w, ReadClk(d, w, clk, false), coef / 0x100 % 0x100, coef % 0x100, p)
      else Divided(w, Fixed(0), 1, 1, 1)
    else Divided(w, ReadClk(d, w, 0x10 + clk, false), 1, 1, 1)
  }

  datatype ClockSource = Core | Shader | Memory | Unka0 | Vdec | Daemon | Copy | Other

  /** nva3_clocks_get, before the result is returned as an int. */
  function ClocksGet(d: Device, w: Width, source: ClockSource): Clock {
    match source
    case Core => ReadPll(d, w, 0x00, 0x4200)
    case Shader => ReadPll(d, w, 0x01, 0x4220)
    case Memory => ReadPll(d, w, 0x02, 0x4000)
    case Unka0 => ReadClk(d, w, 0x20, false)
    case Vdec => ReadClk(d, w, 0x21, false)
    case Daemon => ReadClk(d, w, 0x25, false)
    case Copy => ReadPll(d, w, 0x00, 0x4200)
    case Other => Fixed(0)
  }

  lemma DividedFits(c: Clock, cap: nat, n: nat, m: nat, p: nat)
    requires n <= 255 && m <= 255 && p <= 63 && Fits(c, cap) && cap * 255 < LIMIT
    ensures Divided(Wrapping, c, n, m, p) == Divided(Exact, c, n, m, p)
    ensures Fits(Divided(Exact, c, n, m, p), cap * 255)
  {
    var x, y := c.value * n, m * p;
    MulBound(c.value, n, cap, 255);
    MulBound(m, p, 255, 63);
    MulFits(c.value, n);
    MulFits(m, p);
    if y > 0 {
      DivBound(x, y);
    }
  }

  lemma VcoFits(d: Device, clk: nat)
    requires d.chipset != 0xaf && d.crystal * 255 < LIMIT
    ensures ReadVco(d, Wrapping, clk) == ReadVco(d, Exact, clk)
    ensures Fits(ReadVco(d, Exact, clk), d.crystal * 255)
  {
    VcoPllFits(d, 0x41, 0x00e820);
    VcoPllFits(d, 0x42, 0x00e8a0);
  }

  lemma VcoPllFits(d: Device, clk: nat, pll: nat)
    requires d.chipset != 0xaf && d.crystal * 255 < LIMIT && clk >= 0x40
    ensures ReadPll(d, Wrapping, clk, pll) == ReadPll(d, Exact, clk, pll)
    ensures Fits(ReadPll(d, Exact, clk, pll), d.crystal * 255)
  {
    var coef := d.rd(pll + 4);
    var p := if pll / 0x100 % 0x100 == 0xe8 then 1 else coef / 0x1_0000 % 0x40;
    DividedFits(Fixed(d.crystal), d.crystal, coef / 0x100 % 0x100, coef % 0x100, p);
    DividedFits(Fixed(d.crystal), d.crystal, 1, 1, 1);
    DividedFits(Fixed(0), d.crystal, 1, 1, 1);
  }

  /** A clock that is not a PLL's is at most the larger of the VCO limit and 108 MHz. */
  function ClkCap(crystal: nat): nat {
    if crystal * 255 > 108000 then crystal * 255 else 108000
  }

  lemma ClkFits(d: Device, clk: nat)
    requires d.chipset != 0xaf && 2 * d.crystal * 255 < LIMIT
    ensures ReadClk(d, Wrapping, clk, false) == ReadClk(d, Exact, clk, false)
    ensures Fits(ReadClk(d, Exact, clk, false), ClkCap(d.crystal))
  {
    if clk < 0x40 {
      VcoFits(d, clk);
      HalvedFits(ReadVco(d, Exact, clk), d.crystal * 255, d.rd(0x4120 + clk * 4) / 0x1_0000 % 0x40 + 2);
    }
  }

  lemma PllFits(d: Device, clk: nat, pll: nat)
    requires d.chipset != 0xaf && ClkCap(d.crystal) * 255 < LIMIT
    ensures ReadPll(d, Wrapping, clk, pll) == ReadPll(d, Exact, clk, pll)
    ensures Fits(ReadPll(d, Exact, clk, pll), ClkCap(d.crystal) * 255)
  {
    var coef, cap := d.rd(pll + 4), ClkCap(d.crystal);
    var p := if pll / 0x100 % 0x100 == 0xe8 then 1 else coef / 0x1_0000 % 0x40;
    ClkFits(d, clk);
    ClkFits(d, 0x10 + clk);
    DividedFits(ReadClk(d, Exact, clk, false), cap, coef / 0x100 % 0x100, coef % 0x100, p);
    DividedFits(ReadClk(d, Exact, 0x10 + clk, false), cap, 1, 1, 1);
    DividedFits(Fixed(0), cap, 1, 1, 1);
  }

  /** With a crystal of at most 66051 kHz no product formed in any reading overflows 32 bits... */
  lemma NothingOverflows(d: Device, source: ClockSource)
    requires d.chipset != 0xaf && d.crystal <= 66051
    ensures ClocksGet(d, Wrapping, source) == ClocksGet(d, Exact, source)
    ensures Fits(ClocksGet(d, Exact, source), ClkCap(d.crystal) * 255)
  {
    PllFits(d, 0x00, 0x4200);
    PllFits(d, 0x01, 0x4220);
    PllFits(d, 0x02, 0x4000);
    ClkFits(d, 0x20);
    ClkFits(d, 0x21);
    ClkFits(d, 0x25);
  }

  /** A register file whose core PLL multiplies the crystal by 255 twice. */
  function Largest(crystal: U32): Device {
    Device(0xa3, crystal, r => if r == 0x4120 then 0x3100
                               else if r == 0x4200 || r == 0xe820 then 0x1
                               else if r == 0x4204 then 0x1_ff01
                               else if r == 0xe824 then 0xff01
                               else 0)
  }

  /** ...and with a larger one some register file makes the core clock overflow. */
  lemma LargerOverflows(crystal: U32)
    requires crystal > 66051
    ensures ClocksGet(Largest(crystal), Exact, Core).value == crystal * 65025 >= LIMIT
    ensures ClocksGet(Largest(crystal), Wrapping, Core).value < LIMIT
  {
    LargestClk(crystal);
    CoreTimes(Largest(crystal), Exact);
    CoreTimes(Largest(crystal), Wrapping);
  }

  lemma TimesOnly(w: Width, c: Clock, n: nat)
    ensures Divided(w, c, n, 1, 1).value == w.Mul(c.value, n)
  {
  }

  /** The core PLL multiplies its clock by 255. */
  lemma CoreTimes(d: Device, w: Width)
    requires d.rd(0x4200) == 1 && d.rd(0x4204) == 0x1_ff01
    ensures ClocksGet(d, w, Core).value == w.Mul(ReadClk(d, w, 0x00, false).value, 255)
  {
    assert !BitSet(1, 0x8) && BitSet(1, 0x1);
    assert 0x1_ff01 / 0x100 % 0x100 == 255 && 0x1_ff01 % 0x100 == 1 && 0x1_ff01 / 0x1_0000 % 0x40 == 1;
    assert 0x4200 / 0x100 % 0x100 == 0x42;
    TimesOnly(w, ReadClk(d, w, 0x00, false), 255);
  }

  lemma LargestVco(crystal: U32)
    ensures ReadVco(Largest(crystal), Exact, 0x00).value == crystal * 255
  {
    var d := Largest(crystal);
    assert d.rd(0x4120) == 0x3100 && d.rd(0xe820) == 1 && d.rd(0xe824) == 0xff01;
    assert 0x3100 / 0x10 % 4 == 0;
    assert ReadPll(d, Exact, 0x41, 0x00e820) == Divided(Exact, Fixed(crystal), 255, 1, 1);
  }

  lemma LargestClk(crystal: U32)
    ensures ReadClk(Largest(crystal), Exact, 0x00, false).value == crystal * 255
  {
    var d := Largest(crystal);
    LargestVco(crystal);
    assert d.rd(0x4120) == 0x3100;
    assert BitSet(0x3100, 0x100) && 0x3100 / 0x1000 % 4 == 3 && 0x3100 / 0x1_0000 % 0x40 + 2 == 2;
    var v := crystal * 255;
    assert v * 2 / 2 == v;
  }

  /** The bound of the shipped crystals: the int returned is not negative. */
  lemma ResultIsNonNegative(d: Device, source: ClockSource)
    requires d.chipset != 0xaf && d.crystal <= 27000
    ensures ClocksGet(d, Wrapping, source) == ClocksGet(d, Exact, source)
    ensures Fits(ClocksGet(d, Exact, source), 1755675000) && 1755675000 < 0x8000_0000
  {
    NothingOverflows(d, source);
    MulBound(ClkCap(d.crystal), 255, 27000 * 255, 255);
  }

  /** What a clock domain is fed with. */
  datatype Feed = Gated | FromCrystal | From100MHz | From108MHz | FromVco(second: bool, divider: nat)

  /** How a PLL is set: off, passing its reference through, or multiplying it by n / (m * p). */
  datatype Setting = Stopped | Bypassed | Running(n: nat, m: nat, p: nat)

  predicate ValidFeed(f: Feed) {
    f.FromVco? ==> 2 <= f.divider <= 65
  }

  predicate ValidSetting(x: Setting) {
    x.Running? ==> x.n <= 255 && x.m <= 255 && x.p <= 63
  }

  /** The words that set them. */
  function FeedWord(f: Feed): nat {
    match f
    case Gated => 0
    case FromCrystal => 0x0100
    case From100MHz => 0x2100
    case From108MHz => 0x2140
    case FromVco(second, divider) => 0x3100 + (if second then 0x30 else 0) + 0x1_0000 * (if divider >= 2 then divider - 2 else 0)
  }

  ghost predicate Fed(d: Device, clk: nat, f: Feed) {
    ValidFeed(f) && d.rd(0x4120 + 4 * clk) == FeedWord(f)
  }

  ghost predicate Set(d: Device, pll: nat, x: Setting) {
    && ValidSetting(x)
    && match x
       case Stopped => d.rd(pll) == 0
       case Bypassed => d.rd(pll) == 8
       case Running(n, m, p) => d.rd(pll) == 1 && d.rd(pll + 4) == 0x1_0000 * p + 0x100 * n + m
  }

  /** What a PLL makes of its reference. */
  predicate Multiplies(x: Setting, ref: nat, bypass: nat, v: nat) {
    match x
    case Stopped => v == 0
    case Bypassed => v == bypass
    case Running(n, m, p) => if m * p == 0 then v == 0 else Floor(v, ref * n, m * p)
  }

  /** The clock of a domain. */
  predicate Feeds(f: Feed, crystal: nat, first: nat, second: nat, v: nat) {
    match f
    case Gated => v == 0
    case FromCrystal => v == crystal
    case From100MHz => v == 100000
    case From108MHz => v == 108000
    case FromVco(other, divider) => Floor(v, 2 * (if other then second else first), divider)
  }

  lemma DividedIs(c: Clock, n: nat, m: nat, p: nat)
    ensures var v := Divided(Exact, c, n, m, p).value;
            if m * p == 0 then v == 0 else Floor(v, c.value * n, m * p)
  {
    if m * p != 0 {
      DivIsFloor(c.value * n, m * p);
    }
  }

  lemma CoefFields(n: nat, m: nat, p: nat)
    requires n <= 255 && m <= 255 && p <= 63
    ensures var coef := 0x1_0000 * p + 0x100 * n + m;
            coef % 0x100 == m && coef / 0x100 % 0x100 == n && coef / 0x1_0000 % 0x40 == p
  {
    var coef := 0x1_0000 * p + 0x100 * n + m;
    assert coef / 0x100 == 0x100 * p + n;
  }

  /** A PLL that is set reads as what it makes of the clock of its domain. */
  lemma PllReads(d: Device, clk: nat, pll: nat, x: Setting)
    requires clk < 0x30 && pll / 0x100 % 0x100 != 0xe8 && Set(d, pll, x)
    ensures Multiplies(x, ReadClk(d, Exact, clk, false).value, ReadClk(d, Exact, 0x10 + clk, false).value,
                       ReadPll(d, Exact, clk, pll).value)
  {
    assert BitSet(8, 8) && !BitSet(1, 8) && !BitSet(0, 8) && BitSet(1, 1) && !BitSet(0, 1);
    match x {
      case Stopped => DividedIs(Fixed(0), 1, 1, 1);
      case Bypassed => DividedIs(ReadClk(d, Exact, 0x10 + clk, false), 1, 1, 1);
      case Running(n, m, p) =>
        CoefFields(n, m, p);
        DividedIs(ReadClk(d, Exact, clk, false), n, m, p);
    }
  }

  /** The VCOs multiply the crystal and have no post-divider. */
  lemma VcoReads(d: Device, second: bool, x: Setting)
    requires d.chipset != 0xaf && Set(d, if second then 0xe8a0 else 0xe820, x)
    ensures var v := ReadPll(d, Exact, if second then 0x42 else 0x41, if second then 0xe8a0 else 0xe820).value;
            Multiplies(if x.Running? then Running(x.n, x.m, 1) else x, d.crystal, d.crystal, v)
  {
    assert BitSet(8, 8) && !BitSet(1, 8) && !BitSet(0, 8) && BitSet(1, 1) && !BitSet(0, 1);
    match x {
      case Stopped => DividedIs(Fixed(0), 1, 1, 1);
      case Bypassed => DividedIs(Fixed(d.crystal), 1, 1, 1);
      case Running(n, m, p) =>
        CoefFields(n, m, p);
        DividedIs(Fixed(d.crystal), n, m, 1);
    }
  }

  lemma FeedFields(f: Feed)
    requires ValidFeed(f)
    ensures var w := FeedWord(f);
            && BitSet(w, 0x100) == !f.Gated?
            && (w / 0x1000 % 4 == match f case From100MHz => 2 case From108MHz => 2 case FromVco(_, _) => 3 case _ => 0)
            && (f.From100MHz? ==> !BitSet(w, 0x40)) && (f.From108MHz? ==> BitSet(w, 0x40))
            && (f.FromVco? ==> (w / 0x10 % 4 == 3) == f.second && w / 0x1_0000 % 0x40 + 2 == f.divider)
  {
    if f.FromVco? {
      var low := if f.second then 0x3130 else 0x3100;
      var w := FeedWord(f);
      assert w == 0x1_0000 * (f.divider - 2) + low;
      assert w / 0x1_0000 == f.divider - 2;
      assert w / 0x10 == 0x1000 * (f.divider - 2) + low / 0x10;
      assert w / 0x100 == 0x100 * (f.divider - 2) + 0x31;
      assert w / 0x1000 == 0x10 * (f.divider - 2) + 3;
    }
  }

  /** A domain that is fed reads as that clock. */
  lemma ClkReads(d: Device, clk: nat, f: Feed)
    requires clk < 0x40 && Fed(d, clk, f)
    ensures Feeds(f, d.crystal, ReadPll(d, Exact, 0x41, 0xe820).value, ReadPll(d, Exact, 0x42, 0xe8a0).value,
                  ReadClk(d, Exact, clk, false).value)
  {
    FeedFields(f);
    if f.FromVco? {
      HalvedIs(ReadVco(d, Exact, clk), f.divider);
    }
  }

  /** A graphics card's clocks as they are set. */
  datatype Card = Card(first: Setting, second: Setting, feed: Feed, bypass: Feed, pll: Setting)

  /** The domain and, if it has one, the PLL of each clock. */
  ghost predicate Programmed(d: Device, c: Card, source: ClockSource) {
    && d.chipset != 0xaf && Set(d, 0xe820, c.first) && Set(d, 0xe8a0, c.second)
    && match source
       case Core => Fed(d, 0x00, c.feed) && Fed(d, 0x10, c.bypass) && Set(d, 0x4200, c.pll)
       case Copy => Fed(d, 0x00, c.feed) && Fed(d, 0x10, c.bypass) && Set(d, 0x4200, c.pll)
       case Shader => Fed(d, 0x01, c.feed) && Fed(d, 0x11, c.bypass) && Set(d, 0x4220, c.pll)
       case Memory => Fed(d, 0x02, c.feed) && Fed(d, 0x12, c.bypass) && Set(d, 0x4000, c.pll)
       case Unka0 => Fed(d, 0x20, c.feed) && c.pll == Bypassed && c.bypass == c.feed
       case Vdec => Fed(d, 0x21, c.feed) && c.pll == Bypassed && c.bypass == c.feed
       case Daemon => Fed(d, 0x25, c.feed) && c.pll == Bypassed && c.bypass == c.feed
       case Other => c.pll == Stopped
  }

  lemma DomainReads(d: Device, c: Card, clk: nat, pll: nat) returns (feed: nat, bypass: nat)
    requires clk < 0x10 && pll / 0x100 % 0x100 != 0xe8
    requires Fed(d, clk, c.feed) && Fed(d, 0x10 + clk, c.bypass) && Set(d, pll, c.pll)
    ensures var first, second := ReadPll(d, Exact, 0x41, 0xe820).value, ReadPll(d, Exact, 0x42, 0xe8a0).value;
            && Feeds(c.feed, d.crystal, first, second, feed) && Feeds(c.bypass, d.crystal, first, second, bypass)
            && Multiplies(c.pll, feed, bypass, ReadPll(d, Exact, clk, pll).value)
  {
    hide Feeds, Multiplies;
    ClkReads(d, clk, c.feed);
    ClkReads(d, 0x10 + clk, c.bypass);
    PllReads(d, clk, pll, c.pll);
    feed, bypass := ReadClk(d, Exact, clk, false).value, ReadClk(d, Exact, 0x10 + clk, false).value;
  }

  lemma DirectReads(d: Device, c: Card, clk: nat) returns (feed: nat, bypass: nat)
    requires clk < 0x40 && Fed(d, clk, c.feed) && c.bypass == c.feed
    ensures var first, second := ReadPll(d, Exact, 0x41, 0xe820).value, ReadPll(d, Exact, 0x42, 0xe8a0).value;
            Feeds(c.feed, d.crystal, first, second, feed) && feed == bypass == ReadClk(d, Exact, clk, false).value
  {
    ClkReads(d, clk, c.feed);
    feed := ReadClk(d, Exact, clk, false).value;
    bypass := feed;
  }

  /** Every clock reads as it was programmed, each stage rounded down. */
  lemma ReadsAsProgrammed(d: Device, c: Card, source: ClockSource) returns (first: nat, second: nat, feed: nat, bypass: nat)
    requires Programmed(d, c, source)
    ensures Multiplies(if c.first.Running? then Running(c.first.n, c.first.m, 1) else c.first, d.crystal, d.crystal, first)
    ensures Multiplies(if c.second.Running? then Running(c.second.n, c.second.m, 1) else c.second, d.crystal, d.crystal, second)
    ensures !source.Other? ==> Feeds(c.feed, d.crystal, first, second, feed) && Feeds(c.bypass, d.crystal, first, second, bypass)
    ensures Multiplies(c.pll, feed, bypass, ClocksGet(d, Exact, source).value)
  {
    VcoReads(d, false, c.first);
    VcoReads(d, true, c.second);
    first, second := ReadPll(d, Exact, 0x41, 0xe820).value, ReadPll(d, Exact, 0x42, 0xe8a0).value;
    match source {
      case Core => feed, bypass := DomainReads(d, c, 0x00, 0x4200);
      case Copy => feed, bypass := DomainReads(d, c, 0x00, 0x4200);
      case Shader => feed, bypass := DomainReads(d, c, 0x01, 0x4220);
      case Memory => feed, bypass := DomainReads(d, c, 0x02, 0x4000);
      case Unka0 => feed, bypass := DirectReads(d, c, 0x20);
      case Vdec => feed, bypass := DirectReads(d, c, 0x21);
      case Daemon => feed, bypass := DirectReads(d, c, 0x25);
      case Other => feed, bypass := 0, 0;
    }
  }
}
