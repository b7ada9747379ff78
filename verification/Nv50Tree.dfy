/**
 * The clock tree of GeForceSensors/nv50.cpp drawn bottom-up, as the register
 * map has it: every clock in terms of the ones below it, without recursion.
 * The mutually recursive readers of ClockNv50 compute exactly these clocks.
 */
module Nv50Tree {
  import opened ClockNv50

  /** The bits of a register from bit k on, as many as `ones` has. */
  function Field(word: bv32, k: bv32, ones: bv32): (v: bv32)
    requires k < 32
    ensures v <= ones
  {
    (word >> k) & ones
  }

  predicate Flag(word: bv32, k: bv32)
    requires k < 32
  {
    Field(word, k, 1) == 1
  }

  /** The three families of chipsets that differ in their reference PLLs, and the others. */
  datatype Family = First | Second | Third | Foreign

  function FamilyOf(chipset: nat): Family {
    if chipset == 0x50 || chipset == 0xa0 then First
    else if chipset == 0x84 || chipset == 0x86 || chipset == 0x92 then Second
    else if chipset == 0x94 || chipset == 0x96 || chipset == 0x98 then Third
    else Foreign
  }

  /** The PLLs, with their register and the bit of 0xc040 that takes the PCIe clock as reference. */
  datatype Pll = Core | Shader | Memory | Video | Host {
    function Base(): bv32 {
      match this
      case Core => 0x4028
      case Shader => 0x4020
      case Memory => 0x4008
      case Video => 0x4030
      case Host => 0xe810
    }

    predicate TakesPcie(mast: bv32) {
      match this
      case Core => Flag(mast, 21)
      case Shader => Flag(mast, 22)
      case Memory => Flag(mast, 16)
      case Video => Flag(mast, 25)
      case Host => false
    }

    /** It uses the second reference PLL of the first family. */
    predicate SecondReference(rsel: bv32) {
      match this
      case Core => Flag(rsel, 2)
      case Shader => Flag(rsel, 2)
      case Memory => Flag(rsel, 3)
      case Video => false
      case Host => false
    }

    /** What it selects on the third one. */
    function Selector(rsel: bv32): bv32 {
      match this
      case Core => Field(rsel, 11, 3)
      case Shader => Field(rsel, 0, 3)
      case Memory => Field(rsel, 2, 3)
      case Video => 3
      case Host => 3
    }
  }

  const PCIE: bv32 := 100000
  const HCLK: bv32 := 277780
  const HCLK3: bv32 := 833340
  const HCLK3HALF: bv32 := 416670

  /** ref * n / m in 32 bits, shifted; nothing for m == 0. */
  function Stage(ref: bv32, n: bv32, m: bv32, p: bv32): bv32
    requires p <= 14
  {
    if m == 0 then 0 else (ref * n / m) >> p
  }

  /** A post-divider: a power of two. */
  function Post(clock: bv32, p: bv32): bv32
    requires p <= 7
  {
    clock >> p
  }

  /** The first family's reference PLLs are fed with two or four times the crystal. */
  function FirstInput(crystal: bv32, half: bool): bv32 {
    if half then crystal << 1 else crystal << 2
  }

  /** The reference of a PLL from the reference PLLs, by family. */
  function ReferenceClock(d: Device, pll: Pll): bv32
    requires !pll.Host?
  {
    match FamilyOf(d.chipset)
    case First =>
      var coef := d.rd(if pll.SecondReference(d.rd(0xe18c)) then 0xe828 else 0xe81c);
      Stage(FirstInput(d.crystal, Flag(coef, 24)), Field(coef, 8, 0xff) + 1, Field(coef, 0, 0xff) + 1, Field(coef, 16, 7))
    case Second =>
      var coef := d.rd(0xe81c);
      Stage(d.crystal, Field(coef, 8, 0xff), Field(coef, 0, 0xff), Field(coef, 16, 7))
    case Third =>
      var sel := pll.Selector(d.rd(0xc050));
      if sel == 1 then d.crystal
      else if sel == 2 then PCIE
      else
        var coef, post := d.rd(if sel == 0 then 0xe844 else 0xe81c), d.rd(if sel == 0 then 0xe84c else 0xe824);
        Stage(d.crystal, Field(coef, 8, 0xff), Field(coef, 0, 0xff), Field(post, 16, 7) + Field(coef, 16, 7))
    case Foreign => 0
  }

  function PllInput(d: Device, pll: Pll): bv32 {
    if pll.Host? then d.crystal
    else if pll.TakesPcie(d.rd(0xc040)) then PCIE
    else ReferenceClock(d, pll)
  }

  /** One or two stages: bit 31 switches the PLL on, bit 30 the second stage and bit 8 that one off again. */
  function Output(ctrl: bv32, coef: bv32, ref: bv32): bv32 {
    if !Flag(ctrl, 31) || Field(coef, 0, 0xff) == 0 then 0
    else
      var first := Stage(ref, Field(coef, 8, 0xff), Field(coef, 0, 0xff), 0);
      if Flag(ctrl, 30) && !Flag(ctrl, 8) then Stage(first, Field(coef, 24, 0xff), Field(coef, 16, 0xff), 0) else first
  }

  function PllOutput(d: Device, pll: Pll): bv32 {
    Output(d.rd(pll.Base()), d.rd(pll.Base() + 4), PllInput(d, pll))
  }

  /** The divider register. */
  function Dividers(d: Device): bv32 {
    match FamilyOf(d.chipset)
    case First => d.rd(0x4700)
    case Second => if d.chipset == 0x92 then d.rd(0x4800) else d.rd(0x4700)
    case Third => if d.chipset == 0x98 then d.rd(0x4700) else d.rd(0x4800)
    case Foreign => 0
  }

  function Dom6Clock(d: Device): bv32 {
    match FamilyOf(d.chipset)
    case First => Post(PllOutput(d, Pll.Host), 2)
    case Foreign => 0
    case _ =>
      var sel := Field(d.rd(0xc040), 26, 3);
      if sel == 0 then PCIE else if sel == 1 then 0 else if sel == 2 then HCLK else Post(HCLK3, Field(Dividers(d), 0, 7))
  }

  /** The core PLL, which bit 20 of 0xc040 bypasses except on 0xa0. */
  function CorePll(d: Device): bv32 {
    if Flag(d.rd(0xc040), 20) && d.chipset != 0xa0 then Dom6Clock(d) else PllOutput(d, Pll.Core)
  }

  function HostClock(d: Device): bv32 {
    var sel := Field(d.rd(0xc040), 28, 3);
    if sel == 0 then PCIE else if sel == 1 then 0 else HCLK
  }

  function CoreClock(d: Device): bv32 {
    var sel := Field(d.rd(0xc040), 0, 3);
    var p := if Flag(d.rd(0xc040), 20) then 0 else Field(d.rd(0x4028), 16, 7);
    if sel == 0 then Post(d.crystal, p)
    else if sel == 1 then Dom6Clock(d)
    else if sel == 2 then Post(PllOutput(d, Pll.Shader), p)
    else Post(CorePll(d), p)
  }

  function ShaderClock(d: Device): bv32 {
    var sel := Field(d.rd(0xc040), 4, 3);
    var p := Field(d.rd(0x4020), 16, 7);
    if sel == 0 then Post(if Flag(d.rd(0xc040), 7) then HostClock(d) else d.crystal, p)
    else if sel == 1 then 0
    else if sel == 2 then Post(CorePll(d), p)
    else Post(PllOutput(d, Pll.Shader), p)
  }

  function MemoryClock(d: Device): bv32 {
    var sel := Field(d.rd(0xc040), 14, 3);
    var p := Field(d.rd(0x4008), 16, 7);
    if !Flag(d.rd(0x4008), 9) then Post(PllOutput(d, Pll.Memory), p)
    else if sel == 0 then Post(d.crystal, p)
    else if sel == 1 then 0
    else Post(PCIE, p)
  }

  function VideoClock(d: Device): bv32 {
    var sel := Field(d.rd(0xc040), 10, 3);
    var p := Field(Dividers(d), 8, 7);
    if FamilyOf(d.chipset).Foreign? || sel == 1 then 0
    else if d.chipset == 0x98 then
      Post(if sel == 0 then CoreClock(d) else if sel == 2 then HCLK3HALF else MemoryClock(d), p)
    else if sel == 0 then Post(if d.chipset == 0xa0 then CoreClock(d) else d.crystal, p)
    else if sel == 2 then Post(if Flag(d.rd(0xc040), 24) then CorePll(d) else PllOutput(d, Pll.Video), p)
    else Post(CoreClock(d), p)
  }

  lemma StageIs(ref: bv32, n: bv32, m: bv32, p: bv32)
    requires p <= 14
    ensures Divided(ref, n, m, p) == Stage(ref, n, m, p)
  {
  }

  lemma PostIs(clock: bv32, p: bv32)
    requires p <= 7
    ensures Halvings(clock, p) == Post(clock, p)
  {
  }

  lemma PostsAre()
    ensures forall clock: bv32, p: bv32 :: p <= 7 ==> Halvings(clock, p) == Post(clock, p)
  {
    forall clock: bv32, p: bv32 | p <= 7
      ensures Halvings(clock, p) == Post(clock, p)
    {
      PostIs(clock, p);
    }
  }

  /** The post-divider in a PLL's control word, and the switch of the memory clock. */
  lemma ControlBits(w: bv32)
    ensures (w & 0x00070000) >> 16 == Field(w, 16, 7) <= 7 && (w & 0x00000200 != 0 <==> Flag(w, 9))
  {
  }

  /** The reference selectors. */
  lemma SelectorBits(w: bv32)
    ensures (w & 0x00000004 != 0 <==> Flag(w, 2)) && (w & 0x00000008 != 0 <==> Flag(w, 3))
    ensures w & 3 == Field(w, 0, 3) && (w & 0x0000000c) >> 2 == Field(w, 2, 3) && (w & 0x00001800) >> 11 == Field(w, 11, 3)
  {
  }

  /** The flags of 0xc040... */
  lemma PcieBits(w: bv32)
    ensures (w & 0x00200000 != 0 <==> Flag(w, 21)) && (w & 0x00400000 != 0 <==> Flag(w, 22))
    ensures (w & 0x00010000 != 0 <==> Flag(w, 16)) && (w & 0x02000000 != 0 <==> Flag(w, 25))
  {
  }

  lemma PcieFlags(w: bv32, pll: Pll)
    requires !pll.Host?
    ensures TakesHref(w, pll.Base()) == pll.TakesPcie(w)
  {
    hide Field, Flag;
    PcieBits(w);
  }

  lemma BypassFlag(w: bv32)
    ensures w & 0x00100000 != 0 <==> Flag(w, 20)
  {
  }

  /** ...and its selectors, each with the flags that go with it. */
  lemma CoreSelect(w: bv32)
    ensures (w & 0x00000003 == 0 <==> Field(w, 0, 3) == 0) && (w & 0x00000003 == 1 <==> Field(w, 0, 3) == 1)
    ensures (w & 0x00000003 == 2 <==> Field(w, 0, 3) == 2) && (w & 0x00100000 != 0 <==> Flag(w, 20))
  {
  }

  lemma ShaderSelect(w: bv32)
    ensures (w & 0x00000030 == 0 <==> Field(w, 4, 3) == 0) && (w & 0x00000030 == 0x10 <==> Field(w, 4, 3) == 1)
    ensures (w & 0x00000030 == 0x20 <==> Field(w, 4, 3) == 2) && (w & 0x00000080 != 0 <==> Flag(w, 7))
  {
  }

  lemma VideoSelect(w: bv32)
    ensures (w & 0x00000c00 == 0 <==> Field(w, 10, 3) == 0) && (w & 0x00000c00 == 0x400 <==> Field(w, 10, 3) == 1)
    ensures (w & 0x00000c00 == 0x800 <==> Field(w, 10, 3) == 2) && (w & 0x01000000 != 0 <==> Flag(w, 24))
  {
  }

  lemma MemorySelect(w: bv32)
    ensures (w & 0x0000c000 == 0 <==> Field(w, 14, 3) == 0) && (w & 0x0000c000 == 0x8000 <==> Field(w, 14, 3) == 2)
    ensures (w & 0x0000c000 == 0xc000 <==> Field(w, 14, 3) == 3) && Field(w, 14, 3) <= 3
  {
  }

  lemma Dom6Select(w: bv32)
    ensures (w & 0x0c000000 == 0 <==> Field(w, 26, 3) == 0) && (w & 0x0c000000 == 0x04000000 <==> Field(w, 26, 3) == 1)
    ensures (w & 0x0c000000 == 0x08000000 <==> Field(w, 26, 3) == 2)
  {
  }

  lemma HostSelect(w: bv32)
    ensures (w & 0x30000000 == 0 <==> Field(w, 28, 3) == 0) && (w & 0x30000000 == 0x10000000 <==> Field(w, 28, 3) == 1)
  {
  }

  /** The divider fields. */
  lemma DividerBits(w: bv32)
    ensures (w & 0x00000700) >> 8 == Field(w, 8, 7) <= 7 && w & 0x00000007 == Field(w, 0, 7) <= 7
  {
  }

  /** The readers of the switched clocks. */
  lemma Switched(d: Device)
    ensures ReadClk(d, Source.Host) == ReadHost(d) && ReadClk(d, Nvclk) == ReadNvclk(d) && ReadClk(d, Sclk) == ReadSclk(d)
    ensures ReadClk(d, Mclk) == ReadMclk(d) && ReadClk(d, Source.Vdec) == ReadVdec(d) && ReadClk(d, Dom6) == ReadDom6(d)
  {
    hide ReadHost, ReadNvclk, ReadSclk, ReadMclk, ReadVdec, ReadDom6;
  }

  lemma DividersAre(d: Device)
    ensures ReadDiv(d) == Dividers(d)
  {
  }

  lemma FixedReads(d: Device)
    ensures ReadClk(d, Crystal).value == d.crystal && ReadClk(d, Href).value == PCIE
    ensures ReadClk(d, Hclk).value == HCLK && ReadClk(d, HclkM3).value == HCLK3 && ReadClk(d, HclkM3D2).value == HCLK3HALF
  {
  }

  lemma FirstInputIs(ref: bv32, half: bool)
    ensures Multiplied(ref, half) == FirstInput(ref, half)
  {
  }

  lemma FirstReads(d: Device, pll: Pll)
    requires !pll.Host? && FamilyOf(d.chipset).First?
    ensures FirstReference(d, d.crystal, pll.Base()) == ReferenceClock(d, pll)
  {
    hide Divided, Stage, Field, Flag, Multiplied, FirstInput;
    SelectorBits(d.rd(0xe18c));
    if pll.SecondReference(d.rd(0xe18c)) {
      FirstStage(d.crystal, d.rd(0xe828));
    } else {
      FirstStage(d.crystal, d.rd(0xe81c));
    }
  }

  lemma FirstStage(ref: bv32, coef: bv32)
    ensures (coef & 0x00070000) >> 16 <= 14 && Field(coef, 16, 7) <= 14
    ensures Divided(Multiplied(ref, coef & 0x01000000 != 0), ((coef & 0x0000ff00) >> 8) + 1, (coef & 0x000000ff) + 1,
                    (coef & 0x00070000) >> 16) ==
            Stage(FirstInput(ref, Flag(coef, 24)), Field(coef, 8, 0xff) + 1, Field(coef, 0, 0xff) + 1, Field(coef, 16, 7))
  {
    hide Divided, Stage, Multiplied, FirstInput;
    FirstInputIs(ref, Flag(coef, 24));
    StageIs(FirstInput(ref, Flag(coef, 24)), Field(coef, 8, 0xff) + 1, Field(coef, 0, 0xff) + 1, Field(coef, 16, 7));
  }

  lemma SecondReads(d: Device, pll: Pll)
    requires !pll.Host? && FamilyOf(d.chipset).Second?
    ensures ClockNv50.SecondReference(d, d.crystal) == ReferenceClock(d, pll)
  {
    hide Divided, Stage;
    var coef := d.rd(0xe81c);
    StageIs(d.crystal, Field(coef, 8, 0xff), Field(coef, 0, 0xff), Field(coef, 16, 7));
  }

  lemma SelectionReads(rsel: bv32, pll: Pll)
    requires !pll.Host?
    ensures Selection(rsel, pll.Base()) == pll.Selector(rsel)
  {
    SelectorBits(rsel);
  }

  lemma ThirdReads(d: Device, other: bool)
    ensures ThirdReference(d, d.crystal, other) ==
            var coef, post := d.rd(if other then 0xe844 else 0xe81c), d.rd(if other then 0xe84c else 0xe824);
            Stage(d.crystal, Field(coef, 8, 0xff), Field(coef, 0, 0xff), Field(post, 16, 7) + Field(coef, 16, 7))
  {
    hide Stage, Field, Divided;
    if other {
      ThirdStage(d.crystal, d.rd(0xe844), d.rd(0xe84c));
    } else {
      ThirdStage(d.crystal, d.rd(0xe81c), d.rd(0xe824));
    }
  }

  lemma ThirdStage(ref: bv32, coef: bv32, post: bv32)
    ensures Field(post, 16, 7) + Field(coef, 16, 7) <= 14 && ((post >> 16) & 7) + ((coef & 0x00070000) >> 16) <= 14
    ensures Divided(ref, (coef & 0x0000ff00) >> 8, coef & 0x000000ff, ((post >> 16) & 7) + ((coef & 0x00070000) >> 16)) ==
            Stage(ref, Field(coef, 8, 0xff), Field(coef, 0, 0xff), Field(post, 16, 7) + Field(coef, 16, 7))
  {
    hide Stage, Divided;
    StageIs(ref, Field(coef, 8, 0xff), Field(coef, 0, 0xff), Field(post, 16, 7) + Field(coef, 16, 7));
  }

  lemma SourceReads(d: Device, pll: Pll)
    requires !pll.Host?
    ensures ReadPllSrc(d, pll.Base()).value == ReferenceClock(d, pll)
  {
    hide ReadClk, FirstReference, ClockNv50.SecondReference, ThirdReference, Selection, Pll.Selector, Pll.SecondReference;
    hide Stage, Field, Flag;
    FixedReads(d);
    match FamilyOf(d.chipset)
    case First => FirstReads(d, pll);
    case Second => SecondReads(d, pll);
    case Third =>
      SelectionReads(d.rd(0xc050), pll);
      ThirdReads(d, pll.Selector(d.rd(0xc050)) == 0);
    case Foreign =>
  }

  lemma RefReads(d: Device, pll: Pll)
    ensures ReadPllRef(d, pll.Base()).value == PllInput(d, pll)
  {
    hide ReadClk, ReadPllSrc, ReferenceClock, TakesHref, Pll.TakesPcie;
    FixedReads(d);
    if !pll.Host? {
      PcieFlags(d.rd(0xc040), pll);
      SourceReads(d, pll);
    }
  }

  lemma OutputIs(ctrl: bv32, coef: bv32, ref: bv32)
    ensures TwoStages(ctrl, coef, ref) == Output(ctrl, coef, ref)
  {
    hide Divided, Stage;
    var first := Stage(ref, Field(coef, 8, 0xff), Field(coef, 0, 0xff), 0);
    StageIs(ref, Field(coef, 8, 0xff), Field(coef, 0, 0xff), 0);
    StageIs(first, Field(coef, 24, 0xff), Field(coef, 16, 0xff), 0);
  }

  lemma PllReads(d: Device, pll: Pll)
    requires pll.Core? ==> !(Flag(d.rd(0xc040), 20) && d.chipset != 0xa0)
    ensures ReadPll(d, pll.Base()).value == PllOutput(d, pll)
  {
    hide ReadPllRef, PllInput, TwoStages, Output, Flag;
    BypassFlag(d.rd(0xc040));
    RefReads(d, pll);
    OutputIs(d.rd(pll.Base()), d.rd(pll.Base() + 4), PllInput(d, pll));
  }

  lemma Dom6Reads(d: Device)
    ensures ReadClk(d, Dom6).value == Dom6Clock(d)
  {
    hide Halvings, Post, ReadClk, ReadPll, PllOutput, Field, Flag, ReadHost, ReadNvclk, ReadSclk, ReadMclk, ReadVdec;
    Dom6Select(d.rd(0xc040));
    PostsAre();
    Switched(d);
    FixedReads(d);
    PllReads(d, Pll.Host);
    DividerBits(Dividers(d));
  }

  lemma CorePllReads(d: Device)
    ensures ReadPll(d, 0x4028).value == CorePll(d)
  {
    hide PllOutput, Dom6Clock, Field, Flag, ReadPllRef, ReadHost, ReadNvclk, ReadSclk, ReadMclk, ReadVdec, ReadDom6;
    BypassFlag(d.rd(0xc040));
    if Flag(d.rd(0xc040), 20) && d.chipset != 0xa0 {
      Dom6Reads(d);
    } else {
      PllReads(d, Pll.Core);
    }
  }

  lemma CoreReads(d: Device)
    ensures ReadClk(d, Nvclk).value == CoreClock(d)
  {
    hide Halvings, Post, ReadClk, ReadPll, PllOutput, CorePll, Dom6Clock, Field, Flag, ReadHost, ReadSclk, ReadMclk, ReadVdec, ReadDom6;
    CoreSelect(d.rd(0xc040));
    PostsAre();
    Switched(d);
    FixedReads(d);
    Dom6Reads(d);
    CorePllReads(d);
    PllReads(d, Pll.Shader);
    ControlBits(d.rd(0x4028));
  }

  lemma HostReads(d: Device)
    ensures ReadClk(d, Source.Host).value == HostClock(d)
  {
    hide ReadClk, Field, Flag, ReadNvclk, ReadSclk, ReadMclk, ReadVdec, ReadDom6;
    HostSelect(d.rd(0xc040));
    Switched(d);
    FixedReads(d);
  }

  lemma ShaderReads(d: Device)
    ensures ReadClk(d, Sclk).value == ShaderClock(d)
  {
    hide Halvings, Post, ReadClk, ReadPll, PllOutput, CorePll, HostClock, Field, Flag, ReadHost, ReadNvclk, ReadMclk, ReadVdec, ReadDom6;
    ShaderSelect(d.rd(0xc040));
    PostsAre();
    Switched(d);
    FixedReads(d);
    HostReads(d);
    CorePllReads(d);
    PllReads(d, Pll.Shader);
    ControlBits(d.rd(0x4020));
  }

  lemma MemoryReads(d: Device)
    ensures ReadClk(d, Mclk).value == MemoryClock(d)
  {
    hide Halvings, Post, ReadClk, ReadPll, PllOutput, Field, Flag, ReadHost, ReadNvclk, ReadSclk, ReadVdec, ReadDom6;
    MemorySelect(d.rd(0xc040));
    PostsAre();
    Switched(d);
    FixedReads(d);
    PllReads(d, Pll.Memory);
    ControlBits(d.rd(0x4008));
  }

  lemma VideoReads(d: Device)
    requires d.chipset != 0x50
    ensures ReadVdec(d).value == VideoClock(d)
  {
    hide Halvings, Post, ReadClk, ReadPll, PllOutput, CorePll, CoreClock, MemoryClock, Field, Flag, ReadHost, ReadNvclk, ReadSclk, ReadMclk, ReadDom6, ReadDiv, Dividers;
    VideoSelect(d.rd(0xc040));
    PostsAre();
    Switched(d);
    FixedReads(d);
    DividersAre(d);
    DividerBits(Dividers(d));
    if d.chipset == 0x98 {
      CoreReads(d);
      MemoryReads(d);
    } else {
      CoreReads(d);
      CorePllReads(d);
      PllReads(d, Pll.Video);
    }
  }

  /** On every register file and chipset each clock reads as the tree has it. */
  lemma ReadsAsTheTree(d: Device, source: ClockSource)
    ensures ClocksGet(d, source).value ==
            if d.chipset == 0xaa || d.chipset == 0xac then 0
            else match source
                 case Core => CoreClock(d)
                 case Shader => ShaderClock(d)
                 case Memory => MemoryClock(d)
                 case VdecClock => if d.chipset == 0x50 then 0 else VideoClock(d)
                 case Dom6Clock => if d.chipset == 0x50 then 0 else Dom6Clock(d)
                 case Other => 0
  {
    hide CoreClock, ShaderClock, MemoryClock, VideoClock, Dom6Clock, ReadNvclk, ReadSclk, ReadMclk, ReadVdec, ReadDom6;
    CoreReads(d);
    ShaderReads(d);
    MemoryReads(d);
    Dom6Reads(d);
    if d.chipset != 0x50 {
      Switched(d);
      VideoReads(d);
    }
  }
}
