/**
 * The clock tree of GeForceSensors/nv50.cpp: mutually recursive readers over a
 * register file. Each reader also returns how deep its calls went. That the
 * definitions are accepted shows that, on every register file and chipset, the
 * recursion ends and nothing is divided by zero.
 */
module ClockNv50 {
  type Registers = bv32 -> bv32

  datatype Device = Device(chipset: nat, crystal: bv32, rd: Registers)

  datatype Source = Crystal | Href | Hclk | HclkM3 | HclkM3D2 | Host | Nvclk | Sclk | Mclk | Vdec | Dom6

  datatype Reading = Reading(value: bv32, depth: nat)

  function Deeper(r: Reading): Reading {
    r.(depth := r.depth + 1)
  }

  function Halvings(value: bv32, p: bv32): bv32
    requires p <= 7
  {
    value >> p
  }

  function Shifted(r: Reading, p: bv32): Reading
    requires p <= 7
  {
    Reading(Halvings(r.value, p), r.depth + 1)
  }

  const ZERO := Reading(0, 1)

  /** The height of each source and PLL in the tree. */
  function SourceRank(s: Source): nat {
    match s
    case Crystal => 1
    case Href => 1
    case Hclk => 2
    case HclkM3 => 3
    case HclkM3D2 => 3
    case Host => 3
    case Dom6 => 4
    case Nvclk => 6
    case Sclk => 6
    case Mclk => 5
    case Vdec => 7
  }

  /** Only the PLL at 0x4028 can detour to dom6, which may read the one at 0xe810. */
  function PllRank(base: bv32): nat {
    if base == 0x4028 then 5 else if base == 0xe810 then 3 else 4
  }

  function ReadDiv(d: Device): bv32 {
    if d.chipset in {0x50, 0x84, 0x86, 0x98, 0xa0} then d.rd(0x004700)
    else if d.chipset in {0x92, 0x94, 0x96} then d.rd(0x004800)
    else 0
  }

  /** (ref * n / m) >> p, or 0 for m == 0; p comes from one or two 3-bit fields. */
  function Divided(ref: bv32, n: bv32, m: bv32, p: bv32): bv32
    requires p <= 14
  {
    if m != 0 then (ref * n / m) >> p else 0
  }

  /** The PLLs with a selectable reference. */
  predicate Selectable(base: bv32) {
    base == 0x4020 || base == 0x4028 || base == 0x4008 || base == 0x4030
  }

  function Multiplied(ref: bv32, half: bool): bv32 {
    if half then ref * 2 else ref * 4
  }

  /** The reference PLL of 0x50 and 0xa0. */
  function FirstReference(d: Device, ref: bv32, base: bv32): bv32 {
    var rsel := d.rd(0x00e18c);
    var second := if base == 0x4020 || base == 0x4028 then rsel & 0x00000004 != 0
                  else if base == 0x4008 then rsel & 0x00000008 != 0
                  else false;
    var coef := d.rd(if second then 0x00e828 else 0x00e81c);
    Divided(Multiplied(ref, coef & 0x01000000 != 0), ((coef & 0x0000ff00) >> 8) + 1, (coef & 0x000000ff) + 1, (coef & 0x00070000) >> 16)
  }

  /** That of 0x84, 0x86 and 0x92. */
  function SecondReference(d: Device, ref: bv32): bv32 {
    var coef := d.rd(0x00e81c);
    Divided(ref, (coef & 0x0000ff00) >> 8, coef & 0x000000ff, (coef & 0x00070000) >> 16)
  }

  /** What 0x94, 0x96 and 0x98 select as reference: one of their two reference PLLs, the crystal or the PCIe clock. */
  function Selection(rsel: bv32, base: bv32): bv32 {
    if base == 0x4020 then rsel & 3
    else if base == 0x4008 then (rsel & 0x0000000c) >> 2
    else if base == 0x4028 then (rsel & 0x00001800) >> 11
    else 3
  }

  function ThirdReference(d: Device, ref: bv32, other: bool): bv32 {
    var coef := d.rd(if other then 0x00e844 else 0x00e81c);
    var post := (d.rd(if other then 0x00e84c else 0x00e824) >> 16) & 7;
    Divided(ref, (coef & 0x0000ff00) >> 8, coef & 0x000000ff, post + ((coef & 0x00070000) >> 16))
  }

  function ReadPllSrc(d: Device, base: bv32): (r: Reading)
    ensures r.depth <= 2
    decreases 2
  {
    var ref := ReadClk(d, Crystal);
    if d.chipset == 0x50 || d.chipset == 0xa0 then
      Reading(if Selectable(base) then FirstReference(d, ref.value, base) else 0, 2)
    else if d.chipset == 0x84 || d.chipset == 0x86 || d.chipset == 0x92 then
      Reading(SecondReference(d, ref.value), 2)
    else if d.chipset == 0x94 || d.chipset == 0x96 || d.chipset == 0x98 then
      if !Selectable(base) then Reading(0, 2)
      else
        var sel := Selection(d.rd(0x00c050), base);
        if sel == 1 then Deeper(ReadClk(d, Crystal))
        else if sel == 2 then Deeper(ReadClk(d, Href))
        else Reading(ThirdReference(d, ref.value, sel == 0), 2)
    else Reading(0, 2)
  }

  /** It takes the PCIe clock and no reference PLL. */
  predicate TakesHref(mast: bv32, base: bv32) {
    if base == 0x4028 then mast & 0x00200000 != 0
    else if base == 0x4020 then mast & 0x00400000 != 0
    else if base == 0x4008 then mast & 0x00010000 != 0
    else mast & 0x02000000 != 0
  }

  function ReadPllRef(d: Device, base: bv32): (r: Reading)
    ensures r.depth < PllRank(base) && r.depth <= 3
    decreases if base == 0xe810 then 2 else 3
  {
    if base == 0x00e810 then Deeper(ReadClk(d, Crystal))
    else if !Selectable(base) then ZERO
    else if TakesHref(d.rd(0x00c040), base) then Deeper(ReadClk(d, Href))
    else Deeper(ReadPllSrc(d, base))
  }

  /** The clock of a PLL that is not bypassed. */
  function TwoStages(ctrl: bv32, coef: bv32, ref: bv32): bv32 {
    var n2, m2 := (coef & 0xff000000) >> 24, (coef & 0x00ff0000) >> 16;
    var n1, m1 := (coef & 0x0000ff00) >> 8, coef & 0x000000ff;
    if ctrl & 0x80000000 != 0 && m1 != 0 then
      var first := Divided(ref, n1, m1, 0);
      if ctrl & 0x40000100 == 0x40000000 then Divided(first, n2, m2, 0) else first
    else 0
  }

  function ReadPll(d: Device, base: bv32): (r: Reading)
    ensures r.depth <= PllRank(base)
    decreases PllRank(base)
  {
    var mast := d.rd(0x00c040);
    var ref := ReadPllRef(d, base);
    if base == 0x4028 && mast & 0x00100000 != 0 && d.chipset != 0xa0 then
      var dom6 := ReadClk(d, Dom6);
      Reading(dom6.value, 1 + if dom6.depth > ref.depth then dom6.depth else ref.depth)
    else
      Reading(TwoStages(d.rd(base), d.rd(base + 4), ref.value), ref.depth + 1)
  }

  function ReadHost(d: Device): (r: Reading)
    ensures 1 <= r.depth <= SourceRank(Host)
    decreases SourceRank(Host), 0
  {
    var mast := d.rd(0x00c040);
    var sel := mast & 0x30000000;
    if sel == 0x00000000 then Deeper(ReadClk(d, Href))
    else if sel == 0x10000000 then ZERO
    else Deeper(ReadClk(d, Hclk))
  }

  function ReadNvclk(d: Device): (r: Reading)
    ensures 1 <= r.depth <= SourceRank(Nvclk)
    decreases SourceRank(Nvclk), 0
  {
    var mast := d.rd(0x00c040);
    var p := if mast & 0x00100000 == 0 then (d.rd(0x004028) & 0x00070000) >> 16 else 0;
    var sel := mast & 0x00000003;
    if sel == 0 then Shifted(ReadClk(d, Crystal), p)
    else if sel == 1 then Deeper(ReadClk(d, Dom6))
    else if sel == 2 then Shifted(ReadPll(d, 0x004020), p)
    else Shifted(ReadPll(d, 0x004028), p)
  }

  function ReadSclk(d: Device): (r: Reading)
    ensures 1 <= r.depth <= SourceRank(Sclk)
    decreases SourceRank(Sclk), 0
  {
    var mast := d.rd(0x00c040);
    var p := (d.rd(0x004020) & 0x00070000) >> 16;
    var sel := mast & 0x00000030;
    if sel == 0x00 then
      if mast & 0x00000080 != 0 then Shifted(ReadClk(d, Host), p) else Shifted(ReadClk(d, Crystal), p)
    else if sel == 0x10 then ZERO
    else if sel == 0x20 then Shifted(ReadPll(d, 0x004028), p)
    else Shifted(ReadPll(d, 0x004020), p)
  }

  function ReadMclk(d: Device): (r: Reading)
    ensures 1 <= r.depth <= SourceRank(Mclk)
    decreases SourceRank(Mclk), 0
  {
    var mast := d.rd(0x00c040);
    var p := (d.rd(0x004008) & 0x00070000) >> 16;
    if d.rd(0x004008) & 0x00000200 != 0 then
      var sel := mast & 0x0000c000;
      if sel == 0x0000 then Shifted(ReadClk(d, Crystal), p)
      else if sel == 0x8000 || sel == 0xc000 then Shifted(ReadClk(d, Href), p)
      else ZERO
    else Shifted(ReadPll(d, 0x004008), p)
  }

  function ReadVdec(d: Device): (r: Reading)
    ensures 1 <= r.depth <= SourceRank(Vdec)
    decreases SourceRank(Vdec), 0
  {
    var mast := d.rd(0x00c040);
    var p := (ReadDiv(d) & 0x00000700) >> 8;
    var sel := mast & 0x00000c00;
    if d.chipset in {0x84, 0x86, 0x92, 0x94, 0x96, 0xa0} then
      if sel == 0x000 then
        if d.chipset == 0xa0 then Shifted(ReadClk(d, Nvclk), p) else Shifted(ReadClk(d, Crystal), p)
      else if sel == 0x400 then ZERO
      else if sel == 0x800 then
        if mast & 0x01000000 != 0 then Shifted(ReadPll(d, 0x004028), p) else Shifted(ReadPll(d, 0x004030), p)
      else Shifted(ReadClk(d, Nvclk), p)
    else if d.chipset == 0x98 then
      if sel == 0x000 then Shifted(ReadClk(d, Nvclk), p)
      else if sel == 0x400 then ZERO
      else if sel == 0x800 then Shifted(ReadClk(d, HclkM3D2), p)
      else Shifted(ReadClk(d, Mclk), p)
    else ZERO
  }

  function ReadDom6(d: Device): (r: Reading)
    ensures 1 <= r.depth <= SourceRank(Dom6)
    decreases SourceRank(Dom6), 0
  {
    var mast := d.rd(0x00c040);
    if d.chipset in {0x50, 0xa0} then Shifted(ReadPll(d, 0x00e810), 2)
    else if d.chipset in {0x84, 0x86, 0x92, 0x94, 0x96, 0x98} then
      var p := ReadDiv(d) & 0x00000007;
      var sel := mast & 0x0c000000;
      if sel == 0x00000000 then Deeper(ReadClk(d, Href))
      else if sel == 0x04000000 then ZERO
      else if sel == 0x08000000 then Deeper(ReadClk(d, Hclk))
      else Shifted(ReadClk(d, HclkM3), p)
    else ZERO
  }

  function ReadClk(d: Device, src: Source): (r: Reading)
    ensures 1 <= r.depth <= SourceRank(src)
    decreases SourceRank(src), 1
  {
    match src
    case Crystal => Reading(d.crystal, 1)
    case Href => Reading(100000, 1)
    case Hclk => var c := ReadClk(d, Href); Reading(c.value * 27778 / 10000, c.depth + 1)
    case HclkM3 => var c := ReadClk(d, Hclk); Reading(c.value * 3, c.depth + 1)
    case HclkM3D2 => var c := ReadClk(d, Hclk); Reading(c.value * 3 / 2, c.depth + 1)
    case Host => ReadHost(d)
    case Nvclk => ReadNvclk(d)
    case Sclk => ReadSclk(d)
    case Mclk => ReadMclk(d)
    case Vdec => ReadVdec(d)
    case Dom6 => ReadDom6(d)
  }

  datatype ClockSource = Core | Shader | Memory | VdecClock | Dom6Clock | Other

  /** nv50_clocks_get: at most eight calls deep on any register file... */
  function ClocksGet(d: Device, source: ClockSource): (r: Reading)
    ensures 1 <= r.depth <= 8
  {
    if d.chipset in {0xaa, 0xac} then ZERO
    else
      match source
      case Core => Deeper(ReadClk(d, Nvclk))
      case Shader => Deeper(ReadClk(d, Sclk))
      case Memory => Deeper(ReadClk(d, Mclk))
      case VdecClock => if d.chipset != 0x50 then Deeper(ReadClk(d, Vdec)) else ZERO
      case Dom6Clock => if d.chipset != 0x50 then Deeper(ReadClk(d, Dom6)) else ZERO
      case Other => ZERO
  }

  /** A register file on which every detour is taken. */
  function Winding(crystal: bv32): Device {
    Device(0x84, crystal, (r: bv32) => if r == 0x00c040 then 0x0c100c03 else 0)
  }

  lemma WindingDom6(crystal: bv32)
    ensures ReadClk(Winding(crystal), Dom6).depth == 4
  {
    var d := Winding(crystal);
    assert ReadClk(d, Hclk).depth == 2;
    assert ReadClk(d, HclkM3).depth == 3;
    assert ReadDom6(d).depth == 4;
  }

  lemma WindingPll(crystal: bv32)
    ensures ReadPll(Winding(crystal), 0x4028).depth == 5
  {
    WindingDom6(crystal);
  }

  lemma NvclkOverPll(d: Device)
    requires d.rd(0x00c040) & 0x00000003 == 3
    ensures ReadNvclk(d).depth == ReadPll(d, 0x004028).depth + 1
  {
  }

  lemma VdecOverNvclk(d: Device)
    requires d.chipset == 0x84 && d.rd(0x00c040) & 0x00000c00 == 0x00000c00
    ensures ReadVdec(d).depth == ReadNvclk(d).depth + 1
  {
  }

  lemma WindingNvclk(crystal: bv32)
    ensures ReadNvclk(Winding(crystal)).depth == 6
  {
    WindingPll(crystal);
    NvclkOverPll(Winding(crystal));
  }

  /** ...and eight are reached: vdec, nvclk, the PLL 0x4028 and its detour over dom6 and the host clock. */
  lemma DepthReached(crystal: bv32)
    ensures ClocksGet(Winding(crystal), VdecClock).depth == 8
  {
    WindingNvclk(crystal);
    VdecOverNvclk(Winding(crystal));
  }
}
