/**
 * SMBIOS structure tables (DSP0134, sections 6.1.2 and 6.1.3) as bytes: what a
 * list of structures looks like in memory, and what a walk over bytes visits.
 */
module SmbiosTable {
  import opened Bytes

  /** sizeof(SMBStructHeader): type, length, handle. */
  const HEADER: nat := 4

  datatype Structure = Structure(typ: Byte, rest: seq<Byte>, strings: seq<seq<Byte>>) {
    /** `rest` is the formatted area after the type and length bytes. */
    ghost predicate Valid() {
      && HEADER <= Length() <= 255
      && Strings(strings)
    }

    function Length(): nat {
      2 + |rest|
    }
  }

  /** The strings from the k-th on, packed one after the other, each with its NUL. */
  function PackedFrom(strings: seq<seq<Byte>>, k: nat): seq<Byte>
    requires k <= |strings|
    decreases |strings| - k
  {
    if k == |strings| then [] else strings[k] + [0] + PackedFrom(strings, k + 1)
  }

  function Packed(strings: seq<seq<Byte>>): seq<Byte> {
    PackedFrom(strings, 0)
  }

  predicate Strings(strings: seq<seq<Byte>>) {
    forall i :: 0 <= i < |strings| ==> strings[i] != [] && 0 !in strings[i]
  }

  /** The unformatted area: the packed strings and one more NUL, or just two NULs. */
  function StringArea(strings: seq<seq<Byte>>): seq<Byte> {
    if strings == [] then [0, 0] else Packed(strings) + [0]
  }

  function Encoded(s: Structure): seq<Byte>
    requires s.Valid()
  {
    [s.typ, s.Length()] + s.rest + StringArea(s.strings)
  }

  ghost predicate AllValid(ss: seq<Structure>) {
    forall i :: 0 <= i < |ss| ==> ss[i].Valid()
  }

  /** A table holding the structures from the k-th on. */
  function LayoutFrom(ss: seq<Structure>, k: nat): seq<Byte>
    requires AllValid(ss) && k <= |ss|
    decreases |ss| - k
  {
    if k == |ss| then [] else Encoded(ss[k]) + LayoutFrom(ss, k + 1)
  }

  function Layout(ss: seq<Structure>): seq<Byte>
    requires AllValid(ss)
  {
    LayoutFrom(ss, 0)
  }

  /** Where each structure from the k-th on starts when that one starts at p. */
  function OffsetsFrom(ss: seq<Structure>, k: nat, p: nat): (r: seq<nat>)
    requires AllValid(ss) && k <= |ss|
    ensures |r| == |ss| - k
    decreases |ss| - k
  {
    if k == |ss| then [] else [p] + OffsetsFrom(ss, k + 1, p + |Encoded(ss[k])|)
  }

  function Offsets(ss: seq<Structure>): (r: seq<nat>)
    requires AllValid(ss)
    ensures |r| == |ss|
  {
    OffsetsFrom(ss, 0, 0)
  }

  /** The first n bytes of x lie at p. */
  predicate Lies(t: seq<Byte>, p: nat, x: seq<Byte>, n: nat)
    requires n <= |x| && p + |x| <= |t|
  {
    n == 0 || (t[p + n - 1] == x[n - 1] && Lies(t, p, x, n - 1))
  }

  predicate At(t: seq<Byte>, p: nat, x: seq<Byte>) {
    p + |x| <= |t| && Lies(t, p, x, |x|)
  }

  lemma {:induction false} AtIffBytes(t: seq<Byte>, p: nat, x: seq<Byte>, n: nat)
    requires n <= |x| && p + |x| <= |t|
    ensures Lies(t, p, x, n) <==> forall i :: 0 <= i < n ==> x[i] == t[p + i]
    decreases n
  {
    if n > 0 {
      AtIffBytes(t, p, x, n - 1);
    }
  }

  lemma AtSplit(t: seq<Byte>, p: nat, x: seq<Byte>, y: seq<Byte>)
    requires At(t, p, x + y)
    ensures At(t, p, x) && At(t, p + |x|, y)
  {
    var z := x + y;
    AtIffBytes(t, p, z, |z|);
    AtIffBytes(t, p, x, |x|);
    AtIffBytes(t, p + |x|, y, |y|);
    forall i | 0 <= i < |x|
      ensures x[i] == t[p + i]
    {
      assert z[i] == x[i];
    }
    forall i | 0 <= i < |y|
      ensures y[i] == t[p + |x| + i]
    {
      assert z[|x| + i] == y[i];
    }
  }

  lemma AtIsSlice(t: seq<Byte>, p: nat, x: seq<Byte>)
    requires p + |x| <= |t|
    ensures At(t, p, x) <==> t[p..p + |x|] == x
  {
    AtIffBytes(t, p, x, |x|);
    var y := t[p..p + |x|];
    assert |y| == |x| && forall i :: 0 <= i < |x| ==> y[i] == t[p + i];
  }

  predicate DoubleNul(t: seq<Byte>, p: nat) {
    p + 1 < |t| && t[p] == 0 && t[p + 1] == 0
  }

  /** Where the search for the double NUL from p ends: after it, or with no room left for a header. */
  function AfterStrings(t: seq<Byte>, p: nat): (q: nat)
    requires p <= |t|
    ensures p <= q <= |t|
    ensures |t| > p + HEADER ==> q > p
    decreases |t| - p
  {
    if |t| <= p + 4 then p
    else if DoubleNul(t, p) then p + 2
    else AfterStrings(t, p + 1)
  }

  /** A structure can be read at p. */
  predicate Readable(t: seq<Byte>, p: nat) {
    p + 4 < |t| && t[p + 1] <= |t| - p
  }

  function Following(t: seq<Byte>, p: nat): (q: nat)
    requires Readable(t, p)
    ensures p < q <= |t|
  {
    AfterStrings(t, p + t[p + 1])
  }

  /** Every structure a walk from p meets, on any bytes at all. */
  function Walk(t: seq<Byte>, p: nat): seq<nat>
    requires p <= |t|
    decreases |t| - p
  {
    if Readable(t, p) then [p] + Walk(t, Following(t, p)) else []
  }

  /** Inside a string area there is no double NUL before its end. */
  lemma {:induction false} NoEarlyNul(strings: seq<seq<Byte>>, k: nat, i: nat)
    requires Strings(strings) && k < |strings| && i + 1 < |PackedFrom(strings, k)|
    ensures !DoubleNul(PackedFrom(strings, k), i)
    ensures PackedFrom(strings, k)[0] != 0
    decreases |strings| - k
  {
    var a, n, tail := PackedFrom(strings, k), |strings[k]|, PackedFrom(strings, k + 1);
    assert a == strings[k] + [0] + tail && n > 0;
    if k + 1 < |strings| {
      PackedEnds(strings, k + 1);
      if i > n {
        NoEarlyNul(strings, k + 1, i - n - 1);
        assert a[i] == tail[i - n - 1] && a[i + 1] == tail[i - n];
      } else {
        NoEarlyNul(strings, k + 1, 0);
        assert i == n ==> a[i + 1] == tail[0];
      }
    }
  }

  lemma {:induction false} PackedEnds(strings: seq<seq<Byte>>, k: nat)
    requires Strings(strings) && k < |strings|
    ensures var a := PackedFrom(strings, k); |a| >= 2 && a[|a| - 1] == 0
    decreases |strings| - k
  {
    if k + 1 < |strings| {
      PackedEnds(strings, k + 1);
    }
  }

  /** A string area ends with its first double NUL. */
  lemma AreaShape(strings: seq<seq<Byte>>)
    requires Strings(strings)
    ensures var a := StringArea(strings);
            && |a| >= 2 && DoubleNul(a, |a| - 2)
            && forall i: nat :: i < |a| - 2 ==> !DoubleNul(a, i)
  {
    var a := StringArea(strings);
    if strings != [] {
      var packed := PackedFrom(strings, 0);
      PackedEnds(strings, 0);
      assert a[|a| - 2] == packed[|a| - 2];
      forall i: nat | i < |a| - 2
        ensures !DoubleNul(a, i)
      {
        NoEarlyNul(strings, 0, i);
        assert a[i] == packed[i] && a[i + 1] == packed[i + 1];
      }
    }
  }

  /** The search from inside a string area at p..q: it ends at q, or runs out of table. */
  lemma {:induction false} SearchArea(t: seq<Byte>, p: nat, q: nat)
    requires p + 2 <= q <= |t| && DoubleNul(t, q - 2)
    requires forall i: nat :: p <= i < q - 2 ==> !DoubleNul(t, i)
    requires q == |t| || q + HEADER < |t|
    ensures if q < |t| then AfterStrings(t, p) == q else |t| <= AfterStrings(t, p) + HEADER
    decreases q - p
  {
    if |t| > p + HEADER && p < q - 2 {
      SearchArea(t, p + 1, q);
    }
  }

  /** A string area in a table ends with its first double NUL. */
  lemma AreaInTable(t: seq<Byte>, from: nat, strings: seq<seq<Byte>>)
    requires Strings(strings)
    requires At(t, from, StringArea(strings))
    ensures var q := from + |StringArea(strings)|;
            && from + 2 <= q && DoubleNul(t, q - 2)
            && forall i: nat :: from <= i < q - 2 ==> !DoubleNul(t, i)
  {
    AreaShape(strings);
    SameNuls(t, from, StringArea(strings));
  }

  lemma SameNuls(t: seq<Byte>, from: nat, a: seq<Byte>)
    requires At(t, from, a) && |a| >= 2 && DoubleNul(a, |a| - 2)
    requires forall i: nat :: i < |a| - 2 ==> !DoubleNul(a, i)
    ensures DoubleNul(t, from + |a| - 2)
    ensures forall i: nat :: from <= i < from + |a| - 2 ==> !DoubleNul(t, i)
  {
    AtIffBytes(t, from, a, |a|);
    assert a[|a| - 2] == 0 && a[|a| - 1] == 0;
    forall i: nat | from <= i < from + |a| - 2
      ensures !DoubleNul(t, i)
    {
      assert !DoubleNul(a, i - from);
      assert a[i - from] == t[i] && a[i - from + 1] == t[i + 1];
    }
  }

  lemma EncodedSize(s: Structure)
    requires s.Valid()
    ensures |Encoded(s)| == s.Length() + |StringArea(s.strings)| >= HEADER + 2
  {
    AreaShape(s.strings);
  }

  /** What a walk sees of a structure. */
  lemma StructureAt(t: seq<Byte>, p: nat, s: Structure)
    requires s.Valid() && At(t, p, Encoded(s))
    ensures t[p] == s.typ && t[p + 1] == s.Length() >= HEADER
    ensures At(t, p + s.Length(), StringArea(s.strings)) && |Encoded(s)| == s.Length() + |StringArea(s.strings)|
  {
    var front := [s.typ, s.Length()] + s.rest;
    assert Encoded(s) == front + StringArea(s.strings) && |front| == s.Length();
    AtSplit(t, p, front, StringArea(s.strings));
    AtIffBytes(t, p, front, |front|);
    assert front[0] == s.typ && front[1] == s.Length();
  }

  lemma LayoutIsLonger(ss: seq<Structure>, k: nat)
    requires AllValid(ss) && k < |ss|
    ensures |LayoutFrom(ss, k)| > HEADER
  {
    EncodedSize(ss[k]);
  }

  /** The next structure of a layout, and the rest of it behind. */
  lemma LayoutAt(t: seq<Byte>, p: nat, ss: seq<Structure>, k: nat)
    requires AllValid(ss) && k < |ss| && At(t, p, LayoutFrom(ss, k))
    ensures var q := p + |Encoded(ss[k])|;
            && At(t, p, Encoded(ss[k])) && At(t, q, LayoutFrom(ss, k + 1))
            && p + |LayoutFrom(ss, k)| == q + |LayoutFrom(ss, k + 1)|
  {
    hide At, Encoded;
    AtSplit(t, p, Encoded(ss[k]), LayoutFrom(ss, k + 1));
  }

  /** At a structure with more of the layout behind it, the walk steps over exactly that structure. */
  lemma StepOver(t: seq<Byte>, p: nat, s: Structure)
    requires s.Valid() && At(t, p, Encoded(s))
    requires p + |Encoded(s)| == |t| || p + |Encoded(s)| + HEADER < |t|
    ensures Readable(t, p) && t[p] == s.typ && t[p + 1] == s.Length()
    ensures if p + |Encoded(s)| < |t| then Following(t, p) == p + |Encoded(s)| else |t| <= Following(t, p) + HEADER
  {
    StructureAt(t, p, s);
    AreaInTable(t, p + s.Length(), s.strings);
    SearchArea(t, p + s.Length(), p + |Encoded(s)|);
  }

  /** Walking inverts laying out. */
  lemma {:induction false} WalkInverts(t: seq<Byte>, p: nat, ss: seq<Structure>, k: nat)
    requires AllValid(ss) && k <= |ss| && At(t, p, LayoutFrom(ss, k)) && p + |LayoutFrom(ss, k)| == |t|
    ensures Walk(t, p) == OffsetsFrom(ss, k, p)
    decreases |ss| - k
  {
    hide At, Encoded;
    if k < |ss| {
      var q := p + |Encoded(ss[k])|;
      LayoutAt(t, p, ss, k);
      if k + 1 < |ss| {
        LayoutIsLonger(ss, k + 1);
      }
      StepOver(t, p, ss[k]);
      if k + 1 < |ss| {
        WalkInverts(t, q, ss, k + 1);
      }
    }
  }

  /** The j-th structure is where OffsetsFrom says, whole. */
  lemma {:induction false} OffsetAt(t: seq<Byte>, p: nat, ss: seq<Structure>, k: nat, j: nat) returns (o: nat)
    requires AllValid(ss) && k <= j < |ss| && At(t, p, LayoutFrom(ss, k))
    ensures o == OffsetsFrom(ss, k, p)[j - k] && p <= o && At(t, o, Encoded(ss[j]))
    decreases |ss| - k
  {
    hide At, Encoded;
    LayoutAt(t, p, ss, k);
    var q := p + |Encoded(ss[k])|;
    if j == k {
      o := p;
    } else {
      o := OffsetAt(t, q, ss, k + 1, j);
    }
    OffsetsStep(ss, k, p, j);
  }

  lemma OffsetsStep(ss: seq<Structure>, k: nat, p: nat, j: nat)
    requires AllValid(ss) && k <= j < |ss|
    ensures OffsetsFrom(ss, k, p)[j - k] ==
            if j == k then p else OffsetsFrom(ss, k + 1, p + |Encoded(ss[k])|)[j - k - 1]
  {
    hide Encoded;
  }

  /** The structures of a type and minimum size among those at the given places. */
  function Matching(t: seq<Byte>, ps: seq<nat>, typ: Byte, minSize: nat): seq<nat>
  {
    if ps == [] then []
    else
      (if ps[0] + 1 < |t| && t[ps[0]] == typ && t[ps[0] + 1] >= minSize then [ps[0]] else [])
      + Matching(t, ps[1..], typ, minSize)
  }
}
