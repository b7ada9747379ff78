/**
 * The walks of OemSMBIOS/OemSMBIOS.cpp over an SMBIOS table, with pointers as
 * offsets into the mapped bytes.
 */
module OemSmbios {
  import opened Bytes
  import opened SmbiosTable

  const SPACE: Byte := 32

  function Take<T>(s: seq<T>, n: nat): seq<T> {
    if n < |s| then s[..n] else s
  }

  lemma TakeFirst<T>(x: T, rest: seq<T>, n: nat)
    ensures n > 0 ==> Take([x] + rest, n) == [x] + Take(rest, n - 1)
    ensures Take(rest, 0) == [] && Take<T>([], n) == []
  {
  }

  /** One more structure of a walk, or the end of it. */
  lemma TakeStep(t: seq<Byte>, p: nat, count: nat, done: seq<nat>)
    requires p <= |t|
    ensures count > 0 && Readable(t, p) ==>
              done + Take(Walk(t, p), count) == done + [p] + Take(Walk(t, Following(t, p)), count - 1)
    ensures count == 0 || !Readable(t, p) ==> done + Take(Walk(t, p), count) == done
  {
    hide Take, AfterStrings;
    TakeFirst(p, if Readable(t, p) then Walk(t, Following(t, p)) else [], count);
    TakeFirst(p, Walk(t, p), count);
  }

  /** The inner loop of both walks. */
  method SkipStrings(t: seq<Byte>, p: nat) returns (next: nat)
    requires p <= |t|
    ensures next == AfterStrings(t, p)
  {
    next := p;
    while |t| > next + HEADER
      invariant p <= next <= |t| && AfterStrings(t, next) == AfterStrings(t, p)
    {
      if t[next] == 0 && t[next + 1] == 0 {
        return next + 2;
      }
      next := next + 1;
    }
  }

  /** decodeSMBIOSTable: the structures handed to decodeSMBIOSStructure. */
  method DecodeTable(t: seq<Byte>, structureCount: nat) returns (visited: seq<nat>)
    ensures visited == Take(Walk(t, 0), structureCount)
  {
    hide Walk, Take;
    visited := [];
    var next, count := 0, structureCount;
    while count > 0 && |t| > next + HEADER
      invariant 0 <= next <= |t| && 0 <= count <= structureCount
      invariant visited + Take(Walk(t, next), count) == Take(Walk(t, 0), structureCount)
      decreases count
    {
      TakeStep(t, next, count, visited);
      count := count - 1;
      var header := next;
      if t[header + 1] > |t| - next {
        return;
      }
      visited := visited + [header];
      next := SkipStrings(t, next + t[header + 1]);
    }
    TakeStep(t, next, count, visited);
  }

  /** On a laid out table the decoder meets every structure, in order. */
  method DecodeLayout(ss: seq<Structure>) returns (visited: seq<nat>)
    requires AllValid(ss)
    ensures visited == Offsets(ss)
  {
    AtIsSlice(Layout(ss), 0, Layout(ss));
    WalkInverts(Layout(ss), 0, ss, 0);
    visited := DecodeTable(Layout(ss), |ss|);
  }

  class SMBAnchor {
    var header: nat
    /** Where the next search starts; None for a new anchor. */
    var next: Option<nat>
    var end: nat

    constructor ()
      ensures next == None
    {
      header, next, end := 0, None, 0;
    }
  }

  /** Where a search with this anchor starts. */
  function SearchStart(anchor: SMBAnchor): nat
    reads anchor
  {
    if anchor.next.Some? then anchor.next.value else 0
  }

  /** findSMBIOSStructure, on any bytes: the next match of the walk from the anchor. */
  method FindStructure(t: seq<Byte>, anchor: SMBAnchor, typ: Byte, minSize: nat) returns (found: bool)
    requires SearchStart(anchor) <= |t|
    modifies anchor
    ensures var hits := Matching(t, Walk(t, old(SearchStart(anchor))), typ, minSize);
            if found then
              && anchor.end == |t| && anchor.next.Some? && old(SearchStart(anchor)) < anchor.next.value <= |t|
              && hits == [anchor.header] + Matching(t, Walk(t, anchor.next.value), typ, minSize)
            else hits == [] && anchor.next == old(anchor.next) && anchor.header == old(anchor.header)
  {
    var start := if anchor.next == None then 0 else anchor.next.value;
    var next := start;
    found := false;
    while |t| > next + HEADER
      invariant start <= next <= |t| && !found
      invariant unchanged(anchor)
      invariant Matching(t, Walk(t, next), typ, minSize) == Matching(t, Walk(t, start), typ, minSize)
      decreases |t| - next
    {
      var header := next;
      if t[header + 1] > |t| - next {
        break;
      }
      next := SkipStrings(t, next + t[header + 1]);
      assert Walk(t, header) == [header] + Walk(t, next);
      if t[header] == typ && t[header + 1] >= minSize {
        anchor.header := header;
        anchor.next := Some(next);
        anchor.end := |t|;
        found := true;
        break;
      }
    }
  }

  /** Searching again and again enumerates every match once, in order, and comes to an end. */
  method FindAll(t: seq<Byte>, typ: Byte, minSize: nat) returns (headers: seq<nat>)
    ensures headers == Matching(t, Walk(t, 0), typ, minSize)
  {
    headers := [];
    ghost var all := Matching(t, Walk(t, 0), typ, minSize);
    var anchor := new SMBAnchor();
    var found := FindStructure(t, anchor, typ, minSize);
    assert all == [] + all;
    while found
      invariant fresh(anchor) && SearchStart(anchor) <= |t|
      invariant if found then all == headers + ([anchor.header] + Matching(t, Walk(t, SearchStart(anchor)), typ, minSize))
                else all == headers
      decreases found, |t| - SearchStart(anchor)
    {
      ghost var rest := Matching(t, Walk(t, SearchStart(anchor)), typ, minSize);
      assert headers + ([anchor.header] + rest) == headers + [anchor.header] + rest;
      headers := headers + [anchor.header];
      found := FindStructure(t, anchor, typ, minSize);
      assert !found ==> headers + rest == headers;
    }
  }

  /** The offsets of the structures of a type and minimum size, from the k-th structure on. */
  function Selected(ss: seq<Structure>, k: nat, p: nat, typ: Byte, minSize: nat): seq<nat>
    requires AllValid(ss) && k <= |ss|
    decreases |ss| - k
  {
    if k == |ss| then []
    else
      (if ss[k].typ == typ && ss[k].Length() >= minSize then [p] else [])
      + Selected(ss, k + 1, p + |Encoded(ss[k])|, typ, minSize)
  }

  lemma {:induction false} MatchingInLayout(t: seq<Byte>, p: nat, ss: seq<Structure>, k: nat, typ: Byte, minSize: nat)
    requires AllValid(ss) && k <= |ss| && At(t, p, LayoutFrom(ss, k))
    ensures Matching(t, OffsetsFrom(ss, k, p), typ, minSize) == Selected(ss, k, p, typ, minSize)
    decreases |ss| - k
  {
    hide At, Encoded;
    if k < |ss| {
      var q := p + |Encoded(ss[k])|;
      LayoutAt(t, p, ss, k);
      StructureAt(t, p, ss[k]);
      MatchingInLayout(t, q, ss, k + 1, typ, minSize);
      assert OffsetsFrom(ss, k, p)[1..] == OffsetsFrom(ss, k + 1, q);
    }
  }

  /** On a laid out table the searches find exactly the structures asked for. */
  method FindAllInLayout(ss: seq<Structure>, typ: Byte, minSize: nat) returns (headers: seq<nat>)
    requires AllValid(ss)
    ensures headers == Selected(ss, 0, 0, typ, minSize)
  {
    AtIsSlice(Layout(ss), 0, Layout(ss));
    WalkInverts(Layout(ss), 0, ss, 0);
    MatchingInLayout(Layout(ss), 0, ss, 0, typ, minSize);
    headers := FindAll(Layout(ss), typ, minSize);
  }

  /** The first NUL from p on, or limit. */
  function NulFrom(t: seq<Byte>, p: nat, limit: nat): (e: nat)
    requires limit <= |t|
    ensures p <= e && (p <= limit ==> e <= limit)
    ensures e < limit ==> t[e] == 0
    decreases limit - p
  {
    if p >= limit || t[p] == 0 then p else NulFrom(t, p + 1, limit)
  }

  /** The k-th NUL-terminated string from p on, counted from 1. */
  function Nth(t: seq<Byte>, p: nat, limit: nat, k: nat): (r: Option<(nat, nat)>)
    requires limit <= |t|
    ensures r.Some? ==> p <= r.value.0 <= r.value.1 < limit && t[r.value.1] == 0
    decreases k
  {
    var e := NulFrom(t, p, limit);
    if k == 0 || e >= limit then None
    else if k == 1 then Some((p, e))
    else Nth(t, e + 1, limit, k - 1)
  }

  /** The bytes from i up to j are spaces. */
  predicate Spaces(s: seq<Byte>, i: nat, j: nat)
    requires j <= |s|
  {
    forall k :: i <= k < j ==> s[k] == 32
  }

  /** n is the length of s without its trailing spaces. */
  predicate TextLength(s: seq<Byte>, n: nat) {
    n <= |s| && Spaces(s, n, |s|) && (n > 0 ==> s[n - 1] != 32)
  }

  /** What stringAtIndex makes of the string found at r, if one was: its first byte that is no space, and a length. */
  ghost predicate Answers(t: seq<Byte>, r: Option<(nat, nat)>, at: Option<nat>, length: Byte)
    requires r.Some? ==> r.value.0 <= r.value.1 < |t|
  {
    if r.None? then at == None && length == 0
    else
      var (b, e) := r.value;
      && at.Some? && b <= at.value <= e && Spaces(t, b, at.value) && t[at.value] != 32
      && TextLength(t[at.value..at.value + (e - at.value) % 256], length)
  }

  /** The eight-bit length is right exactly when everything it cannot count is spaces. */
  lemma LengthInEightBits(s: seq<Byte>, length: Byte)
    requires TextLength(s[..|s| % 256], length)
    ensures TextLength(s, length) <==> Spaces(s, |s| % 256, |s|)
  {
    var n := |s| % 256;
    assert forall k :: 0 <= k < n ==> s[..n][k] == s[k];
  }

  /** The string from b to the NUL at e: its leading spaces are skipped and, if it is short, its trailing ones not counted. */
  ghost predicate Trimmed(t: seq<Byte>, b: nat, e: nat, at: nat, length: Byte) {
    && b <= at <= e < |t| && (forall i :: b <= i < at ==> t[i] == 32) && t[at] != 32
    && (e - b <= 255 ==>
          && at + length <= e && (forall i :: at + length <= i < e ==> t[i] == 32)
          && (length > 0 ==> t[at + length - 1] != 32))
  }

  lemma Answered(t: seq<Byte>, b: nat, e: nat, at: nat, length: Byte)
    requires b <= at <= e < |t| && Spaces(t, b, at) && t[at] != 32
    requires TextLength(t[at..at + (e - at) % 256], length)
    ensures Answers(t, Some((b, e)), Some(at), length) && Trimmed(t, b, e, at, length)
  {
    if e - b <= 255 {
      SmallModulo(e - at);
      var s := t[at..e];
      assert forall i :: at <= i < e ==> t[i] == s[i - at];
    }
  }

  class SMBPackedStrings {
    const t: seq<Byte>
    const start: nat
    const limit: nat

    ghost predicate Valid() {
      start <= limit <= |t|
    }

    /** The constructor with a limit, the end of the table. */
    constructor WithLimit(t: seq<Byte>, header: nat, limit: nat)
      requires header + 1 < |t| && header + t[header + 1] <= limit <= |t|
      ensures Valid() && this.t == t && start == header + t[header + 1] && this.limit == limit
    {
      this.t, start, this.limit := t, header + t[header + 1], limit;
    }

    /** The constructor without one looks for the double NUL, which must be there. */
    constructor (t: seq<Byte>, header: nat, ghost end: nat)
      requires header + 1 < |t| && header + t[header + 1] <= end && DoubleNul(t, end)
      ensures Valid() && this.t == t && start == header + t[header + 1]
      ensures limit > start && DoubleNul(t, limit - 1)
      ensures forall i: nat :: start <= i < limit - 1 ==> !DoubleNul(t, i)
    {
      var from := header + t[header + 1];
      var cp := from;
      while t[cp] != 0 || t[cp + 1] != 0
        invariant from <= cp <= end
        invariant forall i: nat :: from <= i < cp ==> !DoubleNul(t, i)
        decreases end - cp
      {
        cp := cp + 1;
      }
      this.t, start, limit := t, from, cp + 1;
    }

    /** Where the walk to the index-th string ends; None where `stringAtIndex` has a null pointer. */
    method Locate(index: Byte) returns (last: Option<nat>, next: nat)
      requires Valid()
      ensures var r := Nth(t, start, limit, index);
              if r.Some? then last == Some(r.value.0) && next == r.value.1 + 1 else last == None
    {
      last, next := None, start;
      var n := index;
      while n > 0
        invariant 0 <= n <= index && start <= next <= limit
        invariant n < index ==> last.Some? && last.value < next && t[next - 1] == 0
        invariant if n == 0 && index > 0 then Nth(t, start, limit, index) == Some((last.value, next - 1))
                  else Nth(t, start, limit, index) == Nth(t, next, limit, n)
        invariant index == 0 ==> last == None
      {
        last := None;
        var cp := next;
        while cp < limit
          invariant next <= cp <= limit && NulFrom(t, cp, limit) == NulFrom(t, next, limit) && last == None
          invariant Nth(t, next, limit, n) == Nth(t, start, limit, index)
        {
          if t[cp] == 0 {
            last := Some(next);
            next := cp + 1;
            break;
          }
          cp := cp + 1;
        }
        if last == None {
          break;
        }
        n := n - 1;
      }
    }

    /**
     * stringAtIndex: where the string starts and its length. The length is an
     * eight-bit number, so a string of 256 bytes or more loses part of it.
     */
    method StringAtIndex(index: Byte) returns (at: Option<nat>, length: Byte)
      requires Valid()
      ensures Answers(t, Nth(t, start, limit, index), at, length)
      ensures at.Some? ==>
                var r := Nth(t, start, limit, index);
                r.Some? && Trimmed(t, r.value.0, r.value.1, at.value, length)
    {
      hide Nth, Trimmed, TextLength, Spaces;
      length := 0;
      var next;
      at, next := Locate(index);
      if at.Some? {
        ghost var first := at.value;
        var last := SkipLeading(at.value, next - 1);
        length := CountTrimmed(last, (next - last - 1) % 256);
        at := Some(last);
        Answered(t, first, next - 1, last, length);
      }
    }

    /** The leading spaces of the string at b, which ends with the NUL at e. */
    method SkipLeading(b: nat, ghost e: nat) returns (last: nat)
      requires b <= e < |t| && t[e] == 0
      ensures b <= last <= e && Spaces(t, b, last) && t[last] != 32
    {
      last := b;
      while t[last] == SPACE
        invariant b <= last <= e && Spaces(t, b, last)
        decreases e - last
      {
        last := last + 1;
      }
    }

    /** The length without trailing spaces. */
    method CountTrimmed(last: nat, n: Byte) returns (len: Byte)
      requires last + n <= |t|
      ensures TextLength(t[last..last + n], len)
    {
      len := n;
      while len > 0 && t[last + len - 1] == SPACE
        invariant 0 <= len <= n && Spaces(t[last..last + n], len, n)
      {
        len := len - 1;
      }
    }
  }

  lemma {:induction false} NulAfter(t: seq<Byte>, p: nat, limit: nat, text: seq<Byte>)
    requires 0 !in text && p + |text| < limit <= |t| && At(t, p, text) && t[p + |text|] == 0
    ensures NulFrom(t, p, limit) == p + |text|
    decreases |text|
  {
    if text != [] {
      assert text == [text[0]] + text[1..];
      AtSplit(t, p, [text[0]], text[1..]);
      assert t[p] == text[0];
      NulAfter(t, p + 1, limit, text[1..]);
    }
  }

  /** The next of the packed strings, and where the others are. */
  lemma PackedStep(t: seq<Byte>, p: nat, limit: nat, strings: seq<seq<Byte>>, j: nat) returns (e: nat)
    requires Strings(strings) && j < |strings|
    requires At(t, p, PackedFrom(strings, j)) && p + |PackedFrom(strings, j)| <= limit <= |t|
    ensures e == p + |strings[j]| == NulFrom(t, p, limit) < limit && At(t, p, strings[j])
    ensures At(t, e + 1, PackedFrom(strings, j + 1))
    ensures e + 1 + |PackedFrom(strings, j + 1)| == p + |PackedFrom(strings, j)|
  {
    e := p + |strings[j]|;
    AtSplit(t, p, strings[j] + [0], PackedFrom(strings, j + 1));
    AtSplit(t, p, strings[j], [0]);
    assert At(t, e, [0]);
    NulAfter(t, p, limit, strings[j]);
  }

  /** The k-th of the packed strings, counted behind the first j, is found whole... */
  lemma {:induction false} PackedNth(t: seq<Byte>, p: nat, limit: nat, strings: seq<seq<Byte>>, j: nat, k: nat)
    requires Strings(strings) && j < |strings| && 1 <= k <= |strings| - j
    requires At(t, p, PackedFrom(strings, j)) && p + |PackedFrom(strings, j)| <= limit <= |t|
    ensures var r := Nth(t, p, limit, k);
            r.Some? && r.value.1 == r.value.0 + |strings[j + k - 1]| && At(t, r.value.0, strings[j + k - 1])
    decreases k
  {
    var e := PackedStep(t, p, limit, strings, j);
    if k > 1 {
      PackedNth(t, e + 1, limit, strings, j + 1, k - 1);
    }
  }

  /** ...and one past the last the search is at their end. */
  lemma {:induction false} PackedEnd(t: seq<Byte>, p: nat, limit: nat, strings: seq<seq<Byte>>, j: nat)
    requires Strings(strings) && j <= |strings|
    requires At(t, p, PackedFrom(strings, j)) && p + |PackedFrom(strings, j)| <= limit <= |t|
    ensures Nth(t, p, limit, |strings| - j + 1) == Nth(t, p + |PackedFrom(strings, j)|, limit, 1)
    decreases |strings| - j
  {
    if j < |strings| {
      var e := PackedStep(t, p, limit, strings, j);
      PackedEnd(t, e + 1, limit, strings, j + 1);
    }
  }

  /** Both ways to open a structure's strings reach exactly its string area, or at least that. */
  ghost predicate Opens(packed: SMBPackedStrings, p: nat, s: Structure)
    requires s.Valid()
  {
    && packed.Valid() && At(packed.t, p, Encoded(s))
    && packed.start == p + s.Length()
    && packed.limit >= p + |Encoded(s)| - 1
  }

  method OpenStrings(t: seq<Byte>, p: nat, s: Structure, toEnd: bool) returns (packed: SMBPackedStrings)
    requires s.Valid() && At(t, p, Encoded(s))
    ensures packed.t == t && Opens(packed, p, s)
    ensures !toEnd ==> packed.limit == p + |Encoded(s)| - 1
  {
    StructureAt(t, p, s);
    AreaInTable(t, p + s.Length(), s.strings);
    ghost var q := p + |Encoded(s)|;
    if toEnd {
      packed := new SMBPackedStrings.WithLimit(t, p, |t|);
    } else {
      packed := new SMBPackedStrings(t, p, q - 2);
    }
  }

  /** Where the packed strings of a structure are, and the NUL behind them. */
  lemma StringsAt(t: seq<Byte>, p: nat, s: Structure)
    requires s.Valid() && At(t, p, Encoded(s))
    ensures var from, n := p + s.Length(), |Packed(s.strings)|;
            && At(t, from, Packed(s.strings)) && from + n < |t| && t[from + n] == 0
            && from + n <= p + |Encoded(s)| - 1
  {
    var from := p + s.Length();
    StructureAt(t, p, s);
    if s.strings == [] {
      assert StringArea(s.strings) == [0] + [0];
      AtSplit(t, from, [0], [0]);
      assert At(t, from, [0]);
    } else {
      AtSplit(t, from, Packed(s.strings), [0]);
      assert At(t, from + |Packed(s.strings)|, [0]);
    }
  }

  /** The number of a string picks that string; the number after the last one picks an empty one or none. */
  lemma StructureNth(t: seq<Byte>, p: nat, s: Structure, limit: nat, k: nat)
    requires s.Valid() && At(t, p, Encoded(s))
    requires p + |Encoded(s)| - 1 <= limit <= |t| && k <= |s.strings| + 1
    ensures var r := Nth(t, p + s.Length(), limit, k);
            && (1 <= k <= |s.strings| ==>
                  r.Some? && r.value.1 == r.value.0 + |s.strings[k - 1]| && At(t, r.value.0, s.strings[k - 1]))
            && (k == 0 ==> r == None)
            && (k == |s.strings| + 1 && r.Some? ==> r.value.0 == r.value.1)
  {
    StringsAt(t, p, s);
    var from := p + s.Length();
    if 1 <= k <= |s.strings| {
      PackedNth(t, from, limit, s.strings, 0, k);
    } else if k > 0 {
      PackedEnd(t, from, limit, s.strings, 0);
    }
  }

  /**
   * A C string: the text from its first byte that is no space on. Its length
   * is the text's without trailing spaces exactly if only spaces are not counted.
   */
  ghost predicate Yields(t: seq<Byte>, at: Option<nat>, length: Byte, text: seq<Byte>, lead: nat) {
    && lead <= |text| && (forall i :: 0 <= i < lead ==> text[i] == 32) && (lead < |text| ==> text[lead] != 32)
    && var s := text[lead..];
    && at.Some? && at.value + |s| < |t| && t[at.value..at.value + |s|] == s && t[at.value + |s|] == 0
    && (TextLength(s, length) <==> forall i :: |s| % 256 <= i < |s| ==> s[i] == 32)
  }

  lemma AnswerYields(t: seq<Byte>, b: nat, e: nat, at: Option<nat>, length: Byte, text: seq<Byte>)
    requires At(t, b, text) && e == b + |text| < |t| && t[e] == 0 && Answers(t, Some((b, e)), at, length)
    ensures Yields(t, at, length, text, at.value - b)
  {
    AtIsSlice(t, b, text);
    var s := text[at.value - b..];
    assert forall i :: 0 <= i < |text| ==> text[i] == t[b + i];
    assert s == t[at.value..e];
    assert t[at.value..at.value + |s| % 256] == s[..|s| % 256];
    LengthInEightBits(s, length);
  }

  /** A text of at most 255 bytes is measured rightly. */
  lemma ShortTextFits(t: seq<Byte>, at: Option<nat>, length: Byte, text: seq<Byte>, lead: nat)
    requires Yields(t, at, length, text, lead) && |text| <= 255
    ensures TextLength(text[lead..], length)
  {
    SmallModulo(|text| - lead);
  }

  lemma SmallModulo(n: nat)
    requires n < 256
    ensures n % 256 == n
  {
  }

  lemma AnswerIsEmpty(t: seq<Byte>, b: nat, at: Option<nat>, length: Byte)
    requires b < |t| && t[b] == 0 && Answers(t, Some((b, b)), at, length)
    ensures length == 0 && at == Some(b)
  {
    assert t[b..b] == [];
  }

  lemma StringResult(t: seq<Byte>, p: nat, s: Structure, limit: nat, k: nat, at: Option<nat>, length: Byte) returns (lead: nat)
    requires s.Valid() && At(t, p, Encoded(s))
    requires p + |Encoded(s)| - 1 <= limit <= |t| && k <= |s.strings| + 1
    requires Answers(t, Nth(t, p + s.Length(), limit, k), at, length)
    ensures 1 <= k <= |s.strings| ==> Yields(t, at, length, s.strings[k - 1], lead)
    ensures k == 0 || k == |s.strings| + 1 ==>
              length == 0 && (at.Some? ==> at.value < |t| && t[at.value] == 0)
  {
    StructureNth(t, p, s, limit, k);
    var r := Nth(t, p + s.Length(), limit, k);
    lead := 0;
    if 1 <= k <= |s.strings| {
      lead := at.value - r.value.0;
      AnswerYields(t, r.value.0, r.value.1, at, length, s.strings[k - 1]);
    } else if r.Some? {
      AnswerIsEmpty(t, r.value.0, at, length);
    }
  }

  /**
   * The strings of a structure by number: leading spaces skipped, trailing
   * spaces not counted, nothing under 0 or one past the last.
   */
  method StringOf(packed: SMBPackedStrings, p: nat, s: Structure, k: Byte)
    returns (at: Option<nat>, length: Byte, ghost lead: nat)
    requires s.Valid() && Opens(packed, p, s) && k <= |s.strings| + 1
    ensures 1 <= k <= |s.strings| ==> Yields(packed.t, at, length, s.strings[k - 1], lead)
    ensures 1 <= k <= |s.strings| && |s.strings[k - 1]| <= 255 ==>
              var text := s.strings[k - 1];
              && lead + length <= |text| && (forall i :: lead + length <= i < |text| ==> text[i] == 32)
              && (length > 0 ==> text[lead + length - 1] != 32)
              && ((forall i :: 0 <= i < |text| ==> text[i] == 32) ==> length == 0)
    ensures k == 0 || k == |s.strings| + 1 ==>
              length == 0 && (at.Some? ==> at.value < |packed.t| && packed.t[at.value] == 0)
  {
    at, length := packed.StringAtIndex(k);
    lead := StringResult(packed.t, p, s, packed.limit, k, at, length);
    if 1 <= k <= |s.strings| && |s.strings[k - 1]| <= 255 {
      ShortTextFits(packed.t, at, length, s.strings[k - 1], lead);
    }
  }
}
