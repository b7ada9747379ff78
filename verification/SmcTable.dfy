/**
 * The key store of the emulated SMC as a sequence of entries, and the atomic
 * meaning of each transaction on it. A key with a handler holds whatever its
 * driver last put there.
 */
module SmcTable {
  import opened Bytes

  type Name = s: seq<Byte> | |s| == 4 witness [0, 0, 0, 0]

  datatype Entry = Entry(name: Name, typ: Name, value: seq<Byte>, handled: bool)

  type Table = seq<Entry>

  const SHARP_KEY: Name := [35, 75, 69, 89]  // "#KEY"
  const UI8: Name := [117, 105, 56, 0]
  const UI16: Name := [117, 105, 49, 54]
  const UI32: Name := [117, 105, 51, 50]
  const CH8: Name := [99, 104, 56, 42]

  const NOT_FOUND: Byte := 0x84

  /** The length of a C string in a buffer. */
  function StrLen(s: seq<Byte>): (n: nat)
    ensures n <= |s| && forall i :: 0 <= i < n ==> s[i] != 0
    ensures n < |s| ==> s[n] == 0
  {
    if s == [] || s[0] == 0 then 0 else 1 + StrLen(s[1..])
  }

  function CharAt(s: seq<Byte>, i: nat): Byte {
    if i < StrLen(s) then s[i] else 0
  }

  /** copySymbol: at most four characters, padded with zeros. */
  function CopySymbol(s: seq<Byte>): Name {
    [CharAt(s, 0), CharAt(s, 1), CharAt(s, 2), CharAt(s, 3)]
  }

  /** A name that survives being copied: no character after a NUL. */
  predicate Canonical(name: Name) {
    name[0] != 0 && CopySymbol(name) == name
  }

  predicate Full(name: Name) {
    0 !in name
  }

  /** A copy without NULs is the name itself. */
  lemma CopyOfFull(name: Name)
    ensures Full(CopySymbol(name)) ==> CopySymbol(name) == name
    ensures Full(name) ==> Canonical(name)
  {
    var n := StrLen(name);
    if n < 4 {
      assert name[n] == 0 && CopySymbol(name)[n] == 0;
    }
  }

  /** c is a copy of the C string s: its characters up to the first NUL, at most four, then zeros. */
  predicate CopyOf(s: Name, c: Name) {
    forall i :: 0 <= i < 4 ==> c[i] == if exists j :: 0 <= j <= i && s[j] == 0 then 0 else s[i]
  }

  lemma CopySymbolCopies(s: Name)
    ensures CopyOf(s, CopySymbol(s))
  {
    var n := StrLen(s);
    forall i | 0 <= i < 4
      ensures CopySymbol(s)[i] == if exists j :: 0 <= j <= i && s[j] == 0 then 0 else s[i]
    {
      if n <= i {
        assert s[n] == 0;
      }
    }
  }

  /** The number that decimal digits spell. */
  function Decimal(digits: seq<Byte>): int {
    if digits == [] then 0 else 10 * Decimal(digits[..|digits| - 1]) + digits[|digits| - 1] - '0' as int
  }

  predicate Digits(s: seq<Byte>) {
    s != [] && forall c :: c in s ==> '0' as int <= c <= '9' as int
  }

  /** The type of a value of one, two or four bytes is "ui" and its number of bits; any other is "ch8*". */
  predicate TypeOfSize(typ: Name, size: nat) {
    if size in {1, 2, 4} then
      var n := StrLen(typ);
      && typ[0] == 'u' as int && typ[1] == 'i' as int
      && n > 2 && Digits(typ[2..n]) && Decimal(typ[2..n]) == 8 * size
    else
      typ[0] == 'c' as int && typ[1] == 'h' as int && typ[2] == '8' as int && typ[3] == '*' as int
  }

  /** The type a key gets when none is given. */
  function TypeFor(typ: Name, size: nat): Name {
    if typ[0] != 0 then CopySymbol(typ)
    else if size == 1 then UI8
    else if size == 2 then UI16
    else if size == 4 then UI32
    else CH8
  }

  lemma TypeMeans(typ: Name, size: nat)
    ensures if typ[0] == 0 then TypeOfSize(TypeFor(typ, size), size) else CopyOf(typ, TypeFor(typ, size))
  {
    CopySymbolCopies(typ);
    if typ[0] == 0 {
      var t := TypeFor(typ, size);
      var n := StrLen(t);
      if size == 1 {
        assert n == 3 && t[2..3] == [56];
        assert Decimal([56]) == 8;
      } else if size == 2 || size == 4 {
        assert n == 4 && t[2..4] == [t[2], t[3]] && [t[2], t[3]][..1] == [t[2]];
        assert Decimal([t[2]]) == t[2] - 48;
      }
    }
  }

  /** The index of the first key of that name, or |t|. */
  function Find(t: Table, name: Name): (i: nat)
    ensures i <= |t|
    ensures i < |t| ==> t[i].name == name
    ensures forall j :: 0 <= j < i ==> t[j].name != name
  {
    if t == [] || t[0].name == name then 0 else 1 + Find(t[1..], name)
  }

  lemma FindIs(t: Table, name: Name, i: nat)
    requires i < |t| && t[i].name == name
    requires forall j :: 0 <= j < i ==> t[j].name != name
    ensures Find(t, name) == i
  {
  }

  /** What #KEY is set to when the table grows to n keys: the code keeps the low byte only. */
  function CountBytes(n: nat): seq<Byte> {
    [0, 0, 0, n % 256]
  }

  /** Setting a value: exact without a handler, of the right length with one. */
  predicate SetValue(e: Entry, data: seq<Byte>, after: Entry) {
    && after == e.(value := after.value)
    && |after.value| == |data|
    && (!e.handled ==> after.value == data)
  }

  /** Reading a value may let the handler replace it. */
  predicate Refreshed(e: Entry, after: Entry) {
    SetValue(e, e.value, after)
  }

  /** A new last entry, and #KEY counting it. */
  predicate Appended(t: Table, e: Entry, after: Table)
    requires t != []
  {
    && |after| == |t| + 1 && after[|t|] == e
    && (forall i :: 1 <= i < |t| ==> after[i] == t[i])
    && SetValue(t[0], CountBytes(|t| + 1), after[0])
  }

  /** Everything but entry i is as before. */
  predicate OnlyChanged(t: Table, i: nat, after: Table) {
    |after| == |t| && forall j :: 0 <= j < |t| && j != i ==> after[j] == t[j]
  }

  /** addKeyWithValue */
  predicate Put(t: Table, name: Name, typ: Name, data: seq<Byte>, after: Table)
    requires t != []
  {
    var i := Find(t, name);
    if i < |t| then OnlyChanged(t, i, after) && SetValue(t[i], data, after[i])
    else if name[0] == 0 then after == t
    else Appended(t, Entry(CopySymbol(name), TypeFor(typ, |data|), data, false), after)
  }

  /** addKeyWithValue with the size given apart: a new key of size 0 becomes one byte long. */
  predicate PutSized(t: Table, name: Name, typ: Name, size: nat, memory: seq<Byte>, after: Table)
    requires t != [] && |memory| >= StoredSize(size)
  {
    if size > 0 then Put(t, name, typ, memory[..size], after)
    else if Find(t, name) < |t| || name[0] == 0 then after == t
    else Appended(t, Entry(CopySymbol(name), TypeFor(typ, 0), memory[..1], false), after)
  }

  /** The size a new key gets. */
  function StoredSize(size: nat): nat {
    if size == 0 then 1 else size
  }

  /** addKeyWithHandler */
  predicate Handle(t: Table, name: Name, typ: Name, size: nat, attach: bool, after: Table)
    requires t != []
  {
    var i := Find(t, name);
    if i < |t| then after == t[i := t[i].(handled := t[i].handled || attach)]
    else if name[0] == 0 then after == t
    else Appended(t, Entry(CopySymbol(name), TypeFor(typ, size), Zeros(StoredSize(size)), attach), after)
  }

  function Zeros(n: nat): (s: seq<Byte>)
    ensures |s| == n
  {
    seq(n, i => 0)
  }

  /** The first n bytes of a value, with zeros past its end. */
  function Padded(value: seq<Byte>, n: nat): (s: seq<Byte>)
    ensures |s| == n
  {
    seq(n, i requires 0 <= i < n => if i < |value| then value[i] else 0)
  }

  datatype Op =
    | WriteOp(name: Name, data: seq<Byte>)
    | ReadOp(name: Name, len: nat)
    | IndexOp(index: nat)
    | TypeOp(name: Name)
    | HandleOp(name: Name, typ: Name, size: nat, attach: bool)

  /** What a transaction hands back, and the error latch read after it. */
  datatype Reply = Reply(data: seq<Byte>, error: Byte)

  /** Transactions that the port machine carries through to their end. */
  predicate Completes(op: Op) {
    match op
    case WriteOp(_, data) => 1 <= |data| <= 251
    case ReadOp(_, len) => 1 <= len <= 255
    case IndexOp(index) => index < 0x1_0000_0000
    case HandleOp(_, _, size, _) => 1 <= size <= 255
    case TypeOp(_) => true
  }

  /** The atomic meaning of one transaction. */
  predicate Step(t: Table, op: Op, after: Table, reply: Reply)
    requires t != []
  {
    match op
    case WriteOp(name, data) => Put(t, name, [0, 0, 0, 0], data, after) && reply == Reply([], 0)
    case HandleOp(name, typ, size, attach) => Handle(t, name, typ, size, attach, after) && reply == Reply([], 0)
    case IndexOp(index) =>
      && after == t
      && reply == if index < |t| then Reply(t[index].name, 0) else Reply([0, 0, 0, 0], NOT_FOUND)
    case TypeOp(name) =>
      var i := Find(t, name);
      && after == t
      && reply == if i < |t| then Reply([|t[i].value| % 256] + t[i].typ + [0], 0) else Reply(Zeros(6), NOT_FOUND)
    case ReadOp(name, len) =>
      var i := Find(t, name);
      if i < |t| then
        && OnlyChanged(t, i, after) && Refreshed(t[i], after[i])
        && reply == Reply(Padded(after[i].value, len), 0)
      else after == t && reply == Reply(Zeros(len), NOT_FOUND)
  }

  /** A run of transactions, with the table before each and after the last. */
  ghost predicate Run(ts: seq<Table>, ops: seq<Op>, replies: seq<Reply>) {
    && |ts| == |ops| + 1 && |replies| == |ops|
    && (forall i :: 0 <= i < |ts| ==> ts[i] != [])
    && forall i :: 0 <= i < |ops| ==> Step(ts[i], ops[i], ts[i + 1], replies[i])
  }

  /** The key is there, has no handler, and holds `data`. */
  predicate Holds(t: Table, name: Name, data: seq<Byte>) {
    var i := Find(t, name);
    i < |t| && !t[i].handled && t[i].value == data
  }

  predicate Unhandled(t: Table, name: Name) {
    var i := Find(t, name);
    i < |t| ==> !t[i].handled
  }

  predicate Touches(op: Op, name: Name) {
    (op.WriteOp? || op.HandleOp?) && op.name == name
  }

  /** Finding a key survives any change that keeps the old names where they are. */
  lemma FindStable(t: Table, after: Table, name: Name)
    requires |t| <= |after| && forall i :: 0 <= i < |t| ==> after[i].name == t[i].name
    requires Find(t, name) < |t|
    ensures Find(after, name) == Find(t, name)
  {
    FindIs(after, name, Find(t, name));
  }

  /** No transaction renames or moves a key. */
  lemma NamesStay(t: Table, op: Op, after: Table, reply: Reply)
    requires t != [] && Step(t, op, after, reply)
    ensures |t| <= |after| <= |t| + 1
    ensures forall i :: 0 <= i < |t| ==> after[i].name == t[i].name
  {
  }

  lemma WriteHolds(t: Table, name: Name, data: seq<Byte>, after: Table)
    requires t != [] && Put(t, name, [0, 0, 0, 0], data, after)
    requires Canonical(name) && name != SHARP_KEY && t[0].name == SHARP_KEY && Unhandled(t, name)
    ensures Holds(after, name, data)
  {
    var i := Find(t, name);
    if i < |t| {
      FindStable(t, after, name);
    } else {
      FindIs(after, name, |t|);
    }
  }

  /** A handler that is attached to a key stays with it, and the key is the one found by its name. */
  lemma HandleAttaches(t: Table, name: Name, typ: Name, size: nat, attach: bool, after: Table)
    requires t != [] && Handle(t, name, typ, size, attach, after) && Canonical(name)
    ensures var i, j := Find(t, name), Find(after, name);
            && j < |after| && after[j].handled == (attach || (i < |t| && t[i].handled))
            && (i < |t| ==> j == i && after[j].value == t[i].value && after[j].typ == t[i].typ)
            && (i == |t| ==>
                  && |after| == |t| + 1 && after[j].value == seq(if size == 0 then 1 else size, k => 0)
                  && if typ[0] == 0 then TypeOfSize(after[j].typ, size) else CopyOf(typ, after[j].typ))
  {
    hide TypeOfSize, CopyOf, TypeFor;
    TypeMeans(typ, size);
    if Find(t, name) < |t| {
      FindStable(t, after, name);
    } else {
      FindIs(after, name, |t|);
    }
  }

  lemma OtherOpsKeep(t: Table, op: Op, after: Table, reply: Reply, name: Name, data: seq<Byte>)
    requires t != [] && t[0].name == SHARP_KEY && name != SHARP_KEY
    requires Step(t, op, after, reply) && Holds(t, name, data) && !Touches(op, name)
    ensures Holds(after, name, data)
  {
    NamesStay(t, op, after, reply);
    FindStable(t, after, name);
  }

  lemma {:induction false} HeldUntil(ts: seq<Table>, ops: seq<Op>, replies: seq<Reply>, from: nat, to: nat, name: Name, data: seq<Byte>)
    requires Run(ts, ops, replies) && from <= to <= |ops|
    requires ts[from][0].name == SHARP_KEY && name != SHARP_KEY && Holds(ts[from], name, data)
    requires forall m :: from <= m < to ==> !Touches(ops[m], name)
    ensures Holds(ts[to], name, data)
    decreases |ops| - from
  {
    if from < to {
      hide Step, Holds, Touches;
      assert Step(ts[from], ops[from], ts[from + 1], replies[from]);
      NamesStay(ts[from], ops[from], ts[from + 1], replies[from]);
      OtherOpsKeep(ts[from], ops[from], ts[from + 1], replies[from], name, data);
      HeldUntil(ts, ops, replies, from + 1, to, name, data);
    }
  }

  /**
   * What was written to a key without a handler is what every later read of
   * it returns, whatever is done to other keys in between.
   */
  lemma LastWriteWins(ts: seq<Table>, ops: seq<Op>, replies: seq<Reply>, i: nat, j: nat)
    requires Run(ts, ops, replies) && i < j < |ops|
    requires ops[i].WriteOp? && ops[j].ReadOp? && ops[i].name == ops[j].name
    requires Canonical(ops[i].name) && ops[i].name != SHARP_KEY
    requires ts[i][0].name == SHARP_KEY && Unhandled(ts[i], ops[i].name)
    requires forall m :: i < m < j ==> !Touches(ops[m], ops[i].name)
    ensures replies[j] == Reply(Padded(ops[i].data, ops[j].len), 0)
    ensures ops[j].len == |ops[i].data| ==> replies[j].data == ops[i].data
  {
    var name, data := ops[i].name, ops[i].data;
    WriteHolds(ts[i], name, data, ts[i + 1]);
    NamesStay(ts[i], ops[i], ts[i + 1], replies[i]);
    HeldUntil(ts, ops, replies, i + 1, j, name, data);
    assert Step(ts[j], ops[j], ts[j + 1], replies[j]);
    assert Padded(data, |data|) == data;
  }

  /** A name with a character after a NUL is stored under another name: it is never found again. */
  lemma LostWrite(t: Table, name: Name, data: seq<Byte>, after: Table)
    requires t != [] && Put(t, name, [0, 0, 0, 0], data, after)
    requires Find(t, name) == |t|
    ensures (Find(after, name) < |after|) == Canonical(name)
  {
    if Canonical(name) {
      FindIs(after, name, |t|);
    }
  }

  /** Every full four-character name occurs once; the count key comes first. */
  ghost predicate WellFormed(t: Table) {
    && t != [] && t[0].name == SHARP_KEY
    && forall i, j :: 0 <= i < j < |t| && Full(t[i].name) ==> t[i].name != t[j].name
  }

  lemma StepKeepsWellFormed(t: Table, op: Op, after: Table, reply: Reply)
    requires WellFormed(t) && Step(t, op, after, reply)
    ensures WellFormed(after)
  {
    NamesStay(t, op, after, reply);
    if |after| > |t| {
      CopyOfFull(op.name);
    }
  }

  /** #KEY holds the low byte of the number of keys. */
  predicate Counted(t: Table) {
    t != [] && !t[0].handled && t[0].value == CountBytes(|t|)
  }

  lemma StepCounts(t: Table, op: Op, after: Table, reply: Reply)
    requires WellFormed(t) && Step(t, op, after, reply) && !Touches(op, SHARP_KEY) && !t[0].handled
    ensures !after[0].handled
    ensures Counted(t) || |after| > |t| ==> Counted(after)
  {
    FindIs(t, SHARP_KEY, 0);
  }

  /**
   * Over any run that leaves #KEY alone: keys keep their indices, full names
   * stay unique, and once a key has been added #KEY counts them.
   */
  lemma {:induction false} RunEnumerates(ts: seq<Table>, ops: seq<Op>, replies: seq<Reply>, n: nat)
    requires Run(ts, ops, replies) && n <= |ops|
    requires WellFormed(ts[0]) && !ts[0][0].handled
    requires forall i :: 0 <= i < n ==> !Touches(ops[i], SHARP_KEY)
    ensures WellFormed(ts[n]) && !ts[n][0].handled && |ts[0]| <= |ts[n]|
    ensures forall i :: 0 <= i < |ts[0]| ==> ts[n][i].name == ts[0][i].name
    ensures Counted(ts[0]) || |ts[n]| > |ts[0]| ==> Counted(ts[n])
    decreases n
  {
    if n > 0 {
      RunEnumerates(ts, ops, replies, n - 1);
      var t, op, after, reply := ts[n - 1], ops[n - 1], ts[n], replies[n - 1];
      NamesStay(t, op, after, reply);
      StepKeepsWellFormed(t, op, after, reply);
      StepCounts(t, op, after, reply);
    }
  }

  /** The big-endian number in a reply. */
  function BigEndian(s: seq<Byte>): nat
  {
    if s == [] then 0 else 256 * BigEndian(s[..|s| - 1]) + s[|s| - 1]
  }

  /** The count read back is right exactly while there are fewer than 256 keys. */
  lemma CountIsLowByte(n: nat)
    ensures BigEndian(CountBytes(n)) == n % 256
    ensures (BigEndian(CountBytes(n)) == n) == (n < 256)
  {
    var s := CountBytes(n);
    assert s[..3] == [0, 0, 0] && s[..3][..2] == [0, 0] && s[..3][..2][..1] == [0];
    assert BigEndian([0]) == 0 && BigEndian([0, 0]) == 0 && BigEndian([0, 0, 0]) == 0;
  }
}
