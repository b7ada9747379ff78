/**
 * The registers of the DisplayPort AUX channels that nouveau_i2c_aux.cpp
 * uses: the fields of the control word, the packing of data, and the order in
 * which one transaction accesses them. Those of channel ch are ch * 0x50
 * further on.
 */
module AuxRegisters {
  import opened Bytes

  const EBUSY: int := 16
  const ENXIO: int := 6
  const EREMOTEIO: int := 121

  const RETRIES: nat := 32

  /** The request bits of the control register. */
  const REQUESTS: bv32 := 0x00310000
  /** Its command and size fields. */
  const FIELDS: bv32 := 0x0000f0ff
  const MOT: bv32 := 4

  /** The command and size fields of two control words agree. */
  predicate SameFields(a: bv32, b: bv32) {
    a & FIELDS == b & FIELDS
  }

  function LittleEndian(b: seq<Byte>): nat
    requires |b| == 4
  {
    var b0: nat, b1: nat, b2: nat, b3: nat := b[0], b[1], b[2], b[3];
    b0 + 0x100 * b1 + 0x1_0000 * b2 + 0x100_0000 * b3
  }

  function WordBytes(w: nat): (b: seq<Byte>)
    ensures |b| == 4
  {
    [ByteOf(w), ByteOf(w / 0x100), ByteOf(w / 0x1_0000), ByteOf(w / 0x100_0000)]
  }

  lemma WordRoundTrip(b: seq<Byte>)
    requires |b| == 4
    ensures WordBytes(LittleEndian(b)) == b
  {
    var b0: nat, b1: nat, b2: nat, b3: nat := b[0], b[1], b[2], b[3];
    var w := LittleEndian(b);
    assert w / 0x100 == b1 + 0x100 * b2 + 0x1_0000 * b3;
    assert w / 0x1_0000 == b2 + 0x100 * b3;
    assert w / 0x100_0000 == b3;
  }

  function Fields(cmd: bv32, size: nat): bv32
    requires cmd < 16 && 1 <= size <= 16
  {
    (cmd << 12) | (size - 1) as bv32
  }

  function Command(word: bv32): bv32 {
    (word >> 12) & 0xf
  }

  function Size(word: bv32): nat {
    (word & 0xff) as nat + 1
  }

  lemma SizeAsBits(size: nat)
    requires 1 <= size <= 16
    ensures var n := (size - 1) as bv32; n < 16 && n as nat == size - 1
  {
  }

  lemma FieldBits(cmd: bv32, n: bv32, word: bv32)
    requires cmd < 16 && n < 16 && word & 0xf0ff == (cmd << 12) | n
    ensures (word >> 12) & 0xf == cmd && word & 0xff == n
  {
  }

  lemma FieldsReadBack(cmd: bv32, size: nat, word: bv32)
    requires cmd < 16 && 1 <= size <= 16 && word & FIELDS == Fields(cmd, size)
    ensures Command(word) == cmd && Size(word) == size
  {
    SizeAsBits(size);
    FieldBits(cmd, (size - 1) as bv32, word);
  }

  /** A control word with this command and size. */
  predicate Carries(word: bv32, cmd: bv32, size: nat)
    requires cmd < 16 && 1 <= size <= 16
  {
    word & FIELDS == Fields(cmd, size)
  }

  lemma CarriesToo(a: bv32, b: bv32, cmd: bv32, size: nat)
    requires cmd < 16 && 1 <= size <= 16 && Carries(a, cmd, size) && (SameFields(a, b) || SameFields(b, a))
    ensures Carries(b, cmd, size)
  {
  }

  lemma SetFields(ctrl: bv32, cmd: bv32, n: bv32)
    requires cmd < 16 && n < 16
    ensures ((ctrl & !0x0001f0ff) | (cmd << 12) | n) & 0xf0ff == (cmd << 12) | n
  {
  }

  /** The control word with a new command and size. */
  function ControlWord(word: bv32, cmd: bv32, size: nat): (ctrl: bv32)
    requires cmd < 16 && 1 <= size <= 16
    ensures ctrl & FIELDS == Fields(cmd, size)
  {
    SizeAsBits(size);
    SetFields(word, cmd, (size - 1) as bv32);
    (word & !0x0001f0ff) | (cmd << 12) | (size - 1) as bv32
  }

  lemma FlagsLeaveFields(ctrl: bv32)
    ensures (0x8000_0000 | ctrl) & 0xf0ff == ctrl & 0xf0ff
    ensures (0x0001_0000 | ctrl) & 0xf0ff == ctrl & 0xf0ff
  {
  }

  lemma ReadBackBits(junk: bv32, word: bv32)
    ensures ((junk & !0xf0ff) | (word & 0xf0ff)) & 0xf0ff == word & 0xf0ff
  {
  }

  /** nv_mask's new word. */
  function Masked(word: bv32, mask: bv32, value: bv32): bv32 {
    (word & !mask) | value
  }

  lemma MaskedBits(word: bv32, mask: bv32, value: bv32)
    requires value & !mask == 0
    ensures Masked(word, mask, value) & mask == value
    ensures Masked(word, mask, value) & !mask == word & !mask
  {
  }

  predicate Raised(status: bv32, k: bv32)
    requires k <= 31
  {
    (status >> k) & 1 == 1
  }

  /** The error bits of a status word are bits 8 to 11 and 16 to 19. */
  lemma ErrorBits(status: bv32)
    ensures status & 0x000f0f00 == 0 <==> forall k: bv32 :: (8 <= k <= 11 || 16 <= k <= 19) ==> !Raised(status, k)
  {
    if status & 0x000f0f00 == 0 {
      forall k: bv32 | 8 <= k <= 11 || 16 <= k <= 19
        ensures !Raised(status, k)
      {
        NoErrorBit(status, k);
      }
    } else {
      var k := SomeErrorBit(status);
    }
  }

  lemma NoErrorBit(status: bv32, k: bv32)
    requires status & 0x000f0f00 == 0 && (8 <= k <= 11 || 16 <= k <= 19)
    ensures !Raised(status, k)
  {
  }

  lemma SomeErrorBit(status: bv32) returns (k: bv32)
    requires status & 0x000f0f00 != 0
    ensures (8 <= k <= 11 || 16 <= k <= 19) && Raised(status, k)
  {
    k := if status & 0x100 != 0 then 8 else if status & 0x200 != 0 then 9 else if status & 0x400 != 0 then 10
         else if status & 0x800 != 0 then 11 else if status & 0x1_0000 != 0 then 16 else if status & 0x2_0000 != 0 then 17
         else if status & 0x4_0000 != 0 then 18 else 19;
  }

  /** The four words that hold the data, unused places zero, and back. */
  function Words(data: seq<Byte>): (w: seq<nat>)
    requires |data| <= 16
    ensures |w| == 4
  {
    var d := data + seq(16 - |data|, i => 0);
    [LittleEndian(d[..4]), LittleEndian(d[4..8]), LittleEndian(d[8..12]), LittleEndian(d[12..])]
  }

  function Unpacked(w: seq<nat>): (b: seq<Byte>)
    requires |w| == 4
    ensures |b| == 16
  {
    WordBytes(w[0]) + WordBytes(w[1]) + WordBytes(w[2]) + WordBytes(w[3])
  }

  lemma PackedIsUnpacked(data: seq<Byte>)
    requires |data| <= 16
    ensures Unpacked(Words(data))[..|data|] == data
  {
    var d := data + seq(16 - |data|, i => 0);
    WordRoundTrip(d[..4]);
    WordRoundTrip(d[4..8]);
    WordRoundTrip(d[8..12]);
    WordRoundTrip(d[12..]);
    assert d[..4] + d[4..8] + d[8..12] + d[12..] == d;
    assert d[..|data|] == data;
  }

  /** An access to a control or status word, or to a number: the address or four bytes of data. */
  datatype Access =
    | Read(reg: nat, word: bv32) | Write(reg: nat, word: bv32)
    | Load(reg: nat, number: nat) | Store(reg: nat, number: nat)

  predicate FieldIs(word: bv32, mask: bv32, value: bv32) {
    word & mask == value
  }

  predicate ReadsWord(a: Access, reg: nat) {
    a.Read? && a.reg == reg
  }

  /** The control word is read until a field has a value, at most 1001 times; the last time is too late. */
  predicate Polls(run: seq<Access>, ch: nat, mask: bv32, value: bv32) {
    && 1 <= |run| <= 1001
    && (forall i :: 0 <= i < |run| ==> ReadsWord(run[i], 0xe4e4 + ch * 0x50))
    && (forall i :: 0 <= i < |run| - 1 ==> !FieldIs(run[i].word, mask, value))
    && (|run| <= 1000 ==> FieldIs(run[|run| - 1].word, mask, value))
  }

  /** So far the field did not have it. */
  predicate Polling(run: seq<Access>, ch: nat, mask: bv32, value: bv32) {
    forall i :: 0 <= i < |run| ==> ReadsWord(run[i], 0xe4e4 + ch * 0x50) && !FieldIs(run[i].word, mask, value)
  }

  lemma PollingStep(run: seq<Access>, ch: nat, mask: bv32, value: bv32, word: bv32)
    requires Polling(run, ch, mask, value)
    ensures var more := run + [Read(0xe4e4 + ch * 0x50, word)];
            && (!FieldIs(word, mask, value) ==> Polling(more, ch, mask, value))
            && (|run| == 1000 || (|run| < 1000 && FieldIs(word, mask, value)) ==> Polls(more, ch, mask, value))
            && LastWord(more) == word
  {
    hide FieldIs;
  }

  lemma NoPolls(ch: nat, mask: bv32, value: bv32)
    ensures Polling([], ch, mask, value)
  {
  }

  predicate InTime(run: seq<Access>) {
    |run| <= 1000
  }

  /** A field of the control word is set, everything else in it is written back as it was read. */
  predicate Masks(run: seq<Access>, ch: nat, mask: bv32, value: bv32) {
    && |run| == 2 && ReadsWord(run[0], 0xe4e4 + ch * 0x50)
    && run[1] == Write(0xe4e4 + ch * 0x50, (run[0].word & !mask) | value)
  }

  /** auxch_init: idle, request, grant, and taking the request back without a grant. */
  datatype Opening = Opening(idle: seq<Access>, request: seq<Access>, grant: seq<Access>, withdrawal: seq<Access>) {
    function All(): seq<Access> {
      idle + request + grant + withdrawal
    }
  }

  predicate Opens(o: Opening, ch: nat, granted: bool) {
    && Polls(o.idle, ch, 0x03010000, 0)
    && if !InTime(o.idle) then !granted && o.request == o.grant == o.withdrawal == []
       else
         && Masks(o.request, ch, 0x00300000, 0x00100000) && Polls(o.grant, ch, 0x03000000, 0x01000000)
         && granted == InTime(o.grant)
         && if granted then o.withdrawal == [] else Masks(o.withdrawal, ch, 0x00310000, 0)
  }

  /** The reset and the request of a try. */
  function Requested(ch: nat, ctrl: bv32): seq<Access> {
    var c := 0xe4e4 + ch * 0x50;
    [Write(c, 0x8000_0000 | ctrl), Write(c, ctrl), Write(c, 0x0001_0000 | ctrl)]
  }

  /** One try: reset, request, the wait for its end, and the status, which is written back. */
  datatype Attempt = Attempt(ctrl: bv32, wait: seq<Access>, status: seq<Access>) {
    function All(ch: nat): seq<Access> {
      Requested(ch, ctrl) + wait + status
    }

    predicate Valid(ch: nat) {
      var s := 0xe4e8 + ch * 0x50;
      && Polls(wait, ch, 0x0001_0000, 0)
      && if !InTime(wait) then status == []
         else |status| == 2 && ReadsWord(status[0], s) && status[1] == Write(s, status[0].word)
    }

    /** No error bit is set. */
    predicate Taken() {
      |status| == 2 && status[0].Read? && status[0].word & 0x000f0f00 == 0
    }
  }

  function AllAttempts(ts: seq<Attempt>, ch: nat): seq<Access> {
    if ts == [] then [] else AllAttempts(ts[..|ts| - 1], ch) + ts[|ts| - 1].All(ch)
  }

  /** The tries before the last one came to an end with an error, and each starts from the word read last. */
  predicate Failed(ts: seq<Attempt>, ch: nat, start: bv32) {
    forall i :: 0 <= i < |ts| ==>
      && ts[i].Valid(ch) && InTime(ts[i].wait) && !ts[i].Taken()
      && ts[i].ctrl == StartWord(ts, start, i)
  }

  function StartWord(ts: seq<Attempt>, start: bv32, i: nat): bv32
    requires i <= |ts|
  {
    if i == 0 then start else LastWord(ts[i - 1].wait)
  }

  function LastWord(run: seq<Access>): bv32 {
    if |run| > 0 && run[|run| - 1].Read? then run[|run| - 1].word else 0
  }

  /** At most 32 tries, until one is taken or does not come to an end. */
  predicate Retried(ts: seq<Attempt>, ch: nat, start: bv32, ok: bool, timedOut: bool) {
    && 1 <= |ts| <= 32
    && var n := |ts| - 1;
       && Failed(ts[..n], ch, start) && ts[n].Valid(ch) && ts[n].ctrl == StartWord(ts, start, n)
       && timedOut == !InTime(ts[n].wait) && ok == ts[n].Taken()
       && (!ok && !timedOut ==> |ts| == 32)
  }

  lemma FailedMore(ts: seq<Attempt>, ch: nat, start: bv32, t: Attempt)
    requires Failed(ts, ch, start) && t.Valid(ch) && t.ctrl == StartWord(ts, start, |ts|) && InTime(t.wait) && !t.Taken()
    ensures Failed(ts + [t], ch, start)
  {
    hide Attempt.Valid, Attempt.Taken, LastWord, InTime;
    var all := ts + [t];
    forall i | 0 <= i < |all|
      ensures all[i].Valid(ch) && InTime(all[i].wait) && !all[i].Taken() && all[i].ctrl == StartWord(all, start, i)
    {
      assert i < |ts| ==> all[i] == ts[i];
      assert i > 0 ==> all[i - 1] == ts[i - 1];
    }
  }

  lemma RetriedNow(ts: seq<Attempt>, ch: nat, start: bv32, t: Attempt)
    requires Failed(ts, ch, start) && t.Valid(ch) && t.ctrl == StartWord(ts, start, |ts|)
    requires |ts| < 32 && (t.Taken() || !InTime(t.wait) || |ts| == 31)
    ensures Retried(ts + [t], ch, start, t.Taken(), !InTime(t.wait))
  {
    hide Attempt.Valid, Attempt.Taken, LastWord, InTime, Failed;
    var all := ts + [t];
    assert all[..|ts|] == ts;
    assert |ts| > 0 ==> all[|ts| - 1] == ts[|ts| - 1];
  }

  /** One more try. */
  lemma FailedStep(ts: seq<Attempt>, ch: nat, start: bv32, t: Attempt)
    requires Failed(ts, ch, start) && t.Valid(ch) && t.ctrl == StartWord(ts, start, |ts|)
    ensures InTime(t.wait) && !t.Taken() ==> Failed(ts + [t], ch, start)
    ensures AllAttempts(ts + [t], ch) == AllAttempts(ts, ch) + t.All(ch)
    ensures StartWord(ts + [t], start, |ts| + 1) == LastWord(t.wait)
    ensures |ts| < 32 && (t.Taken() || !InTime(t.wait) || |ts| == 31) ==> Retried(ts + [t], ch, start, t.Taken(), !InTime(t.wait))
  {
    hide Attempt.Valid, Attempt.Taken, Attempt.All, LastWord, InTime, Failed, Retried;
    assert (ts + [t])[..|ts|] == ts;
    if InTime(t.wait) && !t.Taken() {
      FailedMore(ts, ch, start, t);
    }
    if |ts| < 32 && (t.Taken() || !InTime(t.wait) || |ts| == 31) {
      RetriedNow(ts, ch, start, t);
    }
  }

  lemma AttemptIs(before: seq<Access>, t: Attempt, ch: nat)
    ensures before + Requested(ch, t.ctrl) + t.wait + t.status == before + t.All(ch)
  {
    hide Requested;
    Regroup(before, Requested(ch, t.ctrl), t.wait, t.status);
  }

  lemma Regroup<T>(a: seq<T>, b: seq<T>, c: seq<T>, d: seq<T>)
    ensures a + b + c + d == a + (b + c + d)
  {
  }

  lemma AttemptEnds(t: Attempt, ch: nat)
    requires Polls(t.wait, ch, 0x0001_0000, 0)
    requires if !InTime(t.wait) then t.status == []
             else
               && |t.status| == 2 && ReadsWord(t.status[0], 0xe4e8 + ch * 0x50)
               && t.status[1] == Write(0xe4e8 + ch * 0x50, t.status[0].word)
    ensures t.Valid(ch) && t.Taken() == (InTime(t.wait) && t.status[0].word & 0x000f0f00 == 0)
  {
    hide Polls;
  }

  lemma NoAttempts(ch: nat, start: bv32)
    ensures AllAttempts([], ch) == [] && Failed([], ch, start) && StartWord([], start, 0) == start
  {
  }

  lemma TimedOutFails(t: Attempt, ch: nat)
    requires t.Valid(ch) && !InTime(t.wait)
    ensures !t.Taken()
  {
  }

  /** The numbers go into or come out of four registers. */
  predicate Stores(run: seq<Access>, reg: nat, numbers: seq<nat>) {
    && |run| == |numbers| == 4
    && run[0] == Store(reg, numbers[0]) && run[1] == Store(reg + 4, numbers[1])
    && run[2] == Store(reg + 8, numbers[2]) && run[3] == Store(reg + 12, numbers[3])
  }

  predicate LoadsFrom(run: seq<Access>, reg: nat) {
    |run| == 4 && forall i :: 0 <= i < 4 ==> run[i].Load? && run[i].reg == reg + 4 * i
  }

  predicate Loads(run: seq<Access>, reg: nat, numbers: seq<nat>) {
    && |run| == |numbers| == 4
    && run[0] == Load(reg, numbers[0]) && run[1] == Load(reg + 4, numbers[1])
    && run[2] == Load(reg + 8, numbers[2]) && run[3] == Load(reg + 12, numbers[3])
  }

  lemma OddOrEven(cmd: bv32)
    ensures cmd & 1 == 0 || cmd & 1 == 1
  {
  }

  /** The data to send, if any, goes into its registers... */
  predicate Sends(run: seq<Access>, ch: nat, cmd: bv32, data: seq<Byte>)
    requires |data| <= 16
  {
    if cmd & 1 == 1 then run == []
    else
      && |run| == 4
      && var numbers := [NumberOf(run[0]), NumberOf(run[1]), NumberOf(run[2]), NumberOf(run[3])];
         Stores(run, 0xe4c0 + ch * 0x50, numbers) && Unpacked(numbers)[..|data|] == data
  }

  /** ...and the address; the control word to start from has this command and size and is otherwise as it was read. */
  predicate Addresses(run: seq<Access>, ch: nat, cmd: bv32, addr: nat, size: nat, start: bv32)
    requires cmd < 16 && 1 <= size <= 16
  {
    && |run| == 2 && ReadsWord(run[0], 0xe4e4 + ch * 0x50) && run[1] == Store(0xe4e0 + ch * 0x50, addr)
    && Starts(start, run[0].word, cmd, size)
  }

  /** A control word with this command and size, no request in it, and otherwise the one that was read. */
  predicate Starts(start: bv32, word: bv32, cmd: bv32, size: nat) {
    && Command(start) == cmd && Size(start) == size && start & 0x0001_0000 == 0
    && start & !0x0001_f0ff == word & !0x0001_f0ff
  }

  lemma OtherBits(word: bv32, cmd: bv32, n: bv32)
    requires cmd < 16 && n < 16
    ensures var ctrl := (word & !0x0001f0ff) | (cmd << 12) | n;
            ctrl & 0x0001_0000 == 0 && ctrl & !0x0001_f0ff == word & !0x0001_f0ff
  {
  }

  lemma OtherBitsKept(word: bv32, cmd: bv32, size: nat)
    requires cmd < 16 && 1 <= size <= 16
    ensures var start := ControlWord(word, cmd, size);
            start & 0x0001_0000 == 0 && start & !0x0001_f0ff == word & !0x0001_f0ff
  {
    SizeAsBits(size);
    OtherBits(word, cmd, (size - 1) as bv32);
  }

  lemma ControlWordStarts(word: bv32, cmd: bv32, size: nat)
    requires cmd < 16 && 1 <= size <= 16
    ensures Starts(ControlWord(word, cmd, size), word, cmd, size)
  {
    hide ControlWord, Command, Size, Fields;
    FieldsReadBack(cmd, size, ControlWord(word, cmd, size));
    OtherBitsKept(word, cmd, size);
  }

  function NumberOf(a: Access): nat {
    if a.Store? || a.Load? then a.number else 0
  }

  /** The register accesses of auxch_tx. */
  datatype Transaction = Transaction(
    opening: Opening, detection: seq<Access>, sending: seq<Access>, addressing: seq<Access>, attempts: seq<Attempt>, loads: seq<Access>,
    closing: seq<Access>)
  {
    function All(ch: nat): seq<Access> {
      Before(ch) + closing
    }

    function Before(ch: nat): seq<Access> {
      opening.All() + detection + sending + addressing + AllAttempts(attempts, ch) + loads
    }
  }

  const NOTHING := Transaction(Opening([], [], [], []), [], [], [], [], [], [])

  lemma BeforeIs(before: seq<Access>, x: Transaction, ch: nat)
    ensures before + x.Before(ch) ==
            before + x.opening.All() + x.detection + x.sending + x.addressing + AllAttempts(x.attempts, ch) + x.loads
  {
    hide Opening.All, AllAttempts;
    Regroup(x.opening.All(), x.detection, x.sending, x.addressing);
  }

  lemma SameBefore(x: Transaction, run: seq<Access>, ch: nat)
    ensures x.(closing := run).Before(ch) == x.Before(ch)
  {
  }

  /** They stop where the channel is busy, no sink is there, or a try does not end; a read then takes the data out. */
  predicate Transacts(x: Transaction, ch: nat, cmd: bv32, addr: nat, data: seq<Byte>, start: bv32, ret: int, timedOut: bool)
    requires cmd < 16 && 1 <= |data| <= 16
  {
    if ret == -EBUSY then
      Opens(x.opening, ch, false) && x.detection == x.sending == x.addressing == x.loads == [] && x.attempts == []
    else
      && Opens(x.opening, ch, true) && |x.detection| == 1 && ReadsWord(x.detection[0], 0xe4e8 + ch * 0x50)
      && if x.detection[0].word & 0x1000_0000 == 0 then
           ret == -ENXIO && x.sending == x.addressing == x.loads == [] && x.attempts == []
         else
           && Sends(x.sending, ch, cmd, data) && Addresses(x.addressing, ch, cmd, addr, |data|, start)
           && Retried(x.attempts, ch, start, ret == 0, timedOut) && (ret == 0 || ret == -EREMOTEIO)
           && if cmd & 1 == 0 || timedOut then x.loads == []
              else LoadsFrom(x.loads, 0xe4d0 + ch * 0x50)
  }
}
