/**
 * The handshake of SMBusSensors/ICHSMBus.cpp between threads in I2CExec and
 * the interrupt filter and handler, as interleaved atomic steps over the
 * shared fields. Any number of threads compete for the bus lock; the hardware
 * raises one completion per START; no wait times out. The interrupt line is
 * off from the moment the filter accepts an interrupt until the handler
 * returns, but while it is on, other devices sharing it may run the filter at
 * any time.
 */
module SmbusHandshake {
  import opened Bytes

  type Tid = nat

  datatype Op = NoOp | ReadOp | WriteOp

  /** The bits of the host status register that matter: INTR and the error bits. */
  datatype Status = Status(busy: bool, intr: bool, err: bool)

  const QUIET := Status(false, false, false)

  /** What the hardware answered to a START. */
  datatype Answer = Answer(intr: bool, err: bool, d0: Byte, d1: Byte)

  /** Where a thread is. */
  datatype Pc =
    | Out                      // does not hold the bus lock
    | Ready                    // holds it
    | Filled                   // I2C_Transfer is set up
    | Started                  // START is written
    | Checking                 // holds Lock.holder
    | Asleep                   // in IOLockSleepDeadline
    | Woken                    // awake, needs Lock.holder again
    | Rechecking               // has it again
    | Finishing                // looks at the error marker
    | Returned(ret: nat, op: Op, data: seq<Byte>, answer: Option<Answer>)

  /** Where the interrupt handler is. */
  datatype HandlerPc = Off | Clear | Decide | Read0 | Read1 | Lock | Set | Wake | Unlock

  datatype Holder = Nobody | Handler | Thread(t: Tid)

  datatype State = State(
    busLock: Option<Tid>, pc: map<Tid, Pc>,
    holder: Holder, event: bool,
    op: Op, length: nat, buffer: seq<Byte>, errorMarker: bool,
    fSt: Status, hs: Status, hd0: Byte, hd1: Byte,
    handler: HandlerPc, answer: Option<Answer>)
  {
    function At(t: Tid): Pc {
      if t in pc then pc[t] else Out
    }

    function Goto(t: Tid, p: Pc): State {
      this.(pc := pc[t := p])
    }
  }

  /** Where the thread that holds the bus lock is. */
  function Owner(s: State): Pc {
    if s.busLock.Some? then s.At(s.busLock.value) else Out
  }

  predicate Between(p: Pc) {
    p.Ready? || p.Returned?
  }

  predicate InFlight(p: Pc) {
    p in {Started, Checking, Asleep, Woken, Rechecking}
  }

  datatype Action =
    | Acquire(t: Tid) | Release(t: Tid)
    | Refuse(t: Tid)                                // too much data, or the host stays busy
    | Fill(t: Tid, op: Op, data: seq<Byte>)         // data to write, or the read buffer as it was
    | Start(t: Tid)
    | LockHolder(t: Tid) | Check(t: Tid) | Retake(t: Tid) | ClearEvent(t: Tid) | Finish(t: Tid)
    | Complete(a: Answer)                           // the hardware
    | Filter                                        // the interrupt filter, also for other devices
    | Handle                                        // the next step of the handler

  predicate Enabled(s: State, a: Action) {
    match a
    case Acquire(t) => s.At(t).Out? && s.busLock.None?
    case Release(t) => Between(s.At(t))
    case Refuse(t) => Between(s.At(t))
    case Fill(t, op, data) => Between(s.At(t)) && !s.hs.busy && !op.NoOp? && |data| <= 2
    case Start(t) => s.At(t).Filled?
    case LockHolder(t) => s.At(t).Started? && s.holder.Nobody?
    case Check(t) => s.At(t).Checking?
    case Retake(t) => s.At(t).Woken? && s.holder.Nobody?
    case ClearEvent(t) => s.At(t).Rechecking?
    case Finish(t) => s.At(t).Finishing?
    case Complete(answer) => s.hs.busy && (answer.intr || answer.err)
    case Filter => s.handler.Off?
    case Handle => !s.handler.Off? && (s.handler.Lock? ==> s.holder.Nobody?)
  }

  /** interruptHandler, one access to shared state at a time. */
  function HandlerStep(s: State): State {
    match s.handler
    case Off => s
    case Clear =>
      var hs := Status(s.hs.busy, s.hs.intr && !s.fSt.intr, s.hs.err && !s.fSt.err);
      s.(hs := hs, handler := if s.op.NoOp? then Off else Decide)
    case Decide =>
      if s.fSt.err then s.(errorMarker := true, handler := Lock)
      else if s.fSt.intr && !s.op.WriteOp? then s.(handler := Read0)
      else s.(handler := Lock)
    case Read0 => s.(buffer := if s.length > 0 && |s.buffer| > 0 then s.buffer[0 := s.hd0] else s.buffer, handler := Read1)
    case Read1 => s.(buffer := if s.length > 1 && |s.buffer| > 1 then s.buffer[1 := s.hd1] else s.buffer, handler := Lock)
    case Lock => s.(holder := Handler, handler := Set)
    case Set => s.(event := true, handler := Wake)
    case Wake =>
      var woken := if s.busLock.Some? && Owner(s).Asleep? then s.Goto(s.busLock.value, Woken) else s;
      woken.(handler := Unlock)
    case Unlock => s.(holder := Nobody, handler := Off)
  }

  function Do(s: State, a: Action): State
    requires Enabled(s, a)
  {
    match a
    case Acquire(t) => s.Goto(t, Ready).(busLock := Some(t))
    case Release(t) => s.Goto(t, Out).(busLock := None)
    case Refuse(t) => s.Goto(t, Returned(1, NoOp, [], None))
    case Fill(t, op, data) =>
      var filled := s.Goto(t, Filled).(op := op, errorMarker := false);
      if op.ReadOp? then filled.(buffer := data, length := |data|)
      else if |data| > 0 then filled.(hd0 := data[|data| - 1])
      else filled
    case Start(t) => s.Goto(t, Started).(hs := s.hs.(busy := true), answer := None)
    case LockHolder(t) => s.Goto(t, Checking).(holder := Thread(t))
    case Check(t) =>
      if s.event then s.Goto(t, Finishing).(event := false, holder := Nobody)
      else s.Goto(t, Asleep).(holder := Nobody)
    case Retake(t) => s.Goto(t, Rechecking).(holder := Thread(t))
    case ClearEvent(t) => s.Goto(t, Finishing).(event := false, holder := Nobody)
    case Finish(t) => s.Goto(t, Returned(if s.errorMarker then 1 else 0, s.op, s.buffer, s.answer))
    case Complete(answer) =>
      s.(hs := Status(false, answer.intr, answer.err), hd0 := answer.d0, hd1 := answer.d1, answer := Some(answer))
    case Filter =>
      var seen := s.(fSt := s.hs);
      if s.hs.busy || !(s.hs.intr || s.hs.err) then seen else seen.(handler := Clear)
    case Handle => HandlerStep(s)
  }

  /** Status bits may be pending from before: the handler clears them while there is no transfer yet. */
  predicate Init(s: State) {
    && s.busLock.None? && s.pc == map[] && s.holder.Nobody? && !s.event
    && s.op.NoOp? && !s.hs.busy && s.handler.Off? && s.answer.None?
    && s.length == |s.buffer|
  }

  /** A status bit from before the first transfer is pending, or being handled. */
  predicate Cold(s: State) {
    s.op.NoOp? && (s.hs != QUIET || !s.handler.Off?)
  }

  /** The first transfer is set up only after that. */
  predicate Admitted(s: State, a: Action) {
    a.Fill? ==> !Cold(s)
  }

  /** The first bytes of an answer that fit a buffer of that length. */
  function Received(a: Answer, length: nat): seq<Byte> {
    if length == 0 then [] else if length == 1 then [a.d0] else [a.d0, a.d1]
  }

  /** How far the current transfer has come: what the flags, the handler and the event may be. */
  predicate Stage(s: State, p: Pc) {
    if !InFlight(p) then
      && !s.event && s.holder.Nobody?
      && if Cold(s) then !s.hs.busy && !p.Filled? && (s.handler.Off? || (s.handler.Clear? && s.fSt == s.hs))
         else s.hs == QUIET && s.handler.Off?
    else if s.hs.busy then
      && !s.event && s.hs == Status(true, false, false) && s.handler.Off? && s.answer.None?
      && p in {Started, Checking, Asleep}
    else
      && s.answer.Some?
      && match s.handler
         case Off =>
           if s.hs == QUIET then s.event && p in {Started, Checking, Woken, Rechecking}
           else !s.event && s.hs == Status(false, s.answer.value.intr, s.answer.value.err) && p in {Started, Checking, Asleep}
         case Clear =>
           && !s.event && s.hs == s.fSt == Status(false, s.answer.value.intr, s.answer.value.err)
           && p in {Started, Checking, Asleep}
         case Wake => s.event && s.hs == QUIET && p in {Started, Asleep}
         case Unlock => s.event && s.hs == QUIET && p in {Started, Woken}
         case Set => !s.event && s.hs == QUIET && p in {Started, Asleep}
         case _ => !s.event && s.hs == QUIET && p in {Started, Checking, Asleep}
  }

  /** Who may hold Lock.holder. */
  predicate Holding(s: State, p: Pc) {
    match s.holder
    case Nobody => p !in {Checking, Rechecking} && s.handler !in {Set, Wake, Unlock}
    case Handler => s.handler in {Set, Wake, Unlock} && p !in {Checking, Rechecking}
    case Thread(t) => s.busLock == Some(t) && p in {Checking, Rechecking} && s.handler !in {Set, Wake, Unlock}
  }

  /** What the handler has already copied of the answer. */
  predicate Copied(s: State, p: Pc) {
    && s.length == |s.buffer|
    && (InFlight(p) || p in {Filled, Finishing} ==> !s.op.NoOp? && (s.op.ReadOp? ==> |s.buffer| <= 2))
    && (p.Filled? || (InFlight(p) && (s.hs.busy || s.hs != QUIET || s.handler in {Clear, Decide})) ==> !s.errorMarker)
    && (p.Finishing? ==> s.answer.Some?)
    && (s.answer.Some? && (s.answer.value.intr || s.answer.value.err) && (InFlight(p) || p.Finishing?) ==>
          var a := s.answer.value;
          && s.hd0 == a.d0 && s.hd1 == a.d1
          && (s.handler !in {Off, Clear} ==> s.fSt == Status(false, a.intr, a.err))
          && (s.handler in {Read0, Read1} ==> !a.err && s.op.ReadOp? && !s.errorMarker)
          && (s.handler.Read1? && s.length > 0 ==> s.buffer[0] == a.d0)
          && (s.handler in {Lock, Set, Wake, Unlock} || (s.handler.Off? && s.hs == QUIET) ==>
                && s.errorMarker == a.err
                && (s.op.ReadOp? && !a.err ==> s.buffer == Received(a, s.length))))
    && (s.answer.Some? ==> s.answer.value.intr || s.answer.value.err)
  }

  /**
   * A transfer that was started returns after its own completion, 0 exactly
   * when the hardware reported no error, and with its own data.
   */
  predicate Honest(p: Pc) {
    p.Returned? ==>
      match p.answer
      case None => p.ret == 1 && p.op.NoOp?
      case Some(a) =>
        && (p.ret == 0) == !a.err
        && (p.ret == 0 && p.op.ReadOp? ==> p.data == Received(a, |p.data|))
  }

  ghost predicate Inv(s: State) {
    && (forall t :: t in s.pc && !s.pc[t].Out? ==> s.busLock == Some(t))
    && (s.busLock.Some? ==> !Owner(s).Out?)
    && (forall t :: t in s.pc ==> Honest(s.pc[t]))
    && Stage(s, Owner(s)) && Holding(s, Owner(s)) && Copied(s, Owner(s))
  }

  lemma InitInv(s: State)
    requires Init(s)
    ensures Inv(s)
  {
  }

  lemma HandlerEdgeInv(s: State)
    requires Inv(s) && Enabled(s, Handle) && s.handler in {Wake, Unlock, Set, Lock}
    ensures Inv(HandlerStep(s))
  {
  }

  lemma HandlerCopyInv(s: State)
    requires Inv(s) && Enabled(s, Handle) && s.handler in {Read0, Read1}
    ensures Inv(HandlerStep(s))
  {
  }

  lemma HandlerStepInv(s: State)
    requires Inv(s) && Enabled(s, Handle)
    ensures Inv(HandlerStep(s))
  {
    if s.handler in {Wake, Unlock, Set, Lock} {
      HandlerEdgeInv(s);
    } else if s.handler in {Read0, Read1} {
      HandlerCopyInv(s);
    }
  }

  lemma WaiterStepInv(s: State, a: Action)
    requires Inv(s) && Enabled(s, a)
    requires a.LockHolder? || a.Check? || a.Retake? || a.ClearEvent? || a.Finish?
    ensures Inv(Do(s, a))
  {
  }

  lemma CallerStepInv(s: State, a: Action)
    requires Inv(s) && Enabled(s, a) && Admitted(s, a)
    requires a.Acquire? || a.Release? || a.Refuse? || a.Fill? || a.Start?
    ensures Inv(Do(s, a))
  {
  }

  lemma StepInv(s: State, a: Action)
    requires Inv(s) && Enabled(s, a) && Admitted(s, a)
    ensures Inv(Do(s, a))
  {
    match a {
      case Handle => HandlerStepInv(s);
      case LockHolder(_) => WaiterStepInv(s, a);
      case Check(_) => WaiterStepInv(s, a);
      case Retake(_) => WaiterStepInv(s, a);
      case ClearEvent(_) => WaiterStepInv(s, a);
      case Finish(_) => WaiterStepInv(s, a);
      case Complete(_) =>
      case Filter =>
      case _ => CallerStepInv(s, a);
    }
  }

  /** A run of the system from s. */
  ghost predicate Runs(s: State, actions: seq<Action>, end: State)
    decreases |actions|
  {
    if actions == [] then end == s
    else Enabled(s, actions[0]) && Admitted(s, actions[0]) && Runs(Do(s, actions[0]), actions[1..], end)
  }

  /** Over every interleaving: one transfer at a time, honest results, no event left over. */
  lemma {:induction false} RunInv(s: State, actions: seq<Action>, end: State)
    requires Inv(s) && Runs(s, actions, end)
    ensures Inv(end)
    decreases |actions|
  {
    if actions != [] {
      StepInv(s, actions[0]);
      RunInv(Do(s, actions[0]), actions[1..], end);
    }
  }

  lemma Safe(start: State, actions: seq<Action>, end: State)
    requires Init(start) && Runs(start, actions, end)
    ensures forall t, u :: t in end.pc && u in end.pc && !end.pc[t].Out? && !end.pc[u].Out? ==> t == u
    ensures forall t :: t in end.pc ==> Honest(end.pc[t])
    ensures end.event ==> InFlight(Owner(end))
    ensures Owner(end).Asleep? ==> !end.event || end.handler.Wake?
  {
    InitInv(start);
    RunInv(start, actions, end);
  }

  /** A run, state by state, that sets up transfers whenever it likes. */
  ghost predicate Trace(ss: seq<State>, actions: seq<Action>) {
    |ss| == |actions| + 1
    && forall i :: 0 <= i < |actions| ==> Enabled(ss[i], actions[i]) && ss[i + 1] == Do(ss[i], actions[i])
  }

  lemma Join(ss: seq<State>, xs: seq<Action>, tt: seq<State>, ys: seq<Action>)
    returns (all: seq<State>, actions: seq<Action>)
    requires Trace(ss, xs) && Trace(tt, ys) && ss[|xs|] == tt[0]
    ensures Trace(all, actions) && all[0] == ss[0] && all[|actions|] == tt[|ys|]
  {
    all, actions := ss[..|xs|] + tt, xs + ys;
    forall i | 0 <= i < |actions|
      ensures Enabled(all[i], actions[i]) && all[i + 1] == Do(all[i], actions[i])
    {
      if i < |xs| {
        assert all[i] == ss[i] && all[i + 1] == ss[i + 1];
      } else {
        assert all[i] == tt[i - |xs|] && all[i + 1] == tt[i - |xs| + 1];
      }
    }
  }

  /** The handler takes the old status bit for the end of a transfer that is only set up... */
  function Misled(s: State): State {
    s.(busLock := Some(0), pc := map[0 := Filled], op := WriteOp, errorMarker := false, fSt := s.hs, hs := QUIET,
       handler := Decide)
  }

  function Told(s: State): State {
    Misled(s).(errorMarker := s.hs.err, holder := Handler, event := true, handler := Wake)
  }

  function Checked(s: State): State {
    Told(s).(pc := map[0 := Checking], hs := Status(true, false, false), holder := Thread(0), handler := Off, answer := None)
  }

  lemma Misleads(s: State) returns (ss: seq<State>, actions: seq<Action>)
    requires Init(s) && s.hs != QUIET
    ensures Trace(ss, actions) && ss[0] == s && ss[|actions|] == Misled(s)
  {
    actions := [Acquire(0), Fill(0, WriteOp, []), Filter, Handle];
    var s1 := Do(s, actions[0]);
    var s2 := Do(s1, actions[1]);
    var s3 := Do(s2, actions[2]);
    ss := [s, s1, s2, s3, HandlerStep(s3)];
    assert s1.pc[0 := Filled] == map[0 := Filled];
  }

  lemma Tells(s: State) returns (ss: seq<State>, actions: seq<Action>)
    requires Init(s)
    ensures Trace(ss, actions) && ss[0] == Misled(s) && ss[|actions|] == Told(s)
  {
    actions := [Handle, Handle, Handle];
    var s1 := Misled(s).(errorMarker := s.hs.err, handler := Lock);
    var s2 := s1.(holder := Handler, handler := Set);
    ss := [Misled(s), s1, s2, Told(s)];
  }

  lemma Wakes(s: State) returns (ss: seq<State>, actions: seq<Action>)
    requires Init(s)
    ensures Trace(ss, actions) && ss[0] == Told(s) && ss[|actions|] == Told(s).(holder := Nobody, handler := Off)
  {
    actions := [Handle, Handle];
    ss := [Told(s), Told(s).(handler := Unlock), Told(s).(holder := Nobody, handler := Off)];
  }

  lemma Checks(s: State) returns (ss: seq<State>, actions: seq<Action>)
    requires Init(s)
    ensures Trace(ss, actions) && ss[0] == Told(s).(holder := Nobody, handler := Off) && ss[|actions|] == Checked(s)
  {
    actions := [Start(0), LockHolder(0)];
    var s0 := Told(s).(holder := Nobody, handler := Off);
    var s1 := Do(s0, actions[0]);
    ss := [s0, s1, Do(s1, actions[1])];
    assert map[0 := Filled][0 := Started][0 := Checking] == map[0 := Checking];
  }

  lemma Ends(s: State) returns (ss: seq<State>, actions: seq<Action>)
    requires Init(s)
    ensures Trace(ss, actions) && ss[0] == Checked(s) && ss[|actions|].hs.busy
    ensures ss[|actions|].At(0) == Returned(if s.hs.err then 1 else 0, WriteOp, s.buffer, None)
  {
    actions := [Check(0), Finish(0)];
    var s0 := Checked(s);
    var s1 := Do(s0, actions[0]);
    ss := [s0, s1, Do(s1, actions[1])];
  }

  /** ...so that the transfer returns before it is carried out. */
  lemma ColdRace(s: State) returns (ss: seq<State>, actions: seq<Action>)
    requires Init(s) && s.hs != QUIET
    ensures Trace(ss, actions) && ss[0] == s && ss[|actions|].hs.busy
    ensures ss[|actions|].At(0) == Returned(if s.hs.err then 1 else 0, WriteOp, s.buffer, None)
  {
    hide Trace;
    ss, actions := Misleads(s);
    var tt, more := Tells(s);
    ss, actions := Join(ss, actions, tt, more);
    tt, more := Wakes(s);
    ss, actions := Join(ss, actions, tt, more);
    tt, more := Checks(s);
    ss, actions := Join(ss, actions, tt, more);
    tt, more := Ends(s);
    ss, actions := Join(ss, actions, tt, more);
  }

  /** Nothing pending at the start, nothing ever pending before the first transfer. */
  lemma {:induction false} QuietRun(ss: seq<State>, actions: seq<Action>, n: nat)
    requires Trace(ss, actions) && n <= |actions| && Init(ss[0]) && ss[0].hs == QUIET
    ensures Inv(ss[n]) && !Cold(ss[n])
  {
    if n == 0 {
      InitInv(ss[0]);
    } else {
      QuietRun(ss, actions, n - 1);
      QuietStep(ss[n - 1], actions[n - 1]);
    }
  }

  lemma QuietStep(s: State, a: Action)
    requires Inv(s) && Enabled(s, a) && !Cold(s)
    ensures Inv(Do(s, a)) && !Cold(Do(s, a))
  {
    StepInv(s, a);
  }

  /** Whatever is done from s on, every transfer that returned was carried out and reported honestly. */
  ghost predicate AlwaysHonest(s: State) {
    forall ss, actions :: Trace(ss, actions) && ss[0] == s ==> AllHonest(ss[|actions|])
  }

  predicate AllHonest(s: State) {
    forall t :: t in s.pc ==> Honest(s.pc[t])
  }

  /** The driver may transfer at any time exactly when no status bit was pending as it started. */
  lemma HonestIffQuiet(s: State)
    requires Init(s)
    ensures AlwaysHonest(s) <==> s.hs == QUIET
  {
    if s.hs == QUIET {
      forall ss, actions | Trace(ss, actions) && ss[0] == s
        ensures AllHonest(ss[|actions|])
      {
        QuietRun(ss, actions, |actions|);
      }
    } else {
      var ss, actions := ColdRace(s);
      assert !Honest(ss[|actions|].pc[0]);
    }
  }

  /** A transfer that is set up stays so until it is started, whatever else happens. */
  lemma SetUpStays(s: State, a: Action, t: Tid)
    requires Inv(s) && Enabled(s, a) && Admitted(s, a) && s.At(t).Filled? && a != Start(t)
    ensures var after := Do(s, a);
            && after.At(t).Filled? && after.op == s.op && after.hd0 == s.hd0
            && after.buffer == s.buffer && after.length == s.length && !after.errorMarker
  {
  }

  lemma {:induction false} SetUpUntil(s: State, actions: seq<Action>, end: State, t: Tid)
    requires Inv(s) && Runs(s, actions, end) && s.At(t).Filled? && Start(t) !in actions
    ensures end.At(t).Filled? && end.op == s.op && end.hd0 == s.hd0
    ensures end.buffer == s.buffer && end.length == s.length && !end.errorMarker
    decreases |actions|
  {
    if actions != [] {
      StepInv(s, actions[0]);
      SetUpStays(s, actions[0], t);
      SetUpUntil(Do(s, actions[0]), actions[1..], end, t);
    }
  }

  /**
   * When START is written the registers are those of this transfer: HD0 holds
   * the byte to write, but of two bytes only the second one.
   */
  lemma StartsAsFilled(s: State, t: Tid, op: Op, data: seq<Byte>, actions: seq<Action>, end: State)
    requires Inv(s) && Enabled(s, Fill(t, op, data)) && Admitted(s, Fill(t, op, data))
    requires Runs(Do(s, Fill(t, op, data)), actions, end) && Start(t) !in actions
    ensures Enabled(end, Start(t)) && end.op == op && !end.errorMarker
    ensures op.WriteOp? && |data| == 1 ==> end.hd0 == data[0]
    ensures op.WriteOp? && |data| == 2 ==> end.hd0 == data[1]
    ensures op.ReadOp? ==> end.buffer == data && end.length == |data|
  {
    StepInv(s, Fill(t, op, data));
    SetUpUntil(Do(s, Fill(t, op, data)), actions, end, t);
  }

  /** Steps left until the current transfer is over. */
  function Remaining(s: State): nat {
    var p := Owner(s);
    if !InFlight(p) then 0
    else
      (match p case Started => 5 case Checking => 4 case Asleep => 3 case Woken => 2 case _ => 1)
      + if s.hs.busy then 10
        else match s.handler
             case Off => if s.hs == QUIET then 0 else 9
             case Clear => 8 case Decide => 7 case Read0 => 6 case Read1 => 5
             case Lock => 4 case Set => 3 case Wake => 2 case Unlock => 1
  }

  /** The filter run for another device: it only looks. */
  predicate Spurious(s: State, a: Action) {
    a.Filter? && (s.hs.busy || !(s.hs.intr || s.hs.err))
  }

  lemma HandlerProgress(s: State)
    requires Inv(s) && Enabled(s, Handle) && InFlight(Owner(s))
    ensures Remaining(HandlerStep(s)) < Remaining(s) && InFlight(Owner(HandlerStep(s)))
  {
  }

  lemma WaiterProgress(s: State, a: Action)
    requires Inv(s) && Enabled(s, a) && InFlight(Owner(s))
    requires a.LockHolder? || a.Check? || a.Retake? || a.ClearEvent?
    ensures Remaining(Do(s, a)) < Remaining(s)
    ensures InFlight(Owner(Do(s, a))) || Owner(Do(s, a)).Finishing?
  {
  }

  /** While a transfer is in flight every step but a spurious one brings its end closer... */
  lemma StepProgress(s: State, a: Action)
    requires Inv(s) && Enabled(s, a) && InFlight(Owner(s))
    ensures if Spurious(s, a) then Remaining(Do(s, a)) == Remaining(s) && Owner(Do(s, a)) == Owner(s)
            else Remaining(Do(s, a)) < Remaining(s)
    ensures InFlight(Owner(Do(s, a))) || Owner(Do(s, a)).Finishing?
  {
    if a.Handle? {
      HandlerProgress(s);
    } else if a.LockHolder? || a.Check? || a.Retake? || a.ClearEvent? {
      WaiterProgress(s, a);
    }
  }

  /** The step that is due. */
  function Due(s: State): Action {
    var p := Owner(s);
    var t := if s.busLock.Some? then s.busLock.value else 0;
    if p.Checking? then Check(t)
    else if p.Rechecking? then ClearEvent(t)
    else if s.hs.busy then Complete(Answer(true, false, 0, 0))
    else if !s.handler.Off? then Handle
    else if s.hs != QUIET then Filter
    else if p.Started? then LockHolder(t)
    else Retake(t)
  }

  /** ...and one such step can always be taken: the waiter cannot sleep through its wakeup. */
  lemma NoLostWakeup(s: State)
    requires Inv(s) && InFlight(Owner(s))
    ensures Enabled(s, Due(s)) && !Spurious(s, Due(s))
  {
  }

  function Spuriousness(s: State, actions: seq<Action>): nat
    decreases |actions|
  {
    if actions == [] || !Enabled(s, actions[0]) then 0
    else (if Spurious(s, actions[0]) then 1 else 0) + Spuriousness(Do(s, actions[0]), actions[1..])
  }

  /** A transfer stays in flight along the whole run. */
  predicate StaysInFlight(s: State, actions: seq<Action>)
    decreases |actions|
  {
    InFlight(Owner(s)) && (actions == [] || (Enabled(s, actions[0]) && StaysInFlight(Do(s, actions[0]), actions[1..])))
  }

  /** Whatever the scheduler does, a started transfer ends within 15 steps that are not spurious. */
  lemma {:induction false} TransferEnds(s: State, actions: seq<Action>)
    requires Inv(s) && StaysInFlight(s, actions)
    ensures |actions| - Spuriousness(s, actions) <= Remaining(s) <= 15
    decreases |actions|
  {
    if actions != [] {
      assert Admitted(s, actions[0]);
      StepInv(s, actions[0]);
      StepProgress(s, actions[0]);
      TransferEnds(Do(s, actions[0]), actions[1..]);
    }
  }
}
