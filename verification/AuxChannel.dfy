/**
 * The DisplayPort AUX channel of GeForceSensors/nouveau_i2c_aux.cpp: I2C
 * messages cut into transactions of at most sixteen bytes, each of them a
 * handshake over volatile registers. What the hardware answers is arbitrary,
 * except that the command and size fields of the control register read back
 * as they were written.
 */
module AuxChannel {
  import opened AuxRegisters
  import opened Bytes

  /** A transaction that the sink completed. */
  datatype Chunk = Chunk(cmd: bv32, addr: nat, data: seq<Byte>)

  datatype Msg = Msg(addr: nat, read: bool, len: nat, buf: array<Byte>) {
    predicate Valid() {
      len < 0x10000 && len <= buf.Length
    }

    /** The chunk loop counts in eight bits. */
    function Moved(): (n: nat)
      requires Valid()
      ensures n <= buf.Length
    {
      len % 256
    }
  }

  class Aux {
    const ch: nat

    /** The control word last written, the address, and the data going out and coming in. */
    var control: bv32
    var address: nat
    var outgoing: seq<nat>
    var incoming: seq<nat>

    /** Every register access so far, the requests among them, and what the sink completed. */
    ghost var trace: seq<Access>
    ghost var requests: nat
    ghost var done: seq<Chunk>

    ghost predicate Valid()
      reads this
    {
      |outgoing| == 4 && |incoming| == 4
    }

    function ControlReg(): nat {
      0xe4e4 + ch * 0x50
    }

    function StatusReg(): nat {
      0xe4e8 + ch * 0x50
    }

    /** The last register access took the request bits of this channel away. */
    ghost predicate Released()
      reads this
    {
      |trace| > 0
      && var last := trace[|trace| - 1];
         last.Write? && last.reg == 0xe4e4 + ch * 0x50 && last.word & 0x00310000 == 0
    }

    method ReadControl() returns (word: bv32)
      modifies this`trace
      ensures SameFields(word, control) && trace == old(trace) + [Read(0xe4e4 + ch * 0x50, word)]
    {
      var junk: bv32 := *;
      word := (junk & !FIELDS) | (control & FIELDS);
      ReadBackBits(junk, control);
      trace := trace + [Read(ControlReg(), word)];
    }

    method WriteControl(word: bv32)
      modifies this`control, this`trace
      ensures control == word && trace == old(trace) + [Write(0xe4e4 + ch * 0x50, word)]
    {
      control := word;
      trace := trace + [Write(ControlReg(), word)];
    }

    /** nv_mask */
    method MaskControl(mask: bv32, value: bv32) returns (ghost run: seq<Access>)
      modifies this`control, this`trace
      ensures trace == old(trace) + run && Masks(run, ch, mask, value) && run[1].word == control
    {
      var word := ReadControl();
      run := [Read(ControlReg(), word)];
      word := (word & !mask) | value;
      WriteControl(word);
      run := run + [Write(ControlReg(), word)];
    }

    /** auxch_fini */
    method Fini() returns (ghost run: seq<Access>)
      modifies this`control, this`trace
      ensures trace == old(trace) + run && Masks(run, ch, 0x00310000, 0) && Released()
    {
      run := MaskControl(REQUESTS, 0);
      MaskedBits(run[0].word, REQUESTS, 0);
    }

    /** Reads the control register until a field has a value, at most 1001 times. */
    method Poll(mask: bv32, value: bv32) returns (ok: bool, word: bv32, ghost run: seq<Access>)
      modifies this`trace
      ensures trace == old(trace) + run && Polls(run, ch, mask, value) && ok == InTime(run)
      ensures SameFields(word, control) && word == LastWord(run)
    {
      hide Polls, Polling, LastWord;
      var timeout := 1000;
      run := [];
      NoPolls(ch, mask, value);
      while true
        invariant 0 <= timeout && |run| + timeout == 1000 && trace == old(trace) + run
        invariant Polling(run, ch, mask, value)
        decreases timeout
      {
        word := ReadControl();
        PollingStep(run, ch, mask, value, word);
        run := run + [Read(0xe4e4 + ch * 0x50, word)];
        if timeout == 0 {
          return false, word, run;
        }
        timeout := timeout - 1;
        if word & mask == value {
          return true, word, run;
        }
      }
    }

    /** auxch_init */
    method Init() returns (ret: int, ghost o: Opening)
      modifies this`control, this`trace
      ensures ret == 0 || ret == -EBUSY
      ensures trace == old(trace) + o.All() && Opens(o, ch, ret == 0)
    {
      hide Polls, Masks;
      o := NOTHING.opening;
      var idle, granted, word;
      ghost var run;
      idle, word, run := Poll(0x03010000, 0);
      o := o.(idle := run);
      if !idle {
        return -EBUSY, o;
      }
      run := MaskControl(0x00300000, 0x00100000);
      o := o.(request := run);
      granted, word, run := Poll(0x03000000, 0x01000000);
      o := o.(grant := run);
      if !granted {
        run := Fini();
        o := o.(withdrawal := run);
        return -EBUSY, o;
      }
      ret := 0;
    }

    /** The transaction that the registers now describe. */
    ghost function Described(): seq<Chunk>
      requires Valid()
      reads this
    {
      var cmd, size := Command(control), Size(control);
      if size > 16 then [] else [Chunk(cmd, address, Unpacked(if cmd & 1 == 0 then outgoing else incoming)[..size])]
    }

    lemma DescribedIs(cmd: bv32, size: nat)
      requires Valid() && cmd < 16 && 1 <= size <= 16 && Carries(control, cmd, size)
      ensures Described() == [Chunk(cmd, address, Unpacked(if cmd & 1 == 0 then outgoing else incoming)[..size])]
    {
      FieldsReadBack(cmd, size, control);
    }

    /** The sink takes the transaction or not; the status word shows an error exactly if it did not. */
    method Sink() returns (status: bv32, ghost taken: bool)
      requires Valid()
      modifies this`incoming, this`done
      ensures Valid() && done == (if taken then old(done) + Described() else old(done))
      ensures taken <==> forall k: bv32 :: (8 <= k <= 11 || 16 <= k <= 19) ==> !Raised(status, k)
    {
      status := *;
      taken := status & 0x000f0f00 == 0;
      ErrorBits(status);
      var w0: nat, w1: nat, w2: nat, w3: nat := *, *, *, *;
      incoming := [w0, w1, w2, w3];
      if taken {
        done := done + Described();
      }
    }

    /** The status is read and written back unchanged. */
    method Outcome() returns (ok: bool, ghost run: seq<Access>)
      requires Valid()
      modifies this`incoming, this`trace, this`done
      ensures Valid() && done == old(done) + if ok then Described() else []
      ensures trace == old(trace) + run && |run| == 2 && ReadsWord(run[0], 0xe4e8 + ch * 0x50)
      ensures run[1] == Write(0xe4e8 + ch * 0x50, run[0].word) && ok == (run[0].word & 0x000f0f00 == 0)
    {
      var status;
      ghost var taken;
      status, taken := Sink();
      ErrorBits(status);
      run := [Read(StatusReg(), status), Write(StatusReg(), status)];
      trace := trace + run;
      ok := status & 0x000f0f00 == 0;
    }

    /** Reset, then request. */
    method Request(ctrl: bv32)
      modifies this`control, this`trace, this`requests
      ensures SameFields(control, ctrl) && requests == old(requests) + 1
      ensures trace == old(trace) + Requested(ch, ctrl)
    {
      FlagsLeaveFields(ctrl);
      WriteControl(0x8000_0000 | ctrl);
      WriteControl(ctrl);
      WriteControl(0x0001_0000 | ctrl);
      requests := requests + 1;
    }

    /** One try: request, wait, and look at the status. */
    method Try(ctrl: bv32) returns (timedOut: bool, ok: bool, word: bv32, ghost t: Attempt)
      requires Valid()
      modifies this`control, this`incoming, this`trace, this`requests, this`done
      ensures Valid() && requests == old(requests) + 1
      ensures SameFields(word, control) && SameFields(control, ctrl) && word == LastWord(t.wait)
      ensures done == old(done) + if ok then Described() else []
      ensures trace == old(trace) + t.All(ch) && t.Valid(ch) && t.ctrl == ctrl
      ensures timedOut == !InTime(t.wait) && ok == t.Taken()
    {
      hide Polls, Attempt.All, Attempt.Valid, Attempt.Taken, LastWord, Requested;
      Request(ctrl);
      var finished;
      ghost var wait, status := [], [];
      finished, word, wait := Poll(0x0001_0000, 0);
      ok, timedOut := false, !finished;
      if finished {
        ok, status := Outcome();
      }
      t := Attempt(ctrl, wait, status);
      AttemptEnds(t, ch);
      AttemptIs(old(trace), t, ch);
    }

    /** One round of the retry loop. */
    method RetryRound(cmd: bv32, size: nat, ctrl: bv32, ghost start: bv32, ghost ts: seq<Attempt>, ghost before: seq<Access>)
      returns (timedOut: bool, ok: bool, word: bv32, ghost more: seq<Attempt>)
      requires Valid() && cmd < 16 && 1 <= size <= 16 && Carries(ctrl, cmd, size) && |ts| < 32
      requires trace == before + AllAttempts(ts, ch) && Failed(ts, ch, start) && ctrl == StartWord(ts, start, |ts|)
      modifies this`control, this`incoming, this`trace, this`requests, this`done
      ensures Valid() && requests == old(requests) + 1 && |more| == |ts| + 1 && !(timedOut && ok)
      ensures done == old(done) + if !ok then [] else
                [Chunk(cmd, address, Unpacked(if cmd & 1 == 0 then outgoing else incoming)[..size])]
      ensures trace == before + AllAttempts(more, ch) && word == StartWord(more, start, |more|)
      ensures Carries(word, cmd, size)
      ensures !ok && !timedOut ==> Failed(more, ch, start)
      ensures ok || timedOut || |more| == 32 ==> Retried(more, ch, start, ok, timedOut)
    {
      hide Attempt.All, Attempt.Valid, Attempt.Taken, Failed, Retried, AllAttempts, StartWord, LastWord, InTime;
      hide Unpacked, Carries, SameFields, Aux.Described;
      ghost var t;
      timedOut, ok, word, t := Try(ctrl);
      CarriesToo(ctrl, control, cmd, size);
      CarriesToo(control, word, cmd, size);
      DescribedIs(cmd, size);
      FailedStep(ts, ch, start, t);
      more := ts + [t];
      if timedOut {
        TimedOutFails(t, ch);
      }
    }

    /** The retry loop of auxch_tx. */
    method Retry(cmd: bv32, size: nat, start: bv32) returns (ret: int, timedOut: bool, ghost ts: seq<Attempt>)
      requires Valid() && cmd < 16 && 1 <= size <= 16 && Carries(start, cmd, size)
      modifies this`control, this`incoming, this`trace, this`requests, this`done
      ensures Valid() && (ret == 0 || ret == -EREMOTEIO) && (timedOut ==> ret < 0) && requests <= old(requests) + 32
      ensures ret < 0 ==> done == old(done)
      ensures ret == 0 ==>
                done == old(done) + [Chunk(cmd, address, Unpacked(if cmd & 1 == 0 then outgoing else incoming)[..size])]
      ensures trace == old(trace) + AllAttempts(ts, ch) && Retried(ts, ch, start, ret == 0, timedOut)
    {
      hide Failed, Retried, AllAttempts, StartWord, Unpacked, Carries;
      var ctrl := start;
      var retries := 0;
      ts, timedOut := [], false;
      ret := -EREMOTEIO;
      NoAttempts(ch, start);
      while retries < RETRIES
        invariant 0 <= retries == |ts| <= RETRIES && Valid() && ret == -EREMOTEIO && !timedOut
        invariant Carries(ctrl, cmd, size) && done == old(done) && requests == old(requests) + retries
        invariant trace == old(trace) + AllAttempts(ts, ch) && Failed(ts, ch, start) && ctrl == StartWord(ts, start, retries)
        invariant retries == RETRIES ==> Retried(ts, ch, start, false, false)
      {
        var ok;
        timedOut, ok, ctrl, ts := RetryRound(cmd, size, ctrl, start, ts, old(trace));
        if timedOut {
          return;
        }
        if ok {
          ret := 0;
          break;
        }
        retries := retries + 1;
      }
    }

    /** The data to send goes into four registers. */
    method Send(data: seq<Byte>) returns (ghost run: seq<Access>)
      requires |data| <= 16
      modifies this`outgoing, this`trace
      ensures |outgoing| == 4 && Unpacked(outgoing)[..|data|] == data
      ensures trace == old(trace) + run && |run| == 4 && Stores(run, 0xe4c0 + ch * 0x50, outgoing)
    {
      PackedIsUnpacked(data);
      outgoing := Words(data);
      var reg := 0xe4c0 + ch * 0x50;
      run := [Store(reg, outgoing[0]), Store(reg + 4, outgoing[1]), Store(reg + 8, outgoing[2]), Store(reg + 12, outgoing[3])];
      trace := trace + run;
    }

    /** The command, the address and the data to send go into their registers. */
    method Prepare(cmd: bv32, addr: nat, data: seq<Byte>)
      returns (ctrl: bv32, ghost sending: seq<Access>, ghost addressing: seq<Access>)
      requires Valid() && cmd < 16 && 1 <= |data| <= 16
      modifies this`address, this`outgoing, this`trace
      ensures Valid() && Carries(ctrl, cmd, |data|) && address == addr
      ensures cmd & 1 == 0 ==> Unpacked(outgoing)[..|data|] == data
      ensures trace == old(trace) + sending + addressing
      ensures Sends(sending, ch, cmd, data) && Addresses(addressing, ch, cmd, addr, |data|, ctrl)
    {
      hide Unpacked, Starts;
      sending := [];
      if cmd & 1 == 0 {
        sending := Send(data);
        assert outgoing == [NumberOf(sending[0]), NumberOf(sending[1]), NumberOf(sending[2]), NumberOf(sending[3])];
      }
      OddOrEven(cmd);
      var word := ReadControl();
      ctrl := ControlWord(word, cmd, |data|);
      ControlWordStarts(word, cmd, |data|);
      address := addr;
      trace := trace + [Store(0xe4e0 + ch * 0x50, addr)];
      addressing := [Read(0xe4e4 + ch * 0x50, word), Store(0xe4e0 + ch * 0x50, addr)];
    }

    /** Whether there is a sink. */
    method Detect() returns (detected: bool, ghost run: seq<Access>)
      modifies this`trace
      ensures trace == old(trace) + run && |run| == 1 && ReadsWord(run[0], 0xe4e8 + ch * 0x50)
      ensures detected == (run[0].word & 0x1000_0000 != 0)
    {
      var status: bv32 := *;
      run := [Read(StatusReg(), status)];
      trace := trace + run;
      detected := status & 0x1000_0000 != 0;
    }

    /** The data that came in. */
    method Fetch() returns (data: seq<Byte>, ghost run: seq<Access>)
      requires Valid()
      modifies this`trace
      ensures data == Unpacked(incoming) && trace == old(trace) + run
      ensures Loads(run, 0xe4d0 + ch * 0x50, incoming) && LoadsFrom(run, 0xe4d0 + ch * 0x50)
    {
      var reg := 0xe4d0 + ch * 0x50;
      data := Unpacked(incoming);
      run := [Load(reg, incoming[0]), Load(reg + 4, incoming[1]), Load(reg + 8, incoming[2]), Load(reg + 12, incoming[3])];
      trace := trace + run;
    }

    /** The part of auxch_tx that needs a sink. */
    method Exchange(cmd: bv32, addr: nat, buf: array<Byte>, at: nat, size: nat)
      returns (ret: int, ghost sending: seq<Access>, ghost addressing: seq<Access>, ghost ts: seq<Attempt>,
               ghost loads: seq<Access>, ghost start: bv32, ghost timedOut: bool)
      requires Valid() && cmd < 16 && 1 <= size <= 16 && at + size <= buf.Length
      modifies this, buf
      ensures Valid() && (ret == 0 || ret == -EREMOTEIO) && requests <= old(requests) + 32
      ensures Overwritten(buf, at, size) && (cmd & 1 == 0 ==> buf[..] == old(buf[..]))
      ensures done == old(done) + if ret < 0 then [] else [Chunk(cmd, addr, buf[at..at + size])]
      ensures trace == old(trace) + sending + addressing + AllAttempts(ts, ch) + loads
      ensures Sends(sending, ch, cmd, old(buf[at..at + size])) && Addresses(addressing, ch, cmd, addr, size, start)
      ensures Retried(ts, ch, start, ret == 0, timedOut)
      ensures if cmd & 1 == 0 || timedOut then loads == [] else LoadsFrom(loads, 0xe4d0 + ch * 0x50)
    {
      hide Sends, Addresses, Retried, AllAttempts, Loads, LoadsFrom, Carries, Unpacked;
      loads := [];
      var ctrl;
      ctrl, sending, addressing := Prepare(cmd, addr, buf[at..at + size]);
      start := ctrl;
      var late;
      ret, late, ts := Retry(cmd, size, ctrl);
      timedOut := late;
      OddOrEven(cmd);
      if !late && cmd & 1 == 1 {
        var data;
        data, loads := Fetch();
        CopyTo(buf, at, data[..size]);
      }
    }

    /** auxch_tx between its beginning and its cleanup. */
    method Transact(cmd: bv32, addr: nat, buf: array<Byte>, at: nat, size: nat)
      returns (ret: int, ghost x: Transaction, ghost start: bv32, ghost timedOut: bool)
      requires Valid() && cmd < 16 && 1 <= size <= 16 && at + size <= buf.Length
      modifies this, buf
      ensures Valid() && ret <= 0 && requests <= old(requests) + 32
      ensures Overwritten(buf, at, size) && (cmd & 1 == 0 ==> buf[..] == old(buf[..]))
      ensures done == old(done) + if ret < 0 then [] else [Chunk(cmd, addr, buf[at..at + size])]
      ensures trace == old(trace) + x.Before(ch)
      ensures Transacts(x, ch, cmd, addr, old(buf[at..at + size]), start, ret, timedOut)
    {
      hide Opens, Opening.All, Retried, AllAttempts, Sends, Addresses, LoadsFrom, Transaction.Before;
      x, start, timedOut := NOTHING, 0, false;
      ghost var o, detection, sending, addressing, ts, loads;
      ret, o := Init();
      x := x.(opening := o);
      BeforeIs(old(trace), x, ch);
      NoAttempts(ch, start);
      if ret != 0 {
        return;
      }
      var detected;
      detected, detection := Detect();
      x := x.(detection := detection);
      BeforeIs(old(trace), x, ch);
      if !detected {
        return -ENXIO, x, start, timedOut;
      }
      ret, sending, addressing, ts, loads, start, timedOut := Exchange(cmd, addr, buf, at, size);
      x := x.(sending := sending, addressing := addressing, attempts := ts, loads := loads);
      BeforeIs(old(trace), x, ch);
    }

    /** auxch_tx: whatever happened, the request bits are gone. */
    method Tx(cmd: bv32, addr: nat, buf: array<Byte>, at: nat, size: nat)
      returns (ret: int, ghost x: Transaction, ghost start: bv32, ghost timedOut: bool)
      requires Valid() && cmd < 16 && 1 <= size <= 16 && at + size <= buf.Length
      modifies this, buf
      ensures Valid() && Released() && ret <= 0 && requests <= old(requests) + 32
      ensures Overwritten(buf, at, size) && (cmd & 1 == 0 ==> buf[..] == old(buf[..]))
      ensures done == old(done) + if ret < 0 then [] else [Chunk(cmd, addr, buf[at..at + size])]
      ensures trace == old(trace) + x.All(ch) && Masks(x.closing, ch, 0x00310000, 0)
      ensures Transacts(x, ch, cmd, addr, old(buf[at..at + size]), start, ret, timedOut)
    {
      hide Opens, Retried, Sends, Addresses, Transaction.Before;
      ret, x, start, timedOut := Transact(cmd, addr, buf, at, size);
      ghost var run := Fini();
      SameBefore(x, run, ch);
      x := x.(closing := run);
    }

    /** One round of the chunk loop. */
    method Round(m: Msg, more: bool, at: nat, ghost run: seq<Chunk>) returns (ret: int, count: nat, ghost chunks: seq<Chunk>)
      requires Valid() && m.Valid() && at < m.Moved() && ChunkedTo(m, m.buf[..], more, run, at)
      modifies this, m.buf
      ensures Valid() && Released() && ret <= 0 && 1 <= count <= m.Moved() - at
      ensures Overwritten(m.buf, at, count) && (!m.read ==> m.buf[..] == old(m.buf[..]))
      ensures done == old(done) + chunks && (ret == 0 ==> ChunkedTo(m, m.buf[..], more, run + chunks, at + count))
    {
      var remaining := m.Moved() - at;
      ghost var was := m.buf[..];
      count := if remaining > 16 then 16 else remaining;
      var cmd := CommandOf(m.read, more || remaining > 16);
      ghost var x, start, timedOut;
      ret, x, start, timedOut := Tx(cmd, m.addr, m.buf, at, count);
      chunks := if ret < 0 then [] else [Chunk(cmd, m.addr, m.buf[at..at + count])];
      if ret == 0 {
        assert Piece(m.buf[..], m.Moved(), |run|) == m.buf[at..at + count];
        ChunkStep(m, was, m.buf[..], more, run, at, chunks[0]);
      }
    }

    /** The chunk loop of aux_xfer; `more` says that other messages follow. */
    method Message(m: Msg, more: bool) returns (ret: int, ghost run: seq<Chunk>)
      requires Valid() && m.Valid()
      modifies this, m.buf
      ensures Valid() && ret <= 0 && (old(Released()) || |run| > 0 || ret < 0 ==> Released())
      ensures done == old(done) + run
      ensures Overwritten(m.buf, 0, m.Moved()) && (!m.read ==> m.buf[..] == old(m.buf[..]))
      ensures ret == 0 ==> Chunked(m, m.buf[..m.Moved()], more, run)
    {
      var remaining, at := m.Moved(), 0;
      ret, run := 0, [];
      while remaining > 0
        invariant 0 <= remaining && at + remaining == m.Moved() && ret == 0 && Valid()
        invariant done == old(done) + run && (old(Released()) || |run| > 0 ==> Released())
        invariant Overwritten(m.buf, 0, at) && (!m.read ==> m.buf[..] == old(m.buf[..]))
        invariant ChunkedTo(m, m.buf[..], more, run, at)
      {
        var count;
        ghost var chunks;
        ret, count, chunks := Round(m, more, at, run);
        run := run + chunks;
        if ret < 0 {
          return;
        }
        at := at + count;
        remaining := remaining - count;
      }
      AllChunked(m, m.buf[..], more, run);
    }

    /** One turn of the message loop touches no other buffer. */
    method Turn(ms: seq<Msg>, k: nat) returns (ret: int, ghost run: seq<Chunk>)
      requires Valid() && k < |ms| && forall i :: 0 <= i < |ms| ==> ms[i].Valid()
      requires forall i, j :: 0 <= i < j < |ms| ==> ms[i].buf != ms[j].buf
      modifies this, ms[k].buf
      ensures Valid() && ret <= 0 && (old(Released()) || |run| > 0 || ret < 0 ==> Released())
      ensures done == old(done) + run
      ensures ret == 0 ==> Carried(ms[k], old(ms[k].buf[..]), k < |ms| - 1, run)
      ensures forall i :: 0 <= i < |ms| && i != k ==> ms[i].buf[..] == old(ms[i].buf[..])
    {
      ret, run := Message(ms[k], k < |ms| - 1);
    }

    /** The message loop of aux_xfer. */
    method Messages(ms: seq<Msg>) returns (ret: int, ghost runs: seq<seq<Chunk>>)
      requires Valid() && forall i :: 0 <= i < |ms| ==> ms[i].Valid()
      requires forall i, j :: 0 <= i < j < |ms| ==> ms[i].buf != ms[j].buf
      modifies this, set m | m in ms :: m.buf
      ensures Valid() && (ret == |ms| || ret < 0)
      ensures done == Flat(old(done), runs) && |done| >= |old(done)|
      ensures old(Released()) || |done| > |old(done)| || ret < 0 ==> Released()
      ensures ret == |ms| ==> |runs| == |ms| && AllCarried(ms, runs, |ms|)
    {
      var mcnt, k := |ms|, 0;
      runs := [];
      while mcnt > 0
        invariant 0 <= mcnt && mcnt + k == |ms| && |runs| == k && Valid()
        invariant done == Flat(old(done), runs) && |done| >= |old(done)|
        invariant old(Released()) || |done| > |old(done)| ==> Released()
        invariant forall i :: k <= i < |ms| ==> ms[i].buf[..] == old(ms[i].buf[..])
        invariant AllCarried(ms, runs, k)
      {
        mcnt := mcnt - 1;
        ghost var run;
        ret, run := Turn(ms, k);
        assert (runs + [run])[..k] == runs;
        runs := runs + [run];
        if ret < 0 {
          return;
        }
        k := k + 1;
      }
      ret := |ms|;
    }

    /**
     * aux_xfer: the number of messages only when the sink completed every
     * transaction of every one of them, in order and no others, a negative
     * code otherwise. The chunks of each message join to its bytes, and MOT is
     * clear on the final transaction alone, unless the last message is empty.
     */
    method Xfer(ms: seq<Msg>) returns (ret: int, ghost runs: seq<seq<Chunk>>)
      requires Valid() && forall i :: 0 <= i < |ms| ==> ms[i].Valid()
      requires forall i, j :: 0 <= i < j < |ms| ==> ms[i].buf != ms[j].buf
      modifies this, set m | m in ms :: m.buf
      ensures Valid() && (ret == |ms| || ret < 0)
      ensures done == old(done) + Flat([], runs)
      ensures old(Released()) || |done| > |old(done)| || ret < 0 ==> Released()
      ensures ret == |ms| ==>
                && |runs| == |ms| && AllCarried(ms, runs, |ms|)
                && (forall i :: 0 <= i < |ms| ==> Joined(runs[i]) == ms[i].buf[..ms[i].len % 256])
                && ClosedAtEnd(Flat([], runs), ms)
    {
      ghost var before := done;
      ret, runs := Messages(ms);
      FlatFrom(before, runs);
      if ret == |ms| {
        ghost var datas := seq(|ms|, i requires 0 <= i < |ms| reads set m | m in ms :: m.buf => ms[i].buf[..ms[i].Moved()]);
        forall i | 0 <= i < |ms|
          ensures Joined(runs[i]) == ms[i].buf[..ms[i].Moved()] && Chunked(ms[i], datas[i], i < |ms| - 1, runs[i])
        {
          assert Carried(ms[i], old(ms[i].buf[..]), i < |ms| - 1, runs[i]);
          ChunksJoin(ms[i], datas[i], i < |ms| - 1, runs[i]);
        }
        ClosedByFinalChunk(ms, datas, runs);
      }
    }
  }

  /** These transactions carry the message, and nothing else of its buffer changed. */
  ghost predicate Carried(m: Msg, was: seq<Byte>, more: bool, run: seq<Chunk>)
    requires m.Valid()
    reads m.buf
  {
    && Chunked(m, m.buf[..m.Moved()], more, run)
    && |was| == m.buf.Length && m.buf[m.Moved()..] == was[m.Moved()..]
    && (!m.read ==> m.buf[..] == was)
  }

  /** The transactions of the first n messages carry them, and nothing else of their buffers changed. */
  twostate predicate AllCarried(ms: seq<Msg>, runs: seq<seq<Chunk>>, n: nat)
    requires forall i :: 0 <= i < |ms| ==> ms[i].Valid()
    reads set m | m in ms :: m.buf
  {
    n <= |ms| && n <= |runs| && forall i {:trigger runs[i]} :: 0 <= i < n ==>
      Carried(ms[i], old(ms[i].buf[..]), i < |ms| - 1, runs[i])
  }

  function Flat(before: seq<Chunk>, runs: seq<seq<Chunk>>): seq<Chunk> {
    if runs == [] then before else Flat(before, runs[..|runs| - 1]) + runs[|runs| - 1]
  }

  lemma {:induction false} FlatFrom(before: seq<Chunk>, runs: seq<seq<Chunk>>)
    ensures Flat(before, runs) == before + Flat([], runs)
  {
    if runs != [] {
      FlatFrom(before, runs[..|runs| - 1]);
    }
  }

  /** The last part of memcpy. */
  method CopyTo(buf: array<Byte>, at: nat, data: seq<Byte>)
    requires at + |data| <= buf.Length
    modifies buf
    ensures Overwritten(buf, at, |data|) && buf[at..at + |data|] == data
  {
    var i := 0;
    while i < |data|
      invariant 0 <= i <= |data| && Overwritten(buf, at, |data|)
      invariant buf[at..at + i] == data[..i]
    {
      buf[at + i] := data[i];
      i := i + 1;
    }
    assert data[..|data|] == data;
  }

  function CommandOf(read: bool, mot: bool): (cmd: bv32)
    ensures cmd < 16 && (cmd & 1 == 1 <==> read) && (cmd & 4 == 4 <==> mot) && cmd & 0xa == 0
  {
    (if read then 1 else 0) | if mot then MOT else 0
  }

  /** The part of the data that chunk j carries. */
  function Piece(data: seq<Byte>, total: nat, j: nat): seq<Byte>
    requires 16 * j < total <= |data|
  {
    data[16 * j..if 16 * j + 16 < total then 16 * j + 16 else total]
  }

  /** Chunk j of a message. */
  predicate IsPiece(c: Chunk, m: Msg, data: seq<Byte>, total: nat, j: nat, mot: bool)
    requires 16 * j < total <= |data|
  {
    c == Chunk(CommandOf(m.read, mot), m.addr, Piece(data, total, j))
  }

  /** These chunks carry the first `at` bytes of a message. */
  predicate ChunkedTo(m: Msg, data: seq<Byte>, more: bool, run: seq<Chunk>, at: nat)
    requires m.Valid() && |data| == m.buf.Length
  {
    && 16 * |run| < m.Moved() + 16 && at == (if 16 * |run| < m.Moved() then 16 * |run| else m.Moved())
    && forall j :: 0 <= j < |run| ==> IsPiece(run[j], m, data, m.Moved(), j, more || 16 * j + 16 < m.Moved())
  }

  /** These chunks, and no fewer than needed, carry a whole message. */
  predicate Chunked(m: Msg, data: seq<Byte>, more: bool, run: seq<Chunk>)
    requires m.Valid() && |data| == m.Moved()
  {
    && 16 * |run| < |data| + 16 && |data| <= 16 * |run|
    && forall j :: 0 <= j < |run| ==> IsPiece(run[j], m, data, |data|, j, more || j < |run| - 1)
  }

  lemma PieceWithin(before: seq<Byte>, after: seq<Byte>, total: nat, j: nat)
    requires 16 * j < total && total <= |before| && total <= |after|
    requires forall i :: 16 * j <= i < 16 * j + 16 && i < total ==> before[i] == after[i]
    ensures Piece(before, total, j) == Piece(after, total, j)
  {
  }

  lemma ChunkStep(m: Msg, before: seq<Byte>, after: seq<Byte>, more: bool, run: seq<Chunk>, at: nat, chunk: Chunk)
    requires m.Valid() && |before| == |after| == m.buf.Length && at < m.Moved()
    requires ChunkedTo(m, before, more, run, at)
    requires forall i :: 0 <= i < at ==> before[i] == after[i]
    requires IsPiece(chunk, m, after, m.Moved(), |run|, more || at + 16 < m.Moved())
    ensures ChunkedTo(m, after, more, run + [chunk], at + |chunk.data|)
  {
    var all, total := run + [chunk], m.Moved();
    forall j | 0 <= j < |all|
      ensures IsPiece(all[j], m, after, total, j, more || 16 * j + 16 < total)
    {
      if j < |run| {
        PieceWithin(before, after, total, j);
        assert IsPiece(run[j], m, before, total, j, more || 16 * j + 16 < total);
      }
    }
  }

  lemma AllChunked(m: Msg, data: seq<Byte>, more: bool, run: seq<Chunk>)
    requires m.Valid() && |data| == m.buf.Length && ChunkedTo(m, data, more, run, m.Moved())
    ensures Chunked(m, data[..m.Moved()], more, run)
  {
    var total := m.Moved();
    forall j | 0 <= j < |run|
      ensures IsPiece(run[j], m, data[..total], total, j, more || j < |run| - 1)
    {
      PieceWithin(data, data[..total], total, j);
      assert IsPiece(run[j], m, data, total, j, more || 16 * j + 16 < total);
    }
  }

  /** Nothing but this part of the buffer changed. */
  twostate predicate Overwritten(buf: array<Byte>, at: nat, size: nat)
    reads buf
  {
    at + size <= buf.Length && forall i :: 0 <= i < buf.Length && !(at <= i < at + size) ==> buf[i] == old(buf[i])
  }

  function Joined(run: seq<Chunk>): seq<Byte> {
    if run == [] then [] else Joined(run[..|run| - 1]) + run[|run| - 1].data
  }

  /** The chunks of a message are one to sixteen bytes long and put together give its bytes in order. */
  lemma ChunksJoin(m: Msg, data: seq<Byte>, more: bool, run: seq<Chunk>)
    requires m.Valid() && |data| == m.Moved() && Chunked(m, data, more, run)
    ensures Joined(run) == data
    ensures forall j :: 0 <= j < |run| ==> 1 <= |run[j].data| <= 16
  {
    JoinTo(m, data, more, run, |run|);
    assert run[..|run|] == run && data[..|data|] == data;
  }

  lemma {:induction false} JoinTo(m: Msg, data: seq<Byte>, more: bool, run: seq<Chunk>, k: nat)
    requires m.Valid() && |data| == m.Moved() && Chunked(m, data, more, run) && k <= |run|
    ensures Joined(run[..k]) == data[..if 16 * k < |data| then 16 * k else |data|]
    decreases k
  {
    if k > 0 {
      JoinTo(m, data, more, run, k - 1);
      assert run[..k][..k - 1] == run[..k - 1];
      assert IsPiece(run[k - 1], m, data, |data|, k - 1, more || k - 1 < |run| - 1);
    }
  }

  /** The eight-bit counter carries a whole message exactly when it is at most 255 bytes long. */
  lemma MovedWhole(m: Msg, content: seq<Byte>, more: bool, run: seq<Chunk>)
    requires m.Valid() && |content| == m.buf.Length && Chunked(m, content[..m.Moved()], more, run)
    ensures Joined(run) == content[..m.len] <==> m.len <= 255
  {
    ChunksJoin(m, content[..m.Moved()], more, run);
    assert |Joined(run)| == m.len % 256;
  }

  predicate MiddleOfTransaction(c: Chunk) {
    c.cmd & 4 == 4
  }

  /** Transactions of messages that others follow all have MOT set. */
  lemma {:induction false} OpenUntilLast(ms: seq<Msg>, datas: seq<seq<Byte>>, runs: seq<seq<Chunk>>, n: nat)
    requires n < |ms| == |runs| == |datas|
    requires forall i :: 0 <= i < |ms| ==>
               ms[i].Valid() && |datas[i]| == ms[i].Moved() && Chunked(ms[i], datas[i], i < |ms| - 1, runs[i])
    ensures forall j :: 0 <= j < |Flat([], runs[..n])| ==> MiddleOfTransaction(Flat([], runs[..n])[j])
    decreases n
  {
    if n > 0 {
      OpenUntilLast(ms, datas, runs, n - 1);
      assert runs[..n][..n - 1] == runs[..n - 1];
      var m, data, run := ms[n - 1], datas[n - 1], runs[n - 1];
      forall j | 0 <= j < |run|
        ensures MiddleOfTransaction(run[j])
      {
        assert IsPiece(run[j], m, data, |data|, j, true);
      }
    }
  }

  /** MOT is clear on the final transaction and on no other one; after an empty last message it is set on all. */
  predicate ClosedAtEnd(all: seq<Chunk>, ms: seq<Msg>)
    requires forall i :: 0 <= i < |ms| ==> ms[i].Valid()
  {
    forall j :: 0 <= j < |all| ==>
      (MiddleOfTransaction(all[j]) <==> j < |all| - 1 || (ms != [] && ms[|ms| - 1].Moved() == 0))
  }

  lemma ClosedByFinalChunk(ms: seq<Msg>, datas: seq<seq<Byte>>, runs: seq<seq<Chunk>>)
    requires |ms| == |runs| == |datas|
    requires forall i :: 0 <= i < |ms| ==>
               ms[i].Valid() && |datas[i]| == ms[i].Moved() && Chunked(ms[i], datas[i], i < |ms| - 1, runs[i])
    ensures ClosedAtEnd(Flat([], runs), ms)
  {
    if ms != [] {
      var n := |ms| - 1;
      OpenUntilLast(ms, datas, runs, n);
      assert Chunked(ms[n], datas[n], false, runs[n]);
      var front, last := Flat([], runs[..n]), runs[n];
      assert Flat([], runs) == front + last;
      forall j | 0 <= j < |last|
        ensures MiddleOfTransaction(last[j]) <==> j < |last| - 1
      {
        assert IsPiece(last[j], ms[n], datas[n], |datas[n]|, j, j < |last| - 1);
      }
    }
  }
}
