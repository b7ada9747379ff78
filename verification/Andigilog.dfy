/**
 * The sensor cache of SMBusSensors/Andigilog.cpp. A read of a used-up sensor
 * refreshes all of them; a fan value is encoded in the cache, in place, when
 * it is handed out.
 */
module Andigilog {
  import opened Bytes

  const NUM_SENSORS: nat := 8
  const ASC7621_TEMP_NA: nat := 0x80

  /** The unchanging part of a measurement; a sensor without a key is skipped. */
  datatype Sensor = Sensor(key: seq<Byte>, fan: int, fpe2: bool, size: nat) {
    predicate Valid() {
      |key| == 4 && size <= 8
    }

    predicate Present() {
      Valid() && key[0] != 0
    }

    predicate Encodes() {
      fan >= 0 && fpe2
    }
  }

  datatype Reading = Reading(value: nat, obsoleted: bool)

  /** What a sensor's two registers held, high one first; None when a transfer failed. */
  type Registers = Option<(Byte, Byte)>

  /** What a sensor yields, and what is handed out of the cache. */
  datatype Event = Sampled(sensor: nat, regs: Registers, raw: nat) | Returned(sensor: nat, data: seq<Byte>)

  /**
   * What a sample means: the whole degrees, which are the high register unless
   * there is no sensor, or 5400000 over the period of a fan, rounded down.
   */
  predicate Converted(s: Sensor, regs: Registers, raw: nat) {
    match regs
    case None => raw == 0
    case Some((high, low)) =>
      if s.fan < 0 then raw == if high == 0x80 then 0 else high
      else
        var period := high + 256 * low;
        if period == 0 || period == 65535 then raw == 0 else raw * period <= 5400000 < (raw + 1) * period
  }

  /** The quarter degrees in the two highest bits of the low register are lost. */
  lemma WholeDegrees(high: Byte, low: Byte)
    ensures (high * 256 + low) / 64 / 4 == high
  {
    assert (high * 256 + low) / 64 == 4 * high + low / 64;
  }

  lemma RoundedDown(n: nat, period: nat)
    requires period > 0
    ensures n / period * period <= n < (n / period + 1) * period
  {
  }

  function SwapValue(v: nat): (r: nat)
    requires v < 0x10000
    ensures r < 0x10000
  {
    v / 256 + 256 * (v % 256)
  }

  /** Sixteen bits wide, like the parameter of encode_fpe2. */
  function EncodeFpe2(v: nat): (r: nat)
    ensures r < 0x10000
  {
    SwapValue(v % 0x10000 * 4 % 0x10000)
  }

  function DecodeFpe2(v: nat): nat
    requires v < 0x10000
  {
    SwapValue(v) / 4
  }

  lemma SwapTwice(v: nat)
    requires v < 0x10000
    ensures SwapValue(SwapValue(v)) == v
  {
    assert v / 256 < 256;
    assert SwapValue(v) / 256 == v % 256;
    assert SwapValue(v) % 256 == v / 256;
  }

  /** Encoding loses nothing exactly below the 14 bits before the binary point. */
  lemma Fpe2RoundTrip(v: nat)
    ensures DecodeFpe2(EncodeFpe2(v)) == v <==> v < 0x4000
  {
    SwapTwice(v % 0x10000 * 4 % 0x10000);
  }

  /** The memory of a value, least significant byte first. */
  function LowBytes(v: nat, size: nat): (b: seq<Byte>)
    ensures |b| == size
    decreases size
  {
    if size == 0 then [] else [ByteOf(v)] + LowBytes(v / 256, size - 1)
  }

  /** What a read hands out of a sample. */
  function Handed(s: Sensor, raw: nat): seq<Byte> {
    LowBytes(if s.Encodes() then EncodeFpe2(raw) else raw, s.size)
  }

  /** A fan value arrives as a big-endian number of quarter turns, modulo the sixteen bits. */
  lemma HandedMeans(s: Sensor, raw: nat)
    requires s.Encodes() && s.size == 2
    ensures var d := Handed(s, raw); Word(d[0], d[1]) == 4 * raw % 0x10000
  {
    hide LowBytes, SwapValue;
    TwoLowBytes(EncodeFpe2(raw));
    Quarters(raw);
    SwappedBytes(raw % 0x10000 * 4 % 0x10000);
  }

  lemma WrapOnce(x: nat, k: nat)
    ensures (x + 0x10000 * k) % 0x10000 == x % 0x10000
  {
  }

  /** The number that bytes in memory hold, least significant first. */
  function Value(b: seq<Byte>): nat {
    if b == [] then 0 else b[0] + 256 * Value(b[1..])
  }

  lemma {:induction false} LowBytesHold(v: nat, size: nat)
    ensures Value(LowBytes(v, size)) == v % Pow2(8 * size)
    decreases size
  {
    if size > 0 {
      var p := Pow2(8 * (size - 1));
      LowBytesHold(v / 256, size - 1);
      Pow2Eight(8 * (size - 1));
      assert LowBytes(v, size)[1..] == LowBytes(v / 256, size - 1);
      LowDigit(v, p);
    }
  }

  lemma Pow2Eight(k: nat)
    ensures Pow2(k + 8) == 256 * Pow2(k)
  {
    assert Pow2(k + 2) == 4 * Pow2(k) && Pow2(k + 4) == 4 * Pow2(k + 2);
    assert Pow2(k + 6) == 4 * Pow2(k + 4) && Pow2(k + 8) == 4 * Pow2(k + 6);
  }

  lemma LowDigit(v: nat, p: nat)
    requires p > 0
    ensures v % (256 * p) == v % 256 + 256 * (v / 256 % p)
  {
    var q, r := v / 256 / p, v / 256 % p;
    assert v / 256 == p * q + r;
    assert v == 256 * p * q + (256 * r + v % 256);
    assert 256 * r + v % 256 < 256 * p;
    Remainder(v, 256 * p, q, 256 * r + v % 256);
  }

  lemma Remainder(v: nat, m: nat, q: nat, r: nat)
    requires v == m * q + r && r < m
    ensures v % m == r
  {
    var d := v / m - q;
    assert m * d == r - v % m;
  }

  /** Any other value arrives as it was sampled, in the machine's byte order, as far as the key's bytes hold it. */
  lemma HandedPlainly(s: Sensor, raw: nat)
    requires !s.Encodes()
    ensures |Handed(s, raw)| == s.size && Value(Handed(s, raw)) == raw % Pow2(8 * s.size)
  {
    LowBytesHold(raw, s.size);
  }

  lemma Quarters(raw: nat)
    ensures raw % 0x10000 * 4 % 0x10000 == 4 * raw % 0x10000
  {
    WrapOnce(raw % 0x10000 * 4, 4 * (raw / 0x10000));
    assert 4 * raw == raw % 0x10000 * 4 + 0x10000 * (4 * (raw / 0x10000));
  }

  lemma SwappedBytes(v: nat)
    requires v < 0x10000
    ensures SwapValue(v) % 256 == v / 256 && SwapValue(v) / 256 == v % 256
  {
    assert v / 256 < 256;
  }

  lemma TwoLowBytes(v: nat)
    requires v < 0x10000
    ensures LowBytes(v, 2) == [v % 256, v / 256]
  {
    assert LowBytes(v / 256, 1) == [ByteOf(v / 256)];
    assert LowBytes(v, 2) == [ByteOf(v)] + LowBytes(v / 256, 1);
  }

  /** The last event that concerns sensor i. */
  function Last(events: seq<Event>, i: nat): Option<Event> {
    if events == [] then None
    else if events[|events| - 1].sensor == i then Some(events[|events| - 1])
    else Last(events[..|events| - 1], i)
  }

  lemma LastSnoc(events: seq<Event>, e: Event, i: nat)
    ensures Last(events + [e], i) == if e.sensor == i then Some(e) else Last(events, i)
  {
    assert (events + [e])[..|events|] == events;
  }

  /** What was handed out comes from the sample next before it, and was encoded once. */
  predicate Honest(sensors: seq<Sensor>, events: seq<Event>) {
    events == []
    || (var front, e := events[..|events| - 1], events[|events| - 1];
        && Honest(sensors, front) && e.sensor < |sensors|
        && (e.Sampled? ==> Converted(sensors[e.sensor], e.regs, e.raw))
        && (e.Returned? ==>
              var last := Last(front, e.sensor);
              last.Some? && last.value.Sampled? && e.data == Handed(sensors[e.sensor], last.value.raw)))
  }

  lemma HonestSnoc(sensors: seq<Sensor>, events: seq<Event>, e: Event)
    requires Honest(sensors, events) && e.sensor < |sensors|
    requires e.Sampled? ==> Converted(sensors[e.sensor], e.regs, e.raw)
    requires e.Returned? ==>
               var last := Last(events, e.sensor);
               last.Some? && last.value.Sampled? && e.data == Handed(sensors[e.sensor], last.value.raw)
    ensures Honest(sensors, events + [e])
  {
    assert (events + [e])[..|events|] == events;
  }

  lemma {:induction false} HonestPrefix(sensors: seq<Sensor>, events: seq<Event>, n: nat)
    requires Honest(sensors, events) && n <= |events|
    ensures Honest(sensors, events[..n])
    decreases |events|
  {
    if n == |events| {
      assert events[..n] == events;
    } else {
      HonestPrefix(sensors, events[..|events| - 1], n);
      assert events[..|events| - 1][..n] == events[..n];
    }
  }

  /** Where the last event of a sensor stands, with none of its own behind. */
  lemma {:induction false} LastAt(events: seq<Event>, i: nat) returns (at: nat)
    requires Last(events, i).Some?
    ensures at < |events| && events[at] == Last(events, i).value && events[at].sensor == i
    ensures forall l :: at < l < |events| ==> events[l].sensor != i
    decreases |events|
  {
    if events[|events| - 1].sensor == i {
      at := |events| - 1;
    } else {
      at := LastAt(events[..|events| - 1], i);
    }
  }

  /** Each value handed out is one sample, encoded once, with nothing handed out in between. */
  lemma EncodedOnce(sensors: seq<Sensor>, events: seq<Event>, k: nat) returns (at: nat)
    requires Honest(sensors, events) && k < |events| && events[k].Returned?
    ensures at < k && events[at].Sampled? && events[at].sensor == events[k].sensor < |sensors|
    ensures events[k].data == Handed(sensors[events[k].sensor], events[at].raw)
    ensures Converted(sensors[events[k].sensor], events[at].regs, events[at].raw)
    ensures forall l :: at < l < k ==> events[l].sensor != events[k].sensor
  {
    HonestPrefix(sensors, events, k + 1);
    assert events[..k + 1][..k] == events[..k];
    at := LastAt(events[..k], events[k].sensor);
    HonestPrefix(sensors, events, at + 1);
    assert events[..at + 1][..at] == events[..at];
  }

  /** No sample is handed out twice: between two reads of a sensor it is sampled anew. */
  lemma SampledBetween(sensors: seq<Sensor>, events: seq<Event>, j: nat, k: nat) returns (at: nat)
    requires Honest(sensors, events) && j < k < |events|
    requires events[j].Returned? && events[k].Returned? && events[j].sensor == events[k].sensor
    ensures j < at < k && events[at].Sampled? && events[at].sensor == events[k].sensor < |sensors|
    ensures events[k].data == Handed(sensors[events[k].sensor], events[at].raw)
  {
    at := EncodedOnce(sensors, events, k);
  }

  /** One sample of each present sensor among the first n, in order, after the events before. */
  predicate Refreshed(sensors: seq<Sensor>, before: seq<Event>, after: seq<Event>, n: nat)
    requires n <= |sensors|
  {
    if n == 0 then after == before
    else if sensors[n - 1].Present() then
      && |after| > 0 && after[|after| - 1].Sampled? && after[|after| - 1].sensor == n - 1
      && Refreshed(sensors, before, after[..|after| - 1], n - 1)
    else Refreshed(sensors, before, after, n - 1)
  }

  /** A reading that is not used up is the sensor's latest sample, as it was taken. */
  predicate Current(s: Sensor, r: Reading, events: seq<Event>, i: nat) {
    s.Present() && !r.obsoleted ==>
      var last := Last(events, i);
      last.Some? && last.value.Sampled? && last.value.raw == r.value
  }

  predicate AllCurrent(sensors: seq<Sensor>, readings: seq<Reading>, events: seq<Event>) {
    |sensors| == |readings| && forall i :: 0 <= i < |sensors| ==> Current(sensors[i], readings[i], events, i)
  }

  /** A sample that goes into the cache keeps it current... */
  lemma SampleKeepsCurrent(sensors: seq<Sensor>, readings: seq<Reading>, events: seq<Event>, i: nat, regs: Registers, value: nat)
    requires i < |sensors| && AllCurrent(sensors, readings, events)
    ensures AllCurrent(sensors, readings[i := Reading(value, false)], events + [Sampled(i, regs, value)])
  {
    var now := readings[i := Reading(value, false)];
    forall j | 0 <= j < |sensors|
      ensures Current(sensors[j], now[j], events + [Sampled(i, regs, value)], j)
    {
      LastSnoc(events, Sampled(i, regs, value), j);
      assert Current(sensors[j], readings[j], events, j);
    }
  }

  /** ...and so does handing out a reading that is marked as used up, whatever is left in its place. */
  lemma ReturnKeepsCurrent(sensors: seq<Sensor>, readings: seq<Reading>, events: seq<Event>, i: nat, value: nat, data: seq<Byte>)
    requires i < |sensors| && AllCurrent(sensors, readings, events)
    ensures AllCurrent(sensors, readings[i := Reading(value, true)], events + [Returned(i, data)])
  {
    var now := readings[i := Reading(value, true)];
    forall j | 0 <= j < |sensors|
      ensures Current(sensors[j], now[j], events + [Returned(i, data)], j)
    {
      LastSnoc(events, Returned(i, data), j);
      assert Current(sensors[j], readings[j], events, j);
    }
  }

  lemma SameEnd(a: seq<Byte>, b: seq<Byte>)
    requires |a| == |b| == 4
    ensures a[1..] == b[1..] <==> a[1] == b[1] && a[2] == b[2] && a[3] == b[3]
  {
    if a[1..] == b[1..] {
      assert a[1..][0] == b[1..][0] && a[1..][1] == b[1..][1] && a[1..][2] == b[1..][2];
    }
  }

  class Andigilog {
    const sensors: seq<Sensor>
    const Measures: array<Reading>

    ghost var events: seq<Event>

    ghost predicate Valid()
      reads this, Measures
    {
      && |sensors| == NUM_SENSORS == Measures.Length
      && (forall i :: 0 <= i < NUM_SENSORS ==> sensors[i].Valid())
      && AllCurrent(sensors, Measures[..], events)
      && Honest(sensors, events)
    }

    /** start: everything is used up. */
    constructor (sensors: seq<Sensor>)
      requires |sensors| == NUM_SENSORS && forall i :: 0 <= i < NUM_SENSORS ==> sensors[i].Valid()
      ensures Valid() && fresh(Measures) && this.sensors == sensors && events == []
    {
      this.sensors := sensors;
      Measures := new Reading[NUM_SENSORS](i => Reading(0, true));
      events := [];
    }

    /** The two register reads of one sensor. */
    method ReadRegisters(i: nat) returns (failed: bool, hdata: Byte, ldata: Byte, ghost regs: Registers)
      requires i < |sensors|
      ensures regs == if failed then None else Some((hdata, ldata))
    {
      failed, hdata, ldata := *, *, *;
      regs := if failed then None else Some((hdata, ldata));
    }

    /** One sample; a failed transfer counts as 0. */
    method Sample(i: nat) returns (value: nat, ghost regs: Registers)
      requires i < |sensors|
      ensures Converted(sensors[i], regs, value)
    {
      value := 0;
      var failed: bool, hdata: int, ldata: int;
      failed, hdata, ldata, regs := ReadRegisters(i);
      if failed {
        return;
      }
      if sensors[i].fan < 0 {
        WholeDegrees(hdata, ldata);
        if hdata != ASC7621_TEMP_NA {
          value := (hdata * 256 + ldata) / 64 / 4;
        }
      } else {
        var data: nat := hdata + ldata * 256;
        if data != 0 && data != 0xffff {
          RoundedDown(5400000, data);
          value := 5400000 / data;
        }
      }
    }

    /** One turn of updateSensors. */
    method Refresh(i: nat)
      requires Valid() && i < NUM_SENSORS && sensors[i].Present()
      modifies this`events, Measures
      ensures Valid() && Measures[..] == old(Measures[..])[i := Reading(Measures[i].value, false)]
      ensures exists regs :: Converted(sensors[i], regs, Measures[i].value)
                && events == old(events) + [Sampled(i, regs, Measures[i].value)]
    {
      ghost var was := Measures[..];
      var value;
      ghost var regs;
      value, regs := Sample(i);
      SampleKeepsCurrent(sensors, was, events, i, regs, value);
      HonestSnoc(sensors, events, Sampled(i, regs, value));
      Measures[i] := Reading(value, false);
      assert Measures[..] == was[i := Reading(value, false)];
      events := events + [Sampled(i, regs, value)];
    }

    method UpdateSensors()
      requires Valid()
      modifies this`events, Measures
      ensures Valid() && Refreshed(sensors, old(events), events, |sensors|)
      ensures forall i :: 0 <= i < NUM_SENSORS ==>
                if sensors[i].Present() then !Measures[i].obsoleted else Measures[i] == old(Measures[i])
    {
      var i := 0;
      while i < NUM_SENSORS
        invariant 0 <= i <= NUM_SENSORS && Valid() && Refreshed(sensors, old(events), events, i)
        invariant forall j :: 0 <= j < NUM_SENSORS ==>
                    if j < i && sensors[j].Present() then !Measures[j].obsoleted else Measures[j] == old(Measures[j])
      {
        if sensors[i].key[0] != 0 {
          ghost var was, taken := Measures[..], events;
          Refresh(i);
          assert events[..|events| - 1] == taken;
          assert forall j :: 0 <= j < NUM_SENSORS && j != i ==> Measures[..][j] == was[j];
        }
        i := i + 1;
      }
    }

    method ReadSensor(i: nat)
      requires Valid() && i < NUM_SENSORS && sensors[i].Present()
      modifies this`events, Measures
      ensures Valid() && Measures[i].obsoleted
      ensures var last := Last(events, i); last.Some? && last.value.Sampled? && last.value.raw == Measures[i].value
      ensures if old(Measures[i].obsoleted) then Refreshed(sensors, old(events), events, |sensors|) else events == old(events)
    {
      if Measures[i].obsoleted {
        UpdateSensors();
      }
      ghost var was := Measures[..];
      assert Current(sensors[i], was[i], events, i);
      Measures[i] := Measures[i].(obsoleted := true);
      assert Measures[..] == was[i := Reading(was[i].value, true)];
    }

    /** Sensor i is the one with that fan number, or the temperature whose key ends in the same three characters. */
    predicate Answers(i: nat, key: seq<Byte>, fan: int)
      requires i < |sensors| && |key| == 4
    {
      sensors[i].fan == fan && sensors[i].Present() && (fan >= 0 || sensors[i].key[1..] == key[1..])
    }

    /** Reads one sensor and hands it out; `before` is what had happened until then. */
    method Hand(i: nat) returns (data: seq<Byte>, ghost before: seq<Event>)
      requires Valid() && i < NUM_SENSORS && sensors[i].Present()
      modifies this`events, Measures
      ensures Valid() && events == before + [Returned(i, data)]
      ensures if old(Measures[i].obsoleted) then Refreshed(sensors, old(events), before, |sensors|) else before == old(events)
    {
      ReadSensor(i);
      before := events;
      ghost var was := Measures[..];
      if sensors[i].fan >= 0 && sensors[i].fpe2 {
        Measures[i] := Measures[i].(value := EncodeFpe2(Measures[i].value));
      }
      data := LowBytes(Measures[i].value, sensors[i].size);
      HonestSnoc(sensors, events, Returned(i, data));
      ReturnKeepsCurrent(sensors, was, events, i, Measures[i].value, data);
      assert Measures[..] == was[i := Reading(Measures[i].value, true)];
      events := events + [Returned(i, data)];
    }

    /**
     * The get-value path of callPlatformFunction; `fan` is -1 for a
     * temperature key and the number in a fan key, less the offset, otherwise.
     */
    method GetValue(key: seq<Byte>, fan: int) returns (found: bool, data: seq<Byte>, ghost i: nat, ghost before: seq<Event>)
      requires Valid() && |key| == 4
      modifies this`events, Measures
      ensures Valid()
      ensures found <==> exists j :: 0 <= j < NUM_SENSORS && Answers(j, key, fan)
      ensures !found ==> events == old(events)
      ensures found ==>
                && i < NUM_SENSORS && Answers(i, key, fan) && (forall j :: 0 <= j < i ==> !Answers(j, key, fan))
                && events == before + [Returned(i, data)]
                && if old(Measures[i].obsoleted) then Refreshed(sensors, old(events), before, |sensors|)
                   else before == old(events)
    {
      found, data, before := false, [], events;
      var idx := 0;
      while idx < NUM_SENSORS
        invariant 0 <= idx <= NUM_SENSORS && forall j :: 0 <= j < idx ==> !Answers(j, key, fan)
        modifies {}
      {
        var name := sensors[idx].key;
        SameEnd(name, key);
        if sensors[idx].fan == fan && name[0] != 0 {
          if fan >= 0 || (name[1] == key[1] && name[2] == key[2] && name[3] == key[3]) {
            break;
          }
        }
        idx := idx + 1;
      }
      i := idx;
      if idx < NUM_SENSORS {
        assert Answers(idx, key, fan);
        found := true;
        data, before := Hand(idx);
      }
    }
  }
}
