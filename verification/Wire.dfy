/**
 * The two lines of an I2C bus as a passive analyzer sees them (UM10204
 * sections 3.1.3 and 3.1.4): SDA is sampled at the rise of SCL and becomes a
 * bit when SCL falls again; SDA moving while SCL stays high is a START or a
 * STOP condition.
 */
module Wire {
  import opened Bytes

  datatype Line = Line(scl: bool, sda: bool)

  datatype Symbol = Start | Stop | Bit(level: bool)

  /** The START and STOP conditions among the first n symbols, data bits dropped. */
  function Conditions(s: seq<Symbol>, n: nat): seq<Symbol>
    requires n <= |s|
  {
    if n == 0 then [] else Conditions(s, n - 1) + if s[n - 1].Bit? then [] else [s[n - 1]]
  }

  lemma {:induction false} ConditionsPrefix(s: seq<Symbol>, c: Symbol, n: nat)
    requires n <= |s|
    ensures Conditions(s + [c], n) == Conditions(s, n)
    decreases n
  {
    if n > 0 {
      ConditionsPrefix(s, c, n - 1);
    }
  }

  /** `symbols` is everything decoded so far, `conditions` its STARTs and STOPs alone. */
  datatype Recording = Recording(line: Line, pending: Option<bool>, symbols: seq<Symbol>, conditions: seq<Symbol>) {
    ghost predicate Consistent() {
      conditions == Conditions(symbols, |symbols|)
    }

    /** The recording after the lines move to `now`. */
    function Feed(now: Line): (r: Recording)
      ensures Consistent() ==> r.Consistent()
    {
      if line.scl && now.scl then
        if line.sda == now.sda then this
        else
          var c := if now.sda then Stop else Start;
          ConditionsPrefix(symbols, c, |symbols|);
          Recording(now, None, symbols + [c], conditions + [c])
      else if now.scl then Recording(now, Some(now.sda), symbols, conditions)
      else if line.scl && pending.Some? then
        ConditionsPrefix(symbols, Bit(pending.value), |symbols|);
        Recording(now, None, symbols + [Bit(pending.value)], conditions)
      else Recording(now, None, symbols, conditions)
    }
  }

  /** Whatever an analyzer has recorded, its conditions are its symbols without the data bits. */
  type Analyzer = r: Recording | r.Consistent() ghost witness Recording(Line(true, true), None, [], [])

  /** The first k bits of byte b on the wire, most significant first. */
  function TopBits(b: nat, k: nat): (s: seq<Symbol>)
    requires k <= 8
    ensures |s| == k
  {
    seq(k, i requires 0 <= i < k => Bit(BitAt(b, 7 - i)))
  }

  lemma NoTopBits(before: seq<Symbol>, b: nat)
    ensures before + TopBits(b, 0) == before
  {
  }

  lemma TopBitsStep(before: seq<Symbol>, b: nat, k: nat)
    requires k < 8
    ensures before + TopBits(b, k) + [Bit(BitAt(b, 7 - k))] == before + TopBits(b, k + 1)
  {
    assert TopBits(b, k + 1) == TopBits(b, k) + [Bit(BitAt(b, 7 - k))];
  }

  /** A byte the master sends: eight data bits, then SDA released for the ACK. */
  function SentByte(b: Byte): (s: seq<Symbol>)
    ensures |s| == 9
  {
    TopBits(b, 8) + [Bit(true)]
  }

  function Released(k: nat): (s: seq<Symbol>)
    ensures |s| == k
  {
    seq(k, i => Bit(true))
  }

  lemma ReleasedStep(before: seq<Symbol>, k: nat)
    ensures before + Released(k) + [Bit(true)] == before + Released(k + 1)
    ensures before + Released(0) == before
  {
  }

  /** A byte the master receives: SDA released for eight bits, then ACK or, on the last byte, NACK. */
  function ReceivedByte(last: bool): (s: seq<Symbol>)
    ensures |s| == 9
  {
    Released(8) + [Bit(last)]
  }

  function SentBytes(bs: seq<Byte>): seq<Symbol> {
    if bs == [] then [] else SentBytes(bs[..|bs| - 1]) + SentByte(bs[|bs| - 1])
  }

  /** `done` of n received bytes, the n-th one refused. */
  function ReceivedBytes(done: nat, n: nat): seq<Symbol> {
    if done == 0 then [] else ReceivedBytes(done - 1, n) + ReceivedByte(done == n)
  }

  lemma SentBytesStep(before: seq<Symbol>, bs: seq<Byte>, k: nat)
    requires k < |bs|
    ensures before + SentBytes(bs[..k]) + SentByte(bs[k]) == before + SentBytes(bs[..k + 1])
  {
    assert bs[..k + 1][..k] == bs[..k];
  }

  lemma NoBytes(n: nat)
    ensures ReceivedBytes(0, n) == []
  {
  }

  lemma ReceivedBytesStep(before: seq<Symbol>, k: nat, n: nat)
    ensures before + ReceivedBytes(k, n) + ReceivedByte(k + 1 == n) == before + ReceivedBytes(k + 1, n)
  {
  }

  function Starts(n: nat): (s: seq<Symbol>)
    ensures |s| == n
  {
    seq(n, i => Symbol.Start)
  }

  lemma StartsStep(before: seq<Symbol>, n: nat)
    ensures before + Starts(n) + [Symbol.Start] == before + Starts(n + 1)
    ensures before + Starts(0) == before
  {
    assert Starts(n + 1) == Starts(n) + [Symbol.Start];
  }
}
