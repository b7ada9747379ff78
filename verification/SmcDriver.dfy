/**
 * Whole SMC transactions as a driver issues them: command, key bytes, length,
 * data, one port access at a time. Each one is the atomic step of SmcTable.
 */
module SmcDriver {
  import opened Bytes
  import opened SmcTable
  import opened FakeSmc

  /** The keys only grow, by new objects. */
  twostate predicate KeysGrow(dev: FakeSMCDevice)
    reads dev
  {
    old(dev.keys) <= dev.keys && fresh(dev.keys[|old(dev.keys)|..])
  }

  /** The machine p key bytes into a READ or WRITE. */
  function Keyed(s0: AppleSMCStatus, name: Name, p: nat): AppleSMCStatus
    requires p <= 4
  {
    if p == 0 then s0
    else s0.(key := if p < 4 then name[..p] + s0.key[p..] else name, readPos := p, status := 0x04)
  }

  lemma KeyedStep(s0: AppleSMCStatus, t: Table, name: Name, p: nat, s': AppleSMCStatus, t': Table)
    requires p < 4 && s0.readPos == 0 && |s0.value| == 255 && t != []
    requires ReadCommand(Keyed(s0, name, p), t, name[p], s', t') || WriteCommand(Keyed(s0, name, p), t, name[p], s', t')
    ensures s' == Keyed(s0, name, p + 1) && t' == t
  {
    assert (name[..p] + s0.key[p..])[p := name[p]] == name[..p + 1] + s0.key[p + 1..];
    assert s0.key == name[..0] + s0.key[0..] && name[..4] + s0.key[4..] == name;
  }

  /** The four key bytes that start a READ or WRITE. */
  method SendKey(dev: FakeSMCDevice, cmd: Byte, name: Name)
    requires dev.Valid() && |dev.keys| + 1 < 0x1_0000_0000
    requires cmd == READ_CMD || cmd == WRITE_CMD
    modifies dev, dev.keys
    ensures dev.Valid() && dev.keys == old(dev.keys) && dev.table == old(dev.table)
    ensures dev.s == old(dev.s).(cmd := cmd, key := name, status := 0x04, readPos := 4, dataPos := 0, keyIndex := 0)
  {
    dev.CmdWrite(cmd);
    ghost var s0 := dev.s;
    for p := 0 to 4
      invariant dev.Valid() && dev.keys == old(dev.keys) && dev.table == old(dev.table)
      invariant dev.s.cmd == cmd && dev.s == Keyed(s0, name, p)
    {
      SendKeyByte(dev, s0, name, p);
    }
  }

  /** One of them. */
  method SendKeyByte(dev: FakeSMCDevice, ghost s0: AppleSMCStatus, name: Name, p: nat)
    requires dev.Valid() && |dev.keys| + 1 < 0x1_0000_0000 && p < 4 && s0.readPos == 0 && |s0.value| == 255
    requires (dev.s.cmd == READ_CMD || dev.s.cmd == WRITE_CMD) && dev.s == Keyed(s0, name, p)
    modifies dev, dev.keys
    ensures dev.Valid() && dev.keys == old(dev.keys) && dev.table == old(dev.table) && dev.s == Keyed(s0, name, p + 1)
  {
    ghost var t := dev.table;
    dev.DataWrite(name[p]);
    KeyedStep(s0, t, name, p, dev.s, dev.table);
    assert |dev.keys| == |dev.table|;
    assert dev.keys == old(dev.keys) + dev.keys[|old(dev.keys)|..];
  }

  /** The eight-bit position counter after n data bytes. */
  function PosAfter(n: nat): Byte
    requires n <= 251
  {
    if n < 251 then 5 + n else 0
  }

  /** The machine n data bytes into a WRITE that left it in s0 after the length byte. */
  predicate Writing(s0: AppleSMCStatus, t0: Table, data: seq<Byte>, n: nat, s: AppleSMCStatus, t: Table)
    requires |data| <= 255 && n <= |data| && |s0.value| == 255 && t0 != []
  {
    if n > 251 then
      t == t0 && s.cmd == s0.cmd && s.readPos == n - 251 && s.status == 0x04 && |s.value| == 255
    else if n < |data| || n == 0 then
      t == t0 && s == s0.(readPos := PosAfter(n), dataPos := n, value := Overlay(data[..n], s0.value))
    else
      && Put(t0, s0.key, [0, 0, 0, 0], data, t)
      && s == s0.(readPos := PosAfter(n), dataPos := n, value := Zeros(255), status := 0x00)
  }

  /** After 251 data bytes the position counter is back at 0 and the next byte is taken for a key byte. */
  lemma WritingStep(s0: AppleSMCStatus, t0: Table, data: seq<Byte>, n: nat,
                    s: AppleSMCStatus, t: Table, s': AppleSMCStatus, t': Table)
    requires n < |data| <= 255 && |s0.value| == |s.value| == 255 && t0 != [] && t != []
    requires s0.dataLen == |data| && s0.status == 0x05
    requires Writing(s0, t0, data, n, s, t) && WriteCommand(s, t, data[n], s', t')
    requires |s'.value| == 255
    ensures Writing(s0, t0, data, n + 1, s', t') && s'.cmd == s.cmd
  {
    if n < 251 {
      assert Overlay(data[..n], s0.value)[n := data[n]] == Overlay(data[..n + 1], s0.value);
      assert n + 1 == |data| ==> Overlay(data[..n + 1], s0.value)[..|data|] == data;
    }
  }

  /**
   * A WRITE of the whole of `data`. The 8-bit position counter wraps after
   * 251 data bytes, so longer writes never complete, and neither does an
   * empty one: they leave the key store alone.
   */
  method WriteKey(dev: FakeSMCDevice, name: Name, data: seq<Byte>) returns (status: Byte)
    requires dev.Valid() && |dev.keys| + 1 < 0x1_0000_0000 && |data| <= 255
    modifies dev, dev.keys
    ensures dev.Valid() && KeysGrow(dev) && |dev.keys| <= |old(dev.keys)| + 1
    ensures 1 <= |data| <= 251 ==> Put(old(dev.table), name, [0, 0, 0, 0], data, dev.table) && status == 0x00
    ensures 1 <= |data| <= 251 && old(dev.s.Clean()) ==> dev.s.Clean()
    ensures !(1 <= |data| <= 251) ==> dev.table == old(dev.table) && status in {0x04, 0x05}
  {
    SendKey(dev, 0x11, name);
    dev.DataWrite(|data|);
    ghost var s0, t0 := dev.s, dev.table;
    assert Overlay(data[..0], s0.value) == s0.value;
    for n := 0 to |data|
      invariant dev.Valid() && KeysGrow(dev) && dev.s.cmd == WRITE_CMD
      invariant Writing(s0, t0, data, n, dev.s, dev.table)
      invariant n < |data| || |data| > 251 || n == 0 ==> dev.keys == old(dev.keys)
      invariant |dev.keys| <= |old(dev.keys)| + 1
    {
      ghost var s, t := dev.s, dev.table;
      dev.DataWrite(data[n]);
      WritingStep(s0, t0, data, n, s, t, dev.s, dev.table);
    }
    status := dev.CmdRead();
  }

  lemma LoadedIsPadded(value: seq<Byte>, len: nat)
    requires |value| <= 255 && len <= 255
    ensures Overlay(value, Zeros(255))[..len] == Padded(value, len)
    ensures Zeros(255)[..len] == Zeros(len)
  {
  }

  /** What a READ leaves in the buffer to be read: the value, over what was there before. */
  function Loaded(t: Table, name: Name, buffer: seq<Byte>): seq<Byte>
    requires |buffer| == 255 && forall i :: 0 <= i < |t| ==> |t[i].value| <= 255
  {
    var i := Find(t, name);
    if i < |t| then Overlay(t[i].value, buffer) else buffer
  }

  /** The four key bytes and the length of a READ load the value. */
  method SendRead(dev: FakeSMCDevice, name: Name, len: Byte)
    requires dev.Valid() && |dev.keys| + 1 < 0x1_0000_0000 && len > 0
    modifies dev, dev.keys
    ensures dev.Valid() && dev.keys == old(dev.keys) && dev.s.cmd == READ_CMD
    ensures dev.s.status == 0x05 && dev.s.dataPos == 0 && dev.s.dataLen == len && dev.s.keyInfo == old(dev.s.keyInfo)
    ensures (forall i :: 0 <= i < |dev.table| ==> |dev.table[i].value| <= 255)
            && dev.s.value == Loaded(dev.table, name, old(dev.s.value))
    ensures var i := Find(old(dev.table), name);
            if i < |old(dev.table)| then
              && OnlyChanged(old(dev.table), i, dev.table) && Refreshed(old(dev.table)[i], dev.table[i])
              && dev.s.status1e == old(dev.s.status1e)
            else dev.table == old(dev.table) && dev.s.status1e == NOT_FOUND
  {
    SendKey(dev, 0x10, name);
    dev.DataWrite(len);
    assert forall i :: 0 <= i < |dev.table| ==> dev.table[i] == dev.keys[i].AsEntry();
  }

  /** The reading of the bytes, polling the status before each byte and after the last. */
  method Drain(dev: FakeSMCDevice, len: Byte) returns (data: seq<Byte>, statuses: seq<Byte>)
    requires dev.Valid() && dev.s.cmd == READ_CMD && dev.s.status == 0x05 && dev.s.dataPos == 0 && dev.s.dataLen == len > 0
    modifies dev
    ensures dev.Valid() && dev.keys == old(dev.keys) && dev.table == old(dev.table)
    ensures data == old(dev.s.value)[..len]
    ensures |statuses| == len + 1 && statuses[len] == 0x00 && forall i :: 0 <= i < len ==> statuses[i] == 0x05
    ensures dev.s == old(dev.s).(dataPos := len, status := 0x00, value := Zeros(255))
  {
    ghost var loaded := dev.s;
    data, statuses := [], [];
    for n := 0 to len
      invariant dev.Valid() && dev.keys == old(dev.keys) && dev.table == old(dev.table)
      invariant data == loaded.value[..n]
      invariant |statuses| == n && forall i :: 0 <= i < n ==> statuses[i] == 0x05
      invariant dev.s == if n < len then loaded.(dataPos := n)
                         else loaded.(dataPos := n, status := 0x00, value := Zeros(255))
    {
      var st := dev.CmdRead();
      var b := dev.DataRead();
      data, statuses := data + [b], statuses + [st];
    }
    var st := dev.CmdRead();
    statuses := statuses + [st];
  }

  /** A READ of len bytes. On a clean port it is the atomic one; bytes left over show behind a short value. */
  method ReadKey(dev: FakeSMCDevice, name: Name, len: Byte) returns (data: seq<Byte>, statuses: seq<Byte>)
    requires dev.Valid() && |dev.keys| + 1 < 0x1_0000_0000 && len > 0
    modifies dev, dev.keys
    ensures dev.Valid() && dev.keys == old(dev.keys)
    ensures |statuses| == len + 1 && statuses[len] == 0x00 && forall i :: 0 <= i < len ==> statuses[i] == 0x05
    ensures (forall i :: 0 <= i < |dev.table| ==> |dev.table[i].value| <= 255)
            && data == Loaded(dev.table, name, old(dev.s.value))[..len]
    ensures dev.s.value == Zeros(255) && dev.s.keyInfo == old(dev.s.keyInfo)
    ensures dev.s.status1e == if Find(old(dev.table), name) < |old(dev.table)| then old(dev.s.status1e) else NOT_FOUND
    ensures old(dev.s.Clean()) ==> Step(old(dev.table), ReadOp(name, len), dev.table, Reply(data, dev.s.status1e))
  {
    SendRead(dev, name, len);
    ghost var i := Find(old(dev.table), name);
    if i < |dev.table| {
      LoadedIsPadded(dev.table[i].value, len);
      FindStable(old(dev.table), dev.table, name);
    } else {
      LoadedIsPadded([], len);
    }
    data, statuses := Drain(dev, len);
  }

  /** A 32-bit number, most significant byte first. */
  function IndexBytes(index: nat): seq<Byte>
    requires index < 0x1_0000_0000
  {
    [index / 0x100_0000, index / 0x1_0000 % 256, index / 0x100 % 256, index % 256]
  }

  lemma IndexBytesAre(index: nat)
    requires index < 0x1_0000_0000
    ensures BigEndian(IndexBytes(index)) == index
  {
    var s := IndexBytes(index);
    assert s[..3] == [s[0], s[1], s[2]] && s[..3][..2] == [s[0], s[1]] && s[..3][..2][..1] == [s[0]];
    assert BigEndian([s[0]]) == s[0];
    assert [s[0], s[1]][..1] == [s[0]];
    assert BigEndian([s[0], s[1]]) == index / 0x1_0000;
    assert BigEndian([s[0], s[1], s[2]]) == index / 0x100;
  }

  lemma IndexByteAt(index: nat, p: nat)
    requires index < 0x1_0000_0000 && p < 4
    ensures IndexBytes(index)[p] == index / Weight(p) % 256
  {
  }

  /** The bytes of a number up to the p-th, in place. */
  function IndexTop(index: nat, p: nat): nat
    requires p <= 4
  {
    if p == 0 then 0 else index / Weight(p - 1) * Weight(p - 1)
  }

  lemma IndexTopStep(index: nat, p: nat)
    requires index < 0x1_0000_0000 && p < 4
    ensures IndexTop(index, p) + IndexBytes(index)[p] * Weight(p) == IndexTop(index, p + 1) < 0x1_0000_0000
    ensures IndexTop(index, 4) == index
  {
    var w := Weight(p);
    IndexByteAt(index, p);
    if p > 0 {
      assert index / Weight(p - 1) == index / w / 256;
    } else {
      assert index / w < 256;
    }
    assert index / w == index / w / 256 * 256 + index / w % 256;
    assert index / w * w <= index;
  }

  /** The machine p index bytes into GET_KEY_BY_INDEX. */
  function Indexing(s0: AppleSMCStatus, t: Table, index: nat, p: nat): AppleSMCStatus
    requires p <= 4
  {
    if p == 0 then s0
    else if p < 4 then s0.(keyIndex := IndexTop(index, p), readPos := p, status := 0x04)
    else if index < |t| then s0.(keyIndex := index, readPos := 4, status := 0x05, key := t[index].name)
    else s0.(keyIndex := index, readPos := 4, status := 0x00, status1e := NOT_FOUND)
  }

  lemma IndexingStep(s0: AppleSMCStatus, t: Table, index: nat, p: nat, s': AppleSMCStatus, t': Table)
    requires p < 4 && index < 0x1_0000_0000 && s0.readPos == s0.keyIndex == 0
    requires IndexCommand(Indexing(s0, t, index, p), t, IndexBytes(index)[p], s', t')
    ensures s' == Indexing(s0, t, index, p + 1)
  {
    IndexTopStep(index, p);
  }

  /** The four index bytes of GET_KEY_BY_INDEX. */
  method SendIndex(dev: FakeSMCDevice, index: nat)
    requires dev.Valid() && |dev.keys| + 1 < 0x1_0000_0000 && index < 0x1_0000_0000
    modifies dev, dev.keys
    ensures dev.Valid() && dev.keys == old(dev.keys) && dev.table == old(dev.table)
    ensures dev.s == Indexing(old(dev.s).(cmd := GET_KEY_BY_INDEX_CMD, status := 0x0c, readPos := 0, dataPos := 0,
                                          keyIndex := 0), dev.table, index, 4)
  {
    dev.CmdWrite(0x12);
    ghost var s0 := dev.s;
    for p := 0 to 4
      invariant dev.Valid() && dev.keys == old(dev.keys) && dev.table == old(dev.table)
      invariant dev.s.cmd == GET_KEY_BY_INDEX_CMD && dev.s == Indexing(s0, dev.table, index, p)
    {
      dev.DataWrite(IndexBytes(index)[p]);
      IndexingStep(s0, dev.table, index, p, dev.s, dev.table);
    }
  }

  /** GET_KEY_BY_INDEX. On a clean port it is the atomic one; an old error stays latched. */
  method KeyByIndex(dev: FakeSMCDevice, index: nat) returns (data: seq<Byte>)
    requires dev.Valid() && |dev.keys| + 1 < 0x1_0000_0000 && index < 0x1_0000_0000
    modifies dev, dev.keys
    ensures dev.Valid() && dev.keys == old(dev.keys) && dev.table == old(dev.table)
    ensures dev.s.value == old(dev.s.value) && dev.s.keyInfo == old(dev.s.keyInfo)
    ensures data == if index < |dev.table| then dev.table[index].name else Zeros(4)
    ensures dev.s.status1e == if index < |dev.table| then old(dev.s.status1e) else NOT_FOUND
    ensures old(dev.s.Clean()) ==> Step(old(dev.table), IndexOp(index), dev.table, Reply(data, dev.s.status1e))
  {
    SendIndex(dev, index);
    ghost var loaded := dev.s;
    data := [];
    for n := 0 to 4
      invariant dev.Valid() && dev.keys == old(dev.keys) && dev.table == old(dev.table)
      invariant dev.s == if index >= |dev.table| then loaded
                         else loaded.(dataPos := n, status := if n < 4 then 0x05 else 0x00)
      invariant data == if index < |dev.table| then dev.table[index].name[..n] else Zeros(n)
    {
      var b := dev.DataRead();
      data := data + [b];
    }
  }

  /** The machine p key bytes into GET_KEY_TYPE. */
  function Typing(s0: AppleSMCStatus, t: Table, name: Name, p: nat): AppleSMCStatus
    requires p <= 4
  {
    if p == 0 then s0
    else if p < 4 then s0.(key := name[..p] + s0.key[p..], readPos := p, status := 0x04)
    else Described(s0.(key := name, readPos := 4, dataLen := 6, status := 0x05, dataPos := 0), t)
  }

  lemma TypingStep(s0: AppleSMCStatus, t: Table, name: Name, p: nat, s': AppleSMCStatus, t': Table)
    requires p < 4 && s0.readPos == 0 && |s0.keyInfo| == 6
    requires TypeCommand(Typing(s0, t, name, p), t, name[p], s', t')
    ensures s' == Typing(s0, t, name, p + 1)
  {
    assert (name[..p] + s0.key[p..])[p := name[p]] == name[..p + 1] + s0.key[p + 1..];
    assert s0.key == name[..0] + s0.key[0..] && name[..4] + s0.key[4..] == name;
  }

  /** The four key bytes of GET_KEY_TYPE; the last one loads the description. */
  method SendTypeKey(dev: FakeSMCDevice, name: Name)
    requires dev.Valid() && |dev.keys| + 1 < 0x1_0000_0000
    modifies dev, dev.keys
    ensures dev.Valid() && dev.keys == old(dev.keys) && dev.table == old(dev.table)
    ensures dev.s == Typing(old(dev.s).(cmd := GET_KEY_TYPE_CMD, status := 0x0c, readPos := 0, dataPos := 0,
                                        keyIndex := 0), dev.table, name, 4)
  {
    dev.CmdWrite(0x13);
    ghost var s0 := dev.s;
    for p := 0 to 4
      invariant dev.Valid() && dev.keys == old(dev.keys) && dev.table == old(dev.table)
      invariant dev.s.cmd == GET_KEY_TYPE_CMD && dev.s == Typing(s0, dev.table, name, p)
    {
      dev.DataWrite(name[p]);
      TypingStep(s0, dev.table, name, p, dev.s, dev.table);
    }
  }

  /** GET_KEY_TYPE. On a clean port it is the atomic one; of an unknown key the old description is read. */
  method KeyType(dev: FakeSMCDevice, name: Name) returns (data: seq<Byte>)
    requires dev.Valid() && |dev.keys| + 1 < 0x1_0000_0000
    modifies dev, dev.keys
    ensures dev.Valid() && dev.keys == old(dev.keys) && dev.table == old(dev.table)
    ensures dev.s.value == old(dev.s.value) && dev.s.keyInfo == Zeros(6)
    ensures var i := Find(dev.table, name);
            && data == (if i < |dev.table| then [|dev.table[i].value| % 256] + dev.table[i].typ + [0] else old(dev.s.keyInfo))
            && dev.s.status1e == if i < |dev.table| then old(dev.s.status1e) else NOT_FOUND
    ensures old(dev.s.Clean()) ==> Step(old(dev.table), TypeOp(name), dev.table, Reply(data, dev.s.status1e))
  {
    SendTypeKey(dev, name);
    ghost var loaded := dev.s;
    data := [];
    for n := 0 to 6
      invariant dev.Valid() && dev.keys == old(dev.keys) && dev.table == old(dev.table)
      invariant data == loaded.keyInfo[..n]
      invariant dev.s == if n == 0 then loaded
                         else if n < 6 then loaded.(dataPos := n, status := 0x05)
                         else loaded.(dataPos := 6, status := 0x00, keyInfo := Zeros(6))
    {
      var b := dev.DataRead();
      data := data + [b];
    }
  }

  /** Any complete transaction, and the error latch read after it. */
  method Perform(dev: FakeSMCDevice, op: Op) returns (reply: Reply)
    requires dev.Valid() && |dev.keys| + 1 < 0x1_0000_0000 && dev.s.Clean() && Completes(op)
    modifies dev, dev.keys
    ensures dev.Valid() && KeysGrow(dev) && |dev.keys| <= |old(dev.keys)| + 1 && dev.s.Clean()
    ensures Step(old(dev.table), op, dev.table, reply)
  {
    var data := [];
    match op {
      case WriteOp(name, bytes) => var status := WriteKey(dev, name, bytes);
      case ReadOp(name, len) =>
        var statuses;
        data, statuses := ReadKey(dev, name, len);
      case IndexOp(index) => data := KeyByIndex(dev, index);
      case TypeOp(name) => data := KeyType(dev, name);
      case HandleOp(name, typ, size, attach) => var ok := dev.AddKeyWithHandler(name, typ, size, attach);
    }
    var error := dev.ErrorRead();
    reply := Reply(data, error);
  }

  /** Every run of complete transactions on the port machine is a run on the atomic table. */
  method RunAll(dev: FakeSMCDevice, ops: seq<Op>) returns (replies: seq<Reply>, ghost ts: seq<Table>)
    requires dev.Valid() && dev.s.Clean() && |dev.keys| + |ops| < 0x1_0000_0000
    requires forall i :: 0 <= i < |ops| ==> Completes(ops[i])
    modifies dev, dev.keys
    ensures dev.Valid() && dev.s.Clean() && forall k :: k in dev.keys ==> k in old(dev.keys) || fresh(k)
    ensures |dev.keys| <= |old(dev.keys)| + |ops|
    ensures Run(ts, ops, replies) && ts[0] == old(dev.table) && ts[|ops|] == dev.table
  {
    replies, ts := [], [dev.table];
    for n := 0 to |ops|
      invariant dev.Valid() && dev.s.Clean() && |dev.keys| <= |old(dev.keys)| + n
      invariant forall k :: k in dev.keys ==> k in old(dev.keys) || fresh(k)
      invariant Run(ts, ops[..n], replies) && ts[0] == old(dev.table) && ts[n] == dev.table
    {
      ghost var keys := dev.keys;
      assert forall i :: 0 <= i < |dev.keys| ==> dev.keys[i] in old(dev.keys) || fresh(dev.keys[i]);
      var reply := Perform(dev, ops[n]);
      assert dev.keys == keys + dev.keys[|keys|..];
      replies, ts := replies + [reply], ts + [dev.table];
    }
    assert ops[..|ops|] == ops;
  }

  /** Reads the key count from #KEY and then every key by its index. */
  method Enumerate(dev: FakeSMCDevice) returns (names: seq<Name>)
    requires dev.Valid() && dev.s.Clean() && |dev.keys| + 1 < 0x1_0000_0000
    requires WellFormed(dev.table) && Counted(dev.table)
    modifies dev, dev.keys
    ensures dev.Valid() && dev.s.Clean() && dev.table == old(dev.table)
    ensures |names| == |dev.table| % 256
    ensures forall i :: 0 <= i < |names| ==> names[i] == dev.table[i].name
  {
    CountIsLowByte(|dev.table|);
    FindIs(dev.table, SHARP_KEY, 0);
    var reply := Perform(dev, ReadOp(SHARP_KEY, 4));
    assert Padded(CountBytes(|dev.table|), 4) == CountBytes(|dev.table|);
    var n := BigEndian(reply.data);
    names := [];
    for i := 0 to n
      invariant dev.Valid() && dev.s.Clean() && dev.table == old(dev.table) && KeysGrow(dev)
      invariant |names| == i && forall j :: 0 <= j < i ==> names[j] == dev.table[j].name
    {
      var r := Perform(dev, IndexOp(i));
      names := names + [r.data];
    }
  }

  /**
   * Through the ports: what is written to a handler-less key is read back,
   * after any complete transactions on other keys.
   */
  method WriteThenRead(dev: FakeSMCDevice, name: Name, data: seq<Byte>, between: seq<Op>) returns (reply: Reply)
    requires dev.Valid() && dev.s.Clean() && |dev.keys| + |between| + 2 < 0x1_0000_0000
    requires 1 <= |data| <= 251 && Canonical(name) && name != SHARP_KEY
    requires dev.table[0].name == SHARP_KEY && Unhandled(dev.table, name)
    requires forall i :: 0 <= i < |between| ==> Completes(between[i]) && !Touches(between[i], name)
    modifies dev, dev.keys
    ensures dev.Valid() && dev.s.Clean() && reply == Reply(data, 0)
  {
    var ops := [WriteOp(name, data)] + between + [ReadOp(name, |data|)];
    var last := |between| + 1;
    var replies;
    ghost var ts;
    replies, ts := RunAll(dev, ops);
    LastWriteWins(ts, ops, replies, 0, last);
    reply := replies[last];
  }

  /** A new key comes last, is found there, and has the type its length stands for. */
  lemma NewKey(before: Table, name: Name, data: seq<Byte>, after: Table)
    requires before != [] && |data| >= 1 && Put(before, name, [0, 0, 0, 0], data, after)
    requires Canonical(name) && forall e :: e in before ==> e.name != name
    ensures var i := Find(after, name);
            i == |before| < |after| && |after[i].value| == |data| && TypeOfSize(after[i].typ, |data|)
  {
    TypeMeans([0, 0, 0, 0], |data|);
    assert Find(before, name) == |before|;
    hide TypeOfSize, TypeFor;
    FindIs(after, name, |before|);
  }

  /**
   * Through the ports: a key first written with n bytes is described as n
   * bytes long, of the type that length stands for.
   */
  method WriteThenDescribe(dev: FakeSMCDevice, name: Name, data: seq<Byte>) returns (info: seq<Byte>)
    requires dev.Valid() && dev.s.Clean() && |dev.keys| + 2 < 0x1_0000_0000
    requires 1 <= |data| <= 251 && Canonical(name) && forall e :: e in dev.table ==> e.name != name
    modifies dev, dev.keys
    ensures dev.Valid() && |info| == 6 && info[0] == |data| && TypeOfSize(info[1..5], |data|) && info[5] == 0
  {
    hide TypeOfSize, TypeFor, Put, Find, Step, FakeSMCKey.AsEntry;
    ghost var t := dev.table;
    var status := WriteKey(dev, name, data);
    NewKey(t, name, data, dev.table);
    info := KeyType(dev, name);
    assert info[1..5] == dev.table[|t|].typ;
  }

  /**
   * From power-on, through the ports: after any transactions that leave #KEY
   * alone, once a key was added and while there are fewer than 256, the
   * enumeration returns every key; full names occur once.
   */
  method EnumerateFromStart(ops: seq<Op>) returns (dev: FakeSMCDevice, names: seq<Name>)
    requires |ops| + 2 < 0x1_0000_0000
    requires forall i :: 0 <= i < |ops| ==> Completes(ops[i]) && !Touches(ops[i], SHARP_KEY)
    ensures dev.Valid()
    ensures 1 < |dev.table| < 256 ==>
              && |names| == |dev.table| && (forall i :: 0 <= i < |names| ==> names[i] == dev.table[i].name)
              && forall i, j :: 0 <= i < j < |names| && Full(names[i]) ==> names[i] != names[j]
  {
    dev := new FakeSMCDevice();
    assert |dev.keys| == |dev.table| == 1;
    var replies;
    ghost var ts;
    replies, ts := RunAll(dev, ops);
    RunEnumerates(ts, ops, replies, |ops|);
    assert forall i :: 0 <= i < |dev.keys| ==> dev.keys[i] in dev.keys;
    names := [];
    if |dev.keys| > 1 {
      names := Enumerate(dev);
    }
  }
}
