/**
 * The emulated SMC of FakeSMC/FakeSMCDevice.cpp at its I/O ports, over the
 * keys of FakeSMC/FakeSMCKey.cpp. Handlers are other drivers: they may put any
 * value of the right size into their own key.
 */
module FakeSmc {
  import opened Bytes
  import opened SmcTable

  const READ_CMD: Byte := 0x10
  const WRITE_CMD: Byte := 0x11
  const GET_KEY_BY_INDEX_CMD: Byte := 0x12
  const GET_KEY_TYPE_CMD: Byte := 0x13

  class FakeSMCKey {
    const name: Name
    const typ: Name
    var size: nat
    var value: seq<Byte>
    var handler: bool
    /** How often the driver behind the key was called. */
    ghost var calls: nat

    predicate Valid()
      reads this
    {
      1 <= size == |value| <= 255
    }

    function AsEntry(): Entry
      reads this
    {
      Entry(name, typ, value, handler)
    }

    /** FakeSMCKey::init for a nonempty name; `aValue` is the memory the value is copied from. */
    constructor (aName: Name, aType: Name, aSize: Byte, aValue: Option<seq<Byte>>, aHandler: bool)
      requires aValue.Some? ==> |aValue.value| >= StoredSize(aSize)
      ensures Valid()
      ensures AsEntry() == Entry(CopySymbol(aName), TypeFor(aType, aSize),
                                 if aValue.Some? then aValue.value[..StoredSize(aSize)] else Zeros(StoredSize(aSize)), aHandler)
      ensures CopyOf(aName, name) && if aType[0] == 0 then TypeOfSize(typ, aSize) else CopyOf(aType, typ)
      ensures |value| == (if aSize == 0 then 1 else aSize) && handler == aHandler
      ensures forall i :: 0 <= i < |value| ==> value[i] == if aValue.Some? then aValue.value[i] else 0
    {
      CopySymbolCopies(aName);
      TypeMeans(aType, aSize);
      name := CopySymbol(aName);
      typ := TypeFor(aType, aSize);
      var aStored := aSize;
      if aStored == 0 {
        aStored := aStored + 1;
      }
      size := aStored;
      value := if aValue.Some? then aValue.value[..aStored] else Zeros(aStored);
      handler := aHandler;
    }

    /** The driver behind the key puts a value of its own. */
    method Callback()
      requires Valid()
      modifies this`value, this`calls
      ensures Valid() && calls == old(calls) + 1
    {
      calls := calls + 1;
      assert |Zeros(size)| == size;
      var v: seq<Byte> :| |v| == size;
      value := v;
    }

    method GetValue() returns (v: seq<Byte>)
      requires Valid()
      modifies this`value, this`calls
      ensures Valid() && v == value && Refreshed(old(AsEntry()), AsEntry())
      ensures calls == old(calls) + if handler then 1 else 0
    {
      if handler {
        Callback();
      }
      v := value;
    }

    method SetValueFromBuffer(buffer: seq<Byte>) returns (ok: bool)
      requires Valid() && |buffer| <= 255
      modifies this`size, this`value, this`calls
      ensures Valid() && ok == (|buffer| > 0)
      ensures calls == old(calls) + if ok && handler then 1 else 0
      ensures if ok then SetValue(old(AsEntry()), buffer, AsEntry()) else AsEntry() == old(AsEntry())
    {
      if |buffer| == 0 {
        return false;
      }
      size := |buffer|;
      value := buffer;
      if handler {
        Callback();
      }
      ok := true;
    }

    method SetHandler(aHandler: bool) returns (ok: bool)
      requires Valid()
      modifies this`handler
      ensures Valid() && ok == aHandler && AsEntry() == old(AsEntry()).(handled := old(handler) || aHandler)
    {
      if !aHandler {
        return false;
      }
      handler := aHandler;
      ok := true;
    }
  }

  /** struct AppleSMCStatus; `charactic` is never used. */
  datatype AppleSMCStatus = AppleSMCStatus(
    cmd: Byte, status: Byte, key: Name, readPos: Byte, dataLen: Byte, dataPos: Byte,
    value: seq<Byte>, status1e: Byte, keyIndex: nat, keyInfo: seq<Byte>)
  {
    ghost predicate Valid() {
      |value| == 255 && |keyInfo| == 6 && keyIndex < 0x1_0000_0000
    }

    /** Nothing left over from the last transaction. */
    ghost predicate Clean() {
      value == Zeros(255) && keyInfo == Zeros(6) && status1e == 0
    }
  }

  /** An eight-bit counter. */
  function Bump(b: Byte): Byte {
    (b + 1) % 256
  }

  /** The place value of the p-th byte of a big-endian 32-bit number. */
  function Weight(p: nat): nat {
    if p == 0 then 0x100_0000 else if p == 1 then 0x1_0000 else if p == 2 then 0x100 else 1
  }

  /** src copied over the front of dst. */
  function Overlay(src: seq<Byte>, dst: seq<Byte>): (r: seq<Byte>)
    requires |src| <= |dst|
    ensures |r| == |dst|
  {
    src + dst[|src|..]
  }

  /** A byte of a READ command: four key bytes, then the length, which loads the value. */
  predicate ReadCommand(s: AppleSMCStatus, t: Table, val: Byte, s': AppleSMCStatus, t': Table)
    requires |s.value| == 255
  {
    if s.readPos < 4 then
      t' == t && s' == s.(key := s.key[s.readPos := val], status := 0x04, readPos := Bump(s.readPos))
    else if s.readPos > 4 then
      t' == t && s' == s.(readPos := Bump(s.readPos))
    else
      var i := Find(t, s.key);
      var loaded := s.(dataLen := val, status := 0x05, dataPos := 0, readPos := 5);
      if i < |t| then
        && OnlyChanged(t, i, t') && Refreshed(t[i], t'[i]) && |t[i].value| <= 255
        && s' == loaded.(value := Overlay(t'[i].value, s.value))
      else t' == t && s' == loaded.(status1e := NOT_FOUND)
  }

  /** A byte of a WRITE command: four key bytes, the length, then the data; the last one stores the key. */
  predicate WriteCommand(s: AppleSMCStatus, t: Table, val: Byte, s': AppleSMCStatus, t': Table)
    requires |s.value| == 255 && t != []
  {
    if s.readPos < 4 then
      t' == t && s' == s.(key := s.key[s.readPos := val], status := 0x04, readPos := Bump(s.readPos))
    else if s.readPos == 4 then
      t' == t && s' == s.(status := 0x05, dataPos := 0, dataLen := val, readPos := 5)
    else if s.dataPos >= s.dataLen then
      t' == t && s' == s.(readPos := Bump(s.readPos))
    else
      var value := s.value[s.dataPos := val];
      var taken := s.(value := value, dataPos := s.dataPos + 1, status := 0x05, readPos := Bump(s.readPos));
      if s.dataPos + 1 < s.dataLen then t' == t && s' == taken
      else
        && Put(t, s.key, [0, 0, 0, 0], value[..s.dataLen], t')
        && s' == taken.(status := 0x00, value := Zeros(255))
  }

  /** A byte of a GET_KEY_BY_INDEX command: the index, most significant byte first. */
  predicate IndexCommand(s: AppleSMCStatus, t: Table, val: Byte, s': AppleSMCStatus, t': Table) {
    var next := if s.readPos < 4 then
                  s.(keyIndex := (s.keyIndex + val * Weight(s.readPos)) % 0x1_0000_0000,
                     status := 0x04, readPos := s.readPos + 1)
                else s;
    && t' == t
    && s' == if next.readPos != 4 then next
             else if next.keyIndex < |t| then next.(status := 0x05, key := t[next.keyIndex].name)
             else next.(status := 0x00, status1e := NOT_FOUND)
  }

  /** applesmc_fill_info */
  function Described(s: AppleSMCStatus, t: Table): AppleSMCStatus {
    var i := Find(t, s.key);
    if i < |t| then s.(keyInfo := [|t[i].value| % 256] + t[i].typ + [0]) else s.(status1e := NOT_FOUND)
  }

  /** A byte of a GET_KEY_TYPE command: four key bytes, the last of which loads the description. */
  predicate TypeCommand(s: AppleSMCStatus, t: Table, val: Byte, s': AppleSMCStatus, t': Table)
    requires |s.keyInfo| == 6
  {
    var next := if s.readPos < 4 then
                  s.(key := s.key[s.readPos := val], status := 0x04, readPos := s.readPos + 1)
                else s.(readPos := Bump(s.readPos));
    && t' == t
    && s' == if next.readPos != 4 then next
             else Described(next.(dataLen := 6, status := 0x05, dataPos := 0), t)
  }

  class FakeSMCDevice {
    var s: AppleSMCStatus
    var keys: seq<FakeSMCKey>
    var sharpKey: FakeSMCKey
    ghost var table: Table

    ghost predicate Valid()
      reads this, keys
    {
      && s.Valid() && |keys| < 0x1_0000_0000
      && keys != [] && sharpKey == keys[0]
      && |table| == |keys|
      && (forall i :: 0 <= i < |keys| ==> keys[i].Valid() && keys[i].AsEntry() == table[i])
      && (forall i, j :: 0 <= i < j < |keys| ==> keys[i] != keys[j])
    }

    /** FakeSMCDevice::init: #KEY gets its last two bytes from beyond the literal it is copied from. */
    constructor ()
      ensures Valid() && s.Clean() && WellFormed(table) && |table| == 1 && !table[0].handled
      ensures table[0].name == ['#' as int, 'K' as int, 'E' as int, 'Y' as int]
      ensures table[0].typ == ['u' as int, 'i' as int, '8' as int, 0] && |table[0].value| == 4 && table[0].value[0] == 1
      ensures s == AppleSMCStatus(0, 0, [0, 0, 0, 0], 0, 0, 0, Zeros(255), 0, 0, Zeros(6))
      ensures fresh(keys)
    {
      var x: Byte := *;
      var y: Byte := *;
      var k := new FakeSMCKey(SHARP_KEY, UI8, 4, Some([1, 0, x, y]), false);
      keys := [k];
      sharpKey := k;
      table := [Entry(CopySymbol(SHARP_KEY), TypeFor(UI8, 4), [1, 0, x, y], false)];
      s := AppleSMCStatus(0, 0, [0, 0, 0, 0], 0, 0, 0, Zeros(255), 0, 0, Zeros(6));
      assert CopySymbol(SHARP_KEY) == SHARP_KEY by {
        CopyOfFull(SHARP_KEY);
      }
    }

    method GetKey(name: Name) returns (i: nat)
      requires Valid()
      ensures i == Find(table, name)
    {
      i := 0;
      while i < |keys|
        invariant 0 <= i <= |keys|
        invariant forall j :: 0 <= j < i ==> table[j].name != name
      {
        assert keys[i].AsEntry() == table[i];
        if keys[i].name == name {
          FindIs(table, name, i);
          return;
        }
        i := i + 1;
      }
    }

    /** setObject on the key array, then updateSharpKey. */
    method Append(key: FakeSMCKey)
      requires Valid() && key.Valid() && key !in keys && |keys| + 1 < 0x1_0000_0000
      modifies this`keys, this`table, sharpKey
      ensures Valid() && keys == old(keys) + [key]
      ensures Appended(old(table), old(key.AsEntry()), table)
    {
      keys := keys + [key];
      var count := |keys|;
      var ok := sharpKey.SetValueFromBuffer([0, 0, 0, count % 256]);
      table := table[0 := sharpKey.AsEntry()] + [key.AsEntry()];
    }

    method AddKeyWithValue(name: Name, typ: Name, size: Byte, memory: seq<Byte>) returns (ok: bool)
      requires Valid() && |memory| >= StoredSize(size) && |keys| + 1 < 0x1_0000_0000
      modifies this`keys, this`table, keys
      ensures Valid() && PutSized(old(table), name, typ, size, memory, table)
      ensures ok == (Find(old(table), name) < |old(table)| || name[0] != 0)
      ensures old(keys) <= keys && fresh(keys[|old(keys)|..])
      ensures |keys| <= |old(keys)| + 1
    {
      var i := GetKey(name);
      if i < |keys| {
        ok := keys[i].SetValueFromBuffer(memory[..size]);
        table := table[i := keys[i].AsEntry()];
        return true;
      }
      if name[0] == 0 {
        return false;
      }
      var key := new FakeSMCKey(name, typ, size, Some(memory), false);
      Append(key);
      ok := true;
    }

    method AddKeyWithHandler(name: Name, typ: Name, size: Byte, handler: bool) returns (ok: bool)
      requires Valid() && |keys| + 1 < 0x1_0000_0000
      modifies this`keys, this`table, keys
      ensures Valid() && Handle(old(table), name, typ, size, handler, table)
      ensures ok == (Find(old(table), name) < |old(table)| || name[0] != 0)
      ensures old(keys) <= keys && fresh(keys[|old(keys)|..])
      ensures |keys| <= |old(keys)| + 1
    {
      var i := GetKey(name);
      if i < |keys| {
        var changed := keys[i].SetHandler(handler);
        table := table[i := keys[i].AsEntry()];
        return true;
      }
      if name[0] == 0 {
        return false;
      }
      var key := new FakeSMCKey(name, typ, size, None, handler);
      Append(key);
      ok := true;
    }

    /** applesmc_io_cmd_writeb */
    method CmdWrite(val: Byte)
      requires Valid()
      modifies this`s
      ensures Valid()
      ensures s == old(s).(cmd := val, readPos := 0, dataPos := 0, keyIndex := 0,
                           status := if val in {READ_CMD, WRITE_CMD, GET_KEY_BY_INDEX_CMD, GET_KEY_TYPE_CMD} then 0x0c
                                     else old(s).status)
    {
      if val == READ_CMD || val == WRITE_CMD || val == GET_KEY_BY_INDEX_CMD || val == GET_KEY_TYPE_CMD {
        s := s.(status := 0x0c);
      }
      s := s.(cmd := val);
      s := s.(readPos := 0);
      s := s.(dataPos := 0);
      s := s.(keyIndex := 0);
    }

    /** applesmc_io_cmd_readb */
    method CmdRead() returns (status: Byte)
      ensures status == s.status
    {
      status := s.status;
    }

    /** The error port of ioRead8: reading it clears the latch. */
    method ErrorRead() returns (value: Byte)
      requires Valid()
      modifies this`s
      ensures Valid() && value == old(s).status1e && s == old(s).(status1e := 0)
    {
      value := s.status1e;
      if value != 0 {
        s := s.(status1e := 0);
      }
    }

    method FillData()
      requires Valid()
      modifies this`s, this`table, keys
      ensures Valid() && keys == old(keys)
      ensures var i := Find(old(table), old(s).key);
              if i < |old(table)| then
                && OnlyChanged(old(table), i, table) && Refreshed(old(table)[i], table[i]) && |table[i].value| <= 255
                && s == old(s).(value := Overlay(table[i].value, old(s).value))
              else table == old(table) && s == old(s).(status1e := NOT_FOUND)
      ensures forall i :: 0 <= i < |keys| ==>
                keys[i].calls == old(keys[i].calls) + if i == Find(old(table), old(s).key) && table[i].handled then 1 else 0
    {
      var i := GetKey(s.key);
      if i < |keys| {
        var v := keys[i].GetValue();
        table := table[i := keys[i].AsEntry()];
        s := s.(value := v + s.value[|v|..]);
        return;
      }
      s := s.(status1e := 0x84);
    }

    method FillInfo()
      requires Valid()
      modifies this`s
      ensures Valid()
      ensures s == Described(old(s), table)
    {
      var i := GetKey(s.key);
      if i < |keys| {
        assert keys[i].AsEntry() == table[i];
        s := s.(keyInfo := [keys[i].size] + keys[i].typ + [0]);
        return;
      }
      s := s.(status1e := 0x84);
    }

    method ReadCommandByte(val: Byte)
      requires Valid()
      modifies this`s, this`table, keys
      ensures Valid() && keys == old(keys) && ReadCommand(old(s), old(table), val, s, table)
    {
      if s.readPos < 4 {
        s := s.(key := s.key[s.readPos := val]);
        s := s.(status := 0x04);
      } else if s.readPos == 4 {
        s := s.(dataLen := val);
        s := s.(status := 0x05);
        s := s.(dataPos := 0);
        FillData();
      }
      s := s.(readPos := Bump(s.readPos));
    }

    method WriteCommandByte(val: Byte)
      requires Valid() && |keys| + 1 < 0x1_0000_0000
      modifies this`s, this`keys, this`table, keys
      ensures Valid() && WriteCommand(old(s), old(table), val, s, table)
      ensures old(keys) <= keys && fresh(keys[|old(keys)|..])
      ensures |keys| <= |old(keys)| + 1
    {
      if s.readPos < 4 {
        s := s.(key := s.key[s.readPos := val]);
        s := s.(status := 0x04);
      } else if s.readPos == 4 {
        s := s.(status := 0x05);
        s := s.(dataPos := 0);
        s := s.(dataLen := val);
      } else if s.dataPos < s.dataLen {
        s := s.(value := s.value[s.dataPos := val]);
        s := s.(dataPos := s.dataPos + 1);
        s := s.(status := 0x05);
        if s.dataPos == s.dataLen {
          s := s.(status := 0x00);
          var ok := AddKeyWithValue(s.key, [0, 0, 0, 0], s.dataLen, s.value);
          s := s.(value := Zeros(255));
        }
      }
      s := s.(readPos := Bump(s.readPos));
    }

    method IndexCommandByte(val: Byte)
      requires Valid()
      modifies this`s
      ensures Valid() && IndexCommand(old(s), table, val, s, table)
    {
      if s.readPos < 4 {
        s := s.(keyIndex := (s.keyIndex + val * Weight(s.readPos)) % 0x1_0000_0000);
        s := s.(status := 0x04);
        s := s.(readPos := s.readPos + 1);
      }
      if s.readPos == 4 {
        s := s.(status := 0x05);
        if s.keyIndex < |keys| {
          assert keys[s.keyIndex].AsEntry() == table[s.keyIndex];
          s := s.(key := keys[s.keyIndex].name);
        } else {
          s := s.(status1e := 0x84);
          s := s.(status := 0x00);
        }
      }
    }

    method TypeCommandByte(val: Byte)
      requires Valid()
      modifies this`s
      ensures Valid() && TypeCommand(old(s), table, val, s, table)
    {
      if s.readPos < 4 {
        s := s.(key := s.key[s.readPos := val]);
        s := s.(status := 0x04);
      }
      s := s.(readPos := Bump(s.readPos));
      if s.readPos == 4 {
        s := s.(dataLen := 6);
        s := s.(status := 0x05);
        s := s.(dataPos := 0);
        FillInfo();
      }
    }

    /** applesmc_io_data_writeb */
    method DataWrite(val: Byte)
      requires Valid() && |keys| + 1 < 0x1_0000_0000
      modifies this`s, this`keys, this`table, keys
      ensures Valid()
      ensures old(keys) <= keys && fresh(keys[|old(keys)|..])
      ensures |keys| <= |old(keys)| + 1
      ensures old(s).cmd != WRITE_CMD ==> keys == old(keys)
      ensures old(s).cmd == READ_CMD ==> ReadCommand(old(s), old(table), val, s, table)
      ensures old(s).cmd == WRITE_CMD ==> WriteCommand(old(s), old(table), val, s, table)
      ensures old(s).cmd == GET_KEY_BY_INDEX_CMD ==> IndexCommand(old(s), old(table), val, s, table)
      ensures old(s).cmd == GET_KEY_TYPE_CMD ==> TypeCommand(old(s), old(table), val, s, table)
      ensures old(s).cmd !in {READ_CMD, WRITE_CMD, GET_KEY_BY_INDEX_CMD, GET_KEY_TYPE_CMD} ==>
                s == old(s) && table == old(table)
    {
      if s.cmd == READ_CMD {
        ReadCommandByte(val);
      } else if s.cmd == WRITE_CMD {
        WriteCommandByte(val);
      } else if s.cmd == GET_KEY_BY_INDEX_CMD {
        IndexCommandByte(val);
      } else if s.cmd == GET_KEY_TYPE_CMD {
        TypeCommandByte(val);
      }
    }

    /** applesmc_io_data_readb */
    method DataRead() returns (retval: Byte)
      requires Valid()
      modifies this`s
      ensures Valid()
      ensures old(s).cmd == READ_CMD ==>
                if old(s).dataPos >= old(s).dataLen then retval == 0 && s == old(s)
                else
                  var moved := old(s).(dataPos := old(s).dataPos + 1);
                  && retval == old(s).value[old(s).dataPos]
                  && s == if moved.dataPos == moved.dataLen then moved.(status := 0x00, value := Zeros(255))
                          else moved.(status := 0x05)
      ensures old(s).cmd == WRITE_CMD ==> retval == 0 && s == old(s).(status := 0x00)
      ensures old(s).cmd == GET_KEY_BY_INDEX_CMD ==>
                if old(s).status == 0 then retval == 0 && s == old(s)
                else
                  var moved := if old(s).dataPos < 4 then old(s).(dataPos := old(s).dataPos + 1) else old(s);
                  && retval == (if old(s).dataPos < 4 then old(s).key[old(s).dataPos] else 0)
                  && s == if moved.dataPos == 4 then moved.(status := 0x00) else moved
      ensures old(s).cmd == GET_KEY_TYPE_CMD ==>
                if old(s).dataPos >= old(s).dataLen then retval == 0 && s == old(s)
                else
                  var moved := old(s).(dataPos := old(s).dataPos + 1);
                  && (old(s).dataPos < 6 ==> retval == old(s).keyInfo[old(s).dataPos])
                  && s == if moved.dataPos == moved.dataLen then moved.(status := 0x00, keyInfo := Zeros(6))
                          else moved.(status := 0x05)
    {
      retval := 0;
      if s.cmd == READ_CMD {
        if s.dataPos < s.dataLen {
          retval := s.value[s.dataPos];
          s := s.(dataPos := s.dataPos + 1);
          if s.dataPos == s.dataLen {
            s := s.(status := 0x00);
            s := s.(value := Zeros(255));
          } else {
            s := s.(status := 0x05);
          }
        }
      } else if s.cmd == WRITE_CMD {
        s := s.(status := 0x00);
      } else if s.cmd == GET_KEY_BY_INDEX_CMD {
        if s.status == 0 {
          return 0;
        }
        if s.dataPos < 4 {
          retval := s.key[s.dataPos];
          s := s.(dataPos := s.dataPos + 1);
        }
        if s.dataPos == 4 {
          s := s.(status := 0x00);
        }
      } else if s.cmd == GET_KEY_TYPE_CMD {
        if s.dataPos < s.dataLen {
          // past the six description bytes the read goes beyond key_info
          if s.dataPos < 6 {
            retval := s.keyInfo[s.dataPos];
          } else {
            retval := *;
          }
          s := s.(dataPos := s.dataPos + 1);
          if s.dataPos == s.dataLen {
            s := s.(status := 0x00);
            s := s.(keyInfo := Zeros(6));
          } else {
            s := s.(status := 0x05);
          }
        }
      }
    }
  }
}
