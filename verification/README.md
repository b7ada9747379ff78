# Verification of the sensor drivers' protocols, tables and parsers

A Dafny 4.11 model of the hardest parts of this repository and proofs about
it. Each file of the model follows one source file; what changes its fields
step by step there is a class with methods here, proved against specification
functions.

* **I2C masters.** `Wire.dfy` is a passive bus analyzer: it turns the levels
  of SCL and SDA into START, STOP and data bits (UM10204 sections 3.1.3 to
  3.1.6), and `Octets.dfy` reads octets, addresses and directions off its
  recording. `RegisterSlave.dfy` is a slave with 256 registers that reacts to
  the same levels. `Xf86I2C.dfy`, `NouveauI2cBit.dfy` and `I2cAlgoBit.dfy` are
  the three bit-banged masters; what each transfer puts on the wire is stated
  for arbitrary peers, symbol by symbol and as it reads from the recording
  (`Xf86Frames.dfy`, `I2cFrames.dfy`). `AuxChannel.dfy` is the DisplayPort AUX
  master over volatile registers, with every register access of a transaction
  in order (`AuxRegisters.dfy`).
* **The emulated SMC.** `FakeSmc.dfy` is the port state machine over the key
  objects, `SmcTable.dfy` the atomic key table with its laws over whole runs,
  `SmcDriver.dfy` the refinement: every run of complete transactions, issued
  one port access at a time, is a run of the table.
* **Control and concurrency.** `FanDivisor.dfy` and `WinbondW836x.dfy` are the
  fan divisor regulator and its 40-bit register image. `SmbusHandshake.dfy`
  is the thread and interrupt handshake over all interleavings.
  `Andigilog.dfy` is the refresh-all sensor cache that is encoded in place.
* **Memory structures and parsing.** `CircularList.dfy` is the intrusive
  circular list. `SmbiosTable.dfy` and `OemSmbios.dfy` are the SMBIOS table
  (DSP0134 sections 6.1.2 and 6.1.3), its walk, search and packed strings.
* **GPU clock trees.** `ClockNv50.dfy` (termination and exact call depth) and
  `Nv50Tree.dfy` (its values: a tree without recursion); `ClockNva3.dfy` and
  `ClockNvc0.dfy` (32-bit arithmetic against exact arithmetic, and every clock
  reads as it was programmed, over `Arith32.dfy`).

`dafny verify dfyconfig.toml` checks everything.

## What the proofs found

Where a promise of the code is false in general, the exact condition under
which it holds is proved.

* One STOP per transaction, as the comment on I2CStop asks for, is false of
  `xf86I2CWriteRead` with bytes to write and bytes to read and of
  `xf86I2CWriteVec` from its second pair on: when a message after the first is
  refused at its address, `I2CAddress` sends a STOP and the caller a second
  one. On a bus with a register file this is exactly when the addressed device
  does not answer a repeated START. Every other transfer, and every single
  message, ends in at most one STOP; the lines always end at (1,1). With the
  register file the surplus STOP is also the only moment at which a line moves
  too early or both lines move at once.
* `xf86I2CProbeAddress` with the read bit: the device already drives its first
  data bit when the STOP comes. If that bit is 0 the STOP is lost and SDA stays
  low; this is proved to happen exactly then.
* SMBus: a status bit that is pending when the driver starts is taken for the
  end of the first transfer if that is set up before the handler has seen the
  bit, for the guard against cold-start interrupts tests the transfer's
  operation. The transfer then returns before it was carried out. Transfers may
  be made at any time exactly when no bit is pending at the start.
* SMC writes complete exactly for 1 to 251 bytes, because the position counter
  is eight bits wide and starts at 4.
* A key name with a character after a NUL is stored under a shorter name and
  is never found again; exactly the other names are.
* `#KEY` holds the low byte of the key count: it is right exactly below 256.
* `list_cut_position` leaves its first argument untouched when the list is
  empty, or holds one entry and is cut at another one.
* `stringAtIndex` keeps the length in eight bits. It is right exactly when every
  byte from the low byte of the string's length on is a space; so it is for
  every string of at most 255 bytes.
* An SMBus write of two bytes puts both into HD0: only the second one is there
  when START is written.
* A temperature sample is exactly its high register: the quarter degrees are
  computed and then cut off.
* nva3 clock products stay below 2^32 exactly for crystals of at most 66051 kHz.
* The message loops of `nouveau_i2c_bit.cpp` and `nouveau_i2c_aux.cpp` count in
  eight bits: exactly messages of at most 255 bytes are moved whole, and an AUX
  transfer whose last message has a length divisible by 256 never clears MOT.
* An fpe2 value decodes to the speed it came from exactly below 16384.

## Assumptions about the hardware

* The register file on the xf86 bus acknowledges in time and holds SCL low for
  less than every timeout. It answers repeated STARTs or ignores them. The
  claims for an unknown peer assume nothing of it.
* In `i2c_algo_bit.cpp` a run in which SCL once did not rise in time is marked
  `timedOut`, and nothing is claimed of it but where its fields stand: after a
  timeout SCL stays driven high, where the STOP that follows would move SDA.
* AUX control registers are volatile; only their command and size fields read
  back as written. A transaction whose status shows no error was completed by
  the sink with what the registers describe.
* A steady fan counts min(255, period / 2^divisor).
* SMBus: one completion, with INTR or an error bit, per START; no wait times
  out; the interrupt line is off from the filter's acceptance until the handler
  returns. Other devices on the line may run the filter at any other time.

## Model

| member | source | states |
|---|---|---|
| BitOrder.SentThenReceived | GeForceSensors/nouveau_i2c_bit.cpp:162-199 | Bits put most significant first and read back most significant first give the same value, for any width |
| BitOrder.ReceivedThenSent | GeForceSensors/nouveau_i2c_bit.cpp:162-199 | The inverse: any eight levels received are the levels the byte would be sent as |
| Octets.SentIsOctet | GeForceSensors/xf86i2c.cpp:232-284 | A byte put on the wire is the number that eight levels of the recording give, most significant first, with SDA released for the ninth |
| RegisterSlave.StoredThere | GeForceSensors/xf86i2c.cpp:514-537 | After a multi-byte write the i-th byte is in the i-th register after the sub-address, wrapping at 256 |
| RegisterSlave.StoredElsewhere | GeForceSensors/xf86i2c.cpp:514-537 | ...and every register outside that run is unchanged |
| RegisterSlave.ReadBack | GeForceSensors/xf86i2c.cpp:474-537 | Up to 256 bytes written from a register on and read from it on come back as they were |
| Xf86I2C.I2CBus.RaiseSCL | GeForceSensors/xf86i2c.cpp:86-121 | SCL is driven high with the given SDA and sensed until it is high, so the result is the last level sensed, against any peer; it gives up only once the timeout is over; a register file that stretches SCL for less is waited for, and the poll always ends |
| Xf86I2C.I2CBus.Start | GeForceSensors/xf86i2c.cpp:127-153 | A START and nothing else on success, held for holdTime; on failure no condition at all and both lines high |
| Xf86I2C.I2CBus.Stop | GeForceSensors/xf86i2c.cpp:162-176 | Exactly one STOP, lines driven (1,1); both lines fall at once exactly if both were high; on a slave that is pulling SDA the STOP is lost |
| Xf86I2C.I2CBus.WriteBit | GeForceSensors/xf86i2c.cpp:182-193 | One data bit at the given level, no condition, whatever the other side does; SDA moves before SCL rises and stays until it has fallen, SCL is high for holdTime, and the lines rest that long afterwards |
| Xf86I2C.I2CBus.ReadBit | GeForceSensors/xf86i2c.cpp:199-213 | One bit with SDA released; the level is what the register file drives; no line moves at the wrong time |
| Xf86I2C.I2CBus.PutByte | GeForceSensors/xf86i2c.cpp:232-284 | The eight bits of the byte, most significant first, and the ACK clock; it succeeds exactly when the slave accepts the byte, which then takes effect; given up only after the byte timeout for the first bit, the bit timeout for the others, or the ACK timeout |
| Xf86I2C.I2CBus.GetByte | GeForceSensors/xf86i2c.cpp:291-317 | The byte is the one under the slave's pointer; ACK, or NACK on the last byte; given up only after the byte timeout for the first bit and the bit timeout for the others |
| Xf86I2C.I2CBus.Address | GeForceSensors/xf86i2c.cpp:344-360 | START and address; refused, it ends in a STOP with the lines (1,1); accepted exactly by the slave of that address |
| Xf86I2C.I2CBus.WriteRead | GeForceSensors/xf86i2c.cpp:417-449 | Against any peer: complete means, as symbols and as read off the recording bit by bit, START, address, bytes, repeated START, address, bytes with only the last NACKed, and one STOP; a failed single message leaves no condition or START and STOP, so two STOPs take both bytes to write and bytes to read; the driven lines are (1,1). Against a register file: the bytes are stored and the window is read, it fails exactly when the address is not its own or a repeated START is called for that it does not answer, and the latter is exactly when there are two STOPs; no line is moved at the wrong time but for the surplus STOP, which lets both lines fall at once |
| Xf86I2C.I2CBus.ProbeAddress | GeForceSensors/xf86i2c.cpp:372-386 | True exactly for the slave's address; no register changes; SDA is low afterwards exactly when an answered probe was a read and the top bit of the register under the pointer is 0 |
| Xf86I2C.I2CBus.ReadStatus | GeForceSensors/xf86i2c.cpp:454-458 | The register under the pointer, which then advances by one; on the wire a read of one byte |
| Xf86I2C.I2CBus.ReadBytes | GeForceSensors/xf86i2c.cpp:463-479 | The n registers from the sub-address on, on the wire as one combined transfer; no register changes |
| Xf86I2C.I2CBus.ReadWord | GeForceSensors/xf86i2c.cpp:483-495 | Two registers, high byte first, on the wire as one combined transfer; read exactly when the address is the slave's own and it answers the repeated START |
| Xf86I2C.I2CBus.WriteByte | GeForceSensors/xf86i2c.cpp:498-507 | Sets exactly that register; on failure none, and the conditions are none or one START and one STOP |
| Xf86I2C.I2CBus.WriteWord | GeForceSensors/xf86i2c.cpp:539-549 | Sets two registers, high byte first; failed, it leaves no condition or one START and one STOP |
| Xf86I2C.I2CBus.WriteBytes | GeForceSensors/xf86i2c.cpp:513-537 | Sets the run of registers; with no bytes the bus is not touched; failed, it leaves no condition or one START and one STOP |
| Xf86I2C.I2CBus.WriteVec | GeForceSensors/xf86i2c.cpp:558-583 | Each pair sets its register, in order, by repeated STARTs and one STOP; a vector of at most one pair fails like a single message; a register file makes a longer one end in two STOPs exactly when it has the address and does not answer repeated STARTs, and then the first pair is set; nothing but the surplus STOP moves a line at the wrong time |
| Xf86Frames.FrameReads | GeForceSensors/xf86i2c.cpp:417-449 | Read off the recording of a whole transfer: START, the seven address bits, direction low, the bytes one by one; START, the same address, direction high, eight released bits and ACK or, on the last byte, NACK each; STOP; with a second address octet exactly for the 11-bit and general call formats |
| Xf86Frames.Closed | GeForceSensors/xf86i2c.cpp:417-449 | Of the two halves of a transfer and its closing STOP: two STOPs exactly when the write stood and the read was refused at its address |
| Xf86Frames.VecClosed | GeForceSensors/xf86i2c.cpp:558-583 | The same for a vector: exactly when a pair after the first was refused at its address |
| Xf86I2C.WriteThenRead | GeForceSensors/xf86i2c.cpp:463-507 | End to end on the wire: a byte written to a register reads back as written and no other register changes, for every ordinary address, register and byte; it can be read exactly if the slave answers repeated STARTs |
| NouveauI2cBit.Port.RaiseScl | GeForceSensors/nouveau_i2c_bit.cpp:72-83 | SCL is sensed until it is high, at most 1100 times, and the last level sensed is the result |
| NouveauI2cBit.Port.Start | GeForceSensors/nouveau_i2c_bit.cpp:85-107 | One START however busy the lines were; -EBUSY only after a timeout |
| NouveauI2cBit.Port.Stop | GeForceSensors/nouveau_i2c_bit.cpp:109-120 | One STOP; both lines end high |
| NouveauI2cBit.Port.PutByte | GeForceSensors/nouveau_i2c_bit.cpp:181-198 | 0 exactly when every bit was clocked and the byte acknowledged; then the byte is on the wire most significant bit first |
| NouveauI2cBit.Port.GetByte | GeForceSensors/nouveau_i2c_bit.cpp:161-179 | 0 exactly when nothing timed out; the byte is the one whose bits were received; acknowledged unless it is the last |
| NouveauI2cBit.Port.Message | GeForceSensors/nouveau_i2c_bit.cpp:210-233 | A whole message moved in order and acknowledged, or a fault; read off the recording, the seven bits after the START are its address, the eighth is high exactly for a read, and the octets are its bytes; one START; only a read changes the buffer and only where bytes moved |
| NouveauI2cBit.Port.Xfer | GeForceSensors/nouveau_i2c_bit.cpp:209-238 | num exactly when the other side caused no fault, a negative code otherwise; then the recording reads as every message in order, each behind its own START with its seven address bits, its direction and its bytes; one START per message begun and one STOP in every run |
| NouveauI2cBit.FramesConvey | GeForceSensors/nouveau_i2c_bit.cpp:201-229 | The symbols of any messages read as these messages: address, direction and bytes of each where it begins |
| NouveauI2cBit.MovedWhole | GeForceSensors/nouveau_i2c_bit.cpp:210-222 | The eight-bit counter moves the whole message exactly when it is at most 255 bytes long |
| I2cAlgoBit.Adapter.OutB | GeForceSensors/i2c_algo_bit.cpp:131-174 | Without a timeout: the byte most significant bit first, no condition, 1 for ACK and 0 for NAK |
| I2cAlgoBit.Adapter.InB | GeForceSensors/i2c_algo_bit.cpp:176-200 | Without a timeout: eight bits with SDA released, and the byte they spell |
| I2cAlgoBit.Adapter.TryAddress | GeForceSensors/i2c_algo_bit.cpp:305-328 | Each refused try is followed by STOP and START and another try, at most retries times; nothing else is on the wire |
| I2cAlgoBit.Adapter.SendBytes | GeForceSensors/i2c_algo_bit.cpp:330-369 | The whole buffer, or -EIO at a NAK that may not be ignored |
| I2cAlgoBit.Adapter.ReadBytes | GeForceSensors/i2c_algo_bit.cpp:387-437 | Bytes stored in order and nothing behind them; a received block length of 1 to 32 makes the message that much longer, another one is -EPROTO; only the very last byte is NACKed |
| I2cAlgoBit.Adapter.DoAddress | GeForceSensors/i2c_algo_bit.cpp:447-501 | Read off the recording: seven address bits and a direction bit that is high exactly for a read not reversed, or 11110, the ten address bits in two octets and for a read the first octet again with a high direction bit; each refused try followed by STOP and START; a negative code only after a refusal that may not be ignored: -ENXIO after all retries of the first byte or at the second one, -EIO after all retries of the repeated ten-bit byte |
| I2cFrames.AddressedReads | GeForceSensors/i2c_algo_bit.cpp:447-501 | The symbols of an address read as that address and direction, seven or ten bits wide, for any number of refused tries |
| I2cFrames.TenBitAddress | GeForceSensors/i2c_algo_bit.cpp:455-489 | The first octet of a ten-bit address starts with 11110, and its next two bits with the eight of the second octet are the address |
| I2cFrames.TransferReads | GeForceSensors/i2c_algo_bit.cpp:518-559 | The symbols of any messages read as these messages, each where the one before ends |
| I2cAlgoBit.Adapter.Messages | GeForceSensors/i2c_algo_bit.cpp:518-559 | Between the first START and the STOP there are only restarts; the number of messages is returned only if each of them and nothing else was moved, and whole |
| I2cAlgoBit.Adapter.Xfer | GeForceSensors/i2c_algo_bit.cpp:503-569 | Without a timeout: one START, restarts, one STOP, lines high; num only if the recording reads as every message in full and nothing else, one behind the other, with its address bits, direction, retries and bytes, and every buffer holds what was received; a negative code only after a refusal or a bad block length |
| AuxChannel.Aux.Poll | GeForceSensors/nouveau_i2c_aux.cpp:49-78 | Nothing but reads of the control word, at most 1001, until the field is as asked for; a timeout exactly when only the last of these comes too late |
| AuxChannel.Aux.Init | GeForceSensors/nouveau_i2c_aux.cpp:48-80 | The register accesses: wait until idle, set the request bits and no others, wait for the grant, and take the request back if it does not come; 0 exactly when granted, -EBUSY otherwise |
| AuxChannel.Aux.Retry | GeForceSensors/nouveau_i2c_aux.cpp:117-147 | At most 32 tries, each a reset, a request, a wait for its end and the status read and written back; the next one only after an error bit, and from the control word read last; 0 exactly when the last try ended without an error bit, with one completed transaction that carries the command, address and size asked for |
| AuxChannel.Aux.Transact | GeForceSensors/nouveau_i2c_aux.cpp:84-154 | The data sent, or the buffer after a read, is the data of the completed transaction; nothing else of the buffer changes. The register accesses: the data of a write into its four words, least significant byte first, the address, the control word with command and size and otherwise as read, the tries, and for a read that did not time out the four words |
| AuxChannel.Aux.Tx | GeForceSensors/nouveau_i2c_aux.cpp:83-160 | The register accesses of a transaction, first to last: grant, sink detection, data, address, tries, data, and on every exit the request bits taken away; -EBUSY exactly without a grant, -ENXIO exactly without a sink, 0 exactly when a try is taken; then with one completed transaction |
| AuxChannel.Aux.Message | GeForceSensors/nouveau_i2c_aux.cpp:181-206 | The completed transactions are the pieces of the message, at most sixteen bytes each |
| AuxChannel.Aux.Messages | GeForceSensors/nouveau_i2c_aux.cpp:178-207 | num only if there is one run of transactions for each message, in order and no others, that carries it |
| AuxChannel.Aux.Xfer | GeForceSensors/nouveau_i2c_aux.cpp:174-210 | num only if the sink completed the pieces of every message, in order, and nothing else, a negative code otherwise; then the pieces of each message join to its bytes and MOT is clear on the final one alone, unless the last message is empty; only buffers of reads change, and only where bytes moved |
| AuxChannel.MovedWhole | GeForceSensors/nouveau_i2c_aux.cpp:181-206 | The pieces join to the whole message exactly when it is at most 255 bytes long |
| AuxRegisters.PackedIsUnpacked | GeForceSensors/nouveau_i2c_aux.cpp:103-109 | Packing up to sixteen bytes into four words and taking them apart gives the bytes back |
| AuxRegisters.FieldsReadBack | GeForceSensors/nouveau_i2c_aux.cpp:111-114 | The command and size put into the control word are the ones the hardware decodes |
| AuxChannel.ChunksJoin | GeForceSensors/nouveau_i2c_aux.cpp:181-206 | The chunks of a message are 1 to 16 bytes long and concatenate to its bytes |
| AuxChannel.ClosedByFinalChunk | GeForceSensors/nouveau_i2c_aux.cpp:178-206 | MOT is clear on the final chunk of the whole transfer and on no other, unless the last message is empty: then it is set on all of them |
| SmcTable.FindIs | FakeSMC/FakeSMCDevice.cpp:550-567 | The lookup returns the first key whose characters match |
| SmcTable.NamesStay | FakeSMC/FakeSMCDevice.cpp:500-548 | No transaction renames, moves or removes a key |
| SmcTable.OtherOpsKeep | FakeSMC/FakeSMCDevice.cpp:500-548 | A transaction on another key leaves a handler-less key's value alone |
| SmcTable.LastWriteWins | FakeSMC/FakeSMCDevice.cpp:50-65 | In every run: what was written to a handler-less key other than #KEY is what every later read returns, whatever was done to other keys in between |
| SmcTable.TypeMeans | FakeSMC/FakeSMCKey.cpp:66-84 | The type of a new key: the characters given, up to a NUL, or "ui8", "ui16", "ui32" or "ch8*" by size |
| SmcTable.HandleAttaches | FakeSMC/FakeSMCDevice.cpp:525-548 | A handler attached by name is attached to the key found under that name, which keeps its value and type; a new key has zeros |
| SmcTable.LostWrite | FakeSMC/FakeSMCDevice.cpp:550-567 | A newly written key is found again exactly when its name has no character after a NUL |
| SmcTable.StepKeepsWellFormed | FakeSMC/FakeSMCDevice.cpp:500-577 | Full four-character names stay unique and #KEY stays first |
| SmcTable.StepCounts | FakeSMC/FakeSMCDevice.cpp:491-498 | Once a key has been added #KEY holds the low byte of the number of keys |
| SmcTable.RunEnumerates | FakeSMC/FakeSMCDevice.cpp:491-577 | Both over every run that leaves #KEY alone; indices never move |
| SmcTable.CountIsLowByte | FakeSMC/FakeSMCDevice.cpp:491-498 | The big-endian value of #KEY is the number of keys exactly below 256 keys |
| FakeSmc.FakeSMCKey.constructor | FakeSMC/FakeSMCKey.cpp:49-99 | The stored name, the type guessed from the size when none is given, and the value or zeros; size 0 becomes one byte. A given type is copied up to its first NUL; a guessed one is "ui" and the number of bits in decimal for one, two and four bytes, "ch8*" otherwise |
| FakeSmc.FakeSMCKey.GetValue | FakeSMC/FakeSMCKey.cpp:121-132 | Without a handler the value is unchanged; a handler is called once and may replace it by one of the same size |
| FakeSmc.FakeSMCKey.SetValueFromBuffer | FakeSMC/FakeSMCKey.cpp:136-163 | The value and size become those of the buffer; an empty buffer is refused |
| FakeSmc.FakeSMCKey.SetHandler | FakeSMC/FakeSMCKey.cpp:165-173 | A handler can be attached but not taken away |
| FakeSmc.FakeSMCDevice.constructor | FakeSMC/FakeSMCDevice.cpp:329-411 | One key, #KEY, and a clean port state |
| FakeSmc.FakeSMCDevice.GetKey | FakeSMC/FakeSMCDevice.cpp:550-567 | The loop is the table lookup |
| FakeSmc.FakeSMCDevice.AddKeyWithValue | FakeSMC/FakeSMCDevice.cpp:500-523 | Sets the key found, or appends one and counts it; size 0 leaves a key found alone |
| FakeSmc.FakeSMCDevice.AddKeyWithHandler | FakeSMC/FakeSMCDevice.cpp:525-548 | Attaches to the key found, or appends one and counts it |
| FakeSmc.FakeSMCDevice.CmdWrite | FakeSMC/FakeSMCDevice.cpp:25-48 | A command byte resets the counters; an unknown one leaves the status |
| FakeSmc.FakeSMCDevice.ErrorRead | FakeSMC/FakeSMCDevice.cpp:277-289 | Reading the error port clears its latch |
| FakeSmc.FakeSMCDevice.FillData | FakeSMC/FakeSMCDevice.cpp:50-65 | The value of the key, or the error latch |
| FakeSmc.FakeSMCDevice.DataWrite | FakeSMC/FakeSMCDevice.cpp:111-186 | One byte of each of the four commands, byte counters eight bits wide |
| FakeSmc.FakeSMCDevice.DataRead | FakeSMC/FakeSMCDevice.cpp:188-237 | One byte handed out; the status drops to 0 with the last one and the buffer is cleared; a stale description length above six reads as the code does |
| SmcDriver.WritingStep | FakeSMC/FakeSMCDevice.cpp:137-154 | After 251 data bytes the position counter is back at 0 and the next byte is taken for a key byte |
| SmcDriver.WriteKey | FakeSMC/FakeSMCDevice.cpp:111-155 | A write of n bytes is the atomic update exactly for 1 <= n <= 251; otherwise the store is untouched and the status never reaches 0 |
| SmcDriver.ReadKey | FakeSMC/FakeSMCDevice.cpp:188-205 | From any port state the bytes are the value over what an unfinished transaction left in the buffer, with status 0x05 before every byte and 0 after the last; on a clean port it is the atomic lookup |
| SmcDriver.KeyByIndex | FakeSMC/FakeSMCDevice.cpp:67-79 | Index to name through the port, or the error latch, whatever was left over; on a clean port the atomic lookup |
| SmcDriver.KeyType | FakeSMC/FakeSMCDevice.cpp:81-109 | Size, type and attribute through the port, or the error latch and the old description; on a clean port the atomic lookup |
| SmcDriver.RunAll | FakeSMC/FakeSMCDevice.cpp:111-237 | Refinement: every run of complete transactions on the port machine is a run on the atomic table, with the same replies |
| SmcDriver.Enumerate | FakeSMC/FakeSMCDevice.cpp:156-170 | Reading #KEY and then each index through the ports returns every key name in order, for fewer than 256 keys |
| SmcDriver.WriteThenRead | FakeSMC/FakeSMCDevice.cpp:50-65 | Through the ports: what was written to a handler-less key other than #KEY is read back, after any complete transactions on other keys |
| SmcDriver.WriteThenDescribe | FakeSMC/FakeSMCDevice.cpp:81-109 | Through the ports: a key first written with n bytes is described as n bytes long and "ui8", "ui16" or "ui32" for 1, 2 and 4 bytes, "ch8*" otherwise |
| SmcDriver.IndexBytesAre | FakeSMC/FakeSMCDevice.cpp:156-160 | The index goes out most significant byte first: the four bytes give it back as a big-endian number |
| SmcDriver.EnumerateFromStart | FakeSMC/FakeSMCDevice.cpp:329-411 | From power-on and after any transactions that leave #KEY alone, while there are fewer than 256 keys, the enumeration returns every key in order, full names once |
| FanDivisor.ReadingMeasures | WinbondW836x/WinbondW836x.cpp:141-154 | Count times divisor is the period rounded down to a multiple of the divisor, until the count saturates at 255 |
| FanDivisor.SettledIffFixed | WinbondW836x/WinbondW836x.cpp:141-151 | The divisor stops moving exactly when the count is in 96..192 or the divisor is pinned at an end |
| FanDivisor.NoReversal | WinbondW836x/WinbondW836x.cpp:141-151 | The 192/96 hysteresis: a step up lands at 96 or more, a step down at 192 or less |
| FanDivisor.Converges | WinbondW836x/WinbondW836x.cpp:134-160 | From any divisor a fan of constant period has settled after seven updates and stays |
| FanDivisor.Monotone | WinbondW836x/WinbondW836x.cpp:134-160 | It never moves back |
| WinbondW836x.SetBitAt | WinbondW836x/WinbondW836x.cpp:81-90 | Sets the bit asked for and leaves every other one |
| WinbondW836x.SetOffsetHere | WinbondW836x/WinbondW836x.cpp:153-159 | The three bits of a fan hold its new divisor |
| WinbondW836x.SetOffsetElsewhere | WinbondW836x/WinbondW836x.cpp:153-159 | ...and every other bit of the word is as before |
| WinbondW836x.PlacesDisjoint | WinbondW836x/WinbondW836x.h:86-89 | No two fans share a bit |
| WinbondW836x.TablesAgree | WinbondW836x/WinbondW836x.h:79-89 | The bit positions in the 40-bit word are those of the per-register tables |
| WinbondW836x.AssembledHolds | WinbondW836x/WinbondW836x.cpp:128-132 | The word holds the five registers |
| WinbondW836x.RegulatedIsUpdate | WinbondW836x/WinbondW836x.cpp:134-176 | The word edits, written back, are the per-register edits |
| WinbondW836x.W836x.WriteBack | WinbondW836x/WinbondW836x.cpp:162-176 | A register is written exactly when its byte changed |
| WinbondW836x.W836x.UpdateTachometers | WinbondW836x/WinbondW836x.cpp:123-176 | Each active fan's divisor moves by one regulation step, every other bit of every register is unchanged, and exactly the changed registers are written; the value of a steady fan is its period over two to the exponent the registers held before, rounded down, and none exactly from 255 times that power on |
| WinbondW836x.W836x.ReadTachometer | WinbondW836x/WinbondW836x.cpp:179-187 | A value is handed out once: a used-up one takes a new sample of all fans, which is what is returned; otherwise nothing but its mark changes; a refresh writes exactly the changed registers, and a steady fan's count times divisor is its period, rounded down |
| WinbondW836x.Settle | WinbondW836x/WinbondW836x.cpp:123-176 | With steady fans seven updates settle all divisors in the registers |
| WinbondW836x.UpdateSettled | WinbondW836x/WinbondW836x.cpp:162-176 | From then on an update writes nothing |
| SmbusHandshake.InitInv | SMBusSensors/ICHSMBus.cpp:122-180 | The invariant holds at the start, status bits pending or not |
| SmbusHandshake.StepInv | SMBusSensors/ICHSMBus.cpp:72-269 | Every step of every thread, the filter, the handler and the hardware keeps it |
| SmbusHandshake.RunInv | SMBusSensors/ICHSMBus.cpp:72-269 | ...so it holds after every interleaving |
| SmbusHandshake.Safe | SMBusSensors/ICHSMBus.cpp:196-269 | One thread at a time past the bus lock; 0 is returned exactly without a hardware error, and a read then holds HD0/HD1 of its own transfer; the event is false whenever no transfer is in flight; a sleeper with the event set is about to be woken. In every run in which the first transfer is set up after pending status bits have been handled |
| SmbusHandshake.HonestIffQuiet | SMBusSensors/ICHSMBus.cpp:85-125 | Without that restriction: every transfer ever returned was carried out and reported honestly exactly when no status bit was pending at the start |
| SmbusHandshake.ColdRace | SMBusSensors/ICHSMBus.cpp:85-125 | Otherwise a first write returns before it is carried out |
| SmbusHandshake.StartsAsFilled | SMBusSensors/ICHSMBus.cpp:218-246 | When START is written the transfer is still the one set up, whatever else ran in between: HD0 holds the byte to write, of two bytes only the second |
| SmbusHandshake.StepProgress | SMBusSensors/ICHSMBus.cpp:72-269 | While a transfer is in flight every step but another device's filter call brings its end closer |
| SmbusHandshake.NoLostWakeup | SMBusSensors/ICHSMBus.cpp:246-258 | ...and such a step is always enabled: the waiter cannot sleep through its wakeup, whoever takes the lock first |
| SmbusHandshake.TransferEnds | SMBusSensors/ICHSMBus.cpp:72-269 | Under every schedule a started transfer ends within 15 such steps |
| CircularList.RingUnique | GeForceSensors/list.h:61-69 | The links determine the list: two rings with one start are equal |
| CircularList.Insert | GeForceSensors/list.h:61-69 | Inserts between neighbours, next and prev inverse |
| CircularList.ListAdd | GeForceSensors/list.h:84-87 | Insertion behind the given node |
| CircularList.ListAddTail | GeForceSensors/list.h:98-101 | Insertion before the given node |
| CircularList.Unlink | GeForceSensors/list.h:110-126 | Removal of one node |
| CircularList.ListDel | GeForceSensors/list.h:128-133 | Removal, the node poisoned |
| CircularList.ListDelInit | GeForceSensors/list.h:166-170 | Removal, the node a ring of its own |
| CircularList.ListReplace | GeForceSensors/list.h:146-153 | The new node in the old one's place, also for an empty list's head |
| CircularList.ListReplaceInit | GeForceSensors/list.h:155-160 | The same, the old node a ring of its own |
| CircularList.ListMove | GeForceSensors/list.h:177-182 | Removal from one list and insertion behind a node of the same or another one |
| CircularList.ListMoveTail | GeForceSensors/list.h:188-193 | The same, before a node |
| CircularList.ListIsLast | GeForceSensors/list.h:200-204 | True exactly for the last entry |
| CircularList.ListEmpty | GeForceSensors/list.h:210-213 | True exactly for the empty list |
| CircularList.ListEmptyCareful | GeForceSensors/list.h:228-232 | The same |
| CircularList.ListRotateLeft | GeForceSensors/list.h:238-246 | The first entry becomes the last |
| CircularList.ListIsSingular | GeForceSensors/list.h:252-255 | True exactly for one entry |
| CircularList.Cut | GeForceSensors/list.h:257-267 | Splits the list behind an entry |
| CircularList.ListCutPosition | GeForceSensors/list.h:283-295 | The same with its special cases: an empty list and a foreign entry leave both lists alone, the head itself empties the piece |
| CircularList.Join | GeForceSensors/list.h:297-309 | The entries of one list between two neighbours of another |
| CircularList.ListSplice | GeForceSensors/list.h:316-321 | Concatenation at the front |
| CircularList.ListSpliceTail | GeForceSensors/list.h:328-333 | Concatenation at the back |
| CircularList.ListSpliceInit | GeForceSensors/list.h:342-350 | The same with the source list emptied |
| CircularList.ListSpliceTailInit | GeForceSensors/list.h:359-367 | The same at the back |
| CircularList.CutAndSplice | GeForceSensors/list.h:283-321 | Cutting a list at any entry and splicing the piece back at the head restores it |
| SmbiosTable.AreaInTable | OemSMBIOS/OemSMBIOS.cpp:484-497 | The first double NUL behind a structure's header is the one that ends its strings |
| SmbiosTable.StepOver | OemSMBIOS/OemSMBIOS.cpp:484-497 | ...and the search for it stops exactly there: the next structure, or within a header of the end of the table |
| SmbiosTable.WalkInverts | OemSMBIOS/OemSMBIOS.cpp:470-500 | On a table laid out from any structures the walk visits exactly these, in order |
| SmbiosTable.OffsetAt | OemSMBIOS/OemSMBIOS.cpp:470-500 | Each visited offset is where that structure's bytes are |
| OemSmbios.DecodeTable | OemSMBIOS/OemSMBIOS.cpp:470-500 | On any bytes the loop visits the walk's structures, at most structureCount of them, inside the table |
| OemSmbios.DecodeLayout | OemSMBIOS/OemSMBIOS.cpp:470-500 | On a laid out table it visits every structure, in order |
| OemSmbios.FindStructure | OemSMBIOS/OemSMBIOS.cpp:565-615 | On any bytes, length 0 included, the search ends inside the table with the next match, or without one and the anchor unchanged |
| OemSmbios.FindAll | OemSMBIOS/OemSMBIOS.cpp:565-615 | Repeated searches enumerate every match once, in order, and come to an end |
| OemSmbios.MatchingInLayout | OemSMBIOS/OemSMBIOS.cpp:565-615 | On a laid out table the matches are the structures of that type and minimum size |
| OemSmbios.FindAllInLayout | OemSMBIOS/OemSMBIOS.cpp:565-615 | ...and repeated searches return exactly these |
| OemSmbios.SMBPackedStrings.constructor | OemSMBIOS/OemSMBIOS.cpp:72-80 | The limit is behind the first NUL of the first double NUL |
| OemSmbios.OpenStrings | OemSMBIOS/OemSMBIOS.cpp:65-80 | Either constructor reaches the whole string area of a structure in a table; the one without a limit exactly that |
| OemSmbios.SMBPackedStrings.Locate | OemSMBIOS/OemSMBIOS.cpp:90-103 | The nested loops find the index-th NUL-terminated string |
| OemSmbios.SMBPackedStrings.StringAtIndex | OemSMBIOS/OemSMBIOS.cpp:83-118 | That string from its first byte that is no space on; for at most 255 bytes the byte before the length ends is no space and all behind it are; in general the same of what eight bits can count |
| OemSmbios.PackedNth | OemSMBIOS/OemSMBIOS.cpp:90-103 | Among packed strings the k-th one is found whole |
| OemSmbios.PackedEnd | OemSMBIOS/OemSMBIOS.cpp:90-103 | ...and with the number after the last the search is at their end |
| OemSmbios.LengthInEightBits | OemSMBIOS/OemSMBIOS.cpp:105-115 | The eight-bit length is right exactly when every byte from the low byte of the string's length on is a space |
| OemSmbios.ShortTextFits | OemSMBIOS/OemSMBIOS.cpp:105-115 | So it is for every string of at most 255 bytes |
| OemSmbios.StringOf | OemSMBIOS/OemSMBIOS.cpp:83-118 | The k-th string of a structure by either constructor, from its first byte that is no space on and up to its last one; length 0 for one of spaces only; index 0 and count + 1 give the empty string and length 0 |
| ClockNv50.ReadPllSrc | GeForceSensors/nv50.cpp:151-219 | At most two calls deep |
| ClockNv50.ReadPllRef | GeForceSensors/nv50.cpp:221-248 | Strictly below the rank of the PLL it is the reference of |
| ClockNv50.ReadPll | GeForceSensors/nv50.cpp:250-280 | At most as deep as its rank, the detour from 0x4028 over dom6 included |
| ClockNv50.ReadClk | GeForceSensors/nv50.cpp:282-409 | At most as deep as the rank of the source, on every register file and chipset |
| ClockNv50.ClocksGet | GeForceSensors/nv50.cpp:411-445 | The recursion ends within eight calls, and never divides by zero |
| ClockNv50.DepthReached | GeForceSensors/nv50.cpp:282-445 | Eight calls are reached: the bound is exact |
| Nv50Tree.SourceReads | GeForceSensors/nv50.cpp:151-219 | The reference PLLs: three families of chipsets, each with its own selection and coefficients |
| Nv50Tree.PllReads | GeForceSensors/nv50.cpp:250-280 | A PLL that is not bypassed: off, one stage or two, over the PCIe clock or its reference PLL |
| Nv50Tree.VideoReads | GeForceSensors/nv50.cpp:342-379 | The video clock, over the core, memory and host clocks, PLLs and the crystal |
| Nv50Tree.ReadsAsTheTree | GeForceSensors/nv50.cpp:282-445 | On every register file and chipset the mutually recursive readers return the clocks of a tree drawn bottom-up from the bit fields of the registers, without recursion, in 32-bit arithmetic |
| ClockNva3.VcoFits | GeForceSensors/nva3.cpp:64-70 | No product of the VCO overflows |
| ClockNva3.ClkFits | GeForceSensors/nva3.cpp:72-104 | No product of a divided clock overflows and it has a bound linear in the crystal |
| ClockNva3.PllFits | GeForceSensors/nva3.cpp:106-131 | No product of a PLL overflows and it has a bound linear in the crystal |
| ClockNva3.NothingOverflows | GeForceSensors/nva3.cpp:64-152 | On every register file every product stays below 2^32 and 32-bit and exact arithmetic agree, for crystals of at most 66051 kHz |
| ClockNva3.LargerOverflows | GeForceSensors/nva3.cpp:64-131 | For every larger crystal some register file makes the core clock overflow |
| ClockNva3.ReadsAsProgrammed | GeForceSensors/nva3.cpp:64-152 | Every clock reads as it was programmed: the feed, the two VCOs and the PLL of its own domain, each stage rounded down; gated or with a zero divider it reads 0 |
| ClockNva3.ResultIsNonNegative | GeForceSensors/nva3.cpp:133-152 | With crystals of at most 27000 kHz the int returned is at most 1755675000, so not negative |
| ClockNvc0.VcoFits | GeForceSensors/nvc0.cpp:103-109 | No product of the VCO overflows |
| ClockNvc0.DivFits | GeForceSensors/nvc0.cpp:151-174 | A divider does not overflow and is at most 6885000 |
| ClockNvc0.PllFits | GeForceSensors/nvc0.cpp:111-149 | An engine PLL does not overflow and is at most 1755675000 |
| ClockNvc0.ClkFits | GeForceSensors/nvc0.cpp:191-211 | An engine clock does not overflow and is at most 1755675000 |
| ClockNvc0.NothingOverflows | GeForceSensors/nvc0.cpp:213-239 | So for every source and every register file whose enabled PLLs have no zero divider: no product overflows and the int returned is not negative |
| ClockNvc0.ReadsAsProgrammed | GeForceSensors/nvc0.cpp:103-239 | Every engine clock reads as it was programmed, on its PLL or on its divider, with the halving dividers that are switched on, each stage rounded down; the core clock is half the shader clock |
| ClockNvc0.CapReached | GeForceSensors/nvc0.cpp:111-149 | The bound is reached, by the shader clock with N = 255 and M = P = 1 |
| Andigilog.Fpe2RoundTrip | FakeSMC/FakeSMCUtils.h:32-40 | Decoding an encoded speed gives it back exactly below 16384 |
| Andigilog.HandedMeans | FakeSMC/FakeSMCUtils.h:10-35 | The two bytes handed out are, big-endian, four times the sample modulo 65536: encoded once |
| Andigilog.HandedPlainly | SMBusSensors/Andigilog.cpp:398-402 | Any other value arrives as sampled, least significant byte first, modulo the bytes of the key |
| Andigilog.SampleKeepsCurrent | SMBusSensors/Andigilog.cpp:184-206 | A new sample keeps every reading that is not used up equal to its sensor's latest sample |
| Andigilog.ReturnKeepsCurrent | SMBusSensors/Andigilog.cpp:398-401 | So does handing out one, although the encoding overwrites it in place |
| Andigilog.EncodedOnce | SMBusSensors/Andigilog.cpp:304-402 | In every run each value handed out is one earlier sample of its sensor, encoded once, with nothing of that sensor in between; the sample is the high temperature register, 5400000 over the fan period rounded down, or 0 for a failed transfer, a missing sensor and periods 0 and 65535 |
| Andigilog.SampledBetween | SMBusSensors/Andigilog.cpp:304-402 | Between two reads of a sensor it is sampled anew, and the second one returns that sample |
| Andigilog.Andigilog.UpdateSensors | SMBusSensors/Andigilog.cpp:172-210 | One new sample of each sensor with a key, in order; the others are skipped |
| Andigilog.Andigilog.ReadSensor | SMBusSensors/Andigilog.cpp:304-310 | Afterwards the reading is the sensor's latest sample, and used up |
| Andigilog.Andigilog.GetValue | SMBusSensors/Andigilog.cpp:386-404 | The first sensor that answers to the key hands out its reading, after a refresh exactly when it was used up; other keys change nothing |

## Left out

- SmbusHandshake.Safe: writes of two bytes (both go to HD0) and waits that time out are outside it, and so is a first transfer set up while a status bit from before the start is pending, of which HonestIffQuiet and ColdRace say what goes wrong; the lock, the filter and the handler are steps of one state machine rather than methods.
- I2cAlgoBit.Adapter.Xfer: runs with an SCL timeout are not covered, and the deadline test of `sclhi`, which subtracts unsigned values, is one nondeterministic outcome.
- Xf86I2C.I2CBus.WriteRead: the register file answers 7-bit addresses only, so for extended and general call addresses only the claims for an unknown peer hold; bus-specific replacements of the start, stop, address and byte functions are not modelled.
- NouveauI2cBit.Port.Xfer: message buffers are values that the method returns; writing through the caller's pointers, and aliasing between buffers, is not modelled.
- AuxChannel.Aux.Xfer: the buffers of one transfer are distinct arrays.
- I2cAlgoBit.Adapter.Messages: the message structures of one transfer are distinct; their buffers are sequences owned by them.
- FakeSmc.FakeSMCDevice.constructor: the last two bytes of the first #KEY value are unspecified, because FakeSMCDevice::init copies them from beyond a literal; so #KEY is covered from the first added key on. The keys that init loads from the driver's dictionary are left out; loading one is AddKeyWithValue.
- FakeSmc.FakeSMCKey.SetHandler: removal of a handler by kFakeSMCRemoveHandler has no effect in the code (setHandler rejects NULL) and is not a transaction here.
- SmcDriver.RunAll: transactions that read data before the key bytes are sent, or that stop half way, are not runs of it; a single READ, GET_KEY_BY_INDEX or GET_KEY_TYPE after one that stopped half way is covered by ReadKey, KeyByIndex and KeyType.
- OemSmbios.SMBPackedStrings.constructor: a double NUL must follow the structure; without one the code scans on into memory that is not part of the table.
- SmcDriver.Enumerate: with 256 keys or more only the low byte of the count is read, as in the code.
- AuxRegisters.FieldsReadBack: only commands below 16 and sizes of 1 to 16, which is all the transfer loop uses.
- ClockNvc0.NothingOverflows: assumes that no enabled PLL has a zero divider where the code divides by it; `read_mem` (its product can exceed 32 bits) is left out.
- ClockNva3.NothingOverflows: chipset 0xaf, whose reference clock is a register times 1000, is left out.
- CircularList.ListDel: the two poison values are both null.
- Andigilog.Andigilog.GetValue: the number in a fan key is parsed outside; the other keys of that function (fan force, minimum and maximum speed) and PWM mode switching are left out.
- OemSmbios.StringOf: indices beyond count + 1 are only covered by StringAtIndex.
- Or-ing in a bit that is still clear is written as addition in the bit-banged byte loops.
- The `values` dictionary of the emulated SMC, which is not refreshed for existing keys.
- Delays and real time, except in xf86i2c.cpp: there the hold time of SCL against the timeouts, and the time between two moves of a line while the register file is on the bus; logging and yields.
- Nv50Tree.ReadsAsTheTree: whether products overflow in nv50.cpp; both sides are 32 bits wide.
- IOKit plumbing: probing, registration, property dictionaries, MMIO and port access.
- Floating-point conversions of RPM, temperatures and voltages; the other fixed-point helpers.
- `test_bus`, adapter registration, creation and destruction of I2C device records, and the bus and device lists of xf86i2c.cpp.
- The hlist half and the iteration macros of list.h.
- SMBIOS entry point search and checksums, device tree properties and the decoders of single structure types.
- VBIOS parsing, memory clocks, fan PWM and the temperature registers of the GPU drivers; overclocking code and user interface headers.
