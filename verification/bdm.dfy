/** The BDM transaction engine of bdm.c.

    The engine owns three lazy-initialisation flags (state machine claimed,
    data program loaded, target frequency known), the last SYNC measurement
    and a small data buffer in which each command wrapper lays out one
    transaction: [0] bytes to send, [1] bytes to receive, [2] BDM command
    byte, [3..] parameters. `_make_data` packs the bytes to send into one
    word, most significant first, and the PIO shifts it out.

    The PIO hardware and the target are an oracle (`Hardware`): SYNC returns
    a tick count, and a transfer of a word with given transmit and receive
    bit counts returns the received word. The floating-point frequency
    computation is kept opaque as the provenance of the frequency. */
module Bdm {
  import opened Numeric
  import Opcodes
  import Pio
  import Codecs

  // ---------------------------------------------------------------------------
  // The data buffer
  // ---------------------------------------------------------------------------

  /** Number of bits in a byte on the wire. */
  const BYTE: nat := 8

  /** Slot indices of the data buffer. */
  const TX_BYTE_COUNT: nat := 0
  const RX_BYTE_COUNT: nat := 1
  const COMMAND: nat := 2
  const FIRST_PARAMETER: nat := 3

  /** The buffer length bdm.h declares. */
  const MAX_BDM_COMMAND_SIZE: nat := 5

  /** The buffer length the wrappers need: header, command byte and up to
      three parameters (bdm_cmd_write_byte stores its data byte at slot 5). */
  const DATA_BUFFER_SIZE: nat := 6

  /** One BDM transaction as a wrapper lays it out. */
  datatype BdmCommand = BdmCommand(txBytes: Byte, rxBytes: Byte, opcode: Byte, params: seq<Byte>)

  /** The outcome of writing a command into a fixed-length C array: the new
      contents, or the first index written past its end. */
  datatype Stored = Stored(buffer: seq<Byte>) | OutOfBounds(index: nat)

  /** A wrapper's stores into the data buffer, slot 0 first. Slots past the
      parameters keep whatever an earlier command left there. */
  function Store(buffer: seq<Byte>, cmd: BdmCommand): (r: Stored)
    requires |buffer| >= FIRST_PARAMETER
    ensures r.Stored? <==> FIRST_PARAMETER + |cmd.params| <= |buffer|
    ensures r.OutOfBounds? ==> r.index == |buffer|
    ensures r.Stored? ==> |r.buffer| == |buffer|
    ensures r.Stored? ==> (r.buffer[TX_BYTE_COUNT] == cmd.txBytes
                           && r.buffer[RX_BYTE_COUNT] == cmd.rxBytes
                           && r.buffer[COMMAND] == cmd.opcode)
    ensures r.Stored? ==> forall i :: 0 <= i < |cmd.params| ==> r.buffer[FIRST_PARAMETER + i] == cmd.params[i]
    ensures r.Stored? ==> forall i :: FIRST_PARAMETER + |cmd.params| <= i < |buffer| ==> r.buffer[i] == buffer[i]
  {
    if FIRST_PARAMETER + |cmd.params| <= |buffer| then
      Stored([cmd.txBytes, cmd.rxBytes, cmd.opcode] + cmd.params + buffer[FIRST_PARAMETER + |cmd.params|..])
    else
      OutOfBounds(|buffer|)
  }

  /** The loop of _make_data: `data = byte | (data << 8)` in 32-bit arithmetic.
      The shifted word has its low byte clear, so the OR is an addition. */
  function Pack(bytes: seq<Byte>): (data: Word)
    ensures data == BigEndian(bytes, 256) % WordModulus
  {
    if |bytes| == 0 then 0
    else
      var prefix := Pack(bytes[..|bytes| - 1]);
      var last := bytes[|bytes| - 1];
      ShiftInByte(prefix, last);
      ModShiftAdd(BigEndian(bytes[..|bytes| - 1], 256), 256, last, WordModulus);
      (prefix * 256) % WordModulus + last
  }

  /** Shifting a word up one byte and OR-ing a byte in stays inside the word. */
  lemma ShiftInByte(word: Word, b: Byte)
    ensures (word * 256) % WordModulus + b == (word * 256 + b) % WordModulus
  {
    var high, low := word / 0x100_0000, word % 0x100_0000;
    assert word * 256 == high * WordModulus + low * 256;
    DivModUnique(word * 256, WordModulus, high, low * 256);
    DivModUnique(word * 256 + b, WordModulus, high, low * 256 + b);
  }

  /** Whether the transmit count in slot 0 selects bytes that lie inside the buffer. */
  predicate TxInBuffer(buffer: seq<Byte>)
  {
    |buffer| > COMMAND && COMMAND + buffer[TX_BYTE_COUNT] <= |buffer|
  }

  /** _make_data: the buffer[0] bytes from slot 2 on, most significant first. */
  function MakeData(buffer: seq<Byte>): (data: Word)
    requires TxInBuffer(buffer)
    ensures data == BigEndian(buffer[COMMAND..COMMAND + buffer[TX_BYTE_COUNT]], 256) % WordModulus
  {
    Pack(buffer[COMMAND..COMMAND + buffer[TX_BYTE_COUNT]])
  }

  /** Up to four bytes fit a word: nothing is lost, and the first byte (the
      BDM command) is the most significant one. */
  lemma MakeDataExact(bytes: seq<Byte>)
    requires 1 <= |bytes| <= 4
    ensures Pack(bytes) == BigEndian(bytes, 256)
    ensures Pack(bytes) < Pow(2, BYTE * |bytes|)
    ensures Pack(bytes) / Pow(2, BYTE * (|bytes| - 1)) == bytes[0]
  {
    var n := |bytes|;
    var v := BigEndian(bytes, 256);
    assert DigitsBelow(bytes, 256);
    BigEndianBound(bytes, 256);
    PowBytes(n);
    PowMonotoneBytes(n);
    assert 0 <= v < WordModulus;
    assert Pack(bytes) == v;
    BigEndianLeading(bytes, 256);
    PowBytes(n - 1);
  }

  lemma PowMonotoneBytes(n: nat)
    requires n <= 4
    ensures Pow(256, n) <= WordModulus
  {
    PowMonotone(256, n, 4);
    PowBytes(4);
    PowWord();
  }

  // ---------------------------------------------------------------------------
  // Engine state and the hardware oracle
  // ---------------------------------------------------------------------------

  /** Where the PIO clock frequency came from: the build default, or the
      frequency computed from a SYNC tick count. */
  datatype PioFrequency = DefaultPioFrequency | MeasuredBySync(ticks: Half)

  /** The static state of bdm.c. */
  datatype Engine = Engine(
    smClaimed: bool,           // is_sm_init
    dataProgramLoaded: bool,   // is_bdm_data_init
    freqKnown: bool,           // is_freq_known
    pioFreq: PioFrequency,     // pio_freq
    ticks: Half,               // ticks: last SYNC length in 1 MHz ticks
    dataBuffer: seq<Byte>)     // data_buffer

  predicate Valid(e: Engine)
  {
    |e.dataBuffer| == DATA_BUFFER_SIZE
  }

  /** The state at power-up. */
  function Boot(): (e: Engine)
    ensures Valid(e) && !e.smClaimed && !e.dataProgramLoaded && !e.freqKnown
  {
    Engine(false, false, false, DefaultPioFrequency, 0, seq(DATA_BUFFER_SIZE, _ => 0))
  }

  /** The target as seen through the PIO: the tick count a SYNC measures, and
      the word received for a transfer of (data, transmit bits, receive bits). */
  datatype Hardware = Hardware(syncTicks: Word, reply: (Word, nat, nat) -> Word)

  /** What the engine does to the PIO, in order. */
  datatype Event =
    | ClaimSm                                        // pio_claim_unused_sm
    | RunSync(ticks: Word)                           // sync(): load bdm-sync, measure
    | LoadDataProgram(freq: PioFrequency)            // bdm_init(pio, sm, pio_freq)
    | Transfer(data: Word, txBits: nat, rxBits: nat) // do_bdm_command + wait + get

  predicate HasClaim(events: seq<Event>)
  {
    exists i :: 0 <= i < |events| && events[i].ClaimSm?
  }

  predicate HasSync(events: seq<Event>)
  {
    exists i :: 0 <= i < |events| && events[i].RunSync?
  }

  predicate HasLoad(events: seq<Event>)
  {
    exists i :: 0 <= i < |events| && events[i].LoadDataProgram?
  }

  /** Event kinds of a concatenation are those of its parts. */
  lemma HasConcat(a: seq<Event>, b: seq<Event>)
    ensures HasClaim(a + b) <==> HasClaim(a) || HasClaim(b)
    ensures HasSync(a + b) <==> HasSync(a) || HasSync(b)
    ensures HasLoad(a + b) <==> HasLoad(a) || HasLoad(b)
  {
    var ab := a + b;
    forall i | 0 <= i < |ab|
      ensures ab[i] == (if i < |a| then a[i] else b[i - |a|])
    {
    }
    if HasClaim(b) {
      var j :| 0 <= j < |b| && b[j].ClaimSm?;
      assert ab[|a| + j] == b[j];
    }
    if HasSync(b) {
      var j :| 0 <= j < |b| && b[j].RunSync?;
      assert ab[|a| + j] == b[j];
    }
    if HasLoad(b) {
      var j :| 0 <= j < |b| && b[j].LoadDataProgram?;
      assert ab[|a| + j] == b[j];
    }
  }

  // ---------------------------------------------------------------------------
  // SYNC and the generic transaction
  // ---------------------------------------------------------------------------

  /** bdm_cmd_sync: claim the state machine if needed, run the SYNC program,
      keep the tick count truncated to 16 bits and derive the PIO frequency
      from it. The SYNC program displaces the data program. */
  function Sync(e: Engine, hw: Hardware): (r: (Engine, seq<Event>))
    ensures r.0.smClaimed && r.0.freqKnown && !r.0.dataProgramLoaded
    ensures r.0.ticks == hw.syncTicks % 0x1_0000
    ensures r.0.pioFreq == MeasuredBySync(r.0.ticks)
    ensures r.0.dataBuffer == e.dataBuffer
    ensures HasClaim(r.1) <==> !e.smClaimed
    ensures HasSync(r.1) && !HasLoad(r.1)
    ensures |r.1| == (if e.smClaimed then 1 else 2)
    ensures !e.smClaimed ==> r.1[0] == ClaimSm
    ensures r.1[|r.1| - 1] == RunSync(hw.syncTicks)
  {
    var claim := if e.smClaimed then [] else [ClaimSm];
    var ticks := hw.syncTicks % 0x1_0000;
    var e' := e.(smClaimed := true, ticks := ticks, pioFreq := MeasuredBySync(ticks),
                 dataProgramLoaded := false, freqKnown := true);
    HasConcat(claim, [RunSync(hw.syncTicks)]);
    assert [RunSync(hw.syncTicks)][0].RunSync?;
    assert !e.smClaimed ==> claim[0].ClaimSm?;
    (e', claim + [RunSync(hw.syncTicks)])
  }

  /** A SYNC that counts no ticks is not rejected: bdm_cmd_sync divides by
      the zero measurement without a check and still marks the frequency
      known, so the next transaction loads the data program at it. */
  lemma ZeroTickSyncIsAccepted(e: Engine, hw: Hardware)
    requires hw.syncTicks % 0x1_0000 == 0
    ensures Sync(e, hw).0.freqKnown && Sync(e, hw).0.ticks == 0
    ensures Sync(e, hw).0.pioFreq == MeasuredBySync(0)
    ensures Prepare(Sync(e, hw).0, hw).1[|Prepare(Sync(e, hw).0, hw).1| - 1] == LoadDataProgram(MeasuredBySync(0))
  {
  }

  /** A transaction the engine can run: 1..4 bytes to send, inside the buffer. */
  predicate Sendable(e: Engine)
  {
    Valid(e) && 1 <= e.dataBuffer[TX_BYTE_COUNT] <= 4
  }

  /** The transmit and receive bit counts of the buffered transaction, as the
      8-bit locals of bdm_command_exec hold them. */
  function TxBits(buffer: seq<Byte>): nat
    requires |buffer| > TX_BYTE_COUNT
  {
    (buffer[TX_BYTE_COUNT] * BYTE) % 256
  }

  function RxBits(buffer: seq<Byte>): nat
    requires |buffer| > RX_BYTE_COUNT
  {
    (buffer[RX_BYTE_COUNT] * BYTE) % 256
  }

  /** The result of one transaction. */
  datatype Exchange = Exchange(engine: Engine, received: Word, events: seq<Event>)

  /** How many events the lazy initialisation emits: one claim, one SYNC,
      one program load, each only when needed. */
  function InitSteps(e: Engine): nat
  {
    (if e.smClaimed then 0 else 1)
    + (if e.freqKnown then 0 else 1)
    + (if e.freqKnown && e.dataProgramLoaded then 0 else 1)
  }

  /** The lazy initialisation at the start of bdm_command_exec: claim the
      state machine once, SYNC if the frequency is unknown, and load the data
      program if it is not loaded (a SYNC always unloads it). */
  function Prepare(e: Engine, hw: Hardware): (r: (Engine, seq<Event>))
    ensures r.0.dataBuffer == e.dataBuffer
    ensures r.0.smClaimed && r.0.freqKnown && r.0.dataProgramLoaded
    ensures HasClaim(r.1) <==> !e.smClaimed
    ensures HasSync(r.1) <==> !e.freqKnown
    ensures HasLoad(r.1) <==> !e.freqKnown || !e.dataProgramLoaded
    ensures |r.1| == InitSteps(e)
    ensures !e.freqKnown ==> (r.0.ticks == hw.syncTicks % 0x1_0000
                              && r.0.pioFreq == MeasuredBySync(r.0.ticks)
                              && r.1[|r.1| - 2] == RunSync(hw.syncTicks)
                              && r.1[|r.1| - 1] == LoadDataProgram(r.0.pioFreq))
    ensures e.freqKnown ==> r.0.ticks == e.ticks && r.0.pioFreq == e.pioFreq
    ensures e.freqKnown && !e.dataProgramLoaded ==> r.1[|r.1| - 1] == LoadDataProgram(e.pioFreq)
  {
    var claim := if e.smClaimed then [] else [ClaimSm];
    var e1 := e.(smClaimed := true);
    var (e2, sync) := if e1.freqKnown then (e1, []) else Sync(e1, hw);
    var load := if e2.dataProgramLoaded then [] else [LoadDataProgram(e2.pioFreq)];
    HasConcat(claim, sync);
    HasConcat(claim + sync, load);
    assert !e.smClaimed ==> claim[0].ClaimSm?;
    assert !e2.dataProgramLoaded ==> load[0].LoadDataProgram?;
    (e2.(dataProgramLoaded := true), claim + sync + load)
  }

  /** bdm_command_exec: the lazy initialisation, then send the buffered word
      and wait for the received one. */
  function Exec(e: Engine, hw: Hardware): (r: Exchange)
    requires Sendable(e)
    ensures Valid(r.engine) && r.engine.dataBuffer == e.dataBuffer
    ensures r.engine.smClaimed && r.engine.freqKnown && r.engine.dataProgramLoaded
    ensures HasClaim(r.events) <==> !e.smClaimed
    ensures HasSync(r.events) <==> !e.freqKnown
    ensures HasLoad(r.events) <==> !e.freqKnown || !e.dataProgramLoaded
    ensures |r.events| == InitSteps(e) + 1
    ensures !e.freqKnown ==> (r.engine.ticks == hw.syncTicks % 0x1_0000
                              && r.events[|r.events| - 3] == RunSync(hw.syncTicks)
                              && r.events[|r.events| - 2] == LoadDataProgram(MeasuredBySync(r.engine.ticks)))
    ensures e.freqKnown ==> r.engine.ticks == e.ticks && r.engine.pioFreq == e.pioFreq
    ensures e.freqKnown && !e.dataProgramLoaded ==> r.events[|r.events| - 2] == LoadDataProgram(e.pioFreq)
    ensures MakeData(e.dataBuffer) == BigEndian(e.dataBuffer[COMMAND..COMMAND + e.dataBuffer[TX_BYTE_COUNT]], 256)
    ensures r.events[|r.events| - 1]
         == Transfer(MakeData(e.dataBuffer), BYTE * e.dataBuffer[TX_BYTE_COUNT], RxBits(e.dataBuffer))
    ensures r.received == hw.reply(MakeData(e.dataBuffer), BYTE * e.dataBuffer[TX_BYTE_COUNT], RxBits(e.dataBuffer))
  {
    var (ready, init) := Prepare(e, hw);
    var data := MakeData(e.dataBuffer);
    assert data == BigEndian(e.dataBuffer[COMMAND..COMMAND + e.dataBuffer[TX_BYTE_COUNT]], 256) by {
      MakeDataExact(e.dataBuffer[COMMAND..COMMAND + e.dataBuffer[TX_BYTE_COUNT]]);
    }
    assert TxBits(e.dataBuffer) == BYTE * e.dataBuffer[TX_BYTE_COUNT];
    var transfer := Transfer(data, TxBits(e.dataBuffer), RxBits(e.dataBuffer));
    HasConcat(init, [transfer]);
    Exchange(ready, hw.reply(data, TxBits(e.dataBuffer), RxBits(e.dataBuffer)), init + [transfer])
  }

  /** bdm_cmd_get_sync_length: the last SYNC length rescaled from 1 MHz to
      60 MHz ticks and truncated to 16 bits. */
  function SyncLength(e: Engine): (length: Half)
    ensures length % 4 == 0
    ensures e.ticks * 60 < 0x1_0000 ==> length / 60 == e.ticks && length % 60 == 0
  {
    (60 * e.ticks) % 0x1_0000
  }

  // ---------------------------------------------------------------------------
  // Command wrappers
  // ---------------------------------------------------------------------------

  /** The 8-bit and 16-bit target registers. */
  datatype Reg8 = A | Ccr
  datatype Reg16 = Pc | Hx | Sp

  function ReadOpcode8(r: Reg8): Byte
  {
    match r
    case A => Opcodes.READ_A
    case Ccr => Opcodes.READ_CCR
  }

  function WriteOpcode8(r: Reg8): Byte
  {
    match r
    case A => Opcodes.WRITE_A
    case Ccr => Opcodes.WRITE_CCR
  }

  function ReadOpcode16(r: Reg16): Byte
  {
    match r
    case Pc => Opcodes.READ_PC
    case Hx => Opcodes.READ_HX
    case Sp => Opcodes.READ_SP
  }

  function WriteOpcode16(r: Reg16): Byte
  {
    match r
    case Pc => Opcodes.WRITE_PC
    case Hx => Opcodes.WRITE_HX
    case Sp => Opcodes.WRITE_SP
  }

  /** The transactions the wrappers issue, with the parameters they send. */
  datatype Operation =
    | ReadStatus
    | Go
    | Halt
    | ReadRegister8(r8: Reg8)
    | ReadRegister16(r16: Reg16)
    | WriteRegister8(w8: Reg8, value: Byte)
    | WriteRegister16(w16: Reg16, high: Byte, low: Byte)
    | WriteByte(addrHigh: Byte, addrLow: Byte, data: Byte)
    | WriteNext(nextData: Byte)
    | ReadByte(readHigh: Byte, readLow: Byte)
    | ReadNext

  /** The (bytes to send, bytes to receive, command byte, parameters) layout
      each wrapper writes into the data buffer. */
  function CommandOf(op: Operation): (c: BdmCommand)
    ensures WellFormed(c)
    ensures Codecs.IsCommandValid(c.opcode)
  {
    match op
    case ReadStatus => BdmCommand(1, 1, Opcodes.READ_STATUS, [])
    case Go => BdmCommand(1, 0, Opcodes.GO, [])
    case Halt => BdmCommand(1, 0, Opcodes.BACKGROUND, [])
    case ReadRegister8(r) => BdmCommand(1, 1, ReadOpcode8(r), [])
    case ReadRegister16(r) => BdmCommand(1, 2, ReadOpcode16(r), [])
    case WriteRegister8(r, v) => BdmCommand(2, 0, WriteOpcode8(r), [v])
    case WriteRegister16(r, h, l) => BdmCommand(3, 0, WriteOpcode16(r), [h, l])
    case WriteByte(h, l, d) => BdmCommand(4, 0, Opcodes.WRITE_BYTE, [h, l, d])
    case WriteNext(d) => BdmCommand(2, 0, Opcodes.WRITE_NEXT, [d])
    case ReadByte(h, l) => BdmCommand(3, 1, Opcodes.READ_BYTE, [h, l])
    case ReadNext => BdmCommand(1, 1, Opcodes.READ_NEXT, [])
  }

  /** The per-wrapper (send, receive) byte counts and command bytes of bdm.c. */
  lemma CommandTable(op: Operation)
    ensures op.ReadRegister8? ==> CommandOf(op).txBytes == 1 && CommandOf(op).rxBytes == 1
    ensures op.ReadRegister16? ==> CommandOf(op).txBytes == 1 && CommandOf(op).rxBytes == 2
    ensures op.WriteRegister8? ==> CommandOf(op).txBytes == 2 && CommandOf(op).rxBytes == 0
    ensures op.WriteRegister16? ==> CommandOf(op).txBytes == 3 && CommandOf(op).rxBytes == 0
    ensures op.WriteByte? ==> CommandOf(op) == BdmCommand(4, 0, 0xC0, [op.addrHigh, op.addrLow, op.data])
    ensures op.ReadByte? ==> CommandOf(op) == BdmCommand(3, 1, 0xE0, [op.readHigh, op.readLow])
    ensures op.ReadNext? ==> CommandOf(op) == BdmCommand(1, 1, 0x70, [])
    ensures op.WriteNext? ==> CommandOf(op) == BdmCommand(2, 0, 0x50, [op.nextData])
    ensures op.Go? || op.Halt? ==> CommandOf(op).txBytes == 1 && CommandOf(op).rxBytes == 0
    ensures op.ReadStatus? ==> CommandOf(op) == BdmCommand(1, 1, 0xE4, [])
  {
  }

  /** A command whose layout the engine can send: the command byte and its
      parameters, four bytes at most, and at most two bytes back. */
  predicate WellFormed(cmd: BdmCommand)
  {
    cmd.txBytes == 1 + |cmd.params| <= 4 && cmd.rxBytes <= 2
  }

  /** Lay out a command in the data buffer and run it. */
  function IssueCommand(e: Engine, hw: Hardware, cmd: BdmCommand): (r: Exchange)
    requires Valid(e) && WellFormed(cmd)
    ensures Valid(r.engine)
    ensures r.engine.smClaimed && r.engine.freqKnown && r.engine.dataProgramLoaded
    ensures HasClaim(r.events) <==> !e.smClaimed
    ensures HasSync(r.events) <==> !e.freqKnown
    ensures HasLoad(r.events) <==> !e.freqKnown || !e.dataProgramLoaded
    ensures |r.events| == InitSteps(e) + 1
    ensures !e.freqKnown ==> (r.engine.ticks == hw.syncTicks % 0x1_0000
                              && r.events[|r.events| - 3] == RunSync(hw.syncTicks)
                              && r.events[|r.events| - 2] == LoadDataProgram(MeasuredBySync(hw.syncTicks % 0x1_0000)))
    ensures e.freqKnown ==> r.engine.ticks == e.ticks && r.engine.pioFreq == e.pioFreq
    ensures e.freqKnown && !e.dataProgramLoaded ==> r.events[|r.events| - 2] == LoadDataProgram(e.pioFreq)
    ensures Sent(r.events, cmd)
    ensures r.received == hw.reply(Pack([cmd.opcode] + cmd.params), BYTE * cmd.txBytes, BYTE * cmd.rxBytes)
  {
    var e' := e.(dataBuffer := Store(e.dataBuffer, cmd).buffer);
    StoreThenMakeData(e.dataBuffer, cmd);
    Exec(e', hw)
  }

  /** Run the transaction of one wrapper. */
  function Issue(e: Engine, hw: Hardware, op: Operation): (r: Exchange)
    requires Valid(e)
    ensures Valid(r.engine)
    ensures r.engine.smClaimed && r.engine.freqKnown && r.engine.dataProgramLoaded
    ensures HasClaim(r.events) <==> !e.smClaimed
    ensures HasSync(r.events) <==> !e.freqKnown
    ensures HasLoad(r.events) <==> !e.freqKnown || !e.dataProgramLoaded
    ensures |r.events| == InitSteps(e) + 1
    ensures !e.freqKnown ==> (r.engine.ticks == hw.syncTicks % 0x1_0000
                              && r.events[|r.events| - 3] == RunSync(hw.syncTicks)
                              && r.events[|r.events| - 2] == LoadDataProgram(MeasuredBySync(hw.syncTicks % 0x1_0000)))
    ensures e.freqKnown ==> r.engine.ticks == e.ticks && r.engine.pioFreq == e.pioFreq
    ensures e.freqKnown && !e.dataProgramLoaded ==> r.events[|r.events| - 2] == LoadDataProgram(e.pioFreq)
    ensures Sent(r.events, CommandOf(op))
    ensures r.received == hw.reply(Pack([CommandOf(op).opcode] + CommandOf(op).params),
                                   BYTE * CommandOf(op).txBytes, BYTE * CommandOf(op).rxBytes)
  {
    IssueCommand(e, hw, CommandOf(op))
  }

  /** A layout of at most four bytes stored in the data buffer reads back,
      through _make_data, as exactly the command byte then the parameters. */
  lemma StoreThenMakeData(buffer: seq<Byte>, cmd: BdmCommand)
    requires |buffer| == DATA_BUFFER_SIZE && WellFormed(cmd)
    ensures Store(buffer, cmd).Stored?
    ensures TxInBuffer(Store(buffer, cmd).buffer)
    ensures Store(buffer, cmd).buffer[TX_BYTE_COUNT] == cmd.txBytes
    ensures RxBits(Store(buffer, cmd).buffer) == BYTE * cmd.rxBytes
    ensures MakeData(Store(buffer, cmd).buffer) == Pack([cmd.opcode] + cmd.params)
  {
    var b := Store(buffer, cmd).buffer;
    assert b[COMMAND..COMMAND + b[TX_BYTE_COUNT]] == [cmd.opcode] + cmd.params;
  }

  /** The last event sends the command byte and its parameters, most
      significant first, with 8 bits per byte each way. */
  predicate Sent(events: seq<Event>, cmd: BdmCommand)
  {
    |events| >= 1
    && events[|events| - 1]
       == Transfer(Pack([cmd.opcode] + cmd.params), BYTE * cmd.txBytes, BYTE * cmd.rxBytes)
  }

  /** What a wrapper hands back: the engine, the USB command buffer and the
      events. */
  datatype Reply = Reply(engine: Engine, buffer: seq<Byte>, events: seq<Event>)

  /** bdm_cmd_read_status: the status byte goes to command_buffer[4] only. */
  function ReadStatusRegister(e: Engine, hw: Hardware, commandBuffer: seq<Byte>): (r: Reply)
    requires Valid(e) && |commandBuffer| >= 5
    ensures Valid(r.engine) && Sent(r.events, CommandOf(ReadStatus))
    ensures |r.buffer| == |commandBuffer|
    ensures r.buffer[4] == hw.reply(Opcodes.READ_STATUS, 8, 8) % 256
    ensures forall i :: 0 <= i < |commandBuffer| && i != 4 ==> r.buffer[i] == commandBuffer[i]
  {
    var x := Issue(e, hw, ReadStatus);
    PackSingle(Opcodes.READ_STATUS);
    Reply(x.engine, commandBuffer[4 := x.received % 256], x.events)
  }

  /** bdm_cmd_read_a, bdm_cmd_read_ccr: 0 in command_buffer[3], the register in [4]. */
  function ReadReg8(e: Engine, hw: Hardware, reg: Reg8, commandBuffer: seq<Byte>): (r: Reply)
    requires Valid(e) && |commandBuffer| >= 5
    ensures Valid(r.engine) && Sent(r.events, CommandOf(ReadRegister8(reg)))
    ensures |r.buffer| == |commandBuffer|
    ensures r.buffer[3] == 0
    ensures r.buffer[4] == hw.reply(ReadOpcode8(reg), 8, 8) % 256
    ensures forall i :: 0 <= i < |commandBuffer| && i != 3 && i != 4 ==> r.buffer[i] == commandBuffer[i]
  {
    assert CommandOf(ReadRegister8(reg)) == BdmCommand(1, 1, ReadOpcode8(reg), []);
    var x := Issue(e, hw, ReadRegister8(reg));
    var low: Byte := x.received % 256;
    assert low == hw.reply(ReadOpcode8(reg), 8, 8) % 256 by {
      PackSingle(ReadOpcode8(reg));
      assert [ReadOpcode8(reg)] + [] == [ReadOpcode8(reg)];
    }
    Reply(x.engine, commandBuffer[3 := 0][4 := low], x.events)
  }

  /** bdm_cmd_read_pc, _hx, _sp: the 16-bit value, high byte in
      command_buffer[3] and low byte in [4]. */
  function ReadReg16(e: Engine, hw: Hardware, reg: Reg16, commandBuffer: seq<Byte>): (r: Reply)
    requires Valid(e) && |commandBuffer| >= 5
    ensures Valid(r.engine) && Sent(r.events, CommandOf(ReadRegister16(reg)))
    ensures |r.buffer| == |commandBuffer|
    ensures (r.buffer[3] as int) * 256 + r.buffer[4] == hw.reply(ReadOpcode16(reg), 8, 16) % 0x1_0000
    ensures forall i :: 0 <= i < |commandBuffer| && i != 3 && i != 4 ==> r.buffer[i] == commandBuffer[i]
  {
    assert CommandOf(ReadRegister16(reg)) == BdmCommand(1, 2, ReadOpcode16(reg), []);
    var x := Issue(e, hw, ReadRegister16(reg));
    var value: Half := x.received % 0x1_0000;
    assert value == hw.reply(ReadOpcode16(reg), 8, 16) % 0x1_0000 by {
      PackSingle(ReadOpcode16(reg));
      assert [ReadOpcode16(reg)] + [] == [ReadOpcode16(reg)];
    }
    var high: Byte := value / 256;
    var low: Byte := value % 256;
    assert high * 256 + low == value;
    Reply(x.engine, commandBuffer[3 := high][4 := low], x.events)
  }

  /** bdm_cmd_write_a, _ccr: the register value is command_buffer[7]. */
  function WriteReg8(e: Engine, hw: Hardware, reg: Reg8, commandBuffer: seq<Byte>): (r: Exchange)
    requires Valid(e) && |commandBuffer| >= 8
    ensures Valid(r.engine)
    ensures Sent(r.events, BdmCommand(2, 0, WriteOpcode8(reg), [commandBuffer[7]]))
  {
    assert CommandOf(WriteRegister8(reg, commandBuffer[7])) == BdmCommand(2, 0, WriteOpcode8(reg), [commandBuffer[7]]);
    Issue(e, hw, WriteRegister8(reg, commandBuffer[7]))
  }

  /** bdm_cmd_write_pc, _hx, _sp: the value is command_buffer[6] (high) then [7] (low). */
  function WriteReg16(e: Engine, hw: Hardware, reg: Reg16, commandBuffer: seq<Byte>): (r: Exchange)
    requires Valid(e) && |commandBuffer| >= 8
    ensures Valid(r.engine)
    ensures Sent(r.events, BdmCommand(3, 0, WriteOpcode16(reg), [commandBuffer[6], commandBuffer[7]]))
  {
    assert CommandOf(WriteRegister16(reg, commandBuffer[6], commandBuffer[7])) == BdmCommand(3, 0, WriteOpcode16(reg), [commandBuffer[6], commandBuffer[7]]);
    Issue(e, hw, WriteRegister16(reg, commandBuffer[6], commandBuffer[7]))
  }

  /** bdm_cmd_go: after resuming the target the frequency is no longer known. */
  function GoCommand(e: Engine, hw: Hardware): (r: Exchange)
    requires Valid(e)
    ensures Valid(r.engine) && Sent(r.events, CommandOf(Go))
    ensures r.engine.smClaimed && r.engine.dataProgramLoaded && !r.engine.freqKnown
    ensures e.freqKnown ==> r.engine.ticks == e.ticks && r.engine.pioFreq == e.pioFreq
    ensures !e.freqKnown ==> r.engine.ticks == hw.syncTicks % 0x1_0000
  {
    var x := Issue(e, hw, Go);
    x.(engine := x.engine.(freqKnown := false))
  }

  /** bdm_cmd_halt. */
  function HaltCommand(e: Engine, hw: Hardware): (r: Exchange)
    requires Valid(e)
    ensures Valid(r.engine) && Sent(r.events, CommandOf(Halt))
    ensures r.engine.smClaimed && r.engine.dataProgramLoaded && r.engine.freqKnown
    ensures e.freqKnown ==> r.engine.ticks == e.ticks && r.engine.pioFreq == e.pioFreq
    ensures !e.freqKnown ==> r.engine.ticks == hw.syncTicks % 0x1_0000
  {
    Issue(e, hw, Halt)
  }

  /** bdm_cmd_write_byte: command, address high, address low, data in one 32-bit word. */
  function WriteMemoryByte(e: Engine, hw: Hardware, addrHigh: Byte, addrLow: Byte, data: Byte): (r: Exchange)
    requires Valid(e)
    ensures Valid(r.engine)
    ensures Sent(r.events, BdmCommand(4, 0, Opcodes.WRITE_BYTE, [addrHigh, addrLow, data]))
  {
    assert CommandOf(WriteByte(addrHigh, addrLow, data)) == BdmCommand(4, 0, Opcodes.WRITE_BYTE, [addrHigh, addrLow, data]);
    Issue(e, hw, WriteByte(addrHigh, addrLow, data))
  }

  /** bdm_cmd_write_next. */
  function WriteNextByte(e: Engine, hw: Hardware, data: Byte): (r: Exchange)
    requires Valid(e)
    ensures Valid(r.engine)
    ensures Sent(r.events, BdmCommand(2, 0, Opcodes.WRITE_NEXT, [data]))
  {
    assert CommandOf(WriteNext(data)) == BdmCommand(2, 0, Opcodes.WRITE_NEXT, [data]);
    Issue(e, hw, WriteNext(data))
  }

  /** A byte read back from target memory. */
  datatype ByteRead = ByteRead(exchange: Exchange, value: Byte)

  /** bdm_cmd_read_byte: the received word truncated to a byte. */
  function ReadMemoryByte(e: Engine, hw: Hardware, addrHigh: Byte, addrLow: Byte): (r: ByteRead)
    requires Valid(e)
    ensures Valid(r.exchange.engine)
    ensures Sent(r.exchange.events, BdmCommand(3, 1, Opcodes.READ_BYTE, [addrHigh, addrLow]))
    ensures r.value == hw.reply(Opcodes.READ_BYTE * 0x1_0000 + addrHigh * 256 + addrLow, 24, 8) % 256
  {
    assert CommandOf(ReadByte(addrHigh, addrLow)) == BdmCommand(3, 1, Opcodes.READ_BYTE, [addrHigh, addrLow]);
    var x := Issue(e, hw, ReadByte(addrHigh, addrLow));
    ReadByteWord(addrHigh, addrLow);
    ByteRead(x, x.received % 256)
  }

  /** bdm_cmd_read_next. */
  function ReadNextByte(e: Engine, hw: Hardware): (r: ByteRead)
    requires Valid(e)
    ensures Valid(r.exchange.engine)
    ensures Sent(r.exchange.events, BdmCommand(1, 1, Opcodes.READ_NEXT, []))
    ensures r.value == hw.reply(Opcodes.READ_NEXT, 8, 8) % 256
  {
    assert CommandOf(ReadNext) == BdmCommand(1, 1, Opcodes.READ_NEXT, []);
    var x := Issue(e, hw, ReadNext);
    PackSingle(Opcodes.READ_NEXT);
    ByteRead(x, x.received % 256)
  }

  lemma PackSingle(b: Byte)
    ensures Pack([b]) == b
  {
    assert [b][..0] == [];
  }

  /** The word bdm_cmd_read_byte sends: command byte, address high, address low. */
  lemma ReadByteWord(addrHigh: Byte, addrLow: Byte)
    ensures var cmd := CommandOf(ReadByte(addrHigh, addrLow));
            Pack([cmd.opcode] + cmd.params) == Opcodes.READ_BYTE * 0x1_0000 + addrHigh * 256 + addrLow
            && BYTE * cmd.txBytes == 24 && BYTE * cmd.rxBytes == 8
  {
    var cmd := CommandOf(ReadByte(addrHigh, addrLow));
    assert [cmd.opcode] + cmd.params == [Opcodes.READ_BYTE, addrHigh, addrLow];
    PackThree(Opcodes.READ_BYTE, addrHigh, addrLow);
  }

  lemma PackThree(a: Byte, b: Byte, c: Byte)
    ensures Pack([a, b, c]) == a * 0x1_0000 + b * 256 + c
  {
    ThreeByteWord(a, b, c);
    MakeDataExact([a, b, c]);
  }

  lemma ThreeByteWord(a: Byte, b: Byte, c: Byte)
    ensures BigEndian([a, b, c], 256) == a * 0x1_0000 + b * 256 + c
  {
    assert [a, b, c][..2] == [a, b];
    assert [a, b][..1] == [a];
    assert [a][..0] == [];
    assert BigEndian([a], 256) == a;
    assert BigEndian([a, b], 256) == a * 256 + b;
    assert BigEndian([a, b, c], 256) == (a * 256 + b) * 256 + c;
  }

  // ---------------------------------------------------------------------------
  // Properties of the lazy initialisation
  // ---------------------------------------------------------------------------

  /** The first transaction after power-up claims the state machine, runs
      SYNC, loads the data program at the measured frequency and only then
      transmits. */
  lemma FirstTransactionInitialises(hw: Hardware, op: Operation)
    ensures var r := Issue(Boot(), hw, op);
            |r.events| == 4
            && r.events[0] == ClaimSm
            && r.events[1] == RunSync(hw.syncTicks)
            && r.events[2] == LoadDataProgram(MeasuredBySync(hw.syncTicks % 0x1_0000))
            && r.events[3] == Transfer(Pack([CommandOf(op).opcode] + CommandOf(op).params),
                                       BYTE * CommandOf(op).txBytes, BYTE * CommandOf(op).rxBytes)
  {
    var r := Issue(Boot(), hw, op);
    var i :| 0 <= i < |r.events| && r.events[i].ClaimSm?;
    assert i == 0;
  }

  /** Once everything is initialised, a transaction is a bare transfer and
      leaves the measured frequency as it was. */
  lemma WarmTransactionOnlyTransfers(e: Engine, hw: Hardware, op: Operation)
    requires Valid(e) && e.smClaimed && e.freqKnown && e.dataProgramLoaded
    ensures var r := Issue(e, hw, op);
            |r.events| == 1 && r.events[0].Transfer?
            && r.engine.ticks == e.ticks && r.engine.pioFreq == e.pioFreq
  {
  }

  /** After GO the next transaction re-synchronises, then reloads the data
      program at the newly measured frequency, then transmits. */
  lemma GoForcesResync(e: Engine, hw: Hardware, next: Hardware, op: Operation)
    requires Valid(e)
    ensures var r := Issue(GoCommand(e, hw).engine, next, op);
            |r.events| == 3
            && r.events[0] == RunSync(next.syncTicks)
            && r.events[1] == LoadDataProgram(MeasuredBySync(next.syncTicks % 0x1_0000))
            && r.events[2].Transfer?
  {
  }

  /** Nothing in the engine ever releases the state machine once claimed. */
  lemma ClaimIsPermanent(e: Engine, hw: Hardware, op: Operation)
    requires Valid(e) && e.smClaimed
    ensures Sync(e, hw).0.smClaimed
    ensures Issue(e, hw, op).engine.smClaimed
    ensures GoCommand(e, hw).engine.smClaimed
    ensures !HasClaim(Issue(e, hw, op).events)
  {
  }

  // ---------------------------------------------------------------------------
  // The word on the wire
  // ---------------------------------------------------------------------------

  /** The transfer a wrapper's transaction ends with, handed to
      do_bdm_command, pushes a word that carries the wrapper's BDM command
      byte in bits 31..24, whatever the parameters are. */
  lemma OpcodeOnWire(e: Engine, hw: Hardware, op: Operation, shiftctrl: bv32, offset: nat)
    requires Valid(e)
    ensures var events := Issue(e, hw, op).events;
            var last := events[|events| - 1];
            last.Transfer? && 1 <= last.txBits <= Pio.REG_WIDTH
            && Pio.DoBdmCommand(shiftctrl, last.data, last.txBits, last.rxBits, offset)[2].word / 0x100_0000
               == CommandOf(op).opcode
  {
    var cmd := CommandOf(op);
    var events := Issue(e, hw, op).events;
    assert events[|events| - 1] == Transfer(Pack([cmd.opcode] + cmd.params), BYTE * cmd.txBytes, BYTE * cmd.rxBytes);
    LeadingByteOnTop([cmd.opcode] + cmd.params);
  }

  /** Left-aligning 1..4 packed bytes puts the first of them in bits 31..24. */
  lemma LeadingByteOnTop(bytes: seq<Byte>)
    requires 1 <= |bytes| <= 4
    ensures Pio.Align(Pack(bytes), BYTE * |bytes|, Pio.SHIFT_RIGHT) / 0x100_0000 == bytes[0]
  {
    var n := |bytes|;
    var data := Pack(bytes);
    MakeDataExact(bytes);
    var below := Pow(2, BYTE * n);
    var up := Pow(2, Pio.REG_WIDTH - BYTE * n);
    var rest := Pow(2, BYTE * (n - 1));
    var aligned := Pio.Align(data, BYTE * n, Pio.SHIFT_RIGHT);
    DivModUnique(data, below, 0, data);
    assert aligned % up == 0 && aligned / up == data;
    PowAdd(2, Pio.REG_WIDTH - BYTE * n, BYTE * (n - 1));
    assert Pio.REG_WIDTH - BYTE * n + BYTE * (n - 1) == 24;
    PowWord24();
    assert up * rest == 0x100_0000;
    AlignedLeading(aligned, data, up, rest);
  }

  /** A word that is `data` moved up by a factor x, divided by x*y, is data / y. */
  lemma AlignedLeading(aligned: nat, data: nat, x: nat, y: nat)
    requires x > 0 && y > 0 && aligned % x == 0 && aligned / x == data
    ensures aligned / (x * y) == data / y
  {
    assert aligned == data * x;
    DivideOutPower(data, x, y);
  }

  lemma PowWord24()
    ensures Pow(2, 24) == 0x100_0000
  {
    PowBytes(3);
  }

  /** (d * x) / (x * y) == d / y. */
  lemma DivideOutPower(d: nat, x: nat, y: nat)
    requires x > 0 && y > 0
    ensures (d * x) / (x * y) == d / y
  {
    var q, rem := d / y, d % y;
    assert d * x == q * (x * y) + rem * x by {
      assert d == q * y + rem;
      assert d * x == (q * y + rem) * x;
    }
    MulMonotone(rem + 1, y, x);
    DivModUnique(d * x, x * y, q, rem * x);
  }

  // ---------------------------------------------------------------------------
  // The declared buffer length
  // ---------------------------------------------------------------------------

  /** As declared, the data buffer has MAX_BDM_COMMAND_SIZE = 5 slots, and
      bdm_cmd_write_byte's data byte is stored at slot 5, one past the end. */
  lemma WriteByteOverrunsDeclaredBuffer(addrHigh: Byte, addrLow: Byte, data: Byte)
    ensures Store(seq(MAX_BDM_COMMAND_SIZE, _ => 0), CommandOf(WriteByte(addrHigh, addrLow, data)))
         == OutOfBounds(5)
  {
  }

  /** With six slots every wrapper's layout fits, and _make_data reads back
      exactly the command byte followed by the parameters. */
  lemma EveryCommandFitsDataBuffer(buffer: seq<Byte>, op: Operation)
    requires |buffer| == DATA_BUFFER_SIZE
    ensures Store(buffer, CommandOf(op)).Stored?
    ensures var b := Store(buffer, CommandOf(op)).buffer;
            TxInBuffer(b) && MakeData(b) == BigEndian([CommandOf(op).opcode] + CommandOf(op).params, 256)
  {
    var cmd := CommandOf(op);
    var b := Store(buffer, cmd).buffer;
    assert b[COMMAND..COMMAND + b[TX_BYTE_COUNT]] == [cmd.opcode] + cmd.params;
    MakeDataExact([cmd.opcode] + cmd.params);
  }
}
