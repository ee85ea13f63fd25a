/** The register-page transport as its guest sees it: one 32-bit access at a time.

    The reference bus has no buffer and no counters of words. A data phase is either what is still to
    be read or what has been written so far, and each access says which device calls it makes. */
module NtrBus {
  import opened Words
  import opened Protocol
  import opened DeviceModel

  const PAGE_BYTES := 0x1000
  const REG_ROMCNT := 0x04
  const REG_COMMAND := 0x08
  const REG_FIFO := 0x1C

  const CARD_ACTIVATE := 0x8000_0000
  const CARD_RESET_HIGH := 0x2000_0000
  const CARD_DATA_READY := 0x80_0000
  const BLOCK_UNIT := 0x100_0000

  const BLOCK_WORDS := 128

  // ROMCNT bits 26:24.
  const BLOCK_NONE := 0
  const BLOCK_512 := 1
  const BLOCK_4 := 7

  datatype Direction = NoPhase | CartToConsole | ConsoleToCart

  datatype ExpectedPhase = ExpectedPhase(direction: Direction, bytes: u16, blockField: nat)

  function PhaseForOpcode(opcode: byte): ExpectedPhase {
    if opcode == WIRE_READ_REG then ExpectedPhase(CartToConsole, 4, BLOCK_4)
    else if opcode == WIRE_READ_BLOCK then ExpectedPhase(CartToConsole, BLOCK_BYTES, BLOCK_512)
    else if opcode == WIRE_WRITE_BLOCK then ExpectedPhase(ConsoleToCart, BLOCK_BYTES, BLOCK_512)
    else ExpectedPhase(NoPhase, 0, BLOCK_NONE)
  }

  predicate Activates(romcnt: u32) { romcnt >= CARD_ACTIVATE }

  predicate Ready(romcnt: u32) { romcnt / CARD_DATA_READY % 2 == 1 }

  function BlockField(romcnt: u32): nat { romcnt / BLOCK_UNIT % 8 }

  function WithReady(romcnt: u32): u32 {
    if Ready(romcnt) then romcnt else Wrap32(romcnt + CARD_DATA_READY)
  }

  /** Activate and data-ready cleared. */
  function Released(romcnt: u32): u32 {
    var low := if Activates(romcnt) then romcnt - CARD_ACTIVATE else romcnt;
    if Ready(low) then Wrap32(low - CARD_DATA_READY) else low
  }

  datatype Fault = NoFault | BlockSizeMismatch | FifoOutOfPhase

  type Page = p: seq<byte> | |p| == PAGE_BYTES witness Zeros(PAGE_BYTES)

  function Load32(page: Page, offset: nat): u32
    requires offset + 4 <= PAGE_BYTES
  {
    Le32(page[offset], page[offset + 1], page[offset + 2], page[offset + 3])
  }

  function Store32(page: Page, offset: nat, value: u32): Page {
    Splice(page, offset, BytesOf([value]))
  }

  /** What remains to be read, or what has been written since the command was latched. */
  datatype Phase =
    | Idle
    | Reading(words: seq<u32>)
    | Writing(index: byte, word: u32, got: seq<u32>)

  datatype Bus = Bus(page: Page, phase: Phase, fault: Fault, faults: u32, commands: u64)

  datatype Access = LoadAt(offset: u32) | StoreAt(offset: u32, value: u32)

  predicate InPage(offset: u32) { offset + 4 <= PAGE_BYTES }

  function Command(page: Page): WireCommand { DecodeCommand(page[REG_COMMAND..REG_COMMAND + 8]) }

  /** The access raises activate while no transfer is open. */
  predicate Starts(b: Bus, a: Access) {
    a.StoreAt? && a.offset == REG_ROMCNT && Activates(a.value) && b.phase == Idle
  }

  predicate Accepts(cmd: WireCommand, romcnt: u32) {
    cmd.valid && BlockField(romcnt) == PhaseForOpcode(cmd.opcode).blockField
  }

  /** The device call of a command at the moment it is accepted. F4 makes its own later. */
  function CallsOfCommand(cmd: WireCommand): seq<Op> {
    if cmd.opcode == WIRE_WRITE_REG then [OpWriteReg(cmd.index, cmd.word)]
    else if cmd.opcode == WIRE_EXEC then [OpExec(cmd.index, cmd.word)]
    else if cmd.opcode == WIRE_WRITE_PAYLOAD_WORD then [OpWritePayloadWord(cmd.index, cmd.word)]
    else if cmd.opcode == WIRE_READ_REG then [OpReadReg(cmd.index)]
    else if cmd.opcode == WIRE_READ_BLOCK then [OpReadBlock(cmd.index, cmd.word, Some(BLOCK_BYTES))]
    else []
  }

  /** The atomic device calls one access makes. */
  function Calls(b: Bus, a: Access): seq<Op> {
    if Starts(b, a) then
      var cmd := Command(b.page);
      [OpCountTransfer] + (if Accepts(cmd, a.value) then CallsOfCommand(cmd) else [])
    else if a.StoreAt? && a.offset == REG_FIFO && b.phase.Writing? && |b.phase.got| + 1 >= BLOCK_WORDS then
      [OpWriteBlock(b.phase.index, b.phase.word, Some(BytesOf(b.phase.got + [a.value])))]
    else []
  }

  /** The data phase an accepted command opens. */
  function OpenedPhase(cmd: WireCommand, d: DeviceState): Phase {
    if cmd.opcode == WIRE_READ_REG then Reading([ReadReg(d, cmd.index)])
    else if cmd.opcode == WIRE_READ_BLOCK then
      Reading(WordsOf(ReadBlockBytes(d, cmd.index, cmd.word, BLOCK_BYTES)))
    else if cmd.opcode == WIRE_WRITE_BLOCK then Writing(cmd.index, cmd.word, [])
    else Idle
  }

  function EndTransfer(b: Bus): Bus {
    b.(phase := Idle, page := Store32(b.page, REG_ROMCNT, Released(Load32(b.page, REG_ROMCNT))))
  }

  function Faulted(b: Bus, fault: Fault): Bus {
    b.(fault := fault, faults := Wrap32(b.faults + 1))
  }

  /** The bus after ROMCNT has been written with activate set, in device state d. */
  function Started(b: Bus, d: DeviceState): Bus {
    var cmd, romcnt := Command(b.page), Load32(b.page, REG_ROMCNT);
    var counted := b.(commands := Wrap64(b.commands + 1));
    if !cmd.valid then EndTransfer(counted)
    else if !Accepts(cmd, romcnt) then EndTransfer(Faulted(counted, BlockSizeMismatch))
    else if OpenedPhase(cmd, d) == Idle then EndTransfer(counted)
    else counted.(phase := OpenedPhase(cmd, d), page := Store32(b.page, REG_ROMCNT, WithReady(romcnt)))
  }

  function AfterFifoRead(b: Bus): Bus {
    if !b.phase.Reading? || b.phase.words == [] then Faulted(b, FifoOutOfPhase)
    else
      var rest := b.phase.words[1..];
      if rest == [] then EndTransfer(b) else b.(phase := Reading(rest))
  }

  function AfterFifoWrite(b: Bus, value: u32): Bus {
    if !b.phase.Writing? then Faulted(b, FifoOutOfPhase)
    else if |b.phase.got| + 1 >= BLOCK_WORDS then EndTransfer(b)
    else b.(phase := b.phase.(got := b.phase.got + [value]))
  }

  function Next(b: Bus, d: DeviceState, a: Access): Bus {
    match a
    case LoadAt(offset) => if offset == REG_FIFO then AfterFifoRead(b) else b
    case StoreAt(offset, value) =>
      if !InPage(offset) then b
      else if offset == REG_FIFO then AfterFifoWrite(b, value)
      else
        var stored := b.(page := Store32(b.page, offset, value));
        if Starts(b, a) then Started(stored, d) else stored
  }

  /** The value a load returns. */
  function Loaded(b: Bus, a: Access): u32 {
    if !a.LoadAt? || !InPage(a.offset) then 0
    else if a.offset == REG_FIFO then
      if b.phase.Reading? && b.phase.words != [] then b.phase.words[0] else 0
    else Load32(b.page, a.offset)
  }

  // ---------------------------------------------------------------------------
  // Whole traces
  // ---------------------------------------------------------------------------

  function NextDevice(b: Bus, d: DeviceState, a: Access): DeviceState { Run(d, Calls(b, a)) }

  function BusAfter(b: Bus, d: DeviceState, trace: seq<Access>): Bus
    decreases |trace|
  {
    if |trace| == 0 then b
    else BusAfter(Next(b, d, trace[0]), NextDevice(b, d, trace[0]), trace[1..])
  }

  function DeviceAfter(b: Bus, d: DeviceState, trace: seq<Access>): DeviceState
    decreases |trace|
  {
    if |trace| == 0 then d
    else DeviceAfter(Next(b, d, trace[0]), NextDevice(b, d, trace[0]), trace[1..])
  }

  /** All device calls of a trace, in order. */
  function CallsOfTrace(b: Bus, d: DeviceState, trace: seq<Access>): seq<Op>
    decreases |trace|
  {
    if |trace| == 0 then []
    else Calls(b, trace[0]) + CallsOfTrace(Next(b, d, trace[0]), NextDevice(b, d, trace[0]), trace[1..])
  }

  /** The calls of a trace, one access after the other, are one run. */
  lemma {:induction false} Linearised(b: Bus, d: DeviceState, trace: seq<Access>)
    ensures DeviceAfter(b, d, trace) == Run(d, CallsOfTrace(b, d, trace))
    decreases |trace|
  {
    hide Run, Calls, Next;
    if |trace| == 0 {
      RunOfNothing(d);
    } else {
      var b', d' := Next(b, d, trace[0]), NextDevice(b, d, trace[0]);
      Linearised(b', d', trace[1..]);
      RunConcat(d, Calls(b, trace[0]), CallsOfTrace(b', d', trace[1..]));
    }
  }

  lemma RunOfNothing(d: DeviceState)
    ensures Run(d, []) == d
  {
  }

  /** An access that raises a fault, or starts a command that is not accepted, at most counts a
      transfer. */
  lemma FaultsAreHarmless(b: Bus, d: DeviceState, a: Access)
    requires Next(b, d, a).faults != b.faults || (Starts(b, a) && !Accepts(Command(b.page), a.value))
    ensures NextDevice(b, d, a) == d || NextDevice(b, d, a) == Step(d, OpCountTransfer)
  {
    hide Step, Store32, Load32, Released, WithReady;
    RunOfNothing(d);
    RunOfOne(d, OpCountTransfer);
    if Starts(b, a) {
      var stored := b.(page := Store32(b.page, a.offset, a.value));
      CommandUnderStatus(b.page, a.value);
      assert !Accepts(Command(b.page), a.value);
      assert Calls(b, a) == [OpCountTransfer];
    }
  }

  lemma RunOfOne(d: DeviceState, op: Op)
    ensures Run(d, [op]) == Step(d, op)
  {
    hide Step;
    RunOfNothing(Step(d, op));
    assert [op][1..] == [];
  }

  /** Writing ROMCNT leaves the command registers alone and reads back. */
  lemma CommandUnderStatus(page: Page, value: u32)
    ensures Command(Store32(page, REG_ROMCNT, value)) == Command(page)
    ensures Load32(Store32(page, REG_ROMCNT, value), REG_ROMCNT) == value
  {
    StoredWord(page, REG_ROMCNT, value);
    assert Store32(page, REG_ROMCNT, value)[REG_COMMAND..REG_COMMAND + 8] == page[REG_COMMAND..REG_COMMAND + 8];
  }

  lemma StoredWord(page: Page, offset: nat, value: u32)
    requires offset + 4 <= PAGE_BYTES
    ensures Load32(Store32(page, offset, value), offset) == value
    ensures forall k | 0 <= k < PAGE_BYTES && !(offset <= k < offset + 4) ::
      Store32(page, offset, value)[k] == page[k]
    ensures Store32(page, offset, value)[offset..offset + 4] == BytesOf([value])
  {
    WordBytes(value);
    var image := BytesOf([value]);
    assert image[0] == ByteAt(value, 0) && image[1] == ByteAt(value, 1);
    assert image[2] == ByteAt(value, 2) && image[3] == ByteAt(value, 3);
    var after := Store32(page, offset, value);
    assert after[offset..offset + 4] == image;
    assert after[offset] == image[0] && after[offset + 1] == image[1];
    assert after[offset + 2] == image[2] && after[offset + 3] == image[3];
  }

  // ---------------------------------------------------------------------------
  // One F4, whatever else the guest does meanwhile
  // ---------------------------------------------------------------------------

  /** The values a trace writes to the FIFO. */
  function FifoWrites(trace: seq<Access>): seq<u32> {
    if |trace| == 0 then []
    else (if trace[0].StoreAt? && trace[0].offset == REG_FIFO then [trace[0].value] else [])
         + FifoWrites(trace[1..])
  }

  /** Until the 128th word nothing reaches the device, and the words and the latched index and word
      are kept, however the guest reads, polls or rewrites the page. */
  lemma {:induction false} OpenWriteAccumulates(b: Bus, d: DeviceState, trace: seq<Access>)
    requires b.phase.Writing? && |b.phase.got| + |FifoWrites(trace)| < BLOCK_WORDS
    ensures DeviceAfter(b, d, trace) == d
    ensures BusAfter(b, d, trace).phase
         == Writing(b.phase.index, b.phase.word, b.phase.got + FifoWrites(trace))
    decreases |trace|
  {
    hide Run, Store32;
    if |trace| == 0 {
      assert b.phase.got + [] == b.phase.got;
    } else {
      var a := trace[0];
      var b' := Next(b, d, a);
      RunOfNothing(d);
      assert Calls(b, a) == [];
      OpenWriteAccumulates(b', d, trace[1..]);
      assert b'.phase.got + FifoWrites(trace[1..]) == b.phase.got + FifoWrites(trace);
    }
  }

  lemma {:induction false} TraceConcat(b: Bus, d: DeviceState, front: seq<Access>, back: seq<Access>)
    ensures BusAfter(b, d, front + back) == BusAfter(BusAfter(b, d, front), DeviceAfter(b, d, front), back)
    ensures DeviceAfter(b, d, front + back) == DeviceAfter(BusAfter(b, d, front), DeviceAfter(b, d, front), back)
    decreases |front|
  {
    hide Next, NextDevice;
    if |front| == 0 {
      assert front + back == back;
    } else {
      assert (front + back)[0] == front[0] && (front + back)[1..] == front[1..] + back;
      TraceConcat(Next(b, d, front[0]), NextDevice(b, d, front[0]), front[1..], back);
    }
  }

  lemma OneAccess(b: Bus, d: DeviceState, a: Access)
    ensures BusAfter(b, d, [a]) == Next(b, d, a)
    ensures DeviceAfter(b, d, [a]) == NextDevice(b, d, a)
  {
    hide Next, NextDevice;
    assert [a][1..] == [];
    assert BusAfter(Next(b, d, a), NextDevice(b, d, a), []) == Next(b, d, a);
  }

  /** An F4 takes effect at its 128th FIFO word, with exactly the words written since it started and
      the index and word latched then; before that the device has only counted the transfer. */
  lemma WriteBlockIsAtomic(b: Bus, d: DeviceState, start: Access, meanwhile: seq<Access>, last: u32)
    requires Starts(b, start) && Accepts(Command(b.page), start.value)
    requires Command(b.page).opcode == WIRE_WRITE_BLOCK
    requires |FifoWrites(meanwhile)| == BLOCK_WORDS - 1
    ensures
      var cmd := Command(b.page);
      var words := FifoWrites(meanwhile) + [last];
      var counted := Step(d, OpCountTransfer);
      && DeviceAfter(b, d, [start] + meanwhile) == counted
      && DeviceAfter(b, d, [start] + meanwhile + [StoreAt(REG_FIFO, last)])
         == Step(counted, OpWriteBlock(cmd.index, cmd.word, Some(BytesOf(words))))
      && BusAfter(b, d, [start] + meanwhile + [StoreAt(REG_FIFO, last)]).phase == Idle
  {
    hide Run, Step, Store32, Load32, WithReady, Released, BytesOf;
    var cmd := Command(b.page);
    var stored := b.(page := Store32(b.page, REG_ROMCNT, start.value));
    CommandUnderStatus(b.page, start.value);
    var open, counted := Next(b, d, start), Step(d, OpCountTransfer);
    assert open.phase == Writing(cmd.index, cmd.word, []);
    assert Calls(b, start) == [OpCountTransfer];
    RunOfOne(d, OpCountTransfer);
    OneAccess(b, d, start);
    TraceConcat(b, d, [start], meanwhile);
    OpenWriteAccumulates(open, counted, meanwhile);
    var full := BusAfter(open, counted, meanwhile);
    assert [] + FifoWrites(meanwhile) == FifoWrites(meanwhile);
    TraceConcat(b, d, [start] + meanwhile, [StoreAt(REG_FIFO, last)]);
    OneAccess(full, counted, StoreAt(REG_FIFO, last));
    var op := OpWriteBlock(cmd.index, cmd.word, Some(BytesOf(FifoWrites(meanwhile) + [last])));
    assert Calls(full, StoreAt(REG_FIFO, last)) == [op];
    RunOfOne(counted, op);
  }

  // ---------------------------------------------------------------------------
  // Bounds of an open transfer
  // ---------------------------------------------------------------------------

  /** An open transfer has at least one word and at most a block of them to go. */
  predicate Bounded(b: Bus) {
    match b.phase
    case Idle => true
    case Reading(words) => 0 < |words| <= BLOCK_WORDS
    case Writing(_, _, got) => |got| < BLOCK_WORDS
  }

  lemma NextKeepsBounded(b: Bus, d: DeviceState, a: Access)
    requires Bounded(b)
    ensures Bounded(Next(b, d, a))
  {
    hide Store32, Load32, WithReady, Released, ReadBlockBytes, ReadReg;
  }

  lemma {:induction false} TraceKeepsBounded(b: Bus, d: DeviceState, trace: seq<Access>)
    requires Bounded(b)
    ensures Bounded(BusAfter(b, d, trace))
    decreases |trace|
  {
    hide Next, NextDevice;
    if |trace| > 0 {
      NextKeepsBounded(b, d, trace[0]);
      TraceKeepsBounded(Next(b, d, trace[0]), NextDevice(b, d, trace[0]), trace[1..]);
    }
  }
}
