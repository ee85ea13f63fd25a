/** The register-page transport and the DSpico firmware present the same device.

    The register page is driven the way the conformance harness drives it: stage the command, raise
    activate with the block size of the opcode, poll data-ready before every word. */
module Conformance {
  import opened Words
  import opened Protocol
  import opened Timing
  import Checksum
  import opened DeviceModel
  import opened NtrBus
  import opened DspicoModel

  type Block = d: seq<byte> | |d| == BLOCK_BYTES witness Zeros(BLOCK_BYTES)

  datatype Transaction = Transaction(command: CommandBytes, data: Block)

  datatype Issued = Issued(bus: Bus, device: DeviceState, ok: bool, out: seq<byte>)

  // ---------------------------------------------------------------------------
  // The guest's side of one transaction on the register page
  // ---------------------------------------------------------------------------

  function CommandWord(command: CommandBytes, at: nat): u32
    requires at + 4 <= 8
  {
    Le32(command[at], command[at + 1], command[at + 2], command[at + 3])
  }

  function StartStatus(opcode: byte): u32 {
    CARD_RESET_HIGH + CARD_ACTIVATE + BLOCK_UNIT * PhaseForOpcode(opcode).blockField
  }

  /** Offers a word and takes it, n times; gives up as soon as no word is offered. */
  function ReadPhase(b: Bus, d: DeviceState, n: nat): (Bus, bool, seq<u32>)
    decreases n
  {
    if n == 0 then (b, true, [])
    else if !Ready(Load32(b.page, REG_ROMCNT)) then (b, false, [])
    else
      var a := LoadAt(REG_FIFO);
      var (b', ok, words) := ReadPhase(Next(b, d, a), d, n - 1);
      (b', ok, [Loaded(b, a)] + words)
  }

  function WritePhase(b: Bus, d: DeviceState, words: seq<u32>): (Bus, DeviceState, bool)
    decreases |words|
  {
    if |words| == 0 then (b, d, true)
    else if !Ready(Load32(b.page, REG_ROMCNT)) then (b, d, false)
    else
      var a := StoreAt(REG_FIFO, words[0]);
      WritePhase(Next(b, d, a), NextDevice(b, d, a), words[1..])
  }

  function Staging(command: CommandBytes): seq<Access> {
    [StoreAt(REG_COMMAND, CommandWord(command, 0)),
     StoreAt(REG_COMMAND + 4, CommandWord(command, 4)),
     StoreAt(REG_ROMCNT, StartStatus(command[0]))]
  }

  function PadTo(bytes: seq<byte>, n: nat): seq<byte> {
    if |bytes| >= n then bytes else bytes + Zeros(n - |bytes|)
  }

  function RegIssue(b: Bus, d: DeviceState, tx: Transaction): Issued {
    var phase := PhaseForOpcode(tx.command[0]);
    var staged := BusAfter(b, d, Staging(tx.command));
    var started := DeviceAfter(b, d, Staging(tx.command));
    if phase.direction == CartToConsole then
      var (b', ok, words) := ReadPhase(staged, started, phase.bytes / 4);
      Issued(b', started, ok && !Activates(Load32(b'.page, REG_ROMCNT)), PadTo(BytesOf(words), phase.bytes))
    else if phase.direction == ConsoleToCart then
      var (b', d', ok) := WritePhase(staged, started, WordsOf(tx.data));
      Issued(b', d', ok && !Activates(Load32(b'.page, REG_ROMCNT)), [])
    else
      Issued(staged, started, !Activates(Load32(staged.page, REG_ROMCNT)), [])
  }

  // ---------------------------------------------------------------------------
  // What the register page does with a well-driven transaction
  // ---------------------------------------------------------------------------

  lemma StatusWord(opcode: byte)
    ensures Activates(StartStatus(opcode)) && BlockField(StartStatus(opcode)) == PhaseForOpcode(opcode).blockField
  {
  }

  lemma ReleasedIsQuiet(v: u32)
    ensures !Activates(Released(v)) && !Ready(Released(v))
  {
    var low := if Activates(v) then v - CARD_ACTIVATE else v;
    if Ready(low) {
      assert (low - CARD_DATA_READY) / CARD_DATA_READY == low / CARD_DATA_READY - 1;
    }
  }

  lemma WithReadyIsReady(v: u32)
    ensures Ready(WithReady(v))
  {
    if !Ready(v) {
      assert (v + CARD_DATA_READY) / CARD_DATA_READY == v / CARD_DATA_READY + 1;
      assert v / CARD_DATA_READY <= 511;
      assert v / CARD_DATA_READY != 511;
    }
  }

  /** After the first two stores the page holds the command, and nothing has happened. */
  lemma StagedCommand(b: Bus, d: DeviceState, command: CommandBytes)
    requires b.phase == Idle
    ensures
      var page := Store32(Store32(b.page, REG_COMMAND, CommandWord(command, 0)), REG_COMMAND + 4, CommandWord(command, 4));
      && page[REG_COMMAND..REG_COMMAND + 8] == command
      && BusAfter(b, d, Staging(command)[..2]) == b.(page := page)
      && DeviceAfter(b, d, Staging(command)[..2]) == d
  {
    var a0, a1 := Staging(command)[0], Staging(command)[1];
    var page1 := Store32(b.page, REG_COMMAND, CommandWord(command, 0));
    var page2 := Store32(page1, REG_COMMAND + 4, CommandWord(command, 4));
    StoredWord(b.page, REG_COMMAND, CommandWord(command, 0));
    StoredWord(page1, REG_COMMAND + 4, CommandWord(command, 4));
    BytesWord(command[0], command[1], command[2], command[3]);
    BytesWord(command[4], command[5], command[6], command[7]);
    CommandImage(command, page1, page2);
    hide Store32, BytesOf, CommandWord, Run;
    RunOfNothing(d);
    assert Staging(command)[..2] == [a0] + [a1];
    OneAccess(b, d, a0);
    TraceConcat(b, d, [a0], [a1]);
    OneAccess(b.(page := page1), d, a1);
  }

  lemma FourBytes(bs: seq<byte>)
    requires |bs| == 4
    ensures BytesOf([Le32(bs[0], bs[1], bs[2], bs[3])]) == bs
  {
    BytesOfWordsOf(bs);
    assert WordsOf(bs) == [Le32(bs[0], bs[1], bs[2], bs[3])];
  }

  lemma CommandImage(command: CommandBytes, page1: Page, page2: Page)
    requires page1[REG_COMMAND..REG_COMMAND + 4] == BytesOf([CommandWord(command, 0)])
    requires page2[REG_COMMAND + 4..REG_COMMAND + 8] == BytesOf([CommandWord(command, 4)])
    requires forall k | REG_COMMAND <= k < REG_COMMAND + 4 :: page2[k] == page1[k]
    ensures page2[REG_COMMAND..REG_COMMAND + 8] == command
  {
    FourBytes(command[..4]);
    FourBytes(command[4..]);
    hide BytesOf;
    assert page2[REG_COMMAND..REG_COMMAND + 4] == page1[REG_COMMAND..REG_COMMAND + 4];
    assert page2[REG_COMMAND..REG_COMMAND + 8]
        == page2[REG_COMMAND..REG_COMMAND + 4] + page2[REG_COMMAND + 4..REG_COMMAND + 8];
    assert command == command[..4] + command[4..];
  }

  /** The start of a well-driven transaction: the command is counted and, if it is GekkoPAK's, run. */
  lemma StartedTransaction(b: Bus, d: DeviceState, command: CommandBytes)
    requires b.phase == Idle
    ensures
      var cmd := DecodeCommand(command);
      var b' := BusAfter(b, d, Staging(command));
      && DeviceAfter(b, d, Staging(command))
         == Run(Step(d, OpCountTransfer), if cmd.valid then CallsOfCommand(cmd) else [])
      && b'.phase == (if cmd.valid then OpenedPhase(cmd, d) else Idle)
      && (b'.phase == Idle ==> !Activates(Load32(b'.page, REG_ROMCNT)) && !Ready(Load32(b'.page, REG_ROMCNT)))
      && (b'.phase != Idle ==> Ready(Load32(b'.page, REG_ROMCNT)))
  {
    var status := StartStatus(command[0]);
    var a := StoreAt(REG_ROMCNT, status);
    StatusWord(command[0]);
    StagedCommand(b, d, command);
    var staged := BusAfter(b, d, Staging(command)[..2]);
    var stored := staged.(page := Store32(staged.page, REG_ROMCNT, status));
    CommandUnderStatus(staged.page, status);
    ReleasedIsQuiet(status);
    WithReadyIsReady(status);
    StoredWord(stored.page, REG_ROMCNT, Released(status));
    StoredWord(stored.page, REG_ROMCNT, WithReady(status));
    hide Store32, Load32, Run, Step, Released, WithReady, OpenedPhase, CallsOfCommand, StartStatus, CommandWord,
         PhaseForOpcode, Ready, Activates, BlockField;
    assert Staging(command) == Staging(command)[..2] + [a];
    TraceConcat(b, d, Staging(command)[..2], [a]);
    OneAccess(staged, d, a);
    assert Starts(staged, a);
    var cmd := Command(staged.page);
    assert cmd == DecodeCommand(command);
    RegisterCalls(staged, d, a, cmd);
    assert Next(staged, d, a) == Started(stored, d);
  }

  lemma RegisterCalls(b: Bus, d: DeviceState, a: Access, cmd: WireCommand)
    requires Starts(b, a) && Command(b.page) == cmd
    requires BlockField(a.value) == PhaseForOpcode(cmd.opcode).blockField
    ensures NextDevice(b, d, a) == Run(Step(d, OpCountTransfer), if cmd.valid then CallsOfCommand(cmd) else [])
  {
    hide Step, CallsOfCommand;
    var ops := if cmd.valid then CallsOfCommand(cmd) else [];
    assert Calls(b, a) == [OpCountTransfer] + ops;
    RunConcat(d, [OpCountTransfer], ops);
    RunOfOne(d, OpCountTransfer);
  }

  lemma ReadOne(b: Bus, d: DeviceState)
    requires b.phase.Reading? && b.phase.words != []
    ensures Loaded(b, LoadAt(REG_FIFO)) == b.phase.words[0]
    ensures Next(b, d, LoadAt(REG_FIFO)) ==
      if |b.phase.words| == 1 then EndTransfer(b) else b.(phase := Reading(b.phase.words[1..]))
  {
    hide EndTransfer;
  }

  lemma EndIsQuiet(b: Bus)
    ensures
      var after := Load32(EndTransfer(b).page, REG_ROMCNT);
      EndTransfer(b).phase == Idle && !Activates(after) && !Ready(after)
  {
    var v := Load32(b.page, REG_ROMCNT);
    StoredWord(b.page, REG_ROMCNT, Released(v));
    ReleasedIsQuiet(v);
  }

  lemma {:induction false} ReadsAllWords(b: Bus, d: DeviceState, n: nat)
    requires b.phase.Reading? && |b.phase.words| == n > 0
    requires Ready(Load32(b.page, REG_ROMCNT))
    ensures ReadPhase(b, d, n) == (EndTransfer(b), true, b.phase.words)
    decreases n
  {
    hide EndTransfer, Load32, Next, Loaded, Ready;
    ReadOne(b, d);
    var b' := Next(b, d, LoadAt(REG_FIFO));
    if n == 1 {
      assert ReadPhase(b', d, 0) == (b', true, []);
      assert [b.phase.words[0]] + [] == b.phase.words;
    } else {
      ReadsAllWords(b', d, n - 1);
      assert [b.phase.words[0]] + b.phase.words[1..] == b.phase.words;
      EndForgetsPhase(b, b'.phase);
    }
  }

  lemma EndForgetsPhase(b: Bus, phase: Phase)
    ensures EndTransfer(b.(phase := phase)) == EndTransfer(b)
  {
  }

  lemma {:induction false} WritesAllWords(b: Bus, d: DeviceState, words: seq<u32>)
    requires b.phase.Writing? && |words| > 0 && |b.phase.got| + |words| == BLOCK_WORDS
    requires Ready(Load32(b.page, REG_ROMCNT))
    ensures WritePhase(b, d, words) ==
      (EndTransfer(b), Step(d, OpWriteBlock(b.phase.index, b.phase.word, Some(BytesOf(b.phase.got + words)))), true)
    decreases |words|
  {
    hide EndTransfer, Load32, Step, BytesOf, Ready;
    var a := StoreAt(REG_FIFO, words[0]);
    var b', d' := Next(b, d, a), NextDevice(b, d, a);
    assert words == [words[0]] + words[1..];
    if |words| == 1 {
      assert words == [words[0]];
      RunOfOne(d, OpWriteBlock(b.phase.index, b.phase.word, Some(BytesOf(b.phase.got + words))));
      assert WritePhase(b', d', []) == (b', d', true);
    } else {
      RunOfNothing(d);
      WritesAllWords(b', d', words[1..]);
      assert b'.phase.got + words[1..] == b.phase.got + words;
      EndForgetsPhase(b, b'.phase);
    }
  }

  // ---------------------------------------------------------------------------
  // One transaction on each target
  // ---------------------------------------------------------------------------

  /** The device after a valid command, as one atomic operation. */
  function AtomicOp(cmd: WireCommand, data: Block): seq<Op> {
    if cmd.opcode == WIRE_WRITE_BLOCK then [OpWriteBlock(cmd.index, cmd.word, Some(data))] else CallsOfCommand(cmd)
  }

  function ExpectedOut(d: DeviceState, cmd: WireCommand): seq<byte> {
    if !cmd.valid then Zeros(PhaseOutBytes(cmd))
    else if cmd.opcode == WIRE_READ_REG then BytesOf([ReadReg(d, cmd.index)])
    else if cmd.opcode == WIRE_READ_BLOCK then ReadBlockBytes(d, cmd.index, cmd.word, BLOCK_BYTES)
    else []
  }

  function PhaseOutBytes(cmd: WireCommand): nat {
    if PhaseForOpcode(cmd.opcode).direction == CartToConsole then PhaseForOpcode(cmd.opcode).bytes else 0
  }

  /** A well-driven transaction makes exactly one atomic device call besides the count, closes its
      transfer, and succeeds unless foreign traffic asks for a data phase. */
  lemma RegIssueIsAtomic(b: Bus, d: DeviceState, tx: Transaction)
    requires b.phase == Idle
    ensures
      var cmd := DecodeCommand(tx.command);
      var r := RegIssue(b, d, tx);
      && r.bus.phase == Idle
      && r.device == Run(Step(d, OpCountTransfer), if cmd.valid then AtomicOp(cmd, tx.data) else [])
      && r.out == ExpectedOut(d, cmd)
      && (r.ok <==> cmd.valid || PhaseForOpcode(cmd.opcode).direction == NoPhase)
  {
    var cmd := DecodeCommand(tx.command);
    if !cmd.valid {
      ForeignIssue(b, d, tx);
    } else if PhaseForOpcode(cmd.opcode).direction == CartToConsole {
      ReadIssue(b, d, tx);
    } else if PhaseForOpcode(cmd.opcode).direction == ConsoleToCart {
      WriteIssue(b, d, tx);
    } else {
      StartedTransaction(b, d, tx.command);
    }
  }

  lemma ForeignIssue(b: Bus, d: DeviceState, tx: Transaction)
    requires b.phase == Idle && !DecodeCommand(tx.command).valid
    ensures
      var cmd := DecodeCommand(tx.command);
      var r := RegIssue(b, d, tx);
      && r.bus.phase == Idle && r.device == Run(Step(d, OpCountTransfer), [])
      && r.out == Zeros(PhaseOutBytes(cmd))
      && (r.ok <==> PhaseForOpcode(cmd.opcode).direction == NoPhase)
  {
    hide Load32, Run, Step, Staging, Activates, Ready, BusAfter, DeviceAfter, ReadPhase, WritePhase, BytesOf;
    StartedTransaction(b, d, tx.command);
    var b', d' := BusAfter(b, d, Staging(tx.command)), DeviceAfter(b, d, Staging(tx.command));
    NothingOffered(b', d', PhaseForOpcode(tx.command[0]).bytes / 4, WordsOf(tx.data));
    NoBytes();
  }

  lemma NoBytes()
    ensures BytesOf([]) == []
  {
  }

  lemma ReadIssue(b: Bus, d: DeviceState, tx: Transaction)
    requires b.phase == Idle && DecodeCommand(tx.command).valid
    requires PhaseForOpcode(tx.command[0]).direction == CartToConsole
    ensures
      var cmd := DecodeCommand(tx.command);
      var r := RegIssue(b, d, tx);
      && r.bus.phase == Idle && r.ok
      && r.device == Run(Step(d, OpCountTransfer), CallsOfCommand(cmd))
      && r.out == ExpectedOut(d, cmd)
  {
    hide Load32, Run, Step, Staging, Activates, Ready, BusAfter, DeviceAfter, ReadPhase, BytesOf,
         EndTransfer, ExpectedOut, CallsOfCommand, OpenedPhase;
    var cmd := DecodeCommand(tx.command);
    StartedTransaction(b, d, tx.command);
    var b', d' := BusAfter(b, d, Staging(tx.command)), DeviceAfter(b, d, Staging(tx.command));
    OpenedWords(cmd, d);
    EndIsQuiet(b');
    ReadsAllWords(b', d', PhaseForOpcode(cmd.opcode).bytes / 4);
  }

  lemma WriteIssue(b: Bus, d: DeviceState, tx: Transaction)
    requires b.phase == Idle && DecodeCommand(tx.command).valid
    requires PhaseForOpcode(tx.command[0]).direction == ConsoleToCart
    ensures
      var cmd := DecodeCommand(tx.command);
      var r := RegIssue(b, d, tx);
      && r.bus.phase == Idle && r.ok && r.out == []
      && r.device == Run(Step(d, OpCountTransfer), [OpWriteBlock(cmd.index, cmd.word, Some(tx.data))])
  {
    hide Load32, Run, Step, Staging, Activates, Ready, BusAfter, DeviceAfter, WritePhase, BytesOf, WordsOf,
         EndTransfer;
    var cmd := DecodeCommand(tx.command);
    var counted := Step(d, OpCountTransfer);
    var words := WordsOf(tx.data);
    StartedTransaction(b, d, tx.command);
    RunOfNothing(counted);
    var b', d' := BusAfter(b, d, Staging(tx.command)), DeviceAfter(b, d, Staging(tx.command));
    EndIsQuiet(b');
    WritesAllWords(b', d', words);
    BytesOfWordsOf(tx.data);
    assert [] + words == words;
    RunOfOne(counted, OpWriteBlock(cmd.index, cmd.word, Some(tx.data)));
  }

  /** With data-ready clear the guest moves no word at all. */
  lemma NothingOffered(b: Bus, d: DeviceState, n: nat, words: seq<u32>)
    requires !Ready(Load32(b.page, REG_ROMCNT))
    ensures n > 0 ==> ReadPhase(b, d, n) == (b, false, [])
    ensures words != [] ==> WritePhase(b, d, words) == (b, d, false)
  {
  }

  /** The words of an opened read are the bytes expected. */
  lemma OpenedWords(cmd: WireCommand, d: DeviceState)
    requires cmd.valid && PhaseForOpcode(cmd.opcode).direction == CartToConsole
    ensures
      var phase := OpenedPhase(cmd, d);
      && phase.Reading? && |phase.words| == PhaseForOpcode(cmd.opcode).bytes / 4
      && BytesOf(phase.words) == ExpectedOut(d, cmd)
  {
    hide ReadBlockBytes;
    if cmd.opcode == WIRE_READ_BLOCK {
      BytesOfWordsOf(ReadBlockBytes(d, cmd.index, cmd.word, BLOCK_BYTES));
    }
  }

  // ---------------------------------------------------------------------------
  // The transfer counter is invisible
  // ---------------------------------------------------------------------------

  /** Equal but for the number of transfers counted. */
  predicate SameDevice(s: DeviceState, t: DeviceState) {
    t == s.(transfers := t.transfers)
  }

  lemma ExecIgnoresCount(s: DeviceState, command: byte, n: u64)
    ensures Exec(s.(transfers := n), command) == Exec(s, command).(transfers := n)
  {
    hide AllocationIndex, LowestFit, FreeAllocation, JobIndex, FreeJob, LegacyModelUs, SpeedupX1000,
         Checksum.Fnv1a, Splice, Slice, Polled;
    var c := Answer(s, 0, 0, 0, 0);
    assert Answer(s.(transfers := n), 0, 0, 0, 0) == c.(transfers := n);
    DispatchIgnoresCount(c, command, n);
  }

  lemma UploadIgnoresCount(s: DeviceState, n: u64)
    ensures ExecUpload(s.(transfers := n)) == ExecUpload(s).(transfers := n)
  {
    hide Checksum.Fnv1a, Splice, Slice;
    if UploadAccepted(s) {
      var i := AllocationIndex(s.allocations, s.stage[ARG0]).value;
      var data := s.payload[..s.stage[PAYLOAD_LEN]];
      assert Store(s.(transfers := n), i, s.stage[ARG1], data) == Store(s, i, s.stage[ARG1], data).(transfers := n);
    }
  }

  lemma SubmitIgnoresCount(s: DeviceState, n: u64)
    ensures ExecSubmit(s.(transfers := n)) == ExecSubmit(s).(transfers := n)
  {
    hide AllocationIndex, FreeJob, LegacyModelUs, SpeedupX1000, Checksum.Fnv1a, Slice;
  }

  lemma AllocIgnoresCount(s: DeviceState, n: u64)
    ensures ExecAlloc(s.(transfers := n)) == ExecAlloc(s).(transfers := n)
  {
    hide AllocationIndex, LowestFit, FreeAllocation;
  }

  lemma PollIgnoresCount(s: DeviceState, n: u64)
    ensures ExecPoll(s.(transfers := n)) == ExecPoll(s).(transfers := n)
  {
    hide JobIndex, Polled;
  }

  lemma CollectIgnoresCount(s: DeviceState, n: u64)
    ensures ExecCollect(s.(transfers := n)) == ExecCollect(s).(transfers := n)
  {
    hide JobIndex;
  }

  lemma FreeIgnoresCount(s: DeviceState, n: u64)
    ensures ExecFree(s.(transfers := n)) == ExecFree(s).(transfers := n)
  {
    hide AllocationIndex;
  }

  lemma DispatchIgnoresCount(s: DeviceState, command: byte, n: u64)
    ensures Dispatch(s.(transfers := n), command) == Dispatch(s, command).(transfers := n)
  {
    hide ExecAlloc, ExecUpload, ExecSubmit, ExecPoll, ExecCollect, ExecFree;
    AllocIgnoresCount(s, n);
    UploadIgnoresCount(s, n);
    SubmitIgnoresCount(s, n);
    PollIgnoresCount(s, n);
    CollectIgnoresCount(s, n);
    FreeIgnoresCount(s, n);
  }

  lemma ItemIgnoresCount(s: DeviceState, item: Item, batch: u32, share: u32, n: u64)
    ensures
      var (s', c) := RunItem(s, item, batch, share);
      RunItem(s.(transfers := n), item, batch, share) == (s'.(transfers := n), c)
  {
    hide AllocationIndex, BlankCompletion, FreeJob, Checksum.Fnv1a, Splice, Slice;
    var t := s.(transfers := n);
    assert Deliver(t, item) == Deliver(s, item).(transfers := n);
    assert Verdict(Deliver(t, item), item) == Verdict(Deliver(s, item), item);
  }

  lemma {:induction false} ItemsIgnoreCount(s: DeviceState, items: seq<Item>, batch: u32, share: u32, n: u64)
    ensures
      var (s', cs) := RunItems(s, items, batch, share);
      RunItems(s.(transfers := n), items, batch, share) == (s'.(transfers := n), cs)
  {
    hide RunItem;
    if |items| > 0 {
      var front := items[..|items| - 1];
      ItemsIgnoreCount(s, front, batch, share, n);
      ItemIgnoresCount(RunItems(s, front, batch, share).0, items[|items| - 1], batch, share, n);
    }
  }

  lemma WriteBlockIgnoresCount(s: DeviceState, selector: byte, word: u32, data: Option<seq<byte>>, n: u64)
    ensures
      var (s', status) := WriteBlock(s, selector, word, data);
      WriteBlock(s.(transfers := n), selector, word, data) == (s'.(transfers := n), status)
  {
    hide RunItems, ParseBlock, TransportShareNs, Enqueue;
    if BlockWellFormed(selector, word, data) {
      match ParseBlock(data.value[..WriteBlockLength(word)])
      case Bad(_) =>
      case Items(items) =>
        ItemsIgnoreCount(s, items, |items|, TransportShareNs(s.config.timing, |items|), n);
    }
  }

  /** Apart from counting, no operation looks at the transfer counter or changes it. */
  lemma StepIgnoresCount(s: DeviceState, op: Op, n: u64)
    requires !op.OpCountTransfer?
    ensures Step(s.(transfers := n), op) == Step(s, op).(transfers := n)
  {
    hide Exec, WriteBlock;
    match op
    case OpExec(command, _) => ExecIgnoresCount(s, command, n);
    case OpWriteBlock(selector, word, data) => WriteBlockIgnoresCount(s, selector, word, data, n);
    case _ =>
  }

  // ---------------------------------------------------------------------------
  // Conformance
  // ---------------------------------------------------------------------------

  function DspicoIssue(fw: Firmware, tx: Transaction): Firmware {
    AfterCommand(fw, DecodeCommand(tx.command), Some(tx.data))
  }

  /** The firmware refuses an ill-formed F4 before its data phase, the register page after it; the
      device cannot tell. */
  lemma RefusedEarlyOrLate(s: DeviceState, cmd: WireCommand, data: Block)
    requires cmd.valid && cmd.opcode == WIRE_WRITE_BLOCK
    ensures !BeginsBlock(cmd) ==>
      WriteBlock(s, cmd.index, cmd.word, None) == WriteBlock(s, cmd.index, cmd.word, Some(data))
  {
    hide ProcessBlock;
  }

  /** The firmware's device makes the same atomic call. */
  lemma FirmwareIsAtomic(fw: Firmware, tx: Transaction)
    ensures
      var cmd := DecodeCommand(tx.command);
      DspicoIssue(fw, tx).device == Run(fw.device, if cmd.valid then AtomicOp(cmd, tx.data) else [])
  {
    hide DecodeCommand, Run, Exec, WriteBlock, WriteReg, WritePayloadWord, ReadBlock;
    var cmd := DecodeCommand(tx.command);
    var ops := if cmd.valid then AtomicOp(cmd, tx.data) else [];
    RunOfNothing(fw.device);
    if cmd.valid && cmd.opcode == WIRE_WRITE_BLOCK {
      RefusedEarlyOrLate(fw.device, cmd, tx.data);
      assert tx.data[..BLOCK_BYTES] == tx.data;
    }
    if ops != [] {
      RunOfOne(fw.device, ops[0]);
      assert ops == [ops[0]];
    }
  }

  lemma AtomicIgnoresCount(s: DeviceState, t: DeviceState, cmd: WireCommand, data: Block)
    requires SameDevice(s, t)
    ensures
      var ops := if cmd.valid then AtomicOp(cmd, data) else [];
      SameDevice(Run(Step(s, OpCountTransfer), ops), Run(t, ops))
  {
    var ops := if cmd.valid then AtomicOp(cmd, data) else [];
    var counted := Step(s, OpCountTransfer);
    RunOfNothing(counted);
    RunOfNothing(t);
    if ops != [] {
      assert ops == [ops[0]];
      RunOfOne(counted, ops[0]);
      RunOfOne(t, ops[0]);
      StepIgnoresCount(counted, ops[0], t.transfers);
      hide Step, Run;
    }
  }

  /** Responses depend on the transfer counter no more than states do. */
  lemma SameResponse(s: DeviceState, fw: Firmware, cmd: WireCommand)
    requires SameDevice(s, fw.device)
    ensures ExpectedOut(s, cmd) == Response(fw, cmd)
       <==> !(Diagnostic(cmd) && Counter(fw, cmd.index) != 0)
  {
    hide Image, BytesOf;
    if cmd.valid && cmd.opcode == WIRE_READ_REG {
      WordsOfBytesOf([ReadReg(s, cmd.index)]);
      WordsOfBytesOf([RegisterValue(fw, cmd)]);
      assert [ReadReg(s, cmd.index)] == [RegisterValue(fw, cmd)]
        <==> ReadReg(s, cmd.index) == RegisterValue(fw, cmd);
    } else if !cmd.valid && cmd.opcode == WIRE_READ_REG {
      ZeroWord();
    }
  }

  lemma ZeroWord()
    ensures BytesOf([0]) == Zeros(4)
  {
  }

  /** The firmware's driver succeeds if the shim reports no mismatch, with the room the opcode needs. */
  predicate DspicoOk(fw: Firmware, tx: Transaction) {
    var cmd := DecodeCommand(tx.command);
    ShimAccepts(fw, cmd, Some(tx.data), PhaseOutBytes(cmd))
  }

  lemma FirmwareSucceeds(fw: Firmware, tx: Transaction)
    ensures DspicoOk(fw, tx)
  {
    hide BytesOf, ReadBlockBytes, DecodeCommand;
  }

  /** The command gets its data phase from both targets, or needs none. */
  predicate Answered(cmd: WireCommand) { cmd.valid || PhaseForOpcode(cmd.opcode).direction == NoPhase }

  /** One transaction: from the same device, both targets reach the same device. Their response bytes
      are equal exactly when it does not read a firmware counter that is not zero, and their drivers
      report the same success exactly when it is not foreign traffic with a data phase: the firmware
      then drives zeros, and the page moves no word. */
  lemma TransactionConforms(b: Bus, d: DeviceState, fw: Firmware, tx: Transaction)
    requires b.phase == Idle && SameDevice(d, fw.device)
    ensures
      var cmd := DecodeCommand(tx.command);
      var r := RegIssue(b, d, tx);
      && r.bus.phase == Idle
      && SameDevice(r.device, DspicoIssue(fw, tx).device)
      && (r.out == Response(fw, cmd) <==> !(Diagnostic(cmd) && Counter(fw, cmd.index) != 0))
      && DspicoOk(fw, tx)
      && (r.ok == DspicoOk(fw, tx) <==> Answered(cmd))
  {
    var cmd := DecodeCommand(tx.command);
    RegIssueIsAtomic(b, d, tx);
    FirmwareIsAtomic(fw, tx);
    AtomicIgnoresCount(d, fw.device, cmd, tx.data);
    SameResponse(d, fw, cmd);
    FirmwareSucceeds(fw, tx);
    hide RegIssue, DspicoIssue, DspicoOk, Response, ExpectedOut, AtomicOp, Run, Step, SameDevice, Diagnostic;
  }

  /** A foreign read: the page's driver fails, the firmware's succeeds. */
  lemma ForeignReadDiffers(b: Bus, d: DeviceState, fw: Firmware, data: Block)
    requires b.phase == Idle && SameDevice(d, fw.device)
    ensures
      var tx := Transaction([WIRE_READ_REG, 0, 0, 0, 0, 0, 0, 0], data);
      !RegIssue(b, d, tx).ok && DspicoOk(fw, tx)
  {
    hide RegIssue, DspicoIssue, DspicoOk, Response, SameDevice, Diagnostic;
    var tx := Transaction([WIRE_READ_REG, 0, 0, 0, 0, 0, 0, 0], data);
    TransactionConforms(b, d, fw, tx);
    assert !Answered(DecodeCommand(tx.command));
  }

  datatype Replay = Replay(device: DeviceState, outs: seq<seq<byte>>, oks: seq<bool>)

  function ReplayRegister(b: Bus, d: DeviceState, txs: seq<Transaction>): (r: Replay)
    ensures |r.outs| == |r.oks| == |txs|
    decreases |txs|
  {
    if |txs| == 0 then Replay(d, [], [])
    else
      var r := RegIssue(b, d, txs[0]);
      var rest := ReplayRegister(r.bus, r.device, txs[1..]);
      Replay(rest.device, [r.out] + rest.outs, [r.ok] + rest.oks)
  }

  function ReplayDspico(fw: Firmware, txs: seq<Transaction>): (r: Replay)
    ensures |r.outs| == |r.oks| == |txs|
    decreases |txs|
  {
    if |txs| == 0 then Replay(fw.device, [], [])
    else
      var rest := ReplayDspico(DspicoIssue(fw, txs[0]), txs[1..]);
      Replay(rest.device, [Response(fw, DecodeCommand(txs[0].command))] + rest.outs,
             [DspicoOk(fw, txs[0])] + rest.oks)
  }

  /** Any finite list of eight-byte commands with data phases, none reading the firmware's own
      counters: the same response bytes, and the same device but for the transfer count. The firmware
      always reports success; the page reports it except for foreign traffic with a data phase. */
  lemma {:induction false} TransportsConform(b: Bus, d: DeviceState, fw: Firmware, txs: seq<Transaction>)
    requires b.phase == Idle && SameDevice(d, fw.device)
    requires forall k | 0 <= k < |txs| :: !Diagnostic(DecodeCommand(txs[k].command))
    ensures ReplayRegister(b, d, txs).outs == ReplayDspico(fw, txs).outs
    ensures SameDevice(ReplayRegister(b, d, txs).device, ReplayDspico(fw, txs).device)
    ensures forall k | 0 <= k < |txs| :: ReplayDspico(fw, txs).oks[k]
    ensures forall k | 0 <= k < |txs| ::
      ReplayRegister(b, d, txs).oks[k] <==> Answered(DecodeCommand(txs[k].command))
    decreases |txs|
  {
    hide RegIssue, DspicoIssue, DspicoOk, Response, SameDevice, Diagnostic, Counter, DecodeCommand, Answered;
    if |txs| > 0 {
      TransactionConforms(b, d, fw, txs[0]);
      var r := RegIssue(b, d, txs[0]);
      TransportsConform(r.bus, r.device, DspicoIssue(fw, txs[0]), txs[1..]);
      assert forall k | 1 <= k < |txs| :: txs[1..][k - 1] == txs[k];
    } else {
      hide *;
      NothingReplayed(b, d, fw);
      assert txs == [];
    }
  }

  lemma NothingReplayed(b: Bus, d: DeviceState, fw: Firmware)
    ensures ReplayRegister(b, d, []) == Replay(d, [], [])
    ensures ReplayDspico(fw, []) == Replay(fw.device, [], [])
  {
  }

  /** Where the bytes part: from reset, one F4 and then a read of the firmware's first counter. */
  lemma CounterWindowDiffers(b: Bus, config: Config, data: Block)
    requires b.phase == Idle
    ensures
      var s := InitialState(config);
      var txs := [Transaction(EncodeCommand(WIRE_WRITE_BLOCK, 0, 0), data),
                  Transaction(EncodeCommand(WIRE_READ_REG, FIRST_COUNTER, 0), data)];
      ReplayRegister(b, s, txs).outs[1] != ReplayDspico(Firmware(s, 0, 0, 0, 0), txs).outs[1]
  {
    hide RegIssue, DspicoIssue, DspicoOk, Response, SameDevice, EncodeCommand, DecodeCommand, InitialState;
    var s := InitialState(config);
    var fw := Firmware(s, 0, 0, 0, 0);
    var first := Transaction(EncodeCommand(WIRE_WRITE_BLOCK, 0, 0), data);
    var second := Transaction(EncodeCommand(WIRE_READ_REG, FIRST_COUNTER, 0), data);
    CommandRoundTrip(WIRE_WRITE_BLOCK, 0, 0);
    CommandRoundTrip(WIRE_READ_REG, FIRST_COUNTER, 0);
    SameDeviceAsItself(s);
    TransactionConforms(b, s, fw, first);
    CountsTheBlock(fw, first);
    var r := RegIssue(b, s, first);
    TransactionConforms(r.bus, r.device, DspicoIssue(fw, first), second);
    assert [first, second][1..] == [second];
  }

  lemma SameDeviceAsItself(s: DeviceState)
    ensures SameDevice(s, s)
  {
  }

  lemma CountsTheBlock(fw: Firmware, tx: Transaction)
    requires DecodeCommand(tx.command).opcode == WIRE_WRITE_BLOCK
    ensures DspicoIssue(fw, tx).entered == Wrap32(fw.entered + 1)
  {
    hide WriteBlock, DecodeCommand;
  }
}
