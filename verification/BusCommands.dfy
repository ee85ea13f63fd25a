/** What a guest's accesses mean, read off the trace alone: the commands it starts, and for each the
    FIFO words that belong to it. No bus state and no device occur in the reading. */
module BusCommands {
  import opened Words
  import opened Protocol
  import opened DeviceModel
  import opened NtrBus

  /** A command as it was started: whether the block size programmed with it was the one it needs,
      and the words written to the FIFO before its data phase was over. */
  datatype Begun = Begun(command: WireCommand, accepted: bool, written: seq<u32>)

  /** The page as the guest's own stores leave it. */
  function Stored(page: Page, a: Access): Page {
    if a.StoreAt? && InPage(a.offset) && a.offset != REG_FIFO then Store32(page, a.offset, a.value) else page
  }

  function StoredAll(page: Page, trace: seq<Access>): Page
    decreases |trace|
  {
    if |trace| == 0 then page else StoredAll(Stored(page, trace[0]), trace[1..])
  }

  predicate Activating(a: Access) { a.StoreAt? && a.offset == REG_ROMCNT && Activates(a.value) }

  /** A FIFO access that moves a word in the given direction. */
  predicate Moves(a: Access, direction: Direction) {
    a.offset == REG_FIFO &&
      match direction
      case NoPhase => false
      case CartToConsole => a.LoadAt?
      case ConsoleToCart => a.StoreAt?
  }

  /** How much of the trace it takes to move `words` words: all of it if there are not so many. */
  function PhaseEnd(trace: seq<Access>, direction: Direction, words: nat): (end: nat)
    ensures end <= |trace|
    decreases |trace|
  {
    if words == 0 || |trace| == 0 then 0
    else 1 + PhaseEnd(trace[1..], direction, if Moves(trace[0], direction) then words - 1 else words)
  }

  /** The commands an idle page starts: the first activating store starts the command then on the
      page, what follows moves its words, and after that the page is idle again. */
  function Commands(page: Page, trace: seq<Access>): seq<Begun>
    decreases |trace|
  {
    if |trace| == 0 then []
    else if !Activating(trace[0]) then Commands(Stored(page, trace[0]), trace[1..])
    else
      var command := Command(page);
      var phase := PhaseForOpcode(command.opcode);
      var accepted := Accepts(command, trace[0].value);
      var rest := trace[1..];
      var end := if accepted then PhaseEnd(rest, phase.direction, phase.bytes / 4) else 0;
      [Begun(command, accepted, FifoWrites(rest[..end]))]
        + Commands(StoredAll(Stored(page, trace[0]), rest[..end]), rest[end..])
  }

  /** One atomic call for an accepted command; for F4 only when its whole block was written. */
  function CallOf(begun: Begun): seq<Op> {
    var c := begun.command;
    if !begun.accepted then []
    else if c.opcode != WIRE_WRITE_BLOCK then CallsOfCommand(c)
    else if |begun.written| < BLOCK_WORDS then []
    else [OpWriteBlock(c.index, c.word, Some(BytesOf(begun.written)))]
  }

  /** Every start is counted, accepted or not. */
  function CallsOf(commands: seq<Begun>): seq<Op> {
    if |commands| == 0 then []
    else [OpCountTransfer] + CallOf(commands[0]) + CallsOf(commands[1..])
  }

  /** The words of a phase are the first FIFO words of the trace, as many as it takes. */
  lemma {:induction false} PhaseWords(trace: seq<Access>, words: nat)
    ensures FifoWrites(trace[..PhaseEnd(trace, ConsoleToCart, words)])
         == FifoWrites(trace)[..Min(words, |FifoWrites(trace)|)]
    decreases |trace|
  {
    if |trace| == 0 {
      assert trace[..PhaseEnd(trace, ConsoleToCart, words)] == [];
    } else if words == 0 {
      assert trace[..PhaseEnd(trace, ConsoleToCart, words)] == [];
    } else {
      var moved := Moves(trace[0], ConsoleToCart);
      var left := if moved then words - 1 else words;
      var rest := trace[1..];
      var end := PhaseEnd(rest, ConsoleToCart, left);
      assert PhaseEnd(trace, ConsoleToCart, words) == 1 + end;
      PhaseWords(rest, left);
      WordsOfFirst(trace[0], rest[..end]);
      WordsOfFirst(trace[0], rest);
      assert trace[..1 + end] == [trace[0]] + rest[..end] && trace == [trace[0]] + rest;
      hide FifoWrites, PhaseEnd;
      if moved {
        PrefixOfFirst(trace[0].value, FifoWrites(rest), left);
      }
    }
  }

  lemma WordsOfFirst(a: Access, rest: seq<Access>)
    ensures FifoWrites([a] + rest) == (if Moves(a, ConsoleToCart) then [a.value] else []) + FifoWrites(rest)
  {
    assert ([a] + rest)[1..] == rest;
  }

  lemma PrefixOfFirst(value: u32, rest: seq<u32>, n: nat)
    ensures ([value] + rest)[..Min(n + 1, |[value] + rest|)] == [value] + rest[..Min(n, |rest|)]
  {
  }

  // ---------------------------------------------------------------------------
  // A transfer already open when the trace begins
  // ---------------------------------------------------------------------------

  /** Where it ends in the trace. */
  function OpenEnd(phase: Phase, trace: seq<Access>): (end: nat)
    ensures end <= |trace|
  {
    match phase
    case Idle => 0
    case Reading(words) => PhaseEnd(trace, CartToConsole, |words|)
    case Writing(_, _, got) => PhaseEnd(trace, ConsoleToCart, Max(0, BLOCK_WORDS - |got|))
  }

  /** A block half written at the beginning, if the trace completes it. */
  function OpenCall(phase: Phase, trace: seq<Access>): seq<Op> {
    match phase
    case Writing(index, word, got) =>
      var words := got + FifoWrites(trace[..OpenEnd(phase, trace)]);
      if |words| < BLOCK_WORDS then [] else [OpWriteBlock(index, word, Some(BytesOf(words)))]
    case _ => []
  }

  /** What a trace asks of the device, from a bus with this phase and page. */
  function TraceCalls(phase: Phase, page: Page, trace: seq<Access>): seq<Op> {
    var end := OpenEnd(phase, trace);
    OpenCall(phase, trace) + CallsOf(Commands(StoredAll(page, trace[..end]), trace[end..]))
  }

  /** The status register is the only part of the page the cartridge writes. */
  predicate SamePage(p: Page, q: Page) {
    forall k | 0 <= k < PAGE_BYTES && !(REG_ROMCNT <= k < REG_ROMCNT + 4) :: p[k] == q[k]
  }

  lemma SameCommand(p: Page, q: Page)
    requires SamePage(p, q)
    ensures Command(p) == Command(q)
  {
    assert p[REG_COMMAND..REG_COMMAND + 8] == q[REG_COMMAND..REG_COMMAND + 8];
  }

  lemma StoredKeepsSame(p: Page, q: Page, a: Access)
    requires SamePage(p, q)
    ensures SamePage(Stored(p, a), Stored(q, a))
  {
  }

  lemma StatusKeepsSame(p: Page, q: Page, value: u32)
    requires SamePage(p, q)
    ensures SamePage(p, Store32(q, REG_ROMCNT, value))
  {
  }

  lemma NextPage(b: Bus, d: DeviceState, page: Page, a: Access)
    requires SamePage(page, b.page)
    ensures SamePage(Stored(page, a), Next(b, d, a).page)
  {
    hide Store32, SamePage, Load32, Released, WithReady, ReadBlockBytes;
    StoredKeepsSame(page, b.page, a);
    var stored := Stored(b.page, a);
    StatusKeepsSame(Stored(page, a), stored, Released(Load32(stored, REG_ROMCNT)));
    StatusKeepsSame(Stored(page, a), stored, WithReady(Load32(stored, REG_ROMCNT)));
  }

  lemma IdleCalls(page: Page, trace: seq<Access>)
    ensures TraceCalls(Idle, page, trace) == CallsOf(Commands(page, trace))
  {
    assert trace[0..] == trace && StoredAll(page, trace[..0]) == page;
  }

  lemma CallsOfFirst(begun: Begun, rest: seq<Begun>)
    ensures CallsOf([begun] + rest) == [OpCountTransfer] + CallOf(begun) + CallsOf(rest)
  {
    hide CallOf;
    assert ([begun] + rest)[1..] == rest;
  }

  /** The phase a start opens waits for exactly the words its opcode announces. */
  lemma OpenedEnd(command: WireCommand, d: DeviceState, trace: seq<Access>)
    ensures
      var phase := PhaseForOpcode(command.opcode);
      OpenEnd(OpenedPhase(command, d), trace) == PhaseEnd(trace, phase.direction, phase.bytes / 4)
  {
    hide ReadBlockBytes, ReadReg;
  }

  lemma OpenedCall(command: WireCommand, d: DeviceState, trace: seq<Access>)
    ensures
      var end := OpenEnd(OpenedPhase(command, d), trace);
      CallsOfCommand(command) + OpenCall(OpenedPhase(command, d), trace)
      == CallOf(Begun(command, true, FifoWrites(trace[..end])))
  {
    hide ReadBlockBytes, ReadReg, BytesOf, OpenEnd;
    var end := OpenEnd(OpenedPhase(command, d), trace);
    assert [] + FifoWrites(trace[..end]) == FifoWrites(trace[..end]);
  }

  lemma StartStep(b: Bus, d: DeviceState, page: Page, trace: seq<Access>)
    requires |trace| > 0 && b.phase == Idle && SamePage(page, b.page) && Starts(b, trace[0])
    ensures TraceCalls(b.phase, page, trace)
         == Calls(b, trace[0]) + TraceCalls(Next(b, d, trace[0]).phase, Stored(page, trace[0]), trace[1..])
  {
    hide SamePage, Store32, Load32, Released, WithReady, CallOf, OpenCall, OpenEnd, PhaseEnd, CallsOf,
         CallsOfCommand, OpenedPhase, FifoWrites, DecodeCommand, PhaseForOpcode;
    var a, rest := trace[0], trace[1..];
    var command := Command(b.page);
    SameCommand(page, b.page);
    CommandUnderStatus(b.page, a.value);
    IdleCalls(page, trace);
    var phase := Next(b, d, a).phase;
    if Accepts(command, a.value) {
      OpenedEnd(command, d, rest);
      OpenedCall(command, d, rest);
      assert phase == OpenedPhase(command, d);
      var end := OpenEnd(phase, rest);
      CallsOfFirst(Begun(command, true, FifoWrites(rest[..end])),
                   Commands(StoredAll(Stored(page, a), rest[..end]), rest[end..]));
    } else {
      IdleCalls(Stored(page, a), rest);
      assert rest[0..] == rest && rest[..0] == [];
      CallsOfFirst(Begun(command, false, FifoWrites([])), Commands(Stored(page, a), rest));
      NothingCalled(command);
    }
  }

  lemma NothingCalled(command: WireCommand)
    ensures CallOf(Begun(command, false, FifoWrites([]))) == []
  {
  }

  /** An access brings the end of an open transfer one access nearer. */
  lemma OpenEndNext(b: Bus, d: DeviceState, trace: seq<Access>)
    requires |trace| > 0 && b.phase != Idle && Bounded(b)
    ensures OpenEnd(b.phase, trace) == 1 + OpenEnd(Next(b, d, trace[0]).phase, trace[1..])
  {
    hide Store32, Load32, Released, WithReady;
    var a, rest := trace[0], trace[1..];
    var phase := Next(b, d, a).phase;
    match b.phase
    case Reading(words) =>
      if Moves(a, CartToConsole) {
        assert phase == if |words| == 1 then Idle else Reading(words[1..]);
        assert PhaseEnd(rest, CartToConsole, 0) == 0;
      } else {
        assert phase == b.phase;
      }
    case Writing(index, word, got) =>
      if Moves(a, ConsoleToCart) {
        assert phase == if |got| + 1 == BLOCK_WORDS then Idle else Writing(index, word, got + [a.value]);
        assert PhaseEnd(rest, ConsoleToCart, 0) == 0;
      } else {
        assert phase == b.phase;
      }
  }

  /** A block that is being written reaches the device with its last word, and nothing else does. */
  lemma OpenCallNext(b: Bus, d: DeviceState, trace: seq<Access>)
    requires |trace| > 0 && b.phase != Idle && Bounded(b)
    ensures OpenCall(b.phase, trace) == Calls(b, trace[0]) + OpenCall(Next(b, d, trace[0]).phase, trace[1..])
  {
    hide Store32, Load32, Released, WithReady, BytesOf, PhaseEnd, OpenEnd;
    OpenEndNext(b, d, trace);
    var a, rest := trace[0], trace[1..];
    var end, phase := OpenEnd(b.phase, trace), Next(b, d, a).phase;
    assert trace[..end] == [a] + rest[..end - 1];
    if b.phase.Writing? {
      OpenWords(b.phase.got, a, rest[..end - 1]);
      if Moves(a, ConsoleToCart) && |b.phase.got| + 1 == BLOCK_WORDS {
        IdleEnd(rest);
        assert FifoWrites(rest[..end - 1]) == [];
        assert b.phase.got + [a.value] + [] == b.phase.got + [a.value];
      }
    }
  }

  lemma IdleEnd(trace: seq<Access>)
    ensures OpenEnd(Idle, trace) == 0
  {
  }

  /** An access while a transfer is open. */
  lemma OpenStep(b: Bus, d: DeviceState, page: Page, trace: seq<Access>)
    requires |trace| > 0 && b.phase != Idle && Bounded(b)
    ensures TraceCalls(b.phase, page, trace)
         == Calls(b, trace[0]) + TraceCalls(Next(b, d, trace[0]).phase, Stored(page, trace[0]), trace[1..])
  {
    hide CallsOf, Commands, Stored, OpenEnd, OpenCall, Calls, Next;
    OpenEndNext(b, d, trace);
    OpenCallNext(b, d, trace);
    var rest, end := trace[1..], OpenEnd(b.phase, trace);
    assert trace[end..] == rest[end - 1..];
    assert trace[..end][0] == trace[0] && trace[..end][1..] == rest[..end - 1];
  }

  lemma OpenWords(got: seq<u32>, a: Access, rest: seq<Access>)
    ensures got + FifoWrites([a] + rest)
         == (if Moves(a, ConsoleToCart) then got + [a.value] else got) + FifoWrites(rest)
  {
    hide FifoWrites;
    WordsOfFirst(a, rest);
  }

  /** Whatever a guest does, the device is asked, in order: what completes a block already half
      written; then, for every command the guest starts, one count and the command's one call. A block
      still open at the end asks for nothing. */
  lemma {:induction false} CallsAreCommands(b: Bus, d: DeviceState, page: Page, trace: seq<Access>)
    requires Bounded(b) && SamePage(page, b.page)
    ensures CallsOfTrace(b, d, trace) == TraceCalls(b.phase, page, trace)
    decreases |trace|
  {
    hide Calls, Next, NextDevice, TraceCalls, Stored, SamePage, Bounded;
    if |trace| == 0 {
      NothingAsked(b, page);
      assert trace == [];
    } else {
      var a := trace[0];
      if b.phase != Idle {
        OpenStep(b, d, page, trace);
      } else if Starts(b, a) {
        StartStep(b, d, page, trace);
      } else {
        QuietStep(b, d, page, trace);
      }
      NextPage(b, d, page, a);
      NextKeepsBounded(b, d, a);
      CallsAreCommands(Next(b, d, a), NextDevice(b, d, a), Stored(page, a), trace[1..]);
    }
  }

  lemma NothingAsked(b: Bus, page: Page)
    requires Bounded(b)
    ensures TraceCalls(b.phase, page, []) == []
  {
    NoOpenCall(b.phase, []);
    NoCommands(page, []);
    hide OpenCall, CallsOf, Commands, StoredAll, OpenEnd;
    assert OpenEnd(b.phase, []) == 0;
  }

  lemma NoOpenCall(phase: Phase, trace: seq<Access>)
    requires trace == [] && (phase.Writing? ==> |phase.got| < BLOCK_WORDS)
    ensures OpenCall(phase, trace) == []
  {
    hide BytesOf;
  }

  lemma NoCommands(page: Page, trace: seq<Access>)
    requires trace == []
    ensures CallsOf(Commands(StoredAll(page, trace), trace)) == []
  {
  }

  lemma QuietStep(b: Bus, d: DeviceState, page: Page, trace: seq<Access>)
    requires |trace| > 0 && b.phase == Idle && !Starts(b, trace[0])
    ensures TraceCalls(b.phase, page, trace)
         == Calls(b, trace[0]) + TraceCalls(Next(b, d, trace[0]).phase, Stored(page, trace[0]), trace[1..])
  {
    hide Store32, Load32, Released, WithReady, CallsOf, Stored, TraceCalls;
    IdleCalls(page, trace);
    IdleCalls(Stored(page, trace[0]), trace[1..]);
  }

  /** So from an idle bus the device is the fold of the commands read off the trace. */
  lemma DeviceSeesCommands(b: Bus, d: DeviceState, trace: seq<Access>)
    requires b.phase == Idle
    ensures DeviceAfter(b, d, trace) == Run(d, CallsOf(Commands(b.page, trace)))
  {
    hide DeviceAfter, Run, CallsOf, Commands, CallsOfTrace, TraceCalls;
    Linearised(b, d, trace);
    CallsAreCommands(b, d, b.page, trace);
    IdleCalls(b.page, trace);
  }
}
