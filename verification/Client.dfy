/** The device as a client sees it: eight command bytes and a block go out, bytes come back.

    Statuses, registers and commands are the literal numbers of the protocol, and the answers are
    stated on the tables of the device before and after, not through the functions that compute them. */
module Client {
  import opened Words
  import opened Protocol
  import opened Checksum
  import opened DeviceModel
  import opened DeviceInvariant
  import opened NtrBus
  import opened DspicoModel
  import opened Conformance
  import opened WireFormat
  import opened CompletionStream
  import opened UploadPaths

  /** The eight bytes OP 47 4B II VV VV VV VV. */
  ghost function Gk(opcode: byte, index: byte, word: u32): (c: CommandBytes)
    ensures CommandAt(c, opcode, index, word)
  {
    CommandLayout(EncodeCommand(opcode, index, word), opcode, index, word);
    var c: CommandBytes :| CommandAt(c, opcode, index, word);
    c
  }

  /** They are the ones the encoder makes, and decode to what they say. */
  lemma GkBytes(opcode: byte, index: byte, word: u32)
    ensures Gk(opcode, index, word) == EncodeCommand(opcode, index, word)
    ensures DecodeCommand(Gk(opcode, index, word)) == WireCommand(opcode, index, word, true)
  {
    hide CommandAt, DecodeCommand, EncodeCommand;
    CommandLayout(Gk(opcode, index, word), opcode, index, word);
  }

  /** The device after one transaction. */
  function Issue(s: DeviceState, command: CommandBytes, data: Block): DeviceState {
    var cmd := DecodeCommand(command);
    Run(s, if cmd.valid then AtomicOp(cmd, data) else [])
  }

  /** The bytes that come back. */
  function Reply(s: DeviceState, command: CommandBytes): seq<byte> { ExpectedOut(s, DecodeCommand(command)) }

  function FirstWord(out: seq<byte>): u32 { if |out| < 4 then 0 else U32At(out, 0) }

  /** Both transports do this: the register page but for the count of transfers, the firmware but for
      its own counters. */
  lemma BothTransports(b: Bus, fw: Firmware, tx: Transaction)
    requires b.phase == Idle
    ensures
      var d := fw.device;
      && SameDevice(Issue(d, tx.command, tx.data), RegIssue(b, d, tx).device)
      && RegIssue(b, d, tx).out == Reply(d, tx.command)
      && DspicoIssue(fw, tx).device == Issue(d, tx.command, tx.data)
      && (!Diagnostic(DecodeCommand(tx.command)) ==>
            Response(fw, DecodeCommand(tx.command)) == Reply(d, tx.command))
  {
    hide DecodeCommand, RegIssue, DspicoIssue, Run, Step, Response, ExpectedOut, AtomicOp;
    var cmd := DecodeCommand(tx.command);
    RegIssueIsAtomic(b, fw.device, tx);
    FirmwareIsAtomic(fw, tx);
    SameDeviceAsItself(fw.device);
    AtomicIgnoresCount(fw.device, fw.device, cmd, tx.data);
    SameResponse(fw.device, fw, cmd);
  }

  function Silence(): Block { Zeros(512) }

  /** F0: write a register. */
  ghost function Put(s: DeviceState, index: byte, value: u32): DeviceState {
    Issue(s, Gk(0xF0, index, value), Silence())
  }

  /** F1: run a command. */
  ghost function Do(s: DeviceState, command: byte): DeviceState {
    Issue(s, Gk(0xF1, command, 0), Silence())
  }

  /** F2: read a register, four bytes least significant first. */
  ghost function Get(s: DeviceState, index: byte): u32 {
    FirstWord(Reply(s, Gk(0xF2, index, 0)))
  }

  /** F3: stage a word. */
  ghost function Load(s: DeviceState, index: byte, value: u32): DeviceState {
    Issue(s, Gk(0xF3, index, value), Silence())
  }

  // ---------------------------------------------------------------------------
  // The transactions as operations
  // ---------------------------------------------------------------------------

  lemma IssueOne(s: DeviceState, command: CommandBytes, data: Block, op: Op)
    requires DecodeCommand(command).valid && AtomicOp(DecodeCommand(command), data) == [op]
    ensures Issue(s, command, data) == Step(s, op)
  {
    hide Step, AtomicOp, DecodeCommand;
    RunOfOne(s, op);
  }

  lemma AtomicNumbers(index: byte, value: u32, data: Block)
    ensures AtomicOp(WireCommand(0xF0, index, value, true), data) == [OpWriteReg(index, value)]
    ensures AtomicOp(WireCommand(0xF1, index, value, true), data) == [OpExec(index, value)]
    ensures AtomicOp(WireCommand(0xF3, index, value, true), data) == [OpWritePayloadWord(index, value)]
    ensures AtomicOp(WireCommand(0xF4, index, value, true), data) == [OpWriteBlock(index, value, Some(data))]
    ensures AtomicOp(WireCommand(0xF5, index, value, true), data) == [OpReadBlock(index, value, Some(512))]
  {
  }

  lemma PutStep(s: DeviceState, index: byte, value: u32)
    ensures Put(s, index, value) == Step(s, OpWriteReg(index, value))
  {
    hide Step, Issue, DecodeCommand, AtomicOp, CommandAt;
    GkBytes(0xF0, index, value);
    AtomicNumbers(index, value, Silence());
    IssueOne(s, Gk(0xF0, index, value), Silence(), OpWriteReg(index, value));
  }

  lemma DoStep(s: DeviceState, command: byte)
    ensures Do(s, command) == Step(s, OpExec(command, 0))
  {
    hide Step, Issue, DecodeCommand, AtomicOp, CommandAt;
    GkBytes(0xF1, command, 0);
    AtomicNumbers(command, 0, Silence());
    IssueOne(s, Gk(0xF1, command, 0), Silence(), OpExec(command, 0));
  }

  lemma LoadStep(s: DeviceState, index: byte, value: u32)
    ensures Load(s, index, value) == Step(s, OpWritePayloadWord(index, value))
  {
    hide Step, Issue, DecodeCommand, AtomicOp, CommandAt;
    GkBytes(0xF3, index, value);
    AtomicNumbers(index, value, Silence());
    IssueOne(s, Gk(0xF3, index, value), Silence(), OpWritePayloadWord(index, value));
  }

  lemma GetRead(s: DeviceState, index: byte)
    ensures Get(s, index) == ReadReg(s, index)
  {
    hide ReadReg, U32At, BytesOf, Gk, DecodeCommand, CommandAt;
    GkBytes(0xF2, index, 0);
    StoredWordAt(ReadReg(s, index));
  }

  /** A register holds what the table of registers says, 0xFE answers the depth of the queue. */
  lemma GetMeaning(s: DeviceState, index: byte)
    ensures Get(s, index) == if index < 16 then s.stage[index] else if index == 0xFE then |s.queue| else 0
  {
    GetRead(s, index);
    hide Get;
  }

  // ---------------------------------------------------------------------------
  // Reset, F0 and F2
  // ---------------------------------------------------------------------------

  /** After a reset every register and the queue read zero, nothing is allocated, no job exists, and the
      device reports its whole pool unless it is told otherwise. */
  lemma AfterReset(config: Config, index: byte)
    ensures
      var s := InitialState(config);
      && Get(s, index) == 0
      && s.config == config.(reportedLocalBytes :=
           if config.reportedLocalBytes == 0 then config.poolBytes else config.reportedLocalBytes)
      && s.queue == [] && !s.completed && s.transfers == 0 && s.nextJob == 1
      && (forall i | 0 <= i < 16 :: !s.allocations[i].live && !s.jobs[i].live)
      && (forall k | 0 <= k < 1024 :: s.payload[k] == 0)
      && |s.pool| == (if config.hasPool then config.poolBytes else 0)
      && forall k | 0 <= k < |s.pool| :: s.pool[k] == 0
  {
    GetMeaning(InitialState(config), index);
    hide Get;
  }

  /** F2 of a register answers the last F0 to it; F0 of an index from 16 on does nothing. */
  lemma RegisterRoundTrip(s: DeviceState, i: byte, v: u32, j: byte)
    ensures Get(Put(s, i, v), j) == if j == i && i < 16 then v else Get(s, j)
    ensures i >= 16 ==> Put(s, i, v) == s
    ensures i < 16 ==> Put(s, i, v) == s.(stage := s.stage[i := v])
  {
    PutStep(s, i, v);
    hide Put, Get;
    GetMeaning(Put(s, i, v), j);
    GetMeaning(s, j);
  }

  /** F2 of 0xFE: what any run queued, less what it handed out. */
  lemma DepthAfterRun(s: DeviceState, ops: seq<Op>)
    requires s.queue == []
    ensures Get(Run(s, ops), 0xFE) == |QueuedByRun(s, ops)| - |HandedByRun(s, ops)|
  {
    GetMeaning(Run(s, ops), 0xFE);
    StreamConserved(s, ops);
    hide Get, Run, QueuedByRun, HandedByRun;
    var queued, handed := QueuedByRun(s, ops), HandedByRun(s, ops);
    assert s.queue + queued == queued;
    assert |queued| == |handed| + |Run(s, ops).queue|;
  }

  // ---------------------------------------------------------------------------
  // F1: what every command does
  // ---------------------------------------------------------------------------

  lemma DoMeaning(s: DeviceState, command: byte)
    ensures Do(s, command) == Exec(s, command)
  {
    DoStep(s, command);
    hide Do, Exec;
  }

  /** RESULT and the four outputs. */
  predicate Answers(s: DeviceState, result: nat, out0: nat, out1: nat, out2: nat, out3: nat) {
    && s.stage[5] == result
    && s.stage[6] == out0 && s.stage[7] == out1 && s.stage[8] == out2 && s.stage[9] == out3
  }

  predicate Failed(s: DeviceState, status: nat) { Answers(s, status, 0, 0, 0, 0) }

  /** Only the registers from RESULT to OUT3 differ. */
  predicate OnlyAnswered(s: DeviceState, t: DeviceState) {
    && t == s.(stage := t.stage)
    && forall j | 0 <= j < 16 && !(5 <= j <= 9) :: t.stage[j] == s.stage[j]
  }

  /** Five F2s read them. */
  lemma AnswersRead(s: DeviceState, result: nat, out0: nat, out1: nat, out2: nat, out3: nat)
    requires Answers(s, result, out0, out1, out2, out3)
    ensures Get(s, 5) == result
    ensures Get(s, 6) == out0 && Get(s, 7) == out1 && Get(s, 8) == out2 && Get(s, 9) == out3
  {
    hide Get;
    GetMeaning(s, 5);
    GetMeaning(s, 6);
    GetMeaning(s, 7);
    GetMeaning(s, 8);
    GetMeaning(s, 9);
  }

  /** HELLO, GET_CAPS and COMPLETE, and everything that is not a command. */
  lemma FixedAnswers(s: DeviceState, command: byte)
    ensures
      var t := Exec(s, command);
      && (command == 1 ==> Answers(t, 0, 0x1_0000, s.config.capabilities, s.config.reportedLocalBytes, 2))
      && (command == 2 ==> Answers(t, 0, s.config.capabilities, s.config.reportedLocalBytes,
                                   s.config.timing.busBytesPerSecond, s.config.timing.commandLatencyNs / 1000))
      && (command == 9 ==> Answers(t, 0, 0x5353_4150, 0, 0, 0) && t.completed)
      && (command == 0 || command > 9 ==> Failed(t, 1))
      && (command == 9 ==> OnlyAnswered(s.(completed := true), t))
      && (command < 3 || command > 9 ==> OnlyAnswered(s, t))
  {
  }

  // ---------------------------------------------------------------------------
  // ALLOC and FREE
  // ---------------------------------------------------------------------------

  /** The next multiple of four. */
  function Rounded(request: nat): nat { (request + 3) / 4 * 4 }

  predicate Live(s: DeviceState, handle: nat) { 1 <= handle <= 16 && s.allocations[handle - 1].live }

  /** The bytes [at, at + n) lie in the pool and outside every live allocation. */
  predicate Vacant(s: DeviceState, at: nat, n: nat) {
    && at + n <= s.config.poolBytes
    && forall i | 0 <= i < 16 && s.allocations[i].live ::
         at + n <= s.allocations[i].offset || s.allocations[i].offset + s.allocations[i].size <= at
  }

  /** From s to t the lowest free handle got the lowest vacant n bytes, and that is all. */
  predicate Granted(s: DeviceState, t: DeviceState, handle: nat, n: nat) {
    && 1 <= handle <= 16 && !Live(s, handle) && Live(t, handle)
    && (forall k | 1 <= k < handle :: Live(s, k))
    && t.allocations[handle - 1].size == n && t.allocations[handle - 1].uploaded == 0
    && Vacant(s, t.allocations[handle - 1].offset, n)
    && (forall at | 0 <= at < t.allocations[handle - 1].offset :: !Vacant(s, at, n))
    && OnlyAnswered(s.(allocations := s.allocations[handle - 1 := t.allocations[handle - 1]]), t)
  }

  ghost predicate HasRoom(s: DeviceState, n: nat) { exists at: nat :: Vacant(s, at, n) }

  ghost predicate Grantable(s: DeviceState, request: nat) {
    && s.config.hasPool && 0 < request <= s.config.poolBytes
    && (exists h: nat | 1 <= h <= 16 :: !Live(s, h))
    && HasRoom(s, Rounded(request))
  }

  lemma VacantFits(s: DeviceState, at: nat, n: nat)
    ensures Vacant(s, at, n) <==> Fits(s.allocations, at, n, s.config.poolBytes)
  {
  }

  lemma RoomMeaning(s: DeviceState, n: nat)
    ensures HasRoom(s, n) <==> exists at: nat :: Fits(s.allocations, at, n, s.config.poolBytes)
    ensures forall at: nat :: Vacant(s, at, n) <==> Fits(s.allocations, at, n, s.config.poolBytes)
  {
    hide Fits, Vacant;
    forall at: nat
      ensures Vacant(s, at, n) <==> Fits(s.allocations, at, n, s.config.poolBytes)
    {
      VacantFits(s, at, n);
    }
  }

  lemma HandleFree(s: DeviceState)
    ensures (exists h: nat | 1 <= h <= 16 :: !Live(s, h)) <==> exists i | 0 <= i < 16 :: !s.allocations[i].live
  {
    if i :| 0 <= i < 16 && !s.allocations[i].live {
      assert !Live(s, i + 1);
    }
  }

  lemma AlignIsRounded(request: u32)
    requires request < POOL_LIMIT
    ensures AlignUp4(request) == Rounded(request)
  {
  }

  lemma AllocateGrants(s: DeviceState, request: u32)
    requires SoundPool(s)
    ensures
      var (t, handle) := Allocate(s, request);
      && (handle != 0 <==> Grantable(s, request))
      && (handle == 0 ==> t == s)
      && (handle != 0 ==> Granted(s, t, handle, Rounded(request))
                          && AlignUp4(request) == Rounded(request))
  {
    AllocateIsFirstFit(s, request);
    if request <= s.config.poolBytes {
      AlignIsRounded(request);
    }
    RoomMeaning(s, AlignUp4(request));
    HandleFree(s);
    hide Allocate, Vacant, Fits, HasRoom, AlignUp4, Rounded;
  }

  lemma AllocateIgnoresStage(s: DeviceState, c: DeviceState, request: u32)
    requires c == s.(stage := c.stage)
    ensures
      Allocate(c, request).1 == Allocate(s, request).1 && Allocate(c, request).0 == Allocate(s, request).0.(stage := c.stage)
  {
    hide LowestFit, FreeAllocation, AlignUp4;
  }

  lemma GrantedThenAnswered(s: DeviceState, g: DeviceState, t: DeviceState, handle: nat, n: nat)
    requires Granted(s, g, handle, n) && t == g.(stage := t.stage)
    requires forall j | 0 <= j < 16 && !(5 <= j <= 9) :: t.stage[j] == s.stage[j]
    ensures Granted(s, t, handle, n)
  {
    hide Vacant;
  }

  /** ALLOC is granted exactly when the request is usable, a handle is free and the size, rounded up
      to a multiple of four, fits somewhere; OUT0 then names the allocation and OUT1 is its size. */
  lemma AllocAnswers(s: DeviceState)
    requires SoundPool(s)
    ensures
      var t, request := Exec(s, 3), s.stage[0];
      && (t.stage[5] == 0 <==> Grantable(s, request))
      && (t.stage[5] == 0 ==>
            && Answers(t, 0, t.stage[6], Rounded(request), 0, 0)
            && Granted(s, t, t.stage[6], Rounded(request)))
      && (t.stage[5] != 0 ==> Failed(t, 3) && OnlyAnswered(s, t))
  {
    var c := Answer(s, 0, 0, 0, 0);
    var request := s.stage[0];
    AllocateIgnoresStage(s, c, request);
    AllocateGrants(s, request);
    var (g, handle) := Allocate(s, request);
    hide Allocate, Grantable, AlignUp4;
    if handle != 0 {
      GrantedThenAnswered(s, g, Exec(s, 3), handle, Rounded(request));
    }
    hide Granted;
  }

  /** The same allocations are live. */
  predicate SameLive(s: DeviceState, t: DeviceState) {
    && t.config == s.config
    && (forall i | 0 <= i < 16 :: t.allocations[i].live == s.allocations[i].live)
    && (forall i | 0 <= i < 16 && s.allocations[i].live :: t.allocations[i] == s.allocations[i])
  }

  /** Two grants of one size from tables that agree on the live allocations agree. */
  lemma GrantIsUnique(s: DeviceState, t: DeviceState, s': DeviceState, t': DeviceState,
                      handle: nat, handle': nat, n: nat)
    requires Granted(s, t, handle, n) && Granted(s', t', handle', n)
    requires SameLive(s, s')
    ensures handle' == handle && t'.allocations[handle - 1] == t.allocations[handle - 1]
  {
    forall at: nat
      ensures Vacant(s, at, n) <==> Vacant(s', at, n)
    {
    }
    assert !Live(s', handle) && !Live(s, handle');
    var a, a' := t.allocations[handle - 1], t'.allocations[handle - 1];
    hide Vacant;
    assert !(a.offset < a'.offset) && !(a'.offset < a.offset);
  }

  /** FREE of a live handle succeeds, ends exactly that allocation, and cannot be repeated; FREE of
      anything else is refused. */
  lemma FreeAnswers(s: DeviceState)
    ensures
      var t, h := Exec(s, 8), s.stage[0];
      && (Live(s, h) ==>
            && Answers(t, 0, 0, 0, 0, 0) && !Live(t, h)
            && OnlyAnswered(s.(allocations := s.allocations[h - 1 := t.allocations[h - 1]]), t)
            && Failed(Exec(t, 8), 2))
      && (!Live(s, h) ==> Failed(t, 2) && OnlyAnswered(s, t))
  {
  }

  /** A grant that has been freed again leaves what is live as it was, and can be granted again. */
  lemma FreedIsGrantable(s: DeviceState, t: DeviceState, f: DeviceState, handle: nat, request: nat)
    requires Grantable(s, request) && Granted(s, t, handle, Rounded(request))
    requires !Live(f, handle) && f.config == t.config
    requires f.allocations == t.allocations[handle - 1 := f.allocations[handle - 1]]
    ensures SameLive(s, f) && Grantable(f, request)
  {
    var n := Rounded(request);
    var at := t.allocations[handle - 1].offset;
    assert Vacant(s, at, n);
    assert Vacant(f, at, n);
  }

  lemma SameGrantSameState(s: DeviceState, t: DeviceState, q: DeviceState, u: DeviceState, n: nat)
    requires 1 <= t.stage[6] <= 16
    requires OnlyAnswered(s.(allocations := s.allocations[t.stage[6] - 1 := t.allocations[t.stage[6] - 1]]), t)
    requires OnlyAnswered(q.(allocations := q.allocations[t.stage[6] - 1 := t.allocations[t.stage[6] - 1]]), u)
    requires Answers(t, 0, t.stage[6], n, 0, 0) && Answers(u, 0, t.stage[6], n, 0, 0)
    requires OnlyAnswered(t.(allocations := t.allocations[t.stage[6] - 1 := q.allocations[t.stage[6] - 1]]), q.(stage := q.stage[0 := t.stage[0]]))
    requires q.stage[0] == s.stage[0]
    ensures u == t
  {
    assert forall j | 0 <= j < 16 :: u.stage[j] == t.stage[j];
    assert u.stage == t.stage;
    assert u.allocations == t.allocations;
  }

  /** Freeing a grant and asking for as much again. */
  lemma GrantFreed(s: DeviceState, t: DeviceState, freed: DeviceState, q: DeviceState, n: nat)
    requires t == Exec(s, 3) && t.stage[5] == 0 && SoundPool(s)
    requires freed == Exec(WriteReg(t, 0, t.stage[6]), 8) && q == WriteReg(freed, 0, s.stage[0])
    requires n == Rounded(s.stage[0])
    ensures Answers(t, 0, t.stage[6], n, 0, 0) && Granted(s, t, t.stage[6], n)
    ensures Answers(freed, 0, 0, 0, 0, 0) && SoundPool(q) && SameLive(s, q) && Grantable(q, s.stage[0])
    ensures OnlyAnswered(t.(allocations := t.allocations[t.stage[6] - 1 := q.allocations[t.stage[6] - 1]]),
                         q.(stage := q.stage[0 := t.stage[0]]))
  {
    AllocAnswers(s);
    FreeAnswers(WriteReg(t, 0, t.stage[6]));
    hide Exec, Vacant, HasRoom, Grantable;
    FreedIsGrantable(s, t, q, t.stage[6], s.stage[0]);
    hide SameLive;
  }

  /** After ALLOC, FREE of the handle in OUT0 and the same ALLOC again, the device is exactly as after
      the first: the same handle, at the same offset. */
  lemma AllocAgain(s: DeviceState)
    requires SoundPool(s) && Exec(s, 3).stage[5] == 0
    ensures
      var t := Exec(s, 3);
      var freed := Exec(WriteReg(t, 0, t.stage[6]), 8);
      Answers(freed, 0, 0, 0, 0, 0) && Exec(WriteReg(freed, 0, s.stage[0]), 3) == t
  {
    hide Exec, Vacant, HasRoom, Grantable, Answers, OnlyAnswered, SameLive, Rounded;
    var t := Exec(s, 3);
    var freed := Exec(WriteReg(t, 0, t.stage[6]), 8);
    var q := WriteReg(freed, 0, s.stage[0]);
    var n := Rounded(s.stage[0]);
    GrantFreed(s, t, freed, q, n);
    AllocAnswers(q);
    GrantIsUnique(s, t, q, Exec(q, 3), t.stage[6], Exec(q, 3).stage[6], n);
    SameGrantSameState(s, t, q, Exec(q, 3), n);
  }

  // ---------------------------------------------------------------------------
  // F3 and UPLOAD
  // ---------------------------------------------------------------------------

  /** F3 stages a word of the payload, least significant byte first. */
  lemma StagedWord(s: DeviceState, i: byte, v: u32)
    ensures
      var t := WritePayloadWord(s, i, v);
      && t == s.(payload := t.payload) && U32At(t.payload, 4 * i) == v
      && forall k | 0 <= k < 1024 && !(4 * i <= k < 4 * i + 4) :: t.payload[k] == s.payload[k]
  {
    StoredWordAt(v);
    hide BytesOf, U32At;
    SplicedWord(s.payload, 4 * i, BytesOf([v]));
  }

  lemma SplicedWord(p: Payload, at: nat, image: seq<byte>)
    requires |image| == 4 && at + 4 <= 1024
    ensures |Splice(p, at, image)| == 1024 && U32At(Splice(p, at, image), at) == U32At(image, 0)
    ensures forall k | 0 <= k < 1024 && !(at <= k < at + 4) :: Splice(p, at, image)[k] == p[k]
  {
    hide Number;
  }

  /** The handle names a live allocation that holds n bytes from an offset on. */
  predicate Holds(s: DeviceState, handle: nat, offset: nat, n: nat) {
    Live(s, handle) && offset + n <= s.allocations[handle - 1].size
  }

  /** The bytes of an allocation from an offset on. */
  function BytesAt(s: DeviceState, handle: nat, offset: nat, n: nat): seq<byte> {
    if Live(s, handle) && s.allocations[handle - 1].offset + offset + n <= |s.pool|
    then s.pool[s.allocations[handle - 1].offset + offset..][..n] else []
  }

  /** n bytes of data reached the allocation, and no other byte of the pool changed. */
  predicate Stored(s: DeviceState, t: DeviceState, handle: nat, offset: nat, data: seq<byte>) {
    && Live(s, handle) && |t.pool| == |s.pool|
    && t.allocations == s.allocations[handle - 1 := s.allocations[handle - 1].(
         uploaded := t.allocations[handle - 1].uploaded)]
    && t.allocations[handle - 1].uploaded == Max(s.allocations[handle - 1].uploaded, offset + |data|)
    && var at := s.allocations[handle - 1].offset + offset;
       && at + |data| <= |s.pool|
       && t.pool[at..][..|data|] == data
       && forall k | 0 <= k < |s.pool| && !(at <= k < at + |data|) :: t.pool[k] == s.pool[k]
  }

  lemma StoreMeaning(s: DeviceState, handle: nat, offset: nat, data: seq<byte>)
    requires Inv(s) && Holds(s, handle, offset, |data|)
    ensures Stored(s, Store(s, handle - 1, offset, data), handle, offset, data)
    ensures
      var t := Store(s, handle - 1, offset, data);
      t == s.(pool := t.pool, allocations := t.allocations)
  {
    LiveIsSound(s, handle - 1);
    InvPool(s);
    hide Inv;
    var at := s.allocations[handle - 1].offset + offset;
    SplicedAt(s.pool, at, data);
  }

  lemma SplicedAt(pool: seq<byte>, at: nat, data: seq<byte>)
    requires at + |data| <= |pool|
    ensures
      var t := Splice(pool, at, data);
      && t[at..][..|data|] == data
      && forall k | 0 <= k < |pool| && !(at <= k < at + |data|) :: t[k] == pool[k]
  {
  }

  /** From s to t the staged bytes were stored, and their number and the checksum of all that is
      uploaded were answered. */
  predicate UploadDone(s: DeviceState, t: DeviceState) {
    var h, n := s.stage[0], s.stage[4];
    && n <= 1024 && Stored(s, t, h, s.stage[1], s.payload[..n])
    && Answers(t, 0, n, Fnv1a(BytesAt(t, h, 0, t.allocations[h - 1].uploaded)), 0, 0)
    && OnlyAnswered(s.(pool := t.pool, allocations := t.allocations), t)
  }

  /** UPLOAD does that exactly when the range is inside a live allocation and the payload holds that
      many bytes; otherwise it is refused. */
  lemma UploadAnswers(s: DeviceState)
    requires Inv(s)
    ensures
      if Holds(s, s.stage[0], s.stage[1], s.stage[4]) && s.stage[4] <= 1024
      then UploadDone(s, Exec(s, 4))
      else Failed(Exec(s, 4), 2) && OnlyAnswered(s, Exec(s, 4))
  {
    var h, n := s.stage[0], s.stage[4];
    if Holds(s, h, s.stage[1], n) && n <= 1024 {
      UploadStores(s);
    } else {
      UploadRefused(s);
    }
    hide Inv, Exec, UploadDone, Answers, OnlyAnswered;
  }

  lemma UploadRefused(s: DeviceState)
    requires !(Holds(s, s.stage[0], s.stage[1], s.stage[4]) && s.stage[4] <= 1024)
    ensures Failed(Exec(s, 4), 2) && OnlyAnswered(s, Exec(s, 4))
  {
    hide Store, Fnv1a;
  }

  lemma UploadStores(s: DeviceState)
    requires Inv(s) && Holds(s, s.stage[0], s.stage[1], s.stage[4]) && s.stage[4] <= 1024
    ensures UploadDone(s, Exec(s, 4))
  {
    var h, n := s.stage[0], s.stage[4];
    var c := Answer(s, 0, 0, 0, 0);
    var u := Store(c, h - 1, s.stage[1], s.payload[..n]);
    UploadIsStore(s, h - 1);
    hide Exec, Store;
    UploadStored(s, c, u, Exec(s, 4));
  }

  lemma UploadStored(s: DeviceState, c: DeviceState, u: DeviceState, t: DeviceState)
    requires Inv(s) && Holds(s, s.stage[0], s.stage[1], s.stage[4]) && s.stage[4] <= 1024
    requires c == Answer(s, 0, 0, 0, 0) && u == Store(c, s.stage[0] - 1, s.stage[1], s.payload[..s.stage[4]])
    requires t == Answer(u, s.stage[4], Fnv1a(Uploaded(u, s.stage[0] - 1)), 0, 0)
    ensures UploadDone(s, t)
  {
    var h, n := s.stage[0], s.stage[4];
    RegistersKeepInv(s, c);
    StoreMeaning(c, h, s.stage[1], s.payload[..n]);
    UploadedInPool(s, c, u, h, s.stage[1], s.payload[..n]);
    hide Inv, Store, Fnv1a, Uploaded, Stored, BytesAt;
    StoredThenAnswered(s, c, u, t, h, s.stage[1], s.payload[..n]);
  }

  lemma UploadedInPool(s: DeviceState, c: DeviceState, u: DeviceState, h: nat, offset: nat, data: seq<byte>)
    requires Inv(s) && c.pool == s.pool && c.allocations == s.allocations
    requires Stored(c, u, h, offset, data) && Holds(s, h, offset, |data|)
    ensures Uploaded(u, h - 1) == BytesAt(u, h, 0, u.allocations[h - 1].uploaded)
  {
    LiveIsSound(s, h - 1);
    InvPool(s);
    hide Inv;
    UploadedBytes(u, h);
  }

  lemma StoredThenAnswered(s: DeviceState, c: DeviceState, u: DeviceState, t: DeviceState,
                           h: nat, offset: nat, data: seq<byte>)
    requires Stored(c, u, h, offset, data)
    requires c.pool == s.pool && c.allocations == s.allocations
    requires t.pool == u.pool && t.allocations == u.allocations
    ensures Stored(s, t, h, offset, data)
    ensures forall at: nat, n: nat :: BytesAt(t, h, at, n) == BytesAt(u, h, at, n)
  {
  }

  lemma UploadedBytes(u: DeviceState, h: nat)
    requires Live(u, h) && u.allocations[h - 1].offset + u.allocations[h - 1].uploaded <= |u.pool|
    ensures Uploaded(u, h - 1) == BytesAt(u, h, 0, u.allocations[h - 1].uploaded)
  {
  }
}
