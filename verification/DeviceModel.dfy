/** The reference meaning of the device core, on values.

    One function per wire operation maps a `DeviceState` to the next. Unlike the code, it is not
    written for a fixed memory: the allocator scans every offset, the completion ring is a
    sequence, a block is parsed by recursion, and a batch is run before its completions are queued.
    The class in Device.dfy is proved to compute these functions. */
module DeviceModel {
  import opened Words
  import opened Checksum
  import opened Protocol
  import opened Timing

  const TABLE_SIZE := 16
  const PAYLOAD_BYTES := 1024
  const POOL_LIMIT := 0x8000_0000

  datatype Config = Config(
    hasPool: bool, poolBytes: u32, reportedLocalBytes: u32, capabilities: u32, timing: TimingModel)

  datatype Allocation = Allocation(offset: u32, size: u32, uploaded: u32, live: bool)

  datatype Job = Job(
    allocation: u32, modeledUs: u32, speedupX1000: u32, checksum: u32, softwareUs: u32,
    pollsRemaining: byte, ready: bool, live: bool, handle: u32)

  const NO_ALLOCATION := Allocation(0, 0, 0, false)
  const NO_JOB := Job(0, 0, 0, 0, 0, 0, false, false, 0)
  const NO_COMPLETION := Completion(COMPLETION_MAGIC, BLOCK_VERSION, OK, 0, 0, 0, 0, 0, 0, 0, 0, 0)

  type Stage = s: seq<u32> | |s| == STAGE_REGISTERS witness seq(STAGE_REGISTERS, i => 0)
  type Payload = p: seq<byte> | |p| == PAYLOAD_BYTES witness Zeros(PAYLOAD_BYTES)
  type Allocations = a: seq<Allocation> | |a| == TABLE_SIZE witness seq(TABLE_SIZE, i => NO_ALLOCATION)
  type Jobs = j: seq<Job> | |j| == TABLE_SIZE witness seq(TABLE_SIZE, i => NO_JOB)
  type Queue = q: seq<Completion> | |q| <= TABLE_SIZE witness []

  datatype DeviceState = DeviceState(
    config: Config, stage: Stage, payload: Payload, pool: seq<byte>,
    allocations: Allocations, jobs: Jobs, queue: Queue,
    nextJob: u32, transfers: u64, completed: bool)

  function AlignUp4(value: u32): u32 { Wrap32(value + 3) / 4 * 4 }

  function InitialState(config: Config): DeviceState {
    DeviceState(
      if config.reportedLocalBytes == 0 then config.(reportedLocalBytes := config.poolBytes) else config,
      seq(STAGE_REGISTERS, i => 0), Zeros(PAYLOAD_BYTES),
      Zeros(if config.hasPool then config.poolBytes else 0),
      seq(TABLE_SIZE, i => NO_ALLOCATION), seq(TABLE_SIZE, i => NO_JOB), [], 1, 0, false)
  }

  // ---------------------------------------------------------------------------
  // Allocator
  // ---------------------------------------------------------------------------

  function AllocationIndex(allocations: Allocations, handle: u32): Option<nat> {
    if handle == 0 || handle > TABLE_SIZE || !allocations[handle - 1].live then None
    else Some(handle - 1)
  }

  /** The interval [off, off + bytes) misses allocation a. */
  predicate Apart(a: Allocation, off: nat, bytes: nat) {
    off + bytes <= a.offset || a.offset + a.size <= off
  }

  predicate Fits(allocations: Allocations, off: nat, bytes: nat, poolBytes: nat) {
    && off + bytes <= poolBytes
    && forall i | 0 <= i < TABLE_SIZE && allocations[i].live :: Apart(allocations[i], off, bytes)
  }

  /** The lowest offset from `off` on at which `bytes` fit, trying every offset in turn. */
  function LowestFit(allocations: Allocations, bytes: nat, poolBytes: nat, off: nat): Option<nat>
    decreases poolBytes + 1 - off
  {
    if off + bytes > poolBytes then None
    else if Fits(allocations, off, bytes, poolBytes) then Some(off)
    else LowestFit(allocations, bytes, poolBytes, off + 1)
  }

  function FreeAllocation(allocations: Allocations, i: nat): (slot: nat)
    requires i <= TABLE_SIZE
    ensures i <= slot <= TABLE_SIZE
    ensures slot < TABLE_SIZE ==> !allocations[slot].live
    ensures forall k | i <= k < slot :: allocations[k].live
    decreases TABLE_SIZE - i
  {
    if i == TABLE_SIZE || !allocations[i].live then i else FreeAllocation(allocations, i + 1)
  }

  /** The handle granted, 0 for none. */
  function Allocate(s: DeviceState, request: u32): (DeviceState, u32) {
    var bytes := AlignUp4(request);
    var slot := FreeAllocation(s.allocations, 0);
    if request == 0 || request > s.config.poolBytes || !s.config.hasPool
       || bytes > s.config.poolBytes || slot == TABLE_SIZE
    then (s, 0)
    else match LowestFit(s.allocations, bytes, s.config.poolBytes, 0)
      case None => (s, 0)
      case Some(off) =>
        (s.(allocations := s.allocations[slot := Allocation(Wrap32(off), bytes, 0, true)]), slot + 1)
  }

  // ---------------------------------------------------------------------------
  // Jobs
  // ---------------------------------------------------------------------------

  function FreeJob(jobs: Jobs, i: nat): (slot: nat)
    requires i <= TABLE_SIZE
    ensures i <= slot <= TABLE_SIZE
    ensures slot < TABLE_SIZE ==> !jobs[slot].live
    ensures forall k | i <= k < slot :: jobs[k].live
    decreases TABLE_SIZE - i
  {
    if i == TABLE_SIZE || !jobs[i].live then i else FreeJob(jobs, i + 1)
  }

  /** The first live job with the handle. */
  function JobIndex(jobs: Jobs, handle: u32, i: nat): (index: Option<nat>)
    requires i <= TABLE_SIZE
    ensures index.Some? ==>
      i <= index.value < TABLE_SIZE && jobs[index.value].live && jobs[index.value].handle == handle
    ensures index.None? && handle != 0 ==>
      forall k | i <= k < TABLE_SIZE :: !(jobs[k].live && jobs[k].handle == handle)
    decreases TABLE_SIZE - i
  {
    if handle == 0 || i == TABLE_SIZE then None
    else if jobs[i].live && jobs[i].handle == handle then Some(i)
    else JobIndex(jobs, handle, i + 1)
  }

  // ---------------------------------------------------------------------------
  // F0, F2, F3
  // ---------------------------------------------------------------------------

  function WriteReg(s: DeviceState, index: byte, value: u32): DeviceState {
    if index < STAGE_REGISTERS then s.(stage := s.stage[index := value]) else s
  }

  function ReadReg(s: DeviceState, index: byte): u32 {
    if index == EVENT_COMPLETION_DEPTH then |s.queue|
    else if index < STAGE_REGISTERS then s.stage[index]
    else 0
  }

  function WritePayloadWord(s: DeviceState, index: byte, value: u32): DeviceState {
    s.(payload := Splice(s.payload, 4 * index, BytesOf([value])))
  }

  // ---------------------------------------------------------------------------
  // F1
  // ---------------------------------------------------------------------------

  function Answer(s: DeviceState, out0: u32, out1: u32, out2: u32, out3: u32): DeviceState {
    s.(stage := s.stage[RESULT := OK][OUT0 := out0][OUT1 := out1][OUT2 := out2][OUT3 := out3])
  }

  function Refuse(s: DeviceState, status: u16): DeviceState {
    s.(stage := s.stage[RESULT := status][OUT0 := 0][OUT1 := 0][OUT2 := 0][OUT3 := 0])
  }

  function ExecAlloc(s: DeviceState): DeviceState {
    var (s', handle) := Allocate(s, s.stage[ARG0]);
    if handle == 0 then Refuse(s, NO_MEMORY)
    else Answer(s', handle, AlignUp4(s.stage[ARG0]), 0, 0)
  }

  /** An UPLOAD or inline write of `data` into allocation i at `offset`. */
  function Store(s: DeviceState, i: nat, offset: nat, data: seq<byte>): DeviceState
    requires i < TABLE_SIZE
  {
    var a := s.allocations[i];
    s.(pool := Splice(s.pool, a.offset + offset, data),
       allocations := s.allocations[i := a.(uploaded := Wrap32(Max(a.uploaded, offset + |data|)))])
  }

  predicate InRange(a: Allocation, offset: u32, length: u32) {
    offset <= a.size && length <= a.size - offset
  }

  /** The bytes an allocation has been given so far, up to its high-water mark. */
  function Uploaded(s: DeviceState, i: nat): seq<byte>
    requires i < TABLE_SIZE
  {
    Slice(s.pool, s.allocations[i].offset, s.allocations[i].uploaded)
  }

  predicate UploadAccepted(s: DeviceState) {
    var a := AllocationIndex(s.allocations, s.stage[ARG0]);
    && a.Some?
    && s.stage[PAYLOAD_LEN] <= PAYLOAD_BYTES
    && InRange(s.allocations[a.value], s.stage[ARG1], s.stage[PAYLOAD_LEN])
  }

  function ExecUpload(s: DeviceState): DeviceState {
    if !UploadAccepted(s) then Refuse(s, BAD_HANDLE)
    else
      var i := AllocationIndex(s.allocations, s.stage[ARG0]).value;
      var s' := Store(s, i, s.stage[ARG1], s.payload[..s.stage[PAYLOAD_LEN]]);
      Answer(s', s.stage[PAYLOAD_LEN], Fnv1a(Uploaded(s', i)), 0, 0)
  }

  function AddJob(s: DeviceState, slot: nat, job: Job): DeviceState
    requires slot < TABLE_SIZE
  {
    s.(jobs := s.jobs[slot := job], nextJob := Wrap32(s.nextJob + 1))
  }

  function SubmittedJob(s: DeviceState, i: nat): Job
    requires i < TABLE_SIZE
  {
    var modeled := LegacyModelUs(s.config.timing, s.allocations[i].uploaded, 16, s.stage[ARG2]);
    Job(s.stage[ARG0], modeled, SpeedupX1000(s.stage[ARG3], modeled), Fnv1a(Uploaded(s, i)),
        s.stage[ARG3], 2, false, true, s.nextJob)
  }

  function ExecSubmit(s: DeviceState): DeviceState {
    var a := AllocationIndex(s.allocations, s.stage[ARG0]);
    var slot := FreeJob(s.jobs, 0);
    if a.None? then Refuse(s, BAD_HANDLE)
    else if slot == TABLE_SIZE then Refuse(s, QUEUE_FULL)
    else
      var job := SubmittedJob(s, a.value);
      Answer(AddJob(s, slot, job), job.handle, job.modeledUs, 0, 0)
  }

  function Polled(job: Job): Job {
    if job.ready then job
    else
      var left := if job.pollsRemaining > 0 then job.pollsRemaining - 1 else 0;
      job.(pollsRemaining := left, ready := left == 0)
  }

  function ExecPoll(s: DeviceState): DeviceState {
    match JobIndex(s.jobs, s.stage[ARG0], 0)
    case None => Refuse(s, BAD_HANDLE)
    case Some(i) =>
      var job := Polled(s.jobs[i]);
      Answer(s.(jobs := s.jobs[i := job]), if job.ready then 1 else 0, job.pollsRemaining, 0, 0)
  }

  function ExecCollect(s: DeviceState): DeviceState {
    match JobIndex(s.jobs, s.stage[ARG0], 0)
    case None => Refuse(s, BAD_HANDLE)
    case Some(i) =>
      var job := s.jobs[i];
      if !job.ready then Refuse(s, NOT_READY)
      else Answer(s, job.modeledUs, job.speedupX1000, job.checksum, job.softwareUs)
  }

  function ExecFree(s: DeviceState): DeviceState {
    match AllocationIndex(s.allocations, s.stage[ARG0])
    case None => Refuse(s, BAD_HANDLE)
    case Some(i) =>
      Answer(s.(allocations := s.allocations[i := s.allocations[i].(live := false, uploaded := 0)]),
             0, 0, 0, 0)
  }

  /** EXEC first reports success with empty outputs; the command then runs on that. */
  function Exec(s: DeviceState, command: byte): DeviceState {
    Dispatch(Answer(s, 0, 0, 0, 0), command)
  }

  function Dispatch(s: DeviceState, command: byte): DeviceState {
    if command == HELLO then
      Answer(s, PROTOCOL_VERSION, s.config.capabilities, s.config.reportedLocalBytes, TRANSPORT_GENERATION)
    else if command == GET_CAPS then
      Answer(s, s.config.capabilities, s.config.reportedLocalBytes,
             s.config.timing.busBytesPerSecond, s.config.timing.commandLatencyNs / 1000)
    else if command == ALLOC then ExecAlloc(s)
    else if command == UPLOAD then ExecUpload(s)
    else if command == SUBMIT then ExecSubmit(s)
    else if command == POLL then ExecPoll(s)
    else if command == COLLECT then ExecCollect(s)
    else if command == FREE then ExecFree(s)
    else if command == COMPLETE then Answer(s.(completed := true), COMPLETE_ACK, 0, 0, 0)
    else Refuse(s, BAD_COMMAND)
  }

  // ---------------------------------------------------------------------------
  // F4
  // ---------------------------------------------------------------------------

  /** One accepted descriptor with the bytes that follow it in the block, if it carries any. */
  datatype Item = Item(desc: Descriptor, input: Option<seq<byte>>) {
    /** The bytes carried are the bytes announced. */
    predicate Consistent() {
      && desc.Accepted()
      && (input.Some? <==> desc.Inline())
      && (input.Some? ==> |input.value| == desc.inputLength)
    }
  }

  datatype Parsed = Bad(status: u16) | Items(items: seq<Item>)

  predicate Faulty(status: u16) { status == BAD_DESCRIPTOR || status == BAD_BLOCK }

  function Prepend(front: seq<Item>, p: Parsed): Parsed {
    if p.Bad? then p else Items(front + p.items)
  }

  /** What stands at the front of a block: the end, a fault, or one item and what follows it. */
  datatype Head = End | Fault(status: u16) | One(item: Item, rest: seq<byte>)

  function ParseHead(data: seq<byte>): (h: Head)
    ensures h.One? ==> h.item.Consistent() && |h.rest| < |data|
    ensures h.Fault? ==> Faulty(h.status)
  {
    if |data| < RECORD_BYTES then End
    else
      var desc := DecodeDescriptor(data[..RECORD_BYTES]);
      var n := desc.InlineLength();
      if desc.magic == 0 then End
      else if !desc.Accepted() then Fault(BAD_DESCRIPTOR)
      else if n > |data| - RECORD_BYTES then Fault(BAD_BLOCK)
      else One(Item(desc, if desc.Inline() then Some(data[RECORD_BYTES..RECORD_BYTES + n]) else None),
               data[RECORD_BYTES + n..])
  }

  /** The items at the front of `data`, when `count` have been read before it. */
  function ParseItems(data: seq<byte>, count: nat): (p: Parsed)
    requires count <= MAX_DESCRIPTORS
    ensures p.Bad? ==> Faulty(p.status)
    ensures p.Items? ==> |p.items| <= MAX_DESCRIPTORS - count
    ensures p.Items? ==> forall k | 0 <= k < |p.items| :: p.items[k].Consistent()
    decreases MAX_DESCRIPTORS - count
  {
    if count == MAX_DESCRIPTORS then Items([])
    else match ParseHead(data)
      case End => Items([])
      case Fault(status) => Bad(status)
      case One(item, rest) => Prepend([item], ParseItems(rest, count + 1))
  }

  function ParseBlock(data: seq<byte>): (p: Parsed)
    ensures p.Bad? ==> Faulty(p.status)
    ensures p.Items? ==> 0 < |p.items| <= MAX_DESCRIPTORS
    ensures p.Items? ==> forall k | 0 <= k < |p.items| :: p.items[k].Consistent()
  {
    var p := ParseItems(data, 0);
    if p == Items([]) then Bad(BAD_DESCRIPTOR) else p
  }

  function BlankCompletion(desc: Descriptor, batch: u32, share: u32): Completion {
    Completion(COMPLETION_MAGIC, BLOCK_VERSION, OK, desc.sequence, 0, 0, 0, 0,
               desc.arg0, desc.outputLength, share, batch)
  }

  function BlockJob(s: DeviceState, i: nat, desc: Descriptor, share: u32): Job
    requires i < TABLE_SIZE
  {
    var modeled := BlockModelUs(s.config.timing, desc.workUnits, share);
    Job(desc.inputHandle, modeled, SpeedupX1000(desc.arg0, modeled),
        Fnv1a(Slice(s.pool, s.allocations[i].offset + desc.inputOffset, desc.inputLength)),
        desc.arg0, 0, true, true, s.nextJob)
  }

  predicate InputAccepted(s: DeviceState, desc: Descriptor) {
    var a := AllocationIndex(s.allocations, desc.inputHandle);
    a.Some? && InRange(s.allocations[a.value], desc.inputOffset, desc.inputLength)
  }

  predicate OutputAccepted(s: DeviceState, desc: Descriptor) {
    desc.outputHandle != 0 ==>
      var a := AllocationIndex(s.allocations, desc.outputHandle);
      a.Some? && InRange(s.allocations[a.value], desc.outputOffset, desc.outputLength)
  }

  /** The inline bytes of an item reach the pool before anything else about it is judged. */
  function Deliver(s: DeviceState, item: Item): DeviceState {
    if !InputAccepted(s, item.desc) || item.input.None? then s
    else Store(s, AllocationIndex(s.allocations, item.desc.inputHandle).value,
               item.desc.inputOffset, item.input.value)
  }

  /** The status the completion of an item carries, in the state its input was delivered to. */
  function Verdict(s: DeviceState, item: Item): u16 {
    var d := item.desc;
    if !InputAccepted(s, d) then BAD_HANDLE
    else if item.input.None?
      && s.allocations[AllocationIndex(s.allocations, d.inputHandle).value].uploaded < d.inputOffset + d.inputLength
      then BAD_DESCRIPTOR
    else if !OutputAccepted(s, d) then BAD_HANDLE
    else if FreeJob(s.jobs, 0) == TABLE_SIZE then QUEUE_FULL
    else OK
  }

  /** Runs one item; the completion is returned, not queued. */
  function RunItem(s: DeviceState, item: Item, batch: u32, share: u32): (DeviceState, Completion) {
    var s' := Deliver(s, item);
    var blank := BlankCompletion(item.desc, batch, share);
    var verdict := Verdict(s', item);
    if verdict != OK then (s', blank.(status := verdict))
    else
      var i := AllocationIndex(s'.allocations, item.desc.inputHandle).value;
      var job := BlockJob(s', i, item.desc, share);
      (AddJob(s', FreeJob(s'.jobs, 0), job),
       blank.(jobHandle := job.handle, modeledUs := job.modeledUs,
              speedupX1000 := job.speedupX1000, checksum := job.checksum))
  }

  /** Runs a batch in order and collects one completion per item. */
  function RunItems(s: DeviceState, items: seq<Item>, batch: u32, share: u32): (r: (DeviceState, seq<Completion>))
    ensures |r.1| == |items|
  {
    if |items| == 0 then (s, [])
    else
      var (s', done) := RunItems(s, items[..|items| - 1], batch, share);
      var (s'', c) := RunItem(s', items[|items| - 1], batch, share);
      (s'', done + [c])
  }

  /** The queue keeps what it has and takes new records while it has room. */
  function Enqueue(queue: Queue, records: seq<Completion>): (q: Queue) {
    queue + records[..Min(|records|, TABLE_SIZE - |queue|)]
  }

  function RunBatch(s: DeviceState, items: seq<Item>): (DeviceState, u16)
    requires 0 < |items| <= MAX_DESCRIPTORS
  {
    var (s', records) := RunItems(s, items, |items|, TransportShareNs(s.config.timing, |items|));
    (s'.(queue := Enqueue(s.queue, records)),
     if |s.queue| + |records| > TABLE_SIZE then QUEUE_FULL else OK)
  }

  function ProcessBlock(s: DeviceState, data: seq<byte>): (DeviceState, u16) {
    match ParseBlock(data)
    case Bad(status) => (s, status)
    case Items(items) => RunBatch(s, items)
  }

  predicate BlockWellFormed(selector: byte, word: u32, data: Option<seq<byte>>) {
    && selector == SELECTOR_SUBMISSION && data.Some?
    && 0 < WriteBlockLength(word) <= BLOCK_BYTES && WriteBlockLength(word) <= |data.value|
  }

  function WithResult(s: DeviceState, status: u16): DeviceState {
    s.(stage := s.stage[RESULT := status])
  }

  function WriteBlock(s: DeviceState, selector: byte, word: u32, data: Option<seq<byte>>): (DeviceState, u16) {
    if !BlockWellFormed(selector, word, data) then (WithResult(s, BAD_BLOCK), BAD_BLOCK)
    else
      var (s', status) := ProcessBlock(s, data.value[..WriteBlockLength(word)]);
      (WithResult(s', status), status)
  }

  // ---------------------------------------------------------------------------
  // F5
  // ---------------------------------------------------------------------------

  function EncodeCompletions(records: seq<Completion>): (bs: seq<byte>)
    ensures |bs| == 64 * |records|
  {
    if |records| == 0 then []
    else EncodeCompletions(records[..|records| - 1]) + EncodeCompletion(records[|records| - 1])
  }

  predicate ReadWellFormed(selector: byte, word: u32, outBytes: Option<nat>) {
    && selector == SELECTOR_COMPLETION && ReadBlockOffset(word) == 0
    && 0 < ReadBlockLength(word) <= BLOCK_BYTES && outBytes.Some? && outBytes.value > 0
  }

  /** How many records an F5 hands out. */
  function Popped(s: DeviceState, selector: byte, word: u32, outBytes: Option<nat>): (n: nat)
    ensures n <= |s.queue|
    ensures outBytes.Some? ==> 64 * n <= outBytes.value
  {
    if !ReadWellFormed(selector, word, outBytes) then 0
    else Min(|s.queue|, Min(ReadBlockLength(word), outBytes.value) / 64)
  }

  function ReadBlock(s: DeviceState, selector: byte, word: u32, outBytes: Option<nat>): DeviceState {
    WithResult(s.(queue := s.queue[Popped(s, selector, word, outBytes)..]),
               if ReadWellFormed(selector, word, outBytes) then OK else BAD_BLOCK)
  }

  /** Records at the front of a buffer, zeros after them. */
  function Image(records: seq<Completion>, size: nat): (bs: seq<byte>)
    requires 64 * |records| <= size
    ensures |bs| == size
  {
    EncodeCompletions(records) + Zeros(size - 64 * |records|)
  }

  /** What an F5 leaves in the caller's buffer. */
  function ReadBlockBytes(s: DeviceState, selector: byte, word: u32, outBytes: nat): (bs: seq<byte>)
    ensures |bs| == outBytes
  {
    Image(s.queue[..Popped(s, selector, word, Some(outBytes))], outBytes)
  }

  // ---------------------------------------------------------------------------
  // Runs
  // ---------------------------------------------------------------------------

  datatype Op =
    | OpCountTransfer
    | OpWriteReg(index: byte, value: u32)
    | OpReadReg(index: byte)
    | OpWritePayloadWord(index: byte, value: u32)
    | OpExec(command: byte, sequence: u32)
    | OpWriteBlock(selector: byte, word: u32, data: Option<seq<byte>>)
    | OpReadBlock(selector: byte, word: u32, outBytes: Option<nat>)

  function Step(s: DeviceState, op: Op): DeviceState {
    match op
    case OpCountTransfer => s.(transfers := Wrap64(s.transfers + 1))
    case OpWriteReg(index, value) => WriteReg(s, index, value)
    case OpReadReg(index) => s
    case OpWritePayloadWord(index, value) => WritePayloadWord(s, index, value)
    case OpExec(command, sequence) => Exec(s, command)
    case OpWriteBlock(selector, word, data) => WriteBlock(s, selector, word, data).0
    case OpReadBlock(selector, word, outBytes) => ReadBlock(s, selector, word, outBytes)
  }

  function Run(s: DeviceState, ops: seq<Op>): DeviceState
    decreases |ops|
  {
    if |ops| == 0 then s else Run(Step(s, ops[0]), ops[1..])
  }

  lemma {:induction false} RunConcat(s: DeviceState, a: seq<Op>, b: seq<Op>)
    ensures Run(s, a + b) == Run(Run(s, a), b)
    decreases |a|
  {
    if |a| == 0 {
      assert a + b == b;
    } else {
      assert (a + b)[0] == a[0] && (a + b)[1..] == a[1..] + b;
      RunConcat(Step(s, a[0]), a[1..], b);
    }
  }
}
