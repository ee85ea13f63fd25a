/** The device core as the code has it: one object, fixed tables, a pool and a completion ring,
    all updated in place. Every method is proved to compute the reference meaning. */
module DeviceCore {
  import opened Words
  import opened Checksum
  import opened Protocol
  import opened Timing
  import opened DeviceModel
  import opened DeviceInvariant

  /** The records a ring holds, oldest first. */
  function Ring(slots: seq<Completion>, read: nat, count: nat): (q: seq<Completion>)
    requires |slots| == TABLE_SIZE
    ensures |q| == count
  {
    seq(count, k requires 0 <= k < count => slots[(read + k) % TABLE_SIZE])
  }

  lemma RingPush(slots: seq<Completion>, read: nat, count: nat, record: Completion)
    requires |slots| == TABLE_SIZE && read < TABLE_SIZE && count < TABLE_SIZE
    ensures Ring(slots[(read + count) % TABLE_SIZE := record], read, count + 1)
         == Ring(slots, read, count) + [record]
  {
  }

  lemma RingPop(slots: seq<Completion>, read: nat, count: nat)
    requires |slots| == TABLE_SIZE && read < TABLE_SIZE && 0 < count <= TABLE_SIZE
    ensures Ring(slots, read, count)[0] == slots[read]
    ensures Ring(slots, (read + 1) % TABLE_SIZE, count - 1) == Ring(slots, read, count)[1..]
  {
  }

  lemma EnqueueOne(queue: Queue, record: Completion)
    ensures Enqueue(queue, [record]) == if |queue| < TABLE_SIZE then queue + [record] else queue
  {
  }

  lemma NextSlot(read: nat, count: nat)
    requires read < TABLE_SIZE && count < TABLE_SIZE
    ensures ((read + count) % TABLE_SIZE + 1) % TABLE_SIZE == (read + count + 1) % TABLE_SIZE
  {
  }

  lemma ShortSuffixEnds(rest: seq<byte>, count: nat)
    requires count <= MAX_DESCRIPTORS
    requires |rest| < RECORD_BYTES || count == MAX_DESCRIPTORS || ParseHead(rest) == End
    ensures ParseItems(rest, count) == Items([])
  {
  }

  lemma PrependTwice(a: seq<Item>, b: seq<Item>, p: Parsed)
    ensures Prepend(a, Prepend(b, p)) == Prepend(a + b, p)
  {
    if p.Items? {
      assert a + (b + p.items) == (a + b) + p.items;
    }
  }

  lemma PrependNothing(p: Parsed)
    ensures Prepend([], p) == p
  {
  }

  lemma SuffixPop(queue: seq<Completion>, n: nat)
    requires n < |queue|
    ensures queue[n..] != [] && queue[n..][0] == queue[n] && queue[n..][1..] == queue[n + 1..]
  {
  }

  lemma WholeRecords(available: nat, limit: nat, n: nat)
    requires n <= available && 64 * n <= limit
    requires limit < 64 * n + 64 || n == available
    ensures n == Min(available, limit / 64)
  {
  }

  lemma ImageOfNone(queue: seq<Completion>, size: nat)
    ensures Image(queue[..0], size) == Zeros(size)
  {
  }

  lemma ImageOneMore(queue: seq<Completion>, n: nat, size: nat)
    requires n < |queue| && 64 * (n + 1) <= size
    ensures Splice(Image(queue[..n], size), 64 * n, EncodeCompletion(queue[n])) == Image(queue[..n + 1], size)
  {
    hide EncodeCompletion;
    assert queue[..n + 1][..n] == queue[..n];
  }

  /** The head of a suffix of the block, in terms of positions in the block. */
  lemma HeadAt(data: seq<byte>, cursor: nat)
    requires cursor + RECORD_BYTES <= |data|
    ensures
      var body := cursor + RECORD_BYTES;
      var desc := DecodeDescriptor(data[cursor..body]);
      var n := desc.InlineLength();
      ParseHead(data[cursor..]) ==
        if desc.magic == 0 then End
        else if !desc.Accepted() then Fault(BAD_DESCRIPTOR)
        else if n > |data| - body then Fault(BAD_BLOCK)
        else One(Item(desc, if desc.Inline() then Some(data[body..body + n]) else None), data[body + n..])
  {
    var rest := data[cursor..];
    assert rest[..RECORD_BYTES] == data[cursor..cursor + RECORD_BYTES];
    var n := DecodeDescriptor(rest[..RECORD_BYTES]).InlineLength();
    if n <= |rest| - RECORD_BYTES {
      var body := cursor + RECORD_BYTES;
      assert rest[RECORD_BYTES..RECORD_BYTES + n] == data[body..body + n];
      assert rest[RECORD_BYTES + n..] == data[body + n..];
    }
  }

  lemma StoreKeepsLive(s: DeviceState, i: nat, offset: nat, data: seq<byte>)
    requires i < TABLE_SIZE && s.allocations[i].live
    ensures Store(s, i, offset, data).allocations[i].live
  {
  }

  lemma DeliverKeepsInput(s: DeviceState, item: Item)
    ensures InputAccepted(Deliver(s, item), item.desc) <==> InputAccepted(s, item.desc)
    ensures AllocationIndex(Deliver(s, item).allocations, item.desc.inputHandle)
         == AllocationIndex(s.allocations, item.desc.inputHandle)
  {
  }

  lemma DeliverKeepsQueue(s: DeviceState, item: Item)
    ensures Deliver(s, item).queue == s.queue
  {
  }

  lemma OkMeansAccepted(s: DeviceState, item: Item)
    requires Verdict(s, item) == OK
    ensures InputAccepted(s, item.desc) && FreeJob(s.jobs, 0) < TABLE_SIZE
  {
  }

  lemma RunItemIgnoresQueue(s: DeviceState, item: Item, batch: u32, share: u32, queue: Queue)
    ensures
      var (s', c) := RunItem(s, item, batch, share);
      RunItem(s.(queue := queue), item, batch, share) == (s'.(queue := queue), c)
  {
    hide AllocationIndex, BlankCompletion, FreeJob, Fnv1a, Splice, Slice;
    var t := s.(queue := queue);
    assert Deliver(t, item) == Deliver(s, item).(queue := queue);
    assert Verdict(Deliver(t, item), item) == Verdict(Deliver(s, item), item);
  }

  lemma EnqueueAppend(queue: Queue, records: seq<Completion>, c: Completion)
    ensures Enqueue(Enqueue(queue, records), [c]) == Enqueue(queue, records + [c])
  {
  }

  class Device {
    var config: Config
    var pool: array<byte>
    const stage: array<u32>
    const payload: array<byte>
    const allocations: array<Allocation>
    const jobs: array<Job>
    const completions: array<Completion>
    var completionRead: u32
    var completionWrite: u32
    var completionCount: u32
    var nextJob: u32
    var transfers: u64
    var completed: bool

    ghost function Repr(): set<object>
      reads this
    {
      {this, pool, stage, payload, allocations, jobs, completions}
    }

    ghost predicate Layout()
      reads this
    {
      && stage.Length == STAGE_REGISTERS && payload.Length == PAYLOAD_BYTES
      && allocations.Length == TABLE_SIZE && jobs.Length == TABLE_SIZE
      && completions.Length == TABLE_SIZE
      && completionRead < TABLE_SIZE && completionCount <= TABLE_SIZE
      && pool != payload && pool as object != stage && payload as object != stage
    }

    ghost function State(): DeviceState
      requires Layout()
      reads this, pool, stage, payload, allocations, jobs, completions
    {
      DeviceState(config, stage[..], payload[..], pool[..], allocations[..], jobs[..],
                  Ring(completions[..], completionRead, completionCount), nextJob, transfers, completed)
    }

    ghost predicate Valid()
      reads this, pool, stage, payload, allocations, jobs, completions
    {
      && Layout()
      && completionWrite == (completionRead + completionCount) % TABLE_SIZE
      && Inv(State())
    }

    /** A device before its first reset: its memory exists, its state means nothing yet. */
    constructor ()
      ensures Layout() && fresh(Repr())
    {
      config := Config(false, 0, 0, 0, TimingModel(0, 0, 0));
      pool := new byte[0];
      stage := new u32[STAGE_REGISTERS];
      payload := new byte[PAYLOAD_BYTES];
      allocations := new Allocation[TABLE_SIZE];
      jobs := new Job[TABLE_SIZE];
      completions := new Completion[TABLE_SIZE];
      completionRead, completionWrite, completionCount := 0, 0, 0;
      nextJob, transfers, completed := 1, 0, false;
    }

    method Reset(config: Config, pool: array<byte>)
      requires Layout() && config.poolBytes < POOL_LIMIT
      requires pool.Length == if config.hasPool then config.poolBytes else 0
      requires pool != payload && pool as object != stage
      modifies Repr(), pool
      ensures Valid() && this.pool == pool
      ensures State() == InitialState(config)
    {
      hide Inv;
      this.config :=
        if config.reportedLocalBytes == 0 then config.(reportedLocalBytes := config.poolBytes) else config;
      this.pool := pool;
      Clear(payload);
      Clear(pool);
      ClearTables();
      completionRead, completionWrite, completionCount := 0, 0, 0;
      nextJob, transfers, completed := 1, 0, false;
      InitialInv(config);
      assert State() == InitialState(config);
    }

    method ClearTables()
      requires Layout()
      modifies stage, allocations, jobs, completions
      ensures stage[..] == seq(STAGE_REGISTERS, i => 0)
      ensures allocations[..] == seq(TABLE_SIZE, i => NO_ALLOCATION)
      ensures jobs[..] == seq(TABLE_SIZE, i => NO_JOB)
      ensures Layout() && payload[..] == old(payload[..]) && pool[..] == old(pool[..])
    {
      forall i | 0 <= i < STAGE_REGISTERS { stage[i] := 0; }
      forall i | 0 <= i < TABLE_SIZE { allocations[i] := NO_ALLOCATION; }
      forall i | 0 <= i < TABLE_SIZE { jobs[i] := NO_JOB; }
      forall i | 0 <= i < TABLE_SIZE { completions[i] := NO_COMPLETION; }
    }

    method CountTransfer()
      requires Valid()
      modifies this`transfers
      ensures Valid() && State() == Step(old(State()), OpCountTransfer)
    {
      transfers := Wrap64(transfers + 1);
    }

    // -------------------------------------------------------------------------
    // Allocator
    // -------------------------------------------------------------------------

    function AllocationForHandle(handle: u32): (index: Option<nat>)
      requires allocations.Length == TABLE_SIZE
      reads allocations
      ensures index == AllocationIndex(allocations[..], handle)
    {
      if handle == 0 || handle > TABLE_SIZE then None
      else if allocations[handle - 1].live then Some(handle - 1)
      else None
    }

    method FreeAllocationSlot() returns (slot: nat)
      requires allocations.Length == TABLE_SIZE
      ensures slot == FreeAllocation(allocations[..], 0)
    {
      slot := 0;
      while slot < TABLE_SIZE && allocations[slot].live
        invariant slot <= TABLE_SIZE
        invariant FreeAllocation(allocations[..], 0) == FreeAllocation(allocations[..], slot)
      {
        slot := slot + 1;
      }
    }

    /** Looks for an allocation in the way of [candidate, candidate + bytes) and for the farthest
        end of one. No offset short of that end can fit. */
    method Obstruction(candidate: u32, bytes: u32) returns (overlap: bool, bump: u32)
      requires Valid() && 0 < bytes && candidate + bytes <= |State().pool|
      requires candidate % 4 == 0
      ensures !overlap <==> Fits(allocations[..], candidate, bytes, |State().pool|)
      ensures overlap ==> candidate < bump <= |State().pool| && bump % 4 == 0
      ensures forall o | candidate <= o < bump :: !Fits(allocations[..], o, bytes, |State().pool|)
    {
      ghost var table, size := allocations[..], |State().pool|;
      overlap, bump := false, candidate;
      for i := 0 to TABLE_SIZE
        invariant bump % 4 == 0 && candidate <= bump <= size
        invariant overlap <==> exists k | 0 <= k < i :: table[k].live && !Apart(table[k], candidate, bytes)
        invariant overlap ==> candidate < bump
        invariant forall o | candidate <= o < bump :: !Fits(table, o, bytes, size)
      {
        var a := allocations[i];
        if a.live {
          assert SoundAllocation(table[i], size);
          var end, allocationEnd := candidate + bytes, a.offset + a.size;
          if !(end <= a.offset || candidate >= allocationEnd) {
            forall o | candidate <= o < allocationEnd
              ensures !Fits(table, o, bytes, size)
            {
              assert !Apart(table[i], o, bytes);
            }
            overlap := true;
            bump := Max(bump, allocationEnd);
          }
        }
      }
    }

    /** First fit by jumping past obstructions; the reference tries every offset. */
    method FirstFitOffset(bytes: u32) returns (offset: Option<nat>)
      requires Valid() && 0 < bytes && |State().pool| == config.poolBytes
      ensures offset == LowestFit(allocations[..], bytes, config.poolBytes, 0)
    {
      LowestFitMeaning(allocations[..], bytes, config.poolBytes, 0);
      var candidate: u32 := 0;
      while candidate + bytes <= config.poolBytes
        invariant candidate % 4 == 0 && candidate <= config.poolBytes
        invariant forall o | 0 <= o < candidate :: !Fits(allocations[..], o, bytes, config.poolBytes)
        decreases config.poolBytes - candidate
      {
        var overlap, bump := Obstruction(candidate, bytes);
        if !overlap {
          return Some(candidate);
        }
        candidate := AlignUp4(bump);
      }
      assert forall o: nat | candidate <= o :: !Fits(allocations[..], o, bytes, config.poolBytes);
      return None;
    }

    method Allocate(request: u32) returns (handle: u32)
      requires Valid()
      modifies allocations
      ensures Valid()
      ensures (State(), handle) == DeviceModel.Allocate(old(State()), request)
    {
      hide Inv, LowestFit, FreeAllocation, Ring;
      AllocateKeepsInv(State(), request);
      InvPool(State());
      if request == 0 || request > config.poolBytes || !config.hasPool {
        return 0;
      }
      var bytes := AlignUp4(request);
      if bytes > config.poolBytes {
        return 0;
      }
      var slot := FreeAllocationSlot();
      if slot == TABLE_SIZE {
        return 0;
      }
      AlignUp4Meaning(request);
      var offset := FirstFitOffset(bytes);
      match offset
      case None =>
        return 0;
      case Some(candidate) =>
        allocations[slot] := Allocation(Wrap32(candidate), bytes, 0, true);
        return slot + 1;
    }

    // -------------------------------------------------------------------------
    // Jobs
    // -------------------------------------------------------------------------

    method FreeJobSlot() returns (slot: nat)
      requires jobs.Length == TABLE_SIZE
      ensures slot == FreeJob(jobs[..], 0)
    {
      slot := 0;
      while slot < TABLE_SIZE && jobs[slot].live
        invariant slot <= TABLE_SIZE
        invariant FreeJob(jobs[..], 0) == FreeJob(jobs[..], slot)
      {
        slot := slot + 1;
      }
    }

    method JobForHandle(handle: u32) returns (index: Option<nat>)
      requires jobs.Length == TABLE_SIZE
      ensures index == JobIndex(jobs[..], handle, 0)
    {
      if handle == 0 {
        return None;
      }
      var i := 0;
      while i < TABLE_SIZE
        invariant i <= TABLE_SIZE
        invariant JobIndex(jobs[..], handle, 0) == JobIndex(jobs[..], handle, i)
      {
        if jobs[i].live && jobs[i].handle == handle {
          return Some(i);
        }
        i := i + 1;
      }
      return None;
    }

    // -------------------------------------------------------------------------
    // Completion ring
    // -------------------------------------------------------------------------

    method PushCompletion(record: Completion) returns (pushed: bool)
      requires Valid()
      modifies this`completionWrite, this`completionCount, completions
      ensures Valid()
      ensures pushed <==> |old(State()).queue| < TABLE_SIZE
      ensures State() == old(State()).(queue := Enqueue(old(State()).queue, [record]))
    {
      hide Inv, Ring;
      ghost var s := State();
      EnqueueOne(s.queue, record);
      if completionCount >= TABLE_SIZE {
        return false;
      }
      NextSlot(completionRead, completionCount);
      RingPush(completions[..], completionRead, completionCount, record);
      RegistersKeepInv(s, s.(queue := s.queue + [record]));
      completions[completionWrite] := record;
      completionWrite := (completionWrite + 1) % TABLE_SIZE;
      completionCount := completionCount + 1;
      return true;
    }

    method PopCompletion() returns (record: Option<Completion>)
      requires Valid()
      modifies this`completionRead, this`completionCount
      ensures Valid()
      ensures old(State()).queue == [] ==> record == None && State() == old(State())
      ensures old(State()).queue != [] ==>
        record == Some(old(State()).queue[0]) && State() == old(State()).(queue := old(State()).queue[1..])
    {
      ghost var s := State();
      if completionCount == 0 {
        return None;
      }
      RingPop(completions[..], completionRead, completionCount);
      record := Some(completions[completionRead]);
      completionRead := (completionRead + 1) % TABLE_SIZE;
      completionCount := completionCount - 1;
    }

    // -------------------------------------------------------------------------
    // F0, F2, F3
    // -------------------------------------------------------------------------

    method WriteReg(index: byte, value: u32)
      requires Valid()
      modifies stage
      ensures Valid() && State() == DeviceModel.WriteReg(old(State()), index, value)
    {
      if index < STAGE_REGISTERS {
        stage[index] := value;
      }
    }

    method ReadReg(index: byte) returns (value: u32)
      requires Valid()
      ensures value == DeviceModel.ReadReg(State(), index)
    {
      if index == EVENT_COMPLETION_DEPTH {
        return completionCount;
      }
      if index < STAGE_REGISTERS {
        return stage[index];
      }
      return 0;
    }

    method WritePayloadWord(index: byte, value: u32)
      requires Valid()
      modifies payload
      ensures Valid() && State() == DeviceModel.WritePayloadWord(old(State()), index, value)
    {
      var offset := 4 * index;
      var bytes := BytesOf([value]);
      if offset + 4 <= PAYLOAD_BYTES {
        CopyInto(payload, offset, bytes);
      }
    }

    // -------------------------------------------------------------------------
    // F1
    // -------------------------------------------------------------------------

    method SetOut(out0: u32, out1: u32, out2: u32, out3: u32)
      requires Valid()
      modifies stage
      ensures Valid() && State() == Answer(old(State()), out0, out1, out2, out3)
    {
      hide Inv;
      RegistersKeepInv(State(), Answer(State(), out0, out1, out2, out3));
      stage[RESULT] := OK;
      stage[OUT0], stage[OUT1], stage[OUT2], stage[OUT3] := out0, out1, out2, out3;
    }

    method Fail(status: u16)
      requires Valid()
      modifies stage
      ensures Valid() && State() == Refuse(old(State()), status)
    {
      hide Inv;
      RegistersKeepInv(State(), Refuse(State(), status));
      stage[RESULT] := status;
      stage[OUT0], stage[OUT1], stage[OUT2], stage[OUT3] := 0, 0, 0, 0;
    }

    method ExecAlloc()
      requires Valid()
      modifies stage, allocations
      ensures Valid() && State() == DeviceModel.ExecAlloc(old(State()))
    {
      ghost var s := State();
      var handle := Allocate(stage[ARG0]);
      AllocateIsFirstFit(s, s.stage[ARG0]);
      if handle == 0 {
        Fail(NO_MEMORY);
      } else {
        SetOut(handle, allocations[handle - 1].size, 0, 0);
      }
    }

    /** Copies `data` into a live allocation and raises its high-water mark. */
    method StoreBytes(i: nat, offset: u32, data: seq<byte>)
      requires Valid() && i < TABLE_SIZE && allocations[i].live
      requires offset + |data| <= allocations[i].size
      modifies pool, allocations
      ensures Valid() && State() == Store(old(State()), i, offset, data)
    {
      var a := allocations[i];
      assert SoundAllocation(allocations[..][i], |State().pool|);
      StoreKeepsInv(State(), i, offset, data);
      CopyInto(pool, a.offset + offset, data);
      allocations[i] := a.(uploaded := Wrap32(Max(a.uploaded, offset + |data|)));
    }

    /** The checksum of everything an allocation has been given. */
    method HashUploaded(i: nat) returns (checksum: u32)
      requires Valid() && i < TABLE_SIZE && allocations[i].live
      ensures checksum == Fnv1a(Uploaded(State(), i))
    {
      hide Inv, Fnv1a, Ring;
      var a := allocations[i];
      LiveIsSound(State(), i);
      checksum := ComputeFnv1a(pool, a.offset, a.uploaded);
    }

    method ExecUpload()
      requires Valid()
      modifies stage, allocations, pool
      ensures Valid() && State() == DeviceModel.ExecUpload(old(State()))
    {
      hide Inv, Store, Fnv1a, Ring, Uploaded;
      ghost var s := State();
      var index := AllocationForHandle(stage[ARG0]);
      var offset, len := stage[ARG1], stage[PAYLOAD_LEN];
      if index.None? || len > PAYLOAD_BYTES || offset > allocations[index.value].size
         || len > allocations[index.value].size - offset {
        Fail(BAD_HANDLE);
        return;
      }
      StoreBytes(index.value, offset, payload[..len]);
      assert allocations[index.value].live by {
        StoreKeepsLive(s, index.value, offset, payload[..len]);
        assert State().allocations[index.value].live;
      }
      var checksum := HashUploaded(index.value);
      SetOut(len, checksum, 0, 0);
    }

    method AddJobAt(slot: nat, job: Job)
      requires Valid() && slot == FreeJob(jobs[..], 0) && slot < TABLE_SIZE
      requires nextJob <= TABLE_SIZE && SoundJob(job, nextJob - 1, nextJob + 1)
      modifies jobs, this`nextJob
      ensures Valid() && State() == AddJob(old(State()), slot, job)
    {
      AddJobKeepsInv(State(), job);
      jobs[slot] := job;
      nextJob := Wrap32(nextJob + 1);
    }

    method ExecSubmit()
      requires Valid()
      modifies stage, jobs, this`nextJob
      ensures Valid() && State() == DeviceModel.ExecSubmit(old(State()))
    {
      ghost var s := State();
      var index := AllocationForHandle(stage[ARG0]);
      if index.None? {
        Fail(BAD_HANDLE);
        return;
      }
      var slot := FreeJobSlot();
      if slot == TABLE_SIZE {
        Fail(QUEUE_FULL);
        return;
      }
      hide Inv, Fnv1a, Ring, FreeJob, LegacyModelUs;
      var a := allocations[index.value];
      var checksum := HashUploaded(index.value);
      var modeled := LegacyModelUs(config.timing, a.uploaded, 16, stage[ARG2]);
      var job := Job(stage[ARG0], modeled, SpeedupX1000(stage[ARG3], modeled), checksum,
                     stage[ARG3], 2, false, true, nextJob);
      assert job == SubmittedJob(s, index.value);
      FreeJobIsNext(s.jobs, s.nextJob);
      AddJobAt(slot, job);
      SetOut(job.handle, job.modeledUs, 0, 0);
    }

    method ExecPoll()
      requires Valid()
      modifies stage, jobs
      ensures Valid() && State() == DeviceModel.ExecPoll(old(State()))
    {
      var index := JobForHandle(stage[ARG0]);
      if index.None? {
        Fail(BAD_HANDLE);
        return;
      }
      var i := index.value;
      PollKeepsInv(State(), i);
      ghost var job := Polled(jobs[i]);
      if !jobs[i].ready {
        if jobs[i].pollsRemaining > 0 {
          jobs[i] := jobs[i].(pollsRemaining := jobs[i].pollsRemaining - 1);
        }
        if jobs[i].pollsRemaining == 0 {
          jobs[i] := jobs[i].(ready := true);
        }
      }
      assert jobs[..] == old(jobs[..])[i := job];
      SetOut(if jobs[i].ready then 1 else 0, jobs[i].pollsRemaining, 0, 0);
    }

    method ExecCollect()
      requires Valid()
      modifies stage
      ensures Valid() && State() == DeviceModel.ExecCollect(old(State()))
    {
      var index := JobForHandle(stage[ARG0]);
      if index.None? {
        Fail(BAD_HANDLE);
      } else if !jobs[index.value].ready {
        Fail(NOT_READY);
      } else {
        var job := jobs[index.value];
        SetOut(job.modeledUs, job.speedupX1000, job.checksum, job.softwareUs);
      }
    }

    method ExecFree()
      requires Valid()
      modifies stage, allocations
      ensures Valid() && State() == DeviceModel.ExecFree(old(State()))
    {
      ghost var s := State();
      var index := AllocationForHandle(stage[ARG0]);
      if index.None? {
        Fail(BAD_HANDLE);
        return;
      }
      var freed := allocations[index.value].(live := false, uploaded := 0);
      UpdateKeepsSound(s.allocations, index.value, freed, |s.pool|);
      allocations[index.value] := freed;
      SetOut(0, 0, 0, 0);
    }

    method Exec(command: byte, sequence: u32)
      requires Valid()
      modifies Repr()
      ensures Valid() && Repr() == old(Repr())
      ensures State() == Step(old(State()), OpExec(command, sequence))
    {
      hide Inv, DeviceModel.ExecAlloc, DeviceModel.ExecUpload, DeviceModel.ExecSubmit,
           DeviceModel.ExecPoll, DeviceModel.ExecCollect, DeviceModel.ExecFree, Ring;
      SetOut(0, 0, 0, 0);
      if command == HELLO {
        SetOut(PROTOCOL_VERSION, config.capabilities, config.reportedLocalBytes, TRANSPORT_GENERATION);
      } else if command == GET_CAPS {
        SetOut(config.capabilities, config.reportedLocalBytes, config.timing.busBytesPerSecond,
               config.timing.commandLatencyNs / 1000);
      } else if command == ALLOC {
        ExecAlloc();
      } else if command == UPLOAD {
        ExecUpload();
      } else if command == SUBMIT {
        ExecSubmit();
      } else if command == POLL {
        ExecPoll();
      } else if command == COLLECT {
        ExecCollect();
      } else if command == FREE {
        ExecFree();
      } else if command == COMPLETE {
        CompletedKeepsInv(State());
        completed := true;
        SetOut(COMPLETE_ACK, 0, 0, 0);
      } else {
        Fail(BAD_COMMAND);
      }
    }

    // -------------------------------------------------------------------------
    // F4
    // -------------------------------------------------------------------------

    /** Resolves the input region and copies inline bytes into it. */
    method AcceptInput(item: Item) returns (input: Option<nat>)
      requires Valid() && item.Consistent()
      modifies pool, allocations
      ensures Valid() && State() == Deliver(old(State()), item)
      ensures input == if InputAccepted(State(), item.desc)
                       then AllocationIndex(State().allocations, item.desc.inputHandle) else None
    {
      hide Inv;
      DeliverKeepsInput(State(), item);
      var desc := item.desc;
      input := AllocationForHandle(desc.inputHandle);
      if input.None? || !InRange(allocations[input.value], desc.inputOffset, desc.inputLength) {
        return None;
      }
      if item.input.Some? {
        StoreBytes(input.value, desc.inputOffset, item.input.value);
      }
    }

    /** The checks that follow delivery, in order. */
    method Judge(item: Item, input: Option<nat>) returns (verdict: u16)
      requires Valid()
      requires input == if InputAccepted(State(), item.desc)
                        then AllocationIndex(State().allocations, item.desc.inputHandle) else None
      ensures verdict == Verdict(State(), item)
    {
      hide Inv;
      var desc := item.desc;
      if input.None? {
        return BAD_HANDLE;
      }
      if item.input.None? && allocations[input.value].uploaded < desc.inputOffset + desc.inputLength {
        return BAD_DESCRIPTOR;
      }
      if desc.outputHandle != 0 {
        var output := AllocationForHandle(desc.outputHandle);
        if output.None? || !InRange(allocations[output.value], desc.outputOffset, desc.outputLength) {
          return BAD_HANDLE;
        }
      }
      var slot := FreeJobSlot();
      if slot == TABLE_SIZE {
        return QUEUE_FULL;
      }
      return OK;
    }

    method RunDescriptor(item: Item, batch: u32, share: u32) returns (pushed: bool)
      requires Valid() && item.Consistent()
      modifies Repr()
      ensures Valid() && Repr() == old(Repr())
      ensures pushed <==> |old(State()).queue| < TABLE_SIZE
      ensures
        var (s, c) := RunItem(old(State()), item, batch, share);
        State() == s.(queue := Enqueue(s.queue, [c]))
    {
      hide Inv, Deliver, Verdict, Store, BlockJob, BlankCompletion, Ring;
      DeliverKeepsQueue(State(), item);
      var blank := BlankCompletion(item.desc, batch, share);
      var input := AcceptInput(item);
      var verdict := Judge(item, input);
      if verdict != OK {
        pushed := PushCompletion(blank.(status := verdict));
      } else {
        OkMeansAccepted(State(), item);
        var slot := FreeJobSlot();
        pushed := FinishDescriptor(item, input.value, slot, share, blank);
      }
    }

    method FinishDescriptor(item: Item, i: nat, slot: nat, share: u32, blank: Completion)
      returns (pushed: bool)
      requires Valid() && AllocationIndex(allocations[..], item.desc.inputHandle) == Some(i)
      requires InRange(allocations[i], item.desc.inputOffset, item.desc.inputLength)
      requires slot == FreeJob(jobs[..], 0) && slot < TABLE_SIZE
      modifies Repr()
      ensures Valid() && Repr() == old(Repr())
      ensures pushed <==> |old(State()).queue| < TABLE_SIZE
      ensures
        var s := old(State());
        var job := BlockJob(s, i, item.desc, share);
        var c := blank.(jobHandle := job.handle, modeledUs := job.modeledUs,
                        speedupX1000 := job.speedupX1000, checksum := job.checksum);
        State() == AddJob(s, slot, job).(queue := Enqueue(s.queue, [c]))
    {
      ghost var s := State();
      var desc, a := item.desc, allocations[i];
      assert SoundAllocation(s.allocations[i], |s.pool|);
      var checksum := ComputeFnv1a(pool, a.offset + desc.inputOffset, desc.inputLength);
      var modeled := BlockModelUs(config.timing, desc.workUnits, share);
      var job := Job(desc.inputHandle, modeled, SpeedupX1000(desc.arg0, modeled), checksum,
                     desc.arg0, 0, true, true, nextJob);
      assert job == BlockJob(s, i, desc, share);
      FreeJobIsNext(s.jobs, s.nextJob);
      AddJobAt(slot, job);
      pushed := PushCompletion(
        blank.(jobHandle := job.handle, modeledUs := job.modeledUs,
               speedupX1000 := job.speedupX1000, checksum := job.checksum));
    }

    /** Reads what stands at `cursor` of a block. */
    static method ParseOne(data: seq<byte>, cursor: nat) returns (head: Head, next: nat)
      requires cursor + RECORD_BYTES <= |data|
      ensures head == ParseHead(data[cursor..])
      ensures head.One? ==> cursor < next <= |data| && head.rest == data[next..]
    {
      hide ParseHead, DecodeDescriptor, Descriptor.Accepted, Descriptor.Inline, Descriptor.InlineLength;
      HeadAt(data, cursor);
      var body := cursor + RECORD_BYTES;
      next := body;
      var desc := DecodeDescriptor(data[cursor..body]);
      if desc.magic == 0 {
        return End, next;
      }
      if !desc.Accepted() {
        return Fault(BAD_DESCRIPTOR), next;
      }
      var inlineLength := desc.InlineLength();
      if inlineLength > |data| - body {
        return Fault(BAD_BLOCK), next;
      }
      next := body + inlineLength;
      head := One(Item(desc, if desc.Inline() then Some(data[body..next]) else None), data[next..]);
    }

    /** The first pass of a block: nothing is executed until all of it has parsed. */
    static method ParseDescriptors(data: seq<byte>) returns (status: u16, items: seq<Item>)
      ensures match ParseBlock(data)
        case Bad(e) => status == e
        case Items(parsed) => status == OK && items == parsed
    {
      hide ParseHead;
      items := [];
      assert data[0..] == data;
      PrependNothing(ParseItems(data, 0));
      var cursor: nat := 0;
      ghost var all := ParseItems(data, 0);
      while cursor + RECORD_BYTES <= |data| && |items| < MAX_DESCRIPTORS
        invariant cursor <= |data| && |items| <= MAX_DESCRIPTORS
        invariant all == Prepend(items, ParseItems(data[cursor..], |items|))
        decreases MAX_DESCRIPTORS - |items|
      {
        var head, next := ParseOne(data, cursor);
        match head
        case End =>
          break;
        case Fault(e) =>
          return e, items;
        case One(item, rest) =>
          PrependTwice(items, [item], ParseItems(rest, |items| + 1));
          items := items + [item];
          cursor := next;
      }
      ShortSuffixEnds(data[cursor..], |items|);
      assert all == Items(items);
      status := if |items| == 0 then BAD_DESCRIPTOR else OK;
    }

    method ProcessDescriptorBlock(data: seq<byte>) returns (status: u16)
      requires Valid()
      modifies Repr()
      ensures Valid() && Repr() == old(Repr())
      ensures (State(), status) == ProcessBlock(old(State()), data)
    {
      hide Inv, RunItem, ParseBlock, Ring, TransportShareNs;
      ghost var s := State();
      var items;
      status, items := ParseDescriptors(data);
      if status != OK {
        return;
      }
      var dropped := false;
      var batch := |items|;
      var share := TransportShareNs(config.timing, batch);
      for i := 0 to batch
        invariant Valid() && Repr() == old(Repr())
        invariant
          var (si, records) := RunItems(s, items[..i], batch, share);
          State() == si.(queue := Enqueue(s.queue, records))
        invariant dropped <==> |s.queue| + i > TABLE_SIZE
      {
        ghost var (si, records) := RunItems(s, items[..i], batch, share);
        RunItemIgnoresQueue(si, items[i], batch, share, State().queue);
        assert items[..i + 1][..i] == items[..i];
        EnqueueAppend(s.queue, records, RunItem(si, items[i], batch, share).1);
        var pushed := RunDescriptor(items[i], batch, share);
        dropped := dropped || !pushed;
      }
      assert items[..batch] == items;
      status := if dropped then QUEUE_FULL else OK;
    }

    method WriteBlock(selector: byte, word: u32, data: Option<seq<byte>>) returns (status: u16)
      requires Valid()
      modifies Repr()
      ensures Valid() && Repr() == old(Repr())
      ensures (State(), status) == DeviceModel.WriteBlock(old(State()), selector, word, data)
    {
      hide Inv, ProcessBlock;
      var len := WriteBlockLength(word);
      RegistersKeepInv(State(), WithResult(State(), BAD_BLOCK));
      if selector != SELECTOR_SUBMISSION || data.None? || len == 0 || len > BLOCK_BYTES
         || len > |data.value| {
        stage[RESULT] := BAD_BLOCK;
        return BAD_BLOCK;
      }
      status := ProcessDescriptorBlock(data.value[..len]);
      RegistersKeepInv(State(), WithResult(State(), status));
      stage[RESULT] := status;
    }

    // -------------------------------------------------------------------------
    // F5
    // -------------------------------------------------------------------------

    /** Moves whole records from the queue to the front of a cleared buffer. */
    method Drain(out: array<byte>, limit: nat) returns (written: nat)
      requires Valid() && out !in Repr() && limit <= out.Length
      requires out[..] == Zeros(out.Length)
      modifies this`completionRead, this`completionCount, out
      ensures Valid()
      ensures
        var q := old(State()).queue;
        var n := Min(|q|, limit / 64);
        && written == 64 * n
        && State() == old(State()).(queue := q[n..])
        && out[..] == Image(q[..n], out.Length)
    {
      hide Inv, Ring, EncodeCompletion, Image;
      ghost var s := State();
      ImageOfNone(s.queue, out.Length);
      written := 0;
      ghost var n := 0;
      while written + RECORD_BYTES <= limit && completionCount > 0
        invariant Valid()
        invariant n <= |s.queue| && written == 64 * n <= limit
        invariant State() == s.(queue := s.queue[n..])
        invariant out[..] == Image(s.queue[..n], out.Length)
        decreases |s.queue| - n
      {
        SuffixPop(s.queue, n);
        var record := PopCompletion();
        ImageOneMore(s.queue, n, out.Length);
        CopyInto(out, written, EncodeCompletion(record.value));
        written := written + RECORD_BYTES;
        n := n + 1;
      }
      WholeRecords(|s.queue|, limit, n);
    }

    method ReadBlock(selector: byte, word: u32, out: array?<byte>) returns (written: nat)
      requires Valid() && out !in Repr()
      modifies Repr(), out
      ensures Valid() && Repr() == old(Repr())
      ensures State() == DeviceModel.ReadBlock(old(State()), selector, word,
                                               if out == null then None else Some(out.Length))
      ensures out != null ==> out[..] == ReadBlockBytes(old(State()), selector, word, out.Length)
      ensures written == 64 * Popped(old(State()), selector, word,
                                     if out == null then None else Some(out.Length))
    {
      hide Inv, Ring, EncodeCompletion;
      ghost var s := State();
      RegistersKeepInv(s, WithResult(s, BAD_BLOCK));
      var offset, len := ReadBlockOffset(word), ReadBlockLength(word);
      if out == null || out.Length == 0 {
        stage[RESULT] := BAD_BLOCK;
        return 0;
      }
      Clear(out);
      if selector != SELECTOR_COMPLETION || offset != 0 || len == 0 || len > BLOCK_BYTES {
        stage[RESULT] := BAD_BLOCK;
        return 0;
      }
      written := Drain(out, Min(len, out.Length));
      ghost var n := Popped(s, selector, word, Some(out.Length));
      RegistersKeepInv(State(), WithResult(State(), OK));
      stage[RESULT] := OK;
    }
  }
}
