/** What every reachable device state satisfies, and what first fit means. */
module DeviceInvariant {
  import opened Words
  import opened Protocol
  import opened DeviceModel

  /** A live allocation is aligned, non-empty, inside the pool and uploaded no further than its end. */
  predicate SoundAllocation(a: Allocation, poolBytes: nat) {
    a.live ==>
      && a.offset % 4 == 0 && a.size % 4 == 0 && 0 < a.size
      && a.offset + a.size <= poolBytes
      && a.uploaded <= a.size
  }

  predicate Disjoint(a: Allocation, b: Allocation) {
    a.live && b.live ==> Apart(a, b.offset, b.size)
  }

  ghost predicate SoundAllocations(allocations: Allocations, poolBytes: nat) {
    && (forall i {:trigger SoundAllocation(allocations[i], poolBytes)} |
          0 <= i < TABLE_SIZE :: SoundAllocation(allocations[i], poolBytes))
    && (forall i, j {:trigger Disjoint(allocations[i], allocations[j])} |
          0 <= i < TABLE_SIZE && 0 <= j < TABLE_SIZE && i != j :: Disjoint(allocations[i], allocations[j]))
  }

  /** The job in slot i when `nextJob` is the next handle: slots fill in order and stay filled. */
  predicate SoundJob(job: Job, i: nat, nextJob: u32) {
    && (job.live <==> i + 1 < nextJob)
    && (job.live ==> job.handle == i + 1 && job.pollsRemaining <= 2
                     && (job.ready <==> job.pollsRemaining == 0))
  }

  ghost predicate SoundJobs(jobs: Jobs, nextJob: u32) {
    && 1 <= nextJob <= TABLE_SIZE + 1
    && forall i {:trigger SoundJob(jobs[i], i, nextJob)} |
         0 <= i < TABLE_SIZE :: SoundJob(jobs[i], i, nextJob)
  }

  predicate SoundPool(s: DeviceState) {
    && s.config.poolBytes < POOL_LIMIT
    && |s.pool| == if s.config.hasPool then s.config.poolBytes else 0
  }

  ghost predicate Inv(s: DeviceState) {
    && SoundPool(s)
    && SoundAllocations(s.allocations, |s.pool|)
    && SoundJobs(s.jobs, s.nextJob)
  }

  // ---------------------------------------------------------------------------
  // First fit
  // ---------------------------------------------------------------------------

  lemma AlignUp4Meaning(v: u32)
    requires v < POOL_LIMIT
    ensures v <= AlignUp4(v) < v + 4 && AlignUp4(v) % 4 == 0
  {
  }

  lemma {:induction false} LowestFitMeaning(allocations: Allocations, bytes: nat, poolBytes: nat, off: nat)
    ensures match LowestFit(allocations, bytes, poolBytes, off)
      case Some(o) =>
        && off <= o && Fits(allocations, o, bytes, poolBytes)
        && forall x | off <= x < o :: !Fits(allocations, x, bytes, poolBytes)
      case None => forall x | off <= x :: !Fits(allocations, x, bytes, poolBytes)
    decreases poolBytes + 1 - off
  {
    if off + bytes <= poolBytes && !Fits(allocations, off, bytes, poolBytes) {
      LowestFitMeaning(allocations, bytes, poolBytes, off + 1);
    }
  }

  /** ALLOC grants exactly when the request is usable, a slot is free and some offset fits; it then
      takes the lowest such offset and the lowest such slot. */
  lemma AllocateIsFirstFit(s: DeviceState, request: u32)
    requires SoundPool(s)
    ensures
      var (s', handle) := Allocate(s, request);
      var bytes := AlignUp4(request);
      var a := s.allocations;
      && (handle != 0 <==>
            && s.config.hasPool && 0 < request <= s.config.poolBytes
            && (exists i | 0 <= i < TABLE_SIZE :: !a[i].live)
            && exists o: nat :: Fits(a, o, bytes, s.config.poolBytes))
      && (handle == 0 ==> s' == s)
      && (handle != 0 ==>
            && 1 <= handle <= TABLE_SIZE && !a[handle - 1].live
            && (forall i | 0 <= i < handle - 1 :: a[i].live)
            && var granted := s'.allocations[handle - 1];
               && granted == Allocation(granted.offset, bytes, 0, true)
               && Fits(a, granted.offset, bytes, s.config.poolBytes)
               && (forall o | 0 <= o < granted.offset :: !Fits(a, o, bytes, s.config.poolBytes))
               && s' == s.(allocations := a[handle - 1 := granted]))
  {
    LowestFitMeaning(s.allocations, AlignUp4(request), s.config.poolBytes, 0);
    if request <= s.config.poolBytes {
      AlignUp4Meaning(request);
    }
    var slot := FreeAllocation(s.allocations, 0);
    if slot < TABLE_SIZE {
      assert !s.allocations[slot].live;
    }
    if AlignUp4(request) > s.config.poolBytes {
      assert forall o: nat :: !Fits(s.allocations, o, AlignUp4(request), s.config.poolBytes);
    }
  }

  /** The lowest fit starts the pool or touches the end of a live allocation, so it is aligned. */
  lemma LowestFitIsAligned(allocations: Allocations, o: nat, bytes: nat, poolBytes: nat)
    requires SoundAllocations(allocations, poolBytes)
    requires Fits(allocations, o, bytes, poolBytes)
    requires o > 0 ==> !Fits(allocations, o - 1, bytes, poolBytes)
    ensures o % 4 == 0
  {
    if o > 0 {
      var i :| 0 <= i < TABLE_SIZE && allocations[i].live && !Apart(allocations[i], o - 1, bytes);
      assert Apart(allocations[i], o, bytes);
      assert SoundAllocation(allocations[i], poolBytes);
    }
  }

  lemma GrantKeepsSound(allocations: Allocations, slot: nat, granted: Allocation, poolBytes: nat)
    requires SoundAllocations(allocations, poolBytes) && slot < TABLE_SIZE
    requires granted.live && SoundAllocation(granted, poolBytes)
    requires Fits(allocations, granted.offset, granted.size, poolBytes)
    requires !allocations[slot].live
    ensures SoundAllocations(allocations[slot := granted], poolBytes)
  {
    var a := allocations[slot := granted];
    forall i, j | 0 <= i < TABLE_SIZE && 0 <= j < TABLE_SIZE && i != j
      ensures Disjoint(a[i], a[j])
    {
      assert Disjoint(allocations[i], allocations[j]);
      if j == slot && a[i].live {
        assert Apart(allocations[i], granted.offset, granted.size);
      }
      if i == slot && a[j].live {
        assert Apart(allocations[j], granted.offset, granted.size);
      }
    }
  }

  lemma AllocateKeepsInv(s: DeviceState, request: u32)
    requires Inv(s)
    ensures Inv(Allocate(s, request).0)
  {
    AllocateIsFirstFit(s, request);
    var (s', handle) := Allocate(s, request);
    if handle != 0 {
      var granted := s'.allocations[handle - 1];
      AlignUp4Meaning(request);
      if granted.offset > 0 {
        assert !Fits(s.allocations, granted.offset - 1, granted.size, |s.pool|);
      }
      LowestFitIsAligned(s.allocations, granted.offset, granted.size, |s.pool|);
      GrantKeepsSound(s.allocations, handle - 1, granted, |s.pool|);
    }
  }

  // ---------------------------------------------------------------------------
  // Every step keeps the invariant
  // ---------------------------------------------------------------------------

  /** Changing only the high-water mark or the live flag of one entry keeps the table sound. */
  lemma UpdateKeepsSound(allocations: Allocations, i: nat, a: Allocation, poolBytes: nat)
    requires SoundAllocations(allocations, poolBytes) && i < TABLE_SIZE
    requires SoundAllocation(a, poolBytes) && (a.live ==> allocations[i].live)
    requires a.offset == allocations[i].offset && a.size == allocations[i].size
    ensures SoundAllocations(allocations[i := a], poolBytes)
  {
    var b := allocations[i := a];
    forall j, k | 0 <= j < TABLE_SIZE && 0 <= k < TABLE_SIZE && j != k
      ensures Disjoint(b[j], b[k])
    {
      assert Disjoint(allocations[j], allocations[k]);
    }
  }

  lemma StoreKeepsInv(s: DeviceState, i: nat, offset: u32, data: seq<byte>)
    requires Inv(s) && i < TABLE_SIZE && s.allocations[i].live
    requires offset + |data| <= s.allocations[i].size
    ensures Inv(Store(s, i, offset, data))
  {
    var a := s.allocations[i];
    assert SoundAllocation(a, |s.pool|);
    UpdateKeepsSound(s.allocations, i, a.(uploaded := Wrap32(Max(a.uploaded, offset + |data|))), |s.pool|);
  }

  /** With sound jobs the first free slot is the number of jobs handed out. */
  lemma FreeJobIsNext(jobs: Jobs, nextJob: u32)
    requires SoundJobs(jobs, nextJob)
    ensures FreeJob(jobs, 0) == nextJob - 1
  {
    var slot := FreeJob(jobs, 0);
    if nextJob <= TABLE_SIZE {
      assert SoundJob(jobs[nextJob - 1], nextJob - 1, nextJob);
    }
    if slot < TABLE_SIZE {
      assert SoundJob(jobs[slot], slot, nextJob);
    }
  }

  lemma AddJobKeepsInv(s: DeviceState, job: Job)
    requires Inv(s) && FreeJob(s.jobs, 0) < TABLE_SIZE
    requires SoundJob(job, s.nextJob - 1, s.nextJob + 1)
    ensures Inv(AddJob(s, FreeJob(s.jobs, 0), job))
  {
    FreeJobIsNext(s.jobs, s.nextJob);
    var jobs := s.jobs[s.nextJob - 1 := job];
    forall i | 0 <= i < TABLE_SIZE
      ensures SoundJob(jobs[i], i, s.nextJob + 1)
    {
      assert SoundJob(s.jobs[i], i, s.nextJob);
    }
  }

  lemma PollKeepsInv(s: DeviceState, i: nat)
    requires Inv(s) && i < TABLE_SIZE && s.jobs[i].live
    ensures Inv(s.(jobs := s.jobs[i := Polled(s.jobs[i])]))
  {
    var jobs := s.jobs[i := Polled(s.jobs[i])];
    forall k | 0 <= k < TABLE_SIZE
      ensures SoundJob(jobs[k], k, s.nextJob)
    {
      assert SoundJob(s.jobs[k], k, s.nextJob);
    }
  }

  /** The staging registers and the queue are no part of the invariant. */
  lemma RegistersKeepInv(s: DeviceState, t: DeviceState)
    requires Inv(s) && t == s.(stage := t.stage, queue := t.queue)
    ensures Inv(t)
  {
  }

  lemma UploadKeepsInv(s: DeviceState)
    requires Inv(s)
    ensures Inv(ExecUpload(s))
  {
    if UploadAccepted(s) {
      var i := AllocationIndex(s.allocations, s.stage[ARG0]).value;
      var data := s.payload[..s.stage[PAYLOAD_LEN]];
      StoreKeepsInv(s, i, s.stage[ARG1], data);
      RegistersKeepInv(Store(s, i, s.stage[ARG1], data), ExecUpload(s));
    } else {
      RegistersKeepInv(s, ExecUpload(s));
    }
  }

  lemma SubmitKeepsInv(s: DeviceState)
    requires Inv(s)
    ensures Inv(ExecSubmit(s))
  {
    var a := AllocationIndex(s.allocations, s.stage[ARG0]);
    var slot := FreeJob(s.jobs, 0);
    FreeJobIsNext(s.jobs, s.nextJob);
    if a.Some? && slot < TABLE_SIZE {
      var job := SubmittedJob(s, a.value);
      AddJobKeepsInv(s, job);
      RegistersKeepInv(AddJob(s, slot, job), ExecSubmit(s));
    } else {
      RegistersKeepInv(s, ExecSubmit(s));
    }
  }

  lemma FreeKeepsInv(s: DeviceState)
    requires Inv(s)
    ensures Inv(ExecFree(s))
  {
    var i := AllocationIndex(s.allocations, s.stage[ARG0]);
    if i.Some? {
      UpdateKeepsSound(s.allocations, i.value,
                       s.allocations[i.value].(live := false, uploaded := 0), |s.pool|);
    }
  }

  lemma DispatchKeepsInv(s: DeviceState, command: byte)
    requires Inv(s)
    ensures Inv(Dispatch(s, command))
  {
    hide Inv, Allocate, ExecUpload, ExecSubmit, ExecFree, Polled;
    var t := Dispatch(s, command);
    if command == ALLOC {
      var s' := Allocate(s, s.stage[ARG0]).0;
      AllocateKeepsInv(s, s.stage[ARG0]);
      RegistersKeepInv(if Allocate(s, s.stage[ARG0]).1 == 0 then s else s', t);
    } else if command == UPLOAD {
      UploadKeepsInv(s);
    } else if command == SUBMIT {
      SubmitKeepsInv(s);
    } else if command == POLL {
      var i := JobIndex(s.jobs, s.stage[ARG0], 0);
      if i.Some? {
        PollKeepsInv(s, i.value);
        RegistersKeepInv(s.(jobs := s.jobs[i.value := Polled(s.jobs[i.value])]), t);
      } else {
        RegistersKeepInv(s, t);
      }
    } else if command == FREE {
      FreeKeepsInv(s);
    } else if command == COMPLETE {
      CompletedKeepsInv(s);
      RegistersKeepInv(s.(completed := true), t);
    } else {
      RegistersKeepInv(s, t);
    }
  }

  lemma CompletedKeepsInv(s: DeviceState)
    requires Inv(s)
    ensures Inv(s.(completed := true))
  {
  }

  lemma ExecKeepsInv(s: DeviceState, command: byte)
    requires Inv(s)
    ensures Inv(Exec(s, command))
  {
    var cleared := Answer(s, 0, 0, 0, 0);
    RegistersKeepInv(s, cleared);
    DispatchKeepsInv(cleared, command);
  }

  lemma DeliverKeepsInv(s: DeviceState, item: Item)
    requires Inv(s) && item.Consistent()
    ensures Inv(Deliver(s, item))
  {
    if InputAccepted(s, item.desc) && item.input.Some? {
      StoreKeepsInv(s, AllocationIndex(s.allocations, item.desc.inputHandle).value,
                    item.desc.inputOffset, item.input.value);
    }
  }

  lemma RunItemKeepsInv(s: DeviceState, item: Item, batch: u32, share: u32)
    requires Inv(s) && item.Consistent()
    ensures Inv(RunItem(s, item, batch, share).0)
  {
    var s' := Deliver(s, item);
    DeliverKeepsInv(s, item);
    if Verdict(s', item) == OK {
      var i := AllocationIndex(s'.allocations, item.desc.inputHandle).value;
      FreeJobIsNext(s'.jobs, s'.nextJob);
      AddJobKeepsInv(s', BlockJob(s', i, item.desc, share));
    }
  }

  lemma {:induction false} RunItemsKeepInv(s: DeviceState, items: seq<Item>, batch: u32, share: u32)
    requires Inv(s) && forall k | 0 <= k < |items| :: items[k].Consistent()
    ensures Inv(RunItems(s, items, batch, share).0)
  {
    if |items| > 0 {
      var front := items[..|items| - 1];
      RunItemsKeepInv(s, front, batch, share);
      RunItemKeepsInv(RunItems(s, front, batch, share).0, items[|items| - 1], batch, share);
    }
  }

  lemma WriteBlockKeepsInv(s: DeviceState, selector: byte, word: u32, data: Option<seq<byte>>)
    requires Inv(s)
    ensures Inv(WriteBlock(s, selector, word, data).0)
  {
    if BlockWellFormed(selector, word, data) {
      var block := data.value[..WriteBlockLength(word)];
      match ParseBlock(block)
      case Bad(_) =>
      case Items(items) =>
        RunItemsKeepInv(s, items, |items|, Timing.TransportShareNs(s.config.timing, |items|));
    }
  }

  lemma StepKeepsInv(s: DeviceState, op: Op)
    requires Inv(s)
    ensures Inv(Step(s, op))
  {
    match op
    case OpExec(command, _) => ExecKeepsInv(s, command);
    case OpWriteBlock(selector, word, data) => WriteBlockKeepsInv(s, selector, word, data);
    case _ =>
  }

  /** Empty tables are sound. */
  lemma EmptyInv(s: DeviceState)
    requires SoundPool(s) && s.nextJob == 1
    requires forall i | 0 <= i < TABLE_SIZE :: !s.allocations[i].live && !s.jobs[i].live
    ensures Inv(s)
  {
  }

  lemma InitialInv(config: Config)
    requires config.poolBytes < POOL_LIMIT
    ensures Inv(InitialState(config))
  {
    EmptyInv(InitialState(config));
  }

  lemma InvPool(s: DeviceState)
    requires Inv(s)
    ensures SoundPool(s)
  {
  }

  lemma InvNumbers(s: DeviceState)
    requires Inv(s)
    ensures 1 <= s.nextJob <= TABLE_SIZE + 1
  {
  }

  lemma LiveIsSound(s: DeviceState, i: nat)
    requires Inv(s) && i < TABLE_SIZE && s.allocations[i].live
    ensures SoundAllocation(s.allocations[i], |s.pool|)
  {
  }

  /** Allocations stay disjoint, jobs stay a numbered prefix, from any sound state and so from reset. */
  lemma {:induction false} RunKeepsInv(s: DeviceState, ops: seq<Op>)
    requires Inv(s)
    ensures Inv(Run(s, ops))
    decreases |ops|
  {
    if |ops| > 0 {
      StepKeepsInv(s, ops[0]);
      RunKeepsInv(Step(s, ops[0]), ops[1..]);
    }
  }
}
