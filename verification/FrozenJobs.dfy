/** A job's result never changes once issued, and when it can be collected is a matter of polls. */
module FrozenJobs {
  import opened Words
  import opened Protocol
  import opened Timing
  import Checksum
  import opened DeviceModel
  import opened DeviceInvariant
  import opened CompletionStream

  datatype Result = Result(modeledUs: u32, speedupX1000: u32, checksum: u32, softwareUs: u32)

  function ResultOf(job: Job): Result {
    Result(job.modeledUs, job.speedupX1000, job.checksum, job.softwareUs)
  }

  predicate Polls(s: DeviceState, op: Op, handle: u32) {
    op.OpExec? && op.command == POLL && s.stage[ARG0] == handle
  }

  /** How many operations of a run POLL the job. */
  function PollCount(s: DeviceState, ops: seq<Op>, handle: u32): nat
    decreases |ops|
  {
    if |ops| == 0 then 0
    else (if Polls(s, ops[0], handle) then 1 else 0) + PollCount(Step(s, ops[0]), ops[1..], handle)
  }

  /** The same job, `polls` polls later. */
  predicate Later(before: Job, after: Job, polls: nat) {
    && after.live && after.handle == before.handle
    && ResultOf(after) == ResultOf(before)
    && after.pollsRemaining == Max(0, before.pollsRemaining - polls)
    && (after.ready <==> after.pollsRemaining == 0)
  }

  /** The handle of a live job finds exactly that job. */
  lemma HandleFindsJob(s: DeviceState, i: nat, handle: u32)
    requires Inv(s) && i < TABLE_SIZE && s.jobs[i].live
    ensures JobIndex(s.jobs, handle, 0) == Some(i) <==> handle == s.jobs[i].handle
  {
    assert SoundJob(s.jobs[i], i, s.nextJob);
    var found := JobIndex(s.jobs, handle, 0);
    if found.Some? {
      assert SoundJob(s.jobs[found.value], found.value, s.nextJob);
    }
  }

  lemma PollStep(s: DeviceState, i: nat)
    requires Inv(s) && i < TABLE_SIZE && s.jobs[i].live
    ensures Later(s.jobs[i], ExecPoll(s).jobs[i], if s.stage[ARG0] == s.jobs[i].handle then 1 else 0)
  {
    assert SoundJob(s.jobs[i], i, s.nextJob);
    HandleFindsJob(s, i, s.stage[ARG0]);
    hide JobIndex;
  }

  lemma Unchanged(s: DeviceState, i: nat)
    requires Inv(s) && i < TABLE_SIZE && s.jobs[i].live
    ensures Later(s.jobs[i], s.jobs[i], 0)
  {
    assert SoundJob(s.jobs[i], i, s.nextJob);
  }

  lemma ExecStep(s: DeviceState, command: byte, i: nat)
    requires Inv(s) && i < TABLE_SIZE && s.jobs[i].live
    ensures Later(s.jobs[i], Exec(s, command).jobs[i],
                  if Polls(s, OpExec(command, 0), s.jobs[i].handle) then 1 else 0)
  {
    var c := Answer(s, 0, 0, 0, 0);
    RegistersKeepInv(s, c);
    Unchanged(s, i);
    hide Inv, Later, ExecPoll, LowestFit, FreeAllocation, JobIndex, SubmittedJob, AllocationIndex,
         UploadAccepted, Checksum.Fnv1a;
    if command == POLL {
      PollStep(c, i);
    } else if command == SUBMIT {
      assert FreeJob(s.jobs, 0) != i;
    }
  }

  lemma ItemStep(s: DeviceState, item: Item, batch: u32, share: u32, i: nat)
    requires i < TABLE_SIZE && s.jobs[i].live
    ensures RunItem(s, item, batch, share).0.jobs[i] == s.jobs[i]
  {
    hide Verdict, BlockJob, BlankCompletion, AllocationIndex, InputAccepted;
    DeliverKeepsJobs(s, item);
    assert FreeJob(s.jobs, 0) != i;
  }

  lemma {:induction false} ItemsStep(s: DeviceState, items: seq<Item>, batch: u32, share: u32, i: nat)
    requires i < TABLE_SIZE && s.jobs[i].live
    ensures RunItems(s, items, batch, share).0.jobs[i] == s.jobs[i]
  {
    hide RunItem;
    if |items| > 0 {
      ItemsStep(s, items[..|items| - 1], batch, share, i);
      ItemStep(RunItems(s, items[..|items| - 1], batch, share).0, items[|items| - 1], batch, share, i);
    }
  }

  lemma StepFreezes(s: DeviceState, op: Op, i: nat)
    requires Inv(s) && i < TABLE_SIZE && s.jobs[i].live
    ensures Later(s.jobs[i], Step(s, op).jobs[i], if Polls(s, op, s.jobs[i].handle) then 1 else 0)
  {
    Unchanged(s, i);
    hide Inv, Later, Exec, RunItems, ParseBlock;
    match op
    case OpExec(command, _) => ExecStep(s, command, i);
    case OpWriteBlock(_, _, _) =>
      var items := AcceptedItems(op);
      if items != [] {
        ItemsStep(s, items, |items|, TransportShareNs(s.config.timing, |items|), i);
      }
    case _ =>
  }

  lemma LaterTwice(a: Job, b: Job, c: Job, m: nat, n: nat)
    requires Later(a, b, m) && Later(b, c, n)
    ensures Later(a, c, m + n)
  {
  }

  /** Over any run a job keeps its result, and only its own POLLs count it down. */
  lemma {:induction false} RunFreezes(s: DeviceState, ops: seq<Op>, i: nat)
    requires Inv(s) && i < TABLE_SIZE && s.jobs[i].live
    ensures Later(s.jobs[i], Run(s, ops).jobs[i], PollCount(s, ops, s.jobs[i].handle))
    decreases |ops|
  {
    if |ops| == 0 {
      Unchanged(s, i);
    } else {
      var s' := Step(s, ops[0]);
      var handle := s.jobs[i].handle;
      var one := if Polls(s, ops[0], handle) then 1 else 0;
      StepFreezes(s, ops[0], i);
      StepKeepsInv(s, ops[0]);
      RunFreezes(s', ops[1..], i);
      hide Inv, Step;
      LaterTwice(s.jobs[i], s'.jobs[i], Run(s, ops).jobs[i], one, PollCount(s', ops[1..], handle));
    }
  }

  /** COLLECT at any later time: the frozen four values once the job has been polled often enough,
      NOT_READY before. */
  lemma CollectAfterRun(s: DeviceState, ops: seq<Op>, i: nat)
    requires Inv(s) && i < TABLE_SIZE && s.jobs[i].live
    requires Run(s, ops).stage[ARG0] == s.jobs[i].handle
    ensures
      var out := Exec(Run(s, ops), COLLECT).stage;
      if PollCount(s, ops, s.jobs[i].handle) >= s.jobs[i].pollsRemaining
      then out[RESULT] == OK && Result(out[OUT0], out[OUT1], out[OUT2], out[OUT3]) == ResultOf(s.jobs[i])
      else out[RESULT] == NOT_READY
  {
    RunFreezes(s, ops, i);
    RunKeepsInv(s, ops);
    hide Inv, Exec, Run, PollCount;
    CollectOf(Run(s, ops), i);
  }

  /** COLLECT of a job answers its result when it is ready. */
  lemma CollectOf(t: DeviceState, i: nat)
    requires Inv(t) && i < TABLE_SIZE && t.jobs[i].live && t.stage[ARG0] == t.jobs[i].handle
    ensures
      var out := Exec(t, COLLECT).stage;
      if t.jobs[i].ready
      then out[RESULT] == OK && Result(out[OUT0], out[OUT1], out[OUT2], out[OUT3]) == ResultOf(t.jobs[i])
      else out[RESULT] == NOT_READY
  {
    HandleFindsJob(t, i, t.stage[ARG0]);
    hide Inv, JobIndex;
    assert Answer(t, 0, 0, 0, 0).jobs == t.jobs;
  }

  /** A SUBMITted job is collectable from its second POLL on. */
  lemma SubmitNeedsTwoPolls(s: DeviceState)
    requires Inv(s) && Exec(s, SUBMIT).stage[RESULT] == OK
    ensures s.nextJob <= TABLE_SIZE
    ensures
      var t := Exec(s, SUBMIT);
      var job := t.jobs[s.nextJob - 1];
      && t.stage[OUT0] == s.nextJob && job.live && job.handle == s.nextJob
      && job.pollsRemaining == 2 && !job.ready
  {
    FreeJobIsNext(s.jobs, s.nextJob);
    hide Inv, AllocationIndex, Checksum.Fnv1a, FreeJob;
  }

  /** A job submitted in a block is collectable at once, with the numbers of its completion. */
  lemma BlockJobIsReady(s: DeviceState, item: Item, batch: u32, share: u32)
    requires Inv(s) && item.Consistent() && RunItem(s, item, batch, share).1.status == OK
    ensures s.nextJob <= TABLE_SIZE
    ensures
      var (t, c) := RunItem(s, item, batch, share);
      var job := t.jobs[s.nextJob - 1];
      && c.jobHandle == s.nextJob && job.live && job.handle == s.nextJob
      && job.ready && job.pollsRemaining == 0
      && ResultOf(job) == Result(c.modeledUs, c.speedupX1000, c.checksum, c.softwareUs)
  {
    DeliverKeepsJobs(s, item);
    FreeJobIsNext(s.jobs, s.nextJob);
    hide Inv, AllocationIndex, Checksum.Fnv1a, FreeJob, Deliver, Verdict, BlockModelUs;
  }

  /** From the SUBMIT on, whatever else happens: COLLECT answers exactly when the job has been polled
      at least twice, always with the numbers fixed at submission. */
  lemma SubmittedJobLifecycle(s: DeviceState, ops: seq<Op>)
    requires Inv(s) && Exec(s, SUBMIT).stage[RESULT] == OK
    requires Run(Exec(s, SUBMIT), ops).stage[ARG0] == s.nextJob
    ensures s.nextJob <= TABLE_SIZE
    ensures
      var t := Exec(s, SUBMIT);
      var out := Exec(Run(t, ops), COLLECT).stage;
      && (out[RESULT] == OK <==> PollCount(t, ops, s.nextJob) >= 2)
      && (out[RESULT] != OK ==> out[RESULT] == NOT_READY)
      && (out[RESULT] == OK ==>
            Result(out[OUT0], out[OUT1], out[OUT2], out[OUT3]) == ResultOf(t.jobs[s.nextJob - 1]))
  {
    hide Inv, Exec, Run, PollCount;
    InvNumbers(s);
    SubmitNeedsTwoPolls(s);
    ExecKeepsInv(s, SUBMIT);
    CollectAfterRun(Exec(s, SUBMIT), ops, s.nextJob - 1);
  }

  /** The result a completion record reports. */
  function ReportOf(record: Completion): Result {
    Result(record.modeledUs, record.speedupX1000, record.checksum, record.softwareUs)
  }

  /** The record stands for a job that is ready with exactly the numbers it reports. */
  predicate Backed(s: DeviceState, record: Completion) {
    && 1 <= record.jobHandle <= TABLE_SIZE
    && var job := s.jobs[record.jobHandle - 1];
       && job.live && job.handle == record.jobHandle && job.ready && job.pollsRemaining == 0
       && ResultOf(job) == ReportOf(record)
  }

  /** The items after it in the batch leave a job alone. */
  lemma {:induction false} BatchIsBacked(s: DeviceState, items: seq<Item>, batch: u32, share: u32, k: nat)
    requires Inv(s) && forall j | 0 <= j < |items| :: items[j].Consistent()
    requires k < |items| && RunItems(s, items, batch, share).1[k].status == OK
    ensures Backed(RunItems(s, items, batch, share).0, RunItems(s, items, batch, share).1[k])
  {
    hide Inv, RunItem;
    var n := |items| - 1;
    var (t, done) := RunItems(s, items[..n], batch, share);
    RunItemsKeepInv(s, items[..n], batch, share);
    if k == n {
      BlockJobIsReady(t, items[n], batch, share);
      InvNumbers(t);
    } else {
      BatchIsBacked(s, items[..n], batch, share, k);
      ItemStep(t, items[n], batch, share, done[k].jobHandle - 1);
    }
  }

  /** An F4 leaves every accepted job ready, whether or not the queue had room for its record. */
  lemma BlockIsBacked(s: DeviceState, op: Op, k: nat)
    requires Inv(s) && op.OpWriteBlock? && k < |Produced(s, op)| && Produced(s, op)[k].status == OK
    ensures Backed(Step(s, op), Produced(s, op)[k])
  {
    hide Inv, RunItems, ParseBlock;
    var items := AcceptedItems(op);
    BatchIsBacked(s, items, |items|, TransportShareNs(s.config.timing, |items|), k);
  }

  /** From the F4 on, whatever else happens: COLLECT of the job a record names answers, at once and
      for ever, exactly the numbers of the record. */
  lemma BlockJobLifecycle(s: DeviceState, op: Op, k: nat, ops: seq<Op>)
    requires Inv(s) && op.OpWriteBlock? && k < |Produced(s, op)| && Produced(s, op)[k].status == OK
    requires Run(Step(s, op), ops).stage[ARG0] == Produced(s, op)[k].jobHandle
    ensures
      var out := Exec(Run(Step(s, op), ops), COLLECT).stage;
      && out[RESULT] == OK
      && Result(out[OUT0], out[OUT1], out[OUT2], out[OUT3]) == ReportOf(Produced(s, op)[k])
  {
    hide Inv, Exec, Run, PollCount, Step, Produced;
    BlockIsBacked(s, op, k);
    StepKeepsInv(s, op);
    CollectAfterRun(Step(s, op), ops, Produced(s, op)[k].jobHandle - 1);
  }
}
