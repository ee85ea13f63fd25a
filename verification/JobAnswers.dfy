/** What SUBMIT, POLL and COLLECT answer, in literal registers and exact times. */
module JobAnswers {
  import opened Words
  import opened Timing
  import opened Checksum
  import opened DeviceModel
  import opened DeviceInvariant
  import opened FrozenJobs
  import opened Client

  /** A job exists under this handle. */
  predicate Pending(s: DeviceState, handle: nat) { 1 <= handle <= 16 && s.jobs[handle - 1].live }

  function PerSecond(amount: nat, rate: nat): real {
    if rate == 0 then 0.0 else amount as real * 1_000_000_000.0 / rate as real
  }

  /** The exact time of one SUBMIT: a command, the uploaded bytes out and sixteen back, the work. */
  function SubmitNs(t: TimingModel, bytes: nat, work: nat): real {
    t.commandLatencyNs as real + PerSecond(bytes, t.busBytesPerSecond) + PerSecond(16, t.busBytesPerSecond)
    + PerSecond(work, t.kernelOpsPerSecond)
  }

  /** Software time over modelled time in thousandths, rounded down, exactly when that fits. */
  predicate Faster(x1000: nat, softwareUs: nat, modeledUs: nat) {
    && (modeledUs == 0 ==> x1000 == 0)
    && (modeledUs > 0 ==>
          (x1000 * modeledUs <= 1000 * softwareUs < (x1000 + 1) * modeledUs
           <==> 1000 * softwareUs < 0x1_0000_0000 * modeledUs))
  }

  /** The numbers of a job SUBMITted in state s: ARG0 names its input, ARG2 is its work and ARG3 its
      software time. */
  predicate NumbersOf(s: DeviceState, r: Result) {
    var t, handle := s.config.timing, s.stage[0];
    && Live(s, handle)
    && var bytes := s.allocations[handle - 1].uploaded;
       && (Close(r.modeledUs, SubmitNs(t, bytes, s.stage[2]))
           <==> LegacyTotalNs(t, bytes, 16, s.stage[2]) + 500 < 0x1_0000_0000)
       && r.softwareUs == s.stage[3]
       && Faster(r.speedupX1000, s.stage[3], r.modeledUs)
       && r.checksum == Fnv1a(BytesAt(s, handle, 0, bytes))
  }

  /** From s to t a job was entered under the lowest free handle, which was answered with its modelled
      time. */
  predicate SubmitDone(s: DeviceState, t: DeviceState) {
    var h := t.stage[6];
    && 1 <= h <= 16 && !Pending(s, h) && (forall k | 1 <= k < h :: Pending(s, k))
    && var job := t.jobs[h - 1];
       && job.live && job.handle == h && !job.ready && job.pollsRemaining == 2
       && NumbersOf(s, ResultOf(job))
       && Answers(t, 0, h, job.modeledUs, 0, 0)
       && OnlyAnswered(s.(jobs := s.jobs[h - 1 := job], nextJob := t.nextJob), t)
       && t.nextJob == s.nextJob + 1
  }

  /** SUBMIT enters a job exactly when ARG0 names a live allocation and a job handle is free. */
  lemma SubmitAnswers(s: DeviceState)
    requires Inv(s)
    ensures
      var t := Exec(s, 5);
      if !Live(s, s.stage[0]) then Failed(t, 2) && OnlyAnswered(s, t)
      else if forall h: nat | 1 <= h <= 16 :: Pending(s, h) then Failed(t, 7) && OnlyAnswered(s, t)
      else SubmitDone(s, t)
  {
    FreeJobIsNext(s.jobs, s.nextJob);
    SlotMeaning(s);
    if !Live(s, s.stage[0]) || s.nextJob == 17 {
      SubmitRefused(s);
    } else {
      SubmitEnters(s);
    }
    hide Exec, SubmitDone, Answers, OnlyAnswered;
  }

  /** Handles are given out in order, so the next one is the lowest free one. */
  lemma SlotMeaning(s: DeviceState)
    requires Inv(s)
    ensures 1 <= s.nextJob <= 17
    ensures forall h | 1 <= h <= 16 :: Pending(s, h) <==> h < s.nextJob
    ensures (forall h: nat | 1 <= h <= 16 :: Pending(s, h)) <==> s.nextJob == 17
  {
    InvNumbers(s);
    forall h | 1 <= h <= 16
      ensures Pending(s, h) <==> h < s.nextJob
    {
      assert SoundJob(s.jobs[h - 1], h - 1, s.nextJob);
    }
    if s.nextJob <= 16 {
      assert !Pending(s, s.nextJob);
    }
  }

  lemma SubmitRefused(s: DeviceState)
    requires !Live(s, s.stage[0]) || FreeJob(s.jobs, 0) == 16
    ensures Exec(s, 5).stage[5] != 0 && OnlyAnswered(s, Exec(s, 5))
    ensures Failed(Exec(s, 5), if Live(s, s.stage[0]) then 7 else 2)
  {
    hide SubmittedJob;
  }

  lemma SubmitEnters(s: DeviceState)
    requires Inv(s) && Live(s, s.stage[0]) && s.nextJob <= 16
    ensures SubmitDone(s, Exec(s, 5))
  {
    var c := Answer(s, 0, 0, 0, 0);
    var job := SubmittedJob(c, s.stage[0] - 1);
    FreeJobIsNext(s.jobs, s.nextJob);
    SubmitAdds(s, c, job);
    SubmittedNumbers(s, c, job);
    SlotMeaning(s);
    hide Inv, Exec, SubmittedJob, NumbersOf;
    EnteredIsDone(s, c, job, Exec(s, 5));
  }

  lemma SubmitAdds(s: DeviceState, c: DeviceState, job: Job)
    requires Live(s, s.stage[0]) && FreeJob(s.jobs, 0) == s.nextJob - 1 < 16
    requires c == Answer(s, 0, 0, 0, 0) && job == SubmittedJob(c, s.stage[0] - 1)
    ensures Exec(s, 5) == Answer(AddJob(c, s.nextJob - 1, job), job.handle, job.modeledUs, 0, 0)
    ensures job.handle == s.nextJob && job.live && !job.ready && job.pollsRemaining == 2
  {
    hide LegacyModelUs, SpeedupX1000, Fnv1a, FreeJob;
  }

  lemma EnteredIsDone(s: DeviceState, c: DeviceState, job: Job, t: DeviceState)
    requires 1 <= s.nextJob <= 16 && forall h | 1 <= h <= 16 :: Pending(s, h) <==> h < s.nextJob
    requires c == Answer(s, 0, 0, 0, 0) && job.handle == s.nextJob
    requires job.live && !job.ready && job.pollsRemaining == 2 && NumbersOf(s, ResultOf(job))
    requires t == Answer(AddJob(c, s.nextJob - 1, job), job.handle, job.modeledUs, 0, 0)
    ensures SubmitDone(s, t)
  {
    hide NumbersOf;
  }

  lemma SubmittedNumbers(s: DeviceState, c: DeviceState, job: Job)
    requires Inv(s) && Live(s, s.stage[0]) && c == Answer(s, 0, 0, 0, 0)
    requires job == SubmittedJob(c, s.stage[0] - 1)
    ensures NumbersOf(s, ResultOf(job))
  {
    var t, a := s.config.timing, s.allocations[s.stage[0] - 1];
    LiveIsSound(s, s.stage[0] - 1);
    LegacyModelAccuracy(t, a.uploaded, 16, s.stage[2]);
    SpeedupMeaning(s.stage[3], job.modeledUs);
    UploadedBytes(s, s.stage[0]);
    hide Inv, LegacyModelUs, LegacyTotalNs, Close, Fnv1a, BytesAt, SpeedupX1000, Uploaded, ExactNs;
    ExactSubmit(t, a.uploaded, s.stage[2]);
    assert Uploaded(c, s.stage[0] - 1) == Uploaded(s, s.stage[0] - 1) by {
      SameUpload(s, c, s.stage[0] - 1);
    }
  }

  lemma SameUpload(s: DeviceState, c: DeviceState, i: nat)
    requires i < 16 && c.pool == s.pool && c.allocations == s.allocations
    ensures Uploaded(c, i) == Uploaded(s, i)
  {
  }

  lemma ExactSubmit(t: TimingModel, bytes: u32, work: u32)
    ensures ExactLegacyNs(t, bytes, 16, work) == SubmitNs(t, bytes, work)
  {
  }

  // ---------------------------------------------------------------------------
  // POLL and COLLECT
  // ---------------------------------------------------------------------------

  /** COLLECT of the job in ARG0 answers its four numbers when it is ready. */
  predicate CollectDone(s: DeviceState, out: DeviceState) {
    var job := s.jobs[if 1 <= s.stage[0] <= 16 then s.stage[0] - 1 else 0];
    && (job.ready ==> Answers(out, 0, job.modeledUs, job.speedupX1000, job.checksum, job.softwareUs))
    && (!job.ready ==> Failed(out, 4))
  }

  /** Both commands refuse a handle that names no job; COLLECT never changes anything. */
  lemma CollectAnswers(s: DeviceState)
    requires Inv(s)
    ensures OnlyAnswered(s, Exec(s, 7))
    ensures if Pending(s, s.stage[0]) then CollectDone(s, Exec(s, 7)) else Failed(Exec(s, 7), 2)
    ensures !Pending(s, s.stage[0]) ==> Failed(Exec(s, 6), 2) && OnlyAnswered(s, Exec(s, 6))
  {
    JobOfHandle(s, s.stage[0]);
    hide Inv, JobIndex, Polled;
  }

  lemma JobOfHandle(s: DeviceState, h: u32)
    requires Inv(s)
    ensures JobIndex(s.jobs, h, 0) == if Pending(s, h) then Some(h - 1) else None
  {
    var found := JobIndex(s.jobs, h, 0);
    if found.Some? {
      LiveJobIsSound(s, found.value + 1);
    }
    if Pending(s, h) {
      HandleFindsJob(s, h - 1, h);
      LiveJobIsSound(s, h);
    }
  }

  /** One POLL of the job in ARG0: the polls it has left, and whether that is none. */
  predicate PollDone(s: DeviceState, t: DeviceState) {
    && 1 <= s.stage[0] <= 16
    && var before, after := s.jobs[s.stage[0] - 1], t.jobs[s.stage[0] - 1];
       && after == before.(pollsRemaining := after.pollsRemaining, ready := after.ready)
       && after.pollsRemaining == (if before.pollsRemaining > 0 then before.pollsRemaining - 1 else 0)
       && (after.ready <==> after.pollsRemaining == 0)
       && Answers(t, 0, if after.ready then 1 else 0, after.pollsRemaining, 0, 0)
       && OnlyAnswered(s.(jobs := s.jobs[s.stage[0] - 1 := after]), t)
  }

  lemma PollOnce(s: DeviceState)
    requires Inv(s) && Pending(s, s.stage[0])
    ensures PollDone(s, Exec(s, 6))
  {
    JobOfHandle(s, s.stage[0]);
    assert SoundJob(s.jobs[s.stage[0] - 1], s.stage[0] - 1, s.nextJob);
    hide Inv, JobIndex;
  }

  function PollTimes(s: DeviceState, n: nat): DeviceState {
    if n == 0 then s else Exec(PollTimes(s, n - 1), 6)
  }

  lemma {:induction false} PollsLeft(s: DeviceState, n: nat)
    requires Inv(s) && Pending(s, s.stage[0])
    ensures
      var t := PollTimes(s, n);
      && Inv(t) && t.stage[0] == s.stage[0] && Pending(t, t.stage[0])
      && var before, after := s.jobs[s.stage[0] - 1], t.jobs[s.stage[0] - 1];
         && after.pollsRemaining == Max(0, before.pollsRemaining - n)
         && (after.ready <==> after.pollsRemaining == 0)
         && ResultOf(after) == ResultOf(before)
  {
    hide Inv, Exec;
    if n == 0 {
      LiveJobIsSound(s, s.stage[0]);
    } else {
      PollsLeft(s, n - 1);
      var u := PollTimes(s, n - 1);
      PollOnce(u);
      ExecKeepsInv(u, 6);
    }
  }

  lemma LiveJobIsSound(s: DeviceState, h: nat)
    requires Inv(s) && Pending(s, h)
    ensures SoundJob(s.jobs[h - 1], h - 1, s.nextJob)
  {
  }

  /** Exactly when OUT0 of a POLL is 1 a COLLECT straight after answers OK; and after further POLLs it
      does exactly when they are at least as many as OUT1 says. */
  lemma PollTells(s: DeviceState, n: nat)
    requires Inv(s) && Pending(s, s.stage[0])
    ensures
      var t := Exec(s, 6);
      && t.stage[5] == 0 && (t.stage[6] == 0 || t.stage[6] == 1)
      && (t.stage[6] == 1 <==> Exec(t, 7).stage[5] == 0)
      && (Exec(PollTimes(t, n), 7).stage[5] == 0 <==> n >= t.stage[7])
      && (Exec(PollTimes(t, n), 7).stage[5] != 0 ==> Failed(Exec(PollTimes(t, n), 7), 4))
  {
    hide Inv, Exec;
    var t := Exec(s, 6);
    PollOnce(s);
    ExecKeepsInv(s, 6);
    PollsLeft(t, n);
    CollectAnswers(t);
    CollectAnswers(PollTimes(t, n));
  }

  /** SUBMIT, and then POLL, POLL and COLLECT of the handle it answered: not ready, one POLL to go,
      ready, and the numbers of the job. */
  lemma SubmitPollPollCollect(s: DeviceState)
    requires Inv(s) && Exec(s, 5).stage[5] == 0
    ensures
      var t := Exec(s, 5);
      var named := WriteReg(t, 0, t.stage[6]);
      var once := Exec(named, 6);
      var twice := Exec(once, 6);
      var out := Exec(twice, 7).stage;
      && Failed(Exec(named, 7), 4)
      && Answers(once, 0, 0, 1, 0, 0) && Answers(twice, 0, 1, 0, 0, 0)
      && out[5] == 0 && out[6] == t.stage[7] && out[9] == s.stage[3]
      && NumbersOf(s, Result(out[6], out[7], out[8], out[9]))
      && once.stage[0] == twice.stage[0] == t.stage[6] && Exec(twice, 7).allocations == s.allocations
  {
    hide Inv, Exec, NumbersOf;
    var t := Exec(s, 5);
    SubmitAnswers(s);
    ExecKeepsInv(s, 5);
    SubmittedIsPending(s, t);
    var named := WriteReg(t, 0, t.stage[6]);
    RegistersKeepInv(t, named);
    PollOnce(named);
    CollectAnswers(named);
    var once := Exec(named, 6);
    ExecKeepsInv(named, 6);
    PollOnce(once);
    var twice := Exec(once, 6);
    ExecKeepsInv(once, 6);
    CollectAnswers(twice);
  }

  lemma SubmittedIsPending(s: DeviceState, t: DeviceState)
    requires SubmitDone(s, t)
    ensures Pending(t, t.stage[6]) && t.stage[5] == 0
    ensures
      var job := t.jobs[t.stage[6] - 1];
      && !job.ready && job.pollsRemaining == 2 && NumbersOf(s, ResultOf(job))
      && job.modeledUs == t.stage[7] && job.softwareUs == s.stage[3]
  {
    hide Close, Faster;
  }

  /** Whatever happens between them, COLLECT of a submitted job answers its numbers exactly from its
      second POLL on. */
  lemma SubmittedAnswers(s: DeviceState, ops: seq<Op>)
    requires Inv(s) && Exec(s, 5).stage[5] == 0
    requires Run(Exec(s, 5), ops).stage[0] == Exec(s, 5).stage[6]
    ensures
      var t := Exec(s, 5);
      var out := Exec(Run(t, ops), 7).stage;
      if PollCount(t, ops, t.stage[6]) >= 2
      then out[5] == 0 && NumbersOf(s, Result(out[6], out[7], out[8], out[9]))
      else out[5] == 4
  {
    hide Inv, Exec, Run, PollCount, NumbersOf;
    SubmitAnswers(s);
    SubmitNeedsTwoPolls(s);
    SubmittedIsPending(s, Exec(s, 5));
    SubmittedJobLifecycle(s, ops);
  }
}
