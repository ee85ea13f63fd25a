/** The documented bring-up sequence, from reset to COMPLETE, with every answer the wire vectors
    expect. Each part holds from any state that meets its first lines. */
module Lifecycle {
  import opened Words
  import opened Timing
  import opened Checksum
  import opened DeviceModel
  import opened DeviceInvariant
  import opened FrozenJobs
  import opened WireFormat
  import opened Client
  import opened JobAnswers

  const PATTERN: seq<byte> := [0x44, 0x33, 0x22, 0x11, 0x88, 0x77, 0x66, 0x55,
                               0xDD, 0xCC, 0xBB, 0xAA, 0x0D, 0xF0, 0xAD, 0x0B]

  // ---------------------------------------------------------------------------
  // Staging and upload
  // ---------------------------------------------------------------------------

  ghost function LoadPattern(s: DeviceState): DeviceState {
    Load(Load(Load(Load(s, 0, 0x1122_3344), 1, 0x5566_7788), 2, 0xAABB_CCDD), 3, 0x0BAD_F00D)
  }

  lemma LoadMeaning(s: DeviceState, i: byte, v: u32)
    ensures
      var t := Load(s, i, v);
      && t == s.(payload := t.payload) && U32At(t.payload, 4 * i) == v
      && forall k | 0 <= k < 1024 && !(4 * i <= k < 4 * i + 4) :: t.payload[k] == s.payload[k]
  {
    LoadStep(s, i, v);
    StagedWord(s, i, v);
    hide Load, U32At, WritePayloadWord;
  }

  lemma LoadsPattern(s: DeviceState)
    ensures LoadPattern(s) == s.(payload := LoadPattern(s).payload)
    ensures LoadPattern(s).payload[..16] == PATTERN
  {
    hide Load, U32At;
    var a := Load(s, 0, 0x1122_3344);
    var b := Load(a, 1, 0x5566_7788);
    var c := Load(b, 2, 0xAABB_CCDD);
    var d := Load(c, 3, 0x0BAD_F00D);
    LoadMeaning(s, 0, 0x1122_3344);
    LoadMeaning(a, 1, 0x5566_7788);
    LoadMeaning(b, 2, 0xAABB_CCDD);
    LoadMeaning(c, 3, 0x0BAD_F00D);
    SpelledOut(a.payload, 0, 0x44, 0x33, 0x22, 0x11);
    SpelledOut(b.payload, 4, 0x88, 0x77, 0x66, 0x55);
    SpelledOut(c.payload, 8, 0xDD, 0xCC, 0xBB, 0xAA);
    SpelledOut(d.payload, 12, 0x0D, 0xF0, 0xAD, 0x0B);
    assert d.payload[0..4] == a.payload[0..4] && d.payload[4..8] == b.payload[4..8];
    assert d.payload[8..12] == c.payload[8..12];
    FourWords(d.payload);
  }

  lemma FourWords(p: Payload)
    requires p[0..4] == [0x44, 0x33, 0x22, 0x11] && p[4..8] == [0x88, 0x77, 0x66, 0x55]
    requires p[8..12] == [0xDD, 0xCC, 0xBB, 0xAA] && p[12..16] == [0x0D, 0xF0, 0xAD, 0x0B]
    ensures p[..16] == PATTERN
  {
    assert p[..16] == p[0..4] + p[4..8] + p[8..12] + p[12..16];
  }

  /** Registers set one after the other. */
  lemma PutMeaning(s: DeviceState, i: byte, v: u32)
    requires i < 16
    ensures Put(s, i, v) == s.(stage := s.stage[i := v])
  {
    RegisterRoundTrip(s, i, v, 0);
    hide Put, Get;
  }

  /** The 16-byte reference pattern, staged in a live allocation that nothing was uploaded to: UPLOAD
      answers 16 and the canary 0xF269B734. */
  lemma UploadPattern(s: DeviceState, h: u32) returns (t: DeviceState)
    requires Inv(s) && Live(s, h) && s.allocations[h - 1].size >= 16 && s.allocations[h - 1].uploaded == 0
    requires s.payload[..16] == PATTERN
    ensures t == Do(Put(Put(Put(s, 0, h), 1, 0), 4, 16), 4)
    ensures Inv(t) && Answers(t, 0, 16, 0xF269_B734, 0, 0)
    ensures Live(t, h) && t.allocations[h - 1].uploaded == 16 && BytesAt(t, h, 0, 16) == PATTERN
    ensures t == s.(stage := t.stage, pool := t.pool, allocations := t.allocations)
  {
    hide Put, Do, Inv, Exec;
    var p := Put(Put(Put(s, 0, h), 1, 0), 4, 16);
    PutMeaning(s, 0, h);
    PutMeaning(Put(s, 0, h), 1, 0);
    PutMeaning(Put(Put(s, 0, h), 1, 0), 4, 16);
    RegistersKeepInv(s, p);
    t := Do(p, 4);
    DoMeaning(p, 4);
    UploadAnswers(p);
    ExecKeepsInv(p, 4);
    PatternStored(p, t, h);
  }

  lemma PatternStored(p: DeviceState, t: DeviceState, h: u32)
    requires UploadDone(p, t) && p.stage[0] == h && p.stage[1] == 0 && p.stage[4] == 16
    requires Live(p, h) && p.allocations[h - 1].uploaded == 0 && p.payload[..16] == PATTERN
    ensures Answers(t, 0, 16, 0xF269_B734, 0, 0)
    ensures Live(t, h) && t.allocations[h - 1].uploaded == 16 && BytesAt(t, h, 0, 16) == PATTERN
    ensures t == p.(stage := t.stage, pool := t.pool, allocations := t.allocations)
  {
    hide Fnv1a;
    ReferencePattern(BytesAt(t, h, 0, 16));
  }

  // ---------------------------------------------------------------------------
  // SUBMIT and what follows
  // ---------------------------------------------------------------------------

  /** The registers of the documented SUBMIT: 250,000 work units and 3,500 us in software. */
  ghost function SubmitSet(s: DeviceState, h: u32): DeviceState {
    Put(Put(Put(Put(s, 0, h), 1, 1), 2, 250_000), 3, 3_500)
  }

  lemma SubmitSetMeaning(s: DeviceState, h: u32)
    ensures SubmitSet(s, h) == s.(stage := s.stage[0 := h][1 := 1][2 := 250_000][3 := 3_500])
  {
    hide Put;
    PutMeaning(s, 0, h);
    PutMeaning(Put(s, 0, h), 1, 1);
    PutMeaning(Put(Put(s, 0, h), 1, 1), 2, 250_000);
    PutMeaning(Put(Put(Put(s, 0, h), 1, 1), 2, 250_000), 3, 3_500);
  }

  /** The numbers of that job under the default timing follow from what they mean. */
  lemma ReferenceNumbers(p: DeviceState, r: Result)
    requires p.config.timing == TimingModel(25_000, 6_291_456, 100_000_000)
    requires NumbersOf(p, r) && p.stage[2] == 250_000 && p.stage[3] == 3_500
    requires p.allocations[p.stage[0] - 1].uploaded == 16 && BytesAt(p, p.stage[0], 0, 16) == PATTERN
    ensures r == Result(2_530, 1_383, 0xF269_B734, 3_500)
  {
    var t := p.config.timing;
    DefaultRates(t.busBytesPerSecond, t.kernelOpsPerSecond);
    ReferencePattern(BytesAt(p, p.stage[0], 0, 16));
    hide Fnv1a, BytesAt, RoundedNs;
    assert LegacyTotalNs(t, 16, 16, 250_000) == 2_530_086;
    assert Close(r.modeledUs, SubmitNs(t, 16, 250_000));
    ReferenceTime(t, r.modeledUs);
    ReferenceSpeedup(r.speedupX1000, r.modeledUs);
  }

  lemma ReferenceTime(t: TimingModel, us: u32)
    requires t == TimingModel(25_000, 6_291_456, 100_000_000) && Close(us, SubmitNs(t, 16, 250_000))
    ensures us == 2_530
  {
    assert 2543.0 < 16.0 * 1_000_000_000.0 / 6_291_456.0 < 2544.0;
    assert 250_000.0 * 1_000_000_000.0 / 100_000_000.0 == 2_500_000.0;
    assert 2_530_086.0 < SubmitNs(t, 16, 250_000) < 2_530_088.0;
    assert 2_529_000.0 < 1000.0 * us as real < 2_531_000.0;
  }

  lemma ReferenceSpeedup(x: u32, us: u32)
    requires us == 2_530 && Faster(x, 3_500, us)
    ensures x == 1_383
  {
  }

  /** SUBMIT, two POLLs, COLLECT, FREE and COMPLETE of the uploaded pattern, the handle restated
      before each: the answers of the golden lifecycle. */
  lemma SubmitToComplete(s: DeviceState, h: u32) returns (submitted: DeviceState, once: DeviceState,
      twice: DeviceState, collected: DeviceState, freed: DeviceState, completed: DeviceState)
    requires Inv(s) && s.nextJob == 1 && s.config.timing == TimingModel(25_000, 6_291_456, 100_000_000)
    requires Live(s, h) && s.allocations[h - 1].uploaded == 16 && BytesAt(s, h, 0, 16) == PATTERN
    ensures submitted == Do(SubmitSet(s, h), 5) && Answers(submitted, 0, 1, 2_530, 0, 0)
    ensures once == Do(Put(submitted, 0, 1), 6) && Answers(once, 0, 0, 1, 0, 0)
    ensures twice == Do(Put(once, 0, 1), 6) && Answers(twice, 0, 1, 0, 0, 0)
    ensures collected == Do(Put(twice, 0, 1), 7) && Answers(collected, 0, 2_530, 1_383, 0xF269_B734, 3_500)
    ensures freed == Do(Put(collected, 0, h), 8) && Answers(freed, 0, 0, 0, 0, 0) && !Live(freed, h)
    ensures completed == Do(freed, 9) && Answers(completed, 0, 0x5353_4150, 0, 0, 0)
  {
    hide Put, Do, Inv, Exec, NumbersOf, SubmitSet, BytesAt;
    var p := SubmitSet(s, h);
    SubmitSetMeaning(s, h);
    RegistersKeepInv(s, p);
    submitted := Exec(p, 5);
    once := Exec(WriteReg(submitted, 0, 1), 6);
    twice := Exec(once, 6);
    collected := Exec(twice, 7);
    SubmittedFirst(p, submitted);
    SubmitPollPollCollect(p);
    SameBytes(s, p, h);
    ReferenceNumbers(p, Result(collected.stage[6], collected.stage[7], collected.stage[8], collected.stage[9]));
    DoMeaning(p, 5);
    Restated(submitted, 1);
    DoMeaning(WriteReg(submitted, 0, 1), 6);
    Restated(once, 1);
    DoMeaning(once, 6);
    Restated(twice, 1);
    DoMeaning(twice, 7);
    Restated(collected, h);
    var q := WriteReg(collected, 0, h);
    freed := Exec(q, 8);
    completed := Exec(freed, 9);
    FreeAnswers(q);
    DoMeaning(q, 8);
    FixedAnswers(freed, 9);
    DoMeaning(freed, 9);
  }

  lemma SubmittedFirst(p: DeviceState, t: DeviceState)
    requires Inv(p) && p.nextJob == 1 && Live(p, p.stage[0]) && t == Exec(p, 5)
    ensures Answers(t, 0, 1, t.stage[7], 0, 0)
  {
    SubmitAnswers(p);
    SlotMeaning(p);
    hide Exec, Inv, NumbersOf;
    assert !Pending(p, 1);
  }

  lemma SameBytes(s: DeviceState, p: DeviceState, h: u32)
    requires p == s.(stage := p.stage)
    ensures BytesAt(p, h, 0, 16) == BytesAt(s, h, 0, 16) && Live(p, h) == Live(s, h)
  {
  }

  lemma Restated(s: DeviceState, v: u32)
    ensures Put(s, 0, v) == WriteReg(s, 0, v)
    ensures s.stage[0] == v ==> WriteReg(s, 0, v) == s
  {
    PutMeaning(s, 0, v);
    hide Put;
    assert s.stage[0] == v ==> s.stage[0 := v] == s.stage;
  }

  // ---------------------------------------------------------------------------
  // From reset
  // ---------------------------------------------------------------------------

  /** With nothing allocated, ALLOC of 4096 bytes grants handle 1. */
  lemma FirstAlloc(s: DeviceState, q: DeviceState, t: DeviceState)
    requires SoundPool(s) && s.config.hasPool && s.config.poolBytes >= 4096
    requires forall i | 0 <= i < 16 :: !s.allocations[i].live
    requires q == s.(stage := s.stage[0 := 4096]) && t == Exec(q, 3)
    ensures Answers(t, 0, 1, 4096, 0, 0) && Live(t, 1)
    ensures t.allocations[0].size == 4096 && t.allocations[0].uploaded == 0
    ensures t == s.(stage := t.stage, allocations := t.allocations)
  {
    AllocAnswers(q);
    hide Exec;
    assert Vacant(q, 0, 4096);
    assert HasRoom(q, Rounded(4096));
    assert !Live(q, 1);
    assert Grantable(q, 4096);
  }

  /** The documented bring-up sequence on a 64 KiB pool, command by command, with every answer of the
      golden vector. */
  lemma FullLifecycle(config: Config) returns (hello: DeviceState, caps: DeviceState, alloc: DeviceState,
      uploaded: DeviceState, submitted: DeviceState, once: DeviceState, twice: DeviceState,
      collected: DeviceState, freed: DeviceState, completed: DeviceState)
    requires config == Config(true, 0x1_0000, 0, 0x1F, TimingModel(25_000, 6_291_456, 100_000_000))
    ensures hello == Do(InitialState(config), 1) && Answers(hello, 0, 0x1_0000, 0x1F, 0x1_0000, 2)
    ensures caps == Do(hello, 2) && Answers(caps, 0, 0x1F, 0x1_0000, 6_291_456, 25)
    ensures alloc == Do(Put(caps, 0, 4096), 3) && Answers(alloc, 0, 1, 4096, 0, 0)
    ensures uploaded == Do(Put(Put(Put(LoadPattern(alloc), 0, 1), 1, 0), 4, 16), 4)
    ensures Answers(uploaded, 0, 16, 0xF269_B734, 0, 0)
    ensures submitted == Do(SubmitSet(uploaded, 1), 5) && Answers(submitted, 0, 1, 2_530, 0, 0)
    ensures once == Do(Put(submitted, 0, 1), 6) && Answers(once, 0, 0, 1, 0, 0)
    ensures twice == Do(Put(once, 0, 1), 6) && Answers(twice, 0, 1, 0, 0, 0)
    ensures collected == Do(Put(twice, 0, 1), 7) && Answers(collected, 0, 2_530, 1_383, 0xF269_B734, 3_500)
    ensures freed == Do(Put(collected, 0, 1), 8) && Answers(freed, 0, 0, 0, 0, 0)
    ensures completed == Do(freed, 9) && Answers(completed, 0, 0x5353_4150, 0, 0, 0)
  {
    hide *;
    hello, caps, alloc := ResetToAlloc(config);
    LoadsPattern(alloc);
    PayloadKeepsInv(alloc, LoadPattern(alloc));
    StillLive(alloc, LoadPattern(alloc));
    uploaded := UploadPattern(LoadPattern(alloc), 1);
    submitted, once, twice, collected, freed, completed := SubmitToComplete(uploaded, 1);
  }

  lemma StillLive(s: DeviceState, t: DeviceState)
    requires Live(s, 1) && t.allocations == s.allocations
    ensures Live(t, 1)
  {
  }

  lemma ResetToAlloc(config: Config) returns (hello: DeviceState, caps: DeviceState, alloc: DeviceState)
    requires config == Config(true, 0x1_0000, 0, 0x1F, TimingModel(25_000, 6_291_456, 100_000_000))
    ensures hello == Do(InitialState(config), 1) && Answers(hello, 0, 0x1_0000, 0x1F, 0x1_0000, 2)
    ensures caps == Do(hello, 2) && Answers(caps, 0, 0x1F, 0x1_0000, 6_291_456, 25)
    ensures alloc == Do(Put(caps, 0, 4096), 3) && Answers(alloc, 0, 1, 4096, 0, 0)
    ensures Inv(alloc) && Live(alloc, 1) && alloc.allocations[0].size == 4096 && alloc.allocations[0].uploaded == 0
    ensures alloc.nextJob == 1 && alloc.config.timing == config.timing
  {
    hide Put, Do, Inv, InitialState, Answers;
    FreshState(config, InitialState(config));
    hello, caps := Introduced(InitialState(config));
    RegistersKeepInv(InitialState(config), caps);
    alloc := FirstGrant(caps);
  }

  lemma FreshState(config: Config, s: DeviceState)
    requires config == Config(true, 0x1_0000, 0, 0x1F, TimingModel(25_000, 6_291_456, 100_000_000))
    requires s == InitialState(config)
    ensures Inv(s) && s.config == config.(reportedLocalBytes := 0x1_0000) && s.nextJob == 1
    ensures forall i | 0 <= i < 16 :: !s.allocations[i].live
  {
    hide Inv;
    InitialInv(config);
  }

  lemma Introduced(s: DeviceState) returns (hello: DeviceState, caps: DeviceState)
    ensures hello == Do(s, 1) && Answers(hello, 0, 0x1_0000, s.config.capabilities, s.config.reportedLocalBytes, 2)
    ensures caps == Do(hello, 2)
    ensures Answers(caps, 0, s.config.capabilities, s.config.reportedLocalBytes,
                    s.config.timing.busBytesPerSecond, s.config.timing.commandLatencyNs / 1000)
    ensures caps == s.(stage := caps.stage)
  {
    hide Do, Exec;
    hello := Exec(s, 1);
    caps := Exec(hello, 2);
    FixedAnswers(s, 1);
    FixedAnswers(hello, 2);
    DoMeaning(s, 1);
    DoMeaning(hello, 2);
  }

  lemma FirstGrant(s: DeviceState) returns (alloc: DeviceState)
    requires Inv(s) && s.config.hasPool && s.config.poolBytes >= 4096
    requires forall i | 0 <= i < 16 :: !s.allocations[i].live
    ensures alloc == Do(Put(s, 0, 4096), 3) && Answers(alloc, 0, 1, 4096, 0, 0)
    ensures Inv(alloc) && Live(alloc, 1) && alloc.allocations[0].size == 4096 && alloc.allocations[0].uploaded == 0
    ensures alloc == s.(stage := alloc.stage, allocations := alloc.allocations)
  {
    hide Put, Do, Inv, Exec;
    var q := WriteReg(s, 0, 4096);
    RegistersKeepInv(s, q);
    Restated(s, 4096);
    InvPool(s);
    alloc := Exec(q, 3);
    DoMeaning(q, 3);
    FirstAlloc(s, q, alloc);
    ExecKeepsInv(q, 3);
  }

  lemma PayloadKeepsInv(s: DeviceState, t: DeviceState)
    requires Inv(s) && t == s.(payload := t.payload)
    ensures Inv(t)
  {
  }
}
