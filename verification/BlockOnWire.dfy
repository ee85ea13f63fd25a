/** F4, the depth of the queue and F5, as bytes. */
module BlockOnWire {
  import opened Words
  import opened Protocol
  import opened Timing
  import opened DeviceModel
  import opened DeviceInvariant
  import opened CompletionStream
  import opened BlockFormat
  import opened BlockAnswers
  import opened RecordAnswers
  import opened WireFormat
  import opened Client
  import opened Conformance

  // ---------------------------------------------------------------------------
  // F5
  // ---------------------------------------------------------------------------

  /** Selector 1, offset 0 and a length up to 512. */
  predicate ReadsQueue(index: byte, word: u32) {
    index == 1 && word % 65536 == 0 && 0 < word / 65536 <= 512
  }

  /** How many records such a read takes. */
  function Taken(s: DeviceState, index: byte, word: u32): nat {
    if ReadsQueue(index, word) then Min(|s.queue|, word / 65536 / 64) else 0
  }

  /** The records stand at the front of the 512 bytes, field by field, and the rest is zero. */
  predicate Shows(out: seq<byte>, records: seq<Completion>) {
    && |out| == 512 && |records| <= 8
    && (forall k | 0 <= k < |records| :: CompletionAt(out[64 * k..64 * k + 64], records[k]))
    && (forall j | 64 * |records| <= j < 512 :: out[j] == 0)
  }

  lemma ShownImage(records: seq<Completion>)
    requires |records| <= 8
    ensures Shows(Image(records, 512), records)
  {
    hide EncodeCompletion, CompletionAt;
    var out := Image(records, 512);
    forall k | 0 <= k < |records|
      ensures CompletionAt(out[64 * k..64 * k + 64], records[k])
    {
      EncodedRecordAt(records, k);
      CompletionLayout(records[k]);
      assert out[64 * k..64 * k + 64] == EncodeCompletions(records)[64 * k..64 * k + 64];
    }
  }

  /** F5 hands over the oldest records as bytes and leaves 0 in RESULT, or, misaddressed, hands over
      zeros and leaves 6; it changes nothing else. */
  lemma ReadAnswers(s: DeviceState, index: byte, word: u32)
    ensures
      var t, n := ReadBlock(s, index, word, Some(512)), Taken(s, index, word);
      && t == s.(queue := s.queue[n..], stage := s.stage[5 := if ReadsQueue(index, word) then 0 else 6])
      && n <= 8 && Shows(ReadBlockBytes(s, index, word, 512), s.queue[..n])
  {
    var n := Popped(s, index, word, Some(512));
    assert n == Taken(s, index, word) && n <= 8;
    ShownImage(s.queue[..n]);
    hide Shows, Image;
  }

  lemma BlockIssued(s: DeviceState, index: byte, word: u32, data: Block)
    ensures Issue(s, Gk(0xF4, index, word), data) == Step(s, OpWriteBlock(index, word, Some(data)))
    ensures Issue(s, Gk(0xF5, index, word), data) == ReadBlock(s, index, word, Some(512))
    ensures Reply(s, Gk(0xF5, index, word)) == ReadBlockBytes(s, index, word, 512)
  {
    hide Step, Issue, Gk, DecodeCommand, ReadBlockBytes, WriteBlock, AtomicOp, CommandAt;
    GkBytes(0xF4, index, word);
    GkBytes(0xF5, index, word);
    AtomicNumbers(index, word, data);
    IssueOne(s, Gk(0xF4, index, word), data, OpWriteBlock(index, word, Some(data)));
    IssueOne(s, Gk(0xF5, index, word), data, OpReadBlock(index, word, Some(512)));
    ReadStep(s, index, word);
  }

  lemma ReadStep(s: DeviceState, index: byte, word: u32)
    ensures Step(s, OpReadBlock(index, word, Some(512))) == ReadBlock(s, index, word, Some(512))
  {
  }

  /** F2 of RESULT after an F1, an F4 and an F5 answers the status each left. */
  lemma ResultRead(s: DeviceState, command: byte, index: byte, word: u32, data: Block)
    ensures Get(Do(s, command), 5) == Exec(s, command).stage[5]
    ensures Get(Issue(s, Gk(0xF4, index, word), data), 5) == Step(s, OpWriteBlock(index, word, Some(data))).stage[5]
    ensures Get(Issue(s, Gk(0xF5, index, word), data), 5) == if ReadsQueue(index, word) then 0 else 6
  {
    hide Get, Issue, Gk, Do, Exec, ReadsQueue, Taken;
    DoMeaning(s, command);
    GetMeaning(Exec(s, command), 5);
    BlockIssued(s, index, word, data);
    GetMeaning(Step(s, OpWriteBlock(index, word, Some(data))), 5);
    ReadAnswers(s, index, word);
    GetMeaning(ReadBlock(s, index, word, Some(512)), 5);
    hide Step, ReadBlock;
  }

  // ---------------------------------------------------------------------------
  // One block, there and back
  // ---------------------------------------------------------------------------

  /** Record k answers descriptor k, for a share of the round trip. */
  ghost predicate AnswersItem(s: DeviceState, items: seq<Item>, records: seq<Completion>, share: u32, k: nat)
    requires |records| == |items| <= 8 && k < |items|
  {
    var d, c, jobs := items[k].desc, records[k], JobsUpTo(s, 16) + Successes(records[..k]);
    var t := RunItems(s, items[..k], |items|, share).0;
    && StatusLaw(s, d, HighWater(s, items[..k], d.inputHandle), jobs, c.status)
    && RecordLaw(s.config.timing, d, share, jobs + 1, InputBytes(t, items[k]), c)
    && c.batchSize == |items|
  }

  ghost predicate RecordsAnswer(s: DeviceState, items: seq<Item>, records: seq<Completion>) {
    && |records| == |items| && 1 <= |items| <= 8
    && forall k | 0 <= k < |items| ::
         AnswersItem(s, items, records, TransportShareNs(s.config.timing, |items|), k)
  }

  lemma ProducedAnswer(s: DeviceState, op: Op, items: seq<Item>)
    requires Inv(s) && op.OpWriteBlock? && AcceptedItems(op) == items != []
    ensures RecordsAnswer(s, items, Produced(s, op))
  {
    hide Inv, Produced, AcceptedItems, StatusLaw, RecordLaw, RunItems, TransportShareNs;
    var share := TransportShareNs(s.config.timing, |items|);
    forall k | 0 <= k < |items|
      ensures AnswersItem(s, items, Produced(s, op), share, k)
    {
      BlockRecord(s, op, k);
    }
  }

  lemma AllQueued(s: DeviceState, op: Op)
    requires op.OpWriteBlock? && s.queue == []
    ensures Step(s, op).queue == Produced(s, op)
  {
    WriteBlockQueues(s, op);
    hide Step, Produced;
    assert s.queue + Queued(s, op) == Produced(s, op);
  }

  lemma TakesAll(s: DeviceState, word: u32)
    requires |s.queue| <= 8 && word == 0x0200_0000
    ensures ReadsQueue(1, word) && Taken(s, 1, word) == |s.queue|
  {
  }

  lemma ReadEverything(s: DeviceState, word: u32)
    requires |s.queue| <= 8 && word == 0x0200_0000
    ensures
      var t := ReadBlock(s, 1, word, Some(512));
      t.queue == [] && t.stage[5] == 0 && Shows(ReadBlockBytes(s, 1, word, 512), s.queue)
  {
    hide Shows, ReadBlock, ReadBlockBytes, Taken, ReadsQueue;
    TakesAll(s, word);
    ReadAnswers(s, 1, word);
    assert s.queue[..|s.queue|] == s.queue;
  }

  /** The depth, and an F5 for everything that waits. */
  lemma ReadsAll(s: DeviceState, word: u32)
    requires |s.queue| <= 8 && word == 0x0200_0000
    ensures
      var read := Issue(s, Gk(0xF5, 1, word), Silence());
      && Get(s, 0xFE) == |s.queue| && Shows(Reply(s, Gk(0xF5, 1, word)), s.queue)
      && Get(read, 5) == 0 && Get(read, 0xFE) == 0
  {
    hide Get, Issue, Reply, Gk, Shows, ReadBlock, ReadBlockBytes, Silence;
    var read := ReadBlock(s, 1, word, Some(512));
    GetMeaning(s, 0xFE);
    BlockIssued(s, 1, word, Silence());
    ReadEverything(s, word);
    GetMeaning(read, 5);
    GetMeaning(read, 0xFE);
  }

  /** With nothing waiting: one to eight descriptors and their inline bytes, sent as one F4 under their
      length. RESULT reads 0, the depth reads their number, and one F5 for 512 bytes brings back, byte
      for byte, one record per descriptor, in order, each saying what the tables before the F4 and the
      descriptors before it determine; the depth then reads 0. */
  lemma BlockThereAndBack(s: DeviceState, items: seq<Item>, block: Block)
      returns (records: seq<Completion>)
    requires Inv(s) && s.queue == []
    requires 1 <= |items| <= 8 && AllConsistent(items) && |Serialise(items)| <= 512
    requires block == Serialise(items) + Zeros(512 - |Serialise(items)|)
    ensures RecordsAnswer(s, items, records)
    ensures
      var sent := Issue(s, Gk(0xF4, 0, |Serialise(items)|), block);
      var read := Issue(sent, Gk(0xF5, 1, 0x0200_0000), Silence());
      && Get(sent, 5) == 0 && Get(sent, 0xFE) == |items|
      && Shows(Reply(sent, Gk(0xF5, 1, 0x0200_0000)), records)
      && Get(read, 5) == 0 && Get(read, 0xFE) == 0
  {
    hide Inv, AcceptedItems, Produced, RecordsAnswer, Get, Issue, Reply, Gk, Shows, Step, Serialise;
    var n := |Serialise(items)|;
    var op := OpWriteBlock(0, n, Some(block));
    var sent := Step(s, op);
    PaddedBlock(s, items, block);
    BlockIssued(s, 0, n, block);
    ProducedAnswer(s, op, items);
    AllQueued(s, op);
    records := Produced(s, op);
    GetMeaning(sent, 5);
    ReadsAll(sent, 0x0200_0000);
  }
}
