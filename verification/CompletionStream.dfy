/** Completions over whole runs: nothing is lost silently, reordered, duplicated or altered. */
module CompletionStream {
  import opened Words
  import opened Protocol
  import opened Timing
  import Checksum
  import opened DeviceModel

  /** The items of a block the device goes on to execute; none if it is refused. */
  function AcceptedItems(op: Op): (items: seq<Item>)
    ensures |items| <= MAX_DESCRIPTORS
  {
    if op.OpWriteBlock? && BlockWellFormed(op.selector, op.word, op.data) then
      match ParseBlock(op.data.value[..WriteBlockLength(op.word)])
      case Bad(_) => []
      case Items(items) => items
    else []
  }

  /** Every completion an operation produces, whether or not the queue has room for it. */
  function Produced(s: DeviceState, op: Op): (records: seq<Completion>)
    ensures |records| == |AcceptedItems(op)|
  {
    var items := AcceptedItems(op);
    if items == [] then []
    else RunItems(s, items, |items|, TransportShareNs(s.config.timing, |items|)).1
  }

  /** The ones that enter the queue: the longest prefix that fits. */
  function Queued(s: DeviceState, op: Op): seq<Completion> {
    var records := Produced(s, op);
    records[..Min(|records|, TABLE_SIZE - |s.queue|)]
  }

  /** The ones an operation hands to the console. */
  function Handed(s: DeviceState, op: Op): seq<Completion> {
    if op.OpReadBlock? then s.queue[..Popped(s, op.selector, op.word, op.outBytes)] else []
  }

  function QueuedByRun(s: DeviceState, ops: seq<Op>): seq<Completion>
    decreases |ops|
  {
    if |ops| == 0 then [] else Queued(s, ops[0]) + QueuedByRun(Step(s, ops[0]), ops[1..])
  }

  function HandedByRun(s: DeviceState, ops: seq<Op>): seq<Completion>
    decreases |ops|
  {
    if |ops| == 0 then [] else Handed(s, ops[0]) + HandedByRun(Step(s, ops[0]), ops[1..])
  }

  lemma RunItemKeepsQueue(s: DeviceState, item: Item, batch: u32, share: u32)
    ensures RunItem(s, item, batch, share).0.queue == s.queue
  {
  }

  lemma {:induction false} RunItemsKeepQueue(s: DeviceState, items: seq<Item>, batch: u32, share: u32)
    ensures RunItems(s, items, batch, share).0.queue == s.queue
  {
    hide RunItem;
    if |items| > 0 {
      var front := items[..|items| - 1];
      RunItemsKeepQueue(s, front, batch, share);
      RunItemKeepsQueue(RunItems(s, front, batch, share).0, items[|items| - 1], batch, share);
    }
  }

  lemma ExecKeepsQueue(s: DeviceState, command: byte)
    ensures Exec(s, command).queue == s.queue
  {
    hide AllocationIndex, LowestFit, FreeAllocation, JobIndex, FreeJob, SubmittedJob, UploadAccepted;
  }

  lemma WriteBlockQueues(s: DeviceState, op: Op)
    requires op.OpWriteBlock?
    ensures Step(s, op).queue == s.queue + Queued(s, op)
  {
    hide RunItems, ParseBlock;
    var items := AcceptedItems(op);
    if items != [] {
      RunItemsKeepQueue(s, items, |items|, TransportShareNs(s.config.timing, |items|));
    }
  }

  lemma StepConserves(s: DeviceState, op: Op)
    ensures s.queue + Queued(s, op) == Handed(s, op) + Step(s, op).queue
  {
    hide Exec, WriteBlock, Produced;
    match op
    case OpExec(command, _) => ExecKeepsQueue(s, command);
    case OpWriteBlock(_, _, _) => WriteBlockQueues(s, op);
    case _ =>
  }

  /** Over any run, what was queued is what was handed out followed by what is still queued. */
  lemma {:induction false} StreamConserved(s: DeviceState, ops: seq<Op>)
    ensures s.queue + QueuedByRun(s, ops) == HandedByRun(s, ops) + Run(s, ops).queue
    decreases |ops|
  {
    hide Step, Queued, Handed;
    if |ops| == 0 {
      assert s.queue + [] == [] + s.queue;
    } else {
      var s', rest := Step(s, ops[0]), ops[1..];
      StepConserves(s, ops[0]);
      StreamConserved(s', rest);
      calc {
        s.queue + QueuedByRun(s, ops);
        (s.queue + Queued(s, ops[0])) + QueuedByRun(s', rest);
        (Handed(s, ops[0]) + s'.queue) + QueuedByRun(s', rest);
        Handed(s, ops[0]) + (s'.queue + QueuedByRun(s', rest));
        Handed(s, ops[0]) + (HandedByRun(s', rest) + Run(s', rest).queue);
        HandedByRun(s, ops) + Run(s, ops).queue;
      }
    }
  }

  /** The status of an F4 tells exactly whether a completion was lost. */
  lemma WriteBlockStatus(s: DeviceState, op: Op)
    requires op.OpWriteBlock?
    ensures
      var (s', status) := WriteBlock(s, op.selector, op.word, op.data);
      && s'.stage[RESULT] == status
      && (status == QUEUE_FULL <==> |s.queue| + |Produced(s, op)| > TABLE_SIZE)
      && (status == QUEUE_FULL <==> Queued(s, op) < Produced(s, op))
      && (status == OK <==> AcceptedItems(op) != [] && Queued(s, op) == Produced(s, op))
      && (Faulty(status) <==> AcceptedItems(op) == [])
  {
    hide RunItems, ParseBlock;
  }

  /** A refused block changes the RESULT register and nothing else, whatever preceded the fault. */
  lemma RefusedBlockChangesNothing(s: DeviceState, selector: byte, word: u32, data: Option<seq<byte>>)
    ensures
      var (s', status) := WriteBlock(s, selector, word, data);
      Faulty(status) ==> s' == s.(stage := s.stage[RESULT := status])
  {
    hide RunItems, ParseBlock;
  }

  lemma RunItemAnswers(s: DeviceState, item: Item, batch: u32, share: u32)
    ensures
      var c := RunItem(s, item, batch, share).1;
      && c.magic == COMPLETION_MAGIC && c.version == BLOCK_VERSION
      && c.sequence == item.desc.sequence && c.softwareUs == item.desc.arg0
      && c.outputLength == item.desc.outputLength
      && c.batchSize == batch && c.transportNs == share
      && (c.status == OK <==> RunItem(s, item, batch, share).0.nextJob == Wrap32(s.nextJob + 1))
      && (c.status == OK ==> c.jobHandle == s.nextJob)
  {
    hide Deliver, Verdict, FreeJob, AllocationIndex, Checksum.Fnv1a, BlockModelUs;
    DeliverKeepsJobs(s, item);
    var s' := Deliver(s, item);
    if Verdict(s', item) != OK {
      assert RunItem(s, item, batch, share).0 == s';
      assert Wrap32(s.nextJob + 1) != s.nextJob;
    }
  }

  lemma DeliverKeepsJobs(s: DeviceState, item: Item)
    ensures Deliver(s, item).jobs == s.jobs && Deliver(s, item).nextJob == s.nextJob
  {
  }

  /** Completion i of a batch answers descriptor i. */
  lemma {:induction false} RunItemsAnswer(s: DeviceState, items: seq<Item>, batch: u32, share: u32)
    ensures
      var records := RunItems(s, items, batch, share).1;
      forall i | 0 <= i < |items| ::
        && records[i].sequence == items[i].desc.sequence
        && records[i].softwareUs == items[i].desc.arg0
        && records[i].outputLength == items[i].desc.outputLength
        && records[i].batchSize == batch && records[i].transportNs == share
  {
    hide RunItem;
    if |items| > 0 {
      var front := items[..|items| - 1];
      RunItemsAnswer(s, front, batch, share);
      RunItemAnswers(RunItems(s, front, batch, share).0, items[|items| - 1], batch, share);
    }
  }

  /** An executed block attempts one completion per descriptor, each with its own sequence number
      and an equal share of the block round trip. */
  lemma BlockAnswersEveryDescriptor(s: DeviceState, op: Op)
    ensures
      var items, records := AcceptedItems(op), Produced(s, op);
      && |records| == |items|
      && forall i | 0 <= i < |items| ::
           && records[i].sequence == items[i].desc.sequence
           && records[i].batchSize == |items|
           && records[i].transportNs == TransportShareNs(s.config.timing, |items|)
  {
    hide RunItems, AcceptedItems;
    var items := AcceptedItems(op);
    if items != [] {
      RunItemsAnswer(s, items, |items|, TransportShareNs(s.config.timing, |items|));
    }
  }

  // ---------------------------------------------------------------------------
  // The bytes of an F5
  // ---------------------------------------------------------------------------

  lemma {:induction false} EncodedRecordAt(records: seq<Completion>, k: nat)
    requires k < |records|
    ensures EncodeCompletions(records)[64 * k..64 * k + 64] == EncodeCompletion(records[k])
  {
    hide EncodeCompletion;
    var last := |records| - 1;
    var front := EncodeCompletions(records[..last]);
    if k < last {
      EncodedRecordAt(records[..last], k);
      assert EncodeCompletions(records)[64 * k..64 * k + 64] == front[64 * k..64 * k + 64];
    }
  }

  /** An F5 block decodes to exactly the records handed out, oldest first; the rest is zero. */
  lemma ReadBlockDecodes(s: DeviceState, selector: byte, word: u32, outBytes: nat)
    ensures
      var bs := ReadBlockBytes(s, selector, word, outBytes);
      var handed := Handed(s, OpReadBlock(selector, word, Some(outBytes)));
      && 64 * |handed| <= outBytes
      && (forall k | 0 <= k < |handed| :: DecodeCompletion(bs[64 * k..64 * k + 64]) == handed[k])
      && (forall j | 64 * |handed| <= j < outBytes :: bs[j] == 0)
  {
    hide EncodeCompletion, EncodeCompletions, DecodeCompletion;
    var bs := ReadBlockBytes(s, selector, word, outBytes);
    var handed := Handed(s, OpReadBlock(selector, word, Some(outBytes)));
    var image := EncodeCompletions(handed);
    forall k | 0 <= k < |handed|
      ensures DecodeCompletion(bs[64 * k..64 * k + 64]) == handed[k]
    {
      EncodedRecordAt(handed, k);
      CompletionRoundTrip(handed[k]);
      assert bs[64 * k..64 * k + 64] == image[64 * k..64 * k + 64];
    }
  }

  /** How many records an F5 of the given length pops. */
  lemma ReadBlockPops(s: DeviceState, length: u16, outBytes: nat)
    requires 0 < length <= BLOCK_BYTES <= outBytes
    ensures
      var word: u32 := 0x1_0000 * length;
      && |Handed(s, OpReadBlock(SELECTOR_COMPLETION, word, Some(outBytes)))| == Min(|s.queue|, length / 64)
      && ReadBlock(s, SELECTOR_COMPLETION, word, Some(outBytes)).queue == s.queue[Min(|s.queue|, length / 64)..]
  {
    var word: u32 := 0x1_0000 * length;
    assert word / 0x1_0000 == length && word % 0x1_0000 == 0;
  }
}
