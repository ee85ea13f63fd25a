/** What the record of each descriptor of an F4 says, on the tables before the F4. */
module RecordAnswers {
  import opened Words
  import opened Protocol
  import opened Timing
  import opened Checksum
  import opened DeviceModel
  import opened DeviceInvariant
  import opened CompletionStream
  import opened BlockAnswers
  import opened Client
  import opened JobAnswers

  // ---------------------------------------------------------------------------
  // What the descriptors before it have changed
  // ---------------------------------------------------------------------------

  /** The job handles in use. */
  function JobsUpTo(s: DeviceState, n: nat): nat {
    if n == 0 then 0 else JobsUpTo(s, n - 1) + (if Pending(s, n) then 1 else 0)
  }

  function Successes(records: seq<Completion>): nat {
    if |records| == 0 then 0
    else Successes(records[..|records| - 1]) + (if records[|records| - 1].status == 0 then 1 else 0)
  }

  /** A high-water mark once the inline bytes of a descriptor are stored. */
  function Raised(s: DeviceState, d: Descriptor, handle: nat, mark: nat): nat {
    if d.flags % 2 == 1 && d.inputHandle == handle && Holds(s, handle, d.inputOffset, d.inputLength)
    then Max(mark, d.inputOffset + d.inputLength) else mark
  }

  /** The end of what an allocation has been given, once the inline bytes of the items are stored. */
  function HighWater(s: DeviceState, items: seq<Item>, handle: nat): nat {
    if |items| == 0 then (if Live(s, handle) then s.allocations[handle - 1].uploaded else 0)
    else Raised(s, items[|items| - 1].desc, handle, HighWater(s, items[..|items| - 1], handle))
  }

  /** The same allocation under a handle in t as in s, uploaded up to its mark. */
  predicate SameSlot(s: DeviceState, t: DeviceState, items: seq<Item>, h: nat)
    requires 1 <= h <= 16
  {
    && Live(t, h) == Live(s, h)
    && t.allocations[h - 1].offset == s.allocations[h - 1].offset
    && t.allocations[h - 1].size == s.allocations[h - 1].size
    && (Live(s, h) ==> t.allocations[h - 1].uploaded == HighWater(s, items, h))
  }

  ghost predicate Uploads(s: DeviceState, t: DeviceState, items: seq<Item>) {
    forall h | 1 <= h <= 16 :: SameSlot(s, t, items, h)
  }

  // ---------------------------------------------------------------------------
  // One descriptor
  // ---------------------------------------------------------------------------

  /** The status of a record: the region to read, what has been uploaded of it, the region to write
      and the job handles in use decide it, in that order. */
  predicate StatusLaw(s: DeviceState, d: Descriptor, uploaded: nat, jobs: nat, status: nat) {
    var readable := Holds(s, d.inputHandle, d.inputOffset, d.inputLength);
    var known := d.flags % 2 == 1 || d.inputOffset + d.inputLength <= uploaded;
    var writable := d.outputHandle == 0 || Holds(s, d.outputHandle, d.outputOffset, d.outputLength);
    && (status == 0 <==> readable && known && writable && jobs < 16)
    && (!readable ==> status == 2)
    && (readable && !known ==> status == 5)
    && (readable && known && !writable ==> status == 2)
    && (readable && known && writable && jobs >= 16 ==> status == 7)
  }

  /** The numbers of a record, for a share of the round trip and the bytes read. */
  predicate RecordLaw(t: TimingModel, d: Descriptor, share: u32, handle: nat, input: seq<byte>, c: Completion) {
    && c.magic == 0x3143_4B47 && c.version == 1
    && c.sequence == d.sequence && c.softwareUs == d.arg0 && c.outputLength == d.outputLength
    && c.transportNs == share
    && (c.status != 0 ==> c.jobHandle == 0 && c.modeledUs == 0 && c.speedupX1000 == 0 && c.checksum == 0)
    && (c.status == 0 ==>
          && c.jobHandle == handle && c.checksum == Fnv1a(input)
          && (Close(c.modeledUs, PerSecond(d.workUnits, t.kernelOpsPerSecond) + share as real)
              <==> RoundedNs(d.workUnits, t.kernelOpsPerSecond) + share + 500 < 0x1_0000_0000)
          && Faster(c.speedupX1000, d.arg0, c.modeledUs))
  }

  lemma AcceptedMeaning(s: DeviceState, d: Descriptor)
    ensures InputAccepted(s, d) <==> Holds(s, d.inputHandle, d.inputOffset, d.inputLength)
    ensures OutputAccepted(s, d) <==> d.outputHandle == 0 || Holds(s, d.outputHandle, d.outputOffset, d.outputLength)
  {
  }

  predicate Carries(s: DeviceState, item: Item) {
    item.input.Some? && Holds(s, item.desc.inputHandle, item.desc.inputOffset, item.desc.inputLength)
  }

  lemma DeliverCases(s: DeviceState, item: Item)
    ensures !Carries(s, item) ==> Deliver(s, item) == s
    ensures Carries(s, item) ==>
      Deliver(s, item) == Store(s, item.desc.inputHandle - 1, item.desc.inputOffset, item.input.value)
  {
    AcceptedMeaning(s, item.desc);
    hide InputAccepted, Store;
  }

  /** The inline bytes of one item. */
  lemma DeliverMeaning(s: DeviceState, item: Item)
    requires Inv(s) && item.Consistent()
    ensures
      var t, d := Deliver(s, item), item.desc;
      && Inv(t) && Uploads(s, t, [item]) && t == s.(pool := t.pool, allocations := t.allocations)
      && (d.flags % 2 == 1 && Holds(s, d.inputHandle, d.inputOffset, d.inputLength) ==>
            BytesAt(t, d.inputHandle, d.inputOffset, d.inputLength) == item.input.value)
  {
    hide Inv, Deliver, Store, Stored, SameSlot, BytesAt, Live;
    var t, d := Deliver(s, item), item.desc;
    DeliverCases(s, item);
    DeliverKeepsInv(s, item);
    if Carries(s, item) {
      StoreMeaning(s, d.inputHandle, d.inputOffset, item.input.value);
      StoredBytes(s, t, d.inputHandle, d.inputOffset, item.input.value);
      forall h | 1 <= h <= 16
        ensures SameSlot(s, t, [item], h)
      {
        StoredSlot(s, t, item, h);
      }
    } else {
      forall h | 1 <= h <= 16
        ensures SameSlot(s, t, [item], h)
      {
        UntouchedSlot(s, item, h);
      }
    }
  }

  lemma OneItemMark(s: DeviceState, item: Item, h: nat)
    ensures HighWater(s, [item], h)
         == Raised(s, item.desc, h, if Live(s, h) then s.allocations[h - 1].uploaded else 0)
  {
    NothingBefore(s, item);
    hide Raised;
  }

  lemma StoredSlot(s: DeviceState, t: DeviceState, item: Item, h: nat)
    requires 1 <= h <= 16 && item.Consistent() && item.input.Some?
    requires Holds(s, item.desc.inputHandle, item.desc.inputOffset, item.desc.inputLength)
    requires Stored(s, t, item.desc.inputHandle, item.desc.inputOffset, item.input.value)
    ensures SameSlot(s, t, [item], h)
  {
    OneItemMark(s, item, h);
    hide HighWater;
  }

  lemma UntouchedSlot(s: DeviceState, item: Item, h: nat)
    requires 1 <= h <= 16 && item.Consistent()
    requires item.input.None? || !Holds(s, item.desc.inputHandle, item.desc.inputOffset, item.desc.inputLength)
    ensures SameSlot(s, s, [item], h)
  {
    OneItemMark(s, item, h);
    hide HighWater;
  }

  lemma StoredBytes(s: DeviceState, t: DeviceState, handle: nat, offset: nat, data: seq<byte>)
    requires Stored(s, t, handle, offset, data)
    ensures BytesAt(t, handle, offset, |data|) == data
  {
  }

  lemma NothingBefore(s: DeviceState, item: Item)
    ensures forall h: nat :: HighWater(s, [item][..0], h) == if Live(s, h) then s.allocations[h - 1].uploaded else 0
  {
  }

  lemma {:induction false} JobsInUse(s: DeviceState, n: nat)
    requires Inv(s) && n <= 16
    ensures JobsUpTo(s, n) == Min(n, s.nextJob - 1)
  {
    SlotMeaning(s);
    if n > 0 {
      JobsInUse(s, n - 1);
    }
  }

  lemma VerdictMeaning(s: DeviceState, u: DeviceState, item: Item)
    requires Inv(s) && item.Consistent() && u == Deliver(s, item)
    ensures StatusLaw(s, item.desc, HighWater(s, [], item.desc.inputHandle), s.nextJob - 1, Verdict(u, item))
  {
    var d := item.desc;
    DeliverMeaning(s, item);
    DeliverKeepsJobs(s, item);
    AcceptedMeaning(u, d);
    FreeJobIsNext(s.jobs, s.nextJob);
    hide Inv, Deliver, InputAccepted, OutputAccepted, FreeJob;
    SameHolds(s, u, item, d.inputHandle, d.inputOffset, d.inputLength);
    SameHolds(s, u, item, d.outputHandle, d.outputOffset, d.outputLength);
    if item.input.None? && Live(s, d.inputHandle) {
      NoInline(s, item, d.inputHandle);
      assert SameSlot(s, u, [item], d.inputHandle);
    }
    hide Uploads;
  }

  lemma SameHolds(s: DeviceState, u: DeviceState, item: Item, h: u32, offset: nat, n: nat)
    requires Uploads(s, u, [item])
    ensures Live(u, h) == Live(s, h) && Holds(u, h, offset, n) == Holds(s, h, offset, n)
  {
    if 1 <= h <= 16 {
      assert SameSlot(s, u, [item], h);
    }
  }

  lemma NoInline(s: DeviceState, item: Item, h: nat)
    requires item.Consistent() && item.input.None?
    ensures HighWater(s, [item], h) == HighWater(s, [], h)
  {
    NothingBefore(s, item);
    assert [item][..0] == [];
  }

  /** The bytes an item runs over: its own, or what its region holds when its turn comes. */
  function InputBytes(t: DeviceState, item: Item): seq<byte> {
    if item.input.Some? then item.input.value
    else BytesAt(t, item.desc.inputHandle, item.desc.inputOffset, item.desc.inputLength)
  }

  lemma BlockNumbers(u: DeviceState, d: Descriptor, share: u32, job: Job)
    requires Live(u, d.inputHandle) && job == BlockJob(u, d.inputHandle - 1, d, share)
    ensures Close(job.modeledUs, PerSecond(d.workUnits, u.config.timing.kernelOpsPerSecond) + share as real)
       <==> RoundedNs(d.workUnits, u.config.timing.kernelOpsPerSecond) + share + 500 < 0x1_0000_0000
    ensures Faster(job.speedupX1000, d.arg0, job.modeledUs)
    ensures job.softwareUs == d.arg0 && job.handle == u.nextJob
  {
    BlockModelAccuracy(u.config.timing, d.workUnits, share);
    SpeedupMeaning(d.arg0, job.modeledUs);
    hide BlockModelUs, SpeedupX1000, Close, RoundedNs, Fnv1a, Slice;
    assert ExactNs(d.workUnits, u.config.timing.kernelOpsPerSecond)
        == PerSecond(d.workUnits, u.config.timing.kernelOpsPerSecond);
  }

  lemma BlockInput(u: DeviceState, d: Descriptor, share: u32)
    requires Inv(u) && Holds(u, d.inputHandle, d.inputOffset, d.inputLength)
    ensures BlockJob(u, d.inputHandle - 1, d, share).checksum
         == Fnv1a(BytesAt(u, d.inputHandle, d.inputOffset, d.inputLength))
  {
    LiveIsSound(u, d.inputHandle - 1);
    InvPool(u);
    hide Inv, Fnv1a, BlockModelUs, SpeedupX1000;
    var at := u.allocations[d.inputHandle - 1].offset + d.inputOffset;
    assert u.pool[at..at + d.inputLength] == u.pool[at..][..d.inputLength];
  }

  lemma DeliveredInput(s: DeviceState, u: DeviceState, item: Item)
    requires Inv(s) && item.Consistent() && u == Deliver(s, item)
    requires Holds(s, item.desc.inputHandle, item.desc.inputOffset, item.desc.inputLength)
    ensures Holds(u, item.desc.inputHandle, item.desc.inputOffset, item.desc.inputLength)
    ensures BytesAt(u, item.desc.inputHandle, item.desc.inputOffset, item.desc.inputLength) == InputBytes(s, item)
  {
    DeliverMeaning(s, item);
    hide Inv, BytesAt;
    SameHolds(s, u, item, item.desc.inputHandle, item.desc.inputOffset, item.desc.inputLength);
  }

  /** One item: its record, and what it changes in the tables. */
  lemma ItemRecord(s: DeviceState, item: Item, batch: u32, share: u32)
    requires Inv(s) && item.Consistent()
    ensures
      var c := RunItem(s, item, batch, share).1;
      && StatusLaw(s, item.desc, HighWater(s, [], item.desc.inputHandle), s.nextJob - 1, c.status)
      && RecordLaw(s.config.timing, item.desc, share, s.nextJob, InputBytes(s, item), c)
      && c.batchSize == batch
  {
    var u, d := Deliver(s, item), item.desc;
    VerdictMeaning(s, u, item);
    DeliverMeaning(s, item);
    DeliverKeepsJobs(s, item);
    hide Inv, Deliver, Verdict, BlockJob, StatusLaw, Uploads, HighWater;
    if Verdict(u, item) == OK {
      OkReads(s, d, HighWater(s, [], d.inputHandle), s.nextJob - 1);
      DeliveredInput(s, u, item);
      BlockNumbers(u, d, share, BlockJob(u, d.inputHandle - 1, d, share));
      BlockInput(u, d, share);
      FoundInput(u, d);
    }
    hide Close, Faster, Fnv1a, InputBytes, BytesAt, AllocationIndex;
  }

  lemma OkReads(s: DeviceState, d: Descriptor, uploaded: nat, jobs: nat)
    requires StatusLaw(s, d, uploaded, jobs, 0)
    ensures Holds(s, d.inputHandle, d.inputOffset, d.inputLength)
  {
  }

  lemma FoundInput(u: DeviceState, d: Descriptor)
    requires Live(u, d.inputHandle)
    ensures AllocationIndex(u.allocations, d.inputHandle) == Some(d.inputHandle - 1)
  {
  }

  lemma RunItemShape(s: DeviceState, item: Item, batch: u32, share: u32)
    ensures
      var (t, c) := RunItem(s, item, batch, share);
      var u := Deliver(s, item);
      && t.allocations == u.allocations && t.config == u.config
      && t.nextJob == Wrap32(u.nextJob + (if c.status == 0 then 1 else 0))
      && (c.status == 0 ==> FreeJob(u.jobs, 0) < 16)
  {
    VerdictRoom(Deliver(s, item), item);
    hide Deliver, Verdict, BlockJob, AllocationIndex, FreeJob;
  }

  lemma SameUploads(s: DeviceState, u: DeviceState, t: DeviceState, items: seq<Item>)
    requires Uploads(s, u, items) && t.allocations == u.allocations
    ensures Uploads(s, t, items)
  {
    hide HighWater;
    forall h | 1 <= h <= 16
      ensures SameSlot(s, t, items, h)
    {
      assert SameSlot(s, u, items, h);
    }
  }

  lemma ItemTables(s: DeviceState, item: Item, batch: u32, share: u32)
    requires Inv(s) && item.Consistent()
    ensures
      var (t, c) := RunItem(s, item, batch, share);
      && Inv(t) && Uploads(s, t, [item]) && t.config == s.config
      && t.nextJob == s.nextJob + (if c.status == 0 then 1 else 0)
  {
    hide *;
    RunItemKeepsInv(s, item, batch, share);
    DeliverMeaning(s, item);
    RunItemShape(s, item, batch, share);
    JobAdded(s, item, batch, share);
    SameUploads(s, Deliver(s, item), RunItem(s, item, batch, share).0, [item]);
  }

  lemma JobAdded(s: DeviceState, item: Item, batch: u32, share: u32)
    requires Inv(s)
    ensures
      var (t, c) := RunItem(s, item, batch, share);
      t.nextJob == s.nextJob + (if c.status == 0 then 1 else 0)
  {
    DeliverKeepsJobs(s, item);
    RunItemShape(s, item, batch, share);
    FreeJobIsNext(s.jobs, s.nextJob);
    InvNumbers(s);
    hide Inv, Deliver, RunItem, FreeJob, Wrap32;
    NoWrap(s.nextJob);
    if FreeJob(s.jobs, 0) < 16 {
      NoWrap(s.nextJob + 1);
    }
  }

  lemma NoWrap(n: nat)
    requires n < 0x1_0000_0000
    ensures Wrap32(n) == n
  {
  }

  lemma VerdictRoom(u: DeviceState, item: Item)
    ensures Verdict(u, item) == 0 ==> FreeJob(u.jobs, 0) < 16
  {
  }

  // ---------------------------------------------------------------------------
  // A batch
  // ---------------------------------------------------------------------------

  /** Record k of a batch is what item k answers after the items before it. */
  lemma {:induction false} RecordOfBatch(s: DeviceState, items: seq<Item>, batch: u32, share: u32, k: nat)
    requires k < |items|
    ensures
      var records := RunItems(s, items, batch, share).1;
      var (t, before) := RunItems(s, items[..k], batch, share);
      records[..k] == before && records[k] == RunItem(t, items[k], batch, share).1
  {
    hide RunItem;
    var n := |items| - 1;
    if k < n {
      RecordOfBatch(s, items[..n], batch, share, k);
      assert items[..n][..k] == items[..k];
    } else {
      assert RunItems(s, items, batch, share).1[..n] == RunItems(s, items[..n], batch, share).1;
    }
  }

  lemma {:induction false} TablesAfter(s: DeviceState, items: seq<Item>, batch: u32, share: u32)
    requires Inv(s) && AllConsistent(items)
    ensures
      var (t, records) := RunItems(s, items, batch, share);
      && Inv(t) && Uploads(s, t, items) && t.config == s.config
      && t.nextJob == s.nextJob + Successes(records)
  {
    hide Inv, RunItem;
    if |items| > 0 {
      var n := |items| - 1;
      var (t, before) := RunItems(s, items[..n], batch, share);
      TablesAfter(s, items[..n], batch, share);
      ItemTables(t, items[n], batch, share);
      UploadsOneMore(s, t, RunItem(t, items[n], batch, share).0, items);
      hide Uploads;
      assert RunItems(s, items, batch, share).1[..n] == before;
    }
  }

  lemma UploadsOneMore(s: DeviceState, t: DeviceState, u: DeviceState, items: seq<Item>)
    requires |items| > 0 && Uploads(s, t, items[..|items| - 1]) && Uploads(t, u, [items[|items| - 1]])
    ensures Uploads(s, u, items)
  {
    hide HighWater;
    forall h | 1 <= h <= 16
      ensures SameSlot(s, u, items, h)
    {
      assert SameSlot(s, t, items[..|items| - 1], h);
      assert SameSlot(t, u, [items[|items| - 1]], h);
      if Live(s, h) {
        MarkOneMore(s, t, items, h);
      }
    }
  }

  lemma MarkOneMore(s: DeviceState, t: DeviceState, items: seq<Item>, h: nat)
    requires |items| > 0 && Live(s, h) && Live(t, h)
    requires t.allocations[h - 1].size == s.allocations[h - 1].size
    requires t.allocations[h - 1].uploaded == HighWater(s, items[..|items| - 1], h)
    ensures HighWater(t, [items[|items| - 1]], h) == HighWater(s, items, h)
  {
    var last := items[|items| - 1];
    NothingBefore(t, last);
    hide Raised;
    assert HighWater(t, [last], h) == Raised(t, last.desc, h, t.allocations[h - 1].uploaded);
    RaisedAlike(s, t, last.desc, h, t.allocations[h - 1].uploaded);
  }

  lemma RaisedAlike(s: DeviceState, t: DeviceState, d: Descriptor, h: nat, mark: nat)
    requires Live(s, h) && Live(t, h) && t.allocations[h - 1].size == s.allocations[h - 1].size
    ensures Raised(t, d, h, mark) == Raised(s, d, h, mark)
  {
  }

  /** Every record of a batch, on the tables before it: the status, with the high-water marks and job
      handles the descriptors before it leave, and the numbers of a job that ran. */
  lemma BatchRecord(s: DeviceState, items: seq<Item>, batch: u32, share: u32, k: nat)
    requires Inv(s) && AllConsistent(items) && k < |items|
    ensures
      var records := RunItems(s, items, batch, share).1;
      var t := RunItems(s, items[..k], batch, share).0;
      var c, d, jobs := records[k], items[k].desc, JobsUpTo(s, 16) + Successes(records[..k]);
      && StatusLaw(s, d, HighWater(s, items[..k], d.inputHandle), jobs, c.status)
      && RecordLaw(s.config.timing, d, share, jobs + 1, InputBytes(t, items[k]), c)
      && c.batchSize == batch
  {
    hide *;
    FrontConsistent(items, k);
    RecordOfBatch(s, items, batch, share, k);
    var (t, before) := RunItems(s, items[..k], batch, share);
    AnswerAfter(s, items[..k], items[k], batch, share, t, before, RunItem(t, items[k], batch, share).1);
  }

  lemma FrontConsistent(items: seq<Item>, k: nat)
    requires AllConsistent(items) && k < |items|
    ensures AllConsistent(items[..k]) && items[k].Consistent()
  {
  }

  /** The record of one more item after a batch. */
  lemma AnswerAfter(s: DeviceState, front: seq<Item>, item: Item, batch: u32, share: u32,
                    t: DeviceState, before: seq<Completion>, c: Completion)
    requires Inv(s) && AllConsistent(front) && item.Consistent()
    requires (t, before) == RunItems(s, front, batch, share) && c == RunItem(t, item, batch, share).1
    ensures
      var jobs := JobsUpTo(s, 16) + Successes(before);
      && StatusLaw(s, item.desc, HighWater(s, front, item.desc.inputHandle), jobs, c.status)
      && RecordLaw(s.config.timing, item.desc, share, jobs + 1, InputBytes(t, item), c)
      && c.batchSize == batch
  {
    hide *;
    TablesAfter(s, front, batch, share);
    ItemRecord(t, item, batch, share);
    JobsCounted(s);
    SameStatus(s, t, front, item.desc, t.nextJob - 1, c.status);
  }

  lemma JobsCounted(s: DeviceState)
    requires Inv(s)
    ensures 1 <= s.nextJob && JobsUpTo(s, 16) == s.nextJob - 1
  {
    JobsInUse(s, 16);
    InvNumbers(s);
    hide Inv, JobsUpTo;
  }

  lemma SameStatus(s: DeviceState, t: DeviceState, items: seq<Item>, d: Descriptor, jobs: nat, status: nat)
    requires Uploads(s, t, items) && StatusLaw(t, d, HighWater(t, [], d.inputHandle), jobs, status)
    ensures StatusLaw(s, d, HighWater(s, items, d.inputHandle), jobs, status)
  {
    SameRegions(s, t, items, d.inputHandle);
    SameRegions(s, t, items, d.outputHandle);
    hide Uploads;
  }

  lemma SameRegions(s: DeviceState, t: DeviceState, items: seq<Item>, h: u32)
    requires Uploads(s, t, items)
    ensures Live(t, h) == Live(s, h)
    ensures Live(s, h) ==> t.allocations[h - 1].size == s.allocations[h - 1].size
    ensures Live(s, h) ==> t.allocations[h - 1].uploaded == HighWater(s, items, h)
  {
    if 1 <= h <= 16 {
      assert SameSlot(s, t, items, h);
    }
  }

  /** The same of every record an F4 produces; the share charged to each is the round trip divided by
      their number, to the nearest nanosecond. */
  lemma BlockRecord(s: DeviceState, op: Op, k: nat)
    requires Inv(s) && k < |Produced(s, op)|
    ensures
      var items, records := AcceptedItems(op), Produced(s, op);
      var share := TransportShareNs(s.config.timing, |items|);
      var t := RunItems(s, items[..k], |items|, share).0;
      var c, d, jobs := records[k], items[k].desc, JobsUpTo(s, 16) + Successes(records[..k]);
      && StatusLaw(s, d, HighWater(s, items[..k], d.inputHandle), jobs, c.status)
      && RecordLaw(s.config.timing, d, share, jobs + 1, InputBytes(t, items[k]), c)
      && c.batchSize == |items|
  {
    hide Inv, RunItems, ParseBlock, StatusLaw, RecordLaw, HighWater, JobsUpTo, Successes, InputBytes, TransportShareNs;
    var items := AcceptedItems(op);
    BatchRecord(s, items, |items|, TransportShareNs(s.config.timing, |items|), k);
  }
}
