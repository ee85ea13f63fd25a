/** The contents of an allocation are determined by its own writes alone. */
module Isolation {
  import opened Words
  import opened Protocol
  import opened Timing
  import Checksum
  import opened DeviceModel
  import opened DeviceInvariant
  import opened CompletionStream

  datatype Write = Write(offset: nat, data: seq<byte>)

  /** All the bytes of the allocation in slot i. */
  function Contents(s: DeviceState, i: nat): seq<byte>
    requires i < TABLE_SIZE
  {
    Slice(s.pool, s.allocations[i].offset, s.allocations[i].size)
  }

  function ApplyWrites(contents: seq<byte>, writes: seq<Write>): (r: seq<byte>)
    ensures |r| == |contents|
  {
    if |writes| == 0 then contents
    else
      var last := writes[|writes| - 1];
      Splice(ApplyWrites(contents, writes[..|writes| - 1]), last.offset, last.data)
  }

  /** The write an item makes into slot i, if it carries bytes for it and names a region inside it. */
  function ItemWrite(s: DeviceState, item: Item, i: nat): seq<Write> {
    if item.input.Some? && InputAccepted(s, item.desc) && item.desc.inputHandle == i + 1
    then [Write(item.desc.inputOffset, item.input.value)] else []
  }

  function ItemWrites(s: DeviceState, items: seq<Item>, i: nat): seq<Write> {
    if |items| == 0 then []
    else ItemWrites(s, items[..|items| - 1], i) + ItemWrite(s, items[|items| - 1], i)
  }

  /** The writes one operation makes into slot i: an UPLOAD to its handle, or the inline inputs of a
      block that name it. */
  function OwnWrites(s: DeviceState, op: Op, i: nat): seq<Write> {
    if op.OpExec? && op.command == UPLOAD && s.stage[ARG0] == i + 1 && UploadAccepted(s)
    then [Write(s.stage[ARG1], s.payload[..s.stage[PAYLOAD_LEN]])]
    else ItemWrites(s, AcceptedItems(op), i)
  }

  predicate Frees(s: DeviceState, op: Op, i: nat) {
    op.OpExec? && op.command == FREE && s.stage[ARG0] == i + 1
  }

  function OwnWritesOfRun(s: DeviceState, ops: seq<Op>, i: nat): seq<Write>
    decreases |ops|
  {
    if |ops| == 0 then [] else OwnWrites(s, ops[0], i) + OwnWritesOfRun(Step(s, ops[0]), ops[1..], i)
  }

  predicate NeverFreed(s: DeviceState, ops: seq<Op>, i: nat)
    decreases |ops|
  {
    |ops| > 0 ==> !Frees(s, ops[0], i) && NeverFreed(Step(s, ops[0]), ops[1..], i)
  }

  /** Live, and still at the same place. */
  predicate SameRegion(s: DeviceState, t: DeviceState, i: nat)
    requires i < TABLE_SIZE
  {
    && t.allocations[i].live && |t.pool| == |s.pool|
    && t.allocations[i].offset == s.allocations[i].offset
    && t.allocations[i].size == s.allocations[i].size
  }

  // ---------------------------------------------------------------------------
  // One write
  // ---------------------------------------------------------------------------

  lemma SpliceInside(pool: seq<byte>, start: nat, size: nat, offset: nat, data: seq<byte>)
    requires start + size <= |pool| && offset + |data| <= size
    ensures Slice(Splice(pool, start + offset, data), start, size)
         == Splice(Slice(pool, start, size), offset, data)
  {
  }

  lemma SpliceOutside(pool: seq<byte>, start: nat, size: nat, at: nat, data: seq<byte>)
    requires start + size <= |pool| && at + |data| <= |pool|
    requires at + |data| <= start || start + size <= at
    ensures Slice(Splice(pool, at, data), start, size) == Slice(pool, start, size)
  {
    var after := Splice(pool, at, data);
    assert forall k | start <= k < start + size :: after[k] == pool[k];
  }

  /** A store into one allocation shows up there at its offset, and nowhere else. */
  lemma StoreIsolated(s: DeviceState, i: nat, offset: u32, data: seq<byte>, j: nat)
    requires Inv(s) && i < TABLE_SIZE && j < TABLE_SIZE
    requires s.allocations[i].live && s.allocations[j].live
    requires offset + |data| <= s.allocations[i].size
    ensures SameRegion(s, Store(s, i, offset, data), j)
    ensures Contents(Store(s, i, offset, data), j) ==
      if i == j then Splice(Contents(s, j), offset, data) else Contents(s, j)
  {
    var a, b := s.allocations[i], s.allocations[j];
    LiveIsSound(s, i);
    LiveIsSound(s, j);
    if i == j {
      SpliceInside(s.pool, a.offset, a.size, offset, data);
    } else {
      assert Disjoint(s.allocations[i], s.allocations[j]);
      SpliceOutside(s.pool, b.offset, b.size, a.offset + offset, data);
    }
  }

  lemma ApplyOne(contents: seq<byte>, w: Write)
    ensures ApplyWrites(contents, [w]) == Splice(contents, w.offset, w.data)
  {
    assert [w][..0] == [];
    assert ApplyWrites(contents, []) == contents;
  }

  lemma {:induction false} ApplyConcat(contents: seq<byte>, a: seq<Write>, b: seq<Write>)
    ensures ApplyWrites(contents, a + b) == ApplyWrites(ApplyWrites(contents, a), b)
  {
    if |b| == 0 {
      assert a + b == a;
    } else {
      assert (a + b)[..|a + b| - 1] == a + b[..|b| - 1];
      ApplyConcat(contents, a, b[..|b| - 1]);
    }
  }

  // ---------------------------------------------------------------------------
  // One operation
  // ---------------------------------------------------------------------------

  lemma ItemIsolated(s: DeviceState, item: Item, batch: u32, share: u32, i: nat)
    requires Inv(s) && item.Consistent() && i < TABLE_SIZE && s.allocations[i].live
    ensures SameRegion(s, RunItem(s, item, batch, share).0, i)
    ensures Contents(RunItem(s, item, batch, share).0, i) == ApplyWrites(Contents(s, i), ItemWrite(s, item, i))
  {
    hide Inv, Verdict, BlockJob, BlankCompletion, FreeJob, Store, Contents;
    var s', t := Deliver(s, item), RunItem(s, item, batch, share).0;
    if InputAccepted(s, item.desc) && item.input.Some? {
      var k := AllocationIndex(s.allocations, item.desc.inputHandle).value;
      StoreIsolated(s, k, item.desc.inputOffset, item.input.value, i);
      ApplyOne(Contents(s, i), Write(item.desc.inputOffset, item.input.value));
    }
    assert t.pool == s'.pool && t.allocations == s'.allocations;
    SameContents(s', t, i);
  }

  lemma SameContents(s: DeviceState, t: DeviceState, i: nat)
    requires i < TABLE_SIZE && s.pool == t.pool && s.allocations == t.allocations
    ensures Contents(s, i) == Contents(t, i)
  {
  }

  /** Neither acceptance of a region nor the geometry behind it changes while a batch runs. */
  lemma RunItemKeepsGeometry(s: DeviceState, item: Item, batch: u32, share: u32, d: Descriptor)
    ensures InputAccepted(RunItem(s, item, batch, share).0, d) <==> InputAccepted(s, d)
  {
    hide Verdict, BlockJob, BlankCompletion, FreeJob, Splice;
  }

  lemma {:induction false} RunItemsKeepGeometry(s: DeviceState, items: seq<Item>, batch: u32, share: u32, d: Descriptor)
    ensures InputAccepted(RunItems(s, items, batch, share).0, d) <==> InputAccepted(s, d)
  {
    hide RunItem, InputAccepted;
    if |items| > 0 {
      RunItemsKeepGeometry(s, items[..|items| - 1], batch, share, d);
      RunItemKeepsGeometry(RunItems(s, items[..|items| - 1], batch, share).0, items[|items| - 1], batch, share, d);
    }
  }

  lemma {:induction false} ItemsIsolated(s: DeviceState, items: seq<Item>, batch: u32, share: u32, i: nat)
    requires Inv(s) && i < TABLE_SIZE && s.allocations[i].live
    requires forall k | 0 <= k < |items| :: items[k].Consistent()
    ensures SameRegion(s, RunItems(s, items, batch, share).0, i)
    ensures Contents(RunItems(s, items, batch, share).0, i)
         == ApplyWrites(Contents(s, i), ItemWrites(s, items, i))
  {
    hide Inv, RunItem, InputAccepted, Contents;
    if |items| > 0 {
      var front, last := items[..|items| - 1], items[|items| - 1];
      var s' := RunItems(s, front, batch, share).0;
      ItemsIsolated(s, front, batch, share, i);
      RunItemsKeepInv(s, front, batch, share);
      RunItemsKeepGeometry(s, front, batch, share, last.desc);
      ItemIsolated(s', last, batch, share, i);
      ApplyConcat(Contents(s, i), ItemWrites(s, front, i), ItemWrite(s, last, i));
    }
  }

  lemma AllocateIsolated(s: DeviceState, request: u32, i: nat)
    requires i < TABLE_SIZE && s.allocations[i].live
    ensures Allocate(s, request).0.pool == s.pool
    ensures Allocate(s, request).0.allocations[i] == s.allocations[i]
  {
    hide LowestFit;
  }

  lemma UploadIsolated(s: DeviceState, i: nat)
    requires Inv(s) && i < TABLE_SIZE && s.allocations[i].live
    ensures SameRegion(s, ExecUpload(s), i)
    ensures Contents(ExecUpload(s), i) == ApplyWrites(Contents(s, i), OwnWrites(s, OpExec(UPLOAD, 0), i))
  {
    hide Inv, Store, Uploaded, Checksum.Fnv1a;
    if UploadAccepted(s) {
      var k := AllocationIndex(s.allocations, s.stage[ARG0]).value;
      var data := s.payload[..s.stage[PAYLOAD_LEN]];
      StoreIsolated(s, k, s.stage[ARG1], data, i);
      ApplyOne(Contents(s, i), Write(s.stage[ARG1], data));
    }
  }

  lemma ExecIsolated(s: DeviceState, command: byte, sequence: u32, i: nat)
    requires Inv(s) && i < TABLE_SIZE && s.allocations[i].live
    requires !Frees(s, OpExec(command, sequence), i)
    ensures SameRegion(s, Exec(s, command), i)
    ensures Contents(Exec(s, command), i)
         == ApplyWrites(Contents(s, i), OwnWrites(s, OpExec(command, sequence), i))
  {
    var c := Answer(s, 0, 0, 0, 0);
    RegistersKeepInv(s, c);
    hide Inv, Allocate, ExecUpload, Checksum.Fnv1a, LowestFit, FreeAllocation, JobIndex, FreeJob, SubmittedJob, Polled;
    if command == UPLOAD {
      UploadIsolated(c, i);
      assert UploadAccepted(c) == UploadAccepted(s);
      assert OwnWrites(c, OpExec(UPLOAD, 0), i) == OwnWrites(s, OpExec(command, sequence), i);
    } else if command == ALLOC {
      AllocateIsolated(c, c.stage[ARG0], i);
    }
  }

  lemma StepIsolated(s: DeviceState, op: Op, i: nat)
    requires Inv(s) && i < TABLE_SIZE && s.allocations[i].live && !Frees(s, op, i)
    ensures SameRegion(s, Step(s, op), i)
    ensures Contents(Step(s, op), i) == ApplyWrites(Contents(s, i), OwnWrites(s, op, i))
  {
    hide Inv, Exec, RunItems, ParseBlock;
    match op
    case OpExec(command, sequence) => ExecIsolated(s, command, sequence, i);
    case OpWriteBlock(_, _, _) =>
      var items := AcceptedItems(op);
      if items != [] {
        ItemsIsolated(s, items, |items|, TransportShareNs(s.config.timing, |items|), i);
      }
    case _ =>
  }

  /** Over any run that does not free it, an allocation holds what its own writes, in order, made of
      its contents; no other operation and no other handle has a say. */
  lemma {:induction false} RunIsolated(s: DeviceState, ops: seq<Op>, i: nat)
    requires Inv(s) && i < TABLE_SIZE && s.allocations[i].live && NeverFreed(s, ops, i)
    ensures SameRegion(s, Run(s, ops), i)
    ensures Contents(Run(s, ops), i) == ApplyWrites(Contents(s, i), OwnWritesOfRun(s, ops, i))
    decreases |ops|
  {
    hide Inv, Step, OwnWrites, Frees, Contents;
    if |ops| > 0 {
      var s', rest := Step(s, ops[0]), ops[1..];
      StepIsolated(s, ops[0], i);
      StepKeepsInv(s, ops[0]);
      RunIsolated(s', rest, i);
      ApplyConcat(Contents(s, i), OwnWrites(s, ops[0], i), OwnWritesOfRun(s', rest, i));
    }
  }

  /** Only UPLOAD and F4 touch the pool. */
  lemma PoolWriters(s: DeviceState, op: Op)
    requires !op.OpWriteBlock? && !(op.OpExec? && op.command == UPLOAD)
    ensures Step(s, op).pool == s.pool
  {
    hide LowestFit, FreeAllocation, JobIndex, FreeJob, SubmittedJob, Polled, AllocationIndex;
  }
}
