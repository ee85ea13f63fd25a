/** However the bytes of a buffer travel, F0-F3 pieces or one F4, their checksum is the same. */
module UploadPaths {
  import opened Words
  import opened Checksum
  import opened Protocol
  import opened DeviceModel
  import opened DeviceInvariant
  import opened CompletionStream
  import opened FrozenJobs
  import opened Isolation
  import Timing

  // ---------------------------------------------------------------------------
  // The client's side: one piece is staged by F3 words and committed by UPLOAD
  // ---------------------------------------------------------------------------

  /** One payload's worth of bytes for an offset. */
  datatype AnyPiece = Piece(offset: u32, data: seq<byte>)
  type Piece = p: AnyPiece | |p.data| <= PAYLOAD_BYTES witness Piece(0, [])

  function WordCount(data: seq<byte>): nat { (|data| + 3) / 4 }

  function StageOps(data: seq<byte>, words: nat): seq<Op>
    requires words <= 256
  {
    if words == 0 then []
    else StageOps(data, words - 1) + [OpWritePayloadWord(words - 1, PackedWord(data, 4 * (words - 1)))]
  }

  function CommitOps(handle: u32, offset: u32, length: u32): seq<Op> {
    [OpWriteReg(ARG0, handle), OpWriteReg(ARG1, offset), OpWriteReg(PAYLOAD_LEN, length), OpExec(UPLOAD, 0)]
  }

  function PieceOps(handle: u32, piece: Piece): seq<Op> {
    StageOps(piece.data, WordCount(piece.data)) + CommitOps(handle, piece.offset, |piece.data|)
  }

  function AllPieceOps(handle: u32, pieces: seq<Piece>): seq<Op> {
    if |pieces| == 0 then []
    else AllPieceOps(handle, pieces[..|pieces| - 1]) + PieceOps(handle, pieces[|pieces| - 1])
  }

  // ---------------------------------------------------------------------------
  // Staging
  // ---------------------------------------------------------------------------

  lemma RunOne(s: DeviceState, op: Op)
    ensures Run(s, [op]) == Step(s, op)
  {
    hide Step;
    assert [op][1..] == [];
    assert Run(Step(s, op), []) == Step(s, op);
  }

  lemma StageWord(payload: Payload, data: seq<byte>, i: nat)
    requires i < 256
    ensures
      var p := Splice(payload, 4 * i, BytesOf([PackedWord(data, 4 * i)]));
      && |p| == PAYLOAD_BYTES
      && (forall k | 0 <= k < 4 * i :: p[k] == payload[k])
      && (forall k | 4 * i <= k < 4 * i + 4 && k < |data| :: p[k] == data[k])
  {
    var image := BytesOf([PackedWord(data, 4 * i)]);
    BytesWord(ByteOrZero(data, 4 * i), ByteOrZero(data, 4 * i + 1),
              ByteOrZero(data, 4 * i + 2), ByteOrZero(data, 4 * i + 3));
    assert image[0] == ByteOrZero(data, 4 * i) && image[1] == ByteOrZero(data, 4 * i + 1);
    assert image[2] == ByteOrZero(data, 4 * i + 2) && image[3] == ByteOrZero(data, 4 * i + 3);
    var p := Splice(payload, 4 * i, image);
    assert p[4 * i] == image[0] && p[4 * i + 1] == image[1];
    assert p[4 * i + 2] == image[2] && p[4 * i + 3] == image[3];
  }

  lemma {:induction false} StagingFillsPayload(s: DeviceState, data: seq<byte>, words: nat)
    requires words <= 256
    ensures
      var t := Run(s, StageOps(data, words));
      && t == s.(payload := t.payload)
      && forall k | 0 <= k < 4 * words && k < |data| :: t.payload[k] == data[k]
  {
    hide PackedWord;
    if words > 0 {
      StagingFillsPayload(s, data, words - 1);
      var t := Run(s, StageOps(data, words - 1));
      var op := OpWritePayloadWord(words - 1, PackedWord(data, 4 * (words - 1)));
      RunConcat(s, StageOps(data, words - 1), [op]);
      RunOne(t, op);
      StageWord(t.payload, data, words - 1);
      var p := Splice(t.payload, 4 * (words - 1), BytesOf([PackedWord(data, 4 * (words - 1))]));
      assert Run(s, StageOps(data, words)).payload == p;
      forall k | 0 <= k < 4 * words && k < |data|
        ensures p[k] == data[k]
      {
        if k < 4 * (words - 1) {
          assert p[k] == t.payload[k];
        }
      }
    }
  }

  /** After staging a piece the four commit operations amount to one UPLOAD of it. */
  lemma CommitRuns(s: DeviceState, handle: u32, offset: u32, length: u32)
    ensures
      Run(s, CommitOps(handle, offset, length))
      == Exec(s.(stage := s.stage[ARG0 := handle][ARG1 := offset][PAYLOAD_LEN := length]), UPLOAD)
  {
    hide Exec;
    var ops := CommitOps(handle, offset, length);
    var s1 := WriteReg(s, ARG0, handle);
    var s2 := WriteReg(s1, ARG1, offset);
    var s3 := WriteReg(s2, PAYLOAD_LEN, length);
    assert Run(s, ops) == Run(s1, ops[1..]);
    assert Run(s1, ops[1..]) == Run(s2, ops[1..][1..]);
    assert Run(s2, ops[1..][1..]) == Run(s3, ops[1..][1..][1..]);
    assert ops[1..][1..][1..] == [OpExec(UPLOAD, 0)];
    RunOne(s3, OpExec(UPLOAD, 0));
  }

  /** An accepted upload is a store followed by an answer. */
  lemma UploadIsStore(s: DeviceState, i: nat)
    requires i < TABLE_SIZE && s.allocations[i].live && s.stage[ARG0] == i + 1
    requires s.stage[ARG1] + s.stage[PAYLOAD_LEN] <= s.allocations[i].size
    requires s.stage[PAYLOAD_LEN] <= PAYLOAD_BYTES
    ensures
      var c := Answer(s, 0, 0, 0, 0);
      var u := Store(c, i, s.stage[ARG1], s.payload[..s.stage[PAYLOAD_LEN]]);
      Exec(s, UPLOAD) == Answer(u, s.stage[PAYLOAD_LEN], Fnv1a(Uploaded(u, i)), 0, 0)
  {
    hide Store, Fnv1a, Uploaded;
  }

  /** What one UPLOAD does to an allocation it is accepted for. */
  lemma UploadEffect(s: DeviceState, i: nat)
    requires Inv(s) && i < TABLE_SIZE && s.allocations[i].live && s.stage[ARG0] == i + 1
    requires s.stage[ARG1] + s.stage[PAYLOAD_LEN] <= s.allocations[i].size
    requires s.stage[PAYLOAD_LEN] <= PAYLOAD_BYTES
    ensures
      var t, a := Exec(s, UPLOAD), s.allocations[i];
      var data := s.payload[..s.stage[PAYLOAD_LEN]];
      && SameRegion(s, t, i)
      && t.allocations[i].uploaded == Max(a.uploaded, s.stage[ARG1] + |data|)
      && Contents(t, i) == Splice(Contents(s, i), s.stage[ARG1], data)
      && t.stage[RESULT] == OK && t.stage[OUT0] == |data|
      && t.stage[OUT1] == Fnv1a(Uploaded(t, i))
  {
    var c := Answer(s, 0, 0, 0, 0);
    var data := s.payload[..s.stage[PAYLOAD_LEN]];
    var u := Store(c, i, s.stage[ARG1], data);
    assert u.allocations[i].uploaded == Max(s.allocations[i].uploaded, s.stage[ARG1] + |data|) by {
      LiveIsSound(s, i);
    }
    hide Inv, Contents, Fnv1a, Uploaded, Store, Exec, Splice;
    RegistersKeepInv(s, c);
    StoreIsolated(c, i, s.stage[ARG1], data, i);
    SameContents(s, c, i);
    UploadIsStore(s, i);
    var t := Exec(s, UPLOAD);
    SameContents(u, t, i);
    SameUploaded(u, t, i);
  }

  lemma SameUploaded(s: DeviceState, t: DeviceState, i: nat)
    requires i < TABLE_SIZE && s.pool == t.pool && s.allocations == t.allocations
    ensures Uploaded(s, i) == Uploaded(t, i)
  {
  }

  // ---------------------------------------------------------------------------
  // Pieces
  // ---------------------------------------------------------------------------

  /** The piece is a part of the image. */
  predicate PartOf(piece: Piece, image: seq<byte>) {
    && piece.offset + |piece.data| <= |image|
    && image[piece.offset..piece.offset + |piece.data|] == piece.data
  }

  predicate Covers(piece: Piece, k: nat) {
    piece.offset <= k < piece.offset + |piece.data|
  }

  ghost predicate Covered(pieces: seq<Piece>, k: nat) {
    exists p :: p in pieces && Covers(p, k)
  }

  /** The allocation agrees with the image wherever a piece has gone, and its high-water mark has
      reached the end of every piece but not passed the image. */
  ghost predicate Filled(s: DeviceState, i: nat, pieces: seq<Piece>, image: seq<byte>)
    requires i < TABLE_SIZE
  {
    var a := s.allocations[i];
    && Inv(s) && a.live
    && |image| <= a.size && a.uploaded <= |image|
    && (forall p | p in pieces :: p.offset + |p.data| <= a.uploaded)
    && Agrees(Contents(s, i), pieces, image)
  }

  ghost predicate Agrees(contents: seq<byte>, pieces: seq<Piece>, image: seq<byte>) {
    && |image| <= |contents|
    && forall k: nat, p | k < |image| && p in pieces && Covers(p, k) :: contents[k] == image[k]
  }

  lemma SpliceAgrees(contents: seq<byte>, done: seq<Piece>, piece: Piece, image: seq<byte>)
    requires Agrees(contents, done, image) && PartOf(piece, image)
    ensures Agrees(Splice(contents, piece.offset, piece.data), done + [piece], image)
  {
    var after := Splice(contents, piece.offset, piece.data);
    hide Splice;
    forall k: nat, p | k < |image| && p in done + [piece] && Covers(p, k)
      ensures after[k] == image[k]
    {
      SpliceAt(contents, piece.offset, piece.data, k);
      if Covers(piece, k) {
        assert image[piece.offset..piece.offset + |piece.data|][k - piece.offset] == image[k];
      } else {
        assert p in done;
      }
    }
  }

  /** The state in which UPLOAD is executed: the piece staged, the registers written. */
  function Committing(s: DeviceState, i: nat, piece: Piece): DeviceState
    requires i < TABLE_SIZE
  {
    var staged := Run(s, StageOps(piece.data, WordCount(piece.data)));
    staged.(stage := staged.stage[ARG0 := i + 1][ARG1 := piece.offset][PAYLOAD_LEN := |piece.data|])
  }

  lemma PieceIsUpload(s: DeviceState, i: nat, piece: Piece)
    requires i < TABLE_SIZE
    ensures
      var ready := Committing(s, i, piece);
      && Run(s, PieceOps(i + 1, piece)) == Exec(ready, UPLOAD)
      && ready == s.(stage := ready.stage, payload := ready.payload)
      && ready.payload[..|piece.data|] == piece.data
  {
    hide Run, Exec;
    var words := WordCount(piece.data);
    RunConcat(s, StageOps(piece.data, words), CommitOps(i + 1, piece.offset, |piece.data|));
    StagingFillsPayload(s, piece.data, words);
    CommitRuns(Run(s, StageOps(piece.data, words)), i + 1, piece.offset, |piece.data|);
  }

  lemma PieceEffect(s: DeviceState, i: nat, piece: Piece)
    requires Inv(s) && i < TABLE_SIZE && s.allocations[i].live
    requires piece.offset + |piece.data| <= s.allocations[i].size
    ensures
      var t, a := Run(s, PieceOps(i + 1, piece)), s.allocations[i];
      && Inv(t) && SameRegion(s, t, i)
      && t.allocations[i].uploaded == Max(a.uploaded, piece.offset + |piece.data|)
      && Contents(t, i) == Splice(Contents(s, i), piece.offset, piece.data)
      && t.stage[RESULT] == OK && t.stage[OUT0] == |piece.data|
      && t.stage[OUT1] == Fnv1a(Uploaded(t, i))
  {
    hide Inv, Run, Exec, Contents, Uploaded, Fnv1a, Splice;
    var ready := Committing(s, i, piece);
    RunKeepsInv(s, PieceOps(i + 1, piece));
    PieceIsUpload(s, i, piece);
    StagedKeepsInv(s, ready);
    UploadEffect(ready, i);
    SameContents(s, ready, i);
  }

  lemma PieceFills(s: DeviceState, i: nat, done: seq<Piece>, piece: Piece, image: seq<byte>)
    requires i < TABLE_SIZE && Filled(s, i, done, image) && PartOf(piece, image)
    ensures
      var t := Run(s, PieceOps(i + 1, piece));
      && Filled(t, i, done + [piece], image)
      && t.stage[OUT1] == Fnv1a(Uploaded(t, i))
  {
    hide Inv, Run, Contents, Uploaded, Fnv1a, Splice, PieceOps, Agrees;
    PieceEffect(s, i, piece);
    SpliceAgrees(Contents(s, i), done, piece, image);
  }

  lemma ContentsSize(s: DeviceState, i: nat)
    requires Inv(s) && i < TABLE_SIZE && s.allocations[i].live
    ensures |Contents(s, i)| == s.allocations[i].size
  {
    LiveIsSound(s, i);
  }

  lemma StagedKeepsInv(s: DeviceState, t: DeviceState)
    requires Inv(s) && t == s.(stage := t.stage, payload := t.payload)
    ensures Inv(t)
  {
  }

  lemma {:induction false} PiecesFill(s: DeviceState, i: nat, pieces: seq<Piece>, image: seq<byte>)
    requires i < TABLE_SIZE && Filled(s, i, [], image)
    requires forall k | 0 <= k < |pieces| :: PartOf(pieces[k], image)
    ensures
      var t := Run(s, AllPieceOps(i + 1, pieces));
      && Filled(t, i, pieces, image)
      && (pieces != [] ==> t.stage[OUT1] == Fnv1a(Uploaded(t, i)))
  {
    hide Filled, Run, PieceOps, Uploaded, Fnv1a;
    if |pieces| == 0 {
      assert Run(s, []) == s by { RunNothing(s); }
      assert pieces == [];
    } else {
      var front, last := pieces[..|pieces| - 1], pieces[|pieces| - 1];
      PiecesFill(s, i, front, image);
      RunConcat(s, AllPieceOps(i + 1, front), PieceOps(i + 1, last));
      PieceFills(Run(s, AllPieceOps(i + 1, front)), i, front, last, image);
      assert front + [last] == pieces;
    }
  }

  lemma RunNothing(s: DeviceState)
    ensures Run(s, []) == s
  {
  }

  /** When the pieces leave no gap, what the allocation has been given is the image. */
  lemma FilledIsImage(s: DeviceState, i: nat, pieces: seq<Piece>, image: seq<byte>)
    requires i < TABLE_SIZE && Filled(s, i, pieces, image)
    requires forall k: nat | k < |image| :: Covered(pieces, k)
    ensures Uploaded(s, i) == image
  {
    LiveIsSound(s, i);
    var a := s.allocations[i];
    if |image| > 0 {
      assert Covered(pieces, |image| - 1);
      var p :| p in pieces && Covers(p, |image| - 1);
      assert p.offset + |p.data| <= a.uploaded;
    }
    forall k: nat | k < |image|
      ensures Contents(s, i)[k] == image[k]
    {
      assert Covered(pieces, k);
    }
    assert Uploaded(s, i) == Contents(s, i)[..|image|];
  }

  /** Any gap-free set of pieces of an image, uploaded to a fresh allocation in any order, in pieces
      that may overlap, leaves exactly the image there; the last UPLOAD reports its FNV-1a. */
  lemma UploadedPiecesMakeImage(s: DeviceState, i: nat, pieces: seq<Piece>, image: seq<byte>)
    requires Inv(s) && i < TABLE_SIZE && s.allocations[i].live
    requires s.allocations[i].uploaded == 0 && |image| <= s.allocations[i].size
    requires forall k | 0 <= k < |pieces| :: PartOf(pieces[k], image)
    requires forall k: nat | k < |image| :: Covered(pieces, k)
    ensures
      var t := Run(s, AllPieceOps(i + 1, pieces));
      && Inv(t) && t.allocations[i].live
      && Uploaded(t, i) == image
      && (pieces != [] ==> t.stage[OUT1] == Fnv1a(image))
  {
    LiveIsSound(s, i);
    ContentsSize(s, i);
    PiecesFill(s, i, pieces, image);
    FilledIsImage(Run(s, AllPieceOps(i + 1, pieces)), i, pieces, image);
  }

  // ---------------------------------------------------------------------------
  // SUBMIT and F4 hash the same bytes
  // ---------------------------------------------------------------------------

  /** The job SUBMIT creates carries the checksum of everything the allocation has been given. */
  lemma SubmitHashesUpload(s: DeviceState, i: nat)
    requires Inv(s) && i < TABLE_SIZE && s.allocations[i].live
    requires s.stage[ARG0] == i + 1 && s.nextJob <= TABLE_SIZE
    ensures
      var t := Exec(s, SUBMIT);
      t.stage[RESULT] == OK && t.jobs[s.nextJob - 1].checksum == Fnv1a(Uploaded(s, i))
  {
    FreeJobIsNext(s.jobs, s.nextJob);
    hide Inv, Fnv1a, FreeJob;
    var c := Answer(s, 0, 0, 0, 0);
    assert Uploaded(c, i) == Uploaded(s, i);
  }

  /** The completion of an inline descriptor carries the checksum of its inline bytes. */
  lemma InlineHashesInput(s: DeviceState, item: Item, batch: u32, share: u32)
    requires Inv(s) && item.Consistent() && item.input.Some?
    requires RunItem(s, item, batch, share).1.status == OK
    ensures RunItem(s, item, batch, share).1.checksum == Fnv1a(item.input.value)
  {
    hide FreeJob, Fnv1a, Timing.BlockModelUs;
    var d := item.desc;
    var i := AllocationIndex(s.allocations, d.inputHandle).value;
    LiveIsSound(s, i);
    var start := s.allocations[i].offset + d.inputOffset;
    assert Deliver(s, item) == Store(s, i, d.inputOffset, item.input.value);
    assert Slice(Splice(s.pool, start, item.input.value), start, d.inputLength) == item.input.value;
  }

  /** A record an F4 produces for an inline descriptor carries the checksum of its inline bytes,
      whatever stands beside it in the block. */
  lemma {:induction false} BatchHashesInputs(s: DeviceState, items: seq<Item>, batch: u32, share: u32, k: nat)
    requires Inv(s) && forall j | 0 <= j < |items| :: items[j].Consistent()
    requires k < |items| && items[k].input.Some? && RunItems(s, items, batch, share).1[k].status == OK
    ensures RunItems(s, items, batch, share).1[k].checksum == Fnv1a(items[k].input.value)
  {
    hide Inv, RunItem, Fnv1a;
    var n := |items| - 1;
    RunItemsKeepInv(s, items[..n], batch, share);
    if k == n {
      InlineHashesInput(RunItems(s, items[..n], batch, share).0, items[n], batch, share);
    } else {
      BatchHashesInputs(s, items[..n], batch, share, k);
    }
  }

  lemma BlockHashesInput(s: DeviceState, op: Op, k: nat)
    requires Inv(s) && k < |AcceptedItems(op)| && AcceptedItems(op)[k].input.Some?
    requires Produced(s, op)[k].status == OK
    ensures Produced(s, op)[k].checksum == Fnv1a(AcceptedItems(op)[k].input.value)
  {
    hide Inv, RunItems, Fnv1a, ParseBlock;
    var items := AcceptedItems(op);
    BatchHashesInputs(s, items, |items|, Timing.TransportShareNs(s.config.timing, |items|), k);
  }

  // ---------------------------------------------------------------------------
  // Both paths, on the wire
  // ---------------------------------------------------------------------------

  function SubmitOps(handle: u32): seq<Op> { [OpWriteReg(ARG0, handle), OpExec(SUBMIT, 0)] }

  /** Two polls make a submitted job ready. */
  function CollectOps(job: u32): (ops: seq<Op>)
    ensures |ops| == 4
  {
    [OpWriteReg(ARG0, job), OpExec(POLL, 0), OpExec(POLL, 0), OpExec(COLLECT, 0)]
  }

  lemma {:induction false} PiecesKeepJobs(s: DeviceState, i: nat, pieces: seq<Piece>)
    requires i < TABLE_SIZE
    ensures Run(s, AllPieceOps(i + 1, pieces)).nextJob == s.nextJob
  {
    hide PieceOps, Run;
    if |pieces| == 0 {
      RunNothing(s);
    } else {
      var front, last := pieces[..|pieces| - 1], pieces[|pieces| - 1];
      PiecesKeepJobs(s, i, front);
      RunConcat(s, AllPieceOps(i + 1, front), PieceOps(i + 1, last));
      PieceIsUpload(Run(s, AllPieceOps(i + 1, front)), i, last);
      UploadKeepsJobs(Committing(Run(s, AllPieceOps(i + 1, front)), i, last));
    }
  }

  lemma UploadKeepsJobs(s: DeviceState)
    ensures Exec(s, UPLOAD).nextJob == s.nextJob
  {
    hide AllocationIndex, Fnv1a, Splice, Slice;
  }

  lemma SubmitRuns(s: DeviceState, handle: u32)
    ensures Run(s, SubmitOps(handle)) == Exec(WriteReg(s, ARG0, handle), SUBMIT)
  {
    hide Exec;
    var u := WriteReg(s, ARG0, handle);
    assert SubmitOps(handle)[1..] == [OpExec(SUBMIT, 0)];
    RunOne(u, OpExec(SUBMIT, 0));
  }

  /** Collecting polls the job named exactly twice, and then COLLECTs it. */
  lemma CollectRuns(s: DeviceState, job: u32)
    ensures
      var polls := CollectOps(job)[..3];
      && Run(s, CollectOps(job)) == Exec(Run(s, polls), COLLECT)
      && Run(s, polls).stage[ARG0] == job && PollCount(s, polls, job) == 2
  {
    hide ExecPoll, ExecCollect;
    var polls := CollectOps(job)[..3];
    var u := WriteReg(s, ARG0, job);
    var v := Exec(u, POLL);
    PollKeepsArgument(u);
    PollKeepsArgument(v);
    hide Exec;
    assert CollectOps(job) == polls + [OpExec(COLLECT, 0)];
    RunConcat(s, polls, [OpExec(COLLECT, 0)]);
    RunOne(Run(s, polls), OpExec(COLLECT, 0));
    assert polls[1..] == [OpExec(POLL, 0), OpExec(POLL, 0)];
    assert polls[1..][1..] == [OpExec(POLL, 0)] && [OpExec(POLL, 0)][1..] == [];
    RunOne(v, OpExec(POLL, 0));
    assert Run(u, polls[1..]) == Run(v, [OpExec(POLL, 0)]);
    assert PollCount(Exec(v, POLL), [], job) == 0;
    assert PollCount(v, [OpExec(POLL, 0)], job) == 1;
    assert PollCount(u, polls[1..], job) == 2;
  }

  lemma PollKeepsArgument(s: DeviceState)
    ensures Exec(s, POLL).stage[ARG0] == s.stage[ARG0]
  {
    hide JobIndex, Polled;
  }

  /** Pieces, SUBMIT, two POLLs and COLLECT: the third output is the FNV-1a of the image. */
  lemma PiecesCollected(s: DeviceState, i: nat, pieces: seq<Piece>, image: seq<byte>)
    requires Inv(s) && i < TABLE_SIZE && s.allocations[i].live && s.allocations[i].uploaded == 0
    requires s.nextJob <= TABLE_SIZE && |image| <= s.allocations[i].size
    requires forall k | 0 <= k < |pieces| :: PartOf(pieces[k], image)
    requires forall k: nat | k < |image| :: Covered(pieces, k)
    ensures
      var submitted := Run(Run(s, AllPieceOps(i + 1, pieces)), SubmitOps(i + 1));
      var collected := Run(submitted, CollectOps(submitted.stage[OUT0]));
      && submitted.stage[RESULT] == OK && submitted.stage[OUT0] == s.nextJob
      && collected.stage[RESULT] == OK && collected.stage[OUT2] == Fnv1a(image)
  {
    hide Fnv1a, Run, Exec, AllPieceOps, Inv, Uploaded, PollCount, CollectOps, SubmitOps;
    var t := Run(s, AllPieceOps(i + 1, pieces));
    UploadedPiecesMakeImage(s, i, pieces, image);
    PiecesKeepJobs(s, i, pieces);
    SubmitCollected(t, i);
  }

  lemma SubmitCollected(t: DeviceState, i: nat)
    requires Inv(t) && i < TABLE_SIZE && t.allocations[i].live && t.nextJob <= TABLE_SIZE
    ensures
      var submitted := Run(t, SubmitOps(i + 1));
      var collected := Run(submitted, CollectOps(submitted.stage[OUT0]));
      && submitted.stage[RESULT] == OK && submitted.stage[OUT0] == t.nextJob
      && collected.stage[RESULT] == OK && collected.stage[OUT2] == Fnv1a(Uploaded(t, i))
  {
    hide Fnv1a, Run, Exec, Inv, Uploaded, PollCount, CollectOps, SubmitOps;
    var u := WriteReg(t, ARG0, i + 1);
    RegistersKeepInv(t, u);
    InvNumbers(u);
    SubmitHashesUpload(u, i);
    SameUploaded(t, u, i);
    SubmitNeedsTwoPolls(u);
    SubmitRuns(t, i + 1);
    CollectRuns(Exec(u, SUBMIT), u.nextJob);
    SubmittedJobLifecycle(u, CollectOps(u.nextJob)[..3]);
  }

  /** An image that travels by pieces and SUBMIT reads back, at COLLECT, the checksum that the record
      of an F4 carries when the image travels inline. */
  lemma UploadPathsAgree(s: DeviceState, i: nat, pieces: seq<Piece>, s4: DeviceState, op: Op, k: nat)
    requires Inv(s) && i < TABLE_SIZE && s.allocations[i].live && s.allocations[i].uploaded == 0
    requires s.nextJob <= TABLE_SIZE
    requires Inv(s4) && k < |AcceptedItems(op)| && AcceptedItems(op)[k].input.Some?
    requires Produced(s4, op)[k].status == OK
    requires |AcceptedItems(op)[k].input.value| <= s.allocations[i].size
    requires forall j | 0 <= j < |pieces| :: PartOf(pieces[j], AcceptedItems(op)[k].input.value)
    requires forall j: nat | j < |AcceptedItems(op)[k].input.value| :: Covered(pieces, j)
    ensures
      var submitted := Run(Run(s, AllPieceOps(i + 1, pieces)), SubmitOps(i + 1));
      var collected := Run(submitted, CollectOps(submitted.stage[OUT0]));
      && collected.stage[RESULT] == OK
      && collected.stage[OUT2] == Produced(s4, op)[k].checksum
  {
    hide Fnv1a, Inv, Produced, Run, AllPieceOps, SubmitOps, CollectOps, AcceptedItems;
    BlockHashesInput(s4, op, k);
    PiecesCollected(s, i, pieces, AcceptedItems(op)[k].input.value);
  }
}
