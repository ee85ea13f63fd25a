# GekkoPAK: verified models of the device core and its transports

A Dafny model of the parts of the repository where state, arithmetic and protocol meet:

- the shared device core: first-fit allocator, job table, 16-entry completion ring, two-phase
  512-byte descriptor blocks, 32/64-bit integer timing;
- the two transports that drive it: the NTR register page, access by access, and the DSpico firmware
  handlers under the host shim, command by command;
- the console's USB side: the ping-pong endpoint driver, the unmasked-index ring buffer, and the data
  stage of control transfers.

`dafny verify dfyconfig.toml` checks everything.

## How it is built

What the source updates in place is a class here, with the same fields and the same loops. Each method
is proved against a function on values, and what the source promises is proved about those functions:
what every run keeps, and, in the literal bytes, registers and statuses of the protocol, what a client
is answered.

| area | files |
|---|---|
| bytes, words, checksum, wire formats | `Words`, `Checksum`, `Protocol` |
| timing | `Timing` |
| device | `DeviceModel` (reference on values), `DeviceInvariant`, `Device` (the class) |
| properties of device runs | `CompletionStream`, `BlockFormat`, `Isolation`, `FrozenJobs`, `UploadPaths` |
| register page | `NtrBus` (reference), `BusCommands` (what a trace means), `RegisterTransport` (the class) |
| DSpico firmware | `DspicoModel` (reference), `Dspico` (the class) |
| both transports | `Conformance` (on values), `Harness` (over the objects) |
| what a client is answered | `WireFormat` (byte offsets), `Client` (F0-F3, ALLOC, UPLOAD, FREE), `JobAnswers` (SUBMIT, POLL, COLLECT), `BlockAnswers`, `RecordAnswers`, `BlockOnWire` (F4, F5), `Lifecycle` (the golden bring-up) |
| numbers of the transports | `PageNumbers`, `FirmwareNumbers` |
| USB | `UsbEndpoint`, `Fifo`, `ControlTransfer` |

Main results, hardest first:

1. `Harness.FromReset`, from `Conformance.TransportsConform`: from power-up, every finite list of
   eight-byte commands with data phases, none reading the firmware's own counters, gets the same
   response bytes from both transports and leaves the same device, ill-formed commands and refused F4s
   included. The drivers also report the same success, except for foreign traffic that asks for a data
   phase.
2. `BusCommands.CallsAreCommands`, with `Harness.RunTrace` for the object: however a guest touches the
   register page, the device is asked exactly what the commands of the trace ask, one atomic call each,
   and a block write only when its 128 words have come (`NtrBus.WriteBlockIsAtomic`).
3. `BlockOnWire.BlockThereAndBack`, from `RecordAnswers.BlockRecord` and `BlockAnswers.BlockOutcome`: one
   F4 of any one to eight descriptors and one F5, on bytes: which descriptors run, the status of each from
   the tables before the F4 and the descriptors before it, and the exact meaning of every number that
   comes back. `BlockAnswers.BlockCases` and `BlockOutcome` cover every other block.
4. `JobAnswers.SubmittedAnswers`, `JobAnswers.PollTells`, `Client.AllocAnswers`, `Client.AllocAgain`: what
   the commands answer, on the tables; `Lifecycle.FullLifecycle`: every answer of the golden vector.
5. `DeviceInvariant.AllocateIsFirstFit`, `DeviceInvariant.RunKeepsInv`: the allocator is exactly first
   fit, and the device invariant holds in every reachable state.
6. `CompletionStream.StreamConserved`, `Isolation.RunIsolated`, `FrozenJobs.SubmittedJobLifecycle`,
   `FrozenJobs.BlockJobLifecycle`, `UploadPaths.UploadPathsAgree`: what is kept over whole runs.
7. `BlockFormat.BlockAcceptance`: exactly which regions parse to which descriptors.
8. `UsbEndpoint.Transmit` and `UsbEndpoint.Receive`, `Fifo.WriteRun`, `ControlTransfer.Respond` and
   `ControlTransfer.Take`: whole USB transfers.

## Where the code does not do what it may seem to

Each is modelled as the code has it, with the exact condition.

- The modelled time of SUBMIT and of block jobs is accurate exactly while the sum of the terms, plus the
  500 that rounds it, fits in 32 bits (`Timing.LegacyModelAccuracy`, `Timing.BlockModelAccuracy`).
  From a latency that itself fits, SUBMIT's is monotone exactly as far (`Timing.MonotoneWhileItFits`).
  At one operation a second five operations are reported as shorter than four
  (`Timing.FiveSecondsWrap`).
- The speedup and the block round trip are cut to 32 bits: they mean what they say exactly while the
  quotient, or the sum, fits (`Timing.SpeedupMeaning`, `Timing.RoundTripAccuracy`).
- Firmware F2 indices 0xF0-0xF3 answer diagnostic counters; the register page answers zero. The
  response bytes differ exactly when such a counter is not zero (`Conformance.SameResponse`), which one
  F4 after reset is enough for (`Conformance.CounterWindowDiffers`).
- A foreign F2, F4 or F5, one without the discriminator, gets no data phase from the register page: its
  driver moves no word and fails. The firmware drives zeros, or asks for nothing, and its driver
  succeeds. The bytes compared agree only because the page driver's buffer starts as zeros
  (`Conformance.TransactionConforms`, `Conformance.ForeignReadDiffers`).
- `advance_index` is addition modulo 2 * depth exactly when the sum is below 4 * depth, which every
  caller keeps (`Fifo.AdvanceIsModular`).
- A write into an overwritable queue past its second overflow keeps the newest items, whatever they are,
  exactly when it ends on that overflow (`Fifo.SecondOverflowExact`).
- `tu_fifo_get_read_info` and `tu_fifo_get_write_info` use a slot number as a byte offset: their linear
  pointers are right exactly for byte items or slot zero (`Fifo.ReadPointerExact`,
  `Fifo.WritePointerExact`).
- A control OUT request with no buffer and no room arms an empty transaction, and its completion is
  dropped without a status stage: the stage is closed exactly when there was a buffer
  (`ControlTransfer.ClosedWithBuffer`, `ControlTransfer.StuckWithoutBuffer`).
- The halves of the F5 value word follow the code; an earlier wire document had them the other way round.

## Model

| member | source | states |
|---|---|---|
| Words.WordsOfBytesOf | include/gekkopak/ntr_register_transport.h:70-78 | a word stored little-endian in a byte image and loaded again is the same word, for images of any length |
| Words.BytesOfWordsOf | include/gekkopak/ntr_register_transport.h:70-78 | bytes moved as 32-bit words come back as the same bytes, so FIFO transfers are byte-transparent |
| Checksum.ComputeFnv1a | include/gekkopak/protocol.h:241-248 | the loop computes the hash of exactly the given slice; what that hash is, `Fnv1aEmpty` and `Fnv1aStep` say |
| Protocol.CommandRoundTrip | include/gekkopak/protocol.h:59-78 | every opcode, index and word survives encoding and decoding and comes back marked valid |
| Protocol.CommandIsUnique | include/gekkopak/protocol.h:59-67 | a command decodes as valid if and only if its bytes are the encoding of what was decoded |
| Protocol.DescriptorRoundTrip | include/gekkopak/protocol.h:191-211 | every descriptor survives its 64-byte image, whose bytes `WireFormat.DescriptorLayout` gives |
| Protocol.DescriptorIsUnique | include/gekkopak/protocol.h:191-211 | every 64-byte image is the image of exactly the descriptor it decodes to |
| Protocol.CompletionRoundTrip | include/gekkopak/protocol.h:213-229 | every completion record survives its 64-byte image |
| Timing.IntermediateFits | src/device.cpp:157-171 | the scaled and rounded numerator of the two rate conversions never overflows 64 bits |
| Timing.RoundingError | src/device.cpp:157-171 | a rate conversion is within half a nanosecond of the exact rational time |
| Timing.LegacyModelClosedForm | src/device.cpp:173-177 | the wrapped sums equal one wrap of the exact sum |
| Timing.LegacyModelAccuracy | src/device.cpp:173-177 | the reported time is within 501.5 ns of the exact rational time if and only if the total plus 500 fits in 32 bits |
| Timing.LegacyModelMonotone | src/device.cpp:173-177 | the reported time does not fall when bytes sent, bytes received or operations grow, while the larger total fits |
| Timing.MonotoneWhileItFits | src/device.cpp:173-177 | from a model whose bare latency fits, the reported time is monotone on everything up to given arguments if and only if their total plus 500 fits in 32 bits |
| Timing.FiveSecondsWrap | src/device.cpp:165-177 | at one operation a second four operations are reported as 4,000,000 us and five as 705,033 us: neither accurate nor monotone |
| Timing.BlockModelAccuracy | src/device.cpp:467 | the modelled time of a block job is accurate under the same condition, on its work and its share of the round trip |
| Timing.SharesAddUp | src/device.cpp:406-408 | the equal shares of a batch of n sum to the round trip within n/2 ns |
| Timing.ShareNeverIncreases | src/device.cpp:404-408 | a larger batch never raises the share of a job |
| DeviceInvariant.LowestFitMeaning | src/device.cpp:88-114 | the reference scan returns the least offset that fits, or nothing when no offset does |
| DeviceInvariant.AllocateIsFirstFit | src/device.cpp:65-115 | an allocation succeeds if and only if there is a usable pool, a valid size, a free slot and some offset that fits; it then takes the lowest such offset and the lowest free slot, and otherwise changes nothing |
| DeviceInvariant.LowestFitIsAligned | src/device.cpp:88-114 | the lowest fit over sound allocations is 4-aligned although nothing in the search asks for it |
| DeviceInvariant.AllocateKeepsInv | src/device.cpp:65-115 | allocation keeps every live allocation disjoint, aligned, non-empty and inside the pool |
| DeviceInvariant.FreeJobIsNext | src/device.cpp:266-301 | the first free job slot is always the one the next handle names |
| DeviceInvariant.StepKeepsInv | src/device.cpp:189-523 | every operation F0-F5 keeps the whole device invariant |
| DeviceInvariant.InitialInv | src/device.cpp:25-47 | the state after a reset satisfies the invariant, for any configuration below 2^31 bytes |
| DeviceInvariant.RunKeepsInv | src/device.cpp:189-523 | so does every state reachable by any run |
| DeviceCore.RingPush | src/device.cpp:133-141 | storing at the write index of the 16-slot ring appends to the queue it represents |
| DeviceCore.RingPop | src/device.cpp:143-151 | advancing the read index drops exactly the oldest record |
| DeviceCore.Device.constructor | include/gekkopak/device.h:144-156 | a device whose tables have their fixed sizes and share no memory |
| DeviceCore.Device.Reset | src/device.cpp:25-47 | clears every table, register and counter and the pool; the state is the initial one |
| DeviceCore.Device.CountTransfer | include/gekkopak/device.h:97-98 | counts a transfer and changes nothing else |
| DeviceCore.Device.FreeAllocationSlot | src/device.cpp:77-86 | finds the lowest free slot |
| DeviceCore.Device.Obstruction | src/device.cpp:90-112 | says whether the candidate interval is free and, when it is not, that nothing below the jump target fits either, and that the target is strictly greater |
| DeviceCore.Device.FirstFitOffset | src/device.cpp:88-114 | the candidate loop terminates and finds the lowest fit, or that there is none |
| DeviceCore.Device.Allocate | src/device.cpp:65-115 | refines the reference allocation: same handle, same new state |
| DeviceCore.Device.FreeJobSlot | src/device.cpp:272-282 | finds the lowest free job slot |
| DeviceCore.Device.JobForHandle | src/device.cpp:117-127 | finds the first live job with the handle; handle zero names none |
| DeviceCore.Device.PushCompletion | src/device.cpp:133-141 | appends a record, or refuses it and changes nothing when 16 are waiting |
| DeviceCore.Device.PopCompletion | src/device.cpp:143-151 | hands out the oldest record and removes only that |
| DeviceCore.Device.WriteReg | src/device.cpp:189-193 | F0 stores a register below 16 and ignores the others |
| DeviceCore.Device.ReadReg | src/device.cpp:195-203 | the method computes the reference read, whose answers `Client.GetMeaning` and `Client.RegisterRoundTrip` give |
| DeviceCore.Device.WritePayloadWord | src/device.cpp:205-210 | F3 stores one little-endian word of the staging payload |
| DeviceCore.Device.ExecAlloc | src/device.cpp:239-249 | the method refines the reference ALLOC, whose answers and effect `Client.AllocAnswers` gives |
| DeviceCore.Device.ExecUpload | src/device.cpp:250-265 | UPLOAD copies the staged bytes, raises the high-water mark and hashes what is uploaded, in the order of its checks |
| DeviceCore.Device.ExecSubmit | src/device.cpp:266-302 | the method refines the reference SUBMIT, whose answers and job `JobAnswers.SubmitAnswers` gives |
| DeviceCore.Device.ExecPoll | src/device.cpp:303-321 | the method refines the reference POLL, whose answers `JobAnswers.PollOnce` and `JobAnswers.PollTells` give |
| DeviceCore.Device.ExecCollect | src/device.cpp:322-338 | COLLECT answers with the frozen result, or not-ready |
| DeviceCore.Device.ExecFree | src/device.cpp:339-349 | the method refines the reference FREE, whose answers and effect `Client.FreeAnswers` gives |
| DeviceCore.Device.Exec | src/device.cpp:216-359 | F1 clears the outputs, dispatches, and refines the reference step |
| DeviceCore.Device.AcceptInput | src/device.cpp:422-433 | stores the inline input if its range is accepted |
| DeviceCore.Device.Judge | src/device.cpp:422-461 | the method computes the reference verdict, whose meaning on the tables `RecordAnswers.ItemRecord` gives |
| DeviceCore.Device.RunDescriptor | src/device.cpp:410-484 | one descriptor: inline store, checks in order, job, and exactly one attempted completion |
| DeviceCore.Device.ParseDescriptors | src/device.cpp:371-397 | the parse loop, with every read inside the block, computes the reference parse |
| DeviceCore.Device.ProcessDescriptorBlock | src/device.cpp:365-487 | parses everything before running anything, then runs the batch; queue-full if any record was dropped |
| DeviceCore.Device.WriteBlock | src/device.cpp:489-499 | the method refines the reference F4: `BlockAnswers.BlockOutcome` says what it runs and leaves in RESULT |
| DeviceCore.Device.Drain | src/device.cpp:511-522 | the read loop hands out min(depth, limit / 64) records and zeroes the rest of the buffer |
| DeviceCore.Device.ReadBlock | src/device.cpp:501-523 | F5 refines the reference read: bytes, count and remaining queue |
| CompletionStream.StepConserves | src/device.cpp:399-523 | what was queued plus what an operation queues is what it hands out plus what remains, in order |
| CompletionStream.StreamConserved | src/device.cpp:399-523 | over any run records come out in submission order, none altered, duplicated or lost after being queued |
| CompletionStream.WriteBlockStatus | src/device.cpp:399-499 | F4 answers queue-full if and only if depth plus batch exceeds 16, which is if and only if a non-empty suffix of the batch was lost; OK if and only if all of it was queued; a block error if and only if nothing was accepted |
| CompletionStream.RefusedBlockChangesNothing | src/device.cpp:489-499 | a refused F4 changes only the result register, however many valid descriptors precede the bad one |
| CompletionStream.RunItemAnswers | src/device.cpp:410-484 | a completion carries its own descriptor's sequence, baseline and output length; its status is OK exactly when a job was created, and then it names that job |
| CompletionStream.RunItemsAnswer | src/device.cpp:410-484 | record i of a batch answers descriptor i |
| CompletionStream.BlockAnswersEveryDescriptor | src/device.cpp:399-484 | an accepted F4 yields one record per descriptor, each with the batch size and its transport share |
| CompletionStream.EncodedRecordAt | src/device.cpp:513-518 | record k of the output sits at byte 64k |
| CompletionStream.ReadBlockDecodes | src/device.cpp:501-523 | decoding the F5 bytes gives back exactly the records handed out, and all else is zero |
| CompletionStream.ReadBlockPops | src/device.cpp:501-523 | F5 of length L pops exactly min(depth, L / 64) |
| BlockFormat.HeadOfItem | src/device.cpp:376-394 | a serialised descriptor with its inline bytes parses back to itself, whatever follows |
| BlockFormat.BlockRoundTrip | src/device.cpp:371-397 | any 1 to 8 valid descriptors with inline inputs, with or without zero padding, are recovered |
| BlockFormat.ParsedIsSerialised | src/device.cpp:371-397 | conversely, whatever parses is the serialisation of what was parsed followed by something that ends it |
| BlockFormat.BlockAcceptance | src/device.cpp:371-397 | a region parses to the given descriptors if and only if it is their serialisation followed by an end |
| Isolation.StoreIsolated | src/device.cpp:250-264 | a store into one allocation changes no byte of any other |
| Isolation.ItemsIsolated | src/device.cpp:422-433 | nor do the inline inputs of a batch |
| Isolation.StepIsolated | src/device.cpp:189-523 | after any operation the contents of a live allocation are its own writes applied to its old contents |
| Isolation.RunIsolated | src/device.cpp:189-523 | over any run without FREE of it, an allocation keeps its place and holds exactly its own writes |
| Isolation.PoolWriters | src/device.cpp:250-264 | only UPLOAD and F4 write the pool at all |
| FrozenJobs.StepFreezes | src/device.cpp:266-348 | an operation leaves a live job's result alone; only a POLL of its handle counts |
| FrozenJobs.RunFreezes | src/device.cpp:266-348 | so does any run, after FREE, reallocation or overwriting of its input; polls count down to ready |
| FrozenJobs.CollectAfterRun | src/device.cpp:303-338 | COLLECT after a run answers the original result if enough polls happened and not-ready otherwise |
| FrozenJobs.SubmitNeedsTwoPolls | src/device.cpp:266-302 | a submitted job starts two polls away from ready |
| FrozenJobs.BlockJobIsReady | src/device.cpp:463-482 | running one accepted descriptor leaves a job that is ready, with the numbers of its completion |
| FrozenJobs.BatchIsBacked | src/device.cpp:410-484 | the items after it in the batch leave that job alone |
| FrozenJobs.BlockIsBacked | src/device.cpp:399-487 | an F4 leaves a ready job behind every record of status OK, queued or dropped |
| FrozenJobs.BlockJobLifecycle | src/device.cpp:322-484 | after an F4 and any run, COLLECT of the job an OK record names answers OK with exactly the four numbers of the record |
| FrozenJobs.SubmittedJobLifecycle | src/device.cpp:266-338 | after SUBMIT and any run, COLLECT succeeds if and only if the run polled the job at least twice |
| UploadPaths.StagingFillsPayload | src/device.cpp:205-210 | staging the words of a piece with F3 fills the payload with its bytes and changes nothing else |
| UploadPaths.UploadEffect | src/device.cpp:250-265 | UPLOAD copies the payload into its range, raises the high-water mark and reports the checksum of the upload |
| UploadPaths.PieceEffect | src/device.cpp:205-265 | the whole command sequence of one piece has that effect |
| UploadPaths.UploadedPiecesMakeImage | src/device.cpp:250-265 | pieces in any order and overlap that cover the image make a fresh buffer hold exactly the image, and the last UPLOAD reports its FNV-1a |
| UploadPaths.SubmitHashesUpload | src/device.cpp:266-301 | SUBMIT records the checksum of what was uploaded |
| UploadPaths.InlineHashesInput | src/device.cpp:430-466 | running one inline descriptor puts the checksum of its bytes in its record |
| UploadPaths.BlockHashesInput | src/device.cpp:410-484 | every OK record an F4 produces for an inline descriptor carries the FNV-1a of its inline bytes, whatever else the block holds |
| UploadPaths.PiecesCollected | src/device.cpp:205-338 | pieces, SUBMIT, two POLLs and COLLECT answer OK with FNV-1a of the image as third output; SUBMIT names the job |
| UploadPaths.UploadPathsAgree | src/device.cpp:430-466 | that output equals the checksum in the record an F4 produces when the same image travels inline |
| NtrBus.FaultsAreHarmless | include/gekkopak/ntr_register_transport.h:172-262 | an access that faults, or starts a command that is not accepted, changes no device state but the transfer count |
| NtrBus.OpenWriteAccumulates | include/gekkopak/ntr_register_transport.h:256-271 | FIFO words of an open write are only collected, whatever other accesses come between |
| NtrBus.WriteBlockIsAtomic | include/gekkopak/ntr_register_transport.h:256-271 | an F4 reaches the device exactly at its 128th FIFO word, with the words written and the index and word latched at its start |
| NtrBus.TraceKeepsBounded | include/gekkopak/ntr_register_transport.h:172-276 | after any trace an open transfer has at most 128 words and at least one to go |
| NtrBus.CommandUnderStatus | include/gekkopak/ntr_register_transport.h:156-170 | the control store that starts a command does not disturb the command bytes it starts |
| BusCommands.PhaseWords | include/gekkopak/ntr_register_transport.h:256-271 | the words of an F4 are the first FIFO words after its start, at most the 128 it takes |
| BusCommands.CallsAreCommands | include/gekkopak/ntr_register_transport.h:145-276 | from any bounded bus and for any trace the device is asked, in order, for the block left open if the trace completes it, and then, for each command the trace starts, one count and exactly the one call of an accepted command; for F4 that is its index and word as latched and its 128 words, and nothing while it is incomplete |
| BusCommands.DeviceSeesCommands | include/gekkopak/ntr_register_transport.h:145-276 | so from an idle page the device is the fold of the commands read off the trace |
| RegisterTransport.RegisterTransport.Reset | include/gekkopak/ntr_register_transport.h:121-135 | an idle transport over a cleared page with the reset bit high |
| RegisterTransport.RegisterTransport.Read32 | include/gekkopak/ntr_register_transport.h:145-153 | a load refines the reference bus and leaves the device alone |
| RegisterTransport.RegisterTransport.Write32 | include/gekkopak/ntr_register_transport.h:156-169 | a store refines the reference bus; the device makes exactly the calls of that access |
| RegisterTransport.RegisterTransport.StartCommand | include/gekkopak/ntr_register_transport.h:172-234 | starting a command: count it, refuse it or run it, and open its data phase |
| RegisterTransport.RegisterTransport.ReadFifo | include/gekkopak/ntr_register_transport.h:236-254 | hands out the next word of an open read, or faults |
| RegisterTransport.RegisterTransport.WriteFifo | include/gekkopak/ntr_register_transport.h:256-271 | takes the next word of an open write, or faults |
| RegisterTransport.RegisterTransport.EndTransfer | include/gekkopak/ntr_register_transport.h:273-276 | closes the phase and clears activate and data-ready |
| Dspico.MatchesMeansValid | prototype/dspico-v1/overlay/src/gekkopakNtr.cpp:58-65 | the masked comparison on the first command word accepts exactly the commands the wire format calls valid with that opcode |
| Dspico.DspicoTarget.Reset | prototype/dspico-v1/overlay/src/gekkopakNtr.cpp:84-94 | buffers and counters zero, and the device in its initial state |
| Dspico.DspicoTarget.WriteRegCmd1 | prototype/dspico-v1/overlay/src/gekkopakNtr.cpp:104-110 | F0 handler: the device call if the discriminator matches, and no payload |
| Dspico.DspicoTarget.ExecCmd1 | prototype/dspico-v1/overlay/src/gekkopakNtr.cpp:120-126 | F1 handler |
| Dspico.DspicoTarget.ReadRegCmd1 | prototype/dspico-v1/overlay/src/gekkopakNtr.cpp:136-158 | F2 handler: declares four bytes and pushes the register or diagnostic counter |
| Dspico.DspicoTarget.PayloadWordCmd1 | prototype/dspico-v1/overlay/src/gekkopakNtr.cpp:168-174 | F3 handler |
| Dspico.DspicoTarget.WriteBlockCmd1 | prototype/dspico-v1/overlay/src/gekkopakNtr.cpp:184-208 | F4 handler: opens a 512-byte payload with the dispatcher's word limit, or refuses before the data phase |
| Dspico.DspicoTarget.BlockWriteComplete | prototype/dspico-v1/overlay/src/gekkopakNtr.cpp:70-76 | the payload callback hands the block to the device and counts it |
| Dspico.DspicoTarget.ReadBlockCmd1 | prototype/dspico-v1/overlay/src/gekkopakNtr.cpp:218-229 | F5 handler: declares and supplies exactly 512 bytes |
| Dspico.DspicoTarget.RecordFifoWrite | prototype/dspico-v1/hostshim/dspico_host_shim.cpp:35-40 | records a FIFO word; the count goes on beyond the eight slots |
| Dspico.DspicoTarget.IssueCommand | prototype/dspico-v1/hostshim/dspico_host_shim.cpp:86-186 | one command through the shim: reference effect and response, never a length mismatch, a direction mismatch exactly when the caller offers too little |
| Dspico.OnlyBlocksUseData | prototype/dspico-v1/hostshim/dspico_host_shim.cpp:115-139 | data offered to any other command has no effect |
| Conformance.StartedTransaction | tests/conformance/targets.cpp:137-144 | the three staging stores start the command that was staged, from any idle page |
| Conformance.ReadsAllWords | tests/conformance/targets.cpp:146-158 | the read loop is offered every word and ends the transfer |
| Conformance.WritesAllWords | tests/conformance/targets.cpp:146-158 | the write loop is accepted word by word and ends in one block write |
| Conformance.RegIssueIsAtomic | tests/conformance/targets.cpp:120-162 | a driven transaction is one atomic device call with its response |
| Conformance.RefusedEarlyOrLate | prototype/dspico-v1/overlay/src/gekkopakNtr.cpp:184-208 | refusing an ill-formed F4 before its data phase leaves the same device as refusing it after |
| Conformance.StepIgnoresCount | src/device.cpp:189-523 | no operation depends on the transfer count |
| Conformance.FirmwareIsAtomic | prototype/dspico-v1/overlay/src/gekkopakNtr.cpp:104-229 | a firmware transaction is the same atomic device call |
| Conformance.SameResponse | prototype/dspico-v1/overlay/src/gekkopakNtr.cpp:136-158 | the responses are equal if and only if the command does not read a firmware counter that is not zero |
| Conformance.TransactionConforms | tests/conformance/targets.cpp:120-187 | one transaction: same device but for the transfer count; equal response bytes exactly unless it reads a firmware counter that is not zero; the same success exactly unless it is foreign traffic with a data phase |
| Conformance.FirmwareSucceeds | prototype/dspico-v1/hostshim/dspico_host_shim.cpp:86-186 | with the block and the room an opcode needs, the shim reports no mismatch for any command |
| Conformance.ForeignReadDiffers | tests/conformance/targets.cpp:146-187 | a foreign F2: the page driver fails, the firmware driver succeeds |
| Conformance.CounterWindowDiffers | prototype/dspico-v1/overlay/src/gekkopakNtr.cpp:140-148 | from reset, one F4 and then F2 of index 0xF0: the response bytes differ |
| Conformance.TransportsConform | tests/conformance/targets.cpp:86-199 | any list of commands with data phases, none reading the counters: equal response bytes and equal devices; the firmware driver always succeeds, the page driver exactly where the command is valid or needs no data phase |
| Harness.RunTrace | include/gekkopak/ntr_register_transport.h:145-276 | the transport object under any access sequence: its view is the reference bus, and the device has been asked exactly what the commands of the trace ask |
| Harness.RegTransaction | tests/conformance/targets.cpp:137-162 | the driver over the transport object computes the reference transaction |
| Harness.RegIssue | tests/conformance/targets.cpp:120-162 | the same, and nothing at all when the caller offers too few bytes or too little room |
| Harness.FirmwareIssue | tests/conformance/targets.cpp:175-187 | the driver over the firmware object: reference effect, response and success |
| Harness.RegisterTurn | tests/conformance/targets.cpp:120-162 | one transaction on the page, the firmware object standing by |
| Harness.FirmwareTurn | tests/conformance/targets.cpp:175-187 | the same transaction on the firmware, which brings both level again |
| Harness.Replay | tests/conformance/targets.cpp:120-187 | both objects give identical response bytes and stay level; both success lists are determined |
| Harness.FromReset | tests/conformance/targets.cpp:106-187 | from power-up, for every list of transactions, both objects give the same response bytes and end with the same device; the page reports success exactly where the command is valid or needs no data phase |
| UsbEndpoint.PackedImage | prototype/dspico-v1/ds-test/usb/dcd_dspico.c:126-147 | words packed four bytes at a time are the bytes in order, then zeros |
| UsbEndpoint.PackBlock | prototype/dspico-v1/ds-test/usb/dcd_dspico.c:126-147 | the pack loop, with its short tail, sends exactly the block |
| UsbEndpoint.UnpackBlock | prototype/dspico-v1/ds-test/usb/dcd_dspico.c:149-161 | the unpack loop stores exactly the asked-for bytes and no others |
| UsbEndpoint.BlocksCounted | prototype/dspico-v1/ds-test/usb/dcd_dspico.c:181-213 | block k exists if and only if k is below max(1, ceil(total / 512)) |
| UsbEndpoint.OtherBuffer | prototype/dspico-v1/ds-test/usb/dcd_dspico.c:181-213 | consecutive blocks use opposite buffers |
| UsbEndpoint.Endpoint.InSendBlock | prototype/dspico-v1/ds-test/usb/dcd_dspico.c:181-196 | fills the free buffer with the next block; never the one in flight |
| UsbEndpoint.Endpoint.XferIn | prototype/dspico-v1/ds-test/usb/dcd_dspico.c:387-398 | two blocks prepared, the first in flight |
| UsbEndpoint.Endpoint.InComplete | prototype/dspico-v1/ds-test/usb/dcd_dspico.c:198-213 | the next transfer names the buffer that holds the next unsent block, or completion is raised with the whole length |
| UsbEndpoint.Endpoint.TakenByHost | prototype/dspico-v1/ds-test/usb/dcd_dspico.c:198-213 | each completion adds exactly the next block to the line |
| UsbEndpoint.Transmit | prototype/dspico-v1/ds-test/usb/dcd_dspico.c:181-213 | the line carries exactly the buffer, in max(1, ceil(total / 512)) completions, with one event of the whole length |
| UsbEndpoint.Endpoint.XferOut | prototype/dspico-v1/ds-test/usb/dcd_dspico.c:399-409 | the first buffer is armed for at most 512 bytes |
| UsbEndpoint.Endpoint.OutReceiveBlock | prototype/dspico-v1/ds-test/usb/dcd_dspico.c:215-225 | drains the buffer that is not armed into the next place of the request |
| UsbEndpoint.Endpoint.ArmNext | prototype/dspico-v1/ds-test/usb/dcd_dspico.c:233-240 | begins the next transfer into the other buffer if and only if a full block leaves room, for the length that is left |
| UsbEndpoint.Endpoint.OutBlock | prototype/dspico-v1/ds-test/usb/dcd_dspico.c:229-241 | arms before it drains, and stores the block in its place |
| UsbEndpoint.Endpoint.OutComplete | prototype/dspico-v1/ds-test/usb/dcd_dspico.c:227-246 | the other buffer is armed before this one is drained, only while room is left |
| UsbEndpoint.Endpoint.GivenByHost | prototype/dspico-v1/ds-test/usb/dcd_dspico.c:227-246 | a block extends what was received by exactly its bytes |
| UsbEndpoint.Receive | prototype/dspico-v1/ds-test/usb/dcd_dspico.c:227-246 | the request receives exactly what is delivered; one completion, on the first short block or when full, with nothing armed |
| UsbEndpoint.DeliveredInOrder | prototype/dspico-v1/ds-test/usb/dcd_dspico.c:215-246 | what is delivered is the host's blocks in order, up to the end of the transfer |
| Fifo.AdvanceClosedForm | prototype/dspico-v1/ds-test/usb/tinyusb/common/tusb_fifo.c:356-369 | the 16-bit index arithmetic is one conditional subtraction of 2 * depth |
| Fifo.AdvanceIsModular | prototype/dspico-v1/ds-test/usb/tinyusb/common/tusb_fifo.c:356-369 | it is addition modulo 2 * depth if and only if index plus offset is below 4 * depth |
| Fifo.IndexToPtr | prototype/dspico-v1/ds-test/usb/tinyusb/common/tusb_fifo.c:391-395 | the subtraction loop is the slot of the index |
| Fifo.PutIsTwoCopies | prototype/dspico-v1/ds-test/usb/tinyusb/common/tusb_fifo.c:155-175 | the linear and wrapped copies write exactly the modular run |
| Fifo.RingIsTwoCopies | prototype/dspico-v1/ds-test/usb/tinyusb/common/tusb_fifo.c:243-272 | the linear and wrapped copies read exactly the modular run |
| Fifo.WriteAppends | prototype/dspico-v1/ds-test/usb/tinyusb/common/tusb_fifo.c:469-549 | a write that fits appends, for any depth |
| Fifo.WriteKeepsNewest | prototype/dspico-v1/ds-test/usb/tinyusb/common/tusb_fifo.c:489-533 | short of a second overflow the newest depth items of everything pending remain |
| Fifo.WriteReplaces | prototype/dspico-v1/ds-test/usb/tinyusb/common/tusb_fifo.c:496-512 | a write of a whole ring replaces everything |
| Fifo.ReadDrops | prototype/dspico-v1/ds-test/usb/tinyusb/common/tusb_fifo.c:556-569 | advancing the read index drops exactly the items read |
| Fifo.CorrectionKeepsContents | prototype/dspico-v1/ds-test/usb/tinyusb/common/tusb_fifo.c:402-416 | re-indexing after an overflow does not change what will be read |
| Fifo.NewestAfterSecond | prototype/dspico-v1/ds-test/usb/tinyusb/common/tusb_fifo.c:517-525 | where the newest items are when a write goes past the second overflow |
| Fifo.SecondOverflowExact | prototype/dspico-v1/ds-test/usb/tinyusb/common/tusb_fifo.c:517-525 | such a write keeps the newest items for every content if and only if it ends exactly on the second overflow |
| Fifo.SecondOverflowLoses | prototype/dspico-v1/ds-test/usb/tinyusb/common/tusb_fifo.c:517-525 | beyond it, a buffer for which it does not |
| Fifo.LastOfLast | prototype/dspico-v1/ds-test/usb/tinyusb/common/tusb_fifo.c:489-533 | keeping the newest after each write is keeping the newest of all |
| Fifo.TuFifo.constructor | prototype/dspico-v1/ds-test/usb/tinyusb/common/tusb_fifo.c:70-92 | an empty queue over a buffer of depth times item size bytes, the item size cut to 15 bits |
| Fifo.TuFifo.PushN | prototype/dspico-v1/ds-test/usb/tinyusb/common/tusb_fifo.c:155-175 | copies into the ring from a slot on |
| Fifo.TuFifo.PullN | prototype/dspico-v1/ds-test/usb/tinyusb/common/tusb_fifo.c:243-272 | copies out of the ring from a slot on |
| Fifo.TuFifo.CorrectReadIndex | prototype/dspico-v1/ds-test/usb/tinyusb/common/tusb_fifo.c:402-416 | makes a full queue of an overflowed one, contents unchanged |
| Fifo.TuFifo.PeekN | prototype/dspico-v1/ds-test/usb/tinyusb/common/tusb_fifo.c:444-467 | gives the first min(n, count) items and keeps them |
| Fifo.TuFifo.ReadN | prototype/dspico-v1/ds-test/usb/tinyusb/common/tusb_fifo.c:556-569 | gives the first min(n, count) items and removes them |
| Fifo.TuFifo.WriteN | prototype/dspico-v1/ds-test/usb/tinyusb/common/tusb_fifo.c:469-549 | without overwriting: appends as many items as fit; with it: the newest depth items, or the re-positioned contents after a second overflow |
| Fifo.WriteRun | prototype/dspico-v1/ds-test/usb/tinyusb/common/tusb_fifo.c:489-533 | after any run of overwriting writes short of a second overflow, what is read are the newest items of everything ever written |
| Fifo.TuFifo.GetReadInfo | prototype/dspico-v1/ds-test/usb/tinyusb/common/tusb_fifo.c:989-1040 | the two regions name exactly the occupied slots, in order; for byte items their bytes are the contents |
| Fifo.TuFifo.GetWriteInfo | prototype/dspico-v1/ds-test/usb/tinyusb/common/tusb_fifo.c:1057-1092 | the two regions name exactly the free slots |
| Fifo.ReadPointerExact | prototype/dspico-v1/ds-test/usb/tinyusb/common/tusb_fifo.c:1022 | the linear read pointer names the next item to be read, for every content of the buffer, if and only if items are single bytes or that item is in slot 0 |
| Fifo.ReadPointerMisses | prototype/dspico-v1/ds-test/usb/tinyusb/common/tusb_fifo.c:1022 | otherwise, a buffer where it names other bytes |
| Fifo.WritePointerExact | prototype/dspico-v1/ds-test/usb/tinyusb/common/tusb_fifo.c:1077 | an item written at the linear write pointer is appended, for every buffer and item, if and only if items are single bytes or the free slot is slot 0 |
| Fifo.WritePointerMisses | prototype/dspico-v1/ds-test/usb/tinyusb/common/tusb_fifo.c:1077 | otherwise, a buffer and an item that is not read back |
| ControlTransfer.PacketCount | prototype/dspico-v1/ds-test/usb/tinyusb/device/usbd_control.c:94-106 | how many packets a data stage takes, with the extra short or empty one exactly when the data ends before wLength on a packet boundary |
| ControlTransfer.DataStageIsUnique | prototype/dspico-v1/ds-test/usb/tinyusb/device/usbd_control.c:94-106 | a data stage is determined by its data and requested length |
| ControlTransfer.HostReadsData | prototype/dspico-v1/ds-test/usb/tinyusb/device/usbd_control.c:94-106 | a host that stops at the requested length or the first short packet gets exactly the data and reads exactly the packets sent |
| ControlTransfer.DataStageIsAccepted | prototype/dspico-v1/ds-test/usb/tinyusb/device/usbd_control.c:156-213 | a host that sends a well-formed OUT data stage delivers it, up to the device's room for it |
| ControlTransfer.Control.StatusStage | prototype/dspico-v1/ds-test/usb/tinyusb/device/usbd_control.c:75-79 | one empty transaction against the data direction |
| ControlTransfer.Control.DataStage | prototype/dspico-v1/ds-test/usb/tinyusb/device/usbd_control.c:94-106 | one transaction of at most 64 bytes, carrying the next bytes |
| ControlTransfer.Control.Xfer | prototype/dspico-v1/ds-test/usb/tinyusb/device/usbd_control.c:110-126 | starts the data stage, or the status stage when nothing is requested; refuses a null buffer with data to move |
| ControlTransfer.Control.DataComplete | prototype/dspico-v1/ds-test/usb/tinyusb/device/usbd_control.c:171-213 | on the last or a short transaction: the status stage or both stalls; otherwise the next transaction |
| ControlTransfer.Control.XferComplete | prototype/dspico-v1/ds-test/usb/tinyusb/device/usbd_control.c:156-213 | a completion against the request's direction is the status stage and queues nothing |
| ControlTransfer.Respond | prototype/dspico-v1/ds-test/usb/tinyusb/device/usbd_control.c:94-213 | an IN request, with or without a buffer: refused exactly when there is something to send and no buffer; otherwise exactly the first min(len, wLength) bytes in a well-formed data stage, then exactly one status stage or the two stalls |
| ControlTransfer.ClosedWithBuffer | prototype/dspico-v1/ds-test/usb/tinyusb/device/usbd_control.c:171-213 | an OUT data stage that is over is followed by its status stage or stalls if and only if there was a buffer |
| ControlTransfer.StuckWithoutBuffer | prototype/dspico-v1/ds-test/usb/tinyusb/device/usbd_control.c:171-175 | a request of eight bytes into no buffer: one empty transaction and nothing after it; with a buffer the same request gets its status stage |
| ControlTransfer.SendAll | prototype/dspico-v1/ds-test/usb/tinyusb/device/usbd_control.c:94-213 | the data stage of a started IN request |
| ControlTransfer.StoreAll | prototype/dspico-v1/ds-test/usb/tinyusb/device/usbd_control.c:94-213 | the data stage of a started OUT request |
| ControlTransfer.Take | prototype/dspico-v1/ds-test/usb/tinyusb/device/usbd_control.c:94-213 | an OUT request, with or without a buffer, stores exactly what is accepted, within its room, and queues exactly these transactions |
| WireFormat.CommandLayout | include/gekkopak/protocol.h:59-78 | a command has a given opcode, index and value if and only if its eight bytes are OP 47 4B II and the value most significant byte first; encoding makes those bytes and no others |
| WireFormat.DescriptorLayout | include/gekkopak/protocol.h:191-211 | every field of a descriptor is the little-endian number at its byte offset, for encoding and decoding alike, and only those bytes |
| WireFormat.CompletionLayout | include/gekkopak/protocol.h:213-229 | every field of a completion record is the little-endian number at its byte offset, and bytes 44 to 63 are zero |
| WireFormat.DescriptorAccepted | src/device.cpp:373-383 | a descriptor is accepted if and only if it starts 47 4B 44 31 01 00 01 00; it carries its bytes inline if and only if bit 0 of byte 12 is set |
| WireFormat.CompletionOpening | include/gekkopak/protocol.h:213-215 | a record with the protocol magic and version starts 47 4B 43 31 01 00 |
| WireFormat.BlockWords | include/gekkopak/protocol.h:171-181 | the F4 length is the low half of its word; the F5 offset is the low half and the length the high half |
| WireFormat.StoredWordAt | include/gekkopak/ntr_register_transport.h:75-78 | a stored word is the little-endian number of its four bytes |
| Checksum.Fnv1aEmpty | include/gekkopak/protocol.h:241-242 | nothing hashes to 0x811C9DC5 |
| Checksum.Fnv1aStep | include/gekkopak/protocol.h:243-246 | each further byte is xored into the 32-bit hash, which is then multiplied by 0x01000193, in 32-bit arithmetic |
| Checksum.ReferencePattern | include/gekkopak/protocol.h:231-239 | the sixteen bytes of the reference pattern hash to 0xF269B734 |
| Timing.SpeedupMeaning | src/device.cpp:289-292 | the speedup is a thousand times the software time over the modelled time, rounded down, if and only if that quotient fits in 32 bits; a modelled time of zero gives zero |
| Timing.RoundTripAccuracy | src/device.cpp:179-183 | the block round trip is within half a nanosecond of three commands and 1028 bytes if and only if the sum fits in 32 bits |
| Timing.ShareAccuracy | src/device.cpp:404-408 | the shares of a batch add up to that exact round trip within half a nanosecond a job and another half |
| Timing.DefaultNumbers | include/gekkopak/protocol.h:151-155 | under the default model: 10,028 us for 1,000,000 operations on an empty buffer, 2,530 us for the documented job, 238,396 ns a round trip, 2,738 us for the block job |
| Timing.DefaultSpeedups | src/device.cpp:289-292 | 3,500 us in software against those two modelled times is a speedup of 1.383 and 1.278 |
| Client.BothTransports | tests/conformance/targets.cpp:88-162 | what a client of this module sends and gets back is what the register page does, but for the transfer count, and what the firmware does, but for its own counters |
| Client.GkBytes | include/gekkopak/protocol.h:69-78 | the eight bytes OP 47 4B II VV VV VV VV are the ones the encoder makes, and decode to what they say |
| Client.GetMeaning | src/device.cpp:195-203 | the number in the four bytes F2 returns is the register, for 0xFE the depth of the queue, else zero |
| Client.AfterReset | src/device.cpp:25-47 | after a reset every register and the depth read zero, nothing is allocated, no job exists, payload and pool are zero, and the whole pool is reported unless configured otherwise |
| Client.RegisterRoundTrip | src/device.cpp:189-203 | F2 of register i after F0 (i, v) with i below 16 answers v, every other F2 what it did before; F0 from 16 on changes nothing |
| Client.DepthAfterRun | src/device.cpp:195-198 | after any run from an empty queue F2 of 0xFE answers the records queued less the records handed out |
| Client.AnswersRead | src/device.cpp:195-203 | five F2s read RESULT and the four outputs |
| Client.FixedAnswers | src/device.cpp:225-237 | HELLO, GET_CAPS and COMPLETE answer these numbers in these registers, and any other command 1; nothing else changes but the completion flag |
| Client.AllocAnswers | src/device.cpp:239-248 | ALLOC leaves 0 in RESULT if and only if there is a pool, the request is positive and at most its size, a handle is free and some offset has room for it rounded up to 4; then OUT0 is the lowest free handle, now live at the lowest such offset with OUT1 bytes; else 3 and nothing changed |
| Client.FreeAnswers | src/device.cpp:339-348 | FREE of a live handle leaves 0, the handle not live and everything else as it was, and a second FREE leaves 2; FREE of any other handle leaves 2 and changes nothing |
| Client.AllocAgain | tests/conformance/vectors/lifecycle.vec:246-285 | a granted ALLOC, FREE of OUT0 and the same ALLOC give exactly the state after the first: same handle, same offset |
| Client.StagedWord | src/device.cpp:205-210 | F3 makes the four payload bytes of its index the word, least significant first, and changes no other |
| Client.UploadAnswers | src/device.cpp:250-264 | UPLOAD succeeds if and only if the range is inside a live allocation and at most 1024 bytes; then exactly those pool bytes are the staged ones, the high-water mark is the maximum, OUT0 the length and OUT1 the checksum of all uploaded; else 2 and nothing changed |
| JobAnswers.SubmitAnswers | src/device.cpp:266-301 | SUBMIT answers 2 without a live input, 7 with sixteen jobs, else 0 with the lowest free handle and the modelled time; the job has software time ARG3, the exact time of the uploaded bytes, 16 and ARG2 within 501.5 ns if and only if the total fits, the rounded-down speedup and the checksum of the uploaded bytes |
| JobAnswers.PollOnce | src/device.cpp:303-320 | POLL counts the job down by one; OUT0 is 1 if and only if no poll is left, OUT1 is the polls left |
| JobAnswers.CollectAnswers | src/device.cpp:322-337 | COLLECT of a job that exists answers its time, speedup, checksum and software time when it is ready and 4 when not; POLL and COLLECT of any other handle answer 2; COLLECT changes nothing |
| JobAnswers.PollTells | src/device.cpp:303-337 | after a POLL, OUT0 is 1 if and only if COLLECT straight after answers OK, and COLLECT after n more POLLs answers OK if and only if n is at least OUT1 |
| JobAnswers.SubmitPollPollCollect | src/device.cpp:266-337 | SUBMIT then COLLECT answers 4; the two POLLs answer (0, 1) and (1, 0); COLLECT then answers the modelled time of SUBMIT, its speedup, checksum and ARG3 |
| JobAnswers.SubmittedAnswers | src/device.cpp:266-337 | after SUBMIT and any run, COLLECT answers those numbers if and only if the job has been polled at least twice, else 4 |
| Lifecycle.SubmitToComplete | tests/conformance/vectors/lifecycle.vec:139-243 | from any state with the pattern uploaded and no job: SUBMIT, POLL, POLL, COLLECT, FREE and COMPLETE with every number of the golden vector |
| Lifecycle.FullLifecycle | tests/conformance/vectors/lifecycle.vec:21-244 | from reset, the golden bring-up vector: each of its F0, F1 and F3 commands in order, F1 under sequence number 0, which the code ignores, leaves exactly the answers the vector expects |
| BlockAnswers.HeadMeaning | src/device.cpp:370-395 | what stands at a place in a block is the end, a foreign descriptor or one cut short exactly by its literal bytes |
| BlockAnswers.BlockCases | src/device.cpp:365-399 | every block is the serialisation of at most eight descriptors and a rest that ends it, is foreign or is cut short |
| BlockAnswers.MisaddressedBlock | src/device.cpp:489-496 | an F4 with another selector, or whose low half is zero or above 512, leaves 6 and runs nothing |
| BlockAnswers.BlockOutcome | src/device.cpp:365-499 | what an F4 runs and leaves in RESULT, by its low half and the bytes below it: the descriptors with 0, or 7 exactly when depth and number exceed 16; 5 for no descriptor or a foreign one; 6 for one cut short |
| BlockAnswers.PaddedBlock | src/device.cpp:489-499 | any one to eight descriptors with inline bytes that fit, sent padded to 512 bytes under their length, are exactly what is run |
| RecordAnswers.ItemRecord | src/device.cpp:422-484 | one descriptor, on the tables before it: its status by region, high-water mark, output region and free job handle, in that order, and the numbers of its record |
| RecordAnswers.TablesAfter | src/device.cpp:410-484 | after any descriptors of a batch: the same allocations, each uploaded up to the maximum of its mark and their inline ends, and one more job for each success |
| RecordAnswers.BlockRecord | src/device.cpp:365-487 | every record of any F4, on the tables before the F4: 0 if and only if the input region lies in a live allocation, is inline or below the mark the earlier descriptors leave, a non-zero output handle holds the output region, and a job handle is free; 2, 5, 2 and 7 for the first of these that fails; and its handle, exact time on workUnits and share, speedup on arg0, and checksum |
| BlockOnWire.ReadAnswers | src/device.cpp:501-523 | F5 with selector 1, offset 0 and length 1 to 512 shows the oldest min(depth, length / 64) records field by field, then zeros, removes them and leaves 0; any other F5 shows zeros, removes nothing and leaves 6 |
| BlockOnWire.ResultRead | src/device.cpp:195-203 | F2 of RESULT after an F1, F4 or F5 answers the status it left |
| BlockOnWire.BlockThereAndBack | src/device.cpp:365-523 | with nothing waiting, one to eight descriptors sent as one F4: RESULT reads 0, the depth their number, and one F5 brings back one record per descriptor, in order, each byte as BlockRecord says; the depth then reads 0 |
| PageNumbers.PhaseNumbers | include/gekkopak/ntr_register_transport.h:91-107 | four bytes come back for F2 under block code 7, 512 for F5 and 512 go out for F4 under code 1, nothing moves otherwise under code 0 |
| PageNumbers.StartNumbers | include/gekkopak/ntr_register_transport.h:156-195 | a command starts at a store to offset 4 with bit 31 set while nothing is open, is read from offset 8, and runs if and only if it is GekkoPAK's and bits 26:24 are the code of its opcode |
| PageNumbers.StatusBits | include/gekkopak/ntr_register_transport.h:54-68 | data-ready is bit 23; raising it changes no other bit, releasing the bus clears bits 31 and 23 and no other |
| PageNumbers.StagingNumbers | tests/conformance/targets.cpp:129-146 | the driver stores the command at offsets 8 and 12 and then activate, reset and the block code at offset 4 |
| PageNumbers.FaultNumbers | include/gekkopak/ntr_register_transport.h:186-262 | an access adds one fault, and records which, if and only if it touches the FIFO out of phase or starts a GekkoPAK command under another block code; else both are kept |
| PageNumbers.PlainAccess | include/gekkopak/ntr_register_transport.h:145-170 | away from the FIFO a load answers the little-endian word of the page and changes nothing, a store that starts nothing changes exactly those four bytes, and off the page nothing happens |
| PageNumbers.CommandCount | include/gekkopak/ntr_register_transport.h:172-180 | every start adds one to the count of commands, refused or not, and nothing else does |
| FirmwareNumbers.CountersCount | prototype/dspico-v1/overlay/src/gekkopakNtr.cpp:47-76 | after any transactions from zero the counters are: F4s seen, F4s that could be handed over, as many that were, and those that left 0 in RESULT |
| FirmwareNumbers.CountersRead | prototype/dspico-v1/overlay/src/gekkopakNtr.cpp:136-150 | F2 of 0xF0 to 0xF3 answers these four in this order |

## Left out

- Pools of 2^31 bytes or more, and register offsets of 0xFFFFFFFC and above: preconditions, because the sums in `src/device.cpp:89` and `include/gekkopak/ntr_register_transport.h:146` would wrap. Offsets off the page but below that are modelled.
- Null pointers: a missing pool is a flag of the configuration, a missing block or output buffer an option; the register page is always present.
- The `sequence` argument of F1: the code ignores it, and the model passes it and ignores it too.
- Timing model: bandwidth and operation rates as 32-bit integers; conversion of a zero rate follows the code.
- RegisterTransport.RegisterTransport.Read32: alignment of offsets is not required, as in the source; host byte order is taken to be little-endian, as the source assumes.
- Dspico.DspicoTarget.IssueCommand: the command-zero handlers only install the second handler, so the model dispatches on the opcode directly; the FIFO of the PIO keeps the shim's eight slots.
- Harness.Replay: the two drivers are compared on full blocks and enough room; with less, the page driver gives up before the bus (`Harness.RegIssue`) and the firmware does not, and no comparison is stated.
- Bus electrical behaviour: card clocks, latency settings, scramblers, dropped first transactions and the busy-wait guards around every loop.
- UsbEndpoint.Endpoint.InComplete: the cartridge and the host are an environment in which an IN completion reports the length begun and an OUT completion at most that; an error completion is not modelled.
- Fifo: the single-item read, write and peek, the constant-address copy modes, the mutexes, clearing, and the functions that advance a pointer on behalf of a DMA.
- Fifo.TuFifo.WriteN: after a second overflow the contract gives the re-positioned contents rather than the newest items, because that is what the code leaves.
- ControlTransfer.Control.Xfer: the device controller accepts a transaction whenever the direction is not busy; its own failures are not modelled. The class callback is the boolean it returns, and the hook after the status stage does nothing.
- Setup packets, standard requests, enumeration, class drivers and the rest of TinyUSB: mostly dispatch to callbacks.
- The Azahar adapter, the libretro frontends, logging, console text, SD export, the ROM tool, the trace checker and the result parsers: input and output.
- `src/gekkopak.cpp`, the simulator and the NTR budget estimate: floating-point cost estimates.
