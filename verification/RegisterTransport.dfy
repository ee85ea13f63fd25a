/** The register-page transport as the code has it: a 512-byte buffer, a word index, and a page the
    caller owns. Every access is proved to be the step of the reference bus. */
module RegisterTransport {
  import opened Words
  import opened Protocol
  import opened DeviceModel
  import opened DeviceInvariant
  import opened DeviceCore
  import opened NtrBus

  method StoreWord(dst: array<byte>, offset: nat, value: u32)
    requires offset + 4 <= dst.Length
    modifies dst
    ensures dst[..] == Splice(old(dst[..]), offset, BytesOf([value]))
  {
    CopyInto(dst, offset, BytesOf([value]));
  }

  function WordAt(buffer: seq<byte>, offset: nat): u32
    requires offset + 4 <= |buffer|
  {
    Le32(buffer[offset], buffer[offset + 1], buffer[offset + 2], buffer[offset + 3])
  }

  lemma WordsAt(buffer: seq<byte>, from: nat, to: nat)
    requires from < to && 4 * to <= |buffer|
    ensures WordsOf(buffer[4 * from..4 * to])[0] == WordAt(buffer, 4 * from)
    ensures WordsOf(buffer[4 * from..4 * to])[1..] == WordsOf(buffer[4 * from + 4..4 * to])
  {
    var part, rest := buffer[4 * from..4 * to], buffer[4 * from + 4..4 * to];
    forall i | 0 <= i < |rest| / 4
      ensures WordsOf(part)[i + 1] == WordsOf(rest)[i]
    {
      assert part[4 * i + 4] == rest[4 * i] && part[4 * i + 5] == rest[4 * i + 1];
      assert part[4 * i + 6] == rest[4 * i + 2] && part[4 * i + 7] == rest[4 * i + 3];
    }
  }

  /** Storing word number n after n words extends them by one. */
  lemma WordsGrow(buffer: seq<byte>, n: nat, value: u32)
    requires 4 * n + 4 <= |buffer|
    ensures
      var after := Splice(buffer, 4 * n, BytesOf([value]));
      after[..4 * n + 4] == buffer[..4 * n] + BytesOf([value])
  {
  }

  lemma WordsOfGrown(front: seq<byte>, value: u32)
    requires |front| % 4 == 0
    ensures WordsOf(front + BytesOf([value])) == WordsOf(front) + [value]
  {
    BytesOfWordsOf(front);
    BytesOfConcat(WordsOf(front), [value]);
    WordsOfBytesOf(WordsOf(front) + [value]);
  }

  lemma NoWords()
    ensures WordsOf([]) == []
  {
  }

  lemma OnlyWord(value: u32)
    ensures WordsOf(Splice(Zeros(BLOCK_BYTES), 0, BytesOf([value]))[0..4]) == [value]
  {
    WordsOfBytesOf([value]);
    assert Splice(Zeros(BLOCK_BYTES), 0, BytesOf([value]))[0..4] == BytesOf([value]);
  }

  class RegisterTransport {
    var direction: Direction
    var wordIndex: u16
    var wordCount: u16
    var index: byte
    var commandWord: u32
    const buffer: array<byte>
    var fault: Fault
    var faultCount: u32
    var commands: u64

    predicate Valid()
      reads this
    {
      && buffer.Length == BLOCK_BYTES
      && (direction != NoPhase ==> wordIndex < wordCount <= BLOCK_WORDS)
      && (direction == ConsoleToCart ==> wordCount == BLOCK_WORDS)
    }

    function CurrentPhase(): Phase
      requires Valid()
      reads this, buffer
    {
      match direction
      case NoPhase => Idle
      case CartToConsole => Reading(WordsOf(buffer[4 * wordIndex..4 * wordCount]))
      case ConsoleToCart => Writing(index, commandWord, WordsOf(buffer[..4 * wordIndex]))
    }

    function View(regs: array<byte>): Bus
      requires Valid() && regs.Length == PAGE_BYTES
      reads this, buffer, regs
    {
      Bus(regs[..], CurrentPhase(), fault, faultCount, commands)
    }

    /** The transport, its page and the device share no memory. */
    ghost predicate Ready(device: Device, regs: array<byte>)
      reads this, buffer, regs, device, device.pool, device.stage, device.payload, device.allocations,
            device.jobs, device.completions
    {
      && Valid() && device.Valid() && regs.Length == PAGE_BYTES && regs != buffer
      && {this, buffer, regs} !! device.Repr()
    }

    constructor ()
      ensures Valid() && CurrentPhase() == Idle && fresh(this) && fresh(buffer)
      ensures fault == NoFault && faultCount == 0 && commands == 0
    {
      direction, wordIndex, wordCount, index, commandWord := NoPhase, 0, 0, 0, 0;
      buffer := new byte[BLOCK_BYTES];
      fault, faultCount, commands := NoFault, 0, 0;
    }

    method Reset(regs: array<byte>)
      requires Valid() && regs.Length == PAGE_BYTES && regs != buffer
      modifies this, buffer, regs
      ensures Valid()
      ensures View(regs) == Bus(Store32(Zeros(PAGE_BYTES), REG_ROMCNT, CARD_RESET_HIGH), Idle, NoFault, 0, 0)
    {
      direction, wordIndex, wordCount, index, commandWord := NoPhase, 0, 0, 0, 0;
      fault, faultCount, commands := NoFault, 0, 0;
      Clear(buffer);
      Clear(regs);
      StoreWord(regs, REG_ROMCNT, CARD_RESET_HIGH);
    }

    method Read32(device: Device, regs: array<byte>, offset: u32) returns (value: u32)
      requires Ready(device, regs) && offset <= 0xFFFF_FFFB
      modifies this, regs
      ensures Ready(device, regs) && device.State() == old(device.State())
      ensures value == Loaded(old(View(regs)), LoadAt(offset))
      ensures View(regs) == Next(old(View(regs)), device.State(), LoadAt(offset))
    {
      if offset + 4 > PAGE_BYTES {
        return 0;
      }
      if offset == REG_FIFO {
        value := ReadFifo(device, regs);
        return;
      }
      return Load32(regs[..], offset);
    }

    method Write32(device: Device, regs: array<byte>, offset: u32, value: u32)
      requires Ready(device, regs) && offset <= 0xFFFF_FFFB
      modifies this, buffer, regs, device.Repr()
      ensures Ready(device, regs) && device.Repr() == old(device.Repr())
      ensures device.State() == NextDevice(old(View(regs)), old(device.State()), StoreAt(offset, value))
      ensures View(regs) == Next(old(View(regs)), old(device.State()), StoreAt(offset, value))
    {
      hide Run, Started, Calls;
      ghost var b, d := View(regs), device.State();
      if offset + 4 > PAGE_BYTES {
        NoCalls(b, d, StoreAt(offset, value));
        return;
      }
      if offset == REG_FIFO {
        WriteFifo(device, regs, value);
        return;
      }
      StoreWord(regs, offset, value);
      assert View(regs) == b.(page := Store32(b.page, offset, value));
      if offset == REG_ROMCNT && value >= CARD_ACTIVATE && direction == NoPhase {
        CommandUnderStatus(b.page, value);
        StartCallsAfterStore(b, d, value);
        StartCommand(device, regs);
      } else {
        NoCalls(b, d, StoreAt(offset, value));
      }
    }

    method EndTransfer(regs: array<byte>)
      requires regs.Length == PAGE_BYTES && buffer.Length == BLOCK_BYTES && regs != buffer
      modifies this`direction, regs
      ensures Valid() && View(regs) ==
        Bus(Store32(old(regs[..]), REG_ROMCNT, Released(Load32(old(regs[..]), REG_ROMCNT))), Idle,
                fault, faultCount, commands)
    {
      direction := NoPhase;
      StoreWord(regs, REG_ROMCNT, Released(Load32(regs[..], REG_ROMCNT)));
    }

    method StartCommand(device: Device, regs: array<byte>)
      requires Ready(device, regs) && direction == NoPhase
      modifies this, buffer, regs, device.Repr()
      ensures Ready(device, regs) && device.Repr() == old(device.Repr())
      ensures device.State() == Run(old(device.State()), StartCalls(old(View(regs))))
      ensures View(regs) == Started(old(View(regs)), old(device.State()))
    {
      hide Run, Inv, Step, Released, WithReady, Load32, Store32, OpenedPhase, CallsOfCommand, PhaseForOpcode;
      ghost var b, d := View(regs), device.State();
      var romcnt := Load32(regs[..], REG_ROMCNT);
      var cmd := Command(regs[..]);
      device.CountTransfer();
      commands := Wrap64(commands + 1);
      if !cmd.valid || BlockField(romcnt) != PhaseForOpcode(cmd.opcode).blockField {
        assert StartCalls(b) == [OpCountTransfer];
        RunOfOne(d, OpCountTransfer);
        if cmd.valid {
          fault := BlockSizeMismatch;
          faultCount := Wrap32(faultCount + 1);
        }
        EndTransfer(regs);
        return;
      }
      CountThen(d, CallsOfCommand(cmd));
      IdleOrOpen(cmd, d);
      RunAccepted(device, regs, cmd);
    }

    method RunAccepted(device: Device, regs: array<byte>, cmd: WireCommand)
      requires Ready(device, regs) && direction == NoPhase
      modifies this`index, this`commandWord, this`wordIndex, this`wordCount, this`direction,
               buffer, regs, device.Repr()
      ensures Ready(device, regs) && device.Repr() == old(device.Repr())
      ensures device.State() == Run(old(device.State()), CallsOfCommand(cmd))
      ensures
        var b, phase := old(View(regs)), OpenedPhase(cmd, old(device.State()));
        View(regs) ==
          if phase == Idle then NtrBus.EndTransfer(b)
          else b.(phase := phase, page := Store32(b.page, REG_ROMCNT, WithReady(Load32(b.page, REG_ROMCNT))))
    {
      hide Run, Inv, Step, Released, WithReady, Load32, Splice, OpenedPhase, CallsOfCommand, PhaseForOpcode;
      IdleOrOpen(cmd, device.State());
      index := cmd.index;
      commandWord := cmd.word;
      var phase := PhaseForOpcode(cmd.opcode);
      if phase.direction == NoPhase {
        RunImmediate(device, cmd);
        EndTransfer(regs);
        return;
      }
      OpenPhase(device, cmd, phase);
      StoreWord(regs, REG_ROMCNT, WithReady(Load32(regs[..], REG_ROMCNT)));
    }

    /** F0, F1 and F3 act at once; opcodes outside the family do nothing. */
    method RunImmediate(device: Device, cmd: WireCommand)
      requires device.Valid() && PhaseForOpcode(cmd.opcode).direction == NoPhase
      modifies device.Repr()
      ensures device.Valid() && device.Repr() == old(device.Repr())
      ensures device.State() == Run(old(device.State()), CallsOfCommand(cmd))
    {
      hide Inv, Run, Exec, WriteReg, WritePayloadWord;
      ghost var d := device.State();
      RunOfNothing(d);
      if cmd.opcode == WIRE_WRITE_REG {
        RunOfOne(d, OpWriteReg(cmd.index, cmd.word));
        device.WriteReg(cmd.index, cmd.word);
      } else if cmd.opcode == WIRE_EXEC {
        RunOfOne(d, OpExec(cmd.index, cmd.word));
        device.Exec(cmd.index, cmd.word);
      } else if cmd.opcode == WIRE_WRITE_PAYLOAD_WORD {
        RunOfOne(d, OpWritePayloadWord(cmd.index, cmd.word));
        device.WritePayloadWord(cmd.index, cmd.word);
      }
    }

    method OpenPhase(device: Device, cmd: WireCommand, phase: ExpectedPhase)
      requires Valid() && device.Valid() && {this, buffer} !! device.Repr()
      requires phase == PhaseForOpcode(cmd.opcode) && phase.direction != NoPhase
      requires index == cmd.index && commandWord == cmd.word
      modifies this`wordIndex, this`wordCount, this`direction, buffer, device.Repr()
      ensures Valid() && device.Valid() && device.Repr() == old(device.Repr())
      ensures device.State() == Run(old(device.State()), CallsOfCommand(cmd))
      ensures CurrentPhase() == OpenedPhase(cmd, old(device.State()))
    {
      hide Inv, Run, ReadBlockBytes, ReadBlock, Splice, WordsOf, BytesOf;
      ghost var d := device.State();
      RunOfNothing(d);
      wordIndex := 0;
      wordCount := phase.bytes / 4;
      direction := phase.direction;
      if direction == CartToConsole {
        Clear(buffer);
        if cmd.opcode == WIRE_READ_REG {
          RunOfOne(d, OpReadReg(cmd.index));
          var value := device.ReadReg(cmd.index);
          StoreWord(buffer, 0, value);
          OnlyWord(value);
        } else {
          RunOfOne(d, OpReadBlock(cmd.index, cmd.word, Some(BLOCK_BYTES)));
          var written := device.ReadBlock(cmd.index, cmd.word, buffer);
          assert buffer[0..4 * wordCount] == buffer[..];
        }
      } else {
        assert buffer[..0] == [];
        assert WordsOf([]) == [] by { NoWords(); }
      }
    }

    method ReadFifo(device: Device, regs: array<byte>) returns (value: u32)
      requires Ready(device, regs)
      modifies this, regs
      ensures Ready(device, regs) && device.State() == old(device.State())
      ensures value == Loaded(old(View(regs)), LoadAt(REG_FIFO))
      ensures View(regs) == AfterFifoRead(old(View(regs)))
    {
      hide Inv, Released, Load32, Store32, WordsOf;
      if direction != CartToConsole {
        fault := FifoOutOfPhase;
        faultCount := Wrap32(faultCount + 1);
        return 0;
      }
      value := TakeWord();
      if wordIndex >= wordCount {
        EndTransfer(regs);
      }
    }

    method TakeWord() returns (value: u32)
      requires Valid() && direction == CartToConsole
      modifies this`wordIndex
      ensures buffer.Length == BLOCK_BYTES && wordIndex == old(wordIndex) + 1
      ensures
        var words := old(CurrentPhase()).words;
        && |words| == wordCount - old(wordIndex) > 0
        && value == words[0]
        && WordsOf(buffer[4 * wordIndex..4 * wordCount]) == words[1..]
    {
      WordsAt(buffer[..], wordIndex, wordCount);
      value := WordAt(buffer[..], 4 * wordIndex);
      assert buffer[4 * wordIndex..4 * wordCount] == buffer[..][4 * wordIndex..4 * wordCount];
      wordIndex := wordIndex + 1;
      assert buffer[4 * wordIndex..4 * wordCount] == buffer[..][4 * wordIndex..4 * wordCount];
    }

    method WriteFifo(device: Device, regs: array<byte>, value: u32)
      requires Ready(device, regs)
      modifies this, buffer, regs, device.Repr()
      ensures Ready(device, regs) && device.Repr() == old(device.Repr())
      ensures device.State() == NextDevice(old(View(regs)), old(device.State()), StoreAt(REG_FIFO, value))
      ensures View(regs) == AfterFifoWrite(old(View(regs)), value)
    {
      hide Inv, Run, Released, Load32, Store32, DeviceModel.WriteBlock;
      ghost var b, d := View(regs), device.State();
      RunOfNothing(d);
      if direction != ConsoleToCart {
        fault := FifoOutOfPhase;
        faultCount := Wrap32(faultCount + 1);
        return;
      }
      AppendWord(value);
      if wordIndex >= wordCount {
        FinishBlock(device, regs);
      }
    }

    method AppendWord(value: u32)
      requires Valid() && direction == ConsoleToCart
      modifies this`wordIndex, buffer
      ensures buffer.Length == BLOCK_BYTES && wordIndex == old(wordIndex) + 1
      ensures WordsOf(buffer[..4 * wordIndex]) == WordsOf(old(buffer[..4 * wordIndex])) + [value]
    {
      WordsGrow(buffer[..], wordIndex, value);
      WordsOfGrown(buffer[..4 * wordIndex], value);
      ghost var before := buffer[..];
      StoreWord(buffer, 4 * wordIndex, value);
      assert before[..4 * wordIndex] == old(buffer[..4 * wordIndex]);
      wordIndex := wordIndex + 1;
      assert buffer[..4 * wordIndex] == buffer[..][..4 * wordIndex];
    }

    /** The whole block has arrived: hand it over, then close. */
    method FinishBlock(device: Device, regs: array<byte>)
      requires buffer.Length == BLOCK_BYTES && direction == ConsoleToCart
      requires wordIndex == wordCount == BLOCK_WORDS
      requires device.Valid() && regs.Length == PAGE_BYTES && regs != buffer
      requires {this, buffer, regs} !! device.Repr()
      modifies this`direction, regs, device.Repr()
      ensures Ready(device, regs) && device.Repr() == old(device.Repr())
      ensures device.State() == Run(old(device.State()),
        [OpWriteBlock(index, commandWord, Some(BytesOf(WordsOf(buffer[..4 * wordIndex]))))])
      ensures View(regs) ==
        Bus(Store32(old(regs[..]), REG_ROMCNT, Released(Load32(old(regs[..]), REG_ROMCNT))), Idle,
            fault, faultCount, commands)
    {
      hide Inv, Run, Released, Load32, Store32, DeviceModel.WriteBlock, WordsOf, BytesOf;
      assert buffer[..4 * wordIndex] == buffer[..];
      BytesOfWordsOf(buffer[..]);
      RunOfOne(device.State(), OpWriteBlock(index, commandWord, Some(buffer[..])));
      var status := device.WriteBlock(index, commandWord, Some(buffer[..]));
      EndTransfer(regs);
    }
  }

  /** The calls of a start, from the page after ROMCNT was written. */
  function StartCalls(b: Bus): seq<Op> {
    var cmd := Command(b.page);
    [OpCountTransfer] + (if Accepts(cmd, Load32(b.page, REG_ROMCNT)) then CallsOfCommand(cmd) else [])
  }

  lemma StartCallsAfterStore(b: Bus, d: DeviceState, value: u32)
    requires Starts(b, StoreAt(REG_ROMCNT, value))
    ensures Calls(b, StoreAt(REG_ROMCNT, value))
         == StartCalls(b.(page := Store32(b.page, REG_ROMCNT, value)))
  {
    CommandUnderStatus(b.page, value);
  }

  lemma NoCalls(b: Bus, d: DeviceState, a: Access)
    requires a.StoreAt? && a.offset != REG_FIFO && !Starts(b, a)
    ensures NextDevice(b, d, a) == d
  {
    RunOfNothing(d);
  }

  lemma CountThen(d: DeviceState, ops: seq<Op>)
    ensures Run(d, [OpCountTransfer] + ops) == Run(Step(d, OpCountTransfer), ops)
  {
    hide Step;
    RunConcat(d, [OpCountTransfer], ops);
    RunOfOne(d, OpCountTransfer);
  }

  /** A command opens a phase exactly when its opcode has one; counting does not change which. */
  lemma IdleOrOpen(cmd: WireCommand, d: DeviceState)
    ensures OpenedPhase(cmd, d) == Idle <==> PhaseForOpcode(cmd.opcode).direction == NoPhase
    ensures OpenedPhase(cmd, Step(d, OpCountTransfer)) == OpenedPhase(cmd, d)
  {
  }
}
