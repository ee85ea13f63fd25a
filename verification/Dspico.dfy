/** The DSpico firmware handlers under the host shim: two command words, a FIFO directive that opens
    a data phase, a DMA or a payload callback that fills it. One object holds the static state of the
    two files. */
module Dspico {
  import opened Words
  import opened Protocol
  import opened Timing
  import opened DeviceModel
  import opened DeviceInvariant
  import opened DeviceCore
  import opened DspicoModel

  const DISCRIMINATOR := 0x0047_4B00
  const READ_DIRECTIVE := 0x8000_0000
  const FIFO_SLOTS := 8

  datatype CommandResult = CommandResult(
    responseBytes: nat, directionMismatch: bool, payloadLengthMismatch: bool,
    declaredBytes: nat, suppliedBytes: nat)

  const LOCAL_BYTES := 0x1_0000
  const LOCAL_CONFIG := Config(true, LOCAL_BYTES, LOCAL_BYTES, 0x1F, DEFAULT_TIMING)

  const BLANK_RESULT := CommandResult(0, false, false, 0, 0)

  /** The most significant byte of a command word arrives first. */
  function BigEndian(b0: byte, b1: byte, b2: byte, b3: byte): u32 { Le32(b3, b2, b1, b0) }

  predicate CommandMatches(cmd0: u32, opcode: byte) {
    cmd0 - cmd0 % 0x100 == 0x100_0000 * opcode + DISCRIMINATOR
  }

  function CommandIndex(cmd0: u32): byte { cmd0 % 0x100 }

  /** The handlers' test on the first command word is the wire format's test on four bytes. */
  lemma MatchesMeansValid(command: CommandBytes, opcode: byte)
    ensures
      var cmd0 := BigEndian(command[0], command[1], command[2], command[3]);
      var cmd := DecodeCommand(command);
      && (CommandMatches(cmd0, opcode) <==> cmd.opcode == opcode && cmd.valid)
      && CommandIndex(cmd0) == cmd.index
  {
    var cmd0 := BigEndian(command[0], command[1], command[2], command[3]);
    var high: int := 0x1_0000 * (command[0] as int) + 0x100 * (command[1] as int) + command[2];
    assert cmd0 == 0x100 * high + command[3];
    assert DISCRIMINATOR == 0x100 * (0x100 * MAGIC0 + MAGIC1);
  }

  lemma DecodedFields(command: CommandBytes)
    ensures DecodeCommand(command).opcode == command[0]
    ensures DecodeCommand(command).word == BigEndian(command[4], command[5], command[6], command[7])
  {
  }

  class DspicoTarget {
    const device: Device
    const blockTx: array<byte>
    const blockRx: array<byte>
    var f4Enter: u32
    var f4Accepted: u32
    var f4Complete: u32
    var f4Parsed: u32

    // The PIO transmit FIFO and the DMA call of the transaction in flight.
    const fifo: array<u32>
    var fifoCount: nat
    var dmaData: array?<byte>
    var dmaLength: u32

    // The ROM emulator context.
    var wordIdx: int
    var cmd0: u32
    var cmd1: u32
    var readDestination: array?<byte>
    var readLimit: u32
    var readComplete: bool

    ghost predicate Valid()
      reads this, blockTx, blockRx, fifo, device, device.pool, device.stage, device.payload,
            device.allocations, device.jobs, device.completions
    {
      && device.Valid()
      && blockTx.Length == BLOCK_BYTES && blockRx.Length == BLOCK_BYTES && fifo.Length == FIFO_SLOTS
      && blockTx != blockRx && fifo as object != blockTx && fifo as object != blockRx
      && {this, blockTx, blockRx, fifo} !! device.Repr()
    }

    ghost function View(): Firmware
      requires device.Layout()
      reads this, device, device.pool, device.stage, device.payload, device.allocations,
            device.jobs, device.completions
    {
      Firmware(device.State(), f4Enter, f4Accepted, f4Complete, f4Parsed)
    }

    /** Static storage. */
    constructor (device: Device)
      ensures this.device == device
      ensures fresh(this) && fresh(blockTx) && fresh(blockRx) && fresh(fifo)
      ensures blockTx.Length == BLOCK_BYTES && blockRx.Length == BLOCK_BYTES && fifo.Length == FIFO_SLOTS
      ensures blockTx != blockRx && fifo as object != blockTx && fifo as object != blockRx
    {
      this.device := device;
      blockTx := new byte[BLOCK_BYTES];
      blockRx := new byte[BLOCK_BYTES];
      fifo := new u32[FIFO_SLOTS];
      fifoCount, dmaData, dmaLength := 0, null, 0;
      wordIdx, cmd0, cmd1 := 0, 0, 0;
      readDestination, readLimit, readComplete := null, 0, false;
      f4Enter, f4Accepted, f4Complete, f4Parsed := 0, 0, 0, 0;
    }

    /** The firmware's reset: 64 KiB of pool, counters at zero. */
    method Reset(local: array<byte>)
      requires device.Layout() && local.Length == LOCAL_BYTES
      requires blockTx.Length == BLOCK_BYTES && blockRx.Length == BLOCK_BYTES && fifo.Length == FIFO_SLOTS
      requires blockTx != blockRx && fifo as object != blockTx && fifo as object != blockRx
      requires {this, blockTx, blockRx, fifo} !! device.Repr() + {local}
      requires local != device.payload && local as object != device.stage
      modifies this, blockTx, blockRx, device.Repr(), local
      ensures Valid() && View() == Firmware(InitialState(LOCAL_CONFIG), 0, 0, 0, 0)
      ensures device.pool == local
    {
      hide Inv;
      Clear(blockTx);
      Clear(blockRx);
      f4Enter, f4Accepted, f4Complete, f4Parsed := 0, 0, 0, 0;
      device.Reset(LOCAL_CONFIG, local);
      BeginTransaction();
    }

    // -------------------------------------------------------------------------
    // Primitives of the shim
    // -------------------------------------------------------------------------

    method BeginTransaction()
      modifies this`fifoCount, this`dmaData, this`dmaLength, this`wordIdx, this`cmd0, this`cmd1,
               this`readDestination, this`readLimit, this`readComplete
      ensures fifoCount == 0 && dmaData == null && readDestination == null && !readComplete
    {
      fifoCount, dmaData, dmaLength := 0, null, 0;
      wordIdx, cmd0, cmd1 := 0, 0, 0;
      readDestination, readLimit, readComplete := null, 0, false;
    }

    method RecordFifoWrite(value: u32)
      requires fifo.Length == FIFO_SLOTS
      modifies this`fifoCount, fifo
      ensures fifoCount == old(fifoCount) + 1
      ensures fifo[..] == if old(fifoCount) < FIFO_SLOTS then old(fifo[..])[old(fifoCount) := value] else old(fifo[..])
    {
      if fifoCount < FIFO_SLOTS {
        fifo[fifoCount] := value;
      }
      fifoCount := fifoCount + 1;
    }

    method NoPayload()
      requires fifo.Length == FIFO_SLOTS && fifoCount == 0
      modifies this`fifoCount, fifo
      ensures fifoCount == 1 && fifo[0] == 0
    {
      RecordFifoWrite(0);
    }

    method BeginWrite(bytes: u16)
      requires fifo.Length == FIFO_SLOTS && fifoCount == 0 && bytes > 0
      modifies this`fifoCount, fifo
      ensures fifoCount == 1 && fifo[0] == bytes - 1
    {
      RecordFifoWrite(bytes - 1);
    }

    method BeginRead(bytes: u16)
      requires fifo.Length == FIFO_SLOTS && fifoCount == 0 && bytes > 0
      modifies this`fifoCount, fifo
      ensures fifoCount == 1 && fifo[0] == READ_DIRECTIVE + bytes - 1
    {
      RecordFifoWrite(READ_DIRECTIVE + bytes - 1);
    }

    method DmaToBus(data: array<byte>, length: u32)
      modifies this`dmaData, this`dmaLength
      ensures dmaData == data && dmaLength == length
    {
      dmaData, dmaLength := data, length;
    }

    method FinishCmd1WithReadPayload(destination: array<byte>, length: u32)
      modifies this`readDestination, this`readLimit, this`readComplete, this`wordIdx
      ensures readDestination == destination && readLimit == length / 4 + 1 && readComplete
    {
      readDestination, readLimit, readComplete := destination, length / 4 + 1, true;
      wordIdx := 2;
    }

    // -------------------------------------------------------------------------
    // Handlers of the second command word
    // -------------------------------------------------------------------------

    method WriteRegCmd1()
      requires Valid() && fifoCount == 0
      modifies this`fifoCount, this`wordIdx, fifo, device.Repr()
      ensures Valid() && fifoCount == 1 && fifo[0] == 0 && device.Repr() == old(device.Repr())
      ensures device.State() == if CommandMatches(cmd0, WIRE_WRITE_REG)
        then DeviceModel.WriteReg(old(device.State()), CommandIndex(cmd0), cmd1) else old(device.State())
    {
      hide Inv, DeviceModel.WriteReg;
      NoPayload();
      if CommandMatches(cmd0, WIRE_WRITE_REG) {
        device.WriteReg(CommandIndex(cmd0), cmd1);
      }
      wordIdx := 0;
    }

    method ExecCmd1()
      requires Valid() && fifoCount == 0
      modifies this`fifoCount, this`wordIdx, fifo, device.Repr()
      ensures Valid() && fifoCount == 1 && fifo[0] == 0 && device.Repr() == old(device.Repr())
      ensures device.State() == if CommandMatches(cmd0, WIRE_EXEC)
        then DeviceModel.Exec(old(device.State()), CommandIndex(cmd0)) else old(device.State())
    {
      hide Inv, DeviceModel.Exec;
      NoPayload();
      if CommandMatches(cmd0, WIRE_EXEC) {
        device.Exec(CommandIndex(cmd0), cmd1);
      }
      wordIdx := 0;
    }

    method PayloadWordCmd1()
      requires Valid() && fifoCount == 0
      modifies this`fifoCount, this`wordIdx, fifo, device.Repr()
      ensures Valid() && fifoCount == 1 && fifo[0] == 0 && device.Repr() == old(device.Repr())
      ensures device.State() == if CommandMatches(cmd0, WIRE_WRITE_PAYLOAD_WORD)
        then DeviceModel.WritePayloadWord(old(device.State()), CommandIndex(cmd0), cmd1) else old(device.State())
    {
      hide Inv, DeviceModel.WritePayloadWord;
      NoPayload();
      if CommandMatches(cmd0, WIRE_WRITE_PAYLOAD_WORD) {
        device.WritePayloadWord(CommandIndex(cmd0), cmd1);
      }
      wordIdx := 0;
    }

    method ReadRegCmd1()
      requires Valid() && fifoCount == 0
      modifies this`fifoCount, this`wordIdx, fifo
      ensures Valid() && fifoCount == 2 && fifo[0] == 3
      ensures device.State() == old(device.State())
      ensures fifo[1] == RegisterValue(View(),
        WireCommand(WIRE_READ_REG, CommandIndex(cmd0), cmd1, CommandMatches(cmd0, WIRE_READ_REG)))
    {
      hide Inv;
      var value := 0;
      if CommandMatches(cmd0, WIRE_READ_REG) {
        var index := CommandIndex(cmd0);
        if index == 0xF0 {
          value := f4Enter;
        } else if index == 0xF1 {
          value := f4Accepted;
        } else if index == 0xF2 {
          value := f4Complete;
        } else if index == 0xF3 {
          value := f4Parsed;
        } else {
          value := device.ReadReg(index);
        }
      }
      BeginWrite(4);
      RecordFifoWrite(value);
      wordIdx := 0;
    }

    method WriteBlockCmd1()
      requires Valid() && fifoCount == 0 && readDestination == null
      modifies this`fifoCount, this`wordIdx, this`f4Enter, this`f4Accepted, this`readDestination,
               this`readLimit, this`readComplete, fifo, device.Repr()
      ensures Valid() && fifoCount == 1 && device.Repr() == old(device.Repr())
      ensures
        var cmd := WireCommand(WIRE_WRITE_BLOCK, CommandIndex(cmd0), cmd1, CommandMatches(cmd0, WIRE_WRITE_BLOCK));
        && View() == AfterBlock(old(View()), cmd, None)
        && (BeginsBlock(cmd) ==>
              && fifo[0] == READ_DIRECTIVE + BLOCK_BYTES - 1
              && readDestination == blockTx && readLimit == BLOCK_BYTES / 4 + 1 && readComplete)
        && (!BeginsBlock(cmd) ==> fifo[0] == 0)
    {
      hide Inv, DeviceModel.WriteBlock, CommandMatches, CommandIndex, Wrap32;
      f4Enter := Wrap32(f4Enter + 1);
      var meaningful := WriteBlockLength(cmd1);
      if !CommandMatches(cmd0, WIRE_WRITE_BLOCK) || CommandIndex(cmd0) != SELECTOR_SUBMISSION
         || meaningful == 0 || meaningful > BLOCK_BYTES {
        if CommandMatches(cmd0, WIRE_WRITE_BLOCK) {
          var status := device.WriteBlock(CommandIndex(cmd0), cmd1, None);
        }
        NoPayload();
        wordIdx := 0;
        return;
      }
      f4Accepted := Wrap32(f4Accepted + 1);
      BeginRead(BLOCK_BYTES);
      FinishCmd1WithReadPayload(blockTx, BLOCK_BYTES);
    }

    /** Runs once the data phase has delivered all 512 bytes. */
    method BlockWriteComplete()
      requires Valid()
      modifies this`f4Complete, this`f4Parsed, device.Repr()
      ensures Valid() && device.Repr() == old(device.Repr())
      ensures
        var fw := old(View());
        var (d, status) := DeviceModel.WriteBlock(fw.device, CommandIndex(cmd0), cmd1, Some(blockTx[..]));
        View() == fw.(device := d, completed := Wrap32(fw.completed + 1),
                          parsed := if status == OK then Wrap32(fw.parsed + 1) else fw.parsed)
    {
      hide Inv, DeviceModel.WriteBlock;
      f4Complete := Wrap32(f4Complete + 1);
      var status := device.WriteBlock(CommandIndex(cmd0), cmd1, Some(blockTx[..]));
      if status == OK {
        f4Parsed := Wrap32(f4Parsed + 1);
      }
    }

    method ReadBlockCmd1()
      requires Valid() && fifoCount == 0
      modifies this`fifoCount, this`wordIdx, this`dmaData, this`dmaLength, fifo, blockRx, device.Repr()
      ensures Valid() && fifoCount == 1 && fifo[0] == BLOCK_BYTES - 1 && device.Repr() == old(device.Repr())
      ensures dmaData == blockRx && dmaLength == BLOCK_BYTES
      ensures
        var cmd := WireCommand(WIRE_READ_BLOCK, CommandIndex(cmd0), cmd1, CommandMatches(cmd0, WIRE_READ_BLOCK));
        && View() == AfterCommand(old(View()), cmd, None)
        && blockRx[..] == Response(old(View()), cmd)
    {
      hide Inv, DeviceModel.ReadBlock, ReadBlockBytes;
      if CommandMatches(cmd0, WIRE_READ_BLOCK) {
        var written := device.ReadBlock(CommandIndex(cmd0), cmd1, blockRx);
      } else {
        Clear(blockRx);
      }
      BeginWrite(BLOCK_BYTES);
      DmaToBus(blockRx, BLOCK_BYTES);
      wordIdx := 0;
    }

    // -------------------------------------------------------------------------
    // One transaction
    // -------------------------------------------------------------------------

    /** What the handlers leave behind for the bus: the directive, and what will fill the phase. */
    ghost predicate Declares(cmd: WireCommand, fw: Firmware)
      requires fifo.Length == FIFO_SLOTS
      reads this, fifo, blockRx
    {
      if cmd.opcode == WIRE_READ_REG then
        fifoCount == 2 && fifo[0] == 3 && fifo[1] == RegisterValue(fw, cmd) && dmaData == null
      else if cmd.opcode == WIRE_READ_BLOCK then
        && fifoCount == 1 && fifo[0] == BLOCK_BYTES - 1
        && dmaData == blockRx && dmaLength == BLOCK_BYTES && blockRx[..] == Response(fw, cmd)
      else if BeginsBlock(cmd) then
        && fifoCount == 1 && fifo[0] == READ_DIRECTIVE + BLOCK_BYTES - 1
        && readDestination == blockTx && readLimit == BLOCK_BYTES / 4 + 1 && readComplete
      else fifoCount == 1 && fifo[0] == 0
    }

    /** F0, F1 and F3, which have no data phase. */
    method DispatchPlain(command: CommandBytes)
      requires Valid() && fifoCount == 0
      requires command[0] == WIRE_WRITE_REG || command[0] == WIRE_EXEC || command[0] == WIRE_WRITE_PAYLOAD_WORD
      requires CommandMatches(cmd0, command[0]) == DecodeCommand(command).valid
      requires CommandIndex(cmd0) == DecodeCommand(command).index && cmd1 == DecodeCommand(command).word
      modifies this`fifoCount, this`wordIdx, fifo, device.Repr()
      ensures Valid() && device.Repr() == old(device.Repr()) && fifoCount == 1 && fifo[0] == 0
      ensures View() == AfterCommand(old(View()), DecodeCommand(command), None)
    {
      hide Inv, DeviceModel.WriteReg, DeviceModel.Exec, DeviceModel.WritePayloadWord, CommandMatches, CommandIndex;
      if command[0] == WIRE_WRITE_REG {
        WriteRegCmd1();
      } else if command[0] == WIRE_EXEC {
        ExecCmd1();
      } else {
        PayloadWordCmd1();
      }
    }

    /** Hands both command words to the installed handlers; false when the opcode has none. */
    method Dispatch(command: CommandBytes) returns (handled: bool)
      requires Valid() && fifoCount == 0 && dmaData == null && readDestination == null
      modifies this, fifo, blockRx, device.Repr()
      ensures Valid() && device.Repr() == old(device.Repr())
      ensures CommandIndex(cmd0) == DecodeCommand(command).index && cmd1 == DecodeCommand(command).word
      ensures handled <==> WIRE_WRITE_REG <= command[0] <= WIRE_READ_BLOCK
      ensures View() == AfterCommand(old(View()), DecodeCommand(command), None)
      ensures handled ==> Declares(DecodeCommand(command), old(View()))
    {
      hide Inv, AfterBlock, Response, RegisterValue, DeviceModel.WriteReg, DeviceModel.Exec, Le32,
           DeviceModel.WritePayloadWord, DeviceModel.ReadBlock, CommandMatches, CommandIndex,
           BigEndian, DecodeCommand;
      cmd0 := BigEndian(command[0], command[1], command[2], command[3]);
      cmd1 := BigEndian(command[4], command[5], command[6], command[7]);
      MatchesMeansValid(command, command[0]);
      DecodedFields(command);
      wordIdx := 1;
      if command[0] == WIRE_READ_REG {
        ReadRegCmd1();
      } else if command[0] == WIRE_WRITE_BLOCK {
        WriteBlockCmd1();
      } else if command[0] == WIRE_READ_BLOCK {
        ReadBlockCmd1();
      } else if WIRE_WRITE_REG <= command[0] <= WIRE_READ_BLOCK {
        DispatchPlain(command);
      } else {
        wordIdx := 0;
        return false;
      }
      return true;
    }

    method IssueCommand(command: CommandBytes, inData: Option<seq<byte>>, out: array?<byte>)
      returns (result: CommandResult)
      requires Valid() && out !in device.Repr()
      requires out != blockTx && out != blockRx && (out as object?) != fifo
      modifies this, fifo, blockTx, blockRx, device.Repr(), out
      ensures Valid() && device.Repr() == old(device.Repr())
      ensures
        var cmd := DecodeCommand(command);
        var response := Response(old(View()), cmd);
        var room := out != null && |response| <= out.Length;
        && View() == AfterCommand(old(View()), cmd, inData)
        && !result.payloadLengthMismatch
        && (result.directionMismatch <==>
              (BeginsBlock(cmd) && !Supplied(inData)) || (response != [] && !room))
        && result.declaredBytes == (if BeginsBlock(cmd) then BLOCK_BYTES else |response|)
        && (room ==> out[..] == Splice(old(out[..]), 0, response) && result.responseBytes == |response|)
        && (out != null && !room ==> out[..] == old(out[..]))
    {
      hide Inv, AfterCommand, RegisterValue, ReadBlockBytes, CommandIndex;
      ghost var fw, cmd := View(), DecodeCommand(command);
      ResponseSize(fw, cmd);
      result := BLANK_RESULT;
      BeginTransaction();
      var handled := Dispatch(command);
      if !BeginsBlock(cmd) || !Supplied(inData) {
        OnlyBlocksUseData(fw, cmd, inData);
      }
      if !handled || fifoCount == 0 {
        return;
      }
      var directive := fifo[0];
      if directive == 0 {
        return;
      }
      if directive >= READ_DIRECTIVE {
        result := Receive(cmd, fw, directive, inData);
        return;
      }
      var declared := directive + 1;
      result := result.(declaredBytes := declared);
      if out == null || out.Length < declared {
        return result.(directionMismatch := true);
      }
      result := Respond(declared, out, result);
    }

    /** A console-to-cartridge data phase. */
    method Receive(ghost cmd: WireCommand, ghost fw: Firmware, directive: u32, inData: Option<seq<byte>>)
      returns (result: CommandResult)
      requires Valid() && BeginsBlock(cmd) && Declares(cmd, fw) && directive == fifo[0]
      requires CommandIndex(cmd0) == cmd.index && cmd1 == cmd.word
      requires View() == AfterCommand(fw, cmd, None)
      modifies this`f4Complete, this`f4Parsed, blockTx, device.Repr()
      ensures Valid() && device.Repr() == old(device.Repr())
      ensures View() == AfterCommand(fw, cmd, inData)
      ensures result.directionMismatch <==> !Supplied(inData)
      ensures !result.payloadLengthMismatch && result.declaredBytes == BLOCK_BYTES && result.responseBytes == 0
    {
      hide Inv, AfterCommand, CommandIndex, DeviceModel.WriteBlock;
      var expected := directive - READ_DIRECTIVE + 1;
      result := BLANK_RESULT.(declaredBytes := expected,
                              suppliedBytes := if inData.None? then 0 else |inData.value|);
      if inData.None? || |inData.value| < expected {
        OnlyBlocksUseData(fw, cmd, inData);
        return result.(directionMismatch := true);
      }
      if readLimit != expected / 4 + 1 {
        result := result.(payloadLengthMismatch := true);
      }
      ReceiveBlock(inData.value[..expected]);
      BlockThenData(fw, cmd, inData.value);
    }

    /** The payload lands in the destination the handler named, and its callback runs. */
    method ReceiveBlock(data: seq<byte>)
      requires Valid() && |data| == BLOCK_BYTES && readDestination == blockTx && readComplete
      modifies this`f4Complete, this`f4Parsed, blockTx, device.Repr()
      ensures Valid() && device.Repr() == old(device.Repr())
      ensures
        var fw := old(View());
        var (d, status) := DeviceModel.WriteBlock(fw.device, CommandIndex(cmd0), cmd1, Some(data));
        View() == fw.(device := d, completed := Wrap32(fw.completed + 1),
                          parsed := if status == OK then Wrap32(fw.parsed + 1) else fw.parsed)
    {
      hide Inv, DeviceModel.WriteBlock;
      CopyInto(readDestination, 0, data);
      assert blockTx[..] == data;
      if readComplete {
        BlockWriteComplete();
      }
    }

    /** The cartridge drives back a DMA buffer, or the words it pushed, low byte first. */
    method Respond(declared: nat, out: array<byte>, start: CommandResult) returns (result: CommandResult)
      requires Valid() && out !in device.Repr() && declared <= out.Length && fifoCount <= FIFO_SLOTS
      requires out != blockTx && out != blockRx && (out as object) != fifo
      requires dmaData == null ==> fifoCount == 2 && declared == 4
      requires dmaData != null ==> dmaData == blockRx && dmaLength == declared == BLOCK_BYTES
      modifies out
      ensures Valid() && device.State() == old(device.State())
      ensures result.payloadLengthMismatch == start.payloadLengthMismatch
      ensures result.directionMismatch == start.directionMismatch
      ensures result.declaredBytes == start.declaredBytes && result.responseBytes == declared
      ensures out[..] == Splice(old(out[..]), 0,
                                if dmaData == null then BytesOf([fifo[1]]) else old(blockRx[..]))
    {
      hide Inv, Splice;
      result := start;
      CopyInto(out, 0, Zeros(declared));
      SpliceTwice(old(out[..]), Zeros(declared), if dmaData == null then BytesOf([fifo[1]]) else blockRx[..]);
      if dmaData != null {
        result := result.(suppliedBytes := dmaLength);
        if dmaLength != declared {
          result := result.(payloadLengthMismatch := true);
        }
        var copy := Min(dmaLength, declared);
        assert dmaData[..copy] == blockRx[..];
        CopyInto(out, 0, dmaData[..copy]);
        return result.(responseBytes := copy);
      }
      var written, i := 0, 1;
      while i < fifoCount && written + 4 <= declared
        invariant 1 <= i <= 2 && written == 4 * (i - 1)
        invariant out[..] == if i == 1 then Splice(old(out[..]), 0, Zeros(declared))
                             else Splice(old(out[..]), 0, BytesOf([fifo[1]]))
        decreases fifoCount - i
      {
        CopyInto(out, written, BytesOf([fifo[i]]));
        written := written + 4;
        i := i + 1;
      }
      result := result.(suppliedBytes := 4 * (fifoCount - 1));
      if result.suppliedBytes != declared {
        result := result.(payloadLengthMismatch := true);
      }
      result := result.(responseBytes := written);
    }
  }

  lemma ResponseSize(fw: Firmware, cmd: WireCommand)
    ensures |Response(fw, cmd)| ==
      if cmd.opcode == WIRE_READ_REG then 4 else if cmd.opcode == WIRE_READ_BLOCK then BLOCK_BYTES else 0
  {
  }

  lemma SpliceTwice(s: seq<byte>, a: seq<byte>, b: seq<byte>)
    requires |a| == |b| <= |s|
    ensures Splice(Splice(s, 0, a), 0, b) == Splice(s, 0, b)
  {
  }

  /** Only a block that is begun looks at the console's data. */
  lemma OnlyBlocksUseData(fw: Firmware, cmd: WireCommand, data: Option<seq<byte>>)
    requires !BeginsBlock(cmd) || !Supplied(data)
    ensures AfterCommand(fw, cmd, data) == AfterCommand(fw, cmd, None)
  {
  }

  lemma BlockThenData(fw: Firmware, cmd: WireCommand, data: seq<byte>)
    requires BeginsBlock(cmd) && |data| >= BLOCK_BYTES
    ensures
      var begun := AfterCommand(fw, cmd, None);
      var (d, status) := DeviceModel.WriteBlock(begun.device, cmd.index, cmd.word, Some(data[..BLOCK_BYTES]));
      AfterCommand(fw, cmd, Some(data)) ==
        begun.(device := d, completed := Wrap32(begun.completed + 1),
               parsed := if status == OK then Wrap32(begun.parsed + 1) else begun.parsed)
  {
    hide DeviceModel.WriteBlock;
  }
}
