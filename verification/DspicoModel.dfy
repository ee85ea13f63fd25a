/** What one command does to the DSpico firmware, and what it drives back, on values. */
module DspicoModel {
  import opened Words
  import opened Protocol
  import opened DeviceModel

  /** The shared device and the firmware's four F4 counters. */
  datatype Firmware = Firmware(
    device: DeviceState, entered: u32, accepted: u32, completed: u32, parsed: u32)

  const FIRST_COUNTER: byte := 0xF0
  const LAST_COUNTER: byte := 0xF3

  /** Reads of the firmware's own diagnostic window. */
  predicate Diagnostic(cmd: WireCommand) {
    cmd.valid && cmd.opcode == WIRE_READ_REG && FIRST_COUNTER <= cmd.index <= LAST_COUNTER
  }

  function Counter(fw: Firmware, index: byte): u32 {
    if index == 0xF0 then fw.entered
    else if index == 0xF1 then fw.accepted
    else if index == 0xF2 then fw.completed
    else fw.parsed
  }

  function RegisterValue(fw: Firmware, cmd: WireCommand): u32 {
    if !cmd.valid then 0
    else if FIRST_COUNTER <= cmd.index <= LAST_COUNTER then Counter(fw, cmd.index)
    else ReadReg(fw.device, cmd.index)
  }

  /** The firmware starts the data phase of an F4 only for a block it can hand over. */
  predicate BeginsBlock(cmd: WireCommand) {
    && cmd.opcode == WIRE_WRITE_BLOCK && cmd.valid && cmd.index == SELECTOR_SUBMISSION
    && 0 < WriteBlockLength(cmd.word) <= BLOCK_BYTES
  }

  predicate Supplied(data: Option<seq<byte>>) { data.Some? && |data.value| >= BLOCK_BYTES }

  function AfterBlock(fw: Firmware, cmd: WireCommand, data: Option<seq<byte>>): Firmware {
    var entered := fw.(entered := Wrap32(fw.entered + 1));
    if BeginsBlock(cmd) then
      var begun := entered.(accepted := Wrap32(entered.accepted + 1));
      if !Supplied(data) then begun
      else
        var (device, status) := WriteBlock(fw.device, cmd.index, cmd.word, Some(data.value[..BLOCK_BYTES]));
        begun.(device := device, completed := Wrap32(begun.completed + 1),
               parsed := if status == OK then Wrap32(begun.parsed + 1) else begun.parsed)
    else if cmd.valid then entered.(device := WriteBlock(fw.device, cmd.index, cmd.word, None).0)
    else entered
  }

  function AfterCommand(fw: Firmware, cmd: WireCommand, data: Option<seq<byte>>): Firmware {
    if cmd.opcode == WIRE_WRITE_BLOCK then AfterBlock(fw, cmd, data)
    else if !cmd.valid then fw
    else if cmd.opcode == WIRE_WRITE_REG then fw.(device := WriteReg(fw.device, cmd.index, cmd.word))
    else if cmd.opcode == WIRE_EXEC then fw.(device := Exec(fw.device, cmd.index))
    else if cmd.opcode == WIRE_WRITE_PAYLOAD_WORD then
      fw.(device := WritePayloadWord(fw.device, cmd.index, cmd.word))
    else if cmd.opcode == WIRE_READ_BLOCK then
      fw.(device := ReadBlock(fw.device, cmd.index, cmd.word, Some(BLOCK_BYTES)))
    else fw
  }

  /** The bytes of the cartridge-to-console data phase. */
  function Response(fw: Firmware, cmd: WireCommand): seq<byte> {
    if cmd.opcode == WIRE_READ_REG then BytesOf([RegisterValue(fw, cmd)])
    else if cmd.opcode == WIRE_READ_BLOCK then
      if cmd.valid then ReadBlockBytes(fw.device, cmd.index, cmd.word, BLOCK_BYTES) else Zeros(BLOCK_BYTES)
    else []
  }

  /** The shim reports no mismatch: the caller offers the block a handler asks for, and has room for
      what a handler sends. */
  predicate ShimAccepts(fw: Firmware, cmd: WireCommand, data: Option<seq<byte>>, room: nat) {
    (BeginsBlock(cmd) ==> Supplied(data)) && |Response(fw, cmd)| <= room
  }
}
