/** The GekkoPAK wire protocol: commands, staging registers, block records. */
module Protocol {
  import opened Words

  // ---------------------------------------------------------------------------
  // Wire commands
  // ---------------------------------------------------------------------------

  const MAGIC0: byte := 0x47
  const MAGIC1: byte := 0x4B

  const WIRE_WRITE_REG: byte := 0xF0
  const WIRE_EXEC: byte := 0xF1
  const WIRE_READ_REG: byte := 0xF2
  const WIRE_WRITE_PAYLOAD_WORD: byte := 0xF3
  const WIRE_WRITE_BLOCK: byte := 0xF4
  const WIRE_READ_BLOCK: byte := 0xF5

  datatype WireCommand = WireCommand(opcode: byte, index: byte, word: u32, valid: bool)

  type CommandBytes = c: seq<byte> | |c| == 8 witness [0, 0, 0, 0, 0, 0, 0, 0]

  /** The value word travels most significant byte first. */
  function DecodeCommand(bytes: CommandBytes): WireCommand {
    WireCommand(bytes[0], bytes[3], Le32(bytes[7], bytes[6], bytes[5], bytes[4]),
                bytes[1] == MAGIC0 && bytes[2] == MAGIC1)
  }

  function EncodeCommand(opcode: byte, index: byte, word: u32): CommandBytes {
    [opcode, MAGIC0, MAGIC1, index, ByteAt(word, 3), ByteAt(word, 2), ByteAt(word, 1), ByteAt(word, 0)]
  }

  lemma CommandRoundTrip(opcode: byte, index: byte, word: u32)
    ensures DecodeCommand(EncodeCommand(opcode, index, word)) == WireCommand(opcode, index, word, true)
  {
    WordBytes(word);
  }

  /** Every valid command has exactly one wire form. */
  lemma CommandIsUnique(bytes: CommandBytes)
    ensures var c := DecodeCommand(bytes);
            c.valid <==> bytes == EncodeCommand(c.opcode, c.index, c.word)
  {
    BytesWord(bytes[7], bytes[6], bytes[5], bytes[4]);
  }

  // ---------------------------------------------------------------------------
  // Staging registers, high-level commands, statuses
  // ---------------------------------------------------------------------------

  const ARG0 := 0
  const ARG1 := 1
  const ARG2 := 2
  const ARG3 := 3
  const PAYLOAD_LEN := 4
  const RESULT := 5
  const OUT0 := 6
  const OUT1 := 7
  const OUT2 := 8
  const OUT3 := 9
  const STAGE_REGISTERS := 16
  const EVENT_COMPLETION_DEPTH: byte := 0xFE

  const HELLO: byte := 1
  const GET_CAPS: byte := 2
  const ALLOC: byte := 3
  const UPLOAD: byte := 4
  const SUBMIT: byte := 5
  const POLL: byte := 6
  const COLLECT: byte := 7
  const FREE: byte := 8
  const COMPLETE: byte := 9

  const OK: u16 := 0
  const BAD_COMMAND: u16 := 1
  const BAD_HANDLE: u16 := 2
  const NO_MEMORY: u16 := 3
  const NOT_READY: u16 := 4
  const BAD_DESCRIPTOR: u16 := 5
  const BAD_BLOCK: u16 := 6
  const QUEUE_FULL: u16 := 7

  const PROTOCOL_VERSION: u32 := 0x0001_0000
  const TRANSPORT_GENERATION: u32 := 2
  const COMPLETE_ACK: u32 := 0x5353_4150

  // ---------------------------------------------------------------------------
  // Block records
  // ---------------------------------------------------------------------------

  const BLOCK_BYTES := 512
  const RECORD_BYTES := 64
  const MAX_DESCRIPTORS := 8
  const SELECTOR_SUBMISSION: byte := 0
  const SELECTOR_COMPLETION: byte := 1

  const DESCRIPTOR_MAGIC: u32 := 0x3144_4B47
  const COMPLETION_MAGIC: u32 := 0x3143_4B47
  const BLOCK_VERSION: u16 := 1
  const OPCODE_SUBMIT: u16 := 1

  /** Meaningful length of an F4, bits 15:0. */
  function WriteBlockLength(word: u32): u16 { word % 0x1_0000 }

  function ReadBlockOffset(word: u32): u16 { word % 0x1_0000 }

  function ReadBlockLength(word: u32): u16 { word / 0x1_0000 }

  datatype Descriptor = Descriptor(
    magic: u32, version: u16, opcode: u16, sequence: u32, flags: u32,
    inputHandle: u32, inputOffset: u32, inputLength: u32,
    outputHandle: u32, outputOffset: u32, outputLength: u32,
    kernelId: u32, workUnits: u32, arg0: u32, arg1: u32, arg2: u32, arg3: u32)
  {
    predicate Inline() { flags % 2 == 1 }

    predicate Accepted() {
      magic == DESCRIPTOR_MAGIC && version == BLOCK_VERSION && opcode == OPCODE_SUBMIT
    }

    function InlineLength(): nat { if Inline() then inputLength else 0 }
  }

  datatype Completion = Completion(
    magic: u32, version: u16, status: u16, sequence: u32, jobHandle: u32,
    modeledUs: u32, speedupX1000: u32, checksum: u32, softwareUs: u32,
    outputLength: u32, transportNs: u32, batchSize: u32)

  function DescriptorWords(d: Descriptor): (ws: seq<u32>)
    ensures |ws| == 16
  {
    [d.magic, d.version + 0x1_0000 * d.opcode, d.sequence, d.flags,
     d.inputHandle, d.inputOffset, d.inputLength, d.outputHandle,
     d.outputOffset, d.outputLength, d.kernelId, d.workUnits,
     d.arg0, d.arg1, d.arg2, d.arg3]
  }

  function DescriptorFromWords(ws: seq<u32>): Descriptor
    requires |ws| == 16
  {
    Descriptor(ws[0], ws[1] % 0x1_0000, ws[1] / 0x1_0000, ws[2], ws[3],
               ws[4], ws[5], ws[6], ws[7], ws[8], ws[9], ws[10], ws[11],
               ws[12], ws[13], ws[14], ws[15])
  }

  function EncodeDescriptor(d: Descriptor): (bs: seq<byte>)
    ensures |bs| == RECORD_BYTES
  {
    BytesOf(DescriptorWords(d))
  }

  function DecodeDescriptor(bs: seq<byte>): Descriptor
    requires |bs| == RECORD_BYTES
  {
    DescriptorFromWords(WordsOf(bs))
  }

  lemma HalfWords(low: u16, high: u16)
    ensures (low + 0x1_0000 * high) % 0x1_0000 == low
    ensures (low + 0x1_0000 * high) / 0x1_0000 == high
  {
  }

  lemma DescriptorWordsRoundTrip(d: Descriptor)
    ensures DescriptorFromWords(DescriptorWords(d)) == d
  {
    HalfWords(d.version, d.opcode);
  }

  lemma DescriptorWordsUnique(ws: seq<u32>)
    requires |ws| == 16
    ensures DescriptorWords(DescriptorFromWords(ws)) == ws
  {
    assert ws[1] % 0x1_0000 + 0x1_0000 * (ws[1] / 0x1_0000) == ws[1];
  }

  lemma DescriptorRoundTrip(d: Descriptor)
    ensures DecodeDescriptor(EncodeDescriptor(d)) == d
  {
    var ws := DescriptorWords(d);
    DescriptorWordsRoundTrip(d);
    WordsOfBytesOf(ws);
  }

  lemma DescriptorIsUnique(bs: seq<byte>)
    requires |bs| == RECORD_BYTES
    ensures EncodeDescriptor(DecodeDescriptor(bs)) == bs
  {
    BytesOfWordsOf(bs);
    DescriptorWordsUnique(WordsOf(bs));
  }

  function CompletionWords(c: Completion): (ws: seq<u32>)
    ensures |ws| == 16
  {
    [c.magic, c.version + 0x1_0000 * c.status, c.sequence, c.jobHandle,
     c.modeledUs, c.speedupX1000, c.checksum, c.softwareUs,
     c.outputLength, c.transportNs, c.batchSize, 0, 0, 0, 0, 0]
  }

  function EncodeCompletion(c: Completion): (bs: seq<byte>)
    ensures |bs| == RECORD_BYTES
  {
    BytesOf(CompletionWords(c))
  }

  function DecodeCompletion(bs: seq<byte>): Completion
    requires |bs| == RECORD_BYTES
  {
    CompletionFromWords(WordsOf(bs))
  }

  function CompletionFromWords(ws: seq<u32>): Completion
    requires |ws| == 16
  {
    Completion(ws[0], ws[1] % 0x1_0000, ws[1] / 0x1_0000, ws[2], ws[3],
               ws[4], ws[5], ws[6], ws[7], ws[8], ws[9], ws[10])
  }

  lemma CompletionWordsRoundTrip(c: Completion)
    ensures CompletionFromWords(CompletionWords(c)) == c
  {
    HalfWords(c.version, c.status);
  }

  lemma CompletionRoundTrip(c: Completion)
    ensures DecodeCompletion(EncodeCompletion(c)) == c
  {
    CompletionWordsRoundTrip(c);
    WordsOfBytesOf(CompletionWords(c));
  }
}
