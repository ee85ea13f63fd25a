/** The wire formats by byte offset, in literal numbers.

    The encoders and decoders of Protocol are stated on words; here they are pinned to the layout a
    client in another language would be written from. */
module WireFormat {
  import opened Words
  import opened Protocol

  /** Four digits in base 256, the least significant first. */
  function Number(b0: byte, b1: byte, b2: byte, b3: byte): u32 {
    (b0 as int) + 256 * (b1 as int) + 65536 * (b2 as int) + 16777216 * (b3 as int)
  }

  /** The little-endian 32-bit number at an offset. */
  function U32At(bs: seq<byte>, at: nat): u32
    requires at + 4 <= |bs|
  {
    Number(bs[at], bs[at + 1], bs[at + 2], bs[at + 3])
  }

  function U16At(bs: seq<byte>, at: nat): nat
    requires at + 2 <= |bs|
  {
    Number(bs[at], bs[at + 1], 0, 0)
  }

  /** The eight bytes OP 47 4B II VV VV VV VV, the value most significant byte first. */
  predicate CommandAt(bs: CommandBytes, opcode: byte, index: byte, word: u32) {
    && bs[0] == opcode && bs[1] == 0x47 && bs[2] == 0x4B && bs[3] == index
    && Number(bs[7], bs[6], bs[5], bs[4]) == word
  }

  predicate DescriptorAt(bs: seq<byte>, d: Descriptor)
    requires |bs| == 64
  {
    && U32At(bs, 0) == d.magic && U16At(bs, 4) == d.version && U16At(bs, 6) == d.opcode
    && U32At(bs, 8) == d.sequence && U32At(bs, 12) == d.flags
    && U32At(bs, 16) == d.inputHandle && U32At(bs, 20) == d.inputOffset && U32At(bs, 24) == d.inputLength
    && U32At(bs, 28) == d.outputHandle && U32At(bs, 32) == d.outputOffset && U32At(bs, 36) == d.outputLength
    && U32At(bs, 40) == d.kernelId && U32At(bs, 44) == d.workUnits
    && U32At(bs, 48) == d.arg0 && U32At(bs, 52) == d.arg1 && U32At(bs, 56) == d.arg2 && U32At(bs, 60) == d.arg3
  }

  predicate CompletionAt(bs: seq<byte>, c: Completion)
    requires |bs| == 64
  {
    && U32At(bs, 0) == c.magic && U16At(bs, 4) == c.version && U16At(bs, 6) == c.status
    && U32At(bs, 8) == c.sequence && U32At(bs, 12) == c.jobHandle
    && U32At(bs, 16) == c.modeledUs && U32At(bs, 20) == c.speedupX1000 && U32At(bs, 24) == c.checksum
    && U32At(bs, 28) == c.softwareUs && U32At(bs, 32) == c.outputLength
    && U32At(bs, 36) == c.transportNs && U32At(bs, 40) == c.batchSize
    && forall k | 44 <= k < 64 :: bs[k] == 0
  }

  // ---------------------------------------------------------------------------
  // Words in an image
  // ---------------------------------------------------------------------------

  lemma WordAt(bs: seq<byte>, i: nat)
    requires 4 * i + 4 <= |bs|
    ensures U32At(bs, 4 * i) == WordsOf(bs)[i]
  {
  }

  lemma Halves(b0: byte, b1: byte, b2: byte, b3: byte)
    ensures Number(b0, b1, b2, b3) % 65536 == Number(b0, b1, 0, 0)
    ensures Number(b0, b1, b2, b3) / 65536 == Number(b2, b3, 0, 0)
  {
    assert Number(b0, b1, b2, b3) == Number(b0, b1, 0, 0) + 65536 * Number(b2, b3, 0, 0);
  }

  lemma HalvesAt(bs: seq<byte>, i: nat)
    requires 4 * i + 4 <= |bs|
    ensures U16At(bs, 4 * i) == U32At(bs, 4 * i) % 65536
    ensures U16At(bs, 4 * i + 2) == U32At(bs, 4 * i) / 65536
  {
    Halves(bs[4 * i], bs[4 * i + 1], bs[4 * i + 2], bs[4 * i + 3]);
    hide Number;
  }

  /** A word stored in an image is the little-endian number of its four bytes. */
  lemma StoredWordAt(v: u32)
    ensures U32At(BytesOf([v]), 0) == v
  {
    WordsOfBytesOf([v]);
    WordAt(BytesOf([v]), 0);
  }

  // ---------------------------------------------------------------------------
  // Commands
  // ---------------------------------------------------------------------------

  /** A command is GekkoPAK's, with a given opcode, index and value, exactly when its bytes say so;
      and encoding makes those bytes. */
  lemma CommandLayout(bs: CommandBytes, opcode: byte, index: byte, word: u32)
    ensures DecodeCommand(bs) == WireCommand(opcode, index, word, true) <==> CommandAt(bs, opcode, index, word)
    ensures EncodeCommand(opcode, index, word) == bs <==> CommandAt(bs, opcode, index, word)
  {
    var found := DecodeCommand(bs);
    CommandFields(bs);
    hide Number;
    CommandIsUnique(bs);
    CommandRoundTrip(opcode, index, word);
    hide DecodeCommand, EncodeCommand;
    if EncodeCommand(opcode, index, word) == bs {
      assert found == WireCommand(opcode, index, word, true);
    }
  }

  lemma CommandFields(bs: CommandBytes)
    ensures
      var c := DecodeCommand(bs);
      && c.opcode == bs[0] && c.index == bs[3]
      && c.word == Number(bs[7], bs[6], bs[5], bs[4])
      && (c.valid <==> bs[1] == 0x47 && bs[2] == 0x4B)
  {
  }

  // ---------------------------------------------------------------------------
  // Records
  // ---------------------------------------------------------------------------

  lemma DescriptorFields(bs: seq<byte>)
    requires |bs| == 64
    ensures DescriptorAt(bs, DecodeDescriptor(bs))
  {
    hide *;
    hide WordsAt, DescriptorAt, DescriptorFromWords, WordsOf;
    BytesOfWordsOf(bs);
    ImageFields(WordsOf(bs), bs);
    DescriptorOfWords(bs, WordsOf(bs));
    Decoded(bs);
  }

  lemma Decoded(bs: seq<byte>)
    requires |bs| == 64
    ensures DecodeDescriptor(bs) == DescriptorFromWords(WordsOf(bs))
  {
  }

  lemma DescriptorOfWords(bs: seq<byte>, ws: seq<u32>)
    requires |bs| == 64 && |ws| == 16 && WordsAt(bs, ws)
    ensures DescriptorAt(bs, DescriptorFromWords(ws))
  {
    hide U32At, U16At;
  }

  /** Every field of a descriptor is the little-endian number at its offset, in both directions. */
  lemma DescriptorLayout(bs: seq<byte>, d: Descriptor)
    requires |bs| == 64
    ensures DecodeDescriptor(bs) == d <==> DescriptorAt(bs, d)
    ensures EncodeDescriptor(d) == bs <==> DescriptorAt(bs, d)
  {
    DescriptorFields(bs);
    DescriptorIsUnique(bs);
    DescriptorRoundTrip(d);
    hide DecodeDescriptor, EncodeDescriptor, U32At, U16At;
  }

  /** Every field of a completion record is the little-endian number at its offset, and the reserved
      bytes are zero. */
  lemma CompletionLayout(c: Completion)
    ensures CompletionAt(EncodeCompletion(c), c)
  {
    var ws := CompletionWords(c);
    var bs := BytesOf(ws);
    hide BytesOf, WordsOf, CompletionWords, U32At, U16At;
    CompletionNumbers(c, ws);
    ImageFields(ws, bs);
    ImageTail(ws, bs);
    HalfWords(c.version, c.status);
    assert EncodeCompletion(c) == bs;
  }

  lemma CompletionNumbers(c: Completion, ws: seq<u32>)
    requires ws == CompletionWords(c)
    ensures ws[0] == c.magic && ws[1] == c.version + 0x1_0000 * c.status && ws[2] == c.sequence
    ensures ws[3] == c.jobHandle && ws[4] == c.modeledUs && ws[5] == c.speedupX1000
    ensures ws[6] == c.checksum && ws[7] == c.softwareUs && ws[8] == c.outputLength
    ensures ws[9] == c.transportNs && ws[10] == c.batchSize
    ensures forall i | 11 <= i < 16 :: ws[i] == 0
  {
  }

  /** Sixteen words, the second also by its halves, stand at their places. */
  predicate WordsAt(bs: seq<byte>, ws: seq<u32>)
    requires |bs| == 64 && |ws| == 16
  {
    && U32At(bs, 0) == ws[0] && U16At(bs, 4) == ws[1] % 65536 && U16At(bs, 6) == ws[1] / 65536
    && U32At(bs, 8) == ws[2] && U32At(bs, 12) == ws[3] && U32At(bs, 16) == ws[4]
    && U32At(bs, 20) == ws[5] && U32At(bs, 24) == ws[6] && U32At(bs, 28) == ws[7]
    && U32At(bs, 32) == ws[8] && U32At(bs, 36) == ws[9] && U32At(bs, 40) == ws[10]
    && U32At(bs, 44) == ws[11] && U32At(bs, 48) == ws[12] && U32At(bs, 52) == ws[13]
    && U32At(bs, 56) == ws[14] && U32At(bs, 60) == ws[15]
  }

  lemma ImageFields(ws: seq<u32>, bs: seq<byte>)
    requires |bs| == 64 && |ws| == 16 && bs == BytesOf(ws)
    ensures WordsAt(bs, ws)
  {
    WordsOfBytesOf(ws);
    hide BytesOf, WordsOf, U32At, U16At;
    WordAt(bs, 0);
    WordAt(bs, 1);
    WordAt(bs, 2);
    WordAt(bs, 3);
    WordAt(bs, 4);
    WordAt(bs, 5);
    WordAt(bs, 6);
    WordAt(bs, 7);
    WordAt(bs, 8);
    WordAt(bs, 9);
    WordAt(bs, 10);
    WordAt(bs, 11);
    WordAt(bs, 12);
    WordAt(bs, 13);
    WordAt(bs, 14);
    WordAt(bs, 15);
    HalvesAt(bs, 1);
  }

  lemma ImageTail(ws: seq<u32>, bs: seq<byte>)
    requires |ws| == 16 && bs == BytesOf(ws)
    requires forall i | 11 <= i < 16 :: ws[i] == 0
    ensures forall k | 44 <= k < 64 :: bs[k] == 0
  {
    forall k | 44 <= k < 64
      ensures bs[k] == 0
    {
      ImageByte(ws, k / 4, k % 4);
    }
  }

  lemma SameNumberSameBytes(a: seq<byte>, b: seq<byte>, i: nat, j: nat)
    requires i + 4 <= |a| && j + 4 <= |b| && U32At(a, i) == U32At(b, j)
    ensures a[i..i + 4] == b[j..j + 4]
  {
    BytesWord(a[i], a[i + 1], a[i + 2], a[i + 3]);
    BytesWord(b[j], b[j + 1], b[j + 2], b[j + 3]);
    assert Le32(a[i], a[i + 1], a[i + 2], a[i + 3]) == Le32(b[j], b[j + 1], b[j + 2], b[j + 3]);
    hide Le32, ByteAt, U32At;
  }

  lemma WholeWord(bs: seq<byte>, at: nat)
    requires at + 4 <= |bs|
    ensures U32At(bs, at) == U16At(bs, at) + 65536 * U16At(bs, at + 2)
  {
  }

  lemma SpelledOut(bs: seq<byte>, at: nat, b0: byte, b1: byte, b2: byte, b3: byte)
    requires at + 4 <= |bs|
    ensures U32At(bs, at) == Number(b0, b1, b2, b3) <==> bs[at..at + 4] == [b0, b1, b2, b3]
  {
    var four := bs[at..at + 4];
    assert four == [bs[at], bs[at + 1], bs[at + 2], bs[at + 3]];
    if U32At(bs, at) == Number(b0, b1, b2, b3) {
      SameNumberSameBytes(bs, [b0, b1, b2, b3], at, 0);
    }
  }

  lemma LowestBit(bs: seq<byte>, at: nat)
    requires at + 4 <= |bs|
    ensures U32At(bs, at) % 2 == bs[at] % 2
  {
    var high: int := 128 * (bs[at + 1] as int) + 32768 * (bs[at + 2] as int) + 8388608 * (bs[at + 3] as int);
    assert U32At(bs, at) == bs[at] + 2 * high;
  }

  /** A descriptor is accepted exactly when it starts GKD1, version 1, opcode 1; its bytes travel
      inline exactly when bit 0 of its flags is set. */
  lemma DescriptorAccepted(bs: seq<byte>)
    requires |bs| == 64
    ensures
      var d := DecodeDescriptor(bs);
      && (d.Accepted() <==> bs[0..4] == [0x47, 0x4B, 0x44, 0x31] && bs[4..8] == [0x01, 0x00, 0x01, 0x00])
      && (d.Inline() <==> bs[12] % 2 == 1)
  {
    DescriptorFields(bs);
    SpelledOut(bs, 0, 0x47, 0x4B, 0x44, 0x31);
    SpelledOut(bs, 4, 0x01, 0x00, 0x01, 0x00);
    WholeWord(bs, 4);
    LowestBit(bs, 12);
    assert Number(0x47, 0x4B, 0x44, 0x31) == 0x3144_4B47 && Number(1, 0, 1, 0) == 0x1_0001;
    hide DecodeDescriptor, U32At, U16At, Number;
  }

  /** A record begins 47 4B 43 31 01 00, the pattern the bring-up looks for, when its magic and
      version are the protocol's. */
  lemma CompletionOpening(c: Completion)
    requires c.magic == COMPLETION_MAGIC && c.version == BLOCK_VERSION
    ensures EncodeCompletion(c)[0..4] == [0x47, 0x4B, 0x43, 0x31] && EncodeCompletion(c)[4..6] == [0x01, 0x00]
  {
    CompletionLayout(c);
    hide EncodeCompletion, U32At, U16At;
    SpelledOut(EncodeCompletion(c), 0, 0x47, 0x4B, 0x43, 0x31);
    LowPair(EncodeCompletion(c), 4);
  }

  lemma LowPair(bs: seq<byte>, at: nat)
    requires at + 2 <= |bs| && U16At(bs, at) == 1
    ensures bs[at..at + 2] == [0x01, 0x00]
  {
  }

  /** The fields of the F4 and F5 value words. */
  lemma BlockWords(low: u16, high: u16)
    ensures WriteBlockLength(low + 65536 * high) == low
    ensures ReadBlockOffset(low + 65536 * high) == low
    ensures ReadBlockLength(low + 65536 * high) == high
  {
  }
}
