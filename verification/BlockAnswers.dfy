/** What an F4 answers, descriptor by descriptor, on the tables of the device and in literal bytes. */
module BlockAnswers {
  import opened Words
  import opened Protocol
  import opened DeviceModel
  import opened CompletionStream
  import opened BlockFormat
  import opened WireFormat

  // ---------------------------------------------------------------------------
  // Which blocks are accepted
  // ---------------------------------------------------------------------------

  predicate AllConsistent(items: seq<Item>) { forall k | 0 <= k < |items| :: items[k].Consistent() }

  predicate OpensDescriptor(bs: seq<byte>)
    requires |bs| >= 64
  {
    bs[0..4] == [0x47, 0x4B, 0x44, 0x31] && bs[4..8] == [0x01, 0x00, 0x01, 0x00]
  }

  /** No further descriptor starts: there is no room for one, or a zero word stands there. */
  predicate EndsBlock(rest: seq<byte>) { |rest| < 64 || U32At(rest, 0) == 0 }

  /** Something stands where a descriptor could, and is none of version 1. */
  predicate ForeignBlock(rest: seq<byte>) { |rest| >= 64 && U32At(rest, 0) != 0 && !OpensDescriptor(rest) }

  /** A descriptor announces more inline bytes than follow it. */
  predicate CutShort(rest: seq<byte>) {
    |rest| >= 64 && OpensDescriptor(rest) && rest[12] % 2 == 1 && U32At(rest, 24) > |rest| - 64
  }

  lemma HeadMeaning(rest: seq<byte>)
    ensures ParseHead(rest) == End <==> EndsBlock(rest)
    ensures ParseHead(rest) == Fault(5) <==> ForeignBlock(rest)
    ensures ParseHead(rest) == Fault(6) <==> CutShort(rest)
  {
    if |rest| >= 64 {
      FirstDescriptor(rest, rest[..64]);
    }
    hide DecodeDescriptor, U32At, OpensDescriptor;
  }

  lemma FirstDescriptor(rest: seq<byte>, image: seq<byte>)
    requires |rest| >= 64 && image == rest[..64]
    ensures
      var d := DecodeDescriptor(image);
      && d.magic == U32At(rest, 0) && d.inputLength == U32At(rest, 24)
      && (d.Accepted() <==> OpensDescriptor(rest)) && (d.Inline() <==> rest[12] % 2 == 1)
      && (OpensDescriptor(rest) ==> U32At(rest, 0) != 0)
  {
    DescriptorFields(image);
    DescriptorAccepted(image);
    SameFront(rest, image);
    hide DecodeDescriptor, U32At, U16At, Number;
  }

  lemma SameFront(rest: seq<byte>, image: seq<byte>)
    requires |rest| >= 64 && image == rest[..64]
    ensures U32At(image, 0) == U32At(rest, 0) && U32At(image, 24) == U32At(rest, 24) && image[12] == rest[12]
    ensures image[0..4] == rest[0..4] && image[4..8] == rest[4..8]
    ensures OpensDescriptor(rest) ==> U32At(rest, 0) != 0
  {
    SpelledOut(rest, 0, 0x47, 0x4B, 0x44, 0x31);
  }

  /** What follows the first items decides what becomes of the block. */
  lemma {:induction false} ParsePrefix(items: seq<Item>, rest: seq<byte>, count: nat)
    requires count + |items| <= 8 && AllConsistent(items)
    ensures
      var p := ParseItems(Serialise(items) + rest, count);
      if count + |items| == 8 || ParseHead(rest) == End then p == Items(items)
      else ParseHead(rest).Fault? ==> p == Bad(ParseHead(rest).status)
  {
    hide ParseHead, ItemBytes;
    if |items| == 0 {
      assert Serialise(items) + rest == rest;
    } else {
      var tail := Serialise(items[1..]) + rest;
      assert Serialise(items) + rest == ItemBytes(items[0]) + tail;
      HeadOfItem(items[0], tail);
      ParsePrefix(items[1..], rest, count + 1);
      assert [items[0]] + items[1..] == items;
    }
  }

  /** Every block is the serialisation of some descriptors and a rest of one of three kinds. */
  lemma {:induction false} BlockCases(data: seq<byte>, count: nat) returns (items: seq<Item>, rest: seq<byte>)
    requires count <= 8
    ensures data == Serialise(items) + rest && count + |items| <= 8 && AllConsistent(items)
    ensures count + |items| == 8 || EndsBlock(rest) || ForeignBlock(rest) || CutShort(rest)
    decreases 8 - count
  {
    hide ParseHead, ItemBytes, EndsBlock, ForeignBlock, CutShort;
    HeadMeaning(data);
    HeadKinds(data);
    if count < 8 && ParseHead(data).One? {
      var head := ParseHead(data);
      ItemOfHead(data);
      var more: seq<Item>;
      more, rest := BlockCases(head.rest, count + 1);
      items := [head.item] + more;
      HeadConsistent(data);
      assert items[1..] == more;
      assert Serialise(items) + rest == ItemBytes(head.item) + (Serialise(more) + rest);
    } else {
      items, rest := [], data;
      assert Serialise([]) + rest == data;
    }
  }

  lemma HeadConsistent(data: seq<byte>)
    requires ParseHead(data).One?
    ensures ParseHead(data).item.Consistent()
  {
  }

  lemma HeadKinds(data: seq<byte>)
    ensures ParseHead(data).Fault? ==> ParseHead(data).status == 5 || ParseHead(data).status == 6
  {
  }

  /** The fate of an F4 in RESULT, and the descriptors it runs. */
  predicate BlockFate(s: DeviceState, op: Op, items: seq<Item>, status: nat) {
    AcceptedItems(op) == items && Step(s, op).stage[5] == status
  }

  /** An F4 with another selector or no usable length is refused with 6. */
  lemma MisaddressedBlock(s: DeviceState, index: byte, word: u32, data: seq<byte>)
    requires |data| == 512
    requires index != 0 || word % 65536 == 0 || word % 65536 > 512
    ensures BlockFate(s, OpWriteBlock(index, word, Some(data)), [], 6)
  {
    hide ParseBlock, RunItems;
  }

  lemma FateOfParse(s: DeviceState, word: u32, data: seq<byte>)
    requires |data| == 512 && 0 < word % 65536 <= 512
    ensures
      var op := OpWriteBlock(0, word, Some(data));
      match ParseBlock(data[..word % 65536])
      case Bad(status) => BlockFate(s, op, [], status)
      case Items(items) => BlockFate(s, op, items, if |s.queue| + |items| > 16 then 7 else 0)
  {
    hide ParseBlock, RunItems;
  }

  lemma ParsedBlock(items: seq<Item>, rest: seq<byte>)
    requires |items| <= 8 && AllConsistent(items)
    ensures
      var p := ParseBlock(Serialise(items) + rest);
      if |items| == 8 || ParseHead(rest) == End then p == (if |items| == 0 then Bad(5) else Items(items))
      else ParseHead(rest).Fault? ==> p == Bad(ParseHead(rest).status)
  {
    ParsePrefix(items, rest, 0);
    hide ParseItems, ParseHead, Serialise;
  }

  /** What an F4 runs and answers is decided by the low half of its word and the bytes below it:
      5 when there is no descriptor or something else stands where one could, 6 when inline bytes are
      cut short, 7 when the queue has not room for all the records, else 0. */
  lemma BlockOutcome(s: DeviceState, word: u32, data: seq<byte>, items: seq<Item>, rest: seq<byte>)
    requires |data| == 512 && 0 < word % 65536 <= 512
    requires data[..word % 65536] == Serialise(items) + rest && |items| <= 8 && AllConsistent(items)
    ensures
      var op := OpWriteBlock(0, word, Some(data));
      && (0 < |items| && (|items| == 8 || EndsBlock(rest)) ==>
            BlockFate(s, op, items, if |s.queue| + |items| > 16 then 7 else 0))
      && (|items| == 0 && EndsBlock(rest) ==> BlockFate(s, op, [], 5))
      && (|items| < 8 && ForeignBlock(rest) ==> BlockFate(s, op, [], 5))
      && (|items| < 8 && CutShort(rest) ==> BlockFate(s, op, [], 6))
  {
    ParsedBlock(items, rest);
    HeadMeaning(rest);
    FateOfParse(s, word, data);
    hide ParseBlock, ParseHead, EndsBlock, ForeignBlock, CutShort, BlockFate, Serialise;
  }

  /** Any one to eight descriptors with their inline bytes that fit are run when they are sent, padded
      to 512 bytes, under their length in bytes. */
  lemma PaddedBlock(s: DeviceState, items: seq<Item>, block: seq<byte>)
    requires 1 <= |items| <= 8 && AllConsistent(items) && |Serialise(items)| <= 512
    requires block == Serialise(items) + Zeros(512 - |Serialise(items)|)
    ensures
      BlockFate(s, OpWriteBlock(0, |Serialise(items)|, Some(block)), items,
                if |s.queue| + |items| > 16 then 7 else 0)
  {
    hide Serialise, Step, AcceptedItems;
    SomeBytes(items);
    var n := |Serialise(items)|;
    assert block[..n] == Serialise(items) + [];
    BlockOutcome(s, n, block, items, []);
  }

  lemma SomeBytes(items: seq<Item>)
    requires |items| > 0
    ensures |Serialise(items)| >= 64
  {
  }
}
