/** The descriptor block as a serialisation of its items. */
module BlockFormat {
  import opened Words
  import opened Protocol
  import opened DeviceModel

  function ItemBytes(item: Item): seq<byte> {
    EncodeDescriptor(item.desc) + (if item.input.Some? then item.input.value else [])
  }

  function Serialise(items: seq<Item>): seq<byte> {
    if |items| == 0 then [] else ItemBytes(items[0]) + Serialise(items[1..])
  }

  /** Zero padding of any length reads as the end of the block. */
  lemma PaddingEnds(n: nat)
    ensures ParseHead(Zeros(n)) == End
  {
    if n >= RECORD_BYTES {
      var image := Zeros(n)[..RECORD_BYTES];
      var ws := WordsOf(image);
      assert ws[0] == Le32(image[0], image[1], image[2], image[3]);
    }
  }

  lemma HeadOfItem(item: Item, rest: seq<byte>)
    requires item.Consistent()
    ensures ParseHead(ItemBytes(item) + rest) == One(item, rest)
  {
    hide EncodeDescriptor, DecodeDescriptor;
    var data := ItemBytes(item) + rest;
    assert data[..RECORD_BYTES] == EncodeDescriptor(item.desc);
    DescriptorRoundTrip(item.desc);
    var n := item.desc.InlineLength();
    assert data[RECORD_BYTES + n..] == rest;
    if item.input.Some? {
      assert data[RECORD_BYTES..RECORD_BYTES + n] == item.input.value;
    }
  }

  lemma {:induction false} ParseAfter(items: seq<Item>, rest: seq<byte>, count: nat)
    requires count + |items| <= MAX_DESCRIPTORS
    requires forall k | 0 <= k < |items| :: items[k].Consistent()
    requires count + |items| == MAX_DESCRIPTORS || ParseHead(rest) == End
    ensures ParseItems(Serialise(items) + rest, count) == Items(items)
  {
    hide ParseHead, ItemBytes;
    if |items| == 0 {
      assert Serialise(items) + rest == rest;
    } else {
      var tail := Serialise(items[1..]) + rest;
      assert Serialise(items) + rest == ItemBytes(items[0]) + tail;
      HeadOfItem(items[0], tail);
      ParseAfter(items[1..], rest, count + 1);
      assert [items[0]] + items[1..] == items;
    }
  }

  /** Parsing a serialised block, padded with any number of zeros, gives back its items. */
  lemma BlockRoundTrip(items: seq<Item>, padding: nat)
    requires 1 <= |items| <= MAX_DESCRIPTORS
    requires forall k | 0 <= k < |items| :: items[k].Consistent()
    ensures ParseBlock(Serialise(items) + Zeros(padding)) == Items(items)
  {
    PaddingEnds(padding);
    ParseAfter(items, Zeros(padding), 0);
  }

  lemma ItemOfHead(data: seq<byte>)
    requires ParseHead(data).One?
    ensures data == ItemBytes(ParseHead(data).item) + ParseHead(data).rest
  {
    hide EncodeDescriptor, DecodeDescriptor;
    DescriptorIsUnique(data[..RECORD_BYTES]);
    var head := ParseHead(data);
    var n := head.item.desc.InlineLength();
    if head.item.input.None? {
      assert data == data[..RECORD_BYTES] + data[RECORD_BYTES..];
    } else {
      assert data == data[..RECORD_BYTES] + data[RECORD_BYTES..RECORD_BYTES + n] + data[RECORD_BYTES + n..];
    }
  }

  /** What was parsed is what the block says: its items, serialised, are the front of the block, and
      what follows them does not start another. */
  lemma {:induction false} ParsedIsSerialised(data: seq<byte>, count: nat) returns (rest: seq<byte>)
    requires count <= MAX_DESCRIPTORS && ParseItems(data, count).Items?
    ensures
      var items := ParseItems(data, count).items;
      && data == Serialise(items) + rest
      && (count + |items| == MAX_DESCRIPTORS || ParseHead(rest) == End)
    decreases MAX_DESCRIPTORS - count
  {
    hide ParseHead, ItemBytes;
    if count < MAX_DESCRIPTORS && ParseHead(data).One? {
      var head := ParseHead(data);
      ItemOfHead(data);
      rest := ParsedIsSerialised(head.rest, count + 1);
      var items := ParseItems(data, count).items;
      assert items[0] == head.item && items[1..] == ParseItems(head.rest, count + 1).items;
      assert Serialise(items) + rest == ItemBytes(head.item) + (Serialise(items[1..]) + rest);
    } else {
      rest := data;
      assert Serialise([]) + rest == data;
    }
  }

  /** A block is accepted with given items exactly when it is their serialisation followed by bytes
      that start no further descriptor. */
  lemma BlockAcceptance(data: seq<byte>, items: seq<Item>)
    requires 1 <= |items| <= MAX_DESCRIPTORS
    requires forall k | 0 <= k < |items| :: items[k].Consistent()
    ensures ParseBlock(data) == Items(items) <==>
      exists rest :: data == Serialise(items) + rest
                  && (|items| == MAX_DESCRIPTORS || ParseHead(rest) == End)
  {
    hide ParseHead;
    if ParseBlock(data) == Items(items) {
      var rest := ParsedIsSerialised(data, 0);
      assert data == Serialise(items) + rest;
    }
    forall rest | data == Serialise(items) + rest && (|items| == MAX_DESCRIPTORS || ParseHead(rest) == End)
      ensures ParseBlock(data) == Items(items)
    {
      ParseAfter(items, rest, 0);
    }
  }
}
