/** Bytes, machine words and little-endian memory images.

    Integers are mathematical; every truncation the C++ code performs is written out with
    `Wrap32` or with an explicit remainder. */
module Words {
  datatype Option<+T> = None | Some(value: T)

  type byte = x: int | 0 <= x < 0x100
  type u16 = x: int | 0 <= x < 0x1_0000
  type u32 = x: int | 0 <= x < 0x1_0000_0000
  type u64 = x: int | 0 <= x < 0x1_0000_0000_0000_0000

  function Wrap32(x: int): u32 { x % 0x1_0000_0000 }

  function Wrap64(x: int): u64 { x % 0x1_0000_0000_0000_0000 }

  function Min(a: int, b: int): int { if a < b then a else b }

  function Max(a: int, b: int): int { if a > b then a else b }

  function Zeros(n: nat): (z: seq<byte>)
    ensures |z| == n
  {
    seq(n, i => 0)
  }

  // ---------------------------------------------------------------------------
  // Little-endian words
  // ---------------------------------------------------------------------------

  function ByteAt(v: u32, k: nat): byte
    requires k < 4
  {
    if k == 0 then v % 0x100
    else if k == 1 then v / 0x100 % 0x100
    else if k == 2 then v / 0x1_0000 % 0x100
    else v / 0x100_0000
  }

  function Le32(b0: byte, b1: byte, b2: byte, b3: byte): u32 {
    b0 + 0x100 * b1 + 0x1_0000 * b2 + 0x100_0000 * b3
  }

  function BytesOf(ws: seq<u32>): (bs: seq<byte>)
    ensures |bs| == 4 * |ws|
  {
    seq(4 * |ws|, i requires 0 <= i < 4 * |ws| => ByteAt(ws[i / 4], i % 4))
  }

  function WordsOf(bs: seq<byte>): (ws: seq<u32>)
    ensures |ws| == |bs| / 4
  {
    seq(|bs| / 4, i requires 0 <= i < |bs| / 4 =>
      Le32(bs[4 * i], bs[4 * i + 1], bs[4 * i + 2], bs[4 * i + 3]))
  }

  lemma WordBytes(v: u32)
    ensures Le32(ByteAt(v, 0), ByteAt(v, 1), ByteAt(v, 2), ByteAt(v, 3)) == v
  {
    assert v / 0x100 / 0x100 == v / 0x1_0000;
    assert v / 0x1_0000 / 0x100 == v / 0x100_0000;
  }

  lemma BytesWord(b0: byte, b1: byte, b2: byte, b3: byte)
    ensures var v := Le32(b0, b1, b2, b3);
            && ByteAt(v, 0) == b0 && ByteAt(v, 1) == b1
            && ByteAt(v, 2) == b2 && ByteAt(v, 3) == b3
  {
    var v := Le32(b0, b1, b2, b3);
    var hi := b1 + 0x100 * b2 + 0x1_0000 * b3;
    assert v == 0x100 * hi + b0;
    assert v / 0x100 == hi;
    assert v / 0x1_0000 == b2 + 0x100 * b3;
  }

  lemma ImageByte(ws: seq<u32>, i: nat, k: nat)
    requires i < |ws| && k < 4
    ensures BytesOf(ws)[4 * i + k] == ByteAt(ws[i], k)
  {
    assert (4 * i + k) / 4 == i && (4 * i + k) % 4 == k;
  }

  lemma ImageReadsBack(bs: seq<byte>, i: nat, v: u32)
    requires 4 * i + 3 < |bs|
    requires bs[4 * i] == ByteAt(v, 0) && bs[4 * i + 1] == ByteAt(v, 1)
    requires bs[4 * i + 2] == ByteAt(v, 2) && bs[4 * i + 3] == ByteAt(v, 3)
    ensures WordsOf(bs)[i] == v
  {
    WordBytes(v);
  }

  /** A memory image written word by word reads back as the same words. */
  lemma WordsOfBytesOf(ws: seq<u32>)
    ensures WordsOf(BytesOf(ws)) == ws
  {
    forall i | 0 <= i < |ws|
      ensures WordsOf(BytesOf(ws))[i] == ws[i]
    {
      ImageByte(ws, i, 0);
      ImageByte(ws, i, 1);
      ImageByte(ws, i, 2);
      ImageByte(ws, i, 3);
      ImageReadsBack(BytesOf(ws), i, ws[i]);
    }
  }

  /** Reading a whole number of words and storing them again restores every byte. */
  lemma BytesOfWordsOf(bs: seq<byte>)
    requires |bs| % 4 == 0
    ensures BytesOf(WordsOf(bs)) == bs
  {
    forall i | 0 <= i < |bs|
      ensures BytesOf(WordsOf(bs))[i] == bs[i]
    {
      var k := i / 4;
      BytesWord(bs[4 * k], bs[4 * k + 1], bs[4 * k + 2], bs[4 * k + 3]);
      assert WordsOf(bs)[k] == Le32(bs[4 * k], bs[4 * k + 1], bs[4 * k + 2], bs[4 * k + 3]);
    }
  }

  lemma BytesOfConcat(a: seq<u32>, b: seq<u32>)
    ensures BytesOf(a + b) == BytesOf(a) + BytesOf(b)
  {
    forall i | 0 <= i < 4 * |a + b|
      ensures BytesOf(a + b)[i] == (BytesOf(a) + BytesOf(b))[i]
    {
      if i >= 4 * |a| {
        var j := i - 4 * |a|;
        assert i / 4 == |a| + j / 4 && i % 4 == j % 4;
      }
    }
  }

  function ByteOrZero(bs: seq<byte>, k: nat): byte { if k < |bs| then bs[k] else 0 }

  /** The word packed from four bytes on, zeros past the end. */
  function PackedWord(bs: seq<byte>, from: nat): u32 {
    Le32(ByteOrZero(bs, from), ByteOrZero(bs, from + 1), ByteOrZero(bs, from + 2), ByteOrZero(bs, from + 3))
  }

  lemma PackedByte(bs: seq<byte>, from: nat, k: nat)
    requires k < 4
    ensures ByteAt(PackedWord(bs, from), k) == ByteOrZero(bs, from + k)
  {
    BytesWord(ByteOrZero(bs, from), ByteOrZero(bs, from + 1), ByteOrZero(bs, from + 2), ByteOrZero(bs, from + 3));
  }

  // ---------------------------------------------------------------------------
  // Regions of memory
  // ---------------------------------------------------------------------------

  /** `data` copied into `s` at `off`. Total: a region that does not fit leaves `s` alone, which
      the callers never ask for. */
  function Splice(s: seq<byte>, off: nat, data: seq<byte>): (r: seq<byte>)
    ensures |r| == |s|
  {
    if off + |data| <= |s| then s[..off] + data + s[off + |data|..] else s
  }

  /** The `len` bytes of `s` at `off`. Total in the same way. */
  function Slice(s: seq<byte>, off: nat, len: nat): (r: seq<byte>)
    ensures off + len <= |s| ==> r == s[off..off + len]
  {
    if off + len <= |s| then s[off..off + len] else []
  }

  lemma SpliceAt(s: seq<byte>, off: nat, data: seq<byte>, j: nat)
    requires off + |data| <= |s| && j < |s|
    ensures Splice(s, off, data)[j] == if off <= j < off + |data| then data[j - off] else s[j]
  {
  }

  function Concat(parts: seq<seq<byte>>): seq<byte> {
    if |parts| == 0 then [] else parts[0] + Concat(parts[1..])
  }

  lemma {:induction false} ConcatLast(parts: seq<seq<byte>>, last: seq<byte>)
    ensures Concat(parts + [last]) == Concat(parts) + last
  {
    if |parts| == 0 {
      assert (parts + [last])[1..] == [];
      assert Concat(parts + [last]) == last + Concat([]);
    } else {
      ConcatLast(parts[1..], last);
      assert (parts + [last])[0] == parts[0] && (parts + [last])[1..] == parts[1..] + [last];
    }
  }

  /** memcpy. */
  method CopyInto(dst: array<byte>, off: nat, data: seq<byte>)
    requires off + |data| <= dst.Length
    modifies dst
    ensures dst[..] == Splice(old(dst[..]), off, data)
  {
    forall k | 0 <= k < |data| { dst[off + k] := data[k]; }
    assert dst[..off] == old(dst[..off]);
    assert dst[off..off + |data|] == data;
  }

  /** memset to zero. */
  method Clear(dst: array<byte>)
    modifies dst
    ensures dst[..] == Zeros(dst.Length)
  {
    forall k | 0 <= k < dst.Length { dst[k] := 0; }
  }
}
