/** FNV-1a, 32 bit (draft-eastlake-fnv, section 2), as the protocol header computes it. */
module Checksum {
  import opened Words

  const FNV_OFFSET_BASIS: bv32 := 2166136261

  function Mix(hash: bv32, b: byte): bv32 {
    (hash ^ (b as bv32)) * 16777619
  }

  function Hash(data: seq<byte>): bv32 {
    if |data| == 0 then FNV_OFFSET_BASIS
    else Mix(Hash(data[..|data| - 1]), data[|data| - 1])
  }

  function Fnv1a(data: seq<byte>): u32 { Hash(data) as int }

  /** The loop of the protocol header, over a region of an array. */
  method ComputeFnv1a(data: array<byte>, off: nat, size: nat) returns (hash: u32)
    requires off + size <= data.Length
    ensures hash == Fnv1a(data[off..off + size])
  {
    hide Mix;
    var bits := FNV_OFFSET_BASIS;
    for i := 0 to size
      invariant bits == Hash(data[off..off + i])
    {
      assert data[off..off + i + 1][..i] == data[off..off + i];
      bits := Mix(bits, data[off + i]);
    }
    hash := bits as int;
  }

  // ---------------------------------------------------------------------------
  // What it computes
  // ---------------------------------------------------------------------------

  lemma BitsOf(bits: bv32)
    ensures (bits as int) as bv32 == bits
  {
  }

  lemma HashStep(data: seq<byte>, b: byte)
    ensures Hash(data + [b]) == Mix(Hash(data), b)
  {
    hide Mix;
    assert (data + [b])[..|data|] == data;
  }

  lemma MixOfNumbers(n: u32, m: u32, before: bv32, after: bv32, b: byte)
    requires n == before as int && m == after as int && after == Mix(before, b)
    ensures m as bv32 == Mix(n as bv32, b)
  {
    hide Mix;
    BitsOf(before);
    BitsOf(after);
  }

  lemma Fnv1aMix(data: seq<byte>, b: byte)
    ensures Fnv1a(data + [b]) as bv32 == Mix(Fnv1a(data) as bv32, b)
  {
    hide Mix, Hash;
    HashStep(data, b);
    MixOfNumbers(Fnv1a(data), Fnv1a(data + [b]), Hash(data), Hash(data + [b]), b);
  }

  /** The empty input hashes to the offset basis. */
  lemma Fnv1aEmpty()
    ensures Fnv1a([]) == 0x811C_9DC5
  {
  }

  /** Each further byte is first xored into the hash, which is then multiplied by the prime, in 32
      bits. */
  lemma Fnv1aStep(data: seq<byte>, b: byte)
    ensures Fnv1a(data + [b]) as bv32 == ((Fnv1a(data) as bv32) ^ (b as bv32)) * 0x0100_0193
  {
    hide Fnv1a;
    Fnv1aMix(data, b);
  }

  lemma EmptyHash(data: seq<byte>)
    ensures Hash(data[..0]) == 0x811C_9DC5
  {
  }

  /** One step of a concrete hash. */
  lemma Next(data: seq<byte>, k: nat, b: byte, before: bv32, after: bv32)
    requires k < |data| && data[k] == b && Hash(data[..k]) == before && Mix(before, b) == after
    ensures Hash(data[..k + 1]) == after
  {
    hide Mix;
    assert data[..k + 1] == data[..k] + [b];
    HashStep(data[..k], b);
  }

  lemma FirstWord(data: seq<byte>)
    requires |data| == 16 && Hash(data[..0]) == 0x811C_9DC5
    requires data[0] == 0x44 && data[1] == 0x33 && data[2] == 0x22 && data[3] == 0x11
    ensures Hash(data[..4]) == 0xCE42_11D5
  {
    hide Hash;
    Next(data, 0, 0x44, 0x811C_9DC5, 0xC10B_F213);
    Next(data, 1, 0x33, 0xC10B_F213, 0x05CE_2860);
    Next(data, 2, 0x22, 0x05CE_2860, 0x6589_5FE6);
    Next(data, 3, 0x11, 0x6589_5FE6, 0xCE42_11D5);
  }

  lemma SecondWord(data: seq<byte>)
    requires |data| == 16 && Hash(data[..4]) == 0xCE42_11D5
    requires data[4] == 0x88 && data[5] == 0x77 && data[6] == 0x66 && data[7] == 0x55
    ensures Hash(data[..8]) == 0x199C_0395
  {
    hide Hash;
    Next(data, 4, 0x88, 0xCE42_11D5, 0x0F01_5567);
    Next(data, 5, 0x77, 0x0F01_5567, 0xAF18_E830);
    Next(data, 6, 0x66, 0xAF18_E830, 0xFA35_BF62);
    Next(data, 7, 0x55, 0xFA35_BF62, 0x199C_0395);
  }

  lemma ThirdWord(data: seq<byte>)
    requires |data| == 16 && Hash(data[..8]) == 0x199C_0395
    requires data[8] == 0xDD && data[9] == 0xCC && data[10] == 0xBB && data[11] == 0xAA
    ensures Hash(data[..12]) == 0xB0DB_E1BD
  {
    hide Hash;
    Next(data, 8, 0xDD, 0x199C_0395, 0x9899_2A58);
    Next(data, 9, 0xCC, 0x9899_2A58, 0xCD1E_06FC);
    Next(data, 10, 0xBB, 0xCD1E_06FC, 0x2D43_E1C5);
    Next(data, 11, 0xAA, 0x2D43_E1C5, 0xB0DB_E1BD);
  }

  lemma FourthWord(data: seq<byte>)
    requires |data| == 16 && Hash(data[..12]) == 0xB0DB_E1BD
    requires data[12] == 0x0D && data[13] == 0xF0 && data[14] == 0xAD && data[15] == 0x0B
    ensures Hash(data[..16]) == 0xF269_B734
  {
    hide Hash;
    Next(data, 12, 0x0D, 0xB0DB_E1BD, 0x1A24_4810);
    Next(data, 13, 0xF0, 0x1A24_4810, 0x071E_B8A0);
    Next(data, 14, 0xAD, 0x071E_B8A0, 0x425B_BC77);
    Next(data, 15, 0x0B, 0x425B_BC77, 0xF269_B734);
  }

  /** The byte-order canary of the protocol. */
  lemma ReferencePattern(data: seq<byte>)
    requires data == [0x44, 0x33, 0x22, 0x11, 0x88, 0x77, 0x66, 0x55,
                      0xDD, 0xCC, 0xBB, 0xAA, 0x0D, 0xF0, 0xAD, 0x0B]
    ensures Fnv1a(data) == 0xF269_B734
  {
    hide Hash;
    EmptyHash(data);
    FirstWord(data);
    SecondWord(data);
    ThirdWord(data);
    FourthWord(data);
    assert data[..16] == data;
  }
}
