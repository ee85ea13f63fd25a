/** The unmasked-index ring buffer: indices run over [0, 2 * depth) in 16-bit arithmetic, so that a
    full ring and an empty one differ and one overflow can be told and repaired. */
module Fifo {
  import opened Words
  import opened Timing

  const MAX_DEPTH := 0x8000

  function Wrap16(x: int): u16 { x % 0x1_0000 }

  // ---------------------------------------------------------------------------
  // Indices
  // ---------------------------------------------------------------------------

  predicate Depth(depth: u16) { 1 <= depth <= MAX_DEPTH }

  /** Distance from the read to the write index; more than `depth` means an overflow. */
  function IndexCount(depth: u16, wr: u16, rd: u16): u16 {
    if wr >= rd then wr - rd else Wrap16(2 * depth - (rd - wr))
  }

  function IndexRemaining(depth: u16, wr: u16, rd: u16): u16 {
    var count := IndexCount(depth, wr, rd);
    if depth > count then depth - count else 0
  }

  function AdvanceIndex(depth: u16, idx: u16, offset: u16): u16 {
    var next := Wrap16(idx + offset);
    if idx > next || next >= 2 * depth then Wrap16(next + Wrap16(0xFFFF - (2 * depth - 1))) else next
  }

  /** A position that may run past the end of the ring once. */
  function Wrapped(x: nat, size: nat): nat { if x < size then x else x - size }

  /** The slot an index stands for. */
  function Ptr(depth: u16, idx: u16): u16
    requires idx < 2 * depth
  {
    Wrapped(idx, depth)
  }

  /** An index `n` further on, n at most a whole round. */
  function Advanced(depth: u16, idx: u16, n: u16): u16
    requires Depth(depth) && idx < 2 * depth && n <= 2 * depth
  {
    Wrapped(idx + n, 2 * depth)
  }

  lemma PlainCount(depth: u16, wr: u16, rd: u16)
    requires Depth(depth) && wr < 2 * depth && rd < 2 * depth
    ensures IndexCount(depth, wr, rd) == (if wr >= rd then wr - rd else wr + 2 * depth - rd) < 2 * depth
  {
  }

  lemma AdvanceClosedForm(depth: u16, idx: u16, offset: u16)
    requires Depth(depth) && idx < 2 * depth
    ensures AdvanceIndex(depth, idx, offset) == Wrapped(idx + offset, 2 * depth)
  {
    var unused := 0x1_0000 - 2 * depth;
    Wrap16Once(idx + offset);
    Wrap16Once(unused);
    Wrap16Once(Wrap16(idx + offset) + unused);
    hide Wrap16;
  }

  lemma Wrap16Once(x: nat)
    requires x < 0x2_0000
    ensures Wrap16(x) == Wrapped(x, 0x1_0000)
  {
  }

  /** Advancing is addition modulo 2 * depth exactly while the sum stays below 4 * depth, whatever
      wraps in 16 bits on the way. */
  lemma AdvanceIsModular(depth: u16, idx: u16, offset: u16)
    requires Depth(depth) && idx < 2 * depth
    ensures AdvanceIndex(depth, idx, offset) == (idx + offset) % (2 * depth) <==> idx + offset < 4 * depth
  {
    AdvanceClosedForm(depth, idx, offset);
    WrappedIsModulo(idx + offset, 2 * depth);
  }

  lemma WrappedIsModulo(x: nat, m: nat)
    requires 0 < m
    ensures x % m < m
    ensures x < 2 * m ==> Wrapped(x, m) == x % m
  {
    if m <= x < 2 * m {
      DivAtLeast(x, m, 1);
      DivBounds(x, m);
      FactorBelow(m, x / m, 2);
    }
  }

  lemma FactorBelow(m: nat, q: nat, bound: nat)
    requires m * q < m * bound
    ensures q < bound
  {
    if q >= bound {
      MulMonotone(m, m, bound, q);
    }
  }

  method IndexToPtr(depth: u16, idx: u16) returns (ptr: u16)
    requires Depth(depth) && idx < 2 * depth
    ensures ptr == Ptr(depth, idx)
  {
    ptr := idx;
    while ptr >= depth
      invariant ptr == idx || ptr == idx - depth
    {
      ptr := ptr - depth;
    }
  }

  // ---------------------------------------------------------------------------
  // Ring memory
  // ---------------------------------------------------------------------------

  /** `len` bytes of the ring from `start` on, going round its end once. */
  function Ring(s: seq<byte>, start: nat, len: nat): (r: seq<byte>)
    requires start < |s| && len <= |s|
    ensures |r| == len
    ensures forall k | 0 <= k < len :: r[k] == s[Wrapped(start + k, |s|)]
  {
    seq(len, k requires 0 <= k < len => s[Wrapped(start + k, |s|)])
  }

  /** `data` written from `at` on, going round the end once. */
  function Put(s: seq<byte>, at: nat, data: seq<byte>): (r: seq<byte>)
    requires at < |s| && |data| <= |s|
    ensures |r| == |s|
  {
    seq(|s|, j requires 0 <= j < |s| =>
      if at <= j < at + |data| then data[j - at]
      else if j + |s| < at + |data| then data[j + |s| - at]
      else s[j])
  }

  lemma PutLinear(s: seq<byte>, at: nat, data: seq<byte>)
    requires at + |data| <= |s| && at < |s|
    ensures Put(s, at, data) == Splice(s, at, data)
  {
    hide Splice;
    forall j | 0 <= j < |s|
      ensures Put(s, at, data)[j] == Splice(s, at, data)[j]
    {
      SpliceAt(s, at, data, j);
    }
  }

  lemma PutAround(s: seq<byte>, at: nat, front: seq<byte>, back: seq<byte>)
    requires at < |s| && at + |front| == |s| && |back| <= at
    ensures Put(s, at, front + back) == Splice(Splice(s, at, front), 0, back)
  {
    hide Splice;
    var first := Splice(s, at, front);
    forall j | 0 <= j < |s|
      ensures Put(s, at, front + back)[j] == Splice(first, 0, back)[j]
    {
      SpliceAt(first, 0, back, j);
      SpliceAt(s, at, front, j);
    }
  }

  /** The split copies of the code are the modular copy. */
  lemma PutIsTwoCopies(s: seq<byte>, at: nat, data: seq<byte>)
    requires at < |s| && |data| <= |s|
    ensures Put(s, at, data) ==
      if |data| <= |s| - at then Splice(s, at, data)
      else Splice(Splice(s, at, data[..|s| - at]), 0, data[|s| - at..])
  {
    hide Splice, Put;
    if |data| <= |s| - at {
      PutLinear(s, at, data);
    } else {
      var lin := |s| - at;
      assert data == data[..lin] + data[lin..];
      PutAround(s, at, data[..lin], data[lin..]);
    }
  }

  lemma RingIsTwoCopies(s: seq<byte>, start: nat, len: nat)
    requires start < |s| && len <= |s|
    ensures Ring(s, start, len) ==
      if len <= |s| - start then s[start..start + len] else s[start..] + s[..len - (|s| - start)]
  {
  }

  /** Leaving out the first m bytes of a ring moves its start. */
  lemma RingSuffix(s: seq<byte>, start: nat, len: nat, m: nat)
    requires start < |s| && m <= len <= |s| && Wrapped(start + m, |s|) < |s|
    ensures Ring(s, Wrapped(start + m, |s|), len - m) == Ring(s, start, len)[m..]
  {
    var from := Wrapped(start + m, |s|);
    var all, tail := Ring(s, start, len), Ring(s, from, len - m);
    forall k | 0 <= k < len - m
      ensures tail[k] == all[m..][k]
    {
      assert Wrapped(from + k, |s|) == Wrapped(start + (m + k), |s|);
      assert all[m..][k] == all[m + k];
    }
  }

  /** Writing behind what is held appends to it. */
  lemma PutAppends(s: seq<byte>, start: nat, held: nat, data: seq<byte>)
    requires start < |s| && held + |data| <= |s| && Wrapped(start + held, |s|) < |s|
    ensures Ring(Put(s, Wrapped(start + held, |s|), data), start, held + |data|) == Ring(s, start, held) + data
  {
    var at := Wrapped(start + held, |s|);
    var after := Put(s, at, data);
    forall k | 0 <= k < held + |data|
      ensures after[Wrapped(start + k, |s|)] == (Ring(s, start, held) + data)[k]
    {
      var j := Wrapped(start + k, |s|);
      if k < held {
        assert after[j] == s[j];
      } else {
        assert after[j] == data[k - held];
      }
    }
  }

  function Last(s: seq<byte>, n: nat): seq<byte> {
    if |s| <= n then s else s[|s| - n..]
  }

  /** Where the k-th of the newest items stands after a write of m items past what is held. */
  lemma NewestSlot(size: nat, start: nat, held: nat, m: nat, k: nat)
    requires start < size && held <= size && m <= size < held + m && k < size
    ensures
      var at := Wrapped(start + held, size);
      var j := Wrapped(Wrapped(at + m, size) + k, size);
      && at < size && j < size
      && if k < size - m then
           && j == Wrapped(start + (held + m - size) + k, size)
           && !(at <= j < at + m) && j + size >= at + m
         else if j >= at then j - at == k - (size - m) && j < at + m
         else j + size - at == k - (size - m) && j + size < at + m
  {
  }

  lemma PutAt(s: seq<byte>, at: nat, data: seq<byte>, j: nat)
    requires at < |s| && |data| <= |s| && j < |s|
    ensures Put(s, at, data)[j] ==
      if at <= j < at + |data| then data[j - at]
      else if j + |s| < at + |data| then data[j + |s| - at]
      else s[j]
  {
  }

  lemma RingAt(s: seq<byte>, start: nat, len: nat, k: nat)
    requires start < |s| && k < len <= |s|
    ensures Wrapped(start + k, |s|) < |s| && Ring(s, start, len)[k] == s[Wrapped(start + k, |s|)]
  {
  }

  /** One byte of what is left after writing past what is held. */
  lemma NewestByte(s: seq<byte>, start: nat, held: nat, data: seq<byte>, k: nat)
    requires start < |s| && held <= |s| && |data| <= |s| < held + |data| && k < |s|
    ensures Wrapped(start + held, |s|) < |s| && Wrapped(Wrapped(start + held, |s|) + |data|, |s|) < |s|
    ensures
      var at := Wrapped(start + held, |s|);
      Ring(Put(s, at, data), Wrapped(at + |data|, |s|), |s|)[k]
      == (Ring(s, start, held) + data)[held + |data| - |s| + k]
  {
    NewestSlot(|s|, start, held, |data|, 0);
    NewestSlot(|s|, start, held, |data|, k);
    hide Wrapped, Ring, Put;
    var at := Wrapped(start + held, |s|);
    var from := Wrapped(at + |data|, |s|);
    RingAt(Put(s, at, data), from, |s|, k);
    PutAt(s, at, data, Wrapped(from + k, |s|));
    if k < |s| - |data| {
      RingAt(s, start, held, held + |data| - |s| + k);
    }
  }

  lemma SameAsLast(newest: seq<byte>, all: seq<byte>)
    requires |newest| <= |all| && forall k | 0 <= k < |newest| :: newest[k] == all[|all| - |newest| + k]
    ensures newest == Last(all, |newest|)
  {
  }

  /** Writing past what is held leaves the newest |s| bytes, from the end of the writing on. */
  lemma PutOverwrites(s: seq<byte>, start: nat, held: nat, data: seq<byte>)
    requires start < |s| && held <= |s| && |data| <= |s| < held + |data|
    ensures Wrapped(start + held, |s|) < |s| && Wrapped(Wrapped(start + held, |s|) + |data|, |s|) < |s|
    ensures
      var at := Wrapped(start + held, |s|);
      Ring(Put(s, at, data), Wrapped(at + |data|, |s|), |s|) == Last(Ring(s, start, held) + data, |s|)
  {
    NewestByte(s, start, held, data, 0);
    var at := Wrapped(start + held, |s|);
    var newest := Ring(Put(s, at, data), Wrapped(at + |data|, |s|), |s|);
    var all := Ring(s, start, held) + data;
    forall k | 0 <= k < |newest|
      ensures newest[k] == all[|all| - |newest| + k]
    {
      hide *;
      NewestByte(s, start, held, data, k);
    }
    hide *;
    SameAsLast(newest, all);
  }

  // ---------------------------------------------------------------------------
  // Items and bytes
  // ---------------------------------------------------------------------------

  /** The size of n items. */
  function Bytes(n: nat, size: nat): nat { n * size }

  lemma BytesAdd(a: nat, b: nat, size: nat)
    ensures Bytes(a + b, size) == Bytes(a, size) + Bytes(b, size)
  {
  }

  lemma BytesZero(size: nat)
    ensures Bytes(0, size) == 0
  {
  }

  lemma BytesOrder(a: nat, b: nat, size: nat)
    requires a <= b
    ensures Bytes(b, size) == Bytes(a, size) + Bytes(b - a, size)
    ensures a < b && 0 < size ==> Bytes(a, size) < Bytes(b, size)
  {
    BytesAdd(a, b - a, size);
    if a < b && 0 < size {
      MulMonotone(1, b - a, 1, size);
    }
  }

  lemma BytesWrap(x: nat, depth: nat, size: nat)
    requires 0 < size
    ensures Bytes(Wrapped(x, depth), size) == Wrapped(Bytes(x, size), Bytes(depth, size))
  {
    if x < depth {
      BytesOrder(x, depth, size);
    } else {
      BytesOrder(depth, x, size);
    }
  }

  // ---------------------------------------------------------------------------
  // What a ring holds
  // ---------------------------------------------------------------------------

  predicate Sized(buffer: seq<byte>, depth: u16, size: u16) {
    Depth(depth) && 1 <= size && Bytes(depth, size) < 0x1_0000 && |buffer| == Bytes(depth, size)
  }

  /** Items that can be read: all of them, or after an overflow the newest `depth`. */
  function Held(depth: u16, wr: u16, rd: u16): (held: nat)
    ensures held <= depth
  {
    Min(IndexCount(depth, wr, rd), depth)
  }

  /** The slot of the oldest of them. */
  function Start(depth: u16, wr: u16, rd: u16): nat
    requires wr < 2 * depth && rd < 2 * depth
  {
    Ptr(depth, if IndexCount(depth, wr, rd) > depth then wr else rd)
  }

  lemma Geometry(depth: u16, size: u16, wr: u16, rd: u16)
    requires Depth(depth) && 1 <= size && wr < 2 * depth && rd < 2 * depth
    ensures Start(depth, wr, rd) < depth
    ensures Bytes(Start(depth, wr, rd), size) < Bytes(depth, size)
    ensures Bytes(Held(depth, wr, rd), size) <= Bytes(depth, size)
    ensures Ptr(depth, wr) == Wrapped(Start(depth, wr, rd) + Held(depth, wr, rd), depth) < depth
    ensures Bytes(Ptr(depth, wr), size) < Bytes(depth, size)
  {
    hide Bytes;
    BytesOrder(Start(depth, wr, rd), depth, size);
    BytesOrder(Ptr(depth, wr), depth, size);
    BytesOrder(Held(depth, wr, rd), depth, size);
  }

  /** The sizes of the linear and the wrapped copy of n items from a slot on; none of them wraps. */
  lemma CopySizes(depth: u16, size: u16, slot: u16, n: u16)
    requires Depth(depth) && Bytes(depth, size) < 0x1_0000 && slot < depth && n <= depth
    ensures
      var lin := depth - slot;
      && Wrap16(lin) == lin
      && Bytes(depth, size) == Bytes(slot, size) + Bytes(lin, size)
      && (n <= lin ==> Bytes(n, size) <= Bytes(lin, size))
      && (n > lin ==>
            && Wrap16(n - lin) == n - lin
            && Bytes(n, size) == Bytes(lin, size) + Bytes(n - lin, size)
            && Wrap16(Bytes(lin, size)) == Bytes(lin, size)
            && Wrap16(Bytes(n - lin, size)) == Bytes(n - lin, size)
            && (0 < size ==> Bytes(n - lin, size) > 0))
  {
    hide Bytes, Wrap16;
    var lin := depth - slot;
    Wrap16Once(lin);
    BytesOrder(slot, depth, size);
    if n <= lin {
      BytesOrder(n, lin, size);
    } else {
      BytesOrder(lin, n, size);
      BytesOrder(n, depth, size);
      Wrap16Once(n - lin);
      Wrap16Once(Bytes(lin, size));
      Wrap16Once(Bytes(n - lin, size));
      BytesOrder(0, n - lin, size);
      BytesZero(size);
    }
  }

  /** The bytes that would be read, oldest first. */
  function Contents(buffer: seq<byte>, depth: u16, size: u16, wr: u16, rd: u16): (c: seq<byte>)
    requires Sized(buffer, depth, size) && wr < 2 * depth && rd < 2 * depth
    ensures |c| == Bytes(Held(depth, wr, rd), size)
  {
    Geometry(depth, size, wr, rd);
    Ring(buffer, Bytes(Start(depth, wr, rd), size), Bytes(Held(depth, wr, rd), size))
  }

  /** In bytes, the write position is the end of what is held. */
  lemma WriteAtEnd(depth: u16, size: u16, wr: u16, rd: u16)
    requires Depth(depth) && 1 <= size && wr < 2 * depth && rd < 2 * depth
    ensures
      Bytes(Ptr(depth, wr), size)
      == Wrapped(Bytes(Start(depth, wr, rd), size) + Bytes(Held(depth, wr, rd), size), Bytes(depth, size))
  {
    hide Bytes;
    Geometry(depth, size, wr, rd);
    BytesWrap(Start(depth, wr, rd) + Held(depth, wr, rd), depth, size);
    BytesAdd(Start(depth, wr, rd), Held(depth, wr, rd), size);
  }

  lemma IndicesAppend(depth: u16, wr: u16, rd: u16, n: u16)
    requires Depth(depth) && wr < 2 * depth && rd < 2 * depth
    requires IndexCount(depth, wr, rd) + n <= depth
    ensures Held(depth, Advanced(depth, wr, n), rd) == Held(depth, wr, rd) + n
    ensures Start(depth, Advanced(depth, wr, n), rd) == Start(depth, wr, rd)
  {
    PlainCount(depth, wr, rd);
    PlainCount(depth, Advanced(depth, wr, n), rd);
    hide IndexCount;
  }

  /** With room for n more items, writing them appends. */
  lemma WriteAppends(buffer: seq<byte>, depth: u16, size: u16, wr: u16, rd: u16, n: u16, data: seq<byte>)
    requires Sized(buffer, depth, size) && wr < 2 * depth && rd < 2 * depth
    requires IndexCount(depth, wr, rd) + n <= depth && |data| == Bytes(n, size)
    ensures Bytes(Ptr(depth, wr), size) < |buffer| && |data| <= |buffer|
    ensures Contents(Put(buffer, Bytes(Ptr(depth, wr), size), data), depth, size, Advanced(depth, wr, n), rd)
         == Contents(buffer, depth, size, wr, rd) + data
  {
    hide Bytes;
    var held := Held(depth, wr, rd);
    Geometry(depth, size, wr, rd);
    Geometry(depth, size, Advanced(depth, wr, n), rd);
    IndicesAppend(depth, wr, rd, n);
    WriteAtEnd(depth, size, wr, rd);
    BytesOrder(n, depth, size);
    BytesOrder(held + n, depth, size);
    BytesAdd(held, n, size);
    hide Start, Held, Ptr, Wrapped, IndexCount;
    PutAppends(buffer, Bytes(Start(depth, wr, rd), size), Bytes(held, size), data);
  }

  lemma IndicesOverflow(depth: u16, wr: u16, rd: u16, n: u16)
    requires Depth(depth) && wr < 2 * depth && rd < 2 * depth && n < depth
    requires depth < IndexCount(depth, wr, rd) + n < 2 * depth
    ensures
      var wr' := Advanced(depth, wr, n);
      Held(depth, wr', rd) == depth && Start(depth, wr', rd) == Wrapped(Ptr(depth, wr) + n, depth)
  {
    PlainCount(depth, wr, rd);
    PlainCount(depth, Advanced(depth, wr, n), rd);
    hide IndexCount;
  }

  /** A single overflow: the newest `depth` items of everything pending remain. */
  lemma WriteOverflows(buffer: seq<byte>, depth: u16, size: u16, wr: u16, rd: u16, n: u16, data: seq<byte>)
    requires Sized(buffer, depth, size) && wr < 2 * depth && rd < 2 * depth && 0 < n < depth
    requires depth < IndexCount(depth, wr, rd) + n < 2 * depth && |data| == Bytes(n, size)
    ensures Bytes(Ptr(depth, wr), size) < |buffer| && |data| <= |buffer|
    ensures Contents(Put(buffer, Bytes(Ptr(depth, wr), size), data), depth, size, Advanced(depth, wr, n), rd)
         == Last(Contents(buffer, depth, size, wr, rd) + data, Bytes(depth, size))
  {
    hide Bytes;
    var held := Held(depth, wr, rd);
    Geometry(depth, size, wr, rd);
    Geometry(depth, size, Advanced(depth, wr, n), rd);
    IndicesOverflow(depth, wr, rd, n);
    WriteAtEnd(depth, size, wr, rd);
    BytesOrder(n, depth, size);
    BytesOrder(depth, held + n, size);
    BytesAdd(held, n, size);
    BytesWrap(Ptr(depth, wr) + n, depth, size);
    BytesAdd(Ptr(depth, wr), n, size);
    hide Start, Held, Ptr, Wrapped, IndexCount;
    PutOverwrites(buffer, Bytes(Start(depth, wr, rd), size), Bytes(held, size), data);
  }

  lemma IndicesFull(depth: u16, rd: u16)
    requires Depth(depth) && rd < 2 * depth
    ensures Held(depth, Advanced(depth, rd, depth), rd) == depth
    ensures Start(depth, Advanced(depth, rd, depth), rd) == Ptr(depth, rd)
  {
  }

  /** Writing a whole ring's worth from the read index on replaces everything. */
  lemma WriteReplaces(buffer: seq<byte>, depth: u16, size: u16, rd: u16, data: seq<byte>)
    requires Sized(buffer, depth, size) && rd < 2 * depth && |data| == Bytes(depth, size)
    ensures Bytes(Ptr(depth, rd), size) < |buffer|
    ensures Contents(Put(buffer, Bytes(Ptr(depth, rd), size), data), depth, size, Advanced(depth, rd, depth), rd) == data
  {
    hide Bytes;
    Geometry(depth, size, rd, rd);
    Geometry(depth, size, Advanced(depth, rd, depth), rd);
    IndicesFull(depth, rd);
    hide Start, Held, Ptr, IndexCount;
    var at := Bytes(Ptr(depth, rd), size);
    PutAppends(buffer, at, 0, data);
    assert Ring(buffer, at, 0) == [];
  }

  /** What a write past a second overflow leaves to be read. */
  function AfterSecond(buffer: seq<byte>, depth: u16, size: u16, rd: u16, n: u16, data: seq<byte>): seq<byte>
    requires Sized(buffer, depth, size) && rd < 2 * depth && n < depth
  {
    Geometry(depth, size, rd, rd);
    BytesOrder(depth - n, depth, size);
    Ring(buffer, Bytes(Ptr(depth, rd), size), Bytes(depth - n, size)) + data
  }

  lemma IndicesRefill(depth: u16, rd: u16, n: u16)
    requires Depth(depth) && rd < 2 * depth && 0 < n < depth
    ensures
      var at := Advanced(depth, rd, depth - n);
      && at < 2 * depth && Advanced(depth, at, n) == Advanced(depth, rd, depth)
      && Ptr(depth, at) == Wrapped(Ptr(depth, rd) + (depth - n), depth)
  {
  }

  /** A double overflow ends a full ring with the new items; its front is not the pending data. */
  lemma WriteRefills(buffer: seq<byte>, depth: u16, size: u16, rd: u16, n: u16, data: seq<byte>)
    requires Sized(buffer, depth, size) && rd < 2 * depth && 0 < n < depth && |data| == Bytes(n, size)
    ensures
      var at := Advanced(depth, rd, depth - n);
      && Bytes(Ptr(depth, at), size) < |buffer| && |data| <= |buffer|
      && Contents(Put(buffer, Bytes(Ptr(depth, at), size), data), depth, size, Advanced(depth, at, n), rd)
         == AfterSecond(buffer, depth, size, rd, n, data)
  {
    hide Bytes;
    var at := Advanced(depth, rd, depth - n);
    Geometry(depth, size, rd, rd);
    Geometry(depth, size, at, rd);
    Geometry(depth, size, Advanced(depth, rd, depth), rd);
    IndicesRefill(depth, rd, n);
    IndicesFull(depth, rd);
    BytesOrder(n, depth, size);
    BytesOrder(depth - n, depth, size);
    BytesWrap(Ptr(depth, rd) + (depth - n), depth, size);
    BytesAdd(Ptr(depth, rd), depth - n, size);
    hide Start, Held, Ptr, Wrapped, IndexCount, Advanced;
    PutAppends(buffer, Bytes(Ptr(depth, rd), size), Bytes(depth - n, size), data);
  }

  lemma IndicesDrop(depth: u16, wr: u16, rd: u16, n: u16)
    requires Depth(depth) && wr < 2 * depth && rd < 2 * depth
    requires n <= IndexCount(depth, wr, rd) <= depth
    ensures
      var rd' := Advanced(depth, rd, n);
      && rd' < 2 * depth && Held(depth, wr, rd') == Held(depth, wr, rd) - n
      && Start(depth, wr, rd') == Wrapped(Start(depth, wr, rd) + n, depth)
      && IndexCount(depth, wr, rd') == IndexCount(depth, wr, rd) - n
  {
    PlainCount(depth, wr, rd);
    PlainCount(depth, wr, Advanced(depth, rd, n));
    hide IndexCount;
  }

  /** Reading n items drops a prefix. */
  lemma ReadDrops(buffer: seq<byte>, depth: u16, size: u16, wr: u16, rd: u16, n: u16)
    requires Sized(buffer, depth, size) && wr < 2 * depth && rd < 2 * depth
    requires n <= IndexCount(depth, wr, rd) <= depth
    ensures Advanced(depth, rd, n) < 2 * depth
    ensures Bytes(n, size) <= |Contents(buffer, depth, size, wr, rd)|
    ensures Contents(buffer, depth, size, wr, Advanced(depth, rd, n))
         == Contents(buffer, depth, size, wr, rd)[Bytes(n, size)..]
    ensures Contents(buffer, depth, size, wr, rd)
         == Contents(buffer, depth, size, wr, rd)[..Bytes(n, size)]
          + Contents(buffer, depth, size, wr, Advanced(depth, rd, n))
  {
    hide Bytes;
    var held, start := Held(depth, wr, rd), Start(depth, wr, rd);
    IndicesDrop(depth, wr, rd, n);
    Geometry(depth, size, wr, rd);
    Geometry(depth, size, wr, Advanced(depth, rd, n));
    BytesOrder(n, held, size);
    BytesAdd(start, n, size);
    BytesWrap(start + n, depth, size);
    hide Start, Held, Ptr, IndexCount;
    RingSuffix(buffer, Bytes(start, size), Bytes(held, size), Bytes(n, size));
  }

  /** Moving the read index up to a full ring changes nothing that can be read. */
  lemma CorrectionKeepsContents(buffer: seq<byte>, depth: u16, size: u16, wr: u16, rd: u16)
    requires Sized(buffer, depth, size) && wr < 2 * depth && rd < 2 * depth
    requires IndexCount(depth, wr, rd) > depth
    ensures
      var rd' := Advanced(depth, wr, depth);
      && rd' < 2 * depth && IndexCount(depth, wr, rd') == depth
      && Contents(buffer, depth, size, wr, rd') == Contents(buffer, depth, size, wr, rd)
  {
    hide Bytes;
  }

  // A second overflow: the write index is re-positioned, and the read index stays where it was.

  /** How far beyond the second overflow the write goes. */
  function Excess(depth: u16, wr: u16, rd: u16, n: u16): int { IndexCount(depth, wr, rd) + n - 2 * depth }

  lemma IndicesSecond(depth: u16, wr: u16, rd: u16, n: u16)
    requires Depth(depth) && wr < 2 * depth && rd < 2 * depth && 0 < n < depth
    requires 0 <= Excess(depth, wr, rd, n)
    ensures Held(depth, wr, rd) == depth && Excess(depth, wr, rd, n) < depth
    ensures Wrapped(Start(depth, wr, rd) + n, depth)
         == Wrapped(Ptr(depth, rd) + Excess(depth, wr, rd, n), depth) < depth
  {
    PlainCount(depth, wr, rd);
    hide IndexCount;
  }

  /** The newest items start that much later than what is left. */
  lemma NewestAfterSecond(buffer: seq<byte>, depth: u16, size: u16, wr: u16, rd: u16, n: u16, data: seq<byte>)
    requires Sized(buffer, depth, size) && wr < 2 * depth && rd < 2 * depth && 0 < n < depth
    requires 0 <= Excess(depth, wr, rd, n) && |data| == Bytes(n, size)
    ensures
      var from := Wrapped(Ptr(depth, rd) + Excess(depth, wr, rd, n), depth);
      && Bytes(from, size) < |buffer| && Bytes(depth - n, size) <= |buffer|
      && Last(Contents(buffer, depth, size, wr, rd) + data, Bytes(depth, size))
      == Ring(buffer, Bytes(from, size), Bytes(depth - n, size)) + data
  {
    hide Bytes;
    var start := Start(depth, wr, rd);
    Geometry(depth, size, wr, rd);
    IndicesSecond(depth, wr, rd, n);
    BytesOrder(n, depth, size);
    BytesOrder(Wrapped(start + n, depth), depth, size);
    BytesWrap(start + n, depth, size);
    BytesAdd(start, n, size);
    hide Ptr, Wrapped, IndexCount, Excess, Held;
    RingSuffix(buffer, Bytes(start, size), |buffer|, Bytes(n, size));
    LastOfFull(Contents(buffer, depth, size, wr, rd), data);
  }

  lemma LastOfFull(full: seq<byte>, data: seq<byte>)
    requires |data| <= |full|
    ensures Last(full + data, |full|) == full[|data|..] + data
  {
  }

  /** So it keeps the newest items, whatever they are, exactly when it ends on the second overflow. */
  lemma SecondOverflowExact(depth: u16, size: u16, wr: u16, rd: u16, n: u16)
    requires Depth(depth) && 1 <= size && Bytes(depth, size) < 0x1_0000
    requires wr < 2 * depth && rd < 2 * depth && 0 < n < depth && 0 <= Excess(depth, wr, rd, n)
    ensures Excess(depth, wr, rd, n) == 0
       <==> forall buffer, data | Sized(buffer, depth, size) && |data| == Bytes(n, size) ::
              AfterSecond(buffer, depth, size, rd, n, data)
              == Last(Contents(buffer, depth, size, wr, rd) + data, Bytes(depth, size))
  {
    if Excess(depth, wr, rd, n) == 0 {
      forall buffer, data | Sized(buffer, depth, size) && |data| == Bytes(n, size)
        ensures AfterSecond(buffer, depth, size, rd, n, data)
             == Last(Contents(buffer, depth, size, wr, rd) + data, Bytes(depth, size))
      {
        hide Bytes;
        IndicesSecond(depth, wr, rd, n);
        NewestAfterSecond(buffer, depth, size, wr, rd, n, data);
      }
    } else {
      var buffer := SecondOverflowLoses(depth, size, wr, rd, n, Zeros(Bytes(n, size)));
    }
  }

  /** Beyond it there is a buffer whose newest items are not what is left. */
  lemma SecondOverflowLoses(depth: u16, size: u16, wr: u16, rd: u16, n: u16, data: seq<byte>)
    returns (buffer: seq<byte>)
    requires Depth(depth) && 1 <= size && Bytes(depth, size) < 0x1_0000
    requires wr < 2 * depth && rd < 2 * depth && 0 < n < depth && 0 < Excess(depth, wr, rd, n)
    requires |data| == Bytes(n, size)
    ensures Sized(buffer, depth, size)
    ensures AfterSecond(buffer, depth, size, rd, n, data)
         != Last(Contents(buffer, depth, size, wr, rd) + data, Bytes(depth, size))
  {
    hide Bytes;
    var kept := Ptr(depth, rd);
    buffer := seq(Bytes(depth, size), j => if j == Bytes(kept, size) then 1 else 0);
    IndicesSecond(depth, wr, rd, n);
    NewestAfterSecond(buffer, depth, size, wr, rd, n, data);
    Geometry(depth, size, rd, rd);
    BytesOrder(0, depth - n, size);
    BytesZero(size);
    BytesOrder(depth - n, depth, size);
    var from := Wrapped(kept + Excess(depth, wr, rd, n), depth);
    BytesOrder(Min(kept, from), Max(kept, from), size);
    hide Ptr, Wrapped, IndexCount, Excess, Held, Contents, Last;
    assert AfterSecond(buffer, depth, size, rd, n, data)[0] == 1;
    assert (Ring(buffer, Bytes(from, size), Bytes(depth - n, size)) + data)[0] == 0;
  }

  lemma NothingWritten(buffer: seq<byte>, depth: u16, size: u16, wr: u16, rd: u16, data: seq<byte>)
    requires Sized(buffer, depth, size) && wr < 2 * depth && rd < 2 * depth
    ensures Bytes(0, size) == 0
    ensures data == [] ==> Contents(buffer, depth, size, wr, rd) + data == Contents(buffer, depth, size, wr, rd)
    ensures data == [] ==>
      Contents(buffer, depth, size, wr, rd) == Last(Contents(buffer, depth, size, wr, rd) + data, Bytes(depth, size))
  {
    BytesZero(size);
    Geometry(depth, size, wr, rd);
  }

  lemma LastIsTail(before: seq<byte>, data: seq<byte>, skip: nat, n: nat)
    requires |data| == skip + n
    ensures Last(before + data, n) == data[skip..]
  {
  }

  /** Short of a second overflow, the newest `depth` items of everything pending remain. */
  lemma WriteKeepsNewest(buffer: seq<byte>, depth: u16, size: u16, wr: u16, rd: u16, n: u16, data: seq<byte>)
    requires Sized(buffer, depth, size) && wr < 2 * depth && rd < 2 * depth && 0 < n < depth
    requires IndexCount(depth, wr, rd) + n < 2 * depth && |data| == Bytes(n, size)
    ensures Bytes(Ptr(depth, wr), size) < |buffer| && |data| <= |buffer|
    ensures Contents(Put(buffer, Bytes(Ptr(depth, wr), size), data), depth, size, Advanced(depth, wr, n), rd)
         == Last(Contents(buffer, depth, size, wr, rd) + data, Bytes(depth, size))
  {
    hide Bytes;
    if IndexCount(depth, wr, rd) + n <= depth {
      var held := Held(depth, wr, rd);
      BytesAdd(held, n, size);
      BytesOrder(held + n, depth, size);
      WriteAppends(buffer, depth, size, wr, rd, n, data);
    } else {
      WriteOverflows(buffer, depth, size, wr, rd, n, data);
    }
  }

  /** The index distance after an overwriting write. */
  function CountAfter(depth: u16, count: nat, n: nat): nat {
    if n == 0 then count
    else if n >= depth || count + n >= 2 * depth then depth
    else count + n
  }

  lemma CountOfFull(depth: u16, rd: u16)
    requires Depth(depth) && rd < 2 * depth
    ensures IndexCount(depth, Advanced(depth, rd, depth), rd) == depth
  {
  }

  lemma CountGrows(depth: u16, wr: u16, rd: u16, n: u16)
    requires Depth(depth) && wr < 2 * depth && rd < 2 * depth && n < depth
    requires IndexCount(depth, wr, rd) + n < 2 * depth
    ensures IndexCount(depth, Advanced(depth, wr, n), rd) == IndexCount(depth, wr, rd) + n
  {
    PlainCount(depth, wr, rd);
    PlainCount(depth, Advanced(depth, wr, n), rd);
    hide IndexCount;
  }

  // ---------------------------------------------------------------------------
  // Runs of overwriting writes
  // ---------------------------------------------------------------------------

  lemma LastOfLast(a: seq<byte>, b: seq<byte>, n: nat)
    ensures Last(Last(a, n) + b, n) == Last(a + b, n)
  {
    if |a| > n {
      var all := a + b;
      assert Last(a, n) + b == all[|a| - n..];
    }
  }

  /** No write of the run passes a second overflow. */
  predicate NeverTwice(depth: u16, count: nat, sizes: seq<u16>)
    decreases |sizes|
  {
    |sizes| > 0 ==>
      && (sizes[0] >= depth || count + sizes[0] < 2 * depth)
      && NeverTwice(depth, CountAfter(depth, count, sizes[0]), sizes[1..])
  }

  /** After any such run the ring holds the newest `depth` items of everything pending. */
  method WriteRun(f: TuFifo, writes: seq<seq<byte>>, sizes: seq<u16>)
    requires f.Valid() && f.overwritable && |writes| == |sizes|
    requires forall k | 0 <= k < |writes| :: |writes[k]| == Bytes(sizes[k], f.itemSize)
    requires NeverTwice(f.depth, f.Count(), sizes)
    modifies f`wrIdx, f.buffer
    ensures f.Valid()
    ensures f.View() == Last(old(f.View()) + Concat(writes), Bytes(f.depth, f.itemSize))
  {
    hide Bytes, Contents, IndexCount, Last;
    ghost var before, size := f.View(), Bytes(f.depth, f.itemSize);
    ViewIsNewest(f);
    assert sizes[0..] == sizes;
    assert before + Concat(writes[..0]) == before;
    for k := 0 to |writes|
      invariant f.Valid() && NeverTwice(f.depth, f.Count(), sizes[k..])
      invariant f.View() == Last(before + Concat(writes[..k]), size)
    {
      assert sizes[k..][0] == sizes[k] && sizes[k..][1..] == sizes[k + 1..];
      assert writes[..k + 1] == writes[..k] + [writes[k]];
      ConcatLast(writes[..k], writes[k]);
      assert before + Concat(writes[..k + 1]) == before + Concat(writes[..k]) + writes[k];
      LastOfLast(before + Concat(writes[..k]), writes[k], size);
      var count := f.WriteN(writes[k], sizes[k]);
    }
    assert writes[..|writes|] == writes;
  }

  lemma ViewIsNewest(f: TuFifo)
    requires f.Valid()
    ensures f.View() == Last(f.View(), Bytes(f.depth, f.itemSize))
  {
    Geometry(f.depth, f.itemSize, f.wrIdx, f.rdIdx);
  }

  datatype Info = Info(linLength: nat, linOffset: nat, wrapLength: nat)

  /** The slots an Info names: a linear run, and a run from slot 0. */
  predicate Names(info: Info, slot: u16, j: nat) {
    slot <= j < slot + info.linLength || j < info.wrapLength
  }

  /** Slot j holds one of the items that can be read. */
  predicate Occupied(depth: u16, wr: u16, rd: u16, j: nat)
    requires wr < 2 * depth && rd < 2 * depth
  {
    var start, held := Start(depth, wr, rd), Held(depth, wr, rd);
    start <= j < start + held || j + depth < start + held
  }

  class TuFifo {
    const buffer: array<byte>
    const depth: u16
    const itemSize: u16
    var overwritable: bool
    var wrIdx: u16
    var rdIdx: u16

    predicate Valid()
      reads this
    {
      && Depth(depth) && 1 <= itemSize && Bytes(depth, itemSize) < 0x1_0000
      && buffer.Length == Bytes(depth, itemSize)
      && wrIdx < 2 * depth && rdIdx < 2 * depth
      && (!overwritable ==> IndexCount(depth, wrIdx, rdIdx) <= depth)
    }

    function Count(): u16
      reads this
    {
      IndexCount(depth, wrIdx, rdIdx)
    }

    function View(): seq<byte>
      requires Valid()
      reads this, buffer
    {
      Contents(buffer[..], depth, itemSize, wrIdx, rdIdx)
    }

    /** The item size is stored in fifteen bits; what does not fit is dropped. */
    constructor (buffer: array<byte>, depth: u16, itemSize: u16, overwritable: bool)
      requires Depth(depth) && 1 <= itemSize % 0x8000 && Bytes(depth, itemSize % 0x8000) < 0x1_0000
      requires buffer.Length == Bytes(depth, itemSize % 0x8000)
      ensures Valid() && View() == [] && this.buffer == buffer
      ensures this.depth == depth && this.itemSize == itemSize % 0x8000 && this.overwritable == overwritable
    {
      this.buffer, this.depth, this.overwritable := buffer, depth, overwritable;
      this.itemSize := itemSize % 0x8000;
      wrIdx, rdIdx := 0, 0;
    }

    /** Copies n items into the ring without moving the write index. */
    method PushN(data: seq<byte>, n: u16, wrPtr: u16)
      requires Valid() && n <= depth && wrPtr < depth && |data| == Bytes(n, itemSize)
      requires |data| <= buffer.Length && Bytes(wrPtr, itemSize) < buffer.Length
      modifies buffer
      ensures buffer[..] == Put(old(buffer[..]), Bytes(wrPtr, itemSize), data)
    {
      hide Bytes, Wrap16, Wrapped, Put, Splice;
      CopySizes(depth, itemSize, wrPtr, n);
      PutIsTwoCopies(buffer[..], Bytes(wrPtr, itemSize), data);
      var linCount := Wrap16(depth - wrPtr);
      if n <= linCount {
        CopyInto(buffer, Bytes(wrPtr, itemSize), data);
      } else {
        var wrapCount := Wrap16(n - linCount);
        var linBytes := Wrap16(Bytes(linCount, itemSize));
        var wrapBytes := Wrap16(Bytes(wrapCount, itemSize));
        CopyInto(buffer, Bytes(wrPtr, itemSize), data[..linBytes]);
        assert data[linBytes..linBytes + wrapBytes] == data[linBytes..];
        CopyInto(buffer, 0, data[linBytes..linBytes + wrapBytes]);
      }
    }

    /** Copies n items out of the ring without moving the read index. */
    method PullN(n: u16, rdPtr: u16) returns (data: seq<byte>)
      requires Valid() && n <= depth && rdPtr < depth
      requires Bytes(n, itemSize) <= buffer.Length && Bytes(rdPtr, itemSize) < buffer.Length
      ensures data == Ring(buffer[..], Bytes(rdPtr, itemSize), Bytes(n, itemSize))
    {
      hide Bytes, Wrap16, Wrapped, Ring;
      CopySizes(depth, itemSize, rdPtr, n);
      var at := Bytes(rdPtr, itemSize);
      RingIsTwoCopies(buffer[..], at, Bytes(n, itemSize));
      var linCount := Wrap16(depth - rdPtr);
      if n <= linCount {
        data := buffer[at..at + Bytes(n, itemSize)];
      } else {
        var wrapCount := Wrap16(n - linCount);
        var linBytes := Wrap16(Bytes(linCount, itemSize));
        var wrapBytes := Wrap16(Bytes(wrapCount, itemSize));
        data := buffer[at..at + linBytes] + buffer[..wrapBytes];
      }
    }

    /** Repairs an overflow: the ring becomes a full one. */
    method CorrectReadIndex()
      requires Valid() && Count() > depth
      modifies this`rdIdx
      ensures Valid() && Count() == depth && View() == old(View())
    {
      hide Bytes;
      CorrectionKeepsContents(buffer[..], depth, itemSize, wrIdx, rdIdx);
      if wrIdx >= depth {
        rdIdx := wrIdx - depth;
      } else {
        rdIdx := wrIdx + depth;
      }
    }

    /** Peeking shows a prefix and keeps everything; an overflow found is repaired. */
    method PeekN(n: u16) returns (data: seq<byte>, count: u16)
      requires Valid()
      modifies this`rdIdx
      ensures Valid() && View() == old(View())
      ensures count == Min(n, Min(old(Count()), depth)) && Bytes(count, itemSize) <= |View()|
      ensures data == View()[..Bytes(count, itemSize)]
      ensures Count() == Min(old(Count()), depth)
    {
      hide Bytes;
      if Count() == 0 {
        BytesZero(itemSize);
        return [], 0;
      }
      if Count() > depth {
        CorrectReadIndex();
      }
      Geometry(depth, itemSize, wrIdx, rdIdx);
      count := if Count() < n then Count() else n;
      BytesOrder(count, Held(depth, wrIdx, rdIdx), itemSize);
      var ptr := IndexToPtr(depth, rdIdx);
      data := PullN(count, ptr);
    }

    /** Reading takes a prefix of the contents away. */
    method ReadN(n: u16) returns (data: seq<byte>, count: u16)
      requires Valid()
      modifies this`rdIdx
      ensures Valid() && count == Min(n, Min(old(Count()), depth))
      ensures old(View()) == data + View() && |data| == Bytes(count, itemSize)
      ensures Count() == Min(old(Count()), depth) - count
    {
      hide Bytes;
      hide Contents, Held, Start, Ptr;
      data, count := PeekN(n);
      AdvanceClosedForm(depth, rdIdx, count);
      IndicesDrop(depth, wrIdx, rdIdx, count);
      ReadDrops(buffer[..], depth, itemSize, wrIdx, rdIdx, count);
      rdIdx := AdvanceIndex(depth, rdIdx, count);
    }

    /** Writing n items. Without overwriting, as many as fit are appended. With it, the newest `depth`
        of everything pending remain, unless a second overflow would pass 2 * depth: then the new items
        end a full ring whose front is whatever the slots from the read index on hold. */
    method WriteN(data: seq<byte>, n: u16) returns (count: u16)
      requires Valid() && |data| == Bytes(n, itemSize)
      modifies this`wrIdx, buffer
      ensures Valid()
      ensures !overwritable ==>
        && count == Min(n, depth - old(Count())) && Bytes(count, itemSize) <= |data|
        && View() == old(View()) + data[..Bytes(count, itemSize)]
      ensures overwritable ==> count == Min(n, depth) && Count() == CountAfter(depth, old(Count()), n)
      ensures overwritable && (n >= depth || old(Count()) + n < 2 * depth) ==>
        View() == Last(old(View()) + data, Bytes(depth, itemSize))
      ensures overwritable && n < depth && old(Count()) + n >= 2 * depth ==>
        View() == AfterSecond(old(buffer[..]), depth, itemSize, rdIdx, n, data)
    {
      hide Bytes;
      if n == 0 {
        NothingWritten(buffer[..], depth, itemSize, wrIdx, rdIdx, data);
        return 0;
      }
      if !overwritable {
        count := WritePlain(data, n);
      } else {
        count := WriteOver(data, n);
      }
    }

    method WritePlain(data: seq<byte>, n: u16) returns (count: u16)
      requires Valid() && !overwritable && |data| == Bytes(n, itemSize)
      modifies this`wrIdx, buffer
      ensures Valid() && count == Min(n, depth - old(Count())) && Bytes(count, itemSize) <= |data|
      ensures View() == old(View()) + data[..Bytes(count, itemSize)]
    {
      hide Bytes;
      count := Min(n, IndexRemaining(depth, wrIdx, rdIdx));
      BytesOrder(count, n, itemSize);
      ghost var part := data[..Bytes(count, itemSize)];
      WriteAppends(buffer[..], depth, itemSize, wrIdx, rdIdx, count, part);
      IndicesAppend(depth, wrIdx, rdIdx, count);
      NothingWritten(buffer[..], depth, itemSize, wrIdx, rdIdx, part);
      hide Start, Held, Ptr, Contents;
      StoreAt(data[..Bytes(count, itemSize)], count, wrIdx);
    }

    method WriteOver(data: seq<byte>, n: u16) returns (count: u16)
      requires Valid() && overwritable && 0 < n && |data| == Bytes(n, itemSize)
      modifies this`wrIdx, buffer
      ensures Valid() && count == Min(n, depth) && Count() == CountAfter(depth, old(Count()), n)
      ensures n >= depth || old(Count()) + n < 2 * depth ==>
        View() == Last(old(View()) + data, Bytes(depth, itemSize))
      ensures n < depth && old(Count()) + n >= 2 * depth ==>
        View() == AfterSecond(old(buffer[..]), depth, itemSize, rdIdx, n, data)
    {
      hide Bytes, Start, Held, Ptr, Contents, AfterSecond, Last, Put;
      if n >= depth {
        var skip := Bytes(n - depth, itemSize);
        BytesOrder(n - depth, n, itemSize);
        LastIsTail(View(), data, skip, Bytes(depth, itemSize));
        WriteReplaces(buffer[..], depth, itemSize, rdIdx, data[skip..]);
        CountOfFull(depth, rdIdx);
        StoreAt(data[skip..], depth, rdIdx);
        count := depth;
      } else if Count() + n >= 2 * depth {
        AdvanceClosedForm(depth, rdIdx, depth - n);
        WriteRefills(buffer[..], depth, itemSize, rdIdx, n, data);
        IndicesRefill(depth, rdIdx, n);
        CountOfFull(depth, rdIdx);
        StoreAt(data, n, AdvanceIndex(depth, rdIdx, depth - n));
        count := n;
      } else {
        WriteKeepsNewest(buffer[..], depth, itemSize, wrIdx, rdIdx, n, data);
        CountGrows(depth, wrIdx, rdIdx, n);
        StoreAt(data, n, wrIdx);
        count := n;
      }
    }

    /** The copy and the index update that end every write. */
    method StoreAt(data: seq<byte>, n: u16, at: u16)
      requires Valid() && n <= depth && at < 2 * depth && |data| == Bytes(n, itemSize)
      modifies this`wrIdx, buffer
      ensures Bytes(Ptr(depth, at), itemSize) < buffer.Length && |data| <= buffer.Length
      ensures n > 0 ==> wrIdx == Advanced(depth, at, n)
      ensures n == 0 ==> wrIdx == old(wrIdx)
      ensures buffer[..] == if n > 0 then Put(old(buffer[..]), Bytes(Ptr(depth, at), itemSize), data) else old(buffer[..])
    {
      hide Bytes;
      Geometry(depth, itemSize, at, at);
      BytesOrder(n, depth, itemSize);
      if n > 0 {
        var ptr := IndexToPtr(depth, at);
        PushN(data, n, ptr);
        AdvanceClosedForm(depth, at, n);
        wrIdx := AdvanceIndex(depth, at, n);
      }
    }

    /** The linear and wrapped runs from which a DMA may read: exactly the occupied slots, in order.
        The pointer is a slot number used as a byte offset. */
    method GetReadInfo() returns (info: Info)
      requires Valid()
      modifies this`rdIdx
      ensures Valid() && View() == old(View()) && Count() == Min(old(Count()), depth)
      ensures info.linLength + info.wrapLength == Count()
      ensures Count() > 0 ==>
        && info.linOffset == Start(depth, wrIdx, rdIdx)
        && forall j | 0 <= j < depth :: Names(info, info.linOffset, j) <==> Occupied(depth, wrIdx, rdIdx, j)
      ensures itemSize == 1 && Count() > 0 ==>
        && info.linOffset + info.linLength <= buffer.Length && info.wrapLength <= buffer.Length
        && View() == buffer[..][info.linOffset..info.linOffset + info.linLength] + buffer[..][..info.wrapLength]
    {
      hide Bytes, Contents, Occupied, Names;
      if Count() > depth {
        CorrectReadIndex();
      }
      var cnt := Count();
      if cnt == 0 {
        return Info(0, 0, 0);
      }
      info := OccupiedRuns(cnt);
      ReadRuns(depth, wrIdx, rdIdx, info);
      if itemSize == 1 {
        ByteRuns(buffer[..], depth, wrIdx, rdIdx, info);
      }
    }

    method OccupiedRuns(cnt: u16) returns (info: Info)
      requires Valid() && cnt == Count() <= depth
      requires 0 < cnt
      ensures info ==
        if Ptr(depth, wrIdx) > Ptr(depth, rdIdx) then Info(cnt, Ptr(depth, rdIdx), 0)
        else Info(depth - Ptr(depth, rdIdx), Ptr(depth, rdIdx), cnt - (depth - Ptr(depth, rdIdx)))
    {
      var wrPtr := IndexToPtr(depth, wrIdx);
      var rdPtr := IndexToPtr(depth, rdIdx);
      if wrPtr > rdPtr {
        info := Info(cnt, rdPtr, 0);
      } else {
        info := Info(depth - rdPtr, rdPtr, cnt - (depth - rdPtr));
      }
    }

    /** The runs into which a DMA may write: exactly the free slots, starting at the write index. */
    method GetWriteInfo() returns (info: Info)
      requires Valid()
      ensures info.linLength + info.wrapLength == depth - Min(Count(), depth)
      ensures Count() < depth ==>
        && info.linOffset == Ptr(depth, wrIdx)
        && forall j | 0 <= j < depth :: Names(info, info.linOffset, j) <==> !Occupied(depth, wrIdx, rdIdx, j)
    {
      hide Bytes;
      var remain := IndexRemaining(depth, wrIdx, rdIdx);
      if remain == 0 {
        return Info(0, 0, 0);
      }
      var wrPtr := IndexToPtr(depth, wrIdx);
      var rdPtr := IndexToPtr(depth, rdIdx);
      if wrPtr < rdPtr {
        info := Info(rdPtr - wrPtr, wrPtr, 0);
      } else {
        info := Info(depth - wrPtr, wrPtr, remain - (depth - wrPtr));
      }
    }
  }

  /** What GetReadInfo computes from the slots of the two indices. */
  lemma ReadRuns(depth: u16, wr: u16, rd: u16, info: Info)
    requires Depth(depth) && wr < 2 * depth && rd < 2 * depth
    requires 0 < IndexCount(depth, wr, rd) <= depth
    requires info ==
      if Ptr(depth, wr) > Ptr(depth, rd) then Info(IndexCount(depth, wr, rd), Ptr(depth, rd), 0)
      else Info(depth - Ptr(depth, rd), Ptr(depth, rd), IndexCount(depth, wr, rd) - (depth - Ptr(depth, rd)))
    ensures info.linOffset == Start(depth, wr, rd)
    ensures info.linLength + info.wrapLength == Held(depth, wr, rd)
    ensures info.linOffset + info.linLength <= depth && (info.wrapLength > 0 ==> info.linOffset + info.linLength == depth)
    ensures forall j | 0 <= j < depth :: Names(info, info.linOffset, j) <==> Occupied(depth, wr, rd, j)
  {
  }

  lemma ByteRuns(buffer: seq<byte>, depth: u16, wr: u16, rd: u16, info: Info)
    requires Sized(buffer, depth, 1) && wr < 2 * depth && rd < 2 * depth
    requires info.linOffset == Start(depth, wr, rd) && info.linLength + info.wrapLength == Held(depth, wr, rd)
    requires info.linOffset + info.linLength <= depth
    requires info.wrapLength > 0 ==> info.linOffset + info.linLength == depth
    ensures |buffer| == depth
    ensures Contents(buffer, depth, 1, wr, rd)
         == buffer[info.linOffset..info.linOffset + info.linLength] + buffer[..info.wrapLength]
  {
    Geometry(depth, 1, wr, rd);
    RingIsTwoCopies(buffer, info.linOffset, Held(depth, wr, rd));
  }

  // ---------------------------------------------------------------------------
  // The pointers of an Info: a slot number used as a byte offset
  // ---------------------------------------------------------------------------

  lemma SlotIsOffset(slot: nat, size: u16)
    requires 1 <= size
    ensures size == 1 || slot == 0 ==> Bytes(slot, size) == slot
    ensures size > 1 && slot > 0 ==> Bytes(slot, size) > slot
  {
    if size > 1 && slot > 0 {
      MulMonotone(slot, slot, 2, size);
    }
  }

  lemma SlotFits(depth: u16, slot: nat, size: u16)
    requires slot < depth && 1 <= size
    ensures Bytes(slot, size) + size <= Bytes(depth, size) && slot + size <= Bytes(depth, size)
  {
    BytesOrder(slot + 1, depth, size);
    BytesAdd(slot, 1, size);
    SlotIsOffset(slot, size);
  }

  /** What `get_read_info` points at is the item to be read next, whatever the buffer holds, exactly
      for items of one byte or an item in slot 0. */
  lemma ReadPointerExact(depth: u16, size: u16, wr: u16, rd: u16)
    requires Depth(depth) && 1 <= size && Bytes(depth, size) < 0x1_0000
    requires wr < 2 * depth && rd < 2 * depth && 0 < Held(depth, wr, rd)
    ensures size == 1 || Start(depth, wr, rd) == 0
       <==> forall buffer | Sized(buffer, depth, size) ::
              Slice(buffer, Start(depth, wr, rd), size) == Slice(Contents(buffer, depth, size, wr, rd), 0, size)
  {
    hide Bytes;
    var slot := Start(depth, wr, rd);
    Geometry(depth, size, wr, rd);
    SlotIsOffset(slot, size);
    hide Start, Held;
    if size == 1 || slot == 0 {
      forall buffer | Sized(buffer, depth, size)
        ensures Slice(buffer, slot, size) == Slice(Contents(buffer, depth, size, wr, rd), 0, size)
      {
        FrontItem(buffer, depth, size, wr, rd);
      }
    } else {
      var buffer := ReadPointerMisses(depth, size, wr, rd);
    }
  }

  /** The item to be read next starts at the byte offset of its slot. */
  lemma FrontItem(buffer: seq<byte>, depth: u16, size: u16, wr: u16, rd: u16)
    requires Sized(buffer, depth, size) && wr < 2 * depth && rd < 2 * depth && 0 < Held(depth, wr, rd)
    ensures
      var at := Bytes(Start(depth, wr, rd), size);
      && at + size <= |buffer| && size <= |Contents(buffer, depth, size, wr, rd)|
      && Contents(buffer, depth, size, wr, rd)[..size] == buffer[at..at + size]
  {
    hide Bytes;
    var slot, held := Start(depth, wr, rd), Held(depth, wr, rd);
    Geometry(depth, size, wr, rd);
    SlotFits(depth, slot, size);
    BytesOrder(1, held, size);
    OneItem(size);
    hide Start, Held;
    RingIsTwoCopies(buffer, Bytes(slot, size), Bytes(held, size));
  }

  lemma OneItem(size: nat)
    ensures Bytes(1, size) == size
  {
  }

  /** Otherwise there is a buffer where it points into something else. */
  lemma ReadPointerMisses(depth: u16, size: u16, wr: u16, rd: u16) returns (buffer: seq<byte>)
    requires Depth(depth) && 1 < size && Bytes(depth, size) < 0x1_0000
    requires wr < 2 * depth && rd < 2 * depth && 0 < Held(depth, wr, rd) && 0 < Start(depth, wr, rd)
    ensures Sized(buffer, depth, size)
    ensures Slice(buffer, Start(depth, wr, rd), size) != Slice(Contents(buffer, depth, size, wr, rd), 0, size)
  {
    hide Bytes;
    var slot := Start(depth, wr, rd);
    Geometry(depth, size, wr, rd);
    SlotIsOffset(slot, size);
    SlotFits(depth, slot, size);
    buffer := seq(Bytes(depth, size), j => if j == slot then 1 else 0);
    FrontItem(buffer, depth, size, wr, rd);
    hide Start, Held, Contents;
    assert Slice(buffer, slot, size)[0] == 1;
    assert buffer[Bytes(slot, size)..Bytes(slot, size) + size][0] == 0;
  }

  /** An item written where `get_write_info` points, and the write index advanced by one, is appended,
      whatever the buffer and the item, exactly for items of one byte or a free slot 0. */
  lemma WritePointerExact(depth: u16, size: u16, wr: u16, rd: u16)
    requires Depth(depth) && 1 <= size && Bytes(depth, size) < 0x1_0000
    requires wr < 2 * depth && rd < 2 * depth && IndexCount(depth, wr, rd) < depth
    ensures size == 1 || Ptr(depth, wr) == 0
       <==> forall buffer, item | Sized(buffer, depth, size) && |item| == size ::
              Contents(Splice(buffer, Ptr(depth, wr), item), depth, size, Advanced(depth, wr, 1), rd)
              == Contents(buffer, depth, size, wr, rd) + item
  {
    hide Bytes;
    var slot := Ptr(depth, wr);
    SlotIsOffset(slot, size);
    if size == 1 || slot == 0 {
      forall buffer, item | Sized(buffer, depth, size) && |item| == size
        ensures Contents(Splice(buffer, slot, item), depth, size, Advanced(depth, wr, 1), rd)
             == Contents(buffer, depth, size, wr, rd) + item
      {
        ItemAppends(buffer, depth, size, wr, rd, item);
      }
    } else {
      var buffer, item := WritePointerMisses(depth, size, wr, rd);
    }
  }

  /** An item written at the byte offset of the free slot is appended. */
  lemma ItemAppends(buffer: seq<byte>, depth: u16, size: u16, wr: u16, rd: u16, item: seq<byte>)
    requires Sized(buffer, depth, size) && |item| == size
    requires wr < 2 * depth && rd < 2 * depth && IndexCount(depth, wr, rd) < depth
    ensures
      Contents(Splice(buffer, Bytes(Ptr(depth, wr), size), item), depth, size, Advanced(depth, wr, 1), rd)
      == Contents(buffer, depth, size, wr, rd) + item
  {
    hide Bytes;
    OneItem(size);
    SlotFits(depth, Ptr(depth, wr), size);
    WriteAppends(buffer, depth, size, wr, rd, 1, item);
    PutLinear(buffer, Bytes(Ptr(depth, wr), size), item);
  }

  /** Otherwise there are a buffer and an item that is not what is read back. */
  lemma WritePointerMisses(depth: u16, size: u16, wr: u16, rd: u16) returns (buffer: seq<byte>, item: seq<byte>)
    requires Depth(depth) && 1 < size && Bytes(depth, size) < 0x1_0000
    requires wr < 2 * depth && rd < 2 * depth && IndexCount(depth, wr, rd) < depth && 0 < Ptr(depth, wr)
    ensures Sized(buffer, depth, size) && |item| == size
    ensures Contents(Splice(buffer, Ptr(depth, wr), item), depth, size, Advanced(depth, wr, 1), rd)
         != Contents(buffer, depth, size, wr, rd) + item
  {
    hide Bytes;
    var slot := Ptr(depth, wr);
    var at := Bytes(slot, size);
    SlotIsOffset(slot, size);
    SlotFits(depth, slot, size);
    buffer := Zeros(Bytes(depth, size));
    item := seq(size, k => 1);
    var after := Splice(buffer, slot, item);
    // The free slot keeps at least its last byte: rewriting it with itself changes nothing.
    var kept := after[at..at + size];
    assert Splice(after, at, kept) == after;
    ItemAppends(after, depth, size, wr, rd, kept);
    SpliceAt(buffer, slot, item, at + size - 1);
    assert kept[size - 1] == 0 && item[size - 1] == 1;
    LastItems(Contents(after, depth, size, wr, rd), kept, Contents(buffer, depth, size, wr, rd), item);
  }

  lemma LastItems(a: seq<byte>, x: seq<byte>, b: seq<byte>, y: seq<byte>)
    requires |a| == |b| && |x| == |y| && x != y
    ensures a + x != b + y
  {
    assert (a + x)[|a|..] == x && (b + y)[|b|..] == y;
  }
}
