/** The ping-pong endpoint driver: two 512-byte cartridge buffers per endpoint, one in flight while
    the other is filled or drained.

    `Bus` is the environment: the cartridge's buffers, the transfer it has been told to begin, and the
    completions it reports. Its preconditions are the protocol: a buffer in flight is never written or
    read, and no transfer is begun while one is. */
module UsbEndpoint {
  import opened Words

  const BLOCK := 512
  const BLOCK_WORDS := 128

  datatype Transfer = Transfer(buffer: nat, length: nat)

  datatype Completed = Completed(addr: byte, length: nat)

  // ---------------------------------------------------------------------------
  // Blocks on the card bus
  // ---------------------------------------------------------------------------

  /** Words packed four bytes at a time are the bytes in order, zeros after them. */
  lemma PackedImage(src: seq<byte>, words: seq<u32>)
    requires |src| <= BLOCK && |words| == BLOCK_WORDS
    requires forall i | 0 <= i < BLOCK_WORDS :: words[i] == PackedWord(src, 4 * i)
    ensures BytesOf(words) == src + Zeros(BLOCK - |src|)
  {
    forall j | 0 <= j < BLOCK
      ensures BytesOf(words)[j] == ByteOrZero(src, j)
    {
      var i, k := j / 4, j % 4;
      assert words[i] == PackedWord(src, 4 * i);
      ImageByte(words, i, k);
      PackedByte(src, 4 * i, k);
    }
  }

  /** The 128 words a block write clocks out. */
  method PackBlock(src: seq<byte>) returns (words: seq<u32>)
    requires |src| <= BLOCK
    ensures |words| == BLOCK_WORDS && BytesOf(words) == src + Zeros(BLOCK - |src|)
  {
    hide BytesOf, PackedWord;
    words := [];
    var sent := 0;
    for i := 0 to BLOCK_WORDS
      invariant |words| == i && sent == Min(4 * i, |src|)
      invariant forall k | 0 <= k < i :: words[k] == PackedWord(src, 4 * k)
    {
      PackedPastEnd(src, 4 * i);
      var word;
      word, sent := PackNext(src, sent);
      words := words + [word];
    }
    PackedImage(src, words);
  }

  lemma PackedPastEnd(src: seq<byte>, at: nat)
    ensures PackedWord(src, Min(at, |src|)) == PackedWord(src, at)
  {
  }

  method PackNext(src: seq<byte>, start: nat) returns (word: u32, sent: nat)
    requires start <= |src|
    ensures word == PackedWord(src, start) && sent == Min(start + 4, |src|)
  {
    if start + 4 <= |src| {
      word := Le32(src[start], src[start + 1], src[start + 2], src[start + 3]);
      sent := start + 4;
    } else if start < |src| {
      word, sent := PackTail(src, start);
    } else {
      word, sent := 0, start;
    }
  }

  /** The last one to three bytes, low byte first. */
  method PackTail(src: seq<byte>, start: nat) returns (word: u32, sent: nat)
    requires start < |src| < start + 4
    ensures word == PackedWord(src, start) && sent == |src|
  {
    word := src[start];
    sent := start + 1;
    if sent < |src| {
      word := word + 0x100 * (src[sent] as int);
      sent := sent + 1;
      if sent < |src| {
        word := word + 0x1_0000 * (src[sent] as int);
        sent := sent + 1;
      }
    }
  }

  /** At most four bytes of one word, low byte first. */
  method UnpackWord(w: u32, dst: array<byte>, at: nat, room: nat) returns (count: nat)
    requires at + Min(4, room) <= dst.Length
    modifies dst
    ensures count == Min(4, room)
    ensures forall k | at <= k < at + count :: dst[k] == ByteAt(w, k - at)
    ensures forall k | 0 <= k < dst.Length && !(at <= k < at + count) :: dst[k] == old(dst[k])
  {
    count := 0;
    while count < 4 && count < room
      invariant count <= Min(4, room)
      invariant forall k | at <= k < at + count :: dst[k] == ByteAt(w, k - at)
      invariant forall k | 0 <= k < dst.Length && !(at <= k < at + count) :: dst[k] == old(dst[k])
    {
      dst[at + count] := ByteAt(w, count);
      count := count + 1;
    }
  }

  lemma ImageOfWord(words: seq<u32>, i: nat)
    requires i < |words|
    ensures forall k | 4 * i <= k < 4 * i + 4 :: BytesOf(words)[k] == ByteAt(words[i], k - 4 * i)
  {
    forall k | 4 * i <= k < 4 * i + 4
      ensures BytesOf(words)[k] == ByteAt(words[i], k - 4 * i)
    {
      ImageByte(words, i, k - 4 * i);
    }
  }

  /** Copies the first `len` bytes of a block read, word by word, into a buffer. */
  method UnpackBlock(words: seq<u32>, dst: array<byte>, off: nat, len: nat)
    requires |words| == BLOCK_WORDS && len <= BLOCK && off + len <= dst.Length
    modifies dst
    ensures dst[..] == Splice(old(dst[..]), off, BytesOf(words)[..len])
  {
    hide ByteAt, BytesOf;
    var got := 0;
    for i := 0 to BLOCK_WORDS
      invariant got == Min(4 * i, len)
      invariant forall k | off <= k < off + got :: dst[k] == BytesOf(words)[k - off]
      invariant forall k | 0 <= k < dst.Length && !(off <= k < off + got) :: dst[k] == old(dst[k])
    {
      var count := UnpackWord(words[i], dst, off + got, len - got);
      ImageOfWord(words, i);
      got := got + count;
    }
    assert dst[off..off + len] == BytesOf(words)[..len];
    assert dst[..off] == old(dst[..off]) && dst[off + len..] == old(dst[off + len..]);
  }

  // ---------------------------------------------------------------------------
  // The cartridge
  // ---------------------------------------------------------------------------

  class Bus {
    var buffers: seq<seq<byte>>
    var flight: Option<Transfer>
    var line: seq<byte>
    var events: seq<Completed>

    predicate Valid()
      reads this
    {
      && |buffers| == 2 && |buffers[0]| == BLOCK && |buffers[1]| == BLOCK
      && (flight.Some? ==> flight.value.buffer < 2 && flight.value.length <= BLOCK)
    }

    constructor ()
      ensures Valid() && flight == None && line == [] && events == []
    {
      buffers := [Zeros(BLOCK), Zeros(BLOCK)];
      flight, line, events := None, [], [];
    }

    /** E9: fills a buffer, and begins sending it when `start` is set. */
    method WriteData(buffer: nat, start: bool, length: nat, words: seq<u32>)
      requires Valid() && buffer < 2 && length <= BLOCK && |words| == BLOCK_WORDS
      requires flight.Some? ==> !start && flight.value.buffer != buffer
      modifies this`buffers, this`flight
      ensures Valid() && buffers == old(buffers)[buffer := BytesOf(words)]
      ensures flight == if start then Some(Transfer(buffer, length)) else old(flight)
    {
      buffers := buffers[buffer := BytesOf(words)];
      if start {
        flight := Some(Transfer(buffer, length));
      }
    }

    /** E9 without a data phase: a zero-length packet. */
    method WriteNothing(buffer: nat)
      requires Valid() && buffer < 2 && flight == None
      modifies this`flight
      ensures Valid() && flight == Some(Transfer(buffer, 0))
    {
      flight := Some(Transfer(buffer, 0));
    }

    /** E8 16: begins the transfer of a buffer, either way. */
    method BeginXfer(buffer: nat, length: nat)
      requires Valid() && buffer < 2 && length <= BLOCK && flight == None
      modifies this`flight
      ensures Valid() && flight == Some(Transfer(buffer, length))
    {
      flight := Some(Transfer(buffer, length));
    }

    /** EA: reads a buffer back. */
    method ReadData(buffer: nat) returns (words: seq<u32>)
      requires Valid() && buffer < 2
      requires flight.Some? ==> flight.value.buffer != buffer
      ensures |words| == BLOCK_WORDS && BytesOf(words) == buffers[buffer]
    {
      BytesOfWordsOf(buffers[buffer]);
      words := WordsOf(buffers[buffer]);
    }

    /** The host takes the buffer in flight. */
    method Sent() returns (transferred: nat)
      requires Valid() && flight.Some?
      modifies this`flight, this`line
      ensures Valid() && flight == None && transferred == old(flight.value.length)
      ensures line == old(line) + buffers[old(flight.value.buffer)][..transferred]
    {
      transferred := flight.value.length;
      line := line + buffers[flight.value.buffer][..transferred];
      flight := None;
    }

    /** The host fills the buffer in flight, with no more than was begun. */
    method Arrived(data: seq<byte>) returns (transferred: nat)
      requires Valid() && flight.Some?
      modifies this`flight, this`buffers
      ensures Valid() && flight == None && transferred == Min(|data|, old(flight.value.length))
      ensures
        var b := old(flight.value.buffer);
        buffers == old(buffers)[b := Splice(old(buffers)[b], 0, data[..transferred])]
    {
      transferred := Min(|data|, flight.value.length);
      var b := flight.value.buffer;
      buffers := buffers[b := Splice(buffers[b], 0, data[..transferred])];
      flight := None;
    }

    method XferComplete(addr: byte, length: nat)
      modifies this`events
      ensures events == old(events) + [Completed(addr, length)]
    {
      events := events + [Completed(addr, length)];
    }
  }

  // ---------------------------------------------------------------------------
  // IN: what the driver and the cartridge hold after k completions
  // ---------------------------------------------------------------------------

  function BlockLength(total: nat, k: nat): nat { Min(BLOCK, Max(0, total - 512 * k)) }

  /** Block k of the data to send. */
  function BlockOf(tx: seq<byte>, k: nat): seq<byte> {
    if 512 * k <= |tx| then tx[512 * k..512 * k + BlockLength(|tx|, k)] else []
  }

  /** How many completions a transfer takes. */
  function BlockCount(total: nat): nat { Max(1, (total + BLOCK - 1) / BLOCK) }

  /** There is a block k to transfer: the first always is, if only a zero-length one. */
  predicate HasBlock(total: nat, k: nat) { k == 0 || 512 * k < total }

  lemma BlocksCounted(total: nat, k: nat)
    ensures HasBlock(total, k) <==> k < BlockCount(total)
  {
  }

  /** The buffer block k uses. */
  function Slot(k: nat): (slot: nat)
    ensures slot < 2
  {
    k % 2
  }

  lemma OtherBuffer(k: nat)
    ensures Slot(k + 1) == 1 - Slot(k) && Slot(k + 2) == Slot(k)
  {
  }

  /** What a completion of block k leaves of a request. */
  lemma RoomLeft(length: nat, k: nat, transferred: nat)
    requires transferred <= BlockLength(length, k) && (k == 0 || 512 * k < length)
    ensures transferred <= BLOCK && 512 * k + transferred <= length
    ensures transferred == BLOCK ==> 512 * (k + 1) <= length
    ensures 512 * (k + 1) < length ==> BlockLength(length, k + 1) == Min(BLOCK, length - 512 * k - BLOCK)
  {
  }

  class Endpoint {
    var tx: seq<byte>
    var rx: array<byte>
    var length: nat
    var offset: nat
    var remaining: nat
    var received: nat
    const addr: byte
    var buf: nat
    var active: bool

    constructor (addr: byte, rx: array<byte>)
      ensures this.addr == addr && this.rx == rx && !active
    {
      this.addr, this.rx := addr, rx;
      tx, length, offset, remaining, received, buf, active := [], 0, 0, 0, 0, 0, false;
    }

    /** Everything the driver remembers once k blocks are done: the next two blocks have been read
        from memory, block k sits in buffer k % 2 and, if there is one, block k + 1 in the other. */
    predicate Sending(bus: Bus, k: nat)
      reads this, bus
    {
      && bus.Valid() && active
      && length == |tx| && HasBlock(length, k)
      && remaining == length - 512 * k
      && offset == Min(length, 512 * (k + 2))
      && buf == (if length > 512 * (k + 1) then Slot(k) else if length > 0 then Slot(k + 1) else 0)
      && bus.buffers[Slot(k)][..BlockLength(length, k)] == BlockOf(tx, k)
      && bus.buffers[Slot(k + 1)][..BlockLength(length, k + 1)] == BlockOf(tx, k + 1)
    }

    /** Block k is in flight, and everything before it is on the line. */
    predicate InFlight(bus: Bus, k: nat)
      reads this, bus
    {
      && Sending(bus, k)
      && bus.flight == Some(Transfer(Slot(k), BlockLength(length, k)))
    }

    method InSendBlock(bus: Bus, start: bool)
      requires bus.Valid() && buf < 2 && offset <= length == |tx|
      requires bus.flight.Some? ==> !start && (offset < length ==> bus.flight.value.buffer != buf)
      modifies this`offset, this`buf, bus`buffers, bus`flight
      ensures bus.Valid()
      ensures
        var len := Min(BLOCK, length - old(offset));
        && offset == old(offset) + len
        && buf == (if len > 0 then 1 - old(buf) else old(buf))
        && |bus.buffers| == 2
        && bus.buffers[1 - old(buf)] == old(bus.buffers)[1 - old(buf)]
        && bus.buffers[old(buf)][..len] == tx[old(offset)..offset]
        && bus.flight == if start then Some(Transfer(old(buf), len)) else old(bus.flight)
    {
      var len := length - offset;
      if len > BLOCK {
        len := BLOCK;
      }
      if len > 0 {
        var words := PackBlock(tx[offset..offset + len]);
        bus.WriteData(buf, start, len, words);
        offset := offset + len;
        buf := 1 - buf;
      } else if start {
        bus.WriteNothing(buf);
      }
    }

    /** Starts an IN transfer of `buffer`. */
    method XferIn(bus: Bus, buffer: seq<byte>)
      requires bus.Valid() && bus.flight == None && |buffer| < 0x1_0000
      modifies this`tx, this`length, this`remaining, this`offset, this`buf, this`active,
               bus`buffers, bus`flight
      ensures active && tx == buffer && length == |buffer| && InFlight(bus, 0)
    {
      tx := buffer;
      length, remaining := |buffer|, |buffer|;
      offset := 0;
      buf := 0;
      active := true;
      InSendBlock(bus, true);
      InSendBlock(bus, false);
    }

    /** A completion. When block k was the last, one event reports the whole length; otherwise block
        k + 1 is already in its buffer and goes into flight. */
    method InComplete(bus: Bus, transferred: nat, ghost k: nat)
      requires bus.flight == None
      requires active ==> Sending(bus, k) && transferred == BlockLength(length, k)
      modifies this`remaining, this`offset, this`buf, this`active, bus`buffers, bus`flight, bus`events
      ensures old(!active) ==>
        !active && bus.flight == None && bus.events == old(bus.events) + [Completed(addr, transferred)]
      ensures old(active) && !HasBlock(length, k + 1) ==>
        !active && bus.flight == None && bus.Valid()
        && bus.events == old(bus.events) + [Completed(addr, length)]
      ensures old(active) && HasBlock(length, k + 1) ==>
        active && InFlight(bus, k + 1) && bus.events == old(bus.events)
    {
      hide Slot;
      OtherBuffer(k);
      if !active {
        bus.XferComplete(addr, transferred);
        return;
      }
      remaining := remaining - transferred;
      if remaining == 0 {
        bus.XferComplete(addr, length);
        active := false;
        return;
      }
      var len := if remaining > BLOCK then BLOCK else remaining;
      bus.BeginXfer(1 - buf, len);
      ghost var next := bus.buffers[Slot(k + 1)];
      InSendBlock(bus, false);
      assert bus.buffers[Slot(k + 1)] == next;
    }

    /** n blocks of `buffer` are on the line; the last one has ended the transfer with one event. */
    predicate Progress(bus: Bus, buffer: seq<byte>, n: nat)
      reads this, bus
    {
      && tx == buffer && length == |buffer|
      && bus.line == buffer[..Min(|buffer|, 512 * n)]
      && (if active
          then InFlight(bus, n) && bus.events == []
          else n == BlockCount(|buffer|) && bus.line == buffer && bus.events == [Completed(addr, |buffer|)])
    }

    /** The host takes the block in flight, and the driver hears of it. */
    method TakenByHost(bus: Bus, ghost n: nat)
      requires active && Progress(bus, tx, n)
      modifies this, bus
      ensures tx == old(tx) && Progress(bus, tx, n + 1)
      ensures BytesLeft(active, |tx|, n + 1) < BytesLeft(true, |tx|, n)
    {
      hide BlockCount;
      LastBlock(length, n);
      assert 512 * n <= length;
      var transferred := bus.Sent();
      InComplete(bus, transferred, n);
    }

    // -------------------------------------------------------------------------
    // OUT
    // -------------------------------------------------------------------------

    /** After k full blocks: all of them drained, buffer k % 2 next. */
    predicate Receiving(bus: Bus, k: nat)
      reads this, bus
    {
      && bus.Valid() && active && length <= rx.Length
      && (k == 0 || 512 * k < length)
      && offset == received == 512 * k
      && buf == Slot(k)
    }

    predicate Listening(bus: Bus, k: nat)
      reads this, bus
    {
      Receiving(bus, k) && bus.flight == Some(Transfer(Slot(k), BlockLength(length, k)))
    }

    method XferOut(bus: Bus, total: nat)
      requires bus.Valid() && bus.flight == None && total <= rx.Length && total < 0x1_0000
      modifies this`length, this`offset, this`received, this`buf, this`active, bus`flight
      ensures active && length == total && Listening(bus, 0)
    {
      length := total;
      offset, received := 0, 0;
      buf := 0;
      active := true;
      var first := if total > BLOCK then BLOCK else total;
      bus.BeginXfer(buf, first);
    }

    method OutReceiveBlock(bus: Bus)
      requires bus.Valid() && buf < 2 && offset <= received && received - offset <= BLOCK
      requires received <= rx.Length
      requires bus.flight.Some? ==> bus.flight.value.buffer != buf
      modifies this`offset, this`buf, rx
      ensures offset == received
      ensures buf == if old(offset) == received then old(buf) else 1 - old(buf)
      ensures rx[..] == Splice(old(rx[..]), old(offset), bus.buffers[old(buf)][..received - old(offset)])
    {
      var len := received - offset;
      if len == 0 {
        return;
      }
      var words := bus.ReadData(buf);
      UnpackBlock(words, rx, offset, len);
      offset := offset + len;
      buf := 1 - buf;
    }

    /** A completion with `transferred` bytes in buffer k % 2. The transfer ends on a short block or
        when the request is full; otherwise the other buffer is in flight before this one is drained. */
    method OutComplete(bus: Bus, transferred: nat, ghost k: nat)
      requires bus.flight == None
      requires active ==> Receiving(bus, k) && transferred <= BlockLength(length, k)
      modifies this`received, this`offset, this`buf, this`active, rx, bus`flight, bus`events
      ensures old(!active) ==>
        !active && bus.flight == None && rx[..] == old(rx[..])
        && bus.events == old(bus.events) + [Completed(addr, transferred)]
      ensures old(active) ==>
        rx[..] == Splice(old(rx[..]), 512 * k, old(bus.buffers)[Slot(k)][..transferred])
      ensures old(active) && (transferred < BLOCK || length <= 512 * (k + 1)) ==>
        !active && bus.Valid() && bus.flight == None
        && bus.events == old(bus.events) + [Completed(addr, 512 * k + transferred)]
      ensures old(active) && transferred == BLOCK && 512 * (k + 1) < length ==>
        active && Listening(bus, k + 1) && bus.events == old(bus.events)
    {
      if !active {
        bus.XferComplete(addr, transferred);
        return;
      }
      RoomLeft(length, k, transferred);
      var len := OutBlock(bus, transferred, k);
      if transferred < BLOCK || len == 0 {
        bus.XferComplete(addr, offset);
        active := false;
      }
    }

    /** The block is drained, and the next transfer is under way if there is one. */
    method OutBlock(bus: Bus, transferred: nat, ghost k: nat) returns (len: int)
      requires bus.flight == None
      requires Receiving(bus, k) && transferred <= BlockLength(length, k)
      modifies this`received, this`offset, this`buf, rx, bus`flight
      ensures bus.Valid() && offset == received == 512 * k + transferred
      ensures rx[..] == Splice(old(rx[..]), 512 * k, bus.buffers[Slot(k)][..transferred])
      ensures transferred < BLOCK || len == 0 <==> transferred < BLOCK || length <= 512 * (k + 1)
      ensures transferred < BLOCK || length <= 512 * (k + 1) ==> bus.flight == None
      ensures transferred == BLOCK && 512 * (k + 1) < length ==> Listening(bus, k + 1)
    {
      RoomLeft(length, k, transferred);
      OtherBuffer(k);
      hide Slot, Splice, BlockLength;
      received := received + transferred;
      len := ArmNext(bus, transferred, k);
      OutReceiveBlock(bus);
    }

    /** Begins the next transfer into the other buffer, if a full block leaves room for more. */
    method ArmNext(bus: Bus, transferred: nat, ghost k: nat) returns (len: int)
      requires bus.Valid() && bus.flight == None && buf == Slot(k) && offset == 512 * k
      requires transferred <= BlockLength(length, k) && (k == 0 || 512 * k < length)
      modifies bus`flight
      ensures bus.Valid()
      ensures transferred < BLOCK || len == 0 <==> transferred < BLOCK || length <= 512 * (k + 1)
      ensures bus.flight == if transferred == BLOCK && 512 * (k + 1) < length
                            then Some(Transfer(Slot(k + 1), BlockLength(length, k + 1))) else None
      ensures bus.flight.Some? ==> bus.flight.value.buffer != buf
    {
      RoomLeft(length, k, transferred);
      OtherBuffer(k);
      hide Slot, BlockLength;
      len := length - offset - BLOCK;
      if len > BLOCK {
        len := BLOCK;
      }
      if transferred == BLOCK && len > 0 {
        bus.BeginXfer(1 - buf, len);
      }
    }

    /** The host offers a block, and the driver hears of it. */
    method GivenByHost(bus: Bus, data: seq<byte>, ghost k: nat) returns (transferred: nat)
      requires Listening(bus, k)
      modifies this`received, this`offset, this`buf, this`active, rx,
               bus`flight, bus`events, bus`buffers
      ensures 512 * k + transferred <= length && transferred == Min(|data|, BlockLength(length, k))
      ensures rx[..512 * k + transferred] == old(rx[..512 * k]) + data[..transferred]
      ensures transferred < BLOCK || length <= 512 * (k + 1) ==>
        !active && bus.flight == None
        && bus.events == old(bus.events) + [Completed(addr, 512 * k + transferred)]
      ensures transferred == BLOCK && 512 * (k + 1) < length ==>
        active && Listening(bus, k + 1) && bus.events == old(bus.events)
    {
      ghost var buffer := bus.buffers[Slot(k)];
      transferred := bus.Arrived(data);
      BlockInBuffer(buffer, data[..transferred]);
      SpliceExtends(rx[..], 512 * k, data[..transferred]);
      assert rx[..][..512 * k] == rx[..512 * k];
      OutComplete(bus, transferred, k);
      assert rx[..512 * k + transferred] == rx[..][..512 * k + transferred];
    }
  }

  // ---------------------------------------------------------------------------
  // Whole transfers
  // ---------------------------------------------------------------------------

  /** What an IN transfer still has to send; an empty block in flight counts too. */
  function BytesLeft(active: bool, total: nat, n: nat): nat {
    if active then 1 + Max(0, total - 512 * n) else 0
  }

  /** The host takes every block until the driver reports the transfer complete. */
  method TakeAll(ep: Endpoint, bus: Bus, ghost buffer: seq<byte>) returns (completions: nat)
    requires ep.active && ep.tx == buffer && ep.Progress(bus, buffer, 0)
    modifies ep, bus
    ensures !ep.active && ep.Progress(bus, buffer, completions)
  {
    hide *;
    completions := 0;
    while ep.active
      invariant ep.tx == buffer && ep.Progress(bus, buffer, completions)
      decreases BytesLeft(ep.active, |buffer|, completions)
    {
      ep.TakenByHost(bus, completions);
      completions := completions + 1;
    }
  }

  /** Runs an IN transfer to its end against a host that takes every block. */
  method Transmit(buffer: seq<byte>, addr: byte)
    returns (line: seq<byte>, completions: nat, events: seq<Completed>)
    requires |buffer| < 0x1_0000
    ensures line == buffer
    ensures completions == BlockCount(|buffer|)
    ensures events == [Completed(addr, |buffer|)]
  {
    var unused := new byte[0];
    var bus := new Bus();
    var ep := new Endpoint(addr, unused);
    hide *;
    ep.XferIn(bus, buffer);
    StartsAtZero(ep, bus, buffer);
    completions := TakeAll(ep, bus, buffer);
    EndsComplete(ep, bus, buffer, completions);
    line, events := bus.line, bus.events;
  }

  lemma StartsAtZero(ep: Endpoint, bus: Bus, buffer: seq<byte>)
    requires ep.active && ep.tx == buffer && ep.length == |buffer| && ep.InFlight(bus, 0)
    requires bus.line == [] && bus.events == []
    ensures ep.Progress(bus, buffer, 0)
  {
  }

  lemma EndsComplete(ep: Endpoint, bus: Bus, buffer: seq<byte>, n: nat)
    requires !ep.active && ep.Progress(bus, buffer, n)
    ensures bus.line == buffer && n == BlockCount(|buffer|) && bus.events == [Completed(ep.addr, |buffer|)]
  {
  }

  lemma LastBlock(total: nat, k: nat)
    requires HasBlock(total, k)
    ensures !HasBlock(total, k + 1) ==> BlockCount(total) == k + 1 && Min(total, 512 * (k + 1)) == total
    ensures HasBlock(total, k + 1) ==> Min(total, 512 * (k + 1)) == 512 * (k + 1) <= total
  {
    BlocksCounted(total, k);
    BlocksCounted(total, k + 1);
  }

  /** What a host that offers `arrivals` delivers into a request of `length` bytes: whole blocks, up
      to and including the first short one, or until the request is full. */
  function Delivered(length: nat, arrivals: seq<seq<byte>>): (bs: seq<byte>)
    ensures |bs| <= length
    decreases |arrivals|
  {
    if |arrivals| == 0 then []
    else
      var block := Fitting(arrivals[0], length);
      if |block| < BLOCK || length <= BLOCK then block
      else block + Delivered(length - BLOCK, arrivals[1..])
  }

  /** What is taken of a block when `room` bytes are left. */
  function Fitting(block: seq<byte>, room: nat): (b: seq<byte>)
    ensures |b| == Min(|block|, Min(BLOCK, room))
  {
    block[..Min(|block|, Min(BLOCK, room))]
  }

  /** The transfer ends within the arrivals offered. */
  predicate Ends(length: nat, arrivals: seq<seq<byte>>)
    decreases |arrivals|
  {
    |arrivals| > 0 &&
      (|arrivals[0]| < BLOCK || length <= BLOCK || Ends(length - BLOCK, arrivals[1..]))
  }

  /** From a host that keeps to the block size, what is delivered is its blocks in order, up to an end. */
  lemma {:induction false} DeliveredInOrder(length: nat, arrivals: seq<seq<byte>>)
    requires forall i | 0 <= i < |arrivals| :: |arrivals[i]| <= BLOCK
    ensures Delivered(length, arrivals) <= Concat(arrivals)
    ensures !Ends(length, arrivals) ==> Delivered(length, arrivals) == Concat(arrivals)
    decreases |arrivals|
  {
    if |arrivals| > 0 {
      var block := Fitting(arrivals[0], length);
      if |block| == BLOCK && BLOCK < length {
        assert block == arrivals[0];
        DeliveredInOrder(length - BLOCK, arrivals[1..]);
      }
    }
  }

  /** `k` full blocks, the bytes `taken`, have been delivered and the transfer has not ended. */
  predicate Underway(length: nat, arrivals: seq<seq<byte>>, taken: seq<byte>, k: nat) {
    && k <= |arrivals| && |taken| == 512 * k <= length
    && Delivered(length, arrivals) == taken + Delivered(length - 512 * k, arrivals[k..])
    && Ends(length, arrivals) == Ends(length - 512 * k, arrivals[k..])
  }

  lemma NothingYet(length: nat, arrivals: seq<seq<byte>>)
    ensures Underway(length, arrivals, [], 0)
  {
    assert arrivals[0..] == arrivals;
  }

  lemma FirstDelivered(room: nat, arrivals: seq<seq<byte>>)
    requires 0 < |arrivals|
    ensures
      var block := Fitting(arrivals[0], room);
      if |block| < BLOCK || room <= BLOCK then Delivered(room, arrivals) == block && Ends(room, arrivals)
      else
        && Delivered(room, arrivals) == block + Delivered(room - BLOCK, arrivals[1..])
        && Ends(room, arrivals) == Ends(room - BLOCK, arrivals[1..])
  {
  }

  lemma OneMoreDelivered(length: nat, arrivals: seq<seq<byte>>, taken: seq<byte>, k: nat)
    requires k < |arrivals| && Underway(length, arrivals, taken, k)
    ensures |taken| <= length
    ensures
      var block := Fitting(arrivals[k], length - |taken|);
      && block == arrivals[k][..Min(|arrivals[k]|, BlockLength(length, k))]
      && if |block| < BLOCK || length <= 512 * (k + 1) then
           Delivered(length, arrivals) == taken + block && Ends(length, arrivals)
         else Underway(length, arrivals, taken + block, k + 1)
  {
    hide Delivered, Ends, Fitting, BlockLength, Min;
    var room := length - 512 * k;
    var block := Fitting(arrivals[k], room);
    FirstDelivered(room, arrivals[k..]);
    FittingBlock(arrivals[k], length, k);
    assert arrivals[k..][0] == arrivals[k] && arrivals[k..][1..] == arrivals[k + 1..];
    if !(|block| < BLOCK || length <= 512 * (k + 1)) {
      FittingLength(arrivals[k], room);
      Reassociate(taken, block, Delivered(room - BLOCK, arrivals[k + 1..]));
    }
  }

  lemma FittingBlock(block: seq<byte>, length: nat, k: nat)
    requires 512 * k <= length
    ensures Fitting(block, length - 512 * k) == block[..Min(|block|, BlockLength(length, k))]
  {
  }

  lemma FittingLength(block: seq<byte>, room: nat)
    ensures |Fitting(block, room)| <= BLOCK && |Fitting(block, room)| <= room
  {
  }

  lemma Reassociate(a: seq<byte>, b: seq<byte>, c: seq<byte>)
    ensures a + (b + c) == (a + b) + c
  {
  }

  lemma NoMore(length: nat, arrivals: seq<seq<byte>>, taken: seq<byte>)
    requires Underway(length, arrivals, taken, |arrivals|)
    ensures Delivered(length, arrivals) == taken && !Ends(length, arrivals)
  {
    assert arrivals[|arrivals|..] == [];
  }

  lemma SpliceExtends(before: seq<byte>, done: nat, block: seq<byte>)
    requires done + |block| <= |before|
    ensures Splice(before, done, block)[..done + |block|] == before[..done] + block
  {
  }

  lemma BlockInBuffer(buffer: seq<byte>, block: seq<byte>)
    requires |block| <= |buffer|
    ensures Splice(buffer, 0, block)[..|block|] == block
  {
  }

  /** Runs an OUT transfer against a host that offers the given blocks. */
  method Receive(length: nat, arrivals: seq<seq<byte>>, addr: byte)
    returns (data: seq<byte>, events: seq<Completed>, flight: Option<Transfer>)
    requires length < 0x1_0000
    ensures data == Delivered(length, arrivals)
    ensures events == if Ends(length, arrivals) then [Completed(addr, |data|)] else []
    ensures Ends(length, arrivals) ==> flight == None
  {
    hide Delivered, Ends, Underway, Fitting, BlockLength, Endpoint.Listening;
    var rx := new byte[length];
    var bus := new Bus();
    var ep := new Endpoint(addr, rx);
    ep.XferOut(bus, length);
    var k, done: nat := 0, 0;
    NothingYet(length, arrivals);
    while ep.active && k < |arrivals|
      invariant k <= |arrivals| && ep.length == length && ep.rx == rx && done <= length
      invariant ep.active ==>
        && ep.Listening(bus, k) && bus.events == [] && done == 512 * k
        && Underway(length, arrivals, rx[..done], k)
      invariant !ep.active ==>
        && Delivered(length, arrivals) == rx[..done] && Ends(length, arrivals)
        && bus.flight == None && bus.events == [Completed(addr, done)]
      decreases |arrivals| - k
    {
      OneMoreDelivered(length, arrivals, rx[..done], k);
      var transferred := ep.GivenByHost(bus, arrivals[k], k);
      done := done + transferred;
      k := k + 1;
    }
    if ep.active {
      NoMore(length, arrivals, rx[..done]);
    }
    data, events, flight := rx[..done], bus.events, bus.flight;
  }
}
