/** The data and status stages of a control transfer on endpoint 0.

    `log` and `busy` stand for the device controller: the transactions it has accepted, in order, and
    the directions it has one outstanding on. The bus reports a data transaction complete with at
    most the length queued, and exactly that length on an IN endpoint. */
module ControlTransfer {
  import opened Words

  const PACKET := 64

  datatype Direction = Out | In

  datatype Request = Request(direction: Direction, wLength: u16)

  datatype Transaction =
    | Sent(bytes: seq<byte>)
    | Armed(length: nat)
    | Stalled(direction: Direction)

  function Opposite(d: Direction): Direction { if d == In then Out else In }

  /** The empty transaction that acknowledges a request, against its data direction. */
  function Status(d: Direction): Transaction { if d == In then Armed(0) else Sent([]) }

  // ---------------------------------------------------------------------------
  // The data stage, as section 5.5.3 of the USB 2.0 specification has it
  // ---------------------------------------------------------------------------

  /** The `i`-th packet's worth of the data. */
  function Piece(data: seq<byte>, i: nat): (p: seq<byte>)
    ensures |p| <= PACKET
  {
    data[Min(PACKET * i, |data|)..Min(PACKET * (i + 1), |data|)]
  }

  /** The packets carry the data in order; only the last may reach the requested length, and it does
      or it is short. */
  predicate IsDataStage(packets: seq<seq<byte>>, data: seq<byte>, wLength: nat) {
    && 0 < |packets|
    && |data| <= wLength
    && (forall i | 0 <= i < |packets| :: packets[i] == Piece(data, i))
    && (forall i | 0 <= i < |packets| - 1 :: |packets[i]| == PACKET && PACKET * (i + 1) < wLength)
    && (|packets[|packets| - 1]| < PACKET || PACKET * |packets| == wLength)
  }

  /** How many packets that takes: a short or empty one is added exactly when the data ends before the
      requested length on a packet boundary. */
  lemma PacketCount(packets: seq<seq<byte>>, data: seq<byte>, wLength: nat)
    requires 0 < wLength && IsDataStage(packets, data, wLength)
    ensures |packets| == if |data| == wLength then (|data| + PACKET - 1) / PACKET else |data| / PACKET + 1
  {
    var n := |packets|;
    assert packets[n - 1] == Piece(data, n - 1);
    if 1 < n {
      assert packets[n - 2] == Piece(data, n - 2);
    }
  }

  /** So the data stage of a request is determined by its data and its requested length. */
  lemma DataStageIsUnique(a: seq<seq<byte>>, b: seq<seq<byte>>, data: seq<byte>, wLength: nat)
    requires 0 < wLength && IsDataStage(a, data, wLength) && IsDataStage(b, data, wLength)
    ensures a == b
  {
    PacketCount(a, data, wLength);
    PacketCount(b, data, wLength);
  }

  /** A host reading a data stage: it stops at the requested length or at the first short packet. */
  function HostReads(packets: seq<seq<byte>>, wLength: nat): (seq<byte>, nat)
    decreases |packets|
  {
    if |packets| == 0 then ([], 0)
    else if |packets[0]| < PACKET || wLength <= PACKET then (packets[0], 1)
    else
      var rest := HostReads(packets[1..], wLength - PACKET);
      (packets[0] + rest.0, 1 + rest.1)
  }

  /** It gets exactly the data, and stops exactly where the device does. */
  lemma HostReadsData(packets: seq<seq<byte>>, data: seq<byte>, wLength: nat)
    requires IsDataStage(packets, data, wLength)
    ensures HostReads(packets, wLength) == (data, |packets|)
  {
    HostReadsFrom(packets, data, wLength, 0);
    assert packets[0..] == packets && data[0..] == data;
  }

  lemma {:induction false} HostReadsFrom(packets: seq<seq<byte>>, data: seq<byte>, wLength: nat, k: nat)
    requires IsDataStage(packets, data, wLength) && k < |packets|
    ensures PACKET * k <= |data|
    ensures HostReads(packets[k..], wLength - PACKET * k) == (data[PACKET * k..], |packets| - k)
    decreases |packets| - k
  {
    PieceStarts(packets, data, wLength, k);
    assert packets[k] == Piece(data, k);
    if k + 1 < |packets| {
      HostReadsFrom(packets, data, wLength, k + 1);
      assert packets[k..][1..] == packets[k + 1..];
      assert Piece(data, k) + data[64 * (k + 1)..] == data[64 * k..];
    } else {
      assert Piece(data, k) == data[64 * k..];
    }
  }

  lemma PieceStarts(packets: seq<seq<byte>>, data: seq<byte>, wLength: nat, k: nat)
    requires IsDataStage(packets, data, wLength) && k < |packets|
    ensures 64 * k <= |data| && 64 * k <= wLength
  {
    if 0 < k {
      assert packets[k - 1] == Piece(data, k - 1);
    }
  }

  /** A data stage as the device saw it: the bytes it took, in how many packets, and whether it is
      over. */
  datatype Taken = Taken(bytes: seq<byte>, packets: nat, over: bool)

  function Fitting(arrival: seq<byte>, room: nat): (packet: seq<byte>)
    ensures |packet| <= room && |packet| <= PACKET
  {
    arrival[..Min(|arrival|, Min(PACKET, room))]
  }

  /** What a device with `room` bytes left of its buffer takes of the packets a host offers: no packet
      is longer than the transaction queued for it, and the first short one ends the stage. */
  function Accepts(room: nat, wLength: nat, arrivals: seq<seq<byte>>): (r: Taken)
    ensures |r.bytes| <= room && r.packets <= |arrivals|
    decreases |arrivals|
  {
    if |arrivals| == 0 then Taken([], 0, false)
    else
      var packet := Fitting(arrivals[0], room);
      if |packet| < PACKET || wLength <= PACKET then Taken(packet, 1, true)
      else
        var rest := Accepts(room - PACKET, wLength - PACKET, arrivals[1..]);
        Taken(packet + rest.bytes, 1 + rest.packets, rest.over)
  }

  lemma Rejoin(data: seq<byte>, a: nat, b: nat, c: nat)
    requires a <= b <= c <= |data|
    ensures data[a..b] + data[b..c] == data[a..c]
  {
  }

  /** A host that sends a well-formed data stage delivers it, up to the device's room for it. */
  lemma DataStageIsAccepted(room: nat, packets: seq<seq<byte>>, data: seq<byte>, wLength: nat)
    requires IsDataStage(packets, data, wLength) && room <= wLength
    ensures
      var r := Accepts(room, wLength, packets);
      r.bytes == data[..Min(room, |data|)] && r.over && (|data| <= room ==> r.packets == |packets|)
  {
    assert packets[0..] == packets && 0 < |packets|;
    hide IsDataStage, Piece, Fitting, Accepts;
    AcceptedFrom(room, packets, data, wLength, 0);
  }

  lemma {:induction false} AcceptedFrom(room: nat, packets: seq<seq<byte>>, data: seq<byte>, wLength: nat, k: nat)
    requires IsDataStage(packets, data, wLength) && room <= wLength
    requires k < |packets| && 64 * k <= Min(room, |data|)
    ensures
      var r := Accepts(room - 64 * k, wLength - 64 * k, packets[k..]);
      && r.bytes == data[64 * k..Min(room, |data|)]
      && r.over && (|data| <= room ==> r.packets == |packets| - k)
    decreases |packets| - k
  {
    var packet := Fitting(packets[k], room - 64 * k);
    var all := Min(room, |data|);
    PieceFits(packets, data, wLength, room, k);
    if |packet| == PACKET && 64 * (k + 1) < wLength {
      hide IsDataStage, Piece, Fitting;
      AcceptedFrom(room, packets, data, wLength, k + 1);
      assert packets[k..][1..] == packets[k + 1..];
      Rejoin(data, 64 * k, 64 * (k + 1), all);
    } else {
      hide IsDataStage, Piece, Fitting;
    }
  }

  lemma PieceFits(packets: seq<seq<byte>>, data: seq<byte>, wLength: nat, room: nat, k: nat)
    requires IsDataStage(packets, data, wLength) && room <= wLength
    requires k < |packets| && 64 * k <= Min(room, |data|)
    ensures
      var packet := Fitting(packets[k], room - 64 * k);
      var all := Min(room, |data|);
      && packet == data[64 * k..Min(64 * (k + 1), all)]
      && if |packet| == PACKET && 64 * (k + 1) < wLength
         then k + 1 < |packets| && 64 * (k + 1) <= all
         else 64 * (k + 1) >= all && (|data| <= room ==> k + 1 == |packets|)
  {
    assert packets[k] == Piece(data, k);
  }

  /** `k` full packets, the bytes `taken`, have been accepted and the data stage has not ended. */
  predicate StillOpen(room: nat, wLength: nat, arrivals: seq<seq<byte>>, taken: seq<byte>, k: nat) {
    && k <= |arrivals| && |taken| == 64 * k <= room && 64 * k <= wLength
    && var all := Accepts(room, wLength, arrivals);
       var rest := Accepts(room - 64 * k, wLength - 64 * k, arrivals[k..]);
       && all.bytes == taken + rest.bytes
       && all.packets == k + rest.packets
       && all.over == rest.over
  }

  lemma OpenAtFirst(room: nat, wLength: nat, arrivals: seq<seq<byte>>)
    ensures StillOpen(room, wLength, arrivals, [], 0)
  {
    assert arrivals[0..] == arrivals;
  }

  lemma OneMoreAccepted(room: nat, wLength: nat, arrivals: seq<seq<byte>>, taken: seq<byte>, k: nat)
    requires k < |arrivals| && StillOpen(room, wLength, arrivals, taken, k)
    ensures
      var packet := Fitting(arrivals[k], room - 64 * k);
      if |packet| < PACKET || wLength <= 64 * (k + 1)
      then Accepts(room, wLength, arrivals) == Taken(taken + packet, k + 1, true)
      else StillOpen(room, wLength, arrivals, taken + packet, k + 1)
  {
    hide Fitting;
    assert arrivals[k..][0] == arrivals[k] && arrivals[k..][1..] == arrivals[k + 1..];
  }

  lemma NoneLeft(room: nat, wLength: nat, arrivals: seq<seq<byte>>, taken: seq<byte>)
    requires StillOpen(room, wLength, arrivals, taken, |arrivals|)
    ensures Accepts(room, wLength, arrivals) == Taken(taken, |arrivals|, false)
  {
    assert arrivals[|arrivals|..] == [];
  }

  // ---------------------------------------------------------------------------
  // The device
  // ---------------------------------------------------------------------------

  /** The class buffer after a data transaction: only an OUT transaction stores into it. */
  function AfterData(d: Direction, before: seq<byte>, position: nat, bytes: seq<byte>): seq<byte>
    requires position + |bytes| <= |before|
  {
    if d == In then before else Splice(before, position, bytes)
  }

  class Control {
    var request: Request
    var buffer: array?<byte>
    /** How far the source has advanced its pointer into `buffer`. */
    var position: nat
    var totalXferred: u16
    var dataLen: u16
    const staging: array<byte>

    var busy: set<Direction>
    var log: seq<Transaction>

    constructor ()
      ensures Layout() && fresh(staging) && busy == {} && log == []
    {
      request := Request(Out, 0);
      buffer := null;
      position, totalXferred, dataLen := 0, 0, 0;
      staging := new byte[PACKET](i => 0);
      busy, log := {}, [];
    }

    ghost predicate Layout()
      reads this
    {
      staging.Length == PACKET && buffer != staging
    }

    /** Between transactions of a data stage. */
    ghost predicate Valid()
      reads this
    {
      && Layout()
      && position == totalXferred <= dataLen <= request.wLength
      && (buffer == null ==> dataLen == 0)
      && (buffer != null ==> dataLen <= buffer.Length)
    }

    /** The data transaction `DataStage` would queue. */
    ghost function NextData(): Transaction
      reads this, buffer
      requires Valid()
    {
      var n := Min(dataLen - totalXferred, PACKET);
      if request.direction == Out then Armed(n)
      else if n == 0 then Sent([])
      else Sent(buffer[position..position + n])
    }

    method QueueXfer(direction: Direction, transaction: Transaction) returns (ok: bool)
      modifies this`busy, this`log
      ensures ok == (direction !in old(busy))
      ensures busy == old(busy) + {direction}
      ensures log == if ok then old(log) + [transaction] else old(log)
    {
      ok := direction !in busy;
      if ok {
        busy := busy + {direction};
        log := log + [transaction];
      }
    }

    method StatusStage() returns (ok: bool)
      modifies this`busy, this`log
      ensures ok == (Opposite(request.direction) !in old(busy))
      ensures busy == old(busy) + {Opposite(request.direction)}
      ensures log == if !ok then old(log) else old(log) + [if request.direction == In then Armed(0) else Sent([])]
    {
      if request.direction == In {
        ok := QueueXfer(Out, Armed(0));
      } else {
        ok := QueueXfer(In, Sent([]));
      }
    }

    method DataStage() returns (ok: bool)
      requires Valid()
      modifies this`busy, this`log, staging
      ensures ok == (request.direction !in old(busy))
      ensures busy == old(busy) + {request.direction}
      ensures log == if ok then old(log) + [NextData()] else old(log)
    {
      var n := Min(dataLen - totalXferred, PACKET);
      if request.direction == In {
        var i := 0;
        while i < n
          invariant 0 <= i <= n
          invariant 0 < n ==> buffer != null && staging[..i] == buffer[position..position + i]
          modifies staging
        {
          staging[i] := buffer[position + i];
          i := i + 1;
        }
        ok := QueueXfer(In, Sent(if n == 0 then [] else staging[..n]));
      } else {
        ok := QueueXfer(Out, Armed(n));
      }
    }

    /** Starts a control transfer: a data stage of at most the requested length, or the status stage
        when none is requested. */
    method Xfer(req: Request, buf: array?<byte>, len: u16) returns (ok: bool)
      requires Layout() && buf != staging
      requires buf != null ==> Min(len, req.wLength) <= buf.Length
      modifies this, staging
      ensures Layout()
      ensures request == req && buffer == buf && position == totalXferred == 0
      ensures req.wLength == 0 ==> Valid()
      ensures dataLen == Min(len, req.wLength)
      ensures 0 < req.wLength && buf == null && 0 < len ==> !ok && busy == old(busy) && log == old(log)
      ensures 0 < req.wLength && (buf != null || len == 0) ==>
        && Valid() && ok == (req.direction !in old(busy)) && busy == old(busy) + {req.direction}
        && log == if ok then old(log) + [NextData()] else old(log)
      ensures req.wLength == 0 ==>
        && ok == (Opposite(req.direction) !in old(busy)) && busy == old(busy) + {Opposite(req.direction)}
        && log == if ok then old(log) + [Status(req.direction)] else old(log)
    {
      request, buffer, position, totalXferred := req, buf, 0, 0;
      dataLen := Min(len, req.wLength);
      if 0 < req.wLength {
        if 0 < dataLen && buf == null {
          return false;
        }
        ok := DataStage();
      } else {
        ok := StatusStage();
      }
    }

    /** The data stage ends with a transaction of `count` bytes. */
    ghost predicate EndsWith(count: nat)
      reads this
    {
      totalXferred + count == request.wLength || count < PACKET
    }

    /** A data transaction of `count` bytes has completed: in the OUT direction its bytes are in the
        staging buffer. `accepts` is what the class callback answers at the end of the data stage. */
    method DataComplete(count: nat, accepts: bool) returns (ok: bool)
      requires Valid() && count <= Min(dataLen - totalXferred, PACKET)
      requires request.direction !in busy
      modifies this, staging, buffer
      ensures Valid() && request == old(request) && buffer == old(buffer) && dataLen == old(dataLen)
      ensures request.direction == Out && buffer == null ==>
        !ok && busy == old(busy) && log == old(log) && totalXferred == old(totalXferred)
      ensures request.direction == In || buffer != null ==>
        && totalXferred == old(totalXferred) + count
        && (buffer != null ==>
              buffer[..] == AfterData(request.direction, old(buffer[..]), old(position), old(staging[..count])))
        && (!old(EndsWith(count)) ==>
              ok && busy == old(busy) + {request.direction} && log == old(log) + [NextData()])
        && (old(EndsWith(count)) && accepts ==>
              && ok == (Opposite(request.direction) !in old(busy))
              && busy == old(busy) + {Opposite(request.direction)}
              && log == if ok then old(log) + [Status(request.direction)] else old(log))
        && (old(EndsWith(count)) && !accepts ==>
              ok && busy == old(busy) && log == old(log) + [Stalled(Out), Stalled(In)])
    {
      if request.direction == Out {
        if buffer == null {
          return false;
        }
        forall i | 0 <= i < count {
          buffer[position + i] := staging[i];
        }
        assert buffer[..] == Splice(old(buffer[..]), old(position), old(staging[..count]));
      }
      totalXferred := (totalXferred + count) % 0x1_0000;
      position := position + count;
      if request.wLength == totalXferred || count < PACKET {
        if accepts {
          ok := StatusStage();
        } else {
          log := log + [Stalled(Out), Stalled(In)];
          ok := true;
        }
      } else {
        ok := DataStage();
      }
    }

    /** A transaction has completed: against the request's direction it was the status stage. */
    method XferComplete(direction: Direction, count: nat, accepts: bool) returns (ok: bool)
      requires Valid()
      requires direction == request.direction ==> count <= Min(dataLen - totalXferred, PACKET)
      modifies this, staging, buffer
      ensures Valid() && request == old(request) && buffer == old(buffer) && dataLen == old(dataLen)
      ensures direction != request.direction ==>
        && ok == (count == 0) && busy == old(busy) - {direction}
        && log == old(log) && totalXferred == old(totalXferred)
        && (buffer != null ==> buffer[..] == old(buffer[..]))
      ensures direction == request.direction == Out && buffer == null ==>
        !ok && busy == old(busy) - {direction} && log == old(log) && totalXferred == old(totalXferred)
      ensures direction == request.direction && (request.direction == In || buffer != null) ==>
        && totalXferred == old(totalXferred) + count
        && (buffer != null ==>
              buffer[..] == AfterData(request.direction, old(buffer[..]), old(position), old(staging[..count])))
        && (!old(EndsWith(count)) ==> ok && busy == old(busy) + {direction} && log == old(log) + [NextData()])
        && (old(EndsWith(count)) && accepts ==>
              && ok == (Opposite(direction) !in old(busy))
              && busy == old(busy) - {direction} + {Opposite(direction)}
              && log == if ok then old(log) + [Status(direction)] else old(log))
        && (old(EndsWith(count)) && !accepts ==>
              ok && busy == old(busy) - {direction} && log == old(log) + [Stalled(Out), Stalled(In)])
    {
      busy := busy - {direction};
      if direction != request.direction {
        ok := count == 0;
      } else {
        ok := DataComplete(count, accepts);
      }
    }

    /** Every packet so far was full, and the next one of the data is on the endpoint. */
    ghost predicate Sending(packets: seq<seq<byte>>, source: seq<byte>)
      reads this, buffer
    {
      && Valid() && request.direction == In && busy == {In}
      && buffer != null && buffer[..] == source
      && totalXferred == 64 * |packets| < request.wLength
      && AllFull(packets, source[..dataLen])
      && log == Sends(packets) + [Sent(Piece(source[..dataLen], |packets|))]
    }

    /** The data stage of `packets` is over. */
    ghost predicate SentAll(packets: seq<seq<byte>>, source: seq<byte>, accepts: bool)
      reads this, buffer
    {
      && Valid() && request.direction == In
      && buffer != null && buffer[..] == source
      && IsDataStage(packets, source[..dataLen], request.wLength)
      && log == Sends(packets) + Closing(In, accepts)
    }

    /** The host takes the packet on the endpoint. */
    method TakenByHost(packets: seq<seq<byte>>, source: seq<byte>, accepts: bool)
      returns (packet: seq<byte>, open: bool)
      requires Sending(packets, source)
      modifies this, staging, buffer
      ensures request == old(request) && buffer == old(buffer) && dataLen == old(dataLen)
      ensures |packet| <= PACKET
      ensures open ==> Sending(packets + [packet], source)
      ensures !open ==> SentAll(packets + [packet], source, accepts)
    {
      hide IsDataStage, Piece, AllFull, Sends;
      ghost var data := source[..dataLen];
      packet := log[|log| - 1].bytes;
      open := |packet| == PACKET && totalXferred + PACKET < request.wLength;
      NextPiece(source, data, |packets|);
      DataStageGrows(packets, data, request.wLength);
      SendsGrows(packets, packet);
      var _ := XferComplete(In, |packet|, accepts);
      if open {
        NextPiece(source, data, |packets| + 1);
      }
    }

    /** `k` full packets, the bytes `taken`, are stored, and the endpoint is armed for the next one. */
    ghost predicate Receiving(taken: seq<byte>, k: nat)
      reads this, buffer
    {
      && Valid() && request.direction == Out && busy == {Out} && buffer != null
      && |taken| == totalXferred == 64 * k < request.wLength
      && buffer[..64 * k] == taken
      && log == Arms(dataLen, k + 1)
    }

    /** The data stage of `k` packets is over, and `taken` is stored. */
    ghost predicate Received(taken: seq<byte>, k: nat, accepts: bool)
      reads this, buffer
    {
      && Valid() && request.direction == Out && buffer != null
      && |taken| <= buffer.Length && buffer[..|taken|] == taken
      && log == Arms(dataLen, k) + Closing(Out, accepts)
    }

    /** The host offers a packet; no more of it is taken than the transaction queued for it. */
    method GivenByHost(taken: seq<byte>, k: nat, arrival: seq<byte>, accepts: bool)
      returns (packet: seq<byte>, open: bool)
      requires Receiving(taken, k)
      modifies this, staging, buffer
      ensures request == old(request) && buffer == old(buffer) && dataLen == old(dataLen)
      ensures 64 * k <= dataLen && packet == Fitting(arrival, dataLen - 64 * k)
      ensures open == (|packet| == PACKET && 64 * (k + 1) < request.wLength)
      ensures open ==> Receiving(taken + packet, k + 1)
      ensures !open ==> Received(taken + packet, k + 1, accepts)
    {
      packet := arrival[..Min(|arrival|, Min(PACKET, dataLen - totalXferred))];
      open := |packet| == PACKET && totalXferred + PACKET < request.wLength;
      forall i | 0 <= i < |packet| {
        staging[i] := packet[i];
      }
      assert staging[..|packet|] == packet;
      if |packet| == PACKET {
        ArmsGrow(dataLen, k + 1);
      }
      ghost var before := buffer[..];
      var _ := XferComplete(Out, |packet|, accepts);
      SpliceExtends(before, taken, packet);
      assert buffer[..|taken + packet|] == buffer[..][..|taken + packet|];
    }
  }

  lemma SpliceExtends(before: seq<byte>, taken: seq<byte>, packet: seq<byte>)
    requires |taken| + |packet| <= |before| && taken <= before
    ensures Splice(before, |taken|, packet)[..|taken + packet|] == taken + packet
  {
  }

  // ---------------------------------------------------------------------------
  // Whole transfers
  // ---------------------------------------------------------------------------

  function Sends(packets: seq<seq<byte>>): (log: seq<Transaction>)
    ensures |log| == |packets|
  {
    seq(|packets|, i requires 0 <= i < |packets| => Sent(packets[i]))
  }

  /** The first `n` transactions an OUT data stage into `dataLen` bytes arms. */
  function Arms(dataLen: nat, n: nat): (log: seq<Transaction>)
    ensures |log| == n
  {
    seq(n, i requires 0 <= i < n => Armed(Max(0, Min(dataLen - 64 * i, PACKET))))
  }

  lemma ArmsGrow(dataLen: nat, n: nat)
    requires 64 * n <= dataLen
    ensures Arms(dataLen, n + 1) == Arms(dataLen, n) + [Armed(Min(dataLen - 64 * n, PACKET))]
  {
  }

  lemma FirstArm(dataLen: nat)
    ensures Arms(dataLen, 1) == [Armed(Min(dataLen, PACKET))]
  {
  }

  /** What closes a data stage: one status stage, or both directions stalled. */
  function Closing(d: Direction, accepts: bool): seq<Transaction> {
    if accepts then [Status(d)] else [Stalled(Out), Stalled(In)]
  }

  lemma NothingSent(data: seq<byte>)
    ensures Sends([]) == [] && AllFull([], data)
  {
  }

  lemma SendsGrows(packets: seq<seq<byte>>, packet: seq<byte>)
    ensures Sends(packets + [packet]) == Sends(packets) + [Sent(packet)]
  {
  }

  /** Every packet so far was full. */
  predicate AllFull(packets: seq<seq<byte>>, data: seq<byte>) {
    && 64 * |packets| <= |data|
    && forall i | 0 <= i < |packets| :: packets[i] == Piece(data, i) && |packets[i]| == PACKET
  }

  lemma NextPiece(source: seq<byte>, data: seq<byte>, k: nat)
    requires data <= source && 64 * k <= |data|
    ensures
      var n := Min(|data| - 64 * k, PACKET);
      |Piece(data, k)| == n && Piece(data, k) == source[64 * k..64 * k + n]
  {
  }

  /** One more packet either leaves the data stage open or completes it. */
  lemma DataStageGrows(packets: seq<seq<byte>>, data: seq<byte>, wLength: nat)
    requires AllFull(packets, data) && 64 * |packets| < wLength && |data| <= wLength
    ensures
      var packet := Piece(data, |packets|);
      if |packet| == PACKET && 64 * (|packets| + 1) < wLength then AllFull(packets + [packet], data)
      else IsDataStage(packets + [packet], data, wLength)
  {
  }

  /** What an answer of `len` bytes sends: no more than was asked for, and nothing without a buffer. */
  function Answer(wLength: u16, source: Option<seq<byte>>, len: u16): seq<byte>
    requires source.Some? ==> Min(len, wLength) <= |source.value|
  {
    if source.None? then [] else source.value[..Min(len, wLength)]
  }

  /** The transfer is refused outright when there is something to move and no buffer to move it. */
  predicate Startable(wLength: u16, hasBuffer: bool, len: u16) { wLength == 0 || hasBuffer || len == 0 }

  /** An IN request answered from a buffer, or from none, against a host that takes every packet. */
  method Respond(wLength: u16, source: Option<seq<byte>>, len: u16, accepts: bool)
    returns (started: bool, packets: seq<seq<byte>>, log: seq<Transaction>)
    requires source.Some? ==> Min(len, wLength) <= |source.value|
    ensures started == Startable(wLength, source.Some?, len)
    ensures !started ==> packets == [] && log == []
    ensures started ==>
      log == Sends(packets) + (if wLength == 0 then [Armed(0)] else Closing(In, accepts))
    ensures wLength == 0 ==> packets == []
    ensures started && 0 < wLength ==> IsDataStage(packets, Answer(wLength, source, len), wLength)
  {
    hide IsDataStage, Piece, AllFull, Sends;
    NothingSent([]);
    var control := new Control();
    packets := [];
    match source
    case None =>
      started, packets, log := RespondWithNothing(control, wLength, len, accepts);
    case Some(bytes) =>
      var buf := new byte[|bytes|](i requires 0 <= i < |bytes| => bytes[i]);
      assert buf[..] == bytes;
      started := control.Xfer(Request(In, wLength), buf, len);
      if wLength == 0 {
        var _ := control.XferComplete(Out, 0, accepts);
        log := control.log;
        return;
      }
      packets := SendAll(control, bytes, accepts);
      log := control.log;
  }

  /** The data stage, and the acknowledgement of its status stage. */
  method SendAll(control: Control, source: seq<byte>, accepts: bool) returns (packets: seq<seq<byte>>)
    requires control.Valid() && control.request.direction == In && control.busy == {In}
    requires control.buffer != null && control.buffer[..] == source
    requires control.totalXferred == 0 < control.request.wLength && control.log == [control.NextData()]
    modifies control, control.staging, control.buffer
    ensures IsDataStage(packets, source[..old(control.dataLen)], old(control.request.wLength))
    ensures control.log == Sends(packets) + Closing(In, accepts)
  {
    hide IsDataStage, Piece, AllFull, Sends;
    ghost var request, buffer, dataLen := control.request, control.buffer, control.dataLen;
    packets := [];
    NextPiece(source, source[..dataLen], 0);
    NothingSent(source[..dataLen]);
    var open := true;
    while open
      invariant control.request == request && control.buffer == buffer && control.dataLen == dataLen
      invariant open ==> control.Sending(packets, source)
      invariant !open ==> control.SentAll(packets, source, accepts)
      decreases open, if open then request.wLength - 64 * |packets| else 0
    {
      var packet;
      packet, open := control.TakenByHost(packets, source, accepts);
      packets := packets + [packet];
    }
    if accepts {
      var _ := control.XferComplete(Out, 0, accepts);
    }
  }

  /** Without a buffer an IN request is answered by one empty packet, if by any. */
  method RespondWithNothing(control: Control, wLength: u16, len: u16, accepts: bool)
    returns (started: bool, packets: seq<seq<byte>>, log: seq<Transaction>)
    requires control.Layout() && control.busy == {} && control.log == []
    modifies control, control.staging
    ensures started == Startable(wLength, false, len)
    ensures !started ==> packets == [] && log == []
    ensures started ==>
      log == Sends(packets) + (if wLength == 0 then [Armed(0)] else Closing(In, accepts))
    ensures wLength == 0 ==> packets == []
    ensures started && 0 < wLength ==> IsDataStage(packets, [], wLength)
  {
    hide IsDataStage, Piece, Sends;
    NothingSent([]);
    packets := [];
    started := control.Xfer(Request(In, wLength), null, len);
    if started && 0 < wLength {
      EmptyDataStage(wLength);
      packets := [[]];
      var _ := control.XferComplete(In, 0, accepts);
    }
    if started && (wLength == 0 || accepts) {
      var _ := control.XferComplete(Out, 0, accepts);
    }
    log := control.log;
  }

  lemma EmptyDataStage(wLength: u16)
    requires 0 < wLength
    ensures IsDataStage([[]], [], wLength) && Sends([[]]) == [Sent([])]
  {
  }

  /** What an OUT request arms and how it ends. Without a buffer the first completion is dropped, and
      nothing follows it. */
  function TakenLog(wLength: u16, len: u16, hasBuffer: bool, arrivals: seq<seq<byte>>, accepts: bool)
    : seq<Transaction>
  {
    if wLength == 0 then [Sent([])]
    else if !Startable(wLength, hasBuffer, len) then []
    else
      var room := Min(len, wLength);
      var r := Accepts(room, wLength, arrivals);
      if !r.over then Arms(room, r.packets + 1)
      else Arms(room, r.packets) + (if hasBuffer then Closing(Out, accepts) else [])
  }

  /** A data stage that is over is closed exactly when there was a buffer. */
  lemma ClosedWithBuffer(wLength: u16, len: u16, hasBuffer: bool, arrivals: seq<seq<byte>>, accepts: bool)
    requires 0 < wLength && Startable(wLength, hasBuffer, len)
    requires Accepts(Min(len, wLength), wLength, arrivals).over
    ensures
      var armed := Arms(Min(len, wLength), Accepts(Min(len, wLength), wLength, arrivals).packets);
      hasBuffer <==> TakenLog(wLength, len, hasBuffer, arrivals, accepts) == armed + Closing(Out, accepts)
  {
    hide Accepts, Arms;
    var armed := Arms(Min(len, wLength), Accepts(Min(len, wLength), wLength, arrivals).packets);
    assert |armed + Closing(Out, accepts)| > |armed + []|;
  }

  /** Eight bytes announced, none wanted, no buffer: one empty transaction and then silence; with a
      buffer the same request gets its status stage. */
  lemma StuckWithoutBuffer(packet: seq<byte>)
    requires |packet| == 8
    ensures TakenLog(8, 0, false, [packet], true) == [Armed(0)]
    ensures TakenLog(8, 0, true, [packet], true) == [Armed(0), Sent([])]
  {
    assert Fitting(packet, 0) == [];
    assert Accepts(0, 8, [packet]) == Taken([], 1, true);
    FirstArm(0);
  }

  /** An OUT request taken into a buffer, or into none, against a host that offers the given packets. */
  method Take(wLength: u16, len: u16, hasBuffer: bool, arrivals: seq<seq<byte>>, accepts: bool)
    returns (data: seq<byte>, log: seq<Transaction>)
    ensures log == TakenLog(wLength, len, hasBuffer, arrivals, accepts)
    ensures data ==
      if wLength == 0 || !Startable(wLength, hasBuffer, len) then []
      else Accepts(Min(len, wLength), wLength, arrivals).bytes
  {
    var control := new Control();
    if !hasBuffer {
      log := TakeNowhere(control, wLength, len, arrivals, accepts);
      data := [];
      return;
    }
    var buf := new byte[len];
    var ok := control.Xfer(Request(Out, wLength), buf, len);
    data, log := [], control.log;
    if wLength == 0 {
      return;
    }
    FirstArm(control.dataLen);
    data := StoreAll(control, arrivals, accepts);
    log := control.log;
  }

  /** Stores packets until the data stage is over or the host offers no more. */
  method StoreAll(control: Control, arrivals: seq<seq<byte>>, accepts: bool) returns (data: seq<byte>)
    requires control.Receiving([], 0)
    modifies control, control.staging, control.buffer
    ensures
      var r := Accepts(old(control.dataLen), old(control.request.wLength), arrivals);
      && data == r.bytes
      && control.log == if r.over then Arms(old(control.dataLen), r.packets) + Closing(Out, accepts)
                        else Arms(old(control.dataLen), r.packets + 1)
  {
    hide Accepts, Fitting, StillOpen, Arms, Closing;
    ghost var room, wLength := control.dataLen, control.request.wLength;
    ghost var buffer := control.buffer;
    var open, k := true, 0;
    data := [];
    OpenAtFirst(room, wLength, arrivals);
    while open && k < |arrivals|
      invariant control.request.wLength == wLength && control.dataLen == room && control.buffer == buffer
      invariant k <= |arrivals|
      invariant open ==> control.Receiving(data, k) && StillOpen(room, wLength, arrivals, data, k)
      invariant !open ==>
        Accepts(room, wLength, arrivals) == Taken(data, k, true) && control.Received(data, k, accepts)
      decreases |arrivals| - k
    {
      OneMoreAccepted(room, wLength, arrivals, data, k);
      var packet;
      packet, open := control.GivenByHost(data, k, arrivals[k], accepts);
      data := data + packet;
      k := k + 1;
    }
    if open {
      NoneLeft(room, wLength, arrivals, data);
    }
  }

  /** Without a buffer nothing is stored, and no completion is acknowledged. */
  method TakeNowhere(control: Control, wLength: u16, len: u16, arrivals: seq<seq<byte>>, accepts: bool)
    returns (log: seq<Transaction>)
    requires control.Layout() && control.busy == {} && control.log == []
    modifies control, control.staging
    ensures log == TakenLog(wLength, len, false, arrivals, accepts)
    ensures 0 < wLength && len == 0 ==> Accepts(0, wLength, arrivals).bytes == []
  {
    FirstArm(0);
    var ok := control.Xfer(Request(Out, wLength), null, len);
    if ok && 0 < wLength && 0 < |arrivals| {
      assert Fitting(arrivals[0], 0) == [];
      assert Accepts(0, wLength, arrivals) == Taken([], 1, true);
      ok := control.XferComplete(Out, 0, accepts);
    }
    log := control.log;
  }
}
