/** Both transports as objects, driven side by side the way the conformance harness drives them. */
module Harness {
  import opened Words
  import opened Protocol
  import opened DeviceModel
  import opened DeviceInvariant
  import opened DeviceCore
  import opened NtrBus
  import opened BusCommands
  import opened RegisterTransport
  import opened DspicoModel
  import opened Dspico
  import opened Conformance

  /** Any accesses at all, however ill-behaved: the object follows the reference bus, and the device
      has been asked exactly what the commands of the trace ask, one atomic call each. */
  method RunTrace(t: RegisterTransport, device: Device, regs: array<byte>, trace: seq<Access>)
    requires t.Ready(device, regs)
    requires forall k | 0 <= k < |trace| :: trace[k].offset <= 0xFFFF_FFFB
    modifies t, t.buffer, regs, device.Repr()
    ensures t.Ready(device, regs) && device.Repr() == old(device.Repr())
    ensures t.View(regs) == BusAfter(old(t.View(regs)), old(device.State()), trace)
    ensures device.State() == Run(old(device.State()), TraceCalls(old(t.CurrentPhase()), old(regs[..]), trace))
  {
    ViewIsBounded(t, regs);
    hide Run, Next, Calls, CallsOfTrace, TraceCalls, RegisterTransport.CurrentPhase, Bounded, SamePage;
    ghost var b0, d0 := t.View(regs), device.State();
    var i := 0;
    assert trace[0..] == trace;
    while i < |trace|
      invariant 0 <= i <= |trace|
      invariant t.Ready(device, regs) && device.Repr() == old(device.Repr())
      invariant BusAfter(b0, d0, trace) == BusAfter(t.View(regs), device.State(), trace[i..])
      invariant DeviceAfter(b0, d0, trace) == DeviceAfter(t.View(regs), device.State(), trace[i..])
    {
      assert trace[i..][0] == trace[i] && trace[i..][1..] == trace[i + 1..];
      match trace[i] {
        case LoadAt(offset) =>
          LoadIsQuiet(device.State(), offset, t.View(regs));
          var _ := t.Read32(device, regs, offset);
        case StoreAt(offset, value) =>
          t.Write32(device, regs, offset, value);
      }
      i := i + 1;
    }
    assert trace[i..] == [];
    Linearised(b0, d0, trace);
    SamePageAsItself(b0.page);
    CallsAreCommands(b0, d0, b0.page, trace);
  }

  lemma ViewIsBounded(t: RegisterTransport, regs: array<byte>)
    requires t.Valid() && regs.Length == PAGE_BYTES
    ensures Bounded(t.View(regs))
  {
  }

  lemma SamePageAsItself(page: Page)
    ensures SamePage(page, page)
  {
  }

  lemma LoadIsQuiet(d: DeviceState, offset: u32, b: Bus)
    ensures NextDevice(b, d, LoadAt(offset)) == d
  {
    RunOfNothing(d);
  }

  // ---------------------------------------------------------------------------
  // One transaction on the register page
  // ---------------------------------------------------------------------------

  method StageCommand(t: RegisterTransport, device: Device, regs: array<byte>, command: CommandBytes)
    requires t.Ready(device, regs)
    modifies t, t.buffer, regs, device.Repr()
    ensures t.Ready(device, regs) && device.Repr() == old(device.Repr())
    ensures t.View(regs) == BusAfter(old(t.View(regs)), old(device.State()), Staging(command))
    ensures device.State() == DeviceAfter(old(t.View(regs)), old(device.State()), Staging(command))
  {
    hide Next, NextDevice, RegisterTransport.View;
    ThreeAccesses(t.View(regs), device.State(), Staging(command));
    t.Write32(device, regs, REG_COMMAND, CommandWord(command, 0));
    t.Write32(device, regs, REG_COMMAND + 4, CommandWord(command, 4));
    t.Write32(device, regs, REG_ROMCNT, StartStatus(command[0]));
  }

  lemma ThreeAccesses(b: Bus, d: DeviceState, trace: seq<Access>)
    requires |trace| == 3
    ensures
      var b1, d1 := Next(b, d, trace[0]), NextDevice(b, d, trace[0]);
      var b2, d2 := Next(b1, d1, trace[1]), NextDevice(b1, d1, trace[1]);
      && BusAfter(b, d, trace) == Next(b2, d2, trace[2])
      && DeviceAfter(b, d, trace) == NextDevice(b2, d2, trace[2])
  {
    hide Next, NextDevice;
    var b1, d1 := Next(b, d, trace[0]), NextDevice(b, d, trace[0]);
    var b2, d2 := Next(b1, d1, trace[1]), NextDevice(b1, d1, trace[1]);
    assert trace[1..][0] == trace[1] && trace[1..][1..] == trace[2..] && trace[2..][1..] == [];
    assert BusAfter(b1, d1, trace[1..]) == BusAfter(b2, d2, trace[2..]);
    assert DeviceAfter(b1, d1, trace[1..]) == DeviceAfter(b2, d2, trace[2..]);
    assert BusAfter(b2, d2, trace[2..]) == BusAfter(Next(b2, d2, trace[2]), NextDevice(b2, d2, trace[2]), []);
    assert DeviceAfter(b2, d2, trace[2..]) == DeviceAfter(Next(b2, d2, trace[2]), NextDevice(b2, d2, trace[2]), []);
  }

  method Status(t: RegisterTransport, device: Device, regs: array<byte>) returns (value: u32)
    requires t.Ready(device, regs)
    modifies t, regs
    ensures t.Ready(device, regs) && device.State() == old(device.State())
    ensures t.View(regs) == old(t.View(regs)) && value == Load32(t.View(regs).page, REG_ROMCNT)
  {
    value := t.Read32(device, regs, REG_ROMCNT);
  }

  /** `words` have been read, and the bus `b` has `left` to go. */
  predicate ReadSoFar(b0: Bus, d: DeviceState, n: nat, b: Bus, left: nat, words: seq<u32>) {
    var all, rest := ReadPhase(b0, d, n), ReadPhase(b, d, left);
    all.0 == rest.0 && all.1 == rest.1 && all.2 == words + rest.2
  }

  lemma NothingRead(b: Bus, d: DeviceState, n: nat)
    ensures ReadSoFar(b, d, n, b, n, [])
  {
  }

  lemma ReadOneMore(b0: Bus, d: DeviceState, n: nat, b: Bus, left: nat, words: seq<u32>)
    requires ReadSoFar(b0, d, n, b, left, words)
    ensures
      var all := ReadPhase(b0, d, n);
      if left == 0 || !NtrBus.Ready(Load32(b.page, REG_ROMCNT)) then
        all.0 == b && all.1 == (left == 0) && all.2 == words
      else
        ReadSoFar(b0, d, n, Next(b, d, LoadAt(REG_FIFO)), left - 1, words + [Loaded(b, LoadAt(REG_FIFO))])
  {
    hide Next, Loaded, Load32, Ready;
  }

  method ReadWords(t: RegisterTransport, device: Device, regs: array<byte>, n: nat)
    returns (ok: bool, words: seq<u32>)
    requires t.Ready(device, regs)
    modifies t, regs
    ensures t.Ready(device, regs) && device.State() == old(device.State())
    ensures
      var phase := ReadPhase(old(t.View(regs)), device.State(), n);
      t.View(regs) == phase.0 && ok == phase.1 && words == phase.2
  {
    hide Next, Loaded, Ready, Load32, ReadPhase, ReadSoFar, RegisterTransport.View, RegisterTransport.Valid, Inv;
    words := [];
    ghost var b0, d := t.View(regs), device.State();
    NothingRead(b0, d, n);
    for i := 0 to n
      invariant t.Ready(device, regs) && device.State() == d
      invariant ReadSoFar(b0, d, n, t.View(regs), n - i, words)
    {
      ReadOneMore(b0, d, n, t.View(regs), n - i, words);
      var status := Status(t, device, regs);
      if !NtrBus.Ready(status) {
        return false, words;
      }
      var word := t.Read32(device, regs, REG_FIFO);
      words := words + [word];
    }
    ReadOneMore(b0, d, n, t.View(regs), 0, words);
    ok := true;
  }

  method WriteWords(t: RegisterTransport, device: Device, regs: array<byte>, words: seq<u32>)
    returns (ok: bool)
    requires t.Ready(device, regs)
    modifies t, t.buffer, regs, device.Repr()
    ensures t.Ready(device, regs) && device.Repr() == old(device.Repr())
    ensures (t.View(regs), device.State(), ok) == WritePhase(old(t.View(regs)), old(device.State()), words)
  {
    hide Next, NextDevice, Ready, Load32, RegisterTransport.View, RegisterTransport.Valid, Device.State, Inv;
    ghost var b0, d0 := t.View(regs), device.State();
    assert words[0..] == words;
    for i := 0 to |words|
      invariant t.Ready(device, regs) && device.Repr() == old(device.Repr())
      invariant WritePhase(b0, d0, words) == WritePhase(t.View(regs), device.State(), words[i..])
    {
      assert words[i..][0] == words[i] && words[i..][1..] == words[i + 1..];
      var status := Status(t, device, regs);
      if !NtrBus.Ready(status) {
        return false;
      }
      t.Write32(device, regs, REG_FIFO, words[i]);
    }
    ok := true;
  }

  /** Stages a command, raises activate, and moves the data phase word by word. */
  method RegTransaction(t: RegisterTransport, device: Device, regs: array<byte>, tx: Transaction)
    returns (ok: bool, out: seq<byte>)
    requires t.Ready(device, regs)
    modifies t, t.buffer, regs, device.Repr()
    ensures t.Ready(device, regs) && device.Repr() == old(device.Repr())
    ensures Issued(t.View(regs), device.State(), ok, out)
         == Conformance.RegIssue(old(t.View(regs)), old(device.State()), tx)
  {
    hide BusAfter, DeviceAfter, ReadPhase, WritePhase, Activates, Load32, RegisterTransport.View;
    var phase := PhaseForOpcode(tx.command[0]);
    StageCommand(t, device, regs, tx.command);
    out := [];
    var moved := true;
    if phase.direction == CartToConsole {
      var words;
      moved, words := ReadWords(t, device, regs, phase.bytes / 4);
      out := PadTo(BytesOf(words), phase.bytes);
    } else if phase.direction == ConsoleToCart {
      moved := WriteWords(t, device, regs, WordsOf(tx.data));
    }
    var status := Status(t, device, regs);
    ok := moved && !Activates(status);
  }

  /** The driver's caller may offer too little for the data phase: then nothing is put on the bus. */
  method RegIssue(t: RegisterTransport, device: Device, regs: array<byte>,
                  command: CommandBytes, input: seq<byte>, room: nat)
    returns (ok: bool, out: seq<byte>)
    requires t.Ready(device, regs)
    modifies t, t.buffer, regs, device.Repr()
    ensures t.Ready(device, regs) && device.Repr() == old(device.Repr())
    ensures
      var phase := PhaseForOpcode(command[0]);
      if (phase.direction == CartToConsole && room < phase.bytes)
         || (phase.direction == ConsoleToCart && |input| < phase.bytes)
      then !ok && out == [] && t.View(regs) == old(t.View(regs)) && device.State() == old(device.State())
      else
        Issued(t.View(regs), device.State(), ok, out)
        == Conformance.RegIssue(old(t.View(regs)), old(device.State()), Transaction(command, FirstBlock(input)))
  {
    hide Conformance.RegIssue, RegisterTransport.View, Inv;
    var phase := PhaseForOpcode(command[0]);
    if (phase.direction == CartToConsole && room < phase.bytes)
       || (phase.direction == ConsoleToCart && |input| < phase.bytes) {
      return false, [];
    }
    ok, out := RegTransaction(t, device, regs, Transaction(command, FirstBlock(input)));
  }

  /** What the data phase of an F4 takes of the bytes offered; no other command takes any. */
  function FirstBlock(input: seq<byte>): Block {
    if |input| < BLOCK_BYTES then Zeros(BLOCK_BYTES) else input[..BLOCK_BYTES]
  }

  // ---------------------------------------------------------------------------
  // Both transports
  // ---------------------------------------------------------------------------

  /** One transaction through the host shim. */
  method FirmwareIssue(target: DspicoTarget, tx: Transaction) returns (ok: bool, out: seq<byte>)
    requires target.Valid()
    modifies target, target.fifo, target.blockTx, target.blockRx, target.device.Repr()
    ensures target.Valid() && target.device.Repr() == old(target.device.Repr())
    ensures target.View() == DspicoIssue(old(target.View()), tx)
    ensures ok == DspicoOk(old(target.View()), tx)
    ensures out == Response(old(target.View()), DecodeCommand(tx.command))
  {
    hide AfterCommand, Response, DspicoOk, DspicoTarget.View;
    FirmwareSucceeds(target.View(), tx);
    var phase := PhaseForOpcode(tx.command[0]);
    var size := if phase.direction == CartToConsole then phase.bytes else 0;
    var buffer := new byte[size](i => 0);
    ResponseSize(target.View(), DecodeCommand(tx.command));
    var result := target.IssueCommand(tx.command, Some(tx.data), buffer);
    ok := !result.directionMismatch && !result.payloadLengthMismatch;
    out := buffer[..];
    WholeSplice(Zeros(size), Response(old(target.View()), DecodeCommand(tx.command)));
  }

  lemma WholeSplice(s: seq<byte>, data: seq<byte>)
    requires |s| == |data|
    ensures Splice(s, 0, data) == data
  {
  }

  ghost predicate Separate(t: RegisterTransport, device: Device, regs: array<byte>, target: DspicoTarget)
    reads t, device, target, target.device
  {
    {t, t.buffer, regs} + device.Repr()
      !! {target, target.fifo, target.blockTx, target.blockRx} + target.device.Repr()
  }

  /** Both ready, the page idle, the firmware in state `fw`, over the device `s` or one that differs
      from it at most in its transfer count. */
  ghost predicate Standing(t: RegisterTransport, device: Device, regs: array<byte>, target: DspicoTarget,
                           s: DeviceState, fw: Firmware)
    reads t, t.buffer, regs, device, device.Repr()
    reads target, target.blockTx, target.blockRx, target.fifo, target.device, target.device.Repr()
  {
    && t.Ready(device, regs) && target.Valid() && Separate(t, device, regs, target)
    && t.View(regs).phase == Idle && SameDevice(device.State(), s) && target.View() == fw
  }

  method RegisterTurn(t: RegisterTransport, device: Device, regs: array<byte>, target: DspicoTarget,
                      ghost fw: Firmware, tx: Transaction)
    returns (ok: bool, out: seq<byte>)
    requires Standing(t, device, regs, target, fw.device, fw) && !Diagnostic(DecodeCommand(tx.command))
    modifies t, t.buffer, regs, device.Repr()
    ensures device.Repr() == old(device.Repr()) && target.device.Repr() == old(target.device.Repr())
    ensures Standing(t, device, regs, target, DspicoIssue(fw, tx).device, fw)
    ensures out == Response(fw, DecodeCommand(tx.command)) && ok == Answered(DecodeCommand(tx.command))
  {
    hide Conformance.RegIssue, DspicoIssue, DspicoOk, Response, SameDevice, Diagnostic, Counter, Answered,
         RegisterTransport.View, RegisterTransport.Valid, DspicoTarget.View, Device.State, Inv,
         PhaseForOpcode, DecodeCommand;
    TransactionConforms(t.View(regs), device.State(), fw, tx);
    ok, out := RegTransaction(t, device, regs, tx);
  }

  method FirmwareTurn(t: RegisterTransport, device: Device, regs: array<byte>, target: DspicoTarget,
                      ghost fw: Firmware, tx: Transaction)
    returns (ok: bool, out: seq<byte>)
    requires Standing(t, device, regs, target, DspicoIssue(fw, tx).device, fw)
    modifies target, target.fifo, target.blockTx, target.blockRx, target.device.Repr()
    ensures device.Repr() == old(device.Repr()) && target.device.Repr() == old(target.device.Repr())
    ensures Standing(t, device, regs, target, DspicoIssue(fw, tx).device, DspicoIssue(fw, tx))
    ensures out == Response(fw, DecodeCommand(tx.command)) && ok == DspicoOk(fw, tx)
  {
    hide DspicoIssue, DspicoOk, Response, SameDevice, RegisterTransport.View, RegisterTransport.Valid,
         DspicoTarget.View, Device.State, Inv, DecodeCommand;
    ok, out := FirmwareIssue(target, tx);
  }

  /** The firmware's replay of `txs` is these answers and then the replay of what is left. */
  predicate ReplayedSoFar(fw0: Firmware, txs: seq<Transaction>, fw: Firmware, left: seq<Transaction>,
                          outs: seq<seq<byte>>, oks: seq<bool>)
  {
    var all, rest := ReplayDspico(fw0, txs), ReplayDspico(fw, left);
    all.outs == outs + rest.outs && all.oks == oks + rest.oks && all.device == rest.device
  }

  lemma NothingReplayedYet(fw: Firmware, txs: seq<Transaction>)
    ensures ReplayedSoFar(fw, txs, fw, txs[0..], [], [])
  {
    assert txs[0..] == txs;
  }

  lemma ReplayedOneMore(fw0: Firmware, txs: seq<Transaction>, fw: Firmware, i: nat,
                        outs: seq<seq<byte>>, oks: seq<bool>)
    requires i < |txs| && ReplayedSoFar(fw0, txs, fw, txs[i..], outs, oks)
    ensures ReplayedSoFar(fw0, txs, DspicoIssue(fw, txs[i]), txs[i + 1..],
                          outs + [Response(fw, DecodeCommand(txs[i].command))], oks + [DspicoOk(fw, txs[i])])
  {
    hide DspicoIssue, DspicoOk, Response, DecodeCommand;
    assert txs[i..][0] == txs[i] && txs[i..][1..] == txs[i + 1..];
  }

  lemma ReplayedAll(fw0: Firmware, txs: seq<Transaction>, fw: Firmware, outs: seq<seq<byte>>, oks: seq<bool>)
    requires ReplayedSoFar(fw0, txs, fw, txs[|txs|..], outs, oks)
    ensures ReplayDspico(fw0, txs) == Conformance.Replay.Replay(fw.device, outs, oks)
  {
  }

  /** The same transactions through both transports, none reading the firmware's own counters: the
      same response bytes, and the same device but for its transfer count. The page's driver reports
      success except for foreign traffic with a data phase. */
  method Replay(t: RegisterTransport, device: Device, regs: array<byte>, target: DspicoTarget,
                ghost fw0: Firmware, txs: seq<Transaction>)
    returns (registerOuts: seq<seq<byte>>, registerOks: seq<bool>,
             firmwareOuts: seq<seq<byte>>, firmwareOks: seq<bool>, ghost fw: Firmware)
    requires Standing(t, device, regs, target, fw0.device, fw0)
    requires forall k | 0 <= k < |txs| :: !Diagnostic(DecodeCommand(txs[k].command))
    modifies t, t.buffer, regs, device.Repr()
    modifies target, target.fifo, target.blockTx, target.blockRx, target.device.Repr()
    ensures Standing(t, device, regs, target, fw.device, fw)
    ensures ReplayDspico(fw0, txs) == Conformance.Replay.Replay(fw.device, firmwareOuts, firmwareOks)
    ensures registerOuts == firmwareOuts && |registerOks| == |txs|
    ensures forall k | 0 <= k < |txs| :: registerOks[k] <==> Answered(DecodeCommand(txs[k].command))
  {
    hide *;
    registerOuts, registerOks, firmwareOuts, firmwareOks, fw := [], [], [], [], fw0;
    NothingReplayedYet(fw0, txs);
    for i := 0 to |txs|
      invariant device.Repr() == old(device.Repr()) && target.device.Repr() == old(target.device.Repr())
      invariant Standing(t, device, regs, target, fw.device, fw)
      invariant registerOuts == firmwareOuts && |registerOks| == i
      invariant forall k | 0 <= k < i :: registerOks[k] <==> Answered(DecodeCommand(txs[k].command))
      invariant ReplayedSoFar(fw0, txs, fw, txs[i..], firmwareOuts, firmwareOks)
    {
      ReplayedOneMore(fw0, txs, fw, i, firmwareOuts, firmwareOks);
      var registerOk, registerOut := RegisterTurn(t, device, regs, target, fw, txs[i]);
      var firmwareOk, firmwareOut := FirmwareTurn(t, device, regs, target, fw, txs[i]);
      registerOuts, registerOks := registerOuts + [registerOut], registerOks + [registerOk];
      firmwareOuts, firmwareOks := firmwareOuts + [firmwareOut], firmwareOks + [firmwareOk];
      fw := DspicoIssue(fw, txs[i]);
    }
    ReplayedAll(fw0, txs, fw, firmwareOuts, firmwareOks);
  }

  method FreshDevice() returns (device: Device)
    ensures device.Valid() && device.State() == InitialState(LOCAL_CONFIG) && fresh(device.Repr())
  {
    hide InitialState, Inv;
    device := new Device();
    var pool := new byte[LOCAL_BYTES](i => 0);
    device.Reset(LOCAL_CONFIG, pool);
  }

  method RegReset() returns (t: RegisterTransport, device: Device, regs: array<byte>)
    ensures t.Ready(device, regs) && t.View(regs).phase == Idle && device.State() == InitialState(LOCAL_CONFIG)
    ensures fresh(t) && fresh(t.buffer) && fresh(regs) && fresh(device.Repr())
  {
    hide InitialState, Inv, Store32, Device.State, Device.Valid;
    device := FreshDevice();
    regs := new byte[PAGE_BYTES](i => 0);
    t := new RegisterTransport();
    t.Reset(regs);
  }

  method DspicoReset() returns (target: DspicoTarget)
    ensures target.Valid() && target.View() == Firmware(InitialState(LOCAL_CONFIG), 0, 0, 0, 0)
    ensures fresh(target) && fresh(target.fifo) && fresh(target.blockTx) && fresh(target.blockRx)
    ensures fresh(target.device.Repr())
  {
    hide InitialState, Inv;
    var device := new Device();
    var local := new byte[LOCAL_BYTES](i => 0);
    target := new DspicoTarget(device);
    target.Reset(local);
  }

  ghost function DeviceAtEnd(t: RegisterTransport, device: Device, regs: array<byte>, target: DspicoTarget,
                             fw: Firmware): (s: DeviceState)
    requires Standing(t, device, regs, target, fw.device, fw)
    reads t, t.buffer, regs, device, device.Repr()
    reads target, target.blockTx, target.blockRx, target.fifo, target.device, target.device.Repr()
    ensures s == device.State() && SameDevice(s, fw.device)
  {
    device.State()
  }

  /** The firmware's replay from power-up. */
  function FirmwareFromReset(txs: seq<Transaction>): Conformance.Replay {
    ReplayDspico(Firmware(InitialState(LOCAL_CONFIG), 0, 0, 0, 0), txs)
  }

  /** Both targets from power-up over equal pools, as the conformance harness starts them: the same
      bytes, the page's success exactly where it has an answer, and the same device at the end. */
  method FromReset(txs: seq<Transaction>)
    returns (registerOuts: seq<seq<byte>>, registerOks: seq<bool>,
             firmwareOuts: seq<seq<byte>>, firmwareOks: seq<bool>,
             ghost registerDevice: DeviceState, ghost firmwareDevice: DeviceState)
    requires forall k | 0 <= k < |txs| :: !Diagnostic(DecodeCommand(txs[k].command))
    ensures FirmwareFromReset(txs) == Conformance.Replay.Replay(firmwareDevice, firmwareOuts, firmwareOks)
    ensures registerOuts == firmwareOuts && SameDevice(registerDevice, firmwareDevice)
    ensures |registerOks| == |txs|
    ensures forall k | 0 <= k < |txs| :: registerOks[k] <==> Answered(DecodeCommand(txs[k].command))
  {
    hide ReplayDspico, Diagnostic, Answered, InitialState, Inv, SameDevice, RegisterTransport.Ready,
         RegisterTransport.View, DspicoTarget.Valid, DspicoTarget.View, Device.State, DecodeCommand;
    SameDeviceAsItself(InitialState(LOCAL_CONFIG));
    var t, device, regs := RegReset();
    var target := DspicoReset();
    ghost var fw;
    registerOuts, registerOks, firmwareOuts, firmwareOks, fw :=
      Replay(t, device, regs, target, Firmware(InitialState(LOCAL_CONFIG), 0, 0, 0, 0), txs);
    registerDevice, firmwareDevice := DeviceAtEnd(t, device, regs, target, fw), fw.device;
  }
}
