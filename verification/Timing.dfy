/** The integer timing model, in nanoseconds, with its 32-bit truncations. */
module Timing {
  import opened Words

  datatype TimingModel = TimingModel(
    commandLatencyNs: u32, busBytesPerSecond: u32, kernelOpsPerSecond: u32)

  /** 25 us a command, 6 MiB/s, 1e8 operations a second. */
  const DEFAULT_TIMING := TimingModel(25_000, 6 * 1024 * 1024, 100_000_000)

  const NS_PER_SECOND := 1_000_000_000
  const BLOCK_ROUND_TRIP_BYTES: u32 := 512 + 4 + 512

  /** `amount` units at `rate` units a second, to the nearest nanosecond, before truncation. */
  function RoundedNs(amount: u32, rate: u32): nat {
    if rate == 0 then 0 else (amount * NS_PER_SECOND + rate / 2) / rate
  }

  function TransferNs(t: TimingModel, bytes: u32): u32 {
    Wrap32(RoundedNs(bytes, t.busBytesPerSecond))
  }

  function ComputeNs(t: TimingModel, operations: u32): u32 {
    Wrap32(RoundedNs(operations, t.kernelOpsPerSecond))
  }

  function NsToUs(ns: u32): u32 { Wrap32(ns + 500) / 1000 }

  function LegacyModelUs(t: TimingModel, txBytes: u32, rxBytes: u32, operations: u32): u32 {
    NsToUs(Wrap32(t.commandLatencyNs + TransferNs(t, txBytes) + TransferNs(t, rxBytes)
                  + ComputeNs(t, operations)))
  }

  /** One F4, one event read and one F5. */
  function BlockTransportNs(t: TimingModel): u32 {
    Wrap32(3 * t.commandLatencyNs + TransferNs(t, BLOCK_ROUND_TRIP_BYTES))
  }

  function TransportShareNs(t: TimingModel, batch: nat): u32
    requires 0 < batch <= 8
  {
    Share(BlockTransportNs(t), batch)
  }

  function Share(total: u32, batch: nat): (share: u32)
    requires 0 < batch <= 8
  {
    ShareInRange(Wrap32(total + batch / 2), batch);
    Wrap32(total + batch / 2) / batch
  }

  function BlockModelUs(t: TimingModel, workUnits: u32, shareNs: u32): u32 {
    NsToUs(Wrap32(ComputeNs(t, workUnits) + shareNs))
  }

  function SpeedupX1000(softwareUs: u32, modeledUs: u32): u32 {
    if modeledUs == 0 then 0 else Wrap32(softwareUs * 1000 / modeledUs)
  }

  lemma ShareInRange(x: u32, batch: nat)
    requires 0 < batch
    ensures 0 <= x / batch <= x
  {
    DivMonotone(0, x, batch);
    MulMonotone(1, batch, x, x);
    DivAtMost(x, batch, x);
  }

  lemma DivBounds(x: nat, d: nat)
    requires 0 < d
    ensures d * (x / d) <= x < d * (x / d) + d
  {
  }

  // ---------------------------------------------------------------------------
  // Accuracy
  // ---------------------------------------------------------------------------

  /** The u64 intermediate the code divides never overflows. */
  lemma IntermediateFits(amount: u32, rate: u32)
    ensures amount * NS_PER_SECOND + rate / 2 < 0x1_0000_0000_0000_0000
  {
  }

  function ExactNs(amount: u32, rate: u32): real {
    if rate == 0 then 0.0 else amount as real * 1_000_000_000.0 / rate as real
  }

  lemma RoundingError(amount: u32, rate: u32)
    ensures ExactNs(amount, rate) - 0.5 <= RoundedNs(amount, rate) as real <= ExactNs(amount, rate) + 0.5
  {
    if rate != 0 {
      var n := amount * NS_PER_SECOND;
      DivBounds(n + rate / 2, rate);
      NearestQuotient(n, rate, RoundedNs(amount, rate));
      assert n as real == amount as real * 1_000_000_000.0;
    }
  }

  lemma NearestQuotient(n: nat, d: nat, q: nat)
    requires 0 < d
    requires 2 * (d * q) - d <= 2 * n <= 2 * (d * q) + d
    ensures n as real / d as real - 0.5 <= q as real <= n as real / d as real + 0.5
  {
    RealQuotient(n as real, d as real, q as real, (d * q) as real);
  }

  lemma RealQuotient(n: real, d: real, q: real, p: real)
    requires d > 0.0 && p == d * q
    requires 2.0 * p - d <= 2.0 * n <= 2.0 * p + d
    ensures n / d - 0.5 <= q <= n / d + 0.5
  {
    var x := n / d;
    assert x * d == n;
    assert (x - q) * d == n - p;
    SignOfProduct(x - q + 0.5, d, n - p + 0.5 * d);
    SignOfProduct(q - x + 0.5, d, p - n + 0.5 * d);
  }

  lemma SignOfProduct(a: real, d: real, p: real)
    requires d > 0.0 && a * d == p && p >= 0.0
    ensures a >= 0.0
  {
  }

  function LegacyTotalNs(t: TimingModel, txBytes: u32, rxBytes: u32, operations: u32): nat {
    t.commandLatencyNs + RoundedNs(txBytes, t.busBytesPerSecond)
    + RoundedNs(rxBytes, t.busBytesPerSecond) + RoundedNs(operations, t.kernelOpsPerSecond)
  }

  function ExactLegacyNs(t: TimingModel, txBytes: u32, rxBytes: u32, operations: u32): real {
    t.commandLatencyNs as real + ExactNs(txBytes, t.busBytesPerSecond)
    + ExactNs(rxBytes, t.busBytesPerSecond) + ExactNs(operations, t.kernelOpsPerSecond)
  }

  predicate Close(us: u32, exactNs: real) {
    exactNs - 501.5 <= 1000.0 * us as real <= exactNs + 501.5
  }

  lemma WrapSum(a: nat, b: nat, c: nat, d: nat)
    ensures Wrap32(a + Wrap32(b) + Wrap32(c) + Wrap32(d)) == Wrap32(a + b + c + d)
  {
    WrapAdd(a + Wrap32(b) + Wrap32(c), d);
    WrapAdd(a + Wrap32(b) + d, c);
    WrapAdd(a + c + d, b);
  }

  lemma WrapAdd(a: nat, b: nat)
    ensures Wrap32(a + Wrap32(b)) == Wrap32(a + b)
  {
    var q := b / 0x1_0000_0000;
    assert b == Wrap32(b) + q * 0x1_0000_0000;
    WrapMultiple(a + Wrap32(b), q);
  }

  lemma WrapMultiple(a: nat, q: nat)
    ensures Wrap32(a + q * 0x1_0000_0000) == Wrap32(a)
  {
  }

  /** The truncated total in closed form. */
  lemma LegacyModelClosedForm(t: TimingModel, txBytes: u32, rxBytes: u32, operations: u32)
    ensures LegacyModelUs(t, txBytes, rxBytes, operations)
         == Wrap32(LegacyTotalNs(t, txBytes, rxBytes, operations) + 500) / 1000
  {
    var total := LegacyTotalNs(t, txBytes, rxBytes, operations);
    WrapSum(t.commandLatencyNs, RoundedNs(txBytes, t.busBytesPerSecond),
            RoundedNs(rxBytes, t.busBytesPerSecond), RoundedNs(operations, t.kernelOpsPerSecond));
    WrapAdd(500, total);
  }

  /** The reported time is within 501.5 ns of the exact rational time exactly when the rounded
      nanosecond total, plus the 500 that rounds it to microseconds, fits in 32 bits. */
  lemma LegacyModelAccuracy(t: TimingModel, txBytes: u32, rxBytes: u32, operations: u32)
    ensures Close(LegacyModelUs(t, txBytes, rxBytes, operations),
                  ExactLegacyNs(t, txBytes, rxBytes, operations))
       <==> LegacyTotalNs(t, txBytes, rxBytes, operations) + 500 < 0x1_0000_0000
  {
    LegacyModelClosedForm(t, txBytes, rxBytes, operations);
    RoundingError(txBytes, t.busBytesPerSecond);
    RoundingError(rxBytes, t.busBytesPerSecond);
    RoundingError(operations, t.kernelOpsPerSecond);
    CloseToTotal(LegacyTotalNs(t, txBytes, rxBytes, operations),
                 LegacyModelUs(t, txBytes, rxBytes, operations),
                 ExactLegacyNs(t, txBytes, rxBytes, operations));
  }

  lemma CloseToTotal(total: nat, us: u32, exact: real)
    requires us == Wrap32(total + 500) / 1000
    requires exact - 1.5 <= total as real <= exact + 1.5
    ensures Close(us, exact) <==> total + 500 < 0x1_0000_0000
  {
    var w := Wrap32(total + 500);
    assert 1000 * us <= w < 1000 * us + 1000;
    assert 1000.0 * us as real == (1000 * us) as real;
    if total + 500 < 0x1_0000_0000 {
      assert total - 500 < 1000 * us <= total + 500;
    } else {
      assert w <= total + 500 - 0x1_0000_0000;
      assert 1000 * us <= total + 500 - 0x1_0000_0000;
    }
  }

  lemma RoundedMonotone(a: u32, b: u32, rate: u32)
    requires a <= b
    ensures RoundedNs(a, rate) <= RoundedNs(b, rate)
  {
    if rate != 0 {
      DivMonotone(a * NS_PER_SECOND + rate / 2, b * NS_PER_SECOND + rate / 2, rate);
    }
  }

  lemma DivMonotone(x: nat, y: nat, d: nat)
    requires 0 < d && x <= y
    ensures x / d <= y / d
  {
    DivBounds(x, d);
    DivAtLeast(y, d, x / d);
  }

  lemma DivAtLeast(x: nat, d: nat, q: nat)
    requires 0 < d && d * q <= x
    ensures q <= x / d
  {
    DivBounds(x, d);
    if x / d < q {
      MulMonotone(d, d, x / d + 1, q);
    }
  }

  lemma DivAtMost(x: nat, d: nat, q: nat)
    requires 0 < d && x <= d * q
    ensures x / d <= q
  {
    DivBounds(x, d);
    if q < x / d {
      MulMonotone(d, d, q + 1, x / d);
    }
  }

  /** More bytes or more operations never make the reported time shorter, as long as the larger
      total fits. */
  lemma LegacyModelMonotone(t: TimingModel, tx: u32, rx: u32, ops: u32, tx': u32, rx': u32, ops': u32)
    requires tx <= tx' && rx <= rx' && ops <= ops'
    requires LegacyTotalNs(t, tx', rx', ops') + 500 < 0x1_0000_0000
    ensures LegacyModelUs(t, tx, rx, ops) <= LegacyModelUs(t, tx', rx', ops')
  {
    RoundedMonotone(tx, tx', t.busBytesPerSecond);
    RoundedMonotone(rx, rx', t.busBytesPerSecond);
    RoundedMonotone(ops, ops', t.kernelOpsPerSecond);
    LegacyModelClosedForm(t, tx, rx, ops);
    LegacyModelClosedForm(t, tx', rx', ops');
    RoundToUsMonotone(LegacyTotalNs(t, tx, rx, ops), LegacyTotalNs(t, tx', rx', ops'));
  }

  /** Nothing up to these arguments is reported as taking longer than something larger. */
  ghost predicate MonotoneUpTo(t: TimingModel, tx: u32, rx: u32, ops: u32) {
    forall a, b, c, a', b', c' |
      0 <= a <= a' <= tx && 0 <= b <= b' <= rx && 0 <= c <= c' <= ops ::
      LegacyModelUs(t, a, b, c) <= LegacyModelUs(t, a', b', c')
  }

  /** And that is exactly as far as the total fits: the first sum that does not fit is reported as
      shorter than the one before it. */
  lemma MonotoneWhileItFits(t: TimingModel, tx: u32, rx: u32, ops: u32)
    requires t.commandLatencyNs + 500 < 0x1_0000_0000
    ensures MonotoneUpTo(t, tx, rx, ops) <==> LegacyTotalNs(t, tx, rx, ops) + 500 < 0x1_0000_0000
  {
    hide LegacyModelUs, LegacyTotalNs;
    if LegacyTotalNs(t, tx, rx, ops) + 500 < 0x1_0000_0000 {
      forall a, b, c, a', b', c' |
        0 <= a <= a' <= tx && 0 <= b <= b' <= rx && 0 <= c <= c' <= ops
        ensures LegacyModelUs(t, a, b, c) <= LegacyModelUs(t, a', b', c')
      {
        TotalMonotone(t, a', b', c', tx, rx, ops);
        LegacyModelMonotone(t, a, b, c, a', b', c');
      }
    } else {
      NothingTakesLatency(t);
      var a, b, c, a', b', c' := FirstOverflow(t, tx, rx, ops);
      OverflowShrinks(t, a, b, c, a', b', c');
    }
  }

  lemma NothingTakesLatency(t: TimingModel)
    ensures LegacyTotalNs(t, 0, 0, 0) == t.commandLatencyNs
  {
    NoneTakesNothing(t.busBytesPerSecond);
    NoneTakesNothing(t.kernelOpsPerSecond);
  }

  lemma NoneTakesNothing(rate: u32)
    ensures RoundedNs(0, rate) == 0
  {
    if rate != 0 {
      DivBounds(rate / 2, rate);
      if rate / 2 / rate > 0 {
        MulMonotone(rate, rate, 1, rate / 2 / rate);
      }
    }
  }

  lemma TotalMonotone(t: TimingModel, tx: u32, rx: u32, ops: u32, tx': u32, rx': u32, ops': u32)
    requires tx <= tx' && rx <= rx' && ops <= ops'
    ensures LegacyTotalNs(t, tx, rx, ops) <= LegacyTotalNs(t, tx', rx', ops')
  {
    RoundedMonotone(tx, tx', t.busBytesPerSecond);
    RoundedMonotone(rx, rx', t.busBytesPerSecond);
    RoundedMonotone(ops, ops', t.kernelOpsPerSecond);
  }

  /** One byte or one operation takes at most a second. */
  lemma OneMoreUnit(amount: u32, rate: u32)
    requires amount + 1 < 0x1_0000_0000
    ensures RoundedNs(amount + 1, rate) <= RoundedNs(amount, rate) + NS_PER_SECOND
  {
    if rate != 0 {
      OneMoreQuotient(amount * NS_PER_SECOND + rate / 2, rate, NS_PER_SECOND);
    }
  }

  lemma OneMoreQuotient(x: nat, d: nat, step: nat)
    requires 0 < d && 0 < step
    ensures (x + step) / d <= x / d + step
  {
    DivBounds(x, d);
    MulMonotone(d - 1, d - 1, 1, step);
    assert d * (x / d + step) == d * (x / d) + (d - 1) * step + step;
    DivAtMost(x + step, d, x / d + step);
  }

  /** From arguments that fit to arguments that do not there is a last one that fits. */
  lemma FirstOverflow(t: TimingModel, tx: u32, rx: u32, ops: u32)
    returns (a: u32, b: u32, c: u32, a': u32, b': u32, c': u32)
    requires LegacyTotalNs(t, 0, 0, 0) + 500 < 0x1_0000_0000
    requires LegacyTotalNs(t, tx, rx, ops) + 500 >= 0x1_0000_0000
    ensures a <= a' <= tx && b <= b' <= rx && c <= c' <= ops
    ensures LegacyTotalNs(t, a, b, c) + 500 < 0x1_0000_0000 <= LegacyTotalNs(t, a', b', c') + 500
    ensures LegacyTotalNs(t, a', b', c') <= LegacyTotalNs(t, a, b, c) + NS_PER_SECOND
    decreases tx + rx + ops
  {
    a', b', c' := tx, rx, ops;
    if ops > 0 {
      OneMoreUnit(ops - 1, t.kernelOpsPerSecond);
      a, b, c := tx, rx, ops - 1;
    } else if rx > 0 {
      OneMoreUnit(rx - 1, t.busBytesPerSecond);
      a, b, c := tx, rx - 1, ops;
    } else {
      OneMoreUnit(tx - 1, t.busBytesPerSecond);
      a, b, c := tx - 1, rx, ops;
    }
    if LegacyTotalNs(t, a, b, c) + 500 >= 0x1_0000_0000 {
      a, b, c, a', b', c' := FirstOverflow(t, a, b, c);
    }
  }

  lemma OverflowShrinks(t: TimingModel, a: u32, b: u32, c: u32, a': u32, b': u32, c': u32)
    requires LegacyTotalNs(t, a, b, c) + 500 < 0x1_0000_0000 <= LegacyTotalNs(t, a', b', c') + 500
    requires LegacyTotalNs(t, a', b', c') <= LegacyTotalNs(t, a, b, c) + NS_PER_SECOND
    ensures LegacyModelUs(t, a, b, c) > LegacyModelUs(t, a', b', c')
  {
    LegacyModelClosedForm(t, a, b, c);
    LegacyModelClosedForm(t, a', b', c');
    hide LegacyModelUs, LegacyTotalNs;
    WrapMultiple(LegacyTotalNs(t, a', b', c') + 500 - 0x1_0000_0000, 1);
  }

  /** At one operation a second: four operations take four seconds, and five less than one. */
  lemma FiveSecondsWrap(t: TimingModel)
    requires t == TimingModel(0, 1, 1)
    ensures LegacyModelUs(t, 0, 0, 4) == 4_000_000 && LegacyModelUs(t, 0, 0, 5) == 705_033
    ensures !Close(LegacyModelUs(t, 0, 0, 5), ExactLegacyNs(t, 0, 0, 5))
  {
    hide LegacyModelUs, Close, ExactLegacyNs, RoundedNs;
    NoneTakesNothing(t.busBytesPerSecond);
    UnitRate(4);
    UnitRate(5);
    LegacyModelClosedForm(t, 0, 0, 4);
    LegacyModelClosedForm(t, 0, 0, 5);
    LegacyModelAccuracy(t, 0, 0, 5);
  }

  lemma UnitRate(amount: u32)
    ensures RoundedNs(amount, 1) == amount * NS_PER_SECOND
  {
  }

  /** The modelled time of a block job: its work and its share of the round trip. */
  function BlockTotalNs(t: TimingModel, workUnits: u32, shareNs: u32): nat {
    RoundedNs(workUnits, t.kernelOpsPerSecond) + shareNs
  }

  /** It is accurate under the same condition as SUBMIT's. */
  lemma BlockModelAccuracy(t: TimingModel, workUnits: u32, shareNs: u32)
    ensures Close(BlockModelUs(t, workUnits, shareNs),
                  ExactNs(workUnits, t.kernelOpsPerSecond) + shareNs as real)
       <==> BlockTotalNs(t, workUnits, shareNs) + 500 < 0x1_0000_0000
  {
    var rounded := RoundedNs(workUnits, t.kernelOpsPerSecond);
    RoundingError(workUnits, t.kernelOpsPerSecond);
    WrapAdd(shareNs, rounded);
    WrapAdd(500, rounded + shareNs);
    hide RoundedNs, ExactNs, Close, Wrap32;
    CloseToTotal(rounded + shareNs, BlockModelUs(t, workUnits, shareNs),
                 ExactNs(workUnits, t.kernelOpsPerSecond) + shareNs as real);
  }

  // ---------------------------------------------------------------------------
  // Speedup, round trip and the default model in numbers
  // ---------------------------------------------------------------------------

  /** The speedup is a thousand times the software time over the modelled time, rounded down, exactly
      when that quotient fits in 32 bits; a modelled time of zero gives zero. */
  lemma SpeedupMeaning(softwareUs: u32, modeledUs: u32)
    ensures
      var x := SpeedupX1000(softwareUs, modeledUs);
      && (modeledUs == 0 ==> x == 0)
      && (modeledUs > 0 ==>
            (x * modeledUs <= 1000 * softwareUs < (x + 1) * modeledUs
             <==> 1000 * softwareUs < 0x1_0000_0000 * modeledUs))
  {
    if modeledUs > 0 {
      var n := softwareUs * 1000;
      var q := n / modeledUs;
      DivBounds(n, modeledUs);
      SpeedupQuotient(n, modeledUs, q, SpeedupX1000(softwareUs, modeledUs));
    }
  }

  lemma SpeedupQuotient(n: nat, d: nat, q: nat, x: u32)
    requires 0 < d && d * q <= n < d * q + d && x == Wrap32(q)
    ensures x * d <= n < (x + 1) * d <==> n < 0x1_0000_0000 * d
  {
    assert (x + 1) * d == x * d + d;
    MulMonotone(0x1_0000_0000, Max(q, 0x1_0000_0000), d, d);
    MulMonotone(x + 1, 0x1_0000_0000, d, d);
  }

  /** The exact time of one round trip: three commands, and 1028 bytes over the bus. */
  function ExactRoundTripNs(t: TimingModel): real {
    3.0 * t.commandLatencyNs as real + ExactNs(1028, t.busBytesPerSecond)
  }

  /** The block round trip is that time to the nearest nanosecond, exactly while it fits. */
  lemma RoundTripAccuracy(t: TimingModel)
    ensures
      ExactRoundTripNs(t) - 0.5 <= BlockTransportNs(t) as real <= ExactRoundTripNs(t) + 0.5
      <==> 3 * t.commandLatencyNs + RoundedNs(1028, t.busBytesPerSecond) < 0x1_0000_0000
  {
    var rounded := RoundedNs(1028, t.busBytesPerSecond);
    var total := 3 * t.commandLatencyNs + rounded;
    RoundingError(1028, t.busBytesPerSecond);
    WrapAdd(3 * t.commandLatencyNs, rounded);
    hide RoundedNs, ExactNs;
    assert BlockTransportNs(t) == Wrap32(total);
    assert (3 * t.commandLatencyNs) as real == 3.0 * t.commandLatencyNs as real;
    if total >= 0x1_0000_0000 {
      assert BlockTransportNs(t) <= total - 0x1_0000_0000;
      assert BlockTransportNs(t) as real <= (total - 0x1_0000_0000) as real;
    }
  }

  /** The equal shares of a batch add up to the exact round trip within half a nanosecond a job and
      another half for the round trip itself. */
  lemma ShareAccuracy(t: TimingModel, batch: nat)
    requires 0 < batch <= 8
    requires 3 * t.commandLatencyNs + RoundedNs(1028, t.busBytesPerSecond) + batch / 2 < 0x1_0000_0000
    ensures
      ExactRoundTripNs(t) - 0.5 - (batch / 2) as real
      <= (batch * TransportShareNs(t, batch)) as real
      <= ExactRoundTripNs(t) + 0.5 + (batch / 2) as real
  {
    RoundTripAccuracy(t);
    hide ExactRoundTripNs, RoundedNs;
    var total := BlockTransportNs(t);
    RoundTripFits(t);
    SharesAddUp(total, batch);
    assert (total - batch / 2) as real == total as real - (batch / 2) as real;
  }

  lemma RoundTripFits(t: TimingModel)
    requires 3 * t.commandLatencyNs + RoundedNs(1028, t.busBytesPerSecond) < 0x1_0000_0000
    ensures BlockTransportNs(t) == 3 * t.commandLatencyNs + RoundedNs(1028, t.busBytesPerSecond)
  {
    WrapAdd(3 * t.commandLatencyNs, RoundedNs(1028, t.busBytesPerSecond));
  }

  lemma DefaultRates(bus: u32, kernel: u32)
    requires bus == 6_291_456 && kernel == 100_000_000
    ensures RoundedNs(0, bus) == 0 && RoundedNs(16, bus) == 2_543 && RoundedNs(1028, bus) == 163_396
    ensures RoundedNs(250_000, kernel) == 2_500_000 && RoundedNs(1_000_000, kernel) == 10_000_000
  {
  }

  /** The numbers of the default model, which the wire vectors expect. */
  lemma DefaultNumbers(t: TimingModel)
    requires t == TimingModel(25_000, 6_291_456, 100_000_000)
    ensures t == DEFAULT_TIMING
    ensures LegacyModelUs(t, 0, 16, 1_000_000) == 10_028
    ensures LegacyModelUs(t, 16, 16, 250_000) == 2_530
    ensures BlockTransportNs(t) == 238_396
    ensures BlockModelUs(t, 250_000, 238_396) == 2_738
  {
    DefaultRates(t.busBytesPerSecond, t.kernelOpsPerSecond);
    hide RoundedNs;
  }

  lemma DefaultSpeedups(modeledUs: u32)
    ensures modeledUs == 2_530 ==> SpeedupX1000(3_500, modeledUs) == 1_383
    ensures modeledUs == 2_738 ==> SpeedupX1000(3_500, modeledUs) == 1_278
  {
  }

  lemma RoundToUsMonotone(a: nat, b: nat)
    requires a <= b && b + 500 < 0x1_0000_0000
    ensures Wrap32(a + 500) / 1000 <= Wrap32(b + 500) / 1000
  {
  }

  // ---------------------------------------------------------------------------
  // Batching
  // ---------------------------------------------------------------------------

  /** The equal shares of a batch add up to the block round trip within half a nanosecond a job. */
  lemma SharesAddUp(total: u32, batch: nat)
    requires 0 < batch <= 8 && total + batch / 2 < 0x1_0000_0000
    ensures total - batch / 2 <= batch * Share(total, batch) <= total + batch / 2
  {
    DivBounds(total + batch / 2, batch);
  }

  /** A larger batch is never charged a larger share. */
  lemma ShareNeverIncreases(total: u32, small: nat, large: nat)
    requires 0 < small <= large <= 8 && total + large / 2 < 0x1_0000_0000
    ensures Share(total, large) <= Share(total, small)
  {
    var wide, narrow := total + large / 2, total + small / 2;
    assert Wrap32(wide) == wide && Wrap32(narrow) == narrow;
    assert Share(total, large) == wide / large;
    assert Share(total, small) == narrow / small;
    SmallerQuotient(total, small, large, wide / large);
  }

  lemma SmallerQuotient(total: nat, small: nat, large: nat, share: nat)
    requires 0 < small <= large && share == (total + large / 2) / large
    ensures share <= (total + small / 2) / small
  {
    DivBounds(total + large / 2, large);
    if share == 0 {
      DivAtLeast(total + small / 2, small, 0);
    } else {
      SmallerMultiple(small, large, share);
      HalfGap(total, small, large, small * share, large * share);
      DivAtLeast(total + small / 2, small, share);
    }
  }

  lemma HalfGap(total: nat, small: nat, large: nat, a: nat, b: nat)
    requires small <= large && a + (large - small) <= b <= total + large / 2
    ensures a <= total + small / 2
  {
  }

  lemma SmallerMultiple(small: nat, large: nat, share: nat)
    requires small <= large && 0 < share
    ensures small * share + (large - small) <= large * share
  {
    MulMonotone(large - small, large - small, 1, share);
    assert large * share == small * share + (large - small) * share;
  }

  lemma MulMonotone(a: nat, b: nat, x: nat, y: nat)
    requires a <= b && x <= y
    ensures a * x <= b * y
  {
    assert a * x <= b * x <= b * y;
  }
}
