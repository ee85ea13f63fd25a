/** The register page in numbers: offsets, bits and block codes, and when an access is a fault. */
module PageNumbers {
  import opened Words
  import opened Protocol
  import opened DeviceModel
  import opened NtrBus
  import opened Conformance
  import opened WireFormat

  /** The block code of an opcode in ROMCNT bits 26:24. */
  function Code(opcode: byte): nat {
    if opcode == 0xF2 then 7 else if opcode == 0xF4 || opcode == 0xF5 then 1 else 0
  }

  /** Four bytes come back for F2, 512 for F5; 512 go out for F4; nothing moves otherwise. */
  lemma PhaseNumbers(opcode: byte)
    ensures
      PhaseForOpcode(opcode)
      == (if opcode == 0xF2 then ExpectedPhase(CartToConsole, 4, Code(opcode))
          else if opcode == 0xF5 then ExpectedPhase(CartToConsole, 512, Code(opcode))
          else if opcode == 0xF4 then ExpectedPhase(ConsoleToCart, 512, Code(opcode))
          else ExpectedPhase(NoPhase, 0, Code(opcode)))
  {
  }

  /** A command starts at a store to offset 4 with bit 31 set while nothing is open, from the eight
      bytes at offset 8; it runs if they are GekkoPAK's and bits 26:24 are the code of its opcode. */
  lemma StartNumbers(b: Bus, a: Access, romcnt: u32)
    ensures Starts(b, a) <==> a.StoreAt? && a.offset == 4 && a.value >= 0x8000_0000 && b.phase == Idle
    ensures
      Accepts(Command(b.page), romcnt)
      <==> b.page[9] == 0x47 && b.page[10] == 0x4B && romcnt / 0x100_0000 % 8 == Code(b.page[8])
    ensures Command(b.page).opcode == b.page[8] && Command(b.page).index == b.page[11]
    ensures Command(b.page).word == Number(b.page[15], b.page[14], b.page[13], b.page[12])
  {
    CommandFields(b.page[8..16]);
    PhaseNumbers(b.page[8]);
    hide DecodeCommand, Number;
    assert b.page[8..16][0] == b.page[8] && b.page[8..16][1] == b.page[9];
    assert b.page[8..16][2] == b.page[10] && b.page[8..16][3] == b.page[11];
    assert b.page[8..16][4] == b.page[12] && b.page[8..16][5] == b.page[13];
    assert b.page[8..16][6] == b.page[14] && b.page[8..16][7] == b.page[15];
  }

  /** Data-ready is bit 23; raising it changes no other bit, and releasing the bus clears it and bit 31
      and changes no other. */
  lemma StatusBits(v: u32)
    ensures Ready(v) <==> v / 0x80_0000 % 2 == 1
    ensures
      var w := WithReady(v);
      w / 0x80_0000 % 2 == 1 && w / 0x100_0000 == v / 0x100_0000 && w % 0x80_0000 == v % 0x80_0000
    ensures
      var w := Released(v);
      && w < 0x8000_0000 && w / 0x80_0000 % 2 == 0
      && w / 0x100_0000 == v / 0x100_0000 % 0x80 && w % 0x80_0000 == v % 0x80_0000
  {
    ReadyBits(v);
    ReleasedBits(v);
    hide WithReady, Released;
  }

  /** A word from its bits 31:24, 23 and 22:0. */
  lemma Composed(v: u32, high: nat, bit: nat, low: nat)
    requires v == 0x100_0000 * high + 0x80_0000 * bit + low && bit <= 1 && low < 0x80_0000
    ensures v / 0x100_0000 == high && v % 0x80_0000 == low && v / 0x80_0000 % 2 == bit
  {
    assert v / 0x80_0000 == 2 * high + bit;
  }

  lemma Parts(v: u32) returns (high: nat, bit: nat, low: nat)
    ensures v == 0x100_0000 * high + 0x80_0000 * bit + low && bit <= 1 && low < 0x80_0000 && high < 0x100
  {
    high, bit, low := v / 0x100_0000, v / 0x80_0000 % 2, v % 0x80_0000;
    assert v / 0x100_0000 == v / 0x80_0000 / 2;
  }

  lemma ReadyBits(v: u32)
    ensures
      var w := WithReady(v);
      w / 0x80_0000 % 2 == 1 && w / 0x100_0000 == v / 0x100_0000 && w % 0x80_0000 == v % 0x80_0000
  {
    var high, bit, low := Parts(v);
    Composed(v, high, bit, low);
    Composed(v - 0x80_0000 * bit + 0x80_0000, high, 1, low);
  }

  lemma ReleasedParts(v: u32, high: nat, bit: nat, low: nat)
    requires v == 0x100_0000 * high + 0x80_0000 * bit + low && bit <= 1 && low < 0x80_0000 && high < 0x100
    ensures Released(v) == 0x100_0000 * (high % 0x80) + low
  {
    var quiet := if high >= 0x80 then high - 0x80 else high;
    Composed(0x100_0000 * quiet + 0x80_0000 * bit + low, quiet, bit, low);
  }

  lemma ReleasedBits(v: u32)
    ensures
      var w := Released(v);
      && w < 0x8000_0000 && w / 0x80_0000 % 2 == 0
      && w / 0x100_0000 == v / 0x100_0000 % 0x80 && w % 0x80_0000 == v % 0x80_0000
  {
    var high, bit, low := Parts(v);
    ReleasedParts(v, high, bit, low);
    Composed(v, high, bit, low);
    Composed(Released(v), high % 0x80, 0, low);
    hide Released;
  }

  /** What the driver stores: the command at offsets 8 and 12, least significant byte first, then
      activate, reset high and the block code at offset 4. */
  lemma StagingNumbers(command: CommandBytes)
    ensures
      Staging(command) == [StoreAt(8, U32At(command, 0)), StoreAt(12, U32At(command, 4)),
                           StoreAt(4, 0xA000_0000 + 0x100_0000 * Code(command[0]))]
  {
    PhaseNumbers(command[0]);
  }

  /** The FIFO at offset 0x1C is read with no read open, or written with no write open. */
  predicate OutOfPhase(b: Bus, a: Access) {
    && a.offset == 0x1C
    && !(a.LoadAt? && b.phase.Reading? && b.phase.words != [])
    && !(a.StoreAt? && b.phase.Writing?)
  }

  /** A command of GekkoPAK's is started with another block code than its opcode's. */
  predicate Mismatched(b: Bus, a: Access) {
    && Starts(b, a) && b.page[9] == 0x47 && b.page[10] == 0x4B
    && a.value / 0x100_0000 % 8 != Code(b.page[8])
  }

  /** An access adds one fault exactly in these two cases, and records which; the fault count and the
      last fault are otherwise kept. */
  lemma FaultNumbers(b: Bus, d: DeviceState, a: Access)
    ensures
      var b' := Next(b, d, a);
      if OutOfPhase(b, a) then b'.faults == (b.faults + 1) % 0x1_0000_0000 && b'.fault == FifoOutOfPhase
      else if Mismatched(b, a) then b'.faults == (b.faults + 1) % 0x1_0000_0000 && b'.fault == BlockSizeMismatch
      else b'.faults == b.faults && b'.fault == b.fault
  {
    hide Store32, Load32, Command, Released, WithReady, OpenedPhase;
    if Starts(b, a) {
      StartNumbers(b, a, a.value);
      CommandUnderStatus(b.page, a.value);
      hide Accepts;
      var stored := b.(page := Store32(b.page, 4, a.value));
      CommandValid(b.page);
      assert Next(b, d, a) == Started(stored, d);
      assert Command(stored.page) == Command(b.page) && Load32(stored.page, 4) == a.value;
    }
  }

  lemma CommandValid(page: Page)
    ensures Command(page).valid <==> page[9] == 0x47 && page[10] == 0x4B
  {
    assert page[8..16][1] == page[9] && page[8..16][2] == page[10];
  }

  /** Away from the FIFO a load answers the little-endian word of the page and changes nothing, and a
      store that starts nothing changes those four bytes; off the page nothing happens. */
  lemma PlainAccess(b: Bus, d: DeviceState, a: Access)
    requires a.offset != 0x1C && !Starts(b, a)
    ensures
      var b' := Next(b, d, a);
      if a.offset + 4 > 0x1000 then b' == b && Loaded(b, a) == 0
      else if a.LoadAt? then b' == b && Loaded(b, a) == U32At(b.page, a.offset)
      else
        && b' == b.(page := b'.page) && U32At(b'.page, a.offset) == a.value
        && forall k | 0 <= k < 0x1000 && !(a.offset <= k < a.offset + 4) :: b'.page[k] == b.page[k]
  {
    if a.offset + 4 <= 0x1000 && a.StoreAt? {
      StoredWord(b.page, a.offset, a.value);
      LoadedNumber(Store32(b.page, a.offset, a.value), a.offset);
    }
    hide Store32;
  }

  lemma LoadedNumber(page: Page, offset: nat)
    requires offset + 4 <= 0x1000
    ensures Load32(page, offset) == U32At(page, offset)
  {
  }

  /** Every start counts one command; nothing else does. */
  lemma CommandCount(b: Bus, d: DeviceState, a: Access)
    ensures Next(b, d, a).commands == (b.commands + (if Starts(b, a) then 1 else 0)) % 0x1_0000_0000_0000_0000
  {
    hide Store32, Load32, Command, Released, WithReady, OpenedPhase, Accepts;
  }
}
