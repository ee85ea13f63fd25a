/** What the firmware's own counters count, as F2 of 0xF0 to 0xF3 answers them. */
module FirmwareNumbers {
  import opened Words
  import opened Protocol
  import opened DeviceModel
  import opened DspicoModel
  import opened Conformance
  import opened WireFormat
  import opened Client

  function Issued(fw: Firmware, txs: seq<Transaction>): Firmware {
    if |txs| == 0 then fw else DspicoIssue(Issued(fw, txs[..|txs| - 1]), txs[|txs| - 1])
  }

  /** An F4, GekkoPAK's or not. */
  predicate IsF4(tx: Transaction) { tx.command[0] == 0xF4 }

  /** An F4 the firmware can hand over: the discriminator, selector 0 and a length up to 512. */
  predicate IsUsable(tx: Transaction) {
    && IsF4(tx) && tx.command[1] == 0x47 && tx.command[2] == 0x4B && tx.command[3] == 0
    && 0 < tx.command[7] as int + 256 * (tx.command[6] as int) <= 512
  }

  /** One that leaves 0 in RESULT. */
  predicate IsOk(fw: Firmware, tx: Transaction) { IsUsable(tx) && DspicoIssue(fw, tx).device.stage[5] == 0 }

  function F4s(txs: seq<Transaction>): nat {
    if |txs| == 0 then 0 else F4s(txs[..|txs| - 1]) + (if IsF4(txs[|txs| - 1]) then 1 else 0)
  }

  function Usable(txs: seq<Transaction>): nat {
    if |txs| == 0 then 0 else Usable(txs[..|txs| - 1]) + (if IsUsable(txs[|txs| - 1]) then 1 else 0)
  }

  function Ok(fw: Firmware, txs: seq<Transaction>): nat {
    if |txs| == 0 then 0
    else
      var front := txs[..|txs| - 1];
      Ok(fw, front) + (if IsOk(Issued(fw, front), txs[|txs| - 1]) then 1 else 0)
  }

  lemma UsableMeaning(tx: Transaction)
    ensures DecodeCommand(tx.command).opcode == tx.command[0]
    ensures IsUsable(tx) <==> BeginsBlock(DecodeCommand(tx.command))
  {
    var c := tx.command;
    CommandFields(c);
    Halves(c[7], c[6], c[5], c[4]);
    LowPairNumber(c[7], c[6]);
    hide DecodeCommand, Number;
  }

  lemma LowPairNumber(b0: byte, b1: byte)
    ensures Number(b0, b1, 0, 0) == b0 as int + 256 * (b1 as int)
  {
  }

  lemma OneMore(fw: Firmware, tx: Transaction)
    ensures
      var t := DspicoIssue(fw, tx);
      && t.entered == (fw.entered + (if IsF4(tx) then 1 else 0)) % 0x1_0000_0000
      && t.accepted == (fw.accepted + (if IsUsable(tx) then 1 else 0)) % 0x1_0000_0000
      && t.completed == (fw.completed + (if IsUsable(tx) then 1 else 0)) % 0x1_0000_0000
      && t.parsed == (fw.parsed + (if IsOk(fw, tx) then 1 else 0)) % 0x1_0000_0000
  {
    UsableMeaning(tx);
    UsableIsF4(tx);
    var cmd := DecodeCommand(tx.command);
    WriteBlockAnswers(fw.device, cmd.index, cmd.word, Some(tx.data));
    hide DecodeCommand, WriteBlock, Exec, ReadBlock, WriteReg, WritePayloadWord, BeginsBlock, IsUsable;
    assert tx.data[..512] == tx.data;
  }

  lemma WriteBlockAnswers(s: DeviceState, index: byte, word: u32, data: Option<seq<byte>>)
    ensures
      var (t, status) := WriteBlock(s, index, word, data);
      t.stage[5] == status
  {
    hide ParseBlock, RunItems;
  }

  /** From zero, after any number of transactions below 2^32: how many F4s came, how many could be
      handed over, as many again that were, and how many of those left 0 in RESULT. */
  lemma {:induction false} CountersCount(fw: Firmware, txs: seq<Transaction>)
    requires fw == Firmware(fw.device, 0, 0, 0, 0) && |txs| < 0x1_0000_0000
    ensures Ok(fw, txs) <= Usable(txs) <= F4s(txs) <= |txs|
    ensures
      var t := Issued(fw, txs);
      && t.entered == F4s(txs) && t.accepted == t.completed == Usable(txs) && t.parsed == Ok(fw, txs)
  {
    hide DspicoIssue, IsF4, IsUsable;
    if |txs| > 0 {
      var front, last := txs[..|txs| - 1], txs[|txs| - 1];
      CountersCount(fw, front);
      OneMore(Issued(fw, front), last);
      UsableIsF4(last);
    }
  }

  lemma UsableIsF4(tx: Transaction)
    ensures IsUsable(tx) ==> IsF4(tx)
  {
  }

  /** And that is what F2 of 0xF0, 0xF1, 0xF2 and 0xF3 answers. */
  lemma CountersRead(fw: Firmware, index: byte)
    requires 0xF0 <= index <= 0xF3
    ensures
      FirstWord(Response(fw, DecodeCommand(Gk(0xF2, index, 0))))
      == (if index == 0xF0 then fw.entered else if index == 0xF1 then fw.accepted
          else if index == 0xF2 then fw.completed else fw.parsed)
  {
    hide DecodeCommand, Gk, U32At, BytesOf;
    GkBytes(0xF2, index, 0);
    StoredWordAt(RegisterValue(fw, WireCommand(0xF2, index, 0, true)));
  }
}
