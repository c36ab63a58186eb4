// What each command that the desktop application sends does to the cartridge.
module Commands {
  import opened Octets
  import opened Sst39
  import opened Crc16
  import opened Protocol
  import opened Device
  import opened Link
  import FlashOps

  // The commands as the host formats them.
  function EraseBankCommand(bank: nat): (c: seq<byte>)
    ensures |c| == 8
  {
    Ascii("ERBANK") + HexDigits(bank, 2)
  }

  function ReadBankCommand(bank: nat): (c: seq<byte>)
    ensures |c| == 8
  {
    Ascii("RDBANK") + HexDigits(bank, 2)
  }

  function ReadBlockCommand(block: nat): (c: seq<byte>)
    ensures |c| == 8
  {
    Ascii("RDBK") + HexDigits(block, 4)
  }

  // ---------- How the parser tells them apart ----------

  // All that dispatching looks at, for a command of a given kind.
  lemma BankNames(c: seq<byte>, bank: nat)
    requires |c| == 8 && bank < 16
    ensures c == EraseBankCommand(bank) ==>
      && IsBankCommand(c) && c[..6] == Ascii("ERBANK") && c[..6] != Ascii("RDBANK")
      && HexValue(c[6..]) == Some(bank) && !IsBreak(c[0]) && c != Ascii("BOOTLOAD")
    ensures c == ReadBankCommand(bank) ==>
      && IsBankCommand(c) && c[..6] == Ascii("RDBANK")
      && HexValue(c[6..]) == Some(bank) && !IsBreak(c[0]) && c != Ascii("BOOTLOAD")
  {
    TwoDigits(bank);
    hide Ascii, HexDigits, HexValue, IsBankCommand;
    if c == EraseBankCommand(bank) || c == ReadBankCommand(bank) {
      var name := if c == EraseBankCommand(bank) then Ascii("ERBANK") else Ascii("RDBANK");
      assert c[6..] == HexDigits(bank, 2) && c[..6] == name;
      BankLetters(c);
    }
  }

  lemma TwoDigits(bank: nat)
    requires bank < 16
    ensures HexValue(HexDigits(bank, 2)) == Some(bank)
  {
    assert Power16(2) == 256;
    HexValueIff(HexDigits(bank, 2), bank);
    hide HexDigits, HexValue;
  }

  lemma BankLetters(c: seq<byte>)
    requires |c| == 8 && c[..6] in {Ascii("ERBANK"), Ascii("RDBANK")}
    ensures IsBankCommand(c) && !IsBreak(c[0]) && c != Ascii("BOOTLOAD") && Ascii("ERBANK") != Ascii("RDBANK")
  {
    Letters();
    NumberedLetters();
    hide Ascii;
    assert c[0] == c[..6][0] && c[1] == c[..6][1] && c[2] == c[..6][2];
  }

  lemma BlockNames(c: seq<byte>, block: nat)
    requires |c| == 8 && block < 1024
    ensures c == WriteCommand(block) ==>
      && IsBlockCommand(c) && c[..4] == Ascii("WRBK")
      && HexValue(c[4..]) == Some(block) && !IsBreak(c[0]) && c != Ascii("BOOTLOAD")
    ensures c == ReadBlockCommand(block) ==>
      && IsBlockCommand(c) && c[..4] == Ascii("RDBK") && c[..4] != Ascii("WRBK")
      && HexValue(c[4..]) == Some(block) && !IsBreak(c[0]) && c != Ascii("BOOTLOAD")
  {
    FourDigits(block);
    hide Ascii, HexDigits, HexValue, IsBlockCommand;
    if c == WriteCommand(block) || c == ReadBlockCommand(block) {
      var name := if c == WriteCommand(block) then Ascii("WRBK") else Ascii("RDBK");
      assert c[4..] == HexDigits(block, 4) && c[..4] == name;
      BlockLetters(c);
    }
  }

  lemma FourDigits(block: nat)
    requires block < 1024
    ensures HexValue(HexDigits(block, 4)) == Some(block)
  {
    assert Power16(4) == 0x1_0000;
    HexValueIff(HexDigits(block, 4), block);
    hide HexDigits, HexValue;
  }

  lemma BlockLetters(c: seq<byte>)
    requires |c| == 8 && c[..4] in {Ascii("WRBK"), Ascii("RDBK")}
    ensures IsBlockCommand(c) && !IsBreak(c[0]) && c != Ascii("BOOTLOAD") && Ascii("RDBK") != Ascii("WRBK")
  {
    Letters();
    NumberedLetters();
    hide Ascii;
    assert c[0] == c[..4][0] && c[1] == c[..4][1] && c[3] == c[..4][3];
    assert c[0] == c[..6][0] && c[1] == c[..6][1] && c[3] == c[..6][3];
  }

  // ---------- Effects ----------

  // A command from an idle cartridge, in terms of its dispatch.
  lemma CommandShape(c: Cartridge, bytes: seq<byte>, q: Parser, r: Request)
    requires Idle(c) && |bytes| == 8
    requires (q, r) == Dispatch(c.parser, bytes)
    ensures RequestOk(r) && (q.bankReadPending ==> q.bank < 16)
    ensures AfterCommand(c, bytes)
         == (Cartridge(Take(q).0, Perform(c.chip, r).0), Perform(c.chip, r).1 + BankAnswer(q, Perform(c.chip, r).0.mem))
  {
    var p := c.parser.(command := bytes[..7]);
    var b := bytes[7];
    assert bytes[..7] + [b] == bytes;
    assert c.parser.(idleMs := 0) == c.parser;
    assert p.(idleMs := 0, command := []) == c.parser by {
      assert c.parser.command == [];
    }
    hide Dispatch, Perform, BankAnswer, WithTrailer;
    assert Accept(p, b) == (q, r);
    AcceptKeepsInv(p, b);
    var done := Perform(c.chip, r);
    HandleShape(Cartridge(p, c.chip), b, q, r, done.0, done.1);
    PerformOfReply(c.chip, r);
    PendingBank(p, b);
  }

  lemma PerformOfReply(chip: Chip, r: Request)
    requires Resting(chip) && RequestOk(r)
    ensures r.Reply? ==> Perform(chip, r) == (chip, r.bytes)
  {
  }

  lemma Regroup(a: seq<byte>, b: seq<byte>, c: seq<byte>)
    ensures a + b + c == a + (b + c)
    ensures a + [] == a
  {
  }

  // The identity, whatever it is.
  lemma IdentifyEffect(c: Cartridge)
    requires Idle(c)
    ensures var cmd := Ascii("DEVIDSST");
      && !IsBreak(cmd[0]) && cmd != Ascii("BOOTLOAD")
      && AfterCommand(c, cmd) == (c, cmd + [c.chip.die.maker, c.chip.die.model])
  {
    var cmd := Ascii("DEVIDSST");
    var r := Operation(ReadId, cmd);
    Letters();
    NumberedLetters();
    assert Dispatch(c.parser, cmd) == (c.parser, r);
    assert Take(c.parser).0 == c.parser && BankAnswer(c.parser, c.chip.mem) == [];
    assert Perform(c.chip, r) == (c.chip, cmd + [c.chip.die.maker, c.chip.die.model]);
    hide *;
    CommandShape(c, cmd, c.parser, r);
    Regroup(cmd + [c.chip.die.maker, c.chip.die.model], [], []);
  }

  // Erasing, with the status that the driver ends with.
  lemma EraseAllEffect(c: Cartridge)
    requires Idle(c)
    ensures var cmd := Ascii("ERASEALL"); var r := FlashOps.EraseAll(c.chip);
      && !IsBreak(cmd[0]) && cmd != Ascii("BOOTLOAD")
      && AfterCommand(c, cmd) == (c.(chip := r.0), cmd + [r.1])
  {
    var cmd := Ascii("ERASEALL");
    var r := Operation(EraseAll, cmd);
    Letters();
    NumberedLetters();
    assert Dispatch(c.parser, cmd) == (c.parser, r) && Take(c.parser).0 == c.parser;
    PlainAnswer(c, cmd, r, FlashOps.EraseAll(c.chip));
  }

  lemma EraseBankEffect(c: Cartridge, bank: nat)
    requires Idle(c) && bank < 16
    ensures var cmd := EraseBankCommand(bank); var r := FlashOps.EraseBank(c.chip, bank);
      && !IsBreak(cmd[0]) && cmd != Ascii("BOOTLOAD")
      && AfterCommand(c, cmd) == (c.(chip := r.0), cmd + [r.1])
  {
    var cmd := EraseBankCommand(bank);
    var r := Operation(EraseBank(bank), cmd);
    DispatchEraseBank(c.parser, cmd, bank);
    assert Take(c.parser).0 == c.parser;
    PlainAnswer(c, cmd, r, FlashOps.EraseBank(c.chip, bank));
  }

  // An operation whose answer is a status.
  lemma PlainAnswer(c: Cartridge, cmd: seq<byte>, r: Request, outcome: (Chip, byte))
    requires Idle(c) && |cmd| == 8 && RequestOk(r)
    requires Dispatch(c.parser, cmd) == (c.parser, r) && Take(c.parser).0 == c.parser
    requires Perform(c.chip, r) == WithStatus(cmd, outcome)
    ensures AfterCommand(c, cmd) == (c.(chip := outcome.0), cmd + [outcome.1])
  {
    hide Dispatch, Perform, AfterCommand;
    CommandShape(c, cmd, c.parser, r);
    Regroup(cmd + [outcome.1], [], []);
  }

  lemma DispatchEraseBank(p: Parser, cmd: seq<byte>, bank: nat)
    requires bank < 16 && cmd == EraseBankCommand(bank)
    ensures Dispatch(p, cmd) == (p, Operation(EraseBank(bank), cmd))
    ensures !IsBreak(cmd[0]) && cmd != Ascii("BOOTLOAD")
  {
    BankNames(cmd, bank);
    hide Ascii, HexValue, EraseBankCommand;
  }

  lemma DispatchReadBank(p: Parser, cmd: seq<byte>, bank: nat)
    requires bank < 16 && cmd == ReadBankCommand(bank)
    ensures Dispatch(p, cmd) == (p.(bank := bank, bankReadPending := true), Reply(cmd + [0]))
    ensures !IsBreak(cmd[0]) && cmd != Ascii("BOOTLOAD")
  {
    BankNames(cmd, bank);
    hide Ascii, HexValue, ReadBankCommand;
  }

  lemma DispatchReadBlock(p: Parser, cmd: seq<byte>, block: nat)
    requires block < 1024 && cmd == ReadBlockCommand(block)
    ensures Dispatch(p, cmd) == (p.(block := block), Operation(ReadBlock(block), cmd))
    ensures !IsBreak(cmd[0]) && cmd != Ascii("BOOTLOAD")
  {
    BlockNames(cmd, block);
    hide Ascii, HexValue, ReadBlockCommand;
  }

  lemma ReadBankEffect(c: Cartridge, bank: nat)
    requires Idle(c) && bank < 16
    ensures var cmd := ReadBankCommand(bank);
      && !IsBreak(cmd[0]) && cmd != Ascii("BOOTLOAD")
      && AfterCommand(c, cmd)
         == (c.(parser := c.parser.(bank := bank)), cmd + ([0] + WithTrailer(BankData(c.chip.mem, bank))))
  {
    var cmd := ReadBankCommand(bank);
    var q := c.parser.(bank := bank, bankReadPending := true);
    assert Take(q).0 == c.parser.(bank := bank);
    DispatchReadBank(c.parser, cmd, bank);
    PerformOfReply(c.chip, Reply(cmd + [0]));
    assert BankAnswer(q, c.chip.mem) == WithTrailer(BankData(c.chip.mem, bank));
    hide *;
    CommandShape(c, cmd, q, Reply(cmd + [0]));
    Regroup(cmd, [0], WithTrailer(BankData(c.chip.mem, bank)));
  }

  lemma ReadBlockEffect(c: Cartridge, block: nat)
    requires Idle(c) && block < 1024
    ensures var cmd := ReadBlockCommand(block);
      && !IsBreak(cmd[0]) && cmd != Ascii("BOOTLOAD")
      && AfterCommand(c, cmd)
         == (c.(parser := c.parser.(block := block)), cmd + ([0] + WithTrailer(BlockData(c.chip.mem, block))))
  {
    var cmd := ReadBlockCommand(block);
    var q := c.parser.(block := block);
    var r := Operation(ReadBlock(block), cmd);
    assert Take(q).0 == q;
    DispatchReadBlock(c.parser, cmd, block);
    assert Perform(c.chip, r) == (c.chip, cmd + [0] + WithTrailer(BlockData(c.chip.mem, block)));
    assert BankAnswer(q, c.chip.mem) == [];
    hide *;
    CommandShape(c, cmd, q, r);
    Regroup(cmd, [0], WithTrailer(BlockData(c.chip.mem, block)));
    Regroup(cmd + [0] + WithTrailer(BlockData(c.chip.mem, block)), [], []);
  }

  lemma OpenWriteEffect(c: Cartridge, block: nat)
    requires Idle(c) && block < 1024
    ensures var cmd := WriteCommand(block);
      && !IsBreak(cmd[0]) && cmd != Ascii("BOOTLOAD")
      && AfterCommand(c, cmd)
         == (c.(parser := c.parser.(block := block, writing := true, payload := [])), cmd + [0])
  {
    var cmd := WriteCommand(block);
    var q := c.parser.(block := block, writing := true, payload := []);
    BlockNames(cmd, block);
    hide Ascii, HexValue, WriteCommand;
    assert Dispatch(c.parser, cmd) == (q, Reply(cmd + [0]));
    assert Take(q).0 == q && BankAnswer(q, c.chip.mem) == [];
    PerformOfReply(c.chip, Reply(cmd + [0]));
    hide *;
    CommandShape(c, cmd, q, Reply(cmd + [0]));
    Regroup(cmd + [0], [], []);
  }

  // An intact payload is handed to the driver, and answered with its status.
  lemma PayloadEffect(c: Cartridge, data: seq<byte>)
    requires Settled(c) && Resting(c.chip) && !c.parser.failed && c.parser.writing && |data| == 0x100
    ensures |WithTrailer(data)| == PAYLOAD_SIZE
    ensures var (after, out) := AfterPayload(c, WithTrailer(data));
      var r := FlashOps.ProgramBlock(c.chip, c.parser.block, data);
      && Settled(after) && !after.parser.failed && !Busy(after.parser)
      && after.chip == r.0 && out == [r.1]
  {
    WholePayload(c.parser, data);
    hide FrameOk, WithTrailer, Accept, BankAnswer, Dispatch, FlashOps.ProgramBlock;
    var payload := WithTrailer(data);
    var p := c.parser.(payload := payload[..257]);
    var (q, r) := Accept(p, payload[257]);
    AcceptKeepsInv(p, payload[257]);
    var done := Perform(c.chip, r);
    HandleShape(Cartridge(p, c.chip), payload[257], q, r, done.0, done.1);
    assert [] + [done.1[0]] == done.1;
    NoBankAnswer(q, done.0.mem, done.1);
  }

  // The last byte of an intact payload asks for the block to be programmed.
  lemma WholePayload(p: Parser, data: seq<byte>)
    requires Inv(p) && !p.failed && p.writing && !p.bankReadPending && |data| == 0x100
    ensures |WithTrailer(data)| == PAYLOAD_SIZE
    ensures var payload := WithTrailer(data);
      var (q, r) := Accept(p.(payload := payload[..257]), payload[257]);
      && r == Operation(Program(p.block, data), [])
      && !q.bankReadPending && !Busy(q) && !q.failed
  {
    hide FrameOk, WithTrailer, Accept, Inv;
    IntactPayload(data);
    LastOfPayload(p, WithTrailer(data));
  }

  lemma IntactPayload(data: seq<byte>)
    requires |data| == 0x100
    ensures var payload := WithTrailer(data);
      && |payload| == PAYLOAD_SIZE && FrameOk(payload) && payload[..0x100] == data
      && payload[..257] + [payload[257]] == payload
  {
    TrailerAccepted(data);
    hide FrameOk, Crc;
  }

  lemma LastOfPayload(p: Parser, payload: seq<byte>)
    requires Inv(p) && !p.failed && p.writing && |payload| == PAYLOAD_SIZE
    requires payload[..257] + [payload[257]] == payload
    ensures var (q, r) := Accept(p.(payload := payload[..257]), payload[257]);
      && r == PayloadRequest(p.block, payload)
      && q.bankReadPending == p.bankReadPending && !Busy(q) && !q.failed
  {
    hide FrameOk, Dispatch;
  }

  lemma NoBankAnswer(q: Parser, mem: seq<byte>, out: seq<byte>)
    requires |mem| == CHIP_SIZE && !q.bankReadPending
    ensures out + BankAnswer(q, mem) == out
  {
  }
}
