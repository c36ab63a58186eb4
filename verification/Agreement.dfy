// How far the batch emulator agrees with the byte-at-a-time firmware.
module Agreement {
  import opened Octets
  import opened Sst39
  import opened Crc16
  import opened Protocol
  import opened Device
  import opened Emulator
  import FlashOps
  import Link

  // An emulated cartridge that reports what a real one with this chip does.
  function Like(die: Die): Config {
    Config(BOARD_INFO, BigEndian(die.maker, die.model))
  }

  // The emulator holds what the parser has taken in so far.
  predicate SameState(c: Cartridge, e: Host) {
    && !c.parser.failed
    && e.flash == c.chip.mem
    && (if c.parser.writing then e.pending == Some(c.parser.block) && e.buffer == c.parser.payload
        else e.pending == None && e.buffer == c.parser.command)
  }

  // A valid request for the contents of a bank or of a block.
  predicate ReadsFlash(c: seq<byte>)
    requires |c| == 8
  {
    || (c[..6] == Ascii("RDBANK") && HexValue(c[6..]).Some? && HexValue(c[6..]).value < 16)
    || (c[..4] == Ascii("RDBK") && HexValue(c[4..]).Some? && HexValue(c[4..]).value < 1024)
  }

  // The firmware reads without looking at the identity of the chip; the
  // emulator refuses to read another one.
  predicate Alike(die: Die, c: seq<byte>)
    requires |c| == 8
  {
    Identified(die) || !ReadsFlash(c)
  }

  // ---------- One command ----------

  // What both hold after a command.
  ghost predicate SameEffect(p: Parser, chip: Chip, c: seq<byte>)
    requires FlashOps.Steady(chip) && |c| == 8
  {
    var (q, r) := Dispatch(p, c);
    var (flash, bytes, write) := CommandAnswer(Like(chip.die), chip.mem, c);
    && RequestOk(r)
    && (q.bankReadPending ==> q.bank < 16)
    && Perform(chip, r).0.mem == flash
    && write == (if q.writing then Some(q.block) else None)
    && (q.writing ==> q.payload == [])
    && q.command == [] && !q.failed
  }

  ghost function FirmwareAnswer(p: Parser, chip: Chip, c: seq<byte>): seq<byte>
    requires FlashOps.Steady(chip) && |c| == 8 && SameEffect(p, chip, c)
  {
    var (q, r) := Dispatch(p, c);
    Perform(chip, r).1 + BankAnswer(q, Perform(chip, r).0.mem)
  }

  ghost function EmulatorAnswer(chip: Chip, c: seq<byte>): seq<byte>
    requires |chip.mem| == CHIP_SIZE && |c| == 8
  {
    CommandAnswer(Like(chip.die), chip.mem, c).1
  }

  // The two differ at a byte that both have sent, and always will.
  ghost predicate Parted(a: seq<byte>, b: seq<byte>) {
    exists i | 0 <= i < |a| && i < |b| :: a[i] != b[i]
  }

  lemma PartedStays(a: seq<byte>, b: seq<byte>, x: seq<byte>, y: seq<byte>)
    requires Parted(a, b)
    ensures Parted(a + x, b + y)
  {
    var i :| 0 <= i < |a| && i < |b| && a[i] != b[i];
    assert (a + x)[i] != (b + y)[i];
  }

  lemma PartedLater(a: seq<byte>, x: seq<byte>, y: seq<byte>)
    requires Parted(x, y)
    ensures Parted(a + x, a + y)
  {
    var i :| 0 <= i < |x| && i < |y| && x[i] != y[i];
    assert (a + x)[|a| + i] != (a + y)[|a| + i];
  }

  // Status 0 with data, against status 3.
  lemma DataAndRefusal(c: seq<byte>, data: seq<byte>)
    ensures Parted(c + ([0] + data), c + [3])
  {
    assert (c + ([0] + data))[|c|] == 0 && (c + [3])[|c|] == 3;
  }

  ghost predicate Answers(p: Parser, chip: Chip, c: seq<byte>)
    requires FlashOps.Steady(chip) && |c| == 8
  {
    && SameEffect(p, chip, c)
    && var f, e := FirmwareAnswer(p, chip, c), EmulatorAnswer(chip, c);
       if Alike(chip.die, c) then f == e else Parted(f, e)
  }

  // What the emulator does with the commands that carry a number.
  lemma EmulatorBank(cfg: Config, flash: seq<byte>, c: seq<byte>)
    requires |c| == 8 && |flash| == CHIP_SIZE && IsBankCommand(c)
    ensures var v := HexValue(c[6..]);
      CommandAnswer(cfg, flash, c) ==
        if v.None? || v.value >= 16 then (flash, c + [2], None)
        else if cfg.chipId != 0xbfb6 then (flash, c + [3], None)
        else if c[..6] == Ascii("RDBANK") then (flash, c + ([0] + WithTrailer(BankData(flash, v.value))), None)
        else (Blank(flash, v.value * BANK_SIZE, BANK_SIZE), c + [0], None)
  {
    hide HexValue, Ascii, WithTrailer, Blank, BankData;
  }

  lemma EmulatorBlock(cfg: Config, flash: seq<byte>, c: seq<byte>)
    requires |c| == 8 && |flash| == CHIP_SIZE && IsBlockCommand(c)
    ensures Ascii("RDBK") != Ascii("WRBK")
    ensures var v := HexValue(c[4..]);
      CommandAnswer(cfg, flash, c) ==
        if v.None? || v.value >= 1024 then (flash, c + [2], None)
        else if c[..4] == Ascii("WRBK") then (flash, c + [0], Some(v.value))
        else if cfg.chipId != 0xbfb6 then (flash, c + [3], None)
        else (flash, c + ([0] + WithTrailer(BlockData(flash, v.value))), None)
  {
    hide HexValue, Ascii, WithTrailer, BlockData;
    BlockCommandNames();
  }

  lemma ChipIdOctets(die: Die)
    ensures BigEndian(die.maker, die.model) == 0xbfb6 <==> Identified(die)
    ensures Low8(BigEndian(die.maker, die.model) / 0x100) == die.maker
    ensures Low8(BigEndian(die.maker, die.model)) == die.model
  {
  }

  lemma BankCommandAgrees(p: Parser, chip: Chip, c: seq<byte>)
    requires Inv(p) && !Busy(p) && !p.failed && !p.bankReadPending && FlashOps.Steady(chip)
    requires |c| == 8 && IsBankCommand(c)
    ensures Answers(p, chip, c)
  {
    hide HexValue, Ascii, IsBankCommand, FlashOps.Steady, Dispatch, CommandAnswer, Perform, Answers, ReadsFlash;
    BankDispatch(p, c);
    var v := HexValue(c[6..]);
    if v.None? || v.value >= 16 {
      BankIsRefused(p, chip, c);
    } else if c[..6] == Ascii("RDBANK") {
      BankReadAgrees(p, chip, c);
    } else {
      BankEraseAgrees(p, chip, c);
    }
  }

  lemma BankIsRefused(p: Parser, chip: Chip, c: seq<byte>)
    requires Inv(p) && !Busy(p) && !p.failed && !p.bankReadPending && FlashOps.Steady(chip)
    requires |c| == 8 && IsBankCommand(c) && (HexValue(c[6..]).None? || HexValue(c[6..]).value >= 16)
    ensures Answers(p, chip, c)
  {
    BankIsNoBlock(c);
    assert |chip.mem| == CHIP_SIZE && !ReadsFlash(c);
    hide HexValue, Ascii, IsBankCommand, FlashOps.Steady, Dispatch, CommandAnswer, Perform, Answers, ReadsFlash;
    BankDispatch(p, c);
    EmulatorBank(Like(chip.die), chip.mem, c);
    RepliesAgree(p, chip, c);
  }

  lemma BankReadAgrees(p: Parser, chip: Chip, c: seq<byte>)
    requires !p.failed && !Busy(p) && FlashOps.Steady(chip)
    requires |c| == 8 && IsBankCommand(c) && c[..6] == Ascii("RDBANK")
    requires HexValue(c[6..]).Some? && HexValue(c[6..]).value < 16
    ensures Answers(p, chip, c)
  {
    assert |chip.mem| == CHIP_SIZE && ReadsFlash(c);
    BankContents(p, chip, c);
    hide HexValue, Ascii, IsBankCommand, FlashOps.Steady, SameEffect, FirmwareAnswer, EmulatorAnswer, ReadsFlash;
    hide WithTrailer, BankData, Parted;
    DataAndRefusal(c, WithTrailer(BankData(chip.mem, HexValue(c[6..]).value)));
  }

  // A bank that is read.
  lemma BankContents(p: Parser, chip: Chip, c: seq<byte>)
    requires !p.failed && !Busy(p) && FlashOps.Steady(chip)
    requires |c| == 8 && IsBankCommand(c) && c[..6] == Ascii("RDBANK")
    requires HexValue(c[6..]).Some? && HexValue(c[6..]).value < 16
    ensures SameEffect(p, chip, c)
    ensures var all := c + ([0] + WithTrailer(BankData(chip.mem, HexValue(c[6..]).value)));
      && FirmwareAnswer(p, chip, c) == all
      && EmulatorAnswer(chip, c) == if Identified(chip.die) then all else c + [3]
  {
    BankEffect(p, chip, c);
    BankIsSent(p, chip, c);
    hide HexValue, Ascii, IsBankCommand, FlashOps.Steady, SameEffect, FirmwareAnswer, WithTrailer, BankData;
    hide CommandAnswer;
    EmulatorBank(Like(chip.die), chip.mem, c);
    LikeChip(chip.die);
    hide Like;
  }

  lemma BankEffect(p: Parser, chip: Chip, c: seq<byte>)
    requires !p.failed && !Busy(p) && FlashOps.Steady(chip)
    requires |c| == 8 && IsBankCommand(c) && c[..6] == Ascii("RDBANK")
    requires HexValue(c[6..]).Some? && HexValue(c[6..]).value < 16
    ensures SameEffect(p, chip, c)
  {
    BankDispatch(p, c);
    EmulatorBank(Like(chip.die), chip.mem, c);
    ReplyIsGiven(chip, Reply(c + [0]));
    hide HexValue, Ascii, IsBankCommand, FlashOps.Steady, Dispatch, CommandAnswer, Perform;
    hide WithTrailer, BankData, Like;
  }

  lemma BankIsSent(p: Parser, chip: Chip, c: seq<byte>)
    requires FlashOps.Steady(chip) && |c| == 8 && IsBankCommand(c) && SameEffect(p, chip, c)
    requires c[..6] == Ascii("RDBANK") && HexValue(c[6..]).Some? && HexValue(c[6..]).value < 16
    ensures FirmwareAnswer(p, chip, c) == c + ([0] + WithTrailer(BankData(chip.mem, HexValue(c[6..]).value)))
  {
    BankDispatch(p, c);
    ReplyIsGiven(chip, Reply(c + [0]));
    hide HexValue, Ascii, IsBankCommand, FlashOps.Steady, Dispatch, Perform, SameEffect, WithTrailer, BankData;
    Joined(c, [0], WithTrailer(BankData(chip.mem, HexValue(c[6..]).value)));
  }

  lemma LikeChip(die: Die)
    ensures Like(die).chipId == 0xbfb6 <==> Identified(die)
  {
  }

  lemma BankEraseAgrees(p: Parser, chip: Chip, c: seq<byte>)
    requires !p.failed && !Busy(p) && !p.bankReadPending && FlashOps.Steady(chip)
    requires |c| == 8 && IsBankCommand(c) && c[..6] != Ascii("RDBANK")
    requires HexValue(c[6..]).Some? && HexValue(c[6..]).value < 16
    ensures Answers(p, chip, c)
  {
    BankIsNoBlock(c);
    assert !ReadsFlash(c);
    hide HexValue, Ascii, IsBankCommand, FlashOps.Steady, Dispatch, CommandAnswer, Perform, ReadsFlash;
    hide Blank, Like, Parted;
    BankDispatch(p, c);
    EmulatorBank(Like(chip.die), chip.mem, c);
    LikeChip(chip.die);
    BankIsErased(chip, HexValue(c[6..]).value, c);
  }

  lemma BankIsErased(chip: Chip, bank: nat, c: seq<byte>)
    requires FlashOps.Steady(chip) && bank < 16
    ensures var (now, out) := Perform(chip, Operation(EraseBank(bank), c));
      && now.mem == (if Identified(chip.die) then Blank(chip.mem, bank * BANK_SIZE, BANK_SIZE) else chip.mem)
      && out == (if Identified(chip.die) then c + [0] else c + [3])
    ensures c + [0] + [] == c + [0] && c + [3] + [] == c + [3]
  {
    FlashOps.SteadyEraseBank(chip, bank);
    hide FlashOps.EraseBank, Blank, Healthy;
  }

  lemma ReplyIsGiven(chip: Chip, r: Request)
    requires Resting(chip) && RequestOk(r)
    ensures r.Reply? ==> Perform(chip, r) == (chip, r.bytes)
  {
  }

  lemma BankIsNoBlock(c: seq<byte>)
    requires |c| == 8 && IsBankCommand(c)
    ensures c[..4] != Ascii("RDBK") && Ascii("RDBANK") != Ascii("ERBANK")
  {
    NumberedLetters();
    hide Ascii;
    assert c[..6][3] == c[3] && c[..6][0] == c[0];
    assert c[..4][3] == c[3] && c[..4][0] == c[0];
  }

  lemma BlockCommandAgrees(p: Parser, chip: Chip, c: seq<byte>)
    requires Inv(p) && !Busy(p) && !p.failed && !p.bankReadPending && FlashOps.Steady(chip)
    requires |c| == 8 && IsBlockCommand(c)
    ensures Answers(p, chip, c)
  {
    assert c[..4] == Ascii("RDBK") || c[..4] == Ascii("WRBK");
    assert ReadsFlash(c) ==> c[..4] == Ascii("RDBK") && HexValue(c[4..]).Some? && HexValue(c[4..]).value < 1024;
    hide HexValue, Ascii, IsBlockCommand, FlashOps.Steady, Dispatch, CommandAnswer, Perform, Answers, ReadsFlash;
    var v := HexValue(c[4..]);
    if c[..4] == Ascii("RDBK") && v.Some? && v.value < 1024 {
      BlockReadAgrees(p, chip, c);
    } else {
      BlockDispatch(p, c);
      EmulatorBlock(Like(chip.die), chip.mem, c);
      RepliesAgree(p, chip, c);
    }
  }

  lemma BlockReadAgrees(p: Parser, chip: Chip, c: seq<byte>)
    requires !p.failed && !Busy(p) && !p.bankReadPending && FlashOps.Steady(chip)
    requires |c| == 8 && IsBlockCommand(c) && c[..4] == Ascii("RDBK")
    requires HexValue(c[4..]).Some? && HexValue(c[4..]).value < 1024
    ensures Answers(p, chip, c)
  {
    assert |chip.mem| == CHIP_SIZE && ReadsFlash(c);
    BlockContents(p, chip, c);
    hide HexValue, Ascii, IsBlockCommand, FlashOps.Steady, SameEffect, FirmwareAnswer, EmulatorAnswer, ReadsFlash;
    hide WithTrailer, BlockData, Parted;
    DataAndRefusal(c, WithTrailer(BlockData(chip.mem, HexValue(c[4..]).value)));
  }

  // A block that is read.
  lemma BlockContents(p: Parser, chip: Chip, c: seq<byte>)
    requires !p.failed && !Busy(p) && !p.bankReadPending && FlashOps.Steady(chip)
    requires |c| == 8 && IsBlockCommand(c) && c[..4] == Ascii("RDBK")
    requires HexValue(c[4..]).Some? && HexValue(c[4..]).value < 1024
    ensures SameEffect(p, chip, c)
    ensures var all := c + ([0] + WithTrailer(BlockData(chip.mem, HexValue(c[4..]).value)));
      && FirmwareAnswer(p, chip, c) == all
      && EmulatorAnswer(chip, c) == if Identified(chip.die) then all else c + [3]
  {
    BlockDispatch(p, c);
    EmulatorBlock(Like(chip.die), chip.mem, c);
    LikeChip(chip.die);
    BlockIsRead(chip, HexValue(c[4..]).value, c);
    hide HexValue, WithTrailer, BlockData, Ascii, Dispatch, CommandAnswer, IsBlockCommand, Perform, Like;
    hide FlashOps.Steady;
  }

  lemma BlockIsRead(chip: Chip, block: nat, c: seq<byte>)
    requires Resting(chip) && block < 1024
    ensures Perform(chip, Operation(ReadBlock(block), c))
         == (chip, c + ([0] + WithTrailer(BlockData(chip.mem, block))))
    ensures var all := c + ([0] + WithTrailer(BlockData(chip.mem, block))); all + [] == all
  {
    hide WithTrailer;
    assert c + [0] + WithTrailer(BlockData(chip.mem, block)) == c + ([0] + WithTrailer(BlockData(chip.mem, block)));
  }

  // An answer that the parser gives by itself.
  lemma RepliesAgree(p: Parser, chip: Chip, c: seq<byte>)
    requires FlashOps.Steady(chip) && |c| == 8 && !ReadsFlash(c)
    requires var (q, r) := Dispatch(p, c);
      && r.Reply? && q.command == [] && !q.failed && !q.bankReadPending && (q.writing ==> q.payload == [])
      && CommandAnswer(Like(chip.die), chip.mem, c) == (chip.mem, r.bytes, if q.writing then Some(q.block) else None)
    ensures Answers(p, chip, c)
  {
    hide Dispatch, CommandAnswer, ReadsFlash;
    var r := Dispatch(p, c).1;
    assert r.bytes + [] == r.bytes;
  }

  // The commands that carry no number.
  lemma OtherCommandAgrees(p: Parser, chip: Chip, c: seq<byte>)
    requires Inv(p) && !Busy(p) && !p.failed && !p.bankReadPending && FlashOps.Steady(chip)
    requires |c| == 8 && !IsBankCommand(c) && !IsBlockCommand(c)
    ensures Answers(p, chip, c)
  {
    PlainDispatch(p, c);
    PlainAnswer(Like(chip.die), chip.mem, c);
    assert !ReadsFlash(c);
    hide ReadsFlash, IsBankCommand, IsBlockCommand, Dispatch, CommandAnswer, FlashOps.Steady, Inv;
    if Dispatch(p, c).1.Reply? {
      RepliesAgree(p, chip, c);
    } else {
      ChipIdOctets(chip.die);
      PlainPerform(chip, c);
      hide Perform, Ascii, BigEndian, Blank;
    }
  }

  lemma PlainDispatch(p: Parser, c: seq<byte>)
    requires |c| == 8 && !IsBankCommand(c) && !IsBlockCommand(c)
    ensures Dispatch(p, c) ==
      (p, if c == Ascii("READINFO") then Reply(c + BOARD_INFO)
          else if c == Ascii("READVERS") then Reply(c + VERSION)
          else if c == Ascii("DEVIDSST") then Operation(ReadId, c)
          else if c == Ascii("BOOTLOAD") then Operation(Boot, c)
          else if c == Ascii("ERASEALL") then Operation(EraseAll, c)
          else Reply(c + Ascii("ERRORCMD")))
    ensures !ReadsFlash(c)
  {
    ShortNames(c);
    hide HexValue, Ascii;
  }

  lemma PlainAnswer(cfg: Config, flash: seq<byte>, c: seq<byte>)
    requires |c| == 8 && |flash| == CHIP_SIZE && !IsBankCommand(c) && !IsBlockCommand(c)
    ensures CommandAnswer(cfg, flash, c) ==
      if c == Ascii("READINFO") then (flash, c + cfg.boardInfo, None)
      else if c == Ascii("READVERS") then (flash, c + VERSION, None)
      else if c == Ascii("DEVIDSST") then (flash, c + [Low8(cfg.chipId / 0x100), Low8(cfg.chipId)], None)
      else if c == Ascii("BOOTLOAD") then (flash, c + [0], None)
      else if c == Ascii("ERASEALL") then
        if cfg.chipId != 0xbfb6 then (flash, c + [3], None) else (Blank(flash, 0, CHIP_SIZE), c + [0], None)
      else (flash, c + Ascii("ERRORCMD"), None)
  {
    hide HexValue, Ascii, Blank;
    ShortNames(c);
    Letters();
  }

  lemma PlainPerform(chip: Chip, c: seq<byte>)
    requires FlashOps.Steady(chip)
    ensures Perform(chip, Operation(ReadId, c)) == (chip, c + [chip.die.maker, chip.die.model])
    ensures Perform(chip, Operation(Boot, c)) == (chip, c + [0])
    ensures var (now, out) := Perform(chip, Operation(EraseAll, c));
      && now.mem == (if Identified(chip.die) then Blank(chip.mem, 0, CHIP_SIZE) else chip.mem)
      && out == (if Identified(chip.die) then c + [0] else c + [3])
    ensures c + [0] + [] == c + [0] && c + [3] + [] == c + [3]
    ensures var id := c + [chip.die.maker, chip.die.model]; id + [] == id
  {
    FlashOps.SteadyErase(chip);
    hide FlashOps.EraseAll, Blank, Healthy;
  }

  // A full-length command is none of those that carry a number.
  lemma ShortNames(c: seq<byte>)
    requires |c| == 8
    ensures (c == Ascii("READINFO") || c == Ascii("READVERS") || c == Ascii("DEVIDSST")
             || c == Ascii("BOOTLOAD") || c == Ascii("ERASEALL")) ==>
      && c[..6] != Ascii("RDBANK") && c[..6] != Ascii("ERBANK")
      && c[..4] != Ascii("RDBK") && c[..4] != Ascii("WRBK")
  {
    Letters();
    NumberedLetters();
    hide Ascii;
    assert c[..6][0] == c[0] && c[..6][1] == c[1] && c[..6][2] == c[2];
    assert c[..4][0] == c[0] && c[..4][1] == c[1];
  }

  // For every chip a command has the same effect on both, and it is answered
  // alike exactly when the chip is the right one or no contents are asked for.
  lemma CommandAgrees(p: Parser, chip: Chip, c: seq<byte>)
    requires Inv(p) && !Busy(p) && !p.failed && !p.bankReadPending && FlashOps.Steady(chip) && |c| == 8
    ensures SameEffect(p, chip, c)
    ensures FirmwareAnswer(p, chip, c) == EmulatorAnswer(chip, c) <==> Alike(chip.die, c)
    ensures Answers(p, chip, c)
  {
    ShortNames(c);
    if IsBankCommand(c) {
      BankCommandAgrees(p, chip, c);
    } else if IsBlockCommand(c) {
      BlockCommandAgrees(p, chip, c);
    } else {
      OtherCommandAgrees(p, chip, c);
    }
    hide SameEffect, HexValue, Ascii, Inv, Alike, FirmwareAnswer, EmulatorAnswer;
  }

  // With any other chip a bank or a block that is read is answered with
  // status 0 and the contents by the firmware, and with status 3 by the
  // emulator.
  lemma OtherChipDiffers(p: Parser, chip: Chip, c: seq<byte>)
    requires Inv(p) && !Busy(p) && !p.failed && !p.bankReadPending && FlashOps.Steady(chip) && |c| == 8
    requires !Identified(chip.die)
    ensures SameEffect(p, chip, c)
    ensures ReadsFlash(c) ==>
      && EmulatorAnswer(chip, c) == c + [3]
      && FirmwareAnswer(p, chip, c) == c + ([0] + WithTrailer(Contents(chip.mem, c)))
  {
    CommandAgrees(p, chip, c);
    if ReadsFlash(c) {
      ContentsAnswered(p, chip, c);
    }
  }

  // The bank or block that a request names.
  function Contents(mem: seq<byte>, c: seq<byte>): seq<byte>
    requires |mem| == CHIP_SIZE && |c| == 8 && ReadsFlash(c)
  {
    if c[..6] == Ascii("RDBANK") && HexValue(c[6..]).Some? && HexValue(c[6..]).value < 16
    then BankData(mem, HexValue(c[6..]).value)
    else BlockData(mem, HexValue(c[4..]).value)
  }

  lemma ContentsAnswered(p: Parser, chip: Chip, c: seq<byte>)
    requires !p.failed && !Busy(p) && !p.bankReadPending && FlashOps.Steady(chip) && |c| == 8
    requires ReadsFlash(c) && !Identified(chip.die)
    ensures SameEffect(p, chip, c)
    ensures EmulatorAnswer(chip, c) == c + [3]
    ensures FirmwareAnswer(p, chip, c) == c + ([0] + WithTrailer(Contents(chip.mem, c)))
  {
    ReadNames(c);
    assert |chip.mem| == CHIP_SIZE;
    hide HexValue, Ascii, WithTrailer, FlashOps.Steady, SameEffect, IsBankCommand, IsBlockCommand;
    hide FirmwareAnswer, EmulatorAnswer, BankData, BlockData;
    if c[..6] == Ascii("RDBANK") {
      BankContents(p, chip, c);
    } else {
      BlockContents(p, chip, c);
    }
  }

  lemma ReadNames(c: seq<byte>)
    requires |c| == 8 && ReadsFlash(c)
    ensures if c[..6] == Ascii("RDBANK") then IsBankCommand(c) && c[..4] != Ascii("RDBK")
            else IsBlockCommand(c) && c[..4] == Ascii("RDBK") && c[..4] != Ascii("WRBK")
  {
    ShortNames(c);
    hide HexValue;
    if c[..6] == Ascii("RDBANK") {
      BankIsNoBlock(c);
    } else {
      ReadBlockName(c);
    }
  }

  lemma ReadBlockName(c: seq<byte>)
    requires |c| == 8 && c[..4] == Ascii("RDBK")
    ensures IsBlockCommand(c) && c[..4] != Ascii("WRBK")
  {
    NumberedLetters();
    hide Ascii;
    assert c[..4][0] == c[0] && c[..4][3] == c[3] && c[..6][3] == c[3] && c[..6][0] == c[0];
    ShortNames(c);
  }

  // ---------- One byte ----------

  // The firmware skips this byte: a line break between two frames.
  predicate Skips(c: Cartridge, b: byte) {
    !c.parser.failed && !c.parser.writing && c.parser.command == [] && IsBreak(b)
  }

  // The byte completes a request for contents.
  predicate Asks(c: Cartridge, b: byte) {
    && !c.parser.failed && !c.parser.writing && |c.parser.command| == 7
    && ReadsFlash(c.parser.command + [b])
  }

  ghost predicate Agree(c: Cartridge, b: byte, out: seq<byte>, queued: seq<byte>) {
    if Identified(c.chip.die) || !Asks(c, b) then out == queued else Parted(out, queued)
  }

  lemma ByteAgrees(c: Cartridge, e: Host, b: byte)
    requires Settled(c) && FlashOps.Steady(c.chip) && Sound(e) && SameState(c, e) && !Skips(c, b)
    ensures var (c2, out) := Handle(c, b);
      var (e2, queued) := Submit(Like(c.chip.die), e, [b]);
      SameState(c2, e2) && Agree(c, b, out, queued)
  {
    var longer := e.(buffer := e.buffer + [b]);
    if HasFrame(longer) {
      DrainOnce(Like(c.chip.die), longer);
      if c.parser.writing {
        PayloadAgrees(c, e, b);
      } else {
        CommandByteAgrees(c, e, b);
      }
    } else {
      SilentByteAgrees(c, e, b);
    }
  }

  // A buffer that holds exactly one frame is served in one go.
  lemma DrainOnce(cfg: Config, e: Host)
    requires Sound(e) && HasFrame(e)
    requires |e.buffer| == if e.pending.Some? then PAYLOAD_SIZE else 8
    ensures Drain(cfg, e) == TakeFrame(cfg, e)
  {
    hide CommandAnswer, PayloadAnswer;
    var next := TakeFrame(cfg, e);
    assert next.0.buffer == [];
    assert next.1 + [] == next.1;
  }

  lemma SilentByteAgrees(c: Cartridge, e: Host, b: byte)
    requires Settled(c) && FlashOps.Steady(c.chip) && Sound(e) && SameState(c, e) && !Skips(c, b)
    requires !HasFrame(e.(buffer := e.buffer + [b]))
    ensures var (c2, out) := Handle(c, b);
      var (e2, queued) := Submit(Like(c.chip.die), e, [b]);
      SameState(c2, e2) && Agree(c, b, out, queued)
  {
    hide CommandAnswer, PayloadAnswer, Dispatch, PayloadRequest, Parted, ReadsFlash, FlashOps.Steady;
    assert [] + BankAnswer(Accept(c.parser, b).0, c.chip.mem) == [];
  }

  lemma PayloadAgrees(c: Cartridge, e: Host, b: byte)
    requires Settled(c) && FlashOps.Steady(c.chip) && Sound(e) && SameState(c, e)
    requires c.parser.writing && |c.parser.payload| + 1 == PAYLOAD_SIZE
    ensures var (c2, out) := Handle(c, b);
      var (e2, queued) := TakeFrame(Like(c.chip.die), e.(buffer := e.buffer + [b]));
      SameState(c2, e2) && Agree(c, b, out, queued)
  {
    ChipIdOctets(c.chip.die);
    var payload := e.buffer + [b];
    assert payload[..PAYLOAD_SIZE] == payload;
    var block, data := c.parser.block, payload[..0x100];
    FlashOps.SteadyProgram(c.chip, block, data);
    var r := PayloadRequest(block, payload);
    var (q, _) := Accept(c.parser, b);
    AcceptKeepsInv(c.parser, b);
    var (chip, out) := Perform(c.chip, r);
    HandleShape(c, b, q, r, chip, out);
    hide CommandAnswer, FrameOk, CanProgram, Overlay, Dispatch, BigEndian, Parted, ReadsFlash, Handle;
    hide FlashOps.ProgramBlock, FlashOps.Steady, Healthy;
    assert [] + [0] == [0] && [] + [6] == [6] && [] + [3] == [3];
    assert out + [] == out;
  }

  lemma CommandByteAgrees(c: Cartridge, e: Host, b: byte)
    requires Settled(c) && FlashOps.Steady(c.chip) && Sound(e) && SameState(c, e)
    requires !c.parser.writing && |c.parser.command| == 7
    ensures var (c2, out) := Handle(c, b);
      var (e2, queued) := TakeFrame(Like(c.chip.die), e.(buffer := e.buffer + [b]));
      SameState(c2, e2) && Agree(c, b, out, queued)
  {
    var word := e.buffer + [b];
    assert word[..8] == word;
    var p := c.parser.(idleMs := 0, command := []);
    CommandAgrees(p, c.chip, word);
    hide CommandAnswer, Dispatch, Perform, BankAnswer, Handle, HexValue, Ascii, PayloadAnswer, Parted, ReadsFlash, Like;
    hide FlashOps.Steady;
    AcceptKeepsInv(c.parser, b);
    var (q, r) := Dispatch(p, word);
    var (chip, out) := Perform(c.chip, r);
    HandleShape(c, b, q, r, chip, out);
  }

  // A skipped byte leaves no trace.
  lemma SkippedByte(c: Cartridge, b: byte)
    requires Settled(c) && Resting(c.chip) && Skips(c, b)
    ensures Handle(c, b) == (c, []) && !Asks(c, b) && !Boots(c.parser, b)
  {
    var none: seq<byte> := [];
    assert none + [] == none;
  }

  // ---------- Streams ----------

  // Some byte that the firmware takes in completes a request for contents.
  ghost predicate AsksIn(c: Cartridge, s: seq<byte>)
    requires Settled(c) && FlashOps.Steady(c.chip)
    decreases |s|
  {
    s != [] &&
    var k := |s| - 1;
    var before := Stream(c, s[..k]);
    AsksIn(c, s[..k]) || (!before.halted && Asks(before.cart, s[k]))
  }

  // How many bytes there are from the first that the firmware does not take:
  // a line break that it skips, or whatever follows BOOTLOAD.
  ghost function Astray(c: Cartridge, s: seq<byte>): (n: nat)
    requires Settled(c) && FlashOps.Steady(c.chip)
    ensures n <= |s|
    decreases |s|
  {
    if s == [] then 0
    else
      var k := |s| - 1;
      var before := Stream(c, s[..k]);
      if Astray(c, s[..k]) > 0 || before.halted || Skips(before.cart, s[k]) then Astray(c, s[..k]) + 1 else 0
  }

  // The parser waits for a command, or has the beginning of one.
  predicate TakesCommand(p: Parser) {
    !p.failed && !p.writing && (p.command != [] ==> !IsBreak(p.command[0]))
  }

  // The emulator has queued more, and what the firmware may yet send is
  // something else.
  ghost predicate Ahead(p: Progress, queued: seq<byte>) {
    && p.sent < queued
    && (p.halted || (IsBreak(queued[|p.sent|]) && TakesCommand(p.cart.parser)))
  }

  // Up to the first byte that goes astray both hold the same. From then on the
  // emulator collects what the firmware has left out, until a whole command is
  // there and is answered.
  ghost predicate Together(p: Progress, e: Host, queued: seq<byte>, n: nat, fine: bool) {
    if n == 0 then
      && SameState(p.cart, e)
      && (p.halted ==> !Busy(p.cart.parser))
      && (if fine then p.sent == queued else Parted(p.sent, queued))
    else if n < 8 then
      && e.pending == None && |e.buffer| == n && e.flash == p.cart.chip.mem
      && (p.halted || (IsBreak(e.buffer[0]) && TakesCommand(p.cart.parser) && |p.cart.parser.command| < n))
      && (if fine then p.sent == queued else Parted(p.sent, queued))
    else
      Parted(p.sent, queued) || Ahead(p, queued)
  }

  lemma EmulatorEchoes(cfg: Config, flash: seq<byte>, c: seq<byte>)
    requires |c| == 8 && |flash| == CHIP_SIZE
    ensures c <= CommandAnswer(cfg, flash, c).1
  {
    hide HexValue, Ascii, WithTrailer, BankData, BlockData, Blank;
  }

  lemma DispatchEchoes(p: Parser, c: seq<byte>)
    requires |c| == 8
    ensures var r := Dispatch(p, c).1;
      (r.Reply? && c <= r.bytes) || (r.Operation? && r.prefix == c)
  {
    hide HexValue, Ascii;
  }

  lemma PerformEchoes(chip: Chip, r: Request)
    requires Resting(chip) && RequestOk(r) && r.Operation?
    ensures r.prefix <= Perform(chip, r).1
  {
    hide FlashOps.ProgramBlock, FlashOps.EraseAll, FlashOps.EraseBank, WithTrailer;
  }

  // A cartridge that waits for a command is silent, or begins its answer with
  // the first byte of the command.
  lemma FirstAnswered(c: Cartridge, b: byte)
    requires Settled(c) && Resting(c.chip) && TakesCommand(c.parser)
    ensures var (d, out) := Handle(c, b);
      if out == [] then TakesCommand(d.parser) && !Boots(c.parser, b)
      else !IsBreak(out[0])
  {
    if |c.parser.command| < 7 {
      QuietCommandByte(c, b);
    } else {
      CommandAnswered(c, b);
    }
  }

  lemma QuietCommandByte(c: Cartridge, b: byte)
    requires Settled(c) && Resting(c.chip) && TakesCommand(c.parser) && |c.parser.command| < 7
    ensures var (d, out) := Handle(c, b);
      && out == [] && TakesCommand(d.parser) && d.chip == c.chip
      && |d.parser.command| <= |c.parser.command| + 1
    ensures !Boots(c.parser, b)
  {
    Link.QuietByte(c, b);
    hide Handle, Boots;
    if Skips(c, b) {
      SkippedByte(c, b);
    }
  }

  lemma CommandAnswered(c: Cartridge, b: byte)
    requires Settled(c) && Resting(c.chip) && TakesCommand(c.parser) && |c.parser.command| == 7
    ensures var out := Handle(c, b).1; out != [] && !IsBreak(out[0])
  {
    var word := c.parser.command + [b];
    var p := c.parser.(idleMs := 0, command := []);
    AcceptKeepsInv(c.parser, b);
    DispatchEchoes(p, word);
    hide Handle, Dispatch, Perform, BankAnswer;
    var (q, r) := Accept(c.parser, b);
    var (chip, out) := Perform(c.chip, r);
    HandleShape(c, b, q, r, chip, out);
    if r.Operation? {
      PerformEchoes(c.chip, r);
    } else {
      ReplyIsGiven(c.chip, r);
    }
    assert word <= out && out[0] == word[0];
  }

  // Booting leaves nothing in the parser.
  lemma BootLeavesNothing(c: Cartridge, b: byte)
    requires Settled(c) && Resting(c.chip) && Boots(c.parser, b)
    ensures !Busy(Handle(c, b).0.parser)
  {
    hide HexValue, Ascii, FrameOk, WithTrailer;
  }

  // A byte that both take.
  lemma TakenTogether(p: Progress, e: Host, b: byte, queued: seq<byte>, fine: bool)
    requires Settled(p.cart) && FlashOps.Steady(p.cart.chip) && Sound(e) && !p.halted && !Skips(p.cart, b)
    requires Together(p, e, queued, 0, fine)
    ensures var (e2, more) := Submit(Like(p.cart.chip.die), e, [b]);
      Together(Onward(p, b), e2, queued + more, 0, fine && (Identified(p.cart.chip.die) || !Asks(p.cart, b)))
  {
    ByteAgrees(p.cart, e, b);
    if Boots(p.cart.parser, b) {
      BootLeavesNothing(p.cart, b);
    }
    hide Handle, Submit, Asks, Boots, FlashOps.Steady, SameState, Parted;
    var out := Handle(p.cart, b).1;
    var more := Submit(Like(p.cart.chip.die), e, [b]).1;
    if Parted(p.sent, queued) {
      PartedStays(p.sent, queued, out, more);
    } else if Parted(out, more) {
      PartedLater(p.sent, out, more);
    }
  }

  // What the firmware does after a byte went astray, if anything.
  ghost function Beyond(p: Progress, b: byte): Progress
    requires Settled(p.cart) && FlashOps.Steady(p.cart.chip)
  {
    if p.halted then p else Onward(p, b)
  }

  // The emulator collects the bytes that went astray.
  lemma Collected(cfg: Config, e: Host, b: byte)
    requires Sound(e) && e.pending == None && |e.buffer| < 8
    ensures var (e2, more) := Submit(cfg, e, [b]);
      if |e.buffer| < 7 then e2 == e.(buffer := e.buffer + [b]) && more == []
      else more != [] && more[0] == (e.buffer + [b])[0]
  {
    var longer := e.(buffer := e.buffer + [b]);
    if HasFrame(longer) {
      DrainOnce(cfg, longer);
      assert longer.buffer[..8] == longer.buffer;
      EmulatorEchoes(cfg, e.flash, longer.buffer);
      hide CommandAnswer;
    }
  }

  // The first byte that goes astray.
  lemma GoesAstray(p: Progress, e: Host, b: byte, queued: seq<byte>, fine: bool)
    requires Settled(p.cart) && FlashOps.Steady(p.cart.chip) && Sound(e)
    requires p.halted || Skips(p.cart, b)
    requires Together(p, e, queued, 0, fine)
    ensures var (e2, more) := Submit(Like(p.cart.chip.die), e, [b]);
      Together(Beyond(p, b), e2, queued + more, 1, fine)
    ensures !p.halted ==> !Asks(p.cart, b)
  {
    Collected(Like(p.cart.chip.die), e, b);
    if !p.halted {
      SkippedByte(p.cart, b);
    }
    hide Submit, Handle, Boots, Parted, FlashOps.Steady, Asks;
    assert queued + [] == queued && p.sent + [] == p.sent;
  }

  // The next ones, fewer than a command.
  lemma StaysAstray(p: Progress, e: Host, b: byte, queued: seq<byte>, n: nat, fine: bool)
    requires Settled(p.cart) && FlashOps.Steady(p.cart.chip) && Sound(e)
    requires 0 < n < 8 && Together(p, e, queued, n, fine)
    ensures var (e2, more) := Submit(Like(p.cart.chip.die), e, [b]);
      Together(Beyond(p, b), e2, queued + more, n + 1, fine)
    ensures !p.halted ==> !Asks(p.cart, b)
  {
    Collected(Like(p.cart.chip.die), e, b);
    if !p.halted {
      QuietCommandByte(p.cart, b);
    }
    hide Submit, Handle, Boots, Parted, FlashOps.Steady, ReadsFlash;
    assert queued + [] == queued && p.sent + [] == p.sent;
    var more := Submit(Like(p.cart.chip.die), e, [b]).1;
    if n == 7 && !fine {
      PartedStays(p.sent, queued, [], more);
    }
  }

  // Once a whole command went astray the outputs never meet again.
  lemma NeverMeets(p: Progress, b: byte, queued: seq<byte>, more: seq<byte>)
    requires Settled(p.cart) && FlashOps.Steady(p.cart.chip)
    requires Parted(p.sent, queued) || Ahead(p, queued)
    ensures Parted(Beyond(p, b).sent, queued + more) || Ahead(Beyond(p, b), queued + more)
  {
    assert Resting(p.cart.chip);
    hide Handle, Boots, FlashOps.Steady, TakesCommand, Resting;
    assert p.sent + [] == p.sent;
    if Parted(p.sent, queued) {
      hide Parted;
      PartedStays(p.sent, queued, [], more);
      PartedStays(p.sent, queued, Handle(p.cart, b).1, more);
    } else if !p.halted {
      FirstAnswered(p.cart, b);
      var out := Handle(p.cart, b).1;
      if out != [] {
        assert (p.sent + out)[|p.sent|] != (queued + more)[|p.sent|];
      }
    }
  }

  // For every byte stream and every chip: the emulator keeps up with the
  // firmware until a byte goes astray.
  lemma {:induction false} StreamAgrees(c: Cartridge, e: Host, s: seq<byte>)
    requires Settled(c) && FlashOps.Steady(c.chip) && Sound(e) && !HasFrame(e) && SameState(c, e)
    ensures var (e2, queued) := Submit(Like(c.chip.die), e, s);
      Together(Stream(c, s), e2, queued, Astray(c, s), Identified(c.chip.die) || !AsksIn(c, s))
    decreases |s|
  {
    var cfg := Like(c.chip.die);
    hide Like, FlashOps.Steady, Stream, AsksIn, Astray, Submit;
    if s == [] {
      NothingArrived(c, e);
    } else {
      var k := |s| - 1;
      StreamAgrees(c, e, s[..k]);
      assert s[..k] + [s[k]] == s;
      SubmitConcat(cfg, e, s[..k], [s[k]]);
      hide SameState, Together, Asks, Skips, HasFrame;
      var (e1, queued) := Submit(cfg, e, s[..k]);
      OneMoreByte(Stream(c, s[..k]), e1, s[k], queued, Astray(c, s[..k]),
                  Identified(c.chip.die) || !AsksIn(c, s[..k]));
      LastByte(c, s);
    }
  }

  lemma NothingArrived(c: Cartridge, e: Host)
    requires Settled(c) && FlashOps.Steady(c.chip) && Sound(e) && !HasFrame(e) && SameState(c, e)
    ensures var (e2, queued) := Submit(Like(c.chip.die), e, []);
      Together(Stream(c, []), e2, queued, Astray(c, []), Identified(c.chip.die) || !AsksIn(c, []))
  {
    hide SameState;
    assert e.buffer + [] == e.buffer;
  }

  lemma LastByte(c: Cartridge, s: seq<byte>)
    requires Settled(c) && FlashOps.Steady(c.chip) && s != []
    ensures var k := |s| - 1;
      var p, n := Stream(c, s[..k]), Astray(c, s[..k]);
      && Stream(c, s) == Beyond(p, s[k])
      && Astray(c, s) == (if n > 0 || p.halted || Skips(p.cart, s[k]) then n + 1 else 0)
      && (AsksIn(c, s) <==> AsksIn(c, s[..k]) || (!p.halted && Asks(p.cart, s[k])))
  {
    hide Onward, Skips, Asks, FlashOps.Steady, Stream;
    StreamLast(c, s);
  }

  lemma OneMoreByte(p: Progress, e: Host, b: byte, queued: seq<byte>, n: nat, fine: bool)
    requires Settled(p.cart) && FlashOps.Steady(p.cart.chip) && Sound(e)
    requires Together(p, e, queued, n, fine)
    ensures var (e2, more) := Submit(Like(p.cart.chip.die), e, [b]);
      Together(Beyond(p, b), e2, queued + more,
               if n > 0 || p.halted || Skips(p.cart, b) then n + 1 else 0,
               fine && (Identified(p.cart.chip.die) || p.halted || !Asks(p.cart, b)))
  {
    hide Submit, Skips, Asks, Like, FlashOps.Steady, Onward, SameState;
    if n == 0 {
      hide Together;
      if p.halted || Skips(p.cart, b) {
        GoesAstray(p, e, b, queued, fine);
      } else {
        TakenTogether(p, e, b, queued, fine);
      }
    } else if n < 8 {
      StaysAstray(p, e, b, queued, n, fine);
    } else {
      NeverMeets(p, b, queued, Submit(Like(p.cart.chip.die), e, [b]).1);
    }
  }

  // For every stream, every way of cutting it into writes and every chip: the
  // emulator queues what the firmware sends exactly when no contents are asked
  // of another chip, and fewer than eight bytes went astray. The flash is then
  // the same, too.
  lemma RawAgreesIff(c: Cartridge, e: Host, s: seq<byte>, chunks: seq<seq<byte>>)
    requires Settled(c) && FlashOps.Steady(c.chip) && Sound(e) && !HasFrame(e) && SameState(c, e)
    requires Flatten(chunks) == s
    ensures var (e2, queued) := SubmitAll(Like(c.chip.die), e, chunks);
      && (queued == Stream(c, s).sent <==> (Identified(c.chip.die) || !AsksIn(c, s)) && Astray(c, s) < 8)
      && (Astray(c, s) < 8 ==> e2.flash == Stream(c, s).cart.chip.mem)
  {
    ChunkingIrrelevant(Like(c.chip.die), e, chunks);
    StreamAgrees(c, e, s);
    hide Submit, Like, AsksIn, Astray, Stream, TakesCommand;
  }

  // ---------- Streams without the line breaks ----------

  // The stream without the bytes that the firmware skips.
  ghost function Stripped(c: Cartridge, s: seq<byte>): seq<byte>
    requires Settled(c) && FlashOps.Steady(c.chip)
    decreases |s|
  {
    if s == [] then []
    else
      var k := |s| - 1;
      var before := Stream(c, s[..k]);
      Stripped(c, s[..k]) + if !before.halted && Skips(before.cart, s[k]) then [] else [s[k]]
  }

  // How many bytes arrive after the main loop has ended.
  ghost function Unread(c: Cartridge, s: seq<byte>): (n: nat)
    requires Settled(c) && FlashOps.Steady(c.chip)
    ensures n <= |s|
    decreases |s|
  {
    if s == [] then 0
    else
      var k := |s| - 1;
      if Stream(c, s[..k]).halted then Unread(c, s[..k]) + 1 else 0
  }

  lemma {:induction false} StrippedIsTheSame(c: Cartridge, s: seq<byte>)
    requires Settled(c) && FlashOps.Steady(c.chip)
    ensures var t := Stripped(c, s);
      && Stream(c, t) == Stream(c, s)
      && (AsksIn(c, t) <==> AsksIn(c, s))
      && Astray(c, t) == Unread(c, s)
      && (Unread(c, s) > 0 ==> Stream(c, s).halted)
    decreases |s|
  {
    if s != [] {
      var k := |s| - 1;
      StrippedIsTheSame(c, s[..k]);
      var before := Stream(c, s[..k]);
      var t := Stripped(c, s[..k]);
      hide FlashOps.Steady, Asks, Handle, Boots;
      if !before.halted && Skips(before.cart, s[k]) {
        SkippedByte(before.cart, s[k]);
        assert before.sent + [] == before.sent;
        assert t + [] == t;
      } else {
        hide Skips;
        assert (t + [s[k]])[..|t|] == t;
      }
    }
  }

  // Given the stream without the line breaks between frames, the emulator
  // queues what the firmware sends exactly when no contents are asked of
  // another chip, and no complete command follows BOOTLOAD.
  lemma EmulatorAgreesIff(c: Cartridge, e: Host, s: seq<byte>, chunks: seq<seq<byte>>)
    requires Settled(c) && FlashOps.Steady(c.chip) && Sound(e) && !HasFrame(e) && SameState(c, e)
    requires Flatten(chunks) == Stripped(c, s)
    ensures var (e2, queued) := SubmitAll(Like(c.chip.die), e, chunks);
      && (queued == Stream(c, s).sent <==> (Identified(c.chip.die) || !AsksIn(c, s)) && Unread(c, s) < 8)
      && (Unread(c, s) < 8 ==> e2.flash == Stream(c, s).cart.chip.mem)
  {
    StrippedIsTheSame(c, s);
    RawAgreesIff(c, e, Stripped(c, s), chunks);
  }

  // With the right chip, and nothing after BOOTLOAD, the two always agree.
  lemma EmulatorAgrees(c: Cartridge, e: Host, s: seq<byte>, chunks: seq<seq<byte>>)
    requires Settled(c) && FlashOps.Steady(c.chip) && Sound(e) && !HasFrame(e) && SameState(c, e)
    requires Identified(c.chip.die) && Unread(c, s) == 0
    requires Flatten(chunks) == Stripped(c, s)
    ensures var (e2, queued) := SubmitAll(Like(c.chip.die), e, chunks);
      queued == Stream(c, s).sent && e2.flash == Stream(c, s).cart.chip.mem
  {
    hide SubmitAll, Stream, Stripped, AsksIn;
    EmulatorAgreesIff(c, e, s, chunks);
  }

  // ---------- A command after BOOTLOAD ----------

  lemma {:induction false} CommandCollected(c: Cartridge, bytes: seq<byte>, k: nat)
    requires Settled(c) && FlashOps.Steady(c.chip) && !c.parser.failed && !Busy(c.parser)
    requires |bytes| == 8 && !IsBreak(bytes[0]) && k < 8
    ensures Stream(c, bytes[..k]) == Progress(c.(parser := c.parser.(command := bytes[..k])), [], false)
    decreases k
  {
    hide Onward, FlashOps.Steady, Stream, Inv;
    if k == 0 {
      assert bytes[..0] == [];
      NothingTakenIn(c);
    } else {
      CommandCollected(c, bytes, k - 1);
      assert bytes[..k][..k - 1] == bytes[..k - 1];
      CollectOne(c, bytes, k - 1);
      StreamLast(c, bytes[..k]);
    }
  }

  lemma CollectOne(c: Cartridge, bytes: seq<byte>, k: nat)
    requires Settled(c) && FlashOps.Steady(c.chip) && !c.parser.failed && !Busy(c.parser)
    requires |bytes| == 8 && !IsBreak(bytes[0]) && k < 7
    ensures var before := c.(parser := c.parser.(command := bytes[..k]));
      && Settled(before)
      && Onward(Progress(before, [], false), bytes[k])
           == Progress(c.(parser := c.parser.(command := bytes[..k + 1])), [], false)
  {
    assert Resting(c.chip) && c.parser.idleMs == 0;
    hide Handle, Boots, FlashOps.Steady, Resting;
    assert bytes[..k] + [bytes[k]] == bytes[..k + 1];
    AcceptsCharacter(c.(parser := c.parser.(command := bytes[..k])), bytes[k]);
  }

  lemma NothingTakenIn(c: Cartridge)
    requires Settled(c) && FlashOps.Steady(c.chip) && !Busy(c.parser)
    ensures Stream(c, []) == Progress(c, [], false)
    ensures c.parser.command == [] && c.(parser := c.parser.(command := [])) == c
  {
  }

  lemma AcceptsCharacter(c: Cartridge, b: byte)
    requires Settled(c) && Resting(c.chip) && !c.parser.failed && !c.parser.writing && |c.parser.command| < 7
    requires c.parser.command != [] || !IsBreak(b)
    ensures Handle(c, b) == (c.(parser := c.parser.(command := c.parser.command + [b], idleMs := 0)), [])
    ensures !Boots(c.parser, b)
  {
    Link.QuietByte(c, b);
    hide Dispatch, PayloadRequest, WithTrailer;
  }

  // What one command makes of a cartridge that waits for it.
  lemma WholeCommand(c: Cartridge, bytes: seq<byte>)
    requires Settled(c) && FlashOps.Steady(c.chip) && !c.parser.failed && !Busy(c.parser)
    requires |bytes| == 8 && !IsBreak(bytes[0])
    ensures Stream(c, bytes) == Onward(Progress(c.(parser := c.parser.(command := bytes[..7])), [], false), bytes[7])
  {
    hide Onward, Stream, FlashOps.Steady;
    CommandCollected(c, bytes, 7);
    assert bytes[..|bytes| - 1] == bytes[..7];
    LastByte(c, bytes);
  }

  // BOOTLOAD is answered, and ends the main loop.
  lemma BootAccepted(p: Parser, b: byte)
    requires Inv(p) && !p.failed && !p.writing && |p.command| == 7 && p.command + [b] == Ascii("BOOTLOAD")
    ensures Accept(p, b) == (p.(command := [], idleMs := 0), Operation(Boot, Ascii("BOOTLOAD")))
    ensures Boots(p, b)
  {
    var word := Ascii("BOOTLOAD");
    ShortNames(word);
    PlainDispatch(p.(idleMs := 0, command := []), word);
    Letters();
    hide Ascii, Dispatch, HexValue;
  }

  lemma BootPerformed(chip: Chip, word: seq<byte>)
    requires Resting(chip)
    ensures Perform(chip, Operation(Boot, word)) == (chip, word + [0])
    ensures (word + [0]) + [] == word + [0] && [] + (word + [0]) == word + [0]
  {
    hide WithTrailer;
  }

  lemma BootByte(c: Cartridge, b: byte)
    requires Settled(c) && Resting(c.chip) && !c.parser.failed && !c.parser.writing
    requires |c.parser.command| == 7 && c.parser.command + [b] == Ascii("BOOTLOAD")
    ensures Handle(c, b) == (c.(parser := c.parser.(command := [], idleMs := 0)), Ascii("BOOTLOAD") + [0])
    ensures Boots(c.parser, b)
  {
    var word := Ascii("BOOTLOAD");
    BootAccepted(c.parser, b);
    BootPerformed(c.chip, word);
    hide Ascii, Accept, Resting, Perform, Handle;
    HandleShape(c, b, c.parser.(command := [], idleMs := 0), Operation(Boot, word), c.chip, word + [0]);
  }

  lemma BootEnds(c: Cartridge)
    requires Settled(c) && FlashOps.Steady(c.chip) && !c.parser.failed && !Busy(c.parser)
    ensures Stream(c, Ascii("BOOTLOAD")) == Progress(c, Ascii("BOOTLOAD") + [0], true)
  {
    var word := Ascii("BOOTLOAD");
    assert c.parser.command == [] && c.parser.idleMs == 0;
    hide Ascii, Onward, Stream, FlashOps.Steady, Inv;
    Letters();
    BootWord(word);
    WholeCommand(c, word);
    BootOnward(c.(parser := c.parser.(command := word[..7])), word[7]);
  }

  lemma BootWord(word: seq<byte>)
    requires |word| == 8
    ensures word[..7] + [word[7]] == word
  {
  }

  lemma BootOnward(c: Cartridge, b: byte)
    requires Settled(c) && FlashOps.Steady(c.chip) && !c.parser.failed && !c.parser.writing
    requires |c.parser.command| == 7 && c.parser.command + [b] == Ascii("BOOTLOAD")
    ensures Onward(Progress(c, [], false), b)
         == Progress(c.(parser := c.parser.(command := [], idleMs := 0)), Ascii("BOOTLOAD") + [0], true)
  {
    BootByte(c, b);
    BootPerformed(c.chip, Ascii("BOOTLOAD"));
    hide Ascii, Boots, Handle;
  }

  // The firmware is in its bootloader when the second command arrives; the
  // emulator answers it.
  lemma BootAnsweredTwice(c: Cartridge)
    requires Settled(c) && FlashOps.Steady(c.chip) && !c.parser.failed && !Busy(c.parser)
    ensures var s := Ascii("BOOTLOAD") + Ascii("DEVIDSST");
      && Stream(c, s) == Progress(c, Ascii("BOOTLOAD") + [0], true)
      && Submit(Like(c.chip.die), Host([], None, c.chip.mem), s)
           == (Host([], None, c.chip.mem),
               Ascii("BOOTLOAD") + [0] + (Ascii("DEVIDSST") + [c.chip.die.maker, c.chip.die.model]))
  {
    var boot, identify := Ascii("BOOTLOAD"), Ascii("DEVIDSST");
    var e := Host([], None, c.chip.mem);
    BootEnds(c);
    EmulatorBoots(c.chip, e);
    EmulatorIdentifies(c.chip, e);
    hide Ascii, Stream, Submit, Like, FlashOps.Steady;
    StreamConcat(c, boot, identify);
    SubmitConcat(Like(c.chip.die), e, boot, identify);
  }

  lemma EmulatorBoots(chip: Chip, e: Host)
    requires |chip.mem| == CHIP_SIZE && e == Host([], None, chip.mem)
    ensures Submit(Like(chip.die), e, Ascii("BOOTLOAD")) == (e, Ascii("BOOTLOAD") + [0])
  {
    hide Submit, Like, CommandAnswer;
    var word := Ascii("BOOTLOAD");
    Letters();
    hide Ascii;
    ShortNames(word);
    PlainAnswer(Like(chip.die), chip.mem, word);
    OneFrame(Like(chip.die), e, word);
  }

  lemma EmulatorIdentifies(chip: Chip, e: Host)
    requires |chip.mem| == CHIP_SIZE && e == Host([], None, chip.mem)
    ensures Submit(Like(chip.die), e, Ascii("DEVIDSST"))
         == (e, Ascii("DEVIDSST") + [chip.die.maker, chip.die.model])
  {
    hide Submit, CommandAnswer;
    var word := Ascii("DEVIDSST");
    Letters();
    hide Ascii;
    ShortNames(word);
    ChipIdOctets(chip.die);
    PlainAnswer(Like(chip.die), chip.mem, word);
    OneFrame(Like(chip.die), e, word);
  }

  // A whole command, given to an emulator that waits for one.
  lemma OneFrame(cfg: Config, e: Host, word: seq<byte>)
    requires Sound(e) && e.buffer == [] && e.pending == None && |word| == 8
    ensures var (flash, out, write) := CommandAnswer(cfg, e.flash, word);
      Submit(cfg, e, word) == (Host([], write, flash), out)
  {
    hide CommandAnswer;
    assert [] + word == word && word[..8] == word && word[8..] == [];
    DrainOnce(cfg, e.(buffer := word));
  }
}
