// The cartridge as the host sees it: the parser, the flash and the main loop
// of firmware/main.c.
module Device {
  import opened Octets
  import opened Sst39
  import opened Crc16
  import opened Protocol
  import Programmer
  import FlashOps

  const BANK_SIZE: nat := 0x4000

  // ---------- The specification, for a genuine chip ----------

  datatype Cartridge = Cartridge(parser: Parser, chip: Chip)

  // What holds between two turns of the main loop.
  predicate Settled(c: Cartridge) {
    Inv(c.parser) && |c.chip.mem| == CHIP_SIZE && !c.parser.bankReadPending
  }

  function BankData(mem: seq<byte>, bank: nat): (r: seq<byte>)
    requires |mem| == CHIP_SIZE && bank < 16
    ensures |r| == BANK_SIZE
  {
    mem[bank * BANK_SIZE..bank * BANK_SIZE + BANK_SIZE]
  }

  // One received byte, while the chip rests: the answer of the parser and,
  // after it, the bank that was asked for.
  function Handle(c: Cartridge, b: byte): (r: (Cartridge, seq<byte>))
    requires Settled(c) && Resting(c.chip)
    ensures Settled(r.0)
    ensures r.0.parser.failed == c.parser.failed
  {
    AcceptKeepsInv(c.parser, b);
    PendingBank(c.parser, b);
    var accepted := Accept(c.parser, b);
    var done := Perform(c.chip, accepted.1);
    var taken := Take(accepted.0);
    (Cartridge(taken.0, done.0),
     done.1 + if taken.1.Some? then WithTrailer(BankData(done.0.mem, taken.1.value)) else [])
  }

  // A bank read is pending only right after the answer that announces it.
  lemma PendingBank(p: Parser, b: byte)
    requires Inv(p) && !p.bankReadPending
    ensures var (q, r) := Accept(p, b);
      && (q.bankReadPending ==> q.bank < 16 && r.Reply? && r.bytes != [])
      && Inv(Take(q).0)
  {
    hide FrameOk, HexValue, Ascii;
    AcceptKeepsInv(p, b);
  }

  // A chip that the driver serves without giving up stays one.
  lemma SteadyPerform(chip: Chip, r: Request)
    requires FlashOps.Steady(chip) && RequestOk(r)
    ensures FlashOps.Steady(Perform(chip, r).0) && Perform(chip, r).0.die == chip.die
  {
    if r.Operation? {
      match r.op
      case Program(k, data) => FlashOps.SteadyProgram(chip, k, data);
      case EraseAll => FlashOps.SteadyErase(chip);
      case EraseBank(k) => FlashOps.SteadyEraseBank(chip, k);
      case ReadId =>
      case ReadBlock(_) =>
      case Boot =>
    }
    hide FlashOps.ProgramBlock, FlashOps.EraseAll, FlashOps.EraseBank, Healthy;
  }

  lemma SteadyHandle(c: Cartridge, b: byte)
    requires Settled(c) && FlashOps.Steady(c.chip)
    ensures FlashOps.Steady(Handle(c, b).0.chip) && Handle(c, b).0.chip.die == c.chip.die
  {
    AcceptKeepsInv(c.parser, b);
    PendingBank(c.parser, b);
    hide Perform, Accept, FlashOps.Steady, BankData, WithTrailer;
    SteadyPerform(c.chip, Accept(c.parser, b).1);
  }

  // ---------- Streams ----------

  // The byte completes a request to enter the bootloader.
  predicate Boots(p: Parser, b: byte)
    requires Inv(p)
  {
    var r := Accept(p, b).1;
    r.Operation? && r.op.Boot?
  }

  // What has become of a stream: the cartridge, everything sent, and whether
  // the main loop has ended, after which nothing more is taken in.
  datatype Progress = Progress(cart: Cartridge, sent: seq<byte>, halted: bool)

  ghost function Stream(c: Cartridge, s: seq<byte>): (r: Progress)
    requires Settled(c) && FlashOps.Steady(c.chip)
    ensures Settled(r.cart) && FlashOps.Steady(r.cart.chip) && r.cart.chip.die == c.chip.die
    ensures r.cart.parser.failed == c.parser.failed
    decreases |s|
  {
    if s == [] then Progress(c, [], false)
    else
      var before := Stream(c, s[..|s| - 1]);
      if before.halted then before else Onward(before, s[|s| - 1])
  }

  ghost function Onward(p: Progress, b: byte): (r: Progress)
    requires Settled(p.cart) && FlashOps.Steady(p.cart.chip)
    ensures Settled(r.cart) && FlashOps.Steady(r.cart.chip) && r.cart.chip.die == p.cart.chip.die
    ensures r.cart.parser.failed == p.cart.parser.failed
  {
    SteadyHandle(p.cart, b);
    var last := Handle(p.cart, b);
    Progress(last.0, p.sent + last.1, Boots(p.cart.parser, b))
  }

  lemma StreamLast(c: Cartridge, s: seq<byte>)
    requires Settled(c) && FlashOps.Steady(c.chip) && s != []
    ensures var before := Stream(c, s[..|s| - 1]);
      Stream(c, s) == if before.halted then before else Onward(before, s[|s| - 1])
  {
    hide Onward, FlashOps.Steady;
  }

  // What is sent comes after what has been sent.
  lemma {:induction false} StreamConcat(c: Cartridge, a: seq<byte>, b: seq<byte>)
    requires Settled(c) && FlashOps.Steady(c.chip)
    ensures var first := Stream(c, a);
      Stream(c, a + b) ==
        if first.halted then first
        else
          var second := Stream(first.cart, b);
          Progress(second.cart, first.sent + second.sent, second.halted)
    decreases |b|
  {
    hide Handle, Boots;
    var first := Stream(c, a);
    if b == [] {
      assert a + b == a;
      assert first.sent + [] == first.sent;
    } else {
      var k := |b| - 1;
      assert (a + b)[..|a + b| - 1] == a + b[..k];
      StreamConcat(c, a, b[..k]);
      if !first.halted {
        var middle := Stream(first.cart, b[..k]);
        if !middle.halted {
          var last := Handle(middle.cart, b[k]);
          assert (first.sent + middle.sent) + last.1 == first.sent + (middle.sent + last.1);
        }
      }
    }
  }

  // Time passing without input; a payload timeout is reported as status 7.
  function Wait(c: Cartridge, ms: nat): (r: (Cartridge, seq<byte>))
    requires Settled(c)
    ensures Settled(r.0)
    ensures r.0.chip == c.chip
  {
    var t := Tick(c.parser, ms);
    (c.(parser := t.0), if t.1 then [7] else [])
  }

  // ---------- The CRC of a bank, block by block ----------

  function BlockData(mem: seq<byte>, block: nat): (r: seq<byte>)
    requires |mem| == CHIP_SIZE && block < 1024
    ensures |r| == 0x100
  {
    mem[block * 0x100..block * 0x100 + 0x100]
  }

  // The first n blocks of a bank.
  function BankPrefix(mem: seq<byte>, bank: nat, n: nat): (r: seq<byte>)
    requires |mem| == CHIP_SIZE && bank < 16 && n <= 64
    ensures |r| == n * 0x100
  {
    mem[bank * BANK_SIZE..bank * BANK_SIZE + n * 0x100]
  }

  // Chaining the CRC over the 64 blocks gives the CRC of the whole bank.
  lemma ChainOneBlock(mem: seq<byte>, bank: nat, n: nat)
    requires |mem| == CHIP_SIZE && bank < 16 && n < 64
    ensures BankPrefix(mem, bank, n + 1) == BankPrefix(mem, bank, n) + BlockData(mem, bank * 64 + n)
    ensures Crc(Crc(ZERO, BankPrefix(mem, bank, n)), BlockData(mem, bank * 64 + n))
         == Crc(ZERO, BankPrefix(mem, bank, n + 1))
  {
    Chain(ZERO, BankPrefix(mem, bank, n), BlockData(mem, bank * 64 + n));
  }

  // ---------- The code ----------

  class Firmware {
    const parser: CommandParser
    const driver: Programmer.Driver
    var bootRequested: bool
    // The key left in RAM for the bootloader, and whether the loop has ended.
    var bootKey: nat
    var halted: bool
    // Everything handed to the USB stack for the host, and whether the stack
    // can be relied on to take it.
    var sent: seq<byte>
    const reliable: bool

    ghost predicate Valid()
      reads this, parser, parser.command, parser.payload, driver
    {
      && parser.Valid() && driver.Valid() && driver.pins.Idle()
      && !parser.bankReadPending
      && (halted ==> bootRequested && bootKey == 0xb007)
    }

    ghost predicate AtRest()
      reads driver
    {
      Programmer.RestingDevice(driver.device)
    }

    // The abstract cartridge.
    ghost function Contents(): (c: Cartridge)
      requires Valid() && driver.device.Genuine?
      ensures Settled(c)
      reads this, parser, parser.command, parser.payload, driver
    {
      Cartridge(parser.State(), driver.device.chip)
    }

    ghost function Footprint(): set<object> {
      {this, parser, parser.command, parser.payload, driver}
    }

    constructor (device: Device, reliable: bool)
      requires WellFormed(device)
      ensures Valid() && fresh(parser) && fresh(driver) && fresh(parser.command) && fresh(parser.payload)
      ensures this.reliable == reliable
      ensures driver.device == device && sent == [] && !halted && !bootRequested
      ensures parser.State() == Parser([], [], 0, 0, 0, false, false, false)
    {
      parser := new CommandParser();
      driver := new Programmer.Driver(device);
      bootRequested := false;
      bootKey := 0;
      halted := false;
      sent := [];
      this.reliable := reliable;
    }

    // Handing data to the USB stack: all of it, or a part before a failure.
    method SendData(data: seq<byte>) returns (ok: bool)
      modifies `sent
      ensures old(sent) <= sent <= old(sent) + data
      ensures ok <==> sent == old(sent) + data
      ensures reliable ==> ok
    {
      ok := *;
      if ok || reliable || data == [] {
        ok := true;
        sent := sent + data;
      } else {
        var n :| 0 <= n < |data|;
        sent := sent + data[..n];
      }
    }

    // One block of a bank: read, added to the CRC, sent.
    method SendBlock(block: nat, crc: Register) returns (ok: bool, next: Register)
      requires driver.Valid() && driver.pins.Idle()
      modifies `sent, driver
      ensures driver.Valid() && driver.pins.Idle()
      ensures old(sent) <= sent
      ensures block >= 1024 ==> !ok
      ensures old(AtRest()) && block < 1024 ==>
        && driver.device == old(driver.device)
        && var data := BlockData(driver.device.chip.mem, block);
           && sent <= old(sent) + data
           && (ok <==> sent == old(sent) + data)
           && (reliable ==> ok)
           && (ok ==> next == Crc(crc, data))
    {
      hide Crc, ReadRange;
      ghost var was := driver.device;
      var status, data := driver.ReadBlock(block);
      if status != 0 {
        return false, crc;
      }
      if Programmer.RestingDevice(was) {
        ReadRangeOfResting(was.chip, block * 0x100, 0x100);
      }
      next := CrcUpdate(crc, data);
      ok := SendData(data);
    }

    method SendBank(bank: nat) returns (ok: bool)
      requires driver.Valid() && driver.pins.Idle()
      modifies `sent, driver
      ensures driver.Valid() && driver.pins.Idle()
      ensures old(sent) <= sent
      ensures bank >= 16 ==> !ok
      ensures old(AtRest()) && bank < 16 ==>
        && driver.device == old(driver.device)
        && sent <= old(sent) + WithTrailer(BankData(driver.device.chip.mem, bank))
        && (ok <==> sent == old(sent) + WithTrailer(BankData(driver.device.chip.mem, bank)))
        && (reliable ==> ok)
    {
      hide Crc, Trailer, BankPrefix, BlockData;
      var crc := ZERO;
      ghost var was := driver.device;
      ghost var resting := AtRest() && bank < 16;
      ghost var mem := if resting then was.chip.mem else [];
      var firstBlock := bank * 64;
      var i := 0;
      if resting {
        NoBlocks(mem, bank);
      }
      while i < 64
        invariant 0 <= i <= 64
        invariant driver.Valid() && driver.pins.Idle()
        invariant old(sent) <= sent
        invariant bank >= 16 ==> i == 0
        invariant resting ==>
          && driver.device == was
          && sent == old(sent) + BankPrefix(mem, bank, i)
          && crc == Crc(ZERO, BankPrefix(mem, bank, i))
      {
        ghost var before := sent;
        ok, crc := SendBlock(firstBlock + i, crc);
        if resting {
          ChainOneBlock(mem, bank, i);
          PartOfBank(mem, bank, i + 1);
          assert before + BlockData(mem, firstBlock + i) == old(sent) + BankPrefix(mem, bank, i + 1);
        }
        if !ok {
          return;
        }
        i := i + 1;
      }
      if resting {
        PartOfBank(mem, bank, 64);
        assert sent + Trailer(crc) == old(sent) + WithTrailer(BankData(mem, bank));
      }
      ok := SendData(Trailer(crc));
    }

    // One turn of the main loop: time that passed, the line state, and at most
    // one received byte. `linked` says whether all data reached the USB stack.
    method Turn(ready: bool, elapsed: nat, input: Option<byte>) returns (ghost linked: bool)
      requires Valid() && !halted
      modifies this, parser, parser.command, parser.payload, driver
      ensures Valid()
      ensures old(sent) <= sent
      // The loop ends exactly when booting was asked for, leaving the key.
      ensures halted <==> old(bootRequested) || (ready && input.Some?
                            && Boots(Tick(old(parser.State()), elapsed).0, input.value))
      ensures bootRequested == halted
      ensures halted ==> bootKey == 0xb007
      ensures old(driver.device).Genuine? && (ready && input.Some? ==> old(AtRest())) ==>
        && driver.device.Genuine?
        && var (after, out) := TurnSpec(old(Contents()), ready, elapsed, input);
           && Contents().chip == after.chip
           && sent <= old(sent) + out
           && (linked <==> sent == old(sent) + out)
           && (reliable ==> linked)
           && (linked ==> Contents() == after)
           && Contents().parser.failed == after.parser.failed
           && (!linked ==> !Busy(Contents().parser))
    {
      hide Handle, Wait, BankData, Perform, WithTrailer, Inv, Boots, Resting, Tick, Accept, InputSpec, TurnSpec;
      if driver.device.Genuine? && (ready && input.Some? ==> AtRest()) {
        TurnInSteps(Contents(), ready, elapsed, input);
      }
      ghost var passed := PassTime(elapsed);
      linked := TakeInput(ready, input, passed);
      if bootRequested {
        bootKey := 0xb007;
        halted := true;
      }
    }

    // The line state, and a byte that was received.
    method TakeInput(ready: bool, input: Option<byte>, ghost passed: bool) returns (ghost linked: bool)
      requires Valid() && !halted
      requires !passed ==> parser.failed && !Busy(parser.State())
      modifies this, parser, parser.command, parser.payload, driver
      ensures Valid()
      ensures old(sent) <= sent
      ensures !halted && bootKey == old(bootKey)
      ensures bootRequested == (old(bootRequested) ||
                (ready && input.Some? && Boots(old(parser.State()), input.value)))
      ensures old(driver.device).Genuine? && (ready && input.Some? ==> old(AtRest())) ==>
        && driver.device.Genuine?
        && var (after, out) := InputSpec(old(Contents()), ready, input);
           && Contents().chip == after.chip
           && sent <= old(sent) + out
           && (linked <==> passed && sent == old(sent) + out)
           && (reliable && passed ==> linked)
           && (!passed ==> out == [])
           && (linked ==> Contents() == after)
           && Contents().parser.failed == after.parser.failed
           && (!linked ==> !Busy(Contents().parser))
    {
      hide Handle, BankData, Perform, WithTrailer, Inv, Boots, Resting, Tick, Accept;
      linked := passed;
      assert sent + [] == sent;
      if !ready {
        parser.ResetParser();
      } else if input.Some? {
        if !passed && AtRest() {
          FailedIsSilent(Contents(), input.value);
        }
        var ok := Receive(input.value);
        linked := passed && ok;
      }
    }

    method PassTime(elapsed: nat) returns (ghost linked: bool)
      requires Valid()
      modifies `sent, parser
      ensures Valid()
      ensures parser.State() == Tick(old(parser.State()), elapsed).0
      ensures !linked ==> parser.failed && !Busy(parser.State())
      ensures old(sent) <= sent
      ensures old(driver.device).Genuine? ==>
        && var (after, out) := Wait(old(Contents()), elapsed);
           && Contents() == after
           && sent <= old(sent) + out
           && (linked <==> sent == old(sent) + out)
           && (reliable ==> linked)
    {
      linked := true;
      var timedOut := parser.TickParser(elapsed);
      if timedOut {
        linked := SendData([7]);
      } else {
        assert sent + [] == sent;
      }
    }

    method Receive(b: byte) returns (ok: bool)
      requires Valid()
      modifies this, parser, parser.command, parser.payload, driver
      ensures Valid()
      ensures old(sent) <= sent
      ensures halted == old(halted) && bootKey == old(bootKey)
      ensures bootRequested == (old(bootRequested) || Boots(old(parser.State()), b))
      ensures old(AtRest()) ==>
        && driver.device.Genuine?
        && var (after, out) := Handle(old(Contents()), b);
           && Contents().chip == after.chip
           && sent <= old(sent) + out
           && (ok <==> sent == old(sent) + out)
           && (reliable ==> ok)
           && (ok ==> Contents() == after)
           && Contents().parser.failed == after.parser.failed
           && (!ok ==> !Busy(Contents().parser))
    {
      hide Handle, BankData, Perform, WithTrailer, Accept, Inv, Served;
      ghost var p, was, before := parser.State(), driver.device, driver.log;
      SilentWhenFailed(p, b);
      AcceptKeepsInv(p, b);
      PendingBank(p, b);
      var out, boot, request := parser.Feed(b, driver);
      if boot {
        bootRequested := true;
      }
      ServedAnswer(was, request, out, driver.device, driver.log[|before|..]);
      if Programmer.RestingDevice(was) {
        HandleShape(Cartridge(p, was.chip), b, parser.State(), request, driver.device.chip, out);
      }
      ok := true;
      if out != [] {
        ok := Answer(out);
      }
    }

    // The answer to one byte, and the bank data that follows it.
    method Answer(out: seq<byte>) returns (ok: bool)
      requires parser.Valid() && driver.Valid() && driver.pins.Idle()
      modifies `sent, parser, driver
      ensures parser.Valid() && driver.Valid() && driver.pins.Idle()
      ensures !parser.bankReadPending
      ensures old(sent) <= sent
      ensures !ok ==> parser.State() == Protocol.Reset(old(parser.State()))
      ensures ok ==> parser.State() == Take(old(parser.State())).0
      ensures old(driver.device).Genuine? ==>
        (old(parser.bankReadPending) ==> old(AtRest()) && old(parser.bank) < 16) ==>
        && driver.device == old(driver.device)
        && var all := out + BankAnswer(old(parser.State()), driver.device.chip.mem);
           && sent <= old(sent) + all
           && (ok <==> sent == old(sent) + all)
           && (reliable ==> ok)
    {
      hide BankData, WithTrailer;
      ghost var p := parser.State();
      ok := SendData(out);
      if !ok {
        parser.ResetParser();
        return;
      }
      assert sent + [] == sent;
      var taken, bank := parser.TakeBankRead();
      if taken {
        ghost var before := sent;
        ok := SendBank(bank);
        if !ok {
          parser.ResetParser();
        }
      }
    }
  }

  // The bank that follows an answer, if one was asked for.
  function BankAnswer(p: Parser, mem: seq<byte>): seq<byte>
    requires |mem| == CHIP_SIZE && (p.bankReadPending ==> p.bank < 16)
  {
    if p.bankReadPending then WithTrailer(BankData(mem, p.bank)) else []
  }

  lemma SilentWhenFailed(p: Parser, b: byte)
    requires Inv(p)
    ensures p.failed ==> Accept(p, b) == (p, Silent)
  {
  }

  lemma FailedIsSilent(c: Cartridge, b: byte)
    requires Settled(c) && Resting(c.chip) && c.parser.failed
    ensures Handle(c, b) == (c, [])
  {
    var out: seq<byte> := [];
    assert out + [] == [];
  }

  lemma HandleShape(c: Cartridge, b: byte, q: Parser, r: Request, chip: Chip, out: seq<byte>)
    requires Settled(c) && Resting(c.chip)
    requires (q, r) == Accept(c.parser, b)
    requires RequestOk(r) && (chip, out) == Perform(c.chip, r)
    ensures q.bankReadPending ==> q.bank < 16 && out != [] && chip == c.chip
    ensures Handle(c, b) == (Cartridge(Take(q).0, chip), out + BankAnswer(q, chip.mem))
    ensures out == [] ==> Handle(c, b) == (Cartridge(q, chip), [])
  {
    PendingBank(c.parser, b);
    hide BankData, WithTrailer, Accept;
    if out == [] {
      assert out + [] == [];
    }
  }

  lemma ServedAnswer(was: Device, r: Request, out: seq<byte>, now: Device, cycles: seq<Programmer.Cycle>)
    requires RequestOk(r) && Served(was, r, out, now, cycles)
    ensures r.Reply? ==> out == r.bytes
    ensures r.Silent? ==> out == []
    ensures Programmer.RestingDevice(was) ==> now.Genuine? && (now.chip, out) == Perform(was.chip, r)
  {
    hide Perform;
  }

  function InputSpec(c: Cartridge, ready: bool, input: Option<byte>): (r: (Cartridge, seq<byte>))
    requires Settled(c) && (ready && input.Some? ==> Resting(c.chip))
    ensures Settled(r.0)
  {
    if !ready then (c.(parser := Protocol.Reset(c.parser)), [])
    else if input.None? then (c, [])
    else Handle(c, input.value)
  }

  function TurnSpec(c: Cartridge, ready: bool, elapsed: nat, input: Option<byte>): (Cartridge, seq<byte>)
    requires Settled(c) && (ready && input.Some? ==> Resting(c.chip))
  {
    var waited := Wait(c, elapsed);
    if !ready then (waited.0.(parser := Protocol.Reset(waited.0.parser)), waited.1)
    else if input.None? then waited
    else
      var handled := Handle(waited.0, input.value);
      (handled.0, waited.1 + handled.1)
  }

  lemma TurnInSteps(c: Cartridge, ready: bool, elapsed: nat, input: Option<byte>)
    requires Settled(c) && (ready && input.Some? ==> Resting(c.chip))
    ensures var waited := Wait(c, elapsed);
      var taken := InputSpec(waited.0, ready, input);
      TurnSpec(c, ready, elapsed, input) == (taken.0, waited.1 + taken.1)
  {
    hide Handle, Wait;
    var out := Wait(c, elapsed).1;
    assert out + [] == out;
  }

  lemma NoBlocks(mem: seq<byte>, bank: nat)
    requires |mem| == CHIP_SIZE && bank < 16
    ensures BankPrefix(mem, bank, 0) == [] && Crc(ZERO, BankPrefix(mem, bank, 0)) == ZERO
  {
  }

  lemma PartOfBank(mem: seq<byte>, bank: nat, n: nat)
    requires |mem| == CHIP_SIZE && bank < 16 && n <= 64
    ensures BankPrefix(mem, bank, n) <= BankData(mem, bank)
    ensures BankPrefix(mem, bank, 64) == BankData(mem, bank)
  {
  }
}
