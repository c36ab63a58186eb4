// The serial side of the desktop application, src/src/serial_interface.cpp,
// connected to the firmware through a link on which any delay and any chunking
// can happen.
module Studio {
  import opened Octets
  import opened Sst39
  import opened Crc16
  import opened Protocol
  import opened Device
  import opened Link
  import opened Commands
  import FlashOps

  const BLOCK_SIZE: nat := 0x100
  const NUM_BLOCKS: nat := 1024
  const NUM_BANKS: nat := 16

  // Output only grows, and what the host has not consumed grows with it.
  lemma PendingGrows(received: seq<byte>, sent: seq<byte>, later: seq<byte>, out: seq<byte>, n: nat)
    requires n <= |sent| && sent <= later <= sent + out
    ensures var p := received + sent[n..]; var q := received + later[n..];
      p <= q <= p + out && (q == p + out <==> later == sent + out)
  {
    assert later[n..] == sent[n..] + later[|sent|..];
    assert later == sent + later[|sent|..];
    assert (sent + out)[|sent|..] == out;
    assert later[|sent|..] <= out;
    var p := received + sent[n..];
    assert received + later[n..] == p + later[|sent|..];
    assert (p + later[|sent|..])[|p|..] == later[|sent|..] && (p + out)[|p|..] == out;
  }

  // What has arrived and what is still under way make up the same bytes.
  lemma Arrives(received: seq<byte>, sent: seq<byte>, from: nat, to: nat)
    requires from <= to <= |sent|
    ensures received + sent[from..to] + sent[to..] == received + sent[from..]
    ensures to == |sent| ==> received + sent[from..to] == received + sent[from..]
  {
  }

  // When the firmware's USB stack can be relied on, the link is taken to lose
  // nothing, to deliver before the host gives up, and to leave no gap between
  // two bytes that reaches the parser's limit; otherwise anything can go wrong.
  class SerialInterface {
    const fw: Firmware
    var isOpen: bool
    // How much of the device's output has reached the receive buffer.
    var delivered: nat
    var received: seq<byte>

    ghost function Footprint(): set<object> {
      {this} + fw.Footprint()
    }

    ghost predicate Valid()
      reads this, fw.Footprint()
    {
      && fw.Valid() && fw.driver.device.Genuine?
      && !fw.halted && !fw.bootRequested
      && delivered <= |fw.sent|
    }

    ghost function Now(): (v: View)
      requires Valid()
      reads this, fw.Footprint()
    {
      View(fw.Contents(), received + fw.sent[delivered..])
    }

    // The chip, as it is now, and what it holds.
    ghost function Chip(): (chip: Chip)
      requires Valid()
      ensures |chip.mem| == CHIP_SIZE
      reads this, fw.Footprint()
    {
      fw.Contents().chip
    }

    ghost function Flash(): (mem: seq<byte>)
      requires Valid()
      ensures |mem| == CHIP_SIZE
      reads this, fw.Footprint()
    {
      Chip().mem
    }

    // The port is open and no exchange is under way.
    ghost predicate InStep()
      reads this, fw.Footprint()
    {
      Valid() && isOpen && Idle(Now().cart) && Now().pending == [] && Resting(Chip())
    }

    constructor (fw: Firmware)
      requires fw.Valid() && fw.driver.device.Genuine? && !fw.halted && !fw.bootRequested
      ensures Valid() && this.fw == fw && !isOpen
    {
      this.fw := fw;
      isOpen := false;
      delivered := |fw.sent|;
      received := [];
    }

    // ---------- The transport ----------

    // One turn of the device's main loop while the port is open.
    method Move(ms: nat, input: Option<byte>)
      requires Valid()
      requires input.Some? ==>
        Resting(Now().cart.chip) && !Boots(Tick(Now().cart.parser, ms).0, input.value)
      modifies fw.Footprint()
      ensures Valid()
      ensures Moves(old(Now()), ms, input, Now())
      ensures fw.reliable && InTime(old(Now()).cart.parser, ms) ==> Whole(old(Now()), ms, input, Now())
    {
      hide TurnSpec, Settled, Boots, Tick;
      ghost var before := fw.Contents();
      ghost var sent := fw.sent;
      ghost var linked := fw.Turn(true, ms, input);
      PendingGrows(received, sent, fw.sent, TurnSpec(before, true, ms, input).1, delivered);
    }

    // The device's own clock always leaves room for a turn.
    lemma InvTime()
      requires Valid()
      ensures fw.parser.Patient(0)
    {
    }

    lemma PatientInTime(ms: nat)
      requires Valid()
      ensures fw.parser.Patient(ms) <==> InTime(Now().cart.parser, ms)
    {
      assert |fw.parser.State().command| == fw.parser.used;
    }

    // Any number of turns without input.
    method Pause(ghost s: Stage)
      requires Valid() && StageOk(s) && Holds(s, Now())
      modifies fw.Footprint()
      ensures Valid() && Holds(s, Now())
      ensures fw.reliable && OnTrack(s, old(Now())) ==> OnTrack(s, Now())
    {
      hide Holds, StageOk, Moves, Whole, OnTrack, InTime;
      ghost var sure := fw.reliable && OnTrack(s, Now());
      var n :| n >= 0;
      while n > 0
        invariant Valid() && Holds(s, Now()) && (sure ==> OnTrack(s, Now()))
        decreases n
      {
        ghost var v := Now();
        InvTime();
        var ms: nat :| fw.reliable ==> fw.parser.Patient(ms);
        PatientInTime(ms);
        Move(ms, None);
        TimePasses(s, v, ms, Now());
        if sure {
          StaysOnTrack(s, v, ms, Now());
        }
        n := n - 1;
      }
    }

    // One byte reaches the device, after some time.
    method Deliver(b: byte, ghost s: Stage)
      requires Valid() && StageOk(s) && Holds(s, Now())
      requires s.Command? || s.Payload?
      requires s.k < |s.bytes| && b == s.bytes[s.k]
      modifies fw.Footprint()
      ensures Valid() && StageOk(s.(k := s.k + 1)) && Holds(s.(k := s.k + 1), Now())
      ensures fw.reliable && OnTrack(s, old(Now())) ==> OnTrack(s.(k := s.k + 1), Now())
    {
      hide Holds, Moves, Boots, Tick, Whole, OnTrack, InTime;
      ghost var v := Now();
      InvTime();
      var ms: nat :| fw.reliable ==> fw.parser.Patient(ms);
      PatientInTime(ms);
      BytesNeverBoot(s, v, ms);
      Move(ms, Some(b));
      ByteArrives(s, v, ms, Now());
      if fw.reliable && OnTrack(s, v) {
        ByteOnTrack(s, v, ms, Now());
      }
    }

    // write_bytes: the transport takes the data in pieces of any size; an
    // error or a timeout leaves some first part written.
    method WriteBytes(data: seq<byte>, ghost s: Stage) returns (ok: bool, ghost t: Stage)
      requires Valid() && StageOk(s) && Holds(s, Now())
      requires (s.Command? || s.Payload?) && s.k == 0 && s.bytes == data
      modifies fw.Footprint()
      ensures Valid() && StageOk(t) && Holds(t, Now())
      ensures (t.Command? <==> s.Command?) && (t.Payload? <==> s.Payload?)
      ensures t.k <= |data| && t == s.(k := t.k)
      ensures ok ==> t.k == |data|
      ensures fw.reliable && OnTrack(s, old(Now())) ==> ok && OnTrack(t, Now())
    {
      hide Holds, StageOk, OnTrack;
      ghost var sure := fw.reliable && OnTrack(s, Now());
      t := s;
      var offset := 0;
      var patience :| patience >= 0;
      while offset < |data|
        invariant offset <= |data|
        invariant Valid() && StageOk(t) && Holds(t, Now())
        invariant (t.Command? <==> s.Command?) && (t.Payload? <==> s.Payload?)
        invariant t == s.(k := offset) && (sure ==> OnTrack(t, Now()))
        decreases |data| - offset, patience
      {
        var least := if !fw.reliable then -1 else if patience > 0 then 0 else 1;
        var written :| least <= written <= |data| - offset;
        if written < 0 {
          return false, t;
        }
        if written == 0 {
          if patience == 0 {
            return false, t;
          }
          patience := patience - 1;
        } else {
          t := WriteChunk(data, offset, offset + written, t);
          offset := offset + written;
        }
      }
      var timedOut: bool := *;
      ok := fw.reliable || !timedOut;
    }

    method WriteChunk(data: seq<byte>, from: nat, to: nat, ghost s: Stage) returns (ghost t: Stage)
      requires Valid() && StageOk(s) && Holds(s, Now())
      requires (s.Command? || s.Payload?) && s.k == from <= to <= |data| && s.bytes == data
      modifies fw.Footprint()
      ensures Valid() && StageOk(t) && Holds(t, Now())
      ensures t == s.(k := to)
      ensures fw.reliable && OnTrack(s, old(Now())) ==> OnTrack(t, Now())
    {
      hide Holds, StageOk, OnTrack;
      ghost var sure := fw.reliable && OnTrack(s, Now());
      t := s;
      for i := from to to
        invariant Valid() && StageOk(t) && Holds(t, Now())
        invariant t == s.(k := i) && (sure ==> OnTrack(t, Now()))
      {
        Deliver(data[i], t);
        t := t.(k := i + 1);
      }
    }

    // readAll: any part of what the device has sent arrives. A reliable link has
    // delivered all of it by the time the host gives up.
    method ReadAll(atTimeout: bool)
      requires Valid()
      modifies this`delivered, this`received
      ensures Valid() && Now() == old(Now())
      ensures fw.reliable && atTimeout ==> received == Now().pending
    {
      var least := if fw.reliable && atTimeout then |fw.sent| else delivered;
      var n :| least <= n <= |fw.sent|;
      Arrives(received, fw.sent, delivered, n);
      hide Firmware.Valid;
      received := received + fw.sent[delivered..n];
      delivered := n;
    }

    // wait_for_response: the next `size` bytes, however they are chunked; the
    // bytes after them stay in the buffer.
    method WaitForResponse(size: nat, ghost s: Stage) returns (ok: bool, response: seq<byte>)
      requires Valid() && StageOk(s) && Holds(s, Now())
      requires size > 0
      requires (s.Answer? && size <= |s.rest|) || s.Lost? || (s.Deaf? && size == 1)
      modifies this`delivered, this`received, fw.Footprint()
      ensures Valid()
      ensures !ok ==> Holds(s, Now())
      ensures ok && s.Answer? ==>
        && response == s.rest[..size]
        && StageOk(Answer(s.after, s.rest[size..])) && Holds(Answer(s.after, s.rest[size..]), Now())
      ensures s.Lost? ==> !ok
      ensures ok && s.Deaf? ==> response == [7] && Holds(s, Now())
      ensures fw.reliable && s.Answer? && OnTrack(s, old(Now())) ==>
        ok && OnTrack(Answer(s.after, s.rest[size..]), Now())
    {
      AwaitBytes(size, s);
      if |received| < size {
        return false, [];
      }
      ghost var v := Now();
      response := received[..size];
      assert v.pending[..size] == response;
      assert v.pending[size..] == received[size..] + fw.sent[delivered..];
      received := received[size..];
      hide AfterCommand, AfterPayload, Settled;
      if s.Answer? {
        TakeReceived(s.after, s.rest, v, size);
      }
      ok := true;
    }

    // The polling loop of wait_for_response, up to its timeout.
    method AwaitBytes(size: nat, ghost s: Stage)
      requires Valid() && StageOk(s) && Holds(s, Now())
      modifies this`delivered, this`received, fw.Footprint()
      ensures Valid() && Holds(s, Now())
      ensures |received| < size && fw.reliable ==> received == Now().pending
      ensures fw.reliable && OnTrack(s, old(Now())) ==> OnTrack(s, Now())
    {
      hide Holds, OnTrack, StageOk;
      ghost var sure := fw.reliable && OnTrack(s, Now());
      var patience :| patience >= 0;
      while |received| < size && patience > 0
        invariant Valid() && Holds(s, Now()) && (sure ==> OnTrack(s, Now()))
        decreases patience
      {
        ReadAll(false);
        if |received| >= size {
          break;
        }
        Pause(s);
        patience := patience - 1;
      }
      if |received| < size {
        ReadAll(true);
      }
    }

    // send_command: eight bytes out, the same eight bytes back.
    method SendCommand(command: seq<byte>) returns (ok: bool)
      requires InStep()
      requires |command| == 8 && !IsBreak(command[0]) && command != Ascii("BOOTLOAD")
      requires |AfterCommand(Now().cart, command).1| >= 8
      modifies this`delivered, this`received, fw.Footprint()
      ensures Valid()
      ensures var (after, out) := AfterCommand(old(Now()).cart, command);
        && (ok ==> out[..8] == command && after.parser.command == []
                   && StageOk(Answer(after, out[8..])) && Holds(Answer(after, out[8..]), Now()))
        && (!ok ==> Chip() == old(Chip()) || Chip() == after.chip)
        && (fw.reliable && out[..8] == command ==>
              ok && StageOk(Answer(after, out[8..])) && OnTrack(Answer(after, out[8..]), Now()))
    {
      hide Receives, Settled, AfterCommand, AfterPayload, Ascii, Delivered;
      ghost var c := Now().cart;
      AfterCommandShape(c, command);
      ghost var result := AfterCommand(c, command);
      ghost var s := Command(c, command, 0);
      StartCommand(s, Now());
      ok, s := WriteBytes(command, s);
      MemoryDuring(s, Now());
      if !ok {
        return;
      }
      if fw.reliable {
        AllSent(s, Now());
      }
      s := if Receives(result.0, result.1, Now()) then Answer(result.0, result.1) else Lost(c);
      var echo: seq<byte>;
      ok, echo := WaitForResponse(8, s);
      MemoryDuring(if ok then Answer(result.0, result.1[8..]) else s, Now());
      if !ok {
        return;
      }
      ok := echo == command;
    }

    // ---------- Opening and closing ----------

    // A freshly opened port: raising DTR finds a parser that was reset while
    // it was low, and the buffers of the link start empty.
    method OpenPort()
      requires Valid() && !isOpen && Resting(Chip())
      modifies this, fw.Footprint()
      ensures InStep() && Chip() == old(Chip())
    {
      var ms :| ms >= 0;
      ghost var linked := fw.Turn(false, ms, None);
      delivered := |fw.sent|;
      received := [];
      isOpen := true;
    }

    method ClosePort()
      requires Valid()
      modifies this`isOpen, this`received
      ensures Valid() && !isOpen && Chip() == old(Chip())
    {
      isOpen := false;
      received := [];
    }

    // ---------- Operations ----------

    // A command and the status byte of its answer; `rest` follows the status.
    method StatusCommand(command: seq<byte>, ghost after: Cartridge, ghost status: byte, ghost rest: seq<byte>)
      returns (ok: bool)
      requires InStep()
      requires |command| == 8 && !IsBreak(command[0]) && command != Ascii("BOOTLOAD")
      requires AfterCommand(Now().cart, command) == (after, command + ([status] + rest))
      modifies this`delivered, this`received, fw.Footprint()
      ensures Valid()
      ensures ok ==> status == 0 && StageOk(Answer(after, rest)) && Holds(Answer(after, rest), Now())
      ensures !ok ==> Chip() == old(Chip()) || Chip() == after.chip
      ensures fw.reliable && status == 0 ==> ok && OnTrack(Answer(after, rest), Now())
    {
      hide Receives, Settled, AfterCommand, AfterPayload, Ascii, Delivered;
      assert (command + ([status] + rest))[..8] == command;
      ok := SendCommand(command);
      if !ok {
        return;
      }
      var response: seq<byte>;
      ghost var all := [status] + rest;
      assert (command + all)[8..] == all;
      ok, response := WaitForResponse(1, Answer(after, all));
      assert all[1..] == rest;
      MemoryDuring(if ok then Answer(after, rest) else Answer(after, all), Now());
      if !ok {
        return;
      }
      ok := response[0] == 0;
    }

    // The identity of the chip, whatever it is.
    method GetChipId() returns (ok: bool, id: nat)
      requires InStep()
      modifies this`delivered, this`received, fw.Footprint()
      ensures Valid() && Chip() == old(Chip())
      ensures ok ==> InStep() && id == BigEndian(Chip().die.maker, Chip().die.model)
      ensures fw.reliable ==> ok
    {
      hide AfterCommand, AfterPayload, Ascii;
      ghost var c := Now().cart;
      var command := Ascii("DEVIDSST");
      ghost var identity := [c.chip.die.maker, c.chip.die.model];
      assert (command + identity)[..8] == command && (command + identity)[8..] == identity;
      IdentifyEffect(c);
      id := 0;
      ok := SendCommand(command);
      if !ok {
        return;
      }
      var response: seq<byte>;
      ok, response := WaitForResponse(2, Answer(c, identity));
      if !ok {
        return;
      }
      assert identity[2..] == [];
      AllReceived(c, Now());
      id := BigEndian(response[0], response[1]);
    }

    // erase_chip and erase_bank: success means that the driver reported it;
    // failure means that the driver did what it does or was not asked.
    method EraseChip() returns (ok: bool)
      requires InStep()
      modifies this`delivered, this`received, fw.Footprint()
      ensures Valid()
      ensures var (chip, status) := FlashOps.EraseAll(old(Chip()));
        && (ok ==> status == 0 && Chip() == chip && isOpen && (Resting(chip) ==> InStep()))
        && (!ok ==> Chip() == old(Chip()) || Chip() == chip)
        && (fw.reliable && status == 0 ==> ok)
    {
      hide AfterCommand, AfterPayload, Ascii, FlashOps.EraseAll;
      ghost var c := Now().cart;
      EraseAllEffect(c);
      ghost var r := FlashOps.EraseAll(c.chip);
      ok := EraseCommand(Ascii("ERASEALL"), c, r);
    }

    method EraseBank(bank: nat) returns (ok: bool)
      requires InStep()
      modifies this`delivered, this`received, fw.Footprint()
      ensures Valid()
      ensures bank >= 16 ==> !ok && Chip() == old(Chip())
      ensures bank < 16 ==>
        var (chip, status) := FlashOps.EraseBank(old(Chip()), bank);
        && (ok ==> status == 0 && Chip() == chip && isOpen && (Resting(chip) ==> InStep()))
        && (!ok ==> Chip() == old(Chip()) || Chip() == chip)
        && (fw.reliable && status == 0 ==> ok)
    {
      hide AfterCommand, AfterPayload, EraseBankCommand, FlashOps.EraseBank;
      if bank >= NUM_BANKS {
        return false;
      }
      ghost var c := Now().cart;
      EraseBankEffect(c, bank);
      ghost var r := FlashOps.EraseBank(c.chip, bank);
      ok := EraseCommand(EraseBankCommand(bank), c, r);
    }

    method EraseCommand(command: seq<byte>, ghost c: Cartridge, ghost r: (Chip, byte)) returns (ok: bool)
      requires InStep() && c == Now().cart
      requires |command| == 8 && !IsBreak(command[0]) && command != Ascii("BOOTLOAD")
      requires |r.0.mem| == CHIP_SIZE && AfterCommand(c, command) == (c.(chip := r.0), command + [r.1])
      modifies this`delivered, this`received, fw.Footprint()
      ensures Valid()
      ensures ok ==> r.1 == 0 && Chip() == r.0 && isOpen && (Resting(r.0) ==> InStep())
      ensures !ok ==> Chip() == old(Chip()) || Chip() == r.0
      ensures fw.reliable && r.1 == 0 ==> ok
    {
      hide AfterCommand, AfterPayload, Ascii, Receives;
      ghost var after := c.(chip := r.0);
      Regroup([r.1], [], []);
      ok := StatusCommand(command, after, r.1, []);
      if ok {
        ExchangeEnds(after, Now());
      }
    }

    // burn_block: success means that the driver programmed the block; failure
    // means that the driver did what it does or was not asked.
    method BurnBlock(block: nat, data: seq<byte>) returns (ok: bool)
      requires InStep()
      modifies this`delivered, this`received, fw.Footprint()
      ensures Valid()
      ensures block >= 1024 || |data| != BLOCK_SIZE ==> !ok && Chip() == old(Chip())
      ensures block < 1024 && |data| == BLOCK_SIZE ==>
        var (chip, status) := FlashOps.ProgramBlock(old(Chip()), block, data);
        && (ok ==> status == 0 && Chip() == chip && isOpen && (Resting(chip) ==> InStep()))
        && (!ok ==> Chip() == old(Chip()) || Chip() == chip)
        && (fw.reliable && status == 0 ==> ok)
    {
      hide AfterCommand, AfterPayload, WriteCommand, FlashOps.ProgramBlock, Crc, Trailer, Ascii;
      if block >= NUM_BLOCKS {
        return false;
      }
      if |data| != BLOCK_SIZE {
        return false;
      }
      ghost var c := Now().cart;
      OpenWriteEffect(c, block);
      ghost var ready := c.(parser := c.parser.(block := block, writing := true, payload := []));
      Regroup([0], [], []);
      ok := StatusCommand(WriteCommand(block), ready, 0, []);
      if !ok {
        return;
      }
      var crc := CrcUpdate(ZERO, data);
      var payload := data + Trailer(crc);
      ok := SendPayload(payload, ready, data);
    }

    method SendPayload(payload: seq<byte>, ghost ready: Cartridge, ghost data: seq<byte>) returns (ok: bool)
      requires Valid() && isOpen
      requires StageOk(Answer(ready, [])) && Holds(Answer(ready, []), Now()) && Resting(ready.chip)
      requires ready.parser.writing && ready.parser.payload == [] && ready.parser.block < 1024
      requires |data| == BLOCK_SIZE && payload == WithTrailer(data)
      modifies this`delivered, this`received, fw.Footprint()
      ensures Valid()
      ensures var (chip, status) := FlashOps.ProgramBlock(ready.chip, ready.parser.block, data);
        && (ok ==> status == 0 && Chip() == chip && (Resting(chip) ==> InStep()))
        && (!ok ==> Chip() == ready.chip || Chip() == chip)
        && (fw.reliable && OnTrack(Answer(ready, []), old(Now())) && status == 0 ==> ok)
    {
      hide AfterCommand, AfterPayload, FlashOps.ProgramBlock, WithTrailer, Receives, Delivered;
      ghost var sure := fw.reliable && OnTrack(Answer(ready, []), Now());
      PayloadEffect(ready, data);
      ReadyForPayload(ready, Now(), payload);
      if sure {
        ReadyOnTrack(ready, Now(), payload);
      }
      ghost var result := AfterPayload(ready, payload);
      ghost var s := Payload(ready, payload, 0);
      ok, s := WriteBytes(payload, s);
      MemoryDuring(s, Now());
      if !ok {
        return;
      }
      if sure {
        AllSent(s, Now());
      }
      s := if Receives(result.0, result.1, Now()) then Answer(result.0, result.1) else Deaf(ready);
      assert StageOk(s) && Holds(s, Now());
      ok := PayloadStatus(s, result.0, result.1);
    }

    // The status that answers a payload.
    method PayloadStatus(ghost s: Stage, ghost after: Cartridge, ghost out: seq<byte>) returns (ok: bool)
      requires Valid() && isOpen && StageOk(s) && Holds(s, Now())
      requires s == Answer(after, out) || s.Deaf?
      requires |out| == 1 && Settled(after) && !after.parser.failed && !Busy(after.parser)
      modifies this`delivered, this`received, fw.Footprint()
      ensures Valid()
      ensures s.Deaf? ==> !ok && Chip() == s.before.chip
      ensures s.Answer? ==> Chip() == after.chip
      ensures ok ==> s.Answer? && out == [0] && (Resting(after.chip) ==> InStep())
      ensures fw.reliable && OnTrack(s, old(Now())) && out == [0] ==> ok
    {
      hide Receives, Delivered, AfterCommand, AfterPayload;
      var response: seq<byte>;
      ok, response := WaitForResponse(1, s);
      if !ok {
        MemoryDuring(s, Now());
        return;
      }
      assert out[1..] == [] && out[..1] == out;
      if s.Answer? {
        MemoryDuring(Answer(after, []), Now());
        ExchangeEnds(after, Now());
      } else {
        MemoryDuring(s, Now());
      }
      ok := response[0] == 0;
    }

    // read_block and read_bank: what is returned is what is in the flash.
    method ReadBlock(block: nat) returns (ok: bool, data: seq<byte>)
      requires InStep()
      modifies this`delivered, this`received, fw.Footprint()
      ensures Valid() && Chip() == old(Chip())
      ensures ok ==> block < 1024 && InStep() && data == BlockData(Flash(), block)
      ensures fw.reliable && block < 1024 ==> ok
    {
      hide AfterCommand, AfterPayload, ReadBlockCommand, WithTrailer;
      if block >= NUM_BLOCKS {
        return false, [];
      }
      ghost var c := Now().cart;
      ReadBlockEffect(c, block);
      ok, data := ReadData(ReadBlockCommand(block), BLOCK_SIZE, c.(parser := c.parser.(block := block)),
                           BlockData(c.chip.mem, block));
    }

    method ReadBank(bank: nat) returns (ok: bool, data: seq<byte>)
      requires InStep()
      modifies this`delivered, this`received, fw.Footprint()
      ensures Valid() && Chip() == old(Chip())
      ensures ok ==> bank < 16 && InStep() && data == BankData(Flash(), bank)
      ensures fw.reliable && bank < 16 ==> ok
    {
      hide AfterCommand, AfterPayload, ReadBankCommand, WithTrailer;
      if bank >= NUM_BANKS {
        return false, [];
      }
      ghost var c := Now().cart;
      ReadBankEffect(c, bank);
      ok, data := ReadData(ReadBankCommand(bank), BANK_SIZE, c.(parser := c.parser.(bank := bank)),
                           BankData(c.chip.mem, bank));
    }

    // The common part: a status, then data and its CRC.
    method ReadData(command: seq<byte>, size: nat, ghost after: Cartridge, ghost content: seq<byte>)
      returns (ok: bool, data: seq<byte>)
      requires InStep() && size == |content| > 0
      requires |command| == 8 && !IsBreak(command[0]) && command != Ascii("BOOTLOAD")
      requires AfterCommand(Now().cart, command) == (after, command + ([0] + WithTrailer(content)))
      requires Idle(after) && after.chip == Now().cart.chip
      modifies this`delivered, this`received, fw.Footprint()
      ensures Valid() && Chip() == old(Chip())
      ensures ok ==> InStep() && data == content
      ensures fw.reliable ==> ok
    {
      hide AfterCommand, AfterPayload, Ascii, Receives, Delivered, WithTrailer, FrameOk;
      data := [];
      TrailerEnds(content);
      ok := StatusCommand(command, after, 0, WithTrailer(content));
      if !ok {
        return;
      }
      var response: seq<byte>;
      MemoryDuring(Answer(after, WithTrailer(content)), Now());
      ok, response := WaitForResponse(size + 2, Answer(after, WithTrailer(content)));
      TrailerEnds(content);
      MemoryDuring(if ok then Answer(after, []) else Answer(after, WithTrailer(content)), Now());
      if !ok {
        return;
      }
      AllReceived(after, Now());
      IntactFrame(content, response);
      ok, data := SplitFrame(response, size);
    }
  }

  // The CRC at the end of a response of size octets and their CRC.
  method SplitFrame(response: seq<byte>, size: nat) returns (ok: bool, data: seq<byte>)
    requires |response| == size + 2
    ensures ok <==> FrameOk(response)
    ensures data == response[..size]
  {
    data := response[..size];
    var crc := CrcUpdate(ZERO, data);
    ok := Word(response[size], response[size + 1]) == crc;
  }

  // A response damaged in an odd number of bits, or within sixteen consecutive
  // bits, is not taken for data.
  lemma DamagedReadRejected(content: seq<byte>, response: seq<byte>)
    requires Damaged(WithTrailer(content), response) && |response| >= 2
    ensures !FrameOk(response)
  {
    TrailerAccepted(content);
    hide Damaged, FrameOk, Crc, Trailer;
    DamageDetected(WithTrailer(content), response);
  }

  lemma TrailerEnds(content: seq<byte>)
    ensures |WithTrailer(content)| == |content| + 2 && WithTrailer(content)[|content| + 2..] == []
  {
    hide Crc, Trailer;
  }

  lemma IntactFrame(content: seq<byte>, response: seq<byte>)
    requires response == WithTrailer(content)[..|content| + 2]
    ensures |response| == |content| + 2 && FrameOk(response) && response[..|content|] == content
  {
    TrailerAccepted(content);
    assert response == WithTrailer(content);
    hide FrameOk, Crc, Trailer;
  }

  lemma StartCommand(s: Stage, v: View)
    requires s.Command? && s.k == 0 && Idle(s.before) && |s.bytes| == 8 && !IsBreak(s.bytes[0])
    requires s.bytes != Ascii("BOOTLOAD")
    requires v == View(s.before, [])
    ensures StageOk(s) && Holds(s, v) && OnTrack(s, v)
  {
    hide Ascii;
    assert s.bytes[..0] == [];
  }

  // With nothing left to receive, and the chip at rest, the next exchange can
  // begin.
  lemma ExchangeEnds(after: Cartridge, v: View)
    requires Settled(v.cart) && Settled(after) && !after.parser.failed && !Busy(after.parser)
    requires Receives(after, [], v)
    ensures v.cart.chip == after.chip && (Resting(after.chip) ==> Synced(after, v))
  {
    if Resting(after.chip) {
      AllReceived(after, v);
    }
  }

  // What the flash can hold while an exchange is under way.
  lemma MemoryDuring(s: Stage, v: View)
    requires StageOk(s) && Holds(s, v)
    ensures match s
      case Command(c, bytes, k) => v.cart.chip == c.chip || (k == 8 && v.cart.chip == AfterCommand(c, bytes).0.chip)
      case Payload(c, bytes, k) =>
        v.cart.chip == c.chip || (k == PAYLOAD_SIZE && v.cart.chip == AfterPayload(c, bytes).0.chip)
      case Answer(after, rest) => v.cart.chip == after.chip
      case Lost(c) => v.cart.chip == c.chip
      case Deaf(c) => v.cart.chip == c.chip
  {
    hide AfterCommand, AfterPayload, Ascii;
  }
}
