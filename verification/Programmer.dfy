// The flash driver of firmware/sst39sf020.c, one AVR port write at a time.
//
// PORTD carries the flash data and is also the input of the three latches that
// hold the address, so every cycle has to hand the bus over in the right order.
module Programmer {
  import opened Octets
  import opened Sst39
  import FlashOps

  // ---------- The pins of the board ----------

  // Directions and levels of the AVR ports (true is high or output), and what
  // the three transparent address latches hold.
  datatype Pins = Pins(ddrb: bool, ddrf: bool, driving: bool,
                       we: bool, ce: bool, oe: bool, addrOe: bool,
                       leLow: bool, leHigh: bool, leUpper: bool,
                       portd: byte, low: byte, high: byte, upper: byte)
  {
    // The control lines are active low and inactive while not driven.
    predicate WeActive() { ddrb && !we }
    predicate CeActive() { ddrb && !ce }
    predicate OeActive() { ddrb && !oe }
    predicate AddressDriven() { ddrb && !addrOe }
    predicate Latching() { ddrf && (leLow || leHigh || leUpper) }
    predicate Writing() { WeActive() && CeActive() }

    // What the latches present to A0..A17; only two bits of the third are wired.
    function Address(): (a: nat)
      ensures a < CHIP_SIZE
    {
      upper % 4 * 0x1_0000 + high * 0x100 + low
    }

    // A latch whose enable is high follows the bus.
    function Follow(): Pins {
      this.(low := if ddrf && leLow && driving then portd else low,
            high := if ddrf && leHigh && driving then portd else high,
            upper := if ddrf && leUpper && driving then portd else upper)
    }

    // Never two drivers on the bus; a write pulse only with the chip selected,
    // its outputs off, its address driven and stable, and the data driven; a
    // latch is open only while the MCU owns the bus.
    predicate Safe() {
      && !(driving && CeActive() && OeActive())
      && (WeActive() ==> CeActive() && !OeActive() && AddressDriven() && driving && !Latching())
      && (Latching() ==> driving && !OeActive())
    }

    // Between bus cycles: lines under control, nothing latching, no write pulse.
    predicate Quiet() {
      ddrb && ddrf && we && !leLow && !leHigh && !leUpper
    }

    // The idle bus: every line inactive and PORTD released without pull-ups.
    predicate Idle() {
      Quiet() && ce && oe && addrOe && !driving && portd == 0
    }
  }

  // Levels after a reset of the AVR: all ports are inputs with output bits 0.
  const AFTER_RESET := Pins(false, false, false, false, false, false, false, false, false, false, 0, 0, 0, 0)

  // The address on the latches and on the chip, the chip deselected.
  function Addressed(a: nat): Pins
    requires a < CHIP_SIZE
  {
    Pins(true, true, true, true, true, true, false, false, false, false,
         Low8(a), Low8(a), Low8(a / 0x100), a / 0x1_0000)
  }

  lemma AddressedAddress(a: nat)
    requires a < CHIP_SIZE
    ensures Addressed(a).Address() == a
  {
  }

  // ---------- Bus traffic ----------

  datatype Cycle = Rd(address: nat, value: byte) | Wr(address: nat, value: byte)

  // The value that the latest read of an address returned.
  function LastRead(log: seq<Cycle>, a: nat): (r: int)
    decreases |log|
  {
    if log == [] then -1
    else
      var c := log[|log| - 1];
      if c.Rd? && c.address == a then c.value else LastRead(log[..|log| - 1], a)
  }

  predicate ReadsOnly(log: seq<Cycle>, a: nat) {
    forall c | c in log && c.Rd? :: c.address == a
  }

  lemma {:induction false} LastReadElsewhere(log: seq<Cycle>, more: seq<Cycle>, a: nat, b: nat)
    requires ReadsOnly(more, a) && a != b
    ensures LastRead(log + more, b) == LastRead(log, b)
    decreases |more|
  {
    if more == [] {
      assert log + more == log;
    } else {
      var k := |more| - 1;
      assert (log + more)[..|log + more| - 1] == log + more[..k];
      assert more[k] in more;
      LastReadElsewhere(log, more[..k], a, b);
    }
  }

  lemma ReadsOnlyMore(first: seq<Cycle>, second: seq<Cycle>, third: seq<Cycle>, a: nat)
    requires first <= second <= third
    requires ReadsOnly(second[|first|..], a) && ReadsOnly(third[|second|..], a)
    ensures ReadsOnly(third[|first|..], a)
  {
    assert third[|first|..] == second[|first|..] + third[|second|..];
  }

  lemma {:induction false} LastReadOfMore(log: seq<Cycle>, more: seq<Cycle>, a: nat)
    ensures LastRead(more, a) != -1 ==> LastRead(log + more, a) == LastRead(more, a)
    decreases |more|
  {
    if more != [] {
      var k := |more| - 1;
      assert (log + more)[..|log + more| - 1] == log + more[..k];
      LastReadOfMore(log, more[..k], a);
    }
  }

  lemma LastReadLater(first: seq<Cycle>, second: seq<Cycle>, third: seq<Cycle>, a: nat)
    requires first <= second <= third
    ensures LastRead(third[|second|..], a) != -1 ==> LastRead(third[|first|..], a) == LastRead(third[|second|..], a)
  {
    assert third[|first|..] == second[|first|..] + third[|second|..];
    LastReadOfMore(second[|first|..], third[|second|..], a);
  }

  // What one byte takes before it is polled, and what it takes if it is right.
  lemma CommandTraffic(log: seq<Cycle>, a: nat, b: byte, d: byte)
    ensures var more := log + [Rd(a, b)];
      && more[|log|..] == [Rd(a, b)] && ReadsOnly([Rd(a, b)], a) && LastRead([Rd(a, b)], a) == b
      && var sent := more + (UnlockTraffic(0xa0) + [Wr(a, d)]);
         log <= sent && ReadsOnly(sent[|log|..], a)
    ensures log + [Rd(a, b)] + UnlockTraffic(0xa0) + [Wr(a, d)] == log + [Rd(a, b)] + (UnlockTraffic(0xa0) + [Wr(a, d)])
  {
    LastReadHere([], a, b);
    assert [] + [Rd(a, b)] == [Rd(a, b)];
    var sent := log + [Rd(a, b)] + (UnlockTraffic(0xa0) + [Wr(a, d)]);
    assert sent[|log|..] == [Rd(a, b)] + UnlockTraffic(0xa0) + [Wr(a, d)];
  }

  lemma LastReadHere(log: seq<Cycle>, a: nat, b: byte)
    ensures LastRead(log + [Rd(a, b)], a) == b
  {
  }

  // The traffic of reading `data` from consecutive addresses.
  function ReadTraffic(from: nat, data: seq<byte>): (r: seq<Cycle>)
    ensures |r| == |data|
    ensures forall i | 0 <= i < |data| :: r[i] == Rd(from + i, data[i])
  {
    seq(|data|, i requires 0 <= i < |data| => Rd(from + i, data[i]))
  }

  lemma ReadTrafficMore(from: nat, data: seq<byte>, b: byte)
    ensures ReadTraffic(from, data + [b]) == ReadTraffic(from, data) + [Rd(from + |data|, b)]
  {
  }

  lemma ReadTrafficConcat(from: nat, a: seq<byte>, b: seq<byte>)
    ensures ReadTraffic(from, a + b) == ReadTraffic(from, a) + ReadTraffic(from + |a|, b)
  {
  }

  lemma NoTraffic()
    ensures ReadTraffic(0, Blanks(0)) == []
  {
  }

  lemma MoreBlankTraffic(block: nat)
    ensures ReadTraffic(0, Blanks((block + 1) * 0x100))
         == ReadTraffic(0, Blanks(block * 0x100)) + ReadTraffic(block * 0x100, Blanks(0x100))
  {
    ReadTrafficConcat(0, Blanks(block * 0x100), Blanks(0x100));
    assert Blanks(block * 0x100) + Blanks(0x100) == Blanks((block + 1) * 0x100);
  }

  predicate BlankTo(mem: seq<byte>, end: nat)
    requires end <= |mem|
  {
    forall a | 0 <= a < end :: mem[a] == 0xff
  }

  lemma BlankFurther(mem: seq<byte>, block: nat, data: seq<byte>)
    requires (block + 1) * 0x100 <= |mem| && BlankTo(mem, block * 0x100)
    requires data == mem[block * 0x100..block * 0x100 + 0x100] == Blanks(0x100)
    ensures BlankTo(mem, (block + 1) * 0x100)
  {
    forall a | 0 <= a < (block + 1) * 0x100
      ensures mem[a] == 0xff
    {
      if a >= block * 0x100 {
        assert mem[a] == data[a - block * 0x100];
      }
    }
  }

  // The three octets of a block's address.
  lemma BlockAddress(block: nat)
    requires block < 1024
    ensures block * 0x100 < CHIP_SIZE && Low8(block * 0x100) == 0
    ensures Low8(block * 0x100 / 0x100) == Low8(block) && block * 0x100 / 0x1_0000 == block / 0x100
  {
  }

  function UnlockTraffic(code: byte): seq<Cycle> {
    [Wr(0x5555, 0xaa), Wr(0x2aaa, 0x55), Wr(0x5555, code)]
  }

  // ---------- The driver ----------

  class Driver {
    var pins: Pins
    var device: Device
    // The address the chip took at the start of the current write pulse.
    var pulseAddress: nat
    // Every state the pins went through, and every cycle the chip saw.
    ghost var trace: seq<Pins>
    ghost var log: seq<Cycle>

    ghost predicate Valid()
      reads this
    {
      && pins.Safe()
      && WellFormed(device)
      && pulseAddress < CHIP_SIZE
      && (forall i | 0 <= i < |trace| :: trace[i].Safe())
    }

    // Power-up, then sst_init: levels are set before the pins become outputs.
    constructor (device: Device)
      requires WellFormed(device)
      ensures Valid() && pins.Idle()
      ensures this.device == device && log == []
    {
      this.pins := AFTER_RESET;
      this.device := device;
      this.pulseAddress := 0;
      this.trace := [AFTER_RESET];
      this.log := [];
      new;
      Put(pins.(we := true, ce := true, oe := true, addrOe := true));
      Put(pins.(ddrb := true));
      Put(pins.(leLow := false, leHigh := false, leUpper := false));
      Put(pins.(ddrf := true));
      Idle();
    }

    // One write to a port register, with what the board makes of it: the
    // latches follow, and the chip takes a write cycle when its pulse ends.
    method Put(p: Pins)
      requires Valid()
      requires p.Follow().Safe()
      modifies this
      ensures Valid()
      ensures pins == p.Follow()
      ensures trace == old(trace) + [pins]
      ensures !old(pins).Writing() && pins.Writing() ==> pulseAddress == pins.Address()
      ensures old(pins).Writing() ==> pulseAddress == old(pulseAddress)
      ensures !(old(pins).Writing() && !pins.Writing()) ==> device == old(device) && log == old(log)
      ensures old(pins).Writing() && !pins.Writing() ==>
        && device == DeviceWrite(old(device), old(pulseAddress), old(pins).portd)
        && log == old(log) + [Wr(old(pulseAddress), old(pins).portd)]
    {
      var was := pins;
      pins := p.Follow();
      trace := trace + [pins];
      if !was.Writing() && pins.Writing() {
        pulseAddress := pins.Address();
      } else if was.Writing() && !pins.Writing() {
        device := DeviceWrite(device, pulseAddress, was.portd);
        log := log + [Wr(pulseAddress, was.portd)];
      }
    }

    // Reading PIND while the chip drives the bus.
    method ReadPind() returns (b: byte)
      requires Valid()
      requires pins.CeActive() && pins.OeActive() && pins.AddressDriven() && !pins.WeActive()
      modifies this
      ensures Valid()
      ensures pins == old(pins) && trace == old(trace)
      ensures (b, device) == DeviceRead(old(device), pins.Address())
      ensures log == old(log) + [Rd(pins.Address(), b)]
    {
      var a := pins.Address();
      var r := DeviceRead(device, a);
      b := r.0;
      device := r.1;
      log := log + [Rd(a, b)];
    }

    method Idle()
      requires Valid() && pins.Quiet()
      modifies this
      ensures Valid() && pins.Idle()
      ensures device == old(device) && log == old(log)
      ensures old(trace) <= trace
    {
      Put(pins.(we := true, ce := true, oe := true, addrOe := true));
      Put(pins.(driving := false));
      Put(pins.(portd := 0));
    }

    method LatchLow(value: byte)
      requires Valid() && pins.Quiet() && pins.driving && !pins.OeActive()
      modifies this
      ensures Valid()
      ensures pins == old(pins).(portd := value, low := value)
      ensures device == old(device) && log == old(log)
      ensures old(trace) <= trace
    {
      Put(pins.(portd := value));
      Put(pins.(leLow := true));
      Put(pins.(leLow := false));
    }

    method LatchHigh(value: byte)
      requires Valid() && pins.Quiet() && pins.driving && !pins.OeActive()
      modifies this
      ensures Valid()
      ensures pins == old(pins).(portd := value, high := value)
      ensures device == old(device) && log == old(log)
      ensures old(trace) <= trace
    {
      Put(pins.(portd := value));
      Put(pins.(leHigh := true));
      Put(pins.(leHigh := false));
    }

    method LatchUpper(value: byte)
      requires Valid() && pins.Quiet() && pins.driving && !pins.OeActive()
      modifies this
      ensures Valid()
      ensures pins == old(pins).(portd := value, upper := value)
      ensures device == old(device) && log == old(log)
      ensures old(trace) <= trace
    {
      Put(pins.(portd := value));
      Put(pins.(leUpper := true));
      Put(pins.(leUpper := false));
    }

    method Address(value: nat)
      requires Valid() && pins.Quiet() && value < CHIP_SIZE
      modifies this
      ensures Valid()
      ensures pins == Addressed(value)
      ensures device == old(device) && log == old(log)
      ensures old(trace) <= trace
    {
      assert value / 0x1_0000 < 4;
      hide Low8;
      TakeBus();
      hide Pins.Follow, Pins.Safe;
      LatchUpper(value / 0x1_0000 % 4);
      LatchHigh(Low8(value / 0x100));
      LatchLow(Low8(value));
      DriveAddress();
    }

    // All control lines inactive, and PORTD driven.
    method TakeBus()
      requires Valid() && pins.Quiet()
      modifies this
      ensures Valid() && pins.Quiet()
      ensures pins == old(pins).(ce := true, oe := true, addrOe := true, driving := true)
      ensures device == old(device) && log == old(log)
      ensures old(trace) <= trace
    {
      Put(pins.(we := true, ce := true, oe := true, addrOe := true));
      Put(pins.(driving := true));
    }

    // The latches onto the address lines.
    method DriveAddress()
      requires Valid() && pins.Quiet()
      modifies this
      ensures Valid() && pins.Quiet()
      ensures pins == old(pins).(addrOe := false)
      ensures device == old(device) && log == old(log)
      ensures old(trace) <= trace
    {
      Put(pins.(addrOe := false));
    }

    // One write cycle of the chip.
    method CommandWrite(addr: nat, data: byte)
      requires Valid() && pins.Quiet() && addr < CHIP_SIZE
      modifies this
      ensures Valid() && pins.Quiet()
      ensures device == DeviceWrite(old(device), addr, data)
      ensures log == old(log) + [Wr(addr, data)]
      ensures old(trace) <= trace
    {
      Address(addr);
      AddressedAddress(addr);
      Put(pins.(portd := data));
      Put(pins.(ce := false));
      Put(pins.(we := false));
      Put(pins.(we := true));
      Put(pins.(ce := true));
    }

    method ReadByte(addr: nat) returns (result: byte)
      requires Valid() && pins.Quiet() && addr < CHIP_SIZE
      modifies this
      ensures Valid() && pins.Quiet()
      ensures (result, device) == DeviceRead(old(device), addr)
      ensures log == old(log) + [Rd(addr, result)]
      ensures old(trace) <= trace
    {
      Address(addr);
      AddressedAddress(addr);
      Put(pins.(driving := false));
      Put(pins.(portd := 0));
      Put(pins.(ce := false));
      Put(pins.(oe := false));
      result := ReadPind();
      Put(pins.(oe := true, ce := true));
    }

    method UnlockSequence(code: byte)
      requires Valid() && pins.Quiet()
      modifies this
      ensures Valid() && pins.Quiet()
      ensures device == Unlock(old(device), code)
      ensures log == old(log) + UnlockTraffic(code)
      ensures old(trace) <= trace
    {
      CommandWrite(0x5555, 0xaa);
      CommandWrite(0x2aaa, 0x55);
      CommandWrite(0x5555, code);
    }

    method ReadId() returns (maker: byte, model: byte)
      requires Valid() && pins.Quiet()
      modifies this
      ensures Valid() && pins.Idle()
      ensures log == old(log) + UnlockTraffic(0x90) + [Rd(0, maker), Rd(1, model)] + UnlockTraffic(0xf0)
      ensures old(device).Genuine? && Resting(old(device).chip) ==>
        device == old(device) && maker == device.chip.die.maker && model == device.chip.die.model
      ensures old(trace) <= trace
    {
      UnlockSequence(0x90);
      maker := ReadByte(0);
      model := ReadByte(1);
      UnlockSequence(0xf0);
      Idle();
      ghost var was := old(device);
      if was.Genuine? && Resting(was.chip) {
        IdentificationSequence(was.chip);
      }
    }

    method CorrectChip() returns (ok: bool)
      requires Valid() && pins.Quiet()
      modifies this
      ensures Valid() && pins.Idle()
      ensures old(log) <= log
      ensures old(device).Genuine? && Resting(old(device).chip) ==>
        device == old(device) && ok == Identified(device.chip.die)
      ensures old(trace) <= trace
    {
      var maker, model := ReadId();
      ok := maker == 0xbf && model == 0xb6;
    }

    // The fast sequential read: A8..A17 are latched once, then only A0..A7.
    // It returns what as many independent reads would have returned.
    method ReadBlock(block: nat) returns (status: byte, data: seq<byte>)
      requires Valid() && pins.Quiet()
      modifies this
      ensures Valid() && pins.Quiet()
      ensures block < 1024 ==> pins.Idle()
      ensures block >= 1024 ==> pins == old(pins)
      ensures status == if block < 1024 then 0 else 2
      ensures block >= 1024 ==> data == [] && device == old(device) && log == old(log)
      ensures block < 1024 ==>
        && (data, device) == ReadRange(old(device), block * 0x100, 0x100)
        && log == old(log) + ReadTraffic(block * 0x100, data)
      ensures old(trace) <= trace
    {
      if block >= 1024 {
        return 2, [];
      }
      hide DeviceRead, Pins.Follow, Pins.Safe, Pins.Idle;
      var start := block * 0x100;
      SelectBlock(block);
      data := [];
      var i := 0;
      while i < 256
        invariant 0 <= i <= 256
        invariant Valid() && BlockSelected(block)
        invariant (data, device) == ReadRange(old(device), start, i)
        invariant log == old(log) + ReadTraffic(start, data)
        invariant old(trace) <= trace
      {
        var b := ReadNext(block, i);
        ReadTrafficMore(start, data, b);
        data := data + [b];
        i := i + 1;
      }
      Deselect();
      status := 0;
    }

    // The chip is selected, with the block's part of the address latched.
    predicate BlockSelected(block: nat)
      reads this
    {
      && block < 1024
      && pins.Quiet() && !pins.ce && !pins.addrOe && !pins.driving && pins.portd == 0
      && pins.high == Low8(block) && pins.upper == block / 0x100
    }

    method SelectBlock(block: nat)
      requires Valid() && pins.Quiet() && block < 1024
      modifies this
      ensures Valid() && BlockSelected(block)
      ensures device == old(device) && log == old(log)
      ensures old(trace) <= trace
    {
      BlockAddress(block);
      hide Low8;
      Address(block * 0x100);
      Put(pins.(driving := false));
      Put(pins.(portd := 0));
      Put(pins.(ce := false));
    }

    method Deselect()
      requires Valid() && pins.Quiet()
      modifies this
      ensures Valid() && pins.Idle()
      ensures device == old(device) && log == old(log)
      ensures old(trace) <= trace
    {
      Put(pins.(oe := true, ce := true));
      Idle();
    }

    // One turn of the loop above.
    method ReadNext(block: nat, i: nat) returns (b: byte)
      requires Valid() && BlockSelected(block) && i < 0x100
      modifies this
      ensures Valid() && BlockSelected(block)
      ensures (b, device) == DeviceRead(old(device), block * 0x100 + i)
      ensures log == old(log) + [Rd(block * 0x100 + i, b)]
      ensures old(trace) <= trace
    {
      LatchNext(block, i);
      hide *;
      b := SampleNext(block, i);
    }

    // The chip's outputs are released before PORTD drives the latch bus.
    method LatchNext(block: nat, i: nat)
      requires Valid() && BlockSelected(block) && i < 0x100
      modifies this
      ensures Valid() && BlockSelected(block)
      ensures pins.low == i && pins.oe
      ensures device == old(device) && log == old(log)
      ensures old(trace) <= trace
    {
      Put(pins.(oe := true));
      Put(pins.(driving := true));
      LatchLow(Low8(i));
      Put(pins.(driving := false));
      Put(pins.(portd := 0));
    }

    method SampleNext(block: nat, i: nat) returns (b: byte)
      requires Valid() && BlockSelected(block) && i < 0x100
      requires pins.low == i
      modifies this
      ensures Valid() && BlockSelected(block)
      ensures (b, device) == DeviceRead(old(device), block * 0x100 + i)
      ensures log == old(log) + [Rd(block * 0x100 + i, b)]
      ensures old(trace) <= trace
    {
      Put(pins.(oe := false));
      assert pins.Address() == block * 0x100 + i;
      b := ReadPind();
    }

    // Polling of data line 7 with a bounded number of reads, as after each
    // program and erase command.
    method AwaitBit7(a: nat, target: bool, limit: nat) returns (ok: bool)
      requires Valid() && pins.Quiet() && a < CHIP_SIZE && limit > 0
      modifies this
      ensures Valid() && pins.Quiet()
      ensures old(log) <= log && ReadsOnly(log[|old(log)|..], a)
      ensures Polls(old(device), a, target) ==>
        && (ok <==> old(device).chip.activity.left < limit)
        && device == Genuine(if ok then Finished(old(device).chip) else StillWorking(old(device).chip, limit))
      ensures Holding(old(device), device)
      ensures old(trace) <= trace
    {
      ghost var start := device;
      ghost var polling := Polls(start, a, target);
      var attempts := limit;
      if polling {
        StillWorkingNone(start.chip);
      }
      var b := ReadByte(a);
      HoldingRead(start, start, a);
      if polling {
        PollStep(start.chip, a, target, 0);
      }
      while Bit7(b) != target
        invariant 0 < attempts <= limit
        invariant Valid() && pins.Quiet()
        invariant old(log) <= log && ReadsOnly(log[|old(log)|..], a)
        invariant Holding(start, device)
        invariant polling ==>
          if Bit7(b) == target then
            start.chip.activity.left == limit - attempts && device == Genuine(Finished(start.chip))
          else
            && start.chip.activity.left > limit - attempts
            && device == Genuine(StillWorking(start.chip, limit - attempts + 1))
        invariant old(trace) <= trace
        decreases attempts
      {
        attempts := attempts - 1;
        if attempts == 0 {
          return false;
        }
        HoldingRead(start, device, a);
        b := ReadByte(a);
        if polling {
          PollStep(start.chip, a, target, limit - attempts);
        }
      }
      ok := true;
    }

    method ProgramCommand(a: nat, d: byte)
      requires Valid() && pins.Quiet() && a < CHIP_SIZE
      modifies this
      ensures Valid() && pins.Quiet()
      ensures device == DeviceWrite(Unlock(old(device), 0xa0), a, d)
      ensures log == old(log) + UnlockTraffic(0xa0) + [Wr(a, d)]
      ensures old(trace) <= trace
    {
      hide *;
      UnlockSequence(0xa0);
      CommandWrite(a, d);
    }

    // Lines 157-169 of the block loop: one byte is programmed and verified.
    method ProgramByte(a: nat, d: byte) returns (status: byte)
      requires Valid() && pins.Quiet() && a < CHIP_SIZE
      modifies this
      ensures Valid() && pins.Quiet()
      ensures old(log) <= log && ReadsOnly(log[|old(log)|..], a)
      ensures status in {0, 4, 5}
      ensures status == 0 ==> LastRead(log[|old(log)|..], a) == d
      // A resting chip: bits of this byte are cleared, and no other changes.
      ensures RestingDevice(old(device)) ==>
        && device.Genuine? && device.chip.die == old(device).chip.die
        && device.chip.mem == old(device).chip.mem[a := And(old(device).chip.mem[a], d)]
      // Exactly what becomes of it when bits only have to be cleared.
      ensures Programmable(old(device), a, d) ==>
        (device, status) == Of(FlashOps.ProgramOne(old(device).chip, a, d))
      ensures old(trace) <= trace
    {
      hide Pins.Follow, Pins.Safe, Pins.Quiet, And, Write, Healthy, ReadsOnly, LastRead, UnlockTraffic;
      ghost var start := device;
      var b := ReadByte(a);
      CommandTraffic(old(log), a, b, d);
      if b == d {
        SameIsProgrammable(d);
        return 0;
      }
      ProgramCommand(a, d);
      if RestingDevice(start) {
        ProgramSequence(start.chip, a, d);
      }
      ghost var sent := log;
      status := ConfirmByte(a, d);
      ReadsOnlyMore(old(log), sent, log, a);
      LastReadLater(old(log), sent, log, a);
    }

    // Polling, and one more read to compare.
    method ConfirmByte(a: nat, d: byte) returns (status: byte)
      requires Valid() && pins.Quiet() && a < CHIP_SIZE
      modifies this
      ensures Valid() && pins.Quiet()
      ensures old(log) <= log && ReadsOnly(log[|old(log)|..], a)
      ensures status in {0, 4, 5}
      ensures status == 0 ==> LastRead(log[|old(log)|..], a) == d
      ensures Holding(old(device), device)
      ensures Polls(old(device), a, Bit7(d)) && old(device).chip.mem[a] == d && Resting(Finished(old(device).chip)) ==>
        (device, status) == Of(FlashOps.Polled(old(device).chip, FlashOps.PROGRAM_POLLS))
      ensures old(trace) <= trace
    {
      hide Pins.Follow, Pins.Safe, Pins.Quiet, And, Write, Healthy;
      var done := AwaitBit7(a, Bit7(d), 100);
      if !done {
        return 4;
      }
      ghost var before := log;
      HoldingRead(device, device, a);
      var b := ReadByte(a);
      LastReadHere(before[|old(log)|..], a, b);
      assert log[|old(log)|..] == before[|old(log)|..] + [Rd(a, b)];
      status := if b != d then 5 else 0;
    }

    // The address is checked, then the chip, then that only bits are cleared;
    // only then is anything programmed.
    method ProgramBlock(block: nat, data: seq<byte>) returns (status: byte)
      requires Valid() && pins.Idle() && |data| == 0x100
      modifies this
      ensures Valid() && pins.Idle()
      ensures block >= 1024 <==> status == 2
      ensures block >= 1024 ==> device == old(device) && log == old(log)
      // Whatever is in the socket: success means every byte was read back
      // during this call.
      ensures old(log) <= log
      ensures status == 0 ==> ReadBack(log[|old(log)|..], block * 0x100, data)
      // A chip with another identity is left alone.
      ensures block < 1024 && RestingDevice(old(device)) && !Identified(old(device).chip.die) ==>
        status == 3 && device == old(device)
      // The right chip, however slow: nothing outside the block changes, and
      // inside it the bytes up to the first that takes too long are programmed.
      ensures block < 1024 && RestingDevice(old(device)) ==>
        (device, status) == Of(FlashOps.ProgramBlock(old(device).chip, block, data))
      ensures block < 1024 && RestingDevice(old(device)) && Identified(old(device).chip.die) ==>
        if CanProgram(old(device).chip.mem, block * 0x100, data)
        then PartlyProgrammed(old(device).chip, block, data, status, device)
        else status == 6 && device == old(device)
      // A healthy chip: success exactly when only bits are cleared.
      ensures block < 1024 && HealthyDevice(old(device)) ==>
        && HealthyDevice(device)
        && var mem := old(device).chip.mem;
           if CanProgram(mem, block * 0x100, data)
           then status == 0 && device.chip.mem == Overlay(mem, block * 0x100, data)
           else status == 6 && device.chip.mem == mem
      ensures old(trace) <= trace
    {
      hide Pins.Follow, Pins.Safe, And, Write, Read, DeviceWrite, DeviceRead;
      if block >= 1024 {
        return 2;
      }
      var ok := CorrectChip();
      if !ok {
        return 3;
      }
      ghost var start := device;
      ghost var resting := RestingDevice(start) && Identified(start.chip.die);
      var programmable := CheckProgrammable(block, data);
      if !programmable {
        Idle();
        return 6;
      }
      ghost var before := log;
      status := ProgramBytes(block, data);
      Idle();
      if status == 0 {
        ReadBackLater(old(log), before, log, block * 0x100, data);
      }
      if resting {
        FlashOps.ProgramAllEffect(start.chip, block * 0x100, data);
        assert data[..0x100] == data;
      }
    }

    // No byte is touched unless all of them can be programmed.
    method CheckProgrammable(block: nat, data: seq<byte>) returns (ok: bool)
      requires Valid() && pins.Quiet() && block < 1024 && |data| == 0x100
      modifies this
      ensures Valid() && pins.Quiet()
      ensures old(log) <= log
      ensures RestingDevice(old(device)) ==>
        && device == old(device)
        && ok == CanProgram(device.chip.mem, block * 0x100, data)
      ensures old(trace) <= trace
    {
      hide Pins.Follow, Pins.Safe, Pins.Quiet, And, Write;
      var start := block * 0x100;
      var i := 0;
      while i < 256
        invariant 0 <= i <= 256
        invariant Valid() && pins.Quiet()
        invariant old(log) <= log
        invariant RestingDevice(old(device)) ==>
          && device == old(device)
          && forall j | 0 <= j < i :: And(device.chip.mem[start + j], data[j]) == data[j]
        invariant old(trace) <= trace
      {
        var b := ReadByte(start + i);
        if And(b, data[i]) != data[i] {
          return false;
        }
        i := i + 1;
      }
      ok := true;
    }

    method ProgramBytes(block: nat, data: seq<byte>) returns (status: byte)
      requires Valid() && pins.Quiet() && block < 1024 && |data| == 0x100
      modifies this
      ensures Valid() && pins.Quiet()
      ensures status in {0, 4, 5}
      ensures old(log) <= log
      ensures status == 0 ==> ReadBack(log[|old(log)|..], block * 0x100, data)
      ensures RestingDevice(old(device)) && CanProgram(old(device).chip.mem, block * 0x100, data) ==>
        (device, status) == Of(FlashOps.ProgramAll(old(device).chip, block * 0x100, data))
      ensures old(trace) <= trace
    {
      hide Pins.Follow, Pins.Safe, Pins.Quiet, And, Write, Read, DeviceRead, DeviceWrite;
      ghost var was := device;
      ghost var fine := RestingDevice(was) && CanProgram(was.chip.mem, block * 0x100, data);
      var start := block * 0x100;
      var i := 0;
      while i < 256
        invariant 0 <= i <= 256
        invariant Valid() && pins.Quiet()
        invariant old(log) <= log && ReadBack(log[|old(log)|..], start, data[..i])
        invariant fine ==>
          RestingDevice(device) && (device, 0) == Of(FlashOps.ProgramAll(was.chip, start, data[..i]))
        invariant old(trace) <= trace
      {
        ghost var before := log;
        if fine {
          NextByte(was.chip, start, data, i);
        }
        status := ProgramByte(start + i, data[i]);
        if status != 0 {
          if fine {
            StopsHere(was.chip, start, data, i + 1);
          }
          return;
        }
        OneMoreReadBack(old(log), before, log, start, i, data);
        i := i + 1;
      }
      assert data[..256] == data;
      status := 0;
    }

    // The first five cycles of both erase commands.
    method EraseUnlock()
      requires Valid() && pins.Quiet()
      modifies this
      ensures Valid() && pins.Quiet()
      ensures device == EraseUnlocked(old(device))
      ensures old(log) <= log
      ensures old(trace) <= trace
    {
      hide Pins.Follow, Pins.Safe, Pins.Quiet, DeviceWrite;
      CommandWrite(0x5555, 0xaa);
      CommandWrite(0x2aaa, 0x55);
      CommandWrite(0x5555, 0x80);
      CommandWrite(0x5555, 0xaa);
      CommandWrite(0x2aaa, 0x55);
    }

    // Chip erase, then a blank check of the complete device.
    method Erase() returns (status: byte)
      requires Valid() && pins.Idle()
      modifies this
      ensures Valid() && pins.Idle()
      ensures status in {0, 3, 4, 5}
      // Whatever is in the socket: success means that the last thing that
      // happened on the bus is that all bytes were read, and read as 0xff.
      ensures old(log) <= log
      ensures status == 0 ==> EndsBlank(log[|old(log)|..], 0, CHIP_SIZE)
      ensures RestingDevice(old(device)) && !Identified(old(device).chip.die) ==>
        status == 3 && device == old(device)
      // The right chip, however slow: all of it is erased, and success is
      // reported exactly when that ends within the polls granted.
      ensures RestingDevice(old(device)) ==> (device, status) == Of(FlashOps.EraseAll(old(device).chip))
      ensures RestingDevice(old(device)) && Identified(old(device).chip.die) ==>
        && device.Genuine? && device.chip.die == old(device).chip.die
        && device.chip.mem == Blank(old(device).chip.mem, 0, CHIP_SIZE)
        && status == (if old(device).chip.die.eraseReads(old(device).chip.commands) < 1000 then 0 else 4)
        && (status == 0 ==> Resting(device.chip))
      ensures HealthyDevice(old(device)) ==>
        && HealthyDevice(device)
        && status == 0 && device.chip.mem == Blank(old(device).chip.mem, 0, CHIP_SIZE)
      ensures old(trace) <= trace
    {
      hide Pins.Follow, Pins.Safe, And, Write, Read, DeviceRead, DeviceWrite, FlashOps.EraseOne, FlashOps.EraseAll;
      hide Blank, Healthy, FlashOps.AllOnes;
      if RestingDevice(device) {
        FlashOps.EraseAllEffect(device.chip);
      }
      var ok := CorrectChip();
      if !ok {
        return 3;
      }
      status := EraseWholeChip();
      if status != 0 {
        Idle();
        return;
      }
      ghost var before := log;
      ok := BlankCheckChip();
      if !ok {
        Idle();
        return 5;
      }
      Idle();
      status := 0;
      EndsWith(old(log), before, log, 0, CHIP_SIZE);
    }

    method EraseWholeChip() returns (status: byte)
      requires Valid() && pins.Quiet()
      modifies this
      ensures Valid() && pins.Quiet()
      ensures status in {0, 4}
      ensures RestingDevice(old(device)) ==>
        (device, status) == Of(FlashOps.EraseOne(old(device).chip, 0, CHIP_SIZE))
      ensures old(log) <= log
      ensures old(trace) <= trace
    {
      hide Pins.Follow, Pins.Safe, And, Write, Read, DeviceRead, DeviceWrite;
      ghost var was := device;
      EraseUnlock();
      CommandWrite(0x5555, 0x10);
      if RestingDevice(was) {
        ChipEraseSequence(was.chip);
      }
      var ok := AwaitBit7(0, true, 1000);
      status := if ok then 0 else 4;
    }

    method BlankCheckChip() returns (ok: bool)
      requires Valid() && pins.Quiet()
      modifies this
      ensures Valid() && pins.Quiet()
      ensures old(log) <= log
      ensures ok ==> log == old(log) + ReadTraffic(0, Blanks(CHIP_SIZE))
      ensures RestingDevice(old(device)) ==>
        && device == old(device)
        && ok == FlashOps.AllOnes(device.chip.mem, 0, CHIP_SIZE)
      ensures old(trace) <= trace
    {
      hide Pins.Follow, Pins.Safe, Pins.Quiet, Pins.Idle, And, Write, Read, DeviceRead, DeviceWrite;
      hide ReadRange, ReadTraffic;
      var block := 0;
      NoTraffic();
      while block < 1024
        invariant 0 <= block <= 1024
        invariant Valid() && pins.Quiet()
        invariant log == old(log) + ReadTraffic(0, Blanks(block * 0x100))
        invariant RestingDevice(old(device)) ==>
          && device == old(device)
          && BlankTo(device.chip.mem, block * 0x100)
        invariant old(trace) <= trace
      {
        var status, data := ReadBlock(block);
        if RestingDevice(old(device)) {
          ReadRangeOfResting(old(device).chip, block * 0x100, 0x100);
        }
        var blank := AllBlank(data);
        if !blank {
          if RestingDevice(old(device)) {
            var i :| 0 <= i < 0x100 && data[i] != 0xff;
            assert device.chip.mem[block * 0x100 + i] != 0xff;
          }
          return false;
        }
        MoreBlankTraffic(block);
        if RestingDevice(old(device)) {
          BlankFurther(device.chip.mem, block, data);
        }
        block := block + 1;
      }
      ok := true;
    }

    method EraseSector(start: nat) returns (status: byte)
      requires Valid() && pins.Quiet() && start < CHIP_SIZE
      modifies this
      ensures Valid() && pins.Quiet()
      ensures status in {0, 4}
      ensures old(log) <= log
      ensures RestingDevice(old(device)) ==>
        (device, status) == Of(FlashOps.EraseOne(old(device).chip, SectorOf(start), SECTOR_SIZE))
      ensures old(trace) <= trace
    {
      hide Pins.Follow, Pins.Safe, And, Write, Read, DeviceRead, DeviceWrite;
      ghost var was := device;
      EraseUnlock();
      CommandWrite(start, 0x30);
      if RestingDevice(was) {
        SectorEraseSequence(was.chip, start);
      }
      var ok := AwaitBit7(start, true, 1000);
      status := if ok then 0 else 4;
    }

    // Four sector erases, then a blank check of the bank.
    method EraseBank(bank: nat) returns (status: byte)
      requires Valid() && pins.Idle()
      modifies this
      ensures Valid() && pins.Idle()
      ensures bank >= 16 <==> status == 2
      ensures bank >= 16 ==> device == old(device) && log == old(log)
      ensures status in {0, 2, 3, 4, 5}
      ensures old(log) <= log
      ensures status == 0 ==> EndsBlank(log[|old(log)|..], bank * 0x4000, 0x4000)
      ensures bank < 16 && RestingDevice(old(device)) && !Identified(old(device).chip.die) ==>
        status == 3 && device == old(device)
      // The right chip, however slow: nothing outside the bank changes, its
      // sectors up to the first that takes too long are erased, and all of them
      // on success.
      ensures bank < 16 && RestingDevice(old(device)) ==>
        (device, status) == Of(FlashOps.EraseBank(old(device).chip, bank))
      ensures bank < 16 && RestingDevice(old(device)) && Identified(old(device).chip.die) ==>
        && device.Genuine? && device.chip.die == old(device).chip.die
        && status in {0, 4}
        && device.chip.mem == Blank(old(device).chip.mem, bank * 0x4000,
                                    FlashOps.SectorsTried(old(device).chip, bank * 0x4000, 4) * SECTOR_SIZE)
        && (status == 0 ==>
              Resting(device.chip) && device.chip.mem == Blank(old(device).chip.mem, bank * 0x4000, 0x4000))
      ensures bank < 16 && HealthyDevice(old(device)) ==>
        && HealthyDevice(device)
        && status == 0 && device.chip.mem == Blank(old(device).chip.mem, bank * 0x4000, 0x4000)
      ensures old(trace) <= trace
    {
      hide Pins.Follow, Pins.Safe, And, Write, Read, DeviceRead, DeviceWrite, FlashOps.EraseSectors;
      hide FlashOps.EraseBank, FlashOps.SectorsTried, FlashOps.AllOnes, Blank, Healthy;
      if bank >= 16 {
        return 2;
      }
      if RestingDevice(device) {
        FlashOps.EraseBankEffect(device.chip, bank);
      }
      var ok := CorrectChip();
      if !ok {
        return 3;
      }
      var start := bank * 0x4000;
      status := EraseSectors(start);
      if status != 0 {
        Idle();
        return;
      }
      ghost var before := log;
      ok := BlankCheckBank(start);
      if !ok {
        Idle();
        return 5;
      }
      Idle();
      status := 0;
      EndsWith(old(log), before, log, start, 0x4000);
    }

    method EraseSectors(start: nat) returns (status: byte)
      requires Valid() && pins.Quiet() && start % 0x4000 == 0 && start < CHIP_SIZE
      modifies this
      ensures Valid() && pins.Quiet()
      ensures status in {0, 4}
      ensures old(log) <= log
      ensures RestingDevice(old(device)) ==>
        (device, status) == Of(FlashOps.EraseSectors(old(device).chip, start, 4))
      ensures old(trace) <= trace
    {
      hide Pins.Follow, Pins.Safe, And, Write, Read, DeviceRead, DeviceWrite, FlashOps.EraseOne;
      ghost var was := device;
      var sector := 0;
      while sector < 4
        invariant 0 <= sector <= 4
        invariant Valid() && pins.Quiet()
        invariant old(log) <= log
        invariant RestingDevice(was) ==>
          RestingDevice(device) && (device, 0) == Of(FlashOps.EraseSectors(was.chip, start, sector))
        invariant old(trace) <= trace
      {
        if RestingDevice(was) {
          NextSector(was.chip, start, sector);
        }
        status := EraseSector(start + sector * 0x1000);
        if status != 0 {
          if RestingDevice(was) {
            SectorsStopHere(was.chip, start, sector + 1);
          }
          return;
        }
        sector := sector + 1;
      }
      status := 0;
    }

    method BlankCheckBank(start: nat) returns (ok: bool)
      requires Valid() && pins.Quiet() && start + 0x4000 <= CHIP_SIZE
      modifies this
      ensures Valid() && pins.Quiet()
      ensures old(log) <= log
      ensures ok ==> log == old(log) + ReadTraffic(start, Blanks(0x4000))
      ensures RestingDevice(old(device)) ==>
        && device == old(device)
        && ok == FlashOps.AllOnes(device.chip.mem, start, 0x4000)
      ensures old(trace) <= trace
    {
      hide Pins.Follow, Pins.Safe, Pins.Quiet, And, Write, DeviceWrite;
      var offset := 0;
      while offset < 0x4000
        invariant 0 <= offset <= 0x4000
        invariant Valid() && pins.Quiet()
        invariant log == old(log) + ReadTraffic(start, Blanks(offset))
        invariant RestingDevice(old(device)) ==>
          && device == old(device)
          && forall a | start <= a < start + offset :: device.chip.mem[a] == 0xff
        invariant old(trace) <= trace
      {
        var b := ReadByte(start + offset);
        if b != 0xff {
          return false;
        }
        ReadTrafficMore(start, Blanks(offset), b);
        assert Blanks(offset) + [b] == Blanks(offset + 1);
        offset := offset + 1;
      }
      ok := true;
    }
  }

  // A chip that is busy and whose byte at `a` already shows the target level.
  predicate Polls(dev: Device, a: nat, target: bool) {
    && dev.Genuine? && a < |dev.chip.mem| && dev.chip.activity.Working?
    && dev.chip.activity.target == target == Bit7(dev.chip.mem[a])
  }

  // A genuine chip still holds what it held.
  ghost predicate Holding(was: Device, now: Device) {
    was.Genuine? ==> now.Genuine? && now.chip.mem == was.chip.mem && now.chip.die == was.chip.die
  }

  lemma HoldingRead(start: Device, dev: Device, a: nat)
    requires WellFormed(dev) && a < CHIP_SIZE && Holding(start, dev)
    ensures Holding(start, DeviceRead(dev, a).1)
  {
    if dev.Genuine? {
      ReadKeepsMemory(dev, a);
    }
  }

  lemma StillWorkingNone(chip: Chip)
    requires chip.activity.Working?
    ensures StillWorking(chip, 0) == chip
  {
  }

  lemma PollStep(chip: Chip, a: nat, target: bool, n: nat)
    requires Polls(Genuine(chip), a, target) && WellFormed(Genuine(chip)) && a < CHIP_SIZE
    requires n <= chip.activity.left
    ensures var (b, dev) := DeviceRead(Genuine(StillWorking(chip, n)), a);
      if Bit7(b) == target then n == chip.activity.left && dev == Genuine(Finished(chip))
      else n < chip.activity.left && dev == Genuine(StillWorking(chip, n + 1))
  {
    if n < chip.activity.left {
      PollBusy(chip, a, n);
    } else {
      PollDone(chip, a);
    }
  }

  // A resting chip on which programming `d` at `a` only clears bits.
  predicate Programmable(dev: Device, a: nat, d: byte) {
    dev.Genuine? && Resting(dev.chip) && a < CHIP_SIZE && And(dev.chip.mem[a], d) == d
  }

  predicate RestingDevice(dev: Device) {
    dev.Genuine? && Resting(dev.chip)
  }

  ghost predicate HealthyDevice(dev: Device) {
    RestingDevice(dev) && Healthy(dev.chip.die)
  }

  // An outcome for a chip, as an outcome for what is in the socket.
  ghost function Of(r: (Chip, byte)): (Device, byte) {
    (Genuine(r.0), r.1)
  }

  // A first part of the block is programmed, all of it on success.
  ghost predicate PartlyProgrammed(chip: Chip, block: nat, data: seq<byte>, status: byte, dev: Device)
    requires Resting(chip) && block < 1024 && |data| == 0x100
  {
    && dev.Genuine? && dev.chip.die == chip.die && status in {0, 4}
    && dev.chip.mem == Overlay(chip.mem, block * 0x100, data[..FlashOps.Tried(chip, block * 0x100, data)])
    && (status == 0 ==> Resting(dev.chip) && dev.chip.mem == Overlay(chip.mem, block * 0x100, data))
  }

  // The step that the loop over the bytes takes next.
  lemma NextByte(chip: Chip, from: nat, data: seq<byte>, i: nat)
    requires Resting(chip) && i < |data| && from + |data| <= CHIP_SIZE && CanProgram(chip.mem, from, data)
    requires FlashOps.ProgramAll(chip, from, data[..i]).1 == 0
    ensures var before := FlashOps.ProgramAll(chip, from, data[..i]).0;
      && Resting(before) && And(before.mem[from + i], data[i]) == data[i]
      && FlashOps.ProgramAll(chip, from, data[..i + 1]) == FlashOps.ProgramOne(before, from + i, data[i])
      && (FlashOps.ProgramOne(before, from + i, data[i]).1 == 0 ==>
            Resting(FlashOps.ProgramOne(before, from + i, data[i]).0))
  {
    hide And, FlashOps.ProgramOne;
    assert data[..i + 1][..i] == data[..i];
    FlashOps.ProgramAllEffect(chip, from, data[..i]);
    var before := FlashOps.ProgramAll(chip, from, data[..i]).0;
    assert before.mem[from + i] == chip.mem[from + i];
    FlashOps.ProgramOneEffect(before, from + i, data[i]);
  }

  lemma {:induction false} StopsHere(chip: Chip, from: nat, data: seq<byte>, i: nat)
    requires i <= |data| && from + |data| <= |chip.mem| && FlashOps.ProgramAll(chip, from, data[..i]).1 != 0
    ensures FlashOps.ProgramAll(chip, from, data) == FlashOps.ProgramAll(chip, from, data[..i])
    decreases |data| - i
  {
    if i == |data| {
      assert data[..i] == data;
    } else {
      assert data[..i + 1][..i] == data[..i];
      StopsHere(chip, from, data, i + 1);
    }
  }

  lemma NextSector(chip: Chip, start: nat, n: nat)
    requires Resting(chip) && n < 4 && start % 0x4000 == 0 && start < CHIP_SIZE
    requires FlashOps.EraseSectors(chip, start, n).1 == 0
    ensures var before := FlashOps.EraseSectors(chip, start, n).0;
      var at := start + n * SECTOR_SIZE;
      && Resting(before) && SectorOf(at) == at
      && FlashOps.EraseSectors(chip, start, n + 1) == FlashOps.EraseOne(before, at, SECTOR_SIZE)
      && (FlashOps.EraseOne(before, at, SECTOR_SIZE).1 == 0 ==> Resting(FlashOps.EraseOne(before, at, SECTOR_SIZE).0))
  {
    FlashOps.EraseSectorsEffect(chip, start, n);
    FlashOps.EraseOneEffect(FlashOps.EraseSectors(chip, start, n).0, start + n * SECTOR_SIZE, SECTOR_SIZE);
    hide Blank, FlashOps.EraseOne;
  }

  lemma SectorsStopHere(chip: Chip, start: nat, n: nat)
    requires n <= 4 && FlashOps.EraseSectors(chip, start, n).1 != 0
    ensures FlashOps.EraseSectors(chip, start, 4) == FlashOps.EraseSectors(chip, start, n)
    decreases 4 - n
  {
    if n < 4 {
      SectorsStopHere(chip, start, n + 1);
    }
  }

  // The latest reads at consecutive addresses returned the data.
  predicate ReadBack(log: seq<Cycle>, from: nat, data: seq<byte>) {
    forall i | 0 <= i < |data| :: LastRead(log, from + i) == data[i]
  }

  lemma OneMoreReadBack(was: seq<Cycle>, before: seq<Cycle>, after: seq<Cycle>, start: nat, i: nat, data: seq<byte>)
    requires was <= before <= after && ReadsOnly(after[|before|..], start + i)
    requires i < |data| && ReadBack(before[|was|..], start, data[..i])
    requires LastRead(after[|before|..], start + i) == data[i]
    ensures ReadBack(after[|was|..], start, data[..i + 1])
  {
    hide LastRead;
    var first, more := before[|was|..], after[|before|..];
    assert after[|was|..] == first + more;
    forall j | 0 <= j < i + 1
      ensures LastRead(first + more, start + j) == data[j]
    {
      if j < i {
        assert data[..i][j] == data[j];
        LastReadElsewhere(first, more, start + i, start + j);
      } else {
        LastReadInside(first, more, start + i);
      }
    }
  }

  // A longer history does not change what was read last.
  lemma {:induction false} LastReadInside(log: seq<Cycle>, more: seq<Cycle>, a: nat)
    requires LastRead(more, a) >= 0
    ensures LastRead(log + more, a) == LastRead(more, a)
    decreases |more|
  {
    var k := |more| - 1;
    assert (log + more)[..|log + more| - 1] == log + more[..k];
    if !(more[k].Rd? && more[k].address == a) {
      LastReadInside(log, more[..k], a);
    }
  }

  lemma ReadBackLater(was: seq<Cycle>, before: seq<Cycle>, log: seq<Cycle>, from: nat, data: seq<byte>)
    requires was <= before <= log && ReadBack(log[|before|..], from, data)
    ensures ReadBack(log[|was|..], from, data)
  {
    hide LastRead;
    assert log[|was|..] == before[|was|..] + log[|before|..];
    forall i | 0 <= i < |data|
      ensures LastRead(log[|was|..], from + i) == data[i]
    {
      assert LastRead(log[|before|..], from + i) == data[i];
      LastReadInside(before[|was|..], log[|before|..], from + i);
    }
  }

  method AllBlank(data: seq<byte>) returns (blank: bool)
    ensures blank <==> data == Blanks(|data|)
  {
    var offset := 0;
    while offset < |data|
      invariant 0 <= offset <= |data|
      invariant forall i | 0 <= i < offset :: data[i] == 0xff
    {
      if data[offset] != 0xff {
        return false;
      }
      offset := offset + 1;
    }
    blank := true;
  }

  function Blanks(n: nat): (r: seq<byte>)
    ensures |r| == n && forall i | 0 <= i < n :: r[i] == 0xff
  {
    seq(n, _ => 0xff)
  }

  // The latest bus cycles are `size` reads from `from` on, all returning 0xff.
  predicate EndsBlank(log: seq<Cycle>, from: nat, size: nat) {
    |log| >= size && log[|log| - size..] == ReadTraffic(from, Blanks(size))
  }

  lemma EndsWith(was: seq<Cycle>, before: seq<Cycle>, log: seq<Cycle>, from: nat, size: nat)
    requires was <= before && log == before + ReadTraffic(from, Blanks(size))
    ensures EndsBlank(log[|was|..], from, size)
  {
    assert log[|was|..] == before[|was|..] + ReadTraffic(from, Blanks(size));
  }

  function EraseUnlocked(dev: Device): (r: Device)
    requires WellFormed(dev)
    ensures WellFormed(r)
  {
    DeviceWrite(DeviceWrite(Unlock(dev, 0x80), 0x5555, 0xaa), 0x2aaa, 0x55)
  }

  lemma ChipEraseSequence(chip: Chip)
    requires Resting(chip)
    ensures DeviceWrite(EraseUnlocked(Genuine(chip)), 0x5555, 0x10) == Genuine(Erasing(chip, 0, CHIP_SIZE))
  {
    hide And, Blank;
    ErasePhases(chip, 0x5555, 0x10);
  }

  lemma SectorEraseSequence(chip: Chip, a: nat)
    requires Resting(chip) && a < CHIP_SIZE
    ensures DeviceWrite(EraseUnlocked(Genuine(chip)), a, 0x30)
         == Genuine(Erasing(chip, SectorOf(a), SECTOR_SIZE))
  {
    hide And, Blank;
    ErasePhases(chip, a, 0x30);
  }
}
