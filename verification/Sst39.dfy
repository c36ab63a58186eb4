// The SST39SF020A flash chip as a state machine: software command sequences,
// byte program, sector and chip erase, identification mode and Data# polling
// (data sheet DS20005022, "Software Command Sequence" and "Data# Polling").
module Sst39 {
  import opened Octets

  const CHIP_SIZE: nat := 0x4_0000
  const SECTOR_SIZE: nat := 0x1000

  // What differs between one piece of silicon and the next: its identity, how
  // many reads still find it busy after its n-th program or erase command, and
  // the levels on data lines whose value the data sheet leaves open.
  datatype Die = Die(maker: byte, model: byte,
                     programReads: nat -> nat, eraseReads: nat -> nat, noise: nat -> byte)

  // How much of a software command sequence has been received.
  datatype Phase = Ready | Unlocked1 | Unlocked2 | ProgramNext | Erase1 | Erase2 | Erase3

  // An internal operation: until `left` more reads have been made data line 7
  // shows the complement of `target`. The read that first shows `target` may
  // have wrong levels on the other lines.
  datatype Activity = Quiet | Working(target: bool, left: nat)

  datatype Chip = Chip(mem: seq<byte>, phase: Phase, idMode: bool, activity: Activity,
                       commands: nat, polls: nat, die: Die)

  function And(a: byte, b: byte): byte {
    (Raw(a) & Raw(b)) as int
  }

  predicate Bit7(b: byte) {
    b >= 0x80
  }

  function WithBit7(b: byte, bit: bool): byte {
    b % 0x80 + if bit then 0x80 else 0
  }

  function Blank(mem: seq<byte>, from: nat, size: nat): (r: seq<byte>)
    ensures |r| == |mem|
    ensures forall i | 0 <= i < |mem| :: r[i] == if from <= i < from + size then 0xff else mem[i]
  {
    seq(|mem|, i requires 0 <= i < |mem| => if from <= i < from + size then 0xff else mem[i])
  }

  function SectorOf(a: nat): nat {
    a - a % SECTOR_SIZE
  }

  // ---------- Bus cycles ----------

  function Read(chip: Chip, a: nat): (byte, Chip)
    requires a < |chip.mem|
  {
    match chip.activity
    case Working(target, left) =>
      var noise := chip.die.noise(chip.polls);
      if left > 0 then
        (WithBit7(noise, !target), chip.(activity := Working(target, left - 1), polls := chip.polls + 1))
      else
        (WithBit7(noise, Bit7(chip.mem[a])), chip.(activity := Quiet, polls := chip.polls + 1))
    case Quiet =>
      if !chip.idMode then (chip.mem[a], chip)
      else if a == 0 then (chip.die.maker, chip)
      else if a == 1 then (chip.die.model, chip)
      else (chip.die.noise(chip.polls), chip)
  }

  // Address lines above A14 do not take part in a command.
  predicate IsCommand(a: nat, d: byte, at: nat, code: byte) {
    a % 0x8000 == at && d == code
  }

  function Write(chip: Chip, a: nat, d: byte): (r: Chip)
    requires a < |chip.mem|
    ensures |r.mem| == |chip.mem|
  {
    if chip.activity.Working? && chip.activity.left > 0 then chip  // ignored while busy
    else
      var c := chip.(activity := Quiet);
      match c.phase
      case Ready =>
        if IsCommand(a, d, 0x5555, 0xaa) then c.(phase := Unlocked1)
        else if d == 0xf0 then c.(idMode := false)
        else c
      case Unlocked1 =>
        c.(phase := if IsCommand(a, d, 0x2aaa, 0x55) then Unlocked2 else Ready)
      case Unlocked2 =>
        if IsCommand(a, d, 0x5555, 0xf0) then c.(phase := Ready, idMode := false)
        else if c.idMode then c.(phase := Ready)
        else if IsCommand(a, d, 0x5555, 0xa0) then c.(phase := ProgramNext)
        else if IsCommand(a, d, 0x5555, 0x80) then c.(phase := Erase1)
        else if IsCommand(a, d, 0x5555, 0x90) then c.(phase := Ready, idMode := true)
        else c.(phase := Ready)
      case ProgramNext =>
        c.(phase := Ready, mem := c.mem[a := And(c.mem[a], d)], commands := c.commands + 1,
           activity := Working(Bit7(d), c.die.programReads(c.commands)))
      case Erase1 =>
        c.(phase := if IsCommand(a, d, 0x5555, 0xaa) then Erase2 else Ready)
      case Erase2 =>
        c.(phase := if IsCommand(a, d, 0x2aaa, 0x55) then Erase3 else Ready)
      case Erase3 =>
        if IsCommand(a, d, 0x5555, 0x10) then Erasing(c, 0, |c.mem|)
        else if d == 0x30 then Erasing(c, SectorOf(a), SECTOR_SIZE)
        else c.(phase := Ready)
  }

  function Erasing(c: Chip, from: nat, size: nat): Chip {
    c.(phase := Ready, mem := Blank(c.mem, from, size), commands := c.commands + 1,
       activity := Working(true, c.die.eraseReads(c.commands)))
  }

  // ---------- Conditions on a chip ----------

  // Reading the array, with no operation and no command under way.
  predicate Resting(chip: Chip) {
    && |chip.mem| == CHIP_SIZE
    && chip.phase == Ready
    && !chip.idMode
    && chip.activity == Quiet
  }

  predicate Identified(die: Die) {
    die.maker == 0xbf && die.model == 0xb6
  }

  // The chip the firmware is made for, finishing every operation within the
  // number of polls that the firmware grants it.
  ghost predicate Healthy(die: Die) {
    && Identified(die)
    && (forall n: nat :: die.programReads(n) < 100)
    && (forall n: nat :: die.eraseReads(n) < 1000)
  }

  // ---------- Whatever sits in the socket ----------

  // Either a chip as above, or something unknown whose n-th bus cycle, if it
  // is a read, yields answers(n).
  datatype Device = Genuine(chip: Chip) | Unknown(answers: nat -> byte, cycles: nat)

  predicate WellFormed(dev: Device) {
    dev.Genuine? ==> |dev.chip.mem| == CHIP_SIZE
  }

  function DeviceRead(dev: Device, a: nat): (r: (byte, Device))
    requires WellFormed(dev) && a < CHIP_SIZE
    ensures WellFormed(r.1)
  {
    match dev
    case Genuine(chip) => (Read(chip, a).0, Genuine(Read(chip, a).1))
    case Unknown(answers, n) => (answers(n), Unknown(answers, n + 1))
  }

  function DeviceWrite(dev: Device, a: nat, d: byte): (r: Device)
    requires WellFormed(dev) && a < CHIP_SIZE
    ensures WellFormed(r)
  {
    match dev
    case Genuine(chip) => Genuine(Write(chip, a, d))
    case Unknown(answers, n) => Unknown(answers, n + 1)
  }

  // `n` reads at consecutive addresses, one after the other.
  function ReadRange(dev: Device, from: nat, n: nat): (r: (seq<byte>, Device))
    requires WellFormed(dev) && from + n <= CHIP_SIZE
    ensures |r.0| == n && WellFormed(r.1)
  {
    if n == 0 then ([], dev)
    else
      var before := ReadRange(dev, from, n - 1);
      var last := DeviceRead(before.1, from + n - 1);
      (before.0 + [last.0], last.1)
  }

  lemma {:induction false} ReadRangeOfResting(chip: Chip, from: nat, n: nat)
    requires Resting(chip) && from + n <= CHIP_SIZE
    ensures ReadRange(Genuine(chip), from, n) == (chip.mem[from..from + n], Genuine(chip))
  {
    if n == 0 {
      assert chip.mem[from..from] == [];
    } else {
      ReadRangeOfResting(chip, from, n - 1);
      assert chip.mem[from..from + n] == chip.mem[from..from + n - 1] + [chip.mem[from + n - 1]];
    }
  }

  // Reading never changes what the chip holds.
  lemma ReadKeepsMemory(dev: Device, a: nat)
    requires dev.Genuine? && WellFormed(dev) && a < CHIP_SIZE
    ensures var r := DeviceRead(dev, a).1;
      r.Genuine? && r.chip.mem == dev.chip.mem && r.chip.die == dev.chip.die
  {
  }

  // ---------- Command sequences ----------

  function Unlock(dev: Device, code: byte): (r: Device)
    requires WellFormed(dev)
    ensures WellFormed(r)
  {
    DeviceWrite(DeviceWrite(DeviceWrite(dev, 0x5555, 0xaa), 0x2aaa, 0x55), 0x5555, code)
  }

  // The byte-program sequence clears bits of one byte and touches no other.
  lemma ProgramSequence(chip: Chip, a: nat, d: byte)
    requires Resting(chip) && a < CHIP_SIZE
    ensures DeviceWrite(Unlock(Genuine(chip), 0xa0), a, d)
         == Genuine(chip.(mem := chip.mem[a := And(chip.mem[a], d)], commands := chip.commands + 1,
                          activity := Working(Bit7(d), chip.die.programReads(chip.commands))))
  {
    hide And;
    UnlockPhases(chip, 0xa0);
  }

  lemma UnlockPhases(chip: Chip, code: byte)
    requires Resting(chip)
    ensures Unlock(Genuine(chip), code) == DeviceWrite(Genuine(chip.(phase := Unlocked2)), 0x5555, code)
  {
    hide And;
    assert DeviceWrite(Genuine(chip), 0x5555, 0xaa) == Genuine(chip.(phase := Unlocked1));
    assert DeviceWrite(Genuine(chip.(phase := Unlocked1)), 0x2aaa, 0x55) == Genuine(chip.(phase := Unlocked2));
  }

  lemma ErasePhases(chip: Chip, a: nat, code: byte)
    requires Resting(chip) && a < CHIP_SIZE
    ensures var dev := DeviceWrite(DeviceWrite(Unlock(Genuine(chip), 0x80), 0x5555, 0xaa), 0x2aaa, 0x55);
      DeviceWrite(dev, a, code) == DeviceWrite(Genuine(chip.(phase := Erase3)), a, code)
  {
    hide And;
    UnlockPhases(chip, 0x80);
    assert Unlock(Genuine(chip), 0x80) == Genuine(chip.(phase := Erase1));
    assert DeviceWrite(Genuine(chip.(phase := Erase1)), 0x5555, 0xaa) == Genuine(chip.(phase := Erase2));
    assert DeviceWrite(Genuine(chip.(phase := Erase2)), 0x2aaa, 0x55) == Genuine(chip.(phase := Erase3));
  }

  // Identification mode is entered, answers with the identity, and is left
  // again without any other change.
  lemma IdentificationSequence(chip: Chip)
    requires Resting(chip)
    ensures var inId := Unlock(Genuine(chip), 0x90);
      && DeviceRead(inId, 0) == (chip.die.maker, inId)
      && DeviceRead(inId, 1) == (chip.die.model, inId)
      && Unlock(inId, 0xf0) == Genuine(chip)
  {
    hide And;
    UnlockPhases(chip, 0x90);
    var c := chip.(idMode := true);
    assert Unlock(Genuine(chip), 0x90) == Genuine(c);
    assert DeviceWrite(Genuine(c), 0x5555, 0xaa) == Genuine(c.(phase := Unlocked1));
    assert DeviceWrite(Genuine(c.(phase := Unlocked1)), 0x2aaa, 0x55) == Genuine(c.(phase := Unlocked2));
    assert DeviceWrite(Genuine(c.(phase := Unlocked2)), 0x5555, 0xf0) == Genuine(chip);
  }

  // ---------- Polling ----------

  // The chip after `n` reads that all found it busy.
  function StillWorking(chip: Chip, n: nat): Chip
    requires chip.activity.Working? && n <= chip.activity.left
  {
    chip.(activity := Working(chip.activity.target, chip.activity.left - n), polls := chip.polls + n)
  }

  function Finished(chip: Chip): Chip
    requires chip.activity.Working?
  {
    chip.(activity := Quiet, polls := chip.polls + chip.activity.left + 1)
  }

  lemma PollBusy(chip: Chip, a: nat, n: nat)
    requires a < |chip.mem| && chip.activity.Working? && n < chip.activity.left
    ensures var (b, c) := Read(StillWorking(chip, n), a);
      Bit7(b) == !chip.activity.target && c == StillWorking(chip, n + 1)
  {
  }

  lemma PollDone(chip: Chip, a: nat)
    requires a < |chip.mem| && chip.activity.Working?
    ensures var (b, c) := Read(StillWorking(chip, chip.activity.left), a);
      Bit7(b) == Bit7(chip.mem[a]) && c == Finished(chip)
  {
  }

  // ---------- Images ----------

  // Memory with `data` stored at `from`.
  function Overlay(mem: seq<byte>, from: nat, data: seq<byte>): (r: seq<byte>)
    requires from + |data| <= |mem|
    ensures |r| == |mem|
    ensures forall i | 0 <= i < |mem| ::
      r[i] == if from <= i < from + |data| then data[i - from] else mem[i]
  {
    mem[..from] + data + mem[from + |data|..]
  }

  // Flash programming only clears bits.
  predicate CanProgram(mem: seq<byte>, from: nat, data: seq<byte>)
    requires from + |data| <= |mem|
  {
    forall i | 0 <= i < |data| :: And(mem[from + i], data[i]) == data[i]
  }

  lemma BlankIsProgrammable(b: byte)
    ensures And(0xff, b) == b
  {
    RawValue(b);
    assert Raw(0xff) == 0xff;
    assert 0xff & Raw(b) == Raw(b);
  }

  lemma SameIsProgrammable(b: byte)
    ensures And(b, b) == b
  {
    RawValue(b);
    assert Raw(b) & Raw(b) == Raw(b);
  }

  // An erased region accepts any data.
  lemma BlankRegionProgrammable(mem: seq<byte>, from: nat, data: seq<byte>)
    requires from + |data| <= |mem|
    requires forall i | from <= i < from + |data| :: mem[i] == 0xff
    ensures CanProgram(mem, from, data)
  {
    hide And;
    forall i | 0 <= i < |data|
      ensures And(mem[from + i], data[i]) == data[i]
    {
      BlankIsProgrammable(data[i]);
    }
  }
}
