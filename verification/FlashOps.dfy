// What the driver's operations make of a resting chip, exactly: how far they
// come when the chip is slow, and the status they end with.
module FlashOps {
  import opened Octets
  import opened Sst39

  // How many reads the driver grants a command.
  const PROGRAM_POLLS: nat := 100
  const ERASE_POLLS: nat := 1000

  predicate AllOnes(mem: seq<byte>, from: nat, size: nat) {
    from + size <= |mem| && forall a | from <= a < from + size :: mem[a] == 0xff
  }

  // A busy chip after at most so many reads; status 4 when it is busy still.
  function Polled(chip: Chip, limit: nat): (Chip, byte)
    requires chip.activity.Working?
  {
    if chip.activity.left < limit then (Finished(chip), 0) else (StillWorking(chip, limit), 4)
  }

  // ---------- Programming ----------

  function Started(chip: Chip, a: nat, d: byte): Chip
    requires a < |chip.mem|
  {
    chip.(mem := chip.mem[a := And(chip.mem[a], d)], commands := chip.commands + 1,
          activity := Working(Bit7(d), chip.die.programReads(chip.commands)))
  }

  function ProgramOne(chip: Chip, a: nat, d: byte): (r: (Chip, byte))
    requires a < |chip.mem|
    ensures |r.0.mem| == |chip.mem|
  {
    if chip.mem[a] == d then (chip, 0) else Polled(Started(chip, a, d), PROGRAM_POLLS)
  }

  // One byte after the other, up to the first that is not done in time.
  function ProgramAll(chip: Chip, from: nat, data: seq<byte>): (r: (Chip, byte))
    requires from + |data| <= |chip.mem|
    ensures |r.0.mem| == |chip.mem|
    decreases |data|
  {
    if data == [] then (chip, 0)
    else
      var k := |data| - 1;
      var before := ProgramAll(chip, from, data[..k]);
      if before.1 != 0 then before else ProgramOne(before.0, from + k, data[k])
  }

  // How many bytes that deals with.
  function Tried(chip: Chip, from: nat, data: seq<byte>): (n: nat)
    requires from + |data| <= |chip.mem|
    ensures n <= |data|
    decreases |data|
  {
    if data == [] then 0
    else
      var k := |data| - 1;
      if ProgramAll(chip, from, data[..k]).1 != 0 then Tried(chip, from, data[..k]) else k + 1
  }

  function ProgramBlock(chip: Chip, block: nat, data: seq<byte>): (r: (Chip, byte))
    requires block * 0x100 + |data| <= |chip.mem|
    ensures |r.0.mem| == |chip.mem|
  {
    if !Identified(chip.die) then (chip, 3)
    else if !CanProgram(chip.mem, block * 0x100, data) then (chip, 6)
    else ProgramAll(chip, block * 0x100, data)
  }

  lemma ProgramOneEffect(chip: Chip, a: nat, d: byte)
    requires Resting(chip) && a < CHIP_SIZE && And(chip.mem[a], d) == d
    ensures var (c, status) := ProgramOne(chip, a, d);
      && c.die == chip.die && c.mem == chip.mem[a := d]
      && status == (if chip.mem[a] == d || chip.die.programReads(chip.commands) < 100 then 0 else 4)
      && (status == 0 ==> Resting(c))
      && (Healthy(chip.die) ==> status == 0)
  {
    hide And;
  }

  // A first part of the data is programmed, all of it on success, and nothing
  // else changes; success means that every command was done in time.
  lemma {:induction false} ProgramAllEffect(chip: Chip, from: nat, data: seq<byte>)
    requires Resting(chip) && from + |data| <= CHIP_SIZE && CanProgram(chip.mem, from, data)
    ensures var (c, status) := ProgramAll(chip, from, data);
      && c.die == chip.die && status in {0, 4}
      && c.mem == Overlay(chip.mem, from, data[..Tried(chip, from, data)])
      && (status == 0 ==> Resting(c) && Tried(chip, from, data) == |data|)
      && (Healthy(chip.die) ==> status == 0)
    decreases |data|
  {
    hide And, ProgramOne, Healthy;
    if data == [] {
      assert Overlay(chip.mem, from, []) == chip.mem;
    } else {
      var k := |data| - 1;
      ProgramAllEffect(chip, from, data[..k]);
      var before := ProgramAll(chip, from, data[..k]);
      if before.1 == 0 {
        assert data[..k][..k] == data[..k];
        assert before.0.mem[from + k] == chip.mem[from + k];
        ProgramOneEffect(before.0, from + k, data[k]);
        OverlayOneMore(chip.mem, from, data, k);
      } else {
        assert data[..k][..Tried(chip, from, data[..k])] == data[..Tried(chip, from, data[..k])];
      }
    }
  }

  lemma OverlayOneMore(mem: seq<byte>, from: nat, data: seq<byte>, i: nat)
    requires i < |data| && from + |data| <= |mem|
    ensures Overlay(mem, from, data[..i])[from + i := data[i]] == Overlay(mem, from, data[..i + 1])
  {
  }

  // ---------- Erasing ----------

  function EraseOne(chip: Chip, from: nat, size: nat): (r: (Chip, byte))
    ensures |r.0.mem| == |chip.mem|
  {
    Polled(Erasing(chip, from, size), ERASE_POLLS)
  }

  function EraseAll(chip: Chip): (r: (Chip, byte))
    ensures |r.0.mem| == |chip.mem|
  {
    if !Identified(chip.die) then (chip, 3) else EraseOne(chip, 0, CHIP_SIZE)
  }

  // One sector after the other, up to the first that is not done in time.
  function EraseSectors(chip: Chip, start: nat, n: nat): (r: (Chip, byte))
    ensures |r.0.mem| == |chip.mem|
    decreases n
  {
    if n == 0 then (chip, 0)
    else
      var before := EraseSectors(chip, start, n - 1);
      if before.1 != 0 then before
      else EraseOne(before.0, start + (n - 1) * SECTOR_SIZE, SECTOR_SIZE)
  }

  // How many sectors that deals with.
  function SectorsTried(chip: Chip, start: nat, n: nat): (m: nat)
    ensures m <= n
    decreases n
  {
    if n == 0 then 0
    else if EraseSectors(chip, start, n - 1).1 != 0 then SectorsTried(chip, start, n - 1)
    else n
  }

  function EraseBank(chip: Chip, bank: nat): (r: (Chip, byte))
    ensures |r.0.mem| == |chip.mem|
  {
    if !Identified(chip.die) then (chip, 3) else EraseSectors(chip, bank * 0x4000, 4)
  }

  lemma EraseOneEffect(chip: Chip, from: nat, size: nat)
    requires Resting(chip)
    ensures var (c, status) := EraseOne(chip, from, size);
      && c.die == chip.die && c.mem == Blank(chip.mem, from, size)
      && status == (if chip.die.eraseReads(chip.commands) < 1000 then 0 else 4)
      && (status == 0 ==> Resting(c))
      && (Healthy(chip.die) ==> status == 0)
  {
    hide Blank;
  }

  lemma EraseAllEffect(chip: Chip)
    requires Resting(chip)
    ensures var (c, status) := EraseAll(chip);
      if !Identified(chip.die) then (c, status) == (chip, 3)
      else
        && (c, status) == EraseOne(chip, 0, CHIP_SIZE)
        && c.die == chip.die && c.mem == Blank(chip.mem, 0, CHIP_SIZE)
        && status == (if chip.die.eraseReads(chip.commands) < 1000 then 0 else 4)
        && (status == 0 ==> Resting(c))
        && (Healthy(chip.die) ==> status == 0)
        && AllOnes(c.mem, 0, CHIP_SIZE)
    ensures Healthy(chip.die) ==> Identified(chip.die)
  {
    EraseOneEffect(chip, 0, CHIP_SIZE);
    hide EraseOne;
  }

  // A first run of the sectors is erased, all of them on success, and nothing
  // else changes; success means that every command was done in time.
  lemma {:induction false} EraseSectorsEffect(chip: Chip, start: nat, n: nat)
    requires Resting(chip)
    ensures var (c, status) := EraseSectors(chip, start, n);
      && c.die == chip.die && status in {0, 4}
      && c.mem == Blank(chip.mem, start, SectorsTried(chip, start, n) * SECTOR_SIZE)
      && (status == 0 ==> Resting(c) && SectorsTried(chip, start, n) == n)
      && (Healthy(chip.die) ==> status == 0)
    decreases n
  {
    hide EraseOne;
    if n == 0 {
      assert Blank(chip.mem, start, 0) == chip.mem;
    } else {
      EraseSectorsEffect(chip, start, n - 1);
      var before := EraseSectors(chip, start, n - 1);
      if before.1 == 0 {
        EraseOneEffect(before.0, start + (n - 1) * SECTOR_SIZE, SECTOR_SIZE);
        OneMoreSector(chip.mem, start, n - 1);
      }
    }
  }

  lemma EraseBankEffect(chip: Chip, bank: nat)
    requires Resting(chip) && bank < 16
    ensures var (c, status) := EraseBank(chip, bank);
      if !Identified(chip.die) then (c, status) == (chip, 3)
      else
        && (c, status) == EraseSectors(chip, bank * 0x4000, 4)
        && c.die == chip.die && status in {0, 4}
        && c.mem == Blank(chip.mem, bank * 0x4000, SectorsTried(chip, bank * 0x4000, 4) * SECTOR_SIZE)
        && (status == 0 ==>
              && Resting(c) && c.mem == Blank(chip.mem, bank * 0x4000, 0x4000)
              && AllOnes(c.mem, bank * 0x4000, 0x4000))
        && (Healthy(chip.die) ==> status == 0)
    ensures Healthy(chip.die) ==> Identified(chip.die)
  {
    EraseSectorsEffect(chip, bank * 0x4000, 4);
    hide EraseSectors, SectorsTried;
  }

  // The sectors of a region follow one another without gap or overlap.
  lemma OneMoreSector(mem: seq<byte>, start: nat, sector: nat)
    ensures start % SECTOR_SIZE == 0 ==> SectorOf(start + sector * SECTOR_SIZE) == start + sector * SECTOR_SIZE
    ensures Blank(Blank(mem, start, sector * SECTOR_SIZE), start + sector * SECTOR_SIZE, SECTOR_SIZE)
         == Blank(mem, start, (sector + 1) * SECTOR_SIZE)
  {
  }

  // ---------- Healthy chips, and chips of another make ----------

  // A chip that the driver serves without ever giving up.
  ghost predicate Steady(chip: Chip) {
    Resting(chip) && (Identified(chip.die) ==> Healthy(chip.die))
  }

  lemma SteadyProgram(chip: Chip, block: nat, data: seq<byte>)
    requires Steady(chip) && block < 1024 && |data| == 0x100
    ensures var (c, status) := ProgramBlock(chip, block, data);
      && Steady(c) && c.die == chip.die
      && if !Identified(chip.die) then c == chip && status == 3
         else if CanProgram(chip.mem, block * 0x100, data) then
           status == 0 && c.mem == Overlay(chip.mem, block * 0x100, data)
         else c == chip && status == 6
  {
    hide CanProgram;
    if CanProgram(chip.mem, block * 0x100, data) {
      ProgramAllEffect(chip, block * 0x100, data);
      assert data[..0x100] == data;
    }
  }

  lemma SteadyErase(chip: Chip)
    requires Steady(chip)
    ensures var (c, status) := EraseAll(chip);
      && Steady(c) && c.die == chip.die
      && if Identified(chip.die) then status == 0 && c.mem == Blank(chip.mem, 0, CHIP_SIZE)
         else c == chip && status == 3
  {
    EraseOneEffect(chip, 0, CHIP_SIZE);
    hide EraseOne, Blank;
  }

  lemma SteadyEraseBank(chip: Chip, bank: nat)
    requires Steady(chip) && bank < 16
    ensures var (c, status) := EraseBank(chip, bank);
      && Steady(c) && c.die == chip.die
      && if Identified(chip.die) then status == 0 && c.mem == Blank(chip.mem, bank * 0x4000, 0x4000)
         else c == chip && status == 3
  {
    EraseSectorsEffect(chip, bank * 0x4000, 4);
    hide EraseSectors, SectorsTried, Blank;
  }
}
