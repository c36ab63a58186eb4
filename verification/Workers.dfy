// The two worker threads of the desktop application:
// src/src/flashthread.cpp and src/src/readthread.cpp.
module Workers {
  import opened Octets
  import opened Sst39
  import opened Device
  import opened Studio
  import FlashOps

  const UNSIGNED_RANGE: nat := 0x1_0000_0000

  // ---------- Images of a partly programmed region ----------

  // The region erased, then the first bytes of the image programmed.
  function UpTo(mem: seq<byte>, start: nat, size: nat, image: seq<byte>, n: nat): (r: seq<byte>)
    requires start + size <= |mem| && n <= |image| <= size
    ensures |r| == |mem|
  {
    Overlay(Blank(mem, start, size), start, image[..n])
  }

  // The same, with the first n blocks.
  function Partly(mem: seq<byte>, start: nat, size: nat, image: seq<byte>, n: nat): (r: seq<byte>)
    requires start + size <= |mem| && n * BLOCK_SIZE <= |image| <= size
    ensures |r| == |mem|
  {
    UpTo(mem, start, size, image, n * BLOCK_SIZE)
  }

  // The meaning of the above, byte by byte.
  lemma PartlyBytes(mem: seq<byte>, start: nat, size: nat, image: seq<byte>, n: nat, a: nat)
    requires start + size <= |mem| && n * BLOCK_SIZE <= |image| <= size && a < |mem|
    ensures Partly(mem, start, size, image, n)[a] ==
      if a < start || a >= start + size then mem[a]
      else if a < start + n * BLOCK_SIZE then image[a - start]
      else 0xff
  {
  }

  lemma PartlyNone(mem: seq<byte>, start: nat, size: nat, image: seq<byte>)
    requires start + size <= |mem| && |image| <= size
    ensures Partly(mem, start, size, image, 0) == Blank(mem, start, size)
  {
  }

  lemma PartlyAll(mem: seq<byte>, start: nat, size: nat, image: seq<byte>, n: nat)
    requires start + size <= |mem| && n * BLOCK_SIZE == |image| == size
    ensures Partly(mem, start, size, image, n) == Overlay(mem, start, image)
  {
  }

  lemma PartlyNext(mem: seq<byte>, start: nat, size: nat, image: seq<byte>, n: nat)
    requires start + size <= |mem| && (n + 1) * BLOCK_SIZE <= |image| <= size
    ensures Overlay(Partly(mem, start, size, image, n), start + n * BLOCK_SIZE, BlockOf(image, n))
         == Partly(mem, start, size, image, n + 1)
  {
  }

  // A block that is programmed in part only.
  lemma PartOfNext(mem: seq<byte>, start: nat, size: nat, image: seq<byte>, n: nat, t: nat)
    requires start + size <= |mem| && (n + 1) * BLOCK_SIZE <= |image| <= size && t <= BLOCK_SIZE
    ensures Overlay(Partly(mem, start, size, image, n), start + n * BLOCK_SIZE, BlockOf(image, n)[..t])
         == UpTo(mem, start, size, image, n * BLOCK_SIZE + t)
  {
  }

  // The block to program next is still erased.
  lemma NextIsBlank(mem: seq<byte>, start: nat, size: nat, image: seq<byte>, n: nat)
    requires start + size <= |mem| && (n + 1) * BLOCK_SIZE <= |image| <= size
    ensures CanProgram(Partly(mem, start, size, image, n), start + n * BLOCK_SIZE, BlockOf(image, n))
  {
    BlankRegionProgrammable(Partly(mem, start, size, image, n), start + n * BLOCK_SIZE, BlockOf(image, n));
  }

  function BlockOf(image: seq<byte>, n: nat): (r: seq<byte>)
    requires (n + 1) * BLOCK_SIZE <= |image|
    ensures |r| == BLOCK_SIZE
  {
    image[n * BLOCK_SIZE..n * BLOCK_SIZE + BLOCK_SIZE]
  }

  // ---------- FlashThread ----------

  datatype FlashOutcome = Flashed
                        | Erased
                        | CancelledAfterErase
                        | CancelledBeforeBlock(block: nat)
                        | Aborted

  class FlashThread {
    var completeRom: bool
    var eraseOnly: bool
    var bankIndex: nat
    var data: seq<byte>

    constructor ()
      ensures completeRom && !eraseOnly && bankIndex == 0 && data == []
    {
      completeRom := true;
      eraseOnly := false;
      bankIndex := 0;
      data := [];
    }

    // The region that a run works on.
    function Start(): nat
      reads this
    {
      if completeRom then 0 else bankIndex * BANK_SIZE
    }

    function Size(): nat
      reads this
    {
      if completeRom then CHIP_SIZE else BANK_SIZE
    }

    method SetCompleteRom(image: seq<byte>) returns (ok: bool)
      modifies this
      ensures ok <==> |image| == CHIP_SIZE
      ensures ok ==> completeRom && !eraseOnly && data == image && Ready()
      ensures !ok ==> unchanged(this)
    {
      if |image| != CHIP_SIZE {
        return false;
      }
      completeRom := true;
      eraseOnly := false;
      data := image;
      ok := true;
    }

    method SetBank(bank: nat, image: seq<byte>) returns (ok: bool)
      modifies this
      ensures ok <==> bank < NUM_BANKS && |image| == BANK_SIZE
      ensures ok ==> !completeRom && !eraseOnly && bankIndex == bank && data == image && Ready()
      ensures !ok ==> unchanged(this)
    {
      if bank >= NUM_BANKS || |image| != BANK_SIZE {
        return false;
      }
      completeRom := false;
      eraseOnly := false;
      bankIndex := bank;
      data := image;
      ok := true;
    }

    method SetEraseComplete()
      modifies this
      ensures completeRom && eraseOnly && data == [] && Ready()
    {
      completeRom := true;
      eraseOnly := true;
      data := [];
    }

    method SetEraseBank(bank: nat) returns (ok: bool)
      modifies this
      ensures ok <==> bank < NUM_BANKS
      ensures ok ==> !completeRom && eraseOnly && bankIndex == bank && data == [] && Ready()
      ensures !ok ==> unchanged(this)
    {
      if bank >= NUM_BANKS {
        return false;
      }
      completeRom := false;
      eraseOnly := true;
      bankIndex := bank;
      data := [];
      ok := true;
    }

    // One of the setters has been used.
    predicate Ready()
      reads this
    {
      && (eraseOnly || |data| == Size())
      && (!completeRom ==> bankIndex < NUM_BANKS)
    }

    // What a run leaves in the flash, for each way it can end.
    ghost predicate Result(before: seq<byte>, outcome: FlashOutcome, after: seq<byte>, healthy: bool)
      requires |before| == CHIP_SIZE
      reads this
    {
      match outcome
      // the target region is the image, and every other byte is as before
      case Flashed =>
        !eraseOnly && |data| == Size() && Start() + Size() <= CHIP_SIZE && after == Overlay(before, Start(), data)
      case Erased => eraseOnly && after == Blank(before, Start(), Size())
      case CancelledAfterErase => after == Blank(before, Start(), Size())
      // the first k blocks are the image, the rest of the region is blank
      case CancelledBeforeBlock(k) =>
        && !eraseOnly && |data| == Size() && Start() + Size() <= CHIP_SIZE && k * BLOCK_SIZE < Size()
        && after == Partly(before, Start(), Size(), data, k)
      // nothing happened, or the run stopped at some point
      case Aborted => after == before || Stopped(before, after, healthy)
    }

    // A healthy chip stops only between blocks and never inside an erase.
    ghost predicate Stopped(before: seq<byte>, after: seq<byte>, healthy: bool)
      requires |before| == CHIP_SIZE
      reads this
    {
      && Start() + Size() <= CHIP_SIZE
      && (|| ReachesSectors(before, Start(), Size(), after, healthy)
          || (!eraseOnly && |data| == Size() && ReachesBytes(before, Start(), Size(), data, after, healthy)))
    }

    method Run(serial: SerialInterface) returns (outcome: FlashOutcome)
      requires serial.Valid() && !serial.isOpen && Resting(serial.Chip())
      modifies serial, serial.fw.Footprint()
      ensures serial.Valid() && !serial.isOpen && serial.Chip().die == old(serial.Chip()).die
      ensures Result(old(serial.Flash()), outcome, serial.Flash(), Healthy(serial.Chip().die))
      // another chip is left alone
      ensures !Identified(serial.Chip().die) ==> outcome.Aborted? && serial.Chip() == old(serial.Chip())
      // only an unreliable link or a slow chip makes a run fail
      ensures serial.fw.reliable && Ready() && Healthy(serial.Chip().die) ==> !outcome.Aborted?
      ensures !outcome.Aborted? || Healthy(serial.Chip().die) ==> Resting(serial.Chip())
    {
      hide Overlay, Blank, Partly, UpTo, Firmware.Valid, SerialInterface.Now, BigEndian, Healthy;
      hide ReachesBytes, ReachesSectors;
      ghost var chip := serial.Chip();
      if !eraseOnly && |data| != (if completeRom then CHIP_SIZE else BANK_SIZE) {
        return Aborted;
      }
      serial.OpenPort();
      var ok, id := serial.GetChipId();
      RightIdentity(chip.die);
      if !ok || id != 0xbfb6 {
        serial.ClosePort();
        return Aborted;
      }
      ok := EraseRegion(serial);
      if !ok {
        serial.ClosePort();
        return Aborted;
      }
      if eraseOnly {
        serial.ClosePort();
        var interrupted: bool := *;
        if interrupted {
          return CancelledAfterErase;
        }
        return Erased;
      }
      var interrupted: bool := *;
      if interrupted {
        serial.ClosePort();
        return CancelledAfterErase;
      }
      outcome := ProgramBlocks(serial, chip.mem);
      serial.ClosePort();
    }

    method EraseRegion(serial: SerialInterface) returns (ok: bool)
      requires serial.InStep() && Identified(serial.Chip().die)
      modifies serial`delivered, serial`received, serial.fw.Footprint()
      ensures serial.Valid() && serial.isOpen == old(serial.isOpen) && serial.Chip().die == old(serial.Chip()).die
      ensures ok ==>
        && serial.InStep() && Start() + Size() <= CHIP_SIZE
        && serial.Flash() == Blank(old(serial.Flash()), Start(), Size())
      ensures !ok ==>
        || serial.Flash() == old(serial.Flash())
        || Stopped(old(serial.Flash()), serial.Flash(), Healthy(serial.Chip().die))
      ensures !ok && Healthy(serial.Chip().die) ==> Resting(serial.Chip())
      ensures serial.fw.reliable && Healthy(serial.Chip().die) && (!completeRom ==> bankIndex < NUM_BANKS) ==> ok
    {
      hide Blank, UpTo, Firmware.Valid, SerialInterface.Now, Healthy, FlashOps.EraseOne, FlashOps.EraseSectors;
      hide ReachesSectors;
      ghost var chip := serial.Chip();
      if completeRom {
        FlashOps.EraseOneEffect(chip, 0, CHIP_SIZE);
        SomeSectors(chip.mem, 0, CHIP_SIZE, 64, Healthy(chip.die));
        ok := serial.EraseChip();
      } else {
        if bankIndex < NUM_BANKS {
          FlashOps.EraseSectorsEffect(chip, bankIndex * BANK_SIZE, 4);
          SomeSectors(chip.mem, bankIndex * BANK_SIZE, BANK_SIZE,
                      FlashOps.SectorsTried(chip, bankIndex * BANK_SIZE, 4), Healthy(chip.die));
        }
        ok := serial.EraseBank(bankIndex);
      }
    }

    method ProgramBlocks(serial: SerialInterface, ghost before: seq<byte>) returns (outcome: FlashOutcome)
      requires serial.InStep() && |before| == CHIP_SIZE && Identified(serial.Chip().die)
      requires !eraseOnly && |data| == Size() && Start() + Size() <= CHIP_SIZE
      requires serial.Flash() == Blank(before, Start(), Size())
      modifies serial`delivered, serial`received, serial.fw.Footprint()
      ensures serial.Valid() && serial.isOpen && serial.Chip().die == old(serial.Chip()).die
      ensures Result(before, outcome, serial.Flash(), Healthy(serial.Chip().die))
      ensures serial.fw.reliable && Healthy(serial.Chip().die) ==> !outcome.Aborted?
      ensures !outcome.Aborted? || Healthy(serial.Chip().die) ==> Resting(serial.Chip())
    {
      hide Overlay, Blank, Partly, UpTo, CanProgram, BlockOf, Firmware.Valid, SerialInterface.Now, Healthy;
      hide ReachesBytes, ReachesSectors, FlashOps.ProgramBlock;
      var blockCount := if completeRom then NUM_BLOCKS else BANK_SIZE / BLOCK_SIZE;
      var firstBlock := if completeRom then 0 else bankIndex * (BANK_SIZE / BLOCK_SIZE);
      ghost var start, size, die := Start(), Size(), serial.Chip().die;
      assert blockCount * BLOCK_SIZE == size && firstBlock * BLOCK_SIZE == start && |data| == size;
      PartlyNone(before, start, size, data);
      var block := 0;
      while block < blockCount
        invariant 0 <= block <= blockCount
        invariant serial.InStep() && serial.Chip().die == die
        invariant serial.Flash() == Partly(before, start, size, data, block)
      {
        var interrupted: bool := *;
        if interrupted {
          return CancelledBeforeBlock(block);
        }
        BlockOutcome(serial.Chip(), before, start, size, data, block);
        PartlyIsUpTo(before, start, size, data, block, Healthy(die));
        var ok := serial.BurnBlock(firstBlock + block, BlockOf(data, block));
        if !ok {
          return Aborted;
        }
        block := block + 1;
      }
      PartlyAll(before, start, size, data, blockCount);
      outcome := Flashed;
    }
  }

  lemma RightIdentity(die: Die)
    ensures BigEndian(die.maker, die.model) == 0xbfb6 <==> Identified(die)
    ensures Healthy(die) ==> Identified(die)
  {
  }

  lemma PartlyIsUpTo(mem: seq<byte>, start: nat, size: nat, image: seq<byte>, n: nat, whole: bool)
    requires start + size <= |mem| && n * BLOCK_SIZE <= |image| <= size
    ensures ReachesBytes(mem, start, size, image, Partly(mem, start, size, image, n), whole)
  {
    WholeBlocks(n, 0);
    assert Partly(mem, start, size, image, n) == UpTo(mem, start, size, image, n * BLOCK_SIZE);
    hide Overlay, Blank, Partly;
  }

  // What burning the next block leads to, on the right chip.
  lemma BlockOutcome(chip: Chip, before: seq<byte>, start: nat, size: nat, image: seq<byte>, n: nat)
    requires Resting(chip) && Identified(chip.die) && |before| == CHIP_SIZE && start % BLOCK_SIZE == 0
    requires start + size <= CHIP_SIZE && (n + 1) * BLOCK_SIZE <= |image| <= size
    requires chip.mem == Partly(before, start, size, image, n)
    ensures start / BLOCK_SIZE + n < NUM_BLOCKS
    ensures var (c, status) := FlashOps.ProgramBlock(chip, start / BLOCK_SIZE + n, BlockOf(image, n));
      && c.die == chip.die
      && (status == 0 ==> Resting(c) && c.mem == Partly(before, start, size, image, n + 1))
      && (Healthy(chip.die) ==> status == 0)
      && ReachesBytes(before, start, size, image, c.mem, Healthy(chip.die))
  {
    hide Overlay, Blank, Partly, UpTo, CanProgram, BlockOf, FlashOps.ProgramAll, FlashOps.Tried, Healthy;
    var at, data := start + n * BLOCK_SIZE, BlockOf(image, n);
    assert (start / BLOCK_SIZE + n) * BLOCK_SIZE == at;
    NextIsBlank(before, start, size, image, n);
    FlashOps.ProgramAllEffect(chip, at, data);
    var t := FlashOps.Tried(chip, at, data);
    PartOfNext(before, start, size, image, n, t);
    PartlyNext(before, start, size, image, n);
    assert data[..BLOCK_SIZE] == data && |data| == BLOCK_SIZE;
    WholeBlocks(n, t);
  }

  lemma WholeBlocks(n: nat, t: nat)
    ensures n * BLOCK_SIZE % BLOCK_SIZE == 0
    ensures t == BLOCK_SIZE ==> (n * BLOCK_SIZE + t) % BLOCK_SIZE == 0
  {
  }

  // Some first bytes of the image are in place, whole blocks if so required.
  ghost predicate ReachesBytes(before: seq<byte>, start: nat, size: nat, image: seq<byte>, after: seq<byte>,
                               whole: bool)
    requires start + size <= |before| && |image| <= size
  {
    exists n: nat :: n <= |image| && (whole ==> n % BLOCK_SIZE == 0) && after == UpTo(before, start, size, image, n)
  }

  lemma SomeSectors(before: seq<byte>, start: nat, size: nat, n: nat, whole: bool)
    requires n * SECTOR_SIZE <= size && (whole ==> n * SECTOR_SIZE == size)
    ensures ReachesSectors(before, start, size, Blank(before, start, n * SECTOR_SIZE), whole)
  {
  }

  // A first run of the region's sectors is blank, all of them if so required.
  ghost predicate ReachesSectors(before: seq<byte>, start: nat, size: nat, after: seq<byte>, whole: bool) {
    exists n: nat ::
      n * SECTOR_SIZE <= size && (whole ==> n * SECTOR_SIZE == size) && after == Blank(before, start, n * SECTOR_SIZE)
  }

  // In every case, whatever goes wrong, nothing outside the region changes.
  lemma OutsideUntouched(t: FlashThread, before: seq<byte>, outcome: FlashOutcome, after: seq<byte>,
                         healthy: bool, a: nat)
    requires |before| == CHIP_SIZE && t.Result(before, outcome, after, healthy)
    requires a < CHIP_SIZE && (a < t.Start() || a >= t.Start() + t.Size())
    ensures |after| == CHIP_SIZE && after[a] == before[a]
  {
  }

  // ---------- ReadThread ----------

  datatype ReadOutcome = ReadDone | ReadCancelled(banks: nat) | ReadAborted

  // The concatenation of n banks from `first` on.
  function BankRange(mem: seq<byte>, first: nat, n: nat): (r: seq<byte>)
    requires |mem| == CHIP_SIZE && first + n <= NUM_BANKS
    ensures |r| == n * BANK_SIZE
  {
    mem[first * BANK_SIZE..(first + n) * BANK_SIZE]
  }

  class ReadThread {
    var firstBank: nat
    var bankCount: nat
    var data: seq<byte>

    constructor ()
      ensures firstBank == 0 && bankCount == NUM_BANKS && data == []
    {
      firstBank := 0;
      bankCount := NUM_BANKS;
      data := [];
    }

    // The sum is taken in unsigned 32-bit arithmetic.
    method SetBankRange(first: nat, count: nat) returns (ok: bool)
      requires first < UNSIGNED_RANGE && count < UNSIGNED_RANGE
      modifies this
      ensures ok <==> RangeAccepted(first, count)
      ensures ok ==> firstBank == first && bankCount == count && data == old(data)
      ensures !ok ==> unchanged(this)
    {
      if count == 0 || first >= NUM_BANKS || (first + count) % UNSIGNED_RANGE > NUM_BANKS {
        return false;
      }
      firstBank := first;
      bankCount := count;
      ok := true;
    }

    // A completed run holds exactly the requested banks; the flash is only read.
    method Run(serial: SerialInterface) returns (outcome: ReadOutcome)
      requires firstBank < NUM_BANKS
      requires serial.Valid() && !serial.isOpen && Resting(serial.Chip())
      modifies this`data, serial, serial.fw.Footprint()
      ensures serial.Valid() && !serial.isOpen
      ensures serial.Chip() == old(serial.Chip())
      ensures outcome.ReadDone? ==>
        firstBank + bankCount <= NUM_BANKS && data == BankRange(serial.Flash(), firstBank, bankCount)
      ensures outcome.ReadCancelled? ==>
        && outcome.banks <= bankCount && firstBank + outcome.banks <= NUM_BANKS
        && data == BankRange(serial.Flash(), firstBank, outcome.banks)
      ensures serial.fw.reliable && Identified(serial.Chip().die) && firstBank + bankCount <= NUM_BANKS ==>
        !outcome.ReadAborted?
      // another chip is not read
      ensures !Identified(serial.Chip().die) ==> outcome.ReadAborted?
    {
      hide Firmware.Valid, SerialInterface.Now, BigEndian;
      RightIdentity(serial.Chip().die);
      data := [];
      serial.OpenPort();
      var ok, id := serial.GetChipId();
      if !ok || id != 0xbfb6 {
        serial.ClosePort();
        return ReadAborted;
      }
      outcome := ReadBanks(serial);
      serial.ClosePort();
    }

    method ReadBanks(serial: SerialInterface) returns (outcome: ReadOutcome)
      requires serial.InStep() && data == [] && firstBank < NUM_BANKS
      modifies this`data, serial`delivered, serial`received, serial.fw.Footprint()
      ensures serial.Valid() && serial.isOpen
      ensures serial.Chip() == old(serial.Chip())
      ensures outcome.ReadDone? ==>
        firstBank + bankCount <= NUM_BANKS && data == BankRange(serial.Flash(), firstBank, bankCount)
      ensures outcome.ReadCancelled? ==>
        && outcome.banks <= bankCount && firstBank + outcome.banks <= NUM_BANKS
        && data == BankRange(serial.Flash(), firstBank, outcome.banks)
      ensures serial.fw.reliable && firstBank + bankCount <= NUM_BANKS ==> !outcome.ReadAborted?
    {
      hide Firmware.Valid, SerialInterface.Now;
      ghost var mem := serial.Flash();
      var offset := 0;
      while offset < bankCount
        invariant 0 <= offset <= bankCount
        invariant serial.InStep() && serial.Chip() == old(serial.Chip())
        invariant firstBank + offset <= NUM_BANKS
        invariant data == BankRange(mem, firstBank, offset)
      {
        var interrupted: bool := *;
        if interrupted {
          return ReadCancelled(offset);
        }
        var ok, bank := serial.ReadBank(firstBank + offset);
        if !ok {
          return ReadAborted;
        }
        OneMoreBank(mem, firstBank, offset);
        data := data + bank;
        offset := offset + 1;
      }
      var interrupted: bool := *;
      if interrupted {
        return ReadCancelled(offset);
      }
      outcome := ReadDone;
    }
  }

  // The sum wraps, so a range that ends past the last bank is accepted when
  // its end is past 32 bits as well.
  predicate RangeAccepted(first: nat, count: nat) {
    count != 0 && first < NUM_BANKS && (first + count <= NUM_BANKS || first + count >= UNSIGNED_RANGE)
  }

  lemma OverlongRangeAccepted()
    ensures var first, count := 1, 0xffff_ffff;
      RangeAccepted(first, count) && first < UNSIGNED_RANGE && count < UNSIGNED_RANGE && first + count > NUM_BANKS
  {
  }

  lemma OneMoreBank(mem: seq<byte>, first: nat, n: nat)
    requires |mem| == CHIP_SIZE && first + n < NUM_BANKS
    ensures BankRange(mem, first, n) + BankData(mem, first + n) == BankRange(mem, first, n + 1)
  {
  }
}
