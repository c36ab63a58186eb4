// firmware/bootloader/BootloaderCDC.c and BootloaderAPI.c, step by step.
module Bootloader {
  import opened Octets
  import opened Application
  import opened AvrFlash
  import opened Avr109
  import opened BootMachine
  import Crc32

  datatype Place = InLoop | Exiting | Dead | InApplication

  // An address counter of the width of uint32_t that points to a word.
  predicate WordAddress(address: nat) {
    address % 2 == 0 && address < 0x1_0000_0000
  }

  predicate Odd(n: nat) {
    n % 2 == 1
  }

  class Bootloader {
    // The chip: flash, the temporary page buffer, and RAM that survives a reset.
    var flash: seq<byte>
    var buffer: seq<byte>
    var magicBootKey: nat
    var place: Place

    // The bootloader's globals.
    var currAddress: nat
    var runBootloader: bool
    var stayInBootloader: bool
    var bootTicks: nat

    // The USB endpoints: packets the host still sends, response octets it
    // still takes, and the response so far.
    var packets: seq<seq<byte>>
    var room: nat
    var output: seq<byte>

    // Every page operation since the start.
    ghost const origin: seq<byte>
    ghost var trace: seq<PageOp>

    constructor (image: seq<byte>, key: nat)
      requires |image| == FLASH_SIZE
      ensures Valid() && flash == image && trace == [] && View() == AtReset(image, false, key)
    {
      flash, origin := image, image;
      buffer := PageOf([]);
      magicBootKey, place := 0, InLoop;
      currAddress, runBootloader, stayInBootloader, bootTicks := 0, true, false, 0;
      packets, room, output := [], 0, [];
      trace := [];
    }

    // Flash is what the page operations so far have made of it.
    ghost predicate Stored()
      reads this`flash, this`trace
    {
      && |flash| == |origin| == FLASH_SIZE
      && AllSound(trace) && flash == ApplyAll(origin, trace)
    }

    ghost predicate Sane()
      reads this
    {
      && Stored() && |flash| == FLASH_SIZE && |buffer| == PAGE
      && WordAddress(currAddress)
    }

    ghost predicate Alive()
      reads this
    {
      Sane() && place == InLoop
    }

    ghost predicate Valid()
      reads this
    {
      Sane() && (place == InLoop ==> runBootloader)
    }

    ghost function View(): Machine
      reads this
    {
      Machine(flash, magicBootKey,
        match place
        case InLoop => Running(currAddress, stayInBootloader, bootTicks)
        case Exiting => Leaving
        case Dead => Failed
        case InApplication => Started)
    }

    // ---------- Validity, keys and resets ----------

    method ApplicationIsValid() returns (ok: bool)
      requires |flash| == FLASH_SIZE
      ensures ok <==> IsValid(flash)
    {
      hide Crc32.Checksum, Crc32.Dword;
      if !HeaderOk(flash) {
        return false;
      }
      var length := ImageLength(flash);
      if length < 2 || length > MANIFEST_ADDRESS {
        return false;
      }
      var crc := Crc32.ComputeCrc(flash[..length]);
      if crc != ImageCrc(flash) {
        return false;
      }
      var address := length;
      while address < MANIFEST_ADDRESS
        invariant length <= address <= MANIFEST_ADDRESS
        invariant forall a | length <= a < address :: flash[a] == 0xff
      {
        if flash[address] != 0xff {
          assert !BlankFrom(flash, length);
          return false;
        }
        address := address + 1;
      }
      assert BlankFrom(flash, length);
      ok := true;
    }

    method ResetAfterTransferFailure()
      modifies this`magicBootKey, this`place
      ensures magicBootKey == 0 && place == Dead
    {
      magicBootKey := 0;
      place := Dead;
    }

    method ApplicationJumpCheck(watchdog: bool) returns (jump: bool)
      requires |flash| == FLASH_SIZE
      modifies this`magicBootKey, this`stayInBootloader
      ensures magicBootKey == 0
      ensures stayInBootloader == (watchdog && old(magicBootKey) == STAY_KEY)
      ensures jump <==> watchdog && old(magicBootKey) == MAGIC_BOOT_KEY && IsValid(flash)
    {
      var key := magicBootKey;
      magicBootKey := 0;
      stayInBootloader := watchdog && key == STAY_KEY;
      if !watchdog || key != MAGIC_BOOT_KEY {
        return false;
      }
      jump := ApplicationIsValid();
    }

    // A reset from any cause; a power-up or an application may have changed
    // the key before.
    method Reset(watchdog: bool)
      requires Valid()
      modifies this
      ensures Valid() && trace == old(trace)
      ensures View() == AtReset(old(flash), watchdog, old(magicBootKey))
    {
      hide IsValid, ApplyAll;
      buffer := PageOf([]);
      currAddress, runBootloader, bootTicks := 0, true, 0;
      packets, room, output := [], 0, [];
      var jump := ApplicationJumpCheck(watchdog);
      place := if jump then InApplication else InLoop;
    }

    method TimerOverflow()
      requires Valid() && place == InLoop
      modifies this`bootTicks
      ensures View() == Step(old(View()), Tick)
    {
      if bootTicks < 255 {
        bootTicks := bootTicks + 1;
      }
    }

    // One pass through main's loop, and what follows when it was the last.
    method MainLoopPass()
      requires Valid() && place == InLoop
      modifies this
      ensures Valid()
      ensures View() == Step(old(View()), Host(old(packets), old(room)))
    {
      hide IsValid, Serve, ApplyAll;
      if packets != [] {
        ghost var ops := Serve(flash, currAddress, packets, room).ops;
        CdcTask();
        ApplyConcat(origin, old(trace), ops);
        if place == Dead {
          return;
        }
      }
      if !stayInBootloader && bootTicks >= 20 {
        var valid := ApplicationIsValid();
        if valid {
          runBootloader := false;
        }
      }
      if !runBootloader {
        magicBootKey := MAGIC_BOOT_KEY;
        place := Exiting;
      }
    }

    // ---------- Page operations ----------

    method ErasePage(address: nat)
      requires Sane()
      modifies this`flash, this`buffer, this`trace
      ensures Sane() && trace == old(trace) + BlockErase(address)
      ensures PageValid(address) ==> buffer == PageOf([])
      ensures !PageValid(address) ==> buffer == old(buffer)
    {
      assert trace + [] == trace;
      if address % PAGE != 0 || address >= BOOT_START {
        return;
      }
      ApplyOne(flash, Erase(address));
      ApplyConcat(origin, trace, [Erase(address)]);
      flash := ApplyOp(flash, Erase(address));
      trace := trace + [Erase(address)];
      buffer := PageOf([]);
    }

    method WritePage(address: nat)
      requires Sane()
      modifies this`flash, this`buffer, this`trace
      ensures Sane()
      ensures PageValid(address) ==> trace == old(trace) + [Write(address, old(buffer))]
      ensures !PageValid(address) ==> trace == old(trace) && buffer == old(buffer)
    {
      if address % PAGE != 0 || address >= BOOT_START {
        return;
      }
      var op := Write(address, buffer);
      ApplyOne(flash, op);
      ApplyConcat(origin, trace, [op]);
      flash := ApplyOp(flash, op);
      trace := trace + [op];
      buffer := PageOf([]);
    }

    // The page buffer is addressed by the offset within a page.
    method FillWord(address: nat, low: byte, high: byte)
      requires |buffer| == PAGE && address % 2 == 0
      modifies this`buffer
      ensures |buffer| == PAGE
      ensures buffer == old(buffer)[address % PAGE := low][address % PAGE + 1 := high]
    {
      buffer := buffer[address % PAGE := low];
      buffer := buffer[address % PAGE + 1 := high];
    }

    // ---------- Endpoints ----------

    // FetchNextCommandByte
    method Fetch() returns (ok: bool, b: byte)
      modifies this`packets
      ensures match Take(old(packets), 1)
        case Got(data, rest) => ok && b == data[0] && packets == rest
        case Dry => !ok
    {
      b := 0;
      while packets != [] && packets[0] == []
        invariant Take(packets, 1) == Take(old(packets), 1)
        decreases |packets|
      {
        packets := packets[1..];
      }
      if packets == [] {
        return false, 0;
      }
      b := packets[0][0];
      packets := [packets[0][1..]] + packets[1..];
      ok := true;
    }

    // WriteNextResponseByte
    method Respond(b: byte) returns (ok: bool)
      modifies this`room, this`output
      ensures ok <==> old(room) > 0
      ensures ok ==> room == old(room) - 1 && output == old(output) + [b]
    {
      if room == 0 {
        return false;
      }
      room := room - 1;
      output := output + [b];
      ok := true;
    }

    method RespondAll(response: seq<byte>) returns (ok: bool)
      modifies this`room, this`output
      ensures ok <==> old(room) >= |response|
      ensures ok ==> room == old(room) - |response| && output == old(output) + response
    {
      var i := 0;
      ok := true;
      while i < |response|
        invariant 0 <= i <= |response| && old(room) >= i && ok
        invariant room == old(room) - i && output == old(output) + response[..i]
      {
        assert response[..i + 1] == response[..i] + [response[i]];
        assert old(output) + response[..i] + [response[i]] == old(output) + response[..i + 1];
        ok := Respond(response[i]);
        if !ok {
          return;
        }
        i := i + 1;
      }
      assert response[..i] == response;
    }

    // ---------- Commands ----------

    // The state after an answer, or when the host falls silent on the way.
    twostate predicate Answered(answer: Answer, ok: bool)
      reads this
    {
      && Sane() && trace == old(trace) + answer.ops
      && ok == (answer.Answer? && |answer.response| <= old(room))
      && (ok ==>
          && currAddress == answer.current && packets == answer.rest
          && room == old(room) - |answer.response| && output == old(output) + answer.response
          && runBootloader == (old(runBootloader) && !answer.exit))
    }

    // CDC_Task. The functions it calls do not return when the host fails them.
    method CdcTask()
      requires Alive() && packets != []
      modifies this
      ensures Sane() && bootTicks == old(bootTicks)
      ensures var r := Serve(old(flash), old(currAddress), old(packets), old(room));
        && trace == old(trace) + r.ops
        && (r.Broken? ==> place == Dead && magicBootKey == 0)
        && (r.Done? ==>
            && place == InLoop && magicBootKey == old(magicBootKey)
            && currAddress == r.current && packets == r.rest && output == old(output) + r.response
            && runBootloader == (old(runBootloader) && !r.exit) && stayInBootloader)
    {
      hide Stored, Dispatch, Take;
      assert trace + [] == trace;
      var ok, command := Fetch();
      if ok {
        stayInBootloader := true;
        ok := Command(command);
      }
      if !ok || room == 0 {
        ResetAfterTransferFailure();
        return;
      }
      room := room - 1;
      if packets != [] {
        packets := packets[1..];
      }
    }

    method Command(command: byte) returns (ok: bool)
      requires Sane()
      modifies this`flash, this`buffer, this`trace, this`currAddress, this`runBootloader
      modifies this`packets, this`room, this`output
      ensures Answered(Dispatch(old(flash), old(currAddress), command, old(packets)), ok)
    {
      hide Stored, Take, Block, EraseOps;
      assert trace + [] == trace;
      var c: int := command;
      if c == 'E' as int {
        runBootloader := false;
        ok := RespondAll([CR]);
      } else if c == 'x' as int || c == 'y' as int || c == 'T' as int {
        var b: byte;
        ok, b := Fetch();
        if !ok {
          return;
        }
        ok := RespondAll([CR]);
      } else if c == 'A' as int {
        ok := SetAddress();
      } else if c == 'e' as int {
        EraseApplication();
        ok := RespondAll([CR]);
      } else if c == 'B' as int || c == 'g' as int {
        ok := ReadWriteMemoryBlock(command);
      } else {
        ok := Inquire(command);
      }
    }

    // The commands that are only answered.
    method Inquire(command: byte) returns (ok: bool)
      requires Sane() && !IsAction(command)
      modifies this`room, this`output
      ensures Answered(Dispatch(old(flash), old(currAddress), command, old(packets)), ok)
    {
      hide Stored, Take, Block, EraseOps;
      assert trace + [] == trace;
      var c: int := command;
      if c == 'P' as int || c == 'L' as int {
        ok := RespondAll([CR]);
      } else if c == 't' as int {
        ok := RespondAll([0x44, 0]);
      } else if c == 'a' as int {
        ok := RespondAll(['Y' as int]);
      } else if c == 'p' as int {
        ok := RespondAll(['S' as int]);
      } else if c == 'S' as int {
        ok := RespondAll(IDENTIFIER);
      } else if c == 'V' as int {
        ok := RespondAll(['1' as int, '0' as int]);
      } else if c == 's' as int {
        ok := RespondAll([0x87, 0x95, 0x1e]);
      } else if c == 'b' as int {
        ok := RespondAll(['Y' as int, PAGE / 0x100, PAGE % 0x100]);
      } else if c != SYNC {
        ok := RespondAll([QUERY]);
      } else {
        ok := RespondAll([]);
      }
    }

    method SetAddress() returns (ok: bool)
      requires Sane()
      modifies this`currAddress, this`packets, this`room, this`output
      ensures Answered(Dispatch(old(flash), old(currAddress), 'A' as int, old(packets)), ok)
    {
      hide Stored, Dispatch, Take;
      assert trace + [] == trace;
      TakeMore(packets, 1, 1);
      AddressOnly(flash, currAddress, packets);
      var high: byte, low: byte;
      ok, high := Fetch();
      if !ok {
        return;
      }
      currAddress := 0x200 * high;
      ok, low := Fetch();
      if !ok {
        return;
      }
      currAddress := currAddress + 2 * low;
      ok := RespondAll([CR]);
    }

    method EraseApplication()
      requires Sane()
      modifies this`flash, this`buffer, this`trace
      ensures Sane() && trace == old(trace) + EraseOps(PAGES)
    {
      hide Stored;
      var n := 0;
      assert trace + [] == trace;
      while n < PAGES
        invariant 0 <= n <= PAGES
        invariant Sane() && trace == old(trace) + EraseOps(n)
      {
        assert PageValid(PAGE * n);
        assert old(trace) + EraseOps(n) + [Erase(PAGE * n)] == old(trace) + EraseOps(n + 1);
        ErasePage(PAGE * n);
        n := n + 1;
      }
    }

    method ReadWriteMemoryBlock(command: byte) returns (ok: bool)
      requires Sane()
      modifies this`flash, this`buffer, this`trace, this`currAddress
      modifies this`packets, this`room, this`output
      ensures Answered(Block(old(flash), old(currAddress), command, old(packets)), ok)
    {
      hide Stored, Malformed, ReadBack, BlockWrite, BlockErase, Counter;
      assert trace + [] == trace;
      var head: seq<byte>;
      ok, head := FetchAll(3);
      if !ok {
        return;
      }
      var size := BigEndian(head[0], head[1]);
      if head[2] != 'F' as int {
        ok := RespondAll([QUERY]);
        return;
      }
      if command == 'B' as int && Malformed(currAddress, size) {
        var ignored: seq<byte>;
        ok, ignored := FetchAll(size);
        if !ok {
          return;
        }
        ok := RespondAll([QUERY]);
        return;
      }
      if command == 'B' as int {
        ok := WriteBlock(size);
      } else {
        ok := ReadBlock(size);
      }
    }

    // Octets fetched one after another.
    method FetchAll(n: nat) returns (ok: bool, data: seq<byte>)
      modifies this`packets
      ensures match Take(old(packets), n)
        case Got(d, rest) => ok && data == d && packets == rest
        case Dry => !ok
    {
      data := [];
      ok := true;
      var i := 0;
      assert Take(packets, 0) == Got([], packets);
      hide Take;
      while i < n
        invariant 0 <= i <= n && ok
        invariant |data| == i && Take(old(packets), i) == Got(data, packets)
      {
        TakeNext(old(packets), data, packets, n);
        var b: byte;
        ok, b := Fetch();
        if !ok {
          return;
        }
        data := data + [b];
        i := i + 1;
      }
    }

    // The octets of flash, two for every step of the address counter.
    method ReadBlock(size: nat) returns (ok: bool)
      requires Sane()
      modifies this`currAddress, this`room, this`output
      ensures Sane()
      ensures ok <==> size <= old(room)
      ensures ok ==>
        && currAddress == Counting(old(currAddress), size)
        && room == old(room) - size && output == old(output) + ReadBack(flash, old(currAddress), size)
    {
      hide Stored, Counter, ReadBack, Counting, WordAddress, Odd, Cell;
      StartReading(flash, currAddress, output);
      var start := currAddress;
      ghost var before, space := output, room;
      var highByte := false;
      var i := 0;
      ok := true;
      while i < size
        invariant 0 <= i <= size && ok && highByte == Odd(i)
        invariant Sane() && currAddress == Counting(start, i)
        invariant i <= space && room == space - i
        invariant output == before + ReadBack(flash, start, i)
      {
        CountOn(start, i);
        SameCell(flash, start, i);
        ReadMore(before, flash, start, i);
        ok := SendOctet(highByte);
        if !ok {
          return;
        }
        highByte := !highByte;
        i := i + 1;
      }
    }

    method SendOctet(highByte: bool) returns (ok: bool)
      requires Sane()
      modifies this`currAddress, this`room, this`output
      ensures Sane()
      ensures ok <==> old(room) > 0
      ensures ok ==>
        && room == old(room) - 1
        && output == old(output) + [Cell(flash, old(currAddress) + if highByte then 1 else 0)]
        && currAddress == if highByte then Counter(old(currAddress) + 2) else old(currAddress)
    {
      ok := Respond(Cell(flash, currAddress + if highByte then 1 else 0));
      if ok && highByte {
        currAddress := Counter(currAddress + 2);
      }
    }

    method WriteBlock(size: nat) returns (ok: bool)
      requires Sane() && !Malformed(currAddress, size)
      modifies this`flash, this`buffer, this`trace, this`currAddress
      modifies this`packets, this`room, this`output
      ensures Sane()
      ensures match Take(old(packets), size)
        case Dry => !ok && trace == old(trace) + BlockErase(old(currAddress))
        case Got(data, rest) =>
          && trace == old(trace) + BlockWrite(old(currAddress), data)
          && ok == (old(room) >= 1)
          && (ok ==>
              && packets == rest
              && currAddress == Counter(old(currAddress) + size)
              && room == old(room) - 1 && output == old(output) + [CR])
    {
      hide Stored;
      var pageStart := currAddress;
      ghost var blank := PageOf([]);
      ErasePage(pageStart);
      ok := FillPage(size);
      if !ok {
        return;
      }
      ghost var fetched := Take(old(packets), size).data;
      WritePage(pageStart);
      assert PageValid(pageStart) ==>
        old(trace) + BlockWrite(pageStart, fetched)
          == old(trace) + BlockErase(pageStart) + [Write(pageStart, PageOf(fetched))];
      assert !PageValid(pageStart) ==> BlockWrite(pageStart, fetched) == BlockErase(pageStart);
      ok := RespondAll([CR]);
    }

    // The octets of a block into the page buffer, word by word.
    method FillPage(size: nat) returns (ok: bool)
      requires Sane() && !Malformed(currAddress, size)
      requires PageValid(currAddress) ==> buffer == PageOf([])
      modifies this`buffer, this`currAddress, this`packets
      ensures Sane()
      ensures !ok ==> Take(old(packets), size).Dry?
      ensures ok ==> Filled(old(currAddress), old(packets), size)
    {
      hide Take, PageOf, Words, Counting, Counter, Odd, Stored, PageValid;
      ghost var start, before := currAddress, packets;
      StartFilling(start, size, before);
      BeginFilling(start);
      hide *;
      ghost var data: seq<byte> := [];
      var highByte := false;
      var lowByte: byte := 0;
      var i := 0;
      while i < size
        invariant i == |data| <= size
        invariant Filling(start, before, data, highByte, lowByte)
      {
        var more, b := FetchOctet(start, before, data, highByte, lowByte, size);
        if !more {
          return false;
        }
        data := data + [b];
        if !highByte {
          lowByte := b;
        }
        highByte := !highByte;
        i := i + 1;
      }
      EndFilling(start, before, data, highByte, lowByte);
      ok := true;
    }

    // A complete block has been fetched.
    ghost predicate Filled(start: nat, before: seq<seq<byte>>, size: nat)
      reads this
    {
      && size <= PAGE && Take(before, size).Got? && packets == Take(before, size).rest
      && currAddress == Counter(start + size)
      && (PageValid(start) ==> buffer == PageOf(Take(before, size).data))
    }

    // The octets of a block that have been fetched are in the page buffer,
    // but for a low octet that waits for the high one.
    ghost predicate Filling(start: nat, before: seq<seq<byte>>, data: seq<byte>, highByte: bool, lowByte: byte)
      reads this
    {
      && |data| <= PAGE && Sane() && Take(before, |data|) == Got(data, packets)
      && currAddress == Counting(start, |data|)
      && highByte == Odd(|data|) && (highByte ==> lowByte == data[|data| - 1])
      && (PageValid(start) ==> buffer == PageOf(Words(data)))
    }

    lemma BeginFilling(start: nat)
      requires Sane() && start == currAddress && (PageValid(start) ==> buffer == PageOf([]))
      ensures Filling(start, packets, [], false, 0)
    {
      hide Stored, PageOf, PageValid;
    }

    lemma EndFilling(start: nat, before: seq<seq<byte>>, data: seq<byte>, highByte: bool, lowByte: byte)
      requires Filling(start, before, data, highByte, lowByte) && !Odd(|data|)
      requires Counting(start, |data|) == Counter(start + |data|)
      ensures Sane() && Filled(start, before, |data|)
    {
      AllWords(data);
      hide Stored, Take, Counting, PageOf, PageValid, Words;
    }

    method FetchOctet(ghost start: nat, ghost before: seq<seq<byte>>, ghost data: seq<byte>,
                      highByte: bool, lowByte: byte, ghost size: nat)
      returns (ok: bool, b: byte)
      requires |data| < size <= PAGE && Filling(start, before, data, highByte, lowByte)
      modifies this`buffer, this`currAddress, this`packets
      ensures Sane()
      ensures ok ==> Filling(start, before, data + [b], !highByte, if highByte then lowByte else b)
      ensures !ok ==> Take(before, size).Dry?
    {
      hide Stored, PageOf, PageValid, Take, Counting, Words, Odd;
      TakeNext(before, data, packets, size);
      CountOn(start, |data|);
      ok, b := Fetch();
      if !ok {
        return;
      }
      WordsOn(data, b);
      if highByte {
        FillWord(currAddress, lowByte, b);
        if PageValid(start) {
          InPage(start, |data|);
          WordFilled(data, b);
        }
        currAddress := Counter(currAddress + 2);
      }
    }
  }

  // Commands that do something, or that fetch more octets.
  predicate IsAction(command: byte) {
    var c: int := command;
    || c == 'E' as int || c == 'x' as int || c == 'y' as int || c == 'T' as int || c == 'A' as int
    || c == 'e' as int || c == 'B' as int || c == 'g' as int
  }

  // Fetching one octet more on the way to n of them.
  lemma TakeNext(packets: seq<seq<byte>>, data: seq<byte>, rest: seq<seq<byte>>, n: nat)
    requires |data| < n && Take(packets, |data|) == Got(data, rest)
    ensures Take(rest, 1).Got? ==> Take(packets, |data| + 1) == Got(data + Take(rest, 1).data, Take(rest, 1).rest)
    ensures Take(rest, 1).Dry? ==> Take(packets, n).Dry?
  {
    TakeMore(packets, |data|, 1);
    TakeMore(packets, |data| + 1, n - |data| - 1);
  }

  // ---------- The address counter ----------

  // The octets that make up whole words.
  function Words(data: seq<byte>): seq<byte> {
    data[..2 * (|data| / 2)]
  }

  // The counter moves on by words, and the low bit tells the octets of one apart.
  lemma CountOn(start: nat, i: nat)
    ensures Odd(i + 1) == !Odd(i)
    ensures Counting(start, i + 1) == if Odd(i) then Counter(Counting(start, i) + 2) else Counting(start, i)
  {
    assert 2 * ((i + 1) / 2) == 2 * (i / 2) + if Odd(i) then 2 else 0;
    CounterWraps(start + 2 * (i / 2));
  }

  lemma SameCell(flash: seq<byte>, start: nat, i: nat)
    requires |flash| == FLASH_SIZE
    ensures Cell(flash, Counting(start, i) + if Odd(i) then 1 else 0) == Cell(flash, start + i)
  {
    assert i == 2 * (i / 2) + if Odd(i) then 1 else 0;
    CounterWraps(start + 2 * (i / 2));
  }

  lemma CounterWraps(v: nat)
    ensures Counter(Counter(v) + 2) == Counter(v + 2)
    ensures Counter(v) % FLASH_SIZE == v % FLASH_SIZE && (Counter(v) + 1) % FLASH_SIZE == (v + 1) % FLASH_SIZE
  {
    var q, c := v / 0x1_0000_0000, Counter(v);
    assert v == 0x1_0000_0000 * q + c;
    WholeFlashes(c, 0x2_0000 * q);
    WholeFlashes(c + 1, 0x2_0000 * q);
    hide Counter;
    WholeRanges(c + 2, q);
  }

  lemma WholeFlashes(a: nat, k: nat)
    ensures (a + 0x8000 * k) % FLASH_SIZE == a % FLASH_SIZE
  {
  }

  lemma WholeRanges(a: nat, k: nat)
    ensures Counter(a + 0x1_0000_0000 * k) == Counter(a)
  {
  }

  lemma StartReading(flash: seq<byte>, start: nat, output: seq<byte>)
    requires |flash| == FLASH_SIZE && WordAddress(start)
    ensures Counting(start, 0) == start && output + ReadBack(flash, start, 0) == output && !Odd(0)
  {
  }

  lemma ReadMore(output: seq<byte>, flash: seq<byte>, start: nat, i: nat)
    requires |flash| == FLASH_SIZE
    ensures output + ReadBack(flash, start, i + 1) == output + ReadBack(flash, start, i) + [Cell(flash, start + i)]
  {
    assert ReadBack(flash, start, i + 1) == ReadBack(flash, start, i) + [Cell(flash, start + i)];
  }

  lemma StartFilling(start: nat, size: nat, packets: seq<seq<byte>>)
    requires WordAddress(start) && !Malformed(start, size)
    ensures Counting(start, 0) == start && Words([]) == [] && !Odd(0)
    ensures size <= PAGE && Take(packets, 0) == Got([], packets)
    ensures Counting(start, size) == Counter(start + size) && !Odd(size)
  {
    CounterStays(start);
    WholeWords(start, size);
  }

  lemma CounterStays(start: nat)
    requires WordAddress(start)
    ensures Counting(start, 0) == start && Words([]) == [] && !Odd(0)
  {
  }

  lemma WholeWords(start: nat, size: nat)
    requires size % 2 == 0
    ensures Counting(start, size) == Counter(start + size) && !Odd(size)
  {
    assert 2 * (size / 2) == size;
    hide Counter;
  }

  lemma AllWords(data: seq<byte>)
    requires !Odd(|data|)
    ensures Words(data) == data
  {
  }

  // Within a page the counter is the page's start plus the offset.
  lemma InPage(start: nat, i: nat)
    requires PageValid(start) && i < PAGE
    ensures Counting(start, i) % PAGE == 2 * (i / 2)
  {
    var page := start / PAGE;
    assert Counter(start + 2 * (i / 2)) == start + 2 * (i / 2);
    OffsetInPage(page, 2 * (i / 2));
  }

  lemma OffsetInPage(page: nat, offset: nat)
    requires offset < PAGE
    ensures (PAGE * page + offset) % PAGE == offset
  {
  }

  lemma WordsOn(data: seq<byte>, b: byte)
    ensures !Odd(|data|) ==> Words(data + [b]) == Words(data)
  {
  }

  lemma WordFilled(data: seq<byte>, b: byte)
    requires Odd(|data|) && |data| < PAGE
    ensures var k := 2 * (|data| / 2);
      PageOf(Words(data))[k := data[|data| - 1]][k + 1 := b] == PageOf(Words(data + [b]))
  {
    var k := 2 * (|data| / 2);
    assert |data| == k + 1;
    assert Words(data + [b]) == data[..k] + [data[k], b];
  }
}
