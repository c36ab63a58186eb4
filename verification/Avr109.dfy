// What one AVR109 command does to the bootloader (CDC_Task and
// ReadWriteMemoryBlock of firmware/bootloader/BootloaderCDC.c).
module Avr109 {
  import opened Octets
  import opened Application
  import opened AvrFlash

  // ---------- Octets from the host ----------

  // Octets taken from a sequence of packets and what is left of them, or Dry
  // when the host stops sending first.
  datatype Taken = Got(data: seq<byte>, rest: seq<seq<byte>>) | Dry

  function Take(packets: seq<seq<byte>>, n: nat): (t: Taken)
    ensures t.Got? ==> |t.data| == n
    decreases n, |packets|
  {
    if n == 0 then Got([], packets)
    else if packets == [] then Dry
    else if packets[0] == [] then Take(packets[1..], n)
    else
      match Take([packets[0][1..]] + packets[1..], n - 1)
      case Got(data, rest) => Got([packets[0][0]] + data, rest)
      case Dry => Dry
  }

  // Taking m octets and then n more.
  function TakeAgain(t: Taken, n: nat): Taken {
    match t
    case Got(data, rest) =>
      (match Take(rest, n)
       case Got(more, rest') => Got(data + more, rest')
       case Dry => Dry)
    case Dry => Dry
  }

  lemma {:induction false} TakeMore(packets: seq<seq<byte>>, m: nat, n: nat)
    ensures Take(packets, m + n) == TakeAgain(Take(packets, m), n)
    decreases m, |packets|
  {
    if m == 0 {
      var t := Take(packets, n);
      assert t.Got? ==> [] + t.data == t.data;
    } else if packets == [] {
    } else if packets[0] == [] {
      TakeMore(packets[1..], m, n);
    } else {
      var next := [packets[0][1..]] + packets[1..];
      TakeMore(next, m - 1, n);
      var first := [packets[0][0]];
      var t, u := Take(next, m - 1), Take(next, m + n - 1);
      assert u == TakeAgain(t, n);
      if t.Got? && Take(t.rest, n).Got? {
        assert first + (t.data + Take(t.rest, n).data) == first + t.data + Take(t.rest, n).data;
      }
    }
  }

  // How the host cuts its octets into packets does not matter.
  lemma {:induction false} TakeFlat(packets: seq<seq<byte>>, n: nat)
    ensures Take(packets, n).Got? <==> n <= |Flatten(packets)|
    ensures Take(packets, n).Got? ==>
      && Take(packets, n).data == Flatten(packets)[..n]
      && Flatten(Take(packets, n).rest) == Flatten(packets)[n..]
    decreases n, |packets|
  {
    if n == 0 || packets == [] {
    } else if packets[0] == [] {
      TakeFlat(packets[1..], n);
      assert Flatten(packets) == Flatten(packets[1..]);
    } else {
      var next := [packets[0][1..]] + packets[1..];
      assert next[1..] == packets[1..];
      TakeFlat(next, n - 1);
      assert Flatten(packets) == [packets[0][0]] + Flatten(next);
    }
  }

  // ---------- Commands ----------

  // What a command leads to once its octets are known: page operations, the
  // address counter, whether the bootloader exits, and the response; or the
  // page operations already made when the host fell silent.
  datatype Answer =
    | Answer(ops: seq<PageOp>, current: nat, exit: bool, response: seq<byte>, rest: seq<seq<byte>>)
    | Lost(ops: seq<PageOp>)

  const CR: byte := 13
  const QUERY: byte := '?' as int
  const SYNC: byte := 27
  const IDENTIFIER: seq<byte> :=
    ['P' as int, '2' as int, 'K' as int, 'B' as int, 'O' as int, 'O' as int, 'T' as int]

  // The address counter is a uint32_t.
  function Counter(v: nat): nat {
    v % 0x1_0000_0000
  }

  predicate Malformed(current: nat, size: nat) {
    size == 0 || size > PAGE || size % 2 == 1 || current % PAGE != 0 || Counter(current + size) > BOOT_START
  }

  // The address counter, which moves on by words, after i octets.
  function Counting(start: nat, i: nat): nat {
    Counter(start + 2 * (i / 2))
  }

  // pgm_read_byte; addresses past the end of flash wrap around.
  function Cell(flash: seq<byte>, address: nat): byte
    requires |flash| == FLASH_SIZE
  {
    flash[address % FLASH_SIZE]
  }

  // The octets of a block read.
  function ReadBack(flash: seq<byte>, from: nat, n: nat): (r: seq<byte>)
    requires |flash| == FLASH_SIZE
    ensures |r| == n
  {
    seq<byte>(n, i requires 0 <= i < n => Cell(flash, from + i))
  }

  // The erase of a block write; nothing is erased at the one address above the
  // application section that comes this far (see RangeCheckIff).
  function BlockErase(current: nat): (ops: seq<PageOp>)
    ensures AllSound(ops)
  {
    if PageValid(current) then [Erase(current)] else []
  }

  function BlockWrite(current: nat, data: seq<byte>): (ops: seq<PageOp>)
    requires |data| <= PAGE
    ensures AllSound(ops)
  {
    if PageValid(current) then BlockOps(current, data) else []
  }

  function Block(flash: seq<byte>, current: nat, command: byte, packets: seq<seq<byte>>): (r: Answer)
    requires |flash| == FLASH_SIZE
    ensures AllSound(r.ops)
  {
    match Take(packets, 3)
    case Dry => Lost([])
    case Got(head, rest) =>
      var size := BigEndian(head[0], head[1]);
      if head[2] != 'F' as int then
        Answer([], current, false, [QUERY], rest)
      else if command == 'B' as int && Malformed(current, size) then
        (match Take(rest, size)
         case Dry => Lost([])
         case Got(_, after) => Answer([], current, false, [QUERY], after))
      else if command == 'B' as int then
        (match Take(rest, size)
         case Dry => Lost(BlockErase(current))
         case Got(data, after) => Answer(BlockWrite(current, data), Counter(current + size), false, [CR], after))
      else
        Answer([], Counting(current, size), false, ReadBack(flash, current, size), rest)
  }

  function Fixed(current: nat, response: seq<byte>, rest: seq<seq<byte>>): Answer {
    Answer([], current, false, response, rest)
  }

  // The command octet has been taken.
  function Dispatch(flash: seq<byte>, current: nat, command: byte, packets: seq<seq<byte>>): (r: Answer)
    requires |flash| == FLASH_SIZE
    ensures AllSound(r.ops)
  {
    var c: int := command;
    if c == 'E' as int then
      Answer([], current, true, [CR], packets)
    else if c == 'x' as int || c == 'y' as int || c == 'T' as int then
      (match Take(packets, 1)
       case Dry => Lost([])
       case Got(_, rest) => Fixed(current, [CR], rest))
    else if c == 'P' as int || c == 'L' as int then Fixed(current, [CR], packets)
    else if c == 't' as int then Fixed(current, [0x44, 0], packets)
    else if c == 'a' as int then Fixed(current, ['Y' as int], packets)
    else if c == 'A' as int then
      (match Take(packets, 2)
       case Dry => Lost([])
       case Got(word, rest) => Fixed(2 * BigEndian(word[0], word[1]), [CR], rest))
    else if c == 'p' as int then Fixed(current, ['S' as int], packets)
    else if c == 'S' as int then Fixed(current, IDENTIFIER, packets)
    else if c == 'V' as int then Fixed(current, ['1' as int, '0' as int], packets)
    else if c == 's' as int then Fixed(current, [0x87, 0x95, 0x1e], packets)
    else if c == 'e' as int then Answer(EraseOps(PAGES), current, false, [CR], packets)
    else if c == 'b' as int then Fixed(current, ['Y' as int, 0, PAGE], packets)
    else if c == 'B' as int || c == 'g' as int then Block(flash, current, command, packets)
    else if c != SYNC then Fixed(current, [QUERY], packets)
    else Fixed(current, [], packets)
  }

  // The whole task: the command octet, the command, its response, and the
  // rest of the packet thrown away. The host takes `room` octets of the
  // response, the final flush counting as one more.
  datatype Outcome =
    | Done(ops: seq<PageOp>, current: nat, exit: bool, response: seq<byte>, rest: seq<seq<byte>>)
    | Broken(ops: seq<PageOp>)

  function Serve(flash: seq<byte>, current: nat, packets: seq<seq<byte>>, room: nat): (r: Outcome)
    requires |flash| == FLASH_SIZE
    ensures AllSound(r.ops)
  {
    match Take(packets, 1)
    case Dry => Broken([])
    case Got(command, rest) =>
      match Dispatch(flash, current, command[0], rest)
      case Lost(ops) => Broken(ops)
      case Answer(ops, next, exit, response, after) =>
        if |response| < room then Done(ops, next, exit, response, if after == [] then [] else after[1..])
        else Broken(ops)
  }

  // ---------- Commands of an upload ----------

  function AddressCommand(page: nat): seq<byte>
    requires page < PAGES
  {
    ['A' as int, 64 * page / 0x100, 64 * page % 0x100]
  }

  function WriteCommand(data: seq<byte>): seq<byte>
    requires |data| == PAGE
  {
    ['B' as int, 0, PAGE, 'F' as int] + data
  }

  function ReadCommand(size: nat): seq<byte>
    requires size < 0x1_0000
  {
    ['g' as int, size / 0x100, size % 0x100, 'F' as int]
  }

  lemma FirstOctet(packets: seq<seq<byte>>)
    requires Flatten(packets) != []
    ensures Take(packets, 1).Got?
    ensures Take(packets, 1).data == [Flatten(packets)[0]]
    ensures Flatten(Take(packets, 1).rest) == Flatten(packets)[1..]
  {
    TakeFlat(packets, 1);
  }

  // What the address command does.
  lemma AddressOnly(flash: seq<byte>, current: nat, packets: seq<seq<byte>>)
    requires |flash| == FLASH_SIZE
    ensures Dispatch(flash, current, 'A' as int, packets) ==
      match Take(packets, 2)
      case Dry => Lost([])
      case Got(word, rest) => Fixed(2 * BigEndian(word[0], word[1]), [CR], rest)
  {
  }

  lemma DispatchErase(flash: seq<byte>, current: nat, packets: seq<seq<byte>>)
    requires |flash| == FLASH_SIZE
    ensures Dispatch(flash, current, 'e' as int, packets) == Answer(EraseOps(PAGES), current, false, [CR], packets)
  {
  }

  lemma PageWord(page: nat)
    requires page < PAGES
    ensures 2 * BigEndian(64 * page / 0x100, 64 * page % 0x100) == PAGE * page
  {
  }

  // An address command, however it is cut into packets.
  lemma AddressServed(flash: seq<byte>, current: nat, packets: seq<seq<byte>>, room: nat, page: nat)
    requires |flash| == FLASH_SIZE && page < PAGES
    requires Flatten(packets) == AddressCommand(page) && room >= 2
    ensures var r := Serve(flash, current, packets, room);
      r.Done? && r.ops == [] && r.current == PAGE * page && !r.exit && r.response == [13]
  {
    FirstOctet(packets);
    var rest := Take(packets, 1).rest;
    TakeFlat(rest, 2);
    var word := Take(rest, 2).data;
    assert word == [64 * page / 0x100, 64 * page % 0x100];
    PageWord(page);
    AddressOnly(flash, current, rest);
    hide Take, Flatten, BigEndian, Dispatch;
  }

  lemma DispatchBlock(flash: seq<byte>, current: nat, command: byte, packets: seq<seq<byte>>)
    requires |flash| == FLASH_SIZE && (command == 'B' as int || command == 'g' as int)
    ensures Dispatch(flash, current, command, packets) == Block(flash, current, command, packets)
  {
  }

  lemma PageFits(page: nat)
    requires page < PAGES
    ensures PageValid(PAGE * page) && !Malformed(PAGE * page, PAGE)
    ensures Counter(PAGE * page + PAGE) == PAGE * (page + 1)
  {
  }

  lemma PageWritten(flash: seq<byte>, packets: seq<seq<byte>>, page: nat, data: seq<byte>)
    requires |flash| == FLASH_SIZE && page < PAGES && |data| == PAGE
    requires Flatten(packets) == [0, PAGE, 'F' as int] + data
    ensures PageValid(PAGE * page)
    ensures var r := Block(flash, PAGE * page, 'B' as int, packets);
      r.Answer? && r == Answer(BlockOps(PAGE * page, data), PAGE * (page + 1), false, [CR], r.rest)
  {
    TakeFlat(packets, 3);
    var after := Take(packets, 3).rest;
    TakeFlat(after, PAGE);
    assert Take(packets, 3).data == [0, PAGE, 'F' as int];
    assert Take(after, PAGE).data == data;
    PageFits(page);
    assert BigEndian(0, PAGE) == PAGE;
    hide Take, Flatten, BlockOps, Counter, Malformed, PageValid, BigEndian;
    var r := Block(flash, PAGE * page, 'B' as int, packets);
    assert r == Answer(BlockOps(PAGE * page, data), PAGE * (page + 1), false, [CR], Take(after, PAGE).rest);
  }

  // A page write at a page of the application section.
  lemma WriteServed(flash: seq<byte>, packets: seq<seq<byte>>, room: nat, page: nat, data: seq<byte>)
    requires |flash| == FLASH_SIZE && page < PAGES && |data| == PAGE
    requires Flatten(packets) == WriteCommand(data) && room >= 2
    ensures PageValid(PAGE * page)
    ensures var r := Serve(flash, PAGE * page, packets, room);
      && r.Done? && r.ops == BlockOps(PAGE * page, data)
      && r.current == PAGE * (page + 1) && !r.exit && r.response == [13]
  {
    FirstOctet(packets);
    var rest := Take(packets, 1).rest;
    assert Flatten(rest) == [0, PAGE, 'F' as int] + data;
    PageWritten(flash, rest, page, data);
    DispatchBlock(flash, PAGE * page, 'B' as int, rest);
    hide Take, Flatten, BlockOps, Block, Dispatch;
  }

  // The sum of a block write's range check wraps as well: a full page at the
  // last addresses of the counter is accepted, and changes nothing.
  lemma WrappedWriteAccepted(flash: seq<byte>, packets: seq<seq<byte>>, room: nat, data: seq<byte>)
    requires |flash| == FLASH_SIZE && |data| == PAGE
    requires Flatten(packets) == WriteCommand(data) && room >= 2
    ensures var r := Serve(flash, 0xffff_ff80, packets, room);
      r.Done? && r.ops == [] && r.current == 0 && r.response == [13]
  {
    FirstOctet(packets);
    var rest := Take(packets, 1).rest;
    assert Flatten(rest) == [0, PAGE, 'F' as int] + data;
    WrappedWrite(flash, rest, data);
    DispatchBlock(flash, 0xffff_ff80, 'B' as int, rest);
    hide Take, Flatten, BlockOps, Block, Dispatch;
  }

  lemma WrappedWrite(flash: seq<byte>, packets: seq<seq<byte>>, data: seq<byte>)
    requires |flash| == FLASH_SIZE && |data| == PAGE
    requires Flatten(packets) == [0, PAGE, 'F' as int] + data
    ensures var r := Block(flash, 0xffff_ff80, 'B' as int, packets);
      r.Answer? && r == Answer([], 0, false, [CR], r.rest)
  {
    TakeFlat(packets, 3);
    var after := Take(packets, 3).rest;
    TakeFlat(after, PAGE);
    assert Take(packets, 3).data == [0, PAGE, 'F' as int];
    assert !Malformed(0xffff_ff80, PAGE) && Counter(0xffff_ff80 + PAGE) == 0;
    assert BlockWrite(0xffff_ff80, Take(after, PAGE).data) == [];
    hide Take, Flatten, BlockWrite, Counter, Malformed;
  }

  // An exit command.
  lemma ExitServed(flash: seq<byte>, current: nat, packets: seq<seq<byte>>, room: nat)
    requires |flash| == FLASH_SIZE && Flatten(packets) == ['E' as int] && room >= 2
    ensures var r := Serve(flash, current, packets, room);
      r.Done? && r.ops == [] && r.exit && r.current == current && r.response == [13]
  {
    FirstOctet(packets);
    hide Take, Flatten, Block;
  }

  // An erase command.
  lemma EraseServed(flash: seq<byte>, current: nat, packets: seq<seq<byte>>, room: nat)
    requires |flash| == FLASH_SIZE && Flatten(packets) == ['e' as int] && room >= 2
    ensures var r := Serve(flash, current, packets, room);
      r.Done? && r.ops == EraseOps(PAGES) && r.current == current && !r.exit && r.response == [13]
  {
    FirstOctet(packets);
    DispatchErase(flash, current, Take(packets, 1).rest);
    hide Take, Flatten, EraseOps, Dispatch;
  }

  lemma CellInside(flash: seq<byte>, address: nat)
    requires |flash| == FLASH_SIZE && address < FLASH_SIZE
    ensures Cell(flash, address) == flash[address]
  {
  }

  lemma ReadBackInside(flash: seq<byte>, from: nat, n: nat)
    requires |flash| == FLASH_SIZE && from + n <= FLASH_SIZE
    ensures ReadBack(flash, from, n) == flash[from..from + n]
  {
    forall i | 0 <= i < n
      ensures ReadBack(flash, from, n)[i] == flash[from..from + n][i]
    {
      CellInside(flash, from + i);
      assert ReadBack(flash, from, n)[i] == Cell(flash, from + i);
    }
  }

  lemma BlockRead(flash: seq<byte>, current: nat, packets: seq<seq<byte>>, size: nat)
    requires |flash| == FLASH_SIZE && size < 0x1_0000
    requires Flatten(packets) == [size / 0x100, size % 0x100, 'F' as int]
    ensures var r := Block(flash, current, 'g' as int, packets);
      r.Answer? && r == Answer([], Counting(current, size), false, ReadBack(flash, current, size), r.rest)
  {
    TakeFlat(packets, 3);
    assert Take(packets, 3).data == [size / 0x100, size % 0x100, 'F' as int];
    hide Take, Flatten, Counting, Malformed, ReadBack;
    assert Block(flash, current, 'g' as int, packets)
      == Answer([], Counting(current, size), false, ReadBack(flash, current, size), Take(packets, 3).rest);
  }

  // A block read anywhere moves the counter on, by whole words.
  lemma ReadMovesOn(flash: seq<byte>, current: nat, packets: seq<seq<byte>>, room: nat, size: nat)
    requires |flash| == FLASH_SIZE && size < 0x1_0000
    requires Flatten(packets) == ReadCommand(size) && room > size
    ensures var r := Serve(flash, current, packets, room);
      && r.Done? && r.ops == [] && !r.exit
      && r.response == ReadBack(flash, current, size) && r.current == Counting(current, size)
  {
    FirstOctet(packets);
    var rest := Take(packets, 1).rest;
    assert Flatten(rest) == [size / 0x100, size % 0x100, 'F' as int];
    BlockRead(flash, current, rest, size);
    DispatchBlock(flash, current, 'g' as int, rest);
    hide Take, Flatten, Block, Dispatch, Counting, ReadBack;
  }

  // A block read inside flash returns flash and changes none of it.
  lemma ReadServed(flash: seq<byte>, current: nat, packets: seq<seq<byte>>, room: nat, size: nat)
    requires |flash| == FLASH_SIZE && size < 0x1_0000 && current + size <= FLASH_SIZE
    requires Flatten(packets) == ReadCommand(size) && room > size
    ensures var r := Serve(flash, current, packets, room);
      r.Done? && r.ops == [] && r.response == flash[current..current + size] && r.current == current + 2 * (size / 2)
  {
    assert Counting(current, size) == current + 2 * (size / 2);
    hide Serve, Counting, ReadBack, Flatten, ReadCommand;
    ReadMovesOn(flash, current, packets, room, size);
    ReadBackInside(flash, current, size);
  }

  // ---------- The range check of a block write ----------

  const TOP_PAGE: nat := 0xffff_ff80

  // A block write comes past the check exactly for one to a page of whole
  // words, at a page that starts the application section or lies within it, or
  // for a full page at the last address of the counter, where the sum wraps.
  // The pages are changed exactly in the first case.
  lemma RangeCheckIff(current: nat, size: nat)
    requires current < 0x1_0000_0000
    ensures !Malformed(current, size) <==>
      && 0 < size <= PAGE && size % 2 == 0 && current % PAGE == 0
      && (current + size <= BOOT_START || (current == TOP_PAGE && size == PAGE))
    ensures !Malformed(current, size) ==> (PageValid(current) <==> current + size <= BOOT_START)
  {
    if current % PAGE == 0 && 0 < size <= PAGE {
      if current + size >= 0x1_0000_0000 {
        PageOfTop(current / PAGE, size);
      } else {
        assert Counter(current + size) == current + size;
      }
      PageOfSection(current / PAGE, size);
    }
  }

  // Only the last page reaches the top of the counter.
  lemma PageOfTop(page: nat, size: nat)
    requires PAGE * page < 0x1_0000_0000 <= PAGE * page + size && size <= PAGE
    ensures PAGE * page == TOP_PAGE && size == PAGE && Counter(PAGE * page + size) == 0
  {
  }

  lemma PageOfSection(page: nat, size: nat)
    requires 0 < size <= PAGE
    ensures PAGE * page + size <= BOOT_START <==> PAGE * page < BOOT_START
  {
  }
}
