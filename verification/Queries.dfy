// What the bootloader answers to the commands that only ask, and to those that
// it refuses, as the host sees it.
module Queries {
  import opened Octets
  import opened Application
  import opened AvrFlash
  import opened Avr109

  // Whatever is in flash, wherever the counter stands and however the octets
  // are cut into packets: this is the answer, and nothing else happens.
  ghost predicate OnlyAnswers(octets: seq<byte>, response: seq<byte>) {
    forall flash, current, packets, room |
      |flash| == FLASH_SIZE && Flatten(packets) == octets && room > |response| ::
        var r := Serve(flash, current, packets, room);
        r.Done? && r.ops == [] && r.current == current && !r.exit && r.response == response
  }

  // A command of one octet.
  lemma OneOctet(c: byte, response: seq<byte>)
    requires forall flash, current, packets | |flash| == FLASH_SIZE ::
      Dispatch(flash, current, c, packets) == Answer([], current, false, response, packets)
    ensures OnlyAnswers([c], response)
  {
    hide Dispatch;
    forall flash, current, packets, room |
      |flash| == FLASH_SIZE && Flatten(packets) == [c] && room > |response|
      ensures var r := Serve(flash, current, packets, room);
        r.Done? && r.ops == [] && r.current == current && !r.exit && r.response == response
    {
      FirstOctet(packets);
      hide Take, Flatten;
    }
  }

  // What the desktop application asks before it uploads: "P2KBOOT", the
  // signature of the ATmega32U4 with its last octet first, and blocks of 0x80.
  lemma DesktopAsks()
    ensures OnlyAnswers(['S' as int], [0x50, 0x32, 0x4b, 0x42, 0x4f, 0x4f, 0x54])
    ensures OnlyAnswers(['s' as int], [0x87, 0x95, 0x1e])
    ensures OnlyAnswers(['b' as int], [0x59, 0, 0x80])
  {
    hide Take, Block, EraseOps;
    OneOctet('S' as int, [0x50, 0x32, 0x4b, 0x42, 0x4f, 0x4f, 0x54]);
    OneOctet('s' as int, [0x87, 0x95, 0x1e]);
    OneOctet('b' as int, [0x59, 0, 0x80]);
  }

  // Part code, address increment, interface, version, and the two programming
  // modes.
  lemma OthersAsk()
    ensures OnlyAnswers(['t' as int], [0x44, 0])
    ensures OnlyAnswers(['a' as int], [0x59])
    ensures OnlyAnswers(['p' as int], [0x53])
    ensures OnlyAnswers(['V' as int], [0x31, 0x30])
    ensures OnlyAnswers(['P' as int], [13]) && OnlyAnswers(['L' as int], [13])
  {
    hide Take, Block, EraseOps;
    OneOctet('t' as int, [0x44, 0]);
    OneOctet('a' as int, [0x59]);
    OneOctet('p' as int, [0x53]);
    OneOctet('V' as int, [0x31, 0x30]);
    OneOctet('P' as int, [13]);
    OneOctet('L' as int, [13]);
  }

  predicate Known(c: byte) {
    var x: int := c;
    x in {'E' as int, 'x' as int, 'y' as int, 'T' as int, 'P' as int, 'L' as int, 't' as int, 'a' as int, 'A' as int,
          'p' as int, 'S' as int, 'V' as int, 's' as int, 'e' as int, 'b' as int, 'B' as int, 'g' as int}
  }

  // The synchronisation octet is not answered; what is not known is answered
  // with a question mark.
  lemma UnknownCommand(c: byte)
    requires !Known(c)
    ensures OnlyAnswers([c], if c == 27 then [] else [0x3f])
  {
    hide Take, Block, EraseOps;
    OneOctet(c, if c == 27 then [] else [0x3f]);
  }

  // The commands for LEDs and device type take one more octet, whatever it is.
  lemma OctetIgnored(c: byte, b: byte)
    requires c == 'x' as int || c == 'y' as int || c == 'T' as int
    ensures OnlyAnswers([c, b], [13])
  {
    forall flash, current, packets, room |
      |flash| == FLASH_SIZE && Flatten(packets) == [c, b] && room > 1
      ensures var r := Serve(flash, current, packets, room);
        r.Done? && r.ops == [] && r.current == current && !r.exit && r.response == [13]
    {
      FirstOctet(packets);
      var rest := Take(packets, 1).rest;
      assert Flatten(rest) == [b];
      FirstOctet(rest);
      hide Take, Flatten, Dispatch;
      ExtraOctet(flash, current, c, rest);
    }
  }

  lemma ExtraOctet(flash: seq<byte>, current: nat, c: byte, packets: seq<seq<byte>>)
    requires |flash| == FLASH_SIZE && (c == 'x' as int || c == 'y' as int || c == 'T' as int)
    requires Take(packets, 1).Got?
    ensures Dispatch(flash, current, c, packets) == Answer([], current, false, [13], Take(packets, 1).rest)
  {
    hide Take, Block, EraseOps;
  }

  // A block of another memory than flash is refused after its header.
  lemma OtherMemory(c: byte, high: byte, low: byte, kind: byte)
    requires (c == 'B' as int || c == 'g' as int) && kind != 'F' as int
    ensures OnlyAnswers([c, high, low, kind], [0x3f])
  {
    forall flash, current, packets, room |
      |flash| == FLASH_SIZE && Flatten(packets) == [c, high, low, kind] && room > 1
      ensures var r := Serve(flash, current, packets, room);
        r.Done? && r.ops == [] && r.current == current && !r.exit && r.response == [0x3f]
    {
      FirstOctet(packets);
      var rest := Take(packets, 1).rest;
      assert Flatten(rest) == [high, low, kind];
      TakeFlat(rest, 3);
      DispatchBlock(flash, current, c, rest);
      hide Take, Flatten, Dispatch, Malformed;
    }
  }

  // What the range check refuses, with the header and all octets of the block.
  predicate Refused(current: nat, size: nat) {
    || size == 0 || size > 128 || size % 2 == 1 || current % 128 != 0
    || (current + size > 0x7000 && !(current == 0xffff_ff80 && size == 128))
  }

  // A malformed block write takes exactly its octets, and what follows is left
  // for the next command; it is answered with a question mark and no page is
  // touched.
  lemma MalformedWrite(flash: seq<byte>, current: nat, packets: seq<seq<byte>>, data: seq<byte>, more: seq<byte>)
    requires |flash| == FLASH_SIZE && current < 0x1_0000_0000 && |data| < 0x1_0000 && Refused(current, |data|)
    requires Flatten(packets) == [|data| / 0x100, |data| % 0x100, 'F' as int] + data + more
    ensures var r := Dispatch(flash, current, 'B' as int, packets);
      r.Answer? && r == Answer([], current, false, [0x3f], r.rest) && Flatten(r.rest) == more
  {
    var size := |data|;
    RangeCheckIff(current, size);
    DispatchBlock(flash, current, 'B' as int, packets);
    TakeFlat(packets, 3);
    var after := Take(packets, 3).rest;
    assert Take(packets, 3).data == [size / 0x100, size % 0x100, 'F' as int];
    assert Flatten(after) == data + more;
    TakeFlat(after, size);
    assert Flatten(Take(after, size).rest) == more;
    hide Take, Flatten, Dispatch, Malformed;
  }

  // The same, as a whole task of the bootloader.
  lemma MalformedWriteAnswered(flash: seq<byte>, current: nat, packets: seq<seq<byte>>, room: nat, data: seq<byte>)
    requires |flash| == FLASH_SIZE && current < 0x1_0000_0000 && |data| < 0x1_0000 && Refused(current, |data|)
    requires Flatten(packets) == ['B' as int, |data| / 0x100, |data| % 0x100, 'F' as int] + data && room > 1
    ensures var r := Serve(flash, current, packets, room);
      r.Done? && r.ops == [] && r.current == current && !r.exit && r.response == [0x3f]
  {
    FirstOctet(packets);
    var rest := Take(packets, 1).rest;
    assert Flatten(rest) == [|data| / 0x100, |data| % 0x100, 'F' as int] + data + [];
    MalformedWrite(flash, current, rest, data, []);
    hide Take, Flatten, Dispatch;
  }

  // With fewer octets than announced it is never answered, and touches no page.
  lemma MalformedWriteWaits(flash: seq<byte>, current: nat, packets: seq<seq<byte>>, room: nat, size: nat,
                            data: seq<byte>)
    requires |flash| == FLASH_SIZE && current < 0x1_0000_0000 && |data| < size < 0x1_0000 && Refused(current, size)
    requires Flatten(packets) == ['B' as int, size / 0x100, size % 0x100, 'F' as int] + data
    ensures Serve(flash, current, packets, room) == Broken([])
  {
    FirstOctet(packets);
    var rest := Take(packets, 1).rest;
    assert Flatten(rest) == [size / 0x100, size % 0x100, 'F' as int] + data;
    RangeCheckIff(current, size);
    DispatchBlock(flash, current, 'B' as int, rest);
    TakeFlat(rest, 3);
    var after := Take(rest, 3).rest;
    assert Take(rest, 3).data == [size / 0x100, size % 0x100, 'F' as int];
    assert Flatten(after) == data;
    TakeFlat(after, size);
    hide Take, Flatten, Dispatch, Malformed;
  }

  // What follows a command in its packet is thrown away with it; the packets
  // behind it are not touched.
  lemma RestOfPacketDropped(flash: seq<byte>, current: nat, c: byte, junk: seq<byte>, more: seq<seq<byte>>, room: nat)
    requires |flash| == FLASH_SIZE && room > 7
    requires c == 'S' as int || c == 's' as int || c == 'b' as int || c == 't' as int || c == 'a' as int
             || c == 'p' as int || c == 'V' as int || c == 'P' as int || c == 'L' as int || !Known(c)
    ensures var r := Serve(flash, current, [[c] + junk] + more, room); r.Done? && r.rest == more
  {
    var packets := [[c] + junk] + more;
    FirstOfPacket(c, junk, more);
    hide Take, Block, EraseOps;
  }

  lemma FirstOfPacket(c: byte, junk: seq<byte>, more: seq<seq<byte>>)
    ensures Take([[c] + junk] + more, 1) == Got([c], [junk] + more)
  {
    var packets := [[c] + junk] + more;
    assert packets[0][1..] == junk && packets[1..] == more;
    assert Take([junk] + more, 0) == Got([], [junk] + more);
  }
}
