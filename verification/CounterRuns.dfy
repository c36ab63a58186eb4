// A run of the bootloader in which block reads move its address counter up to
// the last page below 2^32, where the range check of a block write wraps.
module CounterRuns {
  import opened Octets
  import opened Application
  import opened AvrFlash
  import opened Avr109
  import opened BootMachine

  // 65537 reads of the largest even size, and one that ends at the last page.
  const READS: nat := 65538

  function ReadSize(k: nat): (size: nat)
    ensures size % 2 == 0 && size < 0x1_0000
  {
    if k < 65537 then 65534 else 65410
  }

  // The counter after k of them.
  function Reached(k: nat): nat {
    if k <= 65537 then 65534 * k else TOP_PAGE
  }

  predicate IsRead(e: Event, size: nat)
    requires size < 0x1_0000
  {
    e.Host? && e.packets != [] && Flatten(e.packets) == ReadCommand(size) && e.room > size
  }

  predicate Reads(events: seq<Event>) {
    |events| <= READS && forall i | 0 <= i < |events| :: IsRead(events[i], ReadSize(i))
  }

  lemma OneReadOn(k: nat)
    requires k < READS
    ensures Counting(Reached(k), ReadSize(k)) == Reached(k + 1)
  {
    assert 2 * (ReadSize(k) / 2) == ReadSize(k);
    assert Reached(k) + ReadSize(k) == Reached(k + 1);
  }

  lemma ReadStep(m: Machine, e: Event, size: nat)
    requires |m.flash| == FLASH_SIZE && m.mode.Running? && size < 0x1_0000 && IsRead(e, size)
    ensures Step(m, e) == m.(mode := Running(Counting(m.mode.current, size), true, m.mode.ticks))
  {
    ReadMovesOn(m.flash, m.mode.current, e.packets, e.room, size);
    hide Serve, Counting, ReadBack, Flatten, IsValid;
    assert ApplyAll(m.flash, []) == m.flash;
  }

  // However the host cuts the read commands into packets.
  lemma {:induction false} ReadsMoveOn(m: Machine, events: seq<Event>)
    requires |m.flash| == FLASH_SIZE && m.mode.Running? && m.mode.current == 0 && Reads(events)
    ensures var r := After(m, events);
      && r.flash == m.flash && r.key == m.key
      && r.mode == Running(Reached(|events|), m.mode.stay || events != [], m.mode.ticks)
    decreases |events|
  {
    hide Step, Counting, IsRead;
    if events != [] {
      var k := |events| - 1;
      ReadsMoveOn(m, events[..k]);
      ReadStep(After(m, events[..k]), events[k], ReadSize(k));
      OneReadOn(k);
    }
  }

  // All of them, and then a page: the write is answered like a good one, no
  // page changes, and the counter is back at the start.
  lemma WrapIsReached(m: Machine, events: seq<Event>, write: Event, data: seq<byte>)
    requires |m.flash| == FLASH_SIZE && m.mode.Running? && m.mode.current == 0
    requires Reads(events) && |events| == READS && |data| == PAGE
    requires write.Host? && write.packets != [] && Flatten(write.packets) == WriteCommand(data) && write.room >= 2
    ensures var before := After(m, events);
      && before.mode.Running? && before.mode.current == TOP_PAGE && before.flash == m.flash
      && Serve(before.flash, TOP_PAGE, write.packets, write.room).Done?
      && Serve(before.flash, TOP_PAGE, write.packets, write.room).response == [13]
      && After(m, events + [write]) == m.(mode := Running(0, true, m.mode.ticks))
  {
    ReadsMoveOn(m, events);
    WrappedWriteAccepted(m.flash, write.packets, write.room, data);
    WrappedStep(After(m, events), write, data);
    hide Step, Serve, Reads, Flatten;
    assert (events + [write])[..|events|] == events;
  }

  lemma WrappedStep(m: Machine, write: Event, data: seq<byte>)
    requires |m.flash| == FLASH_SIZE && m.mode.Running? && m.mode.current == TOP_PAGE && |data| == PAGE
    requires write.Host? && write.packets != [] && Flatten(write.packets) == WriteCommand(data) && write.room >= 2
    ensures Step(m, write) == m.(mode := Running(0, true, m.mode.ticks))
  {
    WrappedWriteAccepted(m.flash, write.packets, write.room, data);
    hide Serve, Flatten, IsValid;
    assert ApplyAll(m.flash, []) == m.flash;
  }

  // There is such a run.
  lemma ReadsExist() returns (events: seq<Event>)
    ensures Reads(events) && |events| == READS
  {
    events := seq(READS, i requires 0 <= i < READS => Host([ReadCommand(ReadSize(i))], 0x1_0000));
    forall i | 0 <= i < READS
      ensures IsRead(events[i], ReadSize(i))
    {
      OnePacket(ReadCommand(ReadSize(i)));
    }
  }

  lemma OnePacket(octets: seq<byte>)
    ensures Flatten([octets]) == octets
  {
    assert [octets][1..] == [];
    assert octets + [] == octets;
  }
}
