// The two timeouts of the command parser, as seen from outside: what is fed,
// how much time passes, and what is said about it.
module Timeouts {
  import opened Octets
  import opened Protocol
  import opened ProtocolRuns
  import opened Device

  function Ticking(mss: seq<nat>): (es: seq<Event>)
    ensures |es| == |mss| && forall i | 0 <= i < |mss| :: es[i] == Ticked(mss[i])
  {
    seq(|mss|, i requires 0 <= i < |mss| => Ticked(mss[i]))
  }

  lemma {:induction false} TicksAreEvents(p: Parser, mss: seq<nat>)
    requires Inv(p)
    ensures After(p, Ticking(mss)) == ProtocolRuns.Ticks(p, mss)
    decreases |mss|
  {
    hide Inv, Tick;
    if mss != [] {
      var k := |mss| - 1;
      TicksAreEvents(p, mss[..k]);
      assert Ticking(mss)[..k] == Ticking(mss[..k]);
    }
  }

  // The beginning of a command survives any ticks exactly while their total
  // stays below 1000 ms. Then it is dropped without a word.
  lemma CommandSurvivesIff(p: Parser, s: seq<byte>, mss: seq<nat>)
    requires Inv(p) && !p.failed && !p.writing && p.command == []
    requires 1 <= |s| <= 7 && !IsBreak(s[0])
    ensures var q := After(p, Feeding(s) + Ticking(mss));
      && (q.command == s <==> Total(mss) < 1000)
      && (Total(mss) >= 1000 ==> q == Reset(p))
      && !q.failed
    ensures forall ms: nat :: !Tick(After(p, Feeding(s) + Ticking(mss)), ms).1
  {
    assert p.idleMs == 0;
    Accumulate(p, s);
    AfterConcat(p, Feeding(s), Ticking(mss));
    TicksAreEvents(p.(command := s), mss);
    DroppedAtTheLimit(p.(command := s), mss);
    hide After, Feeding, Ticking, Inv, ProtocolRuns.Ticks;
  }

  // The beginning of a payload survives exactly while the total stays below
  // 2000 ms. The tick that reaches it is reported, and the parser is deaf.
  lemma PayloadSurvivesIff(p: Parser, block: nat, s: seq<byte>, mss: seq<nat>, ms: nat)
    requires Inv(p) && !p.failed && !p.writing && p.command == [] && block < 1024 && |s| < 258
    ensures var q := After(p, Feeding(WriteCommand(block) + s) + Ticking(mss));
      && (q.writing && q.block == block && q.payload == s <==> Total(mss) < 2000)
      && (q.failed <==> Total(mss) >= 2000)
      && (q.failed ==> !q.writing && q.command == [])
      && (Tick(q, ms).1 <==> Total(mss) < 2000 <= Total(mss) + ms)
  {
    var ready := p.(writing := true, payload := [], block := block);
    var filled := ready.(payload := s);
    OpenWrite(p, block);
    FeedingConcat(WriteCommand(block), s);
    AfterConcat(p, Feeding(WriteCommand(block)), Feeding(s));
    assert ready.idleMs == 0;
    FillPayload(ready, s);
    AfterConcat(p, Feeding(WriteCommand(block) + s), Ticking(mss));
    hide After, Feeding, Ticking, Tick, ProtocolRuns.Ticks, WriteCommand;
    TicksAreEvents(filled, mss);
    DroppedAtTheLimit(filled, mss);
    TimeoutReported(filled, mss, ms);
  }

  // After the report nothing is taken in, and nothing is said, until a reset.
  lemma SilentUntilReset(p: Parser, block: nat, s: seq<byte>, mss: seq<nat>, es: seq<Event>, e: Event)
    requires Inv(p) && !p.failed && !p.writing && p.command == [] && block < 1024 && |s| < 258
    requires Total(mss) >= 2000 && !e.WasReset? && (forall x | x in es :: !x.WasReset?)
    ensures var q := After(p, Feeding(WriteCommand(block) + s) + Ticking(mss));
      && After(q, es) == q && Step(After(q, es), e).1.Silent?
      && (e.Ticked? ==> !Tick(After(q, es), e.ms).1)
  {
    PayloadSurvivesIff(p, block, s, mss, 0);
    var q := After(p, Feeding(WriteCommand(block) + s) + Ticking(mss));
    hide After, Feeding, Ticking, WriteCommand;
    PoisonedUntilReset(q, es, e);
  }

  // ---------- What the host sees ----------

  // Time passing in several turns of the main loop.
  function WaitAll(c: Cartridge, mss: seq<nat>): (r: (Cartridge, seq<byte>))
    requires Settled(c)
    ensures Settled(r.0)
    decreases |mss|
  {
    if mss == [] then (c, [])
    else
      var before := WaitAll(c, mss[..|mss| - 1]);
      var last := Wait(before.0, mss[|mss| - 1]);
      (last.0, before.1 + last.1)
  }

  // A payload that is left unfinished is answered once, with status 7, however
  // the time is cut into turns; an unfinished command is not answered.
  lemma {:induction false} SevenOnce(c: Cartridge, mss: seq<nat>)
    requires Settled(c) && Busy(c.parser)
    ensures WaitAll(c, mss).1 == if c.parser.writing && c.parser.idleMs + Total(mss) >= 2000 then [7] else []
    ensures WaitAll(c, mss).0 == c.(parser := ProtocolRuns.Ticks(c.parser, mss))
    decreases |mss|
  {
    assert c.parser.idleMs < 2000;
    hide Inv, Tick;
    if mss != [] {
      var k := |mss| - 1;
      SevenOnce(c, mss[..k]);
      TimeoutReported(c.parser, mss[..k], mss[k]);
      assert [] + [7] == [7];
    }
  }

  // With the line closed every turn leaves a parser that waits for a command,
  // whatever it was doing, and a byte that was received is lost.
  lemma ClosedLineResets(c: Cartridge, ms: nat, input: Option<byte>)
    requires Settled(c)
    ensures var (d, out) := TurnSpec(c, false, ms, input);
      && d.chip == c.chip && !Busy(d.parser) && !d.parser.failed && !d.parser.bankReadPending
      && out == if c.parser.writing && c.parser.idleMs + ms >= 2000 then [7] else []
  {
    hide Handle;
  }
}
