// The main loop of firmware/main.c over a whole stream of received bytes.
module MainLoop {
  import opened Octets
  import opened Sst39
  import opened Protocol
  import opened Device
  import FlashOps
  import Link

  // What is in the cartridge, what was sent and whether the loop has ended are
  // as the stream says; only the clock may stand elsewhere.
  ghost predicate Shows(now: Cartridge, sent: seq<byte>, halted: bool, before: seq<byte>, p: Progress) {
    && Settled(now) && Resting(now.chip) && now.chip == p.cart.chip && Link.SameButTime(now.parser, p.cart.parser)
    && sent == before + p.sent && halted == p.halted
  }

  // One turn in time: waiting has no effect, the byte has the one specified.
  lemma TurnInTime(now: Cartridge, ms: nat, b: byte)
    requires Settled(now) && Resting(now.chip) && Link.InTime(now.parser, ms)
    ensures var (c, out) := TurnSpec(now, true, ms, None);
      c.chip == now.chip && Link.SameButTime(c.parser, now.parser) && out == []
    ensures TurnSpec(now, true, ms, Some(b)) == Handle(now, b)
    ensures Boots(Tick(now.parser, ms).0, b) <==> Boots(now.parser, b)
  {
    Link.TimeBelowLimit(now, ms);
    var d := Wait(now, ms).0;
    if now.parser.failed {
      Link.WaitIdle(now, ms);
    } else {
      Link.HandleIgnoresTime(now, d, b);
    }
    hide Handle, Boots;
    var out := Handle(now, b).1;
    assert [] + out == out;
  }

  // The clock aside, a byte has the effect that the stream records.
  lemma SameByte(now: Cartridge, c: Cartridge, b: byte)
    requires Settled(now) && Settled(c) && Resting(now.chip) && now.chip == c.chip
    requires Link.SameButTime(now.parser, c.parser)
    ensures Handle(now, b).1 == Handle(c, b).1 && Handle(now, b).0.chip == Handle(c, b).0.chip
    ensures Link.SameButTime(Handle(now, b).0.parser, Handle(c, b).0.parser)
    ensures Boots(now.parser, b) <==> Boots(c.parser, b)
  {
    if !now.parser.failed {
      Link.HandleIgnoresTime(now, c, b);
    } else {
      assert now == c;
    }
    hide Handle, Boots;
  }

  lemma OneMoreTaken(start: Cartridge, input: seq<byte>, k: nat, now: Cartridge, sent: seq<byte>, before: seq<byte>)
    requires Settled(start) && FlashOps.Steady(start.chip) && k < |input|
    requires Shows(now, sent, false, before, Stream(start, input[..k]))
    ensures Settled(now) && Resting(now.chip)
    ensures var (c, out) := Handle(now, input[k]);
      Shows(c, sent + out, Boots(now.parser, input[k]), before, Stream(start, input[..k + 1]))
  {
    var p := Stream(start, input[..k]);
    SameByte(now, p.cart, input[k]);
    StreamGrows(start, input, k);
    RestsAfter(p, input[k]);
    hide Handle, Boots, FlashOps.Steady, Stream, Resting, Inv, Link.SameButTime;
    Joined(before, p.sent, Handle(now, input[k]).1);
  }

  lemma StreamGrows(start: Cartridge, input: seq<byte>, k: nat)
    requires Settled(start) && FlashOps.Steady(start.chip) && k < |input|
    requires !Stream(start, input[..k]).halted
    ensures Stream(start, input[..k + 1]) == Onward(Stream(start, input[..k]), input[k])
  {
    hide Onward, FlashOps.Steady, Stream;
    assert input[..k + 1][..k] == input[..k];
    StreamLast(start, input[..k + 1]);
  }

  lemma RestsAfter(p: Progress, b: byte)
    requires Settled(p.cart) && FlashOps.Steady(p.cart.chip)
    ensures Resting(Onward(p, b).cart.chip)
  {
    hide Handle, Boots;
  }

  // What arrives after the end is not taken in.
  lemma NothingAfterTheEnd(start: Cartridge, input: seq<byte>, k: nat)
    requires Settled(start) && FlashOps.Steady(start.chip) && k <= |input|
    requires k == |input| || Stream(start, input[..k]).halted
    ensures Stream(start, input) == Stream(start, input[..k])
  {
    hide Stream, FlashOps.Steady, Inv;
    if k == |input| {
      assert input[..k] == input;
    } else {
      assert input[..k] + input[k..] == input;
      StreamConcat(start, input[..k], input[k..]);
    }
  }

  lemma AtTheStart(start: Cartridge, before: seq<byte>, input: seq<byte>)
    requires Settled(start) && FlashOps.Steady(start.chip)
    ensures Shows(start, before, false, before, Stream(start, input[..0]))
  {
    assert input[..0] == [];
    assert before + [] == before;
  }

  lemma QuietlyShown(now: Cartridge, later: Cartridge, sent: seq<byte>, before: seq<byte>, p: Progress)
    requires Shows(now, sent, false, before, p)
    requires Settled(later) && later.chip == now.chip && Link.SameButTime(later.parser, now.parser)
    ensures Shows(later, sent, false, before, p)
  {
  }

  lemma Patience(parser: CommandParser, ms: nat)
    requires parser.Valid()
    ensures parser.Patient(0)
    ensures parser.Patient(ms) <==> Link.InTime(parser.State(), ms)
  {
    assert |parser.State().command| == parser.used;
  }

  // Some time that the parser can wait for.
  method Pause(fw: Firmware) returns (ms: nat)
    requires fw.Valid()
    ensures Link.InTime(fw.parser.State(), ms)
  {
    Patience(fw.parser, 0);
    ms :| fw.parser.Patient(ms);
    Patience(fw.parser, ms);
  }

  // Any number of turns without a byte.
  method PassQuietly(fw: Firmware, ghost before: seq<byte>, ghost p: Progress)
    requires fw.Valid() && !fw.halted && !fw.bootRequested && fw.reliable && fw.driver.device.Genuine?
    requires Shows(fw.Contents(), fw.sent, false, before, p)
    modifies fw, fw.parser, fw.parser.command, fw.parser.payload, fw.driver
    ensures fw.Valid() && !fw.halted && !fw.bootRequested && fw.driver.device.Genuine?
    ensures Shows(fw.Contents(), fw.sent, false, before, p)
  {
    hide Handle, Wait, Boots, TurnSpec, Link.InTime, Shows, Resting;
    var n :| n >= 0;
    while n > 0
      invariant fw.Valid() && !fw.halted && !fw.bootRequested && fw.driver.device.Genuine?
      invariant Shows(fw.Contents(), fw.sent, false, before, p)
      decreases n
    {
      ghost var now, sent := fw.Contents(), fw.sent;
      var ms := Pause(fw);
      WhatIsShown(now, sent, false, before, p);
      TurnInTime(now, ms, 0);
      ghost var linked := fw.Turn(true, ms, None);
      assert sent + [] == sent;
      QuietlyShown(now, fw.Contents(), sent, before, p);
      n := n - 1;
    }
  }

  // A turn that takes a byte.
  method TakeOne(fw: Firmware, b: byte)
    requires fw.Valid() && !fw.halted && !fw.bootRequested && fw.reliable && fw.driver.device.Genuine?
    requires Resting(fw.driver.device.chip)
    modifies fw, fw.parser, fw.parser.command, fw.parser.payload, fw.driver
    ensures fw.Valid() && fw.driver.device.Genuine?
    ensures var (c, out) := Handle(old(fw.Contents()), b);
      && fw.Contents() == c && fw.sent == old(fw.sent) + out
      && fw.halted == fw.bootRequested == Boots(old(fw.parser.State()), b)
  {
    hide Handle, Wait, Boots, TurnSpec, Link.InTime;
    var ms := Pause(fw);
    TurnInTime(fw.Contents(), ms, b);
    ghost var linked := fw.Turn(true, ms, Some(b));
  }

  lemma WhatIsShown(now: Cartridge, sent: seq<byte>, halted: bool, before: seq<byte>, p: Progress)
    requires Shows(now, sent, halted, before, p)
    ensures Resting(now.chip) && now.chip == p.cart.chip && Link.SameButTime(now.parser, p.cart.parser)
    ensures sent == before + p.sent && halted == p.halted
  {
  }

  // The loop runs until the stream is used up or booting was asked for. Before
  // each byte there may be any number of turns without one, and any time that
  // stays below the parser's limit.
  method Serve(fw: Firmware, input: seq<byte>) returns (taken: nat)
    requires fw.Valid() && !fw.halted && !fw.bootRequested && fw.reliable && fw.driver.device.Genuine?
    requires FlashOps.Steady(fw.driver.device.chip)
    modifies fw, fw.parser, fw.parser.command, fw.parser.payload, fw.driver
    ensures fw.Valid() && fw.driver.device.Genuine?
    ensures taken <= |input| && (taken < |input| ==> fw.halted)
    ensures var p := Stream(old(fw.Contents()), input);
      && fw.halted == p.halted
      && fw.sent == old(fw.sent) + p.sent
      && fw.Contents().chip == p.cart.chip
      && Link.SameButTime(fw.Contents().parser, p.cart.parser)
  {
    hide Handle, Wait, Stream, Boots, TurnSpec, FlashOps.Steady, Link.InTime, Shows;
    ghost var start, before := fw.Contents(), fw.sent;
    taken := 0;
    AtTheStart(start, before, input);
    while taken < |input| && !fw.halted
      invariant fw.Valid() && fw.bootRequested == fw.halted && fw.driver.device.Genuine?
      invariant taken <= |input|
      invariant Shows(fw.Contents(), fw.sent, fw.halted, before, Stream(start, input[..taken]))
      decreases |input| - taken
    {
      PassQuietly(fw, before, Stream(start, input[..taken]));
      OneMoreTaken(start, input, taken, fw.Contents(), fw.sent, before);
      TakeOne(fw, input[taken]);
      taken := taken + 1;
    }
    WhatIsShown(fw.Contents(), fw.sent, fw.halted, before, Stream(start, input[..taken]));
    NothingAfterTheEnd(start, input, taken);
    WhatIsShown(fw.Contents(), fw.sent, fw.halted, before, Stream(start, input));
  }
}
