// What the command parser keeps over every interleaving of received bytes,
// clock ticks, resets and bank-read hand-overs.
module ProtocolRuns {
  import opened Octets
  import opened Crc16
  import opened Protocol

  datatype Event = Fed(b: byte) | Ticked(ms: nat) | WasReset | Taken

  const INITIAL := Parser([], [], 0, 0, 0, false, false, false)

  function Step(p: Parser, e: Event): (r: (Parser, Request))
    requires Inv(p)
    ensures Inv(r.0) && RequestOk(r.1)
  {
    match e
    case Fed(b) => AcceptKeepsInv(p, b); Accept(p, b)
    case Ticked(ms) => (Tick(p, ms).0, Silent)
    case WasReset => (Protocol.Reset(p), Silent)
    case Taken => (Take(p).0, Silent)
  }

  function After(p: Parser, es: seq<Event>): (r: Parser)
    requires Inv(p)
    ensures Inv(r)
    decreases |es|
  {
    if es == [] then p else Step(After(p, es[..|es| - 1]), es[|es| - 1]).0
  }

  // ---------- The invariant over every run ----------

  lemma RunKeepsInvariant(es: seq<Event>)
    ensures var p := After(INITIAL, es);
      && |p.command| <= 7
      && |p.payload| <= PAYLOAD_SIZE
      && (p.writing ==> p.command == [] && |p.payload| < PAYLOAD_SIZE && p.block < 1024)
      && (Busy(p) ==> p.idleMs < if p.writing then 2000 else 1000)
      && (p.failed ==> !Busy(p) && !p.bankReadPending)
  {
  }

  // Outside payload mode the count of received bytes may be 258: it stays at
  // that value after a complete payload. This step-by-step condition says
  // exactly when.
  lemma ReceivedFullIff(p: Parser, e: Event)
    requires Inv(p)
    ensures |Step(p, e).0.payload| == PAYLOAD_SIZE <==>
      || (p.writing && e.Fed? && |p.payload| == PAYLOAD_SIZE - 1)
      || (|p.payload| == PAYLOAD_SIZE && !e.WasReset? && !Dropped(p, e) && !OpensWrite(p, e))
  {
    hide FrameOk, HexValue, Ascii, Dispatch, IsWriteCommand;
    if e.Fed? && !p.failed && !p.writing && |p.command| == 7 {
      var c := p.command + [e.b];
      var q := p.(idleMs := 0, command := []);
      if IsWriteCommand(c) {
        WriteCommandOpens(q, c);
      } else {
        OnlyWriteCommandsWrite(q, c);
      }
    }
  }

  lemma WriteCommandOpens(p: Parser, c: seq<byte>)
    requires |c| == 8 && IsWriteCommand(c)
    ensures Dispatch(p, c).0.payload == []
  {
    hide HexValue, Ascii;
    DispatchWrite(p, c, HexValue(c[4..]).value);
  }

  predicate Dropped(p: Parser, e: Event) {
    e.Ticked? && Busy(p) && e.ms >= Limit(p) - p.idleMs
  }

  // The event completes a valid write command.
  ghost predicate OpensWrite(p: Parser, e: Event)
    requires Inv(p)
  {
    && e.Fed? && !p.failed && !p.writing && |p.command| == 7
    && IsWriteCommand(p.command + [e.b])
  }

  predicate IsWriteCommand(c: seq<byte>)
    requires |c| == 8
  {
    c[..4] == Ascii("WRBK") && HexValue(c[4..]).Some? && HexValue(c[4..]).value < 1024
  }

  lemma IsWriteCommandIff(c: seq<byte>, block: nat)
    requires |c| == 8 && block < 1024
    ensures c == WriteCommand(block) <==> IsWriteCommand(c) && HexValue(c[4..]).value == block
  {
    hide Ascii;
    assert Power16(4) == 0x1_0000;
    HexValueIff(c[4..], block);
    assert c == c[..4] + c[4..];
    if c == WriteCommand(block) {
      assert c[4..] == HexDigits(block, 4);
    }
  }

  // "received <= 257" fails in a reachable state: a complete payload leaves 258.
  lemma ReceivedReaches258(payload: seq<byte>)
    requires |payload| == PAYLOAD_SIZE
    ensures var es := Feeding(WriteCommand(0) + payload); |After(INITIAL, es).payload| == PAYLOAD_SIZE
  {
    hide FrameOk, HexValue, Ascii;
    OpenWrite(INITIAL, 0);
    FeedingConcat(WriteCommand(0), payload);
    AfterConcat(INITIAL, Feeding(WriteCommand(0)), Feeding(payload));
    hide WriteCommand;
    WholePayload(After(INITIAL, Feeding(WriteCommand(0))), payload);
  }

  lemma WholePayload(p: Parser, payload: seq<byte>)
    requires Inv(p) && !p.failed && p.writing && p.payload == [] && p.idleMs == 0
    requires |payload| == PAYLOAD_SIZE
    ensures After(p, Feeding(payload)).payload == payload
  {
    hide FrameOk, Dispatch;
    var k := PAYLOAD_SIZE - 1;
    FillPayload(p, payload[..k]);
    assert Feeding(payload)[..k] == Feeding(payload[..k]);
    assert payload[..k] + [payload[k]] == payload;
  }

  function Feeding(s: seq<byte>): (es: seq<Event>)
    ensures |es| == |s| && forall i | 0 <= i < |s| :: es[i] == Fed(s[i])
  {
    seq(|s|, i requires 0 <= i < |s| => Fed(s[i]))
  }

  lemma FeedingConcat(a: seq<byte>, b: seq<byte>)
    ensures Feeding(a + b) == Feeding(a) + Feeding(b)
  {
  }

  lemma {:induction false} AfterConcat(p: Parser, a: seq<Event>, b: seq<Event>)
    requires Inv(p)
    ensures After(p, a + b) == After(After(p, a), b)
    decreases |b|
  {
    hide Step;
    if b == [] {
      assert a + b == a;
    } else {
      var k := |b| - 1;
      assert (a + b)[..|a + b| - 1] == a + b[..k];
      AfterConcat(p, a, b[..k]);
    }
  }

  // A command accumulates byte by byte and is dispatched at the eighth.
  lemma {:induction false} Accumulate(p: Parser, s: seq<byte>)
    requires Inv(p) && !p.failed && !p.writing && p.command == []
    requires |s| <= 7 && (s != [] ==> !IsBreak(s[0]))
    ensures After(p, Feeding(s)) == p.(command := s)
    decreases |s|
  {
    assert p.idleMs == 0 && After(p, Feeding([])) == p;
    hide Accept, Inv, After, Feeding;
    if s != [] {
      var k := |s| - 1;
      Accumulate(p, s[..k]);
      LastFed(p, s);
      OneCharacter(p.(command := s[..k]), s[k]);
    }
  }

  lemma LastFed(p: Parser, s: seq<byte>)
    requires Inv(p) && s != []
    ensures var k := |s| - 1;
      After(p, Feeding(s)) == Accept(After(p, Feeding(s[..k])), s[k]).0 && s == s[..k] + [s[k]]
  {
    hide Accept, Inv, After, Step;
    assert Feeding(s)[..|s| - 1] == Feeding(s[..|s| - 1]);
    LastEvent(p, Feeding(s));
    FedStep(After(p, Feeding(s[..|s| - 1])), s[|s| - 1]);
  }

  lemma LastEvent(p: Parser, es: seq<Event>)
    requires Inv(p) && es != []
    ensures After(p, es) == Step(After(p, es[..|es| - 1]), es[|es| - 1]).0
  {
    hide Step, Inv;
  }

  lemma FedStep(p: Parser, b: byte)
    requires Inv(p)
    ensures Step(p, Fed(b)).0 == Accept(p, b).0
  {
    hide Accept, Inv;
  }

  lemma OneCharacter(p: Parser, b: byte)
    requires Inv(p) && !p.failed && !p.writing && |p.command| < 7 && (p.command == [] ==> !IsBreak(b))
    ensures Accept(p, b).0 == p.(idleMs := 0, command := p.command + [b])
  {
    hide Dispatch, FrameOk;
  }

  lemma CommandFed(p: Parser, c: seq<byte>)
    requires Inv(p) && !p.failed && !p.writing && p.command == []
    requires |c| == 8 && !IsBreak(c[0])
    ensures After(p, Feeding(c)) == Dispatch(p, c).0
  {
    Accumulate(p, c[..7]);
    assert Feeding(c)[..7] == Feeding(c[..7]);
    assert c[..7] + [c[7]] == c;
    assert p.(idleMs := 0, command := []) == p;
    hide Dispatch, HexValue, Ascii;
  }

  lemma OpenWrite(p: Parser, block: nat)
    requires Inv(p) && !p.failed && !p.writing && p.command == [] && block < 1024
    ensures After(p, Feeding(WriteCommand(block))) == p.(writing := true, payload := [], block := block)
  {
    var c := WriteCommand(block);
    assert !IsBreak(c[0]) && c[..4] == Ascii("WRBK");
    IsWriteCommandIff(c, block);
    DispatchWrite(p, c, block);
    hide Dispatch, HexValue, HexDigits, Ascii;
    CommandFed(p, c);
  }

  lemma DispatchWrite(p: Parser, c: seq<byte>, block: nat)
    requires |c| == 8 && IsWriteCommand(c) && HexValue(c[4..]).value == block
    ensures Dispatch(p, c) == (p.(block := block, writing := true, payload := []), Reply(c + [0]))
  {
    hide HexValue;
    assert c[0] == 'W' as int by {
      assert c[..4][0] == c[0];
    }
    FirstLetters(c);
  }

  lemma FirstLetters(c: seq<byte>)
    requires |c| == 8
    ensures c[0] != 'R' as int ==> c != Ascii("READINFO") && c != Ascii("READVERS") && c[..6] != Ascii("RDBANK")
    ensures c[0] != 'D' as int ==> c != Ascii("DEVIDSST")
    ensures c[0] != 'B' as int ==> c != Ascii("BOOTLOAD")
    ensures c[0] != 'E' as int ==> c != Ascii("ERASEALL") && c[..6] != Ascii("ERBANK")
  {
    Letters();
    NumberedLetters();
    hide Ascii;
    assert c[..6][0] == c[0];
  }

  lemma {:induction false} FillPayload(p: Parser, s: seq<byte>)
    requires Inv(p) && !p.failed && p.writing && p.payload == [] && p.idleMs == 0
    requires |s| < PAYLOAD_SIZE
    ensures After(p, Feeding(s)) == p.(payload := s)
    decreases |s|
  {
    hide Dispatch, FrameOk;
    if s == [] {
    } else {
      var k := |s| - 1;
      FillPayload(p, s[..k]);
      assert Feeding(s)[..k] == Feeding(s[..k]);
      assert s == s[..k] + [s[k]];
    }
  }

  // ---------- Programming happens only for a framed, intact payload ----------

  // The bytes taken in since the parser was last reset or dropped its input.
  function Since(p: Parser, es: seq<Event>): (h: seq<byte>)
    requires Inv(p)
    decreases |es|
  {
    if es == [] then []
    else
      var k := |es| - 1;
      var q := After(p, es[..k]);
      var h := Since(p, es[..k]);
      match es[k]
      case Fed(b) => if q.failed then h else h + [b]
      case Ticked(ms) => if Dropped(q, es[k]) then [] else h
      case WasReset => []
      case Taken => h
  }

  // How the parser state is determined by the last bytes taken in.
  ghost predicate Reflects(p: Parser, h: seq<byte>) {
    if p.writing then
      && |h| >= |p.payload| + 8
      && h[|h| - |p.payload|..] == p.payload
      && h[|h| - |p.payload| - 8..|h| - |p.payload|] == WriteCommand(p.block)
    else
      |h| >= |p.command| && h[|h| - |p.command|..] == p.command
  }

  lemma {:induction false} RunReflects(es: seq<Event>)
    ensures var p := After(INITIAL, es); p.failed || Reflects(p, Since(INITIAL, es))
    decreases |es|
  {
    hide Step, Reflects;
    if es == [] {
      InitialReflects();
    } else {
      var k := |es| - 1;
      RunReflects(es[..k]);
      StepReflects(After(INITIAL, es[..k]), Since(INITIAL, es[..k]), es[k]);
    }
  }

  lemma InitialReflects()
    ensures Reflects(INITIAL, [])
  {
  }

  lemma StepReflects(p: Parser, h: seq<byte>, e: Event)
    requires Inv(p) && (p.failed || Reflects(p, h))
    ensures var h' := (match e
              case Fed(b) => if p.failed then h else h + [b]
              case Ticked(ms) => if Dropped(p, e) then [] else h
              case WasReset => []
              case Taken => h);
      var q := Step(p, e).0; q.failed || Reflects(q, h')
  {
    hide Accept, WriteCommand;
    match e
    case Fed(b) =>
      AcceptKeepsInv(p, b);
      if !p.failed {
        FedReflects(p, h, b);
      }
    case Ticked(ms) =>
    case WasReset =>
    case Taken =>
  }

  lemma FedReflects(p: Parser, h: seq<byte>, b: byte)
    requires Inv(p) && !p.failed && Reflects(p, h)
    ensures Reflects(Accept(p, b).0, h + [b])
  {
    hide Reflects;
    if p.writing {
      PayloadReflects(p, h, b);
    } else if |p.command| == 7 {
      DispatchReflects(p, h, b);
    } else {
      CharacterReflects(p, h, b);
    }
  }

  lemma PayloadReflects(p: Parser, h: seq<byte>, b: byte)
    requires Inv(p) && !p.failed && p.writing && Reflects(p, h)
    ensures Reflects(Accept(p, b).0, h + [b])
  {
    hide FrameOk, WriteCommand;
    var n := |h| - |p.payload|;
    assert (h + [b])[n..] == h[n..] + [b];
    assert (h + [b])[n - 8..n] == h[n - 8..n];
  }

  lemma CharacterReflects(p: Parser, h: seq<byte>, b: byte)
    requires Inv(p) && !p.failed && !p.writing && |p.command| < 7 && Reflects(p, h)
    ensures Reflects(Accept(p, b).0, h + [b])
  {
    hide WriteCommand;
    var n := |h| - |p.command|;
    assert (h + [b])[n..] == h[n..] + [b];
    assert (h + [b])[|h + [b]|..] == [];
  }

  lemma DispatchReflects(p: Parser, h: seq<byte>, b: byte)
    requires Inv(p) && !p.failed && !p.writing && |p.command| == 7 && Reflects(p, h)
    ensures Reflects(Accept(p, b).0, h + [b])
  {
    hide Accept, WriteCommand, Dispatch, Inv, IsWriteCommand, Reflects;
    var c := p.command + [b];
    var q := p.(idleMs := 0, command := []);
    LastCharacter(p, b);
    EndsWithCommand(p, h, b);
    if IsWriteCommand(c) {
      WriteDispatched(q, c);
      OpenedReflects(Dispatch(q, c).0, h + [b]);
    } else {
      OnlyWriteCommandsWrite(q, c);
      IdleReflects(Dispatch(q, c).0, h + [b]);
    }
  }

  lemma WriteDispatched(p: Parser, c: seq<byte>)
    requires |c| == 8 && IsWriteCommand(c)
    ensures var q := Dispatch(p, c).0;
      q.writing && q.payload == [] && c == WriteCommand(q.block)
  {
    var block := WrittenBlock(c);
    DispatchWrite(p, c, block);
    IsWriteCommandIff(c, block);
    hide Dispatch, IsWriteCommand, WriteCommand, HexValue;
  }

  lemma LastCharacter(p: Parser, b: byte)
    requires Inv(p) && !p.failed && !p.writing && |p.command| == 7
    ensures Accept(p, b) == Dispatch(p.(idleMs := 0, command := []), p.command + [b])
  {
    hide Dispatch;
  }

  lemma OpenedReflects(p: Parser, h: seq<byte>)
    requires p.writing && p.payload == [] && |h| >= 8 && h[|h| - 8..|h|] == WriteCommand(p.block)
    ensures Reflects(p, h)
  {
    hide WriteCommand;
    assert h[|h|..] == [];
  }

  lemma IdleReflects(p: Parser, h: seq<byte>)
    requires !p.writing && p.command == []
    ensures Reflects(p, h)
  {
    assert h[|h|..] == [];
  }

  lemma EndsWithCommand(p: Parser, h: seq<byte>, b: byte)
    requires !p.writing && |p.command| == 7 && Reflects(p, h)
    ensures var longer := h + [b];
      |longer| >= 8 && longer[|longer| - 8..|longer|] == p.command + [b]
  {
    assert h[|h| - 7..] == p.command;
  }

  lemma WrittenBlock(c: seq<byte>) returns (block: nat)
    requires |c| == 8 && IsWriteCommand(c)
    ensures block < 1024 && HexValue(c[4..]) == Some(block)
  {
    hide HexValue, Ascii;
    block := HexValue(c[4..]).value;
  }

  lemma OnlyWriteCommandsWrite(p: Parser, c: seq<byte>)
    requires |c| == 8 && !IsWriteCommand(c) && !p.writing && p.command == []
    ensures var q := Dispatch(p, c).0; !q.writing && q.command == [] && q.payload == p.payload
  {
    hide HexValue, Ascii;
  }

  // Over every run: when a byte makes the parser program a block, the last 266
  // bytes taken in are the write command of that block and a payload whose CRC
  // matches, and exactly the payload's data is programmed.
  lemma ProgramIsFramed(es: seq<Event>, b: byte, block: nat, data: seq<byte>)
    ensures var r := Step(After(INITIAL, es), Fed(b)).1;
      r.Operation? && r.op == Program(block, data) ==>
        var h := Since(INITIAL, es) + [b]; var n := |h|;
        && n >= 266
        && h[n - 266..n - 258] == WriteCommand(block)
        && FrameOk(h[n - 258..])
        && data == h[n - 258..n - 2]
  {
    var p := After(INITIAL, es);
    var h := Since(INITIAL, es);
    var r := Step(p, Fed(b)).1;
    if !(r.Operation? && r.op == Program(block, data)) {
      return;
    }
    RunReflects(es);
    OnlyPayloadPrograms(p, b);
    assert |h| >= 265 && h[|h| - 257..] == p.payload && h[|h| - 265..|h| - 257] == WriteCommand(p.block);
    assert p.block == block && data == (p.payload + [b])[..0x100];
    hide Step, Accept, FrameOk, WriteCommand, After, Since, Reflects, Inv;
    LastByte(h, p.payload, b);
  }

  lemma LastByte(h: seq<byte>, payload: seq<byte>, b: byte)
    requires |payload| == 257 && |h| >= 265 && h[|h| - 257..] == payload
    ensures var g := h + [b]; var n := |g|;
      && g[n - 266..n - 258] == h[|h| - 265..|h| - 257]
      && g[n - 258..] == payload + [b]
      && g[n - 258..n - 2] == (payload + [b])[..0x100]
  {
    var g := h + [b];
    assert g[|g| - 258..] == h[|h| - 257..] + [b];
  }

  lemma OnlyPayloadPrograms(p: Parser, b: byte)
    requires Inv(p)
    requires var r := Accept(p, b).1; r.Operation? && r.op.Program?
    ensures !p.failed && p.writing && |p.payload| == 257
    ensures FrameOk(p.payload + [b])
    ensures Accept(p, b).1.op == Program(p.block, (p.payload + [b])[..0x100])
  {
    hide FrameOk, HexValue, Ascii;
  }

  // The bytes of a run.
  function Bytes(es: seq<Event>): seq<byte> {
    if es == [] then []
    else Bytes(es[..|es| - 1]) + if es[|es| - 1].Fed? then [es[|es| - 1].b] else []
  }

  // No reset, and no gap between two bytes that reaches the limit.
  predicate KeepsUp(p: Parser, es: seq<Event>)
    requires Inv(p)
  {
    es == [] ||
    var k := |es| - 1;
    KeepsUp(p, es[..k]) && !es[k].WasReset? && !Dropped(After(p, es[..k]), es[k])
  }

  // Bytes and ticks in any order: the payload accumulates.
  lemma {:induction false} PayloadGrows(p: Parser, es: seq<Event>)
    requires Inv(p) && !p.failed && p.writing && p.payload == []
    requires KeepsUp(p, es) && |Bytes(es)| < PAYLOAD_SIZE
    ensures var q := After(p, es);
      !q.failed && q.writing && q.payload == Bytes(es) && q.block == p.block
    decreases |es|
  {
    hide Dispatch, FrameOk, PayloadRequest;
    if es != [] {
      var k := |es| - 1;
      PayloadGrows(p, es[..k]);
    }
  }

  // The bytes of a damaged payload, with any ticks between them that do not
  // reach the limit, are taken in silence, and the last one is answered with
  // status 1: nothing is programmed.
  lemma DamagedPayloadRejected(p: Parser, sent: seq<byte>, received: seq<byte>, es: seq<Event>, b: byte)
    requires Inv(p) && !p.failed && p.writing && p.payload == []
    requires |sent| == PAYLOAD_SIZE && FrameOk(sent) && Damaged(sent, received)
    requires KeepsUp(p, es) && Bytes(es) + [b] <= received
    ensures |Bytes(es)| < PAYLOAD_SIZE
    ensures Step(After(p, es), Fed(b)).1 == if |Bytes(es)| < PAYLOAD_SIZE - 1 then Silent else Reply([1])
  {
    assert |received| == PAYLOAD_SIZE;
    DamageDetected(sent, received);
    PayloadGrows(p, es);
    hide FrameOk, Damaged, After, Bytes, Dispatch;
    if |Bytes(es)| == PAYLOAD_SIZE - 1 {
      assert Bytes(es) + [b] == received;
    }
  }

  // ---------- The poisoned state ----------

  // After a payload timeout nothing at all is done until a reset.
  lemma {:induction false} PoisonedUntilReset(p: Parser, es: seq<Event>, e: Event)
    requires Inv(p) && p.failed
    requires forall x | x in es :: !x.WasReset?
    ensures After(p, es) == p
    ensures !e.WasReset? ==> Step(p, e) == (p, Silent)
    decreases |es|
  {
    hide FrameOk, Dispatch;
    if es != [] {
      var k := |es| - 1;
      assert es[k] in es;
      PoisonedUntilReset(p, es[..k], es[k]);
    }
  }

  // ---------- Timeouts ----------

  function Ticks(p: Parser, mss: seq<nat>): (r: Parser)
    requires Inv(p)
    ensures Inv(r)
    decreases |mss|
  {
    if mss == [] then p else Tick(Ticks(p, mss[..|mss| - 1]), mss[|mss| - 1]).0
  }

  function Total(mss: seq<nat>): nat {
    if mss == [] then 0 else Total(mss[..|mss| - 1]) + mss[|mss| - 1]
  }

  // However elapsed time is split into ticks, input is dropped at the first
  // tick at which the time since the last byte reaches the limit, and never
  // earlier; a dropped payload poisons the parser, a dropped command does not.
  lemma {:induction false} DroppedAtTheLimit(p: Parser, mss: seq<nat>)
    requires Inv(p) && Busy(p)
    ensures Busy(Ticks(p, mss)) <==> p.idleMs + Total(mss) < if p.writing then 2000 else 1000
    ensures Ticks(p, mss) ==
      if p.idleMs + Total(mss) < (if p.writing then 2000 else 1000) then p.(idleMs := p.idleMs + Total(mss))
      else Protocol.Reset(p).(failed := p.writing)
    decreases |mss|
  {
    if mss != [] {
      DroppedAtTheLimit(p, mss[..|mss| - 1]);
    }
  }

  // Status 7 is reported at that very tick, for a payload only.
  lemma TimeoutReported(p: Parser, mss: seq<nat>, ms: nat)
    requires Inv(p) && Busy(p)
    ensures Tick(Ticks(p, mss), ms).1 <==>
      p.writing && p.idleMs + Total(mss) < 2000 <= p.idleMs + Total(mss) + ms
  {
    DroppedAtTheLimit(p, mss);
  }

  // ---------- A pending bank read ----------

  // A bank read that is not handed over before the next command is redirected
  // by it to a bank that does not exist.
  lemma StaleBankRead()
    ensures var p := After(INITIAL, Feeding(Ascii("RDBANK00") + Ascii("RDBANK10")));
      Take(p).1 == Some(16)
  {
    var first, second := Ascii("RDBANK00"), Ascii("RDBANK10");
    assert first[6..] == ['0' as int, '0' as int] && second[6..] == ['1' as int, '0' as int];
    SixteenInHex();
    hide Ascii, HexValue, After, Feeding, Dispatch;
    FeedingConcat(first, second);
    AfterConcat(INITIAL, Feeding(first), Feeding(second));
    BankFed(INITIAL, first, 0);
    BankFed(After(INITIAL, Feeding(first)), second, 16);
  }

  lemma BankFed(p: Parser, c: seq<byte>, bank: nat)
    requires Inv(p) && !p.failed && !p.writing && p.command == []
    requires (c == Ascii("RDBANK00") || c == Ascii("RDBANK10")) && HexValue(c[6..]) == Some(bank)
    ensures After(p, Feeding(c)) == if bank < 16 then p.(bank := bank, bankReadPending := true) else p.(bank := bank)
  {
    BankNamed(c);
    hide Ascii, HexValue, After, Feeding, Dispatch, IsBankCommand;
    CommandFed(p, c);
    BankDispatch(p, c);
  }

  lemma BankNamed(c: seq<byte>)
    requires c == Ascii("RDBANK00") || c == Ascii("RDBANK10")
    ensures |c| == 8 && !IsBreak(c[0]) && IsBankCommand(c) && c[..6] == Ascii("RDBANK")
  {
    assert c[0] == 'R' as int && c[2] == 'B' as int;
    assert c[..6] == Ascii("RDBANK");
    assert Ascii("READINFO")[2] == 'A' as int && Ascii("READVERS")[2] == 'A' as int;
    FirstLetters(c);
  }

  lemma SixteenInHex()
    ensures HexValue(['1' as int, '0' as int]) == Some(16)
    ensures HexValue(['0' as int, '0' as int]) == Some(0)
  {
    assert HexDigits(0, 2) == HexDigits(0, 1) + [DigitCode(0)] && HexDigits(0, 1) == HexDigits(0, 0) + [DigitCode(0)];
    HexValueIff(['0' as int, '0' as int], 0);
    assert HexDigits(16, 2) == HexDigits(1, 1) + [DigitCode(0)];
    assert HexDigits(1, 1) == HexDigits(0, 0) + [DigitCode(1)];
    assert Power16(2) == 256;
    HexValueIff(['1' as int, '0' as int], 16);
  }

  // A pending read stays within the chip exactly as long as no bank command
  // with a number of 16 or more is dispatched while it waits.
  lemma PendingBankIff(p: Parser, c: seq<byte>)
    requires |c| == 8 && (p.bankReadPending ==> p.bank < 16)
    ensures var q := Dispatch(p, c).0;
      (q.bankReadPending ==> q.bank < 16) <==> !(p.bankReadPending && NamesMissingBank(c))
  {
    hide HexValue, HexDigits;
    if c[..6] == Ascii("RDBANK") {
      assert c[0] == 'R' as int && c[2] == 'B' as int by {
        assert c[..6][0] == c[0] && c[..6][2] == c[2];
        assert Ascii("RDBANK")[0] == 'R' as int && Ascii("RDBANK")[2] == 'B' as int;
      }
      FirstLetters(c);
      assert Ascii("READINFO")[2] == 'A' as int && Ascii("READVERS")[2] == 'A' as int;
    }
    hide Ascii;
  }

  predicate NamesMissingBank(c: seq<byte>)
    requires |c| == 8
  {
    c[..6] == Ascii("RDBANK") && HexValue(c[6..]).Some? && HexValue(c[6..]).value >= 16
  }
}
