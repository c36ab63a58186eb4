// One exchange between the host and the cartridge, seen from both ends, while
// time passes on the device between any two bytes and output may be lost when
// the USB stack fails.
module Link {
  import opened Octets
  import opened Sst39
  import opened Crc16
  import opened Protocol
  import opened Device

  // The cartridge, and the bytes on their way to (or already at) the host.
  datatype View = View(cart: Cartridge, pending: seq<byte>)

  // One turn of the device's main loop while the port is open. If some of its
  // output is lost, the parser has been reset or is poisoned.
  ghost predicate Moves(v: View, ms: nat, input: Option<byte>, w: View) {
    && Settled(v.cart) && Settled(w.cart) && (input.Some? ==> Resting(v.cart.chip))
    && var (after, out) := TurnSpec(v.cart, true, ms, input);
    && w.cart.chip == after.chip
    && v.pending <= w.pending <= v.pending + out
    && (if w.pending == v.pending + out then w.cart == after else !Busy(w.cart.parser))
    && w.cart.parser.failed == after.parser.failed
  }

  // ---------- How far an exchange has come ----------

  datatype Stage =
    // k bytes of a command have been written
    | Command(before: Cartridge, bytes: seq<byte>, k: nat)
    // k bytes of a write payload have been written
    | Payload(before: Cartridge, bytes: seq<byte>, k: nat)
    // all bytes are written, and `rest` of the answer is still to be received
    | Answer(after: Cartridge, rest: seq<byte>)
    // the command was dropped, or the payload timed out: no answer will come
    | Lost(before: Cartridge)
    | Deaf(before: Cartridge)

  predicate Idle(c: Cartridge) {
    Settled(c) && Resting(c.chip) && !c.parser.failed && !Busy(c.parser)
  }

  predicate StageOk(s: Stage) {
    match s
    case Command(c, bytes, k) =>
      Idle(c) && |bytes| == 8 && !IsBreak(bytes[0]) && bytes != Ascii("BOOTLOAD") && k <= 8
    case Payload(c, bytes, k) =>
      Settled(c) && Resting(c.chip) && !c.parser.failed && c.parser.writing && c.parser.payload == []
      && |bytes| == PAYLOAD_SIZE && k <= PAYLOAD_SIZE
    case Answer(c, rest) =>
      Settled(c) && !c.parser.failed && c.parser.command == []
    case Lost(c) => Settled(c)
    case Deaf(c) => Settled(c)
  }

  // The cartridge and the output when all bytes arrive in time.
  function AfterCommand(c: Cartridge, bytes: seq<byte>): (r: (Cartridge, seq<byte>))
    requires Idle(c) && |bytes| == 8
    ensures Settled(r.0) && !r.0.parser.failed
  {
    Handle(c.(parser := c.parser.(command := bytes[..7])), bytes[7])
  }

  function AfterPayload(c: Cartridge, bytes: seq<byte>): (r: (Cartridge, seq<byte>))
    requires Settled(c) && Resting(c.chip) && !c.parser.failed && c.parser.writing && |bytes| == PAYLOAD_SIZE
    ensures Settled(r.0) && !r.0.parser.failed
  {
    Handle(c.(parser := c.parser.(payload := bytes[..257])), bytes[257])
  }

  predicate SameButTime(p: Parser, q: Parser) {
    p.(idleMs := 0) == q.(idleMs := 0)
  }

  // What is known about the view at each stage. Either the device is in step
  // with the host, or it dropped its input and the host cannot succeed.
  ghost predicate Holds(s: Stage, v: View)
    requires StageOk(s)
  {
    Settled(v.cart) &&
    match s
    case Command(c, bytes, k) =>
      if k < 8 then
        && v.pending == [] && v.cart.chip == c.chip
        && !v.cart.parser.failed && !v.cart.parser.writing
        && (SameButTime(v.cart.parser, c.parser.(command := bytes[..k])) || |v.cart.parser.command| < k)
      else
        var (after, out) := AfterCommand(c, bytes);
        Receives(after, out, v) || IsLost(c, v)
    case Payload(c, bytes, k) =>
      if k < PAYLOAD_SIZE then
        && v.cart.chip == c.chip
        && (Poisoned(v)
            || (v.pending == [] && SameButTime(v.cart.parser, c.parser.(payload := bytes[..k]))))
      else
        var (after, out) := AfterPayload(c, bytes);
        Receives(after, out, v) || (Poisoned(v) && v.cart.chip == c.chip)
    case Answer(after, rest) => Receives(after, rest, v)
    case Lost(c) => IsLost(c, v)
    case Deaf(c) => Poisoned(v) && v.cart.chip == c.chip
  }

  // A command lost some of its bytes: the rest of it waits in the parser.
  ghost predicate IsLost(c: Cartridge, v: View) {
    v.pending == [] && v.cart.chip == c.chip && !v.cart.parser.failed && !v.cart.parser.writing
  }

  // A payload timed out: the device is deaf, and at most said so.
  predicate Poisoned(v: View) {
    v.cart.parser.failed && (v.pending == [] || v.pending == [7])
  }

  // `rest` is what the host will receive, unless some of it was lost or the
  // device got tired of waiting for a payload.
  ghost predicate Receives(after: Cartridge, rest: seq<byte>, v: View) {
    && v.cart.chip == after.chip
    && (|| (SameButTime(v.cart.parser, after.parser) && v.pending == rest)
        || (after.parser.writing && v.cart.parser.failed && (v.pending == rest || v.pending == rest + [7]))
        || (!Busy(v.cart.parser) && v.pending <= rest && v.pending != rest))
  }

  // The device in step, nothing under way.
  ghost predicate Synced(c: Cartridge, v: View) {
    Idle(v.cart) && v.cart.chip == c.chip && v.pending == []
  }

  // ---------- Time ----------

  // Waiting has no effect unless the parser is busy.
  lemma WaitIdle(c: Cartridge, ms: nat)
    requires Settled(c) && !Busy(c.parser)
    ensures Wait(c, ms) == (c, [])
  {
  }

  lemma WaitBusy(c: Cartridge, ms: nat)
    requires Settled(c) && Busy(c.parser)
    ensures var (d, out) := Wait(c, ms);
      || (SameButTime(d.parser, c.parser) && out == [] && d.chip == c.chip)
      || (d.parser == Protocol.Reset(c.parser).(failed := c.parser.writing) && d.chip == c.chip
          && out == if c.parser.writing then [7] else [])
  {
  }

  lemma PrefixOfOne(a: seq<byte>, b: seq<byte>, x: byte)
    requires a <= b <= a + [x]
    ensures b == a || b == a + [x]
  {
  }

  lemma PrefixOfNone(a: seq<byte>, b: seq<byte>)
    requires a <= b <= a + []
    ensures b == a
  {
  }

  lemma TimeWhileReceiving(after: Cartridge, rest: seq<byte>, v: View, ms: nat, w: View)
    requires Settled(after) && !after.parser.failed && after.parser.command == []
    requires Receives(after, rest, v) && Moves(v, ms, None, w)
    ensures Receives(after, rest, w)
  {

    assert v.pending + [] == v.pending;
    if Receives(after, rest, v) && v.pending == rest && SameButTime(v.cart.parser, after.parser) {
      assert v.cart.parser.writing == after.parser.writing && v.cart.parser.command == [];
    }
    if Busy(v.cart.parser) {
      WaitBusy(v.cart, ms);
      if Wait(v.cart, ms).1 == [7] {
        PrefixOfOne(v.pending, w.pending, 7);
      } else {
        PrefixOfNone(v.pending, w.pending);
      }
    } else {
      WaitIdle(v.cart, ms);
      PrefixOfNone(v.pending, w.pending);
    }
  }

  lemma TimePasses(s: Stage, v: View, ms: nat, w: View)
    requires StageOk(s)
    ensures Holds(s, v) && Moves(v, ms, None, w) ==> Holds(s, w)
  {
    hide Receives, AfterCommand, AfterPayload;
    if !(Holds(s, v) && Moves(v, ms, None, w)) {
      return;
    }
    match s
    case Lost(c) => TimeBeforeAnswer(v, ms, w);
    case Deaf(c) => TimeWhilePoisoned(v, ms, w);
    case Answer(after, rest) =>
      TimeWhileReceiving(after, rest, v, ms, w);
    case Command(c, bytes, k) =>
      if k == 8 {
        var (after, out) := AfterCommand(c, bytes);
        AfterCommandShape(c, bytes);
        if Receives(after, out, v) {
          TimeWhileReceiving(after, out, v, ms, w);
        } else {
          TimeBeforeAnswer(v, ms, w);
        }
      } else {
        TimeBeforeAnswer(v, ms, w);
      }
    case Payload(c, bytes, k) =>
      if k == PAYLOAD_SIZE {
        var (after, out) := AfterPayload(c, bytes);
        AfterPayloadShape(c, bytes);
        if Receives(after, out, v) {
          TimeWhileReceiving(after, out, v, ms, w);
        } else {
          TimeWhilePoisoned(v, ms, w);
        }
      } else if Poisoned(v) {
        TimeWhilePoisoned(v, ms, w);
      } else {
        TimeInPayload(v, ms, w);
      }
  }

  lemma TimeBeforeAnswer(v: View, ms: nat, w: View)
    requires Moves(v, ms, None, w)
    requires v.pending == [] && !v.cart.parser.failed && !v.cart.parser.writing
    ensures w.pending == [] && w.cart.chip == v.cart.chip && !w.cart.parser.failed && !w.cart.parser.writing
    ensures SameButTime(w.cart.parser, v.cart.parser) || w.cart.parser.command == []
  {
    if Busy(v.cart.parser) {
      WaitBusy(v.cart, ms);
    } else {
      WaitIdle(v.cart, ms);
    }
  }

  lemma TimeWhilePoisoned(v: View, ms: nat, w: View)
    requires Moves(v, ms, None, w) && Poisoned(v)
    ensures Poisoned(w) && w.cart.chip == v.cart.chip
  {
    WaitIdle(v.cart, ms);
    PrefixOfNone(v.pending, w.pending);
  }

  lemma TimeInPayload(v: View, ms: nat, w: View)
    requires Moves(v, ms, None, w)
    requires v.pending == [] && v.cart.parser.writing
    ensures w.cart.chip == v.cart.chip
    ensures Poisoned(w) || (w.pending == [] && SameButTime(w.cart.parser, v.cart.parser))
  {
    WaitBusy(v.cart, ms);
    if Wait(v.cart, ms).1 == [7] {
      PrefixOfOne([], w.pending, 7);
    }
  }

  lemma AfterCommandShape(c: Cartridge, bytes: seq<byte>)
    requires Idle(c) && |bytes| == 8
    ensures AfterCommand(c, bytes).0.parser.command == []
    ensures AfterCommand(c, bytes).0.parser.payload == [] || !AfterCommand(c, bytes).0.parser.writing
  {
    hide HexValue, Ascii, Perform, WithTrailer;
  }

  lemma AfterPayloadShape(c: Cartridge, bytes: seq<byte>)
    requires Settled(c) && Resting(c.chip) && !c.parser.failed && c.parser.writing && |bytes| == PAYLOAD_SIZE
    ensures !Busy(AfterPayload(c, bytes).0.parser)
  {
    hide FrameOk, Perform, WithTrailer, Dispatch;
  }

  // ---------- Bytes ----------

  // The clock does not influence what a byte does.
  lemma HandleIgnoresTime(c: Cartridge, d: Cartridge, b: byte)
    requires Settled(c) && Settled(d) && Resting(c.chip) && !c.parser.failed
    requires c.chip == d.chip && SameButTime(c.parser, d.parser)
    ensures Handle(c, b) == Handle(d, b)
    ensures Boots(c.parser, b) == Boots(d.parser, b)
  {
    hide Dispatch, PayloadRequest, Perform, WithTrailer;
    assert Accept(c.parser, b) == Accept(d.parser, b);
  }

  lemma QuietByte(c: Cartridge, b: byte)
    requires Settled(c) && Resting(c.chip) && !c.parser.failed && !c.parser.writing && |c.parser.command| < 7
    ensures var (d, out) := Handle(c, b);
      && out == [] && d.chip == c.chip && !d.parser.failed && !d.parser.writing
      && |d.parser.command| <= |c.parser.command| + 1
      && (c.parser.command != [] || !IsBreak(b) ==>
            SameButTime(d.parser, c.parser.(command := c.parser.command + [b])))
    ensures !Boots(c.parser, b)
  {
    hide Dispatch, PayloadRequest, WithTrailer;
    var none: seq<byte> := [];
    assert none + [] == none;
  }

  lemma QuietPayloadByte(c: Cartridge, b: byte)
    requires Settled(c) && Resting(c.chip) && !c.parser.failed && c.parser.writing && |c.parser.payload| < 257
    ensures var (d, out) := Handle(c, b);
      && out == [] && d.chip == c.chip
      && SameButTime(d.parser, c.parser.(payload := c.parser.payload + [b]))
    ensures !Boots(c.parser, b)
  {
    hide Dispatch, PayloadRequest, WithTrailer;
    var none: seq<byte> := [];
    assert none + [] == none;
  }

  lemma NeverBoots(p: Parser, b: byte)
    requires Inv(p)
    requires p.failed || p.writing || |p.command| < 7 || p.command + [b] != Ascii("BOOTLOAD")
    ensures !Boots(p, b)
  {
    hide FrameOk, HexValue, Ascii;
  }

  lemma CommandByteArrives(c: Cartridge, bytes: seq<byte>, k: nat, v: View, ms: nat, w: View)
    requires k < 8 && StageOk(Command(c, bytes, k)) && Holds(Command(c, bytes, k), v)
    requires Moves(v, ms, Some(bytes[k]), w)
    ensures Holds(Command(c, bytes, k + 1), w)
    ensures !Boots(Tick(v.cart.parser, ms).0, bytes[k])
  {
    var b := bytes[k];
    var t := Wait(v.cart, ms).0;
    if Busy(v.cart.parser) { WaitBusy(v.cart, ms); } else { WaitIdle(v.cart, ms); }
    assert t.chip == c.chip && !t.parser.failed && !t.parser.writing;
    assert SameButTime(t.parser, c.parser.(command := bytes[..k])) || |t.parser.command| < k;
    assert Wait(v.cart, ms).1 == [];
    hide Wait, Handle, AfterCommand, Receives, Boots;
    var (d, out) := Handle(t, b);
    assert [] + out == out;
    if |t.parser.command| < 7 {
      QuietByte(t, b);
      PrefixOfNone(v.pending, w.pending);
      if |t.parser.command| == k {
        assert bytes[..k] + [b] == bytes[..k + 1];
      }
    } else {
      LastCommandByte(c, bytes, t, v, ms, w);
    }
  }

  lemma LastCommandByte(c: Cartridge, bytes: seq<byte>, t: Cartridge, v: View, ms: nat, w: View)
    requires StageOk(Command(c, bytes, 7)) && v.pending == []
    requires Settled(v.cart) && t == Wait(v.cart, ms).0 && Wait(v.cart, ms).1 == []
    requires t.chip == c.chip && !t.parser.failed && SameButTime(t.parser, c.parser.(command := bytes[..7]))
    requires Moves(v, ms, Some(bytes[7]), w)
    ensures var (after, out) := AfterCommand(c, bytes); Receives(after, out, w)
    ensures !Boots(t.parser, bytes[7])
  {
    hide Wait, Handle, Boots, Perform;
    var ready := c.(parser := c.parser.(command := bytes[..7]));
    HandleIgnoresTime(ready, t, bytes[7]);
    assert bytes[..7] + [bytes[7]] == bytes;
    NeverBoots(t.parser, bytes[7]);
    var out := AfterCommand(c, bytes).1;
    assert [] + out == out;
  }

  lemma PayloadByteArrives(c: Cartridge, bytes: seq<byte>, k: nat, v: View, ms: nat, w: View)
    requires k < PAYLOAD_SIZE && StageOk(Payload(c, bytes, k)) && Holds(Payload(c, bytes, k), v)
    requires Moves(v, ms, Some(bytes[k]), w)
    ensures Holds(Payload(c, bytes, k + 1), w)
    ensures !Boots(Tick(v.cart.parser, ms).0, bytes[k])
  {
    var b := bytes[k];
    var (t, said) := Wait(v.cart, ms);
    NeverBoots(t.parser, b);
    if Poisoned(v) {
      WaitIdle(v.cart, ms);
      FailedIsSilent(t, b);
      PrefixOfNone(v.pending, w.pending);
    } else {
      WaitBusy(v.cart, ms);
      hide Wait, AfterPayload, Receives, Boots;
      if t.parser.failed {
        FailedIsSilent(t, b);
        assert said + [] == said;
        PrefixOfOne([], w.pending, 7);
      } else if k < 257 {
        QuietPayloadByte(t, b);
        PrefixOfNone(v.pending, w.pending);
        assert bytes[..k] + [b] == bytes[..k + 1];
      } else {
        LastPayloadByte(c, bytes, t, v, ms, w);
      }
    }
  }

  lemma LastPayloadByte(c: Cartridge, bytes: seq<byte>, t: Cartridge, v: View, ms: nat, w: View)
    requires StageOk(Payload(c, bytes, 257)) && v.pending == []
    requires Settled(v.cart) && Wait(v.cart, ms) == (t, [])
    requires t.chip == c.chip && !t.parser.failed && SameButTime(t.parser, c.parser.(payload := bytes[..257]))
    requires Moves(v, ms, Some(bytes[257]), w)
    ensures var (after, out) := AfterPayload(c, bytes); Receives(after, out, w)
  {
    var ready := c.(parser := c.parser.(payload := bytes[..257]));
    HandleIgnoresTime(ready, t, bytes[257]);
    hide Wait, Handle, Boots;
    var out := AfterPayload(c, bytes).1;
    assert [] + out == out;
  }

  // A byte of a command or of a payload advances the exchange by one.
  lemma ByteArrives(s: Stage, v: View, ms: nat, w: View)
    requires StageOk(s) && Holds(s, v) && (s.Command? || s.Payload?) && s.k < |s.bytes|
    requires Moves(v, ms, Some(s.bytes[s.k]), w)
    ensures StageOk(s.(k := s.k + 1)) && Holds(s.(k := s.k + 1), w)
  {
    hide Holds, Moves, Boots, Tick;
    match s
    case Command(c, bytes, k) => CommandByteArrives(c, bytes, k, v, ms, w);
    case Payload(c, bytes, k) => PayloadByteArrives(c, bytes, k, v, ms, w);
  }

  lemma BytesNeverBoot(s: Stage, v: View, ms: nat)
    requires StageOk(s) && Holds(s, v) && (s.Command? || s.Payload?) && s.k < |s.bytes|
    ensures Resting(v.cart.chip) && !Boots(Tick(v.cart.parser, ms).0, s.bytes[s.k])
  {
    var w := EveryMoveIsPossible(v, ms, s.bytes[s.k]);
    hide Holds, Moves, Boots, Tick;
    match s
    case Command(c, bytes, k) => CommandByteArrives(c, bytes, k, v, ms, w);
    case Payload(c, bytes, k) => PayloadByteArrives(c, bytes, k, v, ms, w);
  }

  lemma EveryMoveIsPossible(v: View, ms: nat, b: byte) returns (w: View)
    requires Settled(v.cart) && Resting(v.cart.chip)
    ensures Moves(v, ms, Some(b), w)
  {
    var (after, out) := TurnSpec(v.cart, true, ms, Some(b));
    w := View(after, v.pending + out);
  }

  // ---------- A link that loses nothing and keeps up ----------

  // The time since the last byte stays below the parser's limit.
  predicate InTime(p: Parser, ms: nat) {
    Busy(p) ==> p.idleMs + ms < Limit(p)
  }

  // A turn in time that delivers all of its output.
  ghost predicate Whole(v: View, ms: nat, input: Option<byte>, w: View) {
    && Moves(v, ms, input, w) && InTime(v.cart.parser, ms)
    && w.pending == v.pending + TurnSpec(v.cart, true, ms, input).1
  }

  ghost predicate Delivered(after: Cartridge, rest: seq<byte>, v: View) {
    v.cart.chip == after.chip && SameButTime(v.cart.parser, after.parser) && v.pending == rest
  }

  // The exchange is in the state in which nothing has gone wrong.
  ghost predicate OnTrack(s: Stage, v: View)
    requires StageOk(s)
  {
    Settled(v.cart) &&
    match s
    case Command(c, bytes, k) =>
      if k < 8 then Delivered(c.(parser := c.parser.(command := bytes[..k])), [], v)
      else var (after, out) := AfterCommand(c, bytes); Delivered(after, out, v)
    case Payload(c, bytes, k) =>
      if k < PAYLOAD_SIZE then Delivered(c.(parser := c.parser.(payload := bytes[..k])), [], v)
      else var (after, out) := AfterPayload(c, bytes); Delivered(after, out, v)
    case Answer(after, rest) => Delivered(after, rest, v)
    case Lost(c) => false
    case Deaf(c) => false
  }

  // Time below the limit only moves the clock.
  lemma TimeBelowLimit(c: Cartridge, ms: nat)
    requires Settled(c) && InTime(c.parser, ms)
    ensures var (d, out) := Wait(c, ms);
      out == [] && d.chip == c.chip && SameButTime(d.parser, c.parser) && d.parser.failed == c.parser.failed
  {
  }

  lemma StaysOnTrack(s: Stage, v: View, ms: nat, w: View)
    requires StageOk(s) && OnTrack(s, v) && Whole(v, ms, None, w)
    ensures OnTrack(s, w)
  {
    TimeBelowLimit(v.cart, ms);
    hide Wait, AfterCommand, AfterPayload, Settled;
    assert v.pending + [] == v.pending;
    assert w.cart.chip == v.cart.chip && SameButTime(w.cart.parser, v.cart.parser) && w.pending == v.pending;
  }

  lemma WholeByte(v: View, ms: nat, b: byte, w: View)
    requires Whole(v, ms, Some(b), w) && !v.cart.parser.failed
    ensures Settled(v.cart) && (w.cart, w.pending) == (Handle(v.cart, b).0, v.pending + Handle(v.cart, b).1)
  {
    TimeBelowLimit(v.cart, ms);
    var d := Wait(v.cart, ms).0;
    HandleIgnoresTime(v.cart, d, b);
    hide Wait, Handle;
    var out := Handle(v.cart, b).1;
    assert [] + out == out;
  }

  lemma CommandByteOnTrack(c: Cartridge, bytes: seq<byte>, k: nat, v: View, ms: nat, w: View)
    requires k < 8 && StageOk(Command(c, bytes, k)) && OnTrack(Command(c, bytes, k), v)
    requires Whole(v, ms, Some(bytes[k]), w)
    ensures OnTrack(Command(c, bytes, k + 1), w)
  {
    hide Handle, Whole, TurnSpec, Perform, Boots;
    var ready := c.(parser := c.parser.(command := bytes[..k]));
    WholeByte(v, ms, bytes[k], w);
    if k < 7 {
      QuietByte(v.cart, bytes[k]);
      assert bytes[..k] + [bytes[k]] == bytes[..k + 1];
      assert [] + Handle(v.cart, bytes[k]).1 == [];
    } else {
      HandleIgnoresTime(ready, v.cart, bytes[7]);
      assert [] + Handle(v.cart, bytes[7]).1 == Handle(v.cart, bytes[7]).1;
    }
  }

  lemma PayloadByteOnTrack(c: Cartridge, bytes: seq<byte>, k: nat, v: View, ms: nat, w: View)
    requires k < PAYLOAD_SIZE && StageOk(Payload(c, bytes, k)) && OnTrack(Payload(c, bytes, k), v)
    requires Whole(v, ms, Some(bytes[k]), w)
    ensures OnTrack(Payload(c, bytes, k + 1), w)
  {
    hide Handle, Whole, TurnSpec, Perform, Boots;
    var ready := c.(parser := c.parser.(payload := bytes[..k]));
    WholeByte(v, ms, bytes[k], w);
    var out := Handle(v.cart, bytes[k]).1;
    assert [] + out == out;
    if k < 257 {
      QuietPayloadByte(v.cart, bytes[k]);
      assert bytes[..k] + [bytes[k]] == bytes[..k + 1];
    } else {
      HandleIgnoresTime(ready, v.cart, bytes[257]);
      hide Settled;
    }
  }

  lemma ByteOnTrack(s: Stage, v: View, ms: nat, w: View)
    requires StageOk(s) && (s.Command? || s.Payload?) && s.k < |s.bytes| && OnTrack(s, v)
    requires Whole(v, ms, Some(s.bytes[s.k]), w)
    ensures StageOk(s.(k := s.k + 1)) && OnTrack(s.(k := s.k + 1), w)
  {
    hide OnTrack, Whole;
    match s
    case Command(c, bytes, k) => CommandByteOnTrack(c, bytes, k, v, ms, w);
    case Payload(c, bytes, k) => PayloadByteOnTrack(c, bytes, k, v, ms, w);
  }

  // All bytes are on the way, so the answer is as well.
  lemma AllSent(s: Stage, v: View)
    requires StageOk(s) && OnTrack(s, v)
    ensures s.Command? && s.k == 8 ==>
      var (after, out) := AfterCommand(s.before, s.bytes); Receives(after, out, v) && Delivered(after, out, v)
    ensures s.Payload? && s.k == PAYLOAD_SIZE ==>
      var (after, out) := AfterPayload(s.before, s.bytes); Receives(after, out, v) && Delivered(after, out, v)
  {
    hide AfterCommand, AfterPayload, Settled;
  }

  // ---------- Receiving ----------

  // Taking n bytes off the front of what has been received.
  lemma TakeReceived(after: Cartridge, rest: seq<byte>, v: View, n: nat)
    requires Receives(after, rest, v) && n <= |rest| && n <= |v.pending|
    ensures v.pending[..n] == rest[..n]
    ensures Receives(after, rest[n..], v.(pending := v.pending[n..]))
  {
    if v.pending == rest + [7] {
      assert v.pending[n..] == rest[n..] + [7];
    } else if v.pending <= rest && v.pending != rest {
      assert v.pending[n..] <= rest[n..];
      assert |v.pending[n..]| < |rest[n..]|;
    }
  }

  // With nothing left to receive the device is in step again.
  lemma AllReceived(after: Cartridge, v: View)
    requires Settled(v.cart) && Idle(after) && Receives(after, [], v)
    ensures Synced(after, v)
  {
  }

  // Ready for the payload: the device is writing, or has given up.
  lemma ReadyForPayload(after: Cartridge, v: View, bytes: seq<byte>)
    requires Settled(v.cart) && Settled(after) && Resting(after.chip) && !after.parser.failed && after.parser.writing
    requires after.parser.payload == [] && after.parser.command == [] && |bytes| == PAYLOAD_SIZE
    requires Receives(after, [], v)
    ensures Holds(Payload(after, bytes, 0), v)
  {
    assert [] + [7] == [7];
  }

  lemma ReadyOnTrack(after: Cartridge, v: View, bytes: seq<byte>)
    requires Settled(v.cart) && Settled(after) && Resting(after.chip) && !after.parser.failed && after.parser.writing
    requires after.parser.payload == [] && after.parser.command == [] && |bytes| == PAYLOAD_SIZE
    requires Delivered(after, [], v)
    ensures OnTrack(Payload(after, bytes, 0), v)
  {
    assert bytes[..0] == [];
  }
}
