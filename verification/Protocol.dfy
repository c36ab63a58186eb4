// The command parser of firmware/protocol.c: a byte-at-a-time state machine
// with a payload mode, timeouts and a poisoned state.
module Protocol {
  import opened Octets
  import opened Sst39
  import opened Crc16
  import Programmer
  import FlashOps

  const COMMAND_TIMEOUT_MS: nat := 1000
  const PAYLOAD_TIMEOUT_MS: nat := 2000
  const PAYLOAD_SIZE: nat := 258

  datatype Option<T> = None | Some(value: T)

  function Ascii(s: string): (r: seq<byte>)
    ensures |r| == |s|
  {
    seq(|s|, i requires 0 <= i < |s| => (s[i] as int) % 256)
  }

  // The fixed identity, and the version triple of the build.
  const BOARD_INFO := Ascii("P2000T-FW p01.00")
  const VERSION: seq<byte> := [0, 2, 5]

  // ---------- Hexadecimal numbers ----------

  function Digit(c: byte): Option<nat> {
    if '0' as int <= c <= '9' as int then Some(c - '0' as int)
    else if 'A' as int <= c <= 'F' as int then Some(c - 'A' as int + 10)
    else None
  }

  function DigitCode(d: nat): byte
    requires d < 16
  {
    if d < 10 then '0' as int + d else 'A' as int + d - 10
  }

  // The number written by upper-case digits, or none at a stray character.
  function HexValue(s: seq<byte>): Option<nat> {
    if s == [] then Some(0)
    else
      match (HexValue(s[..|s| - 1]), Digit(s[|s| - 1]))
      case (Some(v), Some(d)) => Some(v * 16 + d)
      case (_, _) => None
  }

  function HexDigits(v: nat, n: nat): (s: seq<byte>)
    ensures |s| == n
    decreases n
  {
    if n == 0 then [] else HexDigits(v / 16, n - 1) + [DigitCode(v % 16)]
  }

  function Power16(n: nat): nat {
    if n == 0 then 1 else 16 * Power16(n - 1)
  }

  // Parsing accepts exactly the fixed-width upper-case form of a number.
  lemma {:induction false} HexValueIff(s: seq<byte>, v: nat)
    ensures HexValue(s) == Some(v) <==> v < Power16(|s|) && s == HexDigits(v, |s|)
  {
    if s != [] {
      var k := |s| - 1;
      assert s == s[..k] + [s[k]];
      HexValueIff(s[..k], v / 16);
      if HexValue(s) == Some(v) {
        var w := HexValue(s[..k]).value;
        var d := Digit(s[k]).value;
        assert v == w * 16 + d && d < 16;
        assert v / 16 == w && v % 16 == d;
      }
      if v < Power16(|s|) && s == HexDigits(v, |s|) {
        assert s[..k] == HexDigits(v / 16, k);
        assert s[k] == DigitCode(v % 16);
      }
    }
  }

  // block_number and bank_number: the parsed value, and whether all
  // characters were digits.
  method ParseHex(s: seq<byte>) returns (ok: bool, v: nat)
    ensures ok <==> HexValue(s).Some?
    ensures ok ==> HexValue(s) == Some(v)
  {
    v := 0;
    var i := 0;
    while i < |s|
      invariant 0 <= i <= |s|
      invariant HexValue(s[..i]) == Some(v)
    {
      assert s[..i + 1][..i] == s[..i];
      var c := s[i];
      var d: nat;
      if '0' as int <= c <= '9' as int {
        d := c - '0' as int;
      } else if 'A' as int <= c <= 'F' as int {
        d := c - 'A' as int + 10;
      } else {
        InvalidPrefix(s, i + 1);
        return false, 0;
      }
      v := v * 16 + d;
      i := i + 1;
    }
    assert s[..i] == s;
    ok := true;
  }

  lemma {:induction false} InvalidPrefix(s: seq<byte>, i: nat)
    requires i <= |s| && HexValue(s[..i]) == None
    ensures HexValue(s) == None
    decreases |s| - i
  {
    if i == |s| {
      assert s[..i] == s;
    } else {
      assert s[..i + 1][..i] == s[..i];
      InvalidPrefix(s, i + 1);
    }
  }

  // The command that opens a write of a block, as the host formats it.
  function WriteCommand(block: nat): (c: seq<byte>)
    ensures |c| == 8
  {
    Ascii("WRBK") + HexDigits(block, 4)
  }

  // ---------- Requests ----------

  // What the parser asks of the flash driver and of the main program.
  datatype Op = ReadId
              | ReadBlock(block: nat)
              | Program(block: nat, data: seq<byte>)
              | EraseAll
              | EraseBank(bank: nat)
              | Boot

  // What one received byte leads to.
  datatype Request = Silent
                   | Reply(bytes: seq<byte>)
                   | Operation(op: Op, prefix: seq<byte>)

  predicate OpOk(op: Op) {
    match op
    case ReadBlock(k) => k < 1024
    case Program(k, data) => k < 1024 && |data| == 0x100
    case EraseBank(k) => k < 16
    case _ => true
  }

  predicate RequestOk(r: Request) {
    r.Operation? ==> OpOk(r.op)
  }

  // The effect and the answer of a request on a resting chip, whatever its
  // identity and however slow it is.
  function Perform(chip: Chip, r: Request): (result: (Chip, seq<byte>))
    requires Resting(chip) && RequestOk(r)
    ensures |result.0.mem| == CHIP_SIZE
  {
    match r
    case Silent => (chip, [])
    case Reply(bytes) => (chip, bytes)
    case Operation(op, prefix) =>
      match op
      case ReadId => (chip, prefix + [chip.die.maker, chip.die.model])
      case ReadBlock(k) => (chip, prefix + [0] + WithTrailer(chip.mem[k * 0x100..k * 0x100 + 0x100]))
      case Program(k, data) => WithStatus(prefix, FlashOps.ProgramBlock(chip, k, data))
      case EraseAll => WithStatus(prefix, FlashOps.EraseAll(chip))
      case EraseBank(k) => WithStatus(prefix, FlashOps.EraseBank(chip, k))
      case Boot => (chip, prefix + [0])
  }

  function WithStatus(prefix: seq<byte>, r: (Chip, byte)): (Chip, seq<byte>) {
    (r.0, prefix + [r.1])
  }

  // What a success status means for any device: the bus cycles of the request
  // show that everything was read back.
  ghost predicate Confirmed(r: Request, out: seq<byte>, cycles: seq<Programmer.Cycle>) {
    r.Operation? && out == r.prefix + [0] ==>
      match r.op
      case Program(k, data) => Programmer.ReadBack(cycles, k * 0x100, data)
      case EraseAll => Programmer.EndsBlank(cycles, 0, CHIP_SIZE)
      case EraseBank(k) => Programmer.EndsBlank(cycles, k * 0x4000, 0x4000)
      case _ => true
  }

  // How a request is served, whatever is in the socket.
  ghost predicate Served(was: Device, r: Request, out: seq<byte>, now: Device, cycles: seq<Programmer.Cycle>)
    requires RequestOk(r)
  {
    && (!r.Operation? ==> now == was && cycles == [])
    && (r.Reply? ==> out == r.bytes)
    && (r.Silent? ==> out == [])
    && Confirmed(r, out, cycles)
    && (Programmer.RestingDevice(was) ==>
          now.Genuine? && (now.chip, out) == Perform(was.chip, r))
  }

  // A request that needs nothing of the device.
  lemma NothingServed(was: Device, r: Request)
    requires RequestOk(r) && !r.Operation?
    ensures Served(was, r, if r.Reply? then r.bytes else [], was, [])
  {
  }

  function WithTrailer(data: seq<byte>): seq<byte> {
    data + Trailer(Crc(ZERO, data))
  }

  // ---------- The state machine ----------

  datatype Parser = Parser(command: seq<byte>, payload: seq<byte>, idleMs: nat, block: nat, bank: nat,
                           writing: bool, failed: bool, bankReadPending: bool)

  function Reset(p: Parser): Parser {
    p.(command := [], payload := [], idleMs := 0, writing := false, failed := false, bankReadPending := false)
  }

  // A complete command of eight bytes.
  function Dispatch(p: Parser, c: seq<byte>): (Parser, Request)
    requires |c| == 8
  {
    if c == Ascii("READINFO") then (p, Reply(c + BOARD_INFO))
    else if c == Ascii("READVERS") then (p, Reply(c + VERSION))
    else if c == Ascii("DEVIDSST") then (p, Operation(ReadId, c))
    else if c == Ascii("BOOTLOAD") then (p, Operation(Boot, c))
    else if c == Ascii("ERASEALL") then (p, Operation(EraseAll, c))
    else if c[..6] == Ascii("RDBANK") then
      match HexValue(c[6..])
      case None => (p, Reply(c + [2]))
      case Some(v) =>
        if v < 16 then (p.(bank := v, bankReadPending := true), Reply(c + [0]))
        else (p.(bank := v), Reply(c + [2]))
    else if c[..6] == Ascii("ERBANK") then
      match HexValue(c[6..])
      case None => (p, Reply(c + [2]))
      case Some(v) => if v < 16 then (p, Operation(EraseBank(v), c)) else (p, Reply(c + [2]))
    else if c[..4] == Ascii("WRBK") then
      match HexValue(c[4..])
      case None => (p, Reply(c + [2]))
      case Some(v) =>
        if v < 1024 then (p.(block := v, writing := true, payload := []), Reply(c + [0]))
        else (p.(block := v), Reply(c + [2]))
    else if c[..4] == Ascii("RDBK") then
      match HexValue(c[4..])
      case None => (p, Reply(c + [2]))
      case Some(v) =>
        if v < 1024 then (p.(block := v), Operation(ReadBlock(v), c)) else (p.(block := v), Reply(c + [2]))
    else (p, Reply(c + Ascii("ERRORCMD")))
  }

  // A complete payload: 256 bytes and their CRC.
  function PayloadRequest(block: nat, payload: seq<byte>): Request
    requires |payload| == PAYLOAD_SIZE
  {
    if FrameOk(payload) then Operation(Program(block, payload[..0x100]), []) else Reply([1])
  }

  // Carriage returns and line feeds between commands are skipped.
  predicate IsBreak(b: byte) {
    b == 13 || b == 10
  }

  function Accept(p: Parser, b: byte): (r: (Parser, Request))
    requires Inv(p)
  {
    if p.failed then (p, Silent)
    else
      var q := p.(idleMs := 0);
      if p.writing then
        var payload := p.payload + [b];
        if |payload| < PAYLOAD_SIZE then (q.(payload := payload), Silent)
        else (q.(payload := payload, writing := false), PayloadRequest(p.block, payload))
      else if p.command == [] && IsBreak(b) then (q, Silent)
      else if |p.command| + 1 != 8 then (q.(command := p.command + [b]), Silent)
      else Dispatch(q.(command := []), p.command + [b])
  }

  function Limit(p: Parser): nat {
    if p.writing then PAYLOAD_TIMEOUT_MS else COMMAND_TIMEOUT_MS
  }

  predicate Busy(p: Parser) {
    p.command != [] || p.writing
  }

  // Time passes. True means that a payload timed out.
  function Tick(p: Parser, ms: nat): (Parser, bool)
    requires Inv(p)
  {
    if !Busy(p) then (p, false)
    else if ms >= Limit(p) - p.idleMs then (Reset(p).(failed := p.writing), p.writing)
    else (p.(idleMs := p.idleMs + ms), false)
  }

  function Take(p: Parser): (Parser, Option<nat>) {
    if p.bankReadPending then (p.(bankReadPending := false), Some(p.bank)) else (p, None)
  }

  predicate Inv(p: Parser) {
    && |p.command| <= 7
    && |p.payload| <= PAYLOAD_SIZE
    && (p.writing ==> p.command == [] && |p.payload| < PAYLOAD_SIZE && p.block < 1024)
    && (p.failed ==> !Busy(p) && !p.bankReadPending)
    && (if Busy(p) then p.idleMs < Limit(p) else p.idleMs == 0)
  }

  lemma DispatchKeepsInv(p: Parser, c: seq<byte>)
    requires Inv(p) && !Busy(p) && !p.failed && |c| == 8
    ensures Inv(Dispatch(p, c).0)
    ensures RequestOk(Dispatch(p, c).1)
    ensures !Dispatch(p, c).0.failed
  {
    hide HexValue;
  }

  lemma AcceptKeepsInv(p: Parser, b: byte)
    requires Inv(p)
    ensures Inv(Accept(p, b).0)
    ensures RequestOk(Accept(p, b).1)
    ensures Accept(p, b).0.failed == p.failed
  {
    hide Dispatch, FrameOk;
    if !p.failed && !p.writing && |p.command| + 1 == 8 {
      DispatchKeepsInv(p.(idleMs := 0, command := []), p.command + [b]);
    }
  }

  // ---------- The code ----------

  class CommandParser {
    const command: array<byte>
    const payload: array<byte>
    var used: nat
    var idleMs: nat
    var received: nat
    var block: nat
    var bank: nat
    var writing: bool
    var failed: bool
    var bankReadPending: bool

    ghost predicate Valid()
      reads this, command, payload
    {
      && command.Length == 8 && payload.Length == PAYLOAD_SIZE && command != payload
      && used <= 8 && received <= PAYLOAD_SIZE
      && Inv(State())
    }

    ghost function State(): Parser
      requires command.Length == 8 && payload.Length == PAYLOAD_SIZE
      requires used <= 8 && received <= PAYLOAD_SIZE
      reads this, command, payload
    {
      Parser(command[..used], payload[..received], idleMs, block, bank, writing, failed, bankReadPending)
    }

    constructor ()
      ensures Valid() && fresh(command) && fresh(payload)
      ensures State() == Parser([], [], 0, 0, 0, false, false, false)
    {
      command := new byte[8](_ => 0);
      payload := new byte[PAYLOAD_SIZE](_ => 0);
      used := 0;
      idleMs := 0;
      received := 0;
      block := 0;
      bank := 0;
      writing := false;
      failed := false;
      bankReadPending := false;
    }

    method ResetParser()
      requires Valid()
      modifies this
      ensures Valid() && State() == Reset(old(State()))
    {
      used := 0;
      idleMs := 0;
      writing := false;
      failed := false;
      bankReadPending := false;
      received := 0;
    }

    method TickParser(ms: nat) returns (timedOut: bool)
      requires Valid()
      modifies this
      ensures Valid() && (State(), timedOut) == Tick(old(State()), ms)
    {
      if used == 0 && !writing {
        return false;
      }
      var limit := if writing then PAYLOAD_TIMEOUT_MS else COMMAND_TIMEOUT_MS;
      if ms >= limit - idleMs {
        var wasWriting := writing;
        ResetParser();
        failed := wasWriting;
        return wasWriting;
      }
      idleMs := idleMs + ms;
      timedOut := false;
    }

    // Time that may pass before what has been taken in is dropped.
    predicate Patient(ms: nat)
      reads this
    {
      (used != 0 || writing) ==> idleMs + ms < if writing then PAYLOAD_TIMEOUT_MS else COMMAND_TIMEOUT_MS
    }

    method TakeBankRead() returns (taken: bool, which: nat)
      requires Valid()
      modifies this
      ensures Valid() && State() == Take(old(State())).0
      ensures Take(old(State())).1 == if taken then Some(which) else None
    {
      if !bankReadPending {
        return false, 0;
      }
      which := bank;
      bankReadPending := false;
      taken := true;
    }

    // One byte from the host. The answer is what the driver and the parser
    // make of it; `request` is what was asked of the driver.
    method Feed(b: byte, driver: Programmer.Driver) returns (out: seq<byte>, boot: bool, ghost request: Request)
      requires Valid() && driver.Valid() && driver.pins.Idle()
      modifies this, command, payload, driver
      ensures Valid() && driver.Valid() && driver.pins.Idle()
      ensures (State(), request) == Accept(old(State()), b)
      ensures RequestOk(request)
      ensures boot == (request.Operation? && request.op.Boot?)
      ensures old(driver.log) <= driver.log
      ensures Served(old(driver.device), request, out, driver.device, driver.log[|old(driver.log)|..])
    {
      AcceptKeepsInv(State(), b);
      hide Perform, HexValue, Dispatch, Served, PayloadRequest, FrameOk, Ascii;
      NothingServed(driver.device, Silent);
      assert driver.log[|driver.log|..] == [];
      if failed {
        return [], false, Silent;
      }
      idleMs := 0;
      if writing {
        boot := false;
        out, request := FeedPayload(b, driver);
      } else {
        out, boot, request := FeedCommand(b, driver);
      }
    }

    // Outside payload mode bytes are collected until a command is complete.
    method FeedCommand(b: byte, driver: Programmer.Driver) returns (out: seq<byte>, boot: bool, ghost request: Request)
      requires Valid() && driver.Valid() && driver.pins.Idle()
      requires !writing && !failed && idleMs == 0
      modifies this, command, driver
      ensures Valid() && driver.Valid() && driver.pins.Idle()
      ensures (State(), request) == Accept(old(State()), b)
      ensures RequestOk(request)
      ensures boot == (request.Operation? && request.op.Boot?)
      ensures old(driver.log) <= driver.log
      ensures Served(old(driver.device), request, out, driver.device, driver.log[|old(driver.log)|..])
    {
      hide Perform, HexValue, Dispatch, Served, PayloadRequest, FrameOk, Ascii;
      NothingServed(driver.device, Silent);
      assert driver.log[|driver.log|..] == [];
      boot := false;
      if used == 0 && (b == 13 || b == 10) {
        return [], false, Silent;
      }
      command[used] := b;
      used := used + 1;
      assert command[..used] == old(command[..used]) + [b];
      if used != 8 {
        return [], false, Silent;
      }
      var c := command[..];
      assert c == old(command[..used]) + [b];
      used := 0;
      assert State() == old(State()).(command := []);
      DispatchKeepsInv(State(), c);
      out, boot, request := Execute(c, driver);
    }

    // Payload mode: the byte is stored, and the last one decides.
    method FeedPayload(b: byte, driver: Programmer.Driver) returns (out: seq<byte>, ghost request: Request)
      requires Valid() && driver.Valid() && driver.pins.Idle()
      requires writing && !failed && idleMs == 0
      modifies this, payload, driver
      ensures Valid() && driver.Valid() && driver.pins.Idle()
      ensures (State(), request) == Accept(old(State()), b)
      ensures RequestOk(request)
      ensures request.Operation? ==> !request.op.Boot?
      ensures old(driver.log) <= driver.log
      ensures Served(old(driver.device), request, out, driver.device, driver.log[|old(driver.log)|..])
    {
      hide FrameOk, Dispatch, HexValue, Served;
      PayloadTaken(State(), b);
      hide Accept;
      payload[received] := b;
      received := received + 1;
      assert payload[..received] == old(payload[..received]) + [b];
      NothingServed(driver.device, Silent);
      assert driver.log[|driver.log|..] == [];
      if received < PAYLOAD_SIZE {
        return [], Silent;
      }
      writing := false;
      var data := payload[..256];
      assert data == payload[..received][..256];
      request := PayloadRequest(block, payload[..received]);
      var ok := CheckFrame(payload[..]);
      assert payload[..] == payload[..received];
      var status: byte := 1;
      if ok {
        status := CallProgram(driver, block, data);
      }
      out := [status];
      if !ok {
        NothingServed(driver.device, request);
      }
      assert [] + [status] == out;
    }

    // A complete command, compared in the order of the source.
    method Execute(c: seq<byte>, driver: Programmer.Driver) returns (out: seq<byte>, boot: bool, ghost request: Request)
      requires Valid() && driver.Valid() && driver.pins.Idle()
      requires |c| == 8 && !Busy(State()) && !failed
      modifies this, driver
      ensures Valid() && driver.Valid() && driver.pins.Idle()
      ensures (State(), request) == Dispatch(old(State()), c)
      ensures RequestOk(request)
      ensures boot == (request.Operation? && request.op.Boot?)
      ensures !request.Silent?
      ensures old(driver.log) <= driver.log
      ensures Served(old(driver.device), request, out, driver.device, driver.log[|old(driver.log)|..])
    {
      DispatchKeepsInv(State(), c);
      hide HexValue, Crc, Trailer, Ascii, Served;
      assert driver.log[|driver.log|..] == [];
      boot := false;
      request := Dispatch(State(), c).1;
      if request.Reply? {
        NothingServed(driver.device, request);
      }
      if c == Ascii("READINFO") {
        out := c + BOARD_INFO;
      } else if c == Ascii("READVERS") {
        out := c + VERSION;
      } else if c == Ascii("DEVIDSST") {
        var maker, model := CallReadId(driver, c);
        out := c + [maker, model];
      } else if c == Ascii("BOOTLOAD") {
        out := c + [0];
        boot := true;
        BootServed(driver.device, c);
      } else if c == Ascii("ERASEALL") {
        var status := CallErase(driver, c);
        out := c + [status];
      } else if c[..6] == Ascii("RDBANK") || c[..6] == Ascii("ERBANK") {
        out := ExecuteBank(c, driver);
      } else if c[..4] == Ascii("WRBK") || c[..4] == Ascii("RDBK") {
        out := ExecuteBlock(c, driver);
      } else {
        out := c + Ascii("ERRORCMD");
      }
    }

    method ExecuteBank(c: seq<byte>, driver: Programmer.Driver) returns (out: seq<byte>)
      requires Valid() && driver.Valid() && driver.pins.Idle()
      requires |c| == 8 && !Busy(State()) && !failed
      requires IsBankCommand(c)
      modifies this, driver
      ensures Valid() && driver.Valid() && driver.pins.Idle()
      ensures State() == Dispatch(old(State()), c).0
      ensures var request := Dispatch(old(State()), c).1;
        && RequestOk(request)
        && old(driver.log) <= driver.log
        && Served(old(driver.device), request, out, driver.device, driver.log[|old(driver.log)|..])
    {
      DispatchKeepsInv(State(), c);
      BankDispatch(State(), c);
      assert driver.log[|driver.log|..] == [];
      hide HexValue, Crc, Trailer, Served, Dispatch, IsBankCommand, Ascii;
      ghost var request := Dispatch(State(), c).1;
      if request.Reply? {
        NothingServed(driver.device, request);
      }
      var ok, v := ParseHex(c[6..]);
      if c[..6] == Ascii("RDBANK") {
        if ok {
          bank := v;
        }
        if !ok || v >= 16 {
          return c + [2];
        }
        bankReadPending := true;
        return c + [0];
      }
      if !ok || v >= 16 {
        return c + [2];
      }
      var status := CallEraseBank(driver, v, c);
      out := c + [status];
    }

    method ExecuteBlock(c: seq<byte>, driver: Programmer.Driver) returns (out: seq<byte>)
      requires Valid() && driver.Valid() && driver.pins.Idle()
      requires |c| == 8 && !Busy(State()) && !failed
      requires IsBlockCommand(c)
      modifies this, driver
      ensures Valid() && driver.Valid() && driver.pins.Idle()
      ensures State() == Dispatch(old(State()), c).0
      ensures var request := Dispatch(old(State()), c).1;
        && RequestOk(request)
        && old(driver.log) <= driver.log
        && Served(old(driver.device), request, out, driver.device, driver.log[|old(driver.log)|..])
    {
      DispatchKeepsInv(State(), c);
      BlockDispatch(State(), c);
      assert driver.log[|driver.log|..] == [];
      hide HexValue, Crc, Trailer, Served, Dispatch, IsBlockCommand, Ascii, WithTrailer;
      ghost var request := Dispatch(State(), c).1;
      if request.Reply? {
        NothingServed(driver.device, request);
      }
      var write := c[..4] == Ascii("WRBK");
      var ok, v := ParseHex(c[4..]);
      if ok {
        block := v;
      }
      if !ok || v >= 1024 {
        return c + [2];
      }
      if write {
        writing := true;
        received := 0;
        return c + [0];
      }
      var status, data := CallReadBlock(driver, v, c);
      out := AnswerWithCrc(c, status, data);
    }
  }

  method AnswerWithCrc(c: seq<byte>, status: byte, data: seq<byte>) returns (out: seq<byte>)
    ensures out == c + [status] + WithTrailer(data)
  {
    hide Crc, Trailer;
    var crc := CrcUpdate(ZERO, data);
    out := c + [status] + data + Trailer(crc);
    assert out == c + [status] + (data + Trailer(crc));
  }

  lemma BankDispatch(p: Parser, c: seq<byte>)
    requires |c| == 8 && IsBankCommand(c)
    ensures Dispatch(p, c) ==
      match HexValue(c[6..])
      case None => (p, Reply(c + [2]))
      case Some(v) =>
        if c[..6] == Ascii("RDBANK") then
          if v < 16 then (p.(bank := v, bankReadPending := true), Reply(c + [0]))
          else (p.(bank := v), Reply(c + [2]))
        else if v < 16 then (p, Operation(EraseBank(v), c))
        else (p, Reply(c + [2]))
  {
    hide HexValue, Ascii;
  }

  // A byte of a payload.
  lemma PayloadTaken(p: Parser, b: byte)
    requires Inv(p) && p.writing && !p.failed && p.idleMs == 0
    ensures var payload := p.payload + [b];
      Accept(p, b) ==
        if |payload| < PAYLOAD_SIZE then (p.(payload := payload), Silent)
        else (p.(payload := payload, writing := false), PayloadRequest(p.block, payload))
  {
    hide FrameOk, Dispatch;
  }

  // The letters that tell the commands apart.
  lemma Letters()
    ensures Ascii("READINFO")[0] == Ascii("READVERS")[0] == 'R' as int
    ensures Ascii("READINFO")[1] == Ascii("READVERS")[1] == Ascii("DEVIDSST")[1] == 'E' as int
    ensures Ascii("READINFO")[2] == Ascii("READVERS")[2] == 'A' as int
    ensures Ascii("DEVIDSST")[0] == 'D' as int
    ensures Ascii("BOOTLOAD")[0] == 'B' as int && Ascii("BOOTLOAD")[1] == 'O' as int
    ensures Ascii("ERASEALL")[0] == 'E' as int && Ascii("ERASEALL")[1] == 'R' as int
    ensures Ascii("ERASEALL")[2] == 'A' as int
  {
  }

  lemma NumberedLetters()
    ensures Ascii("RDBANK")[0] == 'R' as int && Ascii("RDBANK")[1] == 'D' as int
    ensures Ascii("RDBANK")[2] == 'B' as int && Ascii("RDBANK")[3] == 'A' as int
    ensures Ascii("ERBANK")[0] == 'E' as int && Ascii("ERBANK")[1] == 'R' as int && Ascii("ERBANK")[2] == 'B' as int
    ensures Ascii("WRBK")[0] == 'W' as int && Ascii("WRBK")[1] == 'R' as int && Ascii("WRBK")[3] == 'K' as int
    ensures Ascii("RDBK")[0] == 'R' as int && Ascii("RDBK")[1] == 'D' as int && Ascii("RDBK")[3] == 'K' as int
  {
  }

  lemma BlockCommandNames()
    ensures Ascii("RDBK") != Ascii("WRBK")
  {
    NumberedLetters();
    hide Ascii;
  }

  lemma BlockDispatch(p: Parser, c: seq<byte>)
    requires |c| == 8 && IsBlockCommand(c)
    ensures Dispatch(p, c) ==
      match HexValue(c[4..])
      case None => (p, Reply(c + [2]))
      case Some(v) =>
        if v >= 1024 then (p.(block := v), Reply(c + [2]))
        else if c[..4] == Ascii("WRBK") then (p.(block := v, writing := true, payload := []), Reply(c + [0]))
        else (p.(block := v), Operation(ReadBlock(v), c))
  {
    hide HexValue, Ascii;
  }

  // ---------- The calls through protocol_ops_t ----------

  method CallReadId(driver: Programmer.Driver, ghost prefix: seq<byte>) returns (maker: byte, model: byte)
    requires driver.Valid() && driver.pins.Idle()
    modifies driver
    ensures driver.Valid() && driver.pins.Idle()
    ensures old(driver.log) <= driver.log
    ensures Served(old(driver.device), Operation(ReadId, prefix), prefix + [maker, model],
                   driver.device, driver.log[|old(driver.log)|..])
  {
    maker, model := driver.ReadId();
    assert (prefix + [maker, model])[|prefix|..] == [maker, model];
  }

  method CallReadBlock(driver: Programmer.Driver, block: nat, ghost prefix: seq<byte>)
    returns (status: byte, data: seq<byte>)
    requires driver.Valid() && driver.pins.Idle() && block < 1024
    modifies driver
    ensures driver.Valid() && driver.pins.Idle()
    ensures status == 0 && old(driver.log) <= driver.log
    ensures Served(old(driver.device), Operation(ReadBlock(block), prefix), prefix + [0] + WithTrailer(data),
                   driver.device, driver.log[|old(driver.log)|..])
  {
    hide Crc, Trailer;
    ghost var was := driver.device;
    status, data := driver.ReadBlock(block);
    if Programmer.RestingDevice(was) {
      ReadRangeOfResting(was.chip, block * 0x100, 0x100);
    }
  }

  method CallProgram(driver: Programmer.Driver, block: nat, data: seq<byte>) returns (status: byte)
    requires driver.Valid() && driver.pins.Idle() && block < 1024 && |data| == 0x100
    modifies driver
    ensures driver.Valid() && driver.pins.Idle()
    ensures old(driver.log) <= driver.log
    ensures Served(old(driver.device), Operation(Program(block, data), []), [status],
                   driver.device, driver.log[|old(driver.log)|..])
  {
    hide Programmer.ReadBack;
    status := driver.ProgramBlock(block, data);
    SingleStatus([], status);
  }

  method CallErase(driver: Programmer.Driver, ghost prefix: seq<byte>) returns (status: byte)
    requires driver.Valid() && driver.pins.Idle()
    modifies driver
    ensures driver.Valid() && driver.pins.Idle()
    ensures old(driver.log) <= driver.log
    ensures Served(old(driver.device), Operation(EraseAll, prefix), prefix + [status],
                   driver.device, driver.log[|old(driver.log)|..])
  {
    hide Programmer.EndsBlank;
    status := driver.Erase();
    SingleStatus(prefix, status);
  }

  method CallEraseBank(driver: Programmer.Driver, bank: nat, ghost prefix: seq<byte>) returns (status: byte)
    requires driver.Valid() && driver.pins.Idle() && bank < 16
    modifies driver
    ensures driver.Valid() && driver.pins.Idle()
    ensures old(driver.log) <= driver.log
    ensures Served(old(driver.device), Operation(EraseBank(bank), prefix), prefix + [status],
                   driver.device, driver.log[|old(driver.log)|..])
  {
    hide Programmer.EndsBlank;
    status := driver.EraseBank(bank);
    SingleStatus(prefix, status);
  }

  lemma SingleStatus(prefix: seq<byte>, status: byte)
    ensures [] + [status] == [status]
    ensures (prefix + [status])[|prefix|] == status && (prefix + [status])[..|prefix|] == prefix
    ensures forall s: byte :: prefix + [status] == prefix + [s] <==> status == s
  {
    forall s: byte
      ensures prefix + [status] == prefix + [s] <==> status == s
    {
      assert (prefix + [status])[|prefix|] == status && (prefix + [s])[|prefix|] == s;
    }
  }

  lemma BootServed(was: Device, prefix: seq<byte>)
    ensures Served(was, Operation(Boot, prefix), prefix + [0], was, [])
  {
  }

  // A command that reaches the branches for banks, or the one for blocks.
  predicate IsBankCommand(c: seq<byte>)
    requires |c| == 8
  {
    && c != Ascii("READINFO") && c != Ascii("READVERS") && c != Ascii("DEVIDSST")
    && c != Ascii("BOOTLOAD") && c != Ascii("ERASEALL")
    && (c[..6] == Ascii("RDBANK") || c[..6] == Ascii("ERBANK"))
  }

  predicate IsBlockCommand(c: seq<byte>)
    requires |c| == 8
  {
    && c != Ascii("READINFO") && c != Ascii("READVERS") && c != Ascii("DEVIDSST")
    && c != Ascii("BOOTLOAD") && c != Ascii("ERASEALL")
    && c[..6] != Ascii("RDBANK") && c[..6] != Ascii("ERBANK")
    && (c[..4] == Ascii("WRBK") || c[..4] == Ascii("RDBK"))
  }

  method CheckFrame(frame: seq<byte>) returns (ok: bool)
    requires |frame| == PAYLOAD_SIZE
    ensures ok == FrameOk(frame)
  {
    var crc := CrcUpdate(ZERO, frame[..256]);
    ok := Word(frame[256], frame[257]) == crc;
  }
}
