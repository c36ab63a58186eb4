// The batch emulator of src/tests/support/emulated_serial_transport.cpp.
module Emulator {
  import opened Octets
  import opened Sst39
  import opened Crc16
  import opened Protocol
  import opened Device

  // Identity and chip id that the emulated cartridge reports.
  datatype Config = Config(boardInfo: seq<byte>, chipId: nat)

  datatype Host = Host(buffer: seq<byte>, pending: Option<nat>, flash: seq<byte>)

  // ---------- Specification ----------

  predicate HasFrame(e: Host) {
    if e.pending.Some? then |e.buffer| >= PAYLOAD_SIZE else |e.buffer| >= 8
  }

  predicate Sound(e: Host) {
    |e.flash| == CHIP_SIZE && (e.pending.Some? ==> e.pending.value < 1024)
  }

  // programRange: all of the data, or nothing.
  function ProgramRange(flash: seq<byte>, offset: nat, data: seq<byte>): (r: (seq<byte>, bool))
    ensures |r.0| == |flash|
  {
    if offset + |data| > |flash| || !CanProgram(flash, offset, data) then (flash, false)
    else (Overlay(flash, offset, data), true)
  }

  function PayloadAnswer(cfg: Config, flash: seq<byte>, block: nat, payload: seq<byte>): (r: (seq<byte>, seq<byte>))
    requires |payload| == PAYLOAD_SIZE
    ensures |r.0| == |flash|
  {
    if !FrameOk(payload) then (flash, [1])
    else if cfg.chipId != 0xbfb6 then (flash, [3])
    else
      var r := ProgramRange(flash, block * 0x100, payload[..0x100]);
      (r.0, if r.1 then [0] else [6])
  }

  // A command: the flash afterwards, the bytes queued, the write it opens.
  function CommandAnswer(cfg: Config, flash: seq<byte>, c: seq<byte>): (r: (seq<byte>, seq<byte>, Option<nat>))
    requires |c| == 8 && |flash| == CHIP_SIZE
    ensures |r.0| == |flash|
    ensures r.2.Some? ==> r.2.value < 1024
  {
    var wrongChip := cfg.chipId != 0xbfb6;
    if c == Ascii("READINFO") then (flash, c + cfg.boardInfo, None)
    else if c == Ascii("READVERS") then (flash, c + VERSION, None)
    else if c == Ascii("DEVIDSST") then (flash, c + [Low8(cfg.chipId / 0x100), Low8(cfg.chipId)], None)
    else if c == Ascii("ERASEALL") then
      if wrongChip then (flash, c + [3], None) else (Blank(flash, 0, CHIP_SIZE), c + [0], None)
    else if c == Ascii("BOOTLOAD") then (flash, c + [0], None)
    else if c[..6] == Ascii("RDBANK") then
      match HexValue(c[6..])
      case Some(v) =>
        if v >= 16 then (flash, c + [2], None)
        else if wrongChip then (flash, c + [3], None)
        else (flash, c + ([0] + WithTrailer(BankData(flash, v))), None)
      case None => (flash, c + [2], None)
    else if c[..6] == Ascii("ERBANK") then
      match HexValue(c[6..])
      case Some(v) =>
        if v >= 16 then (flash, c + [2], None)
        else if wrongChip then (flash, c + [3], None)
        else (Blank(flash, v * BANK_SIZE, BANK_SIZE), c + [0], None)
      case None => (flash, c + [2], None)
    else if c[..4] == Ascii("RDBK") then
      match HexValue(c[4..])
      case Some(v) =>
        if v >= 1024 then (flash, c + [2], None)
        else if wrongChip then (flash, c + [3], None)
        else (flash, c + ([0] + WithTrailer(BlockData(flash, v))), None)
      case None => (flash, c + [2], None)
    else if c[..4] == Ascii("WRBK") then
      match HexValue(c[4..])
      case Some(v) => if v >= 1024 then (flash, c + [2], None) else (flash, c + [0], Some(v))
      case None => (flash, c + [2], None)
    else (flash, c + Ascii("ERRORCMD"), None)
  }

  function TakeFrame(cfg: Config, e: Host): (r: (Host, seq<byte>))
    requires Sound(e) && HasFrame(e)
    ensures Sound(r.0) && |r.0.buffer| < |e.buffer|
  {
    if e.pending.Some? then
      var a := PayloadAnswer(cfg, e.flash, e.pending.value, e.buffer[..PAYLOAD_SIZE]);
      (Host(e.buffer[PAYLOAD_SIZE..], None, a.0), a.1)
    else
      var a := CommandAnswer(cfg, e.flash, e.buffer[..8]);
      (Host(e.buffer[8..], a.2, a.0), a.1)
  }

  // Frames are served as long as a complete one is buffered.
  function Drain(cfg: Config, e: Host): (r: (Host, seq<byte>))
    requires Sound(e)
    ensures Sound(r.0) && !HasFrame(r.0)
    decreases |e.buffer|
  {
    if !HasFrame(e) then (e, [])
    else
      var first := TakeFrame(cfg, e);
      var rest := Drain(cfg, first.0);
      (rest.0, first.1 + rest.1)
  }

  // One write of the host to the transport.
  function Submit(cfg: Config, e: Host, s: seq<byte>): (r: (Host, seq<byte>))
    requires Sound(e)
    ensures Sound(r.0)
  {
    Drain(cfg, e.(buffer := e.buffer + s))
  }

  function SubmitAll(cfg: Config, e: Host, chunks: seq<seq<byte>>): (r: (Host, seq<byte>))
    requires Sound(e)
    ensures Sound(r.0)
    decreases |chunks|
  {
    if chunks == [] then (e, [])
    else
      var before := SubmitAll(cfg, e, chunks[..|chunks| - 1]);
      var last := Submit(cfg, before.0, chunks[|chunks| - 1]);
      (last.0, before.1 + last.1)
  }

  // ---------- The code ----------

  class Transport {
    const cfg: Config
    var writeBuffer: seq<byte>
    var readBuffer: seq<byte>
    var pendingBlock: nat
    var pendingBlockWrite: bool
    const flash: array<byte>

    ghost predicate Valid()
      reads this, flash
    {
      && flash.Length == CHIP_SIZE
      && (pendingBlockWrite ==> pendingBlock < 1024)
    }

    ghost function State(): Host
      reads this, flash
    {
      Host(writeBuffer, if pendingBlockWrite then Some(pendingBlock) else None, flash[..])
    }

    constructor (cfg: Config, image: seq<byte>)
      requires |image| == CHIP_SIZE
      ensures Valid() && fresh(flash)
      ensures State() == Host([], None, image) && readBuffer == []
      ensures this.cfg == cfg
    {
      this.cfg := cfg;
      writeBuffer := [];
      readBuffer := [];
      pendingBlock := 0;
      pendingBlockWrite := false;
      flash := new byte[CHIP_SIZE](i requires 0 <= i < |image| => image[i]);
    }

    // process_write_buffer
    method ProcessWriteBuffer()
      requires Valid()
      modifies this, flash
      ensures Valid()
      ensures State() == Drain(cfg, old(State())).0
      ensures readBuffer == old(readBuffer) + Drain(cfg, old(State())).1
    {
      hide CommandAnswer, PayloadAnswer, TakeFrame;
      ghost var whole := Drain(cfg, State());
      assert readBuffer + whole.1 == old(readBuffer) + whole.1;
      while true
        invariant Valid()
        invariant Drain(cfg, State()).0 == whole.0
        invariant readBuffer + Drain(cfg, State()).1 == old(readBuffer) + whole.1
        decreases |writeBuffer|
      {
        ghost var before := State();
        ghost var queued := readBuffer;
        if pendingBlockWrite {
          if |writeBuffer| < 258 {
            assert readBuffer + [] == readBuffer;
            return;
          }
          ServePayload();
        } else {
          if |writeBuffer| < 8 {
            assert readBuffer + [] == readBuffer;
            return;
          }
          ServeCommand();
        }
        assert queued + TakeFrame(cfg, before).1 + Drain(cfg, State()).1
            == queued + (TakeFrame(cfg, before).1 + Drain(cfg, State()).1);
      }
    }

    method ServePayload()
      requires Valid() && pendingBlockWrite && |writeBuffer| >= PAYLOAD_SIZE
      modifies this, flash
      ensures Valid()
      ensures State() == TakeFrame(cfg, old(State())).0
      ensures readBuffer == old(readBuffer) + TakeFrame(cfg, old(State())).1
    {
      hide Crc, And;
      var payload := writeBuffer[..258];
      writeBuffer := writeBuffer[258..];
      pendingBlockWrite := false;
      var data := payload[..256];
      var crc := CrcUpdate(ZERO, data);
      if Word(payload[256], payload[257]) != crc {
        readBuffer := readBuffer + [1];
      } else if cfg.chipId != 0xbfb6 {
        readBuffer := readBuffer + [3];
      } else {
        var ok := ProgramFlash(pendingBlock * 256, data);
        readBuffer := readBuffer + if ok then [0] else [6];
      }
    }

    // programRange: checked completely before anything is copied.
    method ProgramFlash(offset: nat, data: seq<byte>) returns (ok: bool)
      modifies flash
      ensures (flash[..], ok) == ProgramRange(old(flash[..]), offset, data)
    {
      hide And;
      if offset + |data| > flash.Length {
        return false;
      }
      var i := 0;
      while i < |data|
        invariant 0 <= i <= |data|
        invariant flash[..] == old(flash[..])
        invariant forall j | 0 <= j < i :: And(flash[offset + j], data[j]) == data[j]
      {
        if And(flash[offset + i], data[i]) != data[i] {
          return false;
        }
        i := i + 1;
      }
      forall k | 0 <= k < |data| {
        flash[offset + k] := data[k];
      }
      assert flash[..] == Overlay(old(flash[..]), offset, data);
      ok := true;
    }

    method EraseRange(offset: nat, length: nat)
      requires offset + length <= flash.Length
      modifies flash
      ensures flash[..] == Blank(old(flash[..]), offset, length)
    {
      forall k | offset <= k < offset + length {
        flash[k] := 0xff;
      }
    }

    method ServeCommand()
      requires Valid() && !pendingBlockWrite && |writeBuffer| >= 8
      modifies this, flash
      ensures Valid()
      ensures State() == TakeFrame(cfg, old(State())).0
      ensures readBuffer == old(readBuffer) + TakeFrame(cfg, old(State())).1
    {
      hide HexValue, Crc, Trailer, Ascii;
      var c := writeBuffer[..8];
      writeBuffer := writeBuffer[8..];
      readBuffer := readBuffer + c;
      ghost var echoed := readBuffer;
      ghost var answer := CommandAnswer(cfg, flash[..], c);
      var reply: seq<byte>;
      if c == Ascii("READINFO") {
        reply := cfg.boardInfo;
      } else if c == Ascii("READVERS") {
        reply := VERSION;
      } else if c == Ascii("DEVIDSST") {
        reply := [Low8(cfg.chipId / 0x100), Low8(cfg.chipId)];
      } else if c == Ascii("ERASEALL") {
        if cfg.chipId != 0xbfb6 {
          reply := [3];
        } else {
          EraseRange(0, CHIP_SIZE);
          reply := [0];
        }
      } else if c == Ascii("BOOTLOAD") {
        reply := [0];
      } else if c[..6] == Ascii("RDBANK") || c[..6] == Ascii("ERBANK") {
        reply := BankReply(c);
      } else if c[..4] == Ascii("RDBK") || c[..4] == Ascii("WRBK") {
        reply := BlockReply(c);
      } else {
        reply := Ascii("ERRORCMD");
      }
      readBuffer := readBuffer + reply;
      assert echoed + reply == old(readBuffer) + (c + reply);
    }

    method BankReply(c: seq<byte>) returns (reply: seq<byte>)
      requires Valid() && |c| == 8 && IsBankCommand(c)
      modifies flash
      ensures flash[..] == CommandAnswer(cfg, old(flash[..]), c).0
      ensures CommandAnswer(cfg, old(flash[..]), c).1 == c + reply
      ensures CommandAnswer(cfg, old(flash[..]), c).2 == None
    {
      hide HexValue, Crc, Trailer, Ascii;
      var ok, v := ParseHex(c[6..]);
      if !ok || v >= 16 {
        return [2];
      }
      if cfg.chipId != 0xbfb6 {
        return [3];
      }
      if c[..6] == Ascii("RDBANK") {
        var data := flash[v * 0x4000..v * 0x4000 + 0x4000];
        assert data == BankData(flash[..], v);
        var crc := CrcUpdate(ZERO, data);
        return [0] + (data + Trailer(crc));
      }
      EraseRange(v * 0x4000, 0x4000);
      reply := [0];
    }

    method BlockReply(c: seq<byte>) returns (reply: seq<byte>)
      requires Valid() && |c| == 8 && IsBlockCommand(c) && !pendingBlockWrite
      modifies this
      ensures Valid() && unchanged(`writeBuffer) && unchanged(`readBuffer)
      ensures flash[..] == CommandAnswer(cfg, flash[..], c).0
      ensures CommandAnswer(cfg, flash[..], c).1 == c + reply
      ensures CommandAnswer(cfg, flash[..], c).2 == if pendingBlockWrite then Some(pendingBlock) else None
    {
      hide HexValue, Crc, Trailer, Ascii;
      BlockCommandNames();
      var ok, v := ParseHex(c[4..]);
      if !ok || v >= 1024 {
        return [2];
      }
      if c[..4] == Ascii("WRBK") {
        pendingBlock := v;
        pendingBlockWrite := true;
        return [0];
      }
      if cfg.chipId != 0xbfb6 {
        return [3];
      }
      var data := flash[v * 0x100..v * 0x100 + 0x100];
      assert data == BlockData(flash[..], v);
      var crc := CrcUpdate(ZERO, data);
      reply := [0] + (data + Trailer(crc));
    }

    // write: data is buffered, then complete frames are served.
    method WriteBytes(data: seq<byte>)
      requires Valid()
      modifies this, flash
      ensures Valid()
      ensures State() == Submit(cfg, old(State()), data).0
      ensures readBuffer == old(readBuffer) + Submit(cfg, old(State()), data).1
    {
      writeBuffer := writeBuffer + data;
      ProcessWriteBuffer();
    }
  }

  // ---------- Chunking does not matter ----------

  lemma {:induction false} DrainMore(cfg: Config, e: Host, t: seq<byte>)
    requires Sound(e)
    ensures var first := Drain(cfg, e);
      var second := Submit(cfg, first.0, t);
      Submit(cfg, e, t) == (second.0, first.1 + second.1)
    decreases |e.buffer|
  {
    hide CommandAnswer, PayloadAnswer;
    var second := Submit(cfg, Drain(cfg, e).0, t);
    if !HasFrame(e) {
      assert [] + second.1 == second.1;
    } else {
      var longer := e.(buffer := e.buffer + t);
      var next := TakeFrame(cfg, e);
      var n := if e.pending.Some? then PAYLOAD_SIZE else 8;
      assert longer.buffer[..n] == e.buffer[..n];
      assert longer.buffer[n..] == e.buffer[n..] + t;
      assert TakeFrame(cfg, longer) == (next.0.(buffer := next.0.buffer + t), next.1);
      DrainMore(cfg, next.0, t);
      var rest := Drain(cfg, next.0);
      assert (next.1 + rest.1) + second.1 == next.1 + (rest.1 + second.1);
    }
  }

  lemma SubmitConcat(cfg: Config, e: Host, s: seq<byte>, t: seq<byte>)
    requires Sound(e)
    ensures var first := Submit(cfg, e, s);
      var second := Submit(cfg, first.0, t);
      Submit(cfg, e, s + t) == (second.0, first.1 + second.1)
  {
    hide Drain, HasFrame;
    var longer := e.(buffer := e.buffer + s);
    DrainMore(cfg, longer, t);
    assert e.buffer + (s + t) == e.buffer + s + t;
  }

  lemma {:induction false} ChunkingIrrelevant(cfg: Config, e: Host, chunks: seq<seq<byte>>)
    requires Sound(e) && !HasFrame(e)
    ensures SubmitAll(cfg, e, chunks) == Submit(cfg, e, Flatten(chunks))
    decreases |chunks|
  {
    if chunks == [] {
      assert e.buffer + [] == e.buffer;
    } else {
      hide Submit;
      var k := |chunks| - 1;
      FlattenLast(chunks);
      ChunkingIrrelevant(cfg, e, chunks[..k]);
      SubmitConcat(cfg, e, Flatten(chunks[..k]), chunks[k]);
    }
  }
}
