// The answers that the parser gives by itself, octet by octet.
module Answers {
  import opened Octets
  import opened Sst39
  import opened Protocol
  import opened Device
  import opened Link
  import opened Commands
  import Agreement

  lemma Spelled()
    ensures Ascii("READINFO") == [0x52, 0x45, 0x41, 0x44, 0x49, 0x4e, 0x46, 0x4f]
    ensures Ascii("READVERS") == [0x52, 0x45, 0x41, 0x44, 0x56, 0x45, 0x52, 0x53]
    ensures Ascii("ERRORCMD") == [0x45, 0x52, 0x52, 0x4f, 0x52, 0x43, 0x4d, 0x44]
    ensures Ascii("WRBK") == [0x57, 0x52, 0x42, 0x4b]
  {
  }

  // A command that the parser answers without the driver.
  lemma ReplyAnswered(c: Cartridge, bytes: seq<byte>, answer: seq<byte>)
    requires Idle(c) && |bytes| == 8 && Dispatch(c.parser, bytes) == (c.parser, Reply(answer))
    ensures AfterCommand(c, bytes) == (c, answer)
  {
    hide Dispatch, Perform, AfterCommand;
    assert Take(c.parser).0 == c.parser && BankAnswer(c.parser, c.chip.mem) == [];
    CommandShape(c, bytes, c.parser, Reply(answer));
    PerformOfReply(c.chip, Reply(answer));
    Regroup(answer, [], []);
  }

  // "P2000T-FW p01.00"
  lemma InfoAnswered(c: Cartridge)
    requires Idle(c)
    ensures AfterCommand(c, Ascii("READINFO")) == (c, Ascii("READINFO") +
      [0x50, 0x32, 0x30, 0x30, 0x30, 0x54, 0x2d, 0x46, 0x57, 0x20, 0x70, 0x30, 0x31, 0x2e, 0x30, 0x30])
  {
    Identity();
    InfoDispatched(c.parser);
    hide Ascii, AfterCommand, Dispatch;
    ReplyAnswered(c, Ascii("READINFO"), Ascii("READINFO") + BOARD_INFO);
  }

  lemma Identity()
    ensures BOARD_INFO ==
      [0x50, 0x32, 0x30, 0x30, 0x30, 0x54, 0x2d, 0x46, 0x57, 0x20, 0x70, 0x30, 0x31, 0x2e, 0x30, 0x30]
  {
  }

  lemma InfoDispatched(p: Parser)
    ensures Dispatch(p, Ascii("READINFO")) == (p, Reply(Ascii("READINFO") + BOARD_INFO))
    ensures Dispatch(p, Ascii("READVERS")) == (p, Reply(Ascii("READVERS") + VERSION))
  {
    assert Ascii("READINFO")[4] == 0x49 && Ascii("READVERS")[4] == 0x56;
    hide Ascii, HexValue;
  }

  // Version 0.2.5
  lemma VersionAnswered(c: Cartridge)
    requires Idle(c)
    ensures AfterCommand(c, Ascii("READVERS")) == (c, Ascii("READVERS") + [0, 2, 5])
  {
    InfoDispatched(c.parser);
    hide Ascii, AfterCommand, Dispatch;
    ReplyAnswered(c, Ascii("READVERS"), Ascii("READVERS") + VERSION);
  }

  // Eight bytes that are no command are answered with "ERRORCMD".
  lemma UnknownAnswered(c: Cartridge, bytes: seq<byte>)
    requires Idle(c) && |bytes| == 8 && !IsBankCommand(bytes) && !IsBlockCommand(bytes)
    requires bytes != Ascii("READINFO") && bytes != Ascii("READVERS") && bytes != Ascii("DEVIDSST")
    requires bytes != Ascii("BOOTLOAD") && bytes != Ascii("ERASEALL")
    ensures AfterCommand(c, bytes) == (c, bytes + [0x45, 0x52, 0x52, 0x4f, 0x52, 0x43, 0x4d, 0x44])
  {
    Spelled();
    hide Ascii, AfterCommand, Dispatch, IsBankCommand, IsBlockCommand;
    Agreement.PlainDispatch(c.parser, bytes);
    ReplyAnswered(c, bytes, bytes + Ascii("ERRORCMD"));
  }

  // A bank or a block that does not exist, or a number that is none, is
  // answered with status 2; nothing is read, erased or opened.
  lemma MissingAnswered(c: Cartridge, bytes: seq<byte>)
    requires Idle(c) && |bytes| == 8
    requires || (IsBankCommand(bytes) && (HexValue(bytes[6..]).None? || HexValue(bytes[6..]).value >= 16))
             || (IsBlockCommand(bytes) && (HexValue(bytes[4..]).None? || HexValue(bytes[4..]).value >= 1024))
    ensures var (d, out) := AfterCommand(c, bytes); out == bytes + [2] && d.chip == c.chip && Idle(d)
  {
    var (q, r) := Dispatch(c.parser, bytes);
    MissingDispatched(c.parser, bytes);
    hide Dispatch, AfterCommand, Perform, HexValue, IsBankCommand, IsBlockCommand;
    CommandShape(c, bytes, q, r);
    PerformOfReply(c.chip, r);
    Regroup(bytes + [2], [], []);
  }

  lemma MissingDispatched(p: Parser, bytes: seq<byte>)
    requires |bytes| == 8
    requires || (IsBankCommand(bytes) && (HexValue(bytes[6..]).None? || HexValue(bytes[6..]).value >= 16))
             || (IsBlockCommand(bytes) && (HexValue(bytes[4..]).None? || HexValue(bytes[4..]).value >= 1024))
    ensures var (q, r) := Dispatch(p, bytes);
      r == Reply(bytes + [2]) && q == p.(bank := q.bank, block := q.block)
  {
    if IsBankCommand(bytes) {
      BankDispatch(p, bytes);
    } else {
      BlockDispatch(p, bytes);
    }
    hide Dispatch, HexValue, Ascii;
  }

  // Numbers are written with upper-case digits, the highest first.
  lemma NumbersSpelled()
    ensures WriteCommand(0x2af) == [0x57, 0x52, 0x42, 0x4b, 0x30, 0x32, 0x41, 0x46]
    ensures EraseBankCommand(12)[6..] == [0x30, 0x43] && ReadBankCommand(9)[6..] == [0x30, 0x39]
  {
    Spelled();
    Digits(0x2af, 0x30, 0x32, 0x41, 0x46);
    TwoDigits(12, 0x30, 0x43);
    TwoDigits(9, 0x30, 0x39);
    hide Ascii, HexDigits;
  }

  lemma OneMoreDigit(v: nat, n: nat)
    requires n > 0
    ensures HexDigits(v, n) == HexDigits(v / 16, n - 1) + [DigitCode(v % 16)]
  {
  }

  lemma TwoDigits(v: nat, a: byte, b: byte)
    requires v < 0x100 && a == DigitCode(v / 16) && b == DigitCode(v % 16)
    ensures HexDigits(v, 2) == [a, b]
  {
    OneMoreDigit(v, 2);
    OneMoreDigit(v / 16, 1);
    assert HexDigits(v / 16 / 16, 0) == [];
    hide HexDigits, DigitCode;
    assert v / 16 % 16 == v / 16;
  }

  lemma Digits(v: nat, a: byte, b: byte, c: byte, d: byte)
    requires v < 0x1_0000
    requires a == DigitCode(v / 0x1000) && b == DigitCode(v / 0x100 % 16)
    requires c == DigitCode(v / 0x10 % 16) && d == DigitCode(v % 16)
    ensures HexDigits(v, 4) == [a, b, c, d]
  {
    hide HexDigits, DigitCode;
    var w, u := v / 0x10, v / 0x100;
    assert w / 16 == u && u / 16 == v / 0x1000;
    OneMoreDigit(v, 4);
    OneMoreDigit(w, 3);
    TwoDigits(u, a, b);
  }

  // Between two commands exactly carriage return and line feed are skipped.
  lemma BreaksSkipped(c: Cartridge, b: byte)
    requires Idle(c)
    ensures Handle(c, b) == (c.(parser := c.parser.(command := if b in {13, 10} then [] else [b])), [])
  {
    hide Dispatch, PayloadRequest, WithTrailer;
    assert c.parser.idleMs == 0 && c.parser.command == [] && [] + [b] == [b];
    assert c.parser.(command := []) == c.parser;
    var none: seq<byte> := [];
    assert none + [] == none;
  }
}
