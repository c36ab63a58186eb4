// CRC16-XMODEM is the remainder of a division of polynomials over GF(2).
module Crc16Division {
  import opened Octets
  import opened Polynomials
  import opened Crc16

  // x^16 + x^12 + x^5 + 1
  const EXPONENTS: set<nat> := {16, 12, 5, 0}
  const DIVISOR := Powers(EXPONENTS, 16)

  // The first n bits of an octet, most significant first. The bits of a message
  // are the coefficients of its polynomial.
  function Leading(w: bv8, n: nat): (p: Poly)
    ensures |p| == n
    decreases n
  {
    if n == 0 then [] else [w & 0x80 != 0] + Leading(w << 1, n - 1)
  }

  function Message(data: seq<byte>): (p: Poly)
    ensures |p| == 8 * |data|
  {
    if data == [] then [] else Leading(Raw(data[0]), 8) + Message(data[1..])
  }

  // The CRC of every message is the remainder of the message times x^16.
  lemma CrcIsRemainder(data: seq<byte>)
    ensures IsRemainder(TopBits(Crc(ZERO, data), 16), Message(data) + Zeros(16), DIVISOR)
  {
    hide Crc, CrcBits, Message, TopBits, Bits, Divide, IsRemainder;
    var bits := Message(data);
    MessageIsBits(data);
    CrcIsCrcBits(ZERO, data);
    ZeroRegister();
    RegisterDivides(ZERO, bits);
    DivisorIsMonic();
    DivideIsRemainder(Zeros(16), bits, DIVISOR);
    ZeroDividend(bits, 16);
  }

  // There is no other register with that property.
  lemma OnlyTheCrc(data: seq<byte>, r: Poly)
    requires IsRemainder(r, Message(data) + Zeros(16), DIVISOR)
    ensures r == TopBits(Crc(ZERO, data), 16)
  {
    hide Crc, TopBits, Message, IsRemainder;
    CrcIsRemainder(data);
    DivisorIsMonic();
    RemainderIsUnique(r, TopBits(Crc(ZERO, data), 16), Message(data) + Zeros(16), DIVISOR);
  }

  // A frame carries its own CRC exactly when its polynomial is a multiple of
  // the divisor; so the CRC is appended high octet first.
  lemma FrameIsMultipleIff(frame: seq<byte>)
    requires |frame| >= 2
    ensures FrameOk(frame) <==> IsRemainder(Zeros(16), Message(frame), DIVISOR)
  {
    hide Crc, TopBits, Message, Word, IsRemainder, Sum, FrameOk;
    var c, w := FrameParts(frame);
    var r, t := TopBits(c, 16), TopBits(w, 16);
    DivisorIsMonic();
    if c == w {
      SameSum(r);
    }
    if IsRemainder(Zeros(16), Message(frame), DIVISOR) {
      RemainderIsUnique(Zeros(16), Sum(r, t), Message(frame), DIVISOR);
      SumIsZero(r, t);
      SameTopBits(c, w);
    }
  }

  lemma SameSum(r: Poly)
    ensures Sum(r, r) == Zeros(|r|)
  {
  }

  // The remainder of a frame is its CRC added to the CRC it carries.
  lemma FrameParts(frame: seq<byte>) returns (c: Register, w: Register)
    requires |frame| >= 2
    ensures FrameOk(frame) <==> c == w
    ensures IsRemainder(Sum(TopBits(c, 16), TopBits(w, 16)), Message(frame), DIVISOR)
  {
    var n := |frame| - 2;
    var data, high, low := frame[..n], frame[n], frame[n + 1];
    c, w := Crc(ZERO, data), Word(high, low);
    hide Crc, TopBits, Message, Word, Leading, IsRemainder, Sum;
    CrcIsRemainder(data);
    TrailerBits(high, low);
    LastTwo(frame);
    MessageEnds(data, high, low);
    DivisorIsMonic();
    SumOfRemainders(Message(data), TopBits(c, 16), TopBits(w, 16), DIVISOR);
  }

  lemma LastTwo(frame: seq<byte>)
    requires |frame| >= 2
    ensures var n := |frame| - 2; frame == frame[..n] + [frame[n], frame[n + 1]]
  {
  }

  lemma {:induction false} MessageEnds(data: seq<byte>, high: byte, low: byte)
    ensures Message(data + [high, low]) == Message(data) + (Leading(Raw(high), 8) + Leading(Raw(low), 8))
    decreases |data|
  {
    hide Leading;
    if data == [] {
      assert data + [high, low] == [high, low] && [high, low][1..] == [low] && [low][1..] == [];
      assert Message([low]) == Leading(Raw(low), 8) + [];
      assert Message([high, low]) == Leading(Raw(high), 8) + Message([low]);
    } else {
      MessageEnds(data[1..], high, low);
      assert (data + [high, low])[1..] == data[1..] + [high, low];
    }
  }

  lemma TrailerBits(high: byte, low: byte)
    ensures TopBits(Word(high, low), 16) == Leading(Raw(high), 8) + Leading(Raw(low), 8)
  {
    hide TopBits, Leading, Raw, UpTimes, Word;
    var v := Word(high, low);
    TopBitsSplit(v, 8, 8);
    WordMovesUp(high, low);
    WordStarts(high, low);
    OctetIsBits(high);
    OctetIsBits(low);
  }

  lemma WordStarts(high: byte, low: byte)
    ensures TopBits(Word(high, low), 8) == TopBits(OctetAtTop(high), 8)
  {
    hide TopBits, OctetAtTop, OctetAtBottom, Word, Xor;
    var h, l := OctetAtTop(high), OctetAtBottom(low);
    WordIsSum(high, low);
    BottomBits(low);
    forall i | 0 <= i < 8
      ensures TopBits(Xor(h, l), 8)[i] == TopBits(h, 8)[i]
    {
      XorAt(h, l, 8, i);
    }
  }

  lemma WordMovesUp(high: byte, low: byte)
    ensures UpTimes(Word(high, low), 8) == OctetAtTop(low)
  {
    var v := Word(high, low);
    UpTimesSplit(v, 4, 4);
    UpFour(v);
    UpFour(UpTimes(v, 4));
    LowOctetUp(Raw(high), Raw(low));
    hide UpTimes, Raw;
  }

  lemma LowOctetUp(h: bv8, l: bv8)
    ensures ((((h as bv16) << 8) | (l as bv16)) << 4) << 4 == (l as bv16) << 8
  {
  }

  // Registers with the same bits are the same.
  lemma SameTopBits(a: Register, b: Register)
    requires TopBits(a, 16) == TopBits(b, 16)
    ensures a == b
  {
    hide Lifted, TopBits;
    var a1, b1 := Lifted(a.word), Lifted(b.word);
    var a2, b2 := Lifted(a1), Lifted(b1);
    FourSame(a, b, 16);
    FourSame(Register(a1), Register(b1), 12);
    FourSame(Register(a2), Register(b2), 8);
    FourSame(Register(Lifted(a2)), Register(Lifted(b2)), 4);
    FourNibblesSame(a.word, b.word);
  }

  function Lifted(w: bv16): bv16 {
    w << 4
  }

  predicate TopFourSame(a: bv16, b: bv16) {
    a & 0xf000 == b & 0xf000
  }

  lemma FourSame(a: Register, b: Register, n: nat)
    requires n >= 4 && TopBits(a, n) == TopBits(b, n)
    ensures TopFourSame(a.word, b.word)
    ensures TopBits(Register(Lifted(a.word)), n - 4) == TopBits(Register(Lifted(b.word)), n - 4)
  {
    TopFour(a);
    TopFour(b);
    FourUps(a);
    FourUps(b);
    OneSame(a, b, n);
    OneSame(Up(a), Up(b), n - 1);
    OneSame(Up(Up(a)), Up(Up(b)), n - 2);
    OneSame(Up(Up(Up(a))), Up(Up(Up(b))), n - 3);
    hide Up, TopBit, TopBits;
    MasksSame(a.word, b.word);
  }

  lemma OneSame(a: Register, b: Register, n: nat)
    requires n > 0 && TopBits(a, n) == TopBits(b, n)
    ensures TopBit(a) == TopBit(b) && TopBits(Up(a), n - 1) == TopBits(Up(b), n - 1)
  {
    hide Up, TopBit;
    assert TopBits(a, n)[0] == TopBit(a) && TopBits(a, n)[1..] == TopBits(Up(a), n - 1);
    assert TopBits(b, n)[0] == TopBit(b) && TopBits(b, n)[1..] == TopBits(Up(b), n - 1);
  }

  lemma MasksSame(a: bv16, b: bv16)
    requires (a & 0x8000 != 0) == (b & 0x8000 != 0) && (a & 0x4000 != 0) == (b & 0x4000 != 0)
    requires (a & 0x2000 != 0) == (b & 0x2000 != 0) && (a & 0x1000 != 0) == (b & 0x1000 != 0)
    ensures TopFourSame(a, b)
  {
  }

  lemma FourNibblesSame(a: bv16, b: bv16)
    requires TopFourSame(a, b) && TopFourSame(Lifted(a), Lifted(b))
    requires TopFourSame(Lifted(Lifted(a)), Lifted(Lifted(b)))
    requires TopFourSame(Lifted(Lifted(Lifted(a))), Lifted(Lifted(Lifted(b))))
    ensures a == b
  {
  }

  lemma DivisorIsMonic()
    ensures |DIVISOR| == 17 && DIVISOR[0]
  {
    PowersAt(EXPONENTS, 16, 0);
  }

  // ---------- Messages ----------

  lemma {:induction false} MessageIsBits(data: seq<byte>)
    ensures Message(data) == Bits(data)
  {
    hide Leading, OctetBits;
    if data != [] {
      OctetIsBits(data[0]);
      MessageIsBits(data[1..]);
    }
  }

  lemma OctetIsBits(b: byte)
    ensures Leading(Raw(b), 8) == OctetBits(b)
  {
    LeadingIsTop(Raw(b), OctetAtTop(b), 8);
    hide Leading, TopBits;
  }

  lemma {:induction false} LeadingIsTop(w: bv8, v: Register, n: nat)
    requires v.word == (w as bv16) << 8
    ensures Leading(w, n) == TopBits(v, n)
    decreases n
  {
    if n > 0 {
      TopOfOctet(w, v);
      LeadingIsTop(w << 1, Up(v), n - 1);
      hide Up, TopBit;
    }
  }

  lemma TopOfOctet(w: bv8, v: Register)
    requires v.word == (w as bv16) << 8
    ensures TopBit(v) == (w & 0x80 != 0)
    ensures Up(v).word == ((w << 1) as bv16) << 8
  {
  }

  // ---------- The register ----------

  lemma {:induction false} RegisterDivides(c: Register, bits: seq<bool>)
    ensures TopBits(CrcBits(c, bits), 16) == Divide(TopBits(c, 16), bits, DIVISOR)
    decreases |bits|
  {
    hide TopBits, BitStep, DivideStep;
    DivisorIsMonic();
    if bits != [] {
      var k := |bits| - 1;
      RegisterDivides(c, bits[..k]);
      LastBit(c, bits);
      StepDivides(CrcBits(c, bits[..k]), bits[k]);
    }
  }

  lemma LastBit(c: Register, bits: seq<bool>)
    requires bits != []
    ensures var k := |bits| - 1; CrcBits(c, bits) == BitStep(CrcBits(c, bits[..k]), bits[k])
  {
    var k := |bits| - 1;
    var d := CrcBits(c, bits[..k]);
    assert bits == bits[..k] + [bits[k]];
    ChainBits(c, bits[..k], [bits[k]]);
    assert [bits[k]][1..] == [];
    assert CrcBits(d, [bits[k]]) == CrcBits(BitStep(d, bits[k]), []);
    hide BitStep;
  }

  // A step of the register is a step of the division.
  lemma StepDivides(c: Register, bit: bool)
    ensures TopBits(BitStep(c, bit), 16) == DivideStep(TopBits(c, 16), bit, DIVISOR)
  {
    DivisorIsMonic();
    BitStepIs(c, bit);
    hide BitStep, TopBits, Up, Xor, TopBit;
    var left, right := TopBits(BitStep(c, bit), 16), DivideStep(TopBits(c, 16), bit, DIVISOR);
    FirstTopBit(c);
    forall i | 0 <= i < 16
      ensures left[i] == right[i]
    {
      UpMovesOn(c, i);
      XorAt(Up(c), POLYNOMIAL, 16, i);
      PolynomialAt(i);
    }
  }

  lemma BitStepIs(c: Register, bit: bool)
    ensures BitStep(c, bit) == if TopBit(c) != bit then Xor(Up(c), POLYNOMIAL) else Up(c)
  {
    TopBitLinear(c, BitAtTop(bit));
    UpDropsTop(c, bit);
    TopOfBit(bit);
    hide Xor, Up, TopBit, BitAtTop;
  }

  lemma UpDropsTop(c: Register, bit: bool)
    ensures Up(Xor(c, BitAtTop(bit))) == Up(c)
  {
  }

  lemma TopOfBit(bit: bool)
    ensures TopBit(BitAtTop(bit)) == bit
  {
  }

  lemma FirstTopBit(c: Register)
    ensures TopBits(c, 16)[0] == TopBit(c)
  {
  }

  lemma UpMovesOn(c: Register, i: nat)
    requires i < 16
    ensures TopBits(Up(c), 16)[i] == At(TopBits(c, 16), i + 1)
  {
    var last := TopBit(UpTimes(c, 16));
    TopBitsLonger(c, 16);
    UpSixteen(c);
    ZeroTop();
    assert TopBits(c, 17) == [TopBit(c)] + TopBits(Up(c), 16);
    hide TopBits, UpTimes, Up, TopBit;
    NextAt(TopBits(c, 17), TopBits(c, 16), TopBits(Up(c), 16), TopBit(c), last, i);
  }

  lemma ZeroTop()
    ensures !TopBit(ZERO)
  {
  }

  lemma {:induction false} TopBitsLonger(c: Register, n: nat)
    ensures TopBits(c, n + 1) == TopBits(c, n) + [TopBit(UpTimes(c, n))]
    decreases n
  {
    hide Up, TopBit;
    if n > 0 {
      TopBitsLonger(Up(c), n - 1);
    }
  }

  lemma {:induction false} XorAt(a: Register, b: Register, n: nat, i: nat)
    requires i < n
    ensures TopBits(Xor(a, b), n)[i] == (TopBits(a, n)[i] != TopBits(b, n)[i])
    decreases n
  {
    TopBitLinear(a, b);
    UpLinear(a, b);
    hide Up, TopBit, Xor;
    if i > 0 {
      XorAt(Up(a), Up(b), n - 1, i - 1);
    }
  }

  lemma PolynomialAt(i: nat)
    requires i < 16
    ensures TopBits(POLYNOMIAL, 16)[i] == DIVISOR[i + 1]
  {
    hide TopBits, Powers, FourAgree;
    Nibbles();
    PolynomialBits(EXPONENTS);
    FirstPower(EXPONENTS, 16);
  }

  // Every four bits of the polynomial are four of the coefficients.
  ghost predicate NibblesAgree(e: set<nat>) {
    && FourAgree(POLYNOMIAL, e, 16) && FourAgree(Register(0x0210), e, 12)
    && FourAgree(Register(0x2100), e, 8) && FourAgree(Register(0x1000), e, 4)
  }

  lemma Nibbles()
    ensures NibblesAgree(EXPONENTS)
  {
  }

  lemma PolynomialBits(e: set<nat>)
    requires NibblesAgree(e)
    ensures TopBits(POLYNOMIAL, 16) == Powers(e, 15)
  {
    hide TopBits, Powers, FourAgree;
    NibbleShifts();
    LastFour(Register(0x1000), e);
    FourMore(Register(0x2100), e, 8);
    FourMore(Register(0x0210), e, 12);
    FourMore(POLYNOMIAL, e, 16);
  }

  lemma NibbleShifts()
    ensures POLYNOMIAL.word << 4 == 0x0210
    ensures (0x0210 as bv16) << 4 == 0x2100 && (0x2100 as bv16) << 4 == 0x1000
  {
  }

  // Four coefficients before those that agree.
  lemma FourMore(v: Register, e: set<nat>, n: nat)
    requires n > 4 && FourAgree(v, e, n) && TopBits(Register(v.word << 4), n - 4) == Powers(e, n - 5)
    ensures TopBits(v, n) == Powers(e, n - 1)
  {
    TopFour(v);
    FourUps(v);
    hide Up, TopBit;
    OneMore(Up(Up(Up(v))), e, n - 3);
    OneMore(Up(Up(v)), e, n - 2);
    OneMore(Up(v), e, n - 1);
    OneMore(v, e, n);
  }

  predicate FourAgree(v: Register, e: set<nat>, n: nat)
    requires n >= 4
  {
    && (v.word & 0x8000 != 0 <==> n - 1 in e) && (v.word & 0x4000 != 0 <==> n - 2 in e)
    && (v.word & 0x2000 != 0 <==> n - 3 in e) && (v.word & 0x1000 != 0 <==> n - 4 in e)
  }

  lemma LastFour(v: Register, e: set<nat>)
    requires FourAgree(v, e, 4)
    ensures TopBits(v, 4) == Powers(e, 3)
  {
    TopFour(v);
    hide Up, TopBit;
    assert TopBits(Up(Up(Up(v))), 1) == [TopBit(Up(Up(Up(v))))] + TopBits(Up(Up(Up(Up(v)))), 0);
    assert Powers(e, 0) == [0 in e];
    OneMore(Up(Up(v)), e, 2);
    OneMore(Up(v), e, 3);
    OneMore(v, e, 4);
  }

  lemma OneMore(v: Register, e: set<nat>, n: nat)
    requires n > 1 && (TopBit(v) <==> n - 1 in e) && TopBits(Up(v), n - 1) == Powers(e, n - 2)
    ensures TopBits(v, n) == Powers(e, n - 1)
  {
    hide Up, TopBit;
  }

  lemma FourUps(v: Register)
    ensures Up(Up(Up(Up(v)))) == Register(v.word << 4)
  {
  }

  lemma TopFour(v: Register)
    ensures TopBit(v) == (v.word & 0x8000 != 0)
    ensures TopBit(Up(v)) == (v.word & 0x4000 != 0)
    ensures TopBit(Up(Up(v))) == (v.word & 0x2000 != 0)
    ensures TopBit(Up(Up(Up(v)))) == (v.word & 0x1000 != 0)
  {
  }

  lemma ZeroRegister()
    ensures TopBits(ZERO, 16) == Zeros(16)
  {
    forall i | 0 <= i < 16
      ensures !TopBits(ZERO, 16)[i]
    {
      ZeroAt(16, i);
    }
  }

  lemma {:induction false} ZeroAt(n: nat, i: nat)
    requires i < n
    ensures !TopBits(ZERO, n)[i]
    decreases n
  {
    assert Up(ZERO) == ZERO && !TopBit(ZERO);
    if i > 0 {
      ZeroAt(n - 1, i - 1);
    }
  }

  // ---------- The check value ----------

  lemma EightShifts(c: Register)
    ensures ShiftTimes(c, 8) == Shift(Shift(Shift(Shift(Shift(Shift(Shift(Shift(c))))))))
  {
    hide Shift;
    assert ShiftTimes(Shift(Shift(Shift(Shift(c)))), 4) == Shift(Shift(Shift(Shift(Shift(Shift(Shift(Shift(c))))))));
  }

  lemma OneOctet(c: Register, b: byte)
    ensures Load(c, b) == Shift(Shift(Shift(Shift(Shift(Shift(Shift(Shift(Xor(c, OctetAtTop(b))))))))))
  {
    EightShifts(Xor(c, OctetAtTop(b)));
    hide Shift, Xor, OctetAtTop;
  }

  // The nine digits.
  const DIGITS: seq<byte> := [0x31, 0x32, 0x33, 0x34, 0x35, 0x36, 0x37, 0x38, 0x39]

  lemma Digit1()
    ensures Load(Register(0x0000), 0x31) == Register(0x2672)
  {
    OneOctet(Register(0x0000), 0x31);
  }

  lemma Digit2()
    ensures Load(Register(0x2672), 0x32) == Register(0x20b5)
  {
    OneOctet(Register(0x2672), 0x32);
  }

  lemma Digit3()
    ensures Load(Register(0x20b5), 0x33) == Register(0x9752)
  {
    OneOctet(Register(0x20b5), 0x33);
  }

  lemma Digit4()
    ensures Load(Register(0x9752), 0x34) == Register(0xd789)
  {
    OneOctet(Register(0x9752), 0x34);
  }

  lemma Digit5()
    ensures Load(Register(0xd789), 0x35) == Register(0x546c)
  {
    OneOctet(Register(0xd789), 0x35);
  }

  lemma Digit6()
    ensures Load(Register(0x546c), 0x36) == Register(0x20e4)
  {
    OneOctet(Register(0x546c), 0x36);
  }

  lemma Digit7()
    ensures Load(Register(0x20e4), 0x37) == Register(0x86d6)
  {
    OneOctet(Register(0x20e4), 0x37);
  }

  lemma Digit8()
    ensures Load(Register(0x86d6), 0x38) == Register(0x9015)
  {
    OneOctet(Register(0x86d6), 0x38);
  }

  lemma Digit9()
    ensures Load(Register(0x9015), 0x39) == Register(0x31c3)
  {
    OneOctet(Register(0x9015), 0x39);
  }

  lemma OneDigit(k: nat, c: Register, next: Register)
    requires k < 9 && Load(c, DIGITS[k]) == next
    ensures Crc(c, DIGITS[k..]) == Crc(next, DIGITS[k + 1..])
  {
    hide Load;
    assert DIGITS[k..][1..] == DIGITS[k + 1..];
  }

  // The check value of the CRC's definition.
  lemma CheckValue()
    ensures Crc(ZERO, DIGITS) == Register(0x31c3)
  {
    hide Crc, Load;
    assert DIGITS[0..] == DIGITS && DIGITS[9..] == [];
    Digit1();
    OneDigit(0, Register(0x0000), Register(0x2672));
    Digit2();
    OneDigit(1, Register(0x2672), Register(0x20b5));
    Digit3();
    OneDigit(2, Register(0x20b5), Register(0x9752));
    Digit4();
    OneDigit(3, Register(0x9752), Register(0xd789));
    Digit5();
    OneDigit(4, Register(0xd789), Register(0x546c));
    Digit6();
    OneDigit(5, Register(0x546c), Register(0x20e4));
    Digit7();
    OneDigit(6, Register(0x20e4), Register(0x86d6));
    Digit8();
    OneDigit(7, Register(0x86d6), Register(0x9015));
    Digit9();
    OneDigit(8, Register(0x9015), Register(0x31c3));
    NoMoreDigits();
  }

  lemma NoMoreDigits()
    ensures Crc(Register(0x31c3), []) == Register(0x31c3)
  {
  }
}
