// CRC-32 is the remainder of a division of polynomials over GF(2), with the
// bits of every octet least significant first (section 8 of RFC 1952).
module Crc32Division {
  import opened Octets
  import opened Polynomials
  import opened Crc32

  // x^32 + x^26 + x^23 + x^22 + x^16 + x^12 + x^11 + x^10 + x^8 + x^7 + x^5 +
  // x^4 + x^2 + x + 1
  const EXPONENTS: set<nat> := {32, 26, 23, 22, 16, 12, 11, 10, 8, 7, 5, 4, 2, 1, 0}
  const DIVISOR := Powers(EXPONENTS, 32)

  // The first n bits of an octet, least significant first. The bits of a
  // message are the coefficients of its polynomial.
  function Trailing(w: bv8, n: nat): (p: Poly)
    ensures |p| == n
    decreases n
  {
    if n == 0 then [] else [w & 1 != 0] + Trailing(w >> 1, n - 1)
  }

  function Message(data: seq<byte>): (p: Poly)
    ensures |p| == 8 * |data|
  {
    if data == [] then [] else Trailing(Raw(data[0]), 8) + Message(data[1..])
  }

  // The first n bits of a register, least significant first.
  function LowBits(v: Register, n: nat): (p: Poly)
    ensures |p| == n
    decreases n
  {
    if n == 0 then [] else [LowBit(v)] + LowBits(Down(v), n - 1)
  }

  // The first n coefficients complemented.
  function Complemented(p: Poly, n: nat): (r: Poly)
    ensures |r| == |p| && forall i | 0 <= i < |p| :: r[i] == (p[i] != (i < n))
  {
    seq(|p|, i requires 0 <= i < |p| => p[i] != (i < n))
  }

  // The checksum of every message: the message times x^32, with its first 32
  // coefficients complemented, leaves the complement of the checksum.
  lemma ChecksumIsRemainder(data: seq<byte>)
    ensures IsRemainder(Complemented(LowBits(Register(Checksum(data)), 32), 32),
                        Complemented(Message(data) + Zeros(32), 32), DIVISOR)
  {
    var bits, start := Message(data), LowBits(PRESET, 32);
    DivisorIsMonic();
    DivideIsRemainder(start, bits, DIVISOR);
    CrcDivides(PRESET, data);
    PresetIsOnes();
    assert AllOnes(PRESET, 32);
    DividendOfOnes(start, bits);
    ComplementBits(Crc(PRESET, data));
    hide Crc, Message, LowBits, Divide, IsRemainder, Dividend, Complement, Complemented;
  }

  // There is no other value with that property.
  lemma OnlyTheChecksum(data: seq<byte>, r: Poly)
    requires IsRemainder(r, Complemented(Message(data) + Zeros(32), 32), DIVISOR)
    ensures r == Complemented(LowBits(Register(Checksum(data)), 32), 32)
  {
    hide Checksum, LowBits, Message, IsRemainder, Complemented;
    ChecksumIsRemainder(data);
    DivisorIsMonic();
    RemainderIsUnique(r, Complemented(LowBits(Register(Checksum(data)), 32), 32),
                      Complemented(Message(data) + Zeros(32), 32), DIVISOR);
  }

  lemma DivisorIsMonic()
    ensures |DIVISOR| == 33 && DIVISOR[0]
  {
    PowersAt(EXPONENTS, 32, 0);
  }

  lemma DividendOfOnes(ones: Poly, bits: Poly)
    requires |ones| == 32 && forall i | 0 <= i < 32 :: ones[i]
    ensures Dividend(ones, bits) == Complemented(bits + Zeros(32), 32)
  {
  }

  // ---------- One bit at a time ----------

  function BitAtLow(bit: bool): Register {
    Register(if bit then 1 else 0)
  }

  function BitStep(c: Register, bit: bool): Register {
    Shift(Xor(c, BitAtLow(bit)))
  }

  function CrcBits(c: Register, bits: Poly): Register
    decreases |bits|
  {
    if bits == [] then c else CrcBits(BitStep(c, bits[0]), bits[1..])
  }

  lemma {:induction false} ChainBits(c: Register, a: Poly, b: Poly)
    ensures CrcBits(c, a + b) == CrcBits(CrcBits(c, a), b)
    decreases |a|
  {
    hide BitStep;
    if a == [] {
      assert a + b == b;
    } else {
      assert (a + b)[1..] == a[1..] + b;
      ChainBits(BitStep(c, a[0]), a[1..], b);
    }
  }

  // The low bit of what is loaded is consumed by a shift; the rest moves down.
  lemma WaitingBit(u: Register, y: Register)
    ensures Shift(Xor(u, y)) == Xor(BitStep(u, LowBit(y)), Down(y))
  {
    var rest := Register(y.word & 0xffff_fffe);
    RestIsClear(y);
    LowAndRest(y);
    XorAssociative(u, BitAtLow(LowBit(y)), rest);
    hide Xor, Down, LowBit, BitAtLow, Shift;
    WaitingOnce(Xor(u, BitAtLow(LowBit(y))), rest);
  }

  lemma RestIsClear(y: Register)
    ensures var rest := Register(y.word & 0xffff_fffe); !LowBit(rest) && Down(rest) == Down(y)
  {
  }

  lemma LowAndRest(y: Register)
    ensures Xor(BitAtLow(LowBit(y)), Register(y.word & 0xffff_fffe)) == y
  {
    if LowBit(y) { WordWithLow(y.word); } else { WordWithoutLow(y.word); }
  }

  lemma WordWithLow(w: bv32)
    requires w & 1 != 0
    ensures 1 ^ (w & 0xffff_fffe) == w
  {
  }

  lemma WordWithoutLow(w: bv32)
    requires w & 1 == 0
    ensures 0 ^ (w & 0xffff_fffe) == w
  {
  }

  lemma {:induction false} Absorb(c: Register, v: Register, n: nat)
    ensures ShiftTimes(Xor(c, v), n) == Xor(CrcBits(c, LowBits(v, n)), DownTimes(v, n))
    decreases n
  {
    hide Shift, Xor, Down, LowBit, BitStep;
    if n > 0 {
      WaitingBit(c, v);
      Absorb(BitStep(c, LowBit(v)), Down(v), n - 1);
      assert LowBits(v, n)[1..] == LowBits(Down(v), n - 1);
    }
  }

  lemma LoadIsEightBits(c: Register, b: byte)
    ensures Load(c, b) == CrcBits(c, Trailing(Raw(b), 8))
  {
    Absorb(c, Octet0(b), 8);
    OctetGone(b);
    TrailingIsLow(Raw(b), Octet0(b), 8);
    XorZero(CrcBits(c, LowBits(Octet0(b), 8)));
    hide ShiftTimes, CrcBits, LowBits, Trailing, DownTimes, Xor, Octet0;
  }

  lemma XorZero(a: Register)
    ensures Xor(a, ZERO) == a
  {
  }

  lemma OctetGone(b: byte)
    ensures DownTimes(Octet0(b), 8) == ZERO
  {
    Split(Octet0(b), 4, 4);
    DownFour(Octet0(b));
    DownFour(DownTimes(Octet0(b), 4));
    SmallIsGone(Raw(b));
    hide DownTimes, Raw;
  }

  lemma SmallIsGone(w: bv8)
    ensures ((w as bv32) >> 4) >> 4 == 0
  {
  }

  lemma {:induction false} TrailingIsLow(w: bv8, v: Register, n: nat)
    requires v.word == w as bv32
    ensures Trailing(w, n) == LowBits(v, n)
    decreases n
  {
    if n > 0 {
      LowOfOctet(w, v);
      TrailingIsLow(w >> 1, Down(v), n - 1);
      hide Down, LowBit;
    }
  }

  lemma LowOfOctet(w: bv8, v: Register)
    requires v.word == w as bv32
    ensures LowBit(v) == (w & 1 != 0)
    ensures Down(v).word == (w >> 1) as bv32
  {
  }

  // ---------- The register divides ----------

  lemma CrcDivides(c: Register, data: seq<byte>)
    ensures LowBits(Crc(c, data), 32) == Divide(LowBits(c, 32), Message(data), DIVISOR)
  {
    CrcIsCrcBits(c, data);
    RegisterDivides(c, Message(data));
    hide Crc, CrcBits, LowBits, Divide, Message;
  }

  lemma {:induction false} CrcIsCrcBits(c: Register, data: seq<byte>)
    ensures Crc(c, data) == CrcBits(c, Message(data))
    decreases |data|
  {
    hide Load, BitStep, Trailing;
    if data != [] {
      LoadIsEightBits(c, data[0]);
      ChainBits(c, Trailing(Raw(data[0]), 8), Message(data[1..]));
      CrcIsCrcBits(Load(c, data[0]), data[1..]);
    }
  }

  lemma {:induction false} RegisterDivides(c: Register, bits: Poly)
    ensures LowBits(CrcBits(c, bits), 32) == Divide(LowBits(c, 32), bits, DIVISOR)
    decreases |bits|
  {
    hide LowBits, BitStep, DivideStep;
    DivisorIsMonic();
    if bits != [] {
      var k := |bits| - 1;
      RegisterDivides(c, bits[..k]);
      LastBit(c, bits);
      StepDivides(CrcBits(c, bits[..k]), bits[k]);
    }
  }

  lemma LastBit(c: Register, bits: Poly)
    requires bits != []
    ensures var k := |bits| - 1; CrcBits(c, bits) == BitStep(CrcBits(c, bits[..k]), bits[k])
  {
    var k := |bits| - 1;
    var d := CrcBits(c, bits[..k]);
    assert bits == bits[..k] + [bits[k]];
    ChainBits(c, bits[..k], [bits[k]]);
    assert [bits[k]][1..] == [];
    assert CrcBits(d, [bits[k]]) == CrcBits(BitStep(d, bits[k]), []);
    hide BitStep;
  }

  // A step of the register is a step of the division.
  lemma StepDivides(c: Register, bit: bool)
    ensures LowBits(BitStep(c, bit), 32) == DivideStep(LowBits(c, 32), bit, DIVISOR)
  {
    DivisorIsMonic();
    BitStepIs(c, bit);
    FirstLowBit(c);
    hide BitStep, LowBits, Down, Xor, LowBit;
    var left, right := LowBits(BitStep(c, bit), 32), DivideStep(LowBits(c, 32), bit, DIVISOR);
    forall i | 0 <= i < 32
      ensures left[i] == right[i]
    {
      DownMovesOn(c, i);
      XorAt(Down(c), POLYNOMIAL, 32, i);
      PolynomialAt(i);
    }
  }

  lemma BitStepIs(c: Register, bit: bool)
    ensures BitStep(c, bit) == if LowBit(c) != bit then Xor(Down(c), POLYNOMIAL) else Down(c)
  {
    LowBitLinear(c, BitAtLow(bit));
    DownDropsLow(c, bit);
    LowOfBit(bit);
    hide Xor, Down, LowBit, BitAtLow;
  }

  lemma LowBitLinear(a: Register, b: Register)
    ensures LowBit(Xor(a, b)) == (LowBit(a) != LowBit(b))
  {
  }

  lemma DownDropsLow(c: Register, bit: bool)
    ensures Down(Xor(c, BitAtLow(bit))) == Down(c)
  {
  }

  lemma LowOfBit(bit: bool)
    ensures LowBit(BitAtLow(bit)) == bit
  {
  }

  lemma FirstLowBit(c: Register)
    ensures LowBits(c, 32)[0] == LowBit(c)
  {
  }

  lemma DownMovesOn(c: Register, i: nat)
    requires i < 32
    ensures LowBits(Down(c), 32)[i] == At(LowBits(c, 32), i + 1)
  {
    var last := LowBit(DownTimes(c, 32));
    LowBitsLonger(c, 32);
    AllGone(c);
    ZeroLow();
    assert LowBits(c, 33) == [LowBit(c)] + LowBits(Down(c), 32);
    hide LowBits, DownTimes, Down, LowBit;
    NextAt(LowBits(c, 33), LowBits(c, 32), LowBits(Down(c), 32), LowBit(c), last, i);
  }

  lemma ZeroLow()
    ensures !LowBit(ZERO)
  {
  }

  lemma AllGone(c: Register)
    ensures DownTimes(c, 32) == ZERO
  {
    hide DownTimes;
    Sixteen(c);
    Sixteen(DownTimes(c, 16));
    Split(c, 16, 16);
    NothingLeft(c.word);
  }

  lemma NothingLeft(w: bv32)
    ensures (w >> 16) >> 16 == 0
  {
  }

  function Sixteenth(w: bv32): bv32 {
    w >> 4
  }

  lemma DownNibble(y: Register)
    ensures DownTimes(y, 4).word == Sixteenth(y.word)
  {
    DownFour(y);
    hide DownTimes;
  }

  lemma Sixteen(c: Register)
    ensures DownTimes(c, 16).word == c.word >> 16
  {
    hide DownTimes, Sixteenth;
    FourTimesFour(c);
    FourNibbles(c.word);
  }

  lemma FourTimesFour(c: Register)
    ensures DownTimes(c, 16).word == Sixteenth(Sixteenth(Sixteenth(Sixteenth(c.word))))
  {
    hide DownTimes, Sixteenth, ClearBelow;
    var d := DownTimes(c, 4);
    var e := DownTimes(d, 4);
    var f := DownTimes(e, 4);
    Split(c, 4, 12);
    Split(d, 4, 8);
    Split(e, 4, 4);
    DownNibble(c);
    DownNibble(d);
    DownNibble(e);
    DownNibble(f);
  }

  lemma FourNibbles(w: bv32)
    ensures Sixteenth(Sixteenth(Sixteenth(Sixteenth(w)))) == w >> 16
  {
  }

  lemma {:induction false} LowBitsLonger(c: Register, n: nat)
    ensures LowBits(c, n + 1) == LowBits(c, n) + [LowBit(DownTimes(c, n))]
    decreases n
  {
    hide Down, LowBit;
    if n > 0 {
      LowBitsLonger(Down(c), n - 1);
    }
  }

  lemma {:induction false} XorAt(a: Register, b: Register, n: nat, i: nat)
    requires i < n
    ensures LowBits(Xor(a, b), n)[i] == (LowBits(a, n)[i] != LowBits(b, n)[i])
    decreases n
  {
    LowBitLinear(a, b);
    DownLinear(a, b);
    hide Down, LowBit, Xor;
    if i > 0 {
      XorAt(Down(a), Down(b), n - 1, i - 1);
    }
  }

  // ---------- The polynomial ----------

  lemma PolynomialAt(i: nat)
    requires i < 32
    ensures LowBits(POLYNOMIAL, 32)[i] == DIVISOR[i + 1]
  {
    hide LowBits, Powers, FourAgree;
    Nibbles();
    PolynomialBits(EXPONENTS);
    FirstPower(EXPONENTS, 32);
  }

  // Every four bits of the polynomial are four of the coefficients.
  ghost predicate NibblesAgree(e: set<nat>) {
    && FourAgree(POLYNOMIAL, e, 32)
    && FourAgree(Register(0x0edb_8832), e, 28)
    && FourAgree(Register(0x00ed_b883), e, 24)
    && FourAgree(Register(0x000e_db88), e, 20)
    && FourAgree(Register(0x0000_edb8), e, 16)
    && FourAgree(Register(0x0000_0edb), e, 12)
    && FourAgree(Register(0x0000_00ed), e, 8)
    && FourAgree(Register(0x0000_000e), e, 4)
  }

  lemma Nibbles()
    ensures NibblesAgree(EXPONENTS)
  {
    hide FourAgree;
    LowNibbles();
    HighNibbles();
  }

  lemma LowNibbles()
    ensures FourAgree(POLYNOMIAL, EXPONENTS, 32)
    ensures FourAgree(Register(0x0edb_8832), EXPONENTS, 28)
    ensures FourAgree(Register(0x00ed_b883), EXPONENTS, 24)
    ensures FourAgree(Register(0x000e_db88), EXPONENTS, 20)
  {
  }

  lemma HighNibbles()
    ensures FourAgree(Register(0x0000_edb8), EXPONENTS, 16)
    ensures FourAgree(Register(0x0000_0edb), EXPONENTS, 12)
    ensures FourAgree(Register(0x0000_00ed), EXPONENTS, 8)
    ensures FourAgree(Register(0x0000_000e), EXPONENTS, 4)
  {
  }

  lemma PolynomialBits(e: set<nat>)
    requires NibblesAgree(e)
    ensures LowBits(POLYNOMIAL, 32) == Powers(e, 31)
  {
    hide LowBits, Powers, FourAgree;
    NibbleShifts();
    LastFour(Register(0x0000_000e), e);
    FourMore(Register(0x0000_00ed), e, 8);
    FourMore(Register(0x0000_0edb), e, 12);
    FourMore(Register(0x0000_edb8), e, 16);
    FourMore(Register(0x000e_db88), e, 20);
    FourMore(Register(0x00ed_b883), e, 24);
    FourMore(Register(0x0edb_8832), e, 28);
    FourMore(POLYNOMIAL, e, 32);
  }

  lemma NibbleShifts()
    ensures POLYNOMIAL.word >> 4 == 0x0edb_8832
    ensures (0x0edb_8832 as bv32) >> 4 == 0x00ed_b883
    ensures (0x00ed_b883 as bv32) >> 4 == 0x000e_db88
    ensures (0x000e_db88 as bv32) >> 4 == 0x0000_edb8
    ensures (0x0000_edb8 as bv32) >> 4 == 0x0000_0edb
    ensures (0x0000_0edb as bv32) >> 4 == 0x0000_00ed
    ensures (0x0000_00ed as bv32) >> 4 == 0x0000_000e
  {
  }

  // Four coefficients before those that agree.
  lemma FourMore(v: Register, e: set<nat>, n: nat)
    requires n > 4 && FourAgree(v, e, n) && LowBits(Register(v.word >> 4), n - 4) == Powers(e, n - 5)
    ensures LowBits(v, n) == Powers(e, n - 1)
  {
    LowFour(v);
    FourDownsOf(v);
    hide Down, LowBit;
    OneMore(Down(Down(Down(v))), e, n - 3);
    OneMore(Down(Down(v)), e, n - 2);
    OneMore(Down(v), e, n - 1);
    OneMore(v, e, n);
  }

  predicate FourAgree(v: Register, e: set<nat>, n: nat)
    requires n >= 4
  {
    && (v.word & 1 != 0 <==> n - 1 in e) && (v.word & 2 != 0 <==> n - 2 in e)
    && (v.word & 4 != 0 <==> n - 3 in e) && (v.word & 8 != 0 <==> n - 4 in e)
  }

  lemma LastFour(v: Register, e: set<nat>)
    requires FourAgree(v, e, 4)
    ensures LowBits(v, 4) == Powers(e, 3)
  {
    LowFour(v);
    hide Down, LowBit;
    assert LowBits(Down(Down(Down(v))), 1) == [LowBit(Down(Down(Down(v))))] + LowBits(Down(Down(Down(Down(v)))), 0);
    assert Powers(e, 0) == [0 in e];
    OneMore(Down(Down(v)), e, 2);
    OneMore(Down(v), e, 3);
    OneMore(v, e, 4);
  }

  lemma OneMore(v: Register, e: set<nat>, n: nat)
    requires n > 1 && (LowBit(v) <==> n - 1 in e) && LowBits(Down(v), n - 1) == Powers(e, n - 2)
    ensures LowBits(v, n) == Powers(e, n - 1)
  {
    hide Down, LowBit;
  }

  lemma FourDownsOf(v: Register)
    ensures Down(Down(Down(Down(v)))) == Register(v.word >> 4)
  {
    FourDowns(v);
    hide Half;
  }

  lemma LowFour(v: Register)
    ensures LowBit(v) == (v.word & 1 != 0)
    ensures LowBit(Down(v)) == (v.word & 2 != 0)
    ensures LowBit(Down(Down(v))) == (v.word & 4 != 0)
    ensures LowBit(Down(Down(Down(v)))) == (v.word & 8 != 0)
  {
  }

  // ---------- Ones and complements ----------

  ghost predicate AllOnes(v: Register, n: nat) {
    forall i | 0 <= i < n :: LowBits(v, n)[i]
  }

  lemma PresetIsOnes()
    ensures AllOnes(PRESET, 32)
  {
    hide AllOnes;
    NoOnes(ZERO);
    FourOnes(Register(0x0000_000f), Register(0x0000_0000), 4);
    FourOnes(Register(0x0000_00ff), Register(0x0000_000f), 8);
    FourOnes(Register(0x0000_0fff), Register(0x0000_00ff), 12);
    FourOnes(Register(0x0000_ffff), Register(0x0000_0fff), 16);
    FourOnes(Register(0x000f_ffff), Register(0x0000_ffff), 20);
    FourOnes(Register(0x00ff_ffff), Register(0x000f_ffff), 24);
    FourOnes(Register(0x0fff_ffff), Register(0x00ff_ffff), 28);
    FourOnes(PRESET, Register(0x0fff_ffff), 32);
  }

  lemma NoOnes(v: Register)
    ensures AllOnes(v, 0)
  {
  }

  lemma FourOnes(v: Register, next: Register, n: nat)
    requires n >= 4 && v.word & 0xf == 0xf && v.word >> 4 == next.word && AllOnes(next, n - 4)
    ensures AllOnes(v, n)
  {
    LowNibble(v);
    FourDownsOf(v);
    hide Down, LowBit;
    OneBefore(Down(Down(Down(v))), n - 3);
    OneBefore(Down(Down(v)), n - 2);
    OneBefore(Down(v), n - 1);
    OneBefore(v, n);
  }

  lemma LowNibble(v: Register)
    requires v.word & 0xf == 0xf
    ensures LowBit(v) && LowBit(Down(v)) && LowBit(Down(Down(v))) && LowBit(Down(Down(Down(v))))
  {
  }

  lemma OneBefore(v: Register, n: nat)
    requires n > 0 && LowBit(v) && AllOnes(Down(v), n - 1)
    ensures AllOnes(v, n)
  {
    hide LowBit, Down;
    assert LowBits(v, n) == [LowBit(v)] + LowBits(Down(v), n - 1);
  }

  lemma ComplementBits(c: Register)
    ensures Complemented(LowBits(Register(Complement(c)), 32), 32) == LowBits(c, 32)
  {
    PresetIsOnes();
    assert Register(Complement(c)) == Xor(c, PRESET);
    hide LowBits, Complement, Xor;
    forall i | 0 <= i < 32
      ensures LowBits(Xor(c, PRESET), 32)[i] == !LowBits(c, 32)[i]
    {
      XorAt(c, PRESET, 32, i);
    }
  }

  // ---------- Check values ----------

  lemma ChecksumOfNothing()
    ensures Checksum([]) == 0
  {
  }

  lemma OneOctet(c: Register, b: byte)
    ensures Load(c, b) == Shift(Shift(Shift(Shift(Shift(Shift(Shift(Shift(Xor(c, Octet0(b))))))))))
  {
    EightShifts(Xor(c, Octet0(b)));
    hide Shift, Xor, Octet0;
  }

  lemma EightShifts(c: Register)
    ensures ShiftTimes(c, 8) == Shift(Shift(Shift(Shift(Shift(Shift(Shift(Shift(c))))))))
  {
    hide Shift;
    assert ShiftTimes(Shift(Shift(Shift(Shift(c)))), 4) == Shift(Shift(Shift(Shift(Shift(Shift(Shift(Shift(c))))))));
  }

  // The nine digits.
  const DIGITS: seq<byte> := [0x31, 0x32, 0x33, 0x34, 0x35, 0x36, 0x37, 0x38, 0x39]

  lemma Digit1()
    ensures Load(Register(0xffff_ffff), 0x31) == Register(0x7c23_1048)
  {
    OneOctet(Register(0xffff_ffff), 0x31);
  }

  lemma Digit2()
    ensures Load(Register(0x7c23_1048), 0x32) == Register(0xb0ac_bb32)
  {
    OneOctet(Register(0x7c23_1048), 0x32);
  }

  lemma Digit3()
    ensures Load(Register(0xb0ac_bb32), 0x33) == Register(0x77b7_9c2d)
  {
    OneOctet(Register(0xb0ac_bb32), 0x33);
  }

  lemma Digit4()
    ensures Load(Register(0x77b7_9c2d), 0x34) == Register(0x641c_1f5c)
  {
    OneOctet(Register(0x77b7_9c2d), 0x34);
  }

  lemma Digit5()
    ensures Load(Register(0x641c_1f5c), 0x35) == Register(0x340a_c5e3)
  {
    OneOctet(Register(0x641c_1f5c), 0x35);
  }

  lemma Digit6()
    ensures Load(Register(0x340a_c5e3), 0x36) == Register(0xf68d_2c9e)
  {
    OneOctet(Register(0x340a_c5e3), 0x36);
  }

  lemma Digit7()
    ensures Load(Register(0xf68d_2c9e), 0x37) == Register(0xaffc_9660)
  {
    OneOctet(Register(0xf68d_2c9e), 0x37);
  }

  lemma Digit8()
    ensures Load(Register(0xaffc_9660), 0x38) == Register(0x651f_2550)
  {
    OneOctet(Register(0xaffc_9660), 0x38);
  }

  lemma Digit9()
    ensures Load(Register(0x651f_2550), 0x39) == Register(0x340b_c6d9)
  {
    OneOctet(Register(0x651f_2550), 0x39);
  }

  lemma OneDigit(k: nat, c: Register, next: Register)
    requires k < 9 && Load(c, DIGITS[k]) == next
    ensures Crc(c, DIGITS[k..]) == Crc(next, DIGITS[k + 1..])
  {
    hide Load;
    assert DIGITS[k..][1..] == DIGITS[k + 1..];
  }

  lemma CheckValue()
    ensures Checksum(DIGITS) == 0xcbf4_3926
  {
    hide Crc, Load;
    assert DIGITS[0..] == DIGITS && DIGITS[9..] == [];
    Digit1();
    OneDigit(0, Register(0xffff_ffff), Register(0x7c23_1048));
    Digit2();
    OneDigit(1, Register(0x7c23_1048), Register(0xb0ac_bb32));
    Digit3();
    OneDigit(2, Register(0xb0ac_bb32), Register(0x77b7_9c2d));
    Digit4();
    OneDigit(3, Register(0x77b7_9c2d), Register(0x641c_1f5c));
    Digit5();
    OneDigit(4, Register(0x641c_1f5c), Register(0x340a_c5e3));
    Digit6();
    OneDigit(5, Register(0x340a_c5e3), Register(0xf68d_2c9e));
    Digit7();
    OneDigit(6, Register(0xf68d_2c9e), Register(0xaffc_9660));
    Digit8();
    OneDigit(7, Register(0xaffc_9660), Register(0x651f_2550));
    Digit9();
    OneDigit(8, Register(0x651f_2550), Register(0x340b_c6d9));
    NoMoreDigits();
  }

  lemma NoMoreDigits()
    ensures Complement(Crc(Register(0x340b_c6d9), [])) == 0xcbf4_3926
  {
  }
}
