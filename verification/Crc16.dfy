// CRC16-XMODEM: polynomial 0x1021, initial value 0, most significant bit first.
//
// Besides the octet-at-a-time form of the sources this module has a form that
// takes one bit at a time. The two agree, and the error-detection theorems are
// stated on the bits of a codeword: the message followed by its CRC.
module Crc16 {
  import opened Octets

  // ---------- The register ----------

  // The 16-bit register. It is wrapped so that a proof sees its bits only
  // where it looks inside.
  datatype Register = Register(word: bv16)

  const ZERO := Register(0)
  const POLYNOMIAL := Register(0x1021)

  function Xor(a: Register, b: Register): Register {
    Register(a.word ^ b.word)
  }

  function Up(c: Register): Register {
    Register(c.word << 1)
  }

  function TopBit(c: Register): bool {
    c.word & 0x8000 != 0
  }

  function Shift(c: Register): Register {
    if TopBit(c) then Xor(Up(c), POLYNOMIAL) else Up(c)
  }

  // A bit, or an octet, placed where the next shifts will consume it.
  function BitAtTop(bit: bool): Register {
    Register(if bit then 0x8000 else 0)
  }

  function OctetAtTop(b: byte): Register {
    Register((Raw(b) as bv16) << 8)
  }

  function OctetAtBottom(b: byte): Register {
    Register(Raw(b) as bv16)
  }

  function ShiftTimes(c: Register, n: nat): Register
    decreases n
  {
    if n == 0 then c else ShiftTimes(Shift(c), n - 1)
  }

  function UpTimes(c: Register, n: nat): Register
    decreases n
  {
    if n == 0 then c else UpTimes(Up(c), n - 1)
  }

  function Load(c: Register, b: byte): Register {
    ShiftTimes(Xor(c, OctetAtTop(b)), 8)
  }

  // The CRC of data, continuing from an earlier register value.
  function Crc(c: Register, data: seq<byte>): Register
    decreases |data|
  {
    if data == [] then c else Crc(Load(c, data[0]), data[1..])
  }

  // Two octets read as a register, high octet first, and back.
  function Word(high: byte, low: byte): Register {
    Register(((Raw(high) as bv16) << 8) | (Raw(low) as bv16))
  }

  function High(c: Register): byte {
    (c.word >> 8) as int
  }

  function Low(c: Register): byte {
    (c.word & 0xff) as int
  }

  // The two octets that are sent after a message, high octet first.
  function Trailer(c: Register): (t: seq<byte>)
    ensures |t| == 2
  {
    [High(c), Low(c)]
  }

  // The octet loop of the sources, with its inner loop over eight bits.
  method CrcUpdate(start: Register, data: seq<byte>) returns (crc: Register)
    ensures crc == Crc(start, data)
  {
    crc := start;
    var i := 0;
    while i < |data|
      invariant 0 <= i <= |data|
      invariant Crc(crc, data[i..]) == Crc(start, data)
    {
      ghost var before := crc;
      crc := Xor(crc, OctetAtTop(data[i]));
      ghost var loaded := crc;
      var bit := 0;
      while bit < 8
        invariant 0 <= bit <= 8
        invariant ShiftTimes(crc, 8 - bit) == ShiftTimes(loaded, 8)
      {
        crc := if TopBit(crc) then Xor(Up(crc), POLYNOMIAL) else Up(crc);
        bit := bit + 1;
      }
      assert crc == Load(before, data[i]);
      assert data[i..][1..] == data[i + 1..];
      i := i + 1;
    }
  }

  // Chaining: the CRC of a message is the CRC of its second part started from
  // the CRC of its first part.
  lemma {:induction false} Chain(c: Register, a: seq<byte>, b: seq<byte>)
    ensures Crc(c, a + b) == Crc(Crc(c, a), b)
    decreases |a|
  {
    hide Load;
    if a == [] {
      assert a + b == b;
    } else {
      assert (a + b)[1..] == a[1..] + b;
      Chain(Load(c, a[0]), a[1..], b);
    }
  }

  // ---------- Algebra of the register ----------

  lemma XorZero(a: Register)
    ensures Xor(a, ZERO) == a
  {
  }

  lemma XorCancel(a: Register, b: Register, t: Register)
    requires Xor(a, t) == Xor(b, t)
    ensures a == b
  {
  }

  lemma XorIsZero(a: Register, b: Register)
    ensures Xor(a, b) == ZERO <==> a == b
  {
  }

  lemma XorAssociative(a: Register, b: Register, c: Register)
    ensures Xor(Xor(a, b), c) == Xor(a, Xor(b, c))
  {
  }

  lemma UpLinear(a: Register, b: Register)
    ensures Up(Xor(a, b)) == Xor(Up(a), Up(b))
  {
  }

  // The four cases of the next lemma, one by one.
  lemma TopBothSet(a: Register, b: Register)
    requires TopBit(a) && TopBit(b)
    ensures !TopBit(Xor(a, b))
  {
  }

  lemma TopFirstSet(a: Register, b: Register)
    requires TopBit(a) && !TopBit(b)
    ensures TopBit(Xor(a, b))
  {
  }

  lemma TopSecondSet(a: Register, b: Register)
    requires !TopBit(a) && TopBit(b)
    ensures TopBit(Xor(a, b))
  {
  }

  lemma TopNoneSet(a: Register, b: Register)
    requires !TopBit(a) && !TopBit(b)
    ensures !TopBit(Xor(a, b))
  {
  }

  lemma TopBitLinear(a: Register, b: Register)
    ensures TopBit(Xor(a, b)) == (TopBit(a) != TopBit(b))
  {
    hide *;
    if TopBit(a) {
      if TopBit(b) { TopBothSet(a, b); } else { TopFirstSet(a, b); }
    } else {
      if TopBit(b) { TopSecondSet(a, b); } else { TopNoneSet(a, b); }
    }
  }

  // The shift is linear: it distributes over exclusive or.
  lemma ShiftLinear(a: Register, b: Register)
    ensures Shift(Xor(a, b)) == Xor(Shift(a), Shift(b))
  {
    UpLinear(a, b);
    TopBitLinear(a, b);
    hide Up, TopBit;
    if TopBit(a) {
    } else {
    }
  }

  // The shift loses nothing: different registers stay different.
  lemma ShiftInjective(a: Register, b: Register)
    requires Shift(a) == Shift(b)
    ensures a == b
  {
    if TopBit(a) {
      assert Shift(a).word & 1 == 1;
    } else {
      assert Shift(a).word & 1 == 0;
    }
    if TopBit(b) {
      assert Shift(b).word & 1 == 1;
    } else {
      assert Shift(b).word & 1 == 0;
    }
  }

  lemma {:induction false} ShiftTimesInjective(a: Register, b: Register, n: nat)
    requires ShiftTimes(a, n) == ShiftTimes(b, n)
    ensures a == b
    decreases n
  {
    hide Shift;
    if n > 0 {
      ShiftTimesInjective(Shift(a), Shift(b), n - 1);
      ShiftInjective(a, b);
    }
  }

  lemma {:induction false} ShiftTimesZero(n: nat)
    ensures ShiftTimes(ZERO, n) == ZERO
  {
    if n > 0 {
      assert Shift(ZERO) == ZERO;
      ShiftTimesZero(n - 1);
    }
  }

  // The top bit of what is loaded is consumed by a shift; the rest moves up.
  lemma Waiting(u: Register, y: Register)
    ensures Shift(Xor(u, y)) == Xor(Shift(Xor(u, BitAtTop(TopBit(y)))), Up(y))
  {
    hide Xor, Up, TopBit, BitAtTop, WithoutTop;
    var t := BitAtTop(TopBit(y));
    var rest := WithoutTop(y);
    WithoutTopIsClear(y);
    WithoutTopMovesUp(y);
    if TopBit(y) { TopAndRestWhenSet(y); } else { TopAndRestWhenClear(y); }
    XorAssociative(u, t, rest);
    ShiftLinear(Xor(u, t), rest);
  }

  function WithoutTop(y: Register): Register {
    Register(y.word & 0x7fff)
  }

  lemma WithoutTopIsClear(y: Register)
    ensures !TopBit(WithoutTop(y))
  {
  }

  lemma WithoutTopMovesUp(y: Register)
    ensures Up(WithoutTop(y)) == Up(y)
  {
  }

  lemma TopAndRestWhenSet(y: Register)
    requires TopBit(y)
    ensures Xor(BitAtTop(true), WithoutTop(y)) == y
  {
  }

  lemma TopAndRestWhenClear(y: Register)
    requires !TopBit(y)
    ensures Xor(BitAtTop(false), WithoutTop(y)) == y
  {
  }

  lemma {:induction false} UpTimesSplit(c: Register, m: nat, n: nat)
    ensures UpTimes(c, m + n) == UpTimes(UpTimes(c, m), n)
    decreases m
  {
    hide Up;
    if m > 0 {
      UpTimesSplit(Up(c), m - 1, n);
    }
  }

  lemma UpFour(c: Register)
    ensures UpTimes(c, 4).word == c.word << 4
  {
  }

  lemma UpSixteen(c: Register)
    ensures UpTimes(c, 16) == ZERO
  {
    UpTimesSplit(c, 4, 12);
    UpTimesSplit(UpTimes(c, 4), 4, 8);
    UpTimesSplit(UpTimes(UpTimes(c, 4), 4), 4, 4);
    UpFour(c);
    UpFour(UpTimes(c, 4));
    UpFour(UpTimes(UpTimes(c, 4), 4));
    UpFour(UpTimes(UpTimes(UpTimes(c, 4), 4), 4));
  }

  lemma {:induction false} UpZero(n: nat)
    ensures UpTimes(ZERO, n) == ZERO
  {
    if n > 0 {
      assert Up(ZERO) == ZERO;
      UpZero(n - 1);
    }
  }

  // ---------- One bit at a time ----------

  function BitStep(c: Register, bit: bool): Register {
    Shift(Xor(c, BitAtTop(bit)))
  }

  function CrcBits(c: Register, bits: seq<bool>): Register
    decreases |bits|
  {
    if bits == [] then c else CrcBits(BitStep(c, bits[0]), bits[1..])
  }

  lemma {:induction false} ChainBits(c: Register, a: seq<bool>, b: seq<bool>)
    ensures CrcBits(c, a + b) == CrcBits(CrcBits(c, a), b)
    decreases |a|
  {
    hide BitStep;
    if a == [] {
      assert a + b == b;
    } else {
      assert (a + b)[1..] == a[1..] + b;
      ChainBits(BitStep(c, a[0]), a[1..], b);
    }
  }

  // The first n bits of a register, most significant first.
  function TopBits(v: Register, n: nat): (bits: seq<bool>)
    ensures |bits| == n
    decreases n
  {
    if n == 0 then [] else [TopBit(v)] + TopBits(Up(v), n - 1)
  }

  // Loading n bits at once and shifting n times is taking them one by one.
  lemma {:induction false} Absorb(c: Register, v: Register, n: nat)
    ensures ShiftTimes(Xor(c, v), n) == Xor(CrcBits(c, TopBits(v, n)), UpTimes(v, n))
    decreases n
  {
    hide Shift, Xor, Up, TopBit, BitAtTop;
    if n > 0 {
      Waiting(c, v);
      Absorb(BitStep(c, TopBit(v)), Up(v), n - 1);
      assert TopBits(v, n)[1..] == TopBits(Up(v), n - 1);
    }
  }

  // The bits of an octet and of a message, in the order in which they enter.
  function OctetBits(b: byte): (bits: seq<bool>)
    ensures |bits| == 8
  {
    TopBits(OctetAtTop(b), 8)
  }

  function Bits(data: seq<byte>): (bits: seq<bool>)
    ensures |bits| == 8 * |data|
  {
    if data == [] then [] else OctetBits(data[0]) + Bits(data[1..])
  }

  lemma UpEightOctet(b: byte)
    ensures UpTimes(OctetAtTop(b), 8) == ZERO
    ensures UpTimes(OctetAtBottom(b), 8) == OctetAtTop(b)
  {
    var t, l := OctetAtTop(b), OctetAtBottom(b);
    UpTimesSplit(t, 4, 4);
    UpTimesSplit(l, 4, 4);
    UpFour(t);
    UpFour(UpTimes(t, 4));
    UpFour(l);
    UpFour(UpTimes(l, 4));
  }

  lemma LoadIsEightBits(c: Register, b: byte)
    ensures Load(c, b) == CrcBits(c, OctetBits(b))
  {
    hide Shift, Xor, Up, TopBit, BitAtTop, OctetAtTop, ShiftTimes, CrcBits, TopBits, UpTimes;
    Absorb(c, OctetAtTop(b), 8);
    UpEightOctet(b);
    XorZero(CrcBits(c, OctetBits(b)));
  }

  // The octet form and the bit form compute the same CRC.
  lemma {:induction false} CrcIsCrcBits(c: Register, data: seq<byte>)
    ensures Crc(c, data) == CrcBits(c, Bits(data))
    decreases |data|
  {
    hide Load, BitStep, OctetBits;
    if data != [] {
      LoadIsEightBits(c, data[0]);
      ChainBits(c, OctetBits(data[0]), Bits(data[1..]));
      CrcIsCrcBits(Load(c, data[0]), data[1..]);
    }
  }

  // ---------- Codewords ----------

  predicate FrameOk(frame: seq<byte>)
    requires |frame| >= 2
  {
    Word(frame[|frame| - 2], frame[|frame| - 1]) == Crc(ZERO, frame[..|frame| - 2])
  }

  lemma NoTopFour(v: Register)
    requires v.word & 0xf000 == 0
    ensures TopBits(v, 4) == [false, false, false, false]
  {
    var v1 := Up(v); var v2 := Up(v1); var v3 := Up(v2);
    assert v1.word & 0xe000 == 0;
    assert v2.word & 0xc000 == 0;
    assert TopBits(v, 4) == [TopBit(v)] + TopBits(v1, 3);
    assert TopBits(v1, 3) == [TopBit(v1)] + TopBits(v2, 2);
    assert TopBits(v2, 2) == [TopBit(v2)] + TopBits(v3, 1);
    assert TopBits(v3, 1) == [TopBit(v3)] + TopBits(Up(v3), 0);
  }

  lemma {:induction false} TopBitsSplit(v: Register, m: nat, n: nat)
    ensures TopBits(v, m + n) == TopBits(v, m) + TopBits(UpTimes(v, m), n)
    decreases m
  {
    hide Up, TopBit;
    if m > 0 {
      TopBitsSplit(Up(v), m - 1, n);
    }
  }

  // Zero bits shift the register without changing it otherwise.
  lemma {:induction false} CrcOfZeroBits(c: Register, bits: seq<bool>)
    requires forall k | 0 <= k < |bits| :: !bits[k]
    ensures CrcBits(c, bits) == ShiftTimes(c, |bits|)
    decreases |bits|
  {
    hide Shift, Xor;
    if bits != [] {
      XorZero(c);
      assert BitAtTop(false) == ZERO;
      CrcOfZeroBits(BitStep(c, bits[0]), bits[1..]);
    }
  }

  lemma BottomBits(b: byte)
    ensures forall k | 0 <= k < 8 :: !TopBits(OctetAtBottom(b), 8)[k]
  {
    var l := OctetAtBottom(b);
    UpFour(l);
    assert l.word & 0xf000 == 0;
    assert UpTimes(l, 4).word & 0xf000 == 0;
    hide Up, TopBit, OctetAtBottom;
    TopBitsSplit(l, 4, 4);
    NoTopFour(l);
    NoTopFour(UpTimes(l, 4));
  }

  // An octet in the lower half waits for eight shifts, then is at the top.
  lemma LowOctetWaits(u: Register, b: byte)
    ensures ShiftTimes(Xor(u, OctetAtBottom(b)), 8) == Xor(ShiftTimes(u, 8), OctetAtTop(b))
  {
    var l := OctetAtBottom(b);
    var bits := TopBits(l, 8);
    BottomBits(b);
    hide Shift, Xor, Up, TopBit, BitAtTop, OctetAtTop, OctetAtBottom, ShiftTimes, CrcBits, TopBits, UpTimes;
    Absorb(u, l, 8);
    CrcOfZeroBits(u, bits);
    UpEightOctet(b);
  }

  lemma WordIsSum(high: byte, low: byte)
    ensures Word(high, low) == Xor(OctetAtTop(high), OctetAtBottom(low))
  {
  }

  // Two octets loaded one after the other are one sixteen-bit load.
  lemma TwoLoads(c: Register, high: byte, low: byte)
    ensures Load(Load(c, high), low) == ShiftTimes(ShiftTimes(Xor(c, Word(high, low)), 8), 8)
  {
    WordIsSum(high, low);
    hide Shift, Xor, OctetAtTop, OctetAtBottom, ShiftTimes, Word;
    var h := Xor(c, OctetAtTop(high));
    LowOctetWaits(h, low);
    XorAssociative(c, OctetAtTop(high), OctetAtBottom(low));
  }

  // A message matches its two CRC octets exactly when the register is zero
  // after the message and the CRC have both gone through it.
  lemma ResidueIffMatch(data: seq<byte>, high: byte, low: byte)
    ensures Word(high, low) == Crc(ZERO, data) <==> Crc(ZERO, data + [high, low]) == ZERO
  {
    hide Xor, Word, ShiftTimes, Load;
    var c := Crc(ZERO, data);
    var v := Word(high, low);
    Chain(ZERO, data, [high, low]);
    assert [high, low][1..] == [low];
    assert Crc(c, [high, low]) == Crc(Load(c, high), [low]) == Load(Load(c, high), low);
    TwoLoads(c, high, low);
    ShiftTimesZero(8);
    XorIsZero(c, v);
    if Crc(ZERO, data + [high, low]) == ZERO {
      ShiftTimesInjective(ShiftTimes(Xor(c, v), 8), ZERO, 8);
      ShiftTimesInjective(Xor(c, v), ZERO, 8);
    }
  }

  lemma Residue(frame: seq<byte>)
    requires |frame| >= 2
    ensures FrameOk(frame) <==> CrcBits(ZERO, Bits(frame)) == ZERO
  {
    hide Crc, CrcBits, Bits, Word;
    var n := |frame| - 2;
    assert frame == frame[..n] + [frame[n], frame[n + 1]];
    ResidueIffMatch(frame[..n], frame[n], frame[n + 1]);
    CrcIsCrcBits(ZERO, frame);
  }

  lemma WordOfTrailer(c: Register)
    ensures Word(High(c), Low(c)) == c
  {
    HalfOfWord(c.word >> 8);
    HalfOfWord(c.word & 0xff);
    WordOfHalves(c, High(c), Low(c));
  }

  lemma WordOfHalves(c: Register, high: byte, low: byte)
    requires Raw(high) as bv16 == c.word >> 8
    requires Raw(low) as bv16 == c.word & 0xff
    ensures Word(high, low) == c
  {
    hide Raw;
    Halves(c.word);
  }

  lemma Halves(w: bv16)
    ensures ((w >> 8) << 8) | (w & 0xff) == w
  {
  }

  lemma HalfOfWord(h: bv16)
    requires h <= 0xff
    ensures 0 <= h as int < 256
    ensures Raw(h as int) as bv16 == h
  {
    Narrowed(h);
    PatternOfNumber(h as bv8);
    hide Raw;
  }

  lemma Narrowed(h: bv16)
    requires h <= 0xff
    ensures h as int == (h as bv8) as int && (h as bv8) as bv16 == h
  {
  }

  // The CRC octets that a sender appends are the ones a receiver accepts.
  lemma TrailerAccepted(data: seq<byte>)
    ensures FrameOk(data + Trailer(Crc(ZERO, data)))
  {
    hide Crc, Word, High, Low;
    var c := Crc(ZERO, data);
    var frame := data + Trailer(c);
    assert frame[..|frame| - 2] == data;
    WordOfTrailer(c);
  }

  // ---------- Errors confined to sixteen consecutive bits ----------

  ghost predicate DifferWithin(a: seq<bool>, b: seq<bool>, from: nat, width: nat) {
    && |a| == |b|
    && forall k | 0 <= k < |a| && a[k] != b[k] :: from <= k < from + width
  }

  lemma {:induction false} CrcBitsInjective(c: Register, d: Register, bits: seq<bool>)
    requires CrcBits(c, bits) == CrcBits(d, bits)
    ensures c == d
    decreases |bits|
  {
    hide Shift, Xor, BitAtTop;
    if bits != [] {
      CrcBitsInjective(BitStep(c, bits[0]), BitStep(d, bits[0]), bits[1..]);
      var t := BitAtTop(bits[0]);
      ShiftInjective(Xor(c, t), Xor(d, t));
      XorCancel(c, d, t);
    }
  }

  function Down(c: Register): Register {
    Register(c.word >> 1)
  }

  lemma Push(bit: bool, v: Register)
    requires v.word & 1 == 0
    ensures TopBit(Xor(BitAtTop(bit), Down(v))) == bit
    ensures Up(Xor(BitAtTop(bit), Down(v))) == v
  {
    if bit {
    } else {
    }
  }

  lemma UpToZeroIsEven(v: Register, n: nat)
    requires n < 16
    requires UpTimes(v, n) == ZERO
    ensures v.word & 1 == 0
  {
    UpTimesSplit(v, n, 15 - n);
    UpZero(15 - n);
    UpFifteen(v);
    assert v.word << 15 == 0;
  }

  lemma UpFifteen(v: Register)
    ensures UpTimes(v, 15).word == v.word << 15
  {
    UpTimesSplit(v, 4, 11);
    UpTimesSplit(UpTimes(v, 4), 4, 7);
    UpTimesSplit(UpTimes(UpTimes(v, 4), 4), 4, 3);
    UpFour(v);
    UpFour(UpTimes(v, 4));
    UpFour(UpTimes(UpTimes(v, 4), 4));
    UpThree(UpTimes(UpTimes(UpTimes(v, 4), 4), 4));
  }

  lemma UpThree(c: Register)
    ensures UpTimes(c, 3).word == c.word << 3
  {
  }

  // Any bits that fit in the register are the first bits of some register
  // that holds nothing else.
  lemma {:induction false} Represent(w: seq<bool>) returns (v: Register)
    requires |w| <= 16
    ensures TopBits(v, |w|) == w
    ensures UpTimes(v, |w|) == ZERO
    decreases |w|
  {
    hide Shift, Xor, Up, TopBit, BitAtTop, Down;
    if w == [] {
      v := ZERO;
    } else {
      var rest := Represent(w[1..]);
      UpToZeroIsEven(rest, |w| - 1);
      Push(w[0], rest);
      v := Xor(BitAtTop(w[0]), Down(rest));
    }
  }

  // Sixteen bits are recovered from the register they lead to.
  lemma SixteenBitsInjective(c: Register, w: seq<bool>, z: seq<bool>)
    requires |w| == |z| == 16
    requires CrcBits(c, w) == CrcBits(c, z)
    ensures w == z
  {
    var v := Represent(w);
    var u := Represent(z);
    hide Shift, Xor, Up, TopBit, BitAtTop, Down, ShiftTimes, CrcBits, TopBits, UpTimes;
    Absorb(c, v, 16);
    Absorb(c, u, 16);
    XorZero(CrcBits(c, w));
    XorZero(CrcBits(c, z));
    ShiftTimesInjective(Xor(c, v), Xor(c, u), 16);
    XorCommutes(c, v);
    XorCommutes(c, u);
    XorCancel(v, u, c);
  }

  lemma XorCommutes(a: Register, b: Register)
    ensures Xor(a, b) == Xor(b, a)
  {
  }

  // Two bit strings with the same residue never differ only inside a window
  // of sixteen bits, whatever their length.
  lemma BurstDetected(a: seq<bool>, b: seq<bool>, from: nat)
    requires DifferWithin(a, b, from, 16)
    requires |a| >= 16
    requires CrcBits(ZERO, a) == CrcBits(ZERO, b)
    ensures a == b
  {
    hide CrcBits;
    var p := if from + 16 <= |a| then from else |a| - 16;
    var q := p + 16;
    assert a[..p] == b[..p];
    assert a[q..] == b[q..];
    assert a == a[..p] + (a[p..q] + a[q..]);
    assert b == b[..p] + (b[p..q] + b[q..]);
    var c := CrcBits(ZERO, a[..p]);
    ChainBits(ZERO, a[..p], a[p..q] + a[q..]);
    ChainBits(ZERO, b[..p], b[p..q] + b[q..]);
    ChainBits(c, a[p..q], a[q..]);
    ChainBits(c, b[p..q], b[q..]);
    CrcBitsInjective(CrcBits(c, a[p..q]), CrcBits(c, b[p..q]), a[q..]);
    SixteenBitsInjective(c, a[p..q], b[p..q]);
  }

  // ---------- Errors in an odd number of bits ----------

  // Whether a bit string holds an odd number of ones.
  function Odd(bits: seq<bool>): bool {
    if bits == [] then false else bits[0] != Odd(bits[1..])
  }

  function Parity(c: Register): bool {
    Odd(TopBits(c, 16))
  }

  lemma {:induction false} OddLinear(a: Register, b: Register, n: nat)
    ensures Odd(TopBits(Xor(a, b), n)) == (Odd(TopBits(a, n)) != Odd(TopBits(b, n)))
    decreases n
  {
    hide Xor, Up, TopBit;
    if n > 0 {
      UpLinear(a, b);
      TopBitLinear(a, b);
      OddLinear(Up(a), Up(b), n - 1);
    }
  }

  lemma {:induction false} OddConcat(a: seq<bool>, b: seq<bool>)
    ensures Odd(a + b) == (Odd(a) != Odd(b))
  {
    if a == [] {
      assert a + b == b;
    } else {
      assert (a + b)[1..] == a[1..] + b;
      OddConcat(a[1..], b);
    }
  }

  // Moving the register up loses exactly its top bit.
  lemma ParityOfUp(c: Register)
    ensures Parity(Up(c)) == (Parity(c) != TopBit(c))
  {
    assert !TopBit(ZERO);
    hide Up, TopBit;
    UpSixteen(c);
    TopBitsSplit(c, 16, 1);
    assert TopBits(ZERO, 1) == [TopBit(ZERO)] + TopBits(Up(ZERO), 0);
    OddConcat(TopBits(c, 16), TopBits(ZERO, 1));
    assert TopBits(c, 17)[1..] == TopBits(Up(c), 16);
  }

  lemma ParityWhenSet(w: bv16)
    requires w & 0x8000 != 0
    ensures Parity(Register(w)) != Parity(Register(w << 1))
  {
    hide Parity;
    ParityOfUp(Register(w));
  }

  lemma ParityWhenClear(w: bv16)
    requires w & 0x8000 == 0
    ensures Parity(Register(w)) == Parity(Register(w << 1))
  {
    hide Parity;
    ParityOfUp(Register(w));
  }

  // The polynomial has three terms besides the bit that is shifted out.
  lemma ParityOfPolynomial()
    ensures Parity(POLYNOMIAL)
  {
    ParityOfZero(16);
    assert !Parity(ZERO);
    hide Parity;
    ParityWhenClear(0x1021); ParityWhenClear(0x2042); ParityWhenClear(0x4084);
    ParityWhenSet(0x8108);
    ParityWhenClear(0x0210); ParityWhenClear(0x0420); ParityWhenClear(0x0840); ParityWhenClear(0x1080);
    ParityWhenClear(0x2100); ParityWhenClear(0x4200);
    ParityWhenSet(0x8400);
    ParityWhenClear(0x0800); ParityWhenClear(0x1000); ParityWhenClear(0x2000); ParityWhenClear(0x4000);
    ParityWhenSet(0x8000);
  }

  // With the bit that is shifted out the polynomial has an even number of
  // terms, so a shift keeps the parity.
  lemma ShiftKeepsParity(c: Register)
    ensures Parity(Shift(c)) == Parity(c)
  {
    hide Xor, Up, TopBit, TopBits, Odd;
    ParityOfUp(c);
    OddLinear(Up(c), POLYNOMIAL, 16);
    ParityOfPolynomial();
  }

  lemma ParityOfTop(bit: bool)
    ensures Parity(BitAtTop(bit)) == bit
  {
    assert Up(BitAtTop(bit)) == ZERO;
    assert TopBit(BitAtTop(bit)) == bit;
    assert TopBits(BitAtTop(bit), 16) == [bit] + TopBits(ZERO, 15);
    ParityOfZero(15);
  }

  lemma {:induction false} ParityOfZero(n: nat)
    ensures !Odd(TopBits(ZERO, n))
  {
    if n > 0 {
      assert Up(ZERO) == ZERO && !TopBit(ZERO);
      ParityOfZero(n - 1);
    }
  }

  lemma {:induction false} ParityOfCrcBits(c: Register, bits: seq<bool>)
    ensures Parity(CrcBits(c, bits)) == (Parity(c) != Odd(bits))
    decreases |bits|
  {
    hide Shift, Xor, BitAtTop, TopBits;
    if bits != [] {
      var t := BitAtTop(bits[0]);
      OddLinear(c, t, 16);
      ParityOfTop(bits[0]);
      ShiftKeepsParity(Xor(c, t));
      ParityOfCrcBits(BitStep(c, bits[0]), bits[1..]);
    }
  }

  // How many bits differ.
  function Flips(a: seq<bool>, b: seq<bool>): nat
    requires |a| == |b|
  {
    if a == [] then 0 else (if a[0] != b[0] then 1 else 0) + Flips(a[1..], b[1..])
  }

  lemma {:induction false} FlipsParity(a: seq<bool>, b: seq<bool>)
    requires |a| == |b|
    ensures Flips(a, b) % 2 == 0 <==> Odd(a) == Odd(b)
  {
    if a != [] {
      FlipsParity(a[1..], b[1..]);
    }
  }

  // Bit strings with residue zero differ in an even number of places.
  lemma OddFlipsDetected(a: seq<bool>, b: seq<bool>)
    requires |a| == |b|
    requires CrcBits(ZERO, a) == ZERO == CrcBits(ZERO, b)
    ensures Flips(a, b) % 2 == 0
  {
    ParityOfCrcBits(ZERO, a);
    ParityOfCrcBits(ZERO, b);
    FlipsParity(a, b);
  }

  // ---------- Corrupted frames ----------

  // How a frame may be damaged: an odd number of its bits is inverted, or all
  // inverted bits (there is at least one) lie within sixteen positions.
  ghost predicate Damaged(sent: seq<byte>, received: seq<byte>) {
    && |sent| == |received|
    && (|| Flips(Bits(sent), Bits(received)) % 2 == 1
        || (Bits(sent) != Bits(received)
            && exists from: nat :: DifferWithin(Bits(sent), Bits(received), from, 16)))
  }

  // A damaged frame fails its CRC check, for frames of every length.
  lemma DamageDetected(sent: seq<byte>, received: seq<byte>)
    requires |sent| >= 2
    requires FrameOk(sent)
    requires Damaged(sent, received)
    ensures !FrameOk(received)
  {
    hide CrcBits;
    Residue(sent);
    Residue(received);
    if CrcBits(ZERO, Bits(received)) == ZERO {
      OddFlipsDetected(Bits(sent), Bits(received));
      var from: nat :| DifferWithin(Bits(sent), Bits(received), from, 16);
      BurstDetected(Bits(sent), Bits(received), from);
    }
  }
}
