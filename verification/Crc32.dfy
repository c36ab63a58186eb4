// The reflected CRC-32 of section 8 of RFC 1952: polynomial 0xedb88320, least
// significant bit first, register preset to ones and complemented at the end.
module Crc32 {
  import opened Octets

  datatype Register = Register(word: bv32)

  const ZERO := Register(0)
  const PRESET := Register(0xffff_ffff)
  const POLYNOMIAL := Register(0xedb8_8320)

  function Xor(a: Register, b: Register): Register {
    Register(a.word ^ b.word)
  }

  function Half(w: bv32): bv32 {
    w >> 1
  }

  function Down(c: Register): Register {
    Register(Half(c.word))
  }

  function LowBit(c: Register): bool {
    c.word & 1 != 0
  }

  function Shift(c: Register): Register {
    if LowBit(c) then Xor(Down(c), POLYNOMIAL) else Down(c)
  }

  function ShiftTimes(c: Register, n: nat): Register
    decreases n
  {
    if n == 0 then c else ShiftTimes(Shift(c), n - 1)
  }

  // An octet placed so that it enters next, or one, two or three octets later.
  function Octet0(b: byte): Register { Register(Raw(b) as bv32) }
  function Octet1(b: byte): Register { Register((Raw(b) as bv32) << 8) }
  function Octet2(b: byte): Register { Register((Raw(b) as bv32) << 16) }
  function Octet3(b: byte): Register { Register((Raw(b) as bv32) << 24) }

  function Load(c: Register, b: byte): Register {
    ShiftTimes(Xor(c, Octet0(b)), 8)
  }

  function Crc(c: Register, data: seq<byte>): Register
    decreases |data|
  {
    if data == [] then c else Crc(Load(c, data[0]), data[1..])
  }

  function Complement(c: Register): bv32 {
    c.word ^ 0xffff_ffff
  }

  function Checksum(data: seq<byte>): bv32 {
    Complement(Crc(PRESET, data))
  }

  // Four octets read as a 32-bit value, least significant octet first, and back.
  function Dword(b0: byte, b1: byte, b2: byte, b3: byte): bv32 {
    (Raw(b0) as bv32) | ((Raw(b1) as bv32) << 8) | ((Raw(b2) as bv32) << 16) | ((Raw(b3) as bv32) << 24)
  }

  function OctetsOf(w: bv32): (t: seq<byte>)
    ensures |t| == 4
  {
    [(w & 0xff) as int, ((w >> 8) & 0xff) as int, ((w >> 16) & 0xff) as int, (w >> 24) as int]
  }

  lemma OctetOfWord(h: bv32)
    requires h <= 0xff
    ensures Raw(h as int) as bv32 == h
  {
    Narrowed(h);
    PatternOfNumber(h as bv8);
    hide Raw;
  }

  lemma Narrowed(h: bv32)
    requires h <= 0xff
    ensures h as int == (h as bv8) as int && (h as bv8) as bv32 == h
  {
  }

  lemma DwordOfParts(w: bv32, b0: byte, b1: byte, b2: byte, b3: byte)
    requires Raw(b0) as bv32 == w & 0xff
    requires Raw(b1) as bv32 == (w >> 8) & 0xff
    requires Raw(b2) as bv32 == (w >> 16) & 0xff
    requires Raw(b3) as bv32 == w >> 24
    ensures Dword(b0, b1, b2, b3) == w
  {
    hide Raw;
    Quarters(w);
  }

  lemma Quarters(w: bv32)
    ensures (w & 0xff) | (((w >> 8) & 0xff) << 8) | (((w >> 16) & 0xff) << 16) | ((w >> 24) << 24) == w
  {
  }

  // The first octet is the least significant.
  lemma DwordOctets(b0: byte, b1: byte, b2: byte, b3: byte)
    ensures var w := Dword(b0, b1, b2, b3);
      && w & 0xff == Raw(b0) as bv32 && (w >> 8) & 0xff == Raw(b1) as bv32
      && (w >> 16) & 0xff == Raw(b2) as bv32 && w >> 24 == Raw(b3) as bv32
  {
    DwordQuarters(Raw(b0), Raw(b1), Raw(b2), Raw(b3));
    hide Raw;
  }

  lemma DwordQuarters(b0: bv8, b1: bv8, b2: bv8, b3: bv8)
    ensures var w := (b0 as bv32) | ((b1 as bv32) << 8) | ((b2 as bv32) << 16) | ((b3 as bv32) << 24);
      && w & 0xff == b0 as bv32 && (w >> 8) & 0xff == b1 as bv32
      && (w >> 16) & 0xff == b2 as bv32 && w >> 24 == b3 as bv32
  {
  }

  lemma DwordOfOctets(w: bv32)
    ensures var t := OctetsOf(w); Dword(t[0], t[1], t[2], t[3]) == w
  {
    var t := OctetsOf(w);
    OctetOfWord(w & 0xff);
    OctetOfWord((w >> 8) & 0xff);
    OctetOfWord((w >> 16) & 0xff);
    OctetOfWord(w >> 24);
    DwordOfParts(w, t[0], t[1], t[2], t[3]);
  }

  // ---------- Algebra ----------

  lemma XorAssociative(a: Register, b: Register, c: Register)
    ensures Xor(Xor(a, b), c) == Xor(a, Xor(b, c))
  {
  }

  lemma XorCancel(a: Register, b: Register, t: Register)
    requires Xor(t, a) == Xor(t, b)
    ensures a == b
  {
  }

  lemma SameWhenSet(a: Register, b: Register)
    requires LowBit(a) && LowBit(b)
    requires Xor(Down(a), POLYNOMIAL) == Xor(Down(b), POLYNOMIAL)
    ensures a.word == b.word
  {
  }

  lemma SameWhenClear(a: Register, b: Register)
    requires !LowBit(a) && !LowBit(b)
    requires Down(a) == Down(b)
    ensures a.word == b.word
  {
  }

  // The polynomial has its top bit set, so the lost bit can be told.
  lemma NeverMixed(a: Register, b: Register)
    requires LowBit(a) && !LowBit(b)
    ensures Xor(Down(a), POLYNOMIAL) != Down(b)
  {
    assert Xor(Down(a), POLYNOMIAL).word & 0x8000_0000 != 0;
    assert Down(b).word & 0x8000_0000 == 0;
  }

  // The shift loses nothing: different registers stay different.
  lemma ShiftInjective(a: Register, b: Register)
    requires Shift(a) == Shift(b)
    ensures a == b
  {
    hide Xor, Down, LowBit;
    if LowBit(a) {
      if LowBit(b) { SameWhenSet(a, b); } else { NeverMixed(a, b); }
    } else {
      if LowBit(b) { NeverMixed(b, a); } else { SameWhenClear(a, b); }
    }
  }

  lemma {:induction false} ShiftTimesInjective(a: Register, b: Register, n: nat)
    requires ShiftTimes(a, n) == ShiftTimes(b, n)
    ensures a == b
    decreases n
  {
    hide Shift;
    if n > 0 {
      ShiftTimesInjective(Shift(a), Shift(b), n - 1);
      ShiftInjective(a, b);
    }
  }

  // A register whose lowest n bits are clear.
  predicate ClearBelow(y: Register, n: nat)
    decreases n
  {
    n == 0 || (!LowBit(y) && ClearBelow(Down(y), n - 1))
  }

  function DownTimes(y: Register, n: nat): Register
    decreases n
  {
    if n == 0 then y else DownTimes(Down(y), n - 1)
  }

  lemma DownLinear(u: Register, y: Register)
    ensures Down(Xor(u, y)) == Xor(Down(u), Down(y))
  {
  }

  lemma XorSwap(a: Register, b: Register, c: Register)
    ensures Xor(Xor(a, b), c) == Xor(Xor(a, c), b)
  {
  }

  // A register with a clear low bit only moves down, whatever it is added to.
  lemma WaitingOnce(u: Register, y: Register)
    requires !LowBit(y)
    ensures Shift(Xor(u, y)) == Xor(Shift(u), Down(y))
  {
    hide Xor, Down, LowBit;
    DownLinear(u, y);
    if LowBit(u) {
      LowBitSet(u, y);
      XorSwap(Down(u), Down(y), POLYNOMIAL);
    } else {
      LowBitClear(u, y);
    }
  }

  lemma LowBitSet(u: Register, y: Register)
    requires !LowBit(y) && LowBit(u)
    ensures LowBit(Xor(u, y))
  {
  }

  lemma LowBitClear(u: Register, y: Register)
    requires !LowBit(y) && !LowBit(u)
    ensures !LowBit(Xor(u, y))
  {
  }

  lemma {:induction false} Waiting(u: Register, y: Register, n: nat)
    requires ClearBelow(y, n)
    ensures ShiftTimes(Xor(u, y), n) == Xor(ShiftTimes(u, n), DownTimes(y, n))
    decreases n
  {
    hide Shift, Xor, Down, LowBit;
    if n > 0 {
      WaitingOnce(u, y);
      Waiting(Shift(u), Down(y), n - 1);
    }
  }

  lemma ClearFour(y: Register)
    requires y.word & 0xf == 0
    ensures ClearBelow(y, 4)
  {
    var y1 := Down(y); var y2 := Down(y1); var y3 := Down(y2);
    assert y1.word & 7 == 0;
    assert y2.word & 3 == 0;
    assert y3.word & 1 == 0;
  }

  lemma HalvedFour(w: bv32)
    ensures Half(Half(Half(Half(w)))) == w >> 4
  {
  }

  lemma FourTimes(y: Register)
    ensures DownTimes(y, 4) == Down(Down(Down(Down(y))))
  {
    hide Down;
    assert DownTimes(Down(Down(Down(y))), 1) == Down(Down(Down(Down(y))));
  }

  lemma FourDowns(y: Register)
    ensures Down(Down(Down(Down(y)))).word == y.word >> 4
  {
    hide Half;
    HalvedFour(y.word);
  }

  lemma DownFour(y: Register)
    ensures DownTimes(y, 4).word == y.word >> 4
  {
    FourTimes(y);
    FourDowns(y);
    hide Down;
  }

  lemma {:induction false} Split(y: Register, m: nat, n: nat)
    ensures DownTimes(y, m + n) == DownTimes(DownTimes(y, m), n)
    ensures ClearBelow(y, m + n) <==> ClearBelow(y, m) && ClearBelow(DownTimes(y, m), n)
    decreases m
  {
    hide Down, LowBit;
    if m > 0 {
      Split(Down(y), m - 1, n);
    }
  }

  lemma DownOctet1(b: byte)
    ensures DownTimes(Octet1(b), 8) == Octet0(b)
  {
    Split(Octet1(b), 4, 4);
    DownFour(Octet1(b));
    DownFour(DownTimes(Octet1(b), 4));
  }

  lemma DownOctet2(b: byte)
    ensures DownTimes(Octet2(b), 8) == Octet1(b)
  {
    Split(Octet2(b), 4, 4);
    DownFour(Octet2(b));
    DownFour(DownTimes(Octet2(b), 4));
  }

  lemma DownOctet3(b: byte)
    ensures DownTimes(Octet3(b), 8) == Octet2(b)
  {
    Split(Octet3(b), 4, 4);
    DownFour(Octet3(b));
    DownFour(DownTimes(Octet3(b), 4));
  }

  lemma ClearOctets(b: byte)
    ensures ClearBelow(Octet1(b), 8)
    ensures ClearBelow(Octet2(b), 8)
    ensures ClearBelow(Octet3(b), 8)
  {
    ClearEight(Octet1(b));
    ClearEight(Octet2(b));
    ClearEight(Octet3(b));
  }

  lemma ClearEight(y: Register)
    requires y.word & 0xff == 0
    ensures ClearBelow(y, 8)
  {
    Split(y, 4, 4);
    ClearFour(y);
    DownFour(y);
    ClearFour(DownTimes(y, 4));
  }

  function Eight(c: Register): Register {
    ShiftTimes(c, 8)
  }

  // An octet that enters later comes one octet nearer with every load.
  lemma Nearer(u: Register, b: byte)
    ensures Xor(Eight(u), Octet0(b)) == Eight(Xor(u, Octet1(b)))
    ensures Xor(Eight(u), Octet1(b)) == Eight(Xor(u, Octet2(b)))
    ensures Xor(Eight(u), Octet2(b)) == Eight(Xor(u, Octet3(b)))
  {
    hide Xor, ShiftTimes, DownTimes, ClearBelow, Octet0, Octet1, Octet2, Octet3;
    ClearOctets(b);
    DownOctet1(b);
    DownOctet2(b);
    DownOctet3(b);
    Waiting(u, Octet1(b), 8);
    Waiting(u, Octet2(b), 8);
    Waiting(u, Octet3(b), 8);
  }

  // Four octets, combined the way the register sees them.
  function Packed(b0: byte, b1: byte, b2: byte, b3: byte): Register {
    Xor(Xor(Xor(Octet0(b0), Octet1(b1)), Octet2(b2)), Octet3(b3))
  }

  lemma CrcOfFour(c: Register, b0: byte, b1: byte, b2: byte, b3: byte)
    ensures Crc(c, [b0, b1, b2, b3]) == Load(Load(Load(Load(c, b0), b1), b2), b3)
  {
    hide Load;
    assert [b0, b1, b2, b3][1..] == [b1, b2, b3];
    assert [b1, b2, b3][1..] == [b2, b3];
    assert [b2, b3][1..] == [b3];
    assert [b3][1..] == [];
    assert Crc(Load(Load(Load(c, b0), b1), b2), [b3]) == Crc(Load(Load(Load(Load(c, b0), b1), b2), b3), []);
    assert Crc(Load(Load(c, b0), b1), [b2, b3]) == Crc(Load(Load(Load(c, b0), b1), b2), [b3]);
    assert Crc(Load(c, b0), [b1, b2, b3]) == Crc(Load(Load(c, b0), b1), [b2, b3]);
  }

  // Loading four octets is one 32-bit load followed by 32 shifts.
  lemma FourLoads(c: Register, b0: byte, b1: byte, b2: byte, b3: byte)
    ensures Crc(c, [b0, b1, b2, b3]) == Eight(Eight(Eight(Eight(Xor(c, Packed(b0, b1, b2, b3))))))
  {
    hide Xor, Eight, Octet0, Octet1, Octet2, Octet3, Crc, ShiftTimes;
    CrcOfFour(c, b0, b1, b2, b3);
    var x0 := Xor(c, Octet0(b0));
    var x1 := Xor(x0, Octet1(b1));
    var x2 := Xor(x1, Octet2(b2));
    LoadIsEight(c, b0);
    LoadIsEight(Eight(x0), b1);
    Nearer(x0, b1);
    LoadIsEight(Eight(Eight(x1)), b2);
    Nearer(Eight(x1), b2);
    Nearer(x1, b2);
    LoadIsEight(Eight(Eight(Eight(x2))), b3);
    Nearer(Eight(Eight(x2)), b3);
    Nearer(Eight(x2), b3);
    Nearer(x2, b3);
    XorAssociative(c, Octet0(b0), Octet1(b1));
    XorAssociative(c, Xor(Octet0(b0), Octet1(b1)), Octet2(b2));
    XorAssociative(c, Xor(Xor(Octet0(b0), Octet1(b1)), Octet2(b2)), Octet3(b3));
  }

  lemma LoadIsEight(c: Register, b: byte)
    ensures Load(c, b) == Eight(Xor(c, Octet0(b)))
  {
  }

  lemma PackedInjective(a0: byte, a1: byte, a2: byte, a3: byte, b0: byte, b1: byte, b2: byte, b3: byte)
    requires Packed(a0, a1, a2, a3) == Packed(b0, b1, b2, b3)
    ensures a0 == b0 && a1 == b1 && a2 == b2 && a3 == b3
  {
    var a, b := Packed(a0, a1, a2, a3).word, Packed(b0, b1, b2, b3).word;
    PackedParts(Raw(a0), Raw(a1), Raw(a2), Raw(a3), Raw(b0), Raw(b1), Raw(b2), Raw(b3));
    RawInjective(a0, b0);
    RawInjective(a1, b1);
    RawInjective(a2, b2);
    RawInjective(a3, b3);
  }

  lemma PackedParts(a0: bv8, a1: bv8, a2: bv8, a3: bv8, b0: bv8, b1: bv8, b2: bv8, b3: bv8)
    requires (a0 as bv32) ^ ((a1 as bv32) << 8) ^ ((a2 as bv32) << 16) ^ ((a3 as bv32) << 24)
          == (b0 as bv32) ^ ((b1 as bv32) << 8) ^ ((b2 as bv32) << 16) ^ ((b3 as bv32) << 24)
    ensures a0 == b0 && a1 == b1 && a2 == b2 && a3 == b3
  {
  }

  lemma {:induction false} Chain(c: Register, a: seq<byte>, b: seq<byte>)
    ensures Crc(c, a + b) == Crc(Crc(c, a), b)
    decreases |a|
  {
    hide Load;
    if a == [] {
      assert a + b == b;
    } else {
      assert (a + b)[1..] == a[1..] + b;
      Chain(Load(c, a[0]), a[1..], b);
    }
  }

  lemma {:induction false} CrcInjective(c: Register, d: Register, data: seq<byte>)
    requires Crc(c, data) == Crc(d, data)
    ensures c == d
    decreases |data|
  {
    hide Xor, ShiftTimes;
    if data != [] {
      CrcInjective(Load(c, data[0]), Load(d, data[0]), data[1..]);
      ShiftTimesInjective(Xor(c, Octet0(data[0])), Xor(d, Octet0(data[0])), 8);
      XorCommutes(c, Octet0(data[0]));
      XorCommutes(d, Octet0(data[0]));
      XorCancel(c, d, Octet0(data[0]));
    }
  }

  lemma XorCommutes(a: Register, b: Register)
    ensures Xor(a, b) == Xor(b, a)
  {
  }

  lemma FourOctetsInjective(c: Register, v: seq<byte>, w: seq<byte>)
    requires |v| == |w| == 4
    requires Crc(c, v) == Crc(c, w)
    ensures v == w
  {
    hide Crc, ShiftTimes, Xor, Packed;
    assert v == [v[0], v[1], v[2], v[3]];
    assert w == [w[0], w[1], w[2], w[3]];
    FourLoads(c, v[0], v[1], v[2], v[3]);
    FourLoads(c, w[0], w[1], w[2], w[3]);
    var p, q := Packed(v[0], v[1], v[2], v[3]), Packed(w[0], w[1], w[2], w[3]);
    ShiftTimesInjective(Eight(Eight(Eight(Xor(c, p)))), Eight(Eight(Eight(Xor(c, q)))), 8);
    ShiftTimesInjective(Eight(Eight(Xor(c, p))), Eight(Eight(Xor(c, q))), 8);
    ShiftTimesInjective(Eight(Xor(c, p)), Eight(Xor(c, q)), 8);
    ShiftTimesInjective(Xor(c, p), Xor(c, q), 8);
    XorCancel(p, q, c);
    PackedInjective(v[0], v[1], v[2], v[3], w[0], w[1], w[2], w[3]);
  }

  ghost predicate DifferWithin(a: seq<byte>, b: seq<byte>, from: nat, width: nat) {
    && |a| == |b|
    && forall k | 0 <= k < |a| && a[k] != b[k] :: from <= k < from + width
  }

  // Changing up to four consecutive octets of a message always changes its
  // CRC, whatever the length of the message.
  lemma FourOctetChangeDetected(c: Register, a: seq<byte>, b: seq<byte>, from: nat)
    requires DifferWithin(a, b, from, 4)
    requires Crc(c, a) == Crc(c, b)
    ensures a == b
    decreases |a|
  {
    hide Crc;
    if |a| < 4 {
      ShortChangeDetected(c, a, b);
    } else {
      var p := if from + 4 <= |a| then from else |a| - 4;
      var q := p + 4;
      assert a[..p] == b[..p];
      assert a[q..] == b[q..];
      assert a == a[..p] + (a[p..q] + a[q..]);
      assert b == b[..p] + (b[p..q] + b[q..]);
      var d := Crc(c, a[..p]);
      Chain(c, a[..p], a[p..q] + a[q..]);
      Chain(c, b[..p], b[p..q] + b[q..]);
      Chain(d, a[p..q], a[q..]);
      Chain(d, b[p..q], b[q..]);
      CrcInjective(Crc(d, a[p..q]), Crc(d, b[p..q]), a[q..]);
      FourOctetsInjective(d, a[p..q], b[p..q]);
    }
  }

  lemma ShortChangeDetected(c: Register, a: seq<byte>, b: seq<byte>)
    requires |a| == |b| < 4
    requires Crc(c, a) == Crc(c, b)
    ensures a == b
  {
    hide Crc;
    var pad: seq<byte> := seq(4 - |a|, _ => 0);
    Chain(c, a, pad);
    Chain(c, b, pad);
    FourOctetsInjective(c, a + pad, b + pad);
    assert a == (a + pad)[..|a|];
    assert b == (b + pad)[..|a|];
  }

  lemma ChecksumDetects(a: seq<byte>, b: seq<byte>, from: nat)
    requires DifferWithin(a, b, from, 4)
    requires Checksum(a) == Checksum(b)
    ensures a == b
  {
    hide Crc;
    ComplementInjective(Crc(PRESET, a), Crc(PRESET, b));
    FourOctetChangeDetected(PRESET, a, b, from);
  }

  lemma ComplementInjective(a: Register, b: Register)
    requires Complement(a) == Complement(b)
    ensures a == b
  {
  }

  // The octet loop shared by the bootloader and the desktop application.
  method ComputeCrc(data: seq<byte>) returns (result: bv32)
    ensures result == Checksum(data)
  {
    var crc := PRESET;
    var i := 0;
    while i < |data|
      invariant 0 <= i <= |data|
      invariant Crc(crc, data[i..]) == Crc(PRESET, data)
    {
      ghost var before := crc;
      crc := Xor(crc, Octet0(data[i]));
      ghost var loaded := crc;
      var bit := 0;
      while bit < 8
        invariant 0 <= bit <= 8
        invariant ShiftTimes(crc, 8 - bit) == ShiftTimes(loaded, 8)
      {
        crc := if LowBit(crc) then Xor(Down(crc), POLYNOMIAL) else Down(crc);
        bit := bit + 1;
      }
      assert crc == Load(before, data[i]);
      assert data[i..][1..] == data[i + 1..];
      i := i + 1;
    }
    result := Complement(crc);
  }
}
