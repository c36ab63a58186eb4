// Octets, their bit patterns, and the truncating conversions that the C, C++
// and Python sources apply to them.
module Octets {

  // An unsigned 8-bit value. Arithmetic on octets is integer arithmetic; only
  // the two CRC modules look at the bit pattern of an octet.
  type byte = x: int | 0 <= x < 256

  // The conversion to uint8_t of an unsigned value.
  function Low8(x: nat): byte {
    x % 256
  }

  // The bit pattern of an octet.
  function Raw(b: byte): bv8 {
    b as bv8
  }

  function Number(v: bv8): byte {
    v as int
  }

  lemma PatternExists(b: byte)
    ensures exists v: bv8 :: Number(v) == b
  {
    if b == 0 {
      assert Number(0) == 0;
    } else {
      PatternExists(b - 1);
      var v: bv8 :| Number(v) == b - 1;
      Increment(v);
      assert Number(v + 1) == b;
    }
  }

  lemma Increment(v: bv8)
    requires v < 255
    ensures Number(v + 1) == Number(v) + 1
  {
  }

  lemma PatternOfNumber(v: bv8)
    ensures 0 <= v as int < 256 && Raw(v as int) == v
  {
  }

  // Reading a bit pattern back as a number gives the octet again.
  lemma RawValue(b: byte)
    ensures Number(Raw(b)) == b
  {
    PatternExists(b);
    var v: bv8 :| Number(v) == b;
    assert Raw(Number(v)) == v;
  }

  lemma RawInjective(a: byte, b: byte)
    requires Raw(a) == Raw(b)
    ensures a == b
  {
    RawValue(a);
    RawValue(b);
  }

  lemma Joined(a: seq<byte>, b: seq<byte>, c: seq<byte>)
    ensures a + b + c == a + (b + c)
  {
  }

  // Octets that travel in pieces.
  function Flatten(chunks: seq<seq<byte>>): seq<byte> {
    if chunks == [] then [] else chunks[0] + Flatten(chunks[1..])
  }

  lemma {:induction false} FlattenLast(chunks: seq<seq<byte>>)
    requires chunks != []
    ensures Flatten(chunks) == Flatten(chunks[..|chunks| - 1]) + chunks[|chunks| - 1]
  {
    var k := |chunks| - 1;
    if k == 0 {
      assert chunks[1..] == [] && chunks[..0] == [];
    } else {
      FlattenLast(chunks[1..]);
      assert chunks[1..][..k - 1] == chunks[..k][1..];
    }
  }

  // The unsigned value of two octets, most significant first.
  function BigEndian(high: byte, low: byte): nat {
    (high as nat) * 0x100 + low
  }

  // The unsigned value of four octets, least significant first.
  function LittleEndian(b0: byte, b1: byte, b2: byte, b3: byte): nat {
    b0 + 0x100 * b1 + 0x1_0000 * b2 + 0x100_0000 * b3
  }
}
