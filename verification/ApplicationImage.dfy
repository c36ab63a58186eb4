// firmware/tools/application_image.py: stamping and validating images.
module ApplicationImage {
  import opened Octets
  import opened IntelHex
  import opened HexImage
  import opened Application
  import Crc32

  // Application flash after programming a memory map onto erased flash.
  function Flat(memory: map<nat, byte>): (flash: seq<byte>)
    ensures |flash| == BOOT_START
    ensures forall a | 0 <= a < BOOT_START :: flash[a] == Value(memory, a)
  {
    seq<byte>(BOOT_START, a requires 0 <= a < BOOT_START => Value(memory, a))
  }

  // image_bytes
  function ImageBytes(memory: map<nat, byte>, length: nat): (data: seq<byte>)
    ensures |data| == length
    ensures forall a | 0 <= a < length :: data[a] == Value(memory, a)
  {
    seq<byte>(length, a requires 0 <= a < length => Value(memory, a))
  }

  lemma ImageBytesAreFlat(memory: map<nat, byte>, length: nat)
    requires length <= BOOT_START
    ensures ImageBytes(memory, length) == Flat(memory)[..length]
  {
  }

  const PROTOCOL: seq<byte> := ['P' as int, '2' as int, 'F' as int, 'W' as int, 1, 1, 0]

  // int.to_bytes(4, "little")
  function LittleOctets(v: nat): (r: seq<byte>)
    requires v < 0x1_0000_0000
    ensures |r| == 4 && LittleEndian(r[0], r[1], r[2], r[3]) == v
  {
    var v1 := v / 0x100;
    var v2 := v1 / 0x100;
    var v3 := v2 / 0x100;
    [v % 0x100, v1 % 0x100, v2 % 0x100, v3]
  }

  // The image has a reset vector at 0 and ends below the manifest.
  predicate Stampable(memory: map<nat, byte>) {
    && memory != map[] && Min(memory) == 0 && Max(memory) < MANIFEST_ADDRESS
    && Max(memory) + 1 >= 2
    && (Value(memory, 0) != 0xff || Value(memory, 1) != 0xff)
  }

  // manifest_for
  function ManifestFor(memory: map<nat, byte>): (r: Result<seq<byte>>)
    ensures r.Ok? <==> Stampable(memory)
    ensures r.Ok? ==> |r.value| == MANIFEST_SIZE
  {
    if memory == map[] || Min(memory) != 0 then Error
    else if Max(memory) >= MANIFEST_ADDRESS then Error
    else
      var length := Max(memory) + 1;
      if length < 2 || (Value(memory, 0) == 0xff && Value(memory, 1) == 0xff) then Error
      else
        var crc := Crc32.Checksum(ImageBytes(memory, length));
        Ok(PROTOCOL + [0xff] + LittleOctets(length) + Crc32.OctetsOf(crc))
  }

  // stamp: read, add the manifest, write.
  function Stamped(memory: map<nat, byte>): map<nat, byte>
    requires Stampable(memory)
  {
    Store(memory, MANIFEST_ADDRESS, ManifestFor(memory).value)
  }

  method Stamp(input: string) returns (r: Result<string>)
    ensures r ==
      match Read(input)
      case Ok(memory) => if Stampable(memory) then Ok(Written(Stamped(memory))) else Error
      case Error => Error
  {
    hide Written, Read, ManifestFor, Store;
    var read := ReadHex(input);
    if read.Error? {
      return Error;
    }
    var memory := read.value;
    var manifest := ManifestFor(memory);
    if manifest.Error? {
      return Error;
    }
    var stamped := memory;
    var offset := 0;
    while offset < |manifest.value|
      invariant 0 <= offset <= |manifest.value|
      invariant stamped == Store(memory, MANIFEST_ADDRESS, manifest.value[..offset])
    {
      OneMoreOctet(memory, MANIFEST_ADDRESS, manifest.value, offset);
      stamped := stamped[MANIFEST_ADDRESS + offset := manifest.value[offset]];
      offset := offset + 1;
    }
    assert manifest.value[..offset] == manifest.value;
    assert MANIFEST_ADDRESS in stamped;
    r := WriteHex(stamped);
  }

  lemma OneMoreOctet(memory: map<nat, byte>, from: nat, data: seq<byte>, k: nat)
    requires k < |data|
    ensures Store(memory, from, data[..k + 1]) == Store(memory, from, data[..k])[from + k := data[k]]
    ensures Store(memory, from, []) == memory
  {
    var next := data[..k + 1];
    assert next != [] && |next| - 1 == k && next[k] == data[k];
    assert next[..k] == data[..k];
  }

  predicate ManifestComplete(memory: map<nat, byte>) {
    forall a | MANIFEST_ADDRESS <= a < MANIFEST_ADDRESS + MANIFEST_SIZE :: a in memory
  }

  // validate: the length and CRC of an image that is complete and valid.
  method Validate(memory: map<nat, byte>) returns (r: Result<(nat, bv32)>)
    ensures r.Ok? <==> ManifestComplete(memory) && IsValid(Flat(memory))
    ensures r.Ok? ==> r.value == (ImageLength(Flat(memory)), ImageCrc(Flat(memory)))
  {
    hide Crc32.Checksum, Crc32.Dword;
    if !ManifestComplete(memory) {
      return Error;
    }
    ghost var flash := Flat(memory);
    var raw := seq<byte>(MANIFEST_SIZE, i requires 0 <= i < MANIFEST_SIZE => Value(memory, MANIFEST_ADDRESS + i));
    assert forall i | 0 <= i < 16 :: raw[i] == flash[MANIFEST_ADDRESS + i];
    if raw[0] != 'P' as int || raw[1] != '2' as int || raw[2] != 'F' as int || raw[3] != 'W' as int || raw[4] != 1 {
      return Error;
    }
    if raw[5] != 1 || raw[6] != 0 {
      return Error;
    }
    var length := LittleEndian(raw[8], raw[9], raw[10], raw[11]);
    var expected := Crc32.Dword(raw[12], raw[13], raw[14], raw[15]);
    if length < 2 || length > MANIFEST_ADDRESS {
      return Error;
    }
    if exists address | length <= address < MANIFEST_ADDRESS :: Value(memory, address) != 0xff {
      return Error;
    }
    ImageBytesAreFlat(memory, length);
    var actual := Crc32.Checksum(ImageBytes(memory, length));
    if actual != expected {
      return Error;
    }
    r := Ok((length, actual));
  }

  // ---------- What stamping achieves ----------

  lemma StampedKeys(memory: map<nat, byte>)
    requires Stampable(memory)
    ensures Stamped(memory) != map[]
    ensures forall a | a in Stamped(memory) :: a < BOOT_START
    ensures forall a | 0 <= a < MANIFEST_ADDRESS :: Value(Stamped(memory), a) == Value(memory, a)
    ensures forall i | 0 <= i < MANIFEST_SIZE ::
      (MANIFEST_ADDRESS + i in Stamped(memory)
      && Stamped(memory)[MANIFEST_ADDRESS + i] == ManifestFor(memory).value[i])
  {
    hide ManifestFor;
    assert MANIFEST_ADDRESS in Stamped(memory);
  }

  // Padding the rows of the stamped image changes nothing in application flash.
  lemma PaddingKeepsFlash(memory: map<nat, byte>)
    requires forall a | a in memory :: a < BOOT_START
    ensures Flat(Padded(memory)) == Flat(memory)
    ensures forall a | a in Padded(memory) :: a < BOOT_START
  {
    hide Padded;
    forall a: nat
      ensures Value(Padded(memory), a) == Value(memory, a)
      ensures a in Padded(memory) ==> a < BOOT_START
    {
      PaddedAt(memory, a);
    }
    assert Flat(Padded(memory)) == Flat(memory);
  }

  // The stamped image is valid, with the length and CRC of the input.
  lemma StampedIsValid(memory: map<nat, byte>)
    requires Stampable(memory)
    ensures var flash := Flat(Stamped(memory));
      && IsValid(flash)
      && ImageLength(flash) == Max(memory) + 1
      && ImageCrc(flash) == Crc32.Checksum(ImageBytes(memory, Max(memory) + 1))
  {
    var flash := Flat(Stamped(memory));
    ManifestFields(memory);
    StampedManifest(memory);
    StampedBelow(memory);
    hide ManifestFor, Stamped, Stampable, Flat, ImageBytes, BlankFrom, HeaderOk, ImageLength, ImageCrc, LittleEndian;
    hide Crc32.Checksum, Crc32.OctetsOf, Crc32.Dword;
    FieldsOf(flash, ManifestFor(memory).value);
  }

  lemma StampedManifest(memory: map<nat, byte>)
    requires Stampable(memory) && ManifestFor(memory).Ok? && |ManifestFor(memory).value| == MANIFEST_SIZE
    ensures forall i | 0 <= i < MANIFEST_SIZE ::
      Flat(Stamped(memory))[MANIFEST_ADDRESS + i] == ManifestFor(memory).value[i]
  {
    StampedKeys(memory);
    hide ManifestFor, Stamped;
    forall i | 0 <= i < MANIFEST_SIZE
      ensures Flat(Stamped(memory))[MANIFEST_ADDRESS + i] == ManifestFor(memory).value[i]
    {
      assert MANIFEST_ADDRESS + i in Stamped(memory);
    }
  }

  lemma StampedBelow(memory: map<nat, byte>)
    requires Stampable(memory)
    ensures var flash, length := Flat(Stamped(memory)), Max(memory) + 1;
      2 <= length <= MANIFEST_ADDRESS && ImageBytes(memory, length) == flash[..length] && BlankFrom(flash, length)
  {
    StampedKeys(memory);
    hide ManifestFor, Stamped;
    var flash, length := Flat(Stamped(memory)), Max(memory) + 1;
    assert ImageBytes(memory, length) == flash[..length];
    forall a | length <= a < MANIFEST_ADDRESS
      ensures flash[a] == 0xff
    {
      assert a !in memory;
    }
  }

  lemma FieldsOf(flash: seq<byte>, m: seq<byte>)
    requires |flash| >= BOOT_START && |m| == MANIFEST_SIZE
    requires forall i | 0 <= i < MANIFEST_SIZE :: flash[MANIFEST_ADDRESS + i] == m[i]
    ensures HeaderOk(flash) <==>
      && m[0] == 'P' as int && m[1] == '2' as int && m[2] == 'F' as int && m[3] == 'W' as int
      && m[4] == 1 && m[5] == 1 && m[6] == 0
    ensures ImageLength(flash) == LittleEndian(m[8], m[9], m[10], m[11])
    ensures ImageCrc(flash) == Crc32.Dword(m[12], m[13], m[14], m[15])
  {
    hide LittleEndian, Crc32.Dword;
    assert flash[0x6ff0] == m[0] && flash[0x6ff1] == m[1] && flash[0x6ff2] == m[2] && flash[0x6ff3] == m[3];
    assert flash[0x6ff4] == m[4] && flash[0x6ff5] == m[5] && flash[0x6ff6] == m[6];
    assert flash[0x6ff8] == m[8] && flash[0x6ff9] == m[9] && flash[0x6ffa] == m[10] && flash[0x6ffb] == m[11];
    assert flash[0x6ffc] == m[12] && flash[0x6ffd] == m[13] && flash[0x6ffe] == m[14] && flash[0x6fff] == m[15];
  }

  // A manifest is made exactly for stampable images; its fields, octet by octet.
  lemma ManifestFields(memory: map<nat, byte>)
    ensures ManifestFor(memory).Ok? <==> Stampable(memory)
    ensures Stampable(memory) ==>
      var m := ManifestFor(memory).value; var length := Max(memory) + 1;
      && |m| == MANIFEST_SIZE && m[7] == 0xff
      && m[0] == 'P' as int && m[1] == '2' as int && m[2] == 'F' as int && m[3] == 'W' as int
      && m[4] == 1 && m[5] == 1 && m[6] == 0
      && LittleEndian(m[8], m[9], m[10], m[11]) == length
      && Crc32.Dword(m[12], m[13], m[14], m[15]) == Crc32.Checksum(ImageBytes(memory, length))
  {
    if !Stampable(memory) {
      return;
    }
    var length := Max(memory) + 1;
    var crc := Crc32.Checksum(ImageBytes(memory, length));
    Crc32.DwordOfOctets(crc);
    hide Crc32.Checksum, Crc32.OctetsOf, Crc32.Dword;
    hide LittleOctets, ImageBytes, Min, Max, LittleEndian;
    var l, t := LittleOctets(length), Crc32.OctetsOf(crc);
    assert ManifestFor(memory).value == PROTOCOL + [0xff] + l + t;
    hide ManifestFor;
  }
}
