// What a valid application image is (firmware/application_image.h), and the
// change that the CRC and the blank tail rule out.
module Application {
  import opened Octets
  import Crc32

  const MANIFEST_ADDRESS: nat := 0x6ff0
  const MANIFEST_SIZE: nat := 16
  const BOOT_START: nat := 0x7000
  const FLASH_SIZE: nat := 0x8000

  // Manifest: magic, format and protocol version, then the length of the
  // image and its CRC, both least significant octet first.
  predicate HeaderOk(flash: seq<byte>)
    requires |flash| >= BOOT_START
  {
    && flash[0x6ff0] == 'P' as int && flash[0x6ff1] == '2' as int
    && flash[0x6ff2] == 'F' as int && flash[0x6ff3] == 'W' as int
    && flash[0x6ff4] == 1 && flash[0x6ff5] == 1 && flash[0x6ff6] == 0
  }

  function ImageLength(flash: seq<byte>): nat
    requires |flash| >= BOOT_START
  {
    LittleEndian(flash[0x6ff8], flash[0x6ff9], flash[0x6ffa], flash[0x6ffb])
  }

  function ImageCrc(flash: seq<byte>): bv32
    requires |flash| >= BOOT_START
  {
    Crc32.Dword(flash[0x6ffc], flash[0x6ffd], flash[0x6ffe], flash[0x6fff])
  }

  predicate BlankFrom(flash: seq<byte>, from: nat)
    requires |flash| >= BOOT_START
  {
    forall a | from <= a < MANIFEST_ADDRESS :: flash[a] == 0xff
  }

  predicate IsValid(flash: seq<byte>)
    requires |flash| >= BOOT_START
  {
    && HeaderOk(flash)
    && 2 <= ImageLength(flash) <= MANIFEST_ADDRESS
    && Crc32.Checksum(flash[..ImageLength(flash)]) == ImageCrc(flash)
    && BlankFrom(flash, ImageLength(flash))
  }

  // Only the application section matters.
  lemma ValidLooksBelow(f: seq<byte>, g: seq<byte>)
    requires |f| >= BOOT_START && |g| >= BOOT_START
    requires f[..BOOT_START] == g[..BOOT_START]
    ensures IsValid(f) == IsValid(g)
    ensures ImageLength(f) == ImageLength(g) && ImageCrc(f) == ImageCrc(g)
  {
    assert forall a | 0 <= a < BOOT_START :: f[a] == f[..BOOT_START][a] && g[a] == g[..BOOT_START][a];
    if 2 <= ImageLength(f) <= MANIFEST_ADDRESS {
      assert f[..ImageLength(f)] == f[..BOOT_START][..ImageLength(f)];
      assert g[..ImageLength(f)] == g[..BOOT_START][..ImageLength(f)];
    }
    hide Crc32.Checksum, Crc32.Dword;
  }

  ghost predicate ChangedWithin(f: seq<byte>, g: seq<byte>, from: nat, width: nat) {
    && |f| == |g| >= BOOT_START
    && (forall a | 0 <= a < |f| && f[a] != g[a] :: from <= a < from + width && a < MANIFEST_ADDRESS)
  }

  // Any change of a valid application confined to four consecutive octets
  // below the manifest makes it invalid, whether it lies in the part covered
  // by the CRC, in the blank tail, or across their boundary.
  lemma FourOctetChangeInvalidates(f: seq<byte>, g: seq<byte>, from: nat)
    requires ChangedWithin(f, g, from, 4) && f != g
    ensures IsValid(f) ==> !IsValid(g)
  {
    hide Crc32.Checksum, Crc32.Dword;
    if IsValid(f) && IsValid(g) {
      var n := ImageLength(f);
      assert forall a | MANIFEST_ADDRESS <= a < BOOT_START :: f[a] == g[a];
      assert ImageLength(g) == n && ImageCrc(g) == ImageCrc(f);
      assert Crc32.DifferWithin(f[..n], g[..n], from, 4);
      Crc32.ChecksumDetects(f[..n], g[..n], from);
      SameEverywhere(f, g, n, from);
    }
  }

  lemma SameEverywhere(f: seq<byte>, g: seq<byte>, n: nat, from: nat)
    requires ChangedWithin(f, g, from, 4) && n <= MANIFEST_ADDRESS && f[..n] == g[..n]
    requires BlankFrom(f, n) && BlankFrom(g, n)
    ensures f == g
  {
    forall a | 0 <= a < |f|
      ensures f[a] == g[a]
    {
      if a < n {
        assert f[a] == f[..n][a] && g[a] == g[..n][a];
      }
    }
  }

  // An erased manifest is not a manifest.
  lemma BlankManifestInvalid(flash: seq<byte>)
    requires |flash| >= BOOT_START && flash[MANIFEST_ADDRESS] == 0xff
    ensures !IsValid(flash)
  {
  }
}
