// src/src/firmwareupdater.cpp: the desktop application's own Intel HEX decoder
// and image validator, and how it relates to the Python tools and the
// bootloader.
module FirmwareUpdater {
  import opened Octets
  import opened IntelHex
  import opened HexImage
  import opened Readers
  import opened Application
  import opened ApplicationImage
  import Crc32

  // FirmwareImageInfo
  datatype Info = Info(dataBytes: nat, highestAddress: nat, imageLength: nat, imageCrc32: bv32)

  function Decoded(text: string): Result<Image> {
    ReadLines(Desktop, Lines(text, LINE_FEED), BOOT_START)
  }

  predicate HasResetVector(memory: map<nat, byte>) {
    0 in memory && 1 in memory && (memory[0] != 0xff || memory[1] != 0xff)
  }

  predicate Acceptable(memory: map<nat, byte>) {
    HasResetVector(memory) && ManifestComplete(memory) && IsValid(Flat(memory))
  }

  predicate Accepts(text: string) {
    var r := Decoded(text);
    r.Ok? && r.value.ended && Acceptable(r.value.memory)
  }

  // ---------- The highest address ----------

  function Larger(a: nat, b: nat): nat {
    if a > b then a else b
  }

  // Where the data record on a line ends, empty or not.
  function EndOfRecord(image: Image, text: string): nat {
    var line := Trim(text);
    if image.ended || line == "" then 0
    else
      match Row(Desktop, line)
      case Ok(row) => EndOf(image.base, row)
      case Error => 0
  }

  function EndOf(base: nat, row: seq<byte>): nat
    requires IsRecord(row)
  {
    if Kind(row) == 0 then base + Address(row) + |Data(row)| else 0
  }

  function Highest(lines: seq<string>): nat
    requires ReadLines(Desktop, lines, BOOT_START).Ok?
  {
    if lines == [] then 0
    else
      var k := |lines| - 1;
      Larger(Highest(lines[..k]), EndOfRecord(ReadLines(Desktop, lines[..k], BOOT_START).value, lines[k]))
  }

  // The end of the k-th line's record.
  function EndAt(lines: seq<string>, k: nat): nat
    requires k < |lines|
  {
    match ReadLines(Desktop, lines[..k], BOOT_START)
    case Ok(image) => EndOfRecord(image, lines[k])
    case Error => 0
  }

  // No data record ends above it, and one ends there if there is any.
  lemma {:induction false} HighestIsLargest(lines: seq<string>)
    requires ReadLines(Desktop, lines, BOOT_START).Ok?
    ensures forall k | 0 <= k < |lines| :: EndAt(lines, k) <= Highest(lines)
    ensures Highest(lines) == 0 || exists k | 0 <= k < |lines| :: EndAt(lines, k) == Highest(lines)
    decreases |lines|
  {
    hide EndOfRecord, IntelHex.ReadLine;
    if lines != [] {
      var k := |lines| - 1;
      HighestIsLargest(lines[..k]);
      EarlierEnds(lines);
      var before, highest := lines[..k], Highest(lines);
      assert highest == Larger(Highest(before), EndAt(lines, k));
      hide EndAt, ReadLines, Highest;
      forall i | 0 <= i < |lines|
        ensures EndAt(lines, i) <= highest
      {
        if i < k {
          assert EndAt(before, i) == EndAt(lines, i);
        }
      }
      if highest != 0 && highest != EndAt(lines, k) {
        var i :| 0 <= i < k && EndAt(before, i) == highest;
        assert EndAt(lines, i) == highest;
      }
    }
  }

  lemma EarlierEnds(lines: seq<string>)
    requires lines != []
    ensures forall i | 0 <= i < |lines| - 1 :: EndAt(lines[..|lines| - 1], i) == EndAt(lines, i)
  {
    hide EndOfRecord, ReadLines;
    forall i | 0 <= i < |lines| - 1
      ensures EndAt(lines[..|lines| - 1], i) == EndAt(lines, i)
    {
      assert lines[..|lines| - 1][..i] == lines[..i];
    }
  }

  // The two local arrays of the validator hold a memory map.
  ghost predicate Represents(memory: seq<byte>, occupied: seq<bool>, image: map<nat, byte>) {
    && memory == Flat(image)
    && |occupied| == BOOT_START
    && (forall a | 0 <= a < BOOT_START :: occupied[a] <==> a in image)
    && (forall a | a in image :: a < BOOT_START)
  }

  lemma {:induction false} StoreSize(memory: map<nat, byte>, from: nat, data: seq<byte>)
    requires Free(memory, from, |data|)
    ensures |Store(memory, from, data)| == |memory| + |data|
    decreases |data|
  {
    if data != [] {
      var k := |data| - 1;
      StoreSize(memory, from, data[..k]);
      var before := Store(memory, from, data[..k]);
      assert from + k !in before;
      assert Store(memory, from, data).Keys == before.Keys + {from + k};
      Sizes(before);
      Sizes(Store(memory, from, data));
    }
  }

  lemma Sizes(memory: map<nat, byte>)
    ensures |memory.Keys| == |memory|
  {
  }

  method PlaceData(memory: array<byte>, occupied: array<bool>, start: nat, data: seq<byte>, ghost image: map<nat, byte>)
    returns (ok: bool)
    requires memory.Length == occupied.Length == BOOT_START && start + |data| <= BOOT_START
    requires Represents(memory[..], occupied[..], image)
    modifies memory, occupied
    ensures ok <==> Free(image, start, |data|)
    ensures ok ==> Represents(memory[..], occupied[..], Store(image, start, data))
  {
    hide Store;
    var offset := 0;
    StoreNothing(image, start);
    assert data[..0] == [];
    while offset < |data|
      invariant 0 <= offset <= |data|
      invariant Free(image, start, offset)
      invariant Represents(memory[..], occupied[..], Store(image, start, data[..offset]))
    {
      var absolute := start + offset;
      if occupied[absolute] {
        return false;
      }
      assert absolute !in Store(image, start, data[..offset]);
      occupied[absolute] := true;
      memory[absolute] := data[offset];
      OneMoreOctet(image, start, data, offset);
      offset := offset + 1;
    }
    assert data[..offset] == data;
    ok := true;
  }

  lemma StoreNothing(memory: map<nat, byte>, from: nat)
    ensures Store(memory, from, []) == memory
  {
  }

  // The octets of one line, with framing, digits, byte count and checksum
  // checked one after another.
  method ReadRecord(line: string) returns (r: Result<seq<byte>>)
    requires line != ""
    ensures r == Row(Desktop, line)
  {
    hide Sum;
    if line[0] != ':' || (|line| - 1) % 2 != 0 {
      return Error;
    }
    var i := 1;
    while i < |line|
      invariant 1 <= i <= |line|
      invariant forall k | 1 <= k < i :: Nibble(line[k]) >= 0
    {
      if Nibble(line[i]) < 0 {
        assert Nibble(line[1..][i - 1]) < 0;
        return Error;
      }
      i := i + 1;
    }
    assert IsHexText(line[1..]);
    var record := Decode(line[1..]).value;
    if |record| < 5 || |record| != (record[0] as nat) + 5 {
      return Error;
    }
    var checksum := ChecksumOf(record);
    r := if checksum != 0 then Error else Ok(record);
  }

  method ChecksumOf(record: seq<byte>) returns (checksum: byte)
    ensures checksum == Sum(record) % 0x100
  {
    hide Sum;
    checksum := 0;
    var k := 0;
    SumEmpty();
    assert record[..0] == [];
    while k < |record|
      invariant 0 <= k <= |record|
      invariant checksum == Sum(record[..k]) % 0x100
    {
      OneMoreSum(record, k);
      checksum := Low8(checksum + record[k]);
      k := k + 1;
    }
    assert record[..k] == record;
  }

  // What is accumulated while the lines are read.
  class Reader {
    const memory: array<byte>
    const occupied: array<bool>
    var info: Info
    var base: nat
    var ended: bool
    ghost var image: map<nat, byte>

    constructor ()
      ensures Valid() && fresh(memory) && fresh(occupied)
      ensures Read() == EMPTY && info.highestAddress == 0
    {
      memory := new byte[BOOT_START](_ => 0xff);
      occupied := new bool[BOOT_START](_ => false);
      info := Info(0, 0, 0, 0);
      base := 0;
      ended := false;
      image := map[];
    }

    ghost predicate Valid()
      reads this, memory, occupied
    {
      && memory.Length == occupied.Length == BOOT_START
      && Represents(memory[..], occupied[..], image)
      && info.dataBytes == |image|
      && info.highestAddress <= BOOT_START
      && (forall a | a in image :: a < info.highestAddress)
    }

    ghost function Read(): Image
      reads this
    {
      Image(image, base, ended)
    }

    method ReadLine(text: string) returns (ok: bool)
      requires Valid()
      modifies this, memory, occupied
      ensures var next := IntelHex.ReadLine(Desktop, old(Read()), text, BOOT_START);
        && (ok <==> next.Ok?)
        && (ok ==> Valid() && Read() == next.value)
        && (ok ==> info.highestAddress == Larger(old(info.highestAddress), EndOfRecord(old(Read()), text)))
    {
      hide Row, IsRecord, Store, Trim, EndOf;
      var line := Trim(text);
      if line == "" {
        return true;
      }
      if ended {
        return false;
      }
      var read := ReadRecord(line);
      if read.Error? {
        return false;
      }
      ok := Apply(read.value);
    }

    method Apply(record: seq<byte>) returns (ok: bool)
      requires Valid() && IsRecord(record)
      modifies this, memory, occupied
      ensures var next := IntelHex.Apply(old(Read()), record, BOOT_START);
        && (ok <==> next.Ok?)
        && (ok ==> Valid() && Read() == next.value)
        && (ok ==> info.highestAddress == Larger(old(info.highestAddress), EndOf(old(base), record)))
    {
      hide Sum, Store, Represents;
      var count, address, kind := record[0], BigEndian(record[1], record[2]), record[3];
      match kind
      case 0 =>
        ok := ApplyData(base + address, record[4..|record| - 1]);
      case 1 =>
        if count != 0 || address != 0 {
          return false;
        }
        ended := true;
        ok := true;
      case 2 =>
        if count != 2 || address != 0 {
          return false;
        }
        base := BigEndian(record[4], record[5]) * 0x10;
        ok := true;
      case 4 =>
        if count != 2 || address != 0 {
          return false;
        }
        base := BigEndian(record[4], record[5]) * 0x1_0000;
        ok := true;
      case 3 =>
        ok := count == 4 && address == 0;
      case 5 =>
        ok := count == 4 && address == 0;
      case _ =>
        ok := false;
    }

    method ApplyData(start: nat, data: seq<byte>) returns (ok: bool)
      requires Valid()
      modifies this, memory, occupied
      ensures ok <==> start + |data| <= BOOT_START && Free(old(image), start, |data|)
      ensures ok ==> Valid() && Read() == Image(Store(old(image), start, data), old(base), old(ended))
      ensures ok ==> info.highestAddress == Larger(old(info.highestAddress), start + |data|)
    {
      hide Store, Represents;
      var end := start + |data|;
      if end > BOOT_START {
        return false;
      }
      var highest := Larger(info.highestAddress, end);
      info := info.(dataBytes := info.dataBytes + |data|, highestAddress := highest);
      ok := PlaceData(memory, occupied, start, data, image);
      if ok {
        StoreSize(image, start, data);
        image := Store(image, start, data);
      }
    }
  }

  // The whole validation. Exactly the texts described by Accepts pass.
  method ValidateApplicationHex(contents: string) returns (r: Result<Info>)
    ensures r.Ok? <==> Accepts(contents)
    ensures r.Ok? ==>
      var memory := Decoded(contents).value.memory;
      && r.value.dataBytes == |memory|
      && r.value.imageLength == ImageLength(Flat(memory))
      && r.value.imageCrc32 == ImageCrc(Flat(memory))
      && r.value.highestAddress == Highest(Lines(contents, LINE_FEED))
      && r.value.highestAddress <= BOOT_START
      && (forall a | a in memory :: a < r.value.highestAddress)
  {
    hide IntelHex.ReadLine, Lines, EndOfRecord, Larger;
    var lines := Lines(contents, LINE_FEED);
    var reader := new Reader();
    var i := 0;
    while i < |lines|
      invariant 0 <= i <= |lines|
      invariant fresh(reader) && fresh(reader.memory) && fresh(reader.occupied)
      invariant reader.Valid()
      invariant ReadLines(Desktop, lines[..i], BOOT_START) == Ok(reader.Read())
      invariant reader.info.highestAddress == Highest(lines[..i])
    {
      assert lines[..i + 1][..i] == lines[..i];
      var ok := reader.ReadLine(lines[i]);
      if !ok {
        ErrorStays(Desktop, lines, i + 1, BOOT_START);
        return Error;
      }
      i := i + 1;
    }
    assert lines[..i] == lines;
    r := CheckImage(reader);
  }

  method CheckImage(reader: Reader) returns (r: Result<Info>)
    requires reader.Valid()
    ensures r.Ok? <==> reader.ended && Acceptable(reader.image)
    ensures r.Ok? ==>
      && r.value.dataBytes == |reader.image|
      && r.value.imageLength == ImageLength(Flat(reader.image))
      && r.value.imageCrc32 == ImageCrc(Flat(reader.image))
      && r.value.highestAddress == reader.info.highestAddress
  {
    hide Crc32.Checksum, Crc32.Dword;
    var memory, occupied := reader.memory, reader.occupied;
    ghost var image := reader.image;
    if !reader.ended || reader.info.dataBytes == 0 {
      return Error;
    }
    if !occupied[0] || !occupied[1] || (memory[0] == 0xff && memory[1] == 0xff) {
      return Error;
    }
    assert HasResetVector(image);
    var offset := 0;
    while offset < MANIFEST_SIZE
      invariant 0 <= offset <= MANIFEST_SIZE
      invariant forall a | MANIFEST_ADDRESS <= a < MANIFEST_ADDRESS + offset :: a in image
    {
      if !occupied[MANIFEST_ADDRESS + offset] {
        assert !ManifestComplete(image);
        return Error;
      }
      offset := offset + 1;
    }
    assert ManifestComplete(image);
    var flash := memory[..];
    assert flash == Flat(image);
    if !HeaderOk(flash) {
      return Error;
    }
    var length, expected := ImageLength(flash), ImageCrc(flash);
    if length < 2 || length > MANIFEST_ADDRESS {
      return Error;
    }
    var address := length;
    while address < MANIFEST_ADDRESS
      invariant length <= address <= MANIFEST_ADDRESS
      invariant forall a | length <= a < address :: flash[a] == 0xff
    {
      if flash[address] != 0xff {
        assert !BlankFrom(flash, length);
        return Error;
      }
      address := address + 1;
    }
    assert BlankFrom(flash, length);
    var actual := Crc32.ComputeCrc(flash[..length]);
    if actual != expected {
      return Error;
    }
    r := Ok(reader.info.(imageLength := length, imageCrc32 := expected));
  }

  // ---------- The three validators ----------

  // Whatever is accepted, programmed onto erased application flash below any
  // bootloader, is valid for the bootloader.
  lemma AcceptedImageBoots(contents: string, flash: seq<byte>)
    requires |flash| >= BOOT_START
    ensures Accepts(contents) ==> IsValid(Flat(Decoded(contents).value.memory) + flash[BOOT_START..])
  {
    hide IsValid, Decoded;
    if Accepts(contents) {
      var memory := Decoded(contents).value.memory;
      var after := Flat(memory) + flash[BOOT_START..];
      assert after[..BOOT_START] == Flat(memory) == Flat(memory)[..BOOT_START];
      ValidLooksBelow(Flat(memory), after);
    }
  }

  // The stamped image passes the Python validator and this one, is valid for
  // the bootloader, and all of them see the same length and CRC.
  lemma StampedIsAccepted(memory: map<nat, byte>)
    requires Stampable(memory)
    ensures var text := Written(Stamped(memory));
      && HexImage.Read(text) == Ok(Padded(Stamped(memory)))
      && ManifestComplete(Padded(Stamped(memory)))
      && Accepts(text) && Decoded(text).value.memory == Padded(Stamped(memory))
    ensures var flash := Flat(Padded(Stamped(memory)));
      && IsValid(flash)
      && ImageLength(flash) == Max(memory) + 1
      && ImageCrc(flash) == Crc32.Checksum(ImageBytes(memory, Max(memory) + 1))
  {
    hide Stamped, Written, Lines, Padded, IsValid, Crc32.Checksum, Flat, HexImage.Read, ReadLines, Touched;
    hide ManifestComplete, Stampable;
    var stamped := Stamped(memory);
    StampedKeys(memory);
    PaddingKeepsFlash(stamped);
    StampedIsValid(memory);
    ReadWritten(stamped);
    RowsBelow(stamped);
    WrittenReads(Desktop, stamped, LINE_FEED, BOOT_START);
    assert Decoded(Written(stamped)) == Ok(Image(Padded(stamped), 0, true));
    PaddedManifest(memory);
    ResetVectorKept(memory);
  }

  lemma RowsBelow(memory: map<nat, byte>)
    requires forall a | a in memory :: a < BOOT_START
    ensures forall r | 0 <= r < ROWS && Touched(memory, r) :: 16 * r + 16 <= BOOT_START
  {
  }

  lemma PaddedManifest(memory: map<nat, byte>)
    requires Stampable(memory)
    ensures ManifestComplete(Padded(Stamped(memory)))
  {
    StampedKeys(memory);
    hide Padded, Stamped;
    var stamped := Stamped(memory);
    forall a | MANIFEST_ADDRESS <= a < MANIFEST_ADDRESS + MANIFEST_SIZE
      ensures a in Padded(stamped)
    {
      var i := a - MANIFEST_ADDRESS;
      assert MANIFEST_ADDRESS + i in stamped;
      PaddedAt(stamped, a);
    }
  }

  lemma ResetVectorKept(memory: map<nat, byte>)
    requires Stampable(memory)
    ensures HasResetVector(Padded(Stamped(memory)))
  {
    var stamped := Stamped(memory);
    StampedKeys(memory);
    assert 0 in stamped;
    hide Padded, Stamped;
    PaddedAt(stamped, 0);
    PaddedAt(stamped, 1);
    assert 0 / 16 == 1 / 16;
    assert Value(stamped, 0) == Value(memory, 0) && Value(stamped, 1) == Value(memory, 1);
  }

  // No data record ends above the limit.
  predicate Bounded(d: Dialect, lines: seq<string>, limit: nat) {
    lines == [] ||
    var k := |lines| - 1;
    Bounded(d, lines[..k], limit) &&
    match ReadLines(d, lines[..k], UNLIMITED)
    case Ok(image) => Below(d, image, lines[k], limit)
    case Error => true
  }

  lemma {:induction false} LimitIff(d: Dialect, lines: seq<string>, limit: nat)
    requires limit <= UNLIMITED
    ensures ReadLines(d, lines, limit).Ok? <==> ReadLines(d, lines, UNLIMITED).Ok? && Bounded(d, lines, limit)
    ensures ReadLines(d, lines, limit).Ok? ==> ReadLines(d, lines, limit) == ReadLines(d, lines, UNLIMITED)
    decreases |lines|
  {
    hide IntelHex.ReadLine, Below;
    if lines != [] {
      var k := |lines| - 1;
      LimitIff(d, lines[..k], limit);
      if ReadLines(d, lines[..k], UNLIMITED).Ok? {
        var image := ReadLines(d, lines[..k], UNLIMITED).value;
        LineMonotone(d, image, lines[k], limit, UNLIMITED);
        if IntelHex.ReadLine(d, image, lines[k], UNLIMITED).Ok? {
          LineLimitIff(d, image, lines[k], limit, UNLIMITED);
        }
      }
    }
  }

  // What the Python tools read and validate, with the two further demands of
  // the desktop application: a reset vector, and no data record that ends
  // above the bootloader's start.
  predicate PythonAccepts(text: string) {
    && HexImage.Read(text).Ok?
    && ManifestComplete(HexImage.Read(text).value) && IsValid(Flat(HexImage.Read(text).value))
    && HasResetVector(HexImage.Read(text).value)
    && Bounded(Python, Lines(text, BREAKS), BOOT_START)
  }

  // For every text: whatever both accept holds the same memory, and the
  // verdicts differ exactly where the form that one of them needs is missing.
  lemma AcceptsIff(text: string)
    ensures PythonAccepts(text) ==> FlushText(text)
    ensures Accepts(text) ==> BareText(text)
    ensures Accepts(text) && HexImage.Read(text).Ok? ==> Decoded(text).value.memory == HexImage.Read(text).value
    ensures Accepts(text) && FlushText(text) <==> PythonAccepts(text) && BareText(text)
    ensures (Accepts(text) <==> PythonAccepts(text)) <==>
      (FlushText(text) && BareText(text)) || (!Accepts(text) && !PythonAccepts(text))
  {
    hide Lines, IsValid, Flat, FlushText, BareText;
    ReadersAgreeIff(text, BOOT_START);
    ReadersAgreeIff(text, UNLIMITED);
    LimitIff(Python, Lines(text, BREAKS), BOOT_START);
  }

  // ---------- Where the two part ----------

  // A line of blanks after any stamped image: the desktop application trims
  // it away, Python refuses it.
  lemma TrailingBlankDiffers(memory: map<nat, byte>)
    requires Stampable(memory)
    ensures var text := Written(Stamped(memory)) + " ";
      Accepts(text) && HexImage.Read(text) == Error
  {
    var stamped := Stamped(memory);
    StampedIsAccepted(memory);
    BlankAfter(stamped, LINE_FEED);
    BlankAfter(stamped, BREAKS);
    WrittenLines(stamped, LINE_FEED);
    hide *;
    BlankRead(RowLines(stamped, 0, ROWS) + [EOF_LINE], Written(stamped));
  }

  lemma BlankAfter(memory: map<nat, byte>, breaks: set<char>)
    requires {'\n'} <= breaks <= BREAKS
    ensures Lines(Written(memory) + " ", breaks) == RowLines(memory, 0, ROWS) + [EOF_LINE] + [" "]
  {
    WrittenLines(memory, breaks);
    AppendCharacter(Written(memory), ' ', breaks);
    hide Written, Lines, RowLines;
    var lines := RowLines(memory, 0, ROWS) + [EOF_LINE];
    assert Init(lines + [""]) == lines && Last(lines + [""]) == "" && "" + [' '] == " ";
  }

  lemma BlankRead(lines: seq<string>, text: string)
    requires Lines(text, LINE_FEED) == lines + [""]
    requires Lines(text + " ", LINE_FEED) == Lines(text + " ", BREAKS) == lines + [" "]
    ensures Accepts(text) ==> Accepts(text + " ") && HexImage.Read(text + " ") == Error
  {
    hide Lines, IntelHex.ReadLine, ReadLines, Acceptable;
    LastLine(Desktop, lines, "", BOOT_START);
    LastLine(Desktop, lines, " ", BOOT_START);
    LastLine(Python, lines, " ", UNLIMITED);
    forall image, d, limit {
      OneBlank(d, image, limit);
    }
  }

  lemma LastLine(d: Dialect, lines: seq<string>, line: string, limit: nat)
    ensures ReadLines(d, lines + [line], limit) ==
      match ReadLines(d, lines, limit)
      case Ok(image) => IntelHex.ReadLine(d, image, line, limit)
      case Error => Error
  {
    assert (lines + [line])[..|lines|] == lines;
    hide IntelHex.ReadLine;
  }

  lemma OneBlank(d: Dialect, image: Image, limit: nat)
    ensures IntelHex.ReadLine(d, image, "", limit) == Ok(image)
    ensures IntelHex.ReadLine(d, image, " ", limit) == if d.Python? then Error else Ok(image)
  {
    assert " "[1..] == "";
    assert Trim(" ") == "";
  }

  // A blank inside the last record of any stamped image: Python skips it, the
  // desktop application refuses it.
  const LOOSE_EOF_LINE := ": 00000001FF"

  lemma InnerBlankDiffers(memory: map<nat, byte>)
    requires Stampable(memory)
    ensures var stamped := Stamped(memory); var text := Text(RowLines(stamped, 0, ROWS) + [LOOSE_EOF_LINE]);
      && HexImage.Read(text) == Ok(Padded(stamped)) && PythonAccepts(text) && !Accepts(text)
  {
    var stamped := Stamped(memory);
    var rows := RowLines(stamped, 0, ROWS);
    var text := Text(rows + [LOOSE_EOF_LINE]);
    StampedKeys(memory);
    StampedIsAccepted(memory);
    ResetVectorKept(memory);
    LooseLines(stamped, BREAKS);
    LooseLines(stamped, LINE_FEED);
    RowsBelow(stamped);
    hide Stamped, RowLines, Text, Lines, Padded, PaddedTo, IsValid, Flat, Touched;
    assert 0 in Padded(stamped) && Padded(stamped) != map[];
    LooseRead(Python, stamped, BOOT_START);
    LooseRead(Python, stamped, UNLIMITED);
    LooseRead(Desktop, stamped, BOOT_START);
    LimitIff(Python, Lines(text, BREAKS), BOOT_START);
  }

  lemma LooseLines(memory: map<nat, byte>, breaks: set<char>)
    requires {'\n'} <= breaks <= BREAKS
    ensures Lines(Text(RowLines(memory, 0, ROWS) + [LOOSE_EOF_LINE]), breaks)
         == RowLines(memory, 0, ROWS) + [LOOSE_EOF_LINE] + [""]
  {
    hide RowLines, Lines, Text;
    var lines := RowLines(memory, 0, ROWS) + [LOOSE_EOF_LINE];
    RowLinesPlain(memory, ROWS);
    LooseUnbroken();
    forall l | l in lines
      ensures Without(l, breaks)
    {
      assert Without(l, BREAKS);
    }
    LinesOfText(lines, breaks);
  }

  lemma LooseUnbroken()
    ensures Without(LOOSE_EOF_LINE, BREAKS)
  {
  }

  lemma LooseRead(d: Dialect, memory: map<nat, byte>, limit: nat)
    requires forall r | 0 <= r < ROWS && Touched(memory, r) :: 16 * r + 16 <= limit
    ensures ReadLines(d, RowLines(memory, 0, ROWS) + [LOOSE_EOF_LINE] + [""], limit)
         == if d.Python? then Ok(Image(Padded(memory), 0, true)) else Error
  {
    var rows := RowLines(memory, 0, ROWS);
    RowsRead(d, memory, ROWS, limit);
    hide RowLines, Touched, PaddedTo, IntelHex.ReadLine;
    LastLine(d, rows, LOOSE_EOF_LINE, limit);
    LastLine(d, rows + [LOOSE_EOF_LINE], "", limit);
    LooseEof(d, Padded(memory), limit);
    OneBlank(d, Image(Padded(memory), 0, true), limit);
  }

  lemma LooseEof(d: Dialect, memory: map<nat, byte>, limit: nat)
    ensures IntelHex.ReadLine(d, Image(memory, 0, false), LOOSE_EOF_LINE, limit)
         == if d.Python? then Ok(Image(memory, 0, true)) else Error
  {
    LooseRow();
    hide *;
    LooseLine(d, Image(memory, 0, false), limit);
    EofReads(Python, memory, limit);
  }

  lemma LooseRow()
    ensures LOOSE_EOF_LINE == ": " + Encode(MakeRecord(0, 1, [])) && EOF_LINE == Line(MakeRecord(0, 1, []))
    ensures Row(Python, LOOSE_EOF_LINE) == Ok(MakeRecord(0, 1, [])) == Row(Python, EOF_LINE)
    ensures Row(Desktop, LOOSE_EOF_LINE) == Error
  {
    EofIsRecord();
    hide MakeRecord, Encode, Row, IsRecord;
    var row := MakeRecord(0, 1, []);
    assert EOF_LINE[1..] == Encode(row) && EOF_LINE[1..] == "00000001FF";
    BlankInsideRecord(row);
    LineReads(Python, row);
  }

  lemma LooseLine(d: Dialect, image: Image, limit: nat)
    requires !image.ended && Row(Python, LOOSE_EOF_LINE).Ok?
    requires Row(Python, LOOSE_EOF_LINE) == Row(Python, EOF_LINE) && Row(Desktop, LOOSE_EOF_LINE) == Error
    ensures IntelHex.ReadLine(d, image, LOOSE_EOF_LINE, limit)
         == if d.Python? then IntelHex.ReadLine(Python, image, EOF_LINE, limit) else Error
  {
    LooseIsTrimmed();
    hide *;
    ByRow(d, image, LOOSE_EOF_LINE, limit);
    ByRow(Python, image, EOF_LINE, limit);
  }

  lemma LooseIsTrimmed()
    ensures Trim(LOOSE_EOF_LINE) == LOOSE_EOF_LINE && LOOSE_EOF_LINE != "" && EOF_LINE != ""
  {
    assert LOOSE_EOF_LINE[0] == ':' && LOOSE_EOF_LINE[|LOOSE_EOF_LINE| - 1] == 'F';
    TrimmedAlready(LOOSE_EOF_LINE);
  }

  lemma TrimmedAlready(s: string)
    requires s != "" && s[0] !in SPACES && s[|s| - 1] !in SPACES
    ensures Trim(s) == s
  {
  }

  lemma ByRow(d: Dialect, image: Image, line: string, limit: nat)
    requires !image.ended && line != "" && (d.Desktop? ==> Trim(line) == line)
    ensures IntelHex.ReadLine(d, image, line, limit) ==
      match Row(d, line)
      case Ok(row) => IntelHex.Apply(image, row, limit)
      case Error => Error
  {
    hide Row, Trim, IsRecord;
  }

  // There are such images.
  lemma SomeImageIsStampable()
    ensures Stampable(map[0 := 0x0c, 1 := 0x94])
  {
    var memory: map<nat, byte> := map[0 := 0x0c, 1 := 0x94];
    assert 0 in memory && 1 in memory;
  }

  // ---------- One record ----------

  // Where the two part: bytes.fromhex skips white space inside a record, the
  // desktop application refuses it.
  lemma RecordsAgreeIff(line: string)
    ensures Row(Desktop, line).Ok? <==> Row(Python, line).Ok? && Without(line, SPACES)
    ensures Row(Desktop, line).Ok? ==> Row(Desktop, line) == Row(Python, line)
  {
    if line != "" && line[0] == ':' {
      var digits := line[1..];
      DigitsWithoutSpaces(digits);
      assert line == ":" + digits;
      assert Without(line, SPACES) <==> Without(digits, SPACES);
      hide IsRecord, FromHex, Decode, IsHexText, Without;
    }
  }

  lemma DigitsWithoutSpaces(s: string)
    ensures Decode(s).Ok? ==> Without(s, SPACES)
    ensures Without(s, SPACES) ==> FromHex(s) == Decode(s)
  {
    if Without(s, SPACES) {
      FromHexPlain(s);
    }
    hide Decode, FromHex;
  }

  lemma BlankFirst(digits: string)
    ensures FromHex(" " + digits) == FromHex(digits)
    ensures Decode(" " + digits) == Error
  {
    var s := " " + digits;
    assert s[1..] == digits && s[0] == ' ' && Nibble(' ') < 0;
    hide Nibble;
    assert !IsHexText(s);
  }

  lemma BlankInsideRecord(row: seq<byte>)
    requires IsRecord(row)
    ensures Row(Python, ": " + Encode(row)) == Ok(row)
    ensures Row(Desktop, ": " + Encode(row)) == Error
  {
    hide IsRecord, Encode, FromHex, Decode;
    var line := ": " + Encode(row);
    DecodeEncode(row);
    DigitsPlain(row);
    FromHexPlain(Encode(row));
    assert line[1..] == " " + Encode(row);
    BlankFirst(Encode(row));
  }
}
