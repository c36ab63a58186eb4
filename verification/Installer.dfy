// tools/bootloader-installer/src/main.cpp: validate_combined_image, the check
// that the installer makes before it writes a complete image.
module Installer {
  import opened Octets
  import opened IntelHex
  import opened Application
  import opened Readers
  import opened HexRecords
  import HexImage

  datatype Scan = Scan(base: nat, eof: bool, application: bool, bootloader: bool)

  const START := Scan(0, false, false, false)

  // unsigned 32-bit addition
  function Wrap32(v: nat): nat {
    v % 0x1_0000_0000
  }

  // std::getline leaves a carriage return at the end of the line.
  function DropReturn(line: string): string {
    if line != "" && line[|line| - 1] == '\r' then line[..|line| - 1] else line
  }

  function Note(scan: Scan, row: seq<byte>): Result<Scan>
    requires IsRecord(row)
  {
    var length := row[0];
    if row[3] == 0 then
      var start := Wrap32(scan.base + Address(row));
      var end := Wrap32(start + length);
      if end > FLASH_SIZE then Error
      else Ok(scan.(application := scan.application || (start == 0 && length > 0),
                    bootloader := scan.bootloader || (start < FLASH_SIZE && end > BOOT_START)))
    else if row[3] == 1 then Ok(scan.(eof := true))
    else if row[3] == 2 && length == 2 then Ok(scan.(base := BigEndian(row[4], row[5]) * 0x10))
    else if row[3] == 4 && length == 2 then Ok(scan.(base := BigEndian(row[4], row[5]) * 0x1_0000))
    else Ok(scan)
  }

  function ScanLine(scan: Scan, text: string): Result<Scan> {
    var line := DropReturn(text);
    if line == "" then Ok(scan)
    else
      match Row(Desktop, line)
      case Ok(row) => Note(scan, row)
      case Error => Error
  }

  function ScanLines(lines: seq<string>): Result<Scan> {
    if lines == [] then Ok(START)
    else
      match ScanLines(lines[..|lines| - 1])
      case Ok(scan) => ScanLine(scan, lines[|lines| - 1])
      case Error => Error
  }

  predicate Accepted(text: string) {
    match ScanLines(Lines(text, LINE_FEED))
    case Ok(scan) => scan.eof && scan.application && scan.bootloader
    case Error => false
  }

  lemma {:induction false} ErrorRemains(lines: seq<string>, k: nat)
    requires k <= |lines| && ScanLines(lines[..k]) == Error
    ensures ScanLines(lines) == Error
    decreases |lines| - k
  {
    if k == |lines| {
      assert lines[..k] == lines;
    } else {
      assert lines[..k + 1][..k] == lines[..k];
      ErrorRemains(lines, k + 1);
    }
  }

  // hex_nibble, through toupper
  function HexNibble(value: char): (r: Result<nat>)
    ensures r.Ok? <==> Nibble(value) >= 0
    ensures r.Ok? ==> r.value == Nibble(value)
  {
    if '0' <= value <= '9' then Ok(value as int - '0' as int)
    else
      var upper := if 'a' <= value <= 'z' then (value as int - 32) as char else value;
      if 'A' <= upper <= 'F' then Ok(upper as int - 'A' as int + 10) else Error
  }

  // The digits of a line from some offset on, two at a time.
  method ReadDigits(line: string) returns (r: Result<seq<byte>>)
    requires |line| % 2 == 1
    ensures r == Decode(line[1..])
  {
    hide Nibble, HexNibble, Decode;
    var record: seq<byte> := [];
    var i := 1;
    NoDigits();
    while i < |line|
      invariant 1 <= i <= |line| && i % 2 == 1
      invariant Decode(line[1..i]) == Ok(record)
    {
      var high, low := HexNibble(line[i]), HexNibble(line[i + 1]);
      if high.Error? || low.Error? {
        assert line[1..][i - 1] == line[i] && line[1..][i] == line[i + 1];
        return Error;
      }
      TwoMoreDigits(line, i);
      record := record + [high.value * 16 + low.value];
      i := i + 2;
    }
    assert line[1..i] == line[1..];
    r := Ok(record);
  }

  function Pair(high: char, low: char): seq<byte>
    requires Nibble(high) >= 0 && Nibble(low) >= 0
  {
    [Nibble(high) * 16 + Nibble(low)]
  }

  lemma NoDigits()
    ensures Decode("") == Ok([])
  {
  }

  lemma DecodeFirst(s: string)
    requires |s| >= 2 && Nibble(s[0]) >= 0 && Nibble(s[1]) >= 0 && Decode(s[2..]).Ok?
    ensures Decode(s) == Ok(Pair(s[0], s[1]) + Decode(s[2..]).value)
  {
    hide Nibble;
  }

  lemma {:induction false} DecodeAppend(a: string, high: char, low: char)
    requires Decode(a).Ok? && Nibble(high) >= 0 && Nibble(low) >= 0
    ensures Decode(a + [high, low]) == Ok(Decode(a).value + Pair(high, low))
    decreases |a|
  {
    var s := a + [high, low];
    hide Nibble, Decode, Pair;
    NoDigits();
    if a == "" {
      assert s == [high, low] && s[2..] == "";
      DecodeFirst(s);
      assert Pair(high, low) + [] == [] + Pair(high, low);
    } else {
      assert s[2..] == a[2..] + [high, low] && s[0] == a[0] && s[1] == a[1];
      assert IsHexText(a[2..]);
      DecodeAppend(a[2..], high, low);
      DecodeFirst(a);
      DecodeFirst(s);
      var first, rest, last := Pair(a[0], a[1]), Decode(a[2..]).value, Pair(high, low);
      assert first + (rest + last) == first + rest + last;
    }
  }

  lemma TwoMoreDigits(line: string, i: nat)
    requires 1 <= i && i + 2 <= |line| && Decode(line[1..i]).Ok?
    requires Nibble(line[i]) >= 0 && Nibble(line[i + 1]) >= 0
    ensures Decode(line[1..i + 2]) == Ok(Decode(line[1..i]).value + Pair(line[i], line[i + 1]))
  {
    hide Nibble, Decode, Pair;
    assert line[1..i] + [line[i], line[i + 1]] == line[1..i + 2];
    DecodeAppend(line[1..i], line[i], line[i + 1]);
  }

  method ScanOne(scan: Scan, text: string) returns (r: Result<Scan>)
    ensures r == ScanLine(scan, text)
  {
    hide Sum, Decode;
    var line := DropReturn(text);
    if line == "" {
      return Ok(scan);
    }
    if line[0] != ':' || |line| < 11 || (|line| - 1) % 2 != 0 {
      return Error;
    }
    var read := ReadDigits(line);
    if read.Error? {
      return Error;
    }
    var record := read.value;
    var length := record[0];
    if |record| != (length as nat) + 5 {
      return Error;
    }
    var checksum: nat := 0;
    var k := 0;
    SumEmpty();
    assert record[..0] == [];
    while k < |record|
      invariant 0 <= k <= |record|
      invariant checksum == Sum(record[..k])
    {
      OneMoreSum(record, k);
      checksum := checksum + record[k];
      k := k + 1;
    }
    assert record[..k] == record;
    if checksum % 0x100 != 0 {
      return Error;
    }
    r := Note(scan, record);
  }

  method ValidateCombinedImage(text: string) returns (ok: bool)
    ensures ok <==> Accepted(text)
  {
    hide ScanLine, Lines;
    var lines := Lines(text, LINE_FEED);
    var scan := START;
    var i := 0;
    while i < |lines|
      invariant 0 <= i <= |lines|
      invariant ScanLines(lines[..i]) == Ok(scan)
    {
      assert lines[..i + 1][..i] == lines[..i];
      var next := ScanOne(scan, lines[i]);
      if next.Error? {
        ErrorRemains(lines, i + 1);
        return false;
      }
      scan := next.value;
      i := i + 1;
    }
    assert lines[..i] == lines;
    ok := scan.eof && scan.application && scan.bootloader;
  }

  // ---------- What acceptance means ----------

  // A data record that ends beyond flash is let through exactly when its end
  // wraps around 32 bits.
  lemma BeyondFlashIff(scan: Scan, row: seq<byte>)
    requires IsRecord(row) && Kind(row) == 0
    requires scan.base <= 0xffff_0000 && scan.base + Address(row) + |Data(row)| > 0x8000
    ensures Note(scan, row).Ok? <==> scan.base + Address(row) + |Data(row)| >= 0x1_0000_0000
  {
    hide Sum;
    assert Address(row) < 0x1_0000;
  }

  // A record counts as bootloader data exactly when it stores an octet in the
  // bootloader section, or is empty and names an address above its start.
  lemma BootloaderIff(scan: Scan, row: seq<byte>)
    requires IsRecord(row) && Kind(row) == 0 && !scan.bootloader
    requires scan.base + Address(row) + |Data(row)| <= 0x8000
    ensures var start, data := scan.base + Address(row), Data(row); var r := Note(scan, row);
      && r.Ok?
      && (r.value.bootloader <==>
          || (exists a | a in Store(map[], start, data) :: a >= 0x7000)
          || (data == [] && 0x7000 < start < 0x8000))
  {
    var start, length := scan.base + Address(row), |Data(row)|;
    assert length == row[0];
    hide IsRecord, Wrap32, Store;
    NoWrap(start);
    NoWrap(start + length);
    if length > 0 && start + length > BOOT_START {
      assert start + length - 1 in Store(map[], start, Data(row));
    }
  }

  lemma TrimEnd(line: string)
    requires Without(line, SPACES)
    ensures Trim(line + "\r") == line && Trim(line) == line
  {
    assert (line + "\r")[..|line|] == line;
    if line == "" {
      assert (line + "\r")[1..] == "";
    }
  }

  // What the scan knows of an image that a strict reader has read: the base,
  // the end, whether address 0 is in use, and, if data lies at or above the
  // bootloader's start, that it does.
  predicate Knows(scan: Scan, image: Image) {
    && scan.base == image.base && scan.eof == image.ended
    && (scan.application <==> 0 in image.memory)
    && ((exists a | a in image.memory :: a >= BOOT_START) ==> scan.bootloader)
    && image.base <= 0xffff_0000
  }

  lemma NoteKnows(scan: Scan, image: Image, row: seq<byte>)
    requires IsRecord(row) && Knows(scan, image) && Apply(image, row, FLASH_SIZE).Ok?
    ensures Note(scan, row).Ok? && Knows(Note(scan, row).value, Apply(image, row, FLASH_SIZE).value)
  {
    hide Sum;
    assert Address(row) < 0x1_0000;
    if Kind(row) == 0 {
      DataKnows(scan, image, row);
    } else {
      assert |Data(row)| == 2 ==> Data(row)[0] == row[4] && Data(row)[1] == row[5];
    }
  }

  lemma DataKnows(scan: Scan, image: Image, row: seq<byte>)
    requires IsRecord(row) && Knows(scan, image) && Kind(row) == 0 && Apply(image, row, FLASH_SIZE).Ok?
    ensures Note(scan, row).Ok? && Knows(Note(scan, row).value, Apply(image, row, FLASH_SIZE).value)
  {
    hide Free, Store, IsRecord, Note, Kind, Data, Address;
    NoteData(scan, row);
    DataStored(image, row);
    var start, length := image.base + Address(row), |Data(row)|;
    var after := Apply(image, row, FLASH_SIZE).value;
    assert 0 in after.memory <==> 0 in image.memory || (start == 0 && Data(row) != []);
    if a :| a in after.memory && a >= BOOT_START {
      assert a in image.memory || start <= a < start + length;
    }
  }

  lemma DataStored(image: Image, row: seq<byte>)
    requires IsRecord(row) && Kind(row) == 0 && Apply(image, row, FLASH_SIZE).Ok?
    ensures var start, after := image.base + Address(row), Apply(image, row, FLASH_SIZE).value;
      && after.base == image.base && after.ended == image.ended
      && start + |Data(row)| <= FLASH_SIZE
      && forall a :: a in after.memory <==> a in image.memory || start <= a < start + |Data(row)|
  {
    hide Free, IsRecord;
  }

  lemma NoWrap(v: nat)
    requires v <= FLASH_SIZE
    ensures Wrap32(v) == v
  {
  }

  lemma TrimDropped(text: string)
    requires Without(DropReturn(text), SPACES)
    ensures Trim(text) == DropReturn(text)
  {
    hide Trim;
    var line := DropReturn(text);
    TrimEnd(line);
    assert text == line || text == line + "\r";
  }

  lemma LineKnows(scan: Scan, image: Image, text: string)
    requires Knows(scan, image) && IntelHex.ReadLine(Desktop, image, text, FLASH_SIZE).Ok?
    requires Without(DropReturn(text), SPACES)
    ensures ScanLine(scan, text).Ok?
    ensures Knows(ScanLine(scan, text).value, IntelHex.ReadLine(Desktop, image, text, FLASH_SIZE).value)
  {
    hide Apply, Note, Knows, IsRecord, Row, Trim, Without, DropReturn;
    var line := DropReturn(text);
    TrimDropped(text);
    if line != "" {
      NoteKnows(scan, image, Row(Desktop, line).value);
    }
  }

  lemma {:induction false} LinesKnown(lines: seq<string>)
    requires ReadLines(Desktop, lines, FLASH_SIZE).Ok?
    requires AllPlain(lines)
    ensures ScanLines(lines).Ok? && Knows(ScanLines(lines).value, ReadLines(Desktop, lines, FLASH_SIZE).value)
    decreases |lines|
  {
    hide IntelHex.ReadLine, ScanLine, Without;
    if lines != [] {
      var k := |lines| - 1;
      LinesKnown(lines[..k]);
      assert lines[k] in lines;
      LineKnows(ScanLines(lines[..k]).value, ReadLines(Desktop, lines[..k], FLASH_SIZE).value, lines[k]);
    }
  }

  predicate AllPlain(lines: seq<string>) {
    forall l | l in lines :: Without(DropReturn(l), SPACES)
  }

  // A text that a strict reader reads, covers address 0 and reaches into the
  // bootloader section is accepted, and none that leaves out address 0 is.
  lemma AcceptsRead(text: string)
    requires AllPlain(Lines(text, LINE_FEED)) && ReadLines(Desktop, Lines(text, LINE_FEED), 0x8000).Ok?
    ensures var image := ReadLines(Desktop, Lines(text, LINE_FEED), 0x8000).value;
      && (Accepted(text) ==> image.ended && 0 in image.memory)
      && (image.ended && 0 in image.memory && (exists a | a in image.memory :: a >= 0x7000) ==> Accepted(text))
  {
    hide Lines, AllPlain;
    LinesKnown(Lines(text, LINE_FEED));
  }

  // ---------- Exactly which texts are accepted ----------

  // The lines without the carriage return at their ends.
  function Dropped(lines: seq<string>): (r: seq<string>)
    ensures |r| == |lines|
  {
    seq(|lines|, i requires 0 <= i < |lines| => DropReturn(lines[i]))
  }

  predicate InRange(rows: seq<seq<byte>>, k: nat)
    requires AreRecords(rows) && k < |rows|
  {
    Kind(rows[k]) == 0 ==>
      var end := StartOf(rows, k) + |Data(rows[k])|;
      end <= 0x8000 || end >= 0x1_0000_0000
  }

  predicate Ends(rows: seq<seq<byte>>, k: nat)
    requires AreRecords(rows) && k < |rows|
  {
    Kind(rows[k]) == 1
  }

  predicate HoldsVector(rows: seq<seq<byte>>, k: nat)
    requires AreRecords(rows) && k < |rows|
  {
    Kind(rows[k]) == 0 && StartOf(rows, k) == 0 && Data(rows[k]) != []
  }

  // It stores an octet in the bootloader section, or is empty and names an
  // address above that section's start.
  predicate HoldsBootloader(rows: seq<seq<byte>>, k: nat)
    requires AreRecords(rows) && k < |rows|
  {
    && Kind(rows[k]) == 0
    && var start, size := StartOf(rows, k), |Data(rows[k])|;
       start < 0x8000 && 0x7000 < start + size <= 0x8000
  }

  predicate AllInRange(rows: seq<seq<byte>>)
    requires AreRecords(rows)
  {
    forall k | 0 <= k < |rows| :: InRange(rows, k)
  }

  predicate SomeEnds(rows: seq<seq<byte>>)
    requires AreRecords(rows)
  {
    exists k | 0 <= k < |rows| :: Ends(rows, k)
  }

  predicate SomeVector(rows: seq<seq<byte>>)
    requires AreRecords(rows)
  {
    exists k | 0 <= k < |rows| :: HoldsVector(rows, k)
  }

  predicate SomeBootloader(rows: seq<seq<byte>>)
    requires AreRecords(rows)
  {
    exists k | 0 <= k < |rows| :: HoldsBootloader(rows, k)
  }

  // The scan of a list of records, by what each of them is.
  predicate ScanIs(rows: seq<seq<byte>>, scan: Result<Scan>)
    requires AreRecords(rows)
  {
    if AllInRange(rows) then
      scan == Ok(Scan(BaseAfter(rows), SomeEnds(rows), SomeVector(rows), SomeBootloader(rows)))
    else scan == Error
  }

  // What holds of a record does not depend on those that follow.
  lemma EarlierRecord(rows: seq<seq<byte>>, row: seq<byte>, k: nat)
    requires AreRecords(rows) && AreRecords(rows + [row]) && k < |rows|
    ensures InRange(rows + [row], k) == InRange(rows, k) && Ends(rows + [row], k) == Ends(rows, k)
    ensures HoldsVector(rows + [row], k) == HoldsVector(rows, k)
    ensures HoldsBootloader(rows + [row], k) == HoldsBootloader(rows, k)
  {
    assert (rows + [row])[..k] == rows[..k];
    hide IsRecord, BaseAfter;
  }

  // So one more record adds only what it is itself.
  lemma OneMoreRecord(rows: seq<seq<byte>>, row: seq<byte>)
    requires AreRecords(rows) && AreRecords(rows + [row])
    ensures var more, k := rows + [row], |rows|;
      && (AllInRange(more) <==> AllInRange(rows) && InRange(more, k))
      && (SomeEnds(more) <==> SomeEnds(rows) || Ends(more, k))
      && (SomeVector(more) <==> SomeVector(rows) || HoldsVector(more, k))
      && (SomeBootloader(more) <==> SomeBootloader(rows) || HoldsBootloader(more, k))
  {
    hide IsRecord, InRange, Ends, HoldsVector, HoldsBootloader;
    forall k | 0 <= k < |rows|
      ensures InRange(rows + [row], k) == InRange(rows, k) && Ends(rows + [row], k) == Ends(rows, k)
      ensures HoldsVector(rows + [row], k) == HoldsVector(rows, k)
      ensures HoldsBootloader(rows + [row], k) == HoldsBootloader(rows, k)
    {
      EarlierRecord(rows, row, k);
    }
  }

  // The code's case analysis, for one record.
  lemma NoteIs(rows: seq<seq<byte>>, scan: Scan, row: seq<byte>)
    requires AreRecords(rows) && AreRecords(rows + [row]) && IsRecord(row) && scan.base == BaseAfter(rows)
    ensures var more, k := rows + [row], |rows|;
      Note(scan, row) ==
        if InRange(more, k) then
          Ok(Scan(BaseAfter(more), scan.eof || Ends(more, k), scan.application || HoldsVector(more, k),
                  scan.bootloader || HoldsBootloader(more, k)))
        else Error
  {
    var more, k := rows + [row], |rows|;
    assert more[..k] == rows && more[k] == row && more[..|more| - 1] == rows;
    assert StartOf(more, k) == scan.base + Address(row);
    RowFields(row);
    hide IsRecord, StartOf, BigEndian, Address;
    if Kind(row) == 0 {
      NoteData(scan, row);
      hide Wrap32;
    } else {
      assert Kind(row) == row[3];
      hide Wrap32;
    }
  }

  lemma RowFields(row: seq<byte>)
    requires IsRecord(row)
    ensures |Data(row)| == row[0] && Address(row) < 0x1_0000 && Kind(row) == row[3]
    ensures row[0] == 2 ==> Data(row) == [row[4], row[5]]
  {
  }

  lemma NoteData(scan: Scan, row: seq<byte>)
    requires IsRecord(row) && Kind(row) == 0 && scan.base <= 0xffff_0000
    ensures var start, size := scan.base + Address(row), |Data(row)|;
      Note(scan, row) ==
        if start + size <= FLASH_SIZE || start + size >= 0x1_0000_0000 then
          Ok(Scan(scan.base, scan.eof, scan.application || (start == 0 && Data(row) != []),
                  scan.bootloader || (start < FLASH_SIZE && BOOT_START < start + size <= FLASH_SIZE)))
        else Error
  {
    RowFields(row);
    var start, size := scan.base + Address(row), |Data(row)|;
    assert start < 0x1_0000_0000 && size < 0x100;
    WrapOnce(start);
    WrapOnce(start + size);
    hide IsRecord, Wrap32, Address;
  }

  lemma WrapOnce(v: nat)
    requires v < 0x2_0000_0000
    ensures Wrap32(v) == if v < 0x1_0000_0000 then v else v - 0x1_0000_0000
  {
  }

  lemma AfterRecord(rows: seq<seq<byte>>, scan: Result<Scan>, row: seq<byte>)
    requires AreRecords(rows) && AreRecords(rows + [row]) && IsRecord(row) && ScanIs(rows, scan)
    ensures ScanIs(rows + [row], match scan case Ok(s) => Note(s, row) case Error => Error)
  {
    OneMoreRecord(rows, row);
    if scan.Ok? {
      NoteIs(rows, scan.value, row);
    }
    hide AllInRange, SomeEnds, SomeVector, SomeBootloader, InRange, Ends, HoldsVector, HoldsBootloader;
    hide Note, IsRecord, BaseAfter;
  }

  lemma {:induction false} ScanIsRight(lines: seq<string>)
    requires AllRecords(Desktop, Dropped(lines))
    ensures ScanIs(Records(Desktop, Dropped(lines)), ScanLines(lines))
    decreases |lines|
  {
    hide ScanIs, IsRecord, Row, DropReturn, Note;
    if lines == [] {
      NothingScanned();
    } else {
      var k := |lines| - 1;
      var dropped := Dropped(lines);
      assert dropped[..k] == Dropped(lines[..k]);
      assert forall i | 0 <= i < k :: dropped[..k][i] == dropped[i];
      ScanIsRight(lines[..k]);
      var rows, line := Records(Desktop, dropped[..k]), dropped[k];
      if line == "" {
        assert rows + [] == rows;
      } else {
        AfterRecord(rows, ScanLines(lines[..k]), Row(Desktop, line).value);
      }
    }
  }

  lemma NothingScanned()
    ensures ScanIs([], Ok(START))
  {
  }

  // A line that is no record fails the scan.
  lemma {:induction false} OnlyRecordsScanned(lines: seq<string>)
    requires ScanLines(lines).Ok?
    ensures AllRecords(Desktop, Dropped(lines))
    decreases |lines|
  {
    hide IsRecord, Row, DropReturn, Note;
    if lines != [] {
      var k := |lines| - 1;
      OnlyRecordsScanned(lines[..k]);
      assert forall i | 0 <= i < k :: Dropped(lines)[i] == Dropped(lines[..k])[i];
    }
  }

  // For every text: it is accepted exactly when all lines that are not blank
  // are records, every data record ends within flash or wraps around 32 bits,
  // and there are an end-of-file record, data at address 0 and a record that
  // counts as bootloader.
  lemma AcceptedIff(text: string)
    ensures var lines := Dropped(Lines(text, LINE_FEED));
      Accepted(text) <==>
        && AllRecords(Desktop, lines)
        && var rows := Records(Desktop, lines);
           AllInRange(rows) && SomeEnds(rows) && SomeVector(rows) && SomeBootloader(rows)
  {
    var lines := Lines(text, LINE_FEED);
    hide Lines, AllRecords, Records, ScanLines, AllInRange, SomeEnds, SomeVector, SomeBootloader, IsRecord, Dropped;
    if ScanLines(lines).Ok? {
      OnlyRecordsScanned(lines);
    }
    if AllRecords(Desktop, Dropped(lines)) {
      ScanIsRight(lines);
    }
  }

  // ---------- A text that stores past the end of flash ----------

  // One octet at 0xffffffff.
  const TOP_BASE := MakeRecord(0, 4, [0xff, 0xff])
  const TOP_OCTET := MakeRecord(0xffff, 0, [0])

  lemma LineAdded(text: string, line: string)
    requires Without(line, LINE_FEED)
    ensures Lines(text + "\n" + line, LINE_FEED) == Lines(text, LINE_FEED) + [line]
  {
    hide Lines;
    BreakAdds(text, LINE_FEED);
    LinesAppend(text + "\n", line, LINE_FEED);
    assert "" + line == line;
  }

  // A text and one more line, with a record.
  function With(text: string, row: seq<byte>): string {
    text + "\n" + Line(row)
  }

  lemma RecordAdded(text: string, row: seq<byte>)
    requires IsRecord(row)
    ensures ScanLines(Lines(With(text, row), LINE_FEED)) ==
      match ScanLines(Lines(text, LINE_FEED))
      case Ok(scan) => Note(scan, row)
      case Error => Error
  {
    hide IsRecord, Row, Note, Lines, Line;
    HexImage.LineReads(Desktop, row);
    var line := Line(row);
    assert Without(line, LINE_FEED) && DropReturn(line) == line;
    LineAdded(text, line);
    var lines := Lines(text, LINE_FEED);
    assert (lines + [line])[..|lines|] == lines;
  }

  lemma TopOctetNoted(scan: Scan)
    ensures var next := scan.(base := 0xffff_0000);
      Note(scan, TOP_BASE) == Ok(next) && Note(next, TOP_OCTET) == Ok(next)
    ensures IsRecord(TOP_BASE) && IsRecord(TOP_OCTET) && 0xffff_0000 + Address(TOP_OCTET) == 0xffff_ffff
  {
    hide MakeRecord, IsRecord, Note, Kind, Data, Address;
    NoteBase(scan, TOP_BASE, 0xff, 0xff);
    NoteData(scan.(base := 0xffff_0000), TOP_OCTET);
  }

  lemma NoteBase(scan: Scan, row: seq<byte>, high: byte, low: byte)
    requires IsRecord(row) && Kind(row) == 4 && Data(row) == [high, low]
    ensures Note(scan, row) == Ok(scan.(base := BigEndian(high, low) * 0x1_0000))
  {
    RowFields(row);
    hide IsRecord, BigEndian;
  }

  lemma NoteEnd(scan: Scan, row: seq<byte>)
    requires IsRecord(row) && Kind(row) == 1
    ensures Note(scan, row) == Ok(scan.(eof := true))
  {
    RowFields(row);
    hide IsRecord;
  }

  // To every text that is accepted such an octet can be added.
  lemma TopOctetAccepted(text: string)
    requires Accepted(text)
    ensures Accepted(With(With(text, TOP_BASE), TOP_OCTET))
  {
    hide Lines, With, ScanLines, Note, IsRecord;
    TopOctetNoted(ScanLines(Lines(text, LINE_FEED)).value);
    RecordAdded(text, TOP_BASE);
    RecordAdded(With(text, TOP_BASE), TOP_OCTET);
  }

  const VECTOR := MakeRecord(0, 0, [0x0c, 0x94])
  const BOOT_OCTET := MakeRecord(BOOT_START, 0, [0xff])
  const END_OF_FILE := MakeRecord(0, 1, [])

  // A whole text of five records.
  const IMAGE := With(With(With("", VECTOR), BOOT_OCTET), END_OF_FILE)

  lemma WrappedTextAccepted()
    ensures Accepted(With(With(IMAGE, TOP_BASE), TOP_OCTET))
  {
    ThreeNoted();
    BlankText();
    hide Lines, With, ScanLines, Note, IsRecord;
    RecordAdded("", VECTOR);
    RecordAdded(With("", VECTOR), BOOT_OCTET);
    RecordAdded(With(With("", VECTOR), BOOT_OCTET), END_OF_FILE);
    TopOctetAccepted(IMAGE);
  }

  lemma BlankText()
    ensures ScanLines(Lines("", LINE_FEED)) == Ok(START)
  {
    assert [""][..0] == [];
  }

  lemma ThreeNoted()
    ensures IsRecord(VECTOR) && IsRecord(BOOT_OCTET) && IsRecord(END_OF_FILE)
    ensures Note(START, VECTOR) == Ok(START.(application := true))
    ensures Note(START.(application := true), BOOT_OCTET) == Ok(START.(application := true, bootloader := true))
    ensures Note(START.(application := true, bootloader := true), END_OF_FILE) == Ok(Scan(0, true, true, true))
  {
    hide MakeRecord, IsRecord, Note, Kind, Data, Address;
    NoteData(START, VECTOR);
    NoteData(START.(application := true), BOOT_OCTET);
    NoteEnd(START.(application := true, bootloader := true), END_OF_FILE);
  }
}
