// Which texts the two readers accept, and what they read, in terms of the
// records in them.
module HexTexts {
  import opened Octets
  import opened IntelHex
  import opened HexImage
  import opened HexRecords
  import opened Readers
  import opened Application
  import opened ApplicationImage
  import opened FirmwareUpdater
  import Crc32

  // ---------- The Python tools ----------

  // read_hex: the lines are blank or well-formed records, the last of them the
  // only end-of-file record, nothing is stored twice, and something is stored.
  lemma PythonReadsIff(text: string)
    ensures var lines := Trimmed(Python, Lines(text, BREAKS));
      && (HexImage.Read(text).Ok? <==>
            && AllRecords(Python, lines)
            && var rows := Records(Python, lines);
               && AllWellFormed(rows) && EndIsLast(rows) && Ended(rows)
               && AllApart(Regions(rows)) && StoresSome(Regions(rows)))
      && (HexImage.Read(text).Ok? ==> Holds(Regions(Records(Python, lines)), HexImage.Read(text).value))
  {
    var lines := Lines(text, BREAKS);
    hide Lines, Trimmed, ReadLines, AllRecords, Records, AllWellFormed, EndIsLast, Ended, AllApart, Regions, Holds;
    hide IsRecord, AllBelow, StoresSome;
    ReadsIff(Python, lines, UNLIMITED);
    if AllRecords(Python, Trimmed(Python, lines)) {
      NoLimit(Records(Python, Trimmed(Python, lines)));
    }
    var r := ReadLines(Python, lines, UNLIMITED);
    if r.Ok? {
      StoresIff(Regions(Records(Python, Trimmed(Python, lines))), r.value.memory);
    }
  }

  predicate StoresSome(regions: seq<Region>) {
    exists k | 0 <= k < |regions| :: regions[k].data != []
  }

  lemma StoresIff(regions: seq<Region>, memory: map<nat, byte>)
    requires Holds(regions, memory)
    ensures StoresSome(regions) <==> memory != map[]
  {
    if k :| 0 <= k < |regions| && regions[k].data != [] {
      assert Stored(regions[k], memory) && regions[k].Has(regions[k].start);
    }
    if memory != map[] {
      var a :| a in memory.Keys;
      assert InSome(regions, a);
    }
  }

  // No record can name an address at or above the limit of the Python reader.
  lemma {:induction false} NoLimit(rows: seq<seq<byte>>)
    requires AreRecords(rows)
    ensures AllBelow(Regions(rows), UNLIMITED)
    decreases |rows|
  {
    if rows != [] {
      var k := |rows| - 1;
      assert forall i | 0 <= i < k :: rows[..k][i] == rows[i];
      NoLimit(rows[..k]);
      assert rows == rows[..k] + [rows[k]];
      hide IsRecord, Regions, AllBelow;
      OneMoreBelow(rows[..k], rows[k]);
    }
  }

  lemma OneMoreBelow(rows: seq<seq<byte>>, row: seq<byte>)
    requires AreRecords(rows) && IsRecord(row) && AreRecords(rows + [row]) && AllBelow(Regions(rows), UNLIMITED)
    ensures AllBelow(Regions(rows + [row]), UNLIMITED)
  {
    hide IsRecord, Regions, BaseAfter, Address, Data, AllBelow;
    NextRecord(rows, row);
    LowAddress(row);
    if Kind(row) == 0 {
      BelowMore(Regions(rows), Region(BaseAfter(rows) + Address(row), Data(row)), UNLIMITED);
    } else {
      assert Regions(rows) + [] == Regions(rows);
    }
  }

  lemma LowAddress(row: seq<byte>)
    requires IsRecord(row)
    ensures Address(row) < 0x1_0000 && |Data(row)| < 0x100
  {
    hide Sum;
  }

  // ---------- The desktop application ----------

  lemma DesktopReadsIff(text: string)
    ensures var lines := Trimmed(Desktop, Lines(text, LINE_FEED));
      && (Decoded(text).Ok? <==> AllRecords(Desktop, lines) && Readable(Records(Desktop, lines), 0x7000))
      && (Decoded(text).Ok? ==>
            && Holds(Regions(Records(Desktop, lines)), Decoded(text).value.memory)
            && Decoded(text).value.ended == Ended(Records(Desktop, lines)))
  {
    hide Lines, Trimmed, ReadLines, AllRecords, Records, Readable, Ended, Regions, Holds, IsRecord;
    ReadsIff(Desktop, Lines(text, LINE_FEED), BOOT_START);
  }

  // An application image with its manifest, octet by octet: a reset vector that
  // is not blank, "P2FW", format and protocol 1.0, the length, the CRC, and
  // nothing in between.
  ghost predicate IsUpdate(memory: map<nat, byte>) {
    && 0 in memory && 1 in memory && !(memory[0] == 0xff && memory[1] == 0xff)
    && (forall a | 0x6ff0 <= a < 0x7000 :: a in memory)
    && memory[0x6ff0] == 0x50 && memory[0x6ff1] == 0x32 && memory[0x6ff2] == 0x46 && memory[0x6ff3] == 0x57
    && memory[0x6ff4] == 1 && memory[0x6ff5] == 1 && memory[0x6ff6] == 0
    && var length: nat := (memory[0x6ff8] as int) + 0x100 * (memory[0x6ff9] as int)
                          + 0x1_0000 * (memory[0x6ffa] as int) + 0x100_0000 * (memory[0x6ffb] as int);
       && 2 <= length <= 0x6ff0
       && Crc32.Checksum(ImageBytes(memory, length))
            == Crc32.Dword(memory[0x6ffc], memory[0x6ffd], memory[0x6ffe], memory[0x6fff])
       && forall a | length <= a < 0x6ff0 && a in memory :: memory[a] == 0xff
  }

  lemma AcceptableIff(memory: map<nat, byte>)
    ensures Acceptable(memory) <==> IsUpdate(memory)
  {
    var flash := Flat(memory);
    hide Crc32.Checksum, Crc32.Dword;
    if ManifestComplete(memory) {
      assert forall a | 0x6ff0 <= a < 0x7000 :: a in memory && flash[a] == memory[a];
      assert HeaderOk(flash) <==>
        && memory[0x6ff0] == 0x50 && memory[0x6ff1] == 0x32 && memory[0x6ff2] == 0x46 && memory[0x6ff3] == 0x57
        && memory[0x6ff4] == 1 && memory[0x6ff5] == 1 && memory[0x6ff6] == 0;
      var length := ImageLength(flash);
      if length <= 0x6ff0 {
        ImageBytesAreFlat(memory, length);
        TailIff(memory, length);
      }
    }
  }

  lemma TailIff(memory: map<nat, byte>, length: nat)
    requires length <= 0x6ff0
    ensures BlankFrom(Flat(memory), length) <==> forall a | length <= a < 0x6ff0 && a in memory :: memory[a] == 0xff
  {
    var flash := Flat(memory);
    if forall a | length <= a < 0x6ff0 && a in memory :: memory[a] == 0xff {
      forall a | length <= a < MANIFEST_ADDRESS
        ensures flash[a] == 0xff
      {
        assert flash[a] == Value(memory, a);
      }
    }
    if BlankFrom(flash, length) {
      forall a | length <= a < 0x6ff0 && a in memory
        ensures memory[a] == 0xff
      {
        assert flash[a] == Value(memory, a);
      }
    }
  }

  // For every text: the desktop application accepts it exactly when its lines
  // are blank or well-formed records, the last of them the only end-of-file
  // record, with data below 0x7000 and none stored twice, and what they store
  // is an application image with its manifest.
  lemma AcceptsRecordsIff(text: string)
    ensures var lines := Trimmed(Desktop, Lines(text, LINE_FEED));
      Accepts(text) <==>
        && AllRecords(Desktop, lines)
        && var rows := Records(Desktop, lines);
           && Readable(rows, 0x7000) && Ended(rows)
           && forall memory | Holds(Regions(rows), memory) :: IsUpdate(memory)
  {
    hide Lines, Trimmed, AllRecords, Records, Readable, Ended, Regions, Holds, IsRecord, IsUpdate, Acceptable, Decoded;
    DesktopReadsIff(text);
    if Decoded(text).Ok? {
      var memory := Decoded(text).value.memory;
      var rows := Records(Desktop, Trimmed(Desktop, Lines(text, LINE_FEED)));
      AcceptableIff(memory);
      forall m | Holds(Regions(rows), m)
        ensures m == memory
      {
        HoldsOne(Regions(rows), m, memory);
      }
    }
  }

  // ---------- A base address first ----------

  lemma {:induction false} LinesBehind(line: string, text: string, breaks: set<char>)
    requires '\n' in breaks && Without(line, breaks)
    ensures Lines(line + "\n" + text, breaks) == [line] + Lines(text, breaks)
    decreases |text|
  {
    hide Lines;
    if text == "" {
      OneLine(line, breaks);
      assert line + "\n" + "" == line + "\n";
    } else {
      var k := |text| - 1;
      LinesBehind(line, text[..k], breaks);
      assert text == text[..k] + [text[k]];
      assert line + "\n" + text == (line + "\n" + text[..k]) + [text[k]];
      AppendCharacter(text[..k], text[k], breaks);
      AppendCharacter(line + "\n" + text[..k], text[k], breaks);
      AppendBehind(line, Lines(text[..k], breaks), text[k]);
    }
  }

  lemma OneLine(line: string, breaks: set<char>)
    requires '\n' in breaks && Without(line, breaks)
    ensures Lines(line + "\n", breaks) == [line, ""] && Lines("", breaks) == [""]
  {
    BreakAdds(line, breaks);
    LinesAppend("", line, breaks);
    assert "" + line == line;
  }

  lemma AppendBehind(line: string, before: seq<string>, c: char)
    requires |before| > 0
    ensures ([line] + before) + [""] == [line] + (before + [""])
    ensures Init([line] + before) + [Last([line] + before) + [c]] == [line] + (Init(before) + [Last(before) + [c]])
  {
  }

  // A record that changes nothing at the start.
  ghost predicate Neutral(row: seq<byte>) {
    IsRecord(row) && forall limit: nat :: Apply(EMPTY, row, limit) == Ok(EMPTY)
  }

  lemma NeutralRead(d: Dialect, row: seq<byte>, lines: seq<string>, limit: nat)
    requires Neutral(row)
    ensures ReadLines(d, [Line(row)] + lines, limit) == ReadLines(d, lines, limit)
  {
    assert Apply(EMPTY, row, limit) == Ok(EMPTY);
    hide Line, ReadLine, IsRecord, Apply;
    LineApplies(d, EMPTY, row, limit);
    var line := Line(row);
    FirstLineRead(d, line, limit);
    ReadAppend(d, [line], lines, limit);
    ReadAppend(d, [], lines, limit);
    assert [] + lines == lines;
  }

  lemma FirstLineRead(d: Dialect, line: string, limit: nat)
    ensures ReadLines(d, [line], limit) == ReadLine(d, EMPTY, line, limit)
    ensures ReadLines(d, [], limit) == Ok(EMPTY)
  {
    hide ReadLine;
    assert [line][..0] == [];
  }

  // Both readers read a text with such a record before it as they read the
  // text alone, whatever the text is.
  lemma NeutralFirst(row: seq<byte>, text: string)
    requires Neutral(row)
    ensures HexImage.Read(Line(row) + "\n" + text) == HexImage.Read(text)
    ensures Decoded(Line(row) + "\n" + text) == Decoded(text)
    ensures Accepts(Line(row) + "\n" + text) <==> Accepts(text)
  {
    LineReads(Python, row);
    BreaksPlain(Line(row));
    hide Neutral, Lines, Line, ReadLines, Acceptable, Without, IsRecord;
    LinesBehind(Line(row), text, BREAKS);
    LinesBehind(Line(row), text, LINE_FEED);
    NeutralRead(Python, row, Lines(text, BREAKS), UNLIMITED);
    NeutralRead(Desktop, row, Lines(text, LINE_FEED), BOOT_START);
  }

  lemma BreaksPlain(line: string)
    requires Without(line, BREAKS)
    ensures Without(line, LINE_FEED)
  {
  }

  // Many tools write a base address of zero first.
  lemma BaseFirst(text: string)
    ensures var longer := Line(MakeRecord(0, 4, [0, 0])) + "\n" + text;
      && HexImage.Read(longer) == HexImage.Read(text)
      && Decoded(longer) == Decoded(text)
      && (Accepts(longer) <==> Accepts(text))
  {
    BaseIsNeutral();
    hide MakeRecord, Neutral, HexImage.Read, Decoded, Accepts, Line, IsRecord;
    NeutralFirst(MakeRecord(0, 4, [0, 0]), text);
  }

  lemma BaseIsNeutral()
    ensures Neutral(MakeRecord(0, 4, [0, 0]))
  {
    hide MakeRecord, IsRecord;
  }
}
