// firmware/tools/hex_image.py: reading and writing Intel HEX files.
module HexImage {
  import opened Octets
  import opened IntelHex

  // Where str.splitlines cuts.
  const BREAKS: set<char> :=
    {'\n', '\r', '\U{b}', '\U{c}', '\U{1c}', '\U{1d}', '\U{1e}', '\U{85}', '\U{2028}', '\U{2029}'}

  const ROWS: nat := 0x1000

  // ---------- Smallest and largest address ----------

  lemma {:induction false} Least(s: set<nat>) returns (m: nat)
    requires s != {}
    ensures m in s && forall y | y in s :: m <= y
    decreases |s|
  {
    var first :| first in s;
    var rest := s - {first};
    m := first;
    if rest != {} {
      var n := Least(rest);
      m := if first < n then first else n;
    }
    assert forall y | y in s :: y == first || y in rest;
  }

  lemma {:induction false} Greatest(s: set<nat>) returns (m: nat)
    requires s != {}
    ensures m in s && forall y | y in s :: y <= m
    decreases |s|
  {
    var first :| first in s;
    var rest := s - {first};
    m := first;
    if rest != {} {
      var n := Greatest(rest);
      m := if first < n then n else first;
    }
    assert forall y | y in s :: y == first || y in rest;
  }

  lemma ExtremesExist(memory: map<nat, byte>)
    requires memory != map[]
    ensures exists x :: x in memory.Keys && forall y | y in memory.Keys :: x <= y
    ensures exists x :: x in memory.Keys && forall y | y in memory.Keys :: y <= x
  {
    if memory.Keys == {} {
      NoKeys(memory);
    } else {
      var low := Least(memory.Keys);
      var high := Greatest(memory.Keys);
    }
  }

  lemma NoKeys(memory: map<nat, byte>)
    requires memory.Keys == {}
    ensures memory == map[]
  {
  }

  function Min(memory: map<nat, byte>): (m: nat)
    requires memory != map[]
    ensures m in memory && forall a | a in memory :: m <= a
  {
    ExtremesExist(memory);
    var x :| x in memory.Keys && forall y | y in memory.Keys :: x <= y;
    x
  }

  function Max(memory: map<nat, byte>): (m: nat)
    requires memory != map[]
    ensures m in memory && forall a | a in memory :: a <= m
  {
    ExtremesExist(memory);
    var x :| x in memory.Keys && forall y | y in memory.Keys :: y <= x;
    x
  }

  // ---------- read_hex ----------

  function Read(text: string): Result<map<nat, byte>> {
    match ReadLines(Python, Lines(text, BREAKS), UNLIMITED)
    case Ok(image) => if image.ended && image.memory != map[] then Ok(image.memory) else Error
    case Error => Error
  }

  method ReadHex(text: string) returns (r: Result<map<nat, byte>>)
    ensures r == Read(text)
  {
    hide ReadLine, Lines;
    var lines := Lines(text, BREAKS);
    var result: map<nat, byte> := map[];
    var base: nat := 0;
    var ended := false;
    var i := 0;
    while i < |lines|
      invariant 0 <= i <= |lines|
      invariant ReadLines(Python, lines[..i], UNLIMITED) == Ok(Image(result, base, ended))
      invariant base < UNLIMITED
      invariant BaseOk(base)
    {
      assert lines[..i + 1][..i] == lines[..i];
      var next := ReadOneLine(Image(result, base, ended), lines[i]);
      if next.Error? {
        ErrorStays(Python, lines, i + 1, UNLIMITED);
        return Error;
      }
      result, base, ended := next.value.memory, next.value.base, next.value.ended;
      i := i + 1;
    }
    assert lines[..i] == lines;
    if !ended || result == map[] {
      return Error;
    }
    r := Ok(result);
  }

  // A base address comes from sixteen bits.
  predicate BaseOk(base: nat) {
    base <= 0xffff_0000
  }

  method ReadOneLine(image: Image, line: string) returns (r: Result<Image>)
    requires BaseOk(image.base)
    ensures r == ReadLine(Python, image, line, UNLIMITED)
    ensures r.Ok? ==> BaseOk(r.value.base)
  {
    if line == "" {
      return Ok(image);
    }
    if image.ended || line[0] != ':' {
      return Error;
    }
    var parsed := FromHex(line[1..]);
    if parsed.Error? {
      return Error;
    }
    var row := parsed.value;
    if |row| < 5 || |row| != (row[0] as nat) + 5 || Sum(row) % 0x100 != 0 {
      return Error;
    }
    hide FromHex;
    r := ApplyRow(image, row);
  }

  method ApplyRow(image: Image, row: seq<byte>) returns (r: Result<Image>)
    requires BaseOk(image.base) && IsRecord(row)
    ensures r == Apply(image, row, UNLIMITED)
    ensures r.Ok? ==> BaseOk(r.value.base)
  {
    hide Sum, Store, Free;
    var addr, kind, data := BigEndian(row[1], row[2]), row[3], row[4..|row| - 1];
    if kind == 0 {
      r := StoreData(image, image.base + addr, data);
    } else if kind == 1 && addr == 0 && data == [] {
      r := Ok(image.(ended := true));
    } else if kind == 2 && addr == 0 && |data| == 2 {
      r := Ok(image.(base := BigEndian(data[0], data[1]) * 0x10));
    } else if kind == 4 && addr == 0 && |data| == 2 {
      r := Ok(image.(base := BigEndian(data[0], data[1]) * 0x1_0000));
    } else if (kind == 3 || kind == 5) && addr == 0 && |data| == 4 {
      r := Ok(image);
    } else {
      r := Error;
    }
  }

  method StoreData(image: Image, start: nat, data: seq<byte>) returns (r: Result<Image>)
    ensures r ==
      if Free(image.memory, start, |data|) then Ok(image.(memory := Store(image.memory, start, data))) else Error
  {
    var result := image.memory;
    var offset := 0;
    while offset < |data|
      invariant 0 <= offset <= |data|
      invariant Free(image.memory, start, offset)
      invariant result == Store(image.memory, start, data[..offset])
    {
      assert data[..offset + 1][..offset] == data[..offset];
      if start + offset in result {
        assert start + offset in image.memory;
        return Error;
      }
      result := result[start + offset := data[offset]];
      offset := offset + 1;
    }
    assert data[..offset] == data;
    r := Ok(image.(memory := result));
  }

  // ---------- write_hex ----------

  function Value(memory: map<nat, byte>, a: nat): byte {
    if a in memory then memory[a] else 0xff
  }

  // Some address of a sixteen-byte row is in use.
  predicate Touched(memory: map<nat, byte>, row: nat) {
    exists a | 16 * row <= a < 16 * row + 16 :: a in memory
  }

  function RowData(memory: map<nat, byte>, row: nat): (d: seq<byte>)
    ensures |d| == 16
    ensures forall i | 0 <= i < 16 :: d[i] == Value(memory, 16 * row + i)
  {
    seq<byte>(16, i requires 0 <= i < 16 => Value(memory, 16 * row + i))
  }

  // The lines of the touched rows from `low` up to `high`.
  function RowLines(memory: map<nat, byte>, low: nat, high: nat): (lines: seq<string>)
    requires low <= high <= ROWS
    decreases high
  {
    if low == high then []
    else
      RowLines(memory, low, high - 1)
      + if Touched(memory, high - 1) then [Line(MakeRecord(16 * (high - 1), 0, RowData(memory, high - 1)))] else []
  }

  const EOF_LINE := ":00000001FF"

  // The text of a memory map: all its rows, ascending.
  function Written(memory: map<nat, byte>): string {
    Text(RowLines(memory, 0, ROWS) + [EOF_LINE])
  }

  predicate InAddressSpace(memory: map<nat, byte>) {
    forall a | a in memory :: a < 0x1_0000
  }

  method WriteHex(memory: map<nat, byte>) returns (r: Result<string>)
    ensures r == if memory != map[] && InAddressSpace(memory) then Ok(Written(memory)) else Error
  {
    if !InAddressSpace(memory) {
      return Error;
    }
    if memory == map[] {
      return Error;
    }
    RowBounds(memory);
    hide Written, RowLines, Text;
    var first := Min(memory) / 16;
    var last := Max(memory) / 16;
    var lines := RowsOf(memory, first, last + 1);
    AllRows(memory, first, last);
    r := Ok(Text(lines + [EOF_LINE]));
  }

  method RowsOf(memory: map<nat, byte>, first: nat, end: nat) returns (lines: seq<string>)
    requires first <= end <= ROWS
    ensures lines == RowLines(memory, first, end)
  {
    hide MakeRecord, Touched, Line, RowData, RowLines;
    lines := [];
    var row := first;
    NoRows(memory, first);
    while row < end
      invariant first <= row <= end
      invariant lines == RowLines(memory, first, row)
    {
      OneMoreRow(memory, first, row);
      if Touched(memory, row) {
        lines := lines + [Line(MakeRecord(16 * row, 0, RowData(memory, row)))];
      }
      row := row + 1;
    }
  }

  lemma RowBounds(memory: map<nat, byte>)
    requires memory != map[] && InAddressSpace(memory)
    ensures Min(memory) / 16 <= Max(memory) / 16 < ROWS
  {
    assert Min(memory) <= Max(memory) < 0x1_0000;
  }

  lemma NoRows(memory: map<nat, byte>, row: nat)
    requires row <= ROWS
    ensures RowLines(memory, row, row) == []
  {
  }

  lemma OneMoreRow(memory: map<nat, byte>, first: nat, row: nat)
    requires first <= row < ROWS
    ensures RowLines(memory, first, row + 1) == RowLines(memory, first, row)
      + if Touched(memory, row) then [Line(MakeRecord(16 * row, 0, RowData(memory, row)))] else []
    ensures RowLines(memory, first, row) + [] == RowLines(memory, first, row)
  {
    hide MakeRecord, Touched, Line, RowData;
  }

  lemma AllRows(memory: map<nat, byte>, first: nat, last: nat)
    requires memory != map[] && first == Min(memory) / 16 && last == Max(memory) / 16 && last < ROWS
    ensures first <= last
    ensures Text(RowLines(memory, first, last + 1) + [EOF_LINE]) == Written(memory)
  {
    hide RowLines, Text;
    OuterRows(memory, first, last);
  }

  // Rows below the first and above the last are not touched.
  lemma OuterRows(memory: map<nat, byte>, first: nat, last: nat)
    requires memory != map[] && first == Min(memory) / 16 && last == Max(memory) / 16 && last < ROWS
    ensures first <= last
    ensures RowLines(memory, 0, ROWS) == RowLines(memory, first, last + 1)
  {
    hide MakeRecord;
    Untouched(memory, 0, first);
    Untouched(memory, last + 1, ROWS);
    RowLinesSplit(memory, 0, first, ROWS);
    RowLinesSplit(memory, first, last + 1, ROWS);
    assert [] + RowLines(memory, first, ROWS) == RowLines(memory, first, ROWS);
    assert RowLines(memory, first, last + 1) + [] == RowLines(memory, first, last + 1);
  }

  lemma {:induction false} Untouched(memory: map<nat, byte>, low: nat, high: nat)
    requires memory != map[] && low <= high <= ROWS
    requires high <= Min(memory) / 16 || low > Max(memory) / 16
    ensures RowLines(memory, low, high) == []
    decreases high
  {
    if low < high {
      Untouched(memory, low, high - 1);
    }
  }

  lemma {:induction false} RowLinesSplit(memory: map<nat, byte>, low: nat, middle: nat, high: nat)
    requires low <= middle <= high <= ROWS
    ensures RowLines(memory, low, high) == RowLines(memory, low, middle) + RowLines(memory, middle, high)
    decreases high
  {
    hide MakeRecord, Touched;
    if middle == high {
      assert RowLines(memory, low, middle) + [] == RowLines(memory, low, middle);
    } else {
      RowLinesSplit(memory, low, middle, high - 1);
    }
  }

  // ---------- Round trips ----------

  predicate Kept(memory: map<nat, byte>, a: nat) {
    Touched(memory, a / 16)
  }

  // The memory extended with 0xff to all of the rows it touches, up to a row.
  function PaddedTo(memory: map<nat, byte>, rows: nat): (r: map<nat, byte>)
    ensures forall a: nat :: a in r <==> a < 16 * rows && Kept(memory, a)
    ensures forall a | a in r :: r[a] == Value(memory, a)
  {
    map a: nat | a < 16 * rows && Kept(memory, a) :: Value(memory, a)
  }

  function Padded(memory: map<nat, byte>): map<nat, byte> {
    PaddedTo(memory, ROWS)
  }

  // What padding means for a single address.
  lemma PaddedAt(memory: map<nat, byte>, a: nat)
    requires InAddressSpace(memory)
    ensures a in Padded(memory) <==> exists x :: x in memory && x / 16 == a / 16
    ensures a in memory ==> a in Padded(memory) && Padded(memory)[a] == memory[a]
    ensures a in Padded(memory) && a !in memory ==> Padded(memory)[a] == 0xff
  {
    if x: nat :| x in memory && x / 16 == a / 16 {
      assert 16 * (a / 16) <= x < 16 * (a / 16) + 16;
      assert Kept(memory, a);
    }
    if a in Padded(memory) {
      var x :| 16 * (a / 16) <= x < 16 * (a / 16) + 16 && x in memory;
      assert x in memory && x / 16 == a / 16;
    }
  }

  lemma EofIsRecord()
    ensures EOF_LINE == Line(MakeRecord(0, 1, []))
  {
    EofRow();
    hide MakeRecord, Encode;
    EncodeFive([0, 0, 0, 1, 0xff]);
  }

  lemma EofRow()
    ensures MakeRecord(0, 1, []) == [0, 0, 0, 1, 0xff]
  {
    hide MakeRecord, Sum;
    var row := MakeRecord(0, 1, []);
    EofHeader(row);
    EofChecksum(row);
  }

  lemma EofHeader(row: seq<byte>)
    requires IsRecord(row) && Address(row) == 0 && Kind(row) == 1 && Data(row) == []
    ensures |row| == 5 && row[..4] == [0, 0, 0, 1]
  {
    hide IsRecord, BigEndian, Address, Data, Kind;
    RecordParts(row);
    NoAddress(row[1], row[2]);
    FourOctets(row);
  }

  lemma RecordParts(row: seq<byte>)
    requires IsRecord(row)
    ensures |row| == 5 + |Data(row)| && row[0] == |Data(row)|
    ensures Address(row) == BigEndian(row[1], row[2]) && Kind(row) == row[3]
  {
    hide Sum, BigEndian;
  }

  lemma NoAddress(high: byte, low: byte)
    requires BigEndian(high, low) == 0
    ensures high == 0 && low == 0
  {
  }

  lemma FourOctets(row: seq<byte>)
    requires |row| == 5 && row[0] == 0 && row[1] == 0 && row[2] == 0 && row[3] == 1
    ensures row[..4] == [0, 0, 0, 1]
  {
  }

  lemma EofChecksum(row: seq<byte>)
    requires IsRecord(row) && |row| == 5 && row[..4] == [0, 0, 0, 1]
    ensures row[4] == 0xff
  {
    assert Sum(row) == Sum([0, 0, 0, 1]) + row[4];
    hide Sum;
    SumOfEof();
  }

  lemma SumOfEof()
    ensures Sum([0, 0, 0, 1]) == 1
  {
    var s: seq<byte> := [0, 0, 0, 1];
    assert s[..3] == [0, 0, 0] && s[..3][..2] == [0, 0] && s[..3][..2][..1] == [0] && s[..3][..2][..1][..0] == [];
    assert Sum([0]) == 0 && Sum([0, 0]) == 0 && Sum([0, 0, 0]) == 0;
  }

  lemma EncodeFive(row: seq<byte>)
    requires row == [0, 0, 0, 1, 0xff]
    ensures ":" + Encode(row) == EOF_LINE
  {
    assert row[1..] == [0, 0, 1, 0xff] && row[1..][1..] == [0, 1, 0xff];
    assert row[1..][1..][1..] == [1, 0xff] && row[1..][1..][1..][1..] == [0xff];
    assert row[1..][1..][1..][1..][1..] == [];
    assert Encode([0xff]) == "FF";
    assert Encode([1, 0xff]) == "01FF";
    assert Encode([0, 1, 0xff]) == "0001FF";
    assert Encode([0, 0, 1, 0xff]) == "000001FF";
    assert Encode(row) == "00000001FF";
  }

  // A line made from a record reads back as the record, in both dialects.
  lemma LineReads(d: Dialect, row: seq<byte>)
    requires IsRecord(row)
    ensures Row(d, Line(row)) == Ok(row)
    ensures Line(row) != "" && Without(Line(row), SPACES) && Without(Line(row), BREAKS)
  {
    hide Encode, FromHex, Decode, IsRecord;
    var line := Line(row);
    var digits := Encode(row);
    DecodeEncode(row);
    assert line[1..] == digits;
    DigitsPlain(row);
    PlainLine(digits);
    FromHexPlain(digits);
  }

  lemma PlainLine(digits: string)
    requires Without(digits, SPACES) && Without(digits, BREAKS)
    ensures Without(":" + digits, SPACES) && Without(":" + digits, BREAKS)
  {
  }

  lemma DigitsPlain(row: seq<byte>)
    ensures Without(Encode(row), SPACES) && Without(Encode(row), BREAKS)
  {
    EncodeIsPlain(row);
    hide Encode;
    forall i | 0 <= i < |Encode(row)|
      ensures Encode(row)[i] !in SPACES && Encode(row)[i] !in BREAKS
    {
      DigitIsPlain(Encode(row)[i]);
    }
  }

  lemma DigitIsPlain(c: char)
    requires IsUpperDigit(c)
    ensures c !in SPACES && c !in BREAKS
  {
  }

  lemma LineApplies(d: Dialect, image: Image, row: seq<byte>, limit: nat)
    requires IsRecord(row) && !image.ended
    ensures ReadLine(d, image, Line(row), limit) == Apply(image, row, limit)
  {
    LineReads(d, row);
    hide Row, IsRecord, Encode;
  }

  // Reading the written rows gives the padded memory, in both dialects and
  // under every limit above the last touched row.
  lemma {:induction false} RowsRead(d: Dialect, memory: map<nat, byte>, high: nat, limit: nat)
    requires high <= ROWS
    requires forall r | 0 <= r < high && Touched(memory, r) :: 16 * r + 16 <= limit
    ensures ReadLines(d, RowLines(memory, 0, high), limit) == Ok(Image(PaddedTo(memory, high), 0, false))
    decreases high
  {
    hide MakeRecord, Touched, ReadLine, RowData, Value;
    if high == 0 {
      assert PaddedTo(memory, 0) == map[];
    } else {
      var r := high - 1;
      RowsRead(d, memory, r, limit);
      if Touched(memory, r) {
        var lines := RowLines(memory, 0, high);
        assert lines[..|lines| - 1] == RowLines(memory, 0, r);
        RowReads(d, memory, r, limit);
      } else {
        assert RowLines(memory, 0, r) + [] == RowLines(memory, 0, r);
        PaddedSkips(memory, r);
      }
    }
  }

  lemma RowReads(d: Dialect, memory: map<nat, byte>, r: nat, limit: nat)
    requires r < ROWS && Touched(memory, r) && 16 * r + 16 <= limit
    ensures ReadLine(d, Image(PaddedTo(memory, r), 0, false), Line(MakeRecord(16 * r, 0, RowData(memory, r))), limit)
         == Ok(Image(PaddedTo(memory, r + 1), 0, false))
  {
    var image := Image(PaddedTo(memory, r), 0, false);
    var row := MakeRecord(16 * r, 0, RowData(memory, r));
    LineApplies(d, image, row, limit);
    hide MakeRecord, Touched, ReadLine, Line, IsRecord;
    var data := RowData(memory, r);
    assert Apply(image, row, limit) == Ok(image.(memory := Store(image.memory, 16 * r, data)));
    hide Apply;
    PaddedStores(memory, r);
  }

  lemma PaddedStores(memory: map<nat, byte>, r: nat)
    requires Touched(memory, r)
    ensures Store(PaddedTo(memory, r), 16 * r, RowData(memory, r)) == PaddedTo(memory, r + 1)
  {
    hide Touched, Store, RowData, Value, PaddedTo;
    var s, t := Store(PaddedTo(memory, r), 16 * r, RowData(memory, r)), PaddedTo(memory, r + 1);
    forall a
      ensures a in s <==> a in t
      ensures a in s ==> s[a] == t[a]
    {
      if 16 * r <= a < 16 * r + 16 {
        assert a / 16 == r && Kept(memory, a);
        assert RowData(memory, r)[a - 16 * r] == Value(memory, a);
      }
    }
  }

  lemma PaddedSkips(memory: map<nat, byte>, r: nat)
    requires !Touched(memory, r)
    ensures PaddedTo(memory, r) == PaddedTo(memory, r + 1)
  {
    hide Touched;
    forall a
      ensures a in PaddedTo(memory, r) <==> a in PaddedTo(memory, r + 1)
    {
      if 16 * r <= a < 16 * r + 16 {
        assert a / 16 == r && !Kept(memory, a);
      }
    }
  }

  // All written lines are free of line breaks and white space.
  lemma {:induction false} RowLinesPlain(memory: map<nat, byte>, high: nat)
    requires high <= ROWS
    ensures forall l | l in RowLines(memory, 0, high) :: l != "" && Without(l, BREAKS) && Without(l, SPACES)
    decreases high
  {
    hide MakeRecord, Touched, Without, Line;
    if high > 0 {
      RowLinesPlain(memory, high - 1);
      LineReads(Python, MakeRecord(16 * (high - 1), 0, RowData(memory, high - 1)));
    }
  }

  // The complete written text, read by either dialect.
  lemma WrittenReads(d: Dialect, memory: map<nat, byte>, breaks: set<char>, limit: nat)
    requires {'\n'} <= breaks <= BREAKS
    requires forall r | 0 <= r < ROWS && Touched(memory, r) :: 16 * r + 16 <= limit
    ensures ReadLines(d, Lines(Written(memory), breaks), limit) == Ok(Image(Padded(memory), 0, true))
  {
    var rows := RowLines(memory, 0, ROWS);
    var lines := rows + [EOF_LINE];
    WrittenLines(memory, breaks);
    hide RowLines, Touched, PaddedTo, Lines, Written;
    RowsRead(d, memory, ROWS, limit);
    EofReads(d, Padded(memory), limit);
    assert lines[..|lines| - 1] == rows;
    assert ReadLines(d, lines, limit) == Ok(Image(Padded(memory), 0, true));
    assert (lines + [""])[..|lines|] == lines;
    BlankLine(d, Image(Padded(memory), 0, true), limit);
  }

  lemma WrittenLines(memory: map<nat, byte>, breaks: set<char>)
    requires {'\n'} <= breaks <= BREAKS
    ensures Lines(Written(memory), breaks) == RowLines(memory, 0, ROWS) + [EOF_LINE] + [""]
  {
    var lines := RowLines(memory, 0, ROWS) + [EOF_LINE];
    RowLinesPlain(memory, ROWS);
    EofIsRecord();
    LineReads(Python, MakeRecord(0, 1, []));
    hide RowLines, Lines, Line, MakeRecord;
    forall l | l in lines
      ensures Without(l, breaks)
    {
      assert Without(l, BREAKS);
    }
    LinesOfText(lines, breaks);
  }

  lemma EofReads(d: Dialect, memory: map<nat, byte>, limit: nat)
    ensures ReadLine(d, Image(memory, 0, false), EOF_LINE, limit) == Ok(Image(memory, 0, true))
  {
    EofIsRecord();
    hide ReadLine, Line, MakeRecord;
    LineApplies(d, Image(memory, 0, false), MakeRecord(0, 1, []), limit);
  }

  lemma BlankLine(d: Dialect, image: Image, limit: nat)
    ensures ReadLine(d, image, "", limit) == Ok(image)
  {
  }

  // read_hex(write_hex(m)) is m extended with 0xff to the rows it touches.
  lemma ReadWritten(memory: map<nat, byte>)
    requires memory != map[] && InAddressSpace(memory)
    ensures Read(Written(memory)) == Ok(Padded(memory))
  {
    hide Written, Touched;
    WrittenReads(Python, memory, BREAKS, UNLIMITED);
    var a := Min(memory);
    PaddedAt(memory, a);
    assert a in Padded(memory);
  }

  // Writing that again gives the identical text.
  lemma WriteAgain(memory: map<nat, byte>)
    requires InAddressSpace(memory)
    ensures Written(Padded(memory)) == Written(memory)
  {
    SameRows(memory, ROWS);
  }

  lemma {:induction false} SameRows(memory: map<nat, byte>, high: nat)
    requires InAddressSpace(memory)
    requires high <= ROWS
    ensures RowLines(Padded(memory), 0, high) == RowLines(memory, 0, high)
    decreases high
  {
    hide MakeRecord, Line;
    if high > 0 {
      SameRows(memory, high - 1);
      SameRow(memory, high - 1);
    }
  }

  lemma SameRow(memory: map<nat, byte>, r: nat)
    requires InAddressSpace(memory)
    requires r < ROWS
    ensures Touched(Padded(memory), r) == Touched(memory, r)
    ensures Touched(memory, r) ==> RowData(Padded(memory), r) == RowData(memory, r)
  {
    var p := Padded(memory);
    forall a | 16 * r <= a < 16 * r + 16
      ensures a in p <==> Touched(memory, r)
      ensures a in p ==> p[a] == Value(memory, a)
      ensures a in memory ==> a in p
    {
      assert a / 16 == r;
      assert Kept(memory, a) <==> Touched(memory, r);
    }
    if Touched(memory, r) {
      var a :| 16 * r <= a < 16 * r + 16 && a in memory;
      assert a in p;
    }
  }

  // ---------- The order of the rows ----------

  function RowNumbers(memory: map<nat, byte>, high: nat): (rows: seq<nat>)
    requires high <= ROWS
    ensures forall i | 0 <= i < |rows| :: rows[i] < high
  {
    if high == 0 then []
    else RowNumbers(memory, high - 1) + if Touched(memory, high - 1) then [high - 1] else []
  }

  // One line for every touched row and no other, of sixteen octets, in
  // ascending order.
  lemma {:induction false} RowsAscend(memory: map<nat, byte>, high: nat)
    requires high <= ROWS
    ensures var rows, lines := RowNumbers(memory, high), RowLines(memory, 0, high);
      && |lines| == |rows|
      && (forall i | 0 <= i < |rows| :: lines[i] == Line(MakeRecord(16 * rows[i], 0, RowData(memory, rows[i]))))
      && (forall i, j | 0 <= i < j < |rows| :: rows[i] < rows[j])
      && (forall r: nat :: r in rows <==> r < high && Touched(memory, r))
  {
    hide MakeRecord, Line, Touched, RowData;
    if high > 0 {
      RowsAscend(memory, high - 1);
    }
  }
}
