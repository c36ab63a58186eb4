// Intel HEX text: lines of hexadecimal records, as all three programs of the
// repository that read or write them treat it (Intel Hexadecimal Object File
// Format Specification, Rev. A).
module IntelHex {
  import opened Octets

  datatype Result<T> = Ok(value: T) | Error

  // ---------- Hexadecimal digits ----------

  function Nibble(c: char): int {
    if '0' <= c <= '9' then c as int - '0' as int
    else if 'A' <= c <= 'F' then c as int - 'A' as int + 10
    else if 'a' <= c <= 'f' then c as int - 'a' as int + 10
    else -1
  }

  function UpperDigit(d: nat): char
    requires d < 16
  {
    if d < 10 then ('0' as int + d) as char else ('A' as int + d - 10) as char
  }

  predicate IsHexText(s: string) {
    forall i | 0 <= i < |s| :: Nibble(s[i]) >= 0
  }

  // Two digits an octet, without anything in between.
  function Decode(s: string): (r: Result<seq<byte>>)
    ensures r.Ok? <==> |s| % 2 == 0 && IsHexText(s)
    ensures r.Ok? ==> |r.value| == |s| / 2
    decreases |s|
  {
    if s == "" then Ok([])
    else if |s| == 1 then Error
    else
      var high, low := Nibble(s[0]), Nibble(s[1]);
      if high < 0 || low < 0 then Error
      else
        match Decode(s[2..])
        case Ok(rest) => Ok([high * 16 + low] + rest)
        case Error => Error
  }

  // Digits of either case, and nothing else, have a value.
  lemma NibbleIff(c: char)
    ensures Nibble(c) == -1 || 0 <= Nibble(c) < 16
    ensures forall v: nat | v < 16 :: Nibble(c) == v <==> c == "0123456789ABCDEF"[v] || c == "0123456789abcdef"[v]
  {
  }

  // Every two characters are one octet, the first of them its high half.
  predicate IsPair(s: string, data: seq<byte>, i: nat)
    requires |s| == 2 * |data| && i < |data|
  {
    Nibble(s[2 * i]) == data[i] as int / 16 && Nibble(s[2 * i + 1]) == data[i] as int % 16
  }

  lemma {:induction false} DecodeIff(s: string, data: seq<byte>)
    ensures Decode(s) == Ok(data) <==> |s| == 2 * |data| && forall i | 0 <= i < |data| :: IsPair(s, data, i)
    decreases |s|
  {
    if |s| >= 2 && data != [] {
      DecodeIff(s[2..], data[1..]);
      FirstPair(s, data);
      if |s| == 2 * |data| {
        hide Nibble;
        forall i | 0 <= i < |data| - 1
          ensures IsPair(s[2..], data[1..], i) == IsPair(s, data, i + 1)
        {
          assert s[2..][2 * i] == s[2 * (i + 1)] && s[2..][2 * i + 1] == s[2 * (i + 1) + 1];
        }
        PairsFromFirst(s, data);
      }
    }
  }

  lemma FirstPair(s: string, data: seq<byte>)
    requires |s| >= 2 && data != []
    ensures Decode(s) == Ok(data) <==>
      && Nibble(s[0]) == data[0] as int / 16 && Nibble(s[1]) == data[0] as int % 16
      && Decode(s[2..]) == Ok(data[1..])
  {
    assert data == [data[0]] + data[1..];
    hide Nibble;
  }

  lemma PairsFromFirst(s: string, data: seq<byte>)
    requires |s| == 2 * |data| > 0
    requires forall i | 0 <= i < |data| - 1 :: IsPair(s[2..], data[1..], i) == IsPair(s, data, i + 1)
    ensures (forall i | 0 <= i < |data| :: IsPair(s, data, i)) <==>
      IsPair(s, data, 0) && forall i | 0 <= i < |data| - 1 :: IsPair(s[2..], data[1..], i)
  {
    hide IsPair;
    if IsPair(s, data, 0) && forall i | 0 <= i < |data| - 1 :: IsPair(s[2..], data[1..], i) {
      forall i | 0 <= i < |data|
        ensures IsPair(s, data, i)
      {
        if i > 0 {
          assert IsPair(s[2..], data[1..], i - 1) == IsPair(s, data, i - 1 + 1);
        }
      }
    }
    if forall i | 0 <= i < |data| :: IsPair(s, data, i) {
      forall i | 0 <= i < |data| - 1
        ensures IsPair(s[2..], data[1..], i)
      {
        assert IsPair(s, data, i + 1);
      }
    }
  }

  // bytes.hex().upper() of the Python tools.
  function Encode(data: seq<byte>): (s: string)
    ensures |s| == 2 * |data|
  {
    if data == [] then "" else [UpperDigit(data[0] / 16), UpperDigit(data[0] % 16)] + Encode(data[1..])
  }

  lemma {:induction false} DecodeEncode(data: seq<byte>)
    ensures Decode(Encode(data)) == Ok(data)
  {
    if data != [] {
      DecodeEncode(data[1..]);
      assert Encode(data)[2..] == Encode(data[1..]);
      assert data == [data[0]] + data[1..];
    }
  }

  lemma {:induction false} EncodeIsPlain(data: seq<byte>)
    ensures forall c | c in Encode(data) :: IsUpperDigit(c)
  {
    if data != [] {
      EncodeIsPlain(data[1..]);
    }
  }

  predicate IsUpperDigit(c: char) {
    '0' <= c <= '9' || 'A' <= c <= 'F'
  }

  // ---------- Records ----------

  function Sum(row: seq<byte>): nat {
    if row == [] then 0 else Sum(row[..|row| - 1]) + row[|row| - 1]
  }

  lemma {:induction false} SumConcat(a: seq<byte>, b: seq<byte>)
    ensures Sum(a + b) == Sum(a) + Sum(b)
  {
    if b == [] {
      assert a + b == a;
    } else {
      assert (a + b)[..|a + b| - 1] == a + b[..|b| - 1];
      SumConcat(a, b[..|b| - 1]);
    }
  }

  lemma SumEmpty()
    ensures Sum([]) == 0
  {
  }

  lemma OneMoreSum(row: seq<byte>, k: nat)
    requires k < |row|
    ensures Sum(row[..k + 1]) == Sum(row[..k]) + row[k]
  {
    assert row[..k + 1][..k] == row[..k];
  }

  // Byte count and checksum agree.
  predicate IsRecord(row: seq<byte>) {
    |row| >= 5 && |row| == (row[0] as nat) + 5 && Sum(row) % 0x100 == 0
  }

  function Address(row: seq<byte>): nat
    requires IsRecord(row)
  {
    BigEndian(row[1], row[2])
  }

  function Kind(row: seq<byte>): byte
    requires IsRecord(row)
  {
    row[3]
  }

  function Data(row: seq<byte>): (d: seq<byte>)
    requires IsRecord(row)
    ensures |d| == row[0]
  {
    row[4..|row| - 1]
  }

  // Changing a single octet of a record, whatever it is, makes it none.
  lemma RecordDamageDetected(row: seq<byte>, i: nat, b: byte)
    requires IsRecord(row) && i < |row| && b != row[i]
    ensures !IsRecord(row[i := b])
  {
    SumOfChanged(row, i, b);
    hide Sum;
  }

  lemma {:induction false} SumOfChanged(row: seq<byte>, i: nat, b: byte)
    requires i < |row|
    ensures Sum(row[i := b]) == Sum(row) - row[i] + b
    decreases |row|
  {
    var k := |row| - 1;
    if i < k {
      SumOfChanged(row[..k], i, b);
      assert row[i := b][..k] == row[..k][i := b];
    } else {
      assert row[i := b][..k] == row[..k];
    }
  }

  // A record with its checksum.
  function MakeRecord(address: nat, kind: byte, data: seq<byte>): (row: seq<byte>)
    requires address < 0x1_0000 && |data| < 0x100
    ensures IsRecord(row) && Address(row) == address && Kind(row) == kind && Data(row) == data
  {
    var body := [|data|, address / 0x100, address % 0x100, kind] + data;
    var row := body + [(0x100 - Sum(body) % 0x100) % 0x100];
    assert row[..|row| - 1] == body;
    row
  }

  // ---------- What the records mean ----------

  // Memory read so far, the current base address, and whether the end-of-file
  // record has been seen.
  datatype Image = Image(memory: map<nat, byte>, base: nat, ended: bool)

  const EMPTY := Image(map[], 0, false)

  predicate Free(memory: map<nat, byte>, from: nat, size: nat) {
    forall a | from <= a < from + size :: a !in memory
  }

  function Store(memory: map<nat, byte>, from: nat, data: seq<byte>): (r: map<nat, byte>)
    ensures forall a :: a in r <==> a in memory || from <= a < from + |data|
    ensures forall a | a in r :: r[a] == if from <= a < from + |data| then data[a - from] else memory[a]
  {
    if data == [] then memory
    else
      var k := |data| - 1;
      Store(memory, from, data[..k])[from + k := data[k]]
  }

  // One record. Data that would be stored twice is an error, and so is data
  // that ends above the limit.
  function Apply(image: Image, row: seq<byte>, limit: nat): Result<Image>
    requires IsRecord(row)
  {
    var addr, data := Address(row), Data(row);
    match Kind(row)
    case 0 =>
      var start := image.base + addr;
      if start + |data| > limit || !Free(image.memory, start, |data|) then Error
      else Ok(image.(memory := Store(image.memory, start, data)))
    case 1 => if addr == 0 && data == [] then Ok(image.(ended := true)) else Error
    case 2 => if addr == 0 && |data| == 2 then Ok(image.(base := BigEndian(data[0], data[1]) * 0x10)) else Error
    case 4 => if addr == 0 && |data| == 2 then Ok(image.(base := BigEndian(data[0], data[1]) * 0x1_0000)) else Error
    case 3 => if addr == 0 && |data| == 4 then Ok(image) else Error
    case 5 => if addr == 0 && |data| == 4 then Ok(image) else Error
    case _ => Error
  }

  // No limit: larger than any address a record can name.
  const UNLIMITED: nat := 0x1_0000_0000 + 0x1_0000 + 0x100

  // A reader with a lower limit accepts fewer images, and the same memory.
  lemma ApplyMonotone(image: Image, row: seq<byte>, limit: nat, higher: nat)
    requires IsRecord(row) && limit <= higher
    ensures Apply(image, row, limit).Ok? ==> Apply(image, row, higher) == Apply(image, row, limit)
  {
  }

  // ---------- Lines ----------

  // Text cut at every character of a set; where lines that are empty do not
  // count it does not matter that CR LF makes two cuts.
  function Lines(text: string, breaks: set<char>): (lines: seq<string>)
    ensures |lines| > 0
  {
    if text == "" then [""]
    else
      var k := |text| - 1;
      var before := Lines(text[..k], breaks);
      if text[k] in breaks then before + [""]
      else before[..|before| - 1] + [before[|before| - 1] + [text[k]]]
  }

  // '\n'.join(lines) + '\n'
  function Text(lines: seq<string>): string {
    if lines == [] then "" else Text(lines[..|lines| - 1]) + lines[|lines| - 1] + "\n"
  }

  predicate Without(line: string, breaks: set<char>) {
    forall i | 0 <= i < |line| :: line[i] !in breaks
  }

  lemma {:induction false} LinesAppend(text: string, line: string, breaks: set<char>)
    requires Without(line, breaks)
    ensures var before := Lines(text, breaks);
      Lines(text + line, breaks) == before[..|before| - 1] + [before[|before| - 1] + line]
    decreases |line|
  {
    var before := Lines(text, breaks);
    if line == "" {
      assert text + line == text;
      assert before[|before| - 1] + line == before[|before| - 1];
      assert before == before[..|before| - 1] + [before[|before| - 1]];
    } else {
      var k := |line| - 1;
      LinesAppend(text, line[..k], breaks);
      assert (text + line)[..|text + line| - 1] == text + line[..k];
      assert before[|before| - 1] + line == before[|before| - 1] + line[..k] + [line[k]];
    }
  }

  // Cutting joined lines gives the lines back.
  lemma {:induction false} LinesOfText(lines: seq<string>, breaks: set<char>)
    requires '\n' in breaks && forall l | l in lines :: Without(l, breaks)
    ensures Lines(Text(lines), breaks) == lines + [""]
    decreases |lines|
  {
    if lines != [] {
      hide Lines;
      var k := |lines| - 1;
      var before := Text(lines[..k]);
      LinesOfText(lines[..k], breaks);
      assert lines[k] in lines;
      LinesAppend(before, lines[k], breaks);
      LastFilled(lines);
      BreakAdds(before + lines[k], breaks);
    }
  }

  lemma LastFilled(lines: seq<string>)
    requires lines != []
    ensures var before := lines[..|lines| - 1] + [""];
      before[..|before| - 1] + [before[|before| - 1] + lines[|lines| - 1]] == lines
  {
    assert "" + lines[|lines| - 1] == lines[|lines| - 1];
  }

  lemma BreakAdds(text: string, breaks: set<char>)
    requires '\n' in breaks
    ensures Lines(text + "\n", breaks) == Lines(text, breaks) + [""]
  {
    assert (text + "\n")[..|text|] == text;
  }

  // A record as a line of text.
  function Line(row: seq<byte>): string {
    ":" + Encode(row)
  }

  // ---------- Reading lines ----------

  // The Python tools and the desktop application differ in how they turn a
  // line into the octets of a record.
  datatype Dialect = Python | Desktop

  const SPACES: set<char> := {' ', '\t', '\n', '\r', '\U{b}', '\U{c}'}

  // bytes.fromhex: white space between octets is skipped.
  function FromHex(s: string): Result<seq<byte>>
    decreases |s|
  {
    if s == "" then Ok([])
    else if s[0] in SPACES then FromHex(s[1..])
    else if |s| == 1 then Error
    else
      var high, low := Nibble(s[0]), Nibble(s[1]);
      if high < 0 || low < 0 then Error
      else
        match FromHex(s[2..])
        case Ok(rest) => Ok([high * 16 + low] + rest)
        case Error => Error
  }

  lemma {:induction false} FromHexPlain(s: string)
    requires Without(s, SPACES)
    ensures FromHex(s) == Decode(s)
    decreases |s|
  {
    if |s| >= 2 {
      assert s[0] !in SPACES;
      FromHexPlain(s[2..]);
    }
  }

  // QByteArray::trimmed
  function Trim(s: string): (r: string)
    ensures r == "" || (r[0] !in SPACES && r[|r| - 1] !in SPACES)
    ensures Without(s, SPACES) ==> r == s
    decreases |s|
  {
    if s == "" then ""
    else if s[0] in SPACES then Trim(s[1..])
    else if s[|s| - 1] in SPACES then Trim(s[..|s| - 1])
    else s
  }

  // The octets of a line that is not blank.
  function Row(d: Dialect, line: string): (r: Result<seq<byte>>)
    ensures r.Ok? ==> IsRecord(r.value)
  {
    if line == "" || line[0] != ':' then Error
    else
      match if d.Python? then FromHex(line[1..]) else Decode(line[1..])
      case Ok(row) => if IsRecord(row) then Ok(row) else Error
      case Error => Error
  }

  // What is read from one line: blank lines do nothing, and nothing else may
  // follow the end-of-file record.
  function ReadLine(d: Dialect, image: Image, text: string, limit: nat): Result<Image> {
    var line := if d.Python? then text else Trim(text);
    if line == "" then Ok(image)
    else if image.ended then Error
    else
      match Row(d, line)
      case Ok(row) => Apply(image, row, limit)
      case Error => Error
  }

  function ReadLines(d: Dialect, lines: seq<string>, limit: nat): Result<Image> {
    if lines == [] then Ok(EMPTY)
    else
      var k := |lines| - 1;
      match ReadLines(d, lines[..k], limit)
      case Ok(image) => ReadLine(d, image, lines[k], limit)
      case Error => Error
  }

  lemma {:induction false} ErrorStays(d: Dialect, lines: seq<string>, k: nat, limit: nat)
    requires k <= |lines| && ReadLines(d, lines[..k], limit) == Error
    ensures ReadLines(d, lines, limit) == Error
    decreases |lines| - k
  {
    if k == |lines| {
      assert lines[..k] == lines;
    } else {
      assert lines[..k + 1][..k] == lines[..k];
      ErrorStays(d, lines, k + 1, limit);
    }
  }

  // On lines without white space the two dialects agree.
  lemma LineAgrees(image: Image, line: string, limit: nat)
    requires Without(line, SPACES)
    ensures ReadLine(Python, image, line, limit) == ReadLine(Desktop, image, line, limit)
  {
    if line != "" {
      FromHexPlain(line[1..]);
    }
  }

  // A reader with a lower limit accepts no more, and reads the same.
  lemma LineMonotone(d: Dialect, image: Image, line: string, limit: nat, higher: nat)
    requires limit <= higher
    ensures ReadLine(d, image, line, limit).Ok? ==>
      ReadLine(d, image, line, higher) == ReadLine(d, image, line, limit)
  {
    hide IsRecord, Trim, FromHex, Decode;
    var text := if d.Python? then line else Trim(line);
    var row := Row(d, text);
    if row.Ok? {
      ApplyMonotone(image, row.value, limit, higher);
    }
  }

  // The line writes nothing at or above the limit.
  predicate Below(d: Dialect, image: Image, text: string, limit: nat) {
    var line := if d.Python? then text else Trim(text);
    line != "" ==>
      match Row(d, line)
      case Ok(row) => Kind(row) == 0 ==> image.base + Address(row) + |Data(row)| <= limit
      case Error => true
  }

  // The lower limit makes a difference exactly when a record crosses it.
  lemma LineLimitIff(d: Dialect, image: Image, line: string, limit: nat, higher: nat)
    requires limit <= higher && ReadLine(d, image, line, higher).Ok?
    ensures ReadLine(d, image, line, limit).Ok? <==> Below(d, image, line, limit)
  {
    hide IsRecord, Trim, FromHex, Decode, Free, Store;
  }
}
