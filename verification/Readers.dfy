// The two decoders of Intel HEX text side by side: when the Python tools and
// the desktop application read the same from a text, for every text.
module Readers {
  import opened IntelHex
  import opened HexImage

  // QByteArray::split('\n')
  const LINE_FEED: set<char> := {'\n'}

  // White space at which Python does not cut lines.
  const BLANKS: set<char> := {' ', '\t'}

  // Reading on from some state.
  function ReadFrom(d: Dialect, image: Image, lines: seq<string>, limit: nat): Result<Image> {
    if lines == [] then Ok(image)
    else
      match ReadFrom(d, image, lines[..|lines| - 1], limit)
      case Ok(next) => ReadLine(d, next, lines[|lines| - 1], limit)
      case Error => Error
  }

  function Then(d: Dialect, r: Result<Image>, lines: seq<string>, limit: nat): Result<Image> {
    match r
    case Ok(image) => ReadFrom(d, image, lines, limit)
    case Error => Error
  }

  lemma {:induction false} ReadAppend(d: Dialect, lines: seq<string>, more: seq<string>, limit: nat)
    ensures ReadLines(d, lines + more, limit) == Then(d, ReadLines(d, lines, limit), more, limit)
    decreases |more|
  {
    hide ReadLine;
    if more == [] {
      assert lines + more == lines;
    } else {
      var k := |more| - 1;
      ReadAppend(d, lines, more[..k], limit);
      assert (lines + more)[..|lines + more| - 1] == lines + more[..k];
    }
  }

  lemma {:induction false} ReadFromAppend(d: Dialect, image: Image, lines: seq<string>, more: seq<string>, limit: nat)
    ensures ReadFrom(d, image, lines + more, limit) == Then(d, ReadFrom(d, image, lines, limit), more, limit)
    decreases |more|
  {
    hide ReadLine;
    if more == [] {
      assert lines + more == lines;
    } else {
      var k := |more| - 1;
      ReadFromAppend(d, image, lines, more[..k], limit);
      assert (lines + more)[..|lines + more| - 1] == lines + more[..k];
    }
  }

  lemma ReadOne(d: Dialect, image: Image, line: string, limit: nat)
    ensures ReadFrom(d, image, [line], limit) == ReadLine(d, image, line, limit)
  {
    assert [line][..0] == [];
    hide ReadLine;
  }

  lemma BlankIsSkipped(d: Dialect, image: Image, limit: nat)
    ensures ReadFrom(d, image, [""], limit) == Ok(image)
  {
    ReadOne(d, image, "", limit);
  }

  // ---------- Lines ----------

  function Init(lines: seq<string>): seq<string>
    requires |lines| > 0
  {
    lines[..|lines| - 1]
  }

  function Last(lines: seq<string>): string
    requires |lines| > 0
  {
    lines[|lines| - 1]
  }

  lemma JoinLast(lines: seq<string>)
    requires |lines| > 0
    ensures Init(lines) + [Last(lines)] == lines
  {
  }

  // How one more character at the end changes the last line.
  lemma AppendCharacter(text: string, c: char, breaks: set<char>)
    ensures var before, after := Lines(text, breaks), Lines(text + [c], breaks);
      if c in breaks then after == before + [""]
      else after == Init(before) + [Last(before) + [c]]
  {
    assert (text + [c])[..|text|] == text;
  }

  // How one more character at the start changes the first line.
  lemma {:induction false} PrependCharacter(c: char, text: string, breaks: set<char>)
    ensures var before, after := Lines(text, breaks), Lines([c] + text, breaks);
      if c in breaks then after == [""] + before
      else after == [[c] + before[0]] + before[1..]
    decreases |text|
  {
    if text == "" {
      OneCharacter(c, breaks);
      assert [c] + text == [c];
    } else {
      hide Lines;
      var k := |text| - 1;
      PrependCharacter(c, text[..k], breaks);
      assert text == text[..k] + [text[k]];
      assert [c] + text == ([c] + text[..k]) + [text[k]];
      AppendCharacter(text[..k], text[k], breaks);
      AppendCharacter([c] + text[..k], text[k], breaks);
      AppendInside(c, text[k], c in breaks, text[k] in breaks, Lines(text[..k], breaks),
                   Lines([c] + text[..k], breaks));
    }
  }

  lemma OneCharacter(c: char, breaks: set<char>)
    ensures Lines("", breaks) == [""]
    ensures Lines([c], breaks) == if c in breaks then ["", ""] else [[c]]
  {
    assert [c][..0] == "";
    assert "" + [c] == [c];
  }

  lemma AppendInside(c: char, x: char, cuts: bool, ends: bool, inner: seq<string>, whole: seq<string>)
    requires |inner| > 0
    requires whole == if cuts then [""] + inner else [[c] + inner[0]] + inner[1..]
    ensures |whole| > 0
    ensures var before := if ends then inner + [""] else Init(inner) + [Last(inner) + [x]];
      var after := if ends then whole + [""] else Init(whole) + [Last(whole) + [x]];
      after == if cuts then [""] + before else [[c] + before[0]] + before[1..]
  {
    if !cuts && |inner| == 1 {
      assert [c] + inner[0] + [x] == [c] + (inner[0] + [x]);
    }
  }

  // The lines that Python makes of each line of the desktop application.
  function Pieces(lines: seq<string>): seq<string> {
    if lines == [] then [] else Pieces(lines[..|lines| - 1]) + Lines(lines[|lines| - 1], BREAKS)
  }

  lemma PiecesLast(lines: seq<string>, last: string)
    ensures Pieces(lines + [last]) == Pieces(lines) + Lines(last, BREAKS)
  {
    assert (lines + [last])[..|lines|] == lines;
  }

  lemma {:induction false} LinesArePieces(text: string)
    ensures Lines(text, BREAKS) == Pieces(Lines(text, LINE_FEED))
    decreases |text|
  {
    if text == "" {
      PiecesLast([], "");
      assert Pieces([]) + Lines("", BREAKS) == Lines("", BREAKS);
      assert Lines("", LINE_FEED) == [] + [""];
    } else {
      var k := |text| - 1;
      var c := text[k];
      assert text == text[..k] + [c];
      LinesArePieces(text[..k]);
      AppendCharacter(text[..k], c, BREAKS);
      AppendCharacter(text[..k], c, LINE_FEED);
      var lines := Lines(text[..k], LINE_FEED);
      AppendCharacter(Last(lines), c, BREAKS);
      PiecesLast(lines, "");
      JoinLast(lines);
      PiecesLast(Init(lines), Last(lines));
      PiecesLast(Init(lines), Last(lines) + [c]);
      assert Lines("", BREAKS) == [""];
      hide Lines, Pieces;
      if c != '\n' {
        EndsLater(Pieces(Init(lines)), Lines(Last(lines), BREAKS), c);
      }
    }
  }

  lemma EndsLater(front: seq<string>, back: seq<string>, c: char)
    requires |back| > 0
    ensures front + (back + [""]) == front + back + [""]
    ensures front + (Init(back) + [Last(back) + [c]]) == Init(front + back) + [Last(front + back) + [c]]
  {
  }

  // ---------- One line ----------

  // What Python reads from one line of the desktop application.
  function ReadPieces(image: Image, line: string, limit: nat): Result<Image> {
    ReadFrom(Python, image, Lines(line, BREAKS), limit)
  }

  // No line, as Python cuts them, starts with a blank.
  predicate Flush(lines: seq<string>) {
    forall i | 0 <= i < |lines| :: FlushLine(lines[i])
  }

  predicate FlushLine(line: string) {
    line == "" || line[0] !in BLANKS
  }

  // A word without white space or line separators.
  predicate Unbroken(word: string) {
    Without(word, SPACES) && Without(word, BREAKS)
  }

  lemma {:induction false} PythonNeedsFlush(image: Image, lines: seq<string>, limit: nat)
    requires ReadFrom(Python, image, lines, limit).Ok?
    ensures Flush(lines)
    decreases |lines|
  {
    if lines != [] {
      var k := |lines| - 1;
      PythonNeedsFlush(image, lines[..k], limit);
      assert lines == lines[..k] + [lines[k]];
      hide FromHex, Apply, IsRecord;
    }
  }

  lemma DesktopNeedsUnbroken(image: Image, line: string, limit: nat)
    requires ReadLine(Desktop, image, line, limit).Ok?
    ensures Unbroken(Trim(line))
  {
    var word := Trim(line);
    hide Trim, Apply, IsRecord;
    if word != "" {
      assert word[0] == ':' && IsHexText(word[1..]);
      assert forall i | 1 <= i < |word| :: word[i] == word[1..][i - 1];
      forall i | 0 <= i < |word|
        ensures word[i] !in SPACES && word[i] !in BREAKS
      {
        if i > 0 {
          HexDigitIsPlain(word[1..][i - 1]);
        }
      }
    }
  }

  lemma HexDigitIsPlain(c: char)
    requires Nibble(c) >= 0
    ensures c !in SPACES && c !in BREAKS
  {
  }

  // Blanks after a record do not matter to bytes.fromhex.
  lemma {:induction false} FromHexTrailing(s: string, c: char)
    requires c in SPACES
    ensures FromHex(s + [c]) == FromHex(s)
    decreases |s|
  {
    var t := s + [c];
    assert Nibble(c) < 0;
    if s == "" {
      assert t[1..] == "";
    } else if s[0] in SPACES {
      assert t[1..] == s[1..] + [c];
      FromHexTrailing(s[1..], c);
    } else if |s| >= 2 {
      assert t[2..] == s[2..] + [c];
      FromHexTrailing(s[2..], c);
    }
  }

  lemma TrailingBlank(image: Image, line: string, c: char, limit: nat)
    requires c in BLANKS && line != ""
    ensures ReadLine(Python, image, line + [c], limit) == ReadLine(Python, image, line, limit)
  {
    FromHexTrailing(line[1..], c);
    assert (line + [c])[1..] == line[1..] + [c];
    hide FromHex, Apply, IsRecord;
  }

  // White space taken off either end, where no line starts with a blank.
  lemma TrimFront(image: Image, c: char, line: string, limit: nat)
    requires c in SPACES && Flush(Lines([c] + line, BREAKS))
    ensures Flush(Lines(line, BREAKS))
    ensures ReadPieces(image, [c] + line, limit) == ReadPieces(image, line, limit)
  {
    PrependCharacter(c, line, BREAKS);
    var before, after := Lines(line, BREAKS), Lines([c] + line, BREAKS);
    assert FlushLine(after[0]);
    assert c in BREAKS;
    hide Lines, ReadFrom;
    assert forall i | 0 <= i < |before| :: before[i] == after[i + 1];
    ReadFromAppend(Python, image, [""], before, limit);
    BlankIsSkipped(Python, image, limit);
  }

  lemma TrimBack(image: Image, line: string, c: char, limit: nat)
    requires c in SPACES && Flush(Lines(line + [c], BREAKS))
    ensures Flush(Lines(line, BREAKS))
    ensures ReadPieces(image, line + [c], limit) == ReadPieces(image, line, limit)
  {
    AppendCharacter(line, c, BREAKS);
    var before := Lines(line, BREAKS);
    hide Lines, Flush;
    if c in BREAKS {
      FlushParts(before, [""]);
      ReadFromAppend(Python, image, before, [""], limit);
      hide ReadFrom;
      var r := ReadFrom(Python, image, before, limit);
      if r.Ok? {
        BlankIsSkipped(Python, r.value, limit);
      }
    } else {
      JoinLast(before);
      BlankAtEnd(image, Init(before), Last(before), c, limit);
    }
  }

  lemma BlankAtEnd(image: Image, front: seq<string>, last: string, c: char, limit: nat)
    requires c in BLANKS && Flush(front + [last + [c]])
    ensures Flush(front + [last])
    ensures ReadFrom(Python, image, front + [last + [c]], limit) == ReadFrom(Python, image, front + [last], limit)
  {
    FlushParts(front, [last + [c]]);
    FlushParts(front, [last]);
    assert [last + [c]][0] == last + [c];
    assert last != "" && (last + [c])[0] == last[0];
    hide ReadFrom, ReadLine;
    ReadFromAppend(Python, image, front, [last], limit);
    ReadFromAppend(Python, image, front, [last + [c]], limit);
    var r := ReadFrom(Python, image, front, limit);
    if r.Ok? {
      ReadOne(Python, r.value, last, limit);
      ReadOne(Python, r.value, last + [c], limit);
      TrailingBlank(r.value, last, c, limit);
    }
  }

  lemma {:induction false} TrimBoth(image: Image, line: string, limit: nat)
    requires Flush(Lines(line, BREAKS))
    ensures ReadPieces(image, line, limit) == ReadPieces(image, Trim(line), limit)
    decreases |line|
  {
    hide ReadPieces, Lines, Flush;
    if line == "" {
    } else if line[0] in SPACES {
      assert line == [line[0]] + line[1..];
      TrimFront(image, line[0], line[1..], limit);
      TrimBoth(image, line[1..], limit);
    } else if line[|line| - 1] in SPACES {
      var k := |line| - 1;
      assert line == line[..k] + [line[k]];
      TrimBack(image, line[..k], line[k], limit);
      TrimBoth(image, line[..k], limit);
    }
  }

  lemma {:induction false} UnbrokenIsOneLine(word: string)
    requires Without(word, BREAKS)
    ensures Lines(word, BREAKS) == [word]
    decreases |word|
  {
    if word != "" {
      var k := |word| - 1;
      assert forall i | 0 <= i < k :: word[..k][i] == word[i];
      UnbrokenIsOneLine(word[..k]);
      AppendCharacter(word[..k], word[k], BREAKS);
      assert word == word[..k] + [word[k]];
    }
  }

  // A line in this form is read the same by both.
  lemma SameLine(image: Image, line: string, limit: nat)
    requires Flush(Lines(line, BREAKS)) && Unbroken(Trim(line))
    ensures ReadPieces(image, line, limit) == ReadLine(Desktop, image, line, limit)
  {
    var word := Trim(line);
    TrimBoth(image, line, limit);
    UnbrokenIsOneLine(word);
    ReadOne(Python, image, word, limit);
    LineAgrees(image, word, limit);
    hide ReadFrom, Apply, IsRecord, Decode;
  }

  // For every line: each reader accepts only one of the two forms, and then
  // both agree exactly when the line has the other form as well.
  lemma LineAgreesIff(image: Image, line: string, limit: nat)
    ensures var p, d := ReadPieces(image, line, limit), ReadLine(Desktop, image, line, limit);
      var flush, bare := Flush(Lines(line, BREAKS)), Unbroken(Trim(line));
      && (p.Ok? ==> flush) && (d.Ok? ==> bare)
      && (p.Ok? && d.Ok? ==> p == d)
      && (d.Ok? && flush <==> p.Ok? && bare)
      && (p == d <==> (flush && bare) || (p.Error? && d.Error?))
  {
    hide Flush, Lines, ReadFrom, ReadLine;
    if ReadPieces(image, line, limit).Ok? {
      PythonNeedsFlush(image, Lines(line, BREAKS), limit);
    }
    if ReadLine(Desktop, image, line, limit).Ok? {
      DesktopNeedsUnbroken(image, line, limit);
    }
    if Flush(Lines(line, BREAKS)) && Unbroken(Trim(line)) {
      SameLine(image, line, limit);
    }
  }

  // ---------- Whole texts ----------

  // Every line, as the desktop application cuts and trims them, is unbroken.
  predicate Bare(lines: seq<string>) {
    forall i | 0 <= i < |lines| :: Unbroken(Trim(lines[i]))
  }

  lemma {:induction false} DesktopNeedsBare(lines: seq<string>, limit: nat)
    requires ReadLines(Desktop, lines, limit).Ok?
    ensures Bare(lines)
    decreases |lines|
  {
    hide ReadLine, Unbroken;
    if lines != [] {
      var k := |lines| - 1;
      DesktopNeedsBare(lines[..k], limit);
      DesktopNeedsUnbroken(ReadLines(Desktop, lines[..k], limit).value, lines[k], limit);
      assert lines == lines[..k] + [lines[k]];
    }
  }

  lemma FlushParts(front: seq<string>, back: seq<string>)
    ensures Flush(front + back) <==> Flush(front) && Flush(back)
  {
    assert forall i | 0 <= i < |front| :: (front + back)[i] == front[i];
    assert forall i | 0 <= i < |back| :: (front + back)[|front| + i] == back[i];
  }

  lemma {:induction false} SameLines(lines: seq<string>, limit: nat)
    requires Flush(Pieces(lines)) && Bare(lines)
    ensures ReadLines(Python, Pieces(lines), limit) == ReadLines(Desktop, lines, limit)
    decreases |lines|
  {
    hide ReadLine, Flush, Unbroken, Lines;
    if lines != [] {
      var k := |lines| - 1;
      FlushParts(Pieces(lines[..k]), Lines(lines[k], BREAKS));
      assert forall i | 0 <= i < k :: lines[..k][i] == lines[i];
      SameLines(lines[..k], limit);
      ReadAppend(Python, Pieces(lines[..k]), Lines(lines[k], BREAKS), limit);
      if ReadLines(Desktop, lines[..k], limit).Ok? {
        SameLine(ReadLines(Desktop, lines[..k], limit).value, lines[k], limit);
      }
    }
  }

  // The two conditions, on a text.
  predicate FlushText(text: string) {
    Flush(Lines(text, BREAKS))
  }

  predicate BareText(text: string) {
    Bare(Lines(text, LINE_FEED))
  }

  // For every text and every limit: the Python tools accept only flush text,
  // the desktop application only bare text; what both accept they read the
  // same; and where either accepts they agree exactly on text that is both.
  lemma ReadersAgreeIff(text: string, limit: nat)
    ensures var p := ReadLines(Python, Lines(text, BREAKS), limit);
      var d := ReadLines(Desktop, Lines(text, LINE_FEED), limit);
      && (p.Ok? ==> FlushText(text)) && (d.Ok? ==> BareText(text))
      && (p.Ok? && d.Ok? ==> p == d)
      && (d.Ok? && FlushText(text) <==> p.Ok? && BareText(text))
      && (p == d <==> (FlushText(text) && BareText(text)) || (p.Error? && d.Error?))
  {
    LinesArePieces(text);
    hide Lines, Flush, Bare, Pieces;
    if ReadLines(Python, Lines(text, BREAKS), limit).Ok? {
      PythonReads(Lines(text, BREAKS), limit);
      PythonNeedsFlush(EMPTY, Lines(text, BREAKS), limit);
    }
    if ReadLines(Desktop, Lines(text, LINE_FEED), limit).Ok? {
      DesktopNeedsBare(Lines(text, LINE_FEED), limit);
    }
    if FlushText(text) && BareText(text) {
      SameLines(Lines(text, LINE_FEED), limit);
    }
  }

  lemma {:induction false} PythonReads(lines: seq<string>, limit: nat)
    ensures ReadFrom(Python, EMPTY, lines, limit) == ReadLines(Python, lines, limit)
    decreases |lines|
  {
    hide ReadLine;
    if lines != [] {
      PythonReads(lines[..|lines| - 1], limit);
    }
  }

  // ---------- Which characters these are ----------

  // Python cuts a text at line feed, vertical tab, form feed, carriage return,
  // file, group and record separator, next line, and the two separators of
  // Unicode; the desktop application at line feeds only.
  lemma CutsAt(c: char)
    ensures Lines("a" + [c] + "b", BREAKS) == (
      if c as int in {10, 11, 12, 13, 0x1c, 0x1d, 0x1e, 0x85, 0x2028, 0x2029} then ["a", "b"] else ["a" + [c] + "b"])
    ensures Lines("a" + [c] + "b", LINE_FEED) == if c as int == 10 then ["a", "b"] else ["a" + [c] + "b"]
  {
    CharacterCodes(c);
    ThreeCharacters(c, BREAKS);
    ThreeCharacters(c, LINE_FEED);
    hide Lines;
  }

  lemma CharacterCodes(c: char)
    ensures c in BREAKS <==> c as int in {10, 11, 12, 13, 0x1c, 0x1d, 0x1e, 0x85, 0x2028, 0x2029}
    ensures c in LINE_FEED <==> c as int == 10
    ensures c in SPACES <==> c as int in {9, 10, 11, 12, 13, 32}
    ensures 'a' !in BREAKS && 'b' !in BREAKS && 'a' !in LINE_FEED && 'b' !in LINE_FEED
  {
  }

  lemma ThreeCharacters(c: char, breaks: set<char>)
    requires 'a' !in breaks && 'b' !in breaks
    ensures Lines("a" + [c] + "b", breaks) == if c in breaks then ["a", "b"] else ["a" + [c] + "b"]
  {
    OneCharacter('a', breaks);
    AppendCharacter("a", c, breaks);
    AppendCharacter("a" + [c], 'b', breaks);
    hide Lines;
    assert "" + "b" == "b";
  }

  // The desktop application takes off blanks, tabs and the four characters
  // that move on a line or a page; bytes.fromhex skips the same ones.
  lemma TrimsOff(c: char)
    ensures Trim([c]) == if c as int in {9, 10, 11, 12, 13, 32} then "" else [c]
    ensures FromHex([c]) == if c as int in {9, 10, 11, 12, 13, 32} then Ok([]) else Error
  {
    CharacterCodes(c);
    assert [c][1..] == "" && [c][..0] == "";
  }
}
