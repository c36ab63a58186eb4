// What a list of Intel HEX records stands for, stated on the records as a
// whole, and that the readers of both dialects find exactly that.
module HexRecords {
  import opened Octets
  import opened IntelHex

  // ---------- The records of a text ----------

  // What a reader looks at of each line.
  function Trimmed(d: Dialect, lines: seq<string>): (r: seq<string>)
    ensures |r| == |lines|
  {
    seq(|lines|, i requires 0 <= i < |lines| => if d.Python? then lines[i] else Trim(lines[i]))
  }

  // The lines that are not blank are records.
  predicate AllRecords(d: Dialect, lines: seq<string>) {
    forall i | 0 <= i < |lines| :: lines[i] == "" || Row(d, lines[i]).Ok?
  }

  function Records(d: Dialect, lines: seq<string>): (rows: seq<seq<byte>>)
    requires AllRecords(d, lines)
    ensures AreRecords(rows)
  {
    if lines == [] then []
    else
      var k := |lines| - 1;
      assert forall i | 0 <= i < k :: lines[..k][i] == lines[i];
      Records(d, lines[..k]) + if lines[k] == "" then [] else [Row(d, lines[k]).value]
  }

  predicate AreRecords(rows: seq<seq<byte>>) {
    forall i | 0 <= i < |rows| :: IsRecord(rows[i])
  }

  // ---------- Where they store ----------

  // The base address set by the last extended-address record.
  function BaseAfter(rows: seq<seq<byte>>): (base: nat)
    requires AreRecords(rows)
    ensures base <= 0xffff_0000
    decreases |rows|
  {
    if rows == [] then 0
    else
      var k := |rows| - 1;
      var data := Data(rows[k]);
      assert forall i | 0 <= i < k :: rows[..k][i] == rows[i];
      if Kind(rows[k]) == 2 && |data| == 2 then BigEndian(data[0], data[1]) * 0x10
      else if Kind(rows[k]) == 4 && |data| == 2 then BigEndian(data[0], data[1]) * 0x1_0000
      else BaseAfter(rows[..k])
  }

  // Where the k-th record would store its data.
  function StartOf(rows: seq<seq<byte>>, k: nat): nat
    requires AreRecords(rows) && k < |rows|
  {
    assert forall i | 0 <= i < k :: rows[..k][i] == rows[i];
    BaseAfter(rows[..k]) + Address(rows[k])
  }

  // A region of memory.
  datatype Region = Region(start: nat, data: seq<byte>)
  {
    function End(): nat { start + |data| }
    predicate Has(a: nat) { start <= a < End() }
  }

  // What the data records store, in their order.
  function Regions(rows: seq<seq<byte>>): seq<Region>
    requires AreRecords(rows)
    decreases |rows|
  {
    if rows == [] then []
    else
      var k := |rows| - 1;
      assert forall i | 0 <= i < k :: rows[..k][i] == rows[i];
      Regions(rows[..k]) + if Kind(rows[k]) == 0 then [Region(StartOf(rows, k), Data(rows[k]))] else []
  }

  // ---------- What a reader accepts ----------

  // Of a known kind, in the shape that its kind demands.
  predicate WellFormed(row: seq<byte>)
    requires IsRecord(row)
  {
    || Kind(row) == 0
    || (Kind(row) == 1 && Address(row) == 0 && |Data(row)| == 0)
    || (Kind(row) in {2, 4} && Address(row) == 0 && |Data(row)| == 2)
    || (Kind(row) in {3, 5} && Address(row) == 0 && |Data(row)| == 4)
  }

  predicate AllWellFormed(rows: seq<seq<byte>>)
    requires AreRecords(rows)
  {
    forall k | 0 <= k < |rows| :: WellFormed(rows[k])
  }

  // An end-of-file record may only be the last.
  predicate EndIsLast(rows: seq<seq<byte>>)
    requires AreRecords(rows)
  {
    forall k | 0 <= k < |rows| - 1 :: Kind(rows[k]) != 1
  }

  predicate Ended(rows: seq<seq<byte>>)
    requires AreRecords(rows)
  {
    rows != [] && Kind(rows[|rows| - 1]) == 1
  }

  predicate AllBelow(regions: seq<Region>, limit: nat) {
    forall k | 0 <= k < |regions| :: regions[k].End() <= limit
  }

  ghost predicate Apart(p: Region, q: Region) {
    forall a: nat :: !(p.Has(a) && q.Has(a))
  }

  // Nothing is stored twice.
  ghost predicate AllApart(regions: seq<Region>) {
    forall i, j | 0 <= i < j < |regions| :: Apart(regions[i], regions[j])
  }

  ghost predicate Readable(rows: seq<seq<byte>>, limit: nat)
    requires AreRecords(rows)
  {
    && AllWellFormed(rows) && EndIsLast(rows)
    && AllBelow(Regions(rows), limit) && AllApart(Regions(rows))
  }

  // The memory holds what the regions store, and nothing else.
  ghost predicate Holds(regions: seq<Region>, memory: map<nat, byte>) {
    && (forall a | a in memory :: InSome(regions, a))
    && (forall k | 0 <= k < |regions| :: Stored(regions[k], memory))
  }

  predicate InSome(regions: seq<Region>, a: nat) {
    exists k | 0 <= k < |regions| :: regions[k].Has(a)
  }

  ghost predicate Stored(p: Region, memory: map<nat, byte>) {
    forall a: nat | p.Has(a) :: a in memory && memory[a] == p.data[a - p.start]
  }

  // There is only one such memory.
  lemma HoldsOne(regions: seq<Region>, m: map<nat, byte>, n: map<nat, byte>)
    requires Holds(regions, m) && Holds(regions, n)
    ensures m == n
  {
    forall a: nat
      ensures a in m <==> a in n
      ensures a in m ==> m[a] == n[a]
    {
      if InSome(regions, a) {
        var k :| 0 <= k < |regions| && regions[k].Has(a);
        assert Stored(regions[k], m) && Stored(regions[k], n);
      }
    }
  }

  // ---------- One more region ----------

  lemma FreeIffApart(regions: seq<Region>, p: Region, memory: map<nat, byte>)
    requires Holds(regions, memory) && AllApart(regions)
    ensures Free(memory, p.start, |p.data|) <==> AllApart(regions + [p])
  {
    var more, n := regions + [p], |regions|;
    if Free(memory, p.start, |p.data|) {
      forall i, j | 0 <= i < j < |more|
        ensures Apart(more[i], more[j])
      {
        if j == n {
          assert Stored(regions[i], memory);
          FreeOfStored(regions[i], p, memory);
        } else {
          assert Apart(regions[i], regions[j]);
        }
      }
    } else {
      var a :| p.start <= a < p.start + |p.data| && a in memory;
      assert InSome(regions, a);
      var k :| 0 <= k < n && regions[k].Has(a);
      assert p.Has(a) && !Apart(regions[k], p);
      assert more[k] == regions[k] && more[n] == p;
    }
  }

  lemma FreeOfStored(q: Region, p: Region, memory: map<nat, byte>)
    requires Stored(q, memory) && Free(memory, p.start, |p.data|)
    ensures Apart(q, p)
  {
    forall a: nat | q.Has(a)
      ensures !p.Has(a)
    {
    }
  }

  lemma StoredStill(q: Region, p: Region, memory: map<nat, byte>)
    requires Stored(q, memory) && Free(memory, p.start, |p.data|)
    ensures Stored(q, Store(memory, p.start, p.data)) && Stored(p, Store(memory, p.start, p.data))
  {
    hide Store;
    forall a: nat | q.Has(a)
      ensures !p.Has(a)
    {
    }
  }

  lemma HoldsMore(regions: seq<Region>, p: Region, memory: map<nat, byte>)
    requires Holds(regions, memory) && Free(memory, p.start, |p.data|)
    ensures Holds(regions + [p], Store(memory, p.start, p.data))
  {
    var more, after := regions + [p], Store(memory, p.start, p.data);
    hide Store;
    forall a | a in after
      ensures InSome(more, a)
    {
      if a in memory {
        assert InSome(regions, a);
        var k :| 0 <= k < |regions| && regions[k].Has(a);
        assert more[k].Has(a);
      } else {
        assert more[|regions|].Has(a);
      }
    }
    forall k | 0 <= k < |more|
      ensures Stored(more[k], after)
    {
      if k < |regions| {
        assert Stored(regions[k], memory);
        StoredStill(regions[k], p, memory);
      }
    }
  }

  lemma BelowMore(regions: seq<Region>, p: Region, limit: nat)
    ensures AllBelow(regions + [p], limit) <==> AllBelow(regions, limit) && p.End() <= limit
  {
    var more := regions + [p];
    if AllBelow(more, limit) {
      forall k | 0 <= k < |regions|
        ensures regions[k].End() <= limit
      {
        assert more[k] == regions[k];
      }
      assert more[|regions|] == p;
    }
  }

  lemma ApartBefore(regions: seq<Region>, p: Region)
    requires AllApart(regions + [p])
    ensures AllApart(regions)
  {
    var more := regions + [p];
    hide Apart;
    forall i, j | 0 <= i < j < |regions|
      ensures Apart(regions[i], regions[j])
    {
      assert Apart(more[i], more[j]);
    }
  }

  // ---------- One more record ----------

  lemma NextRecord(rows: seq<seq<byte>>, row: seq<byte>)
    requires AreRecords(rows) && AreRecords(rows + [row]) && IsRecord(row)
    ensures BaseAfter(rows + [row]) ==
      if Kind(row) == 2 && |Data(row)| == 2 then BigEndian(Data(row)[0], Data(row)[1]) * 0x10
      else if Kind(row) == 4 && |Data(row)| == 2 then BigEndian(Data(row)[0], Data(row)[1]) * 0x1_0000
      else BaseAfter(rows)
    ensures Regions(rows + [row]) ==
      Regions(rows) + (if Kind(row) == 0 then [Region(BaseAfter(rows) + Address(row), Data(row))] else [])
    ensures Ended(rows + [row]) == (Kind(row) == 1)
  {
    var more := rows + [row];
    assert more[..|rows|] == rows && more[..|more| - 1] == rows && more[|more| - 1] == row;
    assert StartOf(more, |rows|) == BaseAfter(rows) + Address(row);
    hide IsRecord, BigEndian, Data, Kind, Address, StartOf;
  }

  lemma WellFormedMore(rows: seq<seq<byte>>, row: seq<byte>)
    requires AreRecords(rows) && AreRecords(rows + [row]) && IsRecord(row)
    ensures AllWellFormed(rows + [row]) <==> AllWellFormed(rows) && WellFormed(row)
    ensures EndIsLast(rows + [row]) <==> EndIsLast(rows) && !Ended(rows)
  {
    hide IsRecord, WellFormed, Kind;
    var more, n := rows + [row], |rows|;
    if AllWellFormed(more) {
      forall k | 0 <= k < n
        ensures WellFormed(rows[k])
      {
        assert WellFormed(more[k]);
      }
      assert WellFormed(more[n]);
    }
    if EndIsLast(more) {
      forall k | 0 <= k < n
        ensures Kind(rows[k]) != 1
      {
        assert Kind(more[k]) != 1;
      }
    }
    if EndIsLast(rows) && !Ended(rows) {
      forall k | 0 <= k < |more| - 1
        ensures Kind(more[k]) != 1
      {
        assert k < n - 1 ==> Kind(rows[k]) != 1;
      }
    }
  }

  // ---------- The readers ----------

  // What a reader has read of some records.
  ghost predicate StateIs(rows: seq<seq<byte>>, r: Result<Image>, limit: nat)
    requires AreRecords(rows)
  {
    if Readable(rows, limit) then
      && r.Ok? && r.value.base == BaseAfter(rows) && r.value.ended == Ended(rows)
      && Holds(Regions(rows), r.value.memory)
    else r == Error
  }

  function Next(r: Result<Image>, row: seq<byte>, limit: nat): Result<Image>
    requires IsRecord(row)
  {
    match r
    case Ok(image) => if image.ended then Error else Apply(image, row, limit)
    case Error => Error
  }

  lemma NextState(rows: seq<seq<byte>>, r: Result<Image>, row: seq<byte>, limit: nat)
    requires AreRecords(rows) && AreRecords(rows + [row]) && IsRecord(row) && StateIs(rows, r, limit)
    ensures StateIs(rows + [row], Next(r, row, limit), limit)
  {
    hide IsRecord, Apply, AllWellFormed, EndIsLast, AllBelow, AllApart, Holds, Ended, Kind, Regions, BaseAfter;
    NotReadable(rows, row, limit);
    if Readable(rows, limit) && !Ended(rows) {
      if Kind(row) == 0 {
        NextData(rows, r.value, row, limit);
      } else {
        NextOther(rows, r.value, row, limit);
      }
    }
  }

  lemma NotReadable(rows: seq<seq<byte>>, row: seq<byte>, limit: nat)
    requires AreRecords(rows) && AreRecords(rows + [row]) && IsRecord(row)
    ensures Readable(rows + [row], limit) ==> Readable(rows, limit) && !Ended(rows)
  {
    hide IsRecord, AllWellFormed, EndIsLast, AllBelow, AllApart, Ended, Kind, Regions, WellFormed, Data, Address;
    WellFormedMore(rows, row);
    NextRecord(rows, row);
    if Readable(rows + [row], limit) {
      if Kind(row) == 0 {
        var p := Region(BaseAfter(rows) + Address(row), Data(row));
        BelowMore(Regions(rows), p, limit);
        ApartBefore(Regions(rows), p);
      } else {
        assert Regions(rows) + [] == Regions(rows);
      }
    }
  }

  lemma NextData(rows: seq<seq<byte>>, image: Image, row: seq<byte>, limit: nat)
    requires AreRecords(rows) && AreRecords(rows + [row]) && IsRecord(row) && Kind(row) == 0
    requires Readable(rows, limit) && !Ended(rows) && StateIs(rows, Ok(image), limit)
    ensures StateIs(rows + [row], Apply(image, row, limit), limit)
  {
    hide IsRecord, AllWellFormed, EndIsLast, AllBelow, AllApart, Ended, Regions, Data, Address;
    hide Holds, Free, Store, BaseAfter;
    WellFormedMore(rows, row);
    NextRecord(rows, row);
    var p := Region(BaseAfter(rows) + Address(row), Data(row));
    BelowMore(Regions(rows), p, limit);
    FreeIffApart(Regions(rows), p, image.memory);
    if Free(image.memory, p.start, |p.data|) {
      HoldsMore(Regions(rows), p, image.memory);
    }
  }

  lemma NextOther(rows: seq<seq<byte>>, image: Image, row: seq<byte>, limit: nat)
    requires AreRecords(rows) && AreRecords(rows + [row]) && IsRecord(row) && Kind(row) != 0
    requires Readable(rows, limit) && !Ended(rows) && StateIs(rows, Ok(image), limit)
    ensures StateIs(rows + [row], Apply(image, row, limit), limit)
  {
    hide IsRecord, AllWellFormed, EndIsLast, AllBelow, AllApart, Ended, Regions, Data, Address;
    hide Holds, Free, Store, BaseAfter, BigEndian;
    WellFormedMore(rows, row);
    NextRecord(rows, row);
    assert Regions(rows) + [] == Regions(rows);
  }

  // What is read from lines that are blank or records is what these store.
  lemma {:induction false} ReadsRecords(d: Dialect, lines: seq<string>, limit: nat)
    requires AllRecords(d, Trimmed(d, lines))
    ensures StateIs(Records(d, Trimmed(d, lines)), ReadLines(d, lines, limit), limit)
    decreases |lines|
  {
    hide StateIs, IsRecord, Row, Apply, Trim;
    if lines == [] {
      NothingRead(limit);
    } else {
      var k := |lines| - 1;
      var trimmed := Trimmed(d, lines);
      assert trimmed[..k] == Trimmed(d, lines[..k]);
      assert forall i | 0 <= i < k :: trimmed[..k][i] == trimmed[i];
      ReadsRecords(d, lines[..k], limit);
      var rows := Records(d, trimmed[..k]);
      if trimmed[k] == "" {
        assert rows + [] == rows;
      } else {
        NextState(rows, ReadLines(d, lines[..k], limit), Row(d, trimmed[k]).value, limit);
      }
    }
  }

  lemma NothingRead(limit: nat)
    ensures StateIs([], Ok(EMPTY), limit)
  {
  }

  lemma {:induction false} OnlyRecords(d: Dialect, lines: seq<string>, limit: nat)
    requires ReadLines(d, lines, limit).Ok?
    ensures AllRecords(d, Trimmed(d, lines))
    decreases |lines|
  {
    hide IsRecord, Row, Apply, Trim;
    if lines != [] {
      var k := |lines| - 1;
      OnlyRecords(d, lines[..k], limit);
      assert Trimmed(d, lines)[..k] == Trimmed(d, lines[..k]);
      assert forall i | 0 <= i < k :: Trimmed(d, lines)[i] == Trimmed(d, lines[..k])[i];
    }
  }

  // For both dialects, every limit and every list of lines: reading succeeds
  // exactly when the lines that are not blank are records, each in the shape
  // of its kind, the end record only at the end, no data above the limit and
  // none stored twice. The octets read are those that the records store.
  lemma ReadsIff(d: Dialect, lines: seq<string>, limit: nat)
    ensures var r, trimmed := ReadLines(d, lines, limit), Trimmed(d, lines);
      && (r.Ok? <==> AllRecords(d, trimmed) && Readable(Records(d, trimmed), limit))
      && (r.Ok? ==>
            var rows := Records(d, trimmed);
            && Holds(Regions(rows), r.value.memory)
            && r.value.ended == Ended(rows) && r.value.base == BaseAfter(rows))
  {
    hide ReadLines, AllRecords, Records, Readable, Holds, Ended, Trimmed, IsRecord, Regions, BaseAfter;
    if ReadLines(d, lines, limit).Ok? {
      OnlyRecords(d, lines, limit);
    }
    if AllRecords(d, Trimmed(d, lines)) {
      ReadsRecords(d, lines, limit);
    }
  }
}
