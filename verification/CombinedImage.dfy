// firmware/tools/hex_image.py: combining an application and a bootloader, and
// what the readers of the result make of it.
module CombinedImage {
  import opened Octets
  import opened IntelHex
  import opened HexImage
  import opened Application
  import opened ApplicationImage
  import opened Readers
  import FirmwareUpdater
  import Installer

  predicate ApplicationPart(app: map<nat, byte>) {
    && ManifestComplete(app) && IsValid(Flat(app))
    && app != map[] && Min(app) == 0 && Max(app) < BOOT_START
  }

  predicate BootPart(boot: map<nat, byte>) {
    boot != map[] && Min(boot) == BOOT_START && Max(boot) < FLASH_SIZE
  }

  predicate Combinable(app: map<nat, byte>, boot: map<nat, byte>) {
    ApplicationPart(app) && BootPart(boot)
  }

  method Combine(appText: string, bootText: string) returns (r: Result<string>)
    ensures r.Ok? <==>
      && Read(appText).Ok? && Read(bootText).Ok?
      && Combinable(Read(appText).value, Read(bootText).value)
    ensures r.Ok? ==> r.value == Written(Read(appText).value + Read(bootText).value)
  {
    hide Written, IsValid, Flat;
    var app := ReadHex(appText);
    if app.Error? {
      return Error;
    }
    var boot := ReadHex(bootText);
    if boot.Error? {
      return Error;
    }
    var valid := Validate(app.value);
    if valid.Error? {
      return Error;
    }
    NotEmpty(appText);
    NotEmpty(bootText);
    if Min(app.value) != 0 || Max(app.value) >= BOOT_START {
      return Error;
    }
    if Min(boot.value) != BOOT_START || Max(boot.value) >= FLASH_SIZE {
      return Error;
    }
    r := WriteHex(app.value + boot.value);
  }

  lemma NotEmpty(text: string)
    ensures Read(text).Ok? ==> Read(text).value != map[]
  {
  }

  // ---------- Reading the combination ----------

  // No row belongs to both parts.
  lemma CombinedPadded(app: map<nat, byte>, boot: map<nat, byte>, a: nat)
    requires Combinable(app, boot)
    ensures a < 0x7000 ==>
      (a in Padded(app + boot) <==> a in Padded(app)) && Value(Padded(app + boot), a) == Value(app, a)
    ensures a >= 0x7000 ==>
      (a in Padded(app + boot) <==> a in Padded(boot)) && Value(Padded(app + boot), a) == Value(boot, a)
    ensures a in Padded(app + boot) ==> a < 0x8000
  {
    hide Padded, IsValid, Flat;
    PaddedAt(app, a);
    PaddedAt(boot, a);
    PaddedAt(app + boot, a);
    RowSide(a);
    assert forall x | x in app + boot :: x in app || x in boot;
  }

  lemma RowSide(a: nat)
    ensures forall x: nat | x / 16 == a / 16 :: x < BOOT_START <==> a < BOOT_START
    ensures forall x: nat | x / 16 == a / 16 :: x < FLASH_SIZE <==> a < FLASH_SIZE
  {
    assert BOOT_START == 16 * 0x700 && FLASH_SIZE == 16 * 0x800;
  }

  // The combined text reads back as the padded application below the
  // bootloader and the padded bootloader at and above it; the application in
  // it is still valid.
  lemma CombinedReads(app: map<nat, byte>, boot: map<nat, byte>)
    requires Combinable(app, boot)
    ensures Read(Written(app + boot)) == Ok(Padded(app + boot))
    ensures Padded(app + boot) == Padded(app) + Padded(boot)
    ensures Flat(Padded(app + boot)) == Flat(app) && IsValid(Flat(Padded(app + boot)))
  {
    hide Padded, Written, IsValid, Flat;
    assert 0 in app + boot;
    ReadWritten(app + boot);
    forall a: nat
      ensures a in Padded(app + boot) <==> a in Padded(app) + Padded(boot)
      ensures a in Padded(app + boot) ==> Padded(app + boot)[a] == (Padded(app) + Padded(boot))[a]
      ensures a < BOOT_START ==> Value(Padded(app + boot), a) == Value(app, a)
    {
      CombinedPadded(app, boot, a);
      PaddedAt(app, a);
      PaddedAt(boot, a);
      RowSide(a);
    }
    assert Flat(Padded(app + boot)) == Flat(app);
  }

  // What stamping writes can always be combined with a bootloader.
  lemma StampedCombines(memory: map<nat, byte>, boot: map<nat, byte>)
    requires Stampable(memory) && BootPart(boot)
    ensures Combinable(Padded(Stamped(memory)), boot)
  {
    FirmwareUpdater.StampedIsAccepted(memory);
    StampedKeys(memory);
    hide Padded, IsValid, Flat, Stamped, Written, FirmwareUpdater.Accepts, FirmwareUpdater.Decoded;
    PaddingKeepsFlash(Stamped(memory));
    assert 0 in memory;
    PaddedAt(Stamped(memory), 0);
    FirmwareUpdater.ResetVectorKept(memory);
  }

  lemma WrittenIsPlain(memory: map<nat, byte>)
    ensures Installer.AllPlain(Lines(Written(memory), LINE_FEED))
  {
    WrittenLines(memory, LINE_FEED);
    hide Lines, Written, RowLines, Without, Installer.AllPlain;
    RowLinesPlain(memory, ROWS);
    EofPlain();
    PlainLines(RowLines(memory, 0, ROWS), EOF_LINE);
  }

  lemma PlainLines(rows: seq<string>, last: string)
    requires (forall l | l in rows :: Without(l, SPACES)) && Without(last, SPACES)
    ensures Installer.AllPlain(rows + [last] + [""])
  {
    hide Without, Installer.DropReturn;
    forall l | l in rows + [last] + [""]
      ensures Without(Installer.DropReturn(l), SPACES)
    {
      assert l in rows || l == last || l == "";
      Plain(l);
    }
  }

  lemma EofPlain()
    ensures Without(EOF_LINE, SPACES)
  {
    EofIsRecord();
    hide Line, MakeRecord, Without;
    LineReads(Desktop, MakeRecord(0, 1, []));
  }

  lemma Plain(line: string)
    ensures Without(line, SPACES) ==> Without(Installer.DropReturn(line), SPACES)
    ensures Without("", SPACES)
  {
  }

  // The installer accepts the combination.
  lemma CombinedInstalls(app: map<nat, byte>, boot: map<nat, byte>)
    requires Combinable(app, boot)
    ensures Installer.Accepted(Written(app + boot))
  {
    var memory := app + boot;
    var lines := Lines(Written(memory), LINE_FEED);
    WrittenIsPlain(memory);
    hide IsValid, Flat, Written, Lines, Padded;
    assert 0 in memory && BOOT_START in memory;
    PaddedAt(memory, 0);
    PaddedAt(memory, BOOT_START);
    WrittenReads(Desktop, memory, LINE_FEED, FLASH_SIZE);
    Installer.LinesKnown(lines);
  }

  // The desktop application refuses it as an update: it would reach into the
  // bootloader.
  lemma CombinedIsNoUpdate(app: map<nat, byte>, boot: map<nat, byte>)
    requires Combinable(app, boot)
    ensures !FirmwareUpdater.Accepts(Written(app + boot))
  {
    var memory := app + boot;
    var text := Written(memory);
    hide IsValid, Flat, Written, Lines, Padded;
    assert BOOT_START in memory;
    PaddedAt(memory, BOOT_START);
    WrittenReads(Desktop, memory, LINE_FEED, UNLIMITED);
    FirmwareUpdater.LimitIff(Desktop, Lines(text, LINE_FEED), BOOT_START);
    BelowLimit(Desktop, Lines(text, LINE_FEED), BOOT_START);
  }

  lemma {:induction false} BelowLimit(d: Dialect, lines: seq<string>, limit: nat)
    ensures ReadLines(d, lines, limit).Ok? ==> forall a | a in ReadLines(d, lines, limit).value.memory :: a < limit
    decreases |lines|
  {
    hide Row, Trim;
    if lines != [] {
      BelowLimit(d, lines[..|lines| - 1], limit);
    }
  }
}
