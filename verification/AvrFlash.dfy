// The flash of the ATmega32U4 as the bootloader changes it: whole pages,
// through firmware/bootloader/BootloaderAPI.c.
module AvrFlash {
  import opened Octets
  import opened Application
  import Sst39

  const PAGE: nat := 128
  // Pages of the application section.
  const PAGES: nat := 224
  // The page that holds the manifest.
  const LAST_PAGE: nat := 0x6f80

  datatype PageOp = Erase(page: nat) | Write(page: nat, data: seq<byte>)

  // IsPageAddressValid
  predicate PageValid(address: nat) {
    address % PAGE == 0 && address < BOOT_START
  }

  predicate Sound(op: PageOp) {
    PageValid(op.page) && (op.Write? ==> |op.data| == PAGE)
  }

  predicate AllSound(ops: seq<PageOp>) {
    forall i | 0 <= i < |ops| :: Sound(ops[i])
  }

  // Erasing sets bits and programming clears them.
  function Changed(was: byte, op: PageOp, a: nat): byte
    requires Sound(op)
  {
    if op.page <= a < op.page + PAGE then
      match op
      case Erase(_) => 0xff
      case Write(page, data) => Sst39.And(was, data[a - page])
    else was
  }

  function ApplyOp(flash: seq<byte>, op: PageOp): (r: seq<byte>)
    requires Sound(op)
    ensures |r| == |flash|
    ensures forall a | 0 <= a < |flash| :: r[a] == Changed(flash[a], op, a)
  {
    seq<byte>(|flash|, a requires 0 <= a < |flash| => Changed(flash[a], op, a))
  }

  function ApplyAll(flash: seq<byte>, ops: seq<PageOp>): (r: seq<byte>)
    requires AllSound(ops)
    ensures |r| == |flash|
  {
    if ops == [] then flash
    else ApplyOp(ApplyAll(flash, ops[..|ops| - 1]), ops[|ops| - 1])
  }

  lemma {:induction false} ApplyConcat(flash: seq<byte>, a: seq<PageOp>, b: seq<PageOp>)
    requires AllSound(a) && AllSound(b)
    ensures AllSound(a + b) && ApplyAll(flash, a + b) == ApplyAll(ApplyAll(flash, a), b)
    decreases |b|
  {
    if b == [] {
      assert a + b == a;
    } else {
      var k := |b| - 1;
      ApplyConcat(flash, a, b[..k]);
      assert (a + b)[..|a + b| - 1] == a + b[..k];
      assert forall i | 0 <= i < |a + b| :: (a + b)[i] == if i < |a| then a[i] else b[i - |a|];
    }
  }

  lemma ApplyOne(flash: seq<byte>, op: PageOp)
    requires Sound(op)
    ensures AllSound([op]) && ApplyAll(flash, [op]) == ApplyOp(flash, op)
  {
    assert [op][..0] == [];
  }

  // Page operations never reach the bootloader section.
  lemma {:induction false} BootSectionKept(flash: seq<byte>, ops: seq<PageOp>)
    requires AllSound(ops) && |flash| == FLASH_SIZE
    ensures ApplyAll(flash, ops)[0x7000..] == flash[0x7000..]
  {
    if ops != [] {
      var k := |ops| - 1;
      BootSectionKept(flash, ops[..k]);
      OneOpKeepsBoot(ApplyAll(flash, ops[..k]), ops[k]);
    }
  }

  lemma OneOpKeepsBoot(flash: seq<byte>, op: PageOp)
    requires Sound(op) && |flash| == FLASH_SIZE
    ensures ApplyOp(flash, op)[BOOT_START..] == flash[BOOT_START..]
  {
    PageEnds(op.page);
  }

  lemma PageEnds(page: nat)
    requires PageValid(page)
    ensures page + PAGE <= BOOT_START
    ensures page <= MANIFEST_ADDRESS < page + PAGE ==> page == LAST_PAGE
  {
  }

  predicate CommitsIn(ops: seq<PageOp>) {
    exists i | 0 <= i < |ops| :: ops[i].Write? && ops[i].page == LAST_PAGE
  }

  // A blank manifest stays blank until its page is written.
  lemma {:induction false} ManifestStaysBlank(flash: seq<byte>, ops: seq<PageOp>)
    requires AllSound(ops) && |flash| == FLASH_SIZE
    requires flash[MANIFEST_ADDRESS] == 0xff && !CommitsIn(ops)
    ensures ApplyAll(flash, ops)[MANIFEST_ADDRESS] == 0xff
  {
    if ops != [] {
      var k := |ops| - 1;
      assert forall i | 0 <= i < k :: ops[..k][i] == ops[i];
      ManifestStaysBlank(flash, ops[..k]);
      PageEnds(ops[k].page);
    }
  }

  // ---------- Erasing everything, and writing a page ----------

  function EraseOps(n: nat): (ops: seq<PageOp>)
    requires n <= PAGES
    ensures |ops| == n && AllSound(ops)
    ensures forall i | 0 <= i < n :: ops[i] == Erase(PAGE * i)
  {
    if n == 0 then [] else EraseOps(n - 1) + [Erase(PAGE * (n - 1))]
  }

  lemma {:induction false} EraseEffect(flash: seq<byte>, n: nat)
    requires n <= PAGES && |flash| == FLASH_SIZE
    ensures ApplyAll(flash, EraseOps(n)) == Blanked(flash, PAGE * n)
    decreases n
  {
    if n == 0 {
      assert Blanked(flash, 0) == flash;
    } else {
      EraseEffect(flash, n - 1);
      assert EraseOps(n)[..n - 1] == EraseOps(n - 1);
      assert ApplyOp(Blanked(flash, PAGE * (n - 1)), Erase(PAGE * (n - 1))) == Blanked(flash, PAGE * n);
    }
  }

  function Blanked(flash: seq<byte>, to: nat): (r: seq<byte>)
    requires to <= |flash|
    ensures |r| == |flash|
    ensures forall a | 0 <= a < |flash| :: r[a] == if a < to then 0xff else flash[a]
  {
    seq<byte>(|flash|, a requires 0 <= a < |flash| => if a < to then 0xff else flash[a])
  }

  // A page buffer after its first octets have been filled.
  function PageOf(data: seq<byte>): (r: seq<byte>)
    requires |data| <= PAGE
    ensures |r| == PAGE
    ensures forall i | 0 <= i < PAGE :: r[i] == if i < |data| then data[i] else 0xff
  {
    seq<byte>(PAGE, i requires 0 <= i < PAGE => if i < |data| then data[i] else 0xff)
  }

  function BlockOps(page: nat, data: seq<byte>): (ops: seq<PageOp>)
    requires PageValid(page) && |data| <= PAGE
    ensures AllSound(ops)
  {
    [Erase(page), Write(page, PageOf(data))]
  }

  lemma ApplyTwo(flash: seq<byte>, first: PageOp, second: PageOp)
    requires Sound(first) && Sound(second)
    ensures ApplyAll(flash, [first, second]) == ApplyOp(ApplyOp(flash, first), second)
  {
    ApplyOne(flash, first);
    assert [first, second][..1] == [first];
    hide ApplyOp, Sound;
  }

  // An erased and written page holds exactly the data, padded with ones, and
  // no other octet changes.
  lemma BlockEffect(flash: seq<byte>, page: nat, data: seq<byte>)
    requires PageValid(page) && |data| <= PAGE && |flash| == FLASH_SIZE
    ensures page + PAGE <= BOOT_START
    ensures ApplyAll(flash, BlockOps(page, data)) == Sst39.Overlay(flash, page, PageOf(data))
  {
    PageEnds(page);
    var buffer := PageOf(data);
    ApplyTwo(flash, Erase(page), Write(page, buffer));
    hide ApplyAll, ApplyOp, PageOf;
    var written := ApplyOp(ApplyOp(flash, Erase(page)), Write(page, buffer));
    var wanted := Sst39.Overlay(flash, page, buffer);
    hide Sst39.Overlay;
    forall a | 0 <= a < |flash|
      ensures written[a] == wanted[a]
    {
      EraseThenWrite(flash[a], page, buffer, a);
    }
    assert written == wanted;
  }

  lemma EraseThenWrite(was: byte, page: nat, buffer: seq<byte>, a: nat)
    requires PageValid(page) && |buffer| == PAGE
    ensures Changed(Changed(was, Erase(page), a), Write(page, buffer), a)
         == if page <= a < page + PAGE then buffer[a - page] else was
  {
    hide Sst39.And;
    if page <= a < page + PAGE {
      Sst39.BlankIsProgrammable(buffer[a - page]);
    }
  }
}
