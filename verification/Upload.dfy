// Replacing the application: erase, write the pages in ascending order, exit.
// The page with the manifest commits the upload.
module Upload {
  import opened Octets
  import opened Application
  import opened AvrFlash
  import opened Avr109
  import opened BootMachine
  import opened BootRuns
  import FirmwareUpdater
  import ApplicationImage
  import Sst39

  // ---------- Nothing starts before the commit ----------

  predicate Commits(m: Machine, e: Event)
    requires |m.flash| == FLASH_SIZE
  {
    CommitsIn(OpsOf(m, e))
  }

  // After an erase command the manifest is blank, even when its confirmation
  // is never taken by the host.
  lemma EraseBlanksManifest(m: Machine, packets: seq<seq<byte>>, room: nat)
    requires |m.flash| == FLASH_SIZE && m.mode.Running? && packets != []
    requires Flatten(packets) != [] && Flatten(packets)[0] == 'e' as int
    ensures var r := Step(m, Host(packets, room));
      r.flash == Blanked(m.flash, BOOT_START) && !r.mode.Started?
  {
    FirstOctet(packets);
    DispatchErase(m.flash, m.mode.current, Take(packets, 1).rest);
    hide IsValid, Take, Dispatch, EraseOps;
    EraseEffect(m.flash, PAGES);
  }

  // Then, whatever commands, transfer failures, losses of power, resets and
  // silences follow, the application is invalid and is not started, until the
  // page at 0x6f80 is written.
  lemma {:induction false} InvalidUntilCommit(m: Machine, events: seq<Event>)
    requires Inv(m) && m.flash[MANIFEST_ADDRESS] == 0xff
    requires forall k | 0 <= k < |events| :: !Commits(After(m, events[..k]), events[k])
    ensures After(m, events).flash[MANIFEST_ADDRESS] == 0xff
    ensures !IsValid(After(m, events).flash) && !After(m, events).mode.Started?
  {
    hide IsValid, Step, OpsOf;
    RunKeepsInv(m, events);
    if events != [] {
      var k := |events| - 1;
      var before := After(m, events[..k]);
      SamePrefixes(events, k);
      InvalidUntilCommit(m, events[..k]);
      StepAppliesOps(before, events[k]);
      ManifestStaysBlank(before.flash, OpsOf(before, events[k]));
    }
    BlankManifestInvalid(After(m, events).flash);
  }

  // So from an erase command on: whatever happens next, an upload that is cut
  // short anywhere before that page leaves the bootloader in control.
  lemma EraseThenNoStart(m: Machine, packets: seq<seq<byte>>, room: nat, events: seq<Event>)
    requires Inv(m) && m.mode.Running? && packets != []
    requires Flatten(packets) != [] && Flatten(packets)[0] == 'e' as int
    requires var erased := Step(m, Host(packets, room));
      forall k | 0 <= k < |events| :: !Commits(After(erased, events[..k]), events[k])
    ensures var r := After(m, [Host(packets, room)] + events);
      !IsValid(r.flash) && !r.mode.Started?
  {
    var first := [Host(packets, room)];
    hide IsValid, Step, Commits;
    AfterConcat(m, first, events);
    AfterOne(m, Host(packets, room));
    EraseBlanksManifest(m, packets, room);
    StepKeepsInv(m, Host(packets, room));
    InvalidUntilCommit(After(m, first), events);
  }

  lemma AfterOne(m: Machine, e: Event)
    requires |m.flash| == FLASH_SIZE
    ensures After(m, [e]) == Step(m, e)
  {
    assert [e][..0] == [];
    hide Step;
  }

  // ---------- The upload ----------

  predicate Sends(e: Event, octets: seq<byte>) {
    e.Host? && e.packets != [] && Flatten(e.packets) == octets && e.room >= 2
  }

  function PageData(image: seq<byte>, page: nat): (data: seq<byte>)
    requires |image| == BOOT_START && page < PAGES
    ensures |data| == PAGE
  {
    image[PAGE * page..PAGE * (page + 1)]
  }

  // Erase, then an address and a block for every page below k. How the host
  // cuts the commands into packets is left open.
  predicate Uploads(events: seq<Event>, image: seq<byte>, k: nat)
    requires |image| == BOOT_START && k <= PAGES
  {
    && |events| == 1 + 2 * k
    && Sends(events[0], ['e' as int])
    && forall i | 0 <= i < k ::
         Sends(events[1 + 2 * i], AddressCommand(i)) && Sends(events[2 + 2 * i], WriteCommand(PageData(image, i)))
  }

  // Flash with the first octets of the image, and the rest still blank.
  function Partly(flash: seq<byte>, image: seq<byte>, n: nat): (r: seq<byte>)
    requires |flash| == FLASH_SIZE && |image| == BOOT_START && n <= BOOT_START
    ensures |r| == FLASH_SIZE
    ensures forall a | 0 <= a < FLASH_SIZE ::
      r[a] == if a < n then image[a] else if a < BOOT_START then 0xff else flash[a]
  {
    seq<byte>(FLASH_SIZE, a requires 0 <= a < FLASH_SIZE =>
      if a < n then image[a] else if a < BOOT_START then 0xff else flash[a])
  }

  lemma {:induction false} UploadProgress(m: Machine, events: seq<Event>, image: seq<byte>, k: nat)
    requires |m.flash| == FLASH_SIZE && m.mode.Running?
    requires |image| == BOOT_START && k <= PAGES && Uploads(events, image, k)
    ensures var r := After(m, events);
      && r.flash == Partly(m.flash, image, PAGE * k)
      && r.mode.Running? && r.mode.stay && (k > 0 ==> r.mode.current == PAGE * k) && r.key == m.key
    decreases k
  {
    hide Step, Uploads, Sends, Partly, After;
    if k == 0 {
      UploadBegins(m, events, image);
    } else {
      var n := 2 * k - 1;
      UploadsShorter(events, image, k);
      UploadProgress(m, events[..n], image, k - 1);
      LastTwo(m, events);
      ServePage(m.flash, After(m, events[..n]), events[n], events[n + 1], image, k - 1);
    }
  }

  lemma UploadBegins(m: Machine, events: seq<Event>, image: seq<byte>)
    requires |m.flash| == FLASH_SIZE && m.mode.Running?
    requires |image| == BOOT_START && Uploads(events, image, 0)
    ensures var r := After(m, events);
      r.flash == Partly(m.flash, image, 0) && r.mode.Running? && r.mode.stay && r.key == m.key
  {
    assert events == [events[0]];
    hide Step, Sends, Partly, After;
    AfterOne(m, events[0]);
    ServeErase(m, events[0]);
  }

  lemma LastTwo(m: Machine, events: seq<Event>)
    requires |m.flash| == FLASH_SIZE && |events| >= 2
    ensures var n := |events| - 2; After(m, events) == Step(Step(After(m, events[..n]), events[n]), events[n + 1])
  {
    hide Step;
    var n := |events| - 2;
    var before := events[..n + 1];
    assert before[..|before| - 1] == events[..n] && before[|before| - 1] == events[n];
    assert After(m, before) == Step(After(m, events[..n]), events[n]);
    hide After;
    LastOne(m, events);
  }

  lemma LastOne(m: Machine, events: seq<Event>)
    requires |m.flash| == FLASH_SIZE && events != []
    ensures After(m, events) == Step(After(m, events[..|events| - 1]), events[|events| - 1])
  {
    hide Step;
  }

  lemma UploadsShorter(events: seq<Event>, image: seq<byte>, k: nat)
    requires |image| == BOOT_START && 0 < k <= PAGES && Uploads(events, image, k)
    ensures |events| == 2 * k + 1
    ensures Uploads(events[..2 * k - 1], image, k - 1)
    ensures Sends(events[2 * k - 1], AddressCommand(k - 1))
    ensures Sends(events[2 * k], WriteCommand(PageData(image, k - 1)))
  {
    hide Sends, AddressCommand, WriteCommand;
    var before := events[..2 * k - 1];
    assert forall i | 0 <= i < |before| :: before[i] == events[i];
    assert events[1 + 2 * (k - 1)] == events[2 * k - 1] && events[2 + 2 * (k - 1)] == events[2 * k];
  }

  lemma ServeErase(m: Machine, e: Event)
    requires |m.flash| == FLASH_SIZE && m.mode.Running? && Sends(e, ['e' as int])
    ensures forall image: seq<byte> | |image| == BOOT_START :: Step(m, e).flash == Partly(m.flash, image, 0)
    ensures Step(m, e).mode.Running? && Step(m, e).mode.stay && Step(m, e).key == m.key
  {
    EraseServed(m.flash, m.mode.current, e.packets, e.room);
    hide Serve, IsValid;
    EraseBlanksManifest(m, e.packets, e.room);
    forall image: seq<byte> | |image| == BOOT_START
      ensures Step(m, e).flash == Partly(m.flash, image, 0)
    {
      assert Blanked(m.flash, BOOT_START) == Partly(m.flash, image, 0);
    }
  }

  lemma ServePage(flash: seq<byte>, m: Machine, address: Event, write: Event, image: seq<byte>, page: nat)
    requires |flash| == FLASH_SIZE && |image| == BOOT_START && page < PAGES
    requires m.flash == Partly(flash, image, PAGE * page) && m.mode.Running?
    requires Sends(address, AddressCommand(page)) && Sends(write, WriteCommand(PageData(image, page)))
    ensures var r := Step(Step(m, address), write);
      && r.flash == Partly(flash, image, PAGE * (page + 1))
      && r.mode.Running? && r.mode.stay && r.mode.current == PAGE * (page + 1) && r.key == m.key
  {
    AddressServed(m.flash, m.mode.current, address.packets, address.room, page);
    WriteServed(m.flash, write.packets, write.room, page, PageData(image, page));
    hide Serve, IsValid, BlockOps, Partly, AddressCommand, WriteCommand, Flatten;
    var next := Step(m, address);
    assert next.flash == m.flash && next.mode.current == PAGE * page;
    BlockEffect(m.flash, PAGE * page, PageData(image, page));
    OnePageMore(flash, image, page);
  }

  lemma OnePageMore(flash: seq<byte>, image: seq<byte>, page: nat)
    requires |flash| == FLASH_SIZE && |image| == BOOT_START && page < PAGES
    requires PageValid(PAGE * page) && PAGE * page + PAGE <= BOOT_START
    ensures Sst39.Overlay(Partly(flash, image, PAGE * page), PAGE * page, PageOf(PageData(image, page)))
         == Partly(flash, image, PAGE * (page + 1))
  {
    assert PageOf(PageData(image, page)) == PageData(image, page);
  }

  // The upload of a valid image makes flash valid at its last page and not
  // before.
  lemma ValidAtLastPage(m: Machine, events: seq<Event>, image: seq<byte>, k: nat)
    requires |m.flash| == FLASH_SIZE && m.mode.Running?
    requires |image| == BOOT_START && k <= PAGES && Uploads(events, image, k) && IsValid(image)
    ensures IsValid(After(m, events).flash) <==> k == PAGES
  {
    UploadProgress(m, events, image, k);
    var r := After(m, events).flash;
    hide After, Uploads;
    if k == PAGES {
      assert r[..BOOT_START] == image == image[..BOOT_START];
      ValidLooksBelow(image, r);
    } else {
      assert r[MANIFEST_ADDRESS] == 0xff;
      BlankManifestInvalid(r);
    }
  }

  // A complete upload, an exit command and the watchdog start the application
  // exactly when the image is valid, and leave the image in flash.
  lemma UploadStarts(m: Machine, events: seq<Event>, exit: Event, image: seq<byte>)
    requires |m.flash| == FLASH_SIZE && m.mode.Running?
    requires |image| == BOOT_START && Uploads(events, image, PAGES) && Sends(exit, ['E' as int])
    ensures var r := After(m, events + [exit] + [Watchdog]);
      && r.flash == image + m.flash[BOOT_START..]
      && (r.mode.Started? <==> IsValid(image))
  {
    UploadProgress(m, events, image, PAGES);
    var r := After(m, events);
    assert r.flash == image + m.flash[BOOT_START..];
    assert r.flash[..BOOT_START] == image == image[..BOOT_START];
    ValidLooksBelow(image, r.flash);
    assert (events + [exit])[..|events|] == events;
    assert (events + [exit] + [Watchdog])[..|events| + 1] == events + [exit];
    ExitServed(r.flash, r.mode.current, exit.packets, exit.room);
    hide Serve, IsValid, Uploads;
    ExitThenWatchdog(r, exit);
  }

  lemma ExitThenWatchdog(m: Machine, exit: Event)
    requires |m.flash| == FLASH_SIZE && m.mode.Running? && exit.Host? && exit.packets != []
    requires var r := Serve(m.flash, m.mode.current, exit.packets, exit.room); r.Done? && r.ops == [] && r.exit
    ensures var r := Step(Step(m, exit), Watchdog);
      r.flash == m.flash && (r.mode.Started? <==> IsValid(m.flash))
  {
    hide Serve, IsValid;
  }

  // Any text that the desktop application accepts, uploaded completely, starts.
  lemma AcceptedTextStarts(m: Machine, events: seq<Event>, exit: Event, text: string)
    requires |m.flash| == FLASH_SIZE && m.mode.Running?
    ensures FirmwareUpdater.Accepts(text) ==>
      var image := ApplicationImage.Flat(FirmwareUpdater.Decoded(text).value.memory);
      Uploads(events, image, PAGES) && Sends(exit, ['E' as int]) ==>
        After(m, events + [exit] + [Watchdog]).mode.Started?
  {
    hide IsValid, Uploads, Sends, After, FirmwareUpdater.Decoded;
    if FirmwareUpdater.Accepts(text) {
      var image := ApplicationImage.Flat(FirmwareUpdater.Decoded(text).value.memory);
      if Uploads(events, image, PAGES) && Sends(exit, ['E' as int]) {
        UploadStarts(m, events, exit, image);
      }
    }
  }
}
