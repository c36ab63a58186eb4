// What holds over every run of resets, commands, silence, transfer failures
// and losses of power.
module BootRuns {
  import opened Octets
  import opened Application
  import opened AvrFlash
  import opened Avr109
  import opened BootMachine

  // The start key exists only between leaving the loop and the next reset, and
  // a running application was valid when it was entered and still is.
  predicate Inv(m: Machine) {
    && |m.flash| == FLASH_SIZE
    && match m.mode
       case Running(_, _, _) => m.key == 0
       case Failed => m.key == 0
       case Leaving => m.key == MAGIC_BOOT_KEY
       case Started => m.key == 0 && IsValid(m.flash)
  }

  lemma ResetMakesInv(flash: seq<byte>, watchdog: bool, key: nat)
    requires |flash| == FLASH_SIZE
    ensures Inv(AtReset(flash, watchdog, key))
  {
    hide IsValid;
  }

  lemma StepKeepsInv(m: Machine, e: Event)
    requires Inv(m)
    ensures Inv(Step(m, e))
  {
    hide IsValid, Serve, ApplyAll;
  }

  // In every run from any reset the application runs only on valid flash.
  lemma {:induction false} RunKeepsInv(m: Machine, events: seq<Event>)
    requires Inv(m)
    ensures Inv(After(m, events))
    ensures After(m, events).mode.Started? ==> IsValid(After(m, events).flash)
  {
    hide Step;
    if events != [] {
      RunKeepsInv(m, events[..|events| - 1]);
      StepKeepsInv(After(m, events[..|events| - 1]), events[|events| - 1]);
    }
  }

  lemma RunFromReset(flash: seq<byte>, watchdog: bool, key: nat, events: seq<Event>)
    requires |flash| == FLASH_SIZE
    ensures var r := After(AtReset(flash, watchdog, key), events);
      Inv(r) && (r.mode.Started? ==> IsValid(r.flash))
  {
    hide IsValid, AtReset, After, Inv;
    ResetMakesInv(flash, watchdog, key);
    RunKeepsInv(AtReset(flash, watchdog, key), events);
  }

  // The event resets the microcontroller.
  predicate Resets(m: Machine, e: Event) {
    match e
    case PowerUp(_) => true
    case ExternalReset => true
    case Watchdog => m.mode.Leaving? || m.mode.Failed?
    case Crash(_) => m.mode.Started?
    case Cut(_, _, _, _) => m.mode.Running?
    case Tick => false
    case Host(_, _) => false
  }

  // There are two ways in, both through the watchdog and both on valid flash:
  // after the bootloader left its loop, and after an application ended with
  // the start key in RAM. A running application goes on until it is reset.
  lemma StartsIff(m: Machine, e: Event)
    requires Inv(m)
    ensures Step(m, e).mode.Started? <==>
      if !Resets(m, e) then m.mode.Started?
      else
        IsValid(m.flash) &&
        ((e.Watchdog? && m.mode.Leaving?) || (e.Crash? && m.mode.Started? && e.key == 0xdc42))
    ensures Step(m, e).mode.Started? ==> Step(m, e).flash == m.flash
  {
    hide IsValid, Serve, ApplyAll;
  }

  // Exactly what each key left in RAM leads to when the watchdog ends a running
  // application: 0xdc42 starts it again if it is valid, 0xb007 keeps the
  // bootloader waiting, and any other lets it start after its timeout.
  lemma KeyDecides(m: Machine, key: nat)
    requires |m.flash| == FLASH_SIZE && m.mode.Started?
    ensures Step(m, Crash(key)) == Machine(m.flash, 0,
      if key == 0xdc42 && IsValid(m.flash) then Started else Running(0, key == 0xb007, 0))
  {
    hide IsValid;
  }

  // Every other reset leaves the bootloader with its timeout running, whatever
  // is in RAM, and the flash as far as it had come.
  lemma OtherResets(m: Machine, e: Event)
    requires |m.flash| == FLASH_SIZE && (e.PowerUp? || e.ExternalReset? || (e.Cut? && m.mode.Running?))
    ensures Step(m, e) == Machine(Step(m, e).flash, 0, Running(0, false, 0))
    ensures !e.Cut? ==> Step(m, e).flash == m.flash
  {
    hide IsValid, Serve, ApplyAll;
  }

  // After a transfer failure the bootloader waits for its watchdog, and is
  // back in its loop with the flash as it is. After it left its loop the
  // watchdog starts the application if that is valid.
  lemma WatchdogEnds(m: Machine)
    requires Inv(m) && (m.mode.Failed? || m.mode.Leaving?)
    ensures Step(m, Watchdog) == Machine(m.flash, 0,
      if m.mode.Leaving? && IsValid(m.flash) then Started else Running(0, false, 0))
  {
    hide IsValid;
  }

  // A reset uses the key up: a second one, whatever its cause, neither starts
  // the application nor keeps the bootloader waiting.
  lemma KeyUsedOnce(flash: seq<byte>, watchdog: bool, key: nat, again: bool)
    requires |flash| == FLASH_SIZE
    ensures var first := AtReset(flash, watchdog, key);
      AtReset(first.flash, again, first.key) == Machine(flash, 0, Running(0, false, 0))
  {
    hide IsValid;
  }

  // Nothing ever changes the bootloader section.
  lemma {:induction false} BootloaderKept(m: Machine, events: seq<Event>)
    requires |m.flash| == FLASH_SIZE
    ensures After(m, events).flash[0x7000..] == m.flash[0x7000..]
  {
    hide Step;
    if events != [] {
      var before := After(m, events[..|events| - 1]);
      BootloaderKept(m, events[..|events| - 1]);
      StepKeepsBootloader(before, events[|events| - 1]);
    }
  }

  // The page operations an event makes.
  function OpsOf(m: Machine, e: Event): (ops: seq<PageOp>)
    requires |m.flash| == FLASH_SIZE
    ensures AllSound(ops)
  {
    if !m.mode.Running? then []
    else if e.Host? && e.packets != [] then Serve(m.flash, m.mode.current, e.packets, e.room).ops
    else if e.Cut? then
      var ops := Serve(m.flash, m.mode.current, e.packets, e.room).ops;
      if e.count < |ops| then ops[..e.count] else ops
    else []
  }

  lemma StepAppliesOps(m: Machine, e: Event)
    requires |m.flash| == FLASH_SIZE
    ensures Step(m, e).flash == ApplyAll(m.flash, OpsOf(m, e))
  {
    hide IsValid, Serve;
  }

  lemma StepKeepsBootloader(m: Machine, e: Event)
    requires |m.flash| == FLASH_SIZE
    ensures Step(m, e).flash[BOOT_START..] == m.flash[BOOT_START..]
  {
    hide Step, OpsOf;
    StepAppliesOps(m, e);
    BootSectionKept(m.flash, OpsOf(m, e));
  }

  // ---------- The timeout ----------

  predicate NoReset(events: seq<Event>) {
    forall i | 0 <= i < |events| :: events[i].Tick? || events[i].Host?
  }

  predicate Exits(m: Machine, e: Event)
    requires |m.flash| == FLASH_SIZE
  {
    e.Host? && e.packets != [] && m.mode.Running?
    && var r := Serve(m.flash, m.mode.current, e.packets, e.room); r.Done? && r.exit
  }

  // A BOOTLOAD request or a received command keeps the bootloader waiting.
  lemma Stays(m: Machine, e: Event)
    requires |m.flash| == FLASH_SIZE
    ensures e.Crash? && e.key == 0xb007 && m.mode.Started? ==> Step(m, e).mode == Running(0, true, 0)
    ensures e.Host? && e.packets != [] && m.mode.Running? && Step(m, e).mode.Running? ==> Step(m, e).mode.stay
  {
    hide IsValid, Serve;
  }

  // Until the next reset it then leaves its loop only for an exit command,
  // however long the host is silent.
  lemma {:induction false} StayingLeavesIff(m: Machine, events: seq<Event>)
    requires |m.flash| == FLASH_SIZE && m.mode.Running? && m.mode.stay && NoReset(events)
    ensures var r := After(m, events).mode;
      && (r.Running? ==> r.stay) && !r.Started?
      && (r.Leaving? <==> exists k | 0 <= k < |events| :: Exits(After(m, events[..k]), events[k]))
  {
    hide Step, Exits;
    if events != [] {
      var k := |events| - 1;
      var before := After(m, events[..k]);
      StayingLeavesIff(m, events[..k]);
      StayingStep(before, events[k]);
      SamePrefixes(events, k);
      hide After;
    }
  }

  lemma SamePrefixes(events: seq<Event>, k: nat)
    requires k <= |events|
    ensures forall i | 0 <= i < k :: events[..k][..i] == events[..i] && events[..k][i] == events[i]
  {
  }

  lemma StayingStep(m: Machine, e: Event)
    requires |m.flash| == FLASH_SIZE && (e.Tick? || e.Host?)
    requires !m.mode.Started? && (m.mode.Running? ==> m.mode.stay)
    ensures var r := Step(m, e).mode;
      && (r.Running? ==> r.stay) && !r.Started?
      && (r.Leaving? <==> m.mode.Leaving? || Exits(m, e))
  {
    hide IsValid, Serve;
  }

  // Only time passes.
  predicate Silent(events: seq<Event>) {
    forall i | 0 <= i < |events| :: events[i].Tick? || (events[i].Host? && events[i].packets == [])
  }

  function Ticks(events: seq<Event>): nat {
    if events == [] then 0
    else Ticks(events[..|events| - 1]) + if events[|events| - 1].Tick? then 1 else 0
  }

  // The loop comes round after the twentieth tick.
  predicate TimedOut(ticks: nat, events: seq<Event>) {
    exists k | 0 <= k < |events| :: events[k].Host? && ticks + Ticks(events[..k]) >= 20
  }

  function Saturated(ticks: nat): nat {
    if ticks < 255 then ticks else 255
  }

  // A silent host: the loop is left exactly when flash is valid and the loop
  // has come round after twenty ticks; nothing else happens.
  lemma {:induction false} SilentRun(m: Machine, events: seq<Event>)
    requires |m.flash| == FLASH_SIZE && m.mode.Running? && !m.mode.stay && m.mode.ticks <= 255 && Silent(events)
    ensures var r := After(m, events); var ticks := m.mode.ticks;
      r == if IsValid(m.flash) && TimedOut(ticks, events) then Leave(m)
           else m.(mode := m.mode.(ticks := Saturated(ticks + Ticks(events))))
  {
    hide IsValid;
    if events != [] {
      var k := |events| - 1;
      var ticks := m.mode.ticks;
      SilentRun(m, events[..k]);
      TimedOutMore(ticks, events);
      hide TimedOut;
    }
  }

  lemma TimedOutMore(ticks: nat, events: seq<Event>)
    requires events != []
    ensures var k := |events| - 1;
      TimedOut(ticks, events) <==>
        TimedOut(ticks, events[..k]) || (events[k].Host? && ticks + Ticks(events[..k]) >= 20)
  {
    hide Ticks;
    var k := |events| - 1;
    SamePrefixes(events, k);
    if TimedOut(ticks, events[..k]) {
      var i :| 0 <= i < k && events[..k][i].Host? && ticks + Ticks(events[..k][..i]) >= 20;
      assert events[i].Host? && ticks + Ticks(events[..i]) >= 20;
    }
  }

  // After any reset that does not ask it to stay, and with no host, the
  // bootloader starts the application exactly when that is valid.
  lemma StartsByItself(m: Machine, events: seq<Event>)
    requires |m.flash| == FLASH_SIZE && m.mode == Running(0, false, 0)
    requires Silent(events) && TimedOut(0, events)
    ensures After(m, events + [Watchdog]).mode.Started? <==> IsValid(m.flash)
    ensures After(m, events + [Watchdog]).flash == m.flash
  {
    SilentRun(m, events);
    assert (events + [Watchdog])[..|events|] == events;
    hide IsValid, TimedOut, Silent;
  }
}
