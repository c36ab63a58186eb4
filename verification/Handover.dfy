// From the firmware to the bootloader: BOOTLOAD ends the firmware's loop with a
// key in RAM, the watchdog fires, and the bootloader looks for that key.
module Handover {
  import opened Octets
  import opened Application
  import opened Device
  import opened Avr109
  import opened BootMachine
  import opened BootRuns
  import FlashOps
  import MainLoop

  // The machine whose application is this firmware, when the watchdog fires.
  ghost function Rebooted(fw: Firmware, m: Machine): Machine
    requires |m.flash| == FLASH_SIZE
    reads fw
  {
    Step(m, Crash(fw.bootKey))
  }

  // Whenever the firmware's loop has ended, the bootloader stays.
  lemma EndedLoopIsNoticed(fw: Firmware, m: Machine)
    requires fw.Valid() && fw.halted && |m.flash| == FLASH_SIZE && m.mode.Started?
    ensures Rebooted(fw, m) == Machine(m.flash, 0, Running(0, true, 0))
  {
    KeyDecides(m, fw.bootKey);
    hide IsValid, Step;
  }

  // However long the host is silent then, nothing is started.
  lemma {:induction false} SilenceStartsNothing(fw: Firmware, m: Machine, events: seq<Event>)
    requires fw.Valid() && fw.halted && |m.flash| == FLASH_SIZE && m.mode.Started? && Silent(events)
    ensures After(Rebooted(fw, m), events)
         == Machine(m.flash, 0, Running(0, true, Saturated(Ticks(events))))
    decreases |events|
  {
    hide IsValid, Serve;
    EndedLoopIsNoticed(fw, m);
    if events != [] {
      SilenceStartsNothing(fw, m, events[..|events| - 1]);
    }
  }

  // Until a reset or an exit command the host can take its time.
  lemma OnlyExitEnds(fw: Firmware, m: Machine, events: seq<Event>)
    requires fw.Valid() && fw.halted && |m.flash| == FLASH_SIZE && m.mode.Started? && NoReset(events)
    requires forall k | 0 <= k < |events| :: !Exits(After(Rebooted(fw, m), events[..k]), events[k])
    ensures var r := After(Rebooted(fw, m), events).mode; r.Running? || r.Failed?
  {
    hide IsValid, Step, Exits, NoReset, After;
    EndedLoopIsNoticed(fw, m);
    StayingLeavesIff(Rebooted(fw, m), events);
  }

  // The two programs one after the other: the firmware takes in a stream, and
  // if that ends its loop, the watchdog leaves the bootloader waiting.
  method ServeAndReboot(fw: Firmware, input: seq<byte>, ghost m: Machine) returns (ghost after: Machine)
    requires fw.Valid() && !fw.halted && !fw.bootRequested && fw.reliable && fw.driver.device.Genuine?
    requires FlashOps.Steady(fw.driver.device.chip)
    requires |m.flash| == FLASH_SIZE && m.mode.Started?
    modifies fw, fw.parser, fw.parser.command, fw.parser.payload, fw.driver
    ensures fw.Valid() && fw.halted == Stream(old(fw.Contents()), input).halted
    ensures after == if fw.halted then Machine(m.flash, 0, Running(0, true, 0)) else m
  {
    hide Stream, IsValid, Step;
    var taken := MainLoop.Serve(fw, input);
    if fw.halted {
      EndedLoopIsNoticed(fw, m);
      after := Rebooted(fw, m);
    } else {
      after := m;
    }
  }
}
