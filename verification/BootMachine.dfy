// Resets, start keys and modes around the bootloader
// (firmware/bootloader/BootloaderCDC.c and the BOOTLOAD handling of
// firmware/main.c).
module BootMachine {
  import opened Octets
  import opened Application
  import opened AvrFlash
  import opened Avr109

  const MAGIC_BOOT_KEY: nat := 0xdc42
  const STAY_KEY: nat := 0xb007

  // The bootloader's loop, the two endless loops that wait for the watchdog
  // (after leaving the loop, and after a transfer failure), and the
  // application.
  datatype Mode = Running(current: nat, stay: bool, ticks: nat) | Leaving | Failed | Started

  datatype Machine = Machine(flash: seq<byte>, key: nat, mode: Mode)

  // PowerUp and Cut leave RAM undefined; an application may leave any key
  // behind when the watchdog ends it, as BOOTLOAD does on purpose. Cut is a
  // loss of power after some page operations of a command.
  datatype Event =
    | PowerUp(key: nat)
    | ExternalReset
    | Watchdog
    | Crash(key: nat)
    | Tick
    | Host(packets: seq<seq<byte>>, room: nat)
    | Cut(packets: seq<seq<byte>>, room: nat, count: nat, key: nat)

  // Application_Jump_Check, and the start of main when it returns.
  function AtReset(flash: seq<byte>, watchdog: bool, key: nat): Machine
    requires |flash| == FLASH_SIZE
  {
    Machine(flash, 0,
      if watchdog && key == MAGIC_BOOT_KEY && IsValid(flash) then Started
      else Running(0, watchdog && key == STAY_KEY, 0))
  }

  function Leave(m: Machine): Machine {
    Machine(m.flash, MAGIC_BOOT_KEY, Leaving)
  }

  // One pass through main's loop; without packets only the timeout is looked at.
  function Pass(m: Machine, packets: seq<seq<byte>>, room: nat): Machine
    requires |m.flash| == FLASH_SIZE && m.mode.Running?
  {
    if packets == [] then
      if !m.mode.stay && m.mode.ticks >= 20 && IsValid(m.flash) then Leave(m) else m
    else
      match Serve(m.flash, m.mode.current, packets, room)
      case Broken(ops) => Machine(ApplyAll(m.flash, ops), 0, Failed)
      case Done(ops, current, exit, _, _) =>
        var served := Machine(ApplyAll(m.flash, ops), m.key, Running(current, true, m.mode.ticks));
        if exit then Leave(served) else served
  }

  function Step(m: Machine, e: Event): (r: Machine)
    requires |m.flash| == FLASH_SIZE
    ensures |r.flash| == FLASH_SIZE
  {
    match e
    case PowerUp(key) => AtReset(m.flash, false, key)
    case ExternalReset => AtReset(m.flash, false, m.key)
    case Watchdog => if m.mode.Leaving? || m.mode.Failed? then AtReset(m.flash, true, m.key) else m
    case Crash(key) => if m.mode.Started? then AtReset(m.flash, true, key) else m
    case Tick =>
      if m.mode.Running? && m.mode.ticks < 255 then m.(mode := m.mode.(ticks := m.mode.ticks + 1)) else m
    case Host(packets, room) => if m.mode.Running? then Pass(m, packets, room) else m
    case Cut(packets, room, count, key) =>
      if m.mode.Running? then
        var ops := Serve(m.flash, m.mode.current, packets, room).ops;
        var done := if count < |ops| then ops[..count] else ops;
        AtReset(ApplyAll(m.flash, done), false, key)
      else m
  }

  // A power-up leaves the bootloader looking at its flash.
  function After(m: Machine, events: seq<Event>): (r: Machine)
    requires |m.flash| == FLASH_SIZE
    ensures |r.flash| == FLASH_SIZE
  {
    if events == [] then m
    else Step(After(m, events[..|events| - 1]), events[|events| - 1])
  }

  lemma {:induction false} AfterConcat(m: Machine, a: seq<Event>, b: seq<Event>)
    requires |m.flash| == FLASH_SIZE
    ensures After(m, a + b) == After(After(m, a), b)
    decreases |b|
  {
    if b == [] {
      assert a + b == a;
    } else {
      AfterConcat(m, a, b[..|b| - 1]);
      assert (a + b)[..|a + b| - 1] == a + b[..|b| - 1];
    }
  }
}
