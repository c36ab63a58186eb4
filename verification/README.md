# P2000T cartridge: a Dafny model of flashing, firmware images and booting

The P2000T programmable cartridge holds an SST39SF020A flash chip behind an
ATmega32U4. The desktop application talks to the cartridge over a USB serial
line, and the cartridge's own firmware is replaced through a small bootloader.
This project models that code and proves what it is for.

**The cartridge flash path.** `Sst39` is the chip: its unlock sequences, a byte
program that only clears bits, sector and chip erase, identification mode and
DQ7 polling. A socket may also hold something unknown that answers reads in any
way. `Programmer` is the driver, one port write at a time, on a board where one
8-bit port is both the input of the address latches and the data bus; `FlashOps`
says exactly what its operations make of a chip, how far they come on a slow one
and which status they end with. `Protocol` is the byte-at-a-time parser,
`ProtocolRuns` what it keeps over every run, `Timeouts` its two timeouts as seen from
outside, `Device` one turn of the main loop and the meaning of a stream of bytes,
`MainLoop` the loop over a whole stream, `Commands` the effect of each command and
`Answers` the answers that need no chip. `Link` follows one exchange from both ends,
`Studio` is the host's serial interface and `Workers` its two threads. `Emulator` is
the batch simulator of the host's tests, and `Agreement` compares it with the
firmware, byte for byte.

**The firmware-image pipeline.** `IntelHex` says what Intel HEX text means.
`HexRecords` says what a list of records stands for, independently of any reader.
`HexImage` reads, writes and pads images, `ApplicationImage` stamps and validates
them, `Readers` compares the two decoders on every text, `HexTexts` says which texts
they accept in terms of the records in them, `FirmwareUpdater` is the desktop application's own decoder and validator, `Installer` the check made before a
complete image is installed, and `CombinedImage` relates all of these. `Application` says when application
flash is valid. `AvrFlash`, `Avr109`, `BootMachine` and `Bootloader` are the
bootloader: page operations, commands, resets and the code itself; `BootRuns` and
`Upload` hold what is true of every run and of every upload, `Queries` what the host
is answered, `Handover` how the firmware hands over to the bootloader, and
`CounterRuns` is a run to the end of the address counter.

**The CRCs.** `Crc16` and `Crc32` define both checksums bit by bit and prove what
errors they detect for messages of any length. `Polynomials` has division over GF(2);
`Crc16Division` and `Crc32Division` prove that both checksums are the remainders of
their message by the polynomials given by their exponents. `Octets` has the byte
arithmetic.

The code that works by changing things in place is modelled by classes and
methods with loops, each proved against a specification function; the theorems
are about those functions and about sequences of their steps.

## Assumptions

- A *healthy* chip identifies itself as BF B6 and finishes each operation within
  the polls the driver grants. Results that need this say so; what a slow chip,
  another chip or an unknown device leads to is stated beside them, up to the runs of
  the host's threads. Bus safety needs no assumption.
- A run of the host, and a stream for the main loop, begins with a chip that has no
  operation under way.
- A link is either reliable or not; only the claim that a run does not fail needs a
  reliable one. A reliable link may take data in pieces of any size and deliver
  answers in pieces of any size; it loses nothing, delivers an answer before the
  host gives up waiting for it, and leaves no gap between two bytes of a command or
  a payload that reaches the parser's limit of 1000 or 2000 ms.
- Reopening the port finds the operating system's buffers empty. On an unreliable
  link, output of the device may be lost and bytes for it may come late, but none are
  altered. Altered payloads and answers are covered by the CRC results.
- An AVR page erase or page write is atomic. Power can fail between any two.

## Where code and expectation differ

- The count of received payload bytes reaches 258 and stays there after a complete
  payload, so "at most 257" holds only while a payload is being received
  (`ProtocolRuns.ReceivedReaches258`, with the exact condition in
  `ProtocolRuns.ReceivedFullIff`).
- A bank read that is pending when another bank command with a number of 16 or
  more arrives is redirected to a bank that does not exist
  (`ProtocolRuns.StaleBankRead`, `ProtocolRuns.PendingBankIff`). The main loop hands
  the read over at once, so this needs another caller.
- `set_bank_range` adds in unsigned 32-bit arithmetic, so a huge count passes its
  check; the run then fails at the first bank past the last one
  (`Workers.OverlongRangeAccepted`, `Workers.ReadThread.SetBankRange`,
  `Workers.ReadThread.Run`).
- With a chip other than the SST39SF020A the emulator answers a valid RDBK or RDBANK
  with status 3, while the firmware reads without looking at the identity and
  answers status 0 and the contents. Everything else is answered alike
  (`Agreement.CommandAgrees`, `Agreement.OtherChipDiffers`).
- BOOTLOAD ends the firmware's main loop, and the emulator goes on answering: in
  BOOTLOAD followed by DEVIDSST it answers both (`Agreement.BootAnsweredTwice`). The
  emulator also takes a line break between two commands as the start of a command,
  while the firmware skips it. So for every chip, every stream and every way of
  cutting it into writes the outputs are equal exactly when no contents are asked of
  another chip and fewer than eight bytes arrive from the first that the firmware does
  not take (`Agreement.RawAgreesIff`). Without the line breaks between commands that
  leaves what follows BOOTLOAD (`Agreement.EmulatorAgreesIff`).
- The two HEX decoders accept different texts. Python's `bytes.fromhex` skips white
  space inside a record, and `str.splitlines` cuts at more characters than a line
  feed; the desktop application refuses both. The desktop application trims lines,
  so it reads an indented record and skips a line of blanks; Python refuses
  both. For every text, what both accept they read the same, and where either
  accepts they agree exactly when no line, as Python cuts it, starts with a blank, and
  every line feed delimited line is unbroken after trimming (`Readers.ReadersAgreeIff`,
  `FirmwareUpdater.AcceptsIff`; for single lines `Readers.LineAgreesIff`). There are
  witnesses in both directions (`FirmwareUpdater.TrailingBlankDiffers`,
  `FirmwareUpdater.InnerBlankDiffers`, `FirmwareUpdater.SomeImageIsStampable`).
- The installer's range check wraps at 32 bits: a record that stores an octet at
  0xffffffff can be added to every text that is accepted (`Installer.TopOctetAccepted`,
  and `Installer.WrappedTextAccepted` for a text of five records;
  `Installer.BeyondFlashIff` for one record). An empty record above 0x7000 counts as a
  bootloader (`Installer.BootloaderIff`). `Installer.AcceptedIff` is exact for every
  text.
- The bootloader's block-write check wraps at 32 bits as well, for exactly one address
  and size (`Avr109.RangeCheckIff`). Block reads can bring the counter there
  (`CounterRuns.WrapIsReached`). The write is then confirmed and changes nothing
  (`Avr109.WrappedWriteAccepted`).

## Model

| member | source | states |
|---|---|---|
| `Crc16.CrcUpdate` | firmware/protocol.c:32-40 | the nested octet and bit loops compute the CRC-16 of polynomial 0x1021 defined by single shifts |
| `Crc16.Chain` | firmware/protocol.c:32-40 | the CRC of a concatenation is the CRC of the second part started from that of the first |
| `Crc16.ShiftLinear` | firmware/protocol.c:36-38 | the shift step distributes over exclusive or |
| `Crc16.ShiftInjective` | firmware/protocol.c:36-38 | the shift step is injective: no information leaves the register |
| `Crc16.ShiftKeepsParity` | firmware/protocol.c:36-38 | the shift step keeps the parity of the register, because the polynomial has an even number of terms |
| `Crc16.CrcIsCrcBits` | firmware/protocol.c:32-40 | loading whole octets equals feeding their bits one by one |
| `Crc16.Residue` | firmware/protocol.c:75-82 | a frame carries its own CRC exactly when the register is zero after all of its bits |
| `Crc16.BurstDetected` | firmware/protocol.c:32-44 | two bit strings of any length with equal residue never differ only inside sixteen consecutive bits |
| `Crc16.OddFlipsDetected` | firmware/protocol.c:32-44 | two bit strings of any length with residue zero differ in an even number of places |
| `Crc16.TrailerAccepted` | src/src/serial_interface.cpp:310-321 | the CRC a sender appends is the one a receiver accepts |
| `Crc16.DamageDetected` | firmware/protocol.c:32-44 | any frame of any length damaged in an odd number of bits, or within sixteen consecutive bits, fails its check |
| `Polynomials.RemainderIsUnique` | firmware/protocol.c:32-44 | a dividend and a divisor have one remainder of lower degree |
| `Polynomials.DivideIsRemainder` | firmware/protocol.c:34-39 | a register that takes in one coefficient after the other and subtracts the divisor at its top ends with the remainder |
| `Crc16Division.CrcIsRemainder` | firmware/protocol.c:32-40 | for every message the CRC is the remainder of the message times x^16 by x^16 + x^12 + x^5 + 1 |
| `Crc16Division.OnlyTheCrc` | firmware/protocol.c:32-40 | and no other value is |
| `Crc16Division.FrameIsMultipleIff` | firmware/protocol.c:75-82 | a frame matches exactly when its polynomial is a multiple of the divisor, its CRC high octet first |
| `Crc16Division.CheckValue` | src/src/serial_interface.cpp:310-321 | the nine digits have CRC 0x31c3 |
| `Crc32.ComputeCrc` | src/src/firmwareupdater.cpp:27-36 | the loops compute the reflected CRC-32 of section 8 of RFC 1952 |
| `Crc32.ShiftInjective` | firmware/bootloader/BootloaderCDC.c:90 | the reflected shift step is injective |
| `Crc32.FourOctetChangeDetected` | firmware/bootloader/BootloaderCDC.c:86-91 | a change confined to four consecutive octets of a message of any length changes the register |
| `Crc32.ChecksumDetects` | firmware/bootloader/BootloaderCDC.c:86-92 | two messages with equal CRC-32 that differ only within four consecutive octets are equal |
| `Crc32.DwordOfOctets` | firmware/tools/application_image.py:30-31 | writing a 32-bit value as four octets, least significant first, and reading it back gives the value |
| `Crc32.DwordOctets` | firmware/bootloader/BootloaderCDC.c:79-92 | the first of four octets is the least significant |
| `Crc32Division.ChecksumIsRemainder` | firmware/bootloader/BootloaderCDC.c:86-92 | for every message, octets least significant bit first and the first 32 coefficients complemented, times x^32: the remainder by x^32 + x^26 + x^23 + x^22 + x^16 + x^12 + x^11 + x^10 + x^8 + x^7 + x^5 + x^4 + x^2 + x + 1 is the complement of the checksum |
| `Crc32Division.OnlyTheChecksum` | firmware/bootloader/BootloaderCDC.c:86-92 | and no other value is |
| `Crc32Division.ChecksumOfNothing` | src/src/firmwareupdater.cpp:27-36 | the empty message has checksum 0 |
| `Crc32Division.CheckValue` | src/src/firmwareupdater.cpp:27-36 | the nine digits have checksum 0xcbf43926 |
| `Sst39.ProgramSequence` | firmware/sst39sf020.c:157-162 | the byte-program sequence on a resting chip clears bits of that byte and changes no other |
| `Sst39.ErasePhases` | firmware/sst39sf020.c:178-183 | the five unlock cycles of an erase reach the state in which the sixth selects chip or sector erase |
| `Sst39.IdentificationSequence` | firmware/sst39sf020.c:86-101 | entering, reading and leaving identification mode returns the identity and leaves the chip as it was |
| `Sst39.ReadRangeOfResting` | firmware/sst39sf020.c:113-145 | consecutive reads of a resting chip return the memory and leave the chip alone |
| `Sst39.BlankRegionProgrammable` | firmware/sst39sf020.c:152-155 | an erased region passes the check that programming only clears bits, for any data |
| `Programmer.Driver.constructor` | firmware/sst39sf020.c:25-33 | initialisation goes only through safe pin states and ends in the idle state, with no bus cycle |
| `Programmer.Driver.Put` | firmware/sst39sf020.c:17-84 | each port write must lead to a safe state: never two bus drivers, a write pulse only with a stable driven address and data; a write cycle reaches the chip exactly at the end of the pulse |
| `Programmer.Driver.Idle` | firmware/sst39sf020.c:17-23 | from any quiet state to the idle state, without a bus cycle |
| `Programmer.Driver.Address` | firmware/sst39sf020.c:45-55 | the latches drive exactly the 18 bits asked for |
| `Programmer.Driver.CommandWrite` | firmware/sst39sf020.c:58-70 | exactly one write cycle, at the full 18-bit address, with the data |
| `Programmer.Driver.ReadByte` | firmware/sst39sf020.c:72-84 | exactly one read cycle at that address; the result is what the chip drove |
| `Programmer.Driver.ReadId` | firmware/sst39sf020.c:94-101 | the identity of a resting chip, which is left as it was |
| `Programmer.Driver.ReadBlock` | firmware/sst39sf020.c:113-145 | from any quiet state of the bus the fast path returns, for every device, what 256 independent reads at block*256+i return, with the same bus traffic |
| `Programmer.Driver.AwaitBit7` | firmware/sst39sf020.c:163-167 | bounded polling succeeds exactly when the operation ends within the bound |
| `Programmer.Driver.ProgramByte` | firmware/sst39sf020.c:157-169 | status 0 only after the byte read back equal in this call, for any device; on a resting chip bits of this byte are cleared as the chip does and no other byte changes, for any data |
| `Programmer.Driver.ProgramBlock` | firmware/sst39sf020.c:147-173 | any device: 0 only after every byte read back equal during this call; another chip: 3 and untouched; right chip: 6 and untouched unless only bits are cleared; otherwise exactly the bytes up to the first that is not done within the polls granted are programmed, with 4 if there is one, else 0 |
| `Programmer.Driver.Erase` | firmware/sst39sf020.c:175-203 | any device: 0 only after the whole chip was read as 0xff at the end of this call; another chip: 3 and untouched; right chip, however slow: everything is 0xff, and the status is 0 exactly when the erase ends within the polls granted, else 4 |
| `Programmer.Driver.EraseSector` | firmware/sst39sf020.c:205-220 | exactly the 4 KiB sector is erased |
| `Programmer.Driver.EraseBank` | firmware/sst39sf020.c:222-237 | any device: 0 only after the bank was read as 0xff at the end of this call; another chip: 3 and untouched; right chip: exactly the sectors up to the first that is not done within the polls granted are erased, with 4 if there is one, else 0 and the 16 KiB bank is 0xff |
| `FlashOps.ProgramAllEffect` | firmware/sst39sf020.c:156-172 | byte by byte up to the first that takes too long: a first part of the data is stored, all of it exactly on success, nothing else changes, and a healthy chip never fails |
| `FlashOps.EraseSectorsEffect` | firmware/sst39sf020.c:228-231 | sector by sector up to the first that takes too long: a first run of the sectors is blank, all of them on success, nothing else changes, and a healthy chip never fails |
| `FlashOps.OneMoreSector` | firmware/sst39sf020.c:228-231 | the four sectors tile the bank: one more erased sector extends the erased range by 4 KiB |
| `Protocol.HexValueIff` | firmware/protocol.c:45-70 | digits have a value exactly when they are the canonical upper-case digits of that value |
| `Protocol.ParseHex` | firmware/protocol.c:45-57 | the digit loop succeeds exactly on such digits and returns their value |
| `Protocol.AcceptKeepsInv` | firmware/protocol.c:71-124 | one received byte keeps the parser's invariant and asks the driver only for blocks below 1024 and banks below 16 |
| `Protocol.CommandParser.Feed` | firmware/protocol.c:71-124 | the in-place parser follows the state machine; any device: a status 0 for a payload or an erase only after the driver read everything back; a resting chip of any identity and speed: answer and flash exactly as specified |
| `Protocol.CommandParser.TickParser` | firmware/protocol.c:12-24 | the in-place timeout follows the state machine |
| `Protocol.CommandParser.TakeBankRead` | firmware/protocol.c:25-31 | a pending bank read is handed over once |
| `Protocol.CommandParser.ResetParser` | firmware/protocol.c:11 | all input, the poisoned state and a pending bank read are dropped |
| `Protocol.CheckFrame` | firmware/protocol.c:75-82 | the comparison of the two received CRC octets is the codeword test |
| `ProtocolRuns.RunKeepsInvariant` | firmware/protocol.c:11-31 | over every interleaving: at most seven command bytes, a writing parser has none, fewer than 258 payload bytes and a block below 1024, and the idle time stays below the limit |
| `ProtocolRuns.ReceivedFullIff` | firmware/protocol.c:74-82 | exactly when the received count is 258 after a step |
| `ProtocolRuns.ReceivedReaches258` | firmware/protocol.c:74-82 | a complete payload leaves the received count at 258 |
| `ProtocolRuns.RunReflects` | firmware/protocol.c:71-124 | over every run the parser state is determined by the last bytes taken in: an open write by its command and the payload so far |
| `ProtocolRuns.ProgramIsFramed` | firmware/protocol.c:74-85 | over every run a block is programmed only when the last 266 bytes are its write command and a payload with matching CRC, and with exactly that data |
| `ProtocolRuns.DamagedPayloadRejected` | firmware/protocol.c:75-82 | a payload damaged in an odd number of bits or within sixteen bits, with any ticks below the limit between its bytes, is taken in silence and answered with status 1; none of its bytes is dispatched |
| `ProtocolRuns.PayloadGrows` | firmware/protocol.c:75-78 | bytes with ticks below the limit between them accumulate in order |
| `ProtocolRuns.PoisonedUntilReset` | firmware/protocol.c:73 | after a payload timeout nothing is done and nothing changes until a reset |
| `ProtocolRuns.DroppedAtTheLimit` | firmware/protocol.c:12-24 | however time is split into ticks, input is dropped at the first tick where the time since the last byte reaches 1000 ms for a command and 2000 ms for a payload, never earlier |
| `ProtocolRuns.TimeoutReported` | firmware/protocol.c:12-24 | status 7 is due at exactly that tick, for payloads only |
| `Timeouts.CommandSurvivesIff` | firmware/protocol.c:12-24 | one to seven bytes of a command survive any ticks exactly while these total less than 1000 ms, and are then dropped in silence |
| `Timeouts.PayloadSurvivesIff` | firmware/protocol.c:12-24 | a write command and fewer than 258 bytes of its payload survive exactly while the ticks total less than 2000 ms; exactly the tick that reaches that is reported, and the parser is poisoned |
| `Timeouts.SilentUntilReset` | firmware/protocol.c:73 | after that nothing is taken in and nothing is said until a reset |
| `Timeouts.SevenOnce` | firmware/main.c:86-88 | however the time is cut into turns, an unfinished payload is answered with one status 7, an unfinished command with nothing |
| `Timeouts.ClosedLineResets` | firmware/main.c:81-91 | with the line closed every turn leaves a parser that waits for a command, and what was received is lost |
| `ProtocolRuns.StaleBankRead` | firmware/protocol.c:98-103 | feeding RDBANK00 and RDBANK10 to a fresh parser leaves bank 16 to be handed over |
| `ProtocolRuns.PendingBankIff` | firmware/protocol.c:25-31 | a waiting bank read stays within the chip exactly as long as no bank command with a larger number is dispatched |
| `Device.ChainOneBlock` | firmware/main.c:47-60 | chaining the CRC over one more block of a bank gives the CRC of the longer part |
| `Device.Firmware.SendBank` | firmware/main.c:47-60 | the bank followed by the one-shot CRC of its 16 KiB, or a part of that when the USB stack fails |
| `Device.Firmware.Turn` | firmware/main.c:81-114 | one turn of the loop, for a resting chip of any identity and speed: time, line state, a byte, its answer and the flash; the loop ends exactly for BOOTLOAD, leaving key 0xb007; lost output resets the parser |
| `Device.Firmware.Receive` | firmware/main.c:92-103 | a received byte, its answer and the bank after it, for a resting chip of any identity and speed |
| `Device.StreamConcat` | firmware/main.c:81-114 | a stream in two parts: the second is taken in where the first ended, and not at all when the loop has ended |
| `MainLoop.Serve` | firmware/main.c:81-114 | the loop over a whole stream, with any quiet turns and any time below the limit between its bytes: what is sent, the flash, the parser and whether the loop has ended are those of the stream |
| `Emulator.Transport.ProcessWriteBuffer` | src/tests/support/emulated_serial_transport.cpp:100-207 | the in-place batch loop follows the emulator's specification |
| `Emulator.Transport.ProgramFlash` | src/tests/support/emulated_serial_transport.cpp:300-311 | all or nothing: data is copied exactly when only bits are cleared |
| `Emulator.Transport.EraseRange` | src/tests/support/emulated_serial_transport.cpp:313-319 | exactly the range becomes 0xff |
| `Emulator.ChunkingIrrelevant` | src/tests/support/emulated_serial_transport.cpp:58-69 | how the host cuts its bytes into writes does not matter |
| `Agreement.CommandAgrees` | src/tests/support/emulated_serial_transport.cpp:121-205 | for every chip identity and every eight bytes emulator and firmware leave the same state, and they answer alike exactly when the chip is the right one or the command is not a valid RDBK or RDBANK |
| `Agreement.StreamAgrees` | src/tests/support/emulated_serial_transport.cpp:100-207 | over a whole stream, for every chip: the same state until a byte arrives that the firmware does not take; equal output until contents are asked of another chip or eight such bytes have been collected, and different output ever after |
| `Agreement.RawAgreesIff` | src/tests/support/emulated_serial_transport.cpp:100-207 | for every chip, stream and chunking: equal output exactly when no contents are asked of another chip and fewer than eight bytes arrive from the first that the firmware skips as a line break or that follows BOOTLOAD; the flash is then equal as well |
| `Agreement.StrippedIsTheSame` | firmware/protocol.c:83 | taking the line breaks between commands out of a stream changes nothing for the firmware |
| `Agreement.EmulatorAgreesIff` | src/tests/support/emulated_serial_transport.cpp:100-207 | with line breaks between commands taken out, for every chip, stream and chunking: equal output exactly when no contents are asked of another chip and no complete command follows BOOTLOAD |
| `Agreement.EmulatorAgrees` | src/tests/support/emulated_serial_transport.cpp:100-207 | with the right chip and nothing after BOOTLOAD, for every stream, chunking and flash the emulator queues the bytes the firmware sends and ends with the same flash |
| `Agreement.BootAnsweredTwice` | firmware/main.c:106-113 | BOOTLOAD and DEVIDSST, for every idle cartridge: the firmware answers the first and ends its loop, the emulator answers both |
| `Agreement.OtherChipDiffers` | src/tests/support/emulated_serial_transport.cpp:150-193 | with any other chip a valid RDBK or RDBANK is answered 3 by the emulator, and 0 with the contents and their CRC by the firmware |
| `Commands.IdentifyEffect` | src/src/serial_interface.cpp:93-98 | DEVIDSST is answered with the two identity bytes of the chip and changes nothing |
| `Commands.EraseAllEffect` | src/src/serial_interface.cpp:191-196 | ERASEALL does to any resting chip what the driver's chip erase does, and answers its status |
| `Commands.EraseBankEffect` | src/src/serial_interface.cpp:179-189 | ERBANK as the host formats it does what the driver's erase of exactly that bank does, and answers its status |
| `Commands.ReadBankEffect` | src/src/serial_interface.cpp:128-141 | RDBANK answers 0, the bank and its CRC, and changes nothing |
| `Commands.ReadBlockEffect` | src/src/serial_interface.cpp:100-113 | RDBK answers 0, the block and its CRC, and changes nothing |
| `Commands.OpenWriteEffect` | src/src/serial_interface.cpp:156-168 | WRBK opens the write of exactly that block and answers 0 |
| `Commands.PayloadEffect` | src/src/serial_interface.cpp:169-177 | an intact payload is programmed into exactly the open block, as the driver does it, and answered with its status |
| `Answers.InfoAnswered` | firmware/protocol.c:88 | READINFO is answered with the sixteen octets of "P2000T-FW p01.00" |
| `Answers.VersionAnswered` | firmware/protocol.c:89-94 | READVERS is answered with 0, 2, 5 |
| `Answers.UnknownAnswered` | firmware/protocol.c:71-124 | eight bytes that are no command are answered with "ERRORCMD" and change nothing |
| `Answers.MissingAnswered` | firmware/protocol.c:98-123 | a bank or block that does not exist, or a number with other characters, is answered with status 2 and nothing else happens |
| `Answers.BreaksSkipped` | firmware/protocol.c:83 | between two commands exactly 13 and 10 are skipped; every other byte begins a command |
| `Answers.NumbersSpelled` | src/src/serial_interface.cpp:100-189 | numbers are written with upper-case digits, the highest first |
| `Link.TimePasses` | firmware/main.c:81-102 | waiting, losses and timeouts keep what host and device know of each other at every stage of an exchange |
| `Link.ByteArrives` | firmware/main.c:89-102 | so does every byte of a command or a payload |
| `Link.TakeReceived` | src/src/serial_interface.cpp:276-280 | taking n bytes off what was received leaves the rest of the answer |
| `Link.ByteOnTrack` | firmware/main.c:81-102 | on a reliable link every byte moves the exchange forward exactly, whatever time below the limit passes before it |
| `Link.StaysOnTrack` | firmware/main.c:81-102 | and turns without a byte keep it where it is |
| `Studio.SerialInterface.WriteBytes` | src/src/serial_interface.cpp:228-254 | any chunking delivers a first part of the data, and all of it on success |
| `Studio.SerialInterface.WaitForResponse` | src/src/serial_interface.cpp:256-281 | for any chunking of the output the next n bytes are returned and the rest kept; on a reliable link, with any time below the parser's limit passing, it does not fail |
| `Studio.SerialInterface.SendCommand` | src/src/serial_interface.cpp:204-218 | success means the whole command was echoed and took effect; failure means it did or nothing happened |
| `Studio.SerialInterface.GetChipId` | src/src/serial_interface.cpp:93-98 | the identity reported is that of the chip, whatever it is, and nothing changes |
| `Studio.SerialInterface.EraseChip` | src/src/serial_interface.cpp:191-196 | for any resting chip: success means that the driver erased it and said so; failure means that it did what it does or was not asked; on a reliable link it succeeds whenever the driver does |
| `Studio.SerialInterface.EraseBank` | src/src/serial_interface.cpp:179-189 | the same for exactly one bank |
| `Studio.SerialInterface.BurnBlock` | src/src/serial_interface.cpp:156-177 | the same for programming exactly one block; out of range or of another size nothing is sent |
| `Studio.DamagedReadRejected` | src/src/serial_interface.cpp:142-153 | a block or bank response damaged in an odd number of bits, or within sixteen consecutive bits, is refused |
| `Studio.SerialInterface.ReadBlock` | src/src/serial_interface.cpp:100-126 | what is returned is the block in flash |
| `Studio.SerialInterface.ReadBank` | src/src/serial_interface.cpp:128-154 | what is returned is the bank in flash |
| `Workers.PartlyBytes` | src/src/flashthread.cpp:83-95 | an image programmed up to block k: first k blocks are the image, the rest of the region is 0xff, all else unchanged |
| `Workers.FlashThread.SetCompleteRom` | src/src/flashthread.cpp:7-15 | accepts exactly 256 KiB and makes the thread ready |
| `Workers.FlashThread.SetBank` | src/src/flashthread.cpp:17-25 | accepts exactly banks 0 to 15 and 16 KiB and makes the thread ready |
| `Workers.FlashThread.SetEraseBank` | src/src/flashthread.cpp:34-41 | accepts exactly banks 0 to 15 |
| `Workers.FlashThread.Run` | src/src/flashthread.cpp:43-103 | success: the region is the image, all else unchanged; cancelled before block k: first k blocks the image, the rest blank; aborted: one of these stages, on a slow chip also inside a block or an erase; another chip: always aborted, and untouched; a reliable link and a healthy chip never fail |
| `Workers.OutsideUntouched` | src/src/flashthread.cpp:43-103 | however a run ends, and however slow the chip is, no byte outside the region changes |
| `Workers.ReadThread.SetBankRange` | src/src/readthread.cpp:5-12 | exactly which ranges are accepted, with 32-bit wrap-around |
| `Workers.OverlongRangeAccepted` | src/src/readthread.cpp:7 | bank 1 with 0xffffffff banks is accepted |
| `Workers.ReadThread.Run` | src/src/readthread.cpp:14-51 | a completed run holds exactly banks first..first+count, a cancelled one a first part; the chip is only read; with another chip it is always aborted; a reliable link and the right chip never fail |
| `IntelHex.DecodeEncode` | firmware/tools/hex_image.py:48-49 | decoding the hexadecimal text of octets gives the octets |
| `IntelHex.NibbleIff` | src/src/firmwareupdater.cpp:93-103 | exactly the digits of either case have a value |
| `IntelHex.DecodeIff` | src/src/firmwareupdater.cpp:93-103 | every two characters are one octet, the high half first |
| `IntelHex.RecordDamageDetected` | firmware/tools/hex_image.py:14-15 | any change of a single octet of a record makes it none |
| `IntelHex.MakeRecord` | firmware/tools/hex_image.py:46-49 | a record with this checksum is well formed and carries its address, type and data |
| `IntelHex.LinesOfText` | firmware/tools/hex_image.py:50 | splitting joined lines gives the lines back |
| `IntelHex.LineAgrees` | src/src/firmwareupdater.cpp:88-103 | on a line without white space Python and the desktop application read the same |
| `IntelHex.LineLimitIff` | src/src/firmwareupdater.cpp:118-122 | a lower limit rejects exactly the data records that end above it |
| `HexImage.ReadHex` | firmware/tools/hex_image.py:6-35 | the loop reads exactly the specified memory or fails |
| `HexImage.WriteHex` | firmware/tools/hex_image.py:38-50 | fails exactly on an empty map or an address of 0x10000 or more, else writes all touched rows in order |
| `HexImage.RowsAscend` | firmware/tools/hex_image.py:43-49 | one line of sixteen octets for every touched row and no other, addresses ascending |
| `HexImage.PaddedAt` | firmware/tools/hex_image.py:43-46 | padding: an address is added exactly when its row is touched, with 0xff |
| `HexImage.WrittenReads` | firmware/tools/hex_image.py:38-50 | the written text is read by either decoder, under any limit above its rows, as the padded memory |
| `HexImage.ReadWritten` | firmware/tools/hex_image.py:6-50 | reading what was written gives the memory extended with 0xff to the 16-byte rows it touches |
| `HexImage.WriteAgain` | firmware/tools/hex_image.py:38-50 | writing that again gives the identical text |
| `Application.FourOctetChangeInvalidates` | firmware/bootloader/BootloaderCDC.c:83-95 | any change of valid flash confined to four consecutive octets below the manifest makes it invalid, in the CRC range, in the tail or across |
| `Application.ValidLooksBelow` | firmware/bootloader/BootloaderCDC.c:72-96 | validity depends on the application section only |
| `Application.BlankManifestInvalid` | firmware/bootloader/BootloaderCDC.c:74-77 | an erased manifest makes flash invalid |
| `ApplicationImage.ManifestFields` | firmware/tools/application_image.py:21-31 | a manifest is made exactly for images with a reset vector at 0 that end below the manifest; it holds magic, format, version, length and the CRC of the image, octet by octet |
| `ApplicationImage.Stamp` | firmware/tools/application_image.py:34-39 | reads, adds the manifest octet by octet and writes; fails exactly when reading fails or no manifest can be made |
| `ApplicationImage.Validate` | firmware/tools/application_image.py:44-63 | accepts exactly complete manifests over flash that the bootloader finds valid, and returns its length and CRC |
| `ApplicationImage.StampedIsValid` | firmware/tools/application_image.py:21-41 | the stamped image is valid, with length and CRC of the input |
| `ApplicationImage.PaddingKeepsFlash` | firmware/tools/hex_image.py:43-46 | padding rows disturbs neither the CRC range nor the tail |
| `FirmwareUpdater.PlaceData` | src/src/firmwareupdater.cpp:128-135 | the two arrays hold the memory map; an overlap is found exactly when there is one |
| `FirmwareUpdater.ReadRecord` | src/src/firmwareupdater.cpp:93-110 | framing, digits, byte count and checksum are checked as specified |
| `FirmwareUpdater.ValidateApplicationHex` | src/src/firmwareupdater.cpp:79-197 | accepts exactly the texts whose decoded memory has a reset vector, a complete manifest and is valid for the bootloader; reports size, length, CRC and the highest address |
| `FirmwareUpdater.HighestIsLargest` | src/src/firmwareupdater.cpp:118-127 | the highest address reported is the largest end of any data record, empty ones included |
| `FirmwareUpdater.AcceptedImageBoots` | src/src/firmwareupdater.cpp:161-196 | whatever text is accepted, its octets on erased flash are valid for the bootloader |
| `FirmwareUpdater.StampedIsAccepted` | firmware/tools/application_image.py:34-63 | every stamped image is read back, passes both validators with the same memory, and is valid with the length and CRC of the input |
| `Readers.LineAgreesIff` | src/src/firmwareupdater.cpp:88-110 | for every line, with the trimming of one reader and the line separators of the other: each accepts one form only, what both accept they read the same, and they agree exactly when the line has both forms or both refuse it |
| `Readers.ReadersAgreeIff` | src/src/firmwareupdater.cpp:88-159 | the same for every text |
| `Readers.CutsAt` | firmware/tools/hex_image.py:8 | the characters at which each reader cuts a text |
| `Readers.TrimsOff` | src/src/firmwareupdater.cpp:88-90 | the characters that one reader trims and the other skips |
| `FirmwareUpdater.AcceptsIff` | src/src/firmwareupdater.cpp:79-197 | for every text: if both accept it they hold the same memory, and the desktop application and the Python tools (with a reset vector and no data record above 0x7000) come to the same verdict exactly on text of both forms or when both refuse |
| `HexRecords.ReadsIff` | firmware/tools/hex_image.py:8-33 | for both dialects, every limit and every list of lines: reading succeeds exactly when the lines that are not blank are records of kinds 0 to 5 in the shape of their kind, only the last is an end record, no data ends above the limit and none is stored twice; the memory is what the records store |
| `HexRecords.HoldsOne` | firmware/tools/hex_image.py:18-22 | records store one memory |
| `HexTexts.PythonReadsIff` | firmware/tools/hex_image.py:6-35 | the same for every text and the Python reader, with an end record and some data |
| `HexTexts.DesktopReadsIff` | src/src/firmwareupdater.cpp:79-159 | the same for every text and the desktop application, with data below 0x7000 |
| `HexTexts.AcceptsRecordsIff` | src/src/firmwareupdater.cpp:79-197 | a text is accepted exactly when it is such a text with an end record, and what it stores is an application image: a reset vector that is not blank, the manifest octet by octet, the length, the CRC, and nothing between image and manifest |
| `HexTexts.BaseFirst` | src/src/firmwareupdater.cpp:147-151 | a base address of zero before any text changes neither what is read nor whether it is accepted |
| `FirmwareUpdater.TrailingBlankDiffers` | src/src/firmwareupdater.cpp:90-91 | every stamped image followed by a line with a blank is accepted here and refused by Python |
| `FirmwareUpdater.InnerBlankDiffers` | firmware/tools/hex_image.py:13 | every stamped image with a blank inside its last record is accepted by the Python tools and refused here |
| `FirmwareUpdater.SomeImageIsStampable` | firmware/tools/application_image.py:21-27 | there is a stampable image |
| `FirmwareUpdater.LimitIff` | src/src/firmwareupdater.cpp:118-122 | the limit at 0x7000 rejects exactly the texts with a data record that ends above it |
| `FirmwareUpdater.RecordsAgreeIff` | src/src/firmwareupdater.cpp:93-110 | for a line that is trimmed already: it is a record here exactly when Python decodes it as one and it has no white space |
| `FirmwareUpdater.BlankInsideRecord` | firmware/tools/hex_image.py:13 | a blank inside any record makes the two decoders differ |
| `Installer.HexNibble` | tools/bootloader-installer/src/main.cpp:253-259 | succeeds exactly on hexadecimal digits of either case, with their value |
| `Installer.ReadDigits` | tools/bootloader-installer/src/main.cpp:281-282 | the digit loop decodes the record or fails, as the other decoders do |
| `Installer.ValidateCombinedImage` | tools/bootloader-installer/src/main.cpp:267-308 | the in-place scan accepts exactly the specified texts |
| `Installer.BeyondFlashIff` | tools/bootloader-installer/src/main.cpp:292-295 | a data record past the end of flash is let through exactly when its end wraps at 32 bits |
| `Installer.TopOctetAccepted` | tools/bootloader-installer/src/main.cpp:267-308 | to every accepted text two records can be added that store an octet at 0xffffffff |
| `Installer.WrappedTextAccepted` | tools/bootloader-installer/src/main.cpp:267-308 | a whole text of five records, one of them that, is accepted |
| `Installer.BootloaderIff` | tools/bootloader-installer/src/main.cpp:297 | a record counts as bootloader exactly when it stores an octet there or is empty and names an address above its start |
| `Installer.AcceptsRead` | tools/bootloader-installer/src/main.cpp:267-308 | a text that a strict reader reads below 0x8000 is accepted when it covers address 0 and reaches the bootloader section, and never without address 0 |
| `Installer.AcceptedIff` | tools/bootloader-installer/src/main.cpp:275-307 | a text is accepted exactly when its non-blank lines are records, every data record ends within flash or wraps around 32 bits, and there are an end-of-file record, data at address 0 and a record that stores above 0x7000 or is empty and names an address above it |
| `CombinedImage.Combine` | firmware/tools/hex_image.py:53-63 | combines exactly a valid application below 0x7000 with a bootloader that starts there and ends below 0x8000 |
| `CombinedImage.CombinedReads` | firmware/tools/hex_image.py:53-63 | the result reads back as the padded application and the padded bootloader, and the application in it is still valid |
| `CombinedImage.StampedCombines` | firmware/tools/hex_image.py:53-63 | every stamped image can be combined with a bootloader |
| `CombinedImage.CombinedInstalls` | tools/bootloader-installer/src/main.cpp:267-308 | the installer accepts every combination |
| `CombinedImage.CombinedIsNoUpdate` | src/src/firmwareupdater.cpp:118-122 | the desktop application never accepts a combination as an update |
| `AvrFlash.BootSectionKept` | firmware/bootloader/BootloaderAPI.c:38-76 | no sequence of page operations changes an octet at or above 0x7000 |
| `AvrFlash.BlockEffect` | firmware/bootloader/BootloaderCDC.c:326-354 | an erased and written page holds the data padded with 0xff, and nothing else changes |
| `AvrFlash.EraseEffect` | firmware/bootloader/BootloaderCDC.c:493-501 | after n page erases exactly the first n pages are 0xff |
| `AvrFlash.ManifestStaysBlank` | firmware/bootloader/BootloaderAPI.c:47-70 | a blank manifest stays blank under all page operations but the write of page 0x6f80 |
| `Avr109.TakeFlat` | firmware/bootloader/BootloaderCDC.c:364-385 | the octets fetched depend on the host's octets only, not on packets |
| `Avr109.AddressServed` | firmware/bootloader/BootloaderCDC.c:462-470 | an address command in any packets sets the counter to twice the word address |
| `Avr109.WriteServed` | firmware/bootloader/BootloaderCDC.c:276-356 | a full page write in any packets erases and writes exactly that page and moves on |
| `Avr109.ReadServed` | firmware/bootloader/BootloaderCDC.c:305-324 | a block read inside flash returns flash and changes none of it |
| `Avr109.ReadMovesOn` | firmware/bootloader/BootloaderCDC.c:305-324 | a block read of any size at any counter moves the counter on by its whole words, modulo 2^32 |
| `Avr109.RangeCheckIff` | firmware/bootloader/BootloaderCDC.c:296-305 | for every counter and size: a block write is let through exactly for one to a page of whole words at a page start that ends by 0x7000, or for a full page at counter 0xffffff80; the flash is written exactly in the first case |
| `Avr109.WrappedWriteAccepted` | firmware/bootloader/BootloaderCDC.c:296-305 | a page write at counter 0xffffff80 is confirmed, changes nothing, and leaves counter 0 |
| `Queries.DesktopAsks` | src/src/mainwindow.cpp:135-138 | for every flash, counter and cutting into packets: S is answered with P2KBOOT, s with 87 95 1E, b with Y 00 80, and nothing else happens |
| `Queries.OthersAsk` | firmware/bootloader/BootloaderCDC.c:446-485 | the same for t, a, p, V, P and L |
| `Queries.OctetIgnored` | firmware/bootloader/BootloaderCDC.c:438-445 | x, y and T take one more octet, whatever it is, and confirm |
| `Queries.UnknownCommand` | firmware/bootloader/BootloaderCDC.c:588-592 | an unknown command is answered with a question mark, the synchronisation octet not at all |
| `Queries.OtherMemory` | firmware/bootloader/BootloaderCDC.c:287-295 | a block of another memory is refused with a question mark after its header |
| `Queries.MalformedWrite` | firmware/bootloader/BootloaderCDC.c:296-304 | a malformed block write takes exactly its octets, is answered with a question mark and touches no page |
| `Queries.RestOfPacketDropped` | firmware/bootloader/BootloaderCDC.c:594-630 | what follows such a command in its packet is thrown away, and the packets behind it are not touched |
| `Queries.MalformedWriteAnswered` | firmware/bootloader/BootloaderCDC.c:296-304 | the same for the whole task of the bootloader, with its answer |
| `Queries.MalformedWriteWaits` | firmware/bootloader/BootloaderCDC.c:296-304 | with fewer octets than announced it is not answered and touches no page |
| `CounterRuns.ReadsMoveOn` | firmware/bootloader/BootloaderCDC.c:305-324 | a run of 65537 reads of 65534 octets and one of 65410, in any packets, brings the counter from 0 to 0xffffff80 and changes nothing else |
| `CounterRuns.ReadsExist` | firmware/bootloader/BootloaderCDC.c:305-324 | there is such a run |
| `CounterRuns.WrapIsReached` | firmware/bootloader/BootloaderCDC.c:296-305 | after that run a page write is confirmed, no octet of flash has changed, and the counter is 0 |
| `Bootloader.Bootloader.ApplicationIsValid` | firmware/bootloader/BootloaderCDC.c:72-96 | the checks and loops decide exactly the validity of the application section |
| `Bootloader.Bootloader.ApplicationJumpCheck` | firmware/bootloader/BootloaderCDC.c:112-123 | jumps exactly after a watchdog reset with the start key and valid flash; the key is always cleared |
| `Bootloader.Bootloader.Reset` | firmware/bootloader/BootloaderCDC.c:112-150 | a reset leads to the state of the reset machine |
| `Bootloader.Bootloader.MainLoopPass` | firmware/bootloader/BootloaderCDC.c:140-161 | one pass of the loop and its exit follow the reset machine |
| `Bootloader.Bootloader.ErasePage` | firmware/bootloader/BootloaderAPI.c:47-58 | erases exactly valid pages of the application section and clears the page buffer |
| `Bootloader.Bootloader.WritePage` | firmware/bootloader/BootloaderAPI.c:60-71 | writes the page buffer to exactly valid pages |
| `Bootloader.Bootloader.FillPage` | firmware/bootloader/BootloaderCDC.c:332-349 | the toggling loop puts exactly the fetched octets into the page buffer and counts words |
| `Bootloader.Bootloader.ReadBlock` | firmware/bootloader/BootloaderCDC.c:305-324 | the toggling loop returns consecutive octets |
| `Bootloader.Bootloader.ReadWriteMemoryBlock` | firmware/bootloader/BootloaderCDC.c:276-356 | type check, malformed writes, page write and read as specified, also when the host falls silent |
| `Bootloader.Bootloader.CdcTask` | firmware/bootloader/BootloaderCDC.c:418-630 | every command's page operations, response and counter, for every packet stream and every point of failure |
| `BootRuns.RunFromReset` | firmware/bootloader/BootloaderCDC.c:112-161 | over every run from any reset the application runs only on valid flash, and the start key exists only between leaving the loop and the next reset |
| `BootRuns.RunKeepsInv` | firmware/bootloader/BootloaderCDC.c:112-161 | the same from any state in which this holds |
| `BootRuns.StartsIff` | firmware/bootloader/BootloaderCDC.c:112-123 | for every event: the application runs afterwards exactly when it ran and was not reset, or flash is valid and the watchdog ended the left loop or an application that left the start key |
| `BootRuns.KeyDecides` | firmware/bootloader/BootloaderCDC.c:112-123 | what each key leads to when the watchdog ends an application: 0xdc42 starts it again if it is valid, 0xb007 keeps the bootloader waiting, any other lets its timeout run |
| `BootRuns.OtherResets` | firmware/bootloader/BootloaderCDC.c:112-150 | every other reset lets the timeout run, whatever is in RAM |
| `BootRuns.WatchdogEnds` | firmware/bootloader/BootloaderCDC.c:112-161 | after a transfer failure the watchdog brings the bootloader back, after its loop was left it starts a valid application |
| `Handover.EndedLoopIsNoticed` | firmware/main.c:106-113 | whenever the firmware's loop has ended, the key it left keeps the bootloader waiting |
| `Handover.SilenceStartsNothing` | firmware/bootloader/BootloaderCDC.c:112-147 | however long the host is silent then, nothing is started |
| `Handover.OnlyExitEnds` | firmware/bootloader/BootloaderCDC.c:112-147 | until a reset only an exit command ends that |
| `Handover.ServeAndReboot` | firmware/main.c:81-114 | the firmware's loop over a whole stream and the bootloader after it: the bootloader waits exactly when the stream held BOOTLOAD |
| `BootRuns.KeyUsedOnce` | firmware/bootloader/BootloaderCDC.c:114-118 | a second reset neither starts the application nor keeps the bootloader waiting |
| `BootRuns.BootloaderKept` | firmware/bootloader/BootloaderAPI.c:38-76 | over every run nothing at or above 0x7000 changes |
| `BootRuns.Stays` | firmware/main.c:106-113 | a BOOTLOAD request, which leaves 0xb007, or a received command keeps the bootloader waiting |
| `BootRuns.StayingLeavesIff` | firmware/bootloader/BootloaderCDC.c:140-147 | until a reset it then leaves its loop exactly for an exit command |
| `BootRuns.SilentRun` | firmware/bootloader/BootloaderCDC.c:140-147 | with a silent host the loop is left exactly when flash is valid and it comes round after twenty ticks |
| `BootRuns.StartsByItself` | firmware/bootloader/BootloaderCDC.c:112-161 | without host and request the application is started exactly when it is valid |
| `Upload.EraseBlanksManifest` | firmware/bootloader/BootloaderCDC.c:493-501 | an erase command blanks exactly the application section, even when its answer is never taken |
| `Upload.InvalidUntilCommit` | firmware/bootloader/BootloaderCDC.c:276-356 | from a blank manifest on, under every run, flash stays invalid and nothing is started until page 0x6f80 is written |
| `Upload.EraseThenNoStart` | firmware/bootloader/BootloaderCDC.c:276-356 | the same from any erase command on |
| `Upload.UploadProgress` | firmware/bootloader/BootloaderCDC.c:462-501 | after the erase and k pages flash is the first k pages of the image, blank above, and the bootloader as before |
| `Upload.ValidAtLastPage` | firmware/bootloader/BootloaderCDC.c:276-356 | ascending page writes of a valid image make flash valid exactly at the last page |
| `Upload.UploadStarts` | firmware/bootloader/BootloaderCDC.c:112-161 | a complete upload and an exit start the application exactly when the image is valid |
| `Upload.AcceptedTextStarts` | src/src/firmwareupdater.cpp:79-197 | every text the desktop application accepts, uploaded completely, starts |

## Left out

- Workers.FlashThread.Run: how often an unreliable link fails is not modelled; a failure may leave any stage of the run behind. A run that begins while the chip is still busy with an earlier, unfinished operation is not covered.
- Studio.SerialInterface.WriteBytes: the device receives what the transport takes before the call returns, or never; bytes that the transport still holds after a failed write and delivers later, even after the port was closed, are not modelled, so a late command after an aborted run is not covered.
- Studio.SerialInterface.OpenPort: discarding stale input is reduced to empty buffers after opening; clearing and timing of the operating system's buffers are not modelled.
- Device.Firmware.Turn: USB events that reset the parser in the middle of a flash operation (firmware/main.c:24-45) are not modelled; a lowered DTR line resets it between turns.
- Protocol.CommandParser.Feed: the answer is returned as a sequence instead of being written into the caller's buffer.
- Agreement.RawAgreesIff: the emulator knows neither slow chips nor timeouts, so a chip of the right identity is a healthy one here, and gaps in the stream stay below the parser's limit.
- Agreement.EmulatorAgreesIff: commands recorded for tests and deliberately corrupted echoes and CRCs of the emulator are not modelled.
- FirmwareUpdater.ValidateApplicationHex: error texts and line numbers are not modelled, and the guard against an overflowing byte count is left out because at most 0x7000 octets are ever stored.
- Readers.ReadersAgreeIff: text is a sequence of characters for both readers; the desktop application's bytes and Python's decoding of them, including a failing decoder, are not modelled.
- HexImage.ReadHex: decoding a file to characters, and Python's translation of line ends before splitting, are not modelled.
- Bootloader.Bootloader.ReadBlock: reads past the end of flash wrap around in the model.
- Bootloader.Bootloader.FillPage: filling a word of the page buffer twice between erasures overwrites it in the model; such a buffer never reaches flash.
- Avr109 commands that are compiled out (EEPROM, lock bits, single words) answer with a question mark and are not modelled further.
- Loss of power during a page operation, and whether an erase cut short leaves flash that passes the CRC by chance.
- The USB stack, endpoints, descriptors, LEDs, clock and fuse settings; endpoints are packet streams that can stop anywhere.
- Real time: delays are not modelled, polling is counted, and timeouts are ticks or bounded waiting; the milliseconds of a turn are given, not taken from the 11-bit USB frame counter.
- The Qt user interface, log windows, downloads, checksums of releases, AVRDUDE and the installer's probes.
- Version tables, DIP-switch labels and the bank-test ROM.
