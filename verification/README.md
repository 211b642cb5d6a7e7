# OpenArty in Dafny

A model, with proofs, of the self-contained state machines and arithmetic
kernels on the C and C++ side of OpenArty: the flash driver against the
simulated flash, the UART simulator, the debugging bus and its compressed
protocol, the 64-bit division and the high-word multiplications of the ZipCPU
library and board code, the three CRCs, the Internet checksum, the clock
scheduler, the Wishbone memory and the DDR3 protocol checker of the simulation.

Code that works by updating variables is a class or a method with the same
fields, branches and loops.  Each is proved against a function of the old
state, or against the property itself; what the source promises is then proved
of these functions, over all inputs and over whole runs.  `dafny verify
dfyconfig.toml` checks everything.

## How it is laid out

| files | what they hold |
|---|---|
| `Common.dfy` | options, powers of two, division facts, bitwise operations on numbers |
| `FlashDevice.dfy`, `FlashRuns.dfy`, `FlashSim.dfy` | the flash as a function of its state and pins, what holds in all its runs, and the simulator object that is that function |
| `FlashReset.dfy`, `FlashTimer.dfy`, `FlashCommands.dfy` | how the continuous read modes end; a run in which the write timer rises; commands that the driver does not use |
| `FlashBus.dfy`, `FlashSpec.dfy`, `FlashDriver.dfy` | a byte over SPI as eight clock periods with any pauses; what a write should leave and which operations it takes; the driver, down to the pins |
| `Uart.dfy`, `UartStream.dfy`, `UartWave.dfy` | the serialiser and deserialiser; streams of characters over one wire; the line from the setup word |
| `TtyCodec.dfy`, `TtyWrite.dfy`, `TtyRead.dfy`, `TtyRuns.dfy`, `TtySafe.dfy`, `TtyBus.dfy` | the six-bit code; writes and reads against the far end of `rtl/wbubus`; the accesses of a whole sequence of calls, and which sequences are safe; the host object that makes them |
| `Udiv.dfy`, `SoftMultiply.dfy` | division and multiplication |
| `BlockCrc.dfy`, `CommandCrc.dfy`, `EthernetCrc.dfy`, `Checksum.dfy` | CRC-16, CRC-7, the Ethernet CRC, the Internet checksum |
| `Clocks.dfy`, `MemSim.dfy`, `DdrBank.dfy`, `DdrSim.dfy` | the clock scheduler, the memory with a delay line, the DDR3 checker |

`rising_edge` and `falling_edge` of a clock are true just at such an edge
(`Clocks.TbClock.RisingEdge`, `FallingEdge`), and the bytes of a store are
merged by `MemSim.MergedBytes`; these have no row of their own.

## Where the code departs from what is said of it

* `FLASHDRVR::write` initialises the inner `len` at line 462 from itself.  The
  model has the evident intent: the end of the caller's data less `start`.
* The flash's write timer does not always fall while a write is in progress: a
  chip select that rises on the wake-up command 0xab starts it again.
  `FlashRuns.TimerFalls` says exactly when it falls, and `FlashTimer.TimerRises`
  is a run from power-up in which it rises.  The driver never sends this
  command, so its polling ends.
* At the end of the address of an erase, `flashsim.cpp:608-610` asserts with
  masks that overlap: it fails for every sector from 0x400000 on, although the
  part has 16 MB (`FlashDevice.EraseMasks`, `FlashDriver.EraseStops`).  `write`
  runs into it just when such a sector needs an erase (`FlashDriver.Write`).
* The regdefs.h of this board defines `QSPI_FLASH`, with which `place_online`
  puts the part into a continuous quad read.  The model is the driver without
  it; what takes the part out of such a mode, `take_offline`, is modelled for
  every mode.
* `devbus.h` explains block transfers as loops over `a+i`; the code steps
  addresses by four bytes, and so does the model.
* `writev` without words sends nothing but notes the address as sent.  The two
  ends stay in step just when the far end was there already
  (`TtyWrite.EmptyCall`); otherwise the next write there goes astray
  (`TtyWrite.EmptyMisleads`).
* A write that sends its address empties the host's table for reads
  (`ttybus.cpp:469`), but the far end announces no address for it
  (`wbuexec.v:274-281`), so that it keeps its own.  A read that follows without
  an address of its own, such as that of a register just written, may then get
  a reference that the host looks up in the wrong place.  `TtySafe.SafeIff`
  says for which sequences of calls this cannot happen, and
  `TtySafe.ReadBackFails` has one for which it can; so can the poll of the
  flash's status after a read of its memory.
* A request for eight words without increment is spelled 0x2e, which the far
  end takes for the end of a write.  A read without increment gets all of its
  words just when its length modulo 512 is not 8 (`TtyRuns.NothingLost`,
  `TtyRuns.EightLost`).
* The difference of two addresses at line 402 of `ttybus.cpp` is unsigned, so
  a step backwards is always sent in absolute form.
* With fewer than eight data bits the UART simulator merges a character that is
  too wide with the parity bit (`UartWave.FrameBit`) and does not deliver what
  was queued; `UartStream.UnalteredIff` says for which settings it does.
* `cltz` of zero is 63.
* `mpyuhi` loses a carry; it is exact just when the sum of the middle products
  fits in a word, which it does for all non-negative integers.  The largest
  unsigned words lose one (`SoftMultiply.CarryLost`).
* The two bodies of `ipcksum` agree on all packets of a length just when that
  is no more than 32768 words; on longer ones just when the sum fits in a word.
* The final assertion of `ipchecksum` holds just when the header has three
  words or more, or its sum folds to 0xffff (`Checksum.Ipchecksum`,
  `Checksum.ShortHeaderFails`).
* Two SD commands that differ in one byte share their CRC just when the
  difference is 0x89.
* In the DDR3 checker the test `if (DDR_READ)` is of a constant, so the write
  counter never leaves zero.

## Model

| member | source | states |
|---|---|---|
| FlashSimulator.FlashSim.Operator | sim/verilated/flashsim.cpp:150-629 | one call of operator() takes the object to the next state of the device, or stops where an assertion fails; the pins driven back; a log of programs and erases |
| FlashSimulator.FlashSim.ChipSelectHigh | sim/verilated/flashsim.cpp:162-244 | a rising chip select starts the pending program, erase or register write and resets the shift registers |
| FlashSimulator.FlashSim.AndPage | sim/verilated/flashsim.cpp:176-184 | the loop over the page buffer ANDs it into one page, and nothing else changes |
| FlashSimulator.FlashSim.EraseFrom | sim/verilated/flashsim.cpp:192-212 | the erase loops set a range to 0xff, and nothing else changes |
| FlashSimulator.FlashSim.Switch | sim/verilated/flashsim.cpp:299-447 | the switch over the command byte decides state, mode, status, timer and output, or fails |
| FlashSimulator.FlashSim.TakePageData | sim/verilated/flashsim.cpp:579-605 | address and data of a page program; the page buffer wraps within its page |
| FlashSimulator.FlashSim.TakeReadByte | sim/verilated/flashsim.cpp:498-578 | the reads fetch a byte where their dummy cycles have passed and no write is in progress |
| FlashDevice.EraseMasks | sim/verilated/flashsim.cpp:608-610 | the assertion on the masked erase address holds if and only if the address is below 0x400000 |
| FlashRuns.RunInv | sim/verilated/flashsim.cpp:78-100 | the invariant holds throughout every run from power-up, whatever the pins do |
| FlashRuns.ArmedBy | sim/verilated/flashsim.cpp:316-430 | a pending program or erase was accepted under the same chip select with WEL set and WIP clear |
| FlashRuns.MemoryChanges | sim/verilated/flashsim.cpp:162-212 | in every run memory changes only when the chip select rises on an accepted command; the change is one AND within a page, one erased 64 kB sector or the whole chip, and leaves WIP set and WEL clear |
| FlashRuns.BusyKeepsMemory | sim/verilated/flashsim.cpp:308-430 | while a write is in progress memory stays as it is |
| FlashRuns.TimerFalls | sim/verilated/flashsim.cpp:154-160 | WIP implies a positive timer; the next call lowers it if and only if the chip select does not rise on a wake-up command, or the timer was above what that sets; WIP clears just when the timer was 1 |
| FlashTimer.TimerRises | sim/verilated/flashsim.cpp:216-218 | a run from power-up in which the timer of an erase in progress rises, at the chip select behind a wake-up command |
| FlashCommands.RegistersReadBack | sim/verilated/flashsim.cpp:458-467 | after a write of both registers a status and a configuration read return what was written to the bits that can be, while the write is in progress and when it is over |
| FlashCommands.BulkErases | sim/verilated/flashsim.cpp:206-211 | the bulk erase command leaves 0xff everywhere |
| FlashCommands.FastReads | sim/verilated/flashsim.cpp:512-525 | the fast read loads the bytes from its address on, one for each byte from the dummy byte on |
| FlashBus.TickCompletes | sim/verilated/flashsim.cpp:257-299 | the eighth falling clock edge of a byte, after any pauses, processes the whole byte |
| FlashBus.SpiBus.Send | sim/verilated/flashsim.cpp:245-272 | eight clock periods with any number of idle calls between them are one byte step of the device, and return the byte it had loaded |
| FlashBus.SpiBus.EndCommand | sim/verilated/flashsim.cpp:162-244 | raising the chip select ends the command, after any number of further calls |
| FlashReset.ResetStep | sim/verilated/flashsim.cpp:257-297 | a clock period with the data line high, whatever the other three carry, takes a part in any read mode one step towards the end of the mode |
| FlashBus.SpiBus.SendOnes | sw/host/flashdrvr.cpp:132-132 | a reset byte to a part in any mode is eight such steps, with pauses of any length |
| FlashSpec.ProgramIs | sim/verilated/flashsim.cpp:183-183 | programming a page through the page buffer ANDs exactly the bytes sent into memory |
| Bytes.And8Bits | sim/verilated/flashsim.cpp:183-183 | that AND is the one of the bits |
| FlashSpec.PageFilled | sw/host/flashdrvr.cpp:286-298 | programming a page, or skipping it because it is all ones, leaves the wanted bytes where no 0 bit has to become 1 |
| FlashSpec.SectorFilled | sw/host/flashdrvr.cpp:440-461 | programming a sector that needs no erase from the word of its first difference leaves exactly the data |
| FlashSpec.ErasedSectorFilled | sw/host/flashdrvr.cpp:448-461 | so does erasing it and programming the part of the data inside it, with 0xff around the data |
| FlashSpec.MatchingSector | sw/host/flashdrvr.cpp:445-446 | a sector that matches needs no erase and is already as it should be |
| FlashSpec.NextSector | sw/host/flashdrvr.cpp:414-415 | writing the sectors one after another never disturbs the decision for a later one |
| FlashSpec.WrittenAt | sw/host/flashdrvr.cpp:414-461 | what write leaves, byte by byte: data in its place, and outside it 0xff where a byte of the data in the same 64 kB needs a 0 turned into a 1, else what was there |
| FlashSpec.ErasesExactly | sw/host/flashdrvr.cpp:431-441 | a write erases a sector, and once only, exactly when some wanted byte of it needs a 0 bit turned into a 1 |
| FlashSpec.RepeatIsSilent | sw/host/flashdrvr.cpp:414-446 | after a write the data is in place, and repeating it performs no erase and no program and changes nothing |
| FlashSpec.LowSurvives | sim/verilated/flashsim.cpp:607-611 | a range below 0x400000 can be written whatever is there |
| FlashSpec.EasySurvives | sim/verilated/flashsim.cpp:607-611 | so can any range that is blank, or that has been written with the same data |
| FlashSpec.SurvivesByLog | sim/verilated/flashsim.cpp:607-611 | the part stops exactly on the writes whose operations have an erase of a sector from 0x400000 on |
| FlashDriver.FlashDriver.TakeOffline | sw/host/flashdrvr.cpp:128-140 | the reset sequence takes any part with no write in progress or pending, in whatever continuous read mode, to the start of an SPI command, with memory, status and log as they were |
| FlashDriver.FlashDriver.FlashId | sw/host/flashdrvr.cpp:97-126 | asks for the identity once, and gets that of the part |
| FlashDriver.FlashDriver.PollStatus | sw/host/flashdrvr.cpp:208-209 | each poll returns the status loaded a byte ago and lowers a running timer |
| FlashDriver.FlashDriver.Wait | sw/host/flashdrvr.cpp:200-213 | polling the status register ends, for every timer, with no write in progress |
| FlashDriver.FlashDriver.ReadBytes | sw/host/flashdrvr.cpp:426-427 | reads exactly the contents of the flash |
| FlashDriver.EraseStops | sim/verilated/flashsim.cpp:607-611 | an input on which it fails: the erase of the sector at 0x400000 |
| FlashDriver.FlashDriver.EraseSector | sw/host/flashdrvr.cpp:215-269 | the part survives exactly for the sectors below 0x400000; then it succeeds, with or without verification, exactly one sector is erased, and it is ready again |
| FlashDriver.FlashDriver.VerifyErased | sw/host/flashdrvr.cpp:243-263 | true if and only if every byte of the sector is 0xff |
| FlashDriver.FlashDriver.PageProgram | sw/host/flashdrvr.cpp:271-356 | succeeds and leaves the AND of the data with what was there, without a command if the data is all ones |
| FlashDriver.Clip | sw/host/flashdrvr.cpp:462-467 | the clipped piece is the rest of the page or of the data in the sector, whichever ends first |
| FlashDriver.FlashDriver.Scan | sw/host/flashdrvr.cpp:431-442 | the comparison loop finds whether a bit has to be set, and else the word of the first difference |
| FlashDriver.FlashDriver.Examine | sw/host/flashdrvr.cpp:419-443 | it decides for the flash's own contents: erase if and only if needed, skip if and only if all matches |
| FlashDriver.FlashDriver.ProgramPages | sw/host/flashdrvr.cpp:459-472 | the page loop programs exactly its range of the sector, page by page |
| FlashDriver.FlashDriver.WriteSector | sw/host/flashdrvr.cpp:414-474 | one turn of the sector loop survives unless it has to erase a sector from 0x400000 on; then it leaves the sector as specified and logs exactly its operations |
| FlashDriver.FlashDriver.Write | sw/host/flashdrvr.cpp:393-487 | for any prior contents and any word-aligned range, the part survives if and only if no sector from 0x400000 on needs an erase; then write returns true, leaves exactly the data in it, every other byte as it was or 0xff where its sector had to be erased, performs exactly the specified operations, and ends with the write enable off |
| FlashDriver.WriteToNew | sw/host/flashdrvr.cpp:393-487 | the objects as constructed meet what write demands, and survive it whatever the range |
| Uart.DbluartSim.Receive | sim/verilated/dbluartsim.cpp:353-388 | the receiver half of tick(), as a step of the receiver |
| Uart.DbluartSim.Transmit | sim/verilated/dbluartsim.cpp:390-431 | the transmitter half of tick(), as a step of the transmitter; a character leaves the queue when it is loaded |
| Uart.DbluartSim.Tick | sim/verilated/dbluartsim.cpp:348-434 | one tick of both halves |
| UartWave.FrameBit | sim/verilated/dbluartsim.cpp:396-414 | the bits of a frame in every format: start, data lowest first, parity merged with a character that is too wide, stop |
| UartWave.CountedAll | sim/verilated/dbluartsim.cpp:405-412 | with eight data bits the parity is taken of the eight bits of the character |
| UartWave.Waveform | sim/verilated/dbluartsim.cpp:158-168 | from the setup word to the line, tick by tick, for any characters to send |
| UartStream.FromSync | sim/verilated/dbluartsim.cpp:348-434 | in the middle of a frame the receiver samples each bit half a bit after its edge, for every baud count |
| UartStream.FromLate | sim/verilated/dbluartsim.cpp:353-365 | a receiver that ends a frame after the next start bit has begun still finds that start bit |
| UartStream.FromPickup | sim/verilated/dbluartsim.cpp:358-365 | and sets its counter by how long the start bit has lasted |
| UartStream.InOrder | sim/verilated/dbluartsim.cpp:348-434 | at every moment of every run the characters reported are those queued, in order, none twice or skipped, with at most two on their way |
| UartStream.AllDelivered | sim/verilated/dbluartsim.cpp:348-434 | for every baud count, frame format and pattern of arrivals, all characters are reported within a frame time for each and one bit |
| UartStream.EightBitStream | sim/verilated/dbluartsim.cpp:348-434 | with eight data bits the stream reported is the stream queued, unaltered |
| UartStream.UnalteredIff | sim/verilated/dbluartsim.cpp:370-370 | characters arrive unaltered if and only if there are eight data bits, or seven and a parity bit fixed at 0 |
| UartStream.Wire | sim/verilated/dbluartsim.cpp:348-434 | two objects ticked in turn, the output of one being the input of the other, behave as the link of these theorems |
| TtyCodec.DeviceReads | rtl/wbubus/wbutohex.v:66-79 | the circuit that reads the line takes every character of charenc for the value that it stands for |
| TtyCodec.HostReads | rtl/wbubus/wbusixchar.v:62-77 | chardec reads every character that the circuit spells as its value, and takes no other for one |
| TtyCodec.ParseCodes | rtl/wbubus/wbureadcw.v:71-134 | a stream of codewords is read as that stream |
| TtyCodec.AddressFields | rtl/wbubus/wbudecompress.v:91-102 | in the shift register of the far end the slices that it takes for an address hold the address sent, in every form |
| TtyCodec.WriteFields | rtl/wbubus/wbudecompress.v:74-87 | those that it takes for a word, a place in the table and the increment hold these |
| TtyCodec.ReadFields | rtl/wbubus/wbudecompress.v:107-113 | those that it takes for the length of a read and the increment hold these, and no read is the end of a write |
| TtyWrite.FindRefFinds | sw/host/ttybus.cpp:257-268 | the table search finds the latest entry that holds the word and has been written, or says there is none |
| TtyWrite.AddressReaches | sw/host/ttybus.cpp:388-472 | what encode_address sends takes the far end to the address |
| TtyWrite.AddressIsShort | sw/host/ttybus.cpp:397-468 | in at most six characters, never more than the absolute form, and in the difference form only if that is shorter |
| TtyWrite.RefsAreHeld | sw/host/ttybus.cpp:257-279 | every back-reference is 1 to 255 and names an entry that the far end holds, with the word's value |
| TtyWrite.CallReaches | sw/host/ttybus.cpp:227-324 | a call of writev makes the far end perform exactly the writes (a + 4ip, buf[i]), in order |
| TtyWrite.EmptyCall | sw/host/ttybus.cpp:243-247 | a call without words keeps the ends in step if and only if the far end was at its address |
| TtyWrite.EmptyMisleads | sw/host/ttybus.cpp:243-247 | when it was not, the next write to that address goes to where the far end was instead |
| TtyWrite.CallsReach | sw/host/ttybus.cpp:227-324 | any sequence of calls performs exactly its writes, by a far end that mirrors the table |
| TtyWrite.BlockWriteIsLoop | sw/host/devbus.h:101-121 | a block write does what the loop of single writes does |
| TtyRead.Recognise | sw/host/ttybus.cpp:609-720 | the first character of a reply tells its kind, and the rest its value |
| TtyRead.AddressReply | rtl/wbubus/wbucompress.v:105-112 | the slices of an announced address, long or short, hold the address |
| TtyRead.DataReply | rtl/wbubus/wbucompress.v:366-383 | those of a word, or of its place in the table, hold these beside the increment |
| TtyRead.WordIsRead | sw/host/ttybus.cpp:594-728 | whatever the far end chose, readword returns a word and leaves the rest of the transcript; it is the word of the memory if the host has the far end's table |
| TtyRead.Noted | sw/host/ttybus.cpp:622-640 | readword notes an interrupt or a fault if and only if it takes one |
| TtyRead.BlockIsRead | sw/host/ttybus.cpp:537-543 | so do n calls: the address ends where it should, and with the far end's table the words are those of the memory in turn |
| TtyRead.SinglesAreRead | sw/host/ttybus.cpp:360-380 | single reads one after another, each answered in any way, return the words of the memory and keep the host in step |
| TtyRead.BlockIsLoop | sw/host/devbus.h:83-99 | a block read and a loop of single reads, each answered in any way of its own, return the same words and leave the host in step |
| TtyBus.TtyBus.EncodeDiff | sw/host/ttybus.cpp:400-423 | the characters of a difference address |
| TtyBus.TtyBus.EncodeAbsolute | sw/host/ttybus.cpp:430-468 | those of the absolute form, where it is no longer |
| TtyBus.TtyBus.EncodeAddress | sw/host/ttybus.cpp:388-472 | throws if and only if misaligned; else sends the address codeword and starts the read table afresh, or nothing if already there |
| TtyBus.TtyBus.FindBack | sw/host/ttybus.cpp:257-268 | the search loop over the table |
| TtyBus.TtyBus.WriteWord | sw/host/ttybus.cpp:255-297 | one word: its characters and the table, counter and address after it |
| TtyBus.TtyBus.Writev | sw/host/ttybus.cpp:227-324 | sends exactly the codewords of the call, thirty-two words at a time, with one line end behind the last; a misaligned address throws and changes nothing |
| TtyBus.TtyBus.Readword | sw/host/ttybus.cpp:594-728 | reads one word or throws, as specified, and consumes exactly its replies |
| TtyBus.TtyBus.Readcmd | sw/host/ttybus.cpp:474-491 | the characters of a request of up to 519 words |
| TtyBus.TtyBus.Request | sw/host/ttybus.cpp:521-531 | the requests of one turn: blocks of up to 512 words until two are outstanding or all are asked for |
| TtyBus.TtyBus.ReadBlocks | sw/host/ttybus.cpp:520-543 | the windowed loop reads what so many calls of readword read, and never has more than 1024 words outstanding nor reads one before it is asked for |
| TtyBus.TtyBus.Readv | sw/host/ttybus.cpp:509-558 | terminates with all the words, or throws with the address of the first that failed, or leaves the program on a wrong final address |
| TtyBus.TtyBus.ReadChars | sw/host/ttybus.cpp:134-152 | the next characters of the stream, however long the device takes over them and in whatever pieces they come |
| TtyBus.TtyBus.Readio | sw/host/ttybus.cpp:360-380 | one word, or an exception with its address; its own test of the address never fails |
| TtyBus.TtyBus.Read | sw/host/ttybus.cpp:509-584 | with the far end in step, readi and readz make it load exactly the words of the read in order, and both are in step again; what is returned are these words if the host has the far end's table or sends the address |
| TtyBus.TtyBus.ReadByWords | sw/host/devbus.h:83-99 | the loop of calls of readio returns the same words, by the same loads in the same order, and both ends are in step again |
| TtyBus.TtyBus.Run | sw/host/devbus.h:63-121 | in any sequence of reads and writes, the far end makes exactly the accesses wanted in their order and both stay in step; if the calls are safe, each returns the words expected |
| TtyRuns.OpKeeps | rtl/wbubus/wbuexec.v:274-281 | what a call does to the tables: a read that sends its address makes them agree again, a write that sends one makes them differ unless the far end's is empty |
| TtyRuns.MemoryWins | sw/host/devbus.h:63-121 | on a memory that nothing else changes, the words expected are those of all the accesses performed on it one after another |
| TtySafe.SafeIsRight | sw/host/ttybus.cpp:462-470 | safe calls return the words expected, whatever the answers |
| TtySafe.SafeIff | sw/host/ttybus.cpp:462-470 | from a new bus, calls return the words expected for all memories and all answers if and only if no read without an address of its own follows a write with one, unless a read came in between, or none before the write |
| TtySafe.ReadBackFails | rtl/wbubus/wbucompress.v:186-195 | a read of one register, a write to another and a read back of it: some answer comes out wrong |
| TtyRuns.RequestsFetch | sw/host/ttybus.cpp:521-531 | the requests of a read load its words in order, all of them but a last eight without increment |
| TtyRuns.RequestsReach | rtl/wbubus/wbudecompress.v:145-160 | with the address in front: what a whole read makes the far end load |
| TtyRuns.NothingLost | sw/host/ttybus.cpp:481-483 | these are all the words of the read if and only if it counts up or its length modulo 512 is not 8 |
| TtyRuns.EightLost | sw/host/ttybus.cpp:481-483 | of eight words from one address none is loaded |
| Udiv.ZipBitrev | sw/zlib/udiv.c:48-55 | the loop reverses thirty-two bits |
| Udiv.Cltz | sw/zlib/udiv.c:91-121 | the exact number of leading zeros of every value but zero, for which it is 63 |
| Udiv.HighWords | sw/zlib/udiv.c:143-153 | where the divisor's low half vanishes, dividing high words gives the quotient |
| Udiv.ShiftSubtract | sw/zlib/udiv.c:158-168 | the shift-subtract loop gives the quotient |
| Udiv.Udivdi3 | sw/zlib/udiv.c:125-170 | floor(a/b) for all 64-bit a and all b > 0, by each of the ways |
| Udiv.Divdi3 | sw/zlib/udiv.c:211-227 | the quotient rounded towards zero for all operands but the least number and -1, which wraps |
| Udiv.Umoddi3 | sw/zlib/umod.c:53-61 | the remainder |
| SoftMultiply.Limbs | sw/board/cputest.c:669-675 | the three limbs of the shifted multiplicand |
| SoftMultiply.LowBits | sw/board/cputest.c:660-687 | the first loop has the product with the low sixteen bits of b |
| SoftMultiply.SoftMpyuhi | sw/board/cputest.c:656-709 | floor(ab / 2^32) for all unsigned words |
| SoftMultiply.SoftMpyshi | sw/board/cputest.c:711-730 | the high word of the signed product for all integers, the least included |
| SoftMultiply.Mpyuhi | sw/board/exmulti.c:97-116 | the high word less 2^16 where the middle sum overflows; right if and only if it does not |
| SoftMultiply.CrossFits | sw/board/exmulti.c:107-113 | it does not for non-negative integers, nor for a up to 2^31 and b of a thousand million |
| BlockCrc.RegisterIsRemainder | sim/verilated/sdspisim.cpp:601-609 | the register is the remainder of the block, followed by sixteen zeros, on long division by x^16 + x^12 + x^5 + 1 |
| BlockCrc.ThreeDigits | sim/verilated/sdspisim.cpp:586-614 | a block with a known CRC |
| BlockCrc.Blockcrc | sim/verilated/sdspisim.cpp:586-614 | computes this although the 32-bit variable is masked only at the end |
| BlockCrc.CheckedIsZero | sim/verilated/sdspisim.cpp:616-621 | a block of any length followed by its CRC has the CRC zero |
| BlockCrc.AddBlockCrc | sim/verilated/sdspisim.cpp:616-621 | writes the two bytes behind the block and nothing else |
| BlockCrc.BurstIsSeen | sim/verilated/sdspisim.cpp:601-613 | blocks of equal length that differ only within two neighbouring bytes have different CRCs |
| CommandCrc.Cmdcrc | sim/verilated/sdspisim.cpp:561-576 | the CRC of a command, although its chars are extended by their sign |
| CommandCrc.CrcIsRemainder | sim/verilated/sdspisim.cpp:561-576 | it is the remainder of the bits of the command, followed by seven zeros, on long division by x^7 + x^3 + 1, in front of a one |
| CommandCrc.GoIdle | sim/verilated/sdspisim.cpp:561-576 | 0x95 for the command that resets a card |
| CommandCrc.SendInterfaceCondition | sim/verilated/sdspisim.cpp:561-576 | 0x87 for the one that asks for its voltage |
| CommandCrc.Collision | sim/verilated/sdspisim.cpp:561-576 | commands that differ in one byte share their CRC if and only if the difference is 0x89 |
| CommandCrc.CheckCmdcrc | sim/verilated/sdspisim.cpp:578-584 | accepts if and only if the sixth byte is the CRC of the first five |
| CommandCrc.Altered | sim/verilated/sdspisim.cpp:578-584 | an accepted command altered in one byte is accepted if and only if it is one of the first five and altered by 0x89 |
| EthernetCrc.FcsIsRemainder | sw/host/crctest.cpp:11-48 | the value is the complemented remainder of clause 3.2.9, first thirty-two bits complemented, bytes in wire order |
| EthernetCrc.ThreeDigits | sw/host/crctest.cpp:11-48 | a message with a known value |
| EthernetCrc.Calccrc | sw/host/crctest.cpp:11-48 | computes this over the first bytelen bytes of a packet of words |
| EthernetCrc.Residue | sw/host/crctest.cpp:11-48 | any message followed by its value gives 0x1cdf4421 |
| EthernetCrc.Checked | sw/host/crctest.cpp:11-48 | the same for a message of whole words with the word calccrc returns stored behind it |
| EthernetCrc.BurstIsSeen | sw/host/crctest.cpp:21-33 | messages that differ only within four neighbouring bytes have different values |
| Checksum.IpcksumC | sw/board/ipcksum.c:47-53 | the checksum of what is left of the sum in one word; both loops end |
| Checksum.IpcksumAsm | sw/board/ipcksum.c:55-75 | the Internet checksum of every packet of at least one word |
| Checksum.ChecksumCompletes | sw/board/ipcksum.c:55-75 | with the checksum the halves add up to a multiple of 0xffff, which is what RFC 1071 has it for |
| Checksum.Example | sw/board/ipcksum.c:55-75 | the example of RFC 1071 |
| Checksum.BodiesAgree | sw/board/ipcksum.c:47-76 | the two agree on a packet if and only if its sum fits in a word |
| Checksum.LengthsThatAgree | sw/board/ipcksum.c:47-76 | and on all packets of a length if and only if that is at most 32768 words |
| Checksum.HeaderSum | sw/host/manping.cpp:190-197 | two loops and two folds give the folded sum of the header |
| Checksum.Ipchecksum | sw/host/manping.cpp:183-211 | the third word gets the checksum, the rest stays; the final assertion holds if and only if the header has three words or more or its sum folds to 0xffff |
| Checksum.ShortHeaderFails | sw/host/manping.cpp:183-211 | a header of one word that fails it |
| Checksum.HeadersPass | sw/host/manping.cpp:183-211 | every header of 5 to 15 words checks to zero afterwards |
| Clocks.TbClock.constructor | sim/verilated/tbclock.h:62-68 | a clock starts after its falling edge; it is in a valid phase if and only if its period is four picoseconds or more |
| Clocks.TbClock.TimeToEdge | sim/verilated/tbclock.h:70-105 | the time to the next multiple of the half period; neither impossible case arises |
| Clocks.TbClock.Advance | sim/verilated/tbclock.h:121-139 | a step of at most half a period keeps the last rising edge and the tick count exact, and returns the level |
| Clocks.StepToNext | sim/verilated/testb.h:183-192 | the least of the four times leads to an edge, with no edge in between |
| Clocks.EdgeTimes | sim/verilated/testb.h:87-91 | the edges of the four clocks by their periods |
| Clocks.StepsAreWide | sim/verilated/testb.h:194-194 | from the start or any edge, it is more than one picosecond |
| Clocks.EveryEdgeOnce | sim/verilated/testb.h:182-233 | every edge of every clock is the time of exactly one tick |
| Clocks.TestBench.constructor | sim/verilated/testb.h:80-92 | the four clocks start in step |
| Clocks.TestBench.Tick | sim/verilated/testb.h:182-233 | goes to the very next edge of any clock, never failing its assertion; levels and tick counts are exact, and each callback has been made once for every falling edge |
| MemSim.MemSim.constructor | sim/verilated/memsim.cpp:55-71 | memory and ring have the least power of two of places that suffices |
| MemSim.RingAnswers | sim/verilated/memsim.cpp:139-148 | the place read out is that of the request of delay cycles before |
| MemSim.LastStore | sim/verilated/memsim.cpp:150-182 | a word is what the last full store to it left |
| MemSim.MemSim.Apply | sim/verilated/memsim.cpp:109-220 | a store changes the bytes selected of its word and nothing else does; with CYC held, ACK in a cycle if and only if STB so many cycles before, and a load returns the word that it found; without CYC the ring is emptied |
| DdrBank.StepFollows | sim/verilated/ddrsdramsim.cpp:64-145 | a bank accepts a command if and only if it is in order for the commands before it: ten NOOPs after ACTIVATE for a read or write, ten after PRECHARGE for ACTIVATE or REFRESH |
| DdrSim.DdrSdramSim.Tick | sim/verilated/ddrsdramsim.cpp:279-428 | one clock in operational mode, or a failed assertion |
| DdrSim.AcceptedIff | sim/verilated/ddrsdramsim.cpp:279-428 | a run is accepted if and only if every input is in order, by rules in terms of the run alone |
| DdrSim.OpenRows | sim/verilated/ddrsdramsim.cpp:310-428 | which rows a command opens and closes: ACTIVATE that of the bank addressed, PRECHARGE that, or all with address bit 10 |
| DdrSim.PrechargeAll | sim/verilated/ddrsdramsim.cpp:314-324 | a PRECHARGE of all banks and ten clocks of waiting make a refresh possible in any accepted run |
| DdrSim.OpenReads | sim/verilated/ddrsdramsim.cpp:111-120 | a row open for ten clocks of waiting can be read and written whenever a NOOP would be accepted |
| DdrSim.ReadsAreLate | sim/verilated/ddrsdramsim.cpp:111-120 | in every accepted run a read or write comes at least 11 clocks after the ACTIVATE of its row, with no PRECHARGE of its bank or of all between |
| DdrSim.RefreshFindsClosed | sim/verilated/ddrsdramsim.cpp:68-70 | every refresh finds all eight banks closed |
| DdrSim.RefreshAfterPrecharge | sim/verilated/ddrsdramsim.cpp:68-73 | and every row opened before it has been closed by a PRECHARGE of its bank |
| DdrSim.RefreshesAreOften | sim/verilated/ddrsdramsim.cpp:300-301 | among any 1560 clocks there is a refresh |
| DdrSim.RefreshIsLong | sim/verilated/ddrsdramsim.cpp:326-330 | no row is opened within 320 clocks of a refresh |
| DdrSim.ActivateWaits | sim/verilated/ddrsdramsim.cpp:90-95 | between two ACTIVATEs of a bank there is a PRECHARGE of it or of all, and eleven clocks or more after that, unless it followed at once on the first |

## Left out

- FlashDriver.FlashDriver.Write: the driver is the one without QSPI_FLASH, where place_online does nothing; verify_config, which returns true, is not modelled; words and byte swapping are bytes in memory order.
- FlashDriver.FlashDriver.TakeOffline: a part in deep power down, writing its status register, or waking up.
- FlashDriver.FlashDriver.EraseSector: takes sector addresses, as write gives it; what the bits below a sector do is in the device.
- FlashSimulator.FlashSim.Operator: the delay lines of simtick, the debugging output and the registers the constructor leaves unset beyond arbitrary values; reads past the end of the memory give 0, and a program or erase that is cut short after a read to the very end, which would write past it, changes nothing there; a fifth byte of the identity, which shifts by a negative count, is its last byte again, and is never used.
- FlashDevice.ReadData: the driver uses the quad and dual modes only to end them; what reads in these modes return is in the device, and nothing is proved of it, as the controller that makes them and restore_quadio are not part of this model. The same goes for the quad program, the clearing of the status errors and deep power down, beyond what holds in every run.
- Uart.DbluartSim.Tick: sockets, and the eighth bit that tells the command from the console stream; queues stand for both. The bit machine of rawtick in sim/verilated/uartsim.cpp is the same. The counter of cycles since the last change is not bounded by an int. Baud counts are at least 1.
- Uart.DbluartSim.constructor: calling setup again in the middle of a frame.
- TtyBus.TtyBus.Readword: the compaction of stray characters in lclreadcode; streams consist of valid codewords and line ends. The codes that stand for nothing do not occur.
- TtyBus.TtyBus.LclReadCode: a device that never answers; every character comes after some finite number of polls, and there are no timeouts.
- TtyBus.TtyBus.Writev: readidle, which drops what comes back during a write; the size of the character buffer.
- The far end is a reference for rtl/wbubus: codewords and their effects, not clocks, FIFOs or idle codes; the table entry it writes while a word is compressed is never referred to, and the end of a write that it sees in a line end has no effect.
- TtyBus.TtyBus.Run: the memory behind the far end is arbitrary from call to call, but does not change during one read; empty and misaligned calls are left to the contracts of Writev and Readv.
- Udiv.Cltz: the assembly form for the ZipCPU.
- Udiv.Divdi3: the negation of the least number, undefined in C, wraps around.
- Checksum.IpcksumAsm: a packet of no words, which the loop cannot end on.
- Clocks.TestBench.Tick: tracing and the core itself; time is not bounded by 64 bits.
- MemSim.MemSim.Apply: loading files; the bus is one word wide, as NWRDWIDTH says.
- DdrSim.DdrSdramSim.Tick: data slots, DQS and termination checks, which can only reject more; the minimum times before PRECHARGE and ACTIVATE, which nothing checks.
- DdrSim.DdrSdramSim.constructor: the reset sequence; the model starts where it ends, with all banks closed after a refresh.
- The SD command state machine, the OLED, MDIO and Ethernet simulators, register names, disassembly, ELF loading and the boards' programs.
