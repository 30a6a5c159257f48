# Proofs about a PC BIOS

A model in Dafny of the parts of the firmware that carry state: the chipset's ROM shadowing over
PCI configuration space, the interrupt-driven serial transmitter, the ATA driver with INT 13h and
the drive hand-off, the real-mode interrupt trampoline and IRQ dispatch, DRAM configuration, the
text console, timer callbacks, number formatting and the keyboard's modifier flags. The code runs
against small models of the hardware: code is `method`s over class fields and arrays, specifications
are functions and predicates, and what the code is for is proved of those.

| file | models |
|---|---|
| `Types.dfy` | integer widths, dwords as four byte lanes, powers of two |
| `Pci.dfy` | configuration accesses, BAR sizing and device search (`pci.c`) |
| `Shadow.dfy` | PAM registers and ROM shadowing (`chipsets/440fx.c`) |
| `Serial.dfy` | the transmit ring and its handler, step by step (`serial.c`, `putc` in `output.c`) |
| `Ata.dfy` | the PIO driver against a BSY/DRQ device (`ata.c`; ATA/ATAPI-6, clauses 8 and 9) |
| `Int13.dfy` | the disk service and its geometry (`bios.c`) |
| `Boot.dfy` | drive discovery and boot hand-off (`main.c`) |
| `Frames.dfy` | the register frame of an interrupted program (`interrupt.h`) |
| `Trampoline.dfy` | register frames over two stacks (`interrupt.asm`, `interrupt.c`) |
| `Service.dfy` | INT 13h through the trampoline and back |
| `Irq.dfy` | IRQ registration, dispatch and end of interrupt (`interrupt.c`) |
| `Dram.dfy` | RAM probing and DRAM search on aliasing memory (`post.c`, `chipsets/um82c480.c`) |
| `Memory.dfy` | `memcpy` (`util.h`) |
| `Console.dfy` | the 25x80 screen against an unbounded document (`vga.c`) |
| `Timer.dfy` | callback schedules (`timer.c`, `inc_ticks` in `main.c`) |
| `Output.dfy` | `itoa` and `printf` (`output.c`) |
| `Keyboard.dfy` | modifier flags as a summary of history (`keyboard.c`) |

`dafny verify dfyconfig.toml` checks all of it.

## The hardware

- PCI configuration space is a byte per address behind the CF8 latch; what a store leaves in a byte
  is up to the device. The PAM registers take a change of one field, and bytes 58h to 5Fh their own
  values. Where sizing is concerned each bit is writable, cleared by writing 1, or read-only.
- The 440FX routes a read or a write between C0000h and FFFFFh by the two bits of the PAM field that
  covers it (offsets 59h to 5Fh).
- The UART has one holding register that empties at its own pace. Interrupt handlers run to
  completion between two steps of the main program.
- The ATA channel has up to two drives and any finite number of BSY periods before each sector. It
  rejects heads, sectors and LBAs that a drive does not have (all LBAs, if it has none), and everything
  on a packet device, which answers IDENTIFY with ERR. It ignores register writes while BSY or DRQ is
  set, where ATA/ATAPI-6 leaves the outcome open. The data register reads FFFFh when nothing is offered.
- The UMC controller maps addresses to memory cells by its configuration register in any way
  whatever; what no cell answers reads as all ones, or as ROM below 1M.
- The trampoline's memory is an array of bytes; a handler may do anything to it that leaves the
  saved stack pointer alone.

## Where the code falls short of the simplest claim

The code is modelled as it is; in these places a plain claim about it is false, and the exact
condition is proved instead.

- Writing sectors and reading them back gives the data back if and only if the drive has finished
  its last sector by then: `ata_write_lba` returns after the last word, `ata_read_lba` does not look
  at BSY before it writes the registers, and a busy drive does not take the command
  (`Ata.Channel.WriteThenRead`, `Ata.ReadTooSoon`).
- The 48-bit capacity of a drive whose capacity has bit 31 set comes out with all higher bits set
  (`Ata.WidenedExactly`).
- `ata_read_chs` and `ata_write_chs` OR the whole head number into the drive/head register: with the
  master selected, bit 4 of the head selects the slave, and the cached selection no longer agrees
  (`Ata.AgreementExactly`).
- AH=08h reports the number of heads where callers expect the last head. Drives with LBA are addressed
  by the same count, so it closes; for a drive without LBA a caller's LBA is reached if and only if it
  is below heads*sectors, and on a master of 16 heads the next ones go to the slave
  (`Int13.ChsReaches`, `Int13.SixteenHeads`).
- A drive without LBA is never booted, whatever is on it: its first sector is asked for by LBA
  (`Boot.Firmware.BootFromHd`, `Boot.CylinderDriveIsNotBooted`).
- Sizing a register clears the write-1-to-clear bits that were set in it, as in 1Fh of a PCI bridge;
  so does writing a byte beside them (`Pci.SizingRestores`, `Pci.SecondaryStatus`,
  `Pci.Bus.ConfigWriteB`). Configuration space is as before if and only if there were none
  (`Pci.Bus.SizeWindows`).
- A base address register of fewer than 16 bytes, as I/O registers may be, is sized as 16, and one that
  decodes only 16 bits comes out too big (`Pci.SizingIsExact`, `Pci.SixteenBits`).
- A PCI device behind an empty slot is not found (`Pci.GapHidesDevice`).
- `probeAll` stands still when it finds less RAM than its stride, which only strides above 1024 allow
  (`Dram.ProgressExactly`), and counts 1024 bytes twice when the RAM does not end where its stride
  does (`Dram.ContiguousTotal`).
- `memcpy` does not end for lengths of the form 4k+1 (`Memory.HalfwordsNeverEnd`); it is the only
  form for which the halfword loop is chosen, against the evident intent.
- The C side does not wrap offsets. A program interrupted with stack pointer 2 does not get a handler's
  edit of FLAGS; with 4, of CS and FLAGS; with 6 or 8, of IP, CS and FLAGS; with 10, of GS either. With
  8 or 10 the vector, too, is looked up behind the segment (`Trampoline.FoundWherePushed`,
  `Trampoline.FlagsBehindSegment`). With 12, or an odd one below 14, a push runs over the end of the
  segment, where the processor faults.
- AH=02h and AH=03h for a drive other than 80h return as if nothing had been called: carry and AH stay
  what they were (`Int13.ReadSectors`).
- For drive 80h they report success whatever the drive did: carry is always cleared
  (`Int13.ServedAnswers`).
- `serial_write_available_handler` ends its interrupt itself, before `itr_handle_irq` does so again: no
  harm exactly as long as no other interrupt is in service (`Irq.Controller.Interrupt`).
- Handlers for IRQ 8 to 15 are registered at real-mode vectors that the PICs do not use
  (`Irq.RealModeRouting`).
- A call for zero sectors leaves 256 of them pending in the drive (`Ata.Channel.ReadLba`).
- `printf` prints nothing for %% and takes an argument for it (`Output.PrintsNothing`).
- The numeral of a decimal number from 10^9 on does not fit `printf`'s buffer (`Output.FitsBuffer`).

## Model

| member | source | states |
|---|---|---|
| `Types.LaneIsShift` | pci.c:77-82 | Shifting a dword right by whole bytes and keeping the low byte selects a lane: the byte and word accessors can be stated on lanes. |
| `Types.UpdateIsReplace` | pci.c:84-91 | Masking a byte out and ORing the new one in, shifted, replaces that lane and leaves the other three. |
| `Pci.AddressInjective` | pci.c:14-18 | The CF8 words of two registers differ unless bus (below 128), device, function and dword offset are all the same. |
| `Pci.BusWraps` | pci.c:14-18 | The bound on the bus number is needed: bus 128 gets the address of bus 0. |
| `Pci.AddressFields` | pci.c:14-18 | The layout of the CF8 word by its bits: enable, bus modulo 128, device, function and dword offset. |
| `Pci.SpaceOfDevice` | pci.c:20-31 | A device's handle with another offset put in is that device's own address for the offset. |
| `Pci.Bus.ConfigRead` | pci.c:20-24 | Reads the aligned dword of the device's flat 256-byte space; nothing but the address latch changes. |
| `Pci.Bus.ConfigWrite` | pci.c:26-31 | Stores in the four bytes of the aligned dword of that device and in no other configuration byte. |
| `Pci.Bus.ConfigReadB` | pci.c:77-82 | Returns exactly the byte at the offset. |
| `Pci.Bus.ConfigWriteB` | pci.c:84-91 | On any device: the byte becomes what the device makes of the data, the other three of its dword what it makes of their own values stored back, and no other byte changes. |
| `Pci.Bus.ConfigReadW` | pci.c:63-67 | Returns the two bytes of the word that the offset lies in. |
| `Pci.Bus.ConfigWriteW` | pci.c:69-75 | The same for the two bytes of the addressed word and the other two of the dword. |
| `Pci.Bus.QueryBarSize` | pci.c:94-100 | On any device: the four bytes end as the device makes them of all ones and then their old values, no other byte changes, and the result is the negated mask of the register's writable bits. |
| `Pci.Bus.EnumerateBars` | pci.c:211-217 | The same for all seven registers, each of which is sized as it was before the loop. |
| `Pci.SizedRegisters` | pci.c:214-217 | These are 10h to 24h and 30h, and no others. |
| `Pci.SizingRestores` | pci.c:94-100 | A byte of writable, write-1-to-clear and read-only bits is as it was after sizing if and only if none of its write-1-to-clear bits was set; so it is after its own value is written back to it. |
| `Pci.SecondaryStatus` | pci.c:211-217 | The failing input: 1Fh of a bridge, which the loop sizes with 1Ch, loses a reported error; with none reported its read-only field 02h stays. |
| `Pci.Bus.SizeWindow` | pci.c:94-100 | For a register of a 2^k-byte window: the result is the size if and only if k is at least 4 and all 32 bits are decoded; configuration space is as before if and only if no write-1-to-clear bit of the register was set. |
| `Pci.Bus.SizeWindows` | pci.c:211-217 | Both for all seven registers: the sizes of those that are windows, and when the loop leaves configuration space as it was. |
| `Pci.SizingIsExact` | pci.c:94-100 | The result for a register, BAR or expansion ROM with its enable bit, of 2^k bytes that decodes m bits: 2^32 - 2^m + max(2^k, 16), modulo 2^32. It is the size (0 for an unimplemented register) if and only if k is at least 4 and m is 32. |
| `Pci.SixteenBits` | pci.c:94-100 | The failing input: an I/O register of 32 bytes that decodes 16 bits gives FFFF0020h. |
| `Pci.Bus.FindDevice` | pci.c:178-200 | Ends at the matching device of the given index, or at the first empty slot, or at the end of the bus. |
| `Pci.FoundBeforeGap` | pci.c:182-199 | The search succeeds if and only if more than `index` devices match before the first empty slot. |
| `Pci.GapHidesDevice` | pci.c:184-187 | On a bus with a device behind an empty slot the search reports it as missing. |
| `Shadow.FieldReplaced` | chipsets/440fx.c:40-43 | The mask and shift put the mode in one two-bit field; the other field and both reserved pairs are kept. |
| `Shadow.ByteToFields` | chipsets/440fx.c:37-44 | One register byte written means one PAM field changed, among all of them. |
| `Shadow.CoveredAddresses` | chipsets/440fx.c:93-121 | In every accepted call the segments whose mode is set are exactly those that decide the addresses of the region. |
| `Shadow.AcceptedCalls` | chipsets/440fx.c:83-125 | The accepted calls: 4000h, 8000h, C000h, 10000h or 20000h bytes at C0000h, D0000h and E0000h, and multiples of 10000h at F0000h. |
| `Shadow.RegisterLayout` | chipsets/440fx.c:12-40 | Which bit of which register routes reads and writes of an address: the upper half of 59h for F0000h to FFFFFh, the halves of 5Ah to 5Fh for 16K each from C0000h on. |
| `Shadow.Machine.SetMode` | chipsets/440fx.c:37-44 | The segment's field gets the mode; every other field, reserved bit and configuration byte is unchanged. |
| `Shadow.Machine.SetModes` | chipsets/440fx.c:126-128 | The same for a run of segments. |
| `Shadow.Machine.CopyByte` | chipsets/440fx.c:131-131 | One byte goes from source to region, both in 32 bits, as the PAM fields route the read and the write. |
| `Shadow.Machine.CopyRegion` | chipsets/440fx.c:130-132 | For any source and any region, whatever the modes: each byte is what reads returned before the copy or, where the source is a byte already written and visible, the copy of that one; no other DRAM changes. |
| `Shadow.Machine.ShadowRun` | chipsets/440fx.c:126-135 | Both flips and the copy: the fields of the run end read-write, and the DRAM holds the copy as it runs while the run is write-only. |
| `Shadow.RunCopies` | chipsets/440fx.c:126-132 | A copy to a region that is all write-only is its source, however the two overlap. |
| `Shadow.Machine.ShadowTwice` | chipsets/440fx.c:99-107 | The 128K case for any source: the exact bytes that the nested call and the outer copy over it leave. |
| `Shadow.SecondCopy` | chipsets/440fx.c:102-132 | Each byte of the outer copy in terms of memory before the call: read back from the nested copy, or from the outer copy itself, or from the source. |
| `Shadow.DoubledIsSource` | chipsets/440fx.c:99-107 | Those bytes are the source's when the source is the region or keeps clear of its upper half. |
| `Shadow.DoubledRepeats` | chipsets/440fx.c:99-132 | With a source that starts d bytes below a 128K region, what would come from its upper half repeats what the copy put d bytes before. |
| `Shadow.FinalIsSource` | chipsets/440fx.c:78-137 | For every accepted call with such a source, and 10000h at F0000h, the bytes left are the source bytes. |
| `Shadow.ReadShadowed` | chipsets/440fx.c:133-135 | With the covering fields read-write and the rest of the fields unchanged, reads of the region find DRAM and all others what they found before. |
| `Shadow.Machine.ShadowRomFromSrc` | chipsets/440fx.c:78-137 | True exactly for the accepted calls; false changes nothing. Otherwise exactly the covering fields become read-write, and every byte of DRAM afterwards is stated for every source and every length, for regions that run over the end of the 32-bit space, too. |
| `Shadow.Machine.ShadowRom` | chipset.c:12-14 | Self-shadowing is invisible: every later read of the region returns the ROM byte, now from DRAM, and every other read what it returned before. |
| `Shadow.Machine.ShadowFrom` | pci.c:245-247 | Shadowing from a source outside the region: reads of the region return the source's bytes, and reads elsewhere are unchanged. |
| `Serial.StepInv` | serial.c:51-92 | Every micro-step of writer, handler, transmitter and interrupt flag keeps the three invariants of ring, line and wakeup. |
| `Serial.RunInv` | serial.c:51-92 | So they hold in every state of every interleaving. |
| `Serial.Conservation` | serial.c:51-92 | In every reachable state dequeued bytes followed by the ring's contents are the bytes queued, in order; what reached the line is a merge of dequeued and directly sent bytes; the ring holds at most 1023. |
| `Serial.AtRest` | serial.c:51-92 | With the ring and the transmitter empty everything queued is on the line: nothing lost, repeated or out of order. |
| `Serial.CallsAreQueued` | output.c:17-25 | The call that begins with interrupts on adds its byte to those queued or about to be; with interrupts off it is to be sent directly; no other step adds a byte. |
| `Serial.DirectBytes` | serial.c:45-49 | The bytes sent directly are those of handlers and of a writer that polls, when the transmitter is free. |
| `Serial.NoLostWakeup` | serial.c:56-63 | Except between the advance of the head and the write of the enable register, a non-empty ring has the transmit interrupt enabled. |
| `Serial.Quiescence` | serial.c:56-63 | In every reachable state with an empty ring and an idle writer, one interrupt more is the last that is requested until the next call, whatever else happens. |
| `Serial.InterruptsBounded` | serial.c:51-92 | Over every run the interrupts taken on request are at most the bytes dequeued plus the times that the interrupt was enabled: once at the start and once for each byte queued. |
| `Serial.Port.WriteAvailableHandler` | serial.c:51-66 | Buffered, the handler is one atomic step of the specification: the oldest byte goes to the free transmitter, or nothing happens while it is busy, or on an empty ring the interrupt enable register becomes 0; unbuffered it does nothing; either way it ends one interrupt. |
| `Serial.Port.Advance` | serial.c:79-92 | Full test, store, head advance and enable are four separate steps, each as specified. |
| `Serial.Port.Execute` | serial.c:51-92 | Any interleaving performed on the variables ends where the specification's run ends. |
| `Serial.SpinEnds` | serial.c:85-87 | In every fair infinite run a writer that waits on a full ring gets to store. |
| `Serial.PollEnds` | serial.c:45-49 | In every fair run a writer that polls gets to send its byte directly. |
| `Serial.RingMoves` | serial.c:56-63 | In every fair run that opens for interrupts again and again, a non-empty ring is dequeued from. |
| `Serial.QueuedIsSent` | serial.c:51-92 | In such a run every queued byte is eventually sent. |
| `Ata.LbaHeadDecodes` | ata.c:218-218 | The drive/head value selects the cached drive, LBA mode and the LBA's top four bits. |
| `Ata.ChsHeadDecodes` | ata.c:272-272 | In CHS mode the register selects the slave if it was cached or bit 4 of the head is set, takes the address as an LBA if bit 6 is set, and sees the head modulo 16. |
| `Ata.LbaSplit` | ata.c:218-223 | The four register values name the sector number modulo 2^28. |
| `Ata.Channel.DriveSelect` | ata.c:170-187 | Terminates for any BSY spell; nothing at all happens when the drive is the cached one; otherwise the status is read at least sixteen times, the device is no longer busy and cache and register agree. |
| `Ata.Channel.Init` | ata.c:199-215 | Succeeds on a populated idle channel; afterwards the master is selected and cached. |
| `Ata.Channel.PioIn` | ata.c:225-238 | The data-in loop takes exactly the words that the device offers, sector by sector through any BSY spells, and leaves it idle; where nothing is offered it stores FFh. |
| `Ata.Channel.PioOut` | ata.c:251-265 | The data-out loop fills exactly the sectors asked for and no others; it ends while the device may still be busy with the last. |
| `Ata.Channel.ReadLba` | ata.c:217-241 | Terminates and returns 512*count, always; from a drive with LBA memory gets the sectors that the 8-bit count register asks for, then FFh, and nothing else of memory changes; a rejected, absent or busy drive and one without LBA yields FFh; count 0 leaves 256 sectors pending. |
| `Ata.Channel.WriteLba` | ata.c:243-268 | The sectors that the register asks for hold the buffer, every other sector and the other drive are unchanged; a command that is rejected, or goes to a busy or absent drive, writes nothing. |
| `Ata.Channel.ReadChs` | ata.c:271-295 | The same for any cylinder, head and sector: which drive and sector the whole head byte leads to; heads and sectors that the drive does not have are rejected. |
| `Ata.Channel.WriteChs` | ata.c:298-323 | The same for writing. |
| `Ata.Channel.WriteThenRead` | ata.c:217-268 | Write then read with the same arguments, on a drive with LBA: reproduces the buffer byte for byte if the device has had time to finish its last sector when the read is issued, and yields FFh throughout if it has not. |
| `Ata.ReadTooSoon` | ata.c:217-268 | The failing input: a drive that is busy for one look at its status, and a read at once. |
| `Ata.Channel.Identify` | ata.c:79-159 | The whole record of a drive, model text included, is made of the words that its IDENTIFY data has at the offsets of ata.h; none for an absent drive or one that answers with an error. The channel is idle afterwards. |
| `Ata.Channel.RecordWords` | ata.c:112-157 | Which word of the IDENTIFY data each field is: type 0, cylinders 1, heads 3, sectors 6, model 27 to 46, LBA 60 and 61, LBA48 100 to 103. |
| `Ata.Channel.CapacityReported` | ata.c:118-146 | The number of blocks is the capacity split over words 60 and 61, or over 57 and 58, or the product of the geometry, each when the drive says so. |
| `Ata.WidenedExactly` | ata.c:119-120 | The 48-bit capacity is the one in the four words if and only if bit 31 is clear or all bits above it are set; whether it is 0 is always right. |
| `Ata.StepAgrees` | ata.c:170-323 | One driver call keeps cache and register in agreement if and only if it is not a CHS call on the master with bit 4 of the head set. |
| `Ata.AgreementExactly` | ata.c:170-323 | Over a run: cache and register agree at every point if and only if every call of the run spares that bit. |
| `Ata.Channel.Execute` | ata.c:170-323 | Any sequence of driver calls leaves cache and last written value as the run of the specification does, in agreement when each call spares the bit. |
| `Int13.ReportsGeometry` | bios.c:26-27 | CL and CH of AH=08h carry the sectors per track (below 64) and the cylinders modulo 1024. |
| `Int13.LbaThere` | bios.c:57-57 | Cylinder, head and sector are got back from their LBA ... |
| `Int13.LbaBack` | bios.c:57-57 | ... and the LBA from them: a bijection on valid places. |
| `Int13.Increasing` | bios.c:57-57 | A place comes before another, in order of cylinder, head and sector, if and only if its LBA is smaller. |
| `Int13.PackDecodes` | bios.c:49-51 | Packing a cylinder below 1024 and a sector in CH and CL is undone by the decoding. |
| `Int13.GeometryCloses` | bios.c:19-57 | Any LBA with a cylinder below 1024, converted by the geometry that AH=08h reports (DH as the last head) and packed, decodes to the same LBA, for 1 to 63 sectors and last heads 0 to 255. |
| `Int13.ReadSectors` | bios.c:40-67 | AH=02h reads into ES:BX from the drive and sector that the registers lead to, with LBA and without, every byte of the buffer stated, and returns the frame with carry and AH clear; for a drive other than 80h nothing happens at all. |
| `Int13.WriteSectors` | bios.c:68-93 | AH=03h, likewise: every byte of both drives afterwards. |
| `Int13.GetParameters` | bios.c:14-39 | The whole register frame after AH=08h, for drive 80h and for others. |
| `Int13.HandleDisk` | bios.c:11-106 | The dispatch, with the whole frame after every function and its answer by register bytes; only AH=02h and AH=03h touch the drive, memory or disk. |
| `Int13.ServedAnswers` | bios.c:14-104 | Carry, AX, CX and DX after every call, by their bits and bytes: clear with AH 0 and the rest kept after AH=02h and AH=03h for drive 80h; the geometry after AH=08h; set with AL 1 for an unknown function or, after AH=08h, another drive. No other register changes. |
| `Int13.ForeignGeometry` | bios.c:28-60 | A caller that counts one head more than the drive has agrees with it about a place's sector number on cylinder 0 and nowhere else. |
| `Int13.ChsReaches` | bios.c:59-61 | On a drive without LBA a caller that goes by the reported geometry reaches the sector of its LBA, on its drive, if and only if the LBA is below heads*sectors. |
| `Int13.SixteenHeads` | bios.c:59-61 | The failing input: on a master of 16 heads and 63 sectors LBA 1008 becomes head 16, which selects the slave. |
| `Int13.CallNames` | bios.c:40-93 | For both kinds of drive: where a call for a caller's place goes, exactly. |
| `Int13.ReadByGeometry` | bios.c:14-67 | A program that asks AH=08h, converts an LBA and calls AH=02h is led to that sector exactly when the drive has LBA or the LBA is on its first cylinder, and then gets the sectors from there on. |
| `Boot.Firmware.AtaInit` | ata.c:199-215 | At most four channels are recorded, and only those that answer. |
| `Boot.Firmware.ScanDevice` | main.c:291-300 | Appends the channel's drives, the master before the slave, whichever of them exist. |
| `Boot.Firmware.HdInit` | main.c:288-317 | The table is exactly the drives of both channels, each once, in order, as they identify themselves, then empty entries; their channels are idle and in agreement. |
| `Boot.TableInOrder` | main.c:288-317 | Each drive is behind as many entries as there are drives before it, in the order primary master, primary slave, secondary master, secondary slave. |
| `Boot.Firmware.BootFromHd` | main.c:213-245 | Boots if and only if the drive has LBA and 55h, AAh as the last bytes of its first sector; then entry 0 names the drive that its channel has selected and 7C00h holds that drive's first sector, with these bytes at 7DFEh. |
| `Boot.Firmware.BootAll` | main.c:408-410 | The first drive in the table with LBA and a boot sector is the one handed off; when none is booted there is none. |
| `Boot.CylinderDriveIsNotBooted` | main.c:217-221 | The failing input: a machine whose one drive has a boot sector but no LBA does not boot. |
| `Boot.Firmware.ReadByGeometry` | main.c:229-242 | After the hand-off INT 13h reaches the drive whose first sector was read. |
| `Trampoline.Machine.Enter` | interrupt.asm:59-90 | For every stack pointer for which no push runs over the end of the segment: the frame that the handler is given shows the registers of the interrupted program, with EBP cut to sixteen bits and, of those on a stack that wraps around, what the C side finds; memory is unchanged outside the trampoline's area and the 14 bytes pushed. |
| `Trampoline.Machine.FillFrame` | interrupt.c:718-740 | The fields from the program's stack come from the offsets at which they were pushed. |
| `Trampoline.Machine.CopyBack` | interrupt.c:772-776 | EBP, GS, IP, CS and FLAGS of the frame go back to their places on the program's stack, those that lie before the end of the segment; the vector and everything else stay. |
| `Trampoline.Machine.Leave` | interrupt.asm:94-140 | With the sentinel intact the general and segment registers come from the frame, EBP, GS, IP, CS and FLAGS from the program's stack as copied back, and SS:ESP from the saved pointer; otherwise the machine halts. |
| `Trampoline.LowHalf` | interrupt.asm:118-124 | The stack pointer is rebased correctly whatever CR0 leaves in the upper half of EAX. |
| `Trampoline.FoundWherePushed` | interrupt.c:727-736 | Word by word: the C side looks where the processor pushed if and only if the stack pointer is 0 or at least 14 or the word is among the first 14 minus the stack pointer bytes. |
| `Trampoline.FlagsBehindSegment` | interrupt.c:776-776 | The failing input: with stack pointer 2 every edit arrives but that of FLAGS, which are written 64K above where they were pushed. |
| `Trampoline.Machine.Interrupt` | interrupt.c:718-779 | The round trip for every handler and every stack, wrapping ones included: of the handler's edits to the frame exactly which reach the program, the stack pointer back to where it was; an exception without a handler or a broken sentinel halts. |
| `Trampoline.Machine.InterruptBoth` | interrupt.c:718-779 | If frame and stack are left alone all registers are restored but for the upper half of EBP, on any stack; on one that does not wrap every edit of the frame arrives, EBP in full, except to ESP and SS. |
| `Service.DiskService` | interrupt.asm:59-140 | INT 13h from end to end: the program finds the answer in carry, AX, CX and DX byte by byte and every other register as it was but for the upper half of EBP; after AH=02h every byte of the buffer, after AH=03h every byte of both drives is stated in terms of memory and drives before the interrupt. |
| `Service.LoadSector` | bios.c:40-67 | A program that calls AH=02h by the reported geometry has the sector of its LBA in its buffer, and carry is clear. |
| `Service.StoreSector` | bios.c:68-93 | A program that calls AH=03h by it has its buffer in that sector, no other byte of the drive changes, and carry is clear. |
| `Service.StoreThenLoad` | bios.c:40-93 | What one program stores by INT 13h another one loads by INT 13h after the next power-on, for every sector that can be named, with LBA or without. |
| `Service.OneSector` | bios.c:40-93 | On a machine built from nothing the same holds of a drive of one sector. |
| `Irq.Controller.SetIrqHandler` | interrupt.c:40-50 | The line's handler is replaced, no other line's is. |
| `Irq.Controller.HandleIrq` | interrupt.c:29-38 | Calls the line's handler if there is one, then ends one interrupt on the slave (lines 8 to 15 only) and one on the master. |
| `Irq.Controller.Interrupt` | interrupt.c:29-50 | The line's own handler is called once and the line is out of service afterwards; interrupts already in service on the master stay so if and only if the handler sends no end of interrupt of its own or there are none. |
| `Irq.Controller.SerialInterrupt` | serial.c:65-65 | With the handler of serial.c itself: it does its step, and the PIC gets one end of interrupt more than its own. |
| `Irq.SerialEndsAnother` | serial.c:65-65 | Whatever else were in service would lose its highest line to that. |
| `Irq.Controller.Serve` | interrupt.c:29-38 | Over any sequence of interrupts one at a time each registered handler is called in order and nothing stays in service. |
| `Irq.RealModeRouting` | interrupt.c:45-49 | The vector at which the PICs deliver in real mode is the registered one for lines 0 to 7 and for no other. |
| `Dram.LeadingFrom` | post.c:15-36 | The number of leading backed points is found by the first point that is not. |
| `Dram.PointsInRam` | post.c:15-36 | On RAM that ends at `top` it is floor((top - start) / stride), and the points end before the address space does. |
| `Dram.Board.TestPoint` | post.c:16-35 | A point answers both patterns if and only if it is backed, and memory is as before. |
| `Dram.Board.ProbeRam` | post.c:10-41 | Returns stride times the leading backed points, restores every cell, and neither wraps nor fails to end when some point before the end is not backed. |
| `Dram.Board.ProbeRamTo` | post.c:10-41 | On RAM that ends at `top`: stride * floor((top - start) / stride). |
| `Dram.ProgressExactly` | post.c:78-88 | A step of probeAll gets on, whatever memory there is, if and only if the stride is at most 1024. |
| `Dram.StuckBelow` | post.c:79-85 | The failing input: 1024 bytes of RAM and a longer stride. |
| `Dram.Board.ProbeAll` | post.c:75-92 | For strides 1 to 1024 and any address decoding, holes included, the loop ends without its position wrapping around and returns the sum of the regions that it comes upon, modulo 2^32; memory is as before. |
| `Dram.AlignedTotal` | post.c:75-92 | With a stride of 1024 every block with memory below `top` is counted once, holes or not. |
| `Dram.ContiguousTotal` | post.c:75-92 | For RAM from 0 to `end` in closed form: all of it in steps of 1024, plus another 1024 exactly when so much is left beyond the multiple of the stride where the loop goes on. |
| `Dram.Board.WriteProbes` | chipsets/um82c480.c:42-45 | Each point whose cell no later point shares shows its own address, although later writes overwrite earlier ones. |
| `Dram.Board.Exact` | chipsets/um82c480.c:46-51 | All points read back if and only if each is backed by a cell of its own. |
| `Dram.Board.DetectMirroring` | chipsets/um82c480.c:41-53 | For any address decoding, 0 if and only if every probe point below `size` is backed and no two share a cell; other cells are unchanged. |
| `Dram.Board.UnmirroredIs` | chipsets/um82c480.c:41-53 | These points are the multiples of 80000h from 100000h to below `size`. |
| `Dram.Board.TryConfig` | chipsets/um82c480.c:157-174 | A configuration replaces the best so far if and only if it has memory at 1000h, no mirrored point and strictly more memory above 1M. |
| `Dram.Board.QualifiesExactly` | chipsets/um82c480.c:157-174 | In addresses: a configuration whose first n blocks of 4K above 1M end in backed dwords, and the next does not, has n*4096 bytes, and qualifies if and only if these are between 0 and 2G, 1000h is backed, and no two of the points 512K apart share a cell. |
| `Dram.Board.SearchDram` | chipsets/um82c480.c:154-177 | The search ends with the lowest configuration that attains the greatest size among those that qualify, or with 1 when none does. |
| `Dram.Board.BestIsChosen` | chipsets/um82c480.c:154-177 | So of the configurations that qualify the one with the most memory is chosen, and the lowest of those that have as much; 1 if none does. |
| `Dram.Board.CopyWords` | util.h:22-28 | The dword loop on memory with aliases, for any two regions: each cell ends as the dwords copied in order leave it. |
| `Dram.Board.CopyIsExact` | util.h:22-28 | That is the source's dword when the destination's dwords have cells of their own, apart from the source's. |
| `Dram.Board.ChipsetInit` | chipsets/um82c480.c:142-180 | After the search the best configuration is set and the two copies have left what they leave in any memory; if the dwords from 60000h to 6FFFFh and from F0000h to FFFFFh have cells of their own under it, each dword from F0000h to FFFFFh reads as the ROM's, from RAM. |
| `Dram.OneBank` | chipsets/um82c480.c:142-180 | On a board with 2M that every configuration selects it ends with configuration 0 and the ROM in RAM. |
| `Memory.MemCpy` | util.h:21-44 | For any overlap: each byte is the source's or, where an earlier unit has overwritten that, the copy of that one, and nothing else changes; ends for every length but those of the form 4k+1. |
| `Memory.CopiedIsSource` | util.h:21-44 | That is the source, unless the destination starts inside it. |
| `Memory.CopyRepeats` | util.h:21-44 | If it starts d bytes inside, d no less than the unit, the first d bytes are repeated. |
| `Memory.HalfwordsNeverEnd` | util.h:29-36 | For those the halfword loop's counter never meets zero. |
| `Console.PlainText` | vga.c:46-63 | The document of text without control characters is that text in rows of eighty. |
| `Console.NewRowScrolls` | vga.c:64-67 | Appending a row to the document moves the last 25 rows up by one exactly when there are at least 25. |
| `Console.NewlineSplits` | vga.c:48-51 | For any two texts: with a newline between them the rows are those of the one and below them those of the other, and the column is that of the other. |
| `Console.ReturnOverwrites` | vga.c:52-54 | After a carriage return a text of fewer than eighty characters is written over the start of the last row; the rest of it and all rows above stay. |
| `Console.ReturnReplaces` | vga.c:52-63 | A longer one replaces the last row and goes on below it as a text of its own. |
| `Console.StartsBelow` | vga.c:25-26 | A text that starts on a lower line has so many blank rows above it. |
| `Console.Screen.SetCursor` | vga.c:16-23 | The cursor address programmed in the CRT controller is line*80+col. |
| `Console.Screen.Cls` | vga.c:25-31 | The screen shows the empty document that starts on the given line. |
| `Console.Screen.Scroll` | vga.c:33-44 | Every line takes the one below it, the last is blank. |
| `Console.Screen.PutChar` | vga.c:46-69 | If the screen shows a document it shows the document with the character put at its end, cursor included. |
| `Console.Screen.Print` | vga.c:25-69 | After any text from a cleared screen the cells are the last 25 rows of the unbounded document in attribute 1Fh, blank below it, the cursor is on its last row and its programmed address right. |
| `Timer.CallsWhenDue` | timer.c:58-74 | The k-th call from now comes on the tick that is the rest of the interval plus all the answers since, if no answer before was 0 ... |
| `Timer.CalledOnlyWhenDue` | timer.c:58-74 | ... and every call comes on such a tick. |
| `Timer.DeadAfterZero` | timer.c:65-68 | After an answer of 0 there is no further call. |
| `Timer.BetweenCalls` | timer.c:60-71 | The slot's counter and interval at every tick between two calls. |
| `Timer.Independent` | timer.c:60-73 | Whatever is registered, unregistered or called in other slots, a slot goes through its own ticks while it lives. |
| `Timer.Device.RegisterCallback` | timer.c:44-56 | Takes the first free slot, whose first call is due after a whole interval, and no other slot changes; or returns -1 exactly when all are taken. |
| `Timer.Device.UnregisterCallback` | timer.c:76-82 | The slot is free and no other changes. |
| `Timer.FreeUntilRegistered` | timer.c:60-61 | A free slot stays so, and calls nothing, until something is registered. |
| `Timer.RegisteredRuns` | timer.c:44-74 | In any run after a registration in which the slot is not unregistered, call k comes on the tick that is the interval, or 1 for 0, plus the answers before it ... |
| `Timer.RegisteredOnlyThen` | timer.c:44-74 | ... and no call comes on another tick while it stays registered. |
| `Timer.Device.RegisterThenRun` | timer.c:44-74 | So a callback that answers with its interval is called on the multiples of it, counted from the registration, and on no other tick, whatever happens in other slots. |
| `Timer.Device.CheckSlot` | timer.c:61-72 | One slot ticks as specified, every other is unchanged, and a call of the tick counter's callback adds its interval. |
| `Timer.Device.HandleTimer` | timer.c:22-33 | All eight slots tick, each on its own, and the tick count goes up by one modulo 2^32. |
| `Timer.ClockRuns` | main.c:375-379 | The tick counter's callback stays live with interval 1 and adds one on every tick, whatever other callbacks come and go. |
| `Timer.StartClock` | main.c:374-379 | Registering the callback with interval 1 on a new timer starts the clock in slot 0, with both counters 0. |
| `Timer.Device.Execute` | main.c:375-379 | Over any sequence of ticks and registrations irq0_counter keeps its distance from timer_ticks modulo 2^32. |
| `Timer.RunFromStart` | main.c:374-379 | So from start-up on the two counters are equal. |
| `Output.RoundTrip` | output.c:37-66 | Parsing the numeral of any number in any base from 2 to 36 gives the number back, and only zero starts with a zero. |
| `Output.OneNumeral` | output.c:37-66 | It is the only string of figures of the base without a leading zero that parses to the number. |
| `Output.LengthBound` | output.c:37-66 | A numeral has at most k digits if and only if the number is below base^k, for k at least 1. |
| `Output.FillDigits` | output.c:39-50 | The digit loop leaves the digits in the buffer, least significant first. |
| `Output.ReverseInPlace` | output.c:57-61 | The swapping loop reverses the digits and touches nothing behind them. |
| `Output.Itoa` | output.c:37-66 | The buffer holds the numeral and a NUL after it. |
| `Output.FitsBuffer` | output.c:77-92 | The ten-byte buffer takes every number in hexadecimal, and in decimal exactly those below 10^9. |
| `Output.PlainFormat` | output.c:106-110 | A format without a percent sign comes out as it is. |
| `Output.PrintsDecimal` | output.c:80-86 | %u, %d and %i print the number in decimal figures without leading zeros if it is below 10^9; only then is the call well-formed. |
| `Output.PrintsHexadecimal` | output.c:87-92 | %x and %X print any number in hexadecimal, with the figures A to F. |
| `Output.PrintsText` | output.c:93-95 | %s prints its text. |
| `Output.PrintsNothing` | output.c:96-98 | Every other conversion, %% included, prints nothing and takes an argument. |
| `Output.TakesExactly` | output.c:69-113 | A format takes as many arguments as it has conversions; with fewer it is not well-formed, and more are ignored. |
| `Output.InARow` | output.c:73-111 | Two well-formed formats in a row, with their arguments in a row, print the one and then the other. |
| `Output.Printer.Printf` | output.c:69-113 | A well-formed format is emitted as the recursive rendering of it and its arguments. |
| `Keyboard.FlagsSummarise` | keyboard.c:93-161 | After any scan codes from cleared flags: shift, control, alt and pressed bits are set if and only if the key's last event was a make; lock bits are the parity of makes; insert is the parity of makes since its last break; no other bit is ever set. |
| `Keyboard.SinceBreakIs` | keyboard.c:122-124 | The codes since the last break are the suffix that starts after it. |
| `Keyboard.DataArea.ProcessKeystroke` | keyboard.c:93-161 | One keystroke changes the two flag bytes as specified. |
| `Keyboard.DataArea.ProcessAll` | keyboard.c:93-161 | So the flag bytes in memory summarise the history of any sequence of keystrokes. |

## Left out

- Shadow.Machine.ShadowFrom: mapping and unmapping the expansion ROM around the call, and the enable bits in the command register.
- Serial.Conservation: buffered mode only; switching back to unbuffered with bytes queued, receiving, and the port's detection are not modelled.
- Serial.SpinEnds: spurious or shared interrupts on IRQ 4.
- Ata.Channel.ReadLba: what happens to a command in a transfer that an earlier call left pending; DF is never shown by the device, and ERR only after a refused IDENTIFY, as the code looks at it nowhere else.
- Ata.Channel.Identify: the write to the device control register, a device that shows neither DRQ nor ERR, on which the source waits for ever, and the NUL after the model text.
- Ata.Channel.DetectController: an idle channel is taken to hold what is written to its sector count register, an empty one is not.
- Boot.Firmware.BootFromHd: a boot sector that returns, the delays, and the screen and interrupt set-up between the hand-off and the jump.
- Int13.HandleDisk: the messages that the handler prints.
- Service.DiskService: buffers that lie in the trampoline's area or over the bytes pushed for the interrupt; a wrapping stack behind whose segment something other than the vector is found.
- Int13.Lba: the product is taken modulo 2^32; with more than 255 heads or 63 sectors C's signed arithmetic would overflow first.
- Trampoline.Machine.Interrupt: the mode switch itself, the descriptor tables, the C code's own stack below the frame; programs whose stack lies in the trampoline's area, and the fault that a push over the end of the segment raises.
- Irq.Controller.Interrupt: masks, the initialisation of the PICs, spurious interrupts, and vectors that are registered for other than IRQs.
- Dram.Board.ProbeRam: memory without a gap up to the end of the address space, where the source's loop would wrap; the messages, the cache flushes, and unaligned points, whose dwords would overlap those of others; an access reaches one cell.
- Dram.Board.ChipsetInit: the cache and bus registers written at the end.
- Console.Screen.Print: `vgaCls` is called without its argument in places; the cursor is set after it here, as `main` does.
- Timer.Device.Execute: callbacks that register or unregister callbacks themselves, the watchdog, and ids from 8 to 255, which the source accepts and writes out of bounds for.
- Output.Printer.Printf: ill-formed formats, where the source reads past its arguments or the end of the format, and where `putc` sends the bytes (that choice is in `Serial`).
- Keyboard.DataArea.ProcessKeystroke: the ring of scan codes, whose size in `bda.h` is less than the code wraps at, the LEDs and the controller's handshakes. A flag byte is the set of its one-bit masks.
- `chipsets/sis8c460.c`, `chipsets/null.c`, exploration and speed probes, CMOS, option ROM checks, INT 10h, 14h, 15h, 16h and 1Ah, the mode 13h demo and the assembly start-up code: they would add easy or repetitive members only.
