# The RP2040 boot ROM, modelled and verified

The boot ROM of the RP2040 presents a USB disk that accepts UF2 images, a PICOBOOT interface beside
it, routines that drive the serial flash, a small library of floating-point arithmetic in Thumb
assembly, and two helpers for its build. This project models the parts of it in which loops, mutable
state, interrupts or exact arithmetic carry a property that no single routine shows, and proves those
properties for every input, every run or every interleaving.

| Files | What they model |
|---|---|
| `Rounding`, `Float32`, `FloatMul`, `FloatAdd` | single precision multiplication, addition and subtraction, register by register, against exact arithmetic rounded to nearest even |
| `Float64`, `DoubleMul`, `DoubleAdd` | double precision multiplication, from four 32-bit multiplies, and addition with sticky bits |
| `UsbEndpoint`, `UsbInStart` | an endpoint of the USB library: buffer ownership, double buffering, re-entrant handlers, data toggle, halts and resets |
| `UsbStream`, `Msc` | streams over packets, and the data phase of the mass storage commands on top |
| `Memory`, `Tasks`, `Deliveries` | memory with NOR flash in it, what a task does to it, and what a list of delivered blocks makes of it |
| `VirtualDisk`, `Download`, `RamDownload` | the UF2 tracker, its one-slot queue and the worker, runs of them up to the reboot, and whole downloads to flash and to RAM |
| `Picoboot` | PICOBOOT writes, between disk tasks, and erases |
| `FlashPump`, `FlashCommands` | the byte pump that races the serial interface, the flash commands built on it, and the erasing of a range |
| `Codec`, `Crc` | the text compressor with its two decoders, and the checksum of the second-stage boot loader |

Objects the source updates in place are classes, the assembly routines are methods over registers
and flags, and what each computes is stated by functions and predicates that are defined without
them. Rounding, for instance, is defined on exact fractions; `Rounding.RoundPackNearest` shows that
no other encoding is nearer and that ties go to even, and the two files of each operation connect
the registers to it.

`dafny verify dfyconfig.toml` checks the whole project.

## What is taken as given

* A word of the floating-point routines is an integer below 2^32, and carries, shifts and wrap-around
  are written out. The checksum works on registers as sequences of 32 bits, and counts bytes where
  the routine compares addresses, all of them below 2^31.
* Bitmaps are arrays with one entry a bit; masks with a power of two less one are remainders.
* The environment chooses freely between the events of a model: which packet completes and when a
  handler reports it done, how far the serial interface gets between two register accesses, which
  tasks the other interface queues. A busy serial interface does not stand still for ever, and a
  flash chip is ready after some number of polls.
* Constants from headers that are not in the repository (address ranges, UF2 magic numbers, family
  identifier) have the values of the RP2040.
* A UF2 task is executed before the next sector arrives, as the host waits for it.
* A flash chip takes the three address bytes of a command most significant first, and its commands
  erase as much as the caller of a range erase says.
* Nothing that is written to memory overwrites the tracker's bitmaps, which for a flash image lie in
  the XIP cache.
* While a double-buffered IN transfer is being started, `UsbEndpoint` has the handler not put off a
  later packet after it has filled an earlier one at once; `UsbInStart` shows that otherwise, and only
  then, the handler is called again with a packet outstanding.

## Where the code and its description differ

* A UF2 block whose task is turned down stays marked as delivered, so the reboot can come with its
  page missing, where the comment in the source expects the completion callback to notice.
  `Download.RightAtReboot` says exactly when the image is right all the same, `Download.PageAtReboot`
  what each page holds, and `Download.LostPage` is a run that leaves one page of an image unwritten
  and the other written over a sector never erased.
* For a RAM page the worker's range check takes the end one byte later than the tracker's:
  `VirtualDisk.OneAddressTurnedDown`.
* The erase bit of a flash block goes by its number and not by its address. `Deliveries.SafeBaseIff`
  says for which contiguous images that is right; `Download.DownloadImage` is the download of one of
  them, `Download.DamagedDownload` of any other.
* A RAM image of which no page goes to SRAM is started at 0xffffffff, the value the tracker's lowest
  address starts from, since the XIP cache never counts: `RamDownload.DownloadRamImage`.
* `compress` fails on text of exactly 4096 bytes, because its check buffer is then full.
* A mass storage command for no blocks whose direction bit is the other direction's is answered with
  a phase error, where the standard has none: `Msc.StatusIsStandard`.
* A soft reset after the host has cleared a halt on a condition leaves the data toggle wrong exactly
  when one buffer was with the hardware: `UsbEndpoint.Endpoint.ClearThenSoftReset`. The IN endpoint
  of the disk gets there (`UsbEndpoint.LoseToggle`) when a command ends with the OUT endpoint halted
  and its status wrapper with the hardware (usb_msc.c:112-119), the host clears that halt, which
  starts the command transfer again (usb_device.c:345-348), and sends an invalid command before it
  has read the wrapper (usb_msc.c:392-395).
* The guard against interleaved writes protects a PICOBOOT write from the disk and not the other way
  round, since each UF2 block's task is set up without it. `Download.ChunkBetween` is a run in which a
  chunk lands on a page just written, `Download.RightAfterChunks` says exactly when chunks are
  harmless.

## Model

| member | source | states |
|---|---|---|
| `Rounding.RoundPackNearest` | bootrom/mufplib.S:937-980 | the rounding every operation is held to: of all encodings none has a value nearer to n / d, and of two equally near the even one is taken |
| `Rounding.RoundsUpToEven` | bootrom/mufplib.S:993-1028 | a result reaches an even encoding exactly from the midpoint below it, which fixes the thresholds of underflow and overflow |
| `Rounding.RoundFlushAt` | bootrom/mufplib.S:937-1028 | rounding n / d equals packing a significand of p + j bits by its exponent, with flush to zero and saturation, for every precision |
| `Float32.Round32IsNearest` | bootrom/mufplib.S:823-848 | a non-zero finite result has the right sign and no finite word is nearer to the exact value |
| `Float32.Round32Extremes` | bootrom/mufplib.S:851-862 | zero exactly below the midpoint under the smallest normal, infinity exactly from the midpoint above the largest finite value |
| `Float64.Round64IsNearest` | bootrom/mufplib-double.S:526-547 | the same for doubles |
| `Float64.Round64Extremes` | bootrom/mufplib-double.S:549-571 | the same for doubles |
| `FloatMul.HighEstimate` | bootrom/mufplib.S:918-934 | the product of the top 16 bits is low by less than 2^31 |
| `FloatMul.TopWordIsExact` | bootrom/mufplib.S:918-934 | the carry fix recovers the exact top word of the 46-bit product |
| `FloatMul.SignificandProduct` | bootrom/mufplib.S:918-934 | the two registers hold the exact product of the significands |
| `FloatMul.PackedIsProduct` | bootrom/mufplib.S:937-1028 | for all operands, zero and infinite exponents included, packing that product by the wide exponent gives the rounded product |
| `FloatMul.PackBelowTwo` | bootrom/mufplib.S:937-955 | the packing of a significand product below two, sticky bits and ties included |
| `FloatMul.PackFromTwo` | bootrom/mufplib.S:960-980 | the packing of a significand product of two or more |
| `FloatMul.Fmul` | bootrom/mufplib.S:890-1028 | for every pair of words the result is the exact product rounded to nearest even, with signed infinities and zeros |
| `FloatMul.ProductWithOne` | bootrom/mufplib.S:890-1028 | of that product: a normal number times one is itself, times minus one its opposite |
| `FloatMul.TimesInfinity` | bootrom/mufplib.S:890-1028 | infinity times anything, zero included, is infinity with the sign of the two |
| `FloatMul.TimesZero` | bootrom/mufplib.S:890-1028 | a zero times anything finite is a zero with the sign of the two |
| `FloatAdd.NormShiftBound` | bootrom/mufplib.S:817-822 | the normalisation loop ends, within 56 steps, with the significand in range |
| `FloatAdd.ShiftIsExact` | bootrom/mufplib.S:799-802 | the register pair left by the alignment shift loses nothing |
| `FloatAdd.SumIsPacked` | bootrom/mufplib.S:823-862 | a sum normalised and packed is the rounded sum; one below normal was exact and is flushed |
| `FloatAdd.SmallerIsLost` | bootrom/mufplib.S:772-798 | an operand 30 or more binades smaller cannot change the rounded sum |
| `FloatAdd.SumIsPackedAligned` | bootrom/mufplib.S:772-862 | for all operands, aligning by the wide exponents, adding and packing gives the sum |
| `FloatAdd.Normalise` | bootrom/mufplib.S:813-822 | the loop over the register pair computes the normalised significand and its exponent |
| `FloatAdd.Fadd` | bootrom/mufplib.S:743-887 | for every pair of words the result is the exact sum rounded to nearest even; opposite infinities give positive infinity, exact cancellation positive zero |
| `FloatAdd.Fsub` | bootrom/mufplib.S:737-740 | subtraction is the sum with the sign flipped |
| `FloatAdd.SumWithZero` | bootrom/mufplib.S:743-887 | of that sum: a normal number plus either zero is itself |
| `FloatAdd.SumExtremes` | bootrom/mufplib.S:743-887 | opposite numbers cancel to positive zero, opposite infinities give positive infinity, an infinity swallows anything finite |
| `DoubleMul.Mul32` | bootrom/mufplib-double.S:365-389 | the macro's two words are the exact 64-bit product, the overflow of the cross terms included |
| `DoubleMul.WideProduct` | bootrom/mufplib-double.S:490-508 | the four words accumulate the exact 106-bit product |
| `DoubleMul.RoundUp` | bootrom/mufplib-double.S:531-540 | round to nearest even with the discarded low word as sticky bits |
| `DoubleMul.PackedIsProduct` | bootrom/mufplib-double.S:510-571 | for all operands, packing the exact product gives the rounded product |
| `DoubleMul.Dmul` | bootrom/mufplib-double.S:479-571 | for every pair of doubles the result is the exact product rounded to nearest even |
| `DoubleMul.ProductWithOne` | bootrom/mufplib-double.S:479-571 | of that product: a normal number times one is itself, times minus one its opposite |
| `DoubleMul.TimesInfinity` | bootrom/mufplib-double.S:479-571 | infinity times anything, zero included, is infinity with the sign of the two |
| `DoubleMul.TimesZero` | bootrom/mufplib-double.S:479-571 | a zero times anything finite is a zero with the sign of the two |
| `DoubleAdd.ShiftNear` | bootrom/mufplib-double.S:192-204 | a shift of less than a word keeps every bit in three registers |
| `DoubleAdd.ShiftFar` | bootrom/mufplib-double.S:295-312 | a shift of 32 to 59 places keeps the quotient, its last bit set if anything was lost |
| `DoubleAdd.StickyRne` | bootrom/mufplib-double.S:209-212 | an odd approximation rounds like the exact value next to it on every coarser grid |
| `DoubleAdd.ApproximationNormalises` | bootrom/mufplib-double.S:230-236 | a sum of which bits were lost needs at most one place of normalisation, so nothing lost is needed again |
| `DoubleAdd.SumIsPacked` | bootrom/mufplib-double.S:213-292 | packing what the registers keep of a sum gives the rounded sum; one below normal was exact and is flushed |
| `DoubleAdd.SmallerIsLost` | bootrom/mufplib-double.S:295-297 | an operand 60 or more binades smaller cannot change the rounded sum |
| `DoubleAdd.SumIsPackedAligned` | bootrom/mufplib-double.S:186-272 | for all operands, aligning by the wide exponents, adding and packing gives the sum |
| `DoubleAdd.Unpack` | bootrom/mufplib-double.S:143-171 | the signed significand and the wide exponent of any operand |
| `DoubleAdd.Normalise` | bootrom/mufplib-double.S:230-236 | the loop over three registers computes the normalised significand and its exponent |
| `DoubleAdd.RoundAndPack` | bootrom/mufplib-double.S:237-272 | rounding to nearest even by the rounding bit and the sticky bits, and packing with overflow and underflow |
| `DoubleAdd.ShiftDownAndPack` | bootrom/mufplib-double.S:283-293 | the same after a carry out of the significand |
| `DoubleAdd.Dadd` | bootrom/mufplib-double.S:184-354 | for every pair of doubles the result is the exact sum rounded to nearest even; opposite infinities give positive infinity, exact cancellation positive zero |
| `DoubleAdd.Dsub` | bootrom/mufplib-double.S:175-180 | subtraction is the sum with the sign flipped |
| `DoubleAdd.SumWithZero` | bootrom/mufplib-double.S:184-354 | of that sum: a normal number plus either zero is itself |
| `DoubleAdd.SumExtremes` | bootrom/mufplib-double.S:184-354 | opposite numbers cancel to positive zero, opposite infinities give positive infinity, an infinity swallows anything finite |
| `UsbEndpoint.Endpoint.GiveBuffer` | usb_device_tiny/usb_device.c:413-461 | the next buffer joins the hardware's queue with the next toggle, and with the selector bit if it is the first after a reset; ownership, toggles and order stay in step |
| `UsbEndpoint.Endpoint.GiveAsMany` | usb_device_tiny/usb_device.c:496-514 | the loop ends although handlers re-enter it, and unless a handler has put its packet off or halted the endpoint no packet is left to submit or no buffer to give |
| `UsbEndpoint.Endpoint.CheckCompletion` | usb_device_tiny/usb_device.c:516-543 | a transfer ends exactly when halted or when nothing is left to handle or outstanding; on_complete comes only with every buffer back |
| `UsbEndpoint.Endpoint.HandleTransfer` | usb_device_tiny/usb_device.c:545-580 | a completed buffer halts an endpoint without a transfer, is queued behind an outstanding packet, or goes to the handler and brings the transfer one packet nearer to its end |
| `UsbEndpoint.Endpoint.PacketDone` | usb_device_tiny/usb_device.c:582-614 | reporting a packet done, now or later, from within any of the callbacks, restores the invariant |
| `UsbEndpoint.Endpoint.StartTransfer` | usb_device_tiny/usb_device.c:621-638 | also from on_complete: a transfer of n packets starts with the lesser of n and all buffers given to the hardware, unless a handler has put the first off or halted the endpoint; on a halted endpoint with none |
| `UsbEndpoint.Endpoint.HardwareCompletes` | usb_device_tiny/usb_device.c:545-614 | one completion event, with all the recursion it causes: the invariant is kept, the packet is handed over unless one is outstanding, and a transfer that ends has had all its packets on the bus |
| `UsbEndpoint.Endpoint.ResetBuffers` | usb_device_tiny/usb_device.c:133-167 | every buffer is taken back, the next one given is the first again, and the toggle has the parity of the packets completed |
| `UsbEndpoint.Endpoint.ResetEndpoint` | usb_device_tiny/usb_device.c:321-348 | what a hard and a soft reset do to toggle, halt and transfer |
| `UsbEndpoint.Endpoint.ClearHaltFeature` | usb_device_tiny/usb_device.c:929-943 | clearing the halt resets the endpoint, or for a halt on a condition the toggle only |
| `UsbEndpoint.Endpoint.ClearThenSoftReset` | usb_device_tiny/usb_device.c:936-940 | the toggle after such a clear and a soft reset is DATA0 exactly unless one buffer was with the hardware |
| `UsbEndpoint.LoseToggle` | usb_device_tiny/usb_device.c:140-143 | a run from the start that leaves DATA1 where the host expects DATA0 |
| `UsbEndpoint.Endpoint.HaltedRun` | usb_device_tiny/usb_device.c:174-191 | no sequence of halts, clears, reports and starts lowers a halt on a condition or gives hardware a buffer |
| `UsbEndpoint.Endpoint.RunTransfer` | usb_device_tiny/usb_device.c:413-638 | a transfer of n packets on an endpoint that is not halted never stands still, and completes once, after exactly n completion events and the reports of the handlers, whatever these choose; without reports if they answer at once |
| `UsbEndpoint.Endpoint.Run` | usb_device_tiny/usb_device.c:413-614 | over every run packets reach the handler in bus order, once each; no buffer with an outstanding packet is the hardware's; a running transfer that waits for no handler is with the hardware; toggles follow the packets completed and the selector bit goes to the first buffer after a reset alone; each transfer not dropped completes once, with every buffer back |
| `UsbInStart.LeadingMeans` | usb_device_tiny/usb_device.c:496-514 | the packets counted as filled at once are those before the first that is put off |
| `UsbInStart.InEndpoint.GiveAsMany` | usb_device_tiny/usb_device.c:496-514 | the handler of an IN transfer being started is called with a packet outstanding exactly when it fills some but not all packets at once |
| `UsbInStart.InEndpoint.PacketDone` | usb_device_tiny/usb_device.c:582-614 | the same from within the handler |
| `UsbStream.ChunksHoldStream` | usb_device_tiny/usb_stream_helper.c:52-110 | the chunks of a stream number its length over the chunk size rounded up, hold it in order, and are padded with zeros |
| `UsbStream.ChunkHolds` | usb_device_tiny/usb_stream_helper.c:52-110 | chunk k holds the bytes of the stream from k times the chunk size on, and zeros after them |
| `UsbStream.EndedChunkMeans` | usb_device_tiny/usb_stream_helper.c:70-90 | the length passed to on_chunk is what the chunk holds, at the end of a chunk or of the stream, and 0 elsewhere |
| `UsbStream.Stream.PacketHandler` | usb_device_tiny/usb_stream_helper.c:52-108 | a packet received extends the chunk, and the chunk that ends with it is delivered complete, zero-padded and once |
| `UsbStream.Stream.InPacketHandlerComplete` | usb_device_tiny/usb_stream_helper.c:14-46 | a packet sent is the next 64 bytes of the stream, or what is left |
| `UsbStream.Relay` | usb_device_tiny/usb_stream_helper.c:14-128 | packets sent for a stream rebuild its chunks on the receiving side, with the number of packets the transfer was set up for |
| `Msc.StatusIsStandard` | usb_device_tiny/usb_msc.c:146-171 | the phase errors reported are those of section 6.7 of USB Mass Storage Bulk-Only Transport 1.0 except for one kind of command |
| `Msc.MassStorage.InitForDiOrDo` | usb_device_tiny/usb_msc.c:146-171 | length, halt and status planned for the data phase, or the answer at once when there is nothing to move |
| `Msc.MassStorage.ReadOrWriteBlocks` | usb_device_tiny/usb_msc.c:253-281 | the transfer has as many whole packets as fit in what the host asks for and in the blocks, none if they disagree on the direction; without any the answer comes at once |
| `Msc.MassStorage.DataPhaseComplete` | usb_device_tiny/usb_msc.c:106-120 | the wrapper is sent, or waits behind the halted IN endpoint |
| `Msc.MassStorage.InUnstalled` | usb_device_tiny/usb_msc.c:357-366 | clearing the halt of the IN endpoint sends the wrapper that was held back, if one was |
| `Msc.MassStorage.Command` | usb_device_tiny/usb_msc.c:210-281 | over a whole READ(10) or WRITE(10): all whole packets that both sides want move, or those up to the end of the first sector that fails; the residue is the rest, nothing if both want the same; which endpoint is halted, and that there is one answer |
| `Deliveries.ReplayPage` | bootrom/async_task.c:155-198 | executing deliveries on all of memory is, seen from one flash page, erasing and programming that page |
| `Deliveries.PageOutcome` | bootrom/virtual_disk.c:204-217 | in an image whose blocks share a sector exactly when they share an erase bit, a page is erased at most once and then written at most once, in whatever order and whichever tasks are turned down |
| `Deliveries.TurnedDown` | bootrom/async_task.c:271-279 | such an image is in memory, whatever memory held before, exactly if each task turned down would have written a blank page to flash without an erase |
| `Deliveries.UnalignedIsWrong` | bootrom/virtual_disk.c:204-217 | an image that starts inside a sector and leaves it, delivered in turn: what its first page past that sector holds, for any contents of flash |
| `Deliveries.SafeBaseIff` | bootrom/virtual_disk.c:204-217 | every complete delivery of a contiguous image, in any order and over any contents, leaves it in flash exactly if the image starts at a sector or fits in one |
| `Deliveries.OthersMayWrite` | bootrom/async_task.c:149-154 | whatever memory is when k blocks have been written, the image is there after the others exactly if those k pages are still right and each other page has its erase to come or the bits it needs |
| `Deliveries.ElsewhereIsHarmless` | bootrom/async_task.c:149-154 | changes that spare the pages of the image are of that kind |
| `VirtualDisk.BitmapSizes` | bootrom/virtual_disk.c:363-372 | the bitmaps fit their 16 KiB, and clearing whole bytes leaves six erase bits no image within 16 MiB reaches |
| `VirtualDisk.Uf2Fields` | bootrom/virtual_disk.c:443-446 | the fields that make a sector a block for this chip |
| `VirtualDisk.OneAddressTurnedDown` | bootrom/async_task.c:168 | of the RAM pages the tracker accepts, the worker turns down the one that ends with the last byte of its range |
| `VirtualDisk.TaskStores` | bootrom/async_task.c:149-198 | a task of the tracker passes the worker's checks, whoever changed memory last, but for the end of a RAM page, and then erases its sector if it is to and stores its page |
| `VirtualDisk.Device.ExecuteTask` | bootrom/async_task.c:114-215 | when a task succeeds, what it then does to memory, which bytes it can change and who counts as the last to change memory |
| `VirtualDisk.Device.EraseRange` | bootrom/async_task.c:77-85 | the loop erases the range sector by sector and nothing else |
| `VirtualDisk.Device.UpdateCurrentUf2Info` | bootrom/virtual_disk.c:374-438 | exactly which blocks the tracker goes on with, when it starts afresh and when it gives up |
| `VirtualDisk.Device.NoteAddress` | bootrom/virtual_disk.c:195-201 | the lowest address is the least in SRAM of the blocks so far, none if there is none |
| `VirtualDisk.Device.DecideErase` | bootrom/virtual_disk.c:205-217 | the first block of its group is the one that erases the sector |
| `VirtualDisk.Device.WriteUf2Page` | bootrom/virtual_disk.c:171-242 | a block is queued exactly if it has not been delivered before, wherever it is to go, and recorded with its address |
| `VirtualDisk.Device.VdWriteBlock` | bootrom/virtual_disk.c:441-458 | what a sector of any content does to the download |
| `VirtualDisk.Device.WorkerTurn` | bootrom/async_task.c:271-307 | a task stores its page or, under exclusive access, after a reboot or with its end out of range, changes nothing; the reboot is requested exactly by the task that succeeds with every block of the image delivered, and a RAM image starts at its lowest address in SRAM |
| `Download.Run` | bootrom/async_task.c:289-307 | over every run of sectors, worker turns, exclusive access and chunks of the other interface, the device and its memory keep to a course that the events alone determine |
| `Download.AtReboot` | bootrom/virtual_disk.c:161-168 | at the reboot every block has been delivered, once, and memory is what the tasks carried out have made of it |
| `Download.RightAtReboot` | bootrom/async_task.c:271-279 | the image is then in memory, whatever memory held when the tracker was last reset, exactly if each task was carried out, with the queue enabled and its end in range, or could do no harm |
| `Download.PageAtReboot` | bootrom/async_task.c:271-279 | what each page of the image holds on the device at the reboot, its task carried out or not, its sector erased or not |
| `Download.RightAfterChunks` | bootrom/async_task.c:149-154 | with chunks stored in between, the image is in flash at the reboot exactly if memory was still right after the last of them |
| `Download.CollectedMeans` | bootrom/virtual_disk.c:192-235 | what is delivered for a block is the first that arrived |
| `Download.DownloadImage` | bootrom/virtual_disk.c:171-242 | for blocks in any order with any duplicates among other sectors, of an image that starts at a sector or fits in one: a reboot exactly when all have arrived, flash then holding the first payloads, each sector erased once, all other sectors untouched |
| `RamDownload.BitmapSuffices` | bootrom/virtual_disk.c:52-53 | the bitmap for RAM images has a bit for every page of RAM |
| `RamDownload.ImageFits` | bootrom/virtual_disk.c:52-53 | so no image whose pages do not overlap is too large for the tracker |
| `RamDownload.DownloadRamImage` | bootrom/virtual_disk.c:171-242 | for an image of RAM pages at any addresses that do not overlap, its blocks in any order with any duplicates among other sectors: a reboot exactly when all have arrived, memory then holding the first payloads and the start address the least of them in SRAM, all other bytes untouched |
| `Download.DamagedDownload` | bootrom/virtual_disk.c:204-217 | any other contiguous image, delivered in turn: the reboot comes with the first page past the first sector written over what was there, or erased again |
| `Download.LostPage` | bootrom/async_task.c:271-279 | a run in which a task is turned down: at the reboot its page is what it was before, and its neighbour is written over a sector never erased |
| `Download.ChunkBetween` | bootrom/async_task.c:149-154 | a run in which a chunk goes to a page just written: at the reboot the page has only the bits that both left |
| `Picoboot.Interlude` | bootrom/async_task.c:149-154 | after any disk tasks the PICOBOOT source is the last to have changed memory exactly if none of them has changed it |
| `Tasks.ChunkPasses` | bootrom/async_task.c:166-198 | a chunk of 1 to 256 bytes passes the worker's checks exactly within SRAM, within the XIP cache, or from a page on below SRAM |
| `Tasks.ErasePasses` | bootrom/async_task.c:155-162 | an erase passes them exactly for whole sectors below SRAM |
| `Tasks.ErasedMeans` | bootrom/async_task.c:77-85 | an erased range holds ones, and every other byte is as before |
| `Picoboot.ChunkStored` | bootrom/async_task.c:166-198 | a chunk whose task succeeds goes where the stream says, in RAM or flash |
| `Picoboot.ExecuteChunk` | bootrom/usb_boot_device.c:256-279 | after any disk tasks, a chunk succeeds exactly if its address is in range, no reboot has been requested and, but for the first, no disk task has changed memory since the chunk before |
| `Picoboot.StoreStream` | bootrom/usb_boot_device.c:256-279 | a write of any length succeeds exactly if its range lies in SRAM, in the XIP cache or from a page on in flash, no reboot is requested and no disk task changes memory unasked between two of its chunks; it has then stored exactly its stream over memory as it was at the first chunk |
| `Picoboot.StoredMeans` | bootrom/async_task.c:183-197 | byte by byte: RAM holds the stream and is otherwise as before; flash has kept the bits in common, which over erased flash is the stream, with zeros to the end of its last page and all other pages as before |
| `Picoboot.EraseFlash` | bootrom/usb_boot_device.c:296-316 | an erase command succeeds exactly for whole sectors of flash unless a reboot is requested, and sets every byte of them and no other |
| `FlashPump.Ssi.Levels` | bootrom/program_flash_generic.c:122-124 | reading the transmit level first bounds what is in flight from above |
| `FlashPump.SendNext` | bootrom/program_flash_generic.c:126-130 | a byte is written only when its reply has room |
| `FlashPump.PutGet` | bootrom/program_flash_generic.c:114-147 | for every interleaving no FIFO overflows and the loop ends; unless aborted nothing is left in flight and rx holds the replies to tx, one buffer or two |
| `FlashCommands.DoCmd` | bootrom/program_flash_generic.c:152-156 | the chip receives the command and its data in one selection, rx the replies |
| `FlashCommands.AddressDigits` | bootrom/program_flash_generic.c:160-167 | the three bytes of an address stand for it, most significant first |
| `FlashCommands.PutCmdAddr` | bootrom/program_flash_generic.c:160-167 | the command and those three bytes are sent |
| `FlashCommands.WaitReady` | bootrom/program_flash_generic.c:253-258 | polling stops with the first poll that finds the chip ready |
| `FlashCommands.PageProgram` | bootrom/program_flash_generic.c:267-274 | all the chip receives, byte by byte: write enable, the page command with its address and data, polls |
| `FlashCommands.UserErase` | bootrom/program_flash_generic.c:314-320 | all the chip receives, byte by byte: write enable, the erase command with its address, polls |
| `FlashCommands.ReadData` | bootrom/program_flash_generic.c:349-353 | rx holds the chip's replies after command and address, byte by byte |
| `FlashCommands.TilesOnce` | bootrom/program_flash_generic.c:333-344 | erases that tile a range erase each byte of it once and none outside |
| `FlashCommands.RangeErase` | bootrom/program_flash_generic.c:333-344 | the erases a chip reads from what it receives cover the range up to a whole sector, each byte once, and no other byte; each is aligned and enabled, and whole blocks are erased as one |
| `Codec.RepeatIsCopy` | generator/main.c:82-95 | copying byte by byte reproduces a repeat, overlapping or not |
| `Codec.GreedyIsUnique` | generator/main.c:44-63 | the greedy parse of a text is determined by the text |
| `Codec.GreedyMeans` | generator/main.c:44-63 | its tokens in terms of the bytes: a copy of the longest run of 3 to 127 bytes found at most 255 bytes before, of those the farthest, and a literal where there is none |
| `Codec.FindMatch` | generator/main.c:46-60 | the search finds the longest repeat within reach, and of those the farthest, or there is none |
| `Codec.ChooseTokens` | generator/main.c:37-63 | the loop emits the greedy parse; its cost is the length written, never above that of the text |
| `Codec.Compress` | generator/main.c:34-80 | success exactly for 7-bit text not filling the check buffer; the output is the encoding of the greedy parse |
| `Codec.Decompress` | generator/main.c:82-98 | the C decoder gives back the text of any encoded tokens |
| `Codec.ThumbDecompress` | bootrom/bootrom_misc.S:58-88 | so does the Thumb decoder, and it writes nothing else |
| `Codec.CompressThenShow` | bootrom/bootrom_misc.S:55-88 | what the generator compresses the device shows |
| `Crc.PolynomialIs` | bootrom/bootrom_misc.S:24 | the polynomial's coefficients are the bits of 0x04c11db7 |
| `Crc.BitsAt` | bootrom/bootrom_misc.S:27-49 | the bytes enter first to last, each most significant bit first |
| `Crc.ChecksumIsRemainder` | bootrom/bootrom_misc.S:17-52 | the checksum is the remainder of the seeded message in schoolbook division by x^32 + 0x04c11db7 |
| `Crc.Division` | bootrom/bootrom_misc.S:24 | every polynomial is a multiple of that one plus its remainder |
| `Crc.DivisionIsUnique` | bootrom/bootrom_misc.S:24 | and only one remainder will do |
| `Crc.ChecksumConcat` | bootrom/bootrom_misc.S:47-49 | a message can be taken in parts |
| `Crc.ChecksumLinear` | bootrom/bootrom_misc.S:35-41 | the checksum of a difference is the difference of the checksums |
| `Crc.EndDeterminesStart` | bootrom/bootrom_misc.S:35-41 | no two registers lead to the same checksum over the same bits |
| `Crc.BurstIsNoticed` | bootrom/bootrom_misc.S:17-52 | a change confined to 32 consecutive bits of a message of any length changes the checksum |
| `Crc.Residue` | bootrom/bootrom_misc.S:17-52 | a message followed by its checksum leaves zero |
| `Crc.ByteStep` | bootrom/bootrom_misc.S:27-44 | taking a byte at once is entering its eight bits one by one |
| `Crc.Crc32Small` | bootrom/bootrom_misc.S:17-52 | the routine computes the bit-serial checksum of its bytes |
| `Crc.InParts` | bootrom/bootrom_misc.S:17-52 | the routine over a message of bytes in two parts gives what it gives over the whole |
| `Crc.NoticeBurst` | bootrom/bootrom_misc.S:17-52 | the routine tells apart any two messages of bytes that differ within 32 consecutive bits only |
| `Crc.CheckResidue` | bootrom/bootrom_misc.S:17-52 | over a message and the four bytes of its checksum, most significant first, the routine gives zero |

## Left out

- Division, square root and the scientific functions: they rest on the hardware divider and on tables.
- NaN operands: the routines read them as infinities, and so does the model.
- Code timing, the size-saving variants of functions that are also there in C, and `NO_ASYNC` builds.
- Clock, reset, pad and watchdog set-up, USB descriptors and the dispatch of setup packets, the
  contents of the virtual FAT disk, and the fixed SCSI replies.
- `AT_EXEC`, vectored flash functions and the read half of a task: a task is its erase and its write.
- FlashPump.PutGet: does not model buffers that overlap in part, and after an abort only the replies
  already stored are described; the commands of FlashCommands are stated for runs without an abort.
- FlashCommands.RangeErase: is stated for ranges within the 16 MiB that flash commands address.
- UsbEndpoint.Endpoint.Run: completions still pending in the hardware when an endpoint is reset, and
  handlers that outlive a reset, are not events of the model; transfer objects are folded into the
  endpoint, one current transfer at a time.
- UsbStream.Relay: packets are full but for the last, as the source asserts.
- VirtualDisk.Device.VdWriteBlock: a block for a flash page beyond the 16 MiB that flash commands
  address is not modelled, and a task is not dropped from the queue by a PICOBOOT reset.
- Download.Run: follows one image up to its reboot; of flash images it leaves out those of more than
  123264 blocks, whose last erase bits may be left over from before.
- Download.RightAfterChunks: is stated for flash images.
- Picoboot.StoreStream: a write from a flash page on that runs past what flash commands can address
  is not modelled, nor such an erase (`Picoboot.EraseFlash`).
