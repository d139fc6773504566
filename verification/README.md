# Avatar kernel and hypervisor: a Dafny model of its core logic

Avatar is a small AArch64 kernel and hypervisor written in C, with a few Python build tools. This project models its sequential core in Dafny and proves properties of that model. Hardware, logging and the file system are parameters or are left out. The model covers eight groups of logic.

- **Include-dependency analyser** (`scripts/check_deps.py`). Modules `CheckDeps`, `PosixPath`, `CheckDepsCycles` and `CheckDepsOrder`.
  - `CheckDeps` covers file discovery over the `os.walk` entries, `#include` extraction and resolution against the include directories, and the forward graph with its reverse index.
  - `PosixPath` models `os.path.join` and `os.path.relpath`.
  - `CheckDepsCycles` is the depth-first cycle search. It is proved sound and complete.
  - `CheckDepsOrder` is Kahn's ordering. It is proved complete exactly when the graph has no cycle.
- **FAT32 driver logic.**
  - `Fat32Dir` handles 8.3 names and directory entries.
  - `Fat32Utils` handles paths, the packed date and time, and the short-name checksum.
  - `Fat32Fat` holds the FAT as a map from cluster to entry.
  - `Fat32Boot` covers the BPB, the layout and FSInfo.
  - `Fat32File` covers handles, seek, path parsing and growth planning.
  - `Fat32Cache` is the 16-block cache.
  - `Fat32Disk` is the memory-backed disk.
  - `Fat32Context` holds the mount flags and the errno and message tables.
  - These follow Microsoft's *FAT: General Overview of On-Disk Format*.
- **Memory managers.**
  - `MemBitmap` is the page bitmap.
  - `Pmm` is the page-frame allocator.
  - `KAllocator` is the kernel small-block and large-block allocator, with its free list as a sequence of blocks.
  - `VirtioAlloc` is the VirtIO bump allocator and the per-device queue layout.
  - `Ramfs` is the in-memory file table with its link counts.
- **Virtqueues**, following sections 2.6 and 4.2 of the VIRTIO 1.1 specification.
  - `VirtioFrontend` is the driver side: queue setup, the descriptor free list, add_buf and get_buf.
  - `VirtioBlock` splits block transfers into batches.
  - `VirtioDevice` is the hypervisor's device side: queue init, pop and push, the MMIO register file, feature negotiation and the device pool. Lemmas connect the driver's add_buf to the device's pop.
- **Emulated devices.**
  - `Vpl011` and `Vpl011Console` model the PL011 UART and its escape and command handling.
  - `VgicdRegs` and `Vgicd` model the GICv2 distributor, following section 4.3 of the ARM GICv2 architecture specification.
  - `Vgic` models the per-vCPU pending state and list-register injection.
  - `Gic` models the list-register encoders.
  - `VTimer` models the virtual generic timer's CTL, CVAL and TVAL rules.
  - `VirtioConsole` models the console's rings.
- **Text utilities.**
  - `Printf` is the kernel's `my_vsnprintf`, a subset of section 7.21.6.1 of ISO C11.
  - `CString` is the kernel's string library.
  - `Shell` covers argument splitting, path handling and line editing.
  - `Symbols` is the `objdump -t` symbol-table analyser.
  - `FileHeaders` is the copyright-header tool.
- **Rings and scheduling.**
  - `UartRing` models the UART's two 32-byte buffers.
  - `Tasks` models the task table, the per-core ready lists, the sleep list and the tick rule.
- **Bit encoders.**
  - `BitUtils` models the bit and alignment macros on 64-bit words.
  - `IntBits` models C's bitwise operators on naturals. It is shared by the register models.

`CTypes`, `Util` and `Fat32Types` hold shared types and helpers.

C's fixed-width integers are modelled as subset types of `int`. Every wrap-around or truncation is written out as a `%` by the type's modulus, wherever the source relies on one or suffers from one. Operations are pure functions over immutable datatypes. A C routine that returns an error code returns a datatype holding the code. A routine that changes global state takes the state and returns the new one.

The following are parameters rather than modelled code:
- the current directory;
- the `os.walk` sequence;
- file contents and `os.path.exists`;
- the hardware FIFO's fullness;
- the VM's current tick;
- a device's answer to a request;
- the page a page allocator hands out;
- the directory test of the shell.

Where the description of the dependency analyser and its code differ, the model follows the code:
- Only `.c` and `.S` files are edge sources (`scripts/check_deps.py:86-87`), so two headers that include each other form no cycle.
- Edges run from the includer to the included file. Kahn's in-degree counts includers, so the build order lists every file after all the files that include it, which is the reverse of a compile order.
- A file on a cycle is never listed.

When the source has an evident bug, the model keeps two versions:
- a member named `...AsWritten` that behaves as the code does, together with a lemma exhibiting the failure;
- a corrected member carrying the intended property, which the rest of the model uses.

They are listed under "## Findings".

## Model

| member | source | states |
|---|---|---|
| BitUtils.BitSet | include/lib/bit_utils.h:43 | bit b becomes 1 and every other bit keeps its value |
| BitUtils.BitClear | include/lib/bit_utils.h:51 | bit b becomes 0 and every other bit keeps its value |
| BitUtils.BitToggle | include/lib/bit_utils.h:59 | bit b flips and every other bit keeps its value |
| BitUtils.BitTest | include/lib/bit_utils.h:67 | the result is the single bit b when it is set, zero otherwise |
| BitUtils.BitGet | include/lib/bit_utils.h:75 | the result is 1 exactly when bit b is set, zero otherwise |
| BitUtils.SetClearToggle | include/lib/bit_utils.h:43-59 | clearing a bit just set gives back a word where it was clear; toggling twice is the identity; setting a set bit changes nothing |
| BitUtils.BitMask | include/lib/bit_utils.h:83 | for a field narrower than the word, exactly bits start..end are set |
| BitUtils.BitExtract | include/lib/bit_utils.h:92 | bit i of the result is bit start+i of the value within the field's width, zero above it |
| BitUtils.BitInsert | include/lib/bit_utils.h:102-103 | bits outside the field are the original's; bits inside are the low bits of the value |
| BitUtils.ExtractInsert | include/lib/bit_utils.h:92-103 | extracting an inserted field gives back the value cut to the field's width |
| BitUtils.InsertExtract | include/lib/bit_utils.h:92-103 | inserting a word's own field leaves the word unchanged |
| BitUtils.HighestBitBounds | include/lib/bit_utils.h:27-35 | for x >= 1, 2^p <= x < 2^(p+1) where p is the highest bit position |
| BitUtils.HighestBitOfPow2 | include/lib/bit_utils.h:27-35 | the highest bit of 2^k is k |
| BitUtils.PowerOf2Exactly | include/lib/bit_utils.h:170 | the power-of-two test holds exactly for nonzero x equal to 2 to its highest bit |
| BitUtils.Pow2IsPowerOf2 | include/lib/bit_utils.h:170 | every 2^k passes the power-of-two test |
| BitUtils.PowerOf2Divides | include/lib/bit_utils.h:170-194 | of two powers of two the smaller divides the larger, so alignment to one implies alignment to the other |
| BitUtils.AlignDown | include/lib/bit_utils.h:186 | for a power-of-two alignment the result is the largest multiple of it at or below x |
| BitUtils.AlignUp | include/lib/bit_utils.h:178 | the result is a multiple of the alignment, and when x + align - 1 does not wrap it is the smallest one at or above x |
| BitUtils.AlignIdempotent | include/lib/bit_utils.h:178-194 | an aligned value is left as it is by ALIGN_DOWN, and by ALIGN_UP when the sum does not wrap |
| BitUtils.AlignUpWraps | include/lib/bit_utils.h:178 | aligning 2^64 - 1 up to 4096 wraps to 0 |
| Gic.PriField | dev/gic.c:397 | the priority field keeps bits 3..7 of the priority: a multiple of 8 below 256 |
| Gic.MakeHw | dev/gic.c:394-400 | the word is the hardware-pending top bits, the group bit, the priority, the physical id and the virtual id, each in its own field; its low 10 bits are the virtual id cut to 9 bits |
| Gic.MakeSw | dev/gic.c:403-408 | the word is the pending top bits, the group bit, the priority and the virtual id, each in its own field |
| Gic.MakeSgi | dev/gic.c:411-417 | the low 10 bits are the virtual id; for a CPU id below 2^13 the word is the pending bits, group, priority, CPU id at bit 10 and virtual id |
| Gic.ReadVid | dev/gic.c:436-439 | the virtual id read back is the word's low 9 bits |
| Gic.ReadPri | dev/gic.c:430-433 | the priority read back is bits 23..27 of the word scaled back by 8: a multiple of 8 below 256 |
| Gic.HwReadsBack | dev/gic.c:394-439 | a hardware-interrupt word reads back its virtual id, priority field, physical id and top bits (0xD with group 1, 0x9 without) |
| Gic.SwReadsBack | dev/gic.c:403-439 | a software-interrupt word reads back its virtual id, priority field and top bits (5 with group 1, 1 without) |
| Gic.SgiReadsBack | dev/gic.c:411-439 | an SGI word reads back its virtual id, priority field, requesting CPU and top bits |
| Vgic.SetPending | include/vmm/vgic.h:115-120 | afterwards interrupt id is pending, every other id keeps its pending state, and nothing but the pending bitmap changes |
| Vgic.ClearPending | include/vmm/vgic.h:123-128 | afterwards interrupt id is not pending, every other id keeps its pending state, and nothing but the pending bitmap changes |
| Vgic.StatusFromBits | include/vmm/vgic.h:132-156 | bit j of the folded status is set exactly when it was set before or one of the list registers from k on shows j pending |
| Vgic.PendingStatusBits | include/vmm/vgic.h:132-156 | bit j of the SGI/PPI status is set exactly when j is pending in software or some list register holds j in the pending state |
| Vgic.EmptyLrIgnored | include/vmm/vgic.h:141-150 | a zero list register shows no interrupt pending |
| Vgic.LrFor | vmm/vdev/vgic.c:486-493 | the word built for interrupt i carries i as its virtual id (SGIs as software SGIs, others as hardware interrupts) |
| Vgic.FreeLr | vmm/vdev/vgic.c:460-475 | the search returns m exactly when m's ELSR bit is set and every earlier register is busy and does not carry i; None when there is no such m |
| Vgic.Place | vmm/vdev/vgic.c:495-501 | register k now holds i and is in use, i is no longer pending, and every other register, ELSR bit and pending bit is as before |
| Vgic.TryInject | vmm/vdev/vgic.c:447-574 | the corrected pass (fresh ELSR after each placement) keeps the core well formed and loses no interrupt: whatever was pending or held stays pending or held |
| Vgic.TryInjectAsWritten | vmm/vdev/vgic.c:447-574 | the pass as written, searching a snapshot of ELSR taken before the loops, keeps the core well formed |
| Vgic.PlaceKeeps | vmm/vdev/vgic.c:495-501 | placing into a free register keeps every delivered interrupt delivered, and the placed one is held |
| Vgic.SweepKeeps | vmm/vdev/vgic.c:455-573 | a sweep that reads the live ELSR keeps every delivered interrupt delivered |
| Vgic.SweepIdle | vmm/vdev/vgic.c:457-458 | a sweep over a range with nothing pending changes nothing |
| Vgic.SweepKeepsDisabled | vmm/vdev/vgic.c:520-524 | a pending SPI whose enable bit is clear stays pending through the sweep |
| Vgic.DisabledSpiStaysPending | vmm/vdev/vgic.c:520-524 | a pending disabled SPI stays pending after either version of vgic_try_inject_pending |
| Vgic.StaleSweep | vmm/vdev/vgic.c:453-501 | with SGIs 0 and 1 pending and LRs 0..3 free, the snapshot search puts both into LR0 |
| Vgic.StaleElsrLosesSgi | vmm/vdev/vgic.c:453-501 | SGI 0 is pending before the pass as written and neither pending nor held after it |
| Vgic.Pend | vmm/vdev/vgic.c:309-325 | marking an interrupt pending (and, on a running vCPU, trying injection) delivers it and keeps every delivered interrupt; a vCPU not running keeps its list registers |
| Vgic.InjectSgi | vmm/vdev/vgic.c:269-326 | ids outside 0..15 change nothing; an SGI already pending changes nothing; otherwise it is delivered and nothing delivered is lost |
| Vgic.InjectPpi | vmm/vdev/vgic.c:330-386 | ids outside 16..31 change nothing; a disabled PPI not pending changes nothing; an enabled one is delivered; one already pending changes nothing |
| Vgic.InjectSpiAsWritten | vmm/vdev/vgic.c:390-443 | ids outside 32..1019 change nothing; ids 32..511 are delivered; the model yields None where the source would index past the pending bitmap |
| Vgic.SpiPastBitmapAccepted | vmm/vdev/vgic.c:393-397 | SPI 600 passes the source's range check although its bitmap word does not exist |
| Vgic.InjectSpi | vmm/vdev/vgic.c:390-443 | ids outside 32..511 change nothing; an SPI already pending changes nothing; otherwise it is delivered and nothing delivered is lost |
| VgicdRegs.StoreWord | vmm/vdev/vgicd.c:590-603 | a 32-bit store through a byte array changes exactly the four bytes of that word, least significant first, and leaves every other byte |
| VgicdRegs.LoadStore | vmm/vdev/vgicd.c:590-666 | a word stored into GICD_ITARGETSR's byte array and loaded back is the word stored |
| VgicdRegs.LoadStoreOther | vmm/vdev/vgicd.c:590-666 | a store to one word leaves every other word's load unchanged |
| VgicdRegs.WordOfBytes | vmm/vdev/vgicd.c:408-411 | a word is the sum of its four bytes at weights 1, 2^8, 2^16 and 2^24 |
| VgicdRegs.SgirId | vmm/vdev/vgicd.c:498 | SGIINTID is the low four bits |
| VgicdRegs.SgirFilter | vmm/vdev/vgicd.c:499 | TargetListFilter is bits 24..25 |
| VgicdRegs.SgirTargets | vmm/vdev/vgicd.c:500 | CPUTargetList is bits 16..23 |
| VgicdRegs.SgirRoundTrip | vmm/vdev/vgicd.c:496-500 | decoding an encoded GICD_SGIR value gives back the SGI id, filter and target list |
| VgicdRegs.ListedBelow8 | vmm/vdev/vgicd.c:511-515 | with filter 0 a target list below 256 never names a vCPU with id 8 or more |
| VgicdRegs.TyperRead | vmm/vdev/vgicd.c:544-556 | the value read keeps the hardware's bits above 7 and below 5 and holds (vcpu_cnt - 1) & 7 in bits 5..7, or 0 when there are no vCPUs |
| VgicdRegs.TyperInsert | vmm/vdev/vgicd.c:547-553 | clearing bits 5..7 and or'ing in a 3-bit field puts exactly that field there |
| VgicdRegs.CpuNumber | vmm/vdev/vgicd.c:544-556 | GICD_TYPER's CPUNumber field plus one is the CPU count it encodes |
| VgicdRegs.TyperCountsVcpus | vmm/vdev/vgicd.c:544-556 | for one to eight vCPUs the guest reads back the vCPU count |
| VgicdRegs.TyperKeepsHardwareFields | vmm/vdev/vgicd.c:544-556 | ITLinesNumber and the bits above CPUNumber pass through from the hardware |
| VgicdRegs.OddBitsFields | vmm/vdev/vgicd.c:607-622 | the alternating-bits word has field 0b10 for its first n two-bit fields and 0b00 after |
| VgicdRegs.CfgSgiPpiFields | vmm/vdev/vgicd.c:607-622 | of the SGIs and PPIs only interrupts 0..7 read Int_config 0b10 (edge); 8..31 read 0b00 |
| VgicdRegs.OddBitsWord | vmm/vdev/vgicd.c:578-614 | the alternating-bits words of 8 and 16 fields are 0xAAAA and 0xAAAAAAAA |
| VgicdRegs.SelfTargetByte | vmm/vdev/vgicd.c:643 | the byte `(uint8_t)(1 << vcpu)` is 2^vcpu below 8 and 0 from 8 on |
| VgicdRegs.TargetSgiPpiRead | vmm/vdev/vgicd.c:640-650 | every byte of the SGI/PPI target word is the reading vCPU's own target byte |
| VgicdRegs.SelfTargetNamesReader | vmm/vdev/vgicd.c:640-650 | the target byte names the reading vCPU exactly when its id is below 8 |
| VgicdRegs.HwConfig | vmm/vdev/vgicd.c:577-579 | the value passed to the hardware GICD_ICFGR keeps exactly the odd bits of the guest's value |
| Vgicd.DecodeWrite | vmm/vdev/vgicd.c:670-743 | every offset decodes to a register the write dispatch handles, never to a read-only register (TYPER, IIDR, SGI/PPI ICFGR or ITARGETSR) |
| Vgicd.DecodeRead | vmm/vdev/vgicd.c:747-825 | every offset decodes to a register the read dispatch handles, never to GICD_SGIR |
| Vgicd.DecodersAgree | vmm/vdev/vgicd.c:670-825 | an offset that is a readable and writable register decodes to the same register for reads and writes |
| Vgicd.SourceValueAsWritten | vmm/vdev/vgicd.c:120-127 | the value taken from Xt is register t's low 32 bits for t below 31 |
| Vgicd.SourceValue | vmm/vdev/vgicd.c:120-127 | the corrected source reads 0 for register 31 (the zero register) and agrees with the source for the others |
| Vgicd.ZeroRegisterReadsStackPointer | vmm/vdev/vgicd.c:120-127 | with Rt = 31 the source's read takes the saved stack pointer, where the zero register reads 0 |
| Vgicd.LoadIntoAsWritten | vmm/vdev/vgicd.c:79-116 | the load as written keeps the frame well formed |
| Vgicd.LoadInto | vmm/vdev/vgicd.c:79-116 | the corrected load sets Xt to the 32-bit value zero-extended for t below 30, skips X30 and the zero register, and changes nothing else |
| Vgicd.LoadThenStore | vmm/vdev/vgicd.c:79-127 | a value loaded into Xt is the value a following store from Xt takes |
| Vgicd.LoadKeepsUpperHalf | vmm/vdev/vgicd.c:111-113 | the store through a uint32_t pointer keeps the register's upper half; the corrected load clears it |
| Vgicd.LoadIntoZeroRegisterClobbersUsp | vmm/vdev/vgicd.c:106-113 | a load into Rt = 31 as written overwrites the saved stack pointer; the corrected one leaves it |
| Vgicd.RawWrite | vmm/vdev/vgicd.c:28-66 | vgicd_write stores Xt's low word for t below 30 and leaves the cell alone for X30 |
| Vgicd.AccessLen | vmm/vdev/vgicd.c:124 | the access length `1 << (size & 3)` is 1, 2, 4 or 8 |
| Vgicd.EnableSgiPpi | vmm/vdev/vgicd.c:151-171 | GICD_ISENABLER0 is write-1-to-set: a bit is enabled afterwards exactly when it was before or is set in the value; nothing else changes |
| Vgicd.DisableSgiPpi | vmm/vdev/vgicd.c:230-250 | GICD_ICENABLER0 is write-1-to-clear: a bit is enabled afterwards exactly when it was and is clear in the value; nothing else changes |
| Vgicd.EnabledPpiIsDelivered | vmm/vdev/vgicd.c:151-171 | after a PPI is enabled, injecting it delivers it |
| Vgicd.DisabledPpiIsDropped | vmm/vdev/vgicd.c:230-250 | after a PPI not pending is disabled, injecting it changes nothing |
| Vgicd.SetSpiEnableAsWritten | vmm/vdev/vgicd.c:175-201 | for a word index within the array it agrees with the corrected write; past the array it is None, where the source writes out of bounds |
| Vgicd.SetSpiEnable | vmm/vdev/vgicd.c:175-201 | word idx - 1 of the SPI enable array is or'ed with the value, every other word is kept, and indices past the array change nothing |
| Vgicd.ClearSpiEnable | vmm/vdev/vgicd.c:254-281 | word idx - 1 is and-not'ed with the value, every other word is kept, and indices past the array change nothing |
| Vgicd.SpiEnableReadAsWritten | vmm/vdev/vgicd.c:216-226 | the read as written returns word idx of the array (not idx - 1), and None past the array |
| Vgicd.SpiEnableRead | vmm/vdev/vgicd.c:216-226 | the corrected read returns word idx - 1, whose bit b says whether SPI 32 * idx + b is enabled |
| Vgicd.SpiEnableRoundTrip | vmm/vdev/vgicd.c:175-281 | reading an enable word after a set or clear gives the old word or'ed with, or cleared of, the value |
| Vgicd.SetSpiEnableEnables | vmm/vdev/vgicd.c:175-201 | a bit written to GICD_ISENABLERn enables the SPI it names |
| Vgicd.EnableReadsWrongWord | vmm/vdev/vgicd.c:175-226 | after enabling SPI 32 by writing 1 to GICD_ISENABLER1, reading that register as written gives 0; the corrected read gives 1 |
| Vgicd.HighEnableWritePastArray | vmm/vdev/vgicd.c:175-201 | GICD_ISENABLER17 decodes to the SPI enable handler, whose write as written falls past the array |
| Vgicd.HwIds | vmm/vdev/vgicd.c:187-272 | the interrupt ids passed to the hardware are exactly base + b for the bits b set in the value, leaving out 33 when disabling |
| Vgicd.DisableSkips33 | vmm/vdev/vgicd.c:267-272 | disabling never passes interrupt 33 to the hardware; enabling does when its bit is set |
| Vgicd.SetPendingSgiPpi | vmm/vdev/vgicd.c:310-331 | GICD_ISPENDR0 write-1-to-set: id j is pending afterwards exactly when it was or j < 32 and bit j is set; nothing else changes |
| Vgicd.SetPendingShows | vmm/vdev/vgicd.c:310-383 | a bit written to GICD_ISPENDR0 reads back as pending |
| Vgicd.FirstPendingLr | vmm/vdev/vgicd.c:354-365 | the search finds the first list register holding the id in the pending state, or None when there is none |
| Vgicd.ReleaseLr | vmm/vdev/vgicd.c:359-363 | releasing clears the pending bit of register m and sets its ELSR bit; every other register and ELSR bit and the pending bitmap are unchanged |
| Vgicd.ClearPendingOne | vmm/vdev/vgicd.c:348-366 | clearing one id removes it from the pending bitmap and releases the first list register pending with it, if any, and nothing else |
| Vgicd.ClearPendingSgiPpi | vmm/vdev/vgicd.c:335-372 | GICD_ICPENDR0 write-1-to-clear: id j is pending afterwards exactly when it was and is not cleared, and each list register either is unchanged or was released for a cleared id |
| Vgicd.ClearPendingFromLrs | vmm/vdev/vgicd.c:335-372 | every list register ends unchanged or released for an id the value clears |
| Vgicd.SetThenClearPending | vmm/vdev/vgicd.c:310-372 | setting then clearing the same pending bits leaves them not pending |
| Vgicd.PriWrite | vmm/vdev/vgicd.c:398-455 | bytes offset..offset+len-1 below the limit take the value's bytes, others are kept; an 8-byte access is undefined (a shift by 32 or more) and yields None |
| Vgicd.PriWriteReadBack | vmm/vdev/vgicd.c:398-488 | a 4-byte aligned priority write is a word store, and the word read back is the value written |
| Vgicd.ReadReg | vmm/vdev/vgicd.c:747-825 | ISENABLER0 reads the vCPU's enable mask, ISPENDR0 the pending status, TYPER the adjusted hardware value; exactly unimplemented and unmapped offsets yield nothing |
| Vgicd.WriteReg | vmm/vdev/vgicd.c:670-743 | a write keeps both states well formed, is undefined exactly for 8-byte priority writes, sends an SGI exactly for GICD_SGIR with decoded fields in range, and ignores unimplemented offsets |
| Vgicd.WriteThenRead | vmm/vdev/vgicd.c:670-825 | a 4-byte write to CTLR, an SPI ICFGR, an SPI ITARGETSR or an IPRIORITYR word reads back the value written |
| Vgicd.TargetWriteThenRead | vmm/vdev/vgicd.c:590-666 | an SPI ITARGETSR write is a word store into the target array, and reads back the value |
| Vgicd.PriorityWriteThenRead | vmm/vdev/vgicd.c:398-488 | an aligned 4-byte IPRIORITYR write reads back the value |
| Vgicd.SendSgiTo | vmm/vdev/vgicd.c:492-533 | every targeted vCPU gets the SGI delivered without losing any other; every other vCPU is unchanged |
| Vgicd.SelfSgiOnlyToWriter | vmm/vdev/vgicd.c:521-525 | filter 2 delivers to the writing vCPU only |
| Vgicd.ListedSgiSkipsHighVcpus | vmm/vdev/vgicd.c:511-515 | filter 0 never reaches a vCPU with id 8 or more |
| Vgicd.Handle | vmm/vdev/vgicd.c:829-846 | a trapped access keeps the frame well formed; a write leaves the frame alone; a read or an offset outside the window leaves the distributor state unchanged |
| Vgicd.GuestStoreThenLoad | vmm/vdev/vgicd.c:28-825 | a guest's 32-bit store to a read/write register followed by a load into another register gives back the stored register's low word |
| VTimer.Init | vmm/vdev/vtimer.c:85-100 | a fresh per-vCPU timer carries its id, is disabled, has nothing pending and has never fired |
| VTimer.ReadCtl | vmm/vdev/vtimer.c:140-146 | bit i of the CTL value read is bit i of the guest's saved register for i below 32 and clear above; a register that fits 32 bits reads back unchanged |
| VTimer.CtlRoundTrip | vmm/vdev/vtimer.c:140-304 | a CTL value written reads back unchanged, its ENABLE bit matches the timer's enabled flag, and after a restore the guest reads the hypervisor's CTL |
| VTimer.ReadTval | vmm/vdev/vtimer.c:149-165 | TVAL is CVAL minus the virtual time reduced to a signed 32-bit value: equal to the distance when it fits |
| VTimer.ClearStatus | vmm/vdev/vtimer.c:212-282 | ISTATUS is cleared and no other CTL bit changes; when it was set the pending flag drops and the guest's CTL copy follows; otherwise nothing changes |
| VTimer.WriteCtl | vmm/vdev/vtimer.c:177-209 | CTL becomes the value in both copies; enabled follows the ENABLE bit; pending survives unless the write clears a set ISTATUS; nothing else changes |
| VTimer.WriteCval | vmm/vdev/vtimer.c:212-241 | CVAL becomes the value in both copies, ISTATUS and a pending interrupt it marked are cleared, and the enable state and TVAL are kept |
| VTimer.WriteTval | vmm/vdev/vtimer.c:244-282 | CVAL becomes now + TVAL modulo 2^64, TVAL is stored, ISTATUS and pending are cleared, and the enable state is kept |
| VTimer.TvalRoundTrip | vmm/vdev/vtimer.c:149-282 | a TVAL written at time now reads back unchanged at the same time |
| VTimer.CvalRoundTrip | vmm/vdev/vtimer.c:149-241 | a CVAL written is the guest's CVAL, and TVAL then reads as the distance to it when that fits in 32 bits |
| VTimer.ShouldFire | vmm/vdev/vtimer.c:394-422 | the timer fires exactly when ENABLE is set and the time has reached CVAL; the enabled flag is refreshed from CTL |
| VTimer.InitNeverFires | vmm/vdev/vtimer.c:85-422 | a freshly initialised timer never fires |
| VTimer.Inject | vmm/vdev/vtimer.c:425-458 | the timer becomes pending with ISTATUS set and no other CTL bit changed, the fire count goes up by one modulo 2^64, CVAL is kept; a masked timer injects nothing, otherwise PPI 27 is delivered when enabled |
| VTimer.TickOne | vmm/vdev/vtimer.c:527-588 | a due timer of a vCPU on this CPU ends pending; a pending one, one elsewhere or one not due is left alone; a new firing counts once |
| VTimer.TickIdempotent | vmm/vdev/vtimer.c:569-586 | a second tick at the same time changes nothing more |
| VTimer.AckRearms | vmm/vdev/vtimer.c:212-586 | after the guest acknowledges by writing CVAL, a tick at or past it fires again and counts once more |
| VTimer.Restore | vmm/vdev/vtimer.c:286-303 | the guest's registers get the hypervisor's CTL, CVAL and TVAL; the hypervisor's copy is unchanged |
| VTimer.VirtualNow | vmm/vdev/vtimer.c:319-321 | the virtual time is the physical count minus CNTVOFF modulo 2^64 |
| VTimer.SaveWith | vmm/vdev/vtimer.c:306-391 | the stored TVAL is what the guest would read now; CTL follows the guest's but for ISTATUS; a changed CVAL wins, else a TVAL change sets CVAL to now + TVAL, else CVAL stays; id and fire history are kept |
| VTimer.ClearPendingStatus | vmm/vdev/vtimer.c:369-377 | the forced acknowledgement clears pending and ISTATUS, copies CTL to the guest, and changes nothing else |
| VTimer.SaveAsWritten | vmm/vdev/vtimer.c:306-391 | the save as written is the common save with the 64-bit TVAL test of lines 334-336 |
| VTimer.Save | vmm/vdev/vtimer.c:306-391 | with the TVAL test in 32-bit arithmetic, a guest that changed nothing keeps its CVAL and CTL but for ISTATUS, and the stored TVAL is what it would read |
| VTimer.SaveRestoreSave | vmm/vdev/vtimer.c:286-391 | saving, restoring and saving again at the same time gives the same hypervisor state |
| VTimer.RestoredIsQuiet | vmm/vdev/vtimer.c:286-352 | right after a restore the save sees no TVAL change and replays nothing |
| VTimer.FarCvalRewritten | vmm/vdev/vtimer.c:330-350 | with CVAL 2^32 ticks ahead and nothing changed by the guest, the save as written moves CVAL to now so the timer fires at once; the corrected save keeps CVAL |
| Vpl011.Reset | vmm/vdev/vpl011.c:174-202 | the initialised UART has empty FIFOs, FR 0x90 (TXFE and RXFE), UARTEN with TXE and RXE in CR, no interrupt unmasked or raised, base 0x09000000 and SPI 33 |
| Vpl011.Update | vmm/vdev/vpl011.c:450-487 | an uninitialised UART is left alone; otherwise RIS is recomputed from the FIFOs, MIS becomes RIS & IMSC, nothing else changes, and the line is raised exactly when an unmasked receive or transmit interrupt is raised |
| Vpl011.MaskedNonzero | vmm/vdev/vpl011.c:470-480 | RIS & IMSC is nonzero exactly when the receive interrupt is raised and unmasked or the transmit one is |
| Vpl011.ReadDr | vmm/vdev/vpl011.c:216-241 | an empty receive FIFO reads 0 and changes nothing; otherwise the oldest byte is returned and removed and the interrupt state recomputed |
| Vpl011.ReadFr | vmm/vdev/vpl011.c:246-257 | RXFE, TXFF, RXFF and TXFE read set exactly when the receive FIFO is empty, the transmit FIFO holds 16, the receive FIFO holds 16 and the transmit FIFO is empty |
| Vpl011.FrBit | vmm/vdev/vpl011.c:246-257 | bits 4..7 of the flag value are the four FIFO flags and no other bit is set |
| Vpl011.ReadMis | vmm/vdev/vpl011.c:283-286 | MIS reads RIS & IMSC bit by bit, and is nonzero exactly when a raised interrupt is unmasked |
| Vpl011.Read | vmm/vdev/vpl011.c:209-312 | an uninitialised UART reads 0; only a DR read changes the receive FIFO; the ID registers read their fixed values; the rest of the state is kept |
| Vpl011.WriteDr | vmm/vdev/vpl011.c:322-354 | a full transmit FIFO drops the byte; otherwise the low byte is sent and the interrupt state recomputed, the FIFO counts unchanged |
| Vpl011.WriteRsr | vmm/vdev/vpl011.c:356-359 | writing RSR clears exactly the error bits 0..3 set in the value and changes nothing else |
| Vpl011.WriteConfig | vmm/vdev/vpl011.c:361-384 | ILPR, LCR_H, IBRD, CR, FBRD and IFLS take the value cut to 8, 8, 16, 16, 6 and 6 bits, and nothing else changes |
| Vpl011.WriteIcr | vmm/vdev/vpl011.c:393-399 | ICR's clear is followed by the recomputation, so the outcome is the recomputed state: RIS reflects the FIFOs whatever was written |
| Vpl011.WriteImsc | vmm/vdev/vpl011.c:386-391 | IMSC takes the low 11 bits and the line is raised exactly when a raised interrupt is now unmasked |
| Vpl011.Write | vmm/vdev/vpl011.c:315-405 | an uninitialised UART ignores writes; a byte is sent exactly for a DR write with room; only DR, IMSC and ICR can raise the line; each register's write is the one above; unknown offsets change nothing |
| Vpl011.Inject | vmm/vdev/vpl011.c:490-516 | a character is appended to a receive FIFO with room and the interrupt state recomputed; a full FIFO or an uninitialised UART drops it |
| Vpl011.InjectKeepsFitting | vmm/vdev/vpl011.c:490-516 | injecting a sequence appends as many of its characters as fit and drops the rest |
| Vpl011.ReadsDrain | vmm/vdev/vpl011.c:216-241 | n DR reads return the first n received characters and leave the rest |
| Vpl011.InjectedReadBackInOrder | vmm/vdev/vpl011.c:216-516 | up to 16 characters injected into an empty FIFO read back in the same order |
| Vpl011.SeventeenthDropped | vmm/vdev/vpl011.c:490-516 | injecting more than 16 characters into an empty FIFO keeps the first 16 |
| Vpl011.MmioHandler | vmm/vdev/vpl011.c:412-443 | no UART for the VM means status 0 and nothing changed; otherwise status 1, a write applies vpl011_write at the offset from the base, and a read returns vpl011_read's value |
| Vpl011Console.GlobalInit | vmm/vdev/vpl011.c:119-133 | after global initialisation VM 0's console is active, escape switching is enabled, no escape is pending and the command line is empty |
| Vpl011Console.SwitchToVm | vmm/vdev/vpl011.c:574-593 | the active console becomes VM `id` exactly when that slot exists and has a VM; otherwise nothing changes |
| Vpl011Console.ParseCommand | vmm/vdev/vpl011.c:746-786 | a line is a switch command exactly when it starts with `vm ` followed by a digit, and then selects that one digit's VM; a line matching no keyword is reported unknown as typed |
| Vpl011Console.Execute | vmm/vdev/vpl011.c:746-786 | only `vm N` and `exit` change the console; help, status, list and unknown lines leave it as it was |
| Vpl011Console.CommandKey | vmm/vdev/vpl011.c:714-743 | Enter clears the line and runs it exactly when it was non-empty, Backspace and DEL drop the last character, a printable character is appended only while fewer than 63 are held, any other byte changes nothing, and nothing is forwarded to a VM |
| Vpl011Console.Receive | vmm/vdev/vpl011.c:519-567 | a byte reaches a VM exactly when it is not part of an escape and the active console is a slot with both a VM and a UART state, and then the console is unchanged; ESC only arms the escape and the following byte only disarms it without touching the command line |
| Vpl011Console.ReceiveAll | vmm/vdev/vpl011.c:519-567 | feeding a sequence of bytes keeps the command line well formed |
| Vpl011Console.TypedLineHeld | vmm/vdev/vpl011.c:714-743 | at the hypervisor console, printable characters that fit are appended to the command line in order and run nothing |
| Vpl011Console.TypedLineRuns | vmm/vdev/vpl011.c:714-743 | a printable line shorter than the buffer followed by Enter runs exactly that line's command, once |
| Vpl011Console.ReceiveAllSplit | vmm/vdev/vpl011.c:519-567 | feeding `a + b` is feeding `a` and then `b`: the same final console and the commands of both, in order |
| Vpl011Console.BackspaceUndoes | vmm/vdev/vpl011.c:731-741 | a printable character that fits followed by Backspace leaves the console exactly as before |
| Vpl011Console.EscapeDigitSwitches | vmm/vdev/vpl011.c:522-541 | ESC then a digit 1-4 forwards neither byte and makes VM digit-1 active exactly when it was already or that slot has a VM |
| Vpl011Console.Echo | vmm/vdev/vpl011.c:678-703 | the active VM's bytes are echoed bare; another VM's byte is preceded by `[VMn] ` exactly when it starts a line and is neither CR nor LF, and the echo always ends with the byte itself |
| VirtioConsole.FullIffCount | vmm/vdev/virtio/virtio_console.c:276-277 | the "next tail meets the head" test refuses a byte exactly when the buffer already holds 1023 bytes |
| VirtioConsole.Put | vmm/vdev/virtio/virtio_console.c:276-281 | a full buffer is left unchanged; otherwise the byte is appended after the bytes already held and the head stays |
| VirtioConsole.Take | vmm/vdev/virtio/virtio_console.c:295-296 | the byte returned is the oldest one held, and the buffer afterwards holds the rest in order |
| VirtioConsole.Input | vmm/vdev/virtio/virtio_console.c:271-286 | the input buffer gains exactly the first bytes of the data that fit in its free room, in order; the output buffer and the device are untouched; input is flagged available exactly when it was already or some byte was stored |
| VirtioConsole.Output | vmm/vdev/virtio/virtio_console.c:289-301 | exactly min(max_len, bytes held) bytes are copied out, and the copied bytes followed by what remains are the original contents |
| VirtioConsole.Reset | vmm/vdev/virtio/virtio_console.c:246-268 | both buffers read empty and no input is flagged; the device is kept |
| VirtioConsole.Create | vmm/vdev/virtio/virtio_console.c:48-92 | with four consoles already made nothing changes; otherwise a slot is used up, and when the device is created the new console has empty buffers and a console device with features F_SIZE and F_EMERG_WRITE, the 12-byte configuration and both callbacks |
| VirtioConsole.ConfigReadsBack | vmm/vdev/virtio/virtio_console.c:66-77 | the driver reads back 80 columns, 24 rows and one port through the device's configuration registers |
| UartRing.Reset | io/uart_pl011.c:166-170 | after initialisation the buffer is well formed and holds nothing; the stored bytes are not touched |
| UartRing.Put | io/uart_pl011.c:38-49 | the byte is accepted exactly when the buffer is not full; a refused byte leaves the buffer unchanged, an accepted one is appended after the bytes already held |
| UartRing.Get | io/uart_pl011.c:51-62 | a byte comes out exactly when the buffer is not empty; it is the oldest one, and the rest stay in order |
| UartRing.FifoOrder | io/uart_pl011.c:38-62 | bytes that all fit come back out by repeated gets in the order they were put, after the bytes already held |
| UartRing.DrainContents | io/uart_pl011.c:51-62 | getting until the buffer reports empty yields exactly the bytes held, oldest first |
| UartRing.TxDrain | io/uart_pl011.c:103-127 | the transmit interrupt sends min(FIFO room, bytes held) bytes, oldest first; the bytes sent followed by those left are the original contents; the transmit interrupt stays enabled exactly when bytes are left |
| UartRing.RxFill | io/uart_pl011.c:130-155 | the receive buffer gains the received bytes that fit in its free room, in order, the rest are dropped, and every received byte is forwarded to the virtual UARTs |
| UartRing.PutCharNb | io/uart_pl011.c:207-237 | an uninitialised driver refuses every byte and changes nothing; otherwise the byte goes straight to the FIFO exactly when the buffer is empty and the FIFO has room, and it is refused exactly when the buffer is full; only a buffered byte changes the buffer, by being appended |
| CString.StrLen | lib/string.c:12-18 | the length is the index of the first NUL: every byte before it is non-NUL |
| CString.Str | lib/string.c:12-18 | the string is the bytes before the first NUL, holds no NUL, and is followed by the NUL in the buffer |
| CString.CStr | lib/string.c:12-18 | a NUL-free string written with its terminator is a terminated buffer whose string is that string |
| CString.StrCmp | lib/string.c:48-55 | the result is a difference of two bytes, between -255 and 255 |
| CString.StrCmpOrder | lib/string.c:48-55 | strcmp is zero exactly when the strings are equal and negative exactly when the first is lexicographically smaller |
| CString.CmpFromOrder | lib/string.c:48-55 | from any common position the comparison is zero exactly on equal suffixes and negative exactly on a lexicographically smaller suffix |
| CString.StrNCmpPrefix | lib/string.c:39-45 | strncmp is zero exactly when the first n characters (or fewer, at a NUL) agree, and equals strcmp when n exceeds the first string's length |
| CString.NCmpFromZero | lib/string.c:39-45 | from a common position the bounded comparison is zero exactly when the bounded suffixes agree |
| CString.StrChr | lib/string.c:58-64 | a hit is the first occurrence of the byte (the NUL itself when the byte is 0); no hit exactly when the byte is non-NUL and absent from the string |
| CString.ChrFromSpec | lib/string.c:58-64 | the scan from i finds the first occurrence at or after i, and fails exactly when the byte is not in the rest of the string |
| CString.StrRChr | lib/string.c:203-220 | byte 0 finds the terminator; otherwise a hit is the last occurrence before the NUL, and no hit means the byte does not occur |
| CString.RChrFromSpec | lib/string.c:203-220 | the backwards-remembering scan ends with the last occurrence, given the last occurrence before i |
| CString.ChrAndRChr | lib/string.c:58-64 | for a non-NUL byte strchr and strrchr fail together, and the first occurrence is at or before the last |
| CString.StrStr | lib/string.c:67-81 | an empty needle is found at 0; a hit is the first position where the needle occurs; no hit means it occurs nowhere |
| CString.StrFromSpec | lib/string.c:67-81 | the search from position i returns the first occurrence, given none before i |
| CString.StrStrFinds | lib/string.c:67-81 | strstr succeeds exactly when the needle is a substring of the haystack |
| CString.StrNCpy | lib/string.c:186-201 | the first n bytes hold the source up to its NUL and NULs after it; bytes past n are unchanged |
| CString.StrNCpyCopies | lib/string.c:186-201 | when the source is shorter than n the destination holds the source string, terminated |
| CString.StrCat | lib/string.c:21-29 | when the result fits, the destination holds the concatenation, terminated, and the bytes after the new NUL are unchanged |
| CString.StrCpy | lib/string.c:32-36 | when the source fits, the destination holds the source string, terminated |
| CString.Moved | lib/string.c:119-132 | the window [dst, dst+n) holds the old bytes of [src, src+n) and every other byte is unchanged |
| CString.MemMove | lib/string.c:119-132 | memmove, copying backwards when the areas overlap with dst after src, leaves memory as if the source were copied first (Moved) |
| CString.MoveIsCopy | lib/string.c:94-132 | memmove's window is memcpy of the old source bytes, and the bytes outside it are untouched |
| CString.MemCpy | lib/string.c:94-102 | the first n bytes come from the source and the rest of the destination is unchanged |
| CString.MemSet | lib/string.c:84-91 | the first n bytes hold the value cut to a byte and the rest are unchanged |
| CString.MemCmp | lib/string.c:105-116 | zero exactly when the first n bytes agree; otherwise the difference of the bytes at the first mismatch |
| CString.MemCmpSpec | lib/string.c:105-116 | from an agreeing prefix of length i, the scan is zero exactly when the first n bytes agree, else the first mismatch's difference |
| CString.MemChr | lib/string.c:135-142 | a hit is the first of the first n bytes equal to the value cut to a byte; no hit means none of them is |
| CString.MemChrSpec | lib/string.c:135-142 | the scan from i finds the first occurrence, given none before i |
| CString.SkipBlanks | lib/string.c:145-170 | the index skipped to is the first non-blank at or after i and every byte in between is blank |
| CString.DigitsFromValue | lib/string.c:145-170 | the digit loop over a run of decimal digits ending at a non-digit adds the run's decimal value to the accumulator shifted by its length |
| CString.AtolReads | lib/string.c:145-170 | atol of blanks, an optional sign, digits and a non-digit tail is the signed decimal value of the digits, wrapped to int64 |
| CString.AtolAt | lib/string.c:145-170 | atol of any buffer whose non-blank part starts with a sign and digits is their signed decimal value wrapped to int64 |
| CString.FileNameAt | lib/string.c:173-183 | the file name starts after the last separator (or at 0): no separator follows it, and the byte before it is one |
| CString.BackFrom | lib/string.c:173-183 | the backward scan from s stops just after the nearest separator at or before s |
| CString.FileNameOfPath | lib/string.c:173-183 | the file name of "dir/sub/name" is "name" |
| Printf.AddChar | io/printf.c:37-45 | every character offered is counted, whether or not it is stored |
| Printf.AddAllKeeps | io/printf.c:37-45 | adding a run of characters stores as many as the remaining room allows (all of them when the room is already negative) and counts every one |
| Printf.DigitRoundTrip | io/printf.c:113-154 | the digit character of d reads back as d, for every digit below 16 |
| Printf.NumeralSnoc | io/printf.c:113-154 | appending a digit to a numeral multiplies its value by the base and adds the digit |
| Printf.DigitsSpell | io/printf.c:113-154 | the reversed digit loop spells n in the base: its value is n, it is empty only for 0, and it has no leading zero |
| Printf.PrintStrField | io/printf.c:47-75 | the field is as wide as the larger of the width and the string; a positive width pads on the left with the pad character, a negative one on the right with spaces |
| Printf.NoWidth | io/printf.c:47-75 | with no width the string is printed unchanged |
| Printf.IntTextReads | io/printf.c:77-111 | the text starts with '-' exactly for a negative number and the rest is the decimal numeral of its magnitude, without leading zero |
| Printf.NegativeText | io/printf.c:77-111 | a negative number prints as '-' followed by the digits of its magnitude |
| Printf.HexPrefix | io/printf.c:113-154 | with '#' a non-zero hex number gets "0x": before the zero padding when the pad is '0', after the padding otherwise, in a field as wide as the larger of width and text |
| Printf.DigitRun | io/printf.c:156-170 | the run counted from i is all digits and is followed by a non-digit (or the end) |
| Printf.FmtNum | io/printf.c:156-170 | the parse moves forward within the format and consumes at least one character when a digit or '-' starts the width |
| Printf.Conversion | io/printf.c:172-284 | a decoded directive ends within the format and, unless the format is exhausted, past its start |
| Printf.PlainCopied | io/printf.c:172-284 | a stretch without '%' is copied to the output unchanged ahead of what follows it |
| Printf.VsnprintfAsWritten | io/printf.c:172-284 | the walk as written, with size 0 giving room -1, fails exactly when the format does |
| Printf.Vsnprintf | io/printf.c:172-284 | my_vsnprintf with the size-0 case storing nothing fails exactly when the format does |
| Printf.VsnprintfTruncates | io/printf.c:172-284 | the return value is the full text length; a positive size stores the first size-1 characters and a NUL, never more than size bytes; size 0 stores nothing |
| Printf.PositiveSizeAgrees | io/printf.c:172-284 | for every positive size the as-written walk and the corrected one agree |
| Printf.ZeroSizeOverruns | io/printf.c:172-284 | with size 0 the as-written walk stores the whole text and a NUL, one byte more than the text, while the corrected one stores nothing |
| Printf.BinDigitTest | io/printf.c:373-396 | the digit for bit b is '1' exactly when masking with 1 << b is non-zero |
| Printf.BinDigitsAt | io/printf.c:373-396 | digit 4h+d of the 32 digits is bit 31-4h-d of the value, most significant first |
| Printf.BinStr | io/printf.c:373-396 | the text fills the BINSTR_SZ buffer exactly |
| Printf.BinFromGrouped | io/printf.c:373-396 | from the start of group h the loop produces groups of four digits separated by quotes and ending in the NUL |
| Printf.BinStrAt | io/printf.c:373-396 | cell 5h+d of binstr holds bit 31-4h-d for d < 4, and a quote after each group but the last, which is followed by the NUL |
| Printf.OnlyDirective | io/printf.c:172-284 | a format that is a single directive prints exactly that directive's text |
| Printf.SurroundedDirective | io/printf.c:172-284 | a format with one directive prints the text before it, the directive's text and the text after it |
| Printf.ZeroPrints | io/printf.c:77-111 | "%d" of 0 prints "0" |
| Printf.NegativePrints | io/printf.c:172-284 | "%d" of the 64-bit pattern of -12345 prints "-12345" |
| Printf.AlternateHexPrints | io/printf.c:113-154 | "%#x" of 0x1a2b prints "0x1a2b" |
| Printf.PercentPrints | io/printf.c:172-284 | "%%" prints one '%' |
| Printf.ZeroPadHexPrints | io/printf.c:156-170 | "%08x" of 0x123 prints "00000123" |
| Printf.LeftJustifyPrints | io/printf.c:47-75 | "|%-10s|" of "abc" left-justifies it in ten cells |
| PosixPath.Join | scripts/check_deps.py:35 | os.path.join keeps an absolute second argument as it is, and never shortens it |
| PosixPath.ComponentsArePieces | scripts/check_deps.py:36 | splitting a path gives non-empty components none of which holds a slash |
| PosixPath.ComponentsAcrossSlash | scripts/check_deps.py:36 | the components of a + "/" + b are those of a followed by those of b |
| PosixPath.ResolveAppend | scripts/check_deps.py:36 | normalising a + b is normalising b after normalising a |
| PosixPath.ResolveNoParent | scripts/check_deps.py:36 | without "..", normalisation only drops the "." components, and what is left is plain |
| PosixPath.RelFromExtension | scripts/check_deps.py:36 | relpath of a place below the start is the joined extra components, "." when there are none |
| PosixPath.RelPathNonEmpty | scripts/check_deps.py:36 | relpath never returns the empty path |
| PosixPath.RelPathOfPlain | scripts/check_deps.py:36 | relpath of a relative path without ".." is the path with its "." components and extra slashes removed |
| PosixPath.AbsPartsDotSlash | scripts/check_deps.py:36 | "./q" names the same place as q |
| PosixPath.RelPathSamePlace | scripts/check_deps.py:36 | two paths naming the same place get the same relpath |
| PosixPath.RelPathDotWalk | scripts/check_deps.py:28-36 | a file under os.walk's "./d" root is recorded as the same path as under "d" |
| PosixPath.RelPathOfDirFile | scripts/check_deps.py:35-36 | a plain directory name and a plain file name give "d/n" |
| CheckDeps.Assign | scripts/check_deps.py:41-46 | files[name] = path replaces the path of a known name in place and appends a new name at the end of the insertion order |
| CheckDeps.Recorder | scripts/check_deps.py:35-36 | the recorder is defined on every file discovery keeps |
| CheckDeps.FindSourceFiles | scripts/check_deps.py:22-46 | the discovered index keeps insertion order and map in step, with no name twice |
| CheckDeps.DiscoveryRecordsKeptNames | scripts/check_deps.py:22-46 | a name is discovered exactly when some walked file of that name passes the extension, pruned-directory, guest and app filters |
| CheckDeps.DiscoveryLastWriterWins | scripts/check_deps.py:41-46 | the path recorded for a name is relpath(join(root, name)) of the last kept file with that name |
| CheckDeps.AppSyscallStubExcluded | scripts/check_deps.py:42-44 | when every syscall.S lies under an app directory outside guest, syscall.S is never discovered |
| CheckDeps.GuestOnlyAllowListed | scripts/check_deps.py:38-41 | a name found only under guest directories is discovered only if it is one of the three allow-listed files |
| CheckDeps.RecordedUnderDir | scripts/check_deps.py:35-36 | a file n in directory d is recorded as "d/n", whether the walk root is "d" or "./d" |
| CheckDeps.TrimLeft | scripts/check_deps.py:54 | the left strip is a suffix of the line that starts with a non-whitespace character |
| CheckDeps.TrimRight | scripts/check_deps.py:54 | the right strip is a prefix of the line that ends with a non-whitespace character |
| CheckDeps.StripInside | scripts/check_deps.py:54 | stripping only removes characters |
| CheckDeps.ParseIncludeLine | scripts/check_deps.py:54-58 | a line yields a target only when, stripped, it starts with #include |
| CheckDeps.ParseTarget | scripts/check_deps.py:56 | a target is non-empty, holds no '>' or '"', and sits between an opening '<' or '"' and a closing '>' or '"' |
| CheckDeps.ParseIncludeLineComplete | scripts/check_deps.py:54-58 | every line of indentation, #include, optional whitespace, delimiter, non-empty target, delimiter and anything after yields exactly that target |
| CheckDeps.ParseIncludes | scripts/check_deps.py:48-61 | the include set holds no duplicates, and an unreadable file gives none |
| CheckDeps.ParseIncludesExact | scripts/check_deps.py:48-61 | a name is in the include set exactly when some line of the file yields it |
| CheckDeps.FirstIncludeDir | scripts/check_deps.py:70-73 | the directory chosen holds the file and no earlier one does; none is chosen exactly when no directory holds it |
| CheckDeps.ResolveInclude | scripts/check_deps.py:63-67 | a discovered bare name resolves to its discovered path |
| CheckDeps.ResolveFromDirs | scripts/check_deps.py:63-79 | an undiscovered name resolves exactly when some include directory holds it, and then to relpath of the first such directory joined with it |
| CheckDeps.AddEdge | scripts/check_deps.py:93-94 | adding an edge adds exactly a -> b to the forward sets and a to b's reverse set, and a becomes a key |
| CheckDeps.AddEdgeValid | scripts/check_deps.py:93-94 | adding an edge between distinct files keeps the graph valid: distinct lists, exact transpose, no self-edges |
| CheckDeps.Analysis | scripts/check_deps.py:89-91 | the resolver the graph loop uses is resolve_include over the discovered files and include directories |
| CheckDeps.AddIncludesEdges | scripts/check_deps.py:90-94 | after one file's includes, b follows a exactly when it did before or a is that file and some include resolves to b other than the file |
| CheckDeps.BuildDependencyGraph | scripts/check_deps.py:81-94 | the graph is valid and only compiled files (.c, .S) have outgoing edges |
| CheckDeps.BuildFromEdges | scripts/check_deps.py:81-94 | b follows a exactly when a is a discovered compiled file one of whose includes resolves to b, b other than a |
| CheckDeps.SingleIncludeScenario | scripts/check_deps.py:81-94 | a source whose includes all resolve to one header gets exactly that edge, recorded in the reverse index |
| CheckDeps.EdgeRecorded | scripts/check_deps.py:93-94 | every forward edge is recorded in the reverse index |
| CheckDepsCycles.Dfs | scripts/check_deps.py:98-115 | a reported cycle is a simple closed walk of the graph; with no cycle the node is finished, the path is restored, and every finished node's includes finished before it |
| CheckDepsCycles.Explore | scripts/check_deps.py:103-115 | the neighbour loop from position k either reports a simple cycle or finishes the node and pops it from the path |
| CheckDepsCycles.Descend | scripts/check_deps.py:104-107 | recursing into an unvisited neighbour either reports a simple cycle or leaves the search state valid with the node still on the path |
| CheckDepsCycles.CycleAtIsSimple | scripts/check_deps.py:108-111 | path[index(neighbour):] + [neighbour] for a neighbour on the recursion stack is a simple cycle |
| CheckDepsCycles.DetectFrom | scripts/check_deps.py:117-125 | the outer loop either reports a simple cycle or leaves every key visited with an empty path |
| CheckDepsCycles.FindCircularDependencies | scripts/check_deps.py:96-125 | a reported cycle is a simple closed walk of the graph, and None is returned only when the graph is acyclic |
| CheckDepsCycles.NoCycleWhenAllFinished | scripts/check_deps.py:117-125 | when every node has finished with its includes before it, no cycle exists |
| CheckDepsOrder.InDegrees | scripts/check_deps.py:129-136 | every node gets an entry and each entry is the number of files that include it |
| CheckDepsOrder.SeenIncludersAll | scripts/check_deps.py:132-136 | the includers counted over all keys are exactly the reverse-index set |
| CheckDepsOrder.ZeroDegree | scripts/check_deps.py:139 | the initial queue holds exactly the files with in-degree 0, once each, in table order |
| CheckDepsOrder.Emit | scripts/check_deps.py:143-144 | emitting the queue's head keeps the sort's invariant: every emitted file's includers were emitted before it |
| CheckDepsOrder.Release | scripts/check_deps.py:146-149 | decrementing an include's in-degree, and queueing it at zero, keeps the sort's invariant |
| CheckDepsOrder.ReleaseIncludes | scripts/check_deps.py:146-149 | the release loop over a file's includes keeps the sort's invariant with nothing left pending |
| CheckDepsOrder.Drained | scripts/check_deps.py:142-151 | once the queue is empty a file is listed exactly when all its includers are listed |
| CheckDepsOrder.GetBuildOrder | scripts/check_deps.py:127-151 | the order lists no file twice, lists only graph files, lists every file after all its includers, and lists a file exactly when all its includers are listed |
| CheckDepsOrder.CycleNeverListed | scripts/check_deps.py:127-151 | no file on a cycle is ever listed |
| CheckDepsOrder.AcyclicListsAll | scripts/check_deps.py:127-151 | in an acyclic graph every file is listed |
| CheckDepsOrder.OrderCompleteIffNoCycle | scripts/check_deps.py:96-151 | the build order lists every file exactly when find_circular_dependencies finds no cycle |
| Fat32Boot.ClusterSizesArePowersOfTwo | include/fs/fat32_boot.h:210-216 | the n & (n - 1) test accepts exactly the powers of two from 1 to 128 |
| Fat32Boot.ValidateBootSector | fs/fat32_boot.c:58-112 | the sector is accepted exactly when the signature, sector size, power-of-two cluster size, one or two FATs, non-zero reserved sectors and FAT size, and root cluster of at least 2 all hold; otherwise Corrupted |
| Fat32Boot.TotalSectors | fs/fat32_boot.c:127-131 | the 32-bit total is used, and the 16-bit total only when the 32-bit one is zero |
| Fat32Boot.CalculateLayoutAsWritten | fs/fat32_boot.c:114-154 | failures are CORRUPTED; an accepted layout starts the FAT after the reserved sectors and has more than 65525 clusters, but its data start is only the true data start modulo 2^32, because the 32-bit arithmetic wraps |
| Fat32Boot.LayoutAcceptsFatPastEnd | fs/fat32_boot.c:124-140 | a valid boot sector whose FAT area ends past the volume is accepted, with the data start past the last sector |
| Fat32Boot.CalculateLayout | fs/fat32_boot.c:114-154 | the layout is accepted exactly when the FAT area fits the volume and more than 65525 clusters remain; the FAT starts after the reserved sectors and every cluster lies inside the volume |
| Fat32Boot.LayoutAgreesWhenConsistent | fs/fat32_boot.c:114-154 | when the FAT area fits the volume the as-written and corrected layouts agree |
| Fat32Boot.ClusterToSector | include/fs/fat32_boot.h:225-232 | clusters 0 and 1 map to sector 0 |
| Fat32Boot.SectorToCluster | include/fs/fat32_boot.h:241-248 | sectors before the data area map to cluster 0 |
| Fat32Boot.ClusterSectorRoundTrip | include/fs/fat32_boot.h:225-248 | every sector of a data cluster maps back to that cluster |
| Fat32Boot.ClusterInsideVolume | include/fs/fat32_boot.h:225-248 | with an accepted layout every sector of every cluster lies inside the volume and maps back to its cluster |
| Fat32Boot.ValidateFsInfo | fs/fat32_boot.c:226-247 | FSInfo is accepted exactly when its three signatures are right; otherwise Corrupted |
| Fat32Boot.ReadFsInfo | fs/fat32_boot.c:156-198 | no FSInfo sector gives NotFound; otherwise it succeeds exactly when FSInfo is valid, keeps the free count, and keeps the next-free hint only when it is at least 2 and not 0xFFFFFFFF (2 otherwise) |
| Fat32Boot.MountHints | fs/fat32_boot.c:43-50 | the hint is always at least 2, and an unreadable FSInfo gives an unknown count and hint 2 |
| Fat32Boot.WriteFsInfo | fs/fat32_boot.c:200-224 | no FSInfo sector gives NotFound; otherwise the signatures are kept |
| Fat32Boot.FsInfoRoundTrip | fs/fat32_boot.c:156-224 | reading back what write_fsinfo stored gives the written count and hint |
| Fat32Utils.Collapse | fs/fat32_utils.c:33-48 | the copy never grows the path, keeps a non-empty path non-empty and turns every backslash into a slash |
| Fat32Utils.NormalizePath | fs/fat32_utils.c:18-67 | an empty path or one of max_len characters or more is rejected with InvalidParam; a result is shorter than max_len |
| Fat32Utils.NormalizeShape | fs/fat32_utils.c:18-67 | a normalised path starts with '/', has no backslash, no double slash and no trailing slash unless it is the root |
| Fat32Utils.NormalizeFixedPoint | fs/fat32_utils.c:18-67 | a path already of that shape normalises to itself |
| Fat32Utils.NormalizeIdempotent | fs/fat32_utils.c:18-67 | normalising twice is normalising once |
| Fat32Utils.CollapseKeepsWords | fs/fat32_utils.c:33-48 | collapsing keeps every non-separator character, in order |
| Fat32Utils.LastSeparator | fs/fat32_utils.c:84-91 | the index found is the last separator, or -1 when there is none |
| Fat32Utils.Split | fs/fat32_utils.c:69-117 | an empty path is rejected; the directory part fits its buffer (or is "/"), the file part fits its buffer and holds no separator |
| Fat32Utils.SplitNoSeparator | fs/fat32_utils.c:69-117 | a bare name is a file in "/" |
| Fat32Utils.SplitRootChild | fs/fat32_utils.c:69-117 | "/name" is the file name in "/" |
| Fat32Utils.Join | fs/fat32_utils.c:119-148 | joining fails exactly when the parts and two extra bytes exceed max_len; the result starts with the directory, ends with the name and has a slash between them only when the directory does not end in a separator |
| Fat32Utils.SplitJoinRoundTrip | fs/fat32_utils.c:69-148 | joining the two parts of a split path gives the path back |
| Fat32Utils.DateTimeToFat | fs/fat32_utils.c:212-239 | packing succeeds exactly for a date from 1980 to 2107 and a valid time of day |
| Fat32Utils.FatToDateTime | fs/fat32_utils.c:186-210 | unpacking reports Ok exactly when the fields form a valid date and time; seconds are always even |
| Fat32Utils.DateTimeRoundTrip | fs/fat32_utils.c:186-239 | unpacking a packed valid date and time with even seconds gives it back |
| Fat32Utils.FatStampRoundTrip | fs/fat32_utils.c:186-239 | packing an unpacked valid stamp gives the stamp back |
| Fat32Utils.ChecksumStepRotates | fs/fat32_utils.c:289-299 | one step of the checksum rotates the sum right by one bit and adds the byte, in 8 bits |
| Fat32Utils.CalculateChecksum | fs/fat32_utils.c:289-299 | the loop computes the rotate-and-add checksum of the eleven name bytes |
| Fat32Utils.VerifyChecksum | fs/fat32_utils.c:301-306 | the check succeeds exactly when the stored byte is the name's checksum |
| Fat32Utils.ChecksumSeesLastByte | fs/fat32_utils.c:289-299 | two names differing only in the last byte have different checksums |
| Fat32Dir.GetFirstCluster | include/fs/fat32_dir.h:346-350 | the cluster's low 16 bits are the low half and its high 16 bits the high half |
| Fat32Dir.SetFirstCluster | include/fs/fat32_dir.h:358-363 | setting the cluster leaves name, attributes and size as they were |
| Fat32Dir.FirstClusterRoundTrip | include/fs/fat32_dir.h:346-363 | reading back a cluster that was set gives that cluster |
| Fat32Dir.SetFirstClusterIdempotent | include/fs/fat32_dir.h:346-363 | setting the cluster an entry already has changes nothing |
| Fat32Dir.MarkDeleted | fs/fat32_dir.c:274-294 | a deleted entry is marked deleted (not free), keeps the rest of its name and every other field |
| Fat32Dir.ShortChar | fs/fat32_dir.c:406-465 | every character becomes a short-name character: letters upper-cased, allowed characters kept |
| Fat32Dir.SplitName | fs/fat32_dir.c:406-465 | the base takes at most 8 characters before the last dot and the extension at most 3 after it, both inside the name |
| Fat32Dir.ToShortName | fs/fat32_dir.c:406-465 | the short name has 11 cells of short-name characters or blanks; an empty name or one longer than 255 is rejected with an all-blank name |
| Fat32Dir.ToShortNameBase | fs/fat32_dir.c:406-465 | cell i of the base is the converted i-th character of the name, or blank past the base |
| Fat32Dir.ToShortNameExt | fs/fat32_dir.c:406-465 | cell 8+i is the converted i-th character after the last dot, or blank past the extension |
| Fat32Dir.LeadingDotIsNotExtension | fs/fat32_dir.c:406-465 | ".ab" has no extension: the dot at position 0 becomes '_' in the base "_AB" |
| Fat32Dir.TakeUntilSpace | fs/fat32_dir.c:467-512 | the copy stops at the first blank |
| Fat32Dir.FromShortName | fs/fat32_dir.c:467-512 | a buffer under 13 bytes is rejected with InvalidParam; a result has at most 12 characters and fits the buffer |
| Fat32Dir.ShortNameWithDot | fs/fat32_dir.c:406-465 | a canonical "base.ext" converts to the base padded to 8 and the extension padded to 3 |
| Fat32Dir.FromPadded | fs/fat32_dir.c:467-512 | a padded base and extension read back as "base.ext", or "base" when the extension is blank |
| Fat32Dir.ShortNameRoundTrip | fs/fat32_dir.c:406-512 | a canonical 8.3 name converts to a short name and back to itself |
| Fat32Dir.CompareShortNames | fs/fat32_dir.c:514-520 | the result is zero exactly when the names are equal, otherwise the difference at the first mismatch |
| Fat32Dir.CompareAntisymmetric | fs/fat32_dir.c:514-520 | swapping the names negates the result |
| Fat32Dir.ValidNameConverts | fs/fat32_dir.c:406-543 | every valid file name converts to a short name without error |
| Fat32Dir.SeparatorInvalid | fs/fat32_dir.c:522-543 | a name holding a slash, a backslash or a control character is invalid |
| Fat32Fat.ClassesDisjoint | include/fs/fat32_fat.h:253-294 | an entry is at most one of free, bad and end of chain, and a valid cluster number is none of them |
| Fat32Fat.EntryOffset | include/fs/fat32_fat.h:302-306 | the offset of an entry is a multiple of 4 within the sector |
| Fat32Fat.EntryAddress | include/fs/fat32_fat.h:302-319 | sector and offset together address byte 4c of the FAT |
| Fat32Fat.EntriesPerSector | include/fs/fat32_fat.h:302-319 | consecutive clusters share a sector except every 128th, which starts the next one |
| Fat32Fat.ReadEntry | fs/fat32_fat.c:18-46 | reading fails with InvalidParam exactly for an invalid cluster, and returns a 28-bit value |
| Fat32Fat.Merge | fs/fat32_fat.c:48-88 | the new entry takes its low 28 bits from the value and keeps the old top 4 bits |
| Fat32Fat.WriteEntry | fs/fat32_fat.c:48-88 | writing changes only that cluster's entry, merged with its reserved top bits; hints and counts are unchanged |
| Fat32Fat.WriteReadBack | fs/fat32_fat.c:18-88 | reading back a written 28-bit value gives that value |
| Fat32Fat.ScanPosition | fs/fat32_fat.c:94-146 | step k of the circular scan is start+k, wrapped back to cluster 2 past the last cluster |
| Fat32Fat.ScanCovers | fs/fat32_fat.c:94-146 | the circular scan visits every valid cluster within total_clusters steps |
| Fat32Fat.CountDown | fs/fat32_fat.c:128-131 | an unknown free count stays unknown, a known positive one drops by one |
| Fat32Fat.Allocated | fs/fat32_fat.c:116-140 | allocating marks the cluster end of chain, changes no other entry, lowers a known free count and moves the hint just past it, wrapping to 2 |
| Fat32Fat.AllocateCluster | fs/fat32_fat.c:94-146 | a hint outside the data area gives InvalidParam; NoSpace only when no cluster is free; success returns the first free cluster of the scan from the hint, allocated |
| Fat32Fat.FreeCluster | fs/fat32_fat.c:148-176 | freeing fails exactly for an invalid cluster; it marks the cluster free, changes no other entry, raises a known free count and lowers the hint to the cluster when it is smaller |
| Fat32Fat.AllocateThenFree | fs/fat32_fat.c:94-176 | freeing a just-allocated cluster restores the entries and the free count |
| Fat32Fat.NextCluster | fs/fat32_fat.c:265-297 | an invalid cluster gives InvalidParam; end of chain gives 0; otherwise the next valid cluster, and a link outside the data area is Corrupted |
| Fat32Fat.ChainLength | fs/fat32_fat.c:329-368 | an invalid first cluster gives InvalidParam and a chain longer than the volume Corrupted; a length is between 1 and total_clusters + 1 |
| Fat32Fat.ClusterAtIndex | fs/fat32_fat.c:370-413 | an invalid first cluster gives InvalidParam and index 0 is the first cluster |
| Fat32Fat.AtIndexWalks | fs/fat32_fat.c:370-413 | the cluster found at an index is the one reached by following that many links |
| Fat32Fat.ChainLengthIndex | fs/fat32_fat.c:329-413 | an index is found exactly when it is below the chain length, and past it the result is EndOfFile |
| Fat32Fat.LinkedChainLength | fs/fat32_fat.c:329-368 | a linked chain of distinct clusters has its own length |
| Fat32Fat.ExtendChain | fs/fat32_fat.c:299-327 | an invalid last cluster gives InvalidParam and failure changes nothing; success links a previously free cluster after the last one and ends the chain there |
| Fat32Fat.FreeChain | fs/fat32_fat.c:225-259 | an invalid first cluster gives InvalidParam; every entry either keeps its value or is freed, and a linked chain of distinct clusters is freed exactly |
| Fat32Fat.AllocateChain | fs/fat32_fat.c:178-223 | success links count previously free clusters into a chain of that length and changes no other entry; failure leaves the entries as they were |
| Fat32Fat.RestoredAfterFree | fs/fat32_fat.c:178-259 | freeing exactly the chain allocate_cluster_chain built restores the FAT entries |
| Fat32File.Initialized | fs/fat32_file.c:69-85 | the first use zeroes every handle and marks the pool set up; later uses change nothing |
| Fat32File.FirstUnused | fs/fat32_file.c:87-109 | the index found is the first handle not in use, or -1 when all are in use |
| Fat32File.HandleAlloc | fs/fat32_file.c:87-109 | TooManyOpenFiles exactly when every handle is in use, changing nothing; otherwise the first unused handle is opened and nothing else changes |
| Fat32File.HandleFree | fs/fat32_file.c:111-123 | freeing a handle not in use is InvalidParam and changes nothing; otherwise that handle is zeroed |
| Fat32File.AllocCounts | fs/fat32_file.c:87-109 | allocation fails exactly when all handles are open, and success opens one more |
| Fat32File.FreeCounts | fs/fat32_file.c:111-123 | a successful free closes exactly one handle, a failed one none |
| Fat32File.CleanKept | fs/fat32_file.c:69-123 | alloc and free keep every unused handle zeroed |
| Fat32File.AllocThenFree | fs/fat32_file.c:87-123 | freeing the handle just allocated restores the pool |
| Fat32File.Tell | fs/fat32_file.c:302-311 | tell is the position of an open handle and 0 for a closed one |
| Fat32File.MoveToMoves | fs/fat32_file.c:468-487 | the new position is the target clamped to the file size, the walk restarts at the first cluster and the offset is the position within a cluster |
| Fat32File.SeekAsWritten | fs/fat32_file.c:426-488 | seek with the target in wrapping uint32 arithmetic succeeds exactly for an open handle, a known whence and a non-negative target |
| Fat32File.Seek | fs/fat32_file.c:426-488 | seek succeeds exactly for an open handle, a known whence and a non-negative target, moves to the target clamped to the file size, and otherwise fails with InvalidParam |
| Fat32File.SeekNowhere | fs/fat32_file.c:426-488 | seeking by 0 from the current position stays put |
| Fat32File.SeekToEnd | fs/fat32_file.c:426-488 | seeking by 0 from the end moves to the file size |
| Fat32File.SeekComposes | fs/fat32_file.c:426-488 | SET to a then CUR by b is SET to a + b |
| Fat32File.SeekAgreesWithoutWrap | fs/fat32_file.c:426-488 | when the target fits 32 bits the as-written and corrected seeks agree |
| Fat32File.SeekCurWrapsBackward | fs/fat32_file.c:444-458 | from position 0xF0000000 a forward CUR seek of 0x20000000 lands at 0x10000000 as written, backwards, instead of at the end |
| Fat32File.SplitShape | fs/fat32_file.c:494-532 | the split gives a bare name in the root, "/name" in the root, or "dir/name", and the name holds no slash |
| Fat32File.ParsePathAsWritten | fs/fat32_file.c:494-532 | parse_path as written rejects empty and over-long paths, and returns a non-empty name with no slash from one of the three shapes |
| Fat32File.ParsePath | fs/fat32_file.c:494-532 | as above, and the name with its NUL fits the 255-byte name buffer; otherwise InvalidName |
| Fat32File.ParseJoined | fs/fat32_file.c:494-532 | "dir/name" parses to that directory and name |
| Fat32File.LongNameOverflowsBuffer | fs/fat32_file.c:520-530 | a 255-character name is accepted as written although it and its NUL overflow the 255-byte buffer; the corrected parse rejects it |
| Fat32File.CeilDivBounds | fs/fat32_file.c:1049-1054 | the rounded-up quotient covers the dividend, and one less does not |
| Fat32File.ExtendPlan | fs/fat32_file.c:1033-1094 | nothing to do when the size already covers the request; a new chain only for a file without clusters; after growth the clusters cover the request and one fewer would not |
| Fat32File.ExtendNoopAtSize | fs/fat32_file.c:1042-1044 | asking for the current size changes nothing |
| Fat32File.ExtendAgreesWithoutWrap | fs/fat32_file.c:1033-1094 | when the rounding sums fit 32 bits the as-written and corrected plans agree |
| Fat32File.ExtendWrapsNearFourGiB | fs/fat32_file.c:1052-1058 | for a request of 0xFFFFF001 bytes with 4 KiB clusters the as-written plan adds nothing, while 0x100000 clusters are needed |
| Fat32Cache.Init | fs/fat32_cache.c:45-78 | the first init frees every block and zeroes the counter, keeping the cache coherent; a second init changes nothing |
| Fat32Cache.FindBlock | fs/fat32_cache.c:351-363 | the block found is the first in use holding the cluster; none means no block in use holds it |
| Fat32Cache.FirstFree | fs/fat32_cache.c:366-403 | the block found is the first free one; none means every block is taken |
| Fat32Cache.Oldest | fs/fat32_cache.c:366-403 | the victim has the smallest access time, and the first such block is chosen |
| Fat32Cache.AllocBlock | fs/fat32_cache.c:366-403 | the first free block is used when there is one; otherwise the least recently used block is freed and reused |
| Fat32Cache.AllocKeepsCoherent | fs/fat32_cache.c:366-403 | allocation keeps a block in use exactly when it is not free, and no cluster in two blocks |
| Fat32Cache.EvictionDropsDirtyBlock | fs/fat32_cache.c:383-400 | evicting the least recently used dirty block drops its data without writing it back: the cluster is no longer cached |
| Fat32Cache.ReadCluster | fs/fat32_cache.c:112-157 | an uninitialised cache gives DiskError; a hit returns the cached data; a miss succeeds exactly when the disk holds the cluster and returns its data; the block read is stamped with the new access time |
| Fat32Cache.WriteCluster | fs/fat32_cache.c:160-204 | the write succeeds exactly when the cache is set up, and leaves a dirty block with the cluster, the data and the new access time |
| Fat32Cache.ReadWriteKeepCoherent | fs/fat32_cache.c:112-204 | reads and writes keep the cache coherent |
| Fat32Cache.ReadAfterWrite | fs/fat32_cache.c:112-204 | reading a cluster just written returns the written data |
| Fat32Cache.Flush | fs/fat32_cache.c:207-238 | every dirty block whose cluster the disk holds is written back and becomes clean, other clusters on disk are unchanged, and the status is Ok exactly when every write could be done |
| Fat32Cache.FlushCluster | fs/fat32_cache.c:241-264 | flushing a dirty cached cluster writes its data and cleans it; DiskError exactly when the disk cannot hold it, changing nothing |
| Fat32Cache.Invalidate | fs/fat32_cache.c:267-283 | the block holding the cluster is freed and every other block is unchanged |
| Fat32Cache.InvalidateForgets | fs/fat32_cache.c:267-283 | after invalidation the cluster is no longer cached and the cache stays coherent |
| Fat32Cache.GetStats | fs/fat32_cache.c:286-322 | an uninitialised cache gives DiskError; the counts are the blocks in use and the dirty blocks in use, at most the cache size |
| Fat32Cache.FlushCleansAll | fs/fat32_cache.c:207-238 | after a flush that could write every dirty block, none is dirty |
| Fat32Disk.Init | fs/fat32_disk.c:53-113 | memory mode gives a zeroed 64 MiB disk of 131072 sectors with all counters at zero |
| Fat32Disk.Check | fs/fat32_disk.c:134-178 | an uninitialised disk is DiskError; the range is accepted exactly when it ends inside the disk, otherwise InvalidParam |
| Fat32Disk.CheckAcceptsWrappedRange | fs/fat32_disk.c:144-148 | sector 0xFFFFFFFF with count 1 passes the as-written check, past the end of the disk |
| Fat32Disk.CheckAgreesWithoutWrap | fs/fat32_disk.c:134-178 | when sector + count fits 32 bits the as-written and corrected checks agree |
| Fat32Disk.ReadSectors | fs/fat32_disk.c:134-178 | a refused range counts an error; otherwise the bytes of the sectors are returned and a read is counted |
| Fat32Disk.WriteSectors | fs/fat32_disk.c:181-225 | a refused range counts an error; otherwise the buffer lands at the sectors, every other byte is unchanged and a write is counted |
| Fat32Disk.ReadBackWritten | fs/fat32_disk.c:134-225 | reading back written sectors gives the written buffer |
| Fat32Disk.ValidSectorReads | fs/fat32_disk.c:329-334 | a one-sector read succeeds exactly for a valid sector |
| Fat32Context.ErrorToErrno | fs/fat32.c:299-320 | each error maps to its errno (NotFound -2, AccessDenied -13, AlreadyExists -17, InvalidParam and InvalidName -22, TooManyOpenFiles -24, NoSpace -28), anything else to -1 |
| Fat32Context.ErrnoSeparates | fs/fat32.c:299-320 | two different errors share an errno only when it is -1 or they are InvalidParam and InvalidName |
| Fat32Context.ErrorString | fs/fat32.c:322-358 | each of the fifteen codes has its message and any other code the unknown-error message |
| Fat32Context.MessagesDistinct | fs/fat32.c:322-358 | the messages are pairwise distinct and distinct from the unknown-error message |
| Fat32Context.Init | fs/fat32.c:23-63 | a set-up context stays as it is; otherwise a successful set-up leaves it set up and unmounted, and a failed one returns the failure unmounted |
| Fat32Context.Mount | fs/fat32.c:97-120 | mounting before set-up gives NotMounted; afterwards it succeeds exactly when already mounted or the boot sector reads, and failure changes nothing |
| Fat32Context.Unmount | fs/fat32.c:122-149 | unmounting always succeeds and leaves nothing mounted |
| Fat32Context.Cleanup | fs/fat32.c:151-171 | cleanup leaves the context neither set up nor mounted |
| Fat32Context.StepsKeepConsistent | fs/fat32.c:23-171 | no step mounts a context that is not set up |
| Fat32Context.MountUnmountMount | fs/fat32.c:97-149 | mount, unmount, mount again ends mounted |
| Fat32File.ParseBareName | fs/fat32_file.c:494-532 | a name without a slash that fits the buffer lies in the root directory |
| Fat32File.ParseRootChild | fs/fat32_file.c:510-517 | a name after a leading slash lies in the root directory |
| Fat32File.GrowthCovers | fs/fat32_file.c:1046-1094 | whatever the growth, the clusters afterwards cover the request, an append adds at least one cluster, and a change never allocates a spare cluster |
| Fat32File.CeilDiv32Agrees | fs/fat32_file.c:1049-1054 | where the rounding sum fits 32 bits the uint32 division equals the exact rounded-up quotient |
| Fat32Cache.FindUnique | fs/fat32_cache.c:351-363 | in a coherent cache the lookup finds the one block in use holding the cluster |
| FileHeaders.BaseName | scripts/add_file_headers.py:149 | the base name holds no slash, ends the path, and is preceded by a slash when shorter than it |
| FileHeaders.Suffix | scripts/add_file_headers.py:150 | the suffix is empty or a dot followed by dot-free text that ends the name and is shorter than it |
| FileHeaders.Lower | scripts/add_file_headers.py:150 | lower-casing keeps the length and lowers each ASCII capital |
| FileHeaders.NoticeLine | scripts/add_file_headers.py:46-61 | the first comment line carries "Copyright (c) 2024 Avatar Project" right after the mark |
| FileHeaders.Body | scripts/add_file_headers.py:46-129 | every template's comment block carries the notice at a fixed offset |
| FileHeaders.Block | scripts/add_file_headers.py:46-129 | a block opened by any opening and mark carries the notice after them |
| FileHeaders.Header | scripts/add_file_headers.py:46-129 | a header is the script lead (shebang for shell and Python) then the block with the given brief or the default one |
| FileHeaders.HeaderFor | scripts/add_file_headers.py:147-170 | a header exists exactly when the base name or the lower-cased suffix has a template, and is that template's header for the base name |
| FileHeaders.NoticeSeen | scripts/add_file_headers.py:143-145 | a notice ending within the first 1000 characters makes the content count as headed |
| FileHeaders.FirstLineEnd | scripts/add_file_headers.py:197-199 | the split point is the first newline |
| FileHeaders.InsertionOnly | scripts/add_file_headers.py:195-210 | adding a header only inserts text, a tail of the header, at one point: removing it gives back the content |
| FileHeaders.Process | scripts/add_file_headers.py:172-221 | binary exactly for unreadable content; has_header exactly for headed content without force; no_template exactly when otherwise no template applies; would_add only in a dry run; added only otherwise, with the new text |
| FileHeaders.HeaderedFileUnchanged | scripts/add_file_headers.py:182-186 | a headed file is reported and left exactly as it was unless forced |
| FileHeaders.ForceAddsAgain | scripts/add_file_headers.py:172-221 | with force a headed file with a template gets a header again |
| FileHeaders.DirectoryIgnored | scripts/add_file_headers.py:147-156 | the template depends only on the base name, not the directory |
| FileHeaders.SameBaseName | scripts/add_file_headers.py:147-156 | two paths with one base name get the same template |
| FileHeaders.ByName | scripts/add_file_headers.py:152-153 | a base name that is itself a key picks that key's template |
| FileHeaders.MakefileKeys | scripts/add_file_headers.py:42-43 | both spellings of Makefile pick the Makefile template |
| FileHeaders.ByExtension | scripts/add_file_headers.py:150-155 | a name that is not a key picks the template of its lower-cased extension |
| FileHeaders.UnknownHasNone | scripts/add_file_headers.py:147-170 | a name without a dot that is not a Makefile has no template |
| FileHeaders.PyIsPython | scripts/add_file_headers.py:39 | every .py path gets the Python template |
| FileHeaders.ShIsShell | scripts/add_file_headers.py:36 | every .sh path gets the shell template |
| FileHeaders.AsmIsAsm | scripts/add_file_headers.py:33 | every .asm path gets the assembly template |
| FileHeaders.ByExtensionKey | scripts/add_file_headers.py:147-156 | a path ending in an extension no longer key ends in gets the extension's template, lower-cased unless the base name is the extension alone |
| FileHeaders.KeptText | scripts/add_file_headers.py:195-204 | a script with a shebang keeps its first line and gets the header body after it |
| FileHeaders.PlainText | scripts/add_file_headers.py:195-210 | any other file gets the whole header in front |
| FileHeaders.ShebangStaysFirst | scripts/add_file_headers.py:197-204 | the original shebang line stays first and the notice block follows it |
| FileHeaders.HeaderFirstOtherwise | scripts/add_file_headers.py:205-210 | without a kept shebang the new text is the header followed by the unchanged content |
| FileHeaders.AddThenFound | scripts/add_file_headers.py:143-221 | a file just given a header is found headed on the next run |
| FileHeaders.FoundAfterKept | scripts/add_file_headers.py:143-204 | the notice inserted after a kept shebang line of at most 962 characters lies within the first 1000 |
| FileHeaders.FoundAfterPlain | scripts/add_file_headers.py:143-210 | the notice put in front lies within the first 1000 characters |
| FileHeaders.KeepDirs | scripts/add_file_headers.py:240-270 | the walk keeps exactly the subdirectories not in build, .git, __pycache__, clib and guest |
| FileHeaders.Unstar | scripts/add_file_headers.py:281-282 | removing '*' leaves no star and never lengthens the pattern |
| FileHeaders.ExcludedAsWritten | scripts/add_file_headers.py:280-283 | a file is excluded exactly when some pattern without stars ends its path or occurs in it |
| FileHeaders.AsmSourceExcluded | scripts/add_file_headers.py:245-283 | a .asm file has the assembly template but is excluded, because ".a" occurs in its path |
| FileHeaders.Excluded | scripts/add_file_headers.py:280-283 | a file is excluded exactly when some pattern without stars ends its path |
| FileHeaders.ExcludedHasNoTemplate | scripts/add_file_headers.py:22-43 | an excluded file has no template, so the corrected exclusion drops nothing that could get a header |
| FileHeaders.NoTemplateFor | scripts/add_file_headers.py:22-43 | a path ending in a default excluded extension has no template |
| FileHeaders.TallyTotal | scripts/add_file_headers.py:250-307 | every file examined is counted exactly once, so the total printed is the number of files |
| FileHeaders.KeptSplice | scripts/add_file_headers.py:197-204 | keeping the shebang splices the header, cut after its own first line, in after the first line of the content |
| FileHeaders.UnstarDefaults | scripts/add_file_headers.py:245-248 | the default patterns without their stars are the nine excluded extensions |
| MemBitmap.MaskBits | mem/bitmap.c:26-58 | or-ing in a bit's mask sets that bit and no other; and-ing with its complement clears that bit and no other |
| MemBitmap.Init | mem/bitmap.c:11-18 | every page reads free, the size is recorded, and buffer bytes past (size + 7) / 8 are untouched |
| MemBitmap.Set | mem/bitmap.c:22-30 | setting a clear bit inside the bitmap marks exactly that page used and keeps every other page |
| MemBitmap.Clear | mem/bitmap.c:48-59 | clearing marks exactly that page free and keeps every other page, whether or not it was used |
| MemBitmap.SetEach | mem/bitmap.c:40-43 | the loop of bitmap_set calls marks exactly the pages of the run used, adding them to those already used |
| MemBitmap.ClearEach | mem/bitmap.c:69-72 | the loop of bitmap_clear calls marks exactly the pages of the run free |
| MemBitmap.SetRange | mem/bitmap.c:34-44 | a range past the end changes nothing; otherwise exactly the pages of the range become used |
| MemBitmap.ClearRange | mem/bitmap.c:63-73 | a range past the end changes nothing; otherwise exactly the pages of the range become free |
| MemBitmap.SetThenClear | mem/bitmap.c:34-73 | clearing a range just set restores every page |
| MemBitmap.FindFirstFree | mem/bitmap.c:85-93 | -1 exactly when every page is used; otherwise the lowest free page |
| MemBitmap.FirstRunFrom | mem/bitmap.c:98-109 | a start found in the window begins a free run and no earlier start in the window does; none means no start in the window does |
| MemBitmap.FindRun | mem/bitmap.c:96-110 | the run found lies inside the bitmap, is free and is the lowest such; none means no free run of that length fits |
| MemBitmap.ContiguousFreeOverrunsEnd | mem/bitmap.c:98 | in an empty eight-page bitmap a request for nine pages returns 0 as written, while no such run fits |
| MemBitmap.FindAgreesWhenFits | mem/bitmap.c:96-110 | when the request is no larger than the bitmap the as-written search finds the lowest free run |
| MemBitmap.FindContiguousFree | mem/bitmap.c:96-110 | the loops return the lowest free run that fits in the bitmap, or -1 |
| MemBitmap.FirstRunIs | mem/bitmap.c:98-109 | a free run with no free run before it in the window is the one found |
| KAllocator.Init | mem/kallocator.c:41-76 | a second init returns 0 and changes nothing; otherwise the state is zeroed, and it succeeds exactly when the page-table page is obtained, giving a capacity of as many records as fit one page |
| KAllocator.FindPageFrom | mem/kallocator.c:635-650 | the page found from an index covers the address and none between the index and it does; none means no page from the index covers it |
| KAllocator.FindPage | mem/kallocator.c:635-650 | the page found is the first whose range start <= addr < start + count * PAGE_SIZE holds the address; none means no page does |
| KAllocator.AddPage | mem/kallocator.c:594-618 | refused exactly when the table is full; otherwise one record is appended with the address, count and kind, a large page charged with the request, and nothing else changes |
| KAllocator.PageAt | mem/kallocator.c:620-633 | the record found has the address; none means no record from the index has it |
| KAllocator.RemovePage | mem/kallocator.c:620-633 | an unknown address leaves the table alone; otherwise the table is one shorter and holds the same records less the one removed |
| KAllocator.SwapRemove | mem/kallocator.c:623-631 | moving the last record into the hole and dropping the last slot removes exactly that record |
| KAllocator.AddThenRemove | mem/kallocator.c:594-633 | removing the page just added to a table without that address restores the table |
| KAllocator.EffectiveAlign | mem/kallocator.c:90-93 | alignment 0 becomes the default 8 and any other alignment is kept |
| KAllocator.LargePages | mem/kallocator.c:104-106 | a large request takes the fewest whole pages that hold it |
| KAllocator.LargePagesWrap | mem/kallocator.c:106 | for 0xFFFFF001 bytes the as-written page count wraps to 0 while 0x100000 pages are needed |
| KAllocator.LargePagesAgree | mem/kallocator.c:104-106 | below the wrap the as-written and corrected page counts agree |
| KAllocator.SmallTotal | mem/kallocator.c:322-331 | the small total holds the header and the request, holds a free-block record, is a multiple of the alignment, and is the header plus request rounded up unless raised to the free-block size |
| KAllocator.RoundedTotal | mem/kallocator.c:326 | rounding the header plus request up to the alignment gives the least multiple at or above it |
| KAllocator.SmallAlignDivides | mem/kallocator.c:326-331 | when the rounded total is below the free-block size, that size is itself a multiple of the alignment |
| KAllocator.UserAddr | mem/kallocator.c:378-379 | the user address is aligned and lies within one alignment after the header |
| KAllocator.UserAddrTruncates | mem/kallocator.c:379 | as written the mask is 32 bits wide, so it agrees with the corrected address below 4 GiB and drops the high half at 4 GiB |
| KAllocator.Span | mem/kallocator.c:428-430 | the new page's block length covers the header, padding and request, rounded up to 8 |
| KAllocator.Usables | mem/kallocator.c:338-351 | the blocks kept are exactly those of positive size up to a page that lie in a managed page |
| KAllocator.FirstFit | mem/kallocator.c:333-399 | the block taken is in the list, usable and fits, and the bytes of the usable blocks are those left plus the block; none found means no usable block fits and the invalid blocks are unlinked |
| KAllocator.Carve | mem/kallocator.c:363-370 | a block larger than the total plus a free-block record leaves its remainder at the head of the list, and no byte is lost; otherwise the list is unchanged |
| KAllocator.AllUsable | mem/kallocator.c:338-351 | a list of usable blocks loses nothing to the validity checks |
| KAllocator.ReserveAsWritten | mem/kallocator.c:322-331 | as written the bytes reserved in a free block are the small total, which holds the header and request |
| KAllocator.Reserve | mem/kallocator.c:322-379 | the bytes reserved hold at least a free-block record |
| KAllocator.ReserveHoldsUser | mem/kallocator.c:353-379 | the aligned user address and the request lie within the reserved bytes of the block |
| KAllocator.CarveOverlapsRemainder | mem/kallocator.c:364-379 | as written, an 8-byte request aligned to 64 taken from the block at page + 64 returns page + 128 while the split-off free block starts inside the user's 8 bytes |
| KAllocator.CarveExampleFixed | mem/kallocator.c:364-379 | with the corrected reservation the same request leaves the free block after the user's bytes |
| KAllocator.UserAfterAligned | mem/kallocator.c:378-379 | from an aligned block the user address is one alignment past it |
| KAllocator.FirstPageRemainder | mem/kallocator.c:424-439 | a 56-byte request in a fresh page leaves a 4032-byte free block at page + 64 |
| KAllocator.NewPageOverruns | mem/kallocator.c:424-439 | as written a page-aligned 8-byte request spans 4104 bytes, past the page, and the remainder wraps to a free block of nearly 4 GiB |
| KAllocator.NewPage | mem/kallocator.c:416-439 | a placement, when there is one, fits the page with the user bytes inside it, and the free remainder follows it and fills the page, or is too small for a record |
| KAllocator.NewPageRefusesOverrun | mem/kallocator.c:424-439 | the corrected placement refuses that request |
| KAllocator.Charge | mem/kallocator.c:382-388 | only the page charged changes: its used bytes grow by the amount and used plus free is one page |
| KAllocator.ChargeAt | mem/kallocator.c:382-388 | charging an address keeps every record's address and count and does nothing when no page covers it |
| KAllocator.AllocLarge | mem/kallocator.c:104-132 | success exactly when the pages are obtained and the table has room; then the pages are returned, tracked as one large record charged with the request, and the counters grow; failure changes nothing |
| KAllocator.TakeBlock | mem/kallocator.c:353-396 | taking a block returns its aligned user address and charges the reserved bytes and one small allocation |
| KAllocator.TakePage | mem/kallocator.c:401-456 | success exactly when a placement exists and the table has room; the address is aligned and a small page record is added; failure changes nothing |
| KAllocator.SetUsedAt | mem/kallocator.c:441-446 | the page holding the address gets the used bytes, and no record's address or kind changes |
| KAllocator.AllocSmall | mem/kallocator.c:319-457 | a small allocation returns an aligned address and counts one small allocation; a failure keeps the pages and the used size, with only the invalid free blocks unlinked |
| KAllocator.Place | mem/kallocator.c:353-457 | a found block is taken, otherwise a new page is tried; a failure means no block fitted |
| KAllocator.SmallFit | mem/kallocator.c:333-399 | the block found holds the bytes to reserve; none found leaves only the usable blocks |
| KAllocator.FromNewPage | mem/kallocator.c:401-456 | success exactly when a page is obtained, a placement exists and the table has room; failure changes nothing |
| KAllocator.AllocSmallFinds | mem/kallocator.c:333-399 | when a usable free block fits, the allocation succeeds without adding a page |
| KAllocator.Kalloc | mem/kallocator.c:78-137 | an uninitialised allocator, size 0, a non-power-of-two alignment or a request past the large limit give NULL and change nothing; small results honour the alignment; large ones are the pages obtained, tracked as a large record; a failure keeps the pages and used size |
| KAllocator.Kfree | mem/kallocator.c:149-186 | NULL, an uninitialised allocator or an address outside every page change nothing; freeing a large allocation drops its record and keeps the free list |
| KAllocator.PageAtFinds | mem/kallocator.c:620-633 | a record with the address is found |
| KAllocator.LargeAllocThenFree | mem/kallocator.c:78-186 | freeing a large allocation just made restores the allocator exactly |
| KAllocator.RemoveLast | mem/kallocator.c:620-633 | removing the last record gives back the table before it |
| KAllocator.FreeLastLarge | mem/kallocator.c:168-186 | freeing the last large record undoes its statistics and its record |
| KAllocator.CarveConserves | mem/kallocator.c:333-399 | taking and splitting a block loses no free bytes: what is left plus what is reserved is what the list held |
| Pmm.Used | mem/pmm.c:39-125 | the pages allocated below n are at most n |
| Pmm.Init | mem/pmm.c:15-37 | total pages are the whole pages in the size, all free, over a zeroed bitmap; with a bitmap of exactly that many pages the free count is accounted |
| Pmm.NoneUsed | mem/pmm.c:27-30 | a zeroed bitmap has no page allocated |
| Pmm.UsedAfterSet | mem/pmm.c:52-58 | marking a free run raises the allocated count by the run's pages |
| Pmm.UsedAfterClear | mem/pmm.c:117-120 | clearing an allocated run lowers the allocated count by the run's pages |
| Pmm.Alloc | mem/pmm.c:39-69 | no free run gives address 0 and changes nothing; otherwise the lowest free run is marked, its address is start + index * PAGE_SIZE and the free count drops by the request |
| Pmm.IndexFitsI32 | mem/pmm.c:49 | with fewer than 2^31 pages the int32_t index keeps the search result, -1 for none |
| Pmm.AllocKeepsAccounted | mem/pmm.c:39-69 | allocation keeps the free count equal to the pages not marked |
| Pmm.MarkKeepsAccounted | mem/pmm.c:52-58 | marking a free run and lowering the count by its length keeps the count accounted |
| Pmm.Free | mem/pmm.c:100-125 | an address outside the region or a range past the total pages changes nothing; otherwise the run is cleared and the free count grows by it |
| Pmm.FreeKeepsAccounted | mem/pmm.c:100-125 | freeing an allocated run keeps the count accounted |
| Pmm.ClearKeepsAccounted | mem/pmm.c:115-120 | clearing an allocated run and raising the count by its length keeps the count accounted |
| Pmm.PageAddrIndex | mem/pmm.c:55-112 | the address of page i lies in the region and maps back to index i |
| Pmm.AllocFacts | mem/pmm.c:39-69 | a successful allocation returns an address inside the region whose index is the run found, drops the free count by the request and stays accounted |
| Pmm.AllocAddr | mem/pmm.c:49-55 | the address returned lies in the region and maps back to the run's index |
| Pmm.FreeRun | mem/pmm.c:106-120 | freeing an address inside the region whose run fits clears that run and raises the count |
| Pmm.AllocThenFree | mem/pmm.c:39-125 | freeing the pages just allocated restores the free count and every page's state |
| Pmm.ClearMarked | mem/pmm.c:52-117 | clearing a run that was free before being marked restores the bitmap |
| Pmm.DoubleFreeOvercounts | mem/pmm.c:100-125 | freeing the same run twice changes no bit the second time but raises the free count again, past the pages actually free |
| Pmm.UsedSame | mem/pmm.c:39-125 | bitmaps with the same pages marked have the same allocated count |
| Ramfs.Lookup | fs/ramfs.c:60-65 | the slot found is the first whose stored name equals the name; none means no slot has it |
| Ramfs.FirstFree | fs/ramfs.c:68-70 | the slot found is the first not in use; none means every slot is in use |
| Ramfs.Stored | fs/ramfs.c:396-397 | the name kept in the 512-byte field is the name cut to 511 characters, and a shorter name is kept whole |
| Ramfs.Open | fs/ramfs.c:57-90 | an existing name returns its slot with the offset reset; otherwise the first free slot gets a new file with nlink 1 and the block; a full table returns -1 and changes nothing |
| Ramfs.OpenTwice | fs/ramfs.c:57-90 | opening the same name again returns the same descriptor and changes nothing further |
| Ramfs.Lseek | fs/ramfs.c:226-257 | the seek succeeds exactly for a valid descriptor, a known whence and a target within 0..size, returns the target and moves only that offset; otherwise -1 and nothing changes |
| Ramfs.LseekStays | fs/ramfs.c:226-257 | after a successful seek a relative seek by 0 returns the same offset |
| Ramfs.LseekEnd | fs/ramfs.c:226-257 | seeking by 0 from the end returns the size |
| Ramfs.Close | fs/ramfs.c:94-106 | closing succeeds exactly for a valid descriptor and only resets its offset; otherwise -1 and nothing changes |
| Ramfs.Link | fs/ramfs.c:300-342 | link fails exactly when the old name is missing, the new name exists or no slot is free, changing nothing; otherwise the new slot shares the size and data with nlink 1, the source's nlink grows by one, and no other slot changes |
| Ramfs.UnlinkAsWritten | fs/ramfs.c:346-378 | as written unlink fails exactly for a missing name, changing nothing |
| Ramfs.Unlink | fs/ramfs.c:346-378 | a missing name gives -1; a file with nlink above 1 loses one link; otherwise the slot is cleared, and its data are released only when no other slot shares them |
| Ramfs.NoDanglingKept | fs/ramfs.c:57-378 | open with a fresh block, link and unlink never leave a file in use whose data were released |
| Ramfs.UnlinkLinkDangles | fs/ramfs.c:300-371 | as written, after linking a to b and unlinking b, a is still in use but its data were released; the corrected unlink keeps them |
| Ramfs.Rename | fs/ramfs.c:382-404 | rename fails exactly when the old name is missing or the new name exists, changing nothing; otherwise only that slot's name changes, cut to the field |
| Ramfs.LookupOnly | fs/ramfs.c:60-65 | a name carried by exactly one slot is found there |
| Ramfs.UniqueNamesKept | fs/ramfs.c:57-404 | open, link, unlink and rename keep the names in use distinct |
| Ramfs.OpenKeepsUnique | fs/ramfs.c:57-90 | open keeps the names in use distinct |
| Ramfs.LinkKeepsUnique | fs/ramfs.c:300-342 | link keeps the names in use distinct |
| Ramfs.UnlinkKeepsUnique | fs/ramfs.c:346-378 | unlink keeps the names in use distinct |
| Ramfs.RenameKeepsUnique | fs/ramfs.c:382-404 | rename keeps the names in use distinct |
| Ramfs.RenameBack | fs/ramfs.c:382-404 | renaming a to b and back restores the file system |
| Shell.TypedPrintable | main_simple_bash.c:34-47 | the line built from keys holds only printable characters: erase keys and other control characters never enter it |
| Shell.ReadFrom | main_simple_bash.c:25-48 | the loop from a key stops at the first newline, returning the line typed before it, or when the line fills max_len - 1 characters; running out of keys means no newline followed |
| Shell.KeyTyped | main_simple_bash.c:34-46 | a key that is not a newline extends the keys read without one and edits the line by that key |
| Shell.ReadLine | main_simple_bash.c:20-52 | the line read is printable and at most max_len - 1 long; it is the edit of the keys before the first newline, or of the keys read when the buffer filled; nothing is returned exactly when no newline comes and the buffer never fills |
| Shell.NoneMeansShort | main_simple_bash.c:25-48 | running out of keys means no prefix filled the buffer |
| Shell.SomeMeansStop | main_simple_bash.c:25-48 | a line is returned only after a newline or a full buffer |
| Shell.ReadsTypedLine | main_simple_bash.c:20-52 | typing printable text shorter than the buffer and a newline reads back exactly that text |
| Shell.ReadPrintableFrom | main_simple_bash.c:25-48 | from any point in such a key sequence the loop ends with the whole text |
| Shell.ReadStep | main_simple_bash.c:25-48 | a key that is not a newline, with room in the buffer, is applied and reading continues with the next key |
| Shell.EraseUndoes | main_simple_bash.c:34-44 | a printable key followed by backspace or delete leaves the line as it was |
| Shell.SkipSpaces | main_simple_bash.c:62-64 | skipping stops at the first character that is not a space or tab |
| Shell.TokenEnd | main_simple_bash.c:73-75 | a token runs to the first space or tab or the end of the line |
| Shell.ParseFrom | main_simple_bash.c:60-80 | the loop keeps the arguments found, adds only non-blank words, and never more than max_args - 1 in all |
| Shell.ParseArgs | main_simple_bash.c:55-84 | the arguments are non-blank words, at most max_args - 1 of them |
| Shell.ParseJoin | main_simple_bash.c:55-84 | parsing words joined by single spaces gives back the words when they fit |
| Shell.ParseJoinFrom | main_simple_bash.c:60-80 | from a point where the rest of the line is words joined by spaces, the loop adds exactly those words |
| Shell.ParseJoinLast | main_simple_bash.c:60-80 | a last word ending the line is added |
| Shell.ParseStep | main_simple_bash.c:60-80 | one pass of the loop takes the word at the current point and moves past the blank after it |
| Shell.WordSpan | main_simple_bash.c:62-75 | at the start of a word followed by a blank or the end, no blank is skipped and the token is the word |
| Shell.TokenEndAt | main_simple_bash.c:73-75 | the token end is the first blank after the point |
| Shell.NormalizePath | main_simple_bash.c:87-94 | the path is kept or loses one trailing slash; a trailing slash goes unless the path is one character; an absolute path stays absolute |
| Shell.NormalizeClean | main_simple_bash.c:87-94 | a path without a trailing slash, or of one character, is unchanged |
| Shell.Truncate | main_simple_bash.c:104-106 | the snprintf output is the text cut to size - 1 characters |
| Shell.ResolvePath | main_simple_bash.c:96-110 | an absolute input is only normalised; a relative one under an absolute directory gives an absolute path that fits MAX_PATH_LEN |
| Shell.Parent | main_simple_bash.c:191-206 | the root has no parent; otherwise the parent is "/" or the directory cut at its last slash |
| Shell.ChildThenParent | main_simple_bash.c:96-206 | cd into a child named without slashes and then cd .. comes back to the directory |
| Shell.LastSlashAt | main_simple_bash.c:200 | a slash with none after it is the last slash |
| Shell.Cd | main_simple_bash.c:184-221 | cd with no argument goes to the root; otherwise the directory is kept or becomes a valid directory |
| Shell.CdKeepsAbsolute | main_simple_bash.c:184-221 | the working directory stays absolute |
| Symbols.FindLine | scripts/avatar_symbols.py:44-60 | the line found from a point is the first that satisfies the test, or the end |
| Symbols.FindTableMarker | scripts/avatar_symbols.py:44-48 | the start is the first line that strips to "SYMBOL TABLE:", or the end |
| Symbols.FindTextMarker | scripts/avatar_symbols.py:55-64 | the end is the first line after the start whose stripped text starts with "Disassembly of section .text:", or the end of the file |
| Symbols.StripAll | scripts/avatar_symbols.py:68-69 | each line is stripped and none is dropped |
| Symbols.NonBlank | scripts/avatar_symbols.py:70-71 | only the empty lines are dropped |
| Symbols.ReadSymbolTable | scripts/avatar_symbols.py:24-78 | without a table marker nothing is read |
| Symbols.TableLinesClean | scripts/avatar_symbols.py:43-74 | no line read is empty or starts with the text marker |
| Symbols.BodyHasNoText | scripts/avatar_symbols.py:55-71 | no stripped line before the end marker starts with it |
| Symbols.ReadsTableBody | scripts/avatar_symbols.py:24-78 | a file holding the table marker, clean lines and the text marker reads exactly those lines |
| Symbols.ReadTableAt | scripts/avatar_symbols.py:43-74 | the lines read are the stripped non-empty lines strictly between the two markers |
| Symbols.FirstTableMarker | scripts/avatar_symbols.py:44-48 | the first table marker is where reading starts |
| Symbols.FirstTextMarker | scripts/avatar_symbols.py:55-60 | the first text marker after the start is where reading stops |
| Symbols.SkipSpace | scripts/avatar_symbols.py:104 | skipping whitespace stops at a character that is not whitespace |
| Symbols.FieldEnd | scripts/avatar_symbols.py:104 | a field runs to the first whitespace or the end |
| Symbols.FieldsFrom | scripts/avatar_symbols.py:104 | the fields split off from a point are non-empty and hold no whitespace |
| Symbols.Fields | scripts/avatar_symbols.py:104 | re.split on whitespace runs of the stripped line gives non-empty fields without whitespace |
| Symbols.SplitJoin | scripts/avatar_symbols.py:104 | fields joined by single spaces split back to the same fields |
| Symbols.SplitJoinFrom | scripts/avatar_symbols.py:104 | from a point where the rest is fields joined by spaces, the split gives those fields |
| Symbols.HexDigitValue | scripts/avatar_symbols.py:111-114 | a hex digit is worth less than 16 |
| Symbols.HexValue | scripts/avatar_symbols.py:114 | n hex digits are worth less than 16^n |
| Symbols.AddressFits | scripts/avatar_symbols.py:111-114 | a 16-digit address fits 64 bits |
| Symbols.DigitRun | scripts/avatar_symbols.py:138 | the digits kept from a run with single underscores are hex digits and no more than the run |
| Symbols.DigitRunPlain | scripts/avatar_symbols.py:138 | a run without underscores is kept whole |
| Symbols.DigitRunJoin | scripts/avatar_symbols.py:138 | a single underscore between digits is dropped |
| Symbols.DigitRunTrailing | scripts/avatar_symbols.py:137-140 | a trailing underscore is rejected |
| Symbols.DigitRunDouble | scripts/avatar_symbols.py:137-140 | a double underscore is rejected |
| Symbols.PlainHexLiteral | scripts/avatar_symbols.py:138 | plain digits read as their hex value |
| Symbols.Unsigned | scripts/avatar_symbols.py:137-140 | unsigned, unpadded text reads as its literal or fails with it |
| Symbols.Signed | scripts/avatar_symbols.py:137-140 | a leading sign negates or keeps the literal after it, and fails with it |
| Symbols.HexIntOfDigits | scripts/avatar_symbols.py:138 | int(s, 16) of plain hex digits is their value |
| Symbols.PrefixedLiteral | scripts/avatar_symbols.py:138 | the literal after a 0x or 0X prefix is the digits' value |
| Symbols.HexIntPrefixed | scripts/avatar_symbols.py:138 | int("0x" + digits, 16) is the digits' value, for either case of x |
| Symbols.UnsignedValue | scripts/avatar_symbols.py:138 | an unsigned literal's value is what int(s, 16) returns |
| Symbols.HexIntSigned | scripts/avatar_symbols.py:138 | a leading '-' negates what the rest reads as, a leading '+' changes nothing, and the sign goes before any 0x prefix |
| Symbols.SignedSome | scripts/avatar_symbols.py:138 | a sign before a valid literal negates or keeps its value |
| Symbols.SignSome | scripts/avatar_symbols.py:138 | with the literal's value known, '-' gives its negation and '+' the value |
| Symbols.HexIntUnderscore | scripts/avatar_symbols.py:138 | one underscore between digit runs reads as the digits run together |
| Symbols.HexIntBadUnderscore | scripts/avatar_symbols.py:137-140 | a trailing or doubled underscore is a ValueError |
| Symbols.HexIntNeedsDigit | scripts/avatar_symbols.py:137-140 | text without a hex digit is a ValueError |
| Symbols.SizeValue | scripts/avatar_symbols.py:133-140 | "*ABS*" has size 0; otherwise the size is int(s, 16), and 0 where that raises ValueError |
| Symbols.SizeOfHexField | scripts/avatar_symbols.py:133-140 | a size field of hex digits has their value |
| Symbols.ParseSymbol | scripts/avatar_symbols.py:100-153 | a line yields a symbol exactly when it has at least 5 fields and the first is 16 hex digits; the symbol carries its line number and the address's value |
| Symbols.ParseRow | scripts/avatar_symbols.py:104-153 | a row of 5 or 6 fields printed with single spaces parses to its address, flags, type, section, size and name, the address and size read as hex |
| Symbols.ParseEach | scripts/avatar_symbols.py:100 | each line is parsed with its 1-based line number |
| Symbols.CollectFrom | scripts/avatar_symbols.py:100-157 | every symbol collected from a point came from a later line |
| Symbols.CollectOrdered | scripts/avatar_symbols.py:100-157 | the symbols come in line order |
| Symbols.CollectComplete | scripts/avatar_symbols.py:100-157 | every line that parses contributes its symbol |
| Symbols.Collect | scripts/avatar_symbols.py:98-160 | the symbols are exactly those of the lines that parse, each from its line, in line order |
| Symbols.ParseSymbols | scripts/avatar_symbols.py:87-160 | parse_symbols keeps exactly the parsed lines' symbols, in strictly increasing line order, no more than the lines |
| Symbols.Keep | scripts/avatar_symbols.py:166-176 | a comprehension keeps exactly the symbols that pass the test |
| Symbols.FilterBySection | scripts/avatar_symbols.py:166-168 | the symbols kept are exactly those whose section contains the text |
| Symbols.FilterByFlags | scripts/avatar_symbols.py:170-172 | the symbols kept are exactly those whose flags contain the text |
| Symbols.FilterByType | scripts/avatar_symbols.py:174-176 | the symbols kept are exactly those whose type contains the text |
| Symbols.WithFlag | scripts/avatar_symbols.py:183-197 | get_functions, get_objects, get_global_symbols and get_local_symbols keep exactly the symbols whose flags hold F, O, g or l |
| Symbols.LetterSubstring | scripts/avatar_symbols.py:172 | a one-letter text occurs in the flags exactly when the letter does |
| Symbols.Insert | scripts/avatar_symbols.py:162-164 | inserting into a sorted list keeps it sorted and adds exactly the symbol |
| Symbols.ConsSorted | scripts/avatar_symbols.py:162-164 | a symbol no higher than the head of a sorted list extends it sorted |
| Symbols.SortByAddress | scripts/avatar_symbols.py:162-164 | the result is sorted by address and a permutation of the symbols |
| Symbols.Layout | scripts/avatar_symbols.py:199-215 | the table has one entry per section that occurs, with a range covering its symbols, their count and their sizes summed |
| Symbols.AddSymbolStep | scripts/avatar_symbols.py:202-215 | folding one more symbol in keeps the table a summary |
| Symbols.CountAbsent | scripts/avatar_symbols.py:202-215 | a section with no symbol counts none and sums no size |
| Symbols.LayoutAttained | scripts/avatar_symbols.py:212-213 | the minimum and maximum of a section are addresses of its symbols |
| Symbols.MemoryLayout | scripts/avatar_symbols.py:199-226 | one entry per section that occurs, carrying the summary |
| Symbols.ActualSizeRule | scripts/avatar_symbols.py:218-224 | the actual size is the sum of the sizes when all symbols of the section share one address, and the address range otherwise |
| Tasks.Put | task/task.c:31-81 | storing a control block changes that task only and no list |
| Tasks.FirstFree | task/task.c:34-37 | the slot found is the first with id 0; none means every slot has an id |
| Tasks.AllocTcb | task/task.c:31-62 | NULL exactly when every slot has an id, changing nothing; otherwise the first free slot gets the counter as its id and the Create state, the counter advances, and nothing else changes |
| Tasks.AllocKeepsIdsFresh | task/task.c:31-62 | while the counter has not wrapped, the ids in use stay below the counter and the new id is not 0 |
| Tasks.AllocTwiceDistinct | task/task.c:31-62 | two allocations in a row return different slots |
| Tasks.CountWrapReusesSlot | task/task.c:33-43 | once the counter has wrapped to 0 the slot allocated keeps id 0, so the next allocation hands out the same slot again |
| Tasks.FreeTcb | task/task.c:65-81 | the slot is zeroed and dropped from the ready list, and no other slot changes |
| Tasks.FreeThenAlloc | task/task.c:31-81 | after freeing a slot with every earlier slot in use, the next allocation returns that slot |
| Tasks.RemoveFirst | task/task.c:464-473 | list_delete drops the first occurrence and keeps the rest in order; a task not in the list leaves it alone |
| Tasks.RemoveFirstMembers | task/task.c:464-473 | removal keeps every other member and adds none |
| Tasks.RemoveFirstDistinct | task/task.c:464-473 | in a list without repeats the task is gone after removal |
| Tasks.AddReadyTail | task/task.c:451-461 | the idle task of the core is never queued; any other task goes to the tail of the core's ready list and becomes Ready, and nothing else changes |
| Tasks.AddReadyTailRemoteAsWritten | task/task.c:434-446 | as written a core id past the last core only logs and then indexes past the ready lists; a valid one queues as the local add does |
| Tasks.RemoteBadCoreOverruns | task/task.c:436-442 | a core id equal to the number of cores reaches the out-of-bounds access |
| Tasks.AddReadyTailRemote | task/task.c:434-446 | a bad core id changes nothing; otherwise the task goes to the tail of that core's list and becomes Ready, as the as-written code does for valid ids |
| Tasks.RemoveFromReady | task/task.c:464-473 | only the core's ready list changes, losing the first occurrence of the task unless it is the idle task |
| Tasks.FirstReady | task/task.c:481-495 | the position found is the first Ready task in the list, or its end |
| Tasks.NextRun | task/task.c:477-498 | the idle task exactly when no task in the core's list is Ready, changing nothing; otherwise the first Ready task, removed from the list |
| Tasks.NextRunTakesHead | task/task.c:477-498 | when every queued task is Ready the head runs next and the rest stays queued |
| Tasks.AddKeepsReadyQueue | task/task.c:451-461 | queueing a task not yet queued keeps the list distinct, valid and all Ready |
| Tasks.Rotate | task/task.c:477-498 | taking the next task and queueing it again moves the head to the tail |
| Tasks.SetSleep | task/task.c:503-516 | zero ticks changes nothing; otherwise the task waits with the ticks, goes to the tail of the sleep list, and nothing else changes |
| Tasks.SetWakeup | task/task.c:519-525 | the task leaves the sleep list and becomes Ready, and nothing else changes |
| Tasks.SleepWakeRoundTrip | task/task.c:503-525 | putting a task to sleep and waking it restores the sleep list and leaves the task Ready |
| Tasks.SleepMs | task/task.c:527-543 | the task sleeps for ms / 10 ticks, at least one tick |
| Tasks.WakeStep | task/task.c:256-268 | one sleeper loses a tick; at zero it leaves the sleep list, becomes Ready and is queued unless idle |
| Tasks.Wake | task/task.c:261-266 | waking takes the task off the sleep list, makes it Ready and queues it unless idle |
| Tasks.WakeSleepers | task/task.c:254-268 | the walk over the sleepers keeps the tables' shape |
| Tasks.SleepTick | task/task.c:252-268 | the sleep part of a tick keeps the tables' shape |
| Tasks.UntouchedSleeper | task/task.c:256-268 | a task the walk does not reach is unchanged and stays asleep |
| Tasks.ReadyStays | task/task.c:256-268 | a queued task stays queued |
| Tasks.SleepListShrinks | task/task.c:256-268 | no task joins the sleep list during the walk |
| Tasks.SleepListDistinct | task/task.c:256-268 | the sleep list keeps no repeats |
| Tasks.SleeperFate | task/task.c:256-268 | each sleeper the walk reaches either loses a tick and stays, or at zero is Ready and queued |
| Tasks.SleepKeepsCounters | task/task.c:256-268 | the walk never touches a time slice counter |
| Tasks.SleepTicks | task/task.c:244-268 | any number of ticks keeps the tables' shape |
| Tasks.OneTick | task/task.c:256-268 | a tick takes one from a sleeper, and at zero it leaves the sleep list Ready |
| Tasks.WakesAfter | task/task.c:256-268 | a task asleep for t ticks is still asleep with t - k left after k < t ticks and Ready after exactly t |
| Tasks.CounterTick | task/task.c:270-283 | the slice ends exactly when the decremented counter is at most 0; then a task other than idle gets SYS_TASK_TICK and is queued Ready, and idle gets SYS_TASK_TICK / 5; otherwise the counter just drops by one |
| Tasks.TimerTick | task/task.c:244-284 | a tick asks for a reschedule exactly when the current slice ends |
| Tasks.SliceLength | task/task.c:270-283 | a task with c ticks left runs c - 1 ticks without a reschedule, and the c-th ends its slice and refills the counter |
| VirtioAlloc.Init | virtio_frontend/virtio_alloctor.c:16-52 | a second init changes nothing; otherwise device memory starts the region and general memory runs from its end to the region's end, both empty; when the region holds the device part, the totals split the region |
| VirtioAlloc.InitSplits | virtio_frontend/virtio_alloctor.c:28-39 | the device part is the first 0x500000 bytes and the general part is the rest |
| VirtioAlloc.EffectiveAlign | virtio_frontend/virtio_alloctor.c:68-72 | alignment 0 becomes the default 8 and any other is kept |
| VirtioAlloc.Bump | virtio_frontend/virtio_alloctor.c:84-99 | out of memory exactly when the aligned address plus the size passes the end, changing nothing; otherwise the aligned address is returned, current moves past the block and used is current - start |
| VirtioAlloc.Alloc | virtio_frontend/virtio_alloctor.c:54-100 | an uninitialised allocator, size 0 or an alignment not a power of two gives NULL and changes nothing, and any failure changes nothing |
| VirtioAlloc.AllocGrants | virtio_frontend/virtio_alloctor.c:81-99 | an accepted request returns current rounded up to the alignment, fails exactly when that plus the size passes the end, and otherwise advances current past the block |
| VirtioAlloc.AllocKeepsBounded | virtio_frontend/virtio_alloctor.c:54-100 | start <= current <= end is kept, and a grant lies between the old and the new current |
| VirtioAlloc.GrantsDisjoint | virtio_frontend/virtio_alloctor.c:54-100 | two successive grants do not overlap |
| VirtioAlloc.AllocAsWrittenTruncates | virtio_frontend/virtio_alloctor.c:82 | with current just above 4 GiB, the 32-bit mask makes the as-written alloc return address 8, while the corrected one returns 4 GiB + 8 |
| VirtioAlloc.AllocAgreesBelow4G | virtio_frontend/virtio_alloctor.c:54-100 | below 4 GiB the as-written and corrected allocs agree |
| VirtioAlloc.DeviceBase | virtio_frontend/virtio_alloctor.c:146-165 | a non-zero base is start + index * the device size and the device's memory ends inside the device part |
| VirtioAlloc.DeviceSlotsDisjoint | virtio_frontend/virtio_alloctor.c:146-165 | an index has a base exactly when it is below the number of slots, and distinct indices get disjoint memory |
| VirtioAlloc.DeviceIndexAliases | virtio_frontend/virtio_alloctor.c:155 | as written index 0x2000 times the device size wraps in 32 bits to 0 and aliases device 0; the corrected base refuses it |
| VirtioAlloc.QueueDesc | virtio_frontend/virtio_alloctor.c:167-182 | the descriptor table is 0x1000-aligned and lies within 0x1000 after the queue's base |
| VirtioAlloc.Layout | virtio_frontend/virtio_alloctor.c:167-212 | a refused device gives 0 for all three addresses; the descriptor table is 0x1000-aligned, the available ring follows 0x100 after it and the used ring 0x1000 after it |
| VirtioAlloc.LayoutFits | virtio_frontend/virtio_alloctor.c:167-212 | for a queue index that fits the device, the three areas lie inside the device's memory, and up to 16 descriptors fit before the available ring, no more |
| VirtioBlock.PlanCovers | dev/virtio_frontend/virtio_block.c:104-128 | the batches add up to the request, each holds 1 to 128 sectors, all but the last hold 128, and there are ceil(count / 128) of them |
| VirtioBlock.PlanOffsets | dev/virtio_frontend/virtio_block.c:125-127 | batch i starts 128 * i sectors and 128 * 512 * i bytes after the request |
| VirtioBlock.SendBatches | dev/virtio_frontend/virtio_block.c:111-131 | 0 exactly when every batch succeeds, having sent them all; otherwise -1 after sending the batches up to and including the first that failed |
| VirtioBlock.Read | dev/virtio_frontend/virtio_block.c:83-132 | an uninitialised device, a NULL buffer or a count of 0 gives -1 with nothing sent; otherwise 0 exactly when every batch succeeds, and what is sent is a prefix of the plan |
| VirtioBlock.Write | dev/virtio_frontend/virtio_block.c:139-180 | as for reads: the same checks and the same batches of at most 128 sectors |
| VirtioDevice.QueueInit | vmm/vdev/virtio/virtqueue.c:10-28 | refuses exactly a size of 0 or above 256; an accepted size gives a stopped queue of that size with every index and address cleared |
| VirtioDevice.QueueReset | vmm/vdev/virtio/virtqueue.c:30-44 | the reset queue is stopped, has size 0, zero indices and no mapped tables, and is still a queue the device may serve |
| VirtioDevice.Available | vmm/vdev/virtio/virtqueue.c:46-53 | work is available exactly when the queue is ready, the available ring is mapped and the device's index differs from the driver's |
| VirtioDevice.Collect | vmm/vdev/virtio/virtqueue.c:70-92 | a collected chain extends what was already copied, holds at most 16 descriptors, and its last descriptor has no NEXT flag |
| VirtioDevice.CollectChain | vmm/vdev/virtio/virtqueue.c:70-92 | when the next-links from the head stay inside the queue and end with a descriptor without NEXT within 16 steps, the walk copies exactly those descriptors in order |
| VirtioDevice.CollectRefusesLong | vmm/vdev/virtio/virtqueue.c:70-92 | a chain whose first 16 descriptors all carry NEXT is refused |
| VirtioDevice.Pop | vmm/vdev/virtio/virtqueue.c:55-98 | a refusal changes nothing; nothing available or no descriptor table means refusal; otherwise the head comes from the available ring slot of the driver index modulo the size, the chain is 1 to 16 descriptors ending without NEXT, and only the driver index advances, modulo 2^16 |
| VirtioDevice.PopChain | vmm/vdev/virtio/virtqueue.c:55-98 | for an available head whose chain stays in bounds and ends within 16 steps, pop returns that head and exactly the descriptors along the chain |
| VirtioDevice.Push | vmm/vdev/virtio/virtqueue.c:100-119 | a stopped queue or an unmapped used ring changes nothing; otherwise the entry (id, len) lands in slot used-index modulo the size, both used indices advance by one modulo 2^16, and every other slot and the descriptor and available tables are unchanged |
| VirtioDevice.AddPublishes | virtio_frontend/virtio_block_frontend.c:264-323 | adding a buffer chain writes the old free head into the available slot of the old index and moves the available index on |
| VirtioDevice.PopAfterAdd | virtio_frontend/virtio_block_frontend.c:264-323 | after the driver adds a chain, the device's pop returns the driver's old free head and the descriptors along the driver's free list, as rewritten |
| VirtioDevice.DriverChainReachesDevice | virtio_frontend/virtio_block_frontend.c:264-323 | the chain the device pops after the driver adds buffers has one descriptor per buffer, in order, with the buffer's address and length, NEXT on all but the last and WRITE exactly on the device-writable ones |
| VirtioDevice.Selected | vmm/vdev/virtio/virtio.c:121-131 | a queue is selected exactly when the selector is below the queue count, and then it is the selected index |
| VirtioDevice.MmioRead | vmm/vdev/virtio/virtio.c:121-191 | the magic register reads the magic value; device features read the low or high half by the selector, else 0; the maximum queue size reads 256 only for a selected queue; queue-ready reads the selected queue's flag; a configuration read returns the bytes at the offset when they fit |
| VirtioDevice.SetHalf | vmm/vdev/virtio/virtio.c:210-217 | replacing one 32-bit half of a 64-bit word leaves the other half as it was and puts the value in the chosen half |
| VirtioDevice.SetDriverFeatures | vmm/vdev/virtio/virtio.c:210-217 | only the driver features change: selector 0 sets the low half, selector 1 the high half, the other half is kept, and other selectors change nothing |
| VirtioDevice.ReadyAsWritten | vmm/vdev/virtio/virtio.c:233-237 | the ready flag becomes 1 for any non-zero value and 0 for zero, whatever the queue size |
| VirtioDevice.ZeroSizedQueueGoesLive | vmm/vdev/virtio/virtio.c:233-237 | a reset queue of size 0 is made ready by writing 1, leaving a ready queue the device cannot serve |
| VirtioDevice.SetReady | vmm/vdev/virtio/virtio.c:233-237 | writing 0 stops the queue; a non-zero write makes it ready exactly when it has a size; nothing else changes and the queue stays servable |
| VirtioDevice.WriteQueue | vmm/vdev/virtio/virtio.c:227-297 | a queue-size write reinitialises the queue when the size is accepted and otherwise keeps it; a ready write goes through the corrected ready rule; an address write goes through the address update; the queue stays servable |
| VirtioDevice.WriteConfig | vmm/vdev/virtio/virtio.c:299-306 | only the configuration bytes change: a write that fits replaces exactly the bytes at the offset with the value's little-endian bytes and keeps the rest; a write past the end changes nothing |
| VirtioDevice.Acknowledge | vmm/vdev/virtio/virtio.c:245-247 | an interrupt bit stays set exactly when it was set and the acknowledged value does not have it |
| VirtioDevice.MmioWrite | vmm/vdev/virtio/virtio.c:195-311 | the device stays well formed with the same queue count and offered features; a notification is raised exactly for a notify write naming an existing queue on a device with a handler; a reset is raised exactly for a status write of 0 on a device with a reset hook; each register goes to its own update and the read-only registers change nothing |
| VirtioDevice.SetQueueAddress | vmm/vdev/virtio/virtio.c:256-297 | a low write replaces the low half and keeps the mapping; a high write replaces the high half and maps the table at the new address; size and ready flag are unchanged |
| VirtioDevice.DescAddressComposes | vmm/vdev/virtio/virtio.c:256-268 | writing the low then the high half of the descriptor address yields high * 2^32 + low, and that is where the table is mapped |
| VirtioDevice.AckClearsBits | vmm/vdev/virtio/virtio.c:245-247 | after an interrupt acknowledge write, a status bit is set exactly when it was set before and the written value does not have it |
| VirtioDevice.WritesKeepQueuesLive | vmm/vdev/virtio/virtio.c:195-311 | no register write leaves any queue in a state the device cannot serve |
| VirtioDevice.SetFeatures | vmm/vdev/virtio/virtqueue.c:170-176 | only the driver features change, and they are bounded by both the requested and the offered features |
| VirtioDevice.AcceptedFeatureOffered | vmm/vdev/virtio/virtqueue.c:163-176 | after negotiation, a feature is present exactly when the device offered it and the driver requested it |
| VirtioDevice.Notify | vmm/vdev/virtio/virtqueue.c:121-161 | a notification raises no reset and no further notification; only the interrupt status may change, only when the queue exists, is ready and the device has a VM; no bit other than the vring bit changes; with no used ring mapped the vring bit is set |
| VirtioDevice.RaiseVring | vmm/vdev/virtio/virtqueue.c:144-161 | only the interrupt status changes: the vring bit is set and every other bit is kept |
| VirtioDevice.QueueCount | vmm/vdev/virtio/virtio.c:62-80 | a device has one or two queues, two exactly for network and console devices |
| VirtioDevice.Create | vmm/vdev/virtio/virtio.c:44-96 | a full pool refuses and changes nothing; otherwise the new device is appended after the existing ones, with the given id, base and interrupt, version 2, the QEMU vendor id, configuration generation 1, status 0, the default features for its type, its queue count and every queue cleared |
| VirtioDevice.CreateKeepsPool | vmm/vdev/virtio/virtio.c:44-96 | creation keeps the pool well formed and refuses exactly when the pool is full |
| VirtioDevice.FindDevice | vmm/vdev/virtio/virtio.c:333-342 | returns the first device whose 4 KiB window holds the address, and nothing exactly when no window holds it |
| VirtioFrontend.Walk | virtio_frontend/virtio_block_frontend.c:286-311 | the walk has k entries, all inside the table, starts at the given index and follows each entry's next link |
| VirtioFrontend.WalkSameNext | virtio_frontend/virtio_block_frontend.c:290-311 | rewriting descriptors without changing the next links along a walk leaves the walk the same |
| VirtioFrontend.DeviceMemory | virtio_frontend/virtio_block_frontend.c:20-47 | an index past the table gives 0 and changes nothing; an index already holding memory returns it; otherwise the slot records the returned base; other slots are unchanged |
| VirtioFrontend.DeviceMemoryStable | virtio_frontend/virtio_block_frontend.c:20-47 | once a device's memory is recorded, asking again returns the same base and table |
| VirtioFrontend.InitialNext | virtio_frontend/virtio_block_frontend.c:219-224 | each initial next link stays inside the table and, for sizes up to 2^16, is the following index modulo the size |
| VirtioFrontend.InitialTable | virtio_frontend/virtio_block_frontend.c:219-224 | the initial table has one cleared descriptor per entry, linked to the next index |
| VirtioFrontend.SetupAsWritten | virtio_frontend/virtio_block_frontend.c:166-260 | a queue index of 16 or more fails with nothing changed; on success the free count is the requested size, even when the table was clamped smaller |
| VirtioFrontend.SetupOvercounts | virtio_frontend/virtio_block_frontend.c:175-193 | requesting 16 entries from a device offering 8 succeeds with an 8-entry table but a free count of 16 |
| VirtioFrontend.OvercountRevisits | virtio_frontend/virtio_block_frontend.c:175-224 | in that overcounted queue, the free list of 16 entries over an 8-entry table visits some entry twice |
| VirtioFrontend.SetupQueue | virtio_frontend/virtio_block_frontend.c:166-260 | an index of 16 or more fails with nothing changed; success exactly when the device offers a queue, and the base and three table addresses are non-zero; on success the queue count is index + 1, the size is the smaller of requested and offered, and the free count equals the size; other queues are untouched |
| VirtioFrontend.InitialWalk | virtio_frontend/virtio_block_frontend.c:219-224 | walking the initial table from i visits i, i+1, … modulo the size |
| VirtioFrontend.InitialChainDistinct | virtio_frontend/virtio_block_frontend.c:219-224 | the initial free list visits every entry once |
| VirtioFrontend.SetupReady | virtio_frontend/virtio_block_frontend.c:166-260 | a queue set up successfully is ready: its free list starts at entry 0 and visits distinct entries, as many as the free count |
| VirtioFrontend.FlagsFor | virtio_frontend/virtio_block_frontend.c:289-308 | a descriptor carries NEXT exactly when it is not the last, and WRITE exactly when it is an in-buffer |
| VirtioFrontend.Fill | virtio_frontend/virtio_block_frontend.c:286-311 | filling keeps the table length and every next link, and ends on an entry inside the table |
| VirtioFrontend.FillChain | virtio_frontend/virtio_block_frontend.c:286-311 | along a free list of distinct entries, filling writes buffer j's address, length and flags into the j-th entry, leaves all other entries, and ends on the last entry of the walk |
| VirtioFrontend.AddBuf | virtio_frontend/virtio_block_frontend.c:264-323 | refuses, changing nothing, exactly for an unknown queue, an empty request or more descriptors than are free; otherwise returns the old free head, takes the descriptors from the free count, publishes the head in the available slot of the old index, advances the index modulo 2^16 and touches no used-ring state or other queue |
| VirtioFrontend.AddBufChain | virtio_frontend/virtio_block_frontend.c:286-311 | the added descriptors along the free list carry the buffers' addresses and lengths, NEXT on all but the last and WRITE exactly on the in-buffers; the links are kept, and the free head moves past the last one |
| VirtioFrontend.AddBufKeepsReady | virtio_frontend/virtio_block_frontend.c:264-323 | after an add, the remaining free list is still a list of distinct entries as long as the free count |
| VirtioFrontend.Release | virtio_frontend/virtio_block_frontend.c:363-384 | releasing keeps the table length and links inside it, the new free head is inside the table and at least one entry is counted |
| VirtioFrontend.ReleaseChain | virtio_frontend/virtio_block_frontend.c:363-384 | releasing a chain of k distinct entries ending without NEXT counts exactly k, makes the last entry the free head, clears every entry on the chain and leaves the others |
| VirtioFrontend.GetBuf | virtio_frontend/virtio_block_frontend.c:341-390 | an unknown queue or nothing used returns -1 and changes nothing; otherwise it returns the used entry's id and length, advances the last-used index modulo 2^16, and leaves the available side and other queues unchanged |
| VirtioFrontend.Complete | vmm/vdev/virtio/virtqueue.c:100-119 | the device's completion keeps the queue well formed and advances the used index by one modulo 2^16 |
| VirtioFrontend.AddThenComplete | virtio_frontend/virtio_block_frontend.c:264-323 | after an add and the device's completion, exactly one used entry is waiting, it names the added head and written length, and the chain is still in the table ending without NEXT |
| VirtioFrontend.GetCompleted | virtio_frontend/virtio_block_frontend.c:341-390 | taking a completed chain returns its head and length, gives its descriptors back to the free count, clears their flags and makes its last entry the free head |
| VirtioFrontend.AddThenGet | virtio_frontend/virtio_block_frontend.c:264-390 | adding a chain, completing it and taking it back returns the same head with the written length, restores the free count, leaves nothing waiting and clears the chain's flags |

## Left out

Contracts deliberately weaker than the source, or inputs the model excludes:
- CheckDeps.AddEdge: the forward and reverse edge sets are kept in first-insertion order. Python iterates a `set` of strings in hash order, which varies between runs. That order decides which cycle the search reports first and the exact sequence Kahn's algorithm emits. The proved properties (soundness and completeness of the cycle search, distinctness, completeness and edge order of the build order) hold for every iteration order. The concrete output is the one for insertion order.
- FileHeaders.AddThenFound: requires the file's first line to be at most 962 characters. Otherwise the inserted header can fall outside the first 1000 characters that the header test reads.
- MemBitmap.Set: the source's `avatar_assert` (index inside the bitmap, bit clear) is a `requires`. The source halts on such a call, and a halt is not modelled.
- MemBitmap.SetRange: the same. Every page of the range must be free, because `bitmap_set` asserts it page by page. The `size_t` sum of start and count must not wrap.
- Printf.IntText: prints `INT64_MIN` as its true value. In C, `print_int` negates it, which is undefined behaviour. The model does not choose one outcome for that case.
- KAllocator.Kfree: the small-block branch returns the block to the free list by searching raw headers in memory. The model keeps no memory contents, so this branch leaves the heap unchanged. Only the NULL, not-initialised, unknown-address and large-allocation cases are modelled.
- Ramfs.Open: requires a name shorter than the 512-byte name field. In the source a longer name overflows the field's `memcpy`.
- Symbols.SizeValue: `int(s, 16)` also accepts non-ASCII Unicode digits. The model reads only ASCII hex digits, so it gives 0 for such a size.
- Symbols.SortByAddress: states that the result is sorted and a permutation. It does not state that Python's `sorted` is stable.
- Pmm.Alloc: searches with the corrected `MemBitmap.FindRun`. A request for more pages than the bitmap holds therefore gets address 0, where `pmm_alloc_pages` as written is handed index 0 by the wrapped bound of `bitmap_find_contiguous_free`. That case is modelled separately by `MemBitmap.FindContiguousFreeAsWritten`.
- KAllocator.Kalloc: builds on the corrected `LargePages`, `Reserve`, `UserAddr` and `NewPage`. A large request near 4 GiB, an alignment of a page or more, and an address at or above 4 GiB therefore get the intended result, not the as-written one. Each of those cases is modelled by its own `...AsWritten` member under "## Findings".

Operations not modelled, with the reason:
- `scripts/check_deps.py`: the DOT exporter, the statistics report and the command line are output formatting and printing. Reading files is a parameter, a map from path to lines.
- `scripts/avatar_symbols.py`: `search_symbols` (regular expressions), the print functions, the existence check and `readlines` are I/O and regex matching.
- `scripts/add_file_headers.py`: directory walking, reading, writing and the command line are I/O. File contents are given as text.
- FAT32:
  - The VirtIO-backed and file-backed disk modes and `format` are device I/O.
  - The second FAT copy and the sector transfers behind the FAT and directory model are disk I/O.
  - The outcomes of `fat32_init`/`mount` sub-steps are parameters.
  - The cache paths taken when no block can be allocated are dead code, since allocation always succeeds with 16 blocks.
- `mem/bitmap.c`: `bitmap_find_contiguous_free_fs` is the same scan started at a fixed file-system offset.
- `mem/pmm.c`:
  - `pmm_alloc_pages_fs` is the same scan started at a fixed file-system offset.
  - `pmm_mark_allocated` and `pmm_mark_kernel_allocated` are boot-time range marking.
  - The getters are not modelled.
- `mem/kallocator.c`: the getters, `kallocator_info`, `kallocator_cleanup`, `kallocator_is_page_empty`, free-block coalescing and the self-tests depend on memory contents or only print.
- `fs/ramfs.c`:
  - `read`, `write`, `fcntl`, `stat`, `fstat`, the directory iteration and the self-tests move file bytes, which the model represents only by a block identifier.
  - Ramfs.Open takes the new file's block as a parameter instead of allocating it.
- `virtio_frontend/virtio_alloctor.c`: `virtio_get_used_memory`, `virtio_get_free_memory` and `virtio_allocator_info` are getters and printing.
- `virtio_frontend/virtio_block_frontend.c`:
  - `virtio_mmio_init`, `virtio_blk_init`, the sector read and write paths, device scanning and detection are MMIO handshakes with a real device.
  - `virtio_queue_kick` is a single register write.
- `vmm/vdev/virtio/virtio.c`: `virtio_destroy_device`, `virtio_debug_device` and `handle_virtio_mmio_access` are teardown, printing and trap dispatch. The queue-notify and reset callbacks are returned as effects, not run.
- `vmm/vdev/virtio/virtqueue.c`: `virtio_inject_irq` calls into `vgic_inject_spi` for the running VM's task. The model sets the interrupt status bit. Whether a VM is attached is a parameter.
- `task/task.c`:
  - Context switching, `schedule`, `vm_in`/`vm_out` and CPU context saving act on registers and stacks.
  - Spinlocks are concurrency.
  - `create_task`, `create_vm_task`, `reset_task` and the idle-task set-up write stacks and trap frames.
  - The intrusive lists of `lib/list.c` are sequences; `lib/list.c` is not part of this model.
- `main_simple_bash.c`: character I/O through `getc`/`putc` is the keyboard sequence. The directory test is a parameter. The commands other than `cd` print or call the file system.
- `vmm/vdev/vpl011.c`: the timestamp formatting reads a hardware counter. Forwarding to the physical UART is output.
- `vmm/vdev/vtimer.c`: the vtimer pools, the lookups by vCPU and task, and logging are allocation and list walks over state the model takes as given.
- `io/uart_pl011.c`: the hardware FIFO and register accesses. Whether the FIFO is full is a parameter.

## Findings

| source | as written | input that shows it | evidently intended | confidence | as-written member | corrected member |
|---|---|---|---|---|---|---|
| fs/fat32_boot.c:121-140 | `data_start` and the data-sector count are `uint32_t`, so a FAT area past the volume's end wraps instead of being refused | 512-byte sectors, 8 per cluster, 32 reserved, 2 FATs of 70000 sectors, 100000 sectors in total: accepted with a data start past the volume | a volume whose reserved area and FATs do not fit is CORRUPTED | not executed | Fat32Boot.CalculateLayoutAsWritten, Fat32Boot.LayoutAcceptsFatPastEnd | Fat32Boot.CalculateLayout |
| fs/fat32_file.c:447-452 | `file_position + offset` is computed in `uint32_t`, so a forward SEEK_CUR near 4 GiB wraps to a small position | file size 0xFFFFFFFF, position 0xF0000000, SEEK_CUR by 0x20000000: position becomes 0x10000000, behind where it was | the target is clamped to the file size | not executed | Fat32File.SeekAsWritten, Fat32File.SeekCurWrapsBackward | Fat32File.Seek |
| fs/fat32_file.c:1052-1058 | the ceiling division adds `bytes_per_cluster - 1` in `uint32_t`, so a required size near 4 GiB needs 0 clusters | empty file, required size 0xFFFFF001, 4096-byte clusters: nothing is allocated | 0x100000 new clusters are allocated | not executed | Fat32File.ExtendPlanAsWritten, Fat32File.ExtendWrapsNearFourGiB | Fat32File.ExtendPlan |
| fs/fat32_file.c:518-529 | a name of 255 characters is copied with its terminator into `char filename[255]` | a path of 255 `a`s: accepted, and the name needs 256 bytes | a name that does not fit the buffer is INVALID_NAME | not executed | Fat32File.ParsePathAsWritten, Fat32File.LongNameOverflowsBuffer | Fat32File.ParsePath |
| fs/fat32_disk.c:149-156 | `sector_num + sector_count` is a `uint32_t` sum, so a range ending past 2^32 passes the bound | sector 0xFFFFFFFF, count 1 on the 64 MiB disk: accepted | INVALID_PARAM for every range past the disk | not executed | Fat32Disk.CheckAsWritten, Fat32Disk.CheckAcceptsWrappedRange | Fat32Disk.Check |
| fs/ramfs.c:354-371 | a link shares the original's content but gets its own count of 1, so unlinking it frees blocks the original still uses | link "a" to "b", unlink "b": the blocks of "a" are released while "a" still refers to them | a shared block is released only with the last entry using it | not executed | Ramfs.UnlinkAsWritten, Ramfs.UnlinkLinkDangles | Ramfs.Unlink |
| mem/bitmap.c:98 | the loop bound `bitmap->size - count` is a `size_t` difference, which wraps when count exceeds the size | an empty 8-page bitmap and a request for 9 pages: index 0 is returned | -1 when no run of that length fits | not executed | MemBitmap.FindContiguousFreeAsWritten, MemBitmap.ContiguousFreeOverrunsEnd | MemBitmap.FindRun, MemBitmap.FindContiguousFree |
| mem/kallocator.c:104-106 | `pages_needed` adds `PAGE_SIZE - 1` in `uint32_t` | a size of 0xFFFFF001: 0 pages | 0x100000 pages, or a refusal | not executed | KAllocator.LargePagesAsWritten, KAllocator.LargePagesWrap | KAllocator.LargePages |
| mem/kallocator.c:322-379 | the reservation is `align_up(8 + size)` with no room for aligning a block that does not start on the alignment, so the user data runs into the split-off remainder | kalloc(56, 8) on a fresh page, then kalloc(8, 64): the user data lands on the new remainder's record | the reservation covers the aligned user data | not executed | KAllocator.ReserveAsWritten, KAllocator.UserAddrAsWritten, KAllocator.CarveOverlapsRemainder | KAllocator.Reserve, KAllocator.ReserveHoldsUser |
| mem/kallocator.c:424-439 | with an alignment of a page or more, the user address is past the page's end, and `PAGE_SIZE - block_total_size` wraps | kalloc(8, 4096) from a fresh page: user data at page + 4096 and a remainder of 2^32 - 8 bytes | the user data and the remainder stay inside the page | not executed | KAllocator.NewPageAsWritten, KAllocator.NewPageOverruns | KAllocator.NewPage |
| mem/kallocator.c:379 | `~(alignment - 1)` is a 32-bit mask zero-extended to 64 bits, which clears the high half of the address | a block at 2^32 with the default alignment: user address 8 | the address rounded up in 64 bits, 2^32 + 8 | not executed | KAllocator.UserAddrAsWritten, KAllocator.UserAddrTruncates | KAllocator.UserAddr |
| virtio_frontend/virtio_alloctor.c:82 | the alignment mask is a 32-bit `~(alignment - 1)`, which truncates a 64-bit pointer | current pointer 2^32 + 1, alloc(8, 8): address 8, below the pointer | 2^32 + 8 | not executed | VirtioAlloc.AllocAsWritten, VirtioAlloc.AllocAsWrittenTruncates | VirtioAlloc.Alloc |
| virtio_frontend/virtio_alloctor.c:155 | `device_index * VIRTIO_DEVICE_MEMORY_SIZE` is a `uint32_t` product, so a large index wraps onto device 0's slot | device index 0x2000: device 0's base | 0 for an index past the device region | not executed | VirtioAlloc.DeviceBaseAsWritten, VirtioAlloc.DeviceIndexAliases | VirtioAlloc.DeviceBase |
| virtio_frontend/virtio_block_frontend.c:175-193 | `num_free` is set to the requested size before the size is clamped to the device's maximum | 16 requested, 8 offered: an 8-entry table with 16 entries counted free, whose free list revisits entries | the free count is the clamped size | not executed | VirtioFrontend.SetupAsWritten, VirtioFrontend.SetupOvercounts, VirtioFrontend.OvercountRevisits | VirtioFrontend.SetupQueue, VirtioFrontend.SetupReady |
| vmm/vdev/virtio/virtio.c:233-237 | QUEUE_READY is accepted on a queue of size 0 | a reset queue with 1 written to QUEUE_READY: ready with 0 entries, and `virtio_queue_pop` would take an index modulo 0 | READY takes effect only on a queue with entries | not executed | VirtioDevice.ReadyAsWritten, VirtioDevice.ZeroSizedQueueGoesLive | VirtioDevice.SetReady |
| vmm/vdev/vgic.c:453-497 | the free list register is chosen from a copy of ELSR taken before the loop, and the loop does not update that copy | SGIs 0 and 1 pending, every list register free: both are written to list register 0, and SGI 0 is lost | each injection takes a list register that is still free | not executed | Vgic.TryInjectAsWritten, Vgic.StaleElsrLosesSgi | Vgic.TryInject |
| vmm/vdev/vgic.c:393-420 | SPI ids up to 1019 pass the range check, but the pending bitmap has 16 words, covering ids below 512 | SPI 600: its pending word 18 is past the array | ids past the bitmap are refused | not executed | Vgic.InjectSpiAsWritten, Vgic.SpiPastBitmapAccepted | Vgic.InjectSpi |
| vmm/vdev/vgicd.c:109-111 | the read result is stored through a `uint32_t *`, so the upper half of the 64-bit guest register is kept | x0 = 0xFFFFFFFF00000000 reading GICD_CTLR = 1: x0 becomes 0xFFFFFFFF00000001 | a 32-bit load zero-extends into the register | not executed | Vgicd.LoadIntoAsWritten, Vgicd.LoadKeepsUpperHalf | Vgicd.LoadInto |
| vmm/vdev/vgicd.c:181-222 | the SPI enable write uses `gicd_scenabler[reg_idx - 1]` and the read uses `gicd_scenabler[reg_idx]` | set SPI 32 through GICD_ISENABLER1, then read it back: 0; writes to GICD_ISENABLER17 and above fall past the array | read and write use the same word, and only existing words are reachable | not executed | Vgicd.SpiEnableReadAsWritten, Vgicd.SetSpiEnableAsWritten, Vgicd.EnableReadsWrongWord, Vgicd.HighEnableWritePastArray | Vgicd.SpiEnableRead, Vgicd.SetSpiEnable |
| vmm/vdev/vgicd.c:123-124 | register number 31 in a trapped store indexes `r[31]`, the saved stack pointer, though in a load or store it means WZR | a store of WZR to GICD_CTLR with the stack pointer 0x80000: the handler sees 0x80000 | register 31 reads as 0 | not executed | Vgicd.SourceValueAsWritten, Vgicd.ZeroRegisterReadsStackPointer | Vgicd.SourceValue |
| vmm/vdev/vtimer.c:325-351 | the TVAL-change test compares the stored 32-bit TVAL with the 64-bit `cval - now`, so a CVAL more than 2^31 ticks ahead looks like a TVAL write | CVAL 2^32 ahead, nothing changed by the guest: CVAL is rewritten to now and an enabled timer fires at once | the comparison is made in 32 bits, as TVAL is defined | not executed | VTimer.SaveAsWritten, VTimer.FarCvalRewritten | VTimer.Save |
| io/printf.c:176 | `remain = size - 1` is -1 for size 0, and the remaining-room test never reaches 0 | size 0: every character and the NUL are stored | nothing is stored when size is 0 | not executed | Printf.VsnprintfAsWritten, Printf.ZeroSizeOverruns | Printf.Vsnprintf |
| task/task.c:436-442 | a bad core id is logged, and then the ready list of that core is indexed anyway | core id SMP_NUM: memory past the per-core arrays is read and written | a bad core id changes nothing | not executed | Tasks.AddReadyTailRemoteAsWritten, Tasks.RemoteBadCoreOverruns | Tasks.AddReadyTailRemote |
| scripts/add_file_headers.py:280-283 | a pattern is matched by `endswith` or by substring, so `*.a`, meant for archives, matches inside every `.asm` path | any `.asm` source: skipped, though it has a template | patterns match as suffixes | not executed | FileHeaders.ExcludedAsWritten, FileHeaders.AsmSourceExcluded | FileHeaders.Excluded |
