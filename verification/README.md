# Verification of the Pegasos 2 firmware

A Dafny model of the parts of the firmware whose correctness is a statement
about every input, every run or every tree, with proofs of those statements.

* **PCI enumeration** (`Pci*.dfy`). One host bridge is a tree of functions with
  configuration registers. `PciHardware` says how registers store values and
  how bridges route a configuration cycle from a bus number to a physical bus,
  `PciPlan` what the three high-water allocators and the bus counter do along
  the tree, and `PciWalker` is the enumerator itself, which sees the hardware
  only through numbered configuration cycles. Every access it makes carries the
  proof that the bridges claiming the target number are exactly those above the
  bus, with the bridges being walked open to 0xFF. `PciTheorems` reads the
  final registers back and states what they mean.
* **x86 emulator core** (`X86*.dfy`). Carry and borrow chains against the
  architectural flags, conditional jumps, multi-word arithmetic, the portable
  multiplication and division, and software interrupts with their return.
  The flag and mask formulas are taken bit by bit, with C's operators as
  `Bits.dfy` defines them; shifts by constants and masks of low bits are
  quotients and remainders.
* **On-disk indexes.** The SFS extent tree, the PFS3 anode tree, FFS hashed
  directories and exFAT cluster chains, each against the plain list, table or
  scan it stands for. Blocks are bytes, and the fields are decoded from them.
* **Loaders and stateful I/O.** The two-pass ELF loader and the stack top it
  leads to, the receive ring under preemption, the partition cursor, and DMA
  reads with their fallback.

`dafny verify dfyconfig.toml` checks everything.

Three promises do not hold as the code stands, and are stated with the exact
condition under which they do: JNL (`X86Jumps.NotLessExactly`), unsigned 32-bit
multiplication (`X86Wide.LimbMultiply`) and division overflow
(`X86Wide.DivisionExactly`). Two more limits are LBA-28 addressing
(`IdeDma.LbaRoundTrip`) and the 30-bit FAT index of exFAT (`Exfat.FatOnDisk`).

Where comments and code differ the code is followed: the interrupt vectors
point at 32 different stubs, not at one (`machdep/pegasos2/x86_glue.c:114-116`),
and long FFS names start 184 bytes before the end of the block, not 92
(`machdep/pegasos2/of/amiga_ffs.c:236-254`). A pending interrupt other than 0
and 2 is delivered while IF is clear (`upstream/x86emu/x86emu/decode.c:141-142`).

## Model

| member | source | states |
|---|---|---|
| PciTheorems.WindowsExact | machdep/pegasos2/pci_walker.c:432-515 | For every bridge tree: the window decoded from a bridge's base and limit registers contains every BAR and ROM range of its space below the bridge and meets no range that is not below it; the range of a 64-bit BAR is read from both its halves |
| PciTheorems.MemoryKindsApart | machdep/pegasos2/pci_walker.c:442-458 | No memory window holds the range of a BAR with type bit 3 set, and no prefetchable window that of a memory BAR with it clear or of a ROM |
| PciTheorems.RangeByKind | machdep/pegasos2/pci_walker.c:91-113 | By the type bits of the register: an I/O range lies in [0x1000, 0x10000), a prefetchable one in [0xA0000000, 0xC0000000), any other BAR or ROM in [0x80000000, 0xA0000000) |
| PciTheorems.SpaceIs | machdep/pegasos2/pci_walker.c:210-220 | A block is taken from the allocator of the kind its register has: bit 0 set is I/O, bit 3 of a memory BAR prefetchable, ROMs plain memory |
| PciTheorems.EmptyWindowCloses | machdep/pegasos2/pci_walker.c:334-337 | A bridge with no range of a space below it forwards nothing in that space |
| PciTheorems.WindowsTight | machdep/pegasos2/pci_walker.c:494-510 | Some range below a bridge ends in the last granule of its window |
| PciTheorems.WindowsTreeOrdered | machdep/pegasos2/pci_walker.c:465-510 | Any two bridges' decoded windows of a space are nested when one bridge is above the other and disjoint otherwise |
| PciTheorems.PathDecodes | machdep/pegasos2/pci_walker.c:412-492 | A function with a range, and every bridge above it, has the MEM or IO decode bit of that range's space set |
| PciTheorems.BlocksDisjoint | machdep/pegasos2/pci_walker.c:186-280 | Any two ranges programmed on the host in one space, ROMs included, are disjoint, whichever functions hold them |
| PciTheorems.BlockFitsRegister | machdep/pegasos2/pci_walker.c:206-224 | Every programmed range has exactly the size its register decodes and is aligned to that size |
| PciTheorems.RangesPacked | machdep/pegasos2/pci_walker.c:221-222 | Two ranges of a space that a function takes one after the other leave no gap the second would fit in |
| PciTheorems.EveryBarServed | machdep/pegasos2/pci_walker.c:196-250 | Every implemented BAR is given a range unless it is the upper half of a 64-bit BAR that is |
| PciTheorems.RegistersServed | machdep/pegasos2/pci_walker.c:196-277 | Every implemented register of a reached function is given a block: expansion ROMs, and BARs that are no upper half |
| PciTheorems.SlotKinds | machdep/pegasos2/pci_walker.c:521-534 | What is scanned and what counts as a bridge, from the header type byte and the class bytes 06 and 04; two BARs for bridges, six otherwise |
| PciTheorems.NumbersDense | machdep/pegasos2/pci_walker.c:433-433 | Bus numbers are handed out from 1 on without gaps, none below a bridge being lower than its own |
| PciTheorems.ClaimsSubtree | machdep/pegasos2/pci_walker.c:512-514 | After the walk a bridge claims a bus number if and only if it is the number of a bus in its own subtree |
| PciTheorems.EveryBusRouted | machdep/pegasos2/pci_walker.c:432-440 | After the walk a configuration cycle for the number of any bus reaches that bus and no other, unscanned bridges included |
| PciWalker.Walker.Walk | machdep/pegasos2/pci_walker.c:538-549 | A walk of one host programs every reachable function as planned (ranges, decode bits, windows, bus numbers) and changes no register of any other |
| PciWalker.Walker.constructor | machdep/pegasos2/pci_walker.c:111-113 | The allocators start at 0x80000000, 0xA0000000 and 0x1000 |
| PciWalker.Walker.ScanBus | machdep/pegasos2/pci_walker.c:518-536 | Scanning a bus leaves the allocators where the plan says, everything reachable below it programmed, the rest untouched, and the routing to the bus itself intact |
| PciWalker.Walker.ScanDevice | machdep/pegasos2/pci_walker.c:521-535 | Functions 1 to 7 are scanned only behind a multi-function function 0; absent devices change nothing |
| PciWalker.Walker.ScanFunction | machdep/pegasos2/pci_walker.c:390-516 | One function and everything below it is programmed, and only that |
| PciWalker.Walker.ScanBridge | machdep/pegasos2/pci_walker.c:432-515 | A bridge is opened, its bus walked and the bridge closed, with the allocators and open bus numbers handed on as planned |
| PciWalker.Walker.NumberBridge | machdep/pegasos2/pci_walker.c:433-440 | After the three bus-number writes, with SUBORDINATE 0xFF, the new bus is routed to and every later number still reaches it |
| PciWalker.Walker.OpenBridge | machdep/pegasos2/pci_walker.c:433-458 | The bridge takes the next bus number and the three allocators are padded to the window granularity |
| PciWalker.Walker.CloseBridge | machdep/pegasos2/pci_walker.c:467-514 | Windows, forwarding bits, padding and SUBORDINATE are set from where the allocators ended |
| PciWalker.Walker.ProgramWindows | machdep/pegasos2/pci_walker.c:315-377 | The six window registers hold the encodings of the three windows and nothing else of the bridge changes |
| PciWalker.Walker.Forward | machdep/pegasos2/pci_walker.c:471-492 | The command register keeps its bits and gains exactly the memory bit for a non-empty memory or prefetchable window and the I/O bit for a non-empty I/O window |
| PciWalker.Walker.BarProbe | machdep/pegasos2/pci_walker.c:141-163 | The probe returns the size implied by the writable bits and the flag bits, and leaves every register as it was |
| PciWalker.Walker.ClassifyBar | machdep/pegasos2/pci_walker.c:197-216 | The probe and the type-bit tests find the space, size and 64-bit kind of the BAR as the hardware has them |
| PciWalker.Walker.Take | machdep/pegasos2/pci_walker.c:217-222 | The block handed out is the allocator rounded up to the block size, and the allocator ends just after it |
| PciWalker.Walker.AssignBar | machdep/pegasos2/pci_walker.c:196-250 | The register of an implemented BAR holds an aligned block of its space under its type bits, and the upper half of a 64-bit BAR holds 0; an unimplemented one takes nothing |
| PciWalker.Walker.AssignRom | machdep/pegasos2/pci_walker.c:252-277 | An implemented expansion ROM gets a memory block and its enable bit |
| PciWalker.Walker.AssignBars | machdep/pegasos2/pci_walker.c:186-280 | All of a function's registers hold their planned blocks, below 4 GiB, the upper halves of 64-bit BARs being skipped as registers of their own, and the returned bits name exactly the decoders needed |
| PciWalker.Walker.EnableDecoders | machdep/pegasos2/pci_walker.c:412-430 | The command register keeps its bits and gains exactly the decode bits the ranges need, with bus mastering if there is any range |
| PciWalker.Walker.EndRange | machdep/pegasos2/pci_walker.c:512-514 | SUBORDINATE becomes the last number handed out |
| PciWalker.Walker.CfgWrite | machdep/pegasos2/pci_walker.c:435-440 | A write addressed by bus number changes one register of the intended function; it can be made only where that bus number is claimed exactly by the bridges above the bus |
| PciBars.ProbeFindsSize | machdep/pegasos2/pci_walker.c:141-163 | Writing the probe value and reading it back yields the decoded size for every BAR or ROM whose address bits are a top run, and writing the saved value restores the register (section 6.2.5.1 of PCI Local Bus 2.3) |
| PciBars.BaseStored | machdep/pegasos2/pci_walker.c:224-225 | An aligned base combined with the type bits is stored by the BAR exactly |
| PciAssign.AlignUpRounds | machdep/pegasos2/pci_walker.c:115-119 | The mask expression is the least multiple of the power of two that is not below the value |
| PciWindows.MemWindowDecodes | machdep/pegasos2/pci_walker.c:296-301 | The encoded pair decodes to the window padded to 1 MiB, and an empty window decodes to nothing |
| PciWindows.IoWindowDecodes | machdep/pegasos2/pci_walker.c:303-308 | The encoded pair decodes to the window padded to 4 KiB, for windows ending at or below 0x10000, and an empty window decodes to nothing |
| PciLayout.RangesDisjoint | machdep/pegasos2/pci_walker.c:217-222 | Any two blocks the allocators hand out in one space over the whole walk are disjoint |
| PciLayout.RangeAligned | machdep/pegasos2/pci_walker.c:221-222 | Every block handed out is naturally aligned |
| PciLayout.SecondariesDistinct | machdep/pegasos2/pci_walker.c:433-433 | Bus numbers are pairwise distinct |
| PciLayout.SubtreeBuses | machdep/pegasos2/pci_walker.c:512-514 | The numbers from SECONDARY to SUBORDINATE are exactly those of the buses in the subtree |
| PciPlan.BusMonotone | machdep/pegasos2/pci_walker.c:450-458 | Over any stretch of a bus the allocators and the bus counter never move backwards |
| PciRouting.RouteReaches | machdep/pegasos2/pci_walker.c:432-465 | If the bridges claiming a bus number are exactly those above a bus, a cycle for that number reaches that bus |
| PciRouting.Descend | machdep/pegasos2/pci_walker.c:432-440 | Opening a bridge keeps routing right for the bus behind it and all numbers not yet given out |
| PciRouting.Ascend | machdep/pegasos2/pci_walker.c:465-514 | After a subtree has been numbered and closed, routing is still right for the bus above it |
| X86Parity.TableCountsBits | upstream/x86emu/x86emu/prim_ops.c:106-140 | The parity table says whether the low byte has an even number of bits set |
| X86Flags.FlagPositions | upstream/x86emu/include/x86emu/regs.h:200-208 | The flags sit at their architectural places in the flag word |
| X86Status.AddMeaning | upstream/x86emu/x86emu/prim_ops.c:187-197 | add and adc at 8, 16 and 32 bits leave the exact sum and exactly the architectural CF, OF, AF, ZF, SF and PF, with every other flag as before (section 3.4.3.1 of volume 1 of the Intel SDM) |
| X86Status.SubMeaning | upstream/x86emu/x86emu/prim_ops.c:199-209 | sub, sbb and cmp likewise, through the borrow chain |
| X86Status.IncMeaning | upstream/x86emu/x86emu/prim_ops.c:569-608 | inc is an addition of one that leaves CF as it was |
| X86Status.DecMeaning | upstream/x86emu/x86emu/prim_ops.c:523-562 | dec is a subtraction of one that leaves CF as it was |
| X86Status.CarryOut | upstream/x86emu/x86emu/prim_ops.c:325-394 | The three ways of finding the carry out (bit of the wide sum, comparison with the operands, 16-bit halves) all decide whether the sum overflows |
| X86Flags.CarryChainBit | upstream/x86emu/x86emu/prim_ops.c:191-191 | Bit k of the carry chain is the carry out of bit k of the sum |
| X86Flags.BorrowChainBit | upstream/x86emu/x86emu/prim_ops.c:203-203 | Bit k of the borrow chain is the borrow out of bit k of the difference |
| X86Jumps.JumpsDecide | upstream/x86emu/x86emu/ops2.c:74-142 | After cmp at every width and for all operands JB, JNB, JBE, JNBE decide unsigned order, JL, JLE, JNLE signed order, JZ, JNZ equality, JO, JNO signed overflow, JS, JNS the sign and JP, JNP the bit count of the low byte of the difference |
| X86Jumps.NotLessExactly | upstream/x86emu/x86emu/ops2.c:128-131 | JNL as written is right if and only if the signed difference does not fall below the range of the width |
| X86Jumps.NotLessCanFail | upstream/x86emu/x86emu/ops2.c:68-68 | 0x80000000 compared with 1 is less, and JNL jumps |
| X86Limbs.AddChainAdds | upstream/x86emu/x86emu/prim_ops.c:325-394 | add then adc over limb sequences of any length, with inc and dec between limbs, is addition of whole numbers with the final CF as the digit that does not fit |
| X86Limbs.SubChainSubtracts | upstream/x86emu/x86emu/prim_ops.c:1708-1786 | sub then sbb likewise for subtraction, the final CF being the borrow |
| X86Limbs.FinalCarry | upstream/x86emu/x86emu/prim_ops.c:383-394 | The final CF of the addition says exactly whether the sum overflows the limbs, and that of the subtraction whether the first number is smaller |
| X86Limbs.StepKeepsCarry | upstream/x86emu/x86emu/prim_ops.c:553-608 | inc_long and dec_long between limbs leave the carry intact |
| X86Wide.ImulLongDirect | upstream/x86emu/x86emu/prim_ops.c:1926-1948 | The limb multiplication gives the exact signed 64-bit product of every operand pair, 0x80000000 included, with no 32-bit intermediate overflowing |
| X86Wide.MagnitudesFit | upstream/x86emu/x86emu/prim_ops.c:1938-1942 | The middle limb of the product of two signed magnitudes fits 32 bits |
| X86Wide.LimbMultiply | upstream/x86emu/x86emu/prim_ops.c:2018-2031 | The unsigned limb product is the true product, less 2^48 exactly when the middle limb does not fit 32 bits |
| X86Wide.UnsignedCanFail | upstream/x86emu/x86emu/prim_ops.c:2028-2028 | 0xFFFFFFFF squared is such a product |
| X86Wide.RestoringDivision | upstream/x86emu/x86emu/prim_ops.c:2239-2271 | The 33-step loop leaves the quotient, saturated at 33 one bits and cut to 32, and the matching remainder, for every 64-bit dividend and nonzero divisor |
| X86Wide.DivisionExactly | upstream/x86emu/x86emu/prim_ops.c:2250-2276 | div_long divides or raises as DIV should if and only if the divisor is 0, or EDX is below it, or the dividend exceeds it times 2^33 |
| X86Wide.DivisionCanFail | upstream/x86emu/x86emu/prim_ops.c:2272-2276 | 2^32 divided by 1 raises nothing and returns 0 |
| X86Cpu.Cpu.constructor | machdep/pegasos2/x86_glue.c:45-48 | A machine with a 1 MiB buffer and no interrupt pending |
| X86Cpu.Cpu.Add | upstream/x86emu/x86emu/prim_ops.c:353-394 | The flag updates in order leave the result and every flag as the architecture defines them |
| X86Cpu.Cpu.Adc | upstream/x86emu/x86emu/prim_ops.c:290-347 | The same with the carry in |
| X86Cpu.Cpu.Subtract | upstream/x86emu/x86emu/prim_ops.c:1662-1786 | The same for sub and sbb |
| X86Cpu.Cpu.Cmp | upstream/x86emu/x86emu/prim_ops.c:441-480 | The flags of the subtraction, and the first operand handed back |
| X86Cpu.Cpu.Inc | upstream/x86emu/x86emu/prim_ops.c:569-608 | Result and flags, CF unchanged |
| X86Cpu.Cpu.Dec | upstream/x86emu/x86emu/prim_ops.c:523-562 | Result and flags, CF unchanged |
| X86Cpu.Cpu.ImulLong | upstream/x86emu/x86emu/prim_ops.c:1956-1967 | EDX:EAX is the exact signed product; CF and OF are set exactly when it needs more than 32 bits |
| X86Cpu.Cpu.MulLong | upstream/x86emu/x86emu/prim_ops.c:2010-2040 | EDX:EAX is the product less 2^48 when the middle limb wraps; CF and OF follow EDX |
| X86Cpu.Cpu.DivLong | upstream/x86emu/x86emu/prim_ops.c:2239-2285 | Quotient, remainder and flags, or interrupt 0 with registers and flags as they were |
| X86Cpu.Cpu.PushWord | upstream/x86emu/x86emu/prim_ops.c:2393-2399 | SP moves down by two with 16-bit wrap and the word is stored there, each byte wrapping at 1 MiB |
| X86Cpu.Cpu.PopWord | upstream/x86emu/x86emu/prim_ops.c:2421-2430 | The inverse read |
| X86Cpu.Cpu.FetchByte | upstream/x86emu/x86emu/decode.c:202-211 | The byte at CS:IP, and IP one further with wrap |
| X86Cpu.Cpu.OpInt | upstream/x86emu/x86emu/ops.c:3547-3573 | The number is fetched, flags, CS and IP are pushed, IF and TF cleared, and control is at the vector |
| X86Cpu.Cpu.OpIret | upstream/x86emu/x86emu/ops.c:3606-3618 | IP, CS and flags popped |
| X86Cpu.Cpu.ExecOne | upstream/x86emu/x86emu/decode.c:146-147 | One fetch and dispatch, for the opcodes 0xCD and 0xCF; any other is reported |
| X86Cpu.Cpu.IntrHandle | upstream/x86emu/x86emu/decode.c:48-68 | A synchronous pending interrupt is entered through its vector and is no longer pending; any other is left |
| X86Cpu.Cpu.ExecPass | upstream/x86emu/x86emu/decode.c:129-147 | One pass of the loop: halt, deliver a pending interrupt that is due, then one instruction, which may already be the first of the handler |
| X86Cpu.Cpu.Exec | upstream/x86emu/x86emu/decode.c:90-153 | The loop makes the passes one after the other, ends, and halts the machine after one pass fewer than the limit |
| X86Cpu.Cpu.CallInterrupt | upstream/x86emu/x86emu/ops.c:3547-3618 | INT n and the stub's IRET leave every general and segment register, SP and the low 16 flags as they were, IP after the instruction, all memory outside the six frame bytes unchanged, and every vector the frame misses ready for the next time |
| X86Cpu.Cpu.DivideByZero | upstream/x86emu/x86emu/prim_ops.c:2248-2251 | A division by zero and the next pass deliver and return from interrupt 0 whatever IF is, with EAX, EDX, CS, IP, SS, SP and the low 16 flags as before |
| X86Cpu.Cpu.IvtInit | machdep/pegasos2/x86_glue.c:127-146 | 32 vectors point at 32 IRET stubs and no other byte of memory changes |
| X86Interrupt.InterruptReturns | upstream/x86emu/x86emu/ops.c:3547-3618 | INT n for n below 0x20 followed by the stub's IRET resumes after the instruction with CS, SS, SP and the low 16 flags restored and only the six frame bytes changed, for every SS:SP whose frame misses the vector and the stub |
| X86Interrupt.FrameDistinct | upstream/x86emu/x86emu/prim_ops.c:2393-2399 | The six bytes of an interrupt frame are six different bytes for every SS:SP, wrap included |
| X86Interrupt.EntersStub | machdep/pegasos2/x86_glue.c:127-146 | Delivering interrupt n arrives at F000:1000+n with IF and TF off, the frame in place and the vector untouched |
| X86Interrupt.PendingReturns | upstream/x86emu/x86emu/decode.c:129-147 | A raised interrupt 0 or 2 whatever IF is, and any other below 0x20 while IF is clear, is delivered and returned from in a single pass, after which the program goes on where it was with nothing pending |
| X86Interrupt.PendingWaits | upstream/x86emu/x86emu/decode.c:141-147 | Any other number waits while IF is set: the pass is exactly one instruction and the interrupt stays pending |
| X86Interrupt.FrameLayout | upstream/x86emu/x86emu/ops.c:3561-3567 | The frame on the stack is IP, CS and the flags from the top down, six bytes below the old SP, and only bits 8 and 9 of the flags are cleared |
| X86Interrupt.RunsOut | upstream/x86emu/x86emu/decode.c:114-122 | A program still running at the limit is halted there |
| X86Interrupt.HaltStops | upstream/x86emu/x86emu/decode.c:129-140 | Bit 2 of the pending word ends the loop before any instruction |
| Sfs.LookupExactly | machdep/pegasos2/of/amiga_sfs.c:543-604 | On a well-ordered tree of at most 32 levels, given by the bytes of its blocks, the lookup is the first match of the flattened list of extents: found if and only if the key is there, otherwise E_NO_FILE |
| Sfs.AcceptableExactly | machdep/pegasos2/of/amiga_sfs.c:555-567 | A container is used if and only if its bytes are "BNDC", an entry size of 8 to 64 and at least one entry, all of them inside the block |
| Sfs.SearchFails | machdep/pegasos2/of/amiga_sfs.c:550-567 | An unreadable block is a device error; a null child, a 33rd level or a container that does not pass the checks ends the search with E_NO_FILE |
| Sfs.EncodedLookup | machdep/pegasos2/of/amiga_sfs.c:569-581 | A leaf written to disk byte by byte, with one or more entries of any allowed size, is searched exactly |
| Sfs.EncodedNode | machdep/pegasos2/of/amiga_sfs.c:150-167 | An interior container written to disk above written subtrees is read back as that tree |
| Sfs.EncodedLeaf | machdep/pegasos2/of/amiga_sfs.c:150-163 | A leaf container written to disk is read back as that leaf |
| Sfs.SearchFinds | machdep/pegasos2/of/amiga_sfs.c:550-601 | The descent from any stored subtree agrees with a search of all its extents |
| Sfs.PickedChild | machdep/pegasos2/of/amiga_sfs.c:583-600 | The child chosen is the only one whose subtree can hold the key, the leftmost one when the key is below every entry |
| Sfs.LookupExtent | machdep/pegasos2/of/amiga_sfs.c:543-604 | The loops compute the descent on any volume, malformed containers and unreadable blocks included |
| Sfs.ReadFile | machdep/pegasos2/of/amiga_sfs.c:611-650 | The loop over extents computes the guarded chain read, with its error cases |
| Sfs.FileIsPrefix | machdep/pegasos2/of/amiga_sfs.c:611-650 | The file read is the byte_size prefix of the extents laid end to end along next, as found by scanning the flattened tree |
| RunFiles.ReadChainIsPrefix | machdep/pegasos2/of/amiga_sfs.c:619-649 | Following a linked list of runs reads the wanted prefix of their blocks |
| RunFiles.ReadChainTooLong | machdep/pegasos2/of/amiga_sfs.c:620-621 | A chain still short of the size after 65536 runs is a read error |
| RunFiles.ReadChainBreaks | machdep/pegasos2/of/amiga_sfs.c:623-637 | While the read is not satisfied, an error in finding the next run, or a block of it that is needed and cannot be read, is the error of the read |
| RunFiles.CopyRun | machdep/pegasos2/of/amiga_sfs.c:632-643 | The block loop copies the run up to the bytes still wanted, or reports the block it could not read |
| Pfs.DescentIsTable | machdep/pegasos2/of/amiga_pfs3.c:269-311 | The three-level descent is indexing one flat table of anodes, and an error for every number beyond it |
| Pfs.OpenedVolume | machdep/pegasos2/of/amiga_pfs3.c:253-256 | On an opened volume the table has 99 * 125 * 41 entries, and every index entry and anode read lies inside its 512-byte block |
| Pfs.AnodeOnDisk | machdep/pegasos2/of/amiga_pfs3.c:269-311 | From the bytes of the root, index and anode blocks: anode (125i + j) * 41 + k is the twelve bytes k of anode block j of index block i, or the error a null pointer, an unreadable block or wrong letters give |
| Pfs.OpenExactly | machdep/pegasos2/of/amiga_pfs3.c:218-245 | The root block is accepted exactly when its bytes pass the six checks |
| Pfs.GetAnode | machdep/pegasos2/of/amiga_pfs3.c:269-311 | The division steps, block loads and identifier checks compute the descent |
| Pfs.Open | machdep/pegasos2/of/amiga_pfs3.c:214-264 | An accepted root block gives 41 anodes a block, 125 entries an index block and 99 index pointers |
| Pfs.ReadFile | machdep/pegasos2/of/amiga_pfs3.c:444-481 | The loop over anodes computes the guarded chain read |
| Pfs.FileIsPrefix | machdep/pegasos2/of/amiga_pfs3.c:444-481 | The file read is the byte_size prefix of the clusters along the chain of the flat table |
| Ffs.SameNameSameBucket | machdep/pegasos2/of/amiga_ffs.c:216-235 | Names equal under folding hash to the same bucket |
| Ffs.SameNameExactly | machdep/pegasos2/of/amiga_ffs.c:201-235 | Two names are equal if and only if they have the same length and at each place the same byte or the two cases of an ASCII letter or, on International volumes, of 0xE0 to 0xFE without 0xF7 |
| Ffs.HashExactly | machdep/pegasos2/of/amiga_ffs.c:210-223 | The bucket in closed form: length and folded characters as digits to the base 13, modulo 2048, modulo the number of buckets |
| Ffs.EntryOnDisk | machdep/pegasos2/of/amiga_ffs.c:242-253 | Type, next block and name are read from their places in the bytes of an entry block, for both name formats |
| Ffs.BucketOnDisk | machdep/pegasos2/of/amiga_ffs.c:324-324 | The head of bucket i is read from byte 24 + 4i of the directory block |
| Ffs.FoldingIsIdempotent | machdep/pegasos2/of/amiga_ffs.c:201-208 | A name and its folded form are equal and share a bucket |
| Ffs.WalkStops | machdep/pegasos2/of/amiga_ffs.c:326-340 | A chain is searched up to its first block that cannot be read or does not start with the header type, and no further |
| Ffs.LookupIsScan | machdep/pegasos2/of/amiga_ffs.c:319-342 | On a directory whose entries are headers in their own buckets, hashed lookup returns what the first match over all buckets returns |
| Ffs.ScanExactly | machdep/pegasos2/of/amiga_ffs.c:476-502 | A scan returns an entry with the name, or 0 exactly when no entry has it |
| Ffs.NameHash | machdep/pegasos2/of/amiga_ffs.c:216-223 | The loop computes the hash of the folded name |
| Ffs.NameEq | machdep/pegasos2/of/amiga_ffs.c:226-235 | The loop decides equality of the folded names |
| Ffs.LookupInHash | machdep/pegasos2/of/amiga_ffs.c:319-342 | The chain walk returns the first header of its bucket with the name, stopping at an unreadable block or one that is no header |
| Ffs.ListDirectory | machdep/pegasos2/of/amiga_ffs.c:476-502 | The listing visits every block of every bucket in order, and a prefix of them if a block cannot be read |
| Ffs.ListChain | machdep/pegasos2/of/amiga_ffs.c:481-500 | One chain is visited in order to its end |
| ElfLoader.Loader.Load | machdep/pegasos2/of/boot_kernel.c:162-272 | Success if and only if the image is acceptable; a rejection changes no memory; success leaves memory as placing the segments one after the other does, overlap with the image included, provided no segment overwrites a program header still to be read |
| ElfLoader.Loader.Validate | machdep/pegasos2/of/boot_kernel.c:196-243 | Pass 1 accepts exactly the header tables whose loadable segments all pass the checks, and finds the entry and the highest end |
| ElfLoader.AcceptedExactly | machdep/pegasos2/of/boot_kernel.c:126-243 | Which images are accepted, from the bytes of the ELF and program headers: identity, type, machine, table size and place, every loadable segment below 0xFFF00000, and the entry in one of them |
| ElfLoader.NotElf | machdep/pegasos2/of/boot_kernel.c:135-137 | Anything that does not start with the four magic bytes is refused |
| ElfLoader.Loader.Place | machdep/pegasos2/of/boot_kernel.c:258-266 | For every accepted segment, overlapping its own source or not: the bytes the upward copy yields, then zeros, and nothing else changed |
| ElfLoader.Loader.PlaceAll | machdep/pegasos2/of/boot_kernel.c:245-267 | Pass 2, which reads the headers again from memory, places the segments that pass 1 saw, in order, provided none overwrites a header still to be read |
| ElfLoader.LastSegmentWins | machdep/pegasos2/of/boot_kernel.c:246-267 | The byte at an address comes from the last segment that covers it |
| ElfLoader.LoadedByte | machdep/pegasos2/of/boot_kernel.c:257-266 | An address holds the file byte, or the zero, of the last segment covering it, if that segment copies cleanly and no earlier one overwrote the byte |
| ElfLoader.DownwardIsClean | machdep/pegasos2/of/boot_kernel.c:274-291 | A segment whose destination is not above its bytes in the image, as when an image is loaded at its link address, copies cleanly |
| ElfLoader.UpwardRepeats | machdep/pegasos2/of/boot_kernel.c:263-264 | A segment moved up by d over its own source becomes the first d bytes of its file part, repeated |
| ElfLoader.LoadedImage | machdep/pegasos2/of/boot_kernel.c:228-243 | Nothing at or above 0xFFF00000 changes and the entry lies in a segment below it |
| ElfLoader.StackAboveImage | machdep/pegasos2/of/boot_kernel.c:308-315 | After a successful load the overflow fallback cannot be taken, and both handoff paths compute the same 16-byte aligned stack top, 4 KiB above the highest end of a segment |
| ElfLoader.StackTops | machdep/pegasos2/of/machine_hooks.c:98-101 | The same for every image end at or below the flash |
| RxRing.PoppedIsPrefix | machdep/pegasos2/extint.c:178-186 | Along every interleaving of handler and consumer the bytes popped are a prefix of the bytes accepted |
| RxRing.Conservation | machdep/pegasos2/extint.c:138-146 | What the calls returned is what was popped, and every received byte was accepted or dropped |
| RxRing.DropsOnlyWhenFull | machdep/pegasos2/extint.c:139-143 | A byte is dropped exactly when 127 are outstanding, in every reachable state |
| RxRing.SlotStable | machdep/pegasos2/extint.c:181-184 | However many bytes arrive between the emptiness test and the store of the tail, the slot being popped is not overwritten |
| RxRing.NothingMeansEmpty | machdep/pegasos2/extint.c:181-182 | A pop reports nothing only if nothing was outstanding when it read the head |
| RxRing.PopCompletes | machdep/pegasos2/extint.c:178-186 | A pop started with a byte waiting completes in six steps of its own, whatever arrives in between: it returns the oldest byte and moves the tail past it |
| RxRing.EmptyPop | machdep/pegasos2/extint.c:181-182 | An undisturbed pop of an empty ring takes two steps, returns nothing and changes nothing |
| RxRing.StepsArePop | machdep/pegasos2/extint.c:178-186 | The single steps add up to an undisturbed call of the function |
| RxRing.After | machdep/pegasos2/extint.c:109-186 | Every run of events keeps the ring invariant |
| RxRing.Ring.Handle | machdep/pegasos2/extint.c:137-146 | The drain loop appends the received bytes that fit and drops the rest |
| RxRing.Ring.Pop | machdep/pegasos2/extint.c:177-186 | Removes the oldest byte, or returns -1 when there is none; the same value and tail as the single steps |
| Partition.Window.constructor | machdep/pegasos2/of/partition_pkg.c:122-138 | A new instance has its cursor at 0 |
| Partition.Window.Seek | machdep/pegasos2/of/partition_pkg.c:220-243 | The cursor moves to positions up to the size and stays put, with -1, otherwise |
| Partition.Window.Read | machdep/pegasos2/of/partition_pkg.c:252-315 | The bytes returned are the disk bytes at start plus cursor, clipped to the partition and cut at the first block not delivered; the cursor advances by their number; no block outside the partition is asked for |
| Partition.Window.Chunk | machdep/pegasos2/of/partition_pkg.c:285-311 | One block fetched, and the wanted part of it |
| Partition.Window.ReadBlocks | machdep/pegasos2/of/partition_pkg.c:193-217 | Forwarded to the parent at the partition's first block plus the given one: the disk bytes at that block, when all of them can be read |
| Partition.BlocksAgreeWithCursor | machdep/pegasos2/of/partition_pkg.c:193-315 | read-blocks of block b agrees with a seek to b * 512 and a read |
| Partition.PiecewiseIsWhole | machdep/pegasos2/of/partition_pkg.c:284-311 | However a stretch is cut into reads, they return together the bytes one read of the total returns, and leave the same cursor |
| Partition.GeometryAligned | machdep/pegasos2/of/partition_pkg.c:427-434 | Geometry that fits 64 bits gives a window of whole blocks from its first cylinder to the end of its last, a block being four bytes for every long |
| IdeDma.Channel.ReadBlocks | machdep/pegasos2/of/ide_dma.c:398-467 | For every request and every pattern of chunk failures: the count pushed is the number of sectors in the buffer, in order, each from the address the registers decode to; for requests within 28 bits these are the sectors asked for; it is the whole count if the fallback completes or no chunk fails; nothing outside the buffer changes |
| IdeDma.Channel.constructor | machdep/pegasos2/of/ide_dma.c:255-260 | A channel over a medium, a drive number and memory |
| IdeDma.Channel.ReadChunks | machdep/pegasos2/of/ide_dma.c:434-446 | The sectors read before a chunk fails are in the buffer, whatever the failed chunk left behind them |
| IdeDma.GatheredExactly | machdep/pegasos2/of/ide_dma.c:441-442 | A request ending within 28 bits gets its own sectors wherever the fallback takes over |
| IdeDma.BeyondIsWrong | machdep/pegasos2/of/ide_dma.c:311-312 | A request starting at or beyond block 2^28 and served by DMA gets its first sector from another block |
| IdeDma.Channel.DmaReadOne | machdep/pegasos2/of/ide_dma.c:255-330 | What the hardware does with the descriptor and task file written is the transfer that was asked for, modulo 2^28 in the address |
| IdeDma.PrdRoundTrip | machdep/pegasos2/of/ide_dma.c:262-271 | The byte-swapped descriptor is read back by the little-endian bus master as the buffer address, the byte count (0 meaning 64 KiB) and the end mark |
| IdeDma.LbaRoundTrip | machdep/pegasos2/of/ide_dma.c:311-330 | The task file decodes to the block modulo 2^28, hence to the block if and only if it fits 28 bits, and to the sector count and drive |
| Exfat.ModesAgree | machdep/pegasos2/of/fs_exfat.c:512-550 | Where the FAT links the needed clusters consecutively, contiguous mode and FAT mode read the same, errors included |
| Exfat.ContentsIsPrefix | machdep/pegasos2/of/fs_exfat.c:512-550 | In either mode the bytes read are the wanted prefix of the clusters in order |
| Exfat.ContentsBreaks | machdep/pegasos2/of/fs_exfat.c:525-529 | A sector that is needed and cannot be read is the error of the read |
| Exfat.FileIsPrefix | machdep/pegasos2/of/fs_exfat.c:520-522 | The same for a whole read, up to its limit of 100000 clusters |
| Exfat.FatOnDisk | machdep/pegasos2/of/fs_exfat.c:215-231 | The FAT is one array of little-endian words indexed by cluster, the index taken modulo 2^30 |
| Exfat.ClusterOnDisk | machdep/pegasos2/of/fs_exfat.c:233-240 | The clusters, from number 2 on, cut the image of the heap into consecutive pieces |
| Exfat.InHeapExactly | machdep/pegasos2/of/fs_exfat.c:218-219 | A number is that of a cluster if and only if there are that many clusters |
| Exfat.ReadContents | machdep/pegasos2/of/fs_exfat.c:512-550 | The loops compute the guarded cluster read |

## Left out

- Two PCI hosts: the walk of one host is modelled; the second runs the same code on its own allocators.
- PCI registers below the dword: 8- and 16-bit accesses are updates of one typed register; the read-modify-write of the surrounding dword, and the write-one-to-clear status bits in it, are not modelled.
- PCI topologies the walk does not promise to handle: allocators leaving their ranges, I/O at or above 0x10000, more than 255 bridges, BARs whose writable bits are not one top run, an implemented 64-bit BAR in the last slot, a 64-bit BAR of 4 GiB and more, and bridges that claim bus numbers before they are scanned.
- X86Cpu.Cpu.ExecOne: only INT and IRET are modelled, the other opcodes being reported as unknown.
- X86Cpu.Cpu.Exec: it gives up at an opcode outside the model; tracing and the debug exit are not modelled.
- X86Cpu.Cpu.OpInt: the table of emulator-side handlers is empty, as the firmware never installs any.
- X86 signed division, byte and word division, rotates and shifts, decimal adjustment, string and port instructions.
- BIOS data area initialisation and port I/O routing of the emulator glue.
- SFS, PFS3 and FFS path walking, SFS and FFS volume opening, checksums, directory listings other than the FFS traversal, and FFS file contents.
- SFS leaf entries shorter than 14 bytes and FFS names running past their block: bytes past the end of a block read as 0 here.
- A failed file read: the bytes already copied into the caller's buffer are not described, only the error.
- FFS chains that loop: lookup and listing do not end on them, and the model asks for finite chains.
- exFAT directory walking, names, volume opening and sector sizes other than 512.
- Partition.Window.Read: block size 512 only, the size of the buffer it reads through.
- Partition discovery: reading the RDB chain, names and properties; only the geometry arithmetic is modelled.
- IdeDma.Channel.ReadBlocks: 512-byte sectors, and buffers inside the 32-bit space; ATAPI drives, drives without LBA and an absent bus master, which go straight to PIO, are not modelled.
- IDE status polling and timeouts: each transfer succeeds or fails as given, and a failed one may leave anything in its own part of the buffer. The PIO driver is taken at its word.
- Interrupt dispatch: installing and removing handlers, mask registers, the i8259 and UART set-up.
- ElfLoader.Loader.PlaceAll: silent about an image one of whose segments overwrites a program header still to be read; pass 2 then acts on values that pass 1 never checked, the flash limit included.
- ELF diagnostics, the length estimate, the embedded test kernel and the jump itself.
- Consoles, timers, caches, MSR and BAT handling, SMBus, NVRAM, RTAS, real-time clock, DRAM sizing and the Forth engine.
