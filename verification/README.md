# Nachos 4.0, modelled and proved in Dafny

Nachos is a teaching kernel that runs on a simulated MIPS machine: threads and semaphores on a simulated
clock, a small disk file system, user programs in paged memory, a network of mailboxes.  This project
models its hard parts and proves what they promise, over every input, every reachable state or every run.
`dafny verify dfyconfig.toml` checks everything.

How the model is organised, by component of the system:

- **The MIPS simulator.**  `Isa` is a reference semantics of the instruction set as functions on bytes and
  words; `Decode` and `Multiply` are the decoder and the multiplier; `MipsSim` is the simulator's own code, a
  class over a register array, a page table and a memory array, proved equal to the reference, on hosts of
  either byte order.  `Architecture` and `ArchitectureMemory` say what an instruction does by the numbers in its word
  alone, with `Bitwise` and `Pairs` for bits and products.  `DelayedLoads` proves that interrupts and restarted faults are invisible in spite of
  delayed loads, for programs that leave a delay slot between a load and its use; `DelaySlots` gives the exact
  condition for every instruction; `Unaligned` proves the unaligned store and load pairs.
- **Paged memory, address spaces, object files.**  `PagedMemory` is one access through a page table;
  `AddrSpace` loads and frees programs; `Processes` is many spaces over one memory, on every run; `Coff` goes
  from a COFF file through the converter and the loader to what the program sees, and `CoffImage` says it by the
  names and fields in the bytes of the file.
- **Threads.**  `Kernel` is the scheduler, the threads and the semaphores as one transition system whose steps
  are the sections of code with interrupts off; `KernelState` is the code itself, over linked lists that must not
  share an element, proved to take those steps; `UserState` adds the registers and page tables of user programs,
  saved and restored by every switch; `SynchList` is the synchronized list with its lock, its condition variable and its per-waiter semaphores,
  with a preemption point between any two sections, so that woken threads can be overtaken, and `SynchCalls` tells
  what its callers get; `Interrupt` is the interrupt and clock simulator, with arbitrary device handlers, and
  `InterruptRequests` answers each request for an interrupt.
- **The file system.**  `Bitmap`, `OpenFile`, `FileHeader`, `Directory`, `FileFormats` and `FileSystem` work on
  an array of 128-byte sectors; `SectorAccount` reads the bytes of such a disk back as an account of every sector,
  `FreeSpace` counts them, and `FileHistory` proves any history of commands to be one of a map from names to bytes.
- **Devices, the network, programs and structures.**  `DiskTiming` is the disk's latency against the turning
  disk; `PostOffice` the mailboxes over a lossy link, down to the bytes, `PostEvents` what receivers get by the calls of the
  senders, and `PostState` the code over byte arrays and linked lists; `ProducerConsumer` the bounded-buffer
  programs; `HashTable` and `List` the container classes, `List` with its pointers.

Times, positions, sizes and counters are mathematical integers; machine words are integers modulo 2^32 with
wrap-around written out.  Device callbacks, randomness, uninitialized memory and the choice of the next step are
parameters, so every theorem holds for all of them.

Where a property that one might expect is false of the code, the model follows the code and says exactly when it
holds: `MipsSim.SrlIsLogical` (SRL and SRLV shift a signed value), `DelaySlots.EarlyCommitExact` (an interrupt
between a load and the next instruction) and `SynchList.MonitorCorrect` (appending an item that is listed already
fails an assertion of the list; `SynchList.DuplicateFails` is such a run).  The comments in lib/hash.cc:11 speak of sorted lists as
buckets; the code appends, and so does the model.

## Model

| member | source | states |
|---|---|---|
| `Multiply.Mult` | Nachos4.0/code/machine/mipssim.cc:771-828 | hi:lo is the exact 64-bit product of the operands, signed or unsigned, for every pair including the most negative int, although the loop shifts a signed value right and stops early |
| `Multiply.UnsignedProduct` | Nachos4.0/code/machine/mipssim.cc:796-815 | the shift-and-add loop, with its early exit, leaves the product of the two magnitudes |
| `Multiply.AddPair` | Nachos4.0/code/machine/mipssim.cc:802-806 | adding by halves with the carry recovered from the wrapped low half is 64-bit addition |
| `Multiply.ShiftPair` | Nachos4.0/code/machine/mipssim.cc:808-811 | shifting by halves is doubling |
| `Multiply.NegatePair` | Nachos4.0/code/machine/mipssim.cc:819-823 | negating by halves is 64-bit two's complement negation |
| `Multiply.PairDetermined` | Nachos4.0/code/machine/mipssim.cc:825-828 | the product determines both result registers, so the contract of `Mult` leaves no freedom |
| `Decoding.DecodesExactly` | Nachos4.0/code/machine/mipssim.h:117-158 | the two tables give an operation to exactly the words that the MIPS I encoding assigns to it, and no other |
| `Decoding.DecodesOperands` | Nachos4.0/code/machine/mipssim.cc:726-762 | register, shift, sign-extended immediate and jump-target fields come back from any word built out of its fields |
| `Architecture.Branches` | Nachos4.0/code/machine/mipssim.cc:193-225 | read off the word: when BEQ, BNE, BLEZ, BGTZ, BLTZ, BGEZ, BLTZAL and BGEZAL are taken, by equality or by the sign of the register, where they go, what they link, and that nothing else changes |
| `Architecture.Jumps` | Nachos4.0/code/machine/mipssim.cc:251-261 | where J, JAL, JR and JALR go and what they link |
| `Architecture.CallReturns` | Nachos4.0/code/machine/mipssim.cc:251-261 | JAL, and later JR R31, go on two words after the JAL |
| `Architecture.Sums` | Nachos4.0/code/machine/mipssim.cc:157-545 | ADD and SUB give the exact sum or difference, or an overflow exception when there is none; ADDU and SUBU give it modulo 2^32 |
| `Architecture.Logic` | Nachos4.0/code/machine/mipssim.cc:185-677 | AND, OR, XOR and NOR, bit by bit |
| `Architecture.Comparisons` | Nachos4.0/code/machine/mipssim.cc:479-510 | SLT compares signed numbers, SLTU unsigned ones |
| `Architecture.Shifts` | Nachos4.0/code/machine/mipssim.cc:470-531 | which bit each of the six shifts moves where; the right shifts all copy the sign bit |
| `Architecture.ImmediateSums` | Nachos4.0/code/machine/mipssim.cc:167-299 | ADDI exact or an overflow, ADDIU modulo 2^32, with the signed immediate; LUI the upper half |
| `Architecture.ImmediateComparisons` | Nachos4.0/code/machine/mipssim.cc:486-501 | SLTI and SLTIU against the sign-extended immediate |
| `Architecture.ImmediateLogic` | Nachos4.0/code/machine/mipssim.cc:189-681 | ANDI, ORI and XORI with the zero-extended immediate, bit by bit |
| `Architecture.Moves` | Nachos4.0/code/machine/mipssim.cc:420-434 | MFHI, MTHI, MFLO and MTLO |
| `Architecture.Products` | Nachos4.0/code/machine/mipssim.cc:227-445 | MULT and MULTU leave the exact 64-bit product, DIV and DIVU a quotient rounded toward zero and its remainder, or zeros for a zero divisor |
| `ArchitectureMemory.Loads` | Nachos4.0/code/machine/mipssim.cc:263-310 | LB, LBU, LH, LHU and LW: the bytes at the physical address, lowest first, as a delayed load; or the exception of the first failing check |
| `ArchitectureMemory.UnalignedLoads` | Nachos4.0/code/machine/mipssim.cc:312-418 | which bytes of the register LWL and LWR replace by which bytes of memory |
| `ArchitectureMemory.Stores` | Nachos4.0/code/machine/mipssim.cc:458-551 | SB, SH and SW: which bytes of memory become which bytes of the register, and that no other changes |
| `ArchitectureMemory.UnalignedStores` | Nachos4.0/code/machine/mipssim.cc:552-668 | the same for SWL and SWR |
| `ArchitectureMemory.Exceptions` | Nachos4.0/code/machine/mipssim.cc:670-690 | SYSCALL traps; exactly the words that encode no operation are illegal instructions |
| `ArchitectureMemory.FirstFault` | Nachos4.0/code/machine/translate.cc:194-235 | each exception of an access by the check that fails first |
| `ArchitectureMemory.FetchFaults` | Nachos4.0/code/machine/translate.cc:85-100 | an instruction that cannot be fetched raises that exception and does nothing else |
| `ArchitectureMemory.FetchedWord` | Nachos4.0/code/machine/translate.cc:85-133 | an instruction is fetched exactly when no check fails, and is the little-endian word at its physical address |
| `DelayedLoads.EarlyCommitInvisible` | Nachos4.0/code/machine/mipssim.cc:711-718 | landing a pending load early gives the same state after the next instruction, for every instruction that neither reads the pending register nor writes it other than by a load; LWL and LWR merging into it are included |
| `DelayedLoads.EarlyCommitVisible` | Nachos4.0/code/machine/mipssim.cc:181-184 | one concrete case of a read in the delay slot: a move by ADDU gives the same state if and only if the load does not change the register it reads |
| `DelaySlots.EarlyCommitExact` | Nachos4.0/code/machine/mipssim.cc:711-718 | the exact condition, for every instruction and every pending load: landing the load first gives the same outcome if and only if `Invisible` holds, which says of each operation what its operands must meet (same register result, same branch decision, same jump target, same bytes stored, same value loaded, or the loaded value written again) |
| `DelaySlots.StepExact` | Nachos4.0/code/machine/mipssim.cc:120-701 | the same if-and-only-if for one whole call of `OneInstruction`, fetch included |
| `DelaySlots.InterruptsExact` | Nachos4.0/code/machine/interrupt.cc:309-311 | a program each of whose instructions meets that condition reaches the same states wherever interrupts fall |
| `DelaySlots.WriteHazard` | Nachos4.0/code/machine/mipssim.cc:711-718 | an instruction that writes the register being loaded without reading it is indifferent if and only if it writes the loaded value |
| `DelaySlots.ReadHazard` | Nachos4.0/code/machine/mipssim.cc:257-434 | MTHI, MTLO, JR and JALR of the register being loaded are indifferent if and only if the load does not change it |
| `DelaySlots.UnhurriedIsInvisible` | Nachos4.0/code/machine/mipssim.cc:711-718 | the syntactic condition of `EarlyCommitInvisible` implies the exact one |
| `DelayedLoads.StepCommits` | Nachos4.0/code/machine/mipssim.cc:120-701 | the same for one whole call of `OneInstruction`, fetch included |
| `DelayedLoads.InterruptsInvisible` | Nachos4.0/code/machine/interrupt.cc:309-311 | a program none of whose instructions looks at a load in its delay slot reaches the same states wherever interrupts fall, over any number of instructions |
| `DelayedLoads.StepKeepsBoundary` | Nachos4.0/code/machine/mipssim.cc:711-718 | R0 is zero and the pending target is a general register at every instruction boundary |
| `DelayedLoads.FaultChangesNothing` | Nachos4.0/code/machine/machine.cc:100-110 | a faulting instruction leaves memory, PC and NextPC alone, changes nothing in the page table but use and dirty bits, and of the registers only BadVAddr and the target of the landed load |
| `DelayedLoads.FaultRestarts` | Nachos4.0/code/machine/machine.cc:100-110 | once the page table has been repaired, re-executing the instruction does what it would have done had the repaired table been there from the start, up to BadVAddr |
| `DelayedLoads.BadVAddrUnread` | Nachos4.0/code/machine/mipssim.cc:120-701 | no instruction depends on the BadVAddr register |
| `Unaligned.UnalignedRoundTrip` | Nachos4.0/code/machine/mipssim.cc:312-418 | SWR at a and SWL at a+3, then LWR at a and LWL at a+3, return the stored word and change no byte outside a..a+3, for every address, across pages and across 2^32, with or without an interrupt between the two loads (base and target registers distinct) |
| `Unaligned.StoresWord` | Nachos4.0/code/machine/mipssim.cc:552-668 | the two stores together write exactly the four bytes of the word |
| `Unaligned.LoadsWord` | Nachos4.0/code/machine/mipssim.cc:312-418 | the two loads reassemble the word whatever the register held; an interrupt in between makes no difference |
| `MipsSim.Machine.OneInstruction` | Nachos4.0/code/machine/mipssim.cc:120-701 | the register-array code does to the machine exactly what `DelayedLoads.Step` says, on hosts of either byte order; what that is for each instruction word, `Architecture` and `ArchitectureMemory` prove |
| `MipsSim.Machine.DelayedLoad` | Nachos4.0/code/machine/mipssim.cc:711-718 | the new register array is the one the reference gives |
| `MipsSim.Machine.RaiseException` | Nachos4.0/code/machine/machine.cc:100-110 | BadVAddr recorded and the pending load landed before the kernel is entered |
| `MipsSim.Machine.Translate` | Nachos4.0/code/machine/translate.cc:184-251 | the exception, if any, is the first of the checks to fail; otherwise the physical address, with the use bit set and the dirty bit set by a write, and no other entry touched |
| `MipsSim.Machine.ReadMem` | Nachos4.0/code/machine/translate.cc:85-133 | the value is the little-endian reading of the bytes, on either host; a fault is raised and nothing else changes |
| `MipsSim.Machine.WriteMem` | Nachos4.0/code/machine/translate.cc:135-182 | memory changes by exactly the bytes of the value, on either host; a fault leaves it alone |
| `MipsSim.Machine.ExecuteLoad` | Nachos4.0/code/machine/mipssim.cc:263-418 | loads of all seven kinds give the value the reference gives, as a delayed load |
| `MipsSim.Machine.ExecuteStore` | Nachos4.0/code/machine/mipssim.cc:458-668 | stores of all five kinds write what the reference writes |
| `MipsSim.LeftLoadAgrees` | Nachos4.0/code/machine/mipssim.cc:312-362 | the shifts and masks of LWL replace exactly the bytes the architecture says |
| `MipsSim.RightLoadAgrees` | Nachos4.0/code/machine/mipssim.cc:364-418 | the same for LWR |
| `MipsSim.LeftStoreAgrees` | Nachos4.0/code/machine/mipssim.cc:552-609 | the same for SWL |
| `MipsSim.RightStoreAgrees` | Nachos4.0/code/machine/mipssim.cc:611-668 | the same for SWR |
| `MipsSim.SignBitOverflow` | Nachos4.0/code/machine/mipssim.cc:157-191 | the sign-bit tests of ADD, ADDI and SUB detect exactly signed overflow |
| `MipsSim.RegCode` | Nachos4.0/code/machine/mipssim.cc:157-550 | register-register results by C operators are the reference results, and overflow is reported exactly when it happens |
| `MipsSim.ImmCode` | Nachos4.0/code/machine/mipssim.cc:167-191 | the same for register-immediate instructions |
| `MipsSim.HiLoCode` | Nachos4.0/code/machine/mipssim.cc:227-251 | MULT, MULTU, DIV and DIVU leave product, or truncated quotient and remainder, in lo and hi |
| `MipsSim.SrlIsLogical` | Nachos4.0/code/machine/mipssim.cc:520-530 | the code of SRL and SRLV shifts a signed int: for each the result is the logical shift if and only if the operand is not negative or the shift amount, modulo 32 for SRLV, is zero |
| `PagedMemory.AlignedWithinFrame` | Nachos4.0/code/machine/translate.cc:194-245 | an aligned access never crosses a frame, and its bytes are consecutive in physical memory |
| `PagedMemory.WordOrder` | Nachos4.0/code/machine/translate.cc:40-53 | on either host, overlaying a word on memory and converting it gives the little-endian value |
| `PagedMemory.ShortOrder` | Nachos4.0/code/machine/translate.cc:55-66 | the same for half words |
| `PagedMemory.WordToHostInvolution` | Nachos4.0/code/machine/translate.cc:40-69 | converting to the machine and back is the identity |
| `AddrSpaces.AddrSpace.Load` | Nachos4.0/code/userprog/addrspace.cc:119-215 | fails exactly when too few frames are free, and then leaves memory, the frame map and the page table as they were; otherwise takes that many free frames, disturbs no other frame and leaves the program's whole image in its frames |
| `AddrSpaces.AddrSpace.AllocatePages` | Nachos4.0/code/userprog/addrspace.cc:155-165 | every page gets its own formerly free frame, cleared |
| `AddrSpaces.AddrSpace.CopyPages` | Nachos4.0/code/userprog/addrspace.cc:196-207 | page-by-page copying, with its partial last page, leaves the buffer followed by zeros |
| `AddrSpaces.AddrSpace.Destroy` | Nachos4.0/code/userprog/addrspace.cc:96-105 | exactly the frames of the space become free |
| `AddrSpaces.AddrSpace.Translate` | Nachos4.0/code/userprog/addrspace.cc:313-353 | the machine's translation of a byte access, with every page taken as valid |
| `AddrSpaces.LoadedIsValid` | Nachos4.0/code/userprog/addrspace.cc:155-165 | on a loaded space the two translations are therefore the same |
| `AddrSpaces.SeesImage` | Nachos4.0/code/userprog/addrspace.cc:155-207 | through translation a program sees exactly the image its frames hold |
| `Processes.RunKeeps` | Nachos4.0/code/userprog/addrspace.cc:96-215 | over any run of loads, destructions, reads and writes, live spaces own pairwise disjoint frames and the marked frames are exactly the owned ones |
| `Processes.FramesConserved` | Nachos4.0/code/userprog/addrspace.cc:96-215 | in every state of every run, free frames plus pages owned by live spaces are `NumPhysPages` |
| `Processes.ReadIsFlat` | Nachos4.0/code/machine/translate.cc:85-133 | a read of 1, 2 or 4 bytes is the little-endian value of that many consecutive bytes of the space |
| `Processes.WriteIsFlat` | Nachos4.0/code/machine/translate.cc:135-182 | a write changes exactly the addressed bytes of its space, as a flat byte map |
| `Processes.WriteIsIsolated` | Nachos4.0/code/machine/translate.cc:135-182 | and no byte of a space on other frames |
| `Processes.ProcessesIsolated` | Nachos4.0/code/userprog/addrspace.cc:96-215 | in every run, nothing one process does changes a byte another live process sees, nor its page table |
| `Processes.FlatMemory` | Nachos4.0/code/userprog/addrspace.cc:96-215 | on every run: a process sees, byte for byte, what it was loaded with and what it has itself stored since, told from the events alone |
| `Processes.ReadsOwn` | Nachos4.0/code/machine/translate.cc:85-133 | on every run: what a process reads is the little-endian value of its own bytes, and it faults exactly when it reads misaligned or outside |
| `Coff.NoffRoundTrip` | Nachos4.0/coff2noff/coff2noff.c:104-125 | a header written on a host of either byte order is read back, unchanged, on a host of either byte order |
| `Coff.Convert` | Nachos4.0/coff2noff/coff2noff.c:146-296 | succeeds exactly when the headers, the section table and every section are acceptable, and then the output's header describes, and its body holds, the last non-empty section of each kind, on either host |
| `Coff.CopySections` | Nachos4.0/coff2noff/coff2noff.c:227-285 | the section loop accepts exactly the acceptable sections, and lays out the header and body described by `Laid` |
| `Coff.CopySection` | Nachos4.0/coff2noff/coff2noff.c:229-284 | one turn of the loop: each kind of section, the empty one, and the errors |
| `Coff.CheckHeaders` | Nachos4.0/coff2noff/coff2noff.c:169-197 | passes exactly the files with both magic numbers and a complete section table |
| `Coff.ReadSections` | Nachos4.0/coff2noff/coff2noff.c:191-203 | converting the section table on either host gives the file's own, little-endian, table |
| `Coff.ConversionFits` | Nachos4.0/coff2noff/coff2noff.c:205-296 | for a loadable file the converted header meets what the loader relies on: every segment inside the loaded size and inside the file |
| `Coff.ImagePreserved` | Nachos4.0/code/userprog/addrspace.cc:34-215 | end to end: convert on any host, load on any host; through translation the program sees each section byte at its own virtual address and zero at every other address it has |
| `CoffImages.ConvertAndLoad` | Nachos4.0/code/userprog/addrspace.cc:119-215 | the converter on one host, then `ReadHeader` and `Load` on another, by the bytes of the file: succeeds exactly when the converter takes every section and enough frames are free, and then each byte of each section named ".text", ".data" or ".rdata" is at its own address and every other address reads zero |
| `CoffImages.ConvertibleMeans` | Nachos4.0/coff2noff/coff2noff.c:169-285 | the files that convert, by their bytes; a non-empty section of any other name than these three and ".bss" makes the converter fail |
| `CoffImages.SectionMeans` | Nachos4.0/coff2noff/coff2noff.c:191-203 | the fields and the kind of a section by the bytes of its header |
| `CoffImages.SeenIsShown` | Nachos4.0/coff2noff/coff2noff.c:227-285 | what the program sees, by section names and addresses |
| `CoffImages.FitLoads` | Nachos4.0/coff2noff/coff2noff.c:227-285 | the files fit for loading, by their bytes |
| `Kernel.RunKeeps` | Nachos4.0/code/threads/thread.cc:91-255 | the scheduler invariant holds in every state of every run, and no assertion of the code fails on the way |
| `Kernel.SchedulerCorrect` | Nachos4.0/code/threads/scheduler.cc:56-167 | outside the idle loop exactly one thread is RUNNING and it is the current one; the ready list holds exactly the READY threads, once each; a blocked, unfinished thread is in exactly one semaphore queue; at most one finished thread awaits destruction; whatever happens next, its assertions hold |
| `Kernel.SemaphoreCorrect` | Nachos4.0/code/threads/synch.cc:75-117 | on every run the value is that of the one event that created the semaphore, plus the V events on it, minus the Ps on it that have completed, all counted over the events; while threads are queued it is at most the number of woken threads still to retest, so no wakeup is lost, barging included; an idle machine with sleepers has value zero |
| `Kernel.PCalls` | Nachos4.0/code/threads/synch.cc:75-93 | on every run: a P, or one resumed after a switch, takes a unit and returns if there is one, and otherwise blocks its thread at the end of the queue |
| `Kernel.VCalls` | Nachos4.0/code/threads/synch.cc:102-117 | on every run: a V always gives one unit, and wakes the first sleeper if there is one |
| `Kernel.FifoWake` | Nachos4.0/code/threads/synch.cc:75-117 | the sleeper at position k of a semaphore is put on the ready list by the (k+1)-th V |
| `Kernel.AdvancesWithVs` | Nachos4.0/code/threads/synch.cc:102-117 | a sleeper moves one place forward with each V and otherwise keeps its place |
| `Kernel.ThreadCalls` | Nachos4.0/code/threads/thread.cc:91-255 | on every run, what fork, yield, finish and the end of the idle loop do to the ready list, the processor and the statuses, and that no other thread is touched |
| `Kernel.ArrivalBuries` | Nachos4.0/code/threads/scheduler.cc:160-167 | once a thread is back from its switch no finished thread is left |
| `Kernel.AdvancesWithPicks` | Nachos4.0/code/threads/scheduler.cc:56-88 | a ready thread moves one place forward with each pick and otherwise keeps its place |
| `Kernel.FifoDispatch` | Nachos4.0/code/threads/scheduler.cc:56-88 | the thread at ready position k is dispatched at the (k+1)-th successful pick |
| `Kernel.StepKeeps` | Nachos4.0/code/threads/thread.cc:91-255 | every single step keeps the invariant |
| `Kernel.AssertionsHold` | Nachos4.0/code/threads/scheduler.cc:104-167 | in a state of the invariant the assertions of every possible step hold: lists never receive an item twice, at most one thread to destroy, never oneself |
| `KernelObjects.KernelState.ReadyToRun` | Nachos4.0/code/threads/scheduler.cc:56-66 | the thread becomes READY and goes to the end of the linked ready list; no semaphore's queue is touched |
| `KernelObjects.KernelState.FindNextToRun` | Nachos4.0/code/threads/scheduler.cc:74-83 | the front of the linked ready list, removed, or nothing |
| `KernelObjects.KernelState.Run` | Nachos4.0/code/threads/scheduler.cc:103-150 | the switch: current thread, statuses and the thread to be destroyed |
| `KernelObjects.KernelState.CheckToBeDestroyed` | Nachos4.0/code/threads/scheduler.cc:160-167 | the finished thread is gone, and nothing else |
| `KernelObjects.KernelState.Fork` | Nachos4.0/code/threads/thread.cc:91-108 | the fork step, keeping the invariant |
| `KernelObjects.KernelState.Yield` | Nachos4.0/code/threads/thread.cc:201-219 | the yield step, keeping the invariant |
| `KernelObjects.KernelState.Finish` | Nachos4.0/code/threads/thread.cc:171-182 | the finish step, keeping the invariant |
| `KernelObjects.KernelState.Dispatch` | Nachos4.0/code/threads/thread.cc:239-255 | the end of the idle loop: the next thread, keeping the invariant |
| `KernelObjects.KernelState.Arrive` | Nachos4.0/code/threads/scheduler.cc:150-158 | back from the switch: reap, and go on with the interrupted P |
| `KernelObjects.KernelState.P` | Nachos4.0/code/threads/synch.cc:75-93 | the P step, with its retry loop, keeping the invariant |
| `KernelObjects.KernelState.V` | Nachos4.0/code/threads/synch.cc:102-117 | the V step, keeping the invariant |
| `KernelObjects.KernelState.CreateSemaphore` | Nachos4.0/code/threads/synch.cc:46-53 | a new queue, apart from every other list, keeping the invariant |
| `KernelObjects.KernelState.TurnOfP` | Nachos4.0/code/threads/synch.cc:84-88 | one turn of the loop: one unit less, or the current thread at the end of the queue and asleep |
| `UserStates.ResumesWithRegisters` | Nachos4.0/code/threads/scheduler.cc:103-150 | on every run of the scheduler: the 40 registers a user program had when it last had the processor are those it has when it next runs, whoever ran, slept, woke, was created or ended in between |
| `UserStates.OwnPageTable` | Nachos4.0/code/threads/scheduler.cc:146-149 | on every run: whenever a user program has the processor, the machine translates through its own page table |
| `UserStates.StaysParked` | Nachos4.0/code/threads/scheduler.cc:112-149 | no step loses the saved registers of a thread that is not running |
| `UserStates.RunKeeps` | Nachos4.0/code/threads/scheduler.cc:103-150 | every user thread has the processor or has its registers saved, in every state of every run |
| `UserStates.Thread.SaveUserState` | Nachos4.0/code/threads/thread.cc:375-380 | the loop copies the machine's registers |
| `UserStates.Thread.RestoreUserState` | Nachos4.0/code/threads/thread.cc:391-396 | and back |
| `SynchList.RunKeeps` | Nachos4.0/code/threads/synchlist.cc:51-81 | the monitor invariant holds in every interleaving of any number of threads |
| `SynchList.MonitorCorrect` | Nachos4.0/code/threads/synch.cc:181-301 | in every reachable state: an assertion fails next exactly when a thread is about to append an item that is listed; no removal hits an empty list, no waiter's semaphore is used after deletion; at most one thread is inside; removed items are a prefix of appended items; with the lock free and waiters queued, the list is no longer than the number of signalled waiters still to recheck |
| `SynchList.QuiescentMeansEmpty` | Nachos4.0/code/threads/synchlist.cc:70-81 | when no thread can move, every remaining thread waits in the condition queue and the list is empty: nobody sleeps on an item |
| `SynchList.SafeSteps` | Nachos4.0/code/threads/synch.cc:248-301 | under the invariant the assertions of `Wait`, `Signal`, `Release` and `List::Append` hold, except that the last fails exactly when the item is listed |
| `SynchList.FreshRunSafe` | Nachos4.0/code/lib/list.cc:73-88 | if every append begins with an item that is neither listed nor being appended, no assertion of the code ever fails |
| `SynchList.DuplicateFails` | Nachos4.0/code/lib/list.cc:73-88 | and one can fail otherwise: the run in which two threads append the same item, one after the other |
| `SynchList.NextKeeps` | Nachos4.0/code/threads/synchlist.cc:51-81 | every step keeps the invariant |
| `SynchListCalls.ItemsInOrder` | Nachos4.0/code/threads/synchlist.cc:51-81 | on every run, told from the calls: what the k-th removal gets is the item of the k-th call of `Append` to append, and the rest are listed in that order |
| `SynchListCalls.EachCallOnce` | Nachos4.0/code/threads/synchlist.cc:51-81 | on every run each call of `Append` appends once and each call of `RemoveFront` gets one item, but for those still under way |
| `SynchListCalls.CallsItem` | Nachos4.0/code/threads/synchlist.cc:51-60 | a call on its way to append has the item it was called with |
| `SynchListCalls.QueuesFifo` | Nachos4.0/code/threads/synch.cc:181-301 | signals go to the first waiter and releases wake the first sleeper |
| `Interrupts.FiresInOrder` | Nachos4.0/code/machine/interrupt.cc:270-322 | on every run, with any behaviour of the handlers, interrupts go off in order of due time, ties in scheduling order, never early and at most nine ticks late |
| `Interrupts.DueExactlyFired` | Nachos4.0/code/machine/interrupt.cc:256-322 | on every run, a scheduled interrupt has gone off, exactly once, if and only if its time has come |
| `InterruptRequests.RequestAnswered` | Nachos4.0/code/machine/interrupt.cc:256-322 | on every run: each request, a device's or a handler's, made at time T with delay d, is answered by exactly one interrupt of the kind asked for, which has gone off, once, if and only if the clock has reached T + d |
| `InterruptRequests.FiredOnTheClock` | Nachos4.0/code/machine/interrupt.cc:297-320 | a firing is recorded at the time on the clock when it happened |
| `InterruptRequests.TimeCharged` | Nachos4.0/code/machine/interrupt.cc:147-158 | on every run: ten ticks in the kernel and one in a user program for each tick of the clock, idling up to the first pending interrupt, and nothing else takes time |
| `InterruptRequests.TickTime` | Nachos4.0/code/machine/interrupt.cc:147-176 | one tick: what it costs, and that it ends in a switch exactly when a handler it set off has asked for one |
| `Interrupts.TicksAddUp` | Nachos4.0/code/machine/interrupt.cc:147-158 | on every run, total ticks are idle plus system plus user ticks |
| `Interrupts.Run` | Nachos4.0/code/machine/interrupt.cc:119-240 | after any sequence of events the books balance, nothing due is left pending and no handler is running |
| `Interrupts.FireOneKeeps` | Nachos4.0/code/machine/interrupt.cc:313-318 | firing one interrupt leaves one fewer due whatever its handler schedules, so the do-while loop ends |
| `Interrupts.FireAllKeeps` | Nachos4.0/code/machine/interrupt.cc:312-320 | after the loop nothing is due and time has not moved |
| `Interrupts.StepKeeps` | Nachos4.0/code/machine/interrupt.cc:119-240 | every event keeps the invariant |
| `Interrupts.InsertSorted` | Nachos4.0/code/machine/interrupt.cc:51-57 | inserting by due time alone keeps the list in order of due time and scheduling |
| `Interrupts.Interrupt.SetLevel` | Nachos4.0/code/machine/interrupt.cc:119-133 | under what the code asserts, in a handler or not: the level changes, and turning interrupts on is followed by one whole tick |
| `Interrupts.Interrupt.OneTick` | Nachos4.0/code/machine/interrupt.cc:147-176 | the whole tick: the clock, the check with interrupts off, and, if a handler asked for it, `Yield`, any behaviour of the other threads, and the old status restored |
| `Interrupts.Interrupt.Tick` | Nachos4.0/code/machine/interrupt.cc:147-170 | the part before the switch, and whether there is to be one |
| `Interrupts.Interrupt.Idle` | Nachos4.0/code/machine/interrupt.cc:210-231 | the clock moves to the next interrupt; halts exactly when there is none |
| `Interrupts.Interrupt.Schedule` | Nachos4.0/code/machine/interrupt.cc:256-268 | one interrupt more, due at the current time plus the delay, of the kind asked for |
| `Interrupts.Interrupt.CheckIfDue` | Nachos4.0/code/machine/interrupt.cc:283-322 | the check, the idle clock advance and the firing; reports whether anything fired |
| `Interrupts.Interrupt.FireDue` | Nachos4.0/code/machine/interrupt.cc:312-320 | the do-while loop computes `FireAll` and terminates |
| `Lists.List.Append` | Nachos4.0/code/lib/list.cc:71-88 | the linked structure stays one chain; contents gain the item at the end |
| `Lists.List.Prepend` | Nachos4.0/code/lib/list.cc:96-112 | contents gain the item at the front |
| `Lists.List.RemoveFront` | Nachos4.0/code/lib/list.cc:122-142 | contents lose and return their first item |
| `Lists.List.Remove` | Nachos4.0/code/lib/list.cc:149-177 | contents lose the item and keep the order of the others |
| `Lists.List.IsInList` | Nachos4.0/code/lib/list.cc:184-196 | true exactly for the items of the list |
| `Lists.List.Insert` | Nachos4.0/code/lib/list.cc:232-260 | contents gain the item before the first element it compares smaller than |
| `Lists.InsertedSorted` | Nachos4.0/code/lib/list.cc:232-260 | for any order, insertion keeps the list sorted and puts the item after everything it ties with |
| `Lists.InsertedMembers` | Nachos4.0/code/lib/list.cc:232-260 | insertion adds exactly one occurrence of the item |
| `DiskTiming.EarliestSweep` | Nachos4.0/code/machine/disk.cc:225-250 | without the track buffer, a request completes exactly at the first moment the head has passed the whole target sector after the seek |
| `DiskTiming.BufferHoldsSector` | Nachos4.0/code/machine/disk.cc:232-241 | the track-buffer test succeeds for a read of the same track if and only if some complete pass of the sector lies between buffer start and the rounded-up current time |
| `DiskTiming.LatencyBounds` | Nachos4.0/code/machine/disk.cc:225-250 | every request takes 500 to 31999 ticks |
| `DiskTiming.BoundsReached` | Nachos4.0/code/machine/disk.cc:225-250 | both bounds are attained |
| `DiskTiming.LatencyMeaning` | Nachos4.0/code/machine/disk.cc:225-250 | both cases together, for every state the disk can be in |
| `DiskTiming.NextTurn` | Nachos4.0/code/machine/disk.cc:195-203 | `ModuloDiff` is the number of turns until the head next comes to the sector |
| `DiskTiming.SeekDistance` | Nachos4.0/code/machine/disk.cc:176-181 | a seek takes 500 ticks for each track it crosses, whichever way |
| `DiskTiming.Disk.Request` | Nachos4.0/code/machine/disk.cc:111-152 | on every run of requests the latency has that meaning, and the buffer start stays at the first sector boundary after the head came to its track |
| `DiskTiming.Disk.ComputeLatency` | Nachos4.0/code/machine/disk.cc:225-250 | the branching code computes `Latency` |
| `DiskTiming.Disk.TimeToSeek` | Nachos4.0/code/machine/disk.cc:176-190 | seek time by tracks, and the wait for the next sector boundary |
| `DiskTiming.Disk.UpdateLast` | Nachos4.0/code/machine/disk.cc:257-268 | the buffer restarts exactly when the head changes track |
| `PostOffice.ReceivedInOrder` | Nachos4.0/code/network/post.cc:190-253 | on every run, what is recorded as received from a box are messages of the log of transmissions, addressed to the box, in order, none twice; `PostOfficeEvents` tells that log from the calls |
| `PostOfficeEvents.ReceivedAsSent` | Nachos4.0/code/network/post.cc:190-329 | on every run, over the events: the messages given to the receivers of a box come from different transmissions, none dropped, in the order of these, and each is the very message of the last `Send` that the transmitting thread had called |
| `PostOfficeEvents.RunLogged` | Nachos4.0/code/network/post.cc:281-329 | the log of transmissions, and of dropped ones, is that of the `Transmit` events with the messages last asked for |
| `PostOfficeEvents.PacketsMove` | Nachos4.0/code/machine/network.cc:60-103 | polls, the worker and receivers each move the first packet one place on |
| `PostOfficeEvents.WorkerDelivers` | Nachos4.0/code/network/post.cc:195-217 | the worker puts the very message sent at the end of its box, or stops the machine when there is no such box |
| `PostOfficeEvents.SendersMove` | Nachos4.0/code/machine/network.cc:130-182 | what each step of a sender does to its lock, its semaphore and its interrupts |
| `PostOffice.ExactlyOnePlace` | Nachos4.0/code/network/post.cc:190-329 | on every run, each message sent is in exactly one place: dropped by the network, on its way, or in the history of one box |
| `PostOffice.TokensMatchBuffer` | Nachos4.0/code/machine/network.cc:60-103 | on every run the semaphore's tokens match the one-packet buffer: the worker never finds it empty, no poll overwrites a packet, and the handler's assertions hold |
| `PostOffice.OneSendAtATime` | Nachos4.0/code/network/post.cc:281-329 | on every run a machine has at most one packet at its network device, and a sender waits for its own interrupt only |
| `PostOffice.UnpackCarried` | Nachos4.0/code/network/post.cc:190-218 | however stale the buffers it went through, a packet unpacks to the message sent, or fails the box check |
| `PostOffice.HeaderBack` | Nachos4.0/code/network/post.cc:281-311 | a header survives being overlaid on bytes and back |
| `PostOffice.RunKeeps` | Nachos4.0/code/network/post.cc:190-329 | the invariant behind these holds in every state of every run |
| `PostOffice.NextKeeps` | Nachos4.0/code/machine/network.cc:60-182 | every step keeps it |
| `PostOfficeObjects.PostOfficeState.Transmit` | Nachos4.0/code/machine/network.cc:157-182 | the in-place code is the model's step: interrupt scheduled, packet dropped or padded onto the wire |
| `PostOfficeObjects.PostOfficeState.NetworkCallBack` | Nachos4.0/code/machine/network.cc:60-91 | a packet is taken only into an empty buffer, byte by byte, and announced |
| `PostOfficeObjects.PostOfficeState.NetworkReceive` | Nachos4.0/code/machine/network.cc:93-103 | the worker always finds a packet, copies it and empties the buffer |
| `PostOfficeObjects.PostOfficeState.Deliver` | Nachos4.0/code/network/post.cc:195-217 | the mail header is checked and the mail appended to its box |
| `PostOfficeObjects.PostOfficeState.TakeMail` | Nachos4.0/code/network/post.cc:113-133 | the oldest message of the box, which was sent to that box and fits the receiver's buffer |
| `ProducerConsumer.BufferCorrect` | Nachos4.0/code/test/producer.c:26-82 | in every interleaving of any number of producers and consumers, starting with no stored items: consumed items are a prefix of produced ones, at most ten are stored, and between critical sections the file is the unconsumed digits and the terminator |
| `ProducerConsumer.ItemsFollow` | Nachos4.0/code/test/producer.c:33-62 | on every run: each item produced is the digit after the last one stored, 0 after 9, and 0 when nothing is stored; each item consumed is the first one stored |
| `ProducerConsumer.ProgramOrder` | Nachos4.0/code/test/consumer.c:15-57 | every step takes its process to the next system call of its program, with its effect on the file and the semaphores; a producer halts the machine after twenty items, a consumer after ten |
| `ProducerConsumer.RunKeeps` | Nachos4.0/code/test/consumer.c:15-57 | on every run every read finds a finished file that fits its buffer, and the shift loop its terminator |
| `ProducerConsumer.NoDeadlock` | Nachos4.0/code/test/main.c:7-12 | with a producer and a consumer, some process can move until the machine is halted |
| `ProducerConsumer.AloneInside` | Nachos4.0/code/test/main.c:7-7 | the file is only ever touched by one process |
| `ProducerConsumer.Shift` | Nachos4.0/code/test/consumer.c:36-43 | the in-place shift loop terminates, drops the first item and keeps the terminator and everything after it |
| `ProducerConsumer.Produce` | Nachos4.0/code/test/producer.c:33-62 | the scan and the new list: the digits of the file, the next item, the terminator |
| `ProducerConsumer.DigitsOfStored` | Nachos4.0/code/test/producer.c:33-43 | scanning a stored list gives back its items |
| `ProducerConsumer.ShiftedStored` | Nachos4.0/code/test/consumer.c:36-43 | shifting a stored list gives the stored rest |
| `HashTables.HashTable.Insert` | Nachos4.0/code/lib/hash.cc:108-123 | the map gains the absent key; buckets grow when needed, so items never exceed three times the buckets |
| `HashTables.HashTable.ReHash` | Nachos4.0/code/lib/hash.cc:133-152 | four times the buckets, the same map, every item where its key hashes now |
| `HashTables.HashTable.Remove` | Nachos4.0/code/lib/hash.cc:208-223 | returns the key's item and removes exactly it |
| `HashTables.HashTable.Find` | Nachos4.0/code/lib/hash.cc:190-198 | finds the item of a present key, and nothing for an absent one |
| `HashTables.HashTable.FindInBucket` | Nachos4.0/code/lib/hash.cc:165-181 | one bucket decides |
| `HashTables.VisitsOnce` | Nachos4.0/code/lib/hash.cc:249-259 | bucket after bucket, the items are those of the map, no key twice, and as many as the item count |
| `HashTables.VisitAll` | Nachos4.0/code/lib/hash.cc:331-360 | stepping an iterator from start to end visits every item exactly once |
| `HashTables.HashIterator.Next` | Nachos4.0/code/lib/hash.cc:348-360 | one item further, over empty buckets |
| `HashTables.HashIterator.FindNextFullBucket` | Nachos4.0/code/lib/hash.cc:249-259 | skips exactly the empty buckets |
| `HashTables.PlaceRepresents` | Nachos4.0/code/lib/hash.cc:119-120 | appending an item to the bucket of its absent key adds it to the map |
| `HashTables.DropRepresents` | Nachos4.0/code/lib/hash.cc:211-218 | taking an item out of its bucket removes its key from the map |
| `HashTables.MoveOne` | Nachos4.0/code/lib/hash.cc:143-148 | each item moved by rehashing is new to the new table |
| `HashTables.MovedAll` | Nachos4.0/code/lib/hash.cc:143-148 | when every list has been moved the new table has the whole map |
| `Bitmaps.Bitmap.Mark` | Nachos4.0/code/lib/bitmap.cc:55-64 | sets that bit and no other |
| `Bitmaps.Bitmap.Clear` | Nachos4.0/code/lib/bitmap.cc:72-81 | clears that bit and no other |
| `Bitmaps.Bitmap.Test` | Nachos4.0/code/lib/bitmap.cc:89-99 | the bit |
| `Bitmaps.Bitmap.FindAndSet` | Nachos4.0/code/lib/bitmap.cc:110-120 | the lowest clear bit, now set; -1 exactly when all are set |
| `Bitmaps.Bitmap.NumClear` | Nachos4.0/code/lib/bitmap.cc:128-139 | the number of clear bits |
| `Bitmaps.WriteWordBits` | Nachos4.0/code/lib/bitmap.cc:55-81 | writing a bit through its word and mask changes that bit of the sequence alone |
| `Bitmaps.CountPositive` | Nachos4.0/code/lib/bitmap.cc:110-139 | `NumClear` is positive exactly when `FindAndSet` can succeed |
| `Bitmaps.CountSet` | Nachos4.0/code/lib/bitmap.cc:110-139 | taking a clear bit lowers the count by one |
| `OpenFiles.OpenFile.ReadAt` | Nachos4.0/code/filesys/openfile.cc:121-147 | returns the slice of the flat file, clipped to its length, for every position, length and alignment |
| `OpenFiles.OpenFile.WriteAt` | Nachos4.0/code/filesys/openfile.cc:150-189 | overwrites that slice of the flat file and changes no sector outside the file, partial first and last sectors included |
| `OpenFiles.OpenFile.PrepareBuffer` | Nachos4.0/code/filesys/openfile.cc:163-181 | the sectors only partly overwritten are read in first, so the buffer is the file as it is to be |
| `OpenFiles.OpenFile.WriteSectors` | Nachos4.0/code/filesys/openfile.cc:184-187 | exactly the sectors involved are flushed |
| `OpenFiles.OpenFile.Read` | Nachos4.0/code/filesys/openfile.cc:79-85 | the slice at the seek position, which advances by what was read |
| `OpenFiles.OpenFile.Write` | Nachos4.0/code/filesys/openfile.cc:87-93 | the overwrite at the seek position, which advances by what was written |
| `OpenFiles.OtherFileUnchanged` | Nachos4.0/code/filesys/openfile.cc:150-189 | a write to one file changes no byte of a file on other sectors |
| `FileHeaders.FileHeader.Allocate` | Nachos4.0/code/filesys/filehdr.cc:43-59 | succeeds exactly when enough sectors are free, and then takes that many free and different sectors; the assertion on each never fails |
| `FileHeaders.FileHeader.Deallocate` | Nachos4.0/code/filesys/filehdr.cc:67-74 | exactly the file's sectors become free; each was marked, as the code asserts |
| `FileFormats.HeaderRoundTrip` | Nachos4.0/code/filesys/filehdr.cc:83-100 | a header written to its sector is read back |
| `FileFormats.MapRoundTrip` | Nachos4.0/code/filesys/pbitmap.cc:62-79 | a free map written to its file is read back bit for bit |
| `FileFormats.EntryRoundTrip` | Nachos4.0/code/filesys/directory.h:32-39 | a directory entry survives storage whatever the padding bytes of the structure hold |
| `FileFormats.TableRoundTrip` | Nachos4.0/code/filesys/directory.cc:62-79 | a directory written to its file is read back, whatever the padding |
| `Directories.SameName` | Nachos4.0/code/filesys/directory.cc:93-95 | the bounded comparison is equality of the first nine characters |
| `Directories.CopyNameKey` | Nachos4.0/code/filesys/directory.cc:137-137 | the bounded copy stores a name whose key is the name's |
| `Directories.Directory.FindIndex` | Nachos4.0/code/filesys/directory.cc:89-98 | the entry that lists the name, or -1 exactly when none does |
| `Directories.Directory.Find` | Nachos4.0/code/filesys/directory.cc:107-115 | its header sector |
| `Directories.Directory.Add` | Nachos4.0/code/filesys/directory.cc:128-144 | fails exactly when the name is listed or no entry is free; otherwise the first free entry lists it, and nothing else changes; unique names stay unique |
| `Directories.Directory.Remove` | Nachos4.0/code/filesys/directory.cc:152-161 | fails exactly when the name is not listed; otherwise its entry alone becomes free |
| `FileSystems.FileSystem.Format` | Nachos4.0/code/filesys/filesys.cc:81-148 | the bytes written are a consistent file system with no files |
| `FileSystems.FileSystem.Create` | Nachos4.0/code/filesys/filesys.cc:174-214 | succeeds exactly when `CanCreate` says so; a failure leaves every disk byte unchanged; a success adds one file on formerly free sectors and changes no other |
| `FileSystems.FileSystem.Remove` | Nachos4.0/code/filesys/filesys.cc:291-321 | fails, changing nothing, exactly when there is no such file; otherwise exactly its sectors become free |
| `FileSystems.FileSystem.Open` | Nachos4.0/code/filesys/filesys.cc:226-250 | an open file on the header listed under the name, or nothing exactly when there is no such file |
| `FileSystems.FileSystem.WriteBack` | Nachos4.0/code/filesys/filesys.cc:203-207 | writing the directory and the free map through their own files disturbs neither |
| `FileSystems.AllocateFile` | Nachos4.0/code/filesys/filesys.cc:186-203 | the in-memory part of `Create` and its three ways to fail |
| `FileSystems.FreeFile` | Nachos4.0/code/filesys/filesys.cc:307-313 | the in-memory part of `Remove` |
| `FileHistories.RunScript` | Nachos4.0/code/filesys/filesys.cc:81-321 | format, then any sequence of creations, removals, writes and reads by name: the disk is consistent, and every result, success or failure, count or bytes, is what a map from names to byte arrays with a count of 1019 free sectors would give |
| `FileHistories.CreatedByHistory` | Nachos4.0/code/filesys/filesys.cc:174-214 | in any history: a file is created exactly when no file has the same first nine characters, there are fewer than ten, and one sector more is free than its data needs |
| `FileHistories.RemovedByHistory` | Nachos4.0/code/filesys/filesys.cc:291-321 | in any history: a file is removed exactly when there is one, and gives its sectors back |
| `FileHistories.WrittenByHistory` | Nachos4.0/code/filesys/openfile.cc:150-189 | in any history: writing changes the bytes that are both written and there, and nothing else |
| `FileHistories.ReadByHistory` | Nachos4.0/code/filesys/openfile.cc:121-147 | in any history: reading gives the bytes asked for that are there |
| `FileHistories.Execute` | Nachos4.0/code/filesys/filesys.cc:174-321 | one command, in any consistent state of the disk |
| `FileHistories.CreatedContents` | Nachos4.0/code/filesys/filesys.cc:174-214 | creating adds one byte array and changes no byte of any other file |
| `FileHistories.RemovedContents` | Nachos4.0/code/filesys/filesys.cc:291-321 | removing takes one away and changes no byte of any other file |
| `FileHistories.WrittenContents` | Nachos4.0/code/filesys/openfile.cc:150-189 | writing to a listed file keeps the account, changes that file alone |
| `FreeSpace.CreatedSpace` | Nachos4.0/code/filesys/filesys.cc:174-214 | creating a file takes exactly one sector more than its data needs from the free ones |
| `FreeSpace.RemovedSpace` | Nachos4.0/code/filesys/filesys.cc:291-321 | removing it gives exactly that back |
| `FreeSpace.EntryFree` | Nachos4.0/code/filesys/directory.cc:128-144 | an entry is free exactly while there are fewer than ten files |
| `SectorAccount.AddKeeps` | Nachos4.0/code/filesys/filesys.cc:174-214 | adding a file keeps the account: marked sectors are exactly the two reserved headers, the system files' data and each listed file's header and data, all disjoint, with unique names |
| `SectorAccount.DropKeeps` | Nachos4.0/code/filesys/filesys.cc:291-321 | dropping a file keeps it |
| `SectorAccount.AddReread` | Nachos4.0/code/filesys/filesys.cc:200-207 | the bytes `Create` leaves, read back, are the account with the file added |
| `SectorAccount.DropReread` | Nachos4.0/code/filesys/filesys.cc:315-317 | the bytes `Remove` leaves, read back, are the account with the file dropped |
| `SectorAccount.FormatReread` | Nachos4.0/code/filesys/filesys.cc:87-136 | the bytes formatting leaves, read back, are an empty account |
| `SectorAccount.EntryAccount` | Nachos4.0/code/filesys/filehdr.cc:67-74 | a listed file's sectors are all marked, so the deallocator's assertions hold |
| `SectorAccount.ListedIsFile` | Nachos4.0/code/filesys/directory.cc:89-115 | a name is listed exactly when there is a file by it |
| `SectorAccount.CreateRemoveRestores` | Nachos4.0/code/filesys/filesys.cc:174-321 | creating a file and removing it restores the free map bit for bit, and the files by name |
| `SectorAccount.WriteKeepsAccount` | Nachos4.0/code/filesys/openfile.cc:150-189 | writing to a listed file keeps the account and the contents of every other file |

## Left out

- SynchDisk (filesys/synchdisk.cc): a sector read or write is one atomic step in the file-system model.
- Host calls: consoles, sockets beyond a FIFO that may drop packets, the stub file system, file descriptors and the system-call dispatcher.
- The context switch in assembly and stack allocation: a switch is a change of the current thread.
- Process table, exec, join and exit: processes are identified by file name there, and the exit code is read after the child is released.
- The TLB variant, which the build does not define; the single-step debugger; all Print and SelfTest routines.
- Condition::Broadcast: nothing in the modelled code calls it.
- filesys.cc:252-276 and openfile.cc:35-41: the table of open file numbers, later edits that do not fit the class declarations.
- Directory and file sizes are taken in 0..MaxFileSize, positions as non-negative and `position + numBytes` without 32-bit overflow, which the code does not check.
- Bytes past a file's length in its last sector are unspecified after a write, as in the code.
- FileSystems.FileSystem.WriteBack: the padding bytes inside directory entries are written as zero, where the C structures leave them unspecified; reading back does not depend on them (`FileFormats.TableRoundTrip`).
- MipsSim.HiLoCode: the quotient of the most negative int by -1 is undefined in C; the model gives the wrapped quotient.
- KernelObjects.KernelState.P: blocking is the `Idle` mode of the transition system, and the rest of the loop runs in `Arrive`, since a method cannot suspend.
- SynchList.RunKeeps: the monitor is a transition system and not a class, for the same reason; its list and queues are sequences, justified by `Lists`.
- PostOffice.RunKeeps: semaphores, the send lock and the mailboxes' synchronized lists are assumed to act atomically: that a run of the system at the level of their own models can be reordered into one at this level is not proved; both ends use the same host byte order; a message for a box that does not exist halts the receiving machine, as the assertion does.
- Coff.Convert: a section size read as -1, or a file pointer beyond 2^31, counts as a file that is too short, where the host's `read` and `lseek` decide; a second `.bss` section is handled as the code handles it, but the end-to-end theorem needs no more than its total size.
- Coff.CopySections: the same two section fields.
- Coff.CopySection: the same two section fields.
- UserStates.ResumesWithRegisters: what a user program computes, and the initial registers of a program, are arbitrary values; the kernel stack and the host registers are not part of this model.
- HashTables.HashTable.Insert: the number of buckets does not overflow; buckets are sequences, justified by `Lists`.
- ProducerConsumer.Produce: file operations succeed, and each system call is atomic.
- DiskTiming.Disk.Request: the transfer of the data itself, which the file-system model covers.
