# ParaTos

ParaTos runs Atari TOS programs: a 68020 interpreter over a flat big-endian byte memory, and a GEMDOS
written in C. This project models the parts of it that keep an invariant over unbounded runs or replace
one computation by another, and proves what they are for.

- **Memory manager** (`gemdos/mem.c`). `HeapModel` is the state machine over values: a free list in
  address order, a used list, and the rover. `HeapTheory`, `HeapCoalescing` and `HeapRuns` prove what each
  call and every run keeps. `Allocator` is the code itself, two singly linked lists relinked in place with
  a rover that points into one of them, and each of its methods is proved to do what the state machine does.
- **Cookie jar** (`gemdos/cookiejar.c`). `Cookies` is the table as data and the finite map it stands for;
  `CookieJar.Jar` is the table in emulated memory, in a block from `Allocator`, which doubles when it is full.
- **Exceptions** (`mushashi/m68kcpu.h`, RTE in `mushashi/m68k_in.c`). `Exceptions` has entry and RTE as
  functions on the processor fields and memory, `Processor.Cpu` the same as methods that update them,
  `ExceptionFrames` what one entry leaves behind and what its RTE brings back, and `ExceptionRuns` all
  well-nested runs.
- **Arithmetic** (`mushashi/m68k_in.c`). `Division` and `Multiplication` relate the handlers written for
  32-bit hosts to those with 64-bit operations; `Chains`, `ChainSums` and `Handlers` treat ADDX, SUBX, ABCD
  and SBCD on operands of any length; `Shifts`, `BitFields` and `Movem` those instructions.
- **Opcode dispatch** (`mushashi/m68kmake.c`, end of `mushashi/m68k_in.c`). `Generator` makes the rows of
  the output table, `Sorting` orders them, `JumpTable` fills the jump table, and `Dispatch` puts the three
  together.
- **Program loader** (`gemdos/loader.c`, `Loader`) and **8.3 names** (`gemdos/path.c`, `FileNames`).

`Words`, `Bits`, `Memory` and `AddressSpace` hold what they share: integer widths, bitwise operations on
naturals, and the two views of emulated memory, one of any size and one of the whole 4 GB.

Integers have the C widths, as ranges, with wrap-around written out. `dafny verify dfyconfig.toml` checks
everything.

Where the code differs from what one would expect of it, the project follows the code and says exactly
when: a scan before the first successful `Malloc` need not end (`ScanStopsIff`), a shrink to the same size
blocks coalescing (`EmptyShrinkBlocksCoalescing`), sizes that round to a negative number break the pool
(`StaysPartitionedIff`), the two DIVL handlers differ on a known set of operands (`HandlersAgree`), the
builder stops early at an unexpected mask (`SortedIsProcessed`), and the loader loops forever on a stream
cut off inside a gap (`EndsUnlessCutOff`).

## Model

| member | source | states |
|---|---|---|
| HeapRuns.ScanStopsIff | gemdos/mem.c:72-106 | The do/while scan of Malloc stops if and only if nothing is free, an earlier Malloc has succeeded, or a free block is large enough; otherwise no number of turns stops it. |
| HeapRuns.MallocSucceedsIff | gemdos/mem.c:61-109 | For a positive request whose scan ends: Malloc(-1) ends exactly when the rover has left the list head; when it does, the request succeeds if and only if its size rounded up to 4 is at most what Malloc(-1) reports; success gives the first block in circular order after the rover that is large enough, and failure changes nothing. |
| HeapRuns.LargestIsReported | gemdos/mem.c:61-109 | Malloc(-1) changes nothing and reports the largest free size, or 0 if nothing is free. |
| HeapRuns.NextScan | gemdos/mem.c:72-106 | Next fit: after taking memory, the next scan starts with the first free block behind it, except that after the lowest free memory it comes to the lowest block last; with nothing left the rover is null. |
| HeapRuns.FailuresChangeNothing | gemdos/mem.c:174-219 | Mfree returns 0 if a used block starts there and -40 if not; Mshrink returns -40, -67 if the block is smaller than the rounded size, or that size; a failed call leaves the heap as it was. |
| HeapTheory.MfreeGives | gemdos/mem.c:174-187 | A successful Mfree takes that one block out of the used list and makes exactly its addresses free. |
| HeapTheory.MshrinkGives | gemdos/mem.c:197-219 | A successful Mshrink returns the rounded size, cuts that one used block down to it, and makes exactly the addresses behind it free. |
| HeapTheory.RoverStays | gemdos/mem.c:129-146 | Giving back a block leaves the rover on its block or on the one that has swallowed it; a null rover goes to the block given back. |
| HeapRuns.MfreeUndoesMalloc | gemdos/mem.c:61-187 | In every tidy heap, freeing the block Malloc has just returned gives back exactly the earlier free list and used list. |
| HeapRuns.RunsPartition | gemdos/mem.c:19-219 | After any run of proper calls from InitMemory, used and free blocks are disjoint, every address of [0x10000, memory_sz) is in exactly one of them and no other address in any, and the rover is null exactly when nothing is free and otherwise the list head or a member of the free list. |
| HeapRuns.StaysPartitionedIff | gemdos/mem.c:19-219 | Among runs whose calls end, those that keep the pool partitioned after every call are exactly those in which every call is proper: no Malloc while something is free, and no Mshrink of a used block, with a size that rounds to a negative number. |
| HeapRuns.StrictRunsCoalesce | gemdos/mem.c:112-219 | After any run in which requests are not empty and Mshrink strictly shrinks, the free list is strictly sorted, without empty blocks, and no two free blocks touch. |
| HeapRuns.AllFreedIsWhole | gemdos/mem.c:19-219 | Such a run that has freed everything ends with the single free block it began with. |
| HeapRuns.EmptyShrinkBlocksCoalescing | gemdos/mem.c:197-219 | Resizing a block to its own size and then freeing its neighbour leaves two touching free blocks unmelted, for all sizes. |
| HeapTheory.MallocKeepsSane | gemdos/mem.c:61-109 | Malloc keeps the partition if and only if nothing is free, the request is -1, or the size rounded up is not negative. |
| HeapTheory.MshrinkKeepsSane | gemdos/mem.c:197-219 | Mshrink keeps the partition if and only if no used block starts there or the size rounded up is not negative. |
| HeapCoalescing.MfreeKeepsTidy | gemdos/mem.c:112-187 | Freeing into a coalesced free list, in the middle of two neighbours or beside one, leaves a coalesced free list. |
| Allocator.MemoryManager.constructor | gemdos/mem.c:19-35 | InitMemory builds the linked form of the initial heap. |
| Allocator.MemoryManager.Malloc | gemdos/mem.c:61-109 | On the linked lists: the result, both lists and the rover afterwards are those of the state machine, and new nodes are fresh. |
| Allocator.MemoryManager.FreeBlock | gemdos/mem.c:112-148 | Inserting a node in address order and melting it with both neighbours changes the free list and the rover as the state machine says. |
| Allocator.MemoryManager.Mfree | gemdos/mem.c:174-187 | The same for Mfree, whose nodes are among the old ones. |
| Allocator.MemoryManager.Mshrink | gemdos/mem.c:197-219 | The same for Mshrink. |
| Cookies.RunReadsLast | gemdos/cookiejar.c:34-78 | After any run of writes with non-zero keys to a table with unique keys, keys are unique and every key reads as the last value written for it, or as before if it was not written. |
| Cookies.PutUpdates | gemdos/cookiejar.c:34-78 | One write turns a table that stands for a map into one that stands for the map updated at that key. |
| CookieJar.Jar.InitCookieJar | gemdos/cookiejar.c:121-133 | On a fresh heap: a valid jar of 256 slots that stands for the map of the four announced cookies, and looking up any key gives what that map holds. |
| CookieJar.Jar.WriteCookie | gemdos/cookiejar.c:34-78 | In emulated memory: the entries are updated, keys stay unique, there is room for the terminator, which holds the true capacity, doubled if the jar was full; every other used block stays used and keeps its bytes. |
| CookieJar.Jar.ResizeCookieJar | gemdos/cookiejar.c:10-32 | The jar with all its entries is in a fresh block of the new size that no other used block overlaps, the system variable points to it, the old block is free, and no other byte has changed. |
| CookieJar.Jar.ReadCookie | gemdos/cookiejar.c:80-118 | A key is looked up among the entries, with -1 for an absent one; keys 2 to 0xffff give the key in the slot of that number, or 0. |
| CookieJar.Jar.WriteAll | gemdos/cookiejar.c:34-118 | Any run of WriteCookie on the jar object, up to the first one that would have to grow it while memory is out: every key then reads as the last value written for it, or as before the run. |
| ExceptionFrames.SrReadsBack | mushashi/m68kcpu.h:1431-1452 | Writing a value to SR and reading it back gives that value if and only if it has no bit the 68020 does not implement. |
| ExceptionFrames.SrFields | mushashi/m68kcpu.h:726-745 | Each bit of SR shows its field: trace, S, M, mask, X, N, Z, V, C. |
| ExceptionFrames.EnterLeaves | mushashi/m68kcpu.h:1361-1537 | A trap, fault or interrupt leaves its frame, or in master mode its two frames on two stacks, and the address of the instruction in a format 2 frame; moves only the stack pointers in use and writes no other byte; clears trace; and goes on at the longword that the vector selects, which for an interrupt is that of vector 15 if it is 0, with the level as the new mask. |
| ExceptionFrames.InterruptVector | mushashi/m68kcpu.h:1948-1968 | Which acknowledgements are accepted, and that an autovector is 24 and the level, a spurious interrupt 24. |
| ExceptionFrames.CheckTakes | mushashi/m68kcpu.h:1999-2004 | A check takes an interrupt exactly when its level is above the mask and it is accepted; otherwise at most the stopped state ends. |
| ExceptionFrames.RteRefuses | mushashi/m68k_in.c:9036-9043 | RTE in user mode enters vector 8 and stacks the address of the instruction; an unknown frame format enters vector 14 and stacks the PC. |
| ExceptionFrames.RteReturns | mushashi/m68k_in.c:8961-9043 | RTE of a handler that left its frames and stack pointers as it found them restores SR, the stacked PC and all three stack pointers, whatever the handler did besides, and then takes only an interrupt above the restored mask. |
| ExceptionRuns.EveryRteReturns | mushashi/m68kcpu.h:1397-2004 | In every legal run of code, nested exceptions and RTEs, every RTE restores SR, PC and the user, interrupt and master stack pointers of the innermost exception still being handled. |
| ExceptionRuns.NestReturns | mushashi/m68kcpu.h:1397-2004 | An exception followed by anything well nested and the RTE that closes it is back where the exception happened, with the outer exceptions untouched. |
| Processor.Cpu.SetSmFlag | mushashi/m68kcpu.h:1411-1419 | On the processor object: the visible stack pointer is banked and the one of the new mode shown. |
| Processor.Cpu.ExceptionTrap | mushashi/m68kcpu.h:1731-1744 | The method does what the entry function says to registers, stack and memory, and changes nothing else. |
| Processor.Cpu.ExceptionInterrupt | mushashi/m68kcpu.h:1935-2004 | The same for an interrupt, with its acknowledge, throwaway frame and uninitialized vector. |
| Processor.Cpu.Rte | mushashi/m68k_in.c:8961-9043 | The same for the rte handler and its loop over throwaway frames. |
| ChainSums.ChainAdds | mushashi/m68k_in.c:1579-1630 | For every n, a chain of n ADDX, SUBX, ABCD or SBCD -(Ay),-(Ax) over disjoint n-limb operands leaves a number that, with the final X as the carry or borrow of weight base^n, is exactly the sum or difference of the operands and the initial X; decimal for the BCD ones. |
| ChainSums.NumberOfBytes | mushashi/m68k_in.c:1579-1630 | The numbers of those chains are the same for limbs of every size: that of the bytes in front of the register, the highest first. |
| ChainSums.ChainZero | mushashi/m68k_in.c:1615-1630 | Z is set at the end if and only if it was set at the start and the whole n-limb result is zero. |
| ChainSums.ChainOverflow | mushashi/m68k_in.c:9804-9855 | V is set at the end if and only if the exact signed sum or difference does not fit in n limbs. |
| ChainSums.ChainSign | mushashi/m68k_in.c:1579-1630 | N at the end is the top bit of the whole result, for the decimal instructions too. |
| ChainSums.ChainCarry | mushashi/m68k_in.c:1615-1630 | C equals X after a chain of at least one instruction. |
| ChainSums.ChainFrame | mushashi/m68k_in.c:1579-1630 | A chain moves its two address registers over the operands and writes only the destination. |
| ChainSums.ChainStaysProper | mushashi/m68k_in.c:1010-1033 | Every byte of a BCD result is two decimal digits. |
| Chains.SbcdLimbIs | mushashi/m68k_in.c:9179-9202 | One SBCD with its corrections is the decimal difference of two pairs of digits and X, with the borrow. |
| Handlers.MemoryToMemory | mushashi/m68k_in.c:1615-1630 | The handlers on the processor object, predecrements, loads, flags and store in their order, are the step of the chains. |
| Division.ShiftSubtract | mushashi/m68k_in.c:4673-4700 | For hi < divisor, the two loops in wrapping 32-bit registers with one overflow bit give q and r with hi * 2^32 + lo = q * divisor + r and r < divisor. |
| Division.DivlDivides | mushashi/m68k_in.c:4625-4762 | For 32-bit and 64-bit dividends, signed and unsigned: the divisor 0 takes the exception; else the quotient register gets the quotient rounded towards zero and the remainder register, if another, the remainder with the sign of the dividend, N and Z are those of the quotient, V and C are clear and no other register changes; or, exactly when a 64-bit dividend has a quotient the handler does not deliver, V is set and nothing else changes. |
| Division.TooLargeLeaves | mushashi/m68k_in.c:4723-4735 | What the remaining case, -2^31 by -1 in 32 bits, leaves in registers and flags. |
| Division.NativeDivides | mushashi/m68k_in.c:4569-4585 | The 64-bit handler delivers the signed quotients that fit 32 bits, -2^31 included, and sets V for the others. |
| Division.UnsignedQuad | mushashi/m68k_in.c:4625-4762 | For unsigned 64-bit dividends the registers get the true quotient and remainder, or V is set when the quotient needs more than 32 bits and no register changes. |
| Division.Divl | mushashi/m68k_in.c:4625-4762 | The 32-bit handler, with its sign handling and special cases, computes the outcome the other lemmas speak of. |
| Division.HandlersAgree | mushashi/m68k_in.c:4555-4762 | Wherever C defines the native division, the two handlers leave the same registers and flags if and only if the operands are outside a known set: signed 64-bit dividends with the quotient -2^31 other than 2^31 by -1, and signed 32-bit -2^31 by -1 keeping only the quotient. |
| Division.UndefinedOverflows | mushashi/m68k_in.c:4702-4708 | On the one signed division C leaves undefined, -2^63 by -1, the 32-bit handler reports overflow. |
| Multiplication.Halves | mushashi/m68k_in.c:7390-7435 | Four 16 by 16 products and their carries give exactly the 64-bit product. |
| Multiplication.Mull | mushashi/m68k_in.c:7319-7439 | The 32-bit handler leaves the registers and the flags of the 64-bit one for all operands, signed or not. |
| Multiplication.NativeIsExact | mushashi/m68k_in.c:7319-7368 | The 64-bit result is the exact product with its sign, zero flag and V clear; the 32-bit result is the low long of the exact product, which it equals unless V is set, with N and Z of those 32 bits; C is clear and no other register changes. |
| Shifts.ByIsMany | mushashi/m68k_in.c:1886-2219 | ASL, ASR, LSL, LSR, ROXL and ROXR by a count equal that many single-bit shifts in result, X, C and V, with ASL's V set if and only if the sign changed at some step. |
| Shifts.RotatingBack | mushashi/m68k_in.c:8596-8926 | ROXL and then ROXR by the same count, or the other way round, restore the operand and X. |
| Shifts.ShiftRegister | mushashi/m68k_in.c:5346-5626 | The handlers on the processor object, for 8, 16 and 32 bits and counts modulo 64: the low bits of the register are that result, its high bits and the other registers stay, and all five flags are set; X stays for a count of 0. |
| BitFields.ExtractIsSlice | mushashi/m68k_in.c:2664-2708 | For every signed offset and width 1 to 32, BFEXTU of memory gives exactly that slice of the bits of memory, across five bytes and around its end. |
| BitFields.SignedExtractIsSlice | mushashi/m68k_in.c:2582-2627 | BFEXTS gives the same slice as a signed number. |
| BitFields.WordDecodes | mushashi/m68k_in.c:2668-2690 | How offset, width and data register are read from the extension word or from registers, with 32 for a width of 0 modulo 32. |
| BitFields.Bfextu | mushashi/m68k_in.c:2664-2708 | The handler decodes offset, width and register from the extension word and leaves the slice and its flags. |
| BitFields.Bfexts | mushashi/m68k_in.c:2582-2627 | The same for BFEXTS. |
| BitFields.Bfffo | mushashi/m68k_in.c:2749-2798 | The result is the offset of the first one bit of the slice, or the offset plus the width when there is none. |
| BitFields.BfextuRegister | mushashi/m68k_in.c:2630-2661 | BFEXTU of a register leaves the field of the rotated register and its flags. |
| BitFields.BfinsRegister | mushashi/m68k_in.c:2801-2840 | BFINS of a register leaves the inserted value, the flags of the field, and nothing else changed. |
| BitFields.InsertThenExtract | mushashi/m68k_in.c:2801-2840 | BFEXTU after BFINS of a register reads back the low bits of the value, for every offset and width, with wraparound. |
| BitFields.InsertedBits | mushashi/m68k_in.c:2801-2840 | Bit by bit, BFINS writes the width bits from the offset on, around the end of the register, and no other. |
| BitFields.RegisterFieldBits | mushashi/m68k_in.c:2630-2661 | Bit by bit, BFEXTU of a register takes the width bits from the offset on, around the end of the register. |
| Movem.RoundTrip | mushashi/m68k_in.c:6919-7052 | MOVEM.L list,-(An) and then MOVEM.L (An)+ with the reversed list restores all sixteen registers for every list, An included. |
| Movem.SavedIsRestored | mushashi/m68k_in.c:6919-7052 | The same after anything in between that leaves An and the memory alone: listed registers and An are restored, the others are not touched. |
| Movem.SaveAllWrites | mushashi/m68k_in.c:6919-6936 | Saving moves An down by 4 for each register and writes only the bytes in between. |
| Movem.SavedLayout | mushashi/m68k_in.c:6919-6936 | The saved registers lie above the new An in the order D0 to A7. |
| Movem.RestoredLayout | mushashi/m68k_in.c:7035-7052 | The listed registers are loaded in the order D0 to A7 from An on, An ends behind them, and the others stay. |
| Movem.SaveRegisters | mushashi/m68k_in.c:6919-6936 | The loop over the register list on the processor object. |
| Movem.RestoreRegisters | mushashi/m68k_in.c:7035-7052 | The loop that restores, likewise. |
| JumpTable.Build | mushashi/m68k_in.c:167-269 | After the specialised loops every opcode has the handler of the last processed row with op & mask == match, or the illegal handler. |
| Sorting.SortedIsProcessed | mushashi/m68k_in.c:185-268 | A sorted table with a row of mask 0xff00 is processed to its end if and only if every row from the first of these on has a mask that some loop expects. |
| Sorting.PrecedesOrders | mushashi/m68kmake.c:797-806 | The comparison of rows is total and transitive, so every table can be sorted, and ties only rows of one mask and match value. |
| Sorting.MostSpecificWins | mushashi/m68kmake.c:797-820 | In a sorted table the handler of an opcode is that of the matching row with the most mask bits, then the greatest mask, then the greatest match value. |
| Generator.PatternMatches | mushashi/m68kmake.c:1148-1155 | Masking and comparing is the same as fitting the 16-character pattern, and the match value has no bit outside the mask. |
| Generator.ParsePattern | mushashi/m68kmake.c:1148-1155 | The loop computes that mask and match value, both below 0x10000. |
| Generator.EaCovers | mushashi/m68kmake.c:841-945 | For a row whose low six bits are open, its variants cover exactly the opcodes that match the row and have an allowed effective address, and match stays a subset of mask. |
| Generator.A7Overrides | mushashi/m68kmake.c:907-922 | After sorting, the byte variants for (A7)+ and -(A7) come after the general ones, and an opcode they match never gets the general handler. |
| Generator.CcCovers | mushashi/m68kmake.c:948-981 | The condition variants of a row cover exactly the opcodes its plain variants cover with condition 2 to 15. |
| Generator.OutputTable.EaVariants | mushashi/m68kmake.c:893-945 | The method appends exactly those variants to the output table, in its order. |
| Generator.OutputTable.CcVariants | mushashi/m68kmake.c:948-981 | The same for the conditions, each with its own name, although each match value is made from the last one. |
| Dispatch.LineCovers | mushashi/m68kmake.c:1067-1155 | The rows generated for a line of the instruction table cover exactly the opcodes the line declares, read off its text: pattern, allowed addressing modes, condition. |
| Dispatch.WinnerIsDispatched | mushashi/m68kmake.c:797-1060 | For any sorted permutation of the rows of all lines, an opcode gets a handler made for a line that declares it, for the condition in the opcode and its addressing mode; opcodes that no line declares are illegal. |
| Dispatch.HandlersDiffer | mushashi/m68kmake.c:742-751 | Handler numbers tell names, conditions and addressing modes apart and are never that of the illegal handler. |
| Dispatch.Generate | mushashi/m68kmake.c:984-1155 | Parsing all lines and adding their variants gives that set of rows. |
| Dispatch.Install | mushashi/m68k_in.c:167-269 | The builder on the sorted table leaves that dispatch in all 65536 entries. |
| Loader.Relocate | gemdos/loader.c:165-188 | The nested loops add the text base at each decoded address in turn. |
| Loader.DecodeEncode | gemdos/loader.c:165-188 | Decoding the encoding of a list of offsets gives the list, including gaps of any size as runs of 1-bytes, whatever follows in the file. |
| Loader.Relocates | gemdos/loader.c:165-188 | Relocating with that encoding adds the base, modulo 2^32, once to each listed longword and changes no other byte, for offsets at least 4 apart, odd ones included. |
| Loader.EndsUnlessCutOff | gemdos/loader.c:165-188 | The loops never end on a stream with a non-zero first longword whose other bytes hold no 0 and end in 1, and end on every other. |
| Loader.LoopsRelocate | gemdos/loader.c:165-188 | Whenever the loops, turn by turn, come to their end, they have added the base at each decoded address in turn. |
| FileNames.FileName83 | gemdos/path.c:14-107 | The loops write the short name and its end mark, at most 13 bytes, and return where the name ends in the path. |
| FileNames.ShortShape | gemdos/path.c:14-107 | A short name is "." or "..", or one to eight characters other than a dot and perhaps a dot and at most three more. |
| FileNames.ShortKeepsName | gemdos/path.c:14-107 | A short name holds no character that ends a name, so that mangling it again reads all of it. |
| FileNames.Idempotent | gemdos/path.c:14-107 | Mangling a short name again changes nothing. |
| FileNames.UnchangedIff | gemdos/path.c:14-107 | A name is left alone if and only if it is a dot name or has that form and the right case. |
| FileNames.PlainCharacters | gemdos/path.c:14-107 | A name that fits keeps its characters, in the right case. |
| FileNames.HashedCharacters | gemdos/path.c:40-104 | Character by character what a name that does not fit becomes: base, underscores and tildes, the three letters of its hash, extension. |
| FileNames.StirredBits | gemdos/path.c:95-99 | Bit by bit, what each step of the hash does. |

## Left out

- HeapRuns.RunsPartition: runs in which a size rounds to a negative number are excluded, because there the code loses the partition; StaysPartitionedIff says that these are the only ones.
- HeapRuns.StrictRunsCoalesce: does not hold of runs that shrink a block to its own size or allocate nothing; EmptyShrinkBlocksCoalescing shows why.
- CookieJar.Jar.WriteCookie: requires that a jar that must grow can; the code does not look at the result of Malloc and would move the jar to address 0. With a zero key the code overwrites the capacity in the terminator, and so does the model.
- CookieJar.Jar.InitCookieJar: starts from a fresh heap, as the emulator does.
- ChainSums.ChainAdds: byte operands with A7, for which other handlers exist, and operands that overlap are not covered.
- Processor.Cpu.Rte: takes the number of throwaway frames as a ghost parameter, so a stack of throwaway frames that never ends, on which the C loop does not end either, is excluded.
- ChainSums.ChainStaysProper: ABCD and SBCD on bytes that are not two decimal digits are modelled as in the code, but no theorem speaks of them.
- ChainSums.ChainOverflow: says nothing of V after ABCD and SBCD, which the processor manual leaves undefined; the model sets it as the code does.
- Generator.EaCovers: rows whose low six bits are partly fixed are not covered; the instruction table has none with addressing modes.
- InitMemory: the writes of _membot, _memtop and phystop, and a host malloc that fails.
- Mxalloc, Maddalt and Pexec's use of the heap.
- Signed overflow that C leaves undefined: rounding sizes near 2^31 and the negations of DIVL and MULL wrap, as they do on the hosts the program is built for.
- Memory accesses through the accessors outside emulated memory, which fault in the original; a longword that straddles the last address goes on at address 0.
- Processor types other than the 68020, trace, address errors, halting, prefetch, function codes and cycle counts, including the cycle tables the builder fills beside the jump table.
- Code between exceptions is any change that leaves the frames alone and the stack pointers at or below them; the instructions themselves are not modelled there.
- ROL and ROR, shifts by an immediate count and of memory, and the 64-bit-host variants of ROXL.L and ROXR.L that are compiled out.
- Bit fields: memory BFINS, BFCHG, BFCLR, BFSET and BFTST, and BFEXTS and BFFFO of a register.
- MOVEM: word-sized forms and the other addressing modes. ADDX, SUBX, ABCD and SBCD between registers.
- Flags are compared in the bits that the condition macros look at, not in the scratch bits around them.
- The generator's function bodies, text replacement and file parsing; a handler is a number made of name, condition and addressing mode. The sort is any sorted permutation, as the C library's qsort leaves equal rows in any order.
- num_bits is the number of ones, not its table-free bit trick.
- Upper case is that of the C locale, and char is signed in the hash of a name.
- Everything that talks to the host: files, directories, processes, signals, devices, and path translation.
