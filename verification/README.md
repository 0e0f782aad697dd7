# Verified model of vminer's memory introspection core

vminer rebuilds the state of a guest from its raw physical memory. This project models the parts of
it that carry the hard logic, and proves what they are for:

- **The Windows x64 unwinder.** The decoder of unwind codes, the lookup in a function table some
  pages of which may read as zeroes, the interpreter that undoes prologs through chained entries,
  and the emulator of epilogs (Microsoft "x64 exception handling"). `Prologs` defines what executing
  a prolog does to the machine; `CallerRecovery` proves that unwinding inverts it, `Epilogs` that
  emulating an epilog agrees with the processor and with the codes, and `StackWalks` that walking a
  whole stack reports exactly the calls under way.
- **Paging and memory.** Four-level address translation (Intel SDM volume 3A, section 4.5), for any
  predicates telling valid and large entries, and what it gives for tables laid out by hand
  (`PageTables`), the recursive search of all mapped memory, the
  iterator on top of it, the splitting of virtual reads at pages, and the chunked search of a page.
- **Dumps.** Packing the memory of a guest by prefix sums, reading it back through remapping, and
  the round trip of the file format.
- **Indexes and caches.** The tree of memory areas against the linear scan, the doubly sorted symbol
  table, the memoised resolution of DWARF and PDB types against what their entries declare
  (`TypeLayouts`), the flattening of anonymous structures
  (DWARF 5, section 5.7.6), and the module table of Linux against the scan of the area list.

Loops and objects of the source are methods and classes here, each proved against a function or
relation; the results are lemmas about those. Every probe of a binary search is an arbitrary index of
the range left, so nothing depends on how the standard library probes. Any read of guest memory may
fail. Addresses and sizes are natural numbers bounded where the source's width matters.

## Where the code differs from its promise

These are proved as exact conditions, with the code modelled as it is:

- `UnwindInfos.ParsesBackUnlessPadded`: the padding slot after an odd number of unwind code slots is
  not skipped, so the mother of a chained entry with an odd number of slots is misread.
- `CallerRecovery.StartIsRightExactly`: the frame pointer is used as if the prolog had just set it. So
  unwinding starts wrong between saving RBP and setting the pointer (`PointerNotSetYet`), throughout
  the body if stack is taken after the pointer is set (`StackAfterPointer`), and with any frame
  register but RBP (`FrameRegisterMustBeRbp`).
- `Epilogs.StableFromEveryInstruction`: the immediate of `add rsp, imm` is zero-extended where the
  processor sign-extends it.
- `PhysicalMemory.ChunkedSearch`: the documentation promises an index in the page; the code returns
  the index in the chunk.
- `KernelSearch.SearchIsRightExactly`: in pages that do not fit the search buffer, which are exactly
  those of 1 GiB (`OnlyHugePagesDoNotFit`), an occurrence past the first buffer length is answered
  with a wrong address (`HugePageMisleads`).
- `KernelSearch.KernelSearchIterator.Next`: an iteration goes on past its region if and only if the
  needle, then of one byte at most, occurs at the very last byte of it.
- `DumpFormat.WriteThenRead`: memory is written in blocks of 64 KiB, so a mapping of another size
  makes writing fail.
- `LinuxModules.LookupsAgreeExactly`: two areas of one run that both map the beginning of their file
  make the binary search and the scan disagree.

## Model

| member | source | states |
|---|---|---|
| Bytes.ByteCursor.ReadSlice | vminer/src/os/windows/callstack.rs:34-40 | takes exactly `len` bytes off the front, or fails and leaves the cursor alone |
| Bytes.ByteCursor.ReadU8 | vminer/src/os/windows/callstack.rs:8-12 | takes the first byte off, or fails at the end |
| Bytes.ByteCursor.ReadU16 | vminer/src/os/windows/callstack.rs:14-22 | reads a little-endian number of two bytes and moves past it, or fails if fewer are left |
| Bytes.ByteCursor.ReadU32 | vminer/src/os/windows/callstack.rs:24-32 | the same for four bytes |
| UnwindCodes.DecodeNext | vminer/src/os/windows/callstack.rs:72-131 | every item takes at least one byte, so decoding ends |
| UnwindCodes.UnwindOpIterator.NextOp | vminer/src/os/windows/callstack.rs:77-131 | reading one operation moves the cursor as the functional decoder says, an unknown code or one cut short ends the iteration |
| UnwindCodes.UnwindOpIterator.Next | vminer/src/os/windows/callstack.rs:72-131 | each call yields the next item of the list the decoder gives for the bytes left |
| UnwindCodes.DecodeEncoded | vminer/src/os/windows/callstack.rs:69-131 | decoding gives back every list of operations from its encoding: small, large and far allocations, near and far saves, XMM saves, pushes, frame pointer, version-2 epilogs, machine frames |
| UnwindCodes.DecodesExactlyEncodings | vminer/src/os/windows/callstack.rs:69-131 | bytes decode without a malformed item if and only if they are the encoding of some list of operations the version can express |
| UnwindCodes.CodesByTheirBytes | vminer/src/os/windows/callstack.rs:72-131 | the numbering of the operations, fixed by one byte string for each: push, small allocation, frame pointer, epilog (in version 2 only), both machine frames, and two unknown codes |
| UnwindCodes.OperandsByTheirBytes | vminer/src/os/windows/callstack.rs:77-131 | for all operand bytes: large and far allocations, saves and XMM saves, with an operand of two bytes scaled by 8 or 16, or of four taken whole |
| FunctionTable.Probe | vminer/src/os/windows/callstack.rs:213-223 | the binary search, whatever it probes, returns a position whose two neighbours it saw valid, or says that it met an entry with a zeroed field |
| FunctionTable.FindRuntimeFunction | vminer/src/os/windows/callstack.rs:209-268 | its answer is one of those the binary search or the linear fallback may give |
| FunctionTable.FunctionOfIsUnique | vminer/src/os/windows/callstack.rs:209-268 | in a linked table at most one function contains an offset |
| FunctionTable.LinearNeverWrong | vminer/src/os/windows/callstack.rs:225-257 | the fallback on a table with holes answers rightly, and answers if and only if the entries that decide about the offset were read as they are |
| FunctionTable.BinaryNeverWrong | vminer/src/os/windows/callstack.rs:258-267 | a binary search that met valid entries only answers as the full table would |
| FunctionTable.HolesNeverMislead | vminer/src/os/windows/callstack.rs:209-268 | whatever fields of whatever entries read as zero, and whatever is probed, every `Ok` answer is that of the full table; and there is one whenever the entries around the offset are mapped |
| FunctionTable.AnswerIsEntry | vminer/src/os/windows/callstack.rs:209-268 | a function found is an entry of the table |
| Unwinder.ReadHeader | vminer/src/os/windows/callstack.rs:270-288 | the fixed part: the version must be 1 or 2, the flags, the slot count, the frame register and its offset |
| Unwinder.ParseFunction | vminer/src/os/windows/callstack.rs:270-303 | parses the entry, and the mother of a chained one, or fails on data cut short |
| UnwindInfos.FunctionRoundTrip | vminer/src/os/windows/callstack.rs:161-182 | a table entry is read back from its twelve bytes |
| UnwindInfos.ParsesBackUnlessPadded | vminer/src/os/windows/callstack.rs:270-303 | parsing gives back exactly what was stored if and only if the entry is not chained or has an even number of slots: the padding slot of odd ones is not skipped |
| UnwindInfos.ShiftedFunctionDiffers | vminer/src/os/windows/callstack.rs:290-295 | two bytes too early, the bytes of a non-empty function are always read as a different one |
| UnwindInfos.ParsesExactly | vminer/src/os/windows/callstack.rs:270-303 | an entry is read if and only if its version is 1 or 2 and the codes it counts, and the mother it announces, are there; it is made of just those bytes |
| UnwindInfos.EntryIsReadAtPtr | vminer/src/os/windows/callstack.rs:270-273 | the entry of a function is read where its `ptr` points in the image |
| UnwindInfos.TableIsItsEntries | vminer/src/os/windows/callstack.rs:305-309 | the function table is the list of entries of which the directory holds the bytes, twelve each |
| Unwinder.FinishMachFrame | vminer/src/os/windows/callstack.rs:499-539 | a machine frame must be the last code of an entry without a mother |
| Unwinder.ReadUnwindCodes | vminer/src/os/windows/callstack.rs:499-539 | the loop over the codes computes their functional meaning: offset of the saved RBP and total size, codes past the instruction skipped |
| Unwinder.ReadFailsExactly | vminer/src/os/windows/callstack.rs:499-539 | reading codes fails if and only if one is malformed, executed or not, an executed machine frame is not last or has a mother, or the stack they account for does not fit 32 bits, and the error says which; otherwise the offset is the start plus that stack |
| Unwinder.UnwindWithInfos | vminer/src/os/windows/callstack.rs:541-602 | the loop over an entry and its mothers computes their functional meaning |
| Unwinder.OffsetIs | vminer/src/os/windows/callstack.rs:547-548 | the offset in the image is the one number below 2^32 that the load address and the instruction pointer differ by, up to multiples of 2^32 |
| Unwinder.UnwindFromAnyBound | vminer/src/os/windows/callstack.rs:565-594 | the bound on the length of the chain is only a witness that it ends: results do not depend on it |
| Unwinder.StartIsRoot | vminer/src/os/windows/callstack.rs:565-602 | whatever the codes do, the function start reported is that of the entry at the end of the chain |
| Unwinder.NoMachFrameWithMother | vminer/src/os/windows/callstack.rs:499-539 | reading the codes of a chained entry never reports an interrupt frame |
| Prologs.ReadExecuted | vminer/src/os/windows/callstack.rs:499-539 | reading the codes of executed steps adds up their sizes and keeps the offset of the save of RBP that was executed first |
| Prologs.SkipAllPending | vminer/src/os/windows/callstack.rs:499-539 | codes of steps not executed yet change nothing |
| Prologs.RunKeepsFrame | vminer/src/os/windows/callstack.rs:541-602 | executing a prolog overwrites nothing of the frames above and lowers RSP by the total of its codes |
| Prologs.BpSlotHolds | vminer/src/os/windows/callstack.rs:499-539 | the slot chosen for RBP holds what RBP was before the prolog, if the prolog saves it; otherwise RBP is left alone |
| Prologs.SectionUndone | vminer/src/os/windows/callstack.rs:565-594 | undoing one prolog of a chain moves the stack pointer by its total and goes on in the mother; at the root it ends in a call or an interrupt frame |
| Prologs.ChainAddresses | vminer/src/os/windows/callstack.rs:541-602 | for any starting stack pointer, unwinding a chain undoes the total size of all its prologs and the interrupt frame |
| Prologs.ChainFindsBp | vminer/src/os/windows/callstack.rs:565-594 | started at the right stack pointer, unwinding finds the caller's RBP wherever in the chain it was saved first |
| CallerRecovery.StartIsRightExactly | vminer/src/os/windows/callstack.rs:553-562 | unwinding starts from where the executed prologs left RSP if and only if the codes and the registers at entry meet `RightStart`: without a frame pointer RSP has not moved since; with one, the prologs have put RBP as far above RSP as the entry says, or have not set it and the RBP of the caller points there by chance |
| CallerRecovery.UnwindRecoversCaller | vminer/src/os/windows/callstack.rs:541-602 | unwinding inverts the prolog: after any number of executed steps, through any chain of mothers, for calls and interrupts, it returns the slot of the resume address if and only if `RightStart` holds, and then recovers the IP, SP and RBP of the caller; it fails if and only if it needs a frame pointer that is missing or below the offset of the entry |
| CallerRecovery.FramePointerFreesRsp | vminer/src/os/windows/callstack.rs:553-562 | for every chain whose frame pointer is RBP: the start is right, wherever the body has moved RSP, if and only if the prologs have set the pointer and took no stack since, or have not set it and the RBP of the caller points there by chance |
| CallerRecovery.StartsFromRsp | vminer/src/os/windows/callstack.rs:553-562 | without a frame pointer, and at the first instruction with or without one, the start is right if and only if RSP is where the prologs left it, and RBP need not be known |
| CallerRecovery.FrameRegisterMustBeRbp | vminer/src/os/windows/callstack.rs:284-286 | for an entry that names a frame register, the start is right whatever the registers at entry if and only if the register is RBP and the prologs have set it and took no stack since |
| CallerRecovery.PointerNotSetYet | vminer/src/os/windows/callstack.rs:553-562 | an instance: after `push rbp` and before `mov rbp, rsp` the start is right only if the RBP of the caller points at the top of the stack |
| CallerRecovery.StackAfterPointer | vminer/src/os/windows/callstack.rs:534-562 | an instance: with `push rbp; mov rbp, rsp; sub rsp, 32` the start is wrong by 32 bytes throughout the body, whatever the registers |
| CallerRecovery.ReadInMiddle | vminer/src/os/windows/callstack.rs:499-539 | reading the codes of an entry on their own equals reading its executed codes in the middle of a longer list |
| CallerRecovery.ReadAtEnd | vminer/src/os/windows/callstack.rs:499-539 | the same at the end of the list, where an interrupt frame may be last |
| CallerRecovery.ChainIsFlat | vminer/src/os/windows/callstack.rs:565-594 | unwinding a chain of any length equals unwinding one entry that has the executed codes of the first and all codes of each mother in turn, ending in a call or in an interrupt frame of the root, when RBP is saved by push |
| Epilogs.ReadAddRsp | vminer/src/os/windows/callstack.rs:438-449 | decodes the two forms of `add rsp, imm` and their immediates |
| Epilogs.ScanEpilog | vminer/src/os/windows/callstack.rs:424-491 | the loop over the instructions computes the functional scan of the bytes |
| Epilogs.FindFunStart | vminer/src/os/windows/callstack.rs:469-483 | follows the chain of the function to its root |
| Epilogs.FindByOffset | vminer/src/os/windows/callstack.rs:305-309 | answers from the function table of the image |
| Epilogs.ReadEpilog | vminer/src/os/windows/callstack.rs:424-491 | answers exactly where the bytes at the instruction are the rest of an epilog |
| Epilogs.UnwindFunction | vminer/src/os/windows/callstack.rs:604-631 | the epilog first, then the unwind data, else a leaf |
| Epilogs.UndecidedIsAnError | vminer/src/os/windows/callstack.rs:604-631 | where too much of the table is unmapped to tell the function, and the code is no epilog, unwinding fails instead of guessing |
| Epilogs.ScanAcceptsEpilogs | vminer/src/os/windows/callstack.rs:424-491 | the emulator accepts exactly the code of epilogs: pops except of RSP, flags, additions to RSP, up to a `ret` |
| Epilogs.EmulationExactness | vminer/src/os/windows/callstack.rs:424-491 | against the processor the emulated stack pointer is never too low, and is exact if and only if no addition has a negative operand: immediates are zero-extended |
| Epilogs.StableFromEveryInstruction | vminer/src/os/windows/callstack.rs:424-491 | unwound after any number of its instructions, an epilog gives the slot the processor will return through, and the RBP it will leave, if and only if none of the remaining additions has a negative operand |
| Epilogs.MirrorMatchesCodes | vminer/src/os/windows/callstack.rs:424-602 | for a chain of any length, emulating the mirrored prologs and undoing the codes end at the same slot, and give the same slot for RBP unless a prolog saves it by a move |
| Epilogs.EpilogAgreesWithCodes | vminer/src/os/windows/callstack.rs:424-602 | at an epilog that mirrors the executed prologs, whatever they push, allocate, move or set, the emulator gives the result the unwind codes give from the body; the slot of RBP is the same if and only if no prolog moves it, where it is saved one way only |
| ModuleLookup.FindModuleByAddress | vminer/src/os/windows/callstack.rs:343-351 | in any table sorted by start, equal starts and empty spans included, the binary search, whatever it probes, finds a module that starts at the address, else the last that starts below it, if it contains it, and otherwise none |
| StackWalks.Context.GetUnwindData | vminer/src/os/windows/callstack.rs:151-158 | the lazily filled cache answers what reading the module gives |
| StackWalks.StrayWalksEnd | vminer/src/os/windows/callstack.rs:635-667 | at an address in no module a walk reports one more frame at most, and ends without an error if and only if that address and the stack pointer are mapped and the callback breaks there |
| StackWalks.FailedWalksEnd | vminer/src/os/windows/callstack.rs:635-729 | a walk that can go no further reports its frame without a function start, with the module if there is one, and ends with the error of what is missing unless the callback fails or breaks |
| StackWalks.CallerExactly | vminer/src/os/windows/callstack.rs:706-712 | the caller is known if and only if the slots unwinding found can be read and its stack pointer is an address; it is what they hold, and RBP stays where none was found |
| StackWalks.IterCallstack | vminer/src/os/windows/callstack.rs:669-729 | the loop performs a walk as the step-by-step relation defines it, for every callback |
| StackWalks.FunctionUnwinds | vminer/src/os/windows/callstack.rs:604-631 | unwinding a function anywhere in its prolog or body where its codes and registers meet `RightStart` gives the position it was entered from |
| StackWalks.EpilogUnwinds | vminer/src/os/windows/callstack.rs:424-491 | unwinding from inside an epilog gives the position executing the rest of it returns to |
| StackWalks.ActiveUnwinds | vminer/src/os/windows/callstack.rs:604-631 | whatever the function table answers, unwinding an active function gives the registers of the one below it |
| StackWalks.WalkEnds | vminer/src/os/windows/callstack.rs:669-729 | a walk over calls under way ends |
| StackWalks.WalkReportsCalls | vminer/src/os/windows/callstack.rs:669-729 | over a whole run: for any number of nested calls and interrupts, each in a leaf, an epilog, or a prolog or body that meets `RightStart`, every walk reports exactly their frames, innermost first, until the callback stops it, and ends without an error of its own |
| PhysicalMemory.ReadPhysical | vminer-core/src/mem.rs:27-30 | fills the whole part of the buffer or reports the fault and leaves it alone |
| PhysicalMemory.Search | vminer-core/src/mem.rs:38-67 | the loop over chunks computes the functional chunked search |
| PhysicalMemory.ChunksFromMissNothing | vminer-core/src/mem.rs:38-67 | from any point of the scan, the chunks contain the needle if and only if the page does, and chunk offset plus index is the leftmost occurrence |
| PhysicalMemory.ChunkedSearch | vminer-core/src/mem.rs:32-67 | a hit is reported if and only if the page contains the needle; the index reported is that in the page, as the documentation says, if and only if the occurrence lies in the first buffer length, and too low otherwise |
| PhysicalMemory.SearchFacts | vminer-core/src/mem.rs:38-67 | the same for a range of any size that fits the buffer or can be read whole or not at all; the search fails if and only if the range cannot be read |
| PhysicalMemory.SearchErrorIsFault | vminer-core/src/mem.rs:38-67 | a search fails only with the error of a range within the one searched |
| Paging.VirtualToPhysical | vminer-core/src/arch/mod.rs:414-447 | the loop that overwrites the entry level by level computes the recursive translation |
| PageTables.MappedAddressTranslates | vminer-core/src/arch/mod.rs:414-447 | tables that hold entries of any high bits and flags at indices i0 to i3 map the address made of these indices and an offset to the frame of the last entry plus the offset, for pages of 4 KiB, 2 MiB and 1 GiB |
| PageTables.UnmappedAddressFails | vminer-core/src/arch/mod.rs:414-447 | an address whose path ends in an entry that is not valid, or that cannot be read, at any level, gives that entry or that fault as error |
| Paging.LeafIsTranslation | vminer-core/src/arch/mod.rs:414-519 | where the recursive search descends to a page, the page walk translates to the same byte |
| Paging.TranslationIsLeaf | vminer-core/src/arch/mod.rs:414-519 | conversely, an address that translates lies in such a page if and only if the tables on the way can be read whole |
| Paging.TableResult | vminer-core/src/arch/mod.rs:452-519 | the answer below an entry of a table is the answer for the table, and none means that the entry has no occurrence |
| Paging.FindInKernelMemoryInner | vminer-core/src/arch/mod.rs:452-519 | it fails if and only if it meets a table or a searched part of a page, on the way to some address from the start on, with that very fault, other than out of bounds, before any answer; entries that are not valid and memory that does not exist are passed over. For pages that fit the buffer or can be read whole or not at all: None if and only if no readable page contains the whole needle from the start on; otherwise the least such address if its needle ends within the first buffer length searched of its page, and a lower one if not |
| Paging.FaultIsReal | vminer-core/src/arch/mod.rs:452-519 | a fault the search may report is one reading memory gives |
| KernelSearch.FindInKernelMemoryRaw | vminer-core/src/arch/mod.rs:525-546 | the same from the root; it never fails if memory is only there or not; on pages that fit the buffer the answer is always the least occurrence |
| KernelSearch.SearchIsRightExactly | vminer-core/src/arch/mod.rs:452-546 | the answer is right if and only if there is no occurrence or the least one ends within the first buffer length searched of its page; a wrong answer is an address at which the needle does not occur |
| KernelSearch.HugePageMisleads | vminer-core/src/arch/mod.rs:452-546 | an instance: a needle 3 MiB into a page of 1 GiB is answered with a lower address, where it does not occur |
| KernelSearch.FoundTranslates | vminer-core/src/arch/mod.rs:414-546 | an address the search may return translates, and the needle lies at its translation |
| KernelSearch.TranslatedIsFound | vminer-core/src/arch/mod.rs:414-546 | the needle at the translation of any address from the start on is found if and only if the tables on the way can be read whole, it fits its page, and the part of the page searched can be read |
| KernelSearch.OnlyHugePagesDoNotFit | vminer-core/src/arch/mod.rs:525-546 | the pages that do not fit the buffer are exactly those of 1 GiB |
| KernelSearch.ExactUnlessHuge | vminer-core/src/backend.rs:261-297 | so an iteration is exact if and only if no page from its start on is one of 1 GiB |
| KernelSearch.StartMoves | vminer-core/src/backend.rs:270-297 | restarting right after an occurrence changes nothing about the later ones |
| KernelSearch.TwoBytesSuffice | vminer-core/src/backend.rs:270-297 | needles of at least two bytes never occur at the last byte of the region, so their iteration never leaves it |
| KernelSearch.Continue | vminer-core/src/backend.rs:270-297 | the answer of one search extends the list of occurrences without gap or repeat |
| KernelSearch.KernelSearchIterator.constructor | vminer-core/src/backend.rs:261-268 | the iteration starts at the kernel base with nothing yielded |
| KernelSearch.KernelSearchIterator.Next | vminer-core/src/backend.rs:270-297 | over a whole run: what was yielded is strictly increasing, overlapping occurrences included; for pages that fit the buffer it is exactly the occurrences below the search address since the start, or since the last error, after which the search goes on one byte further; the call that returns None has left none out; it fails only with a fault met on the way to some address, and never if memory is only there or not; the iteration leaves its region if and only if the needle occurs at the last byte of it |
| VirtualReads.Distance | vminer-core/src/lib.rs:60-64 | wrapping subtraction gives the distance to the next page, also across the end of the address space |
| VirtualReads.ReadVirtualMemory | vminer-core/src/lib.rs:53-74 | the splitting loop reads the chunks of the request in order and stops at the first error |
| VirtualReads.ChunksPartition | vminer-core/src/lib.rs:53-74 | the chunks partition the request in order and none crosses a page, even when addresses wrap past 2^64 |
| VirtualReads.DefaultReadVirtualMemory | vminer-core/src/backend.rs:6-15 | one chunk is translated and read |
| VirtualReads.WalkInPage | vminer-core/src/arch/mod.rs:414-447 | translation is linear within a 4 KiB page |
| VirtualReads.SplitReadIsBytewise | vminer-core/src/lib.rs:53-90 | byte i of the result is physical memory at the translation of addr + i; a read fails if and only if some chunk has no translation, other than a skipped one, or faults, and then with the error of the first such chunk, having read everything before it and nothing after |
| VirtualReads.TryReadSkipsUnmapped | vminer-core/src/lib.rs:76-90 | the `try_` form fails on memory errors only and leaves exactly the bytes of invalid pages unchanged |
| RemappedMemory.ReadPhysicalRemapped | vminer-core/src/mem.rs:199-217 | reads through the first mapping that covers the range, or is out of bounds |
| RemappedMemory.PrefixSums | vminer/src/backends/kvm_dump/mod.rs:83-91 | the running sum of the sizes, unless it overflows |
| RemappedMemory.PrefixSumsPack | vminer/src/backends/kvm_dump/mod.rs:170-189 | prefix sums place the mappings in the packed buffer without gap or overlap |
| RemappedMemory.PackedRead | vminer-core/src/mem.rs:199-217 | a read of the packed buffer is the matching slice of the part of its mapping |
| DumpFormat.DumpVm | vminer/src/backends/kvm_dump/mod.rs:170-189 | the loop that fills the buffer packs every mapping of the guest, with its architecture and vcpus |
| DumpFormat.DumpPreservesMemory | vminer/src/backends/kvm_dump/mod.rs:170-189 | reading any range inside a mapping of the dump equals reading the guest, and any other range is out of bounds |
| DumpFormat.DumpBlocks | vminer-core/src/mem.rs:70-81 | the block loop computes the functional dump of a mapping |
| DumpFormat.BlocksOfMapping | vminer-core/src/mem.rs:70-81 | dumping a mapping gives its bytes if its size is a whole number of blocks, and otherwise runs over its end |
| DumpFormat.Write | vminer/src/backends/kvm_dump/mod.rs:120-166 | the sequential writer writes header, mappings, vcpus and memory |
| DumpFormat.ReadVcpu | vminer/src/backends/kvm_dump/mod.rs:29-61 | one record of three register sets |
| DumpFormat.ReadVcpus | vminer/src/backends/kvm_dump/mod.rs:29-61 | the loop over vcpu records |
| DumpFormat.ReadDump | vminer/src/backends/kvm_dump/mod.rs:70-117 | the sequential reader computes the functional parser, errors included |
| DumpFormat.MappingsRoundTrip | vminer/src/backends/kvm_dump/mod.rs:70-166 | the mapping table is read back |
| DumpFormat.VcpusRoundTrip | vminer/src/backends/kvm_dump/mod.rs:30-166 | the vcpu records are read back, whatever follows them |
| DumpFormat.WriteThenRead | vminer/src/backends/kvm_dump/mod.rs:70-166 | reading back what was written gives the same dump if and only if the size of every mapping is a multiple of 64 KiB; otherwise writing fails, for disjoint mappings |
| DumpFormat.ParsesExactly | vminer/src/backends/kvm_dump/mod.rs:70-117 | the converse: a file is read as a dump if and only if it is header, mappings, complete vcpus and a memory of the total size of the mappings, whose sums fit; every other file is an error |
| DumpFormat.MemoryMustFit | vminer/src/backends/kvm_dump/mod.rs:100-108 | a dump that lacks some of its memory or has more is refused with the error for its size |
| DumpFormat.RefusedExactly | vminer/src/backends/kvm_dump/mod.rs:70-99 | a file is refused for its magic number if and only if it has a header with another one; an unknown architecture is always refused |
| DumpFormat.DumpFileLength | vminer/src/backends/kvm_dump/mod.rs:120-166 | a dump is 16 bytes of header and for each mapping, 472 or 304 for each vcpu, and the memory |
| TypeResolution.TypeList.FindByOffset | vminer-core/src/symbols/dwarf/mod.rs:427-435 | the binary search, whatever it probes, finds the entry at an offset if there is one |
| TypeResolution.TypeList.Push | vminer-core/src/symbols/dwarf/mod.rs:423-425 | pushing in the order of offsets keeps the list sorted |
| TypeResolution.TypeList.ClassifyType | vminer-core/src/symbols/dwarf/mod.rs:447-471 | resolves what the entry needs and classifies it, as plain resolution does |
| TypeResolution.TypeList.GetType | vminer-core/src/symbols/dwarf/mod.rs:473-479 | in any state of the cells the answer is that of uncached resolution; every full cell is right, and stays full |
| TypeResolution.ResolveAnyRank | vminer-core/src/symbols/dwarf/mod.rs:447-479 | the rank that shows the type graph acyclic does not matter |
| TypeLayouts.ResolvesExactly | vminer-core/src/symbols/dwarf/mod.rs:367-479 | resolution gives a type if and only if the entries declare it, by a definition of its own: bases by size and sign, pointers to what is declared or unknown, aliases, arrays, named structures and unions, functions; and none if and only if nothing is declared |
| TypeLayouts.LayoutResolves | vminer-core/src/symbols/dwarf/mod.rs:367-479 | round trip: for every type debugging entries can declare, resolving the root of entries laid out for it, with aliases in between, gives it back |
| PdbTypes.PointerModes | vminer-core/src/symbols/pdb/mod.rs:6-35 | a pointer to a built-in type is known if and only if the type is |
| PdbTypes.BuiltinsExactly | vminer-core/src/symbols/pdb/mod.rs:6-35 | the built-in types are exactly void and the integers of 1, 2, 4 and 8 bytes by their codes, and the 64-bit pointers to them |
| PdbTypes.ProductIsElements | vminer-core/src/symbols/pdb/mod.rs:60 | the dimension of an array is the number of its elements modulo 2^32 |
| PdbTypes.ResolvesIndexExactly | vminer-core/src/symbols/pdb/mod.rs:53-110 | resolution of an index gives a type if and only if the records declare it, by a definition of its own |
| PdbTypes.PdbTypeList.ClassifyType | vminer-core/src/symbols/pdb/mod.rs:53-86 | classifies a record as plain resolution does; a pointer to an unknown type is unknown |
| PdbTypes.PdbTypeList.GetType | vminer-core/src/symbols/pdb/mod.rs:88-110 | the memo over indices agrees with uncached resolution in any state of the cells |
| StructFields.CollectMember | vminer-core/src/symbols/dwarf/mod.rs:489-515 | bit fields are ignored, named members added, anonymous structures and unions entered |
| StructFields.CollectFieldsInto | vminer-core/src/symbols/dwarf/mod.rs:482-517 | appends the fields of the structure, whatever the cells hold |
| StructFields.CollectFields | vminer-core/src/symbols/dwarf/mod.rs:519-523 | collects them from offset zero |
| StructFields.FieldsAreReachableMembers | vminer-core/src/symbols/dwarf/mod.rs:482-523 | at any depth the fields are exactly the named members at byte offsets reachable through anonymous members, each once, in declaration order, at the sum of the offsets on its path |
| StructFields.AnonymousExactly | vminer-core/src/symbols/dwarf/mod.rs:505-512 | entered are exactly the members without a name, at a byte offset, whose type is a structure or union |
| StructFields.FieldTypeExactly | vminer-core/src/symbols/dwarf/mod.rs:500-503 | the type of a field is the one declared for its member, and the unknown one where none is |
| VadTree.IterateIsScan | vminer/src/os/windows/mod.rs:101-122 | for every callback, the recursive walk is the scan of the nodes in order: each node once, nothing after a break or an error |
| VadTree.SplitPageNumbers | vminer/src/os/windows/mod.rs:751-779 | whatever follows the 32-bit low parts in memory, an area spans exactly its pages |
| VadTree.WholePageNumbers | vminer/src/os/windows/mod.rs:751-779 | where the profile has no high parts, an area spans the pages of its fields |
| VadTree.NodesAscend | vminer/src/os/windows/mod.rs:101-122 | the nodes of an ordered tree are visited in ascending order |
| VadTree.DescentNeverWrong | vminer/src/os/windows/mod.rs:124-149 | whatever cannot be read, the descent gives the right area or an error |
| VadTree.DescentFailsExactly | vminer/src/os/windows/mod.rs:124-149 | the descent fails if and only if a field or pointer it needs on its path cannot be read |
| VadTree.ScanNeverWrong | vminer-core/src/os.rs:211-219 | so does the linear scan |
| VadTree.DescentIsScan | vminer/src/os/windows/mod.rs:677-694 | the descent finds the very node the linear scan stops at first, whenever neither fails; on a readable tree neither fails |
| VadTree.CollectsEveryNode | vminer-core/src/os.rs:205-209 | a walk that is never stopped collects every node exactly once, in ascending order |
| SymbolTable.ModuleSymbolsBuilder.Push | vminer-core/src/symbols/mod.rs:223-228 | what was pushed before reads back unchanged from the grown buffer, followed by the new symbol |
| SymbolTable.ModuleSymbolsBuilder.Extend | vminer-core/src/symbols/mod.rs:270-279 | adds all symbols in order |
| SymbolTable.ModuleSymbolsBuilder.Build | vminer-core/src/symbols/mod.rs:206-221 | the two tables are permutations of what was pushed, sorted by address and by name |
| SymbolTable.Sort | vminer-core/src/symbols/mod.rs:206-221 | sorts by the given order and permutes |
| SymbolTable.NameOrder | vminer-core/src/symbols/mod.rs:213-214 | comparing names bytewise is a total order |
| SymbolTable.NameOrderIs | vminer-core/src/symbols/mod.rs:213-214 | a prefix comes first, and else the first bytes that differ decide |
| SymbolTable.SymbolsPermute | vminer-core/src/symbols/mod.rs:206-221 | permuting ranges permutes the names they stand for |
| SymbolTable.BinarySearch | vminer-core/src/symbols/mod.rs:319-342 | whatever is probed, the position has only smaller keys before and greater ones after |
| SymbolTable.ModuleSymbols.GetSymbol | vminer-core/src/symbols/mod.rs:319-322 | a name pushed for that address, if and only if there is one |
| SymbolTable.ModuleSymbols.GetSymbolInexact | vminer-core/src/symbols/mod.rs:324-334 | a symbol with the greatest pushed address not above the query, and its distance; None if and only if all are above |
| SymbolTable.ModuleSymbols.GetAddress | vminer-core/src/symbols/mod.rs:336-342 | an address pushed for that name, if and only if there is one |
| LinuxModules.ModuleSpan | vminer/src/os/linux/mod.rs:552-574 | the walk along the list ends at the last of the consecutive areas of the same file |
| LinuxModules.NewContext | vminer/src/os/linux/callstack.rs:52-75 | the table lists the spans of the areas that map the beginning of a file, in order; it fails if and only if the list is broken or the path of such a file cannot be read |
| LinuxModules.ModulesExactly | vminer/src/os/linux/callstack.rs:52-75 | the table holds exactly the modules that start at the first mapping of a file and end with the run of areas that map it |
| LinuxModules.ScanForModule | vminer-core/src/os.rs:284-301 | the scan of the list stops at the first module that contains the address, or at a path or area that cannot be read; addresses of the kernel have no module |
| LinuxModules.ScanDecided | vminer-core/src/os.rs:284-301 | on any list the scan is decided by the first area that starts a module with the address, or one whose path or end cannot be read; else by the end of the list |
| LinuxModules.ScanIsFirstContaining | vminer-core/src/os.rs:284-301 | on a list that can be read the scan gives the first module of the table that contains the address, unless it fails on a path before |
| LinuxModules.ModulesStartAfter | vminer/src/os/linux/callstack.rs:52-75 | the spans collected ascend strictly and are not empty |
| ModuleLookup.AgreeIfDisjoint | vminer/src/os/linux/callstack.rs:84-92 | on disjoint spans the binary search and the scan agree |
| ModuleLookup.DifferIfOverlapping | vminer/src/os/linux/callstack.rs:84-92 | on overlapping spans they differ at the start of the later one |
| LinuxModules.DisjointExactly | vminer/src/os/linux/mod.rs:491-574 | the spans are disjoint if and only if no run of areas of one file has two that map its beginning |
| LinuxModules.LookupsAgreeExactly | vminer/src/os/linux/callstack.rs:52-92 | the two lookups agree at every address if and only if no run of areas of one file has two that map its beginning |
| LinuxModules.LookupsAgree | vminer/src/os/linux/callstack.rs:52-92 | so the whole lookups agree at every address, of the kernel or not, for a process of user memory |

## Left out

- Additions of 64-bit addresses are not bounded in the unwinder: the results are about runs in which
  they do not overflow. The 32-bit offset of the stack pointer is bounded, and its overflow an error.
- Unwinder.UnwindWithInfos: a chain of entries that refers back to itself is excluded by a bound that
  stands for the chain being finite; the source would loop.
- StackWalks: walks without end are excluded in the same way, and a callback is a function of the frames
  it was given. A caller's stack pointer past 2^64 is an error.
- StackWalks: which modules are loaded, and parsing the PE image that holds the function table, are
  inputs; the walk over Linux frames, whose rules come from gimli, is not modelled.
- Prologs: saves at offsets that are not multiples of 8, writes of the body into the frame, and bodies
  that change RBP while the unwinder uses it as frame pointer, are excluded.
- Prologs.ChainFindsBp: a save of RBP by a move has no allocation after it in the same prolog, since
  the source takes its offset from where the prolog ends.
- Paging.FindInKernelMemoryInner: nothing is stated about the answer when a page that does not fit the
  buffer can be read in part only.
- KernelSearch.KernelSearchIterator.Next: addresses are not bounded by 2^64, where an iteration that
  leaves the topmost region would overflow; completeness is stated for pages that fit the buffer.
- KernelSearch.FindInKernelMemoryRaw: the needle is shorter than the buffer, as the source asserts.
- StackWalks.IterCallstack: modules have distinct starts and are not empty; among equal starts the module
  found depends on how the standard library probes.
- CallerRecovery.ChainIsFlat: RBP is saved by push; the offset of a save by a move is relative to the
  entry it belongs to, so it has no meaning in the flat list.
- Epilogs.EpilogAgreesWithCodes: restoring moved registers comes before the instructions the emulator
  takes for an epilog, and `lea rsp` is not one of them.
- Faults of physical memory are a function of address and length, and a part of a readable range is
  readable; memory does not change while it is read.
- PhysicalMemory.ChunkedSearch: leftmost occurrence in a chunk is taken as given, as memchr promises it.
- DumpFormat.Write: a file is a sequence of bytes; errors of the file system are not modelled, nor
  the parsing of registers inside a vcpu record.
- TypeResolution: entries as gimli parses them are inputs, and the type graph is acyclic; on a cyclic
  one the source would not return. PdbTypes takes parsed records the same way.
- PdbTypes: an index below that of the first record is unresolved, as wrapping subtraction makes it.
- VadTree: the nodes are a tree; a null root, whose fields cannot be read, is an error.
- SymbolTable: structures in the symbol table (a hash map by name) and demangling only add easy members.
- vminer/src/os/windows/memory.rs, page table entries in transition and prototype entries: reading a
  page that is not resident is not modelled.
- The circular lists of processes and modules, and reading kernel structures by layout.
- KVM and ptrace backends, the bindings for C and Python, symbol file discovery, PDB download,
  operating system detection: no hard property.
