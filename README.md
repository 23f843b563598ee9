# rcore_plus process bookkeeping, in Dafny

This project models the process layer of the rCore kernel (`kernel/src/process/structs.rs` and
the older `kernel/src/process/context.rs`). It covers these parts:

- **The process id.** A `Pid` is unset until the first thread of its process registers, and
  then it is fixed.
- **The per-process tables.** These are the smallest free file descriptor, the lazily created
  futex wait conditions, and the registration of a thread (`set_tid`). Registration updates the
  process's threads, its parent's children and the global `PROCESSES` map.
- **Building an address space from a parsed ELF image, two ways:**
  - `structs.rs` maps one area per `PT_LOAD` segment, copies the segment's file bytes and
    zero-fills the rest up to its memory size.
  - `context.rs` maps the same areas, but its copy loop copies every header's file bytes,
    whatever the header's type. It stops at the first header with no file bytes, never
    zero-fills, and zeroes argc/argv below a 32-bit stack only when it did not stop early.
- **New user processes.** The header type check, the user stack area, the auxiliary vector
  (AT_PHDR, AT_PHENT, AT_PHNUM, AT_PAGESZ, AMD64 psABI section 3.4.3) and the standard file
  descriptors.
- **Fork.** A cloned address space whose areas receive the bytes read from the parent's.
- **The `memory_set_record` bracket.** The address of an address space under construction is
  pushed, and later its first occurrence is removed.
- **The swap walks.** `Drop for ContextImpl` and `memory_set_map_swappable` visit every page of
  every area.

How the model represents the source:

- **Address space.** A `MemorySet` object holds a sequence of areas and a partial map from
  address to byte. A missing key means the contents are unspecified (whatever the frame held).
  This makes the zero-fill of one loader observable against the other.
- **Swap subsystem.** Its calls are recorded in order by a `SwapTable` object.
- **Panics.** A panic on the image's content becomes a `LoadError` result. That covers a
  rejected type, no loadable segment, or a slice out of bounds.
- **ELF constants.** They follow the System V ABI generic specification: `ET_EXEC` = 2,
  `ET_DYN` = 3, `PT_LOAD` = 1, `PT_PHDR` = 6, and the execute bit of `p_flags` = 1.

Modules:

- `Wrappers`: `Option` and `Result`.
- `Seqs`: the `find`, `position` and `remove` searches.
- `Memory`: areas, bytes, `MemorySet`, pages.
- `Swap`: the swap-call trace.
- `Elf`: the parsed image, segment attributes and the area list.
- `Arch`: arch contexts and the stack layout.
- `ProcessStructs`: `structs.rs`.
- `ProcessContext`: `context.rs`.

## Model

| member | source | states |
|---|---|---|
| ProcessStructs.Pid.Uninitialized | kernel/src/process/structs.rs:83-85 | a new id is unset |
| ProcessStructs.Pid.SetIfUninitialized | kernel/src/process/structs.rs:89-96 | returns true iff the id was unset; then the id is `tid`, otherwise it is unchanged, so a set id never changes |
| ProcessStructs.Pid.Get | kernel/src/process/structs.rs:98-100 | on a set id, returns its value (unwrapping an unset one panics) |
| ProcessStructs.Pid.IsInit | kernel/src/process/structs.rs:103-105 | holds iff the id is `Some(0)` |
| ProcessStructs.FirstFreeFrom | kernel/src/process/structs.rs:369-371 | the result is not a key, and every number from the start up to it is a key |
| ProcessStructs.Process.GetFreeFd | kernel/src/process/structs.rs:369-371 | the least descriptor not in `files`: it is free and every smaller one is open |
| ProcessStructs.StdFiles | kernel/src/process/structs.rs:278-281 | exactly fds 0, 1 and 2; 0 is stdin, read-only; 1 and 2 are stdout, write-only |
| ProcessStructs.StdFilesFreeFd | kernel/src/process/structs.rs:278-281 | with the standard fds open the free fd is 3; with 1 closed it is 1 |
| ProcessStructs.Process.GetFutex | kernel/src/process/structs.rs:372-377 | afterwards `uaddr` is a key and the result is its entry; an existing entry is returned with the map unchanged; otherwise one fresh entry is added and nothing else changes; entries stay distinct |
| ProcessStructs.Thread.SetTid | kernel/src/process/structs.rs:148-162 | appends `tid` to `threads`; sets the pid only if unset; appends the process to the parent's children exactly when the pid was unset and a parent exists; the registry maps the pid to this process, other keys unchanged |
| ProcessStructs.Auxv | kernel/src/process/structs.rs:252-268 | PHENT, PHNUM and PAGESZ are always present with the header values and 4096; AT_PHDR is present iff a PT_PHDR header or a loadable header at offset 0 exists; it is the first PT_PHDR header's address, or else the first such loadable header's address plus the header-table offset |
| ProcessStructs.SegmentsError | kernel/src/process/structs.rs:388-432 | no error iff a loadable segment exists and all fit; "no loadable segment" iff none is loadable; otherwise the error names the first loadable segment that does not fit |
| ProcessStructs.LoadedSegmentBytes | kernel/src/process/structs.rs:426-432 | a loaded segment not overlapped by a later one holds `input[offset..offset+file_size]` followed by zeros up to `mem_size` |
| ProcessStructs.CopySegment | kernel/src/process/structs.rs:426-432 | the address space after copying one segment is the loaded-segment image of the old one |
| ProcessStructs.LoadSegments | kernel/src/process/structs.rs:402-433 | either all loadable segments fit and the areas and bytes are those of the whole header list, or it stops at a loadable segment that does not fit, all before it fitting |
| ProcessStructs.MemorySetFrom | kernel/src/process/structs.rs:383-436 | fails exactly as `SegmentsError` says; on success the areas are one per loadable header in order, the bytes are the loaded image, and the entry point is returned |
| ProcessStructs.Thread.NewInit | kernel/src/process/structs.rs:168-186 | null context, empty address space and tables, no parent, cwd "/" |
| ProcessStructs.Thread.NewKernel | kernel/src/process/structs.rs:189-210 | kernel-thread context for `entry(arg)`, empty process otherwise |
| ProcessStructs.Thread.NewUser | kernel/src/process/structs.rs:213-304 | rejects images that are neither executable nor shared; fails as `memory_set_from` does; otherwise the areas are the segment areas then the user stack for the image's word size, the bytes are loaded, fds 0-2 are seeded, and the context starts at the entry point with the stack pointer that `push_at` returns for the init info |
| ProcessStructs.Thread.Fork | kernel/src/process/structs.rs:306-353 | the child has the same areas, holds the parent's bytes inside them and none outside, has the same files and cwd, and has this process as parent |
| ProcessStructs.Thread.Clone | kernel/src/process/structs.rs:356-365 | a new thread in the same process with the clone context and `clear_child_tid` |
| Elf.ToAttr | kernel/src/process/structs.rs:442-448 | always user and never read-only; executable iff the segment's execute flag is set (`memory_attr_from` at context.rs:236-241 is the same) |
| Elf.AreaOf | kernel/src/process/structs.rs:422 | the area of a segment starts at `vaddr`, spans `mem_size` and has the segment's attributes |
| Elf.LoadAreasShape | kernel/src/process/context.rs:222-232 | one area per loadable header, each user-accessible |
| Elf.LoadAreasAppend | kernel/src/process/context.rs:222-232 | the areas of a header list are the areas of its parts, in order |
| Arch.StackLayout.Area | kernel/src/process/structs.rs:238-244 | the user stack spans `[offset, offset + USER_STACK_SIZE)` with the 32- or 64-bit offset; user, not executable |
| Memory.Store | kernel/src/process/context.rs:93-95 | after a copy, the target range reads back the buffer and every other address is unchanged |
| Memory.StoreThenSlice | kernel/src/process/context.rs:93-95 | reading back what was just copied gives the copied bytes |
| Memory.CopyMatchesPerArea | kernel/src/process/structs.rs:317-322 | after an eager fork copy, each area of the child reads the same bytes as the parent's, with the same length |
| Memory.MemorySet.Clone | kernel/src/process/structs.rs:308 | the clone has the same areas and no known bytes |
| Memory.AreaPages | kernel/src/process/context.rs:193 | one page per page number from the start page to the end page, in increasing order |
| Memory.AreaPagesExact | kernel/src/process/context.rs:193 | a page is listed iff it is aligned and overlaps `[start, end)`; the list is strictly increasing, so no page is listed twice |
| Memory.PageAddrsCount | kernel/src/process/context.rs:192-199 | the walk makes as many steps as the sum of the per-area page counts |
| Memory.PageAddrsMembers | kernel/src/process/context.rs:192-199 | an address is visited iff it is a page of some area |
| Swap.Calls | kernel/src/process/context.rs:196 | one call per address, in order, with the given operation and table |
| Seqs.IndexOf | kernel/src/process/context.rs:114-115 | the first index holding the value, or none iff it is absent |
| Seqs.RemoveAt | kernel/src/process/context.rs:116 | removes exactly the element at the index, keeping the order of the rest |
| Seqs.PushBackThenRemoveFirst | kernel/src/process/context.rs:73-116 | pushing a pointer and then removing its first occurrence keeps the record's multiset; an absent pointer leaves the record exactly as it was |
| ProcessContext.MemorySetRecord.Position | kernel/src/process/context.rs:114-115 | the first index holding the pointer, none iff it is absent |
| ProcessContext.MemorySetRecord.Remove | kernel/src/process/context.rs:116 | the record without the entry at that index |
| ProcessContext.Unrecord | kernel/src/process/context.rs:158-160 | removes the first occurrence of the pointer |
| ProcessContext.MemorySetFrom | kernel/src/process/context.rs:219-234 | one area per loadable header in order and no known bytes |
| ProcessContext.CopyStop | kernel/src/process/context.rs:86-92 | the copy handles every header before the first one with no file bytes, whatever its type |
| ProcessContext.CopyError | kernel/src/process/context.rs:86-95 | no error iff every header before the stop has its bytes inside the image; otherwise the first one that does not |
| ProcessContext.FirstBadCopy | kernel/src/process/context.rs:95 | the header the copy loop fails on is the one `CopyError` names |
| ProcessContext.ZeroArgs | kernel/src/process/context.rs:97-103 | the eight bytes below the stack top read 0 and every other address is unchanged |
| ProcessContext.CopiedByte | kernel/src/process/context.rs:93-95 | a byte written by a header that no later header overlaps holds the matching image byte |
| ProcessContext.CopiedSegmentBytes | kernel/src/process/context.rs:93-95 | such a header's target holds `data[offset..offset+file_size]` |
| ProcessContext.CopySegmentsUnwritten | kernel/src/process/context.rs:86-96 | an address no header writes keeps its old contents; there is no zero-fill |
| ProcessContext.CopyImageUnwritten | kernel/src/process/context.rs:86-103 | in the new address space, an address not written before the stop and outside the zeroed stack words is unspecified, even when a later header or a segment tail covers it |
| ProcessContext.StackWordsZeroed | kernel/src/process/context.rs:97-103 | for a 32-bit image whose copy ran through all headers, argc and argv read 0 |
| ProcessContext.ZeroArgsIn | kernel/src/process/context.rs:97-103 | writes the two zero words below the stack top |
| ProcessContext.CopyIn | kernel/src/process/context.rs:84-105 | reports exactly the `CopyError` header; otherwise the new bytes are the copy image |
| ProcessContext.Capture | kernel/src/process/context.rs:140-142 | one buffer per area, as long as the area, holding the bytes read at its addresses |
| ProcessContext.ForEachPageOfArea | kernel/src/process/context.rs:193-198 | one swap call per page of the area, in increasing order |
| ProcessContext.ForEachPage | kernel/src/process/context.rs:192-199 | one swap call per page of every area, area by area |
| ProcessContext.MemorySetMapSwappable | kernel/src/process/context.rs:249-260 | `set_swappable` once for each page of each area, in visiting order, and nothing else |
| ProcessContext.ContextImpl.Drop | kernel/src/process/context.rs:175-203 | `remove_from_swappable` once for each page of each area, in visiting order, and nothing else |
| ProcessContext.ContextImpl.NewInit | kernel/src/process/context.rs:26-32 | null context with an empty address space |
| ProcessContext.ContextImpl.NewKernel | kernel/src/process/context.rs:34-42 | kernel-thread context with an empty address space |
| ProcessContext.ContextImpl.NewUser | kernel/src/process/context.rs:53-126 | rejects anything but an executable, leaving the record alone; fails on the `CopyError` header; otherwise the areas are the segment areas then the stack, the bytes are the copy image, the stack pointer is top − 8, and the record has the pointer pushed and its first occurrence removed |
| ProcessContext.ContextImpl.Fork | kernel/src/process/context.rs:129-167 | the new address space has the same areas, holds this one's bytes inside them and none outside; the record has the pointer pushed and its first occurrence removed |

## Left out

- Context switching (`switch_to`, `ArchContext::switch`) and the arch constructors are not modelled. A context records only which constructor built it and with which arguments; kernel stacks and page-table tokens are not modelled.
- `Arc`, `Weak`, `Mutex` and `RwLock` become plain object references. Lock interleaving, weak-reference expiry and reference counts are not modelled.
- Page tables and `MemorySet::with` activation are not modelled. Writing to an address outside every mapped area would fault; the model just stores the byte.
- ELF parsing (`ElfFile::new(...).expect`) is not modelled: the model takes the parsed header as input.
- ProcessStructs.Thread.NewUser: `ProcInitInfo::push_at` is a parameter. The stack bytes it writes are not modelled, only the auxiliary-vector contents and the stack pointer it returns.
- The stack constants (`USER_STACK_OFFSET`, `USER32_STACK_OFFSET`, `USER_STACK_SIZE`) are a `StackLayout` parameter, because they differ per target. `PAGE_SIZE` is 4096.
- Retaining socket handles against the network driver in `fork` is not modelled. It is a foreign call and leaves the copied file table unchanged.
- The `no_mmu`, `board_k210` and `aarch64` variants of `memory_set_from` and `new_user` are not modelled. Only the default MMU path is.
- Addresses and sizes are unbounded. `usize` overflow in `vaddr + mem_size`, in `offset + file_size` or in the stack arithmetic is not modelled.
- ProcessContext.ContextImpl.NewUser: requires the stack top to be at least 8, where the source subtracts 8 from it.
- ProcessContext.ContextImpl.NewUser: on a failure after the record push, the record keeps the pointer. The source panics there, so nothing removes it.
- ProcessContext.MemorySetRecord.Remove: requires an index in range. It is only called with an index that `Position` found, so the out-of-range behaviour of the record's container is not modelled.
- ProcessStructs.Thread.SetTid: requires the parent to be another process. The source locks the parent while holding this process's lock, which would deadlock on itself.
- The `alloc_frame().unwrap()` frame supplier passed to `remove_from_swappable` is not modelled.
- Logging, the `Debug` and `Display` impls, and `get_memory_set_mut` are not modelled.
- `Page::range_of` is taken to end at the page after the one holding `end - 1`. For an area ending at address 0 the source's `end - 1` would wrap; the model takes no pages there.
