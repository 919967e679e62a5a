# SBCL runtime OS layer: prelinker, page zeroing, heap oracles

A Dafny model of the OS-facing memory and linkage code of the SBCL runtime
(`src/runtime/os-common.c`), with proofs about it. It has four parts:

- **Linkage-table prelinker** (`os_link_runtime`), module `Linkage` in
  `linkage.dfy`. The image carries a word array `lisp_linkage_values` laid
  out as `[N, e1, e2, ...]`. A word `(lispobj)-1` marks the next word as a
  data reference. Any other word is a function reference. The class
  `LinkageTable` holds the slots (a map from index to `Entry(target, datap)`),
  the global `lisp_linkage_table_n_prelinked` as the field `nPrelinked`, and a
  ghost log of the slot indices written. `LinkRuntime` walks the array with a
  cursor, as the C loop does. It is proved against the pure decoder `Decode`.
  `Decode` is proved to invert an encoder `Encode`, the layout the image
  builder writes: every encodable entry list decodes back to itself, and in
  every accepted array the words after the count are the encoding of the
  entries, with the count word read as a C `int` equal to their number. So
  the two are inverse in both directions when the count word is below 2^31.
- **Page-range zeroing** (`os_zero`), module `PageZero` in `page_zero.dfy`.
  Memory is an `array<bv8>` indexed by address. The page size
  `os_vm_page_size` is a parameter. `Plan` splits the range into a leading
  fragment, a page-aligned middle block and a trailing fragment. `OsZero`
  clears the fragments byte by byte and remaps the block. The address the OS
  hands back when the block is mapped again is a parameter (`placed`).
- **Heap oracle** (`gc_managed_heap_space_p`) and **managed-address oracle**
  (`gc_managed_addr_p`), module `HeapOracle` in `heap_oracle.dfy`. The
  space bounds and `dynamic_space_size` form a `Spaces` value. The build's
  layout is the datatype `SpaceLayout`. `Gencgc` is one dynamic space plus
  the `immobile_space_p` test, taken as a function-valued field. `Cheney` is
  the two spaces DYNAMIC_0 and DYNAMIC_1. The thread list is a sequence of
  `ThreadStacks`, fixed for the length of one query.
- Module `Machine` in `machine.dfy` fixes a 64-bit target. A `lispobj` is a
  `Word` in `[0, 2^64)`, `sizeof(lispobj)` is 8, and a C `int` is 32-bit two's
  complement.

Calls into code that is not part of this model become parameters:
`immobile_space_p`, and the address returned by `os_validate`.
`arch_write_linkage_table_entry` becomes "set slot i" (`WriteEntry`), and
`bzero` becomes a byte loop (`Bzero`). The fatal `lose` call becomes the
outcome `BlockMoved`.

Two facts about the code that the model keeps:

- The binding-stack test on line 271 adds `BINDING_STACK_SIZE` to a
  `lispobj *`. So the range it tests is `BINDING_STACK_SIZE` words long,
  which is `8 * BINDING_STACK_SIZE` bytes (`BindingStackIsWordScaled`).
- The count at line 180 is read into a C `int`. So only the word's low 32
  bits count (`ToCInt`), and a negative count is not a valid array.

## Model

| member | source | states |
|---|---|---|
| `Machine.ToCInt` | src/runtime/os-common.c:179-180 | the count the prelinker loops over is the first descriptor word as a 32-bit C `int`: in int range, equal to the word modulo 2^32, and equal to the word when the word fits |
| `Linkage.DecodeEntries` | src/runtime/os-common.c:181-191 | decoding `count` entries from a cursor gives exactly `count` entries and a cursor that never passes the end of the array; the only failure is reading past the end |
| `Linkage.Decode` | src/runtime/os-common.c:176-181 | a successful walk yields as many entries as the count word says (as a C `int`) and stays within the array; the count is rejected exactly when it is negative |
| `Linkage.EncodedLength` | src/runtime/os-common.c:187-190 | a function reference takes one word of the array and a data reference two |
| `Linkage.DecodeEncode` | src/runtime/os-common.c:187-190 | round trip: decoding the array that describes a list of entries (count within C `int`, no function target equal to the marker) gives back that list and consumes the whole array |
| `Linkage.DecodedIsEncoding` | src/runtime/os-common.c:187-190 | the words the walk consumes from any cursor are exactly the encoding of the entries it produced, and no function entry it produced has the marker as target |
| `Linkage.DecodeIsInverse` | src/runtime/os-common.c:176-191 | in every accepted array the words after the count are the encoding of the entries, and the count word read as a C `int` equals their number; when the count word is below 2^31 the array is `Encode` of the entries followed by unread words |
| `Linkage.DecodeCursor` | src/runtime/os-common.c:176-191 | cursor bound: the walk consumes 1 + N + (number of data entries) words and never reads past the end |
| `Linkage.PrelinkExample` | src/runtime/os-common.c:187-190 | the two-entry array `[2, 0xA000, -1, 0xB000]` decodes to slot 0 = function 0xA000 and slot 1 = data 0xB000, consuming 4 words |
| `Linkage.InstalledAt` | src/runtime/os-common.c:181-190 | after installing entries, slot i holds entry i for every i below the count; every other slot keeps its old contents |
| `Linkage.LinkageTable.constructor` | src/runtime/os-common.c:149 | the table starts with no slots written and a prelinked count of 0 |
| `Linkage.LinkageTable.WriteEntry` | src/runtime/os-common.c:190 | writing an entry sets exactly that slot to `(target, datap)`, logs its index, and leaves the count alone |
| `Linkage.LinkageTable.LinkRuntime` | src/runtime/os-common.c:159-195 | an absent array changes nothing; otherwise the prelinked count becomes the first word as a C `int`, which equals the number of decoded entries; entries 0..N-1 are written to slots 0..N-1 on top of the old table; and the slots are written once each, in the order 0, 1, ..., N-1 |
| `PageZero.RoundUpToPage` | src/runtime/os-common.c:59 | the block start is the first page boundary at or above `addr` |
| `PageZero.TruncToPage` | src/runtime/os-common.c:62 | the block size is the largest whole number of pages within the remaining length |
| `PageZero.Plan` | src/runtime/os-common.c:59-67 | the three pieces partition `[addr, addr+length)`, in order; the block is a whole number of pages and starts at `round_up(addr)` when not empty; each fragment is shorter than a page |
| `PageZero.PlanBlockMaximal` | src/runtime/os-common.c:59-62 | the middle block is the largest page-aligned one: every whole page inside `[addr, addr+length)` lies inside it |
| `PageZero.PlanBlockAligned` | src/runtime/os-common.c:59-62 | a non-empty middle block starts and ends on page boundaries |
| `PageZero.SourcePlan` | src/runtime/os-common.c:59-62 | the code as written on a 64-bit target: the length after line 61 is reduced modulo 2^64 |
| `PageZero.SourcePlanAgrees` | src/runtime/os-common.c:59-67 | when `addr + length >= round_up(addr)`, the code as written computes the same block start and block size as `Plan`, and its trailing fragment ends at `addr + length` |
| `PageZero.SourcePlanOverruns` | src/runtime/os-common.c:61-65 | when `addr + length < round_up(addr)`, the leading fragment of the code as written runs past the end of the range, and the length wraps to 2^64 minus the overshoot |
| `PageZero.SourceTrailingWraps` | src/runtime/os-common.c:61-67 | in that case, with a page size dividing 2^64, the block size is 2^64 minus a page, and the trailing fragment the code clears at line 67 starts (after address wrap-around) at the page boundary below `addr` and ends at `addr + length`, so bytes before the range are cleared too |
| `PageZero.SourceZeroOneByte` | src/runtime/os-common.c:59-67 | zeroing one byte at address 1 with 4096-byte pages: the code as written clears `[1, 4096)` at line 65 and `[0, 2)` at line 67 (address NULL after wrap-around), and only then would remap a block of 2^64 - 4096 bytes; `Plan` clears just that byte |
| `PageZero.Bzero` | src/runtime/os-common.c:65-67 | clearing `n` bytes from `from` zeroes exactly those bytes and nothing else |
| `PageZero.Remap` | src/runtime/os-common.c:73-74 | unmapping and remapping the block returns the OS's address; the block reads as zero exactly when the OS mapped it at the requested, non-null, address |
| `PageZero.OsZero` | src/runtime/os-common.c:49-79 | the fatal "block moved" path is taken exactly when the block is not empty and the remap returned NULL or another address; otherwise every byte of `[addr, addr+length)` is zero; on both paths no byte outside the range changes and the two fragments are cleared |
| `HeapOracle.HeapRegions` | src/runtime/os-common.c:204-215 | the regions are read-only space, static space, then one dynamic space (generational build) or two (copying build) |
| `HeapOracle.GcManagedHeapSpaceP` | src/runtime/os-common.c:201-219 | the membership condition exactly as the code writes it, for either build layout; its meaning is stated by `HeapSpaceByRegions` |
| `HeapOracle.HeapSpaceByRegions` | src/runtime/os-common.c:201-219 | `gc_managed_heap_space_p(addr)` holds if and only if `addr` is in some configured half-open region, or is in immobile space on a generational build |
| `HeapOracle.RegionStartIsManaged` | src/runtime/os-common.c:204-215 | the first address of every non-empty region is in the heap |
| `HeapOracle.RegionEndIsNotManaged` | src/runtime/os-common.c:204-215 | a region's end address is not in the heap unless another region or immobile space contains it |
| `HeapOracle.OutsideRegionsIsNotManaged` | src/runtime/os-common.c:204-218 | an address outside every region and outside immobile space, for instance one between two regions, is not in the heap |
| `HeapOracle.BindingStackIsWordScaled` | src/runtime/os-common.c:270-271 | every byte offset below `8 * BINDING_STACK_SIZE` from a listed thread's binding-stack start is managed, because line 271 adds the size to a `lispobj *` |
| `HeapOracle.GcManagedAddrP` | src/runtime/os-common.c:259-275 | the early-returning scan answers true exactly when the address is in the heap or on the control or binding stack of some listed thread |
| `HeapOracle.HeapIsManaged` | src/runtime/os-common.c:264-265 | every heap address is a managed address |
| `HeapOracle.ThreadStackIsManaged` | src/runtime/os-common.c:266-272 | an address on a listed thread's control stack `[start, end)` or binding stack is managed, even when it is not in the heap |
| `HeapOracle.OutsideIsNotManaged` | src/runtime/os-common.c:264-274 | an address outside the heap and outside every listed thread's stacks is not managed |
| `HeapOracle.ManagedAddrOrderFree` | src/runtime/os-common.c:266-274 | the answer is the same for any reordering of the thread list |

## Findings

| source | as written | input that shows it | evidently intended | confidence | as-written member | corrected member |
|---|---|---|---|---|---|---|
| src/runtime/os-common.c:59-67 | `length -= block_start-addr` on the unsigned `os_vm_size_t` wraps around when the range ends before the first page boundary above `addr`. Line 65 then clears `[addr, block_start)`, past the end of the range. Line 67 clears a trailing fragment that, after address wrap-around, starts at the page boundary below `addr`: bytes before the range. Only after both writes would the remap at lines 73-74 run, on a block of nearly 2^64 bytes | `os_zero(1, 1)` with 4096-byte pages: line 65 clears `[1, 4096)`, line 67 clears `[0, 2)` at address NULL | only `[addr, addr+length)` is cleared; a range that does not reach the next page boundary is all leading fragment and has no middle block | medium: not executed; callers may only pass ranges that reach a page boundary | `PageZero.SourceZeroOneByte` | `PageZero.Plan` |

`PageZero.SourcePlanOverruns` and `PageZero.SourceTrailingWraps` show the same for every such range.
`PageZero.SourcePlanAgrees` shows that the corrected `Plan`, which `OsZero`
uses, is the code's own split whenever `addr + length >= round_up(addr)`.

## Left out

- `PageZero.OsZero`: implements the corrected split (see Findings), so on ranges that end before the first page boundary above `addr` it does not reproduce the code's wrap-around; `SourcePlan` and `SourcePlanOverruns` describe what the code does there.
- `PageZero.Remap`: the OS's virtual-memory calls `os_invalidate` and `os_validate` are not modelled. On the fatal path the model leaves the block's old bytes in place. After `lose` nothing can observe them.
- `PageZero.OsZero`, `PageZero.SourcePlan`: the address arithmetic of `os_round_up_to_page` and of `addr + length` is unbounded; only line 61's length is reduced modulo 2^64 in `SourcePlan`, so for an `addr` in the last page of the address space its `blockStart` is 2^64 where the C code would wrap to 0. A range that wraps past the top of the 64-bit address space is not modelled. `os_round_up_to_page` and `os_trunc_size_to_page` are defined in a header that is not part of this model; they are taken to be the usual rounding to a multiple of the page size.
- `Linkage.LinkageTable.LinkRuntime`: requires a descriptor array that `Decode` accepts. The C code does not check the array: a count that is negative as an `int`, or an array that ends early, make it read past the end or count through signed overflow (undefined behaviour). `Decode` returns the error for those inputs.
- `Linkage.LinkageTable.LinkRuntime`: the Win32-only `os_validate_recommit` of the table's first page before slot 0 (lines 182-186) is a virtual-memory call and is left out. So is the `LISP_FEATURE_LINKAGE_TABLE` build switch: the model is the build that has it.
- Build switches: `os_zero` is compiled only in `LISP_FEATURE_CHENEYGC` builds (line 48), so the wrap-around of the Findings row is reachable only there; `gc_managed_addr_p` is compiled only without `LISP_FEATURE_WIN32` (lines 221-277). The model has each operation unconditionally.
- `os_unlink_runtime` (lines 197-199) has an empty body; there is nothing to model.
- `HeapOracle.GcManagedHeapSpaceP`: the unsigned `DYNAMIC_SPACE_START + dynamic_space_size` is unbounded here; the configured spaces are taken not to wrap past the top of the address space.
- `HeapOracle.GcManagedAddrP`: the thread list is an immutable sequence for the length of a query. The `for_each_thread` traversal and the stop-the-world exclusion it relies on are not modelled.
- `load_core_bytes` (lines 225-257): `mmap`, `lseek` and `read` file I/O and an instruction-cache flush; nothing beyond the choice of flags is logic of its own.
- `os_sem_init`, `os_sem_wait`, `os_sem_post`, `os_sem_destroy` (lines 103-134): direct forwarding to POSIX semaphores, whose point is concurrency.
- `os_allocate`, `os_deallocate`, `os_get_errno` (lines 82-98): single calls into OS primitives.
- The `DEBUG` trace at lines 55-57 is output only.
