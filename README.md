# Arctan physical-memory allocators and initramfs reader, in Dafny

This project models the physical-memory machinery of the Arctan kernel and proves properties of it. Next to the allocators it models the kernel's read-only cpio archive driver and its `ALIGN` macro.

All three allocators keep their bookkeeping inside the free blocks they manage: the first machine word of each free block holds the address of the next free block. The model keeps exactly those words as a `map<nat, nat>` from a block's address to its first word, inside one `Memory.Ram` object. NULL is 0. Addresses are naturals because the C code does byte arithmetic on `void *` and `uintptr_t`.

- `Memory` (Memory.dfy): the shared memory and the chain vocabulary.
  - `Linked`: a chain threaded through memory.
  - `Walkable` / `Walk` / `Nodes`: following `next` links.
  - `ThreadSlots`: what a loop writing `next(base + k*size) = base + (k+1)*size` leaves in memory.
- `Freelist` (Freelist.dfy): the free-list engine of `kernel/src/c/mm/freelist.c`.
  - A descriptor `{base, ciel, head, object_size}` is the class `FreelistMeta`, and its value is the datatype `Desc`.
  - The operations are methods that update the descriptor and memory in place.
  - `Arc_ListContiguousAlloc` is modelled as written. Its variable `last_allocation` is never assigned, so the contiguity test never fires and the retry path is dead. Those branches hold `assert false`. `ContiguousAllocIgnoresGaps` shows that the blocks it hands out need not be adjacent.
  - `Arc_ListLink` never splices the chains, and an initialised chain ends by pointing at `ciel`, not at NULL; both are modelled as written.
- `Pmm` (Pmm.dfy): the PMM of `src/c/mm/pmm.c`.
  - Its three statics are the class `Pmm`.
  - The four guarded wrappers are modelled.
  - `Arc_InitPMM` is modelled in two halves: the HHDM rebase walk, and the memory-map fold loop, one round of which is `FoldOne`. `FoldEntry` and `FoldUpTo` give the fold as a function.
- `Pool` (Pool.dfy): the older page pool of `kernel/src/c/mm/alloc.c` (`init_pool`, `alloc_pages`, `free_pages`).
  - `alloc_pages` is proved to return the start of the first run of `pages` adjacent nodes. That run is given by the reference definition `FirstRun`.
- `Align` (Align.dfy): the `ALIGN(v, a)` macro of `kernel/src/c/include/global.h`, evaluated as unsigned C on `width`-bit integers, with bitwise AND defined on naturals.
- `Initramfs` (Initramfs.dfy): the driver of `kernel/src/c/fs/file/initramfs.c`.
  - The archive is a byte sequence, and a header pointer is an offset into it.
  - The header walk is a loop proved equal to a recursive walk, and that walk is proved to return the first matching header in archive order.
  - `open`, `read`, `seek` and `stat` work on classes standing for the driver's file and stat structures.
- `Wrappers` (Wrappers.dfy): `Option`.

Loops that walk a chain until NULL (`alloc_pages`, the rebase walk) take a ghost parameter: the chain they will walk. Their precondition says the chain is NULL-terminated, which is what makes them terminate.

## Model

| member | source | states |
|---|---|---|
| Memory.ThreadSlots | kernel/src/c/mm/freelist.c:186-191 | definition: the memory after writing, for `k = 0 .. n-1` in ascending order, the address of block `k + 1` into block `k`; the same writes as the first line of the loop body of `init_pool` at kernel/src/c/mm/alloc.c:58-64 |
| Memory.ThreadSlotsChain | kernel/src/c/mm/freelist.c:186-191 | threading `n` blocks of positive size makes the chain `base, base+size, ...`, whose last block links to `base + n*size` |
| Memory.ThreadSlotsFrame | kernel/src/c/mm/freelist.c:186-191 | threading writes only the threaded blocks' words; every other word keeps its value |
| Freelist.FreelistMeta.constructor | src/c/mm/pmm.c:34-35 | a zero-initialised descriptor has all fields 0 |
| Freelist.SlotCount | kernel/src/c/mm/freelist.c:186 | the blocks the loop threads are exactly those starting below `ciel`: the last one starts below `ciel`, the next would not |
| Freelist.SlotCountExact | kernel/src/c/mm/freelist.c:186 | a range of exactly `n` whole blocks is threaded as `n` blocks |
| Freelist.InitializeFreelist | kernel/src/c/mm/freelist.c:175-194 | returns 0; sets `base = head = _base`, `ciel`, `object_size`; every block below `ciel` links to the next block |
| Freelist.FreshChain | kernel/src/c/mm/freelist.c:179-191 | after initialising over `n` whole blocks, the chain from `head` is `base, base+size, ..., base+(n-1)*size` and ends at `ciel`, not NULL |
| Freelist.ListAlloc | kernel/src/c/mm/freelist.c:34-40 | returns the old head; the head becomes the old head's `next`; nothing else changes (no exhaustion check, so a non-NULL head is required) |
| Freelist.Accepts | kernel/src/c/mm/freelist.c:122 | definition: `Arc_ListFree` accepts an address that is not NULL and lies in `[base, ciel]`, both ends included |
| Freelist.ListFree | kernel/src/c/mm/freelist.c:119-132 | NULL, below `base` or above `ciel` returns NULL with descriptor and memory unchanged; otherwise `next(address) := old head`, `head := address`, returns `address` |
| Freelist.FreeThenAlloc | kernel/src/c/mm/freelist.c:119-132 | an accepted free followed by an alloc returns the same address and restores the descriptor (LIFO) |
| Freelist.AcceptedBlocks | kernel/src/c/mm/freelist.c:134-140 | the blocks of a run that `Arc_ListFree` accepts, all at or above the run's start |
| Freelist.AcceptedBlocksAscending | kernel/src/c/mm/freelist.c:134-140 | the accepted blocks are listed in strictly ascending order |
| Freelist.AllAccepted | kernel/src/c/mm/freelist.c:134-140 | when the whole run lies in `[base, ciel]`, every block of the run is pushed |
| Freelist.ListContiguousFree | kernel/src/c/mm/freelist.c:134-140 | returns `address`; `n <= 0` changes nothing; base, ceiling and object size are kept; when the object size is positive, pushing from highest to lowest leaves the accepted blocks in ascending order in front of the old head |
| Freelist.ListContiguousAlloc | kernel/src/c/mm/freelist.c:42-117 | `objects <= 0` returns NULL and leaves the list as it was; otherwise returns the old head, and the head has advanced exactly `objects` nodes |
| Freelist.FreshContiguousAlloc | kernel/src/c/mm/freelist.c:59-106 | on a fresh list of at least `objects` blocks the popped blocks are `base, ..., base+(objects-1)*size` and the head ends at `base + objects*size` |
| Freelist.ContiguousAllocIgnoresGaps | kernel/src/c/mm/freelist.c:71 | the popped blocks need not be adjacent: a concrete list with a gap is popped as a whole |
| Freelist.Dirty | kernel/src/c/mm/freelist.c:143 | definition: a list is dirty when its head is not its base |
| Freelist.Link | kernel/src/c/mm/freelist.c:142-172 | -2 exactly when both lists are dirty (checked before the size); -1 exactly on an object-size mismatch otherwise; on success A's size, the lower base, the head of the lower-base list, and always B's `ciel` |
| Freelist.LinkCode | kernel/src/c/mm/freelist.c:143-171 | definition: the integer `Arc_ListLink` returns, 0 on success, -2 when both lists are dirty, -1 on a size mismatch |
| Freelist.ListLink | kernel/src/c/mm/freelist.c:142-172 | returns the code of `Link` on the old A and B; writes the combined descriptor only on success and never modifies A or B otherwise |
| Pool.FirstRun | kernel/src/c/mm/alloc.c:14-26 | reference definition: the first position with `pages` adjacent steps, or none at any position |
| Pool.Scan | kernel/src/c/mm/alloc.c:14-26 | where the loop's run starts and where it stops, both within the chain |
| Pool.Adjacent | kernel/src/c/mm/alloc.c:15-19 | definition: the 64-bit difference between the next node and this one equals the object size |
| Pool.AllocOutcome | kernel/src/c/mm/alloc.c:28-33 | definition: the scan's run start as the result, or NULL when the final count is below `pages`, and the node where the scan stopped as the new head |
| Pool.AllocPages | kernel/src/c/mm/alloc.c:5-34 | `pages == 0` returns NULL and leaves the head; otherwise the result and the new head are those of the scan over the chain |
| Pool.ScanFrom | kernel/src/c/mm/alloc.c:14-26 | the loop stops at the first run of `pages` adjacent steps from its current position, or at the end of the chain |
| Pool.AllocFindsFirstRun | kernel/src/c/mm/alloc.c:10-33 | `alloc_pages` returns the first node of the first run of `pages` adjacent nodes and leaves the head `pages` nodes further; with no such run it returns NULL |
| Pool.AllocReturnsConsecutive | kernel/src/c/mm/alloc.c:10-33 | a non-NULL result A means the blocks `A, A+size, ..., A+(pages-1)*size` each link to the next and the head is `A + pages*size` |
| Pool.PoolWords | kernel/src/c/mm/alloc.c:58-66 | the memory `init_pool` leaves is the NULL-terminated chain of blocks `0 .. n` |
| Pool.InitPool | kernel/src/c/mm/alloc.c:55-69 | returns `pool_base = pool_head = base` with the object size; `next(base+i*size) = base+(i+1)*size` for `i < n` and block `n` links to 0 |
| Pool.FreshPoolChain | kernel/src/c/mm/alloc.c:58-68 | a fresh pool is a NULL-terminated chain from `base` through `n + 1` blocks |
| Pool.FreshPoolAlloc | kernel/src/c/mm/alloc.c:14-33 | on a fresh pool of `n` blocks, `1 <= pages <= n` returns `base` with head `base + pages*size`; more pages returns NULL |
| Pool.FreedAsWritten | kernel/src/c/mm/alloc.c:43-50 | the memory `free_pages` leaves: the chain from `address` visits `k + 1` blocks and then the old head |
| Pool.FreePages | kernel/src/c/mm/alloc.c:36-53 | `pages == 0` returns NULL and writes nothing; otherwise returns `address`, `pool_head = address`, memory as `FreedAsWritten` |
| Pool.FreeAfterAllocLoops | kernel/src/c/mm/alloc.c:43-50 | freeing, as written, what a successful `alloc_pages` returned makes the new head's block link to itself; the chain from `address` never reaches NULL |
| Pool.FreedPages | kernel/src/c/mm/alloc.c:43-50 | the memory of a `free_pages` that gives back exactly `k` blocks: the chain from `address` visits the `k` blocks and then the old head |
| Pool.FreePagesCorrected | kernel/src/c/mm/alloc.c:36-53 | corrected `free_pages`: returns `address`, `pool_head = address`, memory as `FreedPages` |
| Pool.FreeUndoesAlloc | kernel/src/c/mm/alloc.c:36-53 | giving back exactly the blocks a successful `alloc_pages` returned restores memory word for word |
| Pmm.Pmm.constructor | src/c/mm/pmm.c:33-35 | before init the descriptor pointer is NULL and both static descriptors are zero |
| Pmm.ToInt32 | src/c/mm/pmm.c:50 | a `size_t` count passed as `int` keeps its value modulo 2^32 within the `int` range |
| Pmm.Alloc | src/c/mm/pmm.c:37-43 | NULL before init; otherwise exactly `Arc_ListAlloc` on the current descriptor |
| Pmm.ContiguousAlloc | src/c/mm/pmm.c:45-51 | NULL before init; otherwise exactly `Arc_ListContiguousAlloc` with the narrowed count |
| Pmm.Free | src/c/mm/pmm.c:53-59 | NULL and no write before init; otherwise exactly `Arc_ListFree` |
| Pmm.ContiguousFree | src/c/mm/pmm.c:61-67 | NULL and no write before init; otherwise exactly `Arc_ListContiguousFree` with the narrowed count |
| Pmm.RebaseWords | src/c/mm/pmm.c:83-92 | the memory after the walk has rewritten the first `k` links in order, each to its low 32 bits plus the HHDM offset; it has the same addresses as before |
| Pmm.RebaseWordsFrame | src/c/mm/pmm.c:83-92 | a word the walk has not yet reached is still in memory exactly when it was before, with its old value |
| Pmm.RebaseWordsAt | src/c/mm/pmm.c:83-92 | on a chain without repeated nodes, each link the walk has passed has been rewritten once, to its low 32 bits plus the HHDM offset |
| Pmm.RebaseStep | src/c/mm/pmm.c:83-91 | at node `j` the link is still the boot stage's: NULL exactly at the last node, otherwise it translates to node `j + 1`; rewriting it extends the rewritten memory by that one word |
| Pmm.RebasedChain | src/c/mm/pmm.c:81-92 | after the walk the boot chain is a NULL-terminated chain through its HHDM addresses; the NULL at its end stays; no other word changed |
| Pmm.RebaseBootList | src/c/mm/pmm.c:74-92 | adds the HHDM offset exactly once to `base`, `ciel` and `head`, then rewrites the chain as `RebaseWords` |
| Pmm.RebaseChain | src/c/mm/pmm.c:81-92 | the walk rewrites every link but the last (NULL) one, following the rewritten link |
| Pmm.Skipped | src/c/mm/pmm.c:100-118 | definition: the four `continue` tests: entry 0, an entry that is not available, one inside `[base, ciel]` of the current list, or one whose range contains the current base |
| Pmm.FoldEntry | src/c/mm/pmm.c:95-132 | entry 0, unavailable, contained and base-straddling entries change nothing; the object size is kept and the base never rises; only a 0x1000 list changes; a change gives `ciel = base + len + HHDM` of the entry and the lower base's head |
| Pmm.FoldUpTo | src/c/mm/pmm.c:94-133 | definition: the fold of `FoldEntry` over entries `0 .. k-1`, in order |
| Pmm.FoldKeepsShape | src/c/mm/pmm.c:94-133 | over the whole loop the object size is kept, the base never rises, and a list whose object size is not 0x1000 is never replaced |
| Pmm.FreshLinkNeverBothDirty | src/c/mm/pmm.c:122-128 | linking a freshly initialised list never gives -2; it fails exactly on an object-size mismatch |
| Pmm.FoldOne | src/c/mm/pmm.c:95-132 | one round of the loop leaves the descriptor and memory of `FoldEntry`; the current descriptor is the old one or `combined` |
| Pmm.FoldMemoryMap | src/c/mm/pmm.c:94-133 | the loop over `entries` leaves the descriptor and memory of `FoldUpTo` |
| Pmm.Init | src/c/mm/pmm.c:69-136 | the boot descriptor is rebased once; the final descriptor and memory are the fold over the rebased list |
| Align.BitAnd | kernel/src/c/include/global.h:7 | bitwise AND never exceeds either operand |
| Align.AlignUp | kernel/src/c/include/global.h:7 | `(v + (a - 1)) & ~(a - 1)` on `width`-bit unsigned values stays below `2^width` |
| Align.AndHighOnes | kernel/src/c/include/global.h:7 | AND with the mask of bits `k .. n-1` rounds down to a multiple of `2^k` |
| Align.AlignPow2 | kernel/src/c/include/global.h:7 | for `a = 2^k` the macro is the wrapped `v + a - 1` rounded down to a multiple of `a` |
| Align.AlignIsMultiple | kernel/src/c/include/global.h:7 | for a power-of-two `a`, `ALIGN(v, a)` is a multiple of `a` |
| Align.AlignBounds | kernel/src/c/include/global.h:7 | for a power-of-two `a` without wraparound, `v <= ALIGN(v, a) < v + a` |
| Align.AlignWraps | kernel/src/c/include/global.h:7 | when `v + a - 1` wraps around, `ALIGN(v, a)` is 0 |
| Align.AlignAligned | kernel/src/c/include/global.h:7 | an already aligned `v` is unchanged |
| Align.AlignIdempotent | kernel/src/c/include/global.h:7 | `ALIGN(ALIGN(v, a), a) == ALIGN(v, a)` |
| Initramfs.U16At | kernel/src/c/fs/file/initramfs.c:42-54 | a little-endian 16-bit header field is below 2^16 |
| Initramfs.HeaderAt | kernel/src/c/fs/file/initramfs.c:42-54 | the 26-byte header's fields, each below 2^16, magic at offset 0 and `namesize` at offset 20 |
| Initramfs.Even | kernel/src/c/fs/file/initramfs.c:38-40 | `x + (x & 1)` is even, at least `x`, at most `x + 1`, and `x` itself when `x` is even |
| Initramfs.FileSize | kernel/src/c/fs/file/initramfs.c:131 | `(filesize[0] << 16) \| filesize[1]` has `filesize[0]` as its high half and `filesize[1]` as its low half |
| Initramfs.DataSize | kernel/src/c/fs/file/initramfs.c:40 | `ARC_DATA_SIZE` is even, at least the file size and at most one more |
| Initramfs.DataOffset | kernel/src/c/fs/file/initramfs.c:37-39 | `ARC_DATA_OFFSET` is even and covers the header and the name, plus at most one padding byte |
| Initramfs.NextHeader | kernel/src/c/fs/file/initramfs.c:77-78 | the next header lies past this header, an even distance further |
| Initramfs.CString | kernel/src/c/fs/file/initramfs.c:66-68 | a C string is the NUL-free prefix that ends at the first NUL or at the end |
| Initramfs.IsHeader | kernel/src/c/fs/file/initramfs.c:65 | definition: a header fits at the offset and its magic is octal 070707 |
| Initramfs.NameAt | kernel/src/c/fs/file/initramfs.c:66 | definition: the NUL-terminated name right after the 26-byte header |
| Initramfs.Matches | kernel/src/c/fs/file/initramfs.c:68 | definition: `strcmp(name, filename) == 0`, equality of the two C strings |
| Initramfs.Headers | kernel/src/c/fs/file/initramfs.c:65-80 | the headers the walk visits: each carries the magic, the first is the start, and each next one is at `NextHeader` |
| Initramfs.FindFrom | kernel/src/c/fs/file/initramfs.c:65-84 | a found header carries the magic and its name equals the file name |
| Initramfs.Find | kernel/src/c/fs/file/initramfs.c:56-85 | NULL archive or NULL name gives NULL; a found header carries the magic and the name |
| Initramfs.FirstMatching | kernel/src/c/fs/file/initramfs.c:65-75 | reference definition: none exactly when no header of the list matches; otherwise the first matching header, with none matching before it |
| Initramfs.FindFromIsFirstMatch | kernel/src/c/fs/file/initramfs.c:65-84 | the walk returns the first header, in archive order, whose name matches, and NULL when none does before the first bad magic |
| Initramfs.FindFileInitramfs | kernel/src/c/fs/file/initramfs.c:56-85 | the loop returns what the walk returns |
| Initramfs.StatOf | kernel/src/c/fs/file/initramfs.c:87-99 | `st_size` is the even-padded data size; `tv_sec` has `mod_time[0]` as its high half and `mod_time[1]` as its low half; `tv_nsec = 0`; the other fields are copied verbatim |
| Initramfs.InternalStat | kernel/src/c/fs/file/initramfs.c:87-100 | fills the stat record as `StatOf` and returns 0 |
| Initramfs.Open | kernel/src/c/fs/file/initramfs.c:116-137 | `EPERM` when the permission check fails; 1 with no change when the file is not found; otherwise 0, with the unpadded size, the header and its stat record |
| Initramfs.ReadByte | kernel/src/c/fs/file/initramfs.c:152-156 | the file's byte at the position when it lies inside the file, 0 otherwise |
| Initramfs.ReadBytes | kernel/src/c/fs/file/initramfs.c:151-159 | `n` bytes, byte `i` being `ReadByte` at `offset + i` |
| Initramfs.ReadInside | kernel/src/c/fs/file/initramfs.c:151-159 | a read that stays inside the file returns exactly the file's bytes there |
| Initramfs.ReadPastEnd | kernel/src/c/fs/file/initramfs.c:151-159 | a read that runs past the end returns the rest of the file followed by zeros |
| Initramfs.Read | kernel/src/c/fs/file/initramfs.c:139-162 | no open file returns 0 and leaves the buffer; otherwise writes exactly `size*count` bytes as `ReadBytes`, leaves the rest, returns `count` and keeps the position |
| Initramfs.Write | kernel/src/c/fs/file/initramfs.c:164-168 | always returns 1 |
| Initramfs.SeekPosition | kernel/src/c/fs/file/initramfs.c:173-201 | SET stores the offset verbatim; CUR adds and clamps to at most `size`; END is `size - offset - 1` clamped to at least 0; any other `whence` keeps the position |
| Initramfs.SeekStaysInFile | kernel/src/c/fs/file/initramfs.c:180-198 | a relative seek that does not go before 0 stays in `[0, size]`; a seek from the end by less than `size` lands on a byte of the file |
| Initramfs.ReadAfterSeekSet | kernel/src/c/fs/file/initramfs.c:174-177 | reading after an absolute seek inside the file returns the file's bytes from that position |
| Initramfs.Seek | kernel/src/c/fs/file/initramfs.c:170-202 | returns 0 and sets the position to `SeekPosition`; size and header are unchanged |
| Initramfs.StatFile | kernel/src/c/fs/file/initramfs.c:204-216 | 1 on a NULL argument or a missing file, with no write; otherwise `InternalStat`'s result and record |

## Left out

- 64-bit wrap-around of address sums (`base + i*size`, `+ HHDM`, `size * count`) is not modelled; addresses are unbounded naturals. `alloc_pages`'s 64-bit difference is the exception: it is modelled, and the proofs require that no block runs past the top of memory (`NoStraddle`).
- The retry path of `Arc_ListContiguousAlloc` (freelist.c lines 71-97 and 108-116) is not modelled beyond showing it is unreachable. `last_allocation` is never assigned, so `fails` stays 0.
- Freelist.ListContiguousAlloc: its precondition asks that `objects` links can be followed from the head. The C code has no such check and would read through NULL.
- Pmm.BootChain: the boot stage's free list is taken as given. `Pmm.Init` requires that the chain from the boot head visits distinct words, that every link but the last translates to the next node as its low 32 bits plus the HHDM offset, and that the last link is NULL. The boot stage that builds the list is not part of this model, so this hand-off is assumed rather than proved.
- Freelist.InitializeFreelist: an object size of 0 or less is excluded when `base < ciel` (`requires base < ciel ==> objectSize > 0`, with the size a `nat`). With size 0 the C loop `for (; _base < _ciel; _base += _object_size)` never ends. A negative size walks downward and writes below `_base`. Neither is a terminating behaviour a function or loop contract can state, and the only caller passes 0x1000.
- Pmm.Init: `Arc_BootMeta->pmm_state`, `ARC_HHDM_VADDR` and `ARC_PHYS_TO_HHDM` are not part of this model. The boot descriptor and the HHDM offset are parameters, and `ARC_PHYS_TO_HHDM(x)` is taken to be `x + hhdm`.
- `MULTIBOOT_MEMORY_AVAILABLE` is taken as 1, its value in the Multiboot2 specification; the header that defines it is not part of this model.
- Initramfs.Open: `Arc_CheckCurPerms` is not part of this model. Its result is the parameter `permission`. `EPERM` is 1, as in the C library's numbering.
- `strcmp` is modelled as equality of the two NUL-terminated byte strings.
- Initramfs.FileSize: `filesize[0] << 16` is an `int` shift that overflows for `filesize[0] >= 0x8000`. The model uses the mathematical value. The same holds for `mod_time` in Initramfs.StatOf.
- Initramfs.FindFromIsFirstMatch: the walk stops where a header would not fit in the archive. The C code reads on past the archive's end.
- Initramfs.Read: the file's data must lie inside the archive. The struct behind `vfs_state` is not part of this model, so position and size are compared as mathematical integers, and a negative position reads 0. The `int` result `count` is not narrowed.
- Initramfs.Seek: `ARC_VFS_SEEK_SET/CUR/END` are the datatype `Whence`. Their numeric values are not part of this model.
- The driver tables, `initramfs_init`, `initramfs_uninit` and `initramfs_empty` are registration glue and are not modelled.
- `ARC_DEBUG` and `printf` logging is not modelled.
- The boot stage (bootstrap/src/c/main.c) and the APIC/LAPIC drivers are outside the modelled core. They consist of hardware access and boot plumbing.
- Pmm.ContiguousAlloc: the narrowing of `size_t` to `int` is modelled as two's-complement truncation (Pmm.ToInt32). C leaves this conversion implementation-defined.
- Each operation is a module-level method taking the descriptor object, as the C functions take a pointer. This keeps `Arc_ListLink(&combined-as-A, ..., &combined)` aliasing faithful.

## Findings

| source | as written | input that shows it | evidently intended | confidence | as-written member | corrected member |
|---|---|---|---|---|---|---|
| kernel/src/c/mm/alloc.c:43-50 | `free_pages(pool, a, k)` threads `k` blocks, then writes the old head into block `k`, one block past the range | `alloc_pages(pool, k)` returns `a` and leaves `pool_head = a + k*size`; then `free_pages(pool, a, k)` writes `next(a + k*size) = a + k*size`, so the chain from `a` cycles at block `k` and never reaches NULL | give back exactly blocks `0 .. k-1`, the last one linking to the old head, which restores the pool | not executed | Pool.FreeAfterAllocLoops | Pool.FreeUndoesAlloc |
