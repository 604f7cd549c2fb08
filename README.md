# xv6 lab core: Sv39 page tables, per-CPU allocator, hashed buffer cache, primes, xargs

This project models, in Dafny, the core of a RISC-V xv6 kernel and two of
its user programs as changed for the labs on page tables, locking and
utilities. It proves properties of that model.

- **Per-CPU physical page allocator** (`kernel/kalloc.c`, module `KAlloc`).
  Each of the NCPU CPUs has its own free list. `kfree` pushes a frame onto
  the list of the calling CPU. `kalloc` pops the head of that CPU's list. If
  the list is empty, it steals from the next CPUs in round-robin order, and
  it returns 0 when every list is empty. The class `KMem` holds the lists as
  an array of sequences, one per CPU.
- **Sv39 page tables** (`kernel/vm.c`, modules `Sv39`, `Teardown` and `Vm`).
  - Page-table pages are a map from node address to 512 PTEs.
  - A PTE is a physical page number plus ten flag bits.
  - RAM is a sequence of bytes, and the free lists come from `KAlloc`.
  - Every operation runs against class `Memory`. Its invariant is the tree
    invariant of `Sv39.Tree`: every node has a level, and every table entry
    links to a node one level down that no other entry links to. It also
    keeps page-table pages off the free lists.
  - The operations modelled are `walk`, `walkaddr`, `mappages`, `uvmunmap`,
    `uvmcreate`, `uvmalloc`, `uvmdealloc`, `freewalk`, `uvmfree`,
    `uvmcopy`, `uvmclear`, `copyout`, `proc_freekpagetable` and
    `u2kvmcopy`.
- **Hashed buffer cache** (`kernel/bio.c`, module `Bio`).
  - NBUF buffers are spread over 13 hash buckets. Each bucket is a circular
    doubly linked list through a head node.
  - Buffers and heads live in one array `node` of NBUF + 13 records, linked
    by `prev`/`next` indices. A ghost sequence per bucket gives its list
    order, most recently used first.
  - `bget` looks for the block in its bucket, then for an unused buffer
    there, then steals the least recently used unused buffer of another
    bucket.
- **`primes`** (`user/primes.c`, module `Primes`): a pipeline in which each
  stage prints the first number of its array. `filter` then compacts the
  numbers not divisible by it, in place.
- **`xargs`** (`user/xargs.c`, module `Xargs`). The program copies its
  arguments into a 16 × 32 byte array. It then splits each line of standard
  input at spaces and runs `exec(argv[1], ...)` once per line.

The C integer widths are written out where they matter:

- a `uint` reference count wraps (`Common.Inc32`, `Common.Dec32`);
- `hash` takes an `int`;
- the `newsz` of `u2kvmcopy` is a `uint`.

Panics are preconditions: a caller must not reach them. Each error return is
a result value with its own postcondition.

Each loop of the C code is a `while` loop in a method:

- Page-by-page loops (`uvmalloc`, `uvmunmap`, `uvmcopy`, `u2kvmcopy`,
  `mappages`) carry one invariant predicate. It relates the current state to
  the state on entry, and a lemma advances it by one page.
- The recursion of `freewalk` and `proc_freekpagetable` is a pair of
  mutually recursive methods. They are proved against `Teardown.Order`: the
  sequence of page-table pages a teardown frees.
- `copyout`, `walk`, `uvmcreate` and `kalloc` are each tied to a
  specification function (`CopyOutFrom`, `WalkFrom`, `Create`, `Take`).
  Lemmas state what those functions promise.

## Model

| member | source | states |
|---|---|---|
| Common.Inc32 | kernel/bio.c:197 | `refcnt++` on a `uint`: one more below 2^32, and wraps 2^32 - 1 to 0 |
| Common.Dec32 | kernel/bio.c:205 | `refcnt--` on a `uint`: one less above 0, and wraps 0 to 2^32 - 1 |
| Common.PgRoundUp | kernel/vm.c:255 | PGROUNDUP gives the page boundary at or above its argument, less than a page away |
| Common.PgRoundDown | kernel/vm.c:168-169 | PGROUNDDOWN gives the page boundary at or below its argument |
| KAlloc.PagesExact | kernel/kalloc.c:50-52 | freerange frees page p exactly when p is aligned, at least PGROUNDUP(pa_start), and the whole page lies below pa_end |
| KAlloc.KMem.Init | kernel/kalloc.c:34-43 | kinit leaves on the booting CPU's list every whole page from PGROUNDUP(end) below PHYSTOP, the highest first; every other list is empty |
| KAlloc.KMem.Freerange | kernel/kalloc.c:46-54 | only the calling CPU's list changes: it gains every page freerange visits, pushed in ascending order, on top of what it held |
| KAlloc.KMem.Kfree | kernel/kalloc.c:60-81 | kfree of an aligned frame in [end, PHYSTOP) pushes it on the head of the calling CPU's list; no other list changes |
| KAlloc.KMem.Kalloc | kernel/kalloc.c:86-126 | the frame returned and the new lists are those of `Take` on the old lists: the head of the first non-empty list in the order cpu, cpu + 1, ... (mod NCPU) |
| KAlloc.ScanFirst | kernel/kalloc.c:109-123 | the list kalloc takes from is non-empty, and every list it tried before is empty |
| KAlloc.ScanNone | kernel/kalloc.c:109-125 | kalloc finds nothing exactly when every CPU's list is empty |
| KAlloc.KMem.TakeFacts | kernel/kalloc.c:86-126 | a non-zero result is a free frame kfree would accept; 0 is returned iff there are no free frames, and then nothing changes; with no frame on two lists, exactly that frame leaves the free set |
| Sv39.PX | kernel/vm.c:69-76 | the 9-bit index of a level is below 512 |
| Sv39.MappingAlias | kernel/vm.c:69-76 | walk reads only bits 12..38 of an address, so two addresses that differ by a multiple of 2^39 reach the same PTE and the same mapping |
| Sv39.LookupInTree | kernel/vm.c:84-95 | walk without allocation reaches a level-0 PTE exactly when the level-2 and level-1 PTEs on the way are valid, and that PTE is the one at index PX(0, va) of a level-0 node |
| Sv39.LookupDistinct | kernel/vm.c:84-95 | in a tree, two distinct page-aligned (root, va) pairs never reach the same PTE |
| Sv39.MappingPage | kernel/vm.c:69-76 | every address of a page reaches the PTE of the page boundary |
| Sv39.LinkTree | kernel/vm.c:91-92 | linking a fresh zeroed page below a level-1 or level-2 node keeps the tree invariant |
| Vm.Memory.Walk | kernel/vm.c:78-96 | walk's new state and returned PTE pointer are those of `WalkFrom` from the old state |
| Vm.Memory.WalkFacts | kernel/vm.c:78-96 | walk keeps the invariant and every existing translation; new page-table pages come from the free lists; without alloc nothing changes and the result is the existing level-0 node; a failed allocating walk means the lists were empty; a found PTE is in a level-0 node |
| Vm.Memory.WalkGrows | kernel/vm.c:84-94 | walk only adds zeroed page-table pages and links to them; no existing PTE changes otherwise |
| Vm.Memory.AllocTable | kernel/vm.c:88-93 | the kalloc inside walk either fails with the table unchanged, or links the new page as a level - 1 node at PX(level, va) |
| Vm.WalkAddr | kernel/vm.c:101-119 | walkaddr is non-zero only for a mapped PTE_U page below MAXVA, whose frame it returns; for every such page it returns that frame |
| Vm.Memory.MapPages | kernel/vm.c:162-182 | on success every page from PGROUNDDOWN(va) to PGROUNDDOWN(va + size - 1) maps pa + offset with perm \| PTE_V; -1 only when the free lists ran out, with the last page still unmapped; no translation outside the range changes |
| Vm.Memory.MapOneFacts | kernel/vm.c:171-175 | one mappages step either maps the page with the given PTE or leaves it unmapped, and changes no other translation |
| Vm.Memory.MapStep | kernel/vm.c:170-180 | one iteration keeps the pages done so far mapped and the rest unmapped, or fails with empty free lists |
| Vm.Memory.UvmUnmap | kernel/vm.c:189-211 | each of the npages PTEs from va becomes 0; with do_free their frames are pushed on the CPU's list in address order; no other PTE, level or RAM byte changes |
| Vm.Memory.UnmapRange | kernel/vm.c:198-210 | the uvmunmap loop over [va, hi) clears exactly those PTEs and frees exactly their frames in order |
| Vm.Memory.UnmapPage | kernel/vm.c:199-209 | one iteration zeroes the page's PTE and, with do_free, kfrees its frame; nothing else changes |
| Vm.Memory.UvmCreate | kernel/vm.c:216-225 | uvmcreate's new state and result are those of `Create` from the old state |
| Vm.Memory.CreateFacts | kernel/vm.c:216-225 | uvmcreate returns 0 iff no page is free, with nothing changed; otherwise it returns a new root taken from the free lists that maps nothing, and every existing translation is kept |
| Vm.Memory.UvmAlloc | kernel/vm.c:246-271 | shrinking returns oldsz with nothing changed; growing returns newsz with each page from PGROUNDUP(oldsz) below newsz mapped PTE_W\|PTE_X\|PTE_R\|PTE_U to a frame of its own taken from the free lists that holds only zeros, with no RAM byte outside those frames changed; or returns 0 with every translation and the set of free plus page-table frames as before and every changed RAM byte inside a frame that is free again |
| Vm.Memory.Grow | kernel/vm.c:255-270 | the allocation loop ends with every page mapped to a zeroed frame of its own and no other RAM byte changed, or (only after trying a page) with every translation rolled back and every changed byte inside a free frame |
| Vm.Memory.GrowPage | kernel/vm.c:256-269 | one iteration extends the zeroed, mapped range by a page, writing no byte outside the new frame; or leaves the range where it was, with the bytes it wrote inside a free frame |
| Vm.Memory.AllocPage | kernel/vm.c:258-268 | kalloc, memset and mappages of one page map it to a zeroed frame that was free and is no longer; no RAM byte outside that frame changes; on failure the page stays unmapped, no frame is lost, and a frame that was written is free again |
| Vm.Memory.Undo | kernel/vm.c:259-267 | the uvmdealloc after a failed allocation restores every translation and returns every frame taken to the free lists |
| Vm.Memory.RolledBack | kernel/vm.c:259-267 | unmapping and freeing the pages mapped so far brings back the translations and the frame count of the entry state |
| Vm.Memory.UvmDealloc | kernel/vm.c:277-289 | returns oldsz with nothing changed when newsz >= oldsz, else newsz; the pages from PGROUNDUP(newsz) below PGROUNDUP(oldsz) are cleared and their frames freed in order; no other PTE changes |
| Vm.Memory.FreeWalk | kernel/vm.c:294-310 | freewalk removes exactly the page-table pages of `Order` from the table and pushes them on the CPU's list in that order |
| Vm.Memory.FreeWalkEntry | kernel/vm.c:298-308 | one entry of freewalk's loop tears down the subtree under a table entry and zeroes the entry |
| Teardown.TreeNodesOrder | kernel/vm.c:294-310 | the pages freewalk frees from a root are exactly the page-table pages of that root's tree |
| Teardown.TreeOrder | kernel/vm.c:298-309 | in a tree, freewalk frees no page twice, and ends with the node it started from |
| Teardown.RootTearable | kernel/vm.c:300-306 | a tree whose translations are all absent (or, for the kernel teardown, leaves) can be torn down without a panic |
| Vm.Memory.UvmFree | kernel/vm.c:314-320 | for a tree that maps nothing from PGROUNDUP(sz) up to 2^39 (the addresses PX can tell apart), uvmfree removes exactly the tree's page-table pages; the free set gains exactly the user frames below PGROUNDUP(sz) and those pages; no PTE of another root changes |
| Vm.Memory.NoLeavesLeft | kernel/vm.c:314-319 | once uvmunmap has cleared the PTEs below PGROUNDUP(sz), a tree that mapped nothing from there up to 2^39 maps no address at all, which freewalk needs |
| Vm.Memory.FreeRoot | kernel/vm.c:319 | freewalk of a root that maps nothing returns exactly its tree's pages to the free set |
| Vm.Memory.TeardownInv | kernel/vm.c:314-320 | removing a tree's pages from the table, with them added to the free lists, keeps the memory invariant and every other root's PTEs |
| Vm.Memory.UvmCopy | kernel/vm.c:328-356 | on 0 each child page below PGROUNDUP(sz) has the parent's flags and a fresh frame holding the parent frame's bytes, and no other translation or RAM byte outside those frames changes; on -1 every translation and the free-plus-table frame set are as before and every changed byte lies in a frame that is free again; the parent's frames keep their bytes either way |
| Vm.Memory.CopyLoop | kernel/vm.c:336-355 | the copy loop ends with every page copied and no RAM byte outside the child's new frames changed, or after the rollback at `err` with every changed byte inside a free frame |
| Vm.Memory.CopyStep | kernel/vm.c:336-355 | one iteration copies a page, writing no byte outside the child's frames, or fails and rolls back, leaving changed bytes only in free frames |
| Vm.Memory.CopyPage | kernel/vm.c:337-349 | walk, kalloc, memmove and mappages of one page extend the copied range by that page, writing no byte outside its new frame; or leave the range as it was, with the bytes written inside a free frame |
| Vm.Memory.ParentPte | kernel/vm.c:337-342 | reading the parent's PTE changes nothing and yields its frame and flags |
| Vm.Memory.CopyFrame | kernel/vm.c:345 | memmove leaves the new frame holding the parent frame's bytes, and no other byte changes |
| Vm.Memory.UndoCopy | kernel/vm.c:353-355 | unmapping the pages copied so far restores every translation and returns every frame taken |
| Vm.Memory.UvmClear | kernel/vm.c:360-369 | the PTE of va loses PTE_U and keeps its frame and other flags; every other PTE, and RAM and the free lists, are unchanged |
| Vm.Memory.CopyOut | kernel/vm.c:374-394 | copyout's new RAM and result are those of `CopyOutFrom`; the page table is unchanged |
| Vm.CopyOutOk | kernel/vm.c:379-393 | copyout returns 0 iff every destination byte's page is one walkaddr accepts |
| Vm.CopyOutBytes | kernel/vm.c:379-392 | on success each source byte is at the physical address its user address translates to |
| Vm.CopyOutOnlyDest | kernel/vm.c:379-392 | copyout changes no physical byte that no destination address translates to |
| Vm.Memory.ProcFreeKPagetable | kernel/vm.c:520-533 | proc_freekpagetable removes exactly the page-table pages of `Order`, leaf entries being skipped, and pushes them on the CPU's list in that order |
| Vm.Memory.ProcFreeEntry | kernel/vm.c:523-531 | one entry of that loop tears down the subtree under a table entry and zeroes it, and skips a leaf |
| Vm.Memory.U2KvmCopy | kernel/vm.c:538-553 | each address the loop visits (oldsz, oldsz + PGSIZE, ... below newsz) gets in the kernel table its user PTE with PTE_U cleared; every other PTE is kept or is a new zero one; false only when the free lists ran out |
| Vm.Memory.KernelCopyPage | kernel/vm.c:545-551 | one iteration writes the kernel PTE of one address and changes no other PTE |
| Vm.KernelPte | kernel/vm.c:549-551 | the kernel PTE keeps the frame and every flag but PTE_U, which it clears |
| Vm.U2KvmCopySkipsPage | kernel/vm.c:544 | from oldsz = 100 to newsz = 4100, the loop never visits the page at 4096 |
| Vm.Memory.U2KvmCopyRounded | kernel/vm.c:538-553 | starting at PGROUNDUP(oldsz), every address from there below newsz gets its kernel PTE |
| Vm.KernelCopiedAll | kernel/vm.c:544-551 | from an aligned start, the addresses copied cover every address of the range |
| Bio.Hash | kernel/bio.c:40-43 | the bucket of a block number is below 13 and congruent to it modulo 13 |
| Bio.HashAsWritten | kernel/bio.c:40-43 | C's `%` on the signed `int` gives a value strictly between -13 and 13 |
| Bio.HashAgrees | kernel/bio.c:40-43 | below 2^31 the signed hash is the bucket `Hash` gives |
| Bio.HashAsWrittenNegative | kernel/bio.c:40-43 | block 0x80000000 hashes to -11 as written, not to bucket 11 |
| Bio.UnlinkRing | kernel/bio.c:122-123 | unlinking a buffer from a bucket's ring leaves the ring of the other buffers, in order |
| Bio.PushRing | kernel/bio.c:127-130 | inserting after the head puts the buffer first in the ring, followed by the others |
| Bio.MoveKeeps | kernel/bio.c:116-130 | updating a buffer's fields, unlinking it and pushing it at the front of bucket h keeps the cache invariant, with the buffer moved in the bucket lists |
| Bio.FieldsInv | kernel/bio.c:94-97 | rewriting a buffer's dev, blockno, valid and refcnt in its own bucket keeps the cache invariant |
| Bio.SeedStep | kernel/bio.c:57-63 | each push of binit's loop keeps the partial invariant, with the buffer at the head of bucket 0 |
| Bio.InitInv | kernel/bio.c:45-64 | after binit's loops the cache invariant holds |
| Bio.BCache.Binit | kernel/bio.c:45-64 | every buffer is in bucket 0, the last one pushed first; all other buckets are empty; each buffer has blockno 0, refcnt 0 and is not valid |
| Bio.LastCached | kernel/bio.c:80-87 | the position found holds (dev, blockno), and no buffer after it in the bucket does |
| Bio.LastUnused | kernel/bio.c:92-102 | the position found has refcnt 0, and no buffer after it does |
| Bio.FirstVictim | kernel/bio.c:108-139 | the bucket chosen is not h and has an unused buffer; every earlier bucket other than h has none |
| Bio.NoVictim | kernel/bio.c:141 | bget reaches its panic exactly when every buffer has a non-zero refcnt |
| Bio.BCache.FindCached | kernel/bio.c:80-87 | the scan from the least recently used end returns the `LastCached` buffer, or the head when none |
| Bio.BCache.FindUnused | kernel/bio.c:92-102 | the second scan returns the `LastUnused` buffer, or the head when none |
| Bio.BCache.Relocate | kernel/bio.c:115-130 | the buffer with new fields is unlinked and pushed at the front of bucket h, and the bucket lists move it there |
| Bio.BCache.Steal | kernel/bio.c:108-139 | bget's third loop claims the buffer of `FirstVictim` and moves it into bucket h |
| Bio.BCache.Bget | kernel/bio.c:71-142 | a cached block gets one more reference and nothing else changes; else an unused buffer of its bucket is claimed in place; else one is stolen from another bucket; the result holds (dev, blockno) in its bucket |
| Bio.BCache.Bread | kernel/bio.c:145-156 | the buffer returned holds (dev, blockno), is in its bucket and is valid |
| Bio.BCache.Brelse | kernel/bio.c:169-191 | refcnt drops by one; at 0 the buffer moves to the front of its bucket, as its most recently used; otherwise nothing else changes |
| Bio.BCache.Bpin | kernel/bio.c:193-199 | refcnt of the buffer is incremented as a `uint`; nothing else changes |
| Bio.BCache.Bunpin | kernel/bio.c:201-207 | refcnt of the buffer is decremented as a `uint`; nothing else changes |
| Primes.NotMultiplesMembers | user/primes.c:78-83 | a number survives filter iff it was in the array and the first number does not divide it |
| Primes.NotMultiplesSorted | user/primes.c:78-83 | filter keeps an increasing array increasing |
| Primes.InitArray | user/primes.c:16-19 | the array starts as 2, 3, ..., 35, with left_amount 34 |
| Primes.Filter | user/primes.c:69-85 | prints a[0]; with one number or fewer, left_amount becomes 0; else the first left_amount entries become the numbers of a[1..] not divisible by a[0], in order, and the rest of the array is unchanged |
| Primes.SieveStep | user/primes.c:71-83 | in a sieved array the first number is the least prime left, and filtering by it leaves a sieved array above it |
| Primes.SievePrimes | user/primes.c:23-64 | the stages print exactly the primes of the range, increasing |
| Primes.PrintsPrimes | user/primes.c:9-66 | the program prints exactly the primes below 36, in increasing order |
| Primes.Pipeline | user/primes.c:9-66 | the numbers printed by the successive stages are `Sieve` of 2..35 |
| Xargs.Setup | user/xargs.c:19-35 | after the argument checks the rows hold a well-formed layout, or the program has exited |
| Xargs.Step | user/xargs.c:37-86 | one byte of input keeps the layout well formed |
| Xargs.ArgumentExits | user/xargs.c:19-35 | more than 16 arguments exit with "parament too much"; an argument of 32 bytes or more exits with "parament too long"; exactly 16 runs off `ptr`; then nothing is executed |
| Xargs.RunStops | user/xargs.c:19-29 | once the program has exited (too many or too long arguments here, or the overlip exit at lines 78-81), further input changes nothing |
| Xargs.RunNext | user/xargs.c:36-87 | reading one more byte is one more `Step` |
| Xargs.TailNotDispatched | user/xargs.c:39-69 | input after the last newline runs no command |
| Xargs.RunXargs | user/xargs.c:9-89 | the exit status and the commands run are those of `Run` on the input |
| Xargs.Feed | user/xargs.c:37-86 | one pass of the byte loop on the arrays leaves them as `Step` says |
| Xargs.Memset | user/xargs.c:52 | memset of a row sets its 32 bytes to NUL and leaves the others |
| Xargs.EmptyArgumentAsWritten | user/xargs.c:49-61 | for the line "a", `xargs echo` runs echo with the arguments "a" and "" |
| Xargs.LongParameterAsWritten | user/xargs.c:78-84 | a 32-byte parameter runs into the next row; the corrected check exits with "overlip!" |
| Xargs.CorrectedExecs | user/xargs.c:36-87 | with the corrected end of line and length check, the program runs one command per complete line: argv[1..] followed by the line's space-separated words |

## Left out

- Locks, sleep-locks, `push_off`/`pop_off` and interrupts are not modelled. Every operation runs alone, and `cpuid()` is a parameter.
- Disk I/O (`virtio_disk_rw`) and `bwrite` are not modelled. `bread` only marks the buffer valid.
- Bio.BCache.Bread: states only the buffer it returns; the rest of the new cache state is what `Bget`'s contract states, and is not repeated.
- NBUF = 30 and NCPU = 8 come from `param.h`, which is not part of this model; so do PHYSTOP, `end`, the PTE macros of `riscv.h` and the layout of `memlayout.h`. PHYSTOP and `end` are parameters of `KMem`.
- The junk fill of `kfree` and `kalloc` is not modelled; the free lists hold frame addresses only.
- kvminit, kvmmap, kvmpa, kvminithart, prockpt_init, uvminit, copyin, copyinstr, vmprint and walkprint are not modelled: they only set up the kernel table, print, or copy in the other direction.
- Each panic is a precondition of its operation (remap, uvmunmap on an unmapped page or a non-leaf, freewalk on a leaf, uvmcopy of an absent page, uvmclear of an absent PTE).
- Vm.Memory.U2KvmCopy: a failed allocating walk of the kernel table returns false, where the source panics; the truncation of a size of 2^32 or more to the `uint` newsz is not modelled (newsz is required below 2^32).
- Vm.Memory.UvmCopy: requires every parent page below PGROUNDUP(sz) to be a leaf in RAM that is not free and is not a page-table page; the source reads whatever frame the PTE names.
- Vm.Memory.UvmFree: states the set of free frames afterwards, not the order of the list.
- Vm.Memory.UvmFree: requires the user frames below PGROUNDUP(sz) to be owned by their pages alone (no two pages share a frame, none is a page-table page) and not already free; the source kfrees them without checking, and a shared or already-free frame would corrupt the free lists.
- Vm.Memory.UvmUnmap: with do_free, requires the frames of the pages to be owned by those pages alone and not already free; the source kfrees them without checking. The same holds for Vm.Memory.UnmapRange and Vm.Memory.UnmapPage.
- Vm.Memory.UvmDealloc: requires the frames of the pages it frees to be owned by those pages alone and not already free; the source kfrees them without checking. The same holds for Vm.Memory.Shrink.
- Bio.BCache.Bget: takes block numbers below 2^32 and buckets them with the corrected, unsigned `Hash`. For a block number of 2^31 or more the source computes a negative bucket and indexes `bcache.lock` and `bcache.hashbucket` out of bounds; see Findings.
- Bio.BCache.Bread: reaches `Bget`, so it uses the corrected `Hash` as well.
- Bio.BCache.Brelse: finds the buffer's bucket with the corrected `Hash`; the source's signed hash would index out of bounds for a block number of 2^31 or more. The same holds for Bio.BCache.Bpin and Bio.BCache.Bunpin.
- Vm.Memory.ProcFreeKPagetable: requires a table the recursion can tear down (each table entry leads to a node one level down); the source follows whatever the PTEs contain.
- Vm.Memory.CopyOut: bytes whose translation lies beyond RAM are dropped rather than written.
- The `fork`, `pipe`, `wait` and `exit` of primes' main are not modelled: the stages run one after another on one array (`Primes.Pipeline`), and the numbers printed are collected in a sequence.
- xargs: `read` returns chunks of up to 32 bytes, which are taken one byte at a time; `fork` always succeeds (the "error in forking" exit is not modelled); `exec` becomes a recorded path and argument list, and the child's own run is not modelled.

## Findings

| source | as written | input that shows it | evidently intended | confidence | as-written member | corrected member |
|---|---|---|---|---|---|---|
| user/xargs.c:49-54 | at a newline, `ptr[i]` points to a fresh empty row, so exec gets an extra empty argument | `echo a \| xargs echo` runs echo with "a" and "" | `ptr[i]` is NULL, ending the argument list after the line's words | not executed | Xargs.EmptyArgumentAsWritten | Xargs.CorrectedExecs |
| user/xargs.c:78 | the overlip check lets a parameter reach 32 bytes, so its terminator lands in the next row | a 32-byte word followed by " b" merges into the next parameter | stop a parameter at 31 bytes, leaving room for the NUL | not executed | Xargs.LongParameterAsWritten | Xargs.CorrectedExecs |
| kernel/bio.c:40-43 | `hash` takes a signed `int`, so block numbers of 2^31 or more give a negative bucket index | blockno 0x80000000 gives -11 | unsigned arithmetic, bucket 11 | not executed | Bio.HashAsWrittenNegative | Bio.Hash |
| kernel/vm.c:544 | the loop starts at the unaligned oldsz and steps by PGSIZE, so a page that starts inside the range can be skipped | oldsz = 100, newsz = 4100: the page at 4096 is never copied | start at PGROUNDUP(oldsz) | not executed | Vm.U2KvmCopySkipsPage | Vm.Memory.U2KvmCopyRounded |
