# PintOS virtual-memory bookkeeping in Dafny

This project models the virtual-memory core of a PintOS kernel and proves
properties of it. The model covers these parts:

- **Supplemental page table** (`Spt`). Each process has a map from user page to
  an entry. The entry records a status (ZERO, FILE, FRAME or SWAP), a frame, a
  file range and a writable flag. The module also models the lazy loader
  `load_page`, which runs on a page fault.
- **Frame table** (`Frame`). A global list of (kernel page, user page, owner)
  entries. It is filled from the user page pool and emptied again by
  `falloc_free_page`.
- **Swap slot allocator** (`Swap`). A bitmap of page-sized slots over a
  sector-addressed swap device.
- **System-call logic** (`Syscall`):
  - the descriptor-table part of `open` and `fd_to_file`;
  - `mmap`, which splits a file into per-page FILE entries;
  - mapping-id assignment and lookup;
  - `munmap`, which writes dirty pages back and removes entries.
- **17.14 fixed-point arithmetic** (`FixedPoint`). C's truncating division is
  modelled explicitly. Operations computed in `int` require that their
  result fits, because signed overflow is undefined behaviour. MUL_II and
  DIV_II compute in `int64_t`, where nothing overflows, and then convert the
  quotient to `int`; that conversion is modelled as wrapping modulo 2^32.

The collaborators the core calls but does not own are modelled in `Hardware`
as a `Machine` object. Each one keeps only the state its calls touch:

- the user page pool;
- physical page contents;
- per-thread page directories, including the dirty bit;
- file contents, keyed by inode;
- whether the current thread holds `file_lock`.

Outcomes that come from outside the core are parameters of the operations:

- whether `malloc` succeeds (`mallocOk`);
- whether the page-table allocator succeeds (`pageTableOk`);
- whether `file_reopen` succeeds (`reopenOk`);
- the result of `filesys_open`.

A call that ends the process with `sys_exit (-1)` returns `Killed`.

The model follows the code where it differs from an idealised design:

- Eviction is a stub that changes nothing.
- A SWAP entry is "loaded" without reading swap, because `swap_in` is
  commented out.
- A fault on an entry that is already FRAME returns true. The frame just
  allocated for it stays recorded in the frame table and is never freed.
  `LoadPage` states this leak outright.
- `mmap` of a zero-length file succeeds, returns an id and creates no entries.
- A mapping id is the last id in the list plus one. Unmapping the newest
  mapping therefore lets its id be handed out again (`NewestIdIsReused`).
- `munmap` deletes page-table entries but frees no frames.
- Frames taken from the pool are not cleared. A SWAP load leaves a frame's
  earlier contents in place. A FILE load keeps whatever lies beyond
  `read_bytes + zero_bytes`.

## Model

| member | source | states |
|---|---|---|
| FixedPoint.CDiv | src/threads/fixed-point.h:9-11 | C division: the remainder is smaller than the divisor and has the dividend's sign (truncation toward zero) |
| FixedPoint.Itof | src/threads/fixed-point.h:4-6 | ITOF(n) is an `int`, is divisible by F, and has quotient n |
| FixedPoint.Ftoi | src/threads/fixed-point.h:9-11 | FTOI(x) is x / F rounded toward zero: the remainder lies in [0, F) for x >= 0 and in (-F, 0] for x < 0 |
| FixedPoint.FtoiRound | src/threads/fixed-point.h:14-20 | FTOI_ROUND(x) is the nearest integer, with halves rounded away from zero, provided x ± F/2 fits in an int |
| FixedPoint.Narrow | src/threads/fixed-point.h:43-55 | the conversion of the int64_t quotient to `int` keeps a value that fits and otherwise reduces it modulo 2^32 |
| FixedPoint.MulII | src/threads/fixed-point.h:43-45 | MUL_II is x*y/F truncated toward zero and reduced modulo 2^32; when the quotient fits it is within one unit of the exact product, on the product's side |
| FixedPoint.DivII | src/threads/fixed-point.h:53-55 | DIV_II is x*F/y truncated toward zero and reduced modulo 2^32; when the quotient fits the remainder is smaller than y and has x's sign |
| FixedPoint.DivIF | src/threads/fixed-point.h:58-60 | DIV_IF needs a nonzero divisor and truncates x / n toward zero: the remainder is smaller than n and has x's sign |
| FixedPoint.FtoiOfItof | src/threads/fixed-point.h:4-11 | FTOI(ITOF(n)) = n whenever n*F fits in an int |
| FixedPoint.FtoiIsOdd | src/threads/fixed-point.h:9-11 | FTOI(-x) = -FTOI(x) |
| FixedPoint.AddIfIsAddIiOfItof | src/threads/fixed-point.h:23-35 | ADD_IF(x, n) = ADD_II(x, ITOF(n)) |
| FixedPoint.SubIfIsSubIiOfItof | src/threads/fixed-point.h:28-40 | SUB_IF(x, n) = SUB_II(x, ITOF(n)) |
| FixedPoint.MulIIProductFits64 | src/threads/fixed-point.h:43-45 | the product of two ints always fits the int64_t intermediate, so only the final result has to fit |
| FixedPoint.MulIIByOne | src/threads/fixed-point.h:43-45 | MUL_II(x, ITOF(1)) = x |
| FixedPoint.DivIIByOne | src/threads/fixed-point.h:53-55 | DIV_II(x, ITOF(1)) = x |
| FixedPoint.MulIfOfItof | src/threads/fixed-point.h:48-50 | MUL_IF(ITOF(a), n) = ITOF(a*n) when nothing overflows |
| FixedPoint.MulIIWrapsAround | src/threads/fixed-point.h:43-45 | a MUL_II whose quotient (2^46) does not fit in `int` wraps to 0 |
| FixedPoint.MulIfIsMulIiOfItof | src/threads/fixed-point.h:43-50 | MUL_IF(x, n) = MUL_II(x, ITOF(n)) whenever x*n fits |
| FixedPoint.AddIIThenSubII | src/threads/fixed-point.h:23-25 | ADD_II is undone by SUB_II: SUB_II(ADD_II(x, y), y) = x |
| FixedPoint.SubIIThenAddII | src/threads/fixed-point.h:28-30 | SUB_II is undone by ADD_II: ADD_II(SUB_II(x, y), y) = x |
| FixedPoint.AddIfThenSubIf | src/threads/fixed-point.h:33-35 | ADD_IF is undone by SUB_IF: SUB_IF(ADD_IF(x, n), n) = x |
| FixedPoint.SubIfThenAddIf | src/threads/fixed-point.h:38-40 | SUB_IF is undone by ADD_IF: ADD_IF(SUB_IF(x, n), n) = x |
| Swap.WriteSlot | src/vm/swap.c:37-39 | writing a page to slot s puts its sector i at sector s*SECTORS_PER_PAGE + i and leaves every other sector unchanged |
| Swap.SlotRoundTrip | src/vm/swap.c:20-43 | reading a slot back after writing a page to it gives that page byte for byte |
| Swap.SlotIsolation | src/vm/swap.c:37-39 | writing one slot leaves the contents of every other slot unchanged |
| Swap.FreeCountUpdate | src/vm/swap.c:27-35 | setting one bit changes the number of free slots by exactly that bit's change |
| Swap.SwapTable.constructor | src/vm/swap.c:12-15 | the device has block_size / SECTORS_PER_PAGE slots and all of them are free |
| Swap.SwapTable.ScanAndFlip | src/vm/swap.c:35 | returns the lowest free slot and marks it used; every other bit is unchanged and the free count drops by one |
| Swap.SwapTable.WriteSectors | src/vm/swap.c:37-39 | the loop writes exactly the slot's sectors, with the page's sectors in order |
| Swap.SwapTable.SwapOut | src/vm/swap.c:32-43 | picks the lowest free slot, marks only it used, and writes the page there; at least one slot must be free |
| Swap.SwapTable.SwapIn | src/vm/swap.c:20-30 | returns the page held in the slot, marks only that slot free, and does not write the device |
| Swap.SwapTable.SwapRoundTrip | src/vm/swap.c:20-43 | swap_in(swap_out(p)) returns p and restores the bitmap |
| Frame.FirstIndex | src/vm/frame.c:91-99 | gives the first entry in list order whose kernel page matches, or none exactly when no entry matches |
| Frame.Without | src/vm/frame.c:85 | list_remove drops one entry and keeps the others in their relative order |
| Frame.WithoutKeepsDistinct | src/vm/frame.c:85 | removing an entry keeps the recorded kernel pages distinct and removes exactly that entry's page |
| Frame.AppendKeepsDistinct | src/vm/frame.c:43 | appending a page not yet recorded keeps the pages distinct, and the new entry becomes the one get_fte finds |
| Frame.CreateFrameEntry | src/vm/frame.c:61-71 | an entry is produced exactly when malloc succeeds, and it holds the given kernel page, the given user page and the current thread |
| Frame.FrameTable.constructor | src/vm/frame.c:13-18 | frame_init leaves the frame table empty |
| Frame.FrameTable.GetFte | src/vm/frame.c:91-99 | the search loop returns what FirstIndex specifies |
| Frame.FrameTable.EvictPage | src/vm/frame.c:101-104 | the eviction stub leaves the frame table as it was |
| Frame.FrameTable.TryPageAllocation | src/vm/frame.c:50-58 | tries palloc once; if the pool is empty it evicts and tries once more; it returns a page exactly when the pool had one |
| Frame.FrameTable.FallocGetPage | src/vm/frame.c:21-47 | on success appends exactly (kpage, upage, current) at the back; on failure (pool empty, or malloc fails after the page was taken) nothing changes |
| Frame.FrameTable.FallocFreePage | src/vm/frame.c:74-89 | with no matching entry, panics and changes nothing; otherwise unlinks the first matching entry, returns the page to the pool, and clears the owner's mapping of that entry's user page |
| Spt.SptLess | src/vm/spt.c:27-33 | the table's order is strict: an entry is never less than one with the same user page |
| Spt.SptLessIdentifiesByUpage | src/vm/spt.c:27-33 | two entries are the same key exactly when their user pages are equal |
| Spt.LoadedContent | src/vm/spt.c:145-172 | the frame a load produces is one page long |
| Spt.LoadedZeroPage | src/vm/spt.c:147-149 | a ZERO page is loaded as all zeroes |
| Spt.LoadedFilePage | src/vm/spt.c:153-164 | a FILE page holds [file_offset, file_offset + read_bytes) of the file, then zero_bytes zeroes |
| Spt.FillFrame | src/vm/spt.c:143-172 | fills the frame as LoadedContent says; a short file read frees the frame and releases the lock; on every path no physical page but the frame changes |
| Spt.ReadFilePage | src/vm/spt.c:153-167 | after a full read, the lock is held exactly when it was held before; a short read undoes the allocation; on every path no physical page but the frame changes |
| Spt.UndoAllocation | src/vm/spt.c:156-160 | falloc_free_page on the frame just recorded last: the frame table is back to what it was, the page returns to the pool and upage leaves the thread's page directory |
| Spt.FileIntoFrame | src/vm/spt.c:156-163 | the read is full exactly when file_read_at returns read_bytes; then the frame holds the file's bytes followed by zero_bytes zeroes; on every path no other page changes |
| Spt.SupplementalPageTable.constructor | src/vm/spt.c:13-16 | init_spt leaves the table empty |
| Spt.SupplementalPageTable.InitFrameSpte | src/vm/spt.c:53-67 | adds a writable FRAME entry with the given kpage and no file; a key already present is kept |
| Spt.SupplementalPageTable.InitFileSpte | src/vm/spt.c:72-93 | adds a FILE entry with no kpage and exactly the given file, offset, read_bytes, zero_bytes and writable |
| Spt.SupplementalPageTable.InitZeroSpte | src/vm/spt.c:98-111 | adds a writable ZERO entry with no frame |
| Spt.SupplementalPageTable.GetSpte | src/vm/spt.c:190-199 | returns the entry whose upage equals the key, or NULL exactly when there is none |
| Spt.SupplementalPageTable.PageDelete | src/vm/spt.c:202-206 | removes only the given entry |
| Spt.SupplementalPageTable.DestroySpt | src/vm/spt.c:36-48 | leaves the table empty |
| Spt.SupplementalPageTable.LoadIntoFrame | src/vm/spt.c:143-186 | loads the frame; on success maps upage to it with the entry's writable flag and makes the entry FRAME with that kpage; a short read or a failed mapping frees the frame and exits; on every path no physical page but the frame changes |
| Spt.SupplementalPageTable.LoadPage | src/vm/spt.c:117-187 | with no entry or no frame, exits and changes nothing; a FRAME entry returns true with the table unchanged; otherwise as LoadIntoFrame; once a frame is allocated, no other physical page changes |
| Syscall.NumPagesIsCeiling | src/userprog/syscall.c:449-457 | the page loops run ceil(size / PGSIZE) times; page k starts inside the file exactly when k < that count |
| Syscall.ChunksTileFile | src/userprog/syscall.c:457-458 | read_bytes is min(PGSIZE, size - ofs) and positive; every chunk but the last is a full page; the last ends at the end of the file |
| Syscall.MmapEntry | src/userprog/syscall.c:458-459 | page k's entry is a writable FILE entry with no frame, naming the file, at offset k*PGSIZE, reading min(PGSIZE, size - k*PGSIZE) bytes, with read_bytes + zero_bytes = PGSIZE |
| Syscall.InsertChunksContents | src/userprog/syscall.c:457-461 | page k of the span holds a writable FILE entry with offset k*PGSIZE and chunk k's byte counts; every other page is unchanged |
| Syscall.InsertChunksWellFormed | src/userprog/syscall.c:457-461 | inserting the chunks keeps every entry well formed |
| Syscall.NextChunkIsNew | src/userprog/syscall.c:449-461 | when the span was free, each page the insert loop adds is new, so hash_insert always inserts |
| Syscall.TwoAndAHalfPages | src/userprog/syscall.c:457-461 | a 10240-byte file gives three entries; the last reads 2048 bytes and zeroes 2048 |
| Syscall.EmptyFileInsertsNothing | src/userprog/syscall.c:445-461 | a zero-length file creates no entries |
| Syscall.NewMmapId | src/userprog/syscall.c:470-477 | when the list's ids increase, the new id is at least 1 and larger than every id in the list |
| Syscall.AppendNewIdKeepsIncreasing | src/userprog/syscall.c:464-466 | pushing the new mapping at the back keeps the ids strictly increasing, and get_mmf finds it by its id |
| Syscall.RemoveKeepsIncreasing | src/userprog/syscall.c:507 | list_remove keeps the ids strictly increasing |
| Syscall.NewestIdIsReused | src/userprog/syscall.c:470-477 | after the newest mapping is unmapped, new_mmapid returns that mapping's id again |
| Syscall.MmapIndex | src/userprog/syscall.c:513-527 | gives the first record with the id, or none exactly when no record has it |
| Syscall.CleanSpanWritesNothing | src/userprog/syscall.c:496-500 | with no dirty page in the span, munmap writes no file |
| Syscall.WriteBacksKeepLengths | src/userprog/syscall.c:492-499 | write-back never changes a file's length, so the loop bound file_length stays fixed |
| Syscall.WriteBacksTouchOnlyDirtyFiles | src/userprog/syscall.c:496-500 | a file that no dirty page of the span names is left unchanged |
| Syscall.WriteBacksStep | src/userprog/syscall.c:492-504 | each loop iteration adds exactly one page's write-back, in span order |
| Syscall.Process.SysOpen | src/userprog/syscall.c:283-299 | stores the file in the lowest empty slot in [2,128) and returns its index, which fd_to_file then maps to the file; returns -1 with the table unchanged if the open failed or all slots are full |
| Syscall.Process.FdToFile | src/userprog/syscall.c:230-242 | returns the slot's file exactly when 0 <= fd <= 128 and the slot is occupied; otherwise the process exits |
| Syscall.Process.GetMmf | src/userprog/syscall.c:513-527 | the search loop returns what MmapIndex specifies |
| Syscall.Process.SysMmap | src/userprog/syscall.c:422-467 | NULL or misaligned address, failed reopen, or an overlap gives -1 with nothing inserted and no mapping added; a bad fd exits; otherwise inserts every chunk's entry and appends a mapping with the new id |
| Syscall.Process.UnmapPage | src/userprog/syscall.c:493-503 | writes a dirty page's first read_bytes bytes to its file at its offset, then deletes only that entry |
| Syscall.Process.UnmapSpan | src/userprog/syscall.c:492-504 | deletes every entry of the span and applies the write-backs in span order |
| Syscall.Process.SysMunmap | src/userprog/syscall.c:482-510 | an unknown id changes nothing; otherwise writes back the dirty pages, deletes every entry of the span, and removes only that mapping from the list |

## Left out

- Locks: `frame_lock` and `swap_lock` are left out, and all operations run
  sequentially. `file_lock` is modelled only as the held flag that
  `load_page` consults. In `sys_mmap` and `sys_munmap` it is acquired and
  released on every path, so it is not modelled there.
- The hash table itself (hash function, buckets, `hash_find`) is modelled as
  a map keyed by user page.
- System-call dispatch and argument fetching, `check_vaddr`, and the thin
  wrappers over the file system, process and thread code (`halt`, `exit`,
  `exec`, `wait`, `create`, `remove`, `filesize`, `read`, `write`, `seek`,
  `tell`) are left out. `keyboard_read` is console input and is left out.
- `sys_close` is left out. It closes a NULL pointer and never clears the
  descriptor slot, so it has no effect on the descriptor table.
- `sys_exit` is reduced to the `Killed` outcome. The exit message and the
  exit code are not modelled.
- Page-pool, page-directory, block-device and file-system internals are not
  part of this model. Each appears only through the effect the core relies
  on: `palloc_get_page` yields some free page, `file_read_at` and
  `file_write_at` act on a file of fixed length, and `file_reopen` shares the
  inode. The file position and `deny_write` are not modelled.
- `src/threads/thread.h` is not part of this model. The `fd` array is taken
  to have 129 slots, so that `fd_to_file (128)` is in bounds.
- Evict: `evict_page` only prints a message. It appears as a step in the
  allocation trace of `TryPageAllocation` and has no effect on the state.
- Swap: `swap_in` is never called from `load_page`, so swapping and the
  SWAP-entry `swap_id` are modelled only inside `Swap`.
- Frame.FrameTable.FallocGetPage / Frame.FrameTable.TryPageAllocation: the
  `flags` argument is fixed to `PAL_USER`, the value `load_page` passes.
  `PAL_ZERO` (a cleared page) and `PAL_ASSERT` (a kernel panic instead of
  NULL) are not modelled, so a caller such as `setup_stack` that passes them
  is not covered.
- Frame.FrameTable.FallocFreePage: returns `kpage` to the page pool. The code
  passes the frame-table entry `e` to `palloc_free_page` and then reads `e`,
  a pointer-level defect that has no abstract meaning in this model.
- Spt.SupplementalPageTable.InitFileSpte: requires read_bytes + zero_bytes <= PGSIZE,
  which every caller establishes. `load_page` writes that many bytes into one
  frame, so a larger sum would overrun it.
- Syscall.Process.SysMunmap: requires that every page in the span has an
  entry naming a file. The code dereferences the entry `get_spte` returns
  for each page without checking it.
- Syscall.Process.SysMmap: the leaks of `mmf` and of the reopened file on
  the failure paths are not modelled. An id beyond `INT_MAX` is not
  modelled (ids are unbounded integers). User addresses are non-negative
  integers, and the alignment test is written on them directly.
- FixedPoint.MulII / FixedPoint.DivII: the conversion of the `int64_t`
  quotient to `int` is implementation-defined in C. It is modelled as GCC
  does it, keeping the low 32 bits; a compiler that chose differently is
  not modelled.
- Syscall.NewMmapId: does not model signed overflow of `id + 1` after
  2^31 - 1 mappings.
- Uninitialised fields of a new page-table entry (`file_offset`,
  `read_bytes`, `zero_bytes` and `swap_id` when the initialiser does not set
  them) are modelled as 0.
- The sys_open check that denies writes to the running executable is not
  modelled.
