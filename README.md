# Paged file layer with a direct-mapped page cache

This project models the file layer of a small Rust database, `db/src/file_system`.
The layer keeps two maps: `name2raw` maps file names to an optional open handle,
and `raw2name` maps open handles back to names. Page reads and writes go through
`BufManager`, a direct-mapped cache. Its slots hold a page's bytes, a `valid` bit,
a `dirty` bit and the `(handle, page)` tag the slot belongs to. A page's slot is
`_index(fd, page)`: the low `FD_FIELD` bits of the handle select a block of
`1 << PAGE_FIELD` slots, and the low `PAGE_FIELD` bits of the page number select
a slot within that block.

The repository holds two copies of the layer. The model covers both through one
`Common.Geometry` value:

- `Current` is `db/src/file_system/mod.rs`, with the constants of
  `db/src/common/mod.rs`: `FD_FIELD = 1`, `PAGE_FIELD = 6`, `PAGE_SIZE = 1024`
  and `BUF_SIZE = 128`. A miss seeks to `page * PAGE_SIZE`.
- `Legacy` is `db/src/file_system.rs`: `FD_FIELD = 2`, `PAGE_FIELD = 8`,
  `PAGE_SIZE = 256` and `BUF_SIZE = 1024`. A miss seeks to the byte offset `page`.
  Its `_file_leave_cache` holds `borrow()` temporaries across its write-back.

The files:

- `common.dfy` holds the geometry, the constants and the shift arithmetic.
- `storage.dfy` stands in for the operating system. `Disk` holds the directory,
  the inodes and the open descriptors. Positioned reads and writes are
  `ReadAt` and `WriteAt`.
- `buffer_cache.dfy` holds the cache. It is specified on values (`seq<Slot>`,
  the invariant `Indexed`, `Resident`, `Install`, `Updated`, `Evicted`).
  The class `BufManager` works on four arrays and is proved against those functions.
- `file_system.dfy` holds each `FS` operation as a function from one `State` to
  the next, with its error cases. The class `FS` implements the operations on
  its fields and the cache's arrays, and each method is proved to produce
  exactly the outcome and state its function gives.
- `scenarios.dfy` holds what sequences of operations do, for every state that
  keeps the invariant. These are the behaviours the unit tests exercise, and
  what the cache does to written data.
- `pages.dfy` holds where pages live in the backing file.

Outcomes are `Ok`, `Err(kind)` or `Panic`. `Panic` stands for the two places
where the code's `RefCell` borrows make a re-entrant call fail.

The model follows what the code does, including where it departs from the
layer's stated design:

- **Write-back never writes.** Write-back is meant to persist a dirty page on
  close and on eviction. Both write-back paths call `write_page` on the page
  being written back. That page is still resident, so the call takes the hit
  branch. That branch only updates the slot and marks it dirty again. Three
  cases follow:
  - In `_file_leave_cache` of the current copy, the net effect is only that
    the slot becomes invalid. A page written through a cache hit never reaches
    the file (`FileSystemProperties.HitWriteLostOnClose`).
  - In the older copy, the `borrow()` temporaries live across that `update`,
    whose `borrow_mut` panics. Closing a handle with a dirty page therefore panics
    (`FileSystemProperties.LegacyCloseAfterHitWritePanics`).
  - In `_create_buf` of both copies, the arguments of the write-back call hold
    borrows, so evicting a dirty page panics
    (`FileSystemProperties.DirtyEvictionPanics`).
- **Error kinds.** `open_file` and `close_file` report nix's `EINVAL`
  (`InvalidArgument`) for an untracked name, a name that is already open and an
  untracked handle. They do not report distinct "not found", "already open" or
  "not open" kinds.
- **Removing an open file.** `remove_file` on an open file drops both map
  entries but never closes the descriptor. The descriptor stays open on the OS,
  and `close_file` refuses it from then on (`FileSystemProperties.RemoveOpenOrphansHandle`).
- **Write-back condition.** `_create_buf` writes back, and so panics, whenever
  the target slot is valid and dirty, whoever owns it.

## Model

| member | source | states |
|---|---|---|
| Common.CurrentConstants | db/src/common/mod.rs:1-12 | `BUF_SIZE == 1 << (FD_FIELD + PAGE_FIELD) == 128`; the geometry is well formed, with 2 blocks of 64 slots; page `k` starts at byte `k * 1024` |
| Common.BlocksTileCache | db/src/common/mod.rs:5-12 | the `2^FD_FIELD` blocks of `2^PAGE_FIELD` slots fill exactly `BUF_SIZE` slots, and block `a` ends inside the cache |
| Common.LegacyConstants | db/src/file_system.rs:9-11 | the older copy's `PAGE_SIZE = 256` and `BUF_SIZE = 1024` with `FD_FIELD = 2` and `PAGE_FIELD = 8` form a well-formed geometry of 4 blocks of 256 slots, and a miss seeks to byte `page` |
| Common.Pow2Add | db/src/common/mod.rs:12 | `1 << (a + b) == (1 << a) * (1 << b)`, which makes `BUF_SIZE` the product of the block count and the block size |
| BufferCache.BlockStart | db/src/file_system/mod.rs:111-113 | the scan range `[fd1 << PAGE_FIELD, (fd1 + 1) << PAGE_FIELD)` of `_file_leave_cache` lies inside the cache |
| BufferCache.Index | db/src/file_system/mod.rs:78-88 | `_index(fd, page)` lies in handle `fd`'s block and below `BUF_SIZE` |
| BufferCache.IndexAssertsHold | db/src/file_system/mod.rs:78-88 | for non-negative handles and pages, the three asserts `fd1 < 4`, `page1 < 256` and `index < 1024` never fire |
| BufferCache.LastSlotReached | db/src/file_system/mod.rs:78-88 | the last page of the last block maps to slot `BUF_SIZE - 1`, so `_index` covers the whole cache |
| BufferCache.LegacyAssertsTight | db/src/file_system.rs:82-92 | in the older copy the asserts are exactly tight: handle 3, page 255 gives `fd1 = 3`, `page1 = 255` and slot 1023 |
| BufferCache.SameSlotIff | db/src/file_system/mod.rs:78-88 | two pages share a slot if and only if their handles agree in the low `FD_FIELD` bits and their page numbers agree in the low `PAGE_FIELD` bits |
| BufferCache.PagesOneBlockApartCollide | db/src/file_system/mod.rs:78-88 | pages `p` and `p + (1 << PAGE_FIELD)` of one handle map to the same slot |
| BufferCache.ResidentAtIndex | db/src/file_system/mod.rs:62-65 | a page is resident if and only if its one slot is valid and tagged with exactly that `(fd, page)`, and then that slot holds its bytes |
| BufferCache.InstallResidency | db/src/file_system/mod.rs:142-145 | after the install, the page is resident with the new bytes; a page that shared its slot is no longer resident; every other page keeps its residency and bytes |
| BufferCache.UpdateResidency | db/src/file_system/mod.rs:72-76 | `update` changes no residency; a resident page then reads back the new bytes and every other resident page keeps its bytes |
| BufferCache.EvictedBelowShrinks | db/src/file_system.rs:118-131 | a scan stopped part-way leaves resident only pages that were resident, with their bytes |
| BufferCache.EvictedDropsHandle | db/src/file_system/mod.rs:110-127 | after the full scan, no page of `fd` is resident and every other page keeps its residency and bytes |
| BufferCache.CleanNeverPanics | db/src/file_system/mod.rs:129-146 | when no slot is dirty, neither install nor the older leave-cache panics, and both keep every slot clean |
| BufferCache.UpdatedSlotBlocksNeighbour | db/src/file_system/mod.rs:132-140 | a page installed in an empty slot and then updated is resident and dirty, so installing the page one block further panics |
| BufferCache.BufManager.constructor | db/src/file_system/mod.rs:50-57 | `new`: every slot holds zero bytes and is invalid, clean and tagged `(0, 0)`, and the cache invariant holds |
| BufferCache.BufManager.IsCached | db/src/file_system/mod.rs:62-65 | `is_cached(fd, page)` is exactly residency of `(fd, page)` |
| BufferCache.BufManager.Get | db/src/file_system/mod.rs:67-70 | `get` returns a page of `PAGE_SIZE` bytes, which for a resident page are its cached bytes; it reads state only |
| BufferCache.BufManager.Update | db/src/file_system/mod.rs:72-76 | `update` writes the bytes and the dirty flag of the addressed slot and nothing else, and keeps the cache invariant |
| FileSystem.Initial | db/src/file_system/mod.rs:92-98 | `FS::new`: no names, no handles, no resident page, no dirty slot, and the invariant holds |
| FileSystem.PanicSlot | db/src/file_system.rs:118-128 | the older scan reaches the first owned dirty slot of the block, or the block's end when there is none |
| FileSystem.LeaveStep | db/src/file_system/mod.rs:110-127 | `_file_leave_cache(fd)` leaves no page of `fd` resident, keeps every other page and its bytes, and never writes storage; the older copy (db/src/file_system.rs:114-134) panics if and only if a slot owned by `fd` is dirty, after dropping the slots it scanned before that one |
| FileSystem.CreateBufStep | db/src/file_system/mod.rs:129-146 | `_create_buf` panics, changing nothing, if and only if the target slot is valid and dirty; otherwise the page is resident with the new bytes and only pages sharing its slot are displaced |
| FileSystem.CreateStep | db/src/file_system/mod.rs:150-165 | a tracked name gives `AlreadyExists` and changes nothing; an OS failure gives `Io` and changes nothing; otherwise the file is created and tracked as closed; the invariant is kept |
| FileSystem.OpenStep | db/src/file_system/mod.rs:166-184 | it succeeds if and only if the name is tracked and closed and the OS succeeds; then both maps record the new descriptor, which has no resident page; every failure changes nothing |
| FileSystem.CloseStep | db/src/file_system/mod.rs:185-195 | an untracked handle gives `InvalidArgument` and changes nothing; otherwise the name reverts to closed, the handle is dropped, the slots are exactly those `_file_leave_cache` leaves, and the OS releases the descriptor; every page still resident keeps its bytes |
| FileSystem.RemoveStep | db/src/file_system/mod.rs:196-218 | an untracked name gives `NotFound`; a closed name is dropped and unlinked, with the handle map and the slots unchanged; an open name also loses its handle entry and the slots become those `_file_leave_cache` leaves, while its descriptor stays open on the OS; every page still resident keeps its bytes |
| FileSystem.ReadStep | db/src/file_system/mod.rs:219-234 | a hit returns the cached bytes and changes nothing; a failed miss changes nothing; a miss reads the file at `page * PAGE_SIZE` (in the older copy at byte `page`) into the buffer and installs the result clean, and panics, changing no slot, if and only if the install does; only the page's slot changes, so every other page keeps its residency and bytes unless it shared that slot |
| FileSystem.WriteStep | db/src/file_system/mod.rs:235-250 | a hit only updates the cache and leaves the disk alone; a failed miss changes nothing; a miss writes the file at `page * PAGE_SIZE` (in the older copy at byte `page`) and installs the bytes; after success the page is resident with the written bytes, dirty after a hit and clean after a miss; a panic changes no slot; only the page's slot changes, so every other page keeps its residency and bytes unless it shared that slot |
| FileSystem.FS.constructor | db/src/file_system/mod.rs:92-98 | `FS::new` over an OS state yields the state `Initial` |
| FileSystem.FS.FileLeaveCache | db/src/file_system/mod.rs:110-127 | the slot loop ends in exactly the outcome and slots of `LeaveStep` |
| FileSystem.FS.LeaveSlot | db/src/file_system.rs:118-131 | one step of the scan: an owned slot is invalidated, unless the older copy finds it dirty and panics with the slots unchanged |
| FileSystem.FS.CreateBuf | db/src/file_system/mod.rs:129-146 | the writes to the four arrays give exactly the outcome and slots of `CreateBufStep` |
| FileSystem.FS.CreateFile | db/src/file_system/mod.rs:150-165 | yields exactly the outcome and state of `CreateStep`, and keeps the invariant |
| FileSystem.FS.OpenFile | db/src/file_system/mod.rs:166-184 | yields exactly the outcome and state of `OpenStep`, and keeps the invariant |
| FileSystem.FS.CloseFile | db/src/file_system/mod.rs:185-195 | yields exactly the outcome and state of `CloseStep`, and keeps the invariant |
| FileSystem.FS.RemoveFile | db/src/file_system/mod.rs:196-218 | yields exactly the outcome and state of `RemoveStep`, and keeps the invariant |
| FileSystem.FS.ReadPage | db/src/file_system/mod.rs:219-234 | yields exactly the outcome, buffer and state of `ReadStep`, and keeps the invariant |
| FileSystem.FS.WritePage | db/src/file_system/mod.rs:235-250 | yields exactly the outcome and state of `WriteStep`, and keeps the invariant |
| FileSystemProperties.CreateTwiceFails | db/src/file_system/mod.rs:272-283 | after a successful create, creating the same name fails with `AlreadyExists` and changes nothing |
| FileSystemProperties.OpenTwiceFails | db/src/file_system/mod.rs:302-311 | while a name is open, opening it again fails with `InvalidArgument` and changes nothing |
| FileSystemProperties.CloseTwiceFails | db/src/file_system/mod.rs:314-324 | after any close of a handle, closing it again fails with `InvalidArgument` and changes nothing |
| FileSystemProperties.RemoveOpenOrphansHandle | db/src/file_system/mod.rs:327-349 | removing an open file leaves its descriptor open on the OS, and `close_file` refuses it |
| FileSystemProperties.RemoveThenRecreate | db/src/file_system/mod.rs:327-349 | after a successful remove, the name can be created again |
| FileSystemProperties.ReadYourWrite | db/src/file_system/mod.rs:352-371 | after a successful `write_page`, `read_page` of that page hits, returns exactly the written bytes and changes nothing, in both copies (the older test at db/src/file_system.rs:340-358 uses page 0) |
| FileSystemProperties.FirstReadAfterOpenMisses | db/src/file_system/mod.rs:166-184 | a freshly opened descriptor has no resident page, so its first read of a page returns the file's bytes |
| FileSystemProperties.HitWriteLostOnClose | db/src/file_system/mod.rs:110-127 | current copy: after a write that hits the cache and then a close, the disk equals the disk before the write with the descriptor released, so the written bytes are lost |
| FileSystemProperties.LegacyCloseAfterHitWritePanics | db/src/file_system.rs:114-134 | older copy: after a write that hits the cache, closing the handle panics |
| FileSystemProperties.DirtyEvictionPanics | db/src/file_system/mod.rs:129-146 | a page written twice is dirty, so a write of the page one block further (same slot) panics |
| PageLayout.SequentialPagesReadBack | db/src/file_system/mod.rs:229-245 | on-disk layout: after pages of `PAGE_SIZE` bytes are written in order, page `k` at `k * PAGE_SIZE`, reading page `q` at its offset returns exactly page `q`, whatever the buffer held |
| PageLayout.ReadChain | db/src/file_system/mod.rs:401-409 | the buffers left by reading pages `from .. n - 1` into one reused buffer: one buffer per page read |
| PageLayout.ReadChainOfPages | db/src/file_system/mod.rs:401-409 | over any file in which each page reads back as itself, the chain of reads returns the pages in order |
| PageLayout.ReadChainReturnsPages | db/src/file_system/mod.rs:401-409 | reading back the file left by writing `pages` in order returns exactly `pages`, starting from any buffer |
| FileSystemProperties.WritePages | db/src/file_system/mod.rs:385-394 | the write loop of `test_100pages_write_read`, stopping at the first failure, keeps the invariant |
| FileSystemProperties.ReadPages | db/src/file_system/mod.rs:401-409 | the read loop of `test_100pages_write_read` with one reused buffer, stopping at the first failure, keeps the invariant |
| FileSystemProperties.WriteMissWritesThrough | db/src/file_system/mod.rs:235-250 | a `write_page` miss over a clean cache succeeds, writes the disk at the page's offset, keeps the cache clean and makes no other page resident |
| FileSystemProperties.ReadMissReadsDisk | db/src/file_system/mod.rs:219-234 | a `read_page` miss over a clean cache succeeds, returns the file's bytes, leaves the disk alone, keeps the cache clean and makes no other page resident |
| FileSystemProperties.WritePagesWriteThrough | db/src/file_system/mod.rs:385-394 | writing pages in order on a handle with no resident page over a clean cache: every write succeeds, the file becomes `WriteSequential` of the pages, the cache stays clean and the maps and descriptors are unchanged |
| FileSystemProperties.ReadPagesFromDisk | db/src/file_system/mod.rs:401-409 | reading pages in order on a handle with no resident page over a clean cache: every read succeeds, the disk is unchanged, the cache stays clean and the buffers are the chain of reads of the file |
| FileSystemProperties.CleanCloseThenReopen | db/src/file_system/mod.rs:396-398 | over a clean cache, `close_file` succeeds and a later `open_file` of the same name succeeds with a descriptor that sees the same bytes and has no resident page |
| FileSystemProperties.WriteCloseReopenReadBack | db/src/file_system/mod.rs:374-412 | `test_100pages_write_read` for any number of pages, current copy: open, the write loop, close, reopen and the read loop all succeed, and the reads return exactly the pages written |
| PageLayout.WriteSequentialCovers | db/src/file_system/mod.rs:229-245 | after `n` pages of `PAGE_SIZE` bytes are written in order, the file is at least `n * PAGE_SIZE` bytes long |
| PageLayout.LegacyNeighbourOverlap | db/src/file_system.rs:236-252 | older copy as written: after page 0 and then page 1 are written, byte 1 of page 0 reads as byte 0 of page 1, so page 0 is corrupted |

## Left out

- OS calls are not modelled as calls. `File::create`, nix `open`, `close`, `lseek`, `read`, `write` and `std::fs::remove_file` become functions on `Storage.Disk`. Whether a call fails is the parameter `ioFails`. The descriptor `open` returns is the parameter `osFd`, with the requirement that it is not already open, as the OS guarantees.
- Error values carry only their kind. The errno values, the message strings and nix's error types are dropped.
- Short reads at the end of the file are modelled by `Storage.ReadAt`: the bytes past the end of the file leave the caller's buffer as it was. Short writes, and short reads for any other reason, are not modelled: a write transfers the whole page or fails.
- File names are opaque strings. Paths that name the same OS file, such as `file1` and `./file1`, are two independent files in `Storage.Disk`.
- `RefCell` is not modelled except as `Panic` at the two borrow clashes. A panic ends the run; what it leaves behind is the slot state at the point of the panic.
- `_print_info` prints to stdout and is not part of this model, nor are `db/src/main.rs` and `db/src/record_system/mod.rs`.
- Negative handles and page numbers are not modelled. `Fd` and page numbers are `nat`. With Rust's `%`, a negative value would give a negative `_index` component.
- Integer widths are not modelled: the `i64` overflow of `page * PAGE_SIZE` and of `lseek` offsets, and the `usize` casts, are left out.
- Errors inside the write-backs are not modelled. Their `unwrap()` can only see the cache-hit branch, which has no error path.
- FileSystem.CloseStep: when the OS `close` fails, the descriptor is treated as released, as Linux does. The model does not track a descriptor whose close failed.
- Flush-on-close and write-back on eviction are not proved, because the code does neither. The lemmas under "Model" show what the code does instead.

## Findings

| source | as written | input that shows it | evidently intended | confidence | as-written member | corrected member |
|---|---|---|---|---|---|---|
| db/src/file_system.rs:236-252 | `read_page` and `write_page` seek to byte offset `page` | write page 0 holding `b0`, then page 1 holding `b1` with `b0[1] != b1[0]`, then read page 0 from the file: byte 1 is `b1[0]` | seek to `page * PAGE_SIZE`, as `db/src/file_system/mod.rs:229,245` does, so pages occupy disjoint byte ranges | not executed | PageLayout.LegacyNeighbourOverlap | PageLayout.SequentialPagesReadBack |
