# Buffer pool manager and disk-manager bootstrap, modelled in Dafny

This project models the core of a small database storage engine written in Go. The model has three parts.

- **`storage` buffer pool** (`storage_buffer.dfy`, module `StorageBuffer`). It has a fixed array of
  50 frame slots, a FIFO free list of frame IDs and a page table from page ID to frame ID. On top of
  these it supports insert, delete, pin, unpin, fetch (the cache-hit path) and one eviction step.
  The LRU-K replacer and the disk scheduler are collaborators whose code is not part of this model.
  Each `RecordAccess(frame)` call is appended to a ghost log `accesses`, and each `AddReq(request)`
  call to a ghost log `requests`. The replacer's answer to `Evict()`, a frame or a failure, is a
  parameter of `Evict`. The replacer's `K` is a ghost constant.
- **`storage` disk manager bootstrap** (`storage_disk_manager.dfy`, module `StorageDiskManager`).
  The backing file is a `seq<byte>`. The model covers the big-endian header codec, the rule that an
  all-zero header means there is no directory yet, the directory block zero-padded to `PageSize`
  (2048) at offset `headerSize`, the cut at the first zero byte on loading, and the load-or-create
  decision on opening. Every call into the operating system may fail; inside the model the choice
  is free (`IoFault`). JSON encoding and decoding are foreign code: they are the function
  parameters `encode` and `unmarshal`.
- **`buffer` prototype pool** (`prototype_buffer.dfy`, module `PrototypeBuffer`). It has the same
  frames, free list and table, but no insert, no replacer and no disk. Its `DeletePage` empties the
  slot but never returns the frame to the free list. The model keeps this as written and proves
  that the frame is lost.

`common.dfy` (module `Common`) holds `byte`, `Option`, `Result` and `Zeros`.

Each pool operation appears twice. A function over an abstract `Pool` value (`PoolInsert`,
`PoolDelete`, ...) is the specification, and the lemmas speak about it. A method of the class
`BufferPoolManager` updates the array, the free list and the map step by step, and its `ensures`
says that the result and the new state are those of the function.

There are two invariants:

- **`Sound`** is kept by every operation. The free list holds distinct frames, all of them empty.
  Every table entry names an occupied frame that holds a page with that ID. In the `storage` pool,
  `Sound` also says the free list holds every empty frame, so free and occupied frames partition
  `[0, 50)`. The prototype's `Sound` leaves this out. There it is the separate predicate
  `Partitioned`, and `DeletePage` breaks it.
- **`Consistent`** is `Sound` plus the reverse direction: every occupied frame is the one the table
  names for its page. `InsertPage` does not check whether the ID is already resident, so
  `Consistent` survives only inserts of new IDs. The lemma `InsertResidentOrphansFrame` shows what
  happens otherwise.

The model follows the code as written:

- the pin is a boolean, not a count;
- `Unpin` overwrites the dirty flag instead of OR-ing it;
- a fetch miss returns a zero page and installs nothing;
- there is no "pool exhausted" result;
- the prototype's `DeletePage` does not free the frame.

## Model

| member | source | states |
|---|---|---|
| `StorageBuffer.BufferPoolManager.constructor` | storage/buffer.go:133-143 | the new pool has free list `0..49` in ascending order, every slot empty, an empty table, empty logs and replacer K = 2 |
| `StorageBuffer.Initial` | storage/buffer.go:134-143 | the state the constructor builds: 50 empty slots, free list `0..49` in ascending order, an empty table and empty logs |
| `StorageBuffer.InitialConsistent` | storage/buffer.go:133-143 | the initial pool satisfies both the free-list partition and the table/frame bijection |
| `StorageBuffer.PoolInsert` | storage/buffer.go:40-51 | succeeds exactly when the free list is non-empty; on success the new free list is the old one without its head, the head frame holds the page, the page's ID maps to that frame, and the other frames, the other table entries and the logs are unchanged; a failure changes nothing; the partition and table soundness are kept; the bijection is kept when the ID was not resident |
| `StorageBuffer.BufferPoolManager.InsertPage` | storage/buffer.go:40-51 | pops the head of the free list, stores the page in that slot, maps its ID to that frame and returns true; with an empty free list returns false and changes nothing |
| `StorageBuffer.BufferPoolManager.CreateAndInsertPage` | storage/buffer.go:26-38 | inserts a clean, unpinned page with the given ID and data; reports "unable to add" exactly when the insert fails |
| `StorageBuffer.PoolDelete` | storage/buffer.go:75-87 | succeeds exactly for a resident unpinned page; on success it returns the page's frame, removes only its table entry, empties only that slot, appends the frame to the tail of the free list and leaves the logs alone; a pinned or absent page gives its error and no change; both invariants are kept |
| `StorageBuffer.BufferPoolManager.DeletePage` | storage/buffer.go:75-87 | the method's result and new state are those of `PoolDelete` |
| `StorageBuffer.PoolPin` | storage/buffer.go:120-131 | on a resident page sets its pin flag, leaves every other frame, the table, the free list and the request log unchanged, and records one access for its frame; an unknown ID gives "not found" and no change |
| `StorageBuffer.BufferPoolManager.Pin` | storage/buffer.go:120-131 | the method's result and new state are those of `PoolPin` |
| `StorageBuffer.PoolUnpin` | storage/buffer.go:109-118 | succeeds exactly for a resident page; an unknown ID gives "not found" and no change; both invariants are kept |
| `StorageBuffer.BufferPoolManager.Unpin` | storage/buffer.go:109-118 | the method's result and new state are those of `PoolUnpin` |
| `StorageBuffer.PoolFetch` | storage/buffer.go:89-107 | a hit on an unpinned page returns the copy taken before pinning and then pins the resident page; a hit on a pinned page fails with no change; a miss returns the zero page and appends exactly one READ request |
| `StorageBuffer.BufferPoolManager.FetchPage` | storage/buffer.go:89-107 | the method's result and new state are those of `PoolFetch` |
| `StorageBuffer.PoolEvict` | storage/buffer.go:54-73 | a replacer failure is returned with no change; for a chosen victim it appends exactly `DiskReq(victim page, WRITE)` to the request log, records no access, and otherwise leaves the state that deleting the victim page's ID leaves; it returns no error even when that delete fails; both invariants are kept |
| `StorageBuffer.BufferPoolManager.Evict` | storage/buffer.go:54-73 | the method's result and new state are those of `PoolEvict` |
| `StorageBuffer.InsertResidentOrphansFrame` | storage/buffer.go:40-51 | inserting an ID that is already resident leaves its old frame occupied but no longer named by the table, so the bijection breaks |
| `StorageBuffer.InsertThenFetch` | storage/buffer.go:45-49 | after a successful insert the page sits in the head frame, and fetching it returns the page, pins it and records an access for that frame |
| `StorageBuffer.DeleteThenInsertReusesFrame` | storage/buffer.go:45-83 | in a full pool, the frame a delete frees is the frame the next insert takes (FIFO reuse) |
| `StorageBuffer.DeleteKeepsPinned` | storage/buffer.go:76-80 | no delete removes a pinned page from its frame |
| `StorageBuffer.EvictKeepsPinned` | storage/buffer.go:54-73 | no eviction removes a pinned page from its frame, even when the replacer picks that frame |
| `StorageBuffer.EvictUnpinnedFreesVictim` | storage/buffer.go:59-70 | in a consistent pool, evicting an unpinned victim logs its WRITE, empties its frame, unmaps its ID and appends the frame to the free list |
| `StorageBuffer.EvictPinnedOnlyWrites` | storage/buffer.go:59-72 | in a consistent pool, evicting a pinned victim only logs the WRITE request and succeeds |
| `StorageBuffer.PinUnpinRestoresFrames` | storage/buffer.go:109-126 | unpinning with the page's old dirty flag undoes a pin's effect on the frames |
| `StorageBuffer.FetchPinsUntilUnpin` | storage/buffer.go:91-96 | after a fetch hit, a second fetch and a delete are refused as pinned and change nothing; after an unpin the delete succeeds and frees the same frame |
| `StorageBuffer.UnpinOverwritesDirty` | storage/buffer.go:109-114 | unpin sets the dirty flag to exactly the argument, not OR-ed, and clears the pin; only that frame changes, and the table, free list and logs stay as they were |
| `StorageDiskManager.FromBigEndian` | storage/disk-manager.go:114 | the value of an n-byte big-endian string is below 256^n |
| `StorageDiskManager.BigEndian` | storage/disk-manager.go:179 | the big-endian encoding in `n` bytes is exactly `n` bytes long; `BigEndianRoundTrip` shows that `FromBigEndian` inverts it |
| `StorageDiskManager.PutUint64` | storage/disk-manager.go:179 | keeps the length and every byte after the eighth, and the first 8 bytes decode big-endian to the given uint64 |
| `StorageDiskManager.BigEndianRoundTrip` | storage/disk-manager.go:179 | decoding the n-byte big-endian encoding of a value below 256^n gives the value back |
| `StorageDiskManager.FromBigEndianZero` | storage/disk-manager.go:112-118 | a big-endian string denotes zero exactly when all of its bytes are zero |
| `StorageDiskManager.ToInt64` | storage/disk-manager.go:114 | converting a uint64 back to int64 inverts the two's-complement conversion of every int64 |
| `StorageDiskManager.ToUint64` | storage/disk-manager.go:179 | `uint64(x)` is below 2^64 and, for an int64, is zero exactly when `x` is |
| `StorageDiskManager.EncodeHeader` | storage/disk-manager.go:177-188 | the header is `headerSize` bytes: bytes 0..7 decode big-endian to `uint64(offset)` and the rest are zero |
| `StorageDiskManager.Copy` | storage/disk-manager.go:186 | `copy(dst, src)` keeps the length of `dst`; position `i` holds `src[i]` where `src` reaches and `dst[i]` elsewhere |
| `StorageDiskManager.DecodeHeader` | storage/disk-manager.go:112-118 | an int64; 0 for an all-zero header; otherwise its uint64 image is the big-endian value of the first 8 bytes, and it is non-zero when those 8 bytes are not all zero |
| `StorageDiskManager.HeaderRoundTrip` | storage/disk-manager.go:106-193 | reading back a header written for any int64 offset gives that offset; offset 0 works because its header is all zero |
| `StorageDiskManager.DiskManager.ReadHeader` | storage/disk-manager.go:106-119 | fails when the file is shorter than the header; otherwise returns 0 for an all-zero header and the big-endian value of the first 8 bytes for any other |
| `StorageDiskManager.DiskManager.ReadAt` | storage/disk-manager.go:108 | `File.ReadAt` returns exactly the `n` bytes at `off` when it succeeds; a negative offset, or a read past the end of the file, is an error |
| `StorageDiskManager.DiskManager.WriteAt` | storage/disk-manager.go:94 | on success `File.WriteAt` wrote all of `b` at `off` (the file becomes `WriteAtImage`); on error nothing changed; a negative offset is an error |
| `StorageDiskManager.DiskManager.ReadFrom` | storage/disk-manager.go:150-156 | `Seek` then `Read` returns the bytes from `off` up to `n` of them or the end of the file; a negative offset or one at or past the end is an error |
| `StorageDiskManager.DiskManager.UpdateHeader` | storage/disk-manager.go:177-194 | on success the first `headerSize` bytes become the encoded header and the rest of the file is unchanged; a file shorter than the header, or a failed call, gives an error and no change |
| `StorageDiskManager.WriteAtImage` | storage/disk-manager.go:94 | after `WriteAt(b, off)` the file holds `b` at `off`, every other byte is unchanged and a gap past the old end is zero |
| `StorageDiskManager.Padded` | storage/disk-manager.go:90-92 | the padded block is exactly `PageSize` bytes: the directory bytes followed by zeros |
| `StorageDiskManager.DiskManager.WriteDirectoryDisk` | storage/disk-manager.go:87-104 | on success writes the bytes and `PageSize - len` zeros at `headerSize`, returns `headerSize` and leaves every byte outside `[headerSize, headerSize + PageSize)` unchanged; on error the file is unchanged |
| `StorageDiskManager.LoadedBlock` | storage/disk-manager.go:150-159 | the block read at an offset is `PageSize` bytes: the file's bytes from there, zero-filled where the file ends early |
| `StorageDiskManager.EndIndex` | storage/disk-manager.go:161-167 | the first zero byte's index when there is one, and 0 when there is none |
| `StorageDiskManager.Trimmed` | storage/disk-manager.go:169 | the bytes handed to `json.Unmarshal` are a zero-free prefix of the block; when the block has a zero byte they stop right before the first one, and when it has none they are empty |
| `StorageDiskManager.ScanEndIndex` | storage/disk-manager.go:161-167 | the loop computes exactly `EndIndex` |
| `StorageDiskManager.PadTrimRoundTrip` | storage/disk-manager.go:161-169 | padding a zero-free string shorter than a page and then cutting at the first zero gives the string back |
| `StorageDiskManager.FullPageTrimsToEmpty` | storage/disk-manager.go:161-169 | a full page with no zero byte is cut to nothing |
| `StorageDiskManager.CreatedImage` | storage/disk-manager.go:63-84 | the file after a successful directory creation is at least `headerSize + PageSize` bytes long |
| `StorageDiskManager.CreatedLayout` | storage/disk-manager.go:63-84 | after creation the header reads back as `headerSize`, the padded directory sits at `headerSize`, later bytes are unchanged, and reloading gives back the encoded bytes when they are zero-free and shorter than a page |
| `StorageDiskManager.DiskManager.CreateDirectoryPage` | storage/disk-manager.go:63-85 | the in-memory directory is empty; on success the directory block is written at `headerSize` and the header points there; on error either nothing was written or only the block was |
| `StorageDiskManager.DiskManager.LoadDirectoryPage` | storage/disk-manager.go:149-175 | fails for an offset outside the file; on success the directory is the decoding of the loaded block cut at its first zero; on error the directory is unchanged |
| `StorageDiskManager.DiskManager.LoadOrCreateDirectoryPage` | storage/disk-manager.go:50-61 | fails on a file shorter than the header; on success it created the directory when the header read 0, and otherwise loaded the directory from the recorded offset without touching the file |
| `StorageDiskManager.DiskManager.InitializeHeader` | storage/disk-manager.go:138-147 | writes `headerSize` zero bytes at the start of the file, or fails with no change |
| `StorageDiskManager.DiskManager.SetDefaultHeader` | storage/disk-manager.go:121-136 | a file at least `headerSize` long is left untouched; a shorter one becomes `headerSize` zero bytes on success |
| `StorageDiskManager.NewDiskManager` | storage/disk-manager.go:25-48 | on success the header of the opened file records a non-zero directory offset; a file shorter than the header gets an empty directory written right after a new header |
| `StorageDiskManager.DiskManager.constructor` | storage/disk-manager.go:31-34 | the manager holds the given file contents and header size, with an empty directory |
| `PrototypeBuffer.BufferPoolManager.constructor` | buffer/buffer.go:85-95 | the new pool has free list `0..49` in ascending order, every slot empty and an empty table |
| `PrototypeBuffer.Initial` | buffer/buffer.go:86-94 | the state the constructor builds: 50 empty slots, free list `0..49` in ascending order and an empty table |
| `PrototypeBuffer.InitialPartitioned` | buffer/buffer.go:85-95 | the initial pool is sound and its free and occupied frames partition the range |
| `PrototypeBuffer.BufferPoolManager.NewPage` | buffer/buffer.go:24-31 | returns a page with the given ID and data, neither dirty nor pinned, and touches no pool state |
| `PrototypeBuffer.PoolDelete` | buffer/buffer.go:33-44 | succeeds exactly for a resident unpinned page; on success only its table entry is removed and only its slot is emptied; a pinned or absent page gives its error and no change; the free list is never changed |
| `PrototypeBuffer.BufferPoolManager.DeletePage` | buffer/buffer.go:33-44 | the method's result and new state are those of `PoolDelete` |
| `PrototypeBuffer.PoolPin` | buffer/buffer.go:73-83 | on a resident page sets only its pin flag: every other frame, the table and the free list are unchanged; an unknown ID gives "not found" and no change |
| `PrototypeBuffer.BufferPoolManager.Pin` | buffer/buffer.go:73-83 | the method's result and new state are those of `PoolPin` |
| `PrototypeBuffer.PoolUnpin` | buffer/buffer.go:62-71 | succeeds exactly for a resident page; an unknown ID gives "not found" and no change |
| `PrototypeBuffer.BufferPoolManager.Unpin` | buffer/buffer.go:62-71 | the method's result and new state are those of `PoolUnpin` |
| `PrototypeBuffer.PoolFetch` | buffer/buffer.go:46-60 | a hit on an unpinned page returns the pre-pin copy and pins the resident page; a hit on a pinned page fails; a miss returns the zero page and changes nothing |
| `PrototypeBuffer.BufferPoolManager.FetchPage` | buffer/buffer.go:46-60 | the method's result and new state are those of `PoolFetch` |
| `PrototypeBuffer.DeleteLeaksFrame` | buffer/buffer.go:39-41 | after a successful delete the frame is empty but not on the free list, so free and occupied frames no longer cover the range |
| `PrototypeBuffer.NoOperationGrowsFreeList` | buffer/buffer.go:33-83 | no prototype operation changes the free list, so a leaked frame is never reused |
| `PrototypeBuffer.FetchPinsUntilUnpin` | buffer/buffer.go:49-55 | after a fetch hit, a second fetch and a delete are refused as pinned; after an unpin the delete succeeds |
| `PrototypeBuffer.DeleteKeepsPinned` | buffer/buffer.go:35-38 | no delete removes a pinned page from its frame |
| `PrototypeBuffer.UnpinOverwritesDirty` | buffer/buffer.go:62-67 | unpin sets the dirty flag to exactly the argument and clears the pin; only that frame changes, and the table and free list stay as they were |

## Left out

- Operating-system file I/O (`os.OpenFile`, `Stat`, `Seek`, `Read`, `ReadAt`, `WriteAt`, `Write`) is replaced by a byte sequence.
  - The caller passes the file's current contents to `NewDiskManager`.
  - A failed call never writes part of its data. On a real file, a write that fails may have written a prefix.
  - The file position is not modelled. `InitializeHeader` writes at offset 0, which is where `File.Write` writes right after the file is opened.
- The `n != PageSize` check in `WriteDirectoryDisk` is kept but can never fire in the model. The modelled `WriteAt`, like `os.File.WriteAt`, reports an error whenever it writes fewer bytes than asked, so a short write always surfaces as an error.
- `Encode` and `json.Unmarshal` are foreign code and appear as the parameters `encode` and `unmarshal`.
  - `unmarshal` receives the current directory, because the source decodes into `dm.DirectoryPage`.
  - An unmarshal error leaves the directory as it was; Go may have partly filled it.
  - The only assumption about the encoder is in `PadTrimRoundTrip` and `CreatedLayout`: its output has no zero byte.
- `StorageDiskManager.DiskManager.CreateDirectoryPage` requires that the encoded empty directory fit in one page. With a longer encoding, the source panics in `WriteDirectoryDisk` (`make` with a negative length).
- `StorageDiskManager.DiskManager.WriteDirectoryDisk` requires `len(pageBytes) <= PageSize` for the same reason.
- The disk manager requires `headerSize >= 8`, or `updateHeader` would panic in `PutUint64`. It also requires `headerSize < 2^63` so that the offset fits an `int64`.
- The LRU-K replacer, the disk scheduler and the request type are not part of this model (`LRUKReplacer`, `NewLRUKReplacer`, `DiskScheduler`, `NewDiskScheduler`, `AddReq`, `DiskReq`). Their code is not available.
  - They appear only as the ghost logs and the `victim` parameter.
  - The scheduler that `NewDiskManager` creates, and the pool's `diskManager` field, are left out.
- `StorageBuffer.PoolEvict` and `StorageBuffer.BufferPoolManager.Evict` require the replacer to name an occupied frame (`VictimAdmissible`). On an empty frame the source dereferences a nil page and panics.
- Pages are values, not pointers. `InsertPage` stores the caller's pointer, so in Go later pins and unpins through the pool are visible to the caller. The model does not capture this aliasing.
- Page payloads (`Data`) are carried along but never interpreted. Page IDs are unbounded integers; they are only compared, never computed, so 64-bit wrap-around cannot arise.
- Concurrency and locking: the source has none.
- Behaviour the source does not have is not modelled: pin counts, sticky dirty flags, a pool-exhausted result, installing a frame on a fetch miss, reading and writing data pages, directory capacity checks, and the flush operations that appear only as comments (buffer/buffer.go:97-98).
