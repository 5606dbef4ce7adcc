# easy-fs storage core and rCore kernel helpers, in Dafny

This project models the storage engine of the easy-fs file system and two
smaller kernel-side pieces of the rCore teaching kernel:

- **Bitmap allocator** (`bitmap.dfy`, module `Bitmap`). A bitmap region is a
  sequence of blocks of 64 words of 64 bits each. `decomposition` splits a
  bit index into (block, word, bit). `alloc` is first fit: the first block
  with a word that is not `u64::MAX`, the first such word, and its
  `trailing_ones` position. `dealloc` clears one set bit and panics on a
  double free.
- **Block cache** (`block_cache.dfy`, module `BlockCache`). A cache entry is a
  512-byte buffer with a dirty flag. Mutable access marks it dirty, and
  `sync` writes back only a dirty buffer. The manager is a queue of at most
  16 entries with distinct block ids. Each entry carries a pin count that
  stands for the `Arc` clones held outside the manager. A miss at capacity
  evicts the front-most unpinned entry and writes it back. When every entry
  is pinned it panics. `block_cache_sync_all` syncs the whole queue, front
  to back.
- **Directory and inode layer** (`vfs.dfy`, module `Vfs`, over the stand-in
  on-disk layout in `layout.dfy`, module `Layout`). The module covers
  `find_inode_id`, `find`, `increase_size`, `create`, `ls`, `read_at`,
  `write_at`, `clear`, `link`, `unlink` and `get_link_num`.
  - The file system state holds the inode and data bitmaps and the disk
    inodes by position.
  - A directory is the sequence of 32-byte records its data holds.
  - Allocation goes through the bitmap model.
  - The collaborators that `vfs.rs` calls but whose source is not part of
    this model are given small bodies that meet what the call sites rely
    on. These are `DiskInode`, `DirEntry` and
    `EasyFileSystem::get_disk_inode_pos`.
- **Sv39 page-table entries** (`page_table.dfy`, module `PageTable`).
  - Entries are `bv64` words. The PPN sits at bits 10..53, and the flags
    V R W X U G A D sit at bits 0..7.
  - A token is MODE 8 at bits 60..63 with the root PPN in the low 44 bits.
    This follows section 4.4 (Sv39) and section 4.1.11 (satp) of the
    RISC-V Privileged Architecture, version 1.12.
  - The page table is a map from VPN to leaf entry. `map` and `unmap` keep
    their assert-guarded pre-states.
  - `translated_byte_buffer` is modelled as the list of page-bounded chunks
    it produces.
- **Syscall rules** (`process.dfy`, module `Process`). These are the argument
  checks and pure logic of `sys_mmap`, `sys_munmap`, `sys_get_time`,
  `sys_waitpid` and `sys_set_priority`.

`common.dfy` (module `Common`) holds `Option`, the `Result` type and the
panics. A `panic!`, a failed `assert!` or an `unwrap` of `None` in the
source becomes a `Fatal(panic)` result, so the error paths are part of each
contract. Assertions that only check what the caller must already
guarantee became preconditions. These are the block cache's view bounds,
the `is_dir` checks and the 32-byte record reads inside the size.

`link` (easy-fs/src/vfs.rs:191-220) does not reject a `new` name that is
already present, so a directory can hold two records with one name.
Lookups and `unlink` act on the first match. `Vfs.Link` states this, and
`Vfs.UnlinkUnique` takes uniqueness as a hypothesis.

The allocating operations panic exactly when a bitmap runs out. The number
of clear bits of a region (`Bitmap.FreeCount`) goes down by one with each
successful `alloc`. `increase_size`, and through it `create`, `link` and
`write_at`, panics exactly when fewer data blocks are free than the growth
needs.

## Model

| member | source | states |
|---|---|---|
| Bitmap.Decompose | easy-fs/src/bitmap.rs:19-23 | the word index and the position are below 64, and `bit == block*4096 + word*64 + position` |
| Bitmap.DecomposeCompose | easy-fs/src/bitmap.rs:19-23 | decomposition inverts composition, so every (block, word, position) triple names exactly one bit |
| Bitmap.MaximumIsCapacity | easy-fs/src/bitmap.rs:79-81 | an index is below `maximum()` exactly when its decomposed block lies inside the bitmap's blocks |
| Bitmap.WordIsMax | easy-fs/src/bitmap.rs:51 | the test `bits64 != u64::MAX` holds exactly when some bit of the word is clear |
| Bitmap.TrailingOnes | easy-fs/src/bitmap.rs:52 | `trailing_ones` is the position of the lowest clear bit: every bit below it is set, and the bit at it (if any) is clear |
| Bitmap.OrClearBit | easy-fs/src/bitmap.rs:55 | or-ing `1 << i` into a word whose bit `i` is clear adds 2^i, so exactly bit `i` becomes set |
| Bitmap.SubtractSetBit | easy-fs/src/bitmap.rs:75 | subtracting `1 << i` from a word whose bit `i` is set clears exactly that bit |
| Bitmap.FirstFreeWord | easy-fs/src/bitmap.rs:48-52 | the `find` over a block's words returns the first word that is not all ones, and `None` only when every word is full |
| Bitmap.FirstClearInBlock | easy-fs/src/bitmap.rs:48-56 | the bit formed from the first non-full word and its trailing-ones count is clear, and every earlier bit of the block is set |
| Bitmap.AllocFrom | easy-fs/src/bitmap.rs:40-64 | scanning blocks from `k` finds the lowest clear bit at or after block `k` and sets only it; `None` exactly when all those bits are set, leaving the region unchanged |
| Bitmap.Alloc | easy-fs/src/bitmap.rs:35-66 | first fit: `None` iff every bit is set; otherwise the returned bit is below `maximum()`, was clear, every lower bit was set, it is now set and no other bit changed |
| Bitmap.Dealloc | easy-fs/src/bitmap.rs:69-77 | panics (`DoubleFree`) exactly when the bit is clear; otherwise exactly that bit becomes clear and no other changes |
| Bitmap.AllocThenDealloc | easy-fs/src/bitmap.rs:35-77 | releasing the bit `alloc` just returned succeeds and restores the bitmap |
| Bitmap.DeallocThenAlloc | easy-fs/src/bitmap.rs:35-77 | when every bit below `x` is in use, freeing `x` and allocating again returns `x` and restores the bitmap |
| Bitmap.Maximum | easy-fs/src/bitmap.rs:79-81 | the capacity is exactly `blocks` whole blocks of 4096 bits, and an index is below it exactly when its decomposed block lies inside the bitmap |
| Bitmap.FreeBelowZero | easy-fs/src/bitmap.rs:35-66 | no bit below `n` is clear exactly when the count of clear bits below `n` is zero |
| Bitmap.FreeBelowPut | easy-fs/src/bitmap.rs:55-75 | writing one bit changes the count of clear bits by one exactly when it sets a clear bit or clears a set bit, and otherwise leaves it |
| Bitmap.FullIsNoneFree | easy-fs/src/bitmap.rs:35-66 | the region has no clear bit exactly when every bit is set |
| Bitmap.AllocCount | easy-fs/src/bitmap.rs:35-66 | `alloc` returns `None` exactly when no bit is clear, and a successful `alloc` uses up exactly one clear bit |
| Bitmap.DeallocCount | easy-fs/src/bitmap.rs:69-77 | a successful `dealloc` gives back exactly one clear bit |
| Bitmap.AllocSequential | easy-fs/src/bitmap.rs:35-66 | on a bitmap whose used bits are exactly `0..k`, `alloc` returns `k` (bits `0..k+1` then used), and returns `None` once `k == maximum()` |
| BlockCache.New | easy-fs/src/block_cache.rs:25-36 | a new cache holds the device's copy of the block and is not dirty |
| BlockCache.GetRef | easy-fs/src/block_cache.rs:45-56 | under the bounds check `offset + size <= 512`, the view is the `size` bytes of the buffer at `offset` |
| BlockCache.GetMut | easy-fs/src/block_cache.rs:59-69 | the same view as `get_ref`, and the cache becomes dirty with its bytes and id unchanged |
| BlockCache.Read | easy-fs/src/block_cache.rs:72-74 | the closure is applied to the bounds-checked view; the cache itself is not an output, so it is unchanged |
| BlockCache.Modify | easy-fs/src/block_cache.rs:77-79 | the closure's bytes replace exactly the window at `offset`, the rest of the block is unchanged, the cache is dirty and the closure's value is returned |
| BlockCache.Sync | easy-fs/src/block_cache.rs:82-87 | the device is written (and the write logged) only when the cache was dirty, no other block changes, and afterwards the cache is clean and coherent with the device |
| BlockCache.SyncIdempotent | easy-fs/src/block_cache.rs:82-87 | a second `sync` writes nothing and changes nothing |
| BlockCache.Drop | easy-fs/src/block_cache.rs:90-94 | dropping a cache puts its bytes on the device, and logs a write exactly when it was dirty |
| BlockCache.NewManager | easy-fs/src/block_cache.rs:106-110 | the new manager is empty and satisfies the queue invariant |
| BlockCache.Hit | easy-fs/src/block_cache.rs:121-123 | a hit hands out one more pin on the found entry and changes nothing else, keeping the queue invariant and coherence |
| BlockCache.Release | easy-fs/src/block_cache.rs:133 | dropping a handle takes one pin off that entry and changes nothing else, so the entry may become evictable |
| BlockCache.HitThenRelease | easy-fs/src/block_cache.rs:121-133 | dropping the handle a hit handed out gives back the manager as it was |
| BlockCache.Lookup | easy-fs/src/block_cache.rs:121 | the hit test finds the front-most entry with the id, and `None` exactly when the id is not resident |
| BlockCache.FirstUnpinned | easy-fs/src/block_cache.rs:129-133 | the front-most entry that nothing outside holds, and `None` exactly when every entry is pinned |
| BlockCache.Evict | easy-fs/src/block_cache.rs:135 | draining index `v` removes exactly that entry, keeps the invariant and coherence, and its drop writes its bytes back |
| BlockCache.Admit | easy-fs/src/block_cache.rs:142-148 | a miss below capacity appends the freshly loaded block at the tail with one pin and keeps ids distinct |
| BlockCache.GetBlockCache | easy-fs/src/block_cache.rs:115-150 | panics `OutOfBlockCache` exactly on a miss at capacity with every entry pinned; a hit adds one pin and changes nothing else; a miss below capacity appends; a miss at capacity first evicts the front-most unpinned entry, written back; pinned entries are never evicted, and the queue stays at most 16 with distinct ids |
| BlockCache.EvictionWritesBack | easy-fs/src/block_cache.rs:127-147 | after an eviction the evicted block's bytes are on the device and the block is no longer resident |
| BlockCache.ModifyEntry | easy-fs/src/block_cache.rs:77-79 | `modify` through the manager replaces that entry's byte window with what the closure writes and returns the closure's value; the rest of its bytes, its id and its pins are kept and it becomes dirty; every other entry, the queue's ids, its invariant and coherence with the device are kept |
| BlockCache.SyncStep | easy-fs/src/block_cache.rs:173-174 | one turn of the loop syncs the next entry, logs a write exactly when it was dirty, and touches no other block |
| BlockCache.SyncAll | easy-fs/src/block_cache.rs:171-176 | the queue keeps its ids, order, pins and bytes; nothing is dirty afterwards; every resident block's bytes are on the device; exactly the dirty ids were written, in queue order; non-resident blocks are untouched |
| Layout.AppendRecord | easy-fs/src/vfs.rs:120-130 | growing a directory to `(file_count + 1) * 32` bytes and writing the record at `file_count * 32` appends that record to the directory's records |
| Layout.SwapRemove | easy-fs/src/vfs.rs:239-244 | copying the last record over record `k` and lowering the size by 32 leaves the records with `k` replaced by the last one and the last dropped; the size drops by exactly 32 and the block list is kept |
| Vfs.AllocInode | easy-fs/src/vfs.rs:110 | the lowest free inode id is taken and only its bit is set; running out is the `InodeExhausted` panic, exactly when every bit is set |
| Vfs.AllocData | easy-fs/src/vfs.rs:92 | a free data-area block is taken and only its bit is set, so one free block fewer; running out is the `DataExhausted` panic, exactly when every bit is set (no block free) |
| Vfs.AllocDataN | easy-fs/src/vfs.rs:89-93 | panics (`DataExhausted`) exactly when fewer than `n` data blocks are free; otherwise `n` allocations acquire `n` blocks that were free, leave `n` fewer free, and change nothing but the data bitmap |
| Vfs.DeallocData | easy-fs/src/vfs.rs:184 | releasing a block panics (`DoubleFree`) exactly when it is free; otherwise exactly that block becomes free |
| Vfs.DeallocAll | easy-fs/src/vfs.rs:183-185 | the loop completes exactly when the blocks are distinct and all allocated, and then frees exactly them |
| Vfs.Scan | easy-fs/src/vfs.rs:53-61 | the scan from record `i` returns the first record at or after `i` with the name, and `None` when there is none |
| Vfs.ScanIsFirstMatch | easy-fs/src/vfs.rs:53-62 | scanning from record 0 is the directory's first match for the name |
| Vfs.FindInodeId | easy-fs/src/vfs.rs:48-63 | `None` iff no record has the name; otherwise the (u32) inode id of the first record with the name |
| Vfs.Find | easy-fs/src/vfs.rs:65-78 | `None` iff the name is absent; otherwise the disk position of the inode the first matching record names |
| Vfs.LsFrom | easy-fs/src/vfs.rs:150-157 | the names of the records from `i` on, in storage order |
| Vfs.Ls | easy-fs/src/vfs.rs:145-160 | the names of all records, in storage order |
| Vfs.IncreaseSize | easy-fs/src/vfs.rs:80-95 | no change below the current size; panics (`DataExhausted`) exactly when fewer data blocks are free than `blocks_num_needed`; otherwise exactly `blocks_num_needed` free blocks are acquired, in order, and handed to the disk inode, which never shrinks |
| Vfs.AppendEntry | easy-fs/src/vfs.rs:118-131 | panics (`DataExhausted`) exactly when fewer data blocks are free than one more record needs; otherwise the directory grows by one record holding the entry, with the new blocks drawn from the free data blocks; nothing else changes |
| Vfs.Create | easy-fs/src/vfs.rs:97-143 | a present name gives `None` and no change; for an absent name it panics `InodeExhausted` exactly when every inode id is taken, and `DataExhausted` exactly when an id is free but fewer data blocks are free than one more record needs; otherwise the lowest free inode id is allocated, its disk inode initialised as an empty file at its position, and a record naming it appended |
| Vfs.Link | easy-fs/src/vfs.rs:191-220 | an absent `old` gives `None` and no change; with `old` present it panics (`DataExhausted`) exactly when fewer data blocks are free than one more record needs; otherwise a record `(new, old's id)` is appended, no inode is allocated, and the result is `find(old)` |
| Vfs.Unlink | easy-fs/src/vfs.rs:224-256 | -1 exactly when the name is absent, with nothing changed; otherwise 0, and the first matching record is overwritten by the last and the directory shrinks by one record |
| Vfs.CountFrom | easy-fs/src/vfs.rs:265-274 | the count over records `i` onwards is the number of them whose inode resolves to `pos` |
| Vfs.GetLinkNum | easy-fs/src/vfs.rs:259-277 | the number of records whose inode resolves to the given position |
| Vfs.ReadAt | easy-fs/src/vfs.rs:162-165 | the bytes from `offset`, at most `len`, clipped at the size, and empty at or past the end |
| Vfs.WriteAt | easy-fs/src/vfs.rs:167-175 | panics (`DataExhausted`) exactly when fewer data blocks are free than growing to `offset + len` needs; otherwise the inode grows to `max(size, offset + len)` and is never shrunk; the window holds `buf`; other old bytes are kept; grown bytes are zero; all of `buf` is counted |
| Vfs.Clear | easy-fs/src/vfs.rs:177-188 | the size drops to zero and every block the old size used is freed once; it completes exactly when those blocks are distinct and allocated, and otherwise panics `DoubleFree` |
| Vfs.CreateThenFind | easy-fs/src/vfs.rs:97-143 | after `create` made a file, `find` resolves its name to the new inode |
| Vfs.CreateTwice | easy-fs/src/vfs.rs:97-107 | a second `create` of the same name gives `None` and changes nothing |
| Vfs.CreateCount | easy-fs/src/vfs.rs:118-131 | `create` gives the new inode one more link in the directory |
| Vfs.LinkThenFind | easy-fs/src/vfs.rs:197-219 | `link` returns `find(old)`, adds one link to that inode, and when `new` was absent `find(new)` resolves to the same inode |
| Vfs.CreateLinkCountsTwo | easy-fs/src/vfs.rs:191-220 | when every record already in the directory names an allocated inode, a file made by `create` and then linked under a second name has exactly two links and `link` returns the file's inode |
| Vfs.UnlinkCount | easy-fs/src/vfs.rs:233-255 | unlinking takes one link away from the inode the name resolved to and leaves every other inode's count unchanged |
| Vfs.UnlinkRemovesOne | easy-fs/src/vfs.rs:238-247 | unlink removes exactly one record, the first match: the remaining records are the old multiset minus that one |
| Vfs.UnlinkKeepsOthers | easy-fs/src/vfs.rs:238-247 | every other name stays present after unlink |
| Vfs.UnlinkUnique | easy-fs/src/vfs.rs:238-247 | when only one record had the name, the name is gone after unlink |
| Vfs.WriteThenRead | easy-fs/src/vfs.rs:162-175 | reading back the range just written gives the written bytes |
| Vfs.ClearThenRead | easy-fs/src/vfs.rs:162-188 | after `clear` every read is empty |
| PageTable.NewEntry | os/src/mm/page_table.rs:40-44 | the low ten bits of the entry are the flags (bits 8 and 9 zero), and a PPN that fits 44 bits leaves the top ten bits zero |
| PageTable.EmptyEntry | os/src/mm/page_table.rs:46-48 | the empty entry has no flags and PPN 0, so it is not valid, readable, writable or executable |
| PageTable.Ppn | os/src/mm/page_table.rs:50-52 | the PPN fits 44 bits, and with the low ten bits it gives back the entry's low 54 bits |
| PageTable.Flags | os/src/mm/page_table.rs:54-56 | the flags are the entry's low byte: with the other bits they give back the entry |
| PageTable.IsValid | os/src/mm/page_table.rs:58-60 | valid exactly when bit 0 (V) is set |
| PageTable.Readable | os/src/mm/page_table.rs:62-64 | readable exactly when bit 1 (R) is set |
| PageTable.Writable | os/src/mm/page_table.rs:66-68 | writable exactly when bit 2 (W) is set |
| PageTable.Executable | os/src/mm/page_table.rs:70-72 | executable exactly when bit 3 (X) is set |
| PageTable.NewEntryRoundTrip | os/src/mm/page_table.rs:40-72 | an entry built from a PPN below 2^44 gives back that PPN and those flags, and its four tests are the flags' V, R, W and X bits |
| PageTable.Token | os/src/mm/page_table.rs:174-176 | for a 44-bit root PPN the token has MODE 8 in bits 60..63 and zeros in bits 44..59 |
| PageTable.TokenRoot | os/src/mm/page_table.rs:97 | the low 44 bits of a token, which together with the bits above give back the token |
| PageTable.FromToken | os/src/mm/page_table.rs:95-100 | the table's root is the token's low 44 bits, and it sees the entries memory holds under that root |
| PageTable.FromTokenToken | os/src/mm/page_table.rs:95-100 | a table rebuilt from its own token has the same root |
| PageTable.Translate | os/src/mm/page_table.rs:170-172 | a copy of the leaf entry exactly when the walk reaches one, valid or not |
| PageTable.NewSiblings | os/src/mm/page_table.rs:103-127 | the slots `find_pte_create` makes reachable: exactly the VPNs of `vpn`'s leaf table that the walk did not reach before, each reading as `empty()` |
| PageTable.Map | os/src/mm/page_table.rs:103-156 | of the panics it models, gives `AlreadyMapped` exactly when the slot holds a valid entry; otherwise the slot holds the PPN with the flags plus V; VPNs outside its leaf table and VPNs reached before keep their entries; the other VPNs of a newly created leaf table become reachable as `empty()` |
| PageTable.Unmap | os/src/mm/page_table.rs:161-166 | panics when the walk does not reach the slot (`NotMapped`) or the entry is not valid (`UnmapInvalid`); otherwise the slot is emptied and every other VPN is unchanged |
| PageTable.MapThenTranslate | os/src/mm/page_table.rs:151-172 | after `map`, `translate` gives a valid entry with the mapped PPN and the flags plus V |
| PageTable.MapThenUnmap | os/src/mm/page_table.rs:103-166 | `unmap` after `map` succeeds, empties the slot (which stays reachable), restores every VPN outside its leaf table and every VPN reached before, and lets the page be mapped again |
| PageTable.BufferFrom | os/src/mm/page_table.rs:188-201 | the loop succeeds exactly when every address in the range lies in a reached page; the chunks are page-bounded and cover, in order, the physical bytes behind each address |
| PageTable.BufferStep | os/src/mm/page_table.rs:189-200 | one turn: the chunk runs from `start` to the next page boundary or the end, and it joins with the rest's chunks to cover the whole range |
| PageTable.PageChunk | os/src/mm/page_table.rs:189-199 | the chunk for `start`'s page covers the physical bytes behind `start` up to the page boundary or the end |
| PageTable.TranslatedByteBuffer | os/src/mm/page_table.rs:180-203 | for the table the token names, the chunks exist exactly when every byte is in a reached page; each lies within one page, their lengths sum to `len`, and in order they are the physical bytes behind `ptr`, `ptr + 1`, ... |
| Process.PortOkRange | os/src/syscall/process.rs:187 | the `port` check passes exactly for 1..7 |
| Process.Permission | os/src/syscall/process.rs:201-210 | always U; R iff bit 0, W iff bit 1, X iff bit 2 of `port` |
| Process.SysMmap | os/src/syscall/process.rs:179-213 | `len == 0` gives 0 and maps nothing; -1 exactly for a bad `port`, an unaligned start or a conflicting range, and then nothing is mapped; otherwise 0 and the area `[VirtAddr(start), VirtAddr(start + len))` is added with `Permission(port)` |
| Process.MmapPermissionShape | os/src/syscall/process.rs:187-211 | every added area is user-accessible, grants at least one of R, W, X, and nothing besides U, R, W, X |
| Process.SysMunmap | os/src/syscall/process.rs:216-229 | an unaligned start gives -1; otherwise the result is `remove_maparea` over the range |
| Process.SysGetTime | os/src/syscall/process.rs:146-158 | `usec < 10^6` and `sec * 10^6 + usec == us` |
| Process.SysWaitpid | os/src/syscall/process.rs:107-141 | the result is -1, -2 or a pid: -1 exactly when no child matches; -2 exactly when some match but none is a zombie; otherwise the first matching zombie is removed, its exit code stored and its pid returned, with the other children kept in order |
| Process.SysSetPriority | os/src/syscall/process.rs:268-282 | -1 exactly for a priority below 2, with the task's level kept; otherwise the level and the result are `prio` |

## Left out

- Locks, `Arc` and the global manager. `spin::Mutex`, `lazy_static` and
  `Arc::strong_count` are not modelled. Pins are an explicit count per
  entry, and the manager is a value passed in and returned. Concurrency is
  not modelled.
- BlockCache.GetRef: the bounds `assert!` is a precondition, not a panic
  result. The unsafe pointer cast is a byte view.
- BlockCache.GetMut: the bounds `assert!` is a precondition, as in GetRef.
- BlockCache.Read: the bounds `assert!` is a precondition, as in GetRef.
- BlockCache.Modify: the bounds `assert!` is a precondition, as in GetRef.
- The block device is a map from block id to bytes with a write log. Its
  trait (`easy-fs/src/block_dev.rs`) has no behaviour to model.
- Vfs: the directory layer works on the disk inodes directly rather than
  through the block cache (`read_disk_inode`, `modify_disk_inode` and
  `get_block_cache` of the new inode's block), and its
  `block_cache_sync_all` calls are not modelled. The cache's own
  guarantees are proved separately in `BlockCache`.
- `DiskInode`, `DirEntry` and `EasyFileSystem::get_disk_inode_pos` are not
  part of this model's source. `Layout` gives each of them a small body
  that meets what the call sites in `easy-fs/src/vfs.rs` rely on.
  Indirect index blocks are not modelled. Bytes that `increase_size` adds
  read as zero. The record codec is little-endian with a NUL-padded
  27-byte name.
- Unlink's block list: `unlink` lowers the size but keeps the block list.
  How the real `DiskInode::increase_size` then reuses those slots is not
  part of this model's source, so a possible leak there is not claimed.
  The stand-in keeps only the blocks the size uses.
- Vfs.FindInodeId: requires a directory. The source's
  `assert!(disk_inode.is_dir())` is a precondition, not a panic result.
- Vfs.Find: requires a directory, as in Vfs.FindInodeId.
- Vfs.Create: requires a directory, as in Vfs.FindInodeId. Also requires a
  name of at most 27 bytes with no NUL byte (`ValidName`), so that the
  stand-in record codec reads the name back from its NUL-padded field.
  `DirEntry` is not part of this model, so what it does with other names
  is not claimed. Also requires that the grown directory size
  fits a `u32`, instead of modelling the `new_size as u32` truncation.
- Vfs.Link: requires a directory and a valid `new` name, as in
  Vfs.Create. Also requires that the grown directory size fits a `u32`,
  as in Vfs.Create.
- Vfs.Unlink: requires a directory, as in Vfs.FindInodeId.
- Vfs.WriteAt: requires `offset + len` to fit a `u32`, instead of
  modelling the `as u32` truncation.
- Bitmap.Dealloc: requires `bit < maximum()`. The source would modify a
  block past the bitmap region, which lies outside this model.
- Bitmap.Alloc / Bitmap.Dealloc: the region's words are passed in directly.
  The source reaches each bitmap block through
  `get_block_cache(..).lock().modify(0, ..)`. That pins and loads every
  block it scans and marks it dirty, even one where no clear bit is found,
  and it can panic with "Run out of BlockCache!". The model neither marks
  those blocks dirty nor produces `OutOfBlockCache`. The cache's behaviour
  is proved on its own in `BlockCache.GetBlockCache` and
  `BlockCache.ModifyEntry`.
- Allocating an inode or data block for `EasyFileSystem::alloc_inode` and
  `alloc_data` is modelled as `Bitmap.Alloc` on the inode and data bitmaps.
  The `unwrap` on `None` is a panic result.
- The frame allocator, `get_pte_array`, `get_bytes_array` and the
  three-level walk are not modelled. `PageTable::new` is left out as well.
  A page table is a map from VPN to leaf entry, so the walk's intermediate
  entries, and the frames `find_pte_create` allocates, are not
  represented. What a newly created leaf table does to `translate` is
  modelled: its 512 slots become reachable as `empty()`
  (`PageTable.NewSiblings`). A new intermediate table is zeroed, so it
  makes no further VPN reachable. Leaf tables group VPNs by `vpn / 512`,
  following the Sv39 split of a VPN into three 9-bit indexes (section 4.4
  of the RISC-V Privileged Architecture). `VirtPageNum::indexes` is not
  part of this model, and VPNs are not limited to 27 bits.
- PageTable.Map: `find_pte_create` calls `frame_alloc().unwrap()` for each
  missing table. Frame exhaustion there is a panic this model does not
  produce, so `AlreadyMapped` is the only panic `Map` returns.
- PageTable.TranslatedByteBuffer: requires `ptr + len <= 2^38`. Below
  that bound `VirtAddr::from` does not truncate and the conversion back to
  `usize` does not sign-extend. The chunks are described by frame number
  and byte range instead of mutable slices.
- `translated_struct_ptr`, `translated_refmut` and `translated_str` are not
  modelled.
- Process.SysMmap: `check_maparea` is a parameter, and the added area is
  returned rather than passed to `add_maparea`. The sum `start + len`
  wraps modulo 2^64, as in a release build, where a debug build would
  panic on overflow.
- Process.SysMunmap: `remove_maparea` is a parameter. The sum
  `start + len` wraps modulo 2^64, as in Process.SysMmap.
- Process.SysWaitpid: requires child pids below 2^63, so that
  `found_pid as isize` is the pid itself. The `strong_count` assertion on
  the removed child and the write through `translated_refmut` are not
  modelled; the exit code is returned as `stored`.
- Process.SysGetTime: the clock reading `get_time_us` is a parameter.
  The write of the result through `translated_refmut` is not modelled.
- Process.SysSetPriority: the current task is passed in as its priority
  level. `take_current_task` and `set_current` are not modelled.
- Logging (`trace!`, `debug!`) and the other syscalls (`fork`, `exec`,
  `spawn`, `exit`, `yield`, `sbrk`, `task_info`) are not modelled, nor are
  `os/src/fs/stdio.rs` and `os/src/fs/mod.rs`.
