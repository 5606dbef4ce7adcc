/** The inode operation layer of easy-fs (`easy-fs/src/vfs.rs`).

    An `Inode` handle is the position of its disk inode. The filesystem
    state holds what the operations read and change: the inode and data
    bitmaps with their contents, the region offsets, and the disk inodes by
    position. The block cache underneath is transparent here (see the
    `BlockCache` module for its behaviour), so each operation reads and
    writes disk inodes directly; `block_cache_sync_all` calls have no effect
    on this state. The filesystem lock is not modelled: every operation is
    one step. */
module Vfs {
  import opened Common
  import Bitmap
  import opened Layout

  /** `EasyFileSystem` plus the disk inodes by position. */
  datatype Fs = Fs(
    inodeAreaStart: nat,
    dataAreaStart: nat,
    inodeBitmap: Bitmap.Bitmap,
    inodeBits: Bitmap.Region,
    dataBitmap: Bitmap.Bitmap,
    dataBits: Bitmap.Region,
    disk: map<Pos, DiskInode>)

  /** Block `b` lies in the data area. */
  predicate InDataArea(fs: Fs, b: nat) {
    fs.dataAreaStart <= b < fs.dataAreaStart + Bitmap.Maximum(fs.dataBitmap)
  }

  /** The disk inode at `p` sits at the position of an inode id within the
      inode bitmap, is well formed and only names data-area blocks. */
  predicate InodeOk(fs: Fs, p: Pos)
    requires Bitmap.RegionOf(fs.inodeBitmap, fs.inodeBits)
    requires p in fs.disk
  {
    && Placed(fs.inodeAreaStart, p)
    && IdAt(fs.inodeAreaStart, p) < Bitmap.Maximum(fs.inodeBitmap)
    && Layout.Valid(fs.disk[p])
    && forall k :: 0 <= k < |fs.disk[p].blocks| ==> InDataArea(fs, fs.disk[p].blocks[k])
  }

  /** The inode id of the disk inode at `p` is marked allocated. */
  predicate Allocated(fs: Fs, p: Pos)
    requires Bitmap.RegionOf(fs.inodeBitmap, fs.inodeBits)
    requires p in fs.disk && InodeOk(fs, p)
  {
    Bitmap.IsSet(fs.inodeBits, IdAt(fs.inodeAreaStart, p))
  }

  /** The state's invariant. The allocation half is only instantiated where a
      proof names `Allocated(fs, p)`, which keeps `Valid` cheap to assume. */
  predicate Valid(fs: Fs) {
    && Bitmap.RegionOf(fs.inodeBitmap, fs.inodeBits)
    && Bitmap.RegionOf(fs.dataBitmap, fs.dataBits)
    && Bitmap.Maximum(fs.inodeBitmap) <= MAX_U32 + 1
    && (forall p :: p in fs.disk ==> InodeOk(fs, p))
    && forall p {:trigger Allocated(fs, p)} :: p in fs.disk ==> Allocated(fs, p)
  }

  predicate Distinct(s: seq<nat>) {
    forall i, j :: 0 <= i < j < |s| ==> s[i] != s[j]
  }

  /** Absolute block `b` is marked allocated in the data bitmap contents
      `bits`, whose bit 0 stands for block `start`. */
  predicate Used(bits: Bitmap.Region, start: nat, b: nat) {
    && Bitmap.WellFormed(bits)
    && start <= b < start + |bits| * Bitmap.BLOCK_BITS
    && Bitmap.IsSet(bits, b - start)
  }

  /** `blocks` were free data blocks in `before` and are exactly the blocks
      that `after` additionally marks allocated. */
  predicate Acquires(start: nat, before: Bitmap.Region, after: Bitmap.Region, blocks: seq<nat>) {
    && Distinct(blocks)
    && (forall k :: 0 <= k < |blocks| ==>
          start <= blocks[k] < start + |before| * Bitmap.BLOCK_BITS && !Used(before, start, blocks[k]))
    && forall b :: start <= b < start + |before| * Bitmap.BLOCK_BITS ==>
          (Used(after, start, b) <==> Used(before, start, b) || b in blocks)
  }

  /** `blocks` were allocated data blocks in `before` and are exactly the
      blocks that `after` marks free again. */
  predicate Releases(start: nat, before: Bitmap.Region, after: Bitmap.Region, blocks: seq<nat>) {
    && Distinct(blocks)
    && (forall k :: 0 <= k < |blocks| ==> Used(before, start, blocks[k]))
    && forall b :: start <= b < start + |before| * Bitmap.BLOCK_BITS ==>
          (Used(after, start, b) <==> Used(before, start, b) && b !in blocks)
  }

  /** Setting one clear bit acquires exactly its block. */
  lemma AcquiresPut(start: nat, before: Bitmap.Region, bit: nat)
    requires Bitmap.WellFormed(before) && bit < |before| * Bitmap.BLOCK_BITS
    requires !Bitmap.IsSet(before, bit)
    ensures Acquires(start, before, Bitmap.Put(before, bit, true), [start + bit])
  {
    var after := Bitmap.Put(before, bit, true);
    forall b | start <= b < start + |before| * Bitmap.BLOCK_BITS
      ensures Used(after, start, b) <==> Used(before, start, b) || b in [start + bit]
    {
      if b != start + bit {
        assert b - start != bit;
      }
    }
  }

  /** Changing only the data bitmap keeps the state valid. */
  lemma ValidWithDataBits(fs: Fs, bits: Bitmap.Region)
    requires Valid(fs) && Bitmap.RegionOf(fs.dataBitmap, bits)
    ensures Valid(fs.(dataBits := bits))
  {
    var fs' := fs.(dataBits := bits);
    forall p | p in fs'.disk ensures InodeOk(fs', p) {
      assert InodeOk(fs, p);
    }
    forall p | p in fs'.disk ensures Allocated(fs', p) {
      assert Allocated(fs, p);
    }
  }

  /* ---------------------------------------------------------------- */
  /* EasyFileSystem allocation, as called from vfs.rs                  */
  /* ---------------------------------------------------------------- */

  /** `alloc_inode`: the inode bitmap's first free id; running out is the
      `unwrap` panic. */
  function AllocInode(fs: Fs): (r: Result<(Fs, nat)>)
    requires Valid(fs)
    ensures r.Fatal? <==> Bitmap.AllSet(fs.inodeBits)
    ensures r.Fatal? ==> r.panic == InodeExhausted
    ensures r.Ok? ==>
              var (fs', id) := r.value;
              && id < Bitmap.Maximum(fs.inodeBitmap)
              && !Bitmap.IsSet(fs.inodeBits, id)
              && (forall j :: 0 <= j < id ==> Bitmap.IsSet(fs.inodeBits, j))
              && fs' == fs.(inodeBits := Bitmap.Put(fs.inodeBits, id, true))
  {
    var (bit, bits) := Bitmap.Alloc(fs.inodeBitmap, fs.inodeBits);
    match bit
    case None => Fatal(InodeExhausted)
    case Some(id) => Ok((fs.(inodeBits := bits), id))
  }

  /** `alloc_data`: the data bitmap's first free bit, as an absolute block
      id; running out is the `unwrap` panic. */
  function AllocData(fs: Fs): (r: Result<(Fs, nat)>)
    requires Valid(fs)
    ensures r.Fatal? <==> Bitmap.AllSet(fs.dataBits)
    ensures r.Fatal? <==> Bitmap.FreeCount(fs.dataBits) == 0
    ensures r.Fatal? ==> r.panic == DataExhausted
    ensures r.Ok? ==>
              var (fs', b) := r.value;
              && Valid(fs') && InDataArea(fs, b)
              && Acquires(fs.dataAreaStart, fs.dataBits, fs'.dataBits, [b])
              && fs' == fs.(dataBits := fs'.dataBits)
              && Bitmap.FreeCount(fs'.dataBits) + 1 == Bitmap.FreeCount(fs.dataBits)
  {
    Bitmap.AllocCount(fs.dataBitmap, fs.dataBits);
    var (bit, bits) := Bitmap.Alloc(fs.dataBitmap, fs.dataBits);
    match bit
    case None => Fatal(DataExhausted)
    case Some(b) =>
      AllocDataOk(fs, b, bits);
      Ok((fs.(dataBits := bits), fs.dataAreaStart + b))
  }

  lemma AllocDataOk(fs: Fs, bit: nat, bits: Bitmap.Region)
    requires Valid(fs) && bit < Bitmap.Maximum(fs.dataBitmap) && !Bitmap.IsSet(fs.dataBits, bit)
    requires bits == Bitmap.Put(fs.dataBits, bit, true)
    ensures Valid(fs.(dataBits := bits)) && InDataArea(fs, fs.dataAreaStart + bit)
    ensures Acquires(fs.dataAreaStart, fs.dataBits, bits, [fs.dataAreaStart + bit])
  {
    ValidWithDataBits(fs, bits);
    AcquiresPut(fs.dataAreaStart, fs.dataBits, bit);
  }

  /** The loop in `increase_size` that calls `alloc_data` `n` times. It
      panics exactly when fewer than `n` data blocks are free. */
  function AllocDataN(fs: Fs, n: nat): (r: Result<(Fs, seq<nat>)>)
    requires Valid(fs)
    ensures r.Fatal? <==> Bitmap.FreeCount(fs.dataBits) < n
    ensures r.Fatal? ==> r.panic == DataExhausted
    ensures r.Ok? ==>
              var (fs', blocks) := r.value;
              && Valid(fs') && |blocks| == n
              && fs' == fs.(dataBits := fs'.dataBits)
              && Acquires(fs.dataAreaStart, fs.dataBits, fs'.dataBits, blocks)
              && Bitmap.FreeCount(fs'.dataBits) + n == Bitmap.FreeCount(fs.dataBits)
    decreases n
  {
    if n == 0 then Ok((fs, []))
    else
      match AllocData(fs)
      case Fatal(e) => Fatal(e)
      case Ok((fs1, b)) =>
        match AllocDataN(fs1, n - 1)
        case Fatal(e) => Fatal(e)
        case Ok((fs2, bs)) =>
          AcquiresChain(fs.dataAreaStart, fs.dataBits, fs1.dataBits, fs2.dataBits, b, bs);
          Ok((fs2, [b] + bs))
  }

  lemma AcquiresChain(start: nat, r0: Bitmap.Region, r1: Bitmap.Region, r2: Bitmap.Region, b: nat, bs: seq<nat>)
    requires |r0| == |r1|
    requires Acquires(start, r0, r1, [b]) && Acquires(start, r1, r2, bs)
    ensures Acquires(start, r0, r2, [b] + bs)
  {
    var all := [b] + bs;
    assert [b][0] == b && b in [b];
    assert Used(r1, start, b);
    forall k | 0 <= k < |all| ensures !Used(r0, start, all[k]) {
      if k > 0 {
        assert all[k] == bs[k - 1];
      }
    }
    forall i, j | 0 <= i < j < |all| ensures all[i] != all[j] {
      if i == 0 {
        assert all[j] == bs[j - 1];
      }
    }
  }

  /** `dealloc_data`: releases an absolute data block id; releasing a free
      block is the double-free panic. */
  function DeallocData(fs: Fs, b: nat): (r: Result<Fs>)
    requires Valid(fs) && InDataArea(fs, b)
    ensures r.Fatal? <==> !Used(fs.dataBits, fs.dataAreaStart, b)
    ensures r.Fatal? ==> r.panic == DoubleFree
    ensures r.Ok? ==>
              && Valid(r.value) && r.value == fs.(dataBits := r.value.dataBits)
              && Releases(fs.dataAreaStart, fs.dataBits, r.value.dataBits, [b])
  {
    var bits :- Bitmap.Dealloc(fs.dataBitmap, fs.dataBits, b - fs.dataAreaStart);
    ValidWithDataBits(fs, bits);
    Ok(fs.(dataBits := bits))
  }

  /** The loop in `clear` that calls `dealloc_data` on every freed block.
      It completes exactly when the blocks are distinct and all allocated. */
  function DeallocAll(fs: Fs, blocks: seq<nat>): (r: Result<Fs>)
    requires Valid(fs)
    requires forall k :: 0 <= k < |blocks| ==> InDataArea(fs, blocks[k])
    ensures r.Ok? <==>
              && Distinct(blocks)
              && forall k :: 0 <= k < |blocks| ==> Used(fs.dataBits, fs.dataAreaStart, blocks[k])
    ensures r.Fatal? ==> r.panic == DoubleFree
    ensures r.Ok? ==>
              && Valid(r.value) && r.value == fs.(dataBits := r.value.dataBits)
              && Releases(fs.dataAreaStart, fs.dataBits, r.value.dataBits, blocks)
    decreases |blocks|
  {
    if blocks == [] then Ok(fs)
    else
      match DeallocData(fs, blocks[0])
      case Fatal(e) => Fatal(e)
      case Ok(fs1) =>
        forall k | 0 <= k < |blocks| - 1 ensures InDataArea(fs1, blocks[1..][k]) {
          assert blocks[1..][k] == blocks[k + 1] && InDataArea(fs, blocks[k + 1]);
        }
        var r := DeallocAll(fs1, blocks[1..]);
        DeallocAllStep(fs, fs1, blocks, r);
        r
  }

  lemma DeallocAllStep(fs: Fs, fs1: Fs, blocks: seq<nat>, r: Result<Fs>)
    requires blocks != [] && |fs.dataBits| == |fs1.dataBits|
    requires Releases(fs.dataAreaStart, fs.dataBits, fs1.dataBits, [blocks[0]])
    requires forall k :: 0 <= k < |blocks| ==> InDataArea(fs, blocks[k])
    requires |fs.dataBits| == fs.dataBitmap.blocks
    requires r.Ok? <==>
              && Distinct(blocks[1..])
              && forall k :: 0 <= k < |blocks[1..]| ==> Used(fs1.dataBits, fs.dataAreaStart, blocks[1..][k])
    requires r.Ok? ==> Releases(fs.dataAreaStart, fs1.dataBits, r.value.dataBits, blocks[1..])
    ensures r.Ok? <==>
              && Distinct(blocks)
              && forall k :: 0 <= k < |blocks| ==> Used(fs.dataBits, fs.dataAreaStart, blocks[k])
    ensures r.Ok? ==> Releases(fs.dataAreaStart, fs.dataBits, r.value.dataBits, blocks)
  {
    var start := fs.dataAreaStart;
    var b := blocks[0];
    var rest := blocks[1..];
    assert blocks == [b] + rest;
    if Distinct(blocks) && forall k :: 0 <= k < |blocks| ==> Used(fs.dataBits, start, blocks[k]) {
      forall k | 0 <= k < |rest| ensures Used(fs1.dataBits, start, rest[k]) {
        assert rest[k] == blocks[k + 1];
        assert InDataArea(fs, blocks[k + 1]);
      }
    }
    if r.Ok? {
      assert !Used(fs1.dataBits, start, b);
      forall i, j | 0 <= i < j < |blocks| ensures blocks[i] != blocks[j] {
        if i == 0 {
          assert blocks[j] == rest[j - 1];
        } else {
          assert blocks[i] == rest[i - 1] && blocks[j] == rest[j - 1];
        }
      }
      forall k | 0 <= k < |blocks| ensures Used(fs.dataBits, start, blocks[k]) {
        if k > 0 {
          assert blocks[k] == rest[k - 1];
          assert InDataArea(fs, blocks[k]);
        }
      }
    }
  }

  /** Replacing the disk inode at an existing position by a well-formed one
      over data-area blocks keeps the state valid. */
  lemma ValidWithInode(fs: Fs, h: Pos, d: DiskInode)
    requires Valid(fs) && h in fs.disk && Layout.Valid(d)
    requires forall k :: 0 <= k < |d.blocks| ==> InDataArea(fs, d.blocks[k])
    ensures Valid(fs.(disk := fs.disk[h := d]))
  {
    var fs' := fs.(disk := fs.disk[h := d]);
    forall p | p in fs'.disk ensures InodeOk(fs', p) {
      assert InodeOk(fs, p);
    }
    forall p | p in fs'.disk ensures Allocated(fs', p) {
      assert Allocated(fs, p);
    }
  }

  /* ---------------------------------------------------------------- */
  /* Directory lookups                                                 */
  /* ---------------------------------------------------------------- */

  /** The record-by-record scan of `find_inode_id` (and of the loop in
      `unlink`): the index of the first record from `i` on whose stored name
      is `name`. Every read covers a whole record, which is the
      `assert_eq!` on the byte count. */
  function Scan(d: DiskInode, name: seq<byte>, i: nat): (r: Option<nat>)
    requires Layout.Valid(d) && i <= FileCount(d)
    ensures r.Some? ==> i <= r.value < FileCount(d) && Records(d)[r.value].name == name
    ensures r.Some? ==> forall j :: i <= j < r.value ==> Records(d)[j].name != name
    ensures r.None? ==> forall j :: i <= j < FileCount(d) ==> Records(d)[j].name != name
    decreases FileCount(d) - i
  {
    if i == FileCount(d) then None
    else
      var bytes := Layout.ReadAt(d, DIRENT_SZ * i, DIRENT_SZ);
      ReadRecord(d, i);
      if Decode(bytes).name == name then Some(i) else Scan(d, name, i + 1)
  }

  /** Reading one record's worth of bytes at record `i`'s offset gives
      that record. */
  lemma ReadRecord(d: DiskInode, i: nat)
    requires Layout.Valid(d) && i < FileCount(d)
    ensures Layout.ReadAt(d, DIRENT_SZ * i, DIRENT_SZ) == RecordBytes(d, i)
    ensures Decode(RecordBytes(d, i)) == Records(d)[i]
  {
    RecordWithin(d, i);
    RecordAt(d, i);
  }

  /** The scan from the first record finds the first match. */
  lemma ScanIsFirstMatch(d: DiskInode, name: seq<byte>)
    requires Layout.Valid(d)
    ensures Scan(d, name, 0) == FirstMatch(Records(d), name)
  {
    var recs := Records(d);
    var s := Scan(d, name, 0);
    var f := FirstMatch(recs, name);
    if s.Some? && f.Some? {
      assert !(s.value < f.value) && !(f.value < s.value);
    }
  }

  /** `find_inode_id`: the inode id of the first record named `name`. */
  function FindInodeId(d: DiskInode, name: seq<byte>): (r: Option<nat>)
    requires Layout.Valid(d) && IsDir(d)
    ensures r.None? <==> name !in Names(Records(d))
    ensures r.Some? ==> r.value == Records(d)[FirstMatch(Records(d), name).value].inodeId
    ensures r.Some? ==> r.value <= MAX_U32
  {
    ScanIsFirstMatch(d, name);
    match Scan(d, name, 0)
    case None => None
    case Some(k) =>
      var bytes := Layout.ReadAt(d, DIRENT_SZ * k, DIRENT_SZ);
      ReadRecord(d, k);
      Some(Decode(bytes).inodeId)
  }

  /** `find`: the position of the inode the first record named `name`
      refers to. */
  function Find(fs: Fs, h: Pos, name: seq<byte>): (r: Option<Pos>)
    requires Valid(fs) && h in fs.disk && IsDir(fs.disk[h])
    ensures r.None? <==> name !in Names(Records(fs.disk[h]))
    ensures r.Some? ==>
              var recs := Records(fs.disk[h]);
              r.value == DiskInodePos(fs.inodeAreaStart, recs[FirstMatch(recs, name).value].inodeId)
  {
    assert InodeOk(fs, h);
    match FindInodeId(fs.disk[h], name)
    case None => None
    case Some(id) => Some(DiskInodePos(fs.inodeAreaStart, id))
  }

  /** `ls`: the stored names, record by record, from record `i` on. */
  function LsFrom(d: DiskInode, i: nat): (names: seq<seq<byte>>)
    requires Layout.Valid(d) && i <= FileCount(d)
    ensures names == Names(Records(d))[i..]
    decreases FileCount(d) - i
  {
    if i == FileCount(d) then []
    else
      var bytes := Layout.ReadAt(d, i * DIRENT_SZ, DIRENT_SZ);
      assert bytes == RecordBytes(d, i);
      [Decode(bytes).name] + LsFrom(d, i + 1)
  }

  function Ls(fs: Fs, h: Pos): (names: seq<seq<byte>>)
    requires Valid(fs) && h in fs.disk
    ensures names == Names(Records(fs.disk[h]))
  {
    assert InodeOk(fs, h);
    LsFrom(fs.disk[h], 0)
  }

  /* ---------------------------------------------------------------- */
  /* Growing an inode and appending a record                           */
  /* ---------------------------------------------------------------- */

  /** All of `d`'s block ids lie in the data area. */
  predicate BlocksInArea(fs: Fs, d: DiskInode) {
    forall k :: 0 <= k < |d.blocks| ==> InDataArea(fs, d.blocks[k])
  }

  /** The number of data blocks growing `d` to `newSize` allocates: none
      when `newSize` is below the current size. */
  function Growth(d: DiskInode, newSize: nat): nat {
    if newSize < d.size then 0 else BlocksNumNeeded(d, newSize)
  }

  /** The number of data blocks appending one record to directory `d`
      allocates. */
  function RecordGrowth(d: DiskInode): nat {
    Growth(d, (FileCount(d) + 1) * DIRENT_SZ)
  }

  /** `increase_size`: nothing happens below the current size; otherwise
      exactly the blocks the disk inode asks for are allocated, in order,
      and handed to `DiskInode::increase_size`. It panics exactly when fewer
      data blocks are free than the growth needs. */
  function IncreaseSize(fs: Fs, d: DiskInode, newSize: nat): (r: Result<(Fs, DiskInode)>)
    requires Valid(fs) && Layout.Valid(d) && BlocksInArea(fs, d) && newSize <= MAX_U32
    ensures newSize < d.size ==> r == Ok((fs, d))
    ensures r.Fatal? <==> Bitmap.FreeCount(fs.dataBits) < Growth(d, newSize)
    ensures r.Fatal? ==> r.panic == DataExhausted
    ensures r.Ok? ==>
              var (fs', d') := r.value;
              && Valid(fs') && fs' == fs.(dataBits := fs'.dataBits)
              && Layout.Valid(d') && BlocksInArea(fs, d')
              && d'.kind == d.kind && d'.size == Max(d.size, newSize)
    ensures r.Ok? && newSize >= d.size ==>
              var (fs', d') := r.value;
              var used := TotalBlocks(d.size);
              && used <= |d'.blocks|
              && |d'.blocks| - used == BlocksNumNeeded(d, newSize)
              && d' == Layout.IncreaseSize(d, newSize, d'.blocks[used..])
              && Acquires(fs.dataAreaStart, fs.dataBits, fs'.dataBits, d'.blocks[used..])
  {
    if newSize < d.size then Ok((fs, d))
    else
      match AllocDataN(fs, BlocksNumNeeded(d, newSize))
      case Fatal(e) => Fatal(e)
      case Ok((fs', blocks)) =>
        IncreaseSizeOk(fs, d, newSize, fs', blocks);
        Ok((fs', Layout.IncreaseSize(d, newSize, blocks)))
  }

  lemma IncreaseSizeOk(fs: Fs, d: DiskInode, newSize: nat, fs': Fs, blocks: seq<nat>)
    requires Valid(fs) && Layout.Valid(d) && BlocksInArea(fs, d) && d.size <= newSize <= MAX_U32
    requires Valid(fs') && |blocks| == BlocksNumNeeded(d, newSize) && fs' == fs.(dataBits := fs'.dataBits)
    requires Acquires(fs.dataAreaStart, fs.dataBits, fs'.dataBits, blocks)
    ensures var d' := Layout.IncreaseSize(d, newSize, blocks);
            && Valid(fs') && fs' == fs.(dataBits := fs'.dataBits)
            && Layout.Valid(d') && BlocksInArea(fs, d')
            && d'.kind == d.kind && d'.size == newSize
            && TotalBlocks(d.size) <= |d'.blocks|
            && d'.blocks[TotalBlocks(d.size)..] == blocks
            && |blocks| == BlocksNumNeeded(d, newSize)
            && Acquires(fs.dataAreaStart, fs.dataBits, fs'.dataBits, blocks)
  {
    var d' := Layout.IncreaseSize(d, newSize, blocks);
    assert d'.blocks[TotalBlocks(d.size)..] == blocks;
    GrownInArea(fs, d, newSize, fs'.dataBits, blocks);
  }

  /** Growing a disk inode with blocks acquired from the data bitmap keeps
      all of its blocks in the data area. */
  lemma GrownInArea(fs: Fs, d: DiskInode, newSize: nat, after: Bitmap.Region, blocks: seq<nat>)
    requires Bitmap.RegionOf(fs.dataBitmap, fs.dataBits)
    requires Layout.Valid(d) && BlocksInArea(fs, d) && d.size <= newSize <= MAX_U32
    requires |blocks| == BlocksNumNeeded(d, newSize)
    requires Acquires(fs.dataAreaStart, fs.dataBits, after, blocks)
    ensures BlocksInArea(fs, Layout.IncreaseSize(d, newSize, blocks))
  {
    var d' := Layout.IncreaseSize(d, newSize, blocks);
    var used := TotalBlocks(d.size);
    forall k | 0 <= k < |d'.blocks| ensures InDataArea(fs, d'.blocks[k]) {
      if k < used {
        assert d'.blocks[k] == d.blocks[k];
      } else {
        assert d'.blocks[k] == blocks[k - used];
        AcquiredInArea(fs, after, blocks, k - used);
      }
    }
  }

  /** A block acquired from the data bitmap lies in the data area. */
  lemma AcquiredInArea(fs: Fs, after: Bitmap.Region, blocks: seq<nat>, k: nat)
    requires Bitmap.RegionOf(fs.dataBitmap, fs.dataBits)
    requires Acquires(fs.dataAreaStart, fs.dataBits, after, blocks) && k < |blocks|
    ensures InDataArea(fs, blocks[k])
  {
  }

  /** `fs'` is `fs` after directory `h` grew by one record holding `e`,
      with the blocks that took drawn from the free data blocks. */
  predicate AppendedTo(fs: Fs, h: Pos, e: DirEntry, fs': Fs)
    requires Valid(fs) && h in fs.disk && Valid(fs') && h in fs'.disk
  {
    assert InodeOk(fs, h) && InodeOk(fs', h);
    var d := fs.disk[h];
    var d' := fs'.disk[h];
    && fs' == fs.(dataBits := fs'.dataBits, disk := fs.disk[h := d'])
    && d'.kind == d.kind
    && d'.size == (FileCount(d) + 1) * DIRENT_SZ
    && Records(d') == Records(d) + [e]
    && TotalBlocks(d.size) <= |d'.blocks|
    && Acquires(fs.dataAreaStart, fs.dataBits, fs'.dataBits, d'.blocks[TotalBlocks(d.size)..])
  }

  /** The closure `create` and `link` pass to `modify_disk_inode`: grow the
      directory by one record and write `e` into the new slot. */
  function AppendEntry(fs: Fs, h: Pos, e: DirEntry): (r: Result<Fs>)
    requires Valid(fs) && h in fs.disk && ValidName(e.name) && e.inodeId <= MAX_U32
    requires fs.disk[h].size + DIRENT_SZ <= MAX_U32
    ensures r.Fatal? <==> Bitmap.FreeCount(fs.dataBits) < RecordGrowth(fs.disk[h])
    ensures r.Fatal? ==> r.panic == DataExhausted
    ensures r.Ok? ==> Valid(r.value) && h in r.value.disk && AppendedTo(fs, h, e, r.value)
  {
    assert InodeOk(fs, h);
    var d := fs.disk[h];
    var fc := FileCount(d);
    var grown := IncreaseSize(fs, d, (fc + 1) * DIRENT_SZ);
    if grown.Fatal? then Fatal(grown.panic)
    else
      var (fs1, d1) := grown.value;
      var d2 := Layout.WriteAt(d1, fc * DIRENT_SZ, Encode(e)).0;
      AppendEntryOk(fs, h, e, fs1, d1, d2);
      Ok(fs1.(disk := fs1.disk[h := d2]))
  }

  lemma AppendEntryOk(fs: Fs, h: Pos, e: DirEntry, fs1: Fs, d1: DiskInode, d2: DiskInode)
    requires Valid(fs) && h in fs.disk && ValidName(e.name) && e.inodeId <= MAX_U32
    requires fs.disk[h].size + DIRENT_SZ <= MAX_U32
    requires IncreaseSize(fs, fs.disk[h], (FileCount(fs.disk[h]) + 1) * DIRENT_SZ) == Ok((fs1, d1))
    requires d2 == Layout.WriteAt(d1, FileCount(fs.disk[h]) * DIRENT_SZ, Encode(e)).0
    ensures Valid(fs1.(disk := fs1.disk[h := d2]))
    ensures AppendedTo(fs, h, e, fs1.(disk := fs1.disk[h := d2]))
  {
    assert InodeOk(fs, h);
    var d := fs.disk[h];
    AppendRecord(d, d1.blocks[TotalBlocks(d.size)..], e);
    ValidWithInode(fs1, h, d2);
  }

  /** An inode id that is free in the inode bitmap, once allocated and
      initialised at its position, keeps the state valid. */
  lemma ValidWithNewInode(fs: Fs, id: nat, d: DiskInode)
    requires Valid(fs) && id < Bitmap.Maximum(fs.inodeBitmap) && !Bitmap.IsSet(fs.inodeBits, id)
    requires Layout.Valid(d) && d.blocks == []
    ensures DiskInodePos(fs.inodeAreaStart, id) !in fs.disk
    ensures Valid(fs.(inodeBits := Bitmap.Put(fs.inodeBits, id, true),
                      disk := fs.disk[DiskInodePos(fs.inodeAreaStart, id) := d]))
  {
    var start := fs.inodeAreaStart;
    var p := DiskInodePos(start, id);
    PlacementInverse(start, id, p);
    assert p in fs.disk ==> Allocated(fs, p);
    var fs' := fs.(inodeBits := Bitmap.Put(fs.inodeBits, id, true), disk := fs.disk[p := d]);
    forall q | q in fs'.disk ensures InodeOk(fs', q) {
      if q != p {
        assert InodeOk(fs, q);
      }
    }
    forall q | q in fs'.disk ensures Allocated(fs', q) {
      if q != p {
        assert Allocated(fs, q);
        assert IdAt(start, q) != id;
      }
    }
  }

  /* ---------------------------------------------------------------- */
  /* create / link / unlink                                            */
  /* ---------------------------------------------------------------- */

  /** The state after inode `id` was allocated and its disk inode
      initialised as an empty file at its position. */
  function WithNewFile(fs: Fs, id: nat): (fs': Fs)
    requires Valid(fs) && id < Bitmap.Maximum(fs.inodeBitmap)
  {
    fs.(inodeBits := Bitmap.Put(fs.inodeBits, id, true),
        disk := fs.disk[DiskInodePos(fs.inodeAreaStart, id) := Initialize(File)])
  }

  /** `fs'` is `fs` after `create` made the file `name` at `p`: the lowest
      free inode id was taken, its disk inode initialised, and the directory
      grew by a record naming it. */
  predicate CreatedIn(fs: Fs, h: Pos, name: seq<byte>, fs': Fs, p: Pos)
    requires Valid(fs) && h in fs.disk
  {
    var id := IdAt(fs.inodeAreaStart, p);
    && p == DiskInodePos(fs.inodeAreaStart, id)
    && p !in fs.disk && p != h
    && id < Bitmap.Maximum(fs.inodeBitmap) && !Bitmap.IsSet(fs.inodeBits, id)
    && (forall j :: 0 <= j < id ==> Bitmap.IsSet(fs.inodeBits, j))
    && Valid(WithNewFile(fs, id)) && h in WithNewFile(fs, id).disk
    && Valid(fs') && h in fs'.disk
    && AppendedTo(WithNewFile(fs, id), h, DirEntry(name, id), fs')
  }

  /** `create`: `None` when the name is already present (nothing changes);
      otherwise a fresh inode id is allocated, its disk inode initialised as
      an empty file, and a record naming it appended to the directory. */
  function Create(fs: Fs, h: Pos, name: seq<byte>): (r: Result<(Fs, Option<Pos>)>)
    requires Valid(fs) && h in fs.disk && IsDir(fs.disk[h]) && ValidName(name)
    requires fs.disk[h].size + DIRENT_SZ <= MAX_U32
    ensures name in Names(Records(fs.disk[h])) ==> r == Ok((fs, None))
    ensures name !in Names(Records(fs.disk[h])) && r.Ok? ==> r.value.1.Some?
    ensures r.Fatal? ==> r.panic == InodeExhausted || r.panic == DataExhausted
    ensures r.Fatal? && r.panic == InodeExhausted <==>
              name !in Names(Records(fs.disk[h])) && Bitmap.AllSet(fs.inodeBits)
    ensures r.Fatal? && r.panic == DataExhausted <==>
              && name !in Names(Records(fs.disk[h])) && !Bitmap.AllSet(fs.inodeBits)
              && Bitmap.FreeCount(fs.dataBits) < RecordGrowth(fs.disk[h])
    ensures r.Ok? && r.value.1.Some? ==> CreatedIn(fs, h, name, r.value.0, r.value.1.value)
  {
    assert InodeOk(fs, h);
    if FindInodeId(fs.disk[h], name).Some? then Ok((fs, None))
    else
      var inode := AllocInode(fs);
      if inode.Fatal? then Fatal(inode.panic)
      else
        var id := inode.value.1;
        ValidWithNewInode(fs, id, Initialize(File));
        var fs2 := WithNewFile(fs, id);
        assert fs2.disk[h] == fs.disk[h];
        var appended := AppendEntry(fs2, h, DirEntry(name, id));
        if appended.Fatal? then Fatal(appended.panic)
        else
          PlacementInverse(fs.inodeAreaStart, id, h);
          Ok((appended.value, Some(DiskInodePos(fs.inodeAreaStart, id))))
  }

  /** `link`: `None` when `old` is absent (nothing changes); otherwise a
      record `new` naming `old`'s inode is appended, no inode is allocated,
      and the result is the position `find(old)` gives. A `new` that is
      already present is not rejected. */
  function Link(fs: Fs, h: Pos, oldName: seq<byte>, newName: seq<byte>): (r: Result<(Fs, Option<Pos>)>)
    requires Valid(fs) && h in fs.disk && IsDir(fs.disk[h]) && ValidName(newName)
    requires fs.disk[h].size + DIRENT_SZ <= MAX_U32
    ensures oldName !in Names(Records(fs.disk[h])) ==> r == Ok((fs, None))
    ensures oldName in Names(Records(fs.disk[h])) && r.Ok? ==> r.value.1.Some?
    ensures r.Fatal? <==>
              oldName in Names(Records(fs.disk[h])) && Bitmap.FreeCount(fs.dataBits) < RecordGrowth(fs.disk[h])
    ensures r.Fatal? ==> r.panic == DataExhausted
    ensures r.Ok? && r.value.1.Some? ==>
              var recs := Records(fs.disk[h]);
              var fs' := r.value.0;
              && oldName in Names(recs)
              && r.value.1 == Find(fs, h, oldName)
              && Valid(fs') && h in fs'.disk
              && AppendedTo(fs, h, DirEntry(newName, recs[FirstMatch(recs, oldName).value].inodeId), fs')
  {
    assert InodeOk(fs, h);
    match FindInodeId(fs.disk[h], oldName)
    case None => Ok((fs, None))
    case Some(oldId) =>
      match AppendEntry(fs, h, DirEntry(newName, oldId))
      case Fatal(x) => Fatal(x)
      case Ok(fs') => Ok((fs', Some(DiskInodePos(fs.inodeAreaStart, oldId))))
  }

  /** `fs'` is `fs` after record `k` of directory `h` was replaced by the
      last one and the directory shrank by one record (`Layout.SwapRemove`
      states what that does to the records, size and block list). */
  predicate RemovedFrom(fs: Fs, h: Pos, k: nat, fs': Fs)
    requires Valid(fs) && h in fs.disk
  {
    assert InodeOk(fs, h);
    && k < FileCount(fs.disk[h])
    && fs' == fs.(disk := fs.disk[h := SwapRemove(fs.disk[h], k)])
  }

  /** `recs'` is `recs` after `unlink(name)`: the first record named `name`
      is overwritten by the last record, and the last slot is dropped. */
  predicate Unlinked(recs: seq<DirEntry>, name: seq<byte>, recs': seq<DirEntry>) {
    && name in Names(recs)
    && var k := FirstMatch(recs, name).value;
       recs' == recs[k := recs[|recs| - 1]][..|recs| - 1]
  }

  /** `unlink`: -1 when the name is absent (nothing changes); otherwise the
      first record named `name` is overwritten by the last record, the
      directory shrinks by one record and the result is 0. Neither the inode
      nor its data is reclaimed, and the directory's block list is kept. */
  function Unlink(fs: Fs, h: Pos, name: seq<byte>): (r: (Fs, int))
    requires Valid(fs) && h in fs.disk && IsDir(fs.disk[h])
    ensures r.1 == -1 <==> name !in Names(Records(fs.disk[h]))
    ensures r.1 == -1 ==> r.0 == fs
    ensures r.1 != -1 ==>
              && r.1 == 0 && Valid(r.0) && h in r.0.disk
              && RemovedFrom(fs, h, FirstMatch(Records(fs.disk[h]), name).value, r.0)
              && Unlinked(Records(fs.disk[h]), name, Records(r.0.disk[h]))
  {
    assert InodeOk(fs, h);
    var d := fs.disk[h];
    if FindInodeId(d, name).None? then (fs, -1)
    else
      ScanIsFirstMatch(d, name);
      var k := Scan(d, name, 0).value;
      UnlinkOk(fs, h, k);
      (fs.(disk := fs.disk[h := SwapRemove(d, k)]), 0)
  }

  lemma UnlinkOk(fs: Fs, h: Pos, k: nat)
    requires Valid(fs) && h in fs.disk
    requires InodeOk(fs, h) && k < FileCount(fs.disk[h])
    ensures Valid(fs.(disk := fs.disk[h := SwapRemove(fs.disk[h], k)]))
  {
    ValidWithInode(fs, h, SwapRemove(fs.disk[h], k));
  }

  /** Overwriting element `k` by the last one and dropping the last removes
      exactly one occurrence of `s[k]`. */
  lemma SwapRemoveMultiset<T>(s: seq<T>, k: nat)
    requires k < |s|
    ensures multiset(s[k := s[|s| - 1]][..|s| - 1]) + multiset{s[k]} == multiset(s)
  {
    var n := |s| - 1;
    assert s == s[..n] + [s[n]];
    if k < n {
      var t := s[..n];
      assert s[k := s[n]][..n] == t[k := s[n]];
      assert t == t[..k] + [s[k]] + t[k + 1..];
      assert t[k := s[n]] == t[..k] + [s[n]] + t[k + 1..];
    }
  }

  /* ---------------------------------------------------------------- */
  /* get_link_num                                                      */
  /* ---------------------------------------------------------------- */

  /** The inode position each record refers to, in record order. */
  function Targets(start: nat, recs: seq<DirEntry>): (ts: seq<Pos>)
    ensures |ts| == |recs|
    ensures forall i :: 0 <= i < |recs| ==> ts[i] == DiskInodePos(start, recs[i].inodeId)
  {
    seq(|recs|, i requires 0 <= i < |recs| => DiskInodePos(start, recs[i].inodeId))
  }

  /** The counting loop of `get_link_num`, from record `i` on. */
  function CountFrom(start: nat, d: DiskInode, pos: Pos, i: nat): (n: nat)
    requires Layout.Valid(d) && i <= FileCount(d)
    ensures n == multiset(Targets(start, Records(d))[i..])[pos]
    decreases FileCount(d) - i
  {
    if i == FileCount(d) then 0
    else
      var bytes := Layout.ReadAt(d, DIRENT_SZ * i, DIRENT_SZ);
      ReadRecord(d, i);
      var ts := Targets(start, Records(d));
      assert ts[i..] == [ts[i]] + ts[i + 1..];
      (if DiskInodePos(start, Decode(bytes).inodeId) == pos then 1 else 0) + CountFrom(start, d, pos, i + 1)
  }

  /** `get_link_num`: how many records of directory `h` refer to the inode
      at `pos`. */
  function GetLinkNum(fs: Fs, h: Pos, pos: Pos): (n: nat)
    requires Valid(fs) && h in fs.disk
    ensures n == multiset(Targets(fs.inodeAreaStart, Records(fs.disk[h])))[pos]
  {
    assert InodeOk(fs, h);
    var ts := Targets(fs.inodeAreaStart, Records(fs.disk[h]));
    assert ts[0..] == ts;
    CountFrom(fs.inodeAreaStart, fs.disk[h], pos, 0)
  }

  /* ---------------------------------------------------------------- */
  /* read_at / write_at / clear                                        */
  /* ---------------------------------------------------------------- */

  /** `Inode::read_at`: the bytes from `offset`, at most `len` of them,
      clipped at the inode's size. */
  function ReadAt(fs: Fs, h: Pos, offset: nat, len: nat): (r: seq<byte>)
    requires Valid(fs) && h in fs.disk
    ensures var d := fs.disk[h];
            && |r| == (if offset < d.size then Min(len, d.size - offset) else 0)
            && forall k :: 0 <= k < |r| ==> offset + k < |d.data| && r[k] == d.data[offset + k]
  {
    assert InodeOk(fs, h);
    Layout.ReadAt(fs.disk[h], offset, len)
  }

  /** `fs'` is `fs` after `buf` was written at `offset` into inode `h`, the
      inode first grown to cover the write. */
  predicate WroteTo(fs: Fs, h: Pos, offset: nat, buf: seq<byte>, fs': Fs)
    requires Valid(fs) && h in fs.disk && Valid(fs') && h in fs'.disk
  {
    assert InodeOk(fs, h) && InodeOk(fs', h);
    var d := fs.disk[h];
    var d' := fs'.disk[h];
    var end := offset + |buf|;
    && fs' == fs.(dataBits := fs'.dataBits, disk := fs.disk[h := d'])
    && d'.kind == d.kind
    && d'.size == Max(d.size, end)
    && d'.data[offset..end] == buf
    && (forall k :: 0 <= k < d.size && !(offset <= k < end) ==> d'.data[k] == d.data[k])
    && (forall k :: d.size <= k < d'.size && !(offset <= k < end) ==> d'.data[k] == 0)
    && TotalBlocks(d.size) <= |d'.blocks|
    && (end < d.size ==> fs'.dataBits == fs.dataBits)
    && (end >= d.size ==> Acquires(fs.dataAreaStart, fs.dataBits, fs'.dataBits, d'.blocks[TotalBlocks(d.size)..]))
  }

  /** `Inode::write_at`: grows the inode to `offset + |buf|` (the `as u32`
      cast is kept exact by the precondition), then writes all of `buf`. */
  function WriteAt(fs: Fs, h: Pos, offset: nat, buf: seq<byte>): (r: Result<(Fs, nat)>)
    requires Valid(fs) && h in fs.disk && offset + |buf| <= MAX_U32
    ensures r.Fatal? <==> Bitmap.FreeCount(fs.dataBits) < Growth(fs.disk[h], offset + |buf|)
    ensures r.Fatal? ==> r.panic == DataExhausted
    ensures r.Ok? ==>
              && Valid(r.value.0) && h in r.value.0.disk
              && WroteTo(fs, h, offset, buf, r.value.0)
              && r.value.1 == |buf|
  {
    assert InodeOk(fs, h);
    var grown := IncreaseSize(fs, fs.disk[h], offset + |buf|);
    if grown.Fatal? then Fatal(grown.panic)
    else
      var (fs1, d1) := grown.value;
      var (d2, n) := Layout.WriteAt(d1, offset, buf);
      WriteAtOk(fs, h, offset, buf, fs1, d1, d2);
      Ok((fs1.(disk := fs1.disk[h := d2]), n))
  }

  lemma WriteAtOk(fs: Fs, h: Pos, offset: nat, buf: seq<byte>, fs1: Fs, d1: DiskInode, d2: DiskInode)
    requires Valid(fs) && h in fs.disk && offset + |buf| <= MAX_U32
    requires IncreaseSize(fs, fs.disk[h], offset + |buf|) == Ok((fs1, d1))
    requires d2 == Layout.WriteAt(d1, offset, buf).0
    ensures Layout.WriteAt(d1, offset, buf).1 == |buf|
    ensures Valid(fs1.(disk := fs1.disk[h := d2]))
    ensures WroteTo(fs, h, offset, buf, fs1.(disk := fs1.disk[h := d2]))
  {
    assert InodeOk(fs, h);
    ValidWithInode(fs1, h, d2);
    WriteAtData(fs.disk[h], d1, offset, buf);
  }

  /** Writing `buf` at `offset` into `d1`, the inode `d` grown to cover it:
      the window holds `buf` and every other byte is `d`'s or zero. */
  lemma WriteAtData(d: DiskInode, d1: DiskInode, offset: nat, buf: seq<byte>)
    requires Layout.Valid(d) && Layout.Valid(d1)
    requires d1.size == Max(d.size, offset + |buf|)
    requires d1.data[..d.size] == d.data
    requires forall k :: d.size <= k < d1.size ==> d1.data[k] == 0
    ensures var (d2, n) := Layout.WriteAt(d1, offset, buf);
            && n == |buf|
            && d2.data[offset..offset + |buf|] == buf
            && (forall k :: 0 <= k < d.size && !(offset <= k < offset + |buf|) ==> d2.data[k] == d.data[k])
            && (forall k :: d.size <= k < d2.size && !(offset <= k < offset + |buf|) ==> d2.data[k] == 0)
  {
    var end := offset + |buf|;
    var (d2, n) := Layout.WriteAt(d1, offset, buf);
    assert buf[..n] == buf;
    assert d2.data == d1.data[..offset] + buf + d1.data[end..];
    forall k | 0 <= k < d.size && !(offset <= k < end)
      ensures d2.data[k] == d.data[k]
    {
      assert d1.data[k] == d.data[k];
    }
  }

  /** The blocks inode `h`'s size uses: the ones `clear_size` hands back. */
  function UsedBlocks(fs: Fs, h: Pos): (blocks: seq<nat>)
    requires Valid(fs) && h in fs.disk
    ensures |blocks| == TotalBlocks(fs.disk[h].size)
    ensures forall k :: 0 <= k < |blocks| ==> InDataArea(fs, blocks[k])
  {
    assert InodeOk(fs, h);
    fs.disk[h].blocks[..TotalBlocks(fs.disk[h].size)]
  }

  /** `clear`: the size drops to zero and every block the old size used is
      released; a block that is already free is the double-free panic. */
  function Clear(fs: Fs, h: Pos): (r: Result<Fs>)
    requires Valid(fs) && h in fs.disk
    ensures r.Ok? <==>
              && Distinct(UsedBlocks(fs, h))
              && forall k :: 0 <= k < |UsedBlocks(fs, h)| ==> Used(fs.dataBits, fs.dataAreaStart, UsedBlocks(fs, h)[k])
    ensures r.Fatal? ==> r.panic == DoubleFree
    ensures r.Ok? ==>
              && Valid(r.value) && h in r.value.disk
              && r.value == fs.(dataBits := r.value.dataBits, disk := fs.disk[h := r.value.disk[h]])
              && r.value.disk[h].size == 0
              && r.value.disk[h].kind == fs.disk[h].kind
              && Releases(fs.dataAreaStart, fs.dataBits, r.value.dataBits, UsedBlocks(fs, h))
  {
    assert InodeOk(fs, h);
    var (d', freed) := ClearSize(fs.disk[h]);
    assert |freed| == TotalBlocks(fs.disk[h].size);
    assert freed == UsedBlocks(fs, h);
    match DeallocAll(fs, freed)
    case Fatal(x) => Fatal(x)
    case Ok(fs1) =>
      ValidWithInode(fs1, h, d');
      Ok(fs1.(disk := fs1.disk[h := d']))
  }

  /* ---------------------------------------------------------------- */
  /* Properties across operations                                      */
  /* ---------------------------------------------------------------- */

  lemma TargetsAppend(start: nat, recs: seq<DirEntry>, e: DirEntry)
    ensures Targets(start, recs + [e]) == Targets(start, recs) + [DiskInodePos(start, e.inodeId)]
  {
  }

  /** After `create` made a file, `find` resolves its name to the new
      inode, so a second `create` of the name is refused. */
  lemma CreateThenFind(fs: Fs, h: Pos, name: seq<byte>, fs': Fs, p: Pos)
    requires Valid(fs) && h in fs.disk && IsDir(fs.disk[h]) && ValidName(name)
    requires fs.disk[h].size + DIRENT_SZ <= MAX_U32
    requires Create(fs, h, name) == Ok((fs', Some(p)))
    ensures Valid(fs') && h in fs'.disk && IsDir(fs'.disk[h])
    ensures name in Names(Records(fs'.disk[h]))
    ensures Find(fs', h, name) == Some(p)
  {
    var recs := Records(fs.disk[h]);
    var id := IdAt(fs.inodeAreaStart, p);
    var e := DirEntry(name, id);
    assert WithNewFile(fs, id).disk[h] == fs.disk[h];
    assert Records(fs'.disk[h]) == recs + [e];
    FirstMatchAppend(recs, e);
  }

  /** A second `create` of the same name is refused and changes nothing. */
  lemma CreateTwice(fs: Fs, h: Pos, name: seq<byte>, fs': Fs, p: Pos)
    requires Valid(fs) && h in fs.disk && IsDir(fs.disk[h]) && ValidName(name)
    requires fs.disk[h].size + DIRENT_SZ <= MAX_U32
    requires Create(fs, h, name) == Ok((fs', Some(p)))
    requires Valid(fs') && h in fs'.disk && fs'.disk[h].size + DIRENT_SZ <= MAX_U32
    ensures IsDir(fs'.disk[h]) && Create(fs', h, name) == Ok((fs', None))
  {
    CreateThenFind(fs, h, name, fs', p);
  }

  /** `create` gives the new inode one link in the directory. */
  lemma CreateCount(fs: Fs, h: Pos, name: seq<byte>, fs': Fs, p: Pos)
    requires Valid(fs) && h in fs.disk && IsDir(fs.disk[h]) && ValidName(name)
    requires fs.disk[h].size + DIRENT_SZ <= MAX_U32
    requires Create(fs, h, name) == Ok((fs', Some(p)))
    ensures Valid(fs') && h in fs'.disk
    ensures GetLinkNum(fs', h, p) == GetLinkNum(fs, h, p) + 1
  {
    var recs := Records(fs.disk[h]);
    var id := IdAt(fs.inodeAreaStart, p);
    var e := DirEntry(name, id);
    assert WithNewFile(fs, id).disk[h] == fs.disk[h];
    assert Records(fs'.disk[h]) == recs + [e];
    TargetsAppend(fs.inodeAreaStart, recs, e);
  }

  /** `link` adds one link to the inode `old` names, and when `new` was not
      yet present `find(new)` then resolves to that same inode. */
  lemma LinkThenFind(fs: Fs, h: Pos, oldName: seq<byte>, newName: seq<byte>, fs': Fs, p: Pos)
    requires Valid(fs) && h in fs.disk && IsDir(fs.disk[h]) && ValidName(newName)
    requires fs.disk[h].size + DIRENT_SZ <= MAX_U32
    requires Link(fs, h, oldName, newName) == Ok((fs', Some(p)))
    ensures Valid(fs') && h in fs'.disk && IsDir(fs'.disk[h])
    ensures Find(fs, h, oldName) == Some(p)
    ensures GetLinkNum(fs', h, p) == GetLinkNum(fs, h, p) + 1
    ensures newName !in Names(Records(fs.disk[h])) ==> Find(fs', h, newName) == Some(p)
  {
    var recs := Records(fs.disk[h]);
    var e := DirEntry(newName, recs[FirstMatch(recs, oldName).value].inodeId);
    assert Records(fs'.disk[h]) == recs + [e];
    TargetsAppend(fs.inodeAreaStart, recs, e);
    if newName !in Names(recs) {
      FirstMatchAppend(recs, e);
    }
  }

  /** A file made by `create` and then linked under a second name has
      exactly two links, provided every record of the directory referred to
      an allocated inode before. */
  lemma CreateLinkCountsTwo(fs: Fs, h: Pos, name: seq<byte>, alias: seq<byte>, fs1: Fs, p: Pos, fs2: Fs, p2: Option<Pos>)
    requires Valid(fs) && h in fs.disk && IsDir(fs.disk[h]) && ValidName(name) && ValidName(alias)
    requires fs.disk[h].size + 2 * DIRENT_SZ <= MAX_U32
    requires forall i :: 0 <= i < |Records(fs.disk[h])| ==>
               Records(fs.disk[h])[i].inodeId < Bitmap.Maximum(fs.inodeBitmap) &&
               Bitmap.IsSet(fs.inodeBits, Records(fs.disk[h])[i].inodeId)
    requires Create(fs, h, name) == Ok((fs1, Some(p)))
    requires Valid(fs1) && h in fs1.disk && IsDir(fs1.disk[h]) && fs1.disk[h].size + DIRENT_SZ <= MAX_U32
    requires Link(fs1, h, name, alias) == Ok((fs2, p2))
    ensures p2 == Some(p)
    ensures Valid(fs2) && h in fs2.disk
    ensures GetLinkNum(fs2, h, p) == 2
  {
    CreateThenFind(fs, h, name, fs1, p);
    CreateCount(fs, h, name, fs1, p);
    var start := fs.inodeAreaStart;
    var id := IdAt(start, p);
    var ts := Targets(start, Records(fs.disk[h]));
    assert p !in multiset(ts) by {
      if p in multiset(ts) {
        var i :| 0 <= i < |ts| && ts[i] == p;
        PlacementInjective(start, Records(fs.disk[h])[i].inodeId, id);
      }
    }
    assert name in Names(Records(fs1.disk[h]));
    LinkThenFind(fs1, h, name, alias, fs2, p2.value);
  }

  /** `unlink` takes one link away from the inode the name resolved to and
      leaves every other inode's count as it was: `GetLinkNum` counts
      `q` in the targets and `Find` resolves the name to the target of the
      first matching record. */
  lemma UnlinkCount(start: nat, recs: seq<DirEntry>, name: seq<byte>, recs': seq<DirEntry>, q: Pos)
    requires Unlinked(recs, name, recs')
    ensures var p := DiskInodePos(start, recs[FirstMatch(recs, name).value].inodeId);
            multiset(Targets(start, recs'))[q] + (if q == p then 1 else 0) == multiset(Targets(start, recs))[q]
  {
    TargetsRemove(start, recs, FirstMatch(recs, name).value, recs');
  }

  /** Removing record `k` as `unlink` does removes one occurrence of its
      target from the directory's targets. */
  lemma TargetsRemove(start: nat, recs: seq<DirEntry>, k: nat, recs': seq<DirEntry>)
    requires k < |recs| && recs' == recs[k := recs[|recs| - 1]][..|recs| - 1]
    ensures var ts := Targets(start, recs);
            multiset(Targets(start, recs')) + multiset{ts[k]} == multiset(ts)
  {
    var ts := Targets(start, recs);
    var n := |recs| - 1;
    var ts' := Targets(start, recs');
    var swapped := ts[k := ts[n]][..n];
    forall j | 0 <= j < n ensures ts'[j] == swapped[j] {
      assert recs'[j] == (if j == k then recs[n] else recs[j]);
    }
    assert ts' == swapped;
    SwapRemoveMultiset(ts, k);
  }

  /** `unlink` of one name keeps every other name of the directory. */
  lemma UnlinkKeepsOthers(recs: seq<DirEntry>, name: seq<byte>, other: seq<byte>, recs': seq<DirEntry>)
    requires Unlinked(recs, name, recs')
    requires other != name && other in Names(recs)
    ensures other in Names(recs')
  {
    SwapRemoveKeeps(recs, FirstMatch(recs, name).value, other);
  }

  /** `unlink` removes exactly one record, the one the name resolved to. */
  lemma UnlinkRemovesOne(recs: seq<DirEntry>, name: seq<byte>, recs': seq<DirEntry>)
    requires Unlinked(recs, name, recs')
    ensures |recs'| == |recs| - 1
    ensures multiset(recs') + multiset{recs[FirstMatch(recs, name).value]} == multiset(recs)
  {
    SwapRemoveMultiset(recs, FirstMatch(recs, name).value);
  }

  lemma SwapRemoveKeeps(recs: seq<DirEntry>, k: nat, other: seq<byte>)
    requires k < |recs| && recs[k].name != other && other in Names(recs)
    ensures other in Names(recs[k := recs[|recs| - 1]][..|recs| - 1])
  {
    var n := |recs| - 1;
    var recs' := recs[k := recs[n]][..n];
    var j :| 0 <= j < |recs| && Names(recs)[j] == other;
    var j' := if j == n then k else j;
    assert recs'[j'] == recs[j];
    assert Names(recs')[j'] == other;
  }

  /** At most one record is named `name`. */
  predicate NamedOnce(recs: seq<DirEntry>, name: seq<byte>) {
    forall i, j :: 0 <= i < j < |recs| ==> recs[i].name != name || recs[j].name != name
  }

  lemma SwapRemoveUnique(recs: seq<DirEntry>, k: nat, name: seq<byte>)
    requires k < |recs| && recs[k].name == name && NamedOnce(recs, name)
    ensures name !in Names(recs[k := recs[|recs| - 1]][..|recs| - 1])
  {
    var n := |recs| - 1;
    var recs' := recs[k := recs[n]][..n];
    forall j | 0 <= j < |recs'| ensures Names(recs')[j] != name {
      if j == k {
        assert recs[k].name != name || recs[n].name != name;
      }
    }
  }

  /** Once the only record named `name` is unlinked the name is gone. */
  lemma UnlinkUnique(recs: seq<DirEntry>, name: seq<byte>, recs': seq<DirEntry>)
    requires Unlinked(recs, name, recs') && NamedOnce(recs, name)
    ensures name !in Names(recs')
  {
    SwapRemoveUnique(recs, FirstMatch(recs, name).value, name);
  }

  /** Reading back what `write_at` wrote gives the written bytes. */
  lemma WriteThenRead(fs: Fs, h: Pos, offset: nat, buf: seq<byte>)
    requires Valid(fs) && h in fs.disk && offset + |buf| <= MAX_U32
    requires WriteAt(fs, h, offset, buf).Ok?
    ensures var fs' := WriteAt(fs, h, offset, buf).value.0;
            h in fs'.disk && ReadAt(fs', h, offset, |buf|) == buf
  {
    var fs' := WriteAt(fs, h, offset, buf).value.0;
    var r := ReadAt(fs', h, offset, |buf|);
    assert fs'.disk[h].data[offset..offset + |buf|] == buf;
    assert forall k :: 0 <= k < |buf| ==> r[k] == buf[k];
  }

  /** After `clear` nothing can be read. */
  lemma ClearThenRead(fs: Fs, h: Pos, offset: nat, len: nat)
    requires Valid(fs) && h in fs.disk && Clear(fs, h).Ok?
    ensures var fs' := Clear(fs, h).value;
            h in fs'.disk && ReadAt(fs', h, offset, len) == []
  {
  }
}
