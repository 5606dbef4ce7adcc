/** The collaborators `easy-fs/src/vfs.rs` calls but whose source is not
    part of this model: the on-disk inode (`DiskInode`), the directory entry
    (`DirEntry`) and the placement of inodes in the inode area
    (`EasyFileSystem::get_disk_inode_pos`). Each is given the smallest body
    that meets what the call sites in vfs.rs rely on:

    - a disk inode has a byte size, a kind, its data bytes and the list of
      block ids backing them; `read_at` clips at the size, `write_at` writes
      inside the size, `increase_size` consumes exactly `blocks_num_needed`
      fresh blocks, `clear_size` hands back `total_blocks(size)` block ids;
    - a directory entry is a 32-byte record whose decoding inverts its
      encoding for names of at most 27 non-zero bytes;
    - distinct inode ids have distinct positions.

    Indirect-index blocks are not modelled: `total_blocks` counts data
    blocks only. */
module Layout {
  import opened Common
  import Bitmap

  const BLOCK_SZ: nat := 512
  /** `DIRENT_SZ`: bytes per directory record. */
  const DIRENT_SZ: nat := 32
  /** Longest name a directory record holds (the field has one more byte). */
  const NAME_LENGTH_LIMIT: nat := 27
  const NAME_FIELD: nat := NAME_LENGTH_LIMIT + 1
  /** Bytes per on-disk inode, hence four inodes per block. */
  const DISK_INODE_SZ: nat := 128
  const INODES_PER_BLOCK: nat := BLOCK_SZ / DISK_INODE_SZ
  /** Largest `u32`: inode sizes and inode ids are `u32` on disk. */
  const MAX_U32: nat := 0xFFFF_FFFF

  datatype InodeKind = File | Directory

  /** `DiskInode`: `size` bytes of `data`, backed by `blocks`. The list may
      hold more ids than `total_blocks(size)` after a directory shrinks. */
  datatype DiskInode = DiskInode(size: nat, kind: InodeKind, blocks: seq<nat>, data: seq<byte>)

  predicate Valid(d: DiskInode) {
    && |d.data| == d.size
    && d.size <= MAX_U32
    && |d.blocks| >= TotalBlocks(d.size)
  }

  predicate IsDir(d: DiskInode) { d.kind == Directory }

  /** `DiskInode::total_blocks`: blocks needed for `size` bytes. */
  function TotalBlocks(size: nat): (n: nat)
    ensures n * BLOCK_SZ >= size
    ensures n > 0 ==> (n - 1) * BLOCK_SZ < size
  {
    (size + BLOCK_SZ - 1) / BLOCK_SZ
  }

  lemma TotalBlocksMonotonic(a: nat, b: nat)
    requires a <= b
    ensures TotalBlocks(a) <= TotalBlocks(b)
  {
  }

  /** `DiskInode::initialize`: an empty inode of the given kind. */
  function Initialize(kind: InodeKind): (d: DiskInode)
    ensures Valid(d) && d.size == 0 && d.kind == kind
  {
    DiskInode(0, kind, [], [])
  }

  /** `DiskInode::blocks_num_needed`. */
  function BlocksNumNeeded(d: DiskInode, newSize: nat): nat
    requires newSize >= d.size
  {
    TotalBlocksMonotonic(d.size, newSize);
    TotalBlocks(newSize) - TotalBlocks(d.size)
  }

  /** `DiskInode::increase_size`: the new blocks fill the slots after the
      ones the current size uses; the new bytes read as zero. */
  function IncreaseSize(d: DiskInode, newSize: nat, newBlocks: seq<nat>): (d': DiskInode)
    requires Valid(d) && d.size <= newSize <= MAX_U32
    requires |newBlocks| == BlocksNumNeeded(d, newSize)
    ensures Valid(d') && d'.size == newSize && d'.kind == d.kind
    ensures d'.data[..d.size] == d.data
    ensures forall k :: d.size <= k < newSize ==> d'.data[k] == 0
    ensures d'.blocks == d.blocks[..TotalBlocks(d.size)] + newBlocks
  {
    DiskInode(newSize, d.kind, d.blocks[..TotalBlocks(d.size)] + newBlocks, d.data + Zeros(newSize - d.size))
  }

  /** `DiskInode::read_at`: the bytes from `offset`, at most `len` of them,
      clipped at the size. */
  function ReadAt(d: DiskInode, offset: nat, len: nat): (r: seq<byte>)
    requires Valid(d)
    ensures offset >= d.size ==> r == []
    ensures offset < d.size ==> |r| == Min(len, d.size - offset)
    ensures r == d.data[Min(offset, d.size)..Min(offset, d.size) + |r|]
  {
    var end := Min(offset + len, d.size);
    if offset >= end then [] else d.data[offset..end]
  }

  /** `DiskInode::write_at`: overwrites bytes inside the size starting at
      `offset` (which must not lie past the end) and returns the count. */
  function WriteAt(d: DiskInode, offset: nat, buf: seq<byte>): (r: (DiskInode, nat))
    requires Valid(d) && offset <= d.size
    ensures Valid(r.0) && r.0.size == d.size && r.0.kind == d.kind && r.0.blocks == d.blocks
    ensures r.1 == Min(|buf|, d.size - offset)
    ensures r.0.data == d.data[..offset] + buf[..r.1] + d.data[offset + r.1..]
  {
    var n := Min(|buf|, d.size - offset);
    (d.(data := d.data[..offset] + buf[..n] + d.data[offset + n..]), n)
  }

  /** `DiskInode::clear_size`: size back to zero; the ids of the blocks the
      old size used are handed back for deallocation. */
  function ClearSize(d: DiskInode): (r: (DiskInode, seq<nat>))
    requires Valid(d)
    ensures Valid(r.0) && r.0.size == 0 && r.0.kind == d.kind && r.0.blocks == []
    ensures |r.1| == TotalBlocks(d.size)
    ensures r.1 == d.blocks[..TotalBlocks(d.size)]
  {
    (DiskInode(0, d.kind, [], []), d.blocks[..TotalBlocks(d.size)])
  }

  /* ---------------------------------------------------------------- */
  /* Directory entries                                                 */
  /* ---------------------------------------------------------------- */

  /** `DirEntry { name, inode_id }` with the name as its bytes. */
  datatype DirEntry = DirEntry(name: seq<byte>, inodeId: nat)

  /** A name a record can hold and give back unchanged. */
  predicate ValidName(name: seq<byte>) {
    |name| <= NAME_LENGTH_LIMIT && forall k :: 0 <= k < |name| ==> name[k] != 0
  }

  /** Little-endian value of a byte string. */
  function LittleEndian(bs: seq<byte>): nat {
    if bs == [] then 0 else bs[0] + 256 * LittleEndian(bs[1..])
  }

  /** `n` little-endian bytes of `x`. */
  function EncodeLittleEndian(x: nat, n: nat): (bs: seq<byte>)
    ensures |bs| == n
  {
    if n == 0 then [] else [x % 256] + EncodeLittleEndian(x / 256, n - 1)
  }

  lemma {:induction false} LittleEndianRoundTrip(x: nat, n: nat)
    requires x < Bitmap.Pow2(8 * n)
    ensures LittleEndian(EncodeLittleEndian(x, n)) == x
    decreases n
  {
    if n > 0 {
      Bitmap.Pow2Add(8, 8 * (n - 1));
      assert Bitmap.Pow2(8) == 256;
      assert x / 256 < Bitmap.Pow2(8 * (n - 1));
      LittleEndianRoundTrip(x / 256, n - 1);
      assert EncodeLittleEndian(x, n)[1..] == EncodeLittleEndian(x / 256, n - 1);
    }
  }

  lemma {:induction false} LittleEndianBound(bs: seq<byte>)
    ensures LittleEndian(bs) < Bitmap.Pow2(8 * |bs|)
    decreases |bs|
  {
    if bs != [] {
      LittleEndianBound(bs[1..]);
      Bitmap.Pow2Add(8, 8 * (|bs| - 1));
      assert Bitmap.Pow2(8) == 256;
    }
  }

  lemma Pow2Of32()
    ensures Bitmap.Pow2(32) == MAX_U32 + 1
  {
    Bitmap.Pow2Of32();
  }

  /** The name stored in a NUL-padded field: the bytes before the first 0. */
  function NameOf(field: seq<byte>): (name: seq<byte>)
    ensures |name| <= |field| && name == field[..|name|]
    ensures forall k :: 0 <= k < |name| ==> name[k] != 0
    ensures |name| < |field| ==> field[|name|] == 0
  {
    if field == [] || field[0] == 0 then []
    else [field[0]] + NameOf(field[1..])
  }

  /** `DirEntry::as_bytes` of `DirEntry::new(name, inode_id)`. */
  function Encode(e: DirEntry): (bs: seq<byte>)
    requires ValidName(e.name) && e.inodeId <= MAX_U32
    ensures |bs| == DIRENT_SZ
  {
    e.name + Zeros(NAME_FIELD - |e.name|) + EncodeLittleEndian(e.inodeId, 4)
  }

  /** A record read back from its 32 bytes (`name()` and `inode_id()`). */
  function Decode(bs: seq<byte>): (e: DirEntry)
    requires |bs| == DIRENT_SZ
    ensures e.inodeId <= MAX_U32
  {
    LittleEndianBound(bs[NAME_FIELD..]);
    Pow2Of32();
    DirEntry(NameOf(bs[..NAME_FIELD]), LittleEndian(bs[NAME_FIELD..]))
  }

  /** A record gives back the name and inode id it was written with. */
  lemma DecodeEncode(e: DirEntry)
    requires ValidName(e.name) && e.inodeId <= MAX_U32
    ensures Decode(Encode(e)) == e
  {
    var bs := Encode(e);
    var field := bs[..NAME_FIELD];
    assert field == e.name + Zeros(NAME_FIELD - |e.name|);
    NameOfPadded(e.name, NAME_FIELD - |e.name|);
    assert bs[NAME_FIELD..] == EncodeLittleEndian(e.inodeId, 4);
    Pow2Of32();
    LittleEndianRoundTrip(e.inodeId, 4);
  }

  lemma {:induction false} NameOfPadded(name: seq<byte>, pad: nat)
    requires pad > 0 && forall k :: 0 <= k < |name| ==> name[k] != 0
    ensures NameOf(name + Zeros(pad)) == name
    decreases |name|
  {
    if name != [] {
      assert (name + Zeros(pad))[1..] == name[1..] + Zeros(pad);
      NameOfPadded(name[1..], pad);
    }
  }

  /* ---------------------------------------------------------------- */
  /* A directory's records                                             */
  /* ---------------------------------------------------------------- */

  /** `file_count`: the number of whole records in the inode. */
  function FileCount(d: DiskInode): nat {
    d.size / DIRENT_SZ
  }

  /** Record `i` of a directory lies within its size. */
  lemma RecordWithin(d: DiskInode, i: nat)
    requires i < FileCount(d)
    ensures DIRENT_SZ * i + DIRENT_SZ <= d.size
  {
  }

  /** The raw bytes of record `i`. */
  function RecordBytes(d: DiskInode, i: nat): (bs: seq<byte>)
    requires Valid(d) && i < FileCount(d)
    ensures |bs| == DIRENT_SZ
  {
    d.data[DIRENT_SZ * i..DIRENT_SZ * i + DIRENT_SZ]
  }

  /** The directory's records in storage order. */
  function Records(d: DiskInode): (recs: seq<DirEntry>)
    requires Valid(d)
    ensures |recs| == FileCount(d)
  {
    seq(FileCount(d), i requires 0 <= i < FileCount(d) => Decode(RecordBytes(d, i)))
  }

  /** Record `i` is the decoding of its bytes. */
  lemma RecordAt(d: DiskInode, i: nat)
    requires Valid(d) && i < FileCount(d)
    ensures Records(d)[i] == Decode(RecordBytes(d, i))
  {
  }

  function Names(recs: seq<DirEntry>): (names: seq<seq<byte>>)
    ensures |names| == |recs|
    ensures forall i :: 0 <= i < |recs| ==> names[i] == recs[i].name
  {
    seq(|recs|, i requires 0 <= i < |recs| => recs[i].name)
  }

  /** The first record named `name`. */
  function FirstMatch(recs: seq<DirEntry>, name: seq<byte>): (r: Option<nat>)
    ensures r.None? <==> name !in Names(recs)
    ensures r.Some? ==> r.value < |recs| && recs[r.value].name == name
    ensures r.Some? ==> forall j :: 0 <= j < r.value ==> recs[j].name != name
  {
    if recs == [] then None
    else if recs[0].name == name then Some(0)
    else
      assert Names(recs) == [recs[0].name] + Names(recs[1..]);
      match FirstMatch(recs[1..], name)
      case None => None
      case Some(k) => Some(k + 1)
  }

  /** A record appended under a name that was absent is that name's first
      match. */
  lemma {:induction false} FirstMatchAppend(recs: seq<DirEntry>, e: DirEntry)
    requires e.name !in Names(recs)
    ensures FirstMatch(recs + [e], e.name) == Some(|recs|)
    decreases |recs|
  {
    if recs != [] {
      var all := recs + [e];
      assert Names(recs)[0] == recs[0].name;
      assert all[0] == recs[0];
      assert all[1..] == recs[1..] + [e];
      assert Names(recs) == [recs[0].name] + Names(recs[1..]);
      FirstMatchAppend(recs[1..], e);
      assert Names(all) == [all[0].name] + Names(all[1..]);
    }
  }

  /** Growing a directory by one record and writing `e` there appends `e`
      to its records. */
  lemma AppendRecord(d: DiskInode, newBlocks: seq<nat>, e: DirEntry)
    requires Valid(d) && ValidName(e.name) && e.inodeId <= MAX_U32
    requires (FileCount(d) + 1) * DIRENT_SZ <= MAX_U32
    requires (FileCount(d) + 1) * DIRENT_SZ >= d.size
    requires |newBlocks| == BlocksNumNeeded(d, (FileCount(d) + 1) * DIRENT_SZ)
    ensures var d1 := IncreaseSize(d, (FileCount(d) + 1) * DIRENT_SZ, newBlocks);
            var d2 := WriteAt(d1, FileCount(d) * DIRENT_SZ, Encode(e)).0;
            Records(d2) == Records(d) + [e]
  {
    var fc := FileCount(d);
    var d1 := IncreaseSize(d, (fc + 1) * DIRENT_SZ, newBlocks);
    var d2 := WriteAt(d1, fc * DIRENT_SZ, Encode(e)).0;
    assert FileCount(d2) == fc + 1;
    forall i | 0 <= i < fc ensures RecordBytes(d2, i) == RecordBytes(d, i) {
      assert DIRENT_SZ * i + DIRENT_SZ <= fc * DIRENT_SZ;
      assert d1.data[..d.size] == d.data;
      assert RecordBytes(d2, i) == d1.data[DIRENT_SZ * i..DIRENT_SZ * i + DIRENT_SZ];
    }
    assert RecordBytes(d2, fc) == Encode(e);
    DecodeEncode(e);
  }

  /** The directory after `unlink` removed record `k`: the last record's
      bytes copied over record `k`, then the size lowered by one record.
      The block list is left as it was. */
  function SwapRemove(d: DiskInode, k: nat): (d': DiskInode)
    requires Valid(d) && k < FileCount(d)
    ensures Valid(d') && d'.size == d.size - DIRENT_SZ && d'.kind == d.kind && d'.blocks == d.blocks
    ensures var recs := Records(d);
            Records(d') == recs[k := recs[|recs| - 1]][..|recs| - 1]
  {
    var d1 := WriteAt(d, DIRENT_SZ * k, RecordBytes(d, FileCount(d) - 1)).0;
    var d' := d1.(size := d.size - DIRENT_SZ, data := d1.data[..d.size - DIRENT_SZ]);
    SwapRemoveRecords(d, k, d1, d');
    d'
  }

  lemma SwapRemoveRecords(d: DiskInode, k: nat, d1: DiskInode, d': DiskInode)
    requires Valid(d) && k < FileCount(d)
    requires d1 == WriteAt(d, DIRENT_SZ * k, RecordBytes(d, FileCount(d) - 1)).0
    requires d' == d1.(size := d.size - DIRENT_SZ, data := d1.data[..d.size - DIRENT_SZ])
    ensures Valid(d')
    ensures var recs := Records(d);
            Records(d') == recs[k := recs[|recs| - 1]][..|recs| - 1]
  {
    var fc := FileCount(d);
    var recs := Records(d);
    var want := recs[k := recs[fc - 1]][..fc - 1];
    assert FileCount(d') == fc - 1;
    forall i | 0 <= i < fc - 1 ensures Records(d')[i] == want[i] {
      SwapRemoveRecord(d, k, d1, d', i);
    }
  }

  lemma SwapRemoveRecord(d: DiskInode, k: nat, d1: DiskInode, d': DiskInode, i: nat)
    requires Valid(d) && k < FileCount(d) && i < FileCount(d) - 1
    requires d1 == WriteAt(d, DIRENT_SZ * k, RecordBytes(d, FileCount(d) - 1)).0
    requires d' == d1.(size := d.size - DIRENT_SZ, data := d1.data[..d.size - DIRENT_SZ])
    ensures Valid(d') && i < FileCount(d')
    ensures RecordBytes(d', i) == RecordBytes(d, if i == k then FileCount(d) - 1 else i)
  {
    var last := RecordBytes(d, FileCount(d) - 1);
    RecordWithin(d, k);
    assert last[..DIRENT_SZ] == last;
    assert d1.data == d.data[..DIRENT_SZ * k] + last + d.data[DIRENT_SZ * k + DIRENT_SZ..];
    assert RecordBytes(d', i) == d1.data[DIRENT_SZ * i..DIRENT_SZ * i + DIRENT_SZ];
    if i == k {
      SpliceInside(d.data, DIRENT_SZ * k, last);
    } else {
      SpliceOutside(d.data, DIRENT_SZ * k, last, DIRENT_SZ * i, DIRENT_SZ);
    }
  }

  /** Replacing `|t|` elements at `a` by `t` puts `t` there ... */
  lemma SpliceInside<T>(s: seq<T>, a: nat, t: seq<T>)
    requires a + |t| <= |s|
    ensures (s[..a] + t + s[a + |t|..])[a..a + |t|] == t
  {
  }

  /** ... and leaves every window that misses it unchanged. */
  lemma SpliceOutside<T>(s: seq<T>, a: nat, t: seq<T>, x: nat, m: nat)
    requires a + |t| <= |s| && x + m <= |s|
    requires x + m <= a || a + |t| <= x
    ensures (s[..a] + t + s[a + |t|..])[x..x + m] == s[x..x + m]
  {
    var s' := s[..a] + t + s[a + |t|..];
    assert forall j :: x <= j < x + m ==> s'[j] == s[j];
  }

  /* ---------------------------------------------------------------- */
  /* Inode placement                                                   */
  /* ---------------------------------------------------------------- */

  /** Where a disk inode lives: block id and byte offset in that block. */
  datatype Pos = Pos(blockId: nat, offset: nat)

  /** `get_disk_inode_pos`. */
  function DiskInodePos(inodeAreaStart: nat, id: nat): Pos {
    Pos(inodeAreaStart + id / INODES_PER_BLOCK, (id % INODES_PER_BLOCK) * DISK_INODE_SZ)
  }

  /** The inode id stored at a position. */
  function IdAt(inodeAreaStart: nat, p: Pos): nat {
    if p.blockId < inodeAreaStart then 0
    else (p.blockId - inodeAreaStart) * INODES_PER_BLOCK + p.offset / DISK_INODE_SZ
  }

  /** A position some inode id maps to. */
  predicate Placed(inodeAreaStart: nat, p: Pos) {
    p.blockId >= inodeAreaStart && p.offset % DISK_INODE_SZ == 0 && p.offset < BLOCK_SZ
  }

  /** Positions and ids correspond one to one. */
  lemma PlacementInverse(inodeAreaStart: nat, id: nat, p: Pos)
    ensures Placed(inodeAreaStart, DiskInodePos(inodeAreaStart, id))
    ensures IdAt(inodeAreaStart, DiskInodePos(inodeAreaStart, id)) == id
    ensures Placed(inodeAreaStart, p) ==> DiskInodePos(inodeAreaStart, IdAt(inodeAreaStart, p)) == p
  {
    var q := id / INODES_PER_BLOCK;
    var r := id % INODES_PER_BLOCK;
    assert id == q * INODES_PER_BLOCK + r;
    assert r * DISK_INODE_SZ / DISK_INODE_SZ == r;
    if Placed(inodeAreaStart, p) {
      var slot := p.offset / DISK_INODE_SZ;
      assert p.offset == slot * DISK_INODE_SZ && slot < INODES_PER_BLOCK;
      QuotientOf(p.blockId - inodeAreaStart, slot);
    }
  }

  lemma QuotientOf(q: nat, r: nat)
    requires r < INODES_PER_BLOCK
    ensures (q * INODES_PER_BLOCK + r) / INODES_PER_BLOCK == q
    ensures (q * INODES_PER_BLOCK + r) % INODES_PER_BLOCK == r
  {
  }

  lemma PlacementInjective(inodeAreaStart: nat, a: nat, b: nat)
    ensures DiskInodePos(inodeAreaStart, a) == DiskInodePos(inodeAreaStart, b) <==> a == b
  {
    PlacementInverse(inodeAreaStart, a, Pos(0, 0));
    PlacementInverse(inodeAreaStart, b, Pos(0, 0));
  }
}
