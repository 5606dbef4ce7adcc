/** The block cache of easy-fs (`easy-fs/src/block_cache.rs`): one cached
    block with a dirty flag, and the manager's bounded queue of cached
    blocks with FIFO-with-pinning replacement.

    The block device is a value: the contents of each block plus the log of
    block ids written so far, so that "writes back only when dirty" is
    observable. An `Arc` clone of a cache entry that is held outside the
    manager is a pin: `Arc::strong_count(entry) == 1` is `pins == 0`. */
module BlockCache {
  import opened Common

  const BLOCK_SZ: nat := 512
  /** `BLOCK_CACHE_SIZE`: at most 16 blocks are resident. */
  const BLOCK_CACHE_SIZE: nat := 16

  /** Block contents by block id, and the ids written, oldest first. */
  datatype Device = Device(content: map<nat, seq<byte>>, writes: seq<nat>)

  predicate DeviceOk(dev: Device) {
    forall id :: id in dev.content ==> |dev.content[id]| == BLOCK_SZ
  }

  /** `BlockDevice::write_block`. */
  function WriteBlock(dev: Device, id: nat, buf: seq<byte>): Device {
    Device(dev.content[id := buf], dev.writes + [id])
  }

  /* ---------------------------------------------------------------- */
  /* BlockCache                                                        */
  /* ---------------------------------------------------------------- */

  /** `BlockCache { cache, block_id, block_device, modified }`; the device
      is passed to the operations that use it. */
  datatype BlockCache = BlockCache(cache: seq<byte>, blockId: nat, modified: bool)

  /** A clean cache holds exactly the device's copy of its block. */
  predicate Coherent(bc: BlockCache, dev: Device) {
    && bc.blockId in dev.content
    && |bc.cache| == BLOCK_SZ
    && (!bc.modified ==> bc.cache == dev.content[bc.blockId])
  }

  /** `BlockCache::new`: reads the block from the device, not dirty. */
  function New(blockId: nat, dev: Device): (bc: BlockCache)
    requires DeviceOk(dev) && blockId in dev.content
    ensures bc.blockId == blockId && !bc.modified
    ensures Coherent(bc, dev)
  {
    BlockCache(dev.content[blockId], blockId, false)
  }

  /** `get_ref`: the `size`-byte view at `offset`; the source asserts
      `offset + size_of::<T>() <= BLOCK_SZ`. */
  function GetRef(bc: BlockCache, offset: nat, size: nat): (view: seq<byte>)
    requires |bc.cache| == BLOCK_SZ && offset + size <= BLOCK_SZ
    ensures |view| == size
    ensures forall k :: 0 <= k < size ==> view[k] == bc.cache[offset + k]
  {
    bc.cache[offset..offset + size]
  }

  /** `get_mut`: the same view, and the cache is marked dirty whether or not
      the caller then writes through the reference. */
  function GetMut(bc: BlockCache, offset: nat, size: nat): (r: (BlockCache, seq<byte>))
    requires |bc.cache| == BLOCK_SZ && offset + size <= BLOCK_SZ
    ensures r.0.modified
    ensures r.0.cache == bc.cache && r.0.blockId == bc.blockId
    ensures r.1 == GetRef(bc, offset, size)
  {
    (bc.(modified := true), GetRef(bc, offset, size))
  }

  /** `read`: the closure sees the bounds-checked view; the cache is not an
      output, so its buffer and dirty flag are untouched. */
  function Read<V>(bc: BlockCache, offset: nat, size: nat, f: seq<byte> -> V): (v: V)
    requires |bc.cache| == BLOCK_SZ && offset + size <= BLOCK_SZ
    ensures v == f(bc.cache[offset..offset + size])
  {
    f(GetRef(bc, offset, size))
  }

  /** `modify`: the closure rewrites the `size` bytes at `offset`; the rest
      of the block is unchanged and the cache becomes dirty. */
  function Modify<V>(bc: BlockCache, offset: nat, size: nat, f: seq<byte> -> (seq<byte>, V)): (r: (BlockCache, V))
    requires |bc.cache| == BLOCK_SZ && offset + size <= BLOCK_SZ
    requires |f(bc.cache[offset..offset + size]).0| == size
    ensures r.0.modified && r.0.blockId == bc.blockId && |r.0.cache| == BLOCK_SZ
    ensures r.0.cache[offset..offset + size] == f(bc.cache[offset..offset + size]).0
    ensures r.0.cache[..offset] == bc.cache[..offset]
    ensures r.0.cache[offset + size..] == bc.cache[offset + size..]
    ensures r.1 == f(bc.cache[offset..offset + size]).1
  {
    var (dirty, view) := GetMut(bc, offset, size);
    var (bytes, v) := f(view);
    (dirty.(cache := dirty.cache[..offset] + bytes + dirty.cache[offset + size..]), v)
  }

  /** `sync`: writes the block back only when dirty, then clears the flag. */
  function Sync(bc: BlockCache, dev: Device): (r: (BlockCache, Device))
    ensures !r.0.modified && r.0.cache == bc.cache && r.0.blockId == bc.blockId
    ensures r.1.writes == dev.writes + (if bc.modified then [bc.blockId] else [])
    ensures forall id :: id != bc.blockId ==>
              (id in r.1.content <==> id in dev.content) &&
              (id in dev.content ==> r.1.content[id] == dev.content[id])
    ensures Coherent(bc, dev) ==> Coherent(r.0, r.1) && r.1.content[bc.blockId] == bc.cache
    ensures Coherent(bc, dev) ==> r.1.content == dev.content[bc.blockId := bc.cache]
  {
    if bc.modified then (bc.(modified := false), WriteBlock(dev, bc.blockId, bc.cache))
    else (bc, dev)
  }

  /** A second `sync` performs no write and changes nothing. */
  lemma SyncIdempotent(bc: BlockCache, dev: Device)
    ensures var (bc1, dev1) := Sync(bc, dev);
            Sync(bc1, dev1) == (bc1, dev1)
  {
  }

  /** `impl Drop for BlockCache`: dropping the last reference syncs, so a
      dirty block reaches the device before its buffer is discarded. */
  function Drop(bc: BlockCache, dev: Device): (dev': Device)
    ensures Coherent(bc, dev) ==> dev'.content == dev.content[bc.blockId := bc.cache]
    ensures dev'.writes == dev.writes + (if bc.modified then [bc.blockId] else [])
  {
    Sync(bc, dev).1
  }

  /* ---------------------------------------------------------------- */
  /* BlockCacheManager                                                 */
  /* ---------------------------------------------------------------- */

  /** One `(block_id, Arc<Mutex<BlockCache>>)` pair of the queue; `pins`
      counts the clones held outside the manager. */
  datatype Entry = Entry(blockId: nat, cache: BlockCache, pins: nat)

  /** `BlockCacheManager { queue }`, front of the queue first. */
  datatype Manager = Manager(queue: seq<Entry>)

  /** The block ids of the queue, front to back. */
  function Ids(q: seq<Entry>): (ids: seq<nat>)
    ensures |ids| == |q|
    ensures forall k :: 0 <= k < |q| ==> ids[k] == q[k].blockId
  {
    seq(|q|, k requires 0 <= k < |q| => q[k].blockId)
  }

  predicate Distinct(s: seq<nat>) {
    forall i, j :: 0 <= i < j < |s| ==> s[i] != s[j]
  }

  /** The manager's invariant: bounded, one entry per block id, and each
      entry's cache is a full block of the id it is filed under. */
  predicate Valid(m: Manager) {
    && |m.queue| <= BLOCK_CACHE_SIZE
    && Distinct(Ids(m.queue))
    && forall k :: 0 <= k < |m.queue| ==>
         m.queue[k].cache.blockId == m.queue[k].blockId && |m.queue[k].cache.cache| == BLOCK_SZ
  }

  predicate CoherentAll(m: Manager, dev: Device) {
    forall k :: 0 <= k < |m.queue| ==> Coherent(m.queue[k].cache, dev)
  }

  /** `BlockCacheManager::new`. */
  function NewManager(): (m: Manager)
    ensures Valid(m) && |m.queue| == 0
  {
    Manager([])
  }

  /** The position of block `id` in the queue (the hit test's `find`). */
  function Lookup(q: seq<Entry>, id: nat): (r: Option<nat>)
    ensures r.Some? ==> r.value < |q| && q[r.value].blockId == id
    ensures r.None? <==> id !in Ids(q)
    ensures r.Some? ==> forall k :: 0 <= k < r.value ==> q[k].blockId != id
  {
    if q == [] then None
    else if q[0].blockId == id then Some(0)
    else match Lookup(q[1..], id)
      case None => None
      case Some(k) => Some(k + 1)
  }

  /** The first entry, front to back, that nothing outside holds. */
  function FirstUnpinned(q: seq<Entry>): (r: Option<nat>)
    ensures r.Some? ==> r.value < |q| && q[r.value].pins == 0
    ensures r.Some? ==> forall k :: 0 <= k < r.value ==> q[k].pins > 0
    ensures r.None? <==> forall k :: 0 <= k < |q| ==> q[k].pins > 0
  {
    if q == [] then None
    else if q[0].pins == 0 then Some(0)
    else match FirstUnpinned(q[1..])
      case None => None
      case Some(k) => Some(k + 1)
  }

  /** A successful `get_block_cache`: the new manager and device, and the
      queue position of the entry handed out. */
  datatype Acquired = Acquired(m: Manager, dev: Device, pos: nat)

  lemma IdsRemove(q: seq<Entry>, k: nat)
    requires k < |q|
    ensures Ids(q[..k] + q[k + 1..]) == Ids(q)[..k] + Ids(q)[k + 1..]
  {
    var r := q[..k] + q[k + 1..];
    var ids := Ids(q);
    assert |Ids(r)| == |ids[..k] + ids[k + 1..]|;
    forall j | 0 <= j < |r|
      ensures Ids(r)[j] == (ids[..k] + ids[k + 1..])[j]
    {
      if j < k {
        assert r[j] == q[j];
      } else {
        assert r[j] == q[j + 1];
      }
    }
  }

  /** With distinct ids, the entry removed at `k` is the only one with its id. */
  lemma DistinctAt(q: seq<Entry>, i: nat, j: nat)
    requires Distinct(Ids(q)) && i < |q| && j < |q| && i != j
    ensures q[i].blockId != q[j].blockId
  {
    var ids := Ids(q);
    if i < j {
      assert ids[i] != ids[j];
    } else {
      assert ids[j] != ids[i];
    }
  }

  /** With distinct ids, the entry removed at `k` is the only one with its id. */
  lemma RemovedIdGone(q: seq<Entry>, k: nat, rest: seq<Entry>)
    requires k < |q| && Distinct(Ids(q)) && rest == q[..k] + q[k + 1..]
    ensures forall j :: 0 <= j < |rest| ==> rest[j].blockId != q[k].blockId
  {
    forall j | 0 <= j < |rest|
      ensures rest[j].blockId != q[k].blockId
    {
      if j < k {
        assert rest[j] == q[j];
        DistinctAt(q, j, k);
      } else {
        assert rest[j] == q[j + 1];
        DistinctAt(q, j + 1, k);
      }
    }
  }

  /** A hit at position `k`: the caller gets one more pin on the entry. */
  function Hit(m: Manager, k: nat): (m': Manager)
    requires Valid(m) && k < |m.queue|
    ensures Valid(m') && Ids(m'.queue) == Ids(m.queue)
    ensures m'.queue[k] == m.queue[k].(pins := m.queue[k].pins + 1)
    ensures forall j :: 0 <= j < |m.queue| && j != k ==> m'.queue[j] == m.queue[j]
    ensures forall dev :: CoherentAll(m, dev) ==> CoherentAll(m', dev)
  {
    var q' := m.queue[k := m.queue[k].(pins := m.queue[k].pins + 1)];
    assert Ids(q') == Ids(m.queue);
    Manager(q')
  }

  /** Removing the entry at `v` drops its `Arc`, which writes it back. */
  function Evict(m: Manager, v: nat, dev: Device): (r: (Manager, Device))
    requires Valid(m) && v < |m.queue| && CoherentAll(m, dev) && DeviceOk(dev)
    ensures Valid(r.0) && DeviceOk(r.1) && CoherentAll(r.0, r.1)
    ensures r.0.queue == m.queue[..v] + m.queue[v + 1..]
    ensures Ids(r.0.queue) == Ids(m.queue)[..v] + Ids(m.queue)[v + 1..]
    ensures r.1 == Drop(m.queue[v].cache, dev)
    ensures r.1.content == dev.content[m.queue[v].blockId := m.queue[v].cache.cache]
  {
    var q := m.queue;
    var dev' := Drop(q[v].cache, dev);
    var rest := q[..v] + q[v + 1..];
    IdsRemove(q, v);
    RemovedIdGone(q, v, rest);
    assert CoherentAll(Manager(rest), dev') by {
      forall j | 0 <= j < |rest| ensures Coherent(rest[j].cache, dev') {
        assert rest[j] == q[if j < v then j else j + 1];
      }
    }
    (Manager(rest), dev')
  }

  /** A miss below capacity: the block is read and queued at the tail. */
  function Admit(m: Manager, id: nat, dev: Device): (m': Manager)
    requires Valid(m) && |m.queue| < BLOCK_CACHE_SIZE && id !in Ids(m.queue)
    requires DeviceOk(dev) && id in dev.content && CoherentAll(m, dev)
    ensures Valid(m') && CoherentAll(m', dev)
    ensures Ids(m'.queue) == Ids(m.queue) + [id]
    ensures m'.queue == m.queue + [Entry(id, New(id, dev), 1)]
  {
    var q' := m.queue + [Entry(id, New(id, dev), 1)];
    assert Ids(q') == Ids(m.queue) + [id];
    Manager(q')
  }

  /** `BlockCacheManager::get_block_cache`. A hit hands out the resident
      entry and leaves the queue's blocks alone. A miss loads the block and
      appends it; at capacity it first evicts the front-most unpinned entry,
      writing it back if dirty, and panics when every entry is pinned. The
      returned handle is one more pin on the entry. */
  function GetBlockCache(m: Manager, id: nat, dev: Device): (r: Result<Acquired>)
    requires Valid(m) && DeviceOk(dev) && id in dev.content && CoherentAll(m, dev)
    ensures r.Fatal? <==>
              id !in Ids(m.queue) && |m.queue| == BLOCK_CACHE_SIZE &&
              forall k :: 0 <= k < |m.queue| ==> m.queue[k].pins > 0
    ensures r.Fatal? ==> r.panic == OutOfBlockCache
    ensures r.Ok? ==>
              var Acquired(m', dev', k) := r.value;
              && Valid(m') && DeviceOk(dev') && CoherentAll(m', dev')
              && k < |m'.queue| && m'.queue[k].blockId == id && m'.queue[k].pins >= 1
    // hit: same blocks in the same order, same device, one more pin
    ensures r.Ok? && id in Ids(m.queue) ==>
              var Acquired(m', dev', k) := r.value;
              && Ids(m'.queue) == Ids(m.queue) && dev' == dev
              && m'.queue[k] == m.queue[k].(pins := m.queue[k].pins + 1)
              && forall j :: 0 <= j < |m.queue| && j != k ==> m'.queue[j] == m.queue[j]
    // miss below capacity: appended at the tail, read from the device
    ensures r.Ok? && id !in Ids(m.queue) && |m.queue| < BLOCK_CACHE_SIZE ==>
              var Acquired(m', dev', k) := r.value;
              && dev' == dev && k == |m.queue|
              && m'.queue == m.queue + [Entry(id, New(id, dev), 1)]
    // miss at capacity: the front-most unpinned entry goes, after write-back
    ensures r.Ok? && id !in Ids(m.queue) && |m.queue| == BLOCK_CACHE_SIZE ==>
              var Acquired(m', dev', k) := r.value;
              && FirstUnpinned(m.queue).Some?
              && var v := FirstUnpinned(m.queue).value;
              && dev' == Drop(m.queue[v].cache, dev)
              && m'.queue == m.queue[..v] + m.queue[v + 1..] + [Entry(id, New(id, dev'), 1)]
              && k == |m.queue| - 1
    // pinned entries are never evicted
    ensures r.Ok? ==>
              forall j :: 0 <= j < |m.queue| && m.queue[j].pins > 0 ==>
                m.queue[j].blockId in Ids(r.value.m.queue)
  {
    var q := m.queue;
    match Lookup(q, id)
    case Some(k) =>
      Ok(Acquired(Hit(m, k), dev, k))
    case None =>
      if |q| == BLOCK_CACHE_SIZE then
        match FirstUnpinned(q)
        case None => Fatal(OutOfBlockCache)
        case Some(v) =>
          var (rest, dev') := Evict(m, v, dev);
          assert forall j :: 0 <= j < |q| && q[j].pins > 0 ==> j != v;
          var m' := Admit(rest, id, dev');
          Ok(Acquired(m', dev', |q| - 1))
      else
        Ok(Acquired(Admit(m, id, dev), dev, |q|))
  }

  /** Dropping a handle obtained from `GetBlockCache`: one pin fewer. */
  function Release(m: Manager, k: nat): (m': Manager)
    requires Valid(m) && k < |m.queue| && m.queue[k].pins > 0
    ensures Valid(m') && Ids(m'.queue) == Ids(m.queue)
    ensures m'.queue[k].pins == m.queue[k].pins - 1
    ensures forall j :: 0 <= j < |m.queue| && j != k ==> m'.queue[j] == m.queue[j]
    ensures m'.queue[k].cache == m.queue[k].cache
  {
    var q' := m.queue[k := m.queue[k].(pins := m.queue[k].pins - 1)];
    assert Ids(q') == Ids(m.queue);
    Manager(q')
  }

  /** Dropping the handle a hit handed out gives back the manager as it was. */
  lemma HitThenRelease(m: Manager, k: nat)
    requires Valid(m) && k < |m.queue|
    ensures Hit(m, k).queue[k].pins > 0
    ensures Release(Hit(m, k), k) == m
  {
    var m' := Release(Hit(m, k), k);
    assert m'.queue == m.queue;
  }

  /** `cache.lock().modify(offset, f)` on the entry at queue position `k`. */
  function ModifyEntry<V>(m: Manager, k: nat, offset: nat, size: nat, f: seq<byte> -> (seq<byte>, V)): (r: (Manager, V))
    requires Valid(m) && k < |m.queue| && offset + size <= BLOCK_SZ
    requires |f(m.queue[k].cache.cache[offset..offset + size]).0| == size
    ensures Valid(r.0) && Ids(r.0.queue) == Ids(m.queue)
    ensures r.0.queue[k].cache.modified
    ensures r.0.queue[k].blockId == m.queue[k].blockId && r.0.queue[k].pins == m.queue[k].pins
    ensures var before := m.queue[k].cache.cache;
            var bytes := r.0.queue[k].cache.cache;
            && |bytes| == BLOCK_SZ
            && bytes[offset..offset + size] == f(before[offset..offset + size]).0
            && bytes[..offset] == before[..offset]
            && bytes[offset + size..] == before[offset + size..]
    ensures r.1 == f(m.queue[k].cache.cache[offset..offset + size]).1
    ensures forall j :: 0 <= j < |m.queue| && j != k ==> r.0.queue[j] == m.queue[j]
    ensures forall dev :: CoherentAll(m, dev) ==> CoherentAll(r.0, dev)
  {
    var (bc, v) := Modify(m.queue[k].cache, offset, size, f);
    var q' := m.queue[k := m.queue[k].(cache := bc)];
    assert Ids(q') == Ids(m.queue);
    (Manager(q'), v)
  }

  /** The ids of the dirty entries, front to back. */
  function DirtyIds(q: seq<Entry>): seq<nat> {
    if q == [] then []
    else (if q[0].cache.modified then [q[0].blockId] else []) + DirtyIds(q[1..])
  }

  lemma DirtyIdsAppend(q: seq<Entry>, e: Entry)
    ensures DirtyIds(q + [e]) == DirtyIds(q) + (if e.cache.modified then [e.blockId] else [])
  {
    if q != [] {
      assert (q + [e])[1..] == q[1..] + [e];
      DirtyIdsAppend(q[1..], e);
    }
  }

  /** The first `i` entries of `q` have been synced into `done` and are on
      `dev`; the rest are still coherent with it. */
  predicate SyncedUpTo(q: seq<Entry>, done: seq<Entry>, dev: Device, i: nat) {
    && i <= |q| && |done| == i
    && (forall k :: 0 <= k < |q| ==> q[k].blockId in dev.content)
    && (forall k :: 0 <= k < i ==>
          && done[k] == q[k].(cache := q[k].cache.(modified := false))
          && dev.content[q[k].blockId] == q[k].cache.cache)
    && (forall k :: i <= k < |q| ==> Coherent(q[k].cache, dev))
  }

  /** `dev` agrees with `dev0` on every block outside `ids`. */
  ghost predicate Untouched(ids: seq<nat>, dev0: Device, dev: Device) {
    forall id :: id !in ids ==>
      (id in dev.content <==> id in dev0.content) &&
      (id in dev0.content ==> dev.content[id] == dev0.content[id])
  }

  /** Syncing entry `i` extends the synced prefix by one. */
  lemma SyncStep(q: seq<Entry>, done: seq<Entry>, dev0: Device, dev: Device, i: nat)
    requires Valid(Manager(q)) && i < |q|
    requires SyncedUpTo(q, done, dev, i) && Untouched(Ids(q), dev0, dev)
    ensures var (bc, d) := Sync(q[i].cache, dev);
            && SyncedUpTo(q, done + [q[i].(cache := bc)], d, i + 1)
            && Untouched(Ids(q), dev0, d)
            && d.writes == dev.writes + (if q[i].cache.modified then [q[i].blockId] else [])
  {
    var (bc, d) := Sync(q[i].cache, dev);
    var id := q[i].blockId;
    var done' := done + [q[i].(cache := bc)];
    assert Coherent(q[i].cache, dev);
    assert d.content == dev.content[id := q[i].cache.cache];
    forall k | 0 <= k < |q| && k != i
      ensures q[k].blockId != id
    {
      DistinctAt(q, k, i);
    }
    forall k | 0 <= k < |q|
      ensures q[k].blockId in d.content
    {
    }
    forall k | 0 <= k < i + 1
      ensures done'[k] == q[k].(cache := q[k].cache.(modified := false))
      ensures d.content[q[k].blockId] == q[k].cache.cache
    {
      if k < i {
        assert done'[k] == done[k];
      }
    }
    forall k | i + 1 <= k < |q|
      ensures Coherent(q[k].cache, d)
    {
      assert Coherent(q[k].cache, dev);
    }
    assert id in Ids(q);
  }

  /** `block_cache_sync_all`: syncs every resident entry front to back. The
      queue keeps its blocks, order, pins and bytes; afterwards nothing is
      dirty and the device holds every resident block's bytes; exactly the
      dirty blocks were written, in queue order. */
  method SyncAll(m: Manager, dev: Device) returns (m': Manager, dev': Device)
    requires Valid(m) && CoherentAll(m, dev)
    ensures Valid(m') && CoherentAll(m', dev')
    ensures Ids(m'.queue) == Ids(m.queue)
    ensures forall k :: 0 <= k < |m.queue| ==>
              && m'.queue[k].pins == m.queue[k].pins
              && m'.queue[k].cache.cache == m.queue[k].cache.cache
              && !m'.queue[k].cache.modified
              && dev'.content[m.queue[k].blockId] == m.queue[k].cache.cache
    ensures dev'.writes == dev.writes + DirtyIds(m.queue)
    ensures forall id :: id !in Ids(m.queue) ==>
              (id in dev'.content <==> id in dev.content) &&
              (id in dev.content ==> dev'.content[id] == dev.content[id])
  {
    var q := m.queue;
    var done: seq<Entry> := [];
    dev' := dev;
    var i := 0;
    while i < |q|
      invariant 0 <= i <= |q|
      invariant SyncedUpTo(q, done, dev', i) && Untouched(Ids(q), dev, dev')
      invariant dev'.writes == dev.writes + DirtyIds(q[..i])
    {
      SyncStep(q, done, dev, dev', i);
      var (bc, d) := Sync(q[i].cache, dev');
      assert q[..i + 1] == q[..i] + [q[i]];
      DirtyIdsAppend(q[..i], q[i]);
      dev' := d;
      done := done + [q[i].(cache := bc)];
      i := i + 1;
    }
    assert q[..i] == q;
    SyncAllDone(m, dev, done, dev');
    m' := Manager(done);
  }

  /** When every entry is synced, the synced queue is a valid, coherent
      copy of the old one with nothing dirty. */
  lemma SyncAllDone(m: Manager, dev: Device, done: seq<Entry>, dev': Device)
    requires Valid(m) && SyncedUpTo(m.queue, done, dev', |m.queue|) && Untouched(Ids(m.queue), dev, dev')
    ensures Valid(Manager(done)) && CoherentAll(Manager(done), dev')
    ensures Ids(done) == Ids(m.queue)
    ensures forall k :: 0 <= k < |m.queue| ==>
              && done[k].pins == m.queue[k].pins
              && done[k].cache.cache == m.queue[k].cache.cache
              && !done[k].cache.modified
              && dev'.content[m.queue[k].blockId] == m.queue[k].cache.cache
    ensures forall id :: id !in Ids(m.queue) ==>
              (id in dev'.content <==> id in dev.content) &&
              (id in dev.content ==> dev'.content[id] == dev.content[id])
  {
    var q := m.queue;
    assert Ids(done) == Ids(q) by {
      forall k | 0 <= k < |q| ensures Ids(done)[k] == Ids(q)[k] {
        assert done[k].blockId == q[k].blockId;
      }
    }
    forall k | 0 <= k < |done| ensures Coherent(done[k].cache, dev') {
      assert done[k] == q[k].(cache := q[k].cache.(modified := false));
    }
  }

  /** Once an entry is evicted its bytes are on the device and its block
      is no longer resident. */
  lemma EvictionWritesBack(m: Manager, id: nat, dev: Device, a: Acquired)
    requires Valid(m) && DeviceOk(dev) && id in dev.content && CoherentAll(m, dev)
    requires id !in Ids(m.queue) && |m.queue| == BLOCK_CACHE_SIZE
    requires GetBlockCache(m, id, dev) == Ok(a)
    ensures FirstUnpinned(m.queue).Some?
    ensures var v := FirstUnpinned(m.queue).value;
            && a.dev.content[m.queue[v].blockId] == m.queue[v].cache.cache
            && m.queue[v].blockId !in Ids(a.m.queue)
  {
    var q := m.queue;
    var v := FirstUnpinned(q).value;
    assert Coherent(q[v].cache, dev);
    var rest := q[..v] + q[v + 1..];
    IdsRemove(q, v);
    RemovedIdGone(q, v, rest);
    assert Ids(a.m.queue) == Ids(rest) + [id];
    assert q[v].blockId !in Ids(rest) by {
      forall j | 0 <= j < |rest| ensures Ids(rest)[j] != q[v].blockId {
      }
    }
  }
}
