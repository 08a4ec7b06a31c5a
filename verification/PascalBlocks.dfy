/** Reading and writing runs of blocks and single directory entries through the block cache. */
module PascalBlocks {
  import opened Blocks
  import opened CacheRefinement
  import opened BlockCache
  import opened PascalVolumeSpec
  import opened PascalDirectory
  import opened PascalEntries
  import CacheShape
  import CacheSpec
  import opened HashChains
  import PascalKrunch
  import PascalCopy

  /** The cache stands for the array a, and no client has stores outstanding. */
  ghost predicate CacheIs(cache: ConcreteBlockCache, a: Plain)
    reads cache, cache.hashTable, cache.device, cache.entries, cache.list
  {
    cache.Valid() && Rel(cache.m, a) && a.unmarked == {}
  }

  lemma {:induction false} WriteStep(c: CacheSpec.Cache, a: Plain, b: nat, data: Block)
    requires Rel(c, a) && 0 < b < |a.arr| && a.unmarked == {}
    ensures CacheSpec.Shape(c) && b < |c.disk|
    ensures Rel(CacheSpec.Write(c, b, data), a.(arr := a.arr[b := data]))
  {
    PascalKrunch.WriteStep(c, a, b, data);
    hide Rel, CacheSpec.Shape;
    assert PlainStep(a, Write(b, data)) == a.(arr := a.arr[b := data]);
  }

  function Pinned(a: Plain, b: nat): (r: Plain)
    requires PlainOk(a) && b < |a.arr|
    ensures PlainOk(r) && r.arr == a.arr && r.unmarked == a.unmarked && r.pins[b] > 0
  {
    PlainStep(a, Acquire(b))
  }

  lemma {:induction false} AcquireStep(c: CacheSpec.Cache, a: Plain, b: nat)
    requires Rel(c, a) && 0 < b < |a.arr|
    ensures CacheSpec.Shape(c) && b < |c.disk| && PlainOk(a) && Rel(CacheSpec.Acquire(c, b), Pinned(a, b))
  {
    AcquireRel(c, a, b);
  }

  lemma {:induction false} PinnedBuffer(c: CacheSpec.Cache, a: Plain, b: nat)
    requires Rel(c, a) && b < |a.arr| && a.pins[b] > 0
    ensures b in c.table && c.table[b] < |c.pool| && c.pool[c.table[b]].buffer == a.arr[b]
  {
    assert View(c, b) == a.arr[b] && Pins(c, b) == a.pins[b];
  }

  lemma {:induction false} StoreStep(c: CacheSpec.Cache, a: Plain, b: nat, data: Block)
    requires Rel(c, a) && b < |a.arr| && a.pins[b] > 0
    ensures b in c.table && c.table[b] < |c.pool| && PlainOk(a)
    ensures Rel(CacheSpec.Store(c, c.table[b], data), PlainStep(a, Store(b, data)))
  {
    StoreRel(c, a, b, data);
  }

  lemma {:induction false} ReleaseStep(c: CacheSpec.Cache, a: Plain, b: nat, flags: nat)
    requires Rel(c, a) && PlainOk(a) && Legal(a, Release(b, flags))
    ensures CacheSpec.Shape(c) && CacheSpec.CanRelease(c, b)
    ensures Rel(CacheSpec.Release(c, b, flags), PlainStep(a, Release(b, flags)))
  {
    ReleaseRel(c, a, b, flags);
  }

  /** acquire, a store through the pointer, and a dirty release are one write. */
  lemma {:induction false} UpdateIsWrite(a: Plain, b: nat, data: Block)
    requires PlainOk(a) && b < |a.arr| && a.unmarked == {}
    ensures Legal(Pinned(a, b), Store(b, data))
    ensures Legal(PlainStep(Pinned(a, b), Store(b, data)), Release(b, 1))
    ensures PlainStep(PlainStep(Pinned(a, b), Store(b, data)), Release(b, 1)) == a.(arr := a.arr[b := data])
  {
    var a2 := PlainStep(Pinned(a, b), Store(b, data));
    assert CacheSpec.DirtyFlag(1);
    assert PlainStep(a2, Release(b, 1)).pins == a.pins;
    assert PlainStep(a2, Release(b, 1)).unmarked == {};
  }

  /** acquire and a clean release change nothing. */
  lemma {:induction false} PeekIsNothing(a: Plain, b: nat, arr: seq<Block>)
    requires PlainOk(a) && b < |a.arr| == |arr| && a.unmarked == {}
    ensures PlainOk(Pinned(a, b).(arr := arr)) && Legal(Pinned(a, b).(arr := arr), Release(b, 0))
    ensures PlainStep(Pinned(a, b).(arr := arr), Release(b, 0)) == a.(arr := arr)
  {
    assert PlainStep(Pinned(a, b).(arr := arr), Release(b, 0)).pins == a.pins;
  }

  lemma {:induction false} CacheFacts(cache: ConcreteBlockCache, a: Plain)
    requires CacheIs(cache, a)
    ensures cache.Valid() && Rel(cache.m, a) && a.unmarked == {} && PlainOk(a)
  {
  }

  method ReadBlock(cache: ConcreteBlockCache, b: nat, ghost a: Plain) returns (data: Block)
    requires CacheIs(cache, a) && 0 < b < |a.arr|
    modifies cache, cache.hashTable, cache.device, cache.entries
    ensures CacheIs(cache, a) && data == a.arr[b] && fresh(cache.entries - old(cache.entries))
  {
    hide ConcreteBlockCache.Valid, Rel, CacheSpec.Shape, CacheShape.ReadThrough;
    PascalKrunch.ReadStep(cache.m, a, b);
    data := cache.Read(b);
  }

  method WriteBlock(cache: ConcreteBlockCache, b: nat, data: Block, ghost a: Plain)
    requires CacheIs(cache, a) && 0 < b < |a.arr|
    modifies cache, cache.hashTable, cache.device, cache.entries
    ensures CacheIs(cache, a.(arr := a.arr[b := data])) && fresh(cache.entries - old(cache.entries))
  {
    hide ConcreteBlockCache.Valid, Rel, CacheSpec.Shape, CacheSpec.Write;
    WriteStep(cache.m, a, b, data);
    cache.Write(b, data);
  }

  /** e holds block b. */
  ghost predicate Holding(cache: ConcreteBlockCache, e: Entry, b: nat)
    reads cache, e
  {
    cache.Owned(e) && b in cache.m.table && e.id == cache.m.table[b]
  }

  /** loadBlock */
  method LoadBlock(cache: ConcreteBlockCache, b: nat, ghost a: Plain) returns (e: Entry)
    requires CacheIs(cache, a) && PlainOk(a) && 0 < b < |a.arr|
    modifies cache, cache.hashTable, cache.device, cache.entries
    ensures CacheIs(cache, Pinned(a, b)) && Holding(cache, e, b) && e.buffer == a.arr[b]
    ensures fresh(cache.entries - old(cache.entries))
  {
    hide Rel, CacheSpec.Shape, CacheSpec.Acquire, PlainStep, ConcreteBlockCache.ListIs, ConcreteBlockCache.PinnedLoose;
    AcquireStep(cache.m, a, b);
    e := cache.Acquire(b);
    PinnedBuffer(cache.m, Pinned(a, b), b);
    cache.Fields(e, cache.m.pool);
  }

  /** A store of the whole block through the pointer, then unloadBlock(true). */
  method StoreAndUnload(cache: ConcreteBlockCache, e: Entry, b: nat, data: Block, ghost a: Plain)
    requires PlainOk(a) && b < |a.arr| && CacheIs(cache, Pinned(a, b)) && Holding(cache, e, b)
    modifies cache, cache.device, cache.entries
    ensures CacheIs(cache, a.(arr := a.arr[b := data])) && cache.entries == old(cache.entries)
  {
    hide ConcreteBlockCache.Valid, Rel, CacheSpec.Shape, CacheSpec.Release, CacheSpec.Store, PlainStep, Legal;
    UpdateIsWrite(a, b, data);
    StoreStep(cache.m, Pinned(a, b), b, data);
    cache.Store(e, data);
    ReleaseStep(cache.m, PlainStep(Pinned(a, b), Store(b, data)), b, 1);
    cache.Release(b, 1);
  }

  /** unloadBlock(false) */
  method UnloadBlock(cache: ConcreteBlockCache, b: nat, ghost a: Plain, ghost arr: seq<Block>)
    requires PlainOk(a) && b < |a.arr| == |arr| && CacheIs(cache, Pinned(a, b).(arr := arr)) && a.unmarked == {}
    modifies cache, cache.device, cache.entries
    ensures CacheIs(cache, a.(arr := arr)) && cache.entries == old(cache.entries)
  {
    hide ConcreteBlockCache.Valid, Rel, CacheSpec.Shape, CacheSpec.Release, PlainStep, Legal, Pinned;
    PeekIsNothing(a, b, arr);
    ReleaseStep(cache.m, Pinned(a, b).(arr := arr), b, 0);
    cache.Release(b, 0);
  }

  /** readBlocks */
  method ReadBlocks(cache: ConcreteBlockCache, start: nat, count: nat, ghost a: Plain) returns (buffer: array<byte>)
    requires CacheIs(cache, a) && 0 < start && start + count <= |a.arr|
    modifies cache, cache.hashTable, cache.device, cache.entries
    ensures CacheIs(cache, a) && fresh(buffer) && buffer[..] == Flat(a.arr, start, count)
    ensures fresh(cache.entries - old(cache.entries))
  {
    hide CacheIs;
    ghost var all := cache.entries;
    buffer := new byte[BLOCK_SIZE * count](_ => 0);
    for i := 0 to count
      invariant CacheIs(cache, a) && fresh(cache.entries - all)
      invariant buffer[..BLOCK_SIZE * i] == Flat(a.arr, start, i)
    {
      var block := ReadBlock(cache, start + i, a);
      forall j | 0 <= j < BLOCK_SIZE {
        buffer[BLOCK_SIZE * i + j] := block[j];
      }
      assert buffer[..BLOCK_SIZE * (i + 1)] == Flat(a.arr, start, i) + block;
    }
    assert buffer[..] == buffer[..BLOCK_SIZE * count];
  }

  /** writeBlocks */
  method WriteBlocks(cache: ConcreteBlockCache, buffer: array<byte>, start: nat, count: nat, ghost a: Plain)
    requires CacheIs(cache, a) && 0 < start && start + count <= |a.arr| && buffer.Length == BLOCK_SIZE * count
    modifies cache, cache.hashTable, cache.device, cache.entries
    ensures CacheIs(cache, a.(arr := WriteFlat(a.arr, start, count, buffer[..])))
    ensures fresh(cache.entries - old(cache.entries))
  {
    hide CacheIs;
    ghost var all, data := cache.entries, buffer[..];
    for i := 0 to count
      invariant buffer[..] == data
      invariant CacheIs(cache, a.(arr := WriteFlat(a.arr, start, i, data[..BLOCK_SIZE * i])))
      invariant fresh(cache.entries - all)
    {
      ghost var front := data[..BLOCK_SIZE * (i + 1)];
      assert front[..BLOCK_SIZE * i] == data[..BLOCK_SIZE * i];
      assert front[BLOCK_SIZE * i..] == buffer[BLOCK_SIZE * i..BLOCK_SIZE * (i + 1)];
      WriteBlock(cache, start + i, buffer[BLOCK_SIZE * i..BLOCK_SIZE * (i + 1)],
                 a.(arr := WriteFlat(a.arr, start, i, data[..BLOCK_SIZE * i])));
    }
    assert data[..BLOCK_SIZE * count] == data;
  }

  /** The contents of a block in a buffer of its own, for an IOBuffer to write into. */
  method BlockBuffer(block: Block) returns (buffer: array<byte>)
    ensures fresh(buffer) && buffer[..] == block
  {
    buffer := new byte[BLOCK_SIZE](i requires 0 <= i < BLOCK_SIZE => block[i]);
  }

  /** One block of copy: pinned, written to its new place and let go. */
  method CopyBlock(cache: ConcreteBlockCache, from: nat, to: nat, ghost a: Plain)
    requires CacheIs(cache, a) && 0 < from < |a.arr| && 0 < to < |a.arr|
    modifies cache, cache.hashTable, cache.device, cache.entries
    ensures CacheIs(cache, a.(arr := a.arr[to := a.arr[from]])) && fresh(cache.entries - old(cache.entries))
  {
    hide CacheIs, PlainOk, Holding, Pinned;
    CacheFacts(cache, a);
    var e := LoadBlock(cache, from, a);
    var src := e.buffer;
    WriteBlock(cache, to, src, Pinned(a, from));
    UnloadBlock(cache, from, a, a.arr[to := src]);
  }

  /** The loop of copy. */
  method CopyExtent(cache: ConcreteBlockCache, from: nat, to: nat, blocks: nat, ghost a: Plain)
    requires CacheIs(cache, a) && 0 < from && from + blocks <= |a.arr| && 0 < to && to + blocks <= |a.arr|
    modifies cache, cache.hashTable, cache.device, cache.entries
    ensures CacheIs(cache, a.(arr := PascalCopy.CopyBlocks(a.arr, from, to, blocks)))
    ensures fresh(cache.entries - old(cache.entries))
  {
    hide CacheIs;
    ghost var all := cache.entries;
    for i := 0 to blocks
      invariant CacheIs(cache, a.(arr := PascalCopy.CopyBlocks(a.arr, from, to, i))) && fresh(cache.entries - all)
    {
      CopyBlock(cache, from + i, to + i, a.(arr := PascalCopy.CopyBlocks(a.arr, from, to, i)));
    }
  }

  lemma {:induction false} SyncStep(c: CacheSpec.Cache, a: Plain)
    requires Rel(c, a) && a.unmarked == {}
    ensures CacheSpec.Shape(c) && Rel(CacheSpec.Sync(c), a) && CacheSpec.Sync(c).disk == a.arr
  {
    SyncRel(c, a);
  }

  lemma {:induction false} DeviceHolds(cache: ConcreteBlockCache)
    requires cache.Valid()
    ensures cache.device.blocks == cache.m.disk
  {
  }

  /** After a sync the device holds the array. */
  method SyncBlocks(cache: ConcreteBlockCache, ghost a: Plain)
    requires CacheIs(cache, a)
    modifies cache, cache.device, cache.entries
    ensures CacheIs(cache, a) && cache.device.blocks == a.arr && cache.entries == old(cache.entries)
  {
    hide ConcreteBlockCache.Valid, Rel, CacheSpec.Shape, CacheSpec.Sync;
    SyncStep(cache.m, a);
    cache.Sync();
    DeviceHolds(cache);
  }

  /** writeEntry(FileEntry *): in place in its block, or by way of a two-block buffer when it straddles. */
  method WriteFileEntry(cache: ConcreteBlockCache, e: FileEntry, ghost f: File, ghost a: Plain)
    requires CacheIs(cache, a) && e.Is(f) && |f.name| <= 15
    requires DIRECTORY <= e.address && (e.address + ENTRY - 1) / BLOCK_SIZE < |a.arr|
    modifies cache, cache.hashTable, cache.device, cache.entries
    ensures CacheIs(cache, a.(arr := WriteEntry(a.arr, f.address, FileBytes(f))))
    ensures fresh(cache.entries - old(cache.entries))
  {
    hide CacheIs, Splice, FileBytes, PlainOk, WriteFlat, Flat;
    var startBlock := e.address / BLOCK_SIZE;
    var endBlock := (e.address + ENTRY - 1) / BLOCK_SIZE;
    var offset := e.address % BLOCK_SIZE;
    if startBlock == endBlock {
      WriteInside(cache, e, startBlock, offset, f, a);
    } else {
      WriteStraddling(cache, e, startBlock, offset, f, a);
    }
  }

  method WriteInside(cache: ConcreteBlockCache, e: FileEntry, block: nat, offset: nat, ghost f: File, ghost a: Plain)
    requires CacheIs(cache, a) && e.Is(f) && |f.name| <= 15
    requires 0 < block < |a.arr| && offset + ENTRY <= BLOCK_SIZE
    modifies cache, cache.hashTable, cache.device, cache.entries
    ensures CacheIs(cache, a.(arr := a.arr[block := Splice(a.arr[block], offset, FileBytes(f))]))
    ensures fresh(cache.entries - old(cache.entries))
  {
    hide CacheIs, Splice, FileBytes, PlainOk, Holding, Pinned;
    CacheFacts(cache, a);
    var entry := LoadBlock(cache, block, a);
    var buffer := BlockBuffer(entry.buffer);
    var b := new IOBuffer(buffer, offset);
    e.WriteDirectoryEntry(b, f);
    StoreAndUnload(cache, entry, block, buffer[..], a);
  }

  method WriteStraddling(cache: ConcreteBlockCache, e: FileEntry, block: nat, offset: nat,
                         ghost f: File, ghost a: Plain)
    requires CacheIs(cache, a) && e.Is(f) && |f.name| <= 15
    requires 0 < block && block + 2 <= |a.arr| && offset + ENTRY <= BLOCK_SIZE * 2
    modifies cache, cache.hashTable, cache.device, cache.entries
    ensures CacheIs(cache, a.(arr := WriteFlat(a.arr, block, 2, Splice(Flat(a.arr, block, 2), offset, FileBytes(f)))))
    ensures fresh(cache.entries - old(cache.entries))
  {
    hide CacheIs, Splice, FileBytes, WriteFlat, Flat;
    var buffer := ReadBlocks(cache, block, 2, a);
    var b := new IOBuffer(buffer, offset);
    e.WriteDirectoryEntry(b, f);
    WriteBlocks(cache, buffer, block, 2, a);
  }
}
