/** The loop of krunch that moves one file's blocks down, through the block cache. */
module PascalKrunch {
  import opened Blocks
  import opened CacheRefinement
  import opened BlockCache
  import CacheShape
  import CacheSpec

  /** One round of the loop on the plain array: copy a block, then erase where it was. */
  function MoveOne(a: Plain, from: nat, to: nat): (r: Plain)
    requires PlainOk(a) && from < |a.arr| && to < |a.arr|
    ensures PlainOk(r) && |r.arr| == |a.arr|
  {
    PlainStep(PlainStep(a, Write(to, a.arr[from])), Write(from, ZERO_BLOCK))
  }

  /** The first n rounds of the loop. */
  function MoveBlocks(a: Plain, first: nat, dest: nat, n: nat): (r: Plain)
    requires PlainOk(a) && first + n <= |a.arr| && dest + n <= |a.arr|
    ensures PlainOk(r) && |r.arr| == |a.arr|
  {
    if n == 0 then a else MoveOne(MoveBlocks(a, first, dest, n - 1), first + n - 1, dest + n - 1)
  }

  /** The extent after a move: the old blocks at dest, zeros where they were, all else as before. */
  function MovedBlock(arr: seq<Block>, first: nat, dest: nat, n: nat, b: nat): Block
    requires first + n <= |arr| && dest + n <= |arr| && b < |arr|
  {
    if dest <= b < dest + n then arr[b - dest + first]
    else if first <= b < first + n then ZERO_BLOCK
    else arr[b]
  }

  /** Moving down by any positive distance is correct, also when the two extents overlap. */
  lemma {:induction false} MovedDown(a: Plain, first: nat, dest: nat, n: nat, b: nat)
    requires PlainOk(a) && first + n <= |a.arr| && dest < first && b < |a.arr|
    ensures MoveBlocks(a, first, dest, n).arr[b] == MovedBlock(a.arr, first, dest, n, b)
  {
    if n > 0 {
      MovedDown(a, first, dest, n - 1, b);
      MovedDown(a, first, dest, n - 1, first + n - 1);
    }
  }

  /** Moving by distance zero would erase the file, so the loop must be (and is) skipped then. */
  lemma {:induction false} MovedNowhere(a: Plain, first: nat, n: nat, b: nat)
    requires PlainOk(a) && first + n <= |a.arr| && b < |a.arr|
    ensures MoveBlocks(a, first, first, n).arr[b] == if first <= b < first + n then ZERO_BLOCK else a.arr[b]
  {
    if n > 0 {
      MovedNowhere(a, first, n - 1, b);
      MovedNowhere(a, first, n - 1, first + n - 1);
    }
  }

  lemma {:induction false} MovePins(a: Plain, first: nat, dest: nat, n: nat)
    requires PlainOk(a) && first + n <= |a.arr| && dest + n <= |a.arr|
    ensures MoveBlocks(a, first, dest, n).pins == a.pins && MoveBlocks(a, first, dest, n).unmarked <= a.unmarked
  {
    if n > 0 {
      MovePins(a, first, dest, n - 1);
    }
  }

  /** The blocks of the destination, as a sequence, are those of the source before the move. */
  lemma {:induction false} MovedExtent(a: Plain, first: nat, dest: nat, n: nat)
    requires PlainOk(a) && first + n <= |a.arr| && dest < first
    ensures MoveBlocks(a, first, dest, n).arr[dest..dest + n] == a.arr[first..first + n]
    ensures MoveBlocks(a, first, dest, n).arr[..dest] == a.arr[..dest]
    ensures MoveBlocks(a, first, dest, n).arr[first + n..] == a.arr[first + n..]
  {
    forall b | 0 <= b < |a.arr| ensures MoveBlocks(a, first, dest, n).arr[b] == MovedBlock(a.arr, first, dest, n, b) {
      MovedDown(a, first, dest, n, b);
    }
  }

  lemma {:induction false} ReadStep(c: CacheSpec.Cache, a: Plain, b: nat)
    requires Rel(c, a) && 0 < b < |a.arr|
    ensures CacheSpec.Shape(c) && b < |c.disk|
    ensures Rel(CacheShape.ReadThrough(c, b).0, a) && CacheShape.ReadThrough(c, b).1 == a.arr[b]
  {
    ReadRel(c, a, b);
    ReadOutput(c, a, b);
  }

  lemma {:induction false} WriteStep(c: CacheSpec.Cache, a: Plain, b: nat, data: Block)
    requires Rel(c, a) && 0 < b < |a.arr|
    ensures CacheSpec.Shape(c) && b < |c.disk| && PlainOk(a) && Legal(a, Write(b, data))
    ensures Rel(CacheSpec.Write(c, b, data), PlainStep(a, Write(b, data)))
  {
    WriteRel(c, a, b, data);
  }

  lemma {:induction false} RelShape(c: CacheSpec.Cache, a: Plain)
    requires Rel(c, a)
    ensures CacheSpec.Shape(c) && PlainOk(a) && |a.arr| == |c.disk|
  {
  }

  /** The loop: whatever array a the cache stands for, afterwards it stands for a with the extent moved. */
  method MoveExtent(cache: ConcreteBlockCache, first: nat, prevBlock: nat, blocks: nat, ghost a: Plain)
    requires cache.Valid() && Rel(cache.m, a) && PlainOk(a)
    requires 0 < prevBlock < first && first + blocks <= |a.arr|
    modifies cache, cache.hashTable, cache.device, cache.entries
    ensures cache.Valid() && Rel(cache.m, MoveBlocks(a, first, prevBlock, blocks))
    ensures forall b: nat :: b < |a.arr| ==>
      MoveBlocks(a, first, prevBlock, blocks).arr[b] == MovedBlock(a.arr, first, prevBlock, blocks, b)
  {
    hide ConcreteBlockCache.Valid, Rel, PlainOk, Legal, PlainStep;
    hide CacheSpec.Shape, CacheSpec.Write, CacheShape.ReadThrough;
    ghost var all := cache.entries;
    for i := 0 to blocks
      invariant cache.Valid() && fresh(cache.entries - all)
      invariant Rel(cache.m, MoveBlocks(a, first, prevBlock, i))
    {
      ghost var a0 := MoveBlocks(a, first, prevBlock, i);
      ReadStep(cache.m, a0, first + i);
      var buffer := cache.Read(first + i);
      RelShape(cache.m, a0);
      WriteStep(cache.m, a0, prevBlock + i, buffer);
      cache.Write(prevBlock + i, buffer);
      ghost var a1 := PlainStep(a0, Write(prevBlock + i, buffer));
      RelShape(cache.m, a1);
      WriteStep(cache.m, a1, first + i, ZERO_BLOCK);
      cache.ZeroBlock(first + i);
    }
    forall b: nat | b < |a.arr|
      ensures MoveBlocks(a, first, prevBlock, blocks).arr[b] == MovedBlock(a.arr, first, prevBlock, blocks, b)
    {
      MovedDown(a, first, prevBlock, blocks, b);
    }
  }
}
