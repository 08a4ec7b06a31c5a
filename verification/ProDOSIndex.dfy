/** Reading file data by way of one or two levels of index blocks, any of which may be sparse. */
module ProDOSIndex {
  import opened Blocks
  import opened BlockCache

  /** What reading a block gives; the block right behind the last passes the check and makes the device throw. */
  datatype Fetched = Data(block: Block) | InvalidBlock | DeviceException

  function ReadBlock(disk: seq<Block>, block: nat): Fetched {
    if block > |disk| then InvalidBlock else if block == |disk| then DeviceException else Data(disk[block])
  }

  // ---------------------------------------------------------------- the index as a function

  /** Block 0 stands for a block of zeros. */
  function Fetch(disk: seq<Block>, block: nat): Fetched {
    if block == 0 then Data(ZERO_BLOCK) else ReadBlock(disk, block)
  }

  /** Entry i of an index block: low bytes first, then high bytes. */
  function Pointer(key: Block, i: nat): nat
    requires i < 256
  {
    key[i] as int + 256 * key[256 + i] as int
  }

  /** How many data blocks one entry of an index block of this level stands for. */
  function Span(level: nat): nat
    requires 1 <= level <= 2
  {
    if level == 1 then 1 else 256
  }

  /** How many data blocks a block of this level stands for. */
  function Reach(level: nat): nat
    requires level <= 2
  {
    if level == 0 then 1 else 256 * Span(level)
  }

  /** Data block i of the file whose top block is block. */
  function Lookup(disk: seq<Block>, block: nat, level: nat, i: nat): Fetched
    requires level <= 2 && i < Reach(level)
    decreases level
  {
    var key := Fetch(disk, block);
    if level == 0 || !key.Data? then key
    else Lookup(disk, Pointer(key.block, i / Span(level)), level - 1, i % Span(level))
  }

  /** How many of the n data blocks from start on can be read, up to the first that cannot. */
  function Good(disk: seq<Block>, block: nat, level: nat, start: nat, n: nat): (g: nat)
    requires level <= 2 && start + n <= Reach(level)
    ensures g <= n
  {
    if n == 0 then 0
    else
      var g := Good(disk, block, level, start, n - 1);
      if g == n - 1 && Lookup(disk, block, level, start + n - 1).Data? then n else g
  }

  lemma {:induction false} GoodMeans(disk: seq<Block>, block: nat, level: nat, start: nat, n: nat)
    requires level <= 2 && start + n <= Reach(level)
    ensures var g := Good(disk, block, level, start, n);
      && (forall k :: start <= k < start + g ==> Lookup(disk, block, level, k).Data?)
      && (g < n ==> !Lookup(disk, block, level, start + g).Data?)
  {
    hide Lookup;
    if n > 0 {
      GoodMeans(disk, block, level, start, n - 1);
    }
  }

  /** What the program returns: the error of the top block, or of the first data block that cannot be read. */
  function Outcome(disk: seq<Block>, block: nat, level: nat, start: nat, n: nat): Option<Fetched>
    requires level <= 2 && start + n <= Reach(level)
  {
    var g := Good(disk, block, level, start, n);
    if !Fetch(disk, block).Data? then Some(Fetch(disk, block))
    else if g < n then Some(Lookup(disk, block, level, start + g))
    else None
  }

  /** Reading one block or more, an error is always that of the first data block that cannot be read. */
  lemma {:induction false} OutcomeIsFirstBad(disk: seq<Block>, block: nat, level: nat, start: nat, n: nat)
    requires level <= 2 && start + n <= Reach(level) && n >= 1
    ensures var g := Good(disk, block, level, start, n);
      Outcome(disk, block, level, start, n) == if g < n then Some(Lookup(disk, block, level, start + g)) else None
  {
    GoodMeans(disk, block, level, start, n);
    if !Fetch(disk, block).Data? {
      assert Lookup(disk, block, level, start) == Fetch(disk, block);
    }
  }

  /** A sparse pointer at any level stands for zeros. */
  lemma {:induction false} SparseIsZero(disk: seq<Block>, level: nat, i: nat)
    requires level <= 2 && i < Reach(level)
    ensures Lookup(disk, 0, level, i) == Data(ZERO_BLOCK)
  {
    if level > 0 {
      assert Pointer(ZERO_BLOCK, i / Span(level)) == 0;
      SparseIsZero(disk, level - 1, i % Span(level));
    }
  }

  // ---------------------------------------------------------------- the index as bytes

  /** Entry i of an index block names block w: w's low byte is byte i, its high byte is byte 256 + i. */
  predicate PointsTo(key: Block, i: nat, w: nat)
    requires i < 256
  {
    key[i] as int == w % 256 && key[256 + i] as int == w / 256
  }

  lemma {:induction false} PointerIs(key: Block, i: nat, w: nat)
    requires i < 256 && PointsTo(key, i, w)
    ensures Pointer(key, i) == w
  {
  }

  /** A data block by way of one index block: the block its entry names, zeros for an entry of two zero bytes. */
  lemma {:induction false} OneIndexBlock(disk: seq<Block>, block: nat, i: nat, w: nat)
    requires 0 < block < |disk| && i < 256 && PointsTo(disk[block], i, w)
    ensures Lookup(disk, block, 1, i) ==
      if w == 0 then Data(ZERO_BLOCK)
      else if w < |disk| then Data(disk[w])
      else if w == |disk| then DeviceException
      else InvalidBlock
  {
    PointerIs(disk[block], i, w);
    hide Pointer;
    assert Lookup(disk, w, 0, 0) == Fetch(disk, w);
  }

  /** By way of two: entry i / 256 of the first names the second, whose entry i % 256 names the data block. */
  lemma {:induction false} TwoIndexBlocks(disk: seq<Block>, block: nat, i: nat, v: nat, w: nat)
    requires 0 < block < |disk| && i < 0x1_0000 && PointsTo(disk[block], i / 256, v)
    requires 0 < v < |disk| ==> PointsTo(disk[v], i % 256, w)
    ensures Lookup(disk, block, 2, i) ==
      if v == 0 then Data(ZERO_BLOCK)
      else if v == |disk| then DeviceException
      else if v > |disk| then InvalidBlock
      else if w == 0 then Data(ZERO_BLOCK)
      else if w < |disk| then Data(disk[w])
      else if w == |disk| then DeviceException
      else InvalidBlock
  {
    PointerIs(disk[block], i / 256, v);
    hide Pointer;
    assert Lookup(disk, block, 2, i) == Lookup(disk, v, 1, i % 256);
    if v == 0 {
      SparseIsZero(disk, 1, i % 256);
    } else if v < |disk| {
      OneIndexBlock(disk, v, i % 256, w);
    }
  }

  /** A block that can be read makes a read of one block succeed. */
  lemma {:induction false} OneBlockRead(disk: seq<Block>, block: nat, level: nat, i: nat, b0: seq<byte>, b: seq<byte>)
    requires level <= 2 && i < Reach(level) && BLOCK_SIZE <= |b0|
    requires Lookup(disk, block, level, i).Data?
    requires Placed(b0, b, 0, disk, block, level, i, Good(disk, block, level, i, 1))
    ensures Good(disk, block, level, i, 1) == 1 && Outcome(disk, block, level, i, 1) == None
    ensures b[..BLOCK_SIZE] == Lookup(disk, block, level, i).block
  {
    GoodMeans(disk, block, level, i, 1);
    OutcomeIsFirstBad(disk, block, level, i, 1);
    hide Lookup, Good, Outcome;
    assert Lookup(disk, block, level, i + 0) == Data(Part(b, 0, 0));
    assert Part(b, 0, 0) == b[..BLOCK_SIZE];
  }

  // ---------------------------------------------------------------- what is read where

  /** The part of a buffer that holds data block k of a read. */
  function Part(b: seq<byte>, at: nat, k: nat): (r: seq<byte>)
    requires at + BLOCK_SIZE * (k + 1) <= |b|
  {
    b[at + BLOCK_SIZE * k..at + BLOCK_SIZE * k + BLOCK_SIZE]
  }

  /** The first g blocks from start on are in the buffer at at; everything else is as before. */
  ghost predicate Placed(before: seq<byte>, after: seq<byte>, at: nat, disk: seq<Block>, block: nat, level: nat,
                         start: nat, g: nat)
    requires level <= 2 && start + g <= Reach(level) && at + BLOCK_SIZE * g <= |before|
  {
    && |after| == |before|
    && (forall k: nat :: k < g ==> Lookup(disk, block, level, start + k) == Data(Part(after, at, k)))
    && after[..at] == before[..at] && after[at + BLOCK_SIZE * g..] == before[at + BLOCK_SIZE * g..]
  }

  /** The sub-index behind an entry gives the data blocks the entry stands for. */
  lemma {:induction false} Below(disk: seq<Block>, block: nat, level: nat, i: nat, j: nat)
    requires 1 <= level <= 2 && i < 256 && j < Span(level) && Fetch(disk, block).Data?
    ensures i * Span(level) + j < Reach(level)
    ensures Lookup(disk, block, level, i * Span(level) + j)
      == Lookup(disk, Pointer(Fetch(disk, block).block, i), level - 1, j)
  {
    assert (i * Span(level) + j) / Span(level) == i && (i * Span(level) + j) % Span(level) == j;
  }

  predicate SameBlock(disk: seq<Block>, block: nat, level: nat, from: nat, sub: nat, subStart: nat, k: nat)
    requires 1 <= level <= 2 && from + k < Reach(level) && subStart + k < Reach(level - 1)
  {
    Lookup(disk, block, level, from + k) == Lookup(disk, sub, level - 1, subStart + k)
  }

  /** The data blocks of a read that an entry of the index stands for. */
  ghost predicate Covers(disk: seq<Block>, block: nat, level: nat, from: nat, sub: nat, subStart: nat, b: nat)
    requires 1 <= level <= 2 && from + b <= Reach(level) && subStart + b <= Reach(level - 1)
  {
    forall k: nat :: k < b ==> SameBlock(disk, block, level, from, sub, subStart, k)
  }

  /** The first d blocks being readable, the count goes on with that of the entry's blocks. */
  lemma {:induction false} GoodSplit(disk: seq<Block>, block: nat, level: nat, start: nat, d: nat,
                                     sub: nat, subStart: nat, b: nat)
    requires 1 <= level <= 2 && start + d + b <= Reach(level) && subStart + b <= Reach(level - 1)
    requires Good(disk, block, level, start, d) == d && Covers(disk, block, level, start + d, sub, subStart, b)
    ensures Good(disk, block, level, start, d + b) == d + Good(disk, sub, level - 1, subStart, b)
  {
    hide Lookup;
    if b > 0 {
      assert Covers(disk, block, level, start + d, sub, subStart, b - 1);
      GoodSplit(disk, block, level, start, d, sub, subStart, b - 1);
      assert SameBlock(disk, block, level, start + d, sub, subStart, b - 1);
    }
  }

  /** A block that cannot be read ends the count for longer reads too. */
  lemma {:induction false} GoodStuck(disk: seq<Block>, block: nat, level: nat, start: nat, d: nat, n: nat)
    requires level <= 2 && start + n <= Reach(level) && d <= n && Good(disk, block, level, start, d) < d
    ensures Good(disk, block, level, start, n) == Good(disk, block, level, start, d)
  {
    if d < n {
      GoodStuck(disk, block, level, start, d, n - 1);
    }
  }

  /** A part of a part stays where it is when what lies behind changes. */
  lemma {:induction false} PlacedMore(b0: seq<byte>, b1: seq<byte>, b2: seq<byte>, at: nat, disk: seq<Block>,
                                      block: nat, level: nat, start: nat, d: nat, sub: nat, subStart: nat,
                                      b: nat, g: nat)
    requires 1 <= level <= 2 && start + d + b <= Reach(level) && subStart + b <= Reach(level - 1) && g <= b
    requires at + BLOCK_SIZE * (d + b) <= |b0|
    requires Covers(disk, block, level, start + d, sub, subStart, b)
    requires Placed(b0, b1, at, disk, block, level, start, d)
    requires Placed(b1, b2, at + BLOCK_SIZE * d, disk, sub, level - 1, subStart, g)
    ensures Placed(b0, b2, at, disk, block, level, start, d + g)
  {
    hide Lookup;
    var at' := at + BLOCK_SIZE * d;
    forall k: nat | k < d + g ensures Lookup(disk, block, level, start + k) == Data(Part(b2, at, k)) {
      if k < d {
        PartBefore(b1, b2, at, k, at');
      } else {
        assert Part(b2, at, k) == Part(b2, at', k - d);
        assert SameBlock(disk, block, level, start + d, sub, subStart, k - d);
      }
    }
    assert b2[..at] == b2[..at'][..at] == b1[..at'][..at] == b1[..at];
    var e, e' := at + BLOCK_SIZE * d, at + BLOCK_SIZE * (d + g);
    assert b1[e'..] == b1[e..][e' - e..] == b0[e..][e' - e..] == b0[e'..];
  }

  lemma {:induction false} PartBefore(b1: seq<byte>, b2: seq<byte>, at: nat, k: nat, e: nat)
    requires |b1| == |b2| && e <= |b1| && b2[..e] == b1[..e] && at + BLOCK_SIZE * (k + 1) <= e
    ensures Part(b2, at, k) == Part(b1, at, k)
  {
    assert Part(b2, at, k) == Part(b2[..e], at, k) && Part(b1, at, k) == Part(b1[..e], at, k);
  }

  // ---------------------------------------------------------------- the program

  /** The index of the first data block of a read at offset, within what a block of the level stands for. */
  function Start(level: nat, offset: nat): (s: nat)
    requires 1 <= level <= 2
    ensures s < Reach(level)
  {
    offset / BLOCK_SIZE % Reach(level)
  }

  /** How many data blocks a read gets before the loop over an index block runs past its 256 entries. */
  function Inside(level: nat, offset: nat, blocks: nat): (n: nat)
    requires 1 <= level <= 2
    ensures n <= blocks && Start(level, offset) + n <= Reach(level)
  {
    if level == 2 && Start(2, offset) % 256 + Min(blocks, 256) > 256 then 256 - Start(2, offset) % 256
    else Min(blocks, Reach(level) - Start(level, offset))
  }

  /**
   The reads that stay inside the index blocks. The top block must not be run past its last entry; and at level 2
   a read that starts inside an index block must end in it, since the first step takes up to 256 blocks from there.
   */
  lemma {:induction false} InsideExactly(level: nat, offset: nat, blocks: nat)
    requires 1 <= level <= 2
    ensures Inside(level, offset, blocks) == blocks <==>
      && Start(level, offset) + blocks <= Reach(level)
      && (level == 2 ==> Start(2, offset) % 256 == 0 || Start(2, offset) % 256 + blocks <= 256)
  {
  }

  datatype ReadResult =
    | Done
    | Failed(error: Fetched)
    | InternalError  // a level above 2
    | Overrun        // an index block is read past its end; what that gives is not defined

  /** A read of n blocks of which inside lie in the index blocks. */
  function Finished(outcome: Option<Fetched>, inside: nat, n: nat): ReadResult {
    if outcome.Some? then Failed(outcome.value) else if inside < n then Overrun else Done
  }

  class Disk {
    const device: BlockDevice

    constructor (device: BlockDevice)
      ensures this.device == device
    {
      this.device := device;
    }

    method Read(block: nat) returns (r: Fetched)
      ensures r == ReadBlock(device.blocks, block)
    {
      if block > |device.blocks| {
        return InvalidBlock;
      }
      if block == |device.blocks| {
        return DeviceException;
      }
      var data := device.Read(block);
      r := Data(data);
    }

    /** A data block into the buffer; None is success. */
    method ReadData(block: nat, buffer: array<byte>, at: nat) returns (r: Option<Fetched>)
      requires at + BLOCK_SIZE <= buffer.Length
      modifies buffer
      ensures r == Outcome(device.blocks, block, 0, 0, 1)
      ensures Placed(old(buffer[..]), buffer[..], at, device.blocks, block, 0, 0, Good(device.blocks, block, 0, 0, 1))
    {
      var data: Fetched := Data(ZERO_BLOCK);
      if block != 0 {
        data := Read(block);
      }
      assert data == Fetch(device.blocks, block) == Lookup(device.blocks, block, 0, 0);
      assert Good(device.blocks, block, 0, 0, 0) == 0;
      if !data.Data? {
        return Some(data);
      }
      forall i | 0 <= i < BLOCK_SIZE {
        buffer[at + i] := data.block[i];
      }
      assert Part(buffer[..], at, 0) == data.block;
      r := None;
    }

    /** ReadIndex with an index block of level 1. */
    method ReadIndex1(block: nat, buffer: array<byte>, at: nat, first: nat, blocks: nat) returns (r: ReadResult)
      requires first < 256 && at + BLOCK_SIZE * blocks <= buffer.Length
      modifies buffer
      ensures var inside := Min(blocks, 256 - first);
        && r == Finished(Outcome(device.blocks, block, 1, first, inside), inside, blocks)
        && Placed(old(buffer[..]), buffer[..], at, device.blocks, block, 1, first,
          Good(device.blocks, block, 1, first, inside))
    {
      hide Lookup, Placed, Outcome, Good;
      ghost var disk, b0, inside := device.blocks, buffer[..], Min(blocks, 256 - first);
      NothingPlaced(b0, at, disk, block, 1, first);
      var key := ReadKey(block);
      if !key.Data? {
        TopFails(disk, block, 1, first, inside);
        return Failed(key);
      }
      for i := 0 to blocks
        invariant i <= inside
        invariant device.blocks == disk && Good(disk, block, 1, first, i) == i && buffer.Length == |b0|
        invariant Placed(b0, buffer[..], at, disk, block, 1, first, i)
      {
        if first + i >= 256 {
          AllGood(disk, block, 1, first, inside);
          return Overrun;
        }
        var newBlock := Pointer(key.block, first + i);
        Below(disk, block, 1, first + i, 0);
        assert SameBlock(disk, block, 1, first + i, newBlock, 0, 0);
        ghost var b1 := buffer[..];
        var ok := ReadData(newBlock, buffer, at + BLOCK_SIZE * i);
        StepDone(b0, b1, buffer[..], at, disk, block, 1, first, i, newBlock, 0, 1, inside);
        if ok.Some? {
          return Failed(ok.value);
        }
      }
      AllGood(disk, block, 1, first, inside);
      r := Done;
    }

    /** ReadIndex with an index block of level 2: one index block of level 1 after the other. */
    method ReadIndex2(block: nat, buffer: array<byte>, at: nat, first: nat, inner: nat, blocks: nat)
      returns (r: ReadResult)
      requires first < 256 && inner < 256 && at + BLOCK_SIZE * blocks <= buffer.Length
      modifies buffer
      ensures var start, inside := first * 256 + inner, Inside2(first, inner, blocks);
        && r == Finished(Outcome(device.blocks, block, 2, start, inside), inside, blocks)
        && Placed(old(buffer[..]), buffer[..], at, device.blocks, block, 2, start,
          Good(device.blocks, block, 2, start, inside))
    {
      hide Lookup, Placed, Outcome, Good;
      ghost var disk, b0 := device.blocks, buffer[..];
      ghost var start, inside := first * 256 + inner, Inside2(first, inner, blocks);
      NothingPlaced(b0, at, disk, block, 2, start);
      var key := ReadKey(block);
      if !key.Data? {
        TopFails(disk, block, 2, start, inside);
        return Failed(key);
      }
      var done, i, from := 0, first, inner;
      while done < blocks
        invariant done <= inside && first <= i <= 256 && device.blocks == disk && buffer.Length == |b0|
        invariant done < blocks ==> start + done == i * 256 + from && (from == 0 || (done == 0 && from == inner))
        invariant done > 0 ==> inner + Min(blocks, 256) <= 256
        invariant 0 <= from < 256 && Good(disk, block, 2, start, done) == done
        invariant Placed(b0, buffer[..], at, disk, block, 2, start, done)
        decreases blocks - done
      {
        if i >= 256 {
          AllGood(disk, block, 2, start, inside);
          return Overrun;
        }
        var newBlock := Pointer(key.block, i);
        var b := Min(blocks - done, 256);
        ghost var next, fit := start + done, Min(b, 256 - from);
        forall k: nat | k < fit ensures SameBlock(disk, block, 2, next, newBlock, from, k) {
          Below(disk, block, 2, i, from + k);
        }
        assert done + fit <= inside;
        ghost var b1 := buffer[..];
        var ok := ReadIndex1(newBlock, buffer, at + BLOCK_SIZE * done, from, b);
        StepDone(b0, b1, buffer[..], at, disk, block, 2, start, done, newBlock, from, fit, inside);
        if !ok.Done? {
          if ok.Overrun? {
            AllGood(disk, block, 2, start, inside);
          }
          return ok;
        }
        i, from, done := i + 1, 0, done + b;
      }
      AllGood(disk, block, 2, start, inside);
      r := Done;
    }

    /** An index block, or zeros for a sparse one. */
    method ReadKey(block: nat) returns (key: Fetched)
      ensures key == Fetch(device.blocks, block)
    {
      if block != 0 {
        key := Read(block);
      } else {
        key := Data(ZERO_BLOCK);
      }
    }

    /** ReadIndex. At level 0 block is the data block itself. */
    method ReadIndex(block: nat, buffer: array<byte>, level: nat, offset: nat, blocks: nat) returns (r: ReadResult)
      requires BLOCK_SIZE * (if level == 0 then 1 else blocks) <= buffer.Length
      modifies buffer
      ensures level == 0 ==>
        && r == Finished(Outcome(device.blocks, block, 0, 0, 1), 1, 1)
        && Placed(old(buffer[..]), buffer[..], 0, device.blocks, block, 0, 0, Good(device.blocks, block, 0, 0, 1))
      ensures level > 2 ==> r == InternalError && buffer[..] == old(buffer[..])
      ensures 1 <= level <= 2 ==> var inside := Inside(level, offset, blocks);
        && r == Finished(Outcome(device.blocks, block, level, Start(level, offset), inside), inside, blocks)
        && Placed(old(buffer[..]), buffer[..], 0, device.blocks, block, level, Start(level, offset),
          Good(device.blocks, block, level, Start(level, offset), inside))
      ensures 1 <= level <= 2 && blocks == 1 && 0 < block < |device.blocks| ==>
        ReadByBytes(device.blocks, block, level, offset, r, buffer[..])
    {
      hide Lookup, Placed, Outcome, Good, ReadByBytes;
      ghost var disk, b0 := device.blocks, buffer[..];
      if level == 0 {
        var ok := ReadData(block, buffer, 0);
        return if ok.Some? then Failed(ok.value) else Done;
      }
      if level == 1 {
        var first := offset / 512 % 256;
        r := ReadIndex1(block, buffer, 0, first, blocks);
      } else if level == 2 {
        var first := offset / 0x2_0000 % 256;
        var inner := offset % 0x2_0000 / 512;
        TwoLevels(offset);
        r := ReadIndex2(block, buffer, 0, first, inner, blocks);
      } else {
        r := InternalError;
      }
      if blocks == 1 && 0 < block < |disk| && 1 <= level <= 2 {
        InsideOne(level, offset);
        ReadOne(disk, block, level, offset, b0, buffer[..]);
      }
    }
  }

  /**
   A read of one block, from the bytes of the index blocks. Level 1: if the entry of block that the offset selects
   names block w of the disk, the buffer begins with block w, or with zeros if w is 0.
   Level 2: that entry names an index block v, and one of v's entries names w; zeros if v or w is 0.
   */
  ghost predicate ReadByBytes(disk: seq<Block>, block: nat, level: nat, offset: nat, r: ReadResult, b: seq<byte>)
    requires 0 < block < |disk| && 1 <= level <= 2
  {
    && |b| >= BLOCK_SIZE
    && (level == 1 ==>
      forall w: nat :: PointsTo(disk[block], offset / 512 % 256, w) && w < |disk| ==>
        r == Done && b[..BLOCK_SIZE] == if w == 0 then ZERO_BLOCK else disk[w])
    && (level == 2 ==>
      forall v: nat :: PointsTo(disk[block], offset / 0x2_0000 % 256, v) && v < |disk| ==>
        if v == 0 then r == Done && b[..BLOCK_SIZE] == ZERO_BLOCK
        else
          forall w: nat :: PointsTo(disk[v], offset / 512 % 256, w) && w < |disk| ==>
            r == Done && b[..BLOCK_SIZE] == if w == 0 then ZERO_BLOCK else disk[w])
  }

  lemma {:induction false} InsideOne(level: nat, offset: nat)
    requires 1 <= level <= 2
    ensures Inside(level, offset, 1) == 1
  {
  }

  lemma {:induction false} ReadOne(disk: seq<Block>, block: nat, level: nat, offset: nat, b0: seq<byte>, b: seq<byte>)
    requires 0 < block < |disk| && 1 <= level <= 2 && BLOCK_SIZE <= |b0| == |b|
    requires
      Placed(b0, b, 0, disk, block, level, Start(level, offset), Good(disk, block, level, Start(level, offset), 1))
    ensures ReadByBytes(disk, block, level, offset,
                        Finished(Outcome(disk, block, level, Start(level, offset), 1), 1, 1), b)
  {
    hide Lookup, Placed, Outcome, Good, PointsTo, Start;
    var i := Start(level, offset);
    StartParts(offset);
    if level == 1 {
      forall w: nat | PointsTo(disk[block], i, w) && w < |disk|
        ensures Outcome(disk, block, 1, i, 1) == None && b[..BLOCK_SIZE] == if w == 0 then ZERO_BLOCK else disk[w]
      {
        OneIndexBlock(disk, block, i, w);
        OneBlockRead(disk, block, 1, i, b0, b);
      }
    } else {
      forall v: nat | PointsTo(disk[block], i / 256, v) && v < |disk|
        ensures v == 0 ==> Outcome(disk, block, 2, i, 1) == None && b[..BLOCK_SIZE] == ZERO_BLOCK
        ensures v > 0 ==>
          forall w: nat :: PointsTo(disk[v], i % 256, w) && w < |disk| ==>
            Outcome(disk, block, 2, i, 1) == None && b[..BLOCK_SIZE] == if w == 0 then ZERO_BLOCK else disk[w]
      {
        ReadOneBelow(disk, block, i, v, b0, b);
      }
    }
  }

  lemma {:induction false} ReadOneBelow(disk: seq<Block>, block: nat, i: nat, v: nat, b0: seq<byte>, b: seq<byte>)
    requires 0 < block < |disk| && i < Reach(2) && BLOCK_SIZE <= |b0| == |b| && v < |disk|
    requires PointsTo(disk[block], i / 256, v) && Placed(b0, b, 0, disk, block, 2, i, Good(disk, block, 2, i, 1))
    ensures v == 0 ==> Outcome(disk, block, 2, i, 1) == None && b[..BLOCK_SIZE] == ZERO_BLOCK
    ensures v > 0 ==>
      forall w: nat :: PointsTo(disk[v], i % 256, w) && w < |disk| ==>
        Outcome(disk, block, 2, i, 1) == None && b[..BLOCK_SIZE] == if w == 0 then ZERO_BLOCK else disk[w]
  {
    hide Lookup, Placed, Outcome, Good, PointsTo;
    if v == 0 {
      TwoIndexBlocks(disk, block, i, v, 0);
      OneBlockRead(disk, block, 2, i, b0, b);
    } else {
      forall w: nat | PointsTo(disk[v], i % 256, w) && w < |disk|
        ensures Outcome(disk, block, 2, i, 1) == None && b[..BLOCK_SIZE] == if w == 0 then ZERO_BLOCK else disk[w]
      {
        TwoIndexBlocks(disk, block, i, v, w);
        OneBlockRead(disk, block, 2, i, b0, b);
      }
    }
  }

  lemma {:induction false} StartParts(offset: nat)
    ensures Start(1, offset) == offset / 512 % 256
    ensures Start(2, offset) / 256 == offset / 0x2_0000 % 256 && Start(2, offset) % 256 == offset / 512 % 256
  {
    Quarters(offset / 512);
    assert offset / 0x2_0000 == offset / 512 / 256;
  }

  lemma {:induction false} Quarters(b: nat)
    ensures b % 0x1_0000 / 256 == b / 256 % 256 && b % 0x1_0000 % 256 == b % 256
  {
  }

  /** Inside at level 2, from the entry of the top block and the entry of the block below it the read starts at. */
  function Inside2(first: nat, inner: nat, blocks: nat): (n: nat)
    requires first < 256 && inner < 256
    ensures n <= blocks && first * 256 + inner + n <= Reach(2)
  {
    if inner + Min(blocks, 256) > 256 then 256 - inner else Min(blocks, Reach(2) - (first * 256 + inner))
  }

  lemma {:induction false} TwoLevels(offset: nat)
    ensures Start(2, offset) == offset / 0x2_0000 % 256 * 256 + offset % 0x2_0000 / 512
    ensures Start(2, offset) % 256 == offset % 0x2_0000 / 512
  {
    var b := offset / 512;
    assert offset / 0x2_0000 == b / 256 && offset % 0x2_0000 / 512 == b % 256;
  }

  lemma {:induction false} NothingPlaced(b: seq<byte>, at: nat, disk: seq<Block>, block: nat, level: nat, start: nat)
    requires level <= 2 && start <= Reach(level) && at <= |b|
    ensures Placed(b, b, at, disk, block, level, start, 0) && Good(disk, block, level, start, 0) == 0
  {
  }

  lemma {:induction false} TopFails(disk: seq<Block>, block: nat, level: nat, start: nat, n: nat)
    requires 1 <= level <= 2 && start + n <= Reach(level) && !Fetch(disk, block).Data?
    ensures Good(disk, block, level, start, n) == 0
    ensures Outcome(disk, block, level, start, n) == Some(Fetch(disk, block))
  {
    if n > 0 {
      TopFails(disk, block, level, start, n - 1);
    }
  }

  lemma {:induction false} AllGood(disk: seq<Block>, block: nat, level: nat, start: nat, n: nat)
    requires level <= 2 && start + n <= Reach(level) && Fetch(disk, block).Data?
    requires Good(disk, block, level, start, n) == n
    ensures Outcome(disk, block, level, start, n) == None
  {
  }

  /** One entry of an index block done: either all its blocks are there, or the whole read ends with its error. */
  lemma {:induction false} StepDone(b0: seq<byte>, b1: seq<byte>, b2: seq<byte>, at: nat, disk: seq<Block>, block: nat,
                                    level: nat, start: nat, d: nat, sub: nat, subStart: nat, b: nat, n: nat)
    requires 1 <= level <= 2 && start + n <= Reach(level) && subStart + b <= Reach(level - 1) && d + b <= n && b >= 1
    requires at + BLOCK_SIZE * n <= |b0| == |b1| && Fetch(disk, block).Data?
    requires Covers(disk, block, level, start + d, sub, subStart, b)
    requires Good(disk, block, level, start, d) == d && Placed(b0, b1, at, disk, block, level, start, d)
    requires
      Placed(b1, b2, at + BLOCK_SIZE * d, disk, sub, level - 1, subStart, Good(disk, sub, level - 1, subStart, b))
    ensures var ok := Outcome(disk, sub, level - 1, subStart, b);
      && (ok.Some? ==> Outcome(disk, block, level, start, n) == ok)
      && (ok.Some? ==> Placed(b0, b2, at, disk, block, level, start, Good(disk, block, level, start, n)))
      && (ok.None? ==> Good(disk, block, level, start, d + b) == d + b)
      && (ok.None? ==> Placed(b0, b2, at, disk, block, level, start, d + b))
  {
    hide Lookup, Placed, Good;
    var g := Good(disk, sub, level - 1, subStart, b);
    GoodSplit(disk, block, level, start, d, sub, subStart, b);
    PlacedMore(b0, b1, b2, at, disk, block, level, start, d, sub, subStart, b, g);
    OutcomeIsFirstBad(disk, sub, level - 1, subStart, b);
    if g < b {
      GoodStuck(disk, block, level, start, d + b, n);
      assert SameBlock(disk, block, level, start + d, sub, subStart, g);
    }
  }
}
