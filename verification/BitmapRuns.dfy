/** Whole runs of the ProDOS block allocator, and the volume sizes on which its guarantees hold. */
module BitmapRuns {
  import opened Blocks
  import opened BitmapSpec

  datatype Op = AllocAny | AllocThis(block: nat) | Release(block: nat)

  /** One operation and the block it returns, -1 for none. */
  function Step(s: State, op: Op): (r: (State, int))
    requires s.freeIndex <= MaxIndex(s.blocks) <= |s.bits|
    ensures r.0.freeIndex <= MaxIndex(r.0.blocks) <= |r.0.bits|
  {
    match op
    case AllocAny => Alloc(s)
    case AllocThis(b) => AllocAt(s, b)
    case Release(b) => (FreeBlock(s, b), -1)
  }

  /** The blocks handed out and not freed since. */
  function Held(held: set<nat>, op: Op, r: int): set<nat> {
    match op
    case Release(b) => held - {b}
    case _ => if r >= 0 then held + {r as nat} else held
  }

  function Run(s: State, ops: seq<Op>): (r: State)
    requires s.freeIndex <= MaxIndex(s.blocks) <= |s.bits|
    ensures r.freeIndex <= MaxIndex(r.blocks) <= |r.bits|
    decreases |ops|
  {
    if ops == [] then s else Run(Step(s, ops[0]).0, ops[1..])
  }

  function Results(s: State, ops: seq<Op>): seq<int>
    requires s.freeIndex <= MaxIndex(s.blocks) <= |s.bits|
    decreases |ops|
  {
    if ops == [] then [] else [Step(s, ops[0]).1] + Results(Step(s, ops[0]).0, ops[1..])
  }

  /** No allocation of the run returns a block that is held, or one outside the volume. */
  predicate Exclusive(s: State, held: set<nat>, ops: seq<Op>)
    requires s.freeIndex <= MaxIndex(s.blocks) <= |s.bits|
    decreases |ops|
  {
    ops == [] ||
    (var (t, r) := Step(s, ops[0]);
     (r >= 0 ==> r < s.blocks && r !in held) && Exclusive(t, Held(held, ops[0], r), ops[1..]))
  }

  lemma {:induction false} StepCorrect(s: State, op: Op)
    requires Valid(s)
    ensures var (t, r) := Step(s, op);
      && Valid(t) && t.blocks == s.blocks
      && (r >= 0 ==> r in Free(s))
      && Free(t) == (if op.Release? then Free(s) + (if op.block < s.blocks then {op.block} else {})
                     else if r >= 0 then Free(s) - {r as nat} else Free(s))
  {
    match op
    case AllocAny => AllocCorrect(s);
    case AllocThis(b) => AllocAtCorrect(s, b);
    case Release(b) => if b < s.blocks { FreeAdds(s, b); }
  }

  /** In every run each block handed out lies inside the volume and is not held already. */
  lemma {:induction false} NeverTwice(s: State, held: set<nat>, ops: seq<Op>)
    requires Valid(s) && held !! Free(s)
    ensures Exclusive(s, held, ops)
    decreases |ops|
  {
    if ops != [] {
      StepCorrect(s, ops[0]);
      var (t, r) := Step(s, ops[0]);
      hide Step, Valid, Free;
      NeverTwice(t, Held(held, ops[0], r), ops[1..]);
    }
  }

  /** The counter stays the number of free blocks. */
  lemma {:induction false} CounterExact(s: State, ops: seq<Op>)
    requires Valid(s)
    ensures Valid(Run(s, ops)) && Run(s, ops).freeBlocks == |Free(Run(s, ops))|
    decreases |ops|
  {
    if ops != [] {
      StepCorrect(s, ops[0]);
      hide Step, Free;
      CounterExact(Step(s, ops[0]).0, ops[1..]);
    }
  }

  // ---------------------------------------------------------------- whatever the size

  /** No allocation of the run returns a block that is held. */
  predicate NotTwice(s: State, held: set<nat>, ops: seq<Op>)
    requires s.freeIndex <= MaxIndex(s.blocks) <= |s.bits|
    decreases |ops|
  {
    ops == [] ||
    (var (t, r) := Step(s, ops[0]);
     (r >= 0 ==> r !in held) && NotTwice(t, Held(held, ops[0], r), ops[1..]))
  }

  lemma {:induction false} TakeInBits(s: State, i: nat, x: nat)
    requires i < |s.bits| && s.bits[i] != 0
    ensures var (t, r) := TakeIn(s, i);
      r >= 0 && FreeAt(s.bits, r) && (FreeAt(t.bits, x) <==> FreeAt(s.bits, x) && x != r)
  {
    FirstBitExists(s.bits[i]);
    hide Bit, ClearBit;
    var b := i * 8 + FirstBit(s.bits[i], 0);
    assert b / 8 == i && b % 8 == FirstBit(s.bits[i], 0);
    UpdateBit(s.bits, b, x);
  }

  /** What one step does to one bit, for a bitmap of any size and contents. */
  lemma {:induction false} StepBits(s: State, op: Op, x: nat)
    requires s.freeIndex <= MaxIndex(s.blocks) <= |s.bits|
    ensures var (t, r) := Step(s, op);
      && (r >= 0 ==> !op.Release? && FreeAt(s.bits, r))
      && (FreeAt(t.bits, x) <==>
        if op.Release? then FreeAt(s.bits, x) || (x == op.block && op.block < s.blocks)
        else FreeAt(s.bits, x) && x != r)
  {
    hide FreeAt, TakeIn, FirstByte;
    match op
    case AllocAny =>
      var later, earlier := FirstByte(s.bits, s.freeIndex, MaxIndex(s.blocks)), FirstByte(s.bits, 0, s.freeIndex);
      if later.Some? {
        TakeInBits(s, later.value, x);
      } else if earlier.Some? {
        TakeInBits(s, earlier.value, x);
      }
    case AllocThis(b) =>
      if b < s.blocks {
        UpdateBit(s.bits, b, x);
      }
    case Release(b) =>
      if b < s.blocks {
        UpdateBit(s.bits, b, x);
      }
  }

  ghost predicate NoneFree(held: set<nat>, s: State) {
    forall h :: h in held ==> !FreeAt(s.bits, h)
  }

  /** A bitmap of any size, a new one among them, never hands out a block twice without a free in between. */
  lemma {:induction false} NeverTwiceAnySize(s: State, held: set<nat>, ops: seq<Op>)
    requires s.freeIndex <= MaxIndex(s.blocks) <= |s.bits| && NoneFree(held, s)
    ensures NotTwice(s, held, ops)
    decreases |ops|
  {
    hide FreeAt, Step;
    if ops != [] {
      var (t, r) := Step(s, ops[0]);
      StepBits(s, ops[0], 0);
      var next := Held(held, ops[0], r);
      forall h | h in next ensures !FreeAt(t.bits, h) {
        StepBits(s, ops[0], h);
      }
      NeverTwiceAnySize(t, next, ops[1..]);
    }
  }

  // ---------------------------------------------------------------- which volume sizes work

  lemma {:induction false} InitBits(blocks: nat, b: nat)
    ensures FreeAt(Init(blocks).bits, b) <==>
      b / 8 < blocks / 8 || (b / 8 == blocks / 8 && blocks % 16 != 0 && b % 8 < blocks % 16)
  {
    var n := blocks % 16;
    if b / 8 < blocks / 8 {
      assert Bit(0xff, b % 8);
    } else if b / 8 == blocks / 8 && n != 0 {
      TailBits(n, b % 8);
    } else {
      assert !Bit(0, b % 8);
    }
  }

  lemma {:induction false} RangeSize(s: set<nat>, n: nat)
    requires forall b: nat :: b in s <==> b < n
    ensures |s| == n
  {
    if n > 0 {
      RangeSize(s - {n - 1}, n - 1);
    } else {
      assert s == {};
    }
  }

  /** The bits InitBits describes, compared with the range of the volume and of the bytes looked at. */
  lemma {:induction false} TailArithmetic(blocks: nat, b: nat)
    ensures var set_ := b / 8 < blocks / 8 || (b / 8 == blocks / 8 && blocks % 16 != 0 && b % 8 < blocks % 16);
      && (b < blocks ==> set_)
      && (set_ && blocks % 16 < 8 ==> b < blocks)
      && (set_ && blocks % 16 == 8 && b < 8 * MaxIndex(blocks) ==> b < blocks)
      && (blocks % 16 > 8 && b < 8 * MaxIndex(blocks) ==> set_)
  {
    assert blocks % 8 == blocks % 16 % 8;
  }

  lemma {:induction false} InitFree(blocks: nat, b: nat)
    ensures b < blocks ==> FreeAt(Init(blocks).bits, b)
    ensures blocks % 16 <= 8 && b < 8 * MaxIndex(blocks) && FreeAt(Init(blocks).bits, b) ==> b < blocks
    ensures blocks % 16 > 8 && b < 8 * MaxIndex(blocks) ==> FreeAt(Init(blocks).bits, b)
  {
    InitBits(blocks, b);
    TailArithmetic(blocks, b);
  }

  /** A new bitmap meets the allocator's invariant exactly when blocks % 16 is at most 8. */
  lemma {:induction false} InitValid(blocks: nat)
    ensures Valid(Init(blocks)) <==> blocks % 16 <= 8
  {
    var s := Init(blocks);
    if blocks % 16 > 8 {
      var b := blocks / 8 * 8 + 7;
      assert blocks <= b < 8 * MaxIndex(blocks);
      InitFree(blocks, b);
    } else {
      forall b: nat
        ensures b < blocks ==> FreeAt(s.bits, b)
        ensures b < 8 * MaxIndex(blocks) && FreeAt(s.bits, b) ==> b < blocks
      {
        InitFree(blocks, b);
      }
      hide FreeAt, Init;
      RangeSize(Free(s), blocks);
    }
  }

  /** Written to disk, the new bitmap marks only blocks of the volume free exactly when blocks % 16 is below 8. */
  lemma {:induction false} NoFreeBitsPastEnd(blocks: nat)
    ensures (forall b: nat :: FreeAt(Init(blocks).bits, b) ==> b < blocks) <==> blocks % 16 < 8
  {
    forall b: nat ensures FreeAt(Init(blocks).bits, b) <==>
      b / 8 < blocks / 8 || (b / 8 == blocks / 8 && blocks % 16 != 0 && b % 8 < blocks % 16)
    {
      InitBits(blocks, b);
    }
    hide FreeAt, Init;
    if blocks % 16 >= 8 {
      var b := blocks / 8 * 8 + 7;
      assert b / 8 == blocks / 8 && b % 8 == 7 && b >= blocks;
      assert FreeAt(Init(blocks).bits, b);
    } else {
      forall b: nat | FreeAt(Init(blocks).bits, b) ensures b < blocks {
        TailArithmetic(blocks, b);
      }
    }
  }

  /** The free bits are those of blocks k up to the end of the last byte looked at; the next scan starts at k. */
  ghost predicate Drained(s: State, k: nat) {
    && s.freeIndex <= MaxIndex(s.blocks) <= |s.bits|
    && s.freeIndex <= k / 8 && (k > 0 ==> s.freeIndex == (k - 1) / 8)
    && s.freeBlocks == s.blocks - k
    && forall b: nat :: b < 8 * MaxIndex(s.blocks) ==> (FreeAt(s.bits, b) <==> k <= b)
  }

  lemma {:induction false} ByteZero(bits: seq<bv8>, i: nat)
    requires i < |bits|
    ensures bits[i] == 0 <==> forall b: nat :: b / 8 == i ==> !FreeAt(bits, b)
  {
    SomeBit(bits[i]);
    if bits[i] != 0 {
      var k: nat :| k < 8 && Bit(bits[i], k);
      assert (i * 8 + k) / 8 == i && (i * 8 + k) % 8 == k;
      assert FreeAt(bits, i * 8 + k);
    }
  }

  lemma {:induction false} FirstBitIs(x: bv8, k: nat)
    requires k < 8 && Bit(x, k) && forall j: nat :: j < k ==> !Bit(x, j)
    ensures FirstBit(x, 0) == k
  {
  }

  /** When block b is the first free one of its byte, and the bytes from i up to it are empty, the scan finds it. */
  lemma {:induction false} ScanLands(bits: seq<bv8>, i: nat, max: nat, b: nat)
    requires i <= b / 8 < max <= |bits| && FreeAt(bits, b)
    requires forall x: nat :: i <= x / 8 && x < b ==> !FreeAt(bits, x)
    ensures FirstByte(bits, i, max) == Some(b / 8) && FirstBit(bits[b / 8], 0) == b % 8
  {
    forall j | i <= j < b / 8 ensures bits[j] == 0 {
      ByteZero(bits, j);
    }
    ByteZero(bits, b / 8);
    FirstByteIs(bits, i, max, b / 8);
    forall j: nat | j < b % 8 ensures !Bit(bits[b / 8], j) {
      var x := b / 8 * 8 + j;
      assert x / 8 == b / 8 && x % 8 == j && x < b;
      assert !FreeAt(bits, x);
    }
    FirstBitIs(bits[b / 8], b % 8);
  }

  /** While blocks remain, a drained volume hands out its blocks in order. */
  lemma {:induction false} DrainStep(s: State, k: nat)
    requires Drained(s, k) && k < s.blocks
    ensures Alloc(s).1 == k && Drained(Alloc(s).0, k + 1) && Alloc(s).0.blocks == s.blocks
  {
    ScanLands(s.bits, s.freeIndex, MaxIndex(s.blocks), k);
    assert k / 8 * 8 + k % 8 == k;
    forall b: nat ensures FreeAt(Take(s, k).bits, b) <==> FreeAt(s.bits, b) && b != k {
      UpdateBit(s.bits, k, b);
    }
    hide FreeAt, FirstByte, FirstBit;
  }

  lemma {:induction false} FirstByteIs(bits: seq<bv8>, i: nat, max: nat, j: nat)
    requires i <= j < max <= |bits| && bits[j] != 0 && forall k :: i <= k < j ==> bits[k] == 0
    ensures FirstByte(bits, i, max) == Some(j)
    decreases j - i
  {
  }

  lemma {:induction false} Drain(s: State, k: nat, n: nat)
    requires Drained(s, k) && k + n <= s.blocks
    ensures Drained(Run(s, seq(n, _ => AllocAny)), k + n) && Run(s, seq(n, _ => AllocAny)).blocks == s.blocks
    decreases n
  {
    var ops := seq(n, _ => AllocAny);
    if n > 0 {
      DrainStep(s, k);
      assert ops[1..] == seq(n - 1, _ => AllocAny);
      hide Drained, Alloc;
      Drain(Step(s, AllocAny).0, k + 1, n - 1);
    }
  }

  /** For every other size the allocator hands out a block past the end: allocate all, free block 0, allocate again. */
  lemma {:induction false} HandsOutPastEnd(blocks: nat)
    requires blocks % 16 > 8
    ensures Alloc(FreeBlock(Run(Init(blocks), seq(blocks, _ => AllocAny)), 0)).1 == blocks
  {
    var s := Init(blocks);
    forall b: nat | b < 8 * MaxIndex(blocks) ensures FreeAt(s.bits, b) {
      InitFree(blocks, b);
    }
    Drain(s, 0, blocks);
    RefilledPastEnd(Run(s, seq(blocks, _ => AllocAny)), blocks);
  }

  /** After a full drain, freeing block 0 leaves the scan at the last byte, whose spare bits are still set. */
  lemma {:induction false} RefilledPastEnd(d: State, blocks: nat)
    requires d.blocks == blocks && blocks % 16 > 8 && Drained(d, blocks)
    ensures Alloc(FreeBlock(d, 0)).1 == blocks
  {
    var f := FreeBlock(d, 0);
    assert !FreeAt(d.bits, 0);
    forall b: nat ensures FreeAt(f.bits, b) <==> FreeAt(d.bits, b) || b == 0 {
      UpdateBit(d.bits, 0, b);
    }
    assert blocks % 8 == blocks % 16 % 8 && f.freeIndex == blocks / 8 < MaxIndex(blocks);
    hide FreeAt;
    ScanLands(f.bits, f.freeIndex, MaxIndex(blocks), blocks);
    hide FirstByte, FirstBit;
  }

  /** The run of HandsOutPastEnd, with what it returns last. */
  lemma {:induction false} StrayRun(blocks: nat) returns (ops: seq<Op>, k: nat)
    requires blocks % 16 > 8
    ensures k < |Results(Init(blocks), ops)| && Results(Init(blocks), ops)[k] == blocks
  {
    hide Init, Alloc, MaxIndex;
    var fill, last := seq(blocks, _ => AllocAny), [Release(0), AllocAny];
    HandsOutPastEnd(blocks);
    ResultsAppend(Init(blocks), fill, last);
    LastTwo(Run(Init(blocks), fill));
    ops := fill + last;
    k := |Results(Init(blocks), ops)| - 1;
  }

  lemma {:induction false} LastTwo(d: State)
    requires d.freeIndex <= MaxIndex(d.blocks) <= |d.bits|
    ensures Results(d, [Release(0), AllocAny]) == [-1, Alloc(FreeBlock(d, 0)).1]
  {
    hide Alloc, FreeBlock;
    assert [Release(0), AllocAny][1..] == [AllocAny] && [AllocAny][1..] == [];
  }

  /** The volume sizes on which no run ever hands out a block outside the volume: blocks % 16 at most 8. */
  lemma {:induction false} StaysInsideExactly(blocks: nat)
    ensures (forall ops: seq<Op>, k: nat :: k < |Results(Init(blocks), ops)| ==> Results(Init(blocks), ops)[k] < blocks)
      <==> blocks % 16 <= 8
  {
    hide Init, Results, MaxIndex, Valid;
    if blocks % 16 <= 8 {
      InitValid(blocks);
      forall ops: seq<Op>, k: nat | k < |Results(Init(blocks), ops)| ensures Results(Init(blocks), ops)[k] < blocks {
        ResultsInside(Init(blocks), ops, k);
      }
    } else {
      var ops, k := StrayRun(blocks);
    }
  }

  lemma {:induction false} ResultsInside(s: State, ops: seq<Op>, k: nat)
    requires Valid(s) && k < |Results(s, ops)|
    ensures Results(s, ops)[k] < s.blocks || Results(s, ops)[k] == -1
    decreases |ops|
  {
    StepCorrect(s, ops[0]);
    hide Step, Valid;
    if k > 0 {
      ResultsInside(Step(s, ops[0]).0, ops[1..], k - 1);
    }
  }

  lemma {:induction false} ResultsAppend(s: State, a: seq<Op>, b: seq<Op>)
    requires s.freeIndex <= MaxIndex(s.blocks) <= |s.bits|
    ensures Results(s, a + b) == Results(s, a) + Results(Run(s, a), b)
    decreases |a|
  {
    if a == [] {
      assert a + b == b;
    } else {
      hide Step;
      ResultsAppend(Step(s, a[0]).0, a[1..], b);
      assert (a + b)[1..] == a[1..] + b;
    }
  }
}
