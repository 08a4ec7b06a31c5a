/**
 The ProDOS block allocator on values: one bit per block, a set bit meaning free, most significant bit first.
 The functions follow the code; the lemmas say what the allocator guarantees and for which volume sizes.
 */
module BitmapSpec {
  import opened Blocks

  datatype State = State(bits: seq<bv8>, blocks: nat, freeBlocks: int, freeIndex: nat)

  // ---------------------------------------------------------------- bits

  /** 0x80 >> k */
  function Mask(k: nat): bv8
    requires k < 8
  {
    match k
    case 0 => 0x80
    case 1 => 0x40
    case 2 => 0x20
    case 3 => 0x10
    case 4 => 0x08
    case 5 => 0x04
    case 6 => 0x02
    case 7 => 0x01
  }

  predicate Bit(x: bv8, k: nat)
    requires k < 8
  {
    x & Mask(k) != 0
  }

  function ClearBit(x: bv8, k: nat): bv8
    requires k < 8
  {
    x & !Mask(k)
  }

  function SetBit(x: bv8, k: nat): bv8
    requires k < 8
  {
    x | Mask(k)
  }

  lemma {:induction false} BitOps(x: bv8, k: nat, j: nat)
    requires k < 8 && j < 8
    ensures Bit(ClearBit(x, k), j) <==> Bit(x, j) && j != k
    ensures Bit(SetBit(x, k), j) <==> Bit(x, j) || j == k
  {
  }

  /** Bit 0 is the most significant. */
  lemma {:induction false} BitIs(x: bv8, k: nat)
    requires k < 8
    ensures Bit(x, k) <==> (x >> (7 - k)) & 1 == 1
  {
    if k < 4 {
      if k < 2 { assert k == 0 || k == 1; } else { assert k == 2 || k == 3; }
    } else {
      if k < 6 { assert k == 4 || k == 5; } else { assert k == 6 || k == 7; }
    }
  }

  lemma {:induction false} SomeBit(x: bv8)
    ensures x != 0 <==> exists k: nat :: k < 8 && Bit(x, k)
  {
    if x != 0 {
      assert Bit(x, 0) || Bit(x, 1) || Bit(x, 2) || Bit(x, 3) || Bit(x, 4) || Bit(x, 5) || Bit(x, 6) || Bit(x, 7);
    }
  }

  lemma {:induction false} MaskShift(k: nat)
    requires k < 7
    ensures Mask(k) >> 1 == Mask(k + 1)
  {
  }

  /** The last byte of the constructor's bitmap: ~(0xff >> n) truncated to a byte, for n = blocks & 0x0f. */
  function TailByte(n: nat): bv8
    requires 0 < n < 16
  {
    match n
    case 1 => 0x80
    case 2 => 0xc0
    case 3 => 0xe0
    case 4 => 0xf0
    case 5 => 0xf8
    case 6 => 0xfc
    case 7 => 0xfe
    case _ => 0xff
  }

  lemma {:induction false} TailBits(n: nat, k: nat)
    requires 0 < n < 16 && k < 8
    ensures Bit(TailByte(n), k) <==> k < n
  {
  }

  // ---------------------------------------------------------------- the free set

  predicate FreeAt(bits: seq<bv8>, b: nat) {
    b / 8 < |bits| && Bit(bits[b / 8], b % 8)
  }

  /** The blocks of the volume marked free. */
  function Free(s: State): set<nat> {
    set b: nat | b < s.blocks && FreeAt(s.bits, b)
  }

  function BitmapBlocks(blocks: nat): nat {
    (blocks + 4095) / 4096
  }

  /** The bytes allocBlock() looks at. */
  function MaxIndex(blocks: nat): nat {
    (blocks + 7) / 8
  }

  ghost predicate Valid(s: State) {
    && |s.bits| == BitmapBlocks(s.blocks) * 512
    && s.freeIndex <= MaxIndex(s.blocks) <= |s.bits|
    && s.freeBlocks == |Free(s)|
    && forall b :: s.blocks <= b < 8 * MaxIndex(s.blocks) ==> !FreeAt(s.bits, b)
  }

  // ---------------------------------------------------------------- operations

  lemma {:induction false} InitSize(blocks: nat)
    ensures blocks / 8 + (if blocks % 16 == 0 then 0 else 1) <= BitmapBlocks(blocks) * 512
    ensures MaxIndex(blocks) <= BitmapBlocks(blocks) * 512
  {
    var q := BitmapBlocks(blocks);
    assert blocks <= 4096 * q;
    assert blocks % 16 != 0 ==> blocks < 4096 * q;
    assert blocks / 8 <= 512 * q && (blocks < 4096 * q ==> blocks / 8 < 512 * q);
  }

  /** The constructor for an empty volume. */
  function Init(blocks: nat): (s: State)
    ensures |s.bits| == BitmapBlocks(blocks) * 512 && MaxIndex(blocks) <= |s.bits|
    ensures s.blocks == blocks == s.freeBlocks && s.freeIndex == 0
  {
    InitSize(blocks);
    var size := BitmapBlocks(blocks) * 512;
    var n := blocks % 16;
    var head := seq(blocks / 8, _ => 0xff as bv8) + (if n == 0 then [] else [TailByte(n)]);
    State(head + seq(size - |head|, _ => 0), blocks, blocks, 0)
  }

  function Take(s: State, b: nat): State
    requires b / 8 < |s.bits|
  {
    s.(bits := s.bits[b / 8 := ClearBit(s.bits[b / 8], b % 8)], freeBlocks := s.freeBlocks - 1)
  }

  /** allocBlock(block) */
  function AllocAt(s: State, b: nat): (State, int)
    requires MaxIndex(s.blocks) <= |s.bits|
  {
    if b < s.blocks && FreeAt(s.bits, b) then (Take(s, b), b as int) else (s, -1)
  }

  /** freeBlock */
  function FreeBlock(s: State, b: nat): State
    requires MaxIndex(s.blocks) <= |s.bits|
  {
    if b < s.blocks && !FreeAt(s.bits, b) then
      s.(bits := s.bits[b / 8 := SetBit(s.bits[b / 8], b % 8)], freeBlocks := s.freeBlocks + 1)
    else s
  }

  /** The first nonzero byte in bits[i..max]. */
  function FirstByte(bits: seq<bv8>, i: nat, max: nat): (r: Option<nat>)
    requires max <= |bits|
    ensures r.Some? ==> i <= r.value < max && bits[r.value] != 0 && forall k :: i <= k < r.value ==> bits[k] == 0
    ensures r.None? ==> forall k :: i <= k < max ==> bits[k] == 0
    decreases max - i
  {
    if i >= max then None else if bits[i] != 0 then Some(i) else FirstByte(bits, i + 1, max)
  }

  /** The first set bit of x at or after bit k, 8 if there is none. */
  function FirstBit(x: bv8, k: nat): (r: nat)
    requires k <= 8
    ensures k <= r <= 8 && (r < 8 ==> Bit(x, r)) && forall j :: k <= j < r ==> !Bit(x, j)
    decreases 8 - k
  {
    if k == 8 then 8 else if Bit(x, k) then k else FirstBit(x, k + 1)
  }

  lemma {:induction false} FirstBitExists(x: bv8)
    requires x != 0
    ensures FirstBit(x, 0) < 8
  {
    SomeBit(x);
  }

  /** Allocates the first free block at or after byte index i. */
  function TakeIn(s: State, i: nat): (State, int)
    requires i < |s.bits| && s.bits[i] != 0
  {
    FirstBitExists(s.bits[i]);
    var b := i * 8 + FirstBit(s.bits[i], 0);
    (Take(s, b).(freeIndex := i), b)
  }

  /** allocBlock(): a circular scan from the byte where the last block was found. */
  function Alloc(s: State): (State, int)
    requires s.freeIndex <= MaxIndex(s.blocks) <= |s.bits|
  {
    if s.freeBlocks == 0 then (s, -1)
    else
      var later := FirstByte(s.bits, s.freeIndex, MaxIndex(s.blocks));
      if later.Some? then TakeIn(s, later.value)
      else
        var earlier := FirstByte(s.bits, 0, s.freeIndex);
        if earlier.Some? then TakeIn(s, earlier.value) else (s, -1)
  }

  // ---------------------------------------------------------------- one operation

  /** Replacing the byte of block b by one that differs in b's bit only changes what the bitmap says about b only. */
  lemma {:induction false} UpdateByte(bits: seq<bv8>, b: nat, v: bv8, x: nat)
    requires b / 8 < |bits|
    requires forall j: nat :: j < 8 && j != b % 8 ==> (Bit(v, j) <==> Bit(bits[b / 8], j))
    ensures FreeAt(bits[b / 8 := v], x) <==> if x == b then Bit(v, b % 8) else FreeAt(bits, x)
  {
    hide Bit;
    SamePosition(b, x);
  }

  lemma {:induction false} UpdateBit(bits: seq<bv8>, b: nat, x: nat)
    requires b / 8 < |bits|
    ensures FreeAt(bits[b / 8 := ClearBit(bits[b / 8], b % 8)], x) <==> FreeAt(bits, x) && x != b
    ensures FreeAt(bits[b / 8 := SetBit(bits[b / 8], b % 8)], x) <==> FreeAt(bits, x) || x == b
  {
    hide Bit, FreeAt, ClearBit, SetBit;
    forall j: nat | j < 8
      ensures Bit(ClearBit(bits[b / 8], b % 8), j) <==> Bit(bits[b / 8], j) && j != b % 8
      ensures Bit(SetBit(bits[b / 8], b % 8), j) <==> Bit(bits[b / 8], j) || j == b % 8
    {
      BitOps(bits[b / 8], b % 8, j);
    }
    UpdateByte(bits, b, ClearBit(bits[b / 8], b % 8), x);
    UpdateByte(bits, b, SetBit(bits[b / 8], b % 8), x);
  }

  lemma {:induction false} SamePosition(b: nat, x: nat)
    ensures b / 8 == x / 8 && b % 8 == x % 8 <==> b == x
  {
  }

  lemma {:induction false} TakeRemoves(s: State, b: nat)
    requires Valid(s) && b in Free(s)
    ensures Free(Take(s, b)) == Free(s) - {b}
    ensures Valid(Take(s, b))
  {
    var t := Take(s, b);
    forall x: nat ensures FreeAt(t.bits, x) <==> FreeAt(s.bits, x) && x != b {
      UpdateBit(s.bits, b, x);
    }
    hide FreeAt;
    assert Free(t) == Free(s) - {b};
  }

  lemma {:induction false} FreeAdds(s: State, b: nat)
    requires Valid(s) && b < s.blocks
    ensures Free(FreeBlock(s, b)) == Free(s) + {b}
    ensures Valid(FreeBlock(s, b))
  {
    if FreeAt(s.bits, b) {
      assert Free(s) == Free(s) + {b};
    } else {
      var t := FreeBlock(s, b);
      forall x: nat ensures FreeAt(t.bits, x) <==> FreeAt(s.bits, x) || x == b {
        UpdateBit(s.bits, b, x);
      }
      hide FreeAt;
      assert Free(t) == Free(s) + {b};
    }
  }

  /** A nonzero byte that the scan looks at holds a free block of the volume. */
  lemma {:induction false} ByteHoldsFree(s: State, i: nat)
    requires Valid(s) && i < MaxIndex(s.blocks) && s.bits[i] != 0
    ensures FirstBit(s.bits[i], 0) < 8 && i * 8 + FirstBit(s.bits[i], 0) in Free(s)
  {
    FirstBitExists(s.bits[i]);
    var b := i * 8 + FirstBit(s.bits[i], 0);
    assert b / 8 == i && b % 8 == FirstBit(s.bits[i], 0);
    assert FreeAt(s.bits, b);
  }

  /** A zero byte holds no free block. */
  lemma {:induction false} ZeroByte(s: State, b: nat)
    requires b / 8 < |s.bits| && s.bits[b / 8] == 0
    ensures b !in Free(s)
  {
  }

  /** The order in which allocBlock() prefers blocks: from the byte freeIndex to the end, then from the start. */
  function ScanRank(s: State, b: nat): int {
    if b / 8 >= s.freeIndex then b else b + 8 * MaxIndex(s.blocks)
  }

  /** The scan of a volume with free blocks never runs off both loops: the last return is unreachable. */
  lemma {:induction false} ScanFinds(s: State)
    requires Valid(s) && s.freeBlocks != 0
    ensures FirstByte(s.bits, s.freeIndex, MaxIndex(s.blocks)).Some? || FirstByte(s.bits, 0, s.freeIndex).Some?
  {
    var b :| b in Free(s);
    if s.bits[b / 8] == 0 {
      ZeroByte(s, b);
    }
    assert b / 8 < MaxIndex(s.blocks);
  }

  /** allocBlock() hands out a free block, the first in scan order, and fails exactly when nothing is free. */
  lemma {:induction false} AllocCorrect(s: State)
    requires Valid(s)
    ensures var (t, r) := Alloc(s);
      && Valid(t) && t.blocks == s.blocks
      && (r == -1 <==> Free(s) == {})
      && (r == -1 ==> t == s)
      && (r != -1 ==> r >= 0 && r in Free(s) && Free(t) == Free(s) - {r})
      && (r != -1 ==> forall b :: b in Free(s) && b != r ==> ScanRank(s, r) < ScanRank(s, b))
  {
    if s.freeBlocks == 0 {
      assert Free(s) == {};
    } else {
      ScanFinds(s);
      var later := FirstByte(s.bits, s.freeIndex, MaxIndex(s.blocks));
      TakeInCorrect(s, if later.Some? then later.value else FirstByte(s.bits, 0, s.freeIndex).value);
      hide TakeIn;
    }
  }

  /** The bytes that the scan comes to before byte i hold nothing. */
  predicate EmptyBefore(s: State, i: nat)
    requires s.freeIndex <= MaxIndex(s.blocks) <= |s.bits| && i < |s.bits|
  {
    if i >= s.freeIndex then forall k :: s.freeIndex <= k < i ==> s.bits[k] == 0
    else
      && (forall k :: s.freeIndex <= k < MaxIndex(s.blocks) ==> s.bits[k] == 0)
      && (forall k :: 0 <= k < i ==> s.bits[k] == 0)
  }

  lemma {:induction false} TakeInCorrect(s: State, i: nat)
    requires Valid(s) && i < MaxIndex(s.blocks) && s.bits[i] != 0
    requires EmptyBefore(s, i)
    ensures var (t, r) := TakeIn(s, i);
      && Valid(t) && t.blocks == s.blocks && r >= 0 && r in Free(s) && Free(t) == Free(s) - {r}
      && (forall b :: b in Free(s) && b != r ==> ScanRank(s, r) < ScanRank(s, b))
  {
    ByteHoldsFree(s, i);
    TakeRemoves(s, i * 8 + FirstBit(s.bits[i], 0));
    RankFirst(s, i);
    hide FreeAt, FirstBit, ScanRank;
  }

  /** The first set bit of the first nonzero byte in scan order comes before every other free block. */
  lemma {:induction false} RankFirst(s: State, i: nat)
    requires Valid(s) && i < MaxIndex(s.blocks) && s.bits[i] != 0
    requires EmptyBefore(s, i)
    ensures var r := i * 8 + FirstBit(s.bits[i], 0);
      forall b :: b in Free(s) && b != r ==> ScanRank(s, r) < ScanRank(s, b)
  {
    FirstBitExists(s.bits[i]);
    var r := i * 8 + FirstBit(s.bits[i], 0);
    forall b | b in Free(s) && b != r ensures ScanRank(s, r) < ScanRank(s, b) {
      assert s.bits[b / 8] != 0 && b / 8 < MaxIndex(s.blocks) by {
        if s.bits[b / 8] == 0 { ZeroByte(s, b); }
      }
      assert b == b / 8 * 8 + b % 8;
      assert b / 8 == i ==> !(b % 8 < FirstBit(s.bits[i], 0));
    }
  }

  lemma {:induction false} AllocAtCorrect(s: State, b: nat)
    requires Valid(s)
    ensures var (t, r) := AllocAt(s, b);
      && Valid(t) && t.blocks == s.blocks
      && r == (if b in Free(s) then b else -1)
      && Free(t) == Free(s) - {b}
  {
    if b in Free(s) {
      TakeRemoves(s, b);
    }
  }

  // ---------------------------------------------------------------- bitmaps of any size and contents

  /** The block of bit b is free: bit 7 - b % 8 of byte b / 8 is set. */
  lemma {:induction false} FreeAtBit(bits: seq<bv8>, b: nat)
    requires b / 8 < |bits|
    ensures FreeAt(bits, b) <==> (bits[b / 8] >> (7 - b % 8)) & 1 == 1
  {
    BitIs(bits[b / 8], b % 8);
    hide Bit;
  }

  /** The bit of block b has been cleared, or set, and no other. */
  ghost predicate OnlyBit(before: seq<bv8>, after: seq<bv8>, b: nat, free: bool) {
    |after| == |before| && forall x: nat :: FreeAt(after, x) <==> if x == b then free else FreeAt(before, x)
  }

  lemma {:induction false} TakeClears(s: State, b: nat)
    requires b / 8 < |s.bits|
    ensures OnlyBit(s.bits, Take(s, b).bits, b, false)
  {
    forall x: nat ensures FreeAt(Take(s, b).bits, x) <==> FreeAt(s.bits, x) && x != b {
      UpdateBit(s.bits, b, x);
    }
    hide FreeAt;
  }

  /** allocBlock(b) takes b exactly if b is in the volume and its bit is set; else nothing changes. */
  lemma {:induction false} AllocAtAnySize(s: State, b: nat)
    requires MaxIndex(s.blocks) <= |s.bits|
    ensures var (t, r) := AllocAt(s, b);
      if b < s.blocks && FreeAt(s.bits, b) then
        && r == b && OnlyBit(s.bits, t.bits, b, false)
        && t == State(t.bits, s.blocks, s.freeBlocks - 1, s.freeIndex)
      else r == -1 && t == s
  {
    if b < s.blocks && FreeAt(s.bits, b) {
      TakeClears(s, b);
    }
    hide FreeAt;
  }

  /** freeBlock sets the bit of b, if b is in the volume and its bit is not set; else nothing changes. */
  lemma {:induction false} FreeAnySize(s: State, b: nat)
    requires MaxIndex(s.blocks) <= |s.bits|
    ensures var t := FreeBlock(s, b);
      if b < s.blocks && !FreeAt(s.bits, b) then
        && OnlyBit(s.bits, t.bits, b, true)
        && t == State(t.bits, s.blocks, s.freeBlocks + 1, s.freeIndex)
      else t == s
  {
    if b < s.blocks && !FreeAt(s.bits, b) {
      forall x: nat ensures FreeAt(FreeBlock(s, b).bits, x) <==> FreeAt(s.bits, x) || x == b {
        UpdateBit(s.bits, b, x);
      }
    }
    hide FreeAt;
  }

  /**
   allocBlock() on any bitmap: with a count of 0, or no set bit in the bytes it looks at, it gives up and changes
   nothing. Else it takes the first set bit from byte freeIndex on, going round, be that in the volume or not.
   */
  lemma {:induction false} AllocAnySize(s: State)
    requires s.freeIndex <= MaxIndex(s.blocks) <= |s.bits|
    ensures var (t, r) := Alloc(s);
      if s.freeBlocks == 0 || forall b: nat :: b < 8 * MaxIndex(s.blocks) ==> !FreeAt(s.bits, b) then r == -1 && t == s
      else
        && 0 <= r < 8 * MaxIndex(s.blocks) && FreeAt(s.bits, r) && OnlyBit(s.bits, t.bits, r, false)
        && t == State(t.bits, s.blocks, s.freeBlocks - 1, r / 8)
        && forall b: nat :: b < 8 * MaxIndex(s.blocks) && FreeAt(s.bits, b) && b != r ==>
          ScanRank(s, r) < ScanRank(s, b)
  {
    hide FreeAt, MaxIndex, TakeIn, OnlyBit, ScanRank;
    var later, earlier := FirstByte(s.bits, s.freeIndex, MaxIndex(s.blocks)), FirstByte(s.bits, 0, s.freeIndex);
    if s.freeBlocks != 0 {
      if later.Some? || earlier.Some? {
        TakeInAnySize(s, if later.Some? then later.value else earlier.value);
      } else {
        forall b: nat | b < 8 * MaxIndex(s.blocks) ensures !FreeAt(s.bits, b) {
          NoBit(s.bits, b);
        }
      }
    }
  }

  lemma {:induction false} NoBit(bits: seq<bv8>, b: nat)
    requires b / 8 < |bits| && bits[b / 8] == 0
    ensures !FreeAt(bits, b)
  {
  }

  lemma {:induction false} TakeInAnySize(s: State, i: nat)
    requires s.freeIndex <= MaxIndex(s.blocks) <= |s.bits| && i < MaxIndex(s.blocks) && s.bits[i] != 0
    requires EmptyBefore(s, i)
    ensures var (t, r) := TakeIn(s, i);
      && 0 <= r < 8 * MaxIndex(s.blocks) && FreeAt(s.bits, r) && OnlyBit(s.bits, t.bits, r, false)
      && t == State(t.bits, s.blocks, s.freeBlocks - 1, r / 8)
      && forall b: nat :: b < 8 * MaxIndex(s.blocks) && FreeAt(s.bits, b) && b != r ==> ScanRank(s, r) < ScanRank(s, b)
  {
    FirstBitExists(s.bits[i]);
    var r := i * 8 + FirstBit(s.bits[i], 0);
    assert r / 8 == i && r % 8 == FirstBit(s.bits[i], 0);
    TakeClears(s, r);
    forall b: nat | b < 8 * MaxIndex(s.blocks) && FreeAt(s.bits, b) && b != r ensures ScanRank(s, r) < ScanRank(s, b) {
      if s.bits[b / 8] == 0 { NoBit(s.bits, b); }
      assert b == b / 8 * 8 + b % 8;
      assert b / 8 == i ==> !(b % 8 < FirstBit(s.bits[i], 0));
    }
    hide OnlyBit, ScanRank;
  }
}
