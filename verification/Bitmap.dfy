/** The ProDOS block allocator as the class that updates its bitmap and counters in place. */
module Bitmap {
  import opened BitmapSpec

  ghost predicate SizedAs(freeIndex: nat, blocks: nat, size: nat, bitmapBlocks: nat) {
    freeIndex <= MaxIndex(blocks) <= size == bitmapBlocks * 512 && bitmapBlocks == BitmapBlocks(blocks)
  }

  class Bitmap {
    var freeIndex: nat
    var freeBlocks: int
    var blocks: nat
    var bitmapBlocks: nat
    var bitmap: seq<bv8>

    ghost function State(): State
      reads this
    {
      BitmapSpec.State.State(bitmap, blocks, freeBlocks, freeIndex)
    }

    /** What every operation needs and keeps for any volume size; BitmapSpec.Valid is the allocator's invariant. */
    ghost predicate Sized()
      reads this
    {
      SizedAs(freeIndex, blocks, |bitmap|, bitmapBlocks)
    }

    constructor (blocks: nat)
      ensures Sized() && State() == Init(blocks)
    {
      this.blocks, freeBlocks := blocks, blocks;
      bitmapBlocks := (blocks + 4095) / 4096;
      freeIndex := 0;
      var size := (blocks + 4095) / 4096 * 512;
      var bits: seq<bv8> := seq(blocks / 8, _ => 0xff);
      if blocks % 16 != 0 {
        bits := bits + [TailByte(blocks % 16)];
      }
      bitmap := bits + seq(size - |bits|, _ => 0);
      new;
      InitSize(blocks);
      assert bitmap == Init(blocks).bits;
    }

    lemma ByteInRange(block: nat)
      requires Sized() && block < blocks
      ensures block / 8 < MaxIndex(blocks) <= |bitmap|
    {
    }

    method FreeBlock(block: nat)
      requires Sized()
      modifies this
      ensures Sized() && State() == BitmapSpec.FreeBlock(old(State()), block)
    {
      hide SizedAs, MaxIndex, Bit, ClearBit, SetBit;
      if block >= blocks {
        return;
      }
      ByteInRange(block);
      var index := block / 8;
      var offset := block % 8;
      var tmp := bitmap[index];
      if !Bit(tmp, offset) {
        SetByte(index, SetBit(tmp, offset), 1);
      }
    }

    method AllocBlockAt(block: nat) returns (r: int)
      requires Sized()
      modifies this
      ensures Sized() && State() == AllocAt(old(State()), block).0 && r == AllocAt(old(State()), block).1
    {
      hide SizedAs, MaxIndex, Bit, ClearBit, SetBit;
      if block >= blocks {
        return -1;
      }
      ByteInRange(block);
      var index := block / 8;
      var offset := block % 8;
      var tmp := bitmap[index];
      if Bit(tmp, offset) {
        SetByte(index, ClearBit(tmp, offset), -1);
        return block;
      }
      return -1;
    }

    /** Stores a bitmap byte and adjusts the count of free blocks. */
    method SetByte(index: nat, value: bv8, delta: int)
      requires Sized() && index < |bitmap|
      modifies this
      ensures Sized()
      ensures State() == old(State()).(bits := old(bitmap)[index := value], freeBlocks := old(freeBlocks) + delta)
    {
      hide SizedAs;
      freeBlocks := freeBlocks + delta;
      bitmap := bitmap[index := value];
    }

    method AllocBlock() returns (r: int)
      requires Sized()
      modifies this
      ensures Sized() && (State(), r) == Alloc(old(State()))
    {
      if freeBlocks == 0 {
        return -1;
      }
      var start := freeIndex;
      var maxIndex := (blocks + 7) / 8;
      for index := start to maxIndex
        invariant State() == old(State())
        invariant FirstByte(bitmap, start, maxIndex) == FirstByte(bitmap, index, maxIndex)
      {
        if bitmap[index] != 0 {
          r := TakeFirst(index);
          return;
        }
      }
      for index := 0 to start
        invariant State() == old(State())
        invariant FirstByte(bitmap, 0, start) == FirstByte(bitmap, index, start)
      {
        if bitmap[index] != 0 {
          r := TakeFirst(index);
          return;
        }
      }
      // unreachable on a valid bitmap: see ScanFinds
      return -1;
    }

    /** The loop over the bits of a nonzero byte, which both scans of allocBlock() contain. */
    method TakeFirst(index: nat) returns (r: int)
      requires Sized() && index < MaxIndex(blocks) && bitmap[index] != 0
      modifies this
      ensures Sized() && (State(), r) == TakeIn(old(State()), index)
    {
      var tmp := bitmap[index];
      var offset, mask := FindBit(tmp);
      hide SizedAs, MaxIndex, FirstBit, Bit;
      freeIndex := index;
      bitmap := bitmap[index := tmp & !mask];
      freeBlocks := freeBlocks - 1;
      r := index * 8 + offset;
      assert r / 8 == index && r % 8 == offset;
    }

    /** The bit the loop stops at; its mask is 0x80 shifted right once per step. */
    method FindBit(tmp: bv8) returns (offset: nat, mask: bv8)
      requires tmp != 0
      ensures offset == FirstBit(tmp, 0) < 8 && mask == Mask(offset)
    {
      mask := 0x80;
      FirstBitExists(tmp);
      offset := 0;
      while tmp & mask == 0
        invariant offset < 8 && mask == Mask(offset) && FirstBit(tmp, 0) == FirstBit(tmp, offset) < 8
        decreases 8 - offset
      {
        if offset < 7 {
          MaskShift(offset);
        }
        mask := mask >> 1;
        offset := offset + 1;
      }
    }
  }
}
