/** A nibble image as a disk of sectors: over every run of writes it behaves like a table of sectors. */
module NibbleDisk {
  import opened Blocks
  import opened NibbleCodes
  import opened NibbleField
  import opened NibbleImage

  /** Every sector in the index has a field of table bytes behind a data marker. */
  ghost predicate WellFormed(img: seq<byte>, index: seq<nat>) {
    && FIELD <= |img| <= MAX_IMAGE
    && forall s :: 0 <= s < |index| && index[s] != MISSING ==> FieldOk(img, index[s])
  }

  function WriteSector(img: seq<byte>, index: seq<nat>, slot: nat, data: Sector): (r: seq<byte>)
    requires img != [] && slot < |index|
    ensures |r| == |img|
  {
    WriteField(img, index[slot], Field(data))
  }

  function ReadSector(img: seq<byte>, index: seq<nat>, slot: nat): Sector
    requires img != [] && slot < |index|
  {
    Decoded(FieldAt(img, index[slot]))
  }

  /** Another field's write leaves a field behind its marker, with the bytes it had. */
  lemma {:induction false} OtherFieldOk(img: seq<byte>, o: nat, f: seq<byte>, o': nat)
    requires FieldOk(img, o) && FieldOk(img, o') && DisjointFields(o, o', |img|) && |f| == FIELD && AllNibbles(f)
    ensures FieldOk(WriteField(img, o, f), o')
  {
    var b := WriteField(img, o, f);
    ReadOtherField(img, o, f, o');
    forall i: nat | 1 <= i <= 3 ensures b[Before(o', i, |img|)] == img[Before(o', i, |img|)] {
      MarkerByteOutside(img, o, o', i);
      WriteFieldAt(img, o, f, Before(o', i, |img|));
    }
  }

  /** A marker byte of one field never lies inside another field. */
  lemma {:induction false} MarkerByteOutside(img: seq<byte>, o: nat, o': nat, i: nat)
    requires FieldOk(img, o) && FieldOk(img, o') && DisjointFields(o, o', |img|) && 1 <= i <= 3
    ensures !InField(o, Before(o', i, |img|), |img|)
  {
    var p := Before(o', i, |img|);
    if InField(o, p, |img|) {
      if i == 1 {
        // the byte 0xad is a table byte, but its neighbours 0xaa and the first byte of o' are not both inside
        var q := Before(o', 2, |img|);
        if InField(o, q, |img|) {
          NibbleInField(img, o, q);
        }
        assert Dist(o, p, |img|) == 0;
        assert p == o;
        assert Dist(o, o', |img|) == 1;
        assert InField(o', o', |img|);
      } else {
        NibbleInField(img, o, p);
      }
    }
  }

  /** One write: the rescan finds the same index, the sector reads as written and all others as before. */
  lemma {:induction false} WriteKeeps(img: seq<byte>, index: seq<nat>, slot: nat, data: Sector)
    requires WellFormed(img, index) && Scan(img) == Index(index) && slot < |index| && index[slot] != MISSING
    ensures var b := WriteSector(img, index, slot, data);
      && WellFormed(b, index) && Scan(b) == Index(index)
      && ReadSector(b, index, slot) == data && ChecksumOk(FieldAt(b, index[slot]))
      && forall t :: 0 <= t < |index| && t != slot && index[t] != MISSING ==>
        FieldAt(b, index[t]) == FieldAt(img, index[t])
  {
    hide Scan, Field, FieldOk, WriteField, Decoded, ChecksumOk, AllNibbles, FieldAt, Fits;
    var f := Field(data);
    var b := WriteSector(img, index, slot, data);
    DecodeField(data);
    OwnFieldWritten(img, index[slot], f);
    ScanDistinct(img);
    forall t | 0 <= t < |index| && t != slot && index[t] != MISSING
      ensures FieldOk(b, index[t]) && FieldAt(b, index[t]) == FieldAt(img, index[t])
    {
      OtherField(img, index[slot], f, index[t]);
    }
  }

  lemma {:induction false} OwnFieldWritten(img: seq<byte>, o: nat, f: seq<byte>)
    requires FieldOk(img, o) && |f| == FIELD && AllNibbles(f)
    ensures var b := WriteField(img, o, f); FieldAt(b, o) == f && Scan(b) == Scan(img) && FieldOk(b, o)
  {
    ReadOwnField(img, o, f);
    ScanSurvivesWrite(img, o, f);
  }

  lemma {:induction false} OtherField(img: seq<byte>, o: nat, f: seq<byte>, o': nat)
    requires FieldOk(img, o) && FieldOk(img, o') && o != o' && |f| == FIELD && AllNibbles(f)
    ensures FieldOk(WriteField(img, o, f), o') && FieldAt(WriteField(img, o, f), o') == FieldAt(img, o')
  {
    FieldsApart(img, o, o');
    OtherFieldOk(img, o, f, o');
    ReadOtherField(img, o, f, o');
  }

  // ---------------------------------------------------------------- whole runs

  datatype WriteOp = WriteOp(slot: nat, data: Sector)

  predicate Present(index: seq<nat>, ops: seq<WriteOp>) {
    forall k :: 0 <= k < |ops| ==> ops[k].slot < |index| && index[ops[k].slot] != MISSING
  }

  function WriteAll(img: seq<byte>, index: seq<nat>, ops: seq<WriteOp>): (r: seq<byte>)
    requires img != [] && Present(index, ops)
    ensures |r| == |img|
    decreases |ops|
  {
    if ops == [] then img else WriteAll(WriteSector(img, index, ops[0].slot, ops[0].data), index, ops[1..])
  }

  /** The last data written to the slot, or what was there. */
  function LastWritten(ops: seq<WriteOp>, slot: nat, initial: Sector): Sector
    decreases |ops|
  {
    if ops == [] then initial
    else LastWritten(ops[1..], slot, if ops[0].slot == slot then ops[0].data else initial)
  }

  /**
   After any run of sector writes a rescan finds the same index, and every sector reads as the last data
   written to it, or as at the start if it was not written.
   */
  lemma {:induction false} RunOfWrites(img: seq<byte>, index: seq<nat>, ops: seq<WriteOp>, slot: nat)
    requires WellFormed(img, index) && Scan(img) == Index(index) && Present(index, ops) && img != []
    requires slot < |index| && index[slot] != MISSING
    ensures var b := WriteAll(img, index, ops);
      && WellFormed(b, index) && Scan(b) == Index(index)
      && ReadSector(b, index, slot) == LastWritten(ops, slot, ReadSector(img, index, slot))
    decreases |ops|
  {
    hide WellFormed, Scan, WriteSector, ReadSector, Present;
    if ops != [] {
      FirstPresent(index, ops);
      WriteStep(img, index, ops[0].slot, ops[0].data, slot);
      RunOfWrites(WriteSector(img, index, ops[0].slot, ops[0].data), index, ops[1..], slot);
    }
  }

  lemma {:induction false} FirstPresent(index: seq<nat>, ops: seq<WriteOp>)
    requires Present(index, ops) && ops != []
    ensures ops[0].slot < |index| && index[ops[0].slot] != MISSING && Present(index, ops[1..])
  {
  }

  lemma {:induction false} WriteStep(img: seq<byte>, index: seq<nat>, written: nat, data: Sector, slot: nat)
    requires WellFormed(img, index) && Scan(img) == Index(index) && img != []
    requires written < |index| && index[written] != MISSING && slot < |index| && index[slot] != MISSING
    ensures var b := WriteSector(img, index, written, data);
      && WellFormed(b, index) && Scan(b) == Index(index)
      && ReadSector(b, index, slot) == if written == slot then data else ReadSector(img, index, slot)
  {
    WriteKeeps(img, index, written, data);
    hide Scan, WellFormed, WriteSector, ChecksumOk;
  }

  // ---------------------------------------------------------------- sectors the index lacks

  lemma {:induction false} StoreMissing(img: seq<byte>, f: seq<byte>, k: nat, p: nat)
    requires FIELD <= |img| <= MAX_IMAGE && |f| == FIELD && 1 <= k <= FIELD && p < SIX
    ensures StoreFrom(img, MISSING, f, k)[p] == if k <= p + 1 then f[p + 1] else img[p]
    decreases FIELD - k
  {
    if k < FIELD {
      assert Pos(MISSING, k, |img|) == k - 1;
      StoreMissing(img[k - 1 := f[k]], f, k + 1, p);
    }
  }

  /** A write to a missing sector overwrites the first 342 bytes of the image. */
  lemma {:induction false} MissingWriteHitsStart(img: seq<byte>, f: seq<byte>, p: nat)
    requires FIELD <= |img| <= MAX_IMAGE && |f| == FIELD && p < SIX
    ensures WriteField(img, MISSING, f)[p] == f[p + 1]
  {
    StoreMissing(img[Pos(MISSING, 0, |img|) := f[0]], f, 1, p);
  }

  /** The positions of the slot's own field; a slot the index lacks has none. */
  predicate OwnField(index: seq<nat>, slot: nat, p: nat, length: nat)
    requires slot < |index|
  {
    index[slot] != MISSING && InField(index[slot], p, length)
  }

  /** Two sectors whose fields differ in the byte that lands at the start of the image. */
  function NoOnes(): Sector {
    seq(256, _ => 0)
  }

  function OneOne(): Sector {
    NoOnes()[1 := 1]
  }

  lemma {:induction false} SecondByte(data: Sector)
    requires Six(data, 0) == 0 && Xor(Six(data, 1), 0) == Six(data, 1)
    ensures Field(data)[1] == Encode62(Six(data, 1))
  {
    hide Encode62, Six, Xor;
    assert Field(data)[1] == FieldByte(data, 1);
  }

  lemma {:induction false} LowBitsOnly(data: Sector, j: nat)
    requires j < 2 && data[j + AUX] == 0 && data[j + 2 * AUX] == 0 && data[j] < 4
    ensures Six(data, j) == Rev(data[j])
  {
  }

  lemma {:induction false} SmallSixes()
    ensures Six(NoOnes(), 0) == 0 && Six(NoOnes(), 1) == 0 && Six(OneOne(), 0) == 0 && Six(OneOne(), 1) == 2
  {
    hide Six;
    var a, b := NoOnes(), OneOne();
    LowBitsOnly(a, 0);
    LowBitsOnly(a, 1);
    LowBitsOnly(b, 0);
    LowBitsOnly(b, 1);
  }

  lemma {:induction false} SmallXors()
    ensures Xor(0, 0) == 0 && Xor(2, 0) == 2
  {
    assert Xor(1, 0) == 1;
  }

  lemma {:induction false} TwoFields()
    ensures Field(NoOnes())[1] == 0x96 && Field(OneOne())[1] == 0x9a
  {
    SmallSixes();
    SmallXors();
    hide Six, Xor, NoOnes, OneOne;
    SecondByte(NoOnes());
    SecondByte(OneOne());
    hide Field;
  }

  lemma {:induction false} MissingFirstByte(img: seq<byte>, index: seq<nat>, slot: nat, data: Sector)
    requires FIELD <= |img| <= MAX_IMAGE && slot < |index| && index[slot] == MISSING
    ensures WriteSector(img, index, slot, data)[0] == Field(data)[1]
  {
    hide Field, WriteField;
    MissingWriteHitsStart(img, Field(data), 0);
  }

  /**
   A sector write, which does not check for a sector the index lacks, leaves every byte outside the sector's own
   field alone, whatever the data, exactly if the index has the sector.
   */
  lemma {:induction false} MissingWriteExactly(img: seq<byte>, index: seq<nat>, slot: nat)
    requires WellFormed(img, index) && slot < |index|
    ensures index[slot] != MISSING <==>
      forall data: Sector, p: nat :: p < |img| && !OwnField(index, slot, p, |img|) ==>
        WriteSector(img, index, slot, data)[p] == img[p]
  {
    hide Field, WriteField;
    if index[slot] != MISSING {
      forall data: Sector, p: nat | p < |img| && !OwnField(index, slot, p, |img|)
        ensures WriteSector(img, index, slot, data)[p] == img[p]
      {
        WriteFieldAt(img, index[slot], Field(data), p);
      }
    } else {
      TwoFields();
      MissingFirstByte(img, index, slot, NoOnes());
      MissingFirstByte(img, index, slot, OneOne());
      assert WriteSector(img, index, slot, NoOnes())[0] != WriteSector(img, index, slot, OneOne())[0];
      assert !OwnField(index, slot, 0, |img|);
    }
  }

  /** An image of zeros: the scan finds no sector, and writing sector 0 of track 0 still changes its first byte. */
  lemma {:induction false} MissingWriteExample(n: nat)
    requires FIELD <= n <= MAX_IMAGE
    ensures var img: seq<byte>, none: seq<nat> := seq(n, _ => 0), seq(SLOTS, _ => MISSING);
      && Scan(img) == Index(none) && WellFormed(img, none)
      && img[0] == 0 && WriteSector(img, none, 0, NoOnes())[0] == 0x96
  {
    var img: seq<byte>, none: seq<nat> := seq(n, _ => 0), seq(SLOTS, _ => MISSING);
    hide Field, WriteSector, Scan, NoOnes, FieldOk;
    NothingFound(img, none);
    TwoFields();
    MissingFirstByte(img, none, 0, NoOnes());
  }

  lemma {:induction false} NothingFound(img: seq<byte>, none: seq<nat>)
    requires (forall p :: 0 <= p < |img| ==> img[p] == 0) && none == seq(SLOTS, _ => MISSING)
    ensures Scan(img) == Index(none)
  {
    hide ScanStep, IsData, SetSlot;
    assert FindD5(img, 0) >= |img|;
  }
}
