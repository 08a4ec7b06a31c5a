/** The nibble adaptor: scanning an image, and reading and writing sectors in place. */
module NibbleAdaptor {
  import opened Blocks
  import opened NibbleCodes
  import opened NibbleField
  import opened NibbleImage

  datatype Status =
    | InvalidTrackSector
    | PastIndex  // a pair the range check admits but the table of 560 does not hold, such as track 35
    | MissingSector
    | InvalidEncoding
    | Done(checksumOk: bool)  // a checksum mismatch is only reported

  class NibbleAdaptor {
    const address: array<byte>
    const index: seq<nat>

    ghost predicate Valid()
      reads address
    {
      0 < address.Length <= MAX_IMAGE && |index| == SLOTS && forall s :: 0 <= s < SLOTS ==> index[s] < WORD32
    }

    constructor (address: array<byte>, index: seq<nat>)
      ensures this.address == address && this.index == index
    {
      this.address, this.index := address, index;
    }

    /** FindByte for 0xd5: the first at or after offset, -1 if there is none. */
    static method FindByte(address: array<byte>, offset: nat) returns (r: int)
      ensures r == if FindD5(address[..], offset) < address.Length then FindD5(address[..], offset) else -1
    {
      if offset >= address.Length {
        return -1;
      }
      for i := offset to address.Length
        invariant FindD5(address[..], offset) == FindD5(address[..], i)
      {
        if address[i] == 0xd5 {
          return i;
        }
      }
      return -1;
    }

    /** The constructor's scan: the index it builds, or the reason it throws. */
    static method ScanImage(address: array<byte>) returns (r: Scanned)
      requires address.Length <= MAX_IMAGE
      ensures r == Scan(address[..])
    {
      hide FindD5, ScanStep, ScanEnd;
      ghost var img := address[..];
      var index: seq<nat> := seq(SLOTS, _ => MISSING);
      var armed := No;
      var next := 0;
      while true
        invariant img == address[..]
        invariant ScanFrom(img, next, armed, index) == Scan(img)
        decreases address.Length - next
      {
        var offset := FindByte(address, next);
        if offset < 0 {
          break;
        }
        assert offset == FindD5(img, next) >= next;
        var step := ScanByte(address, offset, armed, index);
        if step.Stop? {
          return step.result;
        }
        next, armed, index := step.offset, step.armed, step.index;
      }
      r := ScanWrap(address, armed, index);
    }

    /** The body of the scan's loop, at a byte 0xd5: the new offset, state and index, or the exception. */
    static method ScanByte(address: array<byte>, offset: nat, armed: Armed, index: seq<nat>) returns (step: Step)
      requires offset < address.Length
      ensures step == ScanStep(address[..], offset, armed, index)
    {
      hide Xor, Decode44;
      if Get(address, offset + 1) == 0xaa && Get(address, offset + 2) == 0x96
        && Get(address, offset + 11) == 0xde && Get(address, offset + 12) == 0xaa
      {
        var volume := Get44(address, offset, 0);
        var track := Get44(address, offset, 1);
        var sector := Get44(address, offset, 2);
        var checksum := Get44(address, offset, 3);
        hide AddressValue;
        if Xor(Xor(Xor(volume, track), sector), checksum) != 0 {
          return Stop(BadChecksum);
        }
        if track > 35 || sector > 16 {
          return Stop(BadTrackSector);
        }
        return Go(offset + 3 + 8 + 3, Yes(track, sector), index);
      }
      if Get(address, offset + 1) == 0xaa && Get(address, offset + 2) == 0xad && armed.Yes? {
        var slot := armed.track * 16 + armed.sector;
        if slot >= |index| {
          return Stop(IndexOverflow);
        }
        return Go(offset + 1, No, index[slot := (offset + 3) % address.Length]);
      }
      return Go(offset + 1, armed, index);
    }

    /** A possible wrap-around after the loop. */
    static method ScanWrap(address: array<byte>, armed: Armed, index: seq<nat>) returns (r: Scanned)
      ensures r == ScanEnd(address[..], armed, index)
    {
      if armed.Yes? {
        var offset := FindByte(address, 0);
        if offset >= 0 && Get(address, offset + 1) == 0xaa && Get(address, offset + 2) == 0xad {
          var slot := armed.track * 16 + armed.sector;
          if slot >= |index| {
            return IndexOverflow;
          }
          return Index(index[slot := (offset + 3) % address.Length]);
        }
      }
      return Index(index);
    }

    /** buffer[i] */
    static function Get(address: array<byte>, i: nat): (x: byte)
      requires 0 < address.Length
      reads address
      ensures x == At(address[..], i)
    {
      address[Circ(i, address.Length)]
    }

    static function Get44(address: array<byte>, p: nat, n: nat): (x: byte)
      requires p < address.Length && n < 4
      reads address
      ensures x == AddressValue(address[..], p, n)
    {
      Decode44(Get(address, p + 3 + 2 * n), Get(address, p + 4 + 2 * n))
    }

    method ReadTrackSector(track: nat, sector: nat, bp: array<byte>) returns (status: Status)
      requires Valid() && bp.Length == 256 && bp != address
      modifies bp
      ensures status.InvalidTrackSector? <==> track > 35 || sector > 16
      ensures status.PastIndex? <==> track <= 35 && sector <= 16 && track * 16 + sector >= SLOTS
      ensures !status.InvalidTrackSector? && !status.PastIndex? ==>
        (status.MissingSector? <==> index[track * 16 + sector] == MISSING)
      ensures (status.Done? || status.InvalidEncoding?) ==>
        var f := FieldAt(address[..], index[track * 16 + sector]);
        && (status.Done? <==> AllNibbles(f))
        && (status.Done? ==> bp[..] == Decoded(f) && status.checksumOk == ChecksumOk(f))
    {
      if track > 35 || sector > 16 {
        return InvalidTrackSector;
      }
      if track * 16 + sector >= SLOTS {
        return PastIndex;
      }
      var offset := index[track * 16 + sector];
      if offset == MISSING {
        return MissingSector;
      }
      hide Decoded, Running, Decode62, ChecksumOk, AllNibbles, IsNibble, Pos;
      ghost var f := FieldAt(address[..], offset);
      FieldParts(f);
      var bits := new byte[AUX * 3];
      var ok, checksum := ReadAux(offset, bits, f);
      if !ok {
        return InvalidEncoding;
      }
      ok, checksum := ReadMain(offset, bits, checksum, bp, f);
      if !ok {
        return InvalidEncoding;
      }
      var x := ReadByte(offset, SIX);
      if Decode62(x) == INVALID {
        return InvalidEncoding;
      }
      return Done(checksum == Decode62(x));
    }

    /** buffer[index++] */
    method ReadByte(offset: nat, k: nat) returns (x: byte)
      requires Valid() && k < FIELD
      ensures x == FieldAt(address[..], offset)[k]
    {
      x := address[Pos(offset, k, address.Length)];
    }

    /** The first 86 bytes: two low bits of three sector bytes each. */
    method ReadAux(offset: nat, bits: array<byte>, ghost f: seq<byte>) returns (ok: bool, checksum: byte)
      requires Valid() && bits.Length == AUX * 3 && bits != address && f == FieldAt(address[..], offset)
      modifies bits
      ensures ok <==> AllNibbles(f[..AUX])
      ensures ok ==> checksum == Running(f, AUX - 1)
      ensures ok ==> forall i :: 0 <= i < 256 ==> bits[i] == LowBits(f, i)
    {
      hide Decode62, Running, Xor;
      checksum := 0;
      for i := 0 to AUX
        invariant f == FieldAt(address[..], offset)
        invariant AllNibbles(f[..i]) && checksum < 64
        invariant checksum == if i == 0 then 0 else Running(f, i - 1)
        invariant forall j, s :: 0 <= j < i && 0 <= s < 3 ==> bits[j + AUX * s] == Rev(Running(f, j) / Scale(s) % 4)
      {
        var x := ReadByte(offset, i);
        x := Decode62(x);
        if x == INVALID {
          assert !IsNibble(f[..AUX][i]);
          return false, checksum;
        }
        RunningStep(f, i);
        checksum := Xor(checksum, x);
        bits[i + AUX * 0] := Rev(checksum % 4);
        bits[i + AUX * 1] := Rev(checksum / 4 % 4);
        bits[i + AUX * 2] := Rev(checksum / 16 % 4);
      }
      ok := true;
      forall i | 0 <= i < 256 ensures bits[i] == LowBits(f, i) {
        assert i % AUX + AUX * (i / AUX) == i;
      }
    }

    /** The remaining 256 bytes: the six high bits of each sector byte. */
    method ReadMain(offset: nat, bits: array<byte>, start: byte, bp: array<byte>, ghost f: seq<byte>)
      returns (ok: bool, checksum: byte)
      requires Valid() && bits.Length == AUX * 3 && bp.Length == 256 && bp != address && bp != bits
      requires f == FieldAt(address[..], offset) && AllNibbles(f[..AUX]) && start == Running(f, AUX - 1)
      requires forall i :: 0 <= i < 256 ==> bits[i] == LowBits(f, i)
      modifies bp
      ensures ok <==> AllNibbles(f[..SIX])
      ensures ok ==> checksum == Running(f, SIX - 1) && bp[..] == Decoded(f)
    {
      hide Decode62, Running, Xor, Or, LowBits, DecodedByte, AllNibbles;
      checksum := start;
      for i := 0 to 256
        invariant f == FieldAt(address[..], offset)
        invariant AllNibbles(f[..AUX + i]) && checksum == Running(f, AUX + i - 1)
        invariant forall j :: 0 <= j < 256 ==> bits[j] == LowBits(f, j)
        invariant forall j :: 0 <= j < i ==> bp[j] == DecodedByte(f, j)
      {
        var x := ReadByte(offset, AUX + i);
        x := Decode62(x);
        NibblesStep(f, AUX + i, SIX);
        if x == INVALID {
          return false, checksum;
        }
        RunningStep(f, AUX + i);
        MainByte(f, i);
        checksum := Xor(checksum, x);
        bp[i] := Or(checksum * 4 % 256, bits[i]);
      }
      ok := true;
      DecodedFrom(f, bp[..]);
    }

    method WriteTrackSector(track: nat, sector: nat, bp: array<byte>) returns (status: Status)
      requires Valid() && bp.Length == 256 && bp != address
      modifies address
      ensures status ==
        if track > 35 || sector > 16 then InvalidTrackSector
        else if track * 16 + sector >= SLOTS then PastIndex
        else Done(true)
      ensures status.Done? ==>
        address[..] == WriteField(old(address[..]), index[track * 16 + sector], Field(bp[..]))
      ensures !status.Done? ==> address[..] == old(address[..])
    {
      if track > 35 || sector > 16 {
        return InvalidTrackSector;
      }
      if track * 16 + sector >= SLOTS {
        return PastIndex;
      }
      hide Field, Encode62, AuxValues, StoreFrom, Pos;
      var auxBuffer := PackAux(bp);
      var offset := index[track * 16 + sector];
      ghost var data: Sector := bp[..];
      var checksum := WriteAux(offset, auxBuffer, data);
      checksum := WriteMain(offset, bp, checksum, data);
      LastByte(data);
      PutByte(offset, SIX, Encode62(checksum), Field(data));
      Stored(address[..], offset, Field(data));
      return Done(true);
    }

    /** The first 86 bytes of the field. */
    method WriteAux(offset: nat, auxBuffer: array<byte>, ghost data: Sector) returns (checksum: byte)
      requires Valid() && auxBuffer != address && auxBuffer[..] == AuxValues(data)
      modifies address
      ensures checksum == Six(data, AUX - 1)
      ensures StoreFrom(address[..], offset, Field(data), AUX) == StoreFrom(old(address[..]), offset, Field(data), 0)
    {
      hide Field, Encode62, Aux, StoreFrom;
      checksum := 0;
      for i := 0 to AUX
        invariant auxBuffer[..] == AuxValues(data)
        invariant checksum == if i == 0 then 0 else Six(data, i - 1)
        invariant
          StoreFrom(address[..], offset, Field(data), i) == StoreFrom(old(address[..]), offset, Field(data), 0)
      {
        checksum := PutSix(offset, i, auxBuffer[i], checksum, data);
      }
    }

    /** The next 256. */
    method WriteMain(offset: nat, bp: array<byte>, start: byte, ghost data: Sector) returns (checksum: byte)
      requires Valid() && bp != address && bp[..] == data && start == Six(data, AUX - 1)
      modifies address
      ensures checksum == Six(data, SIX - 1)
      ensures StoreFrom(address[..], offset, Field(data), SIX) == StoreFrom(old(address[..]), offset, Field(data), AUX)
    {
      hide Field, Encode62, Aux, StoreFrom;
      checksum := start;
      for i := 0 to 256
        invariant bp[..] == data && checksum == Six(data, AUX + i - 1)
        invariant
          StoreFrom(address[..], offset, Field(data), AUX + i) == StoreFrom(old(address[..]), offset, Field(data), AUX)
      {
        checksum := PutSix(offset, AUX + i, bp[i] / 4, checksum, data);
      }
    }

    /** Encodes x xored with the value before it, as byte k of the field; x becomes the new checksum. */
    method PutSix(offset: nat, k: nat, x: byte, checksum: byte, ghost data: Sector) returns (next: byte)
      requires Valid() && k < SIX && x == Six(data, k) && checksum == if k == 0 then 0 else Six(data, k - 1)
      modifies address
      ensures next == Six(data, k)
      ensures StoreFrom(address[..], offset, Field(data), k + 1) == StoreFrom(old(address[..]), offset, Field(data), k)
    {
      SixXor(x, checksum);
      PutByte(offset, k, Encode62(Xor(x, checksum)), Field(data));
      next := x;
    }

    method PutByte(offset: nat, k: nat, x: byte, ghost f: seq<byte>)
      requires Valid() && |f| == FIELD && k < FIELD && f[k] == x
      modifies address
      ensures StoreFrom(address[..], offset, f, k + 1) == StoreFrom(old(address[..]), offset, f, k)
    {
      address[Pos(offset, k, address.Length)] := x;
      assert address[..] == old(address[..])[Pos(offset, k, address.Length) := f[k]];
    }

    /** The auxiliary buffer: three passes over the sector, each or-ing two more bits into every entry. */
    method PackAux(bp: array<byte>) returns (auxBuffer: array<byte>)
      requires bp.Length == 256
      ensures fresh(auxBuffer) && auxBuffer[..] == AuxValues(bp[..])
    {
      hide AuxUpTo, Low, Or, Pow2;
      ghost var data: Sector := bp[..];
      auxBuffer := new byte[AUX](_ => 0);
      AuxEnds(data);
      var j, shift := 0, 0;
      for i := 0 to 256
        invariant bp[..] == data && j == i % AUX && shift == 2 * (i / AUX)
        invariant forall q :: 0 <= q < AUX ==> auxBuffer[q] == AuxUpTo(data, q, i)
      {
        var y := Rev(bp[i] % 4);
        AuxNext(data, i);
        OrDisjoint(auxBuffer[j], y, shift);
        auxBuffer[j] := Or(auxBuffer[j], y * Pow2(shift));
        j := j + 1;
        if j == AUX {
          j := 0;
          shift := shift + 2;
        }
        forall q | 0 <= q < AUX ensures auxBuffer[q] == AuxUpTo(data, q, i + 1) {
          AuxOther(data, q, i);
        }
      }
    }
  }

  lemma {:induction false} RunningStep(f: seq<byte>, k: nat)
    requires k < |f| && IsNibble(f[k])
    ensures Running(f, k) == Xor(if k == 0 then 0 else Running(f, k - 1), Decode62(f[k]))
  {
  }

  lemma {:induction false} LastByte(data: Sector)
    ensures Field(data)[SIX] == Encode62(Six(data, SIX - 1))
  {
    hide Six, Encode62;
  }

  lemma {:induction false} Stored(img: seq<byte>, offset: nat, f: seq<byte>)
    requires img != [] && |f| == FIELD
    ensures StoreFrom(img, offset, f, FIELD) == img
  {
  }

  lemma {:induction false} FieldParts(f: seq<byte>)
    requires |f| == FIELD
    ensures AllNibbles(f) <==> AllNibbles(f[..SIX]) && Decode62(f[SIX]) != INVALID
    ensures AllNibbles(f[..SIX]) ==> AllNibbles(f[..AUX])
    ensures ChecksumOk(f) <==> Running(f, SIX - 1) == Decode62(f[SIX])
  {
    hide Decode62, Running;
    assert forall k :: 0 <= k < SIX ==> f[..SIX][k] == f[k];
    assert forall k :: 0 <= k < AUX ==> f[..AUX][k] == f[..SIX][k];
  }

  lemma {:induction false} NibblesStep(f: seq<byte>, k: nat, end: nat)
    requires k < end <= |f| && AllNibbles(f[..k])
    ensures AllNibbles(f[..k + 1]) <==> Decode62(f[k]) != INVALID
    ensures Decode62(f[k]) == INVALID ==> !IsNibble(f[k]) && !AllNibbles(f[..end])
  {
    hide Decode62;
    assert f[..end][k] == f[..k + 1][k] == f[k];
  }

  lemma {:induction false} MainByte(f: seq<byte>, i: nat)
    requires i < 256 && |f| == FIELD
    ensures Or(Running(f, AUX + i) * 4 % 256, LowBits(f, i)) == DecodedByte(f, i)
  {
    hide Running, LowBits, Or;
    assert Pow2(2) == 4;
    hide Pow2;
    OrDisjoint(LowBits(f, i), Running(f, AUX + i), 2);
  }

  lemma {:induction false} DecodedFrom(f: seq<byte>, data: seq<byte>)
    requires |f| == FIELD && |data| == 256 && forall j :: 0 <= j < 256 ==> data[j] == DecodedByte(f, j)
    ensures data == Decoded(f)
  {
    hide DecodedByte;
  }

  function AuxValues(data: Sector): (r: seq<byte>)
    ensures |r| == AUX
  {
    seq(AUX, j requires 0 <= j < AUX => Aux(data, j))
  }

  /** Entry q of the auxiliary buffer after the first i bytes of the sector. */
  function AuxUpTo(data: Sector, q: nat, i: nat): (r: nat)
    requires q < AUX && i <= 256
    ensures r < 64
  {
    (if q < i then Low(data, q, 0) else 0)
    + 4 * (if q + AUX < i then Low(data, q, 1) else 0)
    + 16 * (if q + 2 * AUX < i then Low(data, q, 2) else 0)
  }

  lemma {:induction false} AuxEnds(data: Sector)
    ensures forall q :: 0 <= q < AUX ==> AuxUpTo(data, q, 0) == 0 && AuxUpTo(data, q, 256) == Aux(data, q)
  {
  }

  lemma {:induction false} AuxNext(data: Sector, i: nat)
    requires i < 256
    ensures var q, s := i % AUX, 2 * (i / AUX);
      && AuxUpTo(data, q, i) < Pow2(s)
      && AuxUpTo(data, q, i + 1) == AuxUpTo(data, q, i) + Rev(data[i] % 4) * Pow2(s)
  {
    var q, s := i % AUX, i / AUX;
    assert i == q + AUX * s && s < 3 && Low(data, q, s) == Rev(data[i] % 4);
    assert Pow2(0) == 1 && Pow2(2) == 4 && Pow2(4) == 16 by {
      assert Pow2(1) == 2 && Pow2(3) == 8;
    }
  }

  lemma {:induction false} AuxOther(data: Sector, q: nat, i: nat)
    requires i < 256 && q < AUX
    ensures q != i % AUX ==> AuxUpTo(data, q, i + 1) == AuxUpTo(data, q, i)
  {
    assert i == i % AUX + AUX * (i / AUX) && i / AUX < 3;
  }
}
