/**
 What the scan of a nibble image finds, told from the bytes: which address field an offset in the index
 belongs to, and what the scan makes of an image laid out sector by sector.
 */
module NibbleScan {
  import opened Blocks
  import opened NibbleCodes
  import opened NibbleField
  import opened NibbleImage

  // ---------------------------------------------------------------- every offset belongs to an address field

  /** The bytes of a valid address field from position a on, going round: its track and sector have slot s. */
  ghost predicate AddressFor(img: seq<byte>, a: nat, s: nat)
    requires a < |img|
  {
    && img[a] == 0xd5 && At(img, a + 1) == 0xaa && At(img, a + 2) == 0x96
    && At(img, a + 11) == 0xde && At(img, a + 12) == 0xaa
    && var volume, track := Decode44(At(img, a + 3), At(img, a + 4)), Decode44(At(img, a + 5), At(img, a + 6));
    && var sector, check := Decode44(At(img, a + 7), At(img, a + 8)), Decode44(At(img, a + 9), At(img, a + 10));
    && Xor(Xor(Xor(volume, track), sector), check) == 0
    && track <= 35 && sector <= 16 && s == 16 * track + sector
  }

  /** A marker begins at p: d5 aa ad, or d5 aa 96 with the epilogue where an address field has it. */
  predicate Begins(img: seq<byte>, p: nat)
    requires p < |img|
  {
    && img[p] == 0xd5 && At(img, p + 1) == 0xaa
    && (At(img, p + 2) == 0xad || (At(img, p + 2) == 0x96 && At(img, p + 11) == 0xde && At(img, p + 12) == 0xaa))
  }

  ghost predicate Quiet(img: seq<byte>, low: nat, high: nat) {
    forall p :: low <= p < high && p < |img| ==> !Begins(img, p)
  }

  /**
   The offset o lies behind a data marker, and the last marker before that, going round, is the address field at a.
   Going round, the data marker has the first 0xd5 of the image.
   */
  ghost predicate Owns(img: seq<byte>, a: nat, s: nat, o: nat) {
    && 3 <= |img| && a < |img| && o < |img| && AddressFor(img, a, s) && MarkedAt(img, o)
    && var m := Before(o, 3, |img|);
    if a < m then a + 14 <= m && Quiet(img, a + 14, m)
    else m < a && Quiet(img, a + 14, |img|) && forall p :: 0 <= p < m ==> img[p] != 0xd5
  }

  ghost predicate Owned(img: seq<byte>, s: nat, o: nat) {
    exists a :: Owns(img, a, s, o)
  }

  ghost predicate AllOwned(img: seq<byte>, index: seq<nat>) {
    forall s :: 0 <= s < |index| && index[s] != MISSING ==> Owned(img, s, index[s])
  }

  /** The address field at a is the last marker the scan has come by. */
  ghost predicate ArmedBy(img: seq<byte>, armed: Armed, offset: nat, a: nat) {
    armed.Yes? ==>
      && a < |img| && a + 14 <= offset && AddressFor(img, a, 16 * armed.track + armed.sector)
      && Quiet(img, a + 14, offset)
  }

  lemma {:induction false} QuietToD5(img: seq<byte>, low: nat, offset: nat)
    requires Quiet(img, low, offset)
    ensures Quiet(img, low, FindD5(img, offset))
  {
    hide At;
  }

  lemma {:induction false} QuietOne(img: seq<byte>, low: nat, p: nat)
    requires Quiet(img, low, p) && p < |img| && !IsAddress(img, p) && !IsData(img, p)
    ensures Quiet(img, low, p + 1)
  {
    hide At;
  }

  /** An address field the scan accepts. */
  lemma {:induction false} AddressAccepted(img: seq<byte>, p: nat, armed: Armed, index: seq<nat>)
    requires p < |img| && img[p] == 0xd5 && IsAddress(img, p)
    ensures var next := ScanStep(img, p, armed, index);
      match next
      case Stop(r) => r.BadChecksum? || r.BadTrackSector?
      case Go(o, x, i) => o == p + 14 && i == index && x.Yes? && AddressFor(img, p, 16 * x.track + x.sector)
  {
    hide At, Xor, Decode44;
  }

  /** A data marker behind the address field at a. */
  lemma {:induction false} DataRecorded(img: seq<byte>, p: nat, armed: Armed, index: seq<nat>, a: nat)
    requires 3 <= |img| <= MAX_IMAGE && p < |img| && img[p] == 0xd5 && IsData(img, p)
    requires armed.Yes? && AllOwned(img, index)
    requires a < |img| && AddressFor(img, a, 16 * armed.track + armed.sector)
    requires if a < p then a + 14 <= p && Quiet(img, a + 14, p)
      else p < a && Quiet(img, a + 14, |img|) && forall k :: 0 <= k < p ==> img[k] != 0xd5
    ensures var r := SetSlot(index, armed, p, |img|); r.Index? ==> AllOwned(img, r.index)
  {
    MarkerPosition(p, |img|);
    hide Before, Circ, AddressFor, Quiet;
    assert Owns(img, a, 16 * armed.track + armed.sector, (p + 3) % |img|);
    hide Owns;
  }

  lemma {:induction false} StepOwned(img: seq<byte>, p: nat, armed: Armed, index: seq<nat>, a: nat) returns (a': nat)
    requires 3 <= |img| <= MAX_IMAGE && p < |img| && img[p] == 0xd5 && AllOwned(img, index) && ArmedBy(img, armed, p, a)
    ensures match ScanStep(img, p, armed, index)
      case Stop(r) => !r.Index?
      case Go(o, x, i) => o > p && AllOwned(img, i) && ArmedBy(img, x, o, a')
  {
    a' := a;
    if IsAddress(img, p) {
      AddressAccepted(img, p, armed, index);
      a' := p;
      hide ScanStep, AllOwned, AddressFor;
    } else if IsData(img, p) && armed.Yes? {
      DataRecorded(img, p, armed, index, a);
      hide AllOwned, AddressFor, Quiet;
    } else {
      if armed.Yes? {
        QuietOne(img, a + 14, p);
      }
      hide AllOwned, AddressFor, Quiet, IsAddress, IsData;
    }
  }

  lemma {:induction false} ScanFromOwned(img: seq<byte>, offset: nat, armed: Armed, index: seq<nat>, a: nat)
    requires 3 <= |img| <= MAX_IMAGE && AllOwned(img, index) && ArmedBy(img, armed, offset, a)
    ensures var r := ScanFrom(img, offset, armed, index); r.Index? ==> AllOwned(img, r.index)
    decreases |img| - offset
  {
    var p := FindD5(img, offset);
    if armed.Yes? {
      QuietToD5(img, a + 14, offset);
    }
    hide AllOwned, Quiet, AddressFor, ScanStep;
    if p >= |img| {
      EndOwned(img, armed, index, p, a);
      hide ScanEnd;
    } else {
      var a' := StepOwned(img, p, armed, index, a);
      var next := ScanStep(img, p, armed, index);
      if next.Go? {
        ScanFromOwned(img, next.offset, next.armed, next.index, a');
      }
    }
  }

  lemma {:induction false} EndOwned(img: seq<byte>, armed: Armed, index: seq<nat>, high: nat, a: nat)
    requires 3 <= |img| <= MAX_IMAGE && AllOwned(img, index) && ArmedBy(img, armed, high, a) && high >= |img|
    ensures var r := ScanEnd(img, armed, index); r.Index? ==> AllOwned(img, r.index)
  {
    var q := FindD5(img, 0);
    if armed.Yes? && q < |img| && IsData(img, q) {
      assert q <= a;
      DataRecorded(img, q, armed, index, a);
      hide AllOwned;
    }
  }

  /**
   Every offset in the index belongs to an address field. Its bytes 5 and 6 decode to the track, 7 and 8 to the sector,
   the four values xor to zero, and it is the last marker before the data field, going round.
   Sector 16 of one track, which the range check lets pass, has the slot of sector 0 of the next.
   */
  lemma {:induction false} ScanOwned(img: seq<byte>, s: nat)
    requires 3 <= |img| <= MAX_IMAGE && Scan(img).Index? && s < |Scan(img).index| && Scan(img).index[s] != MISSING
    ensures exists a :: Owns(img, a, s, Scan(img).index[s])
  {
    ScanFromOwned(img, 0, No, seq(SLOTS, _ => MISSING), 0);
    assert Owned(img, s, Scan(img).index[s]);
    hide Owns, Scan;
  }

  // ---------------------------------------------------------------- images laid out sector by sector

  function Pair(x: byte): (r: seq<byte>)
    ensures |r| == 2 && Decode44(r[0], r[1]) == x
  {
    Decode44Encode44(x);
    [Encode44(x).0 as byte, Encode44(x).1 as byte]
  }

  /** An address field: prologue, the four values as 4-and-4 pairs, epilogue. */
  function AddressBytes(volume: byte, track: byte, sector: byte, check: byte): (r: seq<byte>)
    ensures |r| == 14
  {
    [0xd5, 0xaa, 0x96] + Pair(volume) + Pair(track) + Pair(sector) + Pair(check) + [0xde, 0xaa, 0xeb]
  }

  /** A data field: prologue, contents, epilogue. */
  function DataBytes(field: seq<byte>): (r: seq<byte>)
    ensures |r| == |field| + 6
  {
    [0xd5, 0xaa, 0xad] + field + [0xde, 0xaa, 0xeb]
  }

  predicate NoD5(s: seq<byte>) {
    forall k :: 0 <= k < |s| ==> s[k] != 0xd5
  }

  /** One sector of an image: the bytes before its address field, the field, those before its data field, and that. */
  datatype Laid = Laid(gap: seq<byte>, volume: byte, track: byte, sector: byte, between: seq<byte>, field: seq<byte>)

  function Check(l: Laid): byte {
    XorByte(XorByte(l.volume, l.track), l.sector)
  }

  function XorByte(x: byte, y: byte): byte {
    assert Pow2(8) == 256 by { assert Pow2(4) == 16; assert Pow2(6) == 64; }
    XorBound(x, y, 8);
    Xor(x, y)
  }

  predicate LaidOk(l: Laid) {
    && NoD5(l.gap) && NoD5(l.between) && NoD5(l.field)
    && l.track <= 35 && l.sector <= 16 && 16 * l.track + l.sector < SLOTS
  }

  function SectorBytes(l: Laid): (r: seq<byte>)
    ensures |r| == |l.gap| + 14 + |l.between| + |l.field| + 6
  {
    l.gap + AddressBytes(l.volume, l.track, l.sector, Check(l)) + l.between + DataBytes(l.field)
  }

  function ImageBytes(list: seq<Laid>): seq<byte> {
    if list == [] then [] else SectorBytes(list[0]) + ImageBytes(list[1..])
  }

  predicate ListOk(list: seq<Laid>) {
    list == [] || (LaidOk(list[0]) && ListOk(list[1..]))
  }

  /** Every sector's slot has the offset of its data field; of two with one slot the later. */
  function OffsetsOf(list: seq<Laid>, at: nat, index: seq<nat>): (r: seq<nat>)
    requires |index| == SLOTS && ListOk(list)
    ensures |r| == SLOTS
    decreases |list|
  {
    if list == [] then index
    else
      var l := list[0];
      OffsetsOf(list[1..], at + |SectorBytes(l)|,
                index[16 * l.track + l.sector := at + |l.gap| + 14 + |l.between| + 3])
  }

  /** The bytes b lie in the image from position o on. */
  predicate LiesAt(img: seq<byte>, o: nat, b: seq<byte>) {
    o + |b| <= |img| && img[o..o + |b|] == b
  }

  lemma {:induction false} LiesAtParts(img: seq<byte>, o: nat, b: seq<byte>, c: seq<byte>)
    requires LiesAt(img, o, b + c)
    ensures LiesAt(img, o, b) && LiesAt(img, o + |b|, c)
  {
    var s := img[o..o + |b + c|];
    assert s[..|b|] == b && s[|b|..] == c;
    assert img[o..o + |b|] == s[..|b|];
    assert img[o + |b|..o + |b| + |c|] == s[|b|..];
  }

  /** Bytes other than 0xd5 are skipped. */
  lemma {:induction false} SkipQuiet(img: seq<byte>, o: nat, end: nat)
    requires o <= end <= |img| && forall p :: o <= p < end ==> img[p] != 0xd5
    ensures FindD5(img, o) == FindD5(img, end)
    decreases end - o
  {
    if o < end {
      SkipQuiet(img, o + 1, end);
    }
  }

  lemma {:induction false} ByteInside(img: seq<byte>, o: nat, b: seq<byte>, k: nat)
    requires LiesAt(img, o, b) && k < |b|
    ensures img[o + k] == b[k]
  {
    assert img[o..o + |b|][k] == img[o + k];
  }

  lemma {:induction false} SmallRest(x: nat, n: nat)
    requires x < n
    ensures x % n == x
  {
  }

  lemma {:induction false} AtInside(img: seq<byte>, o: nat, b: seq<byte>, k: nat)
    requires LiesAt(img, o, b) && k < |b|
    ensures At(img, o + k) == b[k] && img[o + k] == b[k]
  {
    assert img[o..o + |b|][k] == img[o + k];
  }

  lemma {:induction false} SameFind(img: seq<byte>, o: nat, o': nat, armed: Armed, index: seq<nat>)
    requires FindD5(img, o) == FindD5(img, o')
    ensures ScanFrom(img, o, armed, index) == ScanFrom(img, o', armed, index)
  {
    hide FindD5, ScanStep, ScanEnd;
  }

  lemma {:induction false} QuietBytes(img: seq<byte>, o: nat, b: seq<byte>)
    requires LiesAt(img, o, b) && NoD5(b)
    ensures o + |b| <= |img| && forall p :: o <= p < o + |b| ==> img[p] != 0xd5
  {
    forall p | o <= p < o + |b| ensures img[p] != 0xd5 {
      ByteInside(img, o, b, p - o);
    }
  }

  lemma {:induction false} FindSkips(img: seq<byte>, o: nat, b: seq<byte>)
    requires LiesAt(img, o, b) && NoD5(b)
    ensures FindD5(img, o) == FindD5(img, o + |b|)
  {
    hide FindD5, NoD5, LiesAt;
    QuietBytes(img, o, b);
    SkipQuiet(img, o, o + |b|);
  }

  lemma {:induction false} SkipBytes(img: seq<byte>, o: nat, b: seq<byte>, armed: Armed, index: seq<nat>)
    requires LiesAt(img, o, b) && NoD5(b)
    ensures ScanFrom(img, o, armed, index) == ScanFrom(img, o + |b|, armed, index)
  {
    hide FindD5, NoD5, LiesAt, ScanFrom;
    FindSkips(img, o, b);
    SameFind(img, o, o + |b|, armed, index);
  }

  /** One turn of the loop, at a byte 0xd5. */
  lemma {:induction false} OneStep(img: seq<byte>, o: nat, armed: Armed, index: seq<nat>)
    requires o < |img| && img[o] == 0xd5
    ensures var step := ScanStep(img, o, armed, index);
      ScanFrom(img, o, armed, index) ==
        if step.Stop? then step.result else ScanFrom(img, step.offset, step.armed, step.index)
  {
    hide ScanStep, ScanEnd;
  }

  lemma {:induction false} AddressBytesAt(v: byte, t: byte, s: byte, c: byte)
    ensures var b := AddressBytes(v, t, s, c);
      && b[0] == 0xd5 && b[1] == 0xaa && b[2] == 0x96 && b[11] == 0xde && b[12] == 0xaa
      && Decode44(b[3], b[4]) == v && Decode44(b[5], b[6]) == t
      && Decode44(b[7], b[8]) == s && Decode44(b[9], b[10]) == c
  {
    hide Pair, Decode44;
  }

  /** What the scan's loop makes of an address field. */
  lemma {:induction false} StepAddress(img: seq<byte>, o: nat, v: byte, t: byte, s: byte, c: byte, armed: Armed,
    index: seq<nat>)
    requires LiesAt(img, o, AddressBytes(v, t, s, c))
    ensures ScanFrom(img, o, armed, index) ==
      if Xor(Xor(Xor(v, t), s), c) != 0 then BadChecksum
      else if t > 35 || s > 16 then BadTrackSector
      else ScanFrom(img, o + 14, Yes(t, s), index)
  {
    AddressThere(img, o, v, t, s, c);
    hide AddressBytes, LiesAt, IsAddress, AddressValue, Xor;
    OneStep(img, o, armed, index);
  }

  lemma {:induction false} AddressThere(img: seq<byte>, o: nat, v: byte, t: byte, s: byte, c: byte)
    requires LiesAt(img, o, AddressBytes(v, t, s, c))
    ensures o < |img| && img[o] == 0xd5 && IsAddress(img, o)
    ensures AddressValue(img, o, 0) == v && AddressValue(img, o, 1) == t
    ensures AddressValue(img, o, 2) == s && AddressValue(img, o, 3) == c
  {
    var b := AddressBytes(v, t, s, c);
    AddressBytesAt(v, t, s, c);
    forall k: nat | k < 14 ensures At(img, o + k) == b[k] && img[o + k] == b[k] {
      AtInside(img, o, b, k);
    }
    hide AddressBytes, At, Decode44, LiesAt;
    assert At(img, o + 1) == b[1] && At(img, o + 2) == b[2] && At(img, o + 11) == b[11] && At(img, o + 12) == b[12];
    assert At(img, o + 3) == b[3] && At(img, o + 4) == b[4] && At(img, o + 5) == b[5] && At(img, o + 6) == b[6];
    assert At(img, o + 7) == b[7] && At(img, o + 8) == b[8] && At(img, o + 9) == b[9] && At(img, o + 10) == b[10];
  }

  lemma {:induction false} DataThere(img: seq<byte>, o: nat, field: seq<byte>)
    requires LiesAt(img, o, DataBytes(field))
    ensures o + 3 < |img| && img[o] == 0xd5 && IsData(img, o) && !IsAddress(img, o)
    ensures LiesAt(img, o + 1, [0xaa, 0xad] + field + [0xde, 0xaa, 0xeb])
  {
    var b := DataBytes(field);
    AtInside(img, o, b, 0);
    AtInside(img, o, b, 1);
    AtInside(img, o, b, 2);
    assert b == [0xd5] + ([0xaa, 0xad] + field + [0xde, 0xaa, 0xeb]);
    LiesAtParts(img, o, [0xd5], [0xaa, 0xad] + field + [0xde, 0xaa, 0xeb]);
  }

  /** The offsets after a data field at o. */
  function Recorded(armed: Armed, index: seq<nat>, o: nat): seq<nat>
    requires armed.Yes? ==> 16 * armed.track + armed.sector < |index|
  {
    if armed.Yes? then index[16 * armed.track + armed.sector := o + 3] else index
  }

  lemma {:induction false} DataStep(img: seq<byte>, o: nat, armed: Armed, index: seq<nat>)
    requires o + 3 < |img| && IsData(img, o) && !IsAddress(img, o)
    requires armed.Yes? ==> 16 * armed.track + armed.sector < |index|
    ensures ScanStep(img, o, armed, index) == Go(o + 1, No, Recorded(armed, index, o))
  {
    SmallRest(o + 3, |img|);
    hide IsData, IsAddress;
  }

  /** What it makes of a data field. */
  lemma {:induction false} StepData(img: seq<byte>, o: nat, field: seq<byte>, armed: Armed, index: seq<nat>)
    requires LiesAt(img, o, DataBytes(field)) && NoD5(field) && |img| <= MAX_IMAGE
    requires armed.Yes? ==> 16 * armed.track + armed.sector < |index|
    ensures ScanFrom(img, o, armed, index) ==
      ScanFrom(img, o + |DataBytes(field)|, No, Recorded(armed, index, o))
  {
    hide LiesAt, IsAddress, IsData, ScanStep, ScanFrom, Recorded;
    var rest := [0xaa, 0xad] + field + [0xde, 0xaa, 0xeb];
    DataThere(img, o, field);
    OneStep(img, o, armed, index);
    DataStep(img, o, armed, index);
    RestQuiet(field);
    hide NoD5;
    SkipBytes(img, o + 1, rest, No, Recorded(armed, index, o));
  }

  lemma {:induction false} RestQuiet(field: seq<byte>)
    requires NoD5(field)
    ensures NoD5([0xaa, 0xad] + field + [0xde, 0xaa, 0xeb])
  {
  }

  lemma {:induction false} CheckCloses(l: Laid)
    ensures Xor(Xor(Xor(l.volume, l.track), l.sector), Check(l)) == 0
  {
    XorSelf(Check(l));
    hide Xor;
  }

  lemma {:induction false} XorSelf(a: nat)
    ensures Xor(a, a) == 0
  {
    if a > 0 { XorSelf(a / 2); }
  }

  /** What it makes of one sector. */
  lemma {:induction false} StepSector(img: seq<byte>, o: nat, l: Laid, index: seq<nat>)
    requires LiesAt(img, o, SectorBytes(l)) && LaidOk(l) && |index| == SLOTS && |img| <= MAX_IMAGE
    ensures ScanFrom(img, o, No, index) == ScanFrom(img, o + |SectorBytes(l)|, No,
      index[16 * l.track + l.sector := o + |l.gap| + 14 + |l.between| + 3])
  {
    hide LiesAt, AddressBytes, DataBytes, ScanFrom, Xor, Check;
    var address, data := AddressBytes(l.volume, l.track, l.sector, Check(l)), DataBytes(l.field);
    LiesAtParts(img, o, l.gap + address + l.between, data);
    LiesAtParts(img, o, l.gap + address, l.between);
    LiesAtParts(img, o, l.gap, address);
    SkipBytes(img, o, l.gap, No, index);
    CheckCloses(l);
    StepAddress(img, o + |l.gap|, l.volume, l.track, l.sector, Check(l), No, index);
    SkipBytes(img, o + |l.gap| + 14, l.between, Yes(l.track, l.sector), index);
    StepData(img, o + |l.gap| + 14 + |l.between|, l.field, Yes(l.track, l.sector), index);
  }

  /** What it makes of all of them. */
  lemma {:induction false} StepSectors(img: seq<byte>, o: nat, list: seq<Laid>, index: seq<nat>)
    requires LiesAt(img, o, ImageBytes(list)) && ListOk(list) && |index| == SLOTS && |img| <= MAX_IMAGE
    ensures ScanFrom(img, o, No, index) == ScanFrom(img, o + |ImageBytes(list)|, No, OffsetsOf(list, o, index))
    decreases |list|
  {
    hide LiesAt, ScanFrom, SectorBytes;
    if list != [] {
      var l := list[0];
      LiesAtParts(img, o, SectorBytes(l), ImageBytes(list[1..]));
      StepSector(img, o, l, index);
      StepSectors(img, o + |SectorBytes(l)|, list[1..],
                  index[16 * l.track + l.sector := o + |l.gap| + 14 + |l.between| + 3]);
    }
  }

  lemma {:induction false} ScanAtEnd(img: seq<byte>, armed: Armed, index: seq<nat>)
    ensures ScanFrom(img, |img|, armed, index) == ScanEnd(img, armed, index)
  {
    hide ScanEnd;
  }

  lemma {:induction false} WholeLies(img: seq<byte>)
    ensures LiesAt(img, 0, img)
  {
  }

  /** An image of sectors, one after the other, scans to the offsets of their data fields. */
  lemma {:induction false} ScanLaidOut(list: seq<Laid>, tail: seq<byte>)
    requires ListOk(list) && NoD5(tail) && |ImageBytes(list) + tail| <= MAX_IMAGE
    ensures Scan(ImageBytes(list) + tail) == Index(OffsetsOf(list, 0, seq(SLOTS, _ => MISSING)))
  {
    hide LiesAt, ScanFrom, ImageBytes, ListOk;
    var img, none := ImageBytes(list) + tail, seq(SLOTS, _ => MISSING);
    WholeLies(img);
    LiesAtParts(img, 0, ImageBytes(list), tail);
    StepSectors(img, 0, list, none);
    var index := OffsetsOf(list, 0, none);
    SkipBytes(img, |ImageBytes(list)|, tail, No, index);
    ScanAtEnd(img, No, index);
  }

  /** An image that begins with the data field of its last address field: the scan finds that one going round. */
  lemma {:induction false} ScanLaidRound(lead: seq<byte>, list: seq<Laid>, last: Laid, tail: seq<byte>)
    requires ListOk(list) && LaidOk(last) && NoD5(lead) && NoD5(tail)
    requires |RoundBytes(lead, list, last, tail)| <= MAX_IMAGE
    ensures Scan(RoundBytes(lead, list, last, tail)) ==
      Index(OffsetsOf(list, |lead| + |DataBytes(last.field)|, seq(SLOTS, _ => MISSING))
              [16 * last.track + last.sector := |lead| + 3])
  {
    hide LiesAt, ScanFrom, ImageBytes, ListOk, AddressBytes, DataBytes, Xor, Check;
    var img, none := RoundBytes(lead, list, last, tail), seq(SLOTS, _ => MISSING);
    var data, all := DataBytes(last.field), ImageBytes(list);
    var address := AddressBytes(last.volume, last.track, last.sector, Check(last));
    WholeLies(img);
    LiesAtParts(img, 0, lead + data + all + last.gap + address, tail);
    LiesAtParts(img, 0, lead + data + all + last.gap, address);
    LiesAtParts(img, 0, lead + data + all, last.gap);
    LiesAtParts(img, 0, lead + data, all);
    LiesAtParts(img, 0, lead, data);
    SkipBytes(img, 0, lead, No, none);
    StepData(img, |lead|, last.field, No, none);
    var o := |lead| + |data|;
    StepSectors(img, o, list, none);
    var index, armed := OffsetsOf(list, o, none), Yes(last.track, last.sector);
    SkipBytes(img, o + |all|, last.gap, No, index);
    CheckCloses(last);
    StepAddress(img, o + |all| + |last.gap|, last.volume, last.track, last.sector, Check(last), No, index);
    SkipBytes(img, o + |all| + |last.gap| + 14, tail, armed, index);
    ScanAtEnd(img, armed, index);
    RoundEnd(img, lead, last.field, armed, index);
    hide ScanEnd;
  }

  function RoundBytes(lead: seq<byte>, list: seq<Laid>, last: Laid, tail: seq<byte>): seq<byte> {
    lead + DataBytes(last.field) + ImageBytes(list) + last.gap +
    AddressBytes(last.volume, last.track, last.sector, Check(last)) + tail
  }

  lemma {:induction false} RoundEnd(img: seq<byte>, lead: seq<byte>, field: seq<byte>, armed: Armed, index: seq<nat>)
    requires LiesAt(img, 0, lead) && NoD5(lead) && LiesAt(img, |lead|, DataBytes(field)) && |img| <= MAX_IMAGE
    requires armed.Yes? && armed.track * 16 + armed.sector < |index|
    ensures ScanEnd(img, armed, index) == Index(index[armed.track * 16 + armed.sector := |lead| + 3])
  {
    hide LiesAt, IsData, NoD5;
    DataThere(img, |lead|, field);
    QuietBytes(img, 0, lead);
    SkipQuiet(img, 0, |lead|);
    assert FindD5(img, |lead|) == |lead|;
    SmallRest(|lead| + 3, |img|);
  }

  /** An address field whose values do not xor to zero, or with a track or sector out of range, ends the scan. */
  lemma {:induction false} ScanLaidBad(list: seq<Laid>, gap: seq<byte>, v: byte, t: byte, s: byte, c: byte,
    tail: seq<byte>)
    requires ListOk(list) && NoD5(gap) && |ImageBytes(list) + gap + AddressBytes(v, t, s, c) + tail| <= MAX_IMAGE
    requires Xor(Xor(Xor(v, t), s), c) != 0 || t > 35 || s > 16
    ensures Scan(ImageBytes(list) + gap + AddressBytes(v, t, s, c) + tail) ==
      if Xor(Xor(Xor(v, t), s), c) != 0 then BadChecksum else BadTrackSector
  {
    hide LiesAt, ScanFrom, ImageBytes, ListOk, AddressBytes, Xor;
    var all, none := ImageBytes(list), seq(SLOTS, _ => MISSING);
    var img := all + gap + AddressBytes(v, t, s, c) + tail;
    WholeLies(img);
    LiesAtParts(img, 0, all + gap + AddressBytes(v, t, s, c), tail);
    LiesAtParts(img, 0, all + gap, AddressBytes(v, t, s, c));
    LiesAtParts(img, 0, all, gap);
    StepSectors(img, 0, list, none);
    var index := OffsetsOf(list, 0, none);
    SkipBytes(img, |all|, gap, No, index);
    StepAddress(img, |all| + |gap|, v, t, s, c, No, index);
  }

  /** Two pairs that the range check lets pass have one slot if they are sector 16 of a track and 0 of the next. */
  lemma {:induction false} SlotsShared(t: nat, s: nat, t': nat, s': nat)
    requires s <= 16 && s' <= 16 && (t, s) != (t', s')
    ensures 16 * t + s == 16 * t' + s' <==> (s == 16 && s' == 0 && t' == t + 1) || (s == 0 && s' == 16 && t == t' + 1)
  {
  }

  lemma {:induction false} OffsetsOfOne(m: Laid, at: nat, index: seq<nat>)
    requires LaidOk(m) && |index| == SLOTS && ListOk([m])
    ensures OffsetsOf([m], at, index) == index[16 * m.track + m.sector := at + |m.gap| + 14 + |m.between| + 3]
  {
    hide SectorBytes;
    assert [m][1..] == [];
  }

  lemma {:induction false} OffsetsOfTwo(l: Laid, m: Laid, index: seq<nat>)
    requires LaidOk(l) && LaidOk(m) && |index| == SLOTS
    ensures ListOk([l, m])
    ensures OffsetsOf([l, m], 0, index) == index[16 * l.track + l.sector := |l.gap| + 14 + |l.between| + 3]
      [16 * m.track + m.sector := |SectorBytes(l)| + |m.gap| + 14 + |m.between| + 3]
  {
    hide SectorBytes;
    assert [l, m][1..] == [m] && [m][1..] == [];
    assert ListOk([m]) && ListOk([l, m]);
    var i := index[16 * l.track + l.sector := |l.gap| + 14 + |l.between| + 3];
    OffsetsOfOne(m, |SectorBytes(l)|, i);
  }

  /** So of an image with both, the scan keeps the offset of the later one only. */
  lemma {:induction false} SectorSixteen(first: Laid, second: Laid, tail: seq<byte>)
    requires LaidOk(first) && LaidOk(second) && NoD5(tail)
    requires first.sector == 16 && second.sector == 0 && second.track == first.track + 1
    requires |ImageBytes([first, second]) + tail| <= MAX_IMAGE
    ensures Scan(ImageBytes([first, second]) + tail) == Index(seq(SLOTS, _ => MISSING)
      [16 * second.track := |SectorBytes(first)| + |second.gap| + 14 + |second.between| + 3])
  {
    OffsetsOfTwo(first, second, seq(SLOTS, _ => MISSING));
    hide SectorBytes, ImageBytes, OffsetsOf, ListOk;
    ScanLaidOut([first, second], tail);
  }
}
