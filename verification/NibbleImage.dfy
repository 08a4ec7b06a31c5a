/**
 A nibble image as a circular buffer of disk bytes: the scan that builds the track/sector index,
 reading and writing a field in place, and that writes never disturb the index or another sector.
 */
module NibbleImage {
  import opened Blocks
  import opened NibbleCodes
  import opened NibbleField

  const WORD32 := 0x1_0000_0000
  const MISSING := 0xffff_ffff  // (unsigned)-1
  const SLOTS := 560            // 35 tracks of 16 sectors

  /** Offsets of the scan are kept in an int. */
  const MAX_IMAGE := 0x7fff_fff0

  /** CircleBuffer: the byte at index i of an image of the given length. */
  function Circ(i: nat, length: nat): (p: nat)
    requires length > 0
    ensures p < length
  {
    if i >= length then i % length else i
  }

  function At(img: seq<byte>, i: nat): byte
    requires img != []
  {
    img[Circ(i, |img|)]
  }

  // ---------------------------------------------------------------- scanning

  /** FindByte for 0xd5; |img| when there is none at or after offset. */
  function FindD5(img: seq<byte>, offset: nat): (r: nat)
    ensures r < |img| ==> offset <= r && img[r] == 0xd5
    ensures forall k :: offset <= k < r && k < |img| ==> img[k] != 0xd5
    ensures r <= |img| || r == offset
    decreases |img| - offset
  {
    if offset >= |img| then Max(offset, |img|) else if img[offset] == 0xd5 then offset else FindD5(img, offset + 1)
  }

  predicate IsAddress(img: seq<byte>, p: nat)
    requires p < |img|
  {
    At(img, p + 1) == 0xaa && At(img, p + 2) == 0x96 && At(img, p + 11) == 0xde && At(img, p + 12) == 0xaa
  }

  predicate IsData(img: seq<byte>, p: nat)
    requires p < |img|
  {
    At(img, p + 1) == 0xaa && At(img, p + 2) == 0xad
  }

  /** The four values of an address field: volume, track, sector, checksum. */
  function AddressValue(img: seq<byte>, p: nat, n: nat): byte
    requires p < |img| && n < 4
  {
    Decode44(At(img, p + 3 + 2 * n), At(img, p + 4 + 2 * n))
  }

  datatype Scanned =
    | Index(index: seq<nat>)
    | BadChecksum
    | BadTrackSector
    | IndexOverflow  // a track/sector pair the range check admits but the table of 560 does not hold

  datatype Armed = No | Yes(track: nat, sector: nat)  // the last address field, until its data field is found

  function SetSlot(index: seq<nat>, armed: Armed, p: nat, length: nat): Scanned
    requires armed.Yes? && length > 0
  {
    var slot := armed.track * 16 + armed.sector;
    if slot >= |index| then IndexOverflow else Index(index[slot := (p + 3) % length])
  }

  datatype Step = Stop(result: Scanned) | Go(offset: nat, armed: Armed, index: seq<nat>)

  /** One turn of the constructor's loop, at a byte 0xd5. */
  function ScanStep(img: seq<byte>, p: nat, armed: Armed, index: seq<nat>): (r: Step)
    requires p < |img|
    ensures r.Go? ==> r.offset > p
  {
    if IsAddress(img, p) then
      var track, sector := AddressValue(img, p, 1), AddressValue(img, p, 2);
      if Xor(Xor(Xor(AddressValue(img, p, 0), track), sector), AddressValue(img, p, 3)) != 0 then Stop(BadChecksum)
      else if track > 35 || sector > 16 then Stop(BadTrackSector)
      else Go(p + 14, Yes(track, sector), index)
    else if IsData(img, p) && armed.Yes? then
      var s := SetSlot(index, armed, p, |img|);
      if s.Index? then Go(p + 1, No, s.index) else Stop(s)
    else Go(p + 1, armed, index)
  }

  /** After the loop: a data field that begins before the address field did, going round. */
  function ScanEnd(img: seq<byte>, armed: Armed, index: seq<nat>): Scanned {
    var q := FindD5(img, 0);
    if armed.Yes? && q < |img| && IsData(img, q) then SetSlot(index, armed, q, |img|) else Index(index)
  }

  /** The constructor's loop from offset on, and what follows it. */
  function ScanFrom(img: seq<byte>, offset: nat, armed: Armed, index: seq<nat>): Scanned
    decreases |img| - offset
  {
    var p := FindD5(img, offset);
    if p >= |img| then ScanEnd(img, armed, index)
    else
      match ScanStep(img, p, armed, index)
      case Stop(r) => r
      case Go(o, a, i) => ScanFrom(img, o, a, i)
  }

  function Scan(img: seq<byte>): Scanned {
    ScanFrom(img, 0, No, seq(SLOTS, _ => MISSING))
  }

  // ---------------------------------------------------------------- fields

  /** Where byte k of the field at offset o lies; the index arithmetic is 32-bit. */
  function Pos(o: nat, k: nat, length: nat): (p: nat)
    requires length > 0
    ensures p < length
  {
    Circ((o + k) % WORD32, length)
  }

  function FieldAt(img: seq<byte>, o: nat): (f: seq<byte>)
    requires img != []
    ensures |f| == FIELD
  {
    seq(FIELD, k requires 0 <= k < FIELD => img[Pos(o, k, |img|)])
  }

  /** Stores bytes k.. of f into the field at o, one after the other. */
  function StoreFrom(img: seq<byte>, o: nat, f: seq<byte>, k: nat): (r: seq<byte>)
    requires img != [] && |f| == FIELD && k <= FIELD
    ensures |r| == |img|
    decreases FIELD - k
  {
    if k == FIELD then img else StoreFrom(img[Pos(o, k, |img|) := f[k]], o, f, k + 1)
  }

  function WriteField(img: seq<byte>, o: nat, f: seq<byte>): (r: seq<byte>)
    requires img != [] && |f| == FIELD
    ensures |r| == |img|
  {
    StoreFrom(img, o, f, 0)
  }

  /** The field at o has room: its 343 positions are distinct. */
  predicate Fits(o: nat, length: nat) {
    FIELD <= length <= MAX_IMAGE && o < length
  }

  /** The distance from o to p going round. */
  function Dist(o: nat, p: nat, length: nat): int {
    if p >= o then p - o else p - o + length
  }

  predicate InField(o: nat, p: nat, length: nat) {
    Dist(o, p, length) < FIELD
  }

  lemma {:induction false} PosDist(o: nat, k: nat, length: nat)
    requires Fits(o, length) && k < FIELD
    ensures Pos(o, k, length) == (if o + k < length then o + k else o + k - length)
    ensures Dist(o, Pos(o, k, length), length) == k
  {
    RestOf(o + k, WORD32);
    RestOf(o + k, length);
  }

  lemma {:induction false} RestOf(x: nat, n: nat)
    requires x < 2 * n
    ensures x % n == if x < n then x else x - n
  {
  }

  lemma {:induction false} DistPos(o: nat, p: nat, length: nat)
    requires Fits(o, length) && p < length && InField(o, p, length)
    ensures Pos(o, Dist(o, p, length), length) == p
  {
    PosDist(o, Dist(o, p, length), length);
  }

  lemma {:induction false} StoreFromAt(img: seq<byte>, o: nat, f: seq<byte>, k: nat, p: nat)
    requires img != [] && Fits(o, |img|) && |f| == FIELD && k <= FIELD && p < |img|
    ensures StoreFrom(img, o, f, k)[p] ==
      if k <= Dist(o, p, |img|) < FIELD then f[Dist(o, p, |img|)] else img[p]
    decreases FIELD - k
  {
    if k < FIELD {
      PosDist(o, k, |img|);
      StoreFromAt(img[Pos(o, k, |img|) := f[k]], o, f, k + 1, p);
      if Dist(o, p, |img|) == k {
        DistPos(o, p, |img|);
      }
    }
  }

  /** A write puts the field at its positions, also across the end of the buffer, and changes no other byte. */
  lemma {:induction false} WriteFieldAt(img: seq<byte>, o: nat, f: seq<byte>, p: nat)
    requires img != [] && Fits(o, |img|) && |f| == FIELD && p < |img|
    ensures WriteField(img, o, f)[p] == if InField(o, p, |img|) then f[Dist(o, p, |img|)] else img[p]
  {
    StoreFromAt(img, o, f, 0, p);
  }

  /** Reading back the field just written. */
  lemma {:induction false} ReadOwnField(img: seq<byte>, o: nat, f: seq<byte>)
    requires img != [] && Fits(o, |img|) && |f| == FIELD
    ensures FieldAt(WriteField(img, o, f), o) == f
  {
    forall k | 0 <= k < FIELD ensures FieldAt(WriteField(img, o, f), o)[k] == f[k] {
      PosDist(o, k, |img|);
      WriteFieldAt(img, o, f, Pos(o, k, |img|));
    }
  }

  predicate DisjointFields(o: nat, o': nat, length: nat) {
    forall p: nat :: p < length ==> !(InField(o, p, length) && InField(o', p, length))
  }

  /** A field that shares no position with the one written reads as before. */
  lemma {:induction false} ReadOtherField(img: seq<byte>, o: nat, f: seq<byte>, o': nat)
    requires img != [] && Fits(o, |img|) && Fits(o', |img|) && |f| == FIELD && DisjointFields(o, o', |img|)
    ensures FieldAt(WriteField(img, o, f), o') == FieldAt(img, o')
  {
    forall k | 0 <= k < FIELD ensures FieldAt(WriteField(img, o, f), o')[k] == FieldAt(img, o')[k] {
      PosDist(o', k, |img|);
      var p := Pos(o', k, |img|);
      assert InField(o', p, |img|);
      WriteFieldAt(img, o, f, p);
    }
  }

  // ---------------------------------------------------------------- the scan survives writes

  /** The byte i places before position o, going round. */
  function Before(o: nat, i: nat, length: nat): nat
    requires i <= length && o < length
  {
    if o >= i then o - i else o + length - i
  }

  /** A data marker ends right before o. */
  predicate MarkedAt(img: seq<byte>, o: nat)
    requires 3 <= |img| && o < |img|
  {
    img[Before(o, 3, |img|)] == 0xd5 && img[Before(o, 2, |img|)] == 0xaa && img[Before(o, 1, |img|)] == 0xad
  }

  ghost predicate AllMarked(img: seq<byte>, index: seq<nat>) {
    3 <= |img| && forall s :: 0 <= s < |index| && index[s] != MISSING ==> index[s] < |img| && MarkedAt(img, index[s])
  }

  lemma {:induction false} MarkerPosition(p: nat, length: nat)
    requires 3 <= length && p < length
    ensures var o := (p + 3) % length;
      && Before(o, 3, length) == p
      && Before(o, 2, length) == Circ(p + 1, length) && Before(o, 1, length) == Circ(p + 2, length)
  {
    assert (p + 3) % length == if p + 3 < length then p + 3 else p + 3 - length;
    assert p + 2 >= length ==> (p + 2) % length == p + 2 - length;
    assert p + 1 >= length ==> (p + 1) % length == p + 1 - length;
  }

  lemma {:induction false} SlotMarked(img: seq<byte>, armed: Armed, p: nat, index: seq<nat>)
    requires 3 <= |img| <= MAX_IMAGE && p < |img| && armed.Yes?
    requires img[p] == 0xd5 && IsData(img, p) && AllMarked(img, index)
    ensures var s := SetSlot(index, armed, p, |img|); s.Index? ==> |s.index| == |index| && AllMarked(img, s.index)
  {
    MarkerPosition(p, |img|);
    hide Before, Circ;
    assert MarkedAt(img, (p + 3) % |img|);
    hide MarkedAt;
  }

  /** Every offset the scan records lies right behind a data marker. */
  lemma {:induction false} ScanMarks(img: seq<byte>, offset: nat, armed: Armed, index: seq<nat>)
    requires 3 <= |img| <= MAX_IMAGE && AllMarked(img, index)
    ensures var r := ScanFrom(img, offset, armed, index); r.Index? ==> |r.index| == |index| && AllMarked(img, r.index)
    decreases |img| - offset
  {
    var p := FindD5(img, offset);
    if p >= |img| {
      var q := FindD5(img, 0);
      if armed.Yes? && q < |img| && IsData(img, q) {
        SlotMarked(img, armed, q, index);
      }
      hide SetSlot, AllMarked, IsData;
    } else {
      StepMarks(img, p, armed, index);
      hide AllMarked, ScanStep;
      var next := ScanStep(img, p, armed, index);
      if next.Go? {
        ScanMarks(img, next.offset, next.armed, next.index);
      }
    }
  }

  lemma {:induction false} StepMarks(img: seq<byte>, p: nat, armed: Armed, index: seq<nat>)
    requires 3 <= |img| <= MAX_IMAGE && p < |img| && img[p] == 0xd5 && AllMarked(img, index)
    ensures match ScanStep(img, p, armed, index)
      case Stop(r) => !r.Index?
      case Go(_, _, i) => |i| == |index| && AllMarked(img, i)
  {
    if !IsAddress(img, p) && IsData(img, p) && armed.Yes? {
      SlotMarked(img, armed, p, index);
    }
    hide IsAddress, IsData, AddressValue, AllMarked, Xor;
  }

  lemma {:induction false} ScanIndex(img: seq<byte>)
    requires 3 <= |img| <= MAX_IMAGE && Scan(img).Index?
    ensures |Scan(img).index| == SLOTS && AllMarked(img, Scan(img).index)
  {
    ScanMarks(img, 0, No, seq(SLOTS, _ => MISSING));
  }

  /** The field at o lies behind a data marker and holds bytes of the 6-and-2 table only. */
  ghost predicate FieldOk(img: seq<byte>, o: nat) {
    Fits(o, |img|) && MarkedAt(img, o) && AllNibbles(FieldAt(img, o))
  }

  lemma {:induction false} NibbleInField(img: seq<byte>, o: nat, p: nat)
    requires FieldOk(img, o) && p < |img| && InField(o, p, |img|)
    ensures img[p] != 0xd5 && img[p] != 0xaa
  {
    DistPos(o, p, |img|);
    var k := Dist(o, p, |img|);
    assert FieldAt(img, o)[k] == img[p];
    EncodeDecode(img[p]);
  }

  /** The three marker bytes are outside the field. */
  lemma {:induction false} MarkerOutside(img: seq<byte>, o: nat)
    requires FieldOk(img, o)
    ensures !InField(o, Before(o, 1, |img|), |img|) && !InField(o, Before(o, 2, |img|), |img|)
    ensures !InField(o, Before(o, 3, |img|), |img|)
  {
    if InField(o, Before(o, 2, |img|), |img|) {
      NibbleInField(img, o, Before(o, 2, |img|));
    }
    if InField(o, Before(o, 3, |img|), |img|) {
      NibbleInField(img, o, Before(o, 3, |img|));
    }
  }

  lemma {:induction false} CircDist(o: nat, p: nat, j: nat, length: nat)
    requires Fits(o, length) && p < length && j <= 12
    ensures Circ(p + j, length) == if p + j < length then p + j else p + j - length
    ensures Dist(o, Circ(p + j, length), length) ==
      if Dist(o, p, length) + j < length then Dist(o, p, length) + j else Dist(o, p, length) + j - length
  {
    CircNear(p, j, length);
    hide Circ;
  }

  lemma {:induction false} CircNear(p: nat, j: nat, length: nat)
    requires j <= length && p < length
    ensures Circ(p + j, length) == if p + j < length then p + j else p + j - length
  {
    if p + j >= length {
      assert (p + j) % length == p + j - length;
    }
  }

  /** After 0xd5 0xaa the next byte is outside the field, unless the two are the field's own marker. */
  lemma {:induction false} ThirdOutside(img: seq<byte>, o: nat, p: nat)
    requires FieldOk(img, o) && p < |img| && img[p] == 0xd5 && At(img, p + 1) == 0xaa
    ensures !InField(o, p, |img|) && !InField(o, Circ(p + 1, |img|), |img|) && !InField(o, Circ(p + 2, |img|), |img|)
  {
    CircDist(o, p, 1, |img|);
    CircDist(o, p, 2, |img|);
    if InField(o, p, |img|) {
      NibbleInField(img, o, p);
    }
    if InField(o, Circ(p + 1, |img|), |img|) {
      NibbleInField(img, o, Circ(p + 1, |img|));
    }
    // if the third byte were the first of the field, the field's marker would end in 0xaa
    var second, third, marker := Circ(p + 1, |img|), Circ(p + 2, |img|), Before(o, 1, |img|);
    assert InField(o, third, |img|) ==> second == marker;
  }

  /** An address field lies outside the field as a whole. */
  lemma {:induction false} AddressOutside(img: seq<byte>, o: nat, p: nat, j: nat)
    requires FieldOk(img, o) && p < |img| && img[p] == 0xd5 && IsAddress(img, p) && j <= 12
    ensures !InField(o, Circ(p + j, |img|), |img|)
  {
    ThirdOutside(img, o, p);
    CircDist(o, p, 2, |img|);
    CircDist(o, p, j, |img|);
    CircDist(o, p, 12, |img|);
    if InField(o, Circ(p + 12, |img|), |img|) {
      NibbleInField(img, o, Circ(p + 12, |img|));
    }
  }

  /** What two images must share for the scan to take the same course. */
  ghost predicate SameMarkers(a: seq<byte>, b: seq<byte>) {
    && |a| == |b|
    && forall p: nat :: p < |a| ==>
      && (a[p] == 0xd5 <==> b[p] == 0xd5)
      && (a[p] == 0xd5 ==> SameMarker(a, b, p))
  }

  predicate SameMarker(a: seq<byte>, b: seq<byte>, p: nat)
    requires |a| == |b| && p < |a|
  {
    && (IsAddress(a, p) <==> IsAddress(b, p))
    && (IsData(a, p) <==> IsData(b, p))
    && (IsAddress(a, p) ==> forall n: nat :: n < 4 ==> AddressValue(a, p, n) == AddressValue(b, p, n))
  }

  lemma {:induction false} FindSame(a: seq<byte>, b: seq<byte>, offset: nat)
    requires SameMarkers(a, b)
    ensures FindD5(a, offset) == FindD5(b, offset)
    decreases |a| - offset
  {
    if offset < |a| && a[offset] != 0xd5 {
      FindSame(a, b, offset + 1);
    }
  }

  lemma {:induction false} ScanSame(a: seq<byte>, b: seq<byte>, offset: nat, armed: Armed, index: seq<nat>)
    requires SameMarkers(a, b)
    ensures ScanFrom(a, offset, armed, index) == ScanFrom(b, offset, armed, index)
    decreases |a| - offset
  {
    FindSame(a, b, offset);
    FindSame(a, b, 0);
    var p := FindD5(a, offset);
    if p >= |a| {
      EndSame(a, b, armed, index);
    } else {
      StepSame(a, b, p, armed, index);
      hide SameMarkers, ScanStep, ScanEnd;
      var next := ScanStep(a, p, armed, index);
      if next.Go? {
        ScanSame(a, b, next.offset, next.armed, next.index);
      }
    }
  }

  lemma {:induction false} EndSame(a: seq<byte>, b: seq<byte>, armed: Armed, index: seq<nat>)
    requires SameMarkers(a, b)
    ensures ScanEnd(a, armed, index) == ScanEnd(b, armed, index)
  {
    FindSame(a, b, 0);
    assert FindD5(a, 0) < |a| ==> SameMarker(a, b, FindD5(a, 0));
    hide IsData, SetSlot;
  }

  lemma {:induction false} StepSame(a: seq<byte>, b: seq<byte>, p: nat, armed: Armed, index: seq<nat>)
    requires SameMarkers(a, b) && p < |a| && a[p] == 0xd5
    ensures ScanStep(a, p, armed, index) == ScanStep(b, p, armed, index)
  {
    assert SameMarker(a, b, p);
    hide IsAddress, IsData, AddressValue, SetSlot, SameMarkers, Xor;
  }

  /** Two images that agree outside a field which holds table bytes in both have the same markers. */
  lemma {:induction false} MarkersOutside(a: seq<byte>, b: seq<byte>, o: nat)
    requires |a| == |b| && FieldOk(a, o) && FieldOk(b, o)
    requires forall p: nat :: p < |a| && !InField(o, p, |a|) ==> a[p] == b[p]
    ensures SameMarkers(a, b)
  {
    forall p: nat | p < |a|
      ensures a[p] == 0xd5 <==> b[p] == 0xd5
      ensures a[p] == 0xd5 ==> SameMarker(a, b, p)
    {
      if InField(o, p, |a|) {
        NibbleInField(a, o, p);
        NibbleInField(b, o, p);
      } else if a[p] == 0xd5 {
        MarkerSame(a, b, o, p);
        MarkerSame(b, a, o, p);
      }
    }
  }

  predicate SameAt(a: seq<byte>, b: seq<byte>, p: nat, j: nat)
    requires |a| == |b| && p < |a|
  {
    At(a, p + j) == At(b, p + j)
  }

  /** A marker of a is a marker of b with the same values. */
  lemma {:induction false} MarkerSame(a: seq<byte>, b: seq<byte>, o: nat, p: nat)
    requires |a| == |b| && FieldOk(a, o) && p < |a| && a[p] == 0xd5
    requires forall p: nat :: p < |a| && !InField(o, p, |a|) ==> a[p] == b[p]
    ensures IsData(a, p) ==> IsData(b, p)
    ensures IsAddress(a, p) ==>
      IsAddress(b, p) && forall n: nat :: n < 4 ==> AddressValue(a, p, n) == AddressValue(b, p, n)
  {
    if At(a, p + 1) == 0xaa {
      ThirdOutside(a, o, p);
    }
    if IsAddress(a, p) {
      forall j: nat | j <= 12 ensures SameAt(a, b, p, j) {
        AddressOutside(a, o, p, j);
      }
      hide InField, At;
      assert SameAt(a, b, p, 1) && SameAt(a, b, p, 2) && SameAt(a, b, p, 11) && SameAt(a, b, p, 12);
      forall n: nat | n < 4 ensures AddressValue(a, p, n) == AddressValue(b, p, n) {
        assert SameAt(a, b, p, 3 + 2 * n) && SameAt(a, b, p, 4 + 2 * n);
      }
    }
  }

  /** Rescanning after a write finds the identical index. */
  lemma {:induction false} ScanSurvivesWrite(img: seq<byte>, o: nat, f: seq<byte>)
    requires FieldOk(img, o) && |f| == FIELD && AllNibbles(f)
    ensures Scan(WriteField(img, o, f)) == Scan(img)
    ensures FieldOk(WriteField(img, o, f), o)
  {
    var b := WriteField(img, o, f);
    ReadOwnField(img, o, f);
    MarkerOutside(img, o);
    forall p: nat | p < |img| && !InField(o, p, |img|) ensures img[p] == b[p] {
      WriteFieldAt(img, o, f, p);
    }
    MarkersOutside(img, b, o);
    ScanSame(img, b, 0, No, seq(SLOTS, _ => MISSING));
  }

  // ---------------------------------------------------------------- no offset twice

  /** No two slots have the same offset. */
  predicate Distinct(index: seq<nat>) {
    forall s, t :: 0 <= s < |index| && 0 <= t < |index| && s != t && index[s] != MISSING ==> index[s] != index[t]
  }

  /** The markers recorded so far lie between the first 0xd5, at low, and the offset the scan has come to. */
  predicate MarkersBetween(index: seq<nat>, low: nat, high: nat, length: nat)
    requires 3 <= length
  {
    forall s :: 0 <= s < |index| && index[s] != MISSING ==>
      index[s] < length && low < Before(index[s], 3, length) < high
  }

  lemma {:induction false} SlotDistinct(index: seq<nat>, armed: Armed, p: nat, low: nat, high: nat, length: nat)
    requires 3 <= length <= MAX_IMAGE && p < length && armed.Yes? && Distinct(index)
    requires MarkersBetween(index, low, high, length) && (high <= p || p == low) && low <= p
    ensures var s := SetSlot(index, armed, p, length);
      s.Index? ==> Distinct(s.index) && (p > low ==> MarkersBetween(s.index, low, p + 1, length))
  {
    MarkerPosition(p, length);
    hide Before;
  }

  lemma {:induction false} StepDistinct(img: seq<byte>, offset: nat, p: nat, armed: Armed, index: seq<nat>, low: nat)
    requires 3 <= |img| <= MAX_IMAGE && offset <= p < |img| && low <= p && Distinct(index)
    requires MarkersBetween(index, low, offset, |img|) && (low < p || armed.No?)
    ensures var next := ScanStep(img, p, armed, index);
      next.Go? ==> low < next.offset && Distinct(next.index) && MarkersBetween(next.index, low, next.offset, |img|)
  {
    if !IsAddress(img, p) && IsData(img, p) && armed.Yes? {
      SlotDistinct(index, armed, p, low, offset, |img|);
    }
    hide IsAddress, IsData, AddressValue, Before, Xor, SetSlot;
  }

  lemma {:induction false} FirstD5(img: seq<byte>, offset: nat)
    ensures FindD5(img, 0) <= FindD5(img, offset) || FindD5(img, offset) < offset
    decreases |img| - offset
  {
    var q, p := FindD5(img, 0), FindD5(img, offset);
    assert p < |img| ==> img[p] == 0xd5;
  }

  /** The first 0xd5 is come by unarmed, so the loop does not record it, and the wrap-around cannot record it twice. */
  lemma {:induction false} ScanFromDistinct(img: seq<byte>, offset: nat, armed: Armed, index: seq<nat>)
    requires 3 <= |img| <= MAX_IMAGE && Distinct(index) && MarkersBetween(index, FindD5(img, 0), offset, |img|)
    requires offset == 0 ==> armed.No?
    requires offset > 0 ==> FindD5(img, 0) < offset
    ensures var r := ScanFrom(img, offset, armed, index); r.Index? ==> Distinct(r.index)
    decreases |img| - offset
  {
    var low, p := FindD5(img, 0), FindD5(img, offset);
    FirstD5(img, offset);
    hide FindD5;
    if p >= |img| {
      if armed.Yes? && low < |img| && IsData(img, low) {
        SlotDistinct(index, armed, low, low, offset, |img|);
      }
      hide SetSlot, IsData, Distinct, MarkersBetween;
    } else {
      StepDistinct(img, offset, p, armed, index, low);
      hide Distinct, MarkersBetween, ScanStep, ScanEnd;
      var next := ScanStep(img, p, armed, index);
      if next.Go? {
        ScanFromDistinct(img, next.offset, next.armed, next.index);
      }
    }
  }

  /** A scan never records one offset for two slots. */
  lemma {:induction false} ScanDistinct(img: seq<byte>)
    requires 3 <= |img| <= MAX_IMAGE && Scan(img).Index?
    ensures Distinct(Scan(img).index)
  {
    ScanFromDistinct(img, 0, No, seq(SLOTS, _ => MISSING));
  }

  lemma {:induction false} Overlap(o: nat, o': nat, p: nat, length: nat)
    requires Fits(o, length) && Fits(o', length) && o != o'
    requires p < length && InField(o, p, length) && InField(o', p, length)
    ensures InField(o, o', length) || InField(o', o, length)
  {
  }

  /** No data field of table bytes begins inside another: its marker would be there. */
  lemma {:induction false} NoFieldInside(img: seq<byte>, o: nat, o': nat)
    requires FieldOk(img, o) && FieldOk(img, o') && o != o'
    ensures !InField(o, o', |img|)
  {
    var d, q := Dist(o, o', |img|), Before(o', 2, |img|);
    if 2 <= d < FIELD {
      assert Dist(o, q, |img|) == d - 2;
      NibbleInField(img, o, q);
    }
  }

  /** So two such fields are the same or share no position. */
  lemma {:induction false} FieldsApart(img: seq<byte>, o: nat, o': nat)
    requires FieldOk(img, o) && FieldOk(img, o') && o != o'
    ensures DisjointFields(o, o', |img|)
  {
    NoFieldInside(img, o, o');
    NoFieldInside(img, o', o);
    forall p: nat | p < |img| ensures !(InField(o, p, |img|) && InField(o', p, |img|)) {
      if InField(o, p, |img|) && InField(o', p, |img|) {
        Overlap(o, o', p, |img|);
      }
    }
  }
}
