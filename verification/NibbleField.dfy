/** The 343-byte data field of a sector: encoding, decoding with the running checksum, and that they undo each other. */
module NibbleField {
  import opened Blocks
  import opened NibbleCodes

  const AUX := 86
  const SIX := 342     // six-bit values: 86 auxiliary, 256 main
  const FIELD := 343   // and the checksum byte

  type Sector = s: seq<byte> | |s| == 256 witness seq(256, _ => 0)

  /** The two low bits of a byte, swapped. */
  function Rev(z: nat): nat
    requires z < 4
  {
    match z
    case 0 => 0
    case 1 => 2
    case 2 => 1
    case 3 => 3
  }

  /** Shift by 0, 2 or 4. */
  function Scale(s: nat): nat
    requires s < 3
  {
    match s
    case 0 => 1
    case 1 => 4
    case 2 => 16
  }

  // ---------------------------------------------------------------- encoding

  /** The swapped low bits of byte j + 86 * s, none past the end of the sector. */
  function Low(data: Sector, j: nat, s: nat): (r: nat)
    requires j < AUX && s < 3
    ensures r < 4
  {
    if j + AUX * s < 256 then Rev(data[j + AUX * s] % 4) else 0
  }

  function Aux(data: Sector, j: nat): (r: nat)
    requires j < AUX
    ensures r < 64
  {
    Low(data, j, 0) + 4 * Low(data, j, 1) + 16 * Low(data, j, 2)
  }

  /** The k-th six-bit value of the field before checksumming. */
  function Six(data: Sector, k: nat): (r: nat)
    requires k < SIX
    ensures r < 64
  {
    if k < AUX then Aux(data, k) else data[k - AUX] / 4
  }

  lemma {:induction false} SixXor(a: nat, b: nat)
    requires a < 64 && b < 64
    ensures Xor(a, b) < 64
  {
    assert Pow2(6) == 64 by {
      assert Pow2(3) == 8;
    }
    XorBound(a, b, 6);
  }

  /** The disk byte k of the field: each value is xored with the one before, the last one stands alone. */
  function FieldByte(data: Sector, k: nat): (x: byte)
    requires k < FIELD
  {
    if k == SIX then Encode62(Six(data, k - 1))
    else
      var prev := if k == 0 then 0 else Six(data, k - 1);
      SixXor(Six(data, k), prev);
      Encode62(Xor(Six(data, k), prev))
  }

  function Field(data: Sector): (f: seq<byte>)
    ensures |f| == FIELD
  {
    seq(FIELD, k requires 0 <= k < FIELD => FieldByte(data, k))
  }

  predicate AllNibbles(f: seq<byte>) {
    forall k :: 0 <= k < |f| ==> IsNibble(f[k])
  }

  /** Everything written is a byte of the 6-and-2 table. */
  lemma {:induction false} FieldIsNibbles(data: Sector)
    ensures AllNibbles(Field(data))
  {
    forall k | 0 <= k < FIELD ensures IsNibble(Field(data)[k]) {
      if k == SIX {
        DecodeEncode(Six(data, k - 1));
      } else {
        var prev := if k == 0 then 0 else Six(data, k - 1);
        SixXor(Six(data, k), prev);
        DecodeEncode(Xor(Six(data, k), prev));
      }
    }
  }

  /** The two low bits of a byte, bit 0 worth 2 and bit 1 worth 1. */
  function Swapped(x: byte): nat {
    2 * (x % 2) + x / 2 % 2
  }

  /** The field written out: byte j of the first 86 has the low bits of three sector bytes, 86 apart. */
  lemma {:induction false} AuxLayout(data: Sector, j: nat)
    requires j < 86
    ensures Six(data, j) ==
      Swapped(data[j]) + 4 * Swapped(data[j + 86]) + (if j + 172 < 256 then 16 * Swapped(data[j + 172]) else 0)
  {
    RevSwaps(data[j]);
    RevSwaps(data[j + 86]);
    if j + 172 < 256 {
      RevSwaps(data[j + 172]);
    }
    hide Rev, Swapped;
  }

  lemma {:induction false} RevSwaps(x: byte)
    ensures Rev(x % 4) == Swapped(x)
  {
    var q := x / 4;
    assert x == 4 * q + x % 4;
    assert x / 2 == 2 * q + x % 4 / 2;
  }

  /**
   The 256 after them have the six high bits of one sector byte each. On disk is every value xored with the one before,
   the first alone; the last of them once more, alone, is the checksum.
   */
  lemma {:induction false} FieldLayout(data: Sector, i: nat, k: nat)
    requires i < 256 && 0 < k < 342
    ensures Six(data, 86 + i) == data[i] as int / 4
    ensures Field(data)[0] == Encode62(Six(data, 0)) && Field(data)[342] == Encode62(Six(data, 341))
    ensures Xor(Six(data, k), Six(data, k - 1)) < 64
    ensures Field(data)[k] == Encode62(Xor(Six(data, k), Six(data, k - 1)))
  {
    SixXor(Six(data, k), Six(data, k - 1));
    XorNothing(Six(data, 0));
    hide Encode62, Aux, Xor;
    assert Field(data)[0] == FieldByte(data, 0) && Field(data)[k] == FieldByte(data, k);
    assert Field(data)[342] == FieldByte(data, 342);
  }

  lemma {:induction false} XorNothing(a: nat)
    ensures Xor(a, 0) == a
  {
    if a > 0 { XorNothing(a / 2); }
  }

  // ---------------------------------------------------------------- decoding

  /** The decoded value of a disk byte; a byte outside the table stops the program before its value is used. */
  function Value(x: byte): (v: nat)
    ensures v < 64 && (IsNibble(x) ==> v == Decode62(x))
  {
    if IsNibble(x) then Decode62(x) else 0
  }

  /** The checksum after disk byte k: the xor of the values decoded so far. */
  function Running(f: seq<byte>, k: nat): (r: nat)
    requires k < |f|
    ensures r < 64
  {
    var prev := if k == 0 then 0 else Running(f, k - 1);
    SixXor(prev, Value(f[k]));
    Xor(prev, Value(f[k]))
  }

  /** The two low bits of byte i, taken from the auxiliary value it was packed into. */
  function LowBits(f: seq<byte>, i: nat): (r: nat)
    requires i < 256 && |f| == FIELD
    ensures r < 4
  {
    Rev(Running(f, i % AUX) / Scale(i / AUX) % 4)
  }

  function DecodedByte(f: seq<byte>, i: nat): (r: byte)
    requires i < 256 && |f| == FIELD
  {
    Running(f, AUX + i) * 4 + LowBits(f, i)
  }

  function Decoded(f: seq<byte>): (data: Sector)
    requires |f| == FIELD
  {
    seq(256, i requires 0 <= i < 256 => DecodedByte(f, i))
  }

  predicate ChecksumOk(f: seq<byte>)
    requires |f| == FIELD
  {
    Running(f, SIX - 1) == Decode62(f[SIX])
  }

  // ---------------------------------------------------------------- the codec undoes itself

  lemma {:induction false} RunningOfField(data: Sector, k: nat)
    requires k < SIX && AllNibbles(Field(data))
    ensures Running(Field(data), k) == Six(data, k)
  {
    var six, prev := Six(data, k), if k == 0 then 0 else Six(data, k - 1);
    if k > 0 {
      RunningOfField(data, k - 1);
    }
    SixXor(six, prev);
    DecodeEncode(Xor(six, prev));
    XorCancel(prev, six);
    hide Encode62, Decode62, Six, Xor;
    assert IsNibble(Field(data)[k]);
    assert Field(data)[k] == Encode62(Xor(six, prev));
  }

  lemma {:induction false} RevRev(z: nat)
    requires z < 4
    ensures Rev(Rev(z)) == z
  {
  }

  lemma {:induction false} AuxDigit(data: Sector, j: nat, s: nat)
    requires j < AUX && s < 3
    ensures Aux(data, j) / Scale(s) % 4 == Low(data, j, s)
  {
  }

  /** Reading the field just written gives the sector back, with a matching checksum. */
  lemma {:induction false} DecodeField(data: Sector)
    ensures AllNibbles(Field(data))
    ensures Decoded(Field(data)) == data && ChecksumOk(Field(data))
  {
    FieldIsNibbles(data);
    var f := Field(data);
    forall i | 0 <= i < 256 ensures DecodedByte(f, i) == data[i] {
      DecodeByte(data, i);
    }
    RunningOfField(data, SIX - 1);
    DecodeEncode(Six(data, SIX - 1));
    hide Encode62, Decode62, Six, Running;
    assert f[SIX] == Encode62(Six(data, SIX - 1));
  }

  lemma {:induction false} DecodeByte(data: Sector, i: nat)
    requires i < 256 && AllNibbles(Field(data))
    ensures DecodedByte(Field(data), i) == data[i]
  {
    var j, s := i % AUX, i / AUX;
    RunningOfField(data, AUX + i);
    RunningOfField(data, j);
    AuxDigit(data, j, s);
    RevRev(data[i] % 4);
    hide Running, Field;
    assert j + AUX * s == i && Low(data, j, s) == Rev(data[i] % 4);
  }

  /** Both spare bit pairs, of the auxiliary values 84 and 85, are zero. */
  predicate SpareBitsClear(f: seq<byte>)
    requires |f| == FIELD && AllNibbles(f)
  {
    Running(f, 84) < 16 && Running(f, 85) < 16
  }

  lemma {:induction false} SixOfDecoded(f: seq<byte>, k: nat)
    requires |f| == FIELD && AllNibbles(f) && k < SIX
    ensures SpareBitsClear(f) || k >= AUX || k < 84 ==> Six(Decoded(f), k) == Running(f, k)
    ensures AUX - 2 <= k < AUX ==> Six(Decoded(f), k) < 16
  {
    hide Decode62, Running;
    var data := Decoded(f);
    if k < AUX {
      Digits(Running(f, k));
      LowOfDecoded(f, k, 0);
      LowOfDecoded(f, k, 1);
      if k < 84 {
        LowOfDecoded(f, k, 2);
      }
      hide Decoded, Low;
    } else {
      assert data[k - AUX] == DecodedByte(f, k - AUX);
    }
  }

  lemma {:induction false} Digits(r: nat)
    requires r < 64
    ensures r / Scale(0) % 4 + 4 * (r / Scale(1) % 4) + 16 * (r / Scale(2) % 4) == r
    ensures r < 16 ==> r / Scale(2) % 4 == 0
  {
  }

  lemma {:induction false} LowOfDecoded(f: seq<byte>, j: nat, s: nat)
    requires |f| == FIELD && AllNibbles(f) && j < AUX && s < 3 && j + AUX * s < 256
    ensures Low(Decoded(f), j, s) == Running(f, j) / Scale(s) % 4
  {
    hide Decode62, Running;
    var i := j + AUX * s;
    assert i % AUX == j && i / AUX == s;
    assert Decoded(f)[i] == DecodedByte(f, i) && DecodedByte(f, i) % 4 == LowBits(f, i);
    RevRev(Running(f, j) / Scale(s) % 4);
  }

  /** Writing back what was read reproduces the field exactly when its checksum matched and its spare bits were zero. */
  lemma {:induction false} EncodeDecoded(f: seq<byte>)
    requires |f| == FIELD && AllNibbles(f)
    ensures Field(Decoded(f)) == f <==> ChecksumOk(f) && SpareBitsClear(f)
  {
    if ChecksumOk(f) && SpareBitsClear(f) {
      forall k | 0 <= k < FIELD ensures FieldByte(Decoded(f), k) == f[k] {
        FieldByteBack(f, k);
      }
    }
    if Field(Decoded(f)) == f {
      EncodedBack(f);
    }
    hide FieldByte, Decoded, ChecksumOk, SpareBitsClear;
  }

  lemma {:induction false} EncodedBack(f: seq<byte>)
    requires |f| == FIELD && AllNibbles(f) && Field(Decoded(f)) == f
    ensures ChecksumOk(f) && SpareBitsClear(f)
  {
    hide Running, Six, Field, ChecksumOk, Decoded;
    var data := Decoded(f);
    DecodeField(data);
    SixOfDecoded(f, 84);
    SixOfDecoded(f, 85);
    RunningOfField(data, 84);
    RunningOfField(data, 85);
  }

  lemma {:induction false} FieldByteBack(f: seq<byte>, k: nat)
    requires |f| == FIELD && AllNibbles(f) && ChecksumOk(f) && SpareBitsClear(f) && k < FIELD
    ensures FieldByte(Decoded(f), k) == f[k]
  {
    var data := Decoded(f);
    EncodeDecode(f[k]);
    if k == SIX {
      SixOfDecoded(f, k - 1);
    } else {
      SixOfDecoded(f, k);
      if k > 0 {
        SixOfDecoded(f, k - 1);
      }
      var prev := if k == 0 then 0 else Running(f, k - 1);
      assert IsNibble(f[k]) && Running(f, k) == Xor(prev, Decode62(f[k]));
      XorComm(prev, Decode62(f[k]));
      XorComm(Xor(prev, Decode62(f[k])), prev);
      XorCancel(prev, Decode62(f[k]));
    }
    hide Running, Six, Decode62, Encode62, Xor;
  }
}
