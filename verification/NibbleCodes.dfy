/** The byte codes of a nibble image: the 6-and-2 tables, the 4-and-4 pairs and the bit operations they use. */
module NibbleCodes {
  import opened Blocks

  // ---------------------------------------------------------------- bit operations on naturals

  function Xor(a: nat, b: nat): nat {
    if a == 0 && b == 0 then 0 else (a % 2 + b % 2) % 2 + 2 * Xor(a / 2, b / 2)
  }

  function Or(a: nat, b: nat): nat {
    if a == 0 && b == 0 then 0 else (if a % 2 == 1 || b % 2 == 1 then 1 else 0) + 2 * Or(a / 2, b / 2)
  }

  function And(a: nat, b: nat): nat {
    if a == 0 || b == 0 then 0 else (if a % 2 == 1 && b % 2 == 1 then 1 else 0) + 2 * And(a / 2, b / 2)
  }

  lemma {:induction false} XorBits(a: nat, b: nat)
    ensures Xor(a, b) % 2 == (a % 2 + b % 2) % 2 && Xor(a, b) / 2 == Xor(a / 2, b / 2)
  {
    var bit, x := (a % 2 + b % 2) % 2, Xor(a / 2, b / 2);
    assert Xor(a, b) == bit + 2 * x;
    hide Xor;
    Halves(bit, x);
  }

  lemma {:induction false} Halves(bit: nat, x: nat)
    requires bit < 2
    ensures (bit + 2 * x) % 2 == bit && (bit + 2 * x) / 2 == x
  {
  }

  lemma {:induction false} BitCancel(p: nat, q: nat)
    requires p < 2 && q < 2
    ensures (p + (q + p) % 2) % 2 == q
  {
  }

  lemma {:induction false} XorComm(a: nat, b: nat)
    ensures Xor(a, b) == Xor(b, a)
  {
    if a != 0 || b != 0 { XorComm(a / 2, b / 2); }
  }

  /** Applying the same mask twice gives the value back. */
  lemma {:induction false} XorCancel(a: nat, b: nat)
    ensures Xor(a, Xor(b, a)) == b
  {
    if a == 0 && b == 0 {
    } else {
      hide Xor;
      var r := Xor(a, Xor(b, a));
      XorBits(b, a);
      XorBits(a, Xor(b, a));
      XorCancel(a / 2, b / 2);
      BitCancel(a % 2, b % 2);
      assert r == r / 2 * 2 + r % 2 && b == b / 2 * 2 + b % 2;
    }
  }

  function Pow2(k: nat): nat {
    if k == 0 then 1 else 2 * Pow2(k - 1)
  }

  lemma {:induction false} XorBound(a: nat, b: nat, k: nat)
    requires a < Pow2(k) && b < Pow2(k)
    ensures Xor(a, b) < Pow2(k)
  {
    if k > 0 && (a != 0 || b != 0) {
      XorBound(a / 2, b / 2, k - 1);
    }
  }

  /** Or-ing a value above the bits already set adds it. */
  lemma {:induction false} OrDisjoint(a: nat, y: nat, k: nat)
    requires a < Pow2(k)
    ensures Or(a, y * Pow2(k)) == a + y * Pow2(k) && Or(y * Pow2(k), a) == a + y * Pow2(k)
  {
    if k == 0 {
      OrZero(y);
    } else {
      var b := y * Pow2(k);
      assert b == 2 * (y * Pow2(k - 1));
      assert b / 2 == y * Pow2(k - 1) && b % 2 == 0;
      OrDisjoint(a / 2, y, k - 1);
      assert a == a / 2 * 2 + a % 2;
    }
  }

  lemma {:induction false} OrZero(y: nat)
    ensures Or(0, y) == y && Or(y, 0) == y
  {
    if y > 0 { OrZero(y / 2); }
  }

  lemma {:induction false} AndBound(a: nat, b: nat)
    ensures And(a, b) <= b
  {
    if a != 0 && b != 0 { AndBound(a / 2, b / 2); }
  }

  // ---------------------------------------------------------------- 6-and-2

  /** encode62: the disk byte for a six-bit value; the program throws on anything larger. */
  function Encode62(val: byte): (x: byte)
    requires val < 64
  {
    match val
    case 0x00 => 0x96 case 0x01 => 0x97 case 0x02 => 0x9a case 0x03 => 0x9b
    case 0x04 => 0x9d case 0x05 => 0x9e case 0x06 => 0x9f case 0x07 => 0xa6
    case 0x08 => 0xa7 case 0x09 => 0xab case 0x0a => 0xac case 0x0b => 0xad
    case 0x0c => 0xae case 0x0d => 0xaf case 0x0e => 0xb2 case 0x0f => 0xb3
    case 0x10 => 0xb4 case 0x11 => 0xb5 case 0x12 => 0xb6 case 0x13 => 0xb7
    case 0x14 => 0xb9 case 0x15 => 0xba case 0x16 => 0xbb case 0x17 => 0xbc
    case 0x18 => 0xbd case 0x19 => 0xbe case 0x1a => 0xbf case 0x1b => 0xcb
    case 0x1c => 0xcd case 0x1d => 0xce case 0x1e => 0xcf case 0x1f => 0xd3
    case 0x20 => 0xd6 case 0x21 => 0xd7 case 0x22 => 0xd9 case 0x23 => 0xda
    case 0x24 => 0xdb case 0x25 => 0xdc case 0x26 => 0xdd case 0x27 => 0xde
    case 0x28 => 0xdf case 0x29 => 0xe5 case 0x2a => 0xe6 case 0x2b => 0xe7
    case 0x2c => 0xe9 case 0x2d => 0xea case 0x2e => 0xeb case 0x2f => 0xec
    case 0x30 => 0xed case 0x31 => 0xee case 0x32 => 0xef case 0x33 => 0xf2
    case 0x34 => 0xf3 case 0x35 => 0xf4 case 0x36 => 0xf5 case 0x37 => 0xf6
    case 0x38 => 0xf7 case 0x39 => 0xf9 case 0x3a => 0xfa case 0x3b => 0xfb
    case 0x3c => 0xfc case 0x3d => 0xfd case 0x3e => 0xfe case 0x3f => 0xff
  }

  const INVALID := 0xff

  /** The decoding table with its invalid marker; the program throws on the marker. */
  function Decode62(x: byte): (val: byte)
    ensures val < 64 || val == INVALID
  {
    match x
    case 0x96 => 0 case 0x97 => 1 case 0x9a => 2 case 0x9b => 3
    case 0x9d => 4 case 0x9e => 5 case 0x9f => 6 case 0xa6 => 7
    case 0xa7 => 8 case 0xab => 9 case 0xac => 10 case 0xad => 11
    case 0xae => 12 case 0xaf => 13 case 0xb2 => 14 case 0xb3 => 15
    case 0xb4 => 16 case 0xb5 => 17 case 0xb6 => 18 case 0xb7 => 19
    case 0xb9 => 20 case 0xba => 21 case 0xbb => 22 case 0xbc => 23
    case 0xbd => 24 case 0xbe => 25 case 0xbf => 26 case 0xcb => 27
    case 0xcd => 28 case 0xce => 29 case 0xcf => 30 case 0xd3 => 31
    case 0xd6 => 32 case 0xd7 => 33 case 0xd9 => 34 case 0xda => 35
    case 0xdb => 36 case 0xdc => 37 case 0xdd => 38 case 0xde => 39
    case 0xdf => 40 case 0xe5 => 41 case 0xe6 => 42 case 0xe7 => 43
    case 0xe9 => 44 case 0xea => 45 case 0xeb => 46 case 0xec => 47
    case 0xed => 48 case 0xee => 49 case 0xef => 50 case 0xf2 => 51
    case 0xf3 => 52 case 0xf4 => 53 case 0xf5 => 54 case 0xf6 => 55
    case 0xf7 => 56 case 0xf9 => 57 case 0xfa => 58 case 0xfb => 59
    case 0xfc => 60 case 0xfd => 61 case 0xfe => 62 case 0xff => 63
    case _ => INVALID
  }

  predicate IsNibble(x: byte) {
    Decode62(x) != INVALID
  }

  /** Decoding undoes encoding, on every six-bit value. */
  lemma {:induction false} DecodeEncode(val: byte)
    requires val < 64
    ensures IsNibble(Encode62(val)) && Decode62(Encode62(val)) == val
  {
  }

  /** Encoding undoes decoding; no disk byte is one of the two bytes that begin every marker. */
  lemma {:induction false} EncodeDecode(x: byte)
    requires IsNibble(x)
    ensures Encode62(Decode62(x)) == x && x != 0xd5 && x != 0xaa
  {
  }

  type bit = x: int | 0 <= x < 2

  function Both(x: bit, y: bit, value: bit): nat {
    if x == value && y == value then 1 else 0
  }

  /**
   Which bytes the table has: those with the highest bit set, two neighbouring ones among the seven others,
   and at most one pair of neighbouring zeros.
   */
  lemma {:induction false} TableBits(b0: bit, b1: bit, b2: bit, b3: bit, b4: bit, b5: bit, b6: bit, b7: bit)
    ensures var x := b0 + 2 * b1 + 4 * b2 + 8 * b3 + 16 * b4 + 32 * b5 + 64 * b6 + 128 * b7;
      IsNibble(x) <==>
        && b7 == 1
        && 1 <= Both(b0, b1, 1) + Both(b1, b2, 1) + Both(b2, b3, 1) + Both(b3, b4, 1) + Both(b4, b5, 1)
          + Both(b5, b6, 1)
        && 1 >= Both(b0, b1, 0) + Both(b1, b2, 0) + Both(b2, b3, 0) + Both(b3, b4, 0) + Both(b4, b5, 0)
          + Both(b5, b6, 0)
  {
    hide IsNibble;
    var x := b0 + 2 * b1 + 4 * b2 + 8 * b3 + 16 * b4 + 32 * b5 + 64 * b6 + 128 * b7;
    if b7 == 0 {
      NoLowBytes(x);
    } else if b6 == 0 {
      FirstHalf(b0, b1, b2, b3, b4, b5);
    } else {
      SecondHalf(b0, b1, b2, b3, b4, b5);
    }
  }

  lemma {:induction false} NoLowBytes(x: byte)
    requires x < 128
    ensures !IsNibble(x)
  {
  }

  lemma {:induction false} FirstHalf(b0: bit, b1: bit, b2: bit, b3: bit, b4: bit, b5: bit)
    ensures IsNibble(128 + b0 + 2 * b1 + 4 * b2 + 8 * b3 + 16 * b4 + 32 * b5) <==>
      && Both(b0, b1, 1) + Both(b1, b2, 1) + Both(b2, b3, 1) + Both(b3, b4, 1) + Both(b4, b5, 1) >= 1
      && Both(b0, b1, 0) + Both(b1, b2, 0) + Both(b2, b3, 0) + Both(b3, b4, 0) + Both(b4, b5, 0) + Both(b5, 0, 0) <= 1
  {
  }

  lemma {:induction false} SecondHalf(b0: bit, b1: bit, b2: bit, b3: bit, b4: bit, b5: bit)
    ensures IsNibble(192 + b0 + 2 * b1 + 4 * b2 + 8 * b3 + 16 * b4 + 32 * b5) <==>
      && Both(b0, b1, 1) + Both(b1, b2, 1) + Both(b2, b3, 1) + Both(b3, b4, 1) + Both(b4, b5, 1) + Both(b5, 1, 1) >= 1
      && Both(b0, b1, 0) + Both(b1, b2, 0) + Both(b2, b3, 0) + Both(b3, b4, 0) + Both(b4, b5, 0) <= 1
  {
  }

  /** The table is in ascending order: with TableBits, that is all there is to know of it. */
  lemma {:induction false} TableOrder(a: byte, b: byte)
    requires a < b < 64
    ensures Encode62(a) < Encode62(b)
  {
  }

  // ---------------------------------------------------------------- 4-and-4

  function Decode44(x: byte, y: byte): (r: byte)
  {
    AndBound(Or(x * 2, 1), y);
    And(Or(x * 2, 1), y)
  }

  /** encode44: the odd bits and the even bits, each filled up with ones. */
  function Encode44(val: byte): (r: (nat, nat))
  {
    (Or(val / 2, 0xaa), Or(val, 0xaa))
  }

  /** The n-pair pattern 10 10 .. 10. */
  function Alternating(n: nat): nat {
    if n == 0 then 0 else 4 * Alternating(n - 1) + 2
  }

  lemma {:induction false} OrBits(a: nat, b: nat)
    ensures Or(a, b) == (if a % 2 == 1 || b % 2 == 1 then 1 else 0) + 2 * Or(a / 2, b / 2)
  {
  }

  lemma {:induction false} AndBits(a: nat, b: nat)
    ensures And(a, b) == (if a % 2 == 1 && b % 2 == 1 then 1 else 0) + 2 * And(a / 2, b / 2)
  {
  }

  /** Or with the pattern, two bits at a time: the upper one becomes 1. */
  lemma {:induction false} OrPair(v: nat, n: nat)
    requires n > 0
    ensures Or(v, Alternating(n)) == v % 2 + 2 + 4 * Or(v / 4, Alternating(n - 1))
  {
    var m := Alternating(n);
    assert m % 2 == 0 && m / 2 == 2 * Alternating(n - 1) + 1;
    OrBits(v, m);
    OrBits(v / 2, m / 2);
    assert v / 2 / 2 == v / 4 && m / 2 / 2 == Alternating(n - 1);
  }

  /** v has no more than n pairs of bits. */
  predicate Pairs(v: nat, n: nat) {
    if n == 0 then v == 0 else Pairs(v / 4, n - 1)
  }

  lemma {:induction false} AndOr44(v: nat, n: nat)
    requires Pairs(v, n)
    ensures And(2 * Or(v / 2, Alternating(n)) + 1, Or(v, Alternating(n))) == v
  {
    if n > 0 {
      hide Or, And, Alternating;
      AndOr44(v / 4, n - 1);
      OrPair(v, n);
      OrPair(v / 2, n);
      QuarterHalf(v);
      AndPair(v / 2 % 2, v % 2, Or(v / 4 / 2, Alternating(n - 1)), Or(v / 4, Alternating(n - 1)));
    }
  }

  lemma {:induction false} QuarterHalf(v: nat)
    ensures v / 2 / 4 == v / 4 / 2 && v == v % 2 + 2 * (v / 2 % 2) + 4 * (v / 4)
  {
  }

  lemma {:induction false} AndPair(x: nat, y: nat, p: nat, q: nat)
    requires x < 2 && y < 2
    ensures And(2 * (x + 2 + 4 * p) + 1, y + 2 + 4 * q) == y + 2 * x + 4 * And(2 * p + 1, q)
  {
    hide And;
    AndBits(2 * (x + 2 + 4 * p) + 1, y + 2 + 4 * q);
    AndBits(x + 2 + 4 * p, 1 + 2 * q);
  }

  /** Decoding a 4-and-4 pair undoes encoding it. */
  lemma {:induction false} Decode44Encode44(val: byte)
    ensures var (x, y) := Encode44(val); x < 256 && y < 256 && Decode44(x, y) == val
  {
    hide Or, And;
    assert Alternating(4) == 0xaa by {
      assert Alternating(2) == 10;
    }
    assert Pow2(8) == 256 by {
      assert Pow2(4) == 16 && Pow2(6) == 64;
    }
    assert Pairs(val, 4) by {
      assert Pairs(val / 4 / 4, 2);
    }
    AndOr44(val, 4);
    OrBound(val / 2, 0xaa, 8);
    OrBound(val, 0xaa, 8);
    OrOne(Or(val / 2, 0xaa));
  }

  lemma {:induction false} OrOne(x: nat)
    ensures Or(x * 2, 1) == 2 * x + 1
  {
    OrBits(x * 2, 1);
    OrZero(x);
  }

  lemma {:induction false} OrBound(a: nat, b: nat, k: nat)
    requires a < Pow2(k) && b < Pow2(k)
    ensures Or(a, b) < Pow2(k)
  {
    if k > 0 && (a != 0 || b != 0) {
      OrBound(a / 2, b / 2, k - 1);
    }
  }

  /** The pair written out: bits 7, 5, 3, 1 of the value in the first byte, 6, 4, 2, 0 in the second, ones between. */
  lemma {:induction false} PairBits(val: byte)
    ensures Encode44(val).0 == 170 + val / 2 % 2 + 4 * (val / 8 % 2) + 16 * (val / 32 % 2) + 64 * (val / 128 % 2)
    ensures Encode44(val).1 == 170 + val % 2 + 4 * (val / 4 % 2) + 16 * (val / 16 % 2) + 64 * (val / 64 % 2)
  {
    OrDigits(val);
    OrDigits(val / 2);
    Eighths(val);
    hide Or;
  }

  lemma {:induction false} Eighths(v: nat)
    ensures v / 2 / 4 == v / 8 && v / 2 / 16 == v / 32 && v / 2 / 64 == v / 128
  {
  }

  lemma {:induction false} OrDigits(v: byte)
    ensures Or(v, 0xaa) == 170 + v % 2 + 4 * (v / 4 % 2) + 16 * (v / 16 % 2) + 64 * (v / 64 % 2)
  {
    assert Alternating(4) == 0xaa && Alternating(0) == 0 by {
      assert Alternating(2) == 10;
    }
    hide Or, Alternating;
    OrPair(v, 4);
    OrPair(v / 4, 3);
    OrPair(v / 16, 2);
    OrPair(v / 64, 1);
    assert v / 4 / 4 == v / 16 && v / 16 / 4 == v / 64 && v / 64 / 4 == 0;
    OrZero(0);
  }
}
