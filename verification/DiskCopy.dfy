/** The DiskCopy 4.2 data checksum: what corruption it detects, and that closing an image makes it verify. */
module DiskCopy {
  import opened Blocks

  const WORD32 := 0x1_0000_0000

  type uint32 = x: int | 0 <= x < WORD32

  const O_DATA_SIZE := 64
  const O_DATA_CHECKSUM := 72
  const O_PRIVATE := 82
  const O_USER_DATA := 84

  // ---------------------------------------------------------------- the checksum

  /** (rv >> 1) + (rv << 31) on 32 bits */
  function RotateRight(rv: uint32): uint32 {
    rv / 2 + rv % 2 * 0x8000_0000
  }

  function Step(rv: uint32, hi: byte, lo: byte): uint32 {
    RotateRight((rv + hi * 256 + lo) % WORD32)
  }

  function Fold(rv: uint32, data: seq<byte>): uint32
    decreases |data|
  {
    if |data| < 2 then rv else Fold(Step(rv, data[0], data[1]), data[2..])
  }

  /** The checksum of a buffer; a buffer of odd size is not summed at all. */
  function ChecksumOf(data: seq<byte>): uint32 {
    if |data| % 2 == 1 then 0 else Fold(0, data)
  }

  lemma {:induction false} FoldWord(rv: uint32, data: seq<byte>)
    requires |data| >= 2
    ensures Fold(rv, data) == Fold(Step(rv, data[0], data[1]), data[2..])
  {
    hide Step;
  }

  lemma {:induction false} FoldAt(rv: uint32, data: seq<byte>, i: nat)
    requires i + 1 < |data|
    ensures Fold(rv, data[i..]) == Fold(Step(rv, data[i], data[i + 1]), data[i + 2..])
  {
    hide Step, Fold;
    FoldWord(rv, data[i..]);
    assert data[i..][2..] == data[i + 2..];
  }

  /** Adding the two bytes of a word one after the other, each addition wrapping at 32 bits. */
  lemma {:induction false} AddBytes(rv: uint32, hi: byte, lo: byte)
    ensures RotateRight(((rv + hi * 256) % WORD32 + lo) % WORD32) == Step(rv, hi, lo)
  {
    hide RotateRight;
    TwoAdditions(rv + hi * 256, lo);
  }

  lemma {:induction false} TwoAdditions(x: nat, lo: byte)
    requires x + lo < 2 * WORD32
    ensures (x % WORD32 + lo) % WORD32 == (x + lo) % WORD32
  {
    if x < WORD32 {
      assert x % WORD32 == x;
    } else {
      assert x % WORD32 == x - WORD32;
      assert (x + lo) % WORD32 == x + lo - WORD32;
    }
  }

  method Checksum(data: seq<byte>) returns (rv: uint32)
    ensures rv == ChecksumOf(data)
  {
    hide Step, RotateRight;
    rv := 0;
    if |data| % 2 == 1 {
      return;
    }
    var i := 0;
    while i < |data|
      invariant 0 <= i <= |data| && i % 2 == 0
      invariant Fold(rv, data[i..]) == Fold(0, data)
    {
      FoldAt(rv, data, i);
      AddBytes(rv, data[i], data[i + 1]);
      rv := (rv + (data[i] as int) * 256) % WORD32;
      rv := (rv + data[i + 1]) % WORD32;
      rv := RotateRight(rv);
      i := i + 2;
    }
  }

  lemma {:induction false} FoldAppend(rv: uint32, d: seq<byte>, hi: byte, lo: byte)
    requires |d| % 2 == 0
    ensures Fold(rv, d + [hi, lo]) == Step(Fold(rv, d), hi, lo)
    decreases |d|
  {
    hide Step;
    var e := d + [hi, lo];
    if d == [] {
      assert e[2..] == [];
    } else {
      assert e[2..] == d[2..] + [hi, lo];
      FoldAppend(Step(rv, d[0], d[1]), d[2..], hi, lo);
    }
  }

  /**
   The value of the checksum: 0 of no bytes; two bytes more add a word, high byte first, modulo 2^32, and halve the sum,
   its lowest bit becoming the highest. The sum of an odd number of bytes is 0.
   */
  lemma {:induction false} ChecksumValue(d: seq<byte>, hi: byte, lo: byte)
    ensures ChecksumOf([]) == 0
    ensures |d| % 2 == 0 ==>
      var t := (ChecksumOf(d) + 256 * hi as int + lo as int) % 0x1_0000_0000;
      ChecksumOf(d + [hi, lo]) == t / 2 + t % 2 * 0x8000_0000
    ensures |d| % 2 == 1 ==> ChecksumOf(d) == 0
  {
    assert ChecksumOf([]) == 0;
    assert |d| % 2 == 1 ==> ChecksumOf(d) == 0;
    hide ChecksumOf, Step;
    if |d| % 2 == 0 {
      SumAppend(d, hi, lo);
      StepValue(ChecksumOf(d), hi, lo);
    }
  }

  lemma {:induction false} SumAppend(d: seq<byte>, hi: byte, lo: byte)
    requires |d| % 2 == 0
    ensures ChecksumOf(d + [hi, lo]) == Step(ChecksumOf(d), hi, lo)
  {
    hide Step, Fold;
    FoldAppend(0, d, hi, lo);
    assert |d + [hi, lo]| == |d| + 2;
  }

  lemma {:induction false} StepValue(rv: uint32, hi: byte, lo: byte)
    ensures var t := (rv + 256 * hi as int + lo as int) % 0x1_0000_0000;
      Step(rv, hi, lo) == t / 2 + t % 2 * 0x8000_0000
  {
  }

  /** The checksums of the words 1 and 2. */
  lemma {:induction false} ChecksumExamples()
    ensures ChecksumOf([0, 1]) == 0x8000_0000 && ChecksumOf([0, 2]) == 1
  {
    ChecksumValue([], 0, 1);
    ChecksumValue([], 0, 2);
    hide ChecksumOf;
    assert [] + [0, 1] == [0, 1];
    assert [] + [0, 2] == [0, 2];
  }

  // ---------------------------------------------------------------- detection

  lemma {:induction false} RotateInjective(x: uint32, x': uint32)
    requires RotateRight(x) == RotateRight(x')
    ensures x == x'
  {
    assert x == x / 2 * 2 + x % 2 && x' == x' / 2 * 2 + x' % 2;
  }

  lemma {:induction false} AddWraps(r: uint32, w: nat)
    requires w < 0x1_0000
    ensures (r + w) % WORD32 == if r + w < WORD32 then r + w else r + w - WORD32
  {
  }

  /** One step loses nothing: neither of the accumulator nor of the word. */
  lemma {:induction false} StepInjective(r: uint32, hi: byte, lo: byte, r': uint32, hi': byte, lo': byte)
    requires Step(r, hi, lo) == Step(r', hi', lo')
    ensures (hi, lo) == (hi', lo') ==> r == r'
    ensures r == r' ==> (hi, lo) == (hi', lo')
  {
    hide RotateRight;
    RotateInjective((r + hi * 256 + lo) % WORD32, (r' + hi' * 256 + lo') % WORD32);
    AddWraps(r, hi * 256 + lo);
    AddWraps(r', hi' * 256 + lo');
  }

  lemma {:induction false} FoldInjective(r: uint32, r': uint32, data: seq<byte>)
    requires r != r'
    ensures Fold(r, data) != Fold(r', data)
    decreases |data|
  {
    hide Step;
    if |data| >= 2 {
      var s, s' := Step(r, data[0], data[1]), Step(r', data[0], data[1]);
      if s == s' {
        StepInjective(r, data[0], data[1], r', data[0], data[1]);
      }
      FoldInjective(s, s', data[2..]);
    }
  }

  /** The images differ in the aligned 16-bit word at i and nowhere else. */
  predicate DifferInWord(a: seq<byte>, b: seq<byte>, i: nat) {
    && |a| == |b| && i % 2 == 0 && i + 1 < |a|
    && a[..i] == b[..i] && a[i + 2..] == b[i + 2..]
    && (a[i], a[i + 1]) != (b[i], b[i + 1])
  }

  lemma {:induction false} FoldDetects(r: uint32, a: seq<byte>, b: seq<byte>, i: nat)
    requires DifferInWord(a, b, i)
    ensures Fold(r, a) != Fold(r, b)
    decreases i
  {
    hide Step;
    var s, s' := Step(r, a[0], a[1]), Step(r, b[0], b[1]);
    if i == 0 {
      if s == s' {
        StepInjective(r, a[0], a[1], r, b[0], b[1]);
      }
      FoldInjective(s, s', a[2..]);
    } else {
      assert a[0] == a[..i][0] == b[..i][0] == b[0] && a[1] == a[..i][1] == b[..i][1] == b[1];
      assert a[2..][..i - 2] == a[..i][2..] && b[2..][..i - 2] == b[..i][2..];
      assert a[2..][i..] == a[i + 2..] && b[2..][i..] == b[i + 2..];
      FoldDetects(s, a[2..], b[2..], i - 2);
    }
  }

  /** A change of one aligned word is detected exactly when the image has an even size. */
  lemma {:induction false} DetectsOneWord(a: seq<byte>, b: seq<byte>, i: nat)
    requires DifferInWord(a, b, i)
    ensures ChecksumOf(a) != ChecksumOf(b) <==> |a| % 2 == 0
  {
    if |a| % 2 == 0 {
      FoldDetects(0, a, b, i);
    }
  }

  lemma {:induction false} FoldZeros(data: seq<byte>)
    requires forall i :: 0 <= i < |data| ==> data[i] == 0
    ensures Fold(0, data) == 0
    decreases |data|
  {
    if |data| >= 2 {
      FoldZeros(data[2..]);
      assert Step(0, 0, 0) == 0;
      FoldWord(0, data);
      hide Fold, Step;
    }
  }

  /** An all-zero image of any size has checksum 0, which is what a new image's header holds. */
  lemma {:induction false} ZerosSumToZero(data: seq<byte>)
    requires forall i :: 0 <= i < |data| ==> data[i] == 0
    ensures ChecksumOf(data) == 0
  {
    if |data| % 2 == 0 {
      FoldZeros(data);
    }
  }

  // ---------------------------------------------------------------- the image file

  function Word(hi: int, lo: int): int {
    hi * 256 + lo
  }

  /** Big-endian reads and writes. */
  function Read16(data: seq<byte>, offset: nat): nat
    requires offset + 2 <= |data|
  {
    Word(data[offset], data[offset + 1])
  }

  function Read32(data: seq<byte>, offset: nat): uint32
    requires offset + 4 <= |data|
  {
    Word(Word(Word(data[offset], data[offset + 1]), data[offset + 2]), data[offset + 3])
  }

  function Write32(data: seq<byte>, offset: nat, x: uint32): (r: seq<byte>)
    requires offset + 4 <= |data|
    ensures |r| == |data| && Read32(r, offset) == x
    ensures forall i :: 0 <= i < |data| && !(offset <= i < offset + 4) ==> r[i] == data[i]
  {
    var b: seq<byte> := [x / 0x100_0000, x / 0x1_0000 % 256, x / 256 % 256, x % 256];
    data[..offset] + b + data[offset + 4..]
  }

  datatype Verdict = Invalid | ChecksumWarning | Good

  function UserData(file: seq<byte>): seq<byte>
    requires O_USER_DATA + Read32Size(file) <= |file|
  {
    file[O_USER_DATA..O_USER_DATA + Read32Size(file)]
  }

  function Read32Size(file: seq<byte>): uint32 {
    if |file| < O_USER_DATA then 0 else Read32(file, O_DATA_SIZE)
  }

  /** Validate: a checksum mismatch is reported but does not make the file invalid. */
  function Validate(file: seq<byte>): Verdict {
    if |file| < O_USER_DATA then Invalid
    else if file[0] > 63 then Invalid
    else if Read16(file, O_PRIVATE) != 0x100 then Invalid
    else if Read32(file, O_DATA_SIZE) % 512 != 0 then Invalid
    else if |file| < O_USER_DATA + Read32(file, O_DATA_SIZE) then Invalid
    else if ChecksumOf(UserData(file)) != Read32(file, O_DATA_CHECKSUM) then ChecksumWarning
    else Good
  }

  /** A four-byte number, high byte first. */
  predicate NumberAt(file: seq<byte>, o: nat, n: nat)
    requires o + 4 <= |file|
  {
    n == 0x100_0000 * file[o] as int + 0x1_0000 * file[o + 1] as int + 256 * file[o + 2] as int + file[o + 3] as int
  }

  /**
   The check of a file, told from its bytes: the length of the name at 0, the size of the data at 64, its checksum
   at 72, the bytes 1 and 0 at 82, the data from 84 on, each number with its high byte first.
   */
  lemma {:induction false} ValidateBytes(file: seq<byte>, size: nat, sum: nat)
    requires |file| >= 84 ==> NumberAt(file, 64, size) && NumberAt(file, 72, sum)
    ensures Validate(file).Invalid? <==>
      |file| < 84 || file[0] > 63 || file[82] != 1 || file[83] != 0 || size % 512 != 0 || |file| < 84 + size
    ensures !Validate(file).Invalid? ==>
      && |file| >= 84 + size && UserData(file) == file[84..84 + size]
      && (Validate(file).Good? <==> ChecksumOf(file[84..84 + size]) == sum)
  {
    if |file| >= 84 {
      NumberIsRead(file, 64, size);
      NumberIsRead(file, 72, sum);
      hide Read32, ChecksumOf;
    }
  }

  lemma {:induction false} NumberIsRead(file: seq<byte>, o: nat, n: nat)
    requires o + 4 <= |file| && NumberAt(file, o, n)
    ensures Read32(file, o) == n
  {
  }

  /** A valid file holds whole blocks; a buffer of odd size, which is not summed, never comes from one. */
  lemma {:induction false} ValidSizesAreEven(file: seq<byte>)
    requires !Validate(file).Invalid?
    ensures |UserData(file)| % 2 == 0
  {
    hide ChecksumOf, Read32, Read16, Word;
    WholeBlocksAreEven(Read32(file, O_DATA_SIZE));
  }

  lemma {:induction false} WholeBlocksAreEven(n: nat)
    requires n % 512 == 0
    ensures n % 2 == 0
  {
    assert n == n / 512 * 512;
  }

  /** The destructor of a changed image recomputes the checksum in the header. */
  function Close(file: seq<byte>): seq<byte>
    requires O_USER_DATA + Read32Size(file) <= |file|
  {
    Write32(file, O_DATA_CHECKSUM, ChecksumOf(UserData(file)))
  }

  /** Closing repairs the checksum of every valid file and touches no user data. */
  lemma {:induction false} CloseVerifies(file: seq<byte>)
    requires !Validate(file).Invalid?
    ensures Validate(Close(file)).Good? && UserData(Close(file)) == UserData(file)
  {
    var f := Close(file);
    assert forall i :: 0 <= i < |file| && !(O_DATA_CHECKSUM <= i < O_DATA_CHECKSUM + 4) ==> f[i] == file[i];
    assert UserData(f) == UserData(file);
  }

  /** After closing, damage to any one aligned word of the user data draws the warning on the next open. */
  lemma {:induction false} DamageIsReported(file: seq<byte>, damaged: seq<byte>, i: nat)
    requires !Validate(file).Invalid? && |damaged| == |file|
    requires damaged[..O_USER_DATA] == Close(file)[..O_USER_DATA]
    requires DifferInWord(UserData(file), damaged[O_USER_DATA..O_USER_DATA + Read32Size(file)], i)
    ensures Validate(damaged).ChecksumWarning?
  {
    CloseVerifies(file);
    var f := Close(file);
    forall k | 0 <= k < O_USER_DATA ensures damaged[k] == f[k] {
      assert damaged[k] == damaged[..O_USER_DATA][k];
    }
    hide ChecksumOf, Close, Word;
    DetectsOneWord(UserData(file), UserData(damaged), i);
  }
}
