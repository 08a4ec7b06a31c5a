/**
 A Pascal volume in memory: a list of files, each one extent, with free gaps before, between and after them.
 The operations as functions on values; PascalVolume has the classes that carry them out.
 */
module PascalVolumeSpec {
  import opened Blocks

  const MAX_FILES := 77
  const UNTYPED := 0
  const DIRECTORY := 1024  // byte address of the directory, block 2
  const ENTRY := 26        // bytes per directory entry

  datatype Errno = EROFS | ENOSPC | EINVAL | EEXIST | ENOENT

  datatype Result<+T> = Ok(value: T) | Err(errno: Errno)

  datatype File = File(firstBlock: nat, lastBlock: nat, fileKind: nat, status: bool, name: seq<byte>,
                       lastByte: nat, modification: nat, maxFileSize: nat, address: nat)
  {
    function Blocks(): int {
      lastBlock - firstBlock
    }
  }

  /** name is the volume name; tail fills the name field up to seven bytes. */
  datatype Volume = Volume(firstBlock: nat, lastBlock: nat, fileKind: nat, name: seq<byte>, tail: seq<byte>,
                           lastVolumeBlock: nat, accessTime: nat, lastBoot: nat, files: seq<File>)

  // ---------------------------------------------------------------- names

  function ToUpper(c: byte): byte {
    if 'a' as int <= c <= 'z' as int then c - 32 else c
  }

  function ToLower(c: byte): byte {
    if 'A' as int <= c <= 'Z' as int then c + 32 else c
  }

  function Upper(s: seq<byte>): (r: seq<byte>)
    ensures |r| == |s|
  {
    seq(|s|, i requires 0 <= i < |s| => ToUpper(s[i]))
  }

  /** The bytes before the first NUL, in lower case: what strcasecmp compares. */
  function Key(s: seq<byte>): seq<byte> {
    if s == [] || s[0] == 0 then [] else [ToLower(s[0])] + Key(s[1..])
  }

  predicate SameName(a: seq<byte>, b: seq<byte>) {
    Key(a) == Key(b)
  }

  /** A file name: 1 to 15 printing characters without $ = , ? */
  predicate ValidName(s: seq<byte>) {
    1 <= |s| <= 15 && forall i :: 0 <= i < |s| ==> ValidChar(s[i])
  }

  predicate ValidChar(c: byte) {
    0x21 <= c <= 0x7e && c != '$' as int && c != '=' as int && c != ',' as int && c != '?' as int
  }

  lemma {:induction false} KeyUpper(s: seq<byte>)
    ensures Key(Upper(s)) == Key(s)
  {
    if s != [] && s[0] != 0 {
      assert Upper(s)[1..] == Upper(s[1..]);
      KeyUpper(s[1..]);
    }
  }

  /** The same byte, or the same letter in upper and in lower case. */
  predicate SameLetter(x: byte, y: byte) {
    x == y || (65 <= x <= 90 && y == x + 32) || (65 <= y <= 90 && x == y + 32)
  }

  predicate Matching(a: seq<byte>, b: seq<byte>) {
    |a| == |b| && forall i :: 0 <= i < |a| ==> SameLetter(a[i], b[i])
  }

  /** Names match if they are equal but for the case of letters. */
  lemma {:induction false} SameNameIs(a: seq<byte>, b: seq<byte>)
    requires (forall i :: 0 <= i < |a| ==> a[i] != 0) && (forall i :: 0 <= i < |b| ==> b[i] != 0)
    ensures SameName(a, b) <==> Matching(a, b)
  {
    if a != [] && b != [] {
      SameNameIs(a[1..], b[1..]);
      assert a == [a[0]] + a[1..] && b == [b[0]] + b[1..];
      assert ToLower(a[0]) == ToLower(b[0]) <==> SameLetter(a[0], b[0]);
      MatchingRest(a, b);
      KeyParts(a, b);
      hide Key, SameLetter, ToLower, Matching;
    }
  }

  lemma {:induction false} MatchingRest(a: seq<byte>, b: seq<byte>)
    requires a != [] && b != []
    ensures Matching(a, b) <==> SameLetter(a[0], b[0]) && Matching(a[1..], b[1..])
  {
    hide SameLetter;
    if SameLetter(a[0], b[0]) && Matching(a[1..], b[1..]) {
      forall i | 0 <= i < |a| ensures SameLetter(a[i], b[i]) {
        assert i > 0 ==> SameLetter(a[1..][i - 1], b[1..][i - 1]);
      }
    }
    if Matching(a, b) {
      forall i | 0 <= i < |a| - 1 ensures SameLetter(a[1..][i], b[1..][i]) {
        assert SameLetter(a[i + 1], b[i + 1]);
      }
    }
  }

  lemma {:induction false} KeyParts(a: seq<byte>, b: seq<byte>)
    requires a != [] && b != [] && a[0] != 0 && b[0] != 0
    ensures Key(a) == Key(b) <==> ToLower(a[0]) == ToLower(b[0]) && Key(a[1..]) == Key(b[1..])
  {
    var x, y := [ToLower(a[0])] + Key(a[1..]), [ToLower(b[0])] + Key(b[1..]);
    assert x[0] == ToLower(a[0]) && y[0] == ToLower(b[0]) && x[1..] == Key(a[1..]) && y[1..] == Key(b[1..]);
  }

  /** A name as it is stored has no lower-case letters, and matches the name asked for byte by byte. */
  lemma {:induction false} UpperIs(s: seq<byte>)
    ensures Matching(s, Upper(s)) && forall i :: 0 <= i < |s| ==> !(97 <= Upper(s)[i] <= 122)
  {
    forall i | 0 <= i < |s| ensures SameLetter(s[i], Upper(s)[i]) && !(97 <= Upper(s)[i] <= 122) {
      assert Upper(s)[i] == ToUpper(s[i]);
    }
  }

  /** fileByName: the first file with the name, or |files|. */
  function FindName(files: seq<File>, name: seq<byte>): (k: nat)
    ensures k <= |files| && (k < |files| ==> SameName(name, files[k].name))
    ensures forall j :: 0 <= j < k ==> !SameName(name, files[j].name)
  {
    if files == [] || SameName(name, files[0].name) then 0 else 1 + FindName(files[1..], name)
  }

  ghost predicate NamesUnique(files: seq<File>) {
    forall i, j :: 0 <= i < j < |files| ==> !SameName(files[i].name, files[j].name)
  }

  // ---------------------------------------------------------------- gaps and extents

  /** The end of what lies before gap k; gap k is the one before file k, the last gap is the end of the volume. */
  function PrevLast(v: Volume, k: nat): nat
    requires k <= |v.files|
  {
    if k == 0 then v.lastBlock else v.files[k - 1].lastBlock
  }

  function NextFirst(v: Volume, k: nat): nat
    requires k <= |v.files|
  {
    if k < |v.files| then v.files[k].firstBlock else v.lastVolumeBlock
  }

  function Gap(v: Volume, k: nat): int
    requires k <= |v.files|
  {
    NextFirst(v, k) - PrevLast(v, k)
  }

  predicate FileOk(f: File, lastVolumeBlock: nat) {
    f.firstBlock <= f.lastBlock && f.firstBlock < lastVolumeBlock
  }

  predicate ExtentOk(v: Volume, k: nat)
    requires k < |v.files|
  {
    FileOk(v.files[k], v.lastVolumeBlock)
  }

  /** What calcMaxFileSize computes: file k may grow up to the next file. */
  predicate MaxFits(v: Volume, k: nat)
    requires k < |v.files|
  {
    v.files[k].maxFileSize == (NextFirst(v, k + 1) - v.files[k].firstBlock) * 512
  }

  /** Sorted extents inside the volume, none overlapping: exactly what loading a volume checks. */
  predicate ExtentsOk(v: Volume) {
    && (forall k :: 0 <= k < |v.files| ==> ExtentOk(v, k))
    && (forall k :: 0 <= k <= |v.files| ==> Gap(v, k) >= 0)
  }

  ghost predicate MaxOk(v: Volume) {
    forall k :: 0 <= k < |v.files| ==> MaxFits(v, k)
  }

  ghost predicate AddressesOk(files: seq<File>) {
    forall k :: 0 <= k < |files| ==> files[k].address == DIRECTORY + ENTRY * (k + 1)
  }

  ghost predicate VolumeOk(v: Volume) {
    |v.files| <= MAX_FILES && ExtentsOk(v) && MaxOk(v) && AddressesOk(v.files)
  }

  lemma {:induction false} AddressAt(files: seq<File>, k: nat)
    requires AddressesOk(files) && k < |files|
    ensures files[k].address == DIRECTORY + ENTRY * (k + 1) >= ENTRY
  {
  }

  lemma {:induction false} HasAddresses(v: Volume)
    requires VolumeOk(v)
    ensures AddressesOk(v.files) && forall j :: 0 <= j < |v.files| ==> v.files[j].address >= ENTRY
  {
  }

  lemma {:induction false} OkAt(v: Volume, k: nat)
    requires VolumeOk(v) && k < |v.files|
    ensures ExtentOk(v, k) && FileOk(v.files[k], v.lastVolumeBlock) && Gap(v, k) >= 0 && Gap(v, k + 1) >= 0
    ensures v.files[k].maxFileSize == (NextFirst(v, k + 1) - v.files[k].firstBlock) * 512
  {
    assert MaxFits(v, k) && Gap(v, k) >= 0 && Gap(v, k + 1) >= 0;
  }

  /** No two files share a block, and all lie between the directory and the end of the volume. */
  lemma {:induction false} ExtentsDisjoint(v: Volume, i: nat, j: nat)
    requires ExtentsOk(v) && i < j <= |v.files|
    ensures v.lastBlock <= v.files[i].firstBlock <= v.files[i].lastBlock <= NextFirst(v, j) <= v.lastVolumeBlock
  {
    assert Gap(v, j) >= 0 && Gap(v, i) >= 0 && ExtentOk(v, i) && ExtentOk(v, j - 1);
    assert j < |v.files| ==> ExtentOk(v, j);
    if i < j - 1 {
      ExtentsDisjoint(v, i, j - 1);
    } else if i > 0 {
      ExtentsDisjoint(v, i - 1, i);
    }
  }

  // ---------------------------------------------------------------- queries

  /** The first gap from k on with room for n blocks; |files| + 1 if there is none. */
  function FirstFit(v: Volume, k: nat, n: nat): (r: nat)
    requires k <= |v.files| + 1
    ensures k <= r <= |v.files| + 1
    ensures r <= |v.files| ==> Gap(v, r) >= n
    ensures forall j :: k <= j < r ==> Gap(v, j) < n
    decreases |v.files| + 1 - k
  {
    if k > |v.files| || Gap(v, k) >= n then k else FirstFit(v, k + 1, n)
  }

  /** The largest gap among the first k. */
  function MaxGap(v: Volume, k: nat): int
    requires k <= |v.files| + 1
  {
    if k == 0 then 0 else if MaxGap(v, k - 1) < Gap(v, k - 1) then Gap(v, k - 1) else MaxGap(v, k - 1)
  }

  function MaxContiguousBlocks(v: Volume): int {
    MaxGap(v, |v.files| + 1)
  }

  lemma {:induction false} MaxGapBounds(v: Volume, k: nat)
    requires k <= |v.files| + 1
    ensures MaxGap(v, k) >= 0 && forall j :: 0 <= j < k ==> Gap(v, j) <= MaxGap(v, k)
    ensures MaxGap(v, k) == 0 || exists j :: 0 <= j < k && Gap(v, j) == MaxGap(v, k)
  {
    if k > 0 {
      MaxGapBounds(v, k - 1);
      if MaxGap(v, k) != 0 && MaxGap(v, k - 1) >= Gap(v, k - 1) {
        var j :| 0 <= j < k - 1 && Gap(v, j) == MaxGap(v, k - 1);
        assert Gap(v, j) == MaxGap(v, k);
      }
    }
  }

  lemma {:induction false} MaxGapBelow(v: Volume, k: nat, m: int)
    requires k <= |v.files| + 1 && m >= 0 && forall j :: 0 <= j < k ==> Gap(v, j) <= m
    ensures MaxGap(v, k) <= m
  {
    if k > 0 {
      MaxGapBelow(v, k - 1, m);
    }
  }

  /** A fitting gap exists exactly when maxContiguousBlocks says so. */
  lemma {:induction false} FitsExactly(v: Volume, n: nat)
    requires n >= 1
    ensures FirstFit(v, 0, n) <= |v.files| <==> MaxContiguousBlocks(v) >= n
  {
    MaxGapBounds(v, |v.files| + 1);
    var r := FirstFit(v, 0, n);
    if r <= |v.files| {
      assert Gap(v, r) >= n;
    }
  }

  /** Sum of the first k gaps. */
  function GapSum(v: Volume, k: nat): int
    requires k <= |v.files| + 1
  {
    if k == 0 then 0 else GapSum(v, k - 1) + Gap(v, k - 1)
  }

  /** Blocks of the first k files. */
  function FileSum(v: Volume, k: nat): int
    requires k <= |v.files|
  {
    if k == 0 then 0 else FileSum(v, k - 1) + v.files[k - 1].Blocks()
  }

  function FreeBlocks(v: Volume, krunched: bool): int {
    if krunched then GapSum(v, |v.files| + 1) else Gap(v, |v.files|)
  }

  lemma {:induction false} SumsTelescope(v: Volume, k: nat)
    requires k <= |v.files|
    ensures v.lastBlock + GapSum(v, k) + FileSum(v, k) == PrevLast(v, k)
  {
    if k > 0 {
      SumsTelescope(v, k - 1);
    }
  }

  /** Every block of the volume belongs to the directory, to a file or to a gap. */
  lemma {:induction false} Conservation(v: Volume)
    ensures v.lastBlock + FreeBlocks(v, true) + FileSum(v, |v.files|) == v.lastVolumeBlock
    ensures FreeBlocks(v, false) ==
      v.lastVolumeBlock - if v.files == [] then v.lastBlock else v.files[|v.files| - 1].lastBlock
  {
    SumsTelescope(v, |v.files|);
  }

  // ---------------------------------------------------------------- changing the list

  function Renumbered(files: seq<File>): (r: seq<File>)
    ensures |r| == |files|
  {
    seq(|files|, i requires 0 <= i < |files| => files[i].(address := DIRECTORY + ENTRY * (i + 1)))
  }

  function NewFile(v: Volume, k: nat, name: seq<byte>, today: nat): File
    requires k <= |v.files| && Gap(v, k) >= 0
  {
    File(PrevLast(v, k), PrevLast(v, k) + 1, UNTYPED, false, Upper(name), 0, today, Gap(v, k) * 512,
         DIRECTORY + ENTRY * (k + 1))
  }

  /** The file before the new one can no longer grow. */
  function Capped(files: seq<File>, k: nat): (r: seq<File>)
    requires k <= |files| && (k > 0 ==> files[k - 1].Blocks() >= 0)
    ensures |r| == |files|
  {
    if k == 0 then files else files[k - 1 := files[k - 1].(maxFileSize := files[k - 1].Blocks() * 512)]
  }

  function Inserted(v: Volume, k: nat, f: File): Volume
    requires k <= |v.files| && (k > 0 ==> ExtentOk(v, k - 1))
  {
    var capped := Capped(v.files, k);
    var files := capped[..k] + [f] + capped[k..];
    v.(files := if k < |v.files| then Renumbered(files) else files)
  }

  function Moved(f: File): File
    requires f.address >= ENTRY
  {
    f.(address := f.address - ENTRY)
  }

  /** The file before the removed one gets its room. */
  function Extended(files: seq<File>, k: nat): (r: seq<File>)
    requires k < |files|
    ensures |r| == |files|
  {
    if k == 0 then files
    else files[k - 1 := files[k - 1].(maxFileSize := files[k - 1].maxFileSize + files[k].maxFileSize)]
  }

  function Removed(v: Volume, k: nat): (r: Volume)
    requires k < |v.files| && forall j :: 0 <= j < |v.files| ==> v.files[j].address >= ENTRY
    ensures |r.files| == |v.files| - 1
  {
    var files := Extended(v.files, k);
    v.(files := files[..k] + seq(|files| - k - 1, j requires 0 <= j < |files| - k - 1 => Moved(files[k + 1 + j])))
  }

  lemma {:induction false} InsertedFiles(v: Volume, k: nat, f: File, j: nat)
    requires VolumeOk(v) && k <= |v.files| && j <= |v.files| && f.address == DIRECTORY + ENTRY * (k + 1)
    ensures k > 0 ==> v.files[k - 1].Blocks() >= 0
    ensures var r := Inserted(v, k, f).files;
      && |r| == |v.files| + 1
      && r[j] == (if j < k then Capped(v.files, k)[j]
        else if j == k then f
        else v.files[j - 1].(address := r[j].address))
      && r[j].address == DIRECTORY + ENTRY * (j + 1)
  {
    HasAddresses(v);
    if k > 0 {
      OkAt(v, k - 1);
    }
    if j > 0 {
      AddressAt(v.files, j - 1);
    }
    if j < |v.files| {
      AddressAt(v.files, j);
    }
    hide VolumeOk, AddressesOk;
    var capped := Capped(v.files, k);
    assert j < k ==> capped[j].address == v.files[j].address;
    assert j > k ==> capped[j - 1] == v.files[j - 1];
  }

  lemma {:induction false} InsertedGaps(v: Volume, k: nat, f: File, j: nat)
    requires VolumeOk(v) && k <= |v.files| && j <= |v.files| + 1 && f.address == DIRECTORY + ENTRY * (k + 1)
    ensures var w := Inserted(v, k, f);
      && |w.files| == |v.files| + 1
      && PrevLast(w, j) == (if j <= k then PrevLast(v, j) else if j == k + 1 then f.lastBlock else PrevLast(v, j - 1))
      && NextFirst(w, j) == (if j < k then NextFirst(v, j) else if j == k then f.firstBlock else NextFirst(v, j - 1))
  {
    if j > 0 {
      InsertedFiles(v, k, f, j - 1);
    }
    InsertedFiles(v, k, f, if j <= |v.files| then j else 0);
  }

  lemma {:induction false} CappedMax(files: seq<File>, k: nat, j: nat)
    requires k <= |files| && j < |files| && (k > 0 ==> files[k - 1].Blocks() >= 0)
    ensures Capped(files, k)[j] == files[j].(maxFileSize :=
      if j + 1 == k then files[j].Blocks() * 512 else files[j].maxFileSize)
  {
  }

  lemma {:induction false} InsertedFileOk(v: Volume, k: nat, f: File, j: nat)
    requires VolumeOk(v) && k <= |v.files| && j <= |v.files| && f.address == DIRECTORY + ENTRY * (k + 1)
    requires f.firstBlock == PrevLast(v, k) && f.maxFileSize == Gap(v, k) * 512
    ensures var w := Inserted(v, k, f);
      && |w.files| == |v.files| + 1
      && MaxFits(w, j) && w.files[j].address == DIRECTORY + ENTRY * (j + 1)
      && (j != k ==> ExtentOk(w, j))
      && (j == k ==> w.files[j] == f)
  {
    InsertedFiles(v, k, f, j);
    InsertedGaps(v, k, f, j + 1);
    if j < k {
      OkAt(v, j);
      CappedMax(v.files, k, j);
    } else if j > k {
      OkAt(v, j - 1);
    }
  }

  /** Inserting a file of one block into a gap with room keeps the volume in order, the limits kept step by step too. */
  lemma {:induction false} InsertedOk(v: Volume, k: nat, name: seq<byte>, today: nat)
    requires VolumeOk(v) && k <= |v.files| < MAX_FILES && Gap(v, k) >= 0
    ensures var w := Inserted(v, k, NewFile(v, k, name, today));
      && |w.files| == |v.files| + 1 && MaxOk(w) && AddressesOk(w.files)
      && (ExtentsOk(w) <==> Gap(v, k) >= 1)
  {
    var f := NewFile(v, k, name, today);
    var w := Inserted(v, k, f);
    forall j: nat | j <= |v.files| + 1 ensures j != k + 1 ==> Gap(w, j) >= 0 {
      InsertedGaps(v, k, f, j);
      assert j < k ==> Gap(v, j) >= 0;
      assert j > k + 1 ==> Gap(v, j - 1) >= 0;
    }
    InsertedGaps(v, k, f, k + 1);
    assert Gap(w, k + 1) == Gap(v, k) - 1;
    forall j: nat | j <= |v.files|
      ensures MaxFits(w, j) && w.files[j].address == DIRECTORY + ENTRY * (j + 1)
      ensures j != k ==> ExtentOk(w, j)
      ensures j == k ==> w.files[j] == f
    {
      InsertedFileOk(v, k, f, j);
    }
    InsideVolume(v, k);
  }

  lemma {:induction false} InsideVolume(v: Volume, k: nat)
    requires ExtentsOk(v) && k <= |v.files|
    ensures NextFirst(v, k) <= v.lastVolumeBlock
  {
    assert k < |v.files| ==> ExtentOk(v, k);
  }

  lemma {:induction false} ExtendedMax(files: seq<File>, k: nat, j: nat)
    requires k < |files| && j < |files|
    ensures Extended(files, k)[j] == files[j].(maxFileSize :=
      files[j].maxFileSize + (if j + 1 == k then files[k].maxFileSize else 0))
  {
  }

  lemma {:induction false} RemovedFiles(v: Volume, k: nat, j: nat)
    requires VolumeOk(v) && k < |v.files| && j < |v.files| - 1
    ensures var r := Removed(v, k).files;
      && |r| == |v.files| - 1
      && r[j] == (if j < k then Extended(v.files, k)[j] else Moved(v.files[j + 1]))
      && r[j].address == DIRECTORY + ENTRY * (j + 1)
  {
    HasAddresses(v);
    AddressAt(v.files, j);
    AddressAt(v.files, j + 1);
    ExtendedMax(v.files, k, j);
    ExtendedMax(v.files, k, j + 1);
  }

  lemma {:induction false} RemovedGaps(v: Volume, k: nat, j: nat)
    requires VolumeOk(v) && k < |v.files| && j < |v.files|
    ensures var w := Removed(v, k);
      && |w.files| == |v.files| - 1
      && PrevLast(w, j) == (if j <= k then PrevLast(v, j) else PrevLast(v, j + 1))
      && NextFirst(w, j) == (if j < k then NextFirst(v, j) else NextFirst(v, j + 1))
      && Gap(w, j) == (if j < k then Gap(v, j) else if j > k then Gap(v, j + 1)
        else Gap(v, k) + v.files[k].Blocks() + Gap(v, k + 1))
  {
    if j > 0 {
      RemovedFiles(v, k, j - 1);
    }
    if j < |v.files| - 1 {
      RemovedFiles(v, k, j);
    }
  }

  lemma {:induction false} RemovedFileOk(v: Volume, k: nat, j: nat)
    requires VolumeOk(v) && k < |v.files| && j < |v.files| - 1
    ensures var w := Removed(v, k);
      && MaxFits(w, j) && w.files[j].address == DIRECTORY + ENTRY * (j + 1) && ExtentOk(w, j)
  {
    HasAddresses(v);
    OkAt(v, j);
    OkAt(v, j + 1);
    OkAt(v, k);
    RemovedFiles(v, k, j);
    RemovedGaps(v, k, j + 1);
    ExtendedMax(v.files, k, j);
  }

  /** Removing a file keeps the volume in order and turns its blocks and the gaps around it into one gap. */
  lemma {:induction false} RemovedOk(v: Volume, k: nat)
    requires VolumeOk(v) && k < |v.files|
    ensures VolumeOk(Removed(v, k)) && |Removed(v, k).files| == |v.files| - 1
    ensures Gap(Removed(v, k), k) == Gap(v, k) + v.files[k].Blocks() + Gap(v, k + 1)
  {
    HasAddresses(v);
    OkAt(v, k);
    var w := Removed(v, k);
    forall j: nat | j < |v.files| ensures Gap(w, j) >= 0 {
      RemovedGaps(v, k, j);
      assert Gap(v, j) >= 0 && Gap(v, j + 1) >= 0;
    }
    RemovedGaps(v, k, k);
    forall j: nat | j < |v.files| - 1
      ensures MaxFits(w, j) && w.files[j].address == DIRECTORY + ENTRY * (j + 1) && ExtentOk(w, j)
    {
      RemovedFileOk(v, k, j);
    }
  }

  /** Removing a file never makes the largest gap smaller. */
  lemma {:induction false} RemovedContiguous(v: Volume, k: nat)
    requires VolumeOk(v) && k < |v.files|
    ensures MaxContiguousBlocks(Removed(v, k)) >= MaxContiguousBlocks(v)
  {
    HasAddresses(v);
    var w := Removed(v, k);
    MaxGapBounds(w, |v.files|);
    forall j: nat | j <= |v.files| ensures Gap(v, j) <= MaxContiguousBlocks(w) {
      RemovedGap(v, k, j);
    }
    MaxGapBelow(v, |v.files| + 1, MaxContiguousBlocks(w));
  }

  /** Each gap survives the removal of a file, alone or in a larger one. */
  lemma {:induction false} RemovedGap(v: Volume, k: nat, j: nat)
    requires VolumeOk(v) && k < |v.files| && j <= |v.files|
    requires forall j :: 0 <= j < |v.files| ==> v.files[j].address >= ENTRY
    ensures var i := if j <= k then j else j - 1; i <= |Removed(v, k).files| && Gap(v, j) <= Gap(Removed(v, k), i)
  {
    OkAt(v, k);
    RemovedGaps(v, k, if j <= k then j else j - 1);
  }
}
