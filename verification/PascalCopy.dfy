/** What copy does to the blocks of the volume. */
module PascalCopy {
  import opened Blocks
  import opened PascalVolumeSpec
  import opened PascalOperations
  import opened PascalDirectory
  import opened PascalDisk
  import opened PascalDiskRuns

  /** The loop of copy: block after block from one extent to the other. */
  function CopyBlocks(arr: seq<Block>, from: nat, to: nat, n: nat): (r: seq<Block>)
    requires from + n <= |arr| && to + n <= |arr|
    ensures |r| == |arr|
  {
    if n == 0 then arr
    else
      var r := CopyBlocks(arr, from, to, n - 1);
      r[to + n - 1 := r[from + n - 1]]
  }

  lemma {:induction false} CopyBlocksAt(arr: seq<Block>, from: nat, to: nat, n: nat, b: nat)
    requires from + n <= |arr| && to + n <= |arr| && b < |arr|
    requires from == to || from + n <= to || to + n <= from
    ensures CopyBlocks(arr, from, to, n)[b] == if to <= b < to + n then arr[b - to + from] else arr[b]
  {
    if n > 0 {
      CopyBlocksAt(arr, from, to, n - 1, b);
      CopyBlocksAt(arr, from, to, n - 1, from + n - 1);
    }
  }

  /** The volume's blocks are on the device. */
  predicate OnDevice(s: Mounted) {
    s.volume.lastVolumeBlock <= |s.disk|
  }

  /** The disk when copy has found or made its target. */
  function TargetDisk(s: Mounted, oldName: seq<byte>, newName: seq<byte>, today: nat): (r: seq<Block>)
    requires VolumeOk(s.volume) && Standard(s.volume, s.disk)
    ensures |r| == |s.disk|
  {
    var v := s.volume;
    var i, j := FindName(v.files, oldName), FindName(v.files, newName);
    if i == |v.files| || !ValidName(newName) then s.disk
    else
      OkAt(v, i);
      var n := v.files[i].Blocks();
      if j == |v.files| then
        if MaxContiguousBlocks(v) < n then s.disk else AfterCreate(s, false, newName, n, today).disk
      else if v.files[j].maxFileSize >= n * 512 || MaxContiguousBlocks(v) < n then s.disk
      else
        var s1 := AfterUnlink(s, false, newName);
        UnlinkKeeps(v, false, newName);
        if MaxContiguousBlocks(s1.volume) < n then s1.disk else AfterCreate(s1, false, newName, n, today).disk
  }

  /** The source is still there after a copy, as the target itself or beside it. */
  lemma {:induction false} SourceStays(v: Volume, oldName: seq<byte>, newName: seq<byte>, today: nat) returns (k: nat)
    requires VolumeOk(v) && Copy(v, false, oldName, newName, today).Copied?
    ensures var r := Copy(v, false, oldName, newName, today); var i := FindName(v.files, oldName);
      && i < |v.files| && k < |r.volume.files| && r.target < |r.volume.files|
      && r.volume.files[k].firstBlock == v.files[i].firstBlock
      && (k != r.target ==> r.volume.files[k].lastBlock == v.files[i].lastBlock)
  {
    hide ValidName, MaxContiguousBlocks, FindName, CopyToNew, ExtentsOk, MaxOk, AddressesOk;
    var i, j := FindName(v.files, oldName), FindName(v.files, newName);
    var source := v.files[i];
    OkAt(v, i);
    if j == |v.files| {
      k := SourceInNew(v, i, source, newName, today);
    } else if v.files[j].maxFileSize >= source.Blocks() * 512 {
      k := i;
    } else {
      OkAt(v, j);
      HasAddresses(v);
      RemovedOk(v, j);
      var i' := if i < j then i else i - 1;
      RemovedName(v, j, i');
      k := SourceInNew(Removed(v, j), i', source, newName, today);
    }
  }

  lemma {:induction false} SourceInNew(v: Volume, i: nat, source: File, newName: seq<byte>, today: nat) returns (k: nat)
    requires VolumeOk(v) && i < |v.files| && SameExtent(v.files[i], source) && source.Blocks() >= 0
    requires CopyToNew(v, source, newName, today).Copied?
    ensures var r := CopyToNew(v, source, newName, today);
      && k < |r.volume.files| && r.target < |r.volume.files| && k != r.target
      && r.volume.files[k].firstBlock == source.firstBlock && r.volume.files[k].lastBlock == source.lastBlock
  {
    hide ValidName, MaxContiguousBlocks, FindName, Inserted;
    var t := FirstFit(v, 0, source.Blocks());
    var f := NewFile(v, t, newName, today);
    InsertedFiles(v, t, f, t);
    InsertedSame(v, t, f, i);
    k := if i < t then i else i + 1;
  }

  lemma {:induction false} SameVolume(v: Volume, oldName: seq<byte>, newName: seq<byte>, today: nat)
    requires VolumeOk(v)
    ensures var w := Copy(v, false, oldName, newName, today).volume;
      w.lastVolumeBlock == v.lastVolumeBlock && w.lastBlock == v.lastBlock
  {
    hide ValidName, MaxContiguousBlocks, FindName, VolumeOk, NewFile, Capped;
  }

  lemma {:induction false} Apart(v: Volume, i: nat, j: nat)
    requires ExtentsOk(v) && i < j < |v.files|
    ensures v.files[i].lastBlock <= v.files[j].firstBlock
  {
    ExtentsDisjoint(v, i, j);
  }

  /** Where source and target lie after a copy: inside the volume, and the same or apart. */
  lemma {:induction false} CopyPlaces(v: Volume, oldName: seq<byte>, newName: seq<byte>, today: nat)
    requires VolumeOk(v) && Copy(v, false, oldName, newName, today).Copied?
    ensures var r := Copy(v, false, oldName, newName, today); var i := FindName(v.files, oldName);
      && VolumeOk(r.volume) && i < |v.files| && r.target < |r.volume.files|
      && r.volume.lastVolumeBlock == v.lastVolumeBlock && r.volume.lastBlock == v.lastBlock
      && var source, target := v.files[i], r.volume.files[r.target];
      && target.Blocks() == source.Blocks() >= 0
      && v.lastBlock <= source.firstBlock && source.lastBlock <= v.lastVolumeBlock
      && v.lastBlock <= target.firstBlock && target.lastBlock <= v.lastVolumeBlock
      && (source.firstBlock == target.firstBlock
        || source.lastBlock <= target.firstBlock || target.lastBlock <= source.firstBlock)
  {
    hide Copy, FindName, MaxOk, AddressesOk, Gap;
    var r := Copy(v, false, oldName, newName, today);
    var i := FindName(v.files, oldName);
    CopyKeeps(v, false, oldName, newName, today);
    var k := SourceStays(v, oldName, newName, today);
    SameVolume(v, oldName, newName, today);
    ExtentsDisjoint(v, i, |v.files|);
    ExtentsDisjoint(r.volume, r.target, |r.volume.files|);
    if k < r.target {
      Apart(r.volume, k, r.target);
    } else if r.target < k {
      Apart(r.volume, r.target, k);
    }
  }

  lemma {:induction false} CopiedRange(disk: seq<Block>, arr: seq<Block>, from: nat, to: nat, n: nat)
    requires STANDARD_BLOCKS <= from && from + n <= |arr| && STANDARD_BLOCKS <= to && to + n <= |arr|
    requires SameOutside(disk, arr) && (from == to || from + n <= to || to + n <= from)
    ensures CopyBlocks(arr, from, to, n)[to..to + n] == disk[from..from + n]
    ensures forall b :: STANDARD_BLOCKS <= b < |arr| && !(to <= b < to + n) ==>
      CopyBlocks(arr, from, to, n)[b] == disk[b]
  {
    hide CopyBlocks;
    var c := CopyBlocks(arr, from, to, n);
    forall b: nat | STANDARD_BLOCKS <= b < |arr| && !(to <= b < to + n) ensures c[b] == disk[b] {
      CopyBlocksAt(arr, from, to, n, b);
      assert arr[b] == disk[b];
    }
    var moved := c[to..to + n];
    forall b: nat | b < n ensures moved[b] == disk[from..from + n][b] {
      CopyBlocksAt(arr, from, to, n, to + b);
      assert arr[from + b] == disk[from + b];
    }
  }

  lemma {:induction false} CreateOutside(s: Mounted, name: seq<byte>, blocks: nat, today: nat)
    requires VolumeOk(s.volume) && Standard(s.volume, s.disk)
    ensures SameOutside(s.disk, AfterCreate(s, false, name, blocks, today).disk)
  {
    var v := s.volume;
    var r := Create(v, false, name, blocks, today);
    if r.Ok? {
      var k := FirstFit(v, 0, blocks);
      InsertedFiles(v, k, NewFile(v, k, name, today), k);
      CreateDiskDir(s.disk, v, r.value, k);
    }
  }

  /** Finding or making the target touches the directory only. */
  lemma {:induction false} TargetOutside(s: Mounted, oldName: seq<byte>, newName: seq<byte>, today: nat)
    requires VolumeOk(s.volume) && Standard(s.volume, s.disk)
    ensures SameOutside(s.disk, TargetDisk(s, oldName, newName, today))
  {
    hide AfterCreate, ValidName, FindName, MaxContiguousBlocks;
    var v := s.volume;
    var i, j := FindName(v.files, oldName), FindName(v.files, newName);
    if i < |v.files| {
      OkAt(v, i);
      CreateOutside(s, newName, v.files[i].Blocks(), today);
      if j < |v.files| {
        var s1 := AfterUnlink(s, false, newName);
        UnlinkKeeps(v, false, newName);
        UnlinkOutside(s.disk, s1.volume, j);
        CreateOutside(s1, newName, v.files[i].Blocks(), today);
      }
    }
  }

  /** The disk after copy, whether it succeeds or not. */
  function CopiedDisk(s: Mounted, readOnly: bool, oldName: seq<byte>, newName: seq<byte>, today: nat): (r: seq<Block>)
    requires VolumeOk(s.volume) && Standard(s.volume, s.disk) && OnDevice(s)
    ensures |r| == |s.disk|
  {
    var out := Copy(s.volume, readOnly, oldName, newName, today);
    if readOnly then s.disk
    else if out.Failed? then TargetDisk(s, oldName, newName, today)
    else
      CopyPlaces(s.volume, oldName, newName, today);
      var source, target := s.volume.files[FindName(s.volume.files, oldName)], out.volume.files[out.target];
      CopyBlocks(TargetDisk(s, oldName, newName, today), source.firstBlock, target.firstBlock, source.Blocks())
  }

  /**
   A successful copy: the file with the new name has the source's blocks, and no block outside the directory and
   that file is changed.
   */
  lemma {:induction false} CopyContents(s: Mounted, oldName: seq<byte>, newName: seq<byte>, today: nat)
    requires VolumeOk(s.volume) && Standard(s.volume, s.disk) && OnDevice(s)
    requires Copy(s.volume, false, oldName, newName, today).Copied?
    ensures var r := Copy(s.volume, false, oldName, newName, today);
      var i := FindName(s.volume.files, oldName);
      var disk := CopiedDisk(s, false, oldName, newName, today);
      && i < |s.volume.files| && r.target < |r.volume.files|
      && var source, target := s.volume.files[i], r.volume.files[r.target];
      && IsCopy(target, source, newName, today)
      && source.firstBlock <= source.lastBlock <= |disk| && target.firstBlock <= target.lastBlock <= |disk|
      && disk[target.firstBlock..target.lastBlock] == s.disk[source.firstBlock..source.lastBlock]
      && forall b :: STANDARD_BLOCKS <= b < |disk| && !(target.firstBlock <= b < target.lastBlock) ==>
        disk[b] == s.disk[b]
  {
    hide Copy, VolumeOk, FindName, TargetDisk, IsCopy, Listed, NamesUnique;
    CopyPlaces(s.volume, oldName, newName, today);
    CopyKeeps(s.volume, false, oldName, newName, today);
    TargetOutside(s, oldName, newName, today);
    var r := Copy(s.volume, false, oldName, newName, today);
    var i := FindName(s.volume.files, oldName);
    var source, target := s.volume.files[i], r.volume.files[r.target];
    CopiedRange(s.disk, TargetDisk(s, oldName, newName, today), source.firstBlock, target.firstBlock, source.Blocks());
  }

  /** A file of the new list that is not the target keeps its contents. */
  lemma {:induction false} OtherKept(s: Mounted, oldName: seq<byte>, newName: seq<byte>, today: nat, j: nat)
    requires VolumeOk(s.volume) && Standard(s.volume, s.disk) && OnDevice(s)
    requires Copy(s.volume, false, oldName, newName, today).Copied?
    ensures var r := Copy(s.volume, false, oldName, newName, today);
      var disk := CopiedDisk(s, false, oldName, newName, today);
      j < |r.volume.files| && j != r.target ==>
        var f := r.volume.files[j];
        f.firstBlock <= f.lastBlock <= |disk| && disk[f.firstBlock..f.lastBlock] == s.disk[f.firstBlock..f.lastBlock]
  {
    hide Copy, FindName, MaxOk, AddressesOk, CopiedDisk;
    CopyContents(s, oldName, newName, today);
    CopyPlaces(s.volume, oldName, newName, today);
    var r := Copy(s.volume, false, oldName, newName, today);
    if j < |r.volume.files| && j != r.target {
      ExtentsDisjoint(r.volume, j, |r.volume.files|);
      if j < r.target {
        Apart(r.volume, j, r.target);
      } else {
        Apart(r.volume, r.target, j);
      }
    }
  }

  /**
   Every file of the old list but the one that had the new name is still listed, in the same place, with the same
   contents.
   */
  lemma {:induction false} OthersKeepContents(s: Mounted, oldName: seq<byte>, newName: seq<byte>, today: nat, j: nat)
    requires VolumeOk(s.volume) && Standard(s.volume, s.disk) && OnDevice(s)
    requires Copy(s.volume, false, oldName, newName, today).Copied?
    requires j < |s.volume.files| && j != FindName(s.volume.files, newName)
    ensures var r := Copy(s.volume, false, oldName, newName, today);
      var disk := CopiedDisk(s, false, oldName, newName, today);
      var f := s.volume.files[j];
      && Listed(r, f) && f.firstBlock <= f.lastBlock <= |disk|
      && disk[f.firstBlock..f.lastBlock] == s.disk[f.firstBlock..f.lastBlock]
  {
    hide Copy, FindName, VolumeOk, CopiedDisk, Standard, OnDevice, IsCopy;
    CopyKeeps(s.volume, false, oldName, newName, today);
    var r, f := Copy(s.volume, false, oldName, newName, today), s.volume.files[j];
    var k :| 0 <= k < |r.volume.files| && k != r.target && SameExtent(r.volume.files[k], f);
    OtherKept(s, oldName, newName, today, k);
  }

  // ---------------------------------------------------------------- the directory after a copy

  /** The entries of a directory lie in its first four blocks. */
  lemma {:induction false} SlotSame(a: seq<Block>, b: seq<Block>, k: nat)
    requires |a| == |b| && DIR_BLOCK + STANDARD_BLOCKS <= |a| && k <= MAX_FILES
    requires forall i :: DIR_BLOCK <= i < STANDARD_BLOCKS ==> a[i] == b[i]
    ensures Slot(Dir(a), k) == Slot(Dir(b), k)
  {
    forall i: nat | i < ENTRY ensures Slot(Dir(a), k)[i] == Slot(Dir(b), k)[i] {
      var o := ENTRY * k + i;
      FlatAt(a, DIR_BLOCK, STANDARD_BLOCKS, o);
      FlatAt(b, DIR_BLOCK, STANDARD_BLOCKS, o);
      assert DIR_BLOCK <= DIR_BLOCK + o / BLOCK_SIZE < STANDARD_BLOCKS;
    }
  }

  lemma {:induction false} DirSame(a: seq<Block>, b: seq<Block>, v: Volume)
    requires |a| == |b| && (forall i :: DIR_BLOCK <= i < STANDARD_BLOCKS && i < |a| ==> a[i] == b[i])
    requires DirOk(a, v)
    ensures DirOk(b, v)
  {
    hide HeaderBytes, FileBytes, Slot, Dir, HeaderEncodable;
    SlotSame(a, b, 0);
    forall k: nat | k < |v.files| ensures EntryOk(Dir(b), v.files, k) {
      SlotSame(a, b, k + 1);
      assert EntryOk(Dir(a), v.files, k);
    }
  }

  /** A file made by create, for any number of blocks asked for, is in the directory on disk. */
  lemma {:induction false} MadeMounted(s: Mounted, name: seq<byte>, blocks: nat, today: nat)
    requires MountedOk(s) && today < WORD16 && Create(s.volume, false, name, blocks, today).Ok?
    ensures var r, k := AfterCreate(s, false, name, blocks, today), FirstFit(s.volume, 0, blocks);
      && DirOk(r.disk, r.volume) && k <= |s.volume.files| && Gap(s.volume, k) >= 0
      && |r.volume.files| == |s.volume.files| + 1 && r.volume.files[k] == NewFile(s.volume, k, name, today)
  {
    hide CreateDisk, Inserted, DirOk, FindName, NamesUnique;
    var v, k := s.volume, FirstFit(s.volume, 0, blocks);
    MadeInside(s, k, blocks);
    CreateDiskOk(s.disk, v, k, NewFile(v, k, name, today));
  }

  lemma {:induction false} MadeInside(s: Mounted, k: nat, blocks: nat)
    requires MountedOk(s) && k == FirstFit(s.volume, 0, blocks) <= |s.volume.files|
    ensures Gap(s.volume, k) >= 0 && PrevLast(s.volume, k) + 1 < WORD16 && Standard(s.volume, s.disk)
  {
    assert Gap(s.volume, 0) >= 0 && Gap(s.volume, k) >= 0;
    if blocks > 0 {
      LastFits(s, k);
    }
  }

  /** The file copy works on before it gets what it takes from the source: an old one, or a new one of one block. */
  predicate FoundOrMade(v: Volume, target: File, t: nat, oldName: seq<byte>, newName: seq<byte>, today: nat) {
    if Overwrites(v, oldName, newName) then t < |v.files| && t == FindName(v.files, newName) && target == v.files[t]
    else target.fileKind == UNTYPED && target.lastByte == 0 && target.Blocks() == 1 && target.modification == today
  }

  /** The target exists and is large enough. */
  predicate Overwrites(v: Volume, oldName: seq<byte>, newName: seq<byte>) {
    var i, j := FindName(v.files, oldName), FindName(v.files, newName);
    i < |v.files| && j < |v.files| && v.files[j].maxFileSize >= v.files[i].Blocks() * 512
  }

  /** The volume when copy has found or made its target, and that the disk agrees with it then. */
  lemma {:induction false} TargetMounted(s: Mounted, oldName: seq<byte>, newName: seq<byte>, today: nat)
    returns (w: Volume)
    requires MountedOk(s) && today < WORD16 && Copy(s.volume, false, oldName, newName, today).Copied?
    ensures var r := Copy(s.volume, false, oldName, newName, today);
      var i := FindName(s.volume.files, oldName);
      && i < |s.volume.files| && s.volume.files[i].Blocks() >= 0 && r.target < |w.files|
      && Standard(s.volume, s.disk) && DirOk(TargetDisk(s, oldName, newName, today), w)
      && r.volume == Retargeted(w, r.target, s.volume.files[i], today)
      && FoundOrMade(s.volume, w.files[r.target], r.target, oldName, newName, today)
  {
    hide VolumeOk, DirOk, FindName, MaxContiguousBlocks, ValidName, NamesUnique, Removed, Inserted;
    var v := s.volume;
    var i, j := FindName(v.files, oldName), FindName(v.files, newName);
    OkAt(v, i);
    var n := v.files[i].Blocks();
    AgreesNow(s);
    if Overwrites(v, oldName, newName) {
      w := v;
    } else if j == |v.files| {
      MadeMounted(s, newName, n, today);
      w := AfterCreate(s, false, newName, n, today).volume;
    } else {
      var s1 := AfterUnlink(s, false, newName);
      UnlinkMounted(s, false, newName);
      AgreesNow(s1);
      MadeMounted(s1, newName, n, today);
      w := AfterCreate(s1, false, newName, n, today).volume;
    }
  }

  lemma {:induction false} AgreesNow(s: Mounted)
    requires MountedOk(s)
    ensures VolumeOk(s.volume) && Standard(s.volume, s.disk) && DirOk(s.disk, s.volume)
  {
  }

  /** The bytes of an entry tell its kind, end, length and date. */
  lemma {:induction false} EntryTells(f: File, g: File)
    requires FileEncodable(f) && FileEncodable(g) && FileBytes(f) == FileBytes(g)
    ensures f.fileKind == g.fileKind && f.lastByte == g.lastByte && f.lastBlock == g.lastBlock
    ensures f.modification == g.modification
  {
    hide FileBytes, DecodeFile;
    DecodeFileBytes(f, 0);
    DecodeFileBytes(g, 0);
  }

  /** A directory agrees with the volume before and after the target has taken over the source's fields, or neither. */
  lemma {:induction false} RetargetedDir(disk: seq<Block>, w: Volume, t: nat, source: File, today: nat)
    requires DirOk(disk, w) && t < |w.files| && source.Blocks() >= 0
    ensures DirOk(disk, Retargeted(w, t, source, today)) <==>
      && w.files[t].fileKind == source.fileKind && w.files[t].lastByte == source.lastByte
      && w.files[t].Blocks() == source.Blocks() && w.files[t].modification == today
  {
    hide FileBytes, HeaderBytes, Slot, Dir, FileEncodable, HeaderEncodable;
    var u := Retargeted(w, t, source, today);
    if DirOk(disk, u) {
      assert EntryOk(Dir(disk), u.files, t) && EntryOk(Dir(disk), w.files, t);
      EntryTells(u.files[t], w.files[t]);
    }
    if w.files[t].fileKind == source.fileKind && w.files[t].lastByte == source.lastByte
      && w.files[t].Blocks() == source.Blocks() && w.files[t].modification == today
    {
      assert u.files == w.files;
    }
  }

  /**
   copy does not write the target's entry back. So the directory on disk agrees with memory after a copy exactly if
   that entry was right already: an overwritten target had the source's kind, end and length and today's date; a new
   one keeps what create wrote, so the source must be an untyped file of one block with end 0.
   */
  lemma {:induction false} CopyDirExactly(s: Mounted, oldName: seq<byte>, newName: seq<byte>, today: nat)
    requires MountedOk(s) && OnDevice(s) && today < WORD16
    requires Copy(s.volume, false, oldName, newName, today).Copied?
    ensures var r := Copy(s.volume, false, oldName, newName, today);
      var i, j := FindName(s.volume.files, oldName), FindName(s.volume.files, newName);
      && i < |s.volume.files| && Standard(s.volume, s.disk)
      && var source := s.volume.files[i];
      DirOk(CopiedDisk(s, false, oldName, newName, today), r.volume) <==>
        if Overwrites(s.volume, oldName, newName) then
          && s.volume.files[j].fileKind == source.fileKind && s.volume.files[j].lastByte == source.lastByte
          && s.volume.files[j].Blocks() == source.Blocks() && s.volume.files[j].modification == today
        else source.fileKind == UNTYPED && source.lastByte == 0 && source.Blocks() == 1
  {
    hide VolumeOk, DirOk, FindName, Copy, TargetDisk, CopyBlocks, Retargeted;
    AgreesNow(s);
    var w := TargetMounted(s, oldName, newName, today);
    var r := Copy(s.volume, false, oldName, newName, today);
    var source := s.volume.files[FindName(s.volume.files, oldName)];
    var before, after := TargetDisk(s, oldName, newName, today), CopiedDisk(s, false, oldName, newName, today);
    CopyPlaces(s.volume, oldName, newName, today);
    var from, to := source.firstBlock, r.volume.files[r.target].firstBlock;
    CopiedInFront(before, from, to, source.Blocks());
    RetargetedDir(before, w, r.target, source, today);
    if DirOk(before, r.volume) {
      DirSame(before, after, r.volume);
    }
    if DirOk(after, r.volume) {
      DirSame(after, before, r.volume);
    }
  }

  lemma {:induction false} CopiedInFront(arr: seq<Block>, from: nat, to: nat, n: nat)
    requires from + n <= |arr| && to + n <= |arr| && STANDARD_BLOCKS <= to
    requires from == to || from + n <= to || to + n <= from
    ensures forall b :: 0 <= b < STANDARD_BLOCKS && b < |arr| ==> CopyBlocks(arr, from, to, n)[b] == arr[b]
  {
    hide CopyBlocks;
    forall b: nat | b < STANDARD_BLOCKS && b < |arr| ensures CopyBlocks(arr, from, to, n)[b] == arr[b] {
      CopyBlocksAt(arr, from, to, n, b);
    }
  }
}
