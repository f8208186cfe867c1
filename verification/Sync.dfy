/**
 Whole-filesystem sync (kernel/src/disk/persist.rs): a synced volume holds exactly the
 snapshot, whatever files it held before, while names stay apart.
 */
module Sync {
  import opened Bytes
  import opened Errors
  import opened DiskLayout
  import opened Volumes
  import opened Images
  import opened SectorCache
  import opened Format
  import opened Paths
  import opened Persist
  import opened Repeats
  import F = WarFs

  /** The files of a snapshot that are stored, in order. */
  function StoredFiles(files: F.Files): (s: F.Files)
    ensures |s| <= |files|
    ensures forall e :: e in s <==> e in files && Persistable(e.name)
  {
    if files == [] then []
    else
      var last := files[|files| - 1];
      assert files == files[..|files| - 1] + [last];
      StoredFiles(files[..|files| - 1]) + if Persistable(last.name) then [last] else []
  }

  function StoredMap(files: F.Files): map<str, Record> {
    if files == [] then map[]
    else
      var last := files[|files| - 1];
      var m := StoredMap(files[..|files| - 1]);
      if Persistable(last.name) then m[last.name := RecordFor(last)] else m
  }

  lemma {:induction false} StoredMapKeys(files: F.Files, name: str)
    ensures name in StoredMap(files) <==> ShouldKeep(files, name)
  {
    if files != [] {
      var front, last := files[..|files| - 1], files[|files| - 1];
      StoredMapKeys(front, name);
      assert files == front + [last];
      if ShouldKeep(front, name) {
        var f :| f in front && Persistable(f.name) && f.name == name;
        assert f in files;
      }
      assert last in files;
    }
  }

  lemma {:induction false} StoredMapAt(files: F.Files, f: F.FileEntry)
    requires F.Sorted(files) && f in files && Persistable(f.name)
    ensures f.name in StoredMap(files) && StoredMap(files)[f.name] == RecordFor(f)
  {
    var n := |files| - 1;
    var i :| 0 <= i < |files| && files[i] == f;
    if i < n {
      assert files[..n][i] == f;
      StoredMapAt(files[..n], f);
      F.SortedOrder(files, i, n);
      StrLessIrreflexive(f.name);
    }
  }

  // ---------- names as they are kept ----------

  /** The stored files of a snapshot by the names their slots answer to. */
  function KeptMap(files: F.Files): map<str, Record> {
    if files == [] then map[]
    else
      var last := files[|files| - 1];
      var m := KeptMap(files[..|files| - 1]);
      if Persistable(last.name) then m[KeptName(last.name) := RecordFor(last)] else m
  }

  /** No two stored files are kept under one name. */
  predicate DistinctKept(files: F.Files) {
    forall i, j | 0 <= i < j < |files| && Persistable(files[i].name) && Persistable(files[j].name) ::
      KeptName(files[i].name) != KeptName(files[j].name)
  }

  ghost predicate KeptAt(files: F.Files, i: int, name: str) {
    0 <= i < |files| && Persistable(files[i].name) && KeptName(files[i].name) == name
  }

  lemma {:induction false} KeptMapKeys(files: F.Files, name: str)
    ensures name in KeptMap(files) <==> exists i :: KeptAt(files, i, name)
  {
    if files != [] {
      var n := |files| - 1;
      KeptMapKeys(files[..n], name);
      if i :| KeptAt(files[..n], i, name) {
        assert KeptAt(files, i, name);
      }
      if i :| KeptAt(files, i, name) && i < n {
        assert KeptAt(files[..n], i, name);
      }
      assert KeptAt(files, n, name) <==> Persistable(files[n].name) && KeptName(files[n].name) == name;
    }
  }

  lemma {:induction false} KeptMapAt(files: F.Files, i: nat)
    requires DistinctKept(files) && i < |files| && Persistable(files[i].name)
    ensures KeptName(files[i].name) in KeptMap(files) && KeptMap(files)[KeptName(files[i].name)] == RecordFor(files[i])
  {
    var n := |files| - 1;
    if i < n {
      KeptMapAt(files[..n], i);
    }
  }

  /** Where every name fits, they are the names of the files. */
  lemma {:induction false} ShortKept(files: F.Files)
    requires F.Sorted(files) && ShortNames(files)
    ensures DistinctKept(files) && KeptMap(files) == StoredMap(files)
  {
    forall i, j | 0 <= i < j < |files| && Persistable(files[i].name) && Persistable(files[j].name)
      ensures KeptName(files[i].name) != KeptName(files[j].name)
    {
      assert files[i] in files && files[j] in files;
      F.SortedOrder(files, i, j);
      StrLessIrreflexive(files[i].name);
    }
    if files != [] {
      assert files[|files| - 1] in files;
      assert forall f | f in files[..|files| - 1] :: f in files;
      ShortKept(files[..|files| - 1]);
    }
  }

  /** Slots have distinct names, and so will the files to be stored. */
  ghost predicate NamesApart(v: Volume, files: F.Files) { Named(v) && DistinctKept(files) }

  /** A kept name no wanted file has is free among the slots after the first pass and `k` stores. */
  lemma FreshStep(v: Volume, v': Volume, files: F.Files, k: nat)
    requires Volumes.Sound(v) && Volumes.Sound(v') && DistinctKept(files) && k < |files| && Persistable(files[k].name)
    requires KeptBelow(v.table, files, MAX_FILES) && Named(v) && Named(v')
    requires Contents(v') == Contents(v) + KeptMap(files[..k])
    ensures Fresh(v'.table, files[k].name)
  {
    hide NameOf, RecordOf, KeptName;
    var kept := KeptName(files[k].name);
    if |files[k].name| > 95 {
      NotYetKept(files, k);
      LongNotWanted(files, k);
      NamesExact(v.table, kept);
      assert forall i :: !HasName(v.table, i, kept);
      assert kept !in Contents(v');
    }
  }

  lemma NotYetKept(files: F.Files, k: nat)
    requires DistinctKept(files) && k < |files| && Persistable(files[k].name)
    ensures KeptName(files[k].name) !in KeptMap(files[..k])
  {
    hide KeptName;
    var kept := KeptName(files[k].name);
    KeptMapKeys(files[..k], kept);
    forall i
      ensures !KeptAt(files[..k], i, kept)
    {
      if 0 <= i < k {
        assert files[..k][i] == files[i];
      }
    }
  }

  lemma LongNotWanted(files: F.Files, k: nat)
    requires DistinctKept(files) && k < |files| && Persistable(files[k].name) && |files[k].name| > 95
    ensures !ShouldKeep(files, KeptName(files[k].name))
  {
    var kept := KeptName(files[k].name);
    forall f | f in files && Persistable(f.name)
      ensures f.name != kept
    {
      var j :| 0 <= j < |files| && files[j] == f;
      assert j < k || k < j || j == k;
      assert KeptName(kept) == kept;
    }
  }

  // ---------- when names stop being distinct ----------

  /** The first `k` stored files are among the slots' names, twice over if two are kept under one name. */
  ghost predicate Crowded(table: seq<DiskFileEntry>, files: F.Files, k: nat)
    requires k <= |files|
  {
    && (forall i | 0 <= i < k && Persistable(files[i].name) :: KeptName(files[i].name) in Names(table))
    && (!DistinctKept(files[..k]) ==> !UniqueNames(table))
  }

  lemma CrowdedNext(v: Volume, v': Volume, files: F.Files, k: nat)
    requires Volumes.Sound(v) && Volumes.Sound(v') && F.Sorted(files) && k < |files| && Persistable(files[k].name)
    requires Crowded(v.table, files, k) && NameKeptExactly(v, v', files[k].name)
    ensures Crowded(v'.table, files, k + 1)
  {
    hide Names, UniqueNames, CountActive, Contents;
    if DistinctKept(files[..k]) && !DistinctKept(files[..k + 1]) {
      var i := ClashAt(files, k);
      if |files[k].name| <= 95 {
        F.SortedOrder(files, i, k);
        PrefixLess(files[k].name, files[i].name);
        StrLessTransitive(files[k].name, files[i].name, files[k].name);
        StrLessIrreflexive(files[k].name);
        assert false;
      }
    }
  }

  lemma ClashAt(files: F.Files, k: nat) returns (i: nat)
    requires k < |files| && F.Sorted(files) && DistinctKept(files[..k]) && !DistinctKept(files[..k + 1])
    ensures i < k && Persistable(files[i].name) && KeptName(files[i].name) == KeptName(files[k].name)
    ensures |files[k].name| <= 95 ==> files[k].name < files[i].name
  {
    var s, t := files[..k + 1], files[..k];
    var a, b :| 0 <= a < b < |s| && Persistable(s[a].name) && Persistable(s[b].name)
                && KeptName(s[a].name) == KeptName(s[b].name);
    assert s == t + [files[k]];
    assert b == k;
    i := a;
    F.SortedOrder(files, i, k);
    StrLessIrreflexive(files[k].name);
  }

  lemma CrowdedSkip(table: seq<DiskFileEntry>, files: F.Files, k: nat)
    requires k < |files| && !Persistable(files[k].name) && Crowded(table, files, k)
    ensures Crowded(table, files, k + 1)
  {
    hide Names, UniqueNames, KeptName;
    if DistinctKept(files[..k]) {
      assert forall i | 0 <= i < k :: files[..k][i] == files[..k + 1][i];
      assert DistinctKept(files[..k + 1]);
    }
  }

  // ---------- crash points of a sync ----------

  /** The snapshot asks for what is there already, under a name that fits. */
  ghost predicate Agreed(v: Volume, files: F.Files, name: str)
    requires Volumes.Sound(v)
  {
    && LookUp(Contents(v), name) == LookUp(KeptMap(files), name)
    && (name in KeptMap(files) ==> ShouldKeep(files, name))
  }

  /**
   Where a sync from `v` may stop: a file it need not change is unchanged, and a file it is
   to drop is whole or gone.
   */
  ghost predicate Halfway(v: Volume, v': Volume, files: F.Files)
    requires Volumes.Sound(v) && Volumes.Sound(v')
  {
    && Named(v')
    && (forall name | name !in KeptMap(files) ::
          LookUp(Contents(v'), name) == None || LookUp(Contents(v'), name) == LookUp(Contents(v), name))
    && (forall name | Agreed(v, files, name) :: LookUp(Contents(v'), name) == LookUp(Contents(v), name))
  }

  ghost predicate HalfwayImage(image: Image, v: Volume, files: F.Files)
    requires Volumes.Sound(v)
  {
    |image| >= DATA_START && Volumes.Sound(View(image)) && Halfway(v, View(image), files)
  }

  ghost predicate HalfwaySince(history: seq<Image>, n: nat, v: Volume, files: F.Files)
    requires Volumes.Sound(v)
  {
    forall k | n <= k < |history| :: HalfwayImage(history[k], v, files)
  }

  lemma HalfwayJoin(middle: seq<Image>, history: seq<Image>, n: nat, v: Volume, files: F.Files)
    requires Volumes.Sound(v) && middle <= history
    requires HalfwaySince(middle, n, v, files) && HalfwaySince(history, |middle|, v, files)
    ensures HalfwaySince(history, n, v, files)
  {
    hide HalfwayImage;
    forall k | n <= k < |history|
      ensures HalfwayImage(history[k], v, files)
    {
      if k < |middle| {
        assert history[k] == middle[k];
      }
    }
  }

  lemma OthersLookUp(v: Volume, v': Volume, name: str, other: str)
    requires Volumes.Sound(v) && Volumes.Sound(v') && SameOthers(v, v', name) && other != name
    ensures LookUp(Contents(v'), other) == LookUp(Contents(v), other)
  {
    hide Contents;
    assert other in Contents(v) <==> other in Contents(v) - {name};
    assert other in Contents(v') <==> other in Contents(v') - {name};
    if other in Contents(v) {
      assert (Contents(v') - {name})[other] == (Contents(v) - {name})[other];
    }
  }

  /** Storing a wanted file touches no other, and not that one when it is there already. */
  lemma StoreHalfway(v: Volume, v1: Volume, v2: Volume, files: F.Files, f: F.FileEntry, calm: bool)
    requires Volumes.Sound(v) && Volumes.Sound(v1) && Volumes.Sound(v2) && Halfway(v, v1, files)
    requires KeptName(f.name) in KeptMap(files) && KeptMap(files)[KeptName(f.name)] == RecordFor(f)
    requires Agreed(v, files, KeptName(f.name)) ==> calm
    requires Reached(v1, v2, KeptName(f.name), Some(RecordFor(f)), calm)
    ensures Halfway(v, v2, files)
  {
    hide Contents, Named, KeptMap, RecordFor, KeptName, ShouldKeep;
    forall name
      ensures name !in KeptMap(files) ==>
                LookUp(Contents(v2), name) == None || LookUp(Contents(v2), name) == LookUp(Contents(v), name)
      ensures Agreed(v, files, name) ==> LookUp(Contents(v2), name) == LookUp(Contents(v), name)
    {
      if name != KeptName(f.name) {
        OthersLookUp(v1, v2, KeptName(f.name), name);
      } else if Agreed(v, files, name) {
        assert LookUp(Contents(v1), name) == Some(RecordFor(f));
        PutSame(Contents(v1), name, RecordFor(f));
      }
    }
  }

  lemma PutSame(m: map<str, Record>, name: str, r: Record)
    requires LookUp(m, name) == Some(r)
    ensures Put(m, name, Some(r)) == m
  {
  }

  lemma StoreHalfwaySince(
    history: seq<Image>, n: nat, v: Volume, v1: Volume, files: F.Files, f: F.FileEntry, calm: bool)
    requires Volumes.Sound(v) && Volumes.Sound(v1) && Halfway(v, v1, files)
    requires KeptName(f.name) in KeptMap(files) && KeptMap(files)[KeptName(f.name)] == RecordFor(f)
    requires Agreed(v, files, KeptName(f.name)) ==> calm
    requires ReachedSince(history, n, v1, KeptName(f.name), Some(RecordFor(f)), calm)
    ensures HalfwaySince(history, n, v, files)
  {
    hide View, Contents, Halfway, SameOthers, Either, KeptMap, RecordFor, KeptName, Agreed;
    forall k | n <= k < |history|
      ensures HalfwayImage(history[k], v, files)
    {
      assert KeepsOthers(history[k], v1, KeptName(f.name));
      assert calm ==> EitherImage(history[k], v1, KeptName(f.name), Some(RecordFor(f)));
      StoreHalfway(v, v1, View(history[k]), files, f, calm);
    }
  }

  /** A file already there as wanted is rewritten in place, with the same bytes. */
  lemma AgreedSpared(v: Volume, v1: Volume, files: F.Files, f: F.FileEntry)
    requires Volumes.Sound(v) && Volumes.Sound(v1) && Halfway(v, v1, files)
    requires KeptName(f.name) in KeptMap(files) && KeptMap(files)[KeptName(f.name)] == RecordFor(f)
    ensures Agreed(v, files, KeptName(f.name)) ==> Spared(v1, f)
  {
    hide Contents, KeptMap, RecordFor, Spared, GoodNames, UniqueNames;
    if Agreed(v, files, KeptName(f.name)) {
      if |f.name| <= 95 {
        assert LookUp(Contents(v1), f.name) == Some(RecordFor(f));
        SameSpared(v1, f);
      } else {
        LongSpared(v1, f);
      }
    }
  }

  /** Dropping an unwanted file. */
  lemma DropHalfway(v: Volume, v1: Volume, v2: Volume, files: F.Files, name: str)
    requires Volumes.Sound(v) && Volumes.Sound(v1) && Volumes.Sound(v2) && Halfway(v, v1, files)
    requires Named(v2) && name in Contents(v1) && !ShouldKeep(files, name) && Contents(v2) == Contents(v1) - {name}
    ensures Halfway(v, v2, files)
  {
    hide Contents, Named, KeptMap, ShouldKeep;
    assert !Agreed(v, files, name);
    forall other
      ensures LookUp(Contents(v2), other) == if other == name then None else LookUp(Contents(v1), other)
    {
    }
  }

  lemma SameHalfway(history: seq<Image>, n: nat, v: Volume, files: F.Files)
    requires Volumes.Sound(v) && SameSince(history, n, v)
    ensures HalfwaySince(history, n, v, files)
  {
    hide View, Contents, Named;
    forall k | n <= k < |history|
      ensures HalfwayImage(history[k], v, files)
    {
      assert SameImage(history[k], v);
    }
  }

  // ---------- sync ----------

  /** What every moment of the rewrite keeps, started from the dirty volume `v`. */
  ghost predicate Rewriting(disk: Disk, v: Volume, files: F.Files)
    requires Volumes.Sound(v)
    reads disk.device, disk.cache
  {
    && Mounted(disk) && Volumes.Sound(Vol(disk)) && Vol(disk).super == v.super
    && (GoodNames(v.table) ==> GoodNames(Vol(disk).table))
    && (NamesApart(v, files) ==> Halfway(v, Vol(disk), files))
  }

  /** Every image since is crash-safe and, where names stay apart, a place where the sync may stop. */
  ghost predicate OrderlySince(history: seq<Image>, n: nat, v: Volume, files: F.Files)
    requires Volumes.Sound(v)
  {
    SafeSince(history, n) && (NamesApart(v, files) ==> HalfwaySince(history, n, v, files))
  }

  lemma OrderlyStart(history: seq<Image>, v: Volume, files: F.Files)
    requires Volumes.Sound(v)
    ensures OrderlySince(history, |history|, v, files)
  {
  }

  lemma OrderlyJoin(middle: seq<Image>, history: seq<Image>, n: nat, v: Volume, files: F.Files)
    requires Volumes.Sound(v) && middle <= history
    requires OrderlySince(middle, n, v, files) && OrderlySince(history, |middle|, v, files)
    ensures OrderlySince(history, n, v, files)
  {
    hide SafeSince, HalfwaySince;
    SafeJoin(middle, history, n);
    if NamesApart(v, files) {
      HalfwayJoin(middle, history, n, v, files);
    }
  }

  /** One slot of the first pass. */
  method DropOne(disk: Disk, files: F.Files, index: nat, ghost v: Volume) returns (r: Result<(), DiskError>)
    requires Volumes.Sound(v) && v.super.state == DIRTY && index < MAX_FILES
    requires Rewriting(disk, v, files) && Weeded(v, Vol(disk), files, index)
    modifies disk.cache, disk.device
    ensures Rewriting(disk, v, files)
    ensures r.Ok? ==> Weeded(v, Vol(disk), files, index + 1) && (v.table[index].active != 0 ==> ValidUtf8(NameOf(v.table[index])))
    ensures old(disk.device.history) <= disk.device.history
    ensures OrderlySince(disk.device.history, |old(disk.device.history)|, v, files)
    ensures r.Err? ==> r.error == DeviceError || (r.error == CorruptedData && !GoodNames(v.table))
    ensures r == Err(DeviceError) ==> !disk.device.reliable
  {
    hide View, Contents, SectorCache.Disk.Valid, DistinctKept, KeptMap, Halfway, OnlySlot, Disjoint, Inside, Sized;
    OrderlyStart(disk.device.history, v, files);
    var e :- ReadFileEntry(disk, index);
    if e.active == 0 {
      return Ok(());
    }
    var name :- EntryName(e);
    if ShouldKeep(files, name) {
      return Ok(());
    }
    ghost var v1 := Vol(disk);
    DeactivateSlot(v1, index, name);
    if NamesApart(v, files) {
      HalfwayNamed(v, v1, files);
      ContentsAt(v1, index);
      DropHalfway(v, v1, v1.(table := v1.table[index := Inactive()]), files, name);
    }
    r := WriteFileEntry(disk, index, Inactive());
  }

  lemma HalfwayNamed(v: Volume, v1: Volume, files: F.Files)
    requires Volumes.Sound(v) && Volumes.Sound(v1) && Halfway(v, v1, files)
    ensures Named(v1)
  {
  }

  lemma NothingWeeded(v: Volume, files: F.Files)
    ensures Weeded(v, v, files, 0)
  {
  }

  /** First pass: clear every slot whose file is not in the snapshot. */
  method DropStale(disk: Disk, files: F.Files) returns (r: Result<(), DiskError>)
    requires Mounted(disk) && Volumes.Sound(Vol(disk)) && Vol(disk).super.state == DIRTY
    modifies disk.cache, disk.device
    ensures Rewriting(disk, old(Vol(disk)), files)
    ensures r.Ok? ==> Weeded(old(Vol(disk)), Vol(disk), files, MAX_FILES) && TextNames(old(Vol(disk)).table)
    ensures old(disk.device.history) <= disk.device.history
    ensures OrderlySince(disk.device.history, |old(disk.device.history)|, old(Vol(disk)), files)
    ensures r.Err? ==> r.error == DeviceError || (r.error == CorruptedData && !GoodNames(old(Vol(disk)).table))
    ensures r == Err(DeviceError) ==> !disk.device.reliable
  {
    hide View, Contents, SectorCache.Disk.Valid, Weeded, Halfway, HalfwaySince, SafeSince, NamesApart, GoodNames, ValidUtf8, NameOf;
    NothingWeeded(Vol(disk), files);
    OrderlyStart(disk.device.history, Vol(disk), files);
    SameHalfwayNow(Vol(disk), files);
    ghost var v, n := Vol(disk), |disk.device.history|;
    for index := 0 to MAX_FILES
      invariant Rewriting(disk, v, files) && Weeded(v, Vol(disk), files, index) && TextNames(v.table[..index])
      invariant old(disk.device.history) <= disk.device.history
      invariant OrderlySince(disk.device.history, n, v, files)
    {
      ghost var h := disk.device.history;
      r := DropOne(disk, files, index, v);
      OrderlyJoin(h, disk.device.history, n, v, files);
      if r.Err? {
        return;
      }
    }
    return Ok(());
  }

  /** The first `k` files are in place. */
  ghost predicate StoredUpTo(v: Volume, v': Volume, files: F.Files, k: nat)
    requires Volumes.Sound(v) && Volumes.Sound(v') && k <= |files|
  {
    NamesApart(v, files) ==> Contents(v') == Contents(v) + KeptMap(files[..k])
  }

  /** Slot by slot: wanted names only, the first `k` files each in its first slot, repeats as in `v`. */
  ghost predicate Filled(v: Volume, v': Volume, files: F.Files, k: nat)
    requires Volumes.Sound(v) && Volumes.Sound(v') && k <= |files|
  {
    && (ShortNames(files) ==>
          KeptBelow(v'.table, files, MAX_FILES) && InFirst(v', files, k) && RepeatsKept(v, v', files))
    && (GoodNames(v.table) ==> Crowded(v'.table, files, k))
  }

  /** Some file to be stored finds no slot, or no blocks. */
  ghost predicate Overfull(v: Volume, files: F.Files) {
    exists f | f in files :: Persistable(f.name) && NoRoom(v, f)
  }

  lemma FilledSkip(v: Volume, v': Volume, files: F.Files, k: nat)
    requires Volumes.Sound(v) && Volumes.Sound(v') && k < |files| && !Persistable(files[k].name) && Filled(v, v', files, k)
    ensures Filled(v, v', files, k + 1)
  {
    hide Crowded, RepeatsKept, RecordOf, First;
    if GoodNames(v.table) {
      CrowdedSkip(v'.table, files, k);
    }
  }

  lemma FilledNext(v: Volume, v1: Volume, v2: Volume, files: F.Files, k: nat)
    requires Volumes.Sound(v) && Volumes.Sound(v1) && Volumes.Sound(v2) && F.Sorted(files) && k < |files|
    requires Persistable(files[k].name) && Filled(v, v1, files, k)
    requires exists p :: Located(v1.table, files[k].name, p)
    requires forall p | Located(v1.table, files[k].name, p) ::
               p.slot < MAX_FILES && OnlySlot(v1, v2, p.slot) && IsEntryFor(v2, p.slot, files[k])
    requires GoodNames(v.table) ==> NameKeptExactly(v1, v2, files[k].name)
    ensures Filled(v, v2, files, k + 1)
  {
    hide Crowded, RepeatsKept, InFirst, KeptBelow, Located, OnlySlot, IsEntryFor, NameKeptExactly, GoodNames;
    if ShortNames(files) {
      assert files[k] in files;
      StoredSettles(v, v1, v2, files, k);
    }
    if GoodNames(v.table) {
      CrowdedNext(v1, v2, files, k);
    }
  }

  lemma FilledStart(v: Volume, files: F.Files)
    requires Volumes.Sound(v) && KeptBelow(v.table, files, MAX_FILES)
    ensures Filled(v, v, files, 0)
  {
    hide First, RecordOf, ShouldKeep;
  }

  /** One file of the second pass. */
  method StoreOne(disk: Disk, files: F.Files, k: nat, ghost v: Volume) returns (r: Result<nat, DiskError>)
    requires Volumes.Sound(v) && v.super.state == DIRTY && F.Legal(files) && k < |files|
    requires Rewriting(disk, v, files) && StoredUpTo(v, Vol(disk), files, k)
    requires KeptBelow(v.table, files, MAX_FILES) && Filled(v, Vol(disk), files, k)
    modifies disk.cache, disk.device
    ensures Rewriting(disk, v, files)
    ensures old(disk.device.history) <= disk.device.history
    ensures OrderlySince(disk.device.history, |old(disk.device.history)|, v, files)
    ensures r.Ok? ==> StoredUpTo(v, Vol(disk), files, k + 1) && Filled(v, Vol(disk), files, k + 1)
    ensures r.Ok? ==> r.value == |StoredFiles(files[..k + 1])| - |StoredFiles(files[..k])|
    ensures r.Err? ==> r.error == DeviceError || (r.error == DiskFull && Overfull(Vol(disk), files))
                       || (r.error == CorruptedData && !GoodNames(v.table))
    ensures r == Err(DeviceError) ==> !disk.device.reliable
  {
    hide View, Contents, SectorCache.Disk.Valid, Halfway, HalfwaySince, SafeSince, Filled, NamesApart, NoRoom, Located;
    hide OnlySlot, IsEntryFor, NameKeptExactly, Reached, ReachedSince, Spared, SlotsSince, GoodNames, Fresh, UniqueNames, KeptBelow;
    var f := files[k];
    CountNext(files, k);
    OrderlyStart(disk.device.history, v, files);
    if !Persistable(f.name) {
      FilledSkip(v, Vol(disk), files, k);
      SkipStored(v, Vol(disk), files, k);
      return Ok(0);
    }
    ghost var before, n := Vol(disk), |disk.device.history|;
    LocatedInside(before.table, f.name);
    GoodIsText(before.table);
    if NamesApart(v, files) {
      StoreReady(v, before, files, k);
    }
    var u := UpsertFileEntry(disk, f);
    if NamesApart(v, files) {
      StoreHalfway(v, before, Vol(disk), files, f, Spared(before, f));
      StoreHalfwaySince(disk.device.history, n, v, before, files, f, Spared(before, f));
    }
    if u.Err? {
      NoRoomSuper(before, Vol(disk), f);
      assert f in files;
      return Err(u.error);
    }
    FilledNext(v, before, Vol(disk), files, k);
    StoredNext(v, before, Vol(disk), files, k);
    return Ok(1);
  }

  lemma CountNext(files: F.Files, k: nat)
    requires k < |files|
    ensures |StoredFiles(files[..k + 1])| == |StoredFiles(files[..k])| + if Persistable(files[k].name) then 1 else 0
  {
    assert files[..k + 1][..k] == files[..k];
  }

  lemma SkipStored(v: Volume, v': Volume, files: F.Files, k: nat)
    requires Volumes.Sound(v) && Volumes.Sound(v') && k < |files| && !Persistable(files[k].name)
    requires StoredUpTo(v, v', files, k)
    ensures StoredUpTo(v, v', files, k + 1)
  {
    hide Contents;
    assert files[..k + 1][..k] == files[..k];
  }

  lemma StoredNext(v: Volume, v1: Volume, v2: Volume, files: F.Files, k: nat)
    requires Volumes.Sound(v) && Volumes.Sound(v1) && Volumes.Sound(v2) && k < |files| && Persistable(files[k].name)
    requires StoredUpTo(v, v1, files, k)
    requires NamesApart(v, files) ==> Contents(v2) == Contents(v1)[KeptName(files[k].name) := RecordFor(files[k])]
    ensures StoredUpTo(v, v2, files, k + 1)
  {
    hide Contents, NamesApart, KeptName, RecordFor;
    assert files[..k + 1][..k] == files[..k];
    PlusPut(Contents(v), KeptMap(files[..k]), KeptName(files[k].name), RecordFor(files[k]));
  }

  /** What the next store needs of the volume before it. */
  lemma StoreReady(v: Volume, v1: Volume, files: F.Files, k: nat)
    requires Volumes.Sound(v) && Volumes.Sound(v1) && k < |files| && Persistable(files[k].name)
    requires NamesApart(v, files) && Halfway(v, v1, files) && StoredUpTo(v, v1, files, k)
    requires KeptBelow(v.table, files, MAX_FILES)
    ensures Named(v1) && Fresh(v1.table, files[k].name)
    ensures var kept := KeptName(files[k].name);
            && kept in KeptMap(files) && KeptMap(files)[kept] == RecordFor(files[k])
            && (Agreed(v, files, kept) ==> Spared(v1, files[k]))
  {
    hide Contents, Fresh, Spared, KeptMap, RecordFor, KeptName, Agreed, GoodNames, UniqueNames, KeptBelow;
    KeptMapAt(files, k);
    AgreedSpared(v, v1, files, files[k]);
    FreshStep(v, v1, files, k);
  }

  lemma PlusPut<K, V>(a: map<K, V>, b: map<K, V>, k: K, x: V)
    ensures (a + b)[k := x] == a + b[k := x]
  {
  }

  lemma NothingStored(v: Volume, files: F.Files)
    requires Volumes.Sound(v)
    ensures StoredUpTo(v, v, files, 0) && |StoredFiles(files[..0])| == 0
  {
    assert Contents(v) + KeptMap(files[..0]) == Contents(v);
  }

  /** Second pass: create or replace every stored file of the snapshot. */
  method StoreAll(disk: Disk, files: F.Files) returns (r: Result<nat, DiskError>)
    requires Mounted(disk) && Volumes.Sound(Vol(disk)) && Vol(disk).super.state == DIRTY
    requires F.Legal(files) && KeptBelow(Vol(disk).table, files, MAX_FILES)
    modifies disk.cache, disk.device
    ensures Rewriting(disk, old(Vol(disk)), files)
    ensures old(disk.device.history) <= disk.device.history
    ensures OrderlySince(disk.device.history, |old(disk.device.history)|, old(Vol(disk)), files)
    ensures r.Ok? ==> StoredUpTo(old(Vol(disk)), Vol(disk), files, |files|)
                      && Filled(old(Vol(disk)), Vol(disk), files, |files|)
    ensures r.Ok? ==> r.value == |StoredFiles(files)|
    ensures r.Err? ==> r.error == DeviceError || (r.error == DiskFull && Overfull(Vol(disk), files))
                       || (r.error == CorruptedData && !GoodNames(old(Vol(disk)).table))
    ensures r == Err(DeviceError) ==> !disk.device.reliable
  {
    hide View, Contents, StoredUpTo, Filled, KeptBelow, Overfull, Halfway, StoredFiles, F.Legal, GoodNames, UniqueNames, SectorCache.Disk.Valid, HalfwaySince, SafeSince;
    ghost var v, n := Vol(disk), |disk.device.history|;
    NothingStored(v, files);
    FilledStart(v, files);
    SameHalfwayNow(v, files);
    OrderlyStart(disk.device.history, v, files);
    var synced := 0;
    for k := 0 to |files|
      invariant Rewriting(disk, v, files) && StoredUpTo(v, Vol(disk), files, k) && Filled(v, Vol(disk), files, k)
      invariant old(disk.device.history) <= disk.device.history
      invariant OrderlySince(disk.device.history, n, v, files)
      invariant synced == |StoredFiles(files[..k])|
    {
      ghost var h := disk.device.history;
      r := StoreOne(disk, files, k, v);
      OrderlyJoin(h, disk.device.history, n, v, files);
      if r.Err? {
        return;
      }
      synced := synced + r.value;
    }
    assert files[..|files|] == files;
    return Ok(synced);
  }

  /** Both passes: the dirty volume ends with exactly the stored files. */
  method Rewrite(disk: Disk, files: F.Files) returns (r: Result<nat, DiskError>)
    requires Mounted(disk) && Volumes.Sound(Vol(disk)) && Vol(disk).super.state == DIRTY
    requires F.Legal(files)
    modifies disk.cache, disk.device
    ensures Rewriting(disk, old(Vol(disk)), files)
    ensures old(disk.device.history) <= disk.device.history
    ensures OrderlySince(disk.device.history, |old(disk.device.history)|, old(Vol(disk)), files)
    ensures r.Ok? && NamesApart(old(Vol(disk)), files) ==> Contents(Vol(disk)) == KeptMap(files)
    ensures r.Ok? ==> TextNames(old(Vol(disk)).table)
    ensures r.Ok? && ShortNames(files) ==> Tidied(old(Vol(disk)), Vol(disk), files)
    ensures r.Ok? && Named(old(Vol(disk))) ==> (UniqueNames(Vol(disk).table) <==> DistinctKept(files))
    ensures r.Ok? ==> r.value == |StoredFiles(files)|
    ensures r.Err? ==> r.error == DeviceError || (r.error == DiskFull && Overfull(Vol(disk), files))
                       || (r.error == CorruptedData && !GoodNames(old(Vol(disk)).table))
    ensures r == Err(DeviceError) ==> !disk.device.reliable
  {
    hide View, Contents, SectorCache.Disk.Valid, Halfway, HalfwaySince, SafeSince, StoredUpTo, Filled, Weeded, Tidied;
    hide GoodNames, TextNames, UniqueNames, DistinctKept, KeptMap, KeptBelow, Overfull, StoredFiles, F.Legal, Disjoint, Sized, Inside;
    ghost var h0, v0 := disk.device.history, Vol(disk);
    var _ :- DropStale(disk, files);
    ghost var h1, v := disk.device.history, Vol(disk);
    WeededKept(v0, v, files);
    r := StoreAll(disk, files);
    OrderlyStep(h1, disk.device.history, |h0|, v0, v, Vol(disk), files);
    if Named(v0) {
      WeededNamed(v0, v, files);
    }
    if r.Ok? {
      AllFilled(v0, v, Vol(disk), files);
    }
  }

  lemma WeededKept(v: Volume, v': Volume, files: F.Files)
    requires |v.table| == MAX_FILES && Weeded(v, v', files, MAX_FILES)
    ensures KeptBelow(v'.table, files, MAX_FILES)
  {
    hide NameOf, ShouldKeep;
  }

  lemma WeededNamed(v: Volume, v': Volume, files: F.Files)
    requires |v.table| == MAX_FILES && Weeded(v, v', files, MAX_FILES) && Named(v)
    ensures Named(v')
  {
    hide NameOf, ShouldKeep;
    forall i, j | 0 <= i < j < |v'.table| && v'.table[i].active != 0 && v'.table[j].active != 0
      ensures NameOf(v'.table[i]) != NameOf(v'.table[j])
    {
      assert v'.table[i] == v.table[i] && v'.table[j] == v.table[j];
    }
  }

  /** Both passes done. */
  lemma AllFilled(v: Volume, v1: Volume, v2: Volume, files: F.Files)
    requires Volumes.Sound(v) && Volumes.Sound(v1) && Volumes.Sound(v2) && Weeded(v, v1, files, MAX_FILES)
    requires StoredUpTo(v1, v2, files, |files|) && Filled(v1, v2, files, |files|)
    requires NamesApart(v1, files) ==> Halfway(v1, v2, files)
    ensures ShortNames(files) ==> Tidied(v, v2, files)
    ensures NamesApart(v, files) ==> Contents(v2) == KeptMap(files)
    ensures Named(v) ==> (UniqueNames(v2.table) <==> DistinctKept(files))
  {
    hide Contents, RepeatsKept, Weeded, KeptBelow, InFirst, Halfway, UniqueNames, GoodNames, DistinctKept, KeptMap, ShortNames;
    assert files[..|files|] == files;
    WeededKept(v, v1, files);
    if ShortNames(files) {
      WeededRepeats(v, v1, files);
      RepeatsJoin(v, v1, v2, files);
    }
    if Named(v) {
      WeededNamed(v, v1, files);
      if DistinctKept(files) {
        OnlyStored(v1, files);
        HalfwayNamed(v1, v2, files);
      }
    }
  }

  lemma RepeatsJoin(v: Volume, v1: Volume, v2: Volume, files: F.Files)
    requires Volumes.Sound(v) && Volumes.Sound(v1) && Volumes.Sound(v2)
    requires RepeatsKept(v, v1, files) && RepeatsKept(v1, v2, files)
    ensures RepeatsKept(v, v2, files)
  {
    hide Again, RecordOf, NameOf, ShouldKeep;
  }

  lemma SameHalfwayNow(v: Volume, files: F.Files)
    requires Volumes.Sound(v)
    ensures NamesApart(v, files) ==> Halfway(v, v, files)
  {
  }

  lemma HalfwaySteps(v: Volume, v1: Volume, v2: Volume, files: F.Files)
    requires Volumes.Sound(v) && Volumes.Sound(v1) && Volumes.Sound(v2)
    requires Halfway(v, v1, files) && Halfway(v1, v2, files)
    ensures Halfway(v, v2, files)
  {
    hide Contents;
  }

  /** Two stretches of a sync, from `v` to `v1` and from `v1` to `v2`. */
  lemma OrderlyStep(
    middle: seq<Image>, history: seq<Image>, n: nat, v: Volume, v1: Volume, v2: Volume, files: F.Files)
    requires Volumes.Sound(v) && Volumes.Sound(v1) && Volumes.Sound(v2) && middle <= history
    requires OrderlySince(middle, n, v, files) && OrderlySince(history, |middle|, v1, files)
    requires NamesApart(v, files) ==> Halfway(v, v1, files)
    requires NamesApart(v1, files) ==> Halfway(v1, v2, files)
    ensures OrderlySince(history, n, v, files)
    ensures NamesApart(v, files) ==> Halfway(v, v2, files)
  {
    hide View, Contents;
    SafeJoin(middle, history, n);
    if NamesApart(v, files) {
      HalfwaySteps(v, v1, v2, files);
      forall k | |middle| <= k < |history|
        ensures HalfwayImage(history[k], v, files)
      {
        assert HalfwayImage(history[k], v1, files);
        HalfwaySteps(v, v1, View(history[k]), files);
      }
      HalfwayJoin(middle, history, n, v, files);
    }
  }

  /** After the first pass, storing everything leaves nothing else. */
  lemma OnlyStored(v: Volume, files: F.Files)
    requires Volumes.Sound(v) && Named(v)
    requires KeptBelow(v.table, files, MAX_FILES)
    ensures Contents(v) + KeptMap(files) == KeptMap(files)
  {
    forall name | name in Contents(v)
      ensures name in KeptMap(files)
    {
      var i := ContentsName(v, name);
      var f :| f in files && Persistable(f.name) && f.name == name;
      var j :| 0 <= j < |files| && files[j] == f;
      assert |name| <= 95;
      assert KeptAt(files, j, name);
      KeptMapKeys(files, name);
    }
  }

  /** The dirty mark that opens a sync. */
  method Begin(disk: Disk, ghost files: F.Files) returns (r: Result<(), DiskError>)
    requires Mounted(disk) && Volumes.Sound(Vol(disk))
    modifies disk.cache, disk.device
    ensures Mounted(disk) && Volumes.Sound(Vol(disk)) && Vol(disk) == old(Vol(disk)).(super := Vol(disk).super)
    ensures r.Ok? ==> Vol(disk).super.state == DIRTY
    ensures r.Err? ==> r.error == DeviceError && Vol(disk) == old(Vol(disk))
    ensures old(disk.device.history) <= disk.device.history
    ensures OrderlySince(disk.device.history, |old(disk.device.history)|, old(Vol(disk)), files)
    ensures NamesApart(old(Vol(disk)), files) ==> Halfway(old(Vol(disk)), Vol(disk), files)
    ensures r == Err(DeviceError) ==> !disk.device.reliable
  {
    hide View, Contents, SectorCache.Disk.Valid;
    ghost var v, n := Vol(disk), |disk.device.history|;
    r := MarkDirty(disk);
    if Named(v) {
      SameHalfway(disk.device.history, n, v, files);
    }
  }

  /** The recount and clean mark that end a sync. */
  method Finish(disk: Disk, ghost files: F.Files) returns (r: Result<(), DiskError>)
    requires Mounted(disk) && Volumes.Sound(Vol(disk)) && Vol(disk).super.state == DIRTY
    modifies disk.cache, disk.device
    ensures Mounted(disk) && CrashSafe(Vol(disk)) && Vol(disk) == old(Vol(disk)).(super := Vol(disk).super)
    ensures Contents(Vol(disk)) == old(Contents(Vol(disk)))
    ensures r.Ok? ==> Vol(disk).super.state == CLEAN
    ensures r.Err? ==> r.error == DeviceError
    ensures old(disk.device.history) <= disk.device.history
    ensures OrderlySince(disk.device.history, |old(disk.device.history)|, old(Vol(disk)), files)
    ensures NamesApart(old(Vol(disk)), files) ==> Halfway(old(Vol(disk)), Vol(disk), files)
    ensures r == Err(DeviceError) ==> !disk.device.reliable
  {
    hide View, Contents, SectorCache.Disk.Valid;
    ghost var v, n := Vol(disk), |disk.device.history|;
    r := MarkClean(disk);
    if Named(v) {
      SameHalfway(disk.device.history, n, v, files);
    }
  }

  /** The volume holds every file of the snapshot under its name, but for the two never stored, and nothing else. */
  ghost predicate HoldsAllButTwo(v: Volume, files: F.Files)
    requires Volumes.Sound(v)
  {
    && (forall f | f in files :: f.name in Contents(v) <==> f.name != Ascii("/readme.txt") && f.name != Ascii("/sysinfo.txt"))
    && (forall f | f in files && f.name in Contents(v) :: Contents(v)[f.name] == RecordFor(f))
    && forall name | name in Contents(v) :: exists f | f in files :: f.name == name
  }

  lemma HoldsThem(v: Volume, files: F.Files)
    requires Volumes.Sound(v) && F.Legal(files) && ShortNames(files)
    requires DistinctKept(files) ==> Contents(v) == KeptMap(files)
    ensures HoldsAllButTwo(v, files)
  {
    hide Contents, KeptMap, StoredMap, DistinctKept, RecordFor, F.GoodFile;
    ShortKept(files);
    forall f | f in files
      ensures f.name in Contents(v) <==> Persistable(f.name)
      ensures f.name in Contents(v) ==> Contents(v)[f.name] == RecordFor(f)
    {
      StoredMapKeys(files, f.name);
      if Persistable(f.name) {
        StoredMapAt(files, f);
      }
    }
    forall name | name in Contents(v)
      ensures exists f | f in files :: f.name == name
    {
      StoredMapKeys(files, name);
    }
  }

  /** Superblock writes before and after change no slot. */
  lemma TidiedSuper(v: Volume, v1: Volume, v2: Volume, v3: Volume, files: F.Files)
    requires Volumes.Sound(v) && Volumes.Sound(v1) && Volumes.Sound(v2) && Volumes.Sound(v3)
    requires v1 == v.(super := v1.super) && v3 == v2.(super := v3.super)
    ensures Tidied(v1, v2, files) ==> Tidied(v, v3, files)
  {
    hide First, NameOf, ShouldKeep, Again, Disjoint;
  }

  /**
   `sync_filesystem`, on any sound volume: every image is crash-safe, and success leaves each
   file with a short name in the first slot of its name. If slots have distinct names and the
   stored files are kept under distinct ones, success leaves exactly them, and in every image
   a file that is already as wanted is whole, and one the snapshot does not want whole or gone.
   */
  method SyncFilesystem(disk: Disk, files: F.Files) returns (r: Result<nat, DiskError>)
    requires Mounted(disk) && Volumes.Sound(Vol(disk)) && F.Legal(files)
    modifies disk.cache, disk.device
    ensures Mounted(disk) && Volumes.Sound(Vol(disk))
    ensures CrashSafe(Vol(disk)) || (r.Err? && Vol(disk) == old(Vol(disk)))
    ensures r.Ok? ==> Vol(disk).super.state == CLEAN && r.value == |StoredFiles(files)|
    ensures old(disk.device.history) <= disk.device.history
    ensures SafeSince(disk.device.history, |old(disk.device.history)|)
    ensures GoodNames(old(Vol(disk)).table) ==> GoodNames(Vol(disk).table)
    ensures NamesApart(old(Vol(disk)), files) ==>
              && Halfway(old(Vol(disk)), Vol(disk), files)
              && HalfwaySince(disk.device.history, |old(disk.device.history)|, old(Vol(disk)), files)
              && (r.Ok? ==> Contents(Vol(disk)) == KeptMap(files))
    ensures r.Ok? ==> TextNames(old(Vol(disk)).table)
    ensures r.Ok? && Named(old(Vol(disk))) && ShortNames(files) ==> HoldsAllButTwo(Vol(disk), files)
    ensures r.Ok? && ShortNames(files) ==> Tidied(old(Vol(disk)), Vol(disk), files)
    ensures r.Ok? && Named(old(Vol(disk))) ==> (UniqueNames(Vol(disk).table) <==> DistinctKept(files))
    ensures r.Err? ==> r.error == DeviceError || (r.error == DiskFull && Overfull(Vol(disk), files))
                       || (r.error == CorruptedData && !GoodNames(old(Vol(disk)).table))
    ensures r == Err(DeviceError) ==> !disk.device.reliable
  {
    hide View, Contents, SectorCache.Disk.Valid, Halfway, HalfwaySince, SafeSince, Tidied, Overfull, StoredFiles, HoldsAllButTwo;
    hide GoodNames, TextNames, UniqueNames, DistinctKept, KeptMap, ShortNames, F.Legal, Disjoint, Sized, Inside;
    ghost var h0, v0 := disk.device.history, Vol(disk);
    var _ :- Begin(disk, files);
    ghost var h1, v1 := disk.device.history, Vol(disk);
    r := Rewrite(disk, files);
    ghost var h2, v2 := disk.device.history, Vol(disk);
    OrderlyStep(h1, h2, |h0|, v0, v1, v2, files);
    if r.Err? {
      return;
    }
    var c := Finish(disk, files);
    OrderlyStep(h2, disk.device.history, |h0|, v0, v2, Vol(disk), files);
    if c.Err? {
      return Err(c.error);
    }
    TidiedSuper(v0, v1, v2, Vol(disk), files);
    if Named(v0) && ShortNames(files) {
      HoldsThem(Vol(disk), files);
    }
  }
}
