/**
 What a load takes from a volume in which several slots answer to one name
 (kernel/src/disk/persist.rs): the last of them, which is not the one a sync rewrites.
 */
module LastSlot {
  import opened Bytes
  import opened Errors
  import opened DiskLayout
  import opened Volumes
  import opened Format
  import opened Paths
  import opened Persist
  import opened Repeats
  import opened Sync
  import opened FsEffects
  import F = WarFs

  /** A file the volume can hold exactly: short name, one owner. */
  predicate Storable(f: F.FileEntry) { |f.name| <= 95 && f.permissions.ownerUid == f.ownerUid }

  predicate AllStorable(files: F.Files) { forall e | e in files :: Storable(e) }

  lemma {:induction false} StoredSorted(files: F.Files)
    requires F.Sorted(files)
    ensures F.Sorted(StoredFiles(files))
  {
    if files != [] {
      var n := |files| - 1;
      var front := StoredFiles(files[..n]);
      StoredSorted(files[..n]);
      if Persistable(files[n].name) && front != [] {
        var x := front[|front| - 1];
        assert x in front;
        StoredBelow(files, n, x);
        SortedAppend(front, files[n]);
      }
    }
  }

  lemma StoredBelow(files: F.Files, n: nat, x: F.FileEntry)
    requires F.Sorted(files) && n < |files| && x in files[..n]
    ensures StrLess(x.name, files[n].name)
  {
    var i :| 0 <= i < n && files[i] == x;
    F.SortedOrder(files, i, n);
  }

  lemma SortedAppend(files: F.Files, e: F.FileEntry)
    requires F.Sorted(files) && files != [] && StrLess(files[|files| - 1].name, e.name)
    ensures F.Sorted(files + [e])
  {
  }

  // ---------- the file under each name after a load ----------

  function FileOf(name: str, r: Record): F.FileEntry {
    F.FileEntry(name, r.data, r.createdAt, r.modifiedAt, r.readonly, r.ownerUid,
                F.FilePermissions(r.ownerUid, r.ownerRead, r.ownerWrite, r.othersRead, r.othersWrite))
  }

  /** The two files the kernel makes anew at every boot. */
  predicate GivenAtBoot(name: str) { name == Ascii("/readme.txt") || name == Ascii("/sysinfo.txt") }

  lemma NotStoredExactly(name: str)
    ensures Persistable(name) <==> !GivenAtBoot(name)
  {
  }

  /** Loading this slot puts a file under `name`. */
  predicate Gives(e: DiskFileEntry, name: str) {
    e.active != 0 && !GivenAtBoot(NameOf(e)) && CanonicalPath(NameOf(e)) == Ok(name)
  }

  /** What the first `n` slots put under `name`: the last of them wins. */
  function LastLoaded(v: Volume, before: Option<F.FileEntry>, n: nat, name: str): Option<F.FileEntry>
    requires Volumes.Sound(v) && n <= MAX_FILES
  {
    if n == 0 then before
    else if Gives(v.table[n - 1], name) then Some(FileOf(name, RecordOf(v, v.table[n - 1])))
    else LastLoaded(v, before, n - 1, name)
  }

  lemma {:induction false} LastLoadedIs(v: Volume, before: Option<F.FileEntry>, n: nat, name: str, j: nat)
    requires Volumes.Sound(v) && j < n <= MAX_FILES && Gives(v.table[j], name)
    requires forall k | j < k < n :: !Gives(v.table[k], name)
    ensures LastLoaded(v, before, n, name) == Some(FileOf(name, RecordOf(v, v.table[j])))
  {
    hide Gives;
    if j < n - 1 {
      LastLoadedIs(v, before, n - 1, name, j);
    }
  }

  lemma {:induction false} NothingLoaded(v: Volume, before: Option<F.FileEntry>, n: nat, name: str)
    requires Volumes.Sound(v) && n <= MAX_FILES && forall k | 0 <= k < n :: !Gives(v.table[k], name)
    ensures LastLoaded(v, before, n, name) == before
  {
    hide Gives;
    if n > 0 {
      NothingLoaded(v, before, n - 1, name);
    }
  }

  predicate LastOf(table: seq<DiskFileEntry>, j: nat) {
    && j < |table| && table[j].active != 0
    && forall k | j < k < |table| && table[k].active != 0 :: NameOf(table[k]) != NameOf(table[j])
  }

  /** Some last slot, if there is any with this name. */
  lemma {:induction false} FindLast(table: seq<DiskFileEntry>, i: nat) returns (j: nat)
    requires i < |table| && table[i].active != 0
    ensures i <= j && LastOf(table, j) && NameOf(table[j]) == NameOf(table[i])
    decreases |table| - i
  {
    hide NameOf;
    if k :| i < k < |table| && table[k].active != 0 && NameOf(table[k]) == NameOf(table[i]) {
      j := FindLast(table, k);
    } else {
      j := i;
    }
  }

  /** A wanted name whose last slot is not its first already has there what the snapshot asks for. */
  ghost predicate NoStale(v: Volume, files: F.Files)
    requires Volumes.Sound(v)
  {
    forall j: nat, f | f in files && Persistable(f.name) && j < MAX_FILES && Again(v.table, j) && LastOf(v.table, j)
                       && NameOf(v.table[j]) == f.name ::
      RecordOf(v, v.table[j]) == RecordFor(f)
  }

  // ---------- loading what a sync left ----------

  lemma WantedCanonical(files: F.Files, name: str)
    requires F.Legal(files) && ShouldKeep(files, name)
    ensures Persistable(name) && CanonicalPath(name) == Ok(name)
  {
    hide Canonical, CanonicalPath;
    var f :| f in files && Persistable(f.name) && f.name == name;
    var i :| 0 <= i < |files| && files[i] == f;
    assert F.GoodFile(files[i]);
    CanonicalFixpoint(name);
  }

  /** Among wanted names, a slot gives the name it has. */
  lemma GivesOwn(v: Volume, files: F.Files, k: nat, name: str)
    requires Volumes.Sound(v) && F.Legal(files) && KeptBelow(v.table, files, MAX_FILES) && k < MAX_FILES
    ensures Gives(v.table[k], name) <==> v.table[k].active != 0 && NameOf(v.table[k]) == name
  {
    hide NameOf, ShouldKeep, CanonicalPath, Persistable, GivenAtBoot, F.Legal;
    NotStoredExactly(NameOf(v.table[k]));
    if v.table[k].active != 0 {
      WantedCanonical(files, NameOf(v.table[k]));
    }
  }

  lemma LastGives(v: Volume, files: F.Files, j: nat)
    requires Volumes.Sound(v) && F.Legal(files) && KeptBelow(v.table, files, MAX_FILES) && j < MAX_FILES
    requires LastOf(v.table, j)
    ensures LastLoaded(v, None, MAX_FILES, NameOf(v.table[j])) == Some(FileOf(NameOf(v.table[j]), RecordOf(v, v.table[j])))
  {
    hide NameOf, RecordOf, Gives, F.Legal;
    var name := NameOf(v.table[j]);
    forall k: nat | k < MAX_FILES
      ensures Gives(v.table[k], name) <==> v.table[k].active != 0 && NameOf(v.table[k]) == name
    {
      GivesOwn(v, files, k, name);
    }
    LastLoadedIs(v, None, MAX_FILES, name, j);
  }

  lemma UnwantedGone(v: Volume, files: F.Files, name: str)
    requires Volumes.Sound(v) && F.Legal(files) && KeptBelow(v.table, files, MAX_FILES) && !ShouldKeep(files, name)
    ensures LastLoaded(v, None, MAX_FILES, name) == None
  {
    hide NameOf, RecordOf, Gives, F.Legal, ShouldKeep;
    forall k: nat | k < MAX_FILES
      ensures !Gives(v.table[k], name)
    {
      GivesOwn(v, files, k, name);
    }
    NothingLoaded(v, None, MAX_FILES, name);
  }

  /** The last slot of a wanted name holds the file, or what it held before the sync. */
  lemma LastRecord(v: Volume, v': Volume, files: F.Files, i: nat) returns (j: nat)
    requires Volumes.Sound(v) && Volumes.Sound(v') && Tidied(v, v', files)
    requires i < |files| && Persistable(files[i].name)
    ensures j < MAX_FILES && LastOf(v'.table, j) && NameOf(v'.table[j]) == files[i].name
    ensures if Again(v.table, j) && NameOf(v.table[j]) == files[i].name
            then LastOf(v.table, j) && RecordOf(v', v'.table[j]) == RecordOf(v, v.table[j])
            else RecordOf(v', v'.table[j]) == RecordFor(files[i])
  {
    hide NameOf, RecordOf, RecordFor, First, Disjoint;
    var s := First(v'.table, files[i].name);
    j := FindLast(v'.table, s);
    assert files[i] in files;
    assert ShouldKeep(files, files[i].name);
    if Again(v'.table, j) {
      LastBefore(v, v', files, j);
    }
  }

  /** A repeated slot that is last after the sync was last before it, and the other way round. */
  lemma LastBefore(v: Volume, v': Volume, files: F.Files, j: nat)
    requires Volumes.Sound(v) && Volumes.Sound(v') && RepeatsKept(v, v', files) && j < MAX_FILES && Again(v'.table, j)
    ensures LastOf(v.table, j) <==> LastOf(v'.table, j)
  {
    hide NameOf, RecordOf, First, ShouldKeep, Disjoint;
    var name := NameOf(v.table[j]);
    forall k: nat | j < k < MAX_FILES
      ensures v.table[k].active != 0 && NameOf(v.table[k]) == name
         <==> v'.table[k].active != 0 && NameOf(v'.table[k]) == name
    {
      assert First(v.table, name) < j && First(v'.table, name) < j;
    }
  }

  /** What the load holds, for every name. */
  ghost predicate LoadedFrom(v: Volume, loaded: F.Files)
    requires Volumes.Sound(v)
  {
    F.Sorted(loaded) && forall name :: Lookup(loaded, name) == LastLoaded(v, None, MAX_FILES, name)
  }

  lemma WantedLoaded(v: Volume, v': Volume, files: F.Files, loaded: F.Files, i: nat)
    requires Volumes.Sound(v) && Volumes.Sound(v') && Tidied(v, v', files) && F.Legal(files) && LoadedFrom(v', loaded)
    requires i < |files| && Persistable(files[i].name) && Storable(files[i]) && NoStale(v, files)
    ensures Lookup(loaded, files[i].name) == Some(files[i])
  {
    hide NameOf, RecordOf, First, Disjoint, F.Legal, LastOf, KeptBelow, InFirst, RepeatsKept, Again, Lookup, LastLoaded;
    var j := LastRecord(v, v', files, i);
    LastGives(v', files, j);
    assert files[i] in files;
  }

  lemma AllBack(v: Volume, v': Volume, files: F.Files, loaded: F.Files)
    requires Volumes.Sound(v) && Volumes.Sound(v') && Tidied(v, v', files) && F.Legal(files) && LoadedFrom(v', loaded)
    requires AllStorable(StoredFiles(files)) && NoStale(v, files)
    ensures loaded == StoredFiles(files)
  {
    hide Lookup, LastLoaded, NoStale, Storable, KeptBelow, InFirst, RepeatsKept, Disjoint, F.GoodFile;
    StoredSorted(files);
    forall e
      ensures e in loaded <==> e in StoredFiles(files)
    {
      LookupExact(loaded, e.name, e);
      if ShouldKeep(files, e.name) {
        var f :| f in files && Persistable(f.name) && f.name == e.name;
        var i :| 0 <= i < |files| && files[i] == f;
        assert f in StoredFiles(files);
        WantedLoaded(v, v', files, loaded, i);
        if e in StoredFiles(files) {
          SameNameSame(StoredFiles(files), e, f);
        }
      } else {
        UnwantedGone(v', files, e.name);
      }
    }
    F.SortedDetermined(loaded, StoredFiles(files));
  }

  lemma SameNameSame(files: F.Files, x: F.FileEntry, y: F.FileEntry)
    requires F.Sorted(files) && x in files && y in files && x.name == y.name
    ensures x == y
  {
    var i :| 0 <= i < |files| && files[i] == x;
    var j :| 0 <= j < |files| && files[j] == y;
    F.SortedUnique(files, i, j);
  }

  lemma BackHasOwner(v: Volume, v': Volume, files: F.Files, loaded: F.Files, i: nat)
    requires Volumes.Sound(v) && Volumes.Sound(v') && Tidied(v, v', files) && F.Legal(files) && LoadedFrom(v', loaded)
    requires loaded == StoredFiles(files) && i < |files| && Persistable(files[i].name)
    ensures files[i].permissions.ownerUid == files[i].ownerUid
  {
    hide NameOf, RecordOf, First, Disjoint, F.Legal, LastOf, KeptBelow, InFirst, RepeatsKept, Again, Lookup, LastLoaded;
    var j := LastRecord(v, v', files, i);
    LastGives(v', files, j);
    assert files[i] in loaded;
    LookupExact(loaded, files[i].name, files[i]);
  }

  lemma BackNotStale(v: Volume, v': Volume, files: F.Files, loaded: F.Files, j: nat, f: F.FileEntry)
    requires Volumes.Sound(v) && Volumes.Sound(v') && Tidied(v, v', files) && F.Legal(files) && LoadedFrom(v', loaded)
    requires loaded == StoredFiles(files)
    requires f in files && Persistable(f.name) && j < MAX_FILES && Again(v.table, j) && LastOf(v.table, j)
    requires NameOf(v.table[j]) == f.name
    ensures RecordOf(v, v.table[j]) == RecordFor(f)
  {
    hide NameOf, RecordOf, First, Disjoint, F.Legal, LastOf, Again, Lookup, LastLoaded;
    assert ShouldKeep(files, f.name);
    LastBefore(v, v', files, j);
    LastGives(v', files, j);
    assert f in loaded;
    LookupExact(loaded, f.name, f);
  }

  /**
   Loading a volume a sync left gives back the stored files if and only if each can be
   stored as it is and no stale slot comes last under its name.
   */
  lemma BackExactly(v: Volume, v': Volume, files: F.Files, loaded: F.Files)
    requires Volumes.Sound(v) && Volumes.Sound(v') && Tidied(v, v', files) && F.Legal(files) && LoadedFrom(v', loaded)
    requires ShortNames(files)
    ensures loaded == StoredFiles(files) <==> AllStorable(StoredFiles(files)) && NoStale(v, files)
  {
    hide Tidied, F.Legal, LoadedFrom, NameOf, RecordOf, RecordFor, First, Disjoint;
    if loaded == StoredFiles(files) {
      forall f | f in StoredFiles(files)
        ensures Storable(f)
      {
        var i :| 0 <= i < |files| && files[i] == f;
        BackHasOwner(v, v', files, loaded, i);
      }
      forall j: nat, f | f in files && Persistable(f.name) && j < MAX_FILES && Again(v.table, j) && LastOf(v.table, j)
                         && NameOf(v.table[j]) == f.name
        ensures RecordOf(v, v.table[j]) == RecordFor(f)
      {
        BackNotStale(v, v', files, loaded, j, f);
      }
    } else if AllStorable(StoredFiles(files)) && NoStale(v, files) {
      AllBack(v, v', files, loaded);
    }
  }

  // ---------- a stale load ----------

  /** Saving one long name a second time leaves two slots with one name. */
  lemma SavedTwice(v: Volume, v1: Volume, v2: Volume, name: str)
    requires Volumes.Sound(v) && Volumes.Sound(v1) && Volumes.Sound(v2) && |name| > 95
    requires NameKeptExactly(v, v1, name) && NameKeptExactly(v1, v2, name)
    ensures !UniqueNames(v2.table)
  {
    hide Contents, CountActive, Names, UniqueNames;
  }

  function LongFile(): F.FileEntry {
    F.FileEntry(LongPath(), [], 0, 0, false, 0, F.FilePermissions(0, true, true, false, false))
  }

  /** A later file, at the path both of its slots answer to. */
  function StemFile(): F.FileEntry
    requires |LongPath()| == 96
  {
    LongFile().(name := LongPath()[..95], modifiedAt := 1)
  }

  /** What two saves of the long file leave on an empty volume of one block. */
  function TwiceVolume(): Volume {
    var v := LetterVolume();
    v.(table := [EntryFor(LongFile(), 0), EntryFor(LongFile(), 0)] + seq(MAX_FILES - 2, _ => Inactive()))
  }

  lemma StemCanonical()
    ensures |LongPath()| == 96 && Canonical(LongPath()[..95]) && LongPath()[..95] != ROOT
  {
    var c, d := Repeated(97, 31), Repeated(97, 30);
    var parts := [c, c, d];
    assert parts[1..] == [c, d] && parts[2..] == [d];
    JoinHead(parts);
    JoinHead([c, d]);
    JoinHead([d]);
    JoinHead([]);
    assert LongPath()[..95] == [SLASH] + c + ([SLASH] + c + ([SLASH] + d));
    assert PathOf(parts) == LongPath()[..95];
    assert GoodComponent(c) && GoodComponent(d);
    assert IsPathOf(LongPath()[..95], parts);
  }

  lemma TwiceNames()
    ensures |LongPath()| == 96 && NameOf(EntryFor(LongFile(), 0)) == LongPath()[..95] && GoodName(LongPath()[..95])
  {
    hide NameOf, NameField96, Canonical, LongPath, ValidUtf8;
    LongPathLost(LongFile(), 0);
    StemCanonical();
    CanonicalText(LongPath()[..95]);
  }

  lemma TwiceSound()
    ensures Volumes.Sound(TwiceVolume())
  {
    hide NameField96, LongPath;
  }

  lemma StemLegal()
    ensures |LongPath()| == 96 && F.Legal([StemFile()]) && Persistable(StemFile().name)
    ensures AllStorable(StoredFiles([StemFile()]))
  {
    hide Canonical, LongPath, Persistable, F.Legal, StoredFiles;
    StemCanonical();
    LongerPersists(StemFile().name);
    OneLegal(StemFile());
  }

  lemma OneLegal(f: F.FileEntry)
    requires F.GoodFile(f) && f.data == []
    ensures F.Legal([f])
  {
    hide F.GoodFile;
    assert [f][1..] == [];
    assert F.Used([f]) == 0;
  }

  lemma LongerPersists(name: str)
    requires |name| > 20
    ensures Persistable(name)
  {
  }

  /** On that volume a sync of the later file is lost: the load brings back the old slot. */
  lemma TwiceSavedStale()
    ensures |LongPath()| == 96 && Volumes.Sound(TwiceVolume()) && GoodNames(TwiceVolume().table)
    ensures F.Legal([StemFile()]) && AllStorable(StoredFiles([StemFile()])) && !NoStale(TwiceVolume(), [StemFile()])
  {
    hide Canonical, LongPath, NameOf, NameField96, GoodName, Persistable, AllStorable;
    TwiceNames();
    TwiceSound();
    StemLegal();
    var v := TwiceVolume();
    assert v.table[0] == v.table[1] == EntryFor(LongFile(), 0);
    FirstIs(v.table, LongPath()[..95], 0);
    assert Again(v.table, 1) && LastOf(v.table, 1);
    assert StemFile() in [StemFile()];
  }
}
