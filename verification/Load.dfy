/**
 Loading a volume into the RAM filesystem, and the sync/load round trip
 (kernel/src/disk/persist.rs).
 */
module LoadBack {
  import opened Bytes
  import opened Errors
  import opened DiskLayout
  import opened Volumes
  import opened Images
  import opened SectorCache
  import opened Format
  import opened Paths
  import opened Persist
  import opened Repeats
  import opened LastSlot
  import S = Sync
  import F = WarFs
  import E = FsEffects

  /** What comes back of a stored file: the permission bits follow the file's owner. */
  function ReadForm(f: F.FileEntry): F.FileEntry {
    f.(permissions := f.permissions.(ownerUid := f.ownerUid))
  }

  function Restored(files: F.Files): (s: F.Files)
    ensures |s| == |S.StoredFiles(files)|
    ensures forall i | 0 <= i < |s| :: s[i] == ReadForm(S.StoredFiles(files)[i])
  {
    var stored := S.StoredFiles(files);
    seq(|stored|, i requires 0 <= i < |stored| => ReadForm(stored[i]))
  }

  lemma RestoredSorted(files: F.Files)
    requires F.Sorted(files)
    ensures F.Sorted(Restored(files))
  {
    StoredSorted(files);
  }

  // ---------- names only get shorter ----------

  function Weight(parts: seq<str>): nat {
    if parts == [] then 0 else |parts[0]| + 1 + Weight(parts[1..])
  }

  lemma {:induction false} SplitWeight(s: str)
    ensures Weight(Split(s)) == |s| + 1
  {
    if s != [] {
      SplitWeight(s[1..]);
    }
  }

  lemma {:induction false} KeptWeight(parts: seq<str>)
    requires Kept(parts).Ok?
    ensures |JoinAll(Kept(parts).value)| <= Weight(parts)
  {
    if parts != [] {
      KeptWeight(parts[1..]);
      var kept := Kept(parts).value;
      if !(parts[0] == [] || parts[0] == [DOT]) {
        assert kept[1..] == Kept(parts[1..]).value;
      }
    }
  }

  lemma {:induction false} TrimEndRooted(s: str)
    requires s != [] && s[0] == SLASH
    ensures TrimEnd(s) != [] && TrimEnd(s)[0] == SLASH
    decreases |s|
  {
    hide SpaceAtBack, IsSpace;
    if SpaceAtBack(s) > 0 {
      var k := |s| - SpaceAtBack(s);
      BackIsSpace(s);
      assert s[k] != SLASH;
      TrimEndRooted(s[..k]);
    }
  }

  lemma CanonicalShorter(name: str)
    requires name != [] && name[0] == SLASH && CanonicalPath(name).Ok?
    ensures |CanonicalPath(name).value| <= |name|
  {
    assert SpaceAtFront(name) == 0;
    assert TrimStart(name) == name;
    TrimEndRooted(name);
    var t := Trim(name);
    SplitWeight(t);
    var parts := Split(t);
    assert parts[0] == [];
    assert parts[1..] == Split(t[1..]);
    SplitWeight(t[1..]);
    KeptWeight(parts[1..]);
  }

  // ---------- what is loaded ----------

  function LoadOp(name: str, data: seq<byte>, e: DiskFileEntry): F.Op {
    F.Load(name, data, e.ownerUid,
           F.FilePermissions(e.ownerUid, e.permOwnerRead != 0, e.permOwnerWrite != 0,
                             e.permOthersRead != 0, e.permOthersWrite != 0),
           e.readonly != 0, e.createdAt, e.modifiedAt)
  }

  /** The data of one record, read the way `load_filesystem` reads it. */
  method ReadData(disk: Disk, e: DiskFileEntry) returns (r: Result<seq<byte>, DiskError>)
    requires Mounted(disk)
    modifies disk.cache
    ensures Mounted(disk)
    ensures Sound(Vol(disk)) && e in Vol(disk).table && e.active != 0 ==>
              && (r.Ok? ==> r.value == RecordOf(Vol(disk), e).data)
              && (r.Err? ==> r.error == DeviceError)
    ensures r == Err(DeviceError) ==> !disk.device.reliable
  {
    hide View, Flatten, Disjoint, SectorCache.Disk.Valid;
    var data := Zeros(e.size);
    if e.blockCount != 0 && e.size != 0 {
      var block :- ReadFileData(disk, e.startBlock, e.blockCount, e.blockCount * BLOCK_SIZE);
      // A run longer than 2^32 sectors is cut; the buffer keeps its zeros beyond it.
      var buffer := if |block| < e.blockCount * BLOCK_SIZE
        then block + Zeros(e.blockCount * BLOCK_SIZE - |block|) else block;
      if e.size > |buffer| {
        return Err(Panicked);
      }
      data := buffer[..e.size];
    }
    return Ok(data);
  }

  /** The volume holds exactly the stored files of this legal snapshot. */
  ghost predicate Holds(v: Volume, snapshot: F.Files) {
    Sound(v) && Named(v) && F.Legal(snapshot) && ShortNames(snapshot) && Contents(v) == S.StoredMap(snapshot)
  }

  lemma EntryIsOf(v: Volume, snapshot: F.Files, j: nat) returns (f: F.FileEntry)
    requires Holds(v, snapshot) && j < MAX_FILES && v.table[j].active != 0
    ensures f in snapshot && Persistable(f.name) && NameOf(v.table[j]) == f.name
    ensures RecordOf(v, v.table[j]) == RecordFor(f)
  {
    ContentsAt(v, j);
    var name := NameOf(v.table[j]);
    S.StoredMapKeys(snapshot, name);
    f :| f in snapshot && Persistable(f.name) && f.name == name;
    S.StoredMapAt(snapshot, f);
  }

  // ---------- room for everything ----------

  predicate SameIn(e: F.FileEntry, files: F.Files) {
    exists j | 0 <= j < |files| :: files[j].name == e.name && files[j].data == e.data
  }

  predicate DistinctNames(files: F.Files) {
    forall i, j | 0 <= i < j < |files| :: files[i].name != files[j].name
  }

  lemma {:induction false} UsedWithin(a: F.Files, b: F.Files)
    requires DistinctNames(a) && forall i | 0 <= i < |a| :: SameIn(a[i], b)
    ensures F.Used(a) <= F.Used(b) && |a| <= |b|
  {
    if a != [] {
      assert SameIn(a[0], b);
      var k :| 0 <= k < |b| && b[k].name == a[0].name && b[k].data == a[0].data;
      var b' := b[..k] + b[k + 1..];
      forall i | 0 <= i < |a[1..]|
        ensures SameIn(a[1..][i], b')
      {
        assert SameIn(a[i + 1], b);
        var j :| 0 <= j < |b| && b[j].name == a[i + 1].name && b[j].data == a[i + 1].data;
        assert b'[if j < k then j else j - 1] == b[j];
      }
      UsedWithin(a[1..], b');
      F.UsedRemoved(b, k);
    }
  }

  lemma {:induction false} UsedAppend(files: F.Files, e: F.FileEntry)
    ensures F.Used(files + [e]) == F.Used(files) + |e.data|
  {
    if files == [] {
      assert files + [e] == [e];
      assert [e][1..] == [];
    } else {
      UsedAppend(files[1..], e);
      assert (files + [e])[1..] == files[1..] + [e];
    }
  }

  lemma NamesStayDistinct(files: F.Files, f: F.FileEntry)
    requires F.Sorted(files) && F.Find(files, f.name) == |files|
    ensures DistinctNames(files + [f])
  {
    var all := files + [f];
    forall i, j | 0 <= i < j < |all|
      ensures all[i].name != all[j].name
    {
      if j < |files| && all[i].name == all[j].name {
        F.SortedUnique(files, i, j);
      }
    }
  }

  /** Loading one more file of the snapshot always succeeds. */
  lemma LoadFits(files: F.Files, snapshot: F.Files, f: F.FileEntry)
    requires F.Legal(files) && F.Legal(snapshot) && f in snapshot
    requires forall i | 0 <= i < |files| :: SameIn(files[i], snapshot)
    requires F.Find(files, f.name) == |files|
    ensures |files| < F.MAX_FILES
    ensures F.Admit(files, f.name, f.data) == Ok(f.name)
    ensures F.Used(files) + |f.data| <= F.TOTAL_CAPACITY
    ensures F.GoodFile(f)
  {
    hide CanonicalPath, Canonical, F.UsedWithout, F.Used;
    NamesStayDistinct(files, f);
    var k :| 0 <= k < |snapshot| && snapshot[k] == f;
    assert F.GoodFile(snapshot[k]);
    assert SameIn(f, snapshot);
    UsedWithin(files + [f], snapshot);
    UsedAppend(files, f);
    F.UsedAbsent(files, f.name);
    CanonicalFixpoint(f.name);
  }

  // ---------- load ----------

  /** What every moment of the load keeps when the volume holds `snapshot`. */
  ghost predicate Loading(v: Volume, files: F.Files, snapshot: F.Files, n: nat)
    requires n <= |v.table|
  {
    && (forall e | e in files :: e in Restored(snapshot) && e.name in Names(v.table[..n]))
    && (forall j | 0 <= j < n && v.table[j].active != 0 ::
          exists e | e in files :: e.name == NameOf(v.table[j]))
  }

  datatype Slot = Skipped | Found(op: F.Op)

  /** Read one slot: nothing to load, or the file to hand to the filesystem. */
  method ReadSlot(disk: Disk, index: nat) returns (r: Result<Slot, DiskError>)
    requires Mounted(disk) && index < MAX_FILES
    modifies disk.cache
    ensures Mounted(disk)
    ensures r.Ok? && r.value.Skipped? ==>
              Vol(disk).table[index].active == 0 || !Persistable(NameOf(Vol(disk).table[index]))
    ensures r.Ok? && r.value.Found? ==>
              && var e := Vol(disk).table[index];
              && e.active != 0 && Persistable(NameOf(e)) && r.value.op.Load? && r.value.op.name == NameOf(e)
              && r.value.op == LoadOp(NameOf(e), r.value.op.data, e)
              && (Sound(Vol(disk)) ==> r.value.op.data == RecordOf(Vol(disk), e).data)
    ensures r.Ok? && Vol(disk).table[index].active != 0 ==> ValidUtf8(NameOf(Vol(disk).table[index]))
    ensures r.Err? && Sound(Vol(disk)) && GoodNames(Vol(disk).table) ==> r.error == DeviceError
    ensures r == Err(DeviceError) ==> !disk.device.reliable
  {
    hide View, RecordOf, Sound, Persistable, ValidUtf8, SectorCache.Disk.Valid;
    var e :- ReadFileEntry(disk, index);
    if e.active == 0 {
      return Ok(Skipped);
    }
    var name :- EntryName(e);
    if !Persistable(name) {
      return Ok(Skipped);
    }
    assert Vol(disk).table[index] in Vol(disk).table;
    var data :- ReadData(disk, e);
    return Ok(Found(LoadOp(name, data, e)));
  }

  /** One slot of the load. */
  method LoadOne(disk: Disk, fs: F.WarFS, index: nat, ghost snapshot: F.Files) returns (r: Result<nat, DiskError>)
    requires Mounted(disk) && fs.Valid() && index < MAX_FILES
    modifies disk.cache, fs
    ensures Mounted(disk) && fs.Valid()
    ensures GoodNames(Vol(disk).table) && AllStorable(old(fs.files)) ==> AllStorable(fs.files)
    ensures Sound(Vol(disk)) && r.Ok? ==> SlotLoaded(Vol(disk), old(fs.files), fs.files, index)
    ensures r.Ok? && Vol(disk).table[index].active != 0 ==> ValidUtf8(NameOf(Vol(disk).table[index]))
    ensures Holds(Vol(disk), snapshot) && Loading(Vol(disk), old(fs.files), snapshot, index) ==>
              && (r.Ok? ==> Loading(Vol(disk), fs.files, snapshot, index + 1)
                            && |fs.files| == |old(fs.files)| + r.value)
              && (r.Err? ==> r.error == DeviceError)
    ensures r == Err(DeviceError) ==> !disk.device.reliable
  {
    hide View, Holds, Loading, GoodNames, AllStorable, F.Legal, F.LoadStep, RecordOf, Sound, SlotLoaded, SectorCache.Disk.Valid;
    HoldsFacts(Vol(disk), snapshot);
    var slot :- ReadSlot(disk, index);
    if slot.Skipped? {
      if Holds(Vol(disk), snapshot) {
        SkippedIsFree(Vol(disk), snapshot, index);
        SkipSlot(Vol(disk), fs.files, snapshot, index);
      }
      if Sound(Vol(disk)) {
        SkippedGivesNothing(Vol(disk), fs.files, index);
      }
      return Ok(0);
    }
    var op := slot.op;
    if Sound(Vol(disk)) {
      LoadedGives(Vol(disk), fs.files, op, index);
    }
    if GoodNames(Vol(disk).table) {
      GoodNameAt(Vol(disk).table, index);
      LoadStorable(fs.files, op);
    }
    if Holds(Vol(disk), snapshot) && Loading(Vol(disk), fs.files, snapshot, index) {
      LoadSlot(Vol(disk), fs.files, snapshot, index, op);
    }
    var l := fs.LoadFileFromDisk(op.name, op.data, op.uid, op.permissions, op.readonly, op.createdAt, op.modifiedAt);
    if l.Err? {
      return Err(FilesystemError(l.error));
    }
    return Ok(1);
  }

  /** Loading slot `n` turned `files` into `files'`: it changed the file under the slot's canonical name. */
  ghost predicate SlotLoaded(v: Volume, files: F.Files, files': F.Files, n: nat)
    requires Sound(v) && n < MAX_FILES
  {
    forall name :: E.Lookup(files', name) ==
      if Gives(v.table[n], name) then Some(FileOf(name, RecordOf(v, v.table[n]))) else E.Lookup(files, name)
  }

  lemma SkippedGivesNothing(v: Volume, files: F.Files, n: nat)
    requires Sound(v) && n < MAX_FILES && (v.table[n].active == 0 || !Persistable(NameOf(v.table[n])))
    ensures SlotLoaded(v, files, files, n)
  {
    hide Persistable, GivenAtBoot, NameOf;
    NotStoredExactly(NameOf(v.table[n]));
  }

  lemma LoadedGives(v: Volume, files: F.Files, op: F.Op, n: nat)
    requires Sound(v) && F.Legal(files) && n < MAX_FILES && v.table[n].active != 0 && Persistable(NameOf(v.table[n]))
    requires op == LoadOp(NameOf(v.table[n]), RecordOf(v, v.table[n]).data, v.table[n])
    ensures F.LoadStep(files, op).1.Ok? ==> SlotLoaded(v, files, F.LoadStep(files, op).0, n)
  {
    hide CanonicalPath, F.Legal, E.Lookup, FileBytes, NameOf, Disjoint, F.Admit, Persistable, GivenAtBoot;
    NotStoredExactly(NameOf(v.table[n]));
    E.StepEffect(files, op);
  }

  /** What the slots so far have put under every name. */
  ghost predicate LoadedSoFar(v: Volume, before: F.Files, files: F.Files, n: nat)
    requires Sound(v) && n <= MAX_FILES
  {
    forall name :: E.Lookup(files, name) == LastLoaded(v, E.Lookup(before, name), n, name)
  }

  lemma LoadedFurther(v: Volume, before: F.Files, files: F.Files, files': F.Files, n: nat)
    requires Sound(v) && n < MAX_FILES && LoadedSoFar(v, before, files, n) && SlotLoaded(v, files, files', n)
    ensures LoadedSoFar(v, before, files', n + 1)
  {
    hide Gives, E.Lookup, RecordOf, Disjoint;
  }

  lemma HoldsFacts(v: Volume, snapshot: F.Files)
    ensures Holds(v, snapshot) ==> Sound(v) && GoodNames(v.table)
  {
  }

  lemma GoodNameAt(table: seq<DiskFileEntry>, i: nat)
    requires GoodNames(table) && i < |table| && table[i].active != 0
    ensures GoodName(NameOf(table[i]))
  {
  }

  lemma SkippedIsFree(v: Volume, snapshot: F.Files, n: nat)
    requires Holds(v, snapshot) && n < MAX_FILES
    requires v.table[n].active == 0 || !Persistable(NameOf(v.table[n]))
    ensures v.table[n].active == 0
  {
    if v.table[n].active != 0 {
      var f := EntryIsOf(v, snapshot, n);
      assert false;
    }
  }

  lemma SkipSlot(v: Volume, files: F.Files, snapshot: F.Files, n: nat)
    requires n < |v.table| && v.table[n].active == 0
    ensures Loading(v, files, snapshot, n) ==> Loading(v, files, snapshot, n + 1)
  {
    assert Names(v.table[..n]) <= Names(v.table[..n + 1]) by { NamesGrow(v.table, n); }
  }

  lemma NamesGrow(table: seq<DiskFileEntry>, n: nat)
    requires n < |table|
    ensures Names(table[..n]) <= Names(table[..n + 1])
    ensures table[n].active != 0 ==> NameOf(table[n]) in Names(table[..n + 1])
  {
    forall name | name in Names(table[..n])
      ensures name in Names(table[..n + 1])
    {
      NamesExact(table[..n], name);
      NamesExact(table[..n + 1], name);
      var i :| HasName(table[..n], i, name);
      assert HasName(table[..n + 1], i, name);
    }
    if table[n].active != 0 {
      NamesExact(table[..n + 1], NameOf(table[n]));
      assert HasName(table[..n + 1], n, NameOf(table[n]));
    }
  }

  lemma LoadStorable(files: F.Files, op: F.Op)
    requires F.Legal(files) && op.Load? && GoodName(op.name)
    ensures AllStorable(files) ==> AllStorable(F.LoadStep(files, op).0)
  {
    if F.Admit(files, op.name, op.data).Ok? {
      F.AdmitGood(files, op.name, op.data);
      CanonicalShorter(op.name);
      var canonical := F.Admit(files, op.name, op.data).value;
      var e := F.LoadedEntry(canonical, op);
      if F.Find(files, canonical) == |files| && |files| < F.MAX_FILES {
        F.UsedAbsent(files, canonical);
        F.PushedLegal(files, e);
      }
    }
  }

  /** The slot's file joins the table, and nothing else changes. */
  lemma LoadSlot(v: Volume, files: F.Files, snapshot: F.Files, n: nat, op: F.Op)
    requires Holds(v, snapshot) && F.Legal(files) && n < MAX_FILES && v.table[n].active != 0
    requires Loading(v, files, snapshot, n)
    requires op == LoadOp(NameOf(v.table[n]), RecordOf(v, v.table[n]).data, v.table[n])
    ensures F.LoadStep(files, op).1.Ok?
    ensures Loading(v, F.LoadStep(files, op).0, snapshot, n + 1)
    ensures |F.LoadStep(files, op).0| == |files| + 1
  {
    var f := EntryIsOf(v, snapshot, n);
    NewName(v, files, snapshot, n);
    LoadStepAdds(files, snapshot, f, op);
    RestoredHas(snapshot, f);
    LoadingNext(v, files, snapshot, n, ReadForm(f), F.LoadStep(files, op).0);
  }

  lemma LoadStepAdds(files: F.Files, snapshot: F.Files, f: F.FileEntry, op: F.Op)
    requires F.Legal(files) && F.Legal(snapshot) && f in snapshot
    requires forall e | e in files :: e in Restored(snapshot)
    requires F.Find(files, f.name) == |files|
    requires op.Load? && op.name == f.name && op.data == f.data && F.LoadedEntry(f.name, op) == ReadForm(f)
    ensures F.LoadStep(files, op).1.Ok?
    ensures forall x :: x in F.LoadStep(files, op).0 <==> x in files || x == ReadForm(f)
    ensures |F.LoadStep(files, op).0| == |files| + 1
  {
    forall i | 0 <= i < |files|
      ensures SameIn(files[i], snapshot)
    {
      assert files[i] in files;
      RestoredMember(snapshot, files[i]);
    }
    LoadFits(files, snapshot, f);
    F.PushedLegal(files, ReadForm(f));
    assert F.LoadStep(files, op) == (F.Pushed(files, ReadForm(f)), Ok(()));
  }

  lemma LoadingNext(v: Volume, files: F.Files, snapshot: F.Files, n: nat, e: F.FileEntry, files': F.Files)
    requires n < |v.table| && v.table[n].active != 0 && e.name == NameOf(v.table[n])
    requires Loading(v, files, snapshot, n) && e in Restored(snapshot)
    requires forall x :: x in files' <==> x in files || x == e
    ensures Loading(v, files', snapshot, n + 1)
  {
    NamesGrow(v.table, n);
    forall j | 0 <= j < n + 1 && v.table[j].active != 0
      ensures exists x | x in files' :: x.name == NameOf(v.table[j])
    {
      if j < n {
        var x :| x in files && x.name == NameOf(v.table[j]);
        assert x in files';
      } else {
        assert e in files';
      }
    }
  }

  lemma NewName(v: Volume, files: F.Files, snapshot: F.Files, n: nat)
    requires Named(v) && |v.table| == MAX_FILES && n < MAX_FILES && v.table[n].active != 0
    requires Loading(v, files, snapshot, n)
    ensures F.Find(files, NameOf(v.table[n])) == |files|
  {
    hide NameOf, Restored;
    forall i | 0 <= i < |files|
      ensures files[i].name != NameOf(v.table[n])
    {
      assert files[i] in files;
      NamesExact(v.table[..n], files[i].name);
      var k :| HasName(v.table[..n], k, files[i].name);
      assert v.table[..n][k] == v.table[k];
    }
  }

  lemma RestoredMember(snapshot: F.Files, e: F.FileEntry)
    requires e in Restored(snapshot)
    ensures SameIn(e, snapshot)
  {
    var s := S.StoredFiles(snapshot);
    var i :| 0 <= i < |s| && Restored(snapshot)[i] == e;
    assert s[i] in s;
    var j :| 0 <= j < |snapshot| && snapshot[j] == s[i];
    assert snapshot[j].name == e.name && snapshot[j].data == e.data;
  }

  lemma RestoredHas(snapshot: F.Files, f: F.FileEntry)
    requires f in snapshot && Persistable(f.name)
    ensures ReadForm(f) in Restored(snapshot)
  {
    assert f in S.StoredFiles(snapshot);
    var i :| 0 <= i < |S.StoredFiles(snapshot)| && S.StoredFiles(snapshot)[i] == f;
    assert Restored(snapshot)[i] == ReadForm(f);
  }

  /**
   `load_filesystem`. From any sound volume, the file under every name is what the last slot
   that gives the name holds, or the one that was there. Everything loaded into an empty
   filesystem is storable, and a volume that holds a snapshot gives back exactly its stored
   files, failing only on device errors.
   */
  method LoadFilesystem(disk: Disk, fs: F.WarFS, ghost snapshot: F.Files) returns (r: Result<nat, DiskError>)
    requires Mounted(disk) && fs.Valid()
    modifies disk.cache, fs
    ensures Mounted(disk) && fs.Valid()
    ensures Sound(Vol(disk)) && r.Ok? ==> LoadedSoFar(Vol(disk), old(fs.files), fs.files, MAX_FILES)
    ensures r.Ok? ==> TextNames(Vol(disk).table)
    ensures GoodNames(Vol(disk).table) && old(fs.files) == [] ==> AllStorable(fs.files)
    ensures Holds(Vol(disk), snapshot) && old(fs.files) == [] ==>
              && (r.Ok? ==> fs.files == Restored(snapshot) && r.value == |fs.files|)
              && (r.Err? ==> r.error == DeviceError)
    ensures r == Err(DeviceError) ==> !disk.device.reliable
  {
    hide Holds, Loading, GoodNames, AllStorable, View, F.Legal, Restored, Sound, SlotLoaded, LoadedSoFar, SectorCache.Disk.Valid;
    NothingSoFar(Vol(disk), fs.files);
    StartLoading(Vol(disk), snapshot);
    var loaded := 0;
    for index := 0 to MAX_FILES
      invariant Mounted(disk) && fs.Valid() && TextNames(Vol(disk).table[..index])
      invariant Sound(Vol(disk)) ==> LoadedSoFar(Vol(disk), old(fs.files), fs.files, index)
      invariant GoodNames(Vol(disk).table) && old(fs.files) == [] ==> AllStorable(fs.files)
      invariant Holds(Vol(disk), snapshot) && old(fs.files) == [] ==>
                  Loading(Vol(disk), fs.files, snapshot, index) && |fs.files| == loaded
    {
      ghost var was := fs.files;
      var n :- LoadOne(disk, fs, index, snapshot);
      if Sound(Vol(disk)) {
        LoadedFurther(Vol(disk), old(fs.files), was, fs.files, index);
      }
      loaded := loaded + n;
    }
    assert Vol(disk).table[..MAX_FILES] == Vol(disk).table;
    if Holds(Vol(disk), snapshot) && old(fs.files) == [] {
      AllLoaded(Vol(disk), fs.files, snapshot);
    }
    return Ok(loaded);
  }

  lemma NothingSoFar(v: Volume, files: F.Files)
    ensures Sound(v) ==> LoadedSoFar(v, files, files, 0)
  {
  }

  lemma StartLoading(v: Volume, snapshot: F.Files)
    ensures Loading(v, [], snapshot, 0) && AllStorable([])
  {
  }

  lemma AllLoaded(v: Volume, files: F.Files, snapshot: F.Files)
    requires Holds(v, snapshot) && F.Legal(files) && Loading(v, files, snapshot, MAX_FILES)
    ensures files == Restored(snapshot)
  {
    RestoredSorted(snapshot);
    forall e | e in Restored(snapshot)
      ensures e in files
    {
      NameLoaded(v, files, snapshot, e);
      var x :| x in files && x.name == e.name;
      SameNameSame(Restored(snapshot), x, e);
    }
    F.SortedDetermined(files, Restored(snapshot));
  }

  lemma NameLoaded(v: Volume, files: F.Files, snapshot: F.Files, e: F.FileEntry)
    requires Holds(v, snapshot) && Loading(v, files, snapshot, MAX_FILES) && e in Restored(snapshot)
    ensures exists x | x in files :: x.name == e.name
  {
    var s := S.StoredFiles(snapshot);
    var i :| 0 <= i < |s| && Restored(snapshot)[i] == e;
    assert s[i] in s;
    S.StoredMapAt(snapshot, s[i]);
    var j := ContentsName(v, e.name);
  }

  // ---------- round trip ----------

  /**
   Sync a legal snapshot to any sound volume with names this code can have written, and
   load it into an empty filesystem: the stored files come back, all of them and nothing
   else, exactly when each has a name of at most 95 bytes and carries its own uid in its
   permissions, and no wanted name had several slots of which the last held something else.
   */
  method SyncThenLoad(disk: Disk, files: F.Files) returns (s: Result<nat, DiskError>, l: Result<nat, DiskError>, loaded: F.Files)
    requires Mounted(disk) && Sound(Vol(disk)) && GoodNames(Vol(disk).table) && F.Legal(files)
    modifies disk.cache, disk.device
    ensures s.Ok? && l.Ok? ==>
              (loaded == S.StoredFiles(files) <==>
                 AllStorable(S.StoredFiles(files)) && NoStale(old(Vol(disk)), files))
    ensures s.Ok? && l.Ok? && UniqueNames(old(Vol(disk)).table) && PlainFiles(files) ==>
              AllButTwo(files, loaded)
    ensures s.Ok? && UniqueNames(old(Vol(disk)).table) && AllStorable(S.StoredFiles(files)) && l.Err? ==>
              l.error == DeviceError
    ensures s == Err(DeviceError) || l == Err(DeviceError) ==> !disk.device.reliable
  {
    hide View, Contents, Inside, Disjoint, Sized, UniqueNames, GoodNames, F.Legal, S.StoredMap, S.KeptMap, ShortNames, AllStorable, SectorCache.Disk.Valid;
    hide NoStale, Tidied, LoadedSoFar, PlainFiles, AllButTwo, S.Halfway, S.HalfwaySince, SafeSince, Holds, S.StoredFiles, Restored, S.DistinctKept;
    loaded := [];
    l := Ok(0);
    ghost var v := Vol(disk);
    s := S.SyncFilesystem(disk, files);
    if s.Ok? {
      var fs := new F.WarFS();
      HoldsAfter(v, Vol(disk), files);
      l := LoadFilesystem(disk, fs, files);
      loaded := fs.files;
      if AllStorable(S.StoredFiles(files)) {
        ShortWhenStorable(files);
      }
      if l.Ok? {
        BackOrNot(v, Vol(disk), files, loaded);
        if UniqueNames(v.table) && PlainFiles(files) {
          PlainComeBack(v, files);
        }
      }
    }
  }

  /** Every file but the two never stored has a short name and one owner. */
  predicate PlainFiles(files: F.Files) {
    forall f | f in files && f.name != Ascii("/readme.txt") && f.name != Ascii("/sysinfo.txt") ::
      |f.name| <= 95 && f.permissions.ownerUid == f.ownerUid
  }

  /** These are the files but for the two never stored. */
  ghost predicate AllButTwo(files: F.Files, loaded: F.Files) {
    forall e :: e in loaded <==> e in files && e.name != Ascii("/readme.txt") && e.name != Ascii("/sysinfo.txt")
  }

  /** The files but for the two never stored come back, with one owner each. */
  ghost predicate BackButTwo(files: F.Files, loaded: F.Files) {
    && (forall f | f in files && f.name != Ascii("/readme.txt") && f.name != Ascii("/sysinfo.txt") ::
          f.(permissions := f.permissions.(ownerUid := f.ownerUid)) in loaded)
    && forall e | e in loaded ::
         && e.name != Ascii("/readme.txt") && e.name != Ascii("/sysinfo.txt")
         && exists f | f in files :: e == f.(permissions := f.permissions.(ownerUid := f.ownerUid))
  }

  lemma PlainComeBack(v: Volume, files: F.Files)
    requires Sound(v) && UniqueNames(v.table) && PlainFiles(files)
    ensures AllStorable(S.StoredFiles(files)) && NoStale(v, files)
    ensures AllButTwo(files, S.StoredFiles(files))
  {
    hide NameOf, RecordOf, RecordFor, Disjoint;
    forall j: nat | j < MAX_FILES
      ensures !Again(v.table, j)
    {
      hide First;
    }
  }

  /** What comes back of a snapshot, by name: every file but the two never stored, and nothing else. */
  lemma RestoredPlainly(files: F.Files)
    ensures BackButTwo(files, Restored(files))
  {
    forall f | f in files && Persistable(f.name)
      ensures ReadForm(f) in Restored(files)
    {
      RestoredHas(files, f);
    }
    var s := S.StoredFiles(files);
    forall e | e in Restored(files)
      ensures Persistable(e.name) && exists f | f in files :: e == ReadForm(f)
    {
      var i :| 0 <= i < |s| && Restored(files)[i] == e;
      assert s[i] in s;
    }
  }

  lemma HoldsAfter(v: Volume, v': Volume, files: F.Files)
    requires Sound(v') && F.Legal(files)
    requires GoodNames(v.table) ==> GoodNames(v'.table)
    requires Named(v) ==> (UniqueNames(v'.table) <==> S.DistinctKept(files))
    requires S.NamesApart(v, files) ==> Contents(v') == S.KeptMap(files)
    ensures Named(v) && ShortNames(files) ==> Holds(v', files)
  {
    hide Contents, UniqueNames, GoodNames, S.KeptMap, S.StoredMap, S.DistinctKept, ShortNames;
    if ShortNames(files) {
      S.ShortKept(files);
    }
  }

  lemma BackOrNot(v: Volume, v': Volume, files: F.Files, loaded: F.Files)
    requires Sound(v) && Sound(v') && F.Legal(files) && F.Legal(loaded)
    requires ShortNames(files) ==> Tidied(v, v', files)
    requires LoadedSoFar(v', [], loaded, MAX_FILES) && AllStorable(loaded)
    ensures loaded == S.StoredFiles(files) <==> AllStorable(S.StoredFiles(files)) && NoStale(v, files)
  {
    hide Tidied, NoStale, S.StoredFiles, ShortNames, Sound, F.GoodFile;
    if AllStorable(S.StoredFiles(files)) {
      ShortWhenStorable(files);
    }
    if ShortNames(files) {
      assert forall name :: E.Lookup([], name) == None;
      BackExactly(v, v', files, loaded);
    }
  }

  lemma ShortWhenStorable(files: F.Files)
    requires AllStorable(S.StoredFiles(files))
    ensures ShortNames(files)
  {
    forall f | f in files && Persistable(f.name)
      ensures |f.name| <= 95
    {
      assert f in S.StoredFiles(files);
    }
  }

  /** Stored files come back as they were if and only if each has one owner. */
  lemma RestoredExactly(files: F.Files)
    requires ShortNames(files)
    ensures Restored(files) == S.StoredFiles(files) <==> AllStorable(S.StoredFiles(files))
  {
    var s := S.StoredFiles(files);
    if Restored(files) == s {
      forall f | f in s
        ensures Storable(f)
      {
        var i :| 0 <= i < |s| && s[i] == f;
        assert Restored(files)[i] == ReadForm(f);
      }
    } else if AllStorable(s) {
      ReadFormSame(files);
    }
  }

  lemma ReadFormSame(files: F.Files)
    requires AllStorable(S.StoredFiles(files))
    ensures Restored(files) == S.StoredFiles(files)
  {
    var s := S.StoredFiles(files);
    forall i | 0 <= i < |s|
      ensures Restored(files)[i] == s[i]
    {
      assert s[i] in s;
    }
  }
}
