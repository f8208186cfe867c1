/**
 The RAM filesystem and the disk behind it (kernel/src/fs/mod.rs,
 kernel/src/disk/mod.rs): every operation that succeeds in memory is written out, and an
 error of the disk is dropped. So the two agree on every file except those whose last
 change did not reach the disk, and when none is left in doubt a reboot gives the files back.
 */
module WriteThrough {
  import opened Bytes
  import opened Errors
  import opened Volumes
  import opened Images
  import opened SectorCache
  import opened Format
  import opened Paths
  import opened Persist
  import opened Repeats
  import opened LastSlot
  import opened Sync
  import opened FsEffects
  import opened DiskRuns
  import opened LoadBack
  import opened Boot
  import F = WarFs
  import V = Verdicts

  /** What the disk has to hold under `name`. */
  function OnDisk(files: F.Files, name: str): Option<Record> {
    if !Persistable(name) then None
    else
      match Lookup(files, name)
      case None => None
      case Some(e) => Some(RecordFor(e))
  }

  /** Memory and disk agree on every file not in doubt. */
  ghost predicate InStep(files: F.Files, v: Volume, doubt: set<str>)
    requires Volumes.Sound(v)
  {
    forall name | name !in doubt :: LookUp(Contents(v), name) == OnDisk(files, name)
  }

  /** `maybe_sync_file_entry` and `maybe_delete_path`: the disk call that ends an operation. */
  function WriteOut(files: F.Files, op: F.Op): Option<Call> {
    match CanonicalPath(op.name)
    case Err(_) => None
    case Ok(path) =>
      if !Persistable(path) then None
      else
        match Lookup(files, path)
        case Some(e) => Some(Save(e))
        case None => Some(Remove(path))
  }

  /** The name an operation may have to store fits the name field. */
  predicate ShortPath(op: F.Op) {
    CanonicalPath(op.name).Ok? ==> |CanonicalPath(op.name).value| <= 95
  }

  /**
   The files in doubt after one more operation: a change whose write-out failed, and the
   bits set by a chmod that is then refused.
   */
  function DoubtAfter(doubt: set<str>, files: F.Files, op: F.Op, stored: bool): set<str> {
    match CanonicalPath(op.name)
    case Err(_) => doubt
    case Ok(path) =>
      var (files', r) := F.Step(files, op);
      if !Persistable(path) || (r.Err? && files' == files) then doubt
      else if r.Ok? && stored then doubt - {path}
      else doubt + {path}
  }

  function DoubtAfterAll(doubt: set<str>, files: F.Files, ops: seq<F.Op>, stored: seq<bool>): set<str>
    requires |ops| == |stored|
    decreases |ops|
  {
    if ops == [] then doubt
    else
      DoubtAfterAll(DoubtAfter(doubt, files, ops[0], stored[0]), F.Step(files, ops[0]).0, ops[1..], stored[1..])
  }

  /** The operation changes this file, which the disk then has to hear of. */
  predicate Alters(files: F.Files, op: F.Op, name: str) {
    var (files', r) := F.Step(files, op);
    CanonicalPath(op.name) == Ok(name) && Persistable(name) && (r.Ok? || files' != files)
  }

  /**
   The last operation to change a file decides whether it is in doubt: it is, unless that
   operation succeeded and was stored. A file no operation changed is as it was.
   */
  lemma {:induction false} LastChangeDecides(
    doubt: set<str>, files: F.Files, ops: seq<F.Op>, stored: seq<bool>, name: str, i: int)
    requires |ops| == |stored| && -1 <= i < |ops|
    requires i >= 0 ==> Alters(F.Run(files, ops[..i]), ops[i], name)
    requires forall j | i < j < |ops| :: !Alters(F.Run(files, ops[..j]), ops[j], name)
    ensures name in DoubtAfterAll(doubt, files, ops, stored) <==>
            if i < 0 then name in doubt
            else !(F.Step(F.Run(files, ops[..i]), ops[i]).1.Ok? && stored[i])
    decreases |ops|
  {
    hide F.Step, CanonicalPath, Persistable;
    if ops != [] {
      var first, next := DoubtAfter(doubt, files, ops[0], stored[0]), F.Step(files, ops[0]).0;
      forall j | 0 < j < |ops|
        ensures F.Run(files, ops[..j]) == F.Run(next, ops[1..][..j - 1]) && ops[j] == ops[1..][j - 1]
      {
        assert ops[..j][1..] == ops[1..][..j - 1];
      }
      assert F.Run(files, ops[..0]) == files;
      if i == 0 {
        LastChangeDecides(first, next, ops[1..], stored[1..], name, -1);
      } else if i > 0 {
        LastChangeDecides(first, next, ops[1..], stored[1..], name, i - 1);
      } else {
        LastChangeDecides(first, next, ops[1..], stored[1..], name, -1);
      }
    }
  }

  // ---------- one operation ----------

  /** What one write-out does to the volume; without a call the volume stays. */
  ghost predicate WrittenOut(v: Volume, v': Volume, call: Option<Call>, stored: bool)
    requires Volumes.Sound(v) && Volumes.Sound(v')
  {
    match call
    case None => Contents(v') == Contents(v)
    case Some(c) => Untouched(v, v', c) && (stored ==> AsAsked(v', c))
  }

  lemma ChangeInStep(files: F.Files, files': F.Files, v: Volume, v': Volume, doubt: set<str>,
                     path: str, e: Option<F.FileEntry>, stored: bool)
    requires Volumes.Sound(v) && Volumes.Sound(v') && InStep(files, v, doubt)
    requires Changed(files, files', path, e) && Persistable(path) && (e.Some? ==> e.value.name == path)
    requires WrittenOut(v, v', Some(if e.Some? then Save(e.value) else Remove(path)), stored)
    ensures InStep(files', v', if stored then doubt - {path} else doubt + {path})
  {
    hide Contents, Lookup, Persistable, Named, RecordFor;
    var call := if e.Some? then Save(e.value) else Remove(path);
    forall name | name !in if stored then doubt - {path} else doubt + {path}
      ensures LookUp(Contents(v'), name) == OnDisk(files', name)
    {
      if name == path {
        assert Touches(call, path);
        assert Lookup(files', path) == e;
      } else {
        assert !Touches(call, name);
        assert Lookup(files', name) == Lookup(files, name);
      }
    }
  }

  /** Changes to a file that is never stored, or none at all, leave the disk right. */
  lemma QuietInStep(files: F.Files, files': F.Files, v: Volume, v': Volume, doubt: set<str>, path: str, e: Option<F.FileEntry>)
    requires Volumes.Sound(v) && Volumes.Sound(v') && InStep(files, v, doubt) && Contents(v') == Contents(v)
    requires Changed(files, files', path, e)
    ensures InStep(files', v', if Persistable(path) then doubt + {path} else doubt)
  {
    hide Contents, Lookup, Persistable, RecordFor;
    forall name | name !in if Persistable(path) then doubt + {path} else doubt
      ensures LookUp(Contents(v'), name) == OnDisk(files', name)
    {
      if name != path {
        assert Lookup(files', name) == Lookup(files, name);
      }
    }
  }

  lemma StepInStep(files: F.Files, op: F.Op, v: Volume, v': Volume, doubt: set<str>, stored: bool)
    requires F.Legal(files) && Volumes.Sound(v) && Volumes.Sound(v') && InStep(files, v, doubt)
    requires var (files', r) := F.Step(files, op);
             WrittenOut(v, v', if r.Ok? then WriteOut(files', op) else None, stored)
    ensures InStep(F.Step(files, op).0, v', DoubtAfter(doubt, files, op, stored))
  {
    hide Contents, Persistable, Changed, InStep, WrittenOut, CanonicalPath, F.Step, F.Legal, Lookup;
    StepEffect(files, op);
    var (files', r) := F.Step(files, op);
    if r.Err? && files' == files {
      SameContents(files, v, v', doubt, stored);
    } else {
      var path := CanonicalPath(op.name).value;
      var e := After(op, path, Lookup(files, path));
      NowThere(files, files', path, e);
      AfterNamed(files, op, path);
      if r.Ok? && Persistable(path) {
        ChangeInStep(files, files', v, v', doubt, path, e, stored);
      } else {
        Unwritten(v, v', stored);
        QuietInStep(files, files', v, v', doubt, path, e);
      }
    }
  }

  lemma NowThere(files: F.Files, files': F.Files, path: str, e: Option<F.FileEntry>)
    requires Changed(files, files', path, e)
    ensures Lookup(files', path) == e
  {
  }

  lemma AfterNamed(files: F.Files, op: F.Op, path: str)
    ensures var e := After(op, path, Lookup(files, path)); e.Some? ==> e.value.name == path
  {
  }

  lemma Unwritten(v: Volume, v': Volume, stored: bool)
    requires Volumes.Sound(v) && Volumes.Sound(v') && WrittenOut(v, v', None, stored)
    ensures Contents(v') == Contents(v)
  {
  }

  lemma SameContents(files: F.Files, v: Volume, v': Volume, doubt: set<str>, stored: bool)
    requires Volumes.Sound(v) && Volumes.Sound(v') && InStep(files, v, doubt) && WrittenOut(v, v', None, stored)
    ensures InStep(files, v', doubt)
  {
    hide Contents;
  }

  lemma StepShort(files: F.Files, op: F.Op)
    requires F.Legal(files) && ShortNames(files) && ShortPath(op)
    ensures F.Legal(F.Step(files, op).0) && ShortNames(F.Step(files, op).0)
  {
    hide F.Step, CanonicalPath, Lookup, Persistable, F.GoodFile;
    var files' := F.Step(files, op).0;
    F.StepLegal(files, op);
    StepEffect(files, op);
    forall f | f in files' && Persistable(f.name)
      ensures |f.name| <= 95
    {
      LookupExact(files', f.name, f);
      LookupExact(files, f.name, f);
    }
  }

  /** The operation itself, on the in-memory table. */
  method Apply(fs: F.WarFS, op: F.Op) returns (r: F.FsResult)
    requires fs.Valid()
    modifies fs
    ensures fs.Valid() && (fs.files, r) == F.Step(old(fs.files), op)
    ensures r.Ok? <==> V.Succeeds(old(fs.files), op)
    ensures r.Err? ==> r.error == V.Complaint(old(fs.files), op)
    ensures Effect(old(fs.files), op)
  {
    hide F.Step, V.Succeeds, V.Complaint, Effect, F.Legal;
    V.OutcomeExactly(fs.files, op);
    StepEffect(fs.files, op);
    match op
    case Write(name, data, uid, role, permissions, readonly, now) =>
      r := fs.WriteInternal(name, data, uid, role, permissions, readonly, now);
    case Create(name, data, uid, permissions, readonly, now) =>
      r := fs.CreateNewAs(name, data, uid, permissions, readonly, now);
    case Delete(name, uid, role) => r := fs.DeleteAs(name, uid, role);
    case Chmod(name, uid, role, mode) => r := fs.ChmodAs(name, uid, role, mode);
    case Seed(name, data, readonly, now) => r := fs.SeedSystem(name, data, readonly, now);
    case Load(name, data, uid, permissions, readonly, createdAt, modifiedAt) =>
      r := fs.LoadFileFromDisk(name, data, uid, permissions, readonly, createdAt, modifiedAt);
  }

  lemma CallPermitted(files: F.Files, op: F.Op)
    requires F.Legal(files) && WriteOut(files, op).Some?
    ensures Permitted(WriteOut(files, op).value)
    ensures ShortPath(op) ==> Fits(WriteOut(files, op).value)
  {
    hide CanonicalPath, Persistable;
    var path := CanonicalPath(op.name).value;
    if Lookup(files, path).Some? {
      LookupExact(files, path, Lookup(files, path).value);
    }
  }

  /** The write-out of what an operation left; `stored` says whether the disk took it. */
  method Emit(disk: Disk, files: F.Files, op: F.Op) returns (stored: bool)
    requires Mounted(disk) && Volumes.Sound(Vol(disk)) && F.Legal(files)
    modifies disk.cache, disk.device
    ensures Mounted(disk) && Volumes.Sound(Vol(disk))
    ensures old(disk.device.history) <= disk.device.history
    ensures SafeSince(disk.device.history, |old(disk.device.history)|)
    ensures Named(old(Vol(disk))) && ShortPath(op) ==>
              Named(Vol(disk)) && WrittenOut(old(Vol(disk)), Vol(disk), WriteOut(files, op), stored)
    ensures !stored && disk.device.reliable && GoodNames(old(Vol(disk)).table) ==>
              WriteOut(files, op).Some? && WriteOut(files, op).value.Save? && NoRoom(old(Vol(disk)), WriteOut(files, op).value.file)
  {
    hide View, Contents, SectorCache.Disk.Valid, WriteOut, F.Legal, ShortPath, AsAsked, Permitted, Fits, NoRoom, GoodNames;
    NoSyncs(files, op);
    match WriteOut(files, op) {
      case None => return true;
      case Some(call) =>
        CallPermitted(files, op);
        stored := Perform(disk, call);
    }
  }

  /**
   Memory and disk after an operation on `path` that the disk took: the disk holds the file
   as it is in memory, unless the path is one of the two that are never stored.
   */
  ghost predicate ReachedDisk(v: Volume, files: F.Files, v': Volume, path: str, stored: bool)
    requires Volumes.Sound(v) && Volumes.Sound(v')
  {
    if path == Ascii("/readme.txt") || path == Ascii("/sysinfo.txt") then Contents(v') == Contents(v)
    else stored ==>
      match Lookup(files, path)
      case Some(e) => path in Contents(v') && Contents(v')[path] == RecordFor(e)
      case None => path !in Contents(v')
  }

  lemma WrittenIsReached(v: Volume, files: F.Files, v': Volume, op: F.Op, stored: bool)
    requires Volumes.Sound(v) && Volumes.Sound(v') && CanonicalPath(op.name).Ok? && F.Legal(files)
    requires WrittenOut(v, v', WriteOut(files, op), stored)
    ensures ReachedDisk(v, files, v', CanonicalPath(op.name).value, stored)
  {
    hide Contents, CanonicalPath, F.Legal, Lookup, RecordFor, Named;
    var path := CanonicalPath(op.name).value;
    if Persistable(path) {
      var call := WriteOut(files, op).value;
      FoundNamed(files, path);
      assert Touches(call, path);
    }
  }

  lemma FoundNamed(files: F.Files, path: str)
    ensures Lookup(files, path).Some? ==> Lookup(files, path).value.name == path
  {
  }

  /**
   One operation and its write-out. Whatever the disk does, memory and disk still agree on
   every file not in doubt, and every image written is crash-safe. Of a refused operation
   the disk hears nothing, whatever it did in memory.
   */
  method Operate(fs: F.WarFS, disk: Disk, op: F.Op, ghost doubt: set<str>) returns (r: F.FsResult, stored: bool)
    requires fs.Valid() && Mounted(disk) && Volumes.Sound(Vol(disk)) && !op.Load?
    modifies fs, disk.cache, disk.device
    ensures fs.Valid() && Mounted(disk) && Volumes.Sound(Vol(disk))
    ensures (fs.files, r) == F.Step(old(fs.files), op)
    ensures r.Ok? <==> V.Succeeds(old(fs.files), op)
    ensures r.Err? ==> r.error == V.Complaint(old(fs.files), op)
    ensures old(disk.device.history) <= disk.device.history
    ensures SafeSince(disk.device.history, |old(disk.device.history)|)
    ensures r.Err? ==> disk.device.sectors == old(disk.device.sectors) && disk.device.history == old(disk.device.history)
    ensures Named(old(Vol(disk))) && ShortPath(op) && InStep(old(fs.files), old(Vol(disk)), doubt) ==>
              Named(Vol(disk)) && InStep(fs.files, Vol(disk), DoubtAfter(doubt, old(fs.files), op, stored))
    ensures Named(old(Vol(disk))) && ShortPath(op) && r.Ok? ==>
              CanonicalPath(op.name).Ok? && ReachedDisk(old(Vol(disk)), fs.files, Vol(disk), CanonicalPath(op.name).value, stored)
    ensures !stored && disk.device.reliable && GoodNames(old(Vol(disk)).table) ==>
              exists e | e in fs.files :: CanonicalPath(op.name) == Ok(e.name) && NoRoom(old(Vol(disk)), e)
  {
    hide View, Contents, SectorCache.Disk.Valid, F.Step, WriteOut, ShortPath, InStep, DoubtAfter, Named, ReachedDisk, CanonicalPath, NoRoom, GoodNames;
    hide V.Succeeds, V.Complaint, Effect;
    ghost var files, v := fs.files, Vol(disk);
    r := Apply(fs, op);
    stored := true;
    if r.Ok? {
      stored := Emit(disk, fs.files, op);
      WrittenFile(fs.files, op);
    }
    if Named(v) && ShortPath(op) && InStep(files, v, doubt) {
      StepInStep(files, op, v, Vol(disk), doubt, stored);
    }
    if Named(v) && ShortPath(op) && r.Ok? {
      SucceededPath(files, op);
      WrittenIsReached(v, fs.files, Vol(disk), op, stored);
    }
  }

  lemma NoSyncs(files: F.Files, op: F.Op)
    ensures WriteOut(files, op).Some? ==> !WriteOut(files, op).value.SyncAll?
  {
  }

  lemma WrittenFile(files: F.Files, op: F.Op)
    ensures WriteOut(files, op).Some? && WriteOut(files, op).value.Save? ==>
              var e := WriteOut(files, op).value.file; e in files && CanonicalPath(op.name) == Ok(e.name)
  {
    hide CanonicalPath, Persistable;
  }

  lemma SucceededPath(files: F.Files, op: F.Op)
    requires F.Legal(files) && F.Step(files, op).1.Ok?
    ensures CanonicalPath(op.name).Ok?
  {
    hide CanonicalPath, F.Legal, F.Step, Changed;
    StepEffect(files, op);
  }

  // ---------- runs and reboots ----------

  /** Any run of operations, the disk failing wherever it likes. */
  method OperateAll(fs: F.WarFS, disk: Disk, ops: seq<F.Op>, ghost doubt: set<str>) returns (stored: seq<bool>)
    requires fs.Valid() && Mounted(disk) && Volumes.Sound(Vol(disk))
    requires forall op | op in ops :: !op.Load?
    modifies fs, disk.cache, disk.device
    ensures fs.Valid() && Mounted(disk) && Volumes.Sound(Vol(disk)) && |stored| == |ops|
    ensures fs.files == F.Run(old(fs.files), ops)
    ensures old(disk.device.history) <= disk.device.history
    ensures SafeSince(disk.device.history, |old(disk.device.history)|)
    ensures Named(old(Vol(disk))) && (forall op | op in ops :: ShortPath(op))
            && InStep(old(fs.files), old(Vol(disk)), doubt) ==>
              && Named(Vol(disk))
              && InStep(fs.files, Vol(disk), DoubtAfterAll(doubt, old(fs.files), ops, stored))
    decreases |ops|
  {
    hide View, Contents, SectorCache.Disk.Valid, F.Step, ShortPath, InStep, DoubtAfter, Named, SafeSince;
    if ops == [] {
      SafeStart(disk.device.history);
      return [];
    }
    ghost var files, h := fs.files, disk.device.history;
    var _, first := Operate(fs, disk, ops[0], doubt);
    ghost var h1 := disk.device.history;
    var rest := OperateAll(fs, disk, ops[1..], DoubtAfter(doubt, files, ops[0], first));
    SafeJoin(h1, disk.device.history, |h|);
    stored := [first] + rest;
    assert stored[1..] == rest;
  }

  lemma SafeStart(history: seq<Image>)
    ensures SafeSince(history, |history|)
  {
  }

  lemma {:induction false} RunShort(files: F.Files, ops: seq<F.Op>)
    requires F.Legal(files) && ShortNames(files) && forall op | op in ops :: ShortPath(op)
    ensures F.Legal(F.Run(files, ops)) && ShortNames(F.Run(files, ops))
    decreases |ops|
  {
    hide F.Legal, ShortNames, ShortPath, F.Step;
    if ops != [] {
      StepShort(files, ops[0]);
      RunShort(F.Step(files, ops[0]).0, ops[1..]);
    }
  }

  lemma StoredLookUp(files: F.Files, name: str)
    requires F.Legal(files)
    ensures LookUp(StoredMap(files), name) == OnDisk(files, name)
  {
    hide StoredMap, Persistable, Lookup, F.GoodFile, RecordFor;
    StoredMapKeys(files, name);
    if name in StoredMap(files) {
      var f :| f in files && Persistable(f.name) && f.name == name;
      LookupExact(files, name, f);
      StoredMapAt(files, f);
    } else if Persistable(name) && Lookup(files, name).Some? {
      LookupExact(files, name, Lookup(files, name).value);
      assert false;
    }
  }

  /** With nothing in doubt the volume holds the stored files and no others, and conversely. */
  lemma InStepExactly(files: F.Files, v: Volume)
    requires Volumes.Sound(v) && F.Legal(files)
    ensures InStep(files, v, {}) <==> Contents(v) == StoredMap(files)
  {
    hide Contents, StoredMap, OnDisk, F.Legal;
    forall name
      ensures LookUp(StoredMap(files), name) == OnDisk(files, name)
    {
      StoredLookUp(files, name);
    }
    if InStep(files, v, {}) {
      forall name
        ensures LookUp(Contents(v), name) == LookUp(StoredMap(files), name)
      {
        assert name !in {};
      }
      SameLookUps(Contents(v), StoredMap(files));
    }
  }

  lemma SameLookUps(a: map<str, Record>, b: map<str, Record>)
    requires forall name :: LookUp(a, name) == LookUp(b, name)
    ensures a == b
  {
    forall name
      ensures name in a <==> name in b
      ensures name in a ==> a[name] == b[name]
    {
      assert LookUp(a, name) == LookUp(b, name);
    }
  }

  /**
   Run any operations, then boot again: when every change reached the disk, or was later
   written over by one that did, the stored files come back with one owner each, and so
   exactly as they were in memory if and only if each of them had one.
   */
  method RunThenReboot(fs: F.WarFS, disk: Disk, ops: seq<F.Op>, now: u64)
    returns (stored: seq<bool>, l: Result<nat, DiskError>, loaded: F.Files)
    requires fs.Valid() && Mounted(disk) && Volumes.Sound(Vol(disk)) && Named(Vol(disk))
    requires forall op | op in ops :: !op.Load? && ShortPath(op)
    requires ShortNames(fs.files) && InStep(fs.files, Vol(disk), {})
    modifies fs, disk.cache, disk.device
    ensures fs.files == F.Run(old(fs.files), ops) && |stored| == |ops|
    ensures DoubtAfterAll({}, old(fs.files), ops, stored) == {} ==>
              && (l.Ok? ==> loaded == Restored(fs.files)
                            && (loaded == StoredFiles(fs.files) <==> AllStorable(StoredFiles(fs.files))))
              && (l.Ok? ==> BackButTwo(fs.files, loaded))
              && (l.Err? ==> l.error == DeviceError)
  {
    hide View, Contents, SectorCache.BlockCache.Valid, ShortPath, InStep, Named, SafeSince, F.Legal, Restored, StoredMap;
    hide BackButTwo, ShortNames, DoubtAfterAll, F.Run, AllStorable, StoredFiles, AccountedSince;
    RunShort(fs.files, ops);
    stored := OperateAll(fs, disk, ops, {});
    ghost var settled := DoubtAfterAll({}, old(fs.files), ops, stored) == {};
    if settled {
      InStepExactly(fs.files, Vol(disk));
    }
    RestoredExactly(fs.files);
    RestoredPlainly(fs.files);
    var booted;
    l, booted := Init(disk, now, fs.files);
    loaded := booted.files;
  }
}
