/**
 What the operations of the RAM filesystem do to the file under each name
 (kernel/src/fs/mod.rs): the sorted table behaves as a map from canonical paths to files.
 */
module FsEffects {
  import opened Bytes
  import opened Errors
  import opened Paths
  import opened WarFs

  function Lookup(files: Files, name: str): Option<FileEntry> {
    var i := Find(files, name);
    if i < |files| then Some(files[i]) else None
  }

  lemma LookupExact(files: Files, name: str, e: FileEntry)
    requires Sorted(files)
    ensures Lookup(files, name) == Some(e) <==> e in files && e.name == name
  {
    var i := Find(files, name);
    if e in files && e.name == name {
      var k :| 0 <= k < |files| && files[k] == e;
      SortedUnique(files, i, k);
    }
  }

  /** Two tables that agree on the members with this name agree on the lookup. */
  lemma LookupSame(a: Files, b: Files, name: str)
    requires Sorted(a) && Sorted(b)
    requires forall e: FileEntry | e.name == name :: e in a <==> e in b
    ensures Lookup(a, name) == Lookup(b, name)
  {
    var la, lb := Lookup(a, name), Lookup(b, name);
    if la.Some? {
      LookupExact(a, name, la.value);
      LookupExact(b, name, la.value);
    } else if lb.Some? {
      LookupExact(b, name, lb.value);
      LookupExact(a, name, lb.value);
    }
  }

  /** A table in which only `name` changed, to `e` or to nothing. */
  ghost predicate Changed(files: Files, files': Files, name: str, e: Option<FileEntry>) {
    && (forall n | n != name :: Lookup(files', n) == Lookup(files, n))
    && Lookup(files', name) == e
  }

  lemma ChangedBy(files: Files, files': Files, name: str, e: Option<FileEntry>)
    requires Sorted(files) && Sorted(files')
    requires forall x: FileEntry | x.name != name :: x in files <==> x in files'
    requires forall x: FileEntry | x.name == name :: x in files' <==> e == Some(x)
    requires e.Some? ==> e.value.name == name
    ensures Changed(files, files', name, e)
  {
    forall n | n != name
      ensures Lookup(files', n) == Lookup(files, n)
    {
      LookupSame(files', files, n);
    }
    if e.Some? {
      LookupExact(files', name, e.value);
    } else if Lookup(files', name).Some? {
      LookupExact(files', name, Lookup(files', name).value);
    }
  }

  lemma ReplacedChanges(files: Files, i: nat, e: FileEntry)
    requires Legal(files) && i < |files| && e.name == files[i].name && Legal(files[i := e])
    ensures Changed(files, files[i := e], e.name, Some(e))
  {
    var files' := files[i := e];
    forall x: FileEntry
      ensures x.name != e.name ==> (x in files <==> x in files')
      ensures x.name == e.name ==> (x in files' <==> x == e)
    {
      if x in files && x.name != e.name {
        var k :| 0 <= k < |files| && files[k] == x;
        assert files'[k] == x;
      }
      if x in files' {
        var k :| 0 <= k < |files'| && files'[k] == x;
        if k != i {
          assert files[k] == x;
          if x.name == e.name {
            SortedUnique(files', i, k);
          }
        }
      }
      assert files'[i] == e;
    }
    ChangedBy(files, files', e.name, Some(e));
  }

  lemma PushedChanges(files: Files, e: FileEntry)
    requires Legal(files) && |files| < MAX_FILES && GoodFile(e) && Find(files, e.name) == |files|
    requires Used(files) + |e.data| <= TOTAL_CAPACITY
    ensures Changed(files, Pushed(files, e), e.name, Some(e))
  {
    PushedLegal(files, e);
    forall x | x in files
      ensures x.name != e.name
    {
    }
    ChangedBy(files, Pushed(files, e), e.name, Some(e));
  }

  lemma RemovedChanges(files: Files, i: nat)
    requires Legal(files) && i < |files|
    ensures Changed(files, files[..i] + files[i + 1..], files[i].name, None)
  {
    hide Legal, GoodFile, Used;
    RemovedLegal(files, i);
    RemovedSorted(files, i);
    var files' := files[..i] + files[i + 1..];
    forall x: FileEntry
      ensures x.name != files[i].name ==> (x in files <==> x in files')
      ensures x.name == files[i].name ==> x !in files'
    {
      if x in files && x.name != files[i].name {
        RemovedKeeps(files, i, x);
      }
      if x in files' {
        RemainingOther(files, i, x);
      }
    }
    ChangedBy(files, files', files[i].name, None);
  }

  lemma RemovedSorted(files: Files, i: nat)
    requires Legal(files) && i < |files| && Legal(files[..i] + files[i + 1..])
    ensures Sorted(files) && Sorted(files[..i] + files[i + 1..])
  {
  }

  lemma RemainingOther(files: Files, i: nat, x: FileEntry)
    requires Sorted(files) && i < |files| && x in files[..i] + files[i + 1..]
    ensures x in files && x.name != files[i].name
  {
    hide Sorted;
    if x in files[..i] {
      var k :| 0 <= k < i && files[k] == x;
      NamesDiffer(files, k, i);
    } else {
      var k :| 0 <= k < |files[i + 1..]| && files[i + 1..][k] == x;
      assert files[i + 1 + k] == x;
      NamesDiffer(files, i, i + 1 + k);
    }
  }

  lemma NamesDiffer(files: Files, i: nat, j: nat)
    requires Sorted(files) && i < j < |files|
    ensures files[i].name != files[j].name
  {
    SortedOrder(files, i, j);
    StrLessIrreflexive(files[i].name);
  }

  // ---------- effects ----------

  /** What a successful operation leaves under its name, given what was there. */
  function After(op: Op, name: str, was: Option<FileEntry>): Option<FileEntry> {
    match op
    case Write(_, data, _, _, permissions, readonly, now) =>
      if was.Some? then Some(was.value.(data := data, modifiedAt := now, readonly := readonly))
      else Some(FileEntry(name, data, now, now, readonly, permissions.ownerUid, permissions))
    case Create(_, data, uid, permissions, readonly, now) =>
      Some(FileEntry(name, data, now, now, readonly, uid, permissions))
    case Delete(_, _, _) => None
    case Chmod(_, _, _, mode) =>
      if was.Some? && |mode| == 4 then
        Some(was.value.(permissions := FilePermissions(was.value.permissions.ownerUid, mode[0] in {82, 114},
                                         mode[1] in {87, 119}, mode[2] in {82, 114}, mode[3] in {87, 119})))
      else was
    case Seed(_, data, readonly, now) =>
      Some(FileEntry(name, data, if was.Some? then was.value.createdAt else now, now, readonly, 0,
                     FilePermissions(0, true, true, true, false)))
    case Load(_, data, uid, permissions, readonly, createdAt, modifiedAt) =>
      Some(FileEntry(name, data, createdAt, modifiedAt, readonly, uid, permissions.(ownerUid := uid)))
  }

  /** Each of the four letters is one that stands in its place, or a dash. */
  predicate Letters(mode: str)
    requires |mode| == 4
  {
    && mode[0] in {45, 82, 114} && mode[1] in {45, 87, 119}
    && mode[2] in {45, 82, 114} && mode[3] in {45, 87, 119}
  }

  /** The permissions are those the four letters spell, anything but a letter in its place being a dash. */
  predicate Spells(mode: str, p: FilePermissions)
    requires |mode| == 4
  {
    && p.ownerRead == (mode[0] in {82, 114}) && p.ownerWrite == (mode[1] in {87, 119})
    && p.othersRead == (mode[2] in {82, 114}) && p.othersWrite == (mode[3] in {87, 119})
  }

  /** A chmod the caller may make, refused for a letter after its bits were set to something new. */
  predicate SlipsThrough(files: Files, op: Op) {
    && op.Chmod? && |op.mode| == 4 && !Letters(op.mode) && CanonicalPath(op.name).Ok?
    && var was := Lookup(files, CanonicalPath(op.name).value);
    && was.Some? && !was.value.readonly && (op.role.Admin? || was.value.ownerUid == op.uid)
    && !Spells(op.mode, was.value.permissions)
  }

  /** The one change an operation makes. */
  ghost predicate Effect(files: Files, op: Op) {
    var (files', r) := Step(files, op);
    if r.Ok? || SlipsThrough(files, op) then
      && CanonicalPath(op.name).Ok?
      && var name := CanonicalPath(op.name).value;
      && name != ROOT
      && Changed(files, files', name, After(op, name, Lookup(files, name)))
    else files' == files
  }

  lemma PutEffect(files: Files, op: Op, name: str, e: FileEntry)
    requires Legal(files) && Canonical(name) && name != ROOT && e.name == name && |e.data| <= MAX_FILE_SIZE
    requires UsedWithout(files, name) + |e.data| <= TOTAL_CAPACITY
    ensures Find(files, name) < |files| ==> Changed(files, files[Find(files, name) := e], name, Some(e))
    ensures Find(files, name) == |files| && |files| < MAX_FILES ==> Changed(files, Pushed(files, e), name, Some(e))
  {
    hide Changed, CanonicalPath, Canonical;
    var i := Find(files, name);
    if i < |files| {
      ReplacedLegal(files, i, e);
      ReplacedChanges(files, i, e);
    } else if |files| < MAX_FILES {
      UsedAbsent(files, name);
      PushedChanges(files, e);
    }
  }

  lemma WriteEffect(files: Files, op: Op)
    requires Legal(files) && op.Write?
    ensures Effect(files, op)
  {
    hide Changed, CanonicalPath, Canonical, SortByName, UsedWithout, Used;
    if Admit(files, op.name, op.data).Ok? {
      AdmitGood(files, op.name, op.data);
      var name := Admit(files, op.name, op.data).value;
      PutEffect(files, op, name, After(op, name, Lookup(files, name)).value);
    }
  }

  lemma SeedEffect(files: Files, op: Op)
    requires Legal(files) && op.Seed?
    ensures Effect(files, op)
  {
    hide Changed, CanonicalPath, Canonical, SortByName, UsedWithout, Used;
    if Admit(files, op.name, op.data).Ok? {
      AdmitGood(files, op.name, op.data);
      var name := Admit(files, op.name, op.data).value;
      PutEffect(files, op, name, After(op, name, Lookup(files, name)).value);
    }
  }

  lemma LoadEffect(files: Files, op: Op)
    requires Legal(files) && op.Load?
    ensures Effect(files, op)
  {
    hide Changed, CanonicalPath, Canonical, SortByName, UsedWithout, Used;
    if Admit(files, op.name, op.data).Ok? {
      AdmitGood(files, op.name, op.data);
      var name := Admit(files, op.name, op.data).value;
      PutEffect(files, op, name, After(op, name, Lookup(files, name)).value);
    }
  }

  lemma CreateEffect(files: Files, op: Op)
    requires Legal(files) && op.Create?
    ensures Effect(files, op)
  {
    hide Changed, CanonicalPath, Canonical, SortByName, Used, DirectoryExists, ParentDirectory;
    CanonicalPathExact(op.name);
    if CreateStep(files, op).1.Ok? {
      var name := CanonicalPath(op.name).value;
      PushedChanges(files, FileEntry(name, op.data, op.now, op.now, op.readonly, op.uid, op.permissions));
    }
  }

  lemma ChmodEffect(files: Files, op: Op)
    requires Legal(files) && op.Chmod?
    ensures Effect(files, op)
  {
    hide Changed, CanonicalPath, Canonical, UsedWithout, Used;
    ChmodLegal(files, op);
    if CanonicalPath(op.name).Ok? {
      var i := Find(files, CanonicalPath(op.name).value);
      if i < |files| {
        assert GoodFile(files[i]);
        var e := files[i].(permissions := files[i].permissions.ApplyMode(op.mode).0);
        if ChmodStep(files, op).0 == files[i := e] {
          ReplacedChanges(files, i, e);
          SpelledSame(files[i].permissions, op.mode);
        }
      }
    }
  }

  lemma SpelledSame(p: FilePermissions, mode: str)
    ensures |mode| == 4 ==> (p.ApplyMode(mode).0 == p <==> Spells(mode, p)) && (p.ApplyMode(mode).1 <==> Letters(mode))
    ensures |mode| != 4 ==> p.ApplyMode(mode) == (p, false)
  {
  }

  lemma DeleteEffect(files: Files, op: Op)
    requires Legal(files) && op.Delete?
    ensures Effect(files, op)
  {
    hide Changed, CanonicalPath, Canonical, Used;
    if DeleteStep(files, op).1.Ok? {
      var i := Find(files, CanonicalPath(op.name).value);
      assert GoodFile(files[i]);
      RemovedChanges(files, i);
    }
  }

  /**
   Every operation changes at most the file it names, to exactly this; on an error nothing
   changes at all, unless it is a chmod that slips through.
   */
  lemma StepEffect(files: Files, op: Op)
    requires Legal(files)
    ensures Effect(files, op)
  {
    match op
    case Write(_, _, _, _, _, _, _) => WriteEffect(files, op);
    case Create(_, _, _, _, _, _) => CreateEffect(files, op);
    case Delete(_, _, _) => DeleteEffect(files, op);
    case Chmod(_, _, _, _) => ChmodEffect(files, op);
    case Seed(_, _, _, _) => SeedEffect(files, op);
    case Load(_, _, _, _, _, _, _) => LoadEffect(files, op);
  }

  /** An operation fails and still changes something if and only if it is such a chmod. */
  lemma ErrorsExactly(files: Files, op: Op)
    requires Legal(files)
    ensures var (files', r) := Step(files, op);
            r.Err? && files' != files <==> SlipsThrough(files, op)
  {
    hide CanonicalPath, Legal, Changed;
    StepEffect(files, op);
    if SlipsThrough(files, op) {
      var i := Find(files, CanonicalPath(op.name).value);
      SpelledSame(files[i].permissions, op.mode);
      assert ChmodStep(files, op).0[i] != files[i];
    }
  }

  /** A file of one user, and a mode whose third letter is no letter at all. */
  function Diary(): FileEntry {
    FileEntry(Ascii("/d"), [], 0, 0, false, 7, FilePermissions(7, true, true, false, false))
  }

  function OpenDiary(): Op { Chmod(Ascii("/d"), 7, User, Ascii("rw?w")) }

  /** Refused, and yet everyone may now write the file. */
  lemma RefusedAndOpened()
    ensures Legal([Diary()])
    ensures var (files', r) := Step([Diary()], OpenDiary());
            && r == Err(InvalidFilename)
            && |files'| == 1 && files'[0].permissions.CanWrite(8, User) && !Diary().permissions.CanWrite(8, User)
  {
    hide CanonicalPath, Canonical, Ascii, Legal;
    DiaryPath();
    DiaryLegal();
    DiaryMode();
    assert Step([Diary()], OpenDiary()) == ChmodStep([Diary()], OpenDiary());
    assert Find([Diary()], Diary().name) == 0;
  }

  lemma DiaryMode()
    ensures Ascii("rw?w") == [114, 119, 63, 119]
  {
  }

  lemma DiaryLegal()
    ensures Legal([Diary()])
  {
    hide CanonicalPath, Canonical, Ascii;
    DiaryPath();
  }

  lemma DiaryPath()
    ensures Canonical(Ascii("/d")) && CanonicalPath(Ascii("/d")) == Ok(Ascii("/d")) && Ascii("/d") != ROOT
  {
    var d: str := [100];
    assert Ascii("/d") == [SLASH, 100];
    assert JoinAll([d][1..]) == [];
    assert PathOf([d]) == [SLASH] + d + [] == [SLASH, 100];
    assert IsPathOf(Ascii("/d"), [d]);
    CanonicalPathExact(Ascii("/d"));
  }
}
