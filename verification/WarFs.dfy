/**
 The RAM filesystem (kernel/src/fs/mod.rs): a bounded table of files sorted by canonical
 path, with owners and permission bits (kernel/src/auth/permissions.rs).

 Each operation is a function from a file table to a file table and a result; the class
 `WarFS` performs them on its own table. Clock readings are arguments.
 */
module WarFs {
  import opened Bytes
  import opened Errors
  import opened Paths

  const MAX_FILES := 128
  const MAX_FILE_SIZE := 0x10_0000
  const TOTAL_CAPACITY := 0x40_0000

  datatype UserRole = Admin | User | Guest

  datatype FilePermissions = FilePermissions(
    ownerUid: u16, ownerRead: bool, ownerWrite: bool, othersRead: bool, othersWrite: bool)
  {
    predicate CanWrite(uid: u16, role: UserRole) {
      role.Admin? || if uid == ownerUid then ownerWrite else othersWrite
    }

    /** `apply_mode_string`: four letters set the bits even when one of them is then refused. */
    function ApplyMode(mode: str): (FilePermissions, bool) {
      if |mode| != 4 then (this, false)
      else (this.(ownerRead := IsR(mode[0]), ownerWrite := IsW(mode[1]),
                  othersRead := IsR(mode[2]), othersWrite := IsW(mode[3])),
            (IsR(mode[0]) || mode[0] == 45) && (IsW(mode[1]) || mode[1] == 45)
            && (IsR(mode[2]) || mode[2] == 45) && (IsW(mode[3]) || mode[3] == 45))
    }
  }

  predicate IsR(b: byte) { b == 114 || b == 82 }
  predicate IsW(b: byte) { b == 119 || b == 87 }

  function SystemPermissions(): FilePermissions { FilePermissions(0, true, true, true, false) }

  datatype FileEntry = FileEntry(
    name: str, data: seq<byte>, createdAt: u64, modifiedAt: u64,
    readonly: bool, ownerUid: u16, permissions: FilePermissions)

  type Files = seq<FileEntry>
  type FsResult = Result<(), FsError>

  // ---------- the table ----------

  predicate Sorted(files: Files) {
    forall i | 0 <= i < |files| - 1 :: StrLess(files[i].name, files[i + 1].name)
  }

  function Used(files: Files): nat {
    if files == [] then 0 else |files[0].data| + Used(files[1..])
  }

  function UsedWithout(files: Files, name: str): nat {
    if files == [] then 0
    else (if files[0].name != name then |files[0].data| else 0) + UsedWithout(files[1..], name)
  }

  ghost predicate GoodFile(e: FileEntry) {
    Canonical(e.name) && e.name != ROOT && |e.data| <= MAX_FILE_SIZE
  }

  /** Sorted, hence unique, canonical names within the count, file-size and total limits. */
  ghost predicate Legal(files: Files) {
    && |files| <= MAX_FILES
    && Sorted(files)
    && (forall i | 0 <= i < |files| :: GoodFile(files[i]))
    && Used(files) <= TOTAL_CAPACITY
  }

  /** Index of the first file with this name, or the length of the table. */
  function Find(files: Files, name: str): (i: nat)
    ensures i <= |files|
    ensures i < |files| ==> files[i].name == name
    ensures forall j | 0 <= j < i :: files[j].name != name
  {
    if files == [] || files[0].name == name then 0 else 1 + Find(files[1..], name)
  }

  lemma {:induction false} SortedOrder(files: Files, i: nat, j: nat)
    requires Sorted(files) && i < j < |files|
    ensures StrLess(files[i].name, files[j].name)
  {
    if i + 1 < j {
      SortedOrder(files, i, j - 1);
      StrLessTransitive(files[i].name, files[j - 1].name, files[j].name);
    }
  }

  lemma SortedUnique(files: Files, i: nat, j: nat)
    requires Sorted(files) && i < |files| && j < |files| && files[i].name == files[j].name
    ensures i == j
  {
    StrLessIrreflexive(files[i].name);
    if i < j {
      SortedOrder(files, i, j);
    } else if j < i {
      SortedOrder(files, j, i);
    }
  }

  /** A sorted table is determined by which files are in it. */
  lemma {:induction false} SortedDetermined(a: Files, b: Files)
    requires Sorted(a) && Sorted(b)
    requires forall e :: e in a <==> e in b
    ensures a == b
  {
    var both := a + b;
    if both != [] {
      assert both[0] in both;
      assert a[0] in b && b[0] in a;
      HeadOf(a, b);
      HeadOf(b, a);
      StrLessTotal(a[0].name, b[0].name);
      forall e
        ensures e in a[1..] <==> e in b[1..]
      {
        TailMember(a, e);
        TailMember(b, e);
      }
      SortedDetermined(a[1..], b[1..]);
      assert a == [a[0]] + a[1..] && b == [b[0]] + b[1..];
    }
  }

  lemma HeadOf(a: Files, b: Files)
    requires Sorted(a) && a != [] && b != [] && b[0] in a
    ensures a[0] == b[0] || StrLess(a[0].name, b[0].name)
  {
    var i :| 0 <= i < |a| && a[i] == b[0];
    if i > 0 {
      SortedOrder(a, 0, i);
    }
  }

  lemma TailMember(a: Files, e: FileEntry)
    requires Sorted(a) && a != []
    ensures e in a[1..] <==> e in a && e != a[0]
  {
    if e in a[1..] {
      var i :| 1 <= i < |a| && a[i] == e;
      SortedOrder(a, 0, i);
      StrLessIrreflexive(e.name);
    }
  }

  // ---------- push, then sort by name ----------

  function InsertByName(sorted: Files, e: FileEntry): (s: Files)
    ensures |s| == |sorted| + 1 && Used(s) == Used(sorted) + |e.data|
    ensures s[0] == e || (sorted != [] && s[0] == sorted[0])
    ensures forall x :: x in s <==> x in sorted || x == e
  {
    if sorted == [] then [e]
    else if StrLess(e.name, sorted[0].name) then [e] + sorted
    else
      assert sorted == [sorted[0]] + sorted[1..];
      [sorted[0]] + InsertByName(sorted[1..], e)
  }

  /** `sort_by` on names: stable, one element at a time. */
  function SortByName(files: Files): Files {
    if files == [] then []
    else InsertByName(SortByName(files[..|files| - 1]), files[|files| - 1])
  }

  lemma {:induction false} InsertSorted(sorted: Files, e: FileEntry)
    requires Sorted(sorted)
    requires forall i | 0 <= i < |sorted| :: sorted[i].name != e.name
    ensures Sorted(InsertByName(sorted, e))
  {
    if sorted != [] && !StrLess(e.name, sorted[0].name) {
      InsertSorted(sorted[1..], e);
      StrLessTotal(e.name, sorted[0].name);
    }
  }

  lemma {:induction false} InsertLast(sorted: Files, e: FileEntry)
    requires Sorted(sorted + [e])
    ensures InsertByName(sorted, e) == sorted + [e]
  {
    if sorted != [] {
      var all := sorted + [e];
      SortedOrder(all, 0, |sorted|);
      StrLessTotal(e.name, sorted[0].name);
      assert all[1..] == sorted[1..] + [e];
      assert Sorted(all[1..]);
      InsertLast(sorted[1..], e);
    }
  }

  lemma {:induction false} SortOfSorted(files: Files)
    requires Sorted(files)
    ensures SortByName(files) == files
  {
    if files != [] {
      var front := files[..|files| - 1];
      SortOfSorted(front);
      assert files == front + [files[|files| - 1]];
      InsertLast(front, files[|files| - 1]);
    }
  }

  /** The table after a new file is pushed and the table sorted. */
  function Pushed(files: Files, e: FileEntry): Files { SortByName(files + [e]) }

  lemma PushedLegal(files: Files, e: FileEntry)
    requires Legal(files) && |files| < MAX_FILES && GoodFile(e)
    requires Find(files, e.name) == |files|
    requires Used(files) + |e.data| <= TOTAL_CAPACITY
    ensures Legal(Pushed(files, e))
    ensures forall x :: x in Pushed(files, e) <==> x in files || x == e
    ensures |Pushed(files, e)| == |files| + 1
  {
    assert (files + [e])[..|files|] == files;
    SortOfSorted(files);
    InsertSorted(files, e);
    var s := Pushed(files, e);
    assert s == InsertByName(files, e);
    forall i | 0 <= i < |s|
      ensures GoodFile(s[i])
    {
      assert s[i] in s;
    }
  }

  lemma {:induction false} UsedAbsent(files: Files, name: str)
    requires forall i | 0 <= i < |files| :: files[i].name != name
    ensures UsedWithout(files, name) == Used(files)
  {
    if files != [] {
      UsedAbsent(files[1..], name);
    }
  }

  lemma {:induction false} UsedReplaced(files: Files, i: nat, e: FileEntry)
    requires i < |files| && Sorted(files) && e.name == files[i].name
    ensures Used(files[i := e]) == UsedWithout(files, e.name) + |e.data|
  {
    if i == 0 {
      assert files[i := e][1..] == files[1..];
      forall j | 0 <= j < |files[1..]|
        ensures files[1..][j].name != e.name
      {
        if files[j + 1].name == files[0].name {
          SortedUnique(files, 0, j + 1);
        }
      }
      UsedAbsent(files[1..], e.name);
    } else {
      assert files[i := e][1..] == files[1..][i - 1 := e];
      if files[0].name == files[i].name {
        SortedUnique(files, 0, i);
      }
      UsedReplaced(files[1..], i - 1, e);
    }
  }

  lemma ReplacedLegal(files: Files, i: nat, e: FileEntry)
    requires Legal(files) && i < |files| && e.name == files[i].name && |e.data| <= MAX_FILE_SIZE
    requires UsedWithout(files, e.name) + |e.data| <= TOTAL_CAPACITY
    ensures Legal(files[i := e])
  {
    UsedReplaced(files, i, e);
  }

  lemma {:induction false} UsedRemoved(files: Files, i: nat)
    requires i < |files|
    ensures Used(files[..i] + files[i + 1..]) + |files[i].data| == Used(files)
  {
    if i == 0 {
      assert files[..0] + files[1..] == files[1..];
    } else {
      UsedRemoved(files[1..], i - 1);
      assert (files[..i] + files[i + 1..])[1..] == files[1..][..i - 1] + files[1..][i..];
    }
  }

  lemma RemovedLegal(files: Files, i: nat)
    requires Legal(files) && i < |files|
    ensures Legal(files[..i] + files[i + 1..])
  {
    UsedRemoved(files, i);
    var s := files[..i] + files[i + 1..];
    forall k | 0 <= k < |s| - 1
      ensures StrLess(s[k].name, s[k + 1].name)
    {
      var a, b := if k < i then k else k + 1, if k + 1 < i then k + 1 else k + 2;
      SortedOrder(files, a, b);
    }
  }

  // ---------- operations ----------

  datatype Op =
    | Write(name: str, data: seq<byte>, uid: u16, role: UserRole,
            permissions: FilePermissions, readonly: bool, now: u64)
    | Create(name: str, data: seq<byte>, uid: u16, permissions: FilePermissions, readonly: bool, now: u64)
    | Delete(name: str, uid: u16, role: UserRole)
    | Chmod(name: str, uid: u16, role: UserRole, mode: str)
    | Seed(name: str, data: seq<byte>, readonly: bool, now: u64)
    | Load(name: str, data: seq<byte>, uid: u16, permissions: FilePermissions, readonly: bool,
           createdAt: u64, modifiedAt: u64)

  /** The checks that writing, seeding and loading share: size, path, capacity. */
  function Admit(files: Files, name: str, data: seq<byte>): Result<str, FsError> {
    if |data| > MAX_FILE_SIZE then Err(FileTooLarge)
    else
      var canonical :- CanonicalPath(name);
      if canonical == ROOT then Err(InvalidFilename)
      else if UsedWithout(files, canonical) + |data| > TOTAL_CAPACITY then Err(FilesystemFull)
      else Ok(canonical)
  }

  /** Add a file under a name not in the table, if there is a slot for it. */
  function Add(files: Files, e: FileEntry): (Files, FsResult) {
    if |files| >= MAX_FILES then (files, Err(FilesystemFull)) else (Pushed(files, e), Ok(()))
  }

  /** `write_internal_owned`. */
  function WriteStep(files: Files, op: Op): (Files, FsResult)
    requires op.Write?
  {
    match Admit(files, op.name, op.data)
    case Err(e) => (files, Err(e))
    case Ok(canonical) =>
      var i := Find(files, canonical);
      if i < |files| then
        if files[i].readonly then (files, Err(ReadOnly))
        else if !files[i].permissions.CanWrite(op.uid, op.role) then (files, Err(PermissionDenied))
        else (files[i := files[i].(data := op.data, modifiedAt := op.now, readonly := op.readonly)], Ok(()))
      else Add(files, FileEntry(canonical, op.data, op.now, op.now, op.readonly, op.permissions.ownerUid, op.permissions))
  }

  predicate StartsWith(s: str, prefix: str) { |prefix| <= |s| && s[..|prefix|] == prefix }

  /** `directory_exists_canonical`. */
  predicate DirectoryExists(files: Files, path: str) {
    path == ROOT ||
    exists i | 0 <= i < |files| :: files[i].name == MarkerPath(path) || StartsWith(files[i].name, path + [SLASH])
  }

  /** `create_new_as`. */
  function CreateStep(files: Files, op: Op): (Files, FsResult)
    requires op.Create?
  {
    if |op.data| > MAX_FILE_SIZE then (files, Err(FileTooLarge))
    else
      match CanonicalPath(op.name)
      case Err(e) => (files, Err(e))
      case Ok(canonical) =>
        if canonical == ROOT then (files, Err(InvalidFilename))
        else if Find(files, canonical) < |files| then (files, Err(AlreadyExists))
        else if !DirectoryExists(files, ParentDirectory(canonical)) then (files, Err(NoSuchFile))
        else if |files| >= MAX_FILES then (files, Err(FilesystemFull))
        else if Used(files) + |op.data| > TOTAL_CAPACITY then (files, Err(FilesystemFull))
        else (Pushed(files, FileEntry(canonical, op.data, op.now, op.now, op.readonly, op.uid, op.permissions)), Ok(()))
  }

  /** `delete_as`. */
  function DeleteStep(files: Files, op: Op): (Files, FsResult)
    requires op.Delete?
  {
    match CanonicalPath(op.name)
    case Err(e) => (files, Err(e))
    case Ok(canonical) =>
      var i := Find(files, canonical);
      if i == |files| then (files, Err(NoSuchFile))
      else if files[i].readonly then (files, Err(ReadOnly))
      else if !op.role.Admin? && files[i].ownerUid != op.uid then (files, Err(PermissionDenied))
      else (files[..i] + files[i + 1..], Ok(()))
  }

  /** `chmod_as`: a mode string that is refused may already have changed the bits. */
  function ChmodStep(files: Files, op: Op): (Files, FsResult)
    requires op.Chmod?
  {
    match CanonicalPath(op.name)
    case Err(e) => (files, Err(e))
    case Ok(canonical) =>
      var i := Find(files, canonical);
      if i == |files| then (files, Err(NoSuchFile))
      else if files[i].readonly then (files, Err(ReadOnly))
      else if !op.role.Admin? && files[i].ownerUid != op.uid then (files, Err(PermissionDenied))
      else
        var (bits, ok) := files[i].permissions.ApplyMode(op.mode);
        (files[i := files[i].(permissions := bits)], if ok then Ok(()) else Err(InvalidFilename))
  }

  /** `seed_system`. */
  function SeedStep(files: Files, op: Op): (Files, FsResult)
    requires op.Seed?
  {
    match Admit(files, op.name, op.data)
    case Err(e) => (files, Err(e))
    case Ok(canonical) =>
      var i := Find(files, canonical);
      if i < |files| then
        (files[i := files[i].(data := op.data, modifiedAt := op.now, readonly := op.readonly,
                              ownerUid := 0, permissions := SystemPermissions())], Ok(()))
      else Add(files, FileEntry(canonical, op.data, op.now, op.now, op.readonly, 0, SystemPermissions()))
  }

  /** The entry `load_file_from_disk` stores. */
  function LoadedEntry(canonical: str, op: Op): FileEntry
    requires op.Load?
  {
    FileEntry(canonical, op.data, op.createdAt, op.modifiedAt, op.readonly, op.uid,
              op.permissions.(ownerUid := op.uid))
  }

  /** `load_file_from_disk`. */
  function LoadStep(files: Files, op: Op): (Files, FsResult)
    requires op.Load?
  {
    match Admit(files, op.name, op.data)
    case Err(e) => (files, Err(e))
    case Ok(canonical) =>
      var i := Find(files, canonical);
      if i < |files| then (files[i := LoadedEntry(canonical, op)], Ok(()))
      else Add(files, LoadedEntry(canonical, op))
  }

  function Step(files: Files, op: Op): (Files, FsResult) {
    match op
    case Write(_, _, _, _, _, _, _) => WriteStep(files, op)
    case Create(_, _, _, _, _, _) => CreateStep(files, op)
    case Delete(_, _, _) => DeleteStep(files, op)
    case Chmod(_, _, _, _) => ChmodStep(files, op)
    case Seed(_, _, _, _) => SeedStep(files, op)
    case Load(_, _, _, _, _, _, _) => LoadStep(files, op)
  }

  /** The table after a run of operations, whatever each of them returned. */
  function Run(files: Files, ops: seq<Op>): Files
    decreases |ops|
  {
    if ops == [] then files else Run(Step(files, ops[0]).0, ops[1..])
  }

  // ---------- invariant ----------

  lemma AdmitGood(files: Files, name: str, data: seq<byte>)
    requires Admit(files, name, data).Ok?
    ensures var canonical := Admit(files, name, data).value;
            && Canonical(canonical) && canonical != ROOT && |data| <= MAX_FILE_SIZE
            && CanonicalPath(name) == Ok(canonical)
            && UsedWithout(files, canonical) + |data| <= TOTAL_CAPACITY
  {
    CanonicalPathExact(name);
  }

  lemma AddLegal(files: Files, e: FileEntry)
    requires Legal(files) && GoodFile(e) && Find(files, e.name) == |files|
    requires UsedWithout(files, e.name) + |e.data| <= TOTAL_CAPACITY
    ensures Legal(Add(files, e).0)
  {
    UsedAbsent(files, e.name);
    if |files| < MAX_FILES {
      PushedLegal(files, e);
    }
  }

  lemma WriteLegal(files: Files, op: Op)
    requires Legal(files) && op.Write?
    ensures Legal(WriteStep(files, op).0)
  {
    hide CanonicalPath, SortByName, UsedWithout, Used, Canonical;
    if Admit(files, op.name, op.data).Ok? {
      AdmitGood(files, op.name, op.data);
      var canonical := Admit(files, op.name, op.data).value;
      var i := Find(files, canonical);
      if i < |files| {
        ReplacedLegal(files, i, files[i].(data := op.data, modifiedAt := op.now, readonly := op.readonly));
      } else {
        AddLegal(files, FileEntry(canonical, op.data, op.now, op.now, op.readonly, op.permissions.ownerUid, op.permissions));
      }
    }
  }

  lemma CreateLegal(files: Files, op: Op)
    requires Legal(files) && op.Create?
    ensures Legal(CreateStep(files, op).0)
  {
    hide CanonicalPath, SortByName, DirectoryExists, ParentDirectory, Used;
    CanonicalPathExact(op.name);
    if CreateStep(files, op).1.Ok? {
      PushedLegal(files, FileEntry(CanonicalPath(op.name).value, op.data, op.now, op.now, op.readonly, op.uid, op.permissions));
    }
  }

  lemma ChmodLegal(files: Files, op: Op)
    requires Legal(files) && op.Chmod?
    ensures Legal(ChmodStep(files, op).0)
  {
    hide CanonicalPath, SortByName, UsedWithout, Used, Canonical;
    if CanonicalPath(op.name).Ok? {
      var i := Find(files, CanonicalPath(op.name).value);
      if i < |files| {
        var e := files[i].(permissions := files[i].permissions.ApplyMode(op.mode).0);
        UsedReplaced(files, i, files[i]);
        assert files[i := files[i]] == files;
        ReplacedLegal(files, i, e);
      }
    }
  }

  lemma SeedLegal(files: Files, op: Op)
    requires Legal(files) && op.Seed?
    ensures Legal(SeedStep(files, op).0)
  {
    hide CanonicalPath, SortByName, UsedWithout, Used, Canonical;
    if Admit(files, op.name, op.data).Ok? {
      AdmitGood(files, op.name, op.data);
      var canonical := Admit(files, op.name, op.data).value;
      var i := Find(files, canonical);
      if i < |files| {
        ReplacedLegal(files, i, files[i].(data := op.data, modifiedAt := op.now, readonly := op.readonly,
                                          ownerUid := 0, permissions := SystemPermissions()));
      } else {
        AddLegal(files, FileEntry(canonical, op.data, op.now, op.now, op.readonly, 0, SystemPermissions()));
      }
    }
  }

  lemma LoadLegal(files: Files, op: Op)
    requires Legal(files) && op.Load?
    ensures Legal(LoadStep(files, op).0)
  {
    hide CanonicalPath, SortByName, UsedWithout, Used, Canonical;
    if Admit(files, op.name, op.data).Ok? {
      AdmitGood(files, op.name, op.data);
      var canonical := Admit(files, op.name, op.data).value;
      var i := Find(files, canonical);
      if i < |files| {
        ReplacedLegal(files, i, LoadedEntry(canonical, op));
      } else {
        AddLegal(files, LoadedEntry(canonical, op));
      }
    }
  }

  /** Every operation, successful or not, keeps the table legal. */
  lemma StepLegal(files: Files, op: Op)
    requires Legal(files)
    ensures Legal(Step(files, op).0)
  {
    hide CanonicalPath, Canonical, Used, UsedWithout, Sorted, GoodFile, WriteStep, CreateStep, ChmodStep, SeedStep, LoadStep;
    match op
    case Write(_, _, _, _, _, _, _) => WriteLegal(files, op);
    case Create(_, _, _, _, _, _) => CreateLegal(files, op);
    case Delete(_, _, _) =>
      if DeleteStep(files, op).1.Ok? {
        RemovedLegal(files, Find(files, CanonicalPath(op.name).value));
      }
    case Chmod(_, _, _, _) => ChmodLegal(files, op);
    case Seed(_, _, _, _) => SeedLegal(files, op);
    case Load(_, _, _, _, _, _, _) => LoadLegal(files, op);
  }

  /** Over any run, names stay canonical, sorted and unique, and the limits hold. */
  lemma {:induction false} RunLegal(files: Files, ops: seq<Op>)
    requires Legal(files)
    ensures Legal(Run(files, ops))
    decreases |ops|
  {
    if ops != [] {
      StepLegal(files, ops[0]);
      RunLegal(Step(files, ops[0]).0, ops[1..]);
    }
  }

  // ---------- isolation ----------

  /** Something a user without the admin role can do, under their own uid. */
  predicate ByUser(op: Op, uid: u16) {
    match op
    case Write(_, _, u, role, _, _, _) => u == uid && !role.Admin?
    case Create(_, _, u, _, _, _) => u == uid
    case Delete(_, u, role) => u == uid && !role.Admin?
    case Chmod(_, u, role, _) => u == uid && !role.Admin?
    case _ => false
  }

  /** A file this user can neither write nor, as its owner, delete or chmod. */
  predicate Untouchable(e: FileEntry, uid: u16) {
    e.readonly || (e.ownerUid != uid && !e.permissions.CanWrite(uid, User))
  }

  lemma ReplacedKeeps(files: Files, i: nat, x: FileEntry, e: FileEntry)
    requires i < |files| && e in files && files[i] != e
    ensures e in files[i := x]
  {
    var k :| 0 <= k < |files| && files[k] == e;
    assert files[i := x][k] == e;
  }

  lemma RemovedKeeps(files: Files, i: nat, e: FileEntry)
    requires i < |files| && e in files && files[i] != e
    ensures e in files[..i] + files[i + 1..]
  {
    var k :| 0 <= k < |files| && files[k] == e;
    assert k < i ==> files[..i][k] == e;
    assert k > i ==> files[i + 1..][k - i - 1] == e;
  }

  lemma PushedKeeps(files: Files, x: FileEntry, e: FileEntry)
    requires Sorted(files) && e in files
    ensures e in Pushed(files, x)
  {
    assert (files + [x])[..|files|] == files;
    SortOfSorted(files);
  }

  /** A file that is read-only, or closed to the actor, survives the operation unchanged. */
  lemma StepSpares(files: Files, op: Op, e: FileEntry)
    requires Legal(files) && e in files
    requires !op.Seed? && !op.Load?
    requires e.readonly || (ByUser(op, op.uid) && Untouchable(e, op.uid))
    ensures e in Step(files, op).0
  {
    hide CanonicalPath, SortByName, UsedWithout, DirectoryExists, ParentDirectory, Canonical;
    match op
    case Write(name, data, uid, role, permissions, readonly, now) =>
      if Step(files, op).1.Ok? {
        var canonical := Admit(files, name, data).value;
        var i := Find(files, canonical);
        if i < |files| {
          ReplacedKeeps(files, i, files[i].(data := data, modifiedAt := now, readonly := readonly), e);
        } else {
          PushedKeeps(files, FileEntry(canonical, data, now, now, readonly, permissions.ownerUid, permissions), e);
        }
      }
    case Create(name, data, uid, permissions, readonly, now) =>
      if Step(files, op).1.Ok? {
        PushedKeeps(files, FileEntry(CanonicalPath(name).value, data, now, now, readonly, uid, permissions), e);
      }
    case Delete(name, uid, role) =>
      if Step(files, op).1.Ok? {
        RemovedKeeps(files, Find(files, CanonicalPath(name).value), e);
      }
    case Chmod(name, uid, role, mode) =>
      if CanonicalPath(name).Ok? {
        var i := Find(files, CanonicalPath(name).value);
        if i < |files| && files[i] != e {
          ReplacedKeeps(files, i, files[i].(permissions := files[i].permissions.ApplyMode(mode).0), e);
        }
      }
  }

  /** Read-only files change only through seed or load, whoever acts and however often. */
  lemma {:induction false} ReadOnlyKept(files: Files, ops: seq<Op>, e: FileEntry)
    requires Legal(files) && e in files && e.readonly
    requires forall op | op in ops :: !op.Seed? && !op.Load?
    ensures e in Run(files, ops)
    decreases |ops|
  {
    if ops != [] {
      assert ops[0] in ops;
      StepLegal(files, ops[0]);
      StepSpares(files, ops[0], e);
      ReadOnlyKept(Step(files, ops[0]).0, ops[1..], e);
    }
  }

  /** Every operation of the run is by a user, each of whom the file is closed to. */
  predicate ClosedTo(e: FileEntry, ops: seq<Op>) {
    forall op | op in ops :: !op.Seed? && !op.Load? && ByUser(op, op.uid) && Untouchable(e, op.uid)
  }

  lemma {:induction false} ClosedFileKept(files: Files, ops: seq<Op>, e: FileEntry)
    requires Legal(files) && e in files && ClosedTo(e, ops)
    ensures e in Run(files, ops)
    decreases |ops|
  {
    if ops != [] {
      assert ops[0] in ops;
      StepLegal(files, ops[0]);
      StepSpares(files, ops[0], e);
      ClosedFileKept(Step(files, ops[0]).0, ops[1..], e);
    }
  }

  predicate AllBy(ops: seq<Op>, uid: u16) { forall op | op in ops :: ByUser(op, uid) }

  /**
   A user's operations can never change a file exactly when the file is read-only, or the
   user neither owns it nor has its write bit.
   */
  lemma IsolationExact(files: Files, e: FileEntry, uid: u16)
    requires Legal(files) && e in files
    ensures (forall ops :: AllBy(ops, uid) ==> e in Run(files, ops)) <==> Untouchable(e, uid)
  {
    if Untouchable(e, uid) {
      forall ops | AllBy(ops, uid)
        ensures e in Run(files, ops)
      {
        assert ClosedTo(e, ops);
        ClosedFileKept(files, ops, e);
      }
    } else {
      var op := Intrusion(files, e, uid);
      assert AllBy([op], uid);
      assert [op][1..] == [];
      assert Run(files, [op]) == Step(files, op).0;
    }
  }

  /** The owner can delete the file; anyone with the write bit can empty it. */
  lemma Intrusion(files: Files, e: FileEntry, uid: u16) returns (op: Op)
    requires Legal(files) && e in files && !Untouchable(e, uid)
    ensures ByUser(op, uid) && e !in Step(files, op).0
  {
    FoundAlone(files, e);
    assert GoodFile(e);
    CanonicalFixpoint(e.name);
    var i := Find(files, e.name);
    if e.ownerUid == uid {
      op := Delete(e.name, uid, User);
      GoneAfterRemoval(files, i, e);
    } else {
      var now := if e.modifiedAt == 0 then 1 else 0;
      op := Write(e.name, [], uid, User, e.permissions, false, now);
      UsedReplaced(files, i, e);
      assert files[i := e] == files;
      GoneAfterReplacement(files, i, e, e.(data := [], modifiedAt := now, readonly := false));
    }
  }

  lemma FoundAlone(files: Files, e: FileEntry)
    requires Sorted(files) && e in files
    ensures var i := Find(files, e.name);
            i < |files| && files[i] == e && forall j | 0 <= j < |files| && j != i :: files[j] != e
  {
    var i := Find(files, e.name);
    forall j | 0 <= j < |files| && files[j] == e
      ensures i == j
    {
      SortedUnique(files, i, j);
    }
  }

  lemma GoneAfterRemoval(files: Files, i: nat, e: FileEntry)
    requires i < |files| && forall j | 0 <= j < |files| && j != i :: files[j] != e
    ensures e !in files[..i] + files[i + 1..]
  {
  }

  lemma GoneAfterReplacement(files: Files, i: nat, e: FileEntry, x: FileEntry)
    requires i < |files| && x != e && forall j | 0 <= j < |files| && j != i :: files[j] != e
    ensures e !in files[i := x]
  {
  }

  // ---------- the filesystem object ----------

  class WarFS {
    var files: Files

    ghost predicate Valid()
      reads this
    {
      Legal(files)
    }

    constructor ()
      ensures Valid() && files == []
    {
      files := [];
    }

    method WriteInternal(name: str, data: seq<byte>, uid: u16, role: UserRole,
                         permissions: FilePermissions, readonly: bool, now: u64)
      returns (r: FsResult)
      requires Valid()
      modifies this
      ensures Valid()
      ensures (files, r) == Step(old(files), Write(name, data, uid, role, permissions, readonly, now))
    {
      hide CanonicalPath, Canonical, Legal, Used, UsedWithout, SortByName, DirectoryExists, ParentDirectory;
      StepLegal(files, Write(name, data, uid, role, permissions, readonly, now));
      if |data| > MAX_FILE_SIZE {
        return Err(FileTooLarge);
      }
      var canonical :- ComputeCanonicalPath(name);
      if canonical == ROOT {
        return Err(InvalidFilename);
      }
      if UsedWithout(files, canonical) + |data| > TOTAL_CAPACITY {
        return Err(FilesystemFull);
      }
      var i := Find(files, canonical);
      if i < |files| {
        if files[i].readonly {
          return Err(ReadOnly);
        }
        if !files[i].permissions.CanWrite(uid, role) {
          return Err(PermissionDenied);
        }
        files := files[i := files[i].(data := data, modifiedAt := now, readonly := readonly)];
      } else {
        if |files| >= MAX_FILES {
          return Err(FilesystemFull);
        }
        files := files + [FileEntry(canonical, data, now, now, readonly, permissions.ownerUid, permissions)];
        files := SortByName(files);
      }
      return Ok(());
    }

    method SeedSystem(name: str, data: seq<byte>, readonly: bool, now: u64) returns (r: FsResult)
      requires Valid()
      modifies this
      ensures Valid()
      ensures (files, r) == Step(old(files), Seed(name, data, readonly, now))
    {
      hide CanonicalPath, Canonical, Legal, Used, UsedWithout, SortByName, DirectoryExists, ParentDirectory;
      StepLegal(files, Seed(name, data, readonly, now));
      if |data| > MAX_FILE_SIZE {
        return Err(FileTooLarge);
      }
      var canonical :- ComputeCanonicalPath(name);
      if canonical == ROOT {
        return Err(InvalidFilename);
      }
      if UsedWithout(files, canonical) + |data| > TOTAL_CAPACITY {
        return Err(FilesystemFull);
      }
      var i := Find(files, canonical);
      if i < |files| {
        files := files[i := files[i].(data := data, modifiedAt := now, readonly := readonly,
                                      ownerUid := 0, permissions := SystemPermissions())];
      } else {
        if |files| >= MAX_FILES {
          return Err(FilesystemFull);
        }
        files := files + [FileEntry(canonical, data, now, now, readonly, 0, SystemPermissions())];
        files := SortByName(files);
      }
      return Ok(());
    }

    method CreateNewAs(name: str, data: seq<byte>, uid: u16, permissions: FilePermissions, readonly: bool, now: u64)
      returns (r: FsResult)
      requires Valid()
      modifies this
      ensures Valid()
      ensures (files, r) == Step(old(files), Create(name, data, uid, permissions, readonly, now))
    {
      hide CanonicalPath, Canonical, Legal, Used, UsedWithout, SortByName, DirectoryExists, ParentDirectory;
      StepLegal(files, Create(name, data, uid, permissions, readonly, now));
      if |data| > MAX_FILE_SIZE {
        return Err(FileTooLarge);
      }
      var canonical :- ComputeCanonicalPath(name);
      if canonical == ROOT {
        return Err(InvalidFilename);
      }
      if Find(files, canonical) < |files| {
        return Err(AlreadyExists);
      }
      if !DirectoryExists(files, ParentDirectory(canonical)) {
        return Err(NoSuchFile);
      }
      if |files| >= MAX_FILES || Used(files) + |data| > TOTAL_CAPACITY {
        return Err(FilesystemFull);
      }
      files := files + [FileEntry(canonical, data, now, now, readonly, uid, permissions)];
      files := SortByName(files);
      return Ok(());
    }

    method DeleteAs(name: str, uid: u16, role: UserRole) returns (r: FsResult)
      requires Valid()
      modifies this
      ensures Valid()
      ensures (files, r) == Step(old(files), Delete(name, uid, role))
    {
      hide CanonicalPath, Canonical, Legal, Used, UsedWithout, SortByName, DirectoryExists, ParentDirectory;
      StepLegal(files, Delete(name, uid, role));
      var canonical :- ComputeCanonicalPath(name);
      var i := Find(files, canonical);
      if i == |files| {
        return Err(NoSuchFile);
      }
      if files[i].readonly {
        return Err(ReadOnly);
      }
      if !role.Admin? && files[i].ownerUid != uid {
        return Err(PermissionDenied);
      }
      files := files[..i] + files[i + 1..];
      return Ok(());
    }

    method ChmodAs(name: str, uid: u16, role: UserRole, mode: str) returns (r: FsResult)
      requires Valid()
      modifies this
      ensures Valid()
      ensures (files, r) == Step(old(files), Chmod(name, uid, role, mode))
    {
      hide CanonicalPath, Canonical, Legal, Used, UsedWithout, SortByName, DirectoryExists, ParentDirectory;
      StepLegal(files, Chmod(name, uid, role, mode));
      var canonical :- ComputeCanonicalPath(name);
      var i := Find(files, canonical);
      if i == |files| {
        return Err(NoSuchFile);
      }
      if files[i].readonly {
        return Err(ReadOnly);
      }
      if !role.Admin? && files[i].ownerUid != uid {
        return Err(PermissionDenied);
      }
      var (bits, ok) := files[i].permissions.ApplyMode(mode);
      files := files[i := files[i].(permissions := bits)];
      return if ok then Ok(()) else Err(InvalidFilename);
    }

    method LoadFileFromDisk(name: str, data: seq<byte>, uid: u16, permissions: FilePermissions, readonly: bool,
                            createdAt: u64, modifiedAt: u64)
      returns (r: FsResult)
      requires Valid()
      modifies this
      ensures Valid()
      ensures (files, r) == Step(old(files), Load(name, data, uid, permissions, readonly, createdAt, modifiedAt))
    {
      hide CanonicalPath, Canonical, Legal, Used, UsedWithout, SortByName, DirectoryExists, ParentDirectory;
      StepLegal(files, Load(name, data, uid, permissions, readonly, createdAt, modifiedAt));
      if |data| > MAX_FILE_SIZE {
        return Err(FileTooLarge);
      }
      var canonical :- ComputeCanonicalPath(name);
      if canonical == ROOT {
        return Err(InvalidFilename);
      }
      if UsedWithout(files, canonical) + |data| > TOTAL_CAPACITY {
        return Err(FilesystemFull);
      }
      var e := FileEntry(canonical, data, createdAt, modifiedAt, readonly, uid, permissions.(ownerUid := uid));
      var i := Find(files, canonical);
      if i < |files| {
        files := files[i := e];
        return Ok(());
      }
      if |files| >= MAX_FILES {
        return Err(FilesystemFull);
      }
      files := files + [e];
      files := SortByName(files);
      return Ok(());
    }
  }
}
