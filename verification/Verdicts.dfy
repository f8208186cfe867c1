/**
 When the operations of the RAM filesystem succeed, and which error they give otherwise
 (kernel/src/fs/mod.rs, kernel/src/auth/permissions.rs), in terms of the file under the
 name, the bytes and the number of the others, and who acts.
 */
module Verdicts {
  import opened Bytes
  import opened Errors
  import opened Paths
  import opened PathBytes
  import opened WarFs
  import opened FsEffects

  /** The bytes of all files but the one of this name. */
  function BytesBeside(files: Files, name: str): nat {
    if files == [] then 0
    else
      var last := files[|files| - 1];
      BytesBeside(files[..|files| - 1], name) + if last.name == name then 0 else |last.data|
  }

  lemma {:induction false} BesideFront(files: Files, name: str)
    requires files != []
    ensures BytesBeside(files, name) == BytesBeside(files[1..], name) + if files[0].name == name then 0 else |files[0].data|
  {
    if |files| > 1 {
      BesideFront(files[..|files| - 1], name);
      assert files[..|files| - 1][1..] == files[1..][..|files| - 2];
    }
  }

  lemma {:induction false} BesideIsWithout(files: Files, name: str)
    ensures BytesBeside(files, name) == UsedWithout(files, name)
  {
    if files != [] {
      BesideFront(files, name);
      BesideIsWithout(files[1..], name);
    }
  }

  /** All the bytes, as seen from a name: the others and its own. */
  lemma {:induction false} BesideAndOwn(files: Files, name: str)
    requires Sorted(files)
    ensures Used(files) == BytesBeside(files, name) + match Lookup(files, name) case Some(e) => |e.data| case None => 0
  {
    BesideIsWithout(files, name);
    var i := Find(files, name);
    if i < |files| {
      UsedReplaced(files, i, files[i]);
      assert files[i := files[i]] == files;
    } else {
      UsedAbsent(files, name);
    }
  }

  // ---------- who may do what ----------

  /** Administrators may; owners by the owner bit, everyone else by the bit for others. */
  predicate MayWrite(e: FileEntry, uid: u16, role: UserRole) {
    || role == Admin
    || (uid == e.permissions.ownerUid && e.permissions.ownerWrite)
    || (uid != e.permissions.ownerUid && e.permissions.othersWrite)
  }

  predicate MayRemove(e: FileEntry, uid: u16, role: UserRole) { role == Admin || uid == e.ownerUid }

  /** The directory a path lies in is the root, or some file lies in it. */
  predicate ParentThere(files: Files, path: str) {
    forall d | 0 < d < |path| && path[d] == 47 && 47 !in path[d + 1..] ::
      exists i | 0 <= i < |files| :: path[..d + 1] <= files[i].name
  }

  // ---------- success ----------

  /** At most 1 MiB of data, a path other than the root, and at most 4 MiB in all. */
  predicate Fits(files: Files, op: Op)
    requires op.Write? || op.Create? || op.Seed? || op.Load?
  {
    && |op.data| <= 1048576 && CanonicalPath(op.name).Ok? && CanonicalPath(op.name).value != [47]
    && BytesBeside(files, CanonicalPath(op.name).value) + |op.data| <= 4194304
  }

  /** When an operation succeeds. */
  predicate Succeeds(files: Files, op: Op) {
    match op
    case Write(name, _, uid, role, _, _, _) =>
      && Fits(files, op)
      && (match Lookup(files, CanonicalPath(name).value)
          case Some(e) => !e.readonly && MayWrite(e, uid, role)
          case None => |files| < 128)
    case Create(name, _, _, _, _, _) =>
      && Fits(files, op) && Lookup(files, CanonicalPath(name).value).None?
      && ParentThere(files, CanonicalPath(name).value) && |files| < 128
    case Delete(name, uid, role) =>
      && CanonicalPath(name).Ok?
      && (match Lookup(files, CanonicalPath(name).value)
          case Some(e) => !e.readonly && MayRemove(e, uid, role)
          case None => false)
    case Chmod(name, uid, role, mode) =>
      && CanonicalPath(name).Ok? && |mode| == 4 && Letters(mode)
      && (match Lookup(files, CanonicalPath(name).value)
          case Some(e) => !e.readonly && MayRemove(e, uid, role)
          case None => false)
    case Seed(name, _, _, _) =>
      Fits(files, op) && (Lookup(files, CanonicalPath(name).value).Some? || |files| < 128)
    case Load(name, _, _, _, _, _, _) =>
      Fits(files, op) && (Lookup(files, CanonicalPath(name).value).Some? || |files| < 128)
  }

  // ---------- errors ----------

  /** The first thing wrong with an operation that does not succeed. */
  function Complaint(files: Files, op: Op): FsError {
    if !op.Delete? && !op.Chmod? && |op.data| > 1048576 then FileTooLarge
    else if CanonicalPath(op.name).Err? then CanonicalPath(op.name).error
    else
      var was := Lookup(files, CanonicalPath(op.name).value);
      match op
      case Delete(_, _, _) => RemovalComplaint(was, op.uid, op.role)
      case Chmod(_, _, _, _) => RemovalComplaint(was, op.uid, op.role)
      case Create(name, _, _, _, _, _) =>
        if CanonicalPath(name).value == [47] then InvalidFilename
        else if was.Some? then AlreadyExists
        else if !ParentThere(files, CanonicalPath(name).value) then NoSuchFile
        else FilesystemFull
      case _ =>
        if CanonicalPath(op.name).value == [47] then InvalidFilename
        else if BytesBeside(files, CanonicalPath(op.name).value) + |op.data| > 4194304 || was.None? then FilesystemFull
        else if was.value.readonly then ReadOnly
        else PermissionDenied
  }

  /** What is wrong with removing a file, or setting its mode. */
  function RemovalComplaint(was: Option<FileEntry>, uid: u16, role: UserRole): FsError {
    if was.None? then NoSuchFile
    else if was.value.readonly then ReadOnly
    else if !MayRemove(was.value, uid, role) then PermissionDenied
    else InvalidFilename
  }

  // ---------- the parent directory ----------

  lemma {:induction false} LastSlashIs(s: str)
    ensures var d := LastSlash(s); (d >= 0 ==> s[d] == SLASH) && forall k | d < k < |s| :: s[k] != SLASH
  {
    if s != [] && s[|s| - 1] != SLASH {
      LastSlashIs(s[..|s| - 1]);
    }
  }

  lemma ParentThereExactly(files: Files, p: str)
    requires Canonical(p) && p != ROOT
    ensures DirectoryExists(files, ParentDirectory(p)) <==> ParentThere(files, p)
  {
    hide CanonicalPath, Canonical, PathByte;
    CanonicalPathExact(p);
    CanonicalBytesExactly(p);
    assert TrimSlashes(p) == p;
    LastSlashIs(p);
    var d := LastSlash(p);
    assert forall k | 0 < k < |p| && p[k] == 47 && 47 !in p[k + 1..] :: k == d by {
      OnlyLast(p, d);
    }
    if d > 0 {
      assert p[d - 1] != 47;
      assert p[..d] != ROOT;
      assert p[..d] + [SLASH] == p[..d + 1];
      assert forall i | d < i < |p| :: p[d + 1..][i - d - 1] == p[i];
      assert 47 !in p[d + 1..];
      MarkedLiesBelow(files, p[..d]);
    }
  }

  lemma OnlyLast(p: str, d: int)
    requires 0 <= d < |p| && p[d] == 47 && forall k | d < k < |p| :: p[k] != 47
    ensures forall k | 0 < k < |p| && p[k] == 47 && 47 !in p[k + 1..] :: k == d
  {
    forall k | 0 < k < |p| && p[k] == 47 && 47 !in p[k + 1..]
      ensures k == d
    {
      LaterSlash(p, k, d);
    }
  }

  lemma LaterSlash(p: str, k: int, d: int)
    requires 0 <= k < |p| && 0 <= d < |p| && p[d] == 47
    ensures k < d ==> 47 in p[k + 1..]
  {
    if k < d {
      assert p[k + 1..][d - k - 1] == 47;
    }
  }

  /** The marker file of a directory lies in it like any other. */
  lemma MarkedLiesBelow(files: Files, path: str)
    requires path != ROOT
    ensures DirectoryExists(files, path) <==> exists i | 0 <= i < |files| :: path + [SLASH] <= files[i].name
  {
    assert Ascii("/.wardir")[0] == SLASH;
    assert MarkerPath(path)[..|path| + 1] == path + [SLASH];
  }

  // ---------- every operation ----------

  lemma AddOutcome(files: Files, op: Op)
    requires Legal(files) && (op.Write? || op.Seed? || op.Load?)
    ensures Step(files, op).1.Ok? <==> Succeeds(files, op)
    ensures Step(files, op).1.Err? ==> Step(files, op).1.error == Complaint(files, op)
  {
    hide CanonicalPath, Legal, Pushed, UsedWithout, BytesBeside;
    if CanonicalPath(op.name).Ok? {
      BesideIsWithout(files, CanonicalPath(op.name).value);
    }
  }

  lemma CreateOutcome(files: Files, op: Op)
    requires Legal(files) && op.Create?
    ensures Step(files, op).1.Ok? <==> Succeeds(files, op)
    ensures Step(files, op).1.Err? ==> Step(files, op).1.error == Complaint(files, op)
  {
    hide CanonicalPath, Canonical, Pushed, UsedWithout, BytesBeside, DirectoryExists, ParentDirectory, ParentThere;
    CanonicalPathExact(op.name);
    if CanonicalPath(op.name).Ok? && CanonicalPath(op.name).value != ROOT {
      var name := CanonicalPath(op.name).value;
      BesideAndOwn(files, name);
      ParentThereExactly(files, name);
    }
  }

  lemma RemoveOutcome(files: Files, op: Op)
    requires op.Delete? || op.Chmod?
    ensures Step(files, op).1.Ok? <==> Succeeds(files, op)
    ensures Step(files, op).1.Err? ==> Step(files, op).1.error == Complaint(files, op)
  {
    hide CanonicalPath;
  }

  /** An operation succeeds exactly when nothing is wrong with it, and otherwise reports the first thing that is. */
  lemma OutcomeExactly(files: Files, op: Op)
    requires Legal(files)
    ensures Step(files, op).1.Ok? <==> Succeeds(files, op)
    ensures Step(files, op).1.Err? ==> Step(files, op).1.error == Complaint(files, op)
  {
    hide Step, Succeeds, Complaint, Legal;
    match op
    case Write(_, _, _, _, _, _, _) => AddOutcome(files, op);
    case Create(_, _, _, _, _, _) => CreateOutcome(files, op);
    case Delete(_, _, _) => RemoveOutcome(files, op);
    case Chmod(_, _, _, _) => RemoveOutcome(files, op);
    case Seed(_, _, _, _) => AddOutcome(files, op);
    case Load(_, _, _, _, _, _, _) => AddOutcome(files, op);
  }
}
