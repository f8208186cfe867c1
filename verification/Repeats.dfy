/**
 Volumes in which several slots answer to one name, and what a sync
 (kernel/src/disk/persist.rs) makes of them: the first slot of a name is rewritten, the
 later ones stay as they were.
 */
module Repeats {
  import opened Bytes
  import opened Errors
  import opened DiskLayout
  import opened Volumes
  import opened Paths
  import opened Persist
  import F = WarFs

  /** Does the snapshot want this name kept on disk? */
  predicate ShouldKeep(files: F.Files, name: str) {
    exists f | f in files :: Persistable(f.name) && f.name == name
  }

  /** Every name that has to be stored fits the name field. */
  predicate ShortNames(files: F.Files) {
    forall f | f in files && Persistable(f.name) :: |f.name| <= 95
  }

  ghost predicate KeptBelow(table: seq<DiskFileEntry>, files: F.Files, n: nat) {
    forall i | 0 <= i < n && i < |table| && table[i].active != 0 :: ShouldKeep(files, NameOf(table[i]))
  }

  /** Index of the first slot with this name, or the length of the table. */
  function First(table: seq<DiskFileEntry>, name: str): (i: nat)
    ensures i <= |table|
    ensures i < |table| ==> table[i].active != 0 && NameOf(table[i]) == name
    ensures forall j | 0 <= j < i && table[j].active != 0 :: NameOf(table[j]) != name
  {
    if table == [] || (table[0].active != 0 && NameOf(table[0]) == name) then 0 else 1 + First(table[1..], name)
  }

  lemma FirstIs(table: seq<DiskFileEntry>, name: str, i: nat)
    requires i <= |table| && (i < |table| ==> table[i].active != 0 && NameOf(table[i]) == name)
    requires forall j | 0 <= j < i && table[j].active != 0 :: NameOf(table[j]) != name
    ensures First(table, name) == i
  {
    hide NameOf, First;
  }

  /** The slot holds a name an earlier slot has too. */
  predicate Again(table: seq<DiskFileEntry>, j: nat) {
    j < |table| && table[j].active != 0 && First(table, NameOf(table[j])) < j
  }

  /** Repeated slots are those of `v` with wanted names, and read as they did there. */
  ghost predicate RepeatsKept(v: Volume, v': Volume, files: F.Files)
    requires Sound(v) && Sound(v')
  {
    forall j: nat | j < MAX_FILES ::
      && (Again(v'.table, j) <==> Again(v.table, j) && ShouldKeep(files, NameOf(v.table[j])))
      && (Again(v'.table, j) ==> v'.table[j] == v.table[j] && RecordOf(v', v'.table[j]) == RecordOf(v, v.table[j]))
  }

  /** The first `k` files are each in the first slot of their name. */
  ghost predicate InFirst(v: Volume, files: F.Files, k: nat)
    requires Sound(v) && k <= |files|
  {
    forall i | 0 <= i < k && Persistable(files[i].name) ::
      var s := First(v.table, files[i].name);
      s < MAX_FILES && RecordOf(v, v.table[s]) == RecordFor(files[i])
  }

  /** What a sync leaves, whatever names the slots had: wanted names only, each file in its first slot. */
  ghost predicate Tidied(v: Volume, v': Volume, files: F.Files)
    requires Sound(v) && Sound(v')
  {
    KeptBelow(v'.table, files, MAX_FILES) && InFirst(v', files, |files|) && RepeatsKept(v, v', files)
  }

  // ---------- the first pass ----------

  /** The first `n` slots have lost the names the snapshot does not want; nothing else changed. */
  ghost predicate Weeded(v: Volume, v': Volume, files: F.Files, n: nat) {
    && |v'.table| == |v.table| && v'.data == v.data
    && forall i | 0 <= i < |v.table| ::
         if i < n && v.table[i].active != 0 && !ShouldKeep(files, NameOf(v.table[i]))
         then v'.table[i].active == 0 else v'.table[i] == v.table[i]
  }

  lemma WeededFirst(v: Volume, v': Volume, files: F.Files, name: str)
    requires Weeded(v, v', files, |v.table|) && ShouldKeep(files, name)
    ensures First(v'.table, name) == First(v.table, name)
  {
    hide First, NameOf, ShouldKeep;
    FirstIs(v'.table, name, First(v.table, name));
  }

  lemma WeededRepeats(v: Volume, v': Volume, files: F.Files)
    requires Sound(v) && Sound(v') && Weeded(v, v', files, MAX_FILES)
    ensures RepeatsKept(v, v', files)
  {
    hide First, NameOf, ShouldKeep, Disjoint;
    forall j: nat | j < MAX_FILES
      ensures Again(v'.table, j) <==> Again(v.table, j) && ShouldKeep(files, NameOf(v.table[j]))
      ensures Again(v'.table, j) ==> v'.table[j] == v.table[j]
    {
      if ShouldKeep(files, NameOf(v.table[j])) {
        WeededFirst(v, v', files, NameOf(v.table[j]));
      }
    }
    forall j: nat | j < MAX_FILES && Again(v'.table, j)
      ensures RecordOf(v', v'.table[j]) == RecordOf(v, v.table[j])
    {
      WeededRecord(v, v', v.table[j]);
    }
  }

  lemma WeededRecord(v: Volume, v': Volume, e: DiskFileEntry)
    requires Sound(v) && Sound(v') && v'.data == v.data && e in v.table && e.active != 0
    ensures RecordOf(v', e) == RecordOf(v, e)
  {
  }

  // ---------- the second pass ----------

  /** Storing a file under a short name changes the first slot of that name and no other. */
  lemma StoredFirst(v: Volume, v': Volume, p: Place, f: F.FileEntry, name: str)
    requires Sound(v) && Sound(v') && Located(v.table, f.name, p) && |f.name| <= 95
    requires OnlySlot(v, v', p.slot) && IsEntryFor(v', p.slot, f)
    ensures First(v'.table, name) == if name == f.name then p.slot else First(v.table, name)
    ensures First(v.table, f.name) == if p.found then p.slot else MAX_FILES
  {
    hide First, NameOf, RecordOf, Sound;
    assert |v.table| == |v'.table| == MAX_FILES by { TableSizes(v, v'); }
    FirstIs(v.table, f.name, if p.found then p.slot else MAX_FILES);
    FirstIs(v'.table, name, if name == f.name then p.slot else First(v.table, name));
  }

  lemma TableSizes(v: Volume, v': Volume)
    requires Sound(v) && Sound(v')
    ensures |v.table| == |v'.table| == MAX_FILES
  {
  }

  lemma StoredRepeats(v: Volume, v1: Volume, v2: Volume, files: F.Files, p: Place, f: F.FileEntry)
    requires Sound(v) && Sound(v1) && Sound(v2) && Located(v1.table, f.name, p) && |f.name| <= 95
    requires OnlySlot(v1, v2, p.slot) && IsEntryFor(v2, p.slot, f)
    requires RepeatsKept(v, v1, files)
    ensures RepeatsKept(v, v2, files)
  {
    hide First, NameOf, RecordOf, Sound, ShouldKeep;
    TableSizes(v1, v2);
    forall j: nat | j < MAX_FILES
      ensures Again(v2.table, j) <==> Again(v1.table, j)
      ensures Again(v1.table, j) ==> j != p.slot
    {
      StoredFirst(v1, v2, p, f, NameOf(v1.table[j]));
      StoredFirst(v1, v2, p, f, NameOf(v2.table[j]));
    }
  }

  lemma StoredInFirst(v: Volume, v': Volume, files: F.Files, k: nat, p: Place)
    requires Sound(v) && Sound(v') && F.Sorted(files) && k < |files|
    requires Located(v.table, files[k].name, p) && |files[k].name| <= 95
    requires OnlySlot(v, v', p.slot) && IsEntryFor(v', p.slot, files[k]) && InFirst(v, files, k)
    ensures InFirst(v', files, k + 1)
  {
    hide First, NameOf, RecordOf, Disjoint, RecordFor, StrLess, Located;
    TableSizes(v, v');
    LocatedInside(v.table, files[k].name);
    forall i | 0 <= i < k + 1 && Persistable(files[i].name)
      ensures var s := First(v'.table, files[i].name);
              s < MAX_FILES && RecordOf(v', v'.table[s]) == RecordFor(files[i])
    {
      StoredFirst(v, v', p, files[k], files[i].name);
      if i < k {
        F.SortedOrder(files, i, k);
        StrLessIrreflexive(files[k].name);
        var s := First(v.table, files[i].name);
        assert v'.table[s] == v.table[s];
      }
    }
  }

  lemma StoredKept(v: Volume, v': Volume, files: F.Files, p: Place, f: F.FileEntry)
    requires Sound(v) && Sound(v') && p.slot < MAX_FILES && |f.name| <= 95
    requires OnlySlot(v, v', p.slot) && IsEntryFor(v', p.slot, f)
    requires KeptBelow(v.table, files, MAX_FILES) && f in files && Persistable(f.name)
    ensures KeptBelow(v'.table, files, MAX_FILES)
  {
    hide NameOf, RecordOf;
  }

  /** One store of a sync. */
  lemma StoredSettles(v: Volume, v1: Volume, v2: Volume, files: F.Files, k: nat)
    requires Sound(v) && Sound(v1) && Sound(v2) && F.Sorted(files) && k < |files|
    requires Persistable(files[k].name) && |files[k].name| <= 95
    requires exists p :: Located(v1.table, files[k].name, p)
    requires forall p | Located(v1.table, files[k].name, p) ::
               p.slot < MAX_FILES && OnlySlot(v1, v2, p.slot) && IsEntryFor(v2, p.slot, files[k])
    requires KeptBelow(v1.table, files, MAX_FILES) && InFirst(v1, files, k) && RepeatsKept(v, v1, files)
    ensures KeptBelow(v2.table, files, MAX_FILES) && InFirst(v2, files, k + 1) && RepeatsKept(v, v2, files)
  {
    hide Located, OnlySlot, IsEntryFor, Sound, KeptBelow, InFirst, RepeatsKept;
    var p :| Located(v1.table, files[k].name, p);
    StoredKept(v1, v2, files, p, files[k]);
    StoredInFirst(v1, v2, files, k, p);
    StoredRepeats(v, v1, v2, files, p, files[k]);
  }
}
