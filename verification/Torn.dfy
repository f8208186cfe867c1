/**
 When a save is atomic for the file it saves (kernel/src/disk/persist.rs,
 upsert_file_entry). The data is written before the record that names it, so until then the
 old record reads whatever lies under it: the file can be torn exactly when the new data
 shares a block with the old.
 */
module Torn {
  import opened Bytes
  import opened Arith
  import opened DiskLayout
  import opened Volumes
  import opened Images
  import opened Format
  import opened InPlace
  import opened Persist
  import F = WarFs

  /** At every sector of the way the old record reads as the old file or as the new one. */
  ghost predicate NeverTorn(v: Volume, e: DiskFileEntry, f: F.FileEntry, start: nat)
    requires Sound(v) && e in v.table && e.active != 0
    requires start + BlockCountForLen(|f.data|) <= v.super.totalBlocks
  {
    forall n: nat | n <= SECTORS_PER_BLOCK * BlockCountForLen(|f.data|) ::
      var r := RecordOf(DataPut(v, start, f.data, n), e);
      r == RecordOf(v, e) || r == RecordFor(f)
  }

  /** `g` would be saved under the same name, in as many blocks, at the same place. */
  ghost predicate Alike(f: F.FileEntry, g: F.FileEntry) {
    F.GoodFile(g) && g.name == f.name && |g.data| == |f.data|
  }

  /**
   Saves of this name and length are never torn, whatever they hold, if and only if the run
   they are given holds no byte of the old file.
   */
  lemma TornExactly(v: Volume, e: DiskFileEntry, f: F.FileEntry, start: nat)
    requires Sound(v) && e in v.table && e.active != 0 && F.GoodFile(f)
    requires start + BlockCountForLen(|f.data|) <= v.super.totalBlocks
    ensures (forall g | Alike(f, g) :: NeverTorn(v, e, g, start)) <==> Apart(e, start, BlockCountForLen(|f.data|))
  {
    hide RecordOf, F.GoodFile, Apart;
    if Apart(e, start, BlockCountForLen(|f.data|)) {
      forall g | Alike(f, g)
        ensures NeverTorn(v, e, g, start)
      {
        ApartNeverTorn(v, e, g, start);
      }
    } else {
      var g := TornWitness(v, e, f, start);
      assert Alike(f, g);
    }
  }

  lemma ApartNeverTorn(v: Volume, e: DiskFileEntry, f: F.FileEntry, start: nat)
    requires Sound(v) && e in v.table && e.active != 0
    requires start + BlockCountForLen(|f.data|) <= v.super.totalBlocks
    requires Apart(e, start, BlockCountForLen(|f.data|))
    ensures NeverTorn(v, e, f, start)
  {
    hide RecordOf, Apart;
    forall n: nat | n <= SECTORS_PER_BLOCK * BlockCountForLen(|f.data|)
      ensures RecordOf(DataPut(v, start, f.data, n), e) == RecordOf(v, e)
    {
      CalmKeeps(v, f, e, start, n);
    }
  }

  /** A file, alike but newer, that differs from the old one in a block they share. */
  lemma TornWitness(v: Volume, e: DiskFileEntry, f: F.FileEntry, start: nat) returns (g: F.FileEntry)
    requires Sound(v) && e in v.table && e.active != 0 && F.GoodFile(f)
    requires start + BlockCountForLen(|f.data|) <= v.super.totalBlocks
    requires !Apart(e, start, BlockCountForLen(|f.data|))
    ensures Alike(f, g) && !NeverTorn(v, e, g, start)
  {
    hide FileBytes;
    var b := Shared(e, start, |f.data|);
    var was := Under(v, e, (b - e.startBlock) * BLOCK_SIZE);
    var data := f.data[(b - start) * BLOCK_SIZE := if was == 0 then 1 else 0];
    var now: u64 := if e.modifiedAt == 0 then 1 else 0;
    g := f.(data := data, modifiedAt := now);
    SharedShows(v, e, start, data, b);
    var n := SECTORS_PER_BLOCK * BlockCountForLen(|data|);
    var r := RecordOf(DataPut(v, start, g.data, n), e);
    assert r.data != RecordOf(v, e).data && r.modifiedAt != RecordFor(g).modifiedAt;
  }

  /**
   A file that outgrows its blocks may be given a run over them, since the allocator leaves
   its own slot out: here the file lies alone at the start of the volume.
   */
  lemma GrowsOverItself(v: Volume, name: str, p: Place, count: nat)
    requires Sound(v) && Located(v.table, name, p) && p.found
    requires p.existing.startBlock == 0 && 0 < p.existing.size && p.existing.blockCount < count
    requires forall i | 0 <= i < MAX_FILES && i != p.slot && HasBlocks(v.table[i]) ::
               count <= v.table[i].startBlock
    ensures Chosen(v.table, p, count, 0) && !Apart(p.existing, 0, count)
  {
    InUse(p.existing.size, 0);
  }
}
