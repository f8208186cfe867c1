/**
 What a WarFS volume means. A volume is read off a disk image as a superblock, a table of
 128 file records and the data sectors; `Contents` is the file map those records stand for.
 The lemmas say what each kind of sector write (superblock, table slot, file data) does to
 the volume's invariants and to that map. They are pure: the code that issues the writes
 is in `Persist`.
 */
module Volumes {
  import opened Bytes
  import opened Arith
  import opened DiskLayout

  type Image = seq<Sector>

  datatype Volume = Volume(super: Superblock, table: seq<DiskFileEntry>, data: seq<Sector>)

  /** What one stored file holds, apart from its name. */
  datatype Record = Record(
    data: seq<byte>, ownerUid: u16,
    ownerRead: bool, ownerWrite: bool, othersRead: bool, othersWrite: bool,
    readonly: bool, createdAt: u64, modifiedAt: u64)

  function View(image: Image): (v: Volume)
    requires |image| >= DATA_START
    ensures |v.table| == MAX_FILES && |v.data| == |image| - DATA_START
  {
    Volume(DecodeSuper(image[0]),
           seq(MAX_FILES, i requires 0 <= i < MAX_FILES => DecodeEntry(image[FILE_TABLE_START + i])),
           image[DATA_START..])
  }

  // ---------- sectors and bytes ----------

  function Flatten(sectors: seq<Sector>): (bytes: seq<byte>)
    ensures |bytes| == 512 * |sectors|
  {
    if sectors == [] then [] else sectors[0] + Flatten(sectors[1..])
  }

  function Cut(bytes: seq<byte>, n: nat): (sectors: seq<Sector>)
    requires |bytes| >= 512 * n
    ensures |sectors| == n
  {
    seq(n, i requires 0 <= i < n => bytes[512 * i..512 * (i + 1)])
  }

  lemma {:induction false} FlattenCut(bytes: seq<byte>, n: nat)
    requires |bytes| >= 512 * n
    ensures Flatten(Cut(bytes, n)) == bytes[..512 * n]
  {
    if n > 0 {
      var rest := bytes[512..];
      FlattenCut(rest, n - 1);
      assert Cut(bytes, n)[1..] == Cut(rest, n - 1) by {
        forall i | 0 <= i < n - 1
          ensures Cut(bytes, n)[1..][i] == Cut(rest, n - 1)[i]
        {
          assert bytes[512 * (i + 1)..512 * (i + 2)] == rest[512 * i..512 * (i + 1)];
        }
      }
      assert bytes[..512 * n] == bytes[..512] + rest[..512 * (n - 1)];
    }
  }

  /** The image after the first `n` sectors of a run that starts at `at` were replaced. */
  function Patch(image: Image, at: nat, sectors: seq<Sector>, n: nat): (image': Image)
    requires n <= |sectors| && at + n <= |image|
    ensures |image'| == |image|
  {
    image[..at] + sectors[..n] + image[at + n..]
  }

  // ---------- volume invariants ----------

  predicate HasBlocks(e: DiskFileEntry) { e.active != 0 && e.blockCount != 0 }

  predicate Overlap(a: DiskFileEntry, b: DiskFileEntry) {
    a.startBlock < b.startBlock + b.blockCount && b.startBlock < a.startBlock + a.blockCount
  }

  predicate Inside(table: seq<DiskFileEntry>, total: u32) {
    forall i | 0 <= i < |table| && HasBlocks(table[i]) ::
      table[i].startBlock + table[i].blockCount <= total
  }

  predicate Disjoint(table: seq<DiskFileEntry>) {
    forall i, j | 0 <= i < j < |table| && HasBlocks(table[i]) && HasBlocks(table[j]) ::
      !Overlap(table[i], table[j])
  }

  /** Every stored size fits the blocks reserved for it, and is a size WarFS can hold. */
  predicate Sized(table: seq<DiskFileEntry>) {
    forall i | 0 <= i < |table| && table[i].active != 0 ::
      table[i].size <= table[i].blockCount * BLOCK_SIZE && table[i].blockCount < 0x2000_0000
  }

  /**
   A volume whose superblock is valid, whose device is large enough, and whose active
   extents lie inside `total_blocks` without overlapping.
   */
  predicate Sound(v: Volume) {
    && |v.table| == MAX_FILES
    && v.super.IsValid()
    && v.super.totalBlocks < U32_MAX
    && v.super.totalBlocks * SECTORS_PER_BLOCK <= |v.data|
    && Inside(v.table, v.super.totalBlocks)
    && Disjoint(v.table)
    && Sized(v.table)
  }

  /** A superblock marked clean carries the true counts. */
  predicate CleanCounts(v: Volume) {
    v.super.state == CLEAN ==>
      v.super.usedBlocks == SumBlocks(v.table) && v.super.fileCount == CountActive(v.table)
  }

  /** What must hold at every moment at which the machine may stop. */
  predicate CrashSafe(v: Volume) { Sound(v) && CleanCounts(v) }

  predicate UniqueNames(table: seq<DiskFileEntry>) {
    forall i, j | 0 <= i < j < |table| && table[i].active != 0 && table[j].active != 0 ::
      NameOf(table[i]) != NameOf(table[j])
  }

  /** Active names as this code writes them: rooted, NUL-terminated, and text. */
  predicate GoodName(n: str) { 0 < |n| <= 95 && n[0] == 47 && ValidUtf8(n) }

  /** Every active name is text. */
  predicate TextNames(table: seq<DiskFileEntry>) {
    forall i | 0 <= i < |table| && table[i].active != 0 :: ValidUtf8(NameOf(table[i]))
  }

  predicate GoodNames(table: seq<DiskFileEntry>) {
    forall i | 0 <= i < |table| && table[i].active != 0 :: GoodName(NameOf(table[i]))
  }

  lemma GoodIsText(table: seq<DiskFileEntry>)
    ensures GoodNames(table) ==> TextNames(table)
  {
  }

  // ---------- counters ----------

  function SumBlocks(table: seq<DiskFileEntry>): nat {
    if table == [] then 0
    else
      var last := table[|table| - 1];
      SumBlocks(table[..|table| - 1]) + if last.active != 0 then last.blockCount else 0
  }

  function CountActive(table: seq<DiskFileEntry>): (n: nat)
    ensures n <= |table|
  {
    if table == [] then 0
    else CountActive(table[..|table| - 1]) + if table[|table| - 1].active != 0 then 1 else 0
  }

  function Extent(e: DiskFileEntry): (s: set<int>)
    ensures forall b :: b in s <==> HasBlocks(e) && e.startBlock <= b < e.startBlock + e.blockCount
    ensures |s| == if e.active != 0 then e.blockCount else 0
  {
    if !HasBlocks(e) then {} else Interval(e.startBlock, e.startBlock + e.blockCount)
  }

  function Interval(lo: int, hi: int): (s: set<int>)
    requires lo <= hi
    ensures forall b :: b in s <==> lo <= b < hi
    ensures |s| == hi - lo
    decreases hi - lo
  {
    if lo == hi then {} else {lo} + Interval(lo + 1, hi)
  }

  ghost function Occupied(table: seq<DiskFileEntry>): set<int> {
    if table == [] then {} else Occupied(table[..|table| - 1]) + Extent(table[|table| - 1])
  }

  lemma {:induction false} OccupiedMember(table: seq<DiskFileEntry>, b: int)
    requires b in Occupied(table)
    ensures exists i :: 0 <= i < |table| && b in Extent(table[i])
  {
    var front := table[..|table| - 1];
    if b in Extent(table[|table| - 1]) {
    } else {
      OccupiedMember(front, b);
      var i :| 0 <= i < |front| && b in Extent(front[i]);
      assert table[i] == front[i];
    }
  }

  /** Disjoint extents: the blocks in use are as many as the block counts add up to. */
  lemma {:induction false} OccupiedSize(table: seq<DiskFileEntry>, total: u32)
    requires Disjoint(table) && Inside(table, total)
    ensures |Occupied(table)| == SumBlocks(table)
    ensures Occupied(table) <= Interval(0, total)
  {
    if table != [] {
      var n := |table| - 1;
      var front := table[..n];
      OccupiedSize(front, total);
      if b :| b in Occupied(front) && b in Extent(table[n]) {
        OccupiedMember(front, b);
        assert false;
      }
      assert Occupied(front) !! Extent(table[n]);
    }
  }

  /** Summed block counts never exceed `total_blocks`, so a 32-bit saturating sum is exact. */
  lemma SumBlocksBounded(table: seq<DiskFileEntry>, total: u32)
    requires Disjoint(table) && Inside(table, total)
    ensures SumBlocks(table) <= total
  {
    OccupiedSize(table, total);
    SubsetSize(Occupied(table), Interval(0, total));
  }

  // ---------- contents ----------

  function FileBytes(v: Volume, e: DiskFileEntry): seq<byte>
    requires e.startBlock + e.blockCount <= |v.data| / SECTORS_PER_BLOCK
    requires e.size <= e.blockCount * BLOCK_SIZE
  {
    Flatten(v.data[SECTORS_PER_BLOCK * e.startBlock..SECTORS_PER_BLOCK * (e.startBlock + e.blockCount)])[..e.size]
  }

  function RecordOf(v: Volume, e: DiskFileEntry): Record
    requires e.size <= e.blockCount * BLOCK_SIZE
    requires e.blockCount != 0 ==> e.startBlock + e.blockCount <= |v.data| / SECTORS_PER_BLOCK
  {
    Record(if e.blockCount == 0 then [] else FileBytes(v, e), e.ownerUid,
           e.permOwnerRead != 0, e.permOwnerWrite != 0, e.permOthersRead != 0, e.permOthersWrite != 0,
           e.readonly != 0, e.createdAt, e.modifiedAt)
  }

  ghost predicate HasName(table: seq<DiskFileEntry>, i: int, name: str) {
    0 <= i < |table| && table[i].active != 0 && NameOf(table[i]) == name
  }

  ghost function IndexOf(table: seq<DiskFileEntry>, name: str): (i: int)
    requires exists i :: HasName(table, i, name)
    ensures HasName(table, i, name)
  {
    var i :| HasName(table, i, name); i
  }

  ghost function Names(table: seq<DiskFileEntry>): set<str> {
    set i | 0 <= i < |table| && table[i].active != 0 :: NameOf(table[i])
  }

  lemma NamesExact(table: seq<DiskFileEntry>, name: str)
    ensures name in Names(table) <==> exists i :: HasName(table, i, name)
  {
    if name in Names(table) {
      var i :| 0 <= i < |table| && table[i].active != 0 && NameOf(table[i]) == name;
      assert HasName(table, i, name);
    }
  }

  /** The files a volume holds, by name. */
  ghost function Contents(v: Volume): map<str, Record>
    requires Sound(v)
  {
    map name | name in Names(v.table) :: NamesExact(v.table, name); RecordOf(v, v.table[IndexOf(v.table, name)])
  }

  lemma ContentsAt(v: Volume, i: nat)
    requires Sound(v) && UniqueNames(v.table)
    requires i < MAX_FILES && v.table[i].active != 0
    ensures NameOf(v.table[i]) in Contents(v)
    ensures Contents(v)[NameOf(v.table[i])] == RecordOf(v, v.table[i])
  {
    var name := NameOf(v.table[i]);
    assert HasName(v.table, i, name);
    assert name in Names(v.table);
  }

  lemma ContentsName(v: Volume, name: str) returns (i: nat)
    requires Sound(v) && UniqueNames(v.table) && name in Contents(v)
    ensures i < MAX_FILES && v.table[i].active != 0 && NameOf(v.table[i]) == name
    ensures Contents(v)[name] == RecordOf(v, v.table[i])
  {
    NamesExact(v.table, name);
    i := IndexOf(v.table, name);
  }

  // ---------- what a sector write does to the view ----------

  lemma PatchOne(image: Image, at: nat, s: Sector)
    requires at < |image|
    ensures Patch(image, at, [s], 1) == image[at := s]
  {
  }

  lemma WriteSuper(image: Image, sb: Superblock)
    requires |image| >= DATA_START
    ensures View(image[0 := EncodeSuper(sb)]) == View(image).(super := sb)
  {
    SuperRoundTrip(sb);
    var image' := image[0 := EncodeSuper(sb)];
    assert View(image').table == View(image).table;
    assert View(image').data == View(image).data;
  }

  lemma WriteSlot(image: Image, i: nat, e: DiskFileEntry)
    requires |image| >= DATA_START && i < MAX_FILES
    ensures View(image[FILE_TABLE_START + i := EncodeEntry(e)])
         == View(image).(table := View(image).table[i := e])
  {
    EntryRoundTrip(e);
    var image' := image[FILE_TABLE_START + i := EncodeEntry(e)];
    assert View(image').table == View(image).table[i := e];
    assert View(image').data == View(image).data;
  }

  lemma WriteBlocks(image: Image, start: nat, sectors: seq<Sector>, n: nat)
    requires |image| >= DATA_START && n <= |sectors|
    requires DATA_START + start + n <= |image|
    ensures View(Patch(image, DATA_START + start, sectors, n))
         == View(image).(data := Patch(View(image).data, start, sectors, n))
  {
    var image' := Patch(image, DATA_START + start, sectors, n);
    assert forall i | 0 <= i < DATA_START :: image'[i] == image[i];
    assert View(image').table == View(image).table;
    assert View(image').data == Patch(View(image).data, start, sectors, n);
  }

  // ---------- what it does to the files ----------

  /** Only slot `t` and the blocks of no other file differ between `v` and `v'`. */
  ghost predicate OnlySlot(v: Volume, v': Volume, t: nat)
    requires Sound(v) && Sound(v') && t < MAX_FILES
  {
    forall i | 0 <= i < MAX_FILES && i != t ::
      && v'.table[i] == v.table[i]
      && (v.table[i].active != 0 ==> RecordOf(v', v.table[i]) == RecordOf(v, v.table[i]))
  }

  /** Slot `t` is free or holds `name`, and no other slot holds `name`. */
  ghost predicate SlotFor(table: seq<DiskFileEntry>, t: nat, name: str)
    requires t < |table|
  {
    && (table[t].active != 0 ==> NameOf(table[t]) == name)
    && forall i | 0 <= i < |table| && i != t && table[i].active != 0 :: NameOf(table[i]) != name
  }

  lemma OtherFilesKept(v: Volume, v': Volume, t: nat, name: str)
    requires Sound(v) && Sound(v') && t < MAX_FILES
    requires UniqueNames(v.table)
    requires OnlySlot(v, v', t)
    requires SlotFor(v.table, t, name)
    requires v'.table[t].active != 0 ==> NameOf(v'.table[t]) == name
    ensures UniqueNames(v'.table)
    ensures Contents(v') - {name} == Contents(v) - {name}
  {
    hide Contents, RecordOf;
    NamesStayUnique(v, v', t, name);
    var m, m' := Contents(v) - {name}, Contents(v') - {name};
    forall n | n in m
      ensures n in m' && m'[n] == m[n]
    {
      var i := ContentsName(v, n);
      ContentsAt(v', i);
    }
    forall n | n in m'
      ensures n in m
    {
      var i := ContentsName(v', n);
      ContentsAt(v, i);
    }
  }

  lemma NamesStayUnique(v: Volume, v': Volume, t: nat, name: str)
    requires Sound(v) && Sound(v') && t < MAX_FILES
    requires UniqueNames(v.table)
    requires OnlySlot(v, v', t)
    requires SlotFor(v.table, t, name)
    requires v'.table[t].active != 0 ==> NameOf(v'.table[t]) == name
    ensures UniqueNames(v'.table)
  {
    hide RecordOf, NameOf;
  }

  lemma FileStored(v: Volume, v': Volume, t: nat, name: str)
    requires Sound(v) && Sound(v') && t < MAX_FILES
    requires UniqueNames(v.table)
    requires OnlySlot(v, v', t)
    requires SlotFor(v.table, t, name)
    requires v'.table[t].active != 0 && NameOf(v'.table[t]) == name
    ensures UniqueNames(v'.table)
    ensures Contents(v') == Contents(v)[name := RecordOf(v', v'.table[t])]
  {
    hide Contents, RecordOf;
    OtherFilesKept(v, v', t, name);
    ContentsAt(v', t);
    MapPut(Contents(v), Contents(v'), name);
  }

  lemma MapPut<K, V>(m: map<K, V>, m': map<K, V>, k: K)
    requires k in m' && m' - {k} == m - {k}
    ensures m' == m[k := m'[k]]
  {
    assert forall n | n != k :: n in m <==> n in m - {k};
    assert forall n | n != k :: n in m' <==> n in m' - {k};
    assert forall n | n in m && n != k :: m[n] == (m - {k})[n];
    assert forall n | n in m' && n != k :: m'[n] == (m' - {k})[n];
  }

  lemma FileRemoved(v: Volume, v': Volume, t: nat, name: str)
    requires Sound(v) && Sound(v') && t < MAX_FILES
    requires UniqueNames(v.table)
    requires OnlySlot(v, v', t)
    requires SlotFor(v.table, t, name)
    requires v'.table[t].active == 0
    ensures UniqueNames(v'.table)
    ensures Contents(v') == Contents(v) - {name}
  {
    hide Contents, RecordOf;
    OtherFilesKept(v, v', t, name);
    if name in Contents(v') {
      var i := ContentsName(v', name);
      assert false;
    }
    assert Contents(v') == Contents(v') - {name};
  }

  /** A run of blocks that no file other than slot `t` occupies; `t < 0` for none. */
  predicate FreeRun(table: seq<DiskFileEntry>, start: nat, count: nat, t: int) {
    forall i | 0 <= i < |table| && i != t && HasBlocks(table[i]) ::
      || table[i].startBlock + table[i].blockCount <= start
      || start + count <= table[i].startBlock
  }

  lemma SuperKept(v: Volume, sb: Superblock)
    requires Sound(v) && sb.IsValid() && sb.totalBlocks == v.super.totalBlocks
    ensures Sound(v.(super := sb))
    ensures Contents(v.(super := sb)) == Contents(v)
  {
  }

  /** Writing data into a run free for slot `t` disturbs no other file, however far it got. */
  lemma DataWritten(v: Volume, t: nat, start: nat, count: nat, sectors: seq<Sector>, n: nat)
    requires Sound(v) && t < MAX_FILES
    requires start + count <= v.super.totalBlocks
    requires FreeRun(v.table, start, count, t)
    requires n <= |sectors| && n <= SECTORS_PER_BLOCK * count
    ensures var v' := v.(data := Patch(v.data, SECTORS_PER_BLOCK * start, sectors, n));
            Sound(v') && OnlySlot(v, v', t)
  {
    hide Flatten;
    var v' := v.(data := Patch(v.data, SECTORS_PER_BLOCK * start, sectors, n));
    forall i | 0 <= i < MAX_FILES && i != t && v.table[i].active != 0
      ensures RecordOf(v', v.table[i]) == RecordOf(v, v.table[i])
    {
      var e := v.table[i];
      if e.blockCount != 0 {
        var lo, hi := SECTORS_PER_BLOCK * e.startBlock, SECTORS_PER_BLOCK * (e.startBlock + e.blockCount);
        assert v'.data[lo..hi] == v.data[lo..hi];
      }
    }
  }

  /** The bytes of a file whose padded data was written in full. */
  lemma DataReadsBack(v: Volume, e: DiskFileEntry, padded: seq<byte>)
    requires e.blockCount > 0 && |padded| == e.blockCount * BLOCK_SIZE && e.size <= |padded|
    requires SECTORS_PER_BLOCK * (e.startBlock + e.blockCount) <= |v.data|
    requires v.data[SECTORS_PER_BLOCK * e.startBlock..SECTORS_PER_BLOCK * (e.startBlock + e.blockCount)]
          == Cut(padded, SECTORS_PER_BLOCK * e.blockCount)
    ensures FileBytes(v, e) == padded[..e.size]
  {
    FlattenCut(padded, SECTORS_PER_BLOCK * e.blockCount);
    assert padded[..512 * (SECTORS_PER_BLOCK * e.blockCount)] == padded;
  }

  /** Replacing slot `t` by a record whose extent is free for it keeps the volume sound. */
  lemma SlotWritten(v: Volume, t: nat, e: DiskFileEntry)
    requires Sound(v) && t < MAX_FILES
    requires HasBlocks(e) ==> e.startBlock + e.blockCount <= v.super.totalBlocks
    requires HasBlocks(e) ==> FreeRun(v.table, e.startBlock, e.blockCount, t)
    requires e.active != 0 ==> e.size <= e.blockCount * BLOCK_SIZE && e.blockCount < 0x2000_0000
    ensures var v' := v.(table := v.table[t := e]);
            Sound(v') && OnlySlot(v, v', t)
  {
  }
}
