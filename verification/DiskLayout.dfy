/**
 The on-disk structures of a WarFS volume (kernel/src/disk/format.rs): constants, the
 superblock and file-table records, and their `repr(C)` byte layout in one sector each.
 Padding between fields is written as zero and ignored when read.
 */
module DiskLayout {
  import opened Bytes

  const WARFS_MAGIC: u32 := 0x5741_5246
  const WARFS_VERSION: u16 := 1
  const SECTOR_SIZE := 512
  const BLOCK_SIZE := 4096
  const SECTORS_PER_BLOCK := 8
  const MAX_FILES := 128
  const MAX_FILENAME := 96
  const FILE_TABLE_START := 1
  const DATA_START := 129
  const CLEAN: byte := 0
  const DIRTY: byte := 1

  type Sector = s: seq<byte> | |s| == 512 witness Zeros(512)
  type Label = s: seq<byte> | |s| == 32 witness Zeros(32)
  type NameField = s: seq<byte> | |s| == 96 witness Zeros(96)
  type SuperReserved = s: seq<byte> | |s| == 427 witness Zeros(427)
  type EntryReserved = s: seq<byte> | |s| == 368 witness Zeros(368)

  datatype Superblock = Superblock(
    magic: u32,
    version: u16,
    volumeLabel: Label,
    totalSectors: u64,
    totalBlocks: u32,
    usedBlocks: u32,
    fileCount: u16,
    blockSize: u32,
    createdAt: u64,
    lastMount: u64,
    mountCount: u32,
    state: byte,
    reserved: SuperReserved)
  {
    predicate IsValid() { magic == WARFS_MAGIC && version == WARFS_VERSION }
  }

  datatype DiskFileEntry = DiskFileEntry(
    active: byte,
    name: NameField,
    size: u64,
    ownerUid: u16,
    permOwnerRead: byte,
    permOwnerWrite: byte,
    permOthersRead: byte,
    permOthersWrite: byte,
    readonly: byte,
    createdAt: u64,
    modifiedAt: u64,
    startBlock: u32,
    blockCount: u32,
    reserved: EntryReserved)

  /** `DiskFileEntry::inactive`. */
  function Inactive(): DiskFileEntry {
    DiskFileEntry(0, Zeros(96), 0, 0, 0, 0, 0, 0, 0, 0, 0, 0, 0, Zeros(368))
  }

  // ---------- words inside a sector ----------

  function Word16(s: Sector, offset: nat): u16
    requires offset + 2 <= 512
  {
    WordSizes(); FromLittleEndian(s[offset..offset + 2])
  }

  function Word32(s: Sector, offset: nat): u32
    requires offset + 4 <= 512
  {
    WordSizes(); FromLittleEndian(s[offset..offset + 4])
  }

  function Word64(s: Sector, offset: nat): u64
    requires offset + 8 <= 512
  {
    WordSizes(); FromLittleEndian(s[offset..offset + 8])
  }

  // ---------- the file-table record ----------

  function EntryHead(e: DiskFileEntry): (s: seq<byte>)
    ensures |s| == 120
  {
    [e.active] + e.name + Zeros(7) + Le64(e.size) + Le16(e.ownerUid)
    + [e.permOwnerRead, e.permOwnerWrite, e.permOthersRead, e.permOthersWrite, e.readonly] + Zeros(1)
  }

  function EntryTail(e: DiskFileEntry): (s: seq<byte>)
    ensures |s| == 392
  {
    Le64(e.createdAt) + Le64(e.modifiedAt) + Le32(e.startBlock) + Le32(e.blockCount) + e.reserved
  }

  function EncodeEntry(e: DiskFileEntry): Sector { EntryHead(e) + EntryTail(e) }

  function DecodeEntry(s: Sector): DiskFileEntry {
    DiskFileEntry(
      s[0], s[1..97], Word64(s, 104), Word16(s, 112),
      s[114], s[115], s[116], s[117], s[118],
      Word64(s, 120), Word64(s, 128), Word32(s, 136), Word32(s, 140), s[144..512])
  }

  /** A file-table record read back from the sector it was written to is the same record. */
  lemma EntryRoundTrip(e: DiskFileEntry)
    ensures DecodeEntry(EncodeEntry(e)) == e
  {
    EntryHeadFields(e);
    EntryTailFields(e);
    var s, h, t := EncodeEntry(e), EntryHead(e), EntryTail(e);
    assert s[1..97] == h[1..97] && s[104..112] == h[104..112] && s[112..114] == h[112..114];
    assert s[120..128] == t[0..8] && s[128..136] == t[8..16];
    assert s[136..140] == t[16..20] && s[140..144] == t[20..24] && s[144..512] == t[24..392];
  }

  lemma EntryHeadFields(e: DiskFileEntry)
    ensures var h := EntryHead(e);
            && h[0] == e.active && h[1..97] == e.name
            && h[104..112] == Le64(e.size) && h[112..114] == Le16(e.ownerUid)
            && h[114..119] == [e.permOwnerRead, e.permOwnerWrite, e.permOthersRead, e.permOthersWrite, e.readonly]
  {
    var h := EntryHead(e);
    var tail := Le16(e.ownerUid)
    + [e.permOwnerRead, e.permOwnerWrite, e.permOthersRead, e.permOthersWrite, e.readonly] + Zeros(1);
    var a := [e.active] + e.name + Zeros(7);
    assert h == a + (Le64(e.size) + tail);
    assert a[1..97] == e.name;
    assert h[1..97] == a[1..97];
    assert h[104..112] == Le64(e.size);
    assert h[112..120] == tail;
    assert h[112..114] == tail[0..2] == Le16(e.ownerUid);
    assert h[114..119] == tail[2..7];
  }

  lemma EntryTailFields(e: DiskFileEntry)
    ensures var t := EntryTail(e);
            && t[0..8] == Le64(e.createdAt) && t[8..16] == Le64(e.modifiedAt)
            && t[16..20] == Le32(e.startBlock) && t[20..24] == Le32(e.blockCount)
            && t[24..392] == e.reserved
  {
    var t := EntryTail(e);
    assert t == Le64(e.createdAt) + (Le64(e.modifiedAt) + (Le32(e.startBlock) + (Le32(e.blockCount) + e.reserved)));
  }

  // ---------- the superblock ----------

  function SuperHead(sb: Superblock): (s: seq<byte>)
    ensures |s| == 64
  {
    Le32(sb.magic) + Le16(sb.version) + sb.volumeLabel + Zeros(2) + Le64(sb.totalSectors)
    + Le32(sb.totalBlocks) + Le32(sb.usedBlocks) + Le16(sb.fileCount) + Zeros(2) + Le32(sb.blockSize)
  }

  function SuperTail(sb: Superblock): (s: seq<byte>)
    ensures |s| == 448
  {
    Le64(sb.createdAt) + Le64(sb.lastMount) + Le32(sb.mountCount) + [sb.state] + sb.reserved
  }

  function EncodeSuper(sb: Superblock): Sector { SuperHead(sb) + SuperTail(sb) }

  function DecodeSuper(s: Sector): Superblock {
    Superblock(
      Word32(s, 0), Word16(s, 4), s[6..38], Word64(s, 40), Word32(s, 48), Word32(s, 52),
      Word16(s, 56), Word32(s, 60), Word64(s, 64), Word64(s, 72), Word32(s, 80), s[84], s[85..512])
  }

  /** The superblock read back from sector 0 is the one written there. */
  lemma SuperRoundTrip(sb: Superblock)
    ensures DecodeSuper(EncodeSuper(sb)) == sb
  {
    SuperHeadFields(sb);
    SuperTailFields(sb);
    var s, h, t := EncodeSuper(sb), SuperHead(sb), SuperTail(sb);
    assert s[0..4] == h[0..4] && s[4..6] == h[4..6] && s[6..38] == h[6..38] && s[40..48] == h[40..48];
    assert s[48..52] == h[48..52] && s[52..56] == h[52..56] && s[56..58] == h[56..58] && s[60..64] == h[60..64];
    assert s[64..72] == t[0..8] && s[72..80] == t[8..16] && s[80..84] == t[16..20] && s[85..512] == t[21..448];
  }

  lemma SuperHeadFields(sb: Superblock)
    ensures var h := SuperHead(sb);
            && h[0..4] == Le32(sb.magic) && h[4..6] == Le16(sb.version) && h[6..38] == sb.volumeLabel
            && h[40..48] == Le64(sb.totalSectors) && h[48..52] == Le32(sb.totalBlocks)
            && h[52..56] == Le32(sb.usedBlocks) && h[56..58] == Le16(sb.fileCount)
            && h[60..64] == Le32(sb.blockSize)
  {
    var h := SuperHead(sb);
    var a := Le32(sb.magic) + Le16(sb.version) + sb.volumeLabel + Zeros(2);
    var b := Le64(sb.totalSectors) + (Le32(sb.totalBlocks) + Le32(sb.usedBlocks));
    var c := Le16(sb.fileCount) + Zeros(2) + Le32(sb.blockSize);
    assert h == a + (b + c);
    assert h[0..4] == a[0..4] && h[4..6] == a[4..6] && h[6..38] == a[6..38];
    assert h[40..56] == b;
    assert h[40..48] == b[0..8] && h[48..52] == b[8..12] && h[52..56] == b[12..16];
    assert h[56..58] == c[0..2] && h[60..64] == c[4..8];
  }

  lemma SuperTailFields(sb: Superblock)
    ensures var t := SuperTail(sb);
            && t[0..8] == Le64(sb.createdAt) && t[8..16] == Le64(sb.lastMount)
            && t[16..20] == Le32(sb.mountCount) && t[20] == sb.state && t[21..448] == sb.reserved
  {
    var t := SuperTail(sb);
    assert t == Le64(sb.createdAt) + (Le64(sb.lastMount) + (Le32(sb.mountCount) + ([sb.state] + sb.reserved)));
  }

  // ---------- names, sizes ----------

  function NameEnd(name: seq<byte>): (n: nat)
    ensures n <= |name|
    ensures forall i | 0 <= i < n :: name[i] != 0
    ensures n < |name| ==> name[n] == 0
  {
    if name == [] || name[0] == 0 then 0 else 1 + NameEnd(name[1..])
  }

  /** The bytes of a stored name, up to its NUL; `entry_name` also wants them to be UTF-8. */
  function NameOf(e: DiskFileEntry): (n: str)
    ensures |n| <= MAX_FILENAME
    ensures forall i | 0 <= i < |n| :: n[i] != 0
  {
    e.name[..NameEnd(e.name)]
  }

  /** The name field upsert writes: at most 95 bytes of the name, then zeros. */
  function NameField96(name: str): (f: NameField) {
    var kept := name[..Min(|name|, MAX_FILENAME - 1)];
    kept + Zeros(96 - |kept|)
  }

  /** What survives of a name that is stored: all of it exactly when it has at most 95 bytes. */
  lemma StoredName(e: DiskFileEntry, name: str)
    requires e.name == NameField96(name)
    requires forall i | 0 <= i < |name| :: name[i] != 0
    ensures NameOf(e) == name[..Min(|name|, 95)]
    ensures NameOf(e) == name <==> |name| <= 95
  {
    var kept := name[..Min(|name|, 95)];
    assert forall i | 0 <= i < |kept| :: e.name[i] == kept[i];
    assert e.name[|kept|] == 0;
    assert NameEnd(e.name) == |kept|;
    assert e.name[..|kept|] == kept;
  }

  /** `block_count_for_len`. */
  function BlockCountForLen(len: nat): (n: nat)
    ensures len <= n * BLOCK_SIZE < len + BLOCK_SIZE
  {
    (len + BLOCK_SIZE - 1) / BLOCK_SIZE
  }
}
