/**
 What a half-written run of data does to a file whose record is still the old one
 (kernel/src/disk/format.rs, write_file_data): the file reads as before exactly while the
 bytes under it do.
 */
module InPlace {
  import opened Bytes
  import opened Arith
  import opened DiskLayout
  import opened Volumes
  import opened Format

  lemma {:induction false} FlattenAt(sectors: seq<Sector>, i: nat)
    requires i < 512 * |sectors|
    ensures Flatten(sectors)[i] == sectors[i / 512][i % 512]
  {
    if i >= 512 {
      FlattenAt(sectors[1..], i - 512);
      Shifted(i);
    }
  }

  lemma Shifted(i: nat)
    requires i >= 512
    ensures (i - 512) / 512 == i / 512 - 1 && (i - 512) % 512 == i % 512
  {
  }

  /** The extent of an active slot lies on the medium. */
  predicate OnMedium(v: Volume, e: DiskFileEntry) {
    && e.size <= e.blockCount * BLOCK_SIZE
    && SECTORS_PER_BLOCK * (e.startBlock + e.blockCount) <= |v.data|
  }

  /** The byte of the medium that holds byte `i` of the file. */
  function Under(v: Volume, e: DiskFileEntry, i: nat): byte
    requires OnMedium(v, e) && i < e.size
  {
    v.data[SECTORS_PER_BLOCK * e.startBlock + i / 512][i % 512]
  }

  lemma FileByte(v: Volume, e: DiskFileEntry, i: nat)
    requires OnMedium(v, e) && i < e.size
    ensures |FileBytes(v, e)| == e.size && FileBytes(v, e)[i] == Under(v, e, i)
  {
    var lo, hi := SECTORS_PER_BLOCK * e.startBlock, SECTORS_PER_BLOCK * (e.startBlock + e.blockCount);
    FlattenAt(v.data[lo..hi], i);
  }

  lemma SameUnder(v: Volume, v': Volume, e: DiskFileEntry)
    requires OnMedium(v, e) && OnMedium(v', e)
    requires forall i | 0 <= i < e.size :: Under(v', e, i) == Under(v, e, i)
    ensures FileBytes(v', e) == FileBytes(v, e)
  {
    hide FileBytes, Under;
    FileLength(v, e);
    FileLength(v', e);
    forall i | 0 <= i < e.size
      ensures FileBytes(v', e)[i] == FileBytes(v, e)[i]
    {
      FileByte(v, e, i);
      FileByte(v', e, i);
    }
  }

  lemma FileLength(v: Volume, e: DiskFileEntry)
    requires OnMedium(v, e)
    ensures |FileBytes(v, e)| == e.size
  {
  }

  /** A run of blocks that holds no byte of the file. */
  predicate Apart(e: DiskFileEntry, start: nat, count: nat) {
    || count == 0 || e.size == 0
    || start + count <= e.startBlock || e.startBlock + BlockCountForLen(e.size) <= start
  }

  /** Where byte `i` of a file lies among the sectors of its extent. */
  lemma ByteInBlocks(size: nat, i: nat)
    requires i < size
    ensures i / 512 < SECTORS_PER_BLOCK * BlockCountForLen(size)
  {
  }

  lemma PutElsewhere(v: Volume, start: nat, data: seq<byte>, n: nat, j: nat)
    requires n <= SECTORS_PER_BLOCK * BlockCountForLen(|data|) && j < |v.data|
    requires SECTORS_PER_BLOCK * (start + BlockCountForLen(|data|)) <= |v.data|
    requires j < SECTORS_PER_BLOCK * start || SECTORS_PER_BLOCK * start + n <= j
    ensures DataPut(v, start, data, n).data[j] == v.data[j]
  {
  }

  lemma PutHere(v: Volume, start: nat, data: seq<byte>, n: nat, i: nat)
    requires n <= SECTORS_PER_BLOCK * BlockCountForLen(|data|) && i < |data| && i / 512 < n
    requires SECTORS_PER_BLOCK * (start + BlockCountForLen(|data|)) <= |v.data|
    ensures DataPut(v, start, data, n).data[SECTORS_PER_BLOCK * start + i / 512][i % 512] == data[i]
  {
    hide Padded;
    var j := i / 512;
    var run := Cut(Padded(data), SECTORS_PER_BLOCK * BlockCountForLen(|data|));
    assert DataPut(v, start, data, n).data[SECTORS_PER_BLOCK * start + j] == run[j];
    assert run[j][i % 512] == Padded(data)[i];
    assert Padded(data)[..|data|][i] == data[i];
  }

  /** Data written away from a file leaves it readable. */
  lemma ApartKeeps(v: Volume, e: DiskFileEntry, start: nat, data: seq<byte>, n: nat)
    requires OnMedium(v, e) && n <= SECTORS_PER_BLOCK * BlockCountForLen(|data|)
    requires SECTORS_PER_BLOCK * (start + BlockCountForLen(|data|)) <= |v.data|
    requires Apart(e, start, BlockCountForLen(|data|))
    ensures FileBytes(DataPut(v, start, data, n), e) == FileBytes(v, e)
  {
    hide FileBytes;
    var v' := DataPut(v, start, data, n);
    forall i | 0 <= i < e.size
      ensures Under(v', e, i) == Under(v, e, i)
    {
      ByteInBlocks(e.size, i);
      PutElsewhere(v, start, data, n, SECTORS_PER_BLOCK * e.startBlock + i / 512);
    }
    SameUnder(v, v', e);
  }

  /** A file written over itself, byte for byte, stays readable all the way. */
  lemma SameDataKeeps(v: Volume, e: DiskFileEntry, data: seq<byte>, n: nat)
    requires OnMedium(v, e) && n <= SECTORS_PER_BLOCK * BlockCountForLen(|data|)
    requires SECTORS_PER_BLOCK * (e.startBlock + BlockCountForLen(|data|)) <= |v.data|
    requires data == FileBytes(v, e)
    ensures FileBytes(DataPut(v, e.startBlock, data, n), e) == FileBytes(v, e)
  {
    hide FileBytes;
    var v' := DataPut(v, e.startBlock, data, n);
    FileLength(v, e);
    forall i | 0 <= i < e.size
      ensures Under(v', e, i) == Under(v, e, i)
    {
      FileByte(v, e, i);
      if i / 512 < n {
        PutHere(v, e.startBlock, data, n, i);
      } else {
        PutElsewhere(v, e.startBlock, data, n, SECTORS_PER_BLOCK * e.startBlock + i / 512);
      }
    }
    SameUnder(v, v', e);
  }

  /** A block that both the run and the file use holds a byte of each. */
  lemma Shared(e: DiskFileEntry, start: nat, len: nat) returns (b: nat)
    requires !Apart(e, start, BlockCountForLen(len))
    ensures start <= b && e.startBlock <= b
    ensures (b - start) * BLOCK_SIZE < len && (b - e.startBlock) * BLOCK_SIZE < e.size
  {
    b := Max(start, e.startBlock);
    InUse(len, b - start);
    InUse(e.size, b - e.startBlock);
  }

  lemma InUse(len: nat, block: nat)
    requires block < BlockCountForLen(len)
    ensures block * BLOCK_SIZE < len
  {
  }

  /** Data that differs from the file where the two share a block shows in the file. */
  lemma SharedShows(v: Volume, e: DiskFileEntry, start: nat, data: seq<byte>, b: nat)
    requires OnMedium(v, e) && SECTORS_PER_BLOCK * (start + BlockCountForLen(|data|)) <= |v.data|
    requires start <= b && e.startBlock <= b
    requires (b - start) * BLOCK_SIZE < |data| && (b - e.startBlock) * BLOCK_SIZE < e.size
    requires data[(b - start) * BLOCK_SIZE] != Under(v, e, (b - e.startBlock) * BLOCK_SIZE)
    ensures FileBytes(DataPut(v, start, data, SECTORS_PER_BLOCK * BlockCountForLen(|data|)), e) != FileBytes(v, e)
  {
    hide FileBytes;
    var n := SECTORS_PER_BLOCK * BlockCountForLen(|data|);
    var v' := DataPut(v, start, data, n);
    var i, k := (b - e.startBlock) * BLOCK_SIZE, (b - start) * BLOCK_SIZE;
    ByteInBlocks(|data|, k);
    PutHere(v, start, data, n, k);
    SectorOf(b - e.startBlock);
    SectorOf(b - start);
    FileByte(v, e, i);
    FileByte(v', e, i);
  }

  lemma SectorOf(block: nat)
    ensures block * BLOCK_SIZE / 512 == SECTORS_PER_BLOCK * block && block * BLOCK_SIZE % 512 == 0
  {
  }
}
