/**
 The extent allocator of kernel/src/disk/format.rs: sort the occupied ranges by their first
 block, sweep them with a candidate start, take the first gap that is long enough.
 */
module FirstFit {
  import opened Bytes
  import opened Errors
  import opened DiskLayout
  import opened Volumes

  /** Blocks `first` up to but not including `end`. */
  datatype Range = Range(first: nat, end: nat)

  predicate Sorted(ranges: seq<Range>) {
    forall i | 0 <= i < |ranges| - 1 :: ranges[i].first <= ranges[i + 1].first
  }

  predicate Within(ranges: seq<Range>, total: nat) {
    forall r | r in ranges :: r.first < r.end <= total
  }

  predicate Clear(r: Range, c: nat, count: nat) { r.end <= c || c + count <= r.first }

  /** No range meets the `count` blocks from `c` on. */
  predicate RunFree(ranges: seq<Range>, c: nat, count: nat) {
    forall r | r in ranges :: Clear(r, c, count)
  }

  /** The extents of the table in slot order, leaving out slot `ignored`. */
  function RangesOf(table: seq<DiskFileEntry>, ignored: int): seq<Range> {
    if table == [] then []
    else
      var n := |table| - 1;
      RangesOf(table[..n], ignored) +
      if n != ignored && HasBlocks(table[n])
        then [Range(table[n].startBlock, table[n].startBlock + table[n].blockCount)] else []
  }

  lemma {:induction false} RangesFree(table: seq<DiskFileEntry>, ignored: int, c: nat, count: nat)
    ensures RunFree(RangesOf(table, ignored), c, count) <==> FreeRun(table, c, count, ignored)
  {
    if table != [] {
      var n := |table| - 1;
      RangesFree(table[..n], ignored, c, count);
      var front := RangesOf(table[..n], ignored);
      var own := if n != ignored && HasBlocks(table[n])
                   then [Range(table[n].startBlock, table[n].startBlock + table[n].blockCount)] else [];
      assert RangesOf(table, ignored) == front + own;
      RunFreeJoin(front, own, c, count);
      FreeRunLast(table, ignored, c, count);
    }
  }

  lemma RunFreeJoin(a: seq<Range>, b: seq<Range>, c: nat, count: nat)
    ensures RunFree(a + b, c, count) <==> RunFree(a, c, count) && RunFree(b, c, count)
  {
    assert forall r :: r in a + b <==> r in a || r in b;
  }

  lemma FreeRunLast(table: seq<DiskFileEntry>, ignored: int, c: nat, count: nat)
    requires table != []
    ensures var n := |table| - 1;
            FreeRun(table, c, count, ignored) <==>
              FreeRun(table[..n], c, count, ignored) && (n != ignored && HasBlocks(table[n]) ==>
                Clear(Range(table[n].startBlock, table[n].startBlock + table[n].blockCount), c, count))
  {
  }

  lemma {:induction false} RangesWithin(table: seq<DiskFileEntry>, ignored: int, total: u32)
    requires Inside(table, total)
    ensures Within(RangesOf(table, ignored), total)
  {
    if table != [] {
      RangesWithin(table[..|table| - 1], ignored, total);
    }
  }

  // ---------- sort_unstable_by_key ----------

  function InsertRange(sorted: seq<Range>, r: Range): (s: seq<Range>)
    requires Sorted(sorted)
    ensures multiset(s) == multiset(sorted) + multiset{r}
    ensures |s| > 0 && (s[0] == r || (|sorted| > 0 && s[0] == sorted[0]))
    ensures Sorted(s)
  {
    if sorted == [] || r.first <= sorted[0].first then [r] + sorted
    else
      assert sorted == [sorted[0]] + sorted[1..];
      [sorted[0]] + InsertRange(sorted[1..], r)
  }

  function SortRanges(ranges: seq<Range>): (s: seq<Range>)
    ensures Sorted(s) && multiset(s) == multiset(ranges)
  {
    if ranges == [] then []
    else
      assert ranges == [ranges[0]] + ranges[1..];
      InsertRange(SortRanges(ranges[1..]), ranges[0])
  }

  /** Sorting moves ranges about and changes nothing else. */
  lemma SortKeeps(ranges: seq<Range>)
    ensures forall r :: r in SortRanges(ranges) <==> r in ranges
  {
    var s := SortRanges(ranges);
    assert forall r :: r in s <==> r in multiset(s);
    assert forall r :: r in ranges <==> r in multiset(ranges);
  }

  lemma {:induction false} HeadLeast(ranges: seq<Range>, i: nat)
    requires Sorted(ranges) && i < |ranges|
    ensures ranges[0].first <= ranges[i].first
  {
    if i > 0 {
      HeadLeast(ranges, i - 1);
    }
  }

  // ---------- the sweep ----------

  function Sweep(ranges: seq<Range>, candidate: u32, count: u32, total: u32): Result<u32, DiskError>
    requires Within(ranges, total)
  {
    if ranges == [] then
      if SaturatingAdd32(candidate, count) <= total then Ok(candidate) else Err(DiskFull)
    else if SaturatingAdd32(candidate, count) <= ranges[0].first then Ok(candidate)
    else Sweep(ranges[1..], Max(candidate, ranges[0].end), count, total)
  }

  /** The allocation lies below `total`, in a free run, and starts as low as possible. */
  ghost predicate Lowest(ranges: seq<Range>, candidate: nat, count: nat, total: nat, r: Result<u32, DiskError>) {
    match r
    case Ok(start) =>
      && candidate <= start && start + count <= total
      && RunFree(ranges, start, count)
      && forall c | candidate <= c < start :: !RunFree(ranges, c, count)
    case Err(e) =>
      && e == DiskFull
      && forall c | candidate <= c <= total - count :: !RunFree(ranges, c, count)
  }

  /** The sweep finds the lowest gap at or above the candidate, and only fails without one. */
  lemma {:induction false} SweepExact(ranges: seq<Range>, candidate: u32, count: u32, total: u32)
    requires Sorted(ranges) && Within(ranges, total) && total < U32_MAX
    requires candidate <= total && (count > 0 || candidate == 0)
    ensures Lowest(ranges, candidate, count, total, Sweep(ranges, candidate, count, total))
  {
    if ranges != [] {
      var head, rest := ranges[0], ranges[1..];
      assert head in ranges && forall r | r in rest :: r in ranges;
      if SaturatingAdd32(candidate, count) <= head.first {
        BelowHead(ranges, candidate, count);
      } else {
        var next := Max(candidate, head.end);
        SweepExact(rest, next, count, total);
        PastHead(ranges, candidate, count);
      }
    }
  }

  lemma BelowHead(ranges: seq<Range>, candidate: u32, count: u32)
    requires Sorted(ranges) && ranges != [] && SaturatingAdd32(candidate, count) <= ranges[0].first
    requires ranges[0].first < U32_MAX
    ensures RunFree(ranges, candidate, count)
  {
    forall r | r in ranges
      ensures Clear(r, candidate, count)
    {
      var i :| 0 <= i < |ranges| && ranges[i] == r;
      HeadLeast(ranges, i);
    }
  }

  /** Where the first range is in the way, what is free beyond it is what was free. */
  lemma PastHead(ranges: seq<Range>, candidate: u32, count: u32)
    requires ranges != [] && ranges[0].first < ranges[0].end && count > 0
    requires SaturatingAdd32(candidate, count) > ranges[0].first
    ensures forall c: nat | candidate <= c ::
              RunFree(ranges, c, count) <==> c >= Max(candidate, ranges[0].end) && RunFree(ranges[1..], c, count)
  {
    var head, rest := ranges[0], ranges[1..];
    assert ranges == [head] + rest;
    forall c: nat | candidate <= c
      ensures RunFree(ranges, c, count) <==> c >= Max(candidate, head.end) && RunFree(rest, c, count)
    {
      assert Clear(head, c, count) <==> c >= Max(candidate, head.end);
    }
  }

  ghost predicate FitsInside(ranges: seq<Range>, count: u32, total: u32) {
    Sorted(ranges) && Within(ranges, total) ==>
      Lowest(ranges, 0, count, total, Sweep(ranges, 0, count, total))
  }

  /**
   On a volume of 2^32 - 1 blocks the saturated sum can pass the last test with blocks
   beyond the end. That is the only volume size on which the allocator is wrong.
   */
  lemma SweepRightUnlessLargest(total: u32)
    ensures (forall ranges, count: u32 :: FitsInside(ranges, count, total)) <==> total != U32_MAX
  {
    if total != U32_MAX {
      forall ranges, count: u32
        ensures FitsInside(ranges, count, total)
      {
        if Sorted(ranges) && Within(ranges, total) {
          SweepExact(ranges, 0, count, total);
        }
      }
    } else {
      var full := [Range(0, U32_MAX)];
      assert full[1..] == [];
      assert Sweep(full, 0, 1, total) == Sweep([], U32_MAX, 1, total) == Ok(U32_MAX);
      assert !FitsInside(full, 1, total);
    }
  }
}
