/** The bitmap of FS/bitmap.c: searching for free blocks, counting, marking and freeing them. */
module Bitmap {
  import opened Ranges
  import opened Space
  import opened Fragments
  import opened Collecting

  /** The bitmap of a partition of `total` blocks, kept `perBlock` bits to a bitmap block.  A
      set bit is a free block; the bits behind the last block of the partition are clear. */
  class SpaceMap {
    const total: nat
    const perBlock: nat
    var free: seq<bool>
    /** The number of free blocks, which the root block records. */
    var freeblocks: nat

    ghost predicate Valid()
      reads this
    {
      IsMap(free, total, perBlock)
    }

    /** The recorded number of free blocks is right. */
    ghost predicate Counted()
      reads this
    {
      Valid() && freeblocks == |FreeSet(free)|
    }

    /** The map that is kept in these bitmap blocks. */
    constructor (total: nat, perBlock: nat, bitmaps: seq<seq<bool>>, freeblocks: nat)
      requires total > 0 && perBlock > 0 && |bitmaps| == LastOf(total, perBlock) + 1
      requires forall i :: 0 <= i < |bitmaps| ==> |bitmaps[i]| == perBlock
      requires RestClear(bitmaps, total, perBlock)
      ensures Valid() && this.total == total && this.perBlock == perBlock && this.freeblocks == freeblocks
      ensures forall i: nat, j: nat :: i < |bitmaps| && j < perBlock ==>
        BlockAt(i, j, perBlock) < |free| && free[BlockAt(i, j, perBlock)] == bitmaps[i][j]
    {
      this.total, this.perBlock, this.freeblocks := total, perBlock, freeblocks;
      free := JoinedBits(bitmaps, total, perBlock);
    }

    /** The bits of bitmap block `index`, which describes the blocks from `block`. */
    function Bits(index: nat, block: nat): (bits: seq<bool>)
      requires Valid() && IsAt(index, block, perBlock) && index <= LastOf(total, perBlock)
      reads this
      ensures |bits| == perBlock && IsWindow(free, block, bits)
    {
      LinearIndex(index, LastOf(total, perBlock), perBlock);
      free[index * perBlock..index * perBlock + perBlock]
    }

    /** Where a search may start: inside the partition, or one partition further on as long as
        that still falls into the bitmap block the search is to begin with. */
    predicate GoodStart(start: nat)
      requires total > 0 && perBlock > 0
    {
      start < total || (start < 2 * total && IndexOf(start, perBlock) == IndexOf(start - total, perBlock))
    }

    /** Finds `maxneeded` adjacent free blocks, or the longest free run if there are fewer. */
    method FindSpace2(maxneeded: nat, startAt: nat, endAt: nat) returns (returnedBlock: nat, returnedBlocks: nat)
      requires Valid() && GoodStart(startAt) && endAt <= total
      ensures Found(free, maxneeded, if startAt < total then startAt else startAt - total,
                    if endAt == 0 then total else endAt, total, returnedBlock, returnedBlocks)
    {
      hide Searching, Searched, Found, LastOf, IsAt, IsWindow, IndexOf, OffsetOf, InBlock;
      var index: nat := IndexOf(startAt, perBlock);
      var start := if startAt >= total then startAt - total else startAt;
      var end := if endAt == 0 then total else endAt;
      var left: int := LastOf(end, perBlock) + 1 - index;
      if start >= end {
        left := left + LastOf(total, perBlock) + 1;
      }
      var breakpoint := if start < end then end else total;
      returnedBlock, returnedBlocks := 0, 0;
      StartUp(start, perBlock, end, total);
      var bitend: nat := OffsetOf(start, perBlock);
      var block: nat := start - bitend;
      var space: nat := 0;
      ghost var area := Area(free, maxneeded, start, end, total, perBlock);
      ghost var first := true;
      SearchStarts(area, index, block, bitend, left);
      while true
        invariant breakpoint == BreakOf(area, first)
        invariant Searching(area, first, index, block, bitend, space, left, returnedBlock, returnedBlocks)
        decreases left
      {
        SearchInside(area, first, index, block, bitend, space, left, returnedBlock, returnedBlocks);
        var bits := Bits(index, block);
        var localbreak := if breakpoint - block > perBlock then perBlock else breakpoint - block;
        var done;
        bitend, space, returnedBlock, returnedBlocks, done :=
          SearchBlock(bits, block, bitend, localbreak, space, maxneeded, returnedBlock, returnedBlocks, area, first);
        if done {
          return;
        }
        left := left - 1;
        if left == 0 {
          SearchEnds(area, first, index, block, localbreak, bitend, space, returnedBlock, returnedBlocks);
          break;
        }
        SearchGoesOn(area, first, index, block, localbreak, bitend, space, left, returnedBlock, returnedBlocks);
        if bitend != perBlock {
          space := 0;
        }
        bitend := 0;
        block := block + perBlock;
        index := index + 1;
        if block >= total {
          block, space, breakpoint, index := 0, 0, end, 0;
          first := false;
        }
      }
    }

    /** Finds exactly `blocksneeded` adjacent free blocks, or reports that there are none. */
    method FindSpace(blocksneeded: nat, start: nat, end: nat) returns (found: bool, block: nat)
      requires Valid() && GoodStart(start) && end <= total
      ensures var from, to := if start < total then start else start - total, if end == 0 then total else end;
        if found then Found(free, blocksneeded, from, to, total, block, blocksneeded)
        else forall q :: AllFree(free, q, blocksneeded) ==> !InArea(from, to, total, q, blocksneeded)
    {
      hide AllFree, InArea;
      var blocks;
      block, blocks := FindSpace2(blocksneeded, start, end);
      found := blocks == blocksneeded;
    }

    // ----- Counting free and used blocks

    /** The bitmap as the search for fragments sees it. */
    function Map(): (d: Partition)
      requires Valid()
      reads this
      ensures d.Valid() && d == Partition(free, total, perBlock)
    {
      Partition(free, total, perBlock)
    }

    /** Number of free blocks from `block` on; the count stops at a used block, or at the end of a
        bitmap block once there are at least `maxneeded` (`availablespace`). */
    method AvailableSpace(block: nat, maxneeded: nat) returns (n: nat)
      requires Valid() && block < total
      ensures AllFree(free, block, n) && block + n <= total
      ensures n < maxneeded ==> block + n == |free| || !free[block + n]
      ensures n == CountOf(free, perBlock, block, maxneeded, true) && n < AtLeastOne(maxneeded) + perBlock
    {
      n := CountRun(block, maxneeded, true);
      CountFacts(free, perBlock, block, maxneeded, true);
      RunInside(free, total, perBlock, block, n);
    }

    /** Number of used blocks from `block` on (`allocatedspace`). */
    method AllocatedSpace(block: nat, maxneeded: nat) returns (n: nat)
      requires Valid() && block < total
      ensures AllUsed(free, block, block + n)
      ensures n < maxneeded ==> block + n == |free| || free[block + n]
      ensures n == CountOf(free, perBlock, block, maxneeded, false) && n < AtLeastOne(maxneeded) + perBlock
    {
      n := CountRun(block, maxneeded, false);
      CountFacts(free, perBlock, block, maxneeded, false);
    }

    /** The loop of both: `v` is what to count. */
    method CountRun(block: nat, maxneeded: nat, v: bool) returns (n: nat)
      requires Valid() && block < total
      ensures if v then AllFree(free, block, n) else AllUsed(free, block, block + n)
      ensures n < maxneeded ==> block + n == |free| || free[block + n] != v
      ensures n == CountOf(free, perBlock, block, maxneeded, v)
    {
      hide FirstBit, IsWindow, LastOf, IsAt, IsMap, IndexOf, OffsetOf, CountOf;
      CountStarts(this, block);
      var index: nat, bitstart: nat := IndexOf(block, perBlock), OffsetOf(block, perBlock);
      n := 0;
      while index <= LastOf(total, perBlock)
        invariant index <= LastOf(total, perBlock) + 1 && bitstart < perBlock && bitstart <= block + n <= |free|
        invariant IsAt(index, block + n - bitstart, perBlock)
        invariant forall i :: block <= i < block + n ==> free[i] == v
        invariant bitstart > 0 ==> n == 0 && index <= LastOf(total, perBlock)
        invariant n > 0 ==> n < maxneeded
        decreases LastOf(total, perBlock) + 1 - index
      {
        var start := block + n - bitstart;
        var bits := Bits(index, start);
        var bitend := FirstBit(bits, bitstart, !v);
        FirstBitIn(free, start, bits, bitstart, !v);
        if bitend >= 0 {
          n := n + bitend - bitstart;
          CountInside(free, perBlock, block, maxneeded, v, index, start, block + n);
          return;
        }
        n := n + perBlock - bitstart;
        if n >= maxneeded {
          CountAtEnd(free, perBlock, block, maxneeded, v, index, start);
          return;
        }
        NextBlock(index, start, perBlock);
        bitstart, index := 0, index + 1;
      }
      AllCounted(this, index, block + n);
      CountAll(free, perBlock, block, maxneeded, v);
    }

    // ----- Marking blocks

    /** Sets or clears up to n bits of one bitmap block, from bit `offset` on. */
    method FillBlock(index: nat, start: nat, offset: nat, n: nat, v: bool) returns (done: nat)
      requires Valid() && IsAt(index, start, perBlock) && index <= LastOf(total, perBlock) && start + perBlock <= |free|
      requires offset < perBlock && start + offset + n <= total
      modifies `free
      ensures Valid() && |free| == old(|free|) && done == (if n < perBlock - offset then n else perBlock - offset)
      ensures forall i ::
          0 <= i < |free| ==> free[i] == if start + offset <= i < start + offset + done then v else old(free)[i]
    {
      hide IsWindow, LastOf, IsAt, IsMap;
      var bits := Bits(index, start);
      var filled;
      filled, done := FillBits(bits, offset, n, v);
      ghost var was := free;
      WindowFilled(free, start, bits, filled, offset, done, v);
      free := free[..start] + filled + free[start + perBlock..];
      StillMap(was, free, total, perBlock);
    }

    /** Sets or clears the bits of n blocks from `block` on, in one bitmap block after another. */
    method FillSpace(block: nat, n: nat, v: bool)
      requires Valid() && block + n <= total
      modifies `free
      ensures Valid() && |free| == old(|free|)
      ensures forall i :: 0 <= i < |free| ==> free[i] == if block <= i < block + n then v else old(free)[i]
    {
      hide IsWindow, LastOf, IsAt, IsMap, IndexOf, OffsetOf;
      ghost var before := free;
      if n == 0 {
        return;
      }
      CountStarts(this, block);
      var index: nat, offset: nat := IndexOf(block, perBlock), OffsetOf(block, perBlock);
      var blocks: nat := n;
      while blocks > 0
        invariant blocks <= n && offset <= block + n - blocks && offset < perBlock && |free| == |before|
        invariant blocks > 0 ==> IsAt(index, block + n - blocks - offset, perBlock) && (offset > 0 ==> blocks == n)
        invariant Valid()
        invariant forall i :: 0 <= i < |free| ==> free[i] == if block <= i < block + n - blocks then v else before[i]
        decreases blocks
      {
        var start := block + n - blocks - offset;
        IndexInside(this, index, start, total);
        var done := FillBlock(index, start, offset, blocks, v);
        NextBlock(index, start, perBlock);
        blocks := blocks - done;
        offset, index := 0, index + 1;
      }
    }

    /** Marks n blocks as used if all are free; otherwise nothing changes (`markspace`). */
    method MarkSpace(block: nat, n: nat) returns (ok: bool)
      requires Counted() && block < total && block + n <= total
      modifies `free, `freeblocks
      ensures Counted() && |free| == old(|free|)
      ensures ok <==> AllFree(old(free), block, n)
      ensures !ok ==> free == old(free) && freeblocks == old(freeblocks)
      ensures ok ==> FreeSet(free) == FreeSet(old(free)) - Range(block, n) && freeblocks == old(freeblocks) - n
      ensures ok ==> forall i :: 0 <= i < |free| ==> free[i] == (old(free)[i] && !(block <= i < block + n))
    {
      var available := AvailableSpace(block, n);
      if available < n {
        return false;
      }
      ghost var before := free;
      FreeRange(free, block, n);
      RangeSize(block, n);
      SetSizes(FreeSet(free), Range(block, n));
      freeblocks := freeblocks - n;
      FillSpace(block, n, false);
      FilledSet(before, free, block, n, false);
      ok := true;
    }

    /** Marks n blocks as free (`freespace`).  The recorded number of free blocks stays right exactly
        if all of them were used. */
    method FreeSpace(block: nat, n: nat)
      requires Valid() && block + n <= total
      modifies `free, `freeblocks
      ensures Valid() && |free| == old(|free|)
      ensures FreeSet(free) == FreeSet(old(free)) + Range(block, n) && freeblocks == old(freeblocks) + n
      ensures old(Counted()) ==> (Counted() <==> AllUsed(old(free), block, block + n))
    {
      ghost var before := free;
      freeblocks := freeblocks + n;
      FillSpace(block, n, true);
      FilledSet(before, free, block, n, true);
      RangeSize(block, n);
      RangeHas(block, n);
      InFreeSet(before);
      UnionSize(FreeSet(before), Range(block, n));
      FreeRange(before, block, n);
      if FreeSet(before) !! Range(block, n) {
        forall i | block <= i < block + n ensures !before[i] { assert i in Range(block, n); }
      }
    }

    // ----- Space in fragments

    /** Collects free runs from `startblock` on, round the end of the partition, until one run is
        enough by itself or everything has been seen: the first loop of `smartfindandmarkspace`. */
    method CollectSpace(startblock: nat, needed: nat) returns (list: seq<Fragment>, blocksfound: nat)
      requires Valid() && startblock < total && needed > 0 && !free[0]
      ensures Collected(free, needed, list) && blocksfound == Total(list)
      ensures list == Collects(Map(), startblock, needed) && Sizeable(Map(), needed, list)
      ensures InScanOrder(startblock, list) && FirstEnough(free, startblock, needed, list)
    {
      hide AllFree, AllUsed, IsMap, BlocksOf, Total, Disjoint, Range, FreeSet, Collection, CountOf, Sizeable;
      hide Passed, InScanOrder, FirstEnough;
      ghost var d := Map();
      CollectionSizes(d, startblock, needed, startblock, false, []);
      MapFacts(free, total, perBlock);
      var block: nat := startblock;
      list, blocksfound := [], 0;
      ScanBegins(free, startblock, needed);
      PassedNothing(free, startblock, needed);
      while |list| < SPACELIST_MAX
        invariant block < total && blocksfound == Total(list) && |list| <= SPACELIST_MAX
        invariant Gathered(free, startblock, block, block < startblock, needed, list)
        invariant Passed(free, startblock, block, block < startblock, needed, list)
        invariant Collection(d, startblock, needed, block, block < startblock, list) == Collects(d, startblock, needed)
        decreases if block < startblock then startblock - block else total - block + startblock
      {
        var n := AvailableSpace(block, needed);
        var a: nat;
        if n > 0 {
          FreeAt(free, block, n, block);
          TakeOne(d, startblock, needed, block, block < startblock, list);
          if n >= needed {
            OneRun(free, needed, block, n);
            PassedOne(free, startblock, block, block < startblock, needed, list, n);
            return [Fragment(block, n)], n;
          }
          var f := Fragment(block, if block < startblock && block + n >= startblock then startblock - block else n);
          Gather(free, startblock, block, block < startblock, needed, list, n, f.blocks);
          PassedMore(free, startblock, block, block < startblock, needed, list, n, f.blocks);
          Snoc(list, f);
          list, blocksfound := list + [f], blocksfound + f.blocks;
          if block < startblock && block + n >= startblock {
            GatheredAll(free, startblock, startblock, total, needed, list);
            PassedAll(free, startblock, startblock, true, needed, list);
            return;
          }
        }
        ghost var wrapped := block < startblock;
        GatherNothing(free, startblock, block, wrapped, needed, list, n);
        NextIsUsed(free, total, perBlock, block, n, needed);
        block := block + n;
        if block >= total {
          GatherTurns(free, total, perBlock, startblock, block, needed, list);
          PassedTurns(free, total, perBlock, startblock, block, needed, list);
          Turn(d, startblock, needed, block, list);
          if startblock == 0 {
            return;
          }
          block, wrapped := 0, true;
        }
        a := AllocatedSpace(block, perBlock * 2);
        PassCount(d, startblock, needed, block, wrapped, list, a);
        if block < startblock && block + a >= startblock {
          GatherUsed(free, startblock, block, wrapped, needed, list, a);
          PassedUsed(free, startblock, block, wrapped, needed, list, a);
          GatheredAll(free, startblock, block + a, total, needed, list);
          PassedAll(free, startblock, startblock, true, needed, list);
          return;
        }
        GatherUsed(free, startblock, block, wrapped, needed, list, a);
        PassedUsed(free, startblock, block, wrapped, needed, list, a);
        NextIsFree(free, total, perBlock, block, a);
        block := block + a;
        if block >= total {
          GatherTurns(free, total, perBlock, startblock, block, needed, list);
          PassedTurns(free, total, perBlock, startblock, block, needed, list);
          Turn(d, startblock, needed, block, list);
          if startblock == 0 {
            return;
          }
          block := 0;
        }
      }
      Over(d, startblock, needed, block, block < startblock, list);
      FullList(free, startblock, block, block < startblock, needed, list);
      PassedFull(free, startblock, block, block < startblock, needed, list);
    }

    /** Marks the fragments of a list, as far as blocks are needed: the last loop of
        `smartfindandmarkspace`. */
    method MarkFragments(list: seq<Fragment>, needed: nat)
      requires Counted() && Disjoint(list) && BlocksOf(list) <= FreeSet(free)
      requires forall i :: 0 <= i < |list| ==> list[i].block < total && list[i].block + list[i].blocks <= total
      modifies `free, `freeblocks
      ensures Counted() && |free| == old(|free|)
      ensures FreeSet(free) == FreeSet(old(free)) - BlocksOf(Cut(list, needed))
      ensures freeblocks == old(freeblocks) - Total(Cut(list, needed))
    {
      hide IsMap, BlocksOf, Total, Range, FreeSet, AllFree, Disjoint;
      ghost var before := free;
      var left, n: nat := needed, 0;
      NothingCut(list, needed);
      MapFacts(free, total, perBlock);
      while n < |list|
        invariant n <= |list| && Counted() && |free| == |before| && 0 <= left == needed - Total(Cut(list[..n], needed))
        invariant FreeSet(free) == FreeSet(before) - BlocksOf(Cut(list[..n], needed))
        invariant freeblocks == old(freeblocks) - Total(Cut(list[..n], needed))
      {
        var blocks := list[n].blocks;
        CutNext(before, free, list, needed, n);
        if blocks != 0 {
          if left < blocks {
            blocks := left;
          }
          var ok := MarkSpace(list[n].block, blocks);
          assert ok;
          left := left - blocks;
        }
        n := n + 1;
      }
      assert list[..n] == list;
    }

    /** Is there room for `blocks` more, beside `reserved` blocks for the transaction
        (`enoughspace`)? */
    function EnoughSpace(blocks: nat, reserved: nat): bool
      requires reserved <= WRAP
      reads this
    {
      Minus(freeblocks, reserved) >= blocks + ALWAYSFREE
    }

    /** Finds and marks `needed` blocks, in as few and as large fragments as it takes
        (`smartfindandmarkspace`).  What it requires is exactly what makes it end: `SmartEnds`. */
    method SmartFindAndMarkSpace(startblock: nat, needed: nat, reserved: nat)
      returns (ok: bool, spacelist: seq<Fragment>)
      requires Counted() && startblock < total && needed > 0 && !free[0] && reserved <= WRAP
      requires EnoughSpace(needed, reserved) ==> NotTooLarge(Map(), startblock, needed)
      modifies `free, `freeblocks
      ensures Counted() && |free| == old(|free|)
      ensures var more := if reserved <= old(freeblocks) then 0 else 0x1_0000_0000;
        ok <==> old(freeblocks) + more >= reserved + needed + 3 && FreeSet(old(free)) != {}
      ensures ok && reserved <= old(freeblocks) ==> freeblocks >= reserved + 3
      ensures !ok ==> free == old(free) && freeblocks == old(freeblocks)
      ensures ok ==> Taken(old(free), needed, spacelist, free)
      ensures ok ==> Chosen(old(Map()), startblock, needed, spacelist)
      ensures ok && reserved <= old(freeblocks) && |spacelist| < 1000
          ==> Total(Cut(spacelist, needed)) == needed
      ensures ok ==> freeblocks == old(freeblocks) - Total(Cut(spacelist, needed))
    {
      hide IsMap, BlocksOf, Total, Range, FreeSet, AllFree, Disjoint, Cut, Huge, Sum, Collects, Sizeable;
      spacelist := [];
      ok := false;
      if !EnoughSpace(needed, reserved) {
        return;
      }
      ghost var before := free;
      var blocksfound;
      spacelist, blocksfound := CollectSpace(startblock, needed);
      CollectedSome(free, needed, spacelist);
      if |spacelist| == 0 {
        return;
      }
      SumIsTotal(spacelist);
      var sizes := Eliminate(Sizes(spacelist), blocksfound, needed);
      ThinnedFacts(free, total, perBlock, needed, spacelist, sizes);
      ghost var list := spacelist;
      spacelist := Resized(spacelist, sizes);
      assert Sizes(spacelist) == sizes;
      MarkFragments(spacelist, needed);
      TakenAll(before, free, needed, list, sizes);
      ok := true;
    }
  }

  /** What a scan has collected: free runs apart from each other; one that is enough, or else all free
      blocks there are unless the list is full. */
  ghost predicate Collected(free: seq<bool>, needed: nat, list: seq<Fragment>) {
    && Disjoint(list) && BlocksOf(list) <= FreeSet(free) && |list| <= SPACELIST_MAX
    && (forall i ::
        0 <= i < |list| ==> list[i].block > 0 && list[i].blocks > 0 && AllFree(free, list[i].block, list[i].blocks))
    && (|| (|list| == 1 && list[0].blocks >= needed)
        || ((forall i :: 0 <= i < |list| ==> list[i].blocks < needed)
            && (|list| == SPACELIST_MAX || BlocksOf(list) == FreeSet(free))))
  }

  /** Block b lies in the part that has been scanned when the scan stands at `cur`. */
  predicate Seen(start: nat, cur: nat, wrapped: bool, b: nat) {
    if wrapped then b >= start || b < cur else start <= b < cur
  }

  /** The list holds the free blocks seen. */
  ghost predicate Gathered(free: seq<bool>, start: nat, cur: nat, wrapped: bool, needed: nat, list: seq<Fragment>) {
    && Disjoint(list) && (wrapped ==> cur <= start) && (!wrapped ==> start <= cur) && start < |free| && !free[0]
    && (forall b: nat :: b in BlocksOf(list) <==> IsFree(free, b) && Seen(start, cur, wrapped, b))
    && forall i :: 0 <= i < |list| ==>
         list[i].block > 0 && 0 < list[i].blocks < needed && AllFree(free, list[i].block, list[i].blocks)
  }

  /** A scan from `start` on comes to block a before it comes to block b. */
  predicate Ahead(start: nat, a: nat, b: nat) {
    if a >= start then b > a || b < start else a < b < start
  }

  ghost predicate InScanOrder(start: nat, list: seq<Fragment>) {
    forall k, l :: 0 <= k < l < |list| ==> Ahead(start, list[k].block, list[l].block)
  }

  /** If there are runs of so many free blocks, the list is the first one that the scan comes to, unless it
      was full before. */
  ghost predicate FirstEnough(free: seq<bool>, start: nat, needed: nat, list: seq<Fragment>) {
    if |list| == 1 && list[0].blocks >= needed then
      forall q: nat :: AllFree(free, q, needed) ==> q == list[0].block || Ahead(start, list[0].block, q)
    else
      |list| == 1000 || forall q: nat :: !AllFree(free, q, needed)
  }

  /** The fragments were found in this order, and no run of so many free blocks starts in the part that has
      been scanned. */
  ghost predicate Passed(free: seq<bool>, start: nat, cur: nat, wrapped: bool, needed: nat, list: seq<Fragment>) {
    && (wrapped ==> cur <= start) && (!wrapped ==> start <= cur) && InScanOrder(start, list)
    && (forall i :: 0 <= i < |list| ==> Seen(start, cur, wrapped, list[i].block) && list[i].blocks < needed)
    && forall q: nat :: Seen(start, cur, wrapped, q) ==> !AllFree(free, q, needed)
  }

  lemma PassedNothing(free: seq<bool>, start: nat, needed: nat)
    ensures Passed(free, start, start, false, needed, [])
  {
  }

  lemma PassedMore(free: seq<bool>, start: nat, cur: nat, wrapped: bool, needed: nat, list: seq<Fragment>, n: nat,
                    m: nat)
    requires Passed(free, start, cur, wrapped, needed, list) && 0 < m <= n < needed && (wrapped ==> cur + m <= start)
    requires cur + n == |free| || (cur + n < |free| && !free[cur + n])
    ensures Passed(free, start, cur + m, wrapped, needed, list + [Fragment(cur, m)])
  {
    forall q: nat | cur <= q < cur + m ensures !AllFree(free, q, needed) {
      assert q <= cur + n < q + needed;
    }
  }

  lemma PassedUsed(free: seq<bool>, start: nat, cur: nat, wrapped: bool, needed: nat, list: seq<Fragment>, a: nat)
    requires Passed(free, start, cur, wrapped, needed, list) && AllUsed(free, cur, cur + a) && needed > 0
    ensures (!wrapped || cur + a <= start) ==> Passed(free, start, cur + a, wrapped, needed, list)
    ensures wrapped && cur + a >= start ==> Passed(free, start, start, wrapped, needed, list)
  {
    hide InScanOrder;
    forall q: nat | cur <= q < cur + a ensures !AllFree(free, q, needed) {
      assert !free[q];
    }
  }

  lemma PassedTurns(free: seq<bool>, total: nat, perBlock: nat, start: nat, cur: nat, needed: nat, list: seq<Fragment>)
    requires Passed(free, start, cur, false, needed, list) && IsMap(free, total, perBlock) && cur >= total
    requires needed > 0
    ensures Passed(free, start, 0, true, needed, list)
    ensures start == 0 && |list| <= SPACELIST_MAX ==> InScanOrder(start, list) && FirstEnough(free, start, needed, list)
  {
    hide InScanOrder;
    forall q: nat | q >= total ensures !AllFree(free, q, needed) {
      assert q < |free| ==> !free[q];
    }
  }

  lemma PassedOne(free: seq<bool>, start: nat, cur: nat, wrapped: bool, needed: nat, list: seq<Fragment>, n: nat)
    requires Passed(free, start, cur, wrapped, needed, list) && n >= needed && (wrapped ==> cur < start)
    ensures InScanOrder(start, [Fragment(cur, n)]) && FirstEnough(free, start, needed, [Fragment(cur, n)])
  {
  }

  lemma PassedAll(free: seq<bool>, start: nat, cur: nat, wrapped: bool, needed: nat, list: seq<Fragment>)
    requires Passed(free, start, cur, wrapped, needed, list) && cur == start && wrapped
    ensures InScanOrder(start, list) && FirstEnough(free, start, needed, list)
  {
    hide InScanOrder;
  }

  lemma PassedFull(free: seq<bool>, start: nat, cur: nat, wrapped: bool, needed: nat, list: seq<Fragment>)
    requires Passed(free, start, cur, wrapped, needed, list) && |list| == SPACELIST_MAX
    ensures InScanOrder(start, list) && FirstEnough(free, start, needed, list)
  {
    hide InScanOrder;
  }

  lemma ScanBegins(free: seq<bool>, start: nat, needed: nat)
    requires start < |free| && !free[0]
    ensures Gathered(free, start, start, false, needed, []) && Total([]) == 0
  {
  }

  lemma OneRun(free: seq<bool>, needed: nat, block: nat, n: nat)
    requires AllFree(free, block, n) && n >= needed && n > 0 && !free[0]
    ensures Collected(free, needed, [Fragment(block, n)]) && Total([Fragment(block, n)]) == n
  {
    var f := Fragment(block, n);
    assert [f][..0] == [] && BlocksOf([f][..0]) == {} && Total([f][..0]) == 0;
    assert BlocksOf([f]) == Range(block, n);
    RangeSize(block, n);
    FreeRange(free, block, n);
  }

  /** A free run of n blocks, of which m are taken, is put in the list. */
  lemma Gather(free: seq<bool>, start: nat, cur: nat, wrapped: bool, needed: nat, list: seq<Fragment>, n: nat, m: nat)
    requires Gathered(free, start, cur, wrapped, needed, list) && AllFree(free, cur, n)
    requires 0 < m <= n < needed && (m < n ==> wrapped) && (wrapped ==> cur + m <= start)
    ensures Gathered(free, start, cur + m, wrapped, needed, list + [Fragment(cur, m)])
  {
    hide BlocksOf, Range, Disjoint;
    var f := Fragment(cur, m);
    RangeHas(cur, m);
    SnocDisjoint(list, f);
    assert cur > 0 by { assert free[cur]; }
    forall b: nat ensures b in BlocksOf(list + [f]) <==> IsFree(free, b) && Seen(start, cur + m, wrapped, b) {
      GatherBlock(free, start, cur, wrapped, list, m, b);
    }
  }

  /** A block is in the list just if it is free and has been seen. */
  lemma GatherBlock(free: seq<bool>, start: nat, cur: nat, wrapped: bool, list: seq<Fragment>, m: nat, b: nat)
    requires b in BlocksOf(list) <==> IsFree(free, b) && Seen(start, cur, wrapped, b)
    requires AllFree(free, cur, m) && (wrapped ==> cur + m <= start) && (!wrapped ==> start <= cur)
    ensures b in BlocksOf(list + [Fragment(cur, m)]) <==> IsFree(free, b) && Seen(start, cur + m, wrapped, b)
  {
    hide BlocksOf, Range;
    Snoc(list, Fragment(cur, m));
    InRange(cur, m, b);
    if cur <= b < cur + m { FreeAt(free, cur, m, b); }
  }

  lemma GatherNothing(free: seq<bool>, start: nat, cur: nat, wrapped: bool, needed: nat, list: seq<Fragment>, n: nat)
    ensures n == 0 && Gathered(free, start, cur, wrapped, needed, list)
        ==> Gathered(free, start, cur + n, wrapped, needed, list)
  {
  }

  lemma GatherUsed(free: seq<bool>, start: nat, cur: nat, wrapped: bool, needed: nat, list: seq<Fragment>, a: nat)
    requires Gathered(free, start, cur, wrapped, needed, list) && AllUsed(free, cur, cur + a)
    ensures (!wrapped || cur + a <= start) ==> Gathered(free, start, cur + a, wrapped, needed, list)
    ensures wrapped && cur + a >= start ==> Gathered(free, start, start, wrapped, needed, list)
  {
    hide BlocksOf;
    forall b: nat | cur <= b < cur + a ensures !IsFree(free, b) { }
  }

  /** The scan has come round to where it started. */
  lemma GatheredAll(free: seq<bool>, start: nat, cur: nat, total: nat, needed: nat, list: seq<Fragment>)
    requires Gathered(free, start, start, true, needed, list) && |list| <= SPACELIST_MAX
    ensures Collected(free, needed, list)
  {
    hide BlocksOf;
    InFreeSet(free);
    assert BlocksOf(list) == FreeSet(free);
  }

  lemma FullList(free: seq<bool>, start: nat, cur: nat, wrapped: bool, needed: nat, list: seq<Fragment>)
    requires Gathered(free, start, cur, wrapped, needed, list) && |list| == SPACELIST_MAX
    ensures Collected(free, needed, list)
  {
    hide BlocksOf;
    InFreeSet(free);
  }

  /** Behind the last block the scan goes on with the first one. */
  lemma GatherTurns(free: seq<bool>, total: nat, perBlock: nat, start: nat, cur: nat, needed: nat, list: seq<Fragment>)
    requires Gathered(free, start, cur, false, needed, list) && IsMap(free, total, perBlock) && cur >= total
    ensures Gathered(free, start, 0, true, needed, list)
    ensures start == 0 && |list| <= SPACELIST_MAX ==> Collected(free, needed, list)
  {
    hide BlocksOf;
    InFreeSet(free);
    forall b: nat | IsFree(free, b) ensures b < total { }
    if start == 0 {
      assert BlocksOf(list) == FreeSet(free);
    }
  }

  lemma NextIsUsed(free: seq<bool>, total: nat, perBlock: nat, block: nat, n: nat, needed: nat)
    requires IsMap(free, total, perBlock) && block < total && needed > 0
    requires n < needed ==> block + n == |free| || (block + n < |free| && !free[block + n])
    ensures n == 0 ==> !free[block]
  {
  }

  lemma NextIsFree(free: seq<bool>, total: nat, perBlock: nat, block: nat, a: nat)
    requires IsMap(free, total, perBlock) && block < total
    requires a < perBlock * 2 ==> block + a == |free| || (block + a < |free| && free[block + a])
    ensures a == 0 ==> free[block]
  {
  }

  /** Bit j of bitmap block i stands for this block. */
  function BlockAt(i: nat, j: nat, perBlock: nat): nat {
    i * perBlock + j
  }

  lemma BlockAtInside(i: nat, j: nat, perBlock: nat, n: nat)
    requires i < n && j < perBlock
    ensures BlockAt(i, j, perBlock) < n * perBlock
    ensures IndexOf(BlockAt(i, j, perBlock), perBlock) == i && OffsetOf(BlockAt(i, j, perBlock), perBlock) == j
  {
    LinearIndex(i, n - 1, perBlock);
    DivideAt(i * perBlock + j, perBlock, i);
  }

  /** Every block has its bit. */
  lemma BlockOfBit(b: nat, perBlock: nat, n: nat)
    requires perBlock > 0 && b < n * perBlock
    ensures IndexOf(b, perBlock) < n && OffsetOf(b, perBlock) < perBlock
    ensures BlockAt(IndexOf(b, perBlock), OffsetOf(b, perBlock), perBlock) == b
  {
    BlockOf(n, b, perBlock);
  }

  /** The bits behind the last block of the partition are clear. */
  ghost predicate RestClear(bitmaps: seq<seq<bool>>, total: nat, perBlock: nat)
    requires forall i :: 0 <= i < |bitmaps| ==> |bitmaps[i]| == perBlock
  {
    forall i: nat, j: nat :: (i < |bitmaps| && j < perBlock && BlockAt(i, j, perBlock) >= total) ==> !bitmaps[i][j]
  }

  /** The bits of all bitmap blocks, one behind the other. */
  function JoinedBits(bitmaps: seq<seq<bool>>, total: nat, perBlock: nat): (free: seq<bool>)
    requires total > 0 && perBlock > 0 && |bitmaps| == LastOf(total, perBlock) + 1
    requires forall i :: 0 <= i < |bitmaps| ==> |bitmaps[i]| == perBlock
    requires RestClear(bitmaps, total, perBlock)
    ensures IsMap(free, total, perBlock)
    ensures forall i: nat, j: nat :: i < |bitmaps| && j < perBlock ==>
      BlockAt(i, j, perBlock) < |free| && free[BlockAt(i, j, perBlock)] == bitmaps[i][j]
  {
    var n := |bitmaps|;
    assert total <= n * perBlock by { EnoughBits(total, perBlock); }
    var free := seq(n * perBlock, b requires 0 <= b < n * perBlock =>
      BlockOfBit(b, perBlock, n); bitmaps[IndexOf(b, perBlock)][OffsetOf(b, perBlock)]);
    assert forall b: nat :: total <= b < n * perBlock ==> !free[b] by {
      forall b: nat | total <= b < n * perBlock ensures !free[b] { BlockOfBit(b, perBlock, n); }
    }
    assert forall i: nat, j: nat :: i < n && j < perBlock ==>
      BlockAt(i, j, perBlock) < |free| && free[BlockAt(i, j, perBlock)] == bitmaps[i][j] by {
      forall i: nat, j: nat | i < n && j < perBlock
        ensures BlockAt(i, j, perBlock) < |free| && free[BlockAt(i, j, perBlock)] == bitmaps[i][j]
      {
        BlockAtInside(i, j, perBlock, n);
      }
    }
    free
  }

  lemma EnoughBits(total: nat, perBlock: nat)
    requires total > 0 && perBlock > 0
    ensures total <= (LastOf(total, perBlock) + 1) * perBlock
  {
    BlockOf(LastOf(total, perBlock) + 1, total - 1, perBlock);
  }

  /** Sets n bits from `offset` on to v, or as many as there are (`bmset` and `bmclr`). */
  method FillBits(bits: seq<bool>, offset: nat, n: nat, v: bool) returns (r: seq<bool>, done: nat)
    requires offset <= |bits|
    ensures |r| == |bits| && done == (if n < |bits| - offset then n else |bits| - offset)
    ensures forall i :: 0 <= i < |bits| ==> r[i] == if offset <= i < offset + done then v else bits[i]
  {
    r, done := bits, 0;
    while done < n && offset + done < |bits|
      invariant done <= n && offset + done <= |bits| == |r|
      invariant forall i :: 0 <= i < |bits| ==> r[i] == if offset <= i < offset + done then v else bits[i]
    {
      r := r[offset + done := v];
      done := done + 1;
    }
  }

  lemma CountStarts(m: SpaceMap, block: nat)
    requires m.Valid() && block < m.total
    ensures m.perBlock > 0 && m.total <= |m.free|
    ensures IndexOf(block, m.perBlock) <= LastOf(m.total, m.perBlock)
    ensures OffsetOf(block, m.perBlock) < m.perBlock && OffsetOf(block, m.perBlock) <= block
    ensures IsAt(IndexOf(block, m.perBlock), block - OffsetOf(block, m.perBlock), m.perBlock)
  {
    StartUp(block, m.perBlock, m.total, m.total);
  }

  /** The bits of one bitmap block are replaced. */
  lemma WindowFilled(free: seq<bool>, start: nat, bits: seq<bool>, filled: seq<bool>, offset: nat, done: nat, v: bool)
    requires IsWindow(free, start, bits) && |filled| == |bits| && offset + done <= |bits|
    requires forall i :: 0 <= i < |bits| ==> filled[i] == if offset <= i < offset + done then v else bits[i]
    ensures start + |bits| <= |free|
    ensures var r := free[..start] + filled + free[start + |bits|..];
      && |r| == |free|
      && forall i :: 0 <= i < |free| ==> r[i] == if start + offset <= i < start + offset + done then v else free[i]
  {
    forall i | start <= i < start + |bits| ensures bits[i - start] == free[i] { }
  }

  lemma RunInside(free: seq<bool>, total: nat, perBlock: nat, block: nat, n: nat)
    requires IsMap(free, total, perBlock) && AllFree(free, block, n) && block < total
    ensures block + n <= total
  {
    FreeAt(free, block, n, total);
  }

  lemma StillMap(free: seq<bool>, free': seq<bool>, total: nat, perBlock: nat)
    requires IsMap(free, total, perBlock) && |free'| == |free|
    requires forall i :: total <= i < |free| ==> free'[i] == free[i]
    ensures IsMap(free', total, perBlock)
  {
  }

  lemma AllCounted(m: SpaceMap, index: nat, end: nat)
    requires m.Valid() && index == LastOf(m.total, m.perBlock) + 1 && IsAt(index, end, m.perBlock)
    ensures end == |m.free|
  {
  }

  /** The bitmap block for a block of the partition is in the bitmap. */
  lemma IndexInside(m: SpaceMap, index: nat, start: nat, end: nat)
    requires m.Valid() && IsAt(index, start, m.perBlock) && start < m.total
    ensures index <= LastOf(m.total, m.perBlock) && start + m.perBlock <= |m.free|
  {
    BlockOf(index, m.total - 1, m.perBlock);
    LinearIndex(index, LastOf(m.total, m.perBlock), m.perBlock);
  }

  lemma SetSizes(a: set<nat>, b: set<nat>)
    requires b <= a
    ensures |a - b| == |a| - |b|
  {
    assert a == (a - b) + b;
  }

  lemma FilledSet(free: seq<bool>, free': seq<bool>, block: nat, n: nat, v: bool)
    requires |free'| == |free| && block + n <= |free|
    requires forall i :: 0 <= i < |free| ==> free'[i] == if block <= i < block + n then v else free[i]
    ensures FreeSet(free') == if v then FreeSet(free) + Range(block, n) else FreeSet(free) - Range(block, n)
  {
    RangeHas(block, n);
    InFreeSet(free);
    InFreeSet(free');
  }

  /** A call of `smartfindandmarkspace` comes to an end: there is not enough space, or the elimination
      ends for the list that it collects.  All its other loops are bounded by the bitmap or the list. */
  ghost predicate CallEnds(m: SpaceMap, startblock: nat, needed: nat, reserved: nat)
    requires m.Valid() && reserved <= WRAP
    reads m
  {
    m.EnoughSpace(needed, reserved) ==> ComesToAnEnd(m.Map(), startblock, needed)
  }

  lemma SmartEnds(m: SpaceMap, startblock: nat, needed: nat, reserved: nat)
    requires m.Valid() && startblock < m.total && needed > 0 && reserved <= WRAP
    ensures CallEnds(m, startblock, needed, reserved)
       <==> (m.EnoughSpace(needed, reserved) ==> NotTooLarge(m.Map(), startblock, needed))
    ensures m.perBlock <= LARGE && needed <= LARGE + 1 ==> CallEnds(m, startblock, needed, reserved)
  {
    hide ComesToAnEnd, NotTooLarge, IsMap;
    EndsJustIf(m.Map(), startblock, needed);
    if m.perBlock <= LARGE && needed <= LARGE + 1 {
      ModestEnds(m.Map(), startblock, needed);
    }
  }

  const ALWAYSFREE := 3

  /** The list holds the fragments found from `startblock` on, without the small ones that could be
      spared. */
  ghost predicate Chosen(d: Partition, startblock: nat, needed: nat, list: seq<Fragment>)
    requires d.Valid()
  {
    var found := Collects(d, startblock, needed);
    && |list| == |found| && (forall i :: 0 <= i < |list| ==> list[i].block == found[i].block)
    && Thinned(Sizes(found), needed, Sizes(list))
  }

  /** What a successful call has done: it marked fragments that were free and are apart, at least one
      block of each and `needed` blocks in all, or all free blocks there were if the list holds
      them. */
  ghost predicate Taken(free: seq<bool>, needed: nat, list: seq<Fragment>, free': seq<bool>) {
    var marked := Cut(list, needed);
    && |list| <= SPACELIST_MAX && Disjoint(marked) && BlocksOf(marked) <= FreeSet(free)
    && FreeSet(free') == FreeSet(free) - BlocksOf(marked) && CutBack(list, marked)
    && 0 < Total(marked) <= needed
    && (Total(marked) < needed && |list| < SPACELIST_MAX ==> FreeSet(free') == {})
    && (forall n :: 0 <= n < |list| && list[n].blocks > 0 ==> marked[n].blocks > 0)
  }

  lemma NothingCut(list: seq<Fragment>, needed: nat)
    ensures Cut(list[..0], needed) == [] && Total([]) == 0 && BlocksOf([]) == {}
  {
  }

  /** The next fragment is still free. */
  lemma CutNext(before: seq<bool>, free: seq<bool>, list: seq<Fragment>, needed: nat, n: nat)
    requires n < |list| && Disjoint(list) && BlocksOf(list) <= FreeSet(before)
    requires FreeSet(free) == FreeSet(before) - BlocksOf(Cut(list[..n], needed))
    requires |free| == |before| && Total(Cut(list[..n], needed)) <= needed && list[n].block + list[n].blocks <= |free|
    ensures var f, room := list[n], needed - Total(Cut(list[..n], needed));
      var size := if f.blocks < room then f.blocks else room;
      && AllFree(free, f.block, size)
      && Total(Cut(list[..n + 1], needed)) == Total(Cut(list[..n], needed)) + size
      && BlocksOf(Cut(list[..n + 1], needed)) == BlocksOf(Cut(list[..n], needed)) + Range(f.block, size)
      && (size == 0 ==> Range(f.block, size) == {})
  {
    hide Total, BlocksOf, Cut, Range, FreeSet, Disjoint;
    var f, room := list[n], needed - Total(Cut(list[..n], needed));
    var size := if f.blocks < room then f.blocks else room;
    CutStep(list, needed, n);
    Snoc(Cut(list[..n], needed), Fragment(f.block, size));
    CutInside(list[..n], needed);
    PrefixApart(list, n);
    RangeHas(f.block, size);
    RangeHas(f.block, f.blocks);
    PartOf(list, n);
    InFreeSet(free);
    forall i | f.block <= i < f.block + size ensures i < |free| && free[i] {
      assert i in Range(f.block, f.blocks);
      assert i in FreeSet(free);
    }
    assert AllFree(free, f.block, size);
  }

  lemma PrefixApart(list: seq<Fragment>, n: nat)
    requires n < |list| && Disjoint(list)
    ensures BlocksOf(list[..n]) !! Range(list[n].block, list[n].blocks)
  {
    hide Range;
    DisjointPrefix(list, n + 1);
    assert list[..n + 1] == list[..n] + [list[n]];
    Snoc(list[..n], list[n]);
    AtMost(list[..n]);
    RangeSize(list[n].block, list[n].blocks);
    UnionSize(BlocksOf(list[..n]), Range(list[n].block, list[n].blocks));
  }

  lemma {:induction false} DisjointPrefix(list: seq<Fragment>, k: nat)
    requires k <= |list| && Disjoint(list)
    ensures Disjoint(list[..k])
    decreases |list|
  {
    hide Range;
    if k == |list| {
      assert list[..k] == list;
    } else {
      var before, f := list[..|list| - 1], list[|list| - 1];
      assert list == before + [f];
      Snoc(before, f);
      AtMost(before);
      RangeSize(f.block, f.blocks);
      UnionSize(BlocksOf(before), Range(f.block, f.blocks));
      DisjointPrefix(before, k);
      assert before[..k] == list[..k];
    }
  }

  /** A list is empty only if nothing is free. */
  lemma CollectedSome(free: seq<bool>, needed: nat, list: seq<Fragment>)
    requires Collected(free, needed, list)
    ensures |list| == 0 <==> FreeSet(free) == {}
  {
    if |list| > 0 {
      FreeAt(free, list[0].block, list[0].blocks, list[0].block);
      InFreeSet(free);
    } else {
      assert BlocksOf(list) == {};
    }
  }

  lemma ThinnedFacts(free: seq<bool>, total: nat, perBlock: nat, needed: nat, list: seq<Fragment>, sizes: seq<nat>)
    requires Collected(free, needed, list) && Thinned(Sizes(list), needed, sizes) && IsMap(free, total, perBlock)
    ensures var r := Resized(list, sizes);
      && Disjoint(r) && BlocksOf(r) <= FreeSet(free)
      && forall i :: 0 <= i < |r| ==> r[i].block < total && r[i].block + r[i].blocks <= total
  {
    hide BlocksOf, Total, FreeSet, IsMap;
    ResizedInside(list, sizes);
    MapFacts(free, total, perBlock);
    forall i | 0 <= i < |list| ensures list[i].block < total && list[i].block + sizes[i] <= total {
      assert sizes[i] == Sizes(list)[i] || sizes[i] == 0;
      InsideMap(free, total, perBlock, list[i].block, list[i].blocks);
    }
  }

  lemma InsideMap(free: seq<bool>, total: nat, perBlock: nat, q: nat, n: nat)
    requires IsMap(free, total, perBlock) && AllFree(free, q, n) && n > 0
    ensures q < total && q + n <= total
  {
    FreeAt(free, q, n, q + n - 1);
    FreeAt(free, q, n, q);
  }

  lemma TakenAll(free: seq<bool>, free': seq<bool>, needed: nat, list: seq<Fragment>, sizes: seq<nat>)
    requires Collected(free, needed, list) && |list| > 0 && Thinned(Sizes(list), needed, sizes) && needed > 0
    requires FreeSet(free') == FreeSet(free) - BlocksOf(Cut(Resized(list, sizes), needed))
    ensures Taken(free, needed, Resized(list, sizes), free')
    ensures |list| < SPACELIST_MAX && |FreeSet(free)| >= needed ==> Total(Cut(Resized(list, sizes), needed)) == needed
  {
    hide BlocksOf, Total, FreeSet, Disjoint, Cut, CutBack, Sum;
    var r := Resized(list, sizes);
    SumIsTotal(list);
    ResizedInside(list, sizes);
    CutTotal(r, needed);
    CutInside(r, needed);
    CutIsBack(r, needed);
    forall n: nat | n < |list| && r[n].blocks > 0 ensures Cut(r, needed)[n].blocks > 0 {
      CutUsesAll(list, sizes, needed, n);
    }
    TotalWithout(list, 0);
    if Total(list) < needed {
      SameSizes(list, sizes);
      CutNot(list, needed);
      assert |list| == 1 ==> list[0].blocks < needed;
      if |list| < SPACELIST_MAX {
        assert BlocksOf(list) == FreeSet(free);
        assert Disjoint(list);
        DisjointSize(list);
      }
    }
  }

  lemma DisjointSize(list: seq<Fragment>)
    requires Disjoint(list)
    ensures |BlocksOf(list)| == Total(list)
  {
  }

  lemma SameSizes(list: seq<Fragment>, sizes: seq<nat>)
    requires sizes == Sizes(list)
    ensures Resized(list, sizes) == list
  {
  }
}
