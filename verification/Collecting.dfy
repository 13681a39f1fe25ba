/** What the first loop of smartfindandmarkspace of FS/bitmap.c collects, as a function of the bitmap,
    and when the loops after it end. */
module Collecting {
  import opened Space
  import opened Fragments

  const SPACELIST_MAX := 1000

  // ----- Counting

  /** Length of the run of bits v from `at` on. */
  function RunFrom(free: seq<bool>, at: nat, v: bool): (n: nat)
    requires at <= |free|
    ensures at + n <= |free| && (at + n == |free| || free[at + n] != v)
    ensures forall i :: at <= i < at + n ==> free[i] == v
  {
    var k := FirstBit(free, at, !v);
    if k < 0 then |free| - at else k - at
  }

  /** End of the bitmap block in which a count of `maxneeded` blocks from `block` on is reached. */
  function CountEnd(block: nat, maxneeded: nat, perBlock: nat): nat
    requires perBlock > 0
  {
    (LastOf(block + AtLeastOne(maxneeded), perBlock) + 1) * perBlock
  }

  function AtLeastOne(n: nat): nat { if n == 0 then 1 else n }

  /** What availablespace (v is true) or allocatedspace (v is false) returns. */
  function CountOf(free: seq<bool>, perBlock: nat, block: nat, maxneeded: nat, v: bool): nat
    requires perBlock > 0 && block <= |free|
  {
    CountEnds(block, maxneeded, perBlock);
    var run, most := RunFrom(free, block, v), CountEnd(block, maxneeded, perBlock) - block;
    if run < most then run else most
  }

  /** A count goes on to the end of the bitmap block in which it is reached. */
  lemma CountEnds(block: nat, maxneeded: nat, perBlock: nat)
    requires perBlock > 0
    ensures var e := block + AtLeastOne(maxneeded);
      e <= CountEnd(block, maxneeded, perBlock) < e + perBlock
  {
    var e := block + AtLeastOne(maxneeded);
    var q := LastOf(e, perBlock);
    BlockOf(q, e - 1, perBlock);
    BlockOf(q + 1, e - 1, perBlock);
    assert (q + 1) * perBlock == q * perBlock + perBlock;
  }

  /** A count is right, and larger than wanted by less than the bits of a bitmap block. */
  lemma CountFacts(free: seq<bool>, perBlock: nat, block: nat, maxneeded: nat, v: bool)
    requires perBlock > 0 && block <= |free|
    ensures var n := CountOf(free, perBlock, block, maxneeded, v);
      && block + n <= |free| && n < AtLeastOne(maxneeded) + perBlock
      && (forall i :: block <= i < block + n ==> free[i] == v)
      && (n < maxneeded ==> block + n == |free| || free[block + n] != v)
      && (block < |free| && free[block] == v ==> n > 0)
  {
    hide CountEnd, FirstBit;
    CountEnds(block, maxneeded, perBlock);
  }

  /** The bitmap block from `start` on is the last one that a count looks at. */
  lemma EndsHere(perBlock: nat, block: nat, maxneeded: nat, index: nat, start: nat)
    requires perBlock > 0 && IsAt(index, start, perBlock) && start < block + AtLeastOne(maxneeded)
    ensures start + perBlock <= CountEnd(block, maxneeded, perBlock)
    ensures block + AtLeastOne(maxneeded) <= start + perBlock
        ==> CountEnd(block, maxneeded, perBlock) == start + perBlock
  {
    var e := block + AtLeastOne(maxneeded);
    var q := LastOf(e, perBlock);
    BlockOf(index, e - 1, perBlock);
    BlockOf(index + 1, e - 1, perBlock);
    assert (index + 1) * perBlock == index * perBlock + perBlock;
    LinearIndex(index, q, perBlock);
  }

  /** A count ends at the first other bit. */
  lemma CountInside(free: seq<bool>, perBlock: nat, block: nat, maxneeded: nat, v: bool, index: nat, start: nat, e: nat)
    requires perBlock > 0 && IsAt(index, start, perBlock) && start < block + AtLeastOne(maxneeded)
    requires block <= e < start + perBlock && e < |free| && free[e] != v && forall i :: block <= i < e ==> free[i] == v
    ensures CountOf(free, perBlock, block, maxneeded, v) == e - block
  {
    hide CountEnd, FirstBit, IsAt;
    EndsHere(perBlock, block, maxneeded, index, start);
    CountEnds(block, maxneeded, perBlock);
    assert RunFrom(free, block, v) == e - block;
  }

  /** A count ends with the bitmap block in which it is reached. */
  lemma CountAtEnd(free: seq<bool>, perBlock: nat, block: nat, maxneeded: nat, v: bool, index: nat, start: nat)
    requires perBlock > 0 && IsAt(index, start, perBlock) && start < block + AtLeastOne(maxneeded)
    requires block + AtLeastOne(maxneeded) <= start + perBlock <= |free|
    requires forall i :: block <= i < start + perBlock ==> free[i] == v
    ensures CountOf(free, perBlock, block, maxneeded, v) == start + perBlock - block
  {
    hide CountEnd, FirstBit, IsAt;
    EndsHere(perBlock, block, maxneeded, index, start);
    CountEnds(block, maxneeded, perBlock);
    assert RunFrom(free, block, v) >= start + perBlock - block;
  }

  /** A count ends with the bitmap. */
  lemma CountAll(free: seq<bool>, perBlock: nat, block: nat, maxneeded: nat, v: bool)
    requires perBlock > 0 && block <= |free| && |free| - block < AtLeastOne(maxneeded)
    requires forall i :: block <= i < |free| ==> free[i] == v
    ensures CountOf(free, perBlock, block, maxneeded, v) == |free| - block
  {
    hide CountEnd, FirstBit;
    CountEnds(block, maxneeded, perBlock);
    assert RunFrom(free, block, v) == |free| - block;
  }

  // ----- Collecting

  /** The bits of a partition as the search for fragments sees them. */
  datatype Partition = Partition(free: seq<bool>, total: nat, perBlock: nat) {
    predicate Valid() { perBlock > 0 && 0 < total <= |free| }
  }

  /** The list that a search for `needed` blocks from `start` comes to from block `block` on, with
      `list` collected so far.  The search is over when the list is full, when one run is enough by
      itself, or when it comes round to `start`. */
  function Collection(d: Partition, start: nat, needed: nat, block: nat, wrapped: bool,
                      list: seq<Fragment>): seq<Fragment>
    requires d.Valid()
    decreases if wrapped then start - block else (if block < d.total then d.total - block else 0) + start + 1
  {
    if |list| >= SPACELIST_MAX || (wrapped && block >= start) then list
    else if block >= d.total then
      if wrapped then list else Collection(d, start, needed, 0, true, list)
    else if !d.free[block] then Collection(d, start, needed, block + 1, wrapped, list)
    else
      CountFacts(d.free, d.perBlock, block, needed, true);
      var n := CountOf(d.free, d.perBlock, block, needed, true);
      if n >= needed then [Fragment(block, n)]
      else if wrapped && block + n >= start then list + [Fragment(block, start - block)]
      else Collection(d, start, needed, block + n, wrapped, list + [Fragment(block, n)])
  }

  /** The whole list. */
  function Collects(d: Partition, start: nat, needed: nat): seq<Fragment>
    requires d.Valid()
  {
    Collection(d, start, needed, start, false, [])
  }

  /** Used blocks are passed over. */
  lemma {:induction false} PassUsed(d: Partition, start: nat, needed: nat, block: nat, wrapped: bool,
                                    list: seq<Fragment>, end: nat)
    requires d.Valid() && block <= end <= d.total && (wrapped ==> end <= start)
    requires forall i :: block <= i < end ==> !d.free[i]
    ensures Collection(d, start, needed, block, wrapped, list) == Collection(d, start, needed, end, wrapped, list)
    decreases end - block
  {
    if block < end { PassUsed(d, start, needed, block + 1, wrapped, list, end); }
  }

  /** A count of used blocks is passed over; it may reach beyond the end of the partition, or beyond
      where the search began. */
  lemma PassCount(d: Partition, start: nat, needed: nat, block: nat, wrapped: bool, list: seq<Fragment>, a: nat)
    requires d.Valid() && block < d.total && start < d.total && (wrapped ==> block < start)
    requires AllUsed(d.free, block, block + a)
    ensures wrapped && block + a >= start ==> Collection(d, start, needed, block, wrapped, list) == list
    ensures !(wrapped && block + a >= start) ==>
      Collection(d, start, needed, block, wrapped, list) == Collection(d, start, needed, block + a, wrapped, list)
  {
    hide CountOf, Collection;
    var end := if wrapped && block + a >= start then start else if block + a > d.total then d.total else block + a;
    PassUsed(d, start, needed, block, wrapped, list, end);
    if wrapped && block + a >= start {
      Over(d, start, needed, start, wrapped, list);
    } else if !wrapped && block + a > d.total {
      Beyond(d, start, needed, block + a, list);
    }
  }

  lemma Beyond(d: Partition, start: nat, needed: nat, block: nat, list: seq<Fragment>)
    requires d.Valid() && block >= d.total
    ensures Collection(d, start, needed, block, false, list) == Collection(d, start, needed, d.total, false, list)
  {
    hide CountOf;
  }

  lemma TakeOne(d: Partition, start: nat, needed: nat, block: nat, wrapped: bool, list: seq<Fragment>)
    requires d.Valid() && block < d.total && d.free[block] && |list| < SPACELIST_MAX && (wrapped ==> block < start)
    ensures var n := CountOf(d.free, d.perBlock, block, needed, true);
      Collection(d, start, needed, block, wrapped, list)
        == if n >= needed then [Fragment(block, n)]
           else if wrapped && block + n >= start then list + [Fragment(block, start - block)]
           else Collection(d, start, needed, block + n, wrapped, list + [Fragment(block, n)])
  {
    hide CountOf;
  }

  lemma Turn(d: Partition, start: nat, needed: nat, block: nat, list: seq<Fragment>)
    requires d.Valid() && block >= d.total
    ensures Collection(d, start, needed, block, false, list) == Collection(d, start, needed, 0, true, list)
    ensures start == 0 ==> Collection(d, start, needed, block, false, list) == list
  {
    hide CountOf;
  }

  lemma Over(d: Partition, start: nat, needed: nat, block: nat, wrapped: bool, list: seq<Fragment>)
    requires d.Valid() && (|list| >= SPACELIST_MAX || (wrapped && block >= start))
    ensures Collection(d, start, needed, block, wrapped, list) == list
  {
  }

  /** Every fragment is smaller than wanted, unless it is the only one and enough by itself; then it
      is larger by less than the bits of a bitmap block. */
  ghost predicate Sizeable(d: Partition, needed: nat, list: seq<Fragment>) {
    || (|list| == 1 && needed <= list[0].blocks < AtLeastOne(needed) + d.perBlock)
    || (forall i :: 0 <= i < |list| ==> list[i].blocks < needed)
  }

  lemma {:induction false} CollectionSizes(d: Partition, start: nat, needed: nat, block: nat, wrapped: bool,
                                           list: seq<Fragment>)
    requires d.Valid() && forall i :: 0 <= i < |list| ==> list[i].blocks < needed
    ensures Sizeable(d, needed, Collection(d, start, needed, block, wrapped, list))
    decreases if wrapped then start - block else (if block < d.total then d.total - block else 0) + start + 1
  {
    hide CountOf;
    if |list| >= SPACELIST_MAX || (wrapped && block >= start) {
    } else if block >= d.total {
      if !wrapped { CollectionSizes(d, start, needed, 0, true, list); }
    } else if !d.free[block] {
      CollectionSizes(d, start, needed, block + 1, wrapped, list);
    } else {
      CountFacts(d.free, d.perBlock, block, needed, true);
      var n := CountOf(d.free, d.perBlock, block, needed, true);
      if n < needed && !(wrapped && block + n >= start) {
        CollectionSizes(d, start, needed, block + n, wrapped, list + [Fragment(block, n)]);
      }
    }
  }

  // ----- When a search for fragments ends

  /** The elimination for the list that is collected ends. */
  ghost predicate ComesToAnEnd(d: Partition, start: nat, needed: nat)
    requires d.Valid()
  {
    var list := Collects(d, start, needed);
    Terminates(Sieve(Sizes(list), Total(list), 1), needed)
  }

  /** The fragments that are too large to be left out are not too many: they have fewer than 0xFFFF
      blocks more than are needed. */
  predicate NotTooLarge(d: Partition, start: nat, needed: nat)
    requires d.Valid()
  {
    Huge(Sizes(Collects(d, start, needed))) < needed + LARGE
  }

  lemma EndsJustIf(d: Partition, start: nat, needed: nat)
    requires d.Valid() && needed > 0
    ensures ComesToAnEnd(d, start, needed) <==> NotTooLarge(d, start, needed)
  {
    hide Huge, Terminates, Collects, Sum, Total;
    var list := Collects(d, start, needed);
    SumIsTotal(list);
    EliminationEnds(Sieve(Sizes(list), Total(list), 1), needed);
  }

  /** With bitmap blocks of at most 0xFFFF bits a search for at most 0x10000 blocks ends. */
  lemma ModestEnds(d: Partition, start: nat, needed: nat)
    requires d.Valid() && 0 < needed <= LARGE + 1 && d.perBlock <= LARGE
    ensures NotTooLarge(d, start, needed)
  {
    hide Collection, Huge, Sum;
    var list := Collects(d, start, needed);
    CollectionSizes(d, start, needed, start, false, []);
    if forall i :: 0 <= i < |list| ==> list[i].blocks < needed {
      NoHuge(Sizes(list));
    } else {
      OneSize(list);
    }
  }

  ghost predicate FragmentsFree(d: Partition, list: seq<Fragment>) {
    forall i :: 0 <= i < |list| ==> AllFree(d.free, list[i].block, list[i].blocks)
  }

  lemma {:induction false} CollectionFree(d: Partition, start: nat, needed: nat, block: nat, wrapped: bool,
                                          list: seq<Fragment>)
    requires d.Valid() && FragmentsFree(d, list)
    ensures FragmentsFree(d, Collection(d, start, needed, block, wrapped, list))
    decreases if wrapped then start - block else (if block < d.total then d.total - block else 0) + start + 1
  {
    hide CountOf;
    if |list| >= SPACELIST_MAX || (wrapped && block >= start) {
    } else if block >= d.total {
      if !wrapped { CollectionFree(d, start, needed, 0, true, list); }
    } else if !d.free[block] {
      CollectionFree(d, start, needed, block + 1, wrapped, list);
    } else {
      CountFacts(d.free, d.perBlock, block, needed, true);
      var n := CountOf(d.free, d.perBlock, block, needed, true);
      if n < needed && !(wrapped && block + n >= start) {
        CollectionFree(d, start, needed, block + n, wrapped, list + [Fragment(block, n)]);
      }
    }
  }

  /** A search ends on a partition without free runs of more than 0xFFFF blocks. */
  lemma ShortRunsEnd(d: Partition, start: nat, needed: nat)
    requires d.Valid() && 0 < needed && forall q, len :: AllFree(d.free, q, len) ==> len <= LARGE
    ensures NotTooLarge(d, start, needed)
  {
    hide Collection, Huge;
    CollectionFree(d, start, needed, start, false, []);
    var list := Collects(d, start, needed);
    forall i | 0 <= i < |list| ensures Sizes(list)[i] <= LARGE {
      assert AllFree(d.free, list[i].block, list[i].blocks);
    }
    NoHuge(Sizes(list));
  }

  /** With bitmap blocks of at most 0xFFFF bits a search ends also if one run is enough. */
  lemma OneRunEnds(d: Partition, start: nat, needed: nat)
    requires d.Valid() && 0 < needed && d.perBlock <= LARGE
    requires |Collects(d, start, needed)| == 1 && Collects(d, start, needed)[0].blocks >= needed
    ensures NotTooLarge(d, start, needed)
  {
    hide Collection, Huge, Sum;
    CollectionSizes(d, start, needed, start, false, []);
    OneSize(Collects(d, start, needed));
  }

  lemma OneSize(list: seq<Fragment>)
    requires |list| == 1
    ensures Huge(Sizes(list)) == if list[0].blocks > LARGE then list[0].blocks else 0
  {
    var sizes := Sizes(list);
    assert sizes[..0] == [];
    assert Huge(sizes) == Huge(sizes[..0]) + if sizes[0] > LARGE then sizes[0] else 0;
  }

  /** When the run at the start is enough, the search ends just if the count of it is less than 0xFFFF
      more than is needed. */
  lemma FirstRunEnds(d: Partition, start: nat, needed: nat)
    requires d.Valid() && start < d.total && d.free[start] && 0 < needed
    requires CountOf(d.free, d.perBlock, start, needed, true) >= needed
    ensures var n := CountOf(d.free, d.perBlock, start, needed, true);
      Collects(d, start, needed) == [Fragment(start, n)] && (ComesToAnEnd(d, start, needed) <==> n < needed + 0xFFFF)
  {
    hide CountOf, ComesToAnEnd, Huge;
    TakeOne(d, start, needed, start, false, []);
    OneSize(Collects(d, start, needed));
    EndsJustIf(d, start, needed);
  }

  // ----- Partitions on which it does not end

  /** A partition with bitmap blocks of 16384 bytes that is all free but for its first block: the
      search for a single block does not end. */
  lemma OneBlockNeverFound() returns (d: Partition)
    ensures d.Valid() && d.perBlock == (16384 - 12) * 8 && IsMap(d.free, d.total, d.perBlock)
    ensures forall b :: 0 <= b < d.total ==> d.free[b] == (b != 0)
    ensures !ComesToAnEnd(d, 1, 1)
  {
    d := Partition(seq(130976, i requires 0 <= i => i != 0), 130976, 130976);
    CountAtEnd(d.free, d.perBlock, 1, 1, true, 0, 0);
    hide CountOf, ComesToAnEnd, Collects;
    FirstRunEnds(d, 1, 1);
  }

  /** A partition with blocks of 512 bytes that has two free runs: the search for more blocks than
      either of them has does not end. */
  lemma TwoRunsNeverEnd() returns (d: Partition)
    ensures d.Valid() && d.perBlock == (512 - 12) * 8 && IsMap(d.free, d.total, d.perBlock) && d.total == 149003
    ensures forall b :: 0 <= b < d.total ==> d.free[b] == (b != 0 && b != 70001 && b != 149002)
    ensures Collects(d, 0, 80000) == [Fragment(1, 70000), Fragment(70002, 79000)] && !ComesToAnEnd(d, 0, 80000)
  {
    var free := seq(152000, i requires 0 <= i => i != 0 && i != 70001 && i < 149002);
    d := Partition(free, 149003, 4000);
    CountInside(free, 4000, 1, 80000, true, 17, 68000, 70001);
    CountInside(free, 4000, 70002, 80000, true, 37, 148000, 149002);
    hide CountOf, ComesToAnEnd, Huge;
    PassUsed(d, 0, 80000, 0, false, [], 1);
    TakeOne(d, 0, 80000, 1, false, []);
    var one := [Fragment(1, 70000)];
    PassUsed(d, 0, 80000, 70001, false, one, 70002);
    TakeOne(d, 0, 80000, 70002, false, one);
    var two := [Fragment(1, 70000), Fragment(70002, 79000)];
    assert [] + one == one && one + [Fragment(70002, 79000)] == two;
    PassUsed(d, 0, 80000, 149002, false, two, 149003);
    Turn(d, 0, 80000, 149003, two);
    TwoSizes(two);
    EndsJustIf(d, 0, 80000);
  }

  lemma TwoSizes(list: seq<Fragment>)
    requires |list| == 2 && list[0].blocks > LARGE && list[1].blocks > LARGE
    ensures Huge(Sizes(list)) == list[0].blocks + list[1].blocks
  {
    var sizes := Sizes(list);
    var first := sizes[..1];
    assert first == [list[0].blocks] && first[..0] == [];
    assert Huge(first) == Huge(first[..0]) + first[0];
    assert Huge(sizes) == Huge(first) + sizes[1];
  }
}
