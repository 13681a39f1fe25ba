/** The free-space search of FS/bitmap.c over a bitmap that is spread over several blocks. */
module Space {

  /** [q, q + len) is free. */
  ghost predicate AllFree(free: seq<bool>, q: int, len: int) {
    0 <= q <= q + len <= |free| && forall i :: q <= i < q + len ==> free[i]
  }

  /** [lo, hi) is in use. */
  ghost predicate AllUsed(free: seq<bool>, lo: int, hi: int) {
    0 <= lo && hi <= |free| && forall i :: lo <= i < hi ==> !free[i]
  }

  /** `bits` are the bits of `free` from `block`. */
  ghost predicate IsWindow(free: seq<bool>, block: nat, bits: seq<bool>) {
    block + |bits| <= |free| && bits == free[block..block + |bits|]
  }

  /** Index of the first bit equal to `v` at or after `from`, or -1 (BMFFO for true, BMFFZ for
      false). */
  function FirstBit(bits: seq<bool>, from: nat, v: bool): (k: int)
    requires from <= |bits|
    ensures k == -1 || from <= k < |bits|
    ensures k >= 0 ==> bits[k] == v
    ensures forall i :: from <= i < (if k < 0 then |bits| else k) ==> bits[i] != v
    decreases |bits| - from
  {
    if from == |bits| then -1 else if bits[from] == v then from else FirstBit(bits, from + 1, v)
  }

  // ----- What a search promises

  /** End (exclusive) of the part of the search area that starts at `start`. */
  function FirstBreak(start: nat, end: nat, total: nat): nat {
    if start < end then end else total
  }

  /** The run [q, q + len) lies in the search area without crossing the end of the partition:
      from `start` up to `end`, or round the end of the partition when end <= start. */
  ghost predicate InArea(start: nat, end: nat, total: nat, q: int, len: int) {
    || (start <= q && q + len <= FirstBreak(start, end, total))
    || (end <= start && 0 <= q && q + len <= end)
  }

  /** Position q is searched before position r. */
  ghost predicate Before(start: nat, q: int, r: int) {
    if start <= q then q < r || r < start else r < start && q < r
  }

  /** [block, block + blocks) is the answer to a search for `maxneeded` blocks: the first free
      run of that many, or else the first of the longest free runs. */
  ghost predicate Found(free: seq<bool>, maxneeded: nat, start: nat, end: nat, total: nat, block: nat, blocks: nat) {
    && blocks <= maxneeded
    && (blocks > 0 ==> AllFree(free, block, blocks) && InArea(start, end, total, block, blocks))
    && (blocks < maxneeded ==>
          forall q, len :: AllFree(free, q, len) && InArea(start, end, total, q, len) ==> len <= blocks)
    && (blocks > 0 ==>
          forall q, len :: AllFree(free, q, len) && InArea(start, end, total, q, len) && len >= blocks
            ==> !Before(start, q, block))
  }

  /** The answer to a search is unique. */
  lemma FoundIsUnique(free: seq<bool>, maxneeded: nat, start: nat, end: nat, total: nat,
                      b1: nat, n1: nat, b2: nat, n2: nat)
    requires start < total && end <= total
    requires Found(free, maxneeded, start, end, total, b1, n1)
    requires Found(free, maxneeded, start, end, total, b2, n2)
    ensures n1 == n2 && (n1 > 0 ==> b1 == b2)
  {
  }

  // ----- Scanning

  /** No free run inside [lo, hi) is longer than n, and none of n blocks starts below b. */
  ghost predicate BestIn(free: seq<bool>, lo: int, hi: int, b: int, n: int) {
    forall q, len :: AllFree(free, q, len) && lo <= q && q + len <= hi ==> len <= n && (len == n > 0 ==> b <= q)
  }

  /** The free run that ends at hi, looking back no further than lo, has `space` blocks. */
  ghost predicate RunEndsAt(free: seq<bool>, lo: int, hi: int, space: int) {
    && 0 <= space && lo <= hi - space && hi <= |free|
    && AllFree(free, hi - space, space)
    && (lo < hi - space <= |free| ==> 0 < hi - space && !free[hi - space - 1])
  }

  lemma FreeAt(free: seq<bool>, q: int, len: int, i: int)
    requires AllFree(free, q, len)
    ensures q <= i < q + len ==> 0 <= i < |free| && free[i]
  {
  }

  /** Passing over used blocks adds nothing. */
  lemma SkipUsed(free: seq<bool>, lo: int, hi: int, m: int, b: int, n: int)
    requires 0 <= lo <= hi <= m <= |free| && n >= 0
    requires AllUsed(free, hi, m)
    requires BestIn(free, lo, hi, b, n)
    ensures BestIn(free, lo, m, b, n)
  {
    forall q, len | AllFree(free, q, len) && lo <= q && q + len <= m
      ensures len <= n && (len == n > 0 ==> b <= q)
    {
      FreeAt(free, q, len, q + len - 1);
      assert AllFree(free, q, len);
    }
  }

  /** Passing over a free run of `space` blocks that ends at hi. */
  lemma TakeRun(free: seq<bool>, lo: int, c: int, hi: int, space: int, b: int, n: int)
    requires 0 <= lo <= c <= hi <= |free| && n >= 0
    requires RunEndsAt(free, lo, hi, space) && hi - space <= c
    requires BestIn(free, lo, c, b, n) && (n > 0 ==> b + n <= c)
    ensures space <= n ==> BestIn(free, lo, hi, b, n)
    ensures space > n ==> BestIn(free, lo, hi, hi - space, space)
  {
    forall q, len | AllFree(free, q, len) && lo <= q && q + len <= hi && len > 0
      ensures q + len > c ==> hi - space <= q
      ensures q + len <= c ==> len <= n
    {
      FreeAt(free, q, len, hi - space - 1);
    }
    if space > n {
      forall q, len | AllFree(free, q, len) && lo <= q && q + len <= hi
        ensures len <= space && (len == space > 0 ==> hi - space <= q)
      {
      }
    } else {
      forall q, len | AllFree(free, q, len) && lo <= q && q + len <= hi
        ensures len <= n && (len == n > 0 ==> b <= q)
      {
      }
    }
  }

  /** What has been found once the search has reached `cur`: in its first part (`first`) or,
      after turning round the end of the partition, in its second. */
  ghost predicate Scanned(free: seq<bool>, start: nat, total: nat, first: bool, cur: int, b: nat, n: nat) {
    && (n > 0 ==> AllFree(free, b, n))
    && if first then
         start <= cur && BestIn(free, start, cur, b, n) && (n > 0 ==> start <= b && b + n <= cur)
       else if n == 0 || start <= b then
         (n > 0 ==> b + n <= total) && BestIn(free, start, total, b, n) && BestIn(free, 0, cur, 0, n)
       else
         b + n <= cur <= start && BestIn(free, start, total, 0, n - 1) && BestIn(free, 0, cur, b, n)
  }

  lemma ScanUsed(free: seq<bool>, start: nat, total: nat, first: bool, cur: int, m: int, b: nat, n: nat)
    requires (if first then start else 0) <= cur <= m <= |free| && (!first ==> m <= start)
    requires Scanned(free, start, total, first, cur, b, n)
    requires AllUsed(free, cur, m)
    ensures Scanned(free, start, total, first, m, b, n)
  {
    hide BestIn, AllFree;
    var lo := if first then start else 0;
    if !first && (n == 0 || start <= b) {
      SkipUsed(free, lo, cur, m, 0, n);
    } else {
      SkipUsed(free, lo, cur, m, b, n);
    }
  }

  lemma ScanRun(free: seq<bool>, start: nat, total: nat, first: bool, cur: int, hi: int, space: int, b: nat, n: nat)
    requires (if first then start else 0) <= cur <= hi <= |free| && start <= total <= |free| && (!first ==> hi <= start)
    requires Scanned(free, start, total, first, cur, b, n)
    requires RunEndsAt(free, if first then start else 0, hi, space) && hi - space <= cur
    ensures space <= n ==> Scanned(free, start, total, first, hi, b, n)
    ensures space > n ==> Scanned(free, start, total, first, hi, hi - space, space)
  {
    var lo := if first then start else 0;
    if !first && (n == 0 || start <= b) {
      Weaken(free, start, total, b, n, space);
      LongestOnly(free, lo, cur, hi, space, n);
    } else {
      TakeRun(free, lo, cur, hi, space, b, n);
      if !first { Weaken(free, start, total, 0, n - 1, space); }
    }
  }

  lemma Weaken(free: seq<bool>, lo: int, hi: int, b: nat, n: nat, m: int)
    requires BestIn(free, lo, hi, b, n)
    ensures m > n ==> BestIn(free, lo, hi, 0, m - 1)
  {
    if m > n {
      forall q, len | AllFree(free, q, len) && lo <= q && q + len <= hi
        ensures len <= m - 1 && (len == m - 1 > 0 ==> 0 <= q)
      {
      }
    }
  }

  lemma LongestOnly(free: seq<bool>, lo: int, c: int, hi: int, space: int, n: nat)
    requires 0 <= lo <= c <= hi <= |free|
    requires RunEndsAt(free, lo, hi, space) && hi - space <= c
    requires BestIn(free, lo, c, 0, n)
    ensures space <= n ==> BestIn(free, lo, hi, 0, n)
    ensures space > n ==> BestIn(free, lo, hi, hi - space, space)
  {
    forall q, len | AllFree(free, q, len) && lo <= q && q + len <= hi && len > 0
      ensures q + len > c ==> hi - space <= q
      ensures q + len <= c ==> len <= n
    {
      FreeAt(free, q, len, hi - space - 1);
    }
    forall q, len | AllFree(free, q, len) && lo <= q && q + len <= hi
      ensures space <= n ==> len <= n && 0 <= q
      ensures space > n ==> len <= space && (len == space > 0 ==> hi - space <= q)
    {
    }
  }

  /** A search that has covered its area has found the longest runs there are. */
  lemma ScannedAll(free: seq<bool>, maxneeded: nat, start: nat, end: nat, total: nat, b: nat, n: nat)
    requires start < total <= |free| && 0 < end <= total && n <= maxneeded
    requires Scanned(free, start, total, start < end, end, b, n)
    ensures Found(free, maxneeded, start, end, total, b, n)
  {
  }

  /** The first run that is long enough ends the search. */
  lemma FoundEnough(free: seq<bool>, maxneeded: nat, start: nat, end: nat, total: nat, first: bool, cur: int,
                    hi: int, space: int, b: nat, n: nat)
    requires start < total <= |free| && 0 < end <= total
    requires (if first then start else 0) <= cur <= hi && hi <= (if first then FirstBreak(start, end, total) else end)
    requires first || end <= start
    requires Scanned(free, start, total, first, cur, b, n)
    requires RunEndsAt(free, if first then start else 0, hi, space) && hi - space <= cur
    requires n < maxneeded <= space || maxneeded == 0
    ensures Found(free, maxneeded, start, end, total, hi - space, maxneeded)
  {
    var r := hi - space;
    if maxneeded > 0 {
      forall q, len | AllFree(free, q, len) && InArea(start, end, total, q, len) && len >= maxneeded
        ensures !Before(start, q, r)
      {
        assert AllFree(free, q, maxneeded);
        FreeAt(free, q, len, r - 1);
      }
    }
  }

  // ----- Bitmap blocks

  /** Bitmap block `index` describes the blocks from `block`. */
  ghost predicate IsAt(index: nat, block: nat, perBlock: nat) {
    block == index * perBlock
  }

  /** Index of the bitmap block that describes the last of x blocks. */
  function LastOf(x: nat, perBlock: nat): nat
    requires x > 0 && perBlock > 0
  {
    (x - 1) / perBlock
  }

  /** Index of the bitmap block that describes block x, and the bit for x in it. */
  function IndexOf(x: nat, perBlock: nat): nat
    requires perBlock > 0
  {
    x / perBlock
  }

  function OffsetOf(x: nat, perBlock: nat): nat
    requires perBlock > 0
  {
    x % perBlock
  }

  lemma BlockOf(i: nat, x: nat, b: nat)
    requires b > 0
    ensures i <= x / b <==> i * b <= x
  {
    var q, r := x / b, x % b;
    assert x == q * b + r;
    if i <= q {
      assert i * b <= q * b;
    } else {
      assert i * b >= (q + 1) * b == q * b + b;
    }
  }

  lemma NextBlock(i: nat, block: nat, b: nat)
    requires IsAt(i, block, b)
    ensures IsAt(i + 1, block + b, b)
  {
    assert (i + 1) * b == i * b + b;
  }

  lemma LastBlock(i: nat, block: nat, x: nat, total: nat, b: nat)
    requires b > 0 && 0 < x <= total && i <= LastOf(x, b) && IsAt(i, block, b)
    ensures block < x && i <= LastOf(total, b)
    ensures i == LastOf(x, b) <==> block + b >= x
  {
    BlockOf(i, x - 1, b);
    BlockOf(i + 1, x - 1, b);
    BlockOf(i, total - 1, b);
    assert (i + 1) * b == i * b + b;
  }

  lemma LinearIndex(i: nat, n: nat, b: nat)
    requires i <= n
    ensures i * b + b <= (n + 1) * b
  {
    assert (n + 1) * b == (i + 1) * b + (n - i) * b;
  }

  lemma StartUp(start: nat, perBlock: nat, end: nat, total: nat)
    requires perBlock > 0 && start < total && 0 < end <= total
    ensures OffsetOf(start, perBlock) <= start && OffsetOf(start, perBlock) < perBlock
    ensures IsAt(IndexOf(start, perBlock), start - OffsetOf(start, perBlock), perBlock) && IsAt(0, 0, perBlock)
    ensures IndexOf(start, perBlock) <= LastOf(FirstBreak(start, end, total), perBlock)
  {
    BlockOf(start / perBlock, FirstBreak(start, end, total) - 1, perBlock);
  }

  lemma FirstBitIn(free: seq<bool>, block: nat, bits: seq<bool>, from: nat, v: bool)
    requires from <= |bits| && IsWindow(free, block, bits)
    ensures block + |bits| <= |free|
    ensures var k := FirstBit(bits, from, v);
      && (k == -1 || (from <= k < |bits| && free[block + k] == v))
      && (if v then AllUsed(free, block + from, block + if k < 0 then |bits| else k)
          else AllFree(free, block + from, (if k < 0 then |bits| else k) - from))
  {
    hide FirstBit;
    var k := FirstBit(bits, from, v);
    forall i | block + from <= i < block + (if k < 0 then |bits| else k) ensures free[i] == !v {
      assert free[i] == bits[i - block];
    }
  }

  lemma UsedLast(free: seq<bool>, lo: int, hi: int)
    requires AllUsed(free, lo, hi) && lo < hi
    ensures !free[hi - 1]
  {
  }

  lemma UsedWithin(free: seq<bool>, lo: int, hi: int, m: int)
    requires AllUsed(free, lo, hi) && m <= hi
    ensures AllUsed(free, lo, m)
  {
  }

  lemma RunGrows(free: seq<bool>, lo: int, from: int, to: int, space: int)
    requires 0 <= lo <= from <= to <= |free|
    requires AllFree(free, from, to - from)
    requires RunEndsAt(free, lo, from, space) || (space == 0 && (from == lo || !free[from - 1]))
    ensures RunEndsAt(free, lo, to, space + to - from)
  {
    var r := from - space;
    assert AllFree(free, r, space);
    assert AllFree(free, r, to - r);
  }

  lemma NoRun(free: seq<bool>, lo: int, hi: int)
    requires 0 <= lo <= hi <= |free|
    requires lo == hi || !free[hi - 1]
    ensures RunEndsAt(free, lo, hi, 0)
  {
    assert AllFree(free, hi, 0);
  }

  lemma ScanStart(free: seq<bool>, start: nat, total: nat)
    requires start <= |free|
    ensures Scanned(free, start, total, true, start, 0, 0)
    ensures RunEndsAt(free, start, start, 0)
  {
    NoRun(free, start, start);
  }

  lemma ScanTurn(free: seq<bool>, start: nat, total: nat, b: nat, n: nat)
    requires Scanned(free, start, total, true, total, b, n)
    ensures Scanned(free, start, total, false, 0, b, n)
    ensures RunEndsAt(free, 0, 0, 0)
  {
    NoRun(free, 0, 0);
    forall q, len | AllFree(free, q, len) && 0 <= q && q + len <= 0
      ensures len <= n && (len == n > 0 ==> 0 <= q)
    {
    }
  }

  /** One search: what is searched and for how many blocks. */
  datatype Area = Area(free: seq<bool>, maxneeded: nat, start: nat, end: nat, total: nat, perBlock: nat) {
    ghost predicate Valid() {
      perBlock > 0 && start < total <= |free| && 0 < end <= total && |free| == (LastOf(total, perBlock) + 1) * perBlock
    }
  }

  /** Where the part of the search that is under way began, and where it ends. */
  ghost function First(first: bool, start: nat): nat {
    if first then start else 0
  }

  ghost function BreakOf(a: Area, first: bool): nat {
    if first then FirstBreak(a.start, a.end, a.total) else a.end
  }

  /** A search is about to look at bitmap block `index` from bit `bitend` on. */
  ghost predicate Searching(a: Area, first: bool, index: nat, block: nat, bitend: nat, space: nat, left: int, b: nat,
                            n: nat) {
    && a.Valid() && (first || a.end <= a.start)
    && IsAt(index, block, a.perBlock) && index <= LastOf(BreakOf(a, first), a.perBlock)
    && left == LastOf(BreakOf(a, first), a.perBlock) - index + 1
               + (if first && a.end <= a.start then LastOf(a.end, a.perBlock) + 1 else 0)
    && bitend < a.perBlock && First(first, a.start) <= block + bitend < BreakOf(a, first)
    && (bitend == 0 || block + bitend == First(first, a.start))
    && (bitend == 0 ==> RunEndsAt(a.free, First(first, a.start), block, space))
    && (n < a.maxneeded || n == 0)
    && Scanned(a.free, a.start, a.total, first, block + bitend, b, n)
  }

  /** A search has looked at bitmap block `index` up to bit `localbreak` without an end. */
  ghost predicate Searched(a: Area, first: bool, block: nat, bits: nat, localbreak: nat, bitend: nat, space: nat,
                           b: nat, n: nat) {
    && (n < a.maxneeded || n == 0) && Scanned(a.free, a.start, a.total, first, block + localbreak, b, n)
    && (localbreak == bits ==>
          RunEndsAt(a.free, First(first, a.start), block + bits, if bitend == bits then space else 0))
  }

  lemma SearchStarts(a: Area, index: nat, block: nat, bitend: nat, left: int)
    requires a.Valid()
    requires index == IndexOf(a.start, a.perBlock) && bitend == OffsetOf(a.start, a.perBlock)
    requires block + bitend == a.start
    requires left == LastOf(a.end, a.perBlock) + 1 - index + if a.start >= a.end then LastOf(a.total, a.perBlock) + 1
        else 0
    ensures Searching(a, true, index, block, bitend, 0, left, 0, 0)
  {
    hide Scanned, RunEndsAt, IsAt, IndexOf, OffsetOf, LastOf;
    StartUp(a.start, a.perBlock, a.end, a.total);
    ScanStart(a.free, a.start, a.total);
  }

  lemma SearchInside(a: Area, first: bool, index: nat, block: nat, bitend: nat, space: nat, left: int, b: nat, n: nat)
    requires Searching(a, first, index, block, bitend, space, left, b, n)
    ensures IsAt(index, block, a.perBlock) && index <= LastOf(a.total, a.perBlock) && left >= 1
    ensures block < BreakOf(a, first)
    ensures First(first, a.start) <= block + bitend < BreakOf(a, first) && bitend < a.perBlock
    ensures InBlock(a, first, block, a.perBlock,
                    if BreakOf(a, first) - block > a.perBlock then a.perBlock else BreakOf(a, first) - block,
                    bitend, space, b, n)
    ensures (first || a.end <= a.start) && index <= LastOf(BreakOf(a, first), a.perBlock)
    ensures left == LastOf(BreakOf(a, first), a.perBlock) - index + 1
                    + if first && a.end <= a.start then LastOf(a.end, a.perBlock) + 1 else 0
  {
    hide Scanned, RunEndsAt, IsAt, LastOf;
    LinearLast(index, block, a);
    LastBlock(index, block, BreakOf(a, first), a.total, a.perBlock);
  }

  lemma LinearLast(index: nat, block: nat, a: Area)
    requires a.Valid() && IsAt(index, block, a.perBlock)
    ensures index <= LastOf(a.total, a.perBlock) ==> block + a.perBlock <= |a.free|
  {
    if index <= LastOf(a.total, a.perBlock) {
      LinearIndex(index, LastOf(a.total, a.perBlock), a.perBlock);
    }
  }

  lemma SearchEnds(a: Area, first: bool, index: nat, block: nat, localbreak: nat, bitend: nat, space: nat, b: nat,
                   n: nat)
    requires a.Valid() && (first || a.end <= a.start)
    requires IsAt(index, block, a.perBlock) && index <= LastOf(BreakOf(a, first), a.perBlock)
    requires LastOf(BreakOf(a, first), a.perBlock) - index
             + (if first && a.end <= a.start then LastOf(a.end, a.perBlock) + 1 else 0) == 0
    requires localbreak == if BreakOf(a, first) - block > a.perBlock then a.perBlock else BreakOf(a, first) - block
    requires Searched(a, first, block, a.perBlock, localbreak, bitend, space, b, n)
    ensures Found(a.free, a.maxneeded, a.start, a.end, a.total, b, n)
  {
    hide Scanned, RunEndsAt, IsAt, LastOf, Found;
    LastBlock(index, block, BreakOf(a, first), a.total, a.perBlock);
    ScannedAll(a.free, a.maxneeded, a.start, a.end, a.total, b, n);
  }

  lemma SearchGoesOn(a: Area, first: bool, index: nat, block: nat, localbreak: nat, bitend: nat, space: nat,
                     left: nat, b: nat, n: nat)
    requires a.Valid() && (first || a.end <= a.start)
    requires IsAt(index, block, a.perBlock) && index <= LastOf(BreakOf(a, first), a.perBlock)
    requires left == LastOf(BreakOf(a, first), a.perBlock) - index
                     + (if first && a.end <= a.start then LastOf(a.end, a.perBlock) + 1 else 0)
    requires left > 0 && First(first, a.start) <= block + localbreak
    requires localbreak == if BreakOf(a, first) - block > a.perBlock then a.perBlock else BreakOf(a, first) - block
    requires Searched(a, first, block, a.perBlock, localbreak, bitend, space, b, n)
    ensures block + a.perBlock >= a.total ==>
      first && a.end <= a.start && Searching(a, false, 0, 0, 0, 0, left, b, n)
    ensures block + a.perBlock < a.total ==>
      Searching(a, first, index + 1, block + a.perBlock, 0, if bitend == a.perBlock then space else 0, left, b, n)
  {
    hide Scanned, RunEndsAt, IsAt, LastOf;
    LastBlock(index, block, BreakOf(a, first), a.total, a.perBlock);
    NextBlock(index, block, a.perBlock);
    StartUp(0, a.perBlock, a.end, a.total);
    if index == LastOf(BreakOf(a, first), a.perBlock) {
      ScanTurn(a.free, a.start, a.total, b, n);
    } else {
      LastBlock(index + 1, block + a.perBlock, BreakOf(a, first), a.total, a.perBlock);
    }
  }

  /** The search stands at bit `bitend` of the bitmap block that describes the blocks from
      `block`; `space` free blocks end there. */
  ghost predicate InBlock(a: Area, first: bool, block: nat, size: nat, localbreak: nat, bitend: nat, space: nat,
                          b: nat, n: nat) {
    && a.Valid() && (first || a.end <= a.start)
    && localbreak <= size && block + size <= |a.free| && block + localbreak <= BreakOf(a, first)
    && bitend <= localbreak && First(first, a.start) <= block + bitend
    && (bitend == 0 || bitend == size ==> RunEndsAt(a.free, First(first, a.start), block + bitend, space))
    && (0 < bitend < localbreak ==> block + bitend == First(first, a.start) || !a.free[block + bitend])
    && (n < a.maxneeded || n == 0)
    && Scanned(a.free, a.start, a.total, first, block + bitend, b, n)
  }

  /** The next free block at or behind bit `bitend` is at bit `bitstart`, or there is none. */
  ghost predicate Gap(free: seq<bool>, block: nat, size: nat, bitend: nat, bitstart: int) {
    && block + size <= |free|
    && (bitstart == -1 || (bitend <= bitstart < size && free[block + bitstart]))
    && AllUsed(free, block + bitend, block + if bitstart < 0 then size else bitstart)
  }

  lemma TakeFreeRun(a: Area, first: bool, block: nat, size: nat, localbreak: nat, bitend: nat, bitstart: nat, next: nat,
                    space: nat, b: nat, n: nat)
    requires InBlock(a, first, block, size, localbreak, bitend, space, b, n)
    requires Gap(a.free, block, size, bitend, bitstart)
    requires bitstart < next <= localbreak && AllFree(a.free, block + bitstart, next - bitstart)
    requires next == localbreak || !a.free[block + next]
    ensures var s := (if bitstart == 0 then space else 0) + next - bitstart;
      && s <= block + next
      && (s <= n ==> InBlock(a, first, block, size, localbreak, next, s, b, n))
      && (n < s < a.maxneeded ==> InBlock(a, first, block, size, localbreak, next, s, block + next - s, s))
      && (n < s && a.maxneeded <= s ==>
            Found(a.free, a.maxneeded, a.start, a.end, a.total, block + next - s, a.maxneeded))
  {
    hide Scanned, RunEndsAt, Found, AllFree, AllUsed;
    var lo, from := First(first, a.start), block + bitstart;
    var s := (if bitstart == 0 then space else 0) + next - bitstart;
    ScanUsed(a.free, a.start, a.total, first, block + bitend, from, b, n);
    if bitend < bitstart {
      UsedLast(a.free, block + bitend, from);
    }
    RunGrows(a.free, lo, from, block + next, s - (next - bitstart));
    RunFits(a.free, lo, block + next, s);
    ScanRun(a.free, a.start, a.total, first, from, block + next, s, b, n);
    if n < s && a.maxneeded <= s {
      FoundEnough(a.free, a.maxneeded, a.start, a.end, a.total, first, from, block + next, s, b, n);
    }
  }

  lemma RunFits(free: seq<bool>, lo: int, hi: int, space: int)
    requires RunEndsAt(free, lo, hi, space)
    ensures lo <= hi - space
  {
  }

  lemma LeaveBlock(a: Area, first: bool, block: nat, size: nat, localbreak: nat, bitend: nat, bitstart: int,
                   space: nat, b: nat, n: nat)
    requires InBlock(a, first, block, size, localbreak, bitend, space, b, n)
    requires bitend < localbreak
        ==> Gap(a.free, block, size, bitend, bitstart) && (bitstart < 0 || bitstart >= localbreak)
    ensures Searched(a, first, block, size, localbreak, bitend, space, b, n)
  {
    hide Scanned, RunEndsAt, AllUsed;
    if bitend < localbreak {
      UsedWithin(a.free, block + bitend, block + if bitstart < 0 then size else bitstart, block + localbreak);
      ScanUsed(a.free, a.start, a.total, first, block + bitend, block + localbreak, b, n);
      if localbreak == size {
        UsedLast(a.free, block + bitend, block + size);
        NoRun(a.free, First(first, a.start), block + size);
      }
    }
  }

  /** The search through one bitmap block: its bits from `bitend0` up to `localbreak`, with
      `space0` free blocks at the end of the bitmap block before it. */
  method SearchBlock(bits: seq<bool>, block: nat, bitend0: nat, localbreak: nat, space0: nat, maxneeded: nat,
                     b0: nat, n0: nat, ghost a: Area, ghost first: bool)
    returns (bitend: nat, space: nat, b: nat, n: nat, done: bool)
    requires maxneeded == a.maxneeded && IsWindow(a.free, block, bits)
    requires InBlock(a, first, block, |bits|, localbreak, bitend0, space0, b0, n0)
    ensures done ==> Found(a.free, maxneeded, a.start, a.end, a.total, b, n)
    ensures !done ==> Searched(a, first, block, |bits|, localbreak, bitend, space, b, n)
  {
    hide InBlock, Gap, Found, Searched, AllFree, FirstBit, IsWindow;
    bitend, space, b, n, done := bitend0, space0, b0, n0, false;
    InBlockBounds(a, first, block, |bits|, localbreak, bitend, space, b, n);
    var bitstart := FirstBit(bits, bitend, true);
    FindGap(a.free, block, bits, bitend);
    while 0 <= bitstart < |bits|
      invariant bitend <= localbreak <= |bits|
      invariant InBlock(a, first, block, |bits|, localbreak, bitend, space, b, n)
      invariant Gap(a.free, block, |bits|, bitend, bitstart)
      decreases |bits| - bitend
    {
      if bitstart >= localbreak {
        break;
      }
      ghost var before := space;
      if bitstart != 0 {
        space := 0;
      }
      var clear := FirstBit(bits, bitstart, false);
      var next: nat := if clear < 0 || clear > localbreak then localbreak else clear;
      FindRunEnd(a.free, block, bits, bitend, bitstart, localbreak);
      TakeFreeRun(a, first, block, |bits|, localbreak, bitend, bitstart, next, before, b, n);
      bitend := next;
      space := space + (bitend - bitstart);
      if n < space {
        if space >= maxneeded {
          b, n, done := block + bitend - space, maxneeded, true;
          return;
        }
        b, n := block + bitend - space, space;
      }
      if bitend >= localbreak {
        break;
      }
      bitstart := FirstBit(bits, bitend, true);
      FindGap(a.free, block, bits, bitend);
    }
    LeaveBlock(a, first, block, |bits|, localbreak, bitend, bitstart, space, b, n);
  }

  lemma InBlockBounds(a: Area, first: bool, block: nat, size: nat, localbreak: nat, bitend: nat, space: nat, b: nat,
                      n: nat)
    requires InBlock(a, first, block, size, localbreak, bitend, space, b, n)
    ensures bitend <= localbreak <= size
  {
  }

  lemma FindGap(free: seq<bool>, block: nat, bits: seq<bool>, bitend: nat)
    requires bitend <= |bits| && IsWindow(free, block, bits)
    ensures Gap(free, block, |bits|, bitend, FirstBit(bits, bitend, true))
  {
    FirstBitIn(free, block, bits, bitend, true);
  }

  lemma FindRunEnd(free: seq<bool>, block: nat, bits: seq<bool>, bitend: nat, bitstart: nat, localbreak: nat)
    requires IsWindow(free, block, bits) && Gap(free, block, |bits|, bitend, bitstart)
    requires bitstart < localbreak <= |bits|
    ensures var clear := FirstBit(bits, bitstart, false);
      var next := if clear < 0 || clear > localbreak then localbreak else clear;
      && bitend <= bitstart < next <= localbreak && block + |bits| <= |free|
          && AllFree(free, block + bitstart, next - bitstart)
      && (next == localbreak || !free[block + next])
  {
    FirstBitIn(free, block, bits, bitstart, false);
  }

  /** The bits for a partition of `total` blocks: whole bitmap blocks, with the bits behind the last
      block of the partition clear. */
  ghost predicate IsMap(free: seq<bool>, total: nat, perBlock: nat) {
    && total > 0 && perBlock > 0
    && |free| == (LastOf(total, perBlock) + 1) * perBlock
    && total <= |free|
    && forall i :: total <= i < |free| ==> !free[i]
  }

  lemma MapFacts(free: seq<bool>, total: nat, perBlock: nat)
    requires IsMap(free, total, perBlock)
    ensures 0 < total <= |free| && perBlock > 0
  {
  }
}
