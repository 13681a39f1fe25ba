/** The write-back block cache of FS/cachedio.c.  Lines are numbered; `order` is the LRU list, with
    the least recently used line in front. */
module Cache {
  import opened Words
  import opened Ranges
  import opened CacheLines

  /** The LRU list names each line once. */
  ghost predicate OrderOk(order: seq<nat>, n: nat) {
    && |order| == n && (forall p :: 0 <= p < n ==> order[p] < n)
    && (forall p, q :: 0 <= p < q < n ==> order[p] != order[q])
    && (forall i: nat :: i < n ==> i in order)
  }

  /** Line i has moved to the end of the list, the others have kept their order. */
  ghost predicate UsedLast(order: seq<nat>, i: nat, order': seq<nat>) {
    exists p :: 0 <= p < |order| && order[p] == i && order' == order[..p] + order[p + 1..] + [i]
  }

  /** Line i was the least recently used one of those that are not locked: it has moved to the end of
      the list, behind the locked lines that were in front of it. */
  ghost predicate LeastUsed(lines: seq<Line>, order: seq<nat>, i: nat, order': seq<nat>) {
    exists p :: 0 <= p < |order| && order[p] == i < |lines| && !lines[i].locked
      && (forall q :: 0 <= q < p ==> order[q] < |lines| && lines[order[q]].locked)
      && order' == order[p + 1..] + order[..p + 1]
  }

  /** The line for a block is the one that there was, or the least recently used one if there was none. */
  ghost predicate Turned(lines: seq<Line>, order: seq<nat>, block: nat, i: nat, order': seq<nat>) {
    if i < |lines| && Has(lines[i], block) then UsedLast(order, i, order')
    else Unclaimed(lines, block) && LeastUsed(lines, order, i, order')
  }

  /** The n blocks from `block` on are dirty in their lines. */
  ghost predicate DirtyFrom(lines: seq<Line>, block: nat, n: nat) {
    forall b: nat :: block <= b < block + n ==> Dirty(lines, b)
  }

  ghost predicate Dirty(lines: seq<Line>, b: nat) {
    exists j: nat :: j < |lines| && Has(lines[j], b) && b - lines[j].block in lines[j].dirty
  }

  /** Block b is valid in its line. */
  ghost predicate Keeps(lines: seq<Line>, b: nat) {
    exists j: nat :: j < |lines| && Has(lines[j], b) && IsValid(lines[j], b - lines[j].block)
  }

  /** Line k is for the blocks right behind those of line j. */
  predicate Follows(lines: seq<Line>, j: nat, k: nat) {
    j < |lines| && k < |lines| && lines[k].blocks > 0 && lines[k].block == lines[j].block + lines[j].blocks
  }

  /** The dirty blocks of line j have been written. */
  predicate Cleaned(before: seq<Line>, lines: seq<Line>, j: nat) {
    j < |lines| == |before| && before[j].dirty != {} && lines[j].dirty == {}
  }

  /** Line i was written with those that followed one another behind it, as long as they were dirty, and
      no others. */
  ghost predicate WrittenOn(before: seq<Line>, lines: seq<Line>, i: nat) {
    && |lines| == |before|
    && (forall k :: 0 <= k < |lines| ==> lines[k].dirty == before[k].dirty || lines[k].dirty == {})
    && (forall j: nat, k: nat :: Cleaned(before, lines, j) && Follows(lines, j, k) ==> lines[k].dirty == {})
    && forall k: nat ::
        Cleaned(before, lines, k) && k != i ==> exists j: nat :: Cleaned(before, lines, j) && Follows(lines, j, k)
  }

  /** The same while line `at` is the next one to write, if there is one. */
  ghost predicate WrittenTo(before: seq<Line>, lines: seq<Line>, i: nat, at: int) {
    && |lines| == |before|
    && (forall k :: 0 <= k < |lines| ==> lines[k].dirty == before[k].dirty || lines[k].dirty == {})
    && (forall j: nat, k: nat ::
        Cleaned(before, lines, j) && Follows(lines, j, k) && k != at ==> lines[k].dirty == {})
    && (forall k: nat ::
        Cleaned(before, lines, k) && k != i ==> exists j: nat :: Cleaned(before, lines, j) && Follows(lines, j, k))
    && (at >= 0 && at != i ==> exists j: nat :: Cleaned(before, lines, j) && Follows(lines, j, at))
  }

  /** The data area left over when a line has been read again: that of the line if less than half of a line
      is dirty in it, and otherwise the one with what was read. */
  ghost predicate LeftOver(m: Mode, disk: seq<Data>, l: Line, other: seq<Data>) {
    if |set k: nat | k < l.blocks && k in l.dirty| < m.size / 2 then other == l.data
    else l.blocks <= |other| && forall k: nat :: k < l.blocks && l.block + k < |disk| ==> other[k] == disk[l.block + k]
  }

  /** The line for block b counts as one with dirty blocks. */
  ghost predicate FlaggedFor(lines: seq<Line>, b: nat) {
    exists j: nat :: j < |lines| && Has(lines[j], b) && lines[j].flagged
  }

  // ----- Bitmaps

  /** First bit of `bits` at or behind `from`, or -1 (`BMFFO`). */
  method FirstSet(bits: set<nat>, from: nat) returns (r: int)
    ensures -1 <= r < 128 && (r >= 0 ==> r >= from && r in bits)
    ensures forall k: nat :: from <= k < (if r < 0 then 128 else r) ==> k !in bits
  {
    var i := from;
    while i < 128
      invariant forall k: nat :: from <= k < i ==> k !in bits
    {
      if i in bits { return i; }
      i := i + 1;
    }
    r := -1;
  }

  /** First bit that is not in `bits`, at or behind `from`, or -1 (`BMFFZ`). */
  method FirstClear(bits: set<nat>, from: nat) returns (r: int)
    ensures -1 <= r < 128 && (r >= 0 ==> r >= from && r !in bits)
    ensures forall k: nat :: from <= k < (if r < 0 then 128 else r) ==> k in bits
  {
    var i := from;
    while i < 128
      invariant forall k: nat :: from <= k < i ==> k in bits
    {
      if i !in bits { return i; }
      i := i + 1;
    }
    r := -1;
  }

  /** Last bit of `bits` at or in front of `to`, or -1 (`BMFLO`). */
  method LastSet(bits: set<nat>, to: nat) returns (r: int)
    ensures -1 <= r <= to && (r >= 0 ==> r in bits)
    ensures forall k: nat :: r < k <= to ==> k !in bits
  {
    r := to;
    while r >= 0 && r !in bits
      invariant -1 <= r <= to && forall k: nat :: r < k <= to ==> k !in bits
    {
      r := r - 1;
    }
  }

  /** Are all n bits from k set (`BMTSTO`)? */
  method AllSet(bits: set<nat>, k: nat, n: nat) returns (r: bool)
    ensures r <==> forall i: nat :: k <= i < k + n ==> i in bits
  {
    var i := k;
    while i < k + n
      invariant k <= i <= k + n && forall j: nat :: k <= j < i ==> j in bits
    {
      if i !in bits { return false; }
      i := i + 1;
    }
    r := true;
  }

  /** Number of bits set among the first n (`BMCNTO`). */
  method CountSet(bits: set<nat>, n: nat) returns (c: nat)
    ensures c == |set i: nat | i < n && i in bits|
  {
    c := 0;
    assert (set i: nat | i < 0 && i in bits) == {};
    for i := 0 to n
      invariant c == |set j: nat | j < i && j in bits|
    {
      assert (set j: nat | j < i + 1 && j in bits) == (set j: nat | j < i && j in bits) + if i in bits then {i} else {};
      if i in bits { c := c + 1; }
    }
  }

  /** Copies the blocks that are, or that are not, in `bits` over another data area. */
  method MergeBlocks(to: seq<Data>, from: seq<Data>, bits: set<nat>, those: bool) returns (r: seq<Data>)
    requires |to| == |from|
    ensures |r| == |to|
    ensures forall k: nat :: k < |to| ==> r[k] == if (k in bits) == those then from[k] else to[k]
  {
    r := to;
    var k := |to|;
    while k > 0
      invariant 0 <= k <= |to| == |r|
      invariant forall q: nat :: q < |to| ==> r[q] == if q >= k && (q in bits) == those then from[q] else to[q]
    {
      k := k - 1;
      if (k in bits) == those {
        r := r[k := from[k]];
      }
    }
  }

  /** Merges a line with what was read, in the data area that takes less copying. */
  method MergeAreas(mine: seq<Data>, buffer: seq<Data>, dirty: set<nat>, blocks: nat, ghost bytes: nat)
    returns (data: seq<Data>, other: seq<Data>)
    requires |mine| == |buffer|
    requires forall k :: 0 <= k < |mine| ==> |mine[k]| == bytes && |buffer[k]| == bytes
    ensures |data| == |other| == |mine| && forall k :: 0 <= k < |mine| ==> |data[k]| == bytes && |other[k]| == bytes
    ensures forall k: nat :: k < |mine| ==> data[k] == if k in dirty then mine[k] else buffer[k]
    ensures other == if |set k: nat | k < blocks && k in dirty| < |mine| / 2 then mine else buffer
  {
    var c := CountSet(dirty, blocks);
    if c < |mine| / 2 {
      data := MergeBlocks(buffer, mine, dirty, true);
      other := mine;
    } else {
      data := MergeBlocks(mine, buffer, dirty, false);
      other := buffer;
    }
  }

  /** Blocks in a line for a wanted number of them: the largest power of two from 4 to 128 that is not
      more, or 2. */
  function LineSize(blocks: nat): (n: nat)
    ensures n in {2, 4, 8, 16, 32, 64, 128}
    ensures n <= blocks || n == 2
    ensures blocks >= 4 && n < 128 ==> blocks < 2 * n
    ensures blocks < 4 ==> n == 2
  {
    if blocks < 4 then 2
    else if blocks < 8 then 4
    else if blocks < 16 then 8
    else if blocks < 32 then 16
    else if blocks < 64 then 32
    else if blocks < 128 then 64
    else 128
  }

  class IOCache {
    const mode: Mode
    /** The line whose data area takes what is read from disk (ioc_buffer); used only if lines are
        not read before they are written. */
    const reserve: nat
    var lines: seq<Line>
    var order: seq<nat>
    var disk: seq<Data>

    /** The list, the locks and the reserved line are in order. */
    ghost predicate Sound()
      reads this
    {
      && |lines| >= 4 && OrderOk(order, |lines|)
      && (forall i :: 0 <= i < |lines| ==> (lines[i].locked <==> !mode.readonwrite && i == reserve))
      && (!mode.readonwrite ==> reserve < |lines| && lines[reserve].blocks == 0)
    }

    ghost predicate Valid()
      reads this
    {
      LinesOk(mode, disk, lines) && Sound()
    }

    /** What the disk would hold if there were no cache. */
    ghost function Held(): seq<Data>
      reads this
    {
      Contents(disk, lines)
    }

    /** A new cache (`setiocache`) of at least 4 lines, with nothing in them, for a partition that
        holds `d`.  `junk` is what the memory of a line holds. */
    constructor (n: nat, readahead: nat, copyback: bool, readonwrite: bool, bytes: nat, d: seq<Data>, junk: Data)
      requires |d| > 0 && bytes > 0 && |junk| == bytes && forall b :: 0 <= b < |d| ==> |d[b]| == bytes
      ensures Valid() && disk == d && Held() == d && AllClean(lines)
      ensures mode == Mode(LineSize(readahead / bytes), |d|, bytes, copyback, readonwrite || !copyback)
      ensures |lines| == if n < 4 then 4 else if n > 1024 then 1024 else n
    {
      var m := Mode(LineSize(readahead / bytes), |d|, bytes, copyback, readonwrite || !copyback);
      var count := if n < 4 then 4 else if n > 1024 then 1024 else n;
      var data := seq(m.size, _ => junk);
      var all := seq(count, i => Line(0, 0, data, {}, {}, false, !m.readonwrite && i == 0));
      mode := m;
      reserve := 0;
      disk := d;
      lines := all;
      order := seq(count, p requires 0 <= p => p);
      new;
      assert forall i :: 0 <= i < |lines| ==> lines[i].dirty == {};
      FreshLines(mode, disk, lines);
      FreshOrder(order);
      AllCleanOnDisk(mode, disk, lines);
    }

    // ----- The LRU list

    /** Finds the line for a block (`findiocache`), -1 if there is none. */
    method FindIOCache(block: nat) returns (i: int)
      ensures -1 <= i < |lines|
      ensures i >= 0 ==> Has(lines[i], block)
      ensures i < 0 ==> Unclaimed(lines, block)
    {
      i := |lines| - 1;
      while i >= 0 && !Has(lines[i], block)
        invariant -1 <= i < |lines|
        invariant forall j :: i < j < |lines| ==> !Has(lines[j], block)
      {
        i := i - 1;
      }
    }

    /** Moves the line at position p of the list to its end. */
    method MoveToEnd(p: nat)
      requires p < |order| && OrderOk(order, |order|)
      modifies `order
      ensures order == old(order)[..p] + old(order)[p + 1..] + [old(order)[p]]
      ensures OrderOk(order, |order|) && |order| == old(|order|)
    {
      ghost var before := order;
      order := order[..p] + order[p + 1..] + [order[p]];
      MovedOrder(before, p);
    }

    /** Finds the line for a block and makes it the most recently used one (`locateiocache`). */
    method LocateIOCache(block: nat) returns (i: int)
      requires Sound()
      modifies `order
      ensures Sound() && -1 <= i < |lines|
      ensures i >= 0 ==> Has(lines[i], block) && order[|order| - 1] == i && UsedLast(old(order), i, order)
      ensures i < 0 ==> Unclaimed(lines, block) && order == old(order)
    {
      hide OrderOk;
      i := FindIOCache(block);
      OrderFacts(order, |lines|);
      if i >= 0 {
        var p := 0;
        while order[p] != i
          invariant p < |order| && i in order[p..]
          modifies {}
          decreases |order| - p
        {
          assert order[p..] == [order[p]] + order[p + 1..];
          p := p + 1;
        }
        MoveToEnd(p);
      }
    }

    // ----- Reading the rest of a line

    /** Reads what is missing of a line and merges it with the dirty blocks (`validateiocache`).
        The line may change its data area for that of the reserved line. */
    method ValidateIOCache(i: nat, offset: nat, n: nat)
      requires Valid() && i < |lines| && lines[i].blocks > 0 && offset + n <= lines[i].blocks
      modifies `lines
      ensures Valid() && Held() == old(Held()) && Settled(old(lines), lines)
      ensures forall k: nat :: offset <= k < offset + n ==> IsValid(lines[i], k)
      ensures lines[i].flagged == old(lines)[i].flagged
      ensures if mode.readonwrite || (forall k: nat :: offset <= k < offset + n ==> IsValid(old(lines)[i], k))
        then lines == old(lines)
        else lines[i].valid == AllBits() && LeftOver(mode, disk, old(lines)[i], lines[reserve].data)
      ensures forall j :: 0 <= j < |lines| ==> lines[j].dirty == old(lines)[j].dirty
    {
      hide Mode.StartOf, Mode.LengthOf, LinesOk, Contents, Settled, OrderOk, LeftOver;
      var all := AllSet(lines[i].valid, offset, n);
      LineFacts(mode, disk, lines, i);
      SettledTrivially(lines);
      if mode.readonwrite || all {
        return;
      }
      ghost var q: nat :| offset <= q < offset + n && q !in lines[i].valid;
      assert !IsValid(lines[i], q);
      var data, other := MergedData(i);
      ghost var before := lines;
      ReserveData(mode, disk, lines, reserve, other);
      lines := lines[reserve := lines[reserve].(data := other)];
      ghost var between := lines;
      Validated(mode, disk, lines, i, data);
      lines := lines[i := lines[i].(data := data, valid := AllBits())];
      SettledTrans(before, between, lines);
      SettledKeeps(before, lines);
      forall q: nat | q < 128 ensures q in AllBits() { assert IsBit(q); }
    }

    /** Reads a line into the data area of the reserved line and merges it with the dirty blocks, in
        the area that takes less copying.  The other area is left over. */
    method MergedData(i: nat) returns (data: seq<Data>, other: seq<Data>)
      requires Valid() && i < |lines| && lines[i].blocks > 0 && !mode.readonwrite
      ensures |disk| == mode.total && mode.size == |lines[i].data| && lines[i].blocks <= mode.size
      ensures lines[i].block + lines[i].blocks <= mode.total
      ensures |data| == |other| == mode.size
      ensures forall k :: 0 <= k < mode.size ==> |data[k]| == mode.bytes && |other[k]| == mode.bytes
      ensures forall k: nat :: k < lines[i].blocks ==>
        data[k] == if k in lines[i].dirty then lines[i].data[k] else disk[lines[i].block + k]
      ensures LeftOver(mode, disk, lines[i], other)
    {
      hide Mode.StartOf, Mode.LengthOf, LinesOk, OrderOk;
      DataSizes(mode, disk, lines, i);
      var buffer := ReadBehind(i);
      data, other := MergeAreas(lines[i].data, buffer, lines[i].dirty, lines[i].blocks, mode.bytes);
    }

    /** Reads what is on disk for a line into the data area of the reserved line. */
    method ReadBehind(i: nat) returns (buffer: seq<Data>)
      requires Valid() && i < |lines| && lines[i].blocks > 0 && !mode.readonwrite
      ensures |buffer| == mode.size && forall k :: 0 <= k < mode.size ==> |buffer[k]| == mode.bytes
      ensures |disk| == mode.total && lines[i].blocks <= mode.size && lines[i].block + lines[i].blocks <= mode.total
      ensures forall k: nat :: k < lines[i].blocks ==> buffer[k] == disk[lines[i].block + k]
    {
      hide Mode.StartOf, Mode.LengthOf, LinesOk, OrderOk;
      var l := lines[i];
      LineFacts(mode, disk, lines, i);
      ReadBuffer(mode, disk, lines, reserve, lines[reserve].data, l.block, l.blocks);
      buffer := disk[l.block..l.block + l.blocks] + lines[reserve].data[l.blocks..];
    }

    // ----- Writing lines back

    /** Writes the dirty blocks of a line with everything between them, if there are any. */
    method CopyBackLine(at: nat) returns (wrote: bool)
      requires Valid() && at < |lines| && lines[at].blocks > 0
      modifies `lines, `disk
      ensures Valid() && Held() == old(Held()) && Settled(old(lines), lines)
      ensures lines[at].dirty == {} && wrote == (old(lines)[at].dirty != {})
      ensures forall j :: 0 <= j < |lines| && j != at ==> lines[j].dirty == old(lines)[j].dirty
    {
      hide Mode.StartOf, Mode.LengthOf, LinesOk, Contents, Settled, OrderOk;
      LineFacts(mode, disk, lines, at);
      ghost var before := lines;
      SettledTrivially(lines);
      var high := LastSet(lines[at].dirty, lines[at].blocks - 1);
      if high < 0 {
        return false;
      }
      var low := FirstSet(lines[at].dirty, 0);
      DirtyWithin(lines[at], low, high);
      var gap := FirstClear(lines[at].valid, low);
      if gap < high {
        ValidateIOCache(at, 0, lines[at].blocks);
        SettledKeeps(before, lines);
        LineFacts(mode, disk, lines, at);
      }
      ghost var validated := lines;
      var l := lines[at];
      WrittenBack(mode, disk, lines, at, low, high);
      disk := Spliced(disk, l.block + low, l.data[low..high + 1]);
      lines := lines[at := l.(dirty := {}, flagged := false)];
      SettledTrans(before, validated, lines);
      SettledKeeps(validated, lines);
      wrote := true;
    }

    /** Writes the dirty blocks of a line, and of the dirty lines that follow it on the disk
        (`copybackiocache`). */
    method CopyBackIOCache(i: nat)
      requires Valid() && i < |lines|
      modifies `lines, `disk
      ensures Valid() && Held() == old(Held()) && Settled(old(lines), lines)
      ensures lines[i].dirty == {} && WrittenOn(old(lines), lines, i)
    {
      hide Mode.StartOf, Mode.LengthOf, LinesOk, Contents, Settled, OrderOk, WrittenTo, Follows;
      ghost var before, held := lines, Held();
      SettledTrivially(lines);
      WrittenNone(lines, i);
      var at: int := i;
      while at >= 0 && lines[at].blocks != 0 && lines[at].flagged
        invariant Valid() && Held() == held && Settled(before, lines) && |lines| == |before|
        invariant -1 <= at < |lines| && (at == i || lines[i].dirty == {})
        invariant WrittenTo(before, lines, i, at)
        decreases if at < 0 then 0 else mode.total + 1 - lines[at].block
      {
        LineFacts(mode, disk, lines, at);
        ghost var between := lines;
        var l := lines[at];
        var wrote := CopyBackLine(at);
        SettledTrans(before, between, lines);
        SettledKeeps(between, lines);
        if !wrote {
          WrittenEnd(before, between, lines, i, at);
          at := -1;
          break;
        }
        var next := FindIOCache(l.block + l.blocks);
        if next >= 0 {
          NextBehind(mode, disk, lines, at, next);
          NextAfter(lines, at, next);
        } else {
          NoneBehind(lines, at);
        }
        WrittenMore(before, between, lines, i, at, next);
        at := next;
      }
      if at >= 0 {
        LineFacts(mode, disk, lines, at);
        SettledTrivially(lines);
        WrittenEnd(before, lines, lines, i, at);
      }
      WrittenAll(before, lines, i);
    }

    /** Writes all dirty blocks (`flushiocache`): the disk holds everything then. */
    method FlushIOCache()
      requires Valid()
      modifies `lines, `disk
      ensures Valid() && AllClean(lines) && Settled(old(lines), lines)
      ensures disk == Held() == old(Held())
    {
      hide Mode.StartOf, Mode.LengthOf, LinesOk, Contents, OrderOk;
      ghost var before := lines;
      var p := 0;
      while p < |order|
        invariant Valid() && Held() == old(Held()) && p <= |order| && Settled(before, lines)
        invariant forall q :: 0 <= q < p ==> order[q] < |lines| && lines[order[q]].dirty == {}
        decreases |order| - p
      {
        OrderFacts(order, |lines|);
        ghost var between := lines;
        CopyBackIOCache(order[p]);
        SettledTrans(before, between, lines);
        forall q | 0 <= q < p ensures lines[order[q]].dirty == {} {
          assert SettledAt(between[order[q]], lines[order[q]]);
        }
        p := p + 1;
      }
      AllListed(order, lines);
      AllCleanOnDisk(mode, disk, lines);
    }

    /** Moves lines from the front of the list to its end, up to one that is not locked. */
    method NextUnlocked() returns (i: nat)
      requires Sound()
      modifies `order
      ensures Sound() && i < |lines| && LeastUsed(lines, old(order), i, order)
      ensures !lines[i].locked && order[|order| - 1] == i != old(order[|order| - 1])
    {
      hide OrderOk, LeastUsed;
      OrderFacts(order, |lines|);
      ghost var first := order;
      i := order[0];
      FirstLine(lines, order);
      MoveToEnd(0);
      if lines[i].locked {
        i := order[0];
        MoveToEnd(0);
        assert i == first[1];
      }
    }

    /** Empties the least recently used line that is not locked (`lruiocache`). */
    method LruIOCache() returns (i: nat)
      requires Valid()
      modifies `lines, `disk, `order
      ensures Valid() && Held() == old(Held())
      ensures i < |lines| == |old(lines)| && lines[i].blocks == 0 && lines[i].dirty == {}
      ensures lines[i].valid == {} && !lines[i].flagged
      ensures LeastUsed(old(lines), old(order), i, order)
      ensures !lines[i].locked && order[|order| - 1] == i != old(order[|order| - 1])
      ensures forall j :: 0 <= j < |lines| && j != i ==> SettledAt(old(lines)[j], lines[j])
    {
      hide Mode.StartOf, Mode.LengthOf, LinesOk, Contents, OrderOk, WrittenOn;
      i := NextUnlocked();
      ghost var before := lines;
      CopyBackIOCache(i);
      ghost var between := lines;
      Invalidated(mode, disk, lines, i);
      lines := lines[i := Unused(lines[i])];
      forall j | 0 <= j < |lines| && j != i ensures SettledAt(before[j], lines[j]) {
        assert SettledAt(before[j], between[j]);
      }
      assert SettledAt(before[i], between[i]);
      forall j | 0 <= j < |lines|
        ensures lines[j].locked == before[j].locked && (before[j].blocks == 0 ==> lines[j].blocks == 0)
      {
        assert SettledAt(before[j], between[j]);
      }
    }

    /** Locates the line for a block, or takes another line for it and reads that if `reading`. */
    method Obtain(block: nat, reading: bool) returns (i: nat)
      requires Valid() && block < mode.total && (mode.readonwrite ==> reading)
      modifies `lines, `disk, `order
      ensures Valid() && Held() == old(Held()) && i < |lines| == |old(lines)| && Has(lines[i], block)
      ensures order[|order| - 1] == i
      ensures Turned(old(lines), old(order), block, i, order)
      ensures Unclaimed(old(lines), block) ==> lines[i].valid == if reading then AllBits() else {}
      ensures SettledAt(old(lines[order[|order| - 1]]), lines[old(order[|order| - 1])])
    {
      hide Mode.StartOf, Mode.LengthOf, LinesOk, Contents, OrderOk, UsedLast, LeastUsed;
      OrderFacts(order, |lines|);
      var found := LocateIOCache(block);
      OrderFacts(order, |lines|);
      if found >= 0 {
        return found;
      }
      ghost var before := lines;
      i := LruIOCache();
      forall j | 0 <= j < |lines| ensures !Has(lines[j], block) {
        assert j != i ==> SettledAt(before[j], lines[j]);
      }
      LineFacts(mode, disk, lines, i);
      var start := mode.StartOf(block);
      var length := mode.LengthOf(start);
      LineAround(mode, block);
      var data := lines[i].data;
      if reading {
        ReadBuffer(mode, disk, lines, i, data, start, length);
        data := disk[start..start + length] + data[length..];
      } else {
        ReadBuffer(mode, disk, lines, i, data, start, 0);
      }
      var valid := if reading then AllBits() else {};
      assert 0 in AllBits() by { assert IsBit(0); }
      Taken(mode, disk, lines, i, block, data, valid);
      lines := lines[i := Line(start, length, data, {}, valid, false, lines[i].locked)];
    }

    /** The line for a block, which is read if there is none (`readintocache`). */
    method ReadIntoCache(block: nat) returns (i: nat)
      requires Valid() && block < mode.total
      modifies `lines, `disk, `order
      ensures Valid() && Held() == old(Held()) && i < |lines| && Has(lines[i], block) && order[|order| - 1] == i
      ensures Turned(old(lines), old(order), block, i, order)
      ensures Unclaimed(old(lines), block) ==> lines[i].valid == AllBits()
    {
      i := Obtain(block, true);
    }

    /** The line for a block; if there is none it is read only if lines are always read before they
        are written (`readonwriteintocache`).  The line used before this one stays. */
    method ReadOnWriteIntoCache(block: nat) returns (i: nat)
      requires Valid() && block < mode.total
      modifies `lines, `disk, `order
      ensures Valid() && Held() == old(Held()) && i < |lines| == |old(lines)| && Has(lines[i], block)
      ensures order[|order| - 1] == i
      ensures Turned(old(lines), old(order), block, i, order)
      ensures Unclaimed(old(lines), block) ==> lines[i].valid == if mode.readonwrite then AllBits() else {}
      ensures SettledAt(old(lines[order[|order| - 1]]), lines[old(order[|order| - 1])])
    {
      i := Obtain(block, mode.readonwrite);
    }
  
    // ----- Reading

    /** Writes back all lines that are for some of these blocks (`copybackoverlappingiocaches`). */
    method CopyBackOverlapping(block: nat, n: nat)
      requires Valid() && n > 0 && block + n <= mode.total
      modifies `lines, `disk, `order
      ensures Valid() && Held() == old(Held()) && Settled(old(lines), lines)
      ensures forall b: nat, j: nat ::
          block <= b < block + n && j < |lines| && Has(lines[j], b) ==> lines[j].dirty == {}
    {
      hide Mode.StartOf, Mode.LengthOf, LinesOk, Contents, OrderOk, Settled;
      LineFacts(mode, disk, lines, 0);
      var last, at := mode.StartOf(block + n - 1), mode.StartOf(block);
      StartFacts(mode, block);
      StartFacts(mode, block + n - 1);
      ghost var start := lines;
      SettledTrivially(lines);
      while at <= last
        invariant Valid() && Held() == old(Held()) && at == mode.StartOf(at) && Settled(start, lines)
        invariant forall b: nat, j: nat :: block <= b < at && j < |lines| && Has(lines[j], b) ==> lines[j].dirty == {}
        decreases last + mode.size - at
      {
        ghost var before := lines;
        var i := LocateIOCache(at);
        if i >= 0 {
          CopyBackIOCache(i);
          SettledKeeps(before, lines);
          SettledTrans(start, before, lines);
        }
        forall b: nat, j: nat | block <= b < at + mode.size && j < |lines| && Has(lines[j], b)
          ensures lines[j].dirty == {}
        {
          if at <= b {
            OneLine(mode, disk, lines, j, at, b);
            if i >= 0 { HasOnce(mode, disk, lines, i, j, at); }
          } else {
            assert Has(before[j], b);
          }
        }
        NextStart(mode, at);
        at := at + mode.size;
      }
      StartsApart(mode, last, at);
    }

    /** Reads n blocks (`read`): what a disk without a cache would give. */
    method Read(block: nat, n: nat) returns (buffer: seq<Data>)
      requires Valid() && block + n <= mode.total
      modifies `lines, `disk, `order
      ensures Valid() && Held() == old(Held()) && |Held()| == mode.total
      ensures buffer == Held()[block..block + n]
      ensures 0 < n <= mode.size / 2 ==> Keeps(lines, block + n - 1)
      ensures n > mode.size / 2 ==> Settled(old(lines), lines)
    {
      hide Mode.StartOf, Mode.LengthOf, LinesOk, Contents, OrderOk, Settled, Keeps;
      LineFacts(mode, disk, lines, 0);
      HeldFacts(disk, lines);
      buffer := [];
      ghost var held := Held();
      assert held[block..block] == [];
      if n == 0 {
        return;
      }
      if n <= mode.size / 2 {
        var at := block;
        while at < block + n
          invariant Valid() && Held() == held && block <= at <= block + n && buffer == held[block..at]
          invariant at > block ==> Keeps(lines, at - 1)
          decreases block + n - at
        {
          var part := ReadFromLine(at, block + n - at);
          SlicesJoin(held, block, at, at + |part|);
          buffer := buffer + part;
          at := at + |part|;
        }
      } else {
        CopyBackOverlapping(block, n);
        HeldFacts(disk, lines);
        buffer := disk[block..block + n];
        forall k | 0 <= k < n ensures buffer[k] == held[block + k] {
          CleanOnDisk(mode, disk, lines, block + k);
        }
        assert buffer == held[block..block + n];
      }
    }

    /** Copies as much as one line has of the n blocks. */
    method ReadFromLine(block: nat, n: nat) returns (part: seq<Data>)
      requires Valid() && n > 0 && block + n <= mode.total
      modifies `lines, `disk, `order
      ensures Valid() && Held() == old(Held()) && |Held()| == mode.total && 0 < |part| <= n
      ensures Keeps(lines, block + |part| - 1)
      ensures part == Held()[block..block + |part|]
    {
      hide Mode.StartOf, Mode.LengthOf, LinesOk, Contents, OrderOk, Settled, Turned, UsedLast, Unclaimed;
      var i := ReadIntoCache(block);
      LineFacts(mode, disk, lines, i);
      var offset := block - lines[i].block;
      var length := Min(n, lines[i].blocks - offset);
      ghost var before := lines;
      ValidateIOCache(i, offset, length);
      SettledKeeps(before, lines);
      LineFacts(mode, disk, lines, i);
      HeldFacts(disk, lines);
      part := lines[i].data[offset..offset + length];
      forall k: nat | k < length ensures part[k] == Held()[block + k] {
        ValueInLine(mode, disk, lines, i, block + k);
      }
    }

    /** Reads a few bytes of a block (`readbytes`). */
    method ReadBytes(block: nat, offset: nat, n: nat) returns (part: seq<Byte>)
      requires Valid() && block < mode.total && offset + n <= mode.bytes
      modifies `lines, `disk, `order
      ensures Valid() && Held() == old(Held()) && |Held()| == mode.total && |Held()[block]| == mode.bytes
      ensures part == Held()[block][offset..offset + n]
    {
      hide Mode.StartOf, Mode.LengthOf, LinesOk, Contents, OrderOk, Settled;
      var data := ReadFromLine(block, 1);
      HeldBytes(mode, disk, lines, block);
      part := data[0][offset..offset + n];
    }

    // ----- Writing

    /** Puts data from block `from` on in the line that starts at `at`, if there is one. */
    method OverwriteLine(at: nat, from: nat, piece: seq<Data>, ghost d: seq<Data>)
      requires LinesOk(mode, d, lines) && Sound() && at == mode.StartOf(at) && at <= from && |piece| > 0
      requires from + |piece| <= at + mode.size && from + |piece| <= mode.total == |d|
      requires forall k :: 0 <= k < |piece| ==> |piece[k]| == mode.bytes
      modifies `lines, `order
      ensures LinesOk(mode, Spliced(d, from, piece), lines) && Sound() && Settled(old(lines), lines)
      ensures Contents(Spliced(d, from, piece), lines) == Spliced(Contents(d, old(lines)), from, piece)
      ensures Filled(lines, from, from + |piece|)
    {
      hide Mode.StartOf, Mode.LengthOf, LinesOk, Contents, OrderOk, Settled, Spliced;
      ghost var before := lines;
      SettledTrivially(lines);
      var i := LocateIOCache(at);
      if i >= 0 {
        OneLine(mode, d, lines, i, at, at);
        LineFacts(mode, d, lines, i);
        LineAround(mode, at);
        LineEnd(mode, at, from + |piece|);
        var l := lines[i];
        WrittenOver(mode, d, lines, i, from, piece);
        var dirty := if mode.copyback && l.flagged then l.dirty - Range(from - at, |piece|) else l.dirty;
        lines := lines[i := l.(data := Spliced(l.data, from - at, piece), dirty := dirty,
          valid := l.valid + Range(from - at, |piece|))];
        assert dirty == l.dirty - Range(from - at, |piece|);
        SettledOne(before, i, lines[i]);
        SettledKeeps(before, lines);
      } else {
        forall b: nat | from <= b < from + |piece| ensures Unclaimed(lines, b) {
          forall j: nat | j < |lines| && Has(lines[j], b) ensures false {
            OneLine(mode, d, lines, j, at, b);
          }
        }
        WrittenPast(mode, d, lines, from, piece);
      }
      forall j: nat, q: nat | j < |lines| && q < lines[j].blocks && from <= lines[j].block + q < from + |piece|
        ensures IsValid(lines[j], q) && q !in lines[j].dirty
      {
        InRange(from - at, |piece|, lines[j].block + q - at);
        OneLine(mode, Spliced(d, from, piece), lines, j, at, lines[j].block + q);
        if i >= 0 { HasOnce(mode, Spliced(d, from, piece), lines, i, j, at); }
      }
    }

    /** Puts the data in all lines that are for some of the blocks
        (`writethroughoverlappingiocaches`), as if the data were on the disk already: `d` is the disk
        with which the lines agree. */
    method WriteOverlapping(block: nat, buffer: seq<Data>, ghost d: seq<Data>)
      requires LinesOk(mode, d, lines) && Sound() && |buffer| > 0 && block + |buffer| <= mode.total == |d|
      requires forall k :: 0 <= k < |buffer| ==> |buffer[k]| == mode.bytes
      modifies `lines, `order
      ensures LinesOk(mode, Spliced(d, block, buffer), lines) && Sound() && Settled(old(lines), lines)
      ensures Contents(Spliced(d, block, buffer), lines) == Spliced(Contents(d, old(lines)), block, buffer)
      ensures Filled(lines, block, block + |buffer|)
    {
      hide Mode.StartOf, Mode.LengthOf, LinesOk, Contents, OrderOk, Settled, Spliced, Overwritten;
      ghost var before := lines;
      LineFacts(mode, d, lines, 0);
      SettledTrivially(lines);
      var end := block + |buffer|;
      var last, at := mode.StartOf(end - 1), mode.StartOf(block);
      StartFacts(mode, block);
      StartFacts(mode, end - 1);
      var from := block;
      HeldFacts(d, lines);
      NothingSpliced(d, block, buffer);
      NothingSpliced(Contents(d, lines), block, buffer);
      while at <= last
        invariant from == (if at < block then block else Min(at, end)) && at == mode.StartOf(at) && at < end + mode.size
        invariant Sound() && |lines| == |before| && Settled(before, lines)
        invariant LinesOk(mode, Spliced(d, block, buffer[..from - block]), lines)
        invariant Contents(Spliced(d, block, buffer[..from - block]), lines)
            == Spliced(Contents(d, before), block, buffer[..from - block])
        invariant Filled(lines, block, from)
        decreases last + mode.size - at
      {
        var to := Min(at + mode.size, end);
        ghost var between := lines;
        OverwriteLine(at, from, buffer[from - block..to - block], Spliced(d, block, buffer[..from - block]));
        SplicedMore(d, block, buffer, from - block, to - block);
        SplicedMore(Contents(d, before), block, buffer, from - block, to - block);
        SettledTrans(before, between, lines);
        FilledMore(between, lines, block, from, to);
        from := to;
        NextStart(mode, at);
        at := at + mode.size;
      }
      StartsApart(mode, last, at);
      assert buffer[..|buffer|] == buffer;
    }

    /** Writes to the disk and to the lines that are for some of the blocks (`writethrough`).  The
        lines may have the data already: they agree with `d`. */
    method WriteThrough(block: nat, buffer: seq<Data>, ghost d: seq<Data>)
      requires LinesOk(mode, d, lines) && Sound() && |buffer| > 0 && block + |buffer| <= mode.total == |d| == |disk|
      requires forall k :: 0 <= k < |buffer| ==> |buffer[k]| == mode.bytes
      requires forall b :: 0 <= b < mode.total && !(block <= b < block + |buffer|) ==> d[b] == disk[b]
      modifies `lines, `order, `disk
      ensures Valid() && Held() == Spliced(Contents(d, old(lines)), block, buffer)
      ensures disk == Spliced(old(disk), block, buffer) && Filled(lines, block, block + |buffer|)
    {
      hide Mode.StartOf, Mode.LengthOf, LinesOk, Contents, OrderOk, Settled;
      WriteOverlapping(block, buffer, d);
      assert Spliced(disk, block, buffer) == Spliced(d, block, buffer);
      disk := Spliced(disk, block, buffer);
    }

    /** These blocks may stay dirty in their lines: there are at most a quarter of a line of them. */
    predicate StaysInCache(n: nat) {
      mode.copyback && n > 0 && (n == 1 || 4 * n <= mode.size)
    }

    /** A write of no blocks at the start of a line that data may stay dirty in. */
    predicate MarksLine(block: nat, buffer: seq<Data>)
      requires mode.size > 0
    {
      |buffer| == 0 && mode.copyback && mode.StartOf(block) == block
    }

    /** Line `at` of `was` is the whole line that starts with this block. */
    ghost predicate WasBlind(block: nat, was: seq<Line>, at: nat)
      reads this
    {
      && LinesOk(mode, disk, was) && at < |was| && was[at].block == block && was[at].blocks == mode.size
      && block + mode.size <= |disk| && |was[at].data| == mode.size
    }

    /** Writes blocks (`write`): afterwards they read as the data, and all others as before.  With no
        blocks at the start of a line the whole line may be marked instead: `was` are the lines just before
        that, and `at` is the line. */
    method Write(block: nat, buffer: seq<Data>) returns (ghost was: seq<Line>, ghost at: nat)
      requires Valid() && block + |buffer| <= mode.total
      requires |buffer| == 0 ==> 0 < block < mode.total
      requires MarksLine(block, buffer) ==> block + mode.size <= mode.total
      requires forall k :: 0 <= k < |buffer| ==> |buffer[k]| == mode.bytes
      modifies `lines, `order, `disk
      ensures Valid() && |old(Held())| == mode.total
      ensures !MarksLine(block, buffer) ==> Held() == Spliced(old(Held()), block, buffer)
      ensures StaysInCache(|buffer|) ==> DirtyFrom(lines, block, |buffer|)
      ensures |buffer| == 0 && mode.copyback ==> FlaggedFor(lines, block)
      ensures |buffer| > 0 && !StaysInCache(|buffer|) ==>
        disk == Spliced(old(disk), block, buffer) && Filled(lines, block, block + |buffer|)
      ensures MarksLine(block, buffer) ==> WasBlind(block, was, at) && Contents(disk, was) == old(Held())
      ensures MarksLine(block, buffer) ==>
        (Held() == old(Held()) <==> forall k: nat :: k < mode.size ==> Untroubled(disk, was[at], k))
    {
      hide Mode.StartOf, Mode.LengthOf, LinesOk, Contents, OrderOk, Settled;
      LineFacts(mode, disk, lines, 0);
      HeldFacts(disk, lines);
      was, at := [], 0;
      var most := mode.size / 4;
      if most == 0 {
        most := 1;
      }
      if MarksLine(block, buffer) {
        was, at := WriteNothingAtStart(block);
      } else if |buffer| == 0 {
        WriteNothing(block);
        assert Spliced(old(Held()), block, buffer) == old(Held());
      } else if mode.copyback && |buffer| <= most {
        WriteInCache(block, buffer);
      } else {
        WriteThrough(block, buffer, disk);
      }
    }

    /** What `write` does for no blocks: the line is located, and flagged if it might be written to. */
    method WriteNothing(block: nat)
      requires Valid() && 0 < block < mode.total && !MarksLine(block, [])
      modifies `lines, `order, `disk
      ensures Valid() && Held() == old(Held())
      ensures mode.copyback ==> FlaggedFor(lines, block)
    {
      hide Mode.StartOf, Mode.LengthOf, LinesOk, Contents, OrderOk, Turned, UsedLast, Unclaimed;
      LineFacts(mode, disk, lines, 0);
      if mode.copyback {
        var i := ReadOnWriteIntoCache(block);
        LineFacts(mode, disk, lines, i);
        LineAround(mode, block);
        var j := ReadOnWriteIntoCache(block - 1);
        var k := LocateIOCache(mode.StartOf(block));
        SameLine(mode, disk, lines, i, j, block - 1);
        assert i == j;
        Flagged(mode, disk, lines, i);
        lines := lines[i := lines[i].(flagged := true)];
        assert Has(lines[i], block);
      } else if mode.StartOf(block) != block {
        var k := LocateIOCache(mode.StartOf(block));
      }
    }

    /** What `write` does for no blocks at the start of a line: it counts the blocks up to the end of the
        line as written. */
    method WriteNothingAtStart(block: nat) returns (ghost was: seq<Line>, ghost at: nat)
      requires Valid() && 0 < block && MarksLine(block, []) && block + mode.size <= mode.total
      modifies `lines, `order, `disk
      ensures Valid() && WasBlind(block, was, at) && Contents(disk, was) == old(Held())
      ensures Held() == old(Held()) <==> forall k: nat :: k < mode.size ==> Untroubled(disk, was[at], k)
      ensures FlaggedFor(lines, block) && FlaggedFor(lines, block - 1)
    {
      hide Mode.StartOf, Mode.LengthOf, LinesOk, Contents, OrderOk, Turned, UsedLast, Unclaimed;
      LineFacts(mode, disk, lines, 0);
      var i := ReadOnWriteIntoCache(block);
      var j := ReadOnWriteIntoCache(block - 1);
      OneLine(mode, disk, lines, i, block, block);
      LineFacts(mode, disk, lines, i);
      FullLine(mode, block);
      Flagged(mode, disk, lines, j);
      lines := lines[j := lines[j].(flagged := true)];
      was, at := lines, i;
      MarkedBlindly(mode, disk, lines, i);
      lines := lines[i := Marked(lines[i], 0, mode.size)];
      assert Has(lines[i], block) && lines[i].flagged;
      assert Has(lines[j], block - 1) && lines[j].flagged;
    }

    /** The part of `write` that leaves the data dirty in the one or two lines they belong to. */
    method WriteInCache(block: nat, buffer: seq<Data>)
      requires Valid() && mode.copyback && 0 < |buffer| <= mode.size && block + |buffer| <= mode.total
      requires forall k :: 0 <= k < |buffer| ==> |buffer[k]| == mode.bytes
      modifies `lines, `order, `disk
      ensures Valid() && |old(Held())| == mode.total && Held() == Spliced(old(Held()), block, buffer)
      ensures DirtyFrom(lines, block, |buffer|)
    {
      hide Mode.StartOf, Mode.LengthOf, LinesOk, Contents, OrderOk, Settled, Turned, UsedLast, Unclaimed;
      LineFacts(mode, disk, lines, 0);
      HeldFacts(disk, lines);
      var i := ReadOnWriteIntoCache(block);
      var j := ReadOnWriteIntoCache(block + |buffer| - 1);
      ghost var before := lines;
      HeldFacts(disk, lines);
      LineFacts(mode, disk, lines, i);
      LinesDisk(mode, disk, lines);
      WriteOverlapping(block, buffer, disk);
      SettledKeeps(before, lines);
      MarkLines(block, buffer, i, j);
    }

    /** Marks what was put in one or two lines as dirty. */
    method MarkLines(block: nat, buffer: seq<Data>, i: nat, j: nat)
      requires DiskOk(mode, disk) && Sound() && mode.copyback && 0 < |buffer| <= mode.size
      requires block + |buffer| <= mode.total
      requires LinesOk(mode, Spliced(disk, block, buffer), lines) && Filled(lines, block, block + |buffer|)
      requires i < |lines| && j < |lines| && Has(lines[i], block) && Has(lines[j], block + |buffer| - 1)
      modifies `lines
      ensures Valid() && Held() == Contents(Spliced(disk, block, buffer), old(lines))
      ensures DirtyFrom(lines, block, |buffer|)
    {
      hide Mode.StartOf, Mode.LengthOf, LinesOk, Contents, OrderOk, DirtyFrom;
      ghost var d := Spliced(disk, block, buffer);
      LinesDisk(mode, d, lines);
      LineFacts(mode, d, lines, i);
      var offset := block - lines[i].block;
      if i == j {
        FilledLine(lines, block, block + |buffer|, i, offset, |buffer|);
        MarkDirty(i, offset, |buffer|, d, disk);
        DirtyInLine(lines, i, block, |buffer|);
      } else {
        TwoLines(mode, d, lines, i, j, block, |buffer|);
        var n := mode.size - offset;
        ghost var d' := Spliced(disk, block + n, buffer[n..]);
        HalfSpliced(disk, block, buffer, n);
        HalfOk(mode, disk, d, d');
        FilledLine(lines, block, block + |buffer|, i, offset, n);
        FilledLine(lines, block, block + |buffer|, j, 0, |buffer| - n);
        MarkDirty(i, offset, n, d, d');
        MarkDirty(j, 0, |buffer| - n, d', disk);
        DirtyInLine(lines, i, block, n);
        DirtyInLine(lines, j, block + n, |buffer| - n);
        DirtyJoined(lines, block, n, |buffer| - n);
      }
    }

    /** Marks valid blocks of a line dirty. */
    method MarkDirty(i: nat, k: nat, n: nat, ghost d: seq<Data>, ghost d': seq<Data>)
      requires LinesOk(mode, d, lines) && Sound() && i < |lines| && mode.copyback && n > 0 && k + n <= lines[i].blocks
      requires forall q: nat :: k <= q < k + n ==> IsValid(lines[i], q)
      requires DiskOk(mode, d') && |d| == mode.total
      requires forall b :: 0 <= b < mode.total && !(lines[i].block + k <= b < lines[i].block + k + n) ==> d'[b] == d[b]
      modifies `lines
      ensures LinesOk(mode, d', lines) && Sound() && Contents(d', lines) == Contents(d, old(lines))
      ensures lines == old(lines)[i := Marked(old(lines)[i], k, n)]
    {
      hide Mode.StartOf, Mode.LengthOf, LinesOk, Contents, OrderOk;
      MarkedDirty(mode, d, lines, i, k, n, d');
      lines := lines[i := Marked(lines[i], k, n)];
    }

    /** Writes a few bytes of a block (`writebytes`). */
    method WriteBytes(block: nat, part: seq<Byte>, offset: nat)
      requires Valid() && block < mode.total && offset + |part| <= mode.bytes
      modifies `lines, `order, `disk
      ensures Valid() && |old(Held())| == mode.total && |old(Held())[block]| == mode.bytes
      ensures Held() == old(Held())[block := Patched(old(Held())[block], offset, part)]
      ensures mode.copyback ==> DirtyFrom(lines, block, 1)
    {
      hide Mode.StartOf, Mode.LengthOf, LinesOk, Contents, OrderOk, Settled, Overwritten;
      HeldBytes(mode, disk, lines, block);
      var i := ReadIntoCache(block);
      LineFacts(mode, disk, lines, i);
      var k := block - lines[i].block;
      ghost var before := lines;
      ValidateIOCache(i, k, 1);
      SettledKeeps(before, lines);
      LineFacts(mode, disk, lines, i);
      HeldBytes(mode, disk, lines, block);
      HeldFacts(disk, lines);
      ValueInLine(mode, disk, lines, i, block);
      PatchLine(i, block, Patched(lines[i].data[k], offset, part));
    }

    /** The part of `writebytes` that puts the new block in its line, and on the disk unless it may stay
        dirty. */
    method PatchLine(i: nat, block: nat, data: Data)
      requires Valid() && block < mode.total && i < |lines| && Has(lines[i], block) && |data| == mode.bytes
      requires IsValid(lines[i], block - lines[i].block)
      modifies `lines, `order, `disk
      ensures Valid() && |old(Held())| == mode.total && Held() == old(Held())[block := data]
      ensures mode.copyback ==> DirtyFrom(lines, block, 1)
    {
      hide Mode.StartOf, Mode.LengthOf, LinesOk, Contents, OrderOk, Settled, Overwritten;
      LineFacts(mode, disk, lines, i);
      HeldFacts(disk, lines);
      WrittenOver(mode, disk, lines, i, block, [data]);
      var l := lines[i];
      var k := block - l.block;
      ghost var d, held := Spliced(disk, block, [data]), Held();
      ghost var over := lines[i := Overwritten(l, block, [data])];
      assert Spliced(held, block, [data]) == held[block := data];
      OverwrittenOne(l, block, data);
      LinesDisk(mode, disk, lines);
      if !mode.copyback {
        // `write` goes on to `writethrough`.
        lines := lines[i := l.(data := l.data[k := data])];
        assert lines == over;
        WriteThrough(block, [data], d);
        assert Spliced(held[block := data], block, [data]) == held[block := data];
      } else {
        MarkedDirty(mode, d, over, i, k, 1, disk);
        lines := lines[i := l.(data := l.data[k := data], dirty := l.dirty + Range(k, 1), flagged := true)];
        assert lines == over[i := Marked(over[i], k, 1)];
        DirtyInLine(lines, i, block, 1);
      }
    }
  }

  /** A block with some of its bytes replaced. */
  function Patched(data: Data, offset: nat, part: seq<Byte>): (r: Data)
    requires offset + |part| <= |data|
    ensures |r| == |data|
    ensures forall k :: 0 <= k < |data| ==> r[k] == if offset <= k < offset + |part| then part[k - offset] else data[k]
  {
    data[..offset] + part + data[offset + |part|..]
  }

  lemma FreshLines(m: Mode, disk: seq<Data>, lines: seq<Line>)
    requires m.Valid() && DiskOk(m, disk)
    requires forall i :: 0 <= i < |lines| ==> lines[i] == Line(0, 0, lines[i].data, {}, {}, false, lines[i].locked)
    requires forall i ::
        0 <= i < |lines| ==> |lines[i].data| == m.size && forall k :: 0 <= k < m.size ==> |lines[i].data[k]| == m.bytes
    ensures LinesOk(m, disk, lines)
  {
    forall i | 0 <= i < |lines| ensures LineOk(m, disk, lines[i]) { }
  }

  lemma FreshOrder(order: seq<nat>)
    requires forall p :: 0 <= p < |order| ==> order[p] == p
    ensures OrderOk(order, |order|)
  {
    forall i: nat | i < |order| ensures i in order { assert order[i] == i; }
  }

  // ----- Runs

  /** What a client asks of the cache. */
  datatype Request =
    | ReadBlocks(block: nat, n: nat)
    | WriteBlocks(block: nat, buffer: seq<Data>)
    | ReadPart(block: nat, offset: nat, n: nat)
    | WritePart(block: nat, offset: nat, part: seq<Byte>)
    | Flush

  predicate Proper(r: Request, total: nat, bytes: nat) {
    match r
    case ReadBlocks(b, n) => b + n <= total
    case WriteBlocks(b, buffer) => |buffer| > 0 && b + |buffer| <= total && forall k ::
        0 <= k < |buffer| ==> |buffer[k]| == bytes
    case ReadPart(b, offset, n) => b < total && offset + n <= bytes
    case WritePart(b, offset, part) => b < total && offset + |part| <= bytes
    case Flush => true
  }

  /** The answer of a disk without a cache, and what that disk holds afterwards. */
  function OnFlatDisk(d: seq<Data>, r: Request, bytes: nat): (after: (seq<Data>, seq<Data>))
    requires Proper(r, |d|, bytes) && forall b :: 0 <= b < |d| ==> |d[b]| == bytes
    ensures |after.0| == |d| && forall b :: 0 <= b < |d| ==> |after.0[b]| == bytes
  {
    match r
    case ReadBlocks(b, n) => (d, d[b..b + n])
    case WriteBlocks(b, buffer) => (Spliced(d, b, buffer), [])
    case ReadPart(b, offset, n) => (d, [d[b][offset..offset + n]])
    case WritePart(b, offset, part) => (d[b := Patched(d[b], offset, part)], [])
    case Flush => (d, [])
  }

  /** A run on a disk without a cache: what it holds at the end and all answers. */
  function FlatRun(d: seq<Data>, rs: seq<Request>, bytes: nat): (after: (seq<Data>, seq<seq<Data>>))
    requires forall k :: 0 <= k < |rs| ==> Proper(rs[k], |d|, bytes)
    requires forall b :: 0 <= b < |d| ==> |d[b]| == bytes
    ensures |after.0| == |d| && |after.1| == |rs| && forall b :: 0 <= b < |d| ==> |after.0[b]| == bytes
  {
    if rs == [] then (d, [])
    else
      var (before, answers) := FlatRun(d, rs[..|rs| - 1], bytes);
      var (end, answer) := OnFlatDisk(before, rs[|rs| - 1], bytes);
      (end, answers + [answer])
  }

  /** Any run of requests is answered as a disk without a cache would, in every mode of the cache;
      when the last one is a flush, and always if data may not stay dirty in the lines, the disk holds
      what that disk would. */
  method Serve(cache: IOCache, rs: seq<Request>) returns (answers: seq<seq<Data>>)
    requires cache.Valid() && forall k :: 0 <= k < |rs| ==> Proper(rs[k], cache.mode.total, cache.mode.bytes)
    modifies cache
    ensures cache.Valid()
    ensures DiskOk(cache.mode, old(cache.Held()))
    ensures (cache.Held(), answers) == FlatRun(old(cache.Held()), rs, cache.mode.bytes)
    ensures |rs| > 0 && rs[|rs| - 1] == Flush ==> cache.disk == FlatRun(old(cache.Held()), rs, cache.mode.bytes).0
    ensures !cache.mode.copyback ==> cache.disk == FlatRun(old(cache.Held()), rs, cache.mode.bytes).0
  {
    ghost var start := cache.Held();
    HeldOk(cache.mode, cache.disk, cache.lines);
    answers := [];
    hide LinesOk, Contents, OrderOk;
    for i := 0 to |rs|
      invariant cache.Valid() && (cache.Held(), answers) == FlatRun(start, rs[..i], cache.mode.bytes)
      invariant i > 0 && rs[i - 1] == Flush ==> cache.disk == cache.Held()
    {
      assert rs[..i + 1][..i] == rs[..i];
      var answer := ServeOne(cache, rs[i]);
      answers := answers + [answer];
    }
    assert rs[..|rs|] == rs;
    if !cache.mode.copyback {
      NoneDirty(cache.mode, cache.disk, cache.lines);
    }
  }

  lemma NoneDirty(m: Mode, disk: seq<Data>, lines: seq<Line>)
    requires LinesOk(m, disk, lines) && !m.copyback
    ensures Contents(disk, lines) == disk
  {
    forall i: nat | i < |lines| ensures lines[i].dirty == {} {
      assert LineOk(m, disk, lines[i]);
    }
    AllCleanOnDisk(m, disk, lines);
  }

  method ServeOne(cache: IOCache, r: Request) returns (answer: seq<Data>)
    requires cache.Valid() && Proper(r, cache.mode.total, cache.mode.bytes)
    modifies cache
    ensures cache.Valid()
    ensures DiskOk(cache.mode, old(cache.Held()))
    ensures (cache.Held(), answer) == OnFlatDisk(old(cache.Held()), r, cache.mode.bytes)
    ensures r == Flush ==> cache.disk == cache.Held()
  {
    HeldOk(cache.mode, cache.disk, cache.lines);
    hide LinesOk, Contents, OrderOk;
    answer := [];
    match r {
      case ReadBlocks(b, n) => answer := cache.Read(b, n);
      case WriteBlocks(b, buffer) => ghost var _, _ := cache.Write(b, buffer);
      case ReadPart(b, offset, n) =>
        var part := cache.ReadBytes(b, offset, n);
        answer := [part];
      case WritePart(b, offset, part) => cache.WriteBytes(b, part, offset);
      case Flush => cache.FlushIOCache();
    }
  }

  lemma HeldOk(m: Mode, disk: seq<Data>, lines: seq<Line>)
    requires LinesOk(m, disk, lines)
    ensures DiskOk(m, Contents(disk, lines))
  {
    hide Value, LineOk;
    forall b: nat | b < m.total ensures |Contents(disk, lines)[b]| == m.bytes {
      HeldBytes(m, disk, lines, b);
    }
  }

  lemma MovedOrder(order: seq<nat>, p: nat)
    requires p < |order| && OrderOk(order, |order|)
    ensures OrderOk(order[..p] + order[p + 1..] + [order[p]], |order|)
  {
    var order' := order[..p] + order[p + 1..] + [order[p]];
    forall i: nat | i < |order| ensures i in order' {
      assert i in order;
      var q :| 0 <= q < |order| && order[q] == i;
      assert order'[if q < p then q else if q > p then q - 1 else |order| - 1] == i;
    }
  }

  /** The line to write next had nothing dirty. */
  lemma WrittenEnd(before: seq<Line>, lines: seq<Line>, lines': seq<Line>, i: nat, at: nat)
    requires WrittenTo(before, lines, i, at) && Settled(lines, lines') && at < |lines| && lines[at].dirty == {}
    requires forall k :: 0 <= k < |lines'| ==> lines'[k].dirty == lines[k].dirty
    ensures WrittenTo(before, lines', i, -1)
  {
    SameFollows(lines, lines');
    assert forall j: nat :: Cleaned(before, lines', j) <==> Cleaned(before, lines, j);
  }

  /** Line `at` has been written, and `next` follows it. */
  lemma WrittenMore(before: seq<Line>, lines: seq<Line>, lines': seq<Line>, i: nat, at: nat, next: int)
    requires WrittenTo(before, lines, i, at) && Settled(lines, lines') && at < |lines|
    requires lines[at].dirty != {} && lines'[at].dirty == {}
    requires forall k :: 0 <= k < |lines'| && k != at ==> lines'[k].dirty == lines[k].dirty
    requires next >= 0 ==> Follows(lines', at, next)
    requires forall k: nat :: Follows(lines', at, k) ==> k == next
    ensures WrittenTo(before, lines', i, next)
  {
    SameFollows(lines, lines');
    assert forall j: nat :: Cleaned(before, lines', j) <==> Cleaned(before, lines, j) || j == at;
  }

  lemma SameFollows(lines: seq<Line>, lines': seq<Line>)
    requires Settled(lines, lines')
    ensures forall j: nat, k: nat :: Follows(lines', j, k) <==> Follows(lines, j, k)
  {
    forall j: nat, k: nat | j < |lines| && k < |lines|
      ensures Follows(lines', j, k) <==> Follows(lines, j, k)
    {
      assert SettledAt(lines[j], lines'[j]) && SettledAt(lines[k], lines'[k]);
    }
  }

  lemma WrittenAll(before: seq<Line>, lines: seq<Line>, i: nat)
    requires WrittenTo(before, lines, i, -1)
    ensures WrittenOn(before, lines, i)
  {
  }

  /** At most two lines have to be moved, as only one is locked. */
  lemma FirstLine(lines: seq<Line>, order: seq<nat>)
    requires |order| >= 2 && order[0] < |lines| && order[1] < |lines|
    ensures !lines[order[0]].locked ==> LeastUsed(lines, order, order[0], order[..0] + order[1..] + [order[0]])
    ensures var turned := order[..0] + order[1..] + [order[0]];
      && turned[0] == order[1]
      && (lines[order[0]].locked && !lines[order[1]].locked
          ==> LeastUsed(lines, order, order[1], turned[..0] + turned[1..] + [order[1]]))
  {
    var turned := order[..0] + order[1..] + [order[0]];
    assert turned == order[1..] + order[..1];
    assert turned[..0] + turned[1..] + [order[1]] == order[2..] + order[..2];
    assert !lines[order[1]].locked && lines[order[0]].locked ==> forall q :: 0 <= q < 1 ==> lines[order[q]].locked;
  }

  lemma OrderFacts(order: seq<nat>, n: nat)
    requires OrderOk(order, n)
    ensures |order| == n && (forall p :: 0 <= p < n ==> order[p] < n) && (forall i: nat :: i < n ==> i in order)
    ensures forall p, q :: 0 <= p < q < n ==> order[p] != order[q]
  {
  }

  lemma AllListed(order: seq<nat>, lines: seq<Line>)
    requires OrderOk(order, |lines|)
    requires forall q :: 0 <= q < |order| ==> order[q] < |lines| && lines[order[q]].dirty == {}
    ensures AllClean(lines)
  {
    forall i: nat | i < |lines| ensures lines[i].dirty == {} {
      assert i in order;
    }
  }

  lemma LineFacts(m: Mode, disk: seq<Data>, lines: seq<Line>, i: nat)
    requires LinesOk(m, disk, lines) && i < |lines|
    ensures var l := lines[i];
      && 2 <= m.size <= 128 && |disk| == m.total && |l.data| == m.size && l.blocks <= m.size
          && l.block + l.blocks <= m.total
      && (forall k: nat :: k in l.dirty ==> k < l.blocks && k < 128 && IsValid(l, k)) && (l.dirty != {} ==> l.flagged)
      && (m.readonwrite ==> forall k: nat :: k < l.blocks ==> IsValid(l, k)) && (!m.copyback ==> l.dirty == {})
      && (l.blocks > 0 ==> l.block == m.StartOf(l.block) && l.blocks == m.LengthOf(l.block))
  {
    assert LineOk(m, disk, lines[i]);
    forall k: nat | k in lines[i].dirty ensures k < lines[i].blocks && k < 128 && IsValid(lines[i], k) {
      assert k in AllBits();
    }
  }

  lemma DataSizes(m: Mode, disk: seq<Data>, lines: seq<Line>, i: nat)
    requires LinesOk(m, disk, lines) && i < |lines|
    ensures |lines[i].data| == m.size && forall k :: 0 <= k < m.size ==> |lines[i].data[k]| == m.bytes
  {
    assert LineOk(m, disk, lines[i]);
  }

  /** A data area after a read into it. */
  lemma ReadBuffer(m: Mode, disk: seq<Data>, lines: seq<Line>, i: nat, data: seq<Data>, at: nat, n: nat)
    requires LinesOk(m, disk, lines) && i < |lines| && data == lines[i].data && n <= m.size && at + n <= m.total
    ensures |disk| == m.total && |data| == m.size
    ensures var r := disk[at..at + n] + data[n..];
      && |r| == m.size && (forall k :: 0 <= k < m.size ==> |r[k]| == m.bytes)
      && (forall k :: 0 <= k < n ==> r[k] == disk[at + k]) && (n == 0 ==> r == data)
  {
    assert LineOk(m, disk, lines[i]);
  }

  /** What the data area of an unused line holds does not matter. */
  lemma ReserveData(m: Mode, disk: seq<Data>, lines: seq<Line>, r: nat, data: seq<Data>)
    requires LinesOk(m, disk, lines) && r < |lines| && lines[r].blocks == 0 && |data| == m.size
    requires forall k :: 0 <= k < m.size ==> |data[k]| == m.bytes
    ensures LinesOk(m, disk, lines[r := lines[r].(data := data)])
    ensures Contents(disk, lines[r := lines[r].(data := data)]) == Contents(disk, lines)
    ensures Settled(lines, lines[r := lines[r].(data := data)])
  {
    hide Value;
    assert LineOk(m, disk, lines[r]);
    assert LineOk(m, disk, lines[r].(data := data));
    ChangeOk(m, disk, lines, r, lines[r].(data := data), disk);
    ChangeKeeps(m, disk, lines, r, lines[r].(data := data), disk);
  }

  /** The line found behind another one starts behind it. */
  lemma NextBehind(m: Mode, disk: seq<Data>, lines: seq<Line>, i: nat, j: nat)
    requires LinesOk(m, disk, lines) && i < |lines| && j < |lines| && lines[i].blocks > 0
    requires Has(lines[j], lines[i].block + lines[i].blocks)
    ensures lines[j].block < m.total && Follows(lines, i, j)
    ensures forall k: nat :: Follows(lines, i, k) ==> k == j
  {
    hide Mode.StartOf, Mode.LengthOf;
    assert LineOk(m, disk, lines[j]);
    var b := lines[i].block + lines[i].blocks;
    if lines[j].block < b {
      HasOnce(m, disk, lines, i, j, b - 1);
    }
    forall k: nat | Follows(lines, i, k) ensures k == j {
      HasOnce(m, disk, lines, j, k, b);
    }
  }

  lemma NoneBehind(lines: seq<Line>, i: nat)
    requires i < |lines| && Unclaimed(lines, lines[i].block + lines[i].blocks)
    ensures forall k: nat :: !Follows(lines, i, k)
  {
    forall k: nat | k < |lines| && lines[k].blocks > 0
      ensures lines[k].block != lines[i].block + lines[i].blocks
    {
      assert Has(lines[k], lines[k].block);
    }
  }

  lemma NextAfter(lines: seq<Line>, i: nat, j: nat)
    requires Follows(lines, i, j) && lines[i].blocks > 0
    ensures lines[j].block > lines[i].block
  {
  }

  lemma WrittenNone(lines: seq<Line>, i: nat)
    ensures WrittenTo(lines, lines, i, i)
  {
  }

  lemma LineAround(m: Mode, b: nat)
    requires m.size > 0 && b < m.total
    ensures m.StartOf(b) <= b < m.StartOf(b) + m.LengthOf(m.StartOf(b)) <= m.total && m.LengthOf(m.StartOf(b)) <= m.size
  {
    StartFacts(m, b);
  }

  /** The line that has a block of those behind `at` has block `at`. */
  lemma OneLine(m: Mode, disk: seq<Data>, lines: seq<Line>, j: nat, at: nat, b: nat)
    requires LinesOk(m, disk, lines) && j < |lines| && Has(lines[j], b) && at == m.StartOf(at) && at <= b < at + m.size
    ensures Has(lines[j], at) && lines[j].block == at
  {
    LineFacts(m, disk, lines, j);
    hide Mode.StartOf, Mode.LengthOf;
    StartIsLine(m, lines[j].block, b);
    StartIsLine(m, at, b);
  }

  lemma NextStart(m: Mode, at: nat)
    requires m.size > 0 && at == m.StartOf(at)
    ensures at + m.size == m.StartOf(at + m.size)
  {
    StartIsStart(at / m.size + 1, m.size);
  }

  lemma StartsApart(m: Mode, a: nat, b: nat)
    requires m.size > 0 && a == m.StartOf(a) && b == m.StartOf(b) && a < b
    ensures a + m.size <= b
  {
    hide Mode.StartOf;
    if b < a + m.size { StartIsLine(m, a, b); }
  }

  lemma SameLine(m: Mode, disk: seq<Data>, lines: seq<Line>, i: nat, j: nat, b: nat)
    requires LinesOk(m, disk, lines) && i < |lines| && j < |lines| && lines[i].blocks > 0 && Has(lines[j], b)
    ensures m.size > 0 && (lines[i].block <= b < lines[i].block + m.size ==> i == j)
  {
    hide Mode.StartOf, Mode.LengthOf;
    LineFacts(m, disk, lines, i);
    var s := lines[i].block;
    if s <= b < s + m.size {
      OneLine(m, disk, lines, j, s, b);
      HasOnce(m, disk, lines, i, j, s);
    }
  }

  /** A run no longer than a line that needs two lines fills the first one to its end. */
  lemma TwoLines(m: Mode, disk: seq<Data>, lines: seq<Line>, i: nat, j: nat, block: nat, n: nat)
    requires LinesOk(m, disk, lines) && i < |lines| && j < |lines| && i != j && 0 < n <= m.size
    requires Has(lines[i], block) && Has(lines[j], block + n - 1)
    ensures lines[i].blocks == m.size && lines[j].block == lines[i].block + m.size
    ensures block + n <= lines[j].block + lines[j].blocks && block + n > lines[j].block
  {
    LineFacts(m, disk, lines, i);
    LineFacts(m, disk, lines, j);
    var s := lines[i].block;
    hide Mode.StartOf;
    SameLine(m, disk, lines, i, j, block + n - 1);
    NextStart(m, s);
    StartIsLine(m, s + m.size, block + n - 1);
    StartIsLine(m, lines[j].block, block + n - 1);
  }

  /** All lines are valid, and not dirty, for the blocks from `from` up to, not including, `to`. */
  ghost predicate Filled(lines: seq<Line>, from: nat, to: nat) {
    forall j: nat, k: nat :: (j < |lines| && k < lines[j].blocks && from <= lines[j].block + k < to)
      ==> IsValid(lines[j], k) && k !in lines[j].dirty
  }

  lemma FilledMore(lines: seq<Line>, lines': seq<Line>, from: nat, mid: nat, to: nat)
    requires Settled(lines, lines') && Filled(lines, from, mid) && Filled(lines', mid, to)
    ensures |lines'| == |lines| && Filled(lines', from, to)
  {
    SettledKeeps(lines, lines');
    forall j: nat, k: nat | j < |lines| && k < lines'[j].blocks && from <= lines'[j].block + k < to
      ensures IsValid(lines'[j], k) && k !in lines'[j].dirty
    {
      assert SettledAt(lines[j], lines'[j]);
      assert lines'[j].block + k < mid ==> IsValid(lines[j], k) && k !in lines[j].dirty;
    }
  }

  lemma HeldFacts(disk: seq<Data>, lines: seq<Line>)
    ensures |Contents(disk, lines)| == |disk|
    ensures forall b: nat :: b < |disk| ==> Contents(disk, lines)[b] == Value(disk, lines, b)
  {
  }

  lemma HeldBytes(m: Mode, disk: seq<Data>, lines: seq<Line>, b: nat)
    requires LinesOk(m, disk, lines) && b < m.total
    ensures |Contents(disk, lines)| == m.total && |Contents(disk, lines)[b]| == m.bytes
  {
    hide Mode.StartOf, Mode.LengthOf, Value;
    if i: nat :| i < |lines| && Has(lines[i], b) {
      assert LineOk(m, disk, lines[i]);
      ValueInLine(m, disk, lines, i, b);
    } else {
      ValueOnDisk(disk, lines, b);
    }
  }

  lemma NothingSpliced(d: seq<Data>, at: nat, buffer: seq<Data>)
    requires at <= |d|
    ensures Spliced(d, at, buffer[..0]) == d
  {
  }

  lemma SplicedMore(d: seq<Data>, at: nat, buffer: seq<Data>, from: nat, to: nat)
    requires from <= to <= |buffer| && at + |buffer| <= |d|
    ensures |Spliced(d, at, buffer[..from])| == |d|
    ensures Spliced(Spliced(d, at, buffer[..from]), at + from, buffer[from..to]) == Spliced(d, at, buffer[..to])
  {
  }

  lemma FullLine(m: Mode, at: nat)
    requires at + m.size <= m.total
    ensures m.LengthOf(at) == m.size
  {
  }

  lemma LineEnd(m: Mode, at: nat, end: nat)
    requires end <= at + m.size && end <= m.total
    ensures end <= at + m.LengthOf(at)
  {
  }

  /** What two halves of a write leave of the disk. */
  lemma HalfSpliced(d: seq<Data>, at: nat, buffer: seq<Data>, n: nat)
    requires n <= |buffer| && at + |buffer| <= |d|
    ensures var half, full := Spliced(d, at + n, buffer[n..]), Spliced(d, at, buffer);
      && |half| == |full| == |d|
      && (forall b :: 0 <= b < |d| && !(at <= b < at + n) ==> half[b] == full[b])
      && (forall b :: 0 <= b < |d| && !(at + n <= b < at + |buffer|) ==> half[b] == d[b])
      && (forall b :: 0 <= b < |d| ==> half[b] == full[b] || half[b] == d[b])
  {
  }

  /** A line after one of its valid blocks was written over, and after that block was marked. */
  lemma OverwrittenOne(l: Line, b: nat, data: Data)
    requires Has(l, b) && IsValid(l, b - l.block) && l.blocks <= |l.data|
    ensures var k, over := b - l.block, Overwritten(l, b, [data]);
      && SameRange(l, over) && over.locked == l.locked && over.valid == l.valid
      && (l.dirty == {} ==> over == l.(data := l.data[k := data]))
      && Marked(over, k, 1) == l.(data := l.data[k := data], dirty := l.dirty + Range(k, 1), flagged := true)
  {
    hide Spliced, Range;
    var k, over := b - l.block, Overwritten(l, b, [data]);
    forall q: nat ensures q in Range(k, 1) <==> q == k {
      InRange(k, 1, q);
    }
    assert Range(k, 1) == {k} && k in l.valid;
    assert Spliced(l.data, k, [data]) == l.data[k := data];
    assert over.valid == l.valid;
    assert Marked(over, k, 1).dirty == l.dirty + Range(k, 1);
    assert Marked(over, k, 1).valid == l.valid;
  }

  lemma HalfOk(m: Mode, a: seq<Data>, b: seq<Data>, half: seq<Data>)
    requires DiskOk(m, a) && DiskOk(m, b) && |half| == |a|
    requires forall k :: 0 <= k < |a| ==> half[k] == b[k] || half[k] == a[k]
    ensures DiskOk(m, half)
  {
  }

  lemma FilledLine(lines: seq<Line>, from: nat, to: nat, i: nat, k: nat, n: nat)
    requires Filled(lines, from, to) && i < |lines| && k + n <= lines[i].blocks
    requires from <= lines[i].block + k && lines[i].block + k + n <= to
    ensures forall q: nat :: k <= q < k + n ==> IsValid(lines[i], q)
  {
  }

  lemma SlicesJoin(d: seq<Data>, a: nat, b: nat, c: nat)
    requires a <= b <= c <= |d|
    ensures d[a..b] + d[b..c] == d[a..c]
  {
  }

  lemma DirtyInLine(lines: seq<Line>, i: nat, block: nat, n: nat)
    requires i < |lines| && lines[i].block <= block && block + n <= lines[i].block + lines[i].blocks
    requires lines[i].dirty >= Range(block - lines[i].block, n)
    ensures DirtyFrom(lines, block, n)
  {
    forall b: nat | block <= b < block + n ensures Dirty(lines, b) {
      InRange(block - lines[i].block, n, b - lines[i].block);
      assert Has(lines[i], b);
    }
  }

  lemma DirtyJoined(lines: seq<Line>, block: nat, m: nat, n: nat)
    requires DirtyFrom(lines, block, m) && DirtyFrom(lines, block + m, n)
    ensures DirtyFrom(lines, block, m + n)
  {
    forall b: nat | block <= b < block + m + n ensures Dirty(lines, b) {
      assert block <= b < block + m ==> Dirty(lines, b);
    }
  }

  lemma DirtyWithin(l: Line, low: int, high: int)
    requires 0 <= high && high in l.dirty && -1 <= low < 128
    requires (forall k: nat :: k in l.dirty ==> k < 128 && k < l.blocks)
    requires forall k: nat :: 0 <= k < (if low < 0 then 128 else low) ==> k !in l.dirty
    requires forall k: nat :: high < k <= l.blocks - 1 ==> k !in l.dirty
    ensures 0 <= low <= high < l.blocks && forall k :: k in l.dirty ==> low <= k <= high
  {
  }

  lemma SettledTrivially(lines: seq<Line>)
    ensures Settled(lines, lines)
  {
  }

  lemma SettledKeeps(lines: seq<Line>, lines': seq<Line>)
    requires Settled(lines, lines')
    ensures |lines'| == |lines| && forall j :: 0 <= j < |lines| ==>
      SameRange(lines[j], lines'[j]) && lines'[j].locked == lines[j].locked && lines'[j].dirty <= lines[j].dirty
  {
    forall j | 0 <= j < |lines| ensures SettledAt(lines[j], lines'[j]) { }
  }
}
