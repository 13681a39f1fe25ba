/** The lines of the block cache of FS/cachedio.c and what they make of the disk. */
module CacheLines {
  import opened Words
  import opened Ranges

  /** What one block holds. */
  type Data = seq<Byte>

  /** A struct IOCache.  A line with no blocks is unused; `flagged` is IOC_DIRTY. */
  datatype Line = Line(block: nat, blocks: nat, data: seq<Data>, dirty: set<nat>, valid: set<nat>, flagged: bool,
    locked: bool)

  /** The settings of the cache: blocks in a line, blocks on the partition, bytes in a block, and
      the two modes. */
  datatype Mode = Mode(size: nat, total: nat, bytes: nat, copyback: bool, readonwrite: bool) {
    predicate Valid() {
      size >= 2 && size <= 128 && total > 0 && (copyback || readonwrite)
    }

    /** First block of the line that block b belongs to. */
    function StartOf(b: nat): (s: nat)
      requires size > 0
    {
      b / size * size
    }

    /** Blocks of the line that starts at s; the last line of the partition may be shorter. */
    function LengthOf(s: nat): nat {
      if s + size > total then (if total > s then total - s else 0) else size
    }
  }

  /** All 128 bits of a bitmap. */
  function AllBits(): set<nat> { set i: nat | i < 128 && IsBit(i) }

  predicate IsBit(i: nat) { i < 128 }

  predicate Has(l: Line, b: nat) {
    l.block <= b < l.block + l.blocks
  }

  predicate IsValid(l: Line, k: nat) { k in l.valid }

  /** What a line may hold: clean blocks are the same on disk. */
  ghost predicate LineOk(m: Mode, disk: seq<Data>, l: Line)
    requires |disk| == m.total && m.size > 0
  {
    && |l.data| == m.size && (forall k :: 0 <= k < m.size ==> |l.data[k]| == m.bytes)
    && l.dirty <= l.valid <= AllBits() && (forall k :: k in l.dirty ==> k < l.blocks) && (l.dirty != {} ==> l.flagged)
    && (l.blocks > 0 ==> l.block < m.total && l.block == m.StartOf(l.block) && l.blocks == m.LengthOf(l.block))
    && l.blocks <= m.size && l.block + l.blocks <= m.total
    && (forall k: nat :: k < l.blocks && k !in l.dirty && IsValid(l, k) ==> l.data[k] == disk[l.block + k])
    && (m.readonwrite ==> forall k: nat :: k < l.blocks ==> IsValid(l, k))
    && (!m.copyback ==> l.dirty == {})
  }

  ghost predicate DiskOk(m: Mode, disk: seq<Data>) {
    |disk| == m.total && forall b :: 0 <= b < m.total ==> |disk[b]| == m.bytes
  }

  /** No two lines are for the same blocks. */
  ghost predicate Apart(lines: seq<Line>) {
    forall i, j :: (0 <= i < |lines| && 0 <= j < |lines| && lines[i].blocks > 0 && lines[j].blocks > 0
                    && lines[i].block == lines[j].block) ==> i == j
  }

  ghost predicate LinesOk(m: Mode, disk: seq<Data>, lines: seq<Line>) {
    && m.Valid() && DiskOk(m, disk) && Apart(lines)
    && forall i :: 0 <= i < |lines| ==> LineOk(m, disk, lines[i])
  }

  // ----- What a block reads as

  /** Line i holds what block b reads as. */
  ghost predicate Holds(lines: seq<Line>, i: nat, b: nat) {
    i < |lines| && Has(lines[i], b) && IsValid(lines[i], b - lines[i].block) && b - lines[i].block < |lines[i].data|
  }

  ghost function Value(disk: seq<Data>, lines: seq<Line>, b: nat): Data
    requires b < |disk|
  {
    if i: nat :| Holds(lines, i, b) then lines[i].data[b - lines[i].block] else disk[b]
  }

  /** What the disk would hold if there were no cache. */
  ghost function Contents(disk: seq<Data>, lines: seq<Line>): seq<Data> {
    seq(|disk|, b requires 0 <= b < |disk| => Value(disk, lines, b))
  }

  lemma StartIsLine(m: Mode, s: nat, b: nat)
    requires m.size > 0 && s == m.StartOf(s) && s <= b < s + m.size
    ensures m.StartOf(b) == s
  {
    var q := s / m.size;
    assert b / m.size == q by { DivideAt(b, m.size, q); }
  }

  lemma StartFacts(m: Mode, b: nat)
    requires m.size > 0
    ensures m.StartOf(b) <= b < m.StartOf(b) + m.size && m.StartOf(m.StartOf(b)) == m.StartOf(b)
  {
    StartIsStart(b / m.size, m.size);
  }

  lemma StartIsStart(q: nat, n: nat)
    requires n > 0
    ensures q * n / n == q
  {
    DivideAt(q * n, n, q);
  }

  /** Only one line is for a block. */
  lemma HasOnce(m: Mode, disk: seq<Data>, lines: seq<Line>, i: nat, j: nat, b: nat)
    requires LinesOk(m, disk, lines) && i < |lines| && j < |lines| && Has(lines[i], b) && Has(lines[j], b)
    ensures i == j
  {
    hide Mode.StartOf, Mode.LengthOf;
    assert LineOk(m, disk, lines[i]) && LineOk(m, disk, lines[j]);
    StartIsLine(m, lines[i].block, b);
    StartIsLine(m, lines[j].block, b);
  }

  lemma ValueInLine(m: Mode, disk: seq<Data>, lines: seq<Line>, i: nat, b: nat)
    requires LinesOk(m, disk, lines) && i < |lines| && Has(lines[i], b) && b < m.total
    ensures b - lines[i].block < |lines[i].data|
    ensures Value(disk, lines, b)
        == if IsValid(lines[i], b - lines[i].block) then lines[i].data[b - lines[i].block] else disk[b]
  {
    hide Mode.StartOf, Mode.LengthOf;
    assert LineOk(m, disk, lines[i]);
    if j: nat :| Holds(lines, j, b) {
      forall k: nat | Holds(lines, k, b) ensures k == i {
        HasOnce(m, disk, lines, i, k, b);
      }
    } else {
      assert !Holds(lines, i, b);
    }
  }

  lemma ValueOnDisk(disk: seq<Data>, lines: seq<Line>, b: nat)
    requires b < |disk| && forall i :: 0 <= i < |lines| ==> !Has(lines[i], b)
    ensures Value(disk, lines, b) == disk[b]
  {
  }

  /** Line i is for the same blocks before and after. */
  ghost predicate SameRange(l: Line, l': Line) {
    l'.block == l.block && l'.blocks == l.blocks
  }

  /** No line is for block b. */
  ghost predicate Unclaimed(lines: seq<Line>, b: nat) {
    forall j :: 0 <= j < |lines| ==> !Has(lines[j], b)
  }

  // ----- Changing one line

  /** Blocks outside of a line read as before. */
  lemma ValueElsewhere(m: Mode, disk: seq<Data>, lines: seq<Line>, i: nat, l: Line, disk': seq<Data>, b: nat)
    requires LinesOk(m, disk, lines) && i < |lines| && b < m.total && LinesOk(m, disk', lines[i := l])
    requires !Has(lines[i], b) && !Has(l, b) && disk'[b] == disk[b]
    ensures Value(disk', lines[i := l], b) == Value(disk, lines, b)
  {
    hide LineOk;
    var lines' := lines[i := l];
    if j: nat :| j < |lines| && Has(lines[j], b) {
      assert lines'[j] == lines[j];
      ValueInLine(m, disk, lines, j, b);
      ValueInLine(m, disk', lines', j, b);
    } else {
      forall j | 0 <= j < |lines'| ensures !Has(lines'[j], b) {
        assert j == i || lines'[j] == lines[j];
      }
      ValueOnDisk(disk, lines, b);
      ValueOnDisk(disk', lines', b);
    }
  }

  lemma LineKept(m: Mode, disk: seq<Data>, lines: seq<Line>, i: nat, disk': seq<Data>, j: nat)
    requires LinesOk(m, disk, lines) && i < |lines| && j < |lines| && j != i && DiskOk(m, disk')
    requires forall b :: 0 <= b < m.total && disk'[b] != disk[b] ==> Has(lines[i], b)
    ensures LineOk(m, disk', lines[j])
  {
    hide Mode.StartOf, Mode.LengthOf;
    assert LineOk(m, disk, lines[j]);
    forall k: nat | k < lines[j].blocks && IsValid(lines[j], k)
      ensures disk'[lines[j].block + k] == disk[lines[j].block + k]
    {
      if disk'[lines[j].block + k] != disk[lines[j].block + k] {
        HasOnce(m, disk, lines, i, j, lines[j].block + k);
      }
    }
  }

  /** The lines are in order when one of them and the disk behind it change. */
  lemma ChangeOk(m: Mode, disk: seq<Data>, lines: seq<Line>, i: nat, l: Line, disk': seq<Data>)
    requires LinesOk(m, disk, lines) && i < |lines| && DiskOk(m, disk') && LineOk(m, disk', l)
    requires forall b :: 0 <= b < m.total && !Has(lines[i], b) && !Has(l, b) ==> disk'[b] == disk[b]
    requires l.blocks == 0 || (SameRange(lines[i], l) || Unclaimed(lines, l.block))
    requires forall b :: 0 <= b < m.total && disk'[b] != disk[b] ==> Has(lines[i], b)
    ensures LinesOk(m, disk', lines[i := l])
  {
    hide Mode.StartOf, Mode.LengthOf;
    var lines' := lines[i := l];
    forall j | 0 <= j < |lines'| ensures LineOk(m, disk', lines'[j]) {
      if j != i {
        LineKept(m, disk, lines, i, disk', j);
      }
    }
    forall k: nat | k < |lines| && k != i && l.blocks > 0 && lines[k].blocks > 0 ensures lines[k].block != l.block {
      OtherBlock(m, disk, lines, i, l, k);
    }
  }

  lemma OtherBlock(m: Mode, disk: seq<Data>, lines: seq<Line>, i: nat, l: Line, k: nat)
    requires LinesOk(m, disk, lines) && i < |lines| && k < |lines| && k != i && l.blocks > 0 && lines[k].blocks > 0
    requires SameRange(lines[i], l) || Unclaimed(lines, l.block)
    ensures lines[k].block != l.block
  {
    hide LineOk;
    assert Has(lines[k], lines[k].block);
    if SameRange(lines[i], l) {
      assert Has(lines[i], l.block);
      assert lines[k].block == l.block ==> k == i by {
        if lines[k].block == l.block { HasOnce(m, disk, lines, i, k, l.block); }
      }
    }
  }

  /** The contents stay when, in the range of the changed line, every block reads as before. */
  lemma ChangeKeeps(m: Mode, disk: seq<Data>, lines: seq<Line>, i: nat, l: Line, disk': seq<Data>)
    requires LinesOk(m, disk, lines) && i < |lines| && LinesOk(m, disk', lines[i := l])
    requires l.blocks == 0 || SameRange(lines[i], l)
    requires forall b :: 0 <= b < m.total && !Has(lines[i], b) ==> disk'[b] == disk[b]
    requires forall b: nat :: b < m.total && Has(lines[i], b) ==>
      Value(disk, lines, b) == if l.blocks > 0 && IsValid(l, b - l.block)
        && b - l.block < |l.data| then l.data[b - l.block] else disk'[b]
    ensures Contents(disk', lines[i := l]) == Contents(disk, lines)
  {
    hide LineOk, Value;
    var lines' := lines[i := l];
    forall b: nat | b < m.total ensures Value(disk', lines', b) == Value(disk, lines, b) {
      if Has(lines[i], b) {
        if l.blocks > 0 {
          ValueInLine(m, disk', lines', i, b);
        } else {
          forall j | 0 <= j < |lines'| ensures !Has(lines'[j], b) {
            if j != i && Has(lines[j], b) {
              HasOnce(m, disk, lines, i, j, b);
            }
          }
          ValueOnDisk(disk', lines', b);
        }
      } else {
        ValueElsewhere(m, disk, lines, i, l, disk', b);
      }
    }
  }

  /** Block k of a line reads the same before and after. */
  ghost predicate SameRead(disk: seq<Data>, l: Line, disk': seq<Data>, l': Line, k: nat)
    requires l.block + k < |disk| == |disk'| && k < |l.data| == |l'.data|
  {
    (if IsValid(l, k) then l.data[k] else disk[l.block + k])
      == (if IsValid(l', k) then l'.data[k] else disk'[l.block + k])
  }

  /** A line and the disk behind it change so that every block reads as before. */
  lemma ChangeAll(m: Mode, disk: seq<Data>, lines: seq<Line>, i: nat, l: Line, disk': seq<Data>)
    requires LinesOk(m, disk, lines) && i < |lines| && SameRange(lines[i], l) && l.blocks > 0
    requires DiskOk(m, disk') && LineOk(m, disk', l) && |lines[i].data| == |l.data| == m.size
    requires l.blocks <= m.size && l.block + l.blocks <= m.total
    requires forall b :: 0 <= b < m.total && disk'[b] != disk[b] ==> Has(lines[i], b)
    requires forall k: nat :: k < l.blocks ==> SameRead(disk, lines[i], disk', l, k)
    ensures LinesOk(m, disk', lines[i := l]) && Contents(disk', lines[i := l]) == Contents(disk, lines)
  {
    hide LineOk, Value, LinesOk;
    assert DiskOk(m, disk) by { LinesDisk(m, disk, lines); }
    ChangeOk(m, disk, lines, i, l, disk');
    forall b: nat | b < m.total && Has(lines[i], b)
      ensures Value(disk, lines, b) == if l.blocks > 0 && IsValid(l, b - l.block)
          && b - l.block < |l.data| then l.data[b - l.block] else disk'[b]
    {
      ValueInLine(m, disk, lines, i, b);
      assert SameRead(disk, lines[i], disk', l, b - l.block);
    }
    ChangeKeeps(m, disk, lines, i, l, disk');
  }

  lemma LinesDisk(m: Mode, disk: seq<Data>, lines: seq<Line>)
    requires LinesOk(m, disk, lines)
    ensures DiskOk(m, disk)
  {
  }

  // ----- The changes the cache makes

  /** Lines keep their places, and nothing valid is lost and nothing becomes dirty. */
  ghost predicate Settled(lines: seq<Line>, lines': seq<Line>) {
    && |lines'| == |lines|
    && forall j :: 0 <= j < |lines| ==> SettledAt(lines[j], lines'[j])
  }

  ghost predicate SettledAt(l: Line, l': Line) {
    SameRange(l, l') && l'.locked == l.locked && l.valid <= l'.valid && l'.dirty <= l.dirty
  }

  lemma SettledTrans(a: seq<Line>, b: seq<Line>, c: seq<Line>)
    requires Settled(a, b) && Settled(b, c)
    ensures Settled(a, c)
  {
    forall j | 0 <= j < |a| ensures SettledAt(a[j], c[j]) {
      assert SettledAt(a[j], b[j]) && SettledAt(b[j], c[j]);
    }
  }

  lemma SettledOne(lines: seq<Line>, i: nat, l: Line)
    requires i < |lines| && SettledAt(lines[i], l)
    ensures Settled(lines, lines[i := l])
  {
  }

  /** All of a line is read and merged with its dirty blocks. */
  lemma Validated(m: Mode, disk: seq<Data>, lines: seq<Line>, i: nat, data: seq<Data>)
    requires LinesOk(m, disk, lines) && i < |lines| && lines[i].blocks > 0 && |data| == m.size
    requires forall k :: 0 <= k < m.size ==> |data[k]| == m.bytes
    requires forall k: nat :: k < lines[i].blocks ==>
      data[k] == if k in lines[i].dirty then lines[i].data[k] else disk[lines[i].block + k]
    ensures var lines' := lines[i := lines[i].(data := data, valid := AllBits())];
      LinesOk(m, disk, lines') && Contents(disk, lines') == Contents(disk, lines) && Settled(lines, lines')
  {
    hide Mode.StartOf, Mode.LengthOf, Value;
    var l := lines[i];
    var l' := l.(data := data, valid := AllBits());
    assert LineOk(m, disk, l);
    forall k: nat | k < l.blocks ensures IsValid(l', k) { assert IsBit(k); }
    assert LineOk(m, disk, l');
    ChangeOk(m, disk, lines, i, l', disk);
    forall b: nat | b < m.total && Has(l, b)
      ensures IsValid(l', b - l.block) && Value(disk, lines, b) == data[b - l.block]
    {
      ValueInLine(m, disk, lines, i, b);
      assert IsValid(l, b - l.block) || !IsValid(l, b - l.block);
    }
    ChangeKeeps(m, disk, lines, i, l', disk);
    SettledOne(lines, i, l');
  }

  /** A run of blocks put over others. */
  function Spliced(d: seq<Data>, at: nat, data: seq<Data>): (r: seq<Data>)
    requires at + |data| <= |d|
    ensures |r| == |d|
    ensures forall b :: 0 <= b < |d| ==> r[b] == if at <= b < at + |data| then data[b - at] else d[b]
  {
    d[..at] + data + d[at + |data|..]
  }

  /** The dirty blocks of a line are written with everything between them. */
  lemma WrittenBack(m: Mode, disk: seq<Data>, lines: seq<Line>, i: nat, low: nat, high: nat)
    requires LinesOk(m, disk, lines) && i < |lines| && low <= high < lines[i].blocks && lines[i].block + high < m.total
    requires high < |lines[i].data|
    requires forall k :: k in lines[i].dirty ==> low <= k <= high
    requires forall k: nat :: low <= k <= high ==> IsValid(lines[i], k)
    ensures var l := lines[i];
      var disk', lines' := Spliced(disk, l.block + low, l.data[low..high + 1]),
        lines[i := l.(dirty := {}, flagged := false)];
      LinesOk(m, disk', lines') && Contents(disk', lines') == Contents(disk, lines) && Settled(lines, lines')
  {
    hide LineOk, LinesOk, Spliced, SameRead, Mode.StartOf, Mode.LengthOf;
    WrittenReady(m, disk, lines, i, low, high);
    var l := lines[i];
    ChangeAll(m, disk, lines, i, l.(dirty := {}, flagged := false),
      Spliced(disk, l.block + low, l.data[low..high + 1]));
    SettledOne(lines, i, l.(dirty := {}, flagged := false));
  }

  lemma WrittenReady(m: Mode, disk: seq<Data>, lines: seq<Line>, i: nat, low: nat, high: nat)
    requires LinesOk(m, disk, lines) && i < |lines| && low <= high < lines[i].blocks && lines[i].block + high < m.total
    requires high < |lines[i].data|
    requires forall k :: k in lines[i].dirty ==> low <= k <= high
    requires forall k: nat :: low <= k <= high ==> IsValid(lines[i], k)
    ensures |disk| == m.total && m.size > 0 && |lines[i].data| == m.size && lines[i].blocks <= m.size
      && lines[i].block + lines[i].blocks <= m.total
    ensures var l := lines[i];
      var disk', l' := Spliced(disk, l.block + low, l.data[low..high + 1]), l.(dirty := {}, flagged := false);
      && DiskOk(m, disk') && LineOk(m, disk', l')
      && (forall b :: 0 <= b < m.total && disk'[b] != disk[b] ==> Has(l, b))
      && (forall k: nat :: k < l.blocks ==> SameRead(disk, l, disk', l', k))
  {
    hide LineOk, LinesOk, SameRead, Spliced;
    var l := lines[i];
    var part := l.data[low..high + 1];
    PartOk(m, disk, lines, i, low, high);
    SplicedOk(m, disk, l.block + low, part);
    WrittenLineOk(m, disk, l, low, high, Spliced(disk, l.block + low, part));
  }

  lemma PartOk(m: Mode, disk: seq<Data>, lines: seq<Line>, i: nat, low: nat, high: nat)
    requires LinesOk(m, disk, lines) && i < |lines| && low <= high < |lines[i].data|
    ensures m.size > 0 && DiskOk(m, disk) && LineOk(m, disk, lines[i])
    ensures |lines[i].data| == m.size && lines[i].blocks <= m.size && lines[i].block + lines[i].blocks <= m.total
    ensures var part := lines[i].data[low..high + 1]; forall k :: 0 <= k < |part| ==> |part[k]| == m.bytes
  {
    hide Mode.StartOf, Mode.LengthOf;
    var l := lines[i];
    assert LineOk(m, disk, l);
    var part := l.data[low..high + 1];
    forall k | 0 <= k < |part| ensures |part[k]| == m.bytes { assert part[k] == l.data[low + k]; }
  }

  lemma SplicedOk(m: Mode, d: seq<Data>, at: nat, part: seq<Data>)
    requires DiskOk(m, d) && at + |part| <= |d| && forall k :: 0 <= k < |part| ==> |part[k]| == m.bytes
    ensures DiskOk(m, Spliced(d, at, part))
  {
  }

  lemma WrittenLineOk(m: Mode, disk: seq<Data>, l: Line, low: nat, high: nat, disk': seq<Data>)
    requires m.size > 0 && |disk| == m.total && LineOk(m, disk, l) && low <= high < l.blocks && high < |l.data|
    requires forall k :: k in l.dirty ==> low <= k <= high
    requires forall k: nat :: low <= k <= high ==> IsValid(l, k)
    requires |disk'| == |disk| && forall b: nat :: b < |disk| ==>
      disk'[b] == if l.block + low <= b <= l.block + high then l.data[low..high + 1][b - l.block - low] else disk[b]
    ensures LineOk(m, disk', l.(dirty := {}, flagged := false))
    ensures forall k: nat :: k < l.blocks ==> SameRead(disk, l, disk', l.(dirty := {}, flagged := false), k)
  {
    hide Mode.StartOf, Mode.LengthOf;
    var l' := l.(dirty := {}, flagged := false);
    forall k: nat ensures IsValid(l', k) <==> IsValid(l, k) { }
    forall k: nat | k < l.blocks && IsValid(l, k) ensures l.data[k] == disk'[l.block + k] {
      if low <= k <= high {
        assert l.data[low..high + 1][k - low] == l.data[k];
      } else {
        assert k !in l.dirty;
      }
    }
    forall k: nat | k < l.blocks ensures SameRead(disk, l, disk', l', k) {
      if !IsValid(l, k) { assert !(low <= k <= high); }
    }
  }

  function Unused(l: Line): Line {
    Line(0, 0, l.data, {}, {}, false, l.locked)
  }

  /** A clean line is given up. */
  lemma Invalidated(m: Mode, disk: seq<Data>, lines: seq<Line>, i: nat)
    requires LinesOk(m, disk, lines) && i < |lines| && lines[i].dirty == {}
    ensures LinesOk(m, disk, lines[i := Unused(lines[i])])
    ensures Contents(disk, lines[i := Unused(lines[i])]) == Contents(disk, lines)
  {
    hide Mode.StartOf, Mode.LengthOf, Value;
    var l, l' := lines[i], Unused(lines[i]);
    assert LineOk(m, disk, l);
    assert LineOk(m, disk, l');
    ChangeOk(m, disk, lines, i, l', disk);
    forall b: nat | b < m.total && Has(l, b) ensures Value(disk, lines, b) == disk[b] {
      ValueInLine(m, disk, lines, i, b);
    }
    ChangeKeeps(m, disk, lines, i, l', disk);
  }

  /** An unused line is taken for the blocks around b, which no line has: with what is on disk, or
      with nothing valid in it. */
  lemma Taken(m: Mode, disk: seq<Data>, lines: seq<Line>, i: nat, b: nat, data: seq<Data>, valid: set<nat>)
    requires LinesOk(m, disk, lines) && i < |lines| && lines[i].blocks == 0 && b < m.total && Unclaimed(lines, b)
    requires |data| == m.size && forall k :: 0 <= k < m.size ==> |data[k]| == m.bytes
    requires valid == AllBits() || (valid == {} && !m.readonwrite)
    requires valid == AllBits() ==>
      forall k: nat :: k < m.LengthOf(m.StartOf(b)) && m.StartOf(b) + k < m.total ==> data[k] == disk[m.StartOf(b) + k]
    ensures var start := m.StartOf(b);
      var l := Line(start, m.LengthOf(start), data, {}, valid, false, lines[i].locked);
      LinesOk(m, disk, lines[i := l]) && Contents(disk, lines[i := l]) == Contents(disk, lines) && Has(l, b)
  {
    hide Value;
    var start := m.StartOf(b);
    var l := Line(start, m.LengthOf(start), data, {}, valid, false, lines[i].locked);
    StartFacts(m, b);
    forall k: nat | k < l.blocks && valid == AllBits() ensures IsValid(l, k) { assert IsBit(k); }
    hide Mode.StartOf, Mode.LengthOf;
    assert LineOk(m, disk, l);
    StartUnclaimed(m, disk, lines, b);
    ChangeOk(m, disk, lines, i, l, disk);
    TakenKeeps(m, disk, lines, i, l);
  }

  lemma StartUnclaimed(m: Mode, disk: seq<Data>, lines: seq<Line>, b: nat)
    requires LinesOk(m, disk, lines) && b < m.total && Unclaimed(lines, b)
    ensures forall c: nat :: m.StartOf(b) <= c < m.StartOf(b) + m.LengthOf(m.StartOf(b)) ==> Unclaimed(lines, c)
  {
    StartFacts(m, b);
    var s := m.StartOf(b);
    forall c: nat, j: nat | s <= c < s + m.LengthOf(s) && j < |lines| ensures !Has(lines[j], c) {
      hide Mode.StartOf;
      assert LineOk(m, disk, lines[j]);
      StartIsLine(m, s, c);
      if Has(lines[j], c) {
        StartIsLine(m, lines[j].block, c);
      }
    }
  }

  lemma TakenKeeps(m: Mode, disk: seq<Data>, lines: seq<Line>, i: nat, l: Line)
    requires LinesOk(m, disk, lines) && i < |lines| && lines[i].blocks == 0 && LinesOk(m, disk, lines[i := l])
    requires l.dirty == {}
    requires forall c: nat :: Has(l, c) ==> Unclaimed(lines, c)
    ensures Contents(disk, lines[i := l]) == Contents(disk, lines)
  {
    hide Mode.StartOf, Mode.LengthOf, Value;
    var lines' := lines[i := l];
    assert LineOk(m, disk, lines'[i]);
    forall b: nat | b < m.total ensures Value(disk, lines', b) == Value(disk, lines, b) {
      if Has(l, b) {
        ValueOnDisk(disk, lines, b);
        ValueInLine(m, disk, lines', i, b);
      } else {
        ValueElsewhere(m, disk, lines, i, l, disk, b);
      }
    }
  }

  // ----- Writing

  /** A line after data were written over it from block `at` on. */
  function Overwritten(l: Line, at: nat, data: seq<Data>): Line
    requires l.block <= at && at - l.block + |data| <= |l.data|
  {
    l.(data := Spliced(l.data, at - l.block, data), dirty := l.dirty - Range(at - l.block, |data|),
       valid := l.valid + Range(at - l.block, |data|))
  }

  /** Data are written to the disk and over line i, which is for all those blocks. */
  lemma WrittenOver(m: Mode, disk: seq<Data>, lines: seq<Line>, i: nat, at: nat, data: seq<Data>)
    requires LinesOk(m, disk, lines) && i < |lines| && at + |data| <= m.total
    requires lines[i].block <= at && at + |data| <= lines[i].block + lines[i].blocks
    requires forall k :: 0 <= k < |data| ==> |data[k]| == m.bytes
    ensures at - lines[i].block + |data| <= |lines[i].data|
    ensures var disk', lines' := Spliced(disk, at, data), lines[i := Overwritten(lines[i], at, data)];
      LinesOk(m, disk', lines') && Contents(disk', lines') == Spliced(Contents(disk, lines), at, data)
  {
    hide Value, LinesOk, Mode.StartOf, Mode.LengthOf;
    OverwrittenOk(m, disk, lines, i, at, data);
    var disk', lines' := Spliced(disk, at, data), lines[i := Overwritten(lines[i], at, data)];
    forall b: nat | b < m.total
      ensures Value(disk', lines', b) == if at <= b < at + |data| then data[b - at] else Value(disk, lines, b)
    {
      OverwrittenValue(m, disk, lines, i, at, data, b);
    }
  }

  lemma OverwrittenOk(m: Mode, disk: seq<Data>, lines: seq<Line>, i: nat, at: nat, data: seq<Data>)
    requires LinesOk(m, disk, lines) && i < |lines| && at + |data| <= m.total
    requires lines[i].block <= at && at + |data| <= lines[i].block + lines[i].blocks
    requires forall k :: 0 <= k < |data| ==> |data[k]| == m.bytes
    ensures |disk| == m.total && at - lines[i].block + |data| <= |lines[i].data|
    ensures LinesOk(m, Spliced(disk, at, data), lines[i := Overwritten(lines[i], at, data)])
  {
    hide Mode.StartOf, Mode.LengthOf;
    var l := lines[i];
    assert LineOk(m, disk, l);
    SplicedOk(m, disk, at, data);
    var disk', l' := Spliced(disk, at, data), Overwritten(l, at, data);
    OverwrittenLineOk(m, disk, l, at, data, disk');
    hide LineOk;
    if |data| == 0 {
      assert disk' == disk;
    }
    ChangeOk(m, disk, lines, i, l', disk');
  }

  lemma OverwrittenLineOk(m: Mode, disk: seq<Data>, l: Line, at: nat, data: seq<Data>, disk': seq<Data>)
    requires m.Valid() && |disk| == m.total && LineOk(m, disk, l) && at + |data| <= m.total
    requires l.block <= at && at + |data| <= l.block + l.blocks && at - l.block + |data| <= |l.data|
    requires forall k :: 0 <= k < |data| ==> |data[k]| == m.bytes
    requires disk' == Spliced(disk, at, data)
    ensures LineOk(m, disk', Overwritten(l, at, data))
  {
    hide Mode.StartOf, Mode.LengthOf, Spliced, Range;
    var l', o := Overwritten(l, at, data), at - l.block;
    forall k: nat ensures k in Range(o, |data|) <==> o <= k < o + |data| {
      InRange(o, |data|, k);
    }
    forall k: nat | k < 128 ensures k in AllBits() { assert IsBit(k); }
    forall k: nat | k < l'.blocks && k !in l'.dirty && IsValid(l', k) ensures l'.data[k] == disk'[l'.block + k] {
      if !(o <= k < o + |data|) { assert IsValid(l, k); }
    }
    if m.readonwrite {
      forall k: nat | k < l'.blocks ensures IsValid(l', k) { assert IsValid(l, k); }
    }
  }

  lemma OverwrittenValue(m: Mode, disk: seq<Data>, lines: seq<Line>, i: nat, at: nat, data: seq<Data>, b: nat)
    requires LinesOk(m, disk, lines) && i < |lines| && at + |data| <= m.total && |disk| == m.total && b < m.total
    requires lines[i].block <= at && at + |data| <= lines[i].block + lines[i].blocks
    requires at - lines[i].block + |data| <= |lines[i].data|
    requires LinesOk(m, Spliced(disk, at, data), lines[i := Overwritten(lines[i], at, data)])
    ensures Value(Spliced(disk, at, data), lines[i := Overwritten(lines[i], at, data)], b)
         == if at <= b < at + |data| then data[b - at] else Value(disk, lines, b)
  {
    hide Value, LineOk, LinesOk, Range;
    var l, l', disk' := lines[i], Overwritten(lines[i], at, data), Spliced(disk, at, data);
    if Has(l, b) {
      InRange(at - l.block, |data|, b - l.block);
      ValueInLine(m, disk, lines, i, b);
      ValueInLine(m, disk', lines[i := l'], i, b);
    } else {
      ValueElsewhere(m, disk, lines, i, l', disk', b);
    }
  }

  /** Data are written to the disk for blocks that no line is for. */
  lemma WrittenPast(m: Mode, disk: seq<Data>, lines: seq<Line>, at: nat, data: seq<Data>)
    requires LinesOk(m, disk, lines) && at + |data| <= m.total
    requires forall k :: 0 <= k < |data| ==> |data[k]| == m.bytes
    requires forall b: nat :: at <= b < at + |data| ==> Unclaimed(lines, b)
    ensures |disk| == m.total
    ensures LinesOk(m, Spliced(disk, at, data), lines)
    ensures Contents(Spliced(disk, at, data), lines) == Spliced(Contents(disk, lines), at, data)
  {
    hide Value, Mode.StartOf, Mode.LengthOf;
    SplicedOk(m, disk, at, data);
    var disk' := Spliced(disk, at, data);
    forall i | 0 <= i < |lines| ensures LineOk(m, disk', lines[i]) {
      assert LineOk(m, disk, lines[i]);
      forall b: nat | at <= b < at + |data| ensures !Has(lines[i], b) { assert Unclaimed(lines, b); }
      PastLine(m, disk, lines[i], at, data, disk');
    }
    forall b: nat | b < m.total
      ensures Value(disk', lines, b) == if at <= b < at + |data| then data[b - at] else Value(disk, lines, b)
    {
      PastValue(m, disk, lines, disk', b);
    }
  }

  lemma PastLine(m: Mode, disk: seq<Data>, l: Line, at: nat, data: seq<Data>, disk': seq<Data>)
    requires m.size > 0 && |disk| == m.total && at + |data| <= m.total && LineOk(m, disk, l)
    requires disk' == Spliced(disk, at, data)
    requires forall b: nat :: at <= b < at + |data| ==> !Has(l, b)
    ensures LineOk(m, disk', l)
  {
    hide Mode.StartOf, Mode.LengthOf, Spliced;
    forall k: nat | k < l.blocks && k !in l.dirty && IsValid(l, k) ensures l.data[k] == disk'[l.block + k] {
      assert Has(l, l.block + k);
    }
  }

  lemma PastValue(m: Mode, disk: seq<Data>, lines: seq<Line>, disk': seq<Data>, b: nat)
    requires LinesOk(m, disk, lines) && LinesOk(m, disk', lines) && b < m.total
    ensures Unclaimed(lines, b) ==> Value(disk', lines, b) == disk'[b] && Value(disk, lines, b) == disk[b]
    ensures disk'[b] == disk[b] ==> Value(disk', lines, b) == Value(disk, lines, b)
  {
    hide Value, LineOk;
    if i: nat :| i < |lines| && Has(lines[i], b) {
      ValueInLine(m, disk, lines, i, b);
      ValueInLine(m, disk', lines, i, b);
    } else {
      ValueOnDisk(disk, lines, b);
      ValueOnDisk(disk', lines, b);
    }
  }

  function Marked(l: Line, k: nat, n: nat): Line {
    l.(dirty := l.dirty + Range(k, n), valid := l.valid + Range(k, n), flagged := true)
  }

  /** Valid blocks become dirty: the disk may hold anything behind them. */
  lemma MarkedDirty(m: Mode, disk: seq<Data>, lines: seq<Line>, i: nat, k: nat, n: nat, disk': seq<Data>)
    requires LinesOk(m, disk, lines) && i < |lines| && m.copyback && n > 0 && k + n <= lines[i].blocks
    requires DiskOk(m, disk')
    requires forall q: nat :: k <= q < k + n ==> IsValid(lines[i], q)
    requires forall b :: 0 <= b < m.total && !(lines[i].block + k <= b < lines[i].block + k + n) ==> disk'[b] == disk[b]
    ensures LinesOk(m, disk', lines[i := Marked(lines[i], k, n)])
    ensures Contents(disk', lines[i := Marked(lines[i], k, n)]) == Contents(disk, lines)
  {
    hide Mode.StartOf, Mode.LengthOf;
    var l, l' := lines[i], Marked(lines[i], k, n);
    assert LineOk(m, disk, l);
    MarkedLineOk(m, disk, l, k, n, disk');
    hide LineOk;
    ChangeAll(m, disk, lines, i, l', disk');
  }

  lemma MarkedLineOk(m: Mode, disk: seq<Data>, l: Line, k: nat, n: nat, disk': seq<Data>)
    requires m.size > 0 && |disk| == m.total && LineOk(m, disk, l) && m.copyback && k + n <= l.blocks
    requires DiskOk(m, disk')
    requires forall q: nat :: k <= q < k + n ==> IsValid(l, q)
    requires forall b :: 0 <= b < m.total && !(l.block + k <= b < l.block + k + n) ==> disk'[b] == disk[b]
    ensures LineOk(m, disk', Marked(l, k, n))
    ensures forall q: nat :: q < l.blocks ==> SameRead(disk, l, disk', Marked(l, k, n), q)
  {
    hide Mode.StartOf, Mode.LengthOf, Range;
    forall q: nat ensures q in Range(k, n) <==> k <= q < k + n {
      InRange(k, n, q);
    }
    assert Marked(l, k, n).valid == l.valid by {
      forall q: nat | q in Range(k, n) ensures q in l.valid { assert IsValid(l, q); }
    }
    forall q: nat ensures IsValid(Marked(l, k, n), q) <==> IsValid(l, q) {
    }
    forall q: nat | q < l.blocks ensures SameRead(disk, l, disk', Marked(l, k, n), q) {
      if !IsValid(l, q) { assert !(k <= q < k + n); }
    }
    forall q: nat | q < l.blocks && q !in Marked(l, k, n).dirty && IsValid(l, q)
      ensures l.data[q] == disk'[l.block + q]
    {
    }
  }

  /** A line gets its dirty flag without a dirty block. */
  lemma Flagged(m: Mode, disk: seq<Data>, lines: seq<Line>, i: nat)
    requires LinesOk(m, disk, lines) && i < |lines| && lines[i].blocks > 0
    ensures LinesOk(m, disk, lines[i := lines[i].(flagged := true)])
    ensures Contents(disk, lines[i := lines[i].(flagged := true)]) == Contents(disk, lines)
  {
    hide Mode.StartOf, Mode.LengthOf;
    var l, l' := lines[i], lines[i].(flagged := true);
    assert LineOk(m, disk, l);
    assert LineOk(m, disk, l');
    forall k: nat | k < l.blocks ensures SameRead(disk, l, disk, l', k) {
      assert IsValid(l, k) <==> IsValid(l', k);
    }
    hide LineOk;
    LinesDisk(m, disk, lines);
    ChangeAll(m, disk, lines, i, l', disk);
  }

  /** All blocks of a line are marked, whether they are valid or not: what is read stays the same if
      and only if those that were not valid happen to hold what is on disk. */
  lemma MarkedBlindly(m: Mode, disk: seq<Data>, lines: seq<Line>, i: nat)
    requires LinesOk(m, disk, lines) && i < |lines| && m.copyback && lines[i].blocks == m.size
    ensures lines[i].block + m.size <= m.total == |disk| && |lines[i].data| == m.size
    ensures LinesOk(m, disk, lines[i := Marked(lines[i], 0, m.size)])
    ensures Contents(disk, lines[i := Marked(lines[i], 0, m.size)]) == Contents(disk, lines)
       <==> forall k: nat :: k < m.size ==> Untroubled(disk, lines[i], k)
  {
    hide Mode.StartOf, Mode.LengthOf, Value;
    var l, l' := lines[i], Marked(lines[i], 0, m.size);
    assert LineOk(m, disk, l);
    BlindLineOk(m, disk, l);
    ChangeOk(m, disk, lines, i, l', disk);
    hide LineOk;
    if forall k: nat :: k < m.size ==> Untroubled(disk, l, k) {
      forall k: nat | k < m.size ensures SameRead(disk, l, disk, l', k) {
        assert Untroubled(disk, l, k);
        InRange(0, m.size, k);
      }
      ChangeAll(m, disk, lines, i, l', disk);
    } else {
      var k: nat :| k < m.size && !Untroubled(disk, l, k);
      InRange(0, m.size, k);
      ValueInLine(m, disk, lines, i, l.block + k);
      ValueInLine(m, disk, lines[i := l'], i, l.block + k);
      assert Contents(disk, lines)[l.block + k] != Contents(disk, lines[i := l'])[l.block + k];
    }
  }

  /** Block k of a line is valid, or holds what is on disk all the same. */
  predicate Untroubled(disk: seq<Data>, l: Line, k: nat)
    requires l.block + k < |disk| && k < |l.data|
  {
    IsValid(l, k) || l.data[k] == disk[l.block + k]
  }

  lemma BlindLineOk(m: Mode, disk: seq<Data>, l: Line)
    requires m.Valid() && |disk| == m.total && LineOk(m, disk, l) && m.copyback && l.blocks == m.size
    ensures LineOk(m, disk, Marked(l, 0, m.size))
  {
    hide Mode.StartOf, Mode.LengthOf, Range;
    var l' := Marked(l, 0, m.size);
    forall q: nat ensures q in Range(0, m.size) <==> q < m.size { InRange(0, m.size, q); }
    forall q: nat | q < 128 ensures q in AllBits() { assert IsBit(q); }
    forall k: nat | k < l'.blocks ensures k in l'.dirty && IsValid(l', k) { }
  }

  /** A line of two blocks that was never read: marked, it hides what is on disk. */
  lemma BlindHarms() returns (m: Mode, disk: seq<Data>, lines: seq<Line>)
    ensures m.copyback && m.size == 2 && LinesOk(m, disk, lines) && |lines| == 4 && |disk| == 4
    ensures lines[0] == Line(2, 2, [[0], [0]], {}, {}, false, false)
    ensures Contents(disk, lines[0 := Marked(lines[0], 0, 2)]) != Contents(disk, lines)
  {
    m := Mode(2, 4, 1, true, false);
    disk := [[1], [1], [1], [1]];
    var none := Line(0, 0, [[0], [0]], {}, {}, false, false);
    lines := [Line(2, 2, [[0], [0]], {}, {}, false, false), none, none, none];
    assert LineOk(m, disk, lines[0]);
    MarkedBlindly(m, disk, lines, 0);
    assert !Untroubled(disk, lines[0], 0);
  }

  // ----- Clean lines

  ghost predicate AllClean(lines: seq<Line>) {
    forall i :: 0 <= i < |lines| ==> lines[i].dirty == {}
  }

  /** A block that is not dirty in any line is on disk what it reads as. */
  lemma CleanOnDisk(m: Mode, disk: seq<Data>, lines: seq<Line>, b: nat)
    requires LinesOk(m, disk, lines) && b < m.total
    requires forall i: nat :: i < |lines| && Has(lines[i], b) ==> lines[i].dirty == {}
    ensures Value(disk, lines, b) == disk[b]
  {
    hide Value, Mode.StartOf, Mode.LengthOf;
    if i: nat :| i < |lines| && Has(lines[i], b) {
      assert LineOk(m, disk, lines[i]);
      ValueInLine(m, disk, lines, i, b);
    } else {
      ValueOnDisk(disk, lines, b);
    }
  }

  /** When nothing is dirty the disk holds everything. */
  lemma AllCleanOnDisk(m: Mode, disk: seq<Data>, lines: seq<Line>)
    requires LinesOk(m, disk, lines) && AllClean(lines)
    ensures Contents(disk, lines) == disk
  {
    hide Value, LineOk;
    forall b: nat | b < m.total ensures Value(disk, lines, b) == disk[b] {
      CleanOnDisk(m, disk, lines, b);
    }
  }
}
