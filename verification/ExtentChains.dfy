/** Editing extent chains and moving the data of files (FS/filesystemmain.c). */
module ExtentChains {
  import opened Words
  import opened Ranges
  import opened ExtentShape

  /** What one block holds. */
  type Data = seq<Byte>

  /** The blocks behind each file. */
  type Files = map<nat, seq<nat>>

  ghost function FilesOf(ext: Extents, chains: Chains): Files {
    map o | o in chains :: BlocksOf(ext, chains[o])
  }

  /** What each file holds on a disk. */
  ghost function ContentsOf(files: Files, disk: seq<Data>): map<nat, seq<Data>> {
    map o | o in files :: seq(|files[o]|,
      q requires 0 <= q < |files[o]| => if files[o][q] < |disk| then disk[files[o][q]] else [])
  }

  ghost function BlockAt(files: Files, o: nat, q: nat): nat
    requires o in files && q < |files[o]|
  {
    files[o][q]
  }

  ghost predicate AllUsed(files: Files, used: set<nat>) {
    forall o, q: nat :: o in files && q < |files[o]| ==> BlockAt(files, o, q) in used
  }

  /** The disk after n blocks were copied. */
  ghost predicate Copied(d: seq<Data>, source: nat, dest: nat, n: nat, d': seq<Data>)
    requires source + n <= |d| && dest + n <= |d|
  {
    && |d'| == |d|
    && (forall b :: 0 <= b < |d| && !(dest <= b < dest + n) ==> d'[b] == d[b])
    && (forall b :: dest <= b < dest + n ==> d'[b] == d[source + b - dest])
  }

  /** The disk after data were written from block `at` on. */
  function Written(d: seq<Data>, at: nat, data: seq<Data>): (r: seq<Data>)
    requires at + |data| <= |d|
    ensures |r| == |d|
    ensures forall b :: 0 <= b < |d| ==> r[b] == if at <= b < at + |data| then data[b - at] else d[b]
  {
    d[..at] + data + d[at + |data|..]
  }

  lemma CopiedNothing(d: seq<Data>, source: nat, dest: nat)
    requires source <= |d| && dest <= |d|
    ensures Copied(d, source, dest, 0, d)
  {
  }

  /** Copying n more blocks, when source and destination are apart. */
  lemma CopiedMore(d: seq<Data>, source: nat, dest: nat, blocks: nat, d': seq<Data>, done: nat, n: nat)
    requires source + blocks <= |d| && dest + blocks <= |d| && done + n <= blocks && Copied(d, source, dest, done, d')
    requires source + blocks <= dest || dest + blocks <= source
    ensures |d'| == |d|
    ensures var from, to := source + done, dest + done;
      Copied(d, source, dest, done + n, Written(d', to, d'[from..from + n]))
  {
  }

  class FileStore {
    const total: nat
    /** Size of the copy buffer in blocks: OPTBUFSIZE >> shifts_block. */
    const buffer: nat
    /** The B-tree of extents by key. */
    var extents: Extents
    var objects: Objects
    /** Blocks marked as used in the bitmap. */
    var used: set<nat>
    var disk: seq<Data>
    ghost var chains: Chains

    ghost predicate Shaped()
      reads this
    {
      Shape(extents, objects, chains, total)
    }

    /** The blocks of each file, in order. */
    ghost function Files(): Files
      reads this
    {
      FilesOf(extents, chains)
    }

    /** A partition with an empty file for each of the objects. */
    constructor (total: nat, buffer: nat, files: set<nat>, used: set<nat>, disk: seq<Data>)
      requires buffer > 0 && |disk| == total < MSB && forall o :: o in files ==> o < MSB
      ensures Valid() && objects.Keys == chains.Keys == files && extents == map[] && this.used == used
      ensures this.disk == disk
      ensures this.total == total && this.buffer == buffer
      ensures forall o :: o in files ==> chains[o] == []
    {
      this.total, this.buffer, this.used, this.disk := total, buffer, used, disk;
      extents := map[];
      objects := map o | o in files :: 0;
      chains := map o | o in files :: [];
    }

    // ----- Links

    /** Makes `key` the predecessor of the extent `next`, if there is one (`setnextextent`). */
    method SetNextExtent(next: nat, key: nat)
      modifies `extents
      ensures extents == WithPrev(old(extents), next, key)
    {
      if next != 0 && next in extents {
        extents := extents[next := extents[next].(prev := key)];
      }
    }

    /** Makes `key` the successor of the extent `prev` or the first extent of the object it
        names (`setprevextent`). */
    method SetPrevExtent(prev: nat, key: nat)
      modifies `extents, `objects
      ensures extents == WithNext(old(extents), prev, key)
      ensures objects == WithFirst(old(extents), old(objects), prev, key)
    {
      if prev < MSB && prev in extents {
        extents := extents[prev := extents[prev].(next := key)];
      } else if prev % MSB in objects {
        objects := objects[prev % MSB := key];
      }
    }

    // ----- Edits

    /** Joins an extent with the next one if they touch and are not too large together
        (`mergeextent`). */
    method MergeExtent(key: nat, ghost o: nat, ghost i: nat)
      requires Shaped() && Inside(chains, o, i) && KeyAt(chains, o, i) == key
      modifies `extents, `objects, `chains
      ensures Shaped() && Files() == old(Files()) && objects.Keys == old(objects.Keys)
      ensures Joins(old(extents), key) ==>
        var was, next := SizesOf(old(extents)), old(extents)[key].next;
        && SizesOf(extents) == was[key := was[key] + was[next]] - {next}
        && chains == Edited(old(chains), o, i, i + 2, [key])
      ensures !Joins(old(extents), key) ==> extents == old(extents) && objects == old(objects) && chains == old(chains)
    {
      hide Shape, BlocksOf;
      ghost var ext, c := extents, chains[o];
      Look(extents, objects, chains, total, o, i);
      if key in extents {
        var e := extents[key];
        if e.next != 0 && key + e.blocks == e.next {
          if e.next in extents && extents[e.next].blocks + e.blocks < MAX_EXTENT {
            var next := extents[e.next].next;
            var other := e.next;
            Look(extents, objects, chains, total, o, i + 1);
            extents := extents[key := e.(blocks := e.blocks + extents[other].blocks, next := next)];
            extents := extents - {other};
            SetNextExtent(next, key);
            MergeKeeps(ext, objects, chains, total, o, i, extents);
            assert SizesOf(extents) == SizesOf(ext)[key := SizesOf(ext)[key] + SizesOf(ext)[other]] - {other};
            chains := Edited(chains, o, i, i + 2, [key]);
          }
        }
      }
    }

    /** Takes an extent out of its chain (`deleteextent`). */
    method DeleteExtent(key: nat, ghost o: nat, ghost i: nat)
      requires Shaped() && Inside(chains, o, i) && KeyAt(chains, o, i) == key
      modifies `extents, `objects, `chains
      ensures Shaped() && objects.Keys == old(objects.Keys)
      ensures chains == Edited(old(chains), o, i, i + 1, []) && SizesOf(extents) == SizesOf(old(extents)) - {key}
      ensures Files() == old(Files())[o := BlocksAfter(old(extents), old(chains)[o], i, i + 1, [], 0)]
      ensures SidesKept(old(extents), old(chains)[o], i, i + 1, [], 0, extents)
    {
      hide Shape, BlocksOf, BlocksAfter, SidesKept;
      ghost var ext, objs := extents, objects;
      Look(extents, objects, chains, total, o, i);
      var next, prev := extents[key].next, extents[key].prev;
      extents := extents - {key};
      SetNextExtent(next, prev);
      SetPrevExtent(prev, next);
      DeleteKeeps(ext, objs, chains, total, o, i, extents, objects);
      chains := Edited(chains, o, i, i + 1, []);
    }

    /** Puts an extent between two others, or in front of the first one, unless the one in front
        of it can be made longer instead (`insertextent`). */
    method InsertExtent(key: nat, next: nat, prev: nat, blocks: nat, ghost o: nat, ghost i: nat)
      requires Shaped() && o in chains && i <= |chains[o]|
      requires next == KeyOr0(chains[o], i) && prev == PrevOf(o, chains[o], i)
      requires key > 0 && Room(extents, chains[o], i, i, key, blocks, total)
      modifies `extents, `objects, `chains
      ensures Shaped() && objects.Keys == old(objects.Keys)
      ensures Files() == old(Files())[o := BlocksAfter(old(extents), old(chains)[o], i, i, [key], blocks)]
      ensures SizesOf(extents) == Inserted(SizesOf(old(extents)), key, next, prev, blocks)
      ensures var was := SizesOf(old(extents));
        chains == old(chains)[o := InsertedKeys(was, old(chains)[o], i, key, next, prev, blocks)]
    {
      hide Shape, BlocksOf, BlocksAfter, Edited, Room, FilesOf, Inserted, InsertedKeys, SizesOf, Joins;
      ghost var ext, objs, c := extents, objects, chains[o];
      InsertSides(extents, objects, chains, total, o, i, key, blocks);
      SidesOf(extents, objects, chains, total, o, i, i);
      if prev >= MSB || prev in extents {
        SizeAt(extents, prev);
        if prev < MSB && prev + extents[prev].blocks == key && extents[prev].blocks + blocks < MAX_EXTENT {
          ExtendRoom(ext, objs, chains, total, o, i, key, blocks);
          ResizeKeeps(ext, objs, chains, total, o, i - 1, extents[prev].blocks + blocks);
          ExtendBlocks(ext, c, i, key, blocks);
          InsertGrown(ext, objs, chains, total, o, i, key, blocks);
          extents := extents[prev := extents[prev].(blocks := extents[prev].blocks + blocks)];
          MergeExtent(prev, o, i - 1);
        } else {
          SetPrevExtent(prev, key);
          extents := extents[key := Extent(next, prev, blocks)];
          SetNextExtent(next, key);
          InsertKeeps(ext, objs, chains, total, o, i, key, blocks, extents, objects);
          InsertNew(ext, objs, chains, total, o, i, key, blocks, extents);
          chains := Edited(chains, o, i, i, [key]);
          EditedHere(old(chains), o, i, i, key);
          MergeExtent(key, o, i);
        }
      }
    }

    /** Takes blocks off the end of an extent or, if `blocks` is negative, off its start, which
        changes its key (`truncateextent`).  It refuses to take all of them. */
    method TruncateExtent(key: nat, blocks: int, ghost o: nat, ghost i: nat) returns (ok: bool)
      requires Shaped() && Inside(chains, o, i) && KeyAt(chains, o, i) == key
      modifies `extents, `objects, `chains
      ensures Shaped() && objects.Keys == old(objects.Keys)
      ensures ok <==> -(old(extents)[key].blocks as int) < blocks < old(extents)[key].blocks
      ensures !ok || blocks == 0 ==> extents == old(extents) && objects == old(objects) && chains == old(chains)
      ensures ok && blocks > 0 ==>
        && chains == old(chains)
        && SizesOf(extents) == SizesOf(old(extents))[key := old(extents)[key].blocks - blocks]
        && Files() == old(Files())[o := BlocksAfter(old(extents), old(chains)[o], i, i + 1, [key],
          old(extents)[key].blocks - blocks)]
      ensures ok && blocks < 0 ==>
        && Files() == old(Files())[o := BlocksAfter(old(extents), old(chains)[o], i, i + 1, [key - blocks],
            old(extents)[key].blocks + blocks)]
        && chains == Edited(old(chains), o, i, i + 1, [key - blocks])
        && SizesOf(extents) == (SizesOf(old(extents)) - {key})[key - blocks := old(extents)[key].blocks + blocks]
        && SidesKept(old(extents), old(chains)[o], i, i + 1, [key - blocks], old(extents)[key].blocks + blocks, extents)
    {
      hide Shape, BlocksOf, BlocksAfter, Edited, Room, FilesOf, SidesKept, SizesOf;
      ghost var ext, objs := extents, objects;
      Look(extents, objects, chains, total, o, i);
      ok := true;
      if blocks != 0 {
        var b: nat := if blocks < 0 then -blocks else blocks;
        if b < extents[key].blocks {
          var next, prev, left := extents[key].next, extents[key].prev, extents[key].blocks - b;
          if blocks < 0 {
            extents := extents - {key};
            extents := extents[key + b := Extent(next, prev, left)];
            SetNextExtent(next, key + b);
            SetPrevExtent(prev, key + b);
            CutSizes(ext, key, key + b, next, prev, Extent(next, prev, left));
            TruncateKeeps(ext, objs, chains, total, o, i, b, extents, objects);
            chains := Edited(chains, o, i, i + 1, [key + b]);
          } else {
            TailRoom(ext, objs, chains, total, o, i, left);
            ResizeKeeps(ext, objs, chains, total, o, i, left);
            ResizedSizes(ext, key, left);
            extents := extents[key := extents[key].(blocks := left)];
          }
        } else {
          ok := false;
        }
      }
    }

    // ----- Moving data

    /** Copies blocks, a buffer at a time (`copy`). */
    method Copy(source: nat, dest: nat, blocks: nat)
      requires buffer > 0 && source + blocks <= |disk| && dest + blocks <= |disk|
      requires source + blocks <= dest || dest + blocks <= source
      modifies `disk
      ensures |disk| == old(|disk|) && Copied(old(disk), source, dest, blocks, disk)
    {
      hide Copied, Written;
      CopiedNothing(disk, source, dest);
      ghost var before, done: nat := disk, 0;
      var from: nat, to: nat, left: nat := source, dest, blocks;
      while left != 0
        invariant done + left == blocks && from == source + done && to == dest + done && |disk| == |before|
        invariant Copied(before, source, dest, done, disk)
        decreases left
      {
        var n: nat := if left > buffer then buffer else left;
        CopiedMore(before, source, dest, blocks, disk, done, n);
        disk := Written(disk, to, disk[from..from + n]);
        left, from, to, done := left - n, from + n, to + n, done + n;
      }
    }

    /** What each file holds. */
    ghost function Contents(): map<nat, seq<Data>>
      reads this
    {
      ContentsOf(Files(), disk)
    }

    ghost predicate Valid()
      reads this
    {
      Shaped() && |disk| == total && buffer > 0 && AllUsed(Files(), used)
    }

    /** The part of `moveextent` that changes the extents: the old one is deleted or cut at its start, and
        the blocks from `dest` on are inserted where it was. */
    method Relocate(key: nat, dest: nat, blocks: nat, ghost o: nat, ghost i: nat)
      requires Shaped() && Inside(chains, o, i) && KeyAt(chains, o, i) == key && key in extents
      requires 0 < blocks <= extents[key].blocks && dest > 0 && dest + blocks <= total
      requires forall l :: l in extents ==> dest + blocks <= l || l + extents[l].blocks <= dest
      modifies `extents, `objects, `chains
      ensures Shaped() && objects.Keys == old(objects.Keys)
      ensures var c: seq<nat> := old(chains)[o];
        Files() == old(Files())[o := BlocksOf(old(extents), c[..i]) + Run(dest, blocks)
                                      + BlocksBehind(old(extents), c, i, blocks)]
      ensures Relocated(old(extents), old(chains), o, i, dest, blocks, extents, chains)
    {
      hide Shape, BlocksOf, BlocksAfter, Room, SidesKept, Run, BlocksBehind;
      hide SizesOf, Inserted, InsertedKeys, Relocated;
      ghost var ext, all := extents, chains;
      Look(extents, objects, chains, total, o, i);
      var next, prev := extents[key].next, extents[key].prev;
      var size := extents[key].blocks;
      SizeAt(extents, key);
      if size == blocks {
        DeleteExtent(key, o, i);
        MoveWhole(ext, all, o, i, extents, dest, blocks, total);
      } else {
        next := key + blocks;
        var _ := TruncateExtent(key, 0 - blocks, o, i);
        MovePart(ext, all, o, i, extents, dest, blocks, total);
      }
      ghost var mid, between := extents, chains;
      InsertExtent(dest, next, prev, blocks, o, i);
      RelocatedAll(ext, all, o, i, dest, blocks, mid, between, extents, chains);
    }

    /** Moves the first `blocks` blocks of an extent to free blocks from `dest` (`moveextent`). */
    method MoveExtent(key: nat, dest: nat, blocks: nat, ghost o: nat, ghost i: nat)
      requires Valid() && Inside(chains, o, i) && KeyAt(chains, o, i) == key && key in extents
      requires 0 < blocks <= extents[key].blocks && dest > 0 && dest + blocks <= total
      requires forall b :: dest <= b < dest + blocks ==> b !in used
      modifies `extents, `objects, `chains, `used, `disk
      ensures Valid() && objects.Keys == old(objects.Keys)
      ensures Contents() == old(Contents())
      ensures used == old(used) - Range(key, blocks) + Range(dest, blocks)
      ensures Relocated(old(extents), old(chains), o, i, dest, blocks, extents, chains)
      ensures GrownAt(old(extents), key, dest, blocks, extents) && JoinedUp(old(extents), key, blocks, extents)
      ensures blocks == old(extents)[key].blocks && Tight(old(extents)) ==> Tight(extents)
    {
      hide Relocated, GrownAt, JoinedUp;
      hide Shape, BlocksOf, BlocksAfter, Room, AllUsed, ContentsOf;
      hide Copied, SidesKept, Range, Run, OutOf, BlocksBehind;
      ghost var ext, objs, all, c := extents, objects, chains, chains[o];
      ghost var rest := BlocksBehind(ext, c, i, blocks);
      Look(extents, objects, chains, total, o, i);
      FreeRoom(ext, objs, chains, total, used, o, i, dest, blocks);
      MoveStart(ext, chains, o, i, blocks);
      Copy(key, dest, blocks);
      used := used + Range(dest, blocks);
      used := used - Range(key, blocks);
      Relocate(key, dest, blocks, o, i);
      MovedJoins(ext, objs, all, total, o, i, dest, blocks, extents, objects, chains);
      assert Files() == FilesOf(ext, all)[o := BlocksOf(ext, c[..i]) + Run(dest, blocks) + rest];
      MoveDistinct(ext, objs, all, total, o, i, blocks);
      MoveContents(FilesOf(ext, all), o, BlocksOf(ext, c[..i]), rest, key, dest, blocks, old(used), old(disk), disk);
    }
  }

  /** The sizes of all extents. */
  type Sizes = map<nat, nat>

  ghost function SizesOf(ext: Extents): Sizes {
    map k | k in ext :: ext[k].blocks
  }

  /** The extent `prev` can be made longer by the blocks from `key` on. */
  ghost predicate Grows(s: Sizes, prev: nat, key: nat, blocks: nat) {
    prev < MSB && prev in s && prev + s[prev] == key && s[prev] + blocks < MAX_EXTENT
  }

  /** The extent `next` begins where one of `size` blocks ends, and both together are not too large. */
  ghost predicate Takes(s: Sizes, end: nat, next: nat, size: nat) {
    next != 0 && end == next && next in s && size + s[next] < MAX_EXTENT
  }

  /** The sizes after blocks were put in behind `prev` and in front of `next`. */
  ghost function Inserted(s: Sizes, key: nat, next: nat, prev: nat, blocks: nat): Sizes {
    var grows := Grows(s, prev, key, blocks);
    var at, size := if grows then prev else key, if grows then s[prev] + blocks else blocks;
    if Takes(s, key + blocks, next, size) then s[at := size + s[next]] - {next} else s[at := size]
  }

  /** The keys of the chain then. */
  ghost function InsertedKeys(s: Sizes, c: seq<nat>, i: nat, key: nat, next: nat, prev: nat, blocks: nat): seq<nat>
    requires i <= |c|
  {
    var grows := Grows(s, prev, key, blocks);
    var size := if grows then s[prev] + blocks else blocks;
    c[..i] + (if grows then [] else [key])
      + if Takes(s, key + blocks, next, size) && i < |c| then c[i + 1..] else c[i..]
  }

  /** The sizes after extent `key` was deleted or cut at its start, and the keys of its chain. */
  ghost function Left(s: Sizes, key: nat, blocks: nat): Sizes
    requires key in s && blocks <= s[key]
  {
    if blocks == s[key] then s - {key} else (s - {key})[key + blocks := s[key] - blocks]
  }

  ghost function LeftKeys(s: Sizes, c: seq<nat>, i: nat, blocks: nat): (r: seq<nat>)
    requires i < |c| && c[i] in s
    ensures i <= |r|
  {
    c[..i] + (if blocks == s[c[i]] then [] else [c[i] + blocks]) + c[i + 1..]
  }

  /** The first blocks of an extent are from `dest` on now: all extents and their order. */
  ghost predicate Relocated(ext: Extents, chains: Chains, o: nat, i: nat, dest: nat, blocks: nat, ext': Extents,
                            chains': Chains) {
    && Inside(chains, o, i) && chains[o][i] in ext && blocks <= ext[chains[o][i]].blocks
    && var key, s := chains[o][i], SizesOf(ext);
       var next, prev := if blocks == s[key] then ext[key].next else key + blocks, ext[key].prev;
    && SizesOf(ext') == Inserted(Left(s, key, blocks), dest, next, prev, blocks)
    && chains' == chains[o := InsertedKeys(Left(s, key, blocks), LeftKeys(s, chains[o], i, blocks), i, dest, next,
         prev, blocks)]
  }

  /** The moved blocks are part of the extent that was in front of them if it ends where they begin and has
      fewer than 65536 blocks with them, and start an extent of their own if not. */
  ghost predicate GrownAt(ext: Extents, key: nat, dest: nat, blocks: nat, ext': Extents)
    requires key in ext
  {
    var prev := ext[key].prev;
    if prev in ext && prev + ext[prev].blocks == dest && ext[prev].blocks + blocks < 65536 then
      dest !in ext' && prev in ext' && ext'[prev].blocks >= ext[prev].blocks + blocks
    else
      dest in ext' && ext'[dest].blocks >= blocks
  }

  /** No extent can be joined with its successor that could not be before, but the one that has the rest of
      the moved extent; or else this could be done already with the successor of that extent. */
  ghost predicate JoinedUp(ext: Extents, key: nat, blocks: nat, ext': Extents)
    requires key in ext
  {
    forall k: nat :: Joins(ext', k) ==>
      || Joins(ext, k) || Joins(ext, ext[key].next)
      || (blocks < ext[key].blocks && k <= key + blocks < k + ext'[k].blocks)
  }

  /** No extent can be joined with its successor. */
  ghost predicate Tight(ext: Extents) {
    forall k: nat :: !Joins(ext, k)
  }

  /** The extent with this key can be joined with its successor. */
  ghost predicate Joins(ext: Extents, key: nat) {
    && key in ext && ext[key].next != 0 && ext[key].next in ext && key + ext[key].blocks == ext[key].next
    && ext[key].blocks + ext[ext[key].next].blocks < 65536
  }

  /** What a valid chain says about its extent i. */
  lemma Look(ext: Extents, objs: Objects, chains: Chains, total: nat, o: nat, i: nat)
    requires Shape(ext, objs, chains, total) && Inside(chains, o, i)
    ensures var c: seq<nat> := chains[o];
      && c[i] in ext && 0 < c[i] < MSB && o in objs && o < MSB && 0 < ext[c[i]].blocks < MAX_EXTENT
      && c[i] + ext[c[i]].blocks <= total
      && ext[c[i]].next == NextOf(c, i) && ext[c[i]].prev == PrevOf(o, c, i)
      && (i + 1 < |c| ==> c[i + 1] in ext && 0 < c[i + 1] < MSB && c[i + 1] != c[i])
      && (i > 0 ==> c[i - 1] in ext && 0 < c[i - 1] < MSB && c[i - 1] != c[i])
      && (0 < i && i + 1 < |c| ==> c[i - 1] != c[i + 1])
  {
    hide Covered, Disjoint, Once;
    var c: seq<nat> := chains[o];
    assert LinkedAt(ext, chains, o, i);
    if i + 1 < |c| {
      assert LinkedAt(ext, chains, o, i + 1);
      Different(chains, o, i, i + 1);
    }
    if i > 0 {
      assert LinkedAt(ext, chains, o, i - 1);
      Different(chains, o, i - 1, i);
      if i + 1 < |c| {
        Different(chains, o, i - 1, i + 1);
      }
    }
  }

  lemma Different(chains: Chains, o: nat, i: nat, j: nat)
    requires Once(chains) && Inside(chains, o, i) && Inside(chains, o, j) && i != j
    ensures chains[o][i] != chains[o][j]
  {
    assert KeyAt(chains, o, i) == chains[o][i] && KeyAt(chains, o, j) == chains[o][j];
  }

  /** The sizes of the extents in part of a chain are the same. */
  ghost predicate SameSizes(ext: Extents, ext': Extents, c: seq<nat>) {
    forall i :: 0 <= i < |c| ==> c[i] in ext && c[i] in ext' && ext[c[i]].blocks == ext'[c[i]].blocks
  }

  /** The chain of another object, and the rest of this one, keep their sizes. */
  lemma SizesElsewhere(ext: Extents, objs: Objects, chains: Chains, total: nat, o: nat, i: nat, j: nat, ext': Extents)
    requires Shape(ext, objs, chains, total) && o in chains && i <= j <= |chains[o]|
    requires forall k ::
        k in ext && (forall q :: i <= q < j ==> chains[o][q] != k) ==> k in ext' && ext'[k].blocks == ext[k].blocks
    ensures forall p :: p in chains && p != o ==> SameSizes(ext, ext', chains[p])
    ensures SameSizes(ext, ext', chains[o][..i]) && SameSizes(ext, ext', chains[o][j..])
  {
    hide Covered, Disjoint, Fits, LinkedAt;
    forall p, r | p in chains && 0 <= r < |chains[p]| && !(p == o && i <= r < j)
      ensures chains[p][r] in ext && chains[p][r] in ext' && ext[chains[p][r]].blocks == ext'[chains[p][r]].blocks
    {
      Look(ext, objs, chains, total, p, r);
      forall q | i <= q < j ensures chains[o][q] != chains[p][r] {
        if chains[o][q] == chains[p][r] { OnceAt(chains, o, q, p, r); }
      }
    }
  }

  // ----- What an edit keeps

  /** The new extent is a run of blocks that no other extent holds. */
  ghost predicate Room(ext: Extents, c: seq<nat>, i: nat, j: nat, k: nat, n: nat, total: nat)
    requires i <= j <= |c|
  {
    && 0 < n < MAX_EXTENT && k + n <= total
    && forall l :: l in ext && l !in Removed(c, i, j) ==> k + n <= l || l + ext[l].blocks <= k
  }

  /** The blocks of a file around an edit. */
  ghost function BlocksAfter(ext: Extents, c: seq<nat>, i: nat, j: nat, keys: seq<nat>, blocks: nat): seq<nat>
    requires i <= j <= |c|
  {
    BlocksOf(ext, c[..i]) + (if keys == [] then [] else Run(keys[0], blocks)) + BlocksOf(ext, c[j..])
  }

  lemma EditFits(ext: Extents, objs: Objects, chains: Chains, total: nat, o: nat, i: nat, j: nat, keys: seq<nat>,
                 blocks: nat,
                 ext': Extents, objs': Objects)
    requires Shape(ext, objs, chains, total) && o in chains && i <= j <= |chains[o]|
    requires NewKeys(ext, chains[o], i, j, keys)
    requires keys != [] ==> Room(ext, chains[o], i, j, keys[0], blocks, total)
    requires Relinked(ext, objs, chains, o, i, j, keys, ext', objs')
    requires keys != [] ==> keys[0] in ext' && ext'[keys[0]].blocks == blocks
    ensures Fits(ext', total) && Disjoint(ext')
    ensures forall k ::
        k in ext' && k !in keys ==> k in ext && ext'[k].blocks == ext[k].blocks && k !in Removed(chains[o], i, j)
  {
    hide Shape, Room, Removed;
    forall k | k in ext' && k !in keys
      ensures k in ext && ext'[k].blocks == ext[k].blocks && k !in Removed(chains[o], i, j)
    {
      assert RelinkedAt(ext, o, chains[o], i, j, keys, ext', k);
      assert k !in KeySet(keys);
    }
    hide Relinked;
    if keys == [] {
      FitsLess(ext, objs, chains, total, ext');
    } else {
      assert keys == [keys[0]];
      FitsMore(ext, objs, chains, total, o, i, j, keys[0], ext');
    }
  }

  lemma FitsLess(ext: Extents, objs: Objects, chains: Chains, total: nat, ext': Extents)
    requires Shape(ext, objs, chains, total)
    requires forall k :: k in ext' ==> k in ext && ext'[k].blocks == ext[k].blocks
    ensures Fits(ext', total) && Disjoint(ext')
  {
    hide Covered, Once, LinkedAt;
  }

  lemma FitsMore(ext: Extents, objs: Objects, chains: Chains, total: nat, o: nat, i: nat, j: nat, key: nat,
                 ext': Extents)
    requires Shape(ext, objs, chains, total) && o in chains && i <= j <= |chains[o]| && key in ext' && key > 0
    requires Room(ext, chains[o], i, j, key, ext'[key].blocks, total)
    requires forall k ::
        k in ext' && k != key ==> k in ext && ext'[k].blocks == ext[k].blocks && k !in Removed(chains[o], i, j)
    ensures Fits(ext', total) && Disjoint(ext')
  {
    hide Covered, Once, LinkedAt, Removed;
  }

  /** The blocks in front of an edit and behind it are the same, and so are the sizes of all
      extents but the new one. */
  ghost predicate SidesKept(ext: Extents, c: seq<nat>, i: nat, j: nat, keys: seq<nat>, blocks: nat, ext': Extents)
    requires i <= j <= |c|
  {
    && BlocksOf(ext', c[..i]) == BlocksOf(ext, c[..i]) && BlocksOf(ext', c[j..]) == BlocksOf(ext, c[j..])
    && (forall k :: k in ext' && k !in keys ==> k in ext && ext'[k].blocks == ext[k].blocks && k !in Removed(c, i, j))
    && (keys != [] ==> keys[0] in ext' && ext'[keys[0]].blocks == blocks)
  }

  /** An edit of one chain keeps the shape of all, changes that file as it should and no other. */
  lemma EditKeeps(ext: Extents, objs: Objects, chains: Chains, total: nat, o: nat, i: nat, j: nat, keys: seq<nat>,
                  blocks: nat,
                  ext': Extents, objs': Objects)
    requires Shape(ext, objs, chains, total) && o in chains && i <= j <= |chains[o]|
    requires NewKeys(ext, chains[o], i, j, keys)
    requires keys != [] ==> Room(ext, chains[o], i, j, keys[0], blocks, total)
    requires ext' == Replugged(ext, o, chains[o], i, j, keys, blocks)
    requires objs' == WithFirst(ext, objs, PrevOf(o, chains[o], i), FirstOf(keys + chains[o][j..]))
    ensures Shape(ext', objs', Edited(chains, o, i, j, keys), total)
    ensures FilesOf(ext', Edited(chains, o, i, j, keys))
         == FilesOf(ext, chains)[o := BlocksAfter(ext, chains[o], i, j, keys, blocks)]
    ensures ext'.Keys == ext.Keys - Removed(chains[o], i, j) + KeySet(keys)
    ensures SidesKept(ext, chains[o], i, j, keys, blocks, ext')
  {
    hide Shape, Replugged, Relinked, Sides, Removed, BlocksOf, Room;
    var c, chains' := chains[o], Edited(chains, o, i, j, keys);
    SidesOf(ext, objs, chains, total, o, i, j);
    RepluggedRelinks(ext, objs, chains, o, i, j, keys, blocks);
    RepluggedKeys(ext, objs, o, c, i, j, keys, blocks);
    EditFits(ext, objs, chains, total, o, i, j, keys, blocks, ext', objs');
    EditedLinks(ext, objs, chains, total, o, i, j, keys, ext', objs');
    EditSizes(ext, objs, chains, total, o, i, j, keys, ext', objs');
    forall p | p in chains && p != o ensures BlocksOf(ext', chains'[p]) == BlocksOf(ext, chains[p]) {
      BlocksSame(ext, ext', chains[p]);
    }
    BlocksSame(ext, ext', c[..i]);
    BlocksSame(ext, ext', c[j..]);
    BlocksConcat(ext', c[..i] + keys, c[j..]);
    BlocksConcat(ext', c[..i], keys);
    if keys != [] {
      assert keys == [keys[0]];
      BlocksOne(ext', keys[0]);
    } else {
      BlocksNothing(ext');
    }
  }

  lemma BlocksNothing(ext: Extents)
    ensures BlocksOf(ext, []) == []
  {
  }

  lemma EditSizes(ext: Extents, objs: Objects, chains: Chains, total: nat, o: nat, i: nat, j: nat, keys: seq<nat>,
                  ext': Extents, objs': Objects)
    requires Shape(ext, objs, chains, total) && o in chains && i <= j <= |chains[o]|
    requires NewKeys(ext, chains[o], i, j, keys)
    requires Relinked(ext, objs, chains, o, i, j, keys, ext', objs')
    ensures forall p :: p in chains && p != o ==> SameSizes(ext, ext', chains[p])
    ensures SameSizes(ext, ext', chains[o][..i]) && SameSizes(ext, ext', chains[o][j..])
  {
    hide Shape;
    forall k | k in ext && (forall q :: i <= q < j ==> chains[o][q] != k)
      ensures k in ext' && ext'[k].blocks == ext[k].blocks
    {
      assert k !in Removed(chains[o], i, j);
      assert RelinkedAt(ext, o, chains[o], i, j, keys, ext', k);
    }
    SizesElsewhere(ext, objs, chains, total, o, i, j, ext');
  }

  // ----- The edits

  lemma DeleteKeeps(ext: Extents, objs: Objects, chains: Chains, total: nat, o: nat, i: nat, ext': Extents,
                    objs': Objects)
    requires Shape(ext, objs, chains, total) && Inside(chains, o, i)
    requires var c: seq<nat> := chains[o];
      var next, prev := NextOf(c, i), PrevOf(o, c, i);
      && ext' == WithNext(WithPrev(ext - {c[i]}, next, prev), prev, next)
      && objs' == WithFirst(WithPrev(ext - {c[i]}, next, prev), objs, prev, next)
    ensures Shape(ext', objs', Edited(chains, o, i, i + 1, []), total)
    ensures FilesOf(ext', Edited(chains, o, i, i + 1, []))
        == FilesOf(ext, chains)[o := BlocksAfter(ext, chains[o], i, i + 1, [], 0)]
    ensures ext'.Keys == ext.Keys - {chains[o][i]} && objs'.Keys == objs.Keys
    ensures SidesKept(ext, chains[o], i, i + 1, [], 0, ext')
  {
    hide Shape, WithNext, WithPrev, BlocksAfter, FilesOf, Edited, Removed, SidesKept;
    var c: seq<nat> := chains[o];
    Look(ext, objs, chains, total, o, i);
    RemovedFew(c, i);
    assert [] + c[i + 1..] == c[i + 1..];
    FirstApart(ext, objs, c[i], NextOf(c, i), PrevOf(o, c, i), NextOf(c, i));
    EditKeeps(ext, objs, chains, total, o, i, i + 1, [], 0, ext', objs');
  }

  lemma FirstApart(ext: Extents, objs: Objects, gone: nat, next: nat, prev: nat, key: nat)
    requires prev != gone
    ensures WithFirst(WithPrev(ext - {gone}, next, prev), objs, prev, key) == WithFirst(ext, objs, prev, key)
  {
  }

  /** The extents after extent i of a chain swallowed the one behind it. */
  ghost predicate Merged(ext: Extents, chains: Chains, o: nat, i: nat, ext': Extents)
    requires Inside(chains, o, i + 1)
  {
    var c: seq<nat> := chains[o];
    && c[i] in ext && c[i + 1] in ext && c[i] + ext[c[i]].blocks == c[i + 1]
    && ext[c[i]].blocks + ext[c[i + 1]].blocks < MAX_EXTENT
    && ext' == WithPrev(ext[c[i] := Extent(NextOf(c, i + 1), PrevOf(o, c, i),
        ext[c[i]].blocks + ext[c[i + 1]].blocks)] - {c[i + 1]},
                        NextOf(c, i + 1), c[i])
  }

  lemma MergeKeeps(ext: Extents, objs: Objects, chains: Chains, total: nat, o: nat, i: nat, ext': Extents)
    requires Shape(ext, objs, chains, total) && Inside(chains, o, i + 1) && Merged(ext, chains, o, i, ext')
    ensures Shape(ext', objs, Edited(chains, o, i, i + 2, [chains[o][i]]), total)
    ensures FilesOf(ext', Edited(chains, o, i, i + 2, [chains[o][i]])) == FilesOf(ext, chains)
  {
    hide Shape, BlocksOf, Edited, Merged;
    var c: seq<nat> := chains[o];
    Look(ext, objs, chains, total, o, i);
    Look(ext, objs, chains, total, o, i + 1);
    MergeRoom(ext, objs, chains, total, o, i, ext');
    MergeReplugged(ext, objs, chains, total, o, i, ext');
    hide FilesOf, Run, BlocksAfter;
    EditKeeps(ext, objs, chains, total, o, i, i + 2, [c[i]], ext[c[i]].blocks + ext[c[i + 1]].blocks, ext', objs);
    MergedBlocks(ext, c, i);
    SameFiles(ext, chains, o);
  }

  /** Two neighbouring extents have the blocks of one. */
  lemma MergedBlocks(ext: Extents, c: seq<nat>, i: nat)
    requires i + 1 < |c| && c[i] in ext && c[i + 1] in ext && c[i] + ext[c[i]].blocks == c[i + 1]
    ensures BlocksAfter(ext, c, i, i + 2, [c[i]], ext[c[i]].blocks + ext[c[i + 1]].blocks) == BlocksOf(ext, c)
  {
    hide BlocksOf, Run;
    BlocksAround(ext, c, i);
    BlocksAround(ext, c[i + 1..], 0);
    BlocksNothing(ext);
    assert c[i + 1..][0] == c[i + 1] && c[i + 1..][1..] == c[i + 2..] && c[i + 1..][..0] == [];
    RunConcat(c[i], ext[c[i]].blocks, ext[c[i + 1]].blocks);
    Joined(BlocksOf(ext, c[..i]), Run(c[i], ext[c[i]].blocks), Run(c[i + 1], ext[c[i + 1]].blocks),
      BlocksOf(ext, c[i + 2..]));
  }

  lemma SameFiles(ext: Extents, chains: Chains, o: nat)
    requires o in chains
    ensures FilesOf(ext, chains)[o := BlocksOf(ext, chains[o])] == FilesOf(ext, chains)
  {
  }

  lemma Joined(x: seq<nat>, a: seq<nat>, b: seq<nat>, z: seq<nat>)
    ensures x + (a + b) + z == x + a + ([] + b + z)
  {
  }

  lemma MergeRoom(ext: Extents, objs: Objects, chains: Chains, total: nat, o: nat, i: nat, ext': Extents)
    requires Shape(ext, objs, chains, total) && Inside(chains, o, i + 1) && Merged(ext, chains, o, i, ext')
    ensures var c: seq<nat> := chains[o];
      && Room(ext, c, i, i + 2, c[i], ext[c[i]].blocks + ext[c[i + 1]].blocks, total)
          && NewKeys(ext, c, i, i + 2, [c[i]])
      && ext[c[i]].blocks + ext[c[i + 1]].blocks < MAX_EXTENT && c[i] + ext[c[i]].blocks == c[i + 1]
  {
    hide Covered, Once, LinkedAt;
    Look(ext, objs, chains, total, o, i);
    RemovedFew(chains[o], i);
  }

  lemma MergeReplugged(ext: Extents, objs: Objects, chains: Chains, total: nat, o: nat, i: nat, ext': Extents)
    requires Shape(ext, objs, chains, total) && Inside(chains, o, i + 1) && Merged(ext, chains, o, i, ext')
    ensures var c: seq<nat> := chains[o];
      && c[i] in ext && c[i + 1] in ext
      && ext' == Replugged(ext, o, c, i, i + 2, [c[i]], ext[c[i]].blocks + ext[c[i + 1]].blocks)
      && objs == WithFirst(ext, objs, PrevOf(o, c, i), FirstOf([c[i]] + c[i + 2..]))
  {
    hide Shape, Removed;
    var c: seq<nat> := chains[o];
    SidesOf(ext, objs, chains, total, o, i, i + 2);
    Look(ext, objs, chains, total, o, i);
    if i > 0 { Look(ext, objs, chains, total, o, i - 1); }
    RemovedFew(c, i);
    var base := ext[c[i] := Extent(NextOf(c, i + 1), PrevOf(o, c, i),
      ext[c[i]].blocks + ext[c[i + 1]].blocks)] - {c[i + 1]};
    assert base == (ext - {c[i], c[i + 1]})[c[i] := Extent(KeyOr0(c, i + 2), PrevOf(o, c, i),
      ext[c[i]].blocks + ext[c[i + 1]].blocks)];
    NextAlready(WithPrev(base, NextOf(c, i + 1), c[i]), PrevOf(o, c, i), c[i]);
    FirstAlready(ext, objs, o, c, i);
    assert FirstOf([c[i]] + c[i + 2..]) == c[i];
  }

  lemma NextAlready(ext: Extents, prev: nat, key: nat)
    requires prev < MSB && prev in ext ==> ext[prev].next == key
    ensures WithNext(ext, prev, key) == ext
  {
  }

  lemma FirstAlready(ext: Extents, objs: Objects, o: nat, c: seq<nat>, i: nat)
    requires i < |c| && o in objs && objs[o] == c[0] && o < MSB
    requires i > 0 ==> c[i - 1] in ext && c[i - 1] < MSB
    ensures WithFirst(ext, objs, PrevOf(o, c, i), c[i]) == objs
  {
  }

  /** Changing the size of extent i of a chain. */
  lemma ResizeKeeps(ext: Extents, objs: Objects, chains: Chains, total: nat, o: nat, i: nat, size: nat)
    requires Shape(ext, objs, chains, total) && Inside(chains, o, i) && chains[o][i] in ext
    requires Room(ext, chains[o], i, i + 1, chains[o][i], size, total)
    ensures var k := chains[o][i];
      var ext' := ext[k := ext[k].(blocks := size)];
      && Shape(ext', objs, chains, total)
      && FilesOf(ext', chains) == FilesOf(ext, chains)[o := BlocksAfter(ext, chains[o], i, i + 1, [k], size)]
  {
    hide Shape, BlocksOf, BlocksAfter, Room, FilesOf;
    var c: seq<nat> := chains[o];
    var ext' := ext[c[i] := ext[c[i]].(blocks := size)];
    Look(ext, objs, chains, total, o, i);
    SidesOf(ext, objs, chains, total, o, i, i + 1);
    if i > 0 { Look(ext, objs, chains, total, o, i - 1); }
    if i + 1 < |c| { Look(ext, objs, chains, total, o, i + 1); }
    ResizeReplugged(ext, objs, o, c, i, size);
    EditKeeps(ext, objs, chains, total, o, i, i + 1, [c[i]], size, ext', objs);
    assert c[..i] + [c[i]] + c[i + 1..] == c;
    assert Edited(chains, o, i, i + 1, [c[i]]) == chains;
  }

  lemma ResizeReplugged(ext: Extents, objs: Objects, o: nat, c: seq<nat>, i: nat, size: nat)
    requires i < |c| && Sides(ext, objs, o, c, i, i + 1) && c[i] in ext
    requires ext[c[i]].next == NextOf(c, i) && ext[c[i]].prev == PrevOf(o, c, i)
    requires i > 0 ==> ext[c[i - 1]].next == c[i]
    requires i + 1 < |c| ==> ext[c[i + 1]].prev == c[i]
    ensures ext[c[i] := ext[c[i]].(blocks := size)] == Replugged(ext, o, c, i, i + 1, [c[i]], size)
    ensures objs == WithFirst(ext, objs, PrevOf(o, c, i), FirstOf([c[i]] + c[i + 1..]))
    ensures NewKeys(ext, c, i, i + 1, [c[i]])
  {
    hide Removed;
    RemovedFew(c, i);
    var base := (ext - {c[i]})[c[i] := Extent(KeyOr0(c, i + 1), PrevOf(o, c, i), size)];
    assert base == ext[c[i] := ext[c[i]].(blocks := size)];
    PrevAlready(base, KeyOr0(c, i + 1), c[i]);
    NextAlready(base, PrevOf(o, c, i), c[i]);
    FirstAlready(ext, objs, o, c, i);
    assert FirstOf([c[i]] + c[i + 1..]) == c[i];
  }

  lemma PrevAlready(ext: Extents, next: nat, key: nat)
    requires next != 0 && next in ext ==> ext[next].prev == key
    ensures WithPrev(ext, next, key) == ext
  {
  }

  lemma ExtendRoom(ext: Extents, objs: Objects, chains: Chains, total: nat, o: nat, i: nat, key: nat, n: nat)
    requires Shape(ext, objs, chains, total) && o in chains && 0 < i <= |chains[o]| && chains[o][i - 1] in ext
    requires var p := chains[o][i - 1]; p + ext[p].blocks == key && ext[p].blocks + n < MAX_EXTENT
    requires Room(ext, chains[o], i, i, key, n, total)
    ensures Room(ext, chains[o], i - 1, i, chains[o][i - 1], ext[chains[o][i - 1]].blocks + n, total)
  {
    hide Covered, Once, LinkedAt;
    Look(ext, objs, chains, total, o, i - 1);
    RemovedFew(chains[o], i);
    RemovedFew(chains[o], i - 1);
  }

  lemma TailRoom(ext: Extents, objs: Objects, chains: Chains, total: nat, o: nat, i: nat, left: nat)
    requires Shape(ext, objs, chains, total) && Inside(chains, o, i) && chains[o][i] in ext
    requires 0 < left <= ext[chains[o][i]].blocks
    ensures Room(ext, chains[o], i, i + 1, chains[o][i], left, total)
  {
    hide Covered, Once, LinkedAt;
    RemovedFew(chains[o], i);
  }

  lemma ExtendBlocks(ext: Extents, c: seq<nat>, i: nat, key: nat, n: nat)
    requires 0 < i <= |c| && c[i - 1] in ext && c[i - 1] + ext[c[i - 1]].blocks == key
    ensures BlocksAfter(ext, c, i - 1, i, [c[i - 1]], ext[c[i - 1]].blocks + n) == BlocksAfter(ext, c, i, i, [key], n)
  {
    hide BlocksOf;
    var p := c[i - 1];
    assert c[..i] == c[..i - 1] + [p];
    BlocksConcat(ext, c[..i - 1], [p]);
    BlocksOne(ext, p);
    RunConcat(p, ext[p].blocks, n);
  }

  lemma EditedHere(chains: Chains, o: nat, i: nat, j: nat, key: nat)
    requires o in chains && i <= j <= |chains[o]|
    ensures Inside(Edited(chains, o, i, j, [key]), o, i) && KeyAt(Edited(chains, o, i, j, [key]), o, i) == key
  {
  }

  lemma CutSizes(ext: Extents, key: nat, at: nat, next: nat, prev: nat, e: Extent)
    ensures SizesOf(WithNext(WithPrev((ext - {key})[at := e], next, at), prev, at))
         == (SizesOf(ext) - {key})[at := e.blocks]
  {
  }

  lemma ResizedSizes(ext: Extents, key: nat, blocks: nat)
    requires key in ext
    ensures SizesOf(ext[key := ext[key].(blocks := blocks)]) == SizesOf(ext)[key := blocks]
  {
  }

  lemma SizeAt(ext: Extents, k: nat)
    ensures k in SizesOf(ext) <==> k in ext
    ensures k in ext ==> SizesOf(ext)[k] == ext[k].blocks
  {
  }

  /** What is left to do when the extent in front has grown. */
  lemma InsertGrown(ext: Extents, objs: Objects, chains: Chains, total: nat, o: nat, i: nat, key: nat, n: nat)
    requires Shape(ext, objs, chains, total) && o in chains && 0 < i <= |chains[o]| && chains[o][i - 1] in ext
    requires Grows(SizesOf(ext), chains[o][i - 1], key, n)
    ensures var c: seq<nat> := chains[o];
      var prev, next, s := c[i - 1], KeyOr0(c, i), SizesOf(ext);
      var ext' := ext[prev := ext[prev].(blocks := ext[prev].blocks + n)];
      var s' := SizesOf(ext');
      && (Joins(ext', prev) ==>
          && ext'[prev].next == next && next in s' && i < |c|
          && Inserted(s, key, next, prev, n) == s'[prev := s'[prev] + s'[next]] - {next}
          && chains[o := InsertedKeys(s, c, i, key, next, prev, n)] == Edited(chains, o, i - 1, i + 1, [prev]))
      && (!Joins(ext', prev) ==>
          && Inserted(s, key, next, prev, n) == s'
          && chains[o := InsertedKeys(s, c, i, key, next, prev, n)] == chains)
  {
    hide Shape;
    var c: seq<nat> := chains[o];
    Look(ext, objs, chains, total, o, i - 1);
    assert c[..i] + [] + c[i..] == c;
    assert i < |c| ==> c[..i - 1] + [c[i - 1]] + c[i + 1..] == c[..i] + [] + c[i + 1..];
  }

  /** What is left to do when a new extent has been put in. */
  lemma InsertNew(ext: Extents, objs: Objects, chains: Chains, total: nat, o: nat, i: nat, key: nat, n: nat,
                  ext': Extents)
    requires o in chains && i <= |chains[o]|
    requires !Grows(SizesOf(ext), PrevOf(o, chains[o], i), key, n)
    requires var c: seq<nat> := chains[o];
      ext' == WithPrev(WithNext(ext, PrevOf(o, c, i), key)[key := Extent(KeyOr0(c, i), PrevOf(o, c, i), n)],
        KeyOr0(c, i), key)
    requires KeyOr0(chains[o], i) != key && key !in ext
    ensures var c: seq<nat> := chains[o];
      var prev, next, s, s' := PrevOf(o, c, i), KeyOr0(c, i), SizesOf(ext), SizesOf(ext');
      && (Joins(ext', key) ==>
          && ext'[key].next == next && next in s' && i < |c|
          && Inserted(s, key, next, prev, n) == s'[key := s'[key] + s'[next]] - {next}
          && chains[o := InsertedKeys(s, c, i, key, next, prev, n)]
             == Edited(Edited(chains, o, i, i, [key]), o, i, i + 2, [key]))
      && (!Joins(ext', key) ==>
          && Inserted(s, key, next, prev, n) == s'
          && chains[o := InsertedKeys(s, c, i, key, next, prev, n)] == Edited(chains, o, i, i, [key]))
  {
    var c: seq<nat> := chains[o];
    var prev, next, s := PrevOf(o, c, i), KeyOr0(c, i), SizesOf(ext);
    assert SizesOf(ext') == s[key := n];
    var c' := c[..i] + [key] + c[i..];
    assert i < |c| ==> c'[..i] == c[..i] && c'[i + 2..] == c[i + 1..];
  }

  lemma InsertKeeps(ext: Extents, objs: Objects, chains: Chains, total: nat, o: nat, i: nat, key: nat, n: nat,
                    ext': Extents, objs': Objects)
    requires Shape(ext, objs, chains, total) && o in chains && i <= |chains[o]|
    requires key > 0 && Room(ext, chains[o], i, i, key, n, total)
    requires var c: seq<nat> := chains[o];
      var next, prev := KeyOr0(c, i), PrevOf(o, c, i);
      && ext' == WithPrev(WithNext(ext, prev, key)[key := Extent(next, prev, n)], next, key)
      && objs' == WithFirst(ext, objs, prev, key)
    ensures Shape(ext', objs', Edited(chains, o, i, i, [key]), total)
    ensures FilesOf(ext', Edited(chains, o, i, i, [key]))
        == FilesOf(ext, chains)[o := BlocksAfter(ext, chains[o], i, i, [key], n)]
    ensures objs'.Keys == objs.Keys
  {
    hide Shape, BlocksAfter, FilesOf, Edited;
    var c: seq<nat> := chains[o];
    RemovedFew(c, i);
    KeyIsNew(ext, objs, chains, total, c, i, key, n);
    SidesOf(ext, objs, chains, total, o, i, i);
    hide Removed, Room;
    var next, prev := KeyOr0(c, i), PrevOf(o, c, i);
    assert ext - {} == ext;
    InsertCommutes(ext, prev, next, key, Extent(next, prev, n));
    assert FirstOf([key] + c[i..]) == key;
    EditKeeps(ext, objs, chains, total, o, i, i, [key], n, ext', objs');
  }

  /** The extents around a new one. */
  lemma InsertSides(ext: Extents, objs: Objects, chains: Chains, total: nat, o: nat, i: nat, key: nat, blocks: nat)
    requires Shape(ext, objs, chains, total) && o in chains && i <= |chains[o]|
    requires Room(ext, chains[o], i, i, key, blocks, total)
    ensures var c: seq<nat> := chains[o];
      && key !in ext && (KeyOr0(c, i) != 0 ==> KeyOr0(c, i) in ext && KeyOr0(c, i) < MSB)
      && (i > 0 ==> c[i - 1] in ext && ext[c[i - 1]].next == KeyOr0(c, i) && c[i - 1] != KeyOr0(c, i))
  {
    hide Covered, Once, LinkedAt;
    if i > 0 { Look(ext, objs, chains, total, o, i - 1); }
    if i < |chains[o]| { Look(ext, objs, chains, total, o, i); }
    KeyIsNew(ext, objs, chains, total, chains[o], i, key, blocks);
  }

  lemma KeyIsNew(ext: Extents, objs: Objects, chains: Chains, total: nat, c: seq<nat>, i: nat, key: nat, n: nat)
    requires Shape(ext, objs, chains, total) && i <= |c| && Room(ext, c, i, i, key, n, total)
    ensures key !in ext && key < MSB
  {
    hide Covered, Once, LinkedAt;
    RemovedFew(c, i);
  }

  lemma InsertCommutes(ext: Extents, prev: nat, next: nat, key: nat, e: Extent)
    requires key !in ext && prev != key && next != key
    ensures WithPrev(WithNext(ext, prev, key)[key := e], next, key)
        == WithNext(WithPrev(ext[key := e], next, key), prev, key)
  {
  }

  /** The extents and objects after the first b blocks were taken off extent i of a chain. */
  ghost predicate Truncated(ext: Extents, objs: Objects, o: nat, c: seq<nat>, i: nat, b: nat, ext': Extents,
                            objs': Objects)
    requires i < |c| && c[i] in ext && b < ext[c[i]].blocks
  {
    var next, prev, key := NextOf(c, i), PrevOf(o, c, i), c[i];
    var ext1 := WithPrev((ext - {key})[key + b := Extent(next, prev, ext[key].blocks - b)], next, key + b);
    && ext' == WithNext(ext1, prev, key + b) && objs' == WithFirst(ext1, objs, prev, key + b)
  }

  lemma TruncateKeeps(ext: Extents, objs: Objects, chains: Chains, total: nat, o: nat, i: nat, b: nat, ext': Extents,
                      objs': Objects)
    requires Shape(ext, objs, chains, total) && Inside(chains, o, i) && chains[o][i] in ext
    requires 0 < b < ext[chains[o][i]].blocks
    requires Truncated(ext, objs, o, chains[o], i, b, ext', objs')
    ensures Shape(ext', objs', Edited(chains, o, i, i + 1, [chains[o][i] + b]), total)
    ensures FilesOf(ext', Edited(chains, o, i, i + 1, [chains[o][i] + b]))
         == FilesOf(ext, chains)[o := BlocksAfter(ext, chains[o], i, i + 1, [chains[o][i] + b],
           ext[chains[o][i]].blocks - b)]
    ensures ext'.Keys == ext.Keys - {chains[o][i]} + {chains[o][i] + b} && objs'.Keys == objs.Keys
    ensures SidesKept(ext, chains[o], i, i + 1, [chains[o][i] + b], ext[chains[o][i]].blocks - b, ext')
  {
    hide Shape, BlocksAfter, FilesOf, Edited;
    var c: seq<nat> := chains[o];
    var n := ext[c[i]].blocks - b;
    RemovedFew(c, i);
    Look(ext, objs, chains, total, o, i);
    HeadRoom(ext, objs, chains, total, o, i, b);
    SidesOf(ext, objs, chains, total, o, i, i + 1);
    hide Removed, Room;
    assert FirstOf([c[i] + b] + c[i + 1..]) == c[i] + b;
    RepluggedRelinks(ext, objs, chains, o, i, i + 1, [c[i] + b], n);
    FirstStill(ext, objs, c[i], c[i] + b, Extent(NextOf(c, i), PrevOf(o, c, i), n), NextOf(c, i), PrevOf(o, c, i));
    EditKeeps(ext, objs, chains, total, o, i, i + 1, [c[i] + b], n, ext', objs');
  }

  lemma HeadRoom(ext: Extents, objs: Objects, chains: Chains, total: nat, o: nat, i: nat, b: nat)
    requires Shape(ext, objs, chains, total) && Inside(chains, o, i) && chains[o][i] in ext
    requires 0 < b < ext[chains[o][i]].blocks
    ensures Room(ext, chains[o], i, i + 1, chains[o][i] + b, ext[chains[o][i]].blocks - b, total)
    ensures chains[o][i] + b !in ext && chains[o][i] + b < MSB
  {
    hide Covered, Once, LinkedAt;
    RemovedFew(chains[o], i);
  }

  lemma FirstStill(ext: Extents, objs: Objects, gone: nat, key: nat, e: Extent, next: nat, prev: nat)
    requires prev != gone && prev != key
    ensures WithFirst(WithPrev((ext - {gone})[key := e], next, key), objs, prev, key) == WithFirst(ext, objs, prev, key)
  {
  }

  // ----- Moving

  /** Extents k and l touch and are small enough to be one. */
  ghost predicate Joinable(s: Sizes, k: nat, l: nat) {
    k in s && l in s && k + s[k] == l && s[k] + s[l] < MAX_EXTENT
  }

  ghost predicate JoinableAt(s: Sizes, c: seq<nat>, q: nat) {
    q + 1 < |c| && Joinable(s, c[q], c[q + 1])
  }

  lemma InsertedSizes(s: Sizes, c: seq<nat>, i: nat, key: nat, next: nat, prev: nat, n: nat)
    requires i <= |c| && next == KeyOr0(c, i) && key !in s && (if i > 0 then prev == c[i - 1] else prev >= MSB)
    requires forall q :: 0 <= q < |c| ==> c[q] in s && 0 < c[q] < MSB
    requires forall q, t :: 0 <= q < t < |c| ==> c[q] != c[t]
    ensures var s', grows := Inserted(s, key, next, prev, n), Grows(s, prev, key, n);
      var size, at := if grows then s[prev] + n else n, if grows then prev else key;
      var takes := Takes(s, key + n, next, size);
      && (forall q ::
          0 <= q < |c| && !(grows && q == i - 1) && !(takes && q == i) ==> c[q] in s' && s'[c[q]] == s[c[q]])
      && at in s' && s'[at] == if takes then size + s[next] else size
  {
  }

  /** Two extents of a chain that can be joined after blocks were put in could be joined before, unless it is
      the next one that was joined and could go on. */
  lemma InsertedJoins(s: Sizes, c: seq<nat>, i: nat, key: nat, next: nat, prev: nat, n: nat, r: nat)
    requires i <= |c| && next == KeyOr0(c, i) && key !in s && (if i > 0 then prev == c[i - 1] else prev >= MSB)
    requires forall q :: 0 <= q < |c| ==> c[q] in s && 0 < c[q] < MSB
    requires forall q, t :: 0 <= q < t < |c| ==> c[q] != c[t]
    requires JoinableAt(Inserted(s, key, next, prev, n), InsertedKeys(s, c, i, key, next, prev, n), r)
    ensures var c', s' := InsertedKeys(s, c, i, key, next, prev, n), Inserted(s, key, next, prev, n);
      || (exists q: nat :: q < |c| && q + 1 != i && JoinableAt(s, c, q) && c[q] == c'[r])
      || (i < |c| && JoinableAt(s, c, i) && c'[r] <= next < c'[r] + s'[c'[r]])
  {
    var c', s' := InsertedKeys(s, c, i, key, next, prev, n), Inserted(s, key, next, prev, n);
    var grows := Grows(s, prev, key, n);
    var size := if grows then s[prev] + n else n;
    var takes := Takes(s, key + n, next, size) && i < |c|;
    var a, b: nat := if grows then i - 1 else i, if takes then i + 1 else i;
    InsertedSizes(s, c, i, key, next, prev, n);
    hide Inserted;
    if r < a {
      assert c'[r] == c[r];
      if r + 1 < a || grows { assert JoinableAt(s, c, r); }
    } else if r == a {
      assert c'[r] == (if grows then prev else key) && c'[r + 1] == c[b];
      assert takes ==> JoinableAt(s, c, i);
    } else {
      var q: nat := r - a - 1 + b;
      assert c'[r] == c[q] && c'[r + 1] == c[q + 1];
      assert JoinableAt(s, c, q);
    }
  }

  /** An extent can be joined with its successor just if these two of its chain touch and fit. */
  lemma JoinsAt(ext: Extents, objs: Objects, chains: Chains, total: nat, o: nat, i: nat)
    requires Shape(ext, objs, chains, total) && Inside(chains, o, i)
    ensures Joins(ext, chains[o][i]) <==> JoinableAt(SizesOf(ext), chains[o], i)
  {
    hide Shape;
    Look(ext, objs, chains, total, o, i);
  }

  /** The place of an extent. */
  lemma PlaceOf(ext: Extents, objs: Objects, chains: Chains, total: nat, k: nat) returns (o: nat, i: nat)
    requires Shape(ext, objs, chains, total) && k in ext
    ensures Inside(chains, o, i) && chains[o][i] == k
  {
    hide Once, LinkedAt, Fits, Disjoint;
    o, i :| Inside(chains, o, i) && KeyAt(chains, o, i) == k;
  }

  /** What is left of a chain when the first blocks of its extent i are taken away. */
  lemma LeftFacts(ext: Extents, objs: Objects, chains: Chains, total: nat, o: nat, i: nat, n: nat)
    requires Shape(ext, objs, chains, total) && Inside(chains, o, i) && chains[o][i] in ext
    requires 0 < n <= ext[chains[o][i]].blocks
    ensures var c: seq<nat>, s := chains[o], SizesOf(ext);
      var key := c[i];
      var c', s' := LeftKeys(s, c, i, n), Left(s, key, n);
      && (if n == s[key] then ext[key].next else key + n) == KeyOr0(c', i)
      && (if i > 0 then ext[key].prev == c'[i - 1] else ext[key].prev >= MSB)
      && (forall q :: 0 <= q < |c'| ==> c'[q] in s' && 0 < c'[q] < MSB)
      && (forall q, t :: 0 <= q < t < |c'| ==> c'[q] != c'[t])
  {
    hide Shape;
    var c: seq<nat>, s := chains[o], SizesOf(ext);
    var key := c[i];
    Look(ext, objs, chains, total, o, i);
    if n < ext[key].blocks {
      HeadRoom(ext, objs, chains, total, o, i, n);
    }
    forall q | 0 <= q < |c| ensures c[q] in s && 0 < c[q] < MSB {
      Look(ext, objs, chains, total, o, q);
    }
    forall q, t | 0 <= q < t < |c| ensures c[q] != c[t] {
      OtherKeys(ext, objs, chains, total, o, t);
    }
    assert n == s[key] <==> n == ext[key].blocks;
    hide SizesOf;
    LeftIn(s, c, i, n);
  }

  lemma LeftIn(s: Sizes, c: seq<nat>, i: nat, n: nat)
    requires i < |c| && (forall q :: 0 <= q < |c| ==> c[q] in s && 0 < c[q] < MSB) && n <= s[c[i]]
    requires forall q, t :: 0 <= q < t < |c| ==> c[q] != c[t]
    requires n < s[c[i]] ==> 0 < c[i] + n < MSB && c[i] + n !in s
    ensures var c', s' := LeftKeys(s, c, i, n), Left(s, c[i], n);
      && (forall q :: 0 <= q < |c'| ==> c'[q] in s' && 0 < c'[q] < MSB)
      && (forall q, t :: 0 <= q < t < |c'| ==> c'[q] != c'[t])
  {
    var c', s' := LeftKeys(s, c, i, n), Left(s, c[i], n);
    var whole := n == s[c[i]];
    forall q | 0 <= q < |c'|
      ensures c'[q] == if !whole && q == i then c[i] + n else c[if whole && q >= i then q + 1 else q]
    {
    }
  }

  /** Where the moved blocks are afterwards. */
  lemma MovedWhere(ext: Extents, objs: Objects, chains: Chains, total: nat, o: nat, i: nat, dest: nat, n: nat,
                   ext': Extents, chains': Chains)
    requires Shape(ext, objs, chains, total) && Inside(chains, o, i) && chains[o][i] in ext && dest !in ext
    requires 0 < n <= ext[chains[o][i]].blocks && Relocated(ext, chains, o, i, dest, n, ext', chains')
    requires !(chains[o][i] <= dest < chains[o][i] + ext[chains[o][i]].blocks)
    ensures GrownAt(ext, chains[o][i], dest, n, ext')
  {
    hide Shape;
    var key, s, t := chains[o][i], SizesOf(ext), SizesOf(ext');
    Look(ext, objs, chains, total, o, i);
    if n < ext[key].blocks {
      HeadRoom(ext, objs, chains, total, o, i, n);
    }
    SizeAt(ext', dest);
    SizeAt(ext', ext[key].prev);
    assert ext[key].prev >= MSB ==> ext[key].prev !in ext by {
      if ext[key].prev in ext {
        var p, r := PlaceOf(ext, objs, chains, total, ext[key].prev);
        Look(ext, objs, chains, total, p, r);
      }
    }
  }

  /** A move leaves other chains as they are. */
  lemma MovedElsewhere(ext: Extents, objs: Objects, chains: Chains, total: nat, o: nat, i: nat, dest: nat, n: nat,
                       ext': Extents, chains': Chains, p: nat, r: nat)
    requires Shape(ext, objs, chains, total) && Inside(chains, o, i) && chains[o][i] in ext && dest !in ext
    requires 0 < n <= ext[chains[o][i]].blocks && Relocated(ext, chains, o, i, dest, n, ext', chains')
    requires Inside(chains', p, r) && p != o && JoinableAt(SizesOf(ext'), chains'[p], r)
    ensures Inside(chains, p, r) && chains'[p] == chains[p] && JoinableAt(SizesOf(ext), chains[p], r)
  {
    hide Shape;
    var c, key: nat := chains[p], chains[o][i];
    Look(ext, objs, chains, total, o, i);
    if n < ext[key].blocks {
      HeadRoom(ext, objs, chains, total, o, i, n);
    }
    forall q | r <= q <= r + 1
      ensures c[q] in ext && SizesOf(ext')[c[q]] == SizesOf(ext)[c[q]]
    {
      Look(ext, objs, chains, total, p, q);
      OtherKeys(ext, objs, chains, total, p, q);
      assert i > 0 ==> ext[key].prev == chains[o][i - 1];
      assert i + 1 < |chains[o]| ==> ext[key].next == chains[o][i + 1];
    }
  }

  /** A move joins what can be joined. */
  lemma MovedJoins(ext: Extents, objs: Objects, chains: Chains, total: nat, o: nat, i: nat, dest: nat, n: nat,
                   ext': Extents, objs': Objects, chains': Chains)
    requires Shape(ext, objs, chains, total) && Shape(ext', objs', chains', total)
    requires Inside(chains, o, i) && chains[o][i] in ext && dest !in ext
    requires !(chains[o][i] <= dest < chains[o][i] + ext[chains[o][i]].blocks)
    requires 0 < n <= ext[chains[o][i]].blocks && Relocated(ext, chains, o, i, dest, n, ext', chains')
    ensures GrownAt(ext, chains[o][i], dest, n, ext') && JoinedUp(ext, chains[o][i], n, ext')
    ensures n == ext[chains[o][i]].blocks && Tight(ext) ==> Tight(ext')
  {
    hide Shape, Inserted, InsertedKeys, Left, LeftKeys, Joins, JoinableAt, Relocated, GrownAt, SizesOf, Tight;
    MovedWhere(ext, objs, chains, total, o, i, dest, n, ext', chains');
    var key := chains[o][i];
    forall k: nat | Joins(ext', k)
      ensures k in ext'
      ensures || Joins(ext, k) || Joins(ext, ext[key].next)
           || (n < ext[key].blocks && k <= key + n < k + ext'[k].blocks)
    {
      assert k in ext' by { JoinsIn(ext', k); }
      var p, r := PlaceOf(ext', objs', chains', total, k);
      JoinsAt(ext', objs', chains', total, p, r);
      if p != o {
        MovedElsewhere(ext, objs, chains, total, o, i, dest, n, ext', chains', p, r);
        JoinsAt(ext, objs, chains, total, p, r);
      } else {
        Look(ext', objs', chains', total, p, r);
        MovedHere(ext, objs, chains, total, o, i, dest, n, ext', chains', r);
      }
    }
    StaysTight(ext, key, n, ext');
  }

  lemma StaysTight(ext: Extents, key: nat, n: nat, ext': Extents)
    requires key in ext && JoinedUp(ext, key, n, ext')
    ensures n == ext[key].blocks && Tight(ext) ==> Tight(ext')
  {
    hide Joins;
  }

  lemma RelocatedAll(ext: Extents, chains: Chains, o: nat, i: nat, dest: nat, n: nat, mid: Extents, between: Chains,
                     ext': Extents, chains': Chains)
    requires Inside(chains, o, i) && chains[o][i] in ext && n <= ext[chains[o][i]].blocks
    requires var key: nat := chains[o][i];
      && SizesOf(mid) == Left(SizesOf(ext), key, n)
      && between == Edited(chains, o, i, i + 1, if n == ext[key].blocks then [] else [key + n])
    requires var key := chains[o][i];
      var next, prev := if n == ext[key].blocks then ext[key].next else key + n, ext[key].prev;
      && SizesOf(ext') == Inserted(SizesOf(mid), dest, next, prev, n) && i <= |between[o]|
      && chains' == between[o := InsertedKeys(SizesOf(mid), between[o], i, dest, next, prev, n)]
    ensures Relocated(ext, chains, o, i, dest, n, ext', chains')
  {
    hide Inserted, InsertedKeys;
  }

  lemma JoinsIn(ext: Extents, k: nat)
    requires Joins(ext, k)
    ensures k in ext
  {
  }

  lemma MovedHere(ext: Extents, objs: Objects, chains: Chains, total: nat, o: nat, i: nat, dest: nat, n: nat,
                  ext': Extents, chains': Chains, r: nat)
    requires Shape(ext, objs, chains, total) && Inside(chains, o, i) && chains[o][i] in ext && dest !in ext
    requires !(chains[o][i] <= dest < chains[o][i] + ext[chains[o][i]].blocks)
    requires 0 < n <= ext[chains[o][i]].blocks && Relocated(ext, chains, o, i, dest, n, ext', chains')
    requires Inside(chains', o, r) && JoinableAt(SizesOf(ext'), chains'[o], r) && chains'[o][r] in ext'
    requires ext'[chains'[o][r]].blocks > 0
    ensures var k, key := chains'[o][r], chains[o][i];
      || Joins(ext, k) || Joins(ext, ext[key].next) || (n < ext[key].blocks && k <= key + n < k + ext'[k].blocks)
  {
    hide Shape, Inserted, InsertedKeys, JoinableAt, Joins;
    var c: seq<nat>, s, key, k := chains[o], SizesOf(ext), chains[o][i], chains'[o][r];
    var c1, s1 := LeftKeys(s, c, i, n), Left(s, key, n);
    var next := if n == s[key] then ext[key].next else key + n;
    Look(ext, objs, chains, total, o, i);
    LeftFacts(ext, objs, chains, total, o, i, n);
    SizeAt(ext', k);
    InsertedJoins(s1, c1, i, dest, next, ext[key].prev, n, r);
    if q: nat :| q < |c1| && q + 1 != i && JoinableAt(s1, c1, q) && c1[q] == k {
      LeftJoins(ext, objs, chains, total, o, i, n, q);
    } else {
      LeftJoins(ext, objs, chains, total, o, i, n, i);
    }
  }

  /** Two neighbours that were so before can be joined if they can be now. */
  lemma LeftJoins(ext: Extents, objs: Objects, chains: Chains, total: nat, o: nat, i: nat, n: nat, q: nat)
    requires Shape(ext, objs, chains, total) && Inside(chains, o, i) && chains[o][i] in ext
    requires 0 < n <= ext[chains[o][i]].blocks && q + 1 != i
    requires JoinableAt(Left(SizesOf(ext), chains[o][i], n), LeftKeys(SizesOf(ext), chains[o], i, n), q)
    ensures var k, key := LeftKeys(SizesOf(ext), chains[o], i, n)[q], chains[o][i];
      if n < ext[key].blocks && q == i then k == key + n else Joins(ext, k)
  {
    hide Shape, Joins;
    var c: seq<nat>, s, key := chains[o], SizesOf(ext), chains[o][i];
    var t := if n == s[key] && q >= i then q + 1 else q;
    Look(ext, objs, chains, total, o, i);
    if n < ext[key].blocks {
      HeadRoom(ext, objs, chains, total, o, i, n);
    }
    if n == s[key] || q != i {
      Look(ext, objs, chains, total, o, t);
      JoinsAt(ext, objs, chains, total, o, t);
      OtherKeys(ext, objs, chains, total, o, t);
    }
  }

  /** Blocks of an extent are used. */
  lemma ExtentUsed(ext: Extents, objs: Objects, chains: Chains, total: nat, used: set<nat>, l: nat, b: nat)
    requires Shape(ext, objs, chains, total) && AllUsed(FilesOf(ext, chains), used) && l in ext
    requires l <= b < l + ext[l].blocks
    ensures b in used
  {
    hide Once, LinkedAt, Fits, Disjoint;
    var o: nat, i: nat :| Inside(chains, o, i) && KeyAt(chains, o, i) == l;
    var c: seq<nat> := chains[o];
    BlocksAround(ext, c, i);
    UsedAt(FilesOf(ext, chains), used, o, |BlocksOf(ext, c[..i])| + b - l);
  }

  lemma FreeRoom(ext: Extents, objs: Objects, chains: Chains, total: nat, used: set<nat>, o: nat, i: nat, dest: nat,
                 n: nat)
    requires Shape(ext, objs, chains, total) && AllUsed(FilesOf(ext, chains), used) && Inside(chains, o, i)
    requires 0 < n < MAX_EXTENT && dest + n <= total && forall b :: dest <= b < dest + n ==> b !in used
    ensures forall l :: l in ext ==> dest + n <= l || l + ext[l].blocks <= dest
    ensures forall l :: l in ext ==> dest != l && !(l <= dest < l + ext[l].blocks)
  {
    hide AllUsed, FilesOf;
    forall l | l in ext
      ensures (dest + n <= l || l + ext[l].blocks <= dest) && dest != l && !(l <= dest < l + ext[l].blocks)
    {
      assert 0 < ext[l].blocks by { hide Once, Covered, LinkedAt, Disjoint; }
      ExtentUsed(ext, objs, chains, total, used, l, if dest <= l < dest + n then l
        else if l <= dest < l + ext[l].blocks then dest else l);
    }
  }

  /** The blocks of a file behind the first n blocks of its extent i. */
  ghost function BlocksBehind(ext: Extents, c: seq<nat>, i: nat, n: nat): seq<nat>
    requires i < |c| && c[i] in ext && n <= ext[c[i]].blocks
  {
    Run(c[i] + n, ext[c[i]].blocks - n) + BlocksOf(ext, c[i + 1..])
  }

  lemma MoveStart(ext: Extents, chains: Chains, o: nat, i: nat, n: nat)
    requires Inside(chains, o, i) && chains[o][i] in ext && n <= ext[chains[o][i]].blocks
    ensures var c: seq<nat> := chains[o];
      BlocksOf(ext, c) == BlocksOf(ext, c[..i]) + Run(c[i], n) + BlocksBehind(ext, c, i, n)
  {
    hide BlocksOf;
    var c: seq<nat> := chains[o];
    BlocksAround(ext, c, i);
    RunConcat(c[i], n, ext[c[i]].blocks - n);
  }

  /** Where the moved blocks are put in when the whole extent was moved. */
  lemma MoveWhole(ext: Extents, chains: Chains, o: nat, i: nat, ext': Extents, dest: nat, n: nat, total: nat)
    requires Inside(chains, o, i) && chains[o][i] in ext && n == ext[chains[o][i]].blocks && 0 < n < MAX_EXTENT
    requires dest + n <= total
    requires SidesKept(ext, chains[o], i, i + 1, [], 0, ext')
    requires forall l :: l in ext ==> dest + n <= l || l + ext[l].blocks <= dest
    ensures var c: seq<nat> := chains[o];
      var c': seq<nat> := Edited(chains, o, i, i + 1, [])[o];
      && i <= |c'| && KeyOr0(c', i) == NextOf(c, i) && PrevOf(o, c', i) == PrevOf(o, c, i)
          && Room(ext', c', i, i, dest, n, total)
      && BlocksAfter(ext', c', i, i, [dest], n) == BlocksOf(ext, c[..i]) + Run(dest, n) + BlocksBehind(ext, c, i, n)
  {
    hide BlocksOf;
    var c: seq<nat> := chains[o];
    var c': seq<nat> := Edited(chains, o, i, i + 1, [])[o];
    assert c' == c[..i] + c[i + 1..];
    assert c'[..i] == c[..i] && c'[i..] == c[i + 1..];
    assert Run(c[i] + n, 0) == [];
  }

  /** The same when a part of it was moved. */
  lemma MovePart(ext: Extents, chains: Chains, o: nat, i: nat, ext': Extents, dest: nat, n: nat, total: nat)
    requires Inside(chains, o, i) && chains[o][i] in ext && 0 < n < ext[chains[o][i]].blocks && n < MAX_EXTENT
    requires dest + n <= total
    requires SidesKept(ext, chains[o], i, i + 1, [chains[o][i] + n], ext[chains[o][i]].blocks - n, ext')
    requires forall l :: l in ext ==> dest + n <= l || l + ext[l].blocks <= dest
    ensures var c: seq<nat> := chains[o];
      var c': seq<nat> := Edited(chains, o, i, i + 1, [c[i] + n])[o];
      && i <= |c'| && KeyOr0(c', i) == c[i] + n && PrevOf(o, c', i) == PrevOf(o, c, i)
          && Room(ext', c', i, i, dest, n, total)
      && BlocksAfter(ext', c', i, i, [dest], n) == BlocksOf(ext, c[..i]) + Run(dest, n) + BlocksBehind(ext, c, i, n)
  {
    hide BlocksOf;
    var c: seq<nat> := chains[o];
    var c': seq<nat> := Edited(chains, o, i, i + 1, [c[i] + n])[o];
    assert c' == c[..i] + [c[i] + n] + c[i + 1..];
    assert c'[..i] == c[..i] && c'[i..] == [c[i] + n] + c[i + 1..];
    BlocksConcat(ext', [c[i] + n], c[i + 1..]);
    BlocksOne(ext', c[i] + n);
  }

  /** A block of a chain is in one of its extents. */
  lemma {:induction false} BlockInExtent(ext: Extents, c: seq<nat>, q: nat) returns (r: nat)
    requires q < |BlocksOf(ext, c)|
    ensures r < |c| && c[r] in ext && c[r] <= BlocksOf(ext, c)[q] < c[r] + ext[c[r]].blocks
  {
    var n := if c[0] in ext then ext[c[0]].blocks else 0;
    if q < n {
      r := 0;
    } else {
      var r' := BlockInExtent(ext, c[1..], q - n);
      r := r' + 1;
    }
  }

  /** No block of another extent is in the range of extent i. */
  lemma OutsideRange(ext: Extents, objs: Objects, chains: Chains, total: nat, o: nat, i: nat, c: seq<nat>, q: nat)
    requires Shape(ext, objs, chains, total) && Inside(chains, o, i) && q < |BlocksOf(ext, c)| && chains[o][i] in ext
    requires forall r :: 0 <= r < |c| ==> c[r] != chains[o][i]
    ensures var k, x := chains[o][i], BlocksOf(ext, c)[q]; x < k || x >= k + ext[k].blocks
  {
    hide BlocksOf, Once, Covered, LinkedAt, Fits;
    var r := BlockInExtent(ext, c, q);
  }

  /** What a move leaves alone is not in the moved range. */
  lemma MoveDistinct(ext: Extents, objs: Objects, chains: Chains, total: nat, o: nat, i: nat, n: nat)
    requires Shape(ext, objs, chains, total) && Inside(chains, o, i) && chains[o][i] in ext
    requires n <= ext[chains[o][i]].blocks
    ensures var k := chains[o][i];
      && OutOf(BlocksOf(ext, chains[o][..i]), k, n) && OutOf(BlocksBehind(ext, chains[o], i, n), k, n)
      && forall p :: p in chains && p != o ==> OutOf(FilesOf(ext, chains)[p], k, n)
  {
    hide BlocksOf, Shape;
    var c: seq<nat> := chains[o];
    var a, b := BlocksOf(ext, c[..i]), BlocksOf(ext, c[i + 1..]);
    OtherKeys(ext, objs, chains, total, o, i);
    forall q | 0 <= q < |a| ensures a[q] < c[i] || a[q] >= c[i] + n {
      OutsideRange(ext, objs, chains, total, o, i, c[..i], q);
    }
    forall q | 0 <= q < |b| ensures b[q] < c[i] || b[q] >= c[i] + n {
      OutsideRange(ext, objs, chains, total, o, i, c[i + 1..], q);
    }
    forall p, q | p in chains && p != o && 0 <= q < |BlocksOf(ext, chains[p])|
      ensures var x := BlocksOf(ext, chains[p])[q]; x < c[i] || x >= c[i] + n
    {
      OutsideRange(ext, objs, chains, total, o, i, chains[p], q);
    }
  }

  ghost predicate OutOf(blocks: seq<nat>, k: nat, n: nat) {
    forall q :: 0 <= q < |blocks| ==> blocks[q] < k || blocks[q] >= k + n
  }

  /** No other place in a chain has the same key. */
  lemma OtherKeys(ext: Extents, objs: Objects, chains: Chains, total: nat, o: nat, i: nat)
    requires Shape(ext, objs, chains, total) && Inside(chains, o, i)
    ensures var c: seq<nat> := chains[o];
      && (forall r :: 0 <= r < i ==> c[r] != c[i]) && (forall r :: i < r < |c| ==> c[r] != c[i])
      && (forall p, r :: p in chains && p != o && 0 <= r < |chains[p]| ==> chains[p][r] != c[i])
  {
    hide Covered, LinkedAt, Fits, Disjoint, Once;
    var c: seq<nat> := chains[o];
    forall p, r | p in chains && 0 <= r < |chains[p]| && !(p == o && r == i) ensures chains[p][r] != c[i] {
      if chains[p][r] == c[i] { OnceAt(chains, p, r, o, i); }
    }
  }

  /** What block b holds. */
  ghost function DataAt(d: seq<Data>, b: nat): Data { if b < |d| then d[b] else [] }

  lemma UsedAt(files: Files, used: set<nat>, o: nat, q: nat)
    requires AllUsed(files, used) && o in files && q < |files[o]|
    ensures files[o][q] in used
  {
    assert BlockAt(files, o, q) in used;
  }

  lemma StaysUsed(used: set<nat>, key: nat, dest: nat, n: nat, b: nat)
    requires b in used && (b < key || b >= key + n)
    ensures b in used + Range(dest, n) - Range(key, n)
  {
    InRange(key, n, b);
  }

  /** Entry q of the moved file. */
  lemma MovedAt(files: Files, o: nat, a: seq<nat>, rest: seq<nat>, key: nat, dest: nat, n: nat, used: set<nat>,
                d: seq<Data>, d': seq<Data>, q: nat)
    requires o in files && files[o] == a + Run(key, n) + rest && AllUsed(files, used)
    requires key + n <= |d| && dest + n <= |d| && Copied(d, key, dest, n, d')
    requires (forall b :: dest <= b < dest + n ==> b !in used) && (key + n <= dest || dest + n <= key)
    requires OutOf(a, key, n) && OutOf(rest, key, n) && q < |files[o]|
    ensures var f := a + Run(dest, n) + rest;
      && |f| == |files[o]| && DataAt(d', f[q]) == DataAt(d, files[o][q])
      && f[q] in used + Range(dest, n) - Range(key, n)
  {
    hide AllUsed, Range, DataAt;
    var f := a + Run(dest, n) + rest;
    UsedAt(files, used, o, q);
    if |a| <= q < |a| + n {
      var t := q - |a|;
      assert f[q] == dest + t && files[o][q] == key + t;
      InRange(dest, n, dest + t);
      UsedAt(files, used, o, q);
      NotMoved(used, key, dest, n, dest + t, key + t);
      assert DataAt(d', dest + t) == DataAt(d, key + t) by { CopiedAt(d, key, dest, n, d', t); }
    } else {
      var x := if q < |a| then a[q] else rest[q - |a| - n];
      assert f[q] == x == files[o][q];
      StaysUsed(used, key, dest, n, x);
      Kept(d, key, dest, n, d', x);
    }
  }

  lemma CopiedAt(d: seq<Data>, key: nat, dest: nat, n: nat, d': seq<Data>, t: nat)
    requires key + n <= |d| && dest + n <= |d| && Copied(d, key, dest, n, d') && t < n
    ensures DataAt(d', dest + t) == DataAt(d, key + t)
  {
    assert d'[dest + t] == d[key + (dest + t) - dest];
  }

  lemma Kept(d: seq<Data>, key: nat, dest: nat, n: nat, d': seq<Data>, x: nat)
    requires key + n <= |d| && dest + n <= |d| && Copied(d, key, dest, n, d') && (x < dest || x >= dest + n)
    ensures DataAt(d', x) == DataAt(d, x)
  {
  }

  /** A block the data is moved to is not one it comes from, all of those being used. */
  lemma NotMoved(used: set<nat>, key: nat, dest: nat, n: nat, b: nat, k: nat)
    requires key + n <= dest || dest + n <= key
    requires dest <= b < dest + n
    ensures b in used + Range(dest, n) - Range(key, n)
  {
    InRange(dest, n, b);
    InRange(key, n, b);
  }

  /** Every file reads as before, and its blocks are marked as used. */
  lemma MoveContents(files: Files, o: nat, a: seq<nat>, rest: seq<nat>, key: nat, dest: nat, n: nat, used: set<nat>,
                     d: seq<Data>, d': seq<Data>)
    requires o in files && files[o] == a + Run(key, n) + rest && AllUsed(files, used)
    requires key + n <= |d| && dest + n <= |d| && Copied(d, key, dest, n, d') && (key + n <= dest || dest + n <= key)
    requires forall b :: dest <= b < dest + n ==> b !in used
    requires OutOf(a, key, n) && OutOf(rest, key, n) && forall p :: p in files && p != o ==> OutOf(files[p], key, n)
    ensures var f := files[o := a + Run(dest, n) + rest];
      ContentsOf(f, d') == ContentsOf(files, d) && AllUsed(f, used + Range(dest, n) - Range(key, n))
    ensures used + Range(dest, n) - Range(key, n) == used - Range(key, n) + Range(dest, n)
  {
    hide Range, Copied, DataAt, Run;
    var f, used' := files[o := a + Run(dest, n) + rest], used + Range(dest, n) - Range(key, n);
    forall p, q: nat | p in files && q < |files[p]|
      ensures |f[p]| == |files[p]| && DataAt(d', f[p][q]) == DataAt(d, files[p][q]) && f[p][q] in used'
    {
      if p == o {
        MovedAt(files, o, a, rest, key, dest, n, used, d, d', q);
      } else {
        UsedAt(files, used, p, q);
        StaysUsed(used, key, dest, n, files[p][q]);
        Kept(d, key, dest, n, d', files[p][q]);
      }
    }
    assert |f[o]| == |files[o]| by { assert |Run(key, n)| == |Run(dest, n)|; }
    SameContents(files, d, f, d');
    forall b
      ensures b in used + Range(dest, n) - Range(key, n) <==> b in used - Range(key, n) + Range(dest, n)
    {
      if b >= 0 {
        InRange(dest, n, b);
        InRange(key, n, b);
      }
    }
  }

  lemma SameContents(files: Files, d: seq<Data>, f: Files, d': seq<Data>)
    requires f.Keys == files.Keys
    requires forall p :: p in files ==> |f[p]| == |files[p]|
    requires forall p, q: nat :: p in files && q < |files[p]| ==> DataAt(d', f[p][q]) == DataAt(d, files[p][q])
    ensures ContentsOf(f, d') == ContentsOf(files, d)
  {
    forall p | p in files ensures ContentsOf(f, d')[p] == ContentsOf(files, d)[p] {
      var x, y := ContentsOf(f, d')[p], ContentsOf(files, d)[p];
      assert |x| == |y|;
      forall q | 0 <= q < |x| ensures x[q] == y[q] {
        assert DataAt(d', f[p][q]) == DataAt(d, files[p][q]);
      }
    }
  }
}
