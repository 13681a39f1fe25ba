/** The extent chains of FS/filesystemmain.c: every file is a chain of extents, runs of blocks
    that name their successor and their predecessor. */
module ExtentShape {

  /** An fsExtentBNode without its key, which is the block it starts at. */
  datatype Extent = Extent(next: nat, prev: nat, blocks: nat)

  type Extents = map<nat, Extent>

  /** Block of the first extent of each object (the field object.file.data), 0 for none. */
  type Objects = map<nat, nat>

  /** The keys of the extents of each object, in file order. */
  type Chains = map<nat, seq<nat>>

  /** Marks a `prev` that names an object. */
  const MSB: nat := 0x8000_0000

  const MAX_EXTENT := 65536

  function FirstOf(c: seq<nat>): nat { if c == [] then 0 else c[0] }

  /** What extent i of the chain of object o has to name. */
  function NextOf(c: seq<nat>, i: nat): nat { if i + 1 < |c| then c[i + 1] else 0 }

  function PrevOf(o: nat, c: seq<nat>, i: nat): nat
    requires i <= |c|
  {
    if i > 0 then c[i - 1] else MSB + o
  }

  ghost predicate Inside(chains: Chains, o: nat, i: nat) {
    o in chains && i < |chains[o]|
  }

  function KeyAt(chains: Chains, o: nat, i: nat): nat
    requires o in chains && i < |chains[o]|
  {
    chains[o][i]
  }

  ghost predicate LinkedAt(ext: Extents, chains: Chains, o: nat, i: nat)
    requires Inside(chains, o, i)
  {
    var c := chains[o];
    && c[i] in ext && ext[c[i]].next == NextOf(c, i) && ext[c[i]].prev == PrevOf(o, c, i)
  }

  ghost predicate Once(chains: Chains) {
    forall o: nat, i: nat, p: nat, j: nat ::
      (Inside(chains, o, i) && Inside(chains, p, j) && KeyAt(chains, o, i) == KeyAt(chains, p, j))
        ==> (o == p && i == j)
  }

  ghost predicate Covered(ext: Extents, chains: Chains) {
    forall k :: k in ext ==> exists o: nat, i: nat :: Inside(chains, o, i) && KeyAt(chains, o, i) == k
  }

  ghost predicate Fits(ext: Extents, total: nat) {
    forall k :: k in ext ==> 0 < k && 0 < ext[k].blocks < MAX_EXTENT && k + ext[k].blocks <= total
  }

  ghost predicate Disjoint(ext: Extents) {
    forall k, l :: k in ext && l in ext && k != l ==> k + ext[k].blocks <= l || l + ext[l].blocks <= k
  }

  /** Links of all chains are mutually inverse, and the extents are disjoint runs of blocks. */
  ghost predicate Shape(ext: Extents, objs: Objects, chains: Chains, total: nat) {
    && total < MSB && objs.Keys == chains.Keys
    && (forall o :: o in objs ==> o < MSB && objs[o] == FirstOf(chains[o]))
    && (forall o: nat, i: nat :: Inside(chains, o, i) ==> LinkedAt(ext, chains, o, i))
    && Once(chains) && Covered(ext, chains) && Fits(ext, total) && Disjoint(ext)
  }

  // ----- The blocks of a file

  function Run(k: nat, n: nat): (r: seq<nat>)
    ensures |r| == n
  {
    seq(n, i requires 0 <= i < n => k + i)
  }

  /** Block numbers of a chain, in file order. */
  ghost function BlocksOf(ext: Extents, c: seq<nat>): seq<nat> {
    if c == [] then [] else (if c[0] in ext then Run(c[0], ext[c[0]].blocks) else []) + BlocksOf(ext, c[1..])
  }

  lemma {:induction false} BlocksConcat(ext: Extents, a: seq<nat>, b: seq<nat>)
    ensures BlocksOf(ext, a + b) == BlocksOf(ext, a) + BlocksOf(ext, b)
  {
    if a == [] {
      assert a + b == b;
    } else {
      assert (a + b)[1..] == a[1..] + b;
      BlocksConcat(ext, a[1..], b);
    }
  }

  lemma BlocksOne(ext: Extents, k: nat)
    requires k in ext
    ensures BlocksOf(ext, [k]) == Run(k, ext[k].blocks)
  {
    assert [k][1..] == [];
  }

  /** Extents of the same sizes give the same blocks. */
  lemma {:induction false} BlocksSame(ext: Extents, ext': Extents, c: seq<nat>)
    requires forall i :: 0 <= i < |c| ==> c[i] in ext && c[i] in ext' && ext[c[i]].blocks == ext'[c[i]].blocks
    ensures BlocksOf(ext, c) == BlocksOf(ext', c)
  {
    if c != [] {
      assert c[0] in ext;
      forall i | 0 <= i < |c[1..]|
        ensures c[1..][i] in ext && c[1..][i] in ext' && ext[c[1..][i]].blocks == ext'[c[1..][i]].blocks
      {
        assert c[1..][i] == c[i + 1];
      }
      BlocksSame(ext, ext', c[1..]);
    }
  }

  /** The chain around its extent i. */
  lemma BlocksAround(ext: Extents, c: seq<nat>, i: nat)
    requires i < |c| && c[i] in ext
    ensures BlocksOf(ext, c) == BlocksOf(ext, c[..i]) + Run(c[i], ext[c[i]].blocks) + BlocksOf(ext, c[i + 1..])
  {
    hide BlocksOf;
    assert c == c[..i + 1] + c[i + 1..];
    BlocksConcat(ext, c[..i + 1], c[i + 1..]);
    assert c[..i + 1] == c[..i] + [c[i]];
    BlocksConcat(ext, c[..i], [c[i]]);
    BlocksOne(ext, c[i]);
  }

  lemma RunConcat(k: nat, m: nat, n: nat)
    ensures Run(k, m + n) == Run(k, m) + Run(k + m, n)
  {
  }

  // ----- Setting links

  /** The extents with `key` as the predecessor of `next` (`setnextextent`). */
  function WithPrev(ext: Extents, next: nat, key: nat): Extents {
    if next != 0 && next in ext then ext[next := ext[next].(prev := key)] else ext
  }

  /** The extents with `key` as the successor of `prev`, if that is an extent. */
  function WithNext(ext: Extents, prev: nat, key: nat): Extents {
    if prev < MSB && prev in ext then ext[prev := ext[prev].(next := key)] else ext
  }

  /** The objects with `key` as the first extent of `prev`, if that is an object. */
  function WithFirst(ext: Extents, objs: Objects, prev: nat, key: nat): Objects {
    if prev < MSB && prev in ext then objs else if prev % MSB in objs then objs[prev % MSB := key] else objs
  }

  /** The chains with the extents [i, j) of object o replaced. */
  function Edited(chains: Chains, o: nat, i: nat, j: nat, keys: seq<nat>): Chains
    requires o in chains && i <= j <= |chains[o]|
  {
    chains[o := chains[o][..i] + keys + chains[o][j..]]
  }

  function Removed(c: seq<nat>, i: nat, j: nat): set<nat>
    requires j <= |c|
  {
    set k | i <= k < j :: c[k]
  }

  function KeySet(keys: seq<nat>): set<nat> {
    if keys == [] then {} else {keys[0]}
  }

  lemma RemovedFew(c: seq<nat>, i: nat)
    ensures i <= |c| ==> Removed(c, i, i) == {}
    ensures i < |c| ==> Removed(c, i, i + 1) == {c[i]}
    ensures i + 1 < |c| ==> Removed(c, i, i + 2) == {c[i], c[i + 1]}
  {
  }

  /** After the extents between c[..i] and c[j..] of the chain of object o were replaced by at
      most one other, whose links are set, and those of its neighbours. */
  ghost predicate Relinked(ext: Extents, objs: Objects, chains: Chains, o: nat, i: nat, j: nat, keys: seq<nat>,
                           ext': Extents, objs': Objects)
    requires o in chains && i <= j <= |chains[o]| && |keys| <= 1
  {
    var c := chains[o];
    && objs' == (if i == 0 then objs[o := FirstOf(keys + c[j..])] else objs)
    && ext'.Keys == ext.Keys - Removed(c, i, j) + KeySet(keys)
    && (forall k :: k in ext' && k !in keys ==> RelinkedAt(ext, o, c, i, j, keys, ext', k))
    && (forall k :: k in keys ==> k in ext' && ext'[k].next == KeyOr0(c, j) && ext'[k].prev == PrevOf(o, c, i))
  }

  function KeyOr0(c: seq<nat>, j: nat): nat { if j < |c| then c[j] else 0 }

  /** What an edit leaves of extent k. */
  ghost predicate RelinkedAt(ext: Extents, o: nat, c: seq<nat>, i: nat, j: nat, keys: seq<nat>, ext': Extents, k: nat)
    requires i <= j <= |c|
  {
    && k in ext && k in ext' && ext'[k].blocks == ext[k].blocks
    && ext'[k].next == (if i > 0 && k == c[i - 1] then FirstOf(keys + c[j..]) else ext[k].next)
    && ext'[k].prev == (if j < |c| && k == c[j] then (if keys == [] then PrevOf(o, c, i) else keys[0]) else ext[k].prev)
  }

  /** The new extent does not start where another one does. */
  ghost predicate NewKeys(ext: Extents, c: seq<nat>, i: nat, j: nat, keys: seq<nat>)
    requires i <= j <= |c|
  {
    |keys| <= 1 && forall k :: k in keys ==> k != 0 && k < MSB && (k !in ext || exists q :: i <= q < j && c[q] == k)
  }

  /** Position in the old chain of extent q of the edited one. */
  function Old(i: nat, j: nat, keys: seq<nat>, q: nat): nat
    requires i <= j
  {
    if q < i then q else if q < i + |keys| then 0 else q - |keys| + (j - i)
  }

  lemma EditedAt(chains: Chains, o: nat, i: nat, j: nat, keys: seq<nat>, p: nat, q: nat)
    requires o in chains && i <= j <= |chains[o]| && Inside(Edited(chains, o, i, j, keys), p, q)
    ensures var chains' := Edited(chains, o, i, j, keys);
      if p != o then Inside(chains, p, q) && KeyAt(chains', p, q) == KeyAt(chains, p, q)
      else if i <= q < i + |keys| then KeyAt(chains', p, q) == keys[q - i]
      else Inside(chains, o, Old(i, j, keys, q)) && KeyAt(chains', p, q) == KeyAt(chains, o, Old(i, j, keys, q))
  {
  }

  lemma OnceAt(chains: Chains, o: nat, i: nat, p: nat, j: nat)
    requires Once(chains) && Inside(chains, o, i) && Inside(chains, p, j) && chains[o][i] == chains[p][j]
    ensures o == p && i == j
  {
    assert KeyAt(chains, o, i) == KeyAt(chains, p, j);
  }

  lemma EditedLinkedOther(ext: Extents, objs: Objects, chains: Chains, total: nat, o: nat, i: nat, j: nat,
                          keys: seq<nat>,
                          ext': Extents, objs': Objects, p: nat, q: nat)
    requires Shape(ext, objs, chains, total) && o in chains && i <= j <= |chains[o]|
    requires NewKeys(ext, chains[o], i, j, keys)
    requires Relinked(ext, objs, chains, o, i, j, keys, ext', objs') && Inside(chains, p, q) && p != o
    ensures LinkedAt(ext', Edited(chains, o, i, j, keys), p, q)
  {
    hide Covered, Disjoint, Fits, Once;
    var c, k := chains[o], chains[p][q];
    assert LinkedAt(ext, chains, p, q);
    assert forall r :: 0 <= r < |c| ==> c[r] != k by {
      forall r | 0 <= r < |c| ensures c[r] != k {
        if c[r] == k { OnceAt(chains, o, r, p, q); }
      }
    }
  }

  lemma EditedLinkedSame(ext: Extents, objs: Objects, chains: Chains, total: nat, o: nat, i: nat, j: nat,
                         keys: seq<nat>,
                         ext': Extents, objs': Objects, q: nat)
    requires Shape(ext, objs, chains, total) && o in chains && i <= j <= |chains[o]|
    requires NewKeys(ext, chains[o], i, j, keys)
    requires Relinked(ext, objs, chains, o, i, j, keys, ext', objs') && Inside(Edited(chains, o, i, j, keys), o, q)
    ensures LinkedAt(ext', Edited(chains, o, i, j, keys), o, q)
  {
    hide Covered, Disjoint, Fits, Once, RelinkedAt;
    var c := chains[o];
    EditedAt(chains, o, i, j, keys, o, q);
    if !(i <= q < i + |keys|) {
      var r := Old(i, j, keys, q);
      assert LinkedAt(ext, chains, o, r);
      forall x | 0 <= x < |c| && x != r ensures c[x] != c[r] {
        if c[x] == c[r] { OnceAt(chains, o, x, o, r); }
      }
      assert c[r] !in keys && c[r] !in Removed(c, i, j);
      assert RelinkedAt(ext, o, c, i, j, keys, ext', c[r]);
      EditedLinkedOld(ext, chains, o, i, j, keys, ext', q, r);
    }
  }

  lemma EditedLinkedOld(ext: Extents, chains: Chains, o: nat, i: nat, j: nat, keys: seq<nat>, ext': Extents, q: nat,
                        r: nat)
    requires o in chains && i <= j <= |chains[o]| && |keys| <= 1 && Inside(Edited(chains, o, i, j, keys), o, q)
    requires !(i <= q < i + |keys|) && r == Old(i, j, keys, q) && Inside(chains, o, r) && LinkedAt(ext, chains, o, r)
    requires forall x :: 0 <= x < |chains[o]| && x != r ==> chains[o][x] != chains[o][r]
    requires RelinkedAt(ext, o, chains[o], i, j, keys, ext', chains[o][r])
    ensures LinkedAt(ext', Edited(chains, o, i, j, keys), o, q)
  {
    var c, c' := chains[o], Edited(chains, o, i, j, keys)[o];
    assert c'[q] == c[r];
    if q + 1 < |c'| {
      assert c'[q + 1] ==
        if q + 1 < i then c[q + 1] else if q + 1 < i + |keys| then keys[0] else c[q + 1 - |keys| + (j - i)];
    }
    if q > 0 {
      assert c'[q - 1] ==
        if q - 1 < i then c[q - 1] else if q - 1 < i + |keys| then keys[0] else c[q - 1 - |keys| + (j - i)];
    }
  }

  /** An edit of one chain keeps all links in order. */
  lemma EditedLinks(ext: Extents, objs: Objects, chains: Chains, total: nat, o: nat, i: nat, j: nat, keys: seq<nat>,
                    ext': Extents, objs': Objects)
    requires Shape(ext, objs, chains, total) && o in chains && i <= j <= |chains[o]|
    requires NewKeys(ext, chains[o], i, j, keys)
    requires Relinked(ext, objs, chains, o, i, j, keys, ext', objs') && Fits(ext', total) && Disjoint(ext')
    ensures Shape(ext', objs', Edited(chains, o, i, j, keys), total)
  {
    hide Covered, Disjoint, Fits, Once, LinkedAt;
    var chains' := Edited(chains, o, i, j, keys);
    forall p: nat, q: nat | Inside(chains', p, q) ensures LinkedAt(ext', chains', p, q) {
      if p == o {
        EditedLinkedSame(ext, objs, chains, total, o, i, j, keys, ext', objs', q);
      } else {
        EditedLinkedOther(ext, objs, chains, total, o, i, j, keys, ext', objs', p, q);
      }
    }
    EditedOnce(ext, objs, chains, total, o, i, j, keys);
    EditedCovered(ext, objs, chains, total, o, i, j, keys, ext', objs');
    assert objs'.Keys == chains'.Keys && forall p :: p in objs' ==> p < MSB && objs'[p] == FirstOf(chains'[p]);
  }

  lemma EditedOnce(ext: Extents, objs: Objects, chains: Chains, total: nat, o: nat, i: nat, j: nat, keys: seq<nat>)
    requires Shape(ext, objs, chains, total) && o in chains && i <= j <= |chains[o]|
    requires NewKeys(ext, chains[o], i, j, keys)
    ensures Once(Edited(chains, o, i, j, keys))
  {
    hide Covered, Disjoint, Fits, LinkedAt;
    var chains' := Edited(chains, o, i, j, keys);
    forall p: nat, q: nat, r: nat, t: nat |
      Inside(chains', p, q) && Inside(chains', r, t) && KeyAt(chains', p, q) == KeyAt(chains', r, t)
      ensures p == r && q == t
    {
      EditedOnceAt(ext, objs, chains, total, o, i, j, keys, p, q, r, t);
    }
  }

  lemma EditedOnceAt(ext: Extents, objs: Objects, chains: Chains, total: nat, o: nat, i: nat, j: nat, keys: seq<nat>,
                     p: nat, q: nat, r: nat, t: nat)
    requires Shape(ext, objs, chains, total) && o in chains && i <= j <= |chains[o]|
    requires NewKeys(ext, chains[o], i, j, keys)
    requires var chains' := Edited(chains, o, i, j, keys);
      Inside(chains', p, q) && Inside(chains', r, t) && KeyAt(chains', p, q) == KeyAt(chains', r, t)
    ensures p == r && q == t
  {
    hide Covered, Disjoint, Fits, Once, Edited;
    EditedAt(chains, o, i, j, keys, p, q);
    EditedAt(chains, o, i, j, keys, r, t);
    EditedKeyIsNew(ext, objs, chains, total, o, i, j, keys, p, q);
    EditedKeyIsNew(ext, objs, chains, total, o, i, j, keys, r, t);
    var q', t' := if p == o then Old(i, j, keys, q) else q, if r == o then Old(i, j, keys, t) else t;
    if !(p == o && i <= q < i + |keys|) {
      OnceAt(chains, p, q', r, t');
    }
  }

  /** Keys from the old chains differ from new ones. */
  lemma EditedKeyIsNew(ext: Extents, objs: Objects, chains: Chains, total: nat, o: nat, i: nat, j: nat,
                       keys: seq<nat>, p: nat, q: nat)
    requires Shape(ext, objs, chains, total) && o in chains && i <= j <= |chains[o]|
    requires NewKeys(ext, chains[o], i, j, keys)
    requires Inside(Edited(chains, o, i, j, keys), p, q)
    ensures KeyAt(Edited(chains, o, i, j, keys), p, q) in keys <==> p == o && i <= q < i + |keys|
  {
    hide Covered, Disjoint, Fits, Once;
    EditedAt(chains, o, i, j, keys, p, q);
    if !(p == o && i <= q < i + |keys|) {
      var q' := if p == o then Old(i, j, keys, q) else q;
      assert LinkedAt(ext, chains, p, q');
      var k := chains[p][q'];
      if k in keys {
        var r :| i <= r < j && chains[o][r] == k;
        OnceAt(chains, o, r, p, q');
      }
    }
  }

  lemma EditedCovered(ext: Extents, objs: Objects, chains: Chains, total: nat, o: nat, i: nat, j: nat, keys: seq<nat>,
                      ext': Extents, objs': Objects)
    requires Shape(ext, objs, chains, total) && o in chains && i <= j <= |chains[o]|
    requires NewKeys(ext, chains[o], i, j, keys)
    requires Relinked(ext, objs, chains, o, i, j, keys, ext', objs')
    ensures Covered(ext', Edited(chains, o, i, j, keys))
  {
    hide Disjoint, Fits, Once, LinkedAt;
    var c, chains' := chains[o], Edited(chains, o, i, j, keys);
    forall k | k in ext' ensures exists p: nat, q: nat :: Inside(chains', p, q) && KeyAt(chains', p, q) == k {
      if k in keys {
        assert Inside(chains', o, i) && KeyAt(chains', o, i) == k;
      } else {
        var p: nat, q: nat :| Inside(chains, p, q) && KeyAt(chains, p, q) == k;
        if p == o {
          assert !(i <= q < j);
          var q' := if q < i then q else q + |keys| - (j - i);
          assert Inside(chains', o, q') && KeyAt(chains', o, q') == k;
        } else {
          assert Inside(chains', p, q) && KeyAt(chains', p, q) == k;
        }
      }
    }
  }

  // ----- Edits as the source makes them

  /** The links set around an edit of a chain. */
  ghost function Replugged(ext: Extents, o: nat, c: seq<nat>, i: nat, j: nat, keys: seq<nat>, blocks: nat): Extents
    requires i <= j <= |c|
  {
    var left := ext - Removed(c, i, j);
    var base := if keys == [] then left else left[keys[0] := Extent(KeyOr0(c, j), PrevOf(o, c, i), blocks)];
    WithNext(WithPrev(base, KeyOr0(c, j), if keys == [] then PrevOf(o, c, i) else keys[0]), PrevOf(o, c, i),
      FirstOf(keys + c[j..]))
  }

  /** The extents on the two sides of an edit are there and apart from what is edited. */
  ghost predicate Sides(ext: Extents, objs: Objects, o: nat, c: seq<nat>, i: nat, j: nat) {
    && i <= j <= |c| && o in objs && o < MSB && objs[o] == FirstOf(c)
    && (i > 0 ==> c[i - 1] in ext && 0 < c[i - 1] < MSB && c[i - 1] !in Removed(c, i, j))
    && (j < |c| ==> c[j] in ext && 0 < c[j] < MSB && c[j] !in Removed(c, i, j))
    && (i > 0 && j < |c| ==> c[i - 1] != c[j])
    && (forall x :: i <= x < j ==> c[x] in ext && 0 < c[x] < MSB)
  }

  lemma SidesOf(ext: Extents, objs: Objects, chains: Chains, total: nat, o: nat, i: nat, j: nat)
    requires Shape(ext, objs, chains, total) && o in chains && i <= j <= |chains[o]|
    ensures Sides(ext, objs, o, chains[o], i, j)
  {
    hide Covered, Disjoint, Once;
    var c := chains[o];
    forall x | 0 <= x < |c| ensures c[x] in ext && 0 < c[x] < MSB {
      assert LinkedAt(ext, chains, o, x);
    }
    forall x, y | 0 <= x < |c| && 0 <= y < |c| && x != y ensures c[x] != c[y] {
      if c[x] == c[y] { OnceAt(chains, o, x, o, y); }
    }
  }

  /** What setting the two links changes. */
  lemma LinksSet(ext: Extents, objs: Objects, next: nat, a: nat, prev: nat, b: nat)
    ensures var ext' := WithNext(WithPrev(ext, next, a), prev, b);
      && ext'.Keys == ext.Keys
      && (forall k :: k in ext ==>
            && ext'[k].blocks == ext[k].blocks
            && ext'[k].next == (if k == prev && prev < MSB then b else ext[k].next)
            && ext'[k].prev == (if k == next && next != 0 then a else ext[k].prev))
  {
  }

  /** The extents before the links are set. */
  ghost function Unplugged(ext: Extents, o: nat, c: seq<nat>, i: nat, j: nat, keys: seq<nat>, blocks: nat): Extents
    requires i <= j <= |c|
  {
    var left := ext - Removed(c, i, j);
    if keys == [] then left else left[keys[0] := Extent(KeyOr0(c, j), PrevOf(o, c, i), blocks)]
  }

  lemma RepluggedFields(ext: Extents, objs: Objects, o: nat, c: seq<nat>, i: nat, j: nat, keys: seq<nat>, blocks: nat)
    requires i <= j <= |c|
    ensures var ext', base := Replugged(ext, o, c, i, j, keys, blocks), Unplugged(ext, o, c, i, j, keys, blocks);
      && ext'.Keys == base.Keys
      && (forall k :: k in base ==>
            && ext'[k].blocks == base[k].blocks
            && ext'[k].next == (if k == PrevOf(o, c, i) && k < MSB then FirstOf(keys + c[j..]) else base[k].next)
            && ext'[k].prev == (if k == KeyOr0(c, j)
                && k != 0 then (if keys == [] then PrevOf(o, c, i) else keys[0]) else base[k].prev))
  {
    hide Removed, WithNext, WithPrev;
    LinksSet(Unplugged(ext, o, c, i, j, keys, blocks), objs, KeyOr0(c, j), if keys
      == [] then PrevOf(o, c, i) else keys[0],
             PrevOf(o, c, i), FirstOf(keys + c[j..]));
  }

  lemma UnpluggedAt(ext: Extents, o: nat, c: seq<nat>, i: nat, j: nat, keys: seq<nat>, blocks: nat, k: nat)
    requires i <= j <= |c| && |keys| <= 1 && k in Unplugged(ext, o, c, i, j, keys, blocks)
    ensures k !in keys ==> k in ext && Unplugged(ext, o, c, i, j, keys, blocks)[k] == ext[k]
    ensures k in keys ==> Unplugged(ext, o, c, i, j, keys, blocks)[k] == Extent(KeyOr0(c, j), PrevOf(o, c, i), blocks)
  {
  }

  lemma RepluggedAt(ext: Extents, objs: Objects, o: nat, c: seq<nat>, i: nat, j: nat, keys: seq<nat>, blocks: nat,
                    k: nat)
    requires Sides(ext, objs, o, c, i, j) && NewKeys(ext, c, i, j, keys)
    requires k in Replugged(ext, o, c, i, j, keys, blocks)
    ensures k !in keys ==> RelinkedAt(ext, o, c, i, j, keys, Replugged(ext, o, c, i, j, keys, blocks), k)
    ensures k in keys ==> Replugged(ext, o, c, i, j, keys, blocks)[k] == Extent(KeyOr0(c, j), PrevOf(o, c, i), blocks)
  {
    hide Removed, Replugged, Unplugged;
    RepluggedFields(ext, objs, o, c, i, j, keys, blocks);
    UnpluggedAt(ext, o, c, i, j, keys, blocks, k);
    NewBeside(ext, o, c, i, j, keys);
  }

  lemma RepluggedKeys(ext: Extents, objs: Objects, o: nat, c: seq<nat>, i: nat, j: nat, keys: seq<nat>, blocks: nat)
    requires i <= j <= |c| && |keys| <= 1
    ensures Replugged(ext, o, c, i, j, keys, blocks).Keys == ext.Keys - Removed(c, i, j) + KeySet(keys)
  {
    hide Removed, Replugged;
    RepluggedFields(ext, objs, o, c, i, j, keys, blocks);
  }

  lemma RepluggedRelinks(ext: Extents, objs: Objects, chains: Chains, o: nat, i: nat, j: nat, keys: seq<nat>,
                         blocks: nat)
    requires o in chains && i <= j <= |chains[o]| && Sides(ext, objs, o, chains[o], i, j)
    requires NewKeys(ext, chains[o], i, j, keys)
    ensures Relinked(ext, objs, chains, o, i, j, keys, Replugged(ext, o, chains[o], i, j, keys, blocks),
                     WithFirst(ext, objs, PrevOf(o, chains[o], i), FirstOf(keys + chains[o][j..])))
    ensures keys != [] ==> (&& keys[0] in Replugged(ext, o, chains[o], i, j, keys, blocks)
                            && Replugged(ext, o, chains[o], i, j, keys, blocks)[keys[0]].blocks == blocks)
  {
    hide Removed, Replugged, RelinkedAt;
    var c := chains[o];
    RepluggedKeys(ext, objs, o, c, i, j, keys, blocks);
    forall k | k in Replugged(ext, o, c, i, j, keys, blocks)
      ensures k !in keys ==> RelinkedAt(ext, o, c, i, j, keys, Replugged(ext, o, c, i, j, keys, blocks), k)
      ensures k in keys ==> Replugged(ext, o, c, i, j, keys, blocks)[k] == Extent(KeyOr0(c, j), PrevOf(o, c, i), blocks)
    {
      RepluggedAt(ext, objs, o, c, i, j, keys, blocks, k);
    }
  }

  /** A new extent is none of its neighbours. */
  lemma NewBeside(ext: Extents, o: nat, c: seq<nat>, i: nat, j: nat, keys: seq<nat>)
    requires i <= j <= |c| && NewKeys(ext, c, i, j, keys)
    requires i > 0 ==> c[i - 1] in ext && c[i - 1] !in Removed(c, i, j)
    requires j < |c| ==> c[j] in ext && c[j] !in Removed(c, i, j)
    ensures i > 0 ==> c[i - 1] !in keys
    ensures j < |c| ==> c[j] !in keys
  {
  }
}
