/** Walking the B-tree of FS/btreenodes.c in key order: the node behind a node, the node in front
    of it, and the first node at or behind a block. */
module BTreeWalk {
  import opened TreeShape
  import opened BTree

  // ----- The edges of a subtree

  /** Index, on level m, of the leftmost container below container q of level l. */
  ghost function First(t: Tree, l: nat, q: nat, m: nat): nat
    decreases l
  {
    if l <= m || l >= |t| || q >= |t[l]| then q else First(t, l - 1, Offset(t[l], q), m)
  }

  /** Index, on level m, behind the rightmost container below container q of level l. */
  ghost function Behind(t: Tree, l: nat, q: nat, m: nat): nat
    decreases l
  {
    if l <= m || l >= |t| || q >= |t[l]| then q + 1
    else Behind(t, l - 1, if Offset(t[l], q + 1) > 0 then Offset(t[l], q + 1) - 1 else 0, m)
  }

  lemma {:induction false} FirstStep(t: Tree, root: nat, l: nat, q: nat, m: nat)
    requires Wf(t, root) && 0 < m <= l < |t| && q < |t[l]|
    ensures First(t, l, q, m) < |t[m]|
    ensures First(t, l, q, m - 1) == Offset(t[m], First(t, l, q, m))
    decreases l
  {
    hide Wf, Offset;
    if l > m {
      EdgeInside(t, root, l, q);
      FirstStep(t, root, l - 1, Offset(t[l], q), m);
    } else {
      assert First(t, l, q, m - 1) == First(t, l - 1, Offset(t[l], q), m - 1);
    }
  }

  lemma {:induction false} BehindStep(t: Tree, root: nat, l: nat, q: nat, m: nat)
    requires Wf(t, root) && 0 < m <= l < |t| && q < |t[l]|
    ensures Behind(t, l, q, m) <= |t[m]|
    ensures Behind(t, l, q, m - 1) == Offset(t[m], Behind(t, l, q, m))
    decreases l
  {
    hide Wf, Offset;
    EdgeInside(t, root, l, q);
    if l > m {
      BehindStep(t, root, l - 1, Offset(t[l], q + 1) - 1, m);
    } else {
      assert Behind(t, l, q, m - 1) == Behind(t, l - 1, Offset(t[l], q + 1) - 1, m - 1);
    }
  }

  lemma OffsetStart(level: Level)
    ensures Offset(level, 0) == 0
  {
    assert level[..0] == [];
  }

  /** The first and the last child of a container. */
  lemma EdgeInside(t: Tree, root: nat, l: nat, q: nat)
    requires Wf(t, root) && 0 < l < |t| && q < |t[l]|
    ensures t[l][q].nodes != [] && Offset(t[l], q) < Offset(t[l], q + 1) <= |t[l - 1]| == |Flat(t[l])|
    ensures Offset(t[l], q + 1) == Offset(t[l], q) + |t[l][q].nodes|
  {
    hide Wf, Offset;
    NonEmptyRow(t, root, l, q);
    FlatAround(t[l], q);
    ChildIsBelow(t, root, l, q, 0);
  }

  // ----- Searching beside the key

  /** A search below a container whose separator is behind the key keeps to its left edge. */
  lemma {:induction false} DownFirst(t: Tree, root: nat, l: nat, q: nat, key: nat)
    requires Wf(t, root) && l + 1 < |t| && q < |t[l]| == |Flat(t[l + 1])| && key < Flat(t[l + 1])[q].key
    ensures Down(t, l, q, key) == First(t, l, q, 0) < |t[0]|
    ensures var n := t[0][First(t, l, q, 0)].nodes; n != [] && SearchIndex(n, key) == 0
    decreases l
  {
    hide Wf, Flat, SearchIndex, LinkedAt;
    assert key < t[l][q].nodes[0].key && Sorted(t[l][q].nodes) by { Heads(t, root, l, q); }
    assert SearchIndex(t[l][q].nodes, key) == 0;
    if l > 0 {
      EdgeInside(t, root, l, q);
      ChildIsBelow(t, root, l, q, 0);
      DownFirst(t, root, l - 1, Offset(t[l], q), key);
    }
  }

  /** A container's first key is at or behind its separator. */
  lemma Heads(t: Tree, root: nat, l: nat, q: nat)
    requires Wf(t, root) && l + 1 < |t| && q < |t[l]| == |Flat(t[l + 1])|
    ensures t[l][q].nodes != [] && Flat(t[l + 1])[q].key <= t[l][q].nodes[0].key && Sorted(t[l][q].nodes)
    ensures l > 0 ==> Flat(t[l + 1])[q].key == t[l][q].nodes[0].key
  {
    hide Flat, Distinct;
    assert LevelOk(t, l);
    assert LinkedAt(Flat(t[l + 1]), t[l], q, l == 0);
    RowSorted(t[l], q);
  }

  /** A search below a container that ends in front of the key keeps to its right edge. */
  lemma {:induction false} DownLast(t: Tree, root: nat, l: nat, q: nat, key: nat)
    requires Wf(t, root) && l + 1 < |t| && q + 1 < |t[l]| == |Flat(t[l + 1])| && Flat(t[l + 1])[q + 1].key <= key
    ensures Down(t, l, q, key) + 1 == Behind(t, l, q, 0) <= |t[0]|
    ensures var n := t[0][Down(t, l, q, key)].nodes; n != [] && SearchIndex(n, key) == |n| - 1
    decreases l
  {
    hide Wf, Flat, SearchIndex, LinkedAt;
    var n := t[l][q].nodes;
    assert n != [] && n[|n| - 1].key <= key by { Tails(t, root, l, q); }
    assert SearchIndex(n, key) == |n| - 1;
    if l > 0 {
      EdgeInside(t, root, l, q);
      EdgeInside(t, root, l, q + 1);
      Heads(t, root, l, q + 1);
      ChildIsBelow(t, root, l, q + 1, 0);
      DownLast(t, root, l - 1, Offset(t[l], q + 1) - 1, key);
    }
  }

  lemma Tails(t: Tree, root: nat, l: nat, q: nat)
    requires Wf(t, root) && l + 1 < |t| && q + 1 < |t[l]| == |Flat(t[l + 1])|
    ensures var n := t[l][q].nodes; n != [] && n[|n| - 1].key < Flat(t[l + 1])[q + 1].key
  {
    hide Flat, Distinct;
    assert LevelOk(t, l);
    assert LinkedAt(Flat(t[l + 1]), t[l], q + 1, l == 0);
  }

  // ----- Invariants of the walks

  /** On the way down to `key`, at container r of level m: `block` is the root of the subtree
      right behind that container, 0 if there is nothing behind it. */
  ghost predicate NextSeen(t: Tree, m: nat, r: nat, key: nat, block: nat, l: nat, q: nat) {
    && m < |t| && r < |t[m]|
    && if block == 0 then r + 1 == |t[m]|
       else && m <= l && l + 1 < |t| && At(t, l, q, block)
            && |t[l]| == |Flat(t[l + 1])| && key < Flat(t[l + 1])[q].key && First(t, l, q, m) == r + 1
  }

  /** The same for the subtree right in front of it. */
  ghost predicate PreviousSeen(t: Tree, m: nat, r: nat, key: nat, block: nat, l: nat, q: nat) {
    && m < |t| && r < |t[m]|
    && if block == 0 then r == 0
       else && m <= l && l + 1 < |t| && At(t, l, q, block) && q + 1 < |t[l]|
            && |t[l]| == |Flat(t[l + 1])| && Flat(t[l + 1])[q + 1].key <= key && Behind(t, l, q, m) == r
  }

  lemma NothingSeen(t: Tree, key: nat)
    requires |t| > 0 && |t[|t| - 1]| == 1
    ensures NextSeen(t, |t| - 1, 0, key, 0, 0, 0) && PreviousSeen(t, |t| - 1, 0, key, 0, 0, 0)
  {
  }

  lemma NextIsThere(t: Tree, r: nat, key: nat, block: nat, l: nat, q: nat)
    requires NextSeen(t, 0, r, key, block, l, q) && block != 0
    ensures At(t, l, q, block)
  {
  }

  lemma PreviousIsThere(t: Tree, r: nat, key: nat, block: nat, l: nat, q: nat)
    requires PreviousSeen(t, 0, r, key, block, l, q) && block != 0
    ensures At(t, l, q, block)
  {
  }

  /** Going down to node j of the container, which has a node behind it. */
  lemma NextHere(t: Tree, root: nat, m: nat, r: nat, key: nat, j: nat)
    requires Wf(t, root) && 0 < m < |t| && r < |t[m]| && j + 1 < |t[m][r].nodes| && key < t[m][r].nodes[j + 1].key
    requires t[m][r].nodes[j + 1].data != 0
    ensures NextSeen(t, m - 1, Child(t[m], r, j), key, t[m][r].nodes[j + 1].data, m - 1, Child(t[m], r, j + 1))
  {
    hide Wf, Flat;
    ChildIsBelow(t, root, m, r, j);
    ChildIsBelow(t, root, m, r, j + 1);
  }

  /** Going down to the last node of the container. */
  lemma NextAbove(t: Tree, root: nat, m: nat, r: nat, key: nat, block: nat, l: nat, q: nat)
    requires Wf(t, root) && 0 < m && NextSeen(t, m, r, key, block, l, q) && t[m][r].nodes != []
    ensures NextSeen(t, m - 1, Child(t[m], r, |t[m][r].nodes| - 1), key, block, l, q)
  {
    hide Wf, Flat, Offset;
    EdgeInside(t, root, m, r);
    OffsetEnd(t[m]);
    if block != 0 {
      FirstStep(t, root, l, q, m);
    }
  }

  lemma PreviousHere(t: Tree, root: nat, m: nat, r: nat, key: nat, j: nat)
    requires Wf(t, root) && 0 < m < |t| && r < |t[m]| && 0 < j < |t[m][r].nodes| && t[m][r].nodes[j].key <= key
    requires t[m][r].nodes[j - 1].data != 0
    ensures PreviousSeen(t, m - 1, Child(t[m], r, j), key, t[m][r].nodes[j - 1].data, m - 1, Child(t[m], r, j - 1))
  {
    hide Wf, Flat;
    ChildIsBelow(t, root, m, r, j - 1);
    ChildIsBelow(t, root, m, r, j);
  }

  lemma PreviousAbove(t: Tree, root: nat, m: nat, r: nat, key: nat, block: nat, l: nat, q: nat)
    requires Wf(t, root) && 0 < m && PreviousSeen(t, m, r, key, block, l, q) && t[m][r].nodes != []
    ensures PreviousSeen(t, m - 1, Child(t[m], r, 0), key, block, l, q)
  {
    hide Wf, Flat, Offset;
    EdgeInside(t, root, m, r);
    if block != 0 {
      BehindStep(t, root, l, q, m);
    } else {
      OffsetStart(t[m]);
    }
  }

  /** At the leaf with the key: the subtree behind it starts with the next entry. */
  lemma NextAtLeaf(t: Tree, root: nat, leaf: nat, key: nat, block: nat, l: nat, q: nat)
    requires Wf(t, root) && NextSeen(t, 0, leaf, key, block, l, q)
    ensures block == 0 ==> Offset(t[0], leaf) + |t[0][leaf].nodes| == |Flat(t[0])|
    ensures block != 0 ==> var i := Down(t, l, q, key);
      && i < |t[0]| && t[0][i].nodes != [] && SearchIndex(t[0][i].nodes, key) == 0
      && Offset(t[0], i) == Offset(t[0], leaf) + |t[0][leaf].nodes| < |Flat(t[0])|
  {
    hide Wf, Flat, SearchIndex, Down;
    FlatAround(t[0], leaf);
    if block == 0 {
      OffsetEnd(t[0]);
    } else {
      DownFirst(t, root, l, q, key);
      FlatAround(t[0], leaf + 1);
    }
  }

  lemma PreviousAtLeaf(t: Tree, root: nat, leaf: nat, key: nat, block: nat, l: nat, q: nat)
    requires Wf(t, root) && PreviousSeen(t, 0, leaf, key, block, l, q)
    ensures block == 0 ==> Offset(t[0], leaf) == 0
    ensures block != 0 ==> var i := Down(t, l, q, key);
      && i < |t[0]| && t[0][i].nodes != [] && SearchIndex(t[0][i].nodes, key) == |t[0][i].nodes| - 1
      && Offset(t[0], i) + |t[0][i].nodes| == Offset(t[0], leaf)
  {
    hide Wf, Flat, SearchIndex, Down;
    if block == 0 {
      OffsetStart(t[0]);
    } else {
      DownLast(t, root, l, q, key);
      FlatAround(t[0], leaf - 1);
    }
  }

  // ----- The walks

  /** Node n of the container in `block`, which is leaf `leaf`, is entry x of the tree. */
  ghost predicate Names(tree: ExtentTree, block: nat, n: nat, leaf: nat, x: nat)
    reads tree
  {
    && At(tree.tree, 0, leaf, block) && n < |tree.tree[0][leaf].nodes| && Child(tree.tree[0], leaf, n) == x
  }

  /** A node that is named is the one stored there. */
  lemma NamesStored(tree: ExtentTree, block: nat, n: nat, leaf: nat, x: nat)
    requires Rep(tree.blocks, tree.tree) && Names(tree, block, n, leaf, x)
    ensures |tree.tree| > 0 && x < |tree.Entries()| && block in tree.blocks && n < |tree.blocks[block].nodes|
    ensures tree.blocks[block].nodes[n] == tree.Entries()[x]
  {
    hide Rep, Flat;
    RepAt(tree.blocks, tree.tree, 0, leaf);
    FlatAt(tree.tree[0], leaf, n);
  }

  /** Finds the node behind entry x, if there is one (`nextbnode`). */
  method NextBNode(tree: ExtentTree, key: nat, ghost x: nat) returns (block: nat, n: nat, found: bool, ghost leaf: nat)
    requires tree.Valid(-1) && x < |tree.Entries()| && key == tree.Entries()[x].key
    ensures found <==> x + 1 < |tree.Entries()|
    ensures found ==> Names(tree, block, n, leaf, x + 1)
  {
    hide Wf, Filled, Rep, Flat, Covers, SearchIndex, NextSeen, Down;
    ghost var t, root := tree.tree, tree.root;
    WfTop(t, root);
    TopCovers(t, root, key);
    var blockWithNext := 0;
    block, n, found := tree.root, 0, false;
    ghost var m: nat, l: nat, q: nat := |t| - 1, 0, 0;
    leaf := 0;
    NothingSeen(t, key);
    while true
      invariant At(t, m, leaf, block) && Covers(t, m, leaf, key) && NextSeen(t, m, leaf, key, blockWithNext, l, q)
      decreases m
    {
      RepAt(tree.blocks, t, m, leaf);
      var btc := tree.blocks[block];
      HasNodes(t, root, m, leaf, key, x);
      n := SearchForBNode(key, btc.nodes);
      if btc.isleaf {
        OnlyThere(t, root, leaf, key, x);
        SearchHits(t, root, leaf, key, x);
        NextAtLeaf(t, root, leaf, key, blockWithNext, l, q);
        FlatAround(t[0], leaf);
        if n + 1 < |btc.nodes| {
          n, found := n + 1, true;
          return;
        }
        if blockWithNext == 0 {
          return;
        }
        NextIsThere(t, leaf, key, blockWithNext, l, q);
        block, n, found, leaf := tree.FindBNode(blockWithNext, key, l, q);
        return;
      }
      Descend(t, root, m, leaf, key);
      ChildIsBelow(t, root, m, leaf, n);
      if n + 1 < |btc.nodes| {
        ChildIsBelow(t, root, m, leaf, n + 1);
        RepAt(tree.blocks, t, m - 1, Child(t[m], leaf, n + 1));
        NextHere(t, root, m, leaf, key, n);
        l, q := m - 1, Child(t[m], leaf, n + 1);
        blockWithNext := btc.nodes[n + 1].data;
      } else {
        NextAbove(t, root, m, leaf, key, blockWithNext, l, q);
      }
      block, leaf, m := btc.nodes[n].data, Child(t[m], leaf, n), m - 1;
    }
  }

  /** No container on the way to an entry is empty. */
  lemma HasNodes(t: Tree, root: nat, m: nat, r: nat, key: nat, x: nat)
    requires Wf(t, root) && Covers(t, m, r, key) && |t| > 0 && x < |Flat(t[0])| && Flat(t[0])[x].key == key
    ensures m < |t| && r < |t[m]| && t[m][r].nodes != []
  {
    hide Wf, Flat;
    if m > 0 || |t| > 1 {
      NonEmptyRow(t, root, m, r);
    } else {
      OnlyThere(t, root, r, key, x);
    }
  }

  /** In its leaf a search finds the entry itself. */
  lemma SearchHits(t: Tree, root: nat, leaf: nat, key: nat, x: nat)
    requires Wf(t, root) && leaf < |t[0]| && x < |Flat(t[0])| && Flat(t[0])[x].key == key
    requires Offset(t[0], leaf) <= x < Offset(t[0], leaf) + |t[0][leaf].nodes|
    ensures SearchIndex(t[0][leaf].nodes, key) == x - Offset(t[0], leaf)
  {
    hide Flat, Distinct, SearchIndex;
    assert LevelOk(t, 0);
    RowSorted(t[0], leaf);
    FlatAt(t[0], leaf, x - Offset(t[0], leaf));
  }

  /** Finds the node in front of entry x, which is node `at` of the container in `here`, if there
      is one (`previousbnode`). */
  method PreviousBNode(tree: ExtentTree, here: nat, at: nat, ghost i: nat, ghost x: nat)
    returns (block: nat, n: nat, found: bool, ghost leaf: nat)
    requires tree.Valid(-1) && Names(tree, here, at, i, x)
    ensures found <==> x > 0
    ensures found ==> Names(tree, block, n, leaf, x - 1)
  {
    hide Wf, Filled, Rep, Flat, Covers, SearchIndex, PreviousSeen, Down;
    ghost var t, root := tree.tree, tree.root;
    NamesStored(tree, here, at, i, x);
    if at > 0 {
      block, n, found, leaf := here, at - 1, true, i;
      return;
    }
    WfTop(t, root);
    var key := tree.blocks[here].nodes[at].key;
    TopCovers(t, root, key);
    var blockWithPrevious := 0;
    block, n, found := tree.root, 0, false;
    ghost var m: nat, l: nat, q: nat := |t| - 1, 0, 0;
    leaf := 0;
    NothingSeen(t, key);
    while true
      invariant At(t, m, leaf, block) && Covers(t, m, leaf, key)
      invariant PreviousSeen(t, m, leaf, key, blockWithPrevious, l, q)
      decreases m
    {
      RepAt(tree.blocks, t, m, leaf);
      var btc := tree.blocks[block];
      HasNodes(t, root, m, leaf, key, x);
      n := SearchForBNode(key, btc.nodes);
      if btc.isleaf {
        OnlyThere(t, root, leaf, key, x);
        SearchHits(t, root, leaf, key, x);
        PreviousAtLeaf(t, root, leaf, key, blockWithPrevious, l, q);
        if n > 0 {
          n, found := n - 1, true;
          return;
        }
        if blockWithPrevious == 0 {
          return;
        }
        PreviousIsThere(t, leaf, key, blockWithPrevious, l, q);
        block, n, found, leaf := tree.FindBNode(blockWithPrevious, key, l, q);
        return;
      }
      Descend(t, root, m, leaf, key);
      ChildIsBelow(t, root, m, leaf, n);
      if n > 0 {
        ChildIsBelow(t, root, m, leaf, n - 1);
        RepAt(tree.blocks, t, m - 1, Child(t[m], leaf, n - 1));
        PreviousHere(t, root, m, leaf, key, n);
        l, q := m - 1, Child(t[m], leaf, n - 1);
        blockWithPrevious := btc.nodes[n - 1].data;
      } else {
        PreviousAbove(t, root, m, leaf, key, blockWithPrevious, l, q);
      }
      block, leaf, m := btc.nodes[n].data, Child(t[m], leaf, n), m - 1;
    }
  }

  /** x is the first entry at or behind `key`. */
  ghost predicate FirstFrom(f: seq<Entry>, key: nat, x: nat) {
    && x <= |f|
    && (forall i :: 0 <= i < x ==> f[i].key < key)
    && (forall i :: x <= i < |f| ==> key <= f[i].key)
  }

  /** What a search for a key says about the entries around it. */
  lemma SearchSplits(t: Tree, root: nat, leaf: nat, key: nat)
    requires Wf(t, root) && Covers(t, 0, leaf, key)
    ensures var n := t[0][leaf].nodes;
      var x := Offset(t[0], leaf) + if n == [] then 0 else SearchIndex(n, key);
      if n == [] then FirstFrom(Flat(t[0]), key, |Flat(t[0])|)
      else x < |Flat(t[0])| && Flat(t[0])[x] == n[SearchIndex(n, key)]
           && FirstFrom(Flat(t[0]), key, if Flat(t[0])[x].key < key then x + 1 else x)
  {
    hide Flat, Distinct, SearchIndex;
    var f, o, n := Flat(t[0]), Offset(t[0], leaf), t[0][leaf].nodes;
    assert LevelOk(t, 0);
    if n == [] {
      assert |t| == 1 by { if |t| > 1 { NonEmptyRow(t, root, 0, leaf); } }
      FlatOne(t[0][0]);
      assert t[0] == [t[0][0]];
    } else {
      LeafNeighbours(t, root, leaf, key);
      var j := SearchIndex(n, key);
      FlatAt(t[0], leaf, j);
      if j + 1 < |n| { FlatAt(t[0], leaf, j + 1); }
    }
  }

  /** Entry e is the one with the least key from `key` on. */
  ghost predicate LeastFrom(f: seq<Entry>, key: nat, e: Entry) {
    e in f && e.key >= key && forall i :: 0 <= i < |f| && f[i].key >= key ==> e.key <= f[i].key
  }

  /** Finds the node with the least key at or behind `key`, if there is one (`getbnode`). */
  method GetBNode(tree: ExtentTree, key: nat) returns (block: nat, n: nat, found: bool)
    requires tree.Valid(-1)
    ensures |tree.tree| > 0
    ensures !found ==> forall i :: 0 <= i < |tree.Entries()| ==> tree.Entries()[i].key < key
    ensures found ==> block in tree.blocks && n < |tree.blocks[block].nodes|
    ensures found ==> LeastFrom(tree.Entries(), key, tree.blocks[block].nodes[n])
  {
    hide Wf, Filled, Rep, Flat, Names;
    ghost var leaf, x;
    block, n, found, leaf, x := GetEntry(tree, key);
    if found {
      NamesStored(tree, block, n, leaf, x);
      EntriesSorted(tree.tree, tree.root);
    }
  }

  lemma EntriesSorted(t: Tree, root: nat)
    requires Wf(t, root)
    ensures |t| > 0 && Sorted(Flat(t[0]))
  {
    assert LevelOk(t, 0);
  }

  method GetEntry(tree: ExtentTree, key: nat) returns (block: nat, n: nat, found: bool, ghost leaf: nat, ghost x: nat)
    requires tree.Valid(-1)
    ensures |tree.tree| > 0 && FirstFrom(tree.Entries(), key, x)
    ensures found <==> x < |tree.Entries()|
    ensures found ==> Names(tree, block, n, leaf, x)
  {
    hide Wf, Filled, Rep, Flat, Covers, SearchIndex, FirstFrom, Down;
    ghost var t, root := tree.tree, tree.root;
    WfTop(t, root);
    block, n, found, leaf := tree.FindBNode(tree.root, key, |t| - 1, 0);
    TopCovers(t, root, key);
    DownCovers(t, root, |t| - 1, 0, key);
    SearchSplits(t, root, leaf, key);
    x := if found then Child(t[0], leaf, n) else |tree.Entries()|;
    if found {
      RepAt(tree.blocks, t, 0, leaf);
      var k := tree.blocks[block].nodes[n].key;
      if k < key {
        block, n, found, leaf := NextBNode(tree, k, x);
        x := x + 1;
      }
    }
  }
}
