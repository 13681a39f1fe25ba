/** The B-tree of FS/btreenodes.c: containers in blocks, with the root in a fixed block.  The
    ghost field `tree` is the shape the containers have. */
module BTree {
  import opened TreeShape

  datatype Container = Container(isleaf: bool, nodes: seq<Entry>)

  /** Container i of level k as it is stored. */
  ghost function Stored(t: Tree, k: nat, i: nat): Container
    requires k < |t| && i < |t[k]|
  {
    Container(k == 0, t[k][i].nodes)
  }

  ghost predicate At(t: Tree, k: nat, i: nat, block: nat) {
    k < |t| && i < |t[k]| && t[k][i].block == block
  }

  /** `blocks` holds exactly the containers of t.  No container lives in block 0. */
  ghost predicate Rep(blocks: map<nat, Container>, t: Tree) {
    && (forall k: nat, i: nat, b: nat :: At(t, k, i, b) ==> b in blocks && blocks[b] == Stored(t, k, i))
    && (forall b :: b in blocks ==> b > 0 && exists k: nat, i: nat :: At(t, k, i, b))
  }

  lemma RepAt(blocks: map<nat, Container>, t: Tree, k: nat, i: nat)
    requires Rep(blocks, t) && k < |t| && i < |t[k]|
    ensures t[k][i].block in blocks && t[k][i].block > 0 && blocks[t[k][i].block] == Stored(t, k, i)
  {
    assert At(t, k, i, t[k][i].block);
  }

  lemma RepFresh(blocks: map<nat, Container>, t: Tree, b: nat)
    requires Rep(blocks, t) && b !in blocks
    ensures forall k: nat, i: nat :: k < |t| && i < |t[k]| ==> BlockAt(t, k, i) != b
  {
    forall k: nat, i: nat | k < |t| && i < |t[k]| ensures BlockAt(t, k, i) != b {
      RepAt(blocks, t, k, i);
    }
  }

  // ----- The edits on the stored containers

  lemma RepLeafSet(blocks: map<nat, Container>, t: Tree, i: nat, n: seq<Entry>)
    requires Rep(blocks, t) && Distinct(t) && |t| > 0 && i < |t[0]|
    ensures Rep(blocks[t[0][i].block := Container(true, n)], LeafSet(t, i, n))
  {
    hide Distinct;
    var t', blocks' := LeafSet(t, i, n), blocks[t[0][i].block := Container(true, n)];
    forall m: nat, q: nat, b: nat | At(t', m, q, b) ensures b in blocks' && blocks'[b] == Stored(t', m, q) {
      assert At(t, m, q, b);
      DistinctAt(t, m, q, 0, i);
    }
    forall b | b in blocks' ensures b > 0 && exists m: nat, q: nat :: At(t', m, q, b) {
      RepAt(blocks, t, 0, i);
      var m: nat, q: nat :| At(t, m, q, b);
      assert At(t', m, q, b);
    }
  }

  lemma RepMerged(blocks: map<nat, Container>, t: Tree, k: nat, p: nat, r: nat, j: nat)
    requires Rep(blocks, t) && Distinct(t)
    requires k + 1 < |t| && p + 1 < |t[k]| && r < |t[k + 1]| && j < |t[k + 1][r].nodes|
    ensures var n := t[k + 1][r].nodes;
      Rep((blocks - {t[k][p + 1].block})[t[k][p].block := Container(k == 0, t[k][p].nodes + t[k][p + 1].nodes)]
            [t[k + 1][r].block := Container(false, n[..j] + n[j + 1..])],
          Merged(t, k, p, r, j))
  {
    hide Distinct, Replaced;
    var n, t' := t[k + 1][r].nodes, Merged(t, k, p, r, j);
    var blocks' := (blocks - {t[k][p + 1].block})
      [t[k][p].block := Container(k == 0, t[k][p].nodes + t[k][p + 1].nodes)]
      [t[k + 1][r].block := Container(false, n[..j] + n[j + 1..])];
    forall m: nat, q: nat, b: nat | At(t', m, q, b) ensures b in blocks' && blocks'[b] == Stored(t', m, q) {
      var o := if m == k && q > p then q + 1 else q;
      assert At(t, m, o, b);
      DistinctAt(t, m, o, k, p);
      DistinctAt(t, m, o, k, p + 1);
      DistinctAt(t, m, o, k + 1, r);
      DistinctAt(t, k, p, k + 1, r);
    }
    forall b | b in blocks' ensures b > 0 && exists m: nat, q: nat :: At(t', m, q, b) {
      RepAt(blocks, t, k, p);
      RepAt(blocks, t, k + 1, r);
      var m: nat, q: nat :| At(t, m, q, b);
      DistinctAt(t, k, p + 1, k, p);
      DistinctAt(t, k, p + 1, k + 1, r);
      assert At(t', m, if m == k && q > p then q - 1 else q, b);
    }
  }

  lemma RepRecut(blocks: map<nat, Container>, t: Tree, k: nat, p: nat, a: seq<Entry>, b: seq<Entry>, r: nat, j: nat)
    requires Rep(blocks, t) && Distinct(t)
    requires k + 1 < |t| && p + 1 < |t[k]| && r < |t[k + 1]| && j < |t[k + 1][r].nodes| && b != []
    ensures var n := t[k + 1][r].nodes;
      Rep(blocks[t[k][p].block := Container(k == 0, a)][t[k][p + 1].block := Container(k == 0, b)]
            [t[k + 1][r].block := Container(false, n[j := Entry(b[0].key, n[j].data)])],
          Recut(t, k, p, a, b, r, j))
  {
    hide Distinct, Replaced;
    var n, t' := t[k + 1][r].nodes, Recut(t, k, p, a, b, r, j);
    var blocks' := blocks[t[k][p].block := Container(k == 0, a)][t[k][p + 1].block := Container(k == 0, b)]
      [t[k + 1][r].block := Container(false, n[j := Entry(b[0].key, n[j].data)])];
    forall m: nat, q: nat, c: nat | At(t', m, q, c) ensures c in blocks' && blocks'[c] == Stored(t', m, q) {
      assert At(t, m, q, c);
      DistinctAt(t, m, q, k, p);
      DistinctAt(t, m, q, k, p + 1);
      DistinctAt(t, m, q, k + 1, r);
    }
    forall c | c in blocks' ensures c > 0 && exists m: nat, q: nat :: At(t', m, q, c) {
      RepAt(blocks, t, k, p);
      RepAt(blocks, t, k, p + 1);
      RepAt(blocks, t, k + 1, r);
      var m: nat, q: nat :| At(t, m, q, c);
      assert At(t', m, q, c);
    }
  }

  lemma RepSplit(blocks: map<nat, Container>, t: Tree, k: nat, p: nat, a: seq<Entry>, b: seq<Entry>, fresh_: nat,
                 r: nat, j: nat)
    requires Rep(blocks, t) && Distinct(t) && fresh_ !in blocks && fresh_ > 0
    requires k + 1 < |t| && p < |t[k]| && r < |t[k + 1]| && j < |t[k + 1][r].nodes| && b != []
    ensures var n := t[k + 1][r].nodes;
      Rep(blocks[fresh_ := Container(k == 0, b)][t[k][p].block := Container(k == 0, a)]
            [t[k + 1][r].block := Container(false, n[..j + 1] + [Entry(b[0].key, fresh_)] + n[j + 1..])],
          Split(t, k, p, a, b, fresh_, r, j))
  {
    hide Distinct, Replaced;
    var n, t' := t[k + 1][r].nodes, Split(t, k, p, a, b, fresh_, r, j);
    var blocks' := blocks[fresh_ := Container(k == 0, b)][t[k][p].block := Container(k == 0, a)]
      [t[k + 1][r].block := Container(false, n[..j + 1] + [Entry(b[0].key, fresh_)] + n[j + 1..])];
    RepAt(blocks, t, k, p);
    RepAt(blocks, t, k + 1, r);
    forall m: nat, q: nat, c: nat | At(t', m, q, c) ensures c in blocks' && blocks'[c] == Stored(t', m, q) {
      if !(m == k && q == p + 1) {
        var o := if m == k && q > p then q - 1 else q;
        assert At(t, m, o, c);
        DistinctAt(t, m, o, k, p);
        DistinctAt(t, m, o, k + 1, r);
      }
    }
    forall c | c in blocks' ensures c > 0 && exists m: nat, q: nat :: At(t', m, q, c) {
      if c == fresh_ {
        assert At(t', k, p + 1, c);
      } else {
        var m: nat, q: nat :| At(t, m, q, c);
        assert At(t', m, if m == k && q > p then q + 1 else q, c);
      }
    }
  }

  lemma RepGrown(blocks: map<nat, Container>, t: Tree, root: nat, fresh_: nat)
    requires Rep(blocks, t) && Wf(t, root) && fresh_ !in blocks && fresh_ > 0
    ensures root in blocks
    ensures Rep(blocks[fresh_ := blocks[root]][root := Container(false, [Entry(0, fresh_)])], Grown(t, root, fresh_))
  {
    hide LevelOk, Distinct;
    var t', h := Grown(t, root, fresh_), |t| - 1;
    RepAt(blocks, t, h, 0);
    var blocks' := blocks[fresh_ := blocks[root]][root := Container(false, [Entry(0, fresh_)])];
    forall m: nat, q: nat, c: nat | At(t', m, q, c) ensures c in blocks' && blocks'[c] == Stored(t', m, q) {
      if m < h {
        assert At(t, m, q, c);
        DistinctAt(t, m, q, h, 0);
      }
    }
    forall c | c in blocks' ensures c > 0 && exists m: nat, q: nat :: At(t', m, q, c) {
      if c == fresh_ {
        assert At(t', h, 0, c);
      } else if c == root {
        assert At(t', h + 1, 0, c);
      } else {
        var m: nat, q: nat :| At(t, m, q, c);
        assert At(t', m, q, c);
      }
    }
  }

  lemma RepCollapsed(blocks: map<nat, Container>, t: Tree, root: nat)
    requires Rep(blocks, t) && Wf(t, root) && |t| > 1 && |t[|t| - 2]| == 1
    ensures t[|t| - 2][0].block in blocks
    ensures Rep((blocks - {t[|t| - 2][0].block})[root := blocks[t[|t| - 2][0].block]], Collapsed(t, root))
  {
    hide LevelOk, Distinct;
    var t', h := Collapsed(t, root), |t| - 1;
    var child := t[h - 1][0].block;
    RepAt(blocks, t, h, 0);
    RepAt(blocks, t, h - 1, 0);
    DistinctAt(t, h, 0, h - 1, 0);
    var blocks' := (blocks - {child})[root := blocks[child]];
    forall m: nat, q: nat, c: nat | At(t', m, q, c) ensures c in blocks' && blocks'[c] == Stored(t', m, q) {
      if m < h - 1 {
        assert At(t, m, q, c);
        DistinctAt(t, m, q, h, 0);
        DistinctAt(t, m, q, h - 1, 0);
      }
    }
    forall c | c in blocks' ensures c > 0 && exists m: nat, q: nat :: At(t', m, q, c) {
      if c == root {
        assert At(t', h - 1, 0, c);
      } else {
        var m: nat, q: nat :| At(t, m, q, c);
        assert At(t', m, q, c);
      }
    }
  }

  // ----- Nodes of one container

  /** Looks for the last node with a key of at most `key` (`searchforbnode`). */
  method SearchForBNode(key: nat, nodes: seq<Entry>) returns (n: nat)
    requires nodes != []
    ensures n == SearchIndex(nodes, key)
  {
    n := |nodes| - 1;
    assert nodes[..n + 1] == nodes;
    while n > 0 && key < nodes[n].key
      invariant n < |nodes| && SearchIndex(nodes, key) == SearchIndex(nodes[..n + 1], key)
    {
      assert nodes[..n + 1][..n] == nodes[..n];
      n := n - 1;
    }
  }

  /** Moves nodes up one slot, from the last one down, until `e` fits (`insertbnode`). */
  method InsertBNode(nodes: seq<Entry>, e: Entry, ghost j: nat) returns (r: seq<Entry>, n: nat)
    requires InsertsAt(nodes, e.key, j)
    ensures r == nodes[..j] + [e] + nodes[j..] && n == j
  {
    r := nodes + [e];
    n := |nodes|;
    while n > 0 && e.key <= r[n - 1].key
      invariant j <= n <= |nodes| && |r| == |nodes| + 1
      invariant forall i :: 0 <= i < n ==> r[i] == nodes[i]
      invariant forall i :: n < i < |r| ==> r[i] == nodes[i - 1]
    {
      r := r[n := r[n - 1]];
      n := n - 1;
    }
    r := r[n := e];
  }

  function KeyIndex(nodes: seq<Entry>, key: nat): (n: nat)
    ensures n <= |nodes|
    ensures forall i :: 0 <= i < n ==> nodes[i].key != key
    ensures n < |nodes| ==> nodes[n].key == key
  {
    if nodes == [] || nodes[0].key == key then 0 else 1 + KeyIndex(nodes[1..], key)
  }

  /** The nodes without the first one that has `key`. */
  function Without(nodes: seq<Entry>, key: nat): seq<Entry> {
    var n := KeyIndex(nodes, key);
    if n < |nodes| then nodes[..n] + nodes[n + 1..] else nodes
  }

  /** Moves the nodes behind the one with `key` down one slot (`removebnode`). */
  method RemoveBNode(nodes: seq<Entry>, key: nat) returns (r: seq<Entry>)
    ensures r == Without(nodes, key)
  {
    var n := 0;
    while n < |nodes| && nodes[n].key != key
      invariant n <= |nodes| && forall i :: 0 <= i < n ==> nodes[i].key != key
    {
      n := n + 1;
    }
    assert n == KeyIndex(nodes, key);
    r := nodes;
    if n < |nodes| {
      var i := n;
      while i + 1 < |nodes|
        invariant n <= i < |nodes| && |r| == |nodes|
        invariant forall q :: 0 <= q < n || i <= q < |r| ==> r[q] == nodes[q]
        invariant forall q :: n <= q < i ==> r[q] == nodes[q + 1]
      {
        r := r[i := r[i + 1]];
        i := i + 1;
      }
      r := r[..|nodes| - 1];
    }
  }

  lemma WithoutAt(nodes: seq<Entry>, j: nat)
    requires Sorted(nodes) && j < |nodes|
    ensures Without(nodes, nodes[j].key) == nodes[..j] + nodes[j + 1..]
  {
  }

  lemma RowSorted(level: Level, i: nat)
    requires Sorted(Flat(level)) && i < |level|
    ensures Sorted(level[i].nodes)
  {
    hide Flat;
    FlatAround(level, i);
    var n, o := level[i].nodes, Offset(level, i);
    forall x, y | 0 <= x < y < |n| ensures n[x].key < n[y].key {
      FlatAt(level, i, x);
      FlatAt(level, i, y);
    }
  }

  // ----- The tree

  lemma TopCovers(t: Tree, root: nat, key: nat)
    requires Wf(t, root)
    ensures Covers(t, |t| - 1, 0, key)
  {
  }

  /** Entry c of a level is node j of its container r. */
  lemma {:induction false} Locate(level: Level, c: nat) returns (r: nat, j: nat)
    requires c < |Flat(level)|
    ensures r < |level| && j < |level[r].nodes| && Child(level, r, j) == c
  {
    if c < |level[0].nodes| {
      r, j := 0, c;
      assert level[..0] == [];
    } else {
      r, j := Locate(level[1..], c - |level[0].nodes|);
      assert level[1..][..r] == level[..r + 1][1..];
      r := r + 1;
    }
  }

  class ExtentTree {
    const root: nat
    const caps: Caps
    var blocks: map<nat, Container>
    ghost var tree: Tree

    /** The containers form a search tree; the one in block `hole` may lack a node. */
    ghost predicate Valid(hole: int)
      reads this
    {
      caps.Valid() && Wf(tree, root) && Rep(blocks, tree) && Filled(tree, caps, hole)
    }

    /** All entries of the tree in key order. */
    ghost function Entries(): seq<Entry>
      requires |tree| > 0
      reads this
    {
      Flat(tree[0])
    }

    constructor (root: nat, caps: Caps)
      requires caps.Valid() && root > 0
      ensures Valid(-1) && this.root == root && this.caps == caps && Entries() == []
    {
      this.root, this.caps := root, caps;
      blocks := map[root := Container(true, [])];
      tree := [[Row(root, [])]];
      new;
      assert [Row(root, [])][1..] == [];
      assert Flat(tree[0]) == [];
      assert At(tree, 0, 0, root);
      assert LevelOk(tree, 0);
    }

    /** Finds a container that is not in use (`allocadminspace`). */
    method AllocAdminSpace() returns (b: nat)
      ensures b !in blocks && b > 0
    {
      b := FreshBlock(blocks.Keys);
    }

    /** Finds the node with `key`, or one next to where it would be, in the tree below the
        container in block `start` (`findbnode`).  `i` is the leaf it is in. */
    method FindBNode(start: nat, key: nat, ghost k: nat, ghost i: nat)
      returns (block: nat, n: nat, found: bool, ghost leaf: nat)
      requires Wf(tree, root) && Rep(blocks, tree) && At(tree, k, i, start)
      ensures leaf == Down(tree, k, i, key) && At(tree, 0, leaf, block) && block in blocks
      ensures found <==> tree[0][leaf].nodes != []
      ensures found ==> n == SearchIndex(tree[0][leaf].nodes, key)
    {
      hide LevelOk, Distinct, Rep, SearchIndex;
      block, n, found := start, 0, false;
      ghost var m: nat := k;
      leaf := i;
      while true
        invariant At(tree, m, leaf, block)
        invariant Down(tree, k, i, key) == Down(tree, m, leaf, key)
        decreases m
      {
        RepAt(blocks, tree, m, leaf);
        var btc := blocks[block];
        if |btc.nodes| == 0 {
          assert m == 0 by { if m > 0 { NonEmptyRow(tree, root, m, leaf); } }
          return;
        }
        n := SearchForBNode(key, btc.nodes);
        if btc.isleaf {
          found := true;
          return;
        }
        ChildIsBelow(tree, root, m, leaf, n);
        block := btc.nodes[n].data;
        leaf := Child(tree[m], leaf, n);
        m := m - 1;
      }
    }

    /** Finds the container whose nodes name the container in `block`, if there is one
        (`getparentbtreecontainer`). */
    method GetParent(block: nat, ghost k: nat, ghost i: nat)
      returns (found: bool, parent: nat, ghost r: nat, ghost j: nat)
      requires Wf(tree, root) && Rep(blocks, tree) && At(tree, k, i, block)
      requires (block != root ==> tree[k][i].nodes != [])
      ensures found <==> block != root
      ensures found ==> k + 1 < |tree| && At(tree, k + 1, r, parent) && parent in blocks
                        && j < |tree[k + 1][r].nodes| && Child(tree[k + 1], r, j) == i
      ensures !found ==> k == |tree| - 1 && i == 0
    {
      hide LevelOk, Rep, SearchIndex, Flat, Covers, Distinct;
      RepAt(blocks, tree, k, i);
      DistinctAt(tree, k, i, |tree| - 1, 0);
      found, parent, r, j := false, root, 0, 0;
      if root != block {
        var childkey := blocks[block].nodes[0].key;
        ghost var m: nat := |tree| - 1;
        TopCovers(tree, root, childkey);
        NotTop(tree, root, k, i);
        while true
          invariant k < m && At(tree, m, r, parent) && Covers(tree, m, r, childkey)
          decreases m
        {
          RepAt(blocks, tree, m, r);
          var btc := blocks[parent];
          var n := |btc.nodes|;
          while n > 0 && btc.nodes[n - 1].data != block
            invariant 0 <= n <= |btc.nodes|
            invariant forall q :: n <= q < |btc.nodes| ==> btc.nodes[q].data != block
          {
            n := n - 1;
          }
          if n > 0 {
            ParentFound(tree, root, k, i, m, r, n - 1);
            found, j := true, n - 1;
            return;
          }
          ParentAbove(tree, root, k, i, m, r, childkey);
          Descend(tree, root, m, r, childkey);
          n := SearchForBNode(childkey, btc.nodes);
          ChildIsBelow(tree, root, m, r, n);
          parent, r := btc.nodes[n].data, Child(tree[m], r, n);
          m := m - 1;
        }
      }
    }

    /** Puts a new root above a full one, whose contents move to another block: the first half of
        `splitbtreecontainer` for the root. */
    method GrowRoot() returns (b: nat)
      requires Valid(-1) && |tree| > 0 && |tree[|tree| - 1]| == 1 && |tree[|tree| - 1][0].nodes| == caps.Of(|tree| - 1)
      modifies `blocks, `tree
      ensures Valid(root) && tree == Grown(old(tree), root, b) && Flat(tree[0]) == old(Flat(tree[0]))
      ensures blocks.Keys == old(blocks.Keys) + {b}
    {
      hide Wf, Rep, Filled, Flat;
      WfTop(tree, root);
      b := AllocAdminSpace();
      GrowAll(blocks, tree, root, caps, b);
      blocks := blocks[b := blocks[root]];
      var top, _ := InsertBNode([], Entry(0, b), 0);
      assert top == [Entry(0, b)];
      blocks := blocks[root := Container(false, top)];
      tree := Grown(tree, root, b);
    }

    /** Cuts the full container in `block` in two below a parent that has room: the last part of
        `splitbtreecontainer`. */
    method CutContainer(block: nat, parent: nat, ghost hole: int, ghost k: nat, ghost i: nat, ghost r: nat,
                        ghost j: nat)
      returns (ghost x: Row, ghost y: Row)
      requires Valid(hole) && At(tree, k, i, block) && |tree[k][i].nodes| == caps.Of(k)
      requires k + 1 < |tree| && At(tree, k + 1, r, parent) && j < |tree[k + 1][r].nodes|
      requires Child(tree[k + 1], r, j) == i
      requires |tree[k + 1][r].nodes| < caps.internal && (hole == -1 || hole == parent)
      modifies `blocks, `tree
      ensures Valid(-1) && |tree| == old(|tree|) && Flat(tree[0]) == old(Flat(tree[0]))
      ensures old(blocks.Keys) <= blocks.Keys
      ensures forall m :: 0 <= m < k ==> tree[m] == old(tree[m])
      ensures tree[k] == Replaced(old(tree[k]), i, i + 1, [x, y])
      ensures x.nodes + y.nodes == old(tree[k][i].nodes) && |x.nodes| < caps.Of(k) && |y.nodes| < caps.Of(k)
      ensures |x.nodes| == caps.Of(k) / 2 && x.block in old(blocks) && y.block !in old(blocks)
    {
      hide Wf, Rep, Filled, Flat, SearchIndex, Down, Replaced;
      var b := AllocAdminSpace();
      RepAt(blocks, tree, k, i);
      var btc := blocks[block];
      var branches := if btc.isleaf then caps.leaf else caps.internal;
      var left, right := btc.nodes[..branches / 2], btc.nodes[branches / 2..];
      SplitAll(blocks, tree, root, caps, hole, k, i, left, right, b, r, j);
      blocks := blocks[b := Container(btc.isleaf, right)];
      blocks := blocks[block := Container(btc.isleaf, left)];
      var btcparent, _ := InsertBNode(blocks[parent].nodes, Entry(right[0].key, b), j + 1);
      blocks := blocks[parent := Container(false, btcparent)];
      x, y := Row(block, left), Row(b, right);
      tree := Split(tree, k, i, left, right, b, r, j);
    }

    /** Cuts the full container in `block` in two and names the new one in its parent, which is
        cut first if it is full itself; a root that is cut gets a new root above it
        (`splitbtreecontainer`). */
    method SplitBTreeContainer(block: nat, ghost k: nat, ghost i: nat) returns (ghost x: Row, ghost y: Row)
      requires Valid(-1) && At(tree, k, i, block) && |tree[k][i].nodes| == caps.Of(k)
      modifies `blocks, `tree
      ensures Valid(-1) && |tree| >= old(|tree|) && Flat(tree[0]) == old(Flat(tree[0]))
      ensures old(blocks.Keys) <= blocks.Keys
      ensures forall m :: 0 <= m < k ==> tree[m] == old(tree[m])
      ensures tree[k] == Replaced(old(tree[k]), i, i + 1, [x, y])
      ensures x.nodes + y.nodes == old(tree[k][i].nodes) && |x.nodes| < caps.Of(k) && |y.nodes| < caps.Of(k)
      ensures |x.nodes| == caps.Of(k) / 2
      decreases |tree| - k
    {
      hide Wf, Rep, Filled, Flat, SearchIndex, Down, Replaced;
      WfTop(tree, root);
      var found, parent;
      ghost var r: nat, j: nat;
      found, parent, r, j := GetParent(block, k, i);
      if !found {
        ghost var row := tree[k];
        var cb := GrowRoot();
        GrownTop(row, cb);
        x, y := CutContainer(cb, root, root, k, 0, 0, 0);
        ReplacedOne(row[0], Row(cb, row[0].nodes), x, y);
      } else {
        RepAt(blocks, tree, k + 1, r);
        FilledAt(tree, caps, -1, k + 1, r);
        if |blocks[parent].nodes| == caps.internal {
          ghost var before, rowAt, childAt := tree[k + 1], r, j;
          ghost var x', y' := SplitBTreeContainer(parent, k + 1, r);
          found, parent, r, j := GetParent(block, k, i);
          ChildAfterCut(before, tree[k + 1], rowAt, childAt, x', y', r, j);
        }
        x, y := CutContainer(block, parent, -1, k, i, r, j);
      }
    }

    /** Adds a node with `key` (`createbnode`).  `data` stands for whatever the slot held before;
        the caller fills it in. */
    method CreateBNode(key: nat, data: nat) returns (block: nat, n: nat, ghost c: nat)
      requires Valid(-1) && key > 0
      requires forall x :: 0 <= x < |Entries()| ==> Entries()[x].key != key
      modifies `blocks, `tree
      ensures Valid(-1)
      ensures c <= |old(Entries())|
      ensures Entries() == old(Entries())[..c] + [Entry(key, data)] + old(Entries())[c..]
      ensures block in blocks && n < |blocks[block].nodes| && blocks[block].nodes[n] == Entry(key, data)
      ensures old(blocks.Keys) <= blocks.Keys
    {
      hide Wf, Rep, Filled, Flat, SearchIndex, Down, Full, Covers;
      WfTop(tree, root);
      while true
        invariant Valid(-1) && |tree| > 0 && Entries() == old(Entries()) && old(blocks.Keys) <= blocks.Keys
        decreases Full(tree[0], caps.leaf)
      {
        WfTop(tree, root);
        var found;
        ghost var leaf;
        block, n, found, leaf := FindBNode(root, key, |tree| - 1, 0);
        TopCovers(tree, root, key);
        DownCovers(tree, root, |tree| - 1, 0, key);
        RepAt(blocks, tree, 0, leaf);
        if |blocks[block].nodes| < caps.leaf {
          ghost var j := LeafInserts(tree, root, leaf, key);
          var e := Entry(key, data);
          LeafInsertAll(blocks, tree, root, caps, leaf, j, e);
          var nodes;
          nodes, n := InsertBNode(blocks[block].nodes, e, j);
          c := Child(tree[0], leaf, j);
          tree := LeafSet(tree, leaf, nodes);
          blocks := blocks[block := Container(true, nodes)];
          return;
        }
        FilledAt(tree, caps, -1, 0, leaf);
        ghost var before := tree[0];
        ghost var x, y := SplitBTreeContainer(block, 0, leaf);
        FullAfterCut(before, leaf, x, y, caps.leaf);
      }
    }

    /** Removes the node with `key` (`deletebnode`). */
    method DeleteBNode(key: nat, ghost x: nat) returns (ghost leaf: nat)
      requires Valid(-1) && x < |Entries()| && Entries()[x].key == key
      modifies `blocks, `tree
      ensures Valid(-1)
      ensures Entries() == old(Entries())[..x] + old(Entries())[x + 1..]
      ensures blocks.Keys <= old(blocks.Keys)
      ensures IsNode(old(tree), leaf, x) && Refilled(old(tree), caps, root, 0, leaf, tree)
      ensures Settles(LeafWithout(old(tree), leaf, x), caps, root, 0, leaf, tree)
    {
      hide Wf, Rep, Filled, Flat, SearchIndex, Down, Covers, Refilled, Settles, LowerKept, IsNode, LeafWithout;
      WfTop(tree, root);
      ghost var before: Tree := tree;
      var block, n, found;
      block, n, found, leaf := FindBNode(root, key, |tree| - 1, 0);
      TopCovers(tree, root, key);
      DownCovers(tree, root, |tree| - 1, 0, key);
      RepAt(blocks, tree, 0, leaf);
      LeafRemoveAll(blocks, tree, root, caps, leaf, key, x);
      tree := LeafSet(tree, leaf, Without(tree[0][leaf].nodes, key));
      DeleteInternalNode(block, key, 0, leaf);
      RefilledLeaf(before, caps, root, leaf, Without(before[0][leaf].nodes, key), tree);
    }

    /** Removes the node with `key` from the container in `block`; a container that gets too few
        nodes is merged with a neighbour or takes nodes from it, and a root left with one child
        gives way to it (`deleteinternalnode`).  `tree` is already the tree without the node. */
    method DeleteInternalNode(block: nat, key: nat, ghost k: nat, ghost i: nat)
      requires caps.Valid() && Wf(tree, root) && At(tree, k, i, block) && Filled(tree, caps, block)
      requires block in blocks && blocks[block].isleaf == (k == 0)
      requires Without(blocks[block].nodes, key) == tree[k][i].nodes
      requires Rep(blocks[block := Stored(tree, k, i)], tree)
      modifies `blocks, `tree
      ensures Valid(-1) && |tree| > 0 && Flat(tree[0]) == old(Flat(tree[0])) && blocks.Keys <= old(blocks.Keys)
      ensures Refilled(old(tree), caps, root, k, i, tree) && Settles(old(tree), caps, root, k, i, tree)
      ensures LowerKept(old(tree), root, k, tree)
      decreases |tree| - k, 1
    {
      hide Wf, Rep, Filled, Flat, SearchIndex, Covers, Replaced, Merged, Recut, Collapsed;
      hide Refilled, PairSettled, LowerKept, Settles, Child;
      ghost var before: Tree := tree;
      var btc := blocks[block];
      var branches := if btc.isleaf then caps.leaf else caps.internal;
      var nodes := RemoveBNode(btc.nodes, key);
      blocks := blocks[block := Container(btc.isleaf, nodes)];
      WfTop(tree, root);
      FilledAt(tree, caps, block, k, i);
      if |nodes| < (branches + 1) / 2 {
        assert block != root ==> nodes != [] by { if block != root { NotTop(tree, root, k, i); } }
        var found, parent;
        ghost var r: nat, j: nat;
        found, parent, r, j := GetParent(block, k, i);
        if found {
          RepAt(blocks, tree, k + 1, r);
          var btcparent := blocks[parent].nodes;
          var n: nat := 0;
          while n < |btcparent| && btcparent[n].data != block
            invariant n <= j
            modifies {}
          {
            NamedOnce(tree, root, k, i, r, n);
            n := n + 1;
          }
          NamedOnce(tree, root, k, i, r, j);
          NamedOnce(tree, root, k, i, r, n);
          TwoNodes(tree, root, caps, block, k, i, r, j);
          if n < |btcparent| - 1 {
            UseNext(block, parent, n, k, i, r);
            SettlesWith(before, caps, root, k, i, r, n, i, tree);
          } else if n > 0 {
            UsePrevious(block, parent, n, k, i, r);
            SettlesWith(before, caps, root, k, i, r, n, i - 1, tree);
          }
        } else if |nodes| == 1 && !btc.isleaf {
          CollapseAll(blocks, tree, root, caps);
          RefilledCollapsed(tree, caps, root);
          SettlesTop(tree, caps, root);
          var child := nodes[0].data;
          blocks := blocks[block := blocks[child]];
          blocks := blocks - {child};
          tree := Collapsed(tree, root);
        } else {
          FilledHoleless(tree, caps, k, i);
          RefilledNone(tree, caps, root, k, i);
          SettlesNot(tree, caps, root, k, i);
        }
      } else {
        FilledHoleless(tree, caps, k, i);
        RefilledNone(tree, caps, root, k, i);
        SettlesNot(tree, caps, root, k, i);
      }
    }

    /** A container with too few nodes, node n of its parent, takes nodes from the container
        behind it or swallows it. */
    method UseNext(block: nat, parent: nat, n: nat, ghost k: nat, ghost i: nat, ghost r: nat)
      requires Valid(block) && At(tree, k, i, block) && |tree[k][i].nodes| < (caps.Of(k) + 1) / 2
      requires k + 1 < |tree| && At(tree, k + 1, r, parent) && n + 1 < |tree[k + 1][r].nodes|
      requires Child(tree[k + 1], r, n) == i
      modifies `blocks, `tree
      ensures Valid(-1) && |tree| > 0 && Flat(tree[0]) == old(Flat(tree[0])) && blocks.Keys <= old(blocks.Keys)
      ensures Refilled(old(tree), caps, root, k, i, tree) && LowerKept(old(tree), root, k, tree)
      ensures i + 1 < old(|tree[k]|) && PairSettled(old(tree), caps, root, k, i, tree)
      decreases |tree| - k, 0
    {
      hide Wf, Rep, Filled, Flat, SearchIndex, Covers, Replaced, Merged, Recut, Without;
      hide Refilled, PairSettled, LowerKept, Settles;
      ghost var before: Tree := tree;
      WfTop(tree, root);
      RepAt(blocks, tree, k, i);
      RepAt(blocks, tree, k + 1, r);
      ChildIsBelow(tree, root, k + 1, r, n + 1);
      RepAt(blocks, tree, k, i + 1);
      var isleaf, nodes, btcparent := blocks[block].isleaf, blocks[block].nodes, blocks[parent].nodes;
      var branches := if isleaf then caps.leaf else caps.internal;
      var next := btcparent[n + 1].data;
      var nextNodes := blocks[next].nodes;
      FilledAt(tree, caps, block, k, i + 1);
      FilledAt(tree, caps, block, k, i);
      if |nextNodes| + |nodes| > branches {
        var steal := (|nextNodes| + |nodes|) / 2 - |nodes|;
        var a, b := nodes + nextNodes[..steal], nextNodes[steal..];
        RecutAll(blocks, tree, root, caps, block, k, i, a, b, r, n + 1);
        RefilledRecut(tree, caps, root, k, i, i, a, b, r, n + 1);
        blocks := blocks[block := Container(isleaf, a)];
        blocks := blocks[next := Container(isleaf, b)];
        blocks := blocks[parent := Container(false, btcparent[n + 1 := Entry(b[0].key, btcparent[n + 1].data)])];
        tree := Recut(tree, k, i, a, b, r, n + 1);
      } else {
        MergeAll(blocks, tree, root, caps, block, k, i, r, n + 1);
        blocks := blocks[block := Container(isleaf, nodes + nextNodes)];
        blocks := blocks - {next};
        tree := Merged(tree, k, i, r, n + 1);
        DeleteInternalNode(parent, btcparent[n + 1].key, k + 1, r);
        RefilledMerged(before, caps, root, k, i, i, r, n + 1, tree);
      }
    }

    /** A container with too few nodes, the last node n of its parent, takes nodes from the
        container in front of it or is swallowed by it. */
    method UsePrevious(block: nat, parent: nat, n: nat, ghost k: nat, ghost i: nat, ghost r: nat)
      requires Valid(block) && At(tree, k, i, block) && |tree[k][i].nodes| < (caps.Of(k) + 1) / 2
      requires k + 1 < |tree| && At(tree, k + 1, r, parent) && 0 < n < |tree[k + 1][r].nodes|
      requires Child(tree[k + 1], r, n) == i
      modifies `blocks, `tree
      ensures Valid(-1) && |tree| > 0 && Flat(tree[0]) == old(Flat(tree[0])) && blocks.Keys <= old(blocks.Keys)
      ensures Refilled(old(tree), caps, root, k, i, tree) && LowerKept(old(tree), root, k, tree)
      ensures i > 0 && PairSettled(old(tree), caps, root, k, i - 1, tree)
      decreases |tree| - k, 0
    {
      hide Wf, Rep, Filled, Flat, SearchIndex, Covers, Replaced, Merged, Recut, Without;
      hide Refilled, PairSettled, LowerKept, Settles;
      ghost var before: Tree := tree;
      WfTop(tree, root);
      RepAt(blocks, tree, k, i);
      RepAt(blocks, tree, k + 1, r);
      ChildIsBelow(tree, root, k + 1, r, n - 1);
      RepAt(blocks, tree, k, i - 1);
      var isleaf, nodes, btcparent := blocks[block].isleaf, blocks[block].nodes, blocks[parent].nodes;
      var branches := if isleaf then caps.leaf else caps.internal;
      var prev := btcparent[n - 1].data;
      var prevNodes := blocks[prev].nodes;
      FilledAt(tree, caps, block, k, i - 1);
      FilledAt(tree, caps, block, k, i);
      if |prevNodes| + |nodes| > branches {
        var steal := (|prevNodes| + |nodes|) / 2 - |nodes|;
        var a, b := prevNodes[..|prevNodes| - steal], prevNodes[|prevNodes| - steal..] + nodes;
        RecutAll(blocks, tree, root, caps, block, k, i - 1, a, b, r, n);
        RefilledRecut(tree, caps, root, k, i, i - 1, a, b, r, n);
        ghost var both := blocks[prev := Container(isleaf, a)][block := Container(isleaf, b)];
        blocks := blocks[block := Container(isleaf, b)];
        blocks := blocks[prev := Container(isleaf, a)];
        assert blocks == both;
        blocks := blocks[parent := Container(false, btcparent[n := Entry(b[0].key, btcparent[n].data)])];
        tree := Recut(tree, k, i - 1, a, b, r, n);
      } else {
        MergeAll(blocks, tree, root, caps, block, k, i - 1, r, n);
        blocks := blocks[prev := Container(isleaf, prevNodes + nodes)];
        blocks := blocks - {block};
        tree := Merged(tree, k, i - 1, r, n);
        DeleteInternalNode(parent, btcparent[n].key, k + 1, r);
        RefilledMerged(before, caps, root, k, i, i - 1, r, n, tree);
      }
    }
  }

  /** Entry x of the tree is a node of leaf i. */
  ghost predicate IsNode(t: Tree, i: nat, x: nat) {
    |t| > 0 && i < |t[0]| && Offset(t[0], i) <= x < Offset(t[0], i) + |t[0][i].nodes|
  }

  /** The tree when leaf i has lost this node. */
  ghost function LeafWithout(t: Tree, i: nat, x: nat): Tree
    requires IsNode(t, i, x)
  {
    var n, j := t[0][i].nodes, x - Offset(t[0], i);
    LeafSet(t, i, n[..j] + n[j + 1..])
  }

  /** A leaf that holds something of the one that lost a node is the root or has at least half of what fits,
      rounded up. */
  lemma LeftoversFilled(t: Tree, c: Caps, root: nat, i: nat, t': Tree, q: nat, e: Entry)
    requires Wf(t, root) && i < |t[0]| && Refilled(t, c, root, 0, i, t')
    requires |t'| > 0 && q < |t'[0]| && e in t'[0][q].nodes && e in t[0][i].nodes
    ensures t'[0][q].block == root || |t'[0][q].nodes| >= (c.leaf + 1) / 2
  {
    hide Distinct, Flat;
    var row := t'[0][q];
    assert RowRefilled(t, c, root, 0, i, 0, row);
    if o: nat :| o != i && SameRow(t, 0, o, row) {
      assert t[0][o].nodes == row.nodes;
      assert Sorted(Flat(t[0])) by { assert LevelOk(t, 0); }
      InOneRow(t[0], o, i, e);
    }
  }

  lemma InOneRow(level: Level, o: nat, i: nat, e: Entry)
    requires Sorted(Flat(level)) && o < |level| && i < |level| && e in level[o].nodes
    ensures o != i ==> e !in level[i].nodes
  {
    hide Flat, Offset;
    var a :| 0 <= a < |level[o].nodes| && level[o].nodes[a] == e;
    FlatAt(level, o, a);
    if o != i {
      RowsApart(level, o, i);
    }
    forall b | 0 <= b < |level[i].nodes| && o != i ensures level[i].nodes[b] != e {
      FlatAt(level, i, b);
    }
  }

  lemma RowsApart(level: Level, o: nat, i: nat)
    requires o < |level| && i < |level| && o != i
    ensures Offset(level, o) + |level[o].nodes| <= Offset(level, i)
         || Offset(level, i) + |level[i].nodes| <= Offset(level, o)
  {
    hide Flat, Offset;
    FlatAround(level, o);
    FlatAround(level, i);
    if o < i {
      OffsetMonotone(level, o + 1, i);
    } else {
      OffsetMonotone(level, i + 1, o);
    }
  }

  method FreshBlock(used: set<nat>) returns (b: nat)
    ensures b !in used && b > 0
  {
    b := 1;
    var left := used;
    while b in used
      invariant b > 0 && left <= used && forall c :: c in used && c >= b ==> c in left
      decreases left
    {
      left := left - {b};
      b := b + 1;
    }
  }

  lemma NotTop(t: Tree, root: nat, k: nat, i: nat)
    requires Wf(t, root) && k < |t| && i < |t[k]| && t[k][i].block != root
    ensures k < |t| - 1
  {
    hide LevelOk, Distinct;
  }

  /** A node that names the container is its parent's. */
  lemma ParentFound(t: Tree, root: nat, k: nat, i: nat, m: nat, r: nat, n: nat)
    requires Wf(t, root) && k < m < |t| && i < |t[k]| && r < |t[m]| && n < |t[m][r].nodes|
    requires t[m][r].nodes[n].data == t[k][i].block
    ensures m == k + 1 && Child(t[m], r, n) == i
  {
    hide LevelOk, Distinct, Flat;
    ChildIsBelow(t, root, m, r, n);
    DistinctAt(t, k, i, m - 1, Child(t[m], r, n));
  }

  /** Only containers further up fail to name it. */
  lemma ParentAbove(t: Tree, root: nat, k: nat, i: nat, m: nat, r: nat, childkey: nat)
    requires Wf(t, root) && k < m < |t| && i < |t[k]| && t[k][i].nodes != [] && childkey == t[k][i].nodes[0].key
    requires Covers(t, m, r, childkey) && r < |t[m]|
    requires forall q :: 0 <= q < |t[m][r].nodes| ==> t[m][r].nodes[q].data != t[k][i].block
    ensures k + 1 < m
  {
    hide Distinct, Flat;
    if m == k + 1 {
      Descend(t, root, m, r, childkey);
      var n := SearchIndex(t[m][r].nodes, childkey);
      ChildIsBelow(t, root, m, r, n);
      CoversOne(t, root, k, i, Child(t[m], r, n), childkey);
    }
  }

  /** The first key of a container belongs into no other. */
  lemma CoversOne(t: Tree, root: nat, k: nat, i: nat, c: nat, key: nat)
    requires Wf(t, root) && k + 1 < |t| && i < |t[k]| && t[k][i].nodes != [] && key == t[k][i].nodes[0].key
    requires Covers(t, k, c, key)
    ensures c == i
  {
    hide Distinct, Flat;
    assert LevelOk(t, k) && LevelOk(t, k + 1);
    var u := Flat(t[k + 1]);
    assert LinkedAt(u, t[k], i, k == 0);
    if i + 1 < |u| {
      assert LinkedAt(u, t[k], i + 1, k == 0);
      FirstBelowLast(t[k], i);
    }
  }

  lemma FirstBelowLast(level: Level, i: nat)
    requires Sorted(Flat(level)) && i < |level| && level[i].nodes != []
    ensures level[i].nodes[0].key <= level[i].nodes[|level[i].nodes| - 1].key
  {
    hide Flat;
    RowSorted(level, i);
  }

  // ----- All that an edit keeps

  lemma GrowAll(blocks: map<nat, Container>, t: Tree, root: nat, c: Caps, b: nat)
    requires c.Valid() && Wf(t, root) && Rep(blocks, t) && Filled(t, c, -1) && b !in blocks && b > 0
    requires |t[|t| - 1][0].nodes| == c.Of(|t| - 1)
    ensures root in blocks
    ensures var t' := Grown(t, root, b);
      && Wf(t', root) && Rep(blocks[b := blocks[root]][root := Container(false, [Entry(0, b)])], t')
          && Filled(t', c, root)
      && Flat(t'[0]) == Flat(t[0])
  {
    hide Wf, Rep, Filled, Flat, Grown;
    assert |t| > 0 && |t[|t| - 1]| == 1 && t[|t| - 1][0].block == root by { WfTop(t, root); }
    RepAt(blocks, t, |t| - 1, 0);
    RepFresh(blocks, t, b);
    GrownWf(t, root, b);
    RepGrown(blocks, t, root, b);
    GrownFilled(t, root, c, b);
  }

  lemma GrownTop(level: Level, b: nat)
    requires |level| == 1
    ensures forall root: nat :: Child([Row(root, [Entry(0, b)])], 0, 0) == 0
  {
    forall root: nat ensures Child([Row(root, [Entry(0, b)])], 0, 0) == 0 {
      assert [Row(root, [Entry(0, b)])][..0] == [];
      FlatNothing();
    }
  }

  lemma ReplacedOne(a: Row, b: Row, x: Row, y: Row)
    ensures Replaced([a], 0, 1, [x, y]) == Replaced([b], 0, 1, [x, y])
  {
  }

  lemma WfTop(t: Tree, root: nat)
    requires Wf(t, root)
    ensures |t| > 0 && |t[|t| - 1]| == 1 && t[|t| - 1][0].block == root && Distinct(t)
  {
  }

  lemma SplitAll(blocks: map<nat, Container>, t: Tree, root: nat, c: Caps, hole: int, k: nat, p: nat,
                 a: seq<Entry>, b: seq<Entry>, fresh_: nat, r: nat, j: nat)
    requires c.Valid() && Wf(t, root) && Rep(blocks, t) && Filled(t, c, hole) && fresh_ !in blocks && fresh_ > 0
    requires k + 1 < |t| && p < |t[k]| && r < |t[k + 1]| && j < |t[k + 1][r].nodes|
    requires Child(t[k + 1], r, j) == p && a + b == t[k][p].nodes
    requires |a| == c.Of(k) / 2 && |b| == c.Of(k) - c.Of(k) / 2 && |t[k + 1][r].nodes| < c.internal
    requires hole == -1 || hole == t[k + 1][r].block
    ensures InsertsAt(t[k + 1][r].nodes, b[0].key, j + 1)
    ensures t[k + 1][r].block in blocks && t[k + 1][r].block != t[k][p].block && t[k + 1][r].block != fresh_
    ensures blocks[t[k + 1][r].block].nodes == t[k + 1][r].nodes
    ensures var t', n := Split(t, k, p, a, b, fresh_, r, j), t[k + 1][r].nodes;
      && Wf(t', root) && Filled(t', c, -1) && Flat(t'[0]) == Flat(t[0])
      && Rep(blocks[fresh_ := Container(k == 0, b)][t[k][p].block := Container(k == 0, a)]
               [t[k + 1][r].block := Container(false, n[..j + 1] + [Entry(b[0].key, fresh_)] + n[j + 1..])], t')
  {
    hide Wf, Rep, Filled, Flat, Replaced, Distinct;
    WfTop(t, root);
    RepAt(blocks, t, k + 1, r);
    DistinctAt(t, k, p, k + 1, r);
    RepFresh(blocks, t, fresh_);
    SplitInserts(t, root, k, p, a, b, r, j);
    SplitWf(t, root, k, p, a, b, fresh_, r, j);
    SplitFilled(t, c, hole, k, p, a, b, fresh_, r, j);
    RepSplit(blocks, t, k, p, a, b, fresh_, r, j);
  }

  lemma LeafInsertAll(blocks: map<nat, Container>, t: Tree, root: nat, c: Caps, i: nat, j: nat, e: Entry)
    requires c.Valid() && Wf(t, root) && Rep(blocks, t) && Filled(t, c, -1) && |t| > 0 && i < |t[0]|
    requires Covers(t, 0, i, e.key) && InsertsAt(t[0][i].nodes, e.key, j) && e.key > 0 && |t[0][i].nodes| < c.leaf
    ensures var n := t[0][i].nodes;
      var n' := n[..j] + [e] + n[j..];
      var t' := LeafSet(t, i, n');
      && Wf(t', root) && Filled(t', c, -1) && Rep(blocks[t[0][i].block := Container(true, n')], t')
      && Child(t[0], i, j) <= |Flat(t[0])|
      && Flat(t'[0]) == Flat(t[0])[..Child(t[0], i, j)] + [e] + Flat(t[0])[Child(t[0], i, j)..]
      && n'[j] == e
  {
    hide Wf, Rep, Filled, Flat, Covers, LeafSet;
    WfTop(t, root);
    var n := t[0][i].nodes;
    LeafInsertWf(t, root, i, j, e);
    LeafSetFilled(t, c, i, n[..j] + [e] + n[j..]);
    RepLeafSet(blocks, t, i, n[..j] + [e] + n[j..]);
  }

  lemma LeafRemoveAll(blocks: map<nat, Container>, t: Tree, root: nat, c: Caps, i: nat, key: nat, x: nat)
    requires c.Valid() && Wf(t, root) && Rep(blocks, t) && Filled(t, c, -1) && |t| > 0 && i < |t[0]|
    requires Covers(t, 0, i, key) && x < |Flat(t[0])| && Flat(t[0])[x].key == key
    ensures var t' := LeafSet(t, i, Without(t[0][i].nodes, key));
      && Wf(t', root) && Filled(t', c, t[0][i].block)
      && t[0][i].block in blocks && blocks[t[0][i].block] == Container(true, t[0][i].nodes)
      && Rep(blocks[t[0][i].block := Stored(t', 0, i)], t')
      && Flat(t'[0]) == Flat(t[0])[..x] + Flat(t[0])[x + 1..]
      && IsNode(t, i, x) && t' == LeafWithout(t, i, x)
  {
    hide Rep, Filled, Flat, Covers, LevelOk;
    WfTop(t, root);
    RepAt(blocks, t, 0, i);
    OnlyThere(t, root, i, key, x);
    var n := t[0][i].nodes;
    var j := x - Offset(t[0], i);
    assert Sorted(n) by { assert LevelOk(t, 0); LevelSorted(t, 0); RowSorted(t[0], i); }
    WithoutAt(n, j);
    FilledAt(t, c, -1, 0, i);
    LeafRemoveWf(t, root, i, j);
    LeafSetFilled(t, c, i, Without(n, key));
    RepLeafSet(blocks, t, i, Without(n, key));
  }

  lemma LevelSorted(t: Tree, k: nat)
    requires k < |t| && LevelOk(t, k)
    ensures Sorted(Flat(t[k]))
  {
  }

  /** Node n of the parent names the container just if it is the right one. */
  lemma NamedOnce(t: Tree, root: nat, k: nat, i: nat, r: nat, n: nat)
    requires Wf(t, root) && k + 1 < |t| && i < |t[k]| && r < |t[k + 1]| && n < |t[k + 1][r].nodes|
    ensures t[k + 1][r].nodes[n].data == t[k][i].block <==> Child(t[k + 1], r, n) == i
  {
    hide LevelOk, Distinct, Flat;
    ChildIsBelow(t, root, k + 1, r, n);
    DistinctAt(t, k, i, k, Child(t[k + 1], r, n));
  }

  /** A parent has at least two nodes. */
  lemma TwoNodes(t: Tree, root: nat, c: Caps, block: nat, k: nat, i: nat, r: nat, j: nat)
    requires c.Valid() && Wf(t, root) && Filled(t, c, block) && At(t, k, i, block)
    requires k + 1 < |t| && r < |t[k + 1]| && j < |t[k + 1][r].nodes|
    ensures |t[k + 1][r].nodes| >= 2
  {
    hide LevelOk, Distinct, Flat;
    FilledAt(t, c, block, k + 1, r);
    DistinctAt(t, k, i, k + 1, r);
  }

  lemma RecutAll(blocks: map<nat, Container>, t: Tree, root: nat, c: Caps, hole: nat, k: nat, p: nat,
                 a: seq<Entry>, b: seq<Entry>, r: nat, j: nat)
    requires c.Valid() && Wf(t, root) && Rep(blocks, t) && Filled(t, c, hole)
    requires k + 1 < |t| && p + 1 < |t[k]| && r < |t[k + 1]| && 0 < j < |t[k + 1][r].nodes|
    requires Child(t[k + 1], r, j) == p + 1 && (hole == t[k][p].block || hole == t[k][p + 1].block)
    requires a + b == t[k][p].nodes + t[k][p + 1].nodes
    requires c.Of(k) / 2 <= |a| <= c.Of(k) && c.Of(k) / 2 <= |b| <= c.Of(k)
    ensures b != [] && t[k][p].block != t[k][p + 1].block
    ensures var t', n := Recut(t, k, p, a, b, r, j), t[k + 1][r].nodes;
      && Wf(t', root) && Filled(t', c, -1) && |t'| > 0 && Flat(t'[0]) == Flat(t[0])
      && Rep(blocks[t[k][p].block := Container(k == 0, a)][t[k][p + 1].block := Container(k == 0, b)]
               [t[k + 1][r].block := Container(false, n[j := Entry(b[0].key, n[j].data)])], t')
      && t[k][p].block in blocks && t[k][p + 1].block in blocks && t[k + 1][r].block in blocks
  {
    hide Wf, Rep, Filled, Flat, Replaced, Distinct;
    WfTop(t, root);
    DistinctAt(t, k, p, k, p + 1);
    RepAt(blocks, t, k, p);
    RepAt(blocks, t, k, p + 1);
    RepAt(blocks, t, k + 1, r);
    RecutWf(t, root, k, p, a, b, r, j);
    RecutFilled(t, c, hole, k, p, a, b, r, j);
    RepRecut(blocks, t, k, p, a, b, r, j);
  }

  lemma MergeAll(blocks: map<nat, Container>, t: Tree, root: nat, c: Caps, hole: nat, k: nat, p: nat, r: nat, j: nat)
    requires c.Valid() && Wf(t, root) && Rep(blocks, t) && Filled(t, c, hole)
    requires k + 1 < |t| && p + 1 < |t[k]| && r < |t[k + 1]| && 0 < j < |t[k + 1][r].nodes|
    requires Child(t[k + 1], r, j) == p + 1 && (hole == t[k][p].block || hole == t[k][p + 1].block)
    requires |t[k][p].nodes| + |t[k][p + 1].nodes| <= c.Of(k)
    ensures var t', n, parent := Merged(t, k, p, r, j), t[k + 1][r].nodes, t[k + 1][r].block;
      var joined := Container(k == 0, t[k][p].nodes + t[k][p + 1].nodes);
      var blocks' := blocks[t[k][p].block := joined] - {t[k][p + 1].block};
      && Wf(t', root) && Filled(t', c, parent) && |t'| == |t| && Flat(t'[0]) == Flat(t[0])
      && At(t', k + 1, r, parent) && parent in blocks' && blocks'[parent] == Container(false, n)
      && Without(n, n[j].key) == t'[k + 1][r].nodes
      && Rep(blocks'[parent := Stored(t', k + 1, r)], t')
      && t[k][p].block in blocks
  {
    hide Rep, Filled, Flat, Replaced, Distinct, LevelOk, Without;
    WfTop(t, root);
    RepAt(blocks, t, k, p);
    RepAt(blocks, t, k + 1, r);
    DistinctAt(t, k, p, k + 1, r);
    DistinctAt(t, k, p + 1, k + 1, r);
    DistinctAt(t, k, p, k, p + 1);
    MergedWf(t, root, k, p, r, j);
    MergedFilled(t, c, hole, k, p, r, j);
    RepMerged(blocks, t, k, p, r, j);
    var n := t[k + 1][r].nodes;
    assert Sorted(n) by { assert LevelOk(t, k + 1); LevelSorted(t, k + 1); RowSorted(t[k + 1], r); }
    WithoutAt(n, j);
    SameMaps(blocks, t[k][p].block, t[k][p + 1].block, t[k + 1][r].block,
             Container(k == 0, t[k][p].nodes + t[k][p + 1].nodes), Container(false, n[..j] + n[j + 1..]));
  }

  lemma SameMaps(blocks: map<nat, Container>, a: nat, b: nat, parent: nat, x: Container, y: Container)
    requires a != b && parent != b
    ensures (blocks - {b})[a := x][parent := y] == (blocks[a := x] - {b})[parent := y]
  {
  }

  lemma CollapseAll(blocks: map<nat, Container>, t: Tree, root: nat, c: Caps)
    requires c.Valid() && Wf(t, root) && Rep(blocks, t) && Filled(t, c, root) && |t| > 1
    requires |t[|t| - 1][0].nodes| == 1
    ensures var child := t[|t| - 1][0].nodes[0].data;
      && child in blocks && root in blocks && child != root && |t[|t| - 2]| == 1
      && var t' := Collapsed(t, root);
      && Wf(t', root) && Filled(t', c, -1) && |t'| > 0 && Flat(t'[0]) == Flat(t[0])
      && Rep(blocks[root := blocks[child]] - {child}, t')
  {
    hide Rep, Filled, Flat, Distinct, LevelOk, Wf;
    WfTop(t, root);
    CollapsedWf(t, root);
    CollapsedFilled(t, root, c);
    RepCollapsed(blocks, t, root);
    RepAt(blocks, t, |t| - 1, 0);
    ChildIsBelow(t, root, |t| - 1, 0, 0);
    DistinctAt(t, |t| - 1, 0, |t| - 2, 0);
    var child := t[|t| - 2][0].block;
    assert blocks[root := blocks[child]] - {child} == (blocks - {child})[root := blocks[child]];
  }
}
