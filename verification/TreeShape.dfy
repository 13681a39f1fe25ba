/** The shape of the B-tree of FS/btreenodes.c, level by level.  Level 0 holds the leaf
    containers from left to right; the entries of level k + 1, read from left to right, are
    exactly the containers of level k with their separator keys. */
module TreeShape {

  /** A BNode: for a leaf `data` stands for the rest of the record, for an internal container it
      is the block of a child. */
  datatype Entry = Entry(key: nat, data: nat)

  /** A container: the block it lives in and its nodes. */
  datatype Row = Row(block: nat, nodes: seq<Entry>)

  type Level = seq<Row>

  type Tree = seq<Level>

  // ----- Entries of a level

  ghost function Flat(level: Level): (es: seq<Entry>) {
    if level == [] then [] else level[0].nodes + Flat(level[1..])
  }

  /** Number of entries in front of container i. */
  ghost function Offset(level: Level, i: nat): nat
    requires i <= |level|
  {
    |Flat(level[..i])|
  }

  lemma {:induction false} FlatConcat(a: Level, b: Level)
    ensures Flat(a + b) == Flat(a) + Flat(b)
  {
    if a == [] {
      assert a + b == b;
    } else {
      assert (a + b)[1..] == a[1..] + b;
      FlatConcat(a[1..], b);
    }
  }

  lemma FlatOne(r: Row)
    ensures Flat([r]) == r.nodes
  {
    assert [r][1..] == [];
  }

  /** A level around its container i. */
  lemma FlatAround(level: Level, i: nat)
    requires i < |level|
    ensures Flat(level) == Flat(level[..i]) + level[i].nodes + Flat(level[i + 1..])
    ensures Offset(level, i + 1) == Offset(level, i) + |level[i].nodes| <= |Flat(level)|
  {
    hide Flat;
    assert level == level[..i + 1] + level[i + 1..];
    FlatConcat(level[..i + 1], level[i + 1..]);
    assert level[..i + 1] == level[..i] + [level[i]];
    FlatConcat(level[..i], [level[i]]);
    FlatOne(level[i]);
  }

  lemma FlatAt(level: Level, i: nat, j: nat)
    requires i < |level| && j < |level[i].nodes|
    ensures Offset(level, i) + j < |Flat(level)|
    ensures Flat(level)[Offset(level, i) + j] == level[i].nodes[j]
  {
    hide Flat;
    FlatAround(level, i);
  }

  lemma OffsetEnd(level: Level)
    ensures Offset(level, |level|) == |Flat(level)|
  {
    assert level[..|level|] == level;
  }

  /** The level with the containers [i, j) replaced by `rows`. */
  function Replaced(level: Level, i: nat, j: nat, rows: Level): (l: Level)
    requires i <= j <= |level|
    ensures |l| == |level| - (j - i) + |rows|
    ensures forall p :: 0 <= p < i ==> l[p] == level[p]
    ensures forall p :: i <= p < i + |rows| ==> l[p] == rows[p - i]
    ensures forall p :: i + |rows| <= p < |l| ==> l[p] == level[p - |rows| + (j - i)]
  {
    level[..i] + rows + level[j..]
  }

  lemma FlatReplaced(level: Level, i: nat, j: nat, rows: Level)
    requires i <= j <= |level|
    ensures Flat(Replaced(level, i, j, rows)) == Flat(level[..i]) + Flat(rows) + Flat(level[j..])
    ensures Flat(level) == Flat(level[..i]) + Flat(level[i..j]) + Flat(level[j..])
  {
    hide Flat;
    FlatConcat(level[..i] + rows, level[j..]);
    FlatConcat(level[..i], rows);
    assert level == level[..i] + level[i..j] + level[j..];
    FlatConcat(level[..i] + level[i..j], level[j..]);
    FlatConcat(level[..i], level[i..j]);
  }

  // ----- Order and links

  ghost predicate Sorted(es: seq<Entry>) {
    forall i, j :: 0 <= i < j < |es| ==> es[i].key < es[j].key
  }

  /** The entries `u` of one level name the containers of the level below and separate their
      keys.  Below the leaves' parents a separator is the first key of its container. */
  ghost predicate Linked(u: seq<Entry>, lower: Level, leaf: bool) {
    && |u| == |lower| > 0 && u[0].key == 0
    && forall p :: 0 <= p < |u| ==> LinkedAt(u, lower, p, leaf)
  }

  ghost predicate LinkedAt(u: seq<Entry>, lower: Level, p: nat, leaf: bool)
    requires p < |u| == |lower|
  {
    && u[p].data == lower[p].block && |lower[p].nodes| > 0
    && u[p].key <= lower[p].nodes[0].key
    && (!leaf ==> u[p].key == lower[p].nodes[0].key)
    && (p > 0 ==> |lower[p - 1].nodes| > 0 && lower[p - 1].nodes[|lower[p - 1].nodes| - 1].key < u[p].key)
  }

  ghost predicate LevelOk(t: Tree, k: nat)
    requires k < |t|
  {
    && Sorted(Flat(t[k]))
    && (k == 0 ==> forall i :: 0 <= i < |Flat(t[k])| ==> Flat(t[k])[i].key > 0)
    && (k + 1 < |t| ==> Linked(Flat(t[k + 1]), t[k], k == 0))
  }

  function BlockAt(t: Tree, k: nat, i: nat): nat
    requires k < |t| && i < |t[k]|
  {
    t[k][i].block
  }

  /** No block is used twice. */
  ghost predicate Distinct(t: Tree) {
    forall k: nat, i: nat, l: nat, j: nat ::
      (k < |t| && i < |t[k]| && l < |t| && j < |t[l]| && BlockAt(t, k, i) == BlockAt(t, l, j)) ==> (k == l && i == j)
  }

  /** t is a search tree with its root in block `root`. */
  ghost predicate Wf(t: Tree, root: nat) {
    && |t| > 0 && |t[|t| - 1]| == 1 && t[|t| - 1][0].block == root
    && Distinct(t)
    && forall k :: 0 <= k < |t| ==> LevelOk(t, k)
  }

  // ----- How full the containers are

  datatype Caps = Caps(leaf: nat, internal: nat) {
    predicate Valid() { leaf >= 4 && internal >= 4 }

    function Of(k: nat): nat { if k == 0 then leaf else internal }
  }

  /** Least number of nodes of a container on level k of a tree of height h; the container in
      block `hole` may lack one. */
  function Least(c: Caps, h: nat, k: nat, block: nat, hole: int): int {
    (if k + 1 < h then c.Of(k) / 2 else if k == 0 then 0 else 2) - if block == hole then 1 else 0
  }

  ghost predicate Filled(t: Tree, c: Caps, hole: int) {
    forall k: nat, i: nat :: k < |t| && i < |t[k]| ==> RowFilled(t, c, hole, k, i)
  }

  ghost predicate RowFilled(t: Tree, c: Caps, hole: int, k: nat, i: nat)
    requires k < |t| && i < |t[k]|
  {
    Least(c, |t|, k, t[k][i].block, hole) <= |t[k][i].nodes| <= c.Of(k)
  }

  // ----- Searching

  /** Index of the last node whose key is at most `key`, or 0. */
  function SearchIndex(nodes: seq<Entry>, key: nat): (n: nat)
    requires nodes != []
    ensures n < |nodes|
    ensures n > 0 ==> nodes[n].key <= key
    ensures forall j :: n < j < |nodes| ==> nodes[j].key > key
  {
    if |nodes| == 1 || nodes[|nodes| - 1].key <= key then |nodes| - 1
    else SearchIndex(nodes[..|nodes| - 1], key)
  }

  /** By the separators above it, `key` belongs into container i of level k. */
  ghost predicate Covers(t: Tree, k: nat, i: nat, key: nat) {
    && k < |t| && i < |t[k]|
    && (k + 1 < |t| ==>
          var u := Flat(t[k + 1]);
          && |u| == |t[k]| && u[i].key <= key && (i + 1 < |u| ==> key < u[i + 1].key))
  }

  /** Index, one level down, of child j of container i. */
  ghost function Child(level: Level, i: nat, j: nat): nat
    requires i < |level|
  {
    Offset(level, i) + j
  }

  lemma ChildIsBelow(t: Tree, root: nat, k: nat, i: nat, j: nat)
    requires Wf(t, root) && 0 < k < |t| && i < |t[k]| && j < |t[k][i].nodes|
    ensures Child(t[k], i, j) < |t[k - 1]|
    ensures t[k][i].nodes[j].data == t[k - 1][Child(t[k], i, j)].block
    ensures |Flat(t[k])| == |t[k - 1]| && t[k][i].nodes[j] == Flat(t[k])[Child(t[k], i, j)]
  {
    hide Flat, Sorted, Distinct;
    assert LevelOk(t, k - 1);
    FlatAt(t[k], i, j);
    assert LinkedAt(Flat(t[k]), t[k - 1], Child(t[k], i, j), k == 1);
  }

  lemma NonEmptyRow(t: Tree, root: nat, k: nat, i: nat)
    requires Wf(t, root) && k < |t| && i < |t[k]| && (k > 0 || |t| > 1)
    ensures t[k][i].nodes != []
  {
    hide Flat, Sorted, Distinct;
    assert LevelOk(t, k);
    if k + 1 == |t| {
      assert LevelOk(t, k - 1);
      assert t[k] == [t[k][0]];
      FlatOne(t[k][0]);
    } else {
      assert LinkedAt(Flat(t[k + 1]), t[k], i, k == 0);
    }
  }

  /** Going down one level by searchforbnode keeps to the container the key belongs into. */
  lemma Descend(t: Tree, root: nat, k: nat, i: nat, key: nat)
    requires Wf(t, root) && 0 < k && Covers(t, k, i, key)
    ensures t[k][i].nodes != []
    ensures Covers(t, k - 1, Child(t[k], i, SearchIndex(t[k][i].nodes, key)), key)
  {
    hide Flat, Distinct, SearchIndex;
    NonEmptyRow(t, root, k, i);
    var nodes := t[k][i].nodes;
    var j := SearchIndex(nodes, key);
    assert LevelOk(t, k - 1) && LevelOk(t, k);
    ChildIsBelow(t, root, k, i, j);
    ChildIsBelow(t, root, k, i, 0);
    FlatAround(t[k], i);
    assert nodes[0].key <= key by {
      if k + 1 < |t| {
        assert LinkedAt(Flat(t[k + 1]), t[k], i, false);
        assert Flat(t[k + 1])[i].key == nodes[0].key;
      } else {
        assert i == 0 && t[k][..0] == [];
        FlatNothing();
      }
    }
    if j + 1 < |nodes| {
      ChildIsBelow(t, root, k, i, j + 1);
    } else if i + 1 < |t[k]| {
      NonEmptyRow(t, root, k, i + 1);
      ChildIsBelow(t, root, k, i + 1, 0);
      assert LinkedAt(Flat(t[k + 1]), t[k], i + 1, false);
    } else {
      OffsetEnd(t[k]);
    }
  }

  lemma FlatNothing()
    ensures Flat([]) == []
  {
  }

  // ----- Changing one container

  lemma FlatRowChange(level: Level, r: nat, nodes: seq<Entry>)
    requires r < |level|
    ensures var l := level[r := Row(level[r].block, nodes)];
      Flat(l) == Flat(level[..r]) + nodes + Flat(level[r + 1..])
    ensures Flat(level) == Flat(level[..r]) + level[r].nodes + Flat(level[r + 1..])
  {
    hide Flat;
    var l := level[r := Row(level[r].block, nodes)];
    FlatAround(l, r);
    FlatAround(level, r);
    assert l[..r] == level[..r] && l[r + 1..] == level[r + 1..];
  }

  /** Container r loses its node j. */
  lemma FlatDrop(level: Level, r: nat, j: nat)
    requires r < |level| && j < |level[r].nodes|
    ensures var n, u, c := level[r].nodes, Flat(level), Child(level, r, j);
      && c < |u|
      && Flat(level[r := Row(level[r].block, n[..j] + n[j + 1..])]) == u[..c] + u[c + 1..]
  {
    hide Flat;
    var n := level[r].nodes;
    FlatRowChange(level, r, n[..j] + n[j + 1..]);
    DropInside(Flat(level[..r]), n, Flat(level[r + 1..]), j);
  }

  lemma DropInside(a: seq<Entry>, n: seq<Entry>, b: seq<Entry>, j: nat)
    requires j < |n|
    ensures var u, c := a + n + b, |a| + j; a + (n[..j] + n[j + 1..]) + b == u[..c] + u[c + 1..]
  {
  }

  /** Container r gets a node in front of its node j. */
  lemma FlatAdd(level: Level, r: nat, j: nat, e: Entry)
    requires r < |level| && j <= |level[r].nodes|
    ensures var n, u, c := level[r].nodes, Flat(level), Child(level, r, j);
      && c <= |u|
      && Flat(level[r := Row(level[r].block, n[..j] + [e] + n[j..])]) == u[..c] + [e] + u[c..]
  {
    hide Flat;
    var n := level[r].nodes;
    FlatRowChange(level, r, n[..j] + [e] + n[j..]);
    AddInside(Flat(level[..r]), n, Flat(level[r + 1..]), j, e);
  }

  lemma AddInside(a: seq<Entry>, n: seq<Entry>, b: seq<Entry>, j: nat, e: Entry)
    requires j <= |n|
    ensures var u, c := a + n + b, |a| + j; a + (n[..j] + [e] + n[j..]) + b == u[..c] + [e] + u[c..]
  {
  }

  /** Node j of container r is replaced. */
  lemma FlatSet(level: Level, r: nat, j: nat, e: Entry)
    requires r < |level| && j < |level[r].nodes|
    ensures var u, c := Flat(level), Child(level, r, j);
      && c < |u|
      && Flat(level[r := Row(level[r].block, level[r].nodes[j := e])]) == u[c := e]
  {
    hide Flat;
    var n := level[r].nodes;
    FlatRowChange(level, r, n[j := e]);
    SetInside(Flat(level[..r]), n, Flat(level[r + 1..]), j, e);
  }

  lemma SetInside(a: seq<Entry>, n: seq<Entry>, b: seq<Entry>, j: nat, e: Entry)
    requires j < |n|
    ensures a + n[j := e] + b == (a + n + b)[|a| + j := e]
  {
  }

  // ----- What an edit of two neighbouring levels has to respect

  /** l has the same containers as `level`, each with the same first key. */
  ghost predicate SameHeads(level: Level, l: Level) {
    && |l| == |level|
    && forall r :: 0 <= r < |l| ==> (&& l[r].block == level[r].block && l[r].nodes != [] && level[r].nodes != []
                                      && l[r].nodes[0].key == level[r].nodes[0].key)
  }

  lemma LastBelow(level: Level, r: nat)
    requires 0 < r < |level| && Sorted(Flat(level)) && level[r].nodes != [] && level[r - 1].nodes != []
    ensures level[r - 1].nodes[|level[r - 1].nodes| - 1].key < level[r].nodes[0].key
  {
    hide Flat;
    FlatAt(level, r - 1, |level[r - 1].nodes| - 1);
    FlatAt(level, r, 0);
    FlatAround(level, r - 1);
  }

  lemma LinkedSameHeads(u: seq<Entry>, level: Level, l: Level)
    requires Linked(u, level, false) && SameHeads(level, l) && Sorted(Flat(l))
    ensures Linked(u, l, false)
  {
    hide Flat, Sorted;
    assert LinkedAt(u, level, 0, false);
    forall p | 0 <= p < |u| ensures LinkedAt(u, l, p, false) {
      assert LinkedAt(u, level, p, false);
      if p > 0 {
        LastBelow(l, p);
      }
    }
  }

  /** Containers of level k are cut differently and the level above is adjusted: the tree stays
      a search tree with the same entries on every level up to k. */
  lemma TwoLevels(t: Tree, root: nat, k: nat, l0: Level, l1: Level)
    requires Wf(t, root) && k + 1 < |t|
    requires Flat(l0) == Flat(t[k]) && Linked(Flat(l1), l0, k == 0) && Sorted(Flat(l1)) && SameHeads(t[k + 1], l1)
    requires Distinct(t[k := l0][k + 1 := l1])
    ensures Wf(t[k := l0][k + 1 := l1], root)
  {
    hide Flat, Sorted, Distinct, Linked;
    var t' := t[k := l0][k + 1 := l1];
    forall m | 0 <= m < |t'| ensures LevelOk(t', m) {
      assert LevelOk(t, m);
      if m == k + 1 && k + 2 < |t| {
        LinkedSameHeads(Flat(t[k + 2]), t[k + 1], l1);
      }
    }
  }

  // ----- The edits

  /** Containers p and p + 1 of level k become one; node j of container r above, which named
      the second, disappears. */
  function Merged(t: Tree, k: nat, p: nat, r: nat, j: nat): Tree
    requires k + 1 < |t| && p + 1 < |t[k]| && r < |t[k + 1]| && j < |t[k + 1][r].nodes|
  {
    var a, b, u := t[k][p], t[k][p + 1], t[k + 1][r];
    t[k := Replaced(t[k], p, p + 2, [Row(a.block, a.nodes + b.nodes)])]
     [k + 1 := t[k + 1][r := Row(u.block, u.nodes[..j] + u.nodes[j + 1..])]]
  }

  lemma MergedLinked(u: seq<Entry>, level: Level, p: nat, leaf: bool)
    requires Linked(u, level, leaf) && p + 1 < |level|
    ensures Linked(u[..p + 1] + u[p + 2..],
                   Replaced(level, p, p + 2, [Row(level[p].block, level[p].nodes + level[p + 1].nodes)]), leaf)
  {
    hide Replaced, LinkedAt;
    var l := Replaced(level, p, p + 2, [Row(level[p].block, level[p].nodes + level[p + 1].nodes)]);
    var v := u[..p + 1] + u[p + 2..];
    forall q | 0 <= q < |v| ensures LinkedAt(v, l, q, leaf) {
      MergedLinkedAt(u, level, p, leaf, v, l, q);
    }
  }

  lemma MergedLinkedAt(u: seq<Entry>, level: Level, p: nat, leaf: bool, v: seq<Entry>, l: Level, q: nat)
    requires Linked(u, level, leaf) && p + 1 < |level| && v == u[..p + 1] + u[p + 2..]
    requires l == Replaced(level, p, p + 2, [Row(level[p].block, level[p].nodes + level[p + 1].nodes)])
    requires q < |v|
    ensures LinkedAt(v, l, q, leaf)
  {
    hide Replaced;
    var o := if q <= p then q else q + 1;
    assert LinkedAt(u, level, o, leaf) && LinkedAt(u, level, p + 1, leaf);
    assert v[q] == u[o];
    if q > 0 {
      assert l[q - 1] == if q - 1 == p then Row(level[p].block, level[p].nodes + level[p + 1].nodes)
                         else level[if q - 1 < p then q - 1 else q];
    }
  }

  lemma SortedDrop(u: seq<Entry>, c: nat)
    requires Sorted(u) && c < |u|
    ensures Sorted(u[..c] + u[c + 1..])
  {
  }

  lemma FlatMerged(level: Level, p: nat)
    requires p + 1 < |level|
    ensures Flat(Replaced(level, p, p + 2, [Row(level[p].block, level[p].nodes + level[p + 1].nodes)])) == Flat(level)
  {
    hide Flat;
    var row := Row(level[p].block, level[p].nodes + level[p + 1].nodes);
    FlatReplaced(level, p, p + 2, [row]);
    FlatOne(row);
    assert level[p..p + 2] == [level[p]] + [level[p + 1]];
    FlatConcat([level[p]], [level[p + 1]]);
    FlatOne(level[p]);
    FlatOne(level[p + 1]);
  }

  lemma MergedWf(t: Tree, root: nat, k: nat, p: nat, r: nat, j: nat)
    requires Wf(t, root) && k + 1 < |t| && p + 1 < |t[k]| && r < |t[k + 1]| && 0 < j < |t[k + 1][r].nodes|
    requires Child(t[k + 1], r, j) == p + 1
    ensures Wf(Merged(t, k, p, r, j), root)
    ensures Flat(Merged(t, k, p, r, j)[k]) == Flat(t[k])
  {
    hide Flat, Sorted, Distinct, Linked, Replaced;
    var a, b, u := t[k][p], t[k][p + 1], t[k + 1][r];
    var l0 := Replaced(t[k], p, p + 2, [Row(a.block, a.nodes + b.nodes)]);
    var l1 := t[k + 1][r := Row(u.block, u.nodes[..j] + u.nodes[j + 1..])];
    assert LevelOk(t, k) && LevelOk(t, k + 1);
    FlatMerged(t[k], p);
    FlatDrop(t[k + 1], r, j);
    MergedLinked(Flat(t[k + 1]), t[k], p, k == 0);
    SortedDrop(Flat(t[k + 1]), p + 1);
    RowsNonEmpty(t, root, k + 1);
    MergedDistinct(t, k, p, r, j);
    TwoLevels(t, root, k, l0, l1);
  }

  lemma RowsNonEmpty(t: Tree, root: nat, k: nat)
    requires Wf(t, root) && k < |t| && (k > 0 || |t| > 1)
    ensures forall i :: 0 <= i < |t[k]| ==> t[k][i].nodes != []
  {
    hide Flat, Sorted, Distinct, Linked;
    forall i | 0 <= i < |t[k]| ensures t[k][i].nodes != [] {
      NonEmptyRow(t, root, k, i);
    }
  }

  lemma MergedDistinct(t: Tree, k: nat, p: nat, r: nat, j: nat)
    requires Distinct(t) && k + 1 < |t| && p + 1 < |t[k]| && r < |t[k + 1]| && j < |t[k + 1][r].nodes|
    ensures Distinct(Merged(t, k, p, r, j))
  {
    hide Replaced;
    var t' := Merged(t, k, p, r, j);
    forall m: nat, q: nat | m < |t'| && q < |t'[m]|
      ensures (if m == k && q > p then q + 1 else q) < |t[m]|
      ensures BlockAt(t', m, q) == BlockAt(t, m, if m == k && q > p then q + 1 else q)
    {
    }
  }

  /** Nodes move between containers p and p + 1 of level k, which end up with `a` and `b`; the
      separator of the second, node j of container r above, becomes its new first key. */
  function Recut(t: Tree, k: nat, p: nat, a: seq<Entry>, b: seq<Entry>, r: nat, j: nat): Tree
    requires k + 1 < |t| && p + 1 < |t[k]| && r < |t[k + 1]| && j < |t[k + 1][r].nodes| && b != []
  {
    var u := t[k + 1][r];
    t[k := Replaced(t[k], p, p + 2, [Row(t[k][p].block, a), Row(t[k][p + 1].block, b)])]
     [k + 1 := t[k + 1][r := Row(u.block, u.nodes[j := Entry(b[0].key, u.nodes[j].data)])]]
  }

  lemma FlatTwo(x: Row, y: Row)
    ensures Flat([x, y]) == x.nodes + y.nodes
  {
    hide Flat;
    assert [x, y] == [x] + [y];
    FlatConcat([x], [y]);
    FlatOne(x);
    FlatOne(y);
  }

  lemma FlatRecut(level: Level, p: nat, a: seq<Entry>, b: seq<Entry>)
    requires p + 1 < |level| && a + b == level[p].nodes + level[p + 1].nodes
    ensures Flat(Replaced(level, p, p + 2, [Row(level[p].block, a), Row(level[p + 1].block, b)])) == Flat(level)
  {
    hide Flat;
    FlatReplaced(level, p, p + 2, [Row(level[p].block, a), Row(level[p + 1].block, b)]);
    FlatTwo(Row(level[p].block, a), Row(level[p + 1].block, b));
    assert level[p..p + 2] == [level[p], level[p + 1]];
    FlatTwo(level[p], level[p + 1]);
  }

  /** Two halves of sorted nodes. */
  lemma CutSorted(level: Level, p: nat, a: seq<Entry>, b: seq<Entry>)
    requires p + 1 < |level| && a + b == level[p].nodes + level[p + 1].nodes && a != [] && b != []
    requires Sorted(Flat(level))
    ensures a[|a| - 1].key < b[0].key
    ensures level[p].nodes != [] ==> a[0] == level[p].nodes[0]
    ensures level[p + 1].nodes != [] ==> b[|b| - 1] == level[p + 1].nodes[|level[p + 1].nodes| - 1]
  {
    hide Flat;
    var n := level[p].nodes + level[p + 1].nodes;
    FlatReplaced(level, p, p + 2, []);
    assert level[p..p + 2] == [level[p], level[p + 1]];
    FlatTwo(level[p], level[p + 1]);
    var o := |Flat(level[..p])|;
    assert Flat(level)[o + |a| - 1] == n[|a| - 1] == a[|a| - 1];
    assert Flat(level)[o + |a|] == n[|a|] == b[0];
    assert n[0] == a[0];
    assert n[|n| - 1] == b[|b| - 1];
  }

  lemma RecutLinkedAt(u: seq<Entry>, level: Level, p: nat, a: seq<Entry>, b: seq<Entry>, leaf: bool, q: nat)
    requires Linked(u, level, leaf) && p + 1 < |level| && a != [] && b != []
    requires a[|a| - 1].key < b[0].key
    requires level[p].nodes != [] && level[p + 1].nodes != []
    requires a[0] == level[p].nodes[0] && b[|b| - 1] == level[p + 1].nodes[|level[p + 1].nodes| - 1]
    requires q < |u|
    ensures LinkedAt(u[p + 1 := Entry(b[0].key, u[p + 1].data)],
                     Replaced(level, p, p + 2, [Row(level[p].block, a), Row(level[p + 1].block, b)]), q, leaf)
  {
    assert LinkedAt(u, level, q, leaf) && LinkedAt(u, level, p + 1, leaf) && LinkedAt(u, level, p, leaf);
  }

  lemma SortedRecut(u: seq<Entry>, level: Level, p: nat, key: nat, leaf: bool)
    requires Linked(u, level, leaf) && Sorted(u) && 0 < p < |u|
    requires u[p - 1].key < key && (p + 1 < |u| ==> key < u[p + 1].key)
    ensures Sorted(u[p := Entry(key, u[p].data)])
  {
  }

  lemma RecutWf(t: Tree, root: nat, k: nat, p: nat, a: seq<Entry>, b: seq<Entry>, r: nat, j: nat)
    requires Wf(t, root) && k + 1 < |t| && p + 1 < |t[k]| && r < |t[k + 1]| && 0 < j < |t[k + 1][r].nodes|
    requires Child(t[k + 1], r, j) == p + 1
    requires a != [] && b != [] && a + b == t[k][p].nodes + t[k][p + 1].nodes
    ensures Wf(Recut(t, k, p, a, b, r, j), root)
    ensures Flat(Recut(t, k, p, a, b, r, j)[k]) == Flat(t[k])
  {
    hide Flat, Sorted, Distinct, LinkedAt, Replaced;
    var u, n := Flat(t[k + 1]), t[k + 1][r].nodes;
    var l0 := Replaced(t[k], p, p + 2, [Row(t[k][p].block, a), Row(t[k][p + 1].block, b)]);
    var l1 := t[k + 1][r := Row(t[k + 1][r].block, n[j := Entry(b[0].key, n[j].data)])];
    assert LevelOk(t, k) && LevelOk(t, k + 1);
    RowsNonEmpty(t, root, k);
    RowsNonEmpty(t, root, k + 1);
    FlatRecut(t[k], p, a, b);
    CutSorted(t[k], p, a, b);
    FlatAt(t[k + 1], r, j);
    FlatSet(t[k + 1], r, j, Entry(b[0].key, n[j].data));
    var v := u[p + 1 := Entry(b[0].key, u[p + 1].data)];
    var leaf := k == 0;
    forall q | 0 <= q < |v| ensures LinkedAt(v, l0, q, leaf) {
      RecutLinkedAt(u, t[k], p, a, b, k == 0, q);
    }
    RecutBetween(u, t[k], p, a, b, k == 0);
    SortedRecut(u, t[k], p + 1, b[0].key, k == 0);
    RecutDistinct(t, k, p, a, b, r, j);
    TwoLevels(t, root, k, l0, l1);
  }

  /** A separator lies between the containers on its two sides. */
  lemma Bounds(u: seq<Entry>, level: Level, p: nat, leaf: bool)
    requires Linked(u, level, leaf) && p < |level|
    ensures |u| == |level| && |level[p].nodes| > 0 && u[p].key <= level[p].nodes[0].key
    ensures p > 0 ==> |level[p - 1].nodes| > 0 && level[p - 1].nodes[|level[p - 1].nodes| - 1].key < u[p].key
  {
    assert LinkedAt(u, level, p, leaf);
  }

  lemma RecutBetween(u: seq<Entry>, level: Level, p: nat, a: seq<Entry>, b: seq<Entry>, leaf: bool)
    requires Linked(u, level, leaf) && p + 1 < |level| && |a| > 0 && |b| > 0
    requires a + b == level[p].nodes + level[p + 1].nodes && a[|a| - 1].key < b[0].key
    requires Sorted(Flat(level))
    ensures u[p].key < b[0].key && (p + 2 < |u| ==> b[0].key < u[p + 2].key)
  {
    hide Flat, Linked, LinkedAt;
    Bounds(u, level, p, leaf);
    Bounds(u, level, p + 1, leaf);
    CutSorted(level, p, a, b);
    FlatReplaced(level, p, p + 2, []);
    assert level[p..p + 2] == [level[p], level[p + 1]];
    FlatTwo(level[p], level[p + 1]);
    var o, n := |Flat(level[..p])|, level[p].nodes + level[p + 1].nodes;
    assert Flat(level)[o] == n[0] && Flat(level)[o + |a|] == n[|a|] == b[0] && Flat(level)[o + |n| - 1] == n[|n| - 1];
    if p + 2 < |u| {
      Bounds(u, level, p + 2, leaf);
    }
  }

  lemma RecutDistinct(t: Tree, k: nat, p: nat, a: seq<Entry>, b: seq<Entry>, r: nat, j: nat)
    requires Distinct(t) && k + 1 < |t| && p + 1 < |t[k]| && r < |t[k + 1]| && j < |t[k + 1][r].nodes| && b != []
    ensures Distinct(Recut(t, k, p, a, b, r, j))
  {
    hide Replaced;
    var t' := Recut(t, k, p, a, b, r, j);
    forall m: nat, q: nat | m < |t'| && q < |t'[m]| ensures q < |t[m]| && BlockAt(t', m, q) == BlockAt(t, m, q) {
    }
  }

  /** Container p of level k is cut into `a`, which stays, and `b`, which moves to block `fresh_`;
      node j of container r above names p, and the new container is named behind it. */
  function Split(t: Tree, k: nat, p: nat, a: seq<Entry>, b: seq<Entry>, fresh_: nat, r: nat, j: nat): Tree
    requires k + 1 < |t| && p < |t[k]| && r < |t[k + 1]| && j < |t[k + 1][r].nodes| && b != []
  {
    var u := t[k + 1][r];
    t[k := Replaced(t[k], p, p + 1, [Row(t[k][p].block, a), Row(fresh_, b)])]
     [k + 1 := t[k + 1][r := Row(u.block, u.nodes[..j + 1] + [Entry(b[0].key, fresh_)] + u.nodes[j + 1..])]]
  }

  lemma FlatSplit(level: Level, p: nat, a: seq<Entry>, b: seq<Entry>, fresh_: nat)
    requires p < |level| && a + b == level[p].nodes
    ensures Flat(Replaced(level, p, p + 1, [Row(level[p].block, a), Row(fresh_, b)])) == Flat(level)
  {
    hide Flat;
    FlatReplaced(level, p, p + 1, [Row(level[p].block, a), Row(fresh_, b)]);
    FlatTwo(Row(level[p].block, a), Row(fresh_, b));
    assert level[p..p + 1] == [level[p]];
    FlatOne(level[p]);
  }

  lemma SplitBetween(u: seq<Entry>, level: Level, p: nat, a: seq<Entry>, b: seq<Entry>, leaf: bool)
    requires Linked(u, level, leaf) && p < |level| && |a| > 0 && |b| > 0 && a + b == level[p].nodes
    requires Sorted(Flat(level))
    ensures a[|a| - 1].key < b[0].key && u[p].key < b[0].key && (p + 1 < |u| ==> b[0].key < u[p + 1].key)
  {
    hide Flat, Linked, LinkedAt;
    Bounds(u, level, p, leaf);
    FlatAround(level, p);
    var o, n := |Flat(level[..p])|, level[p].nodes;
    assert Flat(level)[o] == n[0] && Flat(level)[o + |a| - 1] == n[|a| - 1] && Flat(level)[o + |a|] == n[|a|] == b[0];
    assert Flat(level)[o + |n| - 1] == n[|n| - 1];
    if p + 1 < |u| {
      Bounds(u, level, p + 1, leaf);
    }
  }

  lemma SplitLinkedAt(u: seq<Entry>, level: Level, p: nat, a: seq<Entry>, b: seq<Entry>, fresh_: nat, leaf: bool,
                      q: nat)
    requires Linked(u, level, leaf) && p < |level| && a != [] && b != [] && a + b == level[p].nodes
    requires a[|a| - 1].key < b[0].key
    requires q < |u| + 1
    ensures LinkedAt(u[..p + 1] + [Entry(b[0].key, fresh_)] + u[p + 1..],
                     Replaced(level, p, p + 1, [Row(level[p].block, a), Row(fresh_, b)]), q, leaf)
  {
    hide Replaced;
    var v := u[..p + 1] + [Entry(b[0].key, fresh_)] + u[p + 1..];
    var l := Replaced(level, p, p + 1, [Row(level[p].block, a), Row(fresh_, b)]);
    assert a[0] == level[p].nodes[0] && b[|b| - 1] == level[p].nodes[|level[p].nodes| - 1];
    assert LinkedAt(u, level, p, leaf);
    if q != p + 1 {
      var o := if q <= p then q else q - 1;
      assert LinkedAt(u, level, o, leaf);
      assert v[q] == u[o];
      if q > p + 1 {
        assert l[q] == level[o];
        assert l[q - 1] == if q - 1 == p + 1 then Row(fresh_, b) else level[o - 1];
      }
    } else {
      assert v[q] == Entry(b[0].key, fresh_);
    }
  }

  lemma SortedAdd(u: seq<Entry>, c: nat, e: Entry)
    requires Sorted(u) && c <= |u|
    requires c > 0 ==> u[c - 1].key < e.key
    requires c < |u| ==> e.key < u[c].key
    ensures Sorted(u[..c] + [e] + u[c..])
  {
  }

  lemma SplitDistinct(t: Tree, k: nat, p: nat, a: seq<Entry>, b: seq<Entry>, fresh_: nat, r: nat, j: nat)
    requires Distinct(t) && k + 1 < |t| && p < |t[k]| && r < |t[k + 1]| && j < |t[k + 1][r].nodes| && b != []
    requires forall m: nat, q: nat :: m < |t| && q < |t[m]| ==> BlockAt(t, m, q) != fresh_
    ensures Distinct(Split(t, k, p, a, b, fresh_, r, j))
  {
    hide Replaced;
    var t' := Split(t, k, p, a, b, fresh_, r, j);
    forall m: nat, q: nat | m < |t'| && q < |t'[m]|
      ensures m == k && q == p + 1 ==> BlockAt(t', m, q) == fresh_
      ensures !(m == k && q == p + 1) ==> (&& (if m == k && q > p then q - 1 else q) < |t[m]|
                                           && BlockAt(t', m, q) == BlockAt(t, m, if m == k && q > p then q - 1 else q))
    {
    }
  }

  lemma SplitWf(t: Tree, root: nat, k: nat, p: nat, a: seq<Entry>, b: seq<Entry>, fresh_: nat, r: nat, j: nat)
    requires Wf(t, root) && k + 1 < |t| && p < |t[k]| && r < |t[k + 1]| && j < |t[k + 1][r].nodes|
    requires Child(t[k + 1], r, j) == p
    requires a != [] && b != [] && a + b == t[k][p].nodes
    requires forall m: nat, q: nat :: m < |t| && q < |t[m]| ==> BlockAt(t, m, q) != fresh_
    ensures Wf(Split(t, k, p, a, b, fresh_, r, j), root)
    ensures Flat(Split(t, k, p, a, b, fresh_, r, j)[k]) == Flat(t[k])
  {
    hide Flat, Sorted, Distinct, LinkedAt, Replaced;
    var u, n, e := Flat(t[k + 1]), t[k + 1][r].nodes, Entry(b[0].key, fresh_);
    var l0 := Replaced(t[k], p, p + 1, [Row(t[k][p].block, a), Row(fresh_, b)]);
    var l1 := t[k + 1][r := Row(t[k + 1][r].block, n[..j + 1] + [e] + n[j + 1..])];
    assert LevelOk(t, k) && LevelOk(t, k + 1);
    RowsNonEmpty(t, root, k);
    RowsNonEmpty(t, root, k + 1);
    FlatSplit(t[k], p, a, b, fresh_);
    SplitBetween(u, t[k], p, a, b, k == 0);
    FlatAdd(t[k + 1], r, j + 1, e);
    var v := u[..p + 1] + [e] + u[p + 1..];
    var leaf := k == 0;
    forall q | 0 <= q < |v| ensures LinkedAt(v, l0, q, leaf) {
      SplitLinkedAt(u, t[k], p, a, b, fresh_, k == 0, q);
    }
    SortedAdd(u, p + 1, e);
    SplitDistinct(t, k, p, a, b, fresh_, r, j);
    TwoLevels(t, root, k, l0, l1);
  }

  /** Leaf i gets the nodes `n`. */
  function LeafSet(t: Tree, i: nat, n: seq<Entry>): Tree
    requires |t| > 0 && i < |t[0]|
  {
    t[0 := t[0][i := Row(t[0][i].block, n)]]
  }

  lemma LeafSetDistinct(t: Tree, i: nat, n: seq<Entry>)
    requires |t| > 0 && i < |t[0]| && Distinct(t)
    ensures Distinct(LeafSet(t, i, n))
  {
    var t' := LeafSet(t, i, n);
    forall m: nat, q: nat | m < |t'| && q < |t'[m]| ensures q < |t[m]| && BlockAt(t', m, q) == BlockAt(t, m, q) {
    }
  }

  /** All keys of `n` belong into container i of the leaf level. */
  ghost predicate AllCovered(t: Tree, i: nat, n: seq<Entry>) {
    forall j :: 0 <= j < |n| ==> Covers(t, 0, i, n[j].key)
  }

  lemma LeafCovered(t: Tree, root: nat, i: nat)
    requires Wf(t, root) && i < |t[0]|
    ensures AllCovered(t, i, t[0][i].nodes)
  {
    hide Flat;
    assert LevelOk(t, 0);
    if |t| > 1 {
      var u, n := Flat(t[1]), t[0][i].nodes;
      assert LinkedAt(u, t[0], i, true);
      if i + 1 < |u| { assert LinkedAt(u, t[0], i + 1, true); }
      forall j | 0 <= j < |n| ensures Covers(t, 0, i, n[j].key) {
        FlatAt(t[0], i, 0);
        FlatAt(t[0], i, j);
        FlatAt(t[0], i, |n| - 1);
      }
    }
  }

  lemma LeafSetLinkedAt(t: Tree, root: nat, i: nat, n: seq<Entry>, q: nat)
    requires Wf(t, root) && |t| > 1 && i < |t[0]| && n != [] && AllCovered(t, i, n) && q < |t[0]| == |Flat(t[1])|
    ensures LinkedAt(Flat(t[1]), LeafSet(t, i, n)[0], q, true)
  {
    hide Flat, Sorted, Distinct;
    assert LevelOk(t, 0);
    assert LinkedAt(Flat(t[1]), t[0], q, true);
    assert Covers(t, 0, i, n[0].key) && Covers(t, 0, i, n[|n| - 1].key);
  }

  lemma LeafSetWf(t: Tree, root: nat, i: nat, n: seq<Entry>)
    requires Wf(t, root) && i < |t[0]| && AllCovered(t, i, n) && (|t| > 1 ==> n != [])
    requires Sorted(Flat(LeafSet(t, i, n)[0]))
    requires forall j :: 0 <= j < |Flat(LeafSet(t, i, n)[0])| ==> Flat(LeafSet(t, i, n)[0])[j].key > 0
    ensures Wf(LeafSet(t, i, n), root)
  {
    hide Flat, Sorted, Distinct, LinkedAt, Covers;
    var t' := LeafSet(t, i, n);
    LeafSetDistinct(t, i, n);
    forall m | 0 <= m < |t'| ensures LevelOk(t', m) {
      assert LevelOk(t, m);
      if m == 0 && |t| > 1 {
        forall q | 0 <= q < |t[0]| ensures LinkedAt(Flat(t[1]), t'[0], q, true) {
          LeafSetLinkedAt(t, root, i, n, q);
        }
      }
    }
  }

  /** The neighbours of a leaf's nodes among all entries. */
  lemma LeafNeighbours(t: Tree, root: nat, i: nat, key: nat)
    requires Wf(t, root) && Covers(t, 0, i, key)
    ensures var f, o, n := Flat(t[0]), Offset(t[0], i), t[0][i].nodes;
      && o + |n| <= |f|
      && (o > 0 ==> f[o - 1].key < key)
      && (o + |n| < |f| ==> key < f[o + |n|].key)
  {
    hide Flat;
    assert LevelOk(t, 0);
    FlatAround(t[0], i);
    if |t| > 1 {
      RowsNonEmpty(t, root, 0);
      assert LinkedAt(Flat(t[1]), t[0], i, true);
      if i > 0 {
        FlatAt(t[0], i - 1, |t[0][i - 1].nodes| - 1);
        FlatAround(t[0], i - 1);
      } else {
        FlatNothing();
      }
      if i + 1 < |t[0]| {
        assert LinkedAt(Flat(t[1]), t[0], i + 1, true);
        FlatAt(t[0], i + 1, 0);
      } else {
        OffsetEnd(t[0]);
      }
    } else {
      assert t[0][..0] == [] && t[0][1..] == [];
      FlatNothing();
    }
  }

  /** Position at which `key` is inserted into sorted nodes: behind all smaller keys. */
  ghost predicate InsertsAt(n: seq<Entry>, key: nat, j: nat) {
    && j <= |n|
    && (forall i :: 0 <= i < j ==> n[i].key < key)
    && (forall i :: j <= i < |n| ==> key < n[i].key)
  }

  lemma LeafInsertWf(t: Tree, root: nat, i: nat, j: nat, e: Entry)
    requires Wf(t, root) && i < |t[0]| && Covers(t, 0, i, e.key) && InsertsAt(t[0][i].nodes, e.key, j) && e.key > 0
    ensures var n, c, f := t[0][i].nodes, Child(t[0], i, j), Flat(t[0]);
      var t' := LeafSet(t, i, n[..j] + [e] + n[j..]);
      Wf(t', root) && c <= |f| && Flat(t'[0]) == f[..c] + [e] + f[c..]
  {
    hide Flat, Distinct, LinkedAt, Covers;
    var n, c, f := t[0][i].nodes, Child(t[0], i, j), Flat(t[0]);
    assert LevelOk(t, 0);
    LeafNeighbours(t, root, i, e.key);
    FlatAdd(t[0], i, j, e);
    if 0 < j { FlatAt(t[0], i, j - 1); }
    if j < |n| { FlatAt(t[0], i, j); }
    SortedAdd(f, c, e);
    LeafCovered(t, root, i);
    var n' := n[..j] + [e] + n[j..];
    forall q | 0 <= q < |n'| ensures Covers(t, 0, i, n'[q].key) {
      if q != j { assert n'[q] == n[if q < j then q else q - 1]; }
    }
    LeafSetWf(t, root, i, n');
  }

  lemma LeafRemoveWf(t: Tree, root: nat, i: nat, j: nat)
    requires Wf(t, root) && i < |t[0]| && j < |t[0][i].nodes| && (|t| > 1 ==> |t[0][i].nodes| > 1)
    ensures var n, c, f := t[0][i].nodes, Child(t[0], i, j), Flat(t[0]);
      var t' := LeafSet(t, i, n[..j] + n[j + 1..]);
      Wf(t', root) && c < |f| && Flat(t'[0]) == f[..c] + f[c + 1..]
  {
    hide Flat, Distinct, LinkedAt, Covers;
    var n, c, f := t[0][i].nodes, Child(t[0], i, j), Flat(t[0]);
    assert LevelOk(t, 0);
    FlatDrop(t[0], i, j);
    SortedDrop(f, c);
    LeafCovered(t, root, i);
    var n' := n[..j] + n[j + 1..];
    forall q | 0 <= q < |n'| ensures Covers(t, 0, i, n'[q].key) {
      assert n'[q] == n[if q < j then q else q + 1];
    }
    LeafSetWf(t, root, i, n');
  }

  /** The root moves to block `fresh_` and a new root with one child takes its place. */
  function Grown(t: Tree, root: nat, fresh_: nat): Tree
    requires |t| > 0 && |t[|t| - 1]| == 1
  {
    t[|t| - 1 := [Row(fresh_, t[|t| - 1][0].nodes)]] + [[Row(root, [Entry(0, fresh_)])]]
  }

  lemma GrownWf(t: Tree, root: nat, fresh_: nat)
    requires Wf(t, root) && t[|t| - 1][0].nodes != []
    requires forall m: nat, q: nat :: m < |t| && q < |t[m]| ==> BlockAt(t, m, q) != fresh_
    ensures Wf(Grown(t, root, fresh_), root)
    ensures forall m :: 0 <= m < |t| ==> Flat(Grown(t, root, fresh_)[m]) == Flat(t[m])
  {
    hide Flat, LinkedAt;
    var h := |t| - 1;
    var t' := Grown(t, root, fresh_);
    var n := t[h][0].nodes;
    FlatOne(t[h][0]);
    FlatOne(Row(fresh_, n));
    FlatOne(Row(root, [Entry(0, fresh_)]));
    assert t[h] == [t[h][0]];
    forall m | 0 <= m < |t| ensures Flat(t'[m]) == Flat(t[m]) {
    }
    if |t| > 1 { RootKey(t, root); }
    forall m | 0 <= m < |t'| ensures LevelOk(t', m) {
      if m < |t| { assert LevelOk(t, m); }
      if m == h {
        assert LinkedAt(Flat(t'[h + 1]), t'[h], 0, h == 0) by { RootLinked(fresh_, n, h == 0); }
      }
    }
    GrownDistinct(t, root, fresh_);
  }

  lemma RootKey(t: Tree, root: nat)
    requires Wf(t, root) && |t| > 1
    ensures t[|t| - 1][0].nodes != [] && t[|t| - 1][0].nodes[0].key == 0
  {
    hide Flat;
    assert LevelOk(t, |t| - 2);
    FlatOne(t[|t| - 1][0]);
    assert t[|t| - 1] == [t[|t| - 1][0]];
  }

  lemma RootLinked(fresh_: nat, n: seq<Entry>, leaf: bool)
    requires n != [] && (!leaf ==> n[0].key == 0)
    ensures LinkedAt([Entry(0, fresh_)], [Row(fresh_, n)], 0, leaf)
  {
  }

  lemma GrownDistinct(t: Tree, root: nat, fresh_: nat)
    requires Wf(t, root)
    requires forall m: nat, q: nat :: m < |t| && q < |t[m]| ==> BlockAt(t, m, q) != fresh_
    ensures Distinct(Grown(t, root, fresh_))
  {
    hide Flat, LevelOk;
    var t', h := Grown(t, root, fresh_), |t| - 1;
    forall m: nat, q: nat | m < |t'| && q < |t'[m]|
      ensures m == h ==> BlockAt(t', m, q) == fresh_
      ensures m == h + 1 ==> q == 0 && BlockAt(t', m, q) == root == BlockAt(t, h, 0)
      ensures m < h ==> q < |t[m]| && BlockAt(t', m, q) == BlockAt(t, m, q)
    {
    }
  }

  /** The only child of the root takes its place. */
  function Collapsed(t: Tree, root: nat): Tree
    requires |t| > 1 && |t[|t| - 2]| == 1
  {
    t[..|t| - 2] + [[Row(root, t[|t| - 2][0].nodes)]]
  }

  lemma CollapsedWf(t: Tree, root: nat)
    requires Wf(t, root) && |t| > 1 && |t[|t| - 1][0].nodes| == 1
    ensures |t[|t| - 2]| == 1 && Wf(Collapsed(t, root), root)
    ensures Flat(Collapsed(t, root)[0]) == Flat(t[0])
  {
    hide Flat, LinkedAt;
    var h := |t| - 1;
    assert LevelOk(t, h - 1);
    FlatOne(t[h][0]);
    assert t[h] == [t[h][0]];
    assert t[h - 1] == [t[h - 1][0]];
    FlatOne(t[h - 1][0]);
    FlatOne(Row(root, t[h - 1][0].nodes));
    var t' := Collapsed(t, root);
    forall m | 0 <= m < |t'| ensures Flat(t'[m]) == Flat(t[m]) {
    }
    forall m | 0 <= m < |t'| ensures LevelOk(t', m) {
      assert LevelOk(t, m);
    }
    forall m: nat, q: nat | m < |t'| && q < |t'[m]|
      ensures m == h - 1 ==> q == 0 && BlockAt(t', m, q) == root == BlockAt(t, h, 0)
      ensures m < h - 1 ==> q < |t[m]| && BlockAt(t', m, q) == BlockAt(t, m, q)
    {
    }
  }

  // ----- How the edits keep the containers filled

  lemma FilledHoleless(t: Tree, c: Caps, k: nat, i: nat)
    requires Distinct(t) && k < |t| && i < |t[k]| && Filled(t, c, t[k][i].block)
    requires |t[k][i].nodes| >= Least(c, |t|, k, t[k][i].block, -1)
    ensures Filled(t, c, -1)
  {
    hide Distinct;
    forall m: nat, q: nat | m < |t| && q < |t[m]| ensures RowFilled(t, c, -1, m, q) {
      FilledAt(t, c, t[k][i].block, m, q);
      DistinctAt(t, m, q, k, i);
    }
  }

  lemma FilledAt(t: Tree, c: Caps, hole: int, k: nat, i: nat)
    requires Filled(t, c, hole) && k < |t| && i < |t[k]|
    ensures RowFilled(t, c, hole, k, i)
  {
  }

  lemma LeafSetFilled(t: Tree, c: Caps, i: nat, n: seq<Entry>)
    requires Filled(t, c, -1) && |t| > 0 && i < |t[0]|
    requires |t[0][i].nodes| - 1 <= |n| <= c.leaf
    ensures Filled(LeafSet(t, i, n), c, t[0][i].block)
    ensures |n| >= |t[0][i].nodes| ==> Filled(LeafSet(t, i, n), c, -1)
  {
    var t' := LeafSet(t, i, n);
    FilledAt(t, c, -1, 0, i);
    forall k: nat, q: nat | k < |t'| && q < |t'[k]|
      ensures RowFilled(t', c, t[0][i].block, k, q)
      ensures |n| >= |t[0][i].nodes| ==> RowFilled(t', c, -1, k, q)
    {
      FilledAt(t, c, -1, k, q);
    }
  }

  lemma MergedFilled(t: Tree, c: Caps, hole: int, k: nat, p: nat, r: nat, j: nat)
    requires c.Valid() && Filled(t, c, hole) && Distinct(t)
    requires k + 1 < |t| && p + 1 < |t[k]| && r < |t[k + 1]| && j < |t[k + 1][r].nodes|
    requires hole == t[k][p].block || hole == t[k][p + 1].block
    requires |t[k][p].nodes| + |t[k][p + 1].nodes| <= c.Of(k)
    ensures Filled(Merged(t, k, p, r, j), c, t[k + 1][r].block)
  {
    hide Replaced, Distinct;
    var t', parent := Merged(t, k, p, r, j), t[k + 1][r].block;
    FilledAt(t, c, hole, k, p);
    FilledAt(t, c, hole, k, p + 1);
    DistinctAt(t, k, p, k, p + 1);
    forall m: nat, q: nat | m < |t'| && q < |t'[m]|
      ensures RowFilled(t', c, parent, m, q)
    {
      var o := if m == k && q > p then q + 1 else q;
      FilledAt(t, c, hole, m, o);
      DistinctAt(t, m, o, k, p);
      DistinctAt(t, m, o, k, p + 1);
    }
  }

  lemma DistinctAt(t: Tree, k: nat, i: nat, l: nat, j: nat)
    requires Distinct(t) && k < |t| && i < |t[k]| && l < |t| && j < |t[l]|
    ensures t[k][i].block == t[l][j].block ==> k == l && i == j
  {
    assert t[k][i].block == BlockAt(t, k, i) && t[l][j].block == BlockAt(t, l, j);
  }

  lemma RecutFilled(t: Tree, c: Caps, hole: int, k: nat, p: nat, a: seq<Entry>, b: seq<Entry>, r: nat, j: nat)
    requires c.Valid() && Filled(t, c, hole) && Distinct(t)
    requires k + 1 < |t| && p + 1 < |t[k]| && r < |t[k + 1]| && j < |t[k + 1][r].nodes|
    requires hole == t[k][p].block || hole == t[k][p + 1].block
    requires c.Of(k) / 2 <= |a| <= c.Of(k) && c.Of(k) / 2 <= |b| <= c.Of(k) && b != []
    ensures Filled(Recut(t, k, p, a, b, r, j), c, -1)
  {
    hide Replaced, Distinct;
    var t' := Recut(t, k, p, a, b, r, j);
    forall m: nat, q: nat | m < |t'| && q < |t'[m]|
      ensures RowFilled(t', c, -1, m, q)
    {
      FilledAt(t, c, hole, m, q);
      DistinctAt(t, m, q, k, p);
      DistinctAt(t, m, q, k, p + 1);
    }
  }

  // ----- How a deletion refills the containers

  /** Container q of level m names the same children, or has the same nodes if it is a leaf. */
  ghost predicate SameRow(t: Tree, m: nat, q: nat, row: Row) {
    && m < |t| && q < |t[m]| && t[m][q].block == row.block && |t[m][q].nodes| == |row.nodes|
    && forall j :: 0 <= j < |row.nodes| ==>
         t[m][q].nodes[j].data == row.nodes[j].data && (m == 0 ==> t[m][q].nodes[j].key == row.nodes[j].key)
  }

  /** A container is the root, or has at least (capacity + 1) / 2 nodes, or it is as it was and not the one
      that lost a node, which is container i of level k. */
  ghost predicate RowRefilled(t: Tree, c: Caps, root: nat, k: nat, i: nat, m: nat, row: Row) {
    || row.block == root || |row.nodes| >= (c.Of(m) + 1) / 2
    || exists o: nat :: !(m == k && o == i) && SameRow(t, m, o, row)
  }

  ghost predicate Refilled(t: Tree, c: Caps, root: nat, k: nat, i: nat, t': Tree) {
    forall m: nat, q: nat :: m < |t'| && q < |t'[m]| ==> RowRefilled(t, c, root, k, i, m, t'[m][q])
  }

  /** Levels below k are as they were, but for the block of a container that became the root. */
  ghost predicate LowerKept(t: Tree, root: nat, k: nat, t': Tree)
    requires k <= |t|
  {
    forall m :: 0 <= m < k ==>
      m < |t'| && (t'[m] == t[m] || (m + 1 == k == |t'| && |t[m]| == 1 && t'[m] == [Row(root, t[m][0].nodes)]))
  }

  /** The neighbours p and p + 1 share their nodes evenly if these are too many for one container, and are one
      if not. */
  ghost predicate PairSettled(t: Tree, c: Caps, root: nat, k: nat, p: nat, t': Tree)
    requires k < |t| && p + 1 < |t[k]|
  {
    var x, y := t[k][p], t[k][p + 1];
    && k < |t'| && (forall m :: 0 <= m < k ==> t'[m] == t[m])
    && if |x.nodes| + |y.nodes| > c.Of(k) then
         exists a, b :: a + b == x.nodes + y.nodes && -1 <= |a| - |b| <= 1
           && t'[k] == Replaced(t[k], p, p + 2, [Row(x.block, a), Row(y.block, b)])
       else
         var l := Replaced(t[k], p, p + 2, [Row(x.block, x.nodes + y.nodes)]);
         t'[k] == l || (|t'| == k + 1 && |l| == 1 && t'[k] == [Row(root, l[0].nodes)])
  }

  /** What happens to container i of level k when it has lost a node: nothing if it has enough, or is the
      root and has more than one child or is a leaf; a root with one child gives way to it; and any other
      container settles with the next one below its parent, or with the previous one if it is the last. */
  ghost predicate Settles(t: Tree, c: Caps, root: nat, k: nat, i: nat, t': Tree)
    requires k < |t| && i < |t[k]|
  {
    var nodes := t[k][i].nodes;
    if |nodes| >= (c.Of(k) + 1) / 2 || (k == |t| - 1 && (k == 0 || |nodes| != 1)) then t' == t
    else if k == |t| - 1 then |t[k - 1]| == 1 && t' == Collapsed(t, root)
    else
      exists r: nat, j: nat ::
        && IsChild(t, k, i, r, j)
        && var p := if j + 1 < |t[k + 1][r].nodes| then i else i - 1;
           0 <= p < |t[k]| - 1 && PairSettled(t, c, root, k, p, t')
  }

  ghost predicate IsChild(t: Tree, k: nat, i: nat, r: nat, j: nat) {
    k + 1 < |t| && r < |t[k + 1]| && j < |t[k + 1][r].nodes| && Child(t[k + 1], r, j) == i
  }

  lemma SettlesWith(t: Tree, c: Caps, root: nat, k: nat, i: nat, r: nat, j: nat, p: nat, t': Tree)
    requires k + 1 < |t| && i < |t[k]| && IsChild(t, k, i, r, j) && |t[k][i].nodes| < (c.Of(k) + 1) / 2
    requires p == if j + 1 < |t[k + 1][r].nodes| then i else i - 1
    requires p + 1 < |t[k]| && PairSettled(t, c, root, k, p, t')
    ensures Settles(t, c, root, k, i, t')
  {
    hide PairSettled, Child;
  }

  lemma SettlesTop(t: Tree, c: Caps, root: nat)
    requires c.Valid() && |t| > 1 && |t[|t| - 1]| == 1 && |t[|t| - 1][0].nodes| == 1 && |t[|t| - 2]| == 1
    ensures Settles(t, c, root, |t| - 1, 0, Collapsed(t, root))
  {
  }

  lemma SettlesNot(t: Tree, c: Caps, root: nat, k: nat, i: nat)
    requires k < |t| && i < |t[k]|
    requires |t[k][i].nodes| >= (c.Of(k) + 1) / 2 || (k == |t| - 1 && (k == 0 || |t[k][i].nodes| != 1))
    ensures Settles(t, c, root, k, i, t)
  {
  }

  /** The leaf that lost a node is the one that is left out. */
  lemma RefilledLeaf(t: Tree, c: Caps, root: nat, i: nat, n: seq<Entry>, t': Tree)
    requires |t| > 0 && i < |t[0]| && Refilled(LeafSet(t, i, n), c, root, 0, i, t')
    ensures Refilled(t, c, root, 0, i, t')
  {
    var u := LeafSet(t, i, n);
    forall m: nat, q: nat | m < |t'| && q < |t'[m]| ensures RowRefilled(t, c, root, 0, i, m, t'[m][q]) {
      assert RowRefilled(u, c, root, 0, i, m, t'[m][q]);
      if o: nat :| !(m == 0 && o == i) && SameRow(u, m, o, t'[m][q]) {
        assert SameRow(t, m, o, t'[m][q]);
      }
    }
  }

  lemma SameSelf(t: Tree, m: nat, q: nat)
    requires m < |t| && q < |t[m]|
    ensures SameRow(t, m, q, t[m][q])
  {
  }

  lemma RefilledNone(t: Tree, c: Caps, root: nat, k: nat, i: nat)
    requires k < |t| && i < |t[k]|
    requires t[k][i].block == root || |t[k][i].nodes| >= (c.Of(k) + 1) / 2
    ensures Refilled(t, c, root, k, i, t) && LowerKept(t, root, k, t)
  {
    forall m: nat, q: nat | m < |t| && q < |t[m]| ensures RowRefilled(t, c, root, k, i, m, t[m][q]) {
      SameSelf(t, m, q);
    }
  }

  lemma RefilledCollapsed(t: Tree, c: Caps, root: nat)
    requires |t| > 1 && |t[|t| - 2]| == 1
    ensures Refilled(t, c, root, |t| - 1, 0, Collapsed(t, root)) && LowerKept(t, root, |t| - 1, Collapsed(t, root))
  {
    var t' := Collapsed(t, root);
    forall m: nat, q: nat | m < |t'| && q < |t'[m]| ensures RowRefilled(t, c, root, |t| - 1, 0, m, t'[m][q]) {
      if m < |t| - 2 { SameSelf(t, m, q); }
    }
  }

  lemma RefilledRecut(t: Tree, c: Caps, root: nat, k: nat, i: nat, p: nat, a: seq<Entry>, b: seq<Entry>, r: nat,
                      j: nat)
    requires k + 1 < |t| && p + 1 < |t[k]| && r < |t[k + 1]| && j < |t[k + 1][r].nodes| && b != []
    requires (i == p || i == p + 1) && a + b == t[k][p].nodes + t[k][p + 1].nodes
    requires |a| + |b| > c.Of(k) && -1 <= |a| - |b| <= 1
    ensures Refilled(t, c, root, k, i, Recut(t, k, p, a, b, r, j))
    ensures PairSettled(t, c, root, k, p, Recut(t, k, p, a, b, r, j))
    ensures LowerKept(t, root, k, Recut(t, k, p, a, b, r, j))
  {
    hide Replaced;
    var t' := Recut(t, k, p, a, b, r, j);
    forall m: nat, q: nat | m < |t'| && q < |t'[m]| ensures RowRefilled(t, c, root, k, i, m, t'[m][q]) {
      if !(m == k && (q == p || q == p + 1)) {
        assert SameRow(t, m, q, t'[m][q]);
      }
    }
  }

  /** After a merge the rest is up to the parent. */
  lemma RefilledMerged(t: Tree, c: Caps, root: nat, k: nat, i: nat, p: nat, r: nat, j: nat, t': Tree)
    requires c.Valid() && k + 1 < |t| && p + 1 < |t[k]| && r < |t[k + 1]| && j < |t[k + 1][r].nodes|
    requires (i == p || i == p + 1) && |t[k][p].nodes| + |t[k][p + 1].nodes| <= c.Of(k)
    requires Distinct(t) && Filled(t, c, t[k][i].block)
    requires Refilled(Merged(t, k, p, r, j), c, root, k + 1, r, t') && LowerKept(Merged(t, k, p, r, j), root, k + 1, t')
    ensures Refilled(t, c, root, k, i, t')
    ensures PairSettled(t, c, root, k, p, t') && LowerKept(t, root, k, t')
  {
    hide Replaced, Distinct, Filled, PairSettled, LowerKept;
    MergedSettles(t, c, root, k, p, r, j, t');
    var u := Merged(t, k, p, r, j);
    FilledAt(t, c, t[k][i].block, k, p);
    FilledAt(t, c, t[k][i].block, k, p + 1);
    DistinctAt(t, k, p, k, p + 1);
    assert |t[k][p].nodes| + |t[k][p + 1].nodes| >= (c.Of(k) + 1) / 2;
    forall m: nat, q: nat | m < |t'| && q < |t'[m]| ensures RowRefilled(t, c, root, k, i, m, t'[m][q]) {
      var row := t'[m][q];
      assert RowRefilled(u, c, root, k + 1, r, m, row);
      if o: nat :| !(m == k + 1 && o == r) && SameRow(u, m, o, row) {
        if !(m == k && o == p) {
          assert SameRow(t, m, if m == k && o > p then o + 1 else o, row);
        }
      }
    }
  }

  lemma MergedSettles(t: Tree, c: Caps, root: nat, k: nat, p: nat, r: nat, j: nat, t': Tree)
    requires k + 1 < |t| && p + 1 < |t[k]| && r < |t[k + 1]| && j < |t[k + 1][r].nodes|
    requires |t[k][p].nodes| + |t[k][p + 1].nodes| <= c.Of(k) && LowerKept(Merged(t, k, p, r, j), root, k + 1, t')
    ensures PairSettled(t, c, root, k, p, t') && LowerKept(t, root, k, t')
  {
    hide Replaced;
    var u := Merged(t, k, p, r, j);
    assert k < |t'| && (t'[k] == u[k] || (k + 1 == |t'| && |u[k]| == 1 && t'[k] == [Row(root, u[k][0].nodes)]));
    forall m | 0 <= m < k ensures t'[m] == t[m] {
      assert t'[m] == u[m];
    }
  }

  lemma SplitFilled(t: Tree, c: Caps, hole: int, k: nat, p: nat, a: seq<Entry>, b: seq<Entry>, fresh_: nat, r: nat,
                    j: nat)
    requires c.Valid() && Filled(t, c, hole) && Distinct(t)
    requires k + 1 < |t| && p < |t[k]| && r < |t[k + 1]| && j < |t[k + 1][r].nodes| && b != []
    requires hole == -1 || hole == t[k + 1][r].block
    requires |a| == c.Of(k) / 2 && |b| == c.Of(k) - c.Of(k) / 2 && |t[k + 1][r].nodes| < c.Of(k + 1)
    ensures Filled(Split(t, k, p, a, b, fresh_, r, j), c, -1)
  {
    hide Replaced, Distinct;
    var t' := Split(t, k, p, a, b, fresh_, r, j);
    forall m: nat, q: nat | m < |t'| && q < |t'[m]|
      ensures RowFilled(t', c, -1, m, q)
    {
      if !(m == k && (q == p || q == p + 1)) {
        var o := if m == k && q > p then q - 1 else q;
        FilledAt(t, c, hole, m, o);
        DistinctAt(t, m, o, k + 1, r);
      }
    }
  }

  lemma GrownFilled(t: Tree, root: nat, c: Caps, fresh_: nat)
    requires c.Valid() && Filled(t, c, -1) && Wf(t, root)
    requires |t[|t| - 1][0].nodes| == c.Of(|t| - 1)
    requires fresh_ != root
    ensures Filled(Grown(t, root, fresh_), c, root)
  {
    hide Distinct, LevelOk;
    var t' := Grown(t, root, fresh_);
    forall m: nat, q: nat | m < |t'| && q < |t'[m]|
      ensures RowFilled(t', c, root, m, q)
    {
      if m < |t| - 1 {
        FilledAt(t, c, -1, m, q);
      }
    }
  }

  lemma CollapsedFilled(t: Tree, root: nat, c: Caps)
    requires c.Valid() && Filled(t, c, root) && Wf(t, root) && |t| > 1 && |t[|t| - 2]| == 1
    ensures Filled(Collapsed(t, root), c, -1)
  {
    hide Distinct, LevelOk;
    var t', h := Collapsed(t, root), |t| - 1;
    forall m: nat, q: nat | m < |t'| && q < |t'[m]|
      ensures RowFilled(t', c, -1, m, q)
    {
      FilledAt(t, c, root, m, if m == h - 1 then 0 else q);
      assert t[m][if m == h - 1 then 0 else q].block != root by {
        hide *;
        RootAlone(t, root, m, if m == h - 1 then 0 else q);
      }
    }
  }

  lemma RootAlone(t: Tree, root: nat, m: nat, q: nat)
    requires Wf(t, root) && m + 1 < |t| && q < |t[m]|
    ensures t[m][q].block != root
  {
    hide LevelOk;
    DistinctAt(t, m, q, |t| - 1, 0);
  }

  // ----- What a search finds

  /** The container a key belongs into is the only one that can hold it. */
  lemma OnlyThere(t: Tree, root: nat, i: nat, key: nat, x: nat)
    requires Wf(t, root) && Covers(t, 0, i, key)
    requires x < |Flat(t[0])| && Flat(t[0])[x].key == key
    ensures var o := Offset(t[0], i); o <= x < o + |t[0][i].nodes| && t[0][i].nodes[x - o] == Flat(t[0])[x]
  {
    hide Flat, Distinct;
    LeafNeighbours(t, root, i, key);
    assert LevelOk(t, 0);
    FlatAround(t[0], i);
  }

  /** Where a search leads from container i of level k. */
  ghost function Down(t: Tree, k: nat, i: nat, key: nat): nat
    decreases k
  {
    if k == 0 || k >= |t| || i >= |t[k]| || t[k][i].nodes == [] then i
    else Down(t, k - 1, Child(t[k], i, SearchIndex(t[k][i].nodes, key)), key)
  }

  lemma {:induction false} DownCovers(t: Tree, root: nat, k: nat, i: nat, key: nat)
    requires Wf(t, root) && Covers(t, k, i, key)
    ensures Covers(t, 0, Down(t, k, i, key), key)
    decreases k
  {
    hide Flat, LevelOk, Distinct, Covers, SearchIndex;
    if k > 0 {
      Descend(t, root, k, i, key);
      assert i < |t[k]| && k < |t| by { CoversInside(t, k, i, key); }
      DownCovers(t, root, k - 1, Child(t[k], i, SearchIndex(t[k][i].nodes, key)), key);
    }
  }

  lemma CoversInside(t: Tree, k: nat, i: nat, key: nat)
    requires Covers(t, k, i, key)
    ensures k < |t| && i < |t[k]|
  {
  }

  lemma {:induction false} OffsetMonotone(level: Level, i: nat, j: nat)
    requires i <= j <= |level|
    ensures Offset(level, i) <= Offset(level, j)
    decreases j - i
  {
    hide Flat;
    if i < j {
      FlatAround(level, i);
      OffsetMonotone(level, i + 1, j);
    }
  }

  /** When container r is cut in two, the entry that was its node j is in one of the halves. */
  lemma ChildAfterCut(level: Level, l: Level, r: nat, j: nat, x: Row, y: Row, q: nat, n: nat)
    requires r < |level| && j < |level[r].nodes| && l == Replaced(level, r, r + 1, [x, y])
    requires x.nodes + y.nodes == level[r].nodes
    requires q < |l| && n < |l[q].nodes| && Child(l, q, n) == Child(level, r, j)
    ensures q == r || q == r + 1
  {
    hide Flat, Replaced;
    FlatAround(level, r);
    FlatAround(l, q);
    assert l[..r] == level[..r];
    FlatAround(l, r);
    FlatAround(l, r + 1);
    if q < r {
      OffsetMonotone(l, q + 1, r);
    } else if q > r + 1 {
      OffsetMonotone(l, r + 2, q);
    }
  }

  /** Number of leaves with no room. */
  ghost function Full(level: Level, cap: nat): nat {
    if level == [] then 0 else (if |level[0].nodes| >= cap then 1 else 0) + Full(level[1..], cap)
  }

  lemma {:induction false} FullConcat(a: Level, b: Level, cap: nat)
    ensures Full(a + b, cap) == Full(a, cap) + Full(b, cap)
  {
    if a == [] {
      assert a + b == b;
    } else {
      assert (a + b)[1..] == a[1..] + b;
      FullConcat(a[1..], b, cap);
    }
  }

  /** Cutting a full leaf into two with room leaves one full leaf less. */
  lemma FullAfterCut(level: Level, r: nat, x: Row, y: Row, cap: nat)
    requires r < |level| && |level[r].nodes| >= cap && |x.nodes| < cap && |y.nodes| < cap
    ensures Full(Replaced(level, r, r + 1, [x, y]), cap) == Full(level, cap) - 1
  {
    hide Full;
    assert Replaced(level, r, r + 1, [x, y]) == level[..r] + ([x, y] + level[r + 1..]);
    assert level == level[..r] + ([level[r]] + level[r + 1..]);
    FullConcat(level[..r], [x, y] + level[r + 1..], cap);
    FullConcat([x, y], level[r + 1..], cap);
    FullConcat(level[..r], [level[r]] + level[r + 1..], cap);
    FullConcat([level[r]], level[r + 1..], cap);
    FullShort(x, y, level[r], cap);
  }

  lemma FullShort(x: Row, y: Row, z: Row, cap: nat)
    requires |x.nodes| < cap && |y.nodes| < cap && |z.nodes| >= cap
    ensures Full([x, y], cap) == 0 && Full([z], cap) == 1
  {
    assert [x, y][1..] == [y] && [y][1..] == [] && [z][1..] == [];
    assert Full([y], cap) == 0;
  }

  /** Where the new separator goes when container p of level k is cut. */
  lemma SplitInserts(t: Tree, root: nat, k: nat, p: nat, a: seq<Entry>, b: seq<Entry>, r: nat, j: nat)
    requires Wf(t, root) && k + 1 < |t| && p < |t[k]| && r < |t[k + 1]| && j < |t[k + 1][r].nodes|
    requires Child(t[k + 1], r, j) == p && a != [] && b != [] && a + b == t[k][p].nodes
    ensures InsertsAt(t[k + 1][r].nodes, b[0].key, j + 1)
  {
    hide Flat, Distinct, LinkedAt;
    assert LevelOk(t, k) && LevelOk(t, k + 1);
    var n, u, key := t[k + 1][r].nodes, Flat(t[k + 1]), b[0].key;
    SplitBetween(u, t[k], p, a, b, k == 0);
    forall q | 0 <= q < |n| ensures q <= j ==> n[q].key < key
      ensures q > j ==> key < n[q].key
    {
      FlatAt(t[k + 1], r, q);
      FlatAt(t[k + 1], r, j);
    }
  }

  /** A key that is in no entry has its place among the nodes of its leaf. */
  lemma LeafInserts(t: Tree, root: nat, i: nat, key: nat) returns (j: nat)
    requires Wf(t, root) && i < |t[0]|
    requires forall x :: 0 <= x < |Flat(t[0])| ==> Flat(t[0])[x].key != key
    ensures InsertsAt(t[0][i].nodes, key, j)
  {
    hide Flat, Distinct, LinkedAt;
    assert LevelOk(t, 0);
    var n := t[0][i].nodes;
    forall q | 0 <= q < |n| ensures n[q].key != key
    {
      FlatAt(t[0], i, q);
    }
    forall x, y | 0 <= x < y < |n| ensures n[x].key < n[y].key {
      FlatAt(t[0], i, x);
      FlatAt(t[0], i, y);
    }
    j := 0;
    while j < |n| && n[j].key < key
      invariant j <= |n| && forall q :: 0 <= q < j ==> n[q].key < key
    {
      j := j + 1;
    }
  }
}
