/** The object nodes of FS/nodes.c: finding, creating and deleting them. */
module ObjectNodes {
  import opened NodeShape
  import opened NextNode
  import BTree
  import Ranges

  // ----- Scans of one container

  /** First unused node of a leaf from k on. */
  method FirstUnused(slots: seq<nat>, from: nat) returns (k: nat)
    requires from <= |slots|
    ensures from <= k <= |slots| && (k < |slots| ==> slots[k] == 0)
    ensures forall j :: from <= j < k ==> slots[j] != 0
  {
    k := from;
    while k < |slots| && slots[k] != 0
      invariant from <= k <= |slots| && forall j :: from <= j < k ==> slots[j] != 0
    {
      k := k + 1;
    }
  }

  /** Are all entries of an index container in use and full (`isfull`)? */
  method IsFullContainer(b: Container) returns (full: bool)
    requires b.Index?
    ensures full == IsFull(b)
  {
    var i := 0;
    while i < |b.refs| && b.refs[i].block != 0 && b.refs[i].full
      invariant i <= |b.refs| && forall j :: 0 <= j < i ==> b.refs[j].block != 0 && b.refs[j].full
    {
      i := i + 1;
    }
    full := i == |b.refs|;
  }

  method FirstOpen(refs: seq<Ref>) returns (i: nat)
    ensures i <= |refs| && (i < |refs| ==> Open(refs[i]))
    ensures forall j :: 0 <= j < i ==> !Open(refs[j])
  {
    i := 0;
    while i < |refs| && !Open(refs[i])
      invariant i <= |refs| && forall j :: 0 <= j < i ==> !Open(refs[j])
    {
      i := i + 1;
    }
  }

  /** First entry that refers to nothing, or to something if `used`. */
  method FirstEntry(refs: seq<Ref>, used: bool) returns (i: nat)
    ensures i <= |refs| && (i < |refs| ==> ((refs[i].block != 0) <==> used))
    ensures forall j :: 0 <= j < i ==> ((refs[j].block != 0) <==> !used)
  {
    i := 0;
    while i < |refs| && (refs[i].block != 0) != used
      invariant i <= |refs| && forall j :: 0 <= j < i ==> ((refs[j].block != 0) <==> !used)
    {
      i := i + 1;
    }
  }

  /** Number of unused nodes. */
  function Unused(slots: seq<nat>): nat {
    if slots == [] then 0 else Unused(slots[..|slots| - 1]) + if slots[|slots| - 1] == 0 then 1 else 0
  }

  lemma {:induction false} UnusedMeans(slots: seq<nat>)
    ensures Unused(slots) <= |slots|
    ensures Unused(slots) == 0 <==> forall k :: 0 <= k < |slots| ==> slots[k] != 0
    ensures Unused(slots) == |slots| <==> forall k :: 0 <= k < |slots| ==> slots[k] == 0
  {
    if slots != [] {
      var s := slots[..|slots| - 1];
      UnusedMeans(s);
      assert forall k :: 0 <= k < |s| ==> slots[k] == s[k];
      assert (forall k :: 0 <= k < |slots| ==> slots[k] != 0) ==> forall k :: 0 <= k < |s| ==> s[k] != 0;
      assert (forall k :: 0 <= k < |slots| ==> slots[k] == 0) ==> forall k :: 0 <= k < |s| ==> s[k] == 0;
    }
  }

  lemma {:induction false} UnusedMore(slots: seq<nat>, k: nat)
    requires k < |slots| && slots[k] != 0
    ensures Unused(slots[k := 0]) == Unused(slots) + 1
  {
    var n := |slots| - 1;
    if k < n {
      assert slots[k := 0][..n] == slots[..n][k := 0];
      UnusedMore(slots[..n], k);
    } else {
      assert slots[k := 0][..n] == slots[..n];
    }
  }

  method CountUnused(slots: seq<nat>) returns (empty: nat)
    ensures empty == Unused(slots)
  {
    empty := 0;
    for k := 0 to |slots|
      invariant empty == Unused(slots[..k])
    {
      assert slots[..k + 1][..k] == slots[..k];
      if slots[k] == 0 { empty := empty + 1; }
    }
    assert slots[..|slots|] == slots;
  }

  // ----- The way from the root

  /** The container of level l that number n leads to from container c, 0 if there is none. */
  ghost function Walk(t: Tree, c: nat, n: nat, l: nat): nat
    requires Wf(t) && c in t.blocks
    decreases t.level[c]
  {
    ShapedAt(t, c);
    if t.level[c] <= l then c
    else if !InRange(t, c, n) then 0
    else
      EntryInside(t, c, n);
      var i := EntryOf(t.blocks[c], n);
      if t.blocks[c].refs[i].block == 0 then 0
      else
        ChildAt(t, c, i);
        Walk(t, Child(t, c, i), n, l)
  }

  lemma WalkStep(t: Tree, c: nat, n: nat, l: nat)
    requires Wf(t) && c in t.blocks
    ensures c in t.level && (t.level[c] <= l ==> Walk(t, c, n, l) == c)
    ensures t.level[c] > l && Walk(t, c, n, l) != 0 ==>
      && t.blocks[c].Index? && InRange(t, c, n) && t.blocks[c].nodes > 0
      && Refers(t, c, EntryOf(t.blocks[c], n))
      && Walk(t, c, n, l) == Walk(t, Child(t, c, EntryOf(t.blocks[c], n)), n, l)
    ensures t.level[c] > l && InRange(t, c, n) && t.blocks[c].Index? ==>
      && t.blocks[c].nodes > 0
      && (Refers(t, c, EntryOf(t.blocks[c], n)) ==>
            Child(t, c, EntryOf(t.blocks[c], n)) in t.blocks
            && Walk(t, c, n, l) == Walk(t, Child(t, c, EntryOf(t.blocks[c], n)), n, l))
  {
    ShapedAt(t, c);
    if InRange(t, c, n) && t.blocks[c].Index? { EntryInside(t, c, n); }
  }

  /** From the root a number leads to every container that it is under. */
  lemma {:induction false} WalkReaches(t: Tree, c: nat, n: nat, l: nat)
    requires Wf(t) && c in t.blocks && c in t.level && InRange(t, c, n) && l <= t.level[c]
    ensures t.root in t.blocks && Walk(t, t.root, n, l) == Walk(t, c, n, l)
    decreases if t.root in t.level && t.level[c] <= t.level[t.root] then t.level[t.root] - t.level[c] else 0
  {
    hide Wf, Walk, Span, EntryOf;
    TopAt(t);
    if c != t.root {
      UpAt(t, c);
      var p, i := t.up[c].0, t.up[c].1;
      ChildRange(t, p, i, n);
      WalkStep(t, p, n, l);
      LevelBelow(t, p);
      WalkReaches(t, p, n, l);
    }
  }

  lemma OwnNumber(t: Tree, c: nat)
    requires Wf(t) && c in t.blocks
    ensures c in t.level && InRange(t, c, t.blocks[c].first) && c != 0
    ensures t.root in t.blocks && Walk(t, t.root, t.blocks[c].first, t.level[c]) == c
  {
    hide Wf, Walk, Span;
    ShapedAt(t, c);
    TopAt(t);
    SpanGrows(t.m, t.fan, t.level[c]);
    WalkReaches(t, c, t.blocks[c].first, t.level[c]);
    WalkStep(t, c, t.blocks[c].first, t.level[c]);
  }

  /** A container that is not empty has a node in use under it. */
  lemma {:induction false} UsedBelow(t: Tree, c: nat) returns (n: nat)
    requires Wf(t) && NoBits(t) && Sparse(t, 0) && c in t.blocks && !IsEmpty(t.blocks[c])
    ensures c in t.level && InRange(t, c, n) && Lookup(t, c, n) != 0
    decreases if c in t.level then t.level[c] else 0
  {
    hide Wf, Lookup, Span, EntryOf;
    ShapedAt(t, c);
    if t.blocks[c].Leaf? {
      var k: nat :| k < |t.blocks[c].slots| && t.blocks[c].slots[k] != 0;
      n := t.blocks[c].first + k;
      LookupLeaf(t, c, n);
      LookupOutside(t, c, n);
    } else {
      var i: nat :| i < |t.blocks[c].refs| && t.blocks[c].refs[i] != NONE;
      assert Refers(t, c, i);
      ChildAt(t, c, i);
      ShapedAt(t, Child(t, c, i));
      n := UsedBelow(t, Child(t, c, i));
      ChildRange(t, c, i, n);
      LookupStep(t, c, n);
    }
  }

  // ----- The tree

  /** The same tree with other full-bits. */
  ghost predicate OnlyBits(t: Tree, t': Tree) {
    && t'.root == t.root && t'.m == t.m && t'.fan == t.fan && t'.level == t.level && t'.up == t.up
        && t'.blocks.Keys == t.blocks.Keys
    && forall c :: c in t.blocks ==> SameWay(t.blocks[c], t'.blocks[c]) && SameNodes(t.blocks[c], t'.blocks[c], -1)
  }

  /** All nodes are as before. */
  ghost predicate SameContents(t: Tree, t': Tree) {
    Wf(t) && Wf(t') && forall n: nat :: Node(t', n) == Node(t, n)
  }

  lemma SameTrans(a: Tree, b: Tree, c: Tree)
    requires SameContents(a, b) && SameContents(b, c)
    ensures SameContents(a, c)
  {
    forall n: nat ensures Node(c, n) == Node(a, n) {
      assert Node(b, n) == Node(a, n);
    }
  }

  lemma OnlyBitsTrans(a: Tree, b: Tree, c: Tree)
    requires OnlyBits(a, b) && OnlyBits(b, c)
    ensures OnlyBits(a, c)
  {
    forall e | e in a.blocks ensures SameWay(a.blocks[e], c.blocks[e]) && SameNodes(a.blocks[e], c.blocks[e], -1) {
      assert SameWay(a.blocks[e], b.blocks[e]) && SameWay(b.blocks[e], c.blocks[e]);
    }
  }

  lemma OnlyBitsSparse(t: Tree, t': Tree, x: nat)
    requires OnlyBits(t, t') && NoBits(t) && Sparse(t, x)
    ensures Sparse(t', x)
  {
    forall c | c in t'.blocks && c != t.root && c != x ensures !IsEmpty(t'.blocks[c]) {
      var a, b := t.blocks[c], t'.blocks[c];
      assert SameWay(a, b) && SameNodes(a, b, -1);
      if a.Leaf? {
        var k :| 0 <= k < |a.slots| && a.slots[k] != 0;
        assert b.slots[k] != 0;
      } else {
        var i: nat :| i < |a.refs| && a.refs[i] != NONE;
        assert Refers(t, c, i);
        assert b.refs[i] != NONE;
      }
    }
  }

  class NodeTree {
    const root: nat
    /** The first node number. */
    const base: nat
    /** Nodes in a leaf container and references in any other. */
    const m: nat
    const fan: nat
    var blocks: map<nat, Container>
    ghost var level: map<nat, nat>
    ghost var up: map<nat, (nat, nat)>

    ghost function T(): Tree
      reads this
    {
      Tree(root, base, m, fan, blocks, level, up)
    }

    /** A new tree is a single leaf with the given nodes. */
    constructor (root: nat, base: nat, fan: nat, slots: seq<nat>)
      requires root != 0 && fan >= 2 && |slots| >= 2
      ensures NodeShape.Valid(T()) && this.root == root && this.base == base && m == |slots| && this.fan == fan
      ensures forall n: nat :: Node(T(), n) == if base <= n < base + |slots| then slots[n - base] else 0
    {
      this.root, this.base, this.m, this.fan := root, base, |slots|, fan;
      blocks := map[root := Leaf(base, slots)];
      level, up := map[root := 0], map[];
      new;
      forall n: nat ensures Node(T(), n) == if base <= n < base + |slots| then slots[n - base] else 0 {
        LookupLeaf(T(), root, n);
      }
    }

    /** Finds the container that refers to container c, and the entry; there is none for the root
        (`parentnodecontainer`). */
    method ParentNodeContainer(c: nat) returns (p: nat, i: nat, found: bool)
      requires Wf(T()) && c in blocks
      ensures found <==> c != root
      ensures found ==> Refers(T(), p, i) && Child(T(), p, i) == c && c in up && up[c] == (p, i)
    {
      hide Wf, Walk, EntryOf;
      ghost var t := T();
      TopAt(t);
      OwnNumber(t, c);
      var nodenumber := blocks[c].first;
      p, i, found := 0, 0, false;
      var at := root;
      while at != c
        invariant at in t.blocks && at in level && Walk(t, at, nodenumber, level[c]) == c
        invariant found <==> at != root
        invariant found ==> Refers(t, p, i) && Child(t, p, i) == at
        decreases level[at]
      {
        WalkStep(t, at, nodenumber, level[c]);
        var nc := blocks[at];
        p, i, found := at, EntryOf(nc, nodenumber), true;
        ChildAt(t, p, i);
        at := nc.refs[i].block;
      }
      if found { ChildAt(t, p, i); }
    }

    /** Finds a node by its number (`findnode`). */
    method FindNode(n: nat) returns (c: nat, k: nat, found: bool)
      requires Wf(T()) && root in level && InRange(T(), root, n)
      ensures found ==> c in blocks && blocks[c].Leaf? && k < |blocks[c].slots| && blocks[c].first + k == n
      ensures found ==> blocks[c].slots[k] == Node(T(), n)
      ensures !found ==> Node(T(), n) == 0
    {
      hide Wf, Lookup, EntryOf, Span;
      ghost var t := T();
      TopAt(t);
      c, k := root, 0;
      while true
        invariant c in t.blocks && c in level && InRange(t, c, n) && Lookup(t, c, n) == Node(t, n)
        decreases level[c]
      {
        var nc := blocks[c];
        ShapedAt(t, c);
        if nc.Leaf? {
          LookupLeaf(t, c, n);
          LeafRange(t, c, n);
          k := n - nc.first;
          return c, k, true;
        }
        LookupStep(t, c, n);
        var i := EntryOf(nc, n);
        if nc.refs[i].block == 0 {
          return 0, 0, false;
        }
        ChildAt(t, c, i);
        ChildRange(t, c, i, n);
        c := nc.refs[i].block;
      }
    }

    // ----- Full-bits

    /** Container c has become full: its bit is set, and those of the containers above that become
        full with it (`markparentfull`). */
    method MarkParentFull(c: nat)
      requires Wf(T()) && BitsOk(T(), c) && NoBits(T()) && c in blocks && IsFull(blocks[c])
      modifies `blocks
      ensures SameContents(old(T()), T()) && OnlyBits(old(T()), T())
      ensures BitsOk(T(), 0) && NoBits(T())
      decreases if root in level && c in level && level[c] <= level[root] then level[root] - level[c] else 0
    {
      hide Wf, BitsOk, Lookup, Span;
      ghost var t := T();
      var p, i, found := ParentNodeContainer(c);
      if found {
        var nc := blocks[p];
        BitAt(t, c, p, i);
        ChildAt(t, p, i);
        FlipBit(t, c, p, i, true);
        LevelBelow(t, c);
        LevelBelow(t, p);
        blocks := blocks[p := Put(nc, i, Ref(nc.refs[i].block, true))];
        ghost var t' := T();
        var full := IsFullContainer(blocks[p]);
        if full {
          MarkParentFull(p);
          SameTrans(t, t', T());
          OnlyBitsTrans(t, t', T());
        }
      } else {
        BitOfRoot(t);
      }
    }

    /** Container c was full and is no more: its bit is cleared, and those of the containers above
        that were full (`markparentempty`). */
    method MarkParentEmpty(c: nat)
      requires Wf(T()) && BitsOk(T(), c) && NoBits(T()) && c in blocks && !IsFull(blocks[c])
      modifies `blocks
      ensures SameContents(old(T()), T()) && OnlyBits(old(T()), T())
      ensures BitsOk(T(), 0) && NoBits(T())
      decreases if root in level && c in level && level[c] <= level[root] then level[root] - level[c] else 0
    {
      hide Wf, BitsOk, Lookup, Span;
      ghost var t := T();
      var p, i, found := ParentNodeContainer(c);
      if found {
        var nc := blocks[p];
        BitAt(t, c, p, i);
        ChildAt(t, p, i);
        var wasfull := IsFullContainer(nc);
        FlipBit(t, c, p, i, false);
        LevelBelow(t, c);
        LevelBelow(t, p);
        blocks := blocks[p := Put(nc, i, Ref(nc.refs[i].block, false))];
        ghost var t' := T();
        if wasfull {
          MarkParentEmpty(p);
          SameTrans(t, t', T());
          OnlyBitsTrans(t, t', T());
        }
      } else {
        BitOfRoot(t);
      }
    }

    // ----- Containers that come and go

    /** Container c has become empty: it is freed, and so are the containers above that become empty
        with it; the root stays (`freecontainer`). */
    method FreeContainer(c: nat)
      requires Wf(T()) && BitsOk(T(), 0) && NoBits(T()) && Sparse(T(), c) && c in blocks && IsEmpty(blocks[c])
      modifies `blocks, `level, `up
      ensures NodeShape.Valid(T()) && SameContents(old(T()), T())
      ensures Freed(old(T()), T())
      decreases if root in level && c in level && level[c] <= level[root] then level[root] - level[c] else 0
    {
      hide Wf, BitsOk, Lookup, Span, Removed;
      ghost var t := T();
      FreedNothing(t);
      var p, i, found := ParentNodeContainer(c);
      if found {
        RemovedBits(t, p, i, c);
        RemovedNodes(t, p, i, c);
        RemovedFreed(t, p, i, c);
        RemovedSparse(t, p, i, c);
        LevelBelow(t, c);
        LevelBelow(t, p);
        ChildAt(t, p, i);
        RemovedIs(t, p, i, c);
        blocks := blocks[p := Put(blocks[p], i, NONE)] - {c};
        level, up := level - {c}, up - {c};
        ghost var t' := T();
        assert t' == Removed(t, p, i, c);
        var j := FirstEntry(blocks[p].refs, true);
        if j == |blocks[p].refs| {
          NoneLeft(t', p);
          FreeContainer(p);
          SameTrans(t, t', T());
          FreedTrans(t, t', T());
        } else {
          assert blocks[p].refs[j] != NONE;
        }
      }
    }

    /** The root is full: what it holds moves to a new container, and the root becomes an index
        container above that one (`addnewnodelevel`). */
    method AddNewNodeLevel()
      requires NodeShape.Valid(T()) && root in blocks && IsFull(blocks[root])
      modifies `blocks, `level, `up
      ensures NodeShape.Valid(T()) && SameContents(old(T()), T())
      ensures root in blocks && !IsFull(blocks[root]) && root in level && blocks[root].Index?
      ensures NextNumber(T(), root) == NextNumber(old(T()), root)
    {
      hide Wf, BitsOk, NoBits, Sparse, SameContents, Lookup, Span, Grown, NextNumber;
      ghost var t := T();
      TopAt(t);
      ShapedAt(t, root);
      SpanGrows(m, fan, level[root]);
      var nc := blocks[root];
      var newblock := BTree.FreshBlock(blocks.Keys);
      var nodes := if nc.Leaf? then m else nc.nodes * fan;
      TopSpan(t);
      var top := Index(nc.first, nodes, [Ref(newblock, true)] + seq(fan - 1, _ => NONE));
      GrownAll(t, newblock, top);
      GrownIs(t, newblock, top);
      blocks := blocks[newblock := nc][root := top];
      up := (map x | x in up :: if up[x].0 == root then (newblock, up[x].1) else up[x])[newblock := (root, 0)];
      level := level[newblock := level[root]][root := level[root] + 1];
      assert T() == Grown(t, newblock, top);
      NextGrown(t, T(), newblock);
    }

    /** A new container under entry i of container c (`createnodecontainer`). */
    method CreateNodeContainer(c: nat, i: nat) returns (newblock: nat)
      requires Wf(T()) && BitsOk(T(), 0) && NoBits(T()) && Sparse(T(), c)
      requires c in blocks && blocks[c].Index? && i < |blocks[c].refs| && blocks[c].refs[i] == NONE
      modifies `blocks, `level, `up
      ensures Wf(T()) && BitsOk(T(), 0) && NoBits(T()) && Sparse(T(), newblock) && SameContents(old(T()), T())
      ensures c in blocks && blocks[c] == Put(old(blocks)[c], i, Ref(newblock, false)) && newblock in blocks
      ensures newblock != 0 && newblock != root && IsEmpty(blocks[newblock])
      ensures blocks[newblock].first == old(blocks)[c].first + i * old(blocks)[c].nodes
      ensures forall e :: e in old(blocks) && e != c ==> e in blocks && blocks[e] == old(blocks)[e]
      ensures forall e :: e in old(level) ==> e in level && level[e] == old(level)[e]
    {
      hide Wf, BitsOk, NoBits, Sparse, SameContents, Lookup, Span, Added;
      ghost var t := T();
      TopAt(t);
      var nc := blocks[c];
      ShapedAt(t, c);
      var nodes := if nc.nodes == m then 1 else nc.nodes / fan;
      newblock := BTree.FreshBlock(blocks.Keys);
      var e := Fresh(m, fan, nc.first + i * nc.nodes, nodes);
      FreshSized(t, c, nodes, e.first);
      AddedAll(t, c, i, newblock, e);
      AddedIs(t, c, i, newblock, e);
      blocks := blocks[c := Put(nc, i, Ref(newblock, false))][newblock := e];
      up := up[newblock := (c, i)];
      level := level[newblock := level[c] - 1];
      assert T() == Added(t, c, i, newblock, e);
    }

    // ----- Nodes

    /** Takes an unused node, whose number is returned with the place it is in, and stores data in it
        (`createnode`, and what its callers do with the node). */
    method CreateNode(data: nat) returns (c: nat, k: nat, n: nat)
      requires NodeShape.Valid(T()) && data != 0
      modifies `blocks, `level, `up
      ensures NodeShape.Valid(T())
      ensures c in blocks && blocks[c].Leaf? && k < |blocks[c].slots| && n == blocks[c].first + k
      ensures Node(old(T()), n) == 0 && Node(T(), n) == data
      ensures forall q: nat :: q != n ==> Node(T(), q) == Node(old(T()), q)
      ensures root in old(blocks) && n == NextNumber(old(T()), root)
    {
      hide Wf, BitsOk, Lookup, Span, NextNumber;
      ghost var start := T();
      TopAt(start);
      c := root;
      ghost var x := 0;
      while true
        invariant Wf(T()) && BitsOk(T(), 0) && NoBits(T()) && Sparse(T(), x) && SameContents(start, T())
        invariant root in blocks && c in blocks && c in level && (IsFull(blocks[c]) ==> c == root)
        invariant x == 0 || x == c || OnlyOpen(blocks[c], x)
        invariant NextNumber(T(), c) == NextNumber(start, root)
        decreases if IsFull(blocks[root]) then 1 else 0, level[c], if HasOpen(blocks[c]) then 0 else 1
      {
        ghost var t := T();
        var nc := blocks[c];
        ShapedAt(t, c);
        if nc.Leaf? {
          k := FirstUnused(nc.slots, 0);
          if k < |nc.slots| {
            AlsoSparse(t, x, c);
            NextLeaf(t, c, k);
            n := UseSlot(c, k, data, start);
            return;
          }
          assert IsFull(nc);
          AddNewNodeLevel();
          SameTrans(start, t, T());
          TopAt(T());
          c := root;
        } else {
          var i := FirstOpen(nc.refs);
          if i < |nc.refs| {
            assert Refers(t, c, i);
            BitAt(t, 0, c, i);
            ChildAt(t, c, i);
            OpenIsOnly(nc, x, i);
            NextBelow(t, c, i);
            if x == c {
              NotEmpty(t, c, i);
              x := 0;
            }
            c := nc.refs[i].block;
          } else {
            i := FirstEntry(nc.refs, false);
            if i < |nc.refs| {
              NoReference(t, c, i);
              AlsoSparse(t, x, c);
              var newblock := CreateNodeContainer(c, i);
              NextAdded(t, c, i, T(), newblock);
              SameTrans(start, t, T());
              NewIsOnly(nc, i, newblock);
              RootStillOpen(t, T(), c, i, newblock);
              TopAt(T());
              x := newblock;
            } else {
              assert IsFull(nc);
              AddNewNodeLevel();
              SameTrans(start, t, T());
              TopAt(T());
              c, x := root, 0;
            }
          }
        }
      }
    }

    /** The part of `createnode` that deals with the leaf found: stores in the unused node k, and
        marks the leaf if no other node in it is unused. */
    method UseSlot(c: nat, k: nat, data: nat, ghost start: Tree) returns (n: nat)
      requires Wf(T()) && BitsOk(T(), 0) && NoBits(T()) && Sparse(T(), c) && SameContents(start, T()) && data != 0
      requires c in blocks && blocks[c].Leaf? && k < |blocks[c].slots| && blocks[c].slots[k] == 0
      requires forall j :: 0 <= j < k ==> blocks[c].slots[j] != 0
      modifies `blocks
      ensures NodeShape.Valid(T())
      ensures c in blocks && blocks[c].Leaf? && k < |blocks[c].slots|
      ensures n == blocks[c].first + k == old(blocks)[c].first + k
      ensures Node(start, n) == 0 && Node(T(), n) == data
      ensures forall q: nat :: q != n ==> Node(T(), q) == Node(start, q)
    {
      hide Wf, BitsOk, Lookup, Span;
      ghost var t := T();
      var nc := blocks[c];
      n := nc.first + k;
      var b := nc.(slots := nc.slots[k := data]);
      SlotSet(t, c, k, data);
      BitsAfter(t, c, b, 0);
      blocks := blocks[c := b];
      ghost var t' := T();
      assert t' == With(t, c, b);
      assert !IsEmpty(b) by { assert b.slots[k] != 0; }
      assert Sparse(t', 0);
      WithNoBits(t, c, b);
      assert !IsFull(nc) by { assert nc.slots[k] == 0; }
      var j := FirstUnused(b.slots, k + 1);
      if j == |b.slots| {
        assert IsFull(b);
        MarkParentFull(c);
        OnlyBitsSparse(t', T(), 0);
        SameLeaf(t', T(), c);
      } else {
        assert !IsFull(b) by { assert b.slots[j] == 0; }
      }
    }

    /** Deletes node k of leaf c (`deletenode`). */
    method DeleteNode(c: nat, k: nat)
      requires NodeShape.Valid(T()) && c in blocks && blocks[c].Leaf? && k < |blocks[c].slots|
      requires blocks[c].slots[k] != 0
      modifies `blocks, `level, `up
      ensures NodeShape.Valid(T())
      ensures var n := old(blocks)[c].first + k; Node(T(), n) == 0 && forall q: nat ::
          q != n ==> Node(T(), q) == Node(old(T()), q)
      ensures Freed(With(old(T()), c, old(blocks)[c].(slots := old(blocks)[c].slots[k := 0])), T())
    {
      hide Wf, BitsOk, NoBits, IsFull, IsEmpty, Freed, Lookup, Span;
      ghost var t := T();
      var nc := blocks[c];
      var b := nc.(slots := nc.slots[k := 0]);
      SlotCleared(t, c, k);
      blocks := blocks[c := b];
      ghost var t' := T();
      assert t' == With(t, c, b);
      var empty := CountUnused(b.slots);
      if empty == 1 {
        MarkParentEmpty(c);
        OnlyBitsSparse(t', T(), 0);
        OnlyBitsFreed(t', T());
      } else if empty == |b.slots| {
        FreeContainer(c);
      }
    }
  }

  // ----- Facts about single steps

  /** Containers of t that t' lacks had nothing in use under them, and none was added. */
  ghost predicate Freed(t: Tree, t': Tree) {
    && Wf(t) && t'.blocks.Keys <= t.blocks.Keys && t'.root == t.root
    && (forall d :: d in t'.blocks ==> t'.blocks[d].first == t.blocks[d].first)
    && t'.m == t.m && t'.fan == t.fan && (forall d :: d in t'.level ==> d in t.level && t'.level[d] == t.level[d])
    && forall d, n: nat :: (d in t.blocks && d !in t'.blocks && d in t.level && InRange(t, d, n)) ==> Node(t, n) == 0
  }

  lemma FreedNothing(t: Tree)
    requires Wf(t)
    ensures Freed(t, t)
  {
  }

  lemma OnlyBitsFreed(t: Tree, t': Tree)
    requires Wf(t) && OnlyBits(t, t')
    ensures Freed(t, t')
  {
    forall d | d in t'.blocks ensures t'.blocks[d].first == t.blocks[d].first {
      assert SameWay(t.blocks[d], t'.blocks[d]);
    }
  }

  lemma FreedTrans(a: Tree, b: Tree, c: Tree)
    requires Freed(a, b) && Freed(b, c) && SameContents(a, b)
    ensures Freed(a, c)
  {
    hide Wf;
    forall d, n: nat | d in a.blocks && d !in c.blocks && d in a.level && InRange(a, d, n) ensures Node(a, n) == 0 {
      if d in b.blocks {
        ShapedAt(b, d);
        assert InRange(b, d, n);
        assert Node(b, n) == 0;
      }
    }
  }

  lemma RemovedFreed(t: Tree, c: nat, i: nat, d: nat)
    requires Wf(t) && Refers(t, c, i) && Child(t, c, i) == d && d in t.blocks && IsEmpty(t.blocks[d])
    ensures Freed(t, Removed(t, c, i, d))
  {
    hide Wf, Lookup, Span;
    ChildAt(t, c, i);
    forall n: nat | d in t.level && InRange(t, d, n) ensures Node(t, n) == 0 {
      Reaches(t, d, n);
      EmptyLeads(t, d, n);
    }
  }

  lemma RemovedSparse(t: Tree, c: nat, i: nat, d: nat)
    requires Wf(t) && Refers(t, c, i) && Child(t, c, i) == d && d in t.blocks && IsEmpty(t.blocks[d]) && Sparse(t, d)
    ensures c in Removed(t, c, i, d).blocks && Sparse(Removed(t, c, i, d), c)
  {
    RemovedWf(t, c, i, d);
  }

  lemma RemovedIs(t: Tree, c: nat, i: nat, d: nat)
    requires Refers(t, c, i)
    ensures Removed(t, c, i, d) ==
      Tree(t.root, t.base, t.m, t.fan, t.blocks[c := Put(t.blocks[c], i, NONE)] - {d}, t.level - {d}, t.up - {d})
  {
  }

  lemma NoneLeft(t: Tree, c: nat)
    requires NoBits(t) && c in t.blocks && t.blocks[c].Index?
    requires forall j :: 0 <= j < |t.blocks[c].refs| ==> t.blocks[c].refs[j].block == 0
    ensures IsEmpty(t.blocks[c])
  {
    forall j: nat | j < |t.blocks[c].refs| ensures t.blocks[c].refs[j] == NONE {
      assert !Refers(t, c, j);
    }
  }

  lemma NoReference(t: Tree, c: nat, i: nat)
    requires NoBits(t) && c in t.blocks && t.blocks[c].Index? && i < |t.blocks[c].refs|
    requires t.blocks[c].refs[i].block == 0
    ensures t.blocks[c].refs[i] == NONE
  {
    assert !Refers(t, c, i);
  }

  /** The number of nodes under an entry of a new root. */
  lemma TopSpan(t: Tree)
    requires Wf(t) && t.root in t.blocks && t.root in t.level
    ensures t.blocks[t.root].Leaf? ==> Span(t.m, t.fan, t.level[t.root]) == t.m
    ensures t.blocks[t.root].Index? ==> Span(t.m, t.fan, t.level[t.root]) == t.blocks[t.root].nodes * t.fan
  {
    assert Shaped(t, t.root);
  }

  lemma GrownSparse(t: Tree, d: nat, e: Container)
    requires Growable(t, d, e) && Sparse(t, 0)
    ensures Sparse(Grown(t, d, e), 0)
  {
    ShapedAt(t, t.root);
    NotBoth(t.m, t.fan, t.blocks[t.root], t.level[t.root]);
  }

  lemma GrownAll(t: Tree, d: nat, e: Container)
    requires Growable(t, d, e) && NodeShape.Valid(t)
    ensures NodeShape.Valid(Grown(t, d, e)) && SameContents(t, Grown(t, d, e)) && !IsFull(e)
  {
    hide Wf, BitsOk, NoBits, Sparse, Lookup, Span;
    GrownNodes(t, d, e);
    GrownBits(t, d, e);
    GrownSparse(t, d, e);
  }

  lemma GrownIs(t: Tree, d: nat, e: Container)
    requires t.root in t.blocks && t.root in t.level
    ensures Grown(t, d, e) ==
      Tree(t.root, t.base, t.m, t.fan, t.blocks[d := t.blocks[t.root]][t.root := e],
           t.level[d := t.level[t.root]][t.root := t.level[t.root] + 1],
           (map x | x in t.up :: if t.up[x].0 == t.root then (d, t.up[x].1) else t.up[x])[d := (t.root, 0)])
  {
  }

  /** A new container is right for its level. */
  lemma FreshSized(t: Tree, c: nat, nodes: nat, first: nat)
    requires Wf(t) && c in t.blocks && t.blocks[c].Index? && t.fan > 0
    requires nodes == if t.blocks[c].nodes == t.m then 1 else t.blocks[c].nodes / t.fan
    ensures c in t.level && t.level[c] > 0 && Sized(t.m, t.fan, Fresh(t.m, t.fan, first, nodes), t.level[c] - 1)
    ensures IsEmpty(Fresh(t.m, t.fan, first, nodes)) && Fresh(t.m, t.fan, first, nodes).first == first
  {
    TopAt(t);
    ShapedAt(t, c);
    var l := t.level[c] - 1;
    if l > 0 {
      SpanGrows(t.m, t.fan, l - 1);
      SpanAtLeast(t.m, t.fan, l - 1);
      Ranges.DivideAt(Span(t.m, t.fan, l), t.fan, Span(t.m, t.fan, l - 1));
    }
  }

  lemma SpanAtLeast(m: nat, fan: nat, l: nat)
    requires m >= 2 && fan >= 2
    ensures Span(m, fan, l) >= m
  {
    if l > 0 {
      SpanAtLeast(m, fan, l - 1);
      SpanGrows(m, fan, l - 1);
    }
  }

  lemma AddedSparse(t: Tree, c: nat, i: nat, d: nat, e: Container)
    requires Addable(t, c, i, d, e) && Sparse(t, c)
    ensures Sparse(Added(t, c, i, d, e), d)
  {
    var b := Added(t, c, i, d, e).blocks[c];
    assert b.refs[i] != NONE;
  }

  lemma AddedAll(t: Tree, c: nat, i: nat, d: nat, e: Container)
    requires Addable(t, c, i, d, e) && BitsOk(t, 0) && NoBits(t) && Sparse(t, c)
    ensures Wf(Added(t, c, i, d, e)) && BitsOk(Added(t, c, i, d, e), 0) && NoBits(Added(t, c, i, d, e))
    ensures Sparse(Added(t, c, i, d, e), d) && SameContents(t, Added(t, c, i, d, e))
  {
    hide Wf, BitsOk, NoBits, Sparse, Lookup, Span, Added;
    AddedNodes(t, c, i, d, e);
    AddedBits(t, c, i, d, e);
    AddedSparse(t, c, i, d, e);
    SameNodesAll(t, Added(t, c, i, d, e));
  }

  lemma SameNodesAll(t: Tree, t': Tree)
    requires Wf(t) && Wf(t') && forall n: nat :: Node(t', n) == Node(t, n)
    ensures SameContents(t, t')
  {
  }

  lemma AddedIs(t: Tree, c: nat, i: nat, d: nat, e: Container)
    requires Addable(t, c, i, d, e)
    ensures Added(t, c, i, d, e) ==
      Tree(t.root, t.base, t.m, t.fan, t.blocks[c := Put(t.blocks[c], i, Ref(d, false))][d := e],
        t.level[d := t.level[c] - 1], t.up[d := (c, i)])
  {
  }

  lemma WithNoBits(t: Tree, c: nat, b: Container)
    requires NoBits(t) && c in t.blocks && t.blocks[c].Leaf? && b.Leaf?
    ensures NoBits(With(t, c, b))
  {
    forall e, i: nat | e in With(t, c, b).blocks && With(t, c, b).blocks[e].Index? && i < |With(t, c, b).blocks[e].refs|
      && !Refers(With(t, c, b), e, i)
      ensures With(t, c, b).blocks[e].refs[i] == NONE
    {
      assert !Refers(t, e, i);
    }
  }

  /** A node in use is cleared: what the number of unused nodes then says. */
  lemma SlotCleared(t: Tree, c: nat, k: nat)
    requires NodeShape.Valid(t) && c in t.blocks && t.blocks[c].Leaf? && k < |t.blocks[c].slots|
    requires t.blocks[c].slots[k] != 0
    ensures var nc := t.blocks[c];
      var b := nc.(slots := nc.slots[k := 0]);
      var t' := With(t, c, b);
      && Wf(t') && NoBits(t') && Sparse(t', c) && Freed(t', t') && !IsFull(b) && |b.slots| >= 2
      && Node(t', nc.first + k) == 0 && (forall q: nat :: q != nc.first + k ==> Node(t', q) == Node(t, q))
      && (if Unused(b.slots) == 1 then BitsOk(t', c) && !IsEmpty(b) && Sparse(t', 0) else BitsOk(t', 0))
      && (Unused(b.slots) == |b.slots| ==> IsEmpty(b)) && (Unused(b.slots) != |b.slots| ==> Sparse(t', 0))
  {
    hide Wf, BitsOk, Freed, Lookup, Span;
    var nc := t.blocks[c];
    var b := nc.(slots := nc.slots[k := 0]);
    SlotSet(t, c, k, 0);
    BitsAfter(t, c, b, 0);
    UnusedMore(nc.slots, k);
    UnusedMeans(nc.slots);
    UnusedMeans(b.slots);
    WithNoBits(t, c, b);
    AlsoSparse(t, 0, c);
    var t' := With(t, c, b);
    ShapedAt(t', c);
    TopAt(t');
    FreedNothing(t');
    assert !IsFull(b) by { assert b.slots[k] == 0; }
  }

  lemma SameLeaf(t: Tree, t': Tree, c: nat)
    requires OnlyBits(t, t') && c in t.blocks && t.blocks[c].Leaf?
    ensures c in t'.blocks && t'.blocks[c] == t.blocks[c]
  {
    assert SameWay(t.blocks[c], t'.blocks[c]) && SameNodes(t.blocks[c], t'.blocks[c], -1);
  }

  // ----- The search for an unused node

  ghost predicate HasOpen(b: Container) {
    b.Index? && exists i :: 0 <= i < |b.refs| && Open(b.refs[i])
  }

  /** The only container with room under b is x. */
  ghost predicate OnlyOpen(b: Container, x: nat) {
    && b.Index? && (forall i :: 0 <= i < |b.refs| && Open(b.refs[i]) ==> b.refs[i].block == x)
    && HasOpen(b)
  }

  lemma OpenIsOnly(b: Container, x: nat, i: nat)
    requires b.Index? && i < |b.refs| && Open(b.refs[i])
    ensures OnlyOpen(b, x) ==> b.refs[i].block == x
  {
  }

  lemma AlsoSparse(t: Tree, x: nat, c: nat)
    requires Wf(t) && Sparse(t, x) && (x == 0 || x == c)
    ensures Sparse(t, c)
  {
  }

  lemma NotEmpty(t: Tree, c: nat, i: nat)
    requires Wf(t) && Sparse(t, c) && Refers(t, c, i)
    ensures Sparse(t, 0)
  {
    assert t.blocks[c].refs[i] != NONE;
  }

  lemma NewIsOnly(b: Container, i: nat, x: nat)
    requires b.Index? && i < |b.refs| && x != 0 && forall j :: 0 <= j < |b.refs| ==> !Open(b.refs[j])
    ensures OnlyOpen(Put(b, i, Ref(x, false)), x)
  {
    var b' := Put(b, i, Ref(x, false));
    assert Open(b'.refs[i]);
  }

  /** A container that has no room under its entry is not full as long as the entry is not. */
  lemma RootStillOpen(t: Tree, t': Tree, c: nat, i: nat, d: nat)
    requires c in t.blocks && t.blocks[c].Index? && i < |t.blocks[c].refs| && t.blocks[c].refs[i] == NONE
    requires c in t'.blocks && t'.blocks[c] == Put(t.blocks[c], i, Ref(d, false))
    requires forall e :: e in t.blocks && e != c ==> e in t'.blocks && t'.blocks[e] == t.blocks[e]
    ensures !IsFull(t.blocks[c]) && !IsFull(t'.blocks[c])
    ensures forall e :: e in t.blocks ==> e in t'.blocks && IsFull(t'.blocks[e]) == IsFull(t.blocks[e])
  {
    assert t.blocks[c].refs[i].block == 0 && !t'.blocks[c].refs[i].full;
  }

  lemma LeafRange(t: Tree, c: nat, n: nat)
    requires Wf(t) && c in t.blocks && c in t.level && t.blocks[c].Leaf?
    ensures InRange(t, c, n) <==> t.blocks[c].first <= n < t.blocks[c].first + |t.blocks[c].slots|
  {
    ShapedAt(t, c);
  }

  /** The wrong full-bit of c is put right. */
  lemma FlipBit(t: Tree, c: nat, p: nat, i: nat, full: bool)
    requires Wf(t) && BitsOk(t, c) && NoBits(t) && Refers(t, p, i) && Child(t, p, i) == c
    requires t.blocks[p].refs[i].full != full
    ensures var b := Put(t.blocks[p], i, Ref(c, full)); var t' := With(t, p, b);
      && SameContents(t, t') && OnlyBits(t, t') && NoBits(t')
      && BitsOk(t', if IsFull(b) != IsFull(t.blocks[p]) then p else 0)
      && (if full then !IsFull(t.blocks[p]) else !IsFull(b))
  {
    hide Wf, BitsOk, Lookup, Span;
    var b := Put(t.blocks[p], i, Ref(c, full));
    ChildAt(t, p, i);
    forall j: nat | Refers(t, p, j) ensures (b.refs[j].full == t.blocks[p].refs[j].full) <==> Child(t, p, j) != c {
      ChildAt(t, p, j);
    }
    assert SameWay(t.blocks[p], b);
    BitsAfter(t, p, b, c);
    BitsSet(t, p, b);
    WithWf(t, p, b);
    assert !t.blocks[p].refs[i].full ==> !IsFull(t.blocks[p]);
    assert !b.refs[i].full ==> !IsFull(b);
  }
}
