/** The tree of node containers of FS/nodes.c: its shape, what a node number leads to, and what the
    full-bits say. */
module NodeShape {
  import Ranges

  /** A BLCKn: the block of a child, 0 for none, and the full-bit next to it. */
  datatype Ref = Ref(block: nat, full: bool)

  const NONE: Ref := Ref(0, false)

  /** An fsNodeContainer.  A leaf (`nodes` is 1) holds nodes, of which 0 marks an unused one; any
      other container holds references to containers for `nodes` node numbers each. */
  datatype Container = Leaf(first: nat, slots: seq<nat>) | Index(first: nat, nodes: nat, refs: seq<Ref>)

  predicate IsFull(c: Container) {
    match c
    case Leaf(_, slots) => forall k :: 0 <= k < |slots| ==> slots[k] != 0
    case Index(_, _, refs) => forall i :: 0 <= i < |refs| ==> refs[i].block != 0 && refs[i].full
  }

  predicate IsEmpty(c: Container) {
    match c
    case Leaf(_, slots) => forall k :: 0 <= k < |slots| ==> slots[k] == 0
    case Index(_, _, refs) => forall i :: 0 <= i < |refs| ==> refs[i] == NONE
  }

  /** The containers by block; nodes are numbered from `base` on, m nodes fit in a leaf and `fan`
      references in any other container.
      `level` counts from the leaves, and `up` says where a container is referred to. */
  datatype Tree = Tree(root: nat, base: nat, m: nat, fan: nat, blocks: map<nat, Container>, level: map<nat, nat>,
    up: map<nat, (nat, nat)>)

  /** Node numbers under a container at level l. */
  ghost function Span(m: nat, fan: nat, l: nat): nat {
    if l == 0 then m else Span(m, fan, l - 1) * fan
  }

  ghost predicate Shaped(t: Tree, c: nat)
    requires c in t.blocks && c in t.level
  {
    match t.blocks[c]
    case Leaf(_, slots) => t.level[c] == 0 && |slots| == t.m
    case Index(_, nodes, refs) => t.level[c] > 0 && |refs| == t.fan && nodes == Span(t.m, t.fan, t.level[c] - 1)
  }

  /** Container c refers to another container in its entry i. */
  ghost predicate Refers(t: Tree, c: nat, i: nat) {
    c in t.blocks && t.blocks[c].Index? && i < |t.blocks[c].refs| && t.blocks[c].refs[i].block != 0
  }

  ghost function Child(t: Tree, c: nat, i: nat): nat
    requires Refers(t, c, i)
  {
    t.blocks[c].refs[i].block
  }

  ghost predicate ChildOk(t: Tree, c: nat, i: nat)
    requires Refers(t, c, i) && c in t.level
  {
    var d := Child(t, c, i);
    && d in t.blocks && d in t.level && d in t.up && t.up[d] == (c, i)
    && t.level[d] + 1 == t.level[c]
    && t.blocks[d].first == t.blocks[c].first + i * t.blocks[c].nodes
  }

  ghost predicate UpOk(t: Tree, d: nat)
    requires d in t.up && d in t.level && t.root in t.level
  {
    Refers(t, t.up[d].0, t.up[d].1) && Child(t, t.up[d].0, t.up[d].1) == d && t.level[d] < t.level[t.root]
  }

  ghost predicate Wf(t: Tree) {
    && t.m >= 2 && t.fan >= 2 && t.root in t.blocks && 0 !in t.blocks
    && t.level.Keys == t.blocks.Keys && t.up.Keys == t.blocks.Keys - {t.root}
    && t.blocks[t.root].first == t.base
    && (forall c :: c in t.blocks ==> Shaped(t, c))
    && (forall c, i: nat :: Refers(t, c, i) ==> ChildOk(t, c, i))
    && (forall d :: d in t.up ==> UpOk(t, d))
  }

  // ----- The parts of it

  lemma TopAt(t: Tree)
    requires Wf(t)
    ensures t.m >= 2 && t.fan >= 2 && t.root in t.blocks && 0 !in t.blocks && t.root in t.level
    ensures t.blocks[t.root].first == t.base
    ensures t.level.Keys == t.blocks.Keys && t.up.Keys == t.blocks.Keys - {t.root}
  {
  }

  lemma ShapedAt(t: Tree, c: nat)
    requires Wf(t) && c in t.blocks
    ensures c in t.level && Shaped(t, c) && c != 0
  {
  }

  lemma ChildAt(t: Tree, c: nat, i: nat)
    requires Wf(t) && Refers(t, c, i)
    ensures c in t.level && ChildOk(t, c, i) && Child(t, c, i) != t.root
  {
  }

  lemma UpAt(t: Tree, d: nat)
    requires Wf(t) && d in t.blocks && d != t.root
    ensures d in t.up && d in t.level && t.root in t.level && UpOk(t, d)
    ensures ChildOk(t, t.up[d].0, t.up[d].1)
  {
  }

  lemma WfFrom(t: Tree)
    requires t.m >= 2 && t.fan >= 2 && t.root in t.blocks && 0 !in t.blocks && t.blocks[t.root].first == t.base
    requires t.level.Keys == t.blocks.Keys && t.up.Keys == t.blocks.Keys - {t.root}
    requires forall c :: c in t.blocks ==> Shaped(t, c)
    requires forall c, i: nat :: Refers(t, c, i) ==> ChildOk(t, c, i)
    requires forall d :: d in t.up ==> UpOk(t, d)
    ensures Wf(t)
  {
  }

  // ----- Node numbers

  lemma SpanGrows(m: nat, fan: nat, l: nat)
    requires m >= 2 && fan >= 2
    ensures Span(m, fan, l) >= 2
    ensures Span(m, fan, l + 1) == Span(m, fan, l) * fan > Span(m, fan, l)
  {
    if l > 0 { SpanGrows(m, fan, l - 1); }
    Doubles(Span(m, fan, l), fan);
  }

  lemma Doubles(a: nat, b: nat)
    requires a >= 1 && b >= 2
    ensures a * b > a
  {
  }

  /** The numbers under a container. */
  ghost predicate InRange(t: Tree, c: nat, n: nat)
    requires c in t.blocks && c in t.level
  {
    t.blocks[c].first <= n < t.blocks[c].first + Span(t.m, t.fan, t.level[c])
  }

  /** The entry of an index container that a number belongs to. */
  function EntryOf(c: Container, n: nat): nat
    requires c.Index? && c.nodes > 0 && c.first <= n
  {
    (n - c.first) / c.nodes
  }

  lemma Below(a: nat, n: nat, fan: nat)
    requires n > 0 && a < n * fan
    ensures a / n < fan && a / n * n <= a < a / n * n + n
  {
    Ranges.AtLeast(a / n - fan + 1, n);
    assert (a / n - fan + 1) * n == a / n * n - fan * n + n;
  }

  lemma EntryInside(t: Tree, c: nat, n: nat)
    requires Wf(t) && c in t.blocks && t.blocks[c].Index? && InRange(t, c, n)
    ensures t.blocks[c].nodes > 0 && EntryOf(t.blocks[c], n) < |t.blocks[c].refs|
    ensures var i := EntryOf(t.blocks[c], n);
      t.blocks[c].first + i * t.blocks[c].nodes <= n < t.blocks[c].first + i * t.blocks[c].nodes + t.blocks[c].nodes
  {
    hide Wf;
    TopAt(t);
    ShapedAt(t, c);
    SpanGrows(t.m, t.fan, t.level[c] - 1);
    Below(n - t.blocks[c].first, t.blocks[c].nodes, t.fan);
  }

  /** The numbers under a child are those of its entry. */
  lemma ChildRange(t: Tree, c: nat, i: nat, n: nat)
    requires Wf(t) && Refers(t, c, i)
    ensures var d := Child(t, c, i);
      && d in t.blocks && d in t.level && c in t.level && t.blocks[c].nodes > 0
      && (InRange(t, d, n) <==> InRange(t, c, n) && EntryOf(t.blocks[c], n) == i)
  {
    hide Wf;
    TopAt(t);
    ChildAt(t, c, i);
    ShapedAt(t, c);
    var d, b := Child(t, c, i), t.blocks[c];
    SpanGrows(t.m, t.fan, t.level[d]);
    if InRange(t, c, n) {
      EntryInside(t, c, n);
      if InRange(t, d, n) { Ranges.DivideAt(n - b.first, b.nodes, i); }
    }
    RoomBehind(i, b.nodes, t.fan);
  }

  lemma RoomBehind(i: nat, n: nat, fan: nat)
    requires i < fan
    ensures i * n + n <= n * fan
  {
    var d := fan - 1 - i;
    assert d * n >= 0;
    assert n * fan == n * (i + 1 + d);
  }

  // ----- What a number leads to

  /** The data of node n among the containers under c, 0 if there is no such node. */
  ghost function Lookup(t: Tree, c: nat, n: nat): nat
    requires Wf(t) && c in t.blocks
    decreases t.level[c]
  {
    ShapedAt(t, c);
    if !InRange(t, c, n) then 0
    else
      match t.blocks[c]
      case Leaf(first, slots) => slots[n - first]
      case Index(_, _, refs) =>
        EntryInside(t, c, n);
        var i := EntryOf(t.blocks[c], n);
        if refs[i].block == 0 then 0
        else
          ChildAt(t, c, i);
          Lookup(t, Child(t, c, i), n)
  }

  /** The data of node n, 0 if there is no such node. */
  ghost function Node(t: Tree, n: nat): nat
    requires Wf(t)
  {
    Lookup(t, t.root, n)
  }

  /** Looking further down from an entry. */
  lemma LookupStep(t: Tree, c: nat, n: nat)
    requires Wf(t) && c in t.blocks && t.blocks[c].Index?
    ensures c in t.level
    ensures !InRange(t, c, n) ==> Lookup(t, c, n) == 0
    ensures InRange(t, c, n) ==>
      && t.blocks[c].nodes > 0 && EntryOf(t.blocks[c], n) < |t.blocks[c].refs|
      && (!Refers(t, c, EntryOf(t.blocks[c], n)) ==> Lookup(t, c, n) == 0)
      && (Refers(t, c, EntryOf(t.blocks[c], n)) ==>
           Child(t, c, EntryOf(t.blocks[c], n)) in t.blocks
             && Lookup(t, c, n) == Lookup(t, Child(t, c, EntryOf(t.blocks[c], n)), n))
  {
    if InRange(t, c, n) { EntryInside(t, c, n); }
  }

  lemma LookupLeaf(t: Tree, c: nat, n: nat)
    requires Wf(t) && c in t.blocks && t.blocks[c].Leaf?
    ensures |t.blocks[c].slots| == t.m
    ensures Lookup(t, c, n)
        == if t.blocks[c].first <= n < t.blocks[c].first + t.m then t.blocks[c].slots[n - t.blocks[c].first] else 0
  {
    ShapedAt(t, c);
  }

  lemma LookupOutside(t: Tree, c: nat, n: nat)
    requires Wf(t) && c in t.blocks
    ensures c in t.level && (!InRange(t, c, n) ==> Lookup(t, c, n) == 0)
  {
    ShapedAt(t, c);
  }

  /** From the root a number leads to the container whose number it is. */
  lemma {:induction false} Reaches(t: Tree, c: nat, n: nat)
    requires Wf(t) && c in t.blocks && c in t.level && InRange(t, c, n)
    ensures t.root in t.level && InRange(t, t.root, n)
    ensures Lookup(t, t.root, n) == Lookup(t, c, n)
    decreases if t.root in t.level && t.level[c] <= t.level[t.root] then t.level[t.root] - t.level[c] else 0
  {
    hide Wf, Lookup, Span, EntryOf;
    TopAt(t);
    if c != t.root {
      UpAt(t, c);
      var p, i := t.up[c].0, t.up[c].1;
      ChildRange(t, p, i, n);
      LookupStep(t, p, n);
      LevelBelow(t, p);
      Reaches(t, p, n);
    }
  }

  lemma LevelBelow(t: Tree, c: nat)
    requires Wf(t) && c in t.blocks
    ensures c in t.level && t.root in t.level && t.level[c] <= t.level[t.root]
    ensures (c != t.root ==> t.level[c] < t.level[t.root])
  {
    if c != t.root { UpAt(t, c); }
  }

  // ----- Full-bits

  ghost predicate BitOk(t: Tree, c: nat, i: nat)
    requires Refers(t, c, i) && Child(t, c, i) in t.blocks
  {
    t.blocks[c].refs[i].full <==> IsFull(t.blocks[Child(t, c, i)])
  }

  /** All full-bits are right, but the one for container x, which is wrong. */
  ghost predicate BitsOk(t: Tree, x: nat) {
    forall c, i: nat :: (Refers(t, c, i) && Child(t, c, i) in t.blocks) ==> (BitOk(t, c, i) <==> Child(t, c, i) != x)
  }

  /** References to nothing have no full-bit. */
  ghost predicate NoBits(t: Tree) {
    forall c, i: nat :: (c in t.blocks && t.blocks[c].Index? && i < |t.blocks[c].refs| && !Refers(t, c, i))
      ==> t.blocks[c].refs[i] == NONE
  }

  /** Only the root may be empty, and container x. */
  ghost predicate Sparse(t: Tree, x: nat) {
    forall c :: c in t.blocks && c != t.root && c != x ==> !IsEmpty(t.blocks[c])
  }

  ghost predicate Valid(t: Tree) {
    Wf(t) && BitsOk(t, 0) && NoBits(t) && Sparse(t, 0)
  }

  lemma BitAt(t: Tree, x: nat, c: nat, i: nat)
    requires Wf(t) && BitsOk(t, x) && Refers(t, c, i)
    ensures Child(t, c, i) in t.blocks && (BitOk(t, c, i) <==> Child(t, c, i) != x)
  {
    ChildAt(t, c, i);
  }

  /** A container counts as full exactly when there is no unused number under it. */
  lemma {:induction false} FullMeans(t: Tree, c: nat)
    requires Wf(t) && BitsOk(t, 0) && c in t.blocks
    ensures c in t.level
    ensures IsFull(t.blocks[c]) <==> forall n: nat :: InRange(t, c, n) ==> Lookup(t, c, n) != 0
    decreases t.level[c]
  {
    hide Wf, BitsOk, Lookup, Span, EntryOf;
    TopAt(t);
    ShapedAt(t, c);
    match t.blocks[c] {
      case Leaf(first, slots) => FullLeaf(t, c);
      case Index(first, nodes, refs) =>
        forall i: nat | Refers(t, c, i)
          ensures Child(t, c, i) in t.level
          ensures (refs[i].full <==> forall n: nat ::
              InRange(t, Child(t, c, i), n) ==> Lookup(t, Child(t, c, i), n) != 0)
        {
          ChildAt(t, c, i);
          BitAt(t, 0, c, i);
          ShapedAt(t, Child(t, c, i));
          FullMeans(t, Child(t, c, i));
        }
        FullIndex(t, c);
    }
  }

  lemma FullLeaf(t: Tree, c: nat)
    requires Wf(t) && c in t.blocks && t.blocks[c].Leaf?
    ensures c in t.level
    ensures IsFull(t.blocks[c]) <==> forall n: nat :: InRange(t, c, n) ==> Lookup(t, c, n) != 0
  {
    hide Wf, Lookup;
    ShapedAt(t, c);
    var first, slots := t.blocks[c].first, t.blocks[c].slots;
    forall n: nat | InRange(t, c, n) ensures Lookup(t, c, n) == slots[n - first] { LookupLeaf(t, c, n); }
    if k: nat :| k < |slots| && slots[k] == 0 {
      assert InRange(t, c, first + k);
    }
  }

  lemma FullIndex(t: Tree, c: nat)
    requires Wf(t) && c in t.blocks && t.blocks[c].Index?
    requires forall i: nat :: Refers(t, c, i) ==>
      Child(t, c, i) in t.blocks && Child(t, c, i) in t.level
      && (t.blocks[c].refs[i].full <==> forall n: nat ::
          InRange(t, Child(t, c, i), n) ==> Lookup(t, Child(t, c, i), n) != 0)
    ensures c in t.level
    ensures IsFull(t.blocks[c]) <==> forall n: nat :: InRange(t, c, n) ==> Lookup(t, c, n) != 0
  {
    hide Wf, Lookup, Span, EntryOf;
    ShapedAt(t, c);
    var refs := t.blocks[c].refs;
    if IsFull(t.blocks[c]) {
      forall n: nat | InRange(t, c, n) ensures Lookup(t, c, n) != 0 {
        LookupStep(t, c, n);
        var i := EntryOf(t.blocks[c], n);
        assert refs[i].full && Refers(t, c, i);
        ChildRange(t, c, i, n);
      }
    } else {
      var i: nat :| i < |refs| && !(refs[i].block != 0 && refs[i].full);
      if Refers(t, c, i) {
        var n: nat :| InRange(t, Child(t, c, i), n) && Lookup(t, Child(t, c, i), n) == 0;
        ChildRange(t, c, i, n);
        LookupStep(t, c, n);
      } else {
        var n := t.blocks[c].first + i * t.blocks[c].nodes;
        FirstOfEntry(t, c, i);
        LookupStep(t, c, n);
      }
    }
  }

  lemma FirstOfEntry(t: Tree, c: nat, i: nat)
    requires Wf(t) && c in t.blocks && t.blocks[c].Index? && i < |t.blocks[c].refs|
    ensures c in t.level && t.blocks[c].nodes > 0
    ensures InRange(t, c, t.blocks[c].first + i * t.blocks[c].nodes)
    ensures EntryOf(t.blocks[c], t.blocks[c].first + i * t.blocks[c].nodes) == i
  {
    hide Wf;
    TopAt(t);
    ShapedAt(t, c);
    SpanGrows(t.m, t.fan, t.level[c] - 1);
    RoomBehind(i, t.blocks[c].nodes, t.fan);
    Ranges.DivideAt(i * t.blocks[c].nodes, t.blocks[c].nodes, i);
  }

  /** A container with nothing in it leads nowhere. */
  lemma EmptyLeads(t: Tree, c: nat, n: nat)
    requires Wf(t) && c in t.blocks && IsEmpty(t.blocks[c])
    ensures Lookup(t, c, n) == 0
  {
    hide Wf, Lookup;
    ShapedAt(t, c);
    if t.blocks[c].Leaf? {
      LookupLeaf(t, c, n);
    } else {
      LookupStep(t, c, n);
    }
  }

  /** The full-bit of a container is set exactly when every number under it is in use. */
  lemma FullBits(t: Tree, c: nat, i: nat)
    requires Valid(t) && Refers(t, c, i)
    ensures var d := Child(t, c, i);
      && d in t.blocks && d in t.level
      && (t.blocks[c].refs[i].full <==> forall n: nat :: InRange(t, d, n) ==> Node(t, n) != 0)
  {
    hide Wf, BitsOk, Lookup, Span;
    ChildAt(t, c, i);
    var d := Child(t, c, i);
    BitAt(t, 0, c, i);
    ShapedAt(t, d);
    FullMeans(t, d);
    forall n: nat | InRange(t, d, n) ensures Node(t, n) == Lookup(t, d, n) {
      Reaches(t, d, n);
    }
  }

  // ----- Changing a container

  /** A container with the same children in the same places. */
  ghost predicate SameWay(a: Container, b: Container) {
    && a.first == b.first && a.Leaf? == b.Leaf?
    && (a.Leaf? ==> |a.slots| == |b.slots|)
    && (a.Index? ==> a.nodes == b.nodes && |a.refs| == |b.refs| && forall i ::
        0 <= i < |a.refs| ==> a.refs[i].block == b.refs[i].block)
  }

  function With(t: Tree, c: nat, b: Container): Tree {
    t.(blocks := t.blocks[c := b])
  }

  lemma WithWf(t: Tree, c: nat, b: Container)
    requires Wf(t) && c in t.blocks && SameWay(t.blocks[c], b)
    ensures Wf(With(t, c, b))
    ensures forall e, i: nat :: Refers(With(t, c, b), e, i) <==> Refers(t, e, i)
    ensures forall e, i: nat :: Refers(t, e, i) ==> Child(With(t, c, b), e, i) == Child(t, e, i)
  {
    var t' := With(t, c, b);
    forall e, i: nat | Refers(t', e, i) ensures ChildOk(t', e, i) { WithChild(t, c, b, e, i); }
    forall d | d in t'.up ensures UpOk(t', d) { WithUp(t, c, b, d); }
    forall e | e in t'.blocks ensures Shaped(t', e) { WithShaped(t, c, b, e); }
    TopAt(t);
    hide Wf;
    WfFrom(t');
  }

  lemma WithChild(t: Tree, c: nat, b: Container, e: nat, i: nat)
    requires Wf(t) && c in t.blocks && SameWay(t.blocks[c], b) && Refers(With(t, c, b), e, i)
    ensures Refers(t, e, i) && e in t.level && ChildOk(With(t, c, b), e, i)
  {
    hide Span;
    assert ChildOk(t, e, i);
  }

  lemma WithUp(t: Tree, c: nat, b: Container, d: nat)
    requires Wf(t) && c in t.blocks && SameWay(t.blocks[c], b) && d in t.up
    ensures d in t.level && t.root in t.level && UpOk(With(t, c, b), d)
  {
    hide Span;
    assert UpOk(t, d);
  }

  lemma WithShaped(t: Tree, c: nat, b: Container, e: nat)
    requires Wf(t) && c in t.blocks && SameWay(t.blocks[c], b) && e in t.blocks
    ensures e in t.level && Shaped(With(t, c, b), e)
  {
    hide Span;
    assert Shaped(t, e);
  }

  /** Only nodes with number q change, if any. */
  ghost predicate SameNodes(a: Container, b: Container, q: int)
    requires SameWay(a, b)
  {
    a.Leaf? ==> forall k :: 0 <= k < |a.slots| && a.first + k != q ==> a.slots[k] == b.slots[k]
  }

  lemma {:induction false} WithLookup(t: Tree, c: nat, b: Container, q: int, d: nat, n: nat)
    requires Wf(t) && c in t.blocks && SameWay(t.blocks[c], b) && SameNodes(t.blocks[c], b, q)
    requires d in t.blocks && n != q
    ensures Wf(With(t, c, b)) && Lookup(With(t, c, b), d, n) == Lookup(t, d, n)
    decreases if d in t.level then t.level[d] else 0
  {
    hide Wf, Lookup, Span, EntryOf;
    var t' := With(t, c, b);
    WithWf(t, c, b);
    ShapedAt(t, d);
    if t.blocks[d].Leaf? {
      LookupLeaf(t, d, n);
      LookupLeaf(t', d, n);
    } else {
      LookupStep(t, d, n);
      LookupStep(t', d, n);
      if InRange(t, d, n) {
        assert InRange(t', d, n);
        var i := EntryOf(t.blocks[d], n);
        SameEntry(t.blocks[d], t'.blocks[d], n);
        if Refers(t, d, i) {
          ChildAt(t, d, i);
          WithLookup(t, c, b, q, Child(t, d, i), n);
        }
      }
    }
  }

  lemma SameEntry(a: Container, b: Container, n: nat)
    requires a.Index? && b.Index? && a.nodes == b.nodes > 0 && a.first == b.first <= n
    ensures EntryOf(a, n) == EntryOf(b, n)
  {
  }

  /** Node q, which is the one in slot k of leaf c, changes, and no other. */
  lemma SlotSet(t: Tree, c: nat, k: nat, v: nat)
    requires Wf(t) && c in t.blocks && t.blocks[c].Leaf? && k < |t.blocks[c].slots|
    ensures var t' := With(t, c, t.blocks[c].(slots := t.blocks[c].slots[k := v]));
      && Wf(t') && Node(t', t.blocks[c].first + k) == v && Node(t, t.blocks[c].first + k) == t.blocks[c].slots[k]
      && forall n: nat :: n != t.blocks[c].first + k ==> Node(t', n) == Node(t, n)
  {
    hide Wf, Lookup;
    var b, q := t.blocks[c].(slots := t.blocks[c].slots[k := v]), t.blocks[c].first + k;
    var t' := With(t, c, b);
    WithWf(t, c, b);
    TopAt(t);
    ShapedAt(t, c);
    Reaches(t, c, q);
    LookupLeaf(t, c, q);
    ShapedAt(t', c);
    assert InRange(t', c, q);
    Reaches(t', c, q);
    LookupLeaf(t', c, q);
    forall n: nat | n != q ensures Node(t', n) == Node(t, n) {
      WithLookup(t, c, b, q, t.root, n);
    }
  }

  /** Nothing but full-bits of a container changes. */
  lemma BitsSet(t: Tree, c: nat, b: Container)
    requires Wf(t) && c in t.blocks && SameWay(t.blocks[c], b) && SameNodes(t.blocks[c], b, -1)
    ensures Wf(With(t, c, b)) && forall n: nat :: Node(With(t, c, b), n) == Node(t, n)
  {
    hide Wf, Lookup;
    TopAt(t);
    WithWf(t, c, b);
    forall n: nat ensures Node(With(t, c, b), n) == Node(t, n) {
      WithLookup(t, c, b, -1, t.root, n);
    }
  }

  /** Container p changes, and if x is not 0 the full-bit that p has for x does; then the only bit
      that may be wrong is the one for p. */
  lemma BitsAfter(t: Tree, p: nat, b: Container, x: nat)
    requires Wf(t) && p in t.blocks && SameWay(t.blocks[p], b) && BitsOk(t, x)
    requires x == 0 || (x in t.up && t.up[x].0 == p)
    requires forall i: nat ::
        Refers(t, p, i) ==> ((b.refs[i].full == t.blocks[p].refs[i].full) <==> Child(t, p, i) != x)
    ensures BitsOk(With(t, p, b), if IsFull(b) != IsFull(t.blocks[p]) then p else 0)
  {
    hide Wf, IsFull, Span, BitsOk;
    var t', y := With(t, p, b), if IsFull(b) != IsFull(t.blocks[p]) then p else 0;
    WithWf(t, p, b);
    forall c, i: nat | Refers(t', c, i) && Child(t', c, i) in t'.blocks
      ensures BitOk(t', c, i) <==> Child(t', c, i) != y
    {
      assert Refers(t, c, i);
      BitAt(t, x, c, i);
      ChildAt(t, c, i);
    }
    BitsFrom(t', y);
  }

  lemma BitsFrom(t: Tree, x: nat)
    requires forall c, i: nat ::
        (Refers(t, c, i) && Child(t, c, i) in t.blocks) ==> (BitOk(t, c, i) <==> Child(t, c, i) != x)
    ensures BitsOk(t, x)
  {
  }

  /** There is no bit for the root. */
  lemma BitOfRoot(t: Tree)
    requires Wf(t) && BitsOk(t, t.root)
    ensures BitsOk(t, 0)
  {
    hide Wf, IsFull, BitsOk;
    forall c, i: nat | Refers(t, c, i) && Child(t, c, i) in t.blocks ensures BitOk(t, c, i) <==> Child(t, c, i) != 0 {
      BitAt(t, t.root, c, i);
      ChildAt(t, c, i);
    }
    BitsFrom(t, 0);
  }

  // ----- A new container, and one that goes

  /** What an unused container looks like. */
  function Fresh(m: nat, fan: nat, first: nat, nodes: nat): Container {
    if nodes == 1 then Leaf(first, seq(m, _ => 0)) else Index(first, nodes, seq(fan, _ => NONE))
  }

  function Put(b: Container, i: nat, r: Ref): Container
    requires b.Index? && i < |b.refs|
  {
    b.(refs := b.refs[i := r])
  }

  /** Container d is new under entry i of container c. */
  ghost function Added(t: Tree, c: nat, i: nat, d: nat, e: Container): Tree
    requires c in t.blocks && t.blocks[c].Index? && i < |t.blocks[c].refs| && c in t.level && t.level[c] > 0
  {
    t.(blocks := t.blocks[c := Put(t.blocks[c], i, Ref(d, false))][d := e], level := t.level[d := t.level[c] - 1],
      up := t.up[d := (c, i)])
  }

  ghost predicate Addable(t: Tree, c: nat, i: nat, d: nat, e: Container) {
    && Wf(t) && c in t.blocks && t.blocks[c].Index? && i < |t.blocks[c].refs| && t.blocks[c].refs[i] == NONE
    && d != 0 && d !in t.blocks && IsEmpty(e) && e.first == t.blocks[c].first + i * t.blocks[c].nodes
    && c in t.level && t.level[c] > 0 && Sized(t.m, t.fan, e, t.level[c] - 1)
  }

  /** A container of level l. */
  ghost predicate Sized(m: nat, fan: nat, e: Container, l: nat) {
    match e
    case Leaf(_, slots) => l == 0 && |slots| == m
    case Index(_, nodes, refs) => l > 0 && |refs| == fan && nodes == Span(m, fan, l - 1)
  }

  lemma AddedWf(t: Tree, c: nat, i: nat, d: nat, e: Container)
    requires Addable(t, c, i, d, e)
    ensures Wf(Added(t, c, i, d, e))
    ensures Refers(Added(t, c, i, d, e), c, i) && Child(Added(t, c, i, d, e), c, i) == d
    ensures forall x, j: nat :: Refers(Added(t, c, i, d, e), x, j) && !(x == c && j == i) ==>
      Refers(t, x, j) && Child(Added(t, c, i, d, e), x, j) == Child(t, x, j)
    ensures forall x, j: nat :: Refers(t, x, j) ==> Refers(Added(t, c, i, d, e), x, j) && !(x == c && j == i)
  {
    AddedRefers(t, c, i, d, e);
    var t' := Added(t, c, i, d, e);
    forall x, j: nat | Refers(t', x, j) ensures ChildOk(t', x, j) { AddedChild(t, c, i, d, e, x, j); }
    forall x | x in t'.up ensures UpOk(t', x) { AddedUp(t, c, i, d, e, x); }
    forall x | x in t'.blocks ensures Shaped(t', x) { AddedShaped(t, c, i, d, e, x); }
    TopAt(t);
    assert t'.blocks[t.root].first == t.base;
    hide *;
    WfFrom(t');
  }

  /** The references are the same but for the new one. */
  lemma AddedRefers(t: Tree, c: nat, i: nat, d: nat, e: Container)
    requires Addable(t, c, i, d, e)
    ensures Refers(Added(t, c, i, d, e), c, i) && Child(Added(t, c, i, d, e), c, i) == d
    ensures forall x, j: nat :: Refers(Added(t, c, i, d, e), x, j) && !(x == c && j == i) ==>
      Refers(t, x, j) && Child(Added(t, c, i, d, e), x, j) == Child(t, x, j)
    ensures forall x, j: nat :: Refers(t, x, j) ==> Refers(Added(t, c, i, d, e), x, j) && !(x == c && j == i)
  {
    hide Span, Wf, Sized;
    TopAt(t);
  }

  lemma AddedChild(t: Tree, c: nat, i: nat, d: nat, e: Container, x: nat, j: nat)
    requires Addable(t, c, i, d, e) && Refers(Added(t, c, i, d, e), x, j)
    ensures x in Added(t, c, i, d, e).level && ChildOk(Added(t, c, i, d, e), x, j)
  {
    hide Span;
    if !(x == c && j == i) {
      assert Refers(t, x, j) && ChildOk(t, x, j);
    }
  }

  lemma AddedUp(t: Tree, c: nat, i: nat, d: nat, e: Container, x: nat)
    requires Addable(t, c, i, d, e) && x in Added(t, c, i, d, e).up
    ensures x in Added(t, c, i, d, e).level && t.root in Added(t, c, i, d, e).level && UpOk(Added(t, c, i, d, e), x)
  {
    hide Span;
    if x != d { assert UpOk(t, x); } else { assert c == t.root || UpOk(t, c); }
  }

  lemma AddedShaped(t: Tree, c: nat, i: nat, d: nat, e: Container, x: nat)
    requires Addable(t, c, i, d, e) && x in Added(t, c, i, d, e).blocks
    ensures x in Added(t, c, i, d, e).level && Shaped(Added(t, c, i, d, e), x)
  {
    hide Span;
    if x != d { assert Shaped(t, x); }
  }

  lemma {:induction false} AddedLookup(t: Tree, c: nat, i: nat, d: nat, e: Container, x: nat, n: nat)
    requires Addable(t, c, i, d, e) && Wf(Added(t, c, i, d, e)) && x in t.blocks
    ensures Lookup(Added(t, c, i, d, e), x, n) == Lookup(t, x, n)
    decreases if x in t.level then t.level[x] else 0
  {
    hide Wf, Lookup, Span, EntryOf;
    var t' := Added(t, c, i, d, e);
    AddedWf(t, c, i, d, e);
    ShapedAt(t, x);
    if t.blocks[x].Leaf? {
      LookupLeaf(t, x, n);
      LookupLeaf(t', x, n);
    } else {
      LookupStep(t, x, n);
      LookupStep(t', x, n);
      assert InRange(t, x, n) <==> InRange(t', x, n);
      if InRange(t, x, n) {
        var j := EntryOf(t.blocks[x], n);
        SameEntry(t.blocks[x], t'.blocks[x], n);
        if x == c && j == i {
          EmptyLeads(t', d, n);
        } else if Refers(t, x, j) {
          ChildAt(t, x, j);
          AddedLookup(t, c, i, d, e, Child(t, x, j), n);
        }
      }
    }
  }

  lemma AddedNodes(t: Tree, c: nat, i: nat, d: nat, e: Container)
    requires Addable(t, c, i, d, e)
    ensures Wf(Added(t, c, i, d, e)) && forall n: nat :: Node(Added(t, c, i, d, e), n) == Node(t, n)
  {
    hide Wf, Lookup, Span;
    AddedWf(t, c, i, d, e);
    TopAt(t);
    forall n: nat ensures Node(Added(t, c, i, d, e), n) == Node(t, n) {
      AddedLookup(t, c, i, d, e, t.root, n);
    }
  }

  /** The new container is not full, and so neither is the one above it, before and after. */
  lemma AddedBits(t: Tree, c: nat, i: nat, d: nat, e: Container)
    requires Addable(t, c, i, d, e) && BitsOk(t, 0) && NoBits(t)
    ensures BitsOk(Added(t, c, i, d, e), 0) && NoBits(Added(t, c, i, d, e))
  {
    hide Span, Wf, BitsOk;
    var t' := Added(t, c, i, d, e);
    AddedWf(t, c, i, d, e);
    TopAt(t);
    NotBoth(t.m, t.fan, e, t.level[c] - 1);
    assert !IsFull(t.blocks[c]) && !IsFull(t'.blocks[c]) by {
      assert t.blocks[c].refs[i].block == 0 && !t'.blocks[c].refs[i].full;
    }
    forall x, j: nat | Refers(t', x, j) && Child(t', x, j) in t'.blocks
      ensures BitOk(t', x, j) <==> Child(t', x, j) != 0
    {
      if !(x == c && j == i) {
        BitAt(t, 0, x, j);
        ChildAt(t, x, j);
      }
    }
    BitsFrom(t', 0);
  }

  lemma NotBoth(m: nat, fan: nat, e: Container, l: nat)
    requires m >= 2 && fan >= 2 && Sized(m, fan, e, l)
    ensures !(IsFull(e) && IsEmpty(e))
  {
    if e.Leaf? {
      assert IsFull(e) ==> e.slots[0] != 0;
    } else {
      assert IsFull(e) ==> e.refs[0].block != 0;
    }
  }

  /** Container d, under entry i of container c, is gone. */
  ghost function Removed(t: Tree, c: nat, i: nat, d: nat): Tree
    requires c in t.blocks && t.blocks[c].Index? && i < |t.blocks[c].refs|
  {
    t.(blocks := t.blocks[c := Put(t.blocks[c], i, NONE)] - {d}, level := t.level - {d}, up := t.up - {d})
  }

  lemma RemovedWf(t: Tree, c: nat, i: nat, d: nat)
    requires Wf(t) && Refers(t, c, i) && Child(t, c, i) == d && d in t.blocks && IsEmpty(t.blocks[d])
    ensures Wf(Removed(t, c, i, d)) && c in Removed(t, c, i, d).blocks && d != 0
    ensures forall x, j: nat :: Refers(Removed(t, c, i, d), x, j) ==>
      Refers(t, x, j) && Child(Removed(t, c, i, d), x, j) == Child(t, x, j) && Child(t, x, j) != d
  {
    var t' := Removed(t, c, i, d);
    forall x, j: nat | Refers(t', x, j)
      ensures Refers(t, x, j) && x in t'.level && ChildOk(t', x, j) && Child(t, x, j) != d
    {
      RemovedChild(t, c, i, d, x, j);
    }
    forall x | x in t'.up ensures UpOk(t', x) { RemovedUp(t, c, i, d, x); }
    forall x | x in t'.blocks ensures Shaped(t', x) { RemovedShaped(t, c, i, d, x); }
    TopAt(t);
    ChildAt(t, c, i);
    hide Wf;
    WfFrom(t');
  }

  lemma RemovedChild(t: Tree, c: nat, i: nat, d: nat, x: nat, j: nat)
    requires Wf(t) && Refers(t, c, i) && Child(t, c, i) == d && d in t.blocks && IsEmpty(t.blocks[d])
    requires Refers(Removed(t, c, i, d), x, j)
    ensures Refers(t, x, j) && Child(t, x, j) != d && Child(Removed(t, c, i, d), x, j) == Child(t, x, j)
    ensures x in Removed(t, c, i, d).level && ChildOk(Removed(t, c, i, d), x, j)
  {
    hide Span;
    assert ChildOk(t, x, j);
    assert ChildOk(t, c, i);
  }

  lemma RemovedUp(t: Tree, c: nat, i: nat, d: nat, x: nat)
    requires Wf(t) && Refers(t, c, i) && Child(t, c, i) == d && d in t.blocks && IsEmpty(t.blocks[d])
    requires x in Removed(t, c, i, d).up
    ensures x in Removed(t, c, i, d).level && t.root in Removed(t, c, i, d).level && UpOk(Removed(t, c, i, d), x)
  {
    hide Span;
    assert UpOk(t, x);
    assert ChildOk(t, c, i);
    assert t.up[x].0 != d;
    assert t.up[x] != (c, i);
  }

  lemma RemovedShaped(t: Tree, c: nat, i: nat, d: nat, x: nat)
    requires Wf(t) && Refers(t, c, i) && Child(t, c, i) == d && d in t.blocks && x in Removed(t, c, i, d).blocks
    ensures x in Removed(t, c, i, d).level && Shaped(Removed(t, c, i, d), x)
  {
    hide Span;
    assert Shaped(t, x);
  }

  /** Taking a container away undoes adding it. */
  lemma RemovedAdds(t: Tree, c: nat, i: nat, d: nat)
    requires Wf(t) && Refers(t, c, i) && Child(t, c, i) == d && d in t.blocks && IsEmpty(t.blocks[d])
    requires !t.blocks[c].refs[i].full
    ensures Addable(Removed(t, c, i, d), c, i, d, t.blocks[d])
    ensures Added(Removed(t, c, i, d), c, i, d, t.blocks[d]) == t
  {
    hide Span, Wf;
    var t' := Removed(t, c, i, d);
    RemovedWf(t, c, i, d);
    ChildAt(t, c, i);
    ShapedAt(t, c);
    ShapedAt(t, d);
    var a := Added(t', c, i, d, t.blocks[d]);
    assert t.blocks[c].refs[i := NONE][i := Ref(d, false)] == t.blocks[c].refs;
    assert a.blocks == t.blocks && a.level == t.level && a.up == t.up;
  }

  lemma RemovedBits(t: Tree, c: nat, i: nat, d: nat)
    requires Wf(t) && Refers(t, c, i) && Child(t, c, i) == d && d in t.blocks && IsEmpty(t.blocks[d])
    requires BitsOk(t, 0) && NoBits(t)
    ensures !t.blocks[c].refs[i].full
    ensures Wf(Removed(t, c, i, d)) && BitsOk(Removed(t, c, i, d), 0) && NoBits(Removed(t, c, i, d))
  {
    hide Span, Wf, BitsOk;
    var t' := Removed(t, c, i, d);
    RemovedWf(t, c, i, d);
    BitAt(t, 0, c, i);
    TopAt(t);
    ShapedAt(t, d);
    NotBoth(t.m, t.fan, t.blocks[d], t.level[d]);
    assert !IsFull(t.blocks[c]) && !IsFull(t'.blocks[c]) by {
      assert !t.blocks[c].refs[i].full && t'.blocks[c].refs[i].block == 0;
    }
    forall x, j: nat | Refers(t', x, j) && Child(t', x, j) in t'.blocks
      ensures BitOk(t', x, j) <==> Child(t', x, j) != 0
    {
      BitAt(t, 0, x, j);
      ChildAt(t, x, j);
    }
    BitsFrom(t', 0);
  }

  lemma RemovedNodes(t: Tree, c: nat, i: nat, d: nat)
    requires Wf(t) && Refers(t, c, i) && Child(t, c, i) == d && d in t.blocks && IsEmpty(t.blocks[d])
    requires !t.blocks[c].refs[i].full
    ensures Wf(Removed(t, c, i, d)) && forall n: nat :: Node(Removed(t, c, i, d), n) == Node(t, n)
  {
    hide Wf, Lookup, Span, Addable, Added, Removed;
    RemovedWf(t, c, i, d);
    RemovedAdds(t, c, i, d);
    AddedNodes(Removed(t, c, i, d), c, i, d, t.blocks[d]);
  }

  // ----- A new level

  /** The root moves to block d, and a new root refers to it. */
  ghost function Grown(t: Tree, d: nat, e: Container): Tree
    requires t.root in t.blocks && t.root in t.level
  {
    Tree(t.root, t.base, t.m, t.fan, t.blocks[d := t.blocks[t.root]][t.root := e],
         t.level[d := t.level[t.root]][t.root := t.level[t.root] + 1],
         (map x | x in t.up :: if t.up[x].0 == t.root then (d, t.up[x].1) else t.up[x])[d := (t.root, 0)])
  }

  ghost predicate Growable(t: Tree, d: nat, e: Container) {
    && Wf(t) && d != 0 && d !in t.blocks && t.root in t.blocks && t.root in t.level && IsFull(t.blocks[t.root])
    && e.Index? && e.first == t.base && e.nodes == Span(t.m, t.fan, t.level[t.root]) && |e.refs| == t.fan
    && e.refs[0] == Ref(d, true) && forall i :: 1 <= i < |e.refs| ==> e.refs[i] == NONE
  }

  lemma GrownWf(t: Tree, d: nat, e: Container)
    requires Growable(t, d, e)
    ensures Wf(Grown(t, d, e)) && Refers(Grown(t, d, e), t.root, 0)
    ensures forall x, j: nat :: Refers(Grown(t, d, e), x, j) ==>
      var y := if x == d then t.root else x;
      if x == t.root then j == 0 && Child(Grown(t, d, e), x, j) == d
      else (
        && Refers(t, y, j) && Child(Grown(t, d, e), x, j) == Child(t, y, j)
        && Child(t, y, j) != t.root && Child(t, y, j) != d
      )
  {
    var t' := Grown(t, d, e);
    forall x, j: nat | Refers(t', x, j) ensures ChildOk(t', x, j) { GrownChild(t, d, e, x, j); }
    forall x | x in t'.up ensures UpOk(t', x) { GrownUp(t, d, e, x); }
    forall x | x in t'.blocks ensures Shaped(t', x) { GrownShaped(t, d, e, x); }
    TopAt(t);
    assert t'.up.Keys == t'.blocks.Keys - {t.root};
    forall x, j: nat | Refers(t', x, j) && x != t.root ensures Refers(t, if x == d then t.root else x, j) {
      GrownChild(t, d, e, x, j);
    }
    hide Wf;
    WfFrom(t');
  }

  lemma GrownChild(t: Tree, d: nat, e: Container, x: nat, j: nat)
    requires Growable(t, d, e) && Refers(Grown(t, d, e), x, j)
    ensures x in Grown(t, d, e).level && ChildOk(Grown(t, d, e), x, j)
    ensures x == t.root ==> j == 0
    ensures var y := if x == d then t.root else x;
      x != t.root ==> Refers(t, y, j) && Child(t, y, j) != t.root && Child(t, y, j) != d
  {
    hide Span;
    var y := if x == d then t.root else x;
    if x != t.root {
      assert Refers(t, y, j) && ChildOk(t, y, j);
      ChildAt(t, y, j);
    } else {
      assert j == 0;
    }
  }

  lemma GrownUp(t: Tree, d: nat, e: Container, x: nat)
    requires Growable(t, d, e) && x in Grown(t, d, e).up
    ensures x in Grown(t, d, e).level && t.root in Grown(t, d, e).level && UpOk(Grown(t, d, e), x)
  {
    hide Span;
    if x != d { assert UpOk(t, x); }
  }

  lemma GrownShaped(t: Tree, d: nat, e: Container, x: nat)
    requires Growable(t, d, e) && x in Grown(t, d, e).blocks
    ensures x in Grown(t, d, e).level && Shaped(Grown(t, d, e), x)
  {
    hide Span;
    if x != d && x != t.root { assert Shaped(t, x); } else { assert Shaped(t, t.root); }
  }

  lemma {:induction false} GrownLookup(t: Tree, d: nat, e: Container, x: nat, n: nat)
    requires Growable(t, d, e) && Wf(Grown(t, d, e)) && x in t.blocks
    ensures var y := if x == t.root then d else x;
      y in Grown(t, d, e).blocks && Lookup(Grown(t, d, e), y, n) == Lookup(t, x, n)
    decreases if x in t.level then t.level[x] else 0
  {
    hide Wf, Lookup, Span, EntryOf;
    var t', y := Grown(t, d, e), if x == t.root then d else x;
    GrownWf(t, d, e);
    ShapedAt(t, x);
    if t.blocks[x].Leaf? {
      LookupLeaf(t, x, n);
      LookupLeaf(t', y, n);
    } else {
      LookupStep(t, x, n);
      LookupStep(t', y, n);
      assert InRange(t, x, n) <==> InRange(t', y, n);
      if InRange(t, x, n) {
        var j := EntryOf(t.blocks[x], n);
        if Refers(t, x, j) {
          ChildAt(t, x, j);
          assert Refers(t', y, j);
          GrownLookup(t, d, e, Child(t, x, j), n);
        }
      }
    }
  }

  lemma GrownNodes(t: Tree, d: nat, e: Container)
    requires Growable(t, d, e)
    ensures Wf(Grown(t, d, e)) && forall n: nat :: Node(Grown(t, d, e), n) == Node(t, n)
  {
    hide Wf, Lookup, Span, EntryOf;
    var t' := Grown(t, d, e);
    GrownWf(t, d, e);
    TopAt(t);
    TopAt(t');
    forall n: nat ensures Node(t', n) == Node(t, n) {
      GrownLookup(t, d, e, t.root, n);
      LookupStep(t', t.root, n);
      LookupOutside(t', d, n);
      ChildRange(t', t.root, 0, n);
    }
  }

  lemma GrownBits(t: Tree, d: nat, e: Container)
    requires Growable(t, d, e) && BitsOk(t, 0) && NoBits(t)
    ensures BitsOk(Grown(t, d, e), 0) && NoBits(Grown(t, d, e)) && !IsFull(e)
  {
    hide Span, Wf, BitsOk;
    var t' := Grown(t, d, e);
    GrownWf(t, d, e);
    TopAt(t);
    assert !IsFull(e) by { assert e.refs[1] == NONE; }
    forall x, j: nat | Refers(t', x, j) && Child(t', x, j) in t'.blocks
      ensures BitOk(t', x, j) <==> Child(t', x, j) != 0
    {
      var y := if x == d then t.root else x;
      if x != t.root {
        BitAt(t, 0, y, j);
      }
    }
    BitsFrom(t', 0);
  }
}
