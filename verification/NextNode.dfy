/** The number that `createnode` of FS/nodes.c gives a new node. */
module NextNode {
  import opened NodeShape
  import Ranges

  /** A container with room under it. */
  predicate Open(r: Ref) {
    r.block != 0 && !r.full
  }

  /** First unused node of a leaf. */
  function UnusedSlot(slots: seq<nat>): (k: nat)
    ensures k <= |slots| && (k < |slots| ==> slots[k] == 0)
    ensures forall j :: 0 <= j < k ==> slots[j] != 0
  {
    if slots == [] || slots[0] == 0 then 0 else 1 + UnusedSlot(slots[1..])
  }

  function OpenEntry(refs: seq<Ref>): (i: nat)
    ensures i <= |refs| && (i < |refs| ==> Open(refs[i]))
    ensures forall j :: 0 <= j < i ==> !Open(refs[j])
  {
    if refs == [] || Open(refs[0]) then 0 else 1 + OpenEntry(refs[1..])
  }

  /** First entry that refers to nothing. */
  function VacantEntry(refs: seq<Ref>): (i: nat)
    ensures i <= |refs| && (i < |refs| ==> refs[i].block == 0)
    ensures forall j :: 0 <= j < i ==> refs[j].block != 0
  {
    if refs == [] || refs[0].block == 0 then 0 else 1 + VacantEntry(refs[1..])
  }

  /** The number that a new node gets below container c: that of the first unused node of the leaf that one
      comes to by going down to the first container with room, or if there is none the first that a
      container in the first vacant entry has.  A full container has the number behind all of its own. */
  ghost function NextNumber(t: Tree, c: nat): nat
    requires Wf(t) && c in t.blocks
    decreases t.level[c]
  {
    ShapedAt(t, c);
    match t.blocks[c]
    case Leaf(first, slots) => first + UnusedSlot(slots)
    case Index(first, nodes, refs) =>
      var i := OpenEntry(refs);
      if i < |refs| then
        assert Refers(t, c, i);
        ChildAt(t, c, i);
        NextNumber(t, Child(t, c, i))
      else first + VacantEntry(refs) * nodes
  }

  lemma NextLeaf(t: Tree, c: nat, k: nat)
    requires Wf(t) && c in t.blocks && t.blocks[c].Leaf? && k <= |t.blocks[c].slots|
    requires k < |t.blocks[c].slots| ==> t.blocks[c].slots[k] == 0
    requires forall j :: 0 <= j < k ==> t.blocks[c].slots[j] != 0
    ensures NextNumber(t, c) == t.blocks[c].first + k
  {
    hide Wf, UnusedSlot;
    var s := UnusedSlot(t.blocks[c].slots);
    assert s == k;
  }

  lemma NextBelow(t: Tree, c: nat, i: nat)
    requires Wf(t) && c in t.blocks && t.blocks[c].Index? && i < |t.blocks[c].refs| && Open(t.blocks[c].refs[i])
    requires forall j :: 0 <= j < i ==> !Open(t.blocks[c].refs[j])
    ensures t.blocks[c].refs[i].block in t.blocks
    ensures NextNumber(t, c) == NextNumber(t, t.blocks[c].refs[i].block)
  {
    hide Wf, OpenEntry;
    assert Refers(t, c, i);
    ChildAt(t, c, i);
    assert OpenEntry(t.blocks[c].refs) == i;
  }

  lemma NextVacant(t: Tree, c: nat, i: nat)
    requires Wf(t) && c in t.blocks && t.blocks[c].Index? && i <= |t.blocks[c].refs|
    requires forall j :: 0 <= j < |t.blocks[c].refs| ==> !Open(t.blocks[c].refs[j])
    requires i < |t.blocks[c].refs| ==> t.blocks[c].refs[i].block == 0
    requires forall j :: 0 <= j < i ==> t.blocks[c].refs[j].block != 0
    ensures NextNumber(t, c) == t.blocks[c].first + i * t.blocks[c].nodes
  {
    hide Wf, OpenEntry, VacantEntry;
    assert OpenEntry(t.blocks[c].refs) == |t.blocks[c].refs|;
    assert VacantEntry(t.blocks[c].refs) == i;
  }

  /** With a new container under the first vacant entry the number is still the same. */
  lemma NextAdded(t: Tree, c: nat, i: nat, t': Tree, d: nat)
    requires Wf(t) && c in t.blocks && t.blocks[c].Index? && i < |t.blocks[c].refs|
    requires forall j :: 0 <= j < |t.blocks[c].refs| ==> !Open(t.blocks[c].refs[j])
    requires t.blocks[c].refs[i].block == 0 && forall j :: 0 <= j < i ==> t.blocks[c].refs[j].block != 0
    requires Wf(t') && c in t'.blocks && t'.blocks[c] == Put(t.blocks[c], i, Ref(d, false)) && d in t'.blocks
    requires IsEmpty(t'.blocks[d]) && t'.blocks[d].first == t.blocks[c].first + i * t.blocks[c].nodes
    ensures NextNumber(t', c) == NextNumber(t, c)
  {
    hide Wf, NextNumber;
    NextVacant(t, c, i);
    ShapedAt(t', d);
    NextBelow(t', c, i);
    if t'.blocks[d].Leaf? {
      NextLeaf(t', d, 0);
    } else {
      NextVacant(t', d, 0);
    }
  }

  /** A new level leaves the number as it is. */
  lemma NextGrown(t: Tree, t': Tree, d: nat)
    requires Wf(t) && t.root in t.blocks && IsFull(t.blocks[t.root]) && Wf(t') && t'.root in t'.blocks
    requires t'.blocks[t'.root] == Index(t.blocks[t.root].first,
        if t.blocks[t.root].Leaf? then t.m else t.blocks[t.root].nodes * t.fan,
        [Ref(d, true)] + seq(t'.fan - 1, _ => NONE)) && t'.fan >= 2 && d != 0
    ensures NextNumber(t', t'.root) == NextNumber(t, t.root)
  {
    hide Wf, NextNumber;
    var b := t.blocks[t.root];
    ShapedAt(t, t.root);
    NextVacant(t', t'.root, 1);
    match b {
      case Leaf(_, slots) => NextLeaf(t, t.root, |slots|);
      case Index(_, _, refs) => NextVacant(t, t.root, |refs|);
    }
  }

  // ----- What the number means

  /** The leaf that holds number n, 0 if there is none. */
  ghost function LeafOf(t: Tree, c: nat, n: nat): nat
    requires Wf(t) && c in t.blocks
    decreases t.level[c]
  {
    ShapedAt(t, c);
    if !InRange(t, c, n) then 0
    else
      match t.blocks[c]
      case Leaf(_, _) => c
      case Index(_, _, refs) =>
        EntryInside(t, c, n);
        var i := EntryOf(t.blocks[c], n);
        if refs[i].block == 0 then 0
        else
          ChildAt(t, c, i);
          LeafOf(t, Child(t, c, i), n)
  }

  lemma LeafStep(t: Tree, c: nat, n: nat)
    requires Wf(t) && c in t.blocks && t.blocks[c].Index? && c in t.level && InRange(t, c, n)
    ensures t.blocks[c].nodes > 0 && EntryOf(t.blocks[c], n) < |t.blocks[c].refs|
    ensures var i := EntryOf(t.blocks[c], n);
      && (!Refers(t, c, i) ==> LeafOf(t, c, n) == 0)
      && (Refers(t, c, i) ==> Child(t, c, i) in t.blocks && LeafOf(t, c, n) == LeafOf(t, Child(t, c, i), n))
  {
    EntryInside(t, c, n);
  }

  /** Below a container with room the new number is one of its own. */
  lemma {:induction false} NextInside(t: Tree, c: nat)
    requires Wf(t) && BitsOk(t, 0) && c in t.blocks && !IsFull(t.blocks[c])
    ensures c in t.level && InRange(t, c, NextNumber(t, c))
    decreases t.level[c]
  {
    hide Wf, BitsOk, NextNumber, Span, EntryOf;
    TopAt(t);
    ShapedAt(t, c);
    match t.blocks[c] {
      case Leaf(first, slots) =>
        hide UnusedSlot;
        SpanLeaf(t);
        NextLeaf(t, c, UnusedSlot(slots));
      case Index(first, nodes, refs) =>
        hide OpenEntry, VacantEntry;
        var i := OpenEntry(refs);
        if i < |refs| {
          assert Refers(t, c, i);
          BitAt(t, 0, c, i);
          ChildAt(t, c, i);
          NextBelow(t, c, i);
          NextInside(t, Child(t, c, i));
          ChildRange(t, c, i, NextNumber(t, c));
        } else {
          var v := VacantEntry(refs);
          assert v < |refs|;
          NextVacant(t, c, v);
          SpanGrows(t.m, t.fan, t.level[c] - 1);
          RoomBehind(v, nodes, t.fan);
          assert v * nodes >= 0;
        }
    }
  }

  lemma SpanLeaf(t: Tree)
    ensures Span(t.m, t.fan, 0) == t.m
  {
  }

  /** The new number is the least unused one of those that have a leaf already. */
  lemma {:induction false} NextIsFirst(t: Tree, c: nat, q: nat)
    requires Wf(t) && BitsOk(t, 0) && c in t.blocks && !IsFull(t.blocks[c])
    requires c in t.level && InRange(t, c, q) && q < NextNumber(t, c) && Lookup(t, c, q) == 0
    ensures LeafOf(t, c, q) == 0
    decreases t.level[c]
  {
    hide Wf, BitsOk, NextNumber, Span, EntryOf, Lookup, LeafOf, IsFull, OpenEntry, VacantEntry, UnusedSlot;
    ShapedAt(t, c);
    match t.blocks[c] {
      case Leaf(first, slots) =>
        LookupLeaf(t, c, q);
        NextLeaf(t, c, UnusedSlot(slots));
      case Index(first, nodes, refs) =>
        LookupStep(t, c, q);
        LeafStep(t, c, q);
        var j := EntryOf(t.blocks[c], q);
        if Refers(t, c, j) {
          ChildAt(t, c, j);
          ChildRange(t, c, j, q);
          BitAt(t, 0, c, j);
          FullMeans(t, Child(t, c, j));
          NextEntry(t, c, q);
          NextBelow(t, c, j);
          NextIsFirst(t, Child(t, c, j), q);
        }
    }
  }

  /** An unused number in front of the new one that has a container is below the same one. */
  lemma NextEntry(t: Tree, c: nat, q: nat)
    requires Wf(t) && BitsOk(t, 0) && c in t.blocks && t.blocks[c].Index? && !IsFull(t.blocks[c])
    requires c in t.level && InRange(t, c, q) && q < NextNumber(t, c) && t.blocks[c].nodes > 0
    requires var j := EntryOf(t.blocks[c], q); j < |t.blocks[c].refs| && Open(t.blocks[c].refs[j])
    ensures forall i :: 0 <= i < EntryOf(t.blocks[c], q) ==> !Open(t.blocks[c].refs[i])
  {
    hide Wf, BitsOk, NextNumber, Span, EntryOf, IsFull, OpenEntry, VacantEntry;
    var refs := t.blocks[c].refs;
    var i, j := OpenEntry(refs), EntryOf(t.blocks[c], q);
    ShapedAt(t, c);
    assert i <= j;
    assert Refers(t, c, i);
    ChildAt(t, c, i);
    BitAt(t, 0, c, i);
    NextBelow(t, c, i);
    NextInside(t, Child(t, c, i));
    ChildRange(t, c, i, NextNumber(t, c));
    EntryInOrder(t, c, q, NextNumber(t, c));
  }

  lemma EntryInOrder(t: Tree, c: nat, a: nat, b: nat)
    requires Wf(t) && c in t.blocks && t.blocks[c].Index? && c in t.level
    requires a <= b && InRange(t, c, a) && InRange(t, c, b)
    ensures t.blocks[c].nodes > 0 && EntryOf(t.blocks[c], a) <= EntryOf(t.blocks[c], b)
  {
    hide Wf, Span;
    EntryInside(t, c, a);
    EntryInside(t, c, b);
    Quotients(a - t.blocks[c].first, b - t.blocks[c].first, t.blocks[c].nodes);
  }

  lemma Quotients(a: nat, b: nat, n: nat)
    requires n > 0 && a <= b
    ensures a / n <= b / n
  {
    var i, j, d := a / n, b / n, a / n - b / n;
    assert a >= i * n && b < j * n + n;
    assert (i - j) * n == i * n - j * n;
    Ranges.AtLeast(d, n);
  }
}
