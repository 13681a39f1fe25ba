/** How the operations of FS/redblacktree.c change the links of the nodes. */
module RBLinks {
  import opened RBShape

  // ----- Rotations as changes of links

  ghost function TurnedLeft(t: Tree): Tree
    requires t.Branch? && t.right.Branch?
  {
    Branch(Branch(t.left, t.node, t.color, t.right.left), t.right.node, t.right.color, t.right.right)
  }

  ghost function TurnedRight(t: Tree): Tree
    requires t.Branch? && t.left.Branch?
  {
    Branch(t.left.left, t.left.node, t.left.color, Branch(t.left.right, t.node, t.color, t.right))
  }

  /** The node that a hole hangs from or that a subtree starts with. */
  ghost function TopNode(p: Path): set<Node> { if p.Top? then {} else {p.node} }

  ghost function HeadNode(t: Tree): set<Node> { if t.Leaf? then {} else {t.node} }

  /** The links m' after n' took the place in the hole. */
  ghost predicate Rehung(p: Path, n': Node, root: Node, root': Node, m: Links, m': Links) {
    match p
    case Top => root' == n'
    case InLeft(_, x, _, _) => root' == root && x in m && x in m' && m'[x] == m[x].(left := n')
    case InRight(_, _, x, _) => root' == root && x in m && x in m' && m'[x] == m[x].(right := n')
  }

  ghost predicate Reparented(t: Tree, parent: Node?, m: Links, m': Links) {
    t.Branch? ==> t.node in m && t.node in m' && m'[t.node] == m[t.node].(parent := parent)
  }

  /** The links m' after a rotation of t to the left. */
  ghost predicate LinksLeft(p: Path, t: Tree, root: Node, root': Node, m: Links, m': Links)
    requires t.Branch? && t.right.Branch?
  {
    var x, y, b := t.node, t.right.node, t.right.left;
    && Rehung(p, y, root, root', m, m') && Reparented(b, x, m, m') && x in m && y in m && x in m' && y in m'
    && m'[x] == Fields(m[x].left, m[y].left, y, m[x].color)
    && m'[y] == Fields(x, m[y].right, m[x].parent, m[y].color)
    && SameBut({x, y} + HeadNode(b) + TopNode(p), m, m')
  }

  ghost predicate LinksRight(p: Path, t: Tree, root: Node, root': Node, m: Links, m': Links)
    requires t.Branch? && t.left.Branch?
  {
    var x, y, b := t.node, t.left.node, t.left.right;
    && Rehung(p, y, root, root', m, m') && Reparented(b, x, m, m') && x in m && y in m && x in m' && y in m'
    && m'[x] == Fields(m[y].right, m[x].right, y, m[x].color)
    && m'[y] == Fields(m[y].left, x, m[x].parent, m[y].color)
    && SameBut({x, y} + HeadNode(b) + TopNode(p), m, m')
  }

  lemma LinkedLeft(p: Path, t: Tree, root: Node, root': Node, sentinel: Node, m: Links, m': Links)
    requires t.Branch? && t.right.Branch? && Apart(t) && PathApart(p) && Nodes(t) !! PathNodes(p)
    requires Linked(t, t.node, ParentOf(p), sentinel, m) && PathLinked(p, t.node, root, sentinel, m)
    requires LinksLeft(p, t, root, root', m, m')
    ensures Linked(TurnedLeft(t), t.right.node, ParentOf(p), sentinel, m')
    ensures PathLinked(p, t.right.node, root', sentinel, m')
  {
    var x, y, a, b, d := t.node, t.right.node, t.left, t.right.left, t.right.right;
    LinkedSame(a, m[x].left, x, sentinel, m, m');
    LinkedSame(d, m[y].right, y, sentinel, m, m');
    LinkedMoved(b, m[y].left, y, x, sentinel, m, m');
    PathMoved(p, x, y, root, root', sentinel, m, m');
  }

  lemma LinkedRight(p: Path, t: Tree, root: Node, root': Node, sentinel: Node, m: Links, m': Links)
    requires t.Branch? && t.left.Branch? && Apart(t) && PathApart(p) && Nodes(t) !! PathNodes(p)
    requires Linked(t, t.node, ParentOf(p), sentinel, m) && PathLinked(p, t.node, root, sentinel, m)
    requires LinksRight(p, t, root, root', m, m')
    ensures Linked(TurnedRight(t), t.left.node, ParentOf(p), sentinel, m')
    ensures PathLinked(p, t.left.node, root', sentinel, m')
  {
    var x, y, a, b, d := t.node, t.left.node, t.left.left, t.left.right, t.right;
    LinkedSame(a, m[y].left, y, sentinel, m, m');
    LinkedSame(d, m[x].right, x, sentinel, m, m');
    LinkedMoved(b, m[y].right, y, x, sentinel, m, m');
    PathMoved(p, x, y, root, root', sentinel, m, m');
  }

  lemma LinkedPaint(p: Path, t: Tree, c: Color, root: Node, sentinel: Node, m: Links, m': Links)
    requires t.Branch? && Apart(t) && Nodes(t) !! PathNodes(p)
    requires Linked(t, t.node, ParentOf(p), sentinel, m) && PathLinked(p, t.node, root, sentinel, m)
    requires t.node in m && t.node in m' && m'[t.node] == m[t.node].(color := c) && SameBut({t.node}, m, m')
    ensures Linked(t.(color := c), t.node, ParentOf(p), sentinel, m') && PathLinked(p, t.node, root, sentinel, m')
    ensures Nodes(t.(color := c)) == Nodes(t) && Apart(t.(color := c)) && Inorder(t.(color := c)) == Inorder(t)
  {
    LinkedSame(t.left, m[t.node].left, t.node, sentinel, m, m');
    LinkedSame(t.right, m[t.node].right, t.node, sentinel, m, m');
    PathLinkedSame(p, t.node, root, sentinel, m, m');
  }

  lemma SameOrder(p: Path, t: Tree, t': Tree)
    requires Inorder(t) == Inorder(t')
    ensures Inorder(Plug(p, t)) == Inorder(Plug(p, t'))
  {
    InorderPlug(p, t);
    InorderPlug(p, t');
  }

  lemma TurnedLeftKeeps(t: Tree)
    requires t.Branch? && t.right.Branch? && Apart(t)
    ensures Apart(TurnedLeft(t)) && Nodes(TurnedLeft(t)) == Nodes(t) && Inorder(TurnedLeft(t)) == Inorder(t)
  {
    hide Inorder;
    TurnedLeftOrder(t);
  }

  lemma TurnedRightKeeps(t: Tree)
    requires t.Branch? && t.left.Branch? && Apart(t)
    ensures Apart(TurnedRight(t)) && Nodes(TurnedRight(t)) == Nodes(t) && Inorder(TurnedRight(t)) == Inorder(t)
  {
    hide Inorder;
    TurnedRightOrder(t);
  }

  lemma TurnedLeftOrder(t: Tree)
    requires t.Branch? && t.right.Branch?
    ensures Inorder(TurnedLeft(t)) == Inorder(t)
  {
    Five(Inorder(t.left), t.node, Inorder(t.right.left), t.right.node, Inorder(t.right.right));
  }

  lemma TurnedRightOrder(t: Tree)
    requires t.Branch? && t.left.Branch?
    ensures Inorder(TurnedRight(t)) == Inorder(t)
  {
    Five(Inorder(t.left.left), t.left.node, Inorder(t.left.right), t.node, Inorder(t.right));
  }

  lemma Five(a: seq<Node>, x: Node, b: seq<Node>, y: Node, d: seq<Node>)
    ensures (a + [x] + b) + [y] + d == a + [x] + (b + [y] + d)
  {
  }

  lemma LinkedRoot(t: Tree, n: Node, parent: Node?, sentinel: Node, m: Links)
    requires Linked(t, n, parent, sentinel, m)
    ensures n == RootOf(t, sentinel)
    ensures t.Branch? ==> n in Nodes(t) && n != sentinel && n in m && m[n].parent == parent && m[n].color == t.color
    ensures t.Branch? ==> m[n].left == RootOf(t.left, sentinel) && m[n].right == RootOf(t.right, sentinel)
    ensures t.Branch? ==> Linked(t.left, m[n].left, n, sentinel, m) && Linked(t.right, m[n].right, n, sentinel, m)
  {
  }

  lemma {:induction false} RootOnPath(p: Path, n: Node, root: Node, sentinel: Node, m: Links)
    requires !p.Top? && PathLinked(p, n, root, sentinel, m)
    ensures root in PathNodes(p) && p.node in PathNodes(p) && p.node in m && m[p.node].color == p.color
    ensures m[p.node].parent == ParentOf(p.up) && root != sentinel && p.node != sentinel
    decreases p
  {
    if !p.up.Top? {
      RootOnPath(p.up, p.node, root, sentinel, m);
    }
  }

  lemma SidesApart(p: Path, t: Tree)
    requires t.Branch? && Apart(t) && Nodes(t) !! PathNodes(p)
    ensures Nodes(t) == Nodes(t.left) + {t.node} + Nodes(t.right) && Nodes(t.left) !! Nodes(t.right)
    ensures t.node !in Nodes(t.left) && t.node !in Nodes(t.right)
    ensures t.left.Branch? ==> t.left.node in Nodes(t.left)
    ensures t.right.Branch? ==> t.right.node in Nodes(t.right)
    ensures !p.Top? ==> p.node in PathNodes(p)
  {
  }

  /** Links with y in the place of the root of t. */
  lemma LinkedReplaced(p: Path, t: Tree, y: Node, root0: Node, root: Node, sentinel: Node, m: Links, m': Links)
    requires t.Branch? && Apart(t) && PathApart(p) && Nodes(t) !! PathNodes(p) && y !in Nodes(t) && y !in PathNodes(p)
    requires Linked(t, t.node, ParentOf(p), sentinel, m) && PathLinked(p, t.node, root0, sentinel, m) && y != sentinel
    requires Rehung(p, y, root0, root, m, m') && Reparented(t.left, y, m, m') && Reparented(t.right, y, m, m')
    requires y in m' && m'[y] == Fields(m[t.node].left, m[t.node].right, ParentOf(p), t.color)
    requires SameBut({t.node} + HeadNode(t.left) + HeadNode(t.right) + TopNode(p), m, m')
    ensures var t' := t.(node := y);
      && Linked(t', y, ParentOf(p), sentinel, m') && PathLinked(p, y, root, sentinel, m')
      && Nodes(t') == Nodes(t) - {t.node} + {y} && Apart(t')
  {
    LinkedMoved(t.left, m[t.node].left, t.node, y, sentinel, m, m');
    LinkedMoved(t.right, m[t.node].right, t.node, y, sentinel, m, m');
    PathMoved(p, t.node, y, root0, root, sentinel, m, m');
  }

  /** Links with t in the place of its parent y. */
  lemma LinkedSpliced(q: Path, t: Tree, y: Node, root0: Node, root: Node, sentinel: Node, m: Links, m': Links)
    requires Apart(t) && PathApart(q) && Nodes(t) !! PathNodes(q) && y !in Nodes(t) && y !in PathNodes(q)
    requires Linked(t, RootOf(t, sentinel), y, sentinel, m) && PathLinked(q, y, root0, sentinel, m)
    requires Rehung(q, RootOf(t, sentinel), root0, root, m, m') && Reparented(t, ParentOf(q), m, m')
    requires SameBut({y} + HeadNode(t) + TopNode(q), m, m')
    ensures Linked(t, RootOf(t, sentinel), ParentOf(q), sentinel, m')
    ensures PathLinked(q, RootOf(t, sentinel), root, sentinel, m')
  {
    LinkedMoved(t, RootOf(t, sentinel), y, ParentOf(q), sentinel, m, m');
    PathMoved(q, y, RootOf(t, sentinel), root0, root, sentinel, m, m');
  }

  lemma WithoutOne(all: set<Node>, s: set<Node>, t: set<Node>, q: set<Node>, y: Node)
    requires all == s + q && s == t + {y} && y !in t && y !in q
    ensures all - {y} == t + q
  {
  }

  lemma PartsApart(q: Path, s: Tree, t: Tree)
    requires s.Branch? && (s.left.Leaf? || s.right.Leaf?) && t == if s.left.Branch? then s.left else s.right
    requires Apart(s) && Nodes(s) !! PathNodes(q)
    ensures Apart(t) && s.node !in Nodes(t) && s.node !in PathNodes(q) && Nodes(t) !! PathNodes(q)
    ensures Nodes(s) == Nodes(t) + {s.node}
    ensures t.Branch? ==> t.node in Nodes(t)
    ensures !q.Top? ==> q.node in PathNodes(q)
  {
  }

  /** Links with a new red node in the hole. */
  lemma LinkedNew(p: Path, x: Node, root0: Node, root: Node, sentinel: Node, m: Links, m': Links)
    requires PathApart(p) && PathLinked(p, sentinel, root0, sentinel, m) && x !in PathNodes(p) && x != sentinel
    requires Rehung(p, x, root0, root, m, m') && SameBut(TopNode(p), m, m')
    requires x in m' && m'[x] == Fields(sentinel, sentinel, ParentOf(p), Red)
    ensures var t := Branch(Leaf, x, Red, Leaf);
      && Linked(t, x, ParentOf(p), sentinel, m') && PathLinked(p, x, root, sentinel, m')
      && Nodes(t) == {x} && Apart(t)
  {
    PathMoved(p, sentinel, x, root0, root, sentinel, m, m');
  }

  // ----- All there is to know about the links of a tree

  /** m holds the links of the nodes of t and of no other. */
  ghost predicate Made(t: Tree, root: Node, sentinel: Node, m: Links) {
    m.Keys == Nodes(t) && sentinel !in m && Apart(t) && Linked(t, root, null, sentinel, m)
  }

  lemma MadeParts(p: Path, t: Tree, root: Node, sentinel: Node, m: Links)
    ensures Made(Plug(p, t), root, sentinel, m) <==>
      (&& m.Keys == Nodes(t) + PathNodes(p) && sentinel !in m && Apart(t) && PathApart(p) && Nodes(t) !! PathNodes(p)
       && Linked(t, RootOf(t, sentinel), ParentOf(p), sentinel, m)
           && PathLinked(p, RootOf(t, sentinel), root, sentinel, m))
  {
    ApartPlug(p, t);
    LinkedPlug(p, t, root, sentinel, m);
  }

  /** The node above the hole that n is in. */
  ghost predicate Hinge(p: Path, n: Node, root: Node, m: Links) {
    && (p.Top? ==> root == n)
    && (!p.Top? ==> p.node in m && p.node != n && root in m && root != n
                    && m[p.node].color == p.color && m[p.node].parent == ParentOf(p.up))
    && (p.InLeft? ==> m[p.node].left == n)
    && (p.InRight? ==> m[p.node].right == n)
  }

  /** What the links around a subtree are. */
  lemma MadeAround(p: Path, t: Tree, root: Node, sentinel: Node, m: Links)
    requires Made(Plug(p, t), root, sentinel, m)
    ensures var x := RootOf(t, sentinel);
      && sentinel !in m && Hinge(p, x, root, m)
      && (t.Branch? ==> x in m && m[x].parent == ParentOf(p) && m[x].color == t.color
                        && m[x].left == RootOf(t.left, sentinel) && m[x].right == RootOf(t.right, sentinel))
      && (p.InLeft? ==>
          m[p.node].right == RootOf(p.right, sentinel) && (t.Branch? || p.right.Branch? ==> m[p.node].right != x))
      && (p.InRight? ==>
          m[p.node].left == RootOf(p.left, sentinel) && (t.Branch? || p.left.Branch? ==> m[p.node].left != x))
  {
    hide Plug, Made;
    MadeParts(p, t, root, sentinel, m);
    LinkedRoot(t, RootOf(t, sentinel), ParentOf(p), sentinel, m);
    if p.InLeft? {
      LinkedRoot(p.right, m[p.node].right, p.node, sentinel, m);
    } else if p.InRight? {
      LinkedRoot(p.left, m[p.node].left, p.node, sentinel, m);
    }
    if !p.Top? {
      RootOnPath(p, RootOf(t, sentinel), root, sentinel, m);
    }
  }

  /** The children of a node. */
  lemma MadeBelow(p: Path, t: Tree, root: Node, sentinel: Node, m: Links)
    requires Made(Plug(p, t), root, sentinel, m) && t.Branch?
    ensures t.node in m && m[t.node].left == RootOf(t.left, sentinel) && m[t.node].right == RootOf(t.right, sentinel)
    ensures t.left.Branch? ==> (
      var l := t.left.node;
      && l in m && l != t.node && m[l].color == t.left.color
      && m[l].left == RootOf(t.left.left, sentinel) && m[l].right == RootOf(t.left.right, sentinel))
    ensures t.right.Branch? ==> (
      var r := t.right.node;
      && r in m && r != t.node && m[r].color == t.right.color
      && m[r].left == RootOf(t.right.left, sentinel) && m[r].right == RootOf(t.right.right, sentinel))
    ensures t.left.Branch? && t.right.Branch? ==> t.left.node != t.right.node
    ensures !p.Top? && t.left.Branch? ==> p.node != t.left.node
    ensures !p.Top? && t.right.Branch? ==> p.node != t.right.node
  {
    hide Plug, Made, PathNodes;
    MadeParts(p, t, root, sentinel, m);
    LinkedRoot(t, RootOf(t, sentinel), ParentOf(p), sentinel, m);
    LinkedRoot(t.left, m[t.node].left, t.node, sentinel, m);
    LinkedRoot(t.right, m[t.node].right, t.node, sentinel, m);
    SidesApart(p, t);
  }

  /** What a rotation to the left finds. */
  ghost predicate ReadyLeft(p: Path, t: Tree, root: Node, sentinel: Node, m: Links)
    requires t.Branch? && t.right.Branch?
  {
    var x, y, b := t.node, t.right.node, t.right.left;
    && x in m && y in m && x != y && sentinel !in m
    && m[x].right == y && m[y].left == RootOf(b, sentinel) && m[x].parent == ParentOf(p)
    && (b.Branch? ==> b.node in m && b.node !in {x, y})
    && (p.Top? ==> root == x)
    && (!p.Top? ==> p.node in m && p.node !in {x, y} && (b.Branch? ==> p.node != b.node))
    && (p.InLeft? ==> m[p.node].left == x && m[p.node].right != x)
    && (p.InRight? ==> m[p.node].right == x && m[p.node].left != x)
  }

  lemma MadeReadyLeft(p: Path, t: Tree, root: Node, sentinel: Node, m: Links)
    requires Made(Plug(p, t), root, sentinel, m) && t.Branch? && t.right.Branch?
    ensures ReadyLeft(p, t, root, sentinel, m)
  {
    hide Plug, Made;
    MadeParts(p, t, root, sentinel, m);
    MadeAround(p, t, root, sentinel, m);
    MadeBelow(p, t, root, sentinel, m);
    PlugOut(InRight(p, t.left, t.node, t.color), t.right);
    MadeBelow(InRight(p, t.left, t.node, t.color), t.right, root, sentinel, m);
  }

  /** What a rotation to the right finds. */
  ghost predicate ReadyRight(p: Path, t: Tree, root: Node, sentinel: Node, m: Links)
    requires t.Branch? && t.left.Branch?
  {
    var x, y, b := t.node, t.left.node, t.left.right;
    && x in m && y in m && x != y && sentinel !in m
    && m[x].left == y && m[y].right == RootOf(b, sentinel) && m[x].parent == ParentOf(p)
    && (b.Branch? ==> b.node in m && b.node !in {x, y})
    && (p.Top? ==> root == x)
    && (!p.Top? ==> p.node in m && p.node !in {x, y} && (b.Branch? ==> p.node != b.node))
    && (p.InRight? ==> m[p.node].right == x && m[p.node].left != x)
    && (p.InLeft? ==> m[p.node].left == x && m[p.node].right != x)
  }

  lemma MadeReadyRight(p: Path, t: Tree, root: Node, sentinel: Node, m: Links)
    requires Made(Plug(p, t), root, sentinel, m) && t.Branch? && t.left.Branch?
    ensures ReadyRight(p, t, root, sentinel, m)
  {
    hide Plug, Made;
    MadeParts(p, t, root, sentinel, m);
    MadeAround(p, t, root, sentinel, m);
    MadeBelow(p, t, root, sentinel, m);
    PlugOut(InLeft(p, t.node, t.color, t.right), t.left);
    MadeBelow(InLeft(p, t.node, t.color, t.right), t.left, root, sentinel, m);
  }

  lemma MadePaint(p: Path, t: Tree, c: Color, root: Node, sentinel: Node, m: Links, m': Links)
    requires Made(Plug(p, t), root, sentinel, m) && t.Branch? && m'.Keys == m.Keys
    requires t.node in m && m'[t.node] == m[t.node].(color := c) && SameBut({t.node}, m, m')
    ensures Made(Plug(p, Painted(t, c)), root, sentinel, m') && Inorder(Plug(p, Painted(t, c))) == Inorder(Plug(p, t))
  {
    hide Plug, Made, SameBut, Apart, PathApart, Linked, PathLinked, Nodes, PathNodes, Inorder;
    MadeParts(p, t, root, sentinel, m);
    LinkedPaint(p, t, c, root, sentinel, m, m');
    MadeParts(p, t.(color := c), root, sentinel, m');
    SameOrder(p, t, t.(color := c));
  }

  lemma MadeLeft(p: Path, t: Tree, root: Node, root': Node, sentinel: Node, m: Links, m': Links)
    requires Made(Plug(p, t), root, sentinel, m) && t.Branch? && t.right.Branch? && m'.Keys == m.Keys
    requires LinksLeft(p, t, root, root', m, m')
    ensures Made(Plug(p, TurnedLeft(t)), root', sentinel, m') && Inorder(Plug(p, TurnedLeft(t))) == Inorder(Plug(p, t))
  {
    hide Plug, Made, LinksLeft, Apart, PathApart, Linked, PathLinked, Nodes, PathNodes, Inorder;
    MadeParts(p, t, root, sentinel, m);
    LinkedLeft(p, t, root, root', sentinel, m, m');
    TurnedLeftKeeps(t);
    MadeParts(p, TurnedLeft(t), root', sentinel, m');
    SameOrder(p, t, TurnedLeft(t));
  }

  lemma MadeRight(p: Path, t: Tree, root: Node, root': Node, sentinel: Node, m: Links, m': Links)
    requires Made(Plug(p, t), root, sentinel, m) && t.Branch? && t.left.Branch? && m'.Keys == m.Keys
    requires LinksRight(p, t, root, root', m, m')
    ensures Made(Plug(p, TurnedRight(t)), root', sentinel, m')
    ensures Inorder(Plug(p, TurnedRight(t))) == Inorder(Plug(p, t))
  {
    hide Plug, Made, LinksRight, Apart, PathApart, Linked, PathLinked, Nodes, PathNodes, Inorder;
    MadeParts(p, t, root, sentinel, m);
    LinkedRight(p, t, root, root', sentinel, m, m');
    TurnedRightKeeps(t);
    MadeParts(p, TurnedRight(t), root', sentinel, m');
    SameOrder(p, t, TurnedRight(t));
  }

  /** A new red node in an empty hole. */
  lemma MadeNew(p: Path, x: Node, root: Node, root': Node, sentinel: Node, m: Links, m': Links)
    requires Made(Plug(p, Leaf), root, sentinel, m) && x !in m && x != sentinel && m'.Keys == m.Keys + {x}
    requires Rehung(p, x, root, root', m, m') && SameBut(TopNode(p), m, m')
    requires m'[x] == Fields(sentinel, sentinel, ParentOf(p), Red)
    ensures Made(Plug(p, Branch(Leaf, x, Red, Leaf)), root', sentinel, m')
  {
    hide Plug, Made, Rehung, SameBut, PathApart, PathLinked, PathNodes;
    MadeParts(p, Leaf, root, sentinel, m);
    LinkedNew(p, x, root, root', sentinel, m, m');
    MadeParts(p, Branch(Leaf, x, Red, Leaf), root', sentinel, m');
  }

  /** The only child in the place of its parent y. */
  lemma MadeSpliced(q: Path, s: Tree, t: Tree, root: Node, root': Node, sentinel: Node, m: Links, m': Links)
    requires Made(Plug(q, s), root, sentinel, m) && s.Branch? && (s.left.Leaf? || s.right.Leaf?)
    requires t == (if s.left.Branch? then s.left else s.right) && m'.Keys == m.Keys - {s.node}
    requires Rehung(q, RootOf(t, sentinel), root, root', m, m') && Reparented(t, ParentOf(q), m, m')
    requires SameBut({s.node} + HeadNode(t) + TopNode(q), m, m')
    ensures Made(Plug(q, t), root', sentinel, m')
  {
    hide Plug, Made, Rehung, Reparented, SameBut, Apart, PathApart, Linked, PathLinked, Nodes, PathNodes;
    var y := s.node;
    MadeParts(q, s, root, sentinel, m);
    LinkedRoot(s, y, ParentOf(q), sentinel, m);
    PartsApart(q, s, t);
    LinkedSpliced(q, t, y, root, root', sentinel, m, m');
    WithoutOne(m.Keys, Nodes(s), Nodes(t), PathNodes(q), y);
    MadeParts(q, t, root', sentinel, m');
  }

  /** y in the place of the root of t. */
  lemma MadeReplaced(p: Path, t: Tree, y: Node, root: Node, root': Node, sentinel: Node, m: Links, m': Links)
    requires Made(Plug(p, t), root, sentinel, m) && t.Branch? && y !in m && y != sentinel
    requires m'.Keys == m.Keys - {t.node} + {y}
    requires Rehung(p, y, root, root', m, m') && Reparented(t.left, y, m, m') && Reparented(t.right, y, m, m')
    requires t.node in m && m'[y] == Fields(m[t.node].left, m[t.node].right, ParentOf(p), t.color)
    requires SameBut({t.node} + HeadNode(t.left) + HeadNode(t.right) + TopNode(p), m, m')
    ensures Made(Plug(p, t.(node := y)), root', sentinel, m')
  {
    hide Plug, Made, Rehung, Reparented, SameBut, Apart, PathApart, Linked, PathLinked, Nodes, PathNodes;
    MadeParts(p, t, root, sentinel, m);
    LinkedReplaced(p, t, y, root, root', sentinel, m, m');
    LinkedRoot(t, t.node, ParentOf(p), sentinel, m);
    WithOther(m.Keys, Nodes(t), PathNodes(p), t.node, y);
    MadeParts(p, t.(node := y), root', sentinel, m');
  }

  lemma WithOther(all: set<Node>, t: set<Node>, p: set<Node>, z: Node, y: Node)
    requires all == t + p && t !! p && z in t && y !in all
    ensures all - {z} + {y} == (t - {z} + {y}) + p && (t - {z} + {y}) !! p
  {
  }
}
