/** Red-black trees of operations as values: what the links of FS/redblacktree.c stand for. */
module RBShape {
  import opened Log

  datatype Color = Red | Black

  /** A struct Operation: the links of the tree, the nest level of the transaction it belongs to
      and what it does to its block. */
  class Node {
    const op: Operation
    var left: Node
    var right: Node
    var parent: Node?
    var color: Color
    var level: nat

    constructor (op: Operation, level: nat)
      ensures this.op == op && this.level == level && left == this && right == this && parent == null && color == Black
    {
      this.op, this.level := op, level;
      left, right, parent, color := this, this, null, Black;
    }

    /** The field DATA the tree is ordered by. */
    function Key(): nat { op.blckno }
  }

  datatype Tree = Leaf | Branch(left: Tree, node: Node, color: Color, right: Tree)

  /** A tree with a hole: the way from the hole up to the root. */
  datatype Path =
    | Top
    | InLeft(up: Path, node: Node, color: Color, right: Tree)
    | InRight(up: Path, left: Tree, node: Node, color: Color)

  ghost function Plug(p: Path, t: Tree): Tree {
    match p
    case Top => t
    case InLeft(up, x, c, r) => Plug(up, Branch(t, x, c, r))
    case InRight(up, l, x, c) => Plug(up, Branch(l, x, c, t))
  }

  // ----- Order

  ghost function Inorder(t: Tree): seq<Node> {
    match t
    case Leaf => []
    case Branch(l, x, _, r) => Inorder(l) + [x] + Inorder(r)
  }

  /** What comes before and after the hole. */
  ghost function Before(p: Path): seq<Node> {
    match p
    case Top => []
    case InLeft(up, _, _, _) => Before(up)
    case InRight(up, l, x, _) => Before(up) + Inorder(l) + [x]
  }

  ghost function After(p: Path): seq<Node> {
    match p
    case Top => []
    case InLeft(up, x, _, r) => [x] + Inorder(r) + After(up)
    case InRight(up, _, _, _) => After(up)
  }

  lemma {:induction false} InorderPlug(p: Path, t: Tree)
    ensures Inorder(Plug(p, t)) == Before(p) + Inorder(t) + After(p)
  {
    match p
    case Top =>
    case InLeft(up, x, c, r) => InorderPlug(up, Branch(t, x, c, r));
    case InRight(up, l, x, c) => InorderPlug(up, Branch(l, x, c, t));
  }

  ghost predicate Ordered(s: seq<Node>) {
    forall i, j :: 0 <= i < j < |s| ==> s[i].Key() <= s[j].Key()
  }

  // ----- The nodes

  ghost function Nodes(t: Tree): set<Node> {
    match t
    case Leaf => {}
    case Branch(l, x, _, r) => Nodes(l) + {x} + Nodes(r)
  }

  ghost function PathNodes(p: Path): set<Node> {
    match p
    case Top => {}
    case InLeft(up, x, _, r) => PathNodes(up) + {x} + Nodes(r)
    case InRight(up, l, x, _) => PathNodes(up) + {x} + Nodes(l)
  }

  /** No node occurs twice. */
  ghost predicate Apart(t: Tree) {
    match t
    case Leaf => true
    case Branch(l, x, _, r) => x !in Nodes(l) && x !in Nodes(r) && Nodes(l) !! Nodes(r) && Apart(l) && Apart(r)
  }

  ghost predicate PathApart(p: Path) {
    match p
    case Top => true
    case InLeft(up, x, _, r) => x !in Nodes(r) && x !in PathNodes(up) && Nodes(r) !! PathNodes(up) && Apart(r)
      && PathApart(up)
    case InRight(up, l, x, _) =>
        x !in Nodes(l) && x !in PathNodes(up) && Nodes(l) !! PathNodes(up) && Apart(l) && PathApart(up)
  }

  lemma {:induction false} ApartPlug(p: Path, t: Tree)
    ensures Apart(Plug(p, t)) <==> Apart(t) && PathApart(p) && Nodes(t) !! PathNodes(p)
    ensures Nodes(Plug(p, t)) == Nodes(t) + PathNodes(p)
  {
    match p
    case Top =>
    case InLeft(up, x, c, r) => ApartPlug(up, Branch(t, x, c, r));
    case InRight(up, l, x, c) => ApartPlug(up, Branch(l, x, c, t));
  }

  lemma {:induction false} InorderNode(t: Tree, x: Node)
    ensures x in Inorder(t) <==> x in Nodes(t)
  {
    match t
    case Leaf =>
    case Branch(l, y, _, r) =>
      InorderNode(l, x);
      InorderNode(r, x);
  }

  lemma {:induction false} InorderOnce(t: Tree)
    requires Apart(t)
    ensures forall i, j :: 0 <= i < j < |Inorder(t)| ==> Inorder(t)[i] != Inorder(t)[j]
    ensures forall i :: 0 <= i < |Inorder(t)| ==> Inorder(t)[i] in Nodes(t)
  {
    if t.Branch? {
      InorderOnce(t.left);
      InorderOnce(t.right);
    }
  }

  // ----- Balance

  ghost function Height(t: Tree): nat {
    match t
    case Leaf => 0
    case Branch(l, _, c, _) => Height(l) + if c.Black? then 1 else 0
  }

  ghost predicate IsBlack(t: Tree) { t.Leaf? || t.color.Black? }

  /** Equal black heights everywhere and no red node below a red one. */
  ghost predicate Good(t: Tree) {
    match t
    case Leaf => true
    case Branch(l, _, c, r) => Good(l) && Good(r) && Height(l) == Height(r) && (c.Red? ==> IsBlack(l) && IsBlack(r))
  }

  /** A good tree of black height h goes into the hole; a red root only if `red`. */
  ghost predicate PathGood(p: Path, h: nat, red: bool) {
    match p
    case Top => !red
    case InLeft(up, _, c, r) =>
      && Good(r) && Height(r) == h && (c.Red? ==> IsBlack(r) && !red)
      && PathGood(up, h + (if c.Black? then 1 else 0), c.Red?)
    case InRight(up, l, _, c) =>
      && Good(l) && Height(l) == h && (c.Red? ==> IsBlack(l) && !red)
      && PathGood(up, h + (if c.Black? then 1 else 0), c.Red?)
  }

  /** A red-black tree. */
  ghost predicate RedBlack(t: Tree) { Good(t) && IsBlack(t) }

  lemma {:induction false} GoodPlug(p: Path, t: Tree)
    ensures RedBlack(Plug(p, t)) <==> Good(t) && PathGood(p, Height(t), !IsBlack(t))
  {
    if !p.Top? {
      hide Good, PathGood, Height;
      var s := Out(p, t);
      PlugOut(p, t);
      GoodPlug(p.up, s);
      GoodStep(s);
      PathGoodStep(p, Height(t), !IsBlack(t));
    }
  }

  ghost function Dark(t: Tree): Tree {
    if t.Leaf? then Leaf else t.(color := Black)
  }

  ghost function Painted(t: Tree, c: Color): Tree {
    if t.Leaf? then Leaf else t.(color := c)
  }

  // ----- Moving about

  /** The tree around the hole, one level up. */
  ghost function Out(p: Path, t: Tree): Tree
    requires !p.Top?
  {
    if p.InLeft? then Branch(t, p.node, p.color, p.right) else Branch(p.left, p.node, p.color, t)
  }

  /** The tree beside the hole, and the way to it. */
  ghost function Beside(p: Path): Tree
    requires !p.Top?
  {
    if p.InLeft? then p.right else p.left
  }

  ghost function PathBeside(p: Path, t: Tree): Path
    requires !p.Top?
  {
    if p.InLeft? then InRight(p.up, t, p.node, p.color) else InLeft(p.up, p.node, p.color, t)
  }

  ghost function WithBeside(p: Path, s: Tree): Path
    requires !p.Top?
  {
    if p.InLeft? then p.(right := s) else p.(left := s)
  }

  ghost function Recolored(p: Path, c: Color): Path
    requires !p.Top?
  {
    p.(color := c)
  }

  lemma PlugOut(p: Path, t: Tree)
    requires !p.Top?
    ensures Plug(p, t) == Plug(p.up, Out(p, t)) == Plug(PathBeside(p, t), Beside(p))
  {
  }

  ghost function PathLen(p: Path): nat {
    if p.Top? then 0 else 1 + PathLen(p.up)
  }

  lemma PathGoodStep(p: Path, h: nat, red: bool)
    requires !p.Top?
    ensures PathGood(p, h, red) <==>
      (&& Good(Beside(p)) && Height(Beside(p)) == h && (p.color.Red? ==> IsBlack(Beside(p)) && !red)
       && PathGood(p.up, h + (if p.color.Black? then 1 else 0), p.color.Red?))
  {
  }

  lemma GoodStep(t: Tree)
    requires t.Branch?
    ensures Good(t) <==> (&& Good(t.left) && Good(t.right) && Height(t.left) == Height(t.right)
                          && (t.color.Red? ==> IsBlack(t.left) && IsBlack(t.right)))
    ensures Height(t) == Height(t.left) + if t.color.Black? then 1 else 0
  {
  }

  // ----- Inserting: a red node that may hang below a red one

  ghost predicate RedSpot(p: Path, t: Tree) {
    t.Branch? && t.color.Red? && Good(t) && PathGood(p, Height(t), false)
  }

  lemma RedSpotEnds(p: Path, t: Tree)
    requires RedSpot(p, t)
    ensures !p.Top? && p.color.Black? ==> RedBlack(Plug(p, t))
    ensures p.Top? ==> RedBlack(t.(color := Black))
    ensures !p.Top? && p.color.Red? ==> !p.up.Top? && p.up.color.Black?
  {
    GoodPlug(p, t);
    GoodStep(t);
    if p.Top? {
      GoodStep(t.(color := Black));
    } else {
      PathGoodStep(p, Height(t), false);
      PathGoodStep(p, Height(t), true);
    }
  }

  lemma RedSpotSettled(p: Path, t: Tree)
    requires RedSpot(p, t) && (!p.Top? ==> p.color.Black?)
    ensures RedBlack(Painted(Plug(p, t), Black))
  {
    RedSpotEnds(p, t);
  }

  /** A red parent and a red uncle are painted black, the grandparent red. */
  ghost function Lifted(p: Path, t: Tree): Tree
    requires !p.Top? && !p.up.Top?
  {
    Painted(Out(WithBeside(p.up, Painted(Beside(p.up), Black)), Painted(Out(p, t), Black)), Red)
  }

  lemma LiftedSpot(p: Path, t: Tree)
    requires RedSpot(p, t) && !p.Top? && p.color.Red? && !p.up.Top? && !IsBlack(Beside(p.up))
    ensures RedSpot(p.up.up, Lifted(p, t))
  {
    var h := Height(t);
    PathGoodStep(p, h, false);
    PathGoodStep(p.up, h, true);
    GoodStep(Beside(p.up));
    var a := Painted(Out(p, t), Black);
    var u := Painted(Beside(p.up), Black);
    GoodStep(a);
    GoodStep(u);
    GoodStep(Lifted(p, t));
  }

  /** The red node becomes an outer child. */
  lemma InnerSpot(p: Path, t: Tree)
    requires RedSpot(p, t) && !p.Top? && p.color.Red?
    ensures p.InRight? ==> RedSpot(InLeft(p.up, t.node, t.color, t.right), Branch(p.left, p.node, p.color, t.left))
    ensures p.InLeft? ==> RedSpot(InRight(p.up, t.left, t.node, t.color), Branch(t.right, p.node, p.color, p.right))
  {
    var h := Height(t);
    PathGoodStep(p, h, false);
    GoodStep(t);
    if p.InRight? {
      var t', p' := Branch(p.left, p.node, p.color, t.left), InLeft(p.up, t.node, t.color, t.right);
      GoodStep(t');
      PathGoodStep(p', h, false);
    } else {
      var t', p' := Branch(t.right, p.node, p.color, p.right), InRight(p.up, t.left, t.node, t.color);
      GoodStep(t');
      PathGoodStep(p', h, false);
    }
  }

  /** An outer red child: the parent takes the place of the grandparent. */
  lemma OuterSpot(p: Path, t: Tree)
    requires RedSpot(p, t) && !p.Top? && p.color.Red? && !p.up.Top? && IsBlack(Beside(p.up))
    ensures p.InLeft? && p.up.InLeft? ==>
      RedSpot(InLeft(p.up.up, p.node, Black, Branch(p.right, p.up.node, Red, p.up.right)), t)
    ensures p.InRight? && p.up.InRight? ==>
      RedSpot(InRight(p.up.up, Branch(p.up.left, p.up.node, Red, p.left), p.node, Black), t)
  {
    var h := Height(t);
    PathGoodStep(p, h, false);
    PathGoodStep(p.up, h, true);
    if p.InLeft? && p.up.InLeft? {
      var s := Branch(p.right, p.up.node, Red, p.up.right);
      GoodStep(s);
      PathGoodStep(InLeft(p.up.up, p.node, Black, s), h, false);
    } else if p.InRight? && p.up.InRight? {
      var s := Branch(p.up.left, p.up.node, Red, p.left);
      GoodStep(s);
      PathGoodStep(InRight(p.up.up, s, p.node, Black), h, false);
    }
  }

  // ----- Deleting: a hole that lacks one black node

  ghost predicate Short(p: Path, t: Tree) {
    Good(Dark(t)) && PathGood(p, Height(Dark(t)) + (if IsBlack(t) then 1 else 0), false)
  }

  lemma ShortEnds(p: Path, t: Tree)
    requires Short(p, t) && (p.Top? || !IsBlack(t))
    ensures RedBlack(Plug(p, Dark(t)))
  {
    GoodPlug(p, Dark(t));
  }

  lemma ShortTop(t: Tree)
    requires RedBlack(t)
    ensures Short(Top, t) && Plug(Top, t) == t && IsBlack(t)
  {
  }

  /** The sibling is never the sentinel. */
  lemma SiblingExists(p: Path, t: Tree)
    requires Short(p, t) && !p.Top? && IsBlack(t)
    ensures Beside(p).Branch? && Good(Beside(p))
    ensures Beside(p).color.Red? ==> p.color.Black? && Beside(p).left.Branch? && Beside(p).right.Branch?
  {
    PathGoodStep(p, Height(t) + 1, false);
    GoodStep(Beside(p));
  }

  /** A red sibling: it takes the place of the parent, which becomes red. */
  lemma ShortRedSibling(p: Path, t: Tree)
    requires Short(p, t) && !p.Top? && IsBlack(t) && !IsBlack(Beside(p))
    ensures p.InLeft? ==> Short(InLeft(InLeft(p.up, p.right.node, Black, p.right.right), p.node, Red, p.right.left), t)
    ensures p.InRight? ==> Short(InRight(InRight(p.up, p.left.left, p.left.node, Black), p.left.right, p.node, Red), t)
  {
    var h := Height(t) + 1;
    PathGoodStep(p, h, false);
    GoodStep(Beside(p));
    if p.InLeft? {
      var up := InLeft(p.up, p.right.node, Black, p.right.right);
      PathGoodStep(up, h, true);
      PathGoodStep(InLeft(up, p.node, Red, p.right.left), h, false);
    } else {
      var up := InRight(p.up, p.left.left, p.left.node, Black);
      PathGoodStep(up, h, true);
      PathGoodStep(InRight(up, p.left.right, p.node, Red), h, false);
    }
  }

  lemma {:induction false} PathGoodDark(p: Path, h: nat)
    requires PathGood(p, h, true)
    ensures PathGood(p, h, false)
  {
    if !p.Top? {
      PathGoodStep(p, h, true);
      PathGoodStep(p, h, false);
    }
  }

  /** A black sibling with black children becomes red. */
  lemma ShortBlackSibling(p: Path, t: Tree)
    requires Short(p, t) && !p.Top? && IsBlack(t) && Beside(p).Branch? && Beside(p).color.Black?
    requires IsBlack(Beside(p).left) && IsBlack(Beside(p).right)
    ensures Short(p.up, Out(WithBeside(p, Painted(Beside(p), Red)), t))
  {
    PathGoodStep(p, Height(t) + 1, false);
    GoodStep(Beside(p));
    var w := Painted(Beside(p), Red);
    GoodStep(w);
    var t' := Out(WithBeside(p, w), t);
    GoodStep(t');
    GoodStep(Dark(t'));
    if p.color.Red? { PathGoodDark(p.up, Height(t) + 1); }
  }

  /** A black sibling with a red child on the far side ends it. */
  lemma ShortFarRed(p: Path, t: Tree)
    requires Short(p, t) && !p.Top? && IsBlack(t) && Beside(p).Branch? && Beside(p).color.Black?
    ensures p.InLeft? && !IsBlack(p.right.right) ==>
      var w := p.right;
      RedBlack(Plug(p.up, Branch(Branch(t, p.node, Black, w.left), w.node, p.color, Painted(w.right, Black))))
    ensures p.InRight? && !IsBlack(p.left.left) ==>
      var w := p.left;
      RedBlack(Plug(p.up, Branch(Painted(w.left, Black), w.node, p.color, Branch(w.right, p.node, Black, t))))
  {
    PathGoodStep(p, Height(t) + 1, false);
    GoodStep(Beside(p));
    if p.InLeft? && !IsBlack(p.right.right) {
      var w := p.right;
      var a, b := Branch(t, p.node, Black, w.left), Painted(w.right, Black);
      GoodStep(w.right);
      GoodStep(a);
      GoodStep(b);
      GoodStep(Branch(a, w.node, p.color, b));
      GoodPlug(p.up, Branch(a, w.node, p.color, b));
    } else if p.InRight? && !IsBlack(p.left.left) {
      var w := p.left;
      var a, b := Painted(w.left, Black), Branch(w.right, p.node, Black, t);
      GoodStep(w.left);
      GoodStep(a);
      GoodStep(b);
      GoodStep(Branch(a, w.node, p.color, b));
      GoodPlug(p.up, Branch(a, w.node, p.color, b));
    }
  }

  /** A red child on the near side is turned to the far side. */
  lemma ShortNearRed(p: Path, t: Tree)
    requires Short(p, t) && !p.Top? && IsBlack(t) && Beside(p).Branch? && Beside(p).color.Black?
    ensures p.InLeft? && !IsBlack(p.right.left) && IsBlack(p.right.right) ==>
      var w := p.right;
      Short(p.(right := Branch(w.left.left, w.left.node, Black, Branch(w.left.right, w.node, Red, w.right))), t)
    ensures p.InRight? && !IsBlack(p.left.right) && IsBlack(p.left.left) ==>
      var w := p.left;
      Short(p.(left := Branch(Branch(w.left, w.node, Red, w.right.left), w.right.node, Black, w.right.right)), t)
  {
    PathGoodStep(p, Height(t) + 1, false);
    GoodStep(Beside(p));
    if p.InLeft? && !IsBlack(p.right.left) && IsBlack(p.right.right) {
      var w := p.right;
      var a := Branch(w.left.right, w.node, Red, w.right);
      GoodStep(w.left);
      GoodStep(a);
      GoodStep(Branch(w.left.left, w.left.node, Black, a));
      PathGoodStep(p.(right := Branch(w.left.left, w.left.node, Black, a)), Height(t) + 1, false);
    } else if p.InRight? && !IsBlack(p.left.right) && IsBlack(p.left.left) {
      var w := p.left;
      var a := Branch(w.left, w.node, Red, w.right.left);
      GoodStep(w.right);
      GoodStep(a);
      GoodStep(Branch(a, w.right.node, Black, w.right.right));
      PathGoodStep(p.(left := Branch(a, w.right.node, Black, w.right.right)), Height(t) + 1, false);
    }
  }

  // ----- The height of a red-black tree

  ghost function Depth(t: Tree): nat {
    match t
    case Leaf => 0
    case Branch(l, _, _, r) => 1 + if Depth(l) > Depth(r) then Depth(l) else Depth(r)
  }

  function Pow2(n: nat): nat { if n == 0 then 1 else 2 * Pow2(n - 1) }

  lemma {:induction false} DepthBound(t: Tree)
    requires Good(t)
    ensures Depth(t) <= 2 * Height(t) + if IsBlack(t) then 0 else 1
    ensures |Inorder(t)| + 1 >= Pow2(Height(t))
  {
    match t
    case Leaf =>
    case Branch(l, _, _, r) =>
      DepthBound(l);
      DepthBound(r);
  }

  lemma {:induction false} Pow2Monotone(a: nat, b: nat)
    requires a <= b
    ensures Pow2(a) <= Pow2(b)
    decreases b
  {
    if a < b { Pow2Monotone(a, b - 1); }
  }

  /** A red-black tree of n nodes is at most 2 * log2(n + 1) deep: half the depth, rounded up, is
      the exponent of a power of two that is at most n + 1. */
  lemma DepthIsLogarithmic(t: Tree)
    requires RedBlack(t)
    ensures Pow2((Depth(t) + 1) / 2) <= |Inorder(t)| + 1
  {
    DepthBound(t);
    Pow2Monotone((Depth(t) + 1) / 2, Height(t));
  }

  // ----- The links

  ghost function ParentOf(p: Path): Node? {
    if p.Top? then null else p.node
  }

  /** What the links and the color of a node hold. */
  datatype Fields = Fields(left: Node, right: Node, parent: Node?, color: Color)

  type Links = map<Node, Fields>

  ghost function LinksOf(s: set<Node>): (m: Links)
    reads s
    ensures m.Keys == s
  {
    map x | x in s :: Fields(x.left, x.right, x.parent, x.color)
  }

  /** The links and colors below n are those of t. */
  ghost predicate Linked(t: Tree, n: Node, parent: Node?, sentinel: Node, m: Links) {
    match t
    case Leaf => n == sentinel
    case Branch(l, x, c, r) =>
      && n == x && x != sentinel && x in m && m[x].parent == parent && m[x].color == c
      && Linked(l, m[x].left, x, sentinel, m) && Linked(r, m[x].right, x, sentinel, m)
  }

  /** The links and colors around a hole, which holds n, are those of p. */
  ghost predicate PathLinked(p: Path, n: Node, root: Node, sentinel: Node, m: Links) {
    match p
    case Top => n == root
    case InLeft(up, x, c, r) =>
      && x != sentinel && x in m && m[x].left == n && m[x].parent == ParentOf(up) && m[x].color == c
      && Linked(r, m[x].right, x, sentinel, m) && PathLinked(up, x, root, sentinel, m)
    case InRight(up, l, x, c) =>
      && x != sentinel && x in m && m[x].right == n && m[x].parent == ParentOf(up) && m[x].color == c
      && Linked(l, m[x].left, x, sentinel, m) && PathLinked(up, x, root, sentinel, m)
  }

  /** The node at the root of t. */
  ghost function RootOf(t: Tree, sentinel: Node): Node {
    if t.Leaf? then sentinel else t.node
  }

  lemma {:induction false} LinkedPlug(p: Path, t: Tree, root: Node, sentinel: Node, m: Links)
    ensures Linked(Plug(p, t), root, null, sentinel, m)
       <==> (&& Linked(t, RootOf(t, sentinel), ParentOf(p), sentinel, m)
             && PathLinked(p, RootOf(t, sentinel), root, sentinel, m))
  {
    match p
    case Top =>
    case InLeft(up, x, c, r) => LinkedPlug(up, Branch(t, x, c, r), root, sentinel, m);
    case InRight(up, l, x, c) => LinkedPlug(up, Branch(l, x, c, t), root, sentinel, m);
  }

  // ----- What a change of some links leaves in place

  /** The links of the nodes in s are the same. */
  ghost predicate SameOn(s: set<Node>, m: Links, m': Links) {
    forall x :: x in s && x in m ==> x in m' && m'[x] == m[x]
  }

  /** All links are the same but those of the nodes in `but`. */
  ghost predicate SameBut(but: set<Node>, m: Links, m': Links) {
    forall x :: x in m && x !in but ==> x in m' && m'[x] == m[x]
  }

  lemma {:induction false} LinkedSame(t: Tree, n: Node, parent: Node?, sentinel: Node, m: Links, m': Links)
    requires Linked(t, n, parent, sentinel, m) && SameOn(Nodes(t), m, m')
    ensures Linked(t, n, parent, sentinel, m')
    decreases t
  {
    match t
    case Leaf =>
    case Branch(l, x, _, r) =>
      LinkedSame(l, m[x].left, x, sentinel, m, m');
      LinkedSame(r, m[x].right, x, sentinel, m, m');
  }

  lemma {:induction false} PathLinkedSame(p: Path, n: Node, root: Node, sentinel: Node, m: Links, m': Links)
    requires PathLinked(p, n, root, sentinel, m) && SameOn(PathNodes(p), m, m')
    ensures PathLinked(p, n, root, sentinel, m')
    decreases p
  {
    match p
    case Top =>
    case InLeft(up, x, _, r) =>
      PathLinkedSame(up, x, root, sentinel, m, m');
      LinkedSame(r, m[x].right, x, sentinel, m, m');
    case InRight(up, l, x, _) =>
      PathLinkedSame(up, x, root, sentinel, m, m');
      LinkedSame(l, m[x].left, x, sentinel, m, m');
  }

  /** A subtree that gets a new parent. */
  lemma LinkedMoved(t: Tree, n: Node, before: Node?, parent: Node?, sentinel: Node, m: Links, m': Links)
    requires Apart(t) && Linked(t, n, before, sentinel, m) && SameOn(Nodes(t) - {n}, m, m')
    requires t.Branch? ==> n in m' && m'[n] == m[n].(parent := parent)
    ensures Linked(t, n, parent, sentinel, m')
  {
    if t.Branch? {
      LinkedSame(t.left, m[n].left, n, sentinel, m, m');
      LinkedSame(t.right, m[n].right, n, sentinel, m, m');
    }
  }

  /** A hole that gets a new child. */
  lemma PathMoved(p: Path, before: Node, n: Node, root0: Node, root: Node, sentinel: Node, m: Links, m': Links)
    requires PathApart(p) && PathLinked(p, before, root0, sentinel, m)
    requires p.Top? ==> root == n
    requires !p.Top? ==> root == root0 && SameOn(PathNodes(p) - {p.node}, m, m') && p.node in m'
    requires p.InLeft? ==> m'[p.node] == m[p.node].(left := n)
    requires p.InRight? ==> m'[p.node] == m[p.node].(right := n)
    ensures PathLinked(p, n, root, sentinel, m')
  {
    if !p.Top? {
      PathLinkedSame(p.up, p.node, root, sentinel, m, m');
      if p.InLeft? {
        LinkedSame(p.right, m[p.node].right, p.node, sentinel, m, m');
      } else {
        LinkedSame(p.left, m[p.node].left, p.node, sentinel, m, m');
      }
    }
  }

  /** Entry k of the order is at the root of some subtree. */
  lemma {:induction false} Locate(p: Path, t: Tree, k: nat) returns (q: Path, s: Tree)
    requires k < |Inorder(t)|
    ensures Plug(q, s) == Plug(p, t) && s.Branch? && s.node == Inorder(t)[k]
    ensures |Before(q)| + |Inorder(s.left)| == |Before(p)| + k
    decreases t
  {
    var l, r := Inorder(t.left), Inorder(t.right);
    if k < |l| {
      q, s := Locate(InLeft(p, t.node, t.color, t.right), t.left, k);
    } else if k == |l| {
      q, s := p, t;
    } else {
      q, s := Locate(InRight(p, t.left, t.node, t.color), t.right, k - |l| - 1);
    }
  }

  // ----- The way from a node down to another

  /** The way q goes on below `base`. */
  ghost predicate Extends(q: Path, base: Path) {
    q == base || (!q.Top? && Extends(q.up, base))
  }

  /** The tree in the hole of `base` when t is in the hole of q. */
  ghost function Inner(q: Path, base: Path, t: Tree): Tree
    requires Extends(q, base)
    decreases q
  {
    if q == base then t else Inner(q.up, base, Out(q, t))
  }

  /** The same way below `other` instead of `base`. */
  ghost function Rebased(q: Path, base: Path, other: Path): Path
    requires Extends(q, base)
    decreases q
  {
    if q == base || q.Top? then other
    else if q.InLeft? then InLeft(Rebased(q.up, base, other), q.node, q.color, q.right)
    else InRight(Rebased(q.up, base, other), q.left, q.node, q.color)
  }

  lemma {:induction false} PlugRebased(q: Path, base: Path, other: Path, t: Tree)
    requires Extends(q, base)
    ensures Plug(Rebased(q, base, other), t) == Plug(other, Inner(q, base, t))
    ensures Plug(q, t) == Plug(base, Inner(q, base, t))
    decreases q
  {
    if q != base {
      PlugOut(q, t);
      PlugOut(Rebased(q, base, other), t);
      PlugRebased(q.up, base, other, Out(q, t));
    }
  }

  lemma {:induction false} PathGoodRebased(q: Path, base: Path, other: Path, h: nat, red: bool)
    requires Extends(q, base) && !base.Top? && !other.Top? && other == base.(node := other.node)
    ensures PathGood(Rebased(q, base, other), h, red) <==> PathGood(q, h, red)
    decreases q
  {
    PathGoodStep(q, h, red);
    PathGoodStep(Rebased(q, base, other), h, red);
    if q != base {
      PathGoodRebased(q.up, base, other, h + (if q.color.Black? then 1 else 0), q.color.Red?);
    }
  }

  /** The way turns left all along. */
  ghost predicate LeftSpine(q: Path, base: Path) {
    q == base || (q.InLeft? && LeftSpine(q.up, base))
  }

  lemma {:induction false} SpineExtends(q: Path, base: Path)
    requires LeftSpine(q, base)
    ensures Extends(q, base)
  {
    if q != base { SpineExtends(q.up, base); }
  }

  /** What comes after t in the hole of `base`. */
  ghost function SpineAfter(q: Path, base: Path): seq<Node>
    requires LeftSpine(q, base)
  {
    if q == base then [] else [q.node] + Inorder(q.right) + SpineAfter(q.up, base)
  }

  lemma OutOrder(q: Path, t: Tree)
    requires q.InLeft?
    ensures Inorder(Out(q, t)) == Inorder(t) + ([q.node] + Inorder(q.right))
  {
  }

  lemma {:induction false} SpineOrder(q: Path, base: Path, t: Tree)
    requires LeftSpine(q, base)
    ensures Extends(q, base) && Inorder(Inner(q, base, t)) == Inorder(t) + SpineAfter(q, base)
    decreases q
  {
    SpineExtends(q, base);
    if q != base {
      SpineOrder(q.up, base, Out(q, t));
      OutOrder(q, t);
    }
  }
}
