/** The red-black tree of FS/redblacktree.c: nodes linked in place, with one shared sentinel for
    all leaves.  The ghost field `tree` is the tree the links make. */
module RBTree {
  import opened RBShape
  import opened RBLinks
  import opened Log

  class RedBlackTree {
    var root: Node
    const sentinel: Node
    ghost var tree: Tree
    ghost var nodes: set<Node>

    /** The links of the nodes of the tree. */
    ghost function All(): Links
      reads this, nodes
    {
      LinksOf(nodes)
    }

    /** The links are those of `tree`, whatever its balance. */
    ghost predicate Shaped()
      reads this, sentinel, nodes
    {
      && Made(tree, root, sentinel, All())
      && sentinel.color == Black && sentinel.left == sentinel && sentinel.right == sentinel
    }

    ghost predicate Valid()
      reads this, sentinel, nodes
    {
      Shaped() && RedBlack(tree) && Ordered(Inorder(tree))
    }

    /** The nodes in order. */
    ghost function Contents(): seq<Node>
      reads this
    {
      Inorder(tree)
    }

    /** An empty tree (`InitRedBlackTree`). */
    constructor ()
      ensures Valid() && Contents() == [] && fresh(sentinel)
    {
      var s := new Node(Operation(0, 0, [], 0), 0);
      sentinel, root := s, s;
      tree, nodes := Leaf, {};
    }

    // ----- Looking at the links

    /** What the fields around a subtree hold. */
    lemma Look(p: Path, t: Tree)
      requires Shaped() && tree == Plug(p, t)
      ensures var x := RootOf(t, sentinel);
        && sentinel !in nodes
        && (t.Branch? ==> x in nodes && x != sentinel && x.parent == ParentOf(p) && x.color == t.color
                          && x.left == RootOf(t.left, sentinel) && x.right == RootOf(t.right, sentinel))
        && (t.Leaf? ==> x.color == Black)
        && (p.Top? ==> root == x)
        && (!p.Top? ==> root in nodes && root != x && p.node in nodes && p.node != sentinel && p.node != x
                        && p.node.color == p.color && p.node.parent == ParentOf(p.up))
        && (p.InLeft? ==> p.node.left == x && p.node.right == RootOf(p.right, sentinel)
                          && (t.Branch? || p.right.Branch? ==> p.node.right != x))
        && (p.InRight? ==> p.node.right == x && p.node.left == RootOf(p.left, sentinel)
                           && (t.Branch? || p.left.Branch? ==> p.node.left != x))
    {
      hide Plug, Made;
      MadeAround(p, t, root, sentinel, All());
    }

    /** What the children of a node hold. */
    lemma LookBelow(p: Path, t: Tree)
      requires Shaped() && tree == Plug(p, t) && t.Branch?
      ensures t.node in nodes && t.node.left == RootOf(t.left, sentinel) && t.node.right == RootOf(t.right, sentinel)
      ensures t.node.color == t.color
      ensures t.node.left.color == Black <==> IsBlack(t.left)
      ensures t.node.right.color == Black <==> IsBlack(t.right)
    {
      hide Plug, Made;
      MadeAround(p, t, root, sentinel, All());
      MadeBelow(p, t, root, sentinel, All());
    }

    lemma NotEmpty(x: Node)
      requires Shaped() && x in nodes
      ensures tree.Branch?
    {
    }

    // ----- Changing the links

    /** Gives node x, which may be the sentinel if c is black, the color c. */
    method Paint(x: Node, c: Color, ghost p: Path, ghost t: Tree)
      requires Shaped() && tree == Plug(p, t) && x == RootOf(t, sentinel) && (t.Leaf? ==> c.Black?)
      modifies `tree, x`color
      ensures tree == Plug(p, Painted(t, c)) && Shaped() && nodes == old(nodes) && Contents() == old(Contents())
    {
      hide Plug, Made, Inorder;
      Look(p, t);
      ghost var m := All();
      x.color := c;
      if t.Branch? {
        MadePaint(p, t, c, root, sentinel, m, All());
        tree := Plug(p, Painted(t, c));
      } else {
        assert All() == m;
      }
    }

    /** Turns the nodes x and y, its right child, to the left (`RotateLeft`). */
    method RotateLeft(x: Node, ghost y0: Node, ghost b: Node?, ghost top: Node?)
      requires x.right == y0 && x.parent == top && y0.left == (if b == null then sentinel else b)
      requires sentinel !in {x, y0} && b != sentinel && x != y0 && b !in {x, y0}
      requires (top != null ==> top !in {x, y0, b, sentinel})
      requires top == null ==> root == x
      requires top != null ==> (top.left == x) != (top.right == x)
      modifies `root, x`right, x`parent, y0`left, y0`parent
      modifies (if b == null then {} else {b})`parent, (if top == null then {} else {top})`left
      modifies (if top == null then {} else {top})`right
      ensures x.right == old(y0.left) && x.parent == y0 && y0.left == x && y0.parent == top
      ensures b != null ==> b.parent == x
      ensures root == if top == null then y0 else old(root)
      ensures top != null ==> top.left == (if old(top.left) == x then y0 else old(top.left))
      ensures top != null ==> top.right == (if old(top.right) == x then y0 else old(top.right))
    {
      var y := x.right;
      x.right := y.left;
      if y.left != sentinel {
        y.left.parent := x;
      }
      if y != sentinel {
        y.parent := x.parent;
      }
      if x.parent != null {
        if x == x.parent.left {
          x.parent.left := y;
        } else {
          x.parent.right := y;
        }
      } else {
        root := y;
      }
      y.left := x;
      if x != sentinel {
        x.parent := y;
      }
    }

    /** What `RotateLeft` makes of the links. */
    method RelinkLeft(x: Node, ghost p: Path, ghost t: Tree)
      requires t.Branch? && t.right.Branch? && x == t.node && ReadyLeft(p, t, root, sentinel, All())
      modifies `root, `tree, nodes`left, nodes`right, nodes`parent
      ensures LinksLeft(p, t, old(root), root, old(All()), All()) && tree == Plug(p, TurnedLeft(t))
    {
      tree := Plug(p, TurnedLeft(t));
      RotateLeft(x, t.right.node, if t.right.left.Leaf? then null else t.right.left.node, ParentOf(p));
    }

    /** `RotateLeft` on the tree the links stand for. */
    method TurnLeft(x: Node, ghost p: Path, ghost t: Tree)
      requires Shaped() && tree == Plug(p, t) && t.Branch? && t.node == x && t.right.Branch?
      modifies `root, `tree, nodes`left, nodes`right, nodes`parent
      ensures tree == Plug(p, TurnedLeft(t))
      ensures Shaped() && nodes == old(nodes) && Contents() == old(Contents())
    {
      hide Plug, Made, Inorder, ReadyLeft, LinksLeft;
      ghost var m := All();
      Look(p, t);
      MadeReadyLeft(p, t, root, sentinel, m);
      RelinkLeft(x, p, t);
      MadeLeft(p, t, old(root), root, sentinel, m, All());
    }

    /** Turns the nodes x and y, its left child, to the right (`RotateRight`). */
    method RotateRight(x: Node, ghost y0: Node, ghost b: Node?, ghost top: Node?)
      requires x.left == y0 && x.parent == top && y0.right == (if b == null then sentinel else b)
      requires sentinel !in {x, y0} && b != sentinel && x != y0 && b !in {x, y0}
      requires (top != null ==> top !in {x, y0, b, sentinel})
      requires top == null ==> root == x
      requires top != null ==> (top.right == x) != (top.left == x)
      modifies `root, x`left, x`parent, y0`right, y0`parent
      modifies (if b == null then {} else {b})`parent, (if top == null then {} else {top})`right
      modifies (if top == null then {} else {top})`left
      ensures x.left == old(y0.right) && x.parent == y0 && y0.right == x && y0.parent == top
      ensures b != null ==> b.parent == x
      ensures root == if top == null then y0 else old(root)
      ensures top != null ==> top.right == (if old(top.right) == x then y0 else old(top.right))
      ensures top != null ==> top.left == (if old(top.left) == x then y0 else old(top.left))
    {
      var y := x.left;
      x.left := y.right;
      if y.right != sentinel {
        y.right.parent := x;
      }
      if y != sentinel {
        y.parent := x.parent;
      }
      if x.parent != null {
        if x == x.parent.right {
          x.parent.right := y;
        } else {
          x.parent.left := y;
        }
      } else {
        root := y;
      }
      y.right := x;
      if x != sentinel {
        x.parent := y;
      }
    }

    /** What `RotateRight` makes of the links. */
    method RelinkRight(x: Node, ghost p: Path, ghost t: Tree)
      requires t.Branch? && t.left.Branch? && x == t.node && ReadyRight(p, t, root, sentinel, All())
      modifies `root, `tree, nodes`right, nodes`left, nodes`parent
      ensures LinksRight(p, t, old(root), root, old(All()), All()) && tree == Plug(p, TurnedRight(t))
    {
      tree := Plug(p, TurnedRight(t));
      RotateRight(x, t.left.node, if t.left.right.Leaf? then null else t.left.right.node, ParentOf(p));
    }

    /** `RotateRight` on the tree the links stand for. */
    method TurnRight(x: Node, ghost p: Path, ghost t: Tree)
      requires Shaped() && tree == Plug(p, t) && t.Branch? && t.node == x && t.left.Branch?
      modifies `root, `tree, nodes`right, nodes`left, nodes`parent
      ensures tree == Plug(p, TurnedRight(t))
      ensures Shaped() && nodes == old(nodes) && Contents() == old(Contents())
    {
      hide Plug, Made, Inorder, ReadyRight, LinksRight;
      ghost var m := All();
      Look(p, t);
      MadeReadyRight(p, t, root, sentinel, m);
      RelinkRight(x, p, t);
      MadeRight(p, t, old(root), root, sentinel, m, All());
    }

    // ----- Balance after an insertion

    /** Paints the parent and the uncle of a red node black and its grandparent red. */
    method LiftRed(x: Node, y: Node, ghost p: Path, ghost t: Tree) returns (z: Node, ghost q: Path, ghost s: Tree)
      requires Shaped() && tree == Plug(p, t) && RedSpot(p, t) && t.node == x && !p.Top? && p.color.Red? && !p.up.Top?
      requires y == RootOf(Beside(p.up), sentinel) && !IsBlack(Beside(p.up))
      modifies `tree, nodes`color
      ensures Shaped() && nodes == old(nodes) && Contents() == old(Contents()) && tree == Plug(q, s)
      ensures RedSpot(q, s) && z == s.node && PathLen(q) < PathLen(p)
    {
      hide Plug, Inorder, Shaped, Good, PathGood;
      ghost var a := Out(p, t);
      Look(p, t);
      PlugOut(p, t);
      Look(p.up, a);
      PlugOut(p.up, a);
      Paint(x.parent, Black, p.up, a);
      ghost var a' := Painted(a, Black);
      PlugOut(p.up, a');
      ghost var w := PathBeside(p.up, a');
      Look(w, Beside(p.up));
      Paint(y, Black, w, Beside(p.up));
      ghost var b := Out(w, Painted(Beside(p.up), Black));
      PlugOut(w, Painted(Beside(p.up), Black));
      Paint(x.parent.parent, Red, p.up.up, b);
      z, q, s := x.parent.parent, p.up.up, Painted(b, Red);
      assert s == Lifted(p, t);
      LiftedSpot(p, t);
    }

    /** A red left child of a red left child, the uncle being black: colors are changed and the
        grandparent is turned to the right. */
    method SettleLeft(x: Node, ghost p: Path, ghost t: Tree) returns (ghost q: Path)
      requires Shaped() && tree == Plug(p, t) && RedSpot(p, t) && t.node == x && p.InLeft? && p.color.Red?
      requires p.up.InLeft?
      requires IsBlack(Beside(p.up))
      modifies `root, `tree, nodes`left, nodes`right, nodes`parent, nodes`color
      ensures Shaped() && nodes == old(nodes) && Contents() == old(Contents()) && tree == Plug(q, t)
      ensures RedSpot(q, t) && PathLen(q) < PathLen(p) && !q.Top? && q.color.Black?
    {
      hide Plug, Inorder, Shaped, Good, PathGood;
      ghost var a := Out(p, t);
      Look(p, t);
      PlugOut(p, t);
      Look(p.up, a);
      PlugOut(p.up, a);
      Paint(x.parent, Black, p.up, a);
      ghost var a' := Painted(a, Black);
      PlugOut(p.up, a');
      Paint(x.parent.parent, Red, p.up.up, Out(p.up, a'));
      ghost var b := Painted(Out(p.up, a'), Red);
      TurnRight(x.parent.parent, p.up.up, b);
      q := InLeft(p.up.up, p.node, Black, Branch(p.right, p.up.node, Red, p.up.right));
      PlugOut(q, t);
      OuterSpot(p, t);
    }

    /** The mirror image. */
    method SettleRight(x: Node, ghost p: Path, ghost t: Tree) returns (ghost q: Path)
      requires Shaped() && tree == Plug(p, t) && RedSpot(p, t) && t.node == x && p.InRight? && p.color.Red?
      requires p.up.InRight?
      requires IsBlack(Beside(p.up))
      modifies `root, `tree, nodes`left, nodes`right, nodes`parent, nodes`color
      ensures Shaped() && nodes == old(nodes) && Contents() == old(Contents()) && tree == Plug(q, t)
      ensures RedSpot(q, t) && PathLen(q) < PathLen(p) && !q.Top? && q.color.Black?
    {
      hide Plug, Inorder, Shaped, Good, PathGood;
      ghost var a := Out(p, t);
      Look(p, t);
      PlugOut(p, t);
      Look(p.up, a);
      PlugOut(p.up, a);
      Paint(x.parent, Black, p.up, a);
      ghost var a' := Painted(a, Black);
      PlugOut(p.up, a');
      Paint(x.parent.parent, Red, p.up.up, Out(p.up, a'));
      ghost var b := Painted(Out(p.up, a'), Red);
      TurnLeft(x.parent.parent, p.up.up, b);
      q := InRight(p.up.up, Branch(p.up.left, p.up.node, Red, p.left), p.node, Black);
      PlugOut(q, t);
      OuterSpot(p, t);
    }

    /** Restores the balance after the red node x0 was put into the tree (`InsertFixup`). */
    method InsertFixup(x0: Node, ghost p0: Path, ghost t0: Tree)
      requires Shaped() && tree == Plug(p0, t0) && RedSpot(p0, t0) && t0.node == x0
      modifies `root, `tree, nodes`left, nodes`right, nodes`parent, nodes`color
      ensures Shaped() && nodes == old(nodes) && Contents() == old(Contents()) && RedBlack(tree)
    {
      hide Plug, Inorder, Shaped, Good, PathGood;
      var x := x0;
      ghost var p, t := p0, t0;
      Look(p, t);
      while x != root && x.parent.color == Red
        invariant Shaped() && nodes == old(nodes) && Contents() == old(Contents())
        invariant tree == Plug(p, t) && RedSpot(p, t) && x == t.node && x.parent == ParentOf(p)
        invariant (x == root <==> p.Top?) && (!p.Top? ==> p.node.color == p.color)
        decreases PathLen(p)
      {
        RedSpotEnds(p, t);
        Look(p, t);
        PlugOut(p, t);
        Look(p.up, Out(p, t));
        PlugOut(p.up, Out(p, t));
        Look(PathBeside(p.up, Out(p, t)), Beside(p.up));
        if x.parent == x.parent.parent.left {
          var y := x.parent.parent.right;
          if y.color == Red {
            x, p, t := LiftRed(x, y, p, t);
          } else {
            if x == x.parent.right {
              x := x.parent;
              InnerSpot(p, t);
              TurnLeft(x, p.up, Out(p, t));
              p, t := InLeft(p.up, t.node, t.color, t.right), Branch(p.left, p.node, p.color, t.left);
              PlugOut(p, t);
            }
            p := SettleLeft(x, p, t);
          }
        } else {
          var y := x.parent.parent.left;
          if y.color == Red {
            x, p, t := LiftRed(x, y, p, t);
          } else {
            if x == x.parent.left {
              x := x.parent;
              InnerSpot(p, t);
              TurnRight(x, p.up, Out(p, t));
              p, t := InRight(p.up, t.left, t.node, t.color), Branch(t.right, p.node, p.color, p.right);
              PlugOut(p, t);
            }
            p := SettleRight(x, p, t);
          }
        }
        Look(p, t);
      }
      Look(p, t);
      RedSpotSettled(p, t);
      PaintRoot();
    }

    /** Gives the root the color black. */
    method PaintRoot()
      requires Shaped()
      modifies `tree, root`color
      ensures Shaped() && nodes == old(nodes) && Contents() == old(Contents()) && tree == Painted(old(tree), Black)
    {
      hide Inorder, Good, PathGood;
      Look(Top, tree);
      Paint(root, Black, Top, tree);
    }

    // ----- Balance after a deletion

    /** The black sibling w has two black children: it is painted red and the parent lacks a
        black node now. */
    method LowerBlack(x: Node, w: Node, ghost p: Path, ghost t: Tree) returns (z: Node, ghost q: Path, ghost s: Tree)
      requires Shaped() && tree == Plug(p, t) && Short(p, t) && !p.Top? && IsBlack(t) && x == RootOf(t, sentinel)
      requires x.parent == p.node && Beside(p).Branch? && w == Beside(p).node && Beside(p).color.Black?
      requires IsBlack(Beside(p).left) && IsBlack(Beside(p).right)
      modifies `tree, nodes`color
      ensures Shaped() && nodes == old(nodes) && Contents() == old(Contents()) && tree == Plug(q, s)
      ensures Short(q, s) && z == RootOf(s, sentinel) && q == p.up && (p.color.Red? ==> !IsBlack(s))
      ensures z.parent == ParentOf(q)
    {
      hide Plug, Inorder, Shaped, Good, PathGood, Height;
      ghost var b := PathBeside(p, t);
      PlugOut(p, t);
      Look(p, t);
      Look(b, Beside(p));
      Paint(w, Red, b, Beside(p));
      ghost var p' := WithBeside(p, Painted(Beside(p), Red));
      PlugOut(p', t);
      ShortBlackSibling(p, t);
      z, q, s := x.parent, p.up, Out(p', t);
      Look(q, s);
    }

    /** A red sibling of the left child x is painted black, the parent red and turned to the
        left; returned is the new sibling. */
    method RedSiblingLeft(x: Node, w0: Node, ghost p: Path, ghost t: Tree) returns (w: Node, ghost q: Path)
      requires Shaped() && tree == Plug(p, t) && Short(p, t) && p.InLeft? && IsBlack(t) && x == RootOf(t, sentinel)
      requires x.parent == p.node && w0 == RootOf(p.right, sentinel) && !IsBlack(p.right)
      modifies `root, `tree, nodes`left, nodes`right, nodes`parent, nodes`color
      ensures Shaped() && nodes == old(nodes) && Contents() == old(Contents()) && tree == Plug(q, t)
      ensures Short(q, t) && q.InLeft? && q.node == p.node && q.color.Red?
      ensures x.parent == p.node && w == RootOf(q.right, sentinel)
    {
      hide Plug, Inorder, Shaped, Good, PathGood, Height;
      SiblingExists(p, t);
      PlugOut(p, t);
      Look(p, t);
      Look(PathBeside(p, t), p.right);
      Paint(w0, Black, PathBeside(p, t), p.right);
      ghost var p' := WithBeside(p, Painted(p.right, Black));
      PlugOut(p', t);
      Look(p.up, Out(p', t));
      Paint(x.parent, Red, p.up, Out(p', t));
      ghost var a := Painted(Out(p', t), Red);
      Look(p.up, a);
      TurnLeft(x.parent, p.up, a);
      q := InLeft(InLeft(p.up, p.right.node, Black, p.right.right), p.node, Red, p.right.left);
      PlugOut(q, t);
      PlugOut(q.up, Out(q, t));
      ShortRedSibling(p, t);
      Look(q, t);
      w := x.parent.right;
    }

    /** The black sibling w0 of the left child x has a red child on the near side only: it is
        turned to the far side. */
    method NearRedLeft(x: Node, w0: Node, ghost p: Path, ghost t: Tree) returns (w: Node, ghost q: Path)
      requires Shaped() && tree == Plug(p, t) && Short(p, t) && p.InLeft? && IsBlack(t) && x == RootOf(t, sentinel)
      requires x.parent == p.node && p.right.Branch? && w0 == p.right.node && p.right.color.Black?
      requires !IsBlack(p.right.left) && IsBlack(p.right.right)
      modifies `root, `tree, nodes`left, nodes`right, nodes`parent, nodes`color
      ensures Shaped() && nodes == old(nodes) && Contents() == old(Contents()) && tree == Plug(q, t)
      ensures Short(q, t) && q.InLeft? && q.node == p.node && q.color == p.color && PathLen(q) == PathLen(p)
      ensures x.parent == p.node && q.right.Branch? && w == q.right.node && q.right.color.Black?
      ensures !IsBlack(q.right.right)
    {
      hide Plug, Inorder, Shaped, Good, PathGood, Height;
      ghost var b := PathBeside(p, t);
      PlugOut(p, t);
      Look(p, t);
      Look(b, p.right);
      ghost var c := InLeft(b, p.right.node, p.right.color, p.right.right);
      PlugOut(c, p.right.left);
      Look(c, p.right.left);
      Paint(w0.left, Black, c, p.right.left);
      ghost var s := Out(c, Painted(p.right.left, Black));
      PlugOut(c, Painted(p.right.left, Black));
      Look(b, s);
      Paint(w0, Red, b, s);
      ghost var s' := Painted(s, Red);
      Look(b, s');
      TurnRight(w0, b, s');
      q := WithBeside(p, TurnedRight(s'));
      PlugOut(q, t);
      ShortNearRed(p, t);
      Look(q, t);
      w := x.parent.right;
    }

    /** The black sibling w of the left child x has a red child on the far side: it takes the
        place and the color of the parent, and the tree is balanced. */
    method FarRedLeft(x: Node, w: Node, ghost p: Path, ghost t: Tree)
      requires Shaped() && tree == Plug(p, t) && Short(p, t) && p.InLeft? && IsBlack(t) && x == RootOf(t, sentinel)
      requires x.parent == p.node && p.right.Branch? && w == p.right.node && p.right.color.Black?
      requires !IsBlack(p.right.right)
      modifies `root, `tree, nodes`left, nodes`right, nodes`parent, nodes`color
      ensures Shaped() && nodes == old(nodes) && Contents() == old(Contents()) && RedBlack(tree)
    {
      hide Plug, Inorder, Shaped, Good, PathGood, Height;
      ghost var b := PathBeside(p, t);
      PlugOut(p, t);
      Look(p, t);
      Look(b, p.right);
      Paint(w, x.parent.color, b, p.right);
      ghost var r := Painted(p.right, p.color);
      ghost var p' := WithBeside(p, r);
      PlugOut(p', t);
      Look(p.up, Out(p', t));
      Paint(x.parent, Black, p.up, Out(p', t));
      ghost var q := Recolored(p', Black);
      PlugOut(q, t);
      ghost var d := PathBeside(q, t);
      Look(d, r);
      ghost var c := InRight(d, r.left, r.node, r.color);
      PlugOut(c, r.right);
      Look(c, r.right);
      Paint(w.right, Black, c, r.right);
      ghost var q' := WithBeside(q, Out(c, Painted(r.right, Black)));
      PlugOut(c, Painted(r.right, Black));
      PlugOut(q', t);
      Look(p.up, Out(q', t));
      TurnLeft(x.parent, p.up, Out(q', t));
      ShortFarRed(p, t);
    }

    /** A red sibling of the right child x is painted black, the parent red and turned to the
        right; returned is the new sibling. */
    method RedSiblingRight(x: Node, w0: Node, ghost p: Path, ghost t: Tree) returns (w: Node, ghost q: Path)
      requires Shaped() && tree == Plug(p, t) && Short(p, t) && p.InRight? && IsBlack(t) && x == RootOf(t, sentinel)
      requires x.parent == p.node && w0 == RootOf(p.left, sentinel) && !IsBlack(p.left)
      modifies `root, `tree, nodes`right, nodes`left, nodes`parent, nodes`color
      ensures Shaped() && nodes == old(nodes) && Contents() == old(Contents()) && tree == Plug(q, t)
      ensures Short(q, t) && q.InRight? && q.node == p.node && q.color.Red?
      ensures x.parent == p.node && w == RootOf(q.left, sentinel)
    {
      hide Plug, Inorder, Shaped, Good, PathGood, Height;
      SiblingExists(p, t);
      PlugOut(p, t);
      Look(p, t);
      Look(PathBeside(p, t), p.left);
      Paint(w0, Black, PathBeside(p, t), p.left);
      ghost var p' := WithBeside(p, Painted(p.left, Black));
      PlugOut(p', t);
      Look(p.up, Out(p', t));
      Paint(x.parent, Red, p.up, Out(p', t));
      ghost var a := Painted(Out(p', t), Red);
      Look(p.up, a);
      TurnRight(x.parent, p.up, a);
      q := InRight(InRight(p.up, p.left.left, p.left.node, Black), p.left.right, p.node, Red);
      PlugOut(q, t);
      PlugOut(q.up, Out(q, t));
      ShortRedSibling(p, t);
      Look(q, t);
      w := x.parent.left;
    }

    /** The black sibling w0 of the right child x has a red child on the near side only: it is
        turned to the far side. */
    method NearRedRight(x: Node, w0: Node, ghost p: Path, ghost t: Tree) returns (w: Node, ghost q: Path)
      requires Shaped() && tree == Plug(p, t) && Short(p, t) && p.InRight? && IsBlack(t) && x == RootOf(t, sentinel)
      requires x.parent == p.node && p.left.Branch? && w0 == p.left.node && p.left.color.Black?
      requires !IsBlack(p.left.right) && IsBlack(p.left.left)
      modifies `root, `tree, nodes`right, nodes`left, nodes`parent, nodes`color
      ensures Shaped() && nodes == old(nodes) && Contents() == old(Contents()) && tree == Plug(q, t)
      ensures Short(q, t) && q.InRight? && q.node == p.node && q.color == p.color && PathLen(q) == PathLen(p)
      ensures x.parent == p.node && q.left.Branch? && w == q.left.node && q.left.color.Black? && !IsBlack(q.left.left)
    {
      hide Plug, Inorder, Shaped, Good, PathGood, Height;
      ghost var b := PathBeside(p, t);
      PlugOut(p, t);
      Look(p, t);
      Look(b, p.left);
      ghost var c := InRight(b, p.left.left, p.left.node, p.left.color);
      PlugOut(c, p.left.right);
      Look(c, p.left.right);
      Paint(w0.right, Black, c, p.left.right);
      ghost var s := Out(c, Painted(p.left.right, Black));
      PlugOut(c, Painted(p.left.right, Black));
      Look(b, s);
      Paint(w0, Red, b, s);
      ghost var s' := Painted(s, Red);
      Look(b, s');
      TurnLeft(w0, b, s');
      q := WithBeside(p, TurnedLeft(s'));
      PlugOut(q, t);
      ShortNearRed(p, t);
      Look(q, t);
      w := x.parent.left;
    }

    /** The black sibling w of the right child x has a red child on the far side: it takes the
        place and the color of the parent, and the tree is balanced. */
    method FarRedRight(x: Node, w: Node, ghost p: Path, ghost t: Tree)
      requires Shaped() && tree == Plug(p, t) && Short(p, t) && p.InRight? && IsBlack(t) && x == RootOf(t, sentinel)
      requires x.parent == p.node && p.left.Branch? && w == p.left.node && p.left.color.Black? && !IsBlack(p.left.left)
      modifies `root, `tree, nodes`right, nodes`left, nodes`parent, nodes`color
      ensures Shaped() && nodes == old(nodes) && Contents() == old(Contents()) && RedBlack(tree)
    {
      hide Plug, Inorder, Shaped, Good, PathGood, Height;
      ghost var b := PathBeside(p, t);
      PlugOut(p, t);
      Look(p, t);
      Look(b, p.left);
      Paint(w, x.parent.color, b, p.left);
      ghost var r := Painted(p.left, p.color);
      ghost var p' := WithBeside(p, r);
      PlugOut(p', t);
      Look(p.up, Out(p', t));
      Paint(x.parent, Black, p.up, Out(p', t));
      ghost var q := Recolored(p', Black);
      PlugOut(q, t);
      ghost var d := PathBeside(q, t);
      Look(d, r);
      ghost var c := InLeft(d, r.node, r.color, r.right);
      PlugOut(c, r.left);
      Look(c, r.left);
      Paint(w.left, Black, c, r.left);
      ghost var q' := WithBeside(q, Out(c, Painted(r.left, Black)));
      PlugOut(c, Painted(r.left, Black));
      PlugOut(q', t);
      Look(p.up, Out(q', t));
      TurnRight(x.parent, p.up, Out(q', t));
      ShortFarRed(p, t);
    }

    /** One round of `DeleteFixup` for a left child. */
    method FixLeft(x: Node, ghost p: Path, ghost t: Tree) returns (z: Node, ghost q: Path, ghost s: Tree)
      requires Shaped() && tree == Plug(p, t) && Short(p, t) && p.InLeft? && IsBlack(t) && x == RootOf(t, sentinel)
      requires x.parent == p.node
      modifies `root, `tree, nodes`left, nodes`right, nodes`parent, nodes`color
      ensures Shaped() && nodes == old(nodes) && Contents() == old(Contents())
      ensures tree == Plug(q, s) && Short(q, s) && z == RootOf(s, sentinel) && z.parent == ParentOf(q)
      ensures IsBlack(s) ==> PathLen(q) < PathLen(p)
    {
      hide Plug, Inorder, Shaped, Good, PathGood, Height;
      SiblingExists(p, t);
      Look(p, t);
      PlugOut(p, t);
      Look(PathBeside(p, t), Beside(p));
      var w := x.parent.right;
      q := p;
      if w.color == Red {
        w, q := RedSiblingLeft(x, w, p, t);
      }
      SiblingExists(q, t);
      Look(q, t);
      PlugOut(q, t);
      LookBelow(PathBeside(q, t), q.right);
      if w.left.color == Black && w.right.color == Black {
        z, q, s := LowerBlack(x, w, q, t);
      } else {
        if w.right.color == Black {
          w, q := NearRedLeft(x, w, q, t);
        }
        FarRedLeft(x, w, q, t);
        ShortTop(tree);
        NotEmpty(p.node);
        Look(Top, tree);
        z, q, s := root, Top, tree;
      }
    }

    /** One round of `DeleteFixup` for a right child. */
    method FixRight(x: Node, ghost p: Path, ghost t: Tree) returns (z: Node, ghost q: Path, ghost s: Tree)
      requires Shaped() && tree == Plug(p, t) && Short(p, t) && p.InRight? && IsBlack(t) && x == RootOf(t, sentinel)
      requires x.parent == p.node
      modifies `root, `tree, nodes`right, nodes`left, nodes`parent, nodes`color
      ensures Shaped() && nodes == old(nodes) && Contents() == old(Contents())
      ensures tree == Plug(q, s) && Short(q, s) && z == RootOf(s, sentinel) && z.parent == ParentOf(q)
      ensures IsBlack(s) ==> PathLen(q) < PathLen(p)
    {
      hide Plug, Inorder, Shaped, Good, PathGood, Height;
      SiblingExists(p, t);
      Look(p, t);
      PlugOut(p, t);
      Look(PathBeside(p, t), Beside(p));
      var w := x.parent.left;
      q := p;
      if w.color == Red {
        w, q := RedSiblingRight(x, w, p, t);
      }
      SiblingExists(q, t);
      Look(q, t);
      PlugOut(q, t);
      LookBelow(PathBeside(q, t), q.left);
      if w.right.color == Black && w.left.color == Black {
        z, q, s := LowerBlack(x, w, q, t);
      } else {
        if w.left.color == Black {
          w, q := NearRedRight(x, w, q, t);
        }
        FarRedRight(x, w, q, t);
        ShortTop(tree);
        NotEmpty(p.node);
        Look(Top, tree);
        z, q, s := root, Top, tree;
      }
    }

    /** Restores the balance after a black node was taken out above x0 (`DeleteFixup`). */
    method DeleteFixup(x0: Node, ghost p0: Path, ghost t0: Tree)
      requires Shaped() && tree == Plug(p0, t0) && Short(p0, t0) && x0 == RootOf(t0, sentinel)
      requires t0.Leaf? ==> sentinel.parent == ParentOf(p0)
      modifies `root, `tree, nodes`left, nodes`right, nodes`parent, nodes`color, sentinel`color
      ensures Shaped() && nodes == old(nodes) && Contents() == old(Contents()) && RedBlack(tree)
    {
      hide Plug, Inorder, Shaped, Good, PathGood, Height;
      var x := x0;
      ghost var p, t := p0, t0;
      Look(p, t);
      while x != root && x.color == Black
        invariant Shaped() && nodes == old(nodes) && Contents() == old(Contents())
        invariant tree == Plug(p, t) && Short(p, t) && x == RootOf(t, sentinel) && x.parent == ParentOf(p)
        invariant (x == root <==> p.Top?) && (x.color == Black <==> IsBlack(t))
        decreases if IsBlack(t) then PathLen(p) + 1 else 0
      {
        SiblingExists(p, t);
        Look(p, t);
        if x == x.parent.left {
          x, p, t := FixLeft(x, p, t);
        } else {
          x, p, t := FixRight(x, p, t);
        }
        Look(p, t);
      }
      ShortEnds(p, t);
      Look(p, t);
      Paint(x, Black, p, t);
    }

    // ----- Inserting

    /** Everything before the hole is at most `key`, everything after it is greater. */
    ghost predicate Fits(p: Path, key: nat) {
      && (forall i :: 0 <= i < |RBShape.Before(p)| ==> RBShape.Before(p)[i].Key() <= key)
      && (forall i :: 0 <= i < |After(p)| ==> After(p)[i].Key() > key)
      && (!p.Top? ==> (p.InLeft? <==> key < p.node.Key()))
    }

    lemma FitsBelow(p: Path, t: Tree, key: nat)
      requires Ordered(Inorder(Plug(p, t))) && t.Branch? && Fits(p, key)
      ensures key < t.node.Key() ==> Fits(InLeft(p, t.node, t.color, t.right), key)
      ensures key >= t.node.Key() ==> Fits(InRight(p, t.left, t.node, t.color), key)
    {
      hide Plug;
      InorderPlug(p, t);
      OrderedParts(RBShape.Before(p), t, After(p));
    }

    lemma FitsTop(t: Tree, key: nat)
      ensures Fits(Top, key) && Plug(Top, t) == t && RBShape.Before(Top) == []
    {
    }

    lemma FitsParts(p: Path, key: nat)
      requires Fits(p, key)
      ensures forall i :: 0 <= i < |RBShape.Before(p)| ==> RBShape.Before(p)[i].Key() <= key
      ensures forall i :: 0 <= i < |After(p)| ==> After(p)[i].Key() > key
      ensures !p.Top? ==> (p.InLeft? <==> key < p.node.Key())
    {
    }

    /** Hangs the new red node x into an empty hole. */
    method Attach(x: Node, parent: Node?, ghost p: Path)
      requires Shaped() && tree == Plug(p, Leaf) && parent == ParentOf(p) && x !in nodes && x != sentinel
      requires !p.Top? ==> (p.InLeft? <==> x.Key() < p.node.Key())
      modifies `root, `tree, `nodes, nodes`left, nodes`right, x`left, x`right, x`parent, x`color
      ensures Shaped() && tree == Plug(p, Branch(Leaf, x, Red, Leaf)) && nodes == old(nodes) + {x}
    {
      hide Plug, Made, Inorder;
      Look(p, Leaf);
      ghost var m := All();
      x.parent := parent;
      x.left := sentinel;
      x.right := sentinel;
      x.color := Red;
      if parent != null {
        if x.Key() < parent.Key() {
          parent.left := x;
        } else {
          parent.right := x;
        }
      } else {
        root := x;
      }
      tree, nodes := Plug(p, Branch(Leaf, x, Red, Leaf)), nodes + {x};
      MadeNew(p, x, old(root), root, sentinel, m, All());
    }

    /** Puts x into the tree behind all nodes with the same key (`InsertNode`). */
    method InsertNode(x: Node) returns (ghost k: nat)
      requires Valid() && x !in nodes && x != sentinel
      modifies `root, `tree, `nodes, nodes`left, nodes`right
      modifies nodes`parent, nodes`color, x`left, x`right, x`parent, x`color
      ensures Valid() && nodes == old(nodes) + {x} && k <= |old(Contents())|
      ensures Contents() == old(Contents())[..k] + [x] + old(Contents())[k..]
      ensures forall i :: 0 <= i < k ==> old(Contents())[i].Key() <= x.Key()
      ensures forall i :: k <= i < |old(Contents())| ==> old(Contents())[i].Key() > x.Key()
    {
      hide Plug, Inorder, Shaped, Good, PathGood, Ordered, Fits, RBShape.Before, After;
      var current, parent: Node? := root, null;
      ghost var p, t := Top, tree;
      FitsTop(tree, x.Key());
      Look(p, t);
      while current != sentinel
        invariant tree == Plug(p, t) && current == RootOf(t, sentinel) && parent == ParentOf(p) && Fits(p, x.Key())
        invariant current == sentinel <==> t.Leaf?
        modifies {}
        decreases t
      {
        Look(p, t);
        LookBelow(p, t);
        FitsBelow(p, t, x.Key());
        parent := current;
        PlugOut(InLeft(p, t.node, t.color, t.right), t.left);
        PlugOut(InRight(p, t.left, t.node, t.color), t.right);
        if x.Key() < current.Key() {
          current := current.left;
          p, t := InLeft(p, t.node, t.color, t.right), t.left;
        } else {
          current := current.right;
          p, t := InRight(p, t.left, t.node, t.color), t.right;
        }
        Look(p, t);
      }
      FitsParts(p, x.Key());
      Attach(x, parent, p);
      InsertedAt(p, x, old(Contents()));
      k := |RBShape.Before(p)|;
      OrderedInsert(old(Contents()), k, x);
      RedAttached(p, x);
      InsertFixup(x, p, Branch(Leaf, x, Red, Leaf));
    }

    // ----- Deleting

    /** Takes y, which has at most one child, out of the chain; the child x, which may be the
        sentinel, takes its place: the middle of `DeleteNode`. */
    method Splice(y: Node, ghost x0: Node, ghost top: Node?) returns (x: Node)
      requires y.parent == top && x0 == (if y.left != sentinel then y.left else y.right) && x0 != y
      requires top != null ==> top !in {y, x0} && (top.left == y) != (top.right == y)
      modifies `root, x0`parent
      modifies (if top == null then {} else {top})`left, (if top == null then {} else {top})`right
      ensures x == x0 && x.parent == top && root == if top == null then x else old(root)
      ensures top != null ==> top.left == (if old(top.left) == y then x else old(top.left))
      ensures top != null ==> top.right == (if old(top.right) == y then x else old(top.right))
    {
      if y.left != sentinel {
        x := y.left;
      } else {
        x := y.right;
      }
      x.parent := y.parent;
      if y.parent != null {
        if y == y.parent.left {
          y.parent.left := x;
        } else {
          y.parent.right := x;
        }
      } else {
        root := x;
      }
    }

    /** What `Splice` makes of the links. */
    method SpliceLinks(y: Node, ghost q: Path, ghost t: Tree) returns (x: Node)
      requires y in nodes && y.parent == ParentOf(q)
      requires RootOf(t, sentinel) == (if y.left != sentinel then y.left else y.right)
      requires y != RootOf(t, sentinel) && (t.Branch? ==> t.node in nodes && t.node != sentinel) && sentinel !in nodes
      requires !q.Top? ==> q.node in nodes && q.node !in {y, sentinel, RootOf(t, sentinel)}
      requires q.InLeft? ==> q.node.left == y && q.node.right != y
      requires q.InRight? ==> q.node.right == y && q.node.left != y
      modifies `root, `tree, `nodes, nodes`left, nodes`right, nodes`parent, sentinel`parent
      ensures x == RootOf(t, sentinel) && x.parent == ParentOf(q) && nodes == old(nodes) - {y} && tree == Plug(q, t)
      ensures Rehung(q, x, old(root), root, old(All()), All()) && Reparented(t, ParentOf(q), old(All()), All())
      ensures SameBut({y} + HeadNode(t) + TopNode(q), old(All()), All())
    {
      x := Splice(y, RootOf(t, sentinel), ParentOf(q));
      tree, nodes := Plug(q, t), nodes - {y};
    }

    /** `Splice` on the tree the links stand for. */
    method Unlink(y: Node, ghost q: Path, ghost s: Tree) returns (x: Node, ghost t: Tree)
      requires Shaped() && tree == Plug(q, s) && s.Branch? && s.node == y && (s.left.Leaf? || s.right.Leaf?)
      modifies `root, `tree, `nodes, nodes`left, nodes`right, nodes`parent, sentinel`parent
      ensures t == (if s.left.Branch? then s.left else s.right) && x == RootOf(t, sentinel)
      ensures Shaped() && tree == Plug(q, t) && nodes == old(nodes) - {y} && y in old(nodes)
      ensures t.Leaf? ==> sentinel.parent == ParentOf(q)
    {
      hide Plug, Made, Inorder, Rehung, Reparented, SameBut;
      t := if s.left.Branch? then s.left else s.right;
      ghost var m := All();
      Look(q, s);
      MadeBelow(q, s, root, sentinel, m);
      x := SpliceLinks(y, q, t);
      MadeSpliced(q, s, t, old(root), root, sentinel, m, All());
    }

    /** Puts y in the place of z, with all its links and its color: the end of `DeleteNode`. */
    method TakePlace(z: Node, y: Node, ghost a: Node, ghost b: Node, ghost top: Node?)
      requires z.left == a && z.right == b && z.parent == top && a != b && y !in {z, a, b} && z !in {a, b}
      requires top != null ==> top !in {y, z, a, b} && (top.left == z) != (top.right == z)
      requires top == null ==> root == z
      modifies `root, y`left, y`right, y`parent, y`color, a`parent, b`parent
      modifies (if top == null then {} else {top})`left, (if top == null then {} else {top})`right
      ensures y.left == a && y.right == b && y.parent == top && y.color == z.color && a.parent == y && b.parent == y
      ensures root == if top == null then y else old(root)
      ensures top != null ==> top.left == (if old(top.left) == z then y else old(top.left))
      ensures top != null ==> top.right == (if old(top.right) == z then y else old(top.right))
    {
      y.parent := z.parent;
      if z.parent != null {
        if z == z.parent.left {
          z.parent.left := y;
        } else {
          z.parent.right := y;
        }
      } else {
        root := y;
      }
      y.left := z.left;
      y.right := z.right;
      y.left.parent := y;
      y.right.parent := y;
      y.color := z.color;
    }

    /** What `TakePlace` makes of the links. */
    method TakePlaceLinks(z: Node, y: Node, ghost p: Path, ghost t: Tree)
      requires z in nodes && z.parent == ParentOf(p) && t.Branch? && t.left.Branch? && y !in nodes && y != sentinel
      requires z.left == t.left.node && z.right == RootOf(t.right, sentinel) && z.left != z.right
      requires z !in {z.left, z.right}
      requires t.left.node in nodes && (t.right.Branch? ==> t.right.node in nodes) && sentinel !in nodes
      requires !p.Top? ==> p.node in nodes && p.node !in {z, z.left, z.right}
      requires p.InLeft? ==> p.node.left == z && p.node.right != z
      requires p.InRight? ==> p.node.right == z && p.node.left != z
      requires p.Top? ==> root == z
      modifies `root, `tree, `nodes, nodes`left, nodes`right, nodes`parent
      modifies y`left, y`right, y`parent, y`color, sentinel`parent
      ensures tree == Plug(p, t.(node := y)) && nodes == old(nodes) - {z} + {y}
      ensures sentinel.parent == (if t.right.Leaf? then y else old(sentinel.parent))
      ensures y.left == old(z.left) && y.right == old(z.right) && y.parent == ParentOf(p) && y.color == z.color
      ensures Rehung(p, y, old(root), root, old(All()), All())
      ensures Reparented(t.left, y, old(All()), All()) && Reparented(t.right, y, old(All()), All())
      ensures SameBut({z} + HeadNode(t.left) + HeadNode(t.right) + TopNode(p), old(All()), All())
    {
      TakePlace(z, y, t.left.node, RootOf(t.right, sentinel), ParentOf(p));
      tree, nodes := Plug(p, t.(node := y)), nodes - {z} + {y};
    }

    /** `TakePlace` on the tree the links stand for. */
    method Replace(z: Node, y: Node, ghost p: Path, ghost t: Tree)
      requires Shaped() && tree == Plug(p, t) && t.Branch? && t.node == z && t.left.Branch? && y !in nodes
      requires y != sentinel
      modifies `root, `tree, `nodes, nodes`left, nodes`right, nodes`parent
      modifies y`left, y`right, y`parent, y`color, sentinel`parent
      ensures Shaped() && tree == Plug(p, t.(node := y)) && nodes == old(nodes) - {z} + {y}
      ensures sentinel.parent == if t.right.Leaf? then y else old(sentinel.parent)
    {
      hide Plug, Made, Inorder, Rehung, Reparented, SameBut;
      ghost var m := All();
      Look(p, t);
      MadeBelow(p, t, root, sentinel, m);
      TakePlaceLinks(z, y, p, t);
      MadeReplaced(p, t, y, old(root), root, sentinel, m, All());
    }

    /** Finds the successor of a node with two children: the leftmost one on its right. */
    method Successor(z: Node, ghost p: Path, ghost t: Tree) returns (y: Node, ghost q: Path, ghost s: Tree)
      requires Shaped() && tree == Plug(p, t) && t.Branch? && t.node == z && t.right.Branch?
      ensures tree == Plug(q, s) && s.Branch? && s.node == y && s.left.Leaf? && y != z
      ensures LeftSpine(q, InRight(p, t.left, z, t.color)) && Extends(q, InRight(p, t.left, z, t.color))
      ensures Inner(q, InRight(p, t.left, z, t.color), s) == t.right
    {
      hide Plug, Inorder, Shaped, Good, PathGood, Height;
      Look(p, t);
      ghost var base := InRight(p, t.left, z, t.color);
      y, q, s := z.right, base, t.right;
      PlugOut(q, s);
      Look(q, s);
      LookAtLeaves(q, s);
      while y.left != sentinel
        invariant tree == Plug(q, s) && s.Branch? && s.node == y && y.left == RootOf(s.left, sentinel)
        invariant (y.left == sentinel <==> s.left.Leaf?) && LeftSpine(q, base)
        invariant Extends(q, base) && Inner(q, base, s) == t.right
        decreases s
      {
        Look(q, s);
        y, q, s := y.left, InLeft(q, s.node, s.color, s.right), s.left;
        PlugOut(q, s);
        Look(q, s);
        LookAtLeaves(q, s);
      }
      NotAbove(q, s, base);
    }

    lemma NotAbove(q: Path, s: Tree, base: Path)
      requires Shaped() && tree == Plug(q, s) && s.Branch? && Extends(q, base) && !base.Top?
      ensures s.node != base.node
    {
      MadeParts(q, s, root, sentinel, All());
      ExtendsNodes(q, base);
    }

    lemma LookAtLeaves(p: Path, t: Tree)
      requires Shaped() && tree == Plug(p, t) && t.Branch?
      ensures t.node.left == sentinel <==> t.left.Leaf?
      ensures t.node.right == sentinel <==> t.right.Leaf?
    {
      hide Plug, Inorder, Shaped;
      PlugOut(InLeft(p, t.node, t.color, t.right), t.left);
      PlugOut(InRight(p, t.left, t.node, t.color), t.right);
      Look(p, t);
      Look(InLeft(p, t.node, t.color, t.right), t.left);
      Look(InRight(p, t.left, t.node, t.color), t.right);
    }

    /** Takes the node z, number k in the order, out of the tree (`DeleteNode`). */
    method DeleteNode(z: Node?, ghost k: nat)
      requires Valid() && (z != null && z != sentinel ==> k < |Contents()| && Contents()[k] == z)
      modifies `root, `tree, `nodes, nodes`left, nodes`right, nodes`parent, nodes`color, sentinel`parent, sentinel`color
      ensures Valid()
      ensures if z == null || z == sentinel then nodes == old(nodes) && Contents() == old(Contents()) else
          z in old(nodes) && nodes == old(nodes) - {z}
                && Contents() == old(Contents())[..k] + old(Contents())[k + 1..]
    {
      hide Plug, Inorder, Shaped, Good, PathGood, Height, Ordered, RBShape.Before, After, Short;
      if z == null || z == sentinel {
        return;
      }
      ghost var p, t := Locate(Top, tree, k);
      FitsTop(tree, 0);
      Look(p, t);
      LookAtLeaves(p, t);
      var y;
      ghost var q, s;
      if z.left == sentinel || z.right == sentinel {
        y, q, s := z, p, t;
      } else {
        y, q, s := Successor(z, p, t);
      }
      Look(q, s);
      var x;
      ghost var xt;
      x, xt := Unlink(y, q, s);
      var c := y.color;
      ghost var q' := q;
      if y != z {
        ghost var base, other := InRight(p, t.left, z, t.color), InRight(p, t.left, y, t.color);
        Moved(p, t, y, q, s, xt);
        Replace(z, y, p, t.(right := Inner(q, base, xt)));
        q' := Rebased(q, base, other);
      } else {
        Thinned(p, t, xt);
        Gone(p, t, xt);
      }
      OrderedRemove(old(Contents()), k);
      if c == Black {
        DeleteFixup(x, q', xt);
      }
    }

    // ----- Walking and searching

    /** The first node of the order (`FirstNode`). */
    method FirstNode() returns (n: Node?)
      requires Valid()
      ensures n == if Contents() == [] then null else Contents()[0]
    {
      hide Plug, Inorder, Shaped, Good, PathGood, Height, Ordered, RBShape.Before, After;
      var c := root;
      ghost var q, s := Top, tree;
      FitsTop(tree, 0);
      Look(q, s);
      Spans(q, s);
      if c == sentinel {
        return null;
      }
      LookAtLeaves(q, s);
      while c.left != sentinel
        invariant tree == Plug(q, s) && s.Branch? && s.node == c && RBShape.Before(q) == []
        invariant c.left == sentinel <==> s.left.Leaf?
        decreases s
      {
        Look(q, s);
        PlugOut(InLeft(q, s.node, s.color, s.right), s.left);
        BeforeSame(q, s);
        c, q, s := c.left, InLeft(q, s.node, s.color, s.right), s.left;
        LookAtLeaves(q, s);
      }
      Spans(q, s);
      return c;
    }

    /** The node behind node n, which is number k (`NextNode`). */
    method NextNode(n: Node, ghost k: nat) returns (r: Node?)
      requires Valid() && k < |Contents()| && Contents()[k] == n
      ensures r == if k + 1 < |Contents()| then Contents()[k + 1] else null
    {
      hide Plug, Inorder, Shaped, Good, PathGood, Height, Ordered, RBShape.Before, After;
      ghost var q, s := Locate(Top, tree, k);
      FitsTop(tree, 0);
      Look(q, s);
      LookAtLeaves(q, s);
      Spans(q, s);
      var c := n;
      if c.right != sentinel {
        PlugOut(InRight(q, s.left, s.node, s.color), s.right);
        BeforeRightOf(q, s);
        c, q, s := c.right, InRight(q, s.left, s.node, s.color), s.right;
        LookAtLeaves(q, s);
        while c.left != sentinel
          invariant tree == Plug(q, s) && s.Branch? && s.node == c && |RBShape.Before(q)| == k + 1
          invariant c.left == sentinel <==> s.left.Leaf?
          decreases s
        {
          Look(q, s);
          PlugOut(InLeft(q, s.node, s.color, s.right), s.left);
          BeforeSame(q, s);
          c, q, s := c.left, InLeft(q, s.node, s.color, s.right), s.left;
          LookAtLeaves(q, s);
        }
        Spans(q, s);
        return c;
      }
      while c.parent != null
        invariant tree == Plug(q, s) && s.Branch? && s.node == c && |RBShape.Before(q)| + |Inorder(s)| == k + 1
        invariant c.parent == ParentOf(q)
        decreases q
      {
        Look(q, s);
        PlugOut(q, s);
        Spans(q.up, Out(q, s));
        SpansOut(q, s);
        if c.parent.left == c {
          break;
        }
        Look(q.up, Out(q, s));
        c, q, s := c.parent, q.up, Out(q, s);
      }
      Spans(q, s);
      SpansTop(q, s);
      return c.parent;
    }

    /** Finds, below the node `start`, a node with the key (`FindNodeFrom`): the one above all
        others with it. */
    method FindNodeFrom(start: Node, key: nat, ghost p: Path, ghost t: Tree)
      returns (n: Node?, ghost q: Path, ghost s: Tree)
      requires Valid() && tree == Plug(p, t) && start == RootOf(t, sentinel)
      ensures n == null ==> forall x :: x in Nodes(t) ==> x.Key() != key
      ensures n != null ==> tree == Plug(q, s) && s.Branch? && n == s.node && n.Key() == key && Nodes(s) <= Nodes(t)
      ensures n != null ==> forall x :: x in Nodes(t) && x.Key() == key ==> x in Nodes(s)
    {
      hide Plug, Inorder, Shaped, Good, PathGood, Height, Ordered, RBShape.Before, After, Nodes;
      var current := start;
      q, s := p, t;
      Look(q, s);
      while current != sentinel
        invariant tree == Plug(q, s) && current == RootOf(s, sentinel) && (current == sentinel <==> s.Leaf?)
        invariant Nodes(s) <= Nodes(t) && forall x :: x in Nodes(t) && x.Key() == key ==> x in Nodes(s)
        decreases s
      {
        Look(q, s);
        LookAtLeaves(q, s);
        if key == current.Key() {
          return current, q, s;
        }
        NodesBelow(s);
        forall x | x in Nodes(s) && x.Key() == key ensures x in Nodes(if key < s.node.Key() then s.left else s.right) {
          KeysAround(q, s, x);
        }
        PlugOut(InLeft(q, s.node, s.color, s.right), s.left);
        PlugOut(InRight(q, s.left, s.node, s.color), s.right);
        if key < current.Key() {
          current, q, s := current.left, InLeft(q, s.node, s.color, s.right), s.left;
        } else {
          current, q, s := current.right, InRight(q, s.left, s.node, s.color), s.right;
        }
      }
      NoNodes(s);
      n := null;
    }

    /** Finds a node with the key (`FindNode`). */
    method FindNode(key: nat) returns (n: Node?)
      requires Valid()
      ensures n == null ==> forall x :: x in nodes ==> x.Key() != key
      ensures n != null ==> n in nodes && n.Key() == key
    {
      hide Plug, Inorder, Shaped, Good, PathGood, Height, Ordered, Nodes;
      ghost var q, s;
      FitsTop(tree, 0);
      Look(Top, tree);
      n, q, s := FindNodeFrom(root, key, Top, tree);
      TreeNodes();
      if n != null {
        Look(q, s);
      }
    }

    /** Where a node is. */
    lemma PathTo(n: Node) returns (k: nat, q: Path, s: Tree)
      requires Valid() && n in nodes
      ensures n != sentinel && k < |Contents()| && Contents()[k] == n && tree == Plug(q, s) && s.Branch? && s.node == n
    {
      TreeNodes();
      FitsTop(tree, 0);
      InorderNode(tree, n);
      k :| 0 <= k < |Inorder(tree)| && Inorder(tree)[k] == n;
      q, s := Locate(Top, tree, k);
      Look(q, s);
    }

    /** The order holds each node once. */
    lemma EachOnce()
      requires Valid()
      ensures forall i, j :: 0 <= i < j < |Contents()| ==> Contents()[i] != Contents()[j]
      ensures forall i :: 0 <= i < |Contents()| ==> Contents()[i] in nodes
    {
      TreeNodes();
      InorderOnce(tree);
    }

    /** The nodes of a subtree. */
    lemma PartsOf(q: Path, s: Tree)
      requires Shaped() && tree == Plug(q, s) && s.Branch?
      ensures Nodes(s) == Nodes(s.left) + {s.node} + Nodes(s.right) && Nodes(s) <= nodes
      ensures s.node !in Nodes(s.left) && s.node !in Nodes(s.right) && Nodes(s.left) !! Nodes(s.right)
    {
      MadeParts(q, s, root, sentinel, All());
    }

    lemma TreeNodes()
      requires Shaped()
      ensures nodes == Nodes(tree)
    {
    }

    /** The nodes on the two sides of a node, by their keys. */
    lemma KeysAround(q: Path, s: Tree, x: Node)
      requires Valid() && tree == Plug(q, s) && s.Branch? && x in Nodes(s)
      ensures x.Key() < s.node.Key() ==> x in Nodes(s.left)
      ensures x.Key() > s.node.Key() ==> x in Nodes(s.right)
    {
      hide Plug, Shaped, Ordered;
      InorderPlug(q, s);
      OrderedParts(RBShape.Before(q), s, After(q));
      InorderNode(s.left, x);
      InorderNode(s.right, x);
    }

    /** Where the nodes of a subtree are in the order. */
    lemma Spans(q: Path, s: Tree)
      requires tree == Plug(q, s)
      ensures var o, b := Inorder(tree), |RBShape.Before(q)|;
        && o == RBShape.Before(q) + Inorder(s) + After(q)
        && (s.Branch? ==>
            Inorder(s) == Inorder(s.left) + [s.node] + Inorder(s.right) && o[b + |Inorder(s.left)|] == s.node)
        && (s.Leaf? ==> Inorder(s) == [])
        && (s.Branch? && s.left.Leaf? ==> o[b] == s.node)
        && (s.Branch? && s.right.Leaf? ==> |Inorder(s)| == |Inorder(s.left)| + 1)
    {
      hide Plug;
      InorderPlug(q, s);
    }

    lemma BeforeSame(q: Path, s: Tree)
      requires s.Branch?
      ensures RBShape.Before(InLeft(q, s.node, s.color, s.right)) == RBShape.Before(q)
    {
    }

    lemma BeforeRightOf(q: Path, s: Tree)
      requires s.Branch?
      ensures |RBShape.Before(InRight(q, s.left, s.node, s.color))| == |RBShape.Before(q)| + |Inorder(s.left)| + 1
    {
    }

    lemma SpansOut(q: Path, s: Tree)
      requires !q.Top?
      ensures q.InRight? ==> |RBShape.Before(q.up)| + |Inorder(Out(q, s))| == |RBShape.Before(q)| + |Inorder(s)|
      ensures q.InLeft? ==> After(q) != [] && After(q)[0] == q.node
    {
    }

    lemma SpansTop(q: Path, s: Tree)
      ensures q.Top? ==> After(q) == []
    {
    }
  }

  /** A node with at most one child gives way to it: the balance. */
  lemma Thinned(q: Path, s: Tree, t: Tree)
    requires RedBlack(Plug(q, s)) && s.Branch? && ((t == s.left && s.right.Leaf?) || (t == s.right && s.left.Leaf?))
    ensures s.color.Black? ==> Short(q, t)
    ensures s.color.Red? ==> RedBlack(Plug(q, t)) && Good(t) && IsBlack(t) && PathGood(q, Height(t), false)
  {
    hide Plug, PathGood;
    GoodPlug(q, s);
    GoodPlug(q, t);
    GoodStep(s);
    if s.color.Red? {
      PathGoodDark(q, Height(t));
    }
  }

  lemma NodesBelow(t: Tree)
    requires t.Branch?
    ensures Nodes(t.left) <= Nodes(t) && Nodes(t.right) <= Nodes(t)
  {
  }

  lemma NoNodes(t: Tree)
    ensures t.Leaf? ==> Nodes(t) == {}
  {
  }

  lemma InorderStep(t: Tree)
    ensures Inorder(t) == if t.Leaf? then [] else Inorder(t.left) + [t.node] + Inorder(t.right)
  {
  }

  /** A node with at most one child gives way to it: the order. */
  lemma Gone(p: Path, t: Tree, x: Tree)
    requires t.Branch? && ((x == t.left && t.right.Leaf?) || (x == t.right && t.left.Leaf?))
    ensures var s, k := Inorder(Plug(p, t)), |RBShape.Before(p)| + |Inorder(t.left)|;
      k < |s| && Inorder(Plug(p, x)) == s[..k] + s[k + 1..]
  {
    hide Plug, Inorder, RBShape.Before, After;
    InorderPlug(p, t);
    InorderPlug(p, x);
    InorderStep(t);
    InorderStep(t.left);
    InorderStep(t.right);
    if t.right.Leaf? {
      DropLast(RBShape.Before(p), Inorder(x), t.node, After(p));
    } else {
      DropFirst(RBShape.Before(p), t.node, Inorder(x), After(p));
    }
  }

  /** y is the leftmost node on the right of the root of t, s the tree at y, x what is below y. */
  ghost predicate Leftmost(p: Path, t: Tree, y: Node, q: Path, s: Tree, x: Tree) {
    && t.Branch? && s.Branch? && s.node == y && s.left.Leaf? && x == s.right && y != t.node
    && LeftSpine(q, InRight(p, t.left, t.node, t.color)) && Extends(q, InRight(p, t.left, t.node, t.color))
    && Inner(q, InRight(p, t.left, t.node, t.color), s) == t.right
  }

  /** The root of t gives way to y, whose place x takes. */
  lemma Moved(p: Path, t: Tree, y: Node, q: Path, s: Tree, x: Tree)
    requires Leftmost(p, t, y, q, s, x) && RedBlack(Plug(p, t))
    ensures var base, other := InRight(p, t.left, t.node, t.color), InRight(p, t.left, y, t.color);
      var q' := Rebased(q, base, other);
      && Plug(q, x) == Plug(p, t.(right := Inner(q, base, x)))
      && Plug(q', x) == Plug(p, t.(node := y).(right := Inner(q, base, x)))
      && (Inner(q, base, x).Leaf? ==> q == base && x.Leaf?)
      && ParentOf(q') == (if q == base then y else ParentOf(q))
      && (s.color.Black? ==> Short(q', x))
      && (s.color.Red? ==> RedBlack(Plug(q', x)))
    ensures var o, k, t' := Inorder(Plug(p, t)), |RBShape.Before(p)| + |Inorder(t.left)|,
                            t.(node := y).(right := Inner(q, InRight(p, t.left, t.node, t.color), x));
      k < |o| && Inorder(Plug(p, t')) == o[..k] + o[k + 1..]
  {
    hide Plug, Good, PathGood, Height, RBShape.Before, After, Inorder, Short, RedBlack;
    var base, other := InRight(p, t.left, t.node, t.color), InRight(p, t.left, y, t.color);
    var r := Inner(q, base, x);
    PlugRebased(q, base, other, x);
    PlugOut(base, r);
    PlugOut(other, r);
    InnerLeaf(q, base, x);
    MovedBalance(p, t, y, q, s, x);
    MovedOrder(p, t, y, q, s, x);
  }

  lemma MovedBalance(p: Path, t: Tree, y: Node, q: Path, s: Tree, x: Tree)
    requires Leftmost(p, t, y, q, s, x) && RedBlack(Plug(p, t))
    ensures var q' := Rebased(q, InRight(p, t.left, t.node, t.color), InRight(p, t.left, y, t.color));
      && (s.color.Black? ==> Short(q', x))
      && (s.color.Red? ==> RedBlack(Plug(q', x)))
  {
    hide Plug, Good, PathGood, Height;
    var base, other := InRight(p, t.left, t.node, t.color), InRight(p, t.left, y, t.color);
    PlugRebased(q, base, other, s);
    PlugOut(base, t.right);
    assert Plug(q, s) == Plug(p, t);
    Thinned(q, s, x);
    PathGoodRebased(q, base, other, Height(Dark(x)) + (if IsBlack(x) then 1 else 0), false);
    PathGoodRebased(q, base, other, Height(x), false);
    GoodPlug(Rebased(q, base, other), x);
  }

  lemma MovedOrder(p: Path, t: Tree, y: Node, q: Path, s: Tree, x: Tree)
    requires Leftmost(p, t, y, q, s, x)
    ensures var o, k, t' := Inorder(Plug(p, t)), |RBShape.Before(p)| + |Inorder(t.left)|,
                            t.(node := y).(right := Inner(q, InRight(p, t.left, t.node, t.color), x));
      k < |o| && Inorder(Plug(p, t')) == o[..k] + o[k + 1..]
  {
    hide Plug, Inorder, RBShape.Before, After, SpineAfter, Inner;
    var base := InRight(p, t.left, t.node, t.color);
    var a, l, r, b := RBShape.Before(p), Inorder(t.left), SpineAfter(q, base), After(p);
    MovedFrom(p, t, y, q, s, x);
    MovedTo(p, t, y, q, s, x);
    DropMiddle(a, l, t.node, y, Inorder(x), r, b);
  }

  /** The nodes in order before the move. */
  lemma MovedFrom(p: Path, t: Tree, y: Node, q: Path, s: Tree, x: Tree)
    requires Leftmost(p, t, y, q, s, x)
    ensures Inorder(Plug(p, t)) == RBShape.Before(p)
      + (Inorder(t.left) + [t.node] + (([] + [y] + Inorder(x)) + SpineAfter(q, InRight(p, t.left, t.node, t.color))))
      + After(p)
  {
    hide Plug, Inorder, RBShape.Before, After, SpineAfter, Inner, Extends, LeftSpine;
    SpineOrder(q, InRight(p, t.left, t.node, t.color), s);
    InorderPlug(p, t);
    InorderStep(t);
    InorderStep(s);
    InorderStep(s.left);
  }

  /** The nodes in order after it. */
  lemma MovedTo(p: Path, t: Tree, y: Node, q: Path, s: Tree, x: Tree)
    requires Leftmost(p, t, y, q, s, x)
    ensures var base := InRight(p, t.left, t.node, t.color);
      Inorder(Plug(p, t.(node := y).(right := Inner(q, base, x))))
        == RBShape.Before(p) + (Inorder(t.left) + [y] + (Inorder(x) + SpineAfter(q, base))) + After(p)
  {
    hide Plug, Inorder, RBShape.Before, After, SpineAfter, Inner, Extends, LeftSpine;
    var base := InRight(p, t.left, t.node, t.color);
    var t' := t.(node := y).(right := Inner(q, base, x));
    SpineOrder(q, base, x);
    InorderPlug(p, t');
    InorderStep(t');
  }

  lemma DropMiddle(a: seq<Node>, l: seq<Node>, z: Node, y: Node, x: seq<Node>, r: seq<Node>, b: seq<Node>)
    ensures var o, k := a + (l + [z] + (([] + [y] + x) + r)) + b, |a| + |l|;
      k < |o| && a + (l + [y] + (x + r)) + b == o[..k] + o[k + 1..]
  {
    assert a + (l + [z] + (([] + [y] + x) + r)) + b == (a + l) + [z] + ([y] + x + r + b);
    Drop(a + l, z, [y] + x + r + b);
    assert a + (l + [y] + (x + r)) + b == (a + l) + ([y] + x + r + b);
  }

  lemma {:induction false} ExtendsNodes(q: Path, base: Path)
    requires Extends(q, base) && !base.Top?
    ensures base.node in PathNodes(q)
  {
    if q != base {
      ExtendsNodes(q.up, base);
    }
  }

  lemma InnerLeaf(q: Path, base: Path, x: Tree)
    requires Extends(q, base)
    ensures Inner(q, base, x).Leaf? ==> q == base && x.Leaf?
    ensures q != base ==> !Rebased(q, base, base).Top?
    decreases q
  {
    if q != base {
      InnerBranch(q.up, base, Out(q, x));
    }
  }

  lemma {:induction false} InnerBranch(q: Path, base: Path, x: Tree)
    requires Extends(q, base) && x.Branch?
    ensures Inner(q, base, x).Branch?
    decreases q
  {
    if q != base {
      InnerBranch(q.up, base, Out(q, x));
    }
  }

  lemma OrderedRemove(s: seq<Node>, k: nat)
    requires Ordered(s) && k < |s|
    ensures Ordered(s[..k] + s[k + 1..])
  {
  }

  lemma DropLast(a: seq<Node>, b: seq<Node>, x: Node, c: seq<Node>)
    ensures var s, k := a + (b + [x] + []) + c, |a| + |b|; k < |s| && a + b + c == s[..k] + s[k + 1..]
  {
    assert a + (b + [x] + []) + c == (a + b) + [x] + c;
    Drop(a + b, x, c);
  }

  lemma DropFirst(a: seq<Node>, x: Node, b: seq<Node>, c: seq<Node>)
    ensures var s, k := a + ([] + [x] + b) + c, |a|; k < |s| && a + b + c == s[..k] + s[k + 1..]
  {
    assert a + ([] + [x] + b) + c == a + [x] + (b + c);
    Drop(a, x, b + c);
    assert a + b + c == a + (b + c);
  }

  lemma Drop(a: seq<Node>, x: Node, b: seq<Node>)
    ensures var s := a + [x] + b; s[..|a|] + s[|a| + 1..] == a + b
  {
  }

  /** The order after a node was put into the hole. */
  lemma InsertedAt(p: Path, x: Node, s: seq<Node>)
    requires s == Inorder(Plug(p, Leaf))
    ensures var k := |RBShape.Before(p)|;
      && k <= |s| && s[..k] == RBShape.Before(p) && s[k..] == After(p)
      && Inorder(Plug(p, Branch(Leaf, x, Red, Leaf))) == s[..k] + [x] + s[k..]
  {
    InorderPlug(p, Leaf);
    InorderPlug(p, Branch(Leaf, x, Red, Leaf));
  }

  lemma RedAttached(p: Path, x: Node)
    requires RedBlack(Plug(p, Leaf))
    ensures RedSpot(p, Branch(Leaf, x, Red, Leaf))
  {
    GoodPlug(p, Leaf);
  }

  lemma OrderedParts(a: seq<Node>, t: Tree, b: seq<Node>)
    requires t.Branch? && Ordered(a + Inorder(t) + b)
    ensures forall i :: 0 <= i < |Inorder(t.left)| ==> Inorder(t.left)[i].Key() <= t.node.Key()
    ensures forall i :: 0 <= i < |Inorder(t.right)| ==> Inorder(t.right)[i].Key() >= t.node.Key()
  {
    var l, r, s := Inorder(t.left), Inorder(t.right), a + Inorder(t) + b;
    assert s[|a| + |l|] == t.node;
    forall i | 0 <= i < |l| ensures l[i].Key() <= t.node.Key() {
      assert s[|a| + i] == l[i];
    }
    forall i | 0 <= i < |r| ensures r[i].Key() >= t.node.Key() {
      assert s[|a| + |l| + 1 + i] == r[i];
    }
  }

  lemma OrderedInsert(s: seq<Node>, k: nat, x: Node)
    requires Ordered(s) && k <= |s|
    requires forall i :: 0 <= i < k ==> s[i].Key() <= x.Key()
    requires forall i :: k <= i < |s| ==> s[i].Key() > x.Key()
    ensures Ordered(s[..k] + [x] + s[k..])
  {
  }

}
