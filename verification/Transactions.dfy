/** The store of pending operations of FS/transactions.c: at most one operation for each block and
    nest level, held in a red-black tree; a transaction is level 1, what is waiting to be flushed
    is level 0. */
module Transactions {
  import opened Words
  import opened Log
  import opened RBShape
  import RBLinks
  import opened RBTree
  import opened Journal
  import Diff

  // ----- What the store means

  /** The operation of each block and nest level. */
  type Table = map<(nat, nat), Operation>

  datatype Pending = NoOperation | Pending(op: Operation)

  /** The operation that counts for a block. */
  ghost function LatestOf(t: Table, b: nat): Pending {
    if (b, 1) in t then Pending(t[(b, 1)])
    else if (b, 0) in t then Pending(t[(b, 0)])
    else NoOperation
  }

  /** What a block that holds x on disk reads as. */
  ghost function View(t: Table, x: Block, b: nat): Block {
    match LatestOf(t, b)
    case NoOperation => x
    case Pending(o) => Applied(x, o)
  }

  /** Deletions have no data and are made for blocks that are on disk. */
  ghost predicate Sound(o: Operation) {
    o.IsDelete() ==> o.data == [] && !o.IsEmpty()
  }

  ghost predicate SoundTable(t: Table) {
    forall k :: k in t ==> k.1 <= 1 && k.0 == t[k].blckno && Sound(t[k])
  }

  /** Both levels have an operation for the block and the newer one deletes it. */
  ghost predicate Cancelled(t: Table, b: nat) {
    (b, 0) in t && (b, 1) in t && t[(b, 1)].IsDelete()
  }

  ghost function BlocksOf(t: Table): set<nat> {
    set k | k in t :: k.0
  }

  /** The table when the transaction ends. */
  ghost function Combined(t: Table): Table
    requires SoundTable(t)
  {
    map b | b in BlocksOf(t) && !Cancelled(t, b) :: (b, 0) := LatestOf(t, b).op
  }

  /** The table when the transaction is given up. */
  ghost function Discarded(t: Table): Table {
    map k | k in t && k.1 != 1 :: t[k]
  }

  // ----- Runs

  /** What a transaction does to blocks: it stores a new version or marks the block unused. */
  datatype Step = Store(op: Operation) | Free(block: Long)

  /** The operation for a step. */
  function StepOperation(s: Step): (o: Operation)
    ensures s.Free? ==> o.IsDelete() && !o.IsEmpty() && o.data == [] && o.blckno == s.block
  {
    match s
    case Store(op) => op
    case Free(block) => Operation(block, OI_DELETE, [], 0)
  }

  ghost predicate GoodStep(s: Step) { s.Store? ==> !s.op.IsDelete() && s.op.data != [] }

  ghost function Stepped(t: Table, s: Step, nest: nat): Table {
    t[(StepOperation(s).blckno, nest) := StepOperation(s)]
  }

  ghost function RunOf(t: Table, steps: seq<Step>): Table {
    if steps == [] then t else Stepped(RunOf(t, steps[..|steps| - 1]), steps[|steps| - 1], 1)
  }

  /** The last step for a block. */
  ghost function LastFor(steps: seq<Step>, b: nat): Pending {
    if steps == [] then NoOperation
    else if StepOperation(steps[|steps| - 1]).blckno == b then Pending(StepOperation(steps[|steps| - 1]))
    else LastFor(steps[..|steps| - 1], b)
  }

  lemma {:induction false} RunSound(t: Table, steps: seq<Step>)
    requires SoundTable(t) && forall i :: 0 <= i < |steps| ==> GoodStep(steps[i])
    ensures SoundTable(RunOf(t, steps))
  {
    if steps != [] {
      RunSound(t, steps[..|steps| - 1]);
    }
  }

  lemma {:induction false} RunLevels(t: Table, steps: seq<Step>, b: nat)
    ensures (b, 0) in RunOf(t, steps) <==> (b, 0) in t
    ensures (b, 0) in t ==> RunOf(t, steps)[(b, 0)] == t[(b, 0)]
    ensures LastFor(steps, b).NoOperation? ==> ((b, 1) in RunOf(t, steps) <==> (b, 1) in t)
    ensures LastFor(steps, b).Pending? ==> (b, 1) in RunOf(t, steps) && RunOf(t, steps)[(b, 1)] == LastFor(steps, b).op
  {
    if steps != [] {
      RunLevels(t, steps[..|steps| - 1], b);
    }
  }

  /** Giving up a transaction brings back the table it started from. */
  lemma DiscardRestores(t: Table, steps: seq<Step>)
    requires SoundTable(t) && (forall k :: k in t ==> k.1 == 0) && forall i :: 0 <= i < |steps| ==> GoodStep(steps[i])
    ensures Discarded(RunOf(t, steps)) == t
  {
    hide RunOf;
    RunSound(t, steps);
    forall k | k in t || k in Discarded(RunOf(t, steps))
      ensures k in t && k in Discarded(RunOf(t, steps)) && Discarded(RunOf(t, steps))[k] == t[k]
    {
      RunLevels(t, steps, k.0);
    }
  }

  lemma AppliedNothing(x: Block, o: Operation)
    requires o.data == []
    ensures Applied(x, o) == x
  {
    Diff.DecodeNothing(x);
  }

  /** Ending a transaction changes no block's view. */
  lemma CombineKeepsView(t: Table, x: Block, b: nat)
    requires SoundTable(t)
    ensures View(Combined(t), x, b) == View(t, x, b)
  {
    hide Applied, Combined;
    CombinedLatest(t, b);
    if Cancelled(t, b) {
      AppliedNothing(x, t[(b, 1)]);
    }
  }

  lemma CombinedLatest(t: Table, b: nat)
    requires SoundTable(t)
    ensures LatestOf(Combined(t), b) == if Cancelled(t, b) then NoOperation else LatestOf(t, b)
  {
    hide Sound, Cancelled;
    InCombined(t, b);
    assert (b, 1) !in Combined(t);
  }

  lemma InCombined(t: Table, b: nat)
    requires SoundTable(t)
    ensures (b, 0) in Combined(t) <==> !Cancelled(t, b) && LatestOf(t, b) != NoOperation
  {
    hide Sound, Cancelled;
    if (b, 0) in t { assert b in BlocksOf(t); }
    if (b, 1) in t { assert b in BlocksOf(t); }
  }

  /** What a block reads as after a whole transaction: its last step decides, and blocks it does
      not touch read as before. */
  lemma TransactionView(t: Table, steps: seq<Step>, x: Block, b: nat)
    requires SoundTable(t) && (forall k :: k in t ==> k.1 == 0) && forall i :: 0 <= i < |steps| ==> GoodStep(steps[i])
    ensures SoundTable(RunOf(t, steps))
    ensures View(Combined(RunOf(t, steps)), x, b) ==
      match LastFor(steps, b) case NoOperation => View(t, x, b) case Pending(o) => Applied(x, o)
  {
    hide Applied, RunOf;
    RunSound(t, steps);
    RunLevels(t, steps, b);
    CombineKeepsView(RunOf(t, steps), x, b);
  }

  /** A deletion survives the end of the transaction just if its block had no operation before. */
  lemma DeletionsThatSurvive(t: Table)
    requires SoundTable(t) && forall b: nat :: (b, 0) in t ==> !t[(b, 0)].IsDelete()
    ensures (forall k :: k in Combined(t) ==> !Combined(t)[k].IsDelete())
       <==> (forall b: nat :: (b, 1) in t && t[(b, 1)].IsDelete() ==> (b, 0) in t)
  {
    if forall k :: k in Combined(t) ==> !Combined(t)[k].IsDelete() {
      forall b: nat | (b, 1) in t && t[(b, 1)].IsDelete() ensures (b, 0) in t {
        assert b in BlocksOf(t);
        assert Cancelled(t, b) || (b, 0) in Combined(t);
      }
    }
    if forall b: nat :: (b, 1) in t && t[(b, 1)].IsDelete() ==> (b, 0) in t {
      forall k | k in Combined(t) ensures !Combined(t)[k].IsDelete() {
        assert k.0 in BlocksOf(t);
      }
    }
  }

  // ----- The store

  /** The nest level of each operation in the store. */
  type Levels = map<Node, nat>

  ghost function LevelsOf(s: set<Node>): (lv: Levels)
    reads s
    ensures lv.Keys == s
  {
    map x | x in s :: x.level
  }

  /** Node x is the operation for a block at a nest level. */
  ghost predicate Matches(lv: Levels, x: Node, block: nat, level: nat) {
    x in lv && x.Key() == block && lv[x] == level
  }

  /** No block has two operations at the same level. */
  ghost predicate OneEach(lv: Levels) {
    forall x, y :: x in lv && y in lv && x.Key() == y.Key() && lv[x] == lv[y] ==> x == y
  }

  ghost predicate SoundNodes(lv: Levels, nest: nat) {
    forall x :: x in lv ==> lv[x] <= nest && Sound(x.op)
  }

  ghost function KeysOf(lv: Levels): set<(nat, nat)> {
    set x | x in lv :: (x.Key(), lv[x])
  }

  ghost function NodeFor(lv: Levels, k: (nat, nat)): (x: Node)
    requires k in KeysOf(lv)
    ensures Matches(lv, x, k.0, k.1)
  {
    var x :| x in lv && (x.Key(), lv[x]) == k;
    x
  }

  ghost function TableOf(lv: Levels): Table {
    map k | k in KeysOf(lv) :: NodeFor(lv, k).op
  }

  /** Memory in use: sizeof(struct Operation) and the data of each operation. */
  ghost function PoolOf(s: seq<Node>, size: nat): nat {
    if s == [] then 0 else |s[0].op.data| + size + PoolOf(s[1..], size)
  }

  lemma {:induction false} PoolConcat(a: seq<Node>, b: seq<Node>, size: nat)
    ensures PoolOf(a + b, size) == PoolOf(a, size) + PoolOf(b, size)
  {
    if a == [] {
      assert a + b == b;
    } else {
      assert (a + b)[1..] == a[1..] + b;
      PoolConcat(a[1..], b, size);
    }
  }

  lemma PoolWithout(s: seq<Node>, k: nat, size: nat)
    requires k < |s|
    ensures PoolOf(s, size) == PoolOf(s[..k] + s[k + 1..], size) + |s[k].op.data| + size
  {
    PoolConcat(s[..k], s[k..], size);
    PoolConcat(s[..k], s[k + 1..], size);
    assert s == s[..k] + s[k..] && s[k..][1..] == s[k + 1..];
  }

  const MAX_TRANSACTIONPOOLSIZE := 32768

  class TransactionStore {
    const store: RedBlackTree
    /** sizeof(struct Operation). */
    const size: nat
    /** transactionnestcount: 1 inside a transaction, else 0. */
    var nest: nat
    /** transactionpoolsize. */
    var poolSize: nat

    ghost predicate Valid()
      reads this, store, store.sentinel, store.nodes
    {
      && store.Valid() && nest <= 1 && OneEach(Levels()) && SoundNodes(Levels(), nest)
      && poolSize == PoolOf(store.Contents(), size)
    }

    ghost function Levels(): Levels
      reads store, store.nodes
    {
      LevelsOf(store.nodes)
    }

    ghost function Operations(): Table
      reads store, store.nodes
    {
      TableOf(Levels())
    }

    constructor (size: nat)
      ensures Valid() && nest == 0 && this.size == size && store.nodes == {} && Operations() == map[]
    {
      store := new RedBlackTree();
      this.size, nest, poolSize := size, 0, 0;
      new;
      assert store.nodes == {} by { store.TreeNodes(); }
    }

    // ----- Looking an operation up

    /** The newest operation for a block below the node `start` (`getlatestoperation2`). */
    method GetLatestOperation2(block: nat, start: Node, ghost p: Path, ghost t: Tree) returns (o: Node?)
      requires Valid() && store.tree == Plug(p, t) && start == RootOf(t, store.sentinel)
      ensures o == null ==> forall x :: x in Nodes(t) ==> x.Key() != block
      ensures o != null ==> o in Nodes(t) && o.Key() == block
      ensures o != null ==> forall x :: x in Nodes(t) && x.Key() == block ==> x.level <= o.level
      decreases |Nodes(t)|
    {
      hide Plug, Nodes, OneEach, SoundNodes, RedBlackTree.Valid;
      var n;
      ghost var q, s;
      n, q, s := store.FindNodeFrom(start, block, p, t);
      o := n;
      if n != null {
        Children(q, s);
        Subset(Nodes(s), Nodes(t));
        var o2 := GetLatestOperation2(block, n.left, InLeft(q, n, s.color, s.right), s.left);
        var o3 := GetLatestOperation2(block, n.right, InRight(q, s.left, n, s.color), s.right);
        if o2 != null && o2.level > o.level {
          o := o2;
        }
        if o3 != null && o3.level > o.level {
          o := o3;
        }
      }
    }

    /** The links and the nodes below a node. */
    lemma Children(q: Path, s: Tree)
      requires store.Valid() && store.tree == Plug(q, s) && s.Branch?
      ensures s.node in store.nodes && s.node.left == RootOf(s.left, store.sentinel)
      ensures s.node.right == RootOf(s.right, store.sentinel)
      ensures store.tree == Plug(InLeft(q, s.node, s.color, s.right), s.left)
          == Plug(InRight(q, s.left, s.node, s.color), s.right)
      ensures Nodes(s) == Nodes(s.left) + {s.node} + Nodes(s.right) && s.node !in Nodes(s.left)
      ensures s.node !in Nodes(s.right)
      ensures Nodes(s) <= store.nodes
      ensures |Nodes(s.left)| < |Nodes(s)| && |Nodes(s.right)| < |Nodes(s)|
    {
      hide Plug, RedBlackTree.Shaped;
      store.Look(q, s);
      PlugOut(InLeft(q, s.node, s.color, s.right), s.left);
      PlugOut(InRight(q, s.left, s.node, s.color), s.right);
      store.PartsOf(q, s);
      Smaller(Nodes(s.left), Nodes(s), s.node);
      Smaller(Nodes(s.right), Nodes(s), s.node);
    }

    /** The operation that counts for a block (`getlatestoperation`). */
    method GetLatestOperation(block: nat) returns (o: Node?)
      requires Valid()
      ensures o == null <==> LatestOf(Operations(), block).NoOperation?
      ensures o != null ==> o in store.nodes && LatestOf(Operations(), block) == Pending(o.op)
    {
      hide RedBlackTree.Valid, OneEach, SoundNodes, TableOf, LatestOf, Nodes;
      WholeTree();
      o := GetLatestOperation2(block, store.root, Top, store.tree);
      NewestIs(Levels(), nest, block, o);
    }

    lemma WholeTree()
      requires store.Valid()
      ensures Plug(Top, store.tree) == store.tree && store.root == RootOf(store.tree, store.sentinel)
      ensures Nodes(store.tree) == store.nodes
    {
      hide RedBlackTree.Shaped;
      store.Look(Top, store.tree);
      store.TreeNodes();
    }

    // ----- Adding and removing

    /** Takes an operation, number k in the order, out of the store (`removeoperation`). */
    method RemoveOperation(o: Node, ghost k: nat)
      requires store.Valid() && poolSize == PoolOf(store.Contents(), size)
      requires k < |store.Contents()| && store.Contents()[k] == o && o != store.sentinel
      modifies `poolSize, store`root, store`tree, store`nodes, store.nodes`left, store.nodes`right, store.nodes`parent
      modifies store.nodes`color, store.sentinel`parent, store.sentinel`color
      ensures store.Valid() && poolSize == PoolOf(store.Contents(), size)
      ensures o in old(store.nodes) && store.nodes == old(store.nodes) - {o}
      ensures store.Contents() == old(store.Contents())[..k] + old(store.Contents())[k + 1..]
      ensures Levels() == old(Levels()) - {o}
    {
      hide RedBlackTree.Valid, RedBlackTree.Contents, PoolOf;
      PoolWithout(store.Contents(), k, size);
      store.DeleteNode(o, k);
      poolSize := poolSize - (|o.op.data| + size);
    }

    /** Removes the operation for a block at the current level below the node `start`, if there
        is one (`removecurrentoperation2`). */
    method RemoveCurrentOperation2(block: nat, start: Node, ghost p: Path, ghost t: Tree) returns (ghost gone: Node?)
      requires Valid() && store.tree == Plug(p, t) && start == RootOf(t, store.sentinel) && Nodes(t) <= store.nodes
      modifies `poolSize, store`root, store`tree, store`nodes, store.nodes`left, store.nodes`right, store.nodes`parent
      modifies store.nodes`color, store.sentinel`parent, store.sentinel`color
      ensures Valid() && Levels() == if gone == null then old(Levels()) else old(Levels()) - {gone}
      ensures gone == null ==> store.tree == old(store.tree) && store.nodes == old(store.nodes)
      ensures gone == null ==> forall x :: x in Nodes(t) ==> !Matches(old(Levels()), x, block, nest)
      ensures gone != null ==> gone in Nodes(t) && Matches(old(Levels()), gone, block, nest)
      decreases |store.nodes|, |Nodes(t)|
    {
      hide Plug, Nodes, RedBlackTree.Valid, RedBlackTree.Contents, PoolOf, LevelsOf, OneEach, SoundNodes;
      ghost var lv := Levels();
      ghost var q, s;
      var o;
      o, q, s := store.FindNodeFrom(start, block, p, t);
      gone := null;
      if o != null {
        Children(q, s);
        Subset(Nodes(s), Nodes(t));
        LevelsAt(store.nodes, o);
        if o.level == nest {
          ghost var k, _, _ := store.PathTo(o);
          Alone(lv, o, nest);
          RemoveOperation(o, k);
          gone := o;
        } else {
          gone := RemoveCurrentOperation2(block, o.left, InLeft(q, o, s.color, s.right), s.left);
          ghost var q', s' := q, s;
          if gone != null {
            Alone(lv, gone, nest);
            ghost var k;
            k, q', s' := store.PathTo(o);
          }
          Children(q', s');
          ghost var more := RemoveCurrentOperation2(block, o.right, InRight(q', s'.left, o, s'.color), s'.right);
          if gone == null {
            gone := more;
          }
        }
      }
    }

    /** Removes the operation for a block at the current level (`removecurrentoperation`). */
    method RemoveCurrentOperation(block: nat) returns (ghost gone: Node?)
      requires Valid()
      modifies `poolSize, store`root, store`tree, store`nodes, store.nodes`left, store.nodes`right, store.nodes`parent
      modifies store.nodes`color, store.sentinel`parent, store.sentinel`color
      ensures Valid() && Levels() == if gone == null then old(Levels()) else old(Levels()) - {gone}
      ensures gone == null ==> forall x :: x in old(store.nodes) ==> !Matches(old(Levels()), x, block, nest)
      ensures gone != null ==> Matches(old(Levels()), gone, block, nest)
      ensures store.nodes <= old(store.nodes)
    {
      hide Plug, Nodes, RedBlackTree.Valid, RedBlackTree.Contents, PoolOf, LevelsOf, OneEach, SoundNodes;
      WholeTree();
      gone := RemoveCurrentOperation2(block, store.root, Top, store.tree);
      assert store.nodes == Levels().Keys && old(store.nodes) == old(Levels()).Keys;
    }

    /** Puts a new operation into the store (`linkoperation`). */
    method LinkOperation(o: Node)
      requires store.Valid() && poolSize == PoolOf(store.Contents(), size) && o !in store.nodes && o != store.sentinel
      modifies `poolSize, store`root, store`tree, store`nodes, store.nodes`left, store.nodes`right, store.nodes`parent
      modifies store.nodes`color, o`left, o`right, o`parent, o`color
      ensures store.Valid() && poolSize == PoolOf(store.Contents(), size)
      ensures store.nodes == old(store.nodes) + {o} && Levels() == old(Levels())[o := o.level]
    {
      hide RedBlackTree.Valid, RedBlackTree.Contents, PoolOf;
      ghost var before := store.Contents();
      ghost var k := store.InsertNode(o);
      poolSize := poolSize + |o.op.data| + size;
      PoolWithout(store.Contents(), k, size);
      assert store.Contents()[..k] + store.Contents()[k + 1..] == before;
    }

    /** Adds an operation at the current level; one for the same block at that level is replaced
        (`addoperation`). */
    method AddOperation(op: Operation)
      requires Valid() && Sound(op)
      modifies `poolSize, store`root, store`tree, store`nodes, store.nodes`left, store.nodes`right, store.nodes`parent
      modifies store.nodes`color, store.sentinel`parent, store.sentinel`color
      ensures Valid() && Operations() == old(Operations())[(op.blckno, nest) := op]
      ensures fresh(store.nodes - old(store.nodes))
    {
      hide Plug, Nodes, RedBlackTree.Valid, RedBlackTree.Contents, PoolOf, LevelsOf, OneEach, TableOf, SoundNodes;
      ghost var lv := Levels();
      ghost var gone := RemoveCurrentOperation(op.blckno);
      var o := new Node(op, nest);
      LinkOperation(o);
      TableAdded(lv, gone, o, nest);
      SoundAdded(lv, gone, o, nest);
    }

    /** Notes that a block is no longer used (`addfreeoperation`). */
    method AddFreeOperation(block: Long)
      requires Valid()
      modifies `poolSize, store`root, store`tree, store`nodes, store.nodes`left, store.nodes`right, store.nodes`parent
      modifies store.nodes`color, store.sentinel`parent, store.sentinel`color
      ensures Valid() && Operations() == Stepped(old(Operations()), Free(block), nest)
      ensures Operations() == old(Operations())[(block, nest) := Operation(block, 2, [], 0)]
      ensures fresh(store.nodes - old(store.nodes))
    {
      hide RedBlackTree.Valid, TableOf, LevelsOf, OneEach, SoundNodes, PoolOf;
      AddOperation(StepOperation(Free(block)));
    }

    // ----- Beginning and ending a transaction

    /** Begins a transaction (`newtransaction`). */
    method NewTransaction()
      requires Valid() && nest == 0
      modifies `nest
      ensures Valid() && nest == 1 && Operations() == old(Operations())
    {
      hide RedBlackTree.Valid, PoolOf, TableOf, LevelsOf, OneEach;
      nest := nest + 1;
    }

    lemma StartOf()
      requires Valid()
      ensures Start(store.Contents(), Levels()) && SoundTable(Operations())
    {
      hide RedBlackTree.Shaped, PoolOf, OneEach, RedBlack;
      var s, lv := store.Contents(), Levels();
      store.EachOnce();
      forall x | x in lv ensures x in SetOf(s) {
        var k, _, _ := store.PathTo(x);
      }
      forall x | x in SetOf(s) ensures x in lv {
        var i :| 0 <= i < |s| && s[i] == x;
      }
    }

    /** Moves an operation to another level. */
    method SetLevel(o: Node, level: nat)
      requires store.Valid() && o in store.nodes
      modifies o`level
      ensures store.Valid() && Levels() == old(Levels())[o := level]
    {
      hide RBLinks.Made, RedBlack, Ordered, Inorder;
      ghost var m := store.All();
      o.level := level;
      assert store.All() == m;
    }

    /** How far `CombineOperations` has come: it stands at operation j of the order s it found;
        everything in front of g is done, and between g and j there is at most one operation,
        for the same block. */
    ghost predicate Combining(s: seq<Node>, lv: Levels, g: nat, j: nat, at: Levels, oold: Node?, onew: Node?)
      reads this, store, store.sentinel, store.nodes
    {
      && store.Valid() && poolSize == PoolOf(store.Contents(), size)
      && Walked(s, lv, g, store.Contents(), at) && (g == j || g + 1 == j) && j < |s|
      && (g > 0 ==> s[g - 1].Key() != s[g].Key())
      && Levels() == (if g == j then at else at[s[g] := 0])
      && (g < j ==> s[g].Key() == s[j].Key())
      && oold == (if g < j && lv[s[g]] == 0 then s[g] else null)
      && onew == (if g < j && lv[s[g]] == 1 then s[g] else null)
    }

    /** Where the operations around the walk are in the order. */
    lemma CombiningAt(s: seq<Node>, lv: Levels, g: nat, j: nat, at: Levels, oold: Node?, onew: Node?)
      requires Combining(s, lv, g, j, at, oold, onew)
      ensures var c, b := store.Contents(), |store.Contents()| + g - |s|;
        && b >= 0 && c[b..] == s[g..] && b + j - g < |c| && c[b] == s[g] && c[b + j - g] == s[j]
        && (j + 1 < |s| <==> b + j - g + 1 < |c|) && (j + 1 < |s| ==> c[b + j - g + 1] == s[j + 1])
        && s[g] in store.nodes && s[j] in store.nodes && s[g] != store.sentinel && s[j] != store.sentinel
        && s[j] in Levels() && Levels()[s[j]] == s[j].level == lv[s[j]] <= 1 && s[j] in lv && s[g] in lv
            && store.Valid() && poolSize == PoolOf(c, size)
        && (g < j ==> s[g] != s[j] && lv[s[g]] + lv[s[j]] == 1)
    {
      hide RedBlackTree.Valid, PoolOf, RedBlackTree.Contents, Staying, SetOf, TableOf;
      var c, b := store.Contents(), |store.Contents()| + g - |s|;
      Alike(c, b, s, g);
      hide Start;
      StartIn(s, lv, g);
      StartIn(s, lv, j);
      LevelsAt(store.nodes, s[j]);
      LevelsAt(store.nodes, s[g]);
      NotSentinel(s[g]);
      NotSentinel(s[j]);
      if g < j {
        Neighbours(s, lv, g);
      }
    }

    lemma StartIn(s: seq<Node>, lv: Levels, i: nat)
      requires Start(s, lv) && i < |s|
      ensures s[i] in lv && lv[s[i]] <= 1
    {
    }

    lemma Alike(c: seq<Node>, b: nat, s: seq<Node>, g: nat)
      requires b <= |c| && g <= |s| && c[b..] == s[g..]
      ensures |c| - b == |s| - g && forall i :: g <= i < |s| ==> c[b + i - g] == s[i]
    {
      forall i | g <= i < |s| ensures c[b + i - g] == s[i] {
        assert c[b..][i - g] == s[g..][i - g];
      }
    }

    lemma NotSentinel(x: Node)
      requires store.Valid() && x in store.nodes
      ensures x != store.sentinel
    {
      hide RedBlackTree.Valid;
      var k, _, _ := store.PathTo(x);
    }

    /** Removes the older of two operations for a block and, if the newer one is a deletion, that
        one too. */
    method RemovePair(oold: Node, onew: Node, ghost s: seq<Node>, ghost lv: Levels, ghost g: nat, ghost at: Levels)
      requires store.Valid() && poolSize == PoolOf(store.Contents(), size) && Walked(s, lv, g, store.Contents(), at)
      requires g + 1 < |s| && s[g].Key() == s[g + 1].Key() && s[g] in lv
      requires oold == Older(s, lv, g) && onew == Newer(s, lv, g)
      requires Levels() == at[s[g] := 0][s[g + 1] := 0] && {oold, onew} <= store.nodes
      modifies `poolSize, store`root, store`tree, store`nodes, store.nodes`left, store.nodes`right, store.nodes`parent
      modifies store.nodes`color, store.sentinel`parent, store.sentinel`color
      ensures store.Valid() && poolSize == PoolOf(store.Contents(), size)
      ensures Walked(s, lv, g + 2, store.Contents(), Levels()) && store.nodes <= old(store.nodes)
    {
      hide RedBlackTree.Valid, RedBlackTree.Contents, PoolOf, Staying, SetOf;
      hide TableOf, Ordered, OneEach, SoundNodes, LevelsOf;
      NotSentinel(oold);
      NotSentinel(onew);
      ghost var c := store.Contents();
      ghost var b := |c| + g - |s|;
      PairAt(s, lv, g, c, at);
      if onew.op.IsDelete() {
        RemoveBoth(oold, onew, if onew == s[g] then b else b + 1, b);
      } else {
        RemoveOperation(oold, if oold == s[g] then b else b + 1);
      }
      WalkedTwo(s, lv, g, c, at, store.Contents(), Levels());
    }

    /** Takes two operations for a block out of the tree, one after the other. */
    method RemoveBoth(first: Node, second: Node, ghost k: nat, ghost b: nat)
      requires store.Valid() && poolSize == PoolOf(store.Contents(), size) && first != second
      requires b + 1 < |store.Contents()| && b <= k <= b + 1 && store.Contents()[k] == second
      requires store.Contents()[if k == b then b + 1 else b] == first && {first, second} <= store.nodes
      modifies `poolSize, store`root, store`tree, store`nodes, store.nodes`left, store.nodes`right, store.nodes`parent
      modifies store.nodes`color, store.sentinel`parent, store.sentinel`color
      ensures store.Valid() && poolSize == PoolOf(store.Contents(), size)
      ensures var c := old(store.Contents()); var d := c[..k] + c[k + 1..]; store.Contents() == d[..b] + d[b + 1..]
      ensures Levels() == old(Levels()) - {second} - {first} && store.nodes <= old(store.nodes)
    {
      hide RedBlackTree.Valid, RedBlackTree.Contents, PoolOf, LevelsOf;
      NotSentinel(first);
      NotSentinel(second);
      RemoveOperation(second, k);
      RemoveOperation(first, b);
    }

    /** Merges the operations of the transaction with those from before it
        (`combineoperations`). */
    method CombineOperations()
      requires Valid() && nest == 1
      modifies `poolSize, store`root, store`tree, store`nodes, store.nodes`left, store.nodes`right, store.nodes`parent
      modifies store.nodes`color, store.nodes`level, store.sentinel`parent, store.sentinel`color
      ensures store.Valid() && poolSize == PoolOf(store.Contents(), size)
      ensures OneEach(Levels()) && SoundNodes(Levels(), 0) && Operations() == Combined(old(Operations()))
      ensures store.nodes <= old(store.nodes)
    {
      hide RedBlackTree.Valid, RedBlackTree.Contents, PoolOf, Staying, SetOf, TableOf, Ordered, OneEach, SoundNodes,
        LevelsOf, Walked, Combined, SoundTable, Start;
      ghost var s, lv := store.Contents(), Levels();
      StartOf();
      WalkedNothing(s, lv);
      var o := store.FirstNode();
      if o != null {
        var oold: Node?, onew: Node? := null, null;
        var tnc := nest - 1;
        ghost var g, j := 0, 0;
        ghost var at: Levels := lv;
        while true
          invariant Combining(s, lv, g, j, at, oold, onew) && o == s[j] && store.nodes <= old(store.nodes)
          invariant Start(s, lv)
          decreases |s| - j
        {
          CombiningAt(s, lv, g, j, at, oold, onew);
          ghost var b := |store.Contents()| + g - |s|;
          var onext := store.NextNode(o, b + j - g);
          var block := o.Key();
          ghost var now := Levels();
          if o.level >= tnc {
            if o.level == tnc {
              oold := o;
            } else {
              onew := o;
              SetLevel(onew, tnc);
            }
          }
          SameLevel(now, o);
          Neighbours(s, lv, g);
          if oold != null && onew != null {
            RemovePair(oold, onew, s, lv, g, at);
            oold, onew := null, null;
            g, at := j + 1, Levels();
          } else if j + 1 == |s| || s[j].Key() != s[j + 1].Key() {
            WalkedOne(s, lv, g, store.Contents(), at);
            g, at := j + 1, at[s[g] := 0];
          }
          if onext == null {
            break;
          }
          o := onext;
          if block != onext.Key() {
            oold, onew := null, null;
          }
          j := j + 1;
        }
        WalkedAll(s, lv, store.Contents(), Levels());
      } else {
        WalkedAll(s, lv, s, lv);
      }
    }

    /** Ends a transaction (`endtransaction`); says whether the store has grown so large that it is
        flushed at once. */
    method EndTransaction() returns (flush: bool)
      requires Valid() && nest == 1
      modifies `nest, `poolSize, store`root, store`tree
      modifies store`nodes, store.nodes`left, store.nodes`right, store.nodes`parent
      modifies store.nodes`color, store.nodes`level, store.sentinel`parent, store.sentinel`color
      ensures Valid() && nest == 0 && Operations() == Combined(old(Operations()))
      ensures flush <==> PoolOf(store.Contents(), size) > 32768
    {
      hide RedBlackTree.Valid, PoolOf, TableOf, LevelsOf, OneEach, SoundNodes, Combined, SoundTable;
      StartOf();
      CombineOperations();
      nest := nest - 1;
      flush := nest == 0 && poolSize > MAX_TRANSACTIONPOOLSIZE;
    }

    /** Removes everything that belongs to the transaction (`deletetransaction`). */
    method DeleteTransaction()
      requires Valid() && nest == 1
      modifies `nest, `poolSize, store`root, store`tree
      modifies store`nodes, store.nodes`left, store.nodes`right, store.nodes`parent
      modifies store.nodes`color, store.sentinel`parent, store.sentinel`color
      ensures Valid() && nest == 0 && Operations() == Discarded(old(Operations()))
    {
      hide RedBlackTree.Valid, RedBlackTree.Contents, PoolOf, TableOf, LevelsOf, OneEach, SoundNodes, Discarded,
        SoundTable,
        Start, Dropped;
      ghost var s, lv := store.Contents(), Levels();
      StartOf();
      DroppedNothing(s, lv);
      var o := store.FirstNode();
      ghost var j := 0;
      while o != null
        invariant store.Valid() && poolSize == PoolOf(store.Contents(), size) && nest == 1
        invariant Dropped(s, lv, j, store.Contents(), Levels()) && j <= |s|
        invariant o == (if j < |s| then s[j] else null) && store.nodes <= old(store.nodes)
        decreases |s| - j
      {
        ghost var k := |store.Contents()| + j - |s|;
        DroppedAt(s, lv, j, store.Contents(), Levels());
        var oprev := o;
        o := store.NextNode(o, k);
        LevelsAt(store.nodes, oprev);
        DroppedNext(s, lv, j, store.Contents(), Levels());
        if oprev.level == nest {
          NotSentinel(oprev);
          RemoveOperation(oprev, k);
        }
        j := j + 1;
      }
      DroppedAll(s, lv, store.Contents(), Levels());
      nest := nest - 1;
    }
  }

  /** The other operations when one is removed. */
  lemma Alone(lv: Levels, gone: Node, nest: nat)
    requires OneEach(lv) && SoundNodes(lv, nest) && gone in lv
    ensures OneEach(lv - {gone}) && SoundNodes(lv - {gone}, nest)
    ensures forall x :: x in lv - {gone} ==> !Matches(lv - {gone}, x, gone.Key(), lv[gone])
  {
  }

  lemma SameLevel(lv: Levels, x: Node)
    ensures x in lv && lv[x] == 0 ==> lv[x := 0] == lv
  {
  }

  lemma LevelsAt(s: set<Node>, x: Node)
    requires x in s
    ensures LevelsOf(s)[x] == x.level
  {
  }

  lemma SoundAdded(lv: Levels, gone: Node?, o: Node, nest: nat)
    requires SoundNodes(lv, nest) && Sound(o.op)
    ensures SoundNodes((if gone == null then lv else lv - {gone})[o := nest], nest)
  {
  }

  /** The entries of the table. */
  lemma TableAt(lv: Levels, x: Node)
    requires OneEach(lv) && x in lv
    ensures (x.Key(), lv[x]) in TableOf(lv) && TableOf(lv)[(x.Key(), lv[x])] == x.op
  {
    assert NodeFor(lv, (x.Key(), lv[x])) == x;
  }

  lemma InTable(lv: Levels, b: nat, l: nat) returns (x: Node)
    requires (b, l) in TableOf(lv)
    ensures Matches(lv, x, b, l) && TableOf(lv)[(b, l)] == x.op
  {
    x := NodeFor(lv, (b, l));
  }

  /** The operation with the highest level is the one that counts. */
  lemma NewestIs(lv: Levels, nest: nat, b: nat, o: Node?)
    requires OneEach(lv) && SoundNodes(lv, nest) && nest <= 1
    requires o == null ==> forall x :: x in lv ==> x.Key() != b
    requires o != null ==> o in lv && o.Key() == b && forall x :: x in lv && x.Key() == b ==> lv[x] <= lv[o]
    ensures o == null ==> LatestOf(TableOf(lv), b) == NoOperation
    ensures o != null ==> LatestOf(TableOf(lv), b) == Pending(o.op)
  {
    hide TableOf;
    if (b, 1) in TableOf(lv) { var x := InTable(lv, b, 1); }
    if (b, 0) in TableOf(lv) { var x := InTable(lv, b, 0); }
    if o != null {
      TableAt(lv, o);
      assert lv[o] == 0 || lv[o] == 1;
    }
  }

  /** The table when the operation for a block and a level is replaced. */
  lemma TableAdded(lv: Levels, gone: Node?, o: Node, level: nat)
    requires OneEach(lv) && o !in lv && gone != o
    requires gone == null ==> forall x :: x in lv ==> !Matches(lv, x, o.Key(), level)
    requires gone != null ==> Matches(lv, gone, o.Key(), level)
    ensures var lv' := (if gone == null then lv else lv - {gone})[o := level];
      OneEach(lv') && TableOf(lv') == TableOf(lv)[(o.Key(), level) := o.op]
  {
    hide TableOf;
    var lv' := (if gone == null then lv else lv - {gone})[o := level];
    var t, t' := TableOf(lv)[(o.Key(), level) := o.op], TableOf(lv');
    TableAt(lv', o);
    forall k | k in t || k in t' ensures k in t && k in t' && t[k] == t'[k] {
      if k != (o.Key(), level) {
        if k in t {
          var x := InTable(lv, k.0, k.1);
          TableAt(lv', x);
        } else {
          var x := InTable(lv', k.0, k.1);
          TableAt(lv, x);
        }
      }
    }
  }

  lemma Smaller(a: set<Node>, b: set<Node>, x: Node)
    requires a <= b && x in b && x !in a
    ensures |a| < |b|
  {
    Subset(a, b - {x});
  }

  lemma Subset(a: set<Node>, b: set<Node>)
    requires a <= b
    ensures |a| <= |b|
  {
    assert b == a + (b - a);
  }

  // ----- Ending a transaction: the walk over the operations

  ghost function SetOf(s: seq<Node>): set<Node> { set x | x in s }

  /** The store a walk starts from: the operations in block order. */
  ghost predicate Start(s: seq<Node>, lv: Levels) {
    && Ordered(s) && (forall i, j :: 0 <= i < j < |s| ==> s[i] != s[j])
    && (forall i :: 0 <= i < |s| ==> s[i] in lv) && lv.Keys == SetOf(s) && OneEach(lv) && SoundNodes(lv, 1)
  }

  /** Another operation for the same block, at level l. */
  ghost predicate HasOther(lv: Levels, x: Node, l: nat) {
    exists y :: y in lv && y.Key() == x.Key() && lv[y] == l
  }

  /** Operation x outlives the transaction. */
  ghost predicate Stays(lv: Levels, x: Node)
    requires x in lv
  {
    if lv[x] == 0 then !HasOther(lv, x, 1) else !(x.op.IsDelete() && HasOther(lv, x, 0))
  }

  ghost function Staying(s: seq<Node>, lv: Levels, g: nat): set<Node>
    requires g <= |s| && forall i :: 0 <= i < |s| ==> s[i] in lv
  {
    set i | 0 <= i < g && Stays(lv, s[i]) :: s[i]
  }

  /** The operations in front of number g have been dealt with: c and lv' are the order and the
      levels of what is left. */
  ghost predicate Walked(s: seq<Node>, lv: Levels, g: nat, c: seq<Node>, lv': Levels) {
    && Start(s, lv) && g <= |s| <= |c| + g && c[|c| + g - |s|..] == s[g..]
    && lv'.Keys == Staying(s, lv, g) + SetOf(s[g..])
    && (forall i :: 0 <= i < g && s[i] in lv' ==> lv'[s[i]] == 0)
    && (forall i :: g <= i < |s| ==> s[i] in lv' && lv'[s[i]] == lv[s[i]])
  }

  lemma WalkedNothing(s: seq<Node>, lv: Levels)
    requires Start(s, lv)
    ensures Walked(s, lv, 0, s, lv)
  {
    assert s[0..] == s;
    assert Staying(s, lv, 0) == {};
  }

  /** Only neighbours in the order deal with the same block. */
  lemma Neighbours(s: seq<Node>, lv: Levels, g: nat)
    requires Start(s, lv) && g < |s|
    ensures g + 2 < |s| && s[g].Key() == s[g + 1].Key() ==> s[g + 1].Key() != s[g + 2].Key()
    ensures g + 1 < |s| && s[g].Key() == s[g + 1].Key() ==> lv[s[g]] != lv[s[g + 1]] && lv[s[g]] + lv[s[g + 1]] == 1
  {
  }

  lemma AloneInOrder(s: seq<Node>, lv: Levels, g: nat, l: nat)
    requires Start(s, lv) && g < |s| && (g > 0 ==> s[g - 1].Key() != s[g].Key())
    requires (g + 1 < |s| ==> s[g].Key() != s[g + 1].Key())
    requires HasOther(lv, s[g], l)
    ensures lv[s[g]] == l
  {
    var y :| y in lv && y.Key() == s[g].Key() && lv[y] == l;
    assert y in s;
    var i :| 0 <= i < |s| && s[i] == y;
    KeyOrder(s, i, g - 1);
    KeyOrder(s, g - 1, g);
    KeyOrder(s, g, g + 1);
    KeyOrder(s, g + 1, i);
  }

  lemma KeyOrder(s: seq<Node>, i: int, j: int)
    requires Ordered(s)
    ensures 0 <= i <= j < |s| ==> s[i].Key() <= s[j].Key()
  {
  }

  lemma StayingOne(s: seq<Node>, lv: Levels, g: nat)
    requires Start(s, lv) && g < |s| && (g > 0 ==> s[g - 1].Key() != s[g].Key())
    requires (g + 1 < |s| ==> s[g].Key() != s[g + 1].Key())
    ensures Staying(s, lv, g + 1) == Staying(s, lv, g) + {s[g]} && s[g] !in Staying(s, lv, g)
  {
    hide Ordered, OneEach, SoundNodes;
    if HasOther(lv, s[g], 0) { AloneInOrder(s, lv, g, 0); }
    if HasOther(lv, s[g], 1) { AloneInOrder(s, lv, g, 1); }
    assert Stays(lv, s[g]);
  }

  lemma SetOfOne(s: seq<Node>, lv: Levels, g: nat)
    requires Start(s, lv) && g < |s|
    ensures SetOf(s[g..]) == {s[g]} + SetOf(s[g + 1..]) && s[g] !in SetOf(s[g + 1..])
  {
    var r := s[g..];
    assert r == [s[g]] + s[g + 1..];
  }

  /** An operation that is the only one for its block stays. */
  lemma WalkedOne(s: seq<Node>, lv: Levels, g: nat, c: seq<Node>, lv': Levels)
    requires Walked(s, lv, g, c, lv') && g < |s|
    requires (g > 0 ==> s[g - 1].Key() != s[g].Key()) && (g + 1 < |s| ==> s[g].Key() != s[g + 1].Key())
    ensures Walked(s, lv, g + 1, c, lv'[s[g] := 0])
  {
    hide Staying, SetOf, Ordered, OneEach, SoundNodes;
    StayingOne(s, lv, g);
    SetOfOne(s, lv, g);
    assert c[|c| + g + 1 - |s|..] == c[|c| + g - |s|..][1..] == s[g..][1..] == s[g + 1..];
  }

  /** The older and the newer of two operations for a block. */
  ghost function Older(s: seq<Node>, lv: Levels, g: nat): Node
    requires g + 1 < |s| && s[g] in lv
  {
    if lv[s[g]] == 0 then s[g] else s[g + 1]
  }

  ghost function Newer(s: seq<Node>, lv: Levels, g: nat): Node
    requires g + 1 < |s| && s[g] in lv
  {
    if lv[s[g]] == 0 then s[g + 1] else s[g]
  }

  lemma StayingTwo(s: seq<Node>, lv: Levels, g: nat)
    requires Start(s, lv) && g + 1 < |s| && s[g].Key() == s[g + 1].Key()
    ensures var a, b := Older(s, lv, g), Newer(s, lv, g);
      && Staying(s, lv, g + 2) == Staying(s, lv, g) + (if b.op.IsDelete() then {} else {b})
      && a !in Staying(s, lv, g) && b !in Staying(s, lv, g) && a != b
  {
    var a, b := Older(s, lv, g), Newer(s, lv, g);
    Neighbours(s, lv, g);
    assert HasOther(lv, a, 1) && HasOther(lv, b, 0);
  }

  lemma SetOfTwo(s: seq<Node>, lv: Levels, g: nat)
    requires Start(s, lv) && g + 1 < |s|
    ensures SetOf(s[g..]) == {s[g], s[g + 1]} + SetOf(s[g + 2..])
    ensures s[g] !in SetOf(s[g + 2..]) && s[g + 1] !in SetOf(s[g + 2..])
  {
    var r := s[g..];
    assert r == [s[g], s[g + 1]] + s[g + 2..];
  }

  /** What the order looks like around two operations for a block. */
  lemma PairAt(s: seq<Node>, lv: Levels, g: nat, c: seq<Node>, lv': Levels)
    requires Walked(s, lv, g, c, lv') && g + 1 < |s|
    ensures var b := |c| + g - |s|;
      && 0 <= b && b + 1 < |c| && c[b] == s[g] && c[b + 1] == s[g + 1] && c[b + 2..] == s[g + 2..]
      && (c[..b + 1] + c[b + 2..])[..b] + (c[..b + 1] + c[b + 2..])[b + 1..] == c[..b] + s[g + 2..]
      && (c[..b] + c[b + 1..])[..b] + (c[..b] + c[b + 1..])[b + 1..] == c[..b] + s[g + 2..]
      && (c[..b] + c[b + 1..])[b] == s[g + 1] && (c[..b + 1] + c[b + 2..])[b] == s[g]
      && (c[..b] + c[b + 1..])[b + 1..] == s[g + 2..] && (c[..b + 1] + c[b + 2..])[b + 1..] == s[g + 2..]
      && (c[..b] + s[g + 2..])[b..] == s[g + 2..]
  {
    hide Staying, SetOf, Start;
    var b := |c| + g - |s|;
    assert forall i :: 0 <= i < |s| - g ==> c[b + i] == c[b..][i] == s[g..][i] == s[g + i];
  }

  /** Of two operations for a block the older one goes, and a deletion goes with it. */
  lemma WalkedTwo(s: seq<Node>, lv: Levels, g: nat, c: seq<Node>, lv': Levels, c': seq<Node>, lv'': Levels)
    requires Walked(s, lv, g, c, lv') && g + 1 < |s| && s[g].Key() == s[g + 1].Key()
    requires var a, b := Older(s, lv, g), Newer(s, lv, g);
      lv'' == if b.op.IsDelete() then lv' - {a, b} else (lv' - {a})[b := 0]
    requires |s| <= |c'| + g + 2 && c'[|c'| + g + 2 - |s|..] == s[g + 2..]
    ensures Walked(s, lv, g + 2, c', lv'')
  {
    hide Staying, SetOf, Ordered, OneEach, SoundNodes;
    StayingTwo(s, lv, g);
    SetOfTwo(s, lv, g);
  }

  /** An operation that stays counts when the transaction has ended. */
  lemma StayingCounts(lv: Levels, x: Node)
    requires OneEach(lv) && SoundNodes(lv, 1) && SoundTable(TableOf(lv)) && x in lv && Stays(lv, x)
    ensures (x.Key(), 0) in Combined(TableOf(lv)) && Combined(TableOf(lv))[(x.Key(), 0)] == x.op
  {
    hide TableOf, SoundTable;
    var t, b := TableOf(lv), x.Key();
    TableAt(lv, x);
    if (b, 0) in t { var y := InTable(lv, b, 0); }
    if (b, 1) in t { var y := InTable(lv, b, 1); }
    assert b in BlocksOf(t);
  }

  lemma BlockLevels(t: Table, b: nat)
    requires SoundTable(t) && b in BlocksOf(t)
    ensures (b, 0) in t || (b, 1) in t
  {
    var k :| k in t && k.0 == b;
    assert k == (b, 0) || k == (b, 1);
  }

  lemma CountingStays(lv: Levels, k: (nat, nat)) returns (x: Node)
    requires OneEach(lv) && SoundNodes(lv, 1) && SoundTable(TableOf(lv)) && k in Combined(TableOf(lv))
    ensures x in lv && Stays(lv, x) && x.Key() == k.0 && k.1 == 0
  {
    hide TableOf, SoundTable, OneEach;
    var t, b := TableOf(lv), k.0;
    BlockLevels(t, b);
    if (b, 1) in t {
      x := InTable(lv, b, 1);
      if HasOther(lv, x, 0) {
        var y :| y in lv && y.Key() == b && lv[y] == 0;
        TableAt(lv, y);
      }
    } else {
      x := InTable(lv, b, 0);
      if HasOther(lv, x, 1) {
        var y :| y in lv && y.Key() == b && lv[y] == 1;
        TableAt(lv, y);
      }
    }
  }

  /** The table a walk ends with. */
  lemma WalkedAll(s: seq<Node>, lv: Levels, c: seq<Node>, lv': Levels)
    requires Walked(s, lv, |s|, c, lv') && SoundTable(TableOf(lv))
    ensures OneEach(lv') && SoundNodes(lv', 0) && TableOf(lv') == Combined(TableOf(lv))
  {
    hide TableOf, SoundTable, Combined, Ordered, SoundNodes, Stays;
    var t, t' := Combined(TableOf(lv)), TableOf(lv');
    assert s[|s|..] == [];
    assert forall x :: x in lv' <==> x in lv && Stays(lv, x) by { StayingAll(s, lv); }
    assert forall x :: x in lv' ==> lv'[x] == 0 by {
      forall x | x in lv' ensures lv'[x] == 0 {
        assert x in SetOf(s);
        var i :| 0 <= i < |s| && s[i] == x;
      }
    }
    forall x, y | x in lv' && y in lv' && x.Key() == y.Key() ensures x == y {
      OneStays(lv, x, y);
    }
    assert SoundNodes(lv', 0) by { SoundPart(lv, lv'); }
    forall k | k in t || k in t' ensures k in t && k in t' && t[k] == t'[k] {
      if k in t {
        var x := CountingStays(lv, k);
        StayingCounts(lv, x);
        TableAt(lv', x);
      } else {
        var x := InTable(lv', k.0, k.1);
        StayingCounts(lv, x);
      }
    }
  }

  lemma SoundPart(lv: Levels, lv': Levels)
    requires SoundNodes(lv, 1) && forall x :: x in lv' ==> x in lv && lv'[x] == 0
    ensures SoundNodes(lv', 0)
  {
  }

  lemma StayingAll(s: seq<Node>, lv: Levels)
    requires Start(s, lv)
    ensures forall x :: x in Staying(s, lv, |s|) <==> x in lv && Stays(lv, x)
  {
    hide Stays;
    forall x | x in lv && Stays(lv, x) ensures x in Staying(s, lv, |s|) {
      assert x in SetOf(s);
      var i :| 0 <= i < |s| && s[i] == x;
    }
  }

  lemma OneStays(lv: Levels, x: Node, y: Node)
    requires OneEach(lv) && SoundNodes(lv, 1) && x in lv && y in lv && x.Key() == y.Key() && Stays(lv, x)
    requires Stays(lv, y)
    ensures x == y
  {
  }

  // ----- Giving up a transaction: the walk over the operations

  /** What is left when the operations in front of number j have been dealt with. */
  ghost predicate Dropped(s: seq<Node>, lv: Levels, j: nat, c: seq<Node>, lv': Levels) {
    && Start(s, lv) && j <= |s| <= |c| + j && c[|c| + j - |s|..] == s[j..]
    && lv' == map x | x in lv && (lv[x] == 0 || x in s[j..]) :: lv[x]
  }

  lemma DroppedNothing(s: seq<Node>, lv: Levels)
    requires Start(s, lv)
    ensures Dropped(s, lv, 0, s, lv)
  {
    assert s[0..] == s;
    assert forall x :: x in lv ==> x in SetOf(s);
  }

  lemma DroppedAt(s: seq<Node>, lv: Levels, j: nat, c: seq<Node>, lv': Levels)
    requires Dropped(s, lv, j, c, lv') && j < |s|
    ensures var k := |c| + j - |s|;
      && 0 <= k < |c| && c[k] == s[j] && (j + 1 < |s| <==> k + 1 < |c|) && (j + 1 < |s| ==> c[k + 1] == s[j + 1])
    ensures s[j] in lv' && s[j] in lv && lv'[s[j]] == lv[s[j]] <= 1
  {
    var k := |c| + j - |s|;
    assert c[k] == c[k..][0] == s[j..][0];
    if j + 1 < |s| {
      assert c[k + 1] == c[k..][1] == s[j..][1];
    }
  }

  /** The next operation stays if it is from before the transaction, else it goes. */
  lemma DroppedNext(s: seq<Node>, lv: Levels, j: nat, c: seq<Node>, lv': Levels)
    requires Dropped(s, lv, j, c, lv') && j < |s|
    ensures var k := |c| + j - |s|;
      && s[j] in lv
      && (lv[s[j]] == 0 ==> Dropped(s, lv, j + 1, c, lv'))
      && (lv[s[j]] != 0 ==> Dropped(s, lv, j + 1, c[..k] + c[k + 1..], lv' - {s[j]}))
  {
    hide Start;
    var k := |c| + j - |s|;
    NextApart(s, lv, j);
    assert s[j..] == [s[j]] + s[j + 1..];
    assert c[k..] == [c[k]] + c[k + 1..];
    assert (c[..k] + c[k + 1..])[k..] == c[k + 1..] == s[j + 1..];
  }

  /** The next operation of a walk does not come again. */
  lemma NextApart(s: seq<Node>, lv: Levels, j: nat)
    requires Start(s, lv) && j < |s|
    ensures s[j] in lv && s[j] !in s[j + 1..]
  {
  }

  lemma DroppedAll(s: seq<Node>, lv: Levels, c: seq<Node>, lv': Levels)
    requires Dropped(s, lv, |s|, c, lv')
    ensures OneEach(lv') && SoundNodes(lv', 0) && TableOf(lv') == Discarded(TableOf(lv))
  {
    hide TableOf;
    var t, t' := TableOf(lv), TableOf(lv');
    assert OneEach(lv');
    forall k | k in Discarded(t) || k in t' ensures k in Discarded(t) && k in t' && Discarded(t)[k] == t'[k] {
      if k in t' {
        var x := InTable(lv', k.0, k.1);
        TableAt(lv, x);
      } else {
        var x := InTable(lv, k.0, k.1);
        TableAt(lv', x);
      }
    }
  }

  // ----- Flushing

  /** The operations that a flush writes out. */
  ghost function OpsOf(s: seq<Node>): seq<Operation> {
    seq(|s|, i requires 0 <= i < |s| => s[i].op)
  }

  /** ops is all of the table, which has nothing but level 0. */
  ghost predicate Lists(ops: seq<Operation>, t: Table) {
    && (forall i :: 0 <= i < |ops| ==> (ops[i].blckno, 0) in t && t[(ops[i].blckno, 0)] == ops[i])
    && (forall k :: k in t ==> k.1 == 0 && exists i :: 0 <= i < |ops| && ops[i].blckno == k.0)
  }

  /** Between transactions the store holds one operation for each block, in block order: it can
      be flushed as it is. */
  lemma StoreIsFlushable(store: TransactionStore)
    requires store.Valid() && store.nest == 0
    ensures Ascending(OpsOf(store.store.Contents())) && Lists(OpsOf(store.store.Contents()), store.Operations())
  {
    hide RedBlackTree.Valid, RedBlackTree.Contents, TableOf, PoolOf, LevelsOf, OneEach, SoundNodes, Start, Lists;
    store.StartOf();
    OrderIsFlushable(store.store.Contents(), store.Levels());
  }

  lemma OrderIsFlushable(s: seq<Node>, lv: Levels)
    requires Start(s, lv) && SoundNodes(lv, 0)
    ensures Ascending(OpsOf(s)) && Lists(OpsOf(s), TableOf(lv))
  {
    hide TableOf, Ordered, OneEach, SetOf, SoundNodes;
    forall i, j | 0 <= i < j < |s| ensures s[i].Key() < s[j].Key() {
      OneAtLevelZero(s, lv, i, j);
    }
    forall i | 0 <= i < |s| ensures (s[i].Key(), 0) in TableOf(lv) && TableOf(lv)[(s[i].Key(), 0)] == s[i].op {
      ListedAt(s, lv, i);
    }
    forall k | k in TableOf(lv) ensures k.1 == 0 && exists i :: 0 <= i < |s| && OpsOf(s)[i].blckno == k.0 {
      var i := ListedFor(s, lv, k);
    }
  }

  lemma ListedAt(s: seq<Node>, lv: Levels, i: nat)
    requires Start(s, lv) && SoundNodes(lv, 0) && i < |s|
    ensures (s[i].Key(), 0) in TableOf(lv) && TableOf(lv)[(s[i].Key(), 0)] == s[i].op
  {
    hide TableOf;
    TableAt(lv, s[i]);
  }

  lemma ListedFor(s: seq<Node>, lv: Levels, k: (nat, nat)) returns (i: nat)
    requires Start(s, lv) && SoundNodes(lv, 0) && k in TableOf(lv)
    ensures k.1 == 0 && i < |s| && OpsOf(s)[i].blckno == k.0
  {
    hide TableOf;
    var x := InTable(lv, k.0, k.1);
    assert x in SetOf(s);
    i :| 0 <= i < |s| && s[i] == x;
  }

  lemma OneAtLevelZero(s: seq<Node>, lv: Levels, i: nat, j: nat)
    requires Start(s, lv) && SoundNodes(lv, 0) && i < j < |s|
    ensures s[i].Key() < s[j].Key()
  {
    assert s[i] in lv && s[j] in lv && s[i] != s[j];
  }

  /** A flush makes every block hold on disk what it read as before, the log and the status
      block aside. */
  lemma FlushReachesView(job: Job, t: Table, b: nat)
    requires job.Valid() && Lists(job.ops, t)
    requires b < |job.disk| && b != job.g.status && forall k :: 0 <= k < |job.log| ==> job.log[k] != b
    ensures var d := RunAll(job.disk, job.FlushBatches()); |d| == |job.disk| && d[b] == View(t, job.disk[b], b)
  {
    hide Makes, RunAll, Job.FlushBatches, Applied;
    FlushedDisk(job);
    if (b, 0) in t {
      var i :| 0 <= i < |job.ops| && job.ops[i].blckno == b;
    }
  }
}
