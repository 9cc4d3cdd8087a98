/** The interval tree itself: an augmented red-black tree of linked nodes with two sentinels. */
module IntervalTrees {
  import opened IntervalNodes
  import opened IntervalShape
  import opened IntervalHeap
  import opened IntervalBalance
  import opened IntervalRemoval
  import opened IntervalSplice
  import opened IntervalQuery

  /** An entry of query's stack: where to come back to, and whether its right branch is worth it. */
  datatype RecursionNode = RecursionNode(startNode: Node?, parentIndex: nat, tryRightBranch: bool)

  class IntervalTree {
    const nil: Node
    const root: Node
    ghost var heap: Heap   // mirrors the fields of all nodes of the tree and the sentinels
    ghost var tree: Tree   // the tree the pointers below root.left form

    ghost function E(): Env { Env(nil, root) }

    // the hand-made stack of query; its first entry is a sentinel
    var recursionNodeStack: seq<RecursionNode>
    var recursionNodeStackTop: nat
    var currentParent: nat

    /** Between queries the stack is empty but for its sentinel. */
    predicate Idle()
      reads this`recursionNodeStack, this`recursionNodeStackTop
    {
      |recursionNodeStack| > 0 && recursionNodeStackTop == 1
    }

    /** What no step of an insertion or deletion touches. */
    twostate predicate Kept()
      reads this
    {
      && heap.Keys == old(heap.Keys) && tree == old(tree)
      && recursionNodeStack == old(recursionNodeStack) && recursionNodeStackTop == old(recursionNodeStackTop)
    }

    twostate predicate KeptBut(new z: Node)
      reads this
    {
      && heap.Keys == old(heap.Keys) + {z} && tree == old(tree)
      && recursionNodeStack == old(recursionNodeStack) && recursionNodeStackTop == old(recursionNodeStackTop)
    }

    ghost predicate Synced()
      reads this, heap.Keys
    {
      forall n :: n in heap ==> heap[n] == Cell(n.left, n.right, n.parent, n.red, n.maxHigh)
    }

    /** The representation invariant: the pointers form `tree`, a red-black search tree with a black
        top whose max-high fields are right. */
    ghost predicate Valid()
      reads this, heap.Keys
    {
      && Synced() && At(heap, E(), Top, tree) && root.stored == null
      && Coloured(Top, tree) && Augmented(Top, tree) && Ordered(Inorder(tree)) && Storing(tree)
    }

    /** Records which tree the pointers now form. */
    ghost method Install(t: Tree)
      requires Synced() && At(heap, E(), Top, t) && root.stored == null
      requires Coloured(Top, t) && Augmented(Top, t) && Ordered(Inorder(t)) && Storing(t)
      modifies this`tree
      ensures Valid() && tree == t && heap == old(heap) && (Idle() <==> old(Idle()))
    {
      tree := t;
    }

    constructor ()
      ensures Valid() && Idle() && tree == Leaf
      ensures fresh(heap.Keys)
    {
      recursionNodeStack := seq(128, _ => RecursionNode(null, 0, false));
      recursionNodeStackTop := 1;
      currentParent := 0;
      nil := new Node.Sentinel(-MAX_TIME);
      root := new Node.Sentinel(MAX_TIME);
      new;
      LinkSentinels();
      EmptyAt(heap, E());
      EmptyIsGood();
      Install(Leaf);
    }

    method LinkSentinels()
      requires nil != root && !nil.red && !root.red && nil.maxHigh == -MAX_TIME && root.maxHigh == MAX_TIME
      requires nil.left == nil.right == nil.parent == nil
      modifies this`heap, root
      ensures heap.Keys == {nil, root} && Synced() && Sentinels(heap, E()) && heap[root].left == nil
    {
      root.parent, root.left, root.right := nil, nil, nil;
      heap := map[nil := Cell(nil, nil, nil, false, -MAX_TIME), root := Cell(nil, nil, nil, false, MAX_TIME)];
    }

    // ---------- writing one field ----------

    method SetLeft(n: Node, x: Node)
      requires Synced() && n in heap
      modifies this`heap, n`left
      ensures Synced() && Kept() && heap == old(heap)[n := old(heap[n]).(left := x)]
    {
      n.left := x;
      heap := heap[n := heap[n].(left := x)];
    }

    method SetRight(n: Node, x: Node)
      requires Synced() && n in heap
      modifies this`heap, n`right
      ensures Synced() && Kept() && heap == old(heap)[n := old(heap[n]).(right := x)]
    {
      n.right := x;
      heap := heap[n := heap[n].(right := x)];
    }

    method SetParent(n: Node, x: Node)
      requires Synced() && n in heap
      modifies this`heap, n`parent
      ensures Synced() && Kept() && heap == old(heap)[n := old(heap[n]).(parent := x)]
    {
      n.parent := x;
      heap := heap[n := heap[n].(parent := x)];
    }

    method SetRed(n: Node, red: bool)
      requires Synced() && n in heap
      modifies this`heap, n`red
      ensures Synced() && Kept() && heap == SetRedIn(old(heap), n, red)
    {
      n.red := red;
      heap := heap[n := heap[n].(red := red)];
    }

    method SetMaxHigh(n: Node, m: SimTime)
      requires Synced() && n in heap
      modifies this`heap, n`maxHigh
      ensures Synced() && Kept() && heap == old(heap)[n := old(heap[n]).(maxHigh := m)]
    {
      n.maxHigh := m;
      heap := heap[n := heap[n].(maxHigh := m)];
    }

    // ---------- rotations ----------

    method Adopting(k: Node, x: Node)
      requires Synced() && k in heap
      modifies this`heap, k`parent
      ensures Synced() && Kept() && heap == Adopt(old(heap), E(), k, x)
    {
      if k != nil {
        SetParent(k, x);
      }
    }

    method Redirecting(p: Node, x: Node, y: Node)
      requires Synced() && p in heap
      modifies this`heap, p`left, p`right
      ensures Synced() && Kept() && heap == Redirect(old(heap), p, x, y)
    {
      if x == p.left {
        SetLeft(p, y);
      } else {
        SetRight(p, y);
      }
    }

    method RefreshingMax(x: Node)
      requires Synced() && x in heap && heap[x].left in heap && heap[x].right in heap
      modifies this`heap, x`maxHigh
      ensures Synced() && Kept() && heap == RefreshMax(old(heap), x)
    {
      SetMaxHigh(x, Max(x.high, Max(x.left.maxHigh, x.right.maxHigh)));
    }

    method LeftRotate(x: Node)
      requires Synced() && Rotatable(heap, x, true)
      modifies this`heap, heap.Keys
      ensures Synced() && Kept() && heap == RotateLinks(old(heap), E(), x, true)
    {
      var y := x.right;
      SwingCells(heap, E(), x, true);
      SwingLeft(x, y);
      RefreshingMax(x);
      RefreshingMax(y);
    }

    /** The pointer writes of a left rotation. */
    method SwingLeft(x: Node, y: Node)
      requires Synced() && Rotatable(heap, x, true) && y == x.right
      modifies this`heap, heap.Keys
      ensures Synced() && Kept() && heap == Swing(old(heap), E(), x, true)
    {
      var inner, p := y.left, x.parent;
      ghost var other, outer := x.left, y.right;
      SetRight(x, inner);
      Adopting(inner, x);
      SetParent(y, p);
      assert heap[x].left == other && heap[x].right == inner && heap[y].right == outer;
      Redirecting(p, x, y);
      SetLeft(y, x);
      SetParent(x, y);
    }

    method RightRotate(y: Node)
      requires Synced() && Rotatable(heap, y, false)
      modifies this`heap, heap.Keys
      ensures Synced() && Kept() && heap == RotateLinks(old(heap), E(), y, false)
    {
      var x := y.left;
      SwingCells(heap, E(), y, false);
      SwingRight(y, x);
      RefreshingMax(y);
      RefreshingMax(x);
    }

    method SwingRight(y: Node, x: Node)
      requires Synced() && Rotatable(heap, y, false) && x == y.left
      modifies this`heap, heap.Keys
      ensures Synced() && Kept() && heap == Swing(old(heap), E(), y, false)
    {
      var inner, p := x.right, y.parent;
      ghost var other, outer := y.right, x.left;
      SetLeft(y, inner);
      Adopting(inner, y);
      SetParent(x, p);
      assert heap[y].right == other && heap[y].left == inner && heap[x].left == outer;
      Redirecting(p, y, x);
      SetRight(x, y);
      SetParent(y, x);
    }

    // ---------- the max-high fields ----------

    /** Recomputes the maxima from x up to the top. */
    method FixupMaxHigh(x: Node, ghost c0: Ctx, ghost t0: Tree)
      requires Synced() && At(heap, E(), c0, t0) && x == Parent(E(), c0)
      modifies this`heap, heap.Keys
      ensures Synced() && Kept()
      ensures At(heap, E(), FixMax(c0, MaxHigh(t0)), t0) && Same(old(heap), heap, old(heap.Keys) - CtxNodes(c0))
    {
      ghost var c, t := c0, t0;
      var x := x;
      while x != root
        invariant Synced() && Kept()
        invariant At(heap, E(), c, t) && x == Parent(E(), c)
        invariant Plug(FixMax(c, MaxHigh(t)), t) == Plug(FixMax(c0, MaxHigh(t0)), t0)
        invariant Same(old(heap), heap, old(heap.Keys) - CtxNodes(c0)) && CtxNodes(c) <= CtxNodes(c0)
        decreases c
      {
        RefreshUp(heap, E(), c, t);
        RefreshingMax(x);
        t := Mk(c.right, c.n, c.red, Max3(c.n, MaxHigh(t), MaxHigh(c.sib)), t, c.sib);
        c := c.up;
        Look(heap, E(), c, t);
        x := x.parent;
      }
      if c.Step? {
        RefreshUp(heap, E(), c, t);
      }
      AtPlug(heap, E(), FixMax(c0, MaxHigh(t0)), t0);
    }

    // ---------- insertion ----------

    /** Walks down to the empty spot where a plain search tree would hang z. */
    method FindSpot(z: Node, ghost all: Tree) returns (y: Node, ghost c: Ctx)
      requires Synced() && At(heap, E(), Top, all) && Ordered(Inorder(all))
      ensures At(heap, E(), c, Leaf) && Plug(c, Leaf) == all && y == Parent(E(), c)
      ensures AllUpTo(Before(c), z.key) && AllAbove(After(c), z.key)
    {
      ghost var t := all;
      c := Top;
      Look(heap, E(), Top, all);
      y := root;
      var x := root.left;
      while x != nil
        invariant At(heap, E(), c, t) && x == Root(E(), t) && y == Parent(E(), c) && Plug(c, t) == all
        invariant Ordered(Inorder(t)) && AllUpTo(Before(c), z.key) && AllAbove(After(c), z.key)
        decreases t
      {
        Look(heap, E(), c, t);
        OrderedSplit(Inorder(t.l), t.n, Inorder(t.r));
        y := x;
        if x.key > z.key {
          MoveDown(heap, E(), c, t, false);
          x := x.left;
          c, t := Into(c, t, false), t.l;
        } else {
          MoveDown(heap, E(), c, t, true);
          x := x.right;
          c, t := Into(c, t, true), t.r;
        }
      }
    }

    method HangUnder(y: Node, z: Node)
      requires Synced() && y in heap && z in heap && y != z
      modifies this`heap, y, z
      ensures Synced() && Kept() && heap == HangLinks(old(heap), E(), y, z)
    {
      SetParent(z, y);
      if y == root || y.key > z.key {
        SetLeft(y, z);
      } else {
        SetRight(y, z);
      }
    }

    /** Hangs z into the tree as into a plain search tree. */
    method RecursiveInsert(z: Node, ghost all: Tree) returns (ghost c: Ctx)
      requires Synced() && At(heap, E(), Top, all) && Ordered(Inorder(all))
      requires z in heap && z !in Nodes(all) + {nil, root}
      modifies this`heap, heap.Keys
      ensures Synced() && Kept()
      ensures At(heap, E(), c, Br(z, old(z.red), old(z.maxHigh), Leaf, Leaf)) && Plug(c, Leaf) == all
      ensures AllUpTo(Before(c), z.key) && AllAbove(After(c), z.key)
    {
      WriteElsewhere(heap, E(), Top, all, z, heap[z].(left := nil));
      SetLeft(z, nil);
      WriteElsewhere(heap, E(), Top, all, z, heap[z].(right := nil));
      SetRight(z, nil);
      var y;
      y, c := FindSpot(z, all);
      PlugNodes(c, Leaf);
      HangAt(heap, E(), c, z);
      HangUnder(y, z);
    }

    /** The uncle is red: parent and uncle turn black, the grandparent red. */
    method Recolour(x: Node, ghost c: Ctx, ghost t: Tree)
      requires Synced() && At(heap, E(), c, t) && t.Br? && t.n == x
      requires c.Step? && c.up.Step? && c.up.sib.Br?
      modifies this`heap, heap.Keys
      ensures Synced() && Kept()
      ensures At(heap, E(), c.up.up, Recoloured(c, t))
    {
      LookUp(heap, E(), c, t);
      RecolourAt(heap, E(), c, t);
      var p := x.parent;
      var g := p.parent;
      var y := if p == g.left then g.right else g.left;
      SetRed(p, false);
      SetRed(y, false);
      SetRed(g, true);
    }

    /** x's red parent is a left child, the uncle black: parent black, grandparent red and rotated down. */
    method LiftLeft(x: Node, ghost c: Ctx, ghost t: Tree)
      requires Synced() && At(heap, E(), c, t) && t.Br? && t.n == x
      requires c.Step? && c.up.Step? && c.right == c.up.right == false
      modifies this`heap, heap.Keys
      ensures Synced() && Kept()
      ensures At(heap, E(), OuterCtx(c, t), t)
    {
      LookUp(heap, E(), c, t);
      OuterAt(heap, E(), c, t);
      var p := x.parent;
      var g := p.parent;
      SetRed(p, false);
      SetRed(g, true);
      RightRotate(g);
    }

    /** One turn of the loop of insert when x's parent is a left child. */
    method InsertLeft(x: Node, ghost c: Ctx, ghost t: Tree) returns (x': Node, ghost c': Ctx, ghost t': Tree)
      requires Synced() && At(heap, E(), c, t) && t.Br? && t.n == x && Inserting(c, t)
      requires ParentRed(c) && c.up.Step? && !c.up.red && c.up.right == false
      modifies this`heap, heap.Keys
      ensures Synced() && Kept()
      ensures At(heap, E(), c', t') && t'.Br? && t'.n == x' && Inserting(c', t')
      ensures Contents(c', t') == Contents(c, t) && Depth(c') < Depth(c)
    {
      LookUp(heap, E(), c, t);
      x', c', t' := x, c, t;
      var y := x.parent.parent.right;
      if y.red {
        RecolouredOk(c, t);
        x' := x.parent.parent;
        Recolour(x, c, t);
        c', t' := c.up.up, Recoloured(c, t);
      } else {
        if x == x.parent.right {
          x' := x.parent;
          InnerOk(c, t);
          InnerAt(heap, E(), c, t);
          LeftRotate(x');
          c', t' := InnerCtx(c, t), InnerTree(c, t);
        }
        OuterOk(c', t');
        LiftLeft(x', c', t');
        c' := OuterCtx(c', t');
      }
    }

    /** x's red parent is a right child, the uncle black: parent black, grandparent red and rotated down. */
    method LiftRight(x: Node, ghost c: Ctx, ghost t: Tree)
      requires Synced() && At(heap, E(), c, t) && t.Br? && t.n == x
      requires c.Step? && c.up.Step? && c.right == c.up.right == true
      modifies this`heap, heap.Keys
      ensures Synced() && Kept()
      ensures At(heap, E(), OuterCtx(c, t), t)
    {
      LookUp(heap, E(), c, t);
      OuterAt(heap, E(), c, t);
      var p := x.parent;
      var g := p.parent;
      SetRed(p, false);
      SetRed(g, true);
      LeftRotate(g);
    }

    /** One turn of the loop of insert when x's parent is a right child. */
    method InsertRight(x: Node, ghost c: Ctx, ghost t: Tree) returns (x': Node, ghost c': Ctx, ghost t': Tree)
      requires Synced() && At(heap, E(), c, t) && t.Br? && t.n == x && Inserting(c, t)
      requires ParentRed(c) && c.up.Step? && !c.up.red && c.up.right == true
      modifies this`heap, heap.Keys
      ensures Synced() && Kept()
      ensures At(heap, E(), c', t') && t'.Br? && t'.n == x' && Inserting(c', t')
      ensures Contents(c', t') == Contents(c, t) && Depth(c') < Depth(c)
    {
      LookUp(heap, E(), c, t);
      x', c', t' := x, c, t;
      var y := x.parent.parent.left;
      if y.red {
        RecolouredOk(c, t);
        x' := x.parent.parent;
        Recolour(x, c, t);
        c', t' := c.up.up, Recoloured(c, t);
      } else {
        if x == x.parent.left {
          x' := x.parent;
          InnerOk(c, t);
          InnerAt(heap, E(), c, t);
          RightRotate(x');
          c', t' := InnerCtx(c, t), InnerTree(c, t);
        }
        OuterOk(c', t');
        LiftRight(x', c', t');
        c' := OuterCtx(c', t');
      }
    }

    /** The loop of insert: restores the colours above the new red node. */
    method InsertFixup(x0: Node, ghost c0: Ctx, ghost t0: Tree) returns (ghost c: Ctx, ghost t: Tree)
      requires Synced() && At(heap, E(), c0, t0) && t0.Br? && t0.n == x0 && Inserting(c0, t0)
      modifies this`heap, heap.Keys
      ensures Synced() && Kept()
      ensures At(heap, E(), c, t) && Inserting(c, t) && !ParentRed(c) && Contents(c, t) == Contents(c0, t0)
    {
      var x := x0;
      c, t := c0, t0;
      LookUp(heap, E(), c, t);
      while x.parent.red
        invariant Synced() && Kept()
        invariant At(heap, E(), c, t) && t.Br? && t.n == x && Inserting(c, t) && Contents(c, t) == Contents(c0, t0)
        invariant x.parent.red == ParentRed(c)
        decreases Depth(c)
      {
        GrandparentBlack(c, t);
        LookUp(heap, E(), c, t);
        if x.parent == x.parent.parent.left {
          x, c, t := InsertLeft(x, c, t);
        } else {
          x, c, t := InsertRight(x, c, t);
        }
        LookUp(heap, E(), c, t);
      }
    }

    /** Turns the top of the tree black. */
    method BlackenTop(ghost c: Ctx, ghost t: Tree)
      requires Synced() && At(heap, E(), c, t) && Plug(c, t).Br?
      modifies this`heap, heap.Keys
      ensures Synced() && Kept() && At(heap, E(), Top, Painted(Plug(c, t), false))
    {
      AtPlug(heap, E(), c, t);
      Look(heap, E(), Top, Plug(c, t));
      PaintHere(heap, E(), Top, Plug(c, t), false);
      SetRed(root.left, false);
    }

    /** A new node for i, hung into the tree as a black leaf. */
    method Attach(i: Interval, ghost all: Tree) returns (z: Node, ghost c: Ctx)
      requires Synced() && At(heap, E(), Top, all) && Ordered(Inorder(all))
      modifies this`heap, heap.Keys
      ensures Synced() && fresh(z) && z.stored == i && z.key == i.low && z.high == i.high && KeptBut(z)
      ensures At(heap, E(), c, Br(z, false, i.high, Leaf, Leaf)) && Plug(c, Leaf) == all
      ensures AllUpTo(Before(c), z.key) && AllAbove(After(c), z.key)
    {
      z := NewNode(i, all);
      c := RecursiveInsert(z, all);
    }

    /** A new node, not linked to the tree yet. */
    method NewNode(i: Interval, ghost all: Tree) returns (z: Node)
      requires Synced() && At(heap, E(), Top, all)
      modifies this`heap
      ensures Synced() && fresh(z) && z.stored == i && z.key == i.low && z.high == i.high && KeptBut(z)
      ensures At(heap, E(), Top, all) && z !in Nodes(all) + {nil, root} && !z.red && z.maxHigh == i.high
    {
      z := new Node(i);
      RepInHeap(heap, E(), all, root);
      ghost var cell := Cell(z, z, z, false, i.high);
      WriteElsewhere(heap, E(), Top, all, z, cell);
      heap := heap[z := cell];
    }

    /** The same with maxima recomputed and the new node red: ready for the loop of insert. */
    method AttachRed(i: Interval, ghost all: Tree) returns (z: Node, ghost c0: Ctx)
      requires Synced() && At(heap, E(), Top, all) && Ordered(Inorder(all))
      modifies this`heap, heap.Keys
      ensures Synced() && fresh(z) && z.stored == i && z.key == i.low && z.high == i.high && KeptBut(z)
      ensures At(heap, E(), FixMax(c0, z.high), Br(z, true, z.high, Leaf, Leaf)) && Plug(c0, Leaf) == all
      ensures AllUpTo(Before(c0), z.key) && AllAbove(After(c0), z.key)
    {
      z, c0 := Attach(i, all);
      ghost var t := Br(z, false, z.high, Leaf, Leaf);
      Look(heap, E(), c0, t);
      FixupMaxHigh(z.parent, c0, t);
      PaintHere(heap, E(), FixMax(c0, z.high), t, true);
      SetRed(z, true);
    }

    method Insert(i: Interval) returns (z: Node)
      requires Valid()
      modifies this`heap, this`tree, heap.Keys
      ensures Valid() && (Idle() <==> old(Idle())) && fresh(heap.Keys - old(heap.Keys)) && fresh(z) && z.stored == i
      ensures Inorder(tree) == InsertSorted(old(Inorder(tree)), z)
    {
      ghost var was, c0 := tree, Top;
      z, c0 := AttachRed(i, was);
      InsertingStart(c0, z);
      ghost var c, t := InsertFixup(z, FixMax(c0, z.high), Br(z, true, z.high, Leaf, Leaf));
      InsertionResult(c0, z, c, t);
      BlackenTop(c, t);
      Install(Painted(Plug(c, t), false));
    }

    // ---------- neighbours in key order ----------

    /** The leftmost node below x. */
    method GetMinimum(x0: Node, ghost c0: Ctx, ghost t0: Tree) returns (x: Node, ghost rc: Ctx, ghost t: Tree)
      requires Synced() && At(heap, E(), c0, t0) && t0.Br? && x0 == t0.n
      ensures At(heap, E(), Over(rc, c0), t) && Plug(rc, t) == t0 && t.Br? && t.n == x
      ensures t.l.Leaf? && Before(rc) == [] && x == Inorder(t0)[0]
    {
      x, rc, t := x0, Top, t0;
      Look(heap, E(), c0, t);
      while x.left != nil
        invariant At(heap, E(), Over(rc, c0), t) && Plug(rc, t) == t0 && t.Br? && t.n == x && Before(rc) == []
        invariant x in heap && heap[x].left == Root(E(), t.l)
        decreases t
      {
        LookChild(heap, E(), Over(rc, c0), t, false);
        MoveDown(heap, E(), Over(rc, c0), t, false);
        x := x.left;
        rc, t := Into(rc, t, false), t.l;
        Look(heap, E(), Over(rc, c0), t);
      }
      LookChild(heap, E(), Over(rc, c0), t, false);
      LeastFirst(rc, t);
    }

    /** The node after x in key order, or the root sentinel after the last one.  The ghost results
        say where the successor is when x has a right subtree. */
    method GetSuccessor(x: Node, ghost c: Ctx, ghost t: Tree) returns (y: Node, ghost rc: Ctx, ghost ty: Tree)
      requires Synced() && At(heap, E(), c, t) && t.Br? && x == t.n
      ensures y == (Inorder(t.r) + After(c) + [root])[0]
      ensures t.r.Br? ==> At(heap, E(), Over(rc, Into(c, t, true)), ty) && Plug(rc, ty) == t.r && ty.Br? && ty.n == y
      ensures t.r.Br? ==> ty.l.Leaf? && Before(rc) == []
    {
      rc, ty := Top, Leaf;
      Look(heap, E(), c, t);
      LookChild(heap, E(), c, t, true);
      MoveDown(heap, E(), c, t, true);
      if nil != x.right {
        y, rc, ty := GetMinimum(x.right, Into(c, t, true), t.r);
      } else {
        y := Climb(x, c, t);
      }
    }

    method Climb(x0: Node, ghost c0: Ctx, ghost t0: Tree) returns (y: Node)
      requires Synced() && At(heap, E(), c0, t0) && t0.Br? && x0 == t0.n
      ensures y == (After(c0) + [root])[0]
    {
      var x := x0;
      ghost var c, t := c0, t0;
      Look(heap, E(), c, t);
      y := x.parent;
      while y != nil && x == y.right
        invariant At(heap, E(), c, t) && t.Br? && x == t.n && y == Parent(E(), c) && After(c) == After(c0)
        decreases Depth(c)
      {
        Look(heap, E(), c, t);
        MoveUp(heap, E(), c, t);
        x := y;
        y := y.parent;
        t := Mk(c.right, c.n, c.red, c.mh, t, c.sib);
        c := c.up;
      }
      Look(heap, E(), c, t);
    }

    // ---------- deletion ----------

    method RedSiblingLeft(x: Node, ghost c: Ctx, ghost t: Tree)
      requires Synced() && At(heap, E(), c, t) && Linked(heap, E(), c, t) && x == Root(E(), t)
      requires c.Step? && !c.right && c.sib.Br? && Near(c).Br?
      modifies this`heap, heap.Keys
      ensures Synced() && Kept()
      ensures Child(Child(RedSiblingTree(c, t), c.right), c.right) == t
      ensures At(heap, E(), RedSiblingCtx(c, t), t) && Linked(heap, E(), RedSiblingCtx(c, t), t)
    {
      LookAround(heap, E(), c, t);
      RedSiblingAt(heap, E(), c, t);
      var p := x.parent;
      var w := p.right;
      SetRed(w, false);
      SetRed(p, true);
      LeftRotate(p);
    }

    method NearNephewLeft(x: Node, ghost c: Ctx, ghost t: Tree)
      requires Synced() && At(heap, E(), c, t) && Linked(heap, E(), c, t) && x == Root(E(), t)
      requires c.Step? && !c.right && c.sib.Br? && Near(c).Br?
      modifies this`heap, heap.Keys
      ensures Synced() && Kept()
      ensures At(heap, E(), NearNephewCtx(c), t) && Linked(heap, E(), NearNephewCtx(c), t)
    {
      LookAround(heap, E(), c, t);
      NearNephewAt(heap, E(), c, t);
      var w := x.parent.right;
      SetRed(w.left, false);
      SetRed(w, true);
      RightRotate(w);
    }

    method FarNephewLeft(x: Node, ghost c: Ctx, ghost t: Tree)
      requires Synced() && At(heap, E(), c, t) && Linked(heap, E(), c, t) && x == Root(E(), t)
      requires c.Step? && !c.right && c.sib.Br? && Far(c).Br?
      modifies this`heap, heap.Keys
      ensures Synced() && Kept()
      ensures At(heap, E(), c.up, FarNephewTree(c, t))
    {
      LookAround(heap, E(), c, t);
      FarNephewAt(heap, E(), c, t);
      var p := x.parent;
      var w := p.right;
      var far := w.right;
      SetRed(w, p.red);
      SetRed(p, false);
      SetRed(far, false);
      LeftRotate(p);
    }

    /** First half of a turn of deleteFixup when x is a left child: afterwards the sibling is black. */
    method BlackSiblingLeft(x: Node, ghost rootLeft: Node, ghost c0: Ctx, ghost t: Tree) returns (ghost c: Ctx)
      requires Synced() && At(heap, E(), c0, t) && Linked(heap, E(), c0, t) && x == Root(E(), t)
      requires Deleting(c0, t) && !Red(t) && c0.Step? && !c0.right && rootLeft == TopOf(c0)
      modifies this`heap, heap.Keys
      ensures Synced() && Kept()
      ensures At(heap, E(), c, t) && Linked(heap, E(), c, t) && Contents(c, t) == Contents(c0, t) && Deleting(c, t)
      ensures c.Step? && c.right == c0.right && c.sib.Br? && !Red(c.sib) && Cached(c, rootLeft)
      ensures c == c0 || (c.red && c.n == c0.n)
    {
      c := c0;
      SiblingExists(c, t);
      LookAround(heap, E(), c, t);
      var w := x.parent.right;
      if w.red {
        RedSiblingOk(c, t);
        RedSiblingLeft(x, c, t);
        c := RedSiblingCtx(c, t);
      }
    }

    /** Second half, by the colours of the nephews; `done` when the loop ends here. */
    method NephewsLeft(x: Node, rootLeft: Node, ghost c0: Ctx, ghost t0: Tree)
      returns (x': Node, ghost c: Ctx, ghost t: Tree, ghost done: bool)
      requires Synced() && At(heap, E(), c0, t0) && Linked(heap, E(), c0, t0) && x == Root(E(), t0)
      requires Deleting(c0, t0) && !Red(t0) && c0.Step? && !c0.right && c0.sib.Br? && !Red(c0.sib) &&
        Cached(c0, rootLeft)
      modifies this`heap, heap.Keys
      ensures Synced() && Kept()
      ensures At(heap, E(), c, t) && Contents(c, t) == Contents(c0, t0)
      ensures !done ==> OpenState(heap, E(), x', rootLeft, c, t) && c == c0.up && x' == c0.n && Red(t) == c0.red
      ensures done ==> ClosedState(heap, E(), x', rootLeft, c, t)
    {
      LookAround(heap, E(), c0, t0);
      var w := x.parent.right;
      if !w.right.red && !w.left.red {
        BlackNephewsOk(c0, t0);
        BlackNephewsAt(heap, E(), c0, t0);
        x' := x.parent;
        SetRed(w, true);
        c, t, done := c0.up, BlackNephewsTree(c0, t0), false;
      } else {
        c := c0;
        if !w.right.red {
          NearNephewOk(c0, t0);
          NearNephewLeft(x, c0, t0);
          c := NearNephewCtx(c0);
        }
        FarNephewOk(c, t0);
        FarNephewLeft(x, c, t0);
        CachedTopIsBlack(heap, E(), c, t0);
        x', done := rootLeft, true;
        c, t := c.up, FarNephewTree(c, t0);
      }
    }

    method RedSiblingRight(x: Node, ghost c: Ctx, ghost t: Tree)
      requires Synced() && At(heap, E(), c, t) && Linked(heap, E(), c, t) && x == Root(E(), t)
      requires c.Step? && c.right && c.sib.Br? && Near(c).Br?
      modifies this`heap, heap.Keys
      ensures Synced() && Kept()
      ensures Child(Child(RedSiblingTree(c, t), c.right), c.right) == t
      ensures At(heap, E(), RedSiblingCtx(c, t), t) && Linked(heap, E(), RedSiblingCtx(c, t), t)
    {
      LookAround(heap, E(), c, t);
      RedSiblingAt(heap, E(), c, t);
      var p := x.parent;
      var w := p.left;
      SetRed(w, false);
      SetRed(p, true);
      RightRotate(p);
    }

    method NearNephewRight(x: Node, ghost c: Ctx, ghost t: Tree)
      requires Synced() && At(heap, E(), c, t) && Linked(heap, E(), c, t) && x == Root(E(), t)
      requires c.Step? && c.right && c.sib.Br? && Near(c).Br?
      modifies this`heap, heap.Keys
      ensures Synced() && Kept()
      ensures At(heap, E(), NearNephewCtx(c), t) && Linked(heap, E(), NearNephewCtx(c), t)
    {
      LookAround(heap, E(), c, t);
      NearNephewAt(heap, E(), c, t);
      var w := x.parent.left;
      SetRed(w.right, false);
      SetRed(w, true);
      LeftRotate(w);
    }

    method FarNephewRight(x: Node, ghost c: Ctx, ghost t: Tree)
      requires Synced() && At(heap, E(), c, t) && Linked(heap, E(), c, t) && x == Root(E(), t)
      requires c.Step? && c.right && c.sib.Br? && Far(c).Br?
      modifies this`heap, heap.Keys
      ensures Synced() && Kept()
      ensures At(heap, E(), c.up, FarNephewTree(c, t))
    {
      LookAround(heap, E(), c, t);
      FarNephewAt(heap, E(), c, t);
      var p := x.parent;
      var w := p.left;
      var far := w.left;
      SetRed(w, p.red);
      SetRed(p, false);
      SetRed(far, false);
      RightRotate(p);
    }

    /** First half of a turn of deleteFixup when x is a right child: afterwards the sibling is black. */
    method BlackSiblingRight(x: Node, ghost rootLeft: Node, ghost c0: Ctx, ghost t: Tree) returns (ghost c: Ctx)
      requires Synced() && At(heap, E(), c0, t) && Linked(heap, E(), c0, t) && x == Root(E(), t)
      requires Deleting(c0, t) && !Red(t) && c0.Step? && c0.right && rootLeft == TopOf(c0)
      modifies this`heap, heap.Keys
      ensures Synced() && Kept()
      ensures At(heap, E(), c, t) && Linked(heap, E(), c, t) && Contents(c, t) == Contents(c0, t) && Deleting(c, t)
      ensures c.Step? && c.right == c0.right && c.sib.Br? && !Red(c.sib) && Cached(c, rootLeft)
      ensures c == c0 || (c.red && c.n == c0.n)
    {
      c := c0;
      SiblingExists(c, t);
      LookAround(heap, E(), c, t);
      var w := x.parent.left;
      if w.red {
        RedSiblingOk(c, t);
        RedSiblingRight(x, c, t);
        c := RedSiblingCtx(c, t);
      }
    }

    /** Second half, by the colours of the nephews; `done` when the loop ends here. */
    method NephewsRight(x: Node, rootLeft: Node, ghost c0: Ctx, ghost t0: Tree)
      returns (x': Node, ghost c: Ctx, ghost t: Tree, ghost done: bool)
      requires Synced() && At(heap, E(), c0, t0) && Linked(heap, E(), c0, t0) && x == Root(E(), t0)
      requires Deleting(c0, t0) && !Red(t0) && c0.Step? && c0.right && c0.sib.Br? && !Red(c0.sib) &&
        Cached(c0, rootLeft)
      modifies this`heap, heap.Keys
      ensures Synced() && Kept()
      ensures At(heap, E(), c, t) && Contents(c, t) == Contents(c0, t0)
      ensures !done ==> OpenState(heap, E(), x', rootLeft, c, t) && c == c0.up && x' == c0.n && Red(t) == c0.red
      ensures done ==> ClosedState(heap, E(), x', rootLeft, c, t)
    {
      LookAround(heap, E(), c0, t0);
      var w := x.parent.left;
      if !w.left.red && !w.right.red {
        BlackNephewsOk(c0, t0);
        BlackNephewsAt(heap, E(), c0, t0);
        x' := x.parent;
        SetRed(w, true);
        c, t, done := c0.up, BlackNephewsTree(c0, t0), false;
      } else {
        c := c0;
        if !w.left.red {
          NearNephewOk(c0, t0);
          NearNephewRight(x, c0, t0);
          c := NearNephewCtx(c0);
        }
        FarNephewOk(c, t0);
        FarNephewRight(x, c, t0);
        CachedTopIsBlack(heap, E(), c, t0);
        x', done := rootLeft, true;
        c, t := c.up, FarNephewTree(c, t0);
      }
    }

    /** Restores the colours above x, whose subtree lacks one black node.  The top node is read once,
        before the loop, as in the source. */
    method DeleteFixup(x0: Node, ghost c0: Ctx, ghost t0: Tree) returns (ghost all: Tree)
      requires Synced() && At(heap, E(), c0, t0) && Linked(heap, E(), c0, t0) && x0 == Root(E(), t0) && Deleting(c0, t0)
      modifies this`heap, heap.Keys
      ensures Synced() && Kept()
      ensures At(heap, E(), Top, all) && Coloured(Top, all) && Augmented(Top, all) && Inorder(all) == Contents(c0, t0)
    {
      var x := x0;
      ghost var c, t, done := c0, t0, false;
      TopIsRootLeft(heap, E(), c, t);
      var rootLeft := root.left;
      while !x.red && rootLeft != x
        invariant Synced() && Kept()
        invariant At(heap, E(), c, t) && Contents(c, t) == Contents(c0, t0)
        invariant !done ==> OpenState(heap, E(), x, rootLeft, c, t)
        invariant done ==> ClosedState(heap, E(), x, rootLeft, c, t)
        decreases !done && !Red(t), Depth(c)
      {
        OpenLook(heap, E(), x, rootLeft, c, t);
        SiblingExists(c, t);
        LookAround(heap, E(), c, t);
        ghost var c1;
        if x == x.parent.left {
          c1 := BlackSiblingLeft(x, rootLeft, c, t);
          x, c, t, done := NephewsLeft(x, rootLeft, c1, t);
        } else {
          c1 := BlackSiblingRight(x, rootLeft, c, t);
          x, c, t, done := NephewsRight(x, rootLeft, c1, t);
        }
      }
      all := FixupEnd(heap, E(), x, rootLeft, c, t, done);
      SetRed(x, false);
    }

    /** Lets x take the place of y. */
    method SpliceOut(x: Node, y: Node)
      requires Synced() && x in heap && y in heap && heap[y].parent in heap
      modifies this`heap, heap.Keys
      ensures Synced() && Kept() && heap == SpliceLinks(old(heap), E(), x, y)
    {
      var p := y.parent;
      SetParent(x, p);
      if root == p {
        SetLeft(root, x);
      } else if y == p.left {
        SetLeft(p, x);
      } else {
        SetRight(p, x);
      }
    }

    /** Lets y take over z's links and place. */
    method TakePlace(z: Node, y: Node)
      requires Synced() && z in heap && y in heap && z != y
      requires heap[z].left in heap && heap[z].right in heap && heap[z].parent in heap
      modifies this`heap, heap.Keys
      ensures Synced() && Kept() && heap == SubstLinks(old(heap), E(), z, y)
    {
      var zl, zr, zp := z.left, z.right, z.parent;
      SetMaxHigh(y, -MAX_TIME);
      SetLeft(y, zl);
      SetRight(y, zr);
      SetParent(y, zp);
      SetParent(zr, y);
      SetParent(zl, y);
      Redirecting(zp, z, y);
    }

    /** Rebalances unless the node taken out was red. */
    method Finish(x: Node, wasRed: bool, ghost c: Ctx, ghost t: Tree) returns (ghost all: Tree)
      requires Synced() && At(heap, E(), c, t) && Linked(heap, E(), c, t) && x == Root(E(), t) && TakenOut(c, t, wasRed)
      modifies this`heap, heap.Keys
      ensures Synced() && Kept()
      ensures At(heap, E(), Top, all) && Coloured(Top, all) && Augmented(Top, all) && Inorder(all) == Contents(c, t)
    {
      if !wasRed {
        all := DeleteFixup(x, c, t);
      } else {
        all := Plug(c, t);
        AtPlug(heap, E(), c, t);
        ColouredPlug(c, t);
        AugmentedPlug(c, t);
        PlugInorder(c, t);
      }
    }

    /** The node spliced out is z itself. */
    method FinishSelf(x: Node, z: Node, ghost c: Ctx, ghost t: Tree) returns (ghost all: Tree)
      requires t.Br? && (t.l.Leaf? || t.r.Leaf?) && t.n == z && x == Root(E(), OnlyChild(t))
      requires Synced() && At(heap, E(), c, OnlyChild(t)) && Linked(heap, E(), c, OnlyChild(t))
      requires Coloured(c, t) && Augmented(c, t) && z in heap && z !in CtxNodes(c) && heap[z].red == t.red
      modifies this`heap, heap.Keys
      ensures Synced() && Kept()
      ensures At(heap, E(), Top, all) && Coloured(Top, all) && Augmented(Top, all)
      ensures Inorder(all) == (Before(c) + Inorder(t.l)) + (Inorder(t.r) + After(c))
    {
      ghost var k := OnlyChild(t);
      FixupMaxHigh(x.parent, c, k);
      TakenOutSelf(c, t);
      Look(heap, E(), FixMax(c, MaxHigh(k)), k);
      all := Finish(x, z.red, FixMax(c, MaxHigh(k)), k);
    }

    /** y takes z's place, and the maxima from x's parent on are recomputed. */
    method Substitute(x: Node, y: Node, z: Node, ghost c: Ctx, ghost t: Tree, ghost rc: Ctx, ghost k: Tree)
      requires t.Br? && t.l.Br? && t.n == z && x == Root(E(), k) && y != z
      requires Synced() && At(heap, E(), Over(rc, Into(c, t, true)), k) &&
        Linked(heap, E(), Over(rc, Into(c, t, true)), k)
      requires y in heap && y !in CtxNodes(Over(rc, Into(c, t, true))) + Nodes(k) + {nil, root}
      modifies this`heap, heap.Keys
      ensures Synced() && Kept() && z in heap && heap[z].red == old(heap)[z].red
      ensures var c' := FixMax(Over(rc, Step(true, y, old(heap)[y].red, -MAX_TIME, t.l, c)), MaxHigh(k));
        At(heap, E(), c', k) && Linked(heap, E(), c', k)
    {
      TakePlaceAt(heap, E(), c, t, rc, k, y);
      ghost var c1 := Over(rc, Step(true, y, heap[y].red, -MAX_TIME, t.l, c));
      TakePlace(z, y);
      RefreshAbove(x, z, c1, k);
    }

    /** Recomputes the maxima above x; the colour of z, which is no longer there, stays. */
    method RefreshAbove(x: Node, z: Node, ghost c: Ctx, ghost k: Tree)
      requires Synced() && At(heap, E(), c, k) && Linked(heap, E(), c, k) && x == Root(E(), k)
      requires z in heap && z !in CtxNodes(c)
      modifies this`heap, heap.Keys
      ensures Synced() && Kept() && z in heap && heap[z].red == old(heap)[z].red
      ensures At(heap, E(), FixMax(c, MaxHigh(k)), k) && Linked(heap, E(), FixMax(c, MaxHigh(k)), k)
    {
      Look(heap, E(), c, k);
      ghost var h := heap;
      FixupMaxHigh(x.parent, c, k);
      Look(heap, E(), FixMax(c, MaxHigh(k)), k);
      FixMaxParent(E(), c, MaxHigh(k));
      SameCell(h, heap, h.Keys - CtxNodes(c), z);
    }

    /** The node spliced out is z's successor y, which takes z's place and colour. */
    method FinishSuccessor(x: Node, y: Node, z: Node, ghost c: Ctx, ghost t: Tree, ghost rc: Ctx, ghost ty: Tree)
        returns (ghost all: Tree)
      requires t.Br? && t.l.Br? && t.n == z && t.r == Plug(rc, ty) && ty.Br? && ty.l.Leaf? && ty.n == y &&
        x == Root(E(), ty.r)
      requires Before(rc) == [] && y != z
      requires Synced() && At(heap, E(), Over(rc, Into(c, t, true)), ty.r) &&
        Linked(heap, E(), Over(rc, Into(c, t, true)), ty.r)
      requires Coloured(Over(rc, Into(c, t, true)), ty) && Augmented(Over(rc, Into(c, t, true)), ty)
      requires y in heap && y !in CtxNodes(Over(rc, Into(c, t, true))) + Nodes(ty.r) + {nil, root} &&
        heap[y].red == ty.red
      requires z in heap && heap[z].red == t.red
      modifies this`heap, heap.Keys
      ensures Synced() && Kept()
      ensures At(heap, E(), Top, all) && Coloured(Top, all) && Augmented(Top, all)
      ensures Inorder(all) == (Before(c) + Inorder(t.l)) + (Inorder(t.r) + After(c))
    {
      Substitute(x, y, z, c, t, rc, ty.r);
      TakenOutSuccessor(c, t, rc, ty);
      ghost var rc', base := FixMaxOver(rc, Step(true, y, ty.red, -MAX_TIME, t.l, c), MaxHigh(ty.r));
      PaintOver(heap, E(), rc', base, ty.r, t.red);
      var wasRed := y.red;
      SetRed(y, z.red);
      all := Finish(x, wasRed, Over(rc', base.(red := t.red)), ty.r);
    }

    /** The child that survives when y is spliced out. */
    method SurvivingChild(y: Node, ghost c: Ctx, ghost t: Tree) returns (x: Node)
      requires Synced() && At(heap, E(), c, t) && t.Br? && t.n == y && (t.l.Leaf? || t.r.Leaf?)
      ensures x == Root(E(), OnlyChild(t))
    {
      Look(heap, E(), c, t);
      LookChild(heap, E(), c, t, false);
      MoveDown(heap, E(), c, t, false);
      Look(heap, E(), Into(c, t, false), t.l);
      x := if y.left == nil then y.right else y.left;
    }

    /** z has at most one child: it is spliced out itself. */
    method RemoveSelf(z: Node, ghost c: Ctx, ghost t: Tree) returns (ghost all: Tree)
      requires Synced() && At(heap, E(), c, t) && t.Br? && t.n == z && Coloured(c, t) && Augmented(c, t)
      requires t.l.Leaf? || t.r.Leaf?
      modifies this`heap, heap.Keys
      ensures Synced() && Kept()
      ensures At(heap, E(), Top, all) && Coloured(Top, all) && Augmented(Top, all)
      ensures Inorder(all) == (Before(c) + Inorder(t.l)) + (Inorder(t.r) + After(c))
    {
      var x := SurvivingChild(z, c, t);
      SpliceAt(heap, E(), c, t);
      SpliceOut(x, z);
      all := FinishSelf(x, z, c, t);
    }

    /** z has two children: its successor is spliced out and takes its place. */
    method RemoveSuccessor(z: Node, ghost c: Ctx, ghost t: Tree) returns (ghost all: Tree)
      requires Synced() && At(heap, E(), c, t) && t.Br? && t.n == z && Coloured(c, t) && Augmented(c, t)
      requires t.l.Br? && t.r.Br?
      modifies this`heap, heap.Keys
      ensures Synced() && Kept()
      ensures At(heap, E(), Top, all) && Coloured(Top, all) && Augmented(Top, all)
      ensures Inorder(all) == (Before(c) + Inorder(t.l)) + (Inorder(t.r) + After(c))
    {
      var y; ghost var rc, ty;
      y, rc, ty := GetSuccessor(z, c, t);
      ghost var cy := Over(rc, Into(c, t, true));
      SpliceSuccessor(heap, E(), c, t, rc, ty);
      var x := SurvivingChild(y, cy, ty);
      SpliceOut(x, y);
      all := FinishSuccessor(x, y, z, c, t, rc, ty);
    }

    /** Takes the node z out of the tree and returns its interval. */
    method DeleteNode(z: Node) returns (i: Interval)
      requires Valid() && z in Nodes(tree)
      modifies this`heap, this`tree, heap.Keys
      ensures Valid() && (Idle() <==> old(Idle())) && heap.Keys == old(heap.Keys) && i == z.stored
      ensures Inorder(tree) == Without(old(Inorder(tree)), z)
    {
      i := z.stored;
      ghost var c, t := Locate(tree, z);
      AtPlug(heap, E(), c, t);
      ColouredPlug(c, t);
      AugmentedPlug(c, t);
      Look(heap, E(), c, t);
      LookChild(heap, E(), c, t, true);
      LookChild(heap, E(), c, t, false);
      ghost var was, all := tree, Leaf;
      if z.left == nil || z.right == nil {
        all := RemoveSelf(z, c, t);
      } else {
        all := RemoveSuccessor(z, c, t);
      }
      RemovedContents(E(), c, t, all);
      Install(all);
    }

    // ---------- searching for an interval ----------

    /** The first node below `node`, parents before children and left before right, that holds ivl. */
    method RecursiveSearch(node: Node, ivl: Interval, ghost t: Tree, ghost p: Node) returns (r: Node)
      requires Synced() && Rep(heap, E(), t, p) && node == Root(E(), t) && nil !in Nodes(t)
      ensures r == FirstHolding(E(), Preorder(t), ivl)
      decreases t
    {
      if node != nil {
        assert heap[node] == CellOf(E(), t, p);
        if node.stored == ivl {
          return node;
        }
        PreorderNodes(t.l);
        assert nil !in Elems(Preorder(t.l));
        FirstHoldingConcat(E(), Preorder(t.l), Preorder(t.r), ivl);
        r := RecursiveSearch(node.left, ivl, t.l, node);
        if r != nil {
          return;
        }
        r := RecursiveSearch(node.right, ivl, t.r, node);
        if r != nil {
          return;
        }
      }
      return nil;
    }

    /** Deletes the first node that holds ivl, if there is one. */
    method DeleteInterval(ivl: Interval) returns (ghost z: Node)
      requires Valid()
      modifies this`heap, this`tree, heap.Keys
      ensures Valid() && (Idle() <==> old(Idle())) && heap.Keys == old(heap.Keys)
      ensures z == old(FirstHolding(E(), Preorder(tree), ivl))
      ensures z == nil ==> tree == old(tree) && forall n :: n in Nodes(tree) ==> n.stored != ivl
      ensures z != nil ==> z.stored == ivl && z in old(Nodes(tree)) && Inorder(tree) == Without(old(Inorder(tree)), z)
    {
      Look(heap, E(), Top, tree);
      PreorderNodes(tree);
      assert nil !in Elems(Preorder(tree));
      FirstHoldingMeaning(E(), Preorder(tree), ivl);
      ghost var fromRoot := Br(root, false, root.maxHigh, tree, Leaf);
      assert Preorder(fromRoot) == [root] + Preorder(tree);
      var node := RecursiveSearch(root, ivl, fromRoot, nil);
      z := node;
      if node != nil {
        var i := DeleteNode(node);
      }
    }

    // ---------- querying ----------

    /** The stack holds, above its sentinel, one entry for each subtree whose left branch is being
        explored. */
    ghost predicate StackIs(flags: seq<bool>, subs: seq<Tree>)
      reads this`recursionNodeStack, this`recursionNodeStackTop
    {
      && |flags| == |subs| && recursionNodeStackTop == |subs| + 1 <= |recursionNodeStack|
      && (forall s :: s in subs ==> s.Br?)
      && forall j :: 0 <= j < |subs| ==> recursionNodeStack[j + 1] == RecursionNode(subs[j].n, j, flags[j])
    }

    /** The stack doubles only when its n entries fill it. */
    static predicate Grown(before: nat, size: nat, n: nat) {
      size == before || (before == n && size == 2 * n)
    }

    /** Notes at the current entry that something was found. */
    method MarkFound(ghost flags: seq<bool>, ghost subs: seq<Tree>)
      requires Synced() && StackIs(flags, subs) && currentParent == |subs|
      modifies this`recursionNodeStack
      ensures Synced() && heap == old(heap) && tree == old(tree) && StackIs(Marked(flags), subs)
      ensures recursionNodeStackTop == old(recursionNodeStackTop) && currentParent == old(currentParent)
      ensures |recursionNodeStack| == |old(recursionNodeStack)|
    {
      var entry := recursionNodeStack[currentParent];
      recursionNodeStack := recursionNodeStack[currentParent := entry.(tryRightBranch := true)];
    }

    /** Remembers x before its left branch is explored. */
    method PushNode(x: Node, ghost flags: seq<bool>, ghost subs: seq<Tree>, ghost t: Tree)
      requires Synced() && StackIs(flags, subs) && currentParent == |subs| && t.Br? && t.n == x
      modifies this`recursionNodeStack, this`recursionNodeStackTop, this`currentParent
      ensures Synced() && heap == old(heap) && tree == old(tree) && StackIs(flags + [false], subs + [t]) &&
        currentParent == |subs| + 1
      ensures Grown(|old(recursionNodeStack)|, |recursionNodeStack|, |subs| + 1)
    {
      if recursionNodeStackTop == |recursionNodeStack| {
        recursionNodeStack := recursionNodeStack + seq(|recursionNodeStack|, _ => RecursionNode(null, 0, false));
      }
      recursionNodeStack := recursionNodeStack[recursionNodeStackTop := RecursionNode(x, currentParent, false)];
      currentParent := recursionNodeStackTop;
      recursionNodeStackTop := recursionNodeStackTop + 1;
    }

    /** Takes the top entry off; `again` when its right branch is to be explored. */
    method PopNode(ghost flags: seq<bool>, ghost subs: seq<Tree>) returns (again: bool, start: Node)
      requires Synced() && StackIs(flags, subs) && |subs| > 0
      modifies this`recursionNodeStack, this`recursionNodeStackTop, this`currentParent
      ensures Synced() && heap == old(heap) && tree == old(tree)
      ensures var k := |subs| - 1;
        && again == flags[k] && start == subs[k].n
        && StackIs(if again then Marked(flags[..k]) else flags[..k], subs[..k])
        && (again ==> currentParent == k)
      ensures |recursionNodeStack| == |old(recursionNodeStack)|
    {
      ghost var k := |subs| - 1;
      assert subs[k] in subs && forall s :: s in subs[..k] ==> s in subs;
      recursionNodeStackTop := recursionNodeStackTop - 1;
      var entry := recursionNodeStack[recursionNodeStackTop];
      again, start := entry.tryRightBranch, entry.startNode;
      if again {
        currentParent := entry.parentIndex;
        MarkFound(flags[..k], subs[..k]);
      }
    }

    /** The inner loop of query: takes entries off until a right branch is to be explored. */
    method Backtrack(ghost flags0: seq<bool>, ghost subs0: seq<Tree>, ghost low: SimTime, ghost high: SimTime)
      returns (x: Node, run: bool, ghost flags: seq<bool>, ghost subs: seq<Tree>, ghost t: Tree)
      requires Synced() && At(heap, E(), Top, tree) && StackIs(flags0, subs0) &&
        forall s :: s in subs0 ==> Within(s, tree)
      requires Levels(subs0, Leaf, Height(tree))
      modifies this`recursionNodeStack, this`recursionNodeStackTop, this`currentParent
      ensures Synced() && heap == old(heap) && tree == old(tree)
      ensures StackIs(flags, subs) && (forall s :: s in subs ==> Within(s, tree)) && Within(t, tree)
      ensures Levels(subs, t, Height(tree)) && |recursionNodeStack| == |old(recursionNodeStack)|
      ensures x == Root(E(), t) && run == t.Br? && (if run then currentParent == |subs| else subs == [])
      ensures Rest(Leaf, flags0, subs0, low, high) == Rest(t, flags, subs, low, high)
      ensures Size(t) + Work(subs) <= Work(subs0)
    {
      x, run, flags, subs, t := nil, false, flags0, subs0, Leaf;
      LeafWithin(tree);
      while !run && recursionNodeStackTop > 1
        invariant Synced() && heap == old(heap) && tree == old(tree)
        invariant StackIs(flags, subs) && (forall s :: s in subs ==> Within(s, tree)) && Within(t, tree)
        invariant Levels(subs, t, Height(tree)) && |recursionNodeStack| == |old(recursionNodeStack)|
        invariant x == Root(E(), t) && run == t.Br? && (run ==> currentParent == |subs|)
        invariant Rest(Leaf, flags0, subs0, low, high) == Rest(t, flags, subs, low, high)
        invariant Size(t) + Work(subs) <= Work(subs0)
        decreases |subs|
      {
        x, run, flags, subs, t := PopOne(flags, subs, low, high);
      }
    }

    /** Takes one entry off and, if its right branch is to be explored, goes there. */
    method PopOne(ghost flags0: seq<bool>, ghost subs0: seq<Tree>, ghost low: SimTime, ghost high: SimTime)
      returns (x: Node, run: bool, ghost flags: seq<bool>, ghost subs: seq<Tree>, ghost t: Tree)
      requires Synced() && At(heap, E(), Top, tree) && StackIs(flags0, subs0) &&
        forall s :: s in subs0 ==> Within(s, tree)
      requires |subs0| > 0 && Levels(subs0, Leaf, Height(tree))
      modifies this`recursionNodeStack, this`recursionNodeStackTop, this`currentParent
      ensures Synced() && heap == old(heap) && tree == old(tree)
      ensures Levels(subs, t, Height(tree)) && |recursionNodeStack| == |old(recursionNodeStack)|
      ensures StackIs(flags, subs) && subs == subs0[..|subs0| - 1] && Within(t, tree)
      ensures x == Root(E(), t) && run == t.Br? && (run ==> currentParent == |subs|)
      ensures Rest(Leaf, flags0, subs0, low, high) == Rest(t, flags, subs, low, high)
      ensures Size(t) + Work(subs) <= Work(subs0)
    {
      ghost var k := |subs0| - 1;
      ghost var s := subs0[k];
      assert s in subs0;
      x, run, t := nil, false, Leaf;
      LeafWithin(tree);
      LookWithin(heap, E(), s, tree, root);
      WithinChildren(s, tree);
      RestPop(flags0, subs0, low, high);
      var again, start := PopNode(flags0, subs0);
      if again {
        x := start.right;
        run := x != nil;
        t := s.r;
      }
      flags, subs := MarkedIf(again, flags0[..k]), subs0[..k];
    }

    /** Reports x if it overlaps. */
    method Test(x: Node, low: SimTime, high: SimTime, ghost flags0: seq<bool>, ghost subs: seq<Tree>)
      returns (hit: seq<Node>, ghost flags: seq<bool>)
      requires Synced() && StackIs(flags0, subs) && currentParent == |subs|
      modifies this`recursionNodeStack
      ensures Synced() && heap == old(heap) && tree == old(tree)
      ensures hit == Here(x, low, high) && flags == MarkedIf(hit != [], flags0) && StackIs(flags, subs)
      ensures recursionNodeStackTop == old(recursionNodeStackTop) && currentParent == old(currentParent)
      ensures |recursionNodeStack| == |old(recursionNodeStack)|
    {
      hit, flags := [], flags0;
      if Overlap(low, high, x.key, x.high) {
        hit := [x];
        MarkFound(flags, subs);
        flags := Marked(flags);
      }
    }

    /** One turn of the outer loop up to the choice of the next branch. */
    method VisitNode(x: Node, low: SimTime, high: SimTime, ghost flags0: seq<bool>, ghost subs0: seq<Tree>,
        ghost t0: Tree)
      returns (x': Node, hit: seq<Node>, ghost flags: seq<bool>, ghost subs: seq<Tree>, ghost t: Tree)
      requires Synced() && At(heap, E(), Top, tree) && StackIs(flags0, subs0) &&
        forall s :: s in subs0 ==> Within(s, tree)
      requires Within(t0, tree) && t0.Br? && x == t0.n && currentParent == |subs0| && Levels(subs0, t0, Height(tree))
      modifies this`recursionNodeStack, this`recursionNodeStackTop, this`currentParent
      ensures Synced() && heap == old(heap) && tree == old(tree)
      ensures StackIs(flags, subs) && (forall s :: s in subs ==> Within(s, tree)) && Within(t, tree)
      ensures Levels(subs, t, Height(tree)) && Grown(|old(recursionNodeStack)|, |recursionNodeStack|, |subs0| + 1)
      ensures x' == Root(E(), t) && currentParent == |subs|
      ensures hit == Here(x, low, high)
      ensures Rest(t0, flags0, subs0, low, high) == hit + Rest(t, flags, subs, low, high)
      ensures Size(t) + Work(subs) < Size(t0) + Work(subs0)
    {
      hit, flags := Test(x, low, high, flags0, subs0);
      x', flags, subs, t := Descend(x, low, flags, subs0, t0);
      if MaxHigh(t0.l) >= low {
        VisitLeft(t0, flags0, subs0, low, high);
      } else {
        VisitRight(t0, flags0, subs0, low, high);
      }
    }

    /** To the left with an entry on the stack if that branch may hold a hit, else to the right. */
    method Descend(x: Node, low: SimTime, ghost flags0: seq<bool>, ghost subs0: seq<Tree>, ghost t0: Tree)
      returns (x': Node, ghost flags: seq<bool>, ghost subs: seq<Tree>, ghost t: Tree)
      requires Synced() && At(heap, E(), Top, tree) && StackIs(flags0, subs0) && Levels(subs0, t0, Height(tree))
      requires Within(t0, tree) && t0.Br? && x == t0.n && currentParent == |subs0|
      modifies this`recursionNodeStack, this`recursionNodeStackTop, this`currentParent
      ensures Synced() && heap == old(heap) && tree == old(tree) && StackIs(flags, subs) && currentParent == |subs|
      ensures Levels(subs, t, Height(tree)) && Grown(|old(recursionNodeStack)|, |recursionNodeStack|, |subs0| + 1)
      ensures Within(t, tree) && x' == Root(E(), t)
      ensures if MaxHigh(t0.l) >= low
        then t == t0.l && flags == flags0 + [false] && subs == subs0 + [t0]
        else t == t0.r && flags == flags0 && subs == subs0
    {
      LookWithin(heap, E(), t0, tree, root);
      WithinChildren(t0, tree);
      if x.left.maxHigh >= low {
        PushNode(x, flags0, subs0, t0);
        x' := x.left;
        flags, subs, t := flags0 + [false], subs0 + [t0], t0.l;
      } else {
        x' := x.right;
        flags, subs, t := flags0, subs0, t0.r;
      }
    }

    static function Larger(a: nat, b: nat): nat {
      if a > b then a else b
    }

    /** One turn of the outer loop. */
    method Turn(x0: Node, low: SimTime, high: SimTime, ghost flags0: seq<bool>, ghost subs0: seq<Tree>, ghost t0: Tree)
      returns (x: Node, run: bool, hit: seq<Node>, ghost flags: seq<bool>, ghost subs: seq<Tree>, ghost t: Tree)
      requires Synced() && At(heap, E(), Top, tree) && StackIs(flags0, subs0) &&
        forall s :: s in subs0 ==> Within(s, tree)
      requires Within(t0, tree) && t0.Br? && x0 == t0.n && currentParent == |subs0| && Levels(subs0, t0, Height(tree))
      modifies this`recursionNodeStack, this`recursionNodeStackTop, this`currentParent
      ensures Synced() && heap == old(heap) && tree == old(tree)
      ensures StackIs(flags, subs) && (forall s :: s in subs ==> Within(s, tree)) && Within(t, tree)
      ensures x == Root(E(), t) && run == t.Br? && (if run then currentParent == |subs| else subs == [])
      ensures Rest(t0, flags0, subs0, low, high) == hit + Rest(t, flags, subs, low, high)
      ensures Size(t) + Work(subs) < Size(t0) + Work(subs0)
      ensures Levels(subs, t, Height(tree))
      ensures Grown(|old(recursionNodeStack)|, |recursionNodeStack|, |subs0| + 1)
    {
      x, hit, flags, subs, t := VisitNode(x0, low, high, flags0, subs0, t0);
      run := x != nil;
      NilIsOutside(heap, E(), t, tree, root);
      if !run {
        x, run, flags, subs, t := Backtrack(flags, subs, low, high);
      }
    }

    /** All stored intervals that overlap [low, high].  The stack grows at most to twice the height. */
    method Query(low: SimTime, high: SimTime) returns (result: seq<Interval?>)
      requires Valid() && Idle()
      modifies this`recursionNodeStack, this`recursionNodeStackTop, this`currentParent
      ensures Valid() && Idle() && heap == old(heap) && tree == old(tree)
      ensures result == Stored(Visit(tree, low, high))
      ensures |recursionNodeStack| <= Larger(|old(recursionNodeStack)|, 2 * Height(tree))
    {
      result := [];
      Look(heap, E(), Top, tree);
      var x := root.left;
      var run := x != nil;
      currentParent := 0;
      ghost var flags: seq<bool>, subs: seq<Tree>, t, found := [], [], tree, [];
      ghost var height := Height(tree);
      assert Visit(t, low, high) + [] == Visit(t, low, high);
      while run
        invariant Synced() && heap == old(heap) && tree == old(tree)
        invariant StackIs(flags, subs) && (forall s :: s in subs ==> Within(s, tree)) && Within(t, tree)
        invariant x == Root(E(), t) && run == t.Br? && (if run then currentParent == |subs| else subs == [])
        invariant result == Stored(found)
        invariant Visit(tree, low, high) == found + Rest(t, flags, subs, low, high)
        invariant Levels(subs, t, height) && |recursionNodeStack| <= Larger(|old(recursionNodeStack)|, 2 * height)
        decreases Size(t) + Work(subs)
      {
        var hit;
        RoomFor(subs, t, height);
        x, run, hit, flags, subs, t := Turn(x, low, high, flags, subs, t);
        StoredConcat(found, hit);
        Append(found, hit, Rest(t, flags, subs, low, high));
        result := result + Stored(hit);
        found := found + hit;
      }
    }
  }
}
