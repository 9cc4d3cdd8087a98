/**
 The link between pointers and trees.  A Heap is a snapshot of the mutable fields of all nodes; the
 predicates say which tree the pointers form, and the lemmas say what each pointer manipulation of
 the source does to that tree.
 */
module IntervalHeap {
  import opened IntervalNodes
  import opened IntervalShape

  datatype Cell = Cell(left: Node, right: Node, parent: Node, red: bool, maxHigh: SimTime)

  type Heap = map<Node, Cell>

  /** Every link leads to a node of the heap. */
  predicate Closed(h: Heap) {
    forall n {:trigger h[n]} :: n in h ==> h[n].left in h && h[n].right in h && h[n].parent in h
  }

  /** The two sentinels of a tree. */
  datatype Env = Env(nil: Node, root: Node)

  function Root(e: Env, t: Tree): Node {
    if t.Leaf? then e.nil else t.n
  }

  function Parent(e: Env, c: Ctx): Node {
    if c.Top? then e.root else c.n
  }

  /** The sentinels are in place: nil is black, childless and of least max-high; the root sentinel
      is black and has no right child.  Nil's parent is free. */
  predicate Sentinels(h: Heap, e: Env) {
    && e.nil != e.root && e.nil in h && e.root in h
    && h[e.nil].left == h[e.nil].right == e.nil && !h[e.nil].red && h[e.nil].maxHigh == -MAX_TIME
    && h[e.root].right == e.nil && h[e.root].parent == e.nil && !h[e.root].red
  }

  function CellOf(e: Env, t: Tree, p: Node): Cell
    requires t.Br?
  {
    Cell(Root(e, t.l), Root(e, t.r), p, t.red, t.mh)
  }

  /** In h, the pointers below node Root(t) form exactly t, and its top points up to p. */
  predicate Rep(h: Heap, e: Env, t: Tree, p: Node) {
    t.Br? ==>
      && t.n in h && h[t.n] == CellOf(e, t, p)
      && Rep(h, e, t.l, t.n) && Rep(h, e, t.r, t.n)
  }

  /** In h, the pointers around a hole form exactly c, and the hole holds node x. */
  predicate RepCtx(h: Heap, e: Env, c: Ctx, x: Node) {
    match c
    case Top => e.root in h && h[e.root].left == x
    case Step(d, n, red, mh, sib, up) =>
      && n in h
      && h[n] == (if d then Cell(Root(e, sib), x, Parent(e, up), red, mh)
        else Cell(x, Root(e, sib), Parent(e, up), red, mh))
      && Rep(h, e, sib, n) && RepCtx(h, e, up, n)
  }

  /** No node occurs twice in the tree, and no sentinel occurs in it. */
  predicate Apart(e: Env, c: Ctx, t: Tree) {
    && Distinct(t) && CtxDistinct(c) && Nodes(t) !! CtxNodes(c)
    && e.nil !in Nodes(t) + CtxNodes(c) && e.root !in Nodes(t) + CtxNodes(c)
  }

  /** h holds the tree Plug(c, t), seen from the subtree t. */
  predicate At(h: Heap, e: Env, c: Ctx, t: Tree) {
    && Sentinels(h, e)
    && Rep(h, e, t, Parent(e, c))
    && RepCtx(h, e, c, Root(e, t))
    && Apart(e, c, t)
  }

  lemma EmptyAt(h: Heap, e: Env)
    requires Sentinels(h, e) && h[e.root].left == e.nil
    ensures At(h, e, Top, Leaf)
  {
  }

  lemma EmptyIsGood()
    ensures Coloured(Top, Leaf) && Augmented(Top, Leaf) && Ordered(Inorder(Leaf)) && Storing(Leaf)
  {
  }

  /** What the pointers around the node in view are. */
  lemma Look(h: Heap, e: Env, c: Ctx, t: Tree)
    requires At(h, e, c, t)
    ensures Parent(e, c) in h && Parent(e, c) != e.nil && Parent(e, c) !in Nodes(t)
    ensures t.Br? ==> t.n in h && t.n != e.nil && h[t.n] == CellOf(e, t, Parent(e, c))
    ensures c.Step? ==> h[c.n].red == c.red && h[c.n].maxHigh == c.mh && h[c.n].parent == Parent(e, c.up)
    ensures c.Top? || !c.right ==> h[Parent(e, c)].left == Root(e, t)
    ensures c.Step? && c.right ==> h[Parent(e, c)].right == Root(e, t) && h[Parent(e, c)].left == Root(e, c.sib)
    ensures c.Step? && !c.right ==> h[Parent(e, c)].right == Root(e, c.sib)
    ensures t.Br? && c.Step? ==> Root(e, c.sib) != t.n
  {
  }

  /** The child on one side of the node in view, nil included. */
  lemma LookChild(h: Heap, e: Env, c: Ctx, t: Tree, side: bool)
    requires At(h, e, c, t) && t.Br?
    ensures var k := Child(t, side);
      Root(e, k) in h && h[Root(e, k)].maxHigh == MaxHigh(k) && h[Root(e, k)].red == Red(k)
  {
    assert Rep(h, e, Child(t, side), t.n);
  }

  // ---------- moving the point of view ----------

  lemma MoveUp(h: Heap, e: Env, c: Ctx, t: Tree)
    requires c.Step?
    ensures At(h, e, c, t) <==> At(h, e, c.up, Mk(c.right, c.n, c.red, c.mh, t, c.sib))
  {
  }

  lemma MoveDown(h: Heap, e: Env, c: Ctx, t: Tree, right: bool)
    requires t.Br?
    ensures At(h, e, c, t) <==> At(h, e, Into(c, t, right), Child(t, right))
  {
    MoveUp(h, e, Into(c, t, right), Child(t, right));
  }

  lemma {:induction false} AtPlug(h: Heap, e: Env, c: Ctx, t: Tree)
    ensures At(h, e, c, t) <==> At(h, e, Top, Plug(c, t))
  {
    if c.Step? {
      MoveUp(h, e, c, t);
      AtPlug(h, e, c.up, Mk(c.right, c.n, c.red, c.mh, t, c.sib));
    }
  }

  // ---------- frames ----------

  predicate Same(h: Heap, h': Heap, s: set<Node>) {
    forall n :: n in s && n in h ==> n in h' && h'[n] == h[n]
  }

  lemma SameCell(h: Heap, h': Heap, s: set<Node>, n: Node)
    requires Same(h, h', s) && n in s && n in h
    ensures n in h' && h'[n] == h[n]
  {
  }

  lemma {:induction false} FrameTree(h: Heap, h': Heap, e: Env, t: Tree, p: Node)
    requires Rep(h, e, t, p) && Same(h, h', Nodes(t))
    ensures Rep(h', e, t, p)
  {
    if t.Br? {
      FrameTree(h, h', e, t.l, t.n);
      FrameTree(h, h', e, t.r, t.n);
    }
  }

  lemma {:induction false} FrameCtx(h: Heap, h': Heap, e: Env, c: Ctx, x: Node)
    requires RepCtx(h, e, c, x) && Same(h, h', CtxNodes(c) + {e.root})
    ensures RepCtx(h', e, c, x)
  {
    if c.Step? {
      FrameTree(h, h', e, c.sib, c.n);
      FrameCtx(h, h', e, c.up, c.n);
    }
  }

  lemma {:induction false} RepInHeap(h: Heap, e: Env, t: Tree, p: Node)
    requires Rep(h, e, t, p)
    ensures Nodes(t) <= h.Keys
  {
    if t.Br? {
      RepInHeap(h, e, t.l, t.n);
      RepInHeap(h, e, t.r, t.n);
    }
  }

  lemma FrameAt(h: Heap, h': Heap, e: Env, c: Ctx, t: Tree)
    requires At(h, e, c, t) && Same(h, h', Nodes(t) + CtxNodes(c) + {e.nil, e.root})
    ensures At(h', e, c, t)
  {
    FrameTree(h, h', e, t, Parent(e, c));
    FrameCtx(h, h', e, c, Root(e, t));
  }

  /** A node outside the tree may change. */
  lemma WriteElsewhere(h: Heap, e: Env, c: Ctx, t: Tree, z: Node, cell: Cell)
    requires At(h, e, c, t) && z !in Nodes(t) + CtxNodes(c) + {e.nil, e.root}
    ensures At(h[z := cell], e, c, t)
  {
    FrameAt(h, h[z := cell], e, c, t);
  }

  /** Only the parent link at the top of t changes. */
  lemma Reparent(h: Heap, h': Heap, e: Env, t: Tree, p: Node, p': Node)
    requires Rep(h, e, t, p) && Distinct(t)
    requires Same(h, h', Nodes(t) - {Root(e, t)})
    requires t.Br? ==> t.n in h' && h'[t.n] == h[t.n].(parent := p')
    ensures Rep(h', e, t, p')
  {
    if t.Br? {
      FrameTree(h, h', e, t.l, t.n);
      FrameTree(h, h', e, t.r, t.n);
    }
  }

  function SetChild(cell: Cell, right: bool, x: Node): Cell {
    if right then cell.(right := x) else cell.(left := x)
  }

  /** Only the link from the hole's parent down into the hole changes. */
  lemma Rehang(h: Heap, h': Heap, e: Env, c: Ctx, x: Node, x': Node)
    requires RepCtx(h, e, c, x) && CtxDistinct(c) && e.root !in CtxNodes(c)
    requires Same(h, h', CtxNodes(c) + {e.root} - {Parent(e, c)})
    requires Parent(e, c) in h'
    requires h'[Parent(e, c)] == SetChild(h[Parent(e, c)], c.Step? && c.right, x')
    ensures RepCtx(h', e, c, x')
  {
    if c.Step? {
      FrameTree(h, h', e, c.sib, c.n);
      FrameCtx(h, h', e, c.up, c.n);
    }
  }

  // ---------- what the pointer manipulations do to the tree ----------

  /** Rewriting colour and max-high of the node in view. */
  lemma Repaint(h: Heap, h': Heap, e: Env, c: Ctx, t: Tree, red: bool, mh: SimTime)
    requires t.Br? && At(h, e, c, t)
    requires h' == h[t.n := h[t.n].(red := red, maxHigh := mh)]
    ensures At(h', e, c, t.(red := red, mh := mh))
  {
    FrameTree(h, h', e, t.l, t.n);
    FrameTree(h, h', e, t.r, t.n);
    FrameCtx(h, h', e, c, t.n);
  }

  function SetRedIn(h: Heap, n: Node, red: bool): Heap {
    if n in h then h[n := h[n].(red := red)] else h
  }

  lemma PaintHere(h: Heap, e: Env, c: Ctx, t: Tree, red: bool)
    requires t.Br? && At(h, e, c, t)
    ensures t.n in h && At(SetRedIn(h, t.n, red), e, c, t.(red := red))
  {
    Look(h, e, c, t);
    Repaint(h, SetRedIn(h, t.n, red), e, c, t, red, t.mh);
  }

  lemma PaintParent(h: Heap, e: Env, c: Ctx, t: Tree, red: bool)
    requires c.Step? && At(h, e, c, t)
    ensures c.n in h && At(SetRedIn(h, c.n, red), e, c.(red := red), t)
  {
    var p := Mk(c.right, c.n, c.red, c.mh, t, c.sib);
    MoveUp(h, e, c, t);
    PaintHere(h, e, c.up, p, red);
    MoveUp(SetRedIn(h, c.n, red), e, c.(red := red), t);
  }

  lemma PaintGrandparent(h: Heap, e: Env, c: Ctx, t: Tree, red: bool)
    requires c.Step? && c.up.Step? && At(h, e, c, t)
    ensures c.up.n in h && At(SetRedIn(h, c.up.n, red), e, c.(up := c.up.(red := red)), t)
  {
    var p := Mk(c.right, c.n, c.red, c.mh, t, c.sib);
    MoveUp(h, e, c, t);
    PaintParent(h, e, c.up, p, red);
    MoveUp(SetRedIn(h, c.up.n, red), e, c.(up := c.up.(red := red)), t);
  }

  /** The view from the sibling. */
  function Across(c: Ctx, t: Tree): Ctx
    requires c.Step?
  {
    Step(!c.right, c.n, c.red, c.mh, t, c.up)
  }

  lemma MoveAcross(h: Heap, e: Env, c: Ctx, t: Tree)
    requires c.Step?
    ensures At(h, e, c, t) <==> At(h, e, Across(c, t), c.sib)
  {
    MoveUp(h, e, c, t);
    MoveUp(h, e, Across(c, t), c.sib);
  }

  lemma PaintSibling(h: Heap, e: Env, c: Ctx, t: Tree, red: bool)
    requires c.Step? && c.sib.Br? && At(h, e, c, t)
    ensures c.sib.n in h && At(SetRedIn(h, c.sib.n, red), e, c.(sib := c.sib.(red := red)), t)
  {
    MoveAcross(h, e, c, t);
    PaintHere(h, e, Across(c, t), c.sib, red);
    MoveAcross(SetRedIn(h, c.sib.n, red), e, c.(sib := c.sib.(red := red)), t);
  }

  function SetKid(t: Tree, side: bool, k: Tree): Tree
    requires t.Br?
  {
    if side then t.(r := k) else t.(l := k)
  }

  /** Painting a child of the sibling. */
  lemma PaintNephew(h: Heap, e: Env, c: Ctx, t: Tree, side: bool, red: bool)
    requires c.Step? && c.sib.Br? && Child(c.sib, side).Br? && At(h, e, c, t)
    ensures var k := Child(c.sib, side);
      k.n in h && At(SetRedIn(h, k.n, red), e, c.(sib := SetKid(c.sib, side, k.(red := red))), t)
  {
    var k := Child(c.sib, side);
    var c' := c.(sib := SetKid(c.sib, side, k.(red := red)));
    MoveAcross(h, e, c, t);
    MoveDown(h, e, Across(c, t), c.sib, side);
    PaintHere(h, e, Into(Across(c, t), c.sib, side), k, red);
    MoveUp(SetRedIn(h, k.n, red), e, Into(Across(c, t), c.sib, side), k.(red := red));
    MoveAcross(SetRedIn(h, k.n, red), e, c', t);
  }

  lemma PaintUncle(h: Heap, e: Env, c: Ctx, t: Tree, red: bool)
    requires c.Step? && c.up.Step? && c.up.sib.Br? && At(h, e, c, t)
    ensures c.up.sib.n in h && At(SetRedIn(h, c.up.sib.n, red), e, c.(up := c.up.(sib := c.up.sib.(red := red))), t)
  {
    var p := Mk(c.right, c.n, c.red, c.mh, t, c.sib);
    MoveUp(h, e, c, t);
    PaintSibling(h, e, c.up, p, red);
    MoveUp(SetRedIn(h, c.up.sib.n, red), e, c.(up := c.up.(sib := c.up.sib.(red := red))), t);
  }

  lemma RefreshAt(h: Heap, e: Env, c: Ctx, t: Tree)
    requires t.Br? && At(h, e, c, t)
    ensures At(RefreshMax(h, t.n), e, c, t.(mh := Max3(t.n, MaxHigh(t.l), MaxHigh(t.r))))
  {
    Look(h, e, c, t);
    LookChild(h, e, c, t, true);
    LookChild(h, e, c, t, false);
    Repaint(h, RefreshMax(h, t.n), e, c, t, t.red, Max3(t.n, MaxHigh(t.l), MaxHigh(t.r)));
  }

  /** One turn of the loop that recomputes the maxima towards the top. */
  lemma RefreshUp(h: Heap, e: Env, c: Ctx, t: Tree)
    requires c.Step? && At(h, e, c, t)
    ensures var m := Max3(c.n, MaxHigh(t), MaxHigh(c.sib)); var t' := Mk(c.right, c.n, c.red, m, t, c.sib);
      && At(RefreshMax(h, c.n), e, c.up, t')
      && Plug(FixMax(c, MaxHigh(t)), t) == Plug(FixMax(c.up, MaxHigh(t')), t')
      && c.n in h && h[c.n].left in h && h[c.n].right in h && c.n != e.root && h[c.n].parent == Parent(e, c.up)
  {
    var t1 := Mk(c.right, c.n, c.red, c.mh, t, c.sib);
    MoveUp(h, e, c, t);
    Look(h, e, c.up, t1);
    LookChild(h, e, c.up, t1, true);
    LookChild(h, e, c.up, t1, false);
    RefreshAt(h, e, c.up, t1);
  }

  /** The tree after a rotation that lifts the child on side `side` above its parent. */
  function Rotated(t: Tree, side: bool): Tree
    requires t.Br? && Child(t, side).Br?
  {
    var y := Child(t, side);
    var inner, outer, other := Child(y, !side), Child(y, side), Child(t, !side);
    var xm := Max3(t.n, MaxHigh(inner), MaxHigh(other));
    Mk(!side, y.n, y.red, Max3(y.n, xm, MaxHigh(outer)), Mk(side, t.n, t.red, xm, inner, other), outer)
  }

  function Kid(cell: Cell, right: bool): Node {
    if right then cell.right else cell.left
  }

  /** x and its child on side `side` are two linked nodes with neighbours of their own. */
  predicate Rotatable(h: Heap, x: Node, side: bool) {
    && x in h && h[x].parent in h && Kid(h[x], !side) in h && Kid(h[x], side) in h
    && var y, p, other := Kid(h[x], side), h[x].parent, Kid(h[x], !side);
    && Kid(h[y], true) in h && Kid(h[y], false) in h
    && x != y && x != p && y != p && other != x && other != y
    && Kid(h[y], true) !in {x, y, p} && Kid(h[y], false) !in {x, y, p}
  }

  /** Make x the parent of k, unless k is nil. */
  function Adopt(h: Heap, e: Env, k: Node, x: Node): Heap
    requires k in h
  {
    if k != e.nil then h[k := h[k].(parent := x)] else h
  }

  /** Let p's link to x lead to y instead. */
  function Redirect(h: Heap, p: Node, x: Node, y: Node): Heap
    requires p in h
  {
    h[p := SetChild(h[p], x != h[p].left, y)]
  }

  /** A rotation at x: the pointer writes, then the two maxima. */
  function RotateLinks(h: Heap, e: Env, x: Node, side: bool): Heap
    requires Rotatable(h, x, side)
  {
    RefreshMax(RefreshMax(Swing(h, e, x, side), x), Kid(h[x], side))
  }

  /** The pointer writes one by one. */
  function Swing(h: Heap, e: Env, x: Node, side: bool): Heap
    requires Rotatable(h, x, side)
  {
    var y := Kid(h[x], side);
    var inner, p := Kid(h[y], !side), h[x].parent;
    var h := h[x := SetChild(h[x], side, inner)];
    var h := Adopt(h, e, inner, x);
    var h := h[y := h[y].(parent := p)];
    var h := Redirect(h, p, x, y);
    var h := h[y := SetChild(h[y], !side, x)];
    h[x := h[x].(parent := y)]
  }

  function RefreshMax(h: Heap, x: Node): Heap {
    if x in h && h[x].left in h && h[x].right in h then
      h[x := h[x].(maxHigh := Max3(x, h[h[x].left].maxHigh, h[h[x].right].maxHigh))]
    else
      h
  }

  lemma RotatedInorder(t: Tree, side: bool)
    requires t.Br? && Child(t, side).Br?
    ensures Inorder(Rotated(t, side)) == Inorder(t)
  {
    var y := Child(t, side);
    var inner, outer, other := Child(y, !side), Child(y, side), Child(t, !side);
    var x' := Child(Rotated(t, side), !side);
    if side {
      assert Inorder(x') == Inorder(other) + [t.n] + Inorder(inner);
      assert Inorder(y) == Inorder(inner) + [y.n] + Inorder(outer);
    } else {
      assert Inorder(x') == Inorder(inner) + [t.n] + Inorder(other);
      assert Inorder(y) == Inorder(outer) + [y.n] + Inorder(inner);
    }
  }

  lemma RotatedMax(t: Tree, side: bool)
    requires t.Br? && Child(t, side).Br? && MaxOk(t)
    ensures MaxOk(Rotated(t, side)) && MaxHigh(Rotated(t, side)) == MaxHigh(t)
  {
    assert MaxOk(Child(t, side));
    assert MaxOk(Child(Rotated(t, side), !side));
  }

  lemma RotatedApart(e: Env, c: Ctx, t: Tree, side: bool)
    requires t.Br? && Child(t, side).Br? && Apart(e, c, t)
    ensures Apart(e, c, Rotated(t, side)) && Nodes(Rotated(t, side)) == Nodes(t)
  {
    var y := Child(t, side);
    var inner, outer, other := Child(y, !side), Child(y, side), Child(t, !side);
    var t' := Rotated(t, side);
    var x' := Child(t', !side);
    assert Distinct(y) && Distinct(other) && Distinct(inner) && Distinct(outer);
    assert Nodes(y) == {y.n} + Nodes(inner) + Nodes(outer) && Nodes(t) == {t.n} + Nodes(y) + Nodes(other);
    assert Nodes(x') == {t.n} + Nodes(inner) + Nodes(other) && Distinct(x');
    assert Nodes(t') == Nodes(t);
  }

  lemma RotatableAt(h: Heap, e: Env, c: Ctx, t: Tree, side: bool)
    requires t.Br? && Child(t, side).Br? && At(h, e, c, t)
    ensures Rotatable(h, t.n, side)
  {
    Look(h, e, c, t);
    var y := Child(t, side);
    LookChild(h, e, c, t, side);
    LookChild(h, e, c, t, !side);
    MoveDown(h, e, c, t, side);
    Look(h, e, Into(c, t, side), y);
    LookChild(h, e, Into(c, t, side), y, side);
    LookChild(h, e, Into(c, t, side), y, !side);
    assert Nodes(y) == {y.n} + Nodes(y.l) + Nodes(y.r);
  }

  /** A rotation's pointer writes turn the tree in view into the rotated tree. */
  lemma RotateAt(h: Heap, e: Env, c: Ctx, t: Tree, side: bool)
    requires t.Br? && Child(t, side).Br? && At(h, e, c, t)
    ensures Rotatable(h, t.n, side)
    ensures At(RotateLinks(h, e, t.n, side), e, c, Rotated(t, side)) && RotateLinks(h, e, t.n, side)[e.nil] == h[e.nil]
  {
    RotatableAt(h, e, c, t, side);
    RotationCells(h, e, c, t, side);
    RotationRep(h, RotateLinks(h, e, t.n, side), e, c, t, side);
  }

  /** h' differs from h just in what a rotation at t's top node rewrites. */
  predicate RotationWrites(h: Heap, h': Heap, e: Env, c: Ctx, t: Tree, side: bool)
    requires t.Br? && Child(t, side).Br?
  {
    var y := Child(t, side);
    var inner, t', p := Child(y, !side), Rotated(t, side), Parent(e, c);
    && t.n in h' && h'[t.n] == CellOf(e, Child(t', !side), y.n)
    && y.n in h' && h'[y.n] == CellOf(e, t', p)
    && p in h && p in h' && h'[p] == SetChild(h[p], c.Step? && c.right, y.n)
    && (inner.Br? ==> inner.n in h && inner.n in h' && h'[inner.n] == h[inner.n].(parent := t.n))
    && Same(h, h', Nodes(t) + CtxNodes(c) + {e.nil, e.root} - {t.n, y.n, p, if inner.Br? then inner.n else t.n})
  }

  /** The cells that the pointer writes leave behind. */
  lemma SwingCells(h: Heap, e: Env, x: Node, side: bool)
    requires Rotatable(h, x, side)
    ensures var y := Kid(h[x], side); var p, inner := h[x].parent, Kid(h[y], !side);
      var h' := Swing(h, e, x, side);
      && h'.Keys == h.Keys
      && h'[x] == SetChild(h[x], side, inner).(parent := y)
      && h'[y] == SetChild(h[y], !side, x).(parent := p)
      && h'[p] == SetChild(h[p], x != h[p].left, y)
      && (inner != e.nil ==> h'[inner] == h[inner].(parent := x))
      && forall n {:trigger h'[n]} :: n in h && n !in {x, y} ==> h'[n].maxHigh == h[n].maxHigh
  {
    var y := Kid(h[x], side);
    var p, inner := h[x].parent, Kid(h[y], !side);
    var h1 := h[x := SetChild(h[x], side, inner)];
    var h2 := Adopt(h1, e, inner, x);
    assert h2[x] == h1[x] && h2[y] == h[y] && h2[p] == h[p];
    var h3 := h2[y := h2[y].(parent := p)];
    var h4 := Redirect(h3, p, x, y);
    assert h4[x] == h1[x] && h4[y] == h3[y];
  }

  /** The cells that a rotation leaves behind. */
  lemma RotateLinksCells(h: Heap, e: Env, x: Node, side: bool)
    requires Rotatable(h, x, side) && e.nil !in {x, Kid(h[x], side), h[x].parent}
    ensures var y := Kid(h[x], side); var p, other := h[x].parent, Kid(h[x], !side);
      var inner, outer := Kid(h[y], !side), Kid(h[y], side);
      var xm := Max3(x, h[inner].maxHigh, h[other].maxHigh);
      var h' := RotateLinks(h, e, x, side);
      && h'.Keys == h.Keys
      && h'[x] == SetChild(h[x], side, inner).(parent := y, maxHigh := xm)
      && h'[y] == SetChild(h[y], !side, x).(parent := p, maxHigh := Max3(y, xm, h[outer].maxHigh))
      && h'[p] == SetChild(h[p], x != h[p].left, y)
      && (inner != e.nil ==> h'[inner] == h[inner].(parent := x))
  {
    SwingCells(h, e, x, side);
    var h' := Swing(h, e, x, side);
    var y := Kid(h[x], side);
    assert h'[Kid(h[x], !side)].maxHigh == h[Kid(h[x], !side)].maxHigh;
    assert h'[Kid(h[y], side)].maxHigh == h[Kid(h[y], side)].maxHigh;
    assert h'[Kid(h[y], !side)].maxHigh == h[Kid(h[y], !side)].maxHigh;
  }

  lemma RotateLinksFrame(h: Heap, e: Env, x: Node, side: bool)
    requires Rotatable(h, x, side)
    ensures var y, p := Kid(h[x], side), h[x].parent; var inner := Kid(h[y], !side);
      Same(h, RotateLinks(h, e, x, side), h.Keys - {x, y, p, if inner != e.nil then inner else x})
  {
  }

  lemma RotationCells(h: Heap, e: Env, c: Ctx, t: Tree, side: bool)
    requires t.Br? && Child(t, side).Br? && At(h, e, c, t) && Rotatable(h, t.n, side)
    ensures RotationWrites(h, RotateLinks(h, e, t.n, side), e, c, t, side)
  {
    Look(h, e, c, t);
    var y := Child(t, side);
    LookChild(h, e, c, t, !side);
    MoveDown(h, e, c, t, side);
    Look(h, e, Into(c, t, side), y);
    LookChild(h, e, Into(c, t, side), y, side);
    LookChild(h, e, Into(c, t, side), y, !side);
    RotateLinksCells(h, e, t.n, side);
    RotateLinksFrame(h, e, t.n, side);
  }

  lemma RotationRep(h: Heap, h': Heap, e: Env, c: Ctx, t: Tree, side: bool)
    requires t.Br? && Child(t, side).Br? && At(h, e, c, t)
    requires RotationWrites(h, h', e, c, t, side)
    ensures At(h', e, c, Rotated(t, side))
  {
    var y := Child(t, side);
    RotatedApart(e, c, t, side);
    RotatedParts(h, h', e, c, t, side);
    RotatedAround(h, h', e, c, t, side);
    Rehang(h, h', e, c, t.n, y.n);
    assert Rep(h', e, Child(Rotated(t, side), !side), y.n);
  }

  /** Around the subtree only the link to its top node changes. */
  lemma RotatedAround(h: Heap, h': Heap, e: Env, c: Ctx, t: Tree, side: bool)
    requires t.Br? && Child(t, side).Br? && At(h, e, c, t)
    requires RotationWrites(h, h', e, c, t, side)
    ensures Same(h, h', CtxNodes(c) + {e.root} - {Parent(e, c)})
  {
    var y := Child(t, side);
    var inner := Child(y, !side);
    assert Nodes(y) == {y.n} + Nodes(inner) + Nodes(Child(y, side)) &&
      Nodes(t) == {t.n} + Nodes(y) + Nodes(Child(t, !side));
    assert {t.n, y.n, if inner.Br? then inner.n else t.n} <= Nodes(t);
  }

  /** The three subtrees that a rotation regroups keep their shape. */
  lemma RotatedParts(h: Heap, h': Heap, e: Env, c: Ctx, t: Tree, side: bool)
    requires t.Br? && Child(t, side).Br? && At(h, e, c, t)
    requires RotationWrites(h, h', e, c, t, side)
    ensures var y, other := Child(t, side), Child(t, !side);
      Rep(h', e, Child(y, !side), t.n) && Rep(h', e, Child(y, side), y.n) && Rep(h', e, other, t.n)
  {
    var y, other := Child(t, side), Child(t, !side);
    var inner, outer := Child(y, !side), Child(y, side);
    assert Rep(h, e, y, t.n) && Distinct(y) && Distinct(other);
    assert Rep(h, e, inner, y.n) && Rep(h, e, outer, y.n) && Distinct(inner);
    assert Nodes(y) == {y.n} + Nodes(inner) + Nodes(outer) && Nodes(t) == {t.n} + Nodes(y) + Nodes(other);
    Reparent(h, h', e, inner, y.n, t.n);
    FrameTree(h, h', e, outer, y.n);
    FrameTree(h, h', e, other, t.n);
  }

  /** Linking z, both ways, to its parent-to-be y; the sentinel's only child is its left one. */
  function HangLinks(h: Heap, e: Env, y: Node, z: Node): Heap
    requires y in h && z in h
  {
    var h := h[z := h[z].(parent := y)];
    h[y := SetChild(h[y], !(y == e.root || y.key > z.key), z)]
  }

  /** Hanging a new, childless node into an empty hole. */
  lemma HangAt(h: Heap, e: Env, c: Ctx, z: Node)
    requires At(h, e, c, Leaf) && z !in CtxNodes(c) + {e.nil, e.root}
    requires z in h && h[z].left == h[z].right == e.nil
    requires AllUpTo(Before(c), z.key) && AllAbove(After(c), z.key)
    ensures Parent(e, c) in h
    ensures At(HangLinks(h, e, Parent(e, c), z), e, c, Br(z, h[z].red, h[z].maxHigh, Leaf, Leaf))
  {
    Look(h, e, c, Leaf);
    assert c.Step? && c.right ==> c.n in Before(c);
    assert c.Step? && !c.right ==> c.n in After(c);
    Rehang(h, HangLinks(h, e, Parent(e, c), z), e, c, e.nil, z);
  }
}
