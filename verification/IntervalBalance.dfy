/** Rebalancing after an insertion and after a deletion, on trees without pointers. */
module IntervalBalance {
  import opened IntervalNodes
  import opened IntervalShape
  import opened IntervalHeap

  /** The whole list of nodes, seen from a subtree. */
  function Contents(c: Ctx, t: Tree): seq<Node> {
    Before(c) + Inorder(t) + After(c)
  }

  /** Colours and maxima play no part in the contents. */
  lemma ContentsUp(c: Ctx, t: Tree, red: bool, mh: SimTime)
    requires c.Step?
    ensures Contents(c.up, Mk(c.right, c.n, red, mh, t, c.sib)) == Contents(c, t)
  {
  }

  function Painted(t: Tree, red: bool): Tree {
    if t.Br? then t.(red := red) else t
  }

  // ---------- insertion ----------

  /** All is well except that the red node in view may have a red parent. */
  predicate Inserting(c: Ctx, t: Tree) {
    Red(t) && RedBlack(t) && CtxRedBlack(c, BlackHeight(t)) && Augmented(c, t)
  }

  /** A new red leaf with the maxima above it recomputed. */
  lemma InsertingStart(c: Ctx, z: Node)
    requires Coloured(Top, Plug(c, Leaf)) && Augmented(Top, Plug(c, Leaf))
    ensures Inserting(FixMax(c, z.high), Br(z, true, z.high, Leaf, Leaf))
    ensures Contents(FixMax(c, z.high), Br(z, true, z.high, Leaf, Leaf)) == Before(c) + [z] + After(c)
  {
    ColouredPlug(c, Leaf);
    AugmentedPlug(c, Leaf);
    FixMaxKeeps(c, z.high);
    assert Inorder(Br(z, true, z.high, Leaf, Leaf)) == [z];
  }

  lemma InsertedNodes(was: Tree, all: Tree, a: seq<Node>, z: Node, b: seq<Node>)
    requires Inorder(was) == a + b && Inorder(all) == a + [z] + b
    ensures Nodes(all) == Nodes(was) + {z}
  {
    InorderNodes(all);
    InorderNodes(was);
    assert Elems(a + [z] + b) == Elems(a + b) + {z};
  }

  /** The list after hanging z into the empty spot that the search found. */
  lemma InsertedContents(c: Ctx, z: Node, all: Tree)
    requires Ordered(Inorder(Plug(c, Leaf))) && AllUpTo(Before(c), z.key) && AllAbove(After(c), z.key)
    requires Inorder(all) == Before(c) + [z] + After(c)
    ensures Inorder(all) == InsertSorted(Inorder(Plug(c, Leaf)), z) && Ordered(Inorder(all))
    ensures Nodes(all) == Nodes(Plug(c, Leaf)) + {z}
  {
    var was := Plug(c, Leaf);
    PlugLeafInorder(c);
    InsertedNodes(was, all, Before(c), z, After(c));
    InsertSortedAt(Before(c), z, After(c));
    InsertSortedOrdered(Inorder(was), z);
  }

  /** Once the red node's parent is black, blackening the top completes the insertion. */
  lemma InsertingDone(c: Ctx, t: Tree)
    requires Inserting(c, t) && !ParentRed(c)
    ensures var all := Painted(Plug(c, t), false);
      Plug(c, t).Br? && Coloured(Top, all) && Augmented(Top, all) && Inorder(all) == Contents(c, t)
  {
    PlugInorder(c, t);
    AugmentedPlug(c, t);
    if c.Step? {
      ColouredPlug(c, t);
    }
  }

  /** The whole insertion, from the empty spot of the search to the repainted tree. */
  lemma InsertionResult(c0: Ctx, z: Node, c: Ctx, t: Tree)
    requires var was := Plug(c0, Leaf); Ordered(Inorder(was)) && Storing(was)
    requires AllUpTo(Before(c0), z.key) && AllAbove(After(c0), z.key)
    requires z.stored != null && z.key == z.stored.low && z.high == z.stored.high
    requires Inserting(c, t) && !ParentRed(c) && Contents(c, t) == Before(c0) + [z] + After(c0)
    ensures var all := Painted(Plug(c, t), false);
      && Plug(c, t).Br? && Coloured(Top, all) && Augmented(Top, all) && Ordered(Inorder(all)) && Storing(all)
      && Inorder(all) == InsertSorted(Inorder(Plug(c0, Leaf)), z)
  {
    InsertingDone(c, t);
    InsertedContents(c0, z, Painted(Plug(c, t), false));
  }

  /** A red node with a red parent has a black grandparent. */
  lemma GrandparentBlack(c: Ctx, t: Tree)
    requires Inserting(c, t) && ParentRed(c)
    ensures c.up.Step? && !c.up.red
  {
  }

  function Recoloured(c: Ctx, t: Tree): Tree
    requires c.Step? && c.up.Step?
  {
    var g := c.up;
    Mk(g.right, g.n, true, g.mh, Mk(c.right, c.n, false, c.mh, t, c.sib), Painted(g.sib, false))
  }

  lemma RecolouredOk(c: Ctx, t: Tree)
    requires Inserting(c, t) && ParentRed(c) && c.up.Step? && Red(c.up.sib)
    ensures Inserting(c.up.up, Recoloured(c, t))
    ensures Contents(c.up.up, Recoloured(c, t)) == Contents(c, t)
  {
    assert CtxRedBlack(c.up, BlackHeight(t)) && CtxMaxOk(c.up, c.mh);
    assert RedBlack(c.up.sib) && MaxOk(c.up.sib);
    var p := Mk(c.right, c.n, false, c.mh, t, c.sib);
    assert RedBlack(p) && BlackHeight(p) == BlackHeight(t) + 1 && MaxOk(p);
    var u := Painted(c.up.sib, false);
    assert RedBlack(u) && BlackHeight(u) == BlackHeight(t) + 1 && MaxOk(u);
    ContentsUp(c, t, false, c.mh);
    ContentsUp(c.up.(sib := u), p, true, c.up.mh);
  }

  /** The view after rotating an inner grandchild up: the former parent, now the outer one. */
  function InnerTree(c: Ctx, t: Tree): Tree
    requires c.Step? && t.Br?
  {
    Child(Rotated(Mk(c.right, c.n, c.red, c.mh, t, c.sib), c.right), !c.right)
  }

  function InnerCtx(c: Ctx, t: Tree): Ctx
    requires c.Step? && t.Br?
  {
    Into(c.up, Rotated(Mk(c.right, c.n, c.red, c.mh, t, c.sib), c.right), !c.right)
  }

  lemma InnerOk(c: Ctx, t: Tree)
    requires Inserting(c, t) && ParentRed(c)
    ensures var c', t' := InnerCtx(c, t), InnerTree(c, t);
      && Inserting(c', t') && ParentRed(c') && c'.right == !c.right && c'.up == c.up
      && Contents(c', t') == Contents(c, t)
  {
    var p := Mk(c.right, c.n, c.red, c.mh, t, c.sib);
    RotatedInorder(p, c.right);
    RotatedMax(p, c.right);
    ContentsUp(c, t, c.red, c.mh);
    var c', t' := InnerCtx(c, t), InnerTree(c, t);
    ContentsUp(c', t', c'.red, c'.mh);
  }

  /** The view after the grandparent was rotated down. */
  function OuterCtx(c: Ctx, t: Tree): Ctx
    requires c.Step? && c.up.Step? && c.right == c.up.right
  {
    var g := c.up;
    var gs := Mk(g.right, g.n, true, g.mh, Mk(c.right, c.n, false, c.mh, t, c.sib), g.sib);
    Into(g.up, Rotated(gs, g.right), g.right)
  }

  lemma OuterOk(c: Ctx, t: Tree)
    requires Inserting(c, t) && ParentRed(c) && c.up.Step? && !Red(c.up.sib) && c.right == c.up.right
    ensures Inserting(OuterCtx(c, t), t) && !ParentRed(OuterCtx(c, t))
    ensures Contents(OuterCtx(c, t), t) == Contents(c, t)
    ensures Child(Rotated(Mk(c.up.right, c.up.n, true, c.up.mh, Mk(c.right, c.n, false, c.mh, t, c.sib), c.up.sib),
      c.up.right), c.up.right) == t
  {
    var g := c.up;
    assert CtxRedBlack(g, BlackHeight(t)) && CtxMaxOk(g, c.mh);
    assert RedBlack(g.sib) && MaxOk(g.sib) && CtxRedBlack(g.up, BlackHeight(t) + 1);
    var p := Mk(c.right, c.n, false, c.mh, t, c.sib);
    var gs := Mk(g.right, g.n, true, g.mh, p, g.sib);
    assert MaxOk(p);
    RotatedInorder(gs, g.right);
    RotatedMax(gs, g.right);
    ContentsUp(c, t, false, c.mh);
    ContentsUp(g, p, true, g.mh);
    ContentsUp(OuterCtx(c, t), t, OuterCtx(c, t).red, OuterCtx(c, t).mh);
  }

  // ---------- the same steps on the pointers ----------

  lemma RecolourAt(h: Heap, e: Env, c: Ctx, t: Tree)
    requires At(h, e, c, t) && c.Step? && c.up.Step? && c.up.sib.Br?
    ensures var h1 := SetRedIn(h, c.n, false); var h2 := SetRedIn(h1, c.up.sib.n, false);
      var h3 := SetRedIn(h2, c.up.n, true);
      At(h3, e, c.up.up, Recoloured(c, t))
  {
    var h1 := SetRedIn(h, c.n, false);
    var h2 := SetRedIn(h1, c.up.sib.n, false);
    PaintParent(h, e, c, t, false);
    var c1 := c.(red := false);
    PaintUncle(h1, e, c1, t, false);
    var c2 := c1.(up := c.up.(sib := Painted(c.up.sib, false)));
    PaintGrandparent(h2, e, c2, t, true);
    var c3 := c2.(up := c2.up.(red := true));
    var h3 := SetRedIn(h2, c.up.n, true);
    MoveUp(h3, e, c3, t);
    MoveUp(h3, e, c3.up, Mk(c.right, c.n, false, c.mh, t, c.sib));
  }

  lemma InnerAt(h: Heap, e: Env, c: Ctx, t: Tree)
    requires At(h, e, c, t) && c.Step? && t.Br?
    ensures Rotatable(h, c.n, c.right)
    ensures At(RotateLinks(h, e, c.n, c.right), e, InnerCtx(c, t), InnerTree(c, t))
  {
    var p := Mk(c.right, c.n, c.red, c.mh, t, c.sib);
    MoveUp(h, e, c, t);
    RotateAt(h, e, c.up, p, c.right);
    MoveDown(RotateLinks(h, e, c.n, c.right), e, c.up, Rotated(p, c.right), !c.right);
  }

  lemma OuterAt(h: Heap, e: Env, c: Ctx, t: Tree)
    requires At(h, e, c, t) && c.Step? && c.up.Step? && c.right == c.up.right && t.Br?
    ensures var h2 := SetRedIn(SetRedIn(h, c.n, false), c.up.n, true);
      && Rotatable(h2, c.up.n, c.up.right)
      && At(RotateLinks(h2, e, c.up.n, c.up.right), e, OuterCtx(c, t), t)
  {
    var h1 := SetRedIn(h, c.n, false);
    var h2 := SetRedIn(h1, c.up.n, true);
    PaintParent(h, e, c, t, false);
    PaintGrandparent(h1, e, c.(red := false), t, true);
    var c2 := c.(red := false, up := c.up.(red := true));
    var p := Mk(c.right, c.n, false, c.mh, t, c.sib);
    var g := Mk(c.up.right, c.up.n, true, c.up.mh, p, c.up.sib);
    MoveUp(h2, e, c2, t);
    MoveUp(h2, e, c2.up, p);
    RotateAt(h2, e, c.up.up, g, c.up.right);
    MoveDown(RotateLinks(h2, e, c.up.n, c.up.right), e, c.up.up, Rotated(g, c.up.right), c.up.right);
  }

  /** What the code sees when it looks from a node to its parent, grandparent and uncle. */
  lemma LookUp(h: Heap, e: Env, c: Ctx, t: Tree)
    requires At(h, e, c, t) && t.Br?
    ensures t.n in h && h[t.n].parent == Parent(e, c) && Parent(e, c) in h && h[Parent(e, c)].red == ParentRed(c)
    ensures c.Step? && c.up.Step? ==>
      && h[c.n].parent == c.up.n && c.up.n in h
      && (h[c.n].left == t.n <==> !c.right) && (h[c.n].right == t.n <==> c.right)
      && (h[c.up.n].left == c.n <==> !c.up.right)
      && Kid(h[c.up.n], !c.up.right) == Root(e, c.up.sib)
      && Root(e, c.up.sib) in h && h[Root(e, c.up.sib)].red == Red(c.up.sib)
  {
    Look(h, e, c, t);
    if c.Step? && c.up.Step? {
      var p := Mk(c.right, c.n, c.red, c.mh, t, c.sib);
      var g := Mk(c.up.right, c.up.n, c.up.red, c.up.mh, p, c.up.sib);
      MoveUp(h, e, c, t);
      Look(h, e, c.up, p);
      MoveUp(h, e, c.up, p);
      LookChild(h, e, c.up.up, g, !c.up.right);
    }
  }
}
