/** Rebalancing after a deletion, first on trees, then on the pointers. */
module IntervalRemoval {
  import opened IntervalNodes
  import opened IntervalShape
  import opened IntervalHeap
  import opened IntervalBalance

  /** The subtree in view is one black node short; its top may moreover be red below a red parent
      or above a red child, as it is about to be painted black. */
  predicate Deleting(c: Ctx, t: Tree) {
    RedBlack(Painted(t, false)) && CtxRedBlack(c, BlackHeight(t) + 1) && Augmented(c, t)
  }

  /** Painting a red node in view, or reaching the top, repairs the shortage. */
  lemma DeletingDone(c: Ctx, t: Tree)
    requires Deleting(c, t) && (Red(t) || c.Top?)
    ensures Coloured(c, Painted(t, false)) && Augmented(c, Painted(t, false))
  {
  }

  lemma SiblingExists(c: Ctx, t: Tree)
    requires Deleting(c, t) && !Red(t) && c.Step?
    ensures c.sib.Br? && BlackHeight(c.sib) == BlackHeight(t) + 1 && RedBlack(c.sib) && RedBlack(t)
    ensures Red(c.sib) ==> !c.red && c.sib.l.Br? && c.sib.r.Br?
  {
  }

  function Near(c: Ctx): Tree
    requires c.Step? && c.sib.Br?
  {
    Child(c.sib, c.right)
  }

  function Far(c: Ctx): Tree
    requires c.Step? && c.sib.Br?
  {
    Child(c.sib, !c.right)
  }

  /** First case, red sibling: it turns black, the parent red, and the parent is rotated down. */
  function RedSiblingTree(c: Ctx, t: Tree): Tree
    requires c.Step? && c.sib.Br?
  {
    Rotated(Mk(c.right, c.n, true, c.mh, t, c.sib.(red := false)), !c.right)
  }

  function RedSiblingCtx(c: Ctx, t: Tree): Ctx
    requires c.Step? && c.sib.Br?
  {
    var top := RedSiblingTree(c, t);
    Into(Into(c.up, top, c.right), Child(top, c.right), c.right)
  }

  lemma RedSiblingOk(c: Ctx, t: Tree)
    requires Deleting(c, t) && !Red(t) && c.Step? && Red(c.sib)
    ensures c.sib.Br?
    ensures var c' := RedSiblingCtx(c, t);
      && Deleting(c', t) && c'.n == c.n && c'.red && c'.right == c.right && !Red(c'.sib) && c'.sib.Br?
      && Contents(c', t) == Contents(c, t)
      && Child(Child(RedSiblingTree(c, t), c.right), c.right) == t
  {
    SiblingExists(c, t);
    var p := Mk(c.right, c.n, true, c.mh, t, c.sib.(red := false));
    assert MaxOk(c.sib.(red := false)) && MaxOk(p);
    RotatedInorder(p, !c.right);
    RotatedMax(p, !c.right);
    var c' := RedSiblingCtx(c, t);
    var top := RedSiblingTree(c, t);
    assert RedBlack(Near(c)) && RedBlack(Far(c)) && BlackHeight(Near(c)) == BlackHeight(Far(c)) == BlackHeight(t) + 1;
    assert CtxRedBlack(c'.up, BlackHeight(t) + 1);
    assert MaxOk(Child(top, c.right)) && MaxOk(c'.sib) && MaxOk(c'.up.sib) && CtxMaxOk(c'.up, Child(top, c.right).mh);
    ContentsUp(c.(sib := c.sib.(red := false)), t, true, c.mh);
    ContentsUp(c', t, c'.red, c'.mh);
    ContentsUp(c'.up, Mk(c'.right, c'.n, c'.red, c'.mh, t, c'.sib), c'.up.red, c'.up.mh);
  }

  /** Second case, no red nephew: the sibling turns red and the shortage moves up. */
  function BlackNephewsTree(c: Ctx, t: Tree): Tree
    requires c.Step? && c.sib.Br?
  {
    Mk(c.right, c.n, c.red, c.mh, t, c.sib.(red := true))
  }

  lemma BlackNephewsOk(c: Ctx, t: Tree)
    requires Deleting(c, t) && !Red(t) && c.Step? && !Red(c.sib) && c.sib.Br? && !Red(c.sib.l) && !Red(c.sib.r)
    ensures Deleting(c.up, BlackNephewsTree(c, t))
    ensures Contents(c.up, BlackNephewsTree(c, t)) == Contents(c, t)
  {
    SiblingExists(c, t);
    var w := c.sib.(red := true);
    assert RedBlack(w) && BlackHeight(w) == BlackHeight(t) && MaxOk(w);
    ContentsUp(c.(sib := w), t, c.red, c.mh);
  }

  /** Third case, red near nephew: it turns black, the sibling red, and the sibling is rotated down. */
  function NearNephewCtx(c: Ctx): Ctx
    requires c.Step? && c.sib.Br? && Near(c).Br?
  {
    c.(sib := Rotated(Mk(c.right, c.sib.n, true, c.sib.mh, Near(c).(red := false), Far(c)), c.right))
  }

  lemma NearNephewOk(c: Ctx, t: Tree)
    requires Deleting(c, t) && !Red(t) && c.Step? && !Red(c.sib) && c.sib.Br? && Red(Near(c)) && !Red(Far(c))
    ensures var c' := NearNephewCtx(c);
      && Deleting(c', t) && !Red(c'.sib) && c'.sib.Br? && Red(Far(c'))
      && Contents(c', t) == Contents(c, t)
  {
    SiblingExists(c, t);
    var near := Near(c).(red := false);
    assert RedBlack(Near(c)) && MaxOk(Near(c)) && RedBlack(Far(c)) && MaxOk(Far(c));
    assert RedBlack(near) && MaxOk(near);
    var w := Mk(c.right, c.sib.n, true, c.sib.mh, near, Far(c));
    assert MaxOk(w) && Inorder(w) == Inorder(c.sib);
    RotatedInorder(w, c.right);
    RotatedMax(w, c.right);
    var w' := Rotated(w, c.right);
    assert RedBlack(near.l) && RedBlack(near.r) && RedBlack(Child(w', !c.right));
    assert RedBlack(w') && BlackHeight(w') == BlackHeight(t) + 1;
  }

  /** Fourth case, red far nephew: the sibling takes the parent's colour, parent and nephew turn
      black, and the parent is rotated down; the shortage is gone. */
  function FarNephewTree(c: Ctx, t: Tree): Tree
    requires c.Step? && c.sib.Br? && Far(c).Br?
  {
    var w := Mk(!c.right, c.sib.n, c.red, c.sib.mh, Far(c).(red := false), Near(c));
    Rotated(Mk(c.right, c.n, false, c.mh, t, w), !c.right)
  }

  lemma FarNephewOk(c: Ctx, t: Tree)
    requires Deleting(c, t) && !Red(t) && c.Step? && !Red(c.sib) && c.sib.Br? && Red(Far(c))
    ensures var t' := FarNephewTree(c, t);
      && Coloured(c.up, t') && Augmented(c.up, t') && Contents(c.up, t') == Contents(c, t)
  {
    FarColoured(c, t);
    var w := FarPainted(c, t);
    var p := Mk(c.right, c.n, false, c.mh, t, w);
    ContentsUp(c.(sib := w), t, false, c.mh);
    RotatedInorder(p, !c.right);
    RotatedMax(p, !c.right);
  }

  lemma FarColoured(c: Ctx, t: Tree)
    requires Deleting(c, t) && !Red(t) && c.Step? && !Red(c.sib) && c.sib.Br? && Red(Far(c))
    ensures Coloured(c.up, FarNephewTree(c, t))
  {
    SiblingExists(c, t);
    var w := FarPainted(c, t);
  }

  /** The sibling with its far child black and in its parent's colour. */
  lemma FarPainted(c: Ctx, t: Tree) returns (w: Tree)
    requires Deleting(c, t) && c.Step? && c.sib.Br? && Red(Far(c))
    ensures var far := Far(c).(red := false);
      && w == Mk(!c.right, c.sib.n, c.red, c.sib.mh, far, Near(c))
      && RedBlack(far) && MaxOk(far) && RedBlack(Near(c)) && MaxOk(Near(c)) && MaxOk(w) && Inorder(w) == Inorder(c.sib)
  {
    var far := Far(c).(red := false);
    assert RedBlack(Near(c)) && MaxOk(Near(c)) && RedBlack(Far(c)) && MaxOk(Far(c));
    w := Mk(!c.right, c.sib.n, c.red, c.sib.mh, far, Near(c));
  }

  // ---------- the same steps on the pointers ----------

  /** The node in view points up to its parent even when it is nil. */
  predicate Linked(h: Heap, e: Env, c: Ctx, t: Tree) {
    Root(e, t) in h && h[Root(e, t)].parent == Parent(e, c)
  }

  lemma RedSiblingAt(h: Heap, e: Env, c: Ctx, t: Tree)
    requires At(h, e, c, t) && Linked(h, e, c, t) && c.Step? && c.sib.Br? && Near(c).Br?
    ensures var h2 := SetRedIn(SetRedIn(h, c.sib.n, false), c.n, true);
      var h3 := if Rotatable(h2, c.n, !c.right) then RotateLinks(h2, e, c.n, !c.right) else h2;
      && Rotatable(h2, c.n, !c.right)
      && Child(Child(RedSiblingTree(c, t), c.right), c.right) == t
      && At(h3, e, RedSiblingCtx(c, t), t) && Linked(h3, e, RedSiblingCtx(c, t), t)
  {
    var h1 := SetRedIn(h, c.sib.n, false);
    var h2 := SetRedIn(h1, c.n, true);
    PaintSibling(h, e, c, t, false);
    var c1 := c.(sib := c.sib.(red := false));
    PaintParent(h1, e, c1, t, true);
    var c2 := c1.(red := true);
    var p := Mk(c.right, c.n, true, c.mh, t, c2.sib);
    MoveUp(h2, e, c2, t);
    RotateAt(h2, e, c.up, p, !c.right);
    var h3 := RotateLinks(h2, e, c.n, !c.right);
    var top := Rotated(p, !c.right);
    MoveDown(h3, e, c.up, top, c.right);
    MoveDown(h3, e, Into(c.up, top, c.right), Child(top, c.right), c.right);
    Look(h3, e, RedSiblingCtx(c, t), t);
  }

  lemma BlackNephewsAt(h: Heap, e: Env, c: Ctx, t: Tree)
    requires At(h, e, c, t) && c.Step? && c.sib.Br?
    ensures var h1 := SetRedIn(h, c.sib.n, true);
      At(h1, e, c.up, BlackNephewsTree(c, t)) && Linked(h1, e, c.up, BlackNephewsTree(c, t))
  {
    PaintSibling(h, e, c, t, true);
    var h1 := SetRedIn(h, c.sib.n, true);
    MoveUp(h1, e, c.(sib := c.sib.(red := true)), t);
    Look(h1, e, c.up, BlackNephewsTree(c, t));
  }

  lemma NearNephewAt(h: Heap, e: Env, c: Ctx, t: Tree)
    requires At(h, e, c, t) && Linked(h, e, c, t) && c.Step? && c.sib.Br? && Near(c).Br?
    ensures var h2 := SetRedIn(SetRedIn(h, Near(c).n, false), c.sib.n, true);
      var h3 := if Rotatable(h2, c.sib.n, c.right) then RotateLinks(h2, e, c.sib.n, c.right) else h2;
      && Rotatable(h2, c.sib.n, c.right)
      && At(h3, e, NearNephewCtx(c), t) && Linked(h3, e, NearNephewCtx(c), t)
  {
    var near := Near(c).(red := false);
    var h1 := SetRedIn(h, near.n, false);
    var h2 := SetRedIn(h1, c.sib.n, true);
    PaintNephew(h, e, c, t, c.right, false);
    var c1 := c.(sib := SetKid(c.sib, c.right, near));
    PaintSibling(h1, e, c1, t, true);
    var w := Mk(c.right, c.sib.n, true, c.sib.mh, near, Far(c));
    assert c1.sib.(red := true) == w;
    var c2 := c.(sib := w);
    MoveAcross(h2, e, c2, t);
    RotateAt(h2, e, Across(c2, t), w, c.right);
    var h3 := RotateLinks(h2, e, c.sib.n, c.right);
    MoveAcross(h3, e, NearNephewCtx(c), t);
    Look(h3, e, NearNephewCtx(c), t);
  }

  lemma FarNephewAt(h: Heap, e: Env, c: Ctx, t: Tree)
    requires At(h, e, c, t) && c.Step? && c.sib.Br? && Far(c).Br?
    ensures var h3 := SetRedIn(SetRedIn(SetRedIn(h, c.sib.n, c.red), c.n, false), Far(c).n, false);
      && Rotatable(h3, c.n, !c.right)
      && At(RotateLinks(h3, e, c.n, !c.right), e, c.up, FarNephewTree(c, t))
  {
    var far := Far(c).(red := false);
    var h1 := SetRedIn(h, c.sib.n, c.red);
    var h2 := SetRedIn(h1, c.n, false);
    var h3 := SetRedIn(h2, far.n, false);
    PaintSibling(h, e, c, t, c.red);
    var c1 := c.(sib := c.sib.(red := c.red));
    PaintParent(h1, e, c1, t, false);
    var c2 := c1.(red := false);
    PaintNephew(h2, e, c2, t, !c.right, false);
    var w := Mk(!c.right, c.sib.n, c.red, c.sib.mh, far, Near(c));
    var c3 := c2.(sib := SetKid(c2.sib, !c.right, far));
    assert c3.sib == w;
    var p := Mk(c.right, c.n, false, c.mh, t, w);
    MoveUp(h3, e, c3, t);
    RotateAt(h3, e, c.up, p, !c.right);
  }

  /** What the code sees when it looks from a node to its parent, sibling and nephews. */
  lemma LookAround(h: Heap, e: Env, c: Ctx, t: Tree)
    requires At(h, e, c, t) && c.Step? && c.sib.Br?
    ensures c.n in h && h[c.n].red == c.red && h[c.n].parent == Parent(e, c.up)
    ensures (h[c.n].left == Root(e, t) <==> !c.right) && (h[c.n].right == Root(e, t) <==> c.right)
    ensures Kid(h[c.n], !c.right) == c.sib.n && c.sib.n in h && h[c.sib.n].red == c.sib.red
    ensures Kid(h[c.sib.n], c.right) == Root(e, Near(c)) && Root(e, Near(c)) in h &&
      h[Root(e, Near(c))].red == Red(Near(c))
    ensures Kid(h[c.sib.n], !c.right) == Root(e, Far(c)) && Root(e, Far(c)) in h &&
      h[Root(e, Far(c))].red == Red(Far(c))
  {
    Look(h, e, c, t);
    MoveAcross(h, e, c, t);
    Look(h, e, Across(c, t), c.sib);
    LookChild(h, e, Across(c, t), c.sib, true);
    LookChild(h, e, Across(c, t), c.sib, false);
  }

  /** The top node of the tree around a hole that is not at the top. */
  function TopOf(c: Ctx): Node
    requires c.Step?
  {
    if c.up.Top? then c.n else TopOf(c.up)
  }

  function TopNode(e: Env, c: Ctx, t: Tree): Node {
    if c.Top? then Root(e, t) else TopOf(c)
  }

  lemma {:induction false} TopIsRootLeft(h: Heap, e: Env, c: Ctx, t: Tree)
    requires At(h, e, c, t)
    ensures h[e.root].left == TopNode(e, c, t)
    ensures c.Step? ==> TopOf(c) in CtxNodes(c) && TopOf(c) != Root(e, t)
  {
    if c.Step? {
      MoveUp(h, e, c, t);
      TopIsRootLeft(h, e, c.up, Mk(c.right, c.n, c.red, c.mh, t, c.sib));
    }
  }

  lemma {:induction false} TopIsBlack(h: Heap, e: Env, c: Ctx, t: Tree, k: nat)
    requires At(h, e, c, t) && CtxRedBlack(c, k) && c.Step?
    ensures TopOf(c) in h && !h[TopOf(c)].red
  {
    if c.up.Step? {
      MoveUp(h, e, c, t);
      TopIsBlack(h, e, c.up, Mk(c.right, c.n, c.red, c.mh, t, c.sib), if c.red then k else k + 1);
    } else {
      Look(h, e, c, t);
    }
  }

  /** What is known of the cached top node once the sibling is black: the parent may just have been
      rotated away from the top. */
  predicate Cached(c: Ctx, rootLeft: Node)
    requires c.Step?
  {
    && (rootLeft == c.n || (c.up.Step? && rootLeft == TopOf(c.up)))
    && (!c.red ==> rootLeft == TopOf(c))
  }

  /** The cached top node may have been rotated away, but then it is black, so that painting it
      black once more does nothing. */
  lemma CachedTopIsBlack(h: Heap, e: Env, c: Ctx, t: Tree)
    requires c.Step? && c.sib.Br? && Far(c).Br? && At(h, e, c.up, FarNephewTree(c, t)) &&
      Coloured(c.up, FarNephewTree(c, t))
    ensures c.n in h && !h[c.n].red
    ensures c.up.Step? ==> TopOf(c.up) in h && !h[TopOf(c.up)].red
  {
    var t' := FarNephewTree(c, t);
    MoveDown(h, e, c.up, t', c.right);
    Look(h, e, Into(c.up, t', c.right), Child(t', c.right));
    if c.up.Step? {
      TopIsBlack(h, e, c.up, t', BlackHeight(t'));
    }
  }

  /** The loop of deleteFixup has to go on at x, unless x is red or the top. */
  predicate OpenState(h: Heap, e: Env, x: Node, rootLeft: Node, c: Ctx, t: Tree) {
    Deleting(c, t) && Linked(h, e, c, t) && x == Root(e, t) && (!Red(t) ==> rootLeft == TopNode(e, c, t))
  }

  /** The loop has repaired everything and jumped to the node it takes for the top. */
  predicate ClosedState(h: Heap, e: Env, x: Node, rootLeft: Node, c: Ctx, t: Tree) {
    Coloured(c, t) && Augmented(c, t) && x == rootLeft && x in h && !h[x].red
  }

  lemma OpenLook(h: Heap, e: Env, x: Node, rootLeft: Node, c: Ctx, t: Tree)
    requires At(h, e, c, t) && OpenState(h, e, x, rootLeft, c, t)
    ensures x in h && h[x].red == Red(t)
    ensures !Red(t) && c.Step? ==> rootLeft != x
    ensures !Red(t) && c.Top? ==> rootLeft == x
  {
    Look(h, e, c, t);
    TopIsRootLeft(h, e, c, t);
  }

  /** Painting x black after the loop completes the deletion. */
  lemma FixupEnd(h: Heap, e: Env, x: Node, rootLeft: Node, c: Ctx, t: Tree, done: bool) returns (all: Tree)
    requires At(h, e, c, t) && x in h && (h[x].red || rootLeft == x)
    requires if done then ClosedState(h, e, x, rootLeft, c, t) else OpenState(h, e, x, rootLeft, c, t)
    ensures At(SetRedIn(h, x, false), e, Top, all)
    ensures Coloured(Top, all) && Augmented(Top, all) && Inorder(all) == Contents(c, t)
  {
    var t' := if done then t else Painted(t, false);
    if done {
      assert SetRedIn(h, x, false) == h;
    } else {
      OpenLook(h, e, x, rootLeft, c, t);
      DeletingDone(c, t);
      if t.Br? {
        PaintHere(h, e, c, t, false);
      } else {
        assert SetRedIn(h, x, false) == h;
      }
    }
    AtPlug(SetRedIn(h, x, false), e, c, t');
    ColouredPlug(c, t');
    AugmentedPlug(c, t');
    PlugInorder(c, t');
    all := Plug(c, t');
  }
}
