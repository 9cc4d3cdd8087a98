/** Taking one node out of the tree: splicing a node with at most one child out, and putting the
    spliced node into the place of another one. */
module IntervalSplice {
  import opened IntervalNodes
  import opened IntervalShape
  import opened IntervalHeap
  import opened IntervalBalance
  import opened IntervalRemoval

  // ---------- contexts inside contexts ----------

  /** The context of a hole in `inner` when `inner` itself sits in `outer`. */
  function Over(inner: Ctx, outer: Ctx): Ctx {
    match inner
    case Top => outer
    case Step(d, n, red, mh, sib, up) => Step(d, n, red, mh, sib, Over(up, outer))
  }

  lemma {:induction false} AtOver(h: Heap, e: Env, inner: Ctx, outer: Ctx, t: Tree)
    ensures At(h, e, Over(inner, outer), t) <==> At(h, e, outer, Plug(inner, t))
    ensures Plug(Over(inner, outer), t) == Plug(outer, Plug(inner, t))
  {
    if inner.Step? {
      MoveUp(h, e, Over(inner, outer), t);
      AtOver(h, e, inner.up, outer, Mk(inner.right, inner.n, inner.red, inner.mh, t, inner.sib));
    }
  }

  lemma {:induction false} OverContents(inner: Ctx, outer: Ctx)
    ensures Before(Over(inner, outer)) == Before(outer) + Before(inner)
    ensures After(Over(inner, outer)) == After(inner) + After(outer)
  {
    if inner.Step? {
      OverContents(inner.up, outer);
    }
  }

  /** Colours and siblings are all that matters for the invariants of a context. */
  lemma {:induction false} OverAlike(inner: Ctx, a: Ctx, b: Ctx)
    requires a.Step? && b.Step? && a.red == b.red && a.up == b.up && a.sib == b.sib
    ensures forall k :: CtxRedBlack(Over(inner, a), k) <==> CtxRedBlack(Over(inner, b), k)
    ensures SiblingsMaxOk(Over(inner, a)) <==> SiblingsMaxOk(Over(inner, b))
    ensures Over(inner, a).Step? && Over(inner, b).Step? && Over(inner, a).red == Over(inner, b).red
  {
    if inner.Step? {
      OverAlike(inner.up, a, b);
    }
  }

  /** Where in the tree a node is. */
  lemma {:induction false} Locate(t0: Tree, z: Node) returns (c: Ctx, t: Tree)
    requires z in Nodes(t0)
    ensures t.Br? && t.n == z && Plug(c, t) == t0
  {
    if t0.n == z {
      c, t := Top, t0;
    } else {
      var side := z in Nodes(t0.r);
      var c1;
      c1, t := Locate(Child(t0, side), z);
      c := Over(c1, Into(Top, t0, side));
      PlugOver(c1, Into(Top, t0, side), t);
    }
  }

  lemma {:induction false} PlugOver(inner: Ctx, outer: Ctx, t: Tree)
    ensures Plug(Over(inner, outer), t) == Plug(outer, Plug(inner, t))
  {
    if inner.Step? {
      PlugOver(inner.up, outer, Mk(inner.right, inner.n, inner.red, inner.mh, t, inner.sib));
    }
  }

  // ---------- the list without one node ----------

  function Without(s: seq<Node>, z: Node): seq<Node> {
    if s == [] then [] else if s[0] == z then s[1..] else [s[0]] + Without(s[1..], z)
  }

  lemma {:induction false} WithoutAt(a: seq<Node>, z: Node, b: seq<Node>)
    requires z !in a
    ensures Without(a + [z] + b, z) == a + b
  {
    if a == [] {
      assert [] + [z] + b == [z] + b && [] + b == b;
    } else {
      assert a[0] in a && forall n :: n in a[1..] ==> n in a;
      WithoutAt(a[1..], z, b);
      assert (a + [z] + b)[1..] == a[1..] + [z] + b;
      assert a + b == [a[0]] + (a[1..] + b);
    }
  }

  lemma WithoutOrdered(a: seq<Node>, z: Node, b: seq<Node>)
    requires Ordered(a + [z] + b)
    ensures Ordered(a + b)
  {
    var s := a + [z] + b;
    forall i, j | 0 <= i < j < |a + b|
      ensures (a + b)[i].key <= (a + b)[j].key
    {
      var i', j' := if i < |a| then i else i + 1, if j < |a| then j else j + 1;
      assert s[i'] == (a + b)[i] && s[j'] == (a + b)[j];
    }
  }

  // ---------- splicing ----------

  /** The only child of a node that has at most one. */
  function OnlyChild(t: Tree): Tree
    requires t.Br?
  {
    if t.l.Leaf? then t.r else t.l
  }

  /** Let x take the place of y below y's parent p. */
  function SpliceLinks(h: Heap, e: Env, x: Node, y: Node): Heap
    requires x in h && y in h && h[y].parent in h
  {
    var p := h[y].parent;
    var h := h[x := h[x].(parent := p)];
    h[p := SetChild(h[p], p != e.root && y != h[p].left, x)]
  }

  lemma SpliceAt(h: Heap, e: Env, c: Ctx, t: Tree)
    requires At(h, e, c, t) && t.Br? && (t.l.Leaf? || t.r.Leaf?)
    ensures var x := OnlyChild(t);
      && Root(e, x) in h && t.n in h && h[t.n].parent in h && h[t.n].parent == Parent(e, c)
      && At(SpliceLinks(h, e, Root(e, x), t.n), e, c, x) && Linked(SpliceLinks(h, e, Root(e, x), t.n), e, c, x)
      && SpliceLinks(h, e, Root(e, x), t.n)[t.n] == h[t.n]
  {
    var x := OnlyChild(t);
    Look(h, e, c, t);
    LookChild(h, e, c, t, true);
    LookChild(h, e, c, t, false);
    var h' := SpliceLinks(h, e, Root(e, x), t.n);
    assert Rep(h, e, x, t.n) && Distinct(x) && Nodes(x) <= Nodes(t);
    Reparent(h, h', e, x, t.n, Parent(e, c));
    Rehang(h, h', e, c, t.n, Root(e, x));
  }

  /** What a splice at y below z leaves of z: its links may change, its colour does not. */
  lemma SpliceKeepsRed(h: Heap, e: Env, x: Node, y: Node, z: Node)
    requires x in h && y in h && h[y].parent in h && z in h
    ensures z in SpliceLinks(h, e, x, y) && SpliceLinks(h, e, x, y)[z].red == h[z].red
  {
  }

  // ---------- substituting ----------

  /** Let y, which is not in the tree, take over z's links and its place. */
  function SubstLinks(h: Heap, e: Env, z: Node, y: Node): Heap
    requires z in h && y in h && h[z].left in h && h[z].right in h && h[z].parent in h
  {
    var zl, zr, zp := h[z].left, h[z].right, h[z].parent;
    var h := h[y := h[y].(maxHigh := -MAX_TIME)];
    var h := h[y := h[y].(left := zl)];
    var h := h[y := h[y].(right := zr)];
    var h := h[y := h[y].(parent := zp)];
    var h := h[zr := h[zr].(parent := y)];
    var h := h[zl := h[zl].(parent := y)];
    Redirect(h, zp, z, y)
  }

  lemma SubstAt(h: Heap, e: Env, c: Ctx, t: Tree, y: Node)
    requires At(h, e, c, t) && t.Br? && t.l.Br?
    requires y in h && y !in Nodes(t) + CtxNodes(c) + {e.nil, e.root}
    ensures t.n in h && h[t.n].left in h && h[t.n].right in h && h[t.n].parent in h
    ensures var h' := SubstLinks(h, e, t.n, y);
      && At(h', e, c, t.(n := y, red := h[y].red, mh := -MAX_TIME))
      && h'[e.nil].parent == (if t.r.Leaf? then y else h[e.nil].parent)
  {
    Look(h, e, c, t);
    LookChild(h, e, c, t, true);
    LookChild(h, e, c, t, false);
    SubstCells(h, e, c, t, y);
    var h' := SubstLinks(h, e, t.n, y);
    SubstParts(h, h', e, c, t, y);
    Rehang(h, h', e, c, t.n, y);
  }

  /** h' differs from h just in what the substitution rewrites. */
  predicate SubstWrites(h: Heap, h': Heap, e: Env, c: Ctx, t: Tree, y: Node)
    requires t.Br? && t.l.Br?
  {
    var p, r := Parent(e, c), Root(e, t.r);
    && h'.Keys == h.Keys && p in h && r in h && t.l.n in h && y in h
    && h'[y] == Cell(t.l.n, r, p, h[y].red, -MAX_TIME)
    && h'[p] == SetChild(h[p], c.Step? && c.right, y)
    && h'[t.l.n] == h[t.l.n].(parent := y) && h'[r] == h[r].(parent := y)
    && Same(h, h', h.Keys - {y, p, t.l.n, r})
  }

  /** The subtrees keep their shape, and around the tree only the link to its top node changes. */
  lemma SubstParts(h: Heap, h': Heap, e: Env, c: Ctx, t: Tree, y: Node)
    requires At(h, e, c, t) && t.Br? && t.l.Br? && y !in Nodes(t) + CtxNodes(c) + {e.nil, e.root}
    requires SubstWrites(h, h', e, c, t, y)
    ensures Rep(h', e, t.l, y) && Rep(h', e, t.r, y) && Same(h, h', CtxNodes(c) + {e.root} - {Parent(e, c)})
  {
    Look(h, e, c, t);
    Reparent(h, h', e, t.l, t.n, y);
    Reparent(h, h', e, t.r, t.n, y);
  }

  /** The cells that the substitution leaves behind. */
  lemma SubstCells(h: Heap, e: Env, c: Ctx, t: Tree, y: Node)
    requires At(h, e, c, t) && t.Br? && t.l.Br?
    requires y in h && y !in Nodes(t) + CtxNodes(c) + {e.nil, e.root}
    ensures t.n in h && h[t.n].left in h && h[t.n].right in h && h[t.n].parent in h
    ensures SubstWrites(h, SubstLinks(h, e, t.n, y), e, c, t, y)
  {
    Look(h, e, c, t);
    MoveDown(h, e, c, t, false);
    Look(h, e, Into(c, t, false), t.l);
    LookChild(h, e, c, t, true);
    LookChild(h, e, c, t, false);
    assert Rep(h, e, t.r, t.n);
  }

  /** The substitution seen from the hole that the spliced node left behind below z. */
  lemma TakePlaceAt(h: Heap, e: Env, c: Ctx, t: Tree, rc: Ctx, x: Tree, y: Node)
    requires t.Br? && t.l.Br?
    requires At(h, e, Over(rc, Into(c, t, true)), x) && Linked(h, e, Over(rc, Into(c, t, true)), x)
    requires y in h && y !in CtxNodes(Over(rc, Into(c, t, true))) + Nodes(x) + {e.nil, e.root}
    ensures t.n in h && h[t.n].left in h && h[t.n].right in h && h[t.n].parent in h
    ensures var h', c' := SubstLinks(h, e, t.n, y), Over(rc, Step(true, y, h[y].red, -MAX_TIME, t.l, c));
      At(h', e, c', x) && Linked(h', e, c', x) && h'[t.n].red == h[t.n].red && t.n !in CtxNodes(c')
  {
    var below := Plug(rc, x);
    var t' := t.(r := below);
    var c' := Over(rc, Step(true, y, h[y].red, -MAX_TIME, t.l, c));
    AtOver(h, e, rc, Into(c, t, true), x);
    MoveUp(h, e, Into(c, t, true), below);
    OverNodes(rc, Into(c, t, true));
    OverNodes(rc, Step(true, y, h[y].red, -MAX_TIME, t.l, c));
    PlugNodes(rc, x);
    SubstCells(h, e, c, t', y);
    SubstAt(h, e, c, t', y);
    var h' := SubstLinks(h, e, t.n, y);
    MoveDown(h', e, c, t'.(n := y, red := h[y].red, mh := -MAX_TIME), true);
    AtOver(h', e, rc, Step(true, y, h[y].red, -MAX_TIME, t.l, c), x);
    Look(h', e, c', x);
    if rc.Step? {
      PlugBranch(rc.up, Mk(rc.right, rc.n, rc.red, rc.mh, x, rc.sib));
    }
  }

  lemma {:induction false} PlugBranch(c: Ctx, t: Tree)
    requires t.Br?
    ensures Plug(c, t).Br?
  {
    if c.Step? {
      PlugBranch(c.up, Mk(c.right, c.n, c.red, c.mh, t, c.sib));
    }
  }

  lemma {:induction false} OverNodes(inner: Ctx, outer: Ctx)
    ensures CtxNodes(Over(inner, outer)) == CtxNodes(inner) + CtxNodes(outer)
  {
    if inner.Step? {
      OverNodes(inner.up, outer);
    }
  }

  /** Repainting the node of an outer context. */
  lemma PaintOver(h: Heap, e: Env, rc: Ctx, base: Ctx, x: Tree, red: bool)
    requires base.Step? && At(h, e, Over(rc, base), x)
    ensures base.n in h && h[base.n].red == base.red && At(SetRedIn(h, base.n, red), e, Over(rc, base.(red := red)), x)
    ensures Linked(h, e, Over(rc, base), x) ==> Linked(SetRedIn(h, base.n, red), e, Over(rc, base.(red := red)), x)
  {
    AtOver(h, e, rc, base, x);
    PaintParent(h, e, base, Plug(rc, x), red);
    Look(h, e, base, Plug(rc, x));
    AtOver(SetRedIn(h, base.n, red), e, rc, base.(red := red), x);
  }

  lemma {:induction false} FixMaxOver(rc: Ctx, base: Ctx, m: SimTime) returns (rc': Ctx, base': Ctx)
    requires base.Step?
    ensures base'.Step? && base'.n == base.n && FixMax(Over(rc, base), m) == Over(rc', base')
    ensures base'.red == base.red
    ensures forall red :: FixMax(Over(rc, base.(red := red)), m) == Over(rc', base'.(red := red))
  {
    if rc.Top? {
      rc', base' := Top, FixMax(base, m);
    } else {
      var m' := Max3(rc.n, m, MaxHigh(rc.sib));
      rc', base' := FixMaxOver(rc.up, base, m');
      rc' := Step(rc.right, rc.n, rc.red, m', rc.sib, rc');
    }
  }

  lemma FixMaxParent(e: Env, c: Ctx, m: SimTime)
    ensures Parent(e, FixMax(c, m)) == Parent(e, c)
  {
  }

  // ---------- what is left to do after taking a node out ----------

  /** Nothing if the node was red; otherwise a black node is missing at x. */
  predicate TakenOut(c: Ctx, x: Tree, wasRed: bool) {
    if wasRed then Coloured(c, x) && Augmented(c, x) else Deleting(c, x)
  }

  lemma SplicedColours(c: Ctx, t: Tree)
    requires Coloured(c, t) && t.Br? && (t.l.Leaf? || t.r.Leaf?)
    ensures var x := OnlyChild(t);
      RedBlack(x) && CtxRedBlack(c, if t.red then BlackHeight(x) else BlackHeight(x) + 1) && (t.red ==> x.Leaf?)
    ensures MaxOk(t) ==> MaxOk(OnlyChild(t))
  {
  }

  lemma TakenOutSelf(c: Ctx, t: Tree)
    requires Coloured(c, t) && Augmented(c, t) && t.Br? && (t.l.Leaf? || t.r.Leaf?)
    ensures var x := OnlyChild(t); var c' := FixMax(c, MaxHigh(x));
      TakenOut(c', x, t.red) && Contents(c', x) == (Before(c) + Inorder(t.l)) + (Inorder(t.r) + After(c))
  {
    var x := OnlyChild(t);
    SplicedColours(c, t);
    AugmentedPlug(c, t);
    FixMaxKeeps(c, MaxHigh(x));
  }

  lemma TakenOutElsewhere(cy: Ctx, ty: Tree, c': Ctx)
    requires Coloured(cy, ty) && Augmented(cy, ty) && ty.Br? && ty.l.Leaf?
    requires forall k :: CtxRedBlack(cy, k) <==> CtxRedBlack(c', k)
    requires SiblingsMaxOk(cy) <==> SiblingsMaxOk(c')
    ensures TakenOut(FixMax(c', MaxHigh(ty.r)), ty.r, ty.red)
  {
    SplicedColours(cy, ty);
    AugmentedPlug(cy, ty);
    FixMaxKeeps(c', MaxHigh(ty.r));
  }

  lemma TakenOutSuccessor(c: Ctx, t: Tree, rc: Ctx, ty: Tree)
    requires t.Br? && t.r == Plug(rc, ty) && ty.Br? && ty.l.Leaf? && Before(rc) == []
    requires var cy := Over(rc, Into(c, t, true)); Coloured(cy, ty) && Augmented(cy, ty)
    ensures var c' := FixMax(Over(rc, Step(true, ty.n, t.red, -MAX_TIME, t.l, c)), MaxHigh(ty.r));
      TakenOut(c', ty.r, ty.red) && Contents(c', ty.r) == (Before(c) + Inorder(t.l)) + (Inorder(t.r) + After(c))
  {
    var old_, new_ := Into(c, t, true), Step(true, ty.n, t.red, -MAX_TIME, t.l, c);
    OverAlike(rc, old_, new_);
    TakenOutElsewhere(Over(rc, old_), ty, Over(rc, new_));
    FixMaxKeeps(Over(rc, new_), MaxHigh(ty.r));
    SuccessorContents(c, t, rc, ty);
  }

  lemma Regroup(a: seq<Node>, y: Node, r: seq<Node>, s: seq<Node>, d: seq<Node>)
    ensures (a + [y]) + r + (s + d) == a + (([y] + r + s) + d)
  {
  }

  /** Everything below the least node of a tree lies after it. */
  lemma LeastFirst(rc: Ctx, ty: Tree)
    requires ty.Br? && ty.l.Leaf? && Before(rc) == []
    ensures Inorder(Plug(rc, ty)) == [ty.n] + Inorder(ty.r) + After(rc)
  {
    PlugInorder(rc, ty);
    assert Inorder(ty) == [ty.n] + Inorder(ty.r);
  }

  lemma SuccessorContents(c: Ctx, t: Tree, rc: Ctx, ty: Tree)
    requires t.Br? && t.r == Plug(rc, ty) && ty.Br? && ty.l.Leaf? && Before(rc) == []
    ensures var c' := Over(rc, Step(true, ty.n, t.red, -MAX_TIME, t.l, c));
      Before(c') + Inorder(ty.r) + After(c') == (Before(c) + Inorder(t.l)) + (Inorder(t.r) + After(c))
  {
    var new_ := Step(true, ty.n, t.red, -MAX_TIME, t.l, c);
    var a := Before(c) + Inorder(t.l);
    OverContents(rc, new_);
    assert Before(new_) == a + [ty.n];
    assert Before(new_) + [] == Before(new_);
    assert After(new_) == After(c);
    LeastFirst(rc, ty);
    Regroup(a, ty.n, Inorder(ty.r), After(rc), After(c));
  }

  lemma {:induction false} CtxElems(c: Ctx)
    ensures Elems(Before(c)) <= CtxNodes(c)
  {
    if c.Step? {
      CtxElems(c.up);
      InorderNodes(c.sib);
    }
  }

  lemma NotAmongEarlier(e: Env, c: Ctx, t: Tree)
    requires t.Br? && Apart(e, c, t)
    ensures t.n !in Before(c) + Inorder(t.l)
  {
    CtxElems(c);
    InorderNodes(t.l);
    assert t.n !in Elems(Before(c)) && t.n !in Elems(Inorder(t.l));
  }

  lemma RemovedNodes(was: Tree, all: Tree, a: seq<Node>, z: Node, b: seq<Node>)
    requires Inorder(was) == a + [z] + b && Inorder(all) == a + b
    ensures Nodes(was) == Nodes(all) + {z}
  {
    InorderNodes(all);
    InorderNodes(was);
    assert Elems(a + [z] + b) == Elems(a + b) + {z};
  }

  /** The tree that is left, when it lists what stood before and after the node taken out. */
  lemma RemovedContents(e: Env, c: Ctx, t: Tree, all: Tree)
    requires t.Br? && Apart(e, c, t) && Ordered(Inorder(Plug(c, t))) && Storing(Plug(c, t))
    requires Inorder(all) == (Before(c) + Inorder(t.l)) + (Inorder(t.r) + After(c))
    ensures Inorder(all) == Without(Inorder(Plug(c, t)), t.n) && Ordered(Inorder(all)) && Storing(all)
  {
    var a, b := Before(c) + Inorder(t.l), Inorder(t.r) + After(c);
    AroundNode(c, t);
    NotAmongEarlier(e, c, t);
    WithoutNode(Inorder(Plug(c, t)), a, t.n, b);
    RemovedNodes(Plug(c, t), all, a, t.n, b);
  }

  /** What stands before and after a node in key order. */
  lemma AroundNode(c: Ctx, t: Tree)
    requires t.Br?
    ensures Inorder(Plug(c, t)) == (Before(c) + Inorder(t.l)) + [t.n] + (Inorder(t.r) + After(c))
  {
    PlugInorder(c, t);
  }

  lemma WithoutNode(s: seq<Node>, a: seq<Node>, x: Node, b: seq<Node>)
    requires s == a + [x] + b && x !in a && Ordered(s)
    ensures Without(s, x) == a + b && Ordered(a + b)
  {
    WithoutAt(a, x, b);
    WithoutOrdered(a, x, b);
  }

  lemma SuccessorFacts(c: Ctx, t: Tree, rc: Ctx, ty: Tree)
    requires t.Br? && t.r == Plug(rc, ty) && ty.Br? && Coloured(c, t) && Augmented(c, t) && Distinct(t)
    ensures var cy := Over(rc, Into(c, t, true)); Coloured(cy, ty) && Augmented(cy, ty)
    ensures ty.n != t.n
  {
    var cy := Over(rc, Into(c, t, true));
    PlugOver(rc, Into(c, t, true), ty);
    ColouredPlug(c, t);
    ColouredPlug(cy, ty);
    AugmentedPlug(c, t);
    AugmentedPlug(cy, ty);
    PlugNodes(rc, ty);
  }

  /** Splicing z's successor out, with what remains known of it and of z. */
  lemma SpliceSuccessor(h: Heap, e: Env, c: Ctx, t: Tree, rc: Ctx, ty: Tree)
    requires At(h, e, c, t) && t.Br? && t.r == Plug(rc, ty) && ty.Br? && ty.l.Leaf? && Coloured(c, t) && Augmented(c, t)
    requires At(h, e, Over(rc, Into(c, t, true)), ty)
    ensures var cy := Over(rc, Into(c, t, true)); var x := Root(e, ty.r);
      && x in h && ty.n in h && h[ty.n].parent in h
      && Coloured(cy, ty) && Augmented(cy, ty) && ty.n != t.n
      && var h' := SpliceLinks(h, e, x, ty.n);
      && At(h', e, cy, ty.r) && Linked(h', e, cy, ty.r)
      && ty.n in h' && ty.n !in CtxNodes(cy) + Nodes(ty.r) + {e.nil, e.root} && h'[ty.n].red == ty.red
      && t.n in h' && h'[t.n].red == t.red
  {
    var cy := Over(rc, Into(c, t, true));
    SuccessorFacts(c, t, rc, ty);
    Look(h, e, c, t);
    Look(h, e, cy, ty);
    SpliceAt(h, e, cy, ty);
    SpliceKeepsRed(h, e, Root(e, ty.r), ty.n, t.n);
    assert Distinct(ty) && Nodes(ty) == {ty.n} + Nodes(ty.r);
  }

  // ---------- searching for an interval ----------

  function Preorder(t: Tree): seq<Node> {
    if t.Leaf? then [] else [t.n] + (Preorder(t.l) + Preorder(t.r))
  }

  lemma {:induction false} PreorderNodes(t: Tree)
    ensures Elems(Preorder(t)) == Nodes(t)
  {
    if t.Br? {
      PreorderNodes(t.l);
      PreorderNodes(t.r);
    }
  }

  /** The first node of a list that holds ivl, nil if none does. */
  function FirstHolding(e: Env, s: seq<Node>, ivl: Interval): Node {
    if s == [] then e.nil else if s[0].stored == ivl then s[0] else FirstHolding(e, s[1..], ivl)
  }

  lemma {:induction false} FirstHoldingMeaning(e: Env, s: seq<Node>, ivl: Interval)
    requires e.nil !in s
    ensures var r := FirstHolding(e, s, ivl);
      if r == e.nil then forall n :: n in s ==> n.stored != ivl else r in s && r.stored == ivl
  {
    if s != [] {
      FirstHoldingMeaning(e, s[1..], ivl);
    }
  }

  lemma {:induction false} FirstHoldingConcat(e: Env, a: seq<Node>, b: seq<Node>, ivl: Interval)
    requires e.nil !in a
    ensures FirstHolding(e, a + b, ivl) ==
      if FirstHolding(e, a, ivl) == e.nil then FirstHolding(e, b, ivl) else FirstHolding(e, a, ivl)
  {
    if a == [] {
      assert a + b == b;
    } else {
      assert a[0] in a && (a + b)[1..] == a[1..] + b;
      FirstHoldingConcat(e, a[1..], b, ivl);
    }
  }
}
