/**
 The nodes of the interval tree and, over them, a purely mathematical picture of the pointer
 structure: trees of nodes, one-hole contexts ("zippers"), and the red-black, ordering and
 max-high invariants.  Everything here is free of heap state; module IntervalHeap connects it
 to the fields of the nodes.
 */
module IntervalNodes {
  /** The largest raw simulation time; its negation is the key of the nil sentinel. */
  const MAX_TIME: int := 0x7fff_ffff_ffff_ffff

  type SimTime = t: int | -MAX_TIME <= t <= MAX_TIME

  function Max(a: SimTime, b: SimTime): SimTime {
    if a < b then b else a
  }

  /** A closed interval [low, high].  Intervals are told apart by identity, not by value. */
  class Interval {
    const low: SimTime
    const high: SimTime

    constructor (low: SimTime, high: SimTime)
      ensures this.low == low && this.high == high
    {
      this.low, this.high := low, high;
    }
  }

  class Node {
    const stored: Interval?
    const key: SimTime
    const high: SimTime
    var maxHigh: SimTime
    var red: bool
    var left: Node
    var right: Node
    var parent: Node

    /** A node for an interval.  The three links start at the node itself: every caller overwrites
        them before they are read. */
    constructor (i: Interval)
      ensures stored == i && key == i.low && high == i.high && maxHigh == i.high && !red
      ensures left == right == parent == this
    {
      stored, key, high, maxHigh, red := i, i.low, i.high, i.high, false;
      left, right, parent := this, this, this;
    }

    /** A sentinel: no interval, black, all three times equal. */
    constructor Sentinel(t: SimTime)
      ensures stored == null && key == high == maxHigh == t && !red
      ensures left == right == parent == this
    {
      stored, key, high, maxHigh, red := null, t, t, t, false;
      left, right, parent := this, this, this;
    }
  }
}

module IntervalShape {
  import opened IntervalNodes
  import opened Arithmetic

  /** A subtree: each branch remembers its node together with the node's colour and max-high. */
  datatype Tree = Leaf | Br(n: Node, red: bool, mh: SimTime, l: Tree, r: Tree)

  /** The path from a hole up to the top of the tree; `right` tells which child the hole is. */
  datatype Ctx = Top | Step(right: bool, n: Node, red: bool, mh: SimTime, sib: Tree, up: Ctx)

  function Mk(right: bool, n: Node, red: bool, mh: SimTime, hole: Tree, sib: Tree): Tree {
    if right then Br(n, red, mh, sib, hole) else Br(n, red, mh, hole, sib)
  }

  function Child(t: Tree, right: bool): Tree
    requires t.Br?
  {
    if right then t.r else t.l
  }

  function Plug(c: Ctx, t: Tree): Tree {
    match c
    case Top => t
    case Step(d, n, red, mh, sib, up) => Plug(up, Mk(d, n, red, mh, t, sib))
  }

  /** The context of a child of the subtree that c surrounds. */
  function Into(c: Ctx, t: Tree, right: bool): Ctx
    requires t.Br?
  {
    Step(right, t.n, t.red, t.mh, Child(t, !right), c)
  }

  function Depth(c: Ctx): nat {
    if c.Top? then 0 else 1 + Depth(c.up)
  }

  // ---------- contents, in key order ----------

  function Inorder(t: Tree): seq<Node> {
    match t
    case Leaf => []
    case Br(n, _, _, l, r) => Inorder(l) + [n] + Inorder(r)
  }

  function Before(c: Ctx): seq<Node> {
    match c
    case Top => []
    case Step(d, n, _, _, sib, up) => Before(up) + if d then Inorder(sib) + [n] else []
  }

  function After(c: Ctx): seq<Node> {
    match c
    case Top => []
    case Step(d, n, _, _, sib, up) => (if d then [] else [n] + Inorder(sib)) + After(up)
  }

  lemma {:induction false} PlugInorder(c: Ctx, t: Tree)
    ensures Inorder(Plug(c, t)) == Before(c) + Inorder(t) + After(c)
  {
    if c.Step? {
      PlugInorder(c.up, Mk(c.right, c.n, c.red, c.mh, t, c.sib));
    }
  }

  lemma PlugLeafInorder(c: Ctx)
    ensures Inorder(Plug(c, Leaf)) == Before(c) + After(c)
  {
    PlugInorder(c, Leaf);
    assert Before(c) + [] + After(c) == Before(c) + After(c);
  }

  /** Nodes in key order; equal keys are allowed. */
  predicate Ordered(s: seq<Node>) {
    forall i, j :: 0 <= i < j < |s| ==> s[i].key <= s[j].key
  }

  /** Every node of the tree holds an interval and the interval's two ends. */
  predicate Storing(t: Tree) {
    forall n :: n in Nodes(t) ==> n.stored != null && n.key == n.stored.low && n.high == n.stored.high
  }

  predicate AllUpTo(s: seq<Node>, k: SimTime) {
    forall n :: n in s ==> n.key <= k
  }

  predicate AllAbove(s: seq<Node>, k: SimTime) {
    forall n :: n in s ==> n.key > k
  }

  lemma OrderedPart(a: seq<Node>, b: seq<Node>)
    requires Ordered(a + b)
    ensures Ordered(a) && Ordered(b)
    ensures forall i, j :: 0 <= i < |a| && 0 <= j < |b| ==> a[i].key <= b[j].key
  {
    var s := a + b;
    forall i, j | 0 <= i < j < |a|
      ensures a[i].key <= a[j].key
    {
      assert s[i] == a[i] && s[j] == a[j];
    }
    forall i, j | 0 <= i < j < |b|
      ensures b[i].key <= b[j].key
    {
      assert s[|a| + i] == b[i] && s[|a| + j] == b[j];
    }
    forall i, j | 0 <= i < |a| && 0 <= j < |b|
      ensures a[i].key <= b[j].key
    {
      assert s[i] == a[i] && s[|a| + j] == b[j];
    }
  }

  /** The nodes before a given one have keys up to its key, the nodes after it keys from there on. */
  lemma OrderedSplit(a: seq<Node>, x: Node, b: seq<Node>)
    requires Ordered(a + [x] + b)
    ensures Ordered(a) && Ordered(b)
    ensures AllUpTo(a, x.key) && forall n :: n in b ==> x.key <= n.key
  {
    OrderedPart(a + [x], b);
    OrderedPart(a, [x]);
    assert (a + [x])[|a|] == x;
  }

  /** Where a linear insertion into the sorted list would put z: after all keys up to its own. */
  function InsertSorted(s: seq<Node>, z: Node): seq<Node> {
    if s == [] || s[0].key > z.key then [z] + s else [s[0]] + InsertSorted(s[1..], z)
  }

  lemma {:induction false} InsertSortedAt(a: seq<Node>, z: Node, b: seq<Node>)
    requires AllUpTo(a, z.key) && AllAbove(b, z.key)
    ensures InsertSorted(a + b, z) == a + [z] + b
  {
    if a == [] {
      assert a + b == b;
      assert b != [] ==> b[0] in b;
    } else {
      assert a[0] in a;
      assert forall n :: n in a[1..] ==> n in a;
      InsertSortedAt(a[1..], z, b);
      assert (a + b)[1..] == a[1..] + b;
      assert [a[0]] + (a[1..] + [z] + b) == a + [z] + b;
    }
  }

  lemma {:induction false} InsertSortedContents(s: seq<Node>, z: Node)
    ensures multiset(InsertSorted(s, z)) == multiset(s) + multiset{z}
  {
    if s != [] {
      InsertSortedContents(s[1..], z);
      assert s == [s[0]] + s[1..];
    }
  }

  lemma {:induction false} InsertSortedOrdered(s: seq<Node>, z: Node)
    requires Ordered(s)
    ensures Ordered(InsertSorted(s, z))
  {
    if s != [] && s[0].key <= z.key {
      var rest := InsertSorted(s[1..], z);
      InsertSortedOrdered(s[1..], z);
      InsertSortedContents(s[1..], z);
      forall i | 0 <= i < |rest|
        ensures s[0].key <= rest[i].key
      {
        assert rest[i] in multiset(rest);
        assert rest[i] == z || rest[i] in s[1..];
      }
    }
  }

  function Nodes(t: Tree): set<Node> {
    match t
    case Leaf => {}
    case Br(n, _, _, l, r) => {n} + Nodes(l) + Nodes(r)
  }

  function CtxNodes(c: Ctx): set<Node> {
    match c
    case Top => {}
    case Step(_, n, _, _, sib, up) => {n} + Nodes(sib) + CtxNodes(up)
  }

  function Elems(s: seq<Node>): set<Node> {
    set n | n in s
  }

  lemma {:induction false} InorderNodes(t: Tree)
    ensures Nodes(t) == Elems(Inorder(t))
  {
    if t.Br? {
      InorderNodes(t.l);
      InorderNodes(t.r);
    }
  }

  lemma {:induction false} PlugNodes(c: Ctx, t: Tree)
    ensures Nodes(Plug(c, t)) == CtxNodes(c) + Nodes(t)
  {
    if c.Step? {
      PlugNodes(c.up, Mk(c.right, c.n, c.red, c.mh, t, c.sib));
    }
  }

  /** No node occurs twice. */
  predicate Distinct(t: Tree) {
    t.Br? ==>
      t.n !in Nodes(t.l) + Nodes(t.r) && Nodes(t.l) !! Nodes(t.r) && Distinct(t.l) && Distinct(t.r)
  }

  predicate CtxDistinct(c: Ctx) {
    c.Step? ==>
      c.n !in Nodes(c.sib) + CtxNodes(c.up) && Nodes(c.sib) !! CtxNodes(c.up) && Distinct(c.sib) && CtxDistinct(c.up)
  }

  // ---------- red-black colouring ----------

  predicate Red(t: Tree) {
    t.Br? && t.red
  }

  function BlackHeight(t: Tree): nat {
    if t.Leaf? then 0 else BlackHeight(t.l) + if t.red then 0 else 1
  }

  /** Equal black heights everywhere and no red node with a red child. */
  predicate RedBlack(t: Tree) {
    t.Br? ==>
      && BlackHeight(t.l) == BlackHeight(t.r)
      && (t.red ==> !Red(t.l) && !Red(t.r))
      && RedBlack(t.l) && RedBlack(t.r)
  }

  function Height(t: Tree): nat {
    if t.Leaf? then 0 else 1 + if Height(t.l) > Height(t.r) then Height(t.l) else Height(t.r)
  }

  /** A path has at most one red node for every black one, and a red one at its top. */
  lemma {:induction false} HeightBound(t: Tree)
    requires RedBlack(t)
    ensures Height(t) <= 2 * BlackHeight(t) + if Red(t) then 1 else 0
  {
    if t.Br? {
      HeightBound(t.l);
      HeightBound(t.r);
    }
  }

  lemma {:induction false} BlackSize(t: Tree)
    requires RedBlack(t)
    ensures Pow2(BlackHeight(t)) <= |Inorder(t)| + 1
  {
    if t.Br? {
      BlackSize(t.l);
      BlackSize(t.r);
    }
  }

  /** The height of a finished tree is at most twice the binary logarithm of its size plus one. */
  lemma HeightIsLogarithmic(t: Tree)
    requires RedBlack(t) && !Red(t)
    ensures exists k: nat :: Height(t) <= 2 * k && Pow2(k) <= |Inorder(t)| + 1
  {
    HeightBound(t);
    BlackSize(t);
  }

  /** c is properly coloured around a subtree of black height k, except that the hole's parent may
      be red next to a red subtree.  The top node of the tree is black. */
  predicate CtxRedBlack(c: Ctx, k: nat) {
    c.Step? ==>
      && RedBlack(c.sib) && BlackHeight(c.sib) == k
      && (c.red ==> !Red(c.sib) && c.up.Step? && !c.up.red)
      && CtxRedBlack(c.up, if c.red then k else k + 1)
  }

  predicate ParentRed(c: Ctx) {
    c.Step? && c.red
  }

  /** The subtree t fits its context: together they form a red-black tree with a black top. */
  predicate Coloured(c: Ctx, t: Tree) {
    RedBlack(t) && CtxRedBlack(c, BlackHeight(t)) && (Red(t) ==> c.Step? && !c.red)
  }

  lemma {:induction false} ColouredPlug(c: Ctx, t: Tree)
    ensures Coloured(c, t) <==> Coloured(Top, Plug(c, t))
  {
    if c.Step? {
      ColouredPlug(c.up, Mk(c.right, c.n, c.red, c.mh, t, c.sib));
    }
  }

  // ---------- the max-high augmentation ----------

  function MaxHigh(t: Tree): SimTime {
    if t.Leaf? then -MAX_TIME else t.mh
  }

  function Max3(n: Node, a: SimTime, b: SimTime): SimTime {
    Max(n.high, Max(a, b))
  }

  predicate MaxOk(t: Tree) {
    t.Br? ==> t.mh == Max3(t.n, MaxHigh(t.l), MaxHigh(t.r)) && MaxOk(t.l) && MaxOk(t.r)
  }

  predicate CtxMaxOk(c: Ctx, m: SimTime) {
    c.Step? ==> c.mh == Max3(c.n, m, MaxHigh(c.sib)) && MaxOk(c.sib) && CtxMaxOk(c.up, c.mh)
  }

  /** The siblings along the path are right; the nodes on the path need not be. */
  predicate SiblingsMaxOk(c: Ctx) {
    c.Step? ==> MaxOk(c.sib) && SiblingsMaxOk(c.up)
  }

  /** c with the maxima along the path recomputed for a subtree of maximum m. */
  function FixMax(c: Ctx, m: SimTime): Ctx {
    match c
    case Top => Top
    case Step(d, n, red, _, sib, up) =>
      var m' := Max3(n, m, MaxHigh(sib));
      Step(d, n, red, m', sib, FixMax(up, m'))
  }

  lemma {:induction false} FixMaxKeeps(c: Ctx, m: SimTime)
    ensures Before(FixMax(c, m)) == Before(c) && After(FixMax(c, m)) == After(c)
    ensures forall k :: CtxRedBlack(c, k) ==> CtxRedBlack(FixMax(c, m), k)
    ensures ParentRed(FixMax(c, m)) == ParentRed(c)
    ensures SiblingsMaxOk(c) ==> CtxMaxOk(FixMax(c, m), m)
  {
    if c.Step? {
      FixMaxKeeps(c.up, Max3(c.n, m, MaxHigh(c.sib)));
    }
  }

  predicate Augmented(c: Ctx, t: Tree) {
    MaxOk(t) && CtxMaxOk(c, MaxHigh(t))
  }

  lemma {:induction false} AugmentedPlug(c: Ctx, t: Tree)
    ensures Augmented(c, t) <==> Augmented(Top, Plug(c, t))
    ensures Augmented(c, t) ==> SiblingsMaxOk(c)
  {
    if c.Step? {
      AugmentedPlug(c.up, Mk(c.right, c.n, c.red, c.mh, t, c.sib));
    }
  }

  /** The stored maximum is the largest high end in the subtree: an upper bound that is attained. */
  lemma {:induction false} MaxHighIsMaximum(t: Tree)
    requires MaxOk(t)
    ensures forall n :: n in Nodes(t) ==> n.high <= MaxHigh(t)
    ensures t.Br? ==> exists n :: n in Nodes(t) && n.high == MaxHigh(t)
  {
    if t.Br? {
      MaxHighIsMaximum(t.l);
      MaxHighIsMaximum(t.r);
      if t.mh == t.n.high {
        assert t.n in Nodes(t);
      } else if t.l.Br? && t.mh == MaxHigh(t.l) {
        var n :| n in Nodes(t.l) && n.high == MaxHigh(t.l);
        assert n in Nodes(t);
      } else if t.r.Br? && t.mh == MaxHigh(t.r) {
        var n :| n in Nodes(t.r) && n.high == MaxHigh(t.r);
        assert n in Nodes(t);
      }
    }
  }
}
