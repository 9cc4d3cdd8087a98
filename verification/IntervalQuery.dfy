/** The overlap query: which nodes the pruned traversal reports, and that they are those which a scan
    of the whole list would report. */
module IntervalQuery {
  import opened IntervalNodes
  import opened IntervalShape
  import opened IntervalHeap
  import opened IntervalSplice

  predicate Overlap(a1: SimTime, a2: SimTime, b1: SimTime, b2: SimTime) {
    if a1 <= b1 then b1 <= a2 else a1 <= b2
  }

  predicate Inside(p: SimTime, low: SimTime, high: SimTime) {
    low <= p <= high
  }

  /** For proper intervals the test means that they have a point in common. */
  lemma OverlapMeaning(a1: SimTime, a2: SimTime, b1: SimTime, b2: SimTime)
    requires a1 <= a2 && b1 <= b2
    ensures Overlap(a1, a2, b1, b2) <==> exists p :: Inside(p, a1, a2) && Inside(p, b1, b2)
  {
    if Overlap(a1, a2, b1, b2) {
      assert Inside(Max(a1, b1), a1, a2) && Inside(Max(a1, b1), b1, b2);
    }
  }

  predicate Hits(n: Node, low: SimTime, high: SimTime) {
    Overlap(low, high, n.key, n.high)
  }

  function Here(n: Node, low: SimTime, high: SimTime): seq<Node> {
    if Hits(n, low, high) then [n] else []
  }

  /** What the traversal reports below t, in its order: the right branch of a node is skipped when
      its left branch looked promising and yet held nothing. */
  function Visit(t: Tree, low: SimTime, high: SimTime): seq<Node> {
    if t.Leaf? then []
    else if MaxHigh(t.l) >= low then
      var left := Visit(t.l, low, high);
      Here(t.n, low, high) + left + if left != [] then Visit(t.r, low, high) else []
    else
      Here(t.n, low, high) + Visit(t.r, low, high)
  }

  /** A linear scan. */
  function Scan(s: seq<Node>, low: SimTime, high: SimTime): seq<Node> {
    if s == [] then [] else Here(s[0], low, high) + Scan(s[1..], low, high)
  }

  lemma {:induction false} ScanConcat(a: seq<Node>, b: seq<Node>, low: SimTime, high: SimTime)
    ensures Scan(a + b, low, high) == Scan(a, low, high) + Scan(b, low, high)
  {
    if a == [] {
      assert a + b == b;
    } else {
      assert (a + b)[1..] == a[1..] + b;
      ScanConcat(a[1..], b, low, high);
    }
  }

  lemma {:induction false} ScanNothing(s: seq<Node>, low: SimTime, high: SimTime)
    requires forall n :: n in s ==> !Hits(n, low, high)
    ensures Scan(s, low, high) == []
  {
    if s != [] {
      assert s[0] in s;
      ScanNothing(s[1..], low, high);
    }
  }

  /** The ends of all stored intervals are in order. */
  predicate Proper(t: Tree) {
    forall n :: n in Nodes(t) ==> n.key <= n.high
  }

  /** If nothing below a promising left branch hits, nothing at or after the node does. */
  lemma PrunedRight(t: Tree, low: SimTime, high: SimTime, n: Node)
    requires t.Br? && MaxOk(t) && Ordered(Inorder(t)) && low > -MAX_TIME && MaxHigh(t.l) >= low
    requires forall m :: m in Nodes(t.l) ==> !(Hits(m, low, high) && m.high >= low)
    requires n in Nodes(t.r)
    ensures !Hits(n, low, high)
  {
    MaxHighIsMaximum(t.l);
    var m :| m in Nodes(t.l) && m.high == MaxHigh(t.l);
    InorderNodes(t.l);
    InorderNodes(t.r);
    assert m in Elems(Inorder(t.l)) && n in Elems(Inorder(t.r));
    OrderedSplit(Inorder(t.l), t.n, Inorder(t.r));
  }

  /** Whatever is reported is stored and hit ... */
  lemma {:induction false} VisitSound(t: Tree, low: SimTime, high: SimTime)
    ensures forall n :: n in Visit(t, low, high) ==> n in Nodes(t) && Hits(n, low, high)
  {
    if t.Br? {
      VisitSound(t.l, low, high);
      VisitSound(t.r, low, high);
    }
  }

  /** ... nothing is reported twice ... */
  lemma {:induction false} VisitOnce(t: Tree, low: SimTime, high: SimTime)
    requires Distinct(t)
    ensures forall n :: multiset(Visit(t, low, high))[n] <= 1
  {
    if t.Br? {
      VisitOnce(t.l, low, high);
      VisitOnce(t.r, low, high);
      VisitSound(t.l, low, high);
      VisitSound(t.r, low, high);
      var a, l, r := Here(t.n, low, high), Visit(t.l, low, high), Visit(t.r, low, high);
      forall n
        ensures multiset(a)[n] + multiset(l)[n] + multiset(r)[n] <= 1
      {
        assert n in multiset(a) ==> n in a;
        assert n in multiset(l) ==> n in l;
        assert n in multiset(r) ==> n in r;
      }
    }
  }

  /** ... and every stored interval that is hit and does not end before the query is reported. */
  lemma {:induction false} VisitComplete(t: Tree, low: SimTime, high: SimTime)
    requires MaxOk(t) && Ordered(Inorder(t)) && low > -MAX_TIME
    ensures forall n :: n in Nodes(t) && Hits(n, low, high) && n.high >= low ==> n in Visit(t, low, high)
  {
    if t.Br? {
      OrderedSplit(Inorder(t.l), t.n, Inorder(t.r));
      VisitComplete(t.l, low, high);
      VisitComplete(t.r, low, high);
      MaxHighIsMaximum(t.l);
      forall n | n in Nodes(t) && Hits(n, low, high) && n.high >= low
        ensures n in Visit(t, low, high)
      {
        if n in Nodes(t.r) && MaxHigh(t.l) >= low && Visit(t.l, low, high) == [] {
          PrunedRight(t, low, high, n);
        }
      }
    }
  }

  /** For proper intervals the traversal reports exactly what the scan reports, each as often. */
  lemma {:induction false} VisitIsScan(t: Tree, low: SimTime, high: SimTime)
    requires MaxOk(t) && Ordered(Inorder(t)) && Proper(t) && low > -MAX_TIME
    ensures multiset(Visit(t, low, high)) == multiset(Scan(Inorder(t), low, high))
  {
    if t.Br? {
      OrderedSplit(Inorder(t.l), t.n, Inorder(t.r));
      VisitIsScan(t.l, low, high);
      VisitIsScan(t.r, low, high);
      ScanNode(t, low, high);
      if MaxHigh(t.l) < low {
        SkippedLeft(t, low, high);
      } else if Visit(t.l, low, high) == [] {
        SkippedRight(t, low, high);
      }
    }
  }

  lemma SkippedLeft(t: Tree, low: SimTime, high: SimTime)
    requires t.Br? && MaxOk(t) && Proper(t) && MaxHigh(t.l) < low
    ensures Scan(Inorder(t.l), low, high) == []
  {
    MaxHighIsMaximum(t.l);
    InorderNodes(t.l);
    assert forall n :: n in Inorder(t.l) ==> n in Elems(Inorder(t.l));
    ScanNothing(Inorder(t.l), low, high);
  }

  lemma SkippedRight(t: Tree, low: SimTime, high: SimTime)
    requires t.Br? && MaxOk(t) && Ordered(Inorder(t)) && Proper(t) && low > -MAX_TIME
    requires MaxHigh(t.l) >= low && Visit(t.l, low, high) == []
    ensures Scan(Inorder(t.r), low, high) == []
  {
    OrderedSplit(Inorder(t.l), t.n, Inorder(t.r));
    VisitComplete(t.l, low, high);
    InorderNodes(t.r);
    forall n | n in Inorder(t.r)
      ensures !Hits(n, low, high)
    {
      assert n in Elems(Inorder(t.r));
      PrunedRight(t, low, high, n);
    }
    ScanNothing(Inorder(t.r), low, high);
  }

  lemma ScanNode(t: Tree, low: SimTime, high: SimTime)
    requires t.Br?
    ensures multiset(Scan(Inorder(t), low, high))
         == multiset(Scan(Inorder(t.l), low, high)) + multiset(Here(t.n, low, high))
           + multiset(Scan(Inorder(t.r), low, high))
  {
    ScanConcat(Inorder(t.l) + [t.n], Inorder(t.r), low, high);
    ScanConcat(Inorder(t.l), [t.n], low, high);
    assert Scan([t.n], low, high) == Here(t.n, low, high);
  }

  /** The least query time is the one time that fails: nil then looks like a promising left branch,
      and of two nodes with the same key the second is missed. */
  lemma LeastTimeMisses(a: Node, b: Node, high: SimTime)
    requires a != b && a.key == b.key <= high
    ensures var m := Max3(b, -MAX_TIME, -MAX_TIME);
      var t := Br(a, false, Max3(a, -MAX_TIME, m), Leaf, Br(b, true, m, Leaf, Leaf));
      && Coloured(Top, t) && Augmented(Top, t) && Distinct(t) && Ordered(Inorder(t))
      && Hits(b, -MAX_TIME, high) && b !in Visit(t, -MAX_TIME, high)
  {
    var m := Max3(b, -MAX_TIME, -MAX_TIME);
    var r := Br(b, true, m, Leaf, Leaf);
    assert Inorder(r) == [b];
    assert Inorder(Br(a, false, Max3(a, -MAX_TIME, m), Leaf, r)) == [a, b];
  }

  // ---------- the hand-made stack ----------

  /** What the loop still reports after the current branch: for each entry, from the top, its right
      branch if its flag is set or something was found since. */
  function Pending(flags: seq<bool>, subs: seq<Tree>, found: bool, low: SimTime, high: SimTime): seq<Node>
    requires |flags| == |subs| && forall s :: s in subs ==> s.Br?
  {
    if subs == [] then [] else
      var k := |subs| - 1;
      var f := flags[k] || found;
      assert subs[k] in subs;
      (if f then Visit(subs[k].r, low, high) else []) + Pending(flags[..k], subs[..k], f, low, high)
  }

  function Marked(flags: seq<bool>): seq<bool> {
    if flags == [] then [] else flags[..|flags| - 1] + [true]
  }

  /** Setting the topmost flag and remembering a find are the same. */
  lemma PendingMarked(flags: seq<bool>, subs: seq<Tree>, found: bool, low: SimTime, high: SimTime)
    requires |flags| == |subs| && forall s :: s in subs ==> s.Br?
    ensures Pending(Marked(flags), subs, found, low, high) == Pending(flags, subs, true, low, high)
  {
    if subs != [] {
      var k := |subs| - 1;
      assert Marked(flags)[..k] == flags[..k];
    }
  }

  lemma PendingPush(flags: seq<bool>, subs: seq<Tree>, t: Tree, found: bool, low: SimTime, high: SimTime)
    requires |flags| == |subs| && (forall s :: s in subs ==> s.Br?) && t.Br?
    ensures Pending(flags + [false], subs + [t], found, low, high)
         == (if found then Visit(t.r, low, high) else []) + Pending(flags, subs, found, low, high)
  {
    assert (flags + [false])[..|subs|] == flags && (subs + [t])[..|subs|] == subs;
  }

  function Size(t: Tree): nat {
    if t.Leaf? then 0 else 1 + Size(t.l) + Size(t.r)
  }

  /** How many nodes the loop may still look at. */
  function Work(subs: seq<Tree>): nat
    requires forall s :: s in subs ==> s.Br?
  {
    if subs == [] then 0 else
      var k := |subs| - 1;
      assert subs[k] in subs;
      Size(subs[k].r) + Work(subs[..k])
  }

  /** With the entries of the stack one above the other, and t above them, the tree is at least that high. */
  ghost predicate Levels(subs: seq<Tree>, t: Tree, h: nat) {
    && (forall k :: 0 <= k < |subs| ==> Height(subs[k]) + k <= h)
    && Height(t) + |subs| <= h
  }

  /** There is a level left for a branch. */
  lemma RoomFor(subs: seq<Tree>, t: Tree, h: nat)
    requires Levels(subs, t, h) && t.Br?
    ensures |subs| + 1 <= h
  {
  }

  /** t is a subtree of all. */
  predicate Within(t: Tree, all: Tree) {
    t == all || (all.Br? && (Within(t, all.l) || Within(t, all.r)))
  }

  lemma {:induction false} WithinChildren(t: Tree, all: Tree)
    requires Within(t, all) && t.Br?
    ensures Within(t.l, all) && Within(t.r, all)
  {
    if t != all {
      if Within(t, all.l) {
        WithinChildren(t, all.l);
      } else {
        WithinChildren(t, all.r);
      }
    } else {
      assert Within(t.l, all.l) && Within(t.r, all.r);
    }
  }

  lemma {:induction false} LookWithin(h: Heap, e: Env, t: Tree, all: Tree, p: Node)
    requires Rep(h, e, all, p) && Sentinels(h, e) && Within(t, all) && t.Br? && e.nil !in Nodes(all)
    ensures t.n in h && t.n != e.nil && h[t.n].left == Root(e, t.l) && h[t.n].right == Root(e, t.r)
    ensures Root(e, t.l) in h && h[Root(e, t.l)].maxHigh == MaxHigh(t.l)
    ensures t.l.Br? ==> t.l.n != e.nil
    ensures t.r.Br? ==> t.r.n != e.nil
  {
    if t != all {
      if Within(t, all.l) {
        LookWithin(h, e, t, all.l, all.n);
      } else {
        LookWithin(h, e, t, all.r, all.n);
      }
    } else {
      assert Rep(h, e, t.l, t.n);
    }
  }

  function Stored(s: seq<Node>): seq<Interval?> {
    seq(|s|, i requires 0 <= i < |s| => s[i].stored)
  }

  lemma {:induction false} LeafWithin(all: Tree)
    ensures Within(Leaf, all)
  {
    if all.Br? {
      LeafWithin(all.l);
    }
  }

  lemma NilIsOutside(h: Heap, e: Env, t: Tree, all: Tree, p: Node)
    requires Rep(h, e, all, p) && Sentinels(h, e) && Within(t, all) && e.nil !in Nodes(all)
    ensures t.Br? <==> Root(e, t) != e.nil
  {
    if t.Br? {
      LookWithin(h, e, t, all, p);
    }
  }

  lemma StoredConcat(a: seq<Node>, b: seq<Node>)
    ensures Stored(a + b) == Stored(a) + Stored(b)
  {
  }

  function MarkedIf(b: bool, flags: seq<bool>): seq<bool> {
    if b then Marked(flags) else flags
  }

  lemma PendingMarkedIf(b: bool, flags: seq<bool>, subs: seq<Tree>, found: bool, low: SimTime, high: SimTime)
    requires |flags| == |subs| && forall s :: s in subs ==> s.Br?
    ensures |MarkedIf(b, flags)| == |subs|
    ensures Pending(MarkedIf(b, flags), subs, found, low, high) == Pending(flags, subs, b || found, low, high)
  {
    PendingMarked(flags, subs, found, low, high);
  }

  lemma Regroup3(a: seq<Node>, b: seq<Node>, c: seq<Node>, d: seq<Node>)
    ensures a + b + c + d == a + (b + (c + d))
    ensures a + b + d == a + (b + d)
  {
  }

  lemma WorkPush(subs: seq<Tree>, t: Tree)
    requires (forall s :: s in subs ==> s.Br?) && t.Br?
    ensures Work(subs + [t]) == Size(t.r) + Work(subs)
  {
    assert (subs + [t])[..|subs|] == subs;
  }

  /** All that the loop still reports with t in view. */
  function Rest(t: Tree, flags: seq<bool>, subs: seq<Tree>, low: SimTime, high: SimTime): seq<Node>
    requires |flags| == |subs| && forall s :: s in subs ==> s.Br?
  {
    Visit(t, low, high) + Pending(flags, subs, Visit(t, low, high) != [], low, high)
  }

  lemma Append(found: seq<Node>, hit: seq<Node>, rest: seq<Node>)
    ensures found + (hit + rest) == (found + hit) + rest
  {
  }

  /** Coming back to the top entry. */
  lemma RestPop(flags: seq<bool>, subs: seq<Tree>, low: SimTime, high: SimTime)
    requires |flags| == |subs| > 0 && forall s :: s in subs ==> s.Br?
    ensures var k := |subs| - 1;
      && (forall s :: s in subs[..k] ==> s in subs) && subs[k] in subs
      && |MarkedIf(flags[k], flags[..k])| == k
      && Rest(Leaf, flags, subs, low, high)
         == Rest(if flags[k] then subs[k].r else Leaf, MarkedIf(flags[k], flags[..k]), subs[..k], low, high)
  {
    var k := |subs| - 1;
    assert subs[k] in subs;
    var found := flags[k] && Visit(subs[k].r, low, high) != [];
    PendingMarkedIf(flags[k], flags[..k], subs[..k], found, low, high);
  }

  /** Going left: the node's own find goes to the entry below the new one. */
  lemma VisitLeft(t: Tree, flags: seq<bool>, subs: seq<Tree>, low: SimTime, high: SimTime)
    requires |flags| == |subs| && (forall s :: s in subs ==> s.Br?) && t.Br? && MaxHigh(t.l) >= low
    ensures var here, left := Here(t.n, low, high), Visit(t.l, low, high);
      var flags' := MarkedIf(here != [], flags);
      && |flags'| == |subs|
      && Rest(t, flags, subs, low, high) == here + Rest(t.l, flags' + [false], subs + [t], low, high)
      && Size(t.l) + Work(subs + [t]) < Size(t) + Work(subs)
  {
    var here, left := Here(t.n, low, high), Visit(t.l, low, high);
    var flags' := MarkedIf(here != [], flags);
    PendingMarkedIf(here != [], flags, subs, left != [], low, high);
    PendingPush(flags', subs, t, left != [], low, high);
    var right := if left != [] then Visit(t.r, low, high) else [];
    Regroup3(here, left, right, Pending(flags', subs, left != [], low, high));
    WorkPush(subs, t);
  }

  /** Going right without an entry: the find goes to the current entry. */
  lemma VisitRight(t: Tree, flags: seq<bool>, subs: seq<Tree>, low: SimTime, high: SimTime)
    requires |flags| == |subs| && (forall s :: s in subs ==> s.Br?) && t.Br? && MaxHigh(t.l) < low
    ensures var here, right := Here(t.n, low, high), Visit(t.r, low, high);
      var flags' := MarkedIf(here != [], flags);
      && |flags'| == |subs|
      && Rest(t, flags, subs, low, high) == here + Rest(t.r, flags', subs, low, high)
      && Size(t.r) + Work(subs) < Size(t) + Work(subs)
  {
    var here, right := Here(t.n, low, high), Visit(t.r, low, high);
    PendingMarkedIf(here != [], flags, subs, right != [], low, high);
    Regroup3(here, right, [], Pending(flags, subs, here != [] || right != [], low, high));
  }
}
