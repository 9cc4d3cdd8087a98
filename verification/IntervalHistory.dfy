/** Whole histories: after any insertions and deletions the tree answers overlap queries like a plain
    bag of intervals. */
module IntervalHistory {
  import opened IntervalNodes
  import opened IntervalShape
  import opened IntervalSplice
  import opened IntervalQuery
  import opened IntervalTrees

  datatype Op = Add(i: Interval) | Remove(i: Interval)

  function Bag(s: seq<Node>): multiset<Interval?> {
    multiset(Stored(s))
  }

  lemma {:induction false} BagConcat(a: seq<Node>, b: seq<Node>)
    ensures Bag(a + b) == Bag(a) + Bag(b)
  {
    StoredConcat(a, b);
  }

  lemma {:induction false} BagInsertSorted(s: seq<Node>, z: Node)
    ensures Bag(InsertSorted(s, z)) == Bag(s) + multiset{z.stored}
  {
    BagConcat([z], s);
    assert Stored([z]) == [z.stored];
    if s != [] && s[0].key <= z.key {
      BagInsertSorted(s[1..], z);
      BagConcat([s[0]], InsertSorted(s[1..], z));
      BagConcat([s[0]], s[1..]);
      assert s == [s[0]] + s[1..];
    }
  }

  lemma {:induction false} BagWithout(s: seq<Node>, z: Node)
    requires z in s
    ensures Bag(s) == Bag(Without(s, z)) + multiset{z.stored}
  {
    assert s == [s[0]] + s[1..];
    BagConcat([s[0]], s[1..]);
    assert Stored([s[0]]) == [s[0].stored];
    if s[0] != z {
      BagWithout(s[1..], z);
      BagConcat([s[0]], Without(s[1..], z));
    }
  }

  /** An interval is in the bag exactly when some node holds it. */
  lemma BagMember(s: seq<Node>, i: Interval)
    ensures i in Bag(s) <==> exists n :: n in s && n.stored == i
  {
    if i in Bag(s) {
      assert i in Stored(s);
      var k :| 0 <= k < |s| && Stored(s)[k] == i;
      assert s[k] in s && s[k].stored == i;
    }
    if n :| n in s && n.stored == i {
      var k :| 0 <= k < |s| && s[k] == n;
      assert Stored(s)[k] == i;
    }
  }

  /** The bag after a history; removing an absent interval does nothing. */
  function Model(ops: seq<Op>): multiset<Interval?> {
    if ops == [] then multiset{} else
      var m := Model(ops[..|ops| - 1]);
      match ops[|ops| - 1]
      case Add(i) => m + multiset{i}
      case Remove(i) => m - multiset{i}
  }

  /** The intervals of the bag that overlap [low, high], each as often as it is in the bag. */
  predicate Answers(result: seq<Interval?>, bag: multiset<Interval?>, low: SimTime, high: SimTime) {
    && (forall i :: i in result ==> i in bag)
    && (forall i :: i in bag ==> multiset(result)[i] == if Wanted(i, low, high) then bag[i] else 0)
  }

  predicate Wanted(i: Interval?, low: SimTime, high: SimTime) {
    i != null && Overlap(low, high, i.low, i.high)
  }

  predicate StoringList(s: seq<Node>) {
    forall n :: n in s ==> n.stored != null && n.key == n.stored.low && n.high == n.stored.high
  }

  lemma {:induction false} ScanCount(s: seq<Node>, i: Interval?, low: SimTime, high: SimTime)
    requires StoringList(s)
    ensures Bag(Scan(s, low, high))[i] == if Wanted(i, low, high) then Bag(s)[i] else 0
  {
    if s != [] {
      assert s == [s[0]] + s[1..] && s[0] in s;
      ScanCount(s[1..], i, low, high);
      BagConcat([s[0]], s[1..]);
      BagConcat(Here(s[0], low, high), Scan(s[1..], low, high));
      assert Stored([s[0]]) == [s[0].stored];
      assert Stored([]) == [];
    }
  }

  lemma ScanAnswers(s: seq<Node>, low: SimTime, high: SimTime)
    requires StoringList(s)
    ensures Answers(Stored(Scan(s, low, high)), Bag(s), low, high)
  {
    var result := Stored(Scan(s, low, high));
    forall i | i in result
      ensures i in Bag(s)
    {
      ScanCount(s, i, low, high);
      assert i in multiset(result);
    }
    forall i | i in Bag(s)
      ensures multiset(result)[i] == if Wanted(i, low, high) then Bag(s)[i] else 0
    {
      ScanCount(s, i, low, high);
    }
  }

  lemma TreeStoringList(t: Tree)
    requires Storing(t)
    ensures StoringList(Inorder(t))
  {
    InorderNodes(t);
    assert forall n :: n in Inorder(t) ==> n in Elems(Inorder(t));
  }

  lemma {:induction false} BagOfPermutation(a: seq<Node>, b: seq<Node>)
    requires multiset(a) == multiset(b)
    ensures Bag(a) == Bag(b)
  {
    if a == [] {
      assert |b| == |multiset(b)| == 0;
    } else {
      assert a == [a[0]] + a[1..];
      assert a[0] in multiset(b);
      var j :| 0 <= j < |b| && b[j] == a[0];
      var rest := b[..j] + b[j + 1..];
      assert b == b[..j] + [b[j]] + b[j + 1..];
      assert multiset(rest) == multiset(b) - multiset{a[0]};
      BagOfPermutation(a[1..], rest);
      BagConcat([a[0]], a[1..]);
      BagConcat(b[..j], b[j + 1..]);
      BagConcat(b[..j] + [b[j]], b[j + 1..]);
      BagConcat(b[..j], [b[j]]);
    }
  }

  lemma AnswersSame(a: seq<Interval?>, b: seq<Interval?>, bag: multiset<Interval?>, low: SimTime, high: SimTime)
    requires multiset(a) == multiset(b) && Answers(a, bag, low, high)
    ensures Answers(b, bag, low, high)
  {
    forall i | i in b
      ensures i in bag
    {
      assert i in multiset(b);
    }
  }

  /** The traversal answers the query for the bag of all stored intervals. */
  lemma VisitAnswers(t: Tree, low: SimTime, high: SimTime)
    requires MaxOk(t) && Ordered(Inorder(t)) && Storing(t) && Proper(t) && low > -MAX_TIME
    ensures Answers(Stored(Visit(t, low, high)), Bag(Inorder(t)), low, high)
  {
    VisitIsScan(t, low, high);
    var v, s := Visit(t, low, high), Scan(Inorder(t), low, high);
    BagOfPermutation(v, s);
    TreeStoringList(t);
    ScanAnswers(Inorder(t), low, high);
    AnswersSame(Stored(s), Stored(v), Bag(Inorder(t)), low, high);
  }

  /** What deleting an interval does to the bag, whether it was found or not. */
  lemma RemovedBag(was: Tree, now: Tree, absent: bool, z: Node, i: Interval)
    requires absent ==> now == was && forall n :: n in Nodes(was) ==> n.stored != i
    requires !absent ==> z.stored == i && z in Nodes(was) && Inorder(now) == Without(Inorder(was), z)
    ensures Bag(Inorder(now)) == Bag(Inorder(was)) - multiset{i}
  {
    InorderNodes(was);
    if absent {
      BagMember(Inorder(was), i);
      assert forall n :: n in Inorder(was) ==> n in Elems(Inorder(was));
    } else {
      assert z in Elems(Inorder(was));
      BagWithout(Inorder(was), z);
    }
  }

  method ApplyAdd(t: IntervalTree, i: Interval)
    requires t.Valid() && t.Idle()
    modifies t`heap, t`tree, t.heap.Keys
    ensures t.Valid() && t.Idle() && fresh(t.heap.Keys - old(t.heap.Keys))
    ensures Bag(Inorder(t.tree)) == old(Bag(Inorder(t.tree))) + multiset{i}
  {
    ghost var was := Inorder(t.tree);
    var z := t.Insert(i);
    BagInsertSorted(was, z);
  }

  method ApplyRemove(t: IntervalTree, i: Interval)
    requires t.Valid() && t.Idle()
    modifies t`heap, t`tree, t.heap.Keys
    ensures t.Valid() && t.Idle() && fresh(t.heap.Keys - old(t.heap.Keys))
    ensures Bag(Inorder(t.tree)) == old(Bag(Inorder(t.tree))) - multiset{i}
  {
    ghost var was := t.tree;
    ghost var z := t.DeleteInterval(i);
    RemovedBag(was, t.tree, z == t.nil, z, i);
  }

  /** Performs one operation. */
  method Apply(t: IntervalTree, op: Op)
    requires t.Valid() && t.Idle()
    modifies t`heap, t`tree, t.heap.Keys
    ensures t.Valid() && t.Idle() && fresh(t.heap.Keys - old(t.heap.Keys))
    ensures Bag(Inorder(t.tree)) == match op
      case Add(i) => old(Bag(Inorder(t.tree))) + multiset{i}
      case Remove(i) => old(Bag(Inorder(t.tree))) - multiset{i}
  {
    match op {
      case Add(i) => ApplyAdd(t, i);
      case Remove(i) => ApplyRemove(t, i);
    }
  }

  /** Performs a history on an empty tree. */
  method Replay(ops: seq<Op>) returns (t: IntervalTree)
    ensures fresh(t) && fresh(t.heap.Keys) && t.Valid() && t.Idle() && Bag(Inorder(t.tree)) == Model(ops)
  {
    if ops == [] {
      t := new IntervalTree();
      assert Stored([]) == [];
    } else {
      t := Replay(ops[..|ops| - 1]);
      Apply(t, ops[|ops| - 1]);
    }
  }

  /** Any history of proper intervals, then a query. */
  method ReplayAndQuery(ops: seq<Op>, low: SimTime, high: SimTime) returns (result: seq<Interval?>)
    requires low > -MAX_TIME && forall op :: op in ops ==> op.i.low <= op.i.high
    ensures Answers(result, Model(ops), low, high)
  {
    var t := Replay(ops);
    ModelProper(ops);
    TreeProper(t.tree);
    result := t.Query(low, high);
    VisitAnswers(t.tree, low, high);
  }

  lemma {:induction false} ModelProper(ops: seq<Op>)
    requires forall op :: op in ops ==> op.i.low <= op.i.high
    ensures forall i: Interval? :: i in Model(ops) && i != null ==> i.low <= i.high
  {
    if ops != [] {
      assert ops[|ops| - 1] in ops;
      assert forall op :: op in ops[..|ops| - 1] ==> op in ops;
      ModelProper(ops[..|ops| - 1]);
    }
  }

  lemma TreeProper(t: Tree)
    requires Storing(t) && forall i: Interval? :: i in Bag(Inorder(t)) && i != null ==> i.low <= i.high
    ensures Proper(t)
  {
    InorderNodes(t);
    forall n | n in Nodes(t)
      ensures n.key <= n.high
    {
      assert n in Elems(Inorder(t));
      BagMember(Inorder(t), n.stored);
    }
  }
}
