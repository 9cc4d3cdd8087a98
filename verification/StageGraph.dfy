/** Dependencies between initialization stages as a graph over the positions of the stages. */
module StageGraph {
  import opened Options

  /** The first stage of a name. */
  function Find(names: seq<string>, name: string): (r: Option<nat>)
    ensures r.Some? ==> r.value < |names| && names[r.value] == name && name !in names[..r.value]
    ensures r.None? <==> name !in names
  {
    if names == [] then None
    else if names[0] == name then Some(0)
    else
      match Find(names[1..], name)
      case None => None
      case Some(i) => assert names[1..][..i] == names[1..i + 1]; Some(i + 1)
  }

  /** A dependency (source, target): the source comes after the target. */
  type Dependency = (string, string)

  predicate Known(names: seq<string>, deps: seq<Dependency>) {
    forall d :: d in deps ==> d.0 in names && d.1 in names
  }

  lemma PrefixStep(deps: seq<Dependency>, n: nat)
    requires n < |deps|
    ensures deps[..n] + [deps[n]] == deps[..n + 1]
  {
  }

  lemma WholePrefix(deps: seq<Dependency>)
    ensures deps[..|deps|] == deps
  {
  }

  predicate WellFormed(pre: seq<seq<nat>>) {
    forall i, k :: 0 <= i < |pre| && 0 <= k < |pre[i]| ==> pre[i][k] < |pre|
  }

  function NoEdges(n: nat): (pre: seq<seq<nat>>)
    ensures |pre| == n && forall i :: 0 <= i < n ==> pre[i] == []
  {
    if n == 0 then [] else NoEdges(n - 1) + [[]]
  }

  /** For every stage, the stages it has to wait for. */
  function Graph(names: seq<string>, deps: seq<Dependency>): (pre: seq<seq<nat>>)
    requires Known(names, deps)
    ensures |pre| == |names| && WellFormed(pre)
  {
    if deps == [] then NoEdges(|names|) else
      var d := deps[|deps| - 1];
      assert d in deps;
      AddEdge(Graph(names, deps[..|deps| - 1]), Find(names, d.0).value, Find(names, d.1).value)
  }

  function AddEdge(pre: seq<seq<nat>>, i: nat, j: nat): (r: seq<seq<nat>>)
    requires WellFormed(pre) && i < |pre| && j < |pre|
    ensures |r| == |pre| && WellFormed(r)
  {
    pre[i := pre[i] + [j]]
  }

  lemma GraphStep(names: seq<string>, deps: seq<Dependency>, d: Dependency)
    requires Known(names, deps) && d.0 in names && d.1 in names
    ensures Known(names, deps + [d])
    ensures Graph(names, deps + [d]) == AddEdge(Graph(names, deps), Find(names, d.0).value, Find(names, d.1).value)
  {
    assert (deps + [d])[..|deps|] == deps;
  }

  predicate DependsOn(names: seq<string>, d: Dependency, i: nat, j: nat) {
    Find(names, d.0) == Some(i) && Find(names, d.1) == Some(j)
  }

  /** Every dependency is an edge, and every edge a dependency. */
  lemma {:induction false} EdgesAreDependencies(names: seq<string>, deps: seq<Dependency>, i: nat, j: nat)
    requires Known(names, deps) && i < |names|
    ensures j in Graph(names, deps)[i] <==> exists d :: d in deps && DependsOn(names, d, i, j)
  {
    if deps != [] {
      var d, rest := deps[|deps| - 1], deps[..|deps| - 1];
      EdgesAreDependencies(names, rest, i, j);
      assert d in deps && deps == rest + [d];
    }
  }

  // ---------- cycles ----------

  predicate IsWalk(pre: seq<seq<nat>>, p: seq<nat>)
    requires WellFormed(pre)
  {
    && p != [] && (forall k :: 0 <= k < |p| ==> p[k] < |pre|)
    && forall k :: 0 <= k < |p| - 1 ==> p[k + 1] in pre[p[k]]
  }

  ghost predicate HasCycle(pre: seq<seq<nat>>)
    requires WellFormed(pre)
  {
    exists p :: |p| > 1 && IsWalk(pre, p) && p[0] == p[|p| - 1]
  }

  /** The numbers go down along every edge out of a numbered stage. */
  predicate Respects(pre: seq<seq<nat>>, num: seq<int>)
    requires WellFormed(pre) && |num| == |pre|
  {
    forall i, k :: 0 <= i < |pre| && 0 <= k < |pre[i]| && num[i] >= 0 ==> 0 <= num[pre[i][k]] < num[i]
  }

  lemma {:induction false} WalkGoesDown(pre: seq<seq<nat>>, num: seq<int>, p: seq<nat>)
    requires WellFormed(pre) && |num| == |pre| && Respects(pre, num) && IsWalk(pre, p) && num[p[0]] >= 0
    ensures 0 <= num[p[|p| - 1]] && (|p| > 1 ==> num[p[|p| - 1]] < num[p[0]])
  {
    if |p| > 1 {
      var q := p[..|p| - 1];
      WalkGoesDown(pre, num, q);
      var i := p[|p| - 2];
      assert p[|p| - 2 + 1] in pre[i];
    }
  }

  /** A graph whose stages can all be numbered has no cycle. */
  lemma NumberedHasNoCycle(pre: seq<seq<nat>>, num: seq<int>)
    requires WellFormed(pre) && |num| == |pre| && Respects(pre, num) && (forall i :: 0 <= i < |num| ==> num[i] >= 0)
    ensures !HasCycle(pre)
  {
    forall p | |p| > 1 && IsWalk(pre, p)
      ensures p[0] != p[|p| - 1]
    {
      WalkGoesDown(pre, num, p);
    }
  }

  /** Every unnumbered stage waits for another unnumbered one. */
  predicate Waiting(pre: seq<seq<nat>>, num: seq<int>, i: nat)
    requires WellFormed(pre) && |num| == |pre| && i < |pre|
  {
    exists k :: 0 <= k < |pre[i]| && num[pre[i][k]] == -1
  }

  predicate Stuck(pre: seq<seq<nat>>, num: seq<int>)
    requires WellFormed(pre) && |num| == |pre|
  {
    forall i :: 0 <= i < |pre| && num[i] == -1 ==> Waiting(pre, num, i)
  }

  predicate DistinctWalk(pre: seq<seq<nat>>, num: seq<int>, p: seq<nat>)
    requires WellFormed(pre) && |num| == |pre|
  {
    IsWalk(pre, p) && (forall k :: 0 <= k < |p| ==> num[p[k]] == -1) &&
      (forall j, k :: 0 <= j < k < |p| ==> p[j] != p[k])
  }

  lemma {:induction false} DistinctFits(p: seq<nat>, n: nat)
    requires (forall k :: 0 <= k < |p| ==> p[k] < n) && (forall j, k :: 0 <= j < k < |p| ==> p[j] != p[k])
    ensures |p| <= n
  {
    DistinctSize(p);
    var s := set k | 0 <= k < |p| :: p[k];
    assert s <= Below(n);
    SubsetSize(s, Below(n));
  }

  lemma {:induction false} DistinctSize(p: seq<nat>)
    requires forall j, k :: 0 <= j < k < |p| ==> p[j] != p[k]
    ensures |(set k | 0 <= k < |p| :: p[k])| == |p|
  {
    if p != [] {
      var q, x := p[..|p| - 1], p[|p| - 1];
      DistinctSize(q);
      assert (set k | 0 <= k < |p| :: p[k]) == (set k | 0 <= k < |q| :: q[k]) + {x};
    }
  }

  /** The numbers below n. */
  ghost function Below(n: nat): (r: set<nat>)
    ensures |r| == n && forall k: nat :: k in r <==> k < n
  {
    if n == 0 then {} else Below(n - 1) + {n - 1}
  }

  lemma {:induction false} SubsetSize(a: set<nat>, b: set<nat>)
    requires a <= b
    ensures |a| <= |b| && (|a| == |b| ==> a == b)
  {
    if a != {} {
      var x :| x in a;
      SubsetSize(a - {x}, b - {x});
    } else if |b| == 0 {
      assert b == {};
    }
  }

  lemma CloseCycle(pre: seq<seq<nat>>, q: seq<nat>, j: nat)
    requires WellFormed(pre) && IsWalk(pre, q) && j < |q| - 1 && q[j] == q[|q| - 1]
    ensures HasCycle(pre)
  {
    var c := q[j..];
    forall k | 0 <= k < |c| - 1
      ensures c[k + 1] in pre[c[k]]
    {
      assert q[j + k + 1] in pre[q[j + k]];
    }
    assert IsWalk(pre, c) && c[0] == c[|c| - 1];
  }

  /** A walk through unnumbered stages can go on. */
  lemma StepOn(pre: seq<seq<nat>>, num: seq<int>, p: seq<nat>) returns (next: nat)
    requires WellFormed(pre) && |num| == |pre| && Stuck(pre, num) && DistinctWalk(pre, num, p)
    ensures next < |pre| && num[next] == -1 && IsWalk(pre, p + [next])
  {
    var i := p[|p| - 1];
    assert Waiting(pre, num, i);
    var k :| 0 <= k < |pre[i]| && num[pre[i][k]] == -1;
    next := pre[i][k];
  }

  /** Walking on through unnumbered stages comes back to an earlier one. */
  lemma {:induction false} WalkFindsCycle(pre: seq<seq<nat>>, num: seq<int>, p: seq<nat>)
    requires WellFormed(pre) && |num| == |pre| && Stuck(pre, num) && DistinctWalk(pre, num, p)
    ensures HasCycle(pre)
    decreases |pre| - |p|
  {
    DistinctFits(p, |pre|);
    var next := StepOn(pre, num, p);
    var q := p + [next];
    if j :| 0 <= j < |p| && p[j] == next {
      CloseCycle(pre, q, j);
    } else {
      DistinctFits(q, |pre|);
      WalkFindsCycle(pre, num, q);
    }
  }

  /** If no stage can be numbered and one is left, there is a cycle. */
  lemma StuckHasCycle(pre: seq<seq<nat>>, num: seq<int>, i: nat)
    requires WellFormed(pre) && |num| == |pre| && Stuck(pre, num) && i < |pre| && num[i] == -1
    ensures HasCycle(pre)
  {
    WalkFindsCycle(pre, num, [i]);
  }

  // ---------- partial numberings ----------

  ghost function Numbered(num: seq<int>): set<nat> {
    set i: nat | i < |num| && num[i] >= 0
  }

  /** count stages have the numbers below count, and wait for nothing unnumbered. */
  ghost predicate Partial(pre: seq<seq<nat>>, num: seq<int>, count: int)
    requires WellFormed(pre) && |num| == |pre|
  {
    && (forall i :: 0 <= i < |num| ==> -1 <= num[i] < count)
    && (forall i, j :: 0 <= i < j < |num| && num[i] == num[j] ==> num[i] == -1)
    && |Numbered(num)| == count
    && Respects(pre, num)
  }

  predicate Unnumbered(num: seq<int>) {
    forall i :: 0 <= i < |num| ==> num[i] == -1
  }

  lemma StartPartial(pre: seq<seq<nat>>, num: seq<int>)
    requires WellFormed(pre) && |num| == |pre| && Unnumbered(num)
    ensures Partial(pre, num, 0)
  {
    assert Numbered(num) == {};
  }

  lemma NumberOne(pre: seq<seq<nat>>, num: seq<int>, count: int, i: nat)
    requires WellFormed(pre) && |num| == |pre| && Partial(pre, num, count) && i < |pre| && num[i] == -1 &&
      !Waiting(pre, num, i)
    ensures Partial(pre, num[i := count], count + 1)
  {
    assert Numbered(num[i := count]) == Numbered(num) + {i};
    NumberRespects(pre, num, count, i);
  }

  lemma NumberRespects(pre: seq<seq<nat>>, num: seq<int>, count: int, i: nat)
    requires WellFormed(pre) && |num| == |pre| && Respects(pre, num) &&
      forall j :: 0 <= j < |num| ==> -1 <= num[j] < count
    requires i < |pre| && num[i] == -1 && !Waiting(pre, num, i)
    ensures Respects(pre, num[i := count])
  {
    assert forall k :: 0 <= k < |pre[i]| ==> num[pre[i][k]] != -1;
  }

  lemma CountBound(pre: seq<seq<nat>>, num: seq<int>, count: int)
    requires WellFormed(pre) && |num| == |pre| && Partial(pre, num, count)
    ensures 0 <= count <= |num|
    ensures count == |num| <==> forall i :: 0 <= i < |num| ==> num[i] >= 0
  {
    var all := Below(|num|);
    SubsetSize(Numbered(num), all);
    if count == |num| {
      forall i: nat | i < |num|
        ensures num[i] >= 0
      {
        assert i in all;
      }
    }
    if forall i :: 0 <= i < |num| ==> num[i] >= 0 {
      assert Numbered(num) == all;
    }
  }

  /** The order of the stages is one of the allowed orders. */
  predicate InOrder(pre: seq<seq<nat>>)
    requires WellFormed(pre)
  {
    forall i, k :: 0 <= i < |pre| && 0 <= k < |pre[i]| ==> pre[i][k] < i
  }

  lemma {:induction false} FindAppended(names: seq<string>, more: seq<string>, name: string)
    requires name in names
    ensures Find(names + more, name) == Find(names, name)
  {
    var i, j := Find(names, name).value, Find(names + more, name).value;
    FirstIsLeast(names, name, i, names + more, j);
  }

  lemma FirstIsLeast(a: seq<string>, name: string, i: nat, b: seq<string>, j: nat)
    requires a <= b && i < |a| && j < |b| && a[i] == name && b[j] == name && name !in a[..i] && name !in b[..j]
    ensures i == j
  {
    assert forall k :: 0 <= k < i ==> a[..i][k] == a[k] == b[k];
    assert forall k :: 0 <= k < j ==> b[..j][k] == b[k];
  }

  lemma {:induction false} GraphAppended(names: seq<string>, name: string, deps: seq<Dependency>)
    requires Known(names, deps)
    ensures Known(names + [name], deps)
    ensures Graph(names + [name], deps) == Graph(names, deps) + [[]]
  {
    if deps != [] {
      var d := deps[|deps| - 1];
      assert d in deps;
      GraphAppended(names, name, deps[..|deps| - 1]);
      FindAppended(names, [name], d.0);
      FindAppended(names, [name], d.1);
    }
  }

  /** A new stage at the end keeps the order. */
  lemma NewStageKeepsOrder(names: seq<string>, name: string, deps: seq<Dependency>)
    requires Known(names, deps) && InOrder(Graph(names, deps))
    ensures Known(names + [name], deps) && InOrder(Graph(names + [name], deps))
  {
    GraphAppended(names, name, deps);
  }

  /** A dependency that the order respects already keeps it. */
  lemma RespectedDependencyKeepsOrder(names: seq<string>, deps: seq<Dependency>, source: string, target: string)
    requires Known(names, deps) && InOrder(Graph(names, deps)) && source in names && target in names
    requires Find(names, target).value < Find(names, source).value
    ensures Known(names, deps + [(source, target)]) && InOrder(Graph(names, deps + [(source, target)]))
  {
    GraphStep(names, deps, (source, target));
  }
}
