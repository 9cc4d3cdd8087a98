/** The registry of initialization stages: numbering by repeated passes, and the cached count. */
module InitStages {
  import opened Options
  import opened StageGraph

  /** What numbering ends with; the two failures are exceptions of the source. */
  datatype Outcome = Assigned | UnknownStage | Circle

  class InitStage {
    const name: string

    constructor (name: string)
      ensures this.name == name
    {
      this.name := name;
    }
  }

  class Stage {
    const stageDecl: InitStage
    var number: int
    var precedingStages: seq<Stage>
    var followingStages: seq<Stage>

    constructor (decl: InitStage)
      ensures stageDecl == decl && number == -1 && precedingStages == [] && followingStages == []
    {
      stageDecl := decl;
      number := -1;
      precedingStages := [];
      followingStages := [];
    }
  }

  ghost function NamesOf(stages: seq<Stage>): (names: seq<string>)
    ensures |names| == |stages| && forall i :: 0 <= i < |stages| ==> names[i] == stages[i].stageDecl.name
  {
    if stages == [] then [] else NamesOf(stages[..|stages| - 1]) + [stages[|stages| - 1].stageDecl.name]
  }

  /** The preceding stages of every stage in the table are those at the positions in pre. */
  ghost predicate Linked(table: seq<Stage>, pre: seq<seq<nat>>)
    requires |pre| == |table| && WellFormed(pre)
    reads table
  {
    forall i :: 0 <= i < |table| ==> LinksOf(table, table[i].precedingStages, pre[i])
  }

  ghost predicate LinksOf(table: seq<Stage>, links: seq<Stage>, positions: seq<nat>) {
    |links| == |positions| && forall k :: 0 <= k < |positions| ==>
      positions[k] < |table| && links[k] == table[positions[k]]
  }

  ghost predicate DistinctStages(table: seq<Stage>) {
    forall i, j :: 0 <= i < j < |table| ==> table[i] != table[j]
  }

  /** Links two stages. */
  method LinkOne(table: seq<Stage>, following: Stage, preceding: Stage, ghost pre: seq<seq<nat>>, ghost i: nat,
      ghost j: nat)
    requires DistinctStages(table) && |pre| == |table| && WellFormed(pre) && Linked(table, pre)
    requires i < |table| && j < |table| && following == table[i] && preceding == table[j]
    modifies following`precedingStages, preceding`followingStages
    ensures Linked(table, AddEdge(pre, i, j))
  {
    preceding.followingStages := preceding.followingStages + [following];
    following.precedingStages := following.precedingStages + [preceding];
  }

  class InitStageRegistry {
    var numInitStages: int   // -1: not assigned
    var stages: seq<Stage>
    var dependencies: seq<Dependency>

    ghost predicate Distinct()
      reads this
    {
      DistinctStages(stages)
    }

    /** The stages are numbered by position, in an order that the dependencies allow. */
    ghost predicate Current()
      reads this, stages
    {
      && numInitStages == |stages|
      && (forall i :: 0 <= i < |stages| ==> stages[i].number == i)
      && OrderFits(stages, dependencies)
    }

    ghost predicate Valid()
      reads this, stages
    {
      Distinct() && (numInitStages == -1 || Current())
    }

    constructor ()
      ensures Valid() && stages == [] && dependencies == [] && numInitStages == -1
    {
      numInitStages := -1;
      stages := [];
      dependencies := [];
    }

    method AddInitStage(decl: InitStage)
      requires Valid()
      modifies this
      ensures Valid() && numInitStages == -1 && dependencies == old(dependencies)
      ensures |stages| == |old(stages)| + 1 && stages[..|old(stages)|] == old(stages) && fresh(stages[|old(stages)|])
      ensures stages[|old(stages)|].stageDecl == decl && NamesOf(stages) == NamesOf(old(stages)) + [decl.name]
    {
      var stage := new Stage(decl);
      stages := stages + [stage];
      numInitStages := -1;
    }

    method AddInitStageDependency(source: string, target: string)
      requires Valid()
      modifies this
      ensures Valid() && numInitStages == -1 && stages == old(stages) &&
        dependencies == old(dependencies) + [(source, target)]
    {
      dependencies := dependencies + [(source, target)];
      numInitStages := -1;
    }

    /** The first stage of a name; none is an exception. */
    method GetInitStage(name: string) returns (r: Option<Stage>)
      ensures match Find(NamesOf(stages), name)
        case None => r == None
        case Some(i) => r == Some(stages[i])
    {
      for i := 0 to |stages|
        invariant name !in NamesOf(stages)[..i]
      {
        if stages[i].stageDecl.name == name {
          assert NamesOf(stages)[i] == name;
          FirstIsLeast(NamesOf(stages), name, i, NamesOf(stages), Find(NamesOf(stages), name).value);
          return Some(stages[i]);
        }
        assert NamesOf(stages)[..i + 1] == NamesOf(stages)[..i] + [NamesOf(stages)[i]];
      }
      assert NamesOf(stages)[..|stages|] == NamesOf(stages);
      return None;
    }

    /** Everything but the records' link fields and numbers stays. */
    twostate predicate SameTable()
      reads this
    {
      stages == old(stages) && dependencies == old(dependencies)
    }

    method Reset()
      requires Distinct()
      modifies stages
      ensures SameTable() && numInitStages == old(numInitStages)
      ensures forall s :: s in stages ==> s.number == -1 && s.precedingStages == [] && s.followingStages == []
    {
      for i := 0 to |stages|
        invariant SameTable() && numInitStages == old(numInitStages)
        invariant forall j :: 0 <= j < i ==>
          stages[j].number == -1 && stages[j].precedingStages == [] && stages[j].followingStages == []
      {
        stages[i].number := -1;
        stages[i].followingStages := [];
        stages[i].precedingStages := [];
      }
    }

    /** Links the stages; fails at the first dependency with an unknown name. */
    method LinkStages() returns (ok: bool)
      requires Distinct()
      requires forall s :: s in stages ==> s.number == -1 && s.precedingStages == []
      modifies stages
      ensures SameTable() && numInitStages == old(numInitStages)
      ensures ok <==> Known(NamesOf(stages), dependencies)
      ensures ok ==> Linked(stages, Graph(NamesOf(stages), dependencies)) && forall s :: s in stages ==> s.number == -1
    {
      ghost var names, deps := NamesOf(stages), dependencies;
      ghost var pre := Graph(names, []);
      for n := 0 to |dependencies|
        invariant SameTable() && numInitStages == old(numInitStages)
        invariant Known(names, deps[..n]) && pre == Graph(names, deps[..n]) && Linked(stages, pre)
        invariant forall s :: s in stages ==> s.number == -1
      {
        var linked := LinkDependency(dependencies[n], names, pre);
        if !linked {
          assert deps[n] in deps;
          return false;
        }
        GraphStep(names, deps[..n], deps[n]);
        PrefixStep(deps, n);
        pre := AddEdge(pre, Find(names, deps[n].0).value, Find(names, deps[n].1).value);
      }
      WholePrefix(deps);
      ok := true;
    }

    method LinkDependency(d: Dependency, ghost names: seq<string>, ghost pre: seq<seq<nat>>) returns (ok: bool)
      requires Distinct() && names == NamesOf(stages) && |pre| == |stages| && WellFormed(pre) && Linked(stages, pre)
      modifies stages
      ensures SameTable() && numInitStages == old(numInitStages)
      ensures ok <==> d.0 in names && d.1 in names
      ensures ok ==> Linked(stages, AddEdge(pre, Find(names, d.0).value, Find(names, d.1).value))
      ensures forall s :: s in stages ==> s.number == old(s.number)
    {
      var following := GetInitStage(d.0);
      var preceding := GetInitStage(d.1);
      if following.None? || preceding.None? {
        return false;
      }
      LinkOne(stages, following.value, preceding.value, pre, Find(names, d.0).value, Find(names, d.1).value);
      ok := true;
    }

    /** The stage waits for none, or for numbered ones only. */
    static method Ready(stage: Stage, ghost table: seq<Stage>, ghost pre: seq<seq<nat>>, ghost num: seq<int>,
        ghost i: nat) returns (ready: bool)
      requires |pre| == |table| && WellFormed(pre) && Linked(table, pre) && HasNumbers(table, num) && i < |table| &&
        stage == table[i]
      ensures ready <==> !Waiting(pre, num, i)
    {
      assert LinksOf(table, stage.precedingStages, pre[i]);
      for k := 0 to |stage.precedingStages|
        invariant forall j :: 0 <= j < k ==> num[pre[i][j]] != -1
      {
        if stage.precedingStages[k].number == -1 {
          assert num[pre[i][k]] == -1;
          return false;
        }
      }
      return true;
    }

    /** Until a number is given, the stages before position n wait for an unnumbered one. */
    static ghost predicate WaitingTo(pre: seq<seq<nat>>, num: seq<int>, n: nat)
      requires WellFormed(pre) && |num| == |pre|
    {
      forall i :: 0 <= i < n && i < |pre| && num[i] == -1 ==> Waiting(pre, num, i)
    }

    static ghost predicate NumberedTo(num: seq<int>, n: nat) {
      forall i :: 0 <= i < |num| ==> num[i] == if i < n then i else -1
    }

    /** What one pass keeps, up to position n. */
    static ghost predicate PassTo(pre: seq<seq<nat>>, before: seq<int>, start: int, num: seq<int>, count: int,
        progress: bool, n: nat)
      requires WellFormed(pre) && |num| == |pre| == |before|
    {
      && Partial(pre, num, count) && (if progress then start < count else num == before && start == count)
      && (!progress ==> WaitingTo(pre, num, n))
      && (InOrder(pre) && Unnumbered(before) && start == 0 ==> count == n && NumberedTo(num, n))
    }

    static lemma PassStep(pre: seq<seq<nat>>, before: seq<int>, start: int, num: seq<int>, count: int, progress: bool,
        n: nat)
      requires WellFormed(pre) && |num| == |pre| == |before| && n < |pre| &&
        PassTo(pre, before, start, num, count, progress, n)
      ensures num[n] == -1 && !Waiting(pre, num, n) ==>
        PassTo(pre, before, start, num[n := count], count + 1, true, n + 1)
      ensures num[n] != -1 || Waiting(pre, num, n) ==> PassTo(pre, before, start, num, count, progress, n + 1)
    {
      if num[n] == -1 && !Waiting(pre, num, n) {
        NumberOne(pre, num, count, n);
      } else if InOrder(pre) && Unnumbered(before) && start == 0 {
        NoneToWaitFor(pre, num, n);
      }
    }

    /** In an allowed order, the next stage never waits. */
    static lemma NoneToWaitFor(pre: seq<seq<nat>>, num: seq<int>, n: nat)
      requires WellFormed(pre) && |num| == |pre| && n < |pre| && InOrder(pre) && NumberedTo(num, n)
      ensures num[n] == -1 && !Waiting(pre, num, n)
    {
    }

    /** The next number goes to stage i. */
    method NumberStage(stage: Stage, ghost i: nat, ghost pre: seq<seq<nat>>, ghost num: seq<int>)
      requires Distinct() && |pre| == |stages| && WellFormed(pre) && Linked(stages, pre) && HasNumbers(stages, num) &&
        i < |stages| && stage == stages[i]
      modifies stage`number, this`numInitStages
      ensures SameTable() && Linked(stages, pre) && HasNumbers(stages, num[i := old(numInitStages)])
      ensures numInitStages == old(numInitStages) + 1
    {
      stage.number := numInitStages;
      numInitStages := numInitStages + 1;
    }

    /** One stage of a pass: it gets the next number if it has none and waits for none unnumbered. */
    method Visit(i: nat, ghost pre: seq<seq<nat>>, ghost before: seq<int>) returns (numbered: bool, ghost num: seq<int>)
      requires Distinct() && |pre| == |stages| && WellFormed(pre) && Linked(stages, pre) &&
        HasNumbers(stages, before) && i < |stages|
      modifies stages, this`numInitStages
      ensures SameTable() && Linked(stages, pre) && HasNumbers(stages, num)
      ensures numbered <==> before[i] == -1 && !Waiting(pre, before, i)
      ensures num == if numbered then before[i := old(numInitStages)] else before
      ensures numInitStages == old(numInitStages) + if numbered then 1 else 0
    {
      numbered, num := false, before;
      if stages[i].number == -1 {
        numbered := Ready(stages[i], stages, pre, num, i);
        if numbered {
          num := num[i := numInitStages];
          NumberStage(stages[i], i, pre, before);
        }
      }
    }

    /** One turn of a pass. */
    method Turn(i: nat, ghost pre: seq<seq<nat>>, ghost before: seq<int>, ghost start: int, ghost last: seq<int>,
        progress: bool)
      returns (numbered: bool, ghost num: seq<int>)
      requires Distinct() && |pre| == |stages| == |before| && WellFormed(pre) && Linked(stages, pre) &&
        HasNumbers(stages, last) && i < |stages|
      requires PassTo(pre, before, start, last, numInitStages, progress, i)
      modifies stages, this`numInitStages
      ensures SameTable() && Linked(stages, pre) && HasNumbers(stages, num)
      ensures PassTo(pre, before, start, num, numInitStages, progress || numbered, i + 1)
    {
      PassStep(pre, before, start, last, numInitStages, progress, i);
      numbered, num := Visit(i, pre, last);
    }

    /** One pass over the stages: every stage that waits for none unnumbered gets the next number. */
    method Pass(ghost pre: seq<seq<nat>>, ghost before: seq<int>) returns (progress: bool, ghost num: seq<int>)
      requires Distinct() && |pre| == |stages| && WellFormed(pre) && Linked(stages, pre) && HasNumbers(stages, before)
      requires Partial(pre, before, numInitStages) && (Unnumbered(before) ==> numInitStages == 0)
      modifies stages, this`numInitStages
      ensures SameTable() && Linked(stages, pre) && HasNumbers(stages, num)
      ensures PassTo(pre, before, old(numInitStages), num, numInitStages, progress, |stages|)
    {
      progress := false;
      num := before;
      for i := 0 to |stages|
        invariant SameTable() && Linked(stages, pre) && HasNumbers(stages, num)
        invariant PassTo(pre, before, old(numInitStages), num, numInitStages, progress, i)
      {
        var numbered: bool;
        numbered, num := Turn(i, pre, before, old(numInitStages), num, progress);
        if numbered {
          progress := true;
        }
      }
    }

    /** Passes until every stage has a number, or one pass makes no progress. */
    method NumberAll(ghost pre: seq<seq<nat>>) returns (done: bool, ghost num: seq<int>)
      requires Distinct() && |pre| == |stages| && WellFormed(pre) && Linked(stages, pre) &&
        (forall s :: s in stages ==> s.number == -1)
      modifies stages, this`numInitStages
      ensures SameTable() && HasNumbers(stages, num) && (done <==> !HasCycle(pre))
      ensures !done ==> 0 <= numInitStages < |stages|
      ensures done ==>
        numInitStages == |stages| && Partial(pre, num, |stages|) && (forall i :: 0 <= i < |num| ==> num[i] >= 0)
      ensures done && InOrder(pre) ==> forall i :: 0 <= i < |num| ==> num[i] == i
    {
      num := Minus(|stages|);
      numInitStages := 0;
      StartPartial(pre, num);
      while numInitStages < |stages|
        invariant SameTable() && Linked(stages, pre) && HasNumbers(stages, num) && Partial(pre, num, numInitStages)
        invariant 0 <= numInitStages <= |stages| && (numInitStages == 0 <==> Unnumbered(num))
        invariant InOrder(pre) && numInitStages > 0 ==> forall i :: 0 <= i < |num| ==> num[i] == i
        decreases |stages| - numInitStages
      {
        ghost var before, start := num, numInitStages;
        var progress: bool;
        progress, num := Pass(pre, num);
        AfterPass(pre, before, start, num, numInitStages, progress);
        if !progress {
          return false, num;
        }
      }
      CountBound(pre, num, numInitStages);
      NumberedHasNoCycle(pre, num);
      done := true;
    }

    static lemma AfterPass(pre: seq<seq<nat>>, before: seq<int>, start: int, num: seq<int>, count: int, progress: bool)
      requires WellFormed(pre) && |num| == |pre| == |before| && Partial(pre, before, start) && 0 <= start < |pre|
      requires PassTo(pre, before, start, num, count, progress, |pre|)
      requires (start == 0 <==> Unnumbered(before)) &&
        (InOrder(pre) && start > 0 ==> forall i :: 0 <= i < |num| ==> before[i] == i)
      ensures 0 <= count <= |pre|
      ensures !progress ==> HasCycle(pre) && count < |pre|
      ensures progress ==> !Unnumbered(num) && (InOrder(pre) ==> forall i :: 0 <= i < |num| ==> num[i] == i)
    {
      CountBound(pre, num, count);
      CountBound(pre, before, start);
      if !progress {
        var i :| 0 <= i < |num| && num[i] < 0;
        StuckHasCycle(pre, num, i);
      } else {
        NoneNumbered(num);
      }
    }

    static lemma NoneNumbered(num: seq<int>)
      ensures Unnumbered(num) ==> Numbered(num) == {}
    {
    }

    /** Puts every stage at the position of its number. */
    method SortStages(ghost pre: seq<seq<nat>>, ghost num: seq<int>)
      requires Distinct() && |pre| == |stages| && WellFormed(pre) && HasNumbers(stages, num)
      requires Partial(pre, num, |stages|) && (forall i :: 0 <= i < |num| ==> num[i] >= 0)
      modifies this`stages
      ensures |stages| == |old(stages)| && forall i :: 0 <= i < |num| ==> stages[num[i]] == old(stages)[i]
    {
      var table, sorted := stages, stages;
      for i := 0 to |table|
        invariant |sorted| == |table| && forall k :: 0 <= k < i ==> sorted[num[k]] == table[k]
      {
        sorted := sorted[table[i].number := table[i]];
      }
      stages := sorted;
    }

    /** Numbers all stages, as the dependencies allow, and puts them in the order of their numbers; or
        fails, for an unknown name, or when the dependencies have a cycle and only then. */
    method AssignInitStageNumbers() returns (outcome: Outcome)
      requires Distinct()
      modifies this`numInitStages, this`stages, stages
      ensures outcome.UnknownStage? <==> !Known(NamesOf(old(stages)), dependencies)
      ensures !outcome.UnknownStage? ==> (outcome.Circle? <==> HasCycle(Graph(NamesOf(old(stages)), dependencies)))
      ensures outcome.Assigned? ==>
        numInitStages == |stages| && Renumbered(old(stages), stages, Graph(NamesOf(old(stages)), dependencies))
      ensures outcome.Assigned? && DistinctNames(NamesOf(old(stages))) ==> Valid()
      ensures outcome.Assigned? && DistinctNames(NamesOf(old(stages))) ==> TargetsFirst(stages, dependencies)
      ensures outcome.Assigned? ==> KeptInOrder(Graph(NamesOf(old(stages)), dependencies), old(stages), stages)
      ensures !outcome.Assigned? ==> stages == old(stages)
      ensures outcome.UnknownStage? ==> numInitStages == old(numInitStages)
      ensures outcome.Circle? ==> 0 <= numInitStages < |stages|
    {
      ghost var table, deps := stages, dependencies;
      outcome := AssignTable(table, deps, Known(NamesOf(table), deps));
      if outcome.Assigned? && DistinctNames(NamesOf(table)) {
        NowCurrent(table);
      }
    }

    lemma NowCurrent(before: seq<Stage>)
      requires Known(NamesOf(before), dependencies) && DistinctNames(NamesOf(before)) && numInitStages == |stages|
      requires Renumbered(before, stages, Graph(NamesOf(before), dependencies))
      ensures Valid() && TargetsFirst(stages, dependencies)
    {
      RenumberedInOrder(before, stages, dependencies);
      OrderPutsTargetsFirst(stages, dependencies);
    }

    method AssignTable(ghost table: seq<Stage>, ghost deps: seq<Dependency>, ghost known: bool)
        returns (outcome: Outcome)
      requires Distinct() && table == stages && deps == dependencies && known == Known(NamesOf(table), deps)
      modifies this`numInitStages, this`stages, stages
      ensures outcome.UnknownStage? <==> !known
      ensures known ==> (outcome.Circle? <==> HasCycle(Graph(NamesOf(table), deps)))
      ensures known && outcome.Assigned? ==>
        numInitStages == |stages| && Renumbered(table, stages, Graph(NamesOf(table), deps))
      ensures known && outcome.Assigned? ==> KeptInOrder(Graph(NamesOf(table), deps), table, stages)
      ensures !outcome.Assigned? ==> stages == table
      ensures outcome.UnknownStage? ==> numInitStages == old(numInitStages)
      ensures outcome.Circle? ==> 0 <= numInitStages < |stages|
    {
      Reset();
      var linked := LinkStages();
      if !linked {
        return UnknownStage;
      }
      outcome := NumberAndSort(table, Graph(NamesOf(table), deps));
    }

    method NumberAndSort(ghost table: seq<Stage>, ghost pre: seq<seq<nat>>) returns (outcome: Outcome)
      requires Distinct() && |pre| == |stages| && WellFormed(pre) && Linked(stages, pre) && table == stages
      requires forall s :: s in stages ==> s.number == -1
      modifies this`numInitStages, this`stages, stages
      ensures !outcome.UnknownStage? && (outcome.Circle? <==> HasCycle(pre))
      ensures outcome.Assigned? ==>
        numInitStages == |stages| && Renumbered(table, stages, pre) && KeptInOrder(pre, table, stages)
      ensures outcome.Circle? ==> stages == table && 0 <= numInitStages < |stages|
    {
      var done;
      ghost var num;
      done, num := NumberAll(pre);
      if !done {
        return Circle;
      }
      SortStages(pre, num);
      SortedIsRenumbered(table, stages, pre, num);
      if InOrder(pre) {
        SameOrder(table, stages, num);
      }
      outcome := Assigned;
    }

    static lemma SameOrder(before: seq<Stage>, after: seq<Stage>, num: seq<int>)
      requires |num| == |before| == |after| && forall i :: 0 <= i < |num| ==> num[i] == i
      requires forall i :: 0 <= i < |num| ==> after[num[i]] == before[i]
      ensures after == before
    {
    }

    /** The number of a stage; numbers are assigned only when something was added since.  (When two stages
        share a name, the number is that of the new order, but the order may not suit the dependencies.) */
    method GetNumber(decl: InitStage) returns (outcome: Outcome, number: Option<int>)
      requires Distinct()
      modifies this`numInitStages, this`stages, stages
      ensures old(numInitStages) == -1 ==>
        (outcome.UnknownStage? <==> !Known(NamesOf(old(stages)), dependencies))
      ensures old(numInitStages) == -1 && !outcome.UnknownStage? ==>
        (outcome.Circle? <==> HasCycle(Graph(NamesOf(old(stages)), dependencies)))
      ensures old(numInitStages) == -1 && outcome.Assigned? ==>
        numInitStages == |stages| && Renumbered(old(stages), stages, Graph(NamesOf(old(stages)), dependencies))
      ensures old(numInitStages) == -1 && outcome.Assigned? && DistinctNames(NamesOf(old(stages))) ==>
        TargetsFirst(stages, dependencies)
      ensures old(Valid()) && outcome.Assigned? && DistinctNames(NamesOf(old(stages))) ==> Valid()
      ensures old(Valid()) && outcome.Assigned? ==>
        numInitStages == |stages| && forall i :: 0 <= i < |stages| ==> stages[i].number == i
      ensures outcome.Assigned? ==> match number
        case None => !Holds(old(stages), decl)
        case Some(n) => Holds(old(stages), decl) && IsNumberOf(stages, decl, n)
      ensures old(Valid()) && outcome.Assigned? && number.Some? ==>
        0 <= number.value < |stages| && stages[number.value].stageDecl == decl
      ensures !outcome.Assigned? ==> number == None && stages == old(stages)
      ensures outcome.UnknownStage? ==> numInitStages == -1
      ensures outcome.Circle? ==> 0 <= numInitStages < |stages|
      ensures old(numInitStages) != -1 ==> outcome.Assigned? && stages == old(stages)
      ensures old(numInitStages) != -1 ==> numInitStages == old(numInitStages)
      ensures old(numInitStages) != -1 ==> forall s :: s in stages ==> s.number == old(s.number)
    {
      outcome, number := Assigned, None;
      if numInitStages == -1 {
        outcome := AssignInitStageNumbers();
        if !outcome.Assigned? {
          return;
        }
        SameHeld(old(stages), stages, Graph(NamesOf(old(stages)), dependencies), decl);
      }
      for i := 0 to |stages|
        invariant forall j :: 0 <= j < i ==> stages[j].stageDecl != decl
      {
        if stages[i].stageDecl == decl {
          return outcome, Some(stages[i].number);
        }
      }
    }

    /** A circle is reported once: the numbers left count as assigned, and the next question is answered
        from them. */
    method AskAfterCircle(decl: InitStage) returns (first: Outcome, second: Outcome, number: Option<int>)
      requires Distinct() && numInitStages == -1 && Known(NamesOf(stages), dependencies)
      requires HasCycle(Graph(NamesOf(stages), dependencies))
      modifies this`numInitStages, this`stages, stages
      ensures first == Circle && second == Assigned && stages == old(stages)
      ensures match number
        case None => !Holds(stages, decl)
        case Some(n) => IsNumberOf(stages, decl, n)
    {
      first, number := GetNumber(decl);
      second, number := GetNumber(decl);
    }

    /** Adding a dependency that the numbers respect already, and numbering again, changes no number. */
    method AddRespectedDependency(source: string, target: string) returns (outcome: Outcome)
      requires Valid() && numInitStages != -1 && DistinctNames(NamesOf(stages))
      requires source in NamesOf(stages) && target in NamesOf(stages)
      requires Find(NamesOf(stages), target).value < Find(NamesOf(stages), source).value
      modifies this, stages
      ensures outcome.Assigned? && Valid() && stages == old(stages) && numInitStages == old(numInitStages)
      ensures dependencies == old(dependencies) + [(source, target)]
      ensures forall s :: s in stages ==> s.number == old(s.number)
    {
      RespectedDependencyKeepsOrder(NamesOf(stages), dependencies, source, target);
      assert forall i :: 0 <= i < |stages| ==> stages[i].number == i;
      AddInitStageDependency(source, target);
      NoCycleInOrder(Graph(NamesOf(stages), dependencies));
      outcome := AssignInitStageNumbers();
    }

    static ghost function Minus(n: nat): (num: seq<int>)
      ensures |num| == n && Unnumbered(num)
    {
      if n == 0 then [] else Minus(n - 1) + [-1]
    }
  }

  /** An order that is allowed has no cycle. */
  lemma NoCycleInOrder(pre: seq<seq<nat>>)
    requires WellFormed(pre) && InOrder(pre)
    ensures !HasCycle(pre)
  {
    var num := seq(|pre|, i => i);
    NumberedHasNoCycle(pre, num);
  }

  ghost predicate HasNumbers(table: seq<Stage>, num: seq<int>)
    reads table
  {
    |num| == |table| && forall i :: 0 <= i < |table| ==> table[i].number == num[i]
  }

  ghost predicate DistinctNames(names: seq<string>) {
    forall i, j :: 0 <= i < j < |names| ==> names[i] != names[j]
  }

  /** With distinct names, the order of the table is one that the dependencies allow. */
  ghost predicate OrderFits(table: seq<Stage>, deps: seq<Dependency>) {
    Known(NamesOf(table), deps) && (DistinctNames(NamesOf(table)) ==> InOrder(Graph(NamesOf(table), deps)))
  }

  ghost predicate Holds(table: seq<Stage>, decl: InitStage) {
    exists i :: 0 <= i < |table| && table[i].stageDecl == decl
  }

  /** The number of the first stage of the declaration. */
  ghost predicate IsNumberOf(table: seq<Stage>, decl: InitStage, n: int)
    reads table
  {
    exists i :: 0 <= i < |table| && table[i].stageDecl == decl && table[i].number == n &&
      forall j :: 0 <= j < i ==> table[j].stageDecl != decl
  }

  ghost predicate NameAt(table: seq<Stage>, i: int, name: string) {
    0 <= i < |table| && table[i].stageDecl.name == name
  }

  /** The target of every dependency stands before its source. */
  ghost predicate TargetsFirst(table: seq<Stage>, deps: seq<Dependency>) {
    forall d, i, j :: d in deps && NameAt(table, i, d.0) && NameAt(table, j, d.1) ==> j < i
  }

  lemma OrderPutsTargetsFirst(table: seq<Stage>, deps: seq<Dependency>)
    requires OrderFits(table, deps) && DistinctNames(NamesOf(table))
    ensures TargetsFirst(table, deps)
  {
    var names := NamesOf(table);
    forall d, i, j | d in deps && NameAt(table, i, d.0) && NameAt(table, j, d.1)
      ensures j < i
    {
      FindPosition(names, i, d.0);
      FindPosition(names, j, d.1);
      assert DependsOn(names, d, i, j);
      EdgesAreDependencies(names, deps, i, j);
    }
  }

  lemma SameHeld(before: seq<Stage>, after: seq<Stage>, pre: seq<seq<nat>>, decl: InitStage)
    requires |pre| == |before| && Renumbered(before, after, pre)
    ensures Holds(before, decl) <==> Holds(after, decl)
  {
  }

  /** An order that was allowed already is not changed. */
  ghost predicate KeptInOrder(pre: seq<seq<nat>>, before: seq<Stage>, after: seq<Stage>)
    requires WellFormed(pre)
  {
    InOrder(pre) ==> after == before
  }

  /** The new table holds the same stages, each at the position of its number, and a stage that depends on
      another has the greater number. */
  ghost predicate Renumbered(before: seq<Stage>, after: seq<Stage>, pre: seq<seq<nat>>)
    requires |pre| == |before|
    reads before, after
  {
    && |after| == |before| && DistinctStages(after)
    && (forall i :: 0 <= i < |after| ==> after[i] in before && after[i].number == i)
    && (forall i :: 0 <= i < |before| ==> 0 <= before[i].number < |after| && after[before[i].number] == before[i])
    && forall i, k :: 0 <= i < |before| && 0 <= k < |pre[i]| && pre[i][k] < |before| ==>
      before[pre[i][k]].number < before[i].number
  }

  /** A complete numbering uses every number. */
  lemma NumbersOnto(num: seq<int>, n: nat)
    requires |num| == n && (forall i :: 0 <= i < n ==> 0 <= num[i] < n) &&
      (forall i, j :: 0 <= i < j < n ==> num[i] != num[j])
    ensures forall v :: 0 <= v < n ==> v in num
  {
    var p: seq<nat> := num;
    DistinctSize(p);
    var image := set k | 0 <= k < |p| :: p[k];
    SubsetSize(image, Below(n));
    forall v: nat | v < n
      ensures v in num
    {
      assert v in image;
    }
  }

  lemma SortedIsRenumbered(before: seq<Stage>, after: seq<Stage>, pre: seq<seq<nat>>, num: seq<int>)
    requires DistinctStages(before) && |pre| == |before| == |after| && WellFormed(pre) && HasNumbers(before, num)
    requires Partial(pre, num, |before|) && (forall i :: 0 <= i < |num| ==> num[i] >= 0)
    requires forall i :: 0 <= i < |num| ==> after[num[i]] == before[i]
    ensures Renumbered(before, after, pre)
  {
    NumbersOnto(num, |num|);
    forall v | 0 <= v < |after|
      ensures after[v] in before && after[v].number == v
    {
      assert v in num;
    }
  }

  lemma FindPosition(names: seq<string>, i: nat, name: string)
    requires DistinctNames(names) && i < |names| && names[i] == name
    ensures Find(names, name) == Some(i)
  {
    var j := Find(names, name).value;
    assert i == j || i < j || j < i;
  }

  /** Stages keep their names: every position of the new order has the name of one before. */
  lemma SameNames(before: seq<Stage>, after: seq<Stage>, pre: seq<seq<nat>>)
    requires |pre| == |before| && Renumbered(before, after, pre) && DistinctNames(NamesOf(before))
    ensures DistinctNames(NamesOf(after)) && forall x :: x in NamesOf(before) ==> x in NamesOf(after)
  {
    var names, names' := NamesOf(before), NamesOf(after);
    forall i | 0 <= i < |before|
      ensures names[i] in names'
    {
      assert names'[before[i].number] == names[i];
    }
    forall v, w | 0 <= v < w < |after|
      ensures names'[v] != names'[w]
    {
      var i, j := Before(before, after, v), Before(before, after, w);
      assert i < j || j < i;
    }
  }

  ghost function Before(before: seq<Stage>, after: seq<Stage>, v: nat): (i: nat)
    requires v < |after| && after[v] in before
    ensures i < |before| && before[i] == after[v]
  {
    var i :| 0 <= i < |before| && before[i] == after[v];
    i
  }

  /** With distinct names, the dependencies name the same stages in the new order, and that order is allowed. */
  lemma RenumberedInOrder(before: seq<Stage>, after: seq<Stage>, deps: seq<Dependency>)
    requires Known(NamesOf(before), deps) && DistinctNames(NamesOf(before))
    requires Renumbered(before, after, Graph(NamesOf(before), deps))
    ensures DistinctNames(NamesOf(after)) && OrderFits(after, deps)
  {
    SameNames(before, after, Graph(NamesOf(before), deps));
    var pre' := Graph(NamesOf(after), deps);
    forall v, k | 0 <= v < |after| && 0 <= k < |pre'[v]|
      ensures pre'[v][k] < v
    {
      EdgeGoesDown(before, after, deps, v, pre'[v][k]);
    }
  }

  lemma EdgeGoesDown(before: seq<Stage>, after: seq<Stage>, deps: seq<Dependency>, v: nat, w: nat)
    requires Known(NamesOf(before), deps) && DistinctNames(NamesOf(before)) && Known(NamesOf(after), deps)
    requires Renumbered(before, after, Graph(NamesOf(before), deps))
    requires v < |after| && w < |after| && w in Graph(NamesOf(after), deps)[v]
    ensures w < v
  {
    var names, names' := NamesOf(before), NamesOf(after);
    var pre := Graph(names, deps);
    EdgesAreDependencies(names', deps, v, w);
    var d :| d in deps && DependsOn(names', d, v, w);
    var i, j := Before(before, after, v), Before(before, after, w);
    FindPosition(names, i, d.0);
    FindPosition(names, j, d.1);
    assert DependsOn(names, d, i, j);
    EdgesAreDependencies(names, deps, i, j);
    var h :| 0 <= h < |pre[i]| && pre[i][h] == j;
  }
}
