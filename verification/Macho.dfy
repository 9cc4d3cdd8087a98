/** The state machine engine: exits, entries, histories and boxes updated in place. */
module Macho {
  import opened Options
  import opened MachoStates
  import opened MachoRuns
  import opened Sequences

  /** A state's box: the shared empty one, or one of its own. */
  datatype Box = EmptyBox | OwnBox

  /** What a dispatched event's handler asks for: a transition, and another event. */
  datatype Reaction = Reaction(target: Option<Target>, posts: bool)

  class Machine {
    const states: set<State>             // the state instances
    var myCurrentState: Option<State>
    var myPending: Option<Target>        // pending state and initializer
    var myPendingEvent: bool
    var myHistory: map<State, State>     // per state instance
    var myBox: map<State, Box>
    var myBoxPlace: set<State>           // states with cached memory of an earlier box
    ghost var trace: seq<Event>

    ghost function Boxes(): set<State>
      reads this
    {
      set s | s in myBox && myBox[s].OwnBox?
    }

    ghost function Cfg(): Config
      requires myCurrentState.Some?
      reads this
    {
      Config(myCurrentState.value, myPending, myHistory, Boxes(), trace)
    }

    /** The instances are closed under superstates, and the machine only refers to them. */
    ghost predicate Instances()
      reads this
    {
      && Root in states && (forall s :: s in states && s.Sub? ==> s.parent in states)
      && (myCurrentState.Some? ==> myCurrentState.value in states)
      && (myPending.Some? ==> myPending.value.state in states)
      && (forall s :: s in myHistory ==> myHistory[s] in states)
    }

    /** Box pointers fit their states, none has cached memory too, and every state down to s has one. */
    ghost predicate BoxPointers(s: State)
      reads this
    {
      && (forall b :: b in myBox ==> b.Sub? && (myBox[b].OwnBox? <==> b.boxed))
      && (forall b :: b in myBoxPlace ==> b.Sub? && b.boxed && b !in myBox)
      && (forall b :: b in Path(s) ==> b in myBox)
    }

    ghost predicate Valid()
      reads this
    {
      Instances() && (myCurrentState.Some? ==> BoxPointers(myCurrentState.value) && Good(Cfg()))
    }

    constructor (instances: set<State>)
      requires Root in instances && (forall s :: s in instances && s.Sub? ==> s.parent in instances)
      ensures Valid() && states == instances && myCurrentState == None && myPending == None && !myPendingEvent
      ensures myHistory == map[] && myBox == map[] && myBoxPlace == {} && trace == []
    {
      states := instances;
      myCurrentState, myPending, myPendingEvent := None, None, false;
      myHistory, myBox, myBoxPlace, trace := map[], map[], {}, [];
    }

    method CreateBox(s: State)
      requires s.Sub? && (s in myBox ==> (myBox[s].OwnBox? <==> s.boxed))
      modifies this`myBox, this`myBoxPlace, this`trace
      ensures myBox == if s in old(myBox) then old(myBox) else old(myBox)[s := if s.boxed then OwnBox else EmptyBox]
      ensures myBoxPlace == if s in old(myBox) || !s.boxed then old(myBoxPlace) else old(myBoxPlace) - {s}
      ensures Boxes() == old(Boxes()) + if s.boxed then {s} else {}
      ensures trace == old(trace) + if s.boxed && s !in old(Boxes()) then [Create(s)] else []
    {
      if s !in myBox {
        if s.boxed {
          myBoxPlace := myBoxPlace - {s};
          myBox := myBox[s := OwnBox];
          trace := trace + [Create(s)];
        } else {
          myBox := myBox[s := EmptyBox];
        }
      }
    }

    /** Deletes the box of a state that does not keep it; the box exists, and there is no other cached one. */
    method DeleteBox(s: State)
      requires s.Sub? && s in myBox && myBox[s].OwnBox? && s !in myBoxPlace
      modifies this`myBox, this`myBoxPlace, this`trace
      ensures myBox == old(myBox) - (if s.persistent then {} else {s})
      ensures myBoxPlace == old(myBoxPlace) + (if s.persistent then {} else {s})
      ensures Boxes() == if s.persistent then old(Boxes()) else old(Boxes()) - {s}
      ensures trace == old(trace) + if s.persistent then [] else [Delete(s)]
    {
      if !s.persistent {
        myBoxPlace := myBoxPlace + {s};
        myBox := myBox - {s};
        trace := trace + [Delete(s)];
      }
    }

    /** Exit actions from s upward on the way to next. */
    method ExitState(s: State, next: State)
      requires BoxPointers(s)
      modifies this`myBox, this`myBoxPlace, this`trace
      ensures BoxPointers(Leave(s, next))
      ensures Boxes() == ExitBoxes(old(Boxes()), s, next) && trace == old(trace) + ExitEvents(s, next)
      decreases s
    {
      if s.Root? {
        return;
      }
      if s == next || !IsChild(next, s) {
        ExitOne(s);
        ghost var step := [Exit(s)] + if s.boxed && !s.persistent then [Delete(s)] else [];
        ExitState(s.parent, next);
        Joins(old(trace), step, ExitEvents(s.parent, next));
      }
    }

    static lemma Joins(a: seq<Event>, b: seq<Event>, c: seq<Event>)
      ensures (a + b) + c == a + (b + c)
    {
    }

    /** The exit action of one state, and the end of its box. */
    method ExitOne(s: State)
      requires s.Sub? && BoxPointers(s)
      modifies this`myBox, this`myBoxPlace, this`trace
      ensures BoxPointers(s.parent)
      ensures Boxes() == if s.persistent then old(Boxes()) else old(Boxes()) - {s}
      ensures trace == old(trace) + ([Exit(s)] + if s.boxed && !s.persistent then [Delete(s)] else [])
    {
      trace := trace + [Exit(s)];
      assert s in Path(s);
      NotInParentPath(s);
      if myBox[s] != EmptyBox {
        DeleteBox(s);
      }
      assert s !in old(Boxes()) ==> Boxes() == old(Boxes()) - {s};
    }

    /** Entry actions down to s when coming from a previous state. */
    method EnterState(s: State, previous: State, first: bool)
      requires BoxPointers(Base(s, previous, first))
      modifies this`myBox, this`myBoxPlace, this`trace
      ensures BoxPointers(s)
      ensures Boxes() == EntryBoxes(old(Boxes()), s, previous, first)
      ensures trace == old(trace) + EntryEvents(old(Boxes()), s, previous, first)
      decreases s
    {
      if s.Root? {
        return;
      }
      if first || !IsChild(previous, s) {
        EnterState(s.parent, previous, false);
        ghost var outer := EntryEvents(old(Boxes()), s.parent, previous, false);
        ParentNotInside(s);
        EntryBoxesAbove(old(Boxes()), s.parent, previous, false, s);
        ghost var step := (if s.boxed && s !in old(Boxes()) then [Create(s)] else []) + [Entry(s)];
        EnterOne(s);
        EventsStep(old(Boxes()), s, previous, first);
        Joins(old(trace), outer, step);
      }
    }

    /** The beginning of a state's box, and its entry action. */
    method EnterOne(s: State)
      requires s.Sub? && BoxPointers(s.parent) && !IsChild(s.parent, s)
      modifies this`myBox, this`myBoxPlace, this`trace
      ensures BoxPointers(s)
      ensures Boxes() == old(Boxes()) + if s.boxed then {s} else {}
      ensures trace == old(trace) + ((if s.boxed && s !in old(Boxes()) then [Create(s)] else []) + [Entry(s)])
    {
      CreateBox(s);
      trace := trace + [Entry(s)];
    }

    lemma ParentNotInside(s: State)
      requires s.Sub?
      ensures !IsChild(s.parent, s)
    {
      if IsChild(s.parent, s) {
        ChildDeeper(s.parent, s);
      }
    }

    /** Stores the state left in the superstates of self, each by its own strategy. */
    method SetHistorySuper(self: State, deep: State)
      modifies this`myHistory
      ensures myHistory == SaveUp(old(myHistory), self, deep)
      decreases self
    {
      if self.Sub? {
        var owner := self.parent;
        if owner.Sub? {
          match owner.strategy
          case NoHistory =>
          case ShallowHistory => myHistory := myHistory[owner := self];
          case DeepHistory => myHistory := myHistory[owner := deep];
        }
        // bubbling up stops when no superstate has a history
        if HistoryAbove(owner) {
          SetHistorySuper(owner, deep);
        } else {
          NothingAbove(myHistory, owner, deep);
        }
      }
    }

    /** The user's init action: it may ask for a transition to a proper substate. */
    method UserInit(s: State) returns (choice: Option<Target>)
      ensures InitChoice(s, choice) && (choice.Some? ==> choice.value.state in states)
    {
      choice := *;
      if choice.Some? && !(s.Sub? && choice.value.state in states && ProperChild(choice.value.state, s)) {
        choice := None;
      }
    }

    method InitState(s: State, history: bool)
      requires Instances() && myPending == None && s in states
      modifies this`myPending, this`myHistory, this`trace
      ensures Instances() && myHistory == old(myHistory) - {s}
      ensures if history && s in old(myHistory)
        then myPending == Some(Target(old(myHistory)[s], DefaultInit)) && trace == old(trace)
        else InitChoice(s, myPending) && trace == old(trace) + [Init(s)]
    {
      if history && s in myHistory {
        myPending := Some(Target(myHistory[s], DefaultInit));
      } else {
        trace := trace + [Init(s)];
        myPending := UserInit(s);
      }
      myHistory := myHistory - {s};
    }

    /** Exits, history and entries of one turn. */
    method Move()
      requires Valid() && myCurrentState.Some? && myPending.Some?
      modifies this`myCurrentState, this`myHistory, this`myBox, this`myBoxPlace, this`trace
      ensures Instances() && myCurrentState == Some(myPending.value.state) && BoxPointers(myCurrentState.value)
      ensures Cfg() == Transit(old(Cfg()))
    {
      var previous, next := myCurrentState.value, myPending.value.state;
      ExitState(previous, next);
      SavedInStates(myHistory, previous);
      SetHistorySuper(previous, previous);
      EntryMeetsExit(previous, next);
      myCurrentState := Some(next);
      EnterState(next, previous, true);
    }

    /** The initializer's part of one turn. */
    method Initialise(init: Initializer)
      requires Instances() && myCurrentState.Some? && BoxPointers(myCurrentState.value)
      modifies this`myPending, this`myHistory, this`trace
      ensures Instances() && Initialised(old(Cfg()), init, Cfg())
    {
      var next := myCurrentState.value;
      myPending := None;
      match init
      case DefaultInit => InitState(next, false);
      case HistoryInit => InitState(next, true);
      case DataInit =>
        trace := trace + [Init(next)];
        myPending := UserInit(next);
    }

    /** One turn of the inner loop. */
    method Transition()
      requires Valid() && myCurrentState.Some? && myPending.Some?
      modifies this`myCurrentState, this`myPending, this`myHistory, this`myBox, this`myBoxPlace, this`trace
      ensures Valid() && myCurrentState == Some(old(myPending).value.state) && MachoRuns.Step(old(Cfg()), Cfg())
      ensures myPending.Some? ==> ProperChild(myPending.value.state, old(myPending).value.state)
    {
      ghost var c := Cfg();
      var init := myPending.value.init;
      Move();
      Initialise(init);
      StepGood(c, Cfg());
      if myPending.Some? {
        StepDescends(c, Cfg());
      }
    }

    lemma SavedInStates(hist: map<State, State>, s: State)
      requires s in states && (forall a :: a in states && a.Sub? ==> a.parent in states)
      requires forall a :: a in hist ==> hist[a] in states
      ensures forall a :: a in SaveUp(hist, s, s) ==> SaveUp(hist, s, s)[a] in states
    {
      forall a | a in SaveUp(hist, s, s)
        ensures SaveUp(hist, s, s)[a] in states
      {
        SaveUpMeaning(hist, s, s, a);
        if ProperChild(s, a) {
          AboveInStates(s, ChildToward(s, a));
        }
      }
    }

    lemma {:induction false} AboveInStates(s: State, a: State)
      requires s in states && IsChild(s, a) && (forall b :: b in states && b.Sub? ==> b.parent in states)
      ensures a in states
    {
      if s != a {
        AboveInStates(s.parent, a);
      }
    }

    ghost function Inside(s: State): set<State> {
      set b | b in states && IsChild(b, s)
    }

    lemma InsideShrinks(s: State, a: State)
      requires ProperChild(s, a) && a in states
      ensures Inside(s) < Inside(a)
    {
      ChildDeeper(s, a);
      assert a in Inside(a) && a !in Inside(s) by {
        if IsChild(a, s) {
          ChildDeeper(a, s);
        }
      }
      forall b | b in Inside(s)
        ensures b in Inside(a)
      {
        ChildTransitive(b, s, a);
      }
    }

    /** The inner loop: it ends, because every init action goes down the state tree. */
    method Transitions() returns (ghost run: seq<Config>)
      requires Valid() && myCurrentState.Some?
      modifies this`myCurrentState, this`myPending, this`myHistory, this`myBox, this`myBoxPlace, this`trace
      ensures Valid() && myCurrentState.Some? && myPending == None
      ensures IsRun(run) && run[0] == old(Cfg()) && run[|run| - 1] == Cfg() && Asked(run) == []
      ensures if old(myPending).Some? then IsChild(myCurrentState.value, old(myPending).value.state)
        else myCurrentState == old(myCurrentState)
    {
      run := [Cfg()];
      ghost var goal := if myPending.Some? then myPending.value.state else myCurrentState.value;
      while myPending.Some?
        invariant Valid() && myCurrentState.Some?
        invariant Recorded(run, old(Cfg()), Cfg(), [])
        invariant IsChild(if myPending.Some? then myPending.value.state else myCurrentState.value, goal)
        invariant old(myPending).None? ==> myPending.None? && myCurrentState == old(myCurrentState)
        decreases if myPending.Some? then Inside(myPending.value.state) else {}
      {
        ghost var a, c := myPending.value.state, Cfg();
        assert a in Inside(a);
        Transition();
        run := OneStep(run, old(Cfg()), c, Cfg(), []);
        if myPending.Some? {
          InsideShrinks(myPending.value.state, a);
          ChildTransitive(myPending.value.state, a, goal);
        }
      }
    }

    /** Transitions and events until nothing is pending.  The script says what the handlers of the
        dispatched events do; handlers after its end do nothing.  As many events are dispatched as are
        posted, each handler's transition is performed, and the machine ends in the target of the last one
        or inside it. */
    method RattleOn(script: seq<Reaction>) returns (ghost run: seq<Config>)
      requires Valid() && myCurrentState.Some?
      requires forall r :: r in script && r.target.Some? ==> r.target.value.state in states
      modifies this
      ensures Valid() && myCurrentState.Some? && myPending == None && !myPendingEvent
      ensures IsRun(run) && run[0] == old(Cfg()) && run[|run| - 1] == Cfg()
      ensures Asked(run) == Replies(script, old(myPendingEvent))
      ensures InLast([old(myPending)] + Replies(script, old(myPendingEvent)), myCurrentState.value)
      ensures !old(myPendingEvent) && old(myPending).Some? ==> IsChild(myCurrentState.value, old(myPending).value.state)
    {
      run := [Cfg()];
      var i := 0;
      ghost var c0, first, event, asked := Cfg(), myPending, myPendingEvent, [];
      StartTaken(script, event, first);
      while myPending.Some? || myPendingEvent
        invariant Valid() && myCurrentState.Some? && 0 <= i <= |script|
        invariant Recorded(run, c0, Cfg(), asked)
        invariant Replies(script, event) == asked + Replies(script[i..], myPendingEvent)
        invariant InLast([first] + asked, if myPending.Some? then myPending.value.state else myCurrentState.value)
        decreases |script| - i, myPendingEvent, myPending.Some?
      {
        ghost var before, c1 := myPending, Cfg();
        ghost var more := Transitions();
        ghost var c2 := Cfg();
        run := Continued(run, more, c0, c1, c2, asked, []);
        assert asked + [] == asked;
        if before.Some? {
          InLastInside([first] + asked, before.value.state, myCurrentState.value);
        }
        if myPendingEvent {
          ghost var i0 := i;
          i := Dispatch(script, i);
          RepliesTaken(script, i0, i, myPending, myPendingEvent, event, asked);
          LastTaken(first, asked, myPending, myCurrentState.value);
          OneRequest(c2, Cfg());
          run := Continued(run, [c2, Cfg()], c0, c2, Cfg(), asked, [myPending]);
          asked := asked + [myPending];
        }
      }
      assert asked + [] == asked;
      OnlyFirst(first, myCurrentState.value);
    }

    static lemma OnlyFirst(first: Option<Target>, s: State)
      ensures first.Some? && InLast([first] + [], s) ==> IsChild(s, first.value.state)
    {
      assert [first] + [] == [first];
      assert LastOf([first]) == first;
    }

    static lemma StartTaken(script: seq<Reaction>, event: bool, first: Option<Target>)
      ensures script[0..] == script && [] + Replies(script, event) == Replies(script, event)
      ensures first.Some? ==> InLast([first] + [], first.value.state)
      ensures first.None? ==> forall s :: InLast([first] + [], s)
    {
      assert [first] + [] == [first];
      assert [first][..0] == [];
      assert LastOf([first]) == first;
    }

    static lemma InLastInside(asked: seq<Option<Target>>, a: State, s: State)
      requires InLast(asked, a) && IsChild(s, a)
      ensures InLast(asked, s)
    {
      if LastOf(asked).Some? {
        ChildTransitive(s, a, LastOf(asked).value.state);
      }
    }

    /** What the next reply adds. */
    static lemma RepliesTaken(script: seq<Reaction>, i: nat, i': nat, t: Option<Target>, posts: bool, event: bool,
        asked: seq<Option<Target>>)
      requires i <= |script| && Replies(script, event) == asked + Replies(script[i..], true)
      requires if i < |script| then i' == i + 1 && t == script[i].target && posts == script[i].posts
        else i' == i && t == None && !posts
      ensures Replies(script, event) == (asked + [t]) + Replies(script[i'..], posts)
    {
      RepliesStep(script, i);
      Grouped(asked, [t], Replies(script[i'..], posts));
    }

    static lemma LastTaken(first: Option<Target>, asked: seq<Option<Target>>, t: Option<Target>, s: State)
      requires InLast([first] + asked, s)
      ensures InLast([first] + (asked + [t]), if t.Some? then t.value.state else s)
    {
      LastOfMore([first] + asked, t);
      assert [first] + (asked + [t]) == ([first] + asked) + [t];
    }

    /** What handlers ask for, one after the other, as long as events are posted. */
    static function Replies(script: seq<Reaction>, event: bool): seq<Option<Target>> {
      if !event then [] else if script == [] then [None] else [script[0].target] + Replies(script[1..], script[0].posts)
    }

    static lemma RepliesStep(script: seq<Reaction>, i: nat)
      requires i <= |script|
      ensures Replies(script[i..], true) ==
        if i < |script| then [script[i].target] + Replies(script[i + 1..], script[i].posts) else [None]
    {
      if i < |script| {
        assert script[i..][1..] == script[i + 1..];
      }
    }

    /** The state is the last target asked for, or inside it. */
    static predicate InLast(asked: seq<Option<Target>>, s: State) {
      LastOf(asked).Some? ==> IsChild(s, LastOf(asked).value.state)
    }

    /** The handler of the pending event, as the script has it. */
    method Dispatch(script: seq<Reaction>, i: nat) returns (i': nat)
      requires Valid() && myCurrentState.Some? && myPending == None && myPendingEvent && i <= |script|
      requires forall r :: r in script && r.target.Some? ==> r.target.value.state in states
      modifies this`myPending, this`myPendingEvent
      ensures Valid() && Request(old(Cfg()), Cfg())
      ensures if i < |script| then i' == i + 1 else i' == i
      ensures myPending == if i < |script| then script[i].target else None
      ensures myPendingEvent <==> i < |script| && script[i].posts
    {
      i' := i;
      myPendingEvent := false;
      if i < |script| {
        assert script[i] in script;
        myPending := script[i].target;
        myPendingEvent := script[i].posts;
        i' := i + 1;
      }
    }

    /** One event whose handler asks for a transition: the machine ends in its target or inside it. */
    method OneEvent(r: Reaction) returns (ghost run: seq<Config>)
      requires Valid() && myCurrentState.Some? && myPending == None && myPendingEvent
      requires r.target.Some? && !r.posts && r.target.value.state in states
      modifies this
      ensures Valid() && myCurrentState.Some? && IsChild(myCurrentState.value, r.target.value.state)
    {
      run := RattleOn([r]);
      assert [r][1..] == [];
      assert Replies([r], true) == [r.target];
      LastOfMore([None], r.target);
      assert [None] + [r.target] == [None, r.target];
    }

    /** A transition asked for from outside. */
    method SetState(target: Target, script: seq<Reaction>) returns (ghost run: seq<Config>)
      requires Valid() && myCurrentState.Some? && target.state in states
      requires myPending == None || myPending == Some(target)
      requires forall r :: r in script && r.target.Some? ==> r.target.value.state in states
      modifies this
      ensures Valid() && myCurrentState.Some? && myPending == None && !myPendingEvent
      ensures IsRun(run) && run[0] == old(Cfg()).(pending := Some(target)) && run[|run| - 1] == Cfg()
      ensures Asked(run) == Replies(script, old(myPendingEvent))
      ensures InLast([Some(target)] + Replies(script, old(myPendingEvent)), myCurrentState.value)
      ensures !old(myPendingEvent) ==> IsChild(myCurrentState.value, target.state)
    {
      myPending := Some(target);
      run := RattleOn(script);
    }

    /** Starts at the root and goes to a state. */
    method Start(target: Target, script: seq<Reaction>) returns (ghost run: seq<Config>)
      requires Valid() && target.state in states && myCurrentState == None && myPending == None && !myPendingEvent
      requires trace == [] && myBox == map[] && myBoxPlace == {} && myHistory == map[]
      requires forall r :: r in script && r.target.Some? ==> r.target.value.state in states
      modifies this
      ensures Valid() && myCurrentState.Some? && myPending == None && !myPendingEvent
      ensures IsChild(myCurrentState.value, target.state) && IsRun(run) && run[|run| - 1] == Cfg()
    {
      myCurrentState := Some(Root);
      assert Boxes() == {};
      run := SetState(target, script);
    }

    /** Exits everything: afterwards no state is entered and only persistent boxes are left. */
    method Shutdown()
      requires Valid() && myCurrentState.Some? && myPending == None && !myPendingEvent
      modifies this
      ensures Valid() && myCurrentState == None && myPending == None
      ensures Play(World([], {}), trace) == Some(World([], Boxes())) &&
        (forall b :: b in Boxes() ==> b.Sub? && b.persistent)
    {
      myPending := Some(Target(Root, DefaultInit));
      Transition();
      myCurrentState := None;
    }
  }
}
