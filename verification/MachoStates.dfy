/** The state tree of a hierarchical state machine, and which states a transition exits and enters. */
module MachoStates {
  import opened Options
  import opened Sequences

  datatype Strategy = NoHistory | ShallowHistory | DeepHistory

  /** A state with everything above it.  A boxed state has a box type of its own; a persistent box
      survives transitions. */
  datatype State = Root | Sub(parent: State, id: nat, strategy: Strategy, boxed: bool, persistent: bool)

  /** a is s or a superstate of s. */
  predicate IsChild(s: State, a: State) {
    s == a || (s.Sub? && IsChild(s.parent, a))
  }

  predicate ProperChild(s: State, a: State) {
    s != a && IsChild(s, a)
  }

  function Strat(s: State): Strategy {
    if s.Sub? then s.strategy else NoHistory
  }

  function Depth(s: State): nat {
    if s.Root? then 0 else 1 + Depth(s.parent)
  }

  /** The states between the root, which is left out, and s. */
  function Path(s: State): seq<State> {
    if s.Root? then [] else Path(s.parent) + [s]
  }

  lemma {:induction false} ChildDeeper(s: State, a: State)
    requires IsChild(s, a)
    ensures s == a || Depth(a) < Depth(s)
  {
    if s != a {
      ChildDeeper(s.parent, a);
    }
  }

  lemma {:induction false} ChildTransitive(s: State, a: State, b: State)
    requires IsChild(s, a) && IsChild(a, b)
    ensures IsChild(s, b)
  {
    if s != a {
      ChildTransitive(s.parent, a, b);
    }
  }

  /** The superstates of a state form a chain. */
  lemma {:induction false} Linear(s: State, a: State, b: State)
    requires IsChild(s, a) && IsChild(s, b)
    ensures IsChild(a, b) || IsChild(b, a)
  {
    if s != a && s != b {
      Linear(s.parent, a, b);
    }
  }

  lemma {:induction false} RootAbove(s: State)
    ensures IsChild(s, Root)
  {
    if s.Sub? {
      RootAbove(s.parent);
    }
  }

  lemma {:induction false} PathMembers(s: State, a: State)
    ensures a in Path(s) <==> a.Sub? && IsChild(s, a)
  {
    if s.Sub? {
      PathMembers(s.parent, a);
    }
  }

  lemma {:induction false} PathLength(s: State)
    ensures |Path(s)| == Depth(s)
  {
    if s.Sub? {
      PathLength(s.parent);
    }
  }

  // ---------- exits and entries of one transition ----------

  /** The exit action of s runs on the way to n. */
  predicate MustExit(s: State, n: State) {
    s == n || !IsChild(n, s)
  }

  /** The states exited from s upward on the way to n, in order, and where that stops. */
  function Exits(s: State, n: State): seq<State> {
    if s.Root? || !MustExit(s, n) then [] else [s] + Exits(s.parent, n)
  }

  function Leave(s: State, n: State): State {
    if s.Root? || !MustExit(s, n) then s else Leave(s.parent, n)
  }

  predicate MustEnter(n: State, previous: State, first: bool) {
    first || !IsChild(previous, n)
  }

  /** The states entered down to n when coming from a previous state, and where that starts. */
  function Entries(n: State, previous: State, first: bool): seq<State> {
    if n.Root? || !MustEnter(n, previous, first) then [] else Entries(n.parent, previous, false) + [n]
  }

  function Base(n: State, previous: State, first: bool): State {
    if n.Root? || !MustEnter(n, previous, first) then n else Base(n.parent, previous, false)
  }

  /** Exits run from the innermost state outward ... */
  lemma {:induction false} ExitsBottomUp(s: State, n: State)
    ensures Path(s) == Path(Leave(s, n)) + Reverse(Exits(s, n))
  {
    if s.Sub? && MustExit(s, n) {
      ExitsBottomUp(s.parent, n);
      assert Exits(s, n)[1..] == Exits(s.parent, n);
      assert Path(s) == (Path(Leave(s.parent, n)) + Reverse(Exits(s.parent, n))) + [s];
    }
  }

  /** ... and entries from the outermost inward. */
  lemma {:induction false} EntriesTopDown(n: State, previous: State, first: bool)
    ensures Path(n) == Path(Base(n, previous, first)) + Entries(n, previous, first)
  {
    if n.Sub? && MustEnter(n, previous, first) {
      EntriesTopDown(n.parent, previous, false);
    }
  }

  /** m is the innermost state that contains s and properly contains n. */
  ghost predicate IsMeet(m: State, s: State, n: State) {
    && IsChild(s, m) && (ProperChild(n, m) || m.Root?)
    && forall x :: IsChild(s, x) && ProperChild(n, x) ==> IsChild(m, x)
  }

  lemma {:induction false} LeaveIsMeet(s: State, n: State)
    ensures IsMeet(Leave(s, n), s, n)
  {
    if s.Sub? && MustExit(s, n) {
      LeaveIsMeet(s.parent, n);
    }
  }

  /** Entering starts where exiting stopped: at the innermost state around both ends, for transitions to
      the state itself, to a superstate and to a substate as well. */
  lemma EntryMeetsExit(s: State, n: State)
    ensures Leave(s, n) == Base(n, s, true)
  {
    LeaveIsMeet(s, n);
    BaseIsMeet(s, n);
    MeetUnique(Leave(s, n), Base(n, s, true), s, n);
  }

  lemma {:induction false} BaseBelow(s: State, n: State)
    ensures var m := Base(n, s, false);
      IsChild(n, m) && IsChild(s, m) && forall x :: IsChild(s, x) && IsChild(n, x) ==> IsChild(m, x)
  {
    if n.Root? {
      RootAbove(s);
    } else if MustEnter(n, s, false) {
      BaseBelow(s, n.parent);
    }
  }

  lemma BaseIsMeet(s: State, n: State)
    ensures IsMeet(Base(n, s, true), s, n)
  {
    if n.Root? {
      RootAbove(s);
    } else {
      BaseBelow(s, n.parent);
      ChildDeeper(n.parent, Base(n.parent, s, false));
    }
  }

  lemma MeetUnique(a: State, b: State, s: State, n: State)
    requires IsMeet(a, s, n) && IsMeet(b, s, n)
    ensures a == b
  {
    RootAbove(s);
    RootAbove(n);
    RootAbove(a);
    RootAbove(b);
    assert IsChild(a, b) && IsChild(b, a);
    ChildDeeper(a, b);
    ChildDeeper(b, a);
  }

  // ---------- history ----------

  /** The substate of a on the way down to s. */
  function ChildToward(s: State, a: State): (c: State)
    requires ProperChild(s, a)
    ensures c.Sub? && c.parent == a && IsChild(s, c)
  {
    if s.parent == a then s else ChildToward(s.parent, a)
  }

  predicate HistoryAbove(s: State) {
    s.Sub? && (Strat(s.parent) != NoHistory || HistoryAbove(s.parent))
  }

  /** What leaving the state deep stores in the superstates of self. */
  function SaveUp(hist: map<State, State>, self: State, deep: State): map<State, State>
    decreases self
  {
    if self.Root? then hist else SaveUp(Stored(hist, self.parent, self, deep), self.parent, deep)
  }

  function Stored(hist: map<State, State>, owner: State, shallow: State, deep: State): map<State, State> {
    match Strat(owner)
    case NoHistory => hist
    case ShallowHistory => hist[owner := shallow]
    case DeepHistory => hist[owner := deep]
  }

  /** What a's history strategy makes of leaving s. */
  function Remembered(a: State, s: State): State
    requires ProperChild(s, a)
  {
    if Strat(a) == DeepHistory then s else ChildToward(s, a)
  }

  function Lookup(hist: map<State, State>, a: State): (r: Option<State>) {
    if a in hist then Some(hist[a]) else None
  }

  /** Exactly the superstates with a history strategy remember the state left. */
  lemma {:induction false} SaveUpMeaning(hist: map<State, State>, self: State, deep: State, a: State)
    requires IsChild(deep, self)
    ensures Lookup(SaveUp(hist, self, deep), a) ==
      if ProperChild(self, a) && Strat(a) != NoHistory
      then Some(if Strat(a) == DeepHistory then deep else ChildToward(self, a))
      else Lookup(hist, a)
    decreases self
  {
    if self.Sub? {
      var h := Stored(hist, self.parent, self, deep);
      ChildTransitive(deep, self, self.parent);
      SaveUpMeaning(h, self.parent, deep, a);
      if IsChild(self.parent, a) {
        ChildDeeper(self.parent, a);
      }
    }
  }

  lemma {:induction false} NothingAbove(hist: map<State, State>, self: State, deep: State)
    requires !HistoryAbove(self)
    ensures SaveUp(hist, self, deep) == hist
  {
    if self.Sub? {
      NothingAbove(hist, self.parent, deep);
    }
  }
}
