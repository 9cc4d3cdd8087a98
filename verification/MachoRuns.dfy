/** A state machine's configurations, its transition steps, and what every run of them keeps. */
module MachoRuns {
  import opened Options
  import opened MachoStates

  /** The actions a run performs on states and on their boxes. */
  datatype Event =
    | Entry(state: State)
    | Exit(state: State)
    | Init(state: State)
    | Create(state: State)
    | Delete(state: State)

  datatype Initializer = DefaultInit | HistoryInit | DataInit

  datatype Target = Target(state: State, init: Initializer)

  // ---------- a monitor for sequences of actions ----------

  /** The states entered and not exited, outermost first, and the boxes created and not deleted. */
  datatype World = World(stack: seq<State>, boxes: set<State>)

  function Innermost(stack: seq<State>): State {
    if stack == [] then Root else stack[|stack| - 1]
  }

  /** What an action may follow: a state is entered only directly inside the innermost one, and only the
      innermost one is exited or initialised, each with its box in place; a box is created once, and
      deleted only when its state is exited and does not keep it. */
  function React(w: World, e: Event): Option<World> {
    match e
    case Entry(s) =>
      if s.Sub? && Innermost(w.stack) == s.parent && (s.boxed ==> s in w.boxes)
      then Some(World(w.stack + [s], w.boxes)) else None
    case Exit(s) =>
      if w.stack != [] && s.Sub? && Innermost(w.stack) == s && (s.boxed ==> s in w.boxes)
      then Some(World(w.stack[..|w.stack| - 1], w.boxes)) else None
    case Init(s) =>
      if Innermost(w.stack) == s && (s.Sub? && s.boxed ==> s in w.boxes) then Some(w) else None
    case Create(s) =>
      if s.Sub? && s.boxed && s !in w.boxes && s !in w.stack then Some(World(w.stack, w.boxes + {s})) else None
    case Delete(s) =>
      if s.Sub? && s.boxed && !s.persistent && s in w.boxes && s !in w.stack
      then Some(World(w.stack, w.boxes - {s})) else None
  }

  /** The world after a sequence of actions, if each of them was allowed. */
  function Play(w: World, trace: seq<Event>): Option<World> {
    if trace == [] then Some(w) else
      match Play(w, trace[..|trace| - 1])
      case None => None
      case Some(v) => React(v, trace[|trace| - 1])
  }

  lemma {:induction false} PlayAppend(w: World, a: seq<Event>, b: seq<Event>)
    requires Play(w, a).Some?
    ensures Play(w, a + b) == Play(Play(w, a).value, b)
  {
    if b == [] {
      assert a + b == a;
    } else {
      PlayAppend(w, a, b[..|b| - 1]);
      assert (a + b)[..|a + b| - 1] == a + b[..|b| - 1];
    }
  }

  lemma PlayOne(w: World, e: Event)
    ensures Play(w, [e]) == React(w, e)
  {
    assert [e][..0] == [];
  }

  // ---------- one transition ----------

  function ExitEvents(s: State, n: State): seq<Event> {
    if s.Root? || !MustExit(s, n) then [] else
      [Exit(s)] + (if s.boxed && !s.persistent then [Delete(s)] else []) + ExitEvents(s.parent, n)
  }

  function ExitBoxes(boxes: set<State>, s: State, n: State): set<State>
    decreases s
  {
    if s.Root? || !MustExit(s, n) then boxes else ExitBoxes(if s.persistent then boxes else boxes - {s}, s.parent, n)
  }

  function EntryEvents(boxes: set<State>, n: State, previous: State, first: bool): seq<Event> {
    if n.Root? || !MustEnter(n, previous, first) then [] else
      EntryEvents(boxes, n.parent, previous, false) + (if n.boxed && n !in boxes then [Create(n)] else []) + [Entry(n)]
  }

  function EntryBoxes(boxes: set<State>, n: State, previous: State, first: bool): set<State> {
    if n.Root? || !MustEnter(n, previous, first) then boxes else
      EntryBoxes(boxes, n.parent, previous, false) + if n.boxed then {n} else {}
  }

  /** The boxes in existence while s is the innermost state: those of the entered states, and
      persistent ones. */
  ghost predicate BoxesMatch(boxes: set<State>, s: State) {
    && (forall b :: b in boxes ==> b.Sub? && b.boxed && (b.persistent || b in Path(s)))
    && (forall b :: b in Path(s) && b.Sub? && b.boxed ==> b in boxes)
  }

  ghost predicate InPlace(w: World, s: State) {
    w.stack == Path(s) && BoxesMatch(w.boxes, s)
  }

  lemma NotInParentPath(s: State)
    requires s.Sub?
    ensures s !in Path(s.parent)
  {
    PathMembers(s.parent, s);
    if IsChild(s.parent, s) {
      ChildDeeper(s.parent, s);
    }
  }

  /** One exit with the box that goes with it. */
  lemma ExitOne(w: World, s: State)
    requires InPlace(w, s) && s.Sub?
    ensures var boxes := if s.persistent then w.boxes else w.boxes - {s};
      && InPlace(World(Path(s.parent), boxes), s.parent)
      && Play(w, [Exit(s)] + if s.boxed && !s.persistent then [Delete(s)] else []) == Some(World(Path(s.parent), boxes))
  {
    NotInParentPath(s);
    var v := World(Path(s.parent), w.boxes);
    assert w.stack == Path(s.parent) + [s] && s in Path(s);
    assert w.stack[..|w.stack| - 1] == Path(s.parent);
    PlayOne(w, Exit(s));
    if s.boxed && !s.persistent {
      PlayAppend(w, [Exit(s)], [Delete(s)]);
      PlayOne(v, Delete(s));
    } else {
      assert [Exit(s)] + [] == [Exit(s)];
      assert !s.persistent ==> w.boxes - {s} == w.boxes;
    }
  }

  /** All exits of a transition follow the rules and leave the stack at the meeting point. */
  lemma {:induction false} ExitsPlay(w: World, s: State, n: State)
    requires InPlace(w, s)
    ensures var v := World(Path(Leave(s, n)), ExitBoxes(w.boxes, s, n));
      Play(w, ExitEvents(s, n)) == Some(v) && InPlace(v, Leave(s, n))
    decreases s
  {
    if s.Sub? && MustExit(s, n) {
      ExitOne(w, s);
      var step := [Exit(s)] + if s.boxed && !s.persistent then [Delete(s)] else [];
      var v := Play(w, step).value;
      PlayAppend(w, step, ExitEvents(s.parent, n));
      ExitsPlay(v, s.parent, n);
      assert ExitEvents(s, n) == step + ExitEvents(s.parent, n);
    }
  }

  lemma EnterOne(w: World, s: State)
    requires s.Sub? && InPlace(w, s.parent)
    ensures var v := World(Path(s), w.boxes + if s.boxed then {s} else {});
      Play(w, (if s.boxed && s !in w.boxes then [Create(s)] else []) + [Entry(s)]) == Some(v) && InPlace(v, s)
  {
    NotInParentPath(s);
    assert s in Path(s);
    assert Innermost(Path(s.parent)) == s.parent;
    if s.boxed && s !in w.boxes {
      var u := World(w.stack, w.boxes + {s});
      PlayOne(w, Create(s));
      PlayAppend(w, [Create(s)], [Entry(s)]);
      PlayOne(u, Entry(s));
    } else {
      PlayOne(w, Entry(s));
      assert [] + [Entry(s)] == [Entry(s)];
      assert w.boxes + (if s.boxed then {s} else {}) == w.boxes;
    }
  }

  /** Entering outer states creates no box of an inner one. */
  lemma {:induction false} EntryBoxesAbove(boxes: set<State>, n: State, previous: State, first: bool, s: State)
    requires !IsChild(n, s)
    ensures s in EntryBoxes(boxes, n, previous, first) <==> s in boxes
  {
    if n.Sub? && MustEnter(n, previous, first) {
      EntryBoxesAbove(boxes, n.parent, previous, false, s);
    }
  }

  lemma {:induction false} EntriesPlay(w: World, n: State, previous: State, first: bool)
    requires InPlace(w, Base(n, previous, first))
    ensures var v := World(Path(n), EntryBoxes(w.boxes, n, previous, first));
      Play(w, EntryEvents(w.boxes, n, previous, first)) == Some(v) && InPlace(v, n)
  {
    if n.Sub? && MustEnter(n, previous, first) {
      EntriesPlay(w, n.parent, previous, false);
      EntryStep(w, n, previous, first);
    }
  }

  lemma EntryStep(w: World, n: State, previous: State, first: bool)
    requires n.Sub? && MustEnter(n, previous, first)
    requires var v := World(Path(n.parent), EntryBoxes(w.boxes, n.parent, previous, false));
      Play(w, EntryEvents(w.boxes, n.parent, previous, false)) == Some(v) && InPlace(v, n.parent)
    ensures var v := World(Path(n), EntryBoxes(w.boxes, n, previous, first));
      Play(w, EntryEvents(w.boxes, n, previous, first)) == Some(v) && InPlace(v, n)
  {
    var outer := EntryEvents(w.boxes, n.parent, previous, false);
    var v := World(Path(n.parent), EntryBoxes(w.boxes, n.parent, previous, false));
    var step := (if n.boxed && n !in w.boxes then [Create(n)] else []) + [Entry(n)];
    NotInParentPath(n);
    PathMembers(n.parent, n);
    EntryBoxesAbove(w.boxes, n.parent, previous, false, n);
    EnterOne(v, n);
    PlayAppend(w, outer, step);
    EventsStep(w.boxes, n, previous, first);
  }

  lemma EventsStep(boxes: set<State>, n: State, previous: State, first: bool)
    requires n.Sub? && MustEnter(n, previous, first)
    ensures EntryEvents(boxes, n, previous, first) ==
      EntryEvents(boxes, n.parent, previous, false)
        + ((if n.boxed && n !in boxes then [Create(n)] else []) + [Entry(n)])
  {
  }

  // ---------- configurations and steps ----------

  datatype Config = Config(current: State, pending: Option<Target>, hist: map<State, State>, boxes: set<State>,
      trace: seq<Event>)

  /** Exits, history, entries: the deterministic part of a step. */
  function Transit(c: Config): Config
    requires c.pending.Some?
  {
    var n := c.pending.value.state;
    var left := ExitBoxes(c.boxes, c.current, n);
    Config(n, c.pending, SaveUp(c.hist, c.current, c.current), EntryBoxes(left, n, c.current, true),
      c.trace + ExitEvents(c.current, n) + EntryEvents(left, n, c.current, true))
  }

  /** The init action of a state may ask for a transition to a proper substate; the root's does nothing. */
  predicate InitChoice(s: State, choice: Option<Target>) {
    choice.Some? ==> s.Sub? && ProperChild(choice.value.state, s)
  }

  /** Running the initializer in the new state: a history transition goes to the remembered state
      instead of running the init action; both ways the history is used up.  Initializers with data run
      the init action and leave the history alone. */
  predicate Initialised(c: Config, init: Initializer, d: Config) {
    var s := c.current;
    if init.HistoryInit? && s in c.hist then
      d == c.(pending := Some(Target(c.hist[s], DefaultInit)), hist := c.hist - {s})
    else
      && InitChoice(s, d.pending)
      && d == c.(
        pending := d.pending,
        hist := if init.DataInit? then c.hist else c.hist - {s},
        trace := c.trace + [Init(s)])
  }

  predicate Step(c: Config, d: Config) {
    c.pending.Some? && Initialised(Transit(c), c.pending.value.init, d)
  }

  /** An event handler, or the start of the machine, asks for a transition. */
  predicate Request(c: Config, d: Config) {
    c.pending.None? && d == c.(pending := d.pending)
  }

  predicate Next(c: Config, d: Config) {
    Step(c, d) || Request(c, d)
  }

  ghost predicate IsRun(run: seq<Config>) {
    run != [] && forall i :: 0 <= i < |run| - 1 ==> Next(run[i], run[i + 1])
  }

  /** What was asked for when nothing was pending, one entry for every dispatched event. */
  function Asked(run: seq<Config>): seq<Option<Target>> {
    if |run| < 2 then [] else
      var n := |run| - 1;
      Asked(run[..n]) + if run[n - 1].pending.None? then [run[n].pending] else []
  }

  /** The last target of the list, if there is one. */
  function LastOf(asked: seq<Option<Target>>): Option<Target> {
    if asked == [] then None else
      var n := |asked| - 1;
      if asked[n].Some? then asked[n] else LastOf(asked[..n])
  }

  lemma {:induction false} AskedJoined(a: seq<Config>, b: seq<Config>)
    requires a != [] && b != [] && a[|a| - 1] == b[0]
    ensures Asked(a + b[1..]) == Asked(a) + Asked(b)
    decreases |b|
  {
    var r := a + b[1..];
    if |b| == 1 {
      assert r == a;
    } else {
      var b' := b[..|b| - 1];
      AskedJoined(a, b');
      assert r[..|r| - 1] == a + b'[1..];
      assert r[|r| - 2] == b[|b| - 2] by {
        if |b| == 2 {
          assert r[|a| - 1] == a[|a| - 1];
        }
      }
    }
  }

  lemma AskedNext(run: seq<Config>, d: Config)
    requires run != []
    ensures Asked(run + [d]) == Asked(run) + if run[|run| - 1].pending.None? then [d.pending] else []
  {
    assert (run + [d])[..|run|] == run;
  }

  /** A run from c to d on which exactly this was asked for. */
  ghost predicate Recorded(run: seq<Config>, c: Config, d: Config, asked: seq<Option<Target>>) {
    IsRun(run) && run[0] == c && run[|run| - 1] == d && Asked(run) == asked
  }

  /** One transition more. */
  lemma OneStep(a: seq<Config>, c: Config, d: Config, e: Config, x: seq<Option<Target>>) returns (r: seq<Config>)
    requires Recorded(a, c, d, x) && Step(d, e)
    ensures Recorded(r, c, e, x)
  {
    AskedNext(a, e);
    r := a + [e];
  }

  /** Two runs, one continuing the other. */
  lemma Continued(
    a: seq<Config>, b: seq<Config>, c: Config, d: Config, e: Config, x: seq<Option<Target>>, y: seq<Option<Target>>)
    returns (r: seq<Config>)
    requires Recorded(a, c, d, x) && Recorded(b, d, e, y)
    ensures Recorded(r, c, e, x + y)
  {
    AskedJoined(a, b);
    r := a + b[1..];
    forall i | 0 <= i < |r| - 1
      ensures Next(r[i], r[i + 1])
    {
      if i < |a| - 1 {
        assert Next(a[i], a[i + 1]);
      } else {
        assert Next(b[i - |a| + 1], b[i - |a| + 2]);
      }
    }
  }

  lemma OneRequest(c: Config, d: Config)
    requires Request(c, d)
    ensures Recorded([c, d], c, d, [d.pending])
  {
    AskedNext([c], d);
    assert [c] + [d] == [c, d];
  }

  lemma LastOfMore(asked: seq<Option<Target>>, t: Option<Target>)
    ensures LastOf(asked + [t]) == if t.Some? then t else LastOf(asked)
  {
    assert (asked + [t])[..|asked|] == asked;
  }

  /** Every stored history is a proper substate of its owner, a direct one under shallow history. */
  ghost predicate HistoryOk(hist: map<State, State>) {
    forall a :: a in hist ==> ProperChild(hist[a], a) && (Strat(a) == ShallowHistory ==> hist[a].parent == a)
  }

  /** All actions so far were allowed, and exactly the superstates of the current state are entered. */
  ghost predicate Good(c: Config) {
    && Play(World([], {}), c.trace) == Some(World(Path(c.current), c.boxes))
    && BoxesMatch(c.boxes, c.current)
    && HistoryOk(c.hist)
  }

  lemma SavedOk(hist: map<State, State>, s: State)
    requires HistoryOk(hist)
    ensures HistoryOk(SaveUp(hist, s, s))
  {
    forall a | a in SaveUp(hist, s, s)
      ensures ProperChild(SaveUp(hist, s, s)[a], a) &&
        (Strat(a) == ShallowHistory ==> SaveUp(hist, s, s)[a].parent == a)
    {
      SaveUpMeaning(hist, s, s, a);
      if ProperChild(s, a) {
        assert IsChild(ChildToward(s, a).parent, a) && Depth(ChildToward(s, a)) == Depth(a) + 1;
      }
    }
  }

  lemma TransitGood(c: Config)
    requires Good(c) && c.pending.Some?
    ensures Good(Transit(c))
  {
    var s, n := c.current, c.pending.value.state;
    var start, w := World([], {}), World(Path(s), c.boxes);
    var exits, left := ExitEvents(s, n), ExitBoxes(c.boxes, s, n);
    ExitsPlay(w, s, n);
    EntryMeetsExit(s, n);
    EntriesPlay(World(Path(Leave(s, n)), left), n, s, true);
    PlayAppend(start, c.trace, exits);
    PlayAppend(start, c.trace + exits, EntryEvents(left, n, s, true));
    SavedOk(c.hist, s);
  }

  lemma StepGood(c: Config, d: Config)
    requires Good(c) && Step(c, d)
    ensures Good(d)
  {
    TransitGood(c);
    var t := Transit(c);
    var w := World(Path(t.current), t.boxes);
    if d.trace != t.trace {
      PlayAppend(World([], {}), t.trace, [Init(t.current)]);
      PlayOne(w, Init(t.current));
      assert t.current.Sub? ==> t.current in Path(t.current);
    }
  }

  /** In every configuration of every run: the entered states are those on the way to the current one,
      their boxes are the only ones next to persistent ones, and every history points inside its owner. */
  lemma {:induction false} RunsStayGood(run: seq<Config>, i: nat)
    requires IsRun(run) && Good(run[0]) && i < |run|
    ensures Good(run[i])
  {
    if i > 0 {
      RunsStayGood(run, i - 1);
      assert Next(run[i - 1], run[i - 1 + 1]);
      if Step(run[i - 1], run[i]) {
        StepGood(run[i - 1], run[i]);
      }
    }
  }

  /** An init step only goes down. */
  lemma StepDescends(c: Config, d: Config)
    requires Good(c) && Step(c, d) && d.pending.Some?
    ensures d.current == c.pending.value.state && ProperChild(d.pending.value.state, d.current)
  {
    SavedOk(c.hist, c.current);
  }

  /** A step reaches the target, and ends with the init action there, unless the target is entered by
      history and remembers a state; an initializer with data leaves the histories alone, any other uses up
      that of the target. */
  lemma StepReaches(c: Config, d: Config)
    requires Step(c, d)
    ensures var n, init := c.pending.value.state, c.pending.value.init;
      var saved := SaveUp(c.hist, c.current, c.current);
      && d.current == n
      && (!(init == HistoryInit && n in saved) ==> d.trace != [] && d.trace[|d.trace| - 1] == Init(n))
      && (init.DataInit? ==> d.hist == saved)
      && (!init.DataInit? ==> d.hist == saved - {n})
      && (init == HistoryInit && n in saved ==> d.pending == Some(Target(saved[n], DefaultInit)))
  {
  }

  // ---------- what a history transition reaches ----------

  lemma {:induction false} NoExitsInside(s: State, n: State)
    requires ProperChild(n, s)
    ensures ExitEvents(s, n) == [] && forall boxes :: ExitBoxes(boxes, s, n) == boxes
  {
  }

  /** A history transition to s reaches, in the next step and without exiting anything or running an init
      action on the way, the state that s remembers; that state's own init action runs then. */
  lemma HistoryReached(c: Config, d: Config, e: Config)
    requires Good(c) && Step(c, d) && Step(d, e)
    requires c.pending.value.init.HistoryInit? &&
      Lookup(SaveUp(c.hist, c.current, c.current), c.pending.value.state).Some?
    ensures var s := c.pending.value.state; var h := Lookup(SaveUp(c.hist, c.current, c.current), s).value;
      && d.trace == Transit(c).trace && s !in d.hist
      && e.current == h && ProperChild(h, s)
      && e.trace == d.trace + EntryEvents(d.boxes, h, s, true) + [Init(h)]
  {
    SavedOk(c.hist, c.current);
    var s, h := c.pending.value.state, d.pending.value.state;
    NoExitsInside(s, h);
    assert ExitBoxes(d.boxes, s, h) == d.boxes;
    assert d.trace + [] == d.trace;
  }

  /** The state last left inside a, as its strategy remembers it, unless used up since: from the steps of
      the run alone. */
  function LastLeft(run: seq<Config>, a: State): Option<State>
    requires run != []
  {
    if |run| == 1 then Lookup(run[0].hist, a) else
      var before, c := LastLeft(run[..|run| - 1], a), run[|run| - 2];
      if c.pending.None? then before
      else if c.pending.value.state == a && !DataLeavesIt(run[..|run| - 1], a) then None
      else if ProperChild(c.current, a) && Strat(a) != NoHistory then Some(Remembered(a, c.current))
      else before
  }

  /** The last step runs an initializer with data. */
  predicate DataLeavesIt(run: seq<Config>, a: State)
    requires run != []
  {
    var c := run[|run| - 1];
    c.pending.Some? && c.pending.value.init.DataInit?
  }

  /** The stored history of every state, at every moment, is the one last left. */
  lemma {:induction false} HistoryIsLastLeft(run: seq<Config>, a: State)
    requires IsRun(run)
    ensures Lookup(run[|run| - 1].hist, a) == LastLeft(run, a)
  {
    if |run| > 1 {
      var shorter := run[..|run| - 1];
      HistoryIsLastLeft(shorter, a);
      var c, d := run[|run| - 2], run[|run| - 1];
      assert Next(run[|run| - 2], run[|run| - 2 + 1]);
      SaveUpMeaning(c.hist, c.current, c.current, a);
    }
  }

  // ---------- boxes of persistent states ----------

  lemma {:induction false} PersistentKept(boxes: set<State>, s: State, n: State, b: State)
    requires b in boxes && b.Sub? && b.persistent
    ensures b in ExitBoxes(boxes, s, n)
    decreases s
  {
    if s.Sub? && MustExit(s, n) {
      PersistentKept(if s.persistent then boxes else boxes - {s}, s.parent, n, b);
    }
  }

  lemma {:induction false} EntryKeepsBoxes(boxes: set<State>, n: State, previous: State, first: bool)
    ensures boxes <= EntryBoxes(boxes, n, previous, first)
  {
    if n.Sub? && MustEnter(n, previous, first) {
      EntryKeepsBoxes(boxes, n.parent, previous, false);
    }
  }

  /** Once created, a persistent box survives every run. */
  lemma {:induction false} PersistentSurvives(run: seq<Config>, i: nat, j: nat, b: State)
    requires IsRun(run) && i <= j < |run| && b in run[i].boxes && b.Sub? && b.persistent
    ensures b in run[j].boxes
  {
    if i < j {
      PersistentSurvives(run, i, j - 1, b);
      var c, d := run[j - 1], run[j];
      assert Next(run[j - 1], run[j - 1 + 1]);
      if Step(c, d) {
        var n := c.pending.value.state;
        PersistentKept(c.boxes, c.current, n, b);
        EntryKeepsBoxes(ExitBoxes(c.boxes, c.current, n), n, c.current, true);
      }
    }
  }
}
