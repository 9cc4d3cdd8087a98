/** Response times of Class A traffic next to scheduled (ST) traffic: the messages, their interference on
    a link as a function of time, and what the analysis is to compute from it. */
module Traffic {
  import opened Arithmetic
  import opened AnalysisMath

  const MAX_LINK := 100
  const FRAME_MAC := 42
  const SWITCH_FABRIC := 10_000_000
  const MAX_INST := 50

  datatype Priority = ST | ClassA | ClassB | NRT

  /** The enumeration value of a priority; a greater value is a lower priority. */
  function Rank(p: Priority): int {
    match p
    case ST => 1
    case ClassA => 2
    case ClassB => 3
    case NRT => 4
  }

  /** What the analysis reads of one message.  `link` lists the links the message crosses, in order;
      offset and instances are indexed by hop. */
  datatype Msg = Msg(
    priority: Priority, period: int, transTime: int, fragmented: bool, jitterIn: int,
    link: seq<nat>, offset: seq<int>, instances: seq<seq<int>>, instNumber: int)

  /** What the analysis computes for one message; resTime and jitterLink are indexed by link.  (The
      source keeps both parts in one record.) */
  datatype Outcome = Outcome(resTime: seq<int>, jitterLink: seq<int>, responseTime: int, jitterOut: int)

  predicate WellFormed(m: Msg) {
    && m.period > 0 && m.transTime > 0 && |m.link| <= MAX_LINK && (forall l :: l in m.link ==> l < MAX_LINK)
    && |m.offset| == |m.instances| == MAX_LINK
    && (forall row :: row in m.instances ==> |row| == MAX_INST)
    && 0 <= m.instNumber <= MAX_INST
  }

  predicate Table(msgs: seq<Msg>) {
    forall m :: m in msgs ==> WellFormed(m)
  }

  predicate Scheduled(m: Msg, linkID: nat) {
    m.priority.ST? && linkID in m.link
  }

  function FirstHop(link: seq<nat>, linkID: nat): (l: nat)
    requires linkID in link
    ensures l < |link| && link[l] == linkID && linkID !in link[..l]
  {
    if link[0] == linkID then 0 else 1 + FirstHop(link[1..], linkID)
  }

  function LastHop(link: seq<nat>, linkID: nat): (l: nat)
    requires linkID in link
    ensures l < |link| && link[l] == linkID && linkID !in link[l + 1..]
  {
    if link[|link| - 1] == linkID then |link| - 1 else LastHop(link[..|link| - 1], linkID)
  }

  /** The critical instant: instance `it` of the ST message c. */
  predicate Candidate(msgs: seq<Msg>, c: nat, it: nat) {
    Table(msgs) && c < |msgs| && it < MAX_INST
  }

  /** Offset of message m at hop `lin` relative to the critical instant, read, as in the source, at m's
      hop index in c's instance table. */
  function OffsetDiff(msgs: seq<Msg>, c: nat, it: nat, m: Msg, lin: nat): int
    requires Candidate(msgs, c, it) && m in msgs && lin < MAX_LINK
  {
    assert msgs[c] in msgs && msgs[c].instances[lin] in msgs[c].instances;
    m.offset[lin] - msgs[c].instances[lin][it]
  }

  function STTerm(msgs: seq<Msg>, linkID: nat, c: nat, it: nat, m: Msg, t: int): int
    requires Candidate(msgs, c, it) && m in msgs
  {
    if Scheduled(m, linkID) then
      Factor(OffsetDiff(msgs, c, it, m, FirstHop(m.link, linkID)), m.period, t) * m.transTime
    else 0
  }

  function PreemptTerm(msgs: seq<Msg>, tau: int, linkID: nat, c: nat, it: nat, m: Msg, t: int): int
    requires Candidate(msgs, c, it) && m in msgs
  {
    if Scheduled(m, linkID) then
      Factor(OffsetDiff(msgs, c, it, m, LastHop(m.link, linkID)), m.period, t) * FRAME_MAC * 8 * tau
    else 0
  }

  function STSum(msgs: seq<Msg>, linkID: nat, c: nat, it: nat, n: nat, t: int): int
    requires Candidate(msgs, c, it) && n <= |msgs|
  {
    if n == 0 then 0 else STSum(msgs, linkID, c, it, n - 1, t) + STTerm(msgs, linkID, c, it, msgs[n - 1], t)
  }

  function PreemptSum(msgs: seq<Msg>, tau: int, linkID: nat, c: nat, it: nat, n: nat, t: int): int
    requires Candidate(msgs, c, it) && n <= |msgs|
  {
    if n == 0 then 0 else
      PreemptSum(msgs, tau, linkID, c, it, n - 1, t) + PreemptTerm(msgs, tau, linkID, c, it, msgs[n - 1], t)
  }

  /** All ST interference and preemption overhead up to time t. */
  function Demand(msgs: seq<Msg>, tau: int, linkID: nat, c: nat, it: nat, t: int): int
    requires Candidate(msgs, c, it)
  {
    STSum(msgs, linkID, c, it, |msgs|, t) + PreemptSum(msgs, tau, linkID, c, it, |msgs|, t)
  }

  // ---------- the demand as a function of time ----------

  /** What one ST message costs the link per release. */
  function Cost(m: Msg, tau: int): int {
    m.transTime + FRAME_MAC * 8 * tau
  }

  /** The share of the link that the first n messages take as ST traffic. */
  function Load(msgs: seq<Msg>, tau: int, linkID: nat, n: nat): real
    requires Table(msgs) && n <= |msgs|
  {
    if n == 0 then 0.0 else
      assert msgs[n - 1] in msgs;
      Load(msgs, tau, linkID, n - 1) + Share(msgs[n - 1], tau, linkID)
  }

  function Share(m: Msg, tau: int, linkID: nat): real
    requires m.period > 0
  {
    if Scheduled(m, linkID) then Cost(m, tau) as real / m.period as real else 0.0
  }

  function TotalCost(msgs: seq<Msg>, tau: int, linkID: nat, n: nat): int
    requires n <= |msgs|
  {
    if n == 0 then 0 else
      TotalCost(msgs, tau, linkID, n - 1) + if Scheduled(msgs[n - 1], linkID) then Cost(msgs[n - 1], tau) else 0
  }

  /** A factor weighted with a cost: non-negative, monotone, and at most its share of t plus one cost. */
  lemma WeightedFactor(d: int, p: int, w: int, t: int, u: int)
    requires p > 0 && w >= 0 && 0 <= t <= u
    ensures 0 <= Factor(d, p, t) * w <= Factor(d, p, u) * w
    ensures (Factor(d, p, t) * w) * p <= w * (t + p)
  {
    FactorBounds(d, p, t, u);
    MulMonotone(Factor(d, p, t), Factor(d, p, u), w);
    WeightedBound(Factor(d, p, t), p, t, w);
  }

  lemma STTermBounds(msgs: seq<Msg>, linkID: nat, c: nat, it: nat, m: Msg, t: int, u: int)
    requires Candidate(msgs, c, it) && m in msgs && 0 <= t <= u
    ensures 0 <= STTerm(msgs, linkID, c, it, m, t) <= STTerm(msgs, linkID, c, it, m, u)
    ensures Scheduled(m, linkID) ==> STTerm(msgs, linkID, c, it, m, t) * m.period <= m.transTime * (t + m.period)
  {
    if Scheduled(m, linkID) {
      WeightedFactor(OffsetDiff(msgs, c, it, m, FirstHop(m.link, linkID)), m.period, m.transTime, t, u);
    }
  }

  lemma PreemptTermBounds(msgs: seq<Msg>, tau: int, linkID: nat, c: nat, it: nat, m: Msg, t: int, u: int)
    requires Candidate(msgs, c, it) && m in msgs && tau >= 0 && 0 <= t <= u
    ensures 0 <= PreemptTerm(msgs, tau, linkID, c, it, m, t) <= PreemptTerm(msgs, tau, linkID, c, it, m, u)
    ensures Scheduled(m, linkID) ==>
      PreemptTerm(msgs, tau, linkID, c, it, m, t) * m.period <= (FRAME_MAC * 8 * tau) * (t + m.period)
  {
    if Scheduled(m, linkID) {
      var d := OffsetDiff(msgs, c, it, m, LastHop(m.link, linkID));
      WeightedFactor(d, m.period, FRAME_MAC * 8 * tau, t, u);
      PreemptShape(Factor(d, m.period, t), tau);
      PreemptShape(Factor(d, m.period, u), tau);
    }
  }

  lemma PreemptShape(g: int, tau: int)
    ensures g * FRAME_MAC * 8 * tau == g * (FRAME_MAC * 8 * tau)
  {
  }

  lemma MulMonotone(a: int, b: int, w: int)
    requires 0 <= a <= b && w >= 0
    ensures 0 <= a * w <= b * w
  {
  }

  lemma WeightedBound(f: int, p: int, t: int, w: int)
    requires f * p <= t + p && w >= 0
    ensures (f * w) * p <= w * (t + p)
  {
    assert (f * w) * p == w * (f * p);
    assert w * (f * p) <= w * (t + p);
  }

  lemma FactorBounds(d: int, period: int, t: int, u: int)
    requires period > 0 && 0 <= t <= u
    ensures 0 <= Factor(d, period, t) <= Factor(d, period, u)
    ensures Factor(d, period, t) * period <= t + period
  {
    FactorCounts(d, period, t);
    FactorCounts(d, period, u);
    EuclideanPhase(d, period);
    ReleasesMonotone(d % period, period, t, u);
    ReleasesBound(d % period, period, t);
  }

  /** The demand is non-negative and grows with time. */
  lemma {:induction false} SumsMonotone(msgs: seq<Msg>, tau: int, linkID: nat, c: nat, it: nat, n: nat, t: int, u: int)
    requires Candidate(msgs, c, it) && tau >= 0 && n <= |msgs| && 0 <= t <= u
    ensures 0 <= STSum(msgs, linkID, c, it, n, t) <= STSum(msgs, linkID, c, it, n, u)
    ensures 0 <= PreemptSum(msgs, tau, linkID, c, it, n, t) <= PreemptSum(msgs, tau, linkID, c, it, n, u)
  {
    if n > 0 {
      SumsMonotone(msgs, tau, linkID, c, it, n - 1, t, u);
      STTermBounds(msgs, linkID, c, it, msgs[n - 1], t, u);
      PreemptTermBounds(msgs, tau, linkID, c, it, msgs[n - 1], t, u);
    }
  }

  /** The share of a message up to time t, and the sum of the shares. */
  function Part(m: Msg, tau: int, linkID: nat, t: nat): real
    requires m.period > 0
  {
    Scaled(Share(m, tau, linkID), t)
  }

  /** A rate over t units of time. */
  function Scaled(rate: real, t: nat): real {
    if t == 0 then 0.0 else Scaled(rate, t - 1) + rate
  }

  lemma {:induction false} ScaledSum(a: real, b: real, t: nat)
    ensures Scaled(a + b, t) == Scaled(a, t) + Scaled(b, t)
  {
    if t > 0 {
      ScaledSum(a, b, t - 1);
    }
  }

  lemma {:induction false} ScaledIsProduct(rate: real, t: nat)
    ensures Scaled(rate, t) == rate * t as real
  {
    if t > 0 {
      ScaledIsProduct(rate, t - 1);
      RealMulSum((t - 1) as real, 1.0, rate);
    }
  }

  function Parts(msgs: seq<Msg>, tau: int, linkID: nat, n: nat, t: nat): real
    requires Table(msgs) && n <= |msgs|
  {
    if n == 0 then 0.0 else
      assert msgs[n - 1] in msgs;
      Parts(msgs, tau, linkID, n - 1, t) + Part(msgs[n - 1], tau, linkID, t)
  }

  lemma {:induction false} PartsIsLoad(msgs: seq<Msg>, tau: int, linkID: nat, n: nat, t: nat)
    requires Table(msgs) && n <= |msgs|
    ensures Parts(msgs, tau, linkID, n, t) == Scaled(Load(msgs, tau, linkID, n), t)
  {
    if n > 0 {
      assert msgs[n - 1] in msgs;
      PartsIsLoad(msgs, tau, linkID, n - 1, t);
      ScaledSum(Load(msgs, tau, linkID, n - 1), Share(msgs[n - 1], tau, linkID), t);
    } else {
      ScaledIsProduct(0.0, t);
    }
  }

  lemma RealMulSum(a: real, b: real, t: real)
    ensures (a + b) * t == a * t + b * t
  {
  }

  lemma TermLoad(msgs: seq<Msg>, tau: int, linkID: nat, c: nat, it: nat, m: Msg, t: int)
    requires Candidate(msgs, c, it) && m in msgs && tau >= 0 && t >= 0 && Scheduled(m, linkID)
    ensures (STTerm(msgs, linkID, c, it, m, t) + PreemptTerm(msgs, tau, linkID, c, it, m, t)) as real
         <= Part(m, tau, linkID, t) + Cost(m, tau) as real
  {
    STTermBounds(msgs, linkID, c, it, m, t, t);
    PreemptTermBounds(msgs, tau, linkID, c, it, m, t, t);
    TermShare(STTerm(msgs, linkID, c, it, m, t), PreemptTerm(msgs, tau, linkID, c, it, m, t), m.period, m.transTime,
      FRAME_MAC * 8 * tau, t);
  }

  lemma TermShare(x: int, y: int, p: int, v: int, w: int, t: nat)
    requires p > 0 && x * p <= v * (t + p) && y * p <= w * (t + p)
    ensures (x + y) as real <= Scaled((v + w) as real / p as real, t) + (v + w) as real
  {
    ScaledIsProduct((v + w) as real / p as real, t);
    AddShares(x, y, p, v, w, t + p);
    Quotient(x + y, p, v + w, t);
  }

  lemma AddShares(x: int, y: int, p: int, v: int, w: int, s: int)
    requires x * p <= v * s && y * p <= w * s
    ensures (x + y) * p <= (v + w) * s
  {
  }

  /** The demand grows at most like the load. */
  lemma {:induction false} SumsBound(msgs: seq<Msg>, tau: int, linkID: nat, c: nat, it: nat, n: nat, t: int)
    requires Candidate(msgs, c, it) && tau >= 0 && n <= |msgs| && t >= 0
    ensures (STSum(msgs, linkID, c, it, n, t) + PreemptSum(msgs, tau, linkID, c, it, n, t)) as real
         <= Parts(msgs, tau, linkID, n, t) + TotalCost(msgs, tau, linkID, n) as real
  {
    if n > 0 {
      var m := msgs[n - 1];
      assert m in msgs;
      SumsBound(msgs, tau, linkID, c, it, n - 1, t);
      if Scheduled(m, linkID) {
        TermLoad(msgs, tau, linkID, c, it, m, t);
      } else {
        ScaledIsProduct(0.0, t);
      }
    }
  }

  lemma Quotient(x: int, p: int, w: int, t: int)
    requires p > 0 && x * p <= w * (t + p)
    ensures x as real <= (w as real / p as real) * t as real + w as real
  {
    var q := w as real / p as real;
    assert q * p as real == w as real;
    assert x as real * p as real <= w as real * (t as real + p as real) by {
      assert (x * p) as real == x as real * p as real;
      assert (w * (t + p)) as real == w as real * (t as real + p as real);
    }
    RealCancel(x as real, q, p as real, t as real);
  }

  lemma RealCancel(x: real, q: real, p: real, t: real)
    requires p > 0.0 && x * p <= (q * p) * (t + p)
    ensures x <= q * t + q * p
  {
    assert (q * p) * (t + p) == (q * t + q * p) * p;
    if x > q * t + q * p {
      RealMul(x, q * t + q * p, p);
    }
  }

  lemma RealMul(a: real, b: real, p: real)
    requires a > b && p > 0.0
    ensures a * p > b * p
  {
  }

  lemma {:induction false} LoadNonNegative(msgs: seq<Msg>, tau: int, linkID: nat, n: nat)
    requires Table(msgs) && tau >= 0 && n <= |msgs|
    ensures Load(msgs, tau, linkID, n) >= 0.0 && TotalCost(msgs, tau, linkID, n) >= 0
  {
    if n > 0 {
      assert msgs[n - 1] in msgs;
      LoadNonNegative(msgs, tau, linkID, n - 1);
    }
  }

  // ---------- fixed points ----------

  ghost predicate IsFixedPoint(msgs: seq<Msg>, tau: int, linkID: nat, c: nat, it: nat, base: int, t: int)
    requires Candidate(msgs, c, it)
  {
    t >= 0 && t == base + Demand(msgs, tau, linkID, c, it, t)
  }

  ghost predicate IsLeastFixedPoint(msgs: seq<Msg>, tau: int, linkID: nat, c: nat, it: nat, base: int, t: int)
    requires Candidate(msgs, c, it)
  {
    && IsFixedPoint(msgs, tau, linkID, c, it, base, t)
    && forall u :: IsFixedPoint(msgs, tau, linkID, c, it, base, u) ==> t <= u
  }

  /** A time that no iterate exceeds. */
  function Horizon(msgs: seq<Msg>, tau: int, linkID: nat, base: int): int
    requires Table(msgs) && Load(msgs, tau, linkID, |msgs|) < 1.0
  {
    ((base + TotalCost(msgs, tau, linkID, |msgs|)) as real / (1.0 - Load(msgs, tau, linkID, |msgs|))).Floor
  }

  /** One more turn from the bound, which is at least the base, does not exceed it. */
  predicate Settles(msgs: seq<Msg>, tau: int, linkID: nat, c: nat, it: nat, base: int, bound: int)
    requires Candidate(msgs, c, it)
  {
    base <= bound && base + Demand(msgs, tau, linkID, c, it, bound) <= bound
  }

  /** With a load below 1 the horizon is such a bound. */
  lemma HorizonSettles(msgs: seq<Msg>, tau: int, linkID: nat, c: nat, it: nat, base: int)
    requires Candidate(msgs, c, it) && tau >= 0 && base >= 0 && Load(msgs, tau, linkID, |msgs|) < 1.0
    ensures Settles(msgs, tau, linkID, c, it, base, Horizon(msgs, tau, linkID, base))
  {
    var load, total := Load(msgs, tau, linkID, |msgs|), TotalCost(msgs, tau, linkID, |msgs|);
    var t := Horizon(msgs, tau, linkID, base);
    HorizonStart(msgs, tau, linkID, base);
    DemandBound(msgs, tau, linkID, c, it, t);
    LoadNonNegative(msgs, tau, linkID, |msgs|);
    HorizonArithmetic(load, total, base, Demand(msgs, tau, linkID, c, it, t), t);
  }

  /** The demand stays below the line with the slope of the load. */
  lemma DemandBound(msgs: seq<Msg>, tau: int, linkID: nat, c: nat, it: nat, t: int)
    requires Candidate(msgs, c, it) && tau >= 0 && t >= 0
    ensures Demand(msgs, tau, linkID, c, it, t) as real <= Scaled(Load(msgs, tau, linkID, |msgs|), t)
      + TotalCost(msgs, tau, linkID, |msgs|) as real
  {
    SumsBound(msgs, tau, linkID, c, it, |msgs|, t);
    PartsIsLoad(msgs, tau, linkID, |msgs|, t);
  }

  lemma HorizonArithmetic(load: real, total: int, base: int, demand: int, t: nat)
    requires 0.0 <= load < 1.0 && t == ((base + total) as real / (1.0 - load)).Floor &&
      demand as real <= Scaled(load, t) + total as real
    ensures base + demand <= t
  {
    ScaledIsProduct(load, t);
    BelowQuotient(load, t as real, (base + total) as real);
    FloorAbove(base + demand, (base + total) as real / (1.0 - load));
  }

  /** The value after n turns of the iteration. */
  function Iterate(msgs: seq<Msg>, tau: int, linkID: nat, c: nat, it: nat, base: int, start: int, n: nat): int
    requires Candidate(msgs, c, it)
  {
    if n == 0 then start else
      base + Demand(msgs, tau, linkID, c, it, Iterate(msgs, tau, linkID, c, it, base, start, n - 1))
  }

  /** Without a fixed point the iteration never stops: every turn is above the one before. */
  lemma {:induction false} NoFixedPointDiverges(msgs: seq<Msg>, tau: int, linkID: nat, c: nat, it: nat, base: int,
      start: int, n: nat)
    requires Candidate(msgs, c, it) && tau >= 0 && 0 < start <= base
    requires forall t :: !IsFixedPoint(msgs, tau, linkID, c, it, base, t)
    ensures 0 < Iterate(msgs, tau, linkID, c, it, base, start, n) < Iterate(msgs, tau, linkID, c, it, base, start,
      n + 1)
  {
    var t := Iterate(msgs, tau, linkID, c, it, base, start, n);
    if n == 0 {
      SumsMonotone(msgs, tau, linkID, c, it, |msgs|, t, t);
    } else {
      NoFixedPointDiverges(msgs, tau, linkID, c, it, base, start, n - 1);
      SumsMonotone(msgs, tau, linkID, c, it, |msgs|, Iterate(msgs, tau, linkID, c, it, base, start, n - 1), t);
    }
    assert !IsFixedPoint(msgs, tau, linkID, c, it, base, t);
  }

  /** Where the iteration is caught below some bound there is a fixed point, and conversely. */
  lemma {:induction false} ClimbsToFixedPoint(
    msgs: seq<Msg>, tau: int, linkID: nat, c: nat, it: nat, base: int, bound: int, from: int)
    returns (t: int)
    requires Candidate(msgs, c, it) && tau >= 0 && Settles(msgs, tau, linkID, c, it, base, bound)
    requires 0 <= from <= bound && from <= base + Demand(msgs, tau, linkID, c, it, from)
    ensures IsFixedPoint(msgs, tau, linkID, c, it, base, t) && t <= bound
    decreases bound - from
  {
    var next := base + Demand(msgs, tau, linkID, c, it, from);
    if next == from {
      t := from;
    } else {
      SumsMonotone(msgs, tau, linkID, c, it, |msgs|, from, bound);
      SumsMonotone(msgs, tau, linkID, c, it, |msgs|, from, next);
      t := ClimbsToFixedPoint(msgs, tau, linkID, c, it, base, bound, next);
    }
  }

  lemma SettlesIffFixedPoint(msgs: seq<Msg>, tau: int, linkID: nat, c: nat, it: nat, base: int)
    requires Candidate(msgs, c, it) && tau >= 0 && base >= 0
    ensures (exists bound :: Settles(msgs, tau, linkID, c, it, base, bound))
       <==> (exists t :: IsFixedPoint(msgs, tau, linkID, c, it, base, t))
  {
    if bound :| Settles(msgs, tau, linkID, c, it, base, bound) {
      SumsMonotone(msgs, tau, linkID, c, it, |msgs|, 0, 0);
      var t := ClimbsToFixedPoint(msgs, tau, linkID, c, it, base, bound, 0);
    }
    if t :| IsFixedPoint(msgs, tau, linkID, c, it, base, t) {
      SumsMonotone(msgs, tau, linkID, c, it, |msgs|, t, t);
      assert Settles(msgs, tau, linkID, c, it, base, t);
    }
  }

  lemma FloorAbove(x: int, y: real)
    requires x as real <= y
    ensures x <= y.Floor
  {
  }

  /** t + load-share stays below s / (1 - load) when t does. */
  lemma BelowQuotient(load: real, t: real, s: real)
    requires 0.0 <= load < 1.0 && t <= s / (1.0 - load)
    ensures s + load * t <= s / (1.0 - load)
  {
    var b := s / (1.0 - load);
    assert b * (1.0 - load) == s;
    assert load * t <= load * b;
  }

  lemma HorizonStart(msgs: seq<Msg>, tau: int, linkID: nat, base: int)
    requires Table(msgs) && tau >= 0 && Load(msgs, tau, linkID, |msgs|) < 1.0 && base >= 0
    ensures base <= Horizon(msgs, tau, linkID, base)
  {
    var load, total := Load(msgs, tau, linkID, |msgs|), TotalCost(msgs, tau, linkID, |msgs|);
    LoadNonNegative(msgs, tau, linkID, |msgs|);
    QuotientAtLeast(base as real, (base + total) as real, 1.0 - load);
  }

  lemma QuotientAtLeast(a: real, s: real, k: real)
    requires 0.0 < k <= 1.0 && 0.0 <= a <= s
    ensures s / k >= a
  {
    var b := s / k;
    assert b * k == s && a * k <= a;
    if b < a {
      RealMul(a, b, k);
    }
  }

  // ---------- the result for one link ----------

  /** The critical instants of a link: the instances of the ST messages that cross it. */
  predicate Critical(msgs: seq<Msg>, linkID: nat, c: nat, it: nat) {
    Candidate(msgs, c, it) && Scheduled(msgs[c], linkID) && it < msgs[c].instNumber
  }

  /** At every critical instant some time settles, so that the iteration ends. */
  ghost predicate AllSettle(msgs: seq<Msg>, tau: int, linkID: nat, base: int)
    requires Table(msgs)
  {
    forall c: nat, it: nat :: Critical(msgs, linkID, c, it) ==>
      exists bound :: Settles(msgs, tau, linkID, c, it, base, bound)
  }

  /** r is the largest, over all critical instants, of the least fixed points, and the base if there
      is no critical instant. */
  ghost predicate IsLinkResult(msgs: seq<Msg>, tau: int, linkID: nat, base: int, r: int)
    requires Table(msgs)
  {
    && r >= base
    && (forall c: nat, it: nat, t ::
      Critical(msgs, linkID, c, it) && IsLeastFixedPoint(msgs, tau, linkID, c, it, base, t) ==> t <= r)
    && (r == base || exists c: nat, it: nat ::
      Critical(msgs, linkID, c, it) && IsLeastFixedPoint(msgs, tau, linkID, c, it, base, r))
  }

  /** There is only one such result. */
  lemma LinkResultUnique(msgs: seq<Msg>, tau: int, linkID: nat, base: int, r: int, s: int)
    requires Table(msgs) && IsLinkResult(msgs, tau, linkID, base, r) && IsLinkResult(msgs, tau, linkID, base, s)
    ensures r == s
  {
  }

  /** Interference of the other Class A messages among the first n, rounded down after each addition. */
  function SamePriority(msgs: seq<Msg>, alpha: real, m: nat, linkID: nat, n: nat): (s: int)
    requires alpha > 0.0 && Table(msgs) && n <= |msgs|
    ensures s >= 0
  {
    if n == 0 then 0 else
      var s := SamePriority(msgs, alpha, m, linkID, n - 1);
      assert msgs[n - 1] in msgs;
      if Rival(msgs, m, linkID, n - 1) then (s as real + msgs[n - 1].transTime as real / alpha).Floor else s
  }

  predicate Rival(msgs: seq<Msg>, m: nat, linkID: nat, i: nat)
    requires i < |msgs|
  {
    msgs[i].priority.ClassA? && m != i && linkID in msgs[i].link
  }

  /** The lower-priority message i may block m on the link, for this long. */
  function BlockingBy(msgs: seq<Msg>, mtuTime: int, rank: int, linkID: nat, i: nat): int
    requires i < |msgs|
  {
    if Rank(msgs[i].priority) > rank && linkID in msgs[i].link then
      (if msgs[i].fragmented then mtuTime else msgs[i].transTime)
    else 0
  }

  /** b is the longest blocking by any of the first n messages, 0 if there is none. */
  ghost predicate IsBlocking(msgs: seq<Msg>, mtuTime: int, rank: int, linkID: nat, n: nat, b: int)
    requires n <= |msgs|
  {
    && b >= 0 && (forall i :: 0 <= i < n ==> BlockingBy(msgs, mtuTime, rank, linkID, i) <= b)
    && (b == 0 || exists i :: 0 <= i < n && BlockingBy(msgs, mtuTime, rank, linkID, i) == b)
  }

  // ---------- along the route ----------

  /** The idle slope of every link. */
  predicate Slopes(alpha: seq<real>) {
    |alpha| == MAX_LINK && forall l :: 0 <= l < MAX_LINK ==> alpha[l] > 0.0
  }

  predicate Sized(out: Outcome) {
    |out.resTime| == |out.jitterLink| == MAX_LINK
  }

  /** The sum of the link response times over the first n hops. */
  function SumRes(m: Msg, out: Outcome, n: nat): int
    requires WellFormed(m) && Sized(out) && n <= |m.link|
  {
    if n == 0 then 0 else
      assert m.link[n - 1] in m.link;
      SumRes(m, out, n - 1) + out.resTime[m.link[n - 1]]
  }

  /** The jitter collected up to hop l: response times over the transmission times. */
  function JitterOfHop(m: Msg, out: Outcome, l: nat): int
    requires WellFormed(m) && Sized(out) && l < |m.link|
  {
    SumRes(m, out, l + 1) - (l + 1) * m.transTime
  }

  /** What the first n hops add to the jitter entry of link x. */
  function JitterAdded(m: Msg, out: Outcome, x: nat, n: nat): int
    requires WellFormed(m) && Sized(out) && n <= |m.link|
  {
    if n == 0 then 0 else
      JitterAdded(m, out, x, n - 1) + if m.link[n - 1] == x then JitterOfHop(m, out, n - 1) else 0
  }

  predicate Distinct(link: seq<nat>) {
    forall i, j :: 0 <= i < j < |link| ==> link[i] != link[j]
  }

  lemma {:induction false} JitterDistinct(m: Msg, out: Outcome, l: nat, n: nat)
    requires WellFormed(m) && Sized(out) && l < |m.link| && n <= |m.link| && Distinct(m.link)
    ensures JitterAdded(m, out, m.link[l], n) == if l < n then JitterOfHop(m, out, l) else 0
  {
    if n > 0 {
      JitterDistinct(m, out, l, n - 1);
    }
  }

  /** Interference a Class A message meets on a link apart from ST traffic: blocking, same priority, itself. */
  ghost predicate IsBase(msgs: seq<Msg>, mtuTime: int, alpha: real, m: nat, linkID: nat, base: int)
    requires Table(msgs) && m < |msgs| && alpha > 0.0
  {
    exists b :: IsBlocking(msgs, mtuTime, Rank(msgs[m].priority), linkID, |msgs|, b)
      && base == b + SamePriority(msgs, alpha, m, linkID, |msgs|) + msgs[m].transTime
  }

  /** The interference that message m meets on the link, apart from ST traffic, settles everywhere. */
  ghost predicate LinkSettles(msgs: seq<Msg>, tau: int, mtuTime: int, alpha: real, m: nat, linkID: nat)
    requires Table(msgs) && m < |msgs| && alpha > 0.0
  {
    forall base :: IsBase(msgs, mtuTime, alpha, m, linkID, base) ==> AllSettle(msgs, tau, linkID, base)
  }

  /** It does wherever the ST load is below 1. */
  lemma LoadSettles(msgs: seq<Msg>, tau: int, mtuTime: int, alpha: real, m: nat, linkID: nat)
    requires Table(msgs) && m < |msgs| && alpha > 0.0 && tau >= 0 && Load(msgs, tau, linkID, |msgs|) < 1.0
    ensures LinkSettles(msgs, tau, mtuTime, alpha, m, linkID)
  {
    assert msgs[m] in msgs;
    forall base, c: nat, it: nat | IsBase(msgs, mtuTime, alpha, m, linkID, base) && Critical(msgs, linkID, c, it)
      ensures exists bound :: Settles(msgs, tau, linkID, c, it, base, bound)
    {
      HorizonSettles(msgs, tau, linkID, c, it, base);
    }
  }

  /** The response time of message m on a link. */
  ghost predicate IsLinkResponse(msgs: seq<Msg>, tau: int, mtuTime: int, alpha: real, m: nat, linkID: nat, r: int)
    requires Table(msgs) && m < |msgs| && alpha > 0.0
  {
    exists base :: IsBase(msgs, mtuTime, alpha, m, linkID, base) && IsLinkResult(msgs, tau, linkID, base, r)
  }

  lemma LinkResponseUnique(msgs: seq<Msg>, tau: int, mtuTime: int, alpha: real, m: nat, linkID: nat, r: int, s: int)
    requires Table(msgs) && m < |msgs| && alpha > 0.0
    requires IsLinkResponse(msgs, tau, mtuTime, alpha, m, linkID, r) &&
      IsLinkResponse(msgs, tau, mtuTime, alpha, m, linkID, s)
    ensures r == s
  {
    var b :| IsBase(msgs, mtuTime, alpha, m, linkID, b) && IsLinkResult(msgs, tau, linkID, b, r);
    var d :| IsBase(msgs, mtuTime, alpha, m, linkID, d) && IsLinkResult(msgs, tau, linkID, d, s);
    LinkResultUnique(msgs, tau, linkID, b, r, s);
  }

  ghost predicate RouteSettles(msgs: seq<Msg>, tau: int, mtuTime: int, alpha: seq<real>, m: nat)
    requires Table(msgs) && m < |msgs| && Slopes(alpha)
  {
    assert msgs[m] in msgs;
    forall linkID :: linkID in msgs[m].link ==> LinkSettles(msgs, tau, mtuTime, alpha[linkID], m, linkID)
  }

  ghost predicate Routed(msgs: seq<Msg>, tau: int, mtuTime: int, alpha: seq<real>, m: nat, resTime: seq<int>, n: nat)
    requires Table(msgs) && m < |msgs| && Slopes(alpha) && |resTime| == MAX_LINK && n <= |msgs[m].link|
  {
    assert msgs[m] in msgs;
    forall l :: 0 <= l < n ==>
      assert msgs[m].link[l] in msgs[m].link;
      IsLinkResponse(msgs, tau, mtuTime, alpha[msgs[m].link[l]], m, msgs[m].link[l], resTime[msgs[m].link[l]])
  }

  /** The outcome of one Class A message, from the outcome before it. */
  ghost predicate IsClassAOutcome(msgs: seq<Msg>, tau: int, mtuTime: int, alpha: seq<real>, m: nat, before: Outcome,
      out: Outcome)
    requires Table(msgs) && m < |msgs| && Slopes(alpha) && Sized(before) && Sized(out)
  {
    assert msgs[m] in msgs;
    var n := |msgs[m].link|;
    && Routed(msgs, tau, mtuTime, alpha, m, out.resTime, n)
    && (forall x :: 0 <= x < MAX_LINK && x !in msgs[m].link ==> out.resTime[x] == before.resTime[x])
    && out.jitterLink == before.jitterLink
    && out.responseTime == before.responseTime + SumRes(msgs[m], out, n) + (n - 1) * SWITCH_FABRIC + msgs[m].jitterIn
    && out.jitterOut == out.responseTime - (msgs[m].transTime * n + (n - 1) * SWITCH_FABRIC)
  }

  /** A link response is never shorter than the transmission. */
  lemma ResponseAtLeastTransmission(msgs: seq<Msg>, tau: int, mtuTime: int, alpha: real, m: nat, linkID: nat, r: int)
    requires Table(msgs) && m < |msgs| && alpha > 0.0 && IsLinkResponse(msgs, tau, mtuTime, alpha, m, linkID, r)
    ensures r >= msgs[m].transTime
  {
    var b :| IsBase(msgs, mtuTime, alpha, m, linkID, b) && IsLinkResult(msgs, tau, linkID, b, r);
  }

  lemma JitterStep(m: Msg, out: Outcome, l: nat)
    requires WellFormed(m) && Sized(out) && l < |m.link| && m.link[l] in m.link
    ensures JitterOfHop(m, out, l)
      == (if l == 0 then 0 else JitterOfHop(m, out, l - 1)) + out.resTime[m.link[l]] - m.transTime
  {
    assert (l + 1) * m.transTime == l * m.transTime + m.transTime;
    if l == 0 {
      assert SumRes(m, out, 0) == 0;
    }
  }

  lemma {:induction false} JitterGrows(m: Msg, out: Outcome, k: nat, l: nat)
    requires WellFormed(m) && Sized(out) && k <= l < |m.link|
    requires forall x :: 0 <= x < |m.link| ==> (assert m.link[x] in m.link; out.resTime[m.link[x]] >= m.transTime)
    ensures 0 <= JitterOfHop(m, out, k) <= JitterOfHop(m, out, l)
  {
    assert m.link[l] in m.link;
    JitterStep(m, out, l);
    if k < l {
      JitterGrows(m, out, k, l - 1);
    } else if k > 0 {
      JitterGrows(m, out, k - 1, k - 1);
    }
  }

  /** The jitter entries of a route of distinct links, started from zero: they never fall along the
      route, and the last one with the sender's jitter is the output jitter. */
  lemma JitterAlongRoute(msgs: seq<Msg>, tau: int, mtuTime: int, alpha: seq<real>, m: nat, before: Outcome,
      out: Outcome)
    requires Table(msgs) && m < |msgs| && Slopes(alpha) && Sized(before) && Sized(out)
    requires IsClassAOutcome(msgs, tau, mtuTime, alpha, m, before, out) && before.responseTime == 0
    requires Distinct(msgs[m].link)
    ensures forall k, l :: 0 <= k <= l < |msgs[m].link| && msgs[m] in msgs ==>
      0 <= JitterAdded(msgs[m], out, msgs[m].link[k], |msgs[m].link|)
        <= JitterAdded(msgs[m], out, msgs[m].link[l], |msgs[m].link|)
    ensures msgs[m].link != [] ==>
      msgs[m] in msgs && JitterAdded(msgs[m], out, msgs[m].link[|msgs[m].link| - 1], |msgs[m].link|) + msgs[m].jitterIn
        == out.jitterOut
  {
    var msg := msgs[m];
    assert msg in msgs;
    var n := |msg.link|;
    forall x | 0 <= x < n
      ensures (assert msg.link[x] in msg.link; out.resTime[msg.link[x]] >= msg.transTime)
    {
      assert msg.link[x] in msg.link;
      ResponseAtLeastTransmission(msgs, tau, mtuTime, alpha[msg.link[x]], m, msg.link[x], out.resTime[msg.link[x]]);
    }
    forall k, l | 0 <= k <= l < n
      ensures 0 <= JitterAdded(msg, out, msg.link[k], n) <= JitterAdded(msg, out, msg.link[l], n)
    {
      JitterDistinct(msg, out, k, n);
      JitterDistinct(msg, out, l, n);
      JitterGrows(msg, out, k, l);
    }
    if n > 0 {
      JitterDistinct(msg, out, n - 1, n);
    }
  }

  // ---------- hyperperiods ----------

  /** v is the hyperperiod of the ST traffic among the first n messages on a link: 0 without any, else
      the least common multiple of the periods. */
  ghost predicate IsCycle(msgs: seq<Msg>, linkID: nat, n: nat, v: int)
    requires n <= |msgs|
  {
    && (Unused(msgs, linkID, n) ==> v == 0)
    && (!Unused(msgs, linkID, n) ==> v > 0 && CommonPeriod(msgs, linkID, n, v))
    && (!Unused(msgs, linkID, n) ==> forall w :: CommonPeriod(msgs, linkID, n, w) ==> Multiple(w, v))
  }

  predicate Unused(msgs: seq<Msg>, linkID: nat, n: nat)
    requires n <= |msgs|
  {
    forall i :: 0 <= i < n ==> !Scheduled(msgs[i], linkID)
  }

  ghost predicate CommonPeriod(msgs: seq<Msg>, linkID: nat, n: nat, w: int)
    requires n <= |msgs|
  {
    forall i :: 0 <= i < n && Scheduled(msgs[i], linkID) ==> Multiple(w, msgs[i].period)
  }

  lemma MultipleTransitive(a: int, b: int, c: int)
    requires Multiple(a, b) && Multiple(b, c)
    ensures Multiple(a, c)
  {
    var i :| Times(i, b, a);
    var j :| Times(j, c, b);
    TimesAssoc(i, j, c);
    assert Times(i * j, c, a);
  }

  lemma TimesAssoc(i: int, j: int, c: int)
    ensures i * (j * c) == (i * j) * c
  {
  }

  /** The hyperperiod grows by one more message. */
  lemma CycleStep(msgs: seq<Msg>, linkID: nat, n: nat, old_: int, v: int)
    requires n < |msgs| && IsCycle(msgs, linkID, n, old_) && Scheduled(msgs[n], linkID) && msgs[n].period > 0
    requires if Unused(msgs, linkID, n) then v == msgs[n].period else IsLcm(v, old_, msgs[n].period)
    ensures IsCycle(msgs, linkID, n + 1, v)
  {
    assert Times(1, msgs[n].period, msgs[n].period);
    forall i | 0 <= i < n + 1 && Scheduled(msgs[i], linkID)
      ensures Multiple(v, msgs[i].period)
    {
      if i < n {
        MultipleTransitive(v, old_, msgs[i].period);
      }
    }
    forall w | CommonPeriod(msgs, linkID, n + 1, w)
      ensures Multiple(w, v)
    {
      assert CommonPeriod(msgs, linkID, n, w);
    }
  }

  /** It is the least positive common multiple. */
  lemma CycleIsLeast(msgs: seq<Msg>, linkID: nat, n: nat, v: int, w: int)
    requires n <= |msgs| && IsCycle(msgs, linkID, n, v) && !Unused(msgs, linkID, n)
    requires w > 0 && CommonPeriod(msgs, linkID, n, w)
    ensures v <= w
  {
    var k :| Times(k, v, w);
    if k <= 0 {
      MulSign(k, v);
    } else {
      MulMonotone(1, k, v);
    }
  }

  /** The instances of a scheduled message tile one hyperperiod: their number is an exact quotient, and
      every moment of the hyperperiod lies in the period of exactly one of them. */
  lemma InstancesTile(msgs: seq<Msg>, linkID: nat, i: nat, v: int, offset: int, x: int)
    requires Table(msgs) && i < |msgs| && IsCycle(msgs, linkID, |msgs|, v) && Scheduled(msgs[i], linkID)
    requires offset <= x < offset + v
    ensures msgs[i] in msgs && (v / msgs[i].period) * msgs[i].period == v
    ensures exists k :: InInstance(k, v / msgs[i].period, msgs[i].period, offset, x)
    ensures forall j, k ::
      InInstance(j, v / msgs[i].period, msgs[i].period, offset, x) ==>
      InInstance(k, v / msgs[i].period, msgs[i].period, offset, x) ==> j == k
  {
    assert msgs[i] in msgs;
    var p := msgs[i].period;
    var q :| Times(q, p, v);
    DivUnique(v, p, q, 0);
    var k := TileOf(p, q, offset, x);
    forall j, h | InInstance(j, q, p, offset, x) && InInstance(h, q, p, offset, x)
      ensures j == h
    {
      QuotientUnique(p, j, x - offset - j * p, h, x - offset - h * p);
    }
  }

  /** The period of q successive ones that x lies in. */
  lemma TileOf(p: int, q: int, offset: int, x: int) returns (k: int)
    requires p > 0 && offset <= x < offset + q * p
    ensures InInstance(k, q, p, offset, x)
  {
    k := (x - offset) / p;
    DivMod(x - offset, p);
    BelowProduct(k, p, q);
    BelowProduct(-1, p, k);
  }

  /** The instance table has room for one hyperperiod on every hop. */
  predicate Fits(cycle: seq<int>, m: Msg)
    requires |cycle| == MAX_LINK
  {
    WellFormed(m) && forall l :: 0 <= l < |m.link| && m.link[l] < MAX_LINK ==>
      0 <= cycle[m.link[l]] / m.period <= MAX_INST
  }

  /** After the first n hops: the release times of those hops, and the count of the last of them. */
  predicate InstancesUpTo(cycle: seq<int>, before: Msg, m: Msg, n: nat)
    requires |cycle| == MAX_LINK && Fits(cycle, before) && WellFormed(m) && n <= |before.link|
  {
    && m == before.(instances := m.instances, instNumber := m.instNumber)
    && (n == 0 ==> m.instNumber == before.instNumber)
    && (n > 0 ==> before.link[n - 1] in before.link && m.instNumber == cycle[before.link[n - 1]] / before.period)
    && (forall l :: n <= l < MAX_LINK ==> m.instances[l] == before.instances[l])
    && (forall l, k :: 0 <= l < n && 0 <= k < MAX_INST ==>
      before.link[l] in before.link && m.instances[l] in m.instances && before.instances[l] in before.instances &&
      m.instances[l][k] == if k < cycle[before.link[l]] / before.period then k * before.period + before.offset[l]
        else before.instances[l][k])
  }

  predicate InstancesFound(cycle: seq<int>, before: Msg, m: Msg)
    requires |cycle| == MAX_LINK && (before.priority.ST? ==> Fits(cycle, before))
  {
    if before.priority.ST? then WellFormed(m) && InstancesUpTo(cycle, before, m, |before.link|) else m == before
  }

  /** Instance k of n, released at k * period + offset, is the latest one at time x. */
  predicate InInstance(k: int, n: int, period: int, offset: int, x: int) {
    0 <= k < n && k * period + offset <= x < k * period + offset + period
  }

  // ---------- what the tables hold ----------

  /** The jitter entries along the route never fall, and the last one with the sender's jitter is the
      output jitter. */
  ghost predicate JitterTable(m: Msg, out: Outcome)
    requires WellFormed(m) && Sized(out)
  {
    && (forall k, l :: 0 <= k <= l < |m.link| && m.link[k] in m.link && m.link[l] in m.link ==>
      0 <= out.jitterLink[m.link[k]] <= out.jitterLink[m.link[l]])
    && (m.link != [] ==>
      var last := m.link[|m.link| - 1];
      last in m.link && out.jitterLink[last] + m.jitterIn == out.jitterOut)
  }

  ghost predicate JitterFound(m: Msg, before: Outcome, out: Outcome)
    requires WellFormed(m) && Sized(before)
  {
    if m.priority.ClassA? then
      && Sized(out) && out == before.(jitterLink := out.jitterLink)
      && forall x :: 0 <= x < MAX_LINK ==>
        out.jitterLink[x] == before.jitterLink[x] + JitterAdded(m, before, x, |m.link|)
    else out == before
  }

  /** Nothing has been computed yet. */
  predicate Zeroed(out: Outcome) {
    Sized(out) && out.responseTime == 0 && forall x :: 0 <= x < MAX_LINK ==> out.jitterLink[x] == 0
  }

  lemma JitterTableHolds(
    msgs: seq<Msg>, tau: int, mtuTime: int, alpha: seq<real>, m: nat, before: Outcome, mid: Outcome, out: Outcome)
    requires Table(msgs) && m < |msgs| && Slopes(alpha) && Zeroed(before) && Sized(mid)
    requires IsClassAOutcome(msgs, tau, mtuTime, alpha, m, before, mid)
    requires msgs[m] in msgs && msgs[m].priority.ClassA? && Distinct(msgs[m].link) && JitterFound(msgs[m], mid, out)
    ensures JitterTable(msgs[m], out)
  {
    JitterAlongRoute(msgs, tau, mtuTime, alpha, m, before, mid);
  }

  /** On every hop of the message, each moment of the hyperperiod lies in the period of exactly one of
      the release times in the instance table. */
  ghost predicate InstanceTable(m: Msg, cycle: seq<int>)
    requires WellFormed(m) && |cycle| == MAX_LINK
  {
    forall l :: 0 <= l < |m.link| && m.link[l] in m.link && m.instances[l] in m.instances ==>
      HopTiled(m.instances[l], cycle[m.link[l]], m.period, m.offset[l])
  }

  ghost predicate HopTiled(releases: seq<int>, v: int, period: int, offset: int)
    requires |releases| == MAX_INST && period > 0
  {
    && (v / period) * period == v
    && forall x :: offset <= x < offset + v ==> OneLatest(releases, v / period, period, x)
  }

  ghost predicate OneLatest(releases: seq<int>, n: int, period: int, x: int)
    requires |releases| == MAX_INST
  {
    && (exists k :: Latest(releases, n, period, k, x))
    && forall j, k :: Latest(releases, n, period, j, x) && Latest(releases, n, period, k, x) ==> j == k
  }

  /** Entry k of the first n is the latest release at time x. */
  predicate Latest(releases: seq<int>, n: int, period: int, k: int, x: int)
    requires |releases| == MAX_INST
  {
    0 <= k < n && k < MAX_INST && releases[k] <= x < releases[k] + period
  }

  lemma HopTiles(msgs: seq<Msg>, linkID: nat, i: nat, v: int, offset: int, releases: seq<int>)
    requires Table(msgs) && i < |msgs| && IsCycle(msgs, linkID, |msgs|, v) && Scheduled(msgs[i], linkID)
    requires |releases| == MAX_INST && msgs[i] in msgs && v / msgs[i].period <= MAX_INST
    requires forall k :: 0 <= k < v / msgs[i].period ==> releases[k] == k * msgs[i].period + offset
    ensures HopTiled(releases, v, msgs[i].period, offset)
  {
    var p := msgs[i].period;
    var q :| Times(q, p, v);
    DivUnique(v, p, q, 0);
    forall x | offset <= x < offset + v
      ensures OneLatest(releases, v / p, p, x)
    {
      InstancesTile(msgs, linkID, i, v, offset, x);
      var k :| InInstance(k, v / p, p, offset, x);
      assert Latest(releases, v / p, p, k, x);
      forall j, h | Latest(releases, v / p, p, j, x) && Latest(releases, v / p, p, h, x)
        ensures j == h
      {
        assert InInstance(j, v / p, p, offset, x) && InInstance(h, v / p, p, offset, x);
      }
    }
  }

  lemma InstanceTableHolds(msgs: seq<Msg>, cycle: seq<int>, i: nat, m: Msg)
    requires Table(msgs) && i < |msgs| && msgs[i].priority.ST? && |cycle| == MAX_LINK && Fits(cycle, msgs[i])
    requires forall l :: 0 <= l < MAX_LINK ==> IsCycle(msgs, l, |msgs|, cycle[l])
    requires InstancesFound(cycle, msgs[i], m)
    ensures WellFormed(m) && InstanceTable(m, cycle)
  {
    var before := msgs[i];
    assert before in msgs;
    forall l | 0 <= l < |m.link| && m.link[l] in m.link && m.instances[l] in m.instances
      ensures HopTiled(m.instances[l], cycle[m.link[l]], m.period, m.offset[l])
    {
      HopTiles(msgs, m.link[l], i, cycle[m.link[l]], m.offset[l], m.instances[l]);
    }
  }

  /** The instance tables have room for the hyperperiods of their links. */
  predicate AllFit(msgs: seq<Msg>, cycle: seq<int>) {
    |cycle| == MAX_LINK && forall i :: 0 <= i < |msgs| && msgs[i].priority.ST? ==> Fits(cycle, msgs[i])
  }

  ghost predicate Cycles(msgs: seq<Msg>, cycle: seq<int>) {
    |cycle| == MAX_LINK && forall l :: 0 <= l < MAX_LINK ==> IsCycle(msgs, l, |msgs|, cycle[l])
  }

  ghost predicate AllFound(cycle: seq<int>, before: seq<Msg>, msgs: seq<Msg>)
    requires AllFit(before, cycle)
  {
    |msgs| == |before| && forall i :: 0 <= i < |msgs| ==> InstancesFound(cycle, before[i], msgs[i])
  }

  ghost predicate AllTiled(cycle: seq<int>, before: seq<Msg>, msgs: seq<Msg>)
    requires |cycle| == MAX_LINK && |before| == |msgs|
  {
    forall i :: 0 <= i < |msgs| ==>
      if before[i].priority.ST? then WellFormed(msgs[i]) && InstanceTable(msgs[i], cycle) else msgs[i] == before[i]
  }

  lemma InstanceTablesHold(cycle: seq<int>, before: seq<Msg>, msgs: seq<Msg>)
    requires Table(before) && AllFit(before, cycle) && Cycles(before, cycle) && AllFound(cycle, before, msgs)
    ensures AllTiled(cycle, before, msgs)
  {
    forall i | 0 <= i < |msgs| && before[i].priority.ST?
      ensures WellFormed(msgs[i]) && InstanceTable(msgs[i], cycle)
    {
      InstanceTableHolds(before, cycle, i, msgs[i]);
    }
  }
}
