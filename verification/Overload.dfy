/** ST traffic that takes a whole link or more: when the iteration for a Class A message cannot end, and
    how to find out whether it does. */
module Overload {
  import opened Arithmetic
  import opened AnalysisMath
  import opened Traffic

  /** A factor is more than the number of whole periods that fit into the time, less one. */
  lemma FactorAbove(d: int, period: int, t: int)
    requires period > 0 && t >= 0
    ensures Factor(d, period, t) * period > t - period
  {
    FactorCounts(d, period, t);
    EuclideanPhase(d, period);
    ReleasesAbove(d % period, period, t);
  }

  lemma {:induction false} ReleasesAbove(phase: int, period: int, t: int)
    requires period > 0
    ensures Releases(phase, period, t) * period >= t - phase
    decreases t - phase
  {
    if phase < t {
      ReleasesAbove(phase + period, period, t);
      MulSum(1, Releases(phase + period, period, t), period);
    }
  }

  lemma WeightedAbove(f: int, p: int, t: int, w: int)
    requires f * p > t - p && w >= 0
    ensures (f * w) * p >= w * (t - p) && (w > 0 ==> (f * w) * p > w * (t - p))
  {
    MulAssoc(w, f, p);
    MulSum(f * p - (t - p), t - p, w);
    MulNonNegative(f * p - (t - p) - 1, w);
    MulSum(f * p - (t - p) - 1, 1, w);
  }

  lemma TermAbove(msgs: seq<Msg>, tau: int, linkID: nat, c: nat, it: nat, m: Msg, t: int)
    requires Candidate(msgs, c, it) && m in msgs && tau >= 0 && t >= 0 && Scheduled(m, linkID)
    ensures (STTerm(msgs, linkID, c, it, m, t) + PreemptTerm(msgs, tau, linkID, c, it, m, t)) as real
          > Part(m, tau, linkID, t) - Cost(m, tau) as real
  {
    var d, e := OffsetDiff(msgs, c, it, m, FirstHop(m.link, linkID)),
      OffsetDiff(msgs, c, it, m, LastHop(m.link, linkID));
    var w := FRAME_MAC * 8 * tau;
    FactorAbove(d, m.period, t);
    FactorAbove(e, m.period, t);
    WeightedAbove(Factor(d, m.period, t), m.period, t, m.transTime);
    WeightedAbove(Factor(e, m.period, t), m.period, t, w);
    PreemptShape(Factor(e, m.period, t), tau);
    ShareBelow(Factor(d, m.period, t) * m.transTime, Factor(e, m.period, t) * w, m.period, m.transTime, w, t);
  }

  lemma ShareBelow(x: int, y: int, p: int, v: int, w: int, t: nat)
    requires p > 0 && x * p > v * (t - p) && y * p >= w * (t - p)
    ensures (x + y) as real > Scaled((v + w) as real / p as real, t) - (v + w) as real
  {
    ScaledIsProduct((v + w) as real / p as real, t);
    MulSum(x, y, p);
    MulSum(v, w, t - p);
    QuotientAbove(x + y, p, v + w, t);
  }

  lemma QuotientAbove(x: int, p: int, w: int, t: int)
    requires p > 0 && x * p > w * (t - p)
    ensures x as real > (w as real / p as real) * t as real - w as real
  {
    var q := w as real / p as real;
    assert q * p as real == w as real;
    assert x as real * p as real > w as real * (t as real - p as real) by {
      assert (x * p) as real == x as real * p as real;
      assert (w * (t - p)) as real == w as real * (t as real - p as real);
    }
    RealAbove(x as real, q, p as real, t as real);
  }

  lemma RealAbove(x: real, q: real, p: real, t: real)
    requires p > 0.0 && x * p > (q * p) * (t - p)
    ensures x > q * t - q * p
  {
    assert (q * p) * (t - p) == (q * t - q * p) * p;
    if x < q * t - q * p {
      RealMul(q * t - q * p, x, p);
    }
  }

  /** The demand grows at least like the load. */
  lemma {:induction false} SumsAbove(msgs: seq<Msg>, tau: int, linkID: nat, c: nat, it: nat, n: nat, t: int)
    requires Candidate(msgs, c, it) && tau >= 0 && n <= |msgs| && t >= 0
    ensures var demand := (STSum(msgs, linkID, c, it, n, t) + PreemptSum(msgs, tau, linkID, c, it, n, t)) as real;
      var line := Parts(msgs, tau, linkID, n, t) - TotalCost(msgs, tau, linkID, n) as real;
      demand >= line && (!Unused(msgs, linkID, n) ==> demand > line)
  {
    if n > 0 {
      var m := msgs[n - 1];
      assert m in msgs;
      SumsAbove(msgs, tau, linkID, c, it, n - 1, t);
      if Scheduled(m, linkID) {
        TermAbove(msgs, tau, linkID, c, it, m, t);
      } else {
        ScaledIsProduct(0.0, t);
      }
    }
  }

  /** Scheduled traffic takes all of the link, and the rest of the interference is no less than one
      release of every scheduled message. */
  predicate Overloaded(msgs: seq<Msg>, tau: int, linkID: nat, base: int)
    requires Table(msgs)
  {
    && Load(msgs, tau, linkID, |msgs|) >= 1.0 && !Unused(msgs, linkID, |msgs|)
    && base >= TotalCost(msgs, tau, linkID, |msgs|)
  }

  lemma OverloadHasNoFixedPoint(msgs: seq<Msg>, tau: int, linkID: nat, c: nat, it: nat, base: int, t: int)
    requires Candidate(msgs, c, it) && tau >= 0 && t >= 0 && Overloaded(msgs, tau, linkID, base)
    ensures base + Demand(msgs, tau, linkID, c, it, t) > t
  {
    var load := Load(msgs, tau, linkID, |msgs|);
    SumsAbove(msgs, tau, linkID, c, it, |msgs|, t);
    PartsIsLoad(msgs, tau, linkID, |msgs|, t);
    ScaledIsProduct(load, t);
    RealAtLeast(load, t as real);
  }

  lemma RealAtLeast(a: real, t: real)
    requires a >= 1.0 && t >= 0.0
    ensures a * t >= t
  {
  }

  /** In an overload the iteration never ends: it climbs without bound. */
  lemma {:induction false} OverloadDiverges(
    msgs: seq<Msg>, tau: int, linkID: nat, c: nat, it: nat, base: int, start: int, n: nat)
    requires Candidate(msgs, c, it) && tau >= 0 && start >= 0 && Overloaded(msgs, tau, linkID, base)
    ensures Iterate(msgs, tau, linkID, c, it, base, start, n) >= start + n
    ensures Iterate(msgs, tau, linkID, c, it, base, start, n + 1) > Iterate(msgs, tau, linkID, c, it, base, start, n)
  {
    if n > 0 {
      OverloadDiverges(msgs, tau, linkID, c, it, base, start, n - 1);
    }
    OverloadHasNoFixedPoint(msgs, tau, linkID, c, it, base, Iterate(msgs, tau, linkID, c, it, base, start, n));
  }

  /** One scheduled message of 58 bytes on a link with 10000 ps per bit: it is sent every 10 us and needs
      more than that with its preemption overhead. */
  const BUSY_TAU := 10_000
  const BUSY_TIME := (58 + FRAME_MAC) * 8 * BUSY_TAU

  function BusyLink(): (msgs: seq<Msg>)
    ensures |msgs| == 1 && Table(msgs) && Scheduled(msgs[0], 0)
  {
    var none := seq(MAX_LINK, _ => 0);
    var inst := seq(MAX_LINK, _ => seq(MAX_INST, _ => 0));
    [Msg(ST, 10_000_000, BUSY_TIME, false, 0, [0], none, inst, 1)]
  }

  /** An overload: for another message of the same size, blocked by a third one, no turn is the last. */
  lemma BusyLinkDiverges(n: nat)
    ensures Candidate(BusyLink(), 0, 0) && Load(BusyLink(), BUSY_TAU, 0, 1) > 1.0
    ensures Overloaded(BusyLink(), BUSY_TAU, 0, 2 * BUSY_TIME)
    ensures Iterate(BusyLink(), BUSY_TAU, 0, 0, 0, 2 * BUSY_TIME, BUSY_TIME, n) >= BUSY_TIME + n
  {
    var msgs := BusyLink();
    assert Load(msgs, BUSY_TAU, 0, 0) == 0.0 && Share(msgs[0], BUSY_TAU, 0) == 1.136;
    assert TotalCost(msgs, BUSY_TAU, 0, 0) == 0 && TotalCost(msgs, BUSY_TAU, 0, 1) == Cost(msgs[0], BUSY_TAU);
    OverloadDiverges(msgs, BUSY_TAU, 0, 0, 0, 2 * BUSY_TIME, BUSY_TIME, n);
  }

  // ---------- deciding whether the iteration ends ----------

  /** One period later there is one release more. */
  lemma {:induction false} FactorShift(d: int, period: int, t: int, k: nat)
    requires period > 0
    ensures Factor(d, period, t + k * period) == Factor(d, period, t) + k
  {
    if k > 0 {
      FactorShift(d, period, t, k - 1);
      var u := t + (k - 1) * period;
      MulSum(k - 1, 1, period);
      DivShift(CRem(d, period) - u - period, period);
    }
  }

  /** Over a common period v, a message adds its whole share. */
  lemma TermShift(msgs: seq<Msg>, tau: int, linkID: nat, c: nat, it: nat, m: Msg, t: int, v: nat)
    requires Candidate(msgs, c, it) && m in msgs && Scheduled(m, linkID) && Multiple(v, m.period)
    ensures (STTerm(msgs, linkID, c, it, m, t + v) + PreemptTerm(msgs, tau, linkID, c, it, m, t + v)) as real
         == (STTerm(msgs, linkID, c, it, m, t) + PreemptTerm(msgs, tau, linkID, c, it, m, t)) as real
          + Part(m, tau, linkID, v)
  {
    var k :| Times(k, m.period, v);
    if k < 0 {
      MulSign(k, m.period);
      MulGap(k, 0, m.period);
    }
    var d := OffsetDiff(msgs, c, it, m, FirstHop(m.link, linkID));
    var e := OffsetDiff(msgs, c, it, m, LastHop(m.link, linkID));
    var w := FRAME_MAC * 8 * tau;
    var f, g := Factor(d, m.period, t), Factor(e, m.period, t);
    FactorShift(d, m.period, t, k);
    FactorShift(e, m.period, t, k);
    PreemptShape(g, tau);
    PreemptShape(g + k, tau);
    MulSum(f, k, m.transTime);
    MulSum(g, k, w);
    ShareShift(m.period, m.transTime, w, k, v);
  }

  lemma ShareShift(p: int, x: int, w: int, k: int, v: nat)
    requires p > 0 && v == k * p
    ensures (k * x + k * w) as real == Scaled((x + w) as real / p as real, v)
  {
    var rate := (x + w) as real / p as real;
    ScaledIsProduct(rate, v);
    assert k * x + k * w == k * (x + w);
    RealShare((x + w) as real, p as real, k as real);
    assert v as real == k as real * p as real;
    assert (k * (x + w)) as real == k as real * (x + w) as real;
  }

  lemma RealShare(w: real, p: real, k: real)
    requires p > 0.0
    ensures (w / p) * (k * p) == k * w
  {
    var q := w / p;
    assert q * p == w;
    assert q * (k * p) == k * (q * p);
  }

  lemma {:induction false} SumsShift(msgs: seq<Msg>, tau: int, linkID: nat, c: nat, it: nat, n: nat, t: int, v: nat)
    requires Candidate(msgs, c, it) && n <= |msgs| && CommonPeriod(msgs, linkID, n, v)
    ensures (STSum(msgs, linkID, c, it, n, t + v) + PreemptSum(msgs, tau, linkID, c, it, n, t + v)) as real
         == (STSum(msgs, linkID, c, it, n, t) + PreemptSum(msgs, tau, linkID, c, it, n, t)) as real
          + Parts(msgs, tau, linkID, n, v)
  {
    if n > 0 {
      var m := msgs[n - 1];
      assert m in msgs;
      SumsShift(msgs, tau, linkID, c, it, n - 1, t, v);
      if Scheduled(m, linkID) {
        TermShift(msgs, tau, linkID, c, it, m, t, v);
      } else {
        ScaledIsProduct(0.0, v);
      }
    }
  }

  /** Over a common period the demand grows by exactly the load. */
  lemma DemandShift(msgs: seq<Msg>, tau: int, linkID: nat, c: nat, it: nat, t: int, v: nat)
    requires Candidate(msgs, c, it) && CommonPeriod(msgs, linkID, |msgs|, v)
    ensures Demand(msgs, tau, linkID, c, it, t + v) as real
         == Demand(msgs, tau, linkID, c, it, t) as real + Scaled(Load(msgs, tau, linkID, |msgs|), v)
  {
    SumsShift(msgs, tau, linkID, c, it, |msgs|, t, v);
    PartsIsLoad(msgs, tau, linkID, |msgs|, v);
  }

  lemma {:induction false} ScaledAtLeast(rate: real, t: nat)
    requires rate >= 1.0
    ensures Scaled(rate, t) >= t as real
  {
    if t > 0 {
      ScaledAtLeast(rate, t - 1);
    }
  }

  /** With a load of 1 or more, a fixed point is preceded by another one within the first common period. */
  lemma {:induction false} EarlyFixedPoint(
    msgs: seq<Msg>, tau: int, linkID: nat, c: nat, it: nat, base: int, v: nat, t: int)
    returns (u: int)
    requires Candidate(msgs, c, it) && tau >= 0 && base >= 0 && v > 0 && CommonPeriod(msgs, linkID, |msgs|, v)
    requires Load(msgs, tau, linkID, |msgs|) >= 1.0 && IsFixedPoint(msgs, tau, linkID, c, it, base, t)
    ensures 0 <= u < v && IsFixedPoint(msgs, tau, linkID, c, it, base, u)
    decreases t
  {
    if t < v {
      u := t;
    } else {
      var b := t - v;
      DemandShift(msgs, tau, linkID, c, it, b, v);
      ScaledAtLeast(Load(msgs, tau, linkID, |msgs|), v);
      SumsMonotone(msgs, tau, linkID, c, it, |msgs|, 0, b);
      var s := ClimbsToFixedPoint(msgs, tau, linkID, c, it, base, b, 0);
      u := EarlyFixedPoint(msgs, tau, linkID, c, it, base, v, s);
    }
  }

  /** The iteration for a critical instant ends if and only if the load is below 1 or there is a fixed
      point within one hyperperiod, which is found by trying. */
  lemma EndsExactly(msgs: seq<Msg>, tau: int, linkID: nat, c: nat, it: nat, base: int, v: nat)
    requires Candidate(msgs, c, it) && tau >= 0 && base >= 0 && v > 0 && CommonPeriod(msgs, linkID, |msgs|, v)
    ensures (exists t :: IsFixedPoint(msgs, tau, linkID, c, it, base, t)) <==>
      (Load(msgs, tau, linkID, |msgs|) < 1.0 ||
        exists t :: 0 <= t < v && IsFixedPoint(msgs, tau, linkID, c, it, base, t))
  {
    SettlesIffFixedPoint(msgs, tau, linkID, c, it, base);
    if Load(msgs, tau, linkID, |msgs|) < 1.0 {
      HorizonSettles(msgs, tau, linkID, c, it, base);
    } else if t :| IsFixedPoint(msgs, tau, linkID, c, it, base, t) {
      var u := EarlyFixedPoint(msgs, tau, linkID, c, it, base, v, t);
    }
  }

  /** So it can be decided whether the response time on a link is computed at all. */
  lemma LinkEndsExactly(msgs: seq<Msg>, tau: int, linkID: nat, base: int, v: nat)
    requires Table(msgs) && tau >= 0 && base >= 0 && v > 0 && CommonPeriod(msgs, linkID, |msgs|, v)
    ensures AllSettle(msgs, tau, linkID, base) <==>
      (Load(msgs, tau, linkID, |msgs|) < 1.0 ||
        forall c: nat, it: nat :: Critical(msgs, linkID, c, it) ==>
          exists t :: 0 <= t < v && IsFixedPoint(msgs, tau, linkID, c, it, base, t))
  {
    forall c: nat, it: nat | Critical(msgs, linkID, c, it)
      ensures (exists bound :: Settles(msgs, tau, linkID, c, it, base, bound)) <==>
        (Load(msgs, tau, linkID, |msgs|) < 1.0 ||
          exists t :: 0 <= t < v && IsFixedPoint(msgs, tau, linkID, c, it, base, t))
    {
      SettlesIffFixedPoint(msgs, tau, linkID, c, it, base);
      EndsExactly(msgs, tau, linkID, c, it, base, v);
    }
  }

  /** With a load above 1, every fixed point comes before the demand outruns the costs. */
  lemma FixedPointsEnd(msgs: seq<Msg>, tau: int, linkID: nat, c: nat, it: nat, base: int, t: int)
    requires Candidate(msgs, c, it) && tau >= 0 && IsFixedPoint(msgs, tau, linkID, c, it, base, t)
    requires Load(msgs, tau, linkID, |msgs|) > 1.0
    ensures t <= LastChance(Load(msgs, tau, linkID, |msgs|), TotalCost(msgs, tau, linkID, |msgs|), base)
  {
    SumsAbove(msgs, tau, linkID, c, it, |msgs|, t);
    PartsIsLoad(msgs, tau, linkID, |msgs|, t);
    var load, total := Load(msgs, tau, linkID, |msgs|), TotalCost(msgs, tau, linkID, |msgs|);
    BeforeTheEnd(load, t, Demand(msgs, tau, linkID, c, it, t), total, base);
  }

  /** What is left of the costs, over what the load exceeds 1 by. */
  function LastChance(load: real, total: int, base: int): int
    requires load > 1.0
  {
    ((total - base) as real / (load - 1.0)).Floor
  }

  lemma BeforeTheEnd(load: real, t: nat, demand: int, total: int, base: int)
    requires load > 1.0 && t == base + demand && demand as real >= Scaled(load, t) - total as real
    ensures t <= LastChance(load, total, base)
  {
    ScaledIsProduct(load, t);
    RealMulSum(load - 1.0, 1.0, t as real);
    AtMostQuotient(t as real, (total - base) as real, load - 1.0);
  }

  lemma AtMostQuotient(a: real, s: real, k: real)
    requires k > 0.0 && k * a <= s
    ensures a <= s / k
  {
    var b := s / k;
    assert b * k == s;
    if a > b {
      RealMul(a, b, k);
    }
  }
}
