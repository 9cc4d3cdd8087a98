/** What the analysis adds up, in absolute time and apart from its formulas: releases that fall into a window
    of time, the messages that compete for a link, and the way of a message along its route. */
module Interference {
  import opened Arithmetic
  import opened AnalysisMath
  import opened Traffic

  // ---------- releases in a window ----------

  /** Release k of a message with this offset and period lies in the t units of time from x on. */
  predicate Falls(offset: int, period: int, x: int, t: int, k: int) {
    x <= offset + k * period < x + t
  }

  function Magnitude(x: int): nat {
    if x < 0 then -x else x
  }

  /** All releases in the window. */
  function Window(offset: int, period: int, x: int, t: int): (w: set<int>) {
    var b := Magnitude(offset) + Magnitude(x) + Magnitude(t);
    set k: int | -b <= k <= b && Falls(offset, period, x, t, k)
  }

  lemma WindowIsAll(offset: int, period: int, x: int, t: int)
    requires period > 0
    ensures forall k: int :: k in Window(offset, period, x, t) <==> Falls(offset, period, x, t, k)
  {
    var b := Magnitude(offset) + Magnitude(x) + Magnitude(t);
    forall k: int | Falls(offset, period, x, t, k)
      ensures -b <= k <= b
    {
      FarReleases(k, period, b);
    }
  }

  lemma FarReleases(k: int, period: int, b: int)
    requires period > 0 && b >= 0
    ensures k > b ==> k * period > b
    ensures k < -b ==> k * period < -b
  {
    if k > b {
      MulNonNegative(k, period - 1);
      MulSum(period - 1, 1, k);
    } else if k < -b {
      MulNonNegative(-k, period - 1);
      MulSum(period - 1, 1, k);
      NegatedProduct(k, period - 1);
    }
  }

  lemma NegatedProduct(a: int, b: int)
    ensures (-a) * b == -(a * b)
  {
  }

  /** n numbers from a on. */
  function Numbers(a: int, n: nat): (r: set<int>)
    ensures |r| == n && forall k :: k in r <==> a <= k < a + n
  {
    if n == 0 then {} else Numbers(a, n - 1) + {a + n - 1}
  }

  /** Release j after the phase comes before t exactly if it is among the first of them. */
  lemma {:induction false} BeforeTime(phase: int, period: int, t: int, j: nat)
    requires period > 0
    ensures phase + j * period < t <==> j < Releases(phase, period, t)
    decreases j
  {
    if j > 0 {
      BeforeTime(phase + period, period, t, j - 1);
      MulSum(j - 1, 1, period);
      if phase >= t {
        MulNonNegative(j, period);
      }
    }
  }

  /** Release k is number k + d / period after the phase of the difference d = offset - x. */
  lemma FallsAt(offset: int, period: int, x: int, t: int, k: int)
    requires period > 0 && t >= 0
    ensures var d := offset - x;
      Falls(offset, period, x, t, k) <==> 0 <= k + d / period < Releases(d % period, period, t)
  {
    var d := offset - x;
    var q, phi := d / period, d % period;
    var j := k + q;
    DivMod(d, period);
    MulSum(k, q, period);
    assert offset + k * period - x == phi + j * period;
    if j >= 0 {
      MulNonNegative(j, period);
      BeforeTime(phi, period, t, j);
    } else {
      MulGap(j, 0, period);
    }
  }

  /** The factor of the source is the number of releases in the window. */
  lemma FactorIsWindow(offset: int, period: int, x: int, t: int)
    requires period > 0 && t >= 0
    ensures Factor(offset - x, period, t) == |Window(offset, period, x, t)|
  {
    var d := offset - x;
    var first, n := -(d / period), Releases(d % period, period, t);
    FactorCounts(d, period, t);
    WindowIsAll(offset, period, x, t);
    forall k: int
      ensures k in Window(offset, period, x, t) <==> k in Numbers(first, n)
    {
      FallsAt(offset, period, x, t, k);
    }
    assert Window(offset, period, x, t) == Numbers(first, n);
  }

  // ---------- the sums ----------

  /** What the first n messages send on the link from the critical instant on: every scheduled message
      as often as it is released in the window of length t that starts at the instant. */
  function Sent(msgs: seq<Msg>, linkID: nat, c: nat, it: nat, n: nat, t: int): int
    requires Candidate(msgs, c, it) && n <= |msgs|
  {
    if n == 0 then 0 else
      var m := msgs[n - 1];
      assert m in msgs && msgs[c] in msgs;
      Sent(msgs, linkID, c, it, n - 1, t) +
      if m.priority.ST? && linkID in m.link then
        var lin := FirstHop(m.link, linkID);
        assert msgs[c].instances[lin] in msgs[c].instances;
        |Window(m.offset[lin], m.period, msgs[c].instances[lin][it], t)| * m.transTime
      else 0
  }

  /** How often they preempt. */
  function Preemptions(msgs: seq<Msg>, linkID: nat, c: nat, it: nat, n: nat, t: int): int
    requires Candidate(msgs, c, it) && n <= |msgs|
  {
    if n == 0 then 0 else
      var m := msgs[n - 1];
      assert m in msgs && msgs[c] in msgs;
      Preemptions(msgs, linkID, c, it, n - 1, t) +
      if m.priority.ST? && linkID in m.link then
        var lin := LastHop(m.link, linkID);
        assert msgs[c].instances[lin] in msgs[c].instances;
        |Window(m.offset[lin], m.period, msgs[c].instances[lin][it], t)|
      else 0
  }

  lemma {:induction false} STSumIsSent(msgs: seq<Msg>, linkID: nat, c: nat, it: nat, n: nat, t: int)
    requires Candidate(msgs, c, it) && n <= |msgs| && t >= 0
    ensures STSum(msgs, linkID, c, it, n, t) == Sent(msgs, linkID, c, it, n, t)
  {
    if n > 0 {
      var m := msgs[n - 1];
      assert m in msgs && msgs[c] in msgs;
      STSumIsSent(msgs, linkID, c, it, n - 1, t);
      if Scheduled(m, linkID) {
        var lin := FirstHop(m.link, linkID);
        assert msgs[c].instances[lin] in msgs[c].instances;
        FactorIsWindow(m.offset[lin], m.period, msgs[c].instances[lin][it], t);
      }
    }
  }

  /** Every preemption costs one frame overhead of 42 bytes. */
  lemma {:induction false} PreemptSumIsCost(msgs: seq<Msg>, tau: int, linkID: nat, c: nat, it: nat, n: nat, t: int)
    requires Candidate(msgs, c, it) && n <= |msgs| && t >= 0
    ensures PreemptSum(msgs, tau, linkID, c, it, n, t) == Preemptions(msgs, linkID, c, it, n, t) * (42 * 8 * tau)
  {
    if n > 0 {
      var m := msgs[n - 1];
      assert m in msgs && msgs[c] in msgs;
      PreemptSumIsCost(msgs, tau, linkID, c, it, n - 1, t);
      if Scheduled(m, linkID) {
        var lin := LastHop(m.link, linkID);
        assert msgs[c].instances[lin] in msgs[c].instances;
        FactorIsWindow(m.offset[lin], m.period, msgs[c].instances[lin][it], t);
        var g := |Window(m.offset[lin], m.period, msgs[c].instances[lin][it], t)|;
        PreemptShape(g, tau);
        MulSum(Preemptions(msgs, linkID, c, it, n - 1, t), g, 42 * 8 * tau);
      }
    }
  }

  /** So the time the iteration ends with is what the link is busy with from the critical instant on, itself
      included. */
  lemma FixedPointInTime(msgs: seq<Msg>, tau: int, linkID: nat, c: nat, it: nat, base: int, t: int)
    requires Candidate(msgs, c, it) && t >= 0
    ensures IsFixedPoint(msgs, tau, linkID, c, it, base, t) <==>
      t == base + Sent(msgs, linkID, c, it, |msgs|, t) + Preemptions(msgs, linkID, c, it, |msgs|, t) * (42 * 8 * tau)
  {
    STSumIsSent(msgs, linkID, c, it, |msgs|, t);
    PreemptSumIsCost(msgs, tau, linkID, c, it, |msgs|, t);
  }

  lemma {:induction false} SentGrows(msgs: seq<Msg>, linkID: nat, c: nat, it: nat, m: nat, n: nat, t: int)
    requires Candidate(msgs, c, it) && m <= n <= |msgs|
    ensures 0 <= Sent(msgs, linkID, c, it, m, t) <= Sent(msgs, linkID, c, it, n, t)
  {
    if n > 0 {
      assert msgs[n - 1] in msgs && msgs[c] in msgs;
      SentGrows(msgs, linkID, c, it, if m == n then n - 1 else m, n - 1, t);
      if msgs[n - 1].priority.ST? && linkID in msgs[n - 1].link {
        var lin := FirstHop(msgs[n - 1].link, linkID);
        assert msgs[c].instances[lin] in msgs[c].instances;
        MulNonNegative(
          |Window(msgs[n - 1].offset[lin], msgs[n - 1].period, msgs[c].instances[lin][it], t)|, msgs[n - 1].transTime);
      }
    }
  }

  /** A critical message whose instance is one of its own releases is itself part of the interference, for
      every time above zero. */
  lemma CriticalIsSent(msgs: seq<Msg>, linkID: nat, c: nat, it: nat, k: int, t: int)
    requires Critical(msgs, linkID, c, it) && msgs[c] in msgs && t > 0
    requires var lin := FirstHop(msgs[c].link, linkID);
      msgs[c].instances[lin] in msgs[c].instances
      && msgs[c].instances[lin][it] == msgs[c].offset[lin] + k * msgs[c].period
    ensures STSum(msgs, linkID, c, it, |msgs|, t) >= msgs[c].transTime
  {
    var m := msgs[c];
    var lin := FirstHop(m.link, linkID);
    var w := Window(m.offset[lin], m.period, m.instances[lin][it], t);
    WindowIsAll(m.offset[lin], m.period, m.instances[lin][it], t);
    assert k in w;
    NotEmpty(w, k);
    MulNonNegative(|w| - 1, m.transTime);
    MulSum(|w| - 1, 1, m.transTime);
    SentGrows(msgs, linkID, c, it, 0, c, t);
    SentGrows(msgs, linkID, c, it, c + 1, |msgs|, t);
    STSumIsSent(msgs, linkID, c, it, |msgs|, t);
  }

  lemma NotEmpty(w: set<int>, k: int)
    requires k in w
    ensures |w| >= 1
  {
  }

  // ---------- the other interference ----------

  /** The transmission times of the other Class A messages on the link, among the first n. */
  function Competing(msgs: seq<Msg>, m: nat, linkID: nat, n: nat): int
    requires n <= |msgs|
  {
    if n == 0 then 0 else
      Competing(msgs, m, linkID, n - 1) +
      if n - 1 != m && msgs[n - 1].priority == ClassA && linkID in msgs[n - 1].link then msgs[n - 1].transTime else 0
  }

  /** The same-priority interference is that time, stretched by the idle slope; each message may lose less
      than one unit to rounding down. */
  lemma {:induction false} SamePriorityIsCompeting(msgs: seq<Msg>, alpha: real, m: nat, linkID: nat, n: nat)
    requires alpha > 0.0 && Table(msgs) && n <= |msgs|
    ensures var s := SamePriority(msgs, alpha, m, linkID, n) as real;
      s <= Competing(msgs, m, linkID, n) as real / alpha <= s + n as real
  {
    if n > 0 {
      assert msgs[n - 1] in msgs;
      SamePriorityIsCompeting(msgs, alpha, m, linkID, n - 1);
      AddQuotients(Competing(msgs, m, linkID, n - 1) as real, msgs[n - 1].transTime as real, alpha);
    }
  }

  lemma AddQuotients(a: real, b: real, alpha: real)
    requires alpha > 0.0
    ensures (a + b) / alpha == a / alpha + b / alpha
  {
  }

  /** A Class A message is blocked by Class B and NRT messages on the link, by the longest of them, one full
      frame for a fragmented one; by nothing if there is none. */
  lemma ClassABlocking(msgs: seq<Msg>, mtuTime: int, linkID: nat, b: int)
    requires mtuTime >= 0 && Table(msgs)
    ensures IsBlocking(msgs, mtuTime, Rank(ClassA), linkID, |msgs|, b) <==>
      && b >= 0
      && (forall i :: 0 <= i < |msgs| && Blocks(msgs[i], linkID) ==> Longest(msgs[i], mtuTime) <= b)
      && (b == 0 || exists i :: 0 <= i < |msgs| && Blocks(msgs[i], linkID) && Longest(msgs[i], mtuTime) == b)
  {
    forall i | 0 <= i < |msgs|
      ensures BlockingBy(msgs, mtuTime, Rank(ClassA), linkID, i) ==
        if Blocks(msgs[i], linkID) then Longest(msgs[i], mtuTime) else 0
    {
    }
  }

  predicate Blocks(m: Msg, linkID: nat) {
    (m.priority == ClassB || m.priority == NRT) && linkID in m.link
  }

  function Longest(m: Msg, mtuTime: int): int {
    if m.fragmented then mtuTime else m.transTime
  }

  // ---------- along the route ----------

  /** When the message has left hop l: after the sender's jitter it waits for its response time on every
      link, and ten microseconds in every switch between two links. */
  function Left(m: Msg, out: Outcome, l: nat): int
    requires WellFormed(m) && Sized(out) && l < |m.link|
  {
    assert m.link[l] in m.link;
    out.resTime[m.link[l]] + if l == 0 then m.jitterIn else Left(m, out, l - 1) + 10_000_000
  }

  lemma {:induction false} LeftIsSum(m: Msg, out: Outcome, l: nat)
    requires WellFormed(m) && Sized(out) && l < |m.link|
    ensures Left(m, out, l) == m.jitterIn + SumRes(m, out, l + 1) + l * 10_000_000
  {
    assert m.link[l] in m.link;
    if l > 0 {
      LeftIsSum(m, out, l - 1);
    } else {
      assert SumRes(m, out, 0) == 0;
    }
  }

  /** The response time of a message, from cleared results, is the time at which it has left its last link;
      its output jitter is what that exceeds the bare transmissions and switches by. */
  lemma ResponseIsArrival(
    msgs: seq<Msg>, tau: int, mtuTime: int, alpha: seq<real>, m: nat, before: Outcome, out: Outcome)
    requires Table(msgs) && m < |msgs| && Slopes(alpha) && Zeroed(before) && Sized(out)
    requires IsClassAOutcome(msgs, tau, mtuTime, alpha, m, before, out) && msgs[m].link != [] && msgs[m] in msgs
    ensures var n := |msgs[m].link|;
      && out.responseTime == Left(msgs[m], out, n - 1)
      && out.responseTime == out.jitterOut + n * msgs[m].transTime + (n - 1) * 10_000_000
  {
    LeftIsSum(msgs[m], out, |msgs[m].link| - 1);
  }
}
