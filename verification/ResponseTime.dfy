/** The response-time analysis of Class A traffic: the loops over the message table. */
module ResponseTime {
  import opened AnalysisMath
  import opened Traffic
  import opened Interference

  class Analysis {
    var msgs: seq<Msg>
    var outcomes: seq<Outcome>
    var cycle: seq<int>
    const tau: int            // picoseconds per bit
    const mtuTime: int        // transmission time of a full frame
    const alphaA: seq<real>   // idle slope of Class A per link

    ghost predicate Valid()
      reads this
    {
      && Table(msgs) && tau >= 0 && mtuTime >= 0
      && Slopes(alphaA) && |cycle| == MAX_LINK
      && |outcomes| == |msgs| && (forall i :: 0 <= i < |outcomes| ==> Sized(outcomes[i]))
    }

    /** A message table with nothing computed yet. */
    constructor (msgs: seq<Msg>, tau: int, mtuTime: int, alphaA: seq<real>)
      requires Table(msgs) && tau >= 0 && mtuTime >= 0 && Slopes(alphaA)
      ensures Valid() && this.msgs == msgs && this.tau == tau && this.mtuTime == mtuTime && this.alphaA == alphaA
      ensures forall i :: 0 <= i < |outcomes| ==> Zeroed(outcomes[i])
    {
      this.msgs, this.tau, this.mtuTime, this.alphaA := msgs, tau, mtuTime, alphaA;
      var none := seq(MAX_LINK, _ => 0);
      outcomes := seq(|msgs|, _ => Outcome(none, none, 0, 0));
      cycle := none;
    }

    /** 1 if message i crosses link l, else -1. */
    method CheckSharedLink(l: nat, i: nat) returns (r: int)
      requires i < |msgs|
      ensures r == if l in msgs[i].link then 1 else -1
    {
      for x := 0 to |msgs[i].link|
        invariant l !in msgs[i].link[..x]
      {
        if msgs[i].link[x] == l {
          return 1;
        }
      }
      assert msgs[i].link[..|msgs[i].link|] == msgs[i].link;
      return -1;
    }

    method FindSTInterference(linkID: nat, t: int, c: nat, it: nat) returns (interf: int)
      requires Valid() && Candidate(msgs, c, it)
      ensures interf == STSum(msgs, linkID, c, it, |msgs|, t)
      ensures t >= 0 ==> interf == Sent(msgs, linkID, c, it, |msgs|, t)
    {
      interf := 0;
      for i := 0 to |msgs|
        invariant interf == STSum(msgs, linkID, c, it, i, t)
      {
        var shared := CheckSharedLink(linkID, i);
        if msgs[i].priority.ST? && shared >= 0 {
          var lin := FindFirstHop(msgs[i].link, linkID);
          assert msgs[c] in msgs && msgs[i] in msgs;
          assert msgs[c].instances[lin] in msgs[c].instances;
          var phase := CRem(msgs[i].offset[lin] - msgs[c].instances[lin][it], msgs[i].period);
          interf := interf + (FloorDiv(phase, msgs[i].period) + CeilDiv(t - phase, msgs[i].period)) * msgs[i].transTime;
        }
      }
      if t >= 0 {
        STSumIsSent(msgs, linkID, c, it, |msgs|, t);
      }
    }

    method FindPreemption(linkID: nat, t: int, c: nat, it: nat) returns (preempt: int)
      requires Valid() && Candidate(msgs, c, it)
      ensures preempt == PreemptSum(msgs, tau, linkID, c, it, |msgs|, t)
      ensures t >= 0 ==> preempt == Preemptions(msgs, linkID, c, it, |msgs|, t) * (42 * 8 * tau)
    {
      preempt := 0;
      for i := 0 to |msgs|
        invariant preempt == PreemptSum(msgs, tau, linkID, c, it, i, t)
      {
        var shared := CheckSharedLink(linkID, i);
        if msgs[i].priority.ST? && shared >= 0 {
          var lin := FindLastHop(msgs[i].link, linkID);
          assert msgs[c] in msgs && msgs[i] in msgs;
          assert msgs[c].instances[lin] in msgs[c].instances;
          var phase := CRem(msgs[i].offset[lin] - msgs[c].instances[lin][it], msgs[i].period);
          preempt := preempt + (FloorDiv(phase, msgs[i].period)
            + CeilDiv(t - phase, msgs[i].period)) * FRAME_MAC * 8 * tau;
        }
      }
      if t >= 0 {
        PreemptSumIsCost(msgs, tau, linkID, c, it, |msgs|, t);
      }
    }

    /** The hop search of findSTInterference stops at the first match ... */
    static method FindFirstHop(link: seq<nat>, linkID: nat) returns (lin: nat)
      requires linkID in link
      ensures lin == FirstHop(link, linkID)
    {
      lin := 0;
      for l := 0 to |link|
        invariant linkID !in link[..l]
      {
        if linkID == link[l] {
          HopUnique(link, linkID, l);
          lin := l;
          break;
        }
      }
    }

    /** ... that of findPreemption goes on to the last one. */
    static method FindLastHop(link: seq<nat>, linkID: nat) returns (lin: nat)
      requires linkID in link
      ensures lin == LastHop(link, linkID)
    {
      lin := 0;
      for l := 0 to |link|
        invariant linkID in link[..l] ==> lin == LastHop(link[..l], linkID)
      {
        assert link[..l + 1][..l] == link[..l];
        if linkID == link[l] {
          lin := l;
        }
      }
      assert link[..|link|] == link;
    }

    static lemma NotBefore(link: seq<nat>, l: nat, k: nat)
      requires l < |link| && k < |link| && link[k] == link[l] && link[l] !in link[..l]
      ensures l <= k
    {
      assert forall i :: 0 <= i < l ==> link[i] == link[..l][i];
    }

    static lemma HopUnique(link: seq<nat>, linkID: nat, l: nat)
      requires l < |link| && link[l] == linkID && linkID !in link[..l]
      ensures FirstHop(link, linkID) == l
    {
      NotBefore(link, l, FirstHop(link, linkID));
      NotBefore(link, FirstHop(link, linkID), l);
    }

    /** The iteration for one critical instant, given a time that one more turn does not exceed. */
    method FixedPoint(linkID: nat, c: nat, it: nat, base: int, start: int, ghost bound: int)
        returns (t: int, ghost turns: nat)
      requires Valid() && Candidate(msgs, c, it)
      requires 0 < start <= base && Settles(msgs, tau, linkID, c, it, base, bound)
      ensures IsLeastFixedPoint(msgs, tau, linkID, c, it, base, t) && base <= t <= bound
      ensures turns <= bound - start + 2
    {
      t := start;
      var prev := 0;
      turns := 0;
      SumsMonotone(msgs, tau, linkID, c, it, |msgs|, 0, start);
      SumsMonotone(msgs, tau, linkID, c, it, |msgs|, bound, bound);
      FixedPointsAbove(linkID, c, it, base);
      while t != prev
        invariant 0 <= prev <= t <= bound && start <= t && turns <= (if t == prev then t - start + 1 else t - start) + 1
        invariant if turns == 0 then prev == 0 && t == start
          else t == base + Demand(msgs, tau, linkID, c, it, prev) && prev >= start
        invariant t <= base + Demand(msgs, tau, linkID, c, it, t)
        invariant forall u :: IsFixedPoint(msgs, tau, linkID, c, it, base, u) ==> t <= u
        decreases bound - t, t - prev
      {
        prev := t;
        SumsMonotone(msgs, tau, linkID, c, it, |msgs|, t, bound);
        var interf := FindSTInterference(linkID, t, c, it);
        var preempt := FindPreemption(linkID, t, c, it);
        t := base + interf + preempt;
        SumsMonotone(msgs, tau, linkID, c, it, |msgs|, prev, t);
        forall u | IsFixedPoint(msgs, tau, linkID, c, it, base, u)
          ensures t <= u
        {
          SumsMonotone(msgs, tau, linkID, c, it, |msgs|, prev, u);
        }
        turns := turns + 1;
      }
    }

    /** Every fixed point is at least the base. */
    lemma FixedPointsAbove(linkID: nat, c: nat, it: nat, base: int)
      requires Valid() && Candidate(msgs, c, it)
      ensures forall u :: IsFixedPoint(msgs, tau, linkID, c, it, base, u) ==> base <= u
    {
      forall u | IsFixedPoint(msgs, tau, linkID, c, it, base, u)
        ensures base <= u
      {
        SumsMonotone(msgs, tau, linkID, c, it, |msgs|, u, u);
      }
    }

    /** Interference of the other Class A messages. */
    method SamePriorityInterference(m: nat, linkID: nat) returns (s: int)
      requires Valid() && m < |msgs| && linkID < MAX_LINK
      ensures s == SamePriority(msgs, alphaA[linkID], m, linkID, |msgs|)
    {
      s := 0;
      for i := 0 to |msgs|
        invariant s == SamePriority(msgs, alphaA[linkID], m, linkID, i)
      {
        if msgs[i].priority.ClassA? && m != i {
          var shared := CheckSharedLink(linkID, i);
          if shared >= 0 {
            s := (s as real + msgs[i].transTime as real / alphaA[linkID]).Floor;
          }
        }
      }
    }

    method BlockingTerm(m: nat, linkID: nat) returns (b: int)
      requires Valid() && m < |msgs|
      ensures IsBlocking(msgs, mtuTime, Rank(msgs[m].priority), linkID, |msgs|, b)
    {
      b := 0;
      for i := 0 to |msgs|
        invariant IsBlocking(msgs, mtuTime, Rank(msgs[m].priority), linkID, i, b)
      {
        ghost var before := b;
        if Rank(msgs[i].priority) > Rank(msgs[m].priority) {
          var shared := CheckSharedLink(linkID, i);
          if shared >= 0 {
            if msgs[i].fragmented {
              if mtuTime > b {
                b := mtuTime;
              }
            } else if msgs[i].transTime > b {
              b := msgs[i].transTime;
            }
          }
        }
        assert BlockingBy(msgs, mtuTime, Rank(msgs[m].priority), linkID, i) <= b;
        assert b == before || BlockingBy(msgs, mtuTime, Rank(msgs[m].priority), linkID, i) == b;
      }
    }

    /** The response time of message m on one link: the largest over all critical instants. */
    method LinkResponse(m: nat, linkID: nat) returns (r: int)
      requires Valid() && m < |msgs| && linkID < MAX_LINK && LinkSettles(msgs, tau, mtuTime, alphaA[linkID], m, linkID)
      ensures IsLinkResponse(msgs, tau, mtuTime, alphaA[linkID], m, linkID, r)
    {
      assert msgs[m] in msgs;
      var samePriorityInt := SamePriorityInterference(m, linkID);
      var blocking := BlockingTerm(m, linkID);
      var base := blocking + samePriorityInt + msgs[m].transTime;
      assert IsBase(msgs, mtuTime, alphaA[linkID], m, linkID, base);
      r := 0;
      for c := 0 to |msgs|
        invariant Collected(linkID, base, r, c, 0)
      {
        if msgs[c].priority.ST? {
          var shared := CheckSharedLink(linkID, c);
          if shared >= 0 {
            r := MessageResponse(linkID, c, base, msgs[m].transTime, r);
          } else if base > r {
            r := base;
          }
        }
      }
      if r == 0 {
        r := base;
      }
      assert IsLinkResult(msgs, tau, linkID, base, r);
    }

    /** The critical instants of one ST message. */
    method MessageResponse(linkID: nat, c: nat, base: int, start: int, before: int) returns (r: int)
      requires Valid() && c < |msgs| && Scheduled(msgs[c], linkID) && 0 < start <= base
      requires AllSettle(msgs, tau, linkID, base) && Collected(linkID, base, before, c, 0)
      ensures Collected(linkID, base, r, c + 1, 0)
    {
      assert msgs[c] in msgs;
      r := before;
      for it := 0 to msgs[c].instNumber
        invariant Collected(linkID, base, r, c, it)
      {
        assert Critical(msgs, linkID, c, it);
        ghost var bound :| Settles(msgs, tau, linkID, c, it, base, bound);
        var t, _ := FixedPoint(linkID, c, it, base, start, bound);
        LeastUnique(linkID, c, it, base, t);
        if t > r {
          r := t;
        }
      }
    }

    /** All critical instants before (c, it) are accounted for in r. */
    ghost predicate Collected(linkID: nat, base: int, r: int, c: nat, it: nat)
      requires Valid()
      reads this
    {
      && (r == 0 || r >= base)
      && (forall d: nat, k: nat, t ::
        (d < c || (d == c && k < it)) && Critical(msgs, linkID, d, k) ==>
        IsLeastFixedPoint(msgs, tau, linkID, d, k, base, t) ==> base <= t <= r)
      && (r == 0 || r == base || exists d: nat, k: nat ::
        Critical(msgs, linkID, d, k) && IsLeastFixedPoint(msgs, tau, linkID, d, k, base, r))
    }

    lemma LeastUnique(linkID: nat, c: nat, it: nat, base: int, t: int)
      requires Valid() && Candidate(msgs, c, it) && IsLeastFixedPoint(msgs, tau, linkID, c, it, base, t)
      ensures forall u :: IsLeastFixedPoint(msgs, tau, linkID, c, it, base, u) ==> u == t
    {
    }

    /** The response times of message m on the links of its route. */
    method RouteResponses(m: nat) returns (out: Outcome)
      requires Valid() && m < |msgs| && msgs[m] in msgs
      requires RouteSettles(msgs, tau, mtuTime, alphaA, m)
      ensures Sized(out) && out == outcomes[m].(resTime := out.resTime)
      ensures Routed(msgs, tau, mtuTime, alphaA, m, out.resTime, |msgs[m].link|)
      ensures forall x :: 0 <= x < MAX_LINK && x !in msgs[m].link ==> out.resTime[x] == outcomes[m].resTime[x]
    {
      var link := msgs[m].link;
      out := outcomes[m];
      for l := 0 to |link|
        invariant Sized(out) && out == outcomes[m].(resTime := out.resTime)
        invariant Routed(msgs, tau, mtuTime, alphaA, m, out.resTime, l)
        invariant forall x :: 0 <= x < MAX_LINK && x !in link ==> out.resTime[x] == outcomes[m].resTime[x]
      {
        var linkID := link[l];
        assert linkID in link;
        var r := LinkResponse(m, linkID);
        RoutedStep(m, l, out.resTime, r);
        out := out.(resTime := out.resTime[linkID := r]);
      }
    }

    /** One Class A message: its response time on every link of its route, their sum with the switch
        fabric and the sender's jitter, and its output jitter. */
    method ClassAMessage(m: nat)
      requires Valid() && m < |msgs| && msgs[m] in msgs
      requires RouteSettles(msgs, tau, mtuTime, alphaA, m)
      modifies this`outcomes
      ensures Valid() && |outcomes| == |old(outcomes)|
      ensures IsClassAOutcome(msgs, tau, mtuTime, alphaA, m, old(outcomes)[m], outcomes[m])
      ensures forall i :: 0 <= i < |msgs| && i != m ==> outcomes[i] == old(outcomes)[i]
    {
      var msg := msgs[m];
      var n := |msg.link|;
      var out := RouteResponses(m);
      ghost var routed := out;
      var sum := out.responseTime;
      for l := 0 to n
        invariant sum == routed.responseTime + SumRes(msg, routed, l)
      {
        assert msg.link[l] in msg.link;
        sum := sum + out.resTime[msg.link[l]];
      }
      sum := sum + (n - 1) * SWITCH_FABRIC;
      sum := sum + msg.jitterIn;
      out := out.(responseTime := sum, jitterOut := sum - (msg.transTime * n + (n - 1) * SWITCH_FABRIC));
      SumResOnly(msg, routed, out, n);
      outcomes := outcomes[m := out];
    }

    static lemma {:induction false} SumResOnly(m: Msg, a: Outcome, b: Outcome, n: nat)
      requires WellFormed(m) && Sized(a) && Sized(b) && n <= |m.link| && a.resTime == b.resTime
      ensures SumRes(m, a, n) == SumRes(m, b, n)
    {
      if n > 0 {
        SumResOnly(m, a, b, n - 1);
      }
    }

    /** A link met twice on a route gets the same response time again. */
    lemma RoutedStep(m: nat, l: nat, resTime: seq<int>, r: int)
      requires Valid() && m < |msgs| && msgs[m] in msgs && l < |msgs[m].link| && msgs[m].link[l] in msgs[m].link &&
        |resTime| == MAX_LINK
      requires Routed(msgs, tau, mtuTime, alphaA, m, resTime, l)
      requires IsLinkResponse(msgs, tau, mtuTime, alphaA[msgs[m].link[l]], m, msgs[m].link[l], r)
      ensures Routed(msgs, tau, mtuTime, alphaA, m, resTime[msgs[m].link[l] := r], l + 1)
    {
      var route := msgs[m].link;
      forall k | 0 <= k < l + 1
        ensures route[k] in route && route[k] < MAX_LINK
        ensures IsLinkResponse(msgs, tau, mtuTime, alphaA[route[k]], m, route[k], resTime[route[l] := r][route[k]])
      {
        assert route[k] in route;
      }
    }

    /** The Class A loop over the whole table. */
    method ComputeClassA()
      requires Valid()
      requires forall m :: 0 <= m < |msgs| && msgs[m].priority.ClassA? ==> RouteSettles(msgs, tau, mtuTime, alphaA, m)
      modifies this`outcomes
      ensures Valid() && |outcomes| == |old(outcomes)|
      ensures forall m :: 0 <= m < |msgs| ==>
        if msgs[m].priority.ClassA? then IsClassAOutcome(msgs, tau, mtuTime, alphaA, m, old(outcomes)[m], outcomes[m])
        else outcomes[m] == old(outcomes)[m]
    {
      for m := 0 to |msgs|
        invariant Valid() && |outcomes| == |old(outcomes)|
        invariant forall i :: 0 <= i < m ==>
          if msgs[i].priority.ClassA? then IsClassAOutcome(msgs, tau, mtuTime, alphaA, i, old(outcomes)[i], outcomes[i])
          else outcomes[i] == old(outcomes)[i]
        invariant forall i :: m <= i < |msgs| ==> outcomes[i] == old(outcomes)[i]
      {
        assert msgs[m] in msgs;
        if msgs[m].priority.ClassA? {
          ClassAMessage(m);
        }
      }
    }

    /** The jitter of every Class A message on the links it crosses. */
    method FindJitterOfClassA()
      requires Valid()
      modifies this`outcomes
      ensures Valid() && |outcomes| == |old(outcomes)|
      ensures forall i :: 0 <= i < |msgs| ==> msgs[i] in msgs && JitterFound(msgs[i], old(outcomes)[i], outcomes[i])
    {
      for i := 0 to |msgs|
        invariant Valid() && |outcomes| == |old(outcomes)|
        invariant forall j :: 0 <= j < i ==> msgs[j] in msgs && JitterFound(msgs[j], old(outcomes)[j], outcomes[j])
        invariant forall j :: i <= j < |msgs| ==> outcomes[j] == old(outcomes)[j]
      {
        var msg := msgs[i];
        assert msg in msgs && (forall l :: 0 <= l < |msg.link| ==> msg.link[l] in msg.link);
        var out := outcomes[i];
        if msg.priority.ClassA? {
          for l := 0 to |msg.link|
            invariant Sized(out) && out == outcomes[i].(jitterLink := out.jitterLink)
            invariant forall x :: 0 <= x < MAX_LINK ==>
              out.jitterLink[x] == outcomes[i].jitterLink[x] + JitterAdded(msg, outcomes[i], x, l)
          {
            var j := out.jitterLink[msg.link[l]];
            for k := 0 to l + 1
              invariant j == out.jitterLink[msg.link[l]] + SumRes(msg, outcomes[i], k)
            {
              j := j + out.resTime[msg.link[k]];
            }
            j := j - (l + 1) * msg.transTime;
            out := out.(jitterLink := out.jitterLink[msg.link[l] := j]);
          }
        }
        outcomes := outcomes[i := out];
      }
    }

    /** Class A as the source computes it: response times, then jitters, from cleared results. */
    method AnalyseClassA()
      requires Valid() && forall i :: 0 <= i < |outcomes| ==> Zeroed(outcomes[i])
      requires forall m :: 0 <= m < |msgs| && msgs[m].priority.ClassA? ==> RouteSettles(msgs, tau, mtuTime, alphaA, m)
      modifies this`outcomes
      ensures Valid() && |outcomes| == |old(outcomes)|
      ensures forall m :: 0 <= m < |msgs| && msgs[m].priority.ClassA? && Distinct(msgs[m].link) ==>
        msgs[m] in msgs && JitterTable(msgs[m], outcomes[m])
      ensures forall m :: 0 <= m < |msgs| && msgs[m].priority.ClassA? ==>
        Routed(msgs, tau, mtuTime, alphaA, m, outcomes[m].resTime, |msgs[m].link|)
    {
      ghost var before := outcomes;
      ComputeClassA();
      ghost var mid := outcomes;
      FindJitterOfClassA();
      forall m | 0 <= m < |msgs| && msgs[m].priority.ClassA? && Distinct(msgs[m].link)
        ensures msgs[m] in msgs && JitterTable(msgs[m], outcomes[m])
      {
        JitterTableHolds(msgs, tau, mtuTime, alphaA, m, before[m], mid[m], outcomes[m]);
      }
    }

    /** The hyperperiod of the scheduled traffic on every link. */
    method CycleLink()
      requires Valid()
      modifies this`cycle
      ensures Valid() && Cycles(msgs, cycle)
    {
      cycle := seq(MAX_LINK, _ => 0);
      for l := 0 to MAX_LINK
        invariant Valid()
        invariant forall k :: 0 <= k < l ==> IsCycle(msgs, k, |msgs|, cycle[k])
      {
        var count, lcmValue := 0, 0;
        ghost var table := cycle;
        for m := 0 to |msgs|
          invariant Valid() && cycle == table
          invariant count >= 0 && (count == 0 <==> Unused(msgs, l, m)) && IsCycle(msgs, l, m, lcmValue)
        {
          ghost var before := lcmValue;
          if msgs[m].priority.ST? {
            var shared := CheckSharedLink(l, m);
            if shared >= 0 {
              assert msgs[m] in msgs;
              count := count + 1;
              if count == 1 {
                lcmValue := msgs[m].period;
              } else {
                lcmValue := LCMcalc(lcmValue, msgs[m].period);
              }
              CycleStep(msgs, l, m, before, lcmValue);
            }
          }
          CycleSkip(msgs, l, m, before, lcmValue);
        }
        cycle := cycle[l := lcmValue];
      }
    }

    /** The release times of every ST message on every hop, from the hyperperiods; the instance number
        left behind is the one of the last hop. */
    method FindInstances()
      requires Valid() && AllFit(msgs, cycle)
      modifies this`msgs
      ensures Valid() && AllFound(cycle, old(msgs), msgs)
    {
      for i := 0 to |msgs|
        invariant Valid() && |msgs| == |old(msgs)|
        invariant forall j :: 0 <= j < i ==> InstancesFound(cycle, old(msgs)[j], msgs[j])
        invariant forall j :: i <= j < |msgs| ==> msgs[j] == old(msgs)[j]
      {
        if msgs[i].priority.ST? {
          var msg := MessageInstances(msgs[i]);
          msgs := msgs[i := msg];
        }
      }
    }

    /** The hyperperiods and then the instances: every table of an ST message tiles the hyperperiod. */
    method Instances()
      requires Valid() && forall v :: Cycles(msgs, v) ==> AllFit(msgs, v)
      modifies this`cycle, this`msgs
      ensures Valid() && |msgs| == |old(msgs)|
      ensures Cycles(old(msgs), cycle) && AllTiled(cycle, old(msgs), msgs)
    {
      CycleLink();
      FindInstances();
      InstanceTablesHold(cycle, old(msgs), msgs);
    }

    method MessageInstances(before: Msg) returns (m: Msg)
      requires |cycle| == MAX_LINK && Fits(cycle, before)
      ensures WellFormed(m) && InstancesUpTo(cycle, before, m, |before.link|)
    {
      m := before;
      for l := 0 to |before.link|
        invariant WellFormed(m) && InstancesUpTo(cycle, before, m, l)
      {
        assert before.link[l] in before.link && m.instances[l] in m.instances;
        var n := cycle[before.link[l]] / before.period;
        var inst := m.instances[l];
        for k := 0 to n
          invariant |inst| == MAX_INST
          invariant forall x :: 0 <= x < MAX_INST ==>
            inst[x] == if x < k then x * before.period + before.offset[l] else m.instances[l][x]
        {
          inst := inst[k := k * before.period + before.offset[l]];
        }
        m := m.(instNumber := n, instances := m.instances[l := inst]);
      }
    }
  }

  lemma CycleSkip(msgs: seq<Msg>, linkID: nat, n: nat, before: int, v: int)
    requires n < |msgs| && (if Scheduled(msgs[n], linkID) then IsCycle(msgs, linkID, n + 1, v)
      else v == before && IsCycle(msgs, linkID, n, v))
    ensures IsCycle(msgs, linkID, n + 1, v)
  {
    if !Scheduled(msgs[n], linkID) && !Unused(msgs, linkID, n) {
      forall w | CommonPeriod(msgs, linkID, n + 1, w)
        ensures Multiple(w, v)
      {
        assert CommonPeriod(msgs, linkID, n, w);
      }
    }
  }
}
