/** Substring matching: what a list of elements with open ends describes. */
module PatternSubstring {
  import opened PatternLanguage
  import opened PatternSyntax
  import opened Sequences

  /** The element describes the part from i to k of the line, where it stands. */
  predicate TakesOneAt(e: Elem, line: string, i: nat, k: nat)
    requires Even(e)
  {
    i <= k <= |line| && Accepts(e, line[i..k], line[k..])
  }

  /** The elements describe, one after another, the part from i to j of the line, where it stands: a number
      still has to be a whole run of digits up to what follows it. */
  ghost predicate Takes(ts: seq<Elem>, line: string, i: nat, j: nat)
    requires AllEven(ts)
  {
    if ts == [] then i == j <= |line| else exists k: nat :: TakesOneAt(ts[0], line, i, k) && Takes(ts[1..], line, k, j)
  }

  lemma {:induction false} TakesBounds(ts: seq<Elem>, line: string, i: nat, j: nat)
    requires AllEven(ts) && Takes(ts, line, i, j)
    ensures i <= j <= |line|
  {
    if ts != [] {
      var k: nat :| TakesOneAt(ts[0], line, i, k) && Takes(ts[1..], line, k, j);
      TakesBounds(ts[1..], line, k, j);
    }
  }

  lemma TakesCons(ts: seq<Elem>, line: string, i: nat, k: nat, j: nat)
    requires AllEven(ts) && ts != [] && TakesOneAt(ts[0], line, i, k) && Takes(ts[1..], line, k, j)
    ensures Takes(ts, line, i, j)
  {
  }

  lemma CutAt(p: seq<Elem>, line: string, i: nat, k: nat)
    requires AllEven(p) && p != [] && i <= k <= |line|
    ensures Cut(p, line[i..], k - i) <==> TakesOneAt(p[0], line, i, k)
    ensures line[i..][k - i..] == line[k..]
  {
    assert line[i..][..k - i] == line[i..k];
  }

  /** ts takes a part from i on, and b describes what comes then. */
  ghost predicate TakenThen(ts: seq<Elem>, b: seq<Elem>, line: string, i: nat, j: nat)
    requires AllEven(ts) && AllEven(b)
  {
    j <= |line| && Takes(ts, line, i, j) && InLanguage(b, line[j..])
  }

  lemma FirstCut(p: seq<Elem>, line: string, i: nat) returns (n: nat)
    requires AllEven(p) && p != [] && i <= |line| && InLanguage(p, line[i..])
    ensures TakesOneAt(p[0], line, i, i + n) && InLanguage(p[1..], line[i + n..])
  {
    n :| Cut(p, line[i..], n) && InLanguage(p[1..], line[i..][n..]);
    CutAt(p, line, i, i + n);
  }

  lemma {:induction false} Splits(ts: seq<Elem>, b: seq<Elem>, line: string, i: nat) returns (j: nat)
    requires AllEven(ts) && AllEven(b) && i <= |line| && InLanguage(ts + b, line[i..])
    ensures TakenThen(ts, b, line, i, j)
  {
    if ts == [] {
      assert ts + b == b;
      j := i;
    } else {
      var p := ts + b;
      assert p[0] == ts[0] && p[1..] == ts[1..] + b;
      var n := FirstCut(p, line, i);
      j := Splits(ts[1..], b, line, i + n);
      TakesCons(ts, line, i, i + n, j);
    }
  }

  lemma {:induction false} Joins(ts: seq<Elem>, b: seq<Elem>, line: string, i: nat, j: nat)
    requires AllEven(ts) && AllEven(b) && i <= |line| && TakenThen(ts, b, line, i, j)
    ensures InLanguage(ts + b, line[i..])
  {
    if ts == [] {
      assert ts + b == b;
    } else {
      var p := ts + b;
      assert p[0] == ts[0] && p[1..] == ts[1..] + b;
      var k: nat :| TakesOneAt(ts[0], line, i, k) && Takes(ts[1..], line, k, j);
      Joins(ts[1..], b, line, k, j);
      CutAt(p, line, i, k);
      assert Cut(p, line[i..], k - i);
    }
  }

  /** A list that starts with ts describes the rest of the line if and only if ts takes a part of it and
      the remaining elements describe what comes then. */
  lemma TakesThen(ts: seq<Elem>, b: seq<Elem>, line: string, i: nat)
    requires AllEven(ts) && AllEven(b) && i <= |line|
    ensures InLanguage(ts + b, line[i..]) <==> exists j: nat :: TakenThen(ts, b, line, i, j)
  {
    if InLanguage(ts + b, line[i..]) {
      var j := Splits(ts, b, line, i);
    }
    if j: nat :| TakenThen(ts, b, line, i, j) {
      Joins(ts, b, line, i, j);
    }
  }

  /** A list that ends in "**" takes everything up to the end as well. */
  lemma {:induction false} LastTakesAll(ts: seq<Elem>, line: string, i: nat, j: nat)
    requires AllEven(ts) && ts != [] && ts[|ts| - 1].AnySeq? && Takes(ts, line, i, j)
    ensures Takes(ts, line, i, |line|)
  {
    var k: nat :| TakesOneAt(ts[0], line, i, k) && Takes(ts[1..], line, k, j);
    if |ts| == 1 {
      assert Takes(ts[1..], line, |line|, |line|);
      TakesCons(ts, line, i, |line|, |line|);
    } else {
      LastTakesAll(ts[1..], line, k, j);
      TakesCons(ts, line, i, k, |line|);
    }
  }

  function OpenEnd(ts: seq<Elem>): seq<Elem> {
    if ts == [] || !ts[|ts| - 1].AnySeq? then ts + [AnySeq] else ts
  }

  lemma OpenEndTaken(ts: seq<Elem>, line: string, i: nat) returns (j: nat)
    requires AllEven(ts) && i <= |line| && AllEven(OpenEnd(ts) + [End]) && InLanguage(OpenEnd(ts) + [End], line[i..])
    ensures Takes(ts, line, i, j)
  {
    if OpenEnd(ts) == ts {
      j := Splits(ts, [End], line, i);
    } else {
      assert OpenEnd(ts) + [End] == ts + [AnySeq, End];
      j := Splits(ts, [AnySeq, End], line, i);
    }
  }

  lemma TakenOpenEnd(ts: seq<Elem>, line: string, i: nat, j: nat)
    requires AllEven(ts) && Takes(ts, line, i, j)
    ensures i <= |line| && AllEven(OpenEnd(ts) + [End]) && InLanguage(OpenEnd(ts) + [End], line[i..])
  {
    TakesBounds(ts, line, i, j);
    if OpenEnd(ts) == ts {
      LastTakesAll(ts, line, i, j);
      EndOnly([End], line[|line|..]);
      Joins(ts, [End], line, i, |line|);
    } else {
      assert OpenEnd(ts) + [End] == ts + [AnySeq, End];
      TrailingAnySeq([AnySeq, End], line[j..]);
      Joins(ts, [AnySeq, End], line, i, j);
    }
  }

  /** The open start. */
  function OpenStart(p: seq<Elem>): seq<Elem>
    requires p != []
  {
    if p[0].AnySeq? then p else [AnySeq] + p
  }

  lemma StartTaken(p: seq<Elem>, line: string, i: nat)
    requires AllEven(p) && p != [] && i <= |line| && InLanguage(p, line[i..])
    ensures AllEven(OpenStart(p)) && InLanguage(OpenStart(p), line)
  {
    var full := OpenStart(p);
    if p[0].AnySeq? {
      var n :| Cut(p, line[i..], n) && InLanguage(p[1..], line[i..][n..]);
      assert line[i..][n..] == line[i + n..];
      assert Cut(p, line, i + n);
    } else {
      assert full[1..] == p;
      assert Cut(full, line, i);
    }
  }

  lemma TakenStart(p: seq<Elem>, line: string) returns (i: nat)
    requires AllEven(p) && p != [] && AllEven(OpenStart(p)) && InLanguage(OpenStart(p), line)
    ensures i <= |line| && InLanguage(p, line[i..])
  {
    var full := OpenStart(p);
    if p[0].AnySeq? {
      i := 0;
      assert line[0..] == line;
    } else {
      assert full[1..] == p;
      var n :| Cut(full, line, n) && InLanguage(full[1..], line[n..]);
      i := n;
    }
  }

  lemma CompletedIs(ts: seq<Elem>)
    requires AllEven(ts)
    ensures AllEven(OpenEnd(ts) + [End]) && Completed(ts, false) == OpenStart(OpenEnd(ts) + [End])
    ensures AllEven(Completed(ts, false))
  {
    var q := OpenEnd(ts);
    assert (q + [End])[0] == q[0];
    assert [AnySeq] + q + [End] == [AnySeq] + (q + [End]);
  }

  ghost predicate TakesPart(ts: seq<Elem>, line: string, i: nat, j: nat)
    requires AllEven(ts)
  {
    i <= j <= |line| && Takes(ts, line, i, j)
  }

  /** As a substring pattern, every list of elements describes exactly the lines with a part that it
      describes where it stands. */
  lemma SubstringExact(ts: seq<Elem>, line: string)
    requires AllEven(ts)
    ensures AllEven(Completed(ts, false))
    ensures InLanguage(Completed(ts, false), line) <==> exists i: nat, j: nat :: TakesPart(ts, line, i, j)
  {
    CompletedIs(ts);
    if InLanguage(Completed(ts, false), line) {
      var i := TakenStart(OpenEnd(ts) + [End], line);
      var j := OpenEndTaken(ts, line, i);
      TakesBounds(ts, line, i, j);
      assert TakesPart(ts, line, i, j);
    }
    if i: nat, j: nat :| TakesPart(ts, line, i, j) {
      TakenOpenEnd(ts, line, i, j);
      StartTaken(OpenEnd(ts) + [End], line, i);
    }
  }

  // ---------- elements that do not look at what follows ----------

  predicate Local(ts: seq<Elem>) {
    forall k :: 0 <= k < |ts| ==> !ts[k].NumRange? && !ts[k].End?
  }

  lemma OneInSlice(e: Elem, line: string, part: string, i: nat, j: nat, b: nat, n: nat)
    requires Even(e) && !e.NumRange? && !e.End? && b <= n <= |part| && i <= j <= |line| && part == line[i..j]
    ensures TakesOneAt(e, line, i + b, i + n) <==> TakesOneAt(e, part, b, n)
  {
    SliceOf(line, part, i, j, b, n);
  }

  lemma {:induction false} TakesInSlice(ts: seq<Elem>, line: string, part: string, i: nat, a: nat, j: nat)
    requires AllEven(ts) && Local(ts) && i <= a && Takes(ts, line, a, j) && j <= |line| && i <= j && part == line[i..j]
    ensures a <= j && Takes(ts, part, a - i, j - i)
  {
    TakesBounds(ts, line, a, j);
    if ts != [] {
      var k: nat :| TakesOneAt(ts[0], line, a, k) && Takes(ts[1..], line, k, j);
      TakesInSlice(ts[1..], line, part, i, k, j);
      OneInSlice(ts[0], line, part, i, j, a - i, k - i);
      TakesCons(ts, part, a - i, k - i, j - i);
    }
  }

  lemma {:induction false} TakesInLine(ts: seq<Elem>, line: string, part: string, i: nat, b: nat, j: nat)
    requires AllEven(ts) && Local(ts) && i <= j <= |line| && part == line[i..j] && Takes(ts, part, b, j - i)
    ensures Takes(ts, line, i + b, j)
  {
    if ts != [] {
      var n: nat :| TakesOneAt(ts[0], part, b, n) && Takes(ts[1..], part, n, j - i);
      TakesBounds(ts[1..], part, n, j - i);
      TakesInLine(ts[1..], line, part, i, n, j);
      OneInSlice(ts[0], line, part, i, j, b, n);
      TakesCons(ts, line, i + b, i + n, j);
    }
  }

  /** Such elements describe a part where it stands exactly if they describe it on its own. */
  lemma PartDescribed(ts: seq<Elem>, line: string, i: nat, j: nat)
    requires AllEven(ts) && Local(ts) && i <= j <= |line|
    ensures Describes(ts, line, i, j) <==> TakesPart(ts, line, i, j)
  {
    if Describes(ts, line, i, j) {
      AloneTaken(ts, line[i..j]);
      TakesInLine(ts, line, line[i..j], i, 0, j);
    }
    if TakesPart(ts, line, i, j) {
      TakesInSlice(ts, line, line[i..j], i, i, j);
      TakenAlone(ts, line[i..j]);
    }
  }

  lemma AloneTaken(ts: seq<Elem>, part: string)
    requires AllEven(ts) && AllEven(ts + [End]) && InLanguage(ts + [End], part)
    ensures Takes(ts, part, 0, |part|)
  {
    assert part[0..] == part;
    var k := Splits(ts, [End], part, 0);
    EndOnly([End], part[k..]);
  }

  lemma TakenAlone(ts: seq<Elem>, part: string)
    requires AllEven(ts) && Takes(ts, part, 0, |part|)
    ensures AllEven(ts + [End]) && InLanguage(ts + [End], part)
  {
    assert part[0..] == part;
    EndOnly([End], part[|part|..]);
    Joins(ts, [End], part, 0, |part|);
  }

  ghost predicate Describes(ts: seq<Elem>, line: string, i: nat, j: nat)
    requires AllEven(ts)
  {
    i <= j <= |line| && AllEven(ts + [End]) && InLanguage(ts + [End], line[i..j])
  }

  /** Without number ranges a substring pattern describes exactly the lines that contain a text that the
      list describes as a full-string pattern. */
  lemma SubstringContains(ts: seq<Elem>, line: string)
    requires AllEven(ts) && Local(ts)
    ensures AllEven(Completed(ts, false))
    ensures InLanguage(Completed(ts, false), line) <==> exists i: nat, j: nat :: Describes(ts, line, i, j)
  {
    SubstringExact(ts, line);
    if i: nat, j: nat :| TakesPart(ts, line, i, j) {
      PartDescribed(ts, line, i, j);
    }
    if i: nat, j: nat :| Describes(ts, line, i, j) {
      PartDescribed(ts, line, i, j);
    }
  }

  /** With one it may not: 1 is described, but 12 holds it only as part of a longer number. */
  lemma NumberIsWhole()
    ensures AllEven([NumRange(1, 1), End]) && InLanguage([NumRange(1, 1), End], "1")
    ensures AllEven(Completed([NumRange(1, 1)], false)) && !InLanguage(Completed([NumRange(1, 1)], false), "12")
  {
    var ts, p, one := [NumRange(1, 1)], [NumRange(1, 1), End], "1";
    assert one[..1] == one && Number(one) == 1;
    assert Cut(p, one, 1);
    assert p[1..] == [End];
    EndOnly([End], one[1..]);
    SubstringExact(ts, "12");
    NotOneInTwelve();
  }

  lemma NotOneInTwelve()
    ensures forall i: nat, j: nat :: !TakesPart([NumRange(1, 1)], "12", i, j)
  {
    var ts, line := [NumRange(1, 1)], "12";
    forall i: nat, j: nat
      ensures !TakesPart(ts, line, i, j)
    {
      if TakesPart(ts, line, i, j) {
        var k: nat :| TakesOneAt(ts[0], line, i, k) && Takes(ts[1..], line, k, j);
        NotOne(i, k);
      }
    }
  }

  lemma NotOne(i: nat, k: nat)
    ensures !TakesOneAt(NumRange(1, 1), "12", i, k)
  {
    var line := "12";
    if i < k < 2 {
      assert line[k..][0] == '2';
    } else if i < k == 2 {
      assert line[0..2] == line && line[..1] == "1" && line[1..2] == "2";
      assert Number("2") == 2 && Number("12") == 12;
    }
  }
}
