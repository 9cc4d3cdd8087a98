/** Glob patterns as lists of elements: which strings a list describes, and facts about the language that
    the matcher's short cuts rest on. */
module PatternLanguage {
  import opened Texts

  /** Set and NegSet hold pairs of characters: from, to, from, to, ...  A negative bound of a NumRange is
      no bound. */
  datatype Elem =
    | Literal(text: string)
    | AnyChar
    | CommonChar
    | Set(chars: string)
    | NegSet(chars: string)
    | NumRange(from: int, to: int)
    | AnySeq
    | CommonSeq
    | End

  function Number(s: string): int {
    if s == "" then 0 else Number(s[..|s| - 1]) * 10 + (s[|s| - 1] as int - '0' as int)
  }

  predicate InSet(c: char, chars: string)
    requires |chars| % 2 == 0
  {
    chars != "" && (chars[0] <= c <= chars[1] || InSet(c, chars[2..]))
  }

  predicate Even(e: Elem) {
    (e.Set? || e.NegSet?) ==> |e.chars| % 2 == 0
  }

  /** Element e describes `part` when `rest` follows.  A number takes all the digits there are. */
  predicate Accepts(e: Elem, part: string, rest: string)
    requires Even(e)
  {
    match e
    case Literal(t) => part == t
    case AnyChar => |part| == 1
    case CommonChar => |part| == 1 && part[0] != '.'
    case Set(chars) => |part| == 1 && InSet(part[0], chars)
    case NegSet(chars) => |part| == 1 && !InSet(part[0], chars)
    case NumRange(from, to) =>
      && part != "" && AllDigits(part) && (rest == "" || !IsDigit(rest[0]))
      && (from < 0 || Number(part) >= from) && (to < 0 || Number(part) <= to)
    case AnySeq => true
    case CommonSeq => '.' !in part
    case End => part == "" && rest == ""
  }

  predicate AllEven(p: seq<Elem>) {
    forall k :: 0 <= k < |p| ==> Even(p[k])
  }

  /** The first element describes the first i characters. */
  predicate Cut(p: seq<Elem>, line: string, i: int)
    requires AllEven(p) && p != []
  {
    0 <= i <= |line| && Accepts(p[0], line[..i], line[i..])
  }

  /** The line can be cut into parts that the elements describe one after another. */
  ghost predicate InLanguage(p: seq<Elem>, line: string)
    requires AllEven(p)
  {
    if p == [] then line == "" else exists i :: Cut(p, line, i) && InLanguage(p[1..], line[i..])
  }

  /** The only End is the last element. */
  predicate OneEnd(p: seq<Elem>) {
    && p != [] && p[|p| - 1] == End && AllEven(p)
    && forall k :: 0 <= k < |p| - 1 ==> !p[k].End?
  }

  // ---------- elements that can take only one part ----------

  /** If only the part of length i can be taken, the rest decides. */
  lemma OnlyCut(p: seq<Elem>, line: string, i: nat)
    requires AllEven(p) && p != [] && i <= |line|
    requires Accepts(p[0], line[..i], line[i..])
    requires forall j :: 0 <= j <= |line| && Accepts(p[0], line[..j], line[j..]) ==> j == i
    ensures InLanguage(p, line) <==> InLanguage(p[1..], line[i..])
  {
    if InLanguage(p[1..], line[i..]) {
      assert Cut(p, line, i);
    }
    if InLanguage(p, line) {
      var j :| Cut(p, line, j) && InLanguage(p[1..], line[j..]);
    }
  }

  lemma NoCut(p: seq<Elem>, line: string)
    requires AllEven(p) && p != []
    requires forall j :: 0 <= j <= |line| ==> !Accepts(p[0], line[..j], line[j..])
    ensures !InLanguage(p, line)
  {
  }

  lemma AfterLiteral(p: seq<Elem>, line: string)
    requires AllEven(p) && p != [] && p[0].Literal?
    ensures InLanguage(p, line) <==> p[0].text <= line && InLanguage(p[1..], line[|p[0].text|..])
  {
    var t := p[0].text;
    if t <= line {
      assert line[..|t|] == t;
      OnlyCut(p, line, |t|);
    } else {
      forall j | 0 <= j <= |line|
        ensures !Accepts(p[0], line[..j], line[j..])
      {
        assert line[..j] <= line;
      }
      NoCut(p, line);
    }
  }

  /** The elements that take one character. */
  predicate TakesOne(e: Elem) {
    e.AnyChar? || e.CommonChar? || e.Set? || e.NegSet?
  }

  lemma AfterOne(p: seq<Elem>, line: string)
    requires AllEven(p) && p != [] && TakesOne(p[0])
    ensures InLanguage(p, line) <==> line != "" && Accepts(p[0], line[..1], line[1..]) && InLanguage(p[1..], line[1..])
  {
    if line != "" && Accepts(p[0], line[..1], line[1..]) {
      OnlyCut(p, line, 1);
    } else {
      NoCut(p, line);
    }
  }

  function DigitRun(line: string): (n: nat)
    ensures n <= |line| && AllDigits(line[..n]) && (n == |line| || !IsDigit(line[n]))
  {
    if line == "" || !IsDigit(line[0]) then 0 else 1 + DigitRun(line[1..])
  }

  lemma NotShorter(line: string, n: nat, m: nat)
    requires n <= |line| && m <= |line| && AllDigits(line[..m]) && (n == |line| || !IsDigit(line[n]))
    ensures m <= n
  {
    assert forall i :: 0 <= i < m ==> line[..m][i] == line[i];
  }

  lemma RunUnique(line: string, n: nat)
    requires n <= |line| && AllDigits(line[..n]) && (n == |line| || !IsDigit(line[n]))
    ensures n == DigitRun(line)
  {
    NotShorter(line, n, DigitRun(line));
    NotShorter(line, DigitRun(line), n);
  }

  lemma AfterNumber(p: seq<Elem>, line: string)
    requires AllEven(p) && p != [] && p[0].NumRange?
    ensures var n := DigitRun(line);
      InLanguage(p, line) <==> n > 0 && Accepts(p[0], line[..n], line[n..]) && InLanguage(p[1..], line[n..])
  {
    var n := DigitRun(line);
    forall j | 0 <= j <= |line| && Accepts(p[0], line[..j], line[j..])
      ensures j == n
    {
      RunUnique(line, j);
    }
    if Accepts(p[0], line[..n], line[n..]) {
      OnlyCut(p, line, n);
    } else {
      NoCut(p, line);
    }
  }

  // ---------- the short cuts ----------

  predicate EndsWith(line: string, t: string) {
    |t| <= |line| && line[|line| - |t|..] == t
  }

  lemma EndOnly(p: seq<Elem>, line: string)
    requires p == [End]
    ensures InLanguage(p, line) <==> line == ""
  {
    if line == "" {
      assert Cut(p, line, 0);
    } else {
      NoCut(p, line);
    }
  }

  /** A trailing "**" takes everything. */
  lemma TrailingAnySeq(p: seq<Elem>, line: string)
    requires p == [AnySeq, End]
    ensures InLanguage(p, line)
  {
    assert p[1..] == [End];
    EndOnly([End], line[|line|..]);
    assert Cut(p, line, |line|);
  }

  lemma LiteralEnd(p: seq<Elem>, line: string)
    requires |p| == 2 && p[0].Literal? && p[1] == End
    ensures InLanguage(p, line) <==> line == p[0].text
  {
    AfterLiteral(p, line);
    assert p[1..] == [End];
    var t := p[0].text;
    EndOnly([End], if t <= line then line[|t|..] else line);
    if t <= line {
      assert line == t + line[|t|..];
    }
  }

  /** "**" and a literal at the end: the line ends with the literal. */
  lemma AnySeqLiteral(p: seq<Elem>, line: string)
    requires |p| == 3 && p[0] == AnySeq && p[1].Literal? && p[2] == End
    ensures InLanguage(p, line) <==> EndsWith(line, p[1].text)
  {
    var t := p[1].text;
    if EndsWith(line, t) {
      var i := |line| - |t|;
      LiteralEnd(p[1..], line[i..]);
      assert Cut(p, line, i);
    }
    if InLanguage(p, line) {
      var i :| Cut(p, line, i) && InLanguage(p[1..], line[i..]);
      LiteralEnd(p[1..], line[i..]);
    }
  }

  /** A pattern that ends in a literal describes only lines that end with it. */
  lemma {:induction false} LastLiteral(p: seq<Elem>, line: string)
    requires AllEven(p) && |p| >= 2 && p[|p| - 2].Literal? && p[|p| - 1] == End && InLanguage(p, line)
    ensures EndsWith(line, p[|p| - 2].text)
    decreases |p|
  {
    if |p| == 2 {
      LiteralEnd(p, line);
    } else {
      var i :| Cut(p, line, i) && InLanguage(p[1..], line[i..]);
      LastLiteral(p[1..], line[i..]);
    }
  }
}
