/** The text form of glob patterns: how it is cut into elements. */
module PatternSyntax {
  import opened Options
  import opened PatternLanguage
  import opened Texts

  function DigitsEnd(s: string, i: nat): (j: nat)
    requires i <= |s|
    ensures i <= j <= |s| && AllDigits(s[i..j]) && !IsDigit(At(s, j))
    decreases |s| - i
  {
    if i < |s| && IsDigit(s[i]) then
      assert s[i..DigitsEnd(s, i + 1)] == [s[i]] + s[i + 1..DigitsEnd(s, i + 1)];
      DigitsEnd(s, i + 1)
    else i
  }

  /** A bound of a number range: -1 if there is none. */
  function Bound(s: string, i: nat, j: nat): int
    requires i <= j <= |s|
  {
    if i == j then -1 else Number(s[i..j])
  }

  datatype Range = Range(lo: int, up: int, end: nat)

  /** "[n..m]" or "{n..m}" at position i: the bounds, and the position of the closing character. */
  function RangeAt(s: string, i: nat, closing: char): (r: Option<Range>)
    requires i < |s| && closing != '\0'
    ensures r.Some? ==> i + 2 < r.value.end < |s| && s[r.value.end] == closing
  {
    var j := DigitsEnd(s, i + 1);
    if At(s, j) != '.' || At(s, j + 1) != '.' then None
    else
      var k := DigitsEnd(s, j + 2);
      if At(s, k) != closing then None else Some(Range(Bound(s, i + 1, j), Bound(s, j + 2, k), k))
  }

  /** A literal: its text and where it stops, or that it read past the end of the pattern. */
  datatype LiteralResult = Read(text: string, end: nat) | PastEnd

  predicate EndsLiteral(c: char) {
    c == '?' || c == '{' || c == '*'
  }

  /** A backslash takes the next character; an opening bracket before a number range ends the literal
      and is its last character. */
  function LiteralAt(s: string, i: nat): (r: LiteralResult)
    requires i <= |s|
    ensures r.Read? ==> i <= r.end <= |s|
    decreases |s| - i
  {
    if i == |s| || EndsLiteral(s[i]) then Read("", i) else
      var j := if s[i] == '\\' then i + 1 else i;
      if j == |s| then PastEnd
      else if s[j] == '[' && RangeAt(s, j, ']').Some? then Read([s[j]], j)
      else
        match LiteralAt(s, j + 1)
        case Read(t, end) => Read([s[j]] + t, end)
        case PastEnd => PastEnd
  }

  /** The pairs of a set, and the position of its closing brace; no result if there is none. */
  datatype SetResult = Closed(chars: string, end: nat) | Unclosed

  function SetChars(s: string, first: nat, i: nat): (r: SetResult)
    requires first <= i <= |s|
    ensures r.Closed? ==> i <= r.end < |s| && |r.chars| % 2 == 0
    decreases |s| - i
  {
    if i == |s| then Unclosed
    else if s[i] == '}' && i != first then Closed("", i)
    else
      var isRange := At(s, i + 1) == '-' && i + 2 < |s| && At(s, i + 2) != '}';
      match SetChars(s, first, if isRange then i + 3 else i + 1)
      case Unclosed => Unclosed
      case Closed(t, end) => Closed((if isRange then [s[i], s[i + 2]] else [s[i], s[i]]) + t, end)
  }

  datatype Token = Token(elem: Elem, end: nat) | UnmatchedBrace | Overrun

  function LiteralToken(s: string, i: nat): Token
    requires i <= |s|
  {
    match LiteralAt(s, i)
    case Read(t, end) => Token(Literal(t), end)
    case PastEnd => Overrun
  }

  /** The next element of the pattern, given whether a literal comes before it. */
  function NextToken(s: string, i: nat, dotted: bool, afterLiteral: bool): (r: Token)
    requires i < |s|
    ensures r.Token? ==> i <= r.end <= |s| && Even(r.elem) && !r.elem.End?
    ensures r.Token? && r.end == i ==> !afterLiteral && r.elem.Literal?
  {
    match s[i]
    case '?' => Token(if dotted then CommonChar else AnyChar, i + 1)
    case '[' =>
      (match if afterLiteral then RangeAt(s, i, ']') else None
       case Some(r) => Token(NumRange(r.lo, r.up), r.end)
       case None => LiteralToken(s, i))
    case '{' =>
      (match RangeAt(s, i, '}')
       case Some(r) => Token(NumRange(r.lo, r.up), r.end + 1)
       case None =>
         var negated := At(s, i + 1) == '^';
         var first := if negated then i + 2 else i + 1;
         match SetChars(s, first, first)
         case Unclosed => UnmatchedBrace
         case Closed(chars, end) => Token(if negated then NegSet(chars) else Set(chars), end + 1))
    case '*' =>
      if At(s, i + 1) == '*' then Token(AnySeq, i + 2) else Token(if dotted then CommonSeq else AnySeq, i + 1)
    case _ => LiteralToken(s, i)
  }

  datatype Outcome = Tokens(elems: seq<Elem>) | Unmatched | Overread

  predicate EndsInLiteral(acc: seq<Elem>) {
    acc != [] && acc[|acc| - 1].Literal?
  }

  /** All elements from position i on.  A bracket may consume nothing, but then leaves a literal behind. */
  function Tokenize(s: string, i: nat, dotted: bool, acc: seq<Elem>): Outcome
    requires i <= |s|
    decreases |s| - i, if EndsInLiteral(acc) then 0 else 1
  {
    if i == |s| then Tokens(acc) else
      match NextToken(s, i, dotted, EndsInLiteral(acc))
      case UnmatchedBrace => Unmatched
      case Overrun => Overread
      case Token(e, end) => Tokenize(s, end, dotted, acc + [e])
  }

  /** The whole pattern: open ends for a substring match, and the end mark. */
  function Completed(elems: seq<Elem>, fullstring: bool): seq<Elem> {
    if fullstring then elems + [End] else
      var p := if elems == [] || !elems[|elems| - 1].AnySeq? then elems + [AnySeq] else elems;
      (if !p[0].AnySeq? then [AnySeq] + p else p) + [End]
  }

  predicate NoEnd(p: seq<Elem>) {
    AllEven(p) && forall k :: 0 <= k < |p| ==> !p[k].End?
  }

  lemma {:induction false} TokensHaveNoEnd(s: string, i: nat, dotted: bool, acc: seq<Elem>)
    requires i <= |s| && NoEnd(acc) && Tokenize(s, i, dotted, acc).Tokens?
    ensures NoEnd(Tokenize(s, i, dotted, acc).elems)
    decreases |s| - i, if EndsInLiteral(acc) then 0 else 1
  {
    if i < |s| {
      var t := NextToken(s, i, dotted, EndsInLiteral(acc));
      TokensHaveNoEnd(s, t.end, dotted, acc + [t.elem]);
    }
  }

  /** Every pattern ends in the only end mark. */
  lemma CompletedOneEnd(s: string, dotted: bool, fullstring: bool)
    requires Tokenize(s, 0, dotted, []).Tokens?
    ensures OneEnd(Completed(Tokenize(s, 0, dotted, []).elems, fullstring))
  {
    TokensHaveNoEnd(s, 0, dotted, []);
  }

  // ---------- which patterns are read past their end ----------

  /** The length of the run of backslashes that ends the text. */
  function Run(s: string): (n: nat)
    ensures n <= |s|
  {
    if s != "" && s[|s| - 1] == '\\' then 1 + Run(s[..|s| - 1]) else 0
  }

  lemma {:induction false} RunCons(c: char, s: string)
    ensures Run([c] + s) == if c == '\\' && Run(s) == |s| then |s| + 1 else Run(s)
  {
    if s != "" {
      RunCons(c, s[..|s| - 1]);
      assert ([c] + s)[..|s|] == [c] + s[..|s| - 1];
    } else {
      assert ([c] + s)[..0] == "";
    }
  }

  lemma RunNext(s: string, i: nat)
    requires i < |s|
    ensures Run(s[i..]) == if s[i] == '\\' && Run(s[i + 1..]) == |s| - i - 1 then |s| - i else Run(s[i + 1..])
  {
    RunCons(s[i], s[i + 1..]);
    assert s[i..] == [s[i]] + s[i + 1..];
  }

  /** From position i on, the pattern ends in an odd number of backslashes. */
  predicate OddEnd(s: string, i: nat)
    requires i <= |s|
  {
    Run(s[i..]) % 2 == 1
  }

  /** Up to and past a character that is no backslash the end does not matter. */
  lemma {:induction false} EndAfter(s: string, i: nat, k: nat)
    requires i <= k < |s| && s[k] != '\\'
    ensures Run(s[i..]) == Run(s[k..]) == Run(s[k + 1..])
    decreases k - i
  {
    RunNext(s, k);
    if i < k {
      RunNext(s, i);
      EndAfter(s, i + 1, k);
    }
  }

  /** Backslashes are taken in pairs, so reading a literal keeps the parity. */
  lemma {:induction false} LiteralParity(s: string, i: nat)
    requires i <= |s|
    ensures match LiteralAt(s, i)
      case Read(_, end) => OddEnd(s, i) == OddEnd(s, end)
      case PastEnd => OddEnd(s, i)
    decreases |s| - i
  {
    if i < |s| && !EndsLiteral(s[i]) {
      var j := if s[i] == '\\' then i + 1 else i;
      RunNext(s, i);
      if j == |s| {
        assert s[j..] == "";
      } else {
        if s[j] != '\\' {
          EndAfter(s, i, j);
        } else {
          RunNext(s, j);
        }
        if !OpensRange(s, j) {
          LiteralParity(s, j + 1);
        }
      }
    }
  }

  lemma {:induction false} SetClosed(s: string, first: nat, i: nat)
    requires first <= i <= |s| && SetChars(s, first, i).Closed?
    ensures s[SetChars(s, first, i).end] == '}'
    decreases |s| - i
  {
    if s[i] != '}' || i == first {
      var isRange := At(s, i + 1) == '-' && i + 2 < |s| && At(s, i + 2) != '}';
      SetClosed(s, first, if isRange then i + 3 else i + 1);
    }
  }

  lemma BraceParity(s: string, i: nat, dotted: bool, afterLiteral: bool)
    requires i < |s| && s[i] == '{' && NextToken(s, i, dotted, afterLiteral).Token?
    ensures Run(s[i..]) == Run(s[NextToken(s, i, dotted, afterLiteral).end..])
  {
    var range := RangeAt(s, i, '}');
    if range.Some? {
      EndAfter(s, i, range.value.end);
    } else {
      SetParity(s, i, if At(s, i + 1) == '^' then i + 2 else i + 1);
    }
  }

  lemma SetParity(s: string, i: nat, first: nat)
    requires i < first <= |s| && SetChars(s, first, first).Closed?
    ensures Run(s[i..]) == Run(s[SetChars(s, first, first).end + 1..])
  {
    SetClosed(s, first, first);
    EndAfter(s, i, SetChars(s, first, first).end);
  }

  /** Every step keeps the parity, and reads past the end only if it is odd. */
  lemma TokenParity(s: string, i: nat, dotted: bool, afterLiteral: bool)
    requires i < |s|
    ensures match NextToken(s, i, dotted, afterLiteral)
      case Token(_, end) => OddEnd(s, i) == OddEnd(s, end)
      case Overrun => OddEnd(s, i)
      case UnmatchedBrace => true
  {
    var t := NextToken(s, i, dotted, afterLiteral);
    match s[i]
    case '?' => EndAfter(s, i, i);
    case '*' =>
      EndAfter(s, i, i);
      if At(s, i + 1) == '*' {
        EndAfter(s, i + 1, i + 1);
      }
    case '{' =>
      if t.Token? {
        BraceParity(s, i, dotted, afterLiteral);
      }
    case '[' =>
      if afterLiteral && RangeAt(s, i, ']').Some? {
        EndAfter(s, i, RangeAt(s, i, ']').value.end);
      } else {
        LiteralParity(s, i);
      }
    case _ => LiteralParity(s, i);
  }

  lemma {:induction false} OverreadFrom(s: string, i: nat, dotted: bool, acc: seq<Elem>)
    requires i <= |s|
    ensures Tokenize(s, i, dotted, acc).Overread? ==> OddEnd(s, i)
    ensures Tokenize(s, i, dotted, acc).Tokens? ==> !OddEnd(s, i)
    decreases |s| - i, if EndsInLiteral(acc) then 0 else 1
  {
    if i < |s| {
      TokenParity(s, i, dotted, EndsInLiteral(acc));
      var t := NextToken(s, i, dotted, EndsInLiteral(acc));
      if t.Token? {
        OverreadFrom(s, t.end, dotted, acc + [t.elem]);
      }
    }
  }

  /** Unless a brace is unmatched, a pattern is read past its end if and only if it ends in an odd number
      of backslashes. */
  lemma OverreadExact(s: string, dotted: bool)
    ensures var t := Tokenize(s, 0, dotted, []);
      t.Unmatched? || (t.Overread? <==> Run(s) % 2 == 1)
    ensures Tokenize(s, 0, dotted, []).Overread? ==> Run(s) % 2 == 1
  {
    OverreadFrom(s, 0, dotted, []);
    assert s[0..] == s;
  }

  /** One backslash is read past its end, two are the literal of one. */
  lemma BackslashWitness(dotted: bool)
    ensures Tokenize("\\", 0, dotted, []) == Overread
    ensures Tokenize("\\\\", 0, dotted, []) == Tokens([Literal("\\")])
  {
    var s := "\\\\";
    assert LiteralAt(s, 2) == Read("", 2);
    assert LiteralAt(s, 0) == Read(['\\'] + "", 2);
    assert NextToken(s, 0, dotted, false) == Token(Literal("\\"), 2);
    assert [] + [Literal("\\")] == [Literal("\\")];
    assert Tokenize(s, 2, dotted, [Literal("\\")]) == Tokens([Literal("\\")]);
  }

  // ---------- escaping ----------

  /** Every character after a backslash. */
  function Escape(s: string): (r: string)
    ensures |r| == 2 * |s|
  {
    if s == "" then "" else ['\\', s[0]] + Escape(s[1..])
  }

  lemma {:induction false} EscapeAt(s: string, i: nat)
    requires i < |s|
    ensures Escape(s)[2 * i] == '\\' && Escape(s)[2 * i + 1] == s[i]
  {
    if i > 0 {
      EscapeAt(s[1..], i - 1);
    }
  }

  /** An escaped text is one literal, brackets and number ranges included. */
  lemma {:induction false} EscapedLiteral(s: string, i: nat)
    requires i <= |s|
    ensures LiteralAt(Escape(s), 2 * i) == Read(s[i..], 2 * |s|)
    decreases |s| - i
  {
    var r := Escape(s);
    if i < |s| {
      EscapeAt(s, i);
      EscapedLiteral(s, i + 1);
      assert RangeAt(r, 2 * i + 1, ']') == None by {
        if i + 1 < |s| {
          EscapeAt(s, i + 1);
        }
      }
      assert s[i..] == [s[i]] + s[i + 1..];
    }
  }

  lemma EscapedTokens(s: string, dotted: bool)
    ensures Tokenize(Escape(s), 0, dotted, []) == Tokens(if s == "" then [] else [Literal(s)])
  {
    var r := Escape(s);
    if s != "" {
      EscapeAt(s, 0);
      EscapedLiteral(s, 0);
      assert NextToken(r, 0, dotted, false) == Token(Literal(s), |r|);
      assert [] + [Literal(s)] == [Literal(s)];
      assert Tokenize(r, |r|, dotted, [Literal(s)]) == Tokens([Literal(s)]);
    }
  }

  /** An escaped text as a full-string pattern describes that text and nothing else ... */
  lemma EscapedMatchesItself(s: string, dotted: bool, line: string)
    ensures Tokenize(Escape(s), 0, dotted, []).Tokens?
    ensures var p := Completed(Tokenize(Escape(s), 0, dotted, []).elems, true);
      AllEven(p) && (InLanguage(p, line) <==> line == s)
  {
    EscapedTokens(s, dotted);
    if s == "" {
      EndOnly([End], line);
    } else {
      LiteralEnd([Literal(s), End], line);
    }
  }

  predicate OccursAt(s: string, line: string, i: int) {
    0 <= i <= |line| - |s| && line[i..i + |s|] == s
  }

  lemma LiteralThenAny(p: seq<Elem>, s: string, line: string, i: nat)
    requires p == [Literal(s), AnySeq, End] && i <= |line|
    ensures InLanguage(p, line[i..]) <==> OccursAt(s, line, i)
  {
    AfterLiteral(p, line[i..]);
    assert p[1..] == [AnySeq, End];
    if s <= line[i..] {
      TrailingAnySeq([AnySeq, End], line[i..][|s|..]);
    }
  }

  /** ... and as a substring pattern the lines that contain it. */
  lemma EscapedFindsSubstring(s: string, dotted: bool, line: string)
    ensures Tokenize(Escape(s), 0, dotted, []).Tokens?
    ensures var p := Completed(Tokenize(Escape(s), 0, dotted, []).elems, false);
      AllEven(p) && (InLanguage(p, line) <==> exists i :: OccursAt(s, line, i))
  {
    EscapedTokens(s, dotted);
    var p := Completed(Tokenize(Escape(s), 0, dotted, []).elems, false);
    if s == "" {
      TrailingAnySeq([AnySeq, End], line);
      assert OccursAt(s, line, 0);
    } else {
      assert p == [AnySeq, Literal(s), AnySeq, End];
      assert p[1..] == [Literal(s), AnySeq, End] && p[1..][1..] == [AnySeq, End];
      forall i | 0 <= i <= |line|
        ensures InLanguage(p[1..], line[i..]) <==> OccursAt(s, line, i)
      {
        LiteralThenAny(p[1..], s, line, i);
      }
      assert forall i :: 0 <= i <= |line| ==> Cut(p, line, i);
    }
  }

  // ---------- escaping only the special characters ----------

  predicate Special(c: char) {
    c == '?' || c == '*' || c == '{' || c == '[' || c == '\\'
  }

  function Quoted(c: char): string {
    if Special(c) then ['\\', c] else [c]
  }

  /** A backslash before each character that has a special meaning, as the documentation asks for. */
  function EscapeSpecial(s: string): string {
    if s == "" then "" else EscapeSpecial(s[..|s| - 1]) + Quoted(s[|s| - 1])
  }

  /** Character i of the text, with its backslash, stands between positions pos[i] and pos[i + 1] of r. */
  predicate PlacedAt(s: string, r: string, pos: seq<nat>, i: nat)
    requires i < |s| && |pos| == |s| + 1
  {
    if Special(s[i]) then pos[i] + 2 == pos[i + 1] <= |r| && r[pos[i]] == '\\' && r[pos[i] + 1] == s[i]
    else pos[i] + 1 == pos[i + 1] <= |r| && r[pos[i]] == s[i]
  }

  predicate Placed(s: string, r: string, pos: seq<nat>) {
    && |pos| == |s| + 1 && pos[0] == 0 && pos[|s|] == |r|
    && forall i :: 0 <= i < |s| ==> PlacedAt(s, r, pos, i)
  }

  lemma {:induction false} Places(s: string) returns (pos: seq<nat>)
    ensures Placed(s, EscapeSpecial(s), pos)
  {
    if s == "" {
      pos := [0];
    } else {
      var s', r, r' := s[..|s| - 1], EscapeSpecial(s), EscapeSpecial(s[..|s| - 1]);
      var pos' := Places(s');
      pos := pos' + [|r|];
      assert r == r' + Quoted(s[|s'|]);
      forall i | 0 <= i < |s|
        ensures PlacedAt(s, r, pos, i)
      {
        if i < |s'| {
          assert PlacedAt(s', r', pos', i);
        }
      }
    }
  }

  /** Characters without special meaning stand where they stood. */
  lemma PlainAt(s: string, r: string, pos: seq<nat>, i: nat, c: char)
    requires Placed(s, r, pos) && i <= |s| && !Special(c) && c != '\0'
    ensures pos[i] <= |r|
    ensures At(r, pos[i]) == c <==> At(s, i) == c
    ensures At(s, i) == c ==> i < |s| && pos[i + 1] == pos[i] + 1
  {
    if i < |s| {
      assert PlacedAt(s, r, pos, i);
    }
  }

  lemma {:induction false} DigitsPlaced(s: string, r: string, pos: seq<nat>, i: nat)
    requires Placed(s, r, pos) && i <= |s|
    ensures pos[i] <= |r| && DigitsEnd(r, pos[i]) == pos[DigitsEnd(s, i)]
    decreases |s| - i
  {
    PlainAt(s, r, pos, i, '.');
    var c := At(r, pos[i]);
    if IsDigit(c) {
      PlainAt(s, r, pos, i, c);
    }
    if IsDigit(At(s, i)) {
      PlainAt(s, r, pos, i, s[i]);
      DigitsPlaced(s, r, pos, i + 1);
    }
  }

  predicate OpensRange(s: string, i: nat)
    requires i < |s|
  {
    s[i] == '[' && RangeAt(s, i, ']').Some?
  }

  /** A range is recognised by its two dots and its closing character. */
  lemma RangeMoved(s: string, i: nat, r: string, q: nat, j: nat, j': nat)
    requires i < |s| && q < |r| && s[i] == r[q] && DigitsEnd(s, i + 1) == j && DigitsEnd(r, q + 1) == j'
    requires At(s, j) == '.' <==> At(r, j') == '.'
    requires At(s, j) == '.' ==> (At(s, j + 1) == '.' <==> At(r, j' + 1) == '.')
    requires At(s, j) == '.' && At(s, j + 1) == '.'
      ==> (At(s, DigitsEnd(s, j + 2)) == ']' <==> At(r, DigitsEnd(r, j' + 2)) == ']')
    ensures OpensRange(s, i) <==> OpensRange(r, q)
  {
  }

  lemma SecondBound(s: string, r: string, pos: seq<nat>, j: nat)
    requires Placed(s, r, pos) && j <= |s| && At(s, j) == '.' && At(s, j + 1) == '.'
    ensures pos[j] + 2 <= |r|
    ensures At(s, DigitsEnd(s, j + 2)) == ']' <==> At(r, DigitsEnd(r, pos[j] + 2)) == ']'
  {
    PlainAt(s, r, pos, j, '.');
    PlainAt(s, r, pos, j + 1, '.');
    DigitsPlaced(s, r, pos, j + 2);
    PlainAt(s, r, pos, DigitsEnd(s, j + 2), ']');
  }

  /** A bracket opens a range in the escaped text exactly if it opens one in the text itself. */
  lemma RangePlaced(s: string, r: string, pos: seq<nat>, i: nat)
    requires Placed(s, r, pos) && i < |s| && s[i] == '['
    ensures pos[i] + 1 < |r| && (OpensRange(r, pos[i] + 1) <==> OpensRange(s, i))
  {
    assert PlacedAt(s, r, pos, i);
    DigitsPlaced(s, r, pos, i + 1);
    var j := DigitsEnd(s, i + 1);
    PlainAt(s, r, pos, j, '.');
    if At(s, j) == '.' {
      PlainAt(s, r, pos, j + 1, '.');
      if At(s, j + 1) == '.' {
        SecondBound(s, r, pos, j);
      }
    }
    RangeMoved(s, i, r, pos[i] + 1, j, pos[j]);
  }

  /** Up to n, no bracket of the text opens a number range. */
  predicate NoRange(s: string, n: nat)
    requires n <= |s|
  {
    forall i :: 0 <= i < n ==> !OpensRange(s, i)
  }

  /** The first bracket that opens a range, or the end of the text. */
  predicate RangeFirst(s: string, n: nat) {
    n <= |s| && NoRange(s, n) && (n < |s| ==> OpensRange(s, n))
  }

  /** One character of a literal, with or without a backslash before it. */
  lemma LiteralStep(r: string, q: nat, j: nat, t: string, end: nat)
    requires q < |r| && j < |r| && if r[q] == '\\' then j == q + 1 else j == q && !Special(r[q])
    requires !OpensRange(r, j) && LiteralAt(r, j + 1) == Read(t, end)
    ensures LiteralAt(r, q) == Read([r[j]] + t, end)
  {
  }

  lemma LiteralStops(r: string, q: nat)
    requires q + 1 < |r| && r[q] == '\\' && OpensRange(r, q + 1)
    ensures LiteralAt(r, q) == Read("[", q + 1)
  {
  }

  lemma Cons(s: string, i: nat, n: nat)
    requires i < n <= |s|
    ensures s[i..n] == [s[i]] + s[i + 1..n]
  {
  }

  /** From position i the literal goes on to the first bracket that opens a range, which is its last
      character and stays unread, or to the end. */
  lemma {:induction false} LiteralPlaced(s: string, r: string, pos: seq<nat>, i: nat, n: nat)
    requires Placed(s, r, pos) && RangeFirst(s, n) && i <= n
    ensures pos[i] <= |r|
    ensures LiteralAt(r, pos[i]) == if n < |s| then Read(s[i..n + 1], pos[n] + 1) else Read(s[i..|s|], |r|)
    decreases n - i
  {
    if i < |s| {
      assert PlacedAt(s, r, pos, i);
      if s[i] == '[' {
        RangePlaced(s, r, pos, i);
      }
      if i < n {
        LiteralPlaced(s, r, pos, i + 1, n);
        var stop, end := if n < |s| then n + 1 else |s|, if n < |s| then pos[n] + 1 else |r|;
        LiteralStep(r, pos[i], pos[i + 1] - 1, s[i + 1..stop], end);
        Cons(s, i, stop);
      } else {
        LiteralStops(r, pos[i]);
      }
    }
  }

  lemma {:induction false} TokenizeExtends(s: string, i: nat, dotted: bool, acc: seq<Elem>)
    requires i <= |s| && Tokenize(s, i, dotted, acc).Tokens?
    ensures acc <= Tokenize(s, i, dotted, acc).elems
    decreases |s| - i, if EndsInLiteral(acc) then 0 else 1
  {
    if i < |s| {
      var t := NextToken(s, i, dotted, EndsInLiteral(acc));
      TokenizeExtends(s, t.end, dotted, acc + [t.elem]);
    }
  }

  lemma {:induction false} FirstRange(s: string, i: nat) returns (n: nat)
    requires i <= |s| && NoRange(s, i)
    ensures RangeFirst(s, n)
    decreases |s| - i
  {
    if i == |s| || OpensRange(s, i) {
      n := i;
    } else {
      n := FirstRange(s, i + 1);
    }
  }

  /** The first element is a literal that ends with the first bracket opening a range. */
  lemma FirstToken(s: string, r: string, pos: seq<nat>, n: nat, dotted: bool)
    requires Placed(s, r, pos) && RangeFirst(s, n) && s != ""
    ensures r != ""
    ensures NextToken(r, 0, dotted, false) ==
      if n < |s| then Token(Literal(s[..n + 1]), pos[n] + 1) else Token(Literal(s), |r|)
  {
    assert PlacedAt(s, r, pos, 0);
    LiteralPlaced(s, r, pos, 0, n);
  }

  /** The closing character of a number range starts a literal of its own. */
  lemma ClosingStarts(r: string, k: nat, dotted: bool)
    requires k < |r| && r[k] == ']'
    ensures var t := NextToken(r, k, dotted, false);
      t.Overrun? || (t.Token? && t.elem.Literal? && t.elem.text != "" && t.elem.text[0] == ']')
  {
  }

  /** With a range, the escaped text gives a literal, a number range and another literal. */
  lemma RangeSplits(s: string, r: string, pos: seq<nat>, n: nat, dotted: bool)
    requires Placed(s, r, pos) && RangeFirst(s, n) && n < |s|
    ensures var t := Tokenize(r, 0, dotted, []);
      t.Tokens? ==>
        && |t.elems| >= 3 && t.elems[0] == Literal(s[..n + 1]) && t.elems[1].NumRange?
        && t.elems[2].Literal? && t.elems[2].text != "" && t.elems[2].text[0] == ']'
  {
    FirstToken(s, r, pos, n, dotted);
    RangePlaced(s, r, pos, n);
    var q := pos[n] + 1;
    var range := RangeAt(r, q, ']').value;
    var a, b := [Literal(s[..n + 1])], [Literal(s[..n + 1]), NumRange(range.lo, range.up)];
    assert [] + [Literal(s[..n + 1])] == a && a + [NumRange(range.lo, range.up)] == b;
    assert Tokenize(r, 0, dotted, []) == Tokenize(r, q, dotted, a);
    assert Tokenize(r, q, dotted, a) == Tokenize(r, range.end, dotted, b);
    ClosingStarts(r, range.end, dotted);
    var t := NextToken(r, range.end, dotted, false);
    if t.Token? && Tokenize(r, range.end, dotted, b).Tokens? {
      TokenizeExtends(r, t.end, dotted, b + [t.elem]);
    }
  }

  /** Escaping the special characters makes a text one literal exactly when no bracket in it opens a
      number range. */
  lemma EscapedSpecialTokens(s: string, dotted: bool)
    ensures Tokenize(EscapeSpecial(s), 0, dotted, []) == Tokens(if s == "" then [] else [Literal(s)]) <==>
      NoRange(s, |s|)
  {
    var r := EscapeSpecial(s);
    var pos := Places(s);
    var n := FirstRange(s, 0);
    if n < |s| {
      RangeSplits(s, r, pos, n, dotted);
    } else if s != "" {
      FirstToken(s, r, pos, n, dotted);
      assert [] + [Literal(s)] == [Literal(s)];
      assert Tokenize(r, |r|, dotted, [Literal(s)]) == Tokens([Literal(s)]);
    }
  }

  /** In the text, the digits after the bracket are followed by a dot. */
  lemma DotAfterDigits(s: string, n: nat)
    requires n < |s| && OpensRange(s, n)
    ensures var rest := s[n + 1..]; var m := DigitRun(rest); m < |rest| && rest[m] == '.'
  {
    var rest, j := s[n + 1..], DigitsEnd(s, n + 1);
    assert rest[..j - n - 1] == s[n + 1..j];
    assert rest[j - n - 1] == s[j];
    RunUnique(rest, j - n - 1);
  }

  lemma AfterPrefix(p: seq<Elem>, s: string, n: nat)
    requires AllEven(p) && p != [] && n < |s| && p[0] == Literal(s[..n + 1])
    ensures InLanguage(p, s) <==> InLanguage(p[1..], s[n + 1..])
  {
    var t := s[..n + 1];
    assert t <= s && |t| == n + 1;
    AfterLiteral(p, s);
  }

  lemma NotBeforeDot(p: seq<Elem>, line: string)
    requires AllEven(p) && p != [] && p[0].Literal? && p[0].text != "" && p[0].text[0] == ']'
    requires line != "" && line[0] == '.'
    ensures !InLanguage(p, line)
  {
    AfterLiteral(p, line);
  }

  /** A number range never takes the dots that it is written with. */
  lemma RangeNotItself(s: string, n: nat, p: seq<Elem>)
    requires n < |s| && OpensRange(s, n) && AllEven(p) && |p| >= 3
    requires p[0] == Literal(s[..n + 1]) && p[1].NumRange?
    requires p[2].Literal? && p[2].text != "" && p[2].text[0] == ']'
    ensures !InLanguage(p, s)
  {
    var p', rest := p[1..], s[n + 1..];
    AfterPrefix(p, s, n);
    AfterNumber(p', rest);
    DotAfterDigits(s, n);
    NotBeforeDot(p'[1..], rest[DigitRun(rest)..]);
  }

  /** As a full-string pattern the escaped text describes that text and nothing else, if and only if no
      bracket in it opens a number range; otherwise it does not even describe the text. */
  lemma EscapedSpecialMatches(s: string, dotted: bool)
    ensures var t := Tokenize(EscapeSpecial(s), 0, dotted, []);
      if NoRange(s, |s|) then
        t.Tokens? && var p := Completed(t.elems, true); AllEven(p) && forall line :: InLanguage(p, line) <==> line == s
      else
        t.Tokens? ==> var p := Completed(t.elems, true); AllEven(p) && !InLanguage(p, s)
  {
    var r := EscapeSpecial(s);
    var pos := Places(s);
    var n := FirstRange(s, 0);
    var t := Tokenize(r, 0, dotted, []);
    EscapedSpecialTokens(s, dotted);
    if NoRange(s, |s|) {
      var p := Completed(t.elems, true);
      forall line
        ensures AllEven(p) && (InLanguage(p, line) <==> line == s)
      {
        if s == "" {
          EndOnly(p, line);
        } else {
          LiteralEnd(p, line);
        }
      }
    } else if t.Tokens? {
      RangeSplits(s, r, pos, n, dotted);
      TokensHaveNoEnd(r, 0, dotted, []);
      RangeNotItself(s, n, Completed(t.elems, true));
    }
  }

  /** A backslash before a single bracket does not take away its meaning when a number range follows:
      the escaped bracket is read as a literal and then again as the start of the range. */
  lemma EscapedBracketStillRange()
    ensures Tokenize("\\[1..2]", 0, true, []) == Tokens([Literal("["), NumRange(1, 2), Literal("]")])
  {
    var s := "\\[1..2]";
    assert DigitsEnd(s, 2) == 3 && DigitsEnd(s, 5) == 6;
    assert s[2..3] == "1" && s[5..6] == "2";
    assert Number("1") == Number("1"[..0]) * 10 + 1 && Number("2") == Number("2"[..0]) * 10 + 2;
    assert RangeAt(s, 1, ']') == Some(Range(1, 2, 6));
    assert LiteralAt(s, 0) == Read("[", 1);
    assert NextToken(s, 0, true, false) == Token(Literal("["), 1);
    assert NextToken(s, 1, true, true) == Token(NumRange(1, 2), 6);
    assert LiteralAt(s, 7) == Read("", 7);
    assert LiteralAt(s, 6) == Read("]", 7);
    assert NextToken(s, 6, true, false) == Token(Literal("]"), 7);
    var a, b, c := [Literal("[")], [Literal("["), NumRange(1, 2)], [Literal("["), NumRange(1, 2), Literal("]")];
    assert [] + [Literal("[")] == a && a + [NumRange(1, 2)] == b && b + [Literal("]")] == c;
    assert Tokenize(s, 7, true, c) == Tokens(c);
    assert Tokenize(s, 6, true, b) == Tokens(c);
    assert Tokenize(s, 1, true, a) == Tokens(c);
  }
}
