/** The glob matcher: tokenizing a pattern and backtracking over a line, with its short cuts.
    Case-sensitive mode. */
module PatternMatching {
  import opened Options
  import opened PatternLanguage
  import opened PatternSyntax
  import opened Texts

  class PatternMatcher {
    var pattern: seq<Elem>

    ghost predicate Valid()
      reads this
    {
      OneEnd(pattern)
    }

    constructor ()
      ensures pattern == []
    {
      pattern := [];
    }

    /** The number that starts at position i (atol). */
    static method Atol(s: string, i: nat) returns (n: int)
      requires i <= |s|
      ensures n == Number(s[i..DigitsEnd(s, i)])
    {
      n := 0;
      var j := i;
      while j < |s| && IsDigit(s[j])
        invariant i <= j <= DigitsEnd(s, i) && DigitsEnd(s, j) == DigitsEnd(s, i) && n == Number(s[i..j])
        decreases |s| - j
      {
        assert s[i..j + 1][..j - i] == s[i..j];
        n := n * 10 + (s[j] as int - '0' as int);
        j := j + 1;
      }
    }

    static method SkipDigits(s: string, i: nat) returns (j: nat)
      requires i <= |s|
      ensures j == DigitsEnd(s, i)
    {
      j := i;
      while IsDigit(At(s, j))
        invariant i <= j <= |s| && DigitsEnd(s, j) == DigitsEnd(s, i)
        decreases |s| - j
      {
        j := j + 1;
      }
    }

    static method ParseNumRange(s: string, start: nat, closing: char) returns (ok: bool, end: nat, lo: int, up: int)
      requires start < |s| && closing != '\0'
      ensures ok <==> RangeAt(s, start, closing).Some?
      ensures ok ==> RangeAt(s, start, closing) == Some(Range(lo, up, end))
      ensures !ok ==> end == start
    {
      lo, up := -1, -1;
      var i := start + 1;
      if IsDigit(At(s, i)) {
        lo := Atol(s, i);
        i := SkipDigits(s, i);
      }
      if At(s, i) != '.' || At(s, i + 1) != '.' {
        return false, start, lo, up;
      }
      i := i + 2;
      if IsDigit(At(s, i)) {
        up := Atol(s, i);
        i := SkipDigits(s, i);
      }
      if At(s, i) != closing {
        return false, start, lo, up;
      }
      return true, i, lo, up;
    }

    static method ParseLiteralString(s: string, start: nat) returns (r: LiteralResult)
      requires start <= |s|
      ensures r == LiteralAt(s, start)
    {
      var i, text := start, "";
      while i < |s| && s[i] != '?' && s[i] != '{' && s[i] != '*'
        invariant start <= i <= |s|
        invariant LiteralAt(s, start) == Prefixed(text, LiteralAt(s, i))
        decreases |s| - i
      {
        ghost var at := i;
        if s[i] == '\\' {
          i := i + 1;
          if i == |s| {
            return PastEnd;
          }
        }
        LiteralTurn(s, at, i, text);
        text := text + [s[i]];
        if s[i] == '[' {
          var ok, _, _, _ := ParseNumRange(s, i, ']');
          if ok {
            return Read(text, i);
          }
        }
        i := i + 1;
      }
      assert text + "" == text;
      r := Read(text, i);
    }

    static lemma LiteralTurn(s: string, i: nat, j: nat, text: string)
      requires i <= j < |s| && !EndsLiteral(s[i]) && j == if s[i] == '\\' then i + 1 else i
      ensures Prefixed(text, LiteralAt(s, i)) ==
        if s[j] == '[' && RangeAt(s, j, ']').Some? then Read(text + [s[j]], j)
        else Prefixed(text + [s[j]], LiteralAt(s, j + 1))
    {
      PrefixedTwice(text, s[j], LiteralAt(s, j + 1));
    }

    static ghost function Prefixed(text: string, r: LiteralResult): LiteralResult {
      match r
      case Read(t, end) => Read(text + t, end)
      case PastEnd => PastEnd
    }

    static lemma PrefixedTwice(text: string, c: char, r: LiteralResult)
      ensures Prefixed(text, Prefixed([c], r)) == Prefixed(text + [c], r)
    {
      if r.Read? {
        assert text + ([c] + r.text) == (text + [c]) + r.text;
      }
    }

    static method ParseSet(s: string, start: nat, ghost dotted: bool, ghost afterLiteral: bool) returns (r: Token)
      requires start < |s| && s[start] == '{' && RangeAt(s, start, '}') == None
      ensures r == NextToken(s, start, dotted, afterLiteral)
    {
      var i, negated := start + 1, false;
      if At(s, i) == '^' {
        negated := true;
        i := i + 1;
      }
      var first, chars := i, "";
      ghost var all := SetChars(s, first, first);
      SetTokenIs(s, start, dotted, afterLiteral);
      while i < |s| && (s[i] != '}' || i == first)
        invariant first <= i <= |s| && all == PrefixedSet(chars, SetChars(s, first, i))
        decreases |s| - i
      {
        SetStep(s, first, i, chars);
        if At(s, i + 1) == '-' && i + 2 < |s| && At(s, i + 2) != '}' {
          chars := chars + [s[i], s[i + 2]];
          i := i + 3;
        } else {
          chars := chars + [s[i], s[i]];
          i := i + 1;
        }
      }
      SetEnds(s, first, i, chars);
      if i == |s| {
        return UnmatchedBrace;
      }
      r := Token(if negated then NegSet(chars) else Set(chars), i + 1);
    }

    static ghost function SetToken(negated: bool, r: SetResult): Token {
      match r
      case Unclosed => UnmatchedBrace
      case Closed(chars, end) => Token(if negated then NegSet(chars) else Set(chars), end + 1)
    }

    static lemma SetTokenIs(s: string, start: nat, dotted: bool, afterLiteral: bool)
      requires start < |s| && s[start] == '{' && RangeAt(s, start, '}') == None
      ensures var negated := At(s, start + 1) == '^';
        var first := if negated then start + 2 else start + 1;
        NextToken(s, start, dotted, afterLiteral) == SetToken(negated, SetChars(s, first, first))
    {
    }

    static lemma SetEnds(s: string, first: nat, i: nat, chars: string)
      requires first <= i <= |s| && (i == |s| || (s[i] == '}' && i != first))
      ensures PrefixedSet(chars, SetChars(s, first, i)) == if i == |s| then Unclosed else Closed(chars, i)
    {
      assert chars + "" == chars;
    }

    static lemma SetStep(s: string, first: nat, i: nat, chars: string)
      requires first <= i < |s| && (s[i] != '}' || i == first)
      ensures var isRange := At(s, i + 1) == '-' && i + 2 < |s| && At(s, i + 2) != '}';
        var next, pair := if isRange then i + 3 else i + 1, if isRange then [s[i], s[i + 2]] else [s[i], s[i]];
        PrefixedSet(chars, SetChars(s, first, i)) == PrefixedSet(chars + pair, SetChars(s, first, next))
    {
      var isRange := At(s, i + 1) == '-' && i + 2 < |s| && At(s, i + 2) != '}';
      var next, pair := if isRange then i + 3 else i + 1, if isRange then [s[i], s[i + 2]] else [s[i], s[i]];
      PrefixedSetTwice(chars, pair, SetChars(s, first, next));
    }

    static ghost function PrefixedSet(chars: string, r: SetResult): SetResult {
      match r
      case Closed(t, end) => Closed(chars + t, end)
      case Unclosed => Unclosed
    }

    static lemma PrefixedSetTwice(chars: string, pair: string, r: SetResult)
      ensures PrefixedSet(chars, PrefixedSet(pair, r)) == PrefixedSet(chars + pair, r)
    {
      if r.Closed? {
        assert chars + (pair + r.chars) == (chars + pair) + r.chars;
      }
    }

    /** One turn of the tokenizer. */
    static method ParseElement(s: string, i: nat, dotted: bool, afterLiteral: bool) returns (t: Token)
      requires i < |s|
      ensures t == NextToken(s, i, dotted, afterLiteral)
    {
      match s[i]
      case '?' =>
        t := Token(if dotted then CommonChar else AnyChar, i + 1);
      case '[' =>
        var ok, end, lo, up := false, i, -1, -1;
        if afterLiteral {
          ok, end, lo, up := ParseNumRange(s, i, ']');
        }
        if ok {
          t := Token(NumRange(lo, up), end);
        } else {
          t := ParseLiteral(s, i);
        }
      case '{' =>
        var ok, end, lo, up := ParseNumRange(s, i, '}');
        if ok {
          t := Token(NumRange(lo, up), end + 1);
        } else {
          t := ParseSet(s, i, dotted, afterLiteral);
        }
      case '*' =>
        if At(s, i + 1) == '*' {
          t := Token(AnySeq, i + 2);
        } else {
          t := Token(if dotted then CommonSeq else AnySeq, i + 1);
        }
      case _ =>
        t := ParseLiteral(s, i);
    }

    static method ParseLiteral(s: string, i: nat) returns (t: Token)
      requires i <= |s|
      ensures t == LiteralToken(s, i)
    {
      var r := ParseLiteralString(s, i);
      t := match r case Read(text, end) => Token(Literal(text), end) case PastEnd => Overrun;
    }

    /** Replaces the pattern.  On a missing brace the source throws with the elements read so far in place;
        Overread stands for reading past the end of the text, which a pattern without an unmatched brace
        causes exactly by ending in an odd number of backslashes. */
    method SetPattern(patt: string, dotted: bool, fullstring: bool) returns (outcome: Outcome)
      modifies this
      ensures outcome == Tokenize(patt, 0, dotted, [])
      ensures outcome.Tokens? ==> Valid() && pattern == Completed(outcome.elems, fullstring)
      ensures outcome.Unmatched? || (outcome.Overread? <==> Run(patt) % 2 == 1)
    {
      OverreadExact(patt, dotted);
      pattern := [];
      var i := 0;
      while i < |patt|
        invariant 0 <= i <= |patt|
        invariant Tokenize(patt, 0, dotted, []) == Tokenize(patt, i, dotted, pattern)
        decreases |patt| - i, if EndsInLiteral(pattern) then 0 else 1
      {
        var t := ParseElement(patt, i, dotted, pattern != [] && pattern[|pattern| - 1].Literal?);
        if t.UnmatchedBrace? {
          return Unmatched;
        } else if t.Overrun? {
          return Overread;
        }
        i := t.end;
        pattern := pattern + [t.elem];
      }
      outcome := Tokens(pattern);
      CompletedOneEnd(patt, dotted, fullstring);
      if !fullstring {
        if pattern == [] || !pattern[|pattern| - 1].AnySeq? {
          pattern := pattern + [AnySeq];
        }
        if !pattern[0].AnySeq? {
          pattern := [AnySeq] + pattern;
        }
      }
      pattern := pattern + [End];
    }

    static method IsInSet(c: char, set_: string) returns (r: bool)
      requires |set_| % 2 == 0
      ensures r <==> InSet(c, set_)
    {
      var i := 0;
      while i < |set_|
        invariant 0 <= i <= |set_| && i % 2 == 0
        invariant InSet(c, set_) <==> InSet(c, set_[i..])
      {
        if c >= set_[i] && c <= set_[i + 1] {
          return true;
        }
        assert set_[i..][2..] == set_[i + 2..];
        i := i + 2;
      }
      return false;
    }

    /** Matches the rest of the line against the rest of the pattern. */
    method DoMatch(line: string, start: nat, first: nat) returns (m: bool)
      requires Valid() && start <= |line| && first < |pattern|
      ensures m <==> InLanguage(pattern[first..], line[start..])
      decreases |pattern| - first, 1
    {
      var s, k := start, first;
      while true
        invariant 0 <= s <= |line| && first <= k < |pattern|
        invariant InLanguage(pattern[first..], line[start..]) <==> InLanguage(pattern[k..], line[s..])
        decreases |pattern| - k
      {
        var e := pattern[k];
        match e {
          case Literal(text) =>
            LiteralHere(line, s, k);
            if !(text <= line[s..]) {
              return false;
            }
            s := s + |text|;
          case AnyChar | CommonChar | Set(_) | NegSet(_) =>
            OneHere(line, s, k);
            var ok := MatchOne(line, s, k);
            if !ok {
              return false;
            }
            s := s + 1;
          case NumRange(from, to) =>
            var ok, end := MatchNumber(line, s, from, to, k);
            if !ok {
              return false;
            }
            s := end;
          case AnySeq =>
            if k == |pattern| - 2 {
              TrailingAnySeq(pattern[k..], line[s..]);
              return true;
            }
            if k == |pattern| - 3 && pattern[k + 1].Literal? {
              AnySeqLiteral(pattern[k..], line[s..]);
              return EndsWith(line[s..], pattern[k + 1].text);
            }
            m := TryAll(line, s, k, false);
            return;
          case CommonSeq =>
            m := TryAll(line, s, k, true);
            return;
          case End =>
            EndOnly(pattern[k..], line[s..]);
            return s == |line|;
        }
        k := k + 1;
      }
    }

    lemma LiteralHere(line: string, s: nat, k: nat)
      requires Valid() && s <= |line| && k < |pattern| && pattern[k].Literal?
      ensures k + 1 < |pattern|
      ensures var t := pattern[k].text;
        InLanguage(pattern[k..], line[s..]) <==> t <= line[s..] && InLanguage(pattern[k + 1..], line[s + |t|..])
    {
      AfterLiteral(pattern[k..], line[s..]);
      assert pattern[k..][1..] == pattern[k + 1..];
      var t := pattern[k].text;
      if t <= line[s..] {
        assert line[s..][|t|..] == line[s + |t|..];
      }
    }

    lemma OneHere(line: string, s: nat, k: nat)
      requires Valid() && s <= |line| && k < |pattern| && TakesOne(pattern[k])
      ensures k + 1 < |pattern|
      ensures InLanguage(pattern[k..], line[s..]) <==>
        s < |line| && Accepts(pattern[k], [line[s]], line[s + 1..]) && InLanguage(pattern[k + 1..], line[s + 1..])
    {
      AfterOne(pattern[k..], line[s..]);
      assert pattern[k..][1..] == pattern[k + 1..];
      if s < |line| {
        assert line[s..][..1] == [line[s]] && line[s..][1..] == line[s + 1..];
      }
    }

    /** The elements that take one character. */
    method MatchOne(line: string, s: nat, k: nat) returns (ok: bool)
      requires Valid() && s <= |line| && k < |pattern| && TakesOne(pattern[k])
      ensures ok <==> s < |line| && Accepts(pattern[k], [line[s]], line[s + 1..])
    {
      match pattern[k] {
        case AnyChar =>
          return s < |line|;
        case CommonChar =>
          return s < |line| && line[s] != '.';
        case Set(chars) =>
          if s == |line| {
            return false;
          }
          ok := IsInSet(line[s], chars);
        case NegSet(chars) =>
          if s == |line| {
            return false;
          }
          ok := IsInSet(line[s], chars);
          ok := !ok;
      }
    }

    /** A number: the whole run of digits. */
    method MatchNumber(line: string, s: nat, from: int, to: int, k: nat) returns (ok: bool, end: nat)
      requires Valid() && s <= |line| && k < |pattern| && pattern[k] == NumRange(from, to)
      ensures k + 1 < |pattern|
      ensures InLanguage(pattern[k..], line[s..]) <==> ok && end <= |line| && InLanguage(pattern[k + 1..], line[end..])
      ensures ok ==> s < end <= |line|
    {
      ghost var p, l := pattern[k..], line[s..];
      assert p[1..] == pattern[k + 1..];
      AfterNumber(p, l);
      if !IsDigit(At(line, s)) {
        return false, s;
      }
      var num := Atol(line, s);
      end := SkipDigits(line, s);
      assert line[s..][..end - s] == line[s..end] && line[s..][end - s..] == line[end..];
      RunUnique(l, end - s);
      ok := !((from >= 0 && num < from) || (to >= 0 && num > to));
    }

    /** The general case of "**" and of "*": every possible part in turn, up to a dot for the latter. */
    method TryAll(line: string, start: nat, k: nat, common: bool) returns (m: bool)
      requires Valid() && start <= |line| && k + 1 < |pattern| && pattern[k] == (if common then CommonSeq else AnySeq)
      ensures m <==> InLanguage(pattern[k..], line[start..])
      decreases |pattern| - k, 0
    {
      ghost var p, l := pattern[k..], line[start..];
      assert p[1..] == pattern[k + 1..];
      var s := start;
      while true
        invariant start <= s <= |line|
        invariant common ==> '.' !in line[start..s]
        invariant forall i :: 0 <= i < s - start ==> !InLanguage(p[1..], l[i..])
        decreases |line| - s
      {
        assert l[s - start..] == line[s..] && l[..s - start] == line[start..s];
        var found := DoMatch(line, s, k + 1);
        if found {
          assert Cut(p, l, s - start);
          return true;
        }
        if s == |line| || (common && line[s] == '.') {
          assert common && s < |line| ==> l[s - start] == '.';
          return false;
        }
        s := s + 1;
      }
    }

    /** A described line ends like the last literal. */
    lemma LastTwo(line: string)
      requires Valid() && |pattern| >= 2 && pattern[|pattern| - 2].Literal? && |pattern[|pattern| - 2].text| >= 2 &&
        |line| >= 2
      ensures var t := pattern[|pattern| - 2].text;
        InLanguage(pattern, line) ==> line[|line| - 1] == t[|t| - 1] && line[|line| - 2] == t[|t| - 2]
    {
      var t := pattern[|pattern| - 2].text;
      if InLanguage(pattern, line) {
        LastLiteral(pattern, line);
        assert line[|line| - |t|..][|t| - 1] == line[|line| - 1] && line[|line| - |t|..][|t| - 2] == line[|line| - 2];
      }
    }

    /** Whether the pattern describes the line. */
    method Matches(line: string) returns (m: bool)
      requires Valid()
      ensures m <==> InLanguage(pattern, line)
    {
      if |pattern| >= 2 {
        var e := pattern[|pattern| - 2];
        if e.Literal? {
          var n, len := |e.text|, |line|;
          if n >= 2 && len >= 2 && (line[len - 1] != e.text[n - 1] || line[len - 2] != e.text[n - 2]) {
            LastTwo(line);
            return false;
          }
        }
      }
      assert pattern[0..] == pattern && line[0..] == line;
      m := DoMatch(line, 0, 0);
    }
  }
}
