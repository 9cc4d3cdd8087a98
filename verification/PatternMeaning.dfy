/** What a pattern text means: the elements it is written for, and what every special form describes between
    two escaped texts. */
module PatternMeaning {
  import opened Options
  import opened Texts
  import opened PatternLanguage
  import opened PatternSyntax
  import opened Sequences

  // ---------- escaped texts ----------

  predicate EscapedChar(r: string, q: nat, s: string, i: nat)
    requires q + 2 * |s| <= |r| && i < |s|
  {
    r[q + 2 * i] == '\\' && r[q + 2 * i + 1] == s[i]
  }

  /** The text stands escaped at position q. */
  predicate EscapedAt(r: string, q: nat, s: string) {
    q + 2 * |s| <= |r| && forall i :: 0 <= i < |s| ==> EscapedChar(r, q, s, i)
  }

  lemma EscapeStands(r: string, q: nat, s: string)
    requires q + 2 * |s| <= |r| && r[q..q + 2 * |s|] == Escape(s)
    ensures EscapedAt(r, q, s)
  {
    forall i | 0 <= i < |s|
      ensures EscapedChar(r, q, s, i)
    {
      EscapeAt(s, i);
      assert r[q + 2 * i] == r[q..q + 2 * |s|][2 * i];
      assert r[q + 2 * i + 1] == r[q..q + 2 * |s|][2 * i + 1];
    }
  }

  lemma NoRangeBefore(r: string, k: nat)
    requires k < |r| && (var c := At(r, k + 1); !IsDigit(c) && c != '.')
    ensures !OpensRange(r, k)
  {
  }

  lemma ConsText(s: string, i: nat, t: string)
    requires i < |s|
    ensures s[i..] + t == [s[i]] + (s[i + 1..] + t)
  {
  }

  /** An escaped text starts a literal that goes on behind it. */
  lemma {:induction false} LiteralOn(r: string, q: nat, s: string, i: nat, t: string, end: nat)
    requires i <= |s| && EscapedAt(r, q, s) && LiteralAt(r, q + 2 * |s|) == Read(t, end)
    requires var c := At(r, q + 2 * |s|); !IsDigit(c) && c != '.'
    ensures LiteralAt(r, q + 2 * i) == Read(s[i..] + t, end)
    decreases |s| - i
  {
    if i < |s| {
      var k := q + 2 * i;
      assert EscapedChar(r, q, s, i);
      assert i + 1 < |s| ==> EscapedChar(r, q, s, i + 1);
      NoRangeBefore(r, k + 1);
      LiteralOn(r, q, s, i + 1, t, end);
      LiteralStep(r, k, k + 1, s[i + 1..] + t, end);
      ConsText(s, i, t);
    }
  }

  // ---------- number ranges ----------

  function RangeText(opening: char, lo: string, up: string, closing: char): string {
    [opening] + lo + ".." + up + [closing]
  }

  function BoundOf(digits: string): int {
    if digits == "" then -1 else Number(digits)
  }

  lemma {:induction false} DigitsStop(s: string, i: nat, j: nat)
    requires i <= j <= |s| && AllDigits(s[i..j]) && !IsDigit(At(s, j))
    ensures DigitsEnd(s, i) == j
    decreases j - i
  {
    if i < j {
      assert s[i..j][0] == s[i] && s[i..j][1..] == s[i + 1..j];
      DigitsStop(s, i + 1, j);
    }
  }

  lemma BoundRead(s: string, i: nat, j: nat, t: string)
    requires i <= j <= |s| && s[i..j] == t && AllDigits(t) && !IsDigit(At(s, j))
    ensures DigitsEnd(s, i) == j && Bound(s, i, j) == BoundOf(t)
  {
    DigitsStop(s, i, j);
  }

  lemma RangeFrom(r: string, q: nat, j: nat, k: nat, lo: string, up: string, closing: char)
    requires q < j && j + 2 <= k < |r| && r[q + 1..j] == lo && r[j + 2..k] == up
    requires r[j] == '.' && r[j + 1] == '.' && r[k] == closing && !IsDigit(closing) && closing != '\0'
    requires AllDigits(lo) && AllDigits(up)
    ensures RangeAt(r, q, closing) == Some(Range(BoundOf(lo), BoundOf(up), k))
  {
    BoundRead(r, q + 1, j, lo);
    BoundRead(r, j + 2, k, up);
  }

  lemma RangeRead(r: string, q: nat, opening: char, lo: string, up: string, closing: char)
    requires var w := RangeText(opening, lo, up, closing); q + |w| <= |r| && r[q..q + |w|] == w
    requires AllDigits(lo) && AllDigits(up) && !IsDigit(closing) && closing != '\0'
    ensures RangeAt(r, q, closing) == Some(Range(BoundOf(lo), BoundOf(up), q + |lo| + |up| + 3))
  {
    var w := RangeText(opening, lo, up, closing);
    RangeParts(opening, lo, up, closing);
    SliceOf(r, w, q, q + |w|, 1, 1 + |lo|);
    SliceOf(r, w, q, q + |w|, 3 + |lo|, |w| - 1);
    DotsAndClosing(r, q, w, |lo|, closing);
    RangeFrom(r, q, q + 1 + |lo|, q + |lo| + |up| + 3, lo, up, closing);
  }

  lemma DotsAndClosing(r: string, q: nat, w: string, n: nat, closing: char)
    requires q + |w| <= |r| && r[q..q + |w|] == w && n + 3 < |w|
    requires w[1 + n] == '.' && w[2 + n] == '.' && w[|w| - 1] == closing
    ensures r[q + 1 + n] == '.' && r[q + 2 + n] == '.' && r[q + |w| - 1] == closing
  {
  }

  lemma RangeParts(opening: char, lo: string, up: string, closing: char)
    ensures var w := RangeText(opening, lo, up, closing);
      && |w| == |lo| + |up| + 4 && w[0] == opening && w[1..1 + |lo|] == lo && w[1 + |lo|] == '.' && w[2 + |lo|] == '.'
      && w[3 + |lo|..|w| - 1] == up && w[|w| - 1] == closing
  {
  }

  // ---------- sets of characters ----------

  /** What is listed in a set: a character, or all from one to another. */
  datatype Member = One(c: char) | Span(low: char, high: char)

  function MemberText(m: Member): (t: string)
    ensures t != ""
  {
    match m
    case One(c) => [c]
    case Span(low, high) => [low, '-', high]
  }

  function MembersText(ms: seq<Member>): string {
    if ms == [] then "" else MemberText(ms[0]) + MembersText(ms[1..])
  }

  predicate Covers(m: Member, c: char) {
    match m
    case One(x) => c == x
    case Span(low, high) => low <= c <= high
  }

  predicate Holds(ms: seq<Member>, c: char) {
    exists k :: 0 <= k < |ms| && Covers(ms[k], c)
  }

  /** A closing brace stands first or not at all; a minus after a single character stands last. */
  predicate Listed(ms: seq<Member>, first: bool) {
    ms != [] ==>
      && (MemberText(ms[0])[0] == '}' ==> first) && (ms[0].Span? ==> ms[0].high != '}')
      && (ms[0].One? && |ms| > 1 && MemberText(ms[1])[0] == '-' ==> ms[1..] == [One('-')])
      && Listed(ms[1..], false)
  }

  function Pair(m: Member): (r: string)
    ensures |r| == 2
  {
    match m
    case One(c) => [c, c]
    case Span(low, high) => [low, high]
  }

  function Pairs(ms: seq<Member>): (r: string)
    ensures |r| == 2 * |ms|
  {
    if ms == [] then "" else Pair(ms[0]) + Pairs(ms[1..])
  }

  lemma {:induction false} PairsHold(ms: seq<Member>, c: char)
    ensures InSet(c, Pairs(ms)) <==> Holds(ms, c)
  {
    if ms != [] {
      PairsHold(ms[1..], c);
      assert Pairs(ms)[2..] == Pairs(ms[1..]);
      assert Holds(ms, c) <==> Covers(ms[0], c) || Holds(ms[1..], c) by {
        if k :| 0 <= k < |ms| && Covers(ms[k], c) && k > 0 {
          assert ms[1..][k - 1] == ms[k];
        }
        if k :| 0 <= k < |ms[1..]| && Covers(ms[1..][k], c) {
          assert ms[k + 1] == ms[1..][k];
        }
      }
    }
  }

  /** From position i on, the text lists the members and closes the set. */
  predicate ListedAt(r: string, i: nat, ms: seq<Member>) {
    var t := MembersText(ms) + "}";
    i + |t| <= |r| && r[i..i + |t|] == t
  }

  lemma TextStands(r: string, i: nat, t: string, m: string)
    requires i + |t| <= |r| && r[i..i + |t|] == t && m <= t
    ensures forall k :: 0 <= k < |m| ==> r[i + k] == m[k]
  {
    assert forall k :: 0 <= k < |m| ==> m[k] == t[k];
  }

  lemma TextOfMore(ms: seq<Member>)
    requires ms != []
    ensures MembersText(ms) + "}" == MemberText(ms[0]) + (MembersText(ms[1..]) + "}")
  {
  }

  lemma RestStands(r: string, i: nat, t: string, m: string, t': string)
    requires i + |t| <= |r| && r[i..i + |t|] == t && t == m + t'
    ensures r[i + |m|..i + |m| + |t'|] == t'
  {
    SliceOf(r, t, i, i + |t|, |m|, |t|);
    assert t[|m|..|t|] == t';
  }

  lemma NextListed(r: string, i: nat, ms: seq<Member>)
    requires ListedAt(r, i, ms) && ms != []
    ensures var m := MemberText(ms[0]);
      i + |m| < |r| && ListedAt(r, i + |m|, ms[1..]) && forall k :: 0 <= k < |m| ==> r[i + k] == m[k]
  {
    var m, t, t' := MemberText(ms[0]), MembersText(ms) + "}", MembersText(ms[1..]) + "}";
    TextOfMore(ms);
    RestStands(r, i, t, m, t');
    TextStands(r, i, t, m);
  }

  lemma FirstListed(r: string, i: nat, ms: seq<Member>)
    requires ListedAt(r, i, ms)
    ensures i < |r| && r[i] == if ms == [] then '}' else MemberText(ms[0])[0]
  {
    if ms != [] {
      NextListed(r, i, ms);
    } else {
      assert r[i] == r[i..i + 1][0];
    }
  }

  lemma MemberRead(r: string, first: nat, i: nat, m: Member, t: string, end: nat)
    requires var w := MemberText(m);
      && first <= i && i + |w| < |r| && (forall k :: 0 <= k < |w| ==> r[i + k] == w[k])
      && (w[0] == '}' ==> i == first) && SetChars(r, first, i + |w|) == Closed(t, end)
    requires m.Span? ==> m.high != '}'
    requires m.One? && r[i + 1] == '-' ==> i + 2 < |r| && r[i + 2] == '}'
    ensures SetChars(r, first, i) == Closed(Pair(m) + t, end)
  {
    var w := MemberText(m);
    assert r[i + 0] == w[0];
    assert m.Span? ==> r[i + 1] == w[1] && r[i + 2] == w[2];
  }

  /** A minus behind a single character closes the list. */
  lemma MinusIsLast(r: string, i: nat, ms: seq<Member>)
    requires ListedAt(r, i, ms) && ms != [] && ms[0].One? && Listed(ms, true) && i + 1 < |r| && r[i + 1] == '-'
    ensures i + 2 < |r| && r[i + 2] == '}'
  {
    NextListed(r, i, ms);
    FirstListed(r, i + 1, ms[1..]);
    if |ms| > 1 {
      NextListed(r, i + 1, ms[1..]);
      FirstListed(r, i + 2, []);
    }
  }

  lemma SetStep(r: string, first: nat, i: nat, ms: seq<Member>, t: string, end: nat)
    requires first <= i && ms != [] && ListedAt(r, i, ms) && Listed(ms, i == first)
    requires var n := |MemberText(ms[0])|; i + n <= |r| && SetChars(r, first, i + n) == Closed(t, end)
    ensures SetChars(r, first, i) == Closed(Pair(ms[0]) + t, end)
  {
    NextListed(r, i, ms);
    if ms[0].One? && r[i + 1] == '-' {
      MinusIsLast(r, i, ms);
    }
    MemberRead(r, first, i, ms[0], t, end);
  }

  lemma {:induction false} SetRead(r: string, first: nat, i: nat, ms: seq<Member>)
    requires first <= i && ListedAt(r, i, ms) && Listed(ms, i == first) && (i == first ==> ms != [])
    ensures SetChars(r, first, i) == Closed(Pairs(ms), i + |MembersText(ms)|)
    decreases |ms|
  {
    if ms == [] {
      FirstListed(r, i, ms);
    } else {
      var n := |MemberText(ms[0])|;
      NextListed(r, i, ms);
      SetRead(r, first, i + n, ms[1..]);
      SetStep(r, first, i, ms, Pairs(ms[1..]), i + n + |MembersText(ms[1..])|);
    }
  }

  function SetText(ms: seq<Member>, negated: bool): string {
    "{" + (if negated then "^" else "") + MembersText(ms) + "}"
  }

  /** The set's brace stands at position q, and what it lists behind it. */
  predicate SetAt(r: string, q: nat, ms: seq<Member>, negated: bool) {
    && q + 1 < |r| && r[q] == '{' && (negated ==> r[q + 1] == '^')
    && ListedAt(r, if negated then q + 2 else q + 1, ms)
  }

  lemma SetPlaced(r: string, q: nat, ms: seq<Member>, negated: bool)
    requires var w := SetText(ms, negated); q + |w| <= |r| && r[q..q + |w|] == w
    ensures SetAt(r, q, ms, negated)
  {
    var w, t := SetText(ms, negated), MembersText(ms) + "}";
    var n := if negated then 2 else 1;
    assert |w| == n + |t| && w[n..|w|] == t;
    assert w[0] == '{' && (negated ==> w[1] == '^');
    SliceOf(r, w, q, q + |w|, n, |w|);
  }

  lemma SetToken(r: string, q: nat, ms: seq<Member>, negated: bool, dotted: bool, afterLiteral: bool)
    requires ms != [] && Listed(ms, true) && SetAt(r, q, ms, negated) && RangeAt(r, q, '}') == None
    requires !negated ==> MemberText(ms[0])[0] != '^'
    ensures var chars := Pairs(ms);
      NextToken(r, q, dotted, afterLiteral) ==
        Token(if negated then NegSet(chars) else Set(chars), q + |SetText(ms, negated)|)
  {
    var i := if negated then q + 2 else q + 1;
    FirstListed(r, i, ms);
    SetRead(r, i, i, ms);
  }

  /** The text stands at position q. */
  predicate StandsAt(r: string, q: nat, w: string) {
    q + |w| <= |r| && r[q..q + |w|] == w
  }

  lemma CharStands(r: string, q: nat, w: string, i: nat)
    requires StandsAt(r, q, w) && i < |w|
    ensures q + i < |r| && r[q + i] == w[i]
  {
  }

  lemma DigitsWithin(r: string, q: nat, w: string, i: nat)
    requires StandsAt(r, q, w) && i < |w| && !IsDigit(w[|w| - 1])
    ensures var j := DigitsEnd(w, i); j < |w| && DigitsEnd(r, q + i) == q + j && At(r, q + j) == w[j]
  {
    var j := DigitsEnd(w, i);
    SliceOf(r, w, q, q + |w|, i, j);
    CharStands(r, q, w, j);
    DigitsStop(r, q + i, q + j);
  }

  predicate DotsAt(r: string, j: nat) {
    At(r, j) == '.' && At(r, j + 1) == '.'
  }

  lemma NoRangeMoved(r: string, q: nat, w: string, j: nat)
    requires q < |r| && w != "" && j == DigitsEnd(w, 1) && DigitsEnd(r, q + 1) == q + j
    requires DotsAt(w, j) <==> DotsAt(r, q + j)
    requires DotsAt(w, j) ==> At(r, DigitsEnd(r, q + j + 2)) == At(w, DigitsEnd(w, j + 2))
    requires RangeAt(w, 0, '}') == None
    ensures RangeAt(r, q, '}') == None
  {
  }

  /** Whether braces hold a number range is seen between them. */
  lemma RangeWithin(r: string, q: nat, w: string)
    requires StandsAt(r, q, w) && |w| >= 2 && w[|w| - 1] == '}' && RangeAt(w, 0, '}') == None
    ensures RangeAt(r, q, '}') == None
  {
    DigitsWithin(r, q, w, 1);
    var j := DigitsEnd(w, 1);
    if w[j] == '.' {
      CharStands(r, q, w, j + 1);
    }
    assert DotsAt(w, j) <==> DotsAt(r, q + j);
    if DotsAt(w, j) {
      DigitsWithin(r, q, w, j + 2);
    }
    NoRangeMoved(r, q, w, j);
  }

  // ---------- a pattern as it is written ----------

  /** What a pattern is written from: texts with every character escaped, and the special forms. */
  datatype Form =
    | Text(text: string)
    | Question
    | Star
    | Stars
    | Chars(members: seq<Member>, negated: bool)
    | Numbers(lo: string, up: string)

  function FormText(f: Form): string {
    match f
    case Text(t) => Escape(t)
    case Question => "?"
    case Star => "*"
    case Stars => "**"
    case Chars(ms, negated) => SetText(ms, negated)
    case Numbers(lo, up) => RangeText('{', lo, up, '}')
  }

  function FormElem(f: Form, dotted: bool): Elem {
    match f
    case Text(t) => Literal(t)
    case Question => if dotted then CommonChar else AnyChar
    case Star => if dotted then CommonSeq else AnySeq
    case Stars => AnySeq
    case Chars(ms, negated) => if negated then NegSet(Pairs(ms)) else Set(Pairs(ms))
    case Numbers(lo, up) => NumRange(BoundOf(lo), BoundOf(up))
  }

  /** A set lists something, does not start like a negated one, and does not read as a number range. */
  predicate Proper(f: Form) {
    match f
    case Text(t) => t != ""
    case Chars(ms, negated) =>
      && ms != [] && Listed(ms, true) && (!negated ==> MemberText(ms[0])[0] != '^')
      && RangeAt(SetText(ms, negated), 0, '}') == None
    case Numbers(lo, up) => AllDigits(lo) && AllDigits(up)
    case _ => true
  }

  /** Two texts would be one, and two stars in a row are another form. */
  predicate MayFollow(f: Form, g: Form) {
    !(f.Text? && g.Text?) && !(f.Star? && (g.Star? || g.Stars?))
  }

  predicate Written(fs: seq<Form>) {
    fs != [] ==> Proper(fs[0]) && (|fs| > 1 ==> MayFollow(fs[0], fs[1])) && Written(fs[1..])
  }

  function PatternText(fs: seq<Form>): string {
    if fs == [] then "" else FormText(fs[0]) + PatternText(fs[1..])
  }

  function Elems(fs: seq<Form>, dotted: bool): seq<Elem> {
    if fs == [] then [] else [FormElem(fs[0], dotted)] + Elems(fs[1..], dotted)
  }

  /** The character that a form starts with. */
  function FirstChar(f: Form): char {
    match f
    case Text(_) => '\\'
    case Question => '?'
    case Star => '*'
    case Stars => '*'
    case _ => '{'
  }

  lemma FormStarts(r: string, q: nat, f: Form)
    requires StandsAt(r, q, FormText(f)) && Proper(f)
    ensures FormText(f) != "" && q < |r| && r[q] == FirstChar(f)
  {
    var w := FormText(f);
    if f.Text? {
      EscapeAt(f.text, 0);
    }
    assert w[0] == FirstChar(f);
    assert r[q] == w[0];
  }

  /** What may stand behind a form. */
  predicate Ends(f: Form, c: char) {
    (f.Text? ==> c == '\0' || EndsLiteral(c)) && (f.Star? ==> c != '*')
  }

  lemma TextToken(r: string, q: nat, t: string, dotted: bool, afterLiteral: bool)
    requires EscapedAt(r, q, t) && t != "" && (q + 2 * |t| < |r| ==> EndsLiteral(r[q + 2 * |t|]))
    ensures NextToken(r, q, dotted, afterLiteral) == Token(Literal(t), q + 2 * |t|)
  {
    assert EscapedChar(r, q, t, 0);
    assert LiteralAt(r, q + 2 * |t|) == Read("", q + 2 * |t|);
    LiteralOn(r, q, t, 0, "", q + 2 * |t|);
    assert t[0..] + "" == t;
  }

  lemma StarsToken(r: string, q: nat, f: Form, dotted: bool, afterLiteral: bool)
    requires (f.Star? && At(r, q + 1) != '*') || f.Stars?
    requires StandsAt(r, q, FormText(f))
    ensures NextToken(r, q, dotted, afterLiteral) == Token(FormElem(f, dotted), q + |FormText(f)|)
  {
    assert r[q] == FormText(f)[0];
    assert f.Stars? ==> r[q + 1] == FormText(f)[1];
  }

  lemma CharsToken(r: string, q: nat, f: Form, dotted: bool, afterLiteral: bool)
    requires f.Chars? && Proper(f) && StandsAt(r, q, FormText(f))
    ensures NextToken(r, q, dotted, afterLiteral) == Token(FormElem(f, dotted), q + |FormText(f)|)
  {
    RangeWithin(r, q, FormText(f));
    SetPlaced(r, q, f.members, f.negated);
    SetToken(r, q, f.members, f.negated, dotted, afterLiteral);
  }

  lemma NumbersToken(r: string, q: nat, f: Form, dotted: bool, afterLiteral: bool)
    requires f.Numbers? && Proper(f) && StandsAt(r, q, FormText(f))
    ensures NextToken(r, q, dotted, afterLiteral) == Token(FormElem(f, dotted), q + |FormText(f)|)
  {
    FormStarts(r, q, f);
    RangeParts('{', f.lo, f.up, '}');
    RangeRead(r, q, '{', f.lo, f.up, '}');
  }

  /** Every form gives its element. */
  lemma FormToken(r: string, q: nat, f: Form, dotted: bool, afterLiteral: bool)
    requires Proper(f) && StandsAt(r, q, FormText(f)) && q < |r|
    requires var n := q + |FormText(f)|; n < |r| ==> Ends(f, r[n]) && r[n] != '\0'
    ensures FormText(f) != ""
    ensures NextToken(r, q, dotted, afterLiteral) == Token(FormElem(f, dotted), q + |FormText(f)|)
  {
    FormStarts(r, q, f);
    match f
    case Text(t) =>
      EscapeStands(r, q, t);
      TextToken(r, q, t, dotted, afterLiteral);
    case Question =>
    case Star => StarsToken(r, q, f, dotted, afterLiteral);
    case Stars => StarsToken(r, q, f, dotted, afterLiteral);
    case Chars(_, _) => CharsToken(r, q, f, dotted, afterLiteral);
    case Numbers(_, _) => NumbersToken(r, q, f, dotted, afterLiteral);
  }

  /** From position q on, the text is the one written from the forms. */
  predicate Remains(r: string, q: nat, fs: seq<Form>) {
    q <= |r| && r[q..] == PatternText(fs)
  }

  lemma NextForm(r: string, q: nat, fs: seq<Form>)
    requires Remains(r, q, fs) && fs != []
    ensures StandsAt(r, q, FormText(fs[0])) && Remains(r, q + |FormText(fs[0])|, fs[1..])
  {
    SplitAt(r, q, FormText(fs[0]), PatternText(fs[1..]));
  }

  lemma NothingRemains(r: string, q: nat, dotted: bool, acc: seq<Elem>)
    requires Remains(r, q, [])
    ensures Tokenize(r, q, dotted, acc) == Tokens(acc)
  {
    assert q == |r|;
  }

  lemma WrittenRest(fs: seq<Form>)
    requires Written(fs) && fs != []
    ensures Proper(fs[0]) && Written(fs[1..]) && (|fs| > 1 ==> MayFollow(fs[0], fs[1]) && Proper(fs[1]))
  {
  }

  lemma StartEnds(r: string, q: nat, f: Form, g: Form)
    requires StandsAt(r, q, FormText(g)) && Proper(g) && MayFollow(f, g)
    ensures q < |r| && Ends(f, r[q]) && r[q] != '\0'
  {
    FormStarts(r, q, g);
  }

  lemma FollowedWell(r: string, q: nat, fs: seq<Form>)
    requires Remains(r, q, fs) && fs != [] && Written(fs)
    ensures var n := q + |FormText(fs[0])|; n < |r| ==> Ends(fs[0], r[n]) && r[n] != '\0'
  {
    WrittenRest(fs);
    NextForm(r, q, fs);
    if |fs| > 1 {
      NextForm(r, q + |FormText(fs[0])|, fs[1..]);
      StartEnds(r, q + |FormText(fs[0])|, fs[0], fs[1]);
    }
  }

  lemma FirstFormToken(r: string, q: nat, fs: seq<Form>, dotted: bool, afterLiteral: bool)
    requires Remains(r, q, fs) && fs != [] && Written(fs)
    ensures q < |r|
    ensures NextToken(r, q, dotted, afterLiteral) == Token(FormElem(fs[0], dotted), q + |FormText(fs[0])|)
  {
    NextForm(r, q, fs);
    FollowedWell(r, q, fs);
    FormStarts(r, q, fs[0]);
    FormToken(r, q, fs[0], dotted, afterLiteral);
  }

  lemma TakesToken(r: string, q: nat, e: Elem, n: nat, dotted: bool, acc: seq<Elem>)
    requires q < |r| && NextToken(r, q, dotted, EndsInLiteral(acc)) == Token(e, n)
    ensures Tokenize(r, q, dotted, acc) == Tokenize(r, n, dotted, acc + [e])
  {
  }

  lemma FormStep(r: string, q: nat, fs: seq<Form>, dotted: bool, acc: seq<Elem>)
    requires Remains(r, q, fs) && fs != [] && Written(fs)
    ensures var n := q + |FormText(fs[0])|;
      Remains(r, n, fs[1..]) && Tokenize(r, q, dotted, acc) == Tokenize(r, n, dotted, acc + [FormElem(fs[0], dotted)])
  {
    NextForm(r, q, fs);
    FirstFormToken(r, q, fs, dotted, EndsInLiteral(acc));
    TakesToken(r, q, FormElem(fs[0], dotted), q + |FormText(fs[0])|, dotted, acc);
  }

  lemma ElemsGrouped(fs: seq<Form>, dotted: bool, acc: seq<Elem>)
    requires fs != []
    ensures acc + [FormElem(fs[0], dotted)] + Elems(fs[1..], dotted) == acc + Elems(fs, dotted)
  {
  }

  lemma {:induction false} TokensOf(r: string, q: nat, fs: seq<Form>, dotted: bool, acc: seq<Elem>, all: seq<Elem>)
    requires Remains(r, q, fs) && Written(fs) && all == acc + Elems(fs, dotted)
    ensures Tokenize(r, q, dotted, acc) == Tokens(all)
    decreases |fs|
  {
    if fs == [] {
      NothingRemains(r, q, dotted, acc);
    } else {
      FormStep(r, q, fs, dotted, acc);
      WrittenRest(fs);
      ElemsGrouped(fs, dotted, acc);
      TokensOf(r, q + |FormText(fs[0])|, fs[1..], dotted, acc + [FormElem(fs[0], dotted)], all);
    }
  }

  /** A pattern written from texts and special forms is cut into exactly their elements. */
  lemma WrittenTokens(fs: seq<Form>, dotted: bool)
    requires Written(fs)
    ensures Tokenize(PatternText(fs), 0, dotted, []) == Tokens(Elems(fs, dotted))
  {
    var r := PatternText(fs);
    assert r[0..] == r;
    TokensOf(r, 0, fs, dotted, [], Elems(fs, dotted));
  }

  // ---------- one form between two texts ----------

  /** Set as a full-string pattern, the text describes the line. */
  ghost predicate TextDescribes(r: string, dotted: bool, line: string) {
    var t := Tokenize(r, 0, dotted, []);
    t.Tokens? && var p := Completed(t.elems, true); AllEven(p) && InLanguage(p, line)
  }

  /** The line is a part with a before it and b behind it. */
  predicate Framed(line: string, a: string, part: string, b: string) {
    line == a + part + b
  }

  /** The element of an escaped text; none for the empty text. */
  function Lit(s: string): seq<Elem> {
    if s == "" then [] else [Literal(s)]
  }

  lemma TextOnly(b: string, line: string)
    ensures AllEven(Lit(b) + [End]) && (InLanguage(Lit(b) + [End], line) <==> line == b)
  {
    if b == "" {
      EndOnly([End], line);
    } else {
      LiteralEnd([Literal(b), End], line);
    }
  }

  /** The element describes the part before b. */
  ghost predicate BeforeText(e: Elem, line: string, part: string, b: string)
    requires Even(e)
  {
    line == part + b && Accepts(e, part, b)
  }

  lemma CutBefore(p: seq<Elem>, e: Elem, b: string, line: string, i: nat)
    requires Even(e) && AllEven(p) && p == [e] + (Lit(b) + [End])
    requires Cut(p, line, i) && InLanguage(p[1..], line[i..])
    ensures BeforeText(e, line, line[..i], b)
  {
    assert p[1..] == Lit(b) + [End];
    TextOnly(b, line[i..]);
  }

  lemma PartTaken(p: seq<Elem>, e: Elem, b: string, line: string, part: string)
    requires Even(e) && AllEven(p) && p == [e] + (Lit(b) + [End]) && BeforeText(e, line, part, b)
    ensures InLanguage(p, line)
  {
    assert p[1..] == Lit(b) + [End];
    assert line[..|part|] == part && line[|part|..] == b;
    TextOnly(b, line[|part|..]);
    assert Cut(p, line, |part|);
  }

  lemma ElementThenText(e: Elem, b: string, line: string)
    requires Even(e)
    ensures AllEven([e] + (Lit(b) + [End]))
    ensures InLanguage([e] + (Lit(b) + [End]), line) <==> exists part :: BeforeText(e, line, part, b)
  {
    var p := [e] + (Lit(b) + [End]);
    if InLanguage(p, line) {
      var i :| Cut(p, line, i) && InLanguage(p[1..], line[i..]);
      CutBefore(p, e, b, line, i);
    }
    if part :| BeforeText(e, line, part, b) {
      PartTaken(p, e, b, line, part);
    }
  }

  ghost predicate Between(e: Elem, line: string, a: string, part: string, b: string)
    requires Even(e)
  {
    Framed(line, a, part, b) && Accepts(e, part, b)
  }

  lemma TextFirst(a: string, p: seq<Elem>, line: string)
    requires AllEven(p)
    ensures AllEven(Lit(a) + p)
    ensures InLanguage(Lit(a) + p, line) <==> a <= line && InLanguage(p, line[|a|..])
  {
    if a == "" {
      assert Lit(a) + p == p && line[0..] == line;
    } else {
      assert (Lit(a) + p)[1..] == p;
      AfterLiteral(Lit(a) + p, line);
    }
  }

  lemma BetweenTexts(a: string, e: Elem, b: string, line: string)
    requires Even(e)
    ensures AllEven(Lit(a) + [e] + Lit(b) + [End])
    ensures InLanguage(Lit(a) + [e] + Lit(b) + [End], line) <==> exists part :: Between(e, line, a, part, b)
  {
    var p := [e] + (Lit(b) + [End]);
    assert Lit(a) + [e] + Lit(b) + [End] == Lit(a) + p;
    TextFirst(a, p, line);
    if a <= line {
      var rest := line[|a|..];
      ElementThenText(e, b, rest);
      assert line == a + rest;
      forall part
        ensures BeforeText(e, rest, part, b) <==> Between(e, line, a, part, b)
      {
        SameRest(line, a, rest, part, b);
      }
    } else {
      forall part
        ensures !Between(e, line, a, part, b)
      {
        NotFramed(line, a, part, b);
      }
    }
  }

  lemma NotFramed(line: string, a: string, part: string, b: string)
    requires !(a <= line)
    ensures !Framed(line, a, part, b)
  {
    assert a + part + b == a + (part + b);
  }

  lemma SameRest(line: string, a: string, rest: string, part: string, b: string)
    requires line == a + rest
    ensures rest == part + b <==> Framed(line, a, part, b)
  {
    assert a + part + b == a + (part + b);
    assert line[|a|..] == rest && (a + (part + b))[|a|..] == part + b;
  }

  function TextForm(s: string): seq<Form> {
    if s == "" then [] else [Text(s)]
  }

  lemma TextFormIs(s: string, dotted: bool)
    ensures PatternText(TextForm(s)) == Escape(s) && Elems(TextForm(s), dotted) == Lit(s)
  {
    if s != "" {
      assert [Text(s)][1..] == [];
      assert PatternText([]) == "" && Elems([], dotted) == [];
    }
  }

  lemma FormFirst(f: Form, fs: seq<Form>, dotted: bool)
    ensures PatternText([f] + fs) == FormText(f) + PatternText(fs)
    ensures Elems([f] + fs, dotted) == [FormElem(f, dotted)] + Elems(fs, dotted)
  {
    assert ([f] + fs)[1..] == fs;
  }

  lemma WrittenFirst(f: Form, fs: seq<Form>)
    requires Proper(f) && Written(fs) && (fs != [] ==> MayFollow(f, fs[0]))
    ensures Written([f] + fs)
  {
    assert ([f] + fs)[1..] == fs;
  }

  function AroundForms(a: string, f: Form, b: string): seq<Form> {
    TextForm(a) + ([f] + TextForm(b))
  }

  lemma AroundFormText(a: string, f: Form, b: string, dotted: bool)
    ensures var fs := AroundForms(a, f, b);
      && PatternText(fs) == Escape(a) + (FormText(f) + Escape(b))
      && Elems(fs, dotted) == Lit(a) + ([FormElem(f, dotted)] + Lit(b))
  {
    var g := [f] + TextForm(b);
    TextFormIs(b, dotted);
    FormFirst(f, TextForm(b), dotted);
    if a == "" {
      assert AroundForms(a, f, b) == g;
    } else {
      FormFirst(Text(a), g, dotted);
    }
  }

  lemma AroundFormWritten(a: string, f: Form, b: string)
    requires !f.Text? && Proper(f)
    ensures Written(AroundForms(a, f, b))
  {
    var g := [f] + TextForm(b);
    if b != "" {
      WrittenFirst(Text(b), []);
      assert [Text(b)] + [] == TextForm(b);
    }
    WrittenFirst(f, TextForm(b));
    if a == "" {
      assert AroundForms(a, f, b) == g;
    } else {
      WrittenFirst(Text(a), g);
    }
  }

  lemma AroundForm(a: string, f: Form, b: string, dotted: bool)
    requires !f.Text? && Proper(f)
    ensures Tokenize(Escape(a) + FormText(f) + Escape(b), 0, dotted, []) ==
      Tokens(Lit(a) + [FormElem(f, dotted)] + Lit(b))
  {
    AroundFormText(a, f, b, dotted);
    AroundFormWritten(a, f, b);
    WrittenTokens(AroundForms(a, f, b), dotted);
    Grouped(Escape(a), FormText(f), Escape(b));
    Grouped(Lit(a), [FormElem(f, dotted)], Lit(b));
  }

  /** Between two escaped texts a form describes any part that its element describes. */
  lemma FormMeans(a: string, f: Form, b: string, dotted: bool, line: string)
    requires !f.Text? && Proper(f) && Even(FormElem(f, dotted))
    ensures TextDescribes(Escape(a) + FormText(f) + Escape(b), dotted, line) <==>
      exists part :: Between(FormElem(f, dotted), line, a, part, b)
  {
    AroundForm(a, f, b, dotted);
    BetweenTexts(a, FormElem(f, dotted), b, line);
  }

  // ---------- the wildcards ----------

  /** "?" is one character, and none of the dots when dotted. */
  predicate OneChar(line: string, a: string, part: string, b: string, dotted: bool) {
    Framed(line, a, part, b) && |part| == 1 && (dotted ==> part[0] != '.')
  }

  lemma QuestionMark(a: string, b: string, dotted: bool, line: string)
    ensures TextDescribes(Escape(a) + "?" + Escape(b), dotted, line) <==>
      exists part :: OneChar(line, a, part, b, dotted)
  {
    FormMeans(a, Question, b, dotted, line);
    assert forall part :: Between(FormElem(Question, dotted), line, a, part, b) <==> OneChar(line, a, part, b, dotted);
  }

  predicate Stretch(line: string, a: string, part: string, b: string, dotted: bool) {
    Framed(line, a, part, b) && (dotted ==> '.' !in part)
  }

  /** "*" is any part, without dots when dotted. */
  lemma SingleStar(a: string, b: string, dotted: bool, line: string)
    ensures TextDescribes(Escape(a) + "*" + Escape(b), dotted, line) <==>
      exists part :: Stretch(line, a, part, b, dotted)
  {
    FormMeans(a, Star, b, dotted, line);
    assert forall part :: Between(FormElem(Star, dotted), line, a, part, b) <==> Stretch(line, a, part, b, dotted);
  }

  /** "**" is any part, dots included. */
  lemma DoubleStar(a: string, b: string, dotted: bool, line: string)
    ensures TextDescribes(Escape(a) + "**" + Escape(b), dotted, line) <==>
      exists part :: Framed(line, a, part, b)
  {
    FormMeans(a, Stars, b, dotted, line);
    assert forall part :: Between(AnySeq, line, a, part, b) <==> Framed(line, a, part, b);
  }

  predicate CharListed(line: string, a: string, part: string, b: string, ms: seq<Member>, negated: bool) {
    Framed(line, a, part, b) && |part| == 1 && Holds(ms, part[0]) == !negated
  }

  /** A set is one character that it lists, a negated set one that it does not; unless the braces
      hold a number range. */
  lemma SetMeans(a: string, ms: seq<Member>, negated: bool, b: string, dotted: bool, line: string)
    requires Proper(Chars(ms, negated))
    ensures TextDescribes(Escape(a) + SetText(ms, negated) + Escape(b), dotted, line) <==>
      exists part :: CharListed(line, a, part, b, ms, negated)
  {
    var e := FormElem(Chars(ms, negated), dotted);
    FormMeans(a, Chars(ms, negated), b, dotted, line);
    forall part
      ensures Between(e, line, a, part, b) <==> CharListed(line, a, part, b, ms, negated)
    {
      if |part| == 1 {
        PairsHold(ms, part[0]);
      }
    }
  }

  predicate CharBetween(line: string, a: string, part: string, b: string, low: char, high: char, negated: bool) {
    Framed(line, a, part, b) && |part| == 1 && (low <= part[0] <= high) == !negated
  }

  function SpanText(low: char, high: char, negated: bool): string {
    (if negated then "{^" else "{") + [low, '-', high] + "}"
  }

  lemma SpanIsSet(low: char, high: char, negated: bool)
    ensures SetText([Span(low, high)], negated) == SpanText(low, high, negated)
  {
    assert MembersText([Span(low, high)]) == [low, '-', high];
  }

  lemma SpanCovers(line: string, a: string, part: string, b: string, low: char, high: char, negated: bool)
    ensures CharListed(line, a, part, b, [Span(low, high)], negated) <==>
      CharBetween(line, a, part, b, low, high, negated)
  {
    if |part| == 1 {
      assert Covers([Span(low, high)][0], part[0]) <==> low <= part[0] <= high;
    }
  }

  /** "{x-y}" is a character from x to y, "{^x-y}" any other. */
  lemma SpanMeans(a: string, low: char, high: char, negated: bool, b: string, dotted: bool, line: string)
    requires high != '}' && (!negated ==> low != '^')
    ensures var w := (if negated then "{^" else "{") + [low, '-', high] + "}";
      TextDescribes(Escape(a) + w + Escape(b), dotted, line) <==>
        exists part :: CharBetween(line, a, part, b, low, high, negated)
  {
    var ms := [Span(low, high)];
    SpanIsSet(low, high, negated);
    NoRangeInSpan(low, high, negated);
    SetMeans(a, ms, negated, b, dotted, line);
    forall part
      ensures CharListed(line, a, part, b, ms, negated) <==> CharBetween(line, a, part, b, low, high, negated)
    {
      SpanCovers(line, a, part, b, low, high, negated);
    }
  }

  lemma NoRangeInSpan(low: char, high: char, negated: bool)
    ensures RangeAt(SetText([Span(low, high)], negated), 0, '}') == None
  {
    SpanIsSet(low, high, negated);
    var w := SpanText(low, high, negated);
    if IsDigit(low) && !negated {
      assert DigitsEnd(w, 2) == 2;
    }
  }

  lemma {:induction false} NumberNatural(s: string)
    requires AllDigits(s)
    ensures Number(s) >= 0
  {
    if s != "" {
      NumberNatural(s[..|s| - 1]);
    }
  }

  /** The part is a number within the bounds that are there, and all the digits there are. */
  predicate NumberWithin(line: string, a: string, part: string, b: string, lo: string, up: string) {
    && Framed(line, a, part, b) && part != "" && AllDigits(part) && (b == "" || !IsDigit(b[0]))
    && (lo == "" || Number(lo) <= Number(part)) && (up == "" || Number(part) <= Number(up))
  }

  lemma RangeMeans(line: string, a: string, b: string, lo: string, up: string)
    requires AllDigits(lo) && AllDigits(up)
    ensures forall part ::
      Between(NumRange(BoundOf(lo), BoundOf(up)), line, a, part, b) <==> NumberWithin(line, a, part, b, lo, up)
  {
    NumberNatural(lo);
    NumberNatural(up);
  }

  /** "{n..m}" is a number from n to m; either bound may be left out. */
  lemma NumberInBraces(a: string, lo: string, up: string, b: string, dotted: bool, line: string)
    requires AllDigits(lo) && AllDigits(up)
    ensures TextDescribes(Escape(a) + ("{" + lo + ".." + up + "}") + Escape(b), dotted, line) <==>
      exists part :: NumberWithin(line, a, part, b, lo, up)
  {
    FormMeans(a, Numbers(lo, up), b, dotted, line);
    RangeMeans(line, a, b, lo, up);
    assert RangeText('{', lo, up, '}') == "{" + lo + ".." + up + "}";
  }

  // in brackets

  function Around(a: string, w: string, b: string): string {
    Escape(a) + w + Escape(b)
  }

  lemma AroundParts(a: string, w: string, b: string)
    ensures var r := Around(a, w, b); var q := 2 * |a|;
      && |r| == q + |w| + 2 * |b| && r[..q] == Escape(a) && r[q..q + |w|] == w && r[q + |w|..] == Escape(b)
      && forall k :: 0 <= k < |w| ==> r[q + k] == w[k]
  {
  }

  lemma EscapedFirst(r: string, a: string, t: string, dotted: bool)
    requires 2 * |a| <= |r| && r[..2 * |a|] == Escape(a) && a + t != ""
    requires LiteralAt(r, 2 * |a|) == Read(t, 2 * |a|)
    requires var c := At(r, 2 * |a|); !IsDigit(c) && c != '.'
    requires a != ""
    ensures Tokenize(r, 0, dotted, []) == Tokenize(r, 2 * |a|, dotted, [Literal(a + t)])
  {
    assert r[0..2 * |a|] == Escape(a);
    EscapeStands(r, 0, a);
    assert EscapedChar(r, 0, a, 0);
    LiteralOn(r, 0, a, 0, t, 2 * |a|);
    assert a[0..] == a;
    assert [] + [Literal(a + t)] == [Literal(a + t)];
  }

  /** An opening bracket ends the text before the number. */
  lemma OpeningText(r: string, a: string, dotted: bool)
    requires 2 * |a| < |r| && r[..2 * |a|] == Escape(a) && OpensRange(r, 2 * |a|)
    ensures Tokenize(r, 0, dotted, []) == Tokenize(r, 2 * |a|, dotted, [Literal(a + "[")])
  {
    var q := 2 * |a|;
    assert LiteralAt(r, q) == Read("[", q);
    if a != "" {
      EscapedFirst(r, a, "[", dotted);
    } else {
      assert a + "[" == "[" && [] + [Literal("[")] == [Literal("[")];
      assert NextToken(r, 0, dotted, false) == Token(Literal("["), 0);
    }
  }

  /** After a literal the range gives its element, and its closing bracket starts the next literal. */
  lemma RangeThenText(r: string, q: nat, range: Range, t: string, b: string, dotted: bool)
    requires q < |r| && r[q] == '[' && RangeAt(r, q, ']') == Some(range)
    requires range.end + 1 + 2 * |b| == |r| && r[range.end + 1..] == Escape(b)
    ensures Tokenize(r, q, dotted, [Literal(t)]) ==
      Tokens([Literal(t)] + [NumRange(range.lo, range.up)] + [Literal("]" + b)])
  {
    var e := NumRange(range.lo, range.up);
    assert NextToken(r, q, dotted, true) == Token(e, range.end);
    ClosingText(r, range.end, b, dotted, [Literal(t)] + [e]);
  }

  lemma BracketTokens(r: string, a: string, lo: string, up: string, b: string, dotted: bool)
    requires AllDigits(lo) && AllDigits(up) && r == Around(a, RangeText('[', lo, up, ']'), b)
    ensures Tokenize(r, 0, dotted, []) ==
      Tokens([Literal(a + "[")] + [NumRange(BoundOf(lo), BoundOf(up))] + [Literal("]" + b)])
  {
    var w, q := RangeText('[', lo, up, ']'), 2 * |a|;
    AroundParts(a, w, b);
    RangeParts('[', lo, up, ']');
    RangeRead(r, q, '[', lo, up, ']');
    assert r[q] == w[0];
    OpeningText(r, a, dotted);
    RangeThenText(r, q, RangeAt(r, q, ']').value, a + "[", b, dotted);
  }

  lemma ClosingText(r: string, k: nat, b: string, dotted: bool, acc: seq<Elem>)
    requires k + 1 + 2 * |b| == |r| && r[k] == ']' && r[k + 1..] == Escape(b) && !EndsInLiteral(acc)
    ensures Tokenize(r, k, dotted, acc) == Tokens(acc + [Literal("]" + b)])
  {
    assert r[k + 1..k + 1 + 2 * |b|] == Escape(b);
    EscapeStands(r, k + 1, b);
    LiteralOn(r, k + 1, b, 0, "", |r|);
    assert b[0..] + "" == b;
    LiteralStep(r, k, k, b, |r|);
    assert [r[k]] + b == "]" + b;
    var acc' := acc + [Literal("]" + b)];
    assert Tokenize(r, |r|, dotted, acc') == Tokens(acc');
  }

  /** "[n..m]" is a number from n to m in brackets. */
  lemma NumberInBrackets(a: string, lo: string, up: string, b: string, dotted: bool, line: string)
    requires AllDigits(lo) && AllDigits(up)
    ensures TextDescribes(Escape(a) + ("[" + lo + ".." + up + "]") + Escape(b), dotted, line) <==>
      exists part :: NumberWithin(line, a + "[", part, "]" + b, lo, up)
  {
    var e := NumRange(BoundOf(lo), BoundOf(up));
    BracketTokens(Around(a, RangeText('[', lo, up, ']'), b), a, lo, up, b, dotted);
    BetweenTexts(a + "[", e, "]" + b, line);
    RangeMeans(line, a + "[", "]" + b, lo, up);
    assert RangeText('[', lo, up, ']') == "[" + lo + ".." + up + "]";
  }

  // decimal texts

  /** A number as it is written. */
  function Decimal(n: nat): string {
    if n == 0 then "0" else Digits(n, 10)
  }

  lemma {:induction false} NumberOfDigits(n: nat)
    ensures AllDigits(Digits(n, 10)) && Number(Digits(n, 10)) == n && (n > 0 ==> Digits(n, 10) != "")
  {
    if n > 0 {
      NumberOfDigits(n / 10);
      var s, c := Digits(n / 10, 10), DigitChar(n % 10);
      assert (s + [c])[..|s|] == s;
    }
  }

  lemma NumberOfDecimal(n: nat)
    ensures AllDigits(Decimal(n)) && Decimal(n) != "" && Number(Decimal(n)) == n
  {
    NumberOfDigits(n);
    if n == 0 {
      assert Number("0"[..0]) == 0;
    }
  }

  /** A written number k is described by "{n..m}" exactly if it is one from n to m. */
  lemma WrittenNumber(a: string, n: nat, m: nat, k: nat, b: string, dotted: bool)
    requires b == "" || !IsDigit(b[0])
    ensures var w := "{" + Decimal(n) + ".." + Decimal(m) + "}";
      TextDescribes(Escape(a) + w + Escape(b), dotted, a + Decimal(k) + b) <==> n <= k <= m
  {
    NumberOfDecimal(n);
    NumberOfDecimal(m);
    NumberOfDecimal(k);
    var line := a + Decimal(k) + b;
    NumberInBraces(a, Decimal(n), Decimal(m), b, dotted, line);
    forall part | Framed(line, a, part, b)
      ensures part == Decimal(k)
    {
      SameFrame(a, part, Decimal(k), b);
    }
    assert Framed(line, a, Decimal(k), b);
    if n <= k <= m {
      assert NumberWithin(line, a, Decimal(k), b, Decimal(n), Decimal(m));
    }
  }

  lemma SameFrame(a: string, x: string, y: string, b: string)
    requires a + x + b == a + y + b
    ensures x == y
  {
    assert |x| == |y|;
    assert x == (a + x + b)[|a|..|a| + |x|] && y == (a + y + b)[|a|..|a| + |y|];
  }
}
