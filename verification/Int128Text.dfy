/** 128-bit numbers as numbers: division, and the text forms that printing and parsing use. */
module Int128Text {
  import opened Options
  import opened WordBits
  import opened Words128
  import opened Arithmetic
  import opened Texts

  const MIN: int := -TWO127

  function Abs(x: int): nat {
    if x < 0 then -x else x
  }

  /** Division rounding toward zero: the remainder takes the sign of the dividend. */
  predicate IsDivision(n: int, d: int, q: int, r: int) {
    q * d + r == n && Abs(r) < Abs(d) && (r == 0 || (r < 0 <==> n < 0))
  }

  /** There is only one such quotient. */
  lemma DivisionUnique(n: int, d: int, q: int, r: int, q': int, r': int)
    requires IsDivision(n, d, q, r) && IsDivision(n, d, q', r')
    ensures q == q' && r == r'
  {
    var a := Abs(d);
    var s, s' := if d < 0 then -q else q, if d < 0 then -q' else q';
    SignMoves(q, d);
    SignMoves(q', d);
    if n < 0 {
      assert (-s) * a == -(s * a) && (-s') * a == -(s' * a);
      QuotientUnique(a, -s, -r, -s', -r');
    } else {
      QuotientUnique(a, s, r, s', r');
    }
  }

  lemma SignMoves(q: int, d: int)
    ensures (if d < 0 then -q else q) * Abs(d) == q * d
  {
  }

  /** From the magnitudes to the signed numbers. */
  lemma SignedDivision(n: int, d: int, q: int, r: int)
    requires d != 0 && Abs(n) == q * Abs(d) + r && 0 <= r < Abs(d)
    ensures IsDivision(n, d, if (d < 0) != (n < 0) then -q else q, if n < 0 then -r else r)
  {
    NegProducts(q, d);
  }

  lemma SmallDividend(n: int, d: int)
    requires Abs(n) < Abs(d)
    ensures IsDivision(n, d, 0, n)
  {
  }

  lemma NegProducts(q: int, d: int)
    ensures (-q) * d == -(q * d) && q * (-d) == -(q * d) && (-q) * (-d) == q * d
  {
  }

  /** The quotient and the remainder of two nonzero numbers, rounding toward zero. */
  function TruncDiv(n: int, d: int): int
    requires d != 0
  {
    var q := Abs(n) / Abs(d);
    if (d < 0) != (n < 0) then -q else q
  }

  function TruncRem(n: int, d: int): int
    requires d != 0
  {
    if n < 0 then -(Abs(n) % Abs(d)) else Abs(n) % Abs(d)
  }

  lemma Truncates(n: int, d: int, q: int, r: int)
    requires d != 0 && IsDivision(n, d, q, r)
    ensures q == TruncDiv(n, d) && r == TruncRem(n, d)
  {
    DivMod(Abs(n), Abs(d));
    SignedDivision(n, d, Abs(n) / Abs(d), Abs(n) % Abs(d));
    DivisionUnique(n, d, q, r, TruncDiv(n, d), TruncRem(n, d));
  }

  /** The least number has no magnitude in range; dividing it gives quotient 0 and itself as remainder,
      which is a division in no case. */
  lemma MinIsNotDivided(d: int)
    requires Fits(d) && d != 0
    ensures !IsDivision(MIN, d, 0, MIN)
  {
  }

  lemma MinNegated()
    ensures Wrap(-MIN) == MIN && Wrap(0 - MIN) == MIN
  {
    WrapShift(MIN, 1);
    WrapFits(MIN);
  }

  /** The next bit of a number, from its leading part p and the rest l. */
  lemma BitStep(n: int, p: int, l: int, k: nat)
    requires k > 0 && n == p * Pow2(k) + l && 0 <= l < Pow2(k)
    ensures var c := BitOf(n, k - 1);
      0 <= c <= 1 && n == (2 * p + c) * Pow2(k - 1) + (l - c * Pow2(k - 1)) && 0 <= l - c * Pow2(k - 1) < Pow2(k - 1)
  {
    var h := Pow2(k - 1);
    var c := if l < h then 0 else 1;
    LeadingPart(p, c, h);
    DivUnique(n, h, 2 * p + c, l - c * h);
  }

  lemma LeadingPart(p: int, c: int, h: int)
    ensures p * (2 * h) == (2 * p + c) * h - c * h
  {
  }

  // ---------- text ----------

  predicate ValidRadix(radix: int) {
    2 <= radix <= 37
  }

  /** What str returns. */
  function StrOf(v: int, radix: int): string {
    if v == 0 then "0"
    else if !ValidRadix(radix) then "(invalid radix)"
    else (if v < 0 then "-" else "") + if v == MIN then "0" else Digits(Abs(v), radix)
  }

  lemma {:induction false} DigitsLength(v: nat, radix: nat, k: nat)
    requires ValidRadix(radix) && v < Pow2(k)
    ensures |Digits(v, radix)| <= k
  {
    if v > 0 {
      SmallerQuotient(v, radix, k);
      DigitsLength(v / radix, radix, k - 1);
    }
  }

  lemma SmallerQuotient(v: nat, radix: nat, k: nat)
    requires radix >= 2 && 0 < v < Pow2(k)
    ensures k > 0 && 0 <= v / radix < Pow2(k - 1)
  {
    QuotientBetween(v, radix);
    DivMod(v, radix);
    TwiceBelow(v, v / radix, radix, v % radix);
  }

  lemma TwiceBelow(v: int, q: int, radix: int, r: int)
    requires radix >= 2 && q >= 0 && r >= 0 && v == q * radix + r
    ensures 2 * q <= v
  {
    MulNonNegative(q, radix - 2);
    MulSum(radix - 2, 2, q);
    assert q * radix == radix * q;
  }

  // parsing

  /** The value of a digit; the letter ranges are as wide as the source has them. */
  function DigitValue(c: char, radix: int): Option<int> {
    if '0' <= c <= '9' && c as int < '0' as int + radix then Some(c as int - '0' as int)
    else if 'a' <= c && c as int <= 'a' as int + radix - 10 then Some(c as int - 'a' as int + 10)
    else if 'A' <= c && c as int <= 'A' as int + radix - 10 then Some(c as int - 'A' as int + 10)
    else None
  }

  /** The number after the digits up to the first other character. */
  function ParseDigits(s: string, radix: int, acc: int): int {
    if s == "" then acc else
      match DigitValue(s[0], radix)
      case None => acc
      case Some(n) => ParseDigits(s[1..], radix, acc * radix + n)
  }

  /** Where the digits start, and their radix: 8 after a leading 0, 16 after 0x, else 10. */
  function SignLength(s: string): nat {
    if At(s, 0) == '-' then 1 else 0
  }

  function Radix(s: string): int {
    var i := SignLength(s);
    if At(s, i) != '0' then 10 else if At(s, i + 1) == 'x' then 16 else 8
  }

  function DigitsStart(s: string): (i: nat)
    ensures i <= |s|
  {
    var i := SignLength(s);
    if At(s, i) != '0' then i else if At(s, i + 1) == 'x' then i + 2 else i + 1
  }

  /** The number a text stands for. */
  function Parsed(s: string): int {
    var v := ParseDigits(s[DigitsStart(s)..], Radix(s), 0);
    if At(s, 0) == '-' then -v else v
  }

  /** A digit whose value is below the radix. */
  function ProperDigit(c: char, radix: int): Option<int> {
    if '0' <= c <= '9' && c as int < '0' as int + radix then Some(c as int - '0' as int)
    else if 'a' <= c && c as int < 'a' as int + radix - 10 then Some(c as int - 'a' as int + 10)
    else if 'A' <= c && c as int < 'A' as int + radix - 10 then Some(c as int - 'A' as int + 10)
    else None
  }

  function ProperDigits(s: string, radix: int, acc: int): int {
    if s == "" then acc else
      match ProperDigit(s[0], radix)
      case None => acc
      case Some(n) => ProperDigits(s[1..], radix, acc * radix + n)
  }

  /** The letter that stands for the radix itself. */
  predicate Excess(c: char, radix: int) {
    (radix == 10 && (c == 'a' || c == 'A')) || (radix == 16 && (c == 'g' || c == 'G'))
  }

  /** The source accepts one digit too many: in radix 8, 10 or 16, just the letter for the radix itself. */
  lemma DigitsAccepted(c: char, radix: int)
    requires radix == 8 || radix == 10 || radix == 16
    ensures DigitValue(c, radix) == if Excess(c, radix) then Some(radix) else ProperDigit(c, radix)
    ensures ProperDigit(c, radix).Some? ==> 0 <= ProperDigit(c, radix).value < radix && !Excess(c, radix)
  {
  }

  /** After its proper digits the text goes on with the letter for the radix. */
  predicate MeetsExcess(s: string, radix: int) {
    s != "" && if ProperDigit(s[0], radix).Some? then MeetsExcess(s[1..], radix) else Excess(s[0], radix)
  }

  lemma {:induction false} ParseGrows(s: string, radix: int, acc: int)
    requires radix == 8 || radix == 10 || radix == 16
    requires acc >= 0
    ensures ParseDigits(s, radix, acc) >= acc
  {
    if s != "" && DigitValue(s[0], radix).Some? {
      DigitsAccepted(s[0], radix);
      ParseGrows(s[1..], radix, acc * radix + DigitValue(s[0], radix).value);
    }
  }

  lemma {:induction false} DigitsExact(s: string, radix: int, acc: int)
    requires radix == 8 || radix == 10 || radix == 16
    requires acc >= 0
    ensures ParseDigits(s, radix, acc) == ProperDigits(s, radix, acc) <==> !MeetsExcess(s, radix)
  {
    if s != "" {
      DigitsAccepted(s[0], radix);
      if ProperDigit(s[0], radix).Some? {
        DigitsExact(s[1..], radix, acc * radix + ProperDigit(s[0], radix).value);
      } else if Excess(s[0], radix) {
        ParseGrows(s[1..], radix, acc * radix + radix);
      }
    }
  }

  /** The number that the proper digits of a text stand for. */
  function ProperParsed(s: string): int {
    var v := ProperDigits(s[DigitsStart(s)..], Radix(s), 0);
    if At(s, 0) == '-' then -v else v
  }

  /** A text is read right if and only if its proper digits are not followed by the letter for the
      radix. */
  lemma ParsedExact(s: string)
    ensures Parsed(s) == ProperParsed(s) <==> !MeetsExcess(s[DigitsStart(s)..], Radix(s))
  {
    DigitsExact(s[DigitsStart(s)..], Radix(s), 0);
  }

  /** "0xg" is read as 16. */
  lemma ExcessDigitRead()
    ensures Parsed("0xg") == 16 && ProperParsed("0xg") == 0
  {
    var s := "0xg";
    assert DigitsStart(s) == 2 && Radix(s) == 16;
    assert s[2..] == "g" && ("g")[1..] == "";
    assert ParseDigits("", 16, 16) == 16;
    assert DigitValue('g', 16) == Some(16) && ProperDigit('g', 16) == None;
    assert ParseDigits("g", 16, 0) == 16;
  }

  // ---------- writing and reading a number ----------

  /** The characters of the digits from 0 to 36; the last one comes after the letters. */
  const Signs: string := "0123456789ABCDEFGHIJKLMNOPQRSTUVWXYZ["

  function SignValue(c: char): int {
    if c <= '9' then c as int - '0' as int else c as int - 'A' as int + 10
  }

  lemma DigitSign(n: nat)
    requires n < 37
    ensures DigitChar(n) == Signs[n] && SignValue(Signs[n]) == n
  {
  }

  /** What a text of such digits is worth, the last one least. */
  function Worth(s: string, radix: nat): int {
    if s == "" then 0 else Worth(s[..|s| - 1], radix) * radix + SignValue(s[|s| - 1])
  }

  /** The digits are signs of the radix, the first one not 0. */
  predicate ProperText(s: string, radix: nat)
    requires radix <= 37
  {
    (forall i :: 0 <= i < |s| ==> s[i] in Signs[..radix]) && (s != "" ==> s[0] != '0')
  }

  lemma SignAdded(s: string, q: nat, r: nat, v: nat, radix: nat)
    requires ValidRadix(radix) && r < radix && v == q * radix + r && (s == "" ==> r > 0)
    requires ProperText(s, radix) && Worth(s, radix) == q
    ensures ProperText(s + [DigitChar(r)], radix) && Worth(s + [DigitChar(r)], radix) == v
  {
    DigitSign(r);
    assert DigitChar(r) == Signs[..radix][r];
    assert (s + [DigitChar(r)])[..|s|] == s;
  }

  /** In every radix the digits of a number are signs of that radix, the first not 0, and worth the number. */
  lemma {:induction false} DigitsWorth(v: nat, radix: nat)
    requires ValidRadix(radix)
    ensures ProperText(Digits(v, radix), radix) && Worth(Digits(v, radix), radix) == v
    ensures v > 0 ==> Digits(v, radix) != ""
  {
    if v > 0 {
      QuotientBetween(v, radix);
      DivMod(v, radix);
      DigitsWorth(v / radix, radix);
      SignAdded(Digits(v / radix, radix), v / radix, v % radix, v, radix);
    }
  }

  /** Every character is a digit of the radix. */
  predicate AllRead(s: string, radix: int) {
    forall i :: 0 <= i < |s| ==> DigitValue(s[i], radix).Some?
  }

  lemma {:induction false} ParseAppend(s: string, c: char, radix: int, acc: int)
    requires AllRead(s, radix) && DigitValue(c, radix).Some?
    ensures ParseDigits(s + [c], radix, acc) == ParseDigits(s, radix, acc) * radix + DigitValue(c, radix).value
  {
    if s == "" {
      assert s + [c] == [c] && ([c])[1..] == "";
    } else {
      assert (s + [c])[0] == s[0] && (s + [c])[1..] == s[1..] + [c];
      ParseAppend(s[1..], c, radix, acc * radix + DigitValue(s[0], radix).value);
    }
  }

  /** The characters that stand for the digit n of radix 8, 10 or 16. */
  lemma DigitRead(n: nat, radix: int)
    requires (radix == 8 || radix == 10 || radix == 16) && n < radix
    ensures DigitValue(DigitChar(n), radix) == Some(n) && DigitValue("0123456789abcdef"[n], radix) == Some(n)
  {
  }

  lemma DigitAdded(s: string, q: int, r: nat, v: int, radix: int)
    requires (radix == 8 || radix == 10 || radix == 16) && r < radix && v == q * radix + r
    requires AllRead(s, radix) && ParseDigits(s, radix, 0) == q
    ensures AllRead(s + [DigitChar(r)], radix) && ParseDigits(s + [DigitChar(r)], radix, 0) == v
  {
    DigitRead(r, radix);
    ParseAppend(s, DigitChar(r), radix, 0);
  }

  lemma {:induction false} DigitsRead(v: nat, radix: int)
    requires radix == 8 || radix == 10 || radix == 16
    ensures AllRead(Digits(v, radix), radix) && ParseDigits(Digits(v, radix), radix, 0) == v
  {
    if v > 0 {
      QuotientBetween(v, radix);
      DivMod(v, radix);
      DigitsRead(v / radix, radix);
      DigitAdded(Digits(v / radix, radix), v / radix, v % radix, v, radix);
    }
  }

  lemma {:induction false} DecimalDigits(v: nat)
    ensures AllDigits(Digits(v, 10))
  {
    if v > 0 {
      DecimalDigits(v / 10);
    }
  }

  /** Parsing the digits of a number in one of the radices gives it back; they start with no zero. */
  lemma ParseOfDigits(v: nat, radix: int)
    requires radix == 8 || radix == 10 || radix == 16
    ensures AllRead(Digits(v, radix), radix) && ParseDigits(Digits(v, radix), radix, 0) == v
    ensures radix == 10 ==> AllDigits(Digits(v, radix))
    ensures v > 0 ==> Digits(v, radix) != "" && Digits(v, radix)[0] != '0'
  {
    DigitsRead(v, radix);
    DecimalDigits(v);
    DigitsWorth(v, radix);
  }

  /** Parsing what is printed gives the number back, for every number but the least one. */
  lemma PrintThenParse(v: int)
    requires Fits(v)
    ensures Wrap(Parsed(StrOf(v, 10))) == v <==> v != MIN
  {
    WrapFits(0);
    WrapFits(v);
    var s := StrOf(v, 10);
    if v == MIN {
      assert s == "-0" && s[2..] == "";
    } else if v == 0 {
      assert s == "0" && s[1..] == "";
    } else {
      ParseOfDigits(Abs(v), 10);
      var ds := Digits(Abs(v), 10);
      assert s == if v < 0 then "-" + ds else ds;
      assert s[DigitsStart(s)..] == ds;
    }
  }

  /** A prefix without sign that sets the radix. */
  predicate Prefix(p: string, radix: int) {
    (p == "" && radix == 10) || (p == "0" && radix == 8) || (p == "0x" && radix == 16)
  }

  lemma PrefixSets(p: string, s: string, radix: int, minus: bool)
    requires Prefix(p, radix) && AllRead(s, radix) && (p == "" ==> At(s, 0) != '0')
    ensures var t := (if minus then "-" else "") + p + s;
      Radix(t) == radix && t[DigitsStart(t)..] == s && (At(t, 0) == '-' <==> minus)
  {
    var t := (if minus then "-" else "") + p + s;
    assert s != "" ==> DigitValue(s[0], radix).Some?;
    var n := |t| - |s|;
    assert t[n..] == s;
    assert At(t, n) == At(s, 0);
    assert p == "" || (At(t, n - |p|) == '0' && (|p| == 2 ==> At(t, n - 1) == 'x'));
  }

  lemma PrefixedDigits(p: string, v: int, radix: int, minus: bool)
    requires Prefix(p, radix) && v >= 0
    ensures Parsed((if minus then "-" else "") + p + Digits(v, radix)) == if minus then -v else v
  {
    ParseOfDigits(v, radix);
    PrefixSets(p, Digits(v, radix), radix, minus);
  }

  /** Digits behind 0 are read as octal, behind 0x as hexadecimal, and otherwise as decimal ones; a minus
      sign may stand first. */
  lemma PrefixedParse(v: int)
    requires v >= 0
    ensures Parsed("0" + Digits(v, 8)) == v && Parsed("-0" + Digits(v, 8)) == -v
    ensures Parsed("0x" + Digits(v, 16)) == v && Parsed("-0x" + Digits(v, 16)) == -v
    ensures Parsed(Digits(v, 10)) == v && Parsed("-" + Digits(v, 10)) == -v
  {
    PrefixedDigits("0", v, 8, false);
    PrefixedDigits("0", v, 8, true);
    PrefixedDigits("0x", v, 16, false);
    PrefixedDigits("0x", v, 16, true);
    PrefixedDigits("", v, 10, false);
    PrefixedDigits("", v, 10, true);
    assert "" + "0" == "0" && "-" + "0" == "-0" && "" + "0x" == "0x" && "-" + "0x" == "-0x";
    assert "" + "" + Digits(v, 10) == Digits(v, 10) && "-" + "" == "-";
  }

  /** So every number that fits comes back from its octal and hexadecimal digits. */
  lemma PrefixedParseFits(v: int)
    requires Fits(v)
    ensures v >= 0 ==> Wrap(Parsed("0" + Digits(v, 8))) == v && Wrap(Parsed("0x" + Digits(v, 16))) == v
    ensures v <= 0 ==> Wrap(Parsed("-0" + Digits(-v, 8))) == v && Wrap(Parsed("-0x" + Digits(-v, 16))) == v
  {
    WrapFits(v);
    PrefixedParse(Abs(v));
  }
}
