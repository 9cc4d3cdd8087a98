/** Pairs of 64-bit words as 128-bit numbers in two's complement: what the word operations of the source
    mean for the number. */
module Words128 {
  import opened WordBits
  import opened Arithmetic

  const TWO127: int := W * HALF
  const TWO128: int := W * W

  predicate Words(lo: int, hi: int) {
    0 <= lo < W && -HALF <= hi < HALF
  }

  /** The number that lo and hi stand for. */
  function V(lo: int, hi: int): int {
    hi * W + lo
  }

  predicate Fits(x: int) {
    -TWO127 <= x < TWO127
  }

  /** Wrapping to 128 bits. */
  function Wrap(x: int): (r: int)
    ensures Fits(r)
  {
    if x % TWO128 < TWO127 then x % TWO128 else x % TWO128 - TWO128
  }

  lemma WrapCongruent(x: int)
    ensures Congruent(Wrap(x), x, TWO128)
  {
    var q := x / TWO128;
    assert x == q * TWO128 + x % TWO128;
    if x % TWO128 < TWO127 {
      assert By(Wrap(x), x, -q, TWO128);
    } else {
      assert By(Wrap(x), x, -q - 1, TWO128);
    }
  }

  /** The wrapped number is the only one in range that is congruent. */
  lemma WrapUnique(v: int, x: int)
    requires Fits(v) && Congruent(v, x, TWO128)
    ensures v == Wrap(x)
  {
    WrapCongruent(x);
    var k :| By(Wrap(x), x, k, TWO128);
    assert By(x, Wrap(x), -k, TWO128);
    CongruentTrans(v, x, Wrap(x), TWO128);
    CongruentEqual(v, Wrap(x), TWO128, -TWO127);
  }

  lemma WrapFits(x: int)
    requires Fits(x)
    ensures Wrap(x) == x
  {
    CongruentSelf(x, TWO128);
    WrapUnique(x, x);
  }

  /** Wrapping an operand changes no sum and no product. */
  lemma WrapSum(x: int, y: int)
    ensures Wrap(Wrap(x) + y) == Wrap(x + y)
  {
    WrapCongruent(x);
    CongruentSelf(y, TWO128);
    CongruentSum(Wrap(x), x, y, y, TWO128);
    WrapCongruent(Wrap(x) + y);
    CongruentTrans(Wrap(Wrap(x) + y), Wrap(x) + y, x + y, TWO128);
    WrapUnique(Wrap(Wrap(x) + y), x + y);
  }

  lemma WrapTimes(x: int, c: int)
    ensures Wrap(Wrap(x) * c) == Wrap(x * c)
  {
    WrapCongruent(x);
    CongruentTimes(Wrap(x), x, c, TWO128);
    WrapCongruent(Wrap(x) * c);
    CongruentTrans(Wrap(Wrap(x) * c), Wrap(x) * c, x * c, TWO128);
    WrapUnique(Wrap(Wrap(x) * c), x * c);
  }

  lemma WrapShift(x: int, k: int)
    ensures Wrap(x + k * TWO128) == Wrap(x)
  {
    WrapCongruent(x);
    var j :| By(Wrap(x), x, j, TWO128);
    assert By(x, x + k * TWO128, -k, TWO128);
    CongruentTrans(Wrap(x), x, x + k * TWO128, TWO128);
    WrapUnique(Wrap(x), x + k * TWO128);
  }

  lemma Range(lo: int, hi: int)
    requires Words(lo, hi)
    ensures Fits(V(lo, hi))
    ensures V(lo, hi) < 0 <==> hi < 0
    ensures V(lo, hi) == 0 <==> lo == 0 && hi == 0
  {
  }

  /** Different words are different numbers. */
  lemma Injective(lo: int, hi: int, lo': int, hi': int)
    requires Words(lo, hi) && Words(lo', hi') && V(lo, hi) == V(lo', hi')
    ensures lo == lo' && hi == hi'
  {
    QuotientUnique(W, hi, lo, hi', lo');
  }

  lemma Signed(x: int)
    ensures Congruent(S(x), x, W)
  {
    var q := x / W;
    assert x == q * W + x % W;
    assert By(S(x), x, if x % W < HALF then -q else -q - 1, W);
  }

  /** A sum of words: the high words and the carry wrap, the low word keeps the rest. */
  lemma FromWords(lo: int, hi: int, x: int, c: int)
    requires 0 <= lo < W && x == hi * W + lo + c * TWO128
    ensures V(lo, S(hi)) == Wrap(x)
  {
    Signed(hi);
    var k :| By(S(hi), hi, k, W);
    assert (hi + k * W) * W == hi * W + k * TWO128;
    assert V(lo, S(hi)) == x + (k - c) * TWO128;
    assert By(V(lo, S(hi)), x, k - c, TWO128);
    Range(lo, S(hi));
    WrapUnique(V(lo, S(hi)), x);
  }

  lemma SignedTwice(x: int, y: int)
    ensures S(S(x) + y) == S(x + y)
  {
    Signed(x);
    Signed(x + y);
    Signed(S(x) + y);
    var a :| By(S(x), x, a, W);
    var b :| By(S(x + y), x + y, b, W);
    var c :| By(S(S(x) + y), S(x) + y, c, W);
    assert (a + c) * W == a * W + c * W;
    assert By(S(S(x) + y), S(x + y), a + c - b, W);
    CongruentEqual(S(S(x) + y), S(x + y), W, -HALF);
  }

  // ---------- negation and addition ----------

  lemma NegWords(lo: int, hi: int)
    requires Words(lo, hi)
    ensures lo == 0 ==> V(0, S(-hi)) == Wrap(-V(lo, hi))
    ensures lo != 0 ==> U(-lo) == W - lo && V(U(-lo), S(-1 - hi)) == Wrap(-V(lo, hi))
  {
    if lo == 0 {
      FromWords(0, -hi, -V(lo, hi), 0);
    } else {
      DivUnique(-lo, W, -1, W - lo);
      FromWords(W - lo, -1 - hi, -V(lo, hi), 0);
    }
  }

  lemma AddWords(lo: int, hi: int, lo': int, hi': int)
    requires Words(lo, hi) && Words(lo', hi')
    ensures U(lo + lo') < lo <==> lo + lo' >= W
    ensures V(U(lo + lo'), if U(lo + lo') < lo then S(S(hi + hi') + 1) else S(hi + hi'))
      == Wrap(V(lo, hi) + V(lo', hi'))
  {
    WordSum(lo, lo');
    if lo + lo' >= W {
      SignedTwice(hi + hi', 1);
      FromWords(lo + lo' - W, hi + hi' + 1, V(lo, hi) + V(lo', hi'), 0);
    } else {
      FromWords(lo + lo', hi + hi', V(lo, hi) + V(lo', hi'), 0);
    }
  }

  lemma WordSum(a: int, b: int)
    requires 0 <= a < W && 0 <= b < W
    ensures U(a + b) == if a + b >= W then a + b - W else a + b
  {
    DivUnique(a + b, W, if a + b >= W then 1 else 0, if a + b >= W then a + b - W else a + b);
  }

  // ---------- shifts ----------

  lemma Pow2Split(n: nat)
    requires n <= 64
    ensures Pow2(n) * Pow2(64 - n) == W
  {
    Pow2Word();
    Pow2Add(n, 64 - n);
  }

  /** Splitting a word at bit k, where p * s == W. */
  lemma WordSplit(lo: int, p: int, s: int)
    requires 0 <= lo < W && p > 0 && s > 0 && p * s == W
    ensures 0 <= lo / s < p && lo * p == (lo / s) * W + (lo % s) * p
    ensures 0 <= (lo % s) * p < W && U(lo * p) == (lo % s) * p
  {
    var q, r := lo / s, lo % s;
    assert lo == q * s + r;
    MulSum(q * s, r, p);
    MulAssoc(q, s, p);
    assert s * p == W;
    assert q >= 0 by {
      if q < 0 {
        MulGap(q, 0, s);
      }
    }
    BelowProduct(q, s, p);
    assert r * p < s * p by {
      MulGap(r, s, p);
    }
    assert 0 <= r * p;
    DivUnique(lo * p, W, q, r * p);
  }

  lemma CutLow(lo: int, p: int)
    requires p > 0
    ensures (lo - lo % p) / p == lo / p
  {
    DivMod(lo, p);
    DivUnique((lo / p) * p, p, lo / p, 0);
  }

  /** The high part of a masked word, shifted down. */
  lemma MaskedHigh(lo: nat, k: nat)
    requires lo < W && k <= 64
    ensures W - 1 - (Pow2(k) - 1) >= 0 && And(lo, W - 1 - (Pow2(k) - 1)) / Pow2(k) == lo / Pow2(k)
  {
    Pow2Word();
    AndHighMask(lo, k, 64);
    DivUnique(lo, W, 0, lo);
    CutLow(lo, Pow2(k));
  }

  /** A shifted word has its low bits free: filling them is adding. */
  lemma FillLow(hi: int, part: nat, n: nat)
    requires n <= 64 && part < Pow2(n)
    ensures Or(U(S(hi * Pow2(n))), part) == U(hi * Pow2(n)) + part
    ensures Congruent(U(hi * Pow2(n)) + part, hi * Pow2(n) + part, W)
  {
    var p, s := Pow2(n), Pow2(64 - n);
    Pow2Split(n);
    SignedUnsigned(hi * p);
    var q, r := hi / s, hi % s;
    DivMod(hi, s);
    ShiftedOut(hi, p, s, q, r);
    OrDisjoint(part, r, n);
    OrCommutes(r * p, part);
    assert By(U(hi * p) + part, hi * p + part, -q, W);
  }

  lemma ShiftedOut(hi: int, p: int, s: int, q: int, r: int)
    requires p > 0 && p * s == W && hi == q * s + r && 0 <= r < s
    ensures hi * p == q * W + r * p && U(hi * p) == r * p
  {
    MulSum(q * s, r, p);
    MulAssoc(q, s, p);
    assert s * p == W;
    MulGap(r, s, p);
    MulNonNegative(r, p);
    DivUnique(hi * p, W, q, r * p);
  }

  lemma SignedUnsigned(x: int)
    ensures U(S(x)) == U(x)
  {
    Signed(x);
    var k :| By(S(x), x, k, W);
    var q := x / W;
    assert x == q * W + x % W;
    assert S(x) == (q + k) * W + x % W by {
      MulSum(q, k, W);
    }
    DivUnique(S(x), W, q + k, x % W);
  }

  lemma SignedCongruent(x: int, y: int)
    requires Congruent(x, y, W)
    ensures S(x) == S(y)
  {
    Signed(x);
    Signed(y);
    var k :| By(S(y), y, k, W);
    assert By(y, S(y), -k, W);
    CongruentTrans(S(x), x, y, W);
    CongruentTrans(S(x), y, S(y), W);
    CongruentEqual(S(x), S(y), W, -HALF);
  }

  /** Shifting left by less than a word. */
  lemma ShlMid(lo: int, hi: int, n: nat)
    requires Words(lo, hi) && 0 < n < 64
    ensures W - 1 - (Pow2(64 - n) - 1) >= 0
    ensures var part := And(lo, W - 1 - (Pow2(64 - n) - 1)) / Pow2(64 - n);
      V(U(lo * Pow2(n)), S(Or(U(S(hi * Pow2(n))), part))) == Wrap(V(lo, hi) * Pow2(n))
  {
    var p, s := Pow2(n), Pow2(64 - n);
    Pow2Split(n);
    MaskedHigh(lo, 64 - n);
    var part := lo / s;
    WordSplit(lo, p, s);
    FillLow(hi, part, n);
    SignedCongruent(U(hi * p) + part, hi * p + part);
    MulSum(hi * W, lo, p);
    MulAssoc(hi, W, p);
    MulAssoc(hi, p, W);
    MulSum(hi * p, part, W);
    FromWords(U(lo * p), hi * p + part, V(lo, hi) * p, 0);
  }

  /** Shifting left by a word or more. */
  lemma ShlFar(lo: int, hi: int, n: nat)
    requires Words(lo, hi) && 64 <= n
    ensures V(0, S(lo * Pow2(n - 64))) == Wrap(V(lo, hi) * Pow2(n))
  {
    var p := Pow2(n - 64);
    Pow2Word();
    Pow2Add(64, n - 64);
    assert Pow2(n) == W * p;
    MulSum(hi * W, lo, W * p);
    assert (hi * W) * (W * p) == (hi * p) * TWO128;
    assert lo * (W * p) == (lo * p) * W;
    FromWords(0, lo * p, V(lo, hi) * Pow2(n), hi * p);
  }

  lemma ShlOut(x: int, n: nat)
    requires 128 <= n
    ensures Wrap(x * Pow2(n)) == 0
  {
    var p := Pow2(n - 128);
    Pow2Word();
    Pow2Add(64, 64);
    Pow2Add(n - 128, 128);
    MulAssoc(x, p, TWO128);
    WrapShift(0, x * p);
    WrapFits(0);
  }

  lemma ModOfWord(hi: int, n: nat)
    requires n <= 64
    ensures U(hi) % Pow2(n) == hi % Pow2(n)
  {
    var p, s := Pow2(n), Pow2(64 - n);
    Pow2Split(n);
    var q := hi / W;
    var a, r := U(hi) / p, U(hi) % p;
    DivMod(U(hi), p);
    SplitTwice(hi, q, U(hi), a, p, s, r);
    DivUnique(hi, p, q * s + a, r);
  }

  lemma SplitTwice(hi: int, q: int, u: int, a: int, p: int, s: int, r: int)
    requires hi == q * W + u && u == a * p + r && p * s == W
    ensures hi == (q * s + a) * p + r
  {
    MulSum(q * s, a, p);
    MulAssoc(q, s, p);
    assert s * p == W;
  }

  /** Shifting right by less than a word. */
  lemma ShrMid(lo: int, hi: int, n: nat)
    requires Words(lo, hi) && 0 < n < 64
    ensures var t := U(And(U(hi), Pow2(n) - 1) * Pow2(64 - n));
      Words(Or(lo / Pow2(n), t), hi / Pow2(n)) && V(Or(lo / Pow2(n), t), hi / Pow2(n)) == V(lo, hi) / Pow2(n)
  {
    var p, s := Pow2(n), Pow2(64 - n);
    Pow2Split(n);
    AndMask(U(hi), n);
    ModOfWord(hi, n);
    var c := hi % p;
    WordSplit(lo, s, p);
    RemainderShift(c, p, s);
    OrDisjoint(lo / p, c, 64 - n);
    var h, l := hi / p, lo / p;
    DivMod(hi, p);
    DivMod(lo, p);
    Regroup(h, l, c, p, s, lo % p);
    DivUnique(V(lo, hi), p, h * W + l + c * s, lo % p);
    HighInRange(hi, p);
  }

  lemma RemainderShift(c: int, p: int, s: int)
    requires 0 <= c < p && s > 0 && p * s == W
    ensures 0 <= c * s <= W - s && U(c * s) == c * s
  {
    MulGap(c, p, s);
    assert 0 <= c * s;
    DivUnique(c * s, W, 0, c * s);
  }

  lemma Regroup(h: int, l: int, c: int, p: int, s: int, r: int)
    requires p * s == W
    ensures (h * p + c) * W + (l * p + r) == (h * W + l + c * s) * p + r
  {
    assert c * W == (c * s) * p by {
      MulAssoc(c, s, p);
    }
    assert (h * p) * W == (h * W) * p;
    MulSum(h * p, c, W);
    MulSum(h * W + l, c * s, p);
    MulSum(h * W, l, p);
  }

  /** A floored quotient lies between its dividend and zero, and has its sign. */
  lemma QuotientBetween(x: int, p: int)
    requires p >= 1
    ensures x >= 0 ==> 0 <= x / p <= x
    ensures x < 0 ==> x <= x / p < 0
  {
    DivMod(x, p);
    Between(x, p, x / p, x % p);
  }

  lemma Between(x: int, p: int, q: int, r: int)
    requires p >= 1 && x == q * p + r && 0 <= r < p
    ensures x >= 0 ==> 0 <= q <= x
    ensures x < 0 ==> x <= q < 0
  {
    if q >= 0 {
      MulNonNegative(p - 1, q);
      MulSum(p - 1, 1, q);
    } else {
      MulNonNegative(p - 1, -1 - q);
      MulSum(p - 1, 1, -1 - q);
      MulSum(-1 - q, 1 + q, p);
      MulSum(q, 1, p);
    }
  }

  lemma HighInRange(hi: int, p: int)
    requires -HALF <= hi < HALF && p >= 1
    ensures -HALF <= hi / p < HALF
  {
    QuotientBetween(hi, p);
  }

  /** Shifting right by a word or more, the sign spreading. */
  lemma ShrFar(lo: int, hi: int, n: nat)
    requires Words(lo, hi) && 64 <= n
    ensures V(U(hi / Pow2(n - 64)), if hi < 0 then -1 else 0) == V(lo, hi) / Pow2(n)
  {
    var p := Pow2(n - 64);
    HighQuotient(lo, hi, n - 64);
    HighInRange(hi, p);
    QuotientBetween(hi, p);
    SignFills(hi / p);
  }

  /** A signed word, with its sign in the high word. */
  lemma SignFills(x: int)
    requires -HALF <= x < HALF
    ensures V(U(x), if x < 0 then -1 else 0) == x
  {
    DivUnique(x, W, if x < 0 then -1 else 0, if x < 0 then x + W else x);
  }

  /** Shifting right by 128 or more leaves the sign. */
  lemma ShrOut(x: int, n: nat)
    requires Fits(x) && 128 <= n
    ensures x / Pow2(n) == if x < 0 then -1 else 0
  {
    Pow2Word();
    Pow2Add(64, 64);
    Pow2Monotone(128, n);
    DivUnique(x, Pow2(n), if x < 0 then -1 else 0, if x < 0 then x + Pow2(n) else x);
  }

  // ---------- single bits ----------

  lemma EvenPart(k: int, b: int)
    ensures (2 * k + b) % 2 == b % 2
  {
  }

  /** Bit n below the word boundary is a bit of lo ... */
  lemma BitLow(lo: int, hi: int, n: nat)
    requires Words(lo, hi) && n < 64
    ensures BitOf(V(lo, hi), n) == BitOf(lo, n)
  {
    var p, s := Pow2(n), Pow2(64 - n);
    Pow2Split(n);
    var q, r := lo / p, lo % p;
    assert lo == q * p + r;
    assert V(lo, hi) == (hi * s + q) * p + r by {
      MulSum(hi * s, q, p);
      MulAssoc(hi, s, p);
    }
    DivUnique(V(lo, hi), p, hi * s + q, r);
    assert s == 2 * Pow2(63 - n);
    assert hi * s == 2 * (hi * Pow2(63 - n));
    EvenPart(hi * Pow2(63 - n), q);
  }

  /** ... and above it of hi. */
  lemma BitHigh(lo: int, hi: int, n: nat)
    requires Words(lo, hi) && 64 <= n < 128
    ensures BitOf(V(lo, hi), n) == BitOf(U(hi), n - 64) == BitOf(hi, n - 64)
  {
    var k := n - 64;
    HighQuotient(lo, hi, k);
    if hi < 0 {
      DivUnique(hi, W, -1, hi + W);
      BitLow(U(hi), -1, k);
    } else {
      DivUnique(hi, W, 0, hi);
    }
  }

  lemma HighQuotient(lo: int, hi: int, k: nat)
    requires Words(lo, hi)
    ensures V(lo, hi) / Pow2(k + 64) == hi / Pow2(k)
  {
    var p := Pow2(k);
    WordTimes(k);
    DivMod(hi, p);
    HighParts(lo, hi, p, hi / p, hi % p);
    DivUnique(V(lo, hi), p * W, hi / p, (hi % p) * W + lo);
  }

  lemma HighParts(lo: int, hi: int, p: int, q: int, r: int)
    requires 0 <= lo < W && hi == q * p + r && 0 <= r < p
    ensures hi * W + lo == q * (p * W) + (r * W + lo) && 0 <= r * W + lo < p * W
  {
    MulSum(q * p, r, W);
    MulAssoc(q, p, W);
    MulGap(r, p, W);
  }

  lemma SetBitLow(lo: int, hi: int, n: nat)
    requires Words(lo, hi) && n < 64
    ensures Words(Or(lo, Pow2(n)), hi)
    ensures V(Or(lo, Pow2(n)), hi) == Wrap(V(lo, hi) + (1 - BitOf(V(lo, hi), n)) * Pow2(n))
    ensures W - 1 - Pow2(n) >= 0 && Words(And(lo, W - 1 - Pow2(n)), hi)
    ensures V(And(lo, W - 1 - Pow2(n)), hi) == Wrap(V(lo, hi) - BitOf(V(lo, hi), n) * Pow2(n))
  {
    BitLow(lo, hi, n);
    OrBit(lo, n);
    Pow2Word();
    AndClear(lo, n, 64);
    BitRoom(lo, n);
    var b := BitOf(lo, n);
    TimesBit(b, Pow2(n));
    TimesBit(1 - b, Pow2(n));
    LowChange(lo, hi, (1 - b) * Pow2(n));
    LowChange(lo, hi, -(b * Pow2(n)));
  }

  /** Changing the low word only. */
  lemma LowChange(lo: int, hi: int, d: int)
    requires Words(lo, hi) && 0 <= lo + d < W
    ensures Words(lo + d, hi) && V(lo + d, hi) == Wrap(V(lo, hi) + d)
  {
    Range(lo + d, hi);
    WrapFits(V(lo + d, hi));
  }

  /** A word has room for a bit that is not set. */
  lemma BitRoom(lo: int, n: nat)
    requires 0 <= lo < W && n < 64
    ensures BitOf(lo, n) == 0 ==> lo + Pow2(n) < W
    ensures BitOf(lo, n) == 1 ==> lo - Pow2(n) >= 0
  {
    var p, s := Pow2(n), Pow2(63 - n);
    Pow2Split(n);
    assert Pow2(64 - n) == 2 * s;
    DivMod(lo, p);
    RoomForBit(lo, p, s, lo / p, lo % p);
  }

  lemma RoomForBit(lo: int, p: int, s: int, q: int, r: int)
    requires 0 <= lo < W && lo == q * p + r && 0 <= r < p && p * (2 * s) == W
    ensures q % 2 == 0 ==> lo + p < W
    ensures q % 2 == 1 ==> lo - p >= 0
  {
    if q < 0 {
      MulGap(q, 0, p);
    }
    assert (2 * s) * p == W;
    BelowProduct(q, p, 2 * s);
    if q % 2 == 0 {
      MulGap(q + 1, 2 * s, p);
      MulSum(q, 1, p);
    } else {
      MulNonNegative(q - 1, p);
      MulSum(q - 1, 1, p);
    }
  }

  lemma SetBitHigh(lo: int, hi: int, n: nat)
    requires Words(lo, hi) && 64 <= n < 128
    ensures V(lo, S(Or(U(hi), Pow2(n - 64)))) == Wrap(V(lo, hi) + (1 - BitOf(V(lo, hi), n)) * Pow2(n))
  {
    BitHigh(lo, hi, n);
    OrBit(U(hi), n - 64);
    HighChange(lo, hi, 1 - BitOf(U(hi), n - 64), n);
  }

  lemma ClearBitHigh(lo: int, hi: int, n: nat)
    requires Words(lo, hi) && 64 <= n < 128
    ensures W - 1 - Pow2(n - 64) >= 0
    ensures V(lo, S(And(U(hi), W - 1 - Pow2(n - 64)))) == Wrap(V(lo, hi) - BitOf(V(lo, hi), n) * Pow2(n))
  {
    BitHigh(lo, hi, n);
    WordClear(U(hi), n - 64);
    HighChange(lo, hi, -BitOf(U(hi), n - 64), n);
    NegateProduct(BitOf(U(hi), n - 64), Pow2(n - 64));
    NegateProduct(BitOf(U(hi), n - 64), Pow2(n));
  }

  lemma WordClear(x: nat, k: nat)
    requires x < W && k < 64
    ensures W - 1 - Pow2(k) >= 0 && And(x, W - 1 - Pow2(k)) == x - BitOf(x, k) * Pow2(k)
  {
    Pow2Word();
    AndClear(x, k, 64);
  }

  lemma HighChange(lo: int, hi: int, c: int, n: nat)
    requires Words(lo, hi) && 64 <= n
    ensures V(lo, S(U(hi) + c * Pow2(n - 64))) == Wrap(V(lo, hi) + c * Pow2(n))
  {
    HighProduct(lo, hi, c, n - 64);
  }

  lemma NegateProduct(b: int, x: int)
    ensures -b * x == -(b * x)
  {
  }

  lemma WordTimes(k: nat)
    ensures Pow2(k) * W == Pow2(k + 64)
  {
    Pow2Word();
    Pow2Add(k, 64);
  }

  lemma HighProduct(lo: int, hi: int, c: int, k: nat)
    requires Words(lo, hi)
    ensures V(lo, S(U(hi) + c * Pow2(k))) == Wrap(V(lo, hi) + c * Pow2(k + 64))
  {
    DivMod(hi, W);
    HighSum(lo, hi, hi / W, c * Pow2(k));
    MulAssoc(c, Pow2(k), W);
    WordTimes(k);
  }

  lemma HighSum(lo: int, hi: int, q: int, d: int)
    requires Words(lo, hi) && hi == q * W + U(hi)
    ensures V(lo, S(U(hi) + d)) == Wrap(V(lo, hi) + d * W)
  {
    MulSum(U(hi), d, W);
    assert (q * W) * W == q * TWO128;
    MulSum(q * W, U(hi), W);
    FromWords(lo, U(hi) + d, V(lo, hi) + d * W, q);
  }
}
