/** Machine words as numbers: powers of two, bitwise operations, and wrapping. */
module WordBits {
  import opened Arithmetic

  const W: int := 0x1_0000_0000_0000_0000
  const HALF: int := 0x8000_0000_0000_0000

  lemma {:induction false} Pow2Add(a: nat, b: nat)
    ensures Pow2(a + b) == Pow2(a) * Pow2(b)
  {
    if a > 0 {
      Pow2Add(a - 1, b);
      assert 2 * (Pow2(a - 1) * Pow2(b)) == (2 * Pow2(a - 1)) * Pow2(b);
    }
  }

  lemma Pow2Word()
    ensures Pow2(63) == HALF && Pow2(64) == W
  {
    assert Pow2(0) == 1 && Pow2(1) == 2 && Pow2(2) == 4 && Pow2(3) == 8;
    Pow2Square(4, 16);
    Pow2Square(8, 256);
    Pow2Square(16, 0x1_0000);
    Pow2Square(32, 0x1_0000_0000);
  }

  lemma Pow2Square(k: nat, v: int)
    requires Pow2(k) == v
    ensures Pow2(2 * k) == v * v
  {
    Pow2Add(k, k);
  }

  lemma {:induction false} Pow2Monotone(a: nat, b: nat)
    requires a <= b
    ensures Pow2(a) <= Pow2(b)
  {
    if a < b {
      Pow2Monotone(a, b - 1);
    }
  }

  // ---------- bitwise and, or ----------

  function And(a: nat, b: nat): nat {
    if a == 0 || b == 0 then 0 else (if a % 2 == 1 && b % 2 == 1 then 1 else 0) + 2 * And(a / 2, b / 2)
  }

  function Or(a: nat, b: nat): nat {
    if a == 0 then b else if b == 0 then a else (if a % 2 == 1 || b % 2 == 1 then 1 else 0) + 2 * Or(a / 2, b / 2)
  }

  /** Bit n of a. */
  function BitOf(a: int, n: nat): int {
    (a / Pow2(n)) % 2
  }

  lemma Halve(a: int, k: nat)
    requires k > 0
    ensures a / Pow2(k) == (a / 2) / Pow2(k - 1)
    ensures a % Pow2(k) == 2 * ((a / 2) % Pow2(k - 1)) + a % 2
  {
    var p := Pow2(k - 1);
    var h := a / 2;
    var q, r := h / p, h % p;
    assert h == q * p + r;
    assert a == 2 * h + a % 2;
    assert a == q * (2 * p) + (2 * r + a % 2) by {
      assert 2 * (q * p) == q * (2 * p);
    }
    DivUnique(a, 2 * p, q, 2 * r + a % 2);
  }

  lemma BitZero(a: int)
    ensures BitOf(a, 0) == a % 2
  {
  }

  lemma BitNext(a: int, n: nat)
    requires n > 0
    ensures BitOf(a, n) == BitOf(a / 2, n - 1)
  {
    Halve(a, n);
  }

  /** The remainder modulo a power of two, halved. */
  lemma ModHalf(a: nat, k: nat)
    requires k > 0
    ensures a % Pow2(k) >= 0 && (a % Pow2(k)) / 2 == (a / 2) % Pow2(k - 1) && (a % Pow2(k)) % 2 == a % 2
  {
    Halve(a, k);
    HalfOf(a % Pow2(k), (a / 2) % Pow2(k - 1), a % 2);
  }

  lemma HalfOf(a: int, h: int, c: int)
    requires a == 2 * h + c && 0 <= c <= 1
    ensures a / 2 == h && a % 2 == c
  {
  }

  /** Or-ing disjoint words is adding them. */
  lemma {:induction false} OrDisjoint(a: nat, c: nat, k: nat)
    requires a < Pow2(k)
    ensures Or(a, c * Pow2(k)) == a + c * Pow2(k)
  {
    if k > 0 && a > 0 && c > 0 {
      var b := c * Pow2(k);
      assert b == 2 * (c * Pow2(k - 1));
      OrDisjoint(a / 2, c, k - 1);
    }
  }

  lemma {:induction false} OrCommutes(a: nat, b: nat)
    ensures Or(a, b) == Or(b, a)
    decreases a + b
  {
    if a > 0 && b > 0 {
      OrCommutes(a / 2, b / 2);
    }
  }

  /** The low k bits of a number, and bit n, one bit at a time. */
  function Low(a: nat, k: nat): nat {
    if k == 0 then 0 else 2 * Low(a / 2, k - 1) + a % 2
  }

  function Test(a: nat, n: nat): bool {
    if n == 0 then a % 2 == 1 else Test(a / 2, n - 1)
  }

  lemma {:induction false} LowIsMod(a: nat, k: nat)
    ensures Low(a, k) == a % Pow2(k)
  {
    if k > 0 {
      LowIsMod(a / 2, k - 1);
      Halve(a, k);
    }
  }

  lemma {:induction false} TestIsBit(a: nat, n: nat)
    ensures BitOf(a, n) == if Test(a, n) then 1 else 0
  {
    if n > 0 {
      TestIsBit(a / 2, n - 1);
      BitNext(a, n);
    }
  }

  lemma AndStep(a: nat, mask: nat, half: nat, c: nat)
    requires mask == 2 * half + c && c <= 1
    ensures And(a, mask) == 2 * And(a / 2, half) + if c == 1 then a % 2 else 0
  {
  }

  lemma OrStep(a: nat, mask: nat, half: nat)
    requires mask == 2 * half
    ensures Or(a, mask) == 2 * Or(a / 2, half) + a % 2
  {
  }

  lemma {:induction false} AndLow(a: nat, k: nat)
    ensures And(a, Pow2(k) - 1) == Low(a, k)
  {
    if k > 0 {
      AndLow(a / 2, k - 1);
      AndStep(a, Pow2(k) - 1, Pow2(k - 1) - 1, 1);
    }
  }

  lemma {:induction false} AndBetween(a: nat, j: nat, m: nat)
    requires j <= m
    ensures Pow2(m) - Pow2(j) >= 0 && And(a, Pow2(m) - Pow2(j)) == Low(a, m) - Low(a, j)
  {
    Pow2Monotone(j, m);
    if j == 0 {
      AndLow(a, m);
    } else {
      AndBetween(a / 2, j - 1, m - 1);
      AndStep(a, Pow2(m) - Pow2(j), Pow2(m - 1) - Pow2(j - 1), 0);
    }
  }

  lemma {:induction false} AndTest(a: nat, n: nat)
    ensures And(a, Pow2(n)) == if Test(a, n) then Pow2(n) else 0
  {
    if n > 0 {
      AndTest(a / 2, n - 1);
      AndStep(a, Pow2(n), Pow2(n - 1), 0);
    } else {
      AndStep(a, 1, 0, 1);
    }
  }

  lemma {:induction false} OrTest(a: nat, n: nat)
    ensures Or(a, Pow2(n)) == a + if Test(a, n) then 0 else Pow2(n)
  {
    if n > 0 {
      OrTest(a / 2, n - 1);
      OrStep(a, Pow2(n), Pow2(n - 1));
    } else {
      assert Or(a / 2, 0) == a / 2;
    }
  }

  lemma {:induction false} ClearTest(a: nat, n: nat, m: nat)
    requires n < m && a < Pow2(m)
    ensures Pow2(m) - 1 - Pow2(n) >= 0 && And(a, Pow2(m) - 1 - Pow2(n)) == a - if Test(a, n) then Pow2(n) else 0
  {
    if n == 0 {
      ClearLowest(a, m);
    } else {
      Pow2Monotone(n, m - 1);
      ClearTest(a / 2, n - 1, m - 1);
      AndStep(a, Pow2(m) - 1 - Pow2(n), Pow2(m - 1) - 1 - Pow2(n - 1), 1);
    }
  }

  lemma ClearLowest(a: nat, m: nat)
    requires 0 < m && a < Pow2(m)
    ensures Pow2(m) - 2 >= 0 && And(a, Pow2(m) - 2) == a - a % 2
  {
    LowIsAll(a / 2, m - 1);
    AndLow(a / 2, m - 1);
    AndStep(a, Pow2(m) - 2, Pow2(m - 1) - 1, 0);
  }

  lemma {:induction false} LowIsAll(a: nat, k: nat)
    requires a < Pow2(k)
    ensures Low(a, k) == a
  {
    if k > 0 {
      LowIsAll(a / 2, k - 1);
    }
  }

  /** Masking the low k bits takes the remainder. */
  lemma AndMask(a: nat, k: nat)
    ensures And(a, Pow2(k) - 1) == a % Pow2(k)
  {
    AndLow(a, k);
    LowIsMod(a, k);
  }

  /** Masking the bits from j up to m. */
  lemma AndHighMask(a: nat, j: nat, m: nat)
    requires j <= m
    ensures Pow2(m) - Pow2(j) >= 0 && And(a, Pow2(m) - Pow2(j)) == a % Pow2(m) - a % Pow2(j)
  {
    AndBetween(a, j, m);
    LowIsMod(a, j);
    LowIsMod(a, m);
  }

  /** Testing one bit. */
  lemma AndBit(a: nat, n: nat)
    ensures And(a, Pow2(n)) == BitOf(a, n) * Pow2(n)
  {
    AndTest(a, n);
    TestIsBit(a, n);
    TimesBit(BitOf(a, n), Pow2(n));
  }

  /** Setting one bit. */
  lemma OrBit(a: nat, n: nat)
    ensures Or(a, Pow2(n)) == a + (1 - BitOf(a, n)) * Pow2(n)
  {
    OrTest(a, n);
    TestIsBit(a, n);
    TimesBit(1 - BitOf(a, n), Pow2(n));
  }

  /** Clearing one bit of an m-bit word. */
  lemma AndClear(a: nat, n: nat, m: nat)
    requires n < m && a < Pow2(m)
    ensures Pow2(m) - 1 - Pow2(n) >= 0 && And(a, Pow2(m) - 1 - Pow2(n)) == a - BitOf(a, n) * Pow2(n)
  {
    ClearTest(a, n, m);
    TestIsBit(a, n);
    TimesBit(BitOf(a, n), Pow2(n));
  }

  // ---------- wrapping ----------

  /** Conversion to an unsigned and to a signed 64-bit word. */
  function U(x: int): (r: nat)
    ensures r < W
  {
    x % W
  }

  function S(x: int): (r: int)
    ensures -HALF <= r < HALF
  {
    if x % W < HALF then x % W else x % W - W
  }

  /** x and y differ by a multiple of m. */
  ghost predicate Congruent(x: int, y: int, m: int) {
    exists k :: By(x, y, k, m)
  }

  predicate By(x: int, y: int, k: int, m: int) {
    x == y + k * m
  }

  lemma CongruentSum(x: int, y: int, a: int, b: int, m: int)
    requires Congruent(x, y, m) && Congruent(a, b, m)
    ensures Congruent(x + a, y + b, m)
  {
    var k :| By(x, y, k, m);
    var l :| By(a, b, l, m);
    assert (k + l) * m == k * m + l * m;
    assert By(x + a, y + b, k + l, m);
  }

  lemma CongruentTrans(x: int, y: int, z: int, m: int)
    requires Congruent(x, y, m) && Congruent(y, z, m)
    ensures Congruent(x, z, m)
  {
    var k :| By(x, y, k, m);
    var l :| By(y, z, l, m);
    assert (k + l) * m == k * m + l * m;
    assert By(x, z, k + l, m);
  }

  lemma CongruentTimes(x: int, y: int, c: int, m: int)
    requires Congruent(x, y, m)
    ensures Congruent(x * c, y * c, m)
  {
    var k :| By(x, y, k, m);
    Spread(y, k, m, c);
    assert By(x * c, y * c, k * c, m);
  }

  lemma Spread(y: int, k: int, m: int, c: int)
    ensures (y + k * m) * c == y * c + (k * c) * m
  {
  }

  lemma CongruentSelf(x: int, m: int)
    ensures Congruent(x, x, m)
  {
    assert By(x, x, 0, m);
  }

  /** Two values of one range of size m that are congruent are equal. */
  lemma CongruentEqual(x: int, y: int, m: int, from: int)
    requires m > 0 && Congruent(x, y, m) && from <= x < from + m && from <= y < from + m
    ensures x == y
  {
    var k :| By(x, y, k, m);
    QuotientUnique(m, 0, x - from, k, y - from);
  }
}
