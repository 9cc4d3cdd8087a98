/** Sequences of bits as numbers, the least significant bit first, and counting bits word-parallel. */
module BitSequences {
  import opened WordBits
  import opened Arithmetic
  import opened Sequences

  function Dec(s: seq<bool>): nat {
    if s == [] then 0 else (if s[0] then 1 else 0) + 2 * Dec(s[1..])
  }

  /** Setting a bit; the sequence grows to hold it. */
  function SetAt(s: seq<bool>, pos: nat, v: bool): (r: seq<bool>)
    ensures |r| == if pos < |s| then |s| else pos + 1
    ensures r[pos] == v && forall i :: 0 <= i < |r| && i != pos ==> r[i] == (i < |s| && s[i])
  {
    if pos < |s| then s[pos := v] else s + Falses(pos - |s|) + [v]
  }

  lemma {:induction false} DecBound(s: seq<bool>)
    ensures Dec(s) < Pow2(|s|)
  {
    if s != [] {
      DecBound(s[1..]);
    }
  }

  /** Bit i of the number. */
  lemma {:induction false} DecBit(s: seq<bool>, i: nat)
    ensures BitOf(Dec(s), i) == if i < |s| && s[i] then 1 else 0
  {
    if s == [] {
      DivUnique(0, Pow2(i), 0, 0);
    } else if i > 0 {
      Halve(Dec(s), i);
      DecBit(s[1..], i - 1);
    } else {
      assert Pow2(0) == 1;
    }
  }

  lemma {:induction false} DecFalses(n: nat)
    ensures Dec(Falses(n)) == 0
  {
    if n > 0 {
      assert Falses(n)[1..] == Falses(n - 1);
      DecFalses(n - 1);
    }
  }

  lemma {:induction false} DecAppend(a: seq<bool>, b: seq<bool>)
    ensures Dec(a + b) == Dec(a) + Pow2(|a|) * Dec(b)
  {
    if a == [] {
      assert a + b == b;
    } else {
      assert (a + b)[1..] == a[1..] + b;
      DecAppend(a[1..], b);
      DoubleWeight(Pow2(|a| - 1), Dec(b));
    }
  }

  lemma DoubleWeight(p: int, d: int)
    ensures 2 * (p * d) == (2 * p) * d
  {
  }

  /** What setting a bit adds to the number. */
  lemma {:induction false} DecSet(s: seq<bool>, pos: nat, v: bool)
    ensures Dec(SetAt(s, pos, v)) == Dec(s) + ((if v then 1 else 0) - BitOf(Dec(s), pos)) * Pow2(pos)
  {
    DecBit(s, pos);
    if pos < |s| {
      DecReplace(s, pos, v);
    } else {
      DecAppend(s, Falses(pos - |s|));
      DecAppend(s + Falses(pos - |s|), [v]);
      DecFalses(pos - |s|);
      assert Dec([v]) == if v then 1 else 0;
    }
  }

  lemma {:induction false} DecReplace(s: seq<bool>, pos: nat, v: bool)
    requires pos < |s|
    ensures Dec(s[pos := v]) == Dec(s) + ((if v then 1 else 0) - (if s[pos] then 1 else 0)) * Pow2(pos)
  {
    if pos == 0 {
      assert s[0 := v][1..] == s[1..];
    } else {
      assert s[pos := v][1..] == s[1..][pos - 1 := v];
      DecReplace(s[1..], pos - 1, v);
      TwiceProduct((if v then 1 else 0) - (if s[pos] then 1 else 0), Pow2(pos - 1));
    }
  }

  lemma TwiceProduct(a: int, p: int)
    ensures 2 * (a * p) == a * (2 * p)
  {
  }

  lemma {:induction false} DecInjective(a: seq<bool>, b: seq<bool>)
    requires |a| == |b| && Dec(a) == Dec(b)
    ensures a == b
  {
    if a != [] {
      DecInjective(a[1..], b[1..]);
      assert a == [a[0]] + a[1..] && b == [b[0]] + b[1..];
    }
  }

  // ---------- exclusive or, and distances ----------

  function Xor(a: nat, b: nat): nat
    decreases a + b
  {
    if a == 0 then b else if b == 0 then a else (if a % 2 != b % 2 then 1 else 0) + 2 * Xor(a / 2, b / 2)
  }

  lemma {:induction false} XorHalves(a: nat, b: nat)
    ensures Xor(a, b) == (if a % 2 != b % 2 then 1 else 0) + 2 * Xor(a / 2, b / 2)
  {
  }

  /** Toggling one bit. */
  lemma {:induction false} XorBit(a: nat, n: nat)
    ensures Xor(a, Pow2(n)) == a + (1 - 2 * BitOf(a, n)) * Pow2(n)
  {
    XorHalves(a, Pow2(n));
    if n == 0 {
      assert Pow2(0) == 1 && Xor(a / 2, 0) == a / 2;
    } else {
      XorBit(a / 2, n - 1);
      Halve(a, n);
      TwiceProduct(1 - 2 * BitOf(a, n), Pow2(n - 1));
    }
  }

  /** The number of positions where the sequences differ. */
  function Hamming(a: seq<bool>, b: seq<bool>): nat
    requires |a| == |b|
  {
    if a == [] then 0 else (if a[0] != b[0] then 1 else 0) + Hamming(a[1..], b[1..])
  }

  lemma {:induction false} HammingStep(a: seq<bool>, b: seq<bool>, i: nat)
    requires |a| == |b| && i < |a|
    ensures Hamming(a[..i + 1], b[..i + 1]) == Hamming(a[..i], b[..i]) + if a[i] != b[i] then 1 else 0
  {
    if i > 0 {
      HammingStep(a[1..], b[1..], i - 1);
      assert a[..i + 1][1..] == a[1..][..i] && b[..i + 1][1..] == b[1..][..i];
      assert a[..i][1..] == a[1..][..i - 1] && b[..i][1..] == b[1..][..i - 1];
    }
  }

  // ---------- counting bits word-parallel ----------

  /** The sum of the first k fields of a word cut in fields of values below base. */
  function FieldSum(y: nat, base: nat, k: nat): nat
    requires base > 1
    decreases k
  {
    if k == 0 then 0 else y % base + FieldSum(y / base, base, k - 1)
  }

  lemma {:induction false} XorCounts(a: seq<bool>, b: seq<bool>, k: nat)
    requires |a| == |b| <= k
    ensures FieldSum(Xor(Dec(a), Dec(b)), 2, k) == Hamming(a, b)
  {
    if a == [] {
      ZeroFields(2, k);
    } else {
      XorDigit(a, b);
      XorCounts(a[1..], b[1..], k - 1);
      Digit(Xor(Dec(a), Dec(b)), Xor(Dec(a[1..]), Dec(b[1..])), 2, if a[0] != b[0] then 1 else 0);
    }
  }

  lemma XorDigit(a: seq<bool>, b: seq<bool>)
    requires |a| == |b| > 0
    ensures Xor(Dec(a), Dec(b)) == 2 * Xor(Dec(a[1..]), Dec(b[1..])) + if a[0] != b[0] then 1 else 0
  {
    XorHalves(Dec(a), Dec(b));
    Digit(Dec(a), Dec(a[1..]), 2, if a[0] then 1 else 0);
    Digit(Dec(b), Dec(b[1..]), 2, if b[0] then 1 else 0);
  }

  lemma {:induction false} ZeroFields(base: nat, k: nat)
    requires base > 1
    ensures FieldSum(0, base, k) == 0
  {
    if k > 0 {
      DivUnique(0, base, 0, 0);
      ZeroFields(base, k - 1);
    }
  }

  /** The masks 0x55555555, 0x33333333 and 0x0F0F0F0F, built up field by field. */
  function Repeat(pattern: nat, base: nat, k: nat): nat {
    if k == 0 then 0 else pattern + base * Repeat(pattern, base, k - 1)
  }

  lemma Masks()
    ensures Repeat(1, 4, 16) == 0x55555555 && Repeat(3, 16, 8) == 0x33333333 && Repeat(15, 256, 4) == 0x0F0F0F0F
  {
    assert Repeat(1, 4, 4) == 0x55 && Repeat(1, 4, 8) == 0x5555 && Repeat(1, 4, 12) == 0x555555;
    assert Repeat(3, 16, 4) == 0x3333;
  }

  /** x - ((x >> 1) & 0x5...) */
  function Pairs(x: nat, k: nat): int {
    x - And(x / 2, Repeat(1, 4, k))
  }

  lemma {:induction false} PairParts(x: nat, k: nat)
    requires k > 0
    ensures var d := x % 4 - x / 2 % 2;
      0 <= d <= 2 && d == x % 2 + x / 2 % 2 && Pairs(x, k) == 4 * Pairs(x / 4, k - 1) + d
  {
    AndField1(x / 2, Repeat(1, 4, k - 1));
    assert x / 2 / 4 == x / 4 / 2;
  }

  /** Pairs of bits hold the numbers of their bits. */
  lemma {:induction false} PairStep(x: nat, k: nat)
    ensures Pairs(x, k) >= 0 && FieldSum(Pairs(x, k), 4, k) == FieldSum(x, 2, 2 * k)
  {
    if k > 0 {
      PairParts(x, k);
      PairStep(x / 4, k - 1);
      Digit(Pairs(x, k), Pairs(x / 4, k - 1), 4, x % 4 - x / 2 % 2);
      assert x / 2 / 2 == x / 4;
      assert FieldSum(x, 2, 2 * k) == x % 2 + (x / 2 % 2 + FieldSum(x / 2 / 2, 2, 2 * k - 2));
    }
  }

  lemma AndField1(a: nat, m: nat)
    ensures And(a, 1 + 4 * m) == a % 2 + 4 * And(a / 4, m)
  {
    AndHalves(a, 1 + 4 * m);
    AndHalves(a / 2, 2 * m);
  }

  lemma AndHalves(a: nat, b: nat)
    ensures And(a, b) == (if a % 2 == 1 && b % 2 == 1 then 1 else 0) + 2 * And(a / 2, b / 2)
  {
  }

  /** Each of the first k fields is at most max. */
  predicate SmallFields(y: nat, base: nat, max: nat, k: nat)
    requires base > 1
    decreases k
  {
    k == 0 || (y % base <= max && SmallFields(y / base, base, max, k - 1))
  }

  lemma AndField3(a: nat, m: nat)
    ensures And(a, 3 + 16 * m) == a % 4 + 16 * And(a / 16, m)
  {
    AndField2(a, 0 + 4 * m);
    AndHalves(a / 4, 4 * m);
    AndHalves(a / 8, 2 * m);
    assert a / 4 / 2 == a / 8 && a / 8 / 2 == a / 16;
  }

  lemma AndField2(a: nat, m: nat)
    ensures And(a, 3 + 4 * m) == a % 4 + 4 * And(a / 4, m)
  {
    AndHalves(a, 3 + 4 * m);
    AndHalves(a / 2, 1 + 2 * m);
    assert a / 2 / 2 == a / 4;
  }

  /** The next field of four bits: the sum of its two pairs. */
  function Nibbles(y: nat, k: nat): nat {
    And(y, Repeat(3, 16, k)) + And(y / 4, Repeat(3, 16, k))
  }

  lemma NibbleParts(y: nat, k: nat)
    requires k > 0 && SmallFields(y, 4, 2, 2 * k)
    ensures var d := y % 4 + y / 4 % 4;
      0 <= d <= 4 && Nibbles(y, k) == 16 * Nibbles(y / 16, k - 1) + d && SmallFields(y / 16, 4, 2, 2 * k - 2)
  {
    var m := Repeat(3, 16, k - 1);
    AndField3(y, m);
    AndField3(y / 4, m);
    assert SmallFields(y / 4, 4, 2, 2 * k - 1) && SmallFields(y / 4 / 4, 4, 2, 2 * k - 2);
    assert y / 4 / 16 == y / 16 / 4 && y / 4 / 4 == y / 16;
  }

  lemma Digit(z: nat, rest: nat, base: nat, d: nat)
    requires d < base && z == base * rest + d
    ensures z % base == d && z / base == rest
  {
    DivUnique(z, base, rest, d);
  }

  /** Fields of four bits hold the sums of their two pairs, at most 4 each. */
  lemma {:induction false} NibbleStep(y: nat, k: nat)
    requires SmallFields(y, 4, 2, 2 * k)
    ensures FieldSum(Nibbles(y, k), 16, k) == FieldSum(y, 4, 2 * k)
  {
    if k > 0 {
      NibbleParts(y, k);
      NibbleStep(y / 16, k - 1);
      Digit(Nibbles(y, k), Nibbles(y / 16, k - 1), 16, y % 4 + y / 4 % 4);
      assert y / 4 / 4 == y / 16;
      assert FieldSum(y, 4, 2 * k) == y % 4 + (y / 4 % 4 + FieldSum(y / 4 / 4, 4, 2 * k - 2));
    }
  }

  lemma {:induction false} NibblesSmall(y: nat, k: nat)
    requires SmallFields(y, 4, 2, 2 * k)
    ensures SmallFields(Nibbles(y, k), 16, 4, k) && Nibbles(y, k) <= Repeat(4, 16, k)
  {
    if k > 0 {
      NibbleParts(y, k);
      NibblesSmall(y / 16, k - 1);
      Digit(Nibbles(y, k), Nibbles(y / 16, k - 1), 16, y % 4 + y / 4 % 4);
    }
  }

  /** Bytes: the sums of two fields of four bits. */
  function Bytes(z: nat, k: nat): nat {
    And(z + z / 16, Repeat(15, 256, k))
  }

  lemma AndField15(a: nat, m: nat)
    ensures And(a, 15 + 256 * m) == a % 16 + 256 * And(a / 256, m)
  {
    AndField2(a, 3 + 64 * m);
    AndField2(a / 4, 16 * m);
    AndSixteen(a / 16, m);
    assert a / 4 / 4 == a / 16 && a / 16 / 16 == a / 256;
    assert a % 16 == a % 4 + 4 * (a / 4 % 4);
  }

  lemma AndTwice(b: nat, m: nat)
    ensures And(b, 2 * m) == 2 * And(b / 2, m)
  {
    DivUnique(2 * m, 2, m, 0);
    AndHalves(b, 2 * m);
  }

  lemma AndSixteen(b: nat, m: nat)
    ensures And(b, 16 * m) == 16 * And(b / 16, m)
  {
    var b2, b4, b8 := b / 2, b / 4, b / 8;
    AndTwice(b, 8 * m);
    AndTwice(b2, 4 * m);
    AndTwice(b4, 2 * m);
    AndTwice(b8, m);
    assert b2 / 2 == b4 && b4 / 2 == b8 && b8 / 2 == b / 16;
  }

  lemma ByteParts(z: nat, k: nat)
    requires k > 0 && SmallFields(z, 16, 4, 2 * k)
    ensures var d := z % 16 + z / 16 % 16;
      0 <= d <= 8 && Bytes(z, k) == 256 * Bytes(z / 256, k - 1) + d && SmallFields(z / 256, 16, 4, 2 * k - 2)
  {
    assert SmallFields(z / 16, 16, 4, 2 * k - 1) && SmallFields(z / 16 / 16, 16, 4, 2 * k - 2);
    assert z / 16 / 16 == z / 256;
    AndField15(z + z / 16, Repeat(15, 256, k - 1));
    var n0, n1, r := z % 16, z / 16 % 16, z / 256;
    assert z == n0 + 16 * n1 + 256 * r;
    var n2 := r % 16;
    assert k > 1 ==> n2 <= 4;
    NoCarry(z, n0, n1, r, if k > 1 then n2 else r % 16);
  }

  lemma NoCarry(z: nat, n0: nat, n1: nat, r: nat, n2: nat)
    requires z == n0 + 16 * n1 + 256 * r && n0 <= 4 && n1 <= 4 && n2 == r % 16
    ensures (z + z / 16) % 16 == n0 + n1 && (n2 <= 4 ==> (z + z / 16) / 256 == r + r / 16)
  {
    DivUnique(z, 16, n1 + 16 * r, n0);
    DivMod(r, 16);
    var y, h := z + z / 16, r / 16;
    assert y == (n0 + n1) + 16 * (n1 + n2) + 256 * (r + h);
    DivUnique(y, 16, (n1 + n2) + 16 * (r + h), n0 + n1);
    if n2 <= 4 {
      DivUnique(y, 256, r + h, (n0 + n1) + 16 * (n1 + n2));
    }
  }

  lemma {:induction false} PairsSmall(x: nat, k: nat)
    ensures Pairs(x, k) >= 0 && SmallFields(Pairs(x, k), 4, 2, k)
  {
    PairStep(x, k);
    if k > 0 {
      PairParts(x, k);
      PairsSmall(x / 4, k - 1);
      Digit(Pairs(x, k), Pairs(x / 4, k - 1), 4, x % 4 - x / 2 % 2);
    }
  }

  /** Bytes hold the sums of their two fields of four bits, at most 8 each. */
  lemma {:induction false} ByteStep(z: nat, k: nat)
    requires SmallFields(z, 16, 4, 2 * k)
    ensures FieldSum(Bytes(z, k), 256, k) == FieldSum(z, 16, 2 * k) && SmallFields(Bytes(z, k), 256, 8, k)
    ensures Bytes(z, k) <= Repeat(8, 256, k)
  {
    if k > 0 {
      ByteParts(z, k);
      ByteStep(z / 256, k - 1);
      Digit(Bytes(z, k), Bytes(z / 256, k - 1), 256, z % 16 + z / 16 % 16);
      assert z / 16 / 16 == z / 256;
      assert FieldSum(z, 16, 2 * k) == z % 16 + (z / 16 % 16 + FieldSum(z / 16 / 16, 16, 2 * k - 2));
    }
  }

  /** The multiplication adds the four bytes into the topmost one. */
  lemma AddBytes(w: nat)
    requires w <= 0x08080808 && SmallFields(w, 256, 8, 4)
    ensures ((w * 0x01010101) % 0x1_0000_0000) / 0x100_0000 == FieldSum(w, 256, 4)
  {
    var b0, r1 := w % 256, w / 256;
    var b1, r2 := r1 % 256, r1 / 256;
    var b2, b3 := r2 % 256, r2 / 256;
    assert SmallFields(r1, 256, 8, 3) && SmallFields(r2, 256, 8, 2) && SmallFields(b3, 256, 8, 1);
    assert b3 < 256 && FieldSum(b3, 256, 1) == b3;
    assert FieldSum(w, 256, 4) == b0 + (b1 + (b2 + FieldSum(b3, 256, 1)));
    TopByte(w, b0, b1, b2, b3);
  }

  lemma TopByte(w: nat, b0: nat, b1: nat, b2: nat, b3: nat)
    requires w == b0 + 0x100 * b1 + 0x1_0000 * b2 + 0x100_0000 * b3 && b0 <= 8 && b1 <= 8 && b2 <= 8 && b3 <= 8
    ensures ((w * 0x01010101) % 0x1_0000_0000) / 0x100_0000 == b0 + b1 + b2 + b3
  {
    var low := b0 + 0x100 * (b0 + b1) + 0x1_0000 * (b0 + b1 + b2);
    var high := (b1 + b2 + b3) + 0x100 * (b2 + b3) + 0x1_0000 * b3;
    var n := low + 0x100_0000 * (b0 + b1 + b2 + b3);
    assert w * 0x01010101 == 0x1_0000_0000 * high + n;
    DivUnique(w * 0x01010101, 0x1_0000_0000, high, n);
    DivUnique(n, 0x100_0000, b0 + b1 + b2 + b3, low);
  }

  /** The word-parallel steps, as the source writes them. */
  function Swar1(x: nat): int {
    x - And(x / 2, 0x55555555)
  }

  function Swar2(y: nat): nat {
    And(y, 0x33333333) + And(y / 4, 0x33333333)
  }

  function Swar3(z: nat): nat {
    And(z + z / 16, 0x0F0F0F0F)
  }

  function Swar4(w: nat): int {
    ((w * 0x01010101) % 0x1_0000_0000) / 0x100_0000
  }

  lemma SwarFields(x: nat, k: nat)
    requires k == 4
    ensures Swar1(x) == Pairs(x, 4 * k) >= 0
    ensures Swar2(Swar1(x)) == Nibbles(Pairs(x, 4 * k), 2 * k)
    ensures Swar3(Swar2(Swar1(x))) == Bytes(Nibbles(Pairs(x, 4 * k), 2 * k), k)
  {
    Masks();
    PairStep(x, 4 * k);
  }

  /** They count the bits of a 32-bit word, and nothing is cut off before the multiplication. */
  lemma SwarCounts(x: nat, k: nat)
    requires x < 0x1_0000_0000 && k == 4
    ensures Swar1(x) >= 0 && Swar2(Swar1(x)) + Swar2(Swar1(x)) / 16 < 0x1_0000_0000
    ensures Swar4(Swar3(Swar2(Swar1(x)))) == FieldSum(x, 2, 8 * k)
  {
    SwarFields(x, k);
    var y := Pairs(x, 4 * k);
    PairStep(x, 4 * k);
    PairsSmall(x, 4 * k);
    var z := Nibbles(y, 2 * k);
    NibbleStep(y, 2 * k);
    NibblesSmall(y, 2 * k);
    ByteStep(z, k);
    Limits();
    AddBytes(Bytes(z, k));
  }

  lemma Limits()
    ensures Repeat(4, 16, 8) == 0x44444444 && Repeat(8, 256, 4) == 0x08080808
  {
    assert Repeat(4, 16, 4) == 0x4444;
    assert Repeat(8, 256, 2) == 0x0808;
  }
}
