/** Bits, bytes and words: how the bit streams lay out the values written to them. */
module StreamBits {
  import opened WordBits
  import opened Arithmetic

  /** The low n bits of a number, the most significant first. */
  function NBits(v: nat, n: nat): (r: seq<bool>)
    ensures |r| == n
  {
    if n == 0 then [] else [BitOf(v, n - 1) == 1] + NBits(v, n - 1)
  }

  /** The number that bits stand for. */
  function FromBits(bits: seq<bool>): nat {
    if bits == [] then 0 else (if bits[0] then Pow2(|bits| - 1) else 0) + FromBits(bits[1..])
  }

  lemma {:induction false} NBitsRoundTrip(v: nat, n: nat)
    ensures FromBits(NBits(v, n)) == v % Pow2(n)
  {
    if n > 0 {
      NBitsRoundTrip(v, n - 1);
      assert NBits(v, n)[1..] == NBits(v, n - 1);
      TopBit(v, n);
    }
  }

  lemma {:induction false} TopBit(v: nat, n: nat)
    requires n > 0
    ensures v % Pow2(n) == (if BitOf(v, n - 1) == 1 then Pow2(n - 1) else 0) + v % Pow2(n - 1)
    ensures BitOf(v, n - 1) == 0 || BitOf(v, n - 1) == 1
  {
    if n > 1 {
      Halve(v, n);
      Halve(v, n - 1);
      TopBit(v / 2, n - 1);
    } else {
      assert Pow2(0) == 1 && Pow2(1) == 2;
    }
  }

  lemma {:induction false} FromBitsBound(bits: seq<bool>)
    ensures FromBits(bits) < Pow2(|bits|)
  {
    if bits != [] {
      FromBitsBound(bits[1..]);
    }
  }

  /** A number below 2^n comes back from its n bits. */
  lemma NumberRoundTrip(v: nat, n: nat)
    requires v < Pow2(n)
    ensures FromBits(NBits(v, n)) == v
  {
    NBitsRoundTrip(v, n);
    DivUnique(v, Pow2(n), 0, v);
  }

  lemma {:induction false} FromBitsSplit(a: seq<bool>, b: seq<bool>)
    ensures FromBits(a + b) == FromBits(a) * Pow2(|b|) + FromBits(b)
  {
    if a == [] {
      assert a + b == b;
    } else {
      FromBitsSplit(a[1..], b);
      assert (a + b)[1..] == a[1..] + b;
      Pow2Add(|a| - 1, |b|);
      MulSum(if a[0] then Pow2(|a| - 1) else 0, FromBits(a[1..]), Pow2(|b|));
    }
  }

  lemma DivDiv(y: nat, a: nat, b: nat)
    ensures y / Pow2(a + b) == (y / Pow2(b)) / Pow2(a)
  {
    var q, r := y / Pow2(b), y % Pow2(b);
    var s, t := q / Pow2(a), q % Pow2(a);
    DivMod(y, Pow2(b));
    DivMod(q, Pow2(a));
    Pow2Add(a, b);
    Nested(y, q, r, s, t, Pow2(a), Pow2(b));
    DivUnique(y, Pow2(a + b), s, t * Pow2(b) + r);
  }

  lemma Nested(y: int, q: int, r: int, s: int, t: int, p: int, w: int)
    requires y == q * w + r && q == s * p + t && 0 <= r < w && 0 <= t < p
    ensures y == s * (p * w) + (t * w + r) && 0 <= t * w + r < p * w
  {
    MulGap(t, p, w);
    assert (s * p + t) * w == s * (p * w) + t * w;
    assert 0 <= t * w;
  }

  /** The bits of a number are those of its upper part and of its lower part. */
  lemma {:induction false} NBitsSplit(y: nat, a: nat, b: nat)
    ensures y / Pow2(b) >= 0 && NBits(y, a + b) == NBits(y / Pow2(b), a) + NBits(y, b)
  {
    DivMod(y, Pow2(b));
    if y / Pow2(b) < 0 {
      MulGap(y / Pow2(b), 0, Pow2(b));
    }
    if a > 0 {
      NBitsSplit(y, a - 1, b);
      DivDiv(y, a - 1, b);
    }
  }

  lemma {:induction false} BitOfMod(v: nat, m: nat, j: nat)
    requires j < m
    ensures v % Pow2(m) >= 0 && BitOf(v % Pow2(m), j) == BitOf(v, j)
  {
    ModHalf(v, m);
    if j == 0 {
      BitZero(v);
      BitZero(v % Pow2(m));
    } else {
      BitOfMod(v / 2, m - 1, j - 1);
      BitNext(v, j);
      BitNext(v % Pow2(m), j);
    }
  }

  lemma {:induction false} NBitsOfMod(v: nat, n: nat, m: nat)
    requires n <= m
    ensures v % Pow2(m) >= 0 && NBits(v % Pow2(m), n) == NBits(v, n)
  {
    DivMod(v, Pow2(m));
    if n > 0 {
      NBitsOfMod(v, n - 1, m);
      BitOfMod(v, m, n - 1);
    }
  }

  lemma Pow2Byte()
    ensures Pow2(8) == 256 && Pow2(4) == 16
  {
    assert Pow2(0) == 1 && Pow2(1) == 2 && Pow2(2) == 4 && Pow2(3) == 8;
    Pow2Add(4, 4);
  }

  /** One more byte at the low end. */
  lemma AppendByte(y: nat, k: nat)
    ensures NBits(y, 8 * k + 8) == NBits(y / 256, 8 * k) + NBits(y % 256, 8)
  {
    Pow2Byte();
    NBitsSplit(y, 8 * k, 8);
    NBitsOfMod(y, 8, 8);
  }

  lemma {:induction false} NoBits(bits: seq<bool>)
    requires forall k :: 0 <= k < |bits| ==> !bits[k]
    ensures FromBits(bits) == 0
  {
    if bits != [] {
      NoBits(bits[1..]);
    }
  }

  /** Setting one bit adds its weight. */
  lemma {:induction false} SetBitValue(bits: seq<bool>, k: nat)
    requires k < |bits| && !bits[k]
    ensures FromBits(bits[k := true]) == FromBits(bits) + Pow2(|bits| - 1 - k)
  {
    if k > 0 {
      SetBitValue(bits[1..], k - 1);
      assert bits[k := true][1..] == bits[1..][k - 1 := true];
    } else {
      assert bits[k := true][1..] == bits[1..];
    }
  }

  /** Each bit of the number is the one that was put there. */
  lemma BitOfFromBits(bits: seq<bool>, k: nat)
    requires k < |bits|
    ensures BitOf(FromBits(bits), |bits| - 1 - k) == if bits[k] then 1 else 0
  {
    var hi, lo := bits[..k], bits[k + 1..];
    assert bits == hi + ([bits[k]] + lo);
    FromBitsSplit(hi, [bits[k]] + lo);
    assert ([bits[k]] + lo)[1..] == lo;
    FromBitsBound(lo);
    BitInside(FromBits(bits), FromBits(hi), if bits[k] then 1 else 0, Pow2(|lo|), FromBits(lo));
  }

  lemma BitInside(n: int, hi: int, b: int, p: int, lo: int)
    requires p > 0 && n == hi * (2 * p) + (b * p + lo) && 0 <= lo < p && 0 <= b <= 1
    ensures (n / p) % 2 == b
  {
    assert hi * (2 * p) == (2 * hi) * p;
    MulSum(2 * hi, b, p);
    DivUnique(n, p, 2 * hi + b, lo);
  }

  // ---------- bytes in memory ----------

  /** Every byte holds eight of the bits. */
  ghost predicate Packs(data: seq<nat>, padded: seq<bool>) {
    |padded| == 8 * |data| && forall i :: 0 <= i < |data| ==> ByteHolds(data, padded, i)
  }

  ghost predicate ByteHolds(data: seq<nat>, padded: seq<bool>, i: nat)
    requires i < |data| && |padded| == 8 * |data|
  {
    data[i] == FromBits(padded[8 * i..8 * i + 8])
  }

  lemma PackByte(data: seq<nat>, padded: seq<bool>, byte: nat, bits: seq<bool>)
    requires Packs(data, padded) && |bits| == 8 && byte == FromBits(bits)
    ensures Packs(data + [byte], padded + bits)
  {
    forall i | 0 <= i < |data| + 1
      ensures ByteHolds(data + [byte], padded + bits, i)
    {
      if i < |data| {
        assert ByteHolds(data, padded, i);
        assert (padded + bits)[8 * i..8 * i + 8] == padded[8 * i..8 * i + 8];
      } else {
        assert (padded + bits)[8 * i..8 * i + 8] == bits;
      }
    }
  }

  /** Replacing one byte. */
  lemma RepackByte(data: seq<nat>, padded: seq<bool>, i: nat, byte: nat, padded': seq<bool>)
    requires Packs(data, padded) && i < |data| && |padded'| == |padded|
    requires padded'[..8 * i] == padded[..8 * i] && padded'[8 * i + 8..] == padded[8 * i + 8..]
    requires byte == FromBits(padded'[8 * i..8 * i + 8])
    ensures Packs(data[i := byte], padded')
  {
    var data' := data[i := byte];
    forall j | 0 <= j < |data'|
      ensures ByteHolds(data', padded', j)
    {
      assert ByteHolds(data, padded, j);
      if j < i {
        SameSlice(padded, padded', 8 * i, 8 * j);
      } else if j > i {
        SameTail(padded, padded', 8 * i + 8, 8 * j);
      }
    }
  }

  lemma SameSlice(a: seq<bool>, b: seq<bool>, n: nat, p: nat)
    requires n <= |a| && n <= |b| && a[..n] == b[..n] && p + 8 <= n
    ensures a[p..p + 8] == b[p..p + 8]
  {
    assert a[p..p + 8] == a[..n][p..p + 8];
    assert b[p..p + 8] == b[..n][p..p + 8];
  }

  lemma SameTail(a: seq<bool>, b: seq<bool>, n: nat, p: nat)
    requires n <= p && p + 8 <= |a| == |b| && a[n..] == b[n..]
    ensures a[p..p + 8] == b[p..p + 8]
  {
    assert a[p..p + 8] == a[n..][p - n..p - n + 8];
    assert b[p..p + 8] == b[n..][p - n..p - n + 8];
  }

  // ---------- the unaligned byte writer ----------

  lemma QuotientNat(v: nat, p: nat)
    requires p > 0
    ensures v / p >= 0
  {
    if v / p < 0 {
      DivMod(v, p);
      MulGap(v / p, 0, p);
    }
  }

  lemma ProductNat(a: nat, b: nat)
    ensures a * b >= 0
  {
  }

  /** Writing a byte at offset l1 of a byte that holds l1 bits, the number f: the source puts these two
      bytes there ... */
  function Lower(last: nat, value: nat, l1: nat): nat
    requires 0 < l1 < 8
  {
    QuotientNat(value, Pow2(8 - l1));
    Or(last, value / Pow2(8 - l1))
  }

  function Next(value: nat, l1: nat): nat
    requires 0 < l1 < 8
  {
    (value % Pow2(8 - l1)) * Pow2(l1)
  }

  /** ... and these would hold the l1 bits, the eight bits of the value, and nothing else. */
  predicate WrittenRight(f: nat, lower: nat, next: nat, value: nat, l1: nat)
    requires 0 < l1 < 8
  {
    lower == f * Pow2(8 - l1) + value / Pow2(l1) && next == (value % Pow2(l1)) * Pow2(8 - l1)
  }

  predicate WriterRight(f: nat, value: nat, l1: nat)
    requires 0 < l1 < 8
  {
    WrittenRight(f, Lower(f * Pow2(8 - l1), value, l1), Next(value, l1), value, l1)
  }

  lemma HalfByteWriter(f: nat, value: nat)
    requires value < 256
    ensures WriterRight(f, value, 4)
  {
    Pow2Byte();
    OrDisjoint(value / 16, f, 4);
    OrCommutes(value / 16, f * 16);
  }

  /** The writer is right for every value exactly in the middle of a byte; elsewhere inside a byte it gets
      0xFF wrong, whatever was written before. */
  lemma UnalignedWriterExact(f: nat, l1: nat)
    requires 0 < l1 < 8
    ensures (forall value: nat :: value < 256 ==> WriterRight(f, value, l1)) <==> l1 == 4
  {
    if l1 == 4 {
      forall value: nat | value < 256
        ensures WriterRight(f, value, l1)
      {
        HalfByteWriter(f, value);
      }
    } else {
      AllOnesWrong(f, l1);
    }
  }

  lemma AllOnesWrong(f: nat, l1: nat)
    requires 0 < l1 < 8 && l1 != 4
    ensures !WriterRight(f, 255, l1)
  {
    var p, q := Pow2(l1), Pow2(8 - l1);
    Pow2Byte();
    Pow2Add(l1, 8 - l1);
    Ones(p, q);
    Ones(q, p);
    Pow2Distinct(l1, 8 - l1);
  }

  lemma Ones(p: nat, q: nat)
    requires p > 0 && q > 0 && p * q == 256
    ensures 255 % q == q - 1 && (q - 1) * p == 256 - p
  {
    assert 255 == (p - 1) * q + (q - 1);
    DivUnique(255, q, p - 1, q - 1);
    assert (q - 1) * p == p * q - p;
  }

  lemma {:induction false} Pow2Distinct(a: nat, b: nat)
    requires a != b
    ensures Pow2(a) != Pow2(b)
  {
    if a > 0 && b > 0 {
      Pow2Distinct(a - 1, b - 1);
    }
  }

  // ---------- words of several bytes ----------

  /** value >> (8 * i) */
  function Shr(v: nat, i: nat): nat
    requires i < 8
  {
    if i == 0 then v else if i == 1 then v / 0x100 else if i == 2 then v / 0x1_0000
    else if i == 3 then v / 0x100_0000 else if i == 4 then v / 0x1_0000_0000 else if i == 5 then v / 0x100_0000_0000
    else if i == 6 then v / 0x1_0000_0000_0000 else v / 0x100_0000_0000_0000
  }

  lemma ShrPow2(v: nat, i: nat)
    requires i < 8
    ensures Shr(v, i) == v / Pow2(8 * i)
  {
    Pow2Byte();
    Pow2Add(8, 8);
    Pow2Add(16, 8);
    Pow2Add(16, 16);
    Pow2Add(32, 8);
    Pow2Add(32, 16);
    Pow2Add(32, 24);
  }

  lemma ShrNext(v: nat, i: nat)
    requires 0 < i < 8
    ensures Shr(v, i - 1) / 256 == Shr(v, i)
  {
  }

  /** The bytes of a word in little endian order. */
  function LeBits(v: nat, n: nat): (r: seq<bool>)
    requires n <= 8
    ensures |r| == 8 * n
  {
    if n == 0 then [] else LeBits(v, n - 1) + NBits(Shr(v, n - 1) % 256, 8)
  }

  function FromLe(bits: seq<bool>): nat
    requires |bits| % 8 == 0
  {
    if bits == [] then 0 else
      var m := |bits| - 8;
      ProductNat(FromBits(bits[m..]), Pow2(m));
      FromLe(bits[..m]) + FromBits(bits[m..]) * Pow2(m)
  }

  lemma {:induction false} FromLeBound(bits: seq<bool>)
    requires |bits| % 8 == 0
    ensures FromLe(bits) < Pow2(|bits|)
  {
    if bits != [] {
      var m := |bits| - 8;
      FromLeBound(bits[..m]);
      FromBitsBound(bits[m..]);
      Pow2Add(8, m);
      MulGap(FromBits(bits[m..]), Pow2(8), Pow2(m));
    }
  }

  /** A word comes back from its little endian bytes. */
  lemma {:induction false} LeRoundTrip(v: nat, n: nat)
    requires n <= 8
    ensures FromLe(LeBits(v, n)) == v % Pow2(8 * n)
  {
    if n > 0 {
      var m := 8 * (n - 1);
      LeRoundTrip(v, n - 1);
      assert LeBits(v, n)[..m] == LeBits(v, n - 1) && LeBits(v, n)[m..] == NBits(Shr(v, n - 1) % 256, 8);
      Pow2Byte();
      NumberRoundTrip(Shr(v, n - 1) % 256, 8);
      ShrPow2(v, n - 1);
      ModSplit(v, m);
    } else {
      assert Pow2(0) == 1;
    }
  }

  lemma ByteOfBits(v: nat, y: nat, k: nat, m: nat)
    requires y == v / Pow2(m)
    ensures FromBits(NBits(v, 8 * k + 8 + m)[8 * k..8 * k + 8]) == y % 256
  {
    NBitsSplit(v, 8 * k + 8, m);
    AppendByte(y, k);
    Pow2Byte();
    NumberRoundTrip(y % 256, 8);
    assert NBits(v, 8 * k + 8 + m)[8 * k..8 * k + 8] == NBits(y % 256, 8);
  }

  lemma {:induction false} LeByteOfBits(v: nat, n: nat, i: nat)
    requires i < n <= 8
    ensures LeBits(v, n)[8 * i..8 * i + 8] == NBits(Shr(v, i) % 256, 8)
  {
    if i < n - 1 {
      LeByteOfBits(v, n - 1, i);
      assert LeBits(v, n)[8 * i..8 * i + 8] == LeBits(v, n - 1)[8 * i..8 * i + 8];
    }
  }

  lemma LeByte(v: nat, n: nat, i: nat)
    requires i < n <= 8
    ensures FromBits(LeBits(v, n)[8 * i..8 * i + 8]) == (v / Pow2(8 * i)) % 256
  {
    ShrPow2(v, i);
    LeByteOfBits(v, n, i);
    Pow2Byte();
    NumberRoundTrip(Shr(v, i) % 256, 8);
  }

  lemma BeByte(v: nat, n: nat, i: nat, k: nat)
    requires i < n <= 8 && k == n - 1 - i
    ensures FromBits(NBits(v, 8 * n)[8 * k..8 * k + 8]) == (v / Pow2(8 * i)) % 256
  {
    ShrPow2(v, i);
    ByteOfBits(v, Shr(v, i), k, 8 * i);
    assert 8 * n == 8 * k + 8 + 8 * i;
  }

  /** The byte of weight 256^i stands at place i of the little endian order, and at the same place from the
      end of the big endian order. */
  lemma ByteOrder(v: nat, n: nat, i: nat, k: nat)
    requires i < n <= 8 && k == n - 1 - i
    ensures FromBits(LeBits(v, n)[8 * i..8 * i + 8]) == (v / Pow2(8 * i)) % 256
    ensures FromBits(NBits(v, 8 * n)[8 * k..8 * k + 8]) == (v / Pow2(8 * i)) % 256
  {
    LeByte(v, n, i);
    BeByte(v, n, i, k);
  }

  lemma ModSplit(v: nat, m: nat)
    ensures v % Pow2(m + 8) == v % Pow2(m) + ((v / Pow2(m)) % 256) * Pow2(m)
  {
    var p := Pow2(m);
    var q, r := v / p, v % p;
    DivMod(v, p);
    Pow2Byte();
    Pow2Add(8, m);
    Nested(v, q, r, q / 256, q % 256, 256, p);
    DivUnique(v, 256 * p, q / 256, (q % 256) * p + r);
  }
}
