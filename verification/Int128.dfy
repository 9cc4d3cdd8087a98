/** 128-bit integers held in two 64-bit words and changed in place. */
module Int128s {
  import opened WordBits
  import opened Words128
  import opened Int128Text
  import opened Arithmetic
  import opened Texts
  import opened Sequences

  class Int128 {
    var lo: int   // unsigned 64-bit word
    var hi: int   // signed 64-bit word

    ghost predicate Valid()
      reads this
    {
      Words(lo, hi)
    }

    ghost function Value(): int
      reads this
    {
      V(lo, hi)
    }

    constructor (lo: int, hi: int)
      requires Words(lo, hi)
      ensures this.lo == lo && this.hi == hi
    {
      this.lo, this.hi := lo, hi;
    }

    constructor Copy(a: Int128)
      ensures lo == a.lo && hi == a.hi
    {
      lo, hi := a.lo, a.hi;
    }

    /** From an unsigned word. */
    constructor Unsigned(a: int)
      requires 0 <= a < W
      ensures Valid() && Value() == a
    {
      lo, hi := a, 0;
    }

    /** From a signed word: the sign fills the high word. */
    constructor FromSigned(a: int)
      requires -HALF <= a < HALF
      ensures Valid() && Value() == a
    {
      lo, hi := U(a), if a < 0 then -1 else 0;
      new;
      if a < 0 {
        DivUnique(a, W, -1, a + W);
      } else {
        DivUnique(a, W, 0, a);
      }
    }

    predicate IsZero()
      reads this
    {
      lo == 0 && hi == 0
    }

    /** The source's operator<. */
    static predicate Less(alo: int, ahi: int, blo: int, bhi: int) {
      if ahi == bhi then
        if ahi < 0 then S(alo) < S(blo) else alo < blo
      else ahi < bhi
    }

    predicate LessThan(b: Int128)
      reads this, b
    {
      Less(lo, hi, b.lo, b.hi)
    }

    /** It is the order of the numbers, except that between two negative numbers with equal high words
        it goes wrong exactly when one low word is below 2^63 and the other is not. */
    static lemma LessExact(alo: int, ahi: int, blo: int, bhi: int)
      requires Words(alo, ahi) && Words(blo, bhi)
      ensures (Less(alo, ahi, blo, bhi) <==> V(alo, ahi) < V(blo, bhi)) <==>
        !(ahi == bhi && ahi < 0 && (alo < HALF <==> blo >= HALF))
    {
      DivUnique(alo, W, 0, alo);
      DivUnique(blo, W, 0, blo);
      if ahi < bhi {
        MulGap(ahi, bhi, W);
      } else if bhi < ahi {
        MulGap(bhi, ahi, W);
      }
    }

    method Assign(a: Int128)
      modifies this
      ensures lo == old(a.lo) && hi == old(a.hi)
    {
      lo, hi := a.lo, a.hi;
    }

    method Neg() returns (r: Int128)
      requires Valid()
      ensures fresh(r) && r.Valid() && r.Value() == Wrap(-Value())
    {
      NegWords(lo, hi);
      if lo == 0 {
        r := new Int128(0, S(-hi));
      } else {
        r := new Int128(U(-lo), S(-1 - hi));
      }
    }

    method AddAssign(b: Int128)
      requires Valid() && b.Valid()
      modifies this
      ensures Valid() && Value() == Wrap(old(Value()) + old(b.Value()))
    {
      AddWords(lo, hi, b.lo, b.hi);
      var oldLo, oldHi := lo, b.hi;
      lo := U(lo + b.lo);
      hi := S(hi + oldHi);
      if lo < oldLo {
        hi := S(hi + 1);
      }
    }

    method SubAssign(b: Int128)
      requires Valid() && b.Valid()
      modifies this
      ensures Valid() && Value() == Wrap(old(Value()) - old(b.Value()))
    {
      WrapSum(-b.Value(), Value());
      var n := b.Neg();
      AddAssign(n);
    }

    method ShlAssign(n: nat)
      requires Valid()
      modifies this
      ensures Valid() && Value() == Wrap(old(Value()) * Pow2(n))
    {
      if n >= 128 {
        ShlOut(Value(), n);
        lo, hi := 0, 0;
      } else if n >= 64 {
        ShlFar(lo, hi, n);
        hi := S(lo * Pow2(n - 64));
        lo := 0;
      } else if n > 0 {
        ShlMid(lo, hi, n);
        hi := S(hi * Pow2(n));
        var mask := W - 1 - (Pow2(64 - n) - 1);
        QuotientBetween(And(lo, mask), Pow2(64 - n));
        hi := S(Or(U(hi), And(lo, mask) / Pow2(64 - n)));
        lo := U(lo * Pow2(n));
      } else {
        Range(lo, hi);
        WrapFits(Value());
      }
    }

    method ShrAssign(n: nat)
      requires Valid()
      modifies this
      ensures Valid() && Value() == old(Value()) / Pow2(n)
    {
      if n >= 128 {
        Range(lo, hi);
        ShrOut(Value(), n);
        DivUnique(-1, W, -1, W - 1);
        hi := if hi < 0 then -1 else 0;
        lo := U(hi);
      } else if n >= 64 {
        ShrFar(lo, hi, n);
        lo := U(hi / Pow2(n - 64));
        hi := if hi < 0 then -1 else 0;
      } else if n > 0 {
        ShrMid(lo, hi, n);
        QuotientBetween(lo, Pow2(n));
        lo := lo / Pow2(n);
        var mask := Pow2(n) - 1;
        lo := Or(lo, U(And(U(hi), mask) * Pow2(64 - n)));
        hi := hi / Pow2(n);
      }
    }

    method Bit(n: nat) returns (b: bool)
      requires Valid()
      ensures b <==> BitOf(Value(), n) == 1
    {
      Range(lo, hi);
      if n >= 128 {
        ShrOut(Value(), n);
        b := hi < 0;
      } else if n < 64 {
        BitLow(lo, hi, n);
        AndBit(lo, n);
        b := And(lo, Pow2(n)) != 0;
      } else {
        BitHigh(lo, hi, n);
        AndBit(U(hi), n - 64);
        b := And(U(hi), Pow2(n - 64)) != 0;
      }
    }

    method SetBit(n: nat, val: bool)
      requires Valid()
      modifies this
      ensures Valid()
      ensures n < 128 ==> Value() == Wrap(old(Value()) + ((if val then 1 else 0) - BitOf(old(Value()), n)) * Pow2(n))
      ensures n >= 128 ==> lo == old(lo) && hi == old(hi)
    {
      if n >= 128 {
        return;
      }
      if n < 64 {
        SetBitLow(lo, hi, n);
      } else {
        SetBitHigh(lo, hi, n);
        ClearBitHigh(lo, hi, n);
      }
      NegateProduct(BitOf(Value(), n), Pow2(n));
      if val {
        if n < 64 {
          lo := Or(lo, Pow2(n));
        } else {
          hi := S(Or(U(hi), Pow2(n - 64)));
        }
      } else {
        if n < 64 {
          lo := And(lo, W - 1 - Pow2(n));
        } else {
          hi := S(And(U(hi), W - 1 - Pow2(n - 64)));
        }
      }
    }

    /** Multiplication modulo 2^128: one shifted addition per set bit of b, down to the sign. */
    method MulAssign(b: Int128)
      requires Valid() && b.Valid()
      modifies this
      ensures Valid() && Value() == Wrap(old(Value()) * old(b.Value()))
    {
      Range(lo, hi);
      Range(b.lo, b.hi);
      if b.IsZero() {
        WrapFits(0);
        lo, hi := 0, 0;
        return;
      }
      if b.lo == 1 && b.hi == 0 {
        WrapFits(Value());
        return;
      }
      var a := new Int128.Copy(this);
      var t := new Int128.Copy(b);
      lo, hi := 0, 0;
      Accumulate(a, t);
    }

    /** The shift-and-add loop, from zero. */
    method Accumulate(a: Int128, t: Int128)
      requires lo == 0 && hi == 0 && a.Valid() && t.Valid() && a != this && t != this && a != t
      modifies this, t
      ensures Valid() && Value() == Wrap(a.Value() * old(t.Value()))
    {
      ghost var x, y, rest := a.Value(), t.Value(), 0;
      WrapFits(0);
      Range(t.lo, t.hi);
      for i := 0 to 128
        invariant Valid() && a.Valid() && t.Valid() && a.Value() == x
        invariant y == t.Value() * Pow2(i) + rest
        invariant Value() == Wrap(x * rest)
      {
        AndMask(t.lo, 1);
        LowBit(t.lo, t.hi);
        HalfStep(t.Value(), Pow2(i), rest);
        if And(t.lo, 1) != 0 {
          AddShifted(a, i);
          ProductStep(x, rest, Pow2(i));
          rest := rest + Pow2(i);
        }
        t.ShrAssign(1);
      }
      Pow2Word();
      Pow2Add(64, 64);
      WholeProduct(x, y, t.Value(), rest);
    }

    /** One partial product. */
    method AddShifted(a: Int128, i: nat)
      requires Valid() && a.Valid() && a != this
      modifies this
      ensures Valid() && Value() == Wrap(old(Value()) + Wrap(a.Value() * Pow2(i)))
    {
      var s := new Int128.Copy(a);
      s.ShlAssign(i);
      AddAssign(s);
    }

    static lemma LowBit(lo: int, hi: int)
      requires Words(lo, hi)
      ensures lo % 2 == V(lo, hi) % 2 && Pow2(1) == 2
    {
      EvenPart(hi * HALF, lo);
    }

    static lemma ProductStep(x: int, rest: int, p: int)
      ensures Wrap(Wrap(x * rest) + Wrap(x * p)) == Wrap(x * (rest + p))
    {
      WrapSum(x * p, Wrap(x * rest));
      WrapSum(x * rest, x * p);
      MulSum(rest, p, x);
      assert x * rest == rest * x && x * p == p * x && x * (rest + p) == (rest + p) * x;
    }

    static lemma HalfStep(v: int, p: int, rest: int)
      ensures v * p + rest == (v / 2) * (2 * p) + (rest + (v % 2) * p)
    {
      assert v == 2 * (v / 2) + v % 2;
      MulSum(2 * (v / 2), v % 2, p);
      MulAssoc(2, v / 2, p);
    }

    static lemma WholeProduct(x: int, y: int, t: int, rest: int)
      requires y == t * TWO128 + rest
      ensures Wrap(x * rest) == Wrap(x * y)
    {
      WrapShift(x * rest, x * t);
      assert x * y == x * rest + (x * t) * TWO128;
    }

    // ---------- division ----------

    /** Shifts in one bit from the right; the shifted number fits. */
    method ShiftIn(bit: bool)
      requires Valid() && 0 <= Value() && 2 * Value() + 1 < TWO127
      modifies this
      ensures Valid() && Value() == 2 * old(Value()) + if bit then 1 else 0
    {
      WrapFits(2 * Value());
      assert Pow2(1) == 2;
      ghost var v := Value();
      ShlAssign(1);
      Range(lo, hi);
      LowBit(lo, hi);
      if bit {
        assert lo % 2 == 0;
        OrDisjoint(1, lo / 2, 1);
        OrCommutes(1, lo);
        lo := Or(lo, 1);
      }
    }

    /** The magnitude; that of the least number wraps to itself. */
    method Magnitude() returns (r: Int128)
      requires Valid()
      ensures fresh(r) && r.Valid() && r.Value() == Wrap(Abs(Value()))
    {
      Range(lo, hi);
      WrapFits(Value());
      if hi < 0 {
        r := Neg();
      } else {
        r := new Int128.Copy(this);
      }
    }

    /** The order of two numbers that are not both negative. */
    static lemma LessMeaning(a: Int128, b: Int128)
      requires a.Valid() && b.Valid() && (a.hi >= 0 || b.hi >= 0)
      ensures a.LessThan(b) <==> a.Value() < b.Value()
    {
      LessExact(a.lo, a.hi, b.lo, b.hi);
    }

    /** Long division of magnitudes, ds in 1..dd. */
    static method DivMagnitudes(dd: Int128, ds: Int128) returns (q: Int128, r: Int128)
      requires dd.Valid() && ds.Valid() && 0 < ds.Value() <= dd.Value()
      ensures fresh(q) && fresh(r) && q != r && q.Valid() && r.Valid()
      ensures dd.Value() == q.Value() * ds.Value() + r.Value() && 0 <= r.Value() < ds.Value() && 0 <= q.Value()
    {
      r := new Int128(0, 0);
      q := new Int128(0, 0);
      var b, rest := FirstLoop(dd, ds, r);
      DivLoop(dd, ds, q, r, b, rest);
    }

    /** The first loop brings down bits until the divisor fits.  b is an unsigned word: when the last bit
        is used it passes through the largest word and comes back to 0. */
    static method FirstLoop(dd: Int128, ds: Int128, r: Int128) returns (b: nat, ghost rest: int)
      requires dd.Valid() && ds.Valid() && r.Valid() && r != dd && r != ds && r.Value() == 0
      requires 0 < ds.Value() <= dd.Value()
      modifies r
      ensures r.Valid() && b < 128 && ds.Value() <= r.Value() < 2 * ds.Value() && r.Value() <= dd.Value()
      ensures dd.Value() == r.Value() * Pow2(b) + rest && 0 <= rest < Pow2(b)
    {
      Range(dd.lo, dd.hi);
      b := 127;
      rest := dd.Value();
      ghost var k := 128;
      AllBits(dd.Value());
      LessMeaning(r, ds);
      while r.LessThan(ds)
        invariant r.Valid() && 0 <= k <= 128 && b == if k == 0 then 0xFFFF_FFFF else k - 1
        invariant dd.Value() == r.Value() * Pow2(k) + rest && 0 <= rest < Pow2(k) &&
          (r.LessThan(ds) <==> r.Value() < ds.Value())
        invariant 0 <= r.Value() < 2 * ds.Value() && r.Value() <= dd.Value() && (k == 128 ==> r.Value() == 0)
        decreases k
      {
        BitsLeft(dd.Value(), r.Value(), rest, k);
        ghost var c, left := LeadingBit(dd.Value(), r.Value(), rest, k);
        var bit := dd.Bit(b);
        b := if b == 0 then 0xFFFF_FFFF else b - 1;
        rest := left;
        k := k - 1;
        r.ShiftIn(bit);
        LessMeaning(r, ds);
      }
      b := if b == 0xFFFF_FFFF then 0 else b + 1;
    }

    static lemma AllBits(n: int)
      requires 0 <= n < TWO127
      ensures n == 0 * Pow2(128) + n && n < Pow2(128)
    {
      Pow2Word();
      Pow2Add(64, 64);
    }

    static lemma BitsLeft(n: int, p: int, rest: int, k: nat)
      requires n == p * Pow2(k) + rest && 0 <= rest < Pow2(k) && p < n
      ensures k > 0
    {
    }

    /** The second loop: subtract and set the quotient bit, or bring down the next bit. */
    static method DivLoop(dd: Int128, ds: Int128, q: Int128, r: Int128, start: nat, ghost leftover: int)
      requires dd.Valid() && ds.Valid() && q.Valid() && r.Valid() && q != r && q != dd && q != ds && r != dd && r != ds
      requires 0 < ds.Value() <= r.Value() < 2 * ds.Value() && q.Value() == 0 && start < 128
      requires dd.Value() == r.Value() * Pow2(start) + leftover && 0 <= leftover < Pow2(start) &&
        r.Value() <= dd.Value()
      modifies q, r
      ensures q.Valid() && r.Valid() && 0 <= q.Value()
      ensures dd.Value() == q.Value() * ds.Value() + r.Value() && 0 <= r.Value() < ds.Value()
    {
      ghost var n, d := dd.Value(), ds.Value();
      ghost var p, Q, rest, half := r.Value(), 0, leftover, 0;
      var b := start;
      Range(dd.lo, dd.hi);
      LessMeaning(r, ds);
      while true
        invariant q.Valid() && r.Valid() && 0 <= b < 128 && (r.LessThan(ds) <==> r.Value() < d)
        invariant Dividing(n, d, p, Q, rest, half, b, r.Value(), q.Value())
        decreases b, r.Value()
      {
        if r.LessThan(ds) {
          if b == 0 {
            break;
          }
          ghost var c, left := BringDown(n, d, p, Q, rest, half, b, r.Value(), q.Value());
          b := b - 1;
          var bit := dd.Bit(b);
          p, Q, rest, half := 2 * p + c, 2 * Q, left, Q;
          r.ShiftIn(bit);
        } else {
          TakeOff(n, d, p, Q, rest, half, b, r.Value(), q.Value());
          r.SubAssign(ds);
          q.SetBit(b, true);
          Q := Q + 1;
        }
        LessMeaning(r, ds);
      }
      Divided(n, d, p, Q, rest, half, r.Value(), q.Value());
    }

    /** The leading part p of n, whose last b bits are left, divided by d: quotient Q, held in q at its
        final place, and remainder r. */
    ghost static predicate Dividing(n: int, d: int, p: int, Q: int, rest: int, half: int, b: nat, r: int, q: int) {
      && n == p * Pow2(b) + rest && 0 <= rest < Pow2(b) && 1 <= p <= n < TWO127
      && p == Q * d + r && 0 <= r < 2 * d && Q >= 0 && q == Q * Pow2(b) && (r >= d ==> Q == 2 * half)
    }

    static lemma BringDown(n: int, d: int, p: int, Q: int, rest: int, half: int, b: nat, r: int, q: int)
        returns (c: int, left: int)
      requires Dividing(n, d, p, Q, rest, half, b, r, q) && r < d && b > 0
      ensures c == BitOf(n, b - 1) && 0 <= c <= 1 && 2 * r + 1 < TWO127
      ensures Dividing(n, d, 2 * p + c, 2 * Q, left, Q, b - 1, 2 * r + c, q)
    {
      c, left := LeadingBit(n, p, rest, b);
      BroughtDown(Q, d, r, b - 1, c, n);
    }

    static lemma TakeOff(n: int, d: int, p: int, Q: int, rest: int, half: int, b: nat, r: int, q: int)
      requires Dividing(n, d, p, Q, rest, half, b, r, q) && r >= d >= 1
      ensures Dividing(n, d, p, Q + 1, rest, half, b, r - d, Wrap(q + (1 - BitOf(q, b)) * Pow2(b)))
      ensures Wrap(r - d) == r - d
    {
      QuotientBit(Q, d, r, b, n, p, rest);
      MulNonNegative(Q, d);
      WrapFits(r - d);
    }

    static lemma Divided(n: int, d: int, p: int, Q: int, rest: int, half: int, r: int, q: int)
      requires Dividing(n, d, p, Q, rest, half, 0, r, q)
      ensures n == q * d + r && q >= 0
    {
      assert Pow2(0) == 1;
    }

    static lemma BroughtDown(Q: int, d: int, r: int, b: nat, c: int, n: int)
      requires 2 * (Q * d + r) + c <= n < TWO127 && 0 <= Q && 0 <= d && 0 <= c <= 1
      ensures 2 * (Q * d + r) + c == (2 * Q) * d + (2 * r + c) && Q * Pow2(b + 1) == (2 * Q) * Pow2(b)
      ensures 2 * r + 1 < TWO127
    {
      MulAssoc(2, Q, d);
      MulNonNegative(Q, d);
      assert Q * (2 * Pow2(b)) == (2 * Q) * Pow2(b);
    }

    /** The quotient bit at b is clear, and the quotient with it set fits. */
    static lemma QuotientBit(Q: int, d: int, r: int, b: nat, n: int, p: int, rest: int)
      requires 0 <= Q && Q % 2 == 0 && d >= 1 && r >= d && p == Q * d + r && n == p * Pow2(b) + rest && rest >= 0 &&
        n < TWO127
      ensures BitOf(Q * Pow2(b), b) == 0 && Wrap(Q * Pow2(b) + (1 - 0) * Pow2(b)) == (Q + 1) * Pow2(b)
      ensures (Q + 1) * d == Q * d + d
    {
      var h := Pow2(b);
      DivUnique(Q * h, h, Q, 0);
      MulNonNegative(Q, d - 1);
      MulNonNegative(p - (Q + 1), h);
      MulSum(Q, 1, h);
      MulNonNegative(Q + 1, h);
      WrapFits((Q + 1) * h);
    }

    /** The partial remainder with the next bit brought down is at most the dividend. */
    static lemma LeadingBit(n: int, p: int, rest: int, k: nat) returns (c: int, left: int)
      requires 0 < k && n == p * Pow2(k) + rest && 0 <= rest < Pow2(k) && 0 <= p
      ensures c == BitOf(n, k - 1) && 0 <= c <= 1
      ensures n == (2 * p + c) * Pow2(k - 1) + left && 0 <= left < Pow2(k - 1) && 2 * p + c <= n
    {
      BitStep(n, p, rest, k);
      c := BitOf(n, k - 1);
      left := rest - c * Pow2(k - 1);
      MulNonNegative(2 * p + c, Pow2(k - 1) - 1);
    }

    /** With the least number as divisor the magnitude has the words 0 and -2^63.  However often it is
        subtracted from zero, wrapping, no result compares below it: the first loop of the division does
        not run (k == 0), and the second one never brings down a bit. */
    static lemma {:induction false} MinDivisorNeverEnds(r: seq<(int, int)>, k: nat)
      requires k < |r| && r[0] == (0, 0) && forall i :: 0 <= i < |r| ==> Words(r[i].0, r[i].1)
      requires forall i :: 0 < i < |r| ==> V(r[i].0, r[i].1) == Wrap(V(r[i - 1].0, r[i - 1].1) - V(0, -HALF))
      ensures !Less(r[k].0, r[k].1, 0, -HALF) && r[k] == (0, if k % 2 == 0 then 0 else -HALF)
    {
      if k > 0 {
        MinDivisorNeverEnds(r, k - 1);
        MinNegated();
        WrapFits(0);
        Injective(r[k].0, r[k].1, 0, if k % 2 == 0 then 0 else -HALF);
      }
    }

    /** The division by the least number, followed for any number of turns: it gets past the comparison
        that needs no loop, and is still in the second loop with all bits left to bring down. */
    method DivByMin(divisor: Int128, turns: nat) returns (ds: Int128, dd: Int128, r: Int128, b: nat)
      requires Valid() && divisor.Valid() && divisor.Value() == MIN
      ensures fresh(ds) && fresh(dd) && fresh(r) && ds.lo == 0 && ds.hi == -HALF && !dd.LessThan(ds)
      ensures b == 128 && !r.LessThan(ds) && r.lo == 0 && r.hi == if turns % 2 == 0 then 0 else -HALF
    {
      MinNegated();
      Range(lo, hi);
      ds := divisor.Magnitude();
      Injective(ds.lo, ds.hi, 0, -HALF);
      dd := Magnitude();
      if Value() == MIN {
        Injective(dd.lo, dd.hi, 0, -HALF);
      } else {
        WrapFits(Abs(Value()));
        Range(dd.lo, dd.hi);
      }
      r := new Int128(0, 0);
      var q := new Int128(0, 0);
      b := 127;
      assert !r.LessThan(ds);
      b := b + 1;
      for i := 0 to turns
        invariant r.lo == 0 && r.hi == (if i % 2 == 0 then 0 else -HALF) && q.Valid()
        modifies r, q
      {
        assert !r.LessThan(ds);
        WrapFits(0);
        r.SubAssign(ds);
        Injective(r.lo, r.hi, 0, if i % 2 == 0 then -HALF else 0);
        q.SetBit(b, true);
      }
    }

    /** Division.  The remainder may be the dividend or the divisor object itself.  A zero divisor traps in
        the source; for the least number as divisor it does not return (DivByMin). */
    method Div(divisor: Int128, remainder: Int128) returns (quotient: Int128)
      requires Valid() && divisor.Valid() && divisor.Value() != 0 && divisor.Value() != MIN
      modifies remainder
      ensures fresh(quotient) && quotient.Valid() && remainder.Valid()
      ensures if old(Value()) == MIN then quotient.Value() == 0 && remainder.Value() == MIN
        else IsDivision(old(Value()), old(divisor.Value()), quotient.Value(), remainder.Value())
    {
      ghost var n, d := Value(), divisor.Value();
      Range(lo, hi);
      Range(divisor.lo, divisor.hi);
      MinNegated();
      if n != MIN {
        WrapFits(Abs(n));
      }
      WrapFits(Abs(d));
      var ds := divisor.Magnitude();
      var dd := Magnitude();
      Range(dd.lo, dd.hi);
      LessMeaning(dd, ds);
      if dd.LessThan(ds) {
        if n != MIN {
          SmallDividend(n, d);
        }
        remainder.Assign(this);
        quotient := new Int128(0, 0);
        return;
      }
      quotient := DivSigned(dd, ds, divisor, remainder);
    }

    /** The division of the magnitudes, and the correction of the signs. */
    method DivSigned(dd: Int128, ds: Int128, divisor: Int128, remainder: Int128) returns (quotient: Int128)
      requires Valid() && divisor.Valid() && dd.Valid() && ds.Valid()
      requires dd.Value() == Abs(Value()) && ds.Value() == Abs(divisor.Value()) && 0 < ds.Value() <= dd.Value()
      modifies remainder
      ensures fresh(quotient) && quotient.Valid() && remainder.Valid()
      ensures IsDivision(old(Value()), old(divisor.Value()), quotient.Value(), remainder.Value())
    {
      ghost var n, d := Value(), divisor.Value();
      Range(lo, hi);
      Range(divisor.lo, divisor.hi);
      Range(dd.lo, dd.hi);
      var q, r := DivMagnitudes(dd, ds);
      SignedDivision(n, d, q.Value(), r.Value());
      QuotientFits(n, d, q.Value(), r.Value());
      if (divisor.hi < 0) != (hi < 0) {
        q := q.Neg();
      }
      if hi < 0 {
        r := r.Neg();
      }
      remainder.Assign(r);
      quotient := q;
    }

    static lemma QuotientFits(n: int, d: int, q: int, r: int)
      requires Abs(n) == q * Abs(d) + r && 0 <= r < Abs(d) && 0 <= q && Abs(n) < TWO127
      ensures Wrap(-q) == -q && Wrap(-r) == -r
    {
      MulNonNegative(q, Abs(d) - 1);
      WrapFits(-q);
      WrapFits(-r);
    }

    method DivAssign(b: Int128)
      requires Valid() && b.Valid() && b.Value() != 0 && b.Value() != MIN
      modifies this
      ensures Valid()
      ensures Value() == if old(Value()) == MIN then 0 else TruncDiv(old(Value()), old(b.Value()))
    {
      var dummy := new Int128(0, 0);
      ghost var n, d := Value(), b.Value();
      var q := Div(b, dummy);
      if n != MIN {
        Truncates(n, d, q.Value(), dummy.Value());
      }
      Assign(q);
    }

    /** The remainder is written over the dividend. */
    method ModAssign(b: Int128)
      requires Valid() && b.Valid() && b.Value() != 0 && b.Value() != MIN
      modifies this
      ensures Valid()
      ensures Value() == if old(Value()) == MIN then MIN else TruncRem(old(Value()), old(b.Value()))
    {
      ghost var n, d := Value(), b.Value();
      var q := Div(b, this);
      if n != MIN {
        Truncates(n, d, q.Value(), Value());
      }
    }

    // ---------- text ----------

    /** The digits of a magnitude; for that of the least number, which is negative, one zero. */
    static function MagnitudeDigits(v: int, radix: int): string
      requires ValidRadix(radix) && (v >= 0 || v == MIN)
    {
      if v == MIN then "0" else Digits(v, radix)
    }

    static lemma MagnitudeLength(v: int, radix: int)
      requires ValidRadix(radix) && (v == MIN || 0 <= v < TWO127)
      ensures |MagnitudeDigits(v, radix)| <= 128
    {
      Pow2Word();
      Pow2Add(64, 64);
      if v != MIN {
        DigitsLength(v, radix, 128);
      }
    }

    /** The low word as an unsigned 32-bit number. */
    function ToInt(): int
      reads this
    {
      lo % 0x1_0000_0000
    }

    /** One digit: ii is divided by the radix. */
    static method NextDigit(ii: Int128, aux: Int128, radix: int) returns (q: Int128, c: int)
      requires ii.Valid() && aux.Valid() && ValidRadix(radix) && aux.Value() == radix &&
        (ii.Value() > 0 || ii.Value() == MIN)
      ensures fresh(q) && q.Valid() && 0 <= c < 37 && 0 <= q.Value() && (ii.Value() > 0 ==> q.Value() < ii.Value())
      ensures MagnitudeDigits(ii.Value(), radix) == MagnitudeDigits(q.Value(), radix) + [DigitChar(c)]
    {
      var r := new Int128(0, 0);
      ghost var v := ii.Value();
      Range(ii.lo, ii.hi);
      q := ii.Div(aux, r);
      c := r.ToInt();
      if v == MIN {
        assert V(0, -HALF) == MIN;
        Injective(r.lo, r.hi, 0, -HALF);
        assert MagnitudeDigits(0, radix) == "";
      } else {
        LastDigit(v, radix, q.Value(), r.Value());
        Injective(r.lo, r.hi, r.Value(), 0);
      }
    }

    static lemma LastDigit(v: int, radix: int, q: int, r: int)
      requires ValidRadix(radix) && v > 0 && IsDivision(v, radix, q, r)
      ensures 0 <= q < v && 0 <= r < radix
      ensures MagnitudeDigits(v, radix) == MagnitudeDigits(q, radix) + [DigitChar(r)]
    {
      SmallRemainder(v, radix, q, r);
    }

    static lemma SmallRemainder(v: int, radix: int, q: int, r: int)
      requires ValidRadix(radix) && v > 0 && IsDivision(v, radix, q, r)
      ensures q == v / radix && r == v % radix && 0 <= q < v
    {
      DivUnique(v, radix, q, r);
      QuotientBetween(v, radix);
      MulNonNegative(q, radix - 2);
      assert q * radix == q * (radix - 2) + 2 * q;
    }

    /** Writes one character in front of those written so far. */
    static method Put(sz: array<char>, i: nat, c: char)
      requires sz.Length == 256 && 0 < i <= 255
      modifies sz
      ensures sz[i - 1..255] == [c] + old(sz[i..255])
    {
      sz[i - 1] := c;
    }

    static method WriteDigits(start: Int128, aux: Int128, radix: int, sz: array<char>) returns (i: nat)
      requires start.Valid() && aux.Valid() && ValidRadix(radix) && aux.Value() == radix && sz.Length == 256
      requires start.Value() == MIN || 0 < start.Value() < TWO127
      modifies sz
      ensures 127 <= i <= 255 && sz[i..255] == MagnitudeDigits(start.Value(), radix)
    {
      ghost var all, tail := MagnitudeDigits(start.Value(), radix), "";
      MagnitudeLength(start.Value(), radix);
      var ii := start;
      i := 255;
      while !ii.IsZero() && i != 0
        invariant ii.Valid() && (ii.Value() == MIN || 0 <= ii.Value()) && aux.Valid() && aux.Value() == radix
        invariant i + |tail| == 255 && sz[i..255] == tail && all == MagnitudeDigits(ii.Value(), radix) + tail
        decreases i
      {
        Range(ii.lo, ii.hi);
        var q, c := NextDigit(ii, aux, radix);
        tail := [DigitChar(c)] + tail;
        Grouped(MagnitudeDigits(q.Value(), radix), [DigitChar(c)], tail[1..]);
        ii := q;
        Put(sz, i, ((if c > 9 then 'A' as int - 10 else '0' as int) + c) as char);
        i := i - 1;
      }
      Range(ii.lo, ii.hi);
    }

    /** The digits are written from the end of a buffer that is always long enough. */
    method Str(radix: int) returns (s: string)
      requires Valid() && -0x8000_0000 <= radix < 0x8000_0000
      ensures s == StrOf(Value(), radix)
    {
      Range(lo, hi);
      if IsZero() {
        return "0";
      }
      if radix < 2 || radix > 37 {
        return "(invalid radix)";
      }
      var sz := new char[256](_ => '\0');
      var ii := Magnitude();
      var aux := new Int128.FromSigned(radix);
      MinNegated();
      if Value() != MIN {
        WrapFits(Abs(Value()));
      }
      var i := WriteDigits(ii, aux, radix, sz);
      if hi < 0 {
        Put(sz, i, '-');
        i := i - 1;
      }
      s := sz[i..255];
    }

    /** Parses a text; the digits up to the first other character are multiplied in. */
    method Set(sz: string)
      modifies this
      ensures Valid() && Value() == Wrap(Parsed(sz))
    {
      WrapFits(0);
      lo, hi := 0, 0;
      if sz == "" {
        return;
      }
      var radix, i, minus := 10, 0, false;
      if At(sz, i) == '-' {
        i := i + 1;
        minus := true;
      }
      if At(sz, i) == '0' {
        radix := 8;
        i := i + 1;
        if At(sz, i) == 'x' {
          radix := 16;
          i := i + 1;
        }
      }
      assert i == DigitsStart(sz) && radix == Radix(sz);
      ghost var number := ParseDigits(sz[i..], radix, 0);
      ghost var acc := 0;
      while i < |sz|
        invariant Valid() && Value() == Wrap(acc) && i <= |sz|
        invariant ParseDigits(sz[i..], radix, acc) == number
        decreases |sz| - i
      {
        var n := DigitValue(sz[i], radix);
        if n.None? {
          break;
        }
        MultiplyIn(acc, radix, n.value);
        var factor := new Int128.Unsigned(radix);
        MulAssign(factor);
        var digit := new Int128.Unsigned(n.value);
        AddAssign(digit);
        assert sz[i..][1..] == sz[i + 1..];
        acc := acc * radix + n.value;
        i := i + 1;
      }
      assert acc == number;
      if minus {
        Negated(acc);
        var r := new Int128(0, 0);
        r.SubAssign(this);
        Assign(r);
      }
    }

    static lemma MultiplyIn(acc: int, radix: int, n: int)
      ensures Wrap(Wrap(Wrap(acc) * radix) + n) == Wrap(acc * radix + n)
    {
      WrapTimes(acc, radix);
      WrapSum(acc * radix, n);
    }

    static lemma Negated(acc: int)
      ensures Wrap(0 - Wrap(acc)) == Wrap(-acc)
    {
      WrapTimes(acc, -1);
    }
  }
}
