/** Arithmetic behind the response-time analysis: C's truncated remainder, counting periodic releases,
    and least common multiples by subtraction. */
module AnalysisMath {
  import opened Arithmetic

  /** C's `%` for a positive divisor: the result takes the sign of the dividend. */
  function CRem(a: int, b: int): int
    requires b > 0
  {
    if a >= 0 then a % b else -((-a) % b)
  }

  /** floor(a / b) and ceil(a / b), the quotient taken exactly. */
  function FloorDiv(a: int, b: int): int
    requires b > 0
  {
    a / b
  }

  function CeilDiv(a: int, b: int): int
    requires b > 0
  {
    -((-a) / b)
  }

  /** How many of the releases phase, phase + period, phase + 2 * period, ... come before time t. */
  function Releases(phase: int, period: int, t: int): nat
    requires period > 0
    decreases t - phase
  {
    if phase >= t then 0 else 1 + Releases(phase + period, period, t)
  }

  /** The source's interference factor for a truncated phase. */
  function Factor(offsetDiff: int, period: int, t: int): int
    requires period > 0
  {
    var phase := CRem(offsetDiff, period);
    FloorDiv(phase, period) + CeilDiv(t - phase, period)
  }

  /** Counting releases one by one is rounding up the time left after the phase. */
  lemma {:induction false} ReleasesIsCeil(phase: int, period: int, t: int)
    requires period > 0 && t > phase - period
    ensures Releases(phase, period, t) == CeilDiv(t - phase, period)
    decreases t - phase + period
  {
    if phase < t {
      ReleasesIsCeil(phase + period, period, t);
      DivShift(phase - t, period);
    } else {
      DivUnique(phase - t, period, 0, phase - t);
    }
  }

  /** The Euclidean phase of an offset difference, negative differences included. */
  lemma EuclideanPhase(d: int, period: int)
    requires period > 0
    ensures 0 <= d % period < period
    ensures CRem(d, period) == d % period || CRem(d, period) == d % period - period
    ensures CRem(d, period) < 0 <==> CRem(d, period) != d % period
  {
    if d < 0 {
      var q, r := (-d) / period, (-d) % period;
      assert -d == q * period + r;
      if r == 0 {
        assert d == (-q) * period + 0;
        DivUnique(d, period, -q, 0);
      } else {
        assert d == (-q - 1) * period + (period - r);
        DivUnique(d, period, -q - 1, period - r);
      }
    }
  }

  /** The factor of the source counts exactly the releases before t at the Euclidean phase. */
  lemma FactorCounts(d: int, period: int, t: int)
    requires period > 0 && t >= 0
    ensures Factor(d, period, t) == Releases(d % period, period, t)
  {
    EuclideanPhase(d, period);
    var phi := d % period;
    ReleasesIsCeil(phi, period, t);
    var phase := CRem(d, period);
    if phase == phi {
      DivUnique(phi, period, 0, phi);
    } else {
      DivUnique(phase, period, -1, phi);
      DivShift(phi - t - period, period);
    }
  }

  lemma {:induction false} ReleasesMonotone(phase: int, period: int, t: int, u: int)
    requires period > 0 && t <= u
    ensures Releases(phase, period, t) <= Releases(phase, period, u)
    decreases t - phase
  {
    if phase < t {
      ReleasesMonotone(phase + period, period, t, u);
    }
  }

  lemma {:induction false} ReleasesBound(phase: int, period: int, t: int)
    requires period > 0 && t >= phase - period
    ensures Releases(phase, period, t) * period <= t - phase + period
    decreases t - phase
  {
    if phase < t {
      ReleasesBound(phase + period, period, t);
      var n := Releases(phase + period, period, t);
      assert (1 + n) * period == period + n * period;
    }
  }

  // ---------- least common multiples ----------

  predicate Times(k: int, d: int, m: int) {
    m == k * d
  }

  ghost predicate Multiple(m: int, d: int) {
    exists k :: Times(k, d, m)
  }

  /** l is the least common multiple: it divides every common multiple. */
  ghost predicate IsLcm(l: int, a: int, b: int) {
    l > 0 && Multiple(l, a) && Multiple(l, b) && forall m :: Multiple(m, a) && Multiple(m, b) ==> Multiple(m, l)
  }

  /** a and b are the multiples p * g and q * g of g, which is a combination of them. */
  lemma LcmFromGcd(a: int, b: int, g: int, p: int, q: int, x: int, y: int)
    requires g > 0 && a > 0 && b > 0 && a == p * g && b == q * g && g == x * a + y * b
    ensures a / g == p && IsLcm(p * b, a, b)
  {
    DivUnique(a, g, p, 0);
    var l := p * b;
    assert l == q * a by {
      assert p * b == p * (q * g) && q * a == q * (p * g);
      MulShuffle(p, q, g);
    }
    assert Times(q, a, l) && Times(p, b, l);
    assert p > 0 by {
      if p <= 0 { MulSign(p, g); }
    }
    assert l > 0 by {
      MulPositive(p, b);
    }
    forall m | Multiple(m, a) && Multiple(m, b)
      ensures Multiple(m, l)
    {
      var i :| Times(i, a, m);
      var j :| Times(j, b, m);
      CommonMultiple(a, b, g, p, x, y, m, i, j);
      assert Times(x * j + y * i, l, m);
    }
  }

  lemma MulSign(p: int, g: int)
    requires p <= 0 && g > 0
    ensures p * g <= 0
  {
  }

  lemma MulPositive(p: int, g: int)
    requires p > 0 && g > 0
    ensures p * g > 0
  {
  }

  lemma MulShuffle(p: int, q: int, g: int)
    ensures p * (q * g) == q * (p * g)
  {
  }

  /** Bezout: a common multiple m of a and b is a multiple of their lcm. */
  lemma CommonMultiple(a: int, b: int, g: int, p: int, x: int, y: int, m: int, i: int, j: int)
    requires g > 0 && a == p * g && g == x * a + y * b && m == i * a && m == j * b
    ensures m == (x * j + y * i) * (p * b)
  {
    var k := x * j + y * i;
    calc {
      m * g;
      m * (x * a + y * b);
      { Distribute(m, x, a, y, b); }
      (x * a) * m + (y * b) * m;
      (x * a) * (j * b) + (y * b) * (i * a);
      { Collect(x, a, j, b, y, i); }
      k * (a * b);
      k * ((p * g) * b);
      { Assoc(k, p, g, b); }
      (k * (p * b)) * g;
    }
    Cancel(m, k * (p * b), g);
  }

  lemma Distribute(m: int, x: int, a: int, y: int, b: int)
    ensures m * (x * a + y * b) == (x * a) * m + (y * b) * m
  {
  }

  lemma Collect(x: int, a: int, j: int, b: int, y: int, i: int)
    ensures (x * a) * (j * b) + (y * b) * (i * a) == (x * j + y * i) * (a * b)
  {
    assert (x * a) * (j * b) == (x * j) * (a * b);
    assert (y * b) * (i * a) == (y * i) * (a * b);
  }

  lemma Assoc(k: int, p: int, g: int, b: int)
    ensures k * ((p * g) * b) == (k * (p * b)) * g
  {
    assert (p * g) * b == (p * b) * g;
  }

  lemma Cancel(a: int, b: int, g: int)
    requires g > 0 && a * g == b * g
    ensures a == b
  {
    if a < b {
      MulPositive(b - a, g);
    } else if b < a {
      MulPositive(a - b, g);
    }
  }

  /** n1 and n2 are combinations of v1 and v2, and v1 and v2 of n1 and n2. */
  datatype Bezout = Bezout(x1: int, y1: int, x2: int, y2: int, a1: int, b1: int, a2: int, b2: int)

  ghost predicate Combines(k: Bezout, n1: int, n2: int, v1: int, v2: int) {
    && n1 == k.x1 * v1 + k.y1 * v2 && n2 == k.x2 * v1 + k.y2 * v2
    && v1 == k.a1 * n1 + k.b1 * n2 && v2 == k.a2 * n1 + k.b2 * n2
  }

  /** Subtracting the second number from the first, and the first from the second. */
  lemma Subtracted(k: Bezout, n1: int, n2: int, v1: int, v2: int) returns (k': Bezout)
    requires Combines(k, n1, n2, v1, v2)
    ensures Combines(k', n1 - n2, n2, v1, v2)
  {
    k' := Bezout(k.x1 - k.x2, k.y1 - k.y2, k.x2, k.y2, k.a1, k.a1 + k.b1, k.a2, k.a2 + k.b2);
    Difference(k.x1, k.y1, k.x2, k.y2, v1, v2);
    Absorb(k.a1, k.b1, n1, n2);
    Absorb(k.a2, k.b2, n1, n2);
  }

  lemma Swapped(k: Bezout, n1: int, n2: int, v1: int, v2: int) returns (k': Bezout)
    requires Combines(k, n1, n2, v1, v2)
    ensures Combines(k', n2, n1, v1, v2)
  {
    k' := Bezout(k.x2, k.y2, k.x1, k.y1, k.b1, k.a1, k.b2, k.a2);
  }

  lemma Difference(x1: int, y1: int, x2: int, y2: int, v1: int, v2: int)
    ensures (x1 - x2) * v1 + (y1 - y2) * v2 == (x1 * v1 + y1 * v2) - (x2 * v1 + y2 * v2)
  {
  }

  lemma Absorb(a: int, b: int, n: int, m: int)
    ensures a * n + b * m == a * (n - m) + (a + b) * m
  {
  }

  /** When both are the same number, it is the greatest common divisor. */
  lemma LcmFound(k: Bezout, n: int, v1: int, v2: int)
    requires n > 0 && v1 > 0 && v2 > 0 && Combines(k, n, n, v1, v2)
    ensures IsLcm((v1 / n) * v2, v1, v2)
  {
    MulSum(k.a1, k.b1, n);
    MulSum(k.a2, k.b2, n);
    LcmFromGcd(v1, v2, n, k.a1 + k.b1, k.a2 + k.b2, k.x1, k.y1);
  }

  /** The least common multiple, from the greatest common divisor found by subtraction. */
  method LCMcalc(v1: int, v2: int) returns (lcm: int)
    requires v1 > 0 && v2 > 0
    ensures IsLcm(lcm, v1, v2)
  {
    var n1, n2 := v1, v2;
    ghost var k := Bezout(1, 0, 0, 1, 1, 0, 0, 1);
    while n1 != n2
      invariant n1 > 0 && n2 > 0 && Combines(k, n1, n2, v1, v2)
      decreases n1 + n2
    {
      if n1 > n2 {
        k := Subtracted(k, n1, n2, v1, v2);
        n1 := n1 - n2;
      } else {
        k := Swapped(k, n1, n2, v1, v2);
        k := Subtracted(k, n2, n1, v1, v2);
        k := Swapped(k, n2 - n1, n1, v1, v2);
        n2 := n2 - n1;
      }
    }
    LcmFound(k, n1, v1, v2);
    lcm := (v1 / n1) * v2;
  }
}
