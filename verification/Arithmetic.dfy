/** Products, quotients and remainders of integers, in steps small enough for the solver. */
module Arithmetic {

  function Pow2(n: nat): (r: nat)
    ensures r > 0
  {
    if n == 0 then 1 else 2 * Pow2(n - 1)
  }

  lemma MulNonNegative(a: int, b: int)
    requires a >= 0 && b >= 0
    ensures a * b >= 0
  {
  }

  lemma MulSum(a: int, b: int, c: int)
    ensures (a + b) * c == a * c + b * c
  {
  }

  lemma MulAssoc(a: int, b: int, c: int)
    ensures (a * b) * c == a * (b * c)
  {
  }

  lemma TimesBit(b: int, p: int)
    requires p > 0 && 0 <= b <= 1
    ensures b * p == if b == 0 then 0 else p
  {
  }

  lemma MulGap(q: int, q': int, b: int)
    requires q < q' && b > 0
    ensures q' * b >= q * b + b
  {
    MulNonNegative(q' - q - 1, b);
    MulSum(q' - q - 1, q + 1, b);
    MulSum(q, 1, b);
  }

  lemma BelowProduct(q: int, p: int, r: int)
    requires p > 0 && q * p < r * p
    ensures q < r
  {
    if q >= r {
      MulGap(r - 1, q, p);
    }
  }

  lemma DivMod(a: int, p: int)
    requires p > 0
    ensures a == (a / p) * p + a % p && 0 <= a % p < p
  {
  }

  lemma QuotientUnique(b: int, q: int, r: int, q': int, r': int)
    requires b > 0 && q * b + r == q' * b + r' && 0 <= r < b && 0 <= r' < b
    ensures q == q' && r == r'
  {
    if q' > q {
      MulGap(q, q', b);
    } else if q' < q {
      MulGap(q', q, b);
    }
  }

  lemma DivUnique(a: int, b: int, q: int, r: int)
    requires b > 0 && a == q * b + r && 0 <= r < b
    ensures a / b == q && a % b == r
  {
    DivMod(a, b);
    QuotientUnique(b, q, r, a / b, a % b);
  }

  lemma DivShift(a: int, b: int)
    requires b > 0
    ensures (a + b) / b == a / b + 1
  {
    DivMod(a, b);
    MulSum(a / b, 1, b);
    DivUnique(a + b, b, a / b + 1, a % b);
  }
}
