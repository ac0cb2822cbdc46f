/** Facts about multiplication and Euclidean division used by the random
    scaling and by the ownership count. */
module Arithmetic {

  /** `a * b` by repeated addition of `a`. The solver unfolds a recursive
      definition only a bounded number of times, so formulas built on
      `Times` stay linear where a product of two unknowns would not. */
  function Times(a: int, b: int): (r: int)
    decreases if b < 0 then -b else b
  {
    if b == 0 then 0
    else if b > 0 then Times(a, b - 1) + a
    else Times(a, b + 1) - a
  }

  lemma {:induction false} TimesIsProduct(a: int, b: int)
    ensures Times(a, b) == a * b
    decreases if b < 0 then -b else b
  {
    if b > 0 {
      TimesIsProduct(a, b - 1);
    } else if b < 0 {
      TimesIsProduct(a, b + 1);
    }
  }

  lemma MulMono(a: int, b: int, c: int)
    requires a <= b && c > 0
    ensures a * c <= b * c
  {
    assert (b - a) * c >= 0;
  }

  lemma MulStrict(a: int, b: int, c: int)
    requires 0 <= a < b && c > 0
    ensures 0 <= a * c < b * c
  {
    assert (b - a) * c > 0;
  }

  /** Division by s > 0 rounds down. */
  lemma DivBetween(x: int, s: int, lo: int, hi: int)
    requires s > 0 && lo * s <= x < hi * s
    ensures lo <= x / s < hi
  {
    var q, r := x / s, x % s;
    assert x == q * s + r && 0 <= r < s;
    if q < lo {
      MulMono(q + 1, lo, s);
      assert false;
    }
    if q >= hi {
      MulMono(hi, q, s);
      assert false;
    }
  }

  /** Quotient and remainder are determined by x == q * m + r, 0 <= r < m. */
  lemma DivModUnique(x: int, m: int, q: int, r: int)
    requires m > 0 && 0 <= r < m && x == q * m + r
    ensures x / m == q && x % m == r
  {
    DivBetween(x, m, q, q + 1);
    assert x == (x / m) * m + x % m;
  }

  /** How quotient and remainder move from n to n + 1. */
  lemma DivModStep(n: nat, m: nat)
    requires m > 0
    ensures n % m + 1 < m ==> (n + 1) / m == n / m && (n + 1) % m == n % m + 1
    ensures n % m + 1 == m ==> (n + 1) / m == n / m + 1 && (n + 1) % m == 0
  {
    var q, r := n / m, n % m;
    assert n == q * m + r && 0 <= r < m;
    if r + 1 < m {
      DivModUnique(n + 1, m, q, r + 1);
    } else {
      assert n + 1 == (q + 1) * m;
      DivModUnique(n + 1, m, q + 1, 0);
    }
  }

  /** On non-negative reals, squaring preserves strict order both ways. */
  lemma SquareMonotone(a: real, b: real)
    requires 0.0 <= a && 0.0 <= b
    ensures a < b <==> a * a < b * b
  {
    if a < b {
      calc {
        a * a;
      <= a * b;
      < b * b;
      }
    } else {
      calc {
        b * b;
      <= b * a;
      <= a * a;
      }
    }
  }
}
