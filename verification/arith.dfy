/** Small facts about integer division and multiplication. */
module Arith {

  /** Multiplication by a non-negative factor is monotonic. */
  lemma MulMono(a: int, b: int, x: nat)
    requires a <= b
    ensures a * x <= b * x
  {
    assert b * x - a * x == (b - a) * x;
  }

  /** Quotient and remainder are determined by any Euclidean decomposition. */
  lemma DivModUnique(n: int, x: int, q: int, c: int)
    requires x > 0 && 0 <= c < x && n == q * x + c
    ensures n / x == q && n % x == c
  {
    var q', c' := n / x, n % x;
    assert q' * x + c' == q * x + c;
    if q' < q {
      MulMono(q' + 1, q, x);
    } else if q < q' {
      MulMono(q + 1, q', x);
    }
  }

  /** Block `c` of row `y` in a grid `x` wide sits at row `y`, column `c`. */
  lemma RowCol(y: int, x: int, c: int)
    requires x > 0 && 0 <= c < x
    ensures (y * x + c) / x == y && (y * x + c) % x == c
  {
    DivModUnique(y * x + c, x, y, c);
  }

  /** Counting one further modulo `x` wraps to 0 after `x - 1`. */
  lemma ModStep(n: nat, x: int)
    requires x > 0
    ensures (n + 1) % x == (if n % x + 1 >= x then 0 else n % x + 1)
  {
    if n % x + 1 >= x {
      DivModUnique(n + 1, x, n / x + 1, 0);
    } else {
      DivModUnique(n + 1, x, n / x, n % x + 1);
    }
  }

  /** Two numbers less than `x` apart have different remainders modulo `x`. */
  lemma ModDistinct(a: nat, b: nat, x: int)
    requires x > 0 && a < b < a + x
    ensures a % x != b % x
  {
    var qa, qb := a / x, b / x;
    if a % x == b % x {
      assert b - a == (qb - qa) * x;
      if qb - qa >= 1 {
        MulMono(1, qb - qa, x);
      } else {
        MulMono(qb - qa, 0, x);
      }
    }
  }

  /** Dividing by a positive number never increases a natural number. */
  lemma DivAtMost(n: nat, x: int)
    requires x >= 1
    ensures n / x <= n
  {
    var q := n / x;
    MulMono(1, x, q);
  }

  /** Quotient and remainder one step further: the remainder wraps and the quotient advances together. */
  lemma DivModStep(n: nat, x: int)
    requires x > 0
    ensures (n + 1) % x == (if n % x + 1 == x then 0 else n % x + 1)
    ensures (n + 1) / x == (if n % x + 1 == x then n / x + 1 else n / x)
  {
    if n % x + 1 == x {
      DivModUnique(n + 1, x, n / x + 1, 0);
    } else {
      DivModUnique(n + 1, x, n / x, n % x + 1);
    }
  }
}
