/** Divisibility, greatest common divisors and primality, stated independently
    of the algorithms that compute them. */
module Divisibility {
  import opened BigInt

  /** `d` divides `x`; 0 divides only 0. */
  predicate Divides(d: int, x: int)
  {
    if d == 0 then x == 0 else x % Abs(d) == 0
  }

  /** `g` is a greatest common divisor of `a` and `b`: a common divisor that
      every common divisor divides. */
  ghost predicate IsGcd(g: int, a: int, b: int)
  {
    && Divides(g, a) && Divides(g, b)
    && forall c :: Divides(c, a) && Divides(c, b) ==> Divides(c, g)
  }

  /** No common divisor other than 1 and -1. */
  ghost predicate Coprime(a: int, b: int)
  {
    forall c :: c > 1 ==> !(Divides(c, a) && Divides(c, b))
  }

  /** A prime number: at least 2 and without a divisor strictly between 1 and itself. */
  predicate Prime(n: int)
  {
    n >= 2 && forall k | 2 <= k < n :: n % k != 0
  }

  lemma DividesWitness(d: int, x: int)
    requires d != 0 && Divides(d, x)
    ensures x == (x / Abs(d)) * Abs(d)
  {
    var m: int := Abs(d);
    assert x == (x / m) * m + x % m;
  }

  lemma MultipleDivides(d: int, k: int)
    ensures Divides(d, k * d)
  {
    if d != 0 {
      var m: int := Abs(d);
      if d < 0 {
        assert k * d == (-k) * m;
        ModOfMultiple(-k, 0, m);
      } else {
        ModOfMultiple(k, 0, m);
      }
    }
  }

  /** A common divisor of `a` and `b` divides every combination of them. */
  lemma DividesLinear(d: int, a: int, b: int, x: int, y: int)
    requires Divides(d, a) && Divides(d, b)
    ensures Divides(d, a * x + b * y)
  {
    if d != 0 {
      var m: int := Abs(d);
      var ka, kb := a / m, b / m;
      DividesWitness(d, a);
      DividesWitness(d, b);
      assert a * x + b * y == (ka * x + kb * y) * m by {
        assert a * x == ka * m * x;
        assert b * y == kb * m * y;
      }
      MultipleDivides(m, ka * x + kb * y);
    }
  }

  /** Divisibility is transitive. */
  lemma DividesTransitive(a: int, b: int, c: int)
    requires Divides(a, b) && Divides(b, c)
    ensures Divides(a, c)
  {
    if a != 0 && b != 0 {
      var m: int := Abs(b);
      DividesWitness(b, c);
      DividesLinear(a, b, 0, c / m * (if b < 0 then -1 else 1), 0);
      assert c == b * (c / m * (if b < 0 then -1 else 1));
    }
  }

  /** The only positive divisor of 1 is 1. */
  lemma DividesOne(d: int)
    requires d > 0 && Divides(d, 1)
    ensures d == 1
  {
    if d > 1 {
      ModOfMultiple(0, 1, d);
    }
  }

  /** Consecutive numbers are coprime. */
  lemma ConsecutiveCoprime(g: int, n: int)
    requires g >= 0 && Divides(g, n) && Divides(g, n - 1)
    ensures g == 1
  {
    DividesLinear(g, n, n - 1, 1, -1);
    assert n * 1 + (n - 1) * -1 == 1;
    DividesOne(g);
  }
}
