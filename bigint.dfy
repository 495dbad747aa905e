/** Arithmetic of JavaScript `bigint` values as the RSA utilities use it.
    Dafny's `/` and `%` are Euclidean; JavaScript's bigint `/` truncates toward
    zero and `%` takes the sign of the dividend, so both are written out here. */
module BigInt {

  function Abs(x: int): nat
  {
    if x < 0 then -x else x
  }

  /** The bigint remainder `a % b`. JavaScript throws a RangeError when `b` is 0. */
  function Rem(a: int, b: int): int
    requires b != 0
  {
    if a >= 0 then a % Abs(b) else -((-a) % Abs(b))
  }

  /** The bigint quotient `a / b`, truncated toward zero. */
  function Div(a: int, b: int): int
    requires b != 0
  {
    if (a >= 0) == (b > 0) then Abs(a) / Abs(b) else -(Abs(a) / Abs(b))
  }

  function Pow(b: int, k: nat): int
  {
    if k == 0 then 1 else b * Pow(b, k - 1)
  }

  /** Everything the model needs to know about Rem: it is congruent to the
      dividend, smaller than the divisor in magnitude, and carries the
      dividend's sign. */
  lemma RemProperties(a: int, b: int)
    requires b != 0
    ensures Abs(Rem(a, b)) < Abs(b)
    ensures Rem(a, b) % Abs(b) == a % Abs(b)
    ensures a >= 0 ==> Rem(a, b) == a % Abs(b) && Rem(a, b) >= 0
    ensures a <= 0 ==> Rem(a, b) <= 0
  {
    var m: int := Abs(b);
    if a < 0 {
      var q, r := (-a) / m, (-a) % m;
      assert -a == q * m + r && 0 <= r < m;
      NegRem(a, m, q, r);
      assert Rem(a, b) == -r;
    } else {
      var r := a % m;
      assert Rem(a, b) == r && 0 <= r < m;
      ModOfMultiple(0, r, m);
    }
  }

  /** The remainder of a negative dividend -(q * m + r) is congruent to -r. */
  lemma NegRem(a: int, m: int, q: int, r: int)
    requires m > 0 && 0 <= r < m && -a == q * m + r
    ensures (-r) % m == a % m
  {
    if r == 0 {
      assert a == (-q) * m + 0;
      ModOfMultiple(-q, 0, m);
      NegMod(0, m);
    } else {
      assert a == (-q - 1) * m + (m - r);
      ModOfMultiple(-q - 1, m - r, m);
      NegMod(r, m);
    }
  }

  /** (k * m + x) % m == x for x in [0, m). */
  lemma ModOfMultiple(k: int, x: int, m: int)
    requires m > 0 && 0 <= x < m
    ensures (k * m + x) % m == x
    ensures (k * m + x) / m == k
  {
    var n := k * m + x;
    var q, r := n / m, n % m;
    assert n == q * m + r && 0 <= r < m;
    assert (q - k) * m == x - r;
    if q > k {
      MulAtLeast(q - k, m);
    } else if q < k {
      assert (k - q) * m == r - x;
      MulAtLeast(k - q, m);
    }
  }

  lemma MulAtLeast(a: int, m: int)
    requires a >= 1 && m > 0
    ensures a * m >= m
  {
    assert a * m == (a - 1) * m + m;
  }

  /** (-r) % m == m - r for r in (0, m), and 0 % m == 0. */
  lemma NegMod(r: int, m: int)
    requires m > 0 && 0 <= r < m
    ensures r == 0 ==> (-r) % m == 0
    ensures r > 0 ==> (-r) % m == m - r
  {
    if r > 0 {
      ModOfMultiple(-1, m - r, m);
    } else {
      ModOfMultiple(0, 0, m);
    }
  }

  /** `Div` and `Rem` together reconstruct the dividend, as in JavaScript. */
  lemma DivRem(a: int, b: int)
    requires b != 0
    ensures Div(a, b) * b + Rem(a, b) == a
  {
    var m: int := Abs(b);
    var q, r := Abs(a) / m, Abs(a) % m;
    assert Abs(a) == q * m + r;
    if a >= 0 && b > 0 {
    } else if a >= 0 {
      assert Div(a, b) * b == (-q) * (-m);
    } else if b > 0 {
      assert Div(a, b) * b == -(q * m);
    } else {
      assert Div(a, b) * b == q * (-m);
    }
  }

  /** Congruence of a product depends only on the factors' residues. */
  lemma ModMul(a: int, b: int, m: int)
    requires m > 0
    ensures (a * b) % m == ((a % m) * (b % m)) % m
  {
    var qa, ra := a / m, a % m;
    var qb, rb := b / m, b % m;
    assert a == qa * m + ra;
    assert b == qb * m + rb;
    var k := qa * qb * m + qa * rb + ra * qb;
    ProductExpand(qa, ra, qb, rb, m);
    ModAddMultiple(k, ra * rb, m);
  }

  lemma ProductExpand(qa: int, ra: int, qb: int, rb: int, m: int)
    ensures (qa * m + ra) * (qb * m + rb) == (qa * qb * m + qa * rb + ra * qb) * m + ra * rb
  {
  }

  /** Adding a multiple of m does not change a residue. */
  lemma ModAddMultiple(k: int, x: int, m: int)
    requires m > 0
    ensures (k * m + x) % m == x % m
  {
    var q, r := x / m, x % m;
    assert x == q * m + r;
    assert k * m + x == (k + q) * m + r;
    ModOfMultiple(k + q, r, m);
  }

  /** Rem of a product is Rem of the product of the Rems. */
  lemma RemMul(a: int, b: int, m: int)
    requires m != 0
    ensures Rem(a * b, m) == Rem(Rem(a, m) * Rem(b, m), m)
  {
    var M := Abs(m);
    var ra, rb := Rem(a, m), Rem(b, m);
    RemProperties(a, m);
    RemProperties(b, m);
    RemProperties(a * b, m);
    RemProperties(ra * rb, m);
    ModMul(a, b, M);
    ModMul(ra, rb, M);
    SignOfProduct(a, b);
    SignOfProduct(ra, rb);
    RemUnique(Rem(a * b, m), Rem(ra * rb, m), m);
  }

  lemma SignOfProduct(a: int, b: int)
    ensures (a >= 0 && b >= 0) || (a <= 0 && b <= 0) ==> a * b >= 0
    ensures (a >= 0 && b <= 0) || (a <= 0 && b >= 0) ==> a * b <= 0
    ensures a * b == 0 <==> a == 0 || b == 0
  {
  }

  /** Two values below m in magnitude, congruent mod m and not of opposite
      signs, are equal. */
  lemma RemUnique(r1: int, r2: int, m: int)
    requires m != 0
    requires Abs(r1) < Abs(m) && Abs(r2) < Abs(m)
    requires r1 % Abs(m) == r2 % Abs(m)
    requires (r1 >= 0 && r2 >= 0) || (r1 <= 0 && r2 <= 0)
    ensures r1 == r2
  {
    var M := Abs(m);
    if r1 >= 0 && r2 >= 0 {
      ModOfMultiple(0, r1, M);
      ModOfMultiple(0, r2, M);
    } else {
      NegMod(-r1, M);
      NegMod(-r2, M);
    }
  }

  /** Rem is idempotent. */
  lemma RemRem(a: int, m: int)
    requires m != 0
    ensures Rem(Rem(a, m), m) == Rem(a, m)
  {
    RemProperties(a, m);
    RemProperties(Rem(a, m), m);
    RemUnique(Rem(Rem(a, m), m), Rem(a, m), m);
  }

  lemma {:induction false} PowAdd(b: int, j: nat, k: nat)
    ensures Pow(b, j + k) == Pow(b, j) * Pow(b, k)
    decreases j
  {
    if j > 0 {
      PowAdd(b, j - 1, k);
      assert Pow(b, j + k) == b * Pow(b, j - 1 + k);
    }
  }

  lemma {:induction false} PowMul(b: int, j: nat, k: nat)
    ensures Pow(Pow(b, j), k) == Pow(b, j * k)
    decreases k
  {
    if k > 0 {
      PowMul(b, j, k - 1);
      PowAdd(b, j, j * (k - 1));
      assert j * k == j + j * (k - 1);
    }
  }

  /** Squaring the base halves the exponent: the step of square-and-multiply. */
  lemma PowSquare(b: int, k: nat)
    ensures Pow(b * b, k / 2) * (if k % 2 == 1 then b else 1) == Pow(b, k)
  {
    PowMul(b, 2, k / 2);
    assert Pow(b, 1) == b;
    assert Pow(b, 2) == b * b;
    if k % 2 == 1 {
      PowAdd(b, 2 * (k / 2), 1);
      assert k == 2 * (k / 2) + 1;
    } else {
      assert k == 2 * (k / 2);
    }
  }

  /** Rem of a power depends only on the Rem of the base. */
  lemma {:induction false} RemPow(b: int, k: nat, m: int)
    requires m != 0
    ensures Rem(Pow(Rem(b, m), k), m) == Rem(Pow(b, k), m)
    decreases k
  {
    if k > 0 {
      var r := Rem(b, m);
      RemPow(b, k - 1, m);
      calc {
        Rem(Pow(r, k), m);
        Rem(r * Pow(r, k - 1), m);
        { RemMul(r, Pow(r, k - 1), m); }
        Rem(Rem(r, m) * Rem(Pow(r, k - 1), m), m);
        { RemRem(b, m); }
        Rem(Rem(b, m) * Rem(Pow(b, k - 1), m), m);
        { RemMul(b, Pow(b, k - 1), m); }
        Rem(Pow(b, k), m);
      }
    }
  }

  lemma {:induction false} PowNonNegative(b: int, k: nat)
    requires b >= 0
    ensures Pow(b, k) >= 0
    decreases k
  {
    if k > 0 {
      PowNonNegative(b, k - 1);
    }
  }

  /** Congruent factors give congruent products. */
  lemma ModCongruentMul(a: int, v: int, x: int, m: int)
    requires m > 0 && v % m == x % m
    ensures (a * v) % m == (a * x) % m
  {
    ModMul(a, v, m);
    ModMul(a, x, m);
  }
}
