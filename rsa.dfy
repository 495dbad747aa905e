/** The number theory of src/utils/rsa.ts: modular exponentiation, Euclid's
    algorithm, the modular inverse, trial-division primality and key
    generation. All values are JavaScript bigints, so `%` and `/` are the
    truncating Rem and Div of module BigInt. */
module Rsa {
  import opened Wrappers
  import opened BigInt
  import opened JsString
  import opened Divisibility

  // ---------------------------------------------------------------------
  // modPow

  /** The value `modPow(base, exp, mod)` returns: 0 for modulus 1, 1 for an
      exponent that is not positive, and otherwise the bigint remainder of
      the power. */
  function ModPowValue(base: int, exp: int, mod: int): int
    requires mod != 0
  {
    if mod == 1 then 0 else if exp <= 0 then 1 else Rem(Pow(base, exp), mod)
  }

  /** For the non-negative operands the codec uses, modPow is the textbook
      base^exp mod m, a residue in [0, m). */
  lemma ModPowIsResidue(base: int, exp: int, mod: int)
    requires base >= 0 && exp >= 0 && mod >= 1
    ensures ModPowValue(base, exp, mod) == Pow(base, exp) % mod
    ensures 0 <= ModPowValue(base, exp, mod) < mod
  {
    PowNonNegative(base, exp);
    RemProperties(Pow(base, exp), mod);
    if mod > 1 && exp == 0 {
      ModOfMultiple(0, 1, mod);
    }
  }

  /** One round of square-and-multiply keeps result * b^e fixed modulo m. */
  lemma SquareAndMultiplyStep(result: int, b: int, e: nat, m: int)
    requires m != 0 && e > 0
    ensures var result' := if e % 2 == 1 then Rem(result * b, m) else result;
            Rem(result' * Pow(Rem(b * b, m), e / 2), m) == Rem(result * Pow(b, e), m)
  {
    var result' := if e % 2 == 1 then Rem(result * b, m) else result;
    var p := Pow(b * b, e / 2);
    var q := Pow(Rem(b * b, m), e / 2);
    RemPow(b * b, e / 2, m);
    RemCongruentFactor(result', q, p, m);
    PowSquare(b, e);
    if e % 2 == 1 {
      RemOfRemFactor(result * b, p, m);
      Regroup(result, b, p);
    }
  }

  /** Factors congruent modulo m give congruent products. */
  lemma RemCongruentFactor(x: int, y: int, z: int, m: int)
    requires m != 0 && Rem(y, m) == Rem(z, m)
    ensures Rem(x * y, m) == Rem(x * z, m)
  {
    RemMul(x, y, m);
    RemMul(x, z, m);
  }

  /** Reducing one factor first does not change the remainder of a product. */
  lemma RemOfRemFactor(x: int, y: int, m: int)
    requires m != 0
    ensures Rem(Rem(x, m) * y, m) == Rem(x * y, m)
  {
    RemMul(Rem(x, m), y, m);
    RemRem(x, m);
    RemMul(x, y, m);
  }

  lemma Regroup(x: int, y: int, z: int)
    ensures x * y * z == x * (z * y)
  {
  }

  /** `modPow`: square-and-multiply. A modulus of 0 makes the first
      remainder throw a RangeError. */
  method ModPow(base: int, exp: int, mod: int) returns (r: Result<int, JsError>)
    ensures r.Failure? <==> mod == 0
    ensures r.Failure? ==> r.error == RangeError
    ensures r.Success? ==> mod != 0 && r.value == ModPowValue(base, exp, mod)
  {
    if mod == 1 {
      return Success(0);
    }
    if mod == 0 {
      return Failure(RangeError);
    }
    var result := 1;
    var baseResult := Rem(base, mod);
    var expResult := exp;
    RemPow(base, if exp >= 0 then exp else 0, mod);
    while expResult > 0
      invariant exp <= 0 ==> expResult == exp && result == 1
      invariant exp > 0 ==> 0 <= expResult
      invariant exp > 0 ==> Rem(result * Pow(baseResult, expResult), mod) == Rem(Pow(base, exp), mod)
      invariant result == Rem(result, mod) || (result == 1 && expResult > 0) || exp <= 0
    {
      SquareAndMultiplyStep(result, baseResult, expResult, mod);
      if expResult % 2 == 1 {
        RemRem(result * baseResult, mod);
        result := Rem(result * baseResult, mod);
      } else {
        assert expResult / 2 > 0;
      }
      expResult := expResult / 2;
      baseResult := Rem(baseResult * baseResult, mod);
    }
    if exp > 0 {
      assert Pow(baseResult, 0) == 1;
    }
    return Success(result);
  }

  // ---------------------------------------------------------------------
  // extendedGcd, gcd, modInverse

  /** `extendedGcd(a, b)`: a triple (g, x, y) with a*x + b*y == g where g
      divides both a and b. */
  function ExtendedGcd(a: int, b: int): (r: (int, int, int))
    ensures a * r.1 + b * r.2 == r.0
    ensures Divides(r.0, a) && Divides(r.0, b)
    ensures a >= 0 && b >= 0 ==> r.0 >= 0
    decreases Abs(b)
  {
    if b == 0 then
      MultipleDivides(a, 1);
      MultipleDivides(a, 0);
      (a, 1, 0)
    else
      var q, r := Div(a, b), Rem(a, b);
      RemProperties(a, b);
      DivRem(a, b);
      var t := ExtendedGcd(b, r);
      BezoutStep(a, b, q, r, t.0, t.1, t.2);
      (t.0, t.2, t.1 - q * t.2)
  }

  /** The recursive case of extendedGcd: from the triple for (b, r) to the
      triple for (a, b), where a == q * b + r. */
  lemma BezoutStep(a: int, b: int, q: int, r: int, g: int, x1: int, y1: int)
    requires q * b + r == a
    requires b * x1 + r * y1 == g && Divides(g, b) && Divides(g, r)
    ensures a * y1 + b * (x1 - q * y1) == g
    ensures Divides(g, a)
  {
    DividesLinear(g, b, r, q, 1);
    assert b * q + r * 1 == a;
    calc {
      a * y1 + b * (x1 - q * y1);
      a * y1 + b * x1 - b * (q * y1);
      { assert b * (q * y1) == (q * b) * y1; }
      a * y1 + b * x1 - (q * b) * y1;
      (a - q * b) * y1 + b * x1;
      b * x1 + r * y1;
    }
  }

  /** The first component of extendedGcd is a greatest common divisor: by
      Bezout's identity every common divisor divides it. */
  lemma ExtendedGcdIsGcd(a: int, b: int)
    ensures IsGcd(ExtendedGcd(a, b).0, a, b)
  {
    var (g, x, y) := ExtendedGcd(a, b);
    forall c | Divides(c, a) && Divides(c, b) ensures Divides(c, g) {
      DividesLinear(c, a, b, x, y);
    }
  }

  /** For non-negative inputs, extendedGcd reports 1 exactly when the inputs
      are coprime. */
  lemma GcdOneIffCoprime(a: int, b: int)
    requires a >= 0 && b >= 0
    ensures ExtendedGcd(a, b).0 == 1 <==> Coprime(a, b)
  {
    var g := ExtendedGcd(a, b).0;
    ExtendedGcdIsGcd(a, b);
    if g == 1 {
      forall c | c > 1 ensures !(Divides(c, a) && Divides(c, b)) {
        if Divides(c, a) && Divides(c, b) {
          DividesOne(c);
        }
      }
    } else if g == 0 {
      assert a == 0 && b == 0;
      assert Divides(2, a) && Divides(2, b);
    } else {
      assert g > 1 && Divides(g, a) && Divides(g, b);
    }
  }

  /** `gcd`: the iterative Euclid loop, which computes the same value as the
      first component of extendedGcd. */
  method Gcd(a: int, b: int) returns (g: int)
    ensures g == ExtendedGcd(a, b).0
    ensures IsGcd(g, a, b)
  {
    var aBig, bBig := a, b;
    while bBig != 0
      invariant ExtendedGcd(aBig, bBig).0 == ExtendedGcd(a, b).0
      decreases Abs(bBig)
    {
      RemProperties(aBig, bBig);
      var temp := bBig;
      bBig := Rem(aBig, bBig);
      aBig := temp;
    }
    g := aBig;
    ExtendedGcdIsGcd(a, b);
  }

  /** `modInverse(a, m)`: null when extendedGcd does not report 1, and
      otherwise x normalised by `(x % m + m) % m`. With m = 0 and a = 1 the
      normalisation divides by zero and throws a RangeError. */
  function ModInverse(a: int, m: int): (r: Result<Option<int>, JsError>)
    ensures r.Failure? <==> m == 0 && a == 1
    ensures r.Failure? ==> r.error == RangeError
    ensures r.Success? ==> (r.value.None? <==> ExtendedGcd(a, m).0 != 1)
    ensures r.Success? && r.value.Some? ==> (a * r.value.value) % Abs(m) == 1 % Abs(m)
    ensures r.Success? && r.value.Some? && m > 0 ==> 0 <= r.value.value < m
  {
    var t := ExtendedGcd(a, m);
    if t.0 != 1 then
      Success(None)
    else if m == 0 then
      Failure(RangeError)
    else
      var v := Rem(Rem(t.1, m) + m, m);
      InverseCongruence(a, m, t.1, t.2, v);
      Success(Some(v))
  }

  lemma InverseCongruence(a: int, m: int, x: int, y: int, v: int)
    requires m != 0 && a * x + m * y == 1
    requires v == Rem(Rem(x, m) + m, m)
    ensures (a * v) % Abs(m) == 1 % Abs(m)
    ensures m > 0 ==> 0 <= v < m
  {
    var M: int := Abs(m);
    NormalisedResidue(x, m);
    ModCongruentMul(a, v, x, M);
    BezoutResidue(a, m, x, y);
  }

  /** `(x % m + m) % m` leaves the residue of x, and lies in [0, m) when m > 0. */
  lemma NormalisedResidue(x: int, m: int)
    requires m != 0
    ensures Rem(Rem(x, m) + m, m) % Abs(m) == x % Abs(m)
    ensures m > 0 ==> 0 <= Rem(Rem(x, m) + m, m) < m
  {
    var M: int := Abs(m);
    var w := Rem(x, m) + m;
    RemProperties(x, m);
    RemProperties(w, m);
    var s := if m > 0 then 1 else -1;
    assert w == s * M + Rem(x, m);
    ModAddMultiple(s, Rem(x, m), M);
  }

  /** a * x + m * y == 1 makes a * x leave residue 1 modulo m. */
  lemma BezoutResidue(a: int, m: int, x: int, y: int)
    requires m != 0 && a * x + m * y == 1
    ensures (a * x) % Abs(m) == 1 % Abs(m)
  {
    var M: int := Abs(m);
    var k := if m > 0 then -y else y;
    assert a * x == k * M + 1;
    ModAddMultiple(k, 1, M);
  }

  /** For a non-negative a and a positive modulus, an inverse exists exactly
      when a and m are coprime, and it is the unique residue in [0, m) whose
      product with a is 1 modulo m. */
  lemma ModInverseCharacterised(a: int, m: int, s: int)
    requires a >= 0 && m > 0
    ensures ModInverse(a, m).Success?
    ensures ModInverse(a, m).value.Some? <==> Coprime(a, m)
    ensures ModInverse(a, m).value.Some? && 0 <= s < m && (a * s) % m == 1 % m ==>
              s == ModInverse(a, m).value.value
  {
    GcdOneIffCoprime(a, m);
    var r := ModInverse(a, m).value;
    if r.Some? && 0 <= s < m && (a * s) % m == 1 % m {
      var t := ExtendedGcd(a, m);
      InverseUnique(a, m, t.1, t.2, r.value, s);
    }
  }

  /** Two inverses of a modulo m in [0, m) coincide. */
  lemma InverseUnique(a: int, m: int, x: int, y: int, r: int, s: int)
    requires m > 0 && a * x + m * y == 1
    requires 0 <= r < m && 0 <= s < m
    requires (a * r) % m == 1 % m && (a * s) % m == 1 % m
    ensures r == s
  {
    ResidueViaBezout(a, m, x, y, r);
    ResidueViaBezout(a, m, x, y, s);
    ModOfMultiple(0, r, m);
    ModOfMultiple(0, s, m);
  }

  /** Multiplying by 1 == a * x + m * y: the residue of r is determined by
      the residue of a * r. */
  lemma ResidueViaBezout(a: int, m: int, x: int, y: int, r: int)
    requires m > 0 && a * x + m * y == 1
    ensures r % m == (((a * r) % m) * (x % m)) % m
  {
    assert r == (r * y) * m + (a * r) * x by {
      calc {
        r;
        r * (a * x + m * y);
        (a * r) * x + (r * y) * m;
      }
    }
    ModAddMultiple(r * y, (a * r) * x, m);
    ModMul(a * r, x, m);
  }

  // ---------------------------------------------------------------------
  // isPrime

  /** If n has a divisor k in [i, n) and n < i * i, the cofactor n / k is a
      divisor in [2, i) whose square is below n. */
  lemma SmallDivisor(n: int, k: int, i: int) returns (j: int)
    requires 2 <= k < n && n % k == 0 && i <= k && n < i * i && i >= 2
    ensures 2 <= j < i && n % j == 0 && j * k == n && j * j < n
  {
    j := n / k;
    assert n == j * k;
    if j >= i {
      MulMonotone(i, j, k);
      MulMonotone(i, k, i);
      assert false;
    }
    if j < 2 {
      MulMonotone(j, 1, k);
      assert false;
    }
    MulStrict(j, k, j);
    MultipleDivides(j, k);
  }

  lemma MulStrict(a: int, b: int, c: int)
    requires 0 <= a < b && c > 0
    ensures a * c < b * c
  {
    assert b * c == a * c + (b - a) * c;
    MulMonotone(1, b - a, c);
  }

  lemma MulMonotone(a: int, b: int, c: int)
    requires 0 <= a <= b && c >= 0
    ensures a * c <= b * c
  {
    assert b * c == a * c + (b - a) * c;
  }

  /** A multiple of a multiple of p is a multiple of p. */
  lemma DivisorOfDivisor(n: int, k: int, p: int)
    requires p > 0 && k > 0 && n % k == 0 && k % p == 0
    ensures n % p == 0
  {
    DividesTransitive(p, k, n);
  }

  /** No number in [2, i) divides n. */
  predicate NoDivisorBelow(n: int, i: int)
  {
    forall k | 2 <= k < i :: n % k != 0
  }

  /** An odd n that 3 does not divide has no divisor in [2, 5). */
  lemma TrialStart(n: int)
    requires n > 3 && n % 2 != 0 && n % 3 != 0
    ensures NoDivisorBelow(n, 5)
  {
    if n % 4 == 0 {
      DivisorOfDivisor(n, 4, 2);
    }
  }

  /** A candidate i >= 5 whose square is at most n, and i + 2, lie below n. */
  lemma TrialBound(n: int, i: int)
    requires i >= 5 && i * i <= n
    ensures i + 2 < n
  {
    MulMonotone(3, i, i);
  }

  /** A number that p does not divide has no divisor that is a multiple of p. */
  lemma NotMultipleDivisor(n: int, p: int, c: int)
    requires p > 0 && c > 0 && n % p != 0
    ensures n % (p * c) != 0
  {
    var k := p * c;
    assert k == c * p + 0;
    MulAtLeast(c, p);
    ModOfMultiple(c, 0, p);
    if n % k == 0 {
      DivisorOfDivisor(n, k, p);
    }
  }

  /** One round of trial division: with no divisor below i = 6j + 5 and
      neither i nor i + 2 dividing n, there is none below i + 6, since the
      numbers in between are multiples of 2 or 3. */
  lemma TrialStep(n: int, i: int, j: int)
    requires n > 3 && n % 2 != 0 && n % 3 != 0
    requires j >= 0 && i == 6 * j + 5 && n % i != 0 && n % (i + 2) != 0
    requires NoDivisorBelow(n, i)
    ensures NoDivisorBelow(n, i + 6)
  {
    forall k | i <= k < i + 6 ensures n % k != 0 {
      if k == i + 1 {
        NotMultipleDivisor(n, 2, 3 * j + 3);
      } else if k == i + 3 {
        NotMultipleDivisor(n, 2, 3 * j + 4);
      } else if k == i + 5 {
        NotMultipleDivisor(n, 2, 3 * j + 5);
      } else if k == i + 4 {
        NotMultipleDivisor(n, 3, 2 * j + 3);
      }
    }
  }

  /** Trial division may stop once i * i exceeds n. */
  lemma TrialEnd(n: int, i: int)
    requires n > 3 && i >= 2 && n < i * i
    requires NoDivisorBelow(n, i)
    ensures Prime(n)
  {
    forall k | 2 <= k < n ensures n % k != 0 {
      if k >= i && n % k == 0 {
        var j := SmallDivisor(n, k, i);
      }
    }
  }

  lemma Composite(n: int, k: int)
    requires 2 <= k < n && n % k == 0
    ensures !Prime(n)
  {
  }

  /** `isPrime`: trial division by 2, 3 and the numbers 6j - 1 and 6j + 1
      whose square does not exceed n. */
  method IsPrime(n: int) returns (r: bool)
    ensures r == Prime(n)
  {
    if n <= 1 {
      return false;
    }
    if n <= 3 {
      return true;
    }
    // n > 3, so the bigint remainders below equal Dafny's Euclidean ones.
    if n % 2 == 0 || n % 3 == 0 {
      Composite(n, if n % 2 == 0 then 2 else 3);
      return false;
    }
    r := TrialDivision(n);
  }

  /** The trial-division loop of isPrime, for an n > 3 that neither 2 nor 3
      divides. */
  method TrialDivision(n: int) returns (r: bool)
    requires n > 3 && n % 2 != 0 && n % 3 != 0
    ensures r == Prime(n)
  {
    var i := 5;
    ghost var j := 0;
    TrialStart(n);
    while i * i <= n
      invariant j >= 0 && i == 6 * j + 5
      invariant NoDivisorBelow(n, i)
    {
      TrialBound(n, i);
      if n % i == 0 {
        Composite(n, i);
        return false;
      }
      if n % (i + 2) == 0 {
        Composite(n, i + 2);
        return false;
      }
      TrialStep(n, i, j);
      i, j := i + 6, j + 1;
    }
    TrialEnd(n, i);
    return true;
  }

  /** Primality is decided by the divisors whose square is at most n, the
      bound the trial division stops at. */
  lemma PrimeIffNoSmallDivisor(n: int)
    ensures Prime(n) <==> n >= 2 && forall k | 2 <= k && k * k <= n :: n % k != 0
  {
    if n >= 2 && forall k | 2 <= k && k * k <= n :: n % k != 0 {
      NoSmallDivisorPrime(n);
    }
    if Prime(n) {
      forall k | 2 <= k && k * k <= n ensures n % k != 0 {
        SquareBelow(n, k);
      }
    }
  }

  lemma SquareBelow(n: int, k: int)
    requires 2 <= k && k * k <= n
    ensures k < n
  {
    MulMonotone(2, k, k);
  }

  lemma NoSmallDivisorPrime(n: int)
    requires n >= 2 && forall k | 2 <= k && k * k <= n :: n % k != 0
    ensures Prime(n)
  {
    forall k | 2 <= k < n ensures n % k != 0 {
      if n % k == 0 && k * k > n {
        var j := SmallDivisor(n, k, k);
      }
    }
  }

  // ---------------------------------------------------------------------
  // generateRSAKeys

  /** The numbers of a generated key pair. */
  datatype KeyNumbers = KeyNumbers(n: int, d: int, e: int, phi: int)

  /** What generateRSAKeys returns: the same numbers as decimal strings. */
  datatype GeneratedKeys = GeneratedKeys(n: Str, d: Str, e: Str, phi: Str)

  function Render(k: Option<KeyNumbers>): (r: Option<GeneratedKeys>)
    ensures r.Some? <==> k.Some?
  {
    match k
    case None => None
    case Some(k) =>
      Some(GeneratedKeys(BigIntToString(k.n), BigIntToString(k.d), BigIntToString(k.e), BigIntToString(k.phi)))
  }

  /** Each string generateRSAKeys returns parses back to its number. */
  lemma RenderParses(k: KeyNumbers)
    ensures var g := Render(Some(k)).value;
            && ParseBigInt(g.n) == Success(k.n)
            && ParseBigInt(g.d) == Success(k.d)
            && ParseBigInt(g.e) == Success(k.e)
            && ParseBigInt(g.phi) == Success(k.phi)
  {
    ParseToString(k.n);
    ParseToString(k.d);
    ParseToString(k.e);
    ParseToString(k.phi);
  }

  /** The first d, counting up from `from`, that extendedGcd finds coprime to
      phi, or the first d that reaches phi. */
  function FirstCoprime(phi: int, from: int): (r: int)
    ensures r >= from && (from <= phi ==> r <= phi)
    ensures r < phi ==> ExtendedGcd(r, phi).0 == 1
    ensures forall k | from <= k < r :: ExtendedGcd(k, phi).0 != 1
    decreases phi - from
  {
    if from >= phi || ExtendedGcd(from, phi).0 == 1 then from else FirstCoprime(phi, from + 1)
  }

  /** A value with the search's stopping condition and none of its
      candidates before it is what the search finds. */
  lemma {:induction false} FirstCoprimeIs(phi: int, from: int, d: int)
    requires from <= d && (d >= phi || ExtendedGcd(d, phi).0 == 1) && (d <= phi || d == from)
    requires forall k | from <= k < d :: ExtendedGcd(k, phi).0 != 1
    ensures FirstCoprime(phi, from) == d
    decreases d - from
  {
    if from < d {
      FirstCoprimeIs(phi, from + 1, d);
    }
  }

  /** The loop of generateRSAKeys that picks d: counting up from 2 while
      below phi, stopping at the first d whose gcd with phi is 1. */
  method SearchCoprime(phi: int) returns (d: int)
    ensures d == FirstCoprime(phi, 2)
  {
    d := 2;
    while d < phi
      invariant 2 <= d && (d <= phi || d == 2)
      invariant forall k | 2 <= k < d :: ExtendedGcd(k, phi).0 != 1
      decreases phi - d
    {
      var g := Gcd(d, phi);
      if g == 1 {
        break;
      }
      d := d + 1;
    }
    FirstCoprimeIs(phi, 2, d);
  }

  /** The key numbers generateRSAKeys derives from p and q: null unless both
      are prime; n = p * q, phi = (p - 1) * (q - 1), d the least value from 2
      up coprime to phi, e its inverse modulo phi, and null when that inverse
      is missing or 0. */
  function Keygen(p: int, q: int): (r: Option<KeyNumbers>)
    ensures r.Some? ==> Prime(p) && Prime(q)
  {
    if !Prime(p) || !Prime(q) then None
    else
      var phi := (p - 1) * (q - 1);
      var d := FirstCoprime(phi, 2);
      var e := ModInverse(d, phi);
      if e.Failure? || e.value.None? || e.value.value == 0 then None
      else Some(KeyNumbers(p * q, d, e.value.value, phi))
  }

  /** `generateRSAKeys(p, q)`. Any exception inside it (a string that is not
      an integer, a number that is not prime, no usable inverse) makes it
      return null. */
  method GenerateRsaKeys(p: Str, q: Str) returns (r: Option<GeneratedKeys>)
    ensures r == if ParseBigInt(p).Failure? || ParseBigInt(q).Failure? then None
                 else Render(Keygen(ParseBigInt(p).value, ParseBigInt(q).value))
  {
    var pParsed := ParseBigInt(p);
    if pParsed.Failure? {
      return None;
    }
    var qParsed := ParseBigInt(q);
    if qParsed.Failure? {
      return None;
    }
    var k := GenerateKeyNumbers(pParsed.value, qParsed.value);
    return Render(k);
  }

  /** The body of generateRSAKeys once p and q are bigints. */
  method GenerateKeyNumbers(pBig: int, qBig: int) returns (r: Option<KeyNumbers>)
    ensures r == Keygen(pBig, qBig)
  {
    var pPrime := IsPrime(pBig);
    var qPrime := pPrime;
    if pPrime {
      qPrime := IsPrime(qBig);
    }
    if !pPrime || !qPrime {
      return None;
    }
    // The source's separate check that both exceed 1 never fires once both are prime.
    assert pBig > 1 && qBig > 1;
    var n := pBig * qBig;
    var phi := (pBig - 1) * (qBig - 1);
    var d := SearchCoprime(phi);
    var e := ModInverse(d, phi);
    if e.Failure? || e.value.None? || e.value.value == 0 {
      return None;
    }
    return Some(KeyNumbers(n, d, e.value.value, phi));
  }

  /** What generateRSAKeys promises about its numbers: null exactly when p or
      q is not prime or phi is at most 2; otherwise n = p * q,
      phi = (p - 1) * (q - 1), d is the least number from 2 up that is coprime
      to phi and lies below phi, and e is the inverse of d modulo phi. */
  lemma KeygenCorrect(p: int, q: int)
    ensures Keygen(p, q).None? <==> !Prime(p) || !Prime(q) || (p - 1) * (q - 1) <= 2
    ensures Keygen(p, q).Some? ==>
              var k := Keygen(p, q).value;
              && k.n == p * q && k.phi == (p - 1) * (q - 1)
              && 2 <= k.d < k.phi && Coprime(k.d, k.phi)
              && (forall c | 2 <= c < k.d :: !Coprime(c, k.phi))
              && 0 < k.e < k.phi && (k.e * k.d) % k.phi == 1
  {
    if Prime(p) && Prime(q) {
      var phi := (p - 1) * (q - 1);
      MulMonotone(1, p - 1, q - 1);
      if phi >= 3 {
        var d := CoprimeBelow(phi);
        var e := InverseBelow(d, phi);
      } else {
        SmallPhiFails(phi);
      }
    }
  }

  /** For phi of at least 3 the search stops below phi, at a d coprime to
      phi with no coprime number between 2 and d. */
  lemma CoprimeBelow(phi: int) returns (d: int)
    requires phi >= 3
    ensures d == FirstCoprime(phi, 2)
    ensures 2 <= d < phi && ExtendedGcd(d, phi).0 == 1 && Coprime(d, phi)
    ensures forall c | 2 <= c < d :: !Coprime(c, phi)
  {
    d := FirstCoprime(phi, 2);
    var g := ExtendedGcd(phi - 1, phi).0;
    ConsecutiveCoprime(g, phi);
    assert d < phi;
    GcdOneIffCoprime(d, phi);
    forall c | 2 <= c < d ensures !Coprime(c, phi) {
      GcdOneIffCoprime(c, phi);
    }
  }

  /** The inverse modInverse finds for such a d is non-zero and below phi. */
  lemma InverseBelow(d: int, phi: int) returns (e: int)
    requires phi >= 3 && 2 <= d < phi && ExtendedGcd(d, phi).0 == 1
    ensures ModInverse(d, phi) == Success(Some(e))
    ensures 0 < e < phi && (e * d) % phi == 1
  {
    e := ModInverse(d, phi).value.value;
    ModOfMultiple(0, 1, phi);
    InverseNonZero(d, e, phi);
  }

  lemma InverseNonZero(d: int, e: int, phi: int)
    requires phi >= 3 && 0 <= e && (d * e) % phi == 1 % phi
    ensures e != 0 && (e * d) % phi == 1
  {
    assert 1 % phi == 1 by {
      ModOfMultiple(0, 1, phi);
    }
    assert d * 0 == 0 && e * d == d * e;
  }

  /** For phi of 1 or 2 there is no usable inverse: modInverse(2, 1) is 0
      and 2 shares the factor 2 with phi = 2. */
  lemma SmallPhiFails(phi: int)
    requires 1 <= phi <= 2
    ensures var e := ModInverse(FirstCoprime(phi, 2), phi);
            e.Failure? || e.value.None? || e.value.value == 0
  {
    assert FirstCoprime(phi, 2) == 2;
    if phi == 1 {
      var g := ExtendedGcd(2, 1).0;
      assert g == 1 by {
        DividesOne(g);
      }
    } else {
      assert ExtendedGcd(2, 2).0 == 2;
    }
  }

  /** The keys for the example primes 17 and 11: n = 187, phi = 160, d = 3
      and e = 107. */
  lemma KeygenExample()
    ensures Keygen(17, 11) == Some(KeyNumbers(187, 3, 107, 160))
  {
    ExamplePrimes();
    ExampleGcds();
    FirstCoprimeIs(160, 2, 3);
  }

  lemma ExamplePrimes()
    ensures Prime(17) && Prime(11)
  {
    TrialStart(17);
    TrialEnd(17, 5);
    TrialStart(11);
    TrialEnd(11, 5);
  }

  lemma ExampleGcds()
    ensures ExtendedGcd(2, 160).0 == 2
    ensures ExtendedGcd(3, 160) == (1, -53, 1)
  {
    assert ExtendedGcd(2, 0) == (2, 1, 0);
    assert ExtendedGcd(160, 2) == (2, 0, 1);
    assert ExtendedGcd(2, 160) == (2, 1, 0);
    assert ExtendedGcd(1, 0) == (1, 1, 0);
    assert ExtendedGcd(3, 1) == (1, 0, 1);
    assert ExtendedGcd(160, 3) == (1, 1, -53);
  }
}
