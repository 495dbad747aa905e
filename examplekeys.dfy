/** Why the example keys work: for n = 187 = 11 * 17, raising to any power
    k with k = 1 modulo 80 (the least common multiple of 10 and 16) gives
    every residue back. Both example exponent pairs, 23 * 7 = 161 and
    107 * 3 = 321, are of that kind. */
module ExampleKeys {
  import opened BigInt
  import opened Rsa

  /** For a non-negative base, the Euclidean residue of a power depends only
      on the residue of the base. */
  lemma ModPowReduce(c: int, k: nat, m: int)
    requires c >= 0 && m > 0
    ensures Pow(c, k) % m == Pow(c % m, k) % m
  {
    RemPow(c, k, m);
    RemProperties(c, m);
    PowNonNegative(c, k);
    PowNonNegative(c % m, k);
    RemProperties(Pow(c, k), m);
    RemProperties(Pow(c % m, k), m);
  }

  lemma {:induction false} PowOne(j: nat)
    ensures Pow(1, j) == 1
  {
    if j > 0 {
      PowOne(j - 1);
    }
  }

  /** r^10 = 1 modulo 11 for every non-zero residue r. */
  lemma Fermat11(r: int)
    requires 1 <= r < 11
    ensures Pow(r, 10) % 11 == 1
  {
    if r <= 5 {
      Fermat11Low(r);
    } else {
      Fermat11High(r);
    }
  }

  lemma Fermat11Low(r: int)
    requires 1 <= r <= 5
    ensures Pow(r, 10) % 11 == 1
  {
    if r == 1 {
      assert Pow(1, 10) == 1;
    } else if r == 2 {
      assert Pow(2, 10) == 1024;
    } else if r == 3 {
      assert Pow(3, 10) == 59049;
    } else if r == 4 {
      assert Pow(4, 10) == 1048576;
    } else {
      assert r == 5;
      assert Pow(5, 10) == 9765625;
    }
  }

  lemma Fermat11High(r: int)
    requires 6 <= r < 11
    ensures Pow(r, 10) % 11 == 1
  {
    if r == 6 {
      assert Pow(6, 10) == 60466176;
    } else if r == 7 {
      assert Pow(7, 10) == 282475249;
    } else if r == 8 {
      assert Pow(8, 10) == 1073741824;
    } else if r == 9 {
      assert Pow(9, 10) == 3486784401;
    } else {
      assert r == 10;
      assert Pow(10, 10) == 10000000000;
    }
  }

  /** r^8 is 1 or -1 modulo 17 for every non-zero residue r. */
  lemma EighthPower17(r: int)
    requires 1 <= r < 17
    ensures Pow(r, 8) % 17 == 1 || Pow(r, 8) % 17 == 16
  {
    if r <= 4 {
      EighthPower17From1(r);
    } else if r <= 8 {
      EighthPower17From5(r);
    } else if r <= 12 {
      EighthPower17From9(r);
    } else {
      EighthPower17From13(r);
    }
  }

  lemma EighthPower17From1(r: int)
    requires 1 <= r <= 4
    ensures Pow(r, 8) % 17 == 1 || Pow(r, 8) % 17 == 16
  {
    if r == 1 {
      assert Pow(1, 8) == 1;
    } else if r == 2 {
      assert Pow(2, 8) == 256;
    } else if r == 3 {
      assert Pow(3, 8) == 6561;
    } else {
      assert r == 4;
      assert Pow(4, 8) == 65536;
    }
  }

  lemma EighthPower17From5(r: int)
    requires 5 <= r <= 8
    ensures Pow(r, 8) % 17 == 1 || Pow(r, 8) % 17 == 16
  {
    if r == 5 {
      assert Pow(5, 8) == 390625;
    } else if r == 6 {
      assert Pow(6, 8) == 1679616;
    } else if r == 7 {
      assert Pow(7, 8) == 5764801;
    } else {
      assert r == 8;
      assert Pow(8, 8) == 16777216;
    }
  }

  lemma EighthPower17From9(r: int)
    requires 9 <= r <= 12
    ensures Pow(r, 8) % 17 == 1 || Pow(r, 8) % 17 == 16
  {
    if r == 9 {
      assert Pow(9, 8) == 43046721;
    } else if r == 10 {
      assert Pow(10, 8) == 100000000;
    } else if r == 11 {
      assert Pow(11, 8) == 214358881;
    } else {
      assert r == 12;
      assert Pow(12, 8) == 429981696;
    }
  }

  lemma EighthPower17From13(r: int)
    requires 13 <= r <= 16
    ensures Pow(r, 8) % 17 == 1 || Pow(r, 8) % 17 == 16
  {
    if r == 13 {
      assert Pow(13, 8) == 815730721;
    } else if r == 14 {
      assert Pow(14, 8) == 1475789056;
    } else if r == 15 {
      assert Pow(15, 8) == 2562890625;
    } else {
      assert r == 16;
      assert Pow(16, 8) == 4294967296;
    }
  }

  /** r^16 = 1 modulo 17 for every non-zero residue r. */
  lemma Fermat17(r: int)
    requires 1 <= r < 17
    ensures Pow(r, 16) % 17 == 1
  {
    EighthPower17(r);
    SquareOfSquareRootOfOne(r, 8, 17);
  }

  /** If r^k is 1 or -1 modulo m, then r^(2k) is 1 modulo m. */
  lemma SquareOfSquareRootOfOne(r: int, k: nat, m: int)
    requires m > 1 && (Pow(r, k) % m == 1 || Pow(r, k) % m == m - 1)
    ensures Pow(r, k + k) % m == 1
  {
    var x := Pow(r, k);
    PowAdd(r, k, k);
    ModMul(x, x, m);
    if x % m == 1 {
      ModOfMultiple(0, 1, m);
    } else {
      assert (x % m) * (x % m) == (m - 2) * m + 1;
      ModOfMultiple(m - 2, 1, m);
    }
  }

  /** Every non-zero residue modulo p has order dividing t. */
  predicate OrderDivides(p: int, t: nat)
    requires p > 0
  {
    forall r | 1 <= r < p :: Pow(r, t) % p == 1
  }

  /** If every non-zero residue modulo p has order dividing t, then
      c^k = c modulo p whenever k = 1 modulo t. */
  lemma PowerFixesResidue(c: int, p: int, t: nat, k: nat)
    requires c >= 0 && p > 1 && t > 0 && k >= 1 && (k - 1) % t == 0
    requires OrderDivides(p, t)
    ensures Pow(c, k) % p == c % p
  {
    var j := ExactQuotient(k - 1, t);
    var ct := Pow(c, t);
    var x := Pow(ct, j);
    PowDecompose(c, t, j);
    if c % p != 0 {
      UnitPower(c, p, t);
      PowNonNegative(c, t);
      PowOfUnitResidue(ct, j, p);
    }
    TimesUnit(c, x, p);
  }

  /** Multiplying by a number that is 1 modulo p keeps the residue, and so
      does anything multiplied onto a multiple of p. */
  lemma TimesUnit(c: int, x: int, p: int)
    requires p > 1 && (x % p == 1 || c % p == 0)
    ensures (c * x) % p == c % p
  {
    var rc, rx := c % p, x % p;
    ModMul(c, x, p);
    ProductOfResidues(rc, rx, p);
  }

  lemma ProductOfResidues(rc: int, rx: int, p: int)
    requires p > 1 && 0 <= rc < p && (rx == 1 || rc == 0)
    ensures (rc * rx) % p == rc
  {
    if rc == 0 {
      assert rc * rx == 0 * p + 0;
    } else {
      assert rc * rx == 0 * p + rc;
    }
    ModOfMultiple(0, rc * rx, p);
  }

  /** a = t * j for a multiple a of t. */
  lemma ExactQuotient(a: nat, t: nat) returns (j: nat)
    requires t > 0 && a % t == 0
    ensures a == t * j
  {
    j := a / t;
  }

  /** c^t = 1 modulo p when c is not a multiple of p. */
  lemma UnitPower(c: int, p: int, t: nat)
    requires c >= 0 && p > 1 && c % p != 0
    requires OrderDivides(p, t)
    ensures Pow(c, t) % p == 1
  {
    ModPowReduce(c, t, p);
    var r := c % p;
    assert Pow(r, t) % p == 1;
  }

  lemma PowDecompose(c: int, t: nat, j: nat)
    ensures Pow(c, 1 + t * j) == c * Pow(Pow(c, t), j)
  {
    PowMul(c, t, j);
    PowAdd(c, 1, t * j);
    assert Pow(c, 1) == c;
  }

  /** A power of a number that is 1 modulo p is 1 modulo p. */
  lemma PowOfUnitResidue(x: int, j: nat, p: int)
    requires x >= 0 && p > 1 && x % p == 1
    ensures Pow(x, j) % p == 1
  {
    ModPowReduce(x, j, p);
    PowOne(j);
    ModOfMultiple(0, 1, p);
  }

  /** Chinese remaindering for 187 = 11 * 17. */
  lemma Crt187(x: int, c: int)
    requires x % 11 == c % 11 && x % 17 == c % 17
    ensures x % 187 == c % 187
  {
    var t := DiffMultiple(x, c, 11);
    var u := DiffMultiple(x, c, 17);
    // 11 * t == 17 * u and 14 * 11 == 9 * 17 + 1, so 17 divides t.
    var s := 14 * u - 9 * t;
    assert t == 17 * s;
    assert x == s * 187 + c;
    ModAddMultiple(s, c, 187);
  }

  /** Numbers with the same residue modulo m differ by a multiple of m. */
  lemma DiffMultiple(x: int, c: int, m: int) returns (k: int)
    requires m > 0 && x % m == c % m
    ensures x - c == m * k
  {
    k := x / m - c / m;
    assert x == m * (x / m) + x % m;
    assert c == m * (c / m) + c % m;
    assert m * k == m * (x / m) - m * (c / m);
  }

  /** c^k = c modulo 187 for every residue c when k = 1 modulo 80. */
  lemma PowerFixes187(c: int, k: nat)
    requires 0 <= c < 187 && k >= 1 && (k - 1) % 80 == 0
    ensures Pow(c, k) % 187 == c
  {
    forall r | 1 <= r < 11 ensures Pow(r, 10) % 11 == 1 {
      Fermat11(r);
    }
    forall r | 1 <= r < 17 ensures Pow(r, 16) % 17 == 1 {
      Fermat17(r);
    }
    assert (k - 1) % 10 == 0 && (k - 1) % 16 == 0 by {
      assert k - 1 == ((k - 1) / 80) * 80;
      assert k - 1 == (8 * ((k - 1) / 80)) * 10;
      assert k - 1 == (5 * ((k - 1) / 80)) * 16;
      ModOfMultiple(8 * ((k - 1) / 80), 0, 10);
      ModOfMultiple(5 * ((k - 1) / 80), 0, 16);
    }
    PowerFixesResidue(c, 11, 10, k);
    PowerFixesResidue(c, 17, 16, k);
    Crt187(Pow(c, k), c);
    ModOfMultiple(0, c, 187);
  }

  /** Encrypting a character code below 187 with exponent e and decrypting
      with d gives it back when e * d = 1 modulo 80. */
  lemma ExampleRoundTrip(c: int, e: int, d: int)
    requires 0 <= c < 187 && e >= 1 && d >= 1 && (e * d - 1) % 80 == 0
    ensures ModPowValue(ModPowValue(c, e, 187), d, 187) == c
  {
    var x := ModPowValue(c, e, 187);
    ModPowIsResidue(c, e, 187);
    ModPowIsResidue(x, d, 187);
    PowNonNegative(c, e);
    ModPowReduce(Pow(c, e), d, 187);
    PowMul(c, e, d);
    PowerFixes187(c, e * d);
  }
}
