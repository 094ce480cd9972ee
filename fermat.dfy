/** Fermat's little theorem, proved through the binomial theorem, and the
    Chinese-remainder step for two distinct primes: the number theory behind
    the claim that decryption undoes encryption (CLRS section 31.7). */
module Fermat {
  import opened Powers
  import opened Divisibility

  /** The binomial coefficient "n choose k", by Pascal's rule. */
  function Binom(n: nat, k: nat): nat
    decreases n
  {
    if k == 0 then 1 else if n == 0 then 0 else Binom(n - 1, k - 1) + Binom(n - 1, k)
  }

  lemma {:induction false} BinomAbove(n: nat, k: nat)
    requires k > n
    ensures Binom(n, k) == 0
  {
    if n > 0 { BinomAbove(n - 1, k - 1); BinomAbove(n - 1, k); }
  }

  lemma {:induction false} BinomAll(n: nat)
    ensures Binom(n, n) == 1
  {
    if n > 0 { BinomAll(n - 1); BinomAbove(n - 1, n); }
  }

  /** The absorption identity k * C(n, k) == n * C(n - 1, k - 1). */
  lemma {:induction false} Absorption(n: nat, k: nat)
    requires n >= 1 && k >= 1
    ensures k * Binom(n, k) == n * Binom(n - 1, k - 1)
    decreases n
  {
    if n == 1 {
      if k > 1 { BinomAbove(0, k - 1); BinomAbove(0, k); }
    } else if k == 1 {
      Absorption(n - 1, 1);
    } else {
      Absorption(n - 1, k);
      Absorption(n - 1, k - 1);
      var a, b, c, y := Binom(n - 2, k - 1), Binom(n - 2, k - 2), Binom(n - 1, k - 1), Binom(n - 1, k);
      assert c == b + a;
      assert Binom(n, k) == c + y;
      AbsorptionStep(n, k, a, b, c, y);
    }
  }

  /** The arithmetic of one step of Absorption. */
  lemma AbsorptionStep(n: int, k: int, a: int, b: int, c: int, y: int)
    requires c == b + a && k * y == (n - 1) * a && (k - 1) * c == (n - 1) * b
    ensures k * (c + y) == n * c
  {
    assert k * (c + y) == k * c + k * y;
    assert n * c == c + (n - 1) * c;
    assert (n - 1) * c == (n - 1) * a + (n - 1) * b;
    assert (k - 1) * c == k * c - c;
  }

  /** A prime p divides C(p, k) for 0 < k < p. */
  lemma PrimeDividesBinom(p: nat, k: nat)
    requires IsPrime(p) && 0 < k < p
    ensures Divides(p, Binom(p, k))
  {
    var a, b := Binom(p - 1, k - 1), Binom(p, k);
    Absorption(p, k);
    assert k * b == a * p + 0;
    ModMultiple(a, 0, p);
    EuclidLemma(p, k, b);
    ModUnique(k, p, 0, k);
  }

  /** The first j terms of the binomial expansion of (a + 1)^n. */
  function BinomSum(n: nat, a: int, j: nat): int
    decreases j
  {
    if j == 0 then 0 else BinomSum(n, a, j - 1) + Binom(n, j - 1) * Pow(a, j - 1)
  }

  lemma {:induction false} BinomSumStep(n: nat, a: int, j: nat)
    ensures BinomSum(n + 1, a, j + 1) == a * BinomSum(n, a, j) + BinomSum(n, a, j + 1)
    decreases j
  {
    if j > 0 {
      BinomSumStep(n, a, j - 1);
      var w, v := Pow(a, j - 1), Pow(a, j);
      assert v == a * w;
      var s0, s1, s2 := BinomSum(n, a, j - 1), BinomSum(n, a, j), BinomSum(n, a, j + 1);
      var c0, c1 := Binom(n, j - 1), Binom(n, j);
      assert s1 == s0 + c0 * w;
      assert s2 == s1 + c1 * v;
      assert BinomSum(n + 1, a, j) == a * s0 + s1;
      assert Binom(n + 1, j) == c0 + c1;
      assert BinomSum(n + 1, a, j + 1) == (a * s0 + s1) + (c0 + c1) * v;
      Distribute(a, s0, s1, c0, c1, w);
    }
  }

  lemma Distribute(a: int, s0: int, s1: int, c0: int, c1: int, w: int)
    ensures (a * s0 + s1) + (c0 + c1) * (a * w) == a * (s0 + c0 * w) + (s1 + c1 * (a * w))
  {
  }

  /** The binomial theorem for (a + 1)^n. */
  lemma {:induction false} BinomialTheorem(n: nat, a: int)
    ensures Pow(a + 1, n) == BinomSum(n, a, n + 1)
  {
    if n > 0 {
      BinomialTheorem(n - 1, a);
      BinomSumStep(n - 1, a, n);
      BinomAbove(n - 1, n);
      var s := BinomSum(n - 1, a, n);
      assert BinomSum(n - 1, a, n + 1) == s;
      assert BinomSum(n, a, n + 1) == a * s + s;
      assert Pow(a + 1, n) == (a + 1) * Pow(a + 1, n - 1);
      assert (a + 1) * s == a * s + s;
    }
  }

  /** All middle terms of the expansion of (a + 1)^p are multiples of p. */
  lemma {:induction false} MiddleTermsVanish(p: nat, a: int, j: nat)
    requires IsPrime(p) && 1 <= j <= p
    ensures (BinomSum(p, a, j) - 1) % p == 0
  {
    if j > 1 {
      MiddleTermsVanish(p, a, j - 1);
      PrimeDividesBinom(p, j - 1);
      var t := Binom(p, j - 1) * Pow(a, j - 1);
      DividesMul(p, Binom(p, j - 1), Pow(a, j - 1));
      assert BinomSum(p, a, j) - 1 == (BinomSum(p, a, j - 1) - 1) + t;
      DividesLinear(p, BinomSum(p, a, j - 1) - 1, t, 1, 1);
    }
  }

  /** Fermat's little theorem for naturals: a^p is congruent to a modulo p. */
  lemma {:induction false} FermatNat(p: nat, a: nat)
    requires IsPrime(p)
    ensures Pow(a, p) % p == a % p
  {
    if a == 0 {
      assert Pow(0, p) == 0 * Pow(0, p - 1);
    } else {
      var b := a - 1;
      FermatNat(p, b);
      BinomialTheorem(p, b);
      BinomAll(p);
      MiddleTermsVanish(p, b, p);
      var s := BinomSum(p, b, p);
      assert Pow(a, p) == s + Pow(b, p);
      ModSub(s, 1, p);
      ModAdd(s, Pow(b, p), p);
      ModAdd(1, b, p);
    }
  }

  /** Fermat's little theorem for every integer. */
  lemma Fermat(p: int, a: int)
    requires IsPrime(p)
    ensures Pow(a, p) % p == a % p
  {
    PowMod(a, p, p);
    FermatNat(p, a % p);
    ModOfMod(a, p);
  }

  /** For a not divisible by p, a^(p-1) is congruent to 1 modulo p. */
  lemma FermatUnit(p: int, a: int)
    requires IsPrime(p) && !Divides(p, a)
    ensures Pow(a, p - 1) % p == 1
  {
    var u := Pow(a, p - 1);
    Fermat(p, a);
    assert Pow(a, p) == a * u;
    ModSub(a * u, a, p);
    assert a * u - a == a * (u - 1);
    EuclidLemma(p, a, u - 1);
    ModSub(u, 1, p);
    ModUnique(1, p, 0, 1);
  }

  /** The per-prime half of the RSA argument: m^(1 + t*(p-1)) is congruent to m
      modulo p, whether or not p divides m. */
  lemma PowCongruentModPrime(p: int, m: int, t: nat)
    requires IsPrime(p)
    ensures Pow(m, 1 + t * (p - 1)) % p == m % p
  {
    var k: nat := (p - 1) * t;
    assert t * (p - 1) == k;
    assert Pow(m, 1 + k) == m * Pow(m, k);
    if Divides(p, m) {
      DividesMul(p, m, Pow(m, k));
    } else {
      UnitPowCongruent(p, m, t, k);
      ModMulCongruent(m, m, Pow(m, k), 1, p);
    }
  }

  lemma UnitPowCongruent(p: int, m: int, t: nat, k: nat)
    requires IsPrime(p) && !Divides(p, m) && k == (p - 1) * t
    ensures Pow(m, k) % p == 1 % p
  {
    var u := Pow(m, p - 1);
    PowMul(m, p - 1, t);
    assert Pow(m, k) == Pow(u, t);
    FermatUnit(p, m);
    PowMod(u, t, p);
    PowOne(t);
  }

  /** The Chinese-remainder step: congruence modulo two distinct primes gives
      congruence modulo their product. */
  lemma CongruentModProduct(p: int, q: int, x: int, y: int)
    requires IsPrime(p) && IsPrime(q) && p != q
    requires x % p == y % p && x % q == y % q
    ensures x % (p * q) == y % (p * q)
  {
    ModSub(x, y, p);
    ModSub(x, y, q);
    var t := (x - y) / p;
    assert x - y == p * t;
    DistinctPrimes(p, q);
    EuclidLemma(q, p, t);
    var s := t / q;
    assert t == q * s;
    assert x - y == s * (p * q) + 0;
    MulNonneg(p - 1, q - 1);
    ModMultiple(s, 0, p * q);
    ModSub(x, y, p * q);
  }
}
