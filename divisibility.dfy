/** Divisors, primes, coprimality and the extended Euclidean algorithm
    ("EXTENDED-EUCLID" of CLRS section 31.2), which java.math.BigInteger.modInverse
    and the primality facts of the RSA proof both rely on. */
module Divisibility {
  import opened Powers

  /** c is a positive divisor of x. */
  predicate Divides(c: int, x: int)
  {
    c > 0 && x % c == 0
  }

  ghost predicate IsPrime(p: int)
  {
    p > 1 && forall c :: 1 < c < p ==> !Divides(c, p)
  }

  /** a and b have no common divisor other than 1. */
  ghost predicate Coprime(a: int, b: int)
  {
    forall c :: c > 1 ==> !(Divides(c, a) && Divides(c, b))
  }

  /** A common divisor of u and v divides every integer combination of them. */
  lemma DividesLinear(c: int, u: int, v: int, s: int, t: int)
    requires Divides(c, u) && Divides(c, v)
    ensures Divides(c, u * s + v * t)
  {
    var ku, kv := u / c, v / c;
    assert u == ku * c && v == kv * c;
    assert u * s + v * t == (ku * s + kv * t) * c + 0;
    ModMultiple(ku * s + kv * t, 0, c);
  }

  lemma DividesMul(c: int, u: int, s: int)
    requires Divides(c, u)
    ensures Divides(c, u * s)
  {
    DividesLinear(c, u, 0, s, 0);
  }

  /** A positive divisor of a positive number is no larger than it. */
  lemma DivisorBound(c: int, x: int)
    requires Divides(c, x) && x > 0
    ensures c <= x
  {
    var k := x / c;
    assert x == k * c;
    if k <= 0 {
      MulNonneg(-k, c);
    } else {
      MulNonneg(k - 1, c);
      assert x == (k - 1) * c + c;
    }
  }

  /** Divisibility by c passes between a and a % m whenever c divides m. */
  lemma DividesMod(c: int, a: int, m: int)
    requires m > 0 && Divides(c, m)
    ensures Divides(c, a) <==> Divides(c, a % m)
  {
    assert a == m * (a / m) + (a % m) * 1;
    assert a % m == a * 1 + m * (-(a / m));
    if Divides(c, a % m) {
      DividesLinear(c, m, a % m, a / m, 1);
    }
    if Divides(c, a) {
      DividesLinear(c, a, m, 1, -(a / m));
    }
  }

  /** The extended Euclidean algorithm: (g, x, y) with g the greatest common
      divisor of a and b and a * x + b * y == g. */
  function ExtendedEuclid(a: nat, b: nat): (r: (nat, int, int))
    ensures r.0 == 0 <==> a == 0 && b == 0
    ensures r.0 > 0 ==> Divides(r.0, a) && Divides(r.0, b)
    ensures a * r.1 + b * r.2 == r.0
    decreases b
  {
    if b == 0 then (a, 1, 0)
    else
      var (g, x, y) := ExtendedEuclid(b, a % b);
      EuclidStep(a, b, g, x, y);
      (g, y, x - (a / b) * y)
  }

  lemma EuclidStep(a: nat, b: nat, g: nat, x: int, y: int)
    requires b > 0
    requires g > 0 && Divides(g, b) && Divides(g, a % b)
    requires b * x + (a % b) * y == g
    ensures Divides(g, a)
    ensures a * y + b * (x - (a / b) * y) == g
  {
    DividesMod(g, a, b);
    assert a == (a / b) * b + a % b;
    assert a * y == (a / b) * b * y + (a % b) * y;
  }

  /** Every common divisor of a and b divides the g that ExtendedEuclid returns,
      so g is their greatest common divisor. */
  lemma CommonDivisorDividesGcd(a: nat, b: nat, c: int)
    requires Divides(c, a) && Divides(c, b)
    ensures Divides(c, ExtendedEuclid(a, b).0)
  {
    var (g, x, y) := ExtendedEuclid(a, b);
    DividesLinear(c, a, b, x, y);
  }

  /** The only positive divisors of a prime p are 1 and p. */
  lemma PrimeDivisor(p: int, c: int)
    requires IsPrime(p) && Divides(c, p)
    ensures c == 1 || c == p
  {
    DivisorBound(c, p);
  }

  /** Euclid's lemma: a prime that divides a product divides one of its factors. */
  lemma EuclidLemma(p: int, a: int, b: int)
    requires IsPrime(p) && Divides(p, a * b)
    ensures Divides(p, a) || Divides(p, b)
  {
    if !Divides(p, a) {
      var r := a % p;
      var (g, x, y) := ExtendedEuclid(r, p);
      assert r > 0;
      DivisorBound(g, r);
      PrimeDivisor(p, g);
      assert g == 1;
      ModOfMod(a, p);
      ModMulCongruent(r, a, b, b, p);
      assert Divides(p, r * b);
      assert b == (r * b) * x + p * (b * y) by {
        assert r * x + p * y == 1;
        assert b == b * (r * x + p * y);
      }
      DividesLinear(p, r * b, p, x, b * y);
    }
  }

  /** Distinct primes do not divide one another. */
  lemma DistinctPrimes(p: int, q: int)
    requires IsPrime(p) && IsPrime(q) && p != q
    ensures !Divides(q, p)
  {
    if Divides(q, p) {
      PrimeDivisor(p, q);
    }
  }

  /** A prime divides a product exactly when it divides one of the factors. */
  lemma PrimeDividesProduct(p: int, a: int, b: int)
    requires IsPrime(p)
    ensures Divides(p, a * b) <==> Divides(p, a) || Divides(p, b)
  {
    if Divides(p, a * b) {
      EuclidLemma(p, a, b);
    }
    if Divides(p, a) {
      DividesMul(p, a, b);
    }
    if Divides(p, b) {
      DividesMul(p, b, a);
      assert b * a == a * b;
    }
  }

  /** A prime is coprime to x exactly when it does not divide x. */
  lemma PrimeCoprime(p: int, x: int)
    requires IsPrime(p)
    ensures Coprime(p, x) <==> !Divides(p, x)
  {
    if Divides(p, x) {
      assert Divides(p, p);
    } else {
      forall c | c > 1 && Divides(c, p) && Divides(c, x)
        ensures false
      {
        PrimeDivisor(p, c);
      }
    }
  }

  /** Trial division: no c' with c <= c' <= s divides p. */
  function NoDivisorUpTo(p: int, c: int, s: int): bool
    decreases s - c
  {
    c > s || (c > 0 && p % c != 0 && NoDivisorUpTo(p, c + 1, s))
  }

  lemma {:induction false} NoDivisorUpToSound(p: int, c: int, s: int, k: int)
    requires c >= 1 && NoDivisorUpTo(p, c, s) && c <= k <= s
    ensures !Divides(k, p)
    decreases s - c
  {
    if c < k {
      NoDivisorUpToSound(p, c + 1, s, k);
    }
  }

  /** A number greater than 1 with no divisor in [2, s], where (s + 1)^2 > p, is prime:
      of a divisor c and its cofactor p / c, one is at most s. */
  lemma PrimeByTrialDivision(p: int, s: int)
    requires p > 1 && s >= 1 && p < (s + 1) * (s + 1) && NoDivisorUpTo(p, 2, s)
    ensures IsPrime(p)
  {
    forall c | 1 < c < p
      ensures !Divides(c, p)
    {
      if Divides(c, p) {
        var k := p / c;
        assert p == c * k;
        SmallFactor(p, s, c, k);
        if c <= s {
          NoDivisorUpToSound(p, 2, s, c);
        } else {
          ModMultiple(c, 0, k);
          NoDivisorUpToSound(p, 2, s, k);
        }
      }
    }
  }

  /** Of two factors c and k of p with 1 < c < p and (s + 1)^2 > p, one lies in [2, s]. */
  lemma SmallFactor(p: int, s: int, c: int, k: int)
    requires 1 < c < p && s >= 1 && p < (s + 1) * (s + 1) && p == c * k
    ensures 2 <= k && (c <= s || k <= s)
  {
    if k <= 1 {
      MulNonneg(c, 1 - k);
    } else if c > s && k > s {
      MulNonneg(c - s - 1, k);
      MulNonneg(s + 1, k - s - 1);
    }
  }
}
