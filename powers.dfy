/** Integer powers and the laws of modular arithmetic the RSA proofs rest on.
    Dafny's `%` and `/` are Euclidean; every modulus here is positive, where that
    agrees with java.math.BigInteger.mod. */
module Powers {

  /** b raised to the natural power e. */
  function Pow(b: int, e: nat): int
    decreases e
  {
    if e == 0 then 1 else b * Pow(b, e - 1)
  }

  lemma {:induction false} PowOne(k: nat)
    ensures Pow(1, k) == 1
  {
    if k > 0 { PowOne(k - 1); }
  }

  lemma {:induction false} PowAdd(b: int, x: nat, y: nat)
    ensures Pow(b, x + y) == Pow(b, x) * Pow(b, y)
    decreases y
  {
    if y > 0 {
      PowAdd(b, x, y - 1);
      assert Pow(b, x + y) == b * (Pow(b, x) * Pow(b, y - 1));
    }
  }

  lemma {:induction false} PowMul(b: int, x: nat, y: nat)
    ensures Pow(b, x * y) == Pow(Pow(b, x), y)
    decreases y
  {
    if y > 0 {
      PowMul(b, x, y - 1);
      assert x * y == x + x * (y - 1);
      PowAdd(b, x, x * (y - 1));
    }
  }

  lemma {:induction false} PowOfProduct(a: int, b: int, k: nat)
    ensures Pow(a * b, k) == Pow(a, k) * Pow(b, k)
  {
    if k > 0 {
      PowOfProduct(a, b, k - 1);
      var u, v := Pow(a, k - 1), Pow(b, k - 1);
      assert Pow(a * b, k) == (a * b) * (u * v);
      assert Pow(a, k) == a * u && Pow(b, k) == b * v;
      Rearrange(a, b, u, v);
    }
  }

  lemma Rearrange(a: int, b: int, u: int, v: int)
    ensures (a * b) * (u * v) == (a * u) * (b * v)
  {
  }

  lemma MulNonneg(a: int, b: int)
    requires a >= 0 && b >= 0
    ensures a * b >= 0
  {
  }

  /** Quotient and remainder are determined by x = t * m + r with 0 <= r < m. */
  lemma ModUnique(x: int, m: int, t: int, r: int)
    requires m > 0 && 0 <= r < m && x == t * m + r
    ensures x % m == r && x / m == t
  {
    var k := t - x / m;
    assert k * m == x % m - r;
    if k > 0 {
      MulNonneg(k - 1, m);
    } else if k < 0 {
      MulNonneg(-k - 1, m);
    }
  }

  lemma ModMultiple(t: int, r: int, m: int)
    requires m > 0
    ensures (t * m + r) % m == r % m
  {
    assert t * m + r == (t + r / m) * m + r % m;
    ModUnique(t * m + r, m, t + r / m, r % m);
  }

  lemma ModOfMod(a: int, m: int)
    requires m > 0
    ensures (a % m) % m == a % m
  {
    ModUnique(a % m, m, 0, a % m);
  }

  lemma ModAdd(a: int, b: int, m: int)
    requires m > 0
    ensures (a + b) % m == (a % m + b % m) % m
  {
    assert a + b == (a / m + b / m) * m + (a % m + b % m);
    ModMultiple(a / m + b / m, a % m + b % m, m);
  }

  lemma ModMul(a: int, b: int, m: int)
    requires m > 0
    ensures (a * b) % m == ((a % m) * (b % m)) % m
  {
    var qa, ra, qb, rb := a / m, a % m, b / m, b % m;
    assert a == qa * m + ra && b == qb * m + rb;
    assert a * b == (qa * qb * m + qa * rb + ra * qb) * m + ra * rb;
    ModMultiple(qa * qb * m + qa * rb + ra * qb, ra * rb, m);
  }

  /** Two numbers are congruent exactly when their difference is a multiple of m. */
  lemma ModSub(a: int, b: int, m: int)
    requires m > 0
    ensures (a - b) % m == 0 <==> a % m == b % m
  {
    if (a - b) % m == 0 {
      assert a == ((a - b) / m) * m + b;
      ModMultiple((a - b) / m, b, m);
    }
    if a % m == b % m {
      assert a - b == (a / m - b / m) * m + 0;
      ModMultiple(a / m - b / m, 0, m);
    }
  }

  /** A product is congruent to the product of congruent factors. */
  lemma ModMulCongruent(a: int, a': int, b: int, b': int, m: int)
    requires m > 0 && a % m == a' % m && b % m == b' % m
    ensures (a * b) % m == (a' * b') % m
  {
    ModMul(a, b, m);
    ModMul(a', b', m);
  }

  lemma {:induction false} PowMod(b: int, e: nat, m: int)
    requires m > 0
    ensures Pow(b, e) % m == Pow(b % m, e) % m
  {
    if e > 0 {
      PowMod(b, e - 1, m);
      ModOfMod(b, m);
      ModMulCongruent(b, b % m, Pow(b, e - 1), Pow(b % m, e - 1), m);
    }
  }
}
