/** The arithmetic of java.math.BigInteger that RSA.java calls: modPow and
    modInverse, with the exceptions they throw modelled as Failure values. */
module BigInteger {
  import opened Powers
  import opened Divisibility

  /** The exceptions the modelled BigInteger operations throw. */
  datatype Error =
    | ZeroLengthBytes      // NumberFormatException: "Zero length BigInteger"
    | ModulusNotPositive   // ArithmeticException: "BigInteger: modulus not positive"
    | NotInvertible        // ArithmeticException: "BigInteger not invertible."

  datatype Result<T> = Success(value: T) | Failure(error: Error) {
    predicate IsFailure() { Failure? }

    function PropagateFailure<U>(): Result<U>
      requires Failure?
    {
      Failure(error)
    }

    function Extract(): T
      requires Success?
    {
      value
    }
  }

  /** Square-and-multiply modular exponentiation for a non-negative exponent:
      the value modPow returns, always in [0, m). */
  function ModPow(b: int, e: nat, m: int): (r: int)
    requires m > 0
    ensures 0 <= r < m
    decreases e
  {
    if e == 0 then 1 % m
    else
      var h := ModPow(b, e / 2, m);
      var s := (h * h) % m;
      if e % 2 == 0 then s else (s * (b % m)) % m
  }

  /** Square-and-multiply computes b^e mod m. */
  lemma {:induction false} ModPowIsPow(b: int, e: nat, m: int)
    requires m > 0
    ensures ModPow(b, e, m) == Pow(b, e) % m
    decreases e
  {
    if e > 0 {
      ModPowIsPow(b, e / 2, m);
      SquareAndMultiplyStep(b, e, m, ModPow(b, e / 2, m));
    }
  }

  lemma SquareAndMultiplyStep(b: int, e: nat, m: int, h: int)
    requires m > 0 && e > 0 && h == Pow(b, e / 2) % m
    ensures e % 2 == 0 ==> (h * h) % m == Pow(b, e) % m
    ensures e % 2 == 1 ==> (((h * h) % m) * (b % m)) % m == Pow(b, e) % m
  {
    var half := Pow(b, e / 2);
    PowAdd(b, e / 2, e / 2);
    ModOfMod(half, m);
    ModMulCongruent(h, half, h, half, m);
    if e % 2 == 1 {
      PowAdd(b, e / 2 + e / 2, 1);
      assert Pow(b, 1) == b;
      ModOfMod(half * half, m);
      ModOfMod(b, m);
      ModMulCongruent((h * h) % m, half * half, b % m, b, m);
    }
  }

  /** Having any inverse modulo m makes a coprime to m. */
  lemma InverseImpliesCoprime(a: int, x: int, m: int)
    requires m > 0 && (a * x) % m == 1 % m
    ensures Coprime(a, m)
  {
    ModSub(a * x, 1, m);
    var k := (a * x - 1) / m;
    assert 1 == a * x + m * (-k);
    forall c | c > 1 && Divides(c, a) && Divides(c, m)
      ensures false
    {
      DividesLinear(c, a, m, x, -k);
      DivisorBound(c, 1);
    }
  }

  /** The modular inverse that modInverse returns: the d in [0, m) with
      a * d congruent to 1 modulo m, computed by the extended Euclidean algorithm. */
  function ModInverse(a: int, m: int): (r: Result<int>)
    ensures r.Success? <==> m > 0 && Coprime(a, m)
    ensures r.Failure? ==> r.error == (if m <= 0 then ModulusNotPositive else NotInvertible)
    ensures r.Success? ==> 0 <= r.value < m && (a * r.value) % m == 1 % m
  {
    if m <= 0 then Failure(ModulusNotPositive)
    else
      var (g, x, y) := ExtendedEuclid(a % m, m);
      if g == 1 then
        BezoutInverse(a, m, x, y);
        Success(x % m)
      else
        GcdNotOne(a, m);
        Failure(NotInvertible)
  }

  lemma BezoutInverse(a: int, m: int, x: int, y: int)
    requires m > 0 && (a % m) * x + m * y == 1
    ensures (a * (x % m)) % m == 1 % m
    ensures Coprime(a, m)
  {
    ModOfMod(a, m);
    ModOfMod(x, m);
    ModMulCongruent(a, a % m, x % m, x, m);
    assert (a % m) * x == (-y) * m + 1;
    ModMultiple(-y, 1, m);
    InverseImpliesCoprime(a, x % m, m);
  }

  lemma GcdNotOne(a: int, m: int)
    requires m > 0 && ExtendedEuclid(a % m, m).0 != 1
    ensures !Coprime(a, m)
  {
    var g := ExtendedEuclid(a % m, m).0;
    DividesMod(g, a, m);
    assert g > 1 && Divides(g, a) && Divides(g, m);
  }

  /** The inverse is unique in [0, m): the d of the RSA key is "uniquely defined". */
  lemma ModInverseUnique(a: int, m: int, d: int)
    requires ModInverse(a, m).Success?
    requires 0 <= d < m && (a * d) % m == 1 % m
    ensures d == ModInverse(a, m).value
  {
    var v := ModInverse(a, m).value;
    ModMulCongruent(d, d, a * v, 1, m);
    ModMulCongruent(a * d, 1, v, v, m);
    assert d * (a * v) == (a * d) * v;
    ModUnique(d, m, 0, d);
    ModUnique(v, m, 0, v);
  }

  /** Coprimality of a power reduces to coprimality of its base. */
  lemma CoprimePow(b: int, k: nat, m: int)
    requires k >= 1 && m > 0
    ensures Coprime(Pow(b, k) % m, m) <==> Coprime(b, m)
  {
    var w := Pow(b, k) % m;
    if !Coprime(b, m) {
      var c :| c > 1 && Divides(c, b) && Divides(c, m);
      assert Pow(b, k) == b * Pow(b, k - 1);
      DividesMul(c, b, Pow(b, k - 1));
      DividesMod(c, Pow(b, k), m);
      assert !Coprime(w, m);
    } else if m == 1 {
      InverseImpliesCoprime(w, 0, 1);
    } else {
      var x := ModInverse(b, m).value;
      PowOfProduct(b, x, k);
      PowMod(b * x, k, m);
      ModUnique(1, m, 0, 1);
      PowOne(k);
      ModOfMod(Pow(b, k), m);
      ModMulCongruent(w, Pow(b, k), Pow(x, k), Pow(x, k), m);
      InverseImpliesCoprime(w, Pow(x, k), m);
    }
  }

  /** BigInteger.modPow for every exponent: a negative exponent asks for the
      inverse of base^|exponent|, which exists only for a base coprime to m. */
  function ModPowSigned(base: int, exponent: int, m: int): (r: Result<int>)
    ensures r.Failure? <==> m <= 0 || (exponent < 0 && !Coprime(base, m))
    ensures r.Failure? ==> r.error == (if m <= 0 then ModulusNotPositive else NotInvertible)
    ensures r.Success? ==> 0 <= r.value < m
    ensures r.Success? && exponent >= 0 ==> r.value == Pow(base, exponent) % m
    ensures r.Success? && exponent < 0 ==> (r.value * Pow(base, -exponent)) % m == 1 % m
  {
    if m <= 0 then Failure(ModulusNotPositive)
    else if exponent >= 0 then
      ModPowIsPow(base, exponent, m);
      Success(ModPow(base, exponent, m))
    else
      ModInverseOfPow(base, -exponent, m);
      ModInverse(ModPow(base, -exponent, m), m)
  }

  /** base^k mod m has an inverse modulo m exactly when base is coprime to m,
      and that inverse also inverts base^k itself. */
  lemma ModInverseOfPow(base: int, k: nat, m: int)
    requires k >= 1 && m > 0
    ensures ModInverse(ModPow(base, k, m), m).Success? <==> Coprime(base, m)
    ensures ModInverse(ModPow(base, k, m), m).Success? ==>
              (ModInverse(ModPow(base, k, m), m).value * Pow(base, k)) % m == 1 % m
  {
    var w := ModPow(base, k, m);
    ModPowIsPow(base, k, m);
    CoprimePow(base, k, m);
    var r := ModInverse(w, m);
    if r.Success? {
      ModOfMod(Pow(base, k), m);
      ModMulCongruent(r.value, r.value, Pow(base, k), w, m);
      assert r.value * w == w * r.value;
    }
  }
}
