/** Textbook RSA as RSA.java does it (CLRS section 31.7; the RSAEP and RSADP
    primitives of sections 5.1.1 and 5.1.2 of RFC 8017, without padding): key
    construction from two primes, and encryption and decryption as modular
    exponentiation between two's-complement byte encodings. */
module RSA {
  import opened Powers
  import opened Divisibility
  import opened Fermat
  import opened BigInteger
  import opened TwosComplement

  /** The public exponent RSA.java fixes. */
  const PublicExponent: int := 65537

  /** The modulus n shared by both keys, the public exponent e and the private exponent d. */
  datatype KeyPair = KeyPair(n: int, e: int, d: int)

  /** phi(n) = (p - 1) * (q - 1). */
  function Totient(p: int, q: int): int
  {
    (p - 1) * (q - 1)
  }

  /** k is an RSA key for the primes p and q: n = p * q and d is the inverse of
      e modulo phi(n), taken in [0, phi(n)). */
  ghost predicate IsKeyFor(p: int, q: int, k: KeyPair)
  {
    var phi := Totient(p, q);
    k.n == p * q && 0 <= k.d < phi && (k.e * k.d) % phi == 1 % phi
  }

  /** The key arithmetic of RSA.main for primes p, q and public exponent e:
      n = p * q, phi = (p - 1) * (q - 1) and d = e.modInverse(phi), which throws
      when phi is not positive or e is not coprime to phi. */
  function KeyPairFrom(p: int, q: int, e: int): (r: Result<KeyPair>)
    ensures r.Success? <==> Totient(p, q) > 0 && Coprime(e, Totient(p, q))
    ensures r.Failure? ==> r.error == (if Totient(p, q) <= 0 then ModulusNotPositive else NotInvertible)
    ensures r.Success? ==> r.value.e == e && IsKeyFor(p, q, r.value)
    ensures r.Success? && Totient(p, q) > 1 ==> r.value.d > 0
  {
    var n := p * q;
    var phi := Totient(p, q);
    var d :- ModInverse(e, phi);
    InverseNotZero(e, d, phi);
    Success(KeyPair(n, e, d))
  }

  lemma InverseNotZero(e: int, d: int, phi: int)
    requires phi > 0 && (e * d) % phi == 1 % phi
    ensures phi > 1 ==> d != 0
  {
    if phi > 1 {
      ModUnique(1, phi, 0, 1);
    }
  }

  /** RSA.main's key, for the two primes it draws: the construction fails only
      when 65537 shares a factor with phi(n), which RSA.main never checks. */
  function KeyGen(p: int, q: int): (r: Result<KeyPair>)
    requires IsPrime(p) && IsPrime(q)
    ensures r.Success? <==> Coprime(PublicExponent, Totient(p, q))
    ensures r.Failure? ==> r.error == NotInvertible
    ensures r.Success? ==> r.value.e == PublicExponent && IsKeyFor(p, q, r.value)
    ensures r.Success? && Totient(p, q) > 1 ==> r.value.d > 0
  {
    MulNonneg(p - 2, q - 2);
    KeyPairFrom(p, q, PublicExponent)
  }

  /** Trial division of 65537 by every c in [2, 256], in steps. */
  lemma TrialDivision65537Part1()
    ensures NoDivisorUpTo(PublicExponent, 225, 256)
  {
    assert NoDivisorUpTo(65537, 256, 256); assert NoDivisorUpTo(65537, 255, 256); assert NoDivisorUpTo(65537, 254, 256); assert NoDivisorUpTo(65537, 253, 256);
    assert NoDivisorUpTo(65537, 252, 256); assert NoDivisorUpTo(65537, 251, 256); assert NoDivisorUpTo(65537, 250, 256); assert NoDivisorUpTo(65537, 249, 256);
    assert NoDivisorUpTo(65537, 248, 256); assert NoDivisorUpTo(65537, 247, 256); assert NoDivisorUpTo(65537, 246, 256); assert NoDivisorUpTo(65537, 245, 256);
    assert NoDivisorUpTo(65537, 244, 256); assert NoDivisorUpTo(65537, 243, 256); assert NoDivisorUpTo(65537, 242, 256); assert NoDivisorUpTo(65537, 241, 256);
    assert NoDivisorUpTo(65537, 240, 256); assert NoDivisorUpTo(65537, 239, 256); assert NoDivisorUpTo(65537, 238, 256); assert NoDivisorUpTo(65537, 237, 256);
    assert NoDivisorUpTo(65537, 236, 256); assert NoDivisorUpTo(65537, 235, 256); assert NoDivisorUpTo(65537, 234, 256); assert NoDivisorUpTo(65537, 233, 256);
    assert NoDivisorUpTo(65537, 232, 256); assert NoDivisorUpTo(65537, 231, 256); assert NoDivisorUpTo(65537, 230, 256); assert NoDivisorUpTo(65537, 229, 256);
    assert NoDivisorUpTo(65537, 228, 256); assert NoDivisorUpTo(65537, 227, 256); assert NoDivisorUpTo(65537, 226, 256); assert NoDivisorUpTo(65537, 225, 256);
  }

  lemma TrialDivision65537Part2()
    requires NoDivisorUpTo(PublicExponent, 225, 256)
    ensures NoDivisorUpTo(PublicExponent, 193, 256)
  {
    assert NoDivisorUpTo(65537, 224, 256); assert NoDivisorUpTo(65537, 223, 256); assert NoDivisorUpTo(65537, 222, 256); assert NoDivisorUpTo(65537, 221, 256);
    assert NoDivisorUpTo(65537, 220, 256); assert NoDivisorUpTo(65537, 219, 256); assert NoDivisorUpTo(65537, 218, 256); assert NoDivisorUpTo(65537, 217, 256);
    assert NoDivisorUpTo(65537, 216, 256); assert NoDivisorUpTo(65537, 215, 256); assert NoDivisorUpTo(65537, 214, 256); assert NoDivisorUpTo(65537, 213, 256);
    assert NoDivisorUpTo(65537, 212, 256); assert NoDivisorUpTo(65537, 211, 256); assert NoDivisorUpTo(65537, 210, 256); assert NoDivisorUpTo(65537, 209, 256);
    assert NoDivisorUpTo(65537, 208, 256); assert NoDivisorUpTo(65537, 207, 256); assert NoDivisorUpTo(65537, 206, 256); assert NoDivisorUpTo(65537, 205, 256);
    assert NoDivisorUpTo(65537, 204, 256); assert NoDivisorUpTo(65537, 203, 256); assert NoDivisorUpTo(65537, 202, 256); assert NoDivisorUpTo(65537, 201, 256);
    assert NoDivisorUpTo(65537, 200, 256); assert NoDivisorUpTo(65537, 199, 256); assert NoDivisorUpTo(65537, 198, 256); assert NoDivisorUpTo(65537, 197, 256);
    assert NoDivisorUpTo(65537, 196, 256); assert NoDivisorUpTo(65537, 195, 256); assert NoDivisorUpTo(65537, 194, 256); assert NoDivisorUpTo(65537, 193, 256);
  }

  lemma TrialDivision65537Part3()
    requires NoDivisorUpTo(PublicExponent, 193, 256)
    ensures NoDivisorUpTo(PublicExponent, 161, 256)
  {
    assert NoDivisorUpTo(65537, 192, 256); assert NoDivisorUpTo(65537, 191, 256); assert NoDivisorUpTo(65537, 190, 256); assert NoDivisorUpTo(65537, 189, 256);
    assert NoDivisorUpTo(65537, 188, 256); assert NoDivisorUpTo(65537, 187, 256); assert NoDivisorUpTo(65537, 186, 256); assert NoDivisorUpTo(65537, 185, 256);
    assert NoDivisorUpTo(65537, 184, 256); assert NoDivisorUpTo(65537, 183, 256); assert NoDivisorUpTo(65537, 182, 256); assert NoDivisorUpTo(65537, 181, 256);
    assert NoDivisorUpTo(65537, 180, 256); assert NoDivisorUpTo(65537, 179, 256); assert NoDivisorUpTo(65537, 178, 256); assert NoDivisorUpTo(65537, 177, 256);
    assert NoDivisorUpTo(65537, 176, 256); assert NoDivisorUpTo(65537, 175, 256); assert NoDivisorUpTo(65537, 174, 256); assert NoDivisorUpTo(65537, 173, 256);
    assert NoDivisorUpTo(65537, 172, 256); assert NoDivisorUpTo(65537, 171, 256); assert NoDivisorUpTo(65537, 170, 256); assert NoDivisorUpTo(65537, 169, 256);
    assert NoDivisorUpTo(65537, 168, 256); assert NoDivisorUpTo(65537, 167, 256); assert NoDivisorUpTo(65537, 166, 256); assert NoDivisorUpTo(65537, 165, 256);
    assert NoDivisorUpTo(65537, 164, 256); assert NoDivisorUpTo(65537, 163, 256); assert NoDivisorUpTo(65537, 162, 256); assert NoDivisorUpTo(65537, 161, 256);
  }

  lemma TrialDivision65537Part4()
    requires NoDivisorUpTo(PublicExponent, 161, 256)
    ensures NoDivisorUpTo(PublicExponent, 129, 256)
  {
    assert NoDivisorUpTo(65537, 160, 256); assert NoDivisorUpTo(65537, 159, 256); assert NoDivisorUpTo(65537, 158, 256); assert NoDivisorUpTo(65537, 157, 256);
    assert NoDivisorUpTo(65537, 156, 256); assert NoDivisorUpTo(65537, 155, 256); assert NoDivisorUpTo(65537, 154, 256); assert NoDivisorUpTo(65537, 153, 256);
    assert NoDivisorUpTo(65537, 152, 256); assert NoDivisorUpTo(65537, 151, 256); assert NoDivisorUpTo(65537, 150, 256); assert NoDivisorUpTo(65537, 149, 256);
    assert NoDivisorUpTo(65537, 148, 256); assert NoDivisorUpTo(65537, 147, 256); assert NoDivisorUpTo(65537, 146, 256); assert NoDivisorUpTo(65537, 145, 256);
    assert NoDivisorUpTo(65537, 144, 256); assert NoDivisorUpTo(65537, 143, 256); assert NoDivisorUpTo(65537, 142, 256); assert NoDivisorUpTo(65537, 141, 256);
    assert NoDivisorUpTo(65537, 140, 256); assert NoDivisorUpTo(65537, 139, 256); assert NoDivisorUpTo(65537, 138, 256); assert NoDivisorUpTo(65537, 137, 256);
    assert NoDivisorUpTo(65537, 136, 256); assert NoDivisorUpTo(65537, 135, 256); assert NoDivisorUpTo(65537, 134, 256); assert NoDivisorUpTo(65537, 133, 256);
    assert NoDivisorUpTo(65537, 132, 256); assert NoDivisorUpTo(65537, 131, 256); assert NoDivisorUpTo(65537, 130, 256); assert NoDivisorUpTo(65537, 129, 256);
  }

  lemma TrialDivision65537Part5()
    requires NoDivisorUpTo(PublicExponent, 129, 256)
    ensures NoDivisorUpTo(PublicExponent, 97, 256)
  {
    assert NoDivisorUpTo(65537, 128, 256); assert NoDivisorUpTo(65537, 127, 256); assert NoDivisorUpTo(65537, 126, 256); assert NoDivisorUpTo(65537, 125, 256);
    assert NoDivisorUpTo(65537, 124, 256); assert NoDivisorUpTo(65537, 123, 256); assert NoDivisorUpTo(65537, 122, 256); assert NoDivisorUpTo(65537, 121, 256);
    assert NoDivisorUpTo(65537, 120, 256); assert NoDivisorUpTo(65537, 119, 256); assert NoDivisorUpTo(65537, 118, 256); assert NoDivisorUpTo(65537, 117, 256);
    assert NoDivisorUpTo(65537, 116, 256); assert NoDivisorUpTo(65537, 115, 256); assert NoDivisorUpTo(65537, 114, 256); assert NoDivisorUpTo(65537, 113, 256);
    assert NoDivisorUpTo(65537, 112, 256); assert NoDivisorUpTo(65537, 111, 256); assert NoDivisorUpTo(65537, 110, 256); assert NoDivisorUpTo(65537, 109, 256);
    assert NoDivisorUpTo(65537, 108, 256); assert NoDivisorUpTo(65537, 107, 256); assert NoDivisorUpTo(65537, 106, 256); assert NoDivisorUpTo(65537, 105, 256);
    assert NoDivisorUpTo(65537, 104, 256); assert NoDivisorUpTo(65537, 103, 256); assert NoDivisorUpTo(65537, 102, 256); assert NoDivisorUpTo(65537, 101, 256);
    assert NoDivisorUpTo(65537, 100, 256); assert NoDivisorUpTo(65537, 99, 256); assert NoDivisorUpTo(65537, 98, 256); assert NoDivisorUpTo(65537, 97, 256);
  }

  lemma TrialDivision65537Part6()
    requires NoDivisorUpTo(PublicExponent, 97, 256)
    ensures NoDivisorUpTo(PublicExponent, 65, 256)
  {
    assert NoDivisorUpTo(65537, 96, 256); assert NoDivisorUpTo(65537, 95, 256); assert NoDivisorUpTo(65537, 94, 256); assert NoDivisorUpTo(65537, 93, 256);
    assert NoDivisorUpTo(65537, 92, 256); assert NoDivisorUpTo(65537, 91, 256); assert NoDivisorUpTo(65537, 90, 256); assert NoDivisorUpTo(65537, 89, 256);
    assert NoDivisorUpTo(65537, 88, 256); assert NoDivisorUpTo(65537, 87, 256); assert NoDivisorUpTo(65537, 86, 256); assert NoDivisorUpTo(65537, 85, 256);
    assert NoDivisorUpTo(65537, 84, 256); assert NoDivisorUpTo(65537, 83, 256); assert NoDivisorUpTo(65537, 82, 256); assert NoDivisorUpTo(65537, 81, 256);
    assert NoDivisorUpTo(65537, 80, 256); assert NoDivisorUpTo(65537, 79, 256); assert NoDivisorUpTo(65537, 78, 256); assert NoDivisorUpTo(65537, 77, 256);
    assert NoDivisorUpTo(65537, 76, 256); assert NoDivisorUpTo(65537, 75, 256); assert NoDivisorUpTo(65537, 74, 256); assert NoDivisorUpTo(65537, 73, 256);
    assert NoDivisorUpTo(65537, 72, 256); assert NoDivisorUpTo(65537, 71, 256); assert NoDivisorUpTo(65537, 70, 256); assert NoDivisorUpTo(65537, 69, 256);
    assert NoDivisorUpTo(65537, 68, 256); assert NoDivisorUpTo(65537, 67, 256); assert NoDivisorUpTo(65537, 66, 256); assert NoDivisorUpTo(65537, 65, 256);
  }

  lemma TrialDivision65537Part7()
    requires NoDivisorUpTo(PublicExponent, 65, 256)
    ensures NoDivisorUpTo(PublicExponent, 33, 256)
  {
    assert NoDivisorUpTo(65537, 64, 256); assert NoDivisorUpTo(65537, 63, 256); assert NoDivisorUpTo(65537, 62, 256); assert NoDivisorUpTo(65537, 61, 256);
    assert NoDivisorUpTo(65537, 60, 256); assert NoDivisorUpTo(65537, 59, 256); assert NoDivisorUpTo(65537, 58, 256); assert NoDivisorUpTo(65537, 57, 256);
    assert NoDivisorUpTo(65537, 56, 256); assert NoDivisorUpTo(65537, 55, 256); assert NoDivisorUpTo(65537, 54, 256); assert NoDivisorUpTo(65537, 53, 256);
    assert NoDivisorUpTo(65537, 52, 256); assert NoDivisorUpTo(65537, 51, 256); assert NoDivisorUpTo(65537, 50, 256); assert NoDivisorUpTo(65537, 49, 256);
    assert NoDivisorUpTo(65537, 48, 256); assert NoDivisorUpTo(65537, 47, 256); assert NoDivisorUpTo(65537, 46, 256); assert NoDivisorUpTo(65537, 45, 256);
    assert NoDivisorUpTo(65537, 44, 256); assert NoDivisorUpTo(65537, 43, 256); assert NoDivisorUpTo(65537, 42, 256); assert NoDivisorUpTo(65537, 41, 256);
    assert NoDivisorUpTo(65537, 40, 256); assert NoDivisorUpTo(65537, 39, 256); assert NoDivisorUpTo(65537, 38, 256); assert NoDivisorUpTo(65537, 37, 256);
    assert NoDivisorUpTo(65537, 36, 256); assert NoDivisorUpTo(65537, 35, 256); assert NoDivisorUpTo(65537, 34, 256); assert NoDivisorUpTo(65537, 33, 256);
  }

  lemma TrialDivision65537Part8()
    requires NoDivisorUpTo(PublicExponent, 33, 256)
    ensures NoDivisorUpTo(PublicExponent, 2, 256)
  {
    assert NoDivisorUpTo(65537, 32, 256); assert NoDivisorUpTo(65537, 31, 256); assert NoDivisorUpTo(65537, 30, 256); assert NoDivisorUpTo(65537, 29, 256);
    assert NoDivisorUpTo(65537, 28, 256); assert NoDivisorUpTo(65537, 27, 256); assert NoDivisorUpTo(65537, 26, 256); assert NoDivisorUpTo(65537, 25, 256);
    assert NoDivisorUpTo(65537, 24, 256); assert NoDivisorUpTo(65537, 23, 256); assert NoDivisorUpTo(65537, 22, 256); assert NoDivisorUpTo(65537, 21, 256);
    assert NoDivisorUpTo(65537, 20, 256); assert NoDivisorUpTo(65537, 19, 256); assert NoDivisorUpTo(65537, 18, 256); assert NoDivisorUpTo(65537, 17, 256);
    assert NoDivisorUpTo(65537, 16, 256); assert NoDivisorUpTo(65537, 15, 256); assert NoDivisorUpTo(65537, 14, 256); assert NoDivisorUpTo(65537, 13, 256);
    assert NoDivisorUpTo(65537, 12, 256); assert NoDivisorUpTo(65537, 11, 256); assert NoDivisorUpTo(65537, 10, 256); assert NoDivisorUpTo(65537, 9, 256);
    assert NoDivisorUpTo(65537, 8, 256); assert NoDivisorUpTo(65537, 7, 256); assert NoDivisorUpTo(65537, 6, 256); assert NoDivisorUpTo(65537, 5, 256);
    assert NoDivisorUpTo(65537, 4, 256); assert NoDivisorUpTo(65537, 3, 256); assert NoDivisorUpTo(65537, 2, 256);
  }

  /** 65537 is prime: it has no divisor in [2, 256] and 257 * 257 > 65537. */
  lemma PublicExponentIsPrime()
    ensures IsPrime(PublicExponent)
  {
    TrialDivision65537Part1(); TrialDivision65537Part2(); TrialDivision65537Part3(); TrialDivision65537Part4(); TrialDivision65537Part5(); TrialDivision65537Part6(); TrialDivision65537Part7(); TrialDivision65537Part8();
    PrimeByTrialDivision(PublicExponent, 256);
  }

  /** Since 65537 is prime, RSA.main's key construction fails exactly when
      65537 divides p - 1 or q - 1. */
  lemma KeyGenFailsIff(p: int, q: int)
    requires IsPrime(p) && IsPrime(q)
    ensures KeyGen(p, q).Failure? <==> Divides(PublicExponent, p - 1) || Divides(PublicExponent, q - 1)
  {
    PublicExponentIsPrime();
    PrimeCoprime(PublicExponent, Totient(p, q));
    PrimeDividesProduct(PublicExponent, p - 1, q - 1);
  }

  /** The private exponent is the only value in [0, phi(n)) that inverts e. */
  lemma PrivateExponentUnique(p: int, q: int, e: int, d: int)
    requires KeyPairFrom(p, q, e).Success?
    requires 0 <= d < Totient(p, q) && (e * d) % Totient(p, q) == 1 % Totient(p, q)
    ensures d == KeyPairFrom(p, q, e).value.d
  {
    ModInverseUnique(e, Totient(p, q), d);
  }

  /** encrypt: C = M^e mod n, between byte encodings. */
  function Encrypt(content: seq<Byte>, n: int, e: int): (r: Result<seq<Byte>>)
    ensures r.Failure? <==> |content| == 0 || n <= 0 || (e < 0 && !Coprime(FromBytes(content), n))
    ensures r.Failure? ==> r.error == (if |content| == 0 then ZeroLengthBytes
                                       else if n <= 0 then ModulusNotPositive else NotInvertible)
    ensures r.Success? ==> Minimal(r.value) && 0 <= FromBytes(r.value) < n
    ensures r.Success? && e >= 0 ==> FromBytes(r.value) == Pow(FromBytes(content), e) % n
    ensures r.Success? && e < 0 ==> (FromBytes(r.value) * Pow(FromBytes(content), -e)) % n == 1 % n
  {
    if |content| == 0 then Failure(ZeroLengthBytes)
    else
      var c :- ModPowSigned(FromBytes(content), e, n);
      ToBytesMinimal(c);
      Success(ToBytes(c))
  }

  /** decrypt: M = C^d mod n, between byte encodings. */
  function Decrypt(encrypted: seq<Byte>, n: int, d: int): (r: Result<seq<Byte>>)
    ensures r.Failure? <==> |encrypted| == 0 || n <= 0 || (d < 0 && !Coprime(FromBytes(encrypted), n))
    ensures r.Failure? ==> r.error == (if |encrypted| == 0 then ZeroLengthBytes
                                       else if n <= 0 then ModulusNotPositive else NotInvertible)
    ensures r.Success? ==> Minimal(r.value) && 0 <= FromBytes(r.value) < n
    ensures r.Success? && d >= 0 ==> FromBytes(r.value) == Pow(FromBytes(encrypted), d) % n
    ensures r.Success? && d < 0 ==> (FromBytes(r.value) * Pow(FromBytes(encrypted), -d)) % n == 1 % n
  {
    if |encrypted| == 0 then Failure(ZeroLengthBytes)
    else
      var clear :- ModPowSigned(FromBytes(encrypted), d, n);
      ToBytesMinimal(clear);
      Success(ToBytes(clear))
  }

  /** encrypt and decrypt are one transform; only the exponent passed differs. */
  lemma EncryptIsDecrypt(bytes: seq<Byte>, n: int, exponent: int)
    ensures Encrypt(bytes, n, exponent) == Decrypt(bytes, n, exponent)
  {
  }

  /** (M^e)^d is congruent to M modulo n = p * q, for every integer M, when p and
      q are distinct primes and e * d is congruent to 1 modulo phi(n). */
  lemma RsaIdentity(p: int, q: int, e: nat, d: nat, m: int)
    requires IsPrime(p) && IsPrime(q) && p != q
    requires (e * d) % Totient(p, q) == 1
    ensures Pow(Pow(m, e), d) % (p * q) == m % (p * q)
  {
    var ed: nat := e * d;
    var t := ExponentSplit(p, q, ed);
    var tp: nat, tq: nat := t * (q - 1), t * (p - 1);
    CongruentAt(p, m, ed, tp);
    CongruentAt(q, m, ed, tq);
    CongruentModProduct(p, q, Pow(m, ed), m);
    PowMul(m, e, d);
  }

  lemma CongruentAt(p: int, m: int, x: nat, t: nat)
    requires IsPrime(p) && x == 1 + t * (p - 1)
    ensures Pow(m, x) % p == m % p
  {
    PowCongruentModPrime(p, m, t);
  }

  /** An exponent congruent to 1 modulo phi(n) is 1 plus a multiple of p - 1 and of q - 1. */
  lemma ExponentSplit(p: int, q: int, ed: nat) returns (t: nat)
    requires p >= 2 && q >= 2 && (p > 2 || q > 2)
    requires ed % Totient(p, q) == 1
    ensures ed == 1 + (t * (q - 1)) * (p - 1)
    ensures ed == 1 + (t * (p - 1)) * (q - 1)
  {
    var phi := Totient(p, q);
    MulNonneg(p - 2, q - 2);
    t := ed / phi;
    assert ed == t * phi + 1;
    Regroup(t, p - 1, q - 1);
  }

  lemma Regroup(t: int, a: int, b: int)
    ensures t * (a * b) == (t * b) * a == (t * a) * b
  {
  }

  /** Decrypting the encryption of M under a key for distinct primes gives back
      M mod n; in particular M itself when 0 <= M < n. */
  lemma DecryptInvertsEncrypt(p: int, q: int, k: KeyPair, m: int)
    requires IsPrime(p) && IsPrime(q) && p != q
    requires IsKeyFor(p, q, k) && k.e >= 0
    ensures ModPow(ModPow(m, k.e, k.n), k.d, k.n) == m % k.n
  {
    DistinctPrimesTotient(p, q);
    var n, e, d := k.n, k.e, k.d;
    var c := ModPow(m, e, n);
    ModPowIsPow(m, e, n);
    ModPowIsPow(c, d, n);
    PowMod(Pow(m, e), d, n);
    RsaIdentity(p, q, e, d, m);
  }

  /** For distinct primes the modulus is positive and phi(n) is at least 2. */
  lemma DistinctPrimesTotient(p: int, q: int)
    requires IsPrime(p) && IsPrime(q) && p != q
    ensures p * q > 0 && Totient(p, q) >= 2 && 1 % Totient(p, q) == 1
  {
    MulNonneg(p - 1, q - 1);
    MulNonneg(p - 2, q - 2);
    ModUnique(1, Totient(p, q), 0, 1);
  }

  /** The byte-level round trip of RSA.main: for non-empty content, decrypt
      undoes encrypt up to reduction modulo n and re-encoding. */
  lemma DecryptEncrypt(p: int, q: int, k: KeyPair, content: seq<Byte>)
    requires IsPrime(p) && IsPrime(q) && p != q
    requires IsKeyFor(p, q, k) && k.e >= 0
    requires |content| > 0
    ensures Encrypt(content, k.n, k.e).Success?
    ensures Decrypt(Encrypt(content, k.n, k.e).value, k.n, k.d)
            == Success(ToBytes(FromBytes(content) % k.n))
  {
    MulNonneg(p - 1, q - 1);
    var m := FromBytes(content);
    var c := Encrypt(content, k.n, k.e).value;
    assert FromBytes(c) == ModPow(m, k.e, k.n);
    DecryptInvertsEncrypt(p, q, k, m);
  }

  /** The content comes back unchanged exactly when it is the minimal encoding
      of a value in [0, n): leading zero bytes are dropped, and a set sign bit
      reads as a negative number that comes back reduced modulo n. */
  lemma RoundTripExactly(p: int, q: int, k: KeyPair, content: seq<Byte>)
    requires IsPrime(p) && IsPrime(q) && p != q
    requires IsKeyFor(p, q, k) && k.e >= 0
    requires |content| > 0
    ensures Encrypt(content, k.n, k.e).Success?
    ensures Decrypt(Encrypt(content, k.n, k.e).value, k.n, k.d) == Success(content)
            <==> Minimal(content) && 0 <= FromBytes(content) < k.n
  {
    DecryptEncrypt(p, q, k, content);
    var m := FromBytes(content);
    MulNonneg(p - 1, q - 1);
    if Minimal(content) && 0 <= m < k.n {
      ModUnique(m, k.n, 0, m);
      ToBytesFromBytes(content);
    }
    if ToBytes(m % k.n) == content {
      ToBytesMinimal(m % k.n);
      ModUnique(m, k.n, 0, m % k.n);
    }
  }

  /** RSA.main's own round trip, for the key it constructs. */
  lemma KeyGenRoundTrip(p: int, q: int, content: seq<Byte>)
    requires IsPrime(p) && IsPrime(q) && p != q
    requires Coprime(PublicExponent, Totient(p, q))
    requires Minimal(content) && 0 <= FromBytes(content) < p * q
    ensures KeyGen(p, q).Success?
    ensures var k := KeyGen(p, q).value;
            Decrypt(Encrypt(content, k.n, k.e).value, k.n, k.d) == Success(content)
  {
    RoundTripExactly(p, q, KeyGen(p, q).value, content);
  }

  /** The textbook instance p = 61, q = 53, e = 17: the key. */
  lemma TextbookKey()
    ensures Totient(61, 53) == 3120
    ensures KeyPairFrom(61, 53, 17) == Success(KeyPair(3233, 17, 2753))
  {
  }

  /** One square-and-multiply step, for evaluating ModPow on literals. */
  lemma ModPowStep(b: int, e: nat, m: int, h: int, r: int)
    requires m > 0 && e > 0 && ModPow(b, e / 2, m) == h
    requires r == if e % 2 == 0 then (h * h) % m else (((h * h) % m) * (b % m)) % m
    ensures ModPow(b, e, m) == r
  {
  }

  /** The textbook instance: 65 encrypts to 2790. */
  lemma TextbookEncrypt()
    ensures ModPow(65, 17, 3233) == 2790
  {
    ModPowStep(65, 1, 3233, 1, 65);
    ModPowStep(65, 2, 3233, 65, 992);
    ModPowStep(65, 4, 3233, 992, 1232);
    ModPowStep(65, 8, 3233, 1232, 1547);
    ModPowStep(65, 17, 3233, 1547, 2790);
  }

  /** The textbook instance: 2790 decrypts to 65, as an instance of
      DecryptInvertsEncrypt for the key of TextbookKey. */
  lemma TextbookDecrypt()
    ensures ModPow(2790, 2753, 3233) == 65
  {
    var k := KeyPair(3233, 17, 2753);
    TextbookKey();
    assert IsKeyFor(61, 53, k);
    TextbookEncrypt();
    SmallPrimes();
    DecryptsTo(61, 53, k, 65, 2790);
  }

  lemma DecryptsTo(p: int, q: int, k: KeyPair, m: int, c: int)
    requires IsPrime(p) && IsPrime(q) && p != q
    requires IsKeyFor(p, q, k) && k.e >= 0
    requires 0 <= m < k.n && c == ModPow(m, k.e, k.n)
    ensures ModPow(c, k.d, k.n) == m
  {
    DecryptInvertsEncrypt(p, q, k, m);
    ModUnique(m, k.n, 0, m);
  }

  /** The textbook instance in bytes: 2790 is encoded as [0x0A, 0xE6]. */
  lemma TextbookBytes()
    ensures Encrypt([65], 3233, 17) == Success([10, 230])
    ensures Decrypt([10, 230], 3233, 2753) == Success([65])
  {
    TextbookEncrypt();
    TextbookDecrypt();
    assert FromBytes([65]) == 65;
    assert [10, 230][..1] == [10];
    assert FromBytes([10, 230]) == 2790;
    assert ToBytes(2790) == [10, 230];
    assert ToBytes(65) == [65];
  }

  /** 61 and 53 are prime: neither has a divisor in [2, 7], and 8 * 8 > 61. */
  lemma SmallPrimes()
    ensures IsPrime(61) && IsPrime(53)
  {
    assert NoDivisorUpTo(61, 7, 7); assert NoDivisorUpTo(61, 6, 7); assert NoDivisorUpTo(61, 5, 7); assert NoDivisorUpTo(61, 4, 7);
    assert NoDivisorUpTo(61, 3, 7); assert NoDivisorUpTo(61, 2, 7);
    PrimeByTrialDivision(61, 7);
    assert NoDivisorUpTo(53, 7, 7); assert NoDivisorUpTo(53, 6, 7); assert NoDivisorUpTo(53, 5, 7); assert NoDivisorUpTo(53, 4, 7);
    assert NoDivisorUpTo(53, 3, 7); assert NoDivisorUpTo(53, 2, 7);
    PrimeByTrialDivision(53, 7);
  }

  /** The same primes under RSA.main's exponent 65537, which is 17 modulo 3120. */
  lemma KeyGenExample()
    ensures IsPrime(61) && IsPrime(53)
    ensures KeyGen(61, 53) == Success(KeyPair(3233, 65537, 2753))
  {
    SmallPrimes();
  }

  /** Under 65537, 65 still encrypts to 2790. */
  lemma KeyGenExampleCipher()
    ensures Encrypt([65], 3233, 65537) == Success([10, 230])
  {
    ModPowStep(65, 1, 3233, 1, 65);
    ModPowStep(65, 2, 3233, 65, 992);
    ModPowStep(65, 4, 3233, 992, 1232);
    ModPowStep(65, 8, 3233, 1232, 1547);
    ModPowStep(65, 16, 3233, 1547, 789);
    ModPowStep(65, 32, 3233, 789, 1785);
    ModPowStep(65, 64, 3233, 1785, 1720);
    ModPowStep(65, 128, 3233, 1720, 205);
    ModPowStep(65, 256, 3233, 205, 3229);
    ModPowStep(65, 512, 3233, 3229, 16);
    ModPowStep(65, 1024, 3233, 16, 256);
    ModPowStep(65, 2048, 3233, 256, 876);
    ModPowStep(65, 4096, 3233, 876, 1155);
    ModPowStep(65, 8192, 3233, 1155, 2029);
    ModPowStep(65, 16384, 3233, 2029, 1232);
    ModPowStep(65, 32768, 3233, 1232, 1547);
    ModPowStep(65, 65537, 3233, 1547, 2790);
    assert FromBytes([65]) == 65;
    assert ToBytes(2790) == [10, 230];
  }

  /** With e = 17, the prime 103 (103 - 1 = 6 * 17) leaves no private exponent. */
  lemma NotCoprimeExample()
    ensures KeyPairFrom(103, 53, 17) == Failure(NotInvertible)
  {
  }
}
