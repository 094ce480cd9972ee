# Textbook RSA of RSAAuthenticationDemo, in Dafny

This project models `RSA.java`: textbook RSA (CLRS section 31.7; the
RSAEP and RSADP primitives of sections 5.1.1 and 5.1.2 of RFC 8017, with
no padding) over `java.math.BigInteger`. The model covers three parts:

- **Key construction.** This is the arithmetic in `RSA.main`. From primes
  p and q it computes n = p·q and φ = (p−1)(q−1), fixes e = 65537, and
  computes d = e.modInverse(φ).
- **`encrypt` and `decrypt`.** Each reads a byte array with
  `new BigInteger(byte[])`, raises it with `modPow`, and writes the result
  back with `toByteArray()`.
- **The BigInteger behaviour these rely on.** This is the square-and-multiply
  `modPow`, including negative exponents. It is `modInverse` by the extended
  Euclidean algorithm. It is the big-endian two's-complement byte codec. It
  is also the exceptions these operations throw, modelled as an
  `Error` inside a `Result`.

The code is pure: it has no loops and no fields. So everything is a
function or a lemma.

The headline theorem is `RSA.RsaIdentity`, which says (M^e)^d ≡ M (mod p·q)
for distinct primes. Its proof uses:

- `Fermat`: Fermat's little theorem, via the binomial theorem;
- `Fermat.CongruentModProduct`: a Chinese-remainder step;
- `Divisibility.EuclidLemma`: Euclid's lemma, proved from the extended
  Euclidean algorithm.

Modules:

- `Powers`: `Pow` and the laws of Euclidean `%`.
- `Divisibility`: divisors, primes, coprimality, `ExtendedEuclid`, and
  trial division.
- `Fermat`: binomial coefficients, Fermat's little theorem, and the
  Chinese-remainder step.
- `BigInteger`: `ModPow`, `ModInverse`, `ModPowSigned` (`modPow` for any
  exponent), and the `Error`/`Result` types.
- `TwosComplement`: `FromBytes` (`new BigInteger(byte[])`) and `ToBytes`
  (`toByteArray()`).
- `RSA`: the key construction, `Encrypt`, `Decrypt`, the round-trip theorems
  and concrete instances.

## Model

| member | source | states |
|---|---|---|
| BigInteger.ModPow | src/stephenx/RSAAuthenticationDemo/RSA.java:33 | modular exponentiation for a non-negative exponent always lies in [0, m) |
| BigInteger.ModPowIsPow | src/stephenx/RSAAuthenticationDemo/RSA.java:33 | square-and-multiply equals b^e mod m for every base, exponent and positive modulus |
| BigInteger.ModPowSigned | src/stephenx/RSAAuthenticationDemo/RSA.java:49 | modPow fails exactly when the modulus is not positive, or the exponent is negative and the base is not coprime to the modulus, with the matching exception; otherwise the result is in [0, m) and equals base^e mod m, or for a negative exponent it is the inverse of base^abs(e) |
| BigInteger.ModInverseOfPow | src/stephenx/RSAAuthenticationDemo/RSA.java:49 | base^k mod m is invertible exactly when base is coprime to m, and its inverse also inverts base^k |
| BigInteger.ModInverse | src/stephenx/RSAAuthenticationDemo/RSA.java:88 | modInverse succeeds exactly when m > 0 and a is coprime to m; the result is in [0, m) and a·r ≡ 1 (mod m); otherwise it fails with the exception Java throws |
| BigInteger.ModInverseUnique | src/stephenx/RSAAuthenticationDemo/RSA.java:13-14 | every inverse of a in [0, m) is the one modInverse returns |
| BigInteger.CoprimePow | src/stephenx/RSAAuthenticationDemo/RSA.java:49 | b^k mod m is coprime to m exactly when b is, for k ≥ 1 |
| Divisibility.ExtendedEuclid | src/stephenx/RSAAuthenticationDemo/RSA.java:88 | the result g is a common divisor of a and b (zero only when both are) with the Bezout identity a·x + b·y = g |
| Divisibility.CommonDivisorDividesGcd | src/stephenx/RSAAuthenticationDemo/RSA.java:88 | every common divisor of a and b divides g, so g is the greatest common divisor |
| Divisibility.EuclidLemma | src/stephenx/RSAAuthenticationDemo/RSA.java:12 | a prime that divides a product divides one of its factors |
| Divisibility.PrimeDividesProduct | src/stephenx/RSAAuthenticationDemo/RSA.java:81 | a prime divides (p−1)(q−1) exactly when it divides p−1 or q−1 |
| Divisibility.PrimeCoprime | src/stephenx/RSAAuthenticationDemo/RSA.java:12 | a prime is coprime to x exactly when it does not divide x |
| Divisibility.PrimeByTrialDivision | src/stephenx/RSAAuthenticationDemo/RSA.java:84 | a number with no divisor in [2, s], where (s+1)^2 exceeds it, is prime |
| Fermat.Fermat | src/stephenx/RSAAuthenticationDemo/RSA.java:17-18 | Fermat's little theorem: a^p ≡ a (mod p) for every integer a |
| Fermat.FermatUnit | src/stephenx/RSAAuthenticationDemo/RSA.java:17-18 | a^(p−1) ≡ 1 (mod p) when p does not divide a |
| Fermat.PowCongruentModPrime | src/stephenx/RSAAuthenticationDemo/RSA.java:17-18 | m^(1 + t(p−1)) ≡ m (mod p) for every m, whether or not p divides m |
| Fermat.CongruentModProduct | src/stephenx/RSAAuthenticationDemo/RSA.java:17-18 | congruence modulo two distinct primes gives congruence modulo their product |
| RSA.KeyPairFrom | src/stephenx/RSAAuthenticationDemo/RSA.java:78-88 | the key exists exactly when φ > 0 and e is coprime to φ, and otherwise fails with modInverse's exception; n = p·q, 0 ≤ d < φ and e·d ≡ 1 (mod φ), with d > 0 once φ > 1 |
| RSA.KeyGen | src/stephenx/RSAAuthenticationDemo/RSA.java:78-88 | for primes p and q with e = 65537, the key exists exactly when 65537 is coprime to φ, and otherwise fails as not invertible; the key has n = p·q, e = 65537 and d the inverse of e in [0, φ), and d > 0 when φ > 1 |
| RSA.PublicExponentIsPrime | src/stephenx/RSAAuthenticationDemo/RSA.java:84-85 | 65537 is prime |
| RSA.KeyGenFailsIff | src/stephenx/RSAAuthenticationDemo/RSA.java:83-88 | key construction fails exactly when 65537 divides p−1 or q−1, a case main never checks |
| RSA.PrivateExponentUnique | src/stephenx/RSAAuthenticationDemo/RSA.java:13-14 | d is the only value in [0, φ) with e·d ≡ 1 (mod φ) |
| RSA.Encrypt | src/stephenx/RSAAuthenticationDemo/RSA.java:30-36 | encrypt fails exactly on empty content, a non-positive modulus, or a negative exponent with content not coprime to n, each with the exception Java throws; otherwise the result is the minimal encoding of M^e mod n, in [0, n) |
| RSA.Decrypt | src/stephenx/RSAAuthenticationDemo/RSA.java:46-52 | decrypt fails in the same cases as encrypt; otherwise the result is the minimal encoding of C^d mod n, in [0, n) |
| RSA.EncryptIsDecrypt | src/stephenx/RSAAuthenticationDemo/RSA.java:30-52 | encrypt and decrypt are one transform: the same exponent gives the same result |
| RSA.RsaIdentity | src/stephenx/RSAAuthenticationDemo/RSA.java:17-18 | (M^e)^d ≡ M (mod p·q) for every integer M, for distinct primes and e·d ≡ 1 (mod φ) |
| RSA.DecryptInvertsEncrypt | src/stephenx/RSAAuthenticationDemo/RSA.java:17-18 | under a key for distinct primes, modPow with d undoes modPow with e, giving M mod n |
| RSA.ExponentSplit | src/stephenx/RSAAuthenticationDemo/RSA.java:81 | an exponent ≡ 1 (mod φ) is 1 plus a multiple of p−1 and of q−1 |
| RSA.DecryptEncrypt | src/stephenx/RSAAuthenticationDemo/RSA.java:96-100 | for non-empty content, encrypting then decrypting under a key for distinct primes succeeds and gives the minimal encoding of M mod n |
| RSA.RoundTripExactly | src/stephenx/RSAAuthenticationDemo/RSA.java:96-100 | the content comes back unchanged exactly when it is a minimal encoding of a value in [0, n) |
| RSA.KeyGenRoundTrip | src/stephenx/RSAAuthenticationDemo/RSA.java:74-100 | with the key main builds for distinct primes and 65537 coprime to φ, every minimal encoding of a value in [0, n) survives encrypt and then decrypt |
| RSA.TextbookKey | src/stephenx/RSAAuthenticationDemo/RSA.java:78-88 | p = 61, q = 53, e = 17 gives φ = 3120, n = 3233 and d = 2753 |
| RSA.TextbookEncrypt | src/stephenx/RSAAuthenticationDemo/RSA.java:33 | 65 encrypts to 2790 under (3233, 17) |
| RSA.TextbookDecrypt | src/stephenx/RSAAuthenticationDemo/RSA.java:49 | 2790 decrypts to 65 under (3233, 2753) |
| RSA.TextbookBytes | src/stephenx/RSAAuthenticationDemo/RSA.java:30-52 | in bytes, [65] encrypts to [0x0A, 0xE6] and that decrypts to [65] |
| RSA.SmallPrimes | src/stephenx/RSAAuthenticationDemo/RSA.java:74-75 | 61 and 53 are prime |
| RSA.KeyGenExample | src/stephenx/RSAAuthenticationDemo/RSA.java:78-88 | main's construction on 61 and 53 yields the key (3233, 65537, 2753) |
| RSA.KeyGenExampleCipher | src/stephenx/RSAAuthenticationDemo/RSA.java:30-36 | under e = 65537, [65] encrypts to [0x0A, 0xE6] |
| RSA.NotCoprimeExample | src/stephenx/RSAAuthenticationDemo/RSA.java:88 | for p = 103, q = 53 and e = 17, where 17 divides p − 1, modInverse fails as not invertible |
| TwosComplement.ToBytes | src/stephenx/RSAAuthenticationDemo/RSA.java:35 | toByteArray gives a non-empty encoding that reads back as the same integer |
| TwosComplement.ToBytesMinimal | src/stephenx/RSAAuthenticationDemo/RSA.java:51 | toByteArray always gives a minimal encoding |
| TwosComplement.ToBytesFromBytes | src/stephenx/RSAAuthenticationDemo/RSA.java:97 | reading bytes and writing them back gives the same bytes exactly when the input was minimal |
| TwosComplement.FromBytesIsTwosComplement | src/stephenx/RSAAuthenticationDemo/RSA.java:32 | the value read is the unsigned big-endian value, less 256^length when the sign bit is set |
| TwosComplement.FromBytesSign | src/stephenx/RSAAuthenticationDemo/RSA.java:48 | the value read is non-negative exactly when the first byte's sign bit is clear |
| TwosComplement.MinimalUnique | src/stephenx/RSAAuthenticationDemo/RSA.java:35 | a minimal encoding is the only minimal encoding of its value |
| TwosComplement.ToBytesSign | src/stephenx/RSAAuthenticationDemo/RSA.java:35 | a value is non-negative exactly when its encoding's first byte has the sign bit clear |

## Left out

- `PasswordHash.java` is not part of this model. It consists of calls into
  SHA-256, Base64, `SecureRandom` and console I/O.
- Random prime generation (`new BigInteger(128, 100, rnd)`) is not modelled.
  It is a probabilistic primality test driven by `java.util.Random`. The
  primes are inputs, and `IsPrime` is a precondition where primality matters.
- The console output of `main` is not modelled. Neither is the conversion
  between `String` and bytes (`getBytes()`, `new String(...)`), which depends
  on the platform charset. Content is taken as bytes.
- Bytes are modelled as their bit patterns 0..255, where Java holds them as
  signed bytes −128..127.
- `BigInteger.ModPow`: Java's internal algorithm (windowed or Montgomery
  exponentiation) is not reproduced. The model uses plain square-and-multiply,
  which returns the same value.
- `RSA.RsaIdentity`, `RSA.DecryptInvertsEncrypt` and the round-trip lemmas
  require p ≠ q. `main` can draw the same prime twice. The model's key for
  p = q is still the key `main` computes. Only the round-trip theorem is not
  claimed for it, since RSA decryption is not correct in that case.
- Key generation follows the code, not a retry-on-failure design. If 65537
  is not coprime to φ, `modInverse` throws and `main` stops. The model returns
  `Failure(NotInvertible)` (`RSA.KeyGen`, `RSA.KeyGenFailsIff`).
- Messages that are too large are not rejected. The code has no
  message-must-be-below-n check. A message M ≥ n, or a negative one from
  content whose first byte has the sign bit set, is reduced modulo n.
  `RSA.DecryptEncrypt` states this and `RSA.RoundTripExactly` gives the
  exact condition.
- The byte codec follows the code: it is two's complement with minimal
  length, not unsigned big-endian. Reading bytes and writing them back
  preserves every minimal encoding, negative ones included. Leading
  sign-extension bytes that are not minimal are dropped.
- `TwosComplement.FromBytes` requires non-empty input. The empty array, where
  Java throws `NumberFormatException`, is handled one level up:
  `RSA.Encrypt` and `RSA.Decrypt` return `Failure(ZeroLengthBytes)`.
