/** The byte conversions of java.math.BigInteger: the constructor
    BigInteger(byte[]) reads big-endian two's complement, and toByteArray()
    writes the shortest big-endian two's-complement encoding (at least one byte). */
module TwosComplement {
  import opened Powers

  /** The bit pattern of one Java byte, read as 0..255. */
  type Byte = x: int | 0 <= x < 256

  /** The two's-complement value of a non-empty big-endian byte sequence. */
  function FromBytes(s: seq<Byte>): int
    requires |s| > 0
    decreases |s|
  {
    if |s| == 1 then (if s[0] < 128 then s[0] else s[0] - 256)
    else 256 * FromBytes(s[..|s| - 1]) + s[|s| - 1]
  }

  /** The unsigned big-endian value of a byte sequence. */
  function Unsigned(s: seq<Byte>): nat
    decreases |s|
  {
    if |s| == 0 then 0 else 256 * Unsigned(s[..|s| - 1]) + s[|s| - 1]
  }

  /** No leading byte is a redundant sign extension of the byte after it. */
  predicate Minimal(s: seq<Byte>)
  {
    |s| > 0 && (|s| == 1 || (!(s[0] == 0 && s[1] < 128) && !(s[0] == 255 && s[1] >= 128)))
  }

  /** The shortest two's-complement encoding of x. */
  function ToBytes(x: int): (r: seq<Byte>)
    ensures |r| > 0 && FromBytes(r) == x
    decreases if x < 0 then -x else x
  {
    if -128 <= x < 128 then [x % 256]
    else
      var r := ToBytes(x / 256) + [x % 256];
      assert r[..|r| - 1] == ToBytes(x / 256);
      r
  }

  /** The two's-complement reading: the unsigned value, less 256^|s| when the
      sign bit of the first byte is set. */
  lemma {:induction false} FromBytesIsTwosComplement(s: seq<Byte>)
    requires |s| > 0
    ensures FromBytes(s) == Unsigned(s) - (if s[0] >= 128 then Pow(256, |s|) else 0)
    decreases |s|
  {
    if |s| == 1 {
      assert s[..0] == [];
    } else {
      var init := s[..|s| - 1];
      FromBytesIsTwosComplement(init);
      assert init[0] == s[0];
      assert Pow(256, |s|) == 256 * Pow(256, |init|);
    }
  }

  /** The value read is non-negative exactly when the sign bit is clear. */
  lemma {:induction false} FromBytesSign(s: seq<Byte>)
    requires |s| > 0
    ensures FromBytes(s) >= 0 <==> s[0] < 128
    decreases |s|
  {
    if |s| > 1 {
      var init := s[..|s| - 1];
      FromBytesSign(init);
      assert init[0] == s[0];
    }
  }

  /** A minimal encoding longer than one byte holds a value outside [-128, 128). */
  lemma {:induction false} MinimalIsWide(s: seq<Byte>)
    requires Minimal(s) && |s| >= 2
    ensures FromBytes(s) < -128 || FromBytes(s) >= 128
    decreases |s|
  {
    var init := s[..|s| - 1];
    if |s| > 2 {
      assert init[0] == s[0] && init[1] == s[1];
      MinimalIsWide(init);
    }
  }

  /** toByteArray always yields a minimal encoding. */
  lemma {:induction false} ToBytesMinimal(x: int)
    ensures Minimal(ToBytes(x))
    decreases if x < 0 then -x else x
  {
    if !(-128 <= x < 128) {
      var r := ToBytes(x);
      var y := x / 256;
      ToBytesMinimal(y);
      assert r == ToBytes(y) + [x % 256];
      if |ToBytes(y)| == 1 {
        assert ToBytes(y) == [y % 256];
      }
    }
  }

  /** Reading back an encoding produced by toByteArray gives that encoding again
      exactly when the bytes read were minimal. */
  lemma {:induction false} ToBytesFromBytes(s: seq<Byte>)
    requires |s| > 0
    ensures ToBytes(FromBytes(s)) == s <==> Minimal(s)
    decreases |s|
  {
    if Minimal(s) {
      if |s| == 1 {
        assert ToBytes(FromBytes(s)) == [s[0]];
      } else {
        var init := s[..|s| - 1];
        var x := FromBytes(s);
        MinimalIsWide(s);
        assert x == 256 * FromBytes(init) + s[|s| - 1];
        ModUnique(x, 256, FromBytes(init), s[|s| - 1]);
        if |init| >= 2 {
          assert init[0] == s[0] && init[1] == s[1];
        }
        ToBytesFromBytes(init);
        assert s == init + [s[|s| - 1]];
      }
    } else {
      ToBytesMinimal(FromBytes(s));
    }
  }

  /** A minimal encoding is the only minimal encoding of its value. */
  lemma MinimalUnique(s: seq<Byte>, x: int)
    requires Minimal(s) && FromBytes(s) == x
    ensures s == ToBytes(x)
  {
    ToBytesFromBytes(s);
  }

  /** A non-negative value encodes with a clear sign bit, a negative one with a set one. */
  lemma ToBytesSign(x: int)
    ensures x >= 0 <==> ToBytes(x)[0] < 128
  {
    FromBytesSign(ToBytes(x));
  }
}
