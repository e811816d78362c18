/**
 * Unsigned big-endian byte strings and the naturals they denote: the
 * conversions `BigInt::from_bytes_be(Plus, ..)` and a fixed-width
 * `to_bytes_be`, on non-negative values.
 */
module BigEndian {

  /** One byte (`u8`). */
  type Byte = x: nat | x < 256

  /** 256 to the power `n`: one more than the largest value `n` bytes hold. */
  function Pow256(n: nat): (r: nat)
    ensures r > 0
  {
    if n == 0 then 1 else 256 * Pow256(n - 1)
  }

  /** `n` zero bytes. */
  function Zeros(n: nat): (z: seq<Byte>)
    ensures |z| == n
    ensures forall k :: 0 <= k < n ==> z[k] == 0
  {
    seq(n, _ => 0)
  }

  /**
   * The natural whose big-endian representation is `s`; the last byte is
   * least significant. A string of `|s|` bytes denotes a value below 256^|s|.
   */
  function FromBytes(s: seq<Byte>): (n: nat)
    ensures n < Pow256(|s|)
  {
    if s == [] then 0 else FromBytes(s[..|s| - 1]) * 256 + s[|s| - 1]
  }

  /** The `len` least significant bytes of `n`, most significant first. */
  function ToBytes(n: nat, len: nat): (s: seq<Byte>)
    ensures |s| == len
  {
    if len == 0 then [] else ToBytes(n / 256, len - 1) + [n % 256]
  }

  lemma {:induction false} PowAdd(a: nat, b: nat)
    ensures Pow256(a + b) == Pow256(a) * Pow256(b)
  {
    if b > 0 {
      PowAdd(a, b - 1);
    }
  }

  /** 256^31 = 2^248, the bound of a 31-byte payload. */
  lemma Pow256Of31()
    ensures Pow256(31) == 452312848583266388373324160190187140051835877600158453279131187530910662656
  {
    assert Pow256(8) == 18446744073709551616;
    assert Pow256(7) == 72057594037927936;
    PowAdd(8, 8);
    PowAdd(16, 8);
    PowAdd(24, 7);
  }

  /** Leading zero bytes do not change the value. */
  lemma {:induction false} FromBytesLeadingZero(s: seq<Byte>)
    ensures FromBytes([0] + s) == FromBytes(s)
  {
    if s != [] {
      var t := [0] + s;
      assert t[..|t| - 1] == [0] + s[..|s| - 1];
      FromBytesLeadingZero(s[..|s| - 1]);
    }
  }

  /** All-zero strings denote zero. */
  lemma {:induction false} FromBytesZeros(n: nat)
    ensures FromBytes(Zeros(n)) == 0
  {
    if n > 0 {
      assert Zeros(n)[..n - 1] == Zeros(n - 1);
      FromBytesZeros(n - 1);
    }
  }

  /** Reading back the bytes of a value at its own width gives the bytes. */
  lemma {:induction false} ToBytesFromBytes(s: seq<Byte>)
    ensures ToBytes(FromBytes(s), |s|) == s
  {
    if s != [] {
      var init := s[..|s| - 1];
      var n := FromBytes(s);
      assert n / 256 == FromBytes(init) && n % 256 == s[|s| - 1];
      ToBytesFromBytes(init);
      assert s == init + [s[|s| - 1]];
    }
  }

  /** A value that fits in `len` bytes is recovered from its `len`-byte representation. */
  lemma {:induction false} FromBytesToBytes(n: nat, len: nat)
    requires n < Pow256(len)
    ensures FromBytes(ToBytes(n, len)) == n
  {
    if len > 0 {
      var s := ToBytes(n, len);
      assert s[..len - 1] == ToBytes(n / 256, len - 1);
      FromBytesToBytes(n / 256, len - 1);
    }
  }
}
