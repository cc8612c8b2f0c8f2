/** Bytes, and the little-endian fixed-width integers the index file stores. */
module Bytes {

  /** One byte of text or of a file. Text is handled as raw bytes, ordered as
      unsigned values (the order `std::string::compare` uses). */
  type byte = x: int | 0 <= x < 256

  /** Two to the power `k`. */
  function Pow2(k: nat): (r: nat)
    ensures r >= 1
  {
    if k == 0 then 1 else 2 * Pow2(k - 1)
  }

  /** The `n` bytes of `x` in little-endian order (the host order of a
      little-endian machine writing raw memory). */
  function LittleEndian(x: nat, n: nat): (r: seq<byte>)
    ensures |r| == n
  {
    if n == 0 then [] else [x % 256] + LittleEndian(x / 256, n - 1)
  }

  /** The unsigned value of little-endian bytes. */
  function FromLittleEndian(s: seq<byte>): nat
  {
    if s == [] then 0 else s[0] + 256 * FromLittleEndian(s[1..])
  }

  /** Reading back `n` little-endian bytes gives the value modulo 256^n. */
  lemma {:induction false} LittleEndianRoundTrip(x: nat, n: nat)
    ensures FromLittleEndian(LittleEndian(x, n)) == x % Pow2(8 * n)
  {
    if n > 0 {
      LittleEndianRoundTrip(x / 256, n - 1);
      var r := LittleEndian(x, n);
      assert r[1..] == LittleEndian(x / 256, n - 1);
      var m := Pow2(8 * (n - 1));
      Pow2Add(8, 8 * (n - 1));
      assert Pow2(8) == 256;
      DivModNest(x, 256, m);
    }
  }

  lemma {:induction false} Pow2Add(a: nat, b: nat)
    ensures Pow2(a + b) == Pow2(a) * Pow2(b)
  {
    if a > 0 { Pow2Add(a - 1, b); }
  }

  /** x % (b·m) == x % b + b · ((x / b) % m). */
  lemma DivModNest(x: nat, b: nat, m: nat)
    requires b > 0 && m > 0
    ensures x % (b * m) == x % b + b * ((x / b) % m)
  {
    var q, r := x / b, x % b;
    var q2, r2 := q / m, q % m;
    Distribute(b, m, q2, r2);
    assert x == (b * m) * q2 + (b * r2 + r);
    MulLeq(b, r2, m - 1);
    Distribute(b, 1, m - 1, 1);
    DivModUnique(x, b * m, q2, b * r2 + r);
  }

  lemma Distribute(b: int, m: int, q: int, r: int)
    ensures b * (m * q + r) == (b * m) * q + b * r
  {
  }

  lemma MulLeq(b: nat, u: nat, v: nat)
    requires u <= v
    ensures b * u <= b * v
  {
    Distribute(b, 1, u, v - u);
  }

  lemma DivModUnique(x: nat, d: nat, q: int, r: int)
    requires d > 0 && x == d * q + r && 0 <= r < d
    ensures x % d == r
  {
    var q0, r0 := x / d, x % d;
    assert d * q0 + r0 == d * q + r;
    assert d * (q0 - q) == r - r0;
    if q0 != q {
      MulAtLeast(d, q0 - q);
    }
  }

  lemma MulAtLeast(d: int, k: int)
    requires d > 0 && k != 0
    ensures d * k >= d || d * k <= -d
  {
    if k > 0 { MulPositive(d, k); } else { MulPositive(d, -k); assert d * k == -(d * -k); }
  }

  lemma {:induction false} MulPositive(d: int, k: int)
    requires d > 0 && k > 0
    ensures d * k >= d
  {
    if k > 1 {
      MulPositive(d, k - 1);
      assert d * k == d * (k - 1) + d;
    }
  }

  /** A 32-bit two's-complement `int` as its unsigned bit pattern. */
  function Int32Bits(x: int): nat
    requires -0x8000_0000 <= x < 0x8000_0000
  {
    if x >= 0 then x else x + 0x1_0000_0000
  }

  /** The signed value of a 32-bit pattern. */
  function Int32FromBits(u: nat): int
  {
    if u < 0x8000_0000 then u else u - 0x1_0000_0000
  }

  /** `sizeof(int)` little-endian bytes of an `int`. */
  function Int32Bytes(x: int): seq<byte>
    requires -0x8000_0000 <= x < 0x8000_0000
  {
    LittleEndian(Int32Bits(x), 4)
  }

  /** `sizeof(size_t)` little-endian bytes of a `size_t`. */
  function U64Bytes(x: nat): seq<byte>
  {
    LittleEndian(x, 8)
  }

  /** An `int` written and read back is unchanged. */
  lemma Int32RoundTrip(x: int)
    requires -0x8000_0000 <= x < 0x8000_0000
    ensures |Int32Bytes(x)| == 4
    ensures Int32FromBits(FromLittleEndian(Int32Bytes(x))) == x
  {
    var u := Int32Bits(x);
    LittleEndianRoundTrip(u, 4);
    Pow2Value32();
    DivModUnique(u, Pow2(8 * 4), 0, u);
  }

  /** A `size_t` below 2^64 written and read back is unchanged. */
  lemma U64RoundTrip(x: nat)
    requires x < 0x1_0000_0000_0000_0000
    ensures |U64Bytes(x)| == 8
    ensures FromLittleEndian(U64Bytes(x)) == x
  {
    LittleEndianRoundTrip(x, 8);
    Pow2Value64();
    DivModUnique(x, Pow2(8 * 8), 0, x);
  }

  lemma Pow2Value32()
    ensures Pow2(32) == 0x1_0000_0000
  {
    Pow2Add(16, 16);
    Pow2Add(8, 8);
    assert Pow2(8) == 256;
  }

  lemma Pow2Value64()
    ensures Pow2(64) == 0x1_0000_0000_0000_0000
  {
    Pow2Add(32, 32);
    Pow2Value32();
  }
}
