/**
 Bytes, unsigned 64-bit integers and their little-endian byte encoding,
 as used by `u64::to_le_bytes` and `u64::from_le_bytes`.
 */
module Bytes {

  /** An octet, `u8`. */
  type Byte = b: int | 0 <= b < 256

  /** 2^64, the number of distinct `u64` values. */
  const U64_LIMIT: nat := 0x1_0000_0000_0000_0000

  /** A `u64`. */
  type U64 = n: int | 0 <= n < U64_LIMIT

  /** Number of bytes in the encoding of a `u64`. */
  const U64_BYTES: nat := 8

  function Pow256(k: nat): (r: nat)
    ensures r > 0
  {
    if k == 0 then 1 else 256 * Pow256(k - 1)
  }

  /** The `width` low-order bytes of `n`, least significant first. */
  function LeEncode(n: nat, width: nat): (b: seq<Byte>)
    ensures |b| == width
  {
    if width == 0 then [] else [n % 256] + LeEncode(n / 256, width - 1)
  }

  /** The number whose little-endian bytes are `b`. */
  function LeDecode(b: seq<Byte>): (n: nat)
    ensures n < Pow256(|b|)
  {
    if |b| == 0 then 0
    else
      var rest := LeDecode(b[1..]);
      assert rest <= Pow256(|b| - 1) - 1;
      assert 256 * rest <= 256 * Pow256(|b| - 1) - 256;
      b[0] + 256 * rest
  }

  /** Decoding undoes encoding for every number that fits in `width` bytes. */
  lemma {:induction false} DecodeEncode(n: nat, width: nat)
    requires n < Pow256(width)
    ensures LeDecode(LeEncode(n, width)) == n
  {
    if width > 0 {
      var b := LeEncode(n, width);
      assert n / 256 < Pow256(width - 1);
      DecodeEncode(n / 256, width - 1);
      assert b[1..] == LeEncode(n / 256, width - 1);
    }
  }

  /** Encoding undoes decoding: every byte string is the encoding of its value. */
  lemma {:induction false} EncodeDecode(b: seq<Byte>)
    ensures LeEncode(LeDecode(b), |b|) == b
  {
    if |b| > 0 {
      var rest := LeDecode(b[1..]);
      var n := LeDecode(b);
      assert n == b[0] + 256 * rest;
      assert n % 256 == b[0];
      assert n / 256 == rest;
      EncodeDecode(b[1..]);
    }
  }

  lemma {:induction false} MulMonotone(d: nat, x: nat, y: nat)
    requires x <= y
    ensures d * x <= d * y
  {
    if x < y {
      MulMonotone(d, x, y - 1);
      assert d * y == d * (y - 1) + d;
    }
  }

  lemma MulStep(d: nat, x: nat, y: nat)
    ensures x < y ==> d * x + d <= d * y
  {
    if x < y {
      assert d * (x + 1) == d * x + d;
      MulMonotone(d, x + 1, y);
    }
  }

  /** Integer division is determined by any quotient/remainder pair. */
  lemma DivUnique(n: nat, d: nat, q: nat, r: nat)
    requires d > 0 && r < d && n == d * q + r
    ensures n / d == q
  {
    var q' := n / d;
    assert n == d * q' + n % d;
    MulStep(d, q', q);
    MulStep(d, q, q');
  }

  lemma Regroup(a: nat, b: nat, q: nat, r1: nat, r2: nat)
    requires r1 < a && r2 < b
    ensures a * (b * q + r2) + r1 == (a * b) * q + (a * r2 + r1)
    ensures a * r2 + r1 < a * b
  {
    assert a * (b * q + r2) == a * (b * q) + a * r2;
    assert a * (b * q) == (a * b) * q;
    MulMonotone(a, r2, b - 1);
    assert a * (b - 1) == a * b - a;
  }

  lemma DivDiv(n: nat, a: nat, b: nat)
    requires a > 0 && b > 0
    ensures n / a / b == n / (a * b)
  {
    var m := n / a;
    var q := m / b;
    assert n == a * m + n % a;
    assert m == b * q + m % b;
    Regroup(a, b, q, n % a, m % b);
    DivUnique(n, a * b, q, a * (m % b) + n % a);
  }

  /** Byte `i` of the encoding is the `i`-th base-256 digit of `n`: `(n >> 8i) & 0xff`. */
  lemma {:induction false} LeEncodeDigit(n: nat, width: nat, i: nat)
    requires i < width
    ensures LeEncode(n, width)[i] == (n / Pow256(i)) % 256
  {
    if i > 0 {
      LeEncodeDigit(n / 256, width - 1, i - 1);
      DivDiv(n, 256, Pow256(i - 1));
    }
  }

  lemma Pow256Eight()
    ensures Pow256(U64_BYTES) == U64_LIMIT
  {
    assert Pow256(4) == 0x1_0000_0000;
  }

  /** `u64::to_le_bytes`. */
  function ToLeBytes(n: U64): (b: seq<Byte>)
    ensures |b| == U64_BYTES
  {
    LeEncode(n, U64_BYTES)
  }

  /** `u64::from_le_bytes`. */
  function FromLeBytes(b: seq<Byte>): (n: U64)
    requires |b| == U64_BYTES
  {
    Pow256Eight();
    LeDecode(b)
  }

  /** Byte `i` of `to_le_bytes(n)` is bits `8i .. 8i+7` of `n`. */
  lemma ToLeBytesDigits(n: U64)
    ensures forall i :: 0 <= i < U64_BYTES ==> ToLeBytes(n)[i] == (n / Pow256(i)) % 256
  {
    forall i | 0 <= i < U64_BYTES
      ensures ToLeBytes(n)[i] == (n / Pow256(i)) % 256
    {
      LeEncodeDigit(n, U64_BYTES, i);
    }
  }

  /** `from_le_bytes(to_le_bytes(n)) == n` for every `u64`. */
  lemma FromToLeBytes(n: U64)
    ensures FromLeBytes(ToLeBytes(n)) == n
  {
    Pow256Eight();
    DecodeEncode(n, U64_BYTES);
  }

  /** `to_le_bytes(from_le_bytes(b)) == b` for every 8-byte array. */
  lemma ToFromLeBytes(b: seq<Byte>)
    requires |b| == U64_BYTES
    ensures ToLeBytes(FromLeBytes(b)) == b
  {
    EncodeDecode(b);
  }

  /** Distinct numbers have distinct encodings. */
  lemma ToLeBytesInjective(m: U64, n: U64)
    requires ToLeBytes(m) == ToLeBytes(n)
    ensures m == n
  {
    FromToLeBytes(m);
    FromToLeBytes(n);
  }
}
