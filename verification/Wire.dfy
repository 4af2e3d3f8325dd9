/**
 The wire primitives of the Protocol Buffers encoding guide: base 128 varints,
 fixed-width little-endian integers, the sign extension of int32, and the two
 size formulas of the C++ runtime.
 */
module Wire {
  import opened Wrappers

  const TWO_31: int := 0x8000_0000
  const TWO_32: int := 0x1_0000_0000
  const TWO_64: int := 0x1_0000_0000_0000_0000

  type byte = n: int | 0 <= n < 256
  type bytes = seq<byte>
  type uint32 = n: int | 0 <= n < 0x1_0000_0000
  type uint64 = n: int | 0 <= n < 0x1_0000_0000_0000_0000
  type int32 = n: int | -0x8000_0000 <= n < 0x8000_0000

  /** A part of a part of a buffer. */
  lemma SliceOfSlice(b: bytes, start: nat, limit: nat, i: nat, j: nat)
    requires start <= limit <= |b| && i <= j <= limit - start
    ensures b[start..limit][i..j] == b[start + i..start + j]
  {
    var x, y := b[start..limit][i..j], b[start + i..start + j];
    assert |x| == |y|;
    forall k | 0 <= k < |x| ensures x[k] == y[k] {
      assert x[k] == b[start..limit][i + k] == b[start + i + k] == y[k];
    }
  }

  // ---------------------------------------------------------------- varints

  /** The shortest base 128 encoding, least significant group first. */
  function VarintBytes(n: nat): (b: bytes)
    ensures |b| >= 1
  {
    if n < 128 then [n] else [128 + n % 128] + VarintBytes(n / 128)
  }

  /** A varint read off the front of a byte string: its value and its length. */
  datatype Varint = Varint(value: nat, size: nat)

  /** Reads a varint of at most `limit` bytes. The value is not truncated here. */
  function ReadVarint(b: bytes, limit: nat): (r: Option<Varint>)
    ensures r.Some? ==> 1 <= r.value.size <= |b| && r.value.size <= limit
  {
    if limit == 0 || b == [] then None
    else if b[0] < 128 then Some(Varint(b[0], 1))
    else
      match ReadVarint(b[1..], limit - 1)
      case None => None
      case Some(v) => Some(Varint(b[0] - 128 + 128 * v.value, v.size + 1))
  }

  /** Reading undoes writing, whatever follows. */
  lemma {:induction false} ReadVarintBytes(n: nat, rest: bytes, limit: nat)
    requires |VarintBytes(n)| <= limit
    ensures ReadVarint(VarintBytes(n) + rest, limit) == Some(Varint(n, |VarintBytes(n)|))
  {
    var b := VarintBytes(n) + rest;
    if n >= 128 {
      assert b[1..] == VarintBytes(n / 128) + rest;
      ReadVarintBytes(n / 128, rest, limit - 1);
    }
  }

  /** A read that succeeds looks at nothing behind the varint. */
  lemma {:induction false} ReadVarintPrefix(b: bytes, rest: bytes, limit: nat)
    requires ReadVarint(b, limit).Some?
    ensures ReadVarint(b + rest, limit) == ReadVarint(b, limit)
  {
    assert (b + rest)[0] == b[0];
    if b[0] >= 128 {
      assert (b + rest)[1..] == b[1..] + rest;
      ReadVarintPrefix(b[1..], rest, limit - 1);
    }
  }

  /** A larger limit accepts the same varint; a smaller one accepts it exactly if it is short enough. */
  lemma {:induction false} ReadVarintLimit(b: bytes, small: nat, large: nat)
    requires small <= large
    ensures ReadVarint(b, small) ==
            if ReadVarint(b, large).Some? && ReadVarint(b, large).value.size <= small
            then ReadVarint(b, large) else None
  {
    if small > 0 && b != [] && b[0] >= 128 {
      ReadVarintLimit(b[1..], small - 1, large - 1);
    }
  }

  // ------------------------------------------------------------------ sizes

  /** floor(log2(n)). */
  function Log2Floor(n: nat): (k: nat)
    requires n >= 1
  {
    if n == 1 then 0 else 1 + Log2Floor(n / 2)
  }

  /** The branch-free size computation of the C++ runtime; `value | 1` avoids the logarithm of zero. */
  function VarintSize(value: nat): (size: nat) {
    (Log2Floor(OrOne(value)) * 9 + 73) / 64
  }

  function OrOne(value: nat): (r: nat)
    ensures r >= 1
  {
    if value % 2 == 0 then value + 1 else value
  }

  lemma {:induction false} Log2Shift(n: nat)
    requires n >= 128
    ensures Log2Floor(n) == 7 + Log2Floor(n / 128)
  {
    assert n / 2 / 2 / 2 / 2 / 2 / 2 / 2 == n / 128;
    assert Log2Floor(n) == 2 + Log2Floor(n / 2 / 2);
    assert Log2Floor(n / 2 / 2) == 2 + Log2Floor(n / 2 / 2 / 2 / 2);
    assert Log2Floor(n / 2 / 2 / 2 / 2) == 2 + Log2Floor(n / 2 / 2 / 2 / 2 / 2 / 2);
  }

  lemma {:induction false} Log2OrOne(n: nat)
    requires n >= 1
    ensures Log2Floor(OrOne(n)) == Log2Floor(n)
  {
    if n % 2 == 0 {
      assert (n + 1) / 2 == n / 2;
    }
  }

  lemma {:induction false} Log2Small(n: nat)
    requires 1 <= n < 128
    ensures Log2Floor(n) <= 6
  {
    assert n / 2 < 64 && n / 2 / 2 < 32 && n / 2 / 2 / 2 < 16;
    if n >= 8 {
      assert Log2Floor(n) == 2 + Log2Floor(n / 2 / 2);
      assert Log2Floor(n / 2 / 2) == 1 + Log2Floor(n / 2 / 2 / 2);
      var m := n / 2 / 2 / 2;
      if m >= 4 { assert Log2Floor(m) == 2 + Log2Floor(m / 2 / 2); }
    } else if n >= 4 {
      assert Log2Floor(n) == 2 + Log2Floor(n / 2 / 2);
    }
  }

  /** The number of bytes written is floor(log2(n)) / 7 + 1. */
  lemma {:induction false} VarintLengthLog(n: nat)
    requires n >= 1
    ensures |VarintBytes(n)| == Log2Floor(n) / 7 + 1
  {
    if n < 128 {
      Log2Small(n);
    } else {
      Log2Shift(n);
      VarintLengthLog(n / 128);
    }
  }

  lemma {:induction false} VarintLengthMonotone(m: nat, n: nat)
    requires m <= n
    ensures |VarintBytes(m)| <= |VarintBytes(n)|
  {
    if m >= 128 { VarintLengthMonotone(m / 128, n / 128); }
  }

  /** Seven bits take one byte, a uint32 at most five, a uint64 at most ten. */
  lemma VarintLengthBounds(n: nat)
    ensures n < 128 ==> |VarintBytes(n)| == 1
    ensures n < TWO_32 ==> |VarintBytes(n)| <= 5
    ensures n < TWO_64 ==> |VarintBytes(n)| <= 10
  {
    if n < TWO_32 {
      VarintFewBytes(n, 5);
    } else if n < TWO_64 {
      VarintFewBytes(n, 10);
    }
  }

  function Pow128(k: nat): (p: nat) {
    if k == 0 then 1 else 128 * Pow128(k - 1)
  }

  lemma {:induction false} VarintFewBytes(n: nat, k: nat)
    requires k >= 1 && n < Pow128(k)
    ensures |VarintBytes(n)| <= k
  {
    if n >= 128 {
      assert Pow128(1) == 128 * Pow128(0) == 128;
      VarintFewBytes(n / 128, k - 1);
    }
  }

  /** The size formula is exact on every 64-bit value. */
  lemma {:induction false} VarintSizeExact(n: nat)
    requires n < TWO_64
    ensures VarintSize(n) == |VarintBytes(n)|
  {
    if n == 0 {
      assert OrOne(0) == 1 && Log2Floor(1) == 0;
    } else {
      Log2OrOne(n);
      VarintLengthLog(n);
      VarintLengthBounds(n);
      var log := Log2Floor(n);
      var q, r := log / 7, log % 7;
      assert log * 9 + 73 == 64 * (q + 1) + (9 * r + 9 - q);
      assert q <= 9;
    }
  }

  // ----------------------------------------------------- fixed-width integers

  /** The low `count` bytes of v, least significant first. */
  function LittleEndian(v: nat, count: nat): (b: bytes)
    ensures |b| == count
  {
    if count == 0 then [] else [v % 256] + LittleEndian(v / 256, count - 1)
  }

  function FromLittleEndian(b: bytes): (v: nat) {
    if b == [] then 0 else b[0] + 256 * FromLittleEndian(b[1..])
  }

  function Pow256(k: nat): (p: nat) {
    if k == 0 then 1 else 256 * Pow256(k - 1)
  }

  lemma {:induction false} LittleEndianRoundTrip(v: nat, count: nat)
    requires v < Pow256(count)
    ensures FromLittleEndian(LittleEndian(v, count)) == v
  {
    if count > 0 {
      assert LittleEndian(v, count)[1..] == LittleEndian(v / 256, count - 1);
      LittleEndianRoundTrip(v / 256, count - 1);
    }
  }

  lemma {:induction false} FromLittleEndianBound(b: bytes)
    ensures FromLittleEndian(b) < Pow256(|b|)
  {
    if b != [] { FromLittleEndianBound(b[1..]); }
  }

  /** Byte i of a fixed-width integer holds its digit i to the base 256. */
  lemma {:induction false} LittleEndianDigits(v: nat, count: nat, i: nat)
    requires i < count
    ensures Pow256(i) >= 1 && LittleEndian(v, count)[i] == v / Pow256(i) % 256
  {
    Pow256Positive(i);
    if i > 0 {
      Pow256Positive(i - 1);
      LittleEndianDigits(v / 256, count - 1, i - 1);
      DivideTwice(v, 256, Pow256(i - 1));
    }
  }

  lemma {:induction false} Pow256Positive(k: nat)
    ensures Pow256(k) >= 1
  {
    if k > 0 { Pow256Positive(k - 1); }
  }

  /**
   Group i of a varint holds the digit i of the value to the base 128; all groups
   but the last are marked, and the last is not a superfluous zero.
   */
  lemma {:induction false} VarintDigits(n: nat, i: nat)
    requires i < |VarintBytes(n)|
    ensures Pow128(i) >= 1
    ensures VarintBytes(n)[i] % 128 == n / Pow128(i) % 128
    ensures VarintBytes(n)[i] >= 128 <==> i < |VarintBytes(n)| - 1
    ensures i > 0 && i == |VarintBytes(n)| - 1 ==> VarintBytes(n)[i] != 0
  {
    PowPositive(i);
    if i > 0 {
      PowPositive(i - 1);
      VarintDigits(n / 128, i - 1);
      DivideTwice(n, 128, Pow128(i - 1));
    }
  }

  lemma DivideTwice(n: nat, a: nat, b: nat)
    requires a > 0 && b > 0
    ensures a * b > 0 && n / a / b == n / (a * b)
  {
    var q, r := n / a / b, n / a % b;
    QuotientParts(a, b, n / a, n % a, q, r);
    MultiplyOrder(b, 1, a);
    QuotientUnique(n, a * b, q, a * r + n % a);
  }

  lemma QuotientParts(a: nat, b: nat, m: nat, s: nat, q: nat, r: nat)
    requires m == b * q + r && r < b && s < a
    ensures a * m + s == a * b * q + (a * r + s) && a * r + s < a * b
  {
    Distribute(a, b, q, r);
    Distribute(a, 1, r, 1);
    MultiplyOrder(a, r + 1, b);
  }

  lemma Distribute(a: nat, b: nat, q: nat, r: nat)
    ensures a * (b * q + r) == a * b * q + a * r
  {}

  lemma MultiplyOrder(a: nat, x: nat, y: nat)
    requires x <= y
    ensures a * x <= a * y
  {}

  lemma QuotientUnique(n: int, m: nat, q: int, r: nat)
    requires n == m * q + r && r < m
    ensures n / m == q
  {
    var k := n / m - q;
    assert n == m * (n / m) + n % m;
    assert m * (n / m) - m * q == m * k;
    if k > 0 { MultiplyOrder(m, 1, k); }
  }

  // ------------------------------------------------------------------- int32

  /** An int32 on the wire: negative values are sign-extended to 64 bits. */
  function SignExtend(v: int32): (n: uint64) {
    if v < 0 then v + TWO_64 else v
  }

  /** The low 32 bits read as two's complement. */
  function ToInt32(n: nat): (v: int32) {
    var low := n % TWO_32;
    if low < TWO_31 then low else low - TWO_32
  }

  /** The 64 bits on the wire are the two's complement of the value, and the 32 bits read are that of the int32. */
  lemma TwosComplement(v: int32, n: nat)
    ensures (SignExtend(v) - v) % TWO_64 == 0 && (n - ToInt32(n)) % TWO_32 == 0
  {
    assert n == TWO_32 * (n / TWO_32) + n % TWO_32;
  }

  lemma Int32RoundTrip(v: int32)
    ensures ToInt32(SignExtend(v)) == v
  {
    if v < 0 {
      assert TWO_64 == TWO_32 * TWO_32;
      assert (v + TWO_64) % TWO_32 == v + TWO_32;
    }
  }

  /** A negative int32 always takes ten bytes. */
  lemma NegativeInt32TakesTenBytes(v: int32)
    ensures v < 0 <==> |VarintBytes(SignExtend(v))| == 10
  {
    VarintLengthBounds(SignExtend(v));
    if v < 0 {
      assert Pow128(9) == 0x8000_0000_0000_0000;
      VarintManyBytes(SignExtend(v), 9);
    }
  }

  lemma {:induction false} VarintManyBytes(n: nat, k: nat)
    requires n >= Pow128(k)
    ensures |VarintBytes(n)| > k
  {
    if k > 0 {
      assert Pow128(k - 1) >= 1 by { PowPositive(k - 1); }
      assert n >= 128;
      VarintManyBytes(n / 128, k - 1);
    }
  }

  lemma {:induction false} PowPositive(k: nat)
    ensures Pow128(k) >= 1
  {
    if k > 0 { PowPositive(k - 1); }
  }
}
