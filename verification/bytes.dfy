/** Fixed-width integers, little-endian packing, hexadecimal digits and bit
    counting shared by the host harness and the firmware models. */
module Bytes {
  import opened Wrappers

  type u8 = x: int | 0 <= x < 0x100
  type u16 = x: int | 0 <= x < 0x1_0000
  type u32 = x: int | 0 <= x < 0x1_0000_0000
  type u64 = x: int | 0 <= x < 0x1_0000_0000_0000_0000
  type i16 = x: int | -0x8000 <= x < 0x8000
  type i32 = x: int | -0x8000_0000 <= x < 0x8000_0000

  function Pow2(n: nat): (r: nat)
    ensures r >= 1
  {
    if n == 0 then 1 else 2 * Pow2(n - 1)
  }

  function Pow256(n: nat): (r: nat)
    ensures r >= 1
  {
    if n == 0 then 1 else 256 * Pow256(n - 1)
  }

  lemma Pow256Values()
    ensures Pow256(1) == 0x100 && Pow256(2) == 0x1_0000 && Pow256(3) == 0x100_0000
    ensures Pow256(4) == 0x1_0000_0000 && Pow256(5) == 0x100_0000_0000
    ensures Pow256(8) == 0x1_0000_0000_0000_0000
  {
  }

  /** The n-byte little-endian image of x, least significant byte first. */
  function LE(x: nat, n: nat): (r: seq<u8>)
    requires x < Pow256(n)
    ensures |r| == n
  {
    if n == 0 then [] else [x % 256] + LE(x / 256, n - 1)
  }

  /** The unsigned value of a little-endian byte string. */
  function FromLE(s: seq<u8>): (r: nat)
    ensures r < Pow256(|s|)
  {
    if |s| == 0 then 0 else s[0] + 256 * FromLE(s[1..])
  }

  /** Decoding an encoded value gives the value back. */
  lemma {:induction false} FromLEOfLE(x: nat, n: nat)
    requires x < Pow256(n)
    ensures FromLE(LE(x, n)) == x
  {
    if n > 0 {
      FromLEOfLE(x / 256, n - 1);
      assert LE(x, n)[1..] == LE(x / 256, n - 1);
    }
  }

  /** Encoding a decoded byte string gives the byte string back. */
  lemma {:induction false} LEOfFromLE(s: seq<u8>)
    ensures LE(FromLE(s), |s|) == s
  {
    if |s| > 0 {
      LEOfFromLE(s[1..]);
      assert FromLE(s) % 256 == s[0];
      assert FromLE(s) / 256 == FromLE(s[1..]);
    }
  }

  /** Two encodings of the same width are equal only for equal values. */
  lemma LEInjective(x: nat, y: nat, n: nat)
    requires x < Pow256(n) && y < Pow256(n)
    requires LE(x, n) == LE(y, n)
    ensures x == y
  {
    FromLEOfLE(x, n);
    FromLEOfLE(y, n);
  }

  /** Little-endian 16-bit field, as struct format "<H" packs it. */
  function U16(x: u16): (r: seq<u8>)
    ensures |r| == 2 && FromLE(r) == x
    ensures r[0] == x % 256 && r[1] == x / 256
  {
    Pow256Values();
    FromLEOfLE(x, 2);
    LE(x, 2)
  }

  /** Little-endian 32-bit field, struct format "<L". */
  function U32(x: u32): (r: seq<u8>)
    ensures |r| == 4 && FromLE(r) == x
  {
    Pow256Values();
    FromLEOfLE(x, 4);
    LE(x, 4)
  }

  /** Little-endian 64-bit field, struct format "<Q". */
  function U64(x: u64): (r: seq<u8>)
    ensures |r| == 8 && FromLE(r) == x
  {
    Pow256Values();
    FromLEOfLE(x, 8);
    LE(x, 8)
  }

  /** The unsigned little-endian field of n bytes at offset off. */
  function Field(s: seq<u8>, off: nat, n: nat): (r: nat)
    requires off + n <= |s|
    ensures r < Pow256(n)
  {
    FromLE(s[off..off + n])
  }

  /** Two's-complement reading of a 16-bit pattern (struct format "<h"). */
  function I16Of(x: u16): (r: i16)
    ensures 0 <= r ==> r == x
    ensures r < 0 ==> r + 0x1_0000 == x
  {
    if x < 0x8000 then x else x - 0x1_0000
  }

  /** The 16-bit pattern of a signed value, the inverse of I16Of. */
  function U16Of(v: i16): (r: u16)
    ensures I16Of(r) == v
  {
    if v < 0 then v + 0x1_0000 else v
  }

  /** Two's-complement reading of a 32-bit pattern (struct format "<i"). */
  function I32Of(x: u32): (r: i32)
    ensures 0 <= r ==> r == x
    ensures r < 0 ==> r + 0x1_0000_0000 == x
  {
    if x < 0x8000_0000 then x else x - 0x1_0000_0000
  }

  /** The 32-bit pattern of a signed value, the inverse of I32Of. */
  function U32Of(v: i32): (r: u32)
    ensures I32Of(r) == v
  {
    if v < 0 then v + 0x1_0000_0000 else v
  }

  /** C's signed division, truncating toward zero. */
  function TruncDiv(a: int, d: nat): (q: int)
    requires d > 0
    ensures a >= 0 ==> q * d <= a < (q + 1) * d
    ensures a < 0 ==> (q - 1) * d < a <= q * d
  {
    if a >= 0 then a / d else -((-a) / d)
  }

  /** C's conversion of an integer to int16_t (GCC keeps the low 16 bits,
      read as two's complement): the value in range congruent to v. */
  function ToI16(v: int): (r: i16)
    ensures (v - r) % 0x1_0000 == 0
    ensures -0x8000 <= v < 0x8000 ==> r == v
  {
    I16Of(v % 0x1_0000)
  }

  /** C's conversion of an integer to int32_t. */
  function ToI32(v: int): (r: i32)
    ensures (v - r) % 0x1_0000_0000 == 0
    ensures -0x8000_0000 <= v < 0x8000_0000 ==> r == v
  {
    I32Of(v % 0x1_0000_0000)
  }

  /** C's conversion of an integer to uint32_t. */
  function ToU32(v: int): (r: u32)
    ensures (v - r) % 0x1_0000_0000 == 0
    ensures 0 <= v < 0x1_0000_0000 ==> r == v
  {
    v % 0x1_0000_0000
  }

  /** An uppercase hexadecimal digit, as "%02X" and the firmware's digit
      table "0123456789ABCDEF" print it. */
  function HexChar(n: nat): (c: char)
    requires n < 16
    ensures HexValue(c) == Some(n)
    ensures c == "0123456789ABCDEF"[n]
  {
    if n < 10 then (48 + n) as char else (55 + n) as char
  }

  /** The value of a hexadecimal digit in either case; None for any other
      character. */
  function HexValue(c: char): (r: Option<nat>)
    ensures r.Some? ==> r.value < 16
    ensures r.Some? <==> ('0' <= c <= '9' || 'a' <= c <= 'f' || 'A' <= c <= 'F')
  {
    if '0' <= c <= '9' then Some(c as int - '0' as int)
    else if 'a' <= c <= 'f' then Some(c as int - 'a' as int + 10)
    else if 'A' <= c <= 'F' then Some(c as int - 'A' as int + 10)
    else None
  }

  /** Two uppercase hex digits of a byte, high nibble first ("%02X"). */
  function HexByte(b: u8): (r: string)
    ensures |r| == 2
    ensures HexValue(r[0]) == Some(b / 16) && HexValue(r[1]) == Some(b % 16)
  {
    [HexChar(b / 16), HexChar(b % 16)]
  }

  /** Every byte as two uppercase hex digits, in order. */
  function HexString(s: seq<u8>): (r: string)
    ensures |r| == 2 * |s|
  {
    if |s| == 0 then "" else HexByte(s[0]) + HexString(s[1..])
  }

  /** Byte i of the input is characters 2i and 2i+1 of its hex text. */
  lemma {:induction false} HexStringAt(s: seq<u8>, i: nat)
    requires i < |s|
    ensures HexString(s)[2 * i..2 * i + 2] == HexByte(s[i])
    decreases i
  {
    if i > 0 {
      HexStringAt(s[1..], i - 1);
      assert HexString(s) == HexByte(s[0]) + HexString(s[1..]);
    }
  }

  /** Hex-encoding distributes over concatenation. */
  lemma {:induction false} HexStringAppend(a: seq<u8>, b: seq<u8>)
    ensures HexString(a + b) == HexString(a) + HexString(b)
  {
    if |a| > 0 {
      assert (a + b)[1..] == a[1..] + b;
      HexStringAppend(a[1..], b);
    } else {
      assert a + b == b;
    }
  }

  /** Euclidean division of a * k + b by k when b < k. */
  lemma DivMul(a: nat, b: nat, k: nat)
    requires b < k
    ensures (a * k + b) / k == a && (a * k + b) % k == b
  {
    var q := (a * k + b) / k;
    var r := (a * k + b) % k;
    assert (q - a) * k == b - r;
    MulAtLeast(q - a, k);
    MulAtLeast(a - q, k);
  }

  lemma MulAtLeast(d: int, k: int)
    ensures d >= 1 && k >= 0 ==> d * k >= k
  {
    if d >= 1 && k >= 0 {
      assert d * k == (d - 1) * k + k;
    }
  }

  /** Bit i of x. */
  predicate Bit(x: nat, i: nat) {
    (x / Pow2(i)) % 2 == 1
  }

  /** The number of set bits of x among positions 0 .. n-1. */
  function PopCount(x: nat, n: nat): (r: nat)
    ensures r <= n
  {
    if n == 0 then 0 else PopCount(x, n - 1) + (if Bit(x, n - 1) then 1 else 0)
  }

  /** The set positions of x below n. */
  function BitsBelow(x: nat, n: nat): set<nat> {
    set j: nat | j < n && Bit(x, j)
  }

  /** PopCount counts exactly the set positions below n. */
  lemma {:induction false} PopCountCounts(x: nat, n: nat)
    ensures PopCount(x, n) == |BitsBelow(x, n)|
  {
    if n > 0 {
      PopCountCounts(x, n - 1);
      var below := BitsBelow(x, n - 1);
      assert n - 1 !in below;
      if Bit(x, n - 1) {
        assert BitsBelow(x, n) == below + {n - 1};
        assert |below + {n - 1}| == |below| + 1;
      } else {
        assert BitsBelow(x, n) == below;
      }
    }
  }

  /** Counting more positions never gives a smaller count. */
  lemma {:induction false} PopCountMonotone(x: nat, m: nat, n: nat)
    requires m <= n
    ensures PopCount(x, m) <= PopCount(x, n)
    decreases n - m
  {
    if m < n {
      PopCountMonotone(x, m, n - 1);
    }
  }

  /** Set bits have distinct ranks: the rank of a lower set bit is smaller. */
  lemma PopCountStrict(x: nat, j: nat, k: nat)
    requires j < k && Bit(x, j)
    ensures PopCount(x, j) < PopCount(x, k)
  {
    PopCountMonotone(x, j + 1, k);
  }

  /** When bits 0 to n - 1 are all set, the rank of position j <= n is j. */
  lemma {:induction false} PopCountLowBits(x: nat, n: nat, j: nat)
    requires forall i :: 0 <= i < n ==> Bit(x, i)
    requires j <= n
    ensures PopCount(x, j) == j
  {
    if j > 0 {
      PopCountLowBits(x, n, j - 1);
    }
  }
}
