/** Bitmaps held as natural numbers: setting and toggling one bit, the
    shift-and-count loop the firmware uses for a population count, and the
    ascending list of set bits that the firmware's "for each configured
    channel" loops visit. */
module Bits {
  import opened Bytes

  lemma {:induction false} Pow2Add(a: nat, b: nat)
    ensures Pow2(a + b) == Pow2(a) * Pow2(b)
    decreases b
  {
    if b > 0 {
      Pow2Add(a, b - 1);
      assert Pow2(a + b) == 2 * Pow2(a + b - 1);
    }
  }

  lemma {:induction false} Pow2Monotone(a: nat, b: nat)
    requires a <= b
    ensures Pow2(a) <= Pow2(b)
    decreases b
  {
    if a < b {
      Pow2Monotone(a, b - 1);
    }
  }

  /** Dividing by a and then by b is dividing by a * b. */
  lemma DivDiv(x: nat, a: nat, b: nat)
    requires a > 0 && b > 0
    ensures x / a / b == x / (a * b)
  {
    var t := x / a;
    var s := x % a;
    DivModId(x, a);
    var q := t / b;
    var r := t % b;
    DivModId(t, b);
    DivDivSplit(a, b, q, r, s);
    assert x == q * (a * b) + (a * r + s);
    DivMul(q, a * r + s, a * b);
  }

  lemma DivDivSplit(a: nat, b: nat, q: nat, r: nat, s: nat)
    requires r < b && s < a
    ensures (q * b + r) * a + s == q * (a * b) + (a * r + s)
    ensures a * r + s < a * b
  {
    assert (q * b + r) * a == q * (a * b) + a * r;
    MulMono(r + 1, b, a);
    assert (r + 1) * a == a * r + a;
  }

  /** One more right shift is one more halving. */
  lemma ShiftStep(x: nat, k: nat)
    ensures x / Pow2(k) / 2 == x / Pow2(k + 1)
  {
    DivDiv(x, Pow2(k), 2);
    assert Pow2(k + 1) == Pow2(k) * 2;
  }

  /** A value below 2^k has no set bit at or above k. */
  lemma NoBitsAbove(x: nat, k: nat, j: nat)
    requires x < Pow2(k) && k <= j
    ensures !Bit(x, j)
  {
    NoBitsBeyond(x, k, j);
  }

  /** Shifting a value below 2^w right by k >= w leaves nothing. */
  lemma NoBitsBeyond(x: nat, w: nat, k: nat)
    requires x < Pow2(w) && w <= k
    ensures x / Pow2(k) == 0
  {
    Pow2Monotone(w, k);
    DivMul(0, x, Pow2(k));
  }

  lemma MulMono(a: nat, b: nat, k: nat)
    requires a <= b
    ensures a * k <= b * k
  {
    assert b * k - a * k == (b - a) * k;
  }

  /** Adding a multiple of the divisor adds to the quotient. */
  lemma DivAddMultiple(y: nat, p: nat, d: nat)
    requires p > 0
    ensures (y + d * p) / p == y / p + d
  {
    var a := y / p;
    var b := y % p;
    assert y == a * p + b;
    assert y + d * p == (a + d) * p + b;
    DivMul(a + d, b, p);
  }

  /** A value below 2^w with no set bit below w is zero. */
  lemma {:induction false} ZeroWithoutBits(x: nat, w: nat)
    requires x < Pow2(w) && PopCount(x, w) == 0
    ensures x == 0
    decreases w
  {
    if w > 0 {
      PopCountMonotone(x, w - 1, w);
      assert !Bit(x, w - 1);
      EvenQuotientBelow(x, Pow2(w - 1));
      ZeroWithoutBits(x, w - 1);
    }
  }

  lemma EvenQuotientBelow(x: nat, p: nat)
    requires p > 0 && x < 2 * p && (x / p) % 2 != 1
    ensures x < p
  {
    var q := x / p;
    DivModId(x, p);
    if q >= 2 {
      MulMono(2, q, p);
    }
  }

  lemma DivModId(x: nat, p: nat)
    requires p > 0
    ensures x == (x / p) * p + x % p && x % p < p
  {
  }

  /** Adding 2^c to a value whose bit c is clear sets exactly bit c. */
  lemma AddClearBit(y: nat, c: nat, j: nat)
    requires !Bit(y, c)
    ensures Bit(y + Pow2(c), j) <==> Bit(y, j) || j == c
  {
    if j < c {
      AddClearBitBelow(y, c, j);
    } else if j == c {
      AddClearBitAt(y, c);
    } else {
      AddClearBitAbove(y, c, j);
    }
  }

  lemma AddClearBitAt(y: nat, c: nat)
    requires !Bit(y, c)
    ensures Bit(y + Pow2(c), c)
  {
    var p := Pow2(c);
    var q := y / p;
    DivAddMultiple(y, p, 1);
    assert 1 * p == p;
    assert (y + p) / p == q + 1;
    OddSucc(q);
  }

  lemma OddSucc(q: nat)
    requires q % 2 == 0
    ensures (q + 1) % 2 == 1
  {
  }

  lemma AddClearBitBelow(y: nat, c: nat, j: nat)
    requires j < c
    ensures Bit(y + Pow2(c), j) == Bit(y, j)
  {
    var d := c - j;
    var p := Pow2(j);
    var m := Pow2(d - 1);
    Pow2Add(j, d);
    assert Pow2(d) == 2 * m;
    assert Pow2(c) == (2 * m) * p by {
      assert Pow2(c) == p * Pow2(d);
    }
    QuotientParity(y, p, m);
  }

  lemma AddClearBitAbove(y: nat, c: nat, j: nat)
    requires c < j && !Bit(y, c)
    ensures Bit(y + Pow2(c), j) == Bit(y, j)
  {
    var d := j - c;
    var p := Pow2(c);
    var m := Pow2(d - 1);
    Pow2Add(c, d);
    assert Pow2(d) == 2 * m;
    assert Pow2(j) == p * (2 * m) by {
      assert Pow2(j) == p * Pow2(d);
    }
    QuotientAbove(y, p, m);
  }

  /** Adding an even multiple of p keeps the parity of the quotient by p. */
  lemma QuotientParity(y: nat, p: nat, m: nat)
    requires p > 0
    ensures y + (2 * m) * p == y + (2 * m * p)
    ensures ((y + (2 * m) * p) / p) % 2 == (y / p) % 2
  {
    DivAddMultiple(y, p, 2 * m);
  }

  /** With bit p of y clear, adding p leaves the quotient by p * 2m alone. */
  lemma QuotientAbove(y: nat, p: nat, m: nat)
    requires p > 0 && m > 0 && (y / p) % 2 == 0
    ensures (y + p) / (p * (2 * m)) == y / (p * (2 * m))
  {
    DivAddMultiple(y, p, 1);
    assert (y + p) / p == y / p + 1;
    EvenSucc(y / p, m);
    DivDiv(y + p, p, 2 * m);
    DivDiv(y, p, 2 * m);
  }

  /** For even q, q and q + 1 have the same quotient by an even divisor. */
  lemma EvenSucc(q: nat, m: nat)
    requires q % 2 == 0 && m > 0
    ensures (q + 1) / (2 * m) == q / (2 * m)
  {
    var a := q / (2 * m);
    var b := q % (2 * m);
    assert q == 2 * m * a + b;
    assert b % 2 == 0 by {
      assert q == 2 * (m * a) + b;
    }
    assert b + 1 < 2 * m;
    DivMul(a, b + 1, 2 * m);
  }

  /** `x | (1 << c)`. */
  function SetBit(x: nat, c: nat): (r: nat)
  {
    if Bit(x, c) then x else x + Pow2(c)
  }

  /** `x ^ (1 << c)`. */
  function ToggleBit(x: nat, c: nat): (r: nat)
  {
    if Bit(x, c) then x - Pow2(c) else x + Pow2(c)
  }

  lemma SubSetBit(x: nat, c: nat)
    requires Bit(x, c)
    ensures x >= Pow2(c) && !Bit(x - Pow2(c), c)
  {
    SubDivisor(x, Pow2(c));
  }

  /** Subtracting p from a value whose quotient by p is odd. */
  lemma SubDivisor(x: nat, p: nat)
    requires p > 0 && (x / p) % 2 == 1
    ensures x >= p && ((x - p) / p) % 2 == 0
  {
    var q := x / p;
    DivModId(x, p);
    MulMono(1, q, p);
    assert x - p == (q - 1) * p + x % p;
    DivMul(q - 1, x % p, p);
  }

  /** Setting bit c sets that bit and no other. */
  lemma BitOfSetBit(x: nat, c: nat, j: nat)
    ensures Bit(SetBit(x, c), j) <==> Bit(x, j) || j == c
  {
    if !Bit(x, c) {
      AddClearBit(x, c, j);
    }
  }

  /** Toggling bit c flips that bit and no other. */
  lemma BitOfToggleBit(x: nat, c: nat, j: nat)
    ensures Bit(ToggleBit(x, c), j) <==> (Bit(x, j) != (j == c))
  {
    if Bit(x, c) {
      SubSetBit(x, c);
      AddClearBit(x - Pow2(c), c, j);
    } else {
      AddClearBit(x, c, j);
    }
  }

  /** Toggling a bit twice restores the bitmap. */
  lemma ToggleTwice(x: nat, c: nat)
    ensures ToggleBit(ToggleBit(x, c), c) == x
  {
    BitOfToggleBit(x, c, c);
    if Bit(x, c) {
      SubSetBit(x, c);
    }
  }

  /** Neither operation leaves the width w when c is below it. */
  lemma SetBitBounded(x: nat, c: nat, w: nat)
    requires x < Pow2(w) && c < w
    ensures SetBit(x, c) < Pow2(w) && ToggleBit(x, c) < Pow2(w)
  {
    if !Bit(x, c) {
      AddBelow(x, c, w);
    }
  }

  lemma AddBelow(x: nat, c: nat, w: nat)
    requires x < Pow2(w) && c < w && !Bit(x, c)
    ensures x + Pow2(c) < Pow2(w)
  {
    var d := w - c;
    Pow2Add(c, d);
    assert Pow2(d) == 2 * Pow2(d - 1);
    AddBelowProduct(x, Pow2(c), Pow2(d - 1));
  }

  lemma AddBelowProduct(x: nat, p: nat, m: nat)
    requires p > 0 && x < p * (2 * m) && (x / p) % 2 == 0
    ensures x + p < p * (2 * m)
  {
    var e := 2 * m;
    var q := x / p;
    DivModId(x, p);
    if q >= e {
      MulMono(e, q, p);
    }
    assert q + 2 <= e;
    MulMono(q + 2, e, p);
  }

  /** The set bits of x below n, in ascending order: the positions a loop
      `for (i = 0; i < n; i++) if (x & (1 << i))` visits. */
  function Members(x: nat, n: nat): (r: seq<nat>)
    ensures |r| == PopCount(x, n)
  {
    if n == 0 then [] else Members(x, n - 1) + (if Bit(x, n - 1) then [n - 1] else [])
  }

  /** The k-th member is a set bit below n whose rank (the number of set
      bits under it) is k; members ascend strictly. */
  lemma {:induction false} MembersAre(x: nat, n: nat)
    ensures forall k :: 0 <= k < |Members(x, n)| ==>
              Members(x, n)[k] < n && Bit(x, Members(x, n)[k]) && PopCount(x, Members(x, n)[k]) == k
    ensures forall k, l :: 0 <= k < l < |Members(x, n)| ==> Members(x, n)[k] < Members(x, n)[l]
    decreases n
  {
    if n > 0 {
      MembersAre(x, n - 1);
    }
  }

  /** Every set bit below n is a member. */
  lemma {:induction false} MembersComplete(x: nat, n: nat, j: nat)
    requires j < n && Bit(x, j)
    ensures j in Members(x, n)
    decreases n
  {
    if j < n - 1 {
      MembersComplete(x, n - 1, j);
    }
  }

  /** Membership is exactly "a set bit below n". */
  lemma InMembers(x: nat, n: nat, j: nat)
    ensures j in Members(x, n) <==> j < n && Bit(x, j)
  {
    MembersAre(x, n);
    if j < n && Bit(x, j) {
      MembersComplete(x, n, j);
    }
  }

  /** The member of rank k, for a set bit j: the inverse of PopCount. */
  lemma MemberAtRank(x: nat, n: nat, j: nat)
    requires j < n && Bit(x, j)
    ensures PopCount(x, j) < |Members(x, n)| && Members(x, n)[PopCount(x, j)] == j
  {
    MembersComplete(x, n, j);
    MembersAre(x, n);
    var k :| 0 <= k < |Members(x, n)| && Members(x, n)[k] == j;
  }

  /** The firmware's population count: add the low bit and shift right
      until nothing is left. For a w-bit value it counts the set bits
      below w. */
  method CountBits(x: nat, w: nat) returns (cnt: nat)
    requires x < Pow2(w)
    ensures cnt == PopCount(x, w)
  {
    cnt := 0;
    var b := x;
    ghost var k: nat := 0;
    while b != 0
      invariant k <= w && b == x / Pow2(k) && cnt == PopCount(x, k)
      decreases b
    {
      if k >= w {
        NoBitsBeyond(x, w, k);
      }
      cnt := cnt + b % 2;
      ShiftStep(x, k);
      b := b / 2;
      k := k + 1;
    }
    CountRest(x, k, w);
  }

  /** Once the shifted value is zero, no further bit is set. */
  lemma {:induction false} CountRest(x: nat, k: nat, w: nat)
    requires k <= w && x / Pow2(k) == 0
    ensures PopCount(x, w) == PopCount(x, k)
    decreases w - k
  {
    if w > k {
      assert x < Pow2(k) by {
        assert x == Pow2(k) * (x / Pow2(k)) + x % Pow2(k);
      }
      CountRest(x, k, w - 1);
      NoBitsAbove(x, k, w - 1);
    }
  }
}
