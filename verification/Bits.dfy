/**
 Unsigned machine words over unbounded integers. Shifts are defined one bit at a
 time, so that every law below is proved by induction with linear arithmetic.
 */
module Bits {

  const W64: nat := 0x1_0000_0000_0000_0000
  const W32: nat := 0x1_0000_0000

  type u64 = x: int | 0 <= x < W64
  type u32 = x: int | 0 <= x < W32

  /** v * 2^k, unbounded. */
  function Lsh(v: nat, k: nat): (r: nat)
    ensures v <= r
  {
    if k == 0 then v else 2 * Lsh(v, k - 1)
  }

  function Pow2(k: nat): (r: nat)
    ensures r > 0
  {
    Lsh(1, k)
  }

  /** C `v >> k`: v / 2^k. */
  function Shr(v: nat, k: nat): (r: nat)
    ensures r <= v
  {
    if k == 0 then v else Shr(v / 2, k - 1)
  }

  /** The low k bits: v mod 2^k. */
  function Low(v: nat, k: nat): (r: nat)
    ensures r <= v
  {
    if k == 0 then 0 else v % 2 + 2 * Low(v / 2, k - 1)
  }

  /** C `v << k` on a 64-bit word. */
  function Shl(v: nat, k: nat): (r: u64)
  {
    Word(Lsh(v, k))
  }

  /** Truncation to 64 bits. */
  function Word(v: nat): (r: u64) { v % W64 }

  /** C `x | y`. */
  function Or(x: nat, y: nat): (r: nat)
    decreases x + y
  {
    if x == 0 then y
    else if y == 0 then x
    else 2 * Or(x / 2, y / 2) + (if x % 2 == 1 || y % 2 == 1 then 1 else 0)
  }

  /** C `x ^ y`. */
  function Xor(x: nat, y: nat): (r: nat)
    decreases x + y
  {
    if x == 0 then y
    else if y == 0 then x
    else 2 * Xor(x / 2, y / 2) + (if x % 2 != y % 2 then 1 else 0)
  }

  /** Position of the highest set bit counted from 1; 0 for 0. */
  function Fls(x: nat): (r: nat)
  {
    if x == 0 then 0 else 1 + Fls(x / 2)
  }

  function CmpInt(l: int, r: int): int
  {
    if l < r then -1 else if l > r then 1 else 0
  }

  function Min(a: int, b: int): int { if a < b then a else b }

  function Max(a: int, b: int): int { if a > b then a else b }

  // ---- shifts ----

  lemma {:induction false} Join(q: nat, r: nat, k: nat)
    requires r < Pow2(k)
    ensures Shr(Lsh(q, k) + r, k) == q && Low(Lsh(q, k) + r, k) == r
    decreases k
  {
    if k > 0 { Join(q, r / 2, k - 1); }
  }

  lemma {:induction false} Split(v: nat, k: nat)
    ensures v == Lsh(Shr(v, k), k) + Low(v, k)
    ensures Low(v, k) < Pow2(k)
    decreases k
  {
    if k > 0 { Split(v / 2, k - 1); }
  }

  lemma {:induction false} LshAdd(x: nat, y: nat, k: nat)
    ensures Lsh(x + y, k) == Lsh(x, k) + Lsh(y, k)
  {
    if k > 0 { LshAdd(x, y, k - 1); }
  }

  lemma ShiftByZero(x: nat)
    ensures Lsh(x, 0) == x && Shr(x, 0) == x && Low(x, 0) == 0
  {
  }

  lemma {:induction false} LshZero(k: nat)
    ensures Lsh(0, k) == 0 && Shr(0, k) == 0 && Low(0, k) == 0
  {
    if k > 0 { LshZero(k - 1); }
  }

  lemma {:induction false} LshLsh(x: nat, a: nat, b: nat)
    ensures Lsh(Lsh(x, a), b) == Lsh(x, a + b)
  {
    if b > 0 { LshLsh(x, a, b - 1); }
  }

  lemma {:induction false} ShrShr(x: nat, a: nat, b: nat)
    ensures Shr(Shr(x, a), b) == Shr(x, a + b)
    decreases a
  {
    if a > 0 { ShrShr(x / 2, a - 1, b); }
  }

  lemma {:induction false} LowLow(x: nat, a: nat, b: nat)
    requires b <= a
    ensures Low(Low(x, a), b) == Low(x, b)
    decreases a
  {
    if b > 0 {
      LowLow(x / 2, a - 1, b - 1);
      var l := Low(x, a);
      assert l / 2 == Low(x / 2, a - 1) && l % 2 == x % 2;
    }
  }

  /** Bits s .. s+b of y, taken in either order. */
  lemma {:induction false} MiddleBits(y: nat, s: nat, b: nat)
    ensures Low(Shr(y, s), b) == Shr(Low(y, s + b), s)
    decreases s
  {
    if s > 0 { MiddleBits(y / 2, s - 1, b); }
  }

  lemma {:induction false} LshMonotone(x: nat, y: nat, k: nat)
    requires x <= y
    ensures Lsh(x, k) <= Lsh(y, k)
  {
    if k > 0 { LshMonotone(x, y, k - 1); }
  }

  /** x < y leaves a whole 2^k between the shifted values. */
  lemma {:induction false} LshGap(x: nat, y: nat, k: nat)
    requires x < y
    ensures Lsh(x, k) + Pow2(k) <= Lsh(y, k)
  {
    if k > 0 { LshGap(x, y, k - 1); }
  }

  lemma {:induction false} ShrMonotone(x: nat, y: nat, k: nat)
    requires x <= y
    ensures Shr(x, k) <= Shr(y, k)
    decreases k
  {
    if k > 0 { ShrMonotone(x / 2, y / 2, k - 1); }
  }

  lemma {:induction false} ShrLt(x: nat, q: nat, k: nat)
    ensures Shr(x, k) < q <==> x < Lsh(q, k)
    decreases k
  {
    if k > 0 {
      ShrLt(x / 2, q, k - 1);
    }
  }

  /** Shifting a multiple of 2^k down by less than k. */
  lemma {:induction false} ShrLsh(x: nat, a: nat, b: nat)
    requires b <= a
    ensures Shr(Lsh(x, a), b) == Lsh(x, a - b)
    ensures Low(Lsh(x, a), b) == 0
    decreases b
  {
    if b > 0 { ShrLsh(x, a - 1, b - 1); }
  }

  /** Adding a multiple of 2^k does not change the low bits. */
  lemma {:induction false} LowAddMultiple(q: nat, r: nat, k: nat)
    ensures Low(Lsh(q, k) + r, k) == Low(r, k)
    ensures Shr(Lsh(q, k) + r, k) == q + Shr(r, k)
  {
    Split(r, k);
    LshAdd(q, Shr(r, k), k);
    Join(q + Shr(r, k), Low(r, k), k);
  }

  /** The low k+m bits of a shifted number keep the low m bits of it. */
  lemma {:induction false} LowJoin(q: nat, r: nat, k: nat, m: nat)
    requires r < Pow2(k)
    ensures Low(Lsh(q, k) + r, k + m) == Lsh(Low(q, m), k) + r
    decreases k
  {
    if k > 0 {
      LowJoin(q, r / 2, k - 1, m);
      assert (Lsh(q, k) + r) / 2 == Lsh(q, k - 1) + r / 2;
    }
  }

  lemma {:induction false} LowSmall(x: nat, k: nat)
    requires x < Pow2(k)
    ensures Low(x, k) == x && Shr(x, k) == 0
  {
    LshZero(k);
    Join(0, x, k);
  }

  // ---- powers of two ----

  lemma {:induction false} Pow2Monotone(a: nat, b: nat)
    requires a <= b
    ensures Pow2(a) <= Pow2(b)
    ensures a < b ==> Pow2(a) < Pow2(b)
  {
    if a < b { Pow2Monotone(a, b - 1); }
  }

  lemma {:induction false} Pow2Values()
    ensures Pow2(0) == 1 && Pow2(1) == 2
    ensures Pow2(8) == 256 && Pow2(16) == 0x1_0000 && Pow2(24) == 0x100_0000
    ensures Pow2(32) == W32 && Pow2(64) == W64
  {
    LshConst(1);
    LshConst(256);
    LshConst(0x1_0000);
    LshConst(0x100_0000);
    LshConst(W32);
    LshConst(0x100 * W32);
    LshConst(0x1_0000 * W32);
    LshConst(0x100_0000 * W32);
    LshLsh(1, 8, 8);
    LshLsh(1, 16, 8);
    LshLsh(1, 24, 8);
    LshLsh(1, 32, 8);
    LshLsh(1, 40, 8);
    LshLsh(1, 48, 8);
    LshLsh(1, 56, 8);
  }

  lemma {:induction false} LshConst(x: nat)
    ensures Lsh(x, 8) == 256 * x
  {
    assert Lsh(x, 1) == 2 * x;
    assert Lsh(x, 2) == 4 * x;
    assert Lsh(x, 3) == 8 * x;
    assert Lsh(x, 4) == 16 * x;
    assert Lsh(x, 5) == 32 * x;
    assert Lsh(x, 6) == 64 * x;
    assert Lsh(x, 7) == 128 * x;
  }

  lemma {:induction false} WordIsLow(v: nat)
    ensures Word(v) == Low(v, 64)
  {
    Split(v, 64);
    Lsh64(Shr(v, 64));
    assert Low(v, 64) < W64 by { Pow2Values(); }
  }

  lemma {:induction false} Lsh64(x: nat)
    ensures Lsh(x, 64) == W64 * x
  {
    if x > 0 {
      Lsh64(x - 1);
      LshAdd(x - 1, 1, 64);
      Pow2Values();
    } else {
      LshZero(64);
    }
  }

  // ---- bitwise operators ----

  /** Or of numbers with disjoint bits is addition. */
  lemma {:induction false} OrDisjoint(x: nat, y: nat, k: nat)
    requires Low(x, k) == 0 && y < Pow2(k)
    ensures Or(x, y) == x + y
  {
    if x == 0 || y == 0 {
    } else {
      OrDisjoint(x / 2, y / 2, k - 1);
    }
  }

  /** Or with 2^k - 1 sets the low k bits and keeps the rest. */
  lemma {:induction false} OrMask(x: nat, k: nat)
    ensures Or(x, Pow2(k) - 1) == Lsh(Shr(x, k), k) + (Pow2(k) - 1)
    decreases k
  {
    if k == 0 {
    } else if x == 0 {
      LshZero(k);
    } else {
      OrMask(x / 2, k - 1);
      assert (Pow2(k) - 1) / 2 == Pow2(k - 1) - 1;
    }
  }

  lemma {:induction false} OrBound(x: nat, y: nat, k: nat)
    requires x < Pow2(k) && y < Pow2(k)
    ensures Or(x, y) < Pow2(k)
    decreases k
  {
    if x == 0 || y == 0 { } else { OrBound(x / 2, y / 2, k - 1); }
  }

  /** Fls counts the bits: Fls(x) <= k exactly when x < 2^k. */
  lemma {:induction false} FlsBound(x: nat, k: nat)
    ensures Fls(x) <= k <==> x < Pow2(k)
    decreases x
  {
    if x != 0 && k != 0 { FlsBound(x / 2, k - 1); }
  }

  lemma {:induction false} XorZero(x: nat, y: nat)
    ensures Xor(x, y) == 0 <==> x == y
    decreases x + y
  {
    if x == 0 || y == 0 { } else { XorZero(x / 2, y / 2); }
  }

  lemma {:induction false} HighestBit(z: nat)
    requires z > 0
    ensures Fls(z) > 0 && Shr(z, Fls(z)) == 0 && Shr(z, Fls(z) - 1) == 1
    ensures Shr(0, Fls(z)) == 0 && Shr(0, Fls(z) - 1) == 0
  {
    LshZero(Fls(z));
    LshZero(Fls(z) - 1);
    if z > 1 { HighestBit(z / 2); }
  }

  /** The highest set bit of x ^ y is the highest bit where x and y differ. */
  lemma {:induction false} XorHighest(x: nat, y: nat)
    requires x != y
    ensures Fls(Xor(x, y)) > 0
    ensures Shr(x, Fls(Xor(x, y))) == Shr(y, Fls(Xor(x, y)))
    ensures Shr(x, Fls(Xor(x, y)) - 1) != Shr(y, Fls(Xor(x, y)) - 1)
    decreases x + y
  {
    XorZero(x, y);
    if x == 0 || y == 0 {
      HighestBit(x + y);
    } else if x / 2 == y / 2 {
      XorZero(x / 2, y / 2);
      assert Fls(1) == 1;
    } else {
      XorHighest(x / 2, y / 2);
      var z := Xor(x / 2, y / 2);
      assert Xor(x, y) / 2 == z;
      assert Fls(Xor(x, y)) == 1 + Fls(z);
    }
  }
}
