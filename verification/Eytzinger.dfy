/**
 The one-based implicit binary tree of libbcachefs/eytzinger.h: node i has
 children 2i and 2i+1. The index arithmetic is proved to be the in-order
 numbering 1..size of the nodes 1..size.
 */
module Eytzinger {
  import opened Bits

  /** __fls: index of the highest set bit. */
  function Fls0(i: nat): (r: nat)
    requires i > 0
  {
    Fls(i) - 1
  }

  /** __ffs: index of the lowest set bit. */
  function Ffs(i: nat): (r: nat)
    requires i > 0
  {
    if i % 2 == 1 then 0 else 1 + Ffs(i / 2)
  }

  /** ffz: index of the lowest clear bit. */
  function Ffz(i: nat): (r: nat)
  {
    if i % 2 == 0 then 0 else 1 + Ffz(i / 2)
  }

  predicate IsPowerOf2(n: nat)
  {
    n == 1 || (n > 1 && n % 2 == 0 && IsPowerOf2(n / 2))
  }

  /** eytzinger1_extra. */
  function Extra(size: nat): nat
  {
    if size == 0 then 0
    else
      FlsRange(size);
      2 * (size + 1 - Pow2(Fls0(size)))
  }

  /** The in-order index of node i in the full tree whose last level is `last`. */
  function FullIndex(i: nat, last: nat): nat
    requires i > 0 && Fls0(i) <= last
  {
    FlsRange(i);
    Lsh(2 * (i - Pow2(Fls0(i))) + 1, last - Fls0(i))
  }

  /** Skips the nodes missing from the last level. */
  function DropMissing(x: nat, extra: nat): nat
  {
    var s := extra - x;
    if s < 0 then x + s / 2 else x
  }

  /** __eytzinger1_to_inorder. */
  function ToInorder(i: nat, size: nat): (r: nat)
    requires 0 < i <= size
  {
    FlsMonotone(i, size);
    DropMissing(FullIndex(i, Fls0(size)), Extra(size))
  }

  /** __inorder_to_eytzinger1. */
  function FromInorder(x: nat, size: nat): (r: nat)
    requires size > 0 && x > 0
  {
    var y := if x > Extra(size) then x + (x - Extra(size)) else x;
    var shift := Ffs(y);
    Shr(y, shift + 1) + (if shift <= Fls0(size) then Pow2(Fls0(size) - shift) else 0)
  }

  /** eytzinger1_first. */
  function First(size: nat): nat
  {
    if size == 0 then 0 else Pow2(Fls0(size))
  }

  /** eytzinger1_next; 0 after the last node. */
  function Next(i: nat, size: nat): nat
    requires 0 < i <= size
  {
    if 2 * i + 1 <= size then
      FlsMonotone(2 * i + 1, size);
      var j := Lsh(2 * i + 1, Fls0(size) - Fls0(2 * i + 1));
      if j > size then j / 2 else j
    else
      Shr(i, Ffz(i) + 1)
  }

  /** eytzinger1_prev; 0 before the first node. */
  function Prev(i: nat, size: nat): nat
    requires 0 < i <= size
  {
    if 2 * i <= size then
      FlsMonotone(2 * i, size);
      FlsOdd(i);
      var j := Lsh(2 * i + 1, Fls0(size) - Fls0(2 * i + 1)) - 1;
      if j > size then j / 2 else j
    else
      Shr(i, Ffs(i) + 1)
  }

  lemma {:induction false} FlsOdd(i: nat)
    requires i > 0
    ensures Fls0(2 * i + 1) == Fls0(2 * i) == Fls0(i) + 1
  {
  }

  // ---- bit facts ----

  lemma {:induction false} FlsRange(i: nat)
    requires i > 0
    ensures Fls(i) >= 1 && Pow2(Fls0(i)) <= i < 2 * Pow2(Fls0(i))
  {
    if i > 1 { FlsRange(i / 2); }
  }

  lemma {:induction false} FlsMonotone(i: nat, j: nat)
    requires 0 < i <= j
    ensures Fls0(i) <= Fls0(j)
  {
    FlsRange(i);
    FlsRange(j);
    if Fls0(i) > Fls0(j) { Pow2Monotone(Fls0(j) + 1, Fls0(i)); }
  }

  lemma {:induction false} FlsUnique(i: nat, b: nat)
    requires Pow2(b) <= i < 2 * Pow2(b)
    ensures i > 0 && Fls0(i) == b
  {
    if b > 0 { FlsUnique(i / 2, b - 1); }
  }

  /** i is its part above the lowest set bit, that bit, and zeros. */
  lemma {:induction false} FfsSplit(i: nat)
    requires i > 0
    ensures i == Lsh(2 * Shr(i, Ffs(i) + 1) + 1, Ffs(i))
    ensures Shr(i, Ffs(i) + 1) == 0 <==> IsPowerOf2(i)
  {
    if i % 2 == 0 {
      FfsSplit(i / 2);
    }
  }

  /** i is its part above the lowest clear bit, that bit, and ones. */
  lemma {:induction false} FfzSplit(i: nat)
    ensures i == Lsh(2 * Shr(i, Ffz(i) + 1), Ffz(i)) + Pow2(Ffz(i)) - 1
    ensures Shr(i, Ffz(i) + 1) == 0 <==> IsPowerOf2(i + 1)
  {
    if i % 2 == 1 {
      FfzSplit(i / 2);
      assert (i + 1) / 2 == i / 2 + 1;
    } else if i == 0 {
    } else {
      assert i + 1 > 1 && (i + 1) % 2 == 1;
    }
  }

  lemma {:induction false} FfsOfOdd(x: nat, k: nat)
    requires x % 2 == 1
    ensures Lsh(x, k) > 0 && Ffs(Lsh(x, k)) == k && Shr(Lsh(x, k), k + 1) == x / 2
  {
    if k > 0 { FfsOfOdd(x, k - 1); }
  }

  // ---- in-order indexes in the full tree ----

  /** A node reached by one right turn and then t left turns from a. */
  lemma {:induction false} AfterRightTurn(a: nat, t: nat, last: nat)
    requires a > 0
    ensures var j := Lsh(2 * a + 1, t);
            && j > a && Fls0(j) == Fls0(a) + 1 + t
            && (Fls0(j) <= last ==> FullIndex(j, last) == FullIndex(a, last) + Pow2(last - Fls0(j)))
  {
    hide Lsh, Fls;
    FlsRange(a);
    var ba := Fls0(a);
    var j := Lsh(2 * a + 1, t);
    LshTwice(1, ba);
    Doubling(2 * a + 1, ba + 1, t);
    FlsUnique(j, ba + 1 + t);
    if ba + 1 + t <= last {
      var x := 2 * (a - Pow2(ba)) + 1;
      LshAdd(x, 2 * Pow2(ba), t);
      LshLsh(1, ba + 1, t);
      // j - 2^bj == Lsh(x, t)
      var s := last - (ba + 1 + t);
      LshAdd(2 * Lsh(x, t), 1, s);
      LshTwice(x, t);
      LshLsh(x, t + 1, s);
    }
  }

  lemma LshTwice(x: nat, k: nat)
    ensures Lsh(x, k + 1) == 2 * Lsh(x, k)
  {
  }

  lemma {:induction false} Doubling(x: nat, b: nat, t: nat)
    requires Pow2(b) <= x < 2 * Pow2(b)
    ensures Pow2(b + t) <= Lsh(x, t) < 2 * Pow2(b + t)
  {
    if t > 0 { Doubling(x, b, t - 1); }
  }

  /** A node reached by one left turn and then t right turns from r. */
  lemma {:induction false} AfterLeftTurn(r: nat, t: nat, last: nat)
    requires r > 0
    ensures var j := Lsh(2 * r, t) + Pow2(t) - 1;
            && j > r && Fls0(j) == Fls0(r) + 1 + t
            && (Fls0(j) <= last ==> FullIndex(j, last) + Pow2(last - Fls0(j)) == FullIndex(r, last))
  {
    hide Lsh, Fls;
    FlsRange(r);
    var br := Fls0(r);
    var j := Lsh(2 * r, t) + Pow2(t) - 1;
    LshTwice(1, br);
    LshLsh(1, br + 1, t);
    LshTwice(1, br + 1 + t);
    LshLsh(1, br + 2, t);
    LshTwice(1, br + 1);
    LshMonotone(Pow2(br + 1), 2 * r, t);
    LshGap(2 * r, Pow2(br + 2), t);
    FlsUnique(j, br + 1 + t);
    if br + 1 + t <= last {
      var m := 2 * (r - Pow2(br));
      LshAdd(m, 2 * Pow2(br), t);
      // j - 2^bj == Lsh(m, t) + 2^t - 1
      var s := last - (br + 1 + t);
      LshTwice(m, t);
      LshTwice(1, t);
      LshAdd(m, 1, t + 1);
      var y := 2 * (Lsh(m, t) + Pow2(t) - 1) + 1;
      assert y + 1 == Lsh(m + 1, t + 1);
      LshAdd(y, 1, s);
      LshLsh(m + 1, t + 1, s);
    }
  }

  lemma {:induction false} DropMissingStrict(x: nat, y: nat, extra: nat)
    requires x < y && (x > extra ==> x % 2 == 0) && (y > extra ==> y % 2 == 0) && extra % 2 == 0
    ensures DropMissing(x, extra) < DropMissing(y, extra)
  {
  }

  /** Only the last level has odd full indexes, and its nodes come before the gap. */
  lemma {:induction false} FullIndexParity(i: nat, size: nat)
    requires 0 < i <= size
    ensures Fls0(i) <= Fls0(size)
    ensures FullIndex(i, Fls0(size)) > 0
    ensures Fls0(i) == Fls0(size) ==> FullIndex(i, Fls0(size)) == 2 * (i - Pow2(Fls0(size))) + 1 < Extra(size)
    ensures Fls0(i) < Fls0(size) ==> FullIndex(i, Fls0(size)) % 2 == 0
    ensures Extra(size) % 2 == 0 && Extra(size) > 0
  {
    FlsMonotone(i, size);
    FlsRange(i);
    FlsRange(size);
    var k := Fls0(size) - Fls0(i);
    if k > 0 { LshTwice(2 * (i - Pow2(Fls0(i))) + 1, k - 1); }
  }

  // ---- the numbering ----

  /** The node to the left of i's subtree comes before i. */
  lemma {:induction false} LeftAncestor(i: nat, size: nat)
    requires 0 < i <= size && !IsPowerOf2(i)
    ensures 0 < Shr(i, Ffs(i) + 1) < i
    ensures ToInorder(Shr(i, Ffs(i) + 1), size) < ToInorder(i, size)
  {
    hide Lsh, Shr, Fls;
    FfsSplit(i);
    var a := Shr(i, Ffs(i) + 1);
    AfterRightTurn(a, Ffs(i), Fls0(size));
    FullIndexParity(i, size);
    FullIndexParity(a, size);
    DropMissingStrict(FullIndex(a, Fls0(size)), FullIndex(i, Fls0(size)), Extra(size));
  }

  /** The node to the right of i's subtree comes after i. */
  lemma {:induction false} RightAncestor(i: nat, size: nat)
    requires 0 < i <= size && !IsPowerOf2(i + 1)
    ensures 0 < Shr(i, Ffz(i) + 1) < i
    ensures ToInorder(i, size) < ToInorder(Shr(i, Ffz(i) + 1), size)
  {
    hide Lsh, Shr, Fls;
    FfzSplit(i);
    var r := Shr(i, Ffz(i) + 1);
    AfterLeftTurn(r, Ffz(i), Fls0(size));
    FullIndexParity(i, size);
    FullIndexParity(r, size);
    DropMissingStrict(FullIndex(i, Fls0(size)), FullIndex(r, Fls0(size)), Extra(size));
  }

  /** A node without children lies on one of the last two levels. */
  lemma {:induction false} LastTwoLevels(i: nat, size: nat)
    requires 0 < i <= size < 2 * i + 1
    ensures Fls0(i) == Fls0(size) || Fls0(i) + 1 == Fls0(size)
  {
    hide Lsh, Fls;
    FlsMonotone(i, size);
    FlsRange(i);
    FlsRange(size);
    var b := Fls0(i);
    LshTwice(1, b);
    LshTwice(1, b + 1);
    if b + 2 <= Fls0(size) { Pow2Monotone(b + 2, Fls0(size)); }
  }

  /** On the level above the last, childless nodes come after the gap. */
  lemma {:induction false} ChildlessIndex(i: nat, size: nat)
    requires 0 < i <= size && Fls0(i) + 1 == Fls0(size)
    ensures FullIndex(i, Fls0(size)) == 2 * (2 * (i - Pow2(Fls0(i))) + 1)
    ensures Extra(size) + 4 * i == FullIndex(i, Fls0(size)) + 2 * size
  {
    hide Lsh, Fls;
    FlsRange(i);
    FlsRange(size);
    LshTwice(1, Fls0(i));
    LshTwice(2 * (i - Pow2(Fls0(i))) + 1, 0);
    ShiftByZero(2 * (i - Pow2(Fls0(i))) + 1);
  }

  /** In-order predecessor of a node that has no left child. */
  lemma {:induction false} PrevWithoutLeftChild(i: nat, size: nat)
    requires 0 < i <= size < 2 * i
    ensures IsPowerOf2(i) ==> ToInorder(i, size) == 1
    ensures !IsPowerOf2(i) ==> Prev(i, size) == Shr(i, Ffs(i) + 1)
    ensures !IsPowerOf2(i) ==> 0 < Prev(i, size) < i && ToInorder(Prev(i, size), size) + 1 == ToInorder(i, size)
  {
    hide Lsh, Shr, Fls;
    FfsSplit(i);
    FullIndexParity(i, size);
    LastTwoLevels(i, size);
    var L := Fls0(size);
    if Fls0(i) < L { ChildlessIndex(i, size); }
    Pow2AtZero();
    if IsPowerOf2(i) {
      PowerOfTwo(i);
    } else {
      var a := Shr(i, Ffs(i) + 1);
      AfterRightTurn(a, Ffs(i), L);
      FullIndexParity(a, size);
    }
  }

  lemma Pow2AtZero()
    ensures Pow2(0) == 1 && Pow2(1) == 2
  {
  }

  lemma {:induction false} PowerOfTwo(i: nat)
    requires IsPowerOf2(i)
    ensures i > 0 && Pow2(Fls0(i)) == i
  {
    if i > 1 { PowerOfTwo(i / 2); }
  }

  /** FromInorder inverts ToInorder, so the numbering is injective. */
  lemma {:induction false} InorderInverse(i: nat, size: nat)
    requires 0 < i <= size
    ensures ToInorder(i, size) > 0 && FromInorder(ToInorder(i, size), size) == i
  {
    hide Lsh, Shr, Fls;
    FullIndexParity(i, size);
    FlsRange(i);
    var L, b := Fls0(size), Fls0(i);
    var y := FullIndex(i, L);
    FfsOfOdd(2 * (i - Pow2(b)) + 1, L - b);
  }

  lemma {:induction false} InorderInjective(i: nat, j: nat, size: nat)
    requires 0 < i <= size && 0 < j <= size && ToInorder(i, size) == ToInorder(j, size)
    ensures i == j
  {
    InorderInverse(i, size);
    InorderInverse(j, size);
  }

  lemma {:induction false} FirstIsFirst(size: nat)
    requires size > 0
    ensures 0 < First(size) <= size && ToInorder(First(size), size) == 1
  {
    hide Lsh, Fls;
    FlsRange(size);
    FlsUnique(First(size), Fls0(size));
    FullIndexParity(First(size), size);
  }

  /** Next follows the numbering and ends after the node numbered last. */
  lemma {:induction false} NextIsNext(i: nat, size: nat)
    requires 0 < i <= size
    ensures Next(i, size) <= size
    ensures Next(i, size) != 0 ==> ToInorder(Next(i, size), size) == ToInorder(i, size) + 1
    ensures Next(i, size) == 0 <==> ToInorder(i, size) == size
  {
    if 2 * i + 1 <= size {
      NextDown(i, size);
    } else {
      NextUp(i, size);
    }
  }

  lemma {:induction false} NextDown(i: nat, size: nat)
    requires 0 < i && 2 * i + 1 <= size
    ensures 0 < Next(i, size) <= size
    ensures ToInorder(Next(i, size), size) == ToInorder(i, size) + 1
    ensures ToInorder(i, size) < size
  {
    hide Lsh, Shr, Fls;
    var L := Fls0(size);
    FlsMonotone(2 * i + 1, size);
    FlsRange(size);
    ShiftByZero(2 * i + 1);
    AfterRightTurn(i, 0, L);
    var t := L - Fls0(2 * i + 1);
    AfterRightTurn(i, t, L);
    var j := Lsh(2 * i + 1, t);
    Pow2AtZero();
    FullIndexParity(i, size);
    FlsRange(j);
    if j <= size {
      FullIndexParity(j, size);
    } else {
      LshTwice(2 * i + 1, t - 1);
      AfterRightTurn(i, t - 1, L);
      FullIndexParity(j / 2, size);
    }
    InorderRange(Next(i, size), size);
  }

  lemma {:induction false} NextUp(i: nat, size: nat)
    requires 0 < i <= size < 2 * i + 1
    ensures Next(i, size) <= size
    ensures Next(i, size) != 0 ==> ToInorder(Next(i, size), size) == ToInorder(i, size) + 1
    ensures Next(i, size) == 0 <==> ToInorder(i, size) == size
  {
    hide Lsh, Shr, Fls;
    var L := Fls0(size);
    FfzSplit(i);
    FullIndexParity(i, size);
    FlsMonotone(i, size);
    FlsRange(i);
    FlsRange(size);
    Pow2AtZero();
    LastTwoLevels(i, size);
    if Fls0(i) < L { ChildlessIndex(i, size); }
    var r := Shr(i, Ffz(i) + 1);
    if r == 0 {
      LshZero(Ffz(i));
      LastNode(i, size);
    } else {
      AfterLeftTurn(r, Ffz(i), L);
      FullIndexParity(r, size);
      InorderRange(r, size);
    }
  }

  /** A node of all ones is the rightmost of its level, and last when it has no right child. */
  lemma {:induction false} LastNode(i: nat, size: nat)
    requires 0 < i <= size < 2 * i + 1 && IsPowerOf2(i + 1)
    ensures ToInorder(i, size) == size
  {
    hide Lsh, Fls;
    PowerOfTwo(i + 1);
    FlsRange(i);
    FlsRange(size);
    FlsMonotone(i, i + 1);
    LastTwoLevels(i, size);
    FullIndexParity(i, size);
    var b := Fls0(i);
    LshTwice(1, b);
    AllOnes(i);
    if Fls0(i) < Fls0(size) { ChildlessIndex(i, size); }
  }

  lemma {:induction false} AllOnes(i: nat)
    requires i > 0 && IsPowerOf2(i + 1)
    ensures i + 1 == 2 * Pow2(Fls0(i))
  {
    PowerOfTwo(i + 1);
    FlsRange(i);
    FlsRange(i + 1);
    if Fls0(i + 1) == Fls0(i) {
      assert false;
    } else {
      FlsUnique(i, Fls0(i + 1) - 1);
    }
  }

  lemma {:induction false} InorderRange(i: nat, size: nat)
    requires 0 < i <= size
    ensures 1 <= ToInorder(i, size) <= size
  {
    hide Lsh;
    FullIndexParity(i, size);
    FlsRange(i);
    FlsRange(size);
    var L, b := Fls0(size), Fls0(i);
    // FullIndex(i) < 2^(L+1)
    LshGap(2 * (i - Pow2(b)) + 1, 2 * Pow2(b), L - b);
    LshTwice(1, b);
    LshLsh(1, b + 1, L - b);
    LshTwice(1, L);
  }
}
