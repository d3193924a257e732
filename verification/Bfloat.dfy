/**
 The 16-bit truncated keys of the auxiliary search tree (make_bfloat and
 bkey_mantissa in libbcachefs/bset.c) and why comparing them decides the search.
 */
module Bfloat {
  import opened Bits
  import opened Bkey
  import opened BkeyPack
  import opened BkeyCmp
  import BkeyLossy
  import Bset

  const BFLOAT_FAILED: nat := 255
  const BKEY_MANTISSA_BITS: nat := 16

  datatype BkeyFloat = BkeyFloat(exponent: nat, keyOffset: nat, mantissa: nat)

  /** A 64-bit load at a byte offset of little-endian memory. */
  function LoadU64(mem: seq<u64>, byteOffset: nat): nat
    requires 8 * byteOffset + 64 <= 64 * |mem|
  {
    Low(Shr(Value(mem), 8 * byteOffset), 64)
  }

  /** bkey_mantissa: 16 bits of the key starting at bit `exponent`. */
  function BkeyMantissa(mem: seq<u64>, exponent: nat): nat
    requires exponent / 8 * 8 + 64 <= 64 * |mem|
  {
    Low(Shr(LoadU64(mem, exponent / 8), exponent % 8), BKEY_MANTISSA_BITS)
  }

  /** Only the key's own n words matter when the 16 bits lie inside them. */
  lemma {:induction false} MantissaOfKey(mem: seq<u64>, n: nat, e: nat)
    requires n <= |mem| && e + 16 <= 64 * n && e / 8 * 8 + 64 <= 64 * |mem|
    ensures BkeyMantissa(mem, e) == Low(Shr(Value(mem[..n]), e), 16)
  {
    hide Lsh, Shr, Low, Value;
    var v, b, r := Value(mem), e / 8, e % 8;
    var y := Shr(v, 8 * b);
    MiddleBits(Low(y, 64), r, 16);
    MiddleBits(y, r, 16);
    LowLow(y, 64, r + 16);
    ShrShr(v, 8 * b, r);
    assert Low(Shr(v, e), 16) == BkeyMantissa(mem, e);
    MiddleBits(v, e, 16);
    MiddleBits(Value(mem[..n]), e, 16);
    LowLow(v, 64 * n, e + 16);
    ValueSplit(mem, n);
    ValueBound(mem[..n]);
    Join(Value(mem[n..]), Value(mem[..n]), 64 * n);
  }

  /**
   What make_bfloat stores for the tree key `m` whose neighbours in the tree are
   `l` and `r`; all three are position bits. e is the (possibly negative) position
   of the mantissa's low bit.
   */
  ghost predicate GoodFloat(keyBits: nat, l: nat, m: nat, r: nat, e: int, mantissa: nat)
  {
    && 0 <= e + 15 < keyBits
    && Shr(l, e + 16) == Shr(r, e + 16)
    && (e >= 0 ==> mantissa == Low(Shr(m, e), 16))
    && (e < 0 ==> keyBits == 16 + e && mantissa == Lsh(m, -e) + Pow2(-e) - 1)
  }

  /**
   For a search key s between l and r, the stored mantissa against the search
   mantissa decides m against s; equality is inconclusive only if bits were dropped.
   */
  lemma {:induction false} MantissaDecides(keyBits: nat, low: nat, l: nat, m: nat, r: nat, vs: nat, e: int, mantissa: nat)
    requires GoodFloat(keyBits, l, m, r, e, mantissa) && low >= 15
    requires l <= m <= r && l <= Shr(vs, low) <= r && Shr(vs, low) < Pow2(keyBits)
    ensures low + e >= 0
    ensures var s, ms := Shr(vs, low), Low(Shr(vs, low + e), 16);
            && (mantissa < ms ==> m < s)
            && (mantissa > ms ==> m >= s)
            && (mantissa == ms && e <= 0 ==> m >= s)
  {
    hide Lsh, Shr, Low, Pow2;
    var s := Shr(vs, low);
    if e >= 0 {
      ShrShr(vs, low, e);
      Squeeze(l, m, r, e + 16);
      Squeeze(l, s, r, e + 16);
      ShrShr(m, e, 16);
      ShrShr(s, e, 16);
      var a, b := Shr(m, e), Shr(s, e);
      SameHigh(a, b, 16);
      ShiftByZero(m);
      ShiftByZero(s);
      if a < b { ShrOrder(m, s, 0, e); } else if b < a { ShrOrder(s, m, 0, e); }
    } else {
      Garbage(vs, low, -e, keyBits);
      if m < s { LshGap(m, s, -e); } else { LshMonotone(s, m, -e); }
      Pow2IsLsh(-e);
    }
  }

  lemma {:induction false} Squeeze(l: nat, m: nat, r: nat, k: nat)
    requires l <= m <= r && Shr(l, k) == Shr(r, k)
    ensures Shr(m, k) == Shr(l, k)
  {
    ShrMonotone(l, m, k);
    ShrMonotone(m, r, k);
  }

  /** Numbers that agree above k bits compare like their low k bits. */
  lemma {:induction false} SameHigh(a: nat, b: nat, k: nat)
    requires Shr(a, k) == Shr(b, k)
    ensures a < b <==> Low(a, k) < Low(b, k)
    ensures a == b <==> Low(a, k) == Low(b, k)
  {
    hide Lsh, Shr, Low;
    Split(a, k);
    Split(b, k);
  }

  /** With fewer than 16 key bits the mantissa is the whole key and g bits below it. */
  lemma {:induction false} Garbage(vs: nat, low: nat, g: nat, keyBits: nat)
    requires 0 < g <= low && keyBits + g == 16 && Shr(vs, low) < Pow2(keyBits)
    ensures Low(Shr(vs, low - g), 16) >= Lsh(Shr(vs, low), g)
    ensures Low(Shr(vs, low - g), 16) < Lsh(Shr(vs, low), g) + Pow2(g)
  {
    hide Lsh, Shr, Low, Pow2;
    var x := Shr(vs, low - g);
    ShrShr(vs, low - g, g);
    Split(x, g);
    LshGap(Shr(vs, low), Pow2(keyBits), g);
    Pow2IsLsh(keyBits);
    LshLsh(1, keyBits, g);
    Pow2IsLsh(16);
    Pow2IsLsh(g);
    LowSmall(x, 16);
  }

  /** One side of the range a tree node covers, when it is a packed key. */
  datatype Bound = Unpacked | Packed(words: seq<u64>)

  ghost predicate BoundOk(f: Format, b: Bound)
  {
    b.Packed? ==> |b.words| == f.keyU64s
  }

  /** What the tree stores is either marked failed or decides every search in range. */
  ghost predicate FloatOk(f: Format, l: Bound, m: Bound, r: Bound, exponent: nat, mantissa: nat)
    requires Valid(f)
  {
    exponent != BFLOAT_FAILED ==>
      && exponent < BFLOAT_FAILED
      && l.Packed? && m.Packed? && r.Packed?
      && GoodFloat(KeyBits(f), Top(f, Value(l.words)), Top(f, Value(m.words)), Top(f, Value(r.words)),
                   exponent + KeyBits(f) - 64 * f.keyU64s, mantissa)
  }

  /**
   The exponent of a node between l and r fits its byte. Keys of up to four words always
   fit; with five words l and r have to agree in their top 49 position bits.
   */
  ghost predicate ExponentFits(f: Format, l: seq<u64>, r: seq<u64>)
    requires Valid(f)
  {
    f.keyU64s == BKEY_U64S ==>
      && KeyBits(f) >= 49
      && Shr(Top(f, Value(l)), KeyBits(f) - 49) == Shr(Top(f, Value(r)), KeyBits(f) - 49)
  }

  /** The same for a node whose key or neighbours may be unpacked; those get no exponent. */
  ghost predicate NodeFits(f: Format, l: Bound, m: Bound, r: Bound)
    requires Valid(f)
  {
    l.Packed? && m.Packed? && r.Packed? ==> ExponentFits(f, l.words, r.words)
  }

  /** What is stored when the exponent does not fit: 16 bits of m that are not part of its position. */
  ghost predicate LowFloat(f: Format, m: Bound, exponent: nat, mantissa: nat)
    requires f.Shape()
  {
    && m.Packed? && exponent + 16 <= 64 * f.keyU64s - KeyBits(f)
    && mantissa == Low(Shr(Value(m.words), exponent), 16)
  }

  /**
   make_bfloat; mem is the memory that starts with the key m. The exponent is stored in
   a byte. What is stored decides every search in range exactly when it fits; otherwise
   it is a piece of m from below the position.
   */
  method MakeBfloat(f: Format, l: Bound, m: Bound, r: Bound, mem: seq<u64>) returns (exponent: nat, mantissa: nat)
    requires Valid(f)
    requires BoundOk(f, l) && BoundOk(f, m) && BoundOk(f, r)
    requires m.Packed? ==> f.keyU64s < |mem| && mem[..f.keyU64s] == m.words
    ensures exponent <= BFLOAT_FAILED
    ensures FloatOk(f, l, m, r, exponent, mantissa) <==> NodeFits(f, l, m, r)
    ensures !NodeFits(f, l, m, r) ==> LowFloat(f, m, exponent, mantissa)
  {
    hide Lsh, Shr, Low, Value, Pow2, Or, Total, FieldValid;
    FiveWords(f);
    var nrKeyBits := KeyBits(f);
    if l.Unpacked? || r.Unpacked? || m.Unpacked? || nrKeyBits == 0 {
      return BFLOAT_FAILED, 0;
    }
    LowBitsRange(f);
    ghost var low := 64 * f.keyU64s - nrKeyBits;
    var g := GreatestDifferingBit(l.words, r.words, nrKeyBits);
    ValueBound(l.words);
    ValueBound(r.words);
    ValueBound(m.words);
    TopBound(f, Value(l.words));
    TopBound(f, Value(r.words));
    TopBound(f, Value(m.words));
    var highBit := Max(g, Min(BKEY_MANTISSA_BITS, nrKeyBits) - 1);
    DiffInRange(Top(f, Value(l.words)), Top(f, Value(r.words)), g, nrKeyBits);
    AgreeAbove(Top(f, Value(l.words)), Top(f, Value(r.words)), g + 1, highBit + 1);
    var e := highBit - (BKEY_MANTISSA_BITS - 1);
    var shift := f.keyU64s * 64 - nrKeyBits + e;
    ShiftFits(f, l.words, r.words, g);
    exponent := if shift < 256 then shift else shift - 256;
    mantissa := BkeyMantissa(mem, exponent);
    MantissaOfKey(mem, f.keyU64s, exponent);
    if shift >= 256 { return; }
    if e < 0 {
      OrMask(mantissa, -e);
      mantissa := Or(mantissa, Pow2(-e) - 1);
      WholeKey(Value(m.words), low, -e, nrKeyBits);
    } else {
      ShrShr(Value(m.words), low, e);
    }
  }

  /** Size and version alone do not make a key of five words. */
  lemma {:induction false} FiveWords(f: Format)
    requires Valid(f)
    ensures f.keyU64s == BKEY_U64S ==> KeyBits(f) >= 105
  {
    hide Pow2;
    LowBitsRange(f);
    TotalSix(f.bits);
  }

  /** The shift computed from the highest differing bit g against the byte it is stored in. */
  lemma {:induction false} ShiftFits(f: Format, l: seq<u64>, r: seq<u64>, g: nat)
    requires Valid(f) && KeyBits(f) > 0 && |l| == |r| == f.keyU64s
    requires GreatestDiff(Top(f, Value(l)), Top(f, Value(r)), g)
    ensures g < KeyBits(f) <= 160 && f.keyU64s <= BKEY_U64S
    ensures ExponentFits(f, l, r) <==>
              64 * f.keyU64s - KeyBits(f) + Max(g, Min(BKEY_MANTISSA_BITS, KeyBits(f)) - 1) - (BKEY_MANTISSA_BITS - 1) < 256
  {
    hide Lsh, Shr, Low, Value, Pow2, Top;
    FiveWords(f);
    LowBitsRange(f);
    TotalSix(f.bits);
    ValueBound(l);
    ValueBound(r);
    TopBound(f, Value(l));
    TopBound(f, Value(r));
    var a, b, k := Top(f, Value(l)), Top(f, Value(r)), KeyBits(f);
    DiffInRange(a, b, g, k);
    if f.keyU64s == BKEY_U64S {
      if g + 1 <= k - 49 { AgreeAbove(a, b, g + 1, k - 49); } else if a != b && Shr(a, k - 49) == Shr(b, k - 49) {
        AgreeAbove(a, b, k - 49, g);
      }
    }
  }

  /**
   Such a node sends every search to the left: below its position the search key holds
   its size alone, which is at most the size of the node's key.
   */
  lemma {:induction false} LowFloatTurnsLeft(f: Format, m: Bound, exponent: nat, mantissa: nat, v: nat)
    requires f.Shape() && LowFloat(f, m, exponent, mantissa) && BkeyLossy.OnlySize(f, v)
    requires f.keyU64s <= Low(Value(m.words), 8)
    ensures Low(Shr(v, exponent), 16) <= mantissa
  {
    hide Lsh, Shr, Low, Value, KeyBits;
    var vm, low := Value(m.words), 64 * f.keyU64s - KeyBits(f);
    MiddleBits(v, exponent, 16);
    MiddleBits(vm, exponent, 16);
    LowLow(v, low, exponent + 16);
    LowLow(vm, exponent + 16, 8);
    ShrMonotone(Low(v, exponent + 16), Low(vm, exponent + 16), exponent);
  }

  /** The low byte of a key is its size. */
  lemma {:induction false} SizeIsLow(words: seq<u64>)
    requires |words| > 0
    ensures Low(Value(words), 8) == HeaderU64s(words[0])
  {
    hide Lsh, Shr, Low, Value, Pow2;
    var v := Value(words);
    HeaderOfValue(words);
    Split(v, 8);
    LshConst(Shr(v, 8));
    Pow2Values();
    LowByte(v, Shr(v, 8), Low(v, 8));
  }

  lemma LowByte(v: nat, q: nat, r: nat)
    requires v == 256 * q + r && r < 256
    ensures HeaderU64s(v) == r
  {
    var k := v / 0x100_0000;
    assert v % 0x100_0000 == 256 * (q - 0x1_0000 * k) + r;
  }

  /** Keys of five words, one of them 0 and the other a power of two among the top 49 bits. */
  lemma {:induction false} TooFarApart(f: Format, l: seq<u64>, r: seq<u64>, n: nat)
    requires Valid(f) && f.keyU64s == BKEY_U64S && 271 <= n && Value(l) == 0 && Value(r) == Lsh(1, n)
    ensures !ExponentFits(f, l, r)
  {
    hide Lsh, Shr, Low, Pow2, Value;
    FiveWords(f);
    LowBitsRange(f);
    var low, cut := 64 * f.keyU64s - KeyBits(f), KeyBits(f) - 49;
    LshZero(low);
    LshZero(cut);
    ShrShr(Lsh(1, n), low, cut);
    ShrLsh(1, n, low + cut);
    LshPositive(n - 271);
  }

  lemma {:induction false} LshPositive(k: nat)
    ensures Lsh(1, k) > 0
  {
    if k > 0 { LshPositive(k - 1); }
  }

  /** The words of a key in the unpacked layout of which only the inode is not 0. */
  ghost function InodeOnly(inode: u64): seq<u64>
  {
    seq(4, _ => 0) + [inode]
  }

  const FAR_INODE: u64 := 0x1_0000

  /** A node between inodes 0 and 2^16 in the unpacked layout does not fit, and so turns left. */
  lemma {:induction false} FarApartInodes(m: Bound, exponent: nat, mantissa: nat, v: nat)
    requires LowFloat(FORMAT_CURRENT, m, exponent, mantissa) && BKEY_U64S <= Low(Value(m.words), 8)
    requires BkeyLossy.OnlySize(FORMAT_CURRENT, v)
    ensures Valid(FORMAT_CURRENT) && !NodeFits(FORMAT_CURRENT, Packed(InodeOnly(0)), m, Packed(InodeOnly(FAR_INODE)))
    ensures Low(Shr(v, exponent), 16) <= mantissa
  {
    hide Lsh, Shr, Low, Pow2, Value, Valid, KeyBits, ExponentFits, LowFloat, BkeyLossy.OnlySize;
    Bset.CurrentValid();
    Pow2Values();
    Pow2IsLsh(16);
    FarApart(FAR_INODE, 16);
    LowFloatTurnsLeft(FORMAT_CURRENT, m, exponent, mantissa, v);
    assert m.Packed? by { PackedLow(FORMAT_CURRENT, m, exponent, mantissa); }
  }

  lemma PackedLow(f: Format, m: Bound, exponent: nat, mantissa: nat)
    requires f.Shape() && LowFloat(f, m, exponent, mantissa)
    ensures m.Packed?
  {
  }

  /** Inode 0 and an inode that is a power of two from 2^15 on are too far apart. */
  lemma {:induction false} FarApart(inode: u64, k: nat)
    requires inode == Lsh(1, k) && k >= 15
    ensures Valid(FORMAT_CURRENT) && !ExponentFits(FORMAT_CURRENT, InodeOnly(0), InodeOnly(inode))
  {
    hide Lsh, Shr, Low, Pow2, Value, Valid, KeyBits, ExponentFits;
    Bset.CurrentValid();
    WordAbove(0, 4);
    WordAbove(inode, 4);
    LshZero(64 * 4);
    LshLsh(1, k, 64 * 4);
    TooFarApart(FORMAT_CURRENT, InodeOnly(0), InodeOnly(inode), k + 256);
  }

  lemma {:induction false} WordAbove(w: u64, n: nat)
    ensures Value(seq(n, _ => 0) + [w]) == Lsh(w, 64 * n)
  {
    hide Lsh;
    ShiftByZero(w);
    if n == 0 {
      LshZero(64);
      assert ([w])[1..] == [];
      assert seq(0, _ => 0) + [w] == [w];
    } else {
      WordAbove(w, n - 1);
      assert (seq(n, _ => 0) + [w])[1..] == seq(n - 1, _ => 0) + [w];
      LshLsh(w, 64 * (n - 1), 64);
    }
  }

  lemma {:induction false} DiffInRange(a: nat, b: nat, g: nat, k: nat)
    requires a < Pow2(k) && b < Pow2(k) && k > 0 && GreatestDiff(a, b, g)
    ensures g < k
  {
    hide Shr, Pow2;
    if a != b { DiffBelow(a, b, g + 1, k); }
  }

  lemma {:induction false} AgreeAbove(a: nat, b: nat, j: nat, k: nat)
    requires j <= k && Shr(a, j) == Shr(b, j)
    ensures Shr(a, k) == Shr(b, k)
  {
    hide Shr;
    ShrShr(a, j, k - j);
    ShrShr(b, j, k - j);
  }

  lemma {:induction false} WholeKey(v: nat, low: nat, g: nat, keyBits: nat)
    requires 0 < g <= low && keyBits + g == 16 && Shr(v, low) < Pow2(keyBits)
    ensures Shr(Low(Shr(v, low - g), 16), g) == Shr(v, low)
  {
    hide Lsh, Shr, Low, Pow2;
    var x := Shr(v, low - g);
    ShrShr(v, low - g, g);
    Split(x, g);
    LshGap(Shr(v, low), Pow2(keyBits), g);
    Pow2IsLsh(keyBits);
    LshLsh(1, keyBits, g);
    Pow2IsLsh(16);
    Pow2IsLsh(g);
    LowSmall(x, 16);
  }
}
