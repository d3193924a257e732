/**
 Comparing packed keys as raw bits (libbcachefs/bkey_cmp.h) and finding where two
 keys first differ (libbcachefs/bkey.c), proved to agree with the positions.
 */
module BkeyCmp {
  import opened Bits
  import opened Bkey
  import opened BkeyPack

  /** The position bits of a key, as one number. */
  ghost function Top(f: Format, v: nat): nat
    requires Valid(f)
  {
    LowBitsRange(f);
    Shr(v, 64 * f.keyU64s - KeyBits(f))
  }

  lemma {:induction false} TopBound(f: Format, v: nat)
    requires Valid(f) && v < Pow2(64 * f.keyU64s)
    ensures Top(f, v) < Pow2(KeyBits(f))
  {
    hide Lsh, Shr;
    LowBitsRange(f);
    LshLsh(1, KeyBits(f), 64 * f.keyU64s - KeyBits(f));
    ShrLt(v, Pow2(KeyBits(f)), 64 * f.keyU64s - KeyBits(f));
  }

  /** Comparing concatenations compares the high parts first. */
  lemma {:induction false} CmpJoin(a: nat, x: nat, b: nat, y: nat, k: nat)
    requires x < Pow2(k) && y < Pow2(k)
    ensures CmpInt(Lsh(a, k) + x, Lsh(b, k) + y) == if a != b then CmpInt(a, b) else CmpInt(x, y)
  {
    hide Lsh;
    if a < b { LshGap(a, b, k); } else if b < a { LshGap(b, a, k); }
  }

  /** The order of the position bits is the order of the positions, for every bit pattern. */
  lemma {:induction false} OrderEmbedding(f: Format, vl: nat, vr: nat)
    requires Valid(f) && vl < Pow2(64 * f.keyU64s) && vr < Pow2(64 * f.keyU64s)
    ensures CmpInt(Top(f, vl), Top(f, vr)) == BposCmp(DecodePos(f, vl), DecodePos(f, vr))
  {
    hide Lsh, Shr, Low, Pow2, Stream, RawField, DecodeField, CmpInt;
    LowBitsRange(f);
    RawStream(f, vl, 3);
    RawStream(f, vr, 3);
    var l, r := RawFields(f, vl), RawFields(f, vr);
    StreamCmp(f, vl, vr, 1);
    StreamCmp(f, vl, vr, 2);
    StreamCmp(f, vl, vr, 3);
    StreamZero(f.bits, l);
    StreamZero(f.bits, r);
    DecodedCmp(f, vl, vr, 0);
    DecodedCmp(f, vl, vr, 1);
    DecodedCmp(f, vl, vr, 2);
    CmpZero(DecodeField(f, vl, 0), DecodeField(f, vr, 0));
    CmpZero(DecodeField(f, vl, 1), DecodeField(f, vr, 1));
    CmpZero(Stream(f.bits, l, 0), Stream(f.bits, r, 0));
    CmpZero(Stream(f.bits, l, 1), Stream(f.bits, r, 1));
    CmpZero(Stream(f.bits, l, 2), Stream(f.bits, r, 2));
  }

  lemma CmpZero(a: int, b: int)
    ensures CmpInt(a, b) == 0 <==> a == b
  {
  }

  lemma StreamZero(bits: seq<nat>, vals: seq<nat>)
    ensures Stream(bits, vals, 0) == 0
  {
  }

  lemma {:induction false} StreamCmp(f: Format, vl: nat, vr: nat, i: nat)
    requires Valid(f) && 1 <= i <= NR_FIELDS
    ensures var l, r := RawFields(f, vl), RawFields(f, vr);
            var a, b := Stream(f.bits, l, i - 1), Stream(f.bits, r, i - 1);
            CmpInt(Stream(f.bits, l, i), Stream(f.bits, r, i))
            == if a != b then CmpInt(a, b) else CmpInt(l[i - 1], r[i - 1])
  {
    hide Lsh, Shr, Low, Pow2, RawField, RawFields;
    var l, r := RawFields(f, vl), RawFields(f, vr);
    RawBound(f, vl, i - 1);
    RawBound(f, vr, i - 1);
    CmpJoin(Stream(f.bits, l, i - 1), l[i - 1], Stream(f.bits, r, i - 1), r[i - 1], f.bits[i - 1]);
  }

  lemma {:induction false} RawBound(f: Format, v: nat, i: nat)
    requires Valid(f) && i < NR_FIELDS
    ensures RawFields(f, v)[i] < Pow2(f.bits[i])
  {
    hide Lsh, Shr, Low, Pow2;
    LowBitsRange(f);
    RawFieldIs(f, v, i);
    Split(Shr(v, 64 * f.keyU64s - Total(f.bits, i + 1)), f.bits[i]);
  }

  lemma {:induction false} DecodedCmp(f: Format, vl: nat, vr: nat, i: nat)
    requires Valid(f) && i < NR_FIELDS
    ensures CmpInt(RawFields(f, vl)[i], RawFields(f, vr)[i])
            == CmpInt(DecodeField(f, vl, i), DecodeField(f, vr, i))
  {
    hide Lsh, Shr, Low;
    LowBitsRange(f);
  }

  /** What is below word p does not change the order once word p or one above it differs. */
  lemma {:induction false} ShrOrder(vl: nat, vr: nat, s: nat, t: nat)
    requires s <= t && Shr(vl, t) < Shr(vr, t)
    ensures Shr(vl, s) < Shr(vr, s)
  {
    hide Shr;
    ShrShr(vl, s, t - s);
    ShrShr(vr, s, t - s);
    if Shr(vl, s) >= Shr(vr, s) { ShrMonotone(Shr(vr, s), Shr(vl, s), t - s); }
  }

  /** The top bits down to bit `cut` of word p: the words above, then that part of word p. */
  lemma {:induction false} ShrWithinWord(words: seq<u64>, p: nat, cut: nat)
    requires p < |words| && cut <= 64
    ensures Shr(Value(words), 64 * p + cut) == Lsh(Value(words[p + 1..]), 64 - cut) + Shr(words[p], cut)
    ensures Shr(words[p], cut) < Pow2(64 - cut)
  {
    hide Lsh, Shr, Low, Value;
    ShrShr(Value(words), 64 * p, cut);
    ValueDrop(words, p);
    assert words[p..][1..] == words[p + 1..];
    ValueCons(words[p..]);
    LshLsh(Value(words[p + 1..]), 64 - cut, cut);
    LowAddMultiple(Lsh(Value(words[p + 1..]), 64 - cut), words[p], cut);
    LowWord(words[p]);
    TopBits(words[p], 64, 64 - cut);
  }

  lemma {:induction false} EmptyTop(words: seq<u64>)
    ensures Shr(Value(words), 64 * |words|) == 0
  {
    ValueBound(words);
    LowSmall(Value(words), 64 * |words|);
  }

  /** The portable __bkey_cmp_bits: compares the top nrKeyBits bits, word by word. */
  method CmpBits(l: seq<u64>, r: seq<u64>, nrKeyBits: nat) returns (cmp: int)
    requires |l| == |r| > 0 && nrKeyBits <= 64 * |l|
    ensures cmp == CmpInt(Shr(Value(l), 64 * |l| - nrKeyBits), Shr(Value(r), 64 * |l| - nrKeyBits))
  {
    hide Lsh, Shr, Low, Value, Pow2, CmpInt;
    if nrKeyBits == 0 {
      EmptyTop(l);
      EmptyTop(r);
      CmpZero(0, 0);
      return 0;
    }
    ghost var cut := 64 * |l| - nrKeyBits;
    var nr, p := nrKeyBits, |l| - 1;
    var lv, rv: nat := l[p], r[p];
    assert l[p + 1..] == r[p + 1..];
    while true
      invariant 0 <= p < |l| && lv == l[p] && rv == r[p]
      invariant 0 < nr && cut + nr == 64 * (p + 1)
      invariant Value(l[p + 1..]) == Value(r[p + 1..])
      decreases p
    {
      if nr < 64 {
        lv := Shr(lv, 64 - nr);
        rv := Shr(rv, 64 - nr);
        nr := 0;
        ShrWithinWord(l, p, cut - 64 * p);
        ShrWithinWord(r, p, cut - 64 * p);
        CmpJoin(Value(l[p + 1..]), lv, Value(r[p + 1..]), rv, 64 - (cut - 64 * p));
      } else {
        nr := nr - 64;
        WordDecides(l, r, p, cut);
      }
      if nr == 0 || lv != rv { break; }
      p := p - 1;
      lv := l[p];
      rv := r[p];
    }
    cmp := CmpInt(lv, rv);
  }

  /** Given equal words above p, word p decides unless it is equal too. */
  lemma {:induction false} WordDecides(l: seq<u64>, r: seq<u64>, p: nat, cut: nat)
    requires p < |l| == |r| && cut <= 64 * p
    requires Value(l[p + 1..]) == Value(r[p + 1..])
    ensures l[p] != r[p] || cut == 64 * p ==>
              CmpInt(l[p], r[p]) == CmpInt(Shr(Value(l), cut), Shr(Value(r), cut))
    ensures l[p] == r[p] ==> Value(l[p..]) == Value(r[p..])
  {
    hide Lsh, Shr, Low, Value, Pow2;
    ShrWithinWord(l, p, 0);
    ShrWithinWord(r, p, 0);
    ShiftByZero(l[p]);
    ShiftByZero(r[p]);
    ValueDrop(l, p);
    ValueDrop(r, p);
    if l[p] < r[p] {
      ShrOrder(Value(l), Value(r), cut, 64 * p);
    } else if r[p] < l[p] {
      ShrOrder(Value(r), Value(l), cut, 64 * p);
    }
  }

  /** __bch2_bkey_cmp_packed_format_checked: raw comparison of two packed keys. */
  method CmpPacked(f: Format, l: seq<u64>, r: seq<u64>) returns (cmp: int)
    requires Valid(f) && |l| == |r| == f.keyU64s
    ensures cmp == BposCmp(DecodePos(f, Value(l)), DecodePos(f, Value(r)))
  {
    hide Lsh, Shr, Low, Value, Pow2;
    LowBitsRange(f);
    ValueBound(l);
    ValueBound(r);
    OrderEmbedding(f, Value(l), Value(r));
    cmp := CmpBits(l, r, KeyBits(f));
  }

  /** g is the highest bit in which the numbers a and b differ; 0 if they do not. */
  ghost predicate GreatestDiff(a: nat, b: nat, g: nat)
  {
    && Shr(a, g + 1) == Shr(b, g + 1)
    && (a != b ==> Shr(a, g) != Shr(b, g))
    && (a == b ==> g == 0)
  }

  /** bch2_bkey_greatest_differing_bit, over the top nrKeyBits bits. */
  method GreatestDifferingBit(l: seq<u64>, r: seq<u64>, nrKeyBits: nat) returns (g: nat)
    requires |l| == |r| > 0 && nrKeyBits <= 64 * |l|
    ensures GreatestDiff(Shr(Value(l), 64 * |l| - nrKeyBits), Shr(Value(r), 64 * |l| - nrKeyBits), g)
  {
    hide Lsh, Shr, Low, Value, Pow2, Xor, Fls;
    ghost var cut := 64 * |l| - nrKeyBits;
    ghost var a, b := Shr(Value(l), cut), Shr(Value(r), cut);
    var nr, p := nrKeyBits, |l| - 1;
    EmptyTop(l);
    EmptyTop(r);
    assert l[p + 1..] == r[p + 1..];
    while nr > 0
      invariant -1 <= p < |l| && cut + nr == if nr > 0 then 64 * (p + 1) else cut
      invariant nr > 0 ==> p >= 0 && Value(l[p + 1..]) == Value(r[p + 1..])
      invariant nr == 0 ==> a == b
      decreases nr
    {
      var lv, rv: nat := l[p], r[p];
      ghost var low := if nr < 64 then 64 - nr else 0;
      ShrWithinWord(l, p, low);
      ShrWithinWord(r, p, low);
      ShiftByZero(l[p]);
      ShiftByZero(r[p]);
      if nr < 64 {
        lv := Shr(lv, 64 - nr);
        rv := Shr(rv, 64 - nr);
        nr := 0;
      } else {
        nr := nr - 64;
      }
      ShrShr(Value(l), cut, nr);
      ShrShr(Value(r), cut, nr);
      ShiftByZero(a);
      ShiftByZero(b);
      if lv != rv {
        g := Fls(Xor(lv, rv)) - 1 + nr by {
          XorHighest(lv, rv);
        }
        DiffInWord(a, b, nr, Value(l[p + 1..]), lv, rv, 64 - low);
        return;
      }
      ValueDrop(l, p);
      ValueDrop(r, p);
      p := p - 1;
    }
    SameEverywhere(a, b);
    g := 0;
  }

  lemma SameEverywhere(a: nat, b: nat)
    requires a == b
    ensures Shr(a, 1) == Shr(b, 1)
  {
  }

  /** Above bit nr, a and b are `high` followed by different k-bit parts x and y. */
  lemma {:induction false} DiffInWord(a: nat, b: nat, nr: nat, high: nat, x: nat, y: nat, k: nat)
    requires x != y && x < Pow2(k) && y < Pow2(k)
    requires Shr(a, nr) == Lsh(high, k) + x && Shr(b, nr) == Lsh(high, k) + y
    ensures Fls(Xor(x, y)) >= 1
    ensures GreatestDiff(a, b, Fls(Xor(x, y)) - 1 + nr)
  {
    hide Lsh, Shr, Low, Xor, Fls;
    XorHighest(x, y);
    var h := Fls(Xor(x, y));
    DiffBelow(x, y, h, k);
    LshLsh(high, k - h, h);
    LowAddMultiple(Lsh(high, k - h), x, h);
    LowAddMultiple(Lsh(high, k - h), y, h);
    LshLsh(high, k - (h - 1), h - 1);
    LowAddMultiple(Lsh(high, k - (h - 1)), x, h - 1);
    LowAddMultiple(Lsh(high, k - (h - 1)), y, h - 1);
    ShrShr(a, nr, h);
    ShrShr(b, nr, h);
    ShrShr(a, nr, h - 1);
    ShrShr(b, nr, h - 1);
  }

  lemma {:induction false} DiffBelow(x: nat, y: nat, h: nat, k: nat)
    requires x < Pow2(k) && y < Pow2(k) && h > 0 && Shr(x, h - 1) != Shr(y, h - 1)
    ensures h <= k
  {
    hide Lsh, Shr, Low;
    if k <= h - 1 {
      LowSmall(x, k);
      LowSmall(y, k);
      ShrShr(x, k, h - 1 - k);
      ShrShr(y, k, h - 1 - k);
    }
  }
}
