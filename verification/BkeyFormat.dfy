/**
 Building a node's key format from the keys it must hold
 (bch2_bkey_format_init, _add_key, _add_pos and _done in libbcachefs/bkey.c).
 */
module BkeyFormat {
  import opened Bits
  import opened Bkey
  import opened BkeyPack
  import BkeyLossy

  /** A field of `bits` bits at `offset` represents every value in [lo, hi]. */
  ghost predicate CoversRange(bits: nat, offset: nat, lo: nat, hi: nat)
  {
    offset <= lo && hi < offset + Pow2(bits)
  }

  /** The width and offset chosen by set_format_field for field i. */
  function FormatField(i: nat, bits: nat, offset: nat): (r: (nat, u64))
    requires i < NR_FIELDS && offset < W64
    ensures r.0 == Min(bits, UNPACKED_BITS[i])
  {
    var unpackedBits := UNPACKED_BITS[i];
    var b := Min(bits, unpackedBits);
    UnpackedMaxBound(i, b);
    (b, if b == unpackedBits then 0 else Min(offset, Pow2(unpackedBits) - 1 - (Pow2(b) - 1)))
  }

  lemma {:induction false} UnpackedMaxBound(i: nat, b: nat)
    requires i < NR_FIELDS && b <= UNPACKED_BITS[i]
    ensures Pow2(b) <= Pow2(UNPACKED_BITS[i]) <= W64
  {
    Pow2Values();
    Pow2Monotone(b, UNPACKED_BITS[i]);
    Pow2Monotone(UNPACKED_BITS[i], 64);
  }

  /** The chosen field stays in range and still represents what was asked for. */
  lemma {:induction false} FormatFieldCovers(i: nat, bits: nat, offset: nat, lo: nat, hi: nat)
    requires i < NR_FIELDS && offset < W64
    requires CoversRange(bits, offset, lo, hi) && lo <= hi < Pow2(UNPACKED_BITS[i])
    ensures var (b, o) := FormatField(i, bits, offset);
            CoversRange(b, o, lo, hi) && o + Pow2(b) - 1 < Pow2(UNPACKED_BITS[i])
  {
    hide Pow2;
    UnpackedMaxBound(i, Min(bits, UNPACKED_BITS[i]));
  }

  lemma {:induction false} TotalUpdate(bits: seq<nat>, j: nat, x: nat, n: nat)
    requires j < n <= |bits|
    ensures Total(bits[j := x], n) + bits[j] == Total(bits, n) + x
  {
    if n == j + 1 {
      TotalPrefix(bits, bits[j := x], j);
    } else {
      TotalUpdate(bits, j, x, n - 1);
    }
  }

  lemma {:induction false} TotalPrefix(a: seq<nat>, b: seq<nat>, n: nat)
    requires n <= |a| && n <= |b| && a[..n] == b[..n]
    ensures Total(a, n) == Total(b, n)
  {
    if n > 0 {
      assert a[..n - 1] == a[..n][..n - 1] == b[..n][..n - 1] == b[..n - 1];
      assert a[n - 1] == a[..n][n - 1] == b[..n][n - 1];
      TotalPrefix(a, b, n - 1);
    }
  }

  /** Field j of f is in range and represents [lo, hi]. */
  ghost predicate FieldGood(f: Format, j: nat, lo: nat, hi: nat)
    requires f.Shape() && j < NR_FIELDS
  {
    FieldValid(f, j) && CoversRange(f.bits[j], f.offsets[j], lo, hi)
  }

  /** Setting field i makes it good and leaves the earlier ones as they were. */
  lemma {:induction false} FieldChosen(prev: Format, ret: Format, i: nat, lo: seq<u64>, hi: seq<u64>)
    requires prev.Shape() && ret.Shape() && i < NR_FIELDS && |lo| == |hi| == NR_FIELDS
    requires forall j :: 0 <= j < i ==> ret.bits[j] == prev.bits[j] && ret.offsets[j] == prev.offsets[j]
    requires forall j :: 0 <= j < i ==> FieldGood(prev, j, lo[j], hi[j])
    requires CoversRange(ret.bits[i], ret.offsets[i], lo[i], hi[i])
    requires ret.offsets[i] + Pow2(ret.bits[i]) - 1 < Pow2(UNPACKED_BITS[i])
    ensures forall j :: 0 <= j < i + 1 ==> FieldGood(ret, j, lo[j], hi[j])
  {
    hide Pow2;
    forall j | 0 <= j < i + 1
      ensures FieldGood(ret, j, lo[j], hi[j])
    {
      if j < i { assert FieldGood(prev, j, lo[j], hi[j]); }
    }
  }

  /** struct bkey_format_state. */
  class FormatState {
    const fieldMin: array<u64>
    const fieldMax: array<u64>

    ghost predicate Valid()
      reads this, fieldMin, fieldMax
    {
      && fieldMin.Length == NR_FIELDS && fieldMax.Length == NR_FIELDS && fieldMin != fieldMax
      && fieldMin[SIZE] == 0
      && forall i :: 0 <= i < NR_FIELDS ==> fieldMax[i] < Pow2(UNPACKED_BITS[i])
    }

    /** The first |vals| fields of vals lie between the recorded minima and maxima. */
    ghost predicate Covers(vals: seq<u64>)
      requires Valid() && |vals| <= NR_FIELDS
      reads this, fieldMin, fieldMax
    {
      forall i :: 0 <= i < |vals| ==> fieldMin[i] <= vals[i] <= fieldMax[i]
    }

    /** bch2_bkey_format_init. */
    constructor ()
      ensures Valid() && fresh(fieldMin) && fresh(fieldMax)
      ensures forall i :: 0 <= i < NR_FIELDS ==> fieldMin[i] == (if i == SIZE then 0 else W64 - 1) && fieldMax[i] == 0
    {
      fieldMin := new u64[NR_FIELDS](i => if i == SIZE then 0 else W64 - 1);
      fieldMax := new u64[NR_FIELDS](i => 0);
    }

    /** __bkey_format_add. */
    method Add(field: nat, v: u64)
      requires Valid() && field < NR_FIELDS && v < Pow2(UNPACKED_BITS[field])
      modifies fieldMin, fieldMax
      ensures Valid()
      ensures fieldMin[field] == Min(old(fieldMin[field]), v) && fieldMax[field] == Max(old(fieldMax[field]), v)
      ensures forall i :: 0 <= i < NR_FIELDS && i != field ==> fieldMin[i] == old(fieldMin[i]) && fieldMax[i] == old(fieldMax[i])
    {
      fieldMin[field] := Min(fieldMin[field], v);
      fieldMax[field] := Max(fieldMax[field], v);
    }

    /** bch2_bkey_format_add_key and _add_pos: widens the ranges to include vals. */
    method AddFields(vals: seq<u64>)
      requires Valid() && |vals| <= NR_FIELDS
      requires forall i :: 0 <= i < |vals| ==> vals[i] < Pow2(UNPACKED_BITS[i])
      modifies fieldMin, fieldMax
      ensures Valid() && Covers(vals)
      ensures forall i :: 0 <= i < |vals| ==>
                fieldMin[i] == Min(old(fieldMin[i]), vals[i]) && fieldMax[i] == Max(old(fieldMax[i]), vals[i])
      ensures forall i :: |vals| <= i < NR_FIELDS ==> fieldMin[i] == old(fieldMin[i]) && fieldMax[i] == old(fieldMax[i])
    {
      hide Pow2;
      var field := 0;
      while field < |vals|
        invariant 0 <= field <= |vals| && Valid()
        invariant forall i :: 0 <= i < field ==>
                    fieldMin[i] == Min(old(fieldMin[i]), vals[i]) && fieldMax[i] == Max(old(fieldMax[i]), vals[i])
        invariant forall i :: field <= i < NR_FIELDS ==> fieldMin[i] == old(fieldMin[i]) && fieldMax[i] == old(fieldMax[i])
      {
        Add(field, vals[field]);
        field := field + 1;
      }
    }

    /** The first loop of bch2_bkey_format_done: narrowest fields for the ranges. */
    method ChooseFields() returns (ret: Format, bits: nat)
      requires Valid()
      modifies fieldMin
      ensures Valid() && ret.Shape() && ret.nrFields == NR_FIELDS
      ensures bits == KEY_PACKED_BITS_START + Total(ret.bits, NR_FIELDS)
      ensures forall i :: 0 <= i < NR_FIELDS ==> fieldMin[i] <= fieldMax[i] && fieldMin[i] <= old(fieldMin[i])
      ensures forall i :: 0 <= i < NR_FIELDS ==> FieldGood(ret, i, fieldMin[i], fieldMax[i])
      ensures ret.offsets[SIZE] == 0
    {
      hide Pow2, Fls, FieldGood;
      bits := KEY_PACKED_BITS_START;
      ret := Format(0, NR_FIELDS, [0, 0, 0, 0, 0, 0], [0, 0, 0, 0, 0, 0]);
      var i := 0;
      while i < NR_FIELDS
        invariant 0 <= i <= NR_FIELDS && Valid() && ret.Shape() && ret.nrFields == NR_FIELDS
        invariant bits == KEY_PACKED_BITS_START + Total(ret.bits, i)
        invariant forall j :: 0 <= j < i ==> fieldMin[j] <= fieldMax[j]
        invariant forall j :: 0 <= j < NR_FIELDS ==> fieldMin[j] <= old(fieldMin[j])
        invariant forall j :: 0 <= j < i ==> FieldGood(ret, j, fieldMin[j], fieldMax[j])
        invariant i > SIZE ==> ret.offsets[SIZE] == 0
      {
        fieldMin[i] := Min(fieldMin[i], fieldMax[i]);
        var width := Fls(fieldMax[i] - fieldMin[i]);
        FlsBound(fieldMax[i] - fieldMin[i], width);
        FormatFieldCovers(i, width, fieldMin[i], fieldMin[i], fieldMax[i]);
        var (b, o) := FormatField(i, width, fieldMin[i]);
        ghost var prev := ret;
        ret := ret.(bits := ret.bits[i := b], offsets := ret.offsets[i := o]);
        TotalPrefix(prev.bits, ret.bits, i);
        FieldChosen(prev, ret, i, fieldMin[..], fieldMax[..]);
        bits := bits + b;
        i := i + 1;
      }
    }

    /** bch2_bkey_format_done. */
    method Done() returns (ret: Format)
      requires Valid()
      modifies fieldMin
      ensures Bkey.Valid(ret)
      ensures forall vals: seq<u64> :: |vals| <= NR_FIELDS && old(Covers(vals)) ==>
                forall i :: 0 <= i < |vals| ==> FieldFits(ret, vals, i)
    {
      hide Pow2, Fls, Total;
      var bits;
      ret, bits := ChooseFields();
      // allow for extent merging
      if ret.bits[SIZE] != 0 {
        assert FieldGood(ret, SIZE, fieldMin[SIZE], fieldMax[SIZE]);
        BitsWithinWord(ret, SIZE);
        var b := Min(4, 32 - ret.bits[SIZE]);
        WiderSize(ret, fieldMin[SIZE], fieldMax[SIZE], ret.bits[SIZE] + b);
        TotalUpdate(ret.bits, SIZE, ret.bits[SIZE] + b, NR_FIELDS);
        ret := ret.(bits := ret.bits[SIZE := ret.bits[SIZE] + b]);
        bits := bits + b;
      }
      ret := ret.(keyU64s := DivRoundUp(bits, 64));
      ret := RoundToBytes(ret, fieldMin[..], fieldMax[..], ret.keyU64s * 64 - bits);
      forall vals: seq<u64>, i: nat | |vals| <= NR_FIELDS && old(Covers(vals)) && i < |vals|
        ensures FieldFits(ret, vals, i)
      {
        assert FieldGood(ret, i, fieldMin[i], fieldMax[i]);
      }
    }
  }

  /** Extra size bits keep the field valid: its offset is zero. */
  lemma {:induction false} WiderSize(f: Format, lo: nat, hi: nat, bits: nat)
    requires f.Shape() && FieldGood(f, SIZE, lo, hi) && f.offsets[SIZE] == 0
    requires f.bits[SIZE] <= bits <= 32
    ensures FieldGood(f.(bits := f.bits[SIZE := bits]), SIZE, lo, hi)
  {
    Pow2Monotone(f.bits[SIZE], bits);
    Pow2Monotone(bits, 32);
  }

  function RoundUp8(x: nat): nat { (x + 7) / 8 * 8 }

  /** The second loop of bch2_bkey_format_done: spends spare bits on whole bytes. */
  method RoundToBytes(f: Format, lo: seq<u64>, hi: seq<u64>, spare: nat) returns (ret: Format)
    requires f.Shape() && f.nrFields == NR_FIELDS && |lo| == |hi| == NR_FIELDS
    requires forall i :: 0 <= i < NR_FIELDS ==> lo[i] <= hi[i] < Pow2(UNPACKED_BITS[i])
    requires forall i :: 0 <= i < NR_FIELDS ==> FieldGood(f, i, lo[i], hi[i])
    requires KEY_PACKED_BITS_START + Total(f.bits, NR_FIELDS) + spare == 64 * f.keyU64s && spare < 64
    ensures Bkey.Valid(ret)
    ensures forall i :: 0 <= i < NR_FIELDS ==> FieldGood(ret, i, lo[i], hi[i])
  {
    hide Pow2, Total;
    ret := f;
    var bits := spare;
    var i := 0;
    while i < NR_FIELDS
      invariant 0 <= i <= NR_FIELDS && ret.Shape() && ret.nrFields == NR_FIELDS
      invariant ret.keyU64s == f.keyU64s
      invariant forall j :: 0 <= j < NR_FIELDS ==> FieldGood(ret, j, lo[j], hi[j])
      invariant KEY_PACKED_BITS_START + Total(ret.bits, NR_FIELDS) + bits == 64 * f.keyU64s && 0 <= bits < 64
    {
      assert FieldGood(ret, i, lo[i], hi[i]);
      BitsWithinWord(ret, i);
      var r := RoundUp8(ret.bits[i]) - ret.bits[i];
      if r <= bits {
        WiderCovers(ret.bits[i], ret.bits[i] + r, ret.offsets[i], lo[i], hi[i]);
        FormatFieldCovers(i, ret.bits[i] + r, ret.offsets[i], lo[i], hi[i]);
        var (b, o) := FormatField(i, ret.bits[i] + r, ret.offsets[i]);
        TotalUpdate(ret.bits, i, b, NR_FIELDS);
        ret := ret.(bits := ret.bits[i := b], offsets := ret.offsets[i := o]);
        bits := bits - r;
      }
      i := i + 1;
    }
  }

  lemma {:induction false} WiderCovers(bits: nat, wider: nat, offset: nat, lo: nat, hi: nat)
    requires bits <= wider && CoversRange(bits, offset, lo, hi)
    ensures CoversRange(wider, offset, lo, hi)
  {
    Pow2Monotone(bits, wider);
  }

  lemma {:induction false} BitsWithinWord(f: Format, i: nat)
    requires f.Shape() && i < NR_FIELDS && FieldValid(f, i)
    ensures f.bits[i] <= UNPACKED_BITS[i] && RoundUp8(f.bits[i]) <= UNPACKED_BITS[i]
  {
    if f.bits[i] > UNPACKED_BITS[i] { Pow2Monotone(UNPACKED_BITS[i], f.bits[i]); }
  }

  /** A format built for some keys and positions is valid and packs all of them. */
  method BuildFormat(keys: seq<Key>, positions: seq<Bpos>) returns (f: Format)
    ensures Bkey.Valid(f)
    ensures forall k :: k in keys ==> Fits(f, k)
    ensures forall p :: p in positions ==> BkeyLossy.Representable(f, p)
  {
    hide Pow2;
    var s := new FormatState();
    var i := 0;
    while i < |keys|
      invariant 0 <= i <= |keys| && s.Valid() && fresh(s.fieldMin) && fresh(s.fieldMax)
      invariant forall j :: 0 <= j < i ==> s.Covers(Fields(keys[j]))
    {
      FieldWidths(keys[i]);
      s.AddFields(Fields(keys[i]));
      i := i + 1;
    }
    i := 0;
    while i < |positions|
      invariant 0 <= i <= |positions| && s.Valid() && fresh(s.fieldMin) && fresh(s.fieldMax)
      invariant forall j :: 0 <= j < |keys| ==> s.Covers(Fields(keys[j]))
      invariant forall j :: 0 <= j < i ==> s.Covers(PosFields(positions[j]))
    {
      PosWidths(positions[i]);
      s.AddFields(PosFields(positions[i]));
      i := i + 1;
    }
    f := s.Done();
  }

  lemma {:induction false} FieldWidths(k: Key)
    ensures forall i :: 0 <= i < NR_FIELDS ==> Fields(k)[i] < Pow2(UNPACKED_BITS[i])
  {
    Pow2Values();
  }

  lemma {:induction false} PosWidths(p: Bpos)
    ensures forall i :: 0 <= i < 3 ==> PosFields(p)[i] < Pow2(UNPACKED_BITS[i])
  {
    Pow2Values();
  }
}
