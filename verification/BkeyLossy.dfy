/**
 bch2_bkey_pack_pos_lossy: packs a search position into a node's format, rounding
 down when it does not fit. The result is the greatest representable position at
 or below the input.
 */
module BkeyLossy {
  import opened Bits
  import opened Bkey
  import opened BkeyPack

  datatype PackPosRet = EXACT | SMALLER | FAIL

  ghost predicate Representable(f: Format, p: Bpos)
    requires f.Shape()
  {
    forall i :: 0 <= i < 3 ==> FieldFits(f, PosFields(p), i)
  }

  /** q is the greatest representable position that is at most p. */
  ghost predicate IsFloor(f: Format, p: Bpos, q: Bpos)
    requires f.Shape()
  {
    && Representable(f, q) && BposLe(q, p)
    && forall r :: Representable(f, r) && BposLe(r, p) ==> BposLe(r, q)
  }

  ghost predicate NoneBelow(f: Format, p: Bpos)
    requires f.Shape()
  {
    forall r :: Representable(f, r) ==> !BposLe(r, p)
  }

  /** The same representable positions lie at or below p and q. */
  ghost predicate SameLower(f: Format, p: Bpos, q: Bpos)
    requires f.Shape()
  {
    forall r :: Representable(f, r) ==> (BposLe(r, p) <==> BposLe(r, q))
  }

  // ---- borrowing from the field above ----

  datatype Borrowed = None | Some(pos: Bpos)

  /** snapshot is below every stored one: the largest position with a smaller (inode, offset). */
  function BorrowSnapshot(p: Bpos): Borrowed
  {
    if p.offset != 0 then Some(Bpos(p.inode, p.offset - 1, KEY_SNAPSHOT_MAX))
    else if p.inode != 0 then Some(Bpos(p.inode - 1, KEY_OFFSET_MAX, KEY_SNAPSHOT_MAX))
    else None
  }

  function BorrowOffset(p: Bpos): Borrowed
  {
    if p.inode != 0 then Some(Bpos(p.inode - 1, KEY_OFFSET_MAX, KEY_SNAPSHOT_MAX)) else None
  }

  lemma FieldsOf(f: Format, r: Bpos)
    requires f.Shape() && Representable(f, r)
    ensures f.offsets[0] <= r.inode < f.offsets[0] + Pow2(f.bits[0])
    ensures f.offsets[1] <= r.offset < f.offsets[1] + Pow2(f.bits[1])
    ensures f.offsets[2] <= r.snapshot < f.offsets[2] + Pow2(f.bits[2])
  {
    assert FieldFits(f, PosFields(r), 0);
    assert FieldFits(f, PosFields(r), 1);
    assert FieldFits(f, PosFields(r), 2);
  }

  lemma BorrowSnapshotExact(f: Format, p: Bpos)
    requires f.Shape() && p.snapshot < f.offsets[2]
    ensures BorrowSnapshot(p).None? ==> NoneBelow(f, p)
    ensures BorrowSnapshot(p).Some? ==> SameLower(f, p, BorrowSnapshot(p).pos)
    ensures !Representable(f, p)
  {
    hide Pow2, Representable;
    forall r | Representable(f, r)
      ensures r.snapshot > p.snapshot
    {
      FieldsOf(f, r);
    }
  }

  lemma BorrowOffsetExact(f: Format, p: Bpos)
    requires f.Shape() && p.offset < f.offsets[1]
    ensures BorrowOffset(p).None? ==> NoneBelow(f, p)
    ensures BorrowOffset(p).Some? ==> SameLower(f, p, BorrowOffset(p).pos)
    ensures !Representable(f, p)
  {
    hide Pow2, Representable;
    forall r | Representable(f, r)
      ensures r.offset > p.offset
    {
      FieldsOf(f, r);
    }
  }

  lemma InodeTooSmall(f: Format, p: Bpos)
    requires f.Shape() && p.inode < f.offsets[0]
    ensures NoneBelow(f, p) && !Representable(f, p)
  {
    hide Pow2, Representable;
    forall r | Representable(f, r)
      ensures r.inode > p.inode
    {
      FieldsOf(f, r);
    }
  }

  // ---- clamping ----

  function FieldMax(f: Format, i: nat): nat
    requires f.Shape() && i < NR_FIELDS
  {
    f.offsets[i] + Pow2(f.bits[i]) - 1
  }

  /** The three values packed for a position that is at or above every offset. */
  ghost function Clamped(f: Format, p: Bpos): (nat, nat, nat)
    requires f.Shape()
  {
    if p.inode > FieldMax(f, 0) then (FieldMax(f, 0), FieldMax(f, 1), FieldMax(f, 2))
    else if p.offset > FieldMax(f, 1) then (p.inode, FieldMax(f, 1), FieldMax(f, 2))
    else if p.snapshot > FieldMax(f, 2) then (p.inode, p.offset, FieldMax(f, 2))
    else (p.inode, p.offset, p.snapshot)
  }

  ghost predicate AboveOffsets(f: Format, p: Bpos)
    requires f.Shape()
  {
    f.offsets[0] <= p.inode && f.offsets[1] <= p.offset && f.offsets[2] <= p.snapshot
  }

  lemma {:induction false} FieldMaxFits(f: Format)
    requires Valid(f)
    ensures FieldMax(f, 0) < W64 && FieldMax(f, 1) < W64 && FieldMax(f, 2) < W32
  {
    Pow2Values();
    assert FieldValid(f, 0) && FieldValid(f, 1) && FieldValid(f, 2);
  }

  lemma {:induction false} ClampIsFloor(f: Format, p: Bpos, q: Bpos)
    requires Valid(f) && AboveOffsets(f, p)
    requires (q.inode as int, q.offset as int, q.snapshot as int) == Clamped(f, p)
    ensures IsFloor(f, p, q)
    ensures q == p <==> Representable(f, p)
  {
    hide Pow2, FieldValid;
    assert Representable(f, q);
    forall r | Representable(f, r) && BposLe(r, p)
      ensures BposLe(r, q)
    {
      FieldsOf(f, r);
    }
    if Representable(f, p) { FieldsOf(f, p); }
  }

  // ---- the method ----

  /** set_inc_field_lossy: packs v, or the field's maximum if v is too large. */
  method SetFieldLossy(state: PackState, f: Format, out: array<u64>, ghost c: nat, ghost acc: nat, field: nat, v: u64)
    returns (exact: bool)
    requires Valid(f) && field < 3 && f.offsets[field] <= v
    requires state.f == f && state.out == out && state.At(c, acc) && c == Total(f.bits, field)
    modifies state, out
    ensures exact <==> v <= FieldMax(f, field)
    ensures state.At(Total(f.bits, field + 1),
                     Lsh(acc, f.bits[field]) + Min(v, FieldMax(f, field)) - f.offsets[field])
    ensures state.p <= old(state.p)
    ensures forall i :: 0 <= i < out.Length && (i < state.p || i > old(state.p)) ==> out[i] == old(out[i])
  {
    hide Lsh, Value, Fls, Low;
    LowBitsRange(f);
    assert FieldValid(f, field);
    Pow2Values();
    Pow2Monotone(UNPACKED_BITS[field], 64);
    var d := v - f.offsets[field];
    exact := true;
    FlsBound(d, f.bits[field]);
    assert Total(f.bits, field + 1) == Total(f.bits, field) + f.bits[field];
    if Fls(d) > f.bits[field] {
      d := Pow2(f.bits[field]) - 1;
      exact := false;
    }
    state.SetField(c, acc, field, d);
  }

  /** The key words that hold position values d above zero padding, with the header of a search key. */
  ghost function PosValue(f: Format, d: seq<nat>): nat
    requires Valid(f) && |d| == 3
  {
    LowBitsRange(f);
    Lsh(Stream(f.bits, d, 3), 64 * f.keyU64s - KeyBits(f)) + f.keyU64s
  }

  lemma {:induction false} PosValueDecodes(f: Format, d: seq<nat>, i: nat)
    requires Valid(f) && |d| == 3 && i < 3
    requires forall j :: 0 <= j < 3 ==> d[j] < Pow2(f.bits[j])
    ensures DecodeField(f, PosValue(f, d), i) == d[i] + f.offsets[i]
  {
    hide Lsh, Shr, Low, Pow2, Stream;
    LowBitsRange(f);
    var s := 64 * f.keyU64s - KeyBits(f);
    Pow2Values();
    Pow2Monotone(8, s);
    StreamDecode(f.bits, d, 3, i, f.keyU64s, s);
  }

  lemma {:induction false} ZeroWords(words: seq<u64>)
    requires forall i :: 0 <= i < |words| ==> words[i] == 0
    ensures Value(words) == 0
  {
    if |words| > 0 {
      ZeroWords(words[1..]);
      LshZero(64);
    }
  }

  /** Zero words below the last word written. */
  lemma {:induction false} ZeroPadded(words: seq<u64>, p: nat, bits: nat, acc: nat)
    requires p < |words| && KEY_PACKED_BITS_START <= 64 * p + bits
    requires Value(words[p..]) == Lsh(acc, bits)
    requires forall i :: 0 <= i < p ==> words[i] == 0
    ensures Value(words) == Lsh(acc, 64 * p + bits) && words[0] % 0x100_0000 == 0
  {
    hide Lsh, Value;
    ValueSplit(words, p);
    ZeroWords(words[..p]);
    LshLsh(acc, bits, 64 * p);
    ShiftedHeader(acc, 64 * p + bits, words);
  }

  lemma {:induction false} StreamThree(bits: seq<nat>, d: seq<nat>)
    requires |d| == 3 <= |bits|
    ensures Stream(bits, d, 3) == Lsh(Lsh(Lsh(0, bits[0]) + d[0], bits[1]) + d[1], bits[2]) + d[2]
  {
    hide Lsh;
    assert Stream(bits, d, 1) == Lsh(0, bits[0]) + d[0];
    assert Stream(bits, d, 2) == Lsh(Stream(bits, d, 1), bits[1]) + d[1];
  }

  /** Packs the three clamped fields of q one after the other. */
  method PackThree(state: PackState, f: Format, out: array<u64>, q: Bpos)
    returns (exact: bool, ghost d: seq<nat>)
    requires Valid(f) && f.keyU64s <= out.Length && AboveOffsets(f, q)
    requires state.f == f && state.out == out && state.At(0, 0)
    requires forall i :: 0 <= i < f.keyU64s ==> out[i] == 0
    modifies state, out
    ensures |d| == 3 && state.At(Total(f.bits, 3), Stream(f.bits, d, 3))
    ensures (d[0] + f.offsets[0], d[1] + f.offsets[1], d[2] + f.offsets[2]) == Clamped(f, q)
    ensures exact <==> Clamped(f, q) == (q.inode, q.offset, q.snapshot)
    ensures forall i :: 0 <= i < state.p ==> out[i] == 0
    ensures forall i :: f.keyU64s <= i < out.Length ==> out[i] == old(out[i])
  {
    hide Lsh, Shr, Low, Value, Pow2, Stream, Total, FieldValid;
    TotalNone(f.bits);
    FieldMaxFits(f);
    var p := q;
    exact := SetFieldLossy(state, f, out, 0, 0, INODE, p.inode);
    if !exact { p := Bpos(p.inode, KEY_OFFSET_MAX, KEY_SNAPSHOT_MAX); }
    ghost var d0: nat := Min(p.inode, FieldMax(f, 0)) - f.offsets[0];
    ghost var a1 := Lsh(0, f.bits[0]) + d0;
    var ok := SetFieldLossy(state, f, out, Total(f.bits, 1), a1, OFFSET, p.offset);
    ghost var d1: nat := Min(p.offset, FieldMax(f, 1)) - f.offsets[1];
    if !ok { p, exact := p.(snapshot := KEY_SNAPSHOT_MAX), false; }
    ghost var a2 := Lsh(a1, f.bits[1]) + d1;
    ok := SetFieldLossy(state, f, out, Total(f.bits, 2), a2, SNAPSHOT, p.snapshot);
    if !ok { exact := false; }
    d := [d0, d1, Min(p.snapshot, FieldMax(f, 2)) - f.offsets[2]];
    StreamThree(f.bits, d);
  }

  /** Below the position a search key holds nothing but its size. */
  ghost predicate OnlySize(f: Format, v: nat)
    requires f.Shape()
  {
    KeyBits(f) <= 64 * f.keyU64s && Low(v, 64 * f.keyU64s - KeyBits(f)) == f.keyU64s
  }

  lemma {:induction false} SizeBelow(f: Format, acc: nat)
    requires Valid(f)
    ensures KeyBits(f) <= 64 * f.keyU64s && OnlySize(f, Lsh(acc, 64 * f.keyU64s - KeyBits(f)) + f.keyU64s)
  {
    LowBitsRange(f);
    var low := 64 * f.keyU64s - KeyBits(f);
    Pow2Values();
    Pow2Monotone(24, low);
    hide Lsh, Low, Pow2, Total, Valid;
    Join(acc, f.keyU64s, low);
  }

  /** Packs the clamped position of q, which is at or above every offset. */
  method PackClamped(out: array<u64>, q: Bpos, f: Format) returns (exact: bool)
    requires Valid(f) && f.keyU64s <= out.Length && AboveOffsets(f, q)
    requires forall i :: 0 <= i < f.keyU64s ==> out[i] == 0
    modifies out
    ensures exact <==> Representable(f, q)
    ensures IsFloor(f, q, DecodePos(f, Value(out[..f.keyU64s])))
    ensures HeaderU64s(out[0]) == f.keyU64s && OnlySize(f, Value(out[..f.keyU64s]))
    ensures forall i :: f.keyU64s <= i < out.Length ==> out[i] == old(out[i])
  {
    hide Lsh, Shr, Low, Value, Pow2, Stream, Total, FieldValid, DecodePos, IsFloor, Clamped, OnlySize;
    LowBitsRange(f);
    var state := new PackState(f, out);
    ghost var d;
    exact, d := PackThree(state, f, out, q);
    FinishSearch(state, f, out, Stream(f.bits, d, 3));
    SizeBelow(f, Stream(f.bits, d, 3));
    ClampedDecode(f, q, d, DecodePos(f, PosValue(f, d)));
  }

  /** Last word and header of a search key. */
  method FinishSearch(state: PackState, f: Format, out: array<u64>, ghost acc: nat)
    requires Valid(f) && state.f == f && state.out == out
    requires state.At(Total(f.bits, 3), acc)
    requires forall i :: 0 <= i < state.p ==> out[i] == 0
    modifies out
    ensures KeyBits(f) <= 64 * f.keyU64s
    ensures Value(out[..f.keyU64s]) == Lsh(acc, 64 * f.keyU64s - KeyBits(f)) + f.keyU64s
    ensures HeaderU64s(out[0]) == f.keyU64s
    ensures forall i :: f.keyU64s <= i < out.Length ==> out[i] == old(out[i])
  {
    hide Lsh, Shr, Low, Value, Pow2, Total, FieldValid, WithHeader, HeaderU64s;
    LowBitsRange(f);
    state.Finish(Total(f.bits, 3), acc);
    ghost var before := out[..f.keyU64s];
    assert before[state.p..] == out[state.p..f.keyU64s];
    ZeroPadded(before, state.p, state.bits, acc);
    HeaderAdded(before, f.keyU64s);
    SizeByte(out[0], f.keyU64s);
    out[0] := WithHeader(out[0], f.keyU64s);
    assert out[..f.keyU64s] == before[0 := WithHeader(before[0], f.keyU64s)];
  }

  lemma SizeByte(w: u64, n: nat)
    requires n < 256
    ensures HeaderU64s(WithHeader(w, n)) == n
  {
    var q := w / 0x100_0000;
    assert WithHeader(w, n) == 0x100_0000 * q + n;
  }

  lemma {:induction false} ClampedDecode(f: Format, q: Bpos, d: seq<nat>, r: Bpos)
    requires Valid(f) && AboveOffsets(f, q) && |d| == 3
    requires (d[0] + f.offsets[0], d[1] + f.offsets[1], d[2] + f.offsets[2]) == Clamped(f, q)
    requires r == DecodePos(f, PosValue(f, d))
    ensures IsFloor(f, q, r)
    ensures Representable(f, q) <==> Clamped(f, q) == (q.inode, q.offset, q.snapshot)
  {
    hide Lsh, Shr, Low, Pow2, Stream, FieldValid, IsFloor, PosValue, DecodeField, Representable;
    PosValueDecodes(f, d, 0);
    PosValueDecodes(f, d, 1);
    PosValueDecodes(f, d, 2);
    ClampIsFloor(f, q, r);
  }

  /** bch2_bkey_pack_pos_lossy. */
  method PackPosLossy(out: array<u64>, pos: Bpos, f: Format) returns (ret: PackPosRet)
    requires Valid(f) && f.keyU64s <= out.Length
    modifies out
    ensures ret == FAIL <==> NoneBelow(f, pos)
    ensures ret == EXACT <==> Representable(f, pos)
    ensures ret != FAIL ==> IsFloor(f, pos, DecodePos(f, Value(out[..f.keyU64s])))
    ensures ret != FAIL ==> HeaderU64s(out[0]) == f.keyU64s && OnlySize(f, Value(out[..f.keyU64s]))
    ensures forall i :: f.keyU64s <= i < out.Length ==> out[i] == old(out[i])
  {
    hide Lsh, Shr, Low, Value, Pow2, Stream, FieldValid, DecodePos, Representable, OnlySize;
    LowBitsRange(f);
    for i := 0 to f.keyU64s
      invariant forall j :: 0 <= j < i ==> out[j] == 0
      invariant forall j :: f.keyU64s <= j < out.Length ==> out[j] == old(out[j])
    {
      out[i] := 0;
    }
    FieldMaxFits(f);
    var p, exact := pos, true;
    if p.snapshot < f.offsets[SNAPSHOT] {
      BorrowSnapshotExact(f, p);
      var b := BorrowSnapshot(p);
      if b.None? {
        assert NoneBelow(f, pos);
        return FAIL;
      }
      p, exact := b.pos, false;
    }
    if p.offset < f.offsets[OFFSET] {
      BorrowOffsetExact(f, p);
      var b := BorrowOffset(p);
      if b.None? { return FAIL; }
      p, exact := b.pos, false;
    }
    if p.inode < f.offsets[INODE] {
      InodeTooSmall(f, p);
      return FAIL;
    }
    var fits := PackClamped(out, p, f);
    exact := exact && fits;
    ret := if exact then EXACT else SMALLER;
  }
}
