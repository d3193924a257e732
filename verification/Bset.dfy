/**
 A sorted set of keys inside a btree node: keys of varying size laid out one after
 the other, packed in the node's format or unpacked, and the linear scan that
 defines what a lookup must find.
 */
module Bset {
  import opened Bits
  import opened Bkey
  import opened BkeyPack
  import opened BkeyCmp

  /** A key in memory: its key words, then its value words. */
  datatype PackedKey = PackedKey(words: seq<u64>)

  function HeaderFormat(v: nat): nat { (v % 0x100_0000) / 256 % 128 }

  /** bkey_packed. */
  predicate IsPacked(k: PackedKey)
    requires |k.words| > 0
  {
    HeaderFormat(k.words[0]) != KEY_FORMAT_CURRENT
  }

  /** bkey_deleted: type 0. */
  predicate IsDeleted(k: PackedKey)
    requires |k.words| > 0
  {
    HeaderType(k.words[0]) == 0
  }

  function KeyFormat(f: Format, k: PackedKey): Format
    requires |k.words| > 0
  {
    if IsPacked(k) then f else FORMAT_CURRENT
  }

  /** The u64s byte of the header is the size of key and value. */
  ghost predicate KeyOk(f: Format, k: PackedKey)
  {
    && 0 < |k.words| < 256 && |k.words| == HeaderU64s(k.words[0])
    && KeyFormat(f, k).keyU64s <= |k.words|
  }

  ghost predicate KeysOk(f: Format, keys: seq<PackedKey>)
  {
    forall i :: 0 <= i < |keys| ==> KeyOk(f, keys[i])
  }

  lemma {:induction false} CurrentValid()
    ensures Valid(FORMAT_CURRENT)
  {
    Pow2Values();
    TotalSix(UNPACKED_BITS);
    assert forall i :: 0 <= i < NR_FIELDS ==> FieldValid(FORMAT_CURRENT, i);
  }

  /** The words that hold the key, without its value. */
  function KeyWords(f: Format, k: PackedKey): (r: seq<u64>)
    requires 0 < |k.words| && KeyFormat(f, k).keyU64s <= |k.words|
  {
    k.words[..KeyFormat(f, k).keyU64s]
  }

  /** bkey_unpack_pos. */
  ghost function Pos(f: Format, k: PackedKey): Bpos
    requires Valid(f) && KeyOk(f, k)
  {
    CurrentValid();
    DecodePos(KeyFormat(f, k), Value(KeyWords(f, k)))
  }

  // ---- layout ----

  /** Offset of key i from the first key, in 64-bit words. */
  function Off(keys: seq<PackedKey>, i: nat): nat
    requires i <= |keys|
  {
    if i == 0 then 0 else Off(keys, i - 1) + |keys[i - 1].words|
  }

  /** Some key, or the end, is at this offset. */
  ghost predicate Boundary(keys: seq<PackedKey>, off: nat)
  {
    exists i :: 0 <= i <= |keys| && Off(keys, i) == off
  }

  /** The index of the key at a boundary. */
  function IndexAt(keys: seq<PackedKey>, off: nat): (i: nat)
    requires Boundary(keys, off) && forall i :: 0 <= i < |keys| ==> |keys[i].words| > 0
    ensures i <= |keys| && Off(keys, i) == off
  {
    IndexFrom(keys, off, 0)
  }

  function IndexFrom(keys: seq<PackedKey>, off: nat, from: nat): (i: nat)
    requires from <= |keys| && exists i :: from <= i <= |keys| && Off(keys, i) == off
    ensures from <= i <= |keys| && Off(keys, i) == off
    decreases |keys| - from
  {
    if Off(keys, from) == off then from else IndexFrom(keys, off, from + 1)
  }

  lemma {:induction false} OffStrict(keys: seq<PackedKey>, i: nat, j: nat)
    requires i <= j <= |keys| && forall k :: 0 <= k < |keys| ==> |keys[k].words| > 0
    ensures Off(keys, i) + (j - i) <= Off(keys, j)
  {
    if i < j { OffStrict(keys, i, j - 1); }
  }

  /** Offsets determine keys. */
  lemma {:induction false} OffInjective(keys: seq<PackedKey>, i: nat, j: nat)
    requires i <= |keys| && j <= |keys| && forall k :: 0 <= k < |keys| ==> |keys[k].words| > 0
    ensures Off(keys, i) < Off(keys, j) <==> i < j
    ensures Off(keys, i) == Off(keys, j) <==> i == j
  {
    if i < j { OffStrict(keys, i, j); } else { OffStrict(keys, j, i); }
  }

  lemma {:induction false} IndexOfOff(keys: seq<PackedKey>, i: nat)
    requires i <= |keys| && forall k :: 0 <= k < |keys| ==> |keys[k].words| > 0
    ensures Boundary(keys, Off(keys, i)) && IndexAt(keys, Off(keys, i)) == i
  {
    OffInjective(keys, i, IndexAt(keys, Off(keys, i)));
  }

  // ---- order ----

  /** Position order; at one position deleted keys come first and at most one key is live. */
  ghost predicate Sorted(f: Format, keys: seq<PackedKey>)
    requires Valid(f) && KeysOk(f, keys)
  {
    forall i, j :: 0 <= i < j < |keys| ==>
      BposLt(Pos(f, keys[i]), Pos(f, keys[j]))
      || (Pos(f, keys[i]) == Pos(f, keys[j]) && IsDeleted(keys[i]))
  }

  /** A lookup of `search` skips k: it is smaller, or deleted at that very position. */
  ghost predicate Before(f: Format, k: PackedKey, search: Bpos)
    requires Valid(f) && KeyOk(f, k)
  {
    BposLt(Pos(f, k), search) || (Pos(f, k) == search && IsDeleted(k))
  }

  /** A scan from the first key stops at index r: every key before r is skipped, key r is not. */
  ghost predicate ScanStop(f: Format, keys: seq<PackedKey>, search: Bpos, r: nat)
    requires Valid(f) && KeysOk(f, keys)
  {
    && r <= |keys|
    && (forall i :: 0 <= i < r ==> Before(f, keys[i], search))
    && (r < |keys| ==> !Before(f, keys[r], search))
  }

  /** In a sorted set, whatever precedes a skipped key is skipped. */
  lemma {:induction false} BeforeDown(f: Format, keys: seq<PackedKey>, search: Bpos, i: nat, j: nat)
    requires Valid(f) && KeysOk(f, keys) && Sorted(f, keys)
    requires i <= j < |keys| && Before(f, keys[j], search)
    ensures Before(f, keys[i], search)
  {
    hide Pos;
  }

  /** There is only one such place. */
  lemma {:induction false} ScanStopUnique(f: Format, keys: seq<PackedKey>, search: Bpos, r: nat, s: nat)
    requires Valid(f) && KeysOk(f, keys)
    requires ScanStop(f, keys, search, r) && ScanStop(f, keys, search, s)
    ensures r == s
  {
    hide Before;
  }

  // ---- comparisons and the linear scan ----

  /** bkey_cmp_p_or_unp with a packed search key. */
  method CmpPOrUnp(f: Format, k: PackedKey, packed: seq<u64>, search: Bpos) returns (cmp: int)
    requires Valid(f) && KeyOk(f, k) && |packed| == f.keyU64s
    ensures cmp == BposCmp(Pos(f, k), if IsPacked(k) then DecodePos(f, Value(packed)) else search)
  {
    hide DecodePos, Value;
    if !IsPacked(k) {
      CurrentValid();
      var p := UnpackPos(FORMAT_CURRENT, KeyWords(f, k));
      return BposCmp(p, search);
    }
    cmp := CmpPacked(f, KeyWords(f, k), packed);
  }

  /** bkey_cmp_left_packed: position of k against an unpacked position. */
  method CmpLeftPacked(f: Format, k: PackedKey, search: Bpos) returns (cmp: int)
    requires Valid(f) && KeyOk(f, k)
    ensures cmp == BposCmp(Pos(f, k), search)
  {
    hide DecodePos, Value;
    CurrentValid();
    var p := UnpackPos(KeyFormat(f, k), KeyWords(f, k));
    cmp := BposCmp(p, search);
  }

  /**
   bch2_bset_search_linear: from key m on, past the keys below the rounded-down
   search key, and then past those below the search position itself when rounding
   lost something.
   */
  method SearchLinear(f: Format, keys: seq<PackedKey>, search: Bpos, exact: bool, packed: seq<u64>, start: nat)
    returns (m: nat)
    requires Valid(f) && KeysOk(f, keys) && Sorted(f, keys)
    requires |packed| == f.keyU64s && BposLe(DecodePos(f, Value(packed)), search)
    requires exact ==> DecodePos(f, Value(packed)) == search
    requires start <= |keys| && forall i :: 0 <= i < start ==> Before(f, keys[i], search)
    ensures ScanStop(f, keys, search, m)
  {
    hide Pos, DecodePos, Value;
    m := start;
    while m != |keys|
      invariant start <= m <= |keys|
      invariant forall i :: 0 <= i < m ==> Before(f, keys[i], search)
    {
      var cmp := CmpPOrUnp(f, keys[m], packed, search);
      cmp := if cmp != 0 then cmp else if IsDeleted(keys[m]) then -1 else 0;
      if cmp >= 0 { break; }
      m := m + 1;
    }
    if !exact {
      while m != |keys|
        invariant start <= m <= |keys|
        invariant forall i :: 0 <= i < m ==> Before(f, keys[i], search)
      {
        var cmp := CmpLeftPacked(f, keys[m], search);
        cmp := if cmp != 0 then cmp else if IsDeleted(keys[m]) then -1 else 0;
        if cmp >= 0 { break; }
        m := m + 1;
      }
    }
  }
}
