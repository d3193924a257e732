/**
 The writable set of a node and its lookup table (rw_aux_tree_*,
 bch2_bset_fix_lookup_table, bch2_bset_insert, bch2_bset_delete and
 bset_search_write_set in libbcachefs/bset.c). Offsets count 64-bit words from the
 first key.
 */
module RwAuxTree {
  import opened Bits
  import opened Bkey
  import opened BkeyPack
  import opened Bset

  /** L1_CACHE_BYTES, in 64-bit words. */
  const L1_CACHE_U64S: nat := 8

  datatype RwAux = RwAux(offset: nat, k: Bpos)

  /** Table entry e is at key i. */
  ghost predicate EntryAt(f: Format, keys: seq<PackedKey>, e: RwAux, i: nat)
    requires Valid(f) && KeysOk(f, keys)
  {
    i < |keys| && e.offset == Off(keys, i) && e.k == Pos(f, keys[i])
  }

  ghost predicate EntryOk(f: Format, keys: seq<PackedKey>, e: RwAux)
    requires Valid(f) && KeysOk(f, keys)
  {
    exists i :: EntryAt(f, keys, e, i)
  }

  ghost predicate Increasing(table: seq<RwAux>)
  {
    forall i, j :: 0 <= i < j < |table| ==> table[i].offset < table[j].offset
  }

  /**
   The table is in order, starts at the first key, and from entry 1 on every entry
   is at a key and holds its position.
   */
  ghost predicate TableOk(f: Format, keys: seq<PackedKey>, table: seq<RwAux>)
    requires Valid(f) && KeysOk(f, keys)
  {
    && |table| >= 1 && table[0].offset == 0
    && Increasing(table)
    && (forall j :: 1 <= j < |table| ==> EntryOk(f, keys, table[j]))
  }

  function End(keys: seq<PackedKey>): nat { Off(keys, |keys|) }

  lemma NonemptyKeys(f: Format, keys: seq<PackedKey>)
    requires KeysOk(f, keys)
    ensures forall i :: 0 <= i < |keys| ==> |keys[i].words| > 0
  {
    forall i | 0 <= i < |keys|
      ensures |keys[i].words| > 0
    {
      assert KeyOk(f, keys[i]);
    }
  }

  /** Every entry is at a key boundary. */
  lemma EntryBoundary(f: Format, keys: seq<PackedKey>, table: seq<RwAux>, j: nat)
    requires Valid(f) && KeysOk(f, keys) && TableOk(f, keys, table) && j < |table|
    ensures Boundary(keys, table[j].offset)
    ensures j > 0 ==> table[j].offset < End(keys)
  {
    hide Pos;
    if j == 0 {
      assert Off(keys, 0) == 0;
    } else {
      assert EntryOk(f, keys, table[j]);
      var i :| EntryAt(f, keys, table[j], i);
      NonemptyKeys(f, keys);
      OffStrict(keys, i, |keys|);
    }
  }

  /** Where the search starts: the entry in proportion to the offset. */
  function Guess(offset: nat, n: nat, bsetU64s: nat): int
  {
    if bsetU64s != 0 then offset * n / bsetU64s else 0
  }

  /** rw_aux_tree_bsearch: the first entry at or after an offset. */
  method Bsearch(table: seq<RwAux>, offset: nat, bsetU64s: nat) returns (idx: nat)
    requires offset <= bsetU64s && Increasing(table)
    ensures idx <= |table|
    ensures forall i :: 0 <= i < idx ==> table[i].offset < offset
    ensures forall i :: idx <= i < |table| ==> table[i].offset >= offset
  {
    hide Guess;
    GuessInRange(offset, |table|, bsetU64s);
    idx := Guess(offset, |table|, bsetU64s);
    while idx < |table| && table[idx].offset < offset
      invariant 0 <= idx <= |table|
    {
      idx := idx + 1;
    }
    while idx > 0 && table[idx - 1].offset >= offset
      invariant 0 <= idx <= |table|
      invariant idx < |table| ==> table[idx].offset >= offset
    {
      idx := idx - 1;
    }
  }

  lemma {:induction false} GuessInRange(offset: nat, n: nat, u64s: nat)
    requires offset <= u64s
    ensures 0 <= Guess(offset, n, u64s) <= n
  {
    if u64s != 0 {
      var x := offset * n;
      assert x <= u64s * n;
      QuotientBound(x, u64s, n);
    }
  }

  lemma {:induction false} QuotientBound(x: nat, d: nat, n: nat)
    requires d > 0 && x <= d * n
    ensures 0 <= x / d <= n
  {
    var q := x / d;
    var r := x % d;
    assert x == d * q + r;
    ProductBound(d, q, n);
  }

  lemma {:induction false} ProductBound(d: nat, q: int, n: nat)
    requires d > 0 && d * q <= d * n
    ensures q <= n
    decreases n
  {
    assert d * q <= d * n;
    if q > 0 && n > 0 {
      assert d * (q - 1) == d * q - d && d * (n - 1) == d * n - d;
      ProductBound(d, q - 1, n - 1);
    }
  }

  // ---- layout of spliced sets ----

  lemma {:induction false} OffPrefix(a: seq<PackedKey>, b: seq<PackedKey>, i: nat)
    requires i <= |a|
    ensures Off(a + b, i) == Off(a, i)
  {
    if i > 0 { OffPrefix(a, b, i - 1); }
  }

  lemma {:induction false} OffConcat(a: seq<PackedKey>, b: seq<PackedKey>, j: nat)
    requires j <= |b|
    ensures Off(a + b, |a| + j) == Off(a, |a|) + Off(b, j)
  {
    if j == 0 {
      OffPrefix(a, b, |a|);
    } else {
      OffConcat(a, b, j - 1);
    }
  }

  /** At most one key, as a sequence. */
  ghost function Size(c: seq<PackedKey>): nat { Off(c, |c|) }

  /** Keys before a splice keep their offset; keys after it move by the size change. */
  lemma {:induction false} SpliceOffsets(a: seq<PackedKey>, c: seq<PackedKey>, b: seq<PackedKey>, j: nat)
    requires j <= |b|
    ensures Off(a + c + b, |a| + |c| + j) == Off(a, |a|) + Size(c) + Off(b, j)
    ensures Off(a + c + b, |a|) == Off(a, |a|)
  {
    OffConcat(a + c, b, j);
    OffConcat(a, c, |c|);
    OffPrefix(a + c, b, |a|);
    OffPrefix(a, c, |a|);
  }

  // ---- the table ----

  /** bkey_unpack_pos. */
  method UnpackPosOf(f: Format, k: PackedKey) returns (p: Bpos)
    requires Valid(f) && KeyOk(f, k)
    ensures p == Pos(f, k)
  {
    hide DecodePos, Value;
    CurrentValid();
    p := UnpackPos(KeyFormat(f, k), KeyWords(f, k));
  }

  /** The index a table offset stands for. */
  method KeyAtOffset(f: Format, keys: seq<PackedKey>, off: nat) returns (i: nat)
    requires KeysOk(f, keys) && Boundary(keys, off)
    ensures i <= |keys| && Off(keys, i) == off
  {
    NonemptyKeys(f, keys);
    i := IndexAt(keys, off);
  }

  /** Putting an entry between its neighbours keeps the table. */
  lemma EntryInserted(f: Format, keys: seq<PackedKey>, table: seq<RwAux>, idx: nat, e: RwAux)
    requires Valid(f) && KeysOk(f, keys) && TableOk(f, keys, table) && 1 <= idx <= |table|
    requires EntryOk(f, keys, e) && table[idx - 1].offset < e.offset
    requires idx < |table| ==> e.offset < table[idx].offset
    ensures TableOk(f, keys, table[..idx] + [e] + table[idx..])
  {
    hide EntryOk, Pos, Increasing;
    InsertedInOrder(table, idx, e);
    var t := table[..idx] + [e] + table[idx..];
    forall j | 1 <= j < |t|
      ensures EntryOk(f, keys, t[j])
    {
      if j < idx { assert t[j] == table[j]; } else if j > idx { assert t[j] == table[j - 1]; }
    }
  }

  lemma InsertedInOrder(table: seq<RwAux>, idx: nat, e: RwAux)
    requires Increasing(table) && 1 <= idx <= |table| && table[idx - 1].offset < e.offset
    requires idx < |table| ==> e.offset < table[idx].offset
    ensures Increasing(table[..idx] + [e] + table[idx..])
  {
    var t := table[..idx] + [e] + table[idx..];
    forall i, j | 0 <= i < j < |t|
      ensures t[i].offset < t[j].offset
    {
      if i < idx { assert t[i].offset <= table[idx - 1].offset; }
    }
  }

  /** rw_aux_tree_insert_entry: if the gap before entry idx is long, splits it at a key. */
  method InsertEntry(f: Format, keys: seq<PackedKey>, table: seq<RwAux>, idx: nat, capacity: nat)
    returns (t: seq<RwAux>)
    requires Valid(f) && KeysOk(f, keys) && TableOk(f, keys, table) && 1 <= idx <= |table|
    ensures TableOk(f, keys, t)
    ensures t == table || (|table| < capacity && |t| == |table| + 1 && t[..idx] == table[..idx] && t[idx + 1..] == table[idx..])
  {
    hide Pos, Off;
    NonemptyKeys(f, keys);
    EntryBoundary(f, keys, table, idx - 1);
    var start := KeyAtOffset(f, keys, table[idx - 1].offset);
    var end := |keys|;
    if idx < |table| {
      EntryBoundary(f, keys, table, idx);
      end := KeyAtOffset(f, keys, table[idx].offset);
    }
    OffInjective(keys, start, end);
    t := table;
    if |table| < capacity && Off(keys, end) > Off(keys, start) + L1_CACHE_U64S {
      var k := start;
      while true
        invariant start <= k < end
        decreases end - k
      {
        k := k + 1;
        if k == end { break; }
        if Off(keys, k) >= Off(keys, start) + L1_CACHE_U64S {
          var p := UnpackPosOf(f, keys[k]);
          var e := RwAux(Off(keys, k), p);
          assert EntryAt(f, keys, e, k);
          OffInjective(keys, k, end);
          EntryInserted(f, keys, table, idx, e);
          t := table[..idx] + [e] + table[idx..];
          break;
        }
      }
    }
  }

  /** __build_rw_aux_tree. */
  method BuildTable(f: Format, keys: seq<PackedKey>, capacity: nat) returns (table: seq<RwAux>)
    requires Valid(f) && KeysOk(f, keys) && capacity >= 1
    ensures TableOk(f, keys, table) && |table| <= capacity
  {
    hide Pos, Off;
    NonemptyKeys(f, keys);
    assert Off(keys, 0) == 0 by { OffStart(keys); }
    table := [RwAux(0, Bpos(0, 0, 0))];
    var k := 0;
    while k < |keys|
      invariant 0 <= k <= |keys| && TableOk(f, keys, table) && |table| <= capacity
    {
      if |table| == capacity { break; }
      if Off(keys, k) > table[|table| - 1].offset + L1_CACHE_U64S {
        var p := UnpackPosOf(f, keys[k]);
        var e := RwAux(Off(keys, k), p);
        assert EntryAt(f, keys, e, k);
        EntryInserted(f, keys, table, |table|, e);
        assert table[..|table|] + [e] + table[|table|..] == table + [e];
        table := table + [e];
      }
      k := k + 1;
    }
  }

  lemma OffStart(keys: seq<PackedKey>)
    ensures Off(keys, 0) == 0
  {
  }

  // ---- keeping the table when the set changes ----

  /**
   The keys a + c + b became a + n + b, where c is nothing or one key and n is
   nothing or one key.
   */
  ghost predicate Splice(f: Format, a: seq<PackedKey>, c: seq<PackedKey>, n: seq<PackedKey>, b: seq<PackedKey>)
    requires Valid(f)
  {
    |c| <= 1 && |n| <= 1 && KeysOk(f, a + c + b) && KeysOk(f, a + n + b)
  }

  /** What becomes of an entry of the old table that is not at the splice. */
  lemma {:induction false} EntryMoves(f: Format, a: seq<PackedKey>, c: seq<PackedKey>, n: seq<PackedKey>,
                                      b: seq<PackedKey>, e: RwAux)
    requires Valid(f) && Splice(f, a, c, n, b) && EntryOk(f, a + c + b, e)
    ensures e.offset < Size(a) ==> EntryOk(f, a + n + b, e)
    ensures e.offset > Size(a) ==>
              && e.offset >= Size(a) + Size(c)
              && EntryOk(f, a + n + b, e.(offset := e.offset - Size(c) + Size(n)))
  {
    hide Pos, Off;
    var was, now := a + c + b, a + n + b;
    NonemptyKeys(f, was);
    var i: nat :| EntryAt(f, was, e, i);
    OffPrefix(a + c, b, |a|);
    OffPrefix(a, c, |a|);
    OffInjective(was, i, |a|);
    if e.offset < Size(a) {
      assert was[i] == a[i] == now[i];
      OffPrefix(a, c + b, i);
      assert a + (c + b) == was;
      OffPrefix(a, n + b, i);
      assert a + (n + b) == now;
      assert EntryAt(f, now, e, i);
    } else if e.offset > Size(a) {
      var j := i - |a| - |c|;
      SpliceOffsets(a, c, b, j);
      SpliceOffsets(a, n, b, j);
      assert was[i] == b[j] == now[|a| + |n| + j];
      assert EntryAt(f, now, e.(offset := e.offset - Size(c) + Size(n)), |a| + |n| + j);
    }
  }

  /** Entries from idx on moved by the size change. */
  function Shifted(table: seq<RwAux>, idx: nat, clobber: nat, inserted: nat): (t: seq<RwAux>)
    requires idx <= |table|
    ensures |t| == |table|
    ensures forall j :: 0 <= j < idx ==> t[j] == table[j]
    ensures forall j :: idx <= j < |table| && table[j].offset >= clobber ==>
              t[j] == table[j].(offset := table[j].offset - clobber + inserted)
  {
    seq(|table|, j requires 0 <= j < |table| =>
      if j < idx || table[j].offset < clobber then table[j]
      else table[j].(offset := table[j].offset - clobber + inserted))
  }

  /** What the last part of bch2_bset_fix_lookup_table works on: entries from idx on have yet to move. */
  ghost predicate Unshifted(f: Format, a: seq<PackedKey>, c: seq<PackedKey>, n: seq<PackedKey>, b: seq<PackedKey>,
                               table: seq<RwAux>, idx: nat)
    requires Valid(f) && Splice(f, a, c, n, b)
  {
    && 1 <= idx <= |table| && table[0].offset == 0 && Increasing(table)
    && table[idx - 1].offset <= Size(a)
    && (forall j :: 1 <= j < idx ==> EntryOk(f, a + n + b, table[j]))
    && (forall j :: idx <= j < |table| ==> table[j].offset > Size(a) && EntryOk(f, a + c + b, table[j]))
  }

  lemma {:induction false} ShiftedOk(f: Format, a: seq<PackedKey>, c: seq<PackedKey>, n: seq<PackedKey>,
                                     b: seq<PackedKey>, table: seq<RwAux>, idx: nat)
    requires Valid(f) && Splice(f, a, c, n, b) && Unshifted(f, a, c, n, b, table, idx)
    requires idx < |table| ==> table[idx].offset - Size(c) + Size(n) != table[idx - 1].offset
    ensures TableOk(f, a + n + b, Shifted(table, idx, Size(c), Size(n)))
  {
    hide Pos, Off, EntryOk, Size;
    var t := Shifted(table, idx, Size(c), Size(n));
    forall j | idx <= j < |table|
      ensures table[j].offset >= Size(a) + Size(c)
      ensures t[j] == table[j].(offset := table[j].offset - Size(c) + Size(n)) && EntryOk(f, a + n + b, t[j])
    {
      EntryMoves(f, a, c, n, b, table[j]);
    }
    forall i, j | 0 <= i < j < |t|
      ensures t[i].offset < t[j].offset
    {
      if i < idx <= j { assert table[i].offset <= table[idx - 1].offset && table[idx].offset <= table[j].offset; }
    }
  }

  lemma EntryAtOk(f: Format, keys: seq<PackedKey>, e: RwAux, i: nat)
    requires Valid(f) && KeysOk(f, keys) && EntryAt(f, keys, e, i)
    ensures EntryOk(f, keys, e)
  {
  }

  /** The end of bch2_bset_fix_lookup_table: drop a duplicate, move the rest, fill a long gap. */
  method ShiftEntries(f: Format, ghost a: seq<PackedKey>, ghost c: seq<PackedKey>, ghost n: seq<PackedKey>,
                      ghost b: seq<PackedKey>, keys: seq<PackedKey>, table: seq<RwAux>, idx: nat,
                      clobberU64s: nat, newU64s: nat, capacity: nat)
    returns (t: seq<RwAux>)
    requires Valid(f) && Splice(f, a, c, n, b) && keys == a + n + b
    requires clobberU64s == Size(c) && newU64s == Size(n)
    requires Unshifted(f, a, c, n, b, table, idx) && |table| <= capacity
    ensures TableOk(f, keys, t) && |t| <= capacity
  {
    hide Pos, Off, Size, EntryOk;
    t := table;
    if idx < |t| && t[idx].offset - clobberU64s + newU64s == t[idx - 1].offset {
      t := t[..idx] + t[idx + 1..];
      assert forall j :: idx <= j < |t| ==> t[j] == table[j + 1];
    }
    ShiftedOk(f, a, c, n, b, t, idx);
    t := Shifted(t, idx, clobberU64s, newU64s);
    t := InsertEntry(f, keys, t, idx, capacity);
  }

  /**
   bch2_bset_fix_lookup_table, called once the keys have moved. `where` is the
   offset of the change.
   */
  method FixLookupTable(f: Format, ghost a: seq<PackedKey>, ghost c: seq<PackedKey>, ghost n: seq<PackedKey>,
                        ghost b: seq<PackedKey>, keys: seq<PackedKey>, table: seq<RwAux>, where: nat,
                        clobberU64s: nat, newU64s: nat, capacity: nat)
    returns (t: seq<RwAux>)
    requires Valid(f) && Splice(f, a, c, n, b) && keys == a + n + b
    requires where == Size(a) && clobberU64s == Size(c) && newU64s == Size(n)
    requires TableOk(f, a + c + b, table) && |table| <= capacity
    ensures TableOk(f, keys, t) && |t| <= capacity
  {
    hide Pos, Off, Size, EntryOk, End;
    if where > table[|table| - 1].offset {
      BeforeSplice(f, a, c, n, b, table, |table|);
      assert table[..|table|] == table;
      t := InsertEntry(f, keys, table, |table|, capacity);
      return;
    }
    SpliceWithin(f, a, n, b);
    var idx := Bsearch(table, where, End(keys));
    BeforeSplice(f, a, c, n, b, table, idx);
    t := table;
    if t[idx].offset == where {
      if idx == 0 {
        idx := idx + 1;
      } else if where < End(keys) {
        var e := EntryFor(f, a, n, b, keys, where);
        t := t[idx := e];
        idx := idx + 1;
      } else {
        LastEntry(f, a, c, n, b, table, idx);
        t := InsertEntry(f, keys, table[..idx], idx, capacity);
        return;
      }
    }
    t := ShiftEntries(f, a, c, n, b, keys, t, idx, clobberU64s, newU64s, capacity);
  }

  /** rw_aux_tree_set at the offset of the change. */
  method EntryFor(f: Format, ghost a: seq<PackedKey>, ghost n: seq<PackedKey>, ghost b: seq<PackedKey>,
                  keys: seq<PackedKey>, where: nat)
    returns (e: RwAux)
    requires Valid(f) && KeysOk(f, keys) && keys == a + n + b
    requires where == Size(a) < End(keys)
    ensures e.offset == where && EntryOk(f, keys, e)
  {
    hide Pos, Off, Size, EntryOk, End;
    RefreshEntry(f, a, n, b);
    var k := KeyAtOffset(f, keys, where);
    var p := UnpackPosOf(f, keys[k]);
    e := RwAux(where, p);
    EntryAtOk(f, keys, e, k);
  }

  lemma {:induction false} SpliceWithin(f: Format, a: seq<PackedKey>, n: seq<PackedKey>, b: seq<PackedKey>)
    ensures Size(a) <= End(a + n + b)
    ensures Boundary(a + n + b, Size(a))
  {
    SpliceOffsets(a, n, b, |b|);
    assert |a + n + b| == |a| + |n| + |b|;
  }

  /** A change that is not at the end leaves a key at its offset. */
  lemma {:induction false} RefreshEntry(f: Format, a: seq<PackedKey>, n: seq<PackedKey>, b: seq<PackedKey>)
    requires KeysOk(f, a + n + b) && Size(a) < End(a + n + b)
    ensures Boundary(a + n + b, Size(a))
    ensures forall i: nat :: i <= |a + n + b| && Off(a + n + b, i) == Size(a) ==> i < |a + n + b|
  {
    SpliceWithin(f, a, n, b);
  }

  /** The entries before the change are still right. */
  lemma {:induction false} BeforeSplice(f: Format, a: seq<PackedKey>, c: seq<PackedKey>, n: seq<PackedKey>,
                                        b: seq<PackedKey>, table: seq<RwAux>, m: nat)
    requires Valid(f) && Splice(f, a, c, n, b) && TableOk(f, a + c + b, table) && m <= |table|
    requires forall j :: 0 <= j < m ==> table[j].offset < Size(a)
    ensures forall j :: 1 <= j < m ==> EntryOk(f, a + n + b, table[j])
    ensures m >= 1 ==> TableOk(f, a + n + b, table[..m])
  {
    hide Pos, Off, Size, EntryOk;
    forall j | 1 <= j < m
      ensures EntryOk(f, a + n + b, table[j])
    {
      EntryMoves(f, a, c, n, b, table[j]);
    }
  }

  /** An entry at the new end of the set is the last one: it was at the key that went away. */
  lemma {:induction false} LastEntry(f: Format, a: seq<PackedKey>, c: seq<PackedKey>, n: seq<PackedKey>,
                                     b: seq<PackedKey>, table: seq<RwAux>, idx: nat)
    requires Valid(f) && Splice(f, a, c, n, b) && TableOk(f, a + c + b, table) && 1 <= idx < |table|
    requires table[idx].offset == Size(a) == End(a + n + b)
    ensures idx == |table| - 1
  {
    hide Pos, Off;
    NonemptyKeys(f, a + n + b);
    NonemptyKeys(f, a + c + b);
    SpliceOffsets(a, n, b, |b|);
    SpliceOffsets(a, c, b, |b|);
    OffStart(b);
    assert |a + n + b| == |a| + |n| + |b|;
    OffInjective(a + n + b, |a|, |a + n + b|);
    assert |a + c + b| == |a| + |c| + |b|;
    if idx + 1 < |table| {
      EntryMoves(f, a, c, n, b, table[idx + 1]);
      EntryBoundary(f, a + c + b, table, idx + 1);
    }
  }

  // ---- the key to insert ----

  lemma {:induction false} EncodedHeader(f: Format, k: Key, words: seq<u64>)
    requires Valid(f) && Fits(f, k) && |words| == f.keyU64s && Value(words) == Encode(f, k)
    ensures |words| > 0
    ensures HeaderU64s(words[0]) == (f.keyU64s + k.u64s - BKEY_U64S) % 256
    ensures HeaderFormat(words[0]) == KEY_FORMAT_LOCAL_BTREE
    ensures HeaderType(words[0]) == k.keyType
  {
    hide Lsh, Value, Encode, Written;
    LowBitsRange(f);
    EncodeIs(f, k);
    HeaderOfValue(words);
    var st := Written(f, Fields(k), NR_FIELDS);
    LshLsh(st, LowBits(f) - 24, 24);
    Lsh24(Lsh(st, LowBits(f) - 24));
    var u64s := (f.keyU64s + k.u64s - BKEY_U64S) % 256;
    HeaderBound(u64s, k.needsWhiteout, k.keyType);
    LowOfSum(Lsh(st, LowBits(f) - 24), HeaderValue(u64s, KEY_FORMAT_LOCAL_BTREE, k.needsWhiteout, k.keyType));
    HeaderOnly(words[0], u64s, k.needsWhiteout, k.keyType);
  }

  lemma LowOfSum(x: nat, h: nat)
    requires h < 0x100_0000
    ensures (0x100_0000 * x + h) % 0x100_0000 == h
  {
  }

  lemma {:induction false} HeaderOnly(w: nat, u64s: u8, needsWhiteout: bool, keyType: u8)
    requires w % 0x100_0000 == HeaderValue(u64s, KEY_FORMAT_LOCAL_BTREE, needsWhiteout, keyType)
    ensures HeaderU64s(w) == u64s && HeaderFormat(w) == KEY_FORMAT_LOCAL_BTREE && HeaderType(w) == keyType
  {
    var h := w % 0x100_0000;
    assert h / 256 == 256 * keyType + (if needsWhiteout then 128 else 0);
  }

  /** The whole key, unpacked. */
  ghost function Whole(f: Format, k: PackedKey): Key
    requires Valid(f) && KeyOk(f, k)
  {
    CurrentValid();
    Decode(KeyFormat(f, k), Value(KeyWords(f, k)))
  }

  /** The same key and value, in whichever representation. */
  ghost predicate SameKey(f: Format, k: PackedKey, l: PackedKey)
    requires Valid(f) && KeyOk(f, k) && KeyOk(f, l)
  {
    && Whole(f, k) == Whole(f, l) && HeaderType(k.words[0]) == HeaderType(l.words[0])
    && Pos(f, k) == Pos(f, l)
    && k.words[KeyFormat(f, k).keyU64s..] == l.words[KeyFormat(f, l).keyU64s..]
  }

  /** The start of bch2_bset_insert: pack the key in the node's format if it fits. */
  method PackForInsert(f: Format, insert: PackedKey) returns (src: PackedKey)
    requires Valid(f) && KeyOk(f, insert) && !IsPacked(insert)
    ensures KeyOk(f, src) && SameKey(f, src, insert)
    ensures IsPacked(src) <==> Fits(f, Whole(f, insert))
  {
    hide Lsh, Shr, Low, Value, Encode, Decode, DecodePos, Fits, HeaderU64s, HeaderType;
    CurrentValid();
    LowBitsRange(f);
    var valU64s := |insert.words| - BKEY_U64S;
    var out := new u64[f.keyU64s + valU64s];
    var ok := Transform(f, out, FORMAT_CURRENT, insert.words);
    if !ok { return insert; }
    src := PackedKey(out[..]);
    ghost var v := Value(insert.words[..BKEY_U64S]);
    ghost var k := Decode(FORMAT_CURRENT, v);
    assert out[..][..f.keyU64s] == out[..f.keyU64s];
    DecodeHeader(FORMAT_CURRENT, insert.words[..BKEY_U64S]);
    EncodedHeader(f, k, out[..f.keyU64s]);
    RoundTrip(f, k);
    DecodeEncodePos(f, k);
    DecodeP(FORMAT_CURRENT, v);
    assert src.words[f.keyU64s..] == insert.words[BKEY_U64S..];
  }

  lemma {:induction false} DecodeP(f: Format, v: nat)
    requires Valid(f)
    ensures Decode(f, v).p == DecodePos(f, v)
  {
    hide DecodePos, DecodeField;
  }

  lemma {:induction false} DecodeEncodePos(f: Format, k: Key)
    requires Valid(f) && Fits(f, k)
    ensures DecodePos(f, Encode(f, k)) == k.p
  {
    hide Decode, DecodePos, Encode;
    RoundTrip(f, k);
    DecodeP(f, Encode(f, k));
  }

  // ---- the writable set ----

  /** k belongs at index i, in place of c keys. */
  ghost predicate BelongsAt(f: Format, keys: seq<PackedKey>, i: nat, c: nat, k: PackedKey)
    requires Valid(f) && KeysOk(f, keys) && i + c <= |keys| && KeyOk(f, k)
  {
    && (forall j :: 0 <= j < i ==> BposLt(Pos(f, keys[j]), Pos(f, k)) || (Pos(f, keys[j]) == Pos(f, k) && IsDeleted(keys[j])))
    && (forall j :: i + c <= j < |keys| ==>
          BposLt(Pos(f, k), Pos(f, keys[j])) || (Pos(f, keys[j]) == Pos(f, k) && IsDeleted(k)))
  }

  lemma {:induction false} SortedSplice(f: Format, keys: seq<PackedKey>, i: nat, c: nat, n: seq<PackedKey>)
    requires Valid(f) && KeysOk(f, keys) && Sorted(f, keys) && i + c <= |keys|
    requires |n| <= 1 && KeysOk(f, n) && (|n| == 1 ==> BelongsAt(f, keys, i, c, n[0]))
    ensures KeysOk(f, keys[..i] + n + keys[i + c..])
    ensures Sorted(f, keys[..i] + n + keys[i + c..])
  {
    hide Pos, KeyOk, Valid;
    var t := keys[..i] + n + keys[i + c..];
    assert forall j :: 0 <= j < i ==> t[j] == keys[j];
    assert forall j :: i + |n| <= j < |t| ==> t[j] == keys[j - |n| + c];
    assert |n| == 1 ==> t[i] == n[0];
    assert KeysOk(f, t);
    forall x, y | 0 <= x < y < |t|
      ensures InOrder(f, t[x], t[y])
    {
      if x < i {
        if y >= i + |n| { assert InOrder(f, keys[x], keys[y - |n| + c]); }
      } else if x >= i + |n| {
        assert InOrder(f, keys[x - |n| + c], keys[y - |n| + c]);
      }
    }
  }

  /** The order of two keys of a sorted set. */
  ghost predicate InOrder(f: Format, a: PackedKey, b: PackedKey)
    requires Valid(f) && KeyOk(f, a) && KeyOk(f, b)
  {
    BposLt(Pos(f, a), Pos(f, b)) || (Pos(f, a) == Pos(f, b) && IsDeleted(a))
  }

  /** Replacing a key by one of the same size and position leaves the table right. */
  lemma {:induction false} SameSizeTable(f: Format, keys: seq<PackedKey>, i: nat, k: PackedKey, table: seq<RwAux>)
    requires Valid(f) && KeysOk(f, keys) && TableOk(f, keys, table) && i < |keys|
    requires KeyOk(f, k) && |k.words| == |keys[i].words| && Pos(f, k) == Pos(f, keys[i])
    ensures KeysOk(f, keys[i := k]) && TableOk(f, keys[i := k], table)
  {
    hide Pos, Off;
    assert KeysOk(f, keys[i := k]);
    forall j | 1 <= j < |table|
      ensures EntryOk(f, keys[i := k], table[j])
    {
      assert EntryOk(f, keys, table[j]);
      var x: nat :| EntryAt(f, keys, table[j], x);
      OffSameSize(keys, i, k, x);
      assert EntryAt(f, keys[i := k], table[j], x);
    }
  }

  lemma {:induction false} OffSameSize(keys: seq<PackedKey>, i: nat, k: PackedKey, x: nat)
    requires i < |keys| && x <= |keys| && |k.words| == |keys[i].words|
    ensures Off(keys[i := k], x) == Off(keys, x)
  {
    if x > 0 { OffSameSize(keys, i, k, x - 1); }
  }

  class WriteSet {
    const f: Format
    const capacity: nat
    var keys: seq<PackedKey>
    var table: seq<RwAux>

    ghost predicate Ok()
      reads this
    {
      && Valid(f) && KeysOk(f, keys) && Sorted(f, keys)
      && TableOk(f, keys, table) && |table| <= capacity
    }

    /** bch2_bset_build_aux_tree for the set being written. */
    constructor (f: Format, keys: seq<PackedKey>, capacity: nat)
      requires Valid(f) && KeysOk(f, keys) && Sorted(f, keys) && capacity >= 1
      ensures Ok() && this.f == f && this.keys == keys
    {
      var t := BuildTable(f, keys, capacity);
      this.f := f;
      this.keys := keys;
      this.capacity := capacity;
      table := t;
    }

    /**
     bch2_bset_insert at key index `where`. It overwrites nothing, or the one key
     there, which then has the position of the new one.
     */
    method Insert(where: nat, insert: PackedKey, clobberU64s: nat) returns (src: PackedKey)
      requires Ok() && where <= |keys|
      requires KeyOk(f, insert) && !IsPacked(insert)
      requires clobberU64s > 0 ==>
                 where < |keys| && |keys[where].words| == clobberU64s && Pos(f, keys[where]) == Pos(f, insert)
      requires BelongsAt(f, keys, where, if clobberU64s > 0 then 1 else 0, insert)
      modifies this
      ensures Ok()
      ensures KeyOk(f, src) && SameKey(f, src, insert) && (IsPacked(src) <==> Fits(f, Whole(f, insert)))
      ensures keys == old(keys[..where]) + [src] + old(keys)[where + (if clobberU64s > 0 then 1 else 0)..]
    {
      hide Pos, Off, TableOk, Whole, Fits;
      src := PackForInsert(f, insert);
      var c := if clobberU64s > 0 then 1 else 0;
      ghost var a, x, b := keys[..where], keys[where..where + c], keys[where + c..];
      assert keys == a + x + b;
      SortedSplice(f, keys, where, c, [src]);
      if |src.words| != clobberU64s {
        SizeOfOne(a, keys, where, src);
        var offset := Off(keys, where);
        keys := keys[..where] + [src] + keys[where + c..];
        assert Splice(f, a, x, [src], b);
        assert clobberU64s == Size(x) by { SizeOfClobber(x, clobberU64s); }
        table := FixLookupTable(f, a, x, [src], b, keys, table, offset, clobberU64s, |src.words|, capacity);
      } else {
        SameSizeTable(f, keys, where, src, table);
        assert keys[where := src] == a + [src] + b;
        keys := keys[where := src];
      }
    }

    /** bch2_bset_delete of the key at index `where`. */
    method Delete(where: nat)
      requires Ok() && where < |keys|
      modifies this
      ensures Ok()
      ensures keys == old(keys[..where]) + old(keys[where + 1..])
    {
      hide Pos, Off, TableOk;
      ghost var a, x, b := keys[..where], [keys[where]], keys[where + 1..];
      assert keys == a + x + b;
      SortedSplice(f, keys, where, 1, []);
      assert a + [] + b == a + b;
      SizeOfOne(a, keys, where, keys[where]);
      var offset, clobberU64s := Off(keys, where), |keys[where].words|;
      keys := keys[..where] + keys[where + 1..];
      assert Splice(f, a, x, [], b);
      SizeOfClobber(x, clobberU64s);
      SizeOfClobber([], 0);
      table := FixLookupTable(f, a, x, [], b, keys, table, offset, clobberU64s, 0, capacity);
    }

    /**
     bset_search_write_set: binary search of the table. Every key up to the one it
     returns is one a scan for `search` skips.
     */
    method SearchTable(search: Bpos) returns (m: nat)
      requires Ok()
      ensures m <= |keys|
      ensures forall i :: 0 <= i < m ==> KeyOk(f, keys[i]) && Before(f, keys[i], search)
    {
      hide Pos, Off;
      var l, r := 0, |table|;
      while l + 1 != r
        invariant 0 <= l < r <= |table|
        invariant l > 0 ==> BposLt(table[l].k, search)
      {
        var mid := (l + r) / 2;
        if BposLt(table[mid].k, search) { l := mid; } else { r := mid; }
      }
      EntryBoundary(f, keys, table, l);
      m := KeyAtOffset(f, keys, table[l].offset);
      NonemptyKeys(f, keys);
      OffStart(keys);
      OffInjective(keys, 0, m);
      if l > 0 {
        assert EntryOk(f, keys, table[l]);
        ghost var i: nat :| EntryAt(f, keys, table[l], i);
        OffInjective(keys, i, m);
        forall j | 0 <= j < m
          ensures KeyOk(f, keys[j]) && Before(f, keys[j], search)
        {
          BeforeDown(f, keys, search, j, m);
        }
      }
    }
  }

  lemma {:induction false} SizeOfOne(a: seq<PackedKey>, keys: seq<PackedKey>, i: nat, k: PackedKey)
    requires i <= |keys| && a == keys[..i]
    ensures Size(a) == Off(keys, i) && Size([k]) == |k.words|
  {
    assert keys == a + keys[i..];
    OffPrefix(a, keys[i..], i);
    assert Off([k], 0) == 0;
  }

  lemma SizeOfClobber(x: seq<PackedKey>, u64s: nat)
    requires |x| <= 1 && (|x| == 1 ==> |x[0].words| == u64s) && (|x| == 0 ==> u64s == 0)
    ensures Size(x) == u64s
  {
    assert |x| == 1 ==> Off(x, 0) == 0;
  }
}
