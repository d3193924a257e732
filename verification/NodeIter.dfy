/**
 The btree node iterator (bch2_btree_node_iter_* in libbcachefs/bset.c): a merge of
 up to three sorted sets that visits every key once, in iterator order, and can
 step back.
 */
module NodeIter {
  import opened Bits
  import opened Bkey
  import opened BkeyPack
  import opened BkeyCmp
  import opened Bset

  const MAX_BSETS: nat := 3

  /** Key i of set t. Sets are laid out in memory in order. */
  datatype Slot = Slot(t: nat, i: nat)

  ghost predicate NodeOk(f: Format, sets: seq<seq<PackedKey>>)
  {
    && Valid(f)
    && forall t :: 0 <= t < |sets| ==> KeysOk(f, sets[t]) && Sorted(f, sets[t])
  }

  ghost predicate IsKey(f: Format, sets: seq<seq<PackedKey>>, a: Slot)
    requires NodeOk(f, sets)
  {
    a.t < |sets| && a.i < |sets[a.t]| && KeyOk(f, sets[a.t][a.i])
  }

  ghost function PosOf(f: Format, sets: seq<seq<PackedKey>>, a: Slot): Bpos
    requires NodeOk(f, sets) && IsKey(f, sets, a)
  {
    Pos(f, sets[a.t][a.i])
  }

  ghost predicate DeletedAt(f: Format, sets: seq<seq<PackedKey>>, a: Slot)
    requires NodeOk(f, sets) && IsKey(f, sets, a)
  {
    IsDeleted(sets[a.t][a.i])
  }

  /** The order of bkey_iter_cmp: position, deleted keys first, then address. */
  ghost predicate Less(f: Format, sets: seq<seq<PackedKey>>, a: Slot, b: Slot)
    requires NodeOk(f, sets) && IsKey(f, sets, a) && IsKey(f, sets, b)
  {
    var p, q := PosOf(f, sets, a), PosOf(f, sets, b);
    var d, e := DeletedAt(f, sets, a), DeletedAt(f, sets, b);
    || BposLt(p, q)
    || (p == q && d && !e)
    || (p == q && d == e && (a.t < b.t || (a.t == b.t && a.i < b.i)))
  }

  lemma LessTotal(f: Format, sets: seq<seq<PackedKey>>, a: Slot, b: Slot)
    requires NodeOk(f, sets) && IsKey(f, sets, a) && IsKey(f, sets, b)
    ensures a != b ==> Less(f, sets, a, b) || Less(f, sets, b, a)
    ensures !(Less(f, sets, a, b) && Less(f, sets, b, a))
    ensures !Less(f, sets, a, a)
  {
    hide PosOf, DeletedAt;
  }

  lemma LessTransitive(f: Format, sets: seq<seq<PackedKey>>, a: Slot, b: Slot, c: Slot)
    requires NodeOk(f, sets) && IsKey(f, sets, a) && IsKey(f, sets, b) && IsKey(f, sets, c)
    requires Less(f, sets, a, b) && Less(f, sets, b, c)
    ensures Less(f, sets, a, c)
  {
    hide PosOf, DeletedAt;
  }

  /** Within a set the iterator order is the set's order. */
  lemma LessWithinSet(f: Format, sets: seq<seq<PackedKey>>, t: nat, i: nat, j: nat)
    requires NodeOk(f, sets) && t < |sets| && i < j < |sets[t]|
    ensures IsKey(f, sets, Slot(t, i)) && IsKey(f, sets, Slot(t, j))
    ensures Less(f, sets, Slot(t, i), Slot(t, j))
  {
    hide Pos;
    assert KeyOk(f, sets[t][i]) && KeyOk(f, sets[t][j]);
  }

  // ---- iterator states ----

  ghost predicate SlotsOk(f: Format, sets: seq<seq<PackedKey>>, data: seq<Slot>)
    requires NodeOk(f, sets)
  {
    && (forall x :: 0 <= x < |data| ==> IsKey(f, sets, data[x]))
    && (forall x, y :: 0 <= x < y < |data| ==> data[x].t != data[y].t)
  }

  ghost predicate Ascending(f: Format, sets: seq<seq<PackedKey>>, data: seq<Slot>)
    requires NodeOk(f, sets) && forall x :: 0 <= x < |data| ==> IsKey(f, sets, data[x])
  {
    forall x, y :: 0 <= x < y < |data| ==> Less(f, sets, data[x], data[y])
  }

  /** The iterator has yet to visit key a. */
  ghost predicate Ahead(data: seq<Slot>, a: Slot)
  {
    exists x :: 0 <= x < |data| && data[x].t == a.t && data[x].i <= a.i
  }

  /** Everything behind the iterator sorts before everything ahead of it. */
  ghost predicate Cut(f: Format, sets: seq<seq<PackedKey>>, data: seq<Slot>)
    requires NodeOk(f, sets)
  {
    forall a, b :: IsKey(f, sets, a) && IsKey(f, sets, b) && !Ahead(data, a) && Ahead(data, b) ==> Less(f, sets, a, b)
  }

  ghost predicate IterOk(f: Format, sets: seq<seq<PackedKey>>, data: seq<Slot>)
    requires NodeOk(f, sets)
  {
    && SlotsOk(f, sets, data) && Ascending(f, sets, data) && Cut(f, sets, data)
  }

  /** The first slot is the least key ahead. */
  lemma FirstIsLeast(f: Format, sets: seq<seq<PackedKey>>, data: seq<Slot>, a: Slot)
    requires NodeOk(f, sets) && SlotsOk(f, sets, data) && Ascending(f, sets, data) && |data| > 0
    requires IsKey(f, sets, a) && Ahead(data, a)
    ensures a == data[0] || Less(f, sets, data[0], a)
  {
    hide Less;
    var x :| 0 <= x < |data| && data[x].t == a.t && data[x].i <= a.i;
    if data[x].i < a.i {
      LessWithinSet(f, sets, a.t, data[x].i, a.i);
      if x > 0 { LessTransitive(f, sets, data[0], data[x], a); }
    }
  }

  /** The slots of the other sets, in order. */
  ghost function Without(data: seq<Slot>, t: nat): (r: seq<Slot>)
  {
    if |data| == 0 then [] else (if data[0].t == t then [] else [data[0]]) + Without(data[1..], t)
  }

  lemma WithoutStep(data: seq<Slot>, t: nat)
    requires |data| > 0
    ensures Without(data, t) == (if data[0].t == t then [] else [data[0]]) + Without(data[1..], t)
  {
  }

  lemma {:induction false} WithoutConcat(a: seq<Slot>, b: seq<Slot>, t: nat)
    ensures Without(a + b, t) == Without(a, t) + Without(b, t)
  {
    hide Without;
    if |a| == 0 {
      WithoutEmpty(t);
      assert a == [] && a + b == b;
    } else {
      WithoutConcat(a[1..], b, t);
      WithoutStep(a + b, t);
      WithoutStep(a, t);
      assert (a + b)[1..] == a[1..] + b;
      var h := if a[0].t == t then [] else [a[0]];
      assert Without(a + b, t) == h + (Without(a[1..], t) + Without(b, t));
    }
  }

  lemma WithoutEmpty(t: nat)
    ensures Without([], t) == []
  {
  }

  lemma {:induction false} WithoutNone(data: seq<Slot>, t: nat)
    requires forall x :: 0 <= x < |data| ==> data[x].t != t
    ensures Without(data, t) == data
  {
    if |data| > 0 { WithoutNone(data[1..], t); }
  }

  // ---- the iterator ----

  /** bch2_bkey_cmp_packed: positions of two keys, packed or not. */
  method CmpKeys(f: Format, k: PackedKey, l: PackedKey) returns (cmp: int)
    requires Valid(f) && KeyOk(f, k) && KeyOk(f, l)
    ensures cmp == BposCmp(Pos(f, k), Pos(f, l))
  {
    hide DecodePos, Value;
    if IsPacked(k) && IsPacked(l) {
      cmp := CmpPacked(f, KeyWords(f, k), KeyWords(f, l));
      return;
    }
    CurrentValid();
    var p := UnpackPos(KeyFormat(f, k), KeyWords(f, k));
    var q := UnpackPos(KeyFormat(f, l), KeyWords(f, l));
    return BposCmp(p, q);
  }

  /** bkey_iter_cmp. */
  method IterCmp(f: Format, sets: seq<seq<PackedKey>>, a: Slot, b: Slot) returns (cmp: int)
    requires NodeOk(f, sets) && IsKey(f, sets, a) && IsKey(f, sets, b)
    ensures cmp < 0 <==> Less(f, sets, a, b)
    ensures cmp > 0 <==> Less(f, sets, b, a)
  {
    hide Pos;
    var k, l := sets[a.t][a.i], sets[b.t][b.i];
    cmp := CmpKeys(f, k, l);
    if cmp != 0 { return; }
    cmp := (if IsDeleted(l) then 1 else 0) - (if IsDeleted(k) then 1 else 0);
    if cmp != 0 { return; }
    cmp := if a.t != b.t then CmpInt(a.t, b.t) else CmpInt(a.i, b.i);
  }

  /** One step of the iterator: d[0] is behind, the other sets are untouched. */
  ghost predicate AdvancedTo(f: Format, sets: seq<seq<PackedKey>>, d: seq<Slot>, e: seq<Slot>)
    requires NodeOk(f, sets)
  {
    && |d| > 0 && SlotsOk(f, sets, d) && SlotsOk(f, sets, e) && Ascending(f, sets, e)
    && Without(e, d[0].t) == d[1..]
    && (forall x :: 0 <= x < |e| && e[x].t == d[0].t ==> e[x].i == d[0].i + 1)
    && ((exists x :: 0 <= x < |e| && e[x].t == d[0].t) <==> d[0].i + 1 < |sets[d[0].t]|)
  }

  /** btree_node_iter_sort_two on a sequence of slots. */
  method SortTwo(f: Format, sets: seq<seq<PackedKey>>, data: seq<Slot>, first: nat) returns (swapped: bool, out: seq<Slot>)
    requires NodeOk(f, sets) && SlotsOk(f, sets, data) && first + 1 < |data|
    ensures swapped <==> Less(f, sets, data[first + 1], data[first])
    ensures out == if swapped then data[first := data[first + 1]][first + 1 := data[first]] else data
    ensures |out| == |data| && forall s :: s in out <==> s in data
    ensures SlotsOk(f, sets, out) && Less(f, sets, out[first], out[first + 1])
  {
    hide Less, NodeOk, IsKey;
    var cmp := IterCmp(f, sets, data[first], data[first + 1]);
    swapped := cmp > 0;
    LessTotal(f, sets, data[first], data[first + 1]);
    SwapMembers(data, first);
    out := if swapped then data[first := data[first + 1]][first + 1 := data[first]] else data;
  }

  lemma SwapMembers(data: seq<Slot>, x: nat)
    requires x + 1 < |data|
    ensures forall s :: s in data[x := data[x + 1]][x + 1 := data[x]] <==> s in data
  {
    var out := data[x := data[x + 1]][x + 1 := data[x]];
    forall s | s in data
      ensures s in out
    {
      var i :| 0 <= i < |data| && data[i] == s;
      assert out[if i == x then x + 1 else if i == x + 1 then x else i] == s;
    }
  }

  class Iter {
    const f: Format
    const sets: seq<seq<PackedKey>>
    var data: seq<Slot>

    constructor (f: Format, sets: seq<seq<PackedKey>>)
      requires NodeOk(f, sets)
      ensures this.f == f && this.sets == sets && data == []
    {
      this.f, this.sets, data := f, sets, [];
    }

    /** bch2_btree_node_iter_sort. */
    method Sort()
      requires NodeOk(f, sets) && SlotsOk(f, sets, data) && |data| <= MAX_BSETS
      modifies this
      ensures SlotsOk(f, sets, data) && Ascending(f, sets, data)
      ensures |data| == old(|data|) && forall s :: s in data <==> s in old(data)
    {
      data := SortSlots(f, sets, data);
    }

    /** __bch2_btree_node_iter_advance. */
    method Advance()
      requires NodeOk(f, sets) && SlotsOk(f, sets, data) && Ascending(f, sets, data)
      requires 0 < |data| <= MAX_BSETS
      modifies this
      ensures AdvancedTo(f, sets, old(data), data) && |data| <= MAX_BSETS
    {
      hide AdvancedTo, NodeOk, Ascending;
      if data[0].i + 1 == |sets[data[0].t]| {
        FinishedSet(f, sets, data);
        data := data[1..];
        return;
      }
      data := AdvanceFirst(f, sets, data);
    }

    /** bch2_btree_node_iter_prev_all. */
    method PrevAll() returns (prev: Found)
      requires NodeOk(f, sets) && IterOk(f, sets, data)
      modifies this
      ensures prev.None? ==> data == old(data) && forall a :: IsKey(f, sets, a) ==> Ahead(data, a)
      ensures prev.Some? ==> SteppedBack(f, sets, old(data), prev.slot, data)
    {
      hide NodeOk, Less, IsKey, Ahead, Without;
      prev := FindPrev(f, sets, data);
      if prev.Some? { data := MoveToFront(data, prev.slot); }
    }

    /** bch2_btree_node_iter_next_all until the end: every key ahead, once, in order. */
    method VisitAll() returns (out: seq<Slot>)
      requires NodeOk(f, sets) && IterOk(f, sets, data) && |data| <= MAX_BSETS
      modifies this
      ensures forall x :: 0 <= x < |out| ==> IsKey(f, sets, out[x])
      ensures forall x, y :: 0 <= x < y < |out| ==> Less(f, sets, out[x], out[y])
      ensures forall a :: IsKey(f, sets, a) ==> (a in out <==> old(Ahead(data, a)))
    {
      hide NodeOk, Less, IsKey, Ahead, Without, AdvancedTo, Ascending, Cut;
      out := [];
      ghost var start := data;
      while |data| > 0
        invariant IterOk(f, sets, data) && |data| <= MAX_BSETS
        invariant forall x :: 0 <= x < |out| ==> IsKey(f, sets, out[x]) && !Ahead(data, out[x])
        invariant forall x, y :: 0 <= x < y < |out| ==> Less(f, sets, out[x], out[y])
        invariant forall a :: IsKey(f, sets, a) ==> (Ahead(start, a) <==> a in out || Ahead(data, a))
        decreases RemainingKeys(sets, data)
      {
        ghost var d := data;
        var x := data[0];
        Advance();
        RemainingDrops(f, sets, d, data);
        AdvanceKeepsCut(f, sets, d, data);
        FirstAhead(d);
        forall a | IsKey(f, sets, a)
          ensures Ahead(data, a) <==> Ahead(d, a) && a != d[0]
        {
          AdvanceRemovesFirst(f, sets, d, data, a);
        }
        CutAt(f, sets, d, out);
        out := out + [x];
      }
      NoneAhead();
    }
  }

  lemma NoneAhead()
    ensures forall a :: !Ahead([], a)
  {
  }

  lemma CutAt(f: Format, sets: seq<seq<PackedKey>>, d: seq<Slot>, out: seq<Slot>)
    requires NodeOk(f, sets) && IterOk(f, sets, d) && |d| > 0
    requires forall x :: 0 <= x < |out| ==> IsKey(f, sets, out[x]) && !Ahead(d, out[x])
    ensures forall x :: 0 <= x < |out| ==> Less(f, sets, out[x], d[0])
  {
    hide NodeOk, Less, IsKey, Ahead;
    FirstAhead(d);
  }

  /** Keys ahead, counted set by set. */
  ghost function RemainingKeys(sets: seq<seq<PackedKey>>, data: seq<Slot>): nat
  {
    if |data| == 0 then 0
    else (if data[0].t < |sets| && data[0].i <= |sets[data[0].t]| then |sets[data[0].t]| - data[0].i else 0)
         + RemainingKeys(sets, data[1..])
  }

  lemma {:induction false} RemainingSplit(sets: seq<seq<PackedKey>>, e: seq<Slot>, t: nat)
    requires forall i, j :: 0 <= i < j < |e| ==> e[i].t != e[j].t
    ensures forall x :: 0 <= x < |e| && e[x].t == t ==>
              RemainingKeys(sets, e) == RemainingKeys(sets, Without(e, t)) + RemainingKeys(sets, [e[x]])
    ensures (forall x :: 0 <= x < |e| ==> e[x].t != t) ==> RemainingKeys(sets, e) == RemainingKeys(sets, Without(e, t))
  {
    if |e| > 0 {
      RemainingSplit(sets, e[1..], t);
      if e[0].t == t {
        WithoutNone(e[1..], t);
        assert Without(e, t) == e[1..];
      } else {
        var w := Without(e[1..], t);
        assert Without(e, t) == [e[0]] + w;
        assert ([e[0]] + w)[1..] == w;
        forall x | 0 <= x < |e| && e[x].t == t
          ensures RemainingKeys(sets, e) == RemainingKeys(sets, Without(e, t)) + RemainingKeys(sets, [e[x]])
        {
          assert e[x] == e[1..][x - 1];
        }
      }
    }
  }

  lemma {:induction false} RemainingDrops(f: Format, sets: seq<seq<PackedKey>>, d: seq<Slot>, e: seq<Slot>)
    requires NodeOk(f, sets) && AdvancedTo(f, sets, d, e)
    ensures RemainingKeys(sets, e) < RemainingKeys(sets, d)
  {
    hide NodeOk, Less, KeyOk, Without, Ascending;
    var t := d[0].t;
    RemainingSplit(sets, e, t);
    InRange(f, sets, d[0]);
    if x :| 0 <= x < |e| && e[x].t == t {
      assert RemainingKeys(sets, [e[x]]) == |sets[t]| - e[x].i;
    }
  }

  /** An unrolled bubble sort of up to three slots. */
  method SortSlots(f: Format, sets: seq<seq<PackedKey>>, data: seq<Slot>) returns (e: seq<Slot>)
    requires NodeOk(f, sets) && SlotsOk(f, sets, data) && |data| <= MAX_BSETS
    ensures SlotsOk(f, sets, e) && Ascending(f, sets, e)
    ensures |e| == |data| && forall s :: s in e <==> s in data
  {
    hide Less, NodeOk, IsKey;
    var swapped;
    e := data;
    if |e| > 2 {
      swapped, e := SortTwo(f, sets, e, 0);
      ghost var a := e[0];
      swapped, e := SortTwo(f, sets, e, 1);
      // the largest is now last
      if !swapped { LessTransitive(f, sets, a, e[1], e[2]); }
      assert Less(f, sets, e[0], e[2]) && Less(f, sets, e[1], e[2]);
    }
    if |e| > 1 {
      ghost var mid := e;
      swapped, e := SortTwo(f, sets, e, 0);
      if |e| > 2 {
        assert Less(f, sets, e[0], e[2]) && Less(f, sets, e[1], e[2]);
      }
    }
  }

  /** Moves the first slot on by one key and back into order. */
  method AdvanceFirst(f: Format, sets: seq<seq<PackedKey>>, d: seq<Slot>) returns (e: seq<Slot>)
    requires NodeOk(f, sets) && SlotsOk(f, sets, d) && Ascending(f, sets, d)
    requires 0 < |d| <= MAX_BSETS && d[0].i + 1 < |sets[d[0].t]|
    ensures AdvancedTo(f, sets, d, e) && |e| <= MAX_BSETS
  {
    hide Less, NodeOk, AdvancedTo, IsKey;
    var s := Slot(d[0].t, d[0].i + 1);
    NextIsKey(f, sets, d[0]);
    e := d[0 := s];
    if |e| == 1 {
      ReinsertedOk(f, sets, d, s, 0);
      assert e == Reinserted(d, s, 0);
      return;
    }
    var swapped;
    swapped, e := SortTwo(f, sets, e, 0);
    if !swapped {
      ReinsertedOk(f, sets, d, s, 0);
      assert e == Reinserted(d, s, 0);
      return;
    }
    if |e| == 2 {
      ReinsertedOk(f, sets, d, s, 1);
      assert e == Reinserted(d, s, 1);
      return;
    }
    swapped, e := SortTwo(f, sets, e, 1);
    ghost var m := if swapped then 2 else 1;
    ReinsertedOk(f, sets, d, s, m);
    assert e == Reinserted(d, s, m);
  }

  lemma NextIsKey(f: Format, sets: seq<seq<PackedKey>>, a: Slot)
    requires NodeOk(f, sets) && IsKey(f, sets, a) && a.i + 1 < |sets[a.t]|
    ensures IsKey(f, sets, Slot(a.t, a.i + 1))
  {
    assert KeyOk(f, sets[a.t][a.i + 1]);
  }

  lemma FinishedSet(f: Format, sets: seq<seq<PackedKey>>, d: seq<Slot>)
    requires NodeOk(f, sets) && SlotsOk(f, sets, d) && Ascending(f, sets, d) && |d| > 0
    requires d[0].i + 1 == |sets[d[0].t]|
    ensures AdvancedTo(f, sets, d, d[1..])
  {
    hide Less, IsKey;
    WithoutNone(d[1..], d[0].t);
  }

  /** The slots after d[0] with s put in after the first m of them. */
  ghost function Reinserted(d: seq<Slot>, s: Slot, m: nat): seq<Slot>
    requires 1 <= m + 1 <= |d|
  {
    d[1..m + 1] + [s] + d[m + 1..]
  }

  lemma ReinsertedWithout(d: seq<Slot>, s: Slot, m: nat)
    requires m < |d| && d[0].t == s.t && forall x :: 0 < x < |d| ==> d[x].t != s.t
    ensures Without(Reinserted(d, s, m), s.t) == d[1..]
  {
    var b, c := d[1..m + 1], d[m + 1..];
    assert Without([s], s.t) == [];
    WithoutNone(b, s.t);
    WithoutNone(c, s.t);
    WithoutConcat(b + [s], c, s.t);
    WithoutConcat(b, [s], s.t);
    assert b + c == d[1..];
  }

  lemma ReinsertedOk(f: Format, sets: seq<seq<PackedKey>>, d: seq<Slot>, s: Slot, m: nat)
    requires NodeOk(f, sets) && SlotsOk(f, sets, d) && Ascending(f, sets, d) && m < |d|
    requires s == Slot(d[0].t, d[0].i + 1) && s.i < |sets[s.t]| && IsKey(f, sets, s)
    requires m > 0 ==> Less(f, sets, d[m], s)
    requires m + 1 < |d| ==> Less(f, sets, s, d[m + 1])
    ensures AdvancedTo(f, sets, d, Reinserted(d, s, m))
  {
    hide Less, NodeOk, IsKey, Without;
    var e := Reinserted(d, s, m);
    var b, c := d[1..m + 1], d[m + 1..];
    assert e[m] == s;
    ReinsertedWithout(d, s, m);
    assert forall x :: 0 <= x < m ==> e[x] == d[x + 1];
    assert forall x :: m < x < |e| ==> e[x] == d[x];
    forall x, y | 0 <= x < y < |e|
      ensures Less(f, sets, e[x], e[y])
    {
      if x == m { if y > m + 1 { LessTransitive(f, sets, s, d[m + 1], e[y]); } }
      else if y == m { if x + 1 < m { LessTransitive(f, sets, e[x], d[m], s); } }
    }
  }

  // ---- what one step does ----

  lemma {:induction false} WithoutMembers(data: seq<Slot>, t: nat, s: Slot)
    ensures s in Without(data, t) <==> s in data && s.t != t
  {
    if |data| > 0 { WithoutMembers(data[1..], t, s); }
  }

  lemma AheadIff(data: seq<Slot>, a: Slot)
    ensures Ahead(data, a) <==> exists s :: s in data && s.t == a.t && s.i <= a.i
  {
    if Ahead(data, a) {
      var x :| 0 <= x < |data| && data[x].t == a.t && data[x].i <= a.i;
      assert data[x] in data;
    }
  }

  /** Advancing puts exactly the first key behind the iterator, and keeps it an iterator. */
  lemma {:induction false} AdvanceRemovesFirst(f: Format, sets: seq<seq<PackedKey>>, d: seq<Slot>, e: seq<Slot>, a: Slot)
    requires NodeOk(f, sets) && AdvancedTo(f, sets, d, e) && IsKey(f, sets, a)
    ensures Ahead(e, a) <==> Ahead(d, a) && a != d[0]
  {
    hide NodeOk, IsKey, Without;
    var t := d[0].t;
    if a.t != t {
      forall s
        ensures s in d[1..] <==> s in e && s.t != t
      {
        WithoutMembers(e, t, s);
      }
      if Ahead(d, a) {
        var x :| 0 <= x < |d| && d[x].t == a.t && d[x].i <= a.i;
        assert d[x] == d[1..][x - 1];
      }
      if Ahead(e, a) {
        var x :| 0 <= x < |e| && e[x].t == a.t && e[x].i <= a.i;
        assert e[x] in d[1..];
      }
    } else {
      if Ahead(d, a) {
        var x :| 0 <= x < |d| && d[x].t == a.t && d[x].i <= a.i;
        assert x == 0;
      }
      if a.i >= d[0].i + 1 {
        InRange(f, sets, a);
        var x :| 0 <= x < |e| && e[x].t == t;
      }
    }
  }

  lemma InRange(f: Format, sets: seq<seq<PackedKey>>, a: Slot)
    requires NodeOk(f, sets) && IsKey(f, sets, a)
    ensures a.i < |sets[a.t]|
  {
  }

  lemma {:induction false} AdvanceKeepsCut(f: Format, sets: seq<seq<PackedKey>>, d: seq<Slot>, e: seq<Slot>)
    requires NodeOk(f, sets) && IterOk(f, sets, d) && AdvancedTo(f, sets, d, e)
    ensures IterOk(f, sets, e)
  {
    hide NodeOk, IsKey, Without, Less, Ahead, Ascending;
    forall a, b | IsKey(f, sets, a) && IsKey(f, sets, b) && !Ahead(e, a) && Ahead(e, b)
      ensures Less(f, sets, a, b)
    {
      AdvanceRemovesFirst(f, sets, d, e, a);
      AdvanceRemovesFirst(f, sets, d, e, b);
      if a == d[0] { FirstIsLeast(f, sets, d, b); }
    }
  }

  // ---- stepping back ----

  datatype Found = None | Some(slot: Slot)

  /** x is the greatest key behind the iterator. */
  ghost predicate GreatestBehind(f: Format, sets: seq<seq<PackedKey>>, data: seq<Slot>, x: Slot)
    requires NodeOk(f, sets)
  {
    && IsKey(f, sets, x) && !Ahead(data, x)
    && forall a :: IsKey(f, sets, a) && !Ahead(data, a) ==> a == x || Less(f, sets, a, x)
  }

  /** One step back: x in front, its set's old slot gone. */
  ghost predicate SteppedBack(f: Format, sets: seq<seq<PackedKey>>, d: seq<Slot>, x: Slot, e: seq<Slot>)
    requires NodeOk(f, sets)
  {
    GreatestBehind(f, sets, d, x) && e == [x] + Without(d, x.t)
  }

  /** bch2_btree_node_iter_bset_pos: where the iterator stands in set t. */
  method BsetPos(f: Format, sets: seq<seq<PackedKey>>, data: seq<Slot>, t: nat) returns (i: nat)
    requires NodeOk(f, sets) && SlotsOk(f, sets, data) && t < |sets|
    ensures i <= |sets[t]|
    ensures forall j :: 0 <= j < |sets[t]| ==> (Ahead(data, Slot(t, j)) <==> i <= j)
  {
    hide NodeOk, KeyOk;
    var x := 0;
    while x < |data|
      invariant 0 <= x <= |data|
      invariant forall y :: 0 <= y < x ==> data[y].t != t
    {
      if data[x].t == t {
        i := data[x].i;
        return;
      }
      x := x + 1;
    }
    i := |sets[t]|;
  }

  /** The choice made by bch2_btree_node_iter_prev_all among the last keys behind the iterator in each set. */
  method FindPrev(f: Format, sets: seq<seq<PackedKey>>, data: seq<Slot>) returns (prev: Found)
    requires NodeOk(f, sets) && SlotsOk(f, sets, data)
    ensures prev.None? ==> forall a :: IsKey(f, sets, a) ==> Ahead(data, a)
    ensures prev.Some? ==> GreatestBehind(f, sets, data, prev.slot)
  {
    hide NodeOk, Less, KeyOk, SlotsOk;
    prev := None;
    var t := 0;
    while t < |sets|
      invariant 0 <= t <= |sets|
      invariant prev.None? ==> forall a :: IsKey(f, sets, a) && a.t < t ==> Ahead(data, a)
      invariant prev.Some? ==> IsKey(f, sets, prev.slot) && !Ahead(data, prev.slot)
      invariant prev.Some? ==> forall a :: IsKey(f, sets, a) && a.t < t && !Ahead(data, a) ==>
                                 a == prev.slot || Less(f, sets, a, prev.slot)
    {
      var i := BsetPos(f, sets, data, t);
      if i > 0 {
        var k := Slot(t, i - 1);
        KeyOfNode(f, sets, k);
        LastBehind(f, sets, data, k);
        if prev.None? {
          prev := Some(k);
        } else {
          var cmp := IterCmp(f, sets, k, prev.slot);
          LessTotal(f, sets, k, prev.slot);
          if cmp > 0 {
            KeepGreater(f, sets, data, t, prev.slot, k);
            prev := Some(k);
          } else {
            KeepGreater(f, sets, data, t, prev.slot, prev.slot);
            SetBelow(f, sets, data, k, prev.slot);
          }
        }
      }
      t := t + 1;
    }
    AllSets(f, sets);
  }

  lemma AllSets(f: Format, sets: seq<seq<PackedKey>>)
    requires NodeOk(f, sets)
    ensures forall a :: IsKey(f, sets, a) ==> a.t < |sets|
  {
  }

  lemma KeyOfNode(f: Format, sets: seq<seq<PackedKey>>, a: Slot)
    requires NodeOk(f, sets) && a.t < |sets| && a.i < |sets[a.t]|
    ensures IsKey(f, sets, a)
  {
    assert KeyOk(f, sets[a.t][a.i]);
  }

  /** Within its set, k is the greatest key behind. */
  lemma LastBehind(f: Format, sets: seq<seq<PackedKey>>, data: seq<Slot>, k: Slot)
    requires NodeOk(f, sets) && IsKey(f, sets, k)
    requires forall j :: 0 <= j < |sets[k.t]| ==> (Ahead(data, Slot(k.t, j)) <==> k.i + 1 <= j)
    ensures !Ahead(data, k)
    ensures forall a :: IsKey(f, sets, a) && a.t == k.t && !Ahead(data, a) ==> a == k || Less(f, sets, a, k)
  {
    hide NodeOk, Less, Ahead;
    InRange(f, sets, k);
    forall a | IsKey(f, sets, a) && a.t == k.t && !Ahead(data, a)
      ensures a == k || Less(f, sets, a, k)
    {
      InRange(f, sets, a);
      assert a == Slot(k.t, a.i) && k == Slot(k.t, k.i);
      if a.i < k.i { LessWithinSet(f, sets, k.t, a.i, k.i); }
    }
  }

  lemma KeepGreater(f: Format, sets: seq<seq<PackedKey>>, data: seq<Slot>, t: nat, p: Slot, q: Slot)
    requires NodeOk(f, sets) && IsKey(f, sets, p) && IsKey(f, sets, q) && (p == q || Less(f, sets, p, q))
    requires forall a :: IsKey(f, sets, a) && a.t < t && !Ahead(data, a) ==> a == p || Less(f, sets, a, p)
    ensures forall a :: IsKey(f, sets, a) && a.t < t && !Ahead(data, a) ==> a == q || Less(f, sets, a, q)
  {
    hide NodeOk, Less, Ahead, IsKey;
    forall a | IsKey(f, sets, a) && a.t < t && !Ahead(data, a)
      ensures a == q || Less(f, sets, a, q)
    {
      if a != p && p != q { LessTransitive(f, sets, a, p, q); }
    }
  }

  lemma SetBelow(f: Format, sets: seq<seq<PackedKey>>, data: seq<Slot>, k: Slot, p: Slot)
    requires NodeOk(f, sets) && IsKey(f, sets, p) && IsKey(f, sets, k) && (k == p || Less(f, sets, k, p))
    requires forall a :: IsKey(f, sets, a) && a.t == k.t && !Ahead(data, a) ==> a == k || Less(f, sets, a, k)
    ensures forall a :: IsKey(f, sets, a) && a.t == k.t && !Ahead(data, a) ==> a == p || Less(f, sets, a, p)
  {
    hide NodeOk, Less, Ahead, IsKey;
    forall a | IsKey(f, sets, a) && a.t == k.t && !Ahead(data, a)
      ensures a == p || Less(f, sets, a, p)
    {
      if a != k && k != p { LessTransitive(f, sets, a, k, p); }
    }
  }

  /** The memmove of bch2_btree_node_iter_prev_all. */
  method MoveToFront(data: seq<Slot>, x: Slot) returns (e: seq<Slot>)
    requires forall i, j :: 0 <= i < j < |data| ==> data[i].t != data[j].t
    ensures e == [x] + Without(data, x.t)
  {
    hide Without;
    var at := 0;
    while at < |data| && data[at].t != x.t
      invariant 0 <= at <= |data|
      invariant forall i :: 0 <= i < at ==> data[i].t != x.t
    {
      at := at + 1;
    }
    if at < |data| {
      WithoutAt(data, at);
      e := [x] + (data[..at] + data[at + 1..]);
    } else {
      WithoutNone(data, x.t);
      e := [x] + data;
    }
  }

  lemma {:induction false} WithoutAt(data: seq<Slot>, at: nat)
    requires at < |data| && forall i, j :: 0 <= i < j < |data| ==> data[i].t != data[j].t
    ensures Without(data, data[at].t) == data[..at] + data[at + 1..]
  {
    hide Without;
    var a, m, b := data[..at], [data[at]], data[at + 1..];
    assert data == a + m + b;
    WithoutConcat(a + m, b, data[at].t);
    WithoutConcat(a, m, data[at].t);
    WithoutNone(a, data[at].t);
    WithoutNone(b, data[at].t);
    WithoutSelf(data[at]);
  }

  lemma WithoutSelf(s: Slot)
    ensures Without([s], s.t) == []
  {
  }

  // ---- back and forth ----

  /** Stepping back undoes advancing: the same key, and the same iterator. */
  lemma {:induction false} BackUndoesAdvance(f: Format, sets: seq<seq<PackedKey>>, d: seq<Slot>, e: seq<Slot>, x: Slot,
                                             g: seq<Slot>)
    requires NodeOk(f, sets) && IterOk(f, sets, d) && AdvancedTo(f, sets, d, e) && SteppedBack(f, sets, e, x, g)
    ensures x == d[0] && g == d
  {
    hide NodeOk, Less, IsKey, Ahead, Without;
    FirstAhead(d);
    AdvanceRemovesFirst(f, sets, d, e, d[0]);
    AdvanceRemovesFirst(f, sets, d, e, x);
    LessTotal(f, sets, x, d[0]);
  }

  lemma FirstAhead(d: seq<Slot>)
    requires |d| > 0
    ensures Ahead(d, d[0])
  {
  }

  /** Stepping back keeps an iterator, with exactly one more key ahead. */
  lemma {:induction false} BackAddsOne(f: Format, sets: seq<seq<PackedKey>>, d: seq<Slot>, x: Slot, e: seq<Slot>, a: Slot)
    requires NodeOk(f, sets) && IterOk(f, sets, d) && SteppedBack(f, sets, d, x, e) && IsKey(f, sets, a)
    ensures Ahead(e, a) <==> Ahead(d, a) || a == x
  {
    hide NodeOk, Less, Without, Ascending, Cut;
    forall s
      ensures s in e <==> s == x || (s in d && s.t != x.t)
    {
      WithoutMembers(d, x.t, s);
    }
    AheadIff(e, a);
    AheadIff(d, a);
    if a.t == x.t {
      assert x in e;
      if a.i > x.i {
        LessWithinSet(f, sets, x.t, x.i, a.i);
        assert a == Slot(x.t, a.i) && x == Slot(x.t, x.i);
        LessTotal(f, sets, x, a);
      } else {
        AheadMonotone(d, a, x);
      }
    }
  }

  lemma AheadMonotone(d: seq<Slot>, a: Slot, b: Slot)
    requires a.t == b.t && a.i <= b.i
    ensures Ahead(d, a) ==> Ahead(d, b)
  {
  }

  lemma {:induction false} BackKeepsIter(f: Format, sets: seq<seq<PackedKey>>, d: seq<Slot>, x: Slot, e: seq<Slot>)
    requires NodeOk(f, sets) && IterOk(f, sets, d) && SteppedBack(f, sets, d, x, e)
    ensures IterOk(f, sets, e)
  {
    hide NodeOk, Less, Without, IsKey, Ahead;
    forall a, b | IsKey(f, sets, a) && IsKey(f, sets, b) && !Ahead(e, a) && Ahead(e, b)
      ensures Less(f, sets, a, b)
    {
      BackAddsOne(f, sets, d, x, e, a);
      BackAddsOne(f, sets, d, x, e, b);
    }
    WithoutOrder(f, sets, d, x.t);
    var w := Without(d, x.t);
    forall y | 0 <= y < |w|
      ensures IsKey(f, sets, w[y]) && w[y].t != x.t && Less(f, sets, x, w[y])
    {
      WithoutMembers(d, x.t, w[y]);
      MemberAhead(d, w[y]);
    }
  }

  lemma MemberAhead(d: seq<Slot>, s: Slot)
    requires s in d
    ensures Ahead(d, s)
  {
  }

  lemma {:induction false} WithoutOrder(f: Format, sets: seq<seq<PackedKey>>, d: seq<Slot>, t: nat)
    requires NodeOk(f, sets) && SlotsOk(f, sets, d) && Ascending(f, sets, d)
    ensures SlotsOk(f, sets, Without(d, t)) && Ascending(f, sets, Without(d, t))
  {
    hide NodeOk, Less, IsKey, Without;
    if |d| == 0 {
      WithoutEmpty(t);
    } else {
      WithoutStep(d, t);
      WithoutOrder(f, sets, d[1..], t);
      var w := Without(d[1..], t);
      forall y | 0 <= y < |w|
        ensures w[y] in d[1..]
      {
        WithoutMembers(d[1..], t, w[y]);
      }
    }
  }

  lemma HeadIsMember(e: seq<Slot>)
    ensures |e| > 0 ==> e[0] in e
  {
  }

  /** An iterator is determined by its slots. */
  lemma {:induction false} AscendingUnique(f: Format, sets: seq<seq<PackedKey>>, d: seq<Slot>, e: seq<Slot>)
    requires NodeOk(f, sets) && SlotsOk(f, sets, d) && Ascending(f, sets, d)
    requires SlotsOk(f, sets, e) && Ascending(f, sets, e)
    requires forall s :: s in d <==> s in e
    ensures d == e
  {
    hide NodeOk, Less, IsKey;
    if |d| == 0 {
      HeadIsMember(e);
    } else {
      assert d[0] in e && d[0] in d;
      assert e[0] in d;
      if d[0] != e[0] {
        LessTotal(f, sets, d[0], e[0]);
      } else {
        forall s
          ensures s in d[1..] <==> s in e[1..]
        {
          if s in d[1..] { assert s in d && s != d[0]; }
          if s in e[1..] { assert s in e && s != e[0]; }
        }
        AscendingUnique(f, sets, d[1..], e[1..]);
      }
    }
  }

  /** Advancing undoes stepping back. */
  lemma {:induction false} AdvanceUndoesBack(f: Format, sets: seq<seq<PackedKey>>, d: seq<Slot>, x: Slot, e: seq<Slot>,
                                             g: seq<Slot>)
    requires NodeOk(f, sets) && IterOk(f, sets, d) && SteppedBack(f, sets, d, x, e) && AdvancedTo(f, sets, e, g)
    ensures g == d
  {
    hide NodeOk, Less, IsKey, Without, Ascending, Cut;
    forall s
      ensures s in g <==> s in d
    {
      WithoutMembers(g, x.t, s);
      WithoutMembers(d, x.t, s);
      if s.t == x.t { SameSlot(f, sets, d, x, e, g, s); }
    }
    AscendingUnique(f, sets, g, d);
  }

  lemma {:induction false} SameSlot(f: Format, sets: seq<seq<PackedKey>>, d: seq<Slot>, x: Slot, e: seq<Slot>,
                                    g: seq<Slot>, s: Slot)
    requires NodeOk(f, sets) && IterOk(f, sets, d) && SteppedBack(f, sets, d, x, e) && AdvancedTo(f, sets, e, g)
    requires s.t == x.t
    ensures s in g <==> s in d
  {
    hide NodeOk, Less, Without, Ascending, Cut, KeyOk;
    InRange(f, sets, x);
    if s in d {
      assert IsKey(f, sets, s);
      MemberAhead(d, s);
      if s.i < x.i { AheadMonotone(d, s, x); }
      if s.i > x.i + 1 {
        var y := Slot(x.t, x.i + 1);
        KeyOfNode(f, sets, y);
        NotAheadOf(d, s, y);
        LessWithinSet(f, sets, x.t, x.i, x.i + 1);
        LessTotal(f, sets, x, y);
      }
    }
    if s in g || s in d {
      assert s == Slot(x.t, x.i + 1);
      if x.i + 1 < |sets[x.t]| {
        KeyOfNode(f, sets, s);
        LessWithinSet(f, sets, x.t, x.i, x.i + 1);
        LessTotal(f, sets, x, s);
        assert Ahead(d, s);
        var z :| 0 <= z < |d| && d[z].t == s.t && d[z].i <= s.i;
        var h := d[z];
        MemberAhead(d, h);
        if h.i <= x.i { AheadMonotone(d, h, x); }
        assert s in d;
        var w :| 0 <= w < |g| && g[w].t == x.t;
        assert g[w] == s;
      } else {
        InRange(f, sets, s);
      }
    }
  }

  lemma NotAheadOf(d: seq<Slot>, s: Slot, y: Slot)
    requires s in d && s.t == y.t && y.i < s.i && forall i, j :: 0 <= i < j < |d| ==> d[i].t != d[j].t
    ensures !Ahead(d, y)
  {
  }
}
