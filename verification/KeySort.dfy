/**
 Merging sorted sets into one (libbcachefs/bkey_sort.c). The sets are given oldest
 first, and a key's address grows with its set and its place in the set.
 */
module KeySort {
  import opened Bits
  import opened Bkey
  import opened Bset
  import opened NodeIter

  /** The three comparison functions a merge may use. */
  datatype Order =
    | ByAge        // key_sort_fix_overlapping_cmp: position, then address
    | ByLiveness   // keep_unwritten_whiteouts_cmp: position, deleted first, then address
    | ByPosition   // bch2_bkey_cmp_packed alone

  ghost predicate Older(a: Slot, b: Slot) { a.t < b.t || (a.t == b.t && a.i < b.i) }

  /** The comparison puts a after b. */
  ghost predicate Greater(o: Order, f: Format, sets: seq<seq<PackedKey>>, a: Slot, b: Slot)
    requires NodeOk(f, sets) && IsKey(f, sets, a) && IsKey(f, sets, b)
  {
    var p, q := PosOf(f, sets, a), PosOf(f, sets, b);
    match o
    case ByAge => BposLt(q, p) || (p == q && Older(b, a))
    case ByLiveness => Less(f, sets, b, a)
    case ByPosition => BposLt(q, p)
  }

  lemma NotGreaterTransitive(o: Order, f: Format, sets: seq<seq<PackedKey>>, a: Slot, b: Slot, c: Slot)
    requires NodeOk(f, sets) && IsKey(f, sets, a) && IsKey(f, sets, b) && IsKey(f, sets, c)
    requires !Greater(o, f, sets, a, b) && !Greater(o, f, sets, b, c)
    ensures !Greater(o, f, sets, a, c)
  {
    hide PosOf, DeletedAt;
  }

  lemma GreaterAsymmetric(o: Order, f: Format, sets: seq<seq<PackedKey>>, a: Slot, b: Slot)
    requires NodeOk(f, sets) && IsKey(f, sets, a) && IsKey(f, sets, b) && Greater(o, f, sets, a, b)
    ensures !Greater(o, f, sets, b, a)
  {
    hide PosOf, DeletedAt;
  }

  /** Every order refines the order of positions. */
  lemma NotGreaterPos(o: Order, f: Format, sets: seq<seq<PackedKey>>, a: Slot, b: Slot)
    requires NodeOk(f, sets) && IsKey(f, sets, a) && IsKey(f, sets, b)
    ensures !Greater(o, f, sets, a, b) ==> BposLe(PosOf(f, sets, a), PosOf(f, sets, b))
    ensures BposLt(PosOf(f, sets, a), PosOf(f, sets, b)) ==> !Greater(o, f, sets, a, b)
  {
    hide PosOf, DeletedAt;
  }

  /** Each set is in order whichever comparison is used. */
  lemma SetInOrder(o: Order, f: Format, sets: seq<seq<PackedKey>>, a: Slot, b: Slot)
    requires NodeOk(f, sets) && IsKey(f, sets, a) && IsKey(f, sets, b) && a.t == b.t && a.i <= b.i
    ensures !Greater(o, f, sets, a, b)
  {
    if a.i < b.i {
      LessWithinSet(f, sets, a.t, a.i, b.i);
      SortedAt(f, sets, a, b);
    }
    hide PosOf, DeletedAt;
  }

  lemma SortedAt(f: Format, sets: seq<seq<PackedKey>>, a: Slot, b: Slot)
    requires NodeOk(f, sets) && IsKey(f, sets, a) && IsKey(f, sets, b) && a.t == b.t && a.i < b.i
    ensures BposLt(PosOf(f, sets, a), PosOf(f, sets, b))
            || (PosOf(f, sets, a) == PosOf(f, sets, b) && DeletedAt(f, sets, a))
  {
    hide Pos;
    assert Sorted(f, sets[a.t]);
  }

  method Compare(o: Order, f: Format, sets: seq<seq<PackedKey>>, a: Slot, b: Slot) returns (cmp: int)
    requires NodeOk(f, sets) && IsKey(f, sets, a) && IsKey(f, sets, b)
    ensures cmp > 0 <==> Greater(o, f, sets, a, b)
  {
    hide Pos;
    if o == ByLiveness {
      cmp := IterCmp(f, sets, a, b);
      return;
    }
    cmp := CmpKeys(f, sets[a.t][a.i], sets[b.t][b.i]);
    if cmp == 0 && o == ByAge {
      cmp := if a.t != b.t then CmpInt(a.t, b.t) else CmpInt(a.i, b.i);
    }
  }

  // ---- the iterator: one slot for each set that is not used up ----

  ghost predicate InOrder(o: Order, f: Format, sets: seq<seq<PackedKey>>, data: seq<Slot>, from: nat)
    requires NodeOk(f, sets) && forall x :: 0 <= x < |data| ==> IsKey(f, sets, data[x])
  {
    forall x, y :: from <= x < y < |data| ==> !Greater(o, f, sets, data[x], data[y])
  }

  /** sort_iter_sift: lets data[from] sink into the ordered rest. */
  method Sift(o: Order, f: Format, sets: seq<seq<PackedKey>>, data: seq<Slot>, from: nat) returns (out: seq<Slot>)
    requires NodeOk(f, sets) && SlotsOk(f, sets, data) && InOrder(o, f, sets, data, from + 1)
    ensures |out| == |data| && SlotsOk(f, sets, out) && InOrder(o, f, sets, out, from)
    ensures forall s :: s in out <==> s in data
  {
    hide NodeOk, IsKey, Greater;
    out := data;
    var i := from;
    while i + 1 < |out|
      invariant from <= i && |out| == |data| && SlotsOk(f, sets, out)
      invariant forall s :: s in out <==> s in data
      invariant forall x, y :: from <= x < y < |out| && x != i ==> !Greater(o, f, sets, out[x], out[y])
    {
      var cmp := Compare(o, f, sets, out[i], out[i + 1]);
      if cmp <= 0 { break; }
      GreaterAsymmetric(o, f, sets, out[i], out[i + 1]);
      SwapMembers(out, i);
      out := out[i := out[i + 1]][i + 1 := out[i]];
      i := i + 1;
    }
    forall y | i < y < |out| && from <= i
      ensures !Greater(o, f, sets, out[i], out[y])
    {
      if y > i + 1 { NotGreaterTransitive(o, f, sets, out[i], out[i + 1], out[y]); }
    }
  }

  /** sort_iter_sort. */
  method SortAll(o: Order, f: Format, sets: seq<seq<PackedKey>>, data: seq<Slot>) returns (out: seq<Slot>)
    requires NodeOk(f, sets) && SlotsOk(f, sets, data)
    ensures |out| == |data| && SlotsOk(f, sets, out) && InOrder(o, f, sets, out, 0)
    ensures forall s :: s in out <==> s in data
  {
    hide NodeOk, IsKey, Greater;
    out := data;
    var i := |out|;
    while i > 0
      invariant 0 <= i <= |out| == |data| && SlotsOk(f, sets, out) && InOrder(o, f, sets, out, i)
      invariant forall s :: s in out <==> s in data
    {
      i := i - 1;
      out := Sift(o, f, sets, out, i);
    }
  }

  /** Nothing used up sorts after anything left. */
  ghost predicate CutBy(o: Order, f: Format, sets: seq<seq<PackedKey>>, data: seq<Slot>)
    requires NodeOk(f, sets)
  {
    forall a, b :: IsKey(f, sets, a) && IsKey(f, sets, b) && !Ahead(data, a) && Ahead(data, b) ==>
      !Greater(o, f, sets, a, b)
  }

  ghost predicate MergeOk(o: Order, f: Format, sets: seq<seq<PackedKey>>, data: seq<Slot>)
    requires NodeOk(f, sets)
  {
    SlotsOk(f, sets, data) && InOrder(o, f, sets, data, 0) && CutBy(o, f, sets, data)
  }

  /** sort_iter_add for every set, then sort_iter_sort. */
  method Start(o: Order, f: Format, sets: seq<seq<PackedKey>>) returns (data: seq<Slot>)
    requires NodeOk(f, sets)
    ensures MergeOk(o, f, sets, data) && forall a :: IsKey(f, sets, a) ==> Ahead(data, a)
  {
    hide Greater, KeyOk;
    data := [];
    for t := 0 to |sets|
      invariant SlotsOk(f, sets, data) && forall x :: 0 <= x < |data| ==> data[x].t < t
      invariant forall s :: 0 <= s < t && 0 < |sets[s]| ==> Slot(s, 0) in data
    {
      if |sets[t]| != 0 {
        KeyOfNode(f, sets, Slot(t, 0));
        data := data + [Slot(t, 0)];
      }
    }
    data := SortAll(o, f, sets, data);
    forall a | IsKey(f, sets, a)
      ensures Ahead(data, a)
    {
      AheadIff(data, a);
      assert Slot(a.t, 0) in data;
    }
  }

  /** sort_iter_advance. */
  method Advance(o: Order, f: Format, sets: seq<seq<PackedKey>>, d: seq<Slot>) returns (e: seq<Slot>)
    requires NodeOk(f, sets) && |d| > 0 && MergeOk(o, f, sets, d)
    ensures MergeOk(o, f, sets, e)
    ensures forall a :: IsKey(f, sets, a) ==> (Ahead(e, a) <==> Ahead(d, a) && a != d[0])
  {
    hide Greater, NodeOk, CutBy, Ahead, KeyOk;
    SlotInRange(f, sets, d[0]);
    var s := Slot(d[0].t, d[0].i + 1);
    if s.i == |sets[s.t]| {
      e := d[1..];
      assert Moved(sets, d, e);
    } else {
      NextIsKey(f, sets, d[0]);
      e := Sift(o, f, sets, d[0 := s], 0);
      SiftedMoved(sets, d, s, e);
    }
    hide SlotsOk, InOrder, Moved;
    MovedAhead(f, sets, d, e);
    AdvanceCut(o, f, sets, d, e);
  }

  /** The first slot has moved on by one key, or is gone with the last one. */
  ghost predicate Moved(sets: seq<seq<PackedKey>>, d: seq<Slot>, e: seq<Slot>)
    requires |d| > 0 && d[0].t < |sets|
  {
    forall s :: s in e <==> s in d[1..] || (s == Slot(d[0].t, d[0].i + 1) && s.i < |sets[d[0].t]|)
  }

  lemma SiftedMoved(sets: seq<seq<PackedKey>>, d: seq<Slot>, s: Slot, e: seq<Slot>)
    requires |d| > 0 && d[0].t < |sets| && s == Slot(d[0].t, d[0].i + 1) && s.i < |sets[d[0].t]|
    requires forall x :: x in e <==> x in d[0 := s]
    ensures Moved(sets, d, e)
  {
    ReplacedMembers(d, s);
    forall x
      ensures x in e <==> x in d[1..] || (x == Slot(d[0].t, d[0].i + 1) && x.i < |sets[d[0].t]|)
    {
      assert x in e <==> x in d[0 := s];
    }
  }

  lemma MovedAhead(f: Format, sets: seq<seq<PackedKey>>, d: seq<Slot>, e: seq<Slot>)
    requires NodeOk(f, sets) && SlotsOk(f, sets, d) && |d| > 0 && d[0].t < |sets| && Moved(sets, d, e)
    ensures forall a :: IsKey(f, sets, a) ==> (Ahead(e, a) <==> Ahead(d, a) && a != d[0])
  {
    hide NodeOk, IsKey, Ahead, SlotsOk, Moved;
    forall a | IsKey(f, sets, a)
      ensures Ahead(e, a) <==> Ahead(d, a) && a != d[0]
    {
      AheadAfter(f, sets, d, e, a);
    }
  }

  lemma SlotInRange(f: Format, sets: seq<seq<PackedKey>>, a: Slot)
    requires NodeOk(f, sets) && IsKey(f, sets, a)
    ensures a.t < |sets| && a.i < |sets[a.t]|
  {
  }

  lemma ReplacedMembers(d: seq<Slot>, s: Slot)
    requires |d| > 0
    ensures forall x :: x in d[0 := s] <==> x == s || x in d[1..]
  {
    assert d[0 := s] == [s] + d[1..];
  }

  lemma {:induction false} AheadAfter(f: Format, sets: seq<seq<PackedKey>>, d: seq<Slot>, e: seq<Slot>, a: Slot)
    requires NodeOk(f, sets) && SlotsOk(f, sets, d) && |d| > 0 && IsKey(f, sets, a) && d[0].t < |sets|
    requires Moved(sets, d, e)
    ensures Ahead(e, a) <==> Ahead(d, a) && a != d[0]
  {
    hide NodeOk, KeyOk, Ahead;
    AheadIff(e, a);
    AheadIff(d, a);
    assert d == [d[0]] + d[1..];
    if a.t == d[0].t {
      assert forall s :: s in d[1..] ==> s.t != a.t;
      assert Slot(d[0].t, d[0].i + 1) in e <==> d[0].i + 1 < |sets[a.t]|;
    }
  }

  /** The first slot is a least key ahead. */
  lemma {:induction false} LeastFirst(o: Order, f: Format, sets: seq<seq<PackedKey>>, d: seq<Slot>, y: nat, b: Slot)
    requires NodeOk(f, sets) && SlotsOk(f, sets, d) && InOrder(o, f, sets, d, 0)
    requires IsKey(f, sets, b) && exists x :: y <= x < |d| && d[x].t == b.t && d[x].i <= b.i
    ensures !Greater(o, f, sets, d[y], b)
  {
    hide Greater, NodeOk, IsKey;
    var x :| y <= x < |d| && d[x].t == b.t && d[x].i <= b.i;
    SetInOrder(o, f, sets, d[x], b);
    if y < x { NotGreaterTransitive(o, f, sets, d[y], d[x], b); }
  }

  lemma {:induction false} AdvanceCut(o: Order, f: Format, sets: seq<seq<PackedKey>>, d: seq<Slot>, e: seq<Slot>)
    requires NodeOk(f, sets) && |d| > 0 && MergeOk(o, f, sets, d)
    requires forall a :: IsKey(f, sets, a) ==> (Ahead(e, a) <==> Ahead(d, a) && a != d[0])
    ensures CutBy(o, f, sets, e)
  {
    hide Greater, NodeOk, IsKey;
    forall a, b | IsKey(f, sets, a) && IsKey(f, sets, b) && !Ahead(e, a) && Ahead(e, b)
      ensures !Greater(o, f, sets, a, b)
    {
      if a == d[0] { LeastFirst(o, f, sets, d, 0, b); }
    }
  }

  /** What is left to merge. */
  ghost function Left(sets: seq<seq<PackedKey>>, data: seq<Slot>): set<Slot>
  {
    set t: nat, i: nat | t < |sets| && i < |sets[t]| && Ahead(data, Slot(t, i)) :: Slot(t, i)
  }

  lemma LeftShrinks(f: Format, sets: seq<seq<PackedKey>>, d: seq<Slot>, e: seq<Slot>)
    requires NodeOk(f, sets) && SlotsOk(f, sets, d) && |d| > 0
    requires forall a :: IsKey(f, sets, a) ==> (Ahead(e, a) <==> Ahead(d, a) && a != d[0])
    ensures Left(sets, e) < Left(sets, d)
  {
    hide Ahead, KeyOk;
    forall a | a in Left(sets, e)
      ensures a in Left(sets, d)
    {
      KeyOfNode(f, sets, a);
    }
    MemberAhead(d, d[0]);
    assert Slot(d[0].t, d[0].i) in Left(sets, d);
  }

  lemma FormatOfNode(f: Format, sets: seq<seq<PackedKey>>)
    requires NodeOk(f, sets)
    ensures Valid(f)
  {
  }

  /** Output i is a copy of the key at from[i]. */
  ghost predicate Copied(f: Format, sets: seq<seq<PackedKey>>, from: seq<Slot>, out: seq<PackedKey>)
    requires NodeOk(f, sets)
  {
    && |from| == |out|
    && forall i :: 0 <= i < |out| ==> IsKey(f, sets, from[i]) && out[i] == sets[from[i].t][from[i].i]
  }

  ghost predicate StrictlyIncreasing(f: Format, keys: seq<PackedKey>)
    requires Valid(f)
  {
    && KeysOk(f, keys)
    && forall i, j :: 0 <= i < j < |keys| ==> BposLt(Pos(f, keys[i]), Pos(f, keys[j]))
  }

  /** struct sort_iter. */
  class SortIter {
    const f: Format
    const sets: seq<seq<PackedKey>>
    var data: seq<Slot>

    constructor (o: Order, f: Format, sets: seq<seq<PackedKey>>)
      requires NodeOk(f, sets)
      ensures this.f == f && this.sets == sets
      ensures MergeOk(o, f, sets, data) && forall a :: IsKey(f, sets, a) ==> Ahead(data, a)
    {
      var d := Start(o, f, sets);
      this.f, this.sets, data := f, sets, d;
    }

    /** sort_iter_next on a nonempty iterator. */
    method Next(o: Order) returns (k: Slot)
      requires NodeOk(f, sets) && |data| > 0 && MergeOk(o, f, sets, data)
      modifies this
      ensures k == old(data)[0] && MergeOk(o, f, sets, data) && Left(sets, data) < old(Left(sets, data))
      ensures forall a :: IsKey(f, sets, a) ==> (Ahead(data, a) <==> old(Ahead(data, a)) && a != k)
    {
      hide NodeOk, Greater, IsKey, InOrder, CutBy, Left;
      k := data[0];
      ghost var d := data;
      data := Advance(o, f, sets, data);
      LeftShrinks(f, sets, d, data);
    }

    /** should_drop_next_key: an entry of a newer set has the same position. */
    method ShouldDrop() returns (drop: bool)
      requires NodeOk(f, sets) && SlotsOk(f, sets, data)
      ensures drop <==> |data| >= 2 && PosOf(f, sets, data[0]) == PosOf(f, sets, data[1])
    {
      hide Pos;
      if |data| < 2 { return false; }
      var cmp := CmpKeys(f, sets[data[0].t][data[0].i], sets[data[1].t][data[1].i]);
      drop := cmp == 0;
    }
  }

  // ---- what a merge keeps ----

  /** The newest entry at its position. */
  ghost predicate Newest(f: Format, sets: seq<seq<PackedKey>>, a: Slot)
    requires NodeOk(f, sets) && IsKey(f, sets, a)
  {
    forall b :: IsKey(f, sets, b) && PosOf(f, sets, b) == PosOf(f, sets, a) && b != a ==> Older(b, a)
  }

  /** The last entry at its position, live keys after deleted ones. */
  ghost predicate LastAt(f: Format, sets: seq<seq<PackedKey>>, a: Slot)
    requires NodeOk(f, sets) && IsKey(f, sets, a)
  {
    forall b :: IsKey(f, sets, b) && PosOf(f, sets, b) == PosOf(f, sets, a) && b != a ==> Less(f, sets, b, a)
  }

  /** Sets from `unwritten` on are the area of whiteouts not yet written. */
  ghost predicate Kept(o: Order, f: Format, sets: seq<seq<PackedKey>>, unwritten: nat, a: Slot)
    requires NodeOk(f, sets) && IsKey(f, sets, a)
  {
    match o
    case ByAge => Newest(f, sets, a) && !DeletedAt(f, sets, a)
    case ByLiveness => LastAt(f, sets, a) && (DeletedAt(f, sets, a) ==> unwritten <= a.t)
    case ByPosition => !DeletedAt(f, sets, a)
  }

  /** At most one entry is kept at a position. */
  lemma KeptOnce(o: Order, f: Format, sets: seq<seq<PackedKey>>, unwritten: nat, a: Slot, b: Slot)
    requires NodeOk(f, sets) && IsKey(f, sets, a) && IsKey(f, sets, b) && o != ByPosition
    requires Kept(o, f, sets, unwritten, a) && Kept(o, f, sets, unwritten, b) && PosOf(f, sets, a) == PosOf(f, sets, b)
    ensures a == b
  {
    hide PosOf, DeletedAt, NodeOk;
    LessTotal(f, sets, a, b);
  }

  /** `from` is what has been kept of the entries used up, in order. */
  ghost predicate MergedSoFar(o: Order, f: Format, sets: seq<seq<PackedKey>>, unwritten: nat, data: seq<Slot>, from: seq<Slot>)
    requires NodeOk(f, sets)
  {
    && (forall i :: 0 <= i < |from| ==> IsKey(f, sets, from[i]) && !Ahead(data, from[i]))
    && (forall i, j :: 0 <= i < j < |from| ==> from[i] != from[j] && !Greater(o, f, sets, from[i], from[j]))
    && (forall a :: IsKey(f, sets, a) && !Ahead(data, a) ==> (a in from <==> Kept(o, f, sets, unwritten, a)))
  }

  lemma {:induction false} MergeStep(o: Order, f: Format, sets: seq<seq<PackedKey>>, unwritten: nat, d: seq<Slot>, e: seq<Slot>,
                                     from: seq<Slot>, keep: bool)
    requires NodeOk(f, sets) && |d| > 0 && MergeOk(o, f, sets, d) && MergedSoFar(o, f, sets, unwritten, d, from)
    requires forall a :: IsKey(f, sets, a) ==> (Ahead(e, a) <==> Ahead(d, a) && a != d[0])
    requires keep <==> Kept(o, f, sets, unwritten, d[0])
    ensures MergedSoFar(o, f, sets, unwritten, e, if keep then from + [d[0]] else from)
  {
    hide NodeOk, IsKey, Greater, Ahead, Kept, InOrder;
    MemberAhead(d, d[0]);
    var g := if keep then from + [d[0]] else from;
    forall i, j | 0 <= i < j < |g|
      ensures g[i] != g[j] && !Greater(o, f, sets, g[i], g[j])
    {
      if j == |from| { assert !Ahead(d, g[i]) && Ahead(d, d[0]); }
    }
  }

  /** When everything is used up, what was kept is all there is to keep, in position order. */
  lemma {:induction false} MergeDone(o: Order, f: Format, sets: seq<seq<PackedKey>>, unwritten: nat, from: seq<Slot>,
                                     out: seq<PackedKey>)
    requires NodeOk(f, sets) && MergedSoFar(o, f, sets, unwritten, [], from) && Copied(f, sets, from, out)
    ensures forall a :: IsKey(f, sets, a) ==> (a in from <==> Kept(o, f, sets, unwritten, a))
    ensures KeysOk(f, out)
    ensures o != ByPosition ==> StrictlyIncreasing(f, out)
    ensures forall i, j :: 0 <= i < j < |out| ==> from[i] != from[j] && BposLe(Pos(f, out[i]), Pos(f, out[j]))
  {
    hide NodeOk, Greater, Kept, Pos, KeyOk;
    NoneAhead();
    FormatOfNode(f, sets);
    forall i, j | 0 <= i < j < |out|
      ensures from[i] != from[j] && BposLe(Pos(f, out[i]), Pos(f, out[j]))
      ensures o != ByPosition ==> BposLt(Pos(f, out[i]), Pos(f, out[j]))
    {
      assert from[i] in from && from[j] in from;
      NotGreaterPos(o, f, sets, from[i], from[j]);
      if o != ByPosition && Pos(f, out[i]) == Pos(f, out[j]) { KeptOnce(o, f, sets, unwritten, from[i], from[j]); }
    }
  }

  /** The check on the first two slots finds out whether the first is the newest. */
  lemma {:induction false} DropUnlessNewest(f: Format, sets: seq<seq<PackedKey>>, d: seq<Slot>)
    requires NodeOk(f, sets) && |d| > 0 && MergeOk(ByAge, f, sets, d) && !DeletedAt(f, sets, d[0])
    ensures Newest(f, sets, d[0]) <==> !(|d| >= 2 && PosOf(f, sets, d[0]) == PosOf(f, sets, d[1]))
  {
    hide NodeOk, IsKey, PosOf, DeletedAt, Ahead;
    var k := d[0];
    if !(|d| >= 2 && PosOf(f, sets, k) == PosOf(f, sets, d[1])) {
      forall b | IsKey(f, sets, b) && PosOf(f, sets, b) == PosOf(f, sets, k) && b != k
        ensures Older(b, k)
      {
        if !Older(b, k) { NewerAhead(f, sets, d, b); }
      }
    }
  }

  lemma {:induction false} NewerAhead(f: Format, sets: seq<seq<PackedKey>>, d: seq<Slot>, b: Slot)
    requires NodeOk(f, sets) && |d| > 0 && MergeOk(ByAge, f, sets, d) && !DeletedAt(f, sets, d[0])
    requires IsKey(f, sets, b) && PosOf(f, sets, b) == PosOf(f, sets, d[0]) && Older(d[0], b)
    ensures |d| >= 2 && PosOf(f, sets, d[0]) == PosOf(f, sets, d[1])
  {
    hide NodeOk, IsKey, PosOf, DeletedAt, Ahead;
    MemberAhead(d, d[0]);
    assert Ahead(d, b);
    AheadAt(d, b);
    var x :| 0 <= x < |d| && d[x].t == b.t && d[x].i <= b.i;
    if x == 0 {
      SortedAt(f, sets, d[0], b);
    } else {
      LeastFirst(ByAge, f, sets, d, 1, b);
      NotGreaterPos(ByAge, f, sets, d[0], d[1]);
      NotGreaterPos(ByAge, f, sets, d[1], b);
    }
  }

  lemma AheadAt(d: seq<Slot>, b: Slot)
    requires Ahead(d, b)
    ensures exists x :: 0 <= x < |d| && d[x].t == b.t && d[x].i <= b.i
  {
  }

  /** The next entry after k tells whether k is the last at its position. */
  lemma {:induction false} NextUnlessLast(f: Format, sets: seq<seq<PackedKey>>, d: seq<Slot>, e: seq<Slot>)
    requires NodeOk(f, sets) && |d| > 0 && MergeOk(ByLiveness, f, sets, d) && MergeOk(ByLiveness, f, sets, e)
    requires forall a :: IsKey(f, sets, a) ==> (Ahead(e, a) <==> Ahead(d, a) && a != d[0])
    ensures LastAt(f, sets, d[0]) <==> !(|e| > 0 && PosOf(f, sets, d[0]) == PosOf(f, sets, e[0]))
  {
    hide NodeOk, IsKey, PosOf, DeletedAt, Ahead, Less;
    var k := d[0];
    MemberAhead(d, k);
    if |e| > 0 {
      MemberAhead(e, e[0]);
      assert Ahead(d, e[0]) && !Ahead(e, k);
      LessTotal(f, sets, k, e[0]);
    }
    if !(|e| > 0 && PosOf(f, sets, k) == PosOf(f, sets, e[0])) {
      forall b | IsKey(f, sets, b) && PosOf(f, sets, b) == PosOf(f, sets, k) && b != k
        ensures Less(f, sets, b, k)
      {
        LessTotal(f, sets, b, k);
        if Ahead(e, b) {
          AheadAt(e, b);
          LeastFirst(ByLiveness, f, sets, e, 0, b);
          NotGreaterPos(ByLiveness, f, sets, e[0], b);
          NotGreaterPos(ByLiveness, f, sets, k, e[0]);
        }
      }
    }
  }

  /** bch2_key_sort_fix_overlapping. */
  method FixOverlapping(f: Format, sets: seq<seq<PackedKey>>) returns (out: seq<PackedKey>, ghost from: seq<Slot>)
    requires NodeOk(f, sets)
    ensures Copied(f, sets, from, out) && StrictlyIncreasing(f, out)
    ensures forall a :: IsKey(f, sets, a) ==> (a in from <==> Newest(f, sets, a) && !DeletedAt(f, sets, a))
    ensures NodeOk(f, [out]) && forall p :: Meaning(f, [out], p) == Meaning(f, sets, p)
  {
    hide NodeOk, Greater, Ahead, Pos, IsDeleted, Newest, Left, Meaning, MergeOk, MergedSoFar, Copied, StrictlyIncreasing;
    out, from := [], [];
    var iter := new SortIter(ByAge, f, sets);
    NothingMerged(ByAge, f, sets, 0, iter.data);
    while |iter.data| > 0
      invariant iter.f == f && iter.sets == sets && fresh(iter)
      invariant MergeOk(ByAge, f, sets, iter.data) && MergedSoFar(ByAge, f, sets, 0, iter.data, from)
      invariant Copied(f, sets, from, out)
      decreases Left(sets, iter.data)
    {
      out, from := FixStep(iter, out, from);
    }
    FormatOfNode(f, sets);
    MergeDone(ByAge, f, sets, 0, from, out);
    OutputMeaning(f, sets, from, out);
  }

  /** One round of its loop. */
  method FixStep(iter: SortIter, out: seq<PackedKey>, ghost from: seq<Slot>) returns (out2: seq<PackedKey>, ghost from2: seq<Slot>)
    requires NodeOk(iter.f, iter.sets) && |iter.data| > 0 && MergeOk(ByAge, iter.f, iter.sets, iter.data)
    requires MergedSoFar(ByAge, iter.f, iter.sets, 0, iter.data, from) && Copied(iter.f, iter.sets, from, out)
    modifies iter
    ensures MergeOk(ByAge, iter.f, iter.sets, iter.data) && MergedSoFar(ByAge, iter.f, iter.sets, 0, iter.data, from2)
    ensures Copied(iter.f, iter.sets, from2, out2) && Left(iter.sets, iter.data) < old(Left(iter.sets, iter.data))
  {
    hide NodeOk, Greater, Ahead, Pos, IsDeleted, Newest, InOrder, CutBy, Left, MergedSoFar;
    var f, sets := iter.f, iter.sets;
    FormatOfNode(f, sets);
    ghost var d := iter.data;
    var k := sets[iter.data[0].t][iter.data[0].i];
    var drop := iter.ShouldDrop();
    var keep := !IsDeleted(k) && !drop;
    if !IsDeleted(k) { DropUnlessNewest(f, sets, d); }
    var s := iter.Next(ByAge);
    MergeStep(ByAge, f, sets, 0, d, iter.data, from, keep);
    if keep { out2, from2 := out + [k], from + [d[0]]; } else { out2, from2 := out, from; }
  }

  lemma NothingMerged(o: Order, f: Format, sets: seq<seq<PackedKey>>, unwritten: nat, data: seq<Slot>)
    requires NodeOk(f, sets) && forall a :: IsKey(f, sets, a) ==> Ahead(data, a)
    ensures MergedSoFar(o, f, sets, unwritten, data, []) && Copied(f, sets, [], [])
  {
    hide NodeOk, IsKey, Ahead, Kept, Greater;
  }

  lemma OutputMeaning(f: Format, sets: seq<seq<PackedKey>>, from: seq<Slot>, out: seq<PackedKey>)
    requires NodeOk(f, sets) && Copied(f, sets, from, out)
    requires Valid(f) && StrictlyIncreasing(f, out)
    requires forall a :: IsKey(f, sets, a) ==> (a in from <==> Kept(ByAge, f, sets, 0, a))
    ensures NodeOk(f, [out]) && forall p :: Meaning(f, [out], p) == Meaning(f, sets, p)
  {
    hide NodeOk, Meaning, Copied, StrictlyIncreasing, IsKey, Newest, DeletedAt;
    MergedNode(f, out);
    forall p
      ensures Meaning(f, [out], p) == Meaning(f, sets, p)
    {
      MergeKeepsMeaning(f, sets, from, out, p);
    }
  }

  /** bch2_sort_keys_keep_unwritten_whiteouts. */
  method KeepUnwrittenWhiteouts(f: Format, sets: seq<seq<PackedKey>>, unwritten: nat)
    returns (out: seq<PackedKey>, ghost from: seq<Slot>)
    requires NodeOk(f, sets)
    ensures Copied(f, sets, from, out) && StrictlyIncreasing(f, out)
    ensures forall a :: IsKey(f, sets, a) ==>
              (a in from <==> LastAt(f, sets, a) && (DeletedAt(f, sets, a) ==> unwritten <= a.t))
  {
    hide NodeOk, Greater, Ahead, Pos, IsDeleted, LastAt, Left, MergeOk, MergedSoFar, Copied, StrictlyIncreasing;
    out, from := [], [];
    var iter := new SortIter(ByLiveness, f, sets);
    NothingMerged(ByLiveness, f, sets, unwritten, iter.data);
    while |iter.data| > 0
      invariant iter.f == f && iter.sets == sets && fresh(iter)
      invariant MergeOk(ByLiveness, f, sets, iter.data) && MergedSoFar(ByLiveness, f, sets, unwritten, iter.data, from)
      invariant Copied(f, sets, from, out)
      decreases Left(sets, iter.data)
    {
      out, from := KeepStep(iter, unwritten, out, from);
    }
    FormatOfNode(f, sets);
    MergeDone(ByLiveness, f, sets, unwritten, from, out);
  }

  /** One round of its loop. */
  method KeepStep(iter: SortIter, unwritten: nat, out: seq<PackedKey>, ghost from: seq<Slot>)
    returns (out2: seq<PackedKey>, ghost from2: seq<Slot>)
    requires NodeOk(iter.f, iter.sets) && |iter.data| > 0 && MergeOk(ByLiveness, iter.f, iter.sets, iter.data)
    requires MergedSoFar(ByLiveness, iter.f, iter.sets, unwritten, iter.data, from) && Copied(iter.f, iter.sets, from, out)
    modifies iter
    ensures MergeOk(ByLiveness, iter.f, iter.sets, iter.data) && MergedSoFar(ByLiveness, iter.f, iter.sets, unwritten, iter.data, from2)
    ensures Copied(iter.f, iter.sets, from2, out2) && Left(iter.sets, iter.data) < old(Left(iter.sets, iter.data))
  {
    hide NodeOk, Greater, Ahead, Pos, IsDeleted, LastAt, InOrder, CutBy, Left, MergedSoFar;
    var f, sets := iter.f, iter.sets;
    FormatOfNode(f, sets);
    ghost var d := iter.data;
    var k := sets[iter.data[0].t][iter.data[0].i];
    var s := iter.Next(ByLiveness);
    var keep := !(IsDeleted(k) && s.t < unwritten);
    NextUnlessLast(f, sets, d, iter.data);
    if keep && |iter.data| > 0 {
      var cmp := CmpKeys(f, k, sets[iter.data[0].t][iter.data[0].i]);
      keep := cmp != 0;
    }
    MergeStep(ByLiveness, f, sets, unwritten, d, iter.data, from, keep);
    if keep { out2, from2 := out + [k], from + [s]; } else { out2, from2 := out, from; }
  }

  /** bch2_sort_keys: all live keys, once each, in position order. */
  method SortKeys(f: Format, sets: seq<seq<PackedKey>>) returns (out: seq<PackedKey>, ghost from: seq<Slot>)
    requires NodeOk(f, sets)
    ensures Copied(f, sets, from, out) && KeysOk(f, out)
    ensures forall i, j :: 0 <= i < j < |out| ==> from[i] != from[j] && BposLe(Pos(f, out[i]), Pos(f, out[j]))
    ensures forall a :: IsKey(f, sets, a) ==> (a in from <==> !DeletedAt(f, sets, a))
  {
    hide NodeOk, Greater, Ahead, Pos, IsDeleted, InOrder, CutBy, Left;
    FormatOfNode(f, sets);
    out, from := [], [];
    var iter := new SortIter(ByPosition, f, sets);
    while |iter.data| > 0
      invariant iter.f == f && iter.sets == sets && fresh(iter)
      invariant MergeOk(ByPosition, f, sets, iter.data) && MergedSoFar(ByPosition, f, sets, 0, iter.data, from)
      invariant Copied(f, sets, from, out)
      decreases Left(sets, iter.data)
    {
      ghost var d := iter.data;
      var k := sets[iter.data[0].t][iter.data[0].i];
      var s := iter.Next(ByPosition);
      MergeStep(ByPosition, f, sets, 0, d, iter.data, from, !IsDeleted(k));
      if !IsDeleted(k) { out, from := out + [k], from + [s]; }
    }
    MergeDone(ByPosition, f, sets, 0, from, out);
  }

  // ---- what sets mean: the newest entry at a position wins, and a deleted one hides the rest ----

  /** The newest entry at p among the first n sets. */
  ghost function NewestAt(f: Format, sets: seq<seq<PackedKey>>, p: Bpos, n: nat): Found
    requires NodeOk(f, sets) && n <= |sets|
  {
    if n == 0 then None
    else
      var r := NewestIn(f, sets, p, n - 1, |sets[n - 1]|);
      if r.Some? then r else NewestAt(f, sets, p, n - 1)
  }

  ghost function NewestIn(f: Format, sets: seq<seq<PackedKey>>, p: Bpos, t: nat, n: nat): Found
    requires NodeOk(f, sets) && t < |sets| && n <= |sets[t]|
  {
    if n == 0 then None
    else if Pos(f, sets[t][n - 1]) == p then Some(Slot(t, n - 1))
    else NewestIn(f, sets, p, t, n - 1)
  }

  lemma {:induction false} NewestInFinds(f: Format, sets: seq<seq<PackedKey>>, p: Bpos, t: nat, n: nat)
    requires NodeOk(f, sets) && t < |sets| && n <= |sets[t]|
    ensures var r := NewestIn(f, sets, p, t, n);
            r.Some? ==> r.slot.t == t && r.slot.i < n && IsKey(f, sets, r.slot) && PosOf(f, sets, r.slot) == p
    ensures forall b :: IsKey(f, sets, b) && b.t == t && b.i < n && PosOf(f, sets, b) == p ==>
              NewestIn(f, sets, p, t, n).Some? && b.i <= NewestIn(f, sets, p, t, n).slot.i
  {
    hide Pos;
    if n > 0 && Pos(f, sets[t][n - 1]) != p { NewestInFinds(f, sets, p, t, n - 1); }
  }

  lemma {:induction false} NewestAtFinds(f: Format, sets: seq<seq<PackedKey>>, p: Bpos, n: nat)
    requires NodeOk(f, sets) && n <= |sets|
    ensures var r := NewestAt(f, sets, p, n);
            r.Some? ==> r.slot.t < n && IsKey(f, sets, r.slot) && PosOf(f, sets, r.slot) == p
    ensures forall b :: IsKey(f, sets, b) && b.t < n && PosOf(f, sets, b) == p ==>
              NewestAt(f, sets, p, n).Some?
              && (b == NewestAt(f, sets, p, n).slot || Older(b, NewestAt(f, sets, p, n).slot))
  {
    hide Pos, NewestIn;
    if n > 0 {
      NewestInFinds(f, sets, p, n - 1, |sets[n - 1]|);
      NewestAtFinds(f, sets, p, n - 1);
    }
  }

  datatype Entry = Absent | Present(key: PackedKey)

  /** What a reader sees at p. */
  ghost function Meaning(f: Format, sets: seq<seq<PackedKey>>, p: Bpos): Entry
    requires NodeOk(f, sets)
  {
    NewestAtFinds(f, sets, p, |sets|);
    var r := NewestAt(f, sets, p, |sets|);
    if r.Some? && !DeletedAt(f, sets, r.slot) then Present(sets[r.slot.t][r.slot.i]) else Absent
  }

  /** A reader sees the newest entry at a position, or nothing if that is deleted. */
  lemma {:induction false} MeaningIs(f: Format, sets: seq<seq<PackedKey>>, a: Slot)
    requires NodeOk(f, sets) && IsKey(f, sets, a)
    ensures Newest(f, sets, a) ==>
              Meaning(f, sets, PosOf(f, sets, a)) == if DeletedAt(f, sets, a) then Absent else Present(sets[a.t][a.i])
  {
    hide PosOf, NewestAt, DeletedAt;
    NewestAtFinds(f, sets, PosOf(f, sets, a), |sets|);
  }

  lemma {:induction false} MeaningPresent(f: Format, sets: seq<seq<PackedKey>>, p: Bpos) returns (a: Slot)
    requires NodeOk(f, sets) && Meaning(f, sets, p).Present?
    ensures IsKey(f, sets, a) && PosOf(f, sets, a) == p && Newest(f, sets, a) && !DeletedAt(f, sets, a)
    ensures Meaning(f, sets, p) == Present(sets[a.t][a.i])
  {
    hide PosOf, NewestAt, DeletedAt;
    NewestAtFinds(f, sets, p, |sets|);
    a := NewestAt(f, sets, p, |sets|).slot;
  }

  /** The output alone means what all the sets meant together. */
  lemma {:induction false} MergeKeepsMeaning(f: Format, sets: seq<seq<PackedKey>>, from: seq<Slot>, out: seq<PackedKey>, p: Bpos)
    requires NodeOk(f, sets) && Copied(f, sets, from, out) && StrictlyIncreasing(f, out)
    requires forall a :: IsKey(f, sets, a) ==> (a in from <==> Newest(f, sets, a) && !DeletedAt(f, sets, a))
    ensures NodeOk(f, [out]) && Meaning(f, [out], p) == Meaning(f, sets, p)
  {
    hide Meaning, Newest, Pos, IsDeleted;
    assert NodeOk(f, [out]);
    if Meaning(f, sets, p).Present? {
      var a := MeaningPresent(f, sets, p);
      var i :| 0 <= i < |from| && from[i] == a;
      OnlyEntry(f, out, i);
      MeaningIs(f, [out], Slot(0, i));
    } else if Meaning(f, [out], p).Present? {
      var b := MeaningPresent(f, [out], p);
      var a := from[b.i];
      assert a in from;
      MeaningIs(f, sets, a);
    }
  }

  lemma MergedNode(f: Format, out: seq<PackedKey>)
    requires Valid(f) && StrictlyIncreasing(f, out)
    ensures NodeOk(f, [out])
  {
    hide Pos;
  }

  lemma OnlyEntry(f: Format, out: seq<PackedKey>, i: nat)
    requires Valid(f) && StrictlyIncreasing(f, out) && i < |out| && NodeOk(f, [out])
    ensures IsKey(f, [out], Slot(0, i)) && Newest(f, [out], Slot(0, i))
  {
    hide Pos;
    assert KeyOk(f, out[i]);
  }

  // ---- what the write path keeps at a position ----

  /** Among the entries before set t, key i, best is the last at a's position; it is not before a. */
  ghost predicate BestBefore(f: Format, sets: seq<seq<PackedKey>>, a: Slot, best: Slot, t: nat, i: nat)
    requires NodeOk(f, sets) && IsKey(f, sets, a)
  {
    && IsKey(f, sets, best) && PosOf(f, sets, best) == PosOf(f, sets, a) && (best == a || Less(f, sets, a, best))
    && forall b :: IsKey(f, sets, b) && Older(b, Slot(t, i)) && PosOf(f, sets, b) == PosOf(f, sets, a) && b != best ==>
         Less(f, sets, b, best)
  }

  /** Some entry is the last one at its position. */
  lemma {:induction false} LastExists(f: Format, sets: seq<seq<PackedKey>>, a: Slot) returns (best: Slot)
    requires NodeOk(f, sets) && IsKey(f, sets, a)
    ensures IsKey(f, sets, best) && PosOf(f, sets, best) == PosOf(f, sets, a) && LastAt(f, sets, best)
    ensures best == a || Less(f, sets, a, best)
  {
    hide PosOf, Less;
    best := a;
    for t := 0 to |sets|
      invariant BestBefore(f, sets, a, best, t, 0)
    {
      for i := 0 to |sets[t]|
        invariant BestBefore(f, sets, a, best, t, i)
      {
        best := LaterOf(f, sets, a, best, t, i);
      }
    }
  }

  lemma {:induction false} LaterOf(f: Format, sets: seq<seq<PackedKey>>, a: Slot, best: Slot, t: nat, i: nat) returns (r: Slot)
    requires NodeOk(f, sets) && IsKey(f, sets, a) && t < |sets| && i < |sets[t]| && BestBefore(f, sets, a, best, t, i)
    ensures BestBefore(f, sets, a, r, t, i + 1)
  {
    hide PosOf, Less, NodeOk, KeyOk;
    var s := Slot(t, i);
    KeyOfNode(f, sets, s);
    r := best;
    if PosOf(f, sets, s) == PosOf(f, sets, a) && s != best {
      LessTotal(f, sets, s, best);
      if Less(f, sets, best, s) {
        r := s;
        if best != a { LessTransitive(f, sets, a, best, s); }
        forall b | IsKey(f, sets, b) && Older(b, s) && PosOf(f, sets, b) == PosOf(f, sets, a)
          ensures Less(f, sets, b, s)
        {
          if b != best { LessTransitive(f, sets, b, best, s); }
        }
      }
    }
  }

  /**
   At every position with an entry: a live entry wins over whiteouts; without one, an
   unwritten whiteout is kept if there is any; nothing else is kept.
   */
  lemma {:induction false} WhiteoutPolicy(f: Format, sets: seq<seq<PackedKey>>, unwritten: nat, a: Slot)
    requires NodeOk(f, sets) && IsKey(f, sets, a)
    ensures !DeletedAt(f, sets, a) ==>
              exists k :: IsKey(f, sets, k) && PosOf(f, sets, k) == PosOf(f, sets, a)
                          && Kept(ByLiveness, f, sets, unwritten, k) && !DeletedAt(f, sets, k)
    ensures DeletedAt(f, sets, a) && unwritten <= a.t ==>
              exists k :: IsKey(f, sets, k) && PosOf(f, sets, k) == PosOf(f, sets, a)
                          && Kept(ByLiveness, f, sets, unwritten, k)
    ensures Kept(ByLiveness, f, sets, unwritten, a) && DeletedAt(f, sets, a) ==>
              unwritten <= a.t
              && forall b :: IsKey(f, sets, b) && PosOf(f, sets, b) == PosOf(f, sets, a) ==> DeletedAt(f, sets, b)
  {
    hide PosOf, DeletedAt, NodeOk;
    var k := LastExists(f, sets, a);
  }
}
