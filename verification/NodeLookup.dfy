/**
 Looking up a position in a btree node (bch2_btree_node_iter_init in
 libbcachefs/bset.c): each set is searched through its own kind of index, and the
 iterator then stands exactly before the first key at or after the position.
 */
module NodeLookup {
  import opened Bits
  import opened Bkey
  import opened BkeyPack
  import BkeyLossy
  import opened Bset
  import RoAuxTree
  import RwAuxTree
  import opened NodeIter

  /** The index of a set: none, the read-only tree, or the table of the set being written. */
  datatype Aux = NoAux | Ro(tree: RoAuxTree.Tree) | Rw(table: RwAuxTree.WriteSet)

  ghost function AuxObject(aux: Aux): set<object>
  {
    match aux
    case NoAux => {}
    case Ro(tree) => {tree}
    case Rw(table) => {table}
  }

  ghost predicate AuxOk(f: Format, keys: seq<PackedKey>, aux: Aux, minKey: Bpos, maxKey: Bpos)
    reads AuxObject(aux)
  {
    match aux
    case NoAux => true
    case Ro(tree) =>
      tree.TreeOk() && tree.size != 0 && tree.f == f && tree.keys == keys && tree.minKey == minKey && tree.maxKey == maxKey
    case Rw(table) => table.Ok() && table.f == f && table.keys == keys
  }

  /** Key a is at or after the position searched for. */
  ghost predicate AtOrAfter(f: Format, sets: seq<seq<PackedKey>>, search: Bpos, a: Slot)
    requires NodeOk(f, sets) && IsKey(f, sets, a)
  {
    !Before(f, sets[a.t][a.i], search)
  }

  /** __bch2_bset_search, then bch2_bset_search_linear. */
  method SearchSet(f: Format, keys: seq<PackedKey>, aux: Aux, minKey: Bpos, maxKey: Bpos, search: Bpos,
                   exact: bool, packed: seq<u64>, mem: seq<u64>)
    returns (r: nat)
    requires Valid(f) && KeysOk(f, keys) && Sorted(f, keys) && AuxOk(f, keys, aux, minKey, maxKey)
    requires BposLe(minKey, search) && BposLe(search, maxKey)
    requires |packed| == f.keyU64s <= |mem| == BKEY_U64S && mem[..f.keyU64s] == packed
    requires BkeyLossy.IsFloor(f, search, DecodePos(f, Value(packed))) && BkeyLossy.OnlySize(f, Value(packed))
    requires exact ==> DecodePos(f, Value(packed)) == search
    ensures ScanStop(f, keys, search, r)
  {
    hide Pos, DecodePos, Value, Sorted, Before;
    var start := 0;
    match aux {
      case NoAux =>
      case Ro(tree) => start := tree.Search(search, packed, mem);
      case Rw(table) => start := table.SearchTable(search);
    }
    r := SearchLinear(f, keys, search, exact, packed, start);
  }

  /** A lookup separates the keys it skips from the rest in iterator order. */
  lemma SearchIsCut(f: Format, sets: seq<seq<PackedKey>>, search: Bpos, a: Slot, b: Slot)
    requires NodeOk(f, sets) && IsKey(f, sets, a) && IsKey(f, sets, b)
    requires !AtOrAfter(f, sets, search, a) && AtOrAfter(f, sets, search, b)
    ensures Less(f, sets, a, b)
  {
    hide Pos;
  }

  /** The slots found set by set: one per set that has a key at or after the position. */
  ghost predicate SlotsFound(f: Format, sets: seq<seq<PackedKey>>, search: Bpos, data: seq<Slot>, n: nat)
    requires NodeOk(f, sets)
  {
    && |data| <= n <= |sets| && SlotsOk(f, sets, data)
    && (forall x :: 0 <= x < |data| ==> data[x].t < n)
    && forall a :: IsKey(f, sets, a) && a.t < n ==> (Ahead(data, a) <==> AtOrAfter(f, sets, search, a))
  }

  lemma {:induction false} SlotPushed(f: Format, sets: seq<seq<PackedKey>>, search: Bpos, data: seq<Slot>, n: nat, r: nat)
    requires NodeOk(f, sets) && SlotsFound(f, sets, search, data, n) && n < |sets|
    requires ScanStop(f, sets[n], search, r)
    ensures SlotsFound(f, sets, search, if r < |sets[n]| then data + [Slot(n, r)] else data, n + 1)
  {
    hide Before, Pos, NodeOk, Ahead, KeyOk;
    var e := if r < |sets[n]| then data + [Slot(n, r)] else data;
    if r < |sets[n]| { KeyOfNode(f, sets, Slot(n, r)); }
    forall a | IsKey(f, sets, a) && a.t < n + 1
      ensures Ahead(e, a) <==> AtOrAfter(f, sets, search, a)
    {
      if a.t < n { PushedElsewhere(data, n, r, a); } else { PushedHere(f, sets, search, data, n, r, a); }
    }
  }

  lemma PushedElsewhere(data: seq<Slot>, n: nat, r: nat, a: Slot)
    requires a.t != n
    ensures Ahead(data + [Slot(n, r)], a) <==> Ahead(data, a)
  {
    AheadIff(data + [Slot(n, r)], a);
    AheadIff(data, a);
  }

  lemma {:induction false} PushedHere(f: Format, sets: seq<seq<PackedKey>>, search: Bpos, data: seq<Slot>, n: nat, r: nat,
                                      a: Slot)
    requires NodeOk(f, sets) && n < |sets| && ScanStop(f, sets[n], search, r)
    requires IsKey(f, sets, a) && a.t == n && forall x :: 0 <= x < |data| ==> data[x].t < n
    ensures Ahead(if r < |sets[n]| then data + [Slot(n, r)] else data, a) <==> AtOrAfter(f, sets, search, a)
  {
    hide Before, Pos;
    var e := if r < |sets[n]| then data + [Slot(n, r)] else data;
    AheadIff(e, a);
    if r <= a.i {
      assert Slot(n, r) in e;
      if Before(f, sets[n][a.i], search) { BeforeDown(f, sets[n], search, r, a.i); }
    }
  }

  /** Once sorted, the slots found make an iterator. */
  lemma {:induction false} FoundIsIter(f: Format, sets: seq<seq<PackedKey>>, search: Bpos, data: seq<Slot>, e: seq<Slot>)
    requires NodeOk(f, sets) && SlotsFound(f, sets, search, data, |sets|)
    requires SlotsOk(f, sets, e) && Ascending(f, sets, e) && forall s :: s in e <==> s in data
    ensures IterOk(f, sets, e)
    ensures forall a :: IsKey(f, sets, a) ==> (Ahead(e, a) <==> AtOrAfter(f, sets, search, a))
  {
    hide NodeOk, Less, AtOrAfter, Ascending;
    AllSets(f, sets);
    forall a | IsKey(f, sets, a)
      ensures Ahead(e, a) <==> AtOrAfter(f, sets, search, a)
    {
      AheadIff(e, a);
      AheadIff(data, a);
    }
    forall a, b | IsKey(f, sets, a) && IsKey(f, sets, b) && !Ahead(e, a) && Ahead(e, b)
      ensures Less(f, sets, a, b)
    {
      SearchIsCut(f, sets, search, a, b);
    }
  }

  /** bch2_btree_node_iter_init_from_start. */
  method InitFromStart(f: Format, sets: seq<seq<PackedKey>>) returns (iter: Iter)
    requires NodeOk(f, sets) && |sets| <= MAX_BSETS
    ensures fresh(iter) && iter.f == f && iter.sets == sets
    ensures IterOk(f, sets, iter.data) && |iter.data| <= MAX_BSETS
    ensures forall a :: IsKey(f, sets, a) ==> Ahead(iter.data, a)
  {
    hide Less, KeyOk;
    iter := new Iter(f, sets);
    var t := 0;
    while t < |sets|
      invariant 0 <= t <= |sets| && iter.f == f && iter.sets == sets && |iter.data| <= t
      invariant SlotsOk(f, sets, iter.data) && forall x :: 0 <= x < |iter.data| ==> iter.data[x].t < t && iter.data[x].i == 0
      invariant forall s :: 0 <= s < t && 0 < |sets[s]| ==> Slot(s, 0) in iter.data
    {
      if |sets[t]| != 0 {
        KeyOfNode(f, sets, Slot(t, 0));
        iter.data := iter.data + [Slot(t, 0)];
      }
      t := t + 1;
    }
    iter.Sort();
    forall a | IsKey(f, sets, a)
      ensures Ahead(iter.data, a)
    {
      AheadIff(iter.data, a);
      assert Slot(a.t, 0) in iter.data;
    }
  }

  /** What is behind the iterator in the fallback: only keys that a lookup of live keys skips. */
  ghost predicate OnlySkipped(f: Format, sets: seq<seq<PackedKey>>, search: Bpos, data: seq<Slot>)
    requires NodeOk(f, sets)
  {
    forall a :: IsKey(f, sets, a) && !Ahead(data, a) ==> DeletedAt(f, sets, a) || !AtOrAfter(f, sets, search, a)
  }

  lemma {:induction false} SkipOne(f: Format, sets: seq<seq<PackedKey>>, search: Bpos, d: seq<Slot>, e: seq<Slot>)
    requires NodeOk(f, sets) && IterOk(f, sets, d) && AdvancedTo(f, sets, d, e) && OnlySkipped(f, sets, search, d)
    requires DeletedAt(f, sets, d[0]) || !AtOrAfter(f, sets, search, d[0])
    ensures OnlySkipped(f, sets, search, e) && IterOk(f, sets, e)
  {
    hide NodeOk, Less, IsKey, Ahead, AdvancedTo, AtOrAfter, DeletedAt;
    AdvanceKeepsCut(f, sets, d, e);
    forall a | IsKey(f, sets, a) && !Ahead(e, a)
      ensures DeletedAt(f, sets, a) || !AtOrAfter(f, sets, search, a)
    {
      AdvanceRemovesFirst(f, sets, d, e, a);
    }
  }

  /** bch2_btree_node_iter_peek: past deleted keys. */
  method PeekLive(iter: Iter, ghost search: Bpos)
    requires NodeOk(iter.f, iter.sets) && IterOk(iter.f, iter.sets, iter.data) && |iter.data| <= MAX_BSETS
    requires OnlySkipped(iter.f, iter.sets, search, iter.data)
    modifies iter
    ensures IterOk(iter.f, iter.sets, iter.data) && |iter.data| <= MAX_BSETS
    ensures OnlySkipped(iter.f, iter.sets, search, iter.data)
    ensures |iter.data| > 0 ==> !DeletedAt(iter.f, iter.sets, iter.data[0])
    ensures RemainingKeys(iter.sets, iter.data) <= RemainingKeys(iter.sets, old(iter.data))
  {
    hide Less, Ahead, AdvancedTo, AtOrAfter, Without, Cut, Ascending, OnlySkipped;
    while |iter.data| > 0 && IsDeleted(iter.sets[iter.data[0].t][iter.data[0].i])
      invariant IterOk(iter.f, iter.sets, iter.data) && |iter.data| <= MAX_BSETS
      invariant OnlySkipped(iter.f, iter.sets, search, iter.data)
      invariant RemainingKeys(iter.sets, iter.data) <= RemainingKeys(iter.sets, old(iter.data))
      decreases RemainingKeys(iter.sets, iter.data)
    {
      ghost var d := iter.data;
      iter.Advance();
      SkipOne(iter.f, iter.sets, search, d, iter.data);
      RemainingDrops(iter.f, iter.sets, d, iter.data);
    }
  }

  /** At or after the position carries over to everything that follows in iterator order. */
  lemma LiveFollows(f: Format, sets: seq<seq<PackedKey>>, search: Bpos, y: Slot, a: Slot)
    requires NodeOk(f, sets) && IsKey(f, sets, y) && IsKey(f, sets, a)
    requires AtOrAfter(f, sets, search, y) && !DeletedAt(f, sets, y) && Less(f, sets, y, a)
    ensures AtOrAfter(f, sets, search, a)
  {
    hide Pos;
  }

  /** Some live key at or after the position is a or comes before it. */
  ghost predicate LiveUpTo(f: Format, sets: seq<seq<PackedKey>>, search: Bpos, a: Slot)
    requires NodeOk(f, sets) && IsKey(f, sets, a)
  {
    exists y :: IsKey(f, sets, y) && AtOrAfter(f, sets, search, y) && !DeletedAt(f, sets, y)
                && (y == a || Less(f, sets, y, a))
  }

  /**
   btree_node_iter_init_pack_failed: when the position is below everything the
   format can represent, walk from the start. The walk peeks past deleted keys, so
   it also skips those between the position and the first live key.
   */
  method InitPackFailed(f: Format, sets: seq<seq<PackedKey>>, search: Bpos) returns (iter: Iter)
    requires NodeOk(f, sets) && |sets| <= MAX_BSETS
    ensures fresh(iter) && iter.f == f && iter.sets == sets
    ensures IterOk(f, sets, iter.data) && |iter.data| <= MAX_BSETS
    ensures forall a :: IsKey(f, sets, a) ==>
              (Ahead(iter.data, a) <==> AtOrAfter(f, sets, search, a) && LiveUpTo(f, sets, search, a))
  {
    hide Less, Ahead, AdvancedTo, Without, Cut, Ascending, OnlySkipped, Pos;
    iter := InitFromStart(f, sets);
    StartSkipsNothing(f, sets, search, iter.data);
    while true
      invariant iter.f == f && iter.sets == sets
      invariant IterOk(f, sets, iter.data) && |iter.data| <= MAX_BSETS && OnlySkipped(f, sets, search, iter.data)
      decreases RemainingKeys(sets, iter.data)
    {
      PeekLive(iter, search);
      if |iter.data| == 0 { break; }
      var k := sets[iter.data[0].t][iter.data[0].i];
      var cmp := CmpLeftPacked(f, k, search);
      if cmp >= 0 { break; }
      ghost var d := iter.data;
      iter.Advance();
      SkipOne(f, sets, search, d, iter.data);
      RemainingDrops(f, sets, d, iter.data);
    }
    FallbackExact(f, sets, search, iter.data);
  }

  lemma StartSkipsNothing(f: Format, sets: seq<seq<PackedKey>>, search: Bpos, data: seq<Slot>)
    requires NodeOk(f, sets) && forall a :: IsKey(f, sets, a) ==> Ahead(data, a)
    ensures OnlySkipped(f, sets, search, data)
  {
    hide NodeOk, IsKey, Ahead;
  }

  lemma {:induction false} FallbackExact(f: Format, sets: seq<seq<PackedKey>>, search: Bpos, data: seq<Slot>)
    requires NodeOk(f, sets) && IterOk(f, sets, data) && OnlySkipped(f, sets, search, data)
    requires |data| > 0 ==> !DeletedAt(f, sets, data[0]) && AtOrAfter(f, sets, search, data[0])
    ensures forall a :: IsKey(f, sets, a) ==>
              (Ahead(data, a) <==> AtOrAfter(f, sets, search, a) && LiveUpTo(f, sets, search, a))
  {
    hide NodeOk, IsKey, Less, Ahead, AtOrAfter, DeletedAt, Ascending;
    forall a | IsKey(f, sets, a)
      ensures Ahead(data, a) <==> AtOrAfter(f, sets, search, a) && LiveUpTo(f, sets, search, a)
    {
      if Ahead(data, a) {
        AheadNonempty(data, a);
        FirstIsLeast(f, sets, data, a);
        if a != data[0] { LiveFollows(f, sets, search, data[0], a); }
      } else if LiveUpTo(f, sets, search, a) {
        var y :| IsKey(f, sets, y) && AtOrAfter(f, sets, search, y) && !DeletedAt(f, sets, y)
                 && (y == a || Less(f, sets, y, a));
        LessTotal(f, sets, a, y);
      }
    }
  }

  lemma AheadNonempty(data: seq<Slot>, a: Slot)
    ensures Ahead(data, a) ==> |data| > 0
  {
  }

  /**
   bch2_btree_node_iter_init. Ahead of the iterator are exactly the keys at or after
   the position. Only if nothing representable is at or below the position are the
   deleted keys in front of the first live one left out.
   */
  method InitAt(f: Format, sets: seq<seq<PackedKey>>, aux: seq<Aux>, minKey: Bpos, maxKey: Bpos, search: Bpos)
    returns (iter: Iter)
    requires NodeOk(f, sets) && |aux| == |sets| <= MAX_BSETS
    requires forall t :: 0 <= t < |sets| ==> AuxOk(f, sets[t], aux[t], minKey, maxKey)
    requires BposLe(minKey, search) && BposLe(search, maxKey)
    ensures fresh(iter) && iter.f == f && iter.sets == sets
    ensures IterOk(f, sets, iter.data) && |iter.data| <= MAX_BSETS
    ensures forall a :: IsKey(f, sets, a) ==>
              (Ahead(iter.data, a) <==>
               && AtOrAfter(f, sets, search, a)
               && (BkeyLossy.NoneBelow(f, search) ==> LiveUpTo(f, sets, search, a)))
  {
    hide Less, Ahead, Before, Sorted, DecodePos, Value, IsKey, AtOrAfter, LiveUpTo, NodeOk, KeysOk, SlotsFound, Ascending,
      Cut, Valid, BkeyLossy.IsFloor, BkeyLossy.OnlySize, BkeyLossy.NoneBelow, BkeyLossy.Representable;
    SizeFits(f, sets);
    var p := new u64[BKEY_U64S];
    var ret := BkeyLossy.PackPosLossy(p, search, f);
    if ret == BkeyLossy.FAIL {
      iter := InitPackFailed(f, sets, search);
      return;
    }
    var mem := p[..];
    var packed := mem[..f.keyU64s];
    assert packed == p[..f.keyU64s];
    FloorOfRepresentable(f, search, DecodePos(f, Value(packed)));
    var data := SearchSets(f, sets, aux, minKey, maxKey, search, ret == BkeyLossy.EXACT, packed, mem);
    FoundFits(f, sets, search, data);
    iter := new Iter(f, sets);
    iter.data := data;
    iter.Sort();
    FoundIsIter(f, sets, search, data, iter.data);
  }

  /** The loop over the sets of the node: one slot for each set with something left. */
  method SearchSets(f: Format, sets: seq<seq<PackedKey>>, aux: seq<Aux>, minKey: Bpos, maxKey: Bpos, search: Bpos,
                    exact: bool, packed: seq<u64>, mem: seq<u64>)
    returns (data: seq<Slot>)
    requires NodeOk(f, sets) && |aux| == |sets|
    requires forall t :: 0 <= t < |sets| ==> AuxOk(f, sets[t], aux[t], minKey, maxKey)
    requires BposLe(minKey, search) && BposLe(search, maxKey)
    requires |packed| == f.keyU64s <= |mem| == BKEY_U64S && mem[..f.keyU64s] == packed
    requires BkeyLossy.IsFloor(f, search, DecodePos(f, Value(packed))) && BkeyLossy.OnlySize(f, Value(packed))
    requires exact ==> DecodePos(f, Value(packed)) == search
    ensures SlotsFound(f, sets, search, data, |sets|)
  {
    hide Less, Ahead, Before, Sorted, DecodePos, Value, IsKey, AtOrAfter, NodeOk, KeysOk, SlotsFound, Ascending,
      Valid, BkeyLossy.IsFloor, BkeyLossy.OnlySize;
    data := [];
    NothingFound(f, sets, search);
    for t := 0 to |sets|
      invariant SlotsFound(f, sets, search, data, t)
    {
      SetOfNode(f, sets, t);
      var r := SearchSet(f, sets[t], aux[t], minKey, maxKey, search, exact, packed, mem);
      SlotPushed(f, sets, search, data, t, r);
      if r < |sets[t]| { data := data + [Slot(t, r)]; }
    }
  }

  lemma SetOfNode(f: Format, sets: seq<seq<PackedKey>>, t: nat)
    requires NodeOk(f, sets) && t < |sets|
    ensures Valid(f) && KeysOk(f, sets[t]) && Sorted(f, sets[t])
  {
  }

  lemma FoundFits(f: Format, sets: seq<seq<PackedKey>>, search: Bpos, data: seq<Slot>)
    requires NodeOk(f, sets) && SlotsFound(f, sets, search, data, |sets|)
    ensures |data| <= |sets| && SlotsOk(f, sets, data)
  {
  }

  lemma SizeFits(f: Format, sets: seq<seq<PackedKey>>)
    requires NodeOk(f, sets)
    ensures Valid(f) && f.keyU64s <= BKEY_U64S
  {
    LowBitsRange(f);
  }

  lemma FloorOfRepresentable(f: Format, search: Bpos, p: Bpos)
    requires Valid(f) && BkeyLossy.IsFloor(f, search, p)
    ensures BkeyLossy.Representable(f, search) ==> p == search
  {
    hide Valid, BkeyLossy.Representable;
  }

  lemma NothingFound(f: Format, sets: seq<seq<PackedKey>>, search: Bpos)
    requires NodeOk(f, sets)
    ensures SlotsFound(f, sets, search, [], 0)
  {
  }

  // ---- when the fallback finds everything ----

  /** The least key at or after the position, if there is one, is live. */
  ghost predicate FirstLive(f: Format, sets: seq<seq<PackedKey>>, search: Bpos)
    requires NodeOk(f, sets)
  {
    forall a :: IsKey(f, sets, a) && IsLeast(f, sets, search, a) ==> !DeletedAt(f, sets, a)
  }

  ghost predicate IsLeast(f: Format, sets: seq<seq<PackedKey>>, search: Bpos, a: Slot)
    requires NodeOk(f, sets) && IsKey(f, sets, a)
  {
    && AtOrAfter(f, sets, search, a)
    && forall b :: IsKey(f, sets, b) && AtOrAfter(f, sets, search, b) && b != a ==> Less(f, sets, a, b)
  }

  /** best is the least key at or after the position among a and the keys before set t, key i. */
  ghost predicate LeastBefore(f: Format, sets: seq<seq<PackedKey>>, search: Bpos, a: Slot, best: Slot, t: nat, i: nat)
    requires NodeOk(f, sets) && IsKey(f, sets, a)
  {
    && IsKey(f, sets, best) && AtOrAfter(f, sets, search, best) && (best == a || Less(f, sets, best, a))
    && forall b :: IsKey(f, sets, b) && (b.t < t || (b.t == t && b.i < i)) && AtOrAfter(f, sets, search, b) && b != best ==>
         Less(f, sets, best, b)
  }

  lemma {:induction false} LeastExists(f: Format, sets: seq<seq<PackedKey>>, search: Bpos, a: Slot) returns (best: Slot)
    requires NodeOk(f, sets) && IsKey(f, sets, a) && AtOrAfter(f, sets, search, a)
    ensures IsKey(f, sets, best) && IsLeast(f, sets, search, best) && (best == a || Less(f, sets, best, a))
  {
    hide Less, AtOrAfter;
    best := a;
    for t := 0 to |sets|
      invariant LeastBefore(f, sets, search, a, best, t, 0)
    {
      for i := 0 to |sets[t]|
        invariant LeastBefore(f, sets, search, a, best, t, i)
      {
        best := EarlierOf(f, sets, search, a, best, t, i);
      }
    }
  }

  lemma {:induction false} EarlierOf(f: Format, sets: seq<seq<PackedKey>>, search: Bpos, a: Slot, best: Slot, t: nat, i: nat)
    returns (r: Slot)
    requires NodeOk(f, sets) && IsKey(f, sets, a) && t < |sets| && i < |sets[t]| && LeastBefore(f, sets, search, a, best, t, i)
    ensures LeastBefore(f, sets, search, a, r, t, i + 1)
  {
    hide Less, AtOrAfter, NodeOk, KeyOk;
    var s := Slot(t, i);
    KeyOfNode(f, sets, s);
    r := best;
    if AtOrAfter(f, sets, search, s) && s != best {
      LessTotal(f, sets, s, best);
      if Less(f, sets, s, best) {
        r := s;
        if best != a { LessTransitive(f, sets, s, best, a); }
        forall b | IsKey(f, sets, b) && (b.t < t || (b.t == t && b.i < i)) && AtOrAfter(f, sets, search, b)
          ensures Less(f, sets, s, b)
        {
          if b != best { LessTransitive(f, sets, s, best, b); }
        }
      }
    }
  }

  /** The fallback leaves out nothing at or after the position exactly when the first such key is live. */
  lemma {:induction false} FallbackComplete(f: Format, sets: seq<seq<PackedKey>>, search: Bpos)
    requires NodeOk(f, sets)
    ensures FirstLive(f, sets, search)
            <==> forall a :: IsKey(f, sets, a) && AtOrAfter(f, sets, search, a) ==> LiveUpTo(f, sets, search, a)
  {
    hide Less, AtOrAfter, NodeOk, IsKey, DeletedAt;
    if FirstLive(f, sets, search) {
      forall a | IsKey(f, sets, a) && AtOrAfter(f, sets, search, a)
        ensures LiveUpTo(f, sets, search, a)
      {
        var y := LeastExists(f, sets, search, a);
      }
    } else {
      var a :| IsKey(f, sets, a) && IsLeast(f, sets, search, a) && DeletedAt(f, sets, a);
      if LiveUpTo(f, sets, search, a) {
        var y :| IsKey(f, sets, y) && AtOrAfter(f, sets, search, y) && !DeletedAt(f, sets, y) && (y == a || Less(f, sets, y, a));
        LessTotal(f, sets, y, a);
        assert false;
      }
    }
  }

  /** It can leave one out: a node whose only key is deleted, and a position below the format's offsets. */
  lemma {:induction false} FallbackSkipsDeleted()
    ensures exists f: Format, sets: seq<seq<PackedKey>>, search: Bpos, a: Slot ::
              && NodeOk(f, sets) && IsKey(f, sets, a) && BkeyLossy.NoneBelow(f, search)
              && AtOrAfter(f, sets, search, a) && !LiveUpTo(f, sets, search, a)
  {
    var f, k, search := Format(1, NR_FIELDS, [0, 0, 0, 0, 0, 0], [1, 0, 0, 0, 0, 0]), PackedKey([1]), Bpos(0, 0, 0);
    var sets, a := [[k]], Slot(0, 0);
    ZeroFormat(f);
    BkeyLossy.InodeTooSmall(f, search);
    ZeroPos(f, k);
    hide *;
    OnlyDeleted(f, k, search);
    assert IsKey(f, sets, a);
  }

  lemma OnlyDeleted(f: Format, k: PackedKey, search: Bpos)
    requires Valid(f) && KeyOk(f, k) && IsDeleted(k) && BposLt(search, Pos(f, k))
    ensures NodeOk(f, [[k]]) && IsKey(f, [[k]], Slot(0, 0))
    ensures AtOrAfter(f, [[k]], search, Slot(0, 0)) && !LiveUpTo(f, [[k]], search, Slot(0, 0))
  {
    hide Pos, Valid, IsDeleted;
  }

  lemma ZeroFormat(f: Format)
    requires f == Format(1, NR_FIELDS, [0, 0, 0, 0, 0, 0], [1, 0, 0, 0, 0, 0])
    ensures Valid(f)
  {
    Pow2Values();
    TotalSix(f.bits);
    assert forall i :: 0 <= i < NR_FIELDS ==> FieldValid(f, i);
  }

  lemma ZeroPos(f: Format, k: PackedKey)
    requires f == Format(1, NR_FIELDS, [0, 0, 0, 0, 0, 0], [1, 0, 0, 0, 0, 0]) && k == PackedKey([1]) && Valid(f)
    ensures KeyOk(f, k) && IsDeleted(k) && Pos(f, k) == Bpos(1, 0, 0)
  {
    var v := Value(KeyWords(f, k));
    LowBitsRange(f);
    ShiftByZero(Shr(v, 64 * f.keyU64s - Total(f.bits, 1)));
    ShiftByZero(Shr(v, 64 * f.keyU64s - Total(f.bits, 2)));
    ShiftByZero(Shr(v, 64 * f.keyU64s - Total(f.bits, 3)));
    hide Low, Shr, Value;
  }
}
