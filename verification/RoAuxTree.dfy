/**
 The read-only auxiliary search tree of a written set (__build_ro_aux_tree and
 bset_search_tree in libbcachefs/bset.c). Descending the tree lands on a key that
 a scan from the first key would reach.
 */
module RoAuxTree {
  import opened Bits
  import opened Bkey
  import opened BkeyPack
  import opened BkeyCmp
  import BkeyLossy
  import opened Bset
  import opened Bfloat
  import opened Eytzinger

  /** BSET_CACHELINE, in 64-bit words. */
  const CACHELINE_U64S: nat := 32

  // ---- which key a tree node stands for ----

  /** bkey_to_cacheline; pad is the distance of the first key from its cache line. */
  function Cacheline(keys: seq<PackedKey>, pad: nat, i: nat): nat
    requires i <= |keys|
  {
    (pad + Off(keys, i)) / CACHELINE_U64S
  }

  /** Key i is the first that starts in cacheline c or later. */
  ghost predicate FirstFrom(keys: seq<PackedKey>, pad: nat, c: nat, i: nat)
  {
    && i <= |keys| && Cacheline(keys, pad, i) >= c
    && (i > 0 ==> Cacheline(keys, pad, i - 1) < c)
  }

  lemma {:induction false} FirstFromMonotone(keys: seq<PackedKey>, pad: nat, c: nat, i: nat, d: nat, j: nat)
    requires forall k :: 0 <= k < |keys| ==> |keys[k].words| > 0
    requires c <= d && FirstFrom(keys, pad, c, i) && FirstFrom(keys, pad, d, j)
    ensures i <= j
  {
    if j < i { OffStrict(keys, j, i - 1); }
  }

  lemma {:induction false} CachelineOrder(f: Format, keys: seq<PackedKey>, pad: nat, i: nat, j: nat)
    requires KeysOk(f, keys) && i <= j <= |keys|
    ensures Cacheline(keys, pad, i) <= Cacheline(keys, pad, j)
  {
    assert forall k :: 0 <= k < |keys| ==> KeyOk(f, keys[k]);
    if i < j { OffStrict(keys, i, j); }
  }

  /** The size __build_ro_aux_tree starts with. */
  function FirstSize(keys: seq<PackedKey>, pad: nat, capacity: nat): nat
  {
    Min(Cacheline(keys, pad, |keys|), capacity)
  }

  /** The last key starts late enough for every node of a tree of the first size. */
  predicate FirstSizeFits(keys: seq<PackedKey>, pad: nat, capacity: nat)
  {
    && FirstSize(keys, pad, capacity) >= 2 && |keys| > 0
    && Cacheline(keys, pad, |keys| - 1) >= FirstSize(keys, pad, capacity) - 1
  }

  /**
   A set that gets no tree although one with a single node would have had its key: the
   keys start in cachelines 0 and 1, and the last one ends in cacheline 3.
   */
  lemma {:induction false} LongLastKey(f: Format, keys: seq<PackedKey>, capacity: nat)
    requires f == Format(1, NR_FIELDS, [0, 0, 0, 0, 0, 0], [0, 0, 0, 0, 0, 0]) && capacity >= 3
    requires keys == [PackedKey([40] + seq(39, _ => 0)), PackedKey([0x1_0000 + 80] + seq(79, _ => 0))]
    ensures Valid(f) && KeysOk(f, keys) && Sorted(f, keys)
    ensures !FirstSizeFits(keys, 0, capacity) && FirstFrom(keys, 0, 1, 1)
  {
    Pow2Values();
    TotalSix(f.bits);
    assert forall i :: 0 <= i < NR_FIELDS ==> FieldValid(f, i);
    assert Off(keys, 1) == 40 && Off(keys, 2) == 120;
    assert KeyOk(f, keys[0]) && KeyOk(f, keys[1]);
    AllAtZero(f, keys[0]);
    AllAtZero(f, keys[1]);
    hide Pos, Valid;
  }

  lemma {:induction false} AllAtZero(f: Format, k: PackedKey)
    requires f == Format(1, NR_FIELDS, [0, 0, 0, 0, 0, 0], [0, 0, 0, 0, 0, 0]) && Valid(f) && KeyOk(f, k) && IsPacked(k)
    ensures Pos(f, k) == Bpos(0, 0, 0)
  {
    var v := Value(KeyWords(f, k));
    LowBitsRange(f);
    ShiftByZero(Shr(v, 64 * f.keyU64s - Total(f.bits, 1)));
    ShiftByZero(Shr(v, 64 * f.keyU64s - Total(f.bits, 2)));
    ShiftByZero(Shr(v, 64 * f.keyU64s - Total(f.bits, 3)));
    hide Low, Shr, Value;
  }

  /** The first key of a cacheline starts less than 256 words into it. */
  lemma {:induction false} KeyOffsetFits(f: Format, keys: seq<PackedKey>, pad: nat, c: nat, i: nat)
    requires KeysOk(f, keys) && c > 0 && pad < CACHELINE_U64S && FirstFrom(keys, pad, c, i)
    ensures i > 0 && 0 <= pad + Off(keys, i) - CACHELINE_U64S * c < 256
  {
    if i > 0 { assert KeyOk(f, keys[i - 1]); }
  }

  ghost function BoundOf(f: Format, k: PackedKey): Bound
    requires KeyOk(f, k)
  {
    if IsPacked(k) then Packed(KeyWords(f, k)) else Unpacked
  }

  /** The node, if any, that bounds node j's subtree on the left or right. */
  function LeftOf(j: nat): nat
    requires j > 0
  {
    Shr(j, Ffs(j) + 1)
  }

  function RightOf(j: nat): nat
  {
    Shr(j, Ffz(j) + 1)
  }

  lemma {:induction false} BoundsOfChildren(n: nat)
    requires n > 0
    ensures LeftOf(2 * n) == LeftOf(n) && (IsPowerOf2(2 * n) <==> IsPowerOf2(n))
    ensures RightOf(2 * n) == n && !IsPowerOf2(2 * n + 1)
    ensures LeftOf(2 * n + 1) == n
    ensures RightOf(2 * n + 1) == RightOf(n) && (IsPowerOf2(2 * n + 2) <==> IsPowerOf2(n + 1))
  {
    assert (2 * n + 2) / 2 == n + 1;
    assert Shr(2 * n, 1) == n && Shr(2 * n + 1, 1) == n;
  }

  // ---- positions and position bits ----

  /** For packed keys, position order is the order of the position bits. */
  lemma {:induction false} TopOrder(f: Format, a: seq<u64>, b: seq<u64>)
    requires Valid(f) && |a| == |b| == f.keyU64s
    ensures BposLt(DecodePos(f, Value(a)), DecodePos(f, Value(b))) <==> Top(f, Value(a)) < Top(f, Value(b))
    ensures BposLe(DecodePos(f, Value(a)), DecodePos(f, Value(b))) <==> Top(f, Value(a)) <= Top(f, Value(b))
  {
    hide DecodePos, Value, Top, Pow2, Valid;
    ValueBound(a);
    ValueBound(b);
    OrderEmbedding(f, Value(a), Value(b));
  }

  /** Everything a packed key decodes to is representable. */
  lemma {:induction false} DecodedRepresentable(f: Format, v: nat)
    requires Valid(f)
    ensures BkeyLossy.Representable(f, DecodePos(f, v))
  {
    hide Pow2, DecodeField, FieldValid;
    DecodedFits(f, v);
    var k := Decode(f, v);
    forall i | 0 <= i < 3
      ensures FieldFits(f, PosFields(DecodePos(f, v)), i)
    {
      assert FieldFits(f, Fields(k), i);
    }
  }

  // ---- memory ----

  /** The words from key i to the end of the set, and what lies behind it. */
  function MemFrom(keys: seq<PackedKey>, i: nat, after: seq<u64>): seq<u64>
    requires i <= |keys|
    decreases |keys| - i
  {
    if i == |keys| then after else keys[i].words + MemFrom(keys, i + 1, after)
  }

  lemma {:induction false} MemOfKey(f: Format, keys: seq<PackedKey>, i: nat, after: seq<u64>)
    requires KeysOk(f, keys) && i < |keys| && |after| > 0 && IsPacked(keys[i])
    ensures f.keyU64s < |MemFrom(keys, i, after)|
    ensures MemFrom(keys, i, after)[..f.keyU64s] == KeyWords(f, keys[i])
  {
    assert KeyOk(f, keys[i]);
    MemNonempty(f, keys, i + 1, after);
  }

  lemma {:induction false} MemNonempty(f: Format, keys: seq<PackedKey>, i: nat, after: seq<u64>)
    requires i <= |keys| && |after| > 0
    ensures |MemFrom(keys, i, after)| > 0
    decreases |keys| - i
  {
    if i < |keys| { MemNonempty(f, keys, i + 1, after); }
  }

  /** bkey_pack_pos into a bound: packed exactly, or kept unpacked. */
  method PackBound(f: Format, pos: Bpos) returns (b: Bound)
    requires Valid(f)
    ensures BoundOk(f, b)
    ensures b.Packed? <==> BkeyLossy.Representable(f, pos)
    ensures b.Packed? ==> DecodePos(f, Value(b.words)) == pos
  {
    hide DecodePos, Value, Pow2, FieldValid;
    LowBitsRange(f);
    var out := new u64[BKEY_U64S];
    var ret := BkeyLossy.PackPosLossy(out, pos, f);
    if ret != BkeyLossy.EXACT { return Unpacked; }
    b := Packed(out[..f.keyU64s]);
  }

  // ---- the tree ----

  class Tree {
    const f: Format
    const keys: seq<PackedKey>
    const pad: nat
    const after: seq<u64>
    const minKey: Bpos
    const maxKey: Bpos
    var size: nat
    var floats: seq<BkeyFloat>
    ghost var at: seq<nat>
    ghost var minBound: Bound
    ghost var maxBound: Bound

    /** The set the tree indexes: sorted keys inside the node's range. */
    ghost predicate SetOk()
    {
      && Valid(f)
      && KeysOk(f, keys) && Sorted(f, keys)
      && (forall i :: 0 <= i < |keys| ==> BposLe(minKey, Pos(f, keys[i])) && BposLe(Pos(f, keys[i]), maxKey))
      && pad < 8 && |after| > 0
    }

    /** tree_to_bkey(j) is key at[j], the first key of node j's cacheline. */
    ghost predicate Placed(j: nat)
      requires 0 < j < size <= |floats| && size <= |at|
      reads this`size, this`floats, this`at
    {
      && at[j] < |keys|
      && FirstFrom(keys, pad, ToInorder(j, size - 1), at[j])
      && pad + Off(keys, at[j]) == CACHELINE_U64S * ToInorder(j, size - 1) + floats[j].keyOffset
    }

    ghost predicate PlacedAll()
      reads this`size, this`floats, this`at
    {
      && 2 <= size <= |floats| && size <= |at|
      && forall j :: 0 < j < size ==> Placed(j)
    }

    ghost function LeftBound(j: nat): Bound
      requires SetOk() && PlacedAll() && 0 < j < size
      reads this
    {
      if IsPowerOf2(j) then minBound
      else
        LeftAncestor(j, size - 1);
        assert Placed(LeftOf(j));
        BoundOf(f, keys[at[LeftOf(j)]])
    }

    ghost function RightBound(j: nat): Bound
      requires SetOk() && PlacedAll() && 0 < j < size
      reads this
    {
      if IsPowerOf2(j + 1) then maxBound
      else
        RightAncestor(j, size - 1);
        assert Placed(RightOf(j));
        BoundOf(f, keys[at[RightOf(j)]])
    }

    ghost function KeyBound(j: nat): Bound
      requires SetOk() && PlacedAll() && 0 < j < size
      reads this
    {
      assert Placed(j);
      BoundOf(f, keys[at[j]])
    }

    ghost predicate NodeOk(j: nat)
      requires SetOk() && PlacedAll() && 0 < j < size
      reads this
    {
      FloatOk(f, LeftBound(j), KeyBound(j), RightBound(j), floats[j].exponent, floats[j].mantissa)
    }

    /** The exponent of node j fits its byte. */
    ghost predicate Fits(j: nat)
      requires SetOk() && PlacedAll() && 0 < j < size
      reads this
    {
      NodeFits(f, LeftBound(j), KeyBound(j), RightBound(j))
    }

    /** Node j decides exactly if its exponent fits, and otherwise turns left. */
    ghost predicate Settled(j: nat)
      requires SetOk() && PlacedAll() && 0 < j < size
      reads this
    {
      (NodeOk(j) <==> Fits(j)) && (!Fits(j) ==> LowNode(j))
    }

    ghost predicate BoundsOk()
      requires Valid(f)
      reads this
    {
      && BoundOk(f, minBound) && BoundOk(f, maxBound)
      && (minBound.Packed? ==> DecodePos(f, Value(minBound.words)) == minKey)
      && (maxBound.Packed? ==> DecodePos(f, Value(maxBound.words)) == maxKey)
    }

    /** Node j sends every search to the left. */
    ghost predicate LowNode(j: nat)
      requires SetOk() && PlacedAll() && 0 < j < size
      reads this
    {
      LowFloat(f, KeyBound(j), floats[j].exponent, floats[j].mantissa)
    }

    /** Either no tree, or one whose every node is placed and decides correctly or turns left. */
    ghost predicate TreeOk()
      reads this
    {
      && SetOk()
      && (size != 0 ==> PlacedAll() && BoundsOk() && forall j :: 0 < j < size ==> NodeOk(j) || LowNode(j))
    }

    constructor (f: Format, keys: seq<PackedKey>, pad: nat, after: seq<u64>, minKey: Bpos, maxKey: Bpos,
                 room: seq<BkeyFloat>)
      requires Valid(f) && KeysOk(f, keys) && Sorted(f, keys)
      requires forall i :: 0 <= i < |keys| ==> BposLe(minKey, Pos(f, keys[i])) && BposLe(Pos(f, keys[i]), maxKey)
      requires pad < 8 && |after| > 0
      ensures this.f == f && this.keys == keys && this.minKey == minKey && this.maxKey == maxKey
      ensures floats == room && size == 0 && TreeOk()
    {
      this.f, this.keys, this.pad, this.after := f, keys, pad, after;
      this.minKey, this.maxKey := minKey, maxKey;
      floats, size, at := room, 0, seq(|room|, _ => 0);
      minBound, maxBound := Unpacked, Unpacked;
    }

    /**
     The first half of __build_ro_aux_tree: finds the first key of every cacheline,
     in tree order. When the keys run out it retries with a smaller tree, but without
     going back to the first key, so it then gives up: there is a tree exactly when the
     size first tried works out.
     */
    method PlaceKeys(capacity: nat)
      requires SetOk() && capacity <= |floats|
      modifies this
      ensures |floats| == old(|floats|)
      ensures size == 0 || PlacedAll()
      ensures size != 0 <==> FirstSizeFits(keys, pad, capacity)
      ensures size != 0 ==> size == FirstSize(keys, pad, capacity)
    {
      hide Pos, ToInorder, Next, First, Sorted;
      at := seq(|floats|, _ => 0);
      var k: nat, cacheline: nat := 0, 1;
      size := FirstSize(keys, pad, capacity);
      while size >= 2
        invariant size <= |floats| == |at| && |floats| == old(|floats|)
        invariant if size == FirstSize(keys, pad, capacity) then k == 0 && cacheline == 1
                  else k == |keys| > 0 && !FirstSizeFits(keys, pad, capacity)
        invariant size >= 1 ==> size <= Cacheline(keys, pad, |keys|) && cacheline <= Cacheline(keys, pad, |keys|)
        decreases size
      {
        var done;
        k, cacheline, done := PlacePass(k, cacheline);
        if done { return; }
        size := size - 1;
      }
      size := 0;
    }

    /** One pass over the tree nodes in order. */
    method PlacePass(k0: nat, c0: nat) returns (k: nat, cacheline: nat, done: bool)
      requires SetOk() && 2 <= size <= |floats| == |at|
      requires (k0 == 0 && c0 == 1) || k0 == |keys|
      requires size <= Cacheline(keys, pad, |keys|) && c0 <= Cacheline(keys, pad, |keys|)
      modifies this
      ensures size == old(size) && |floats| == old(|floats|) && |at| == old(|at|)
      ensures done ==> PlacedAll()
      ensures !done ==> k == |keys| > 0 && cacheline <= Cacheline(keys, pad, |keys|)
      ensures done <==> k0 < |keys| && Cacheline(keys, pad, |keys| - 1) >= size - 1
    {
      hide Pos, ToInorder, Next, First, Sorted;
      k, cacheline, done := k0, c0, true;
      assert |keys| > 0;
      var j: nat := First(size - 1);
      FirstIsFirst(size - 1);
      var nodes := size - 1;
      forall i | 0 < i <= nodes
        ensures 1 <= ToInorder(i, nodes)
      {
        InorderRange(i, nodes);
      }
      while j != 0
        invariant size == old(size) && |floats| == old(|floats|) && |at| == old(|at|)
        invariant j < size && cacheline <= Cacheline(keys, pad, |keys|)
        invariant k == |keys| || cacheline == if j != 0 then ToInorder(j, size - 1) else size
        invariant k == |keys| ==> j != 0
        invariant k <= |keys| && (k > 0 ==> k == |keys| || Cacheline(keys, pad, k - 1) < cacheline)
        invariant k < |keys| ==> forall i :: 0 < i < size && ToInorder(i, size - 1) < cacheline ==> Placed(i)
        invariant k0 < |keys| <==> k < |keys|
        invariant k < |keys| ==> Cacheline(keys, pad, k) >= cacheline - 1
        decreases if k == |keys| then 0 else Cacheline(keys, pad, |keys|) - cacheline + 1
      {
        InorderRange(j, size - 1);
        while Cacheline(keys, pad, k) < cacheline
          invariant k <= |keys| && (k > 0 && k0 < |keys| ==> Cacheline(keys, pad, k - 1) < cacheline)
          decreases |keys| - k
        {
          k := k + 1;
        }
        if k >= |keys| {
          done := false;
          return;
        }
        j, cacheline := PlaceOne(j, cacheline, k);
      }
      CachelineOrder(f, keys, pad, k, |keys| - 1);
      forall i | 0 < i < size
        ensures Placed(i)
      {
        InorderRange(i, size - 1);
      }
    }

    /** Stores key k as the first key of its cacheline, and moves on to the next node. */
    method PlaceOne(j: nat, c: nat, k: nat) returns (next: nat, cacheline: nat)
      requires SetOk() && 0 < j < size <= |floats| == |at|
      requires k < |keys| && c == ToInorder(j, size - 1) && FirstFrom(keys, pad, c, k)
      requires forall i :: 0 < i < size && ToInorder(i, size - 1) < c ==> Placed(i)
      modifies this
      ensures size == old(size) && |floats| == old(|floats|) && |at| == old(|at|)
      ensures cacheline == c + 1 && next < size
      ensures cacheline == if next != 0 then ToInorder(next, size - 1) else size
      ensures forall i :: 0 < i < size && ToInorder(i, size - 1) < cacheline ==> Placed(i)
    {
      hide Pos, ToInorder, Next, Sorted;
      InorderRange(j, size - 1);
      KeyOffsetFits(f, keys, pad, c, k);
      floats := floats[j := floats[j].(keyOffset := pad + Off(keys, k) - CACHELINE_U64S * c)];
      at := at[j := k];
      cacheline := c + 1;
      NextIsNext(j, size - 1);
      next := Next(j, size - 1);
      forall i | 0 < i < size && ToInorder(i, size - 1) < cacheline
        ensures Placed(i)
      {
        if i == j {
        } else {
          if ToInorder(i, size - 1) == c { InorderInjective(i, j, size - 1); }
          assert old(Placed(i));
        }
      }
    }

    /** tree_to_bkey. */
    method TreeToKey(j: nat) returns (i: nat)
      requires SetOk() && PlacedAll() && 0 < j < size
      ensures i == at[j] < |keys|
    {
      hide Pos, ToInorder, Sorted;
      assert Placed(j);
      assert forall k :: 0 <= k < |keys| ==> KeyOk(f, keys[k]);
      IndexOfOff(keys, at[j]);
      i := IndexAt(keys, CACHELINE_U64S * ToInorder(j, size - 1) + floats[j].keyOffset - pad);
    }

    method BoundAt(j: nat) returns (b: Bound)
      requires SetOk() && PlacedAll() && 0 < j < size
      ensures b == KeyBound(j) && BoundOk(f, b)
    {
      hide Pos, ToInorder, Sorted;
      var i := TreeToKey(j);
      assert KeyOk(f, keys[i]);
      b := if IsPacked(keys[i]) then Packed(KeyWords(f, keys[i])) else Unpacked;
    }

    /** make_bfloat for tree node j: its key between its neighbours in the tree. */
    method ComputeNode(j: nat, lo: Bound, hi: Bound) returns (exponent: nat, mantissa: nat)
      requires SetOk() && PlacedAll() && BoundsOk() && 0 < j < size
      requires lo == minBound && hi == maxBound
      ensures FloatOk(f, LeftBound(j), KeyBound(j), RightBound(j), exponent, mantissa) <==> Fits(j)
      ensures !Fits(j) ==> LowFloat(f, KeyBound(j), exponent, mantissa)
    {
      hide Pos, ToInorder, Sorted, FloatOk, LowFloat, NodeFits, DecodePos, Value;
      var m := BoundAt(j);
      var l, r := lo, hi;
      if !IsPowerOf2(j) {
        LeftAncestor(j, size - 1);
        l := BoundAt(LeftOf(j));
      }
      if !IsPowerOf2(j + 1) {
        RightAncestor(j, size - 1);
        r := BoundAt(RightOf(j));
      }
      var i := TreeToKey(j);
      var mem := MemFrom(keys, i, after);
      if m.Packed? { MemOfKey(f, keys, i, after); }
      exponent, mantissa := MakeBfloat(f, l, m, r, mem);
    }

    method MakeNode(j: nat, lo: Bound, hi: Bound)
      requires SetOk() && PlacedAll() && BoundsOk() && 0 < j < size
      requires lo == minBound && hi == maxBound
      modifies this`floats
      ensures PlacedAll() && |floats| == old(|floats|)
      ensures Settled(j)
      ensures forall i :: 0 < i < size && i != j ==> floats[i] == old(floats[i])
    {
      hide Pos, ToInorder, Sorted, FloatOk, LowFloat, NodeFits, FirstFrom, IsPowerOf2, BoundOf;
      var exponent, mantissa := ComputeNode(j, lo, hi);
      ghost var l, m, r := LeftBound(j), KeyBound(j), RightBound(j);
      floats := floats[j := floats[j].(exponent := exponent, mantissa := mantissa)];
      forall n | 0 < n < size
        ensures Placed(n)
      {
        assert old(Placed(n));
      }
      assert LeftBound(j) == l && KeyBound(j) == m && RightBound(j) == r;
    }

    /** The second half of __build_ro_aux_tree. */
    method MakeNodes()
      requires SetOk() && PlacedAll()
      modifies this
      ensures size == old(size) && |floats| == old(|floats|)
      ensures PlacedAll() && BoundsOk()
      ensures forall i :: 0 < i < size ==> Settled(i)
    {
      hide Pos, ToInorder, Next, First, Sorted, FloatOk, LowFloat, NodeFits, DecodePos, Value;
      var lo := PackBound(f, minKey);
      var hi := PackBound(f, maxKey);
      minBound, maxBound := lo, hi;
      var nodes := size - 1;
      var j: nat := First(nodes);
      FirstIsFirst(nodes);
      ghost var count := 1;
      forall i | 0 < i <= nodes
        ensures 1 <= ToInorder(i, nodes) <= nodes
      {
        InorderRange(i, nodes);
      }
      while j != 0
        invariant size == old(size) == nodes + 1 && |floats| == old(|floats|) && j < size
        invariant minBound == lo && maxBound == hi
        invariant PlacedAll() && BoundsOk()
        invariant count == if j != 0 then ToInorder(j, nodes) else size
        invariant count <= size
        invariant forall i :: 0 < i <= nodes && ToInorder(i, nodes) < count ==> Settled(i)
        decreases size - count
      {
        NextIsNext(j, nodes);
        ghost var before := floats;
        label Before:
        MakeNode(j, lo, hi);
        forall i | 0 < i <= nodes && ToInorder(i, nodes) < count + 1
          ensures Settled(i)
        {
          if i != j {
            if ToInorder(i, nodes) == count { InorderInjective(i, j, nodes); }
            assert old@Before(Settled(i));
            assert floats[i] == before[i];
          }
        }
        j := Next(j, nodes);
        count := count + 1;
      }
    }

    /**
     bch2_bset_build_aux_tree for a set that is no longer written to. There is a tree
     exactly when the size first tried works out, and it is one a search can use. Its
     nodes decide where their exponent fits its byte, and turn left where it does not.
     */
    method Build(capacity: nat)
      requires SetOk() && capacity <= |floats|
      modifies this
      ensures |floats| == old(|floats|)
      ensures size != 0 <==> FirstSizeFits(keys, pad, capacity)
      ensures TreeOk() && (size != 0 ==> forall j :: 0 < j < size ==> Settled(j))
    {
      hide Pos, ToInorder, Sorted, FloatOk, LowFloat, NodeFits, DecodePos, Value, Off, BoundOf, IsPowerOf2, FirstSizeFits, FirstSize,
        FirstFrom, LeftOf, RightOf, KeyOk;
      PlaceKeys(capacity);
      if size != 0 {
        MakeNodes();
        forall j | 0 < j < size
          ensures NodeOk(j) || LowNode(j)
        {
          assert Settled(j);
        }
      }
    }

    // ---- searching ----

    /** The rounded-down search key is the floor of a position inside the node, and nothing but its size is below it. */
    ghost predicate SearchOk(search: Bpos, packed: seq<u64>)
      requires Valid(f)
    {
      && |packed| == f.keyU64s
      && BposLe(minKey, search) && BposLe(search, maxKey)
      && BkeyLossy.IsFloor(f, search, DecodePos(f, Value(packed))) && BkeyLossy.OnlySize(f, Value(packed))
    }

    ghost function TopOf(i: nat): nat
      requires SetOk() && i < |keys| && IsPackedAt(i)
    {
      assert KeyOk(f, keys[i]);
      Top(f, Value(KeyWords(f, keys[i])))
    }

    ghost predicate IsPackedAt(i: nat)
      requires SetOk() && i < |keys|
    {
      assert KeyOk(f, keys[i]);
      IsPacked(keys[i])
    }

    /** The search has gone right past key i. */
    ghost predicate Passed(i: nat, search: Bpos, s: nat)
      requires SetOk() && i < |keys|
    {
      && Before(f, keys[i], search)
      && (IsPackedAt(i) ==> TopOf(i) < s)
    }

    /** The search has gone left of key i. */
    ghost predicate Ahead(i: nat, s: nat)
      requires SetOk() && i < |keys|
    {
      IsPackedAt(i) ==> s <= TopOf(i)
    }

    /** Everything decided on the way down to node n. */
    ghost predicate PathOk(n: nat, search: Bpos, s: nat)
      requires SetOk() && PlacedAll() && n > 0
      reads this
    {
      && (!IsPowerOf2(n) ==> 0 < LeftOf(n) < size && Placed(LeftOf(n)) && Passed(at[LeftOf(n)], search, s))
      && (!IsPowerOf2(n + 1) ==> 0 < RightOf(n) < size && Placed(RightOf(n)) && Ahead(at[RightOf(n)], s))
    }

    /** Tree order is key order. */
    lemma KeyOrder(i: nat, j: nat)
      requires SetOk() && PlacedAll() && 0 < i < size && 0 < j < size
      requires ToInorder(i, size - 1) < ToInorder(j, size - 1)
      ensures at[i] <= at[j] < |keys|
      ensures BposLe(Pos(f, keys[at[i]]), Pos(f, keys[at[j]]))
      ensures IsPackedAt(at[i]) && IsPackedAt(at[j]) ==> TopOf(at[i]) <= TopOf(at[j])
    {
      hide DecodePos, Value, Top, ToInorder, Off;
      assert Placed(i) && Placed(j);
      assert KeyOk(f, keys[at[i]]) && KeyOk(f, keys[at[j]]);
      assert forall k :: 0 <= k < |keys| ==> KeyOk(f, keys[k]);
      FirstFromMonotone(keys, pad, ToInorder(i, size - 1), at[i], ToInorder(j, size - 1), at[j]);
      if IsPackedAt(at[i]) && IsPackedAt(at[j]) {
        TopOrder(f, KeyWords(f, keys[at[i]]), KeyWords(f, keys[at[j]]));
      }
    }

    /** A packed key lies between the packed bounds of the node, also as position bits. */
    lemma KeyInRange(i: nat)
      requires SetOk() && BoundsOk() && minBound.Packed? && maxBound.Packed? && i < |keys| && IsPackedAt(i)
      ensures Top(f, Value(minBound.words)) <= TopOf(i) <= Top(f, Value(maxBound.words))
    {
      hide DecodePos, Value, Top, Sorted;
      assert KeyOk(f, keys[i]);
      TopOrder(f, minBound.words, KeyWords(f, keys[i]));
      TopOrder(f, KeyWords(f, keys[i]), maxBound.words);
    }

    /** The exponents fit whenever the one of a node between the bounds of the whole set would. */
    lemma RangeFits(j: nat)
      requires SetOk() && PlacedAll() && BoundsOk() && 0 < j < size
      requires minBound.Packed? && maxBound.Packed? && ExponentFits(f, minBound.words, maxBound.words)
      ensures Fits(j)
    {
      hide DecodePos, Value, Top, ToInorder, Off, Sorted, KeyBits, Shr;
      assert Placed(j);
      if f.keyU64s == BKEY_U64S && LeftBound(j).Packed? && KeyBound(j).Packed? && RightBound(j).Packed? {
        var lo, hi := Top(f, Value(minBound.words)), Top(f, Value(maxBound.words));
        var l, r := Top(f, Value(LeftBound(j).words)), Top(f, Value(RightBound(j).words));
        KeyInRange(at[j]);
        BoundsInRange(j);
        Squeeze(lo, l, hi, KeyBits(f) - 49);
        Squeeze(lo, r, hi, KeyBits(f) - 49);
      }
    }

    lemma BoundsInRange(j: nat)
      requires SetOk() && PlacedAll() && BoundsOk() && 0 < j < size && minBound.Packed? && maxBound.Packed?
      requires LeftBound(j).Packed? && KeyBound(j).Packed? && RightBound(j).Packed?
      ensures Top(f, Value(minBound.words)) <= Top(f, Value(LeftBound(j).words)) <= Top(f, Value(maxBound.words))
      ensures Top(f, Value(minBound.words)) <= Top(f, Value(RightBound(j).words)) <= Top(f, Value(maxBound.words))
    {
      hide DecodePos, Value, Top, ToInorder, Off, Sorted, KeyBits;
      assert Placed(j);
      KeyInRange(at[j]);
      if !IsPowerOf2(j) {
        LeftAncestor(j, size - 1);
        assert Placed(LeftOf(j));
        KeyInRange(at[LeftOf(j)]);
      }
      if !IsPowerOf2(j + 1) {
        RightAncestor(j, size - 1);
        assert Placed(RightOf(j));
        KeyInRange(at[RightOf(j)]);
      }
    }

    /** Where the left bound of node n stands against its key and the search key. */
    lemma LeftFacts(n: nat, search: Bpos, packed: seq<u64>)
      requires TreeOk() && 0 < n < size && SearchOk(search, packed)
      requires PathOk(n, search, Top(f, Value(packed)))
      requires LeftBound(n).Packed? && KeyBound(n).Packed?
      ensures Top(f, Value(LeftBound(n).words)) <= Top(f, Value(KeyBound(n).words))
      ensures Top(f, Value(LeftBound(n).words)) <= Top(f, Value(packed))
    {
      hide DecodePos, Value, Top, ToInorder, Off, FloatOk, Sorted, KeyBits;
      assert Placed(n) && KeyOk(f, keys[at[n]]);
      if IsPowerOf2(n) {
        TopOrder(f, minBound.words, KeyWords(f, keys[at[n]]));
        TopOrder(f, minBound.words, packed);
        DecodedRepresentable(f, Value(minBound.words));
      } else {
        LeftAncestor(n, size - 1);
        KeyOrder(LeftOf(n), n);
      }
    }

    lemma RightFacts(n: nat, search: Bpos, packed: seq<u64>)
      requires TreeOk() && 0 < n < size && SearchOk(search, packed)
      requires PathOk(n, search, Top(f, Value(packed)))
      requires RightBound(n).Packed? && KeyBound(n).Packed?
      ensures Top(f, Value(KeyBound(n).words)) <= Top(f, Value(RightBound(n).words))
      ensures Top(f, Value(packed)) <= Top(f, Value(RightBound(n).words))
    {
      hide DecodePos, Value, Top, ToInorder, Off, FloatOk, Sorted, KeyBits;
      assert Placed(n) && KeyOk(f, keys[at[n]]);
      if IsPowerOf2(n + 1) {
        TopOrder(f, KeyWords(f, keys[at[n]]), maxBound.words);
        TopOrder(f, packed, maxBound.words);
        BposTransitive(DecodePos(f, Value(packed)), search, maxKey);
      } else {
        RightAncestor(n, size - 1);
        KeyOrder(n, RightOf(n));
      }
    }

    /** Below the rounded-down search key means below the search position. */
    lemma PassedByTop(i: nat, search: Bpos, packed: seq<u64>)
      requires SetOk() && i < |keys| && SearchOk(search, packed) && IsPackedAt(i)
      requires TopOf(i) < Top(f, Value(packed))
      ensures Passed(i, search, Top(f, Value(packed)))
    {
      hide DecodePos, Value, Top, Sorted;
      assert KeyOk(f, keys[i]);
      TopOrder(f, KeyWords(f, keys[i]), packed);
      BposTransitive(Pos(f, keys[i]), DecodePos(f, Value(packed)), search);
    }

    /** The truncated comparison at node n, when it is conclusive. */
    lemma FastDecides(n: nat, search: Bpos, packed: seq<u64>, mantissa: nat)
      requires TreeOk() && 0 < n < size && SearchOk(search, packed)
      requires PathOk(n, search, Top(f, Value(packed))) && NodeOk(n)
      requires floats[n].exponent < BFLOAT_FAILED
      requires mantissa == Low(Shr(Value(packed), floats[n].exponent), 16)
      requires floats[n].mantissa != mantissa || floats[n].exponent + KeyBits(f) <= 64 * f.keyU64s
      ensures at[n] < |keys|
      ensures floats[n].mantissa < mantissa ==> Passed(at[n], search, Top(f, Value(packed)))
      ensures floats[n].mantissa >= mantissa ==> Ahead(at[n], Top(f, Value(packed)))
    {
      hide DecodePos, Value, ToInorder, Off, Sorted, Lsh, Shr, Low, Pow2, GoodFloat;
      assert Placed(n) && KeyOk(f, keys[at[n]]);
      LowBitsRange(f);
      LeftFacts(n, search, packed);
      RightFacts(n, search, packed);
      ValueBound(packed);
      TopBound(f, Value(packed));
      MantissaDecides(KeyBits(f), 64 * f.keyU64s - KeyBits(f),
                      Top(f, Value(LeftBound(n).words)), Top(f, Value(KeyBound(n).words)),
                      Top(f, Value(RightBound(n).words)), Value(packed),
                      floats[n].exponent + KeyBits(f) - 64 * f.keyU64s, floats[n].mantissa);
      if floats[n].mantissa < mantissa { PassedByTop(at[n], search, packed); }
    }

    /** The full comparison at node n. */
    lemma SlowDecides(n: nat, search: Bpos, packed: seq<u64>, cmp: int)
      requires TreeOk() && 0 < n < size && SearchOk(search, packed)
      requires Placed(n) && KeyOk(f, keys[at[n]])
      requires cmp == BposCmp(Pos(f, keys[at[n]]), if IsPacked(keys[at[n]]) then DecodePos(f, Value(packed)) else search)
      ensures cmp == 0 ==> forall i :: 0 <= i < at[n] ==> KeyOk(f, keys[i]) && Before(f, keys[i], search)
      ensures cmp < 0 ==> Passed(at[n], search, Top(f, Value(packed)))
      ensures cmp > 0 ==> Ahead(at[n], Top(f, Value(packed)))
    {
      hide DecodePos, Value, ToInorder, Off, Top;
      var k := keys[at[n]];
      if IsPacked(k) {
        TopOrder(f, KeyWords(f, k), packed);
        TopOrder(f, packed, KeyWords(f, k));
        if cmp < 0 { PassedByTop(at[n], search, packed); }
      }
      if cmp == 0 {
        forall i | 0 <= i < at[n]
          ensures KeyOk(f, keys[i]) && Before(f, keys[i], search)
        {
          assert KeyOk(f, keys[i]);
          BposTransitive(Pos(f, keys[i]), Pos(f, k), search);
        }
      }
    }

    /** A search left a node that turns left although the node's key is before the position: so are all below. */
    ghost predicate Gone(n: nat, search: Bpos)
      requires SetOk() && PlacedAll() && n > 0
      reads this
    {
      !IsPowerOf2(n + 1) && 0 < RightOf(n) < size && Placed(RightOf(n)) && Before(f, keys[at[RightOf(n)]], search)
    }

    /** Where the search may go from here: what it passed is skipped, and either the rest is not or nothing matters. */
    ghost predicate OnPath(n: nat, search: Bpos, s: nat)
      requires SetOk() && PlacedAll() && n > 0
      reads this
    {
      PathOk(n, search, s) || Gone(n, search)
    }

    lemma GoneHere(n: nat, search: Bpos)
      requires SetOk() && PlacedAll() && 0 < n < size && Gone(n, search)
      ensures at[n] < |keys| && KeyOk(f, keys[at[n]]) && Before(f, keys[at[n]], search)
    {
      hide ToInorder, Off, Sorted, IsPowerOf2, DecodePos, Value;
      assert Placed(n) && KeyOk(f, keys[at[n]]);
      RightAncestor(n, size - 1);
      KeyOrder(n, RightOf(n));
      BeforeDown(f, keys, search, at[n], at[RightOf(n)]);
    }

    /** Once gone, either turn will do. */
    lemma GoneDown(n: nat, right: bool, search: Bpos)
      requires SetOk() && PlacedAll() && 0 < n < size && Gone(n, search)
      ensures Gone(2 * n + (if right then 1 else 0), search)
    {
      hide LeftOf, RightOf, IsPowerOf2, Sorted, Before, ToInorder, Off, FirstFrom, KeyOk, Pos, Valid;
      GoneHere(n, search);
      assert Placed(n);
      BoundsOfChildren(n);
    }

    /** The turn at a node whose exponent does not fit. */
    lemma LowDecides(n: nat, search: Bpos, packed: seq<u64>)
      requires TreeOk() && 0 < n < size && SearchOk(search, packed) && LowNode(n)
      requires PathOk(n, search, Top(f, Value(packed)))
      ensures Low(Shr(Value(packed), floats[n].exponent), 16) <= floats[n].mantissa
      ensures OnPath(2 * n, search, Top(f, Value(packed)))
    {
      hide DecodePos, Value, ToInorder, Off, Sorted, Lsh, Shr, Low, Pow2, Top, KeyBits, Before, IsPowerOf2, LeftOf, RightOf;
      assert Placed(n) && KeyOk(f, keys[at[n]]);
      SizeIsLow(KeyWords(f, keys[at[n]]));
      LowFloatTurnsLeft(f, KeyBound(n), floats[n].exponent, floats[n].mantissa, Value(packed));
      if TopOf(at[n]) < Top(f, Value(packed)) {
        PassedByTop(at[n], search, packed);
        BoundsOfChildren(n);
      } else {
        Descend(n, false, search, Top(f, Value(packed)));
      }
    }

    /** The step of bset_search_tree at node n: found, or go left or right. */
    method Decide(n: nat, search: Bpos, packed: seq<u64>, mem: seq<u64>) returns (found: bool, k: nat, right: bool)
      requires TreeOk() && 0 < n < size && SearchOk(search, packed)
      requires f.keyU64s <= |mem| && BKEY_U64S <= |mem| && mem[..f.keyU64s] == packed
      requires OnPath(n, search, Top(f, Value(packed)))
      ensures at[n] < |keys|
      ensures found ==> k < |keys| && forall i :: 0 <= i < k ==> KeyOk(f, keys[i]) && Before(f, keys[i], search)
      ensures !found ==> OnPath(2 * n + (if right then 1 else 0), search, Top(f, Value(packed)))
      ensures !found && right ==> KeyOk(f, keys[at[n]]) && Before(f, keys[at[n]], search)
    {
      hide DecodePos, Value, ToInorder, Off, Top, Lsh, Shr, Low, Pow2, Sorted, BkeyMantissa, GoodFloat, FloatOk, LowFloat,
        PathOk, Gone, Before, KeyBits, BkeyLossy.OnlySize, BkeyLossy.IsFloor;
      assert Placed(n) && KeyOk(f, keys[at[n]]);
      var e := floats[n].exponent;
      if e < BFLOAT_FAILED {
        MantissaInside(n);
        var l, r := floats[n].mantissa, BkeyMantissa(mem, e);
        MantissaOfKey(mem, f.keyU64s, e);
        var bitsDropped := e > f.keyU64s * 64 - KeyBits(f);
        if !(l == r && bitsDropped) {
          right := l < r;
          FastTurn(n, search, packed, r, right);
          return false, 0, right;
        }
      }
      k := TreeToKey(n);
      var cmp := CmpPOrUnp(f, keys[k], packed, search);
      right := cmp < 0;
      SlowTurn(n, search, packed, cmp);
      return cmp == 0, k, right;
    }

    /** Where a conclusive truncated comparison leads. */
    lemma FastTurn(n: nat, search: Bpos, packed: seq<u64>, mantissa: nat, right: bool)
      requires TreeOk() && 0 < n < size && SearchOk(search, packed)
      requires OnPath(n, search, Top(f, Value(packed))) && Placed(n) && KeyOk(f, keys[at[n]])
      requires floats[n].exponent < BFLOAT_FAILED && mantissa == Low(Shr(Value(packed), floats[n].exponent), 16)
      requires floats[n].mantissa != mantissa || floats[n].exponent + KeyBits(f) <= 64 * f.keyU64s
      requires right <==> floats[n].mantissa < mantissa
      ensures OnPath(2 * n + (if right then 1 else 0), search, Top(f, Value(packed)))
      ensures right ==> Before(f, keys[at[n]], search)
    {
      hide DecodePos, Value, ToInorder, Off, Top, Lsh, Shr, Low, Pow2, Sorted, FloatOk, LowFloat, PathOk, Gone, Before, KeyBits,
        BkeyLossy.OnlySize, BkeyLossy.IsFloor;
      if Gone(n, search) {
        GoneHere(n, search);
        GoneDown(n, right, search);
      } else if NodeOk(n) {
        FastDecides(n, search, packed, mantissa);
        Descend(n, right, search, Top(f, Value(packed)));
      } else {
        LowDecides(n, search, packed);
      }
    }

    /** Where the full comparison leads. */
    lemma SlowTurn(n: nat, search: Bpos, packed: seq<u64>, cmp: int)
      requires TreeOk() && 0 < n < size && SearchOk(search, packed)
      requires OnPath(n, search, Top(f, Value(packed))) && Placed(n) && KeyOk(f, keys[at[n]])
      requires cmp == BposCmp(Pos(f, keys[at[n]]), if IsPacked(keys[at[n]]) then DecodePos(f, Value(packed)) else search)
      ensures cmp == 0 ==> forall i :: 0 <= i < at[n] ==> KeyOk(f, keys[i]) && Before(f, keys[i], search)
      ensures cmp != 0 ==> OnPath(2 * n + (if cmp < 0 then 1 else 0), search, Top(f, Value(packed)))
      ensures cmp < 0 ==> Before(f, keys[at[n]], search)
    {
      hide DecodePos, Value, ToInorder, Off, Top, Sorted, FloatOk, LowFloat, PathOk, Gone, Before, BkeyLossy.OnlySize,
        BkeyLossy.IsFloor, Pos;
      SlowDecides(n, search, packed, cmp);
      if Gone(n, search) {
        GoneDown(n, cmp < 0, search);
      } else if cmp != 0 {
        Descend(n, cmp < 0, search, Top(f, Value(packed)));
      }
    }

    lemma MantissaInside(n: nat)
      requires TreeOk() && 0 < n < size && floats[n].exponent < BFLOAT_FAILED
      ensures floats[n].exponent + 16 <= 64 * f.keyU64s
    {
      hide DecodePos, Value, ToInorder, Off, Top, Lsh, Shr, Low, Pow2, Sorted;
      assert NodeOk(n) || LowNode(n);
      LowBitsRange(f);
    }

    /** Going down keeps the path facts. */
    lemma Descend(n: nat, right: bool, search: Bpos, s: nat)
      requires SetOk() && PlacedAll() && 0 < n < size && PathOk(n, search, s) && Placed(n)
      requires if right then Passed(at[n], search, s) else Ahead(at[n], s)
      ensures PathOk(2 * n + (if right then 1 else 0), search, s)
    {
      hide Passed, Ahead, Placed, LeftOf, RightOf, IsPowerOf2, Sorted;
      BoundsOfChildren(n);
    }

    /** Keys up to one that is skipped by the lookup are all skipped. */
    lemma SkippedPrefix(i: nat, search: Bpos)
      requires SetOk() && i < |keys| && KeyOk(f, keys[i]) && Before(f, keys[i], search)
      ensures forall j :: 0 <= j < i ==> KeyOk(f, keys[j]) && Before(f, keys[j], search)
    {
      hide Before, Sorted;
      forall j | 0 <= j < i
        ensures KeyOk(f, keys[j]) && Before(f, keys[j], search)
      {
        BeforeDown(f, keys, search, j, i);
      }
    }

    /**
     bset_search_tree: the key it returns is one a scan from the first key reaches,
     also when the packed search key was rounded down. mem is the memory that starts
     with the packed search key.
     */
    method Search(search: Bpos, packed: seq<u64>, mem: seq<u64>) returns (r: nat)
      requires TreeOk() && size != 0 && SearchOk(search, packed)
      requires f.keyU64s <= |mem| && BKEY_U64S <= |mem| && mem[..f.keyU64s] == packed
      ensures r <= |keys|
      ensures forall i :: 0 <= i < r ==> KeyOk(f, keys[i]) && Before(f, keys[i], search)
    {
      hide DecodePos, Value, Top, Sorted, PathOk, Gone, Before, FloatOk, LowFloat, ToInorder, Off, BkeyLossy.OnlySize;
      ghost var s := Top(f, Value(packed));
      var n := 1;
      OnePath(search, s);
      while true
        invariant 0 < n < size && OnPath(n, search, s)
        decreases size - n
      {
        assert Placed(n);
        var found, k, right := Decide(n, search, packed, mem);
        if found { return k; }
        if right {
          if 2 * n + 1 >= size {
            SkippedPrefix(at[n], search);
            r := TreeToKey(n);
            return;
          }
          n := 2 * n + 1;
        } else {
          if 2 * n >= size {
            r := Predecessor(n, search, s);
            return;
          }
          n := 2 * n;
        }
      }
    }

    lemma OnePath(search: Bpos, s: nat)
      requires SetOk() && PlacedAll()
      ensures PathOk(1, search, s)
    {
      assert IsPowerOf2(1) && IsPowerOf2(2);
    }

    /** The key before node q is skipped. */
    lemma PrevSkipped(q: nat, p: nat, search: Bpos, s: nat)
      requires SetOk() && PlacedAll() && 0 < q < size <= 2 * q && OnPath(q, search, s)
      requires !IsPowerOf2(q) && p == LeftOf(q) && 0 < p < q && ToInorder(p, size - 1) < ToInorder(q, size - 1)
      ensures at[p] < |keys| && KeyOk(f, keys[at[p]]) && Before(f, keys[at[p]], search)
    {
      hide DecodePos, Value, Sorted, Before, ToInorder, Off, LeftOf, RightOf;
      assert Placed(p) && KeyOk(f, keys[at[p]]);
      if Gone(q, search) {
        GoneHere(q, search);
        KeyOrder(p, q);
        BeforeDown(f, keys, search, at[p], at[q]);
      }
    }

    /** The end of bset_search_tree after a last turn to the left at node q. */
    method Predecessor(q: nat, search: Bpos, ghost s: nat) returns (r: nat)
      requires SetOk() && PlacedAll() && 0 < q < size <= 2 * q && OnPath(q, search, s)
      ensures r <= |keys|
      ensures forall i :: 0 <= i < r ==> KeyOk(f, keys[i]) && Before(f, keys[i], search)
    {
      hide DecodePos, Value, Sorted, Passed, Ahead, Before, IsPowerOf2, ToInorder, Prev, Off, PathOk, Gone;
      PrevWithoutLeftChild(q, size - 1);
      var inorder := ToInorder(q, size - 1) - 1;
      if inorder == 0 { return 0; }
      var p := Prev(q, size - 1);
      PrevSkipped(q, p, search, s);
      SkippedPrefix(at[p], search);
      assert Placed(p);
      assert forall k :: 0 <= k < |keys| ==> KeyOk(f, keys[k]);
      IndexOfOff(keys, at[p]);
      r := IndexAt(keys, CACHELINE_U64S * inorder + floats[p].keyOffset - pad);
    }
  }

  lemma BposTransitive(a: Bpos, b: Bpos, c: Bpos)
    ensures BposLe(a, b) && BposLe(b, c) ==> BposLe(a, c)
    ensures BposLt(a, b) && BposLe(b, c) ==> BposLt(a, c)
    ensures BposLe(a, b) && BposLt(b, c) ==> BposLt(a, c)
  {
  }
}
