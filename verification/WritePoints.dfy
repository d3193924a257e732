/**
 Write points and the sectors they hand out (libbcachefs/alloc_foreground.c and .h):
 who owns an open bucket, when it is closed, and which sectors are given to whom.
 Buckets are opened, pinned and closed through the table of open buckets.
 */
module WritePoints {
  import opened OpenBuckets
  import opened AllocRequest

  datatype WritePoint = WritePoint(ptrs: seq<nat>, dataType: DataType, sectorsFree: nat, locked: bool)

  /** Sectors given out: a run of device sectors. */
  datatype Extent = Extent(start: nat, len: nat)

  /** bch_extent_ptr. */
  datatype Ptr = Ptr(dev: nat, offset: nat, gen: nat, cached: bool)

  // ---- ownership ----

  ghost function WpBag(wps: seq<WritePoint>): multiset<nat>
  {
    if wps == [] then multiset{} else WpBag(wps[..|wps| - 1]) + multiset(wps[|wps| - 1].ptrs)
  }

  ghost function Owned(wps: seq<WritePoint>, partial: seq<nat>): multiset<nat>
  {
    WpBag(wps) + multiset(partial)
  }

  ghost function PinOf(obs: map<nat, Ob>, s: nat): nat { if s in obs then obs[s].pin else 0 }

  /** A bucket has one owner at most, and its pin counts the owner and the references of writes. */
  ghost predicate OwnersOk(obs: map<nat, Ob>, all: multiset<nat>, refs: multiset<nat>)
  {
    && (forall s :: all[s] <= 1)
    && (forall s :: s in obs ==> obs[s].pin > 0)
    && forall s :: PinOf(obs, s) == all[s] + refs[s]
  }

  /** The pin is zero, and the bucket closed, exactly when nobody owns it and no write refers to it. */
  lemma OpenWhileHeld(obs: map<nat, Ob>, all: multiset<nat>, refs: multiset<nat>, s: nat)
    requires OwnersOk(obs, all, refs)
    ensures (s in obs <==> s in all || s in refs) && (s in obs ==> obs[s].pin > 0)
    ensures s in obs && obs[s].pin == 1 ==> (s in all <==> s !in refs) && (s in refs ==> refs[s] == 1)
  {
    assert PinOf(obs, s) == all[s] + refs[s];
  }

  lemma {:induction false} WpBagUpdate(wps: seq<WritePoint>, w: nat, n: WritePoint)
    requires w < |wps|
    ensures WpBag(wps[w := n]) + multiset(wps[w].ptrs) == WpBag(wps) + multiset(n.ptrs)
  {
    var k := |wps| - 1;
    if w == k {
      assert wps[w := n][..k] == wps[..k];
    } else {
      assert wps[w := n][..k] == wps[..k][w := n];
      WpBagUpdate(wps[..k], w, n);
      BothPlus(WpBag(wps[..k][w := n]), multiset(wps[w].ptrs), WpBag(wps[..k]), multiset(n.ptrs), multiset(wps[k].ptrs));
    }
  }

  lemma BothPlus(a: multiset<nat>, x: multiset<nat>, b: multiset<nat>, y: multiset<nat>, l: multiset<nat>)
    requires a + x == b + y
    ensures (a + l) + x == (b + l) + y
  {
    assert (a + l) + x == (a + x) + l;
  }

  lemma {:induction false} WpBagHas(wps: seq<WritePoint>, w: nat)
    requires w < |wps|
    ensures multiset(wps[w].ptrs) <= WpBag(wps)
  {
    if w < |wps| - 1 { WpBagHas(wps[..|wps| - 1], w); }
  }

  // ---- sectors ----

  /** The runs follow each other from `from` to `to`. */
  ghost predicate Consecutive(runs: seq<Extent>, from: nat, to: nat)
  {
    if runs == [] then from == to
    else
      var last := runs[|runs| - 1];
      last.start + last.len == to && Consecutive(runs[..|runs| - 1], from, last.start)
  }

  lemma {:induction false} ConsecutiveIn(runs: seq<Extent>, from: nat, to: nat, i: nat)
    requires Consecutive(runs, from, to) && i < |runs|
    ensures from <= runs[i].start && runs[i].start + runs[i].len <= to
  {
    if i < |runs| - 1 {
      ConsecutiveIn(runs[..|runs| - 1], from, runs[|runs| - 1].start, i);
    } else {
      ConsecutiveFrom(runs[..i], from, runs[i].start);
    }
  }

  lemma {:induction false} ConsecutiveFrom(runs: seq<Extent>, from: nat, to: nat)
    requires Consecutive(runs, from, to)
    ensures from <= to
  {
    if runs != [] { ConsecutiveFrom(runs[..|runs| - 1], from, runs[|runs| - 1].start); }
  }

  lemma {:induction false} ConsecutiveApart(runs: seq<Extent>, from: nat, to: nat, i: nat, j: nat)
    requires Consecutive(runs, from, to) && i < j < |runs|
    ensures runs[i].start + runs[i].len <= runs[j].start
  {
    var k := |runs| - 1;
    if j == k { ConsecutiveIn(runs[..k], from, runs[k].start, i); } else { ConsecutiveApart(runs[..k], from, runs[k].start, i, j); }
  }

  lemma ConsecutiveMore(runs: seq<Extent>, from: nat, to: nat, len: nat)
    requires Consecutive(runs, from, to)
    ensures Consecutive(runs + [Extent(to, len)], from, to + len)
  {
    assert (runs + [Extent(to, len)])[..|runs|] == runs;
  }

  /** bucket_to_sector. */
  function BucketStart(devs: seq<Dev>, o: Ob): nat
    requires o.dev < |devs|
  {
    o.bucket * devs[o.dev].bucketSize
  }

  lemma BucketsApart(a: nat, b: nat, size: nat)
    requires a < b
    ensures a * size + size <= b * size
  {
    assert b * size == a * size + (b - a) * size;
    assert (b - a) * size >= size by {
      assert (b - a - 1) * size >= 0;
      assert (b - a) * size == (b - a - 1) * size + size;
    }
  }

  ghost predicate SlotOk(devs: seq<Dev>, o: Ob, runs: seq<Extent>)
  {
    && o.dev < |devs| && o.sectorsFree <= devs[o.dev].bucketSize
    && Consecutive(runs, BucketStart(devs, o), BucketStart(devs, o) + devs[o.dev].bucketSize - o.sectorsFree)
  }

  /** What each open bucket has given out fills it from the start, without holes, up to its free sectors. */
  ghost predicate GivenOk(devs: seq<Dev>, obs: map<nat, Ob>, given: map<nat, seq<Extent>>)
  {
    obs.Keys == given.Keys && forall s :: s in obs ==> SlotOk(devs, obs[s], given[s])
  }

  /** Two runs given out from open buckets of one device never overlap. */
  lemma {:induction false} NeverOverlap(devs: seq<Dev>, obs: map<nat, Ob>, given: map<nat, seq<Extent>>, s: nat, i: nat, t: nat, j: nat)
    requires GivenOk(devs, obs, given) && DistinctBuckets(obs)
    requires s in given && t in given && i < |given[s]| && j < |given[t]| && (s, i) != (t, j)
    requires obs[s].dev == obs[t].dev
    ensures Disjoint(given[s][i], given[t][j])
  {
    hide Consecutive, BucketStart;
    var a, b := obs[s], obs[t];
    assert SlotOk(devs, a, given[s]) && SlotOk(devs, b, given[t]);
    var size := devs[a.dev].bucketSize;
    var sa, sb := BucketStart(devs, a), BucketStart(devs, b);
    if s == t {
      if i < j { ConsecutiveApart(given[s], sa, sa + size - a.sectorsFree, i, j); }
      else { ConsecutiveApart(given[s], sa, sa + size - a.sectorsFree, j, i); }
    } else {
      ConsecutiveIn(given[s], sa, sa + size - a.sectorsFree, i);
      ConsecutiveIn(given[t], sb, sb + size - b.sectorsFree, j);
      StartsApart(devs, a, b);
    }
  }

  lemma StartsApart(devs: seq<Dev>, a: Ob, b: Ob)
    requires a.dev == b.dev < |devs| && a.bucket != b.bucket
    ensures var size := devs[a.dev].bucketSize;
            BucketStart(devs, a) + size <= BucketStart(devs, b) || BucketStart(devs, b) + size <= BucketStart(devs, a)
  {
    if a.bucket < b.bucket {
      BucketsApart(a.bucket, b.bucket, devs[a.dev].bucketSize);
    } else {
      BucketsApart(b.bucket, a.bucket, devs[a.dev].bucketSize);
    }
  }

  /** Every run stays inside its bucket. */
  lemma StaysInside(devs: seq<Dev>, obs: map<nat, Ob>, given: map<nat, seq<Extent>>, s: nat, i: nat)
    requires GivenOk(devs, obs, given) && s in given && i < |given[s]|
    ensures var o := obs[s];
            && o.dev < |devs| && BucketStart(devs, o) <= given[s][i].start
            && given[s][i].start + given[s][i].len <= BucketStart(devs, o) + devs[o.dev].bucketSize
  {
    hide BucketStart, Consecutive;
    var o := obs[s];
    assert SlotOk(devs, o, given[s]);
    ConsecutiveIn(given[s], BucketStart(devs, o), BucketStart(devs, o) + devs[o.dev].bucketSize - o.sectorsFree, i);
  }

  // ---- the allocator ----

  ghost predicate WpOk(obs: map<nat, Ob>, block: nat, wp: WritePoint)
  {
    forall i :: 0 <= i < |wp.ptrs| ==>
      wp.ptrs[i] in obs && (if wp.locked then wp.sectorsFree <= obs[wp.ptrs[i]].sectorsFree else block <= obs[wp.ptrs[i]].sectorsFree)
  }

  ghost predicate RoomOk(obs: map<nat, Ob>, block: nat, wps: seq<WritePoint>, partial: seq<nat>)
  {
    && (forall i :: 0 <= i < |partial| ==> partial[i] in obs && block <= obs[partial[i]].sectorsFree)
    && forall w :: 0 <= w < |wps| ==> WpOk(obs, block, wps[w])
  }

  ghost predicate DevsOk(devs: seq<Dev>, block: nat)
  {
    0 < block <= UINT_MAX && forall d :: 0 <= d < |devs| ==> block <= devs[d].bucketSize
  }

  class Allocator {
    const devs: seq<Dev>
    const block: nat
    const table: Table
    var wps: seq<WritePoint>
    var partial: seq<nat>
    /** What the table holds. */
    ghost var obs: map<nat, Ob>
    /** References held by writes in flight. Nothing in the allocator depends on them. */
    var refs: multiset<nat>
    /** What each open bucket has given out since it was opened. */
    ghost var given: map<nat, seq<Extent>>

    ghost predicate Valid()
      reads this, table
    {
      && Synced(table, devs, obs) && DevsOk(devs, block) && OwnersOk(obs, Owned(wps, partial), refs)
      && GivenOk(devs, obs, given) && RoomOk(obs, block, wps, partial)
    }

    constructor (devs: seq<Dev>, block: nat, types: seq<DataType>, h: (nat, nat) -> nat, hashSize: nat)
      requires DevsOk(devs, block) && forall d, b :: h(d, b) < hashSize
      ensures Valid() && this.devs == devs && this.block == block && |wps| == |types| && obs == map[]
      ensures forall w :: 0 <= w < |types| ==> wps[w] == WritePoint([], types[w], 0, false)
    {
      this.devs, this.block := devs, block;
      obs, partial, refs, given := map[], [], multiset{}, map[];
      wps := seq(|types|, w requires 0 <= w < |types| => WritePoint([], types[w], 0, false));
      var t := new Table(h, hashSize, |devs|);
      table := t;
      new;
      NoPtrs(wps);
      NoneInView(table.slots);
      hide FreeListOk, ChainsOk, CountsOk, Distinct, View;
    }

    /**
     bch2_alloc_sectors_start_trans for write point w. On success it is locked and has
     its replicas; on failure it is not. Nothing is lost and nothing has two owners.
     */
    method Start(w: nat, devsHave: set<nat>, nrReplicas: nat, required: nat, watermark: Watermark, walks: seq<Walk>,
                 target: bool, targetDevs: set<nat>, allDevs: set<nat>, onlySpecified: bool, cl: bool)
      returns (r: Result, short: bool)
      requires Valid() && w < |wps| && !wps[w].locked && 0 < nrReplicas && 0 < required
      modifies this, table
      ensures Valid() && |wps| == |old(wps)| && refs == old(refs) && Extends(devs, old(obs), obs)
      ensures forall v :: 0 <= v < |wps| && v != w ==> wps[v] == old(wps)[v]
      ensures Owned(wps, partial) == old(Owned(wps, partial)) + Since(old(obs), obs)
      ensures wps[w].locked == r.Ok? && wps[w].dataType == old(wps)[w].dataType
      ensures r.Ok? ==>
                && Known(devs, obs, wps[w].ptrs)
                && Spread(devs, obs, devsHave, wps[w].ptrs) && OneCache(devs, obs, wps[w].dataType, wps[w].ptrs)
                && SumDurability(devs, obs, wps[w].ptrs) >= (if short then required else nrReplicas) && wps[w].sectorsFree > 0
    {
      hide OwnersOk, GivenOk, Synced, Extends, Since, RoomOk, DevsOk, SumDurability, OneCache, Spread, Owned, Roomy, Bag;
      var wp := wps[w];
      StartKnown(devs, block, obs, wps, partial, refs, given, w);
      var req := new Request(devs, devsHave, nrReplicas, wp.dataType, watermark, walks, table, obs, partial, wp.ptrs);
      var sectors;
      r, short, sectors := req.Start(target, targetDevs, allDevs, onlySpecified, cl, required, block);
      var n := WritePoint(req.wpPtrs, wp.dataType, sectors, r.Ok?);
      StartKeeps(devs, block, obs, wps, partial, refs, given, w, req.obs, req.partial, n);
      given := Opened0(given, req.obs);
      obs, partial, wps := req.obs, req.partial, wps[w := n];
    }

    /** bch2_alloc_sectors_append_ptrs: every bucket of the write point gives the same number of sectors. */
    method AppendPtrs(w: nat, sectors: nat, cached: bool) returns (ptrs: seq<Ptr>)
      requires Valid() && w < |wps| && wps[w].locked && sectors <= wps[w].sectorsFree
      modifies this`obs, this`wps, this`given, table
      ensures Valid() && wps == old(wps)[w := old(wps)[w].(sectorsFree := old(wps)[w].sectorsFree - sectors)]
      ensures obs.Keys == old(obs).Keys && |ptrs| == |wps[w].ptrs|
      ensures forall s :: s in old(obs) && s !in wps[w].ptrs ==> obs[s] == old(obs)[s]
      ensures forall i :: 0 <= i < |ptrs| ==>
                var s := wps[w].ptrs[i];
                && s in old(obs) && s in obs && s in old(given) && s in given
                && GaveOut(devs, old(obs)[s], obs[s], old(given)[s], given[s], ptrs[i], sectors, cached, wps[w].dataType)
    {
      hide OwnersOk, Synced, RoomOk, Owned, SlotOk, GaveOut;
      ghost var first, given0 := obs, given;
      WriterKnown(obs, block, wps, partial, refs, w);
      ptrs, obs, given := GiveAll(table, devs, obs, given, wps[w].ptrs, sectors, cached, wps[w].dataType);
      GaveOutAll(devs, first, obs, given0, given, wps[w].ptrs, ptrs, sectors, cached, wps[w].dataType);
      AppendKeeps(devs, block, first, obs, wps, partial, refs, w, sectors);
      wps := wps[w := wps[w].(sectorsFree := wps[w].sectorsFree - sectors)];
    }

    /** bch2_open_bucket_get: a write takes references to the write point's buckets. */
    method GetRefs(w: nat)
      requires Valid() && w < |wps|
      modifies this`obs, this`refs, table
      ensures Valid() && refs == old(refs) + multiset(wps[w].ptrs)
      ensures obs.Keys == old(obs).Keys && forall s :: s in obs ==>
                obs[s] == if s in wps[w].ptrs then old(obs)[s].(pin := old(obs)[s].pin + 1, dataType := wps[w].dataType) else old(obs)[s]
    {
      hide GivenOk, RoomOk, Owned, OwnersOk, Synced, DevsOk, GotUpTo;
      var list := wps[w].ptrs;
      WriterKnown(obs, block, wps, partial, refs, w);
      GotNone(obs, list, wps[w].dataType);
      for i := 0 to |list|
        invariant Valid() && refs == old(refs) + multiset(list[..i])
        invariant GotUpTo(old(obs), obs, list, i, wps[w].dataType)
      {
        TakeOne(list, i);
        GotNext(old(obs), obs, list, i, wps[w].dataType);
        GetRef(list[i], wps[w].dataType);
      }
      TakeAll(list);
      GotAll(old(obs), obs, list, wps[w].dataType);
    }

    /** One reference. */
    method GetRef(s: nat, t: DataType)
      requires Valid() && s in obs
      modifies this`obs, this`refs, table
      ensures Valid() && refs == old(refs) + multiset{s} && obs.Keys == old(obs).Keys
      ensures obs == old(obs)[s := old(obs)[s].(pin := old(obs)[s].pin + 1, dataType := t)]
    {
      hide GivenOk, RoomOk, Owned, OwnersOk, DevsOk, FreeListOk, ChainsOk, CountsOk, Distinct, View;
      SyncedAt(table, devs, obs, s);
      ghost var was := table.slots;
      table.SetType(s, t);
      table.Get(s);
      ViewChanged(was, s, table.slots[s]);
      assert table.slots == was[s := table.slots[s]];
      ghost var n := obs[s].(pin := obs[s].pin + 1, dataType := t);
      Pinned(devs, block, obs, wps, partial, given, s, n);
      MorePins(obs, Owned(wps, partial), refs, s, n);
      obs, refs := obs[s := n], refs + multiset{s};
    }

    /**
     bch2_open_bucket_put: one reference less; the bucket is closed when its pin reaches
     zero, which is when nobody owns it or refers to it.
     */
    method PutRef(s: nat)
      requires Valid() && s in refs
      modifies this`obs, this`refs, this`given, table
      ensures Valid() && refs == old(refs) - multiset{s} && s in old(obs)
      ensures s in obs <==> s in refs || s in Owned(wps, partial)
      ensures obs == if s in obs then old(obs)[s := old(obs)[s].(pin := old(obs)[s].pin - 1)] else old(obs) - {s}
    {
      hide GivenOk, RoomOk, Owned, DevsOk, OwnersOk, Synced;
      OpenWhileHeld(obs, Owned(wps, partial), refs, s);
      PutKeeps(devs, block, obs, wps, partial, refs, given, s);
      ghost var last := obs[s].pin == 1;
      PutSlot(table, devs, obs, s);
      if last { obs, given := obs - {s}, given - {s}; } else { obs := obs[s := obs[s].(pin := obs[s].pin - 1)]; }
      refs := refs - multiset{s};
      OpenWhileHeld(obs, Owned(wps, partial), refs, s);
    }

    /** bch2_alloc_sectors_done: buckets without room for another block are let go, the rest stays. */
    method Done(w: nat)
      requires Valid() && w < |wps| && wps[w].locked
      modifies this`obs, this`refs, this`given, this`wps, table
      ensures Valid() && refs == old(refs) && |wps| == |old(wps)|
      ensures forall v :: 0 <= v < |wps| && v != w ==> wps[v] == old(wps)[v]
      ensures !wps[w].locked
      ensures forall s :: s in wps[w].ptrs <==> s in old(wps)[w].ptrs && s in old(obs) && block <= old(obs)[s].sectorsFree
      ensures forall s :: s in obs <==>
                s in old(obs) && !(s in old(wps)[w].ptrs && old(obs)[s].sectorsFree < block && s !in refs)
      ensures forall s :: s in obs ==>
                obs[s] == old(obs)[s].(pin := old(obs)[s].pin - (if Full(old(wps)[w].ptrs, old(obs), block, s) then 1 else 0))
    {
      hide GivenOk, RoomOk, Owned, DevsOk, OwnersOk, Synced, PutUpTo;
      ghost var first := obs;
      WriterKnown(obs, block, wps, partial, refs, w);
      ViewIs(table, devs, obs);
      var keep, drop := Split(View(table.slots), wps[w].ptrs, block);
      var n := WritePoint(keep, wps[w].dataType, wps[w].sectorsFree, false);
      DoneKeeps(devs, block, obs, wps, partial, refs, w, keep, drop, n);
      ghost var left := refs;
      wps := wps[w := n];
      refs := refs + multiset(drop);
      PutAll(drop, left);
      PutDone(first, obs, drop, left);
    }

    /** bch2_open_buckets_put, for buckets that have no owner any more. */
    method PutAll(drop: seq<nat>, ghost left: multiset<nat>)
      requires Valid() && refs == left + multiset(drop)
      requires (forall s :: s in drop ==> s !in Owned(wps, partial)) && forall a, b :: 0 <= a < b < |drop| ==> drop[a] != drop[b]
      modifies this`obs, this`refs, this`given, table
      ensures Valid() && refs == left && PutUpTo(old(obs), obs, drop, |drop|, left)
    {
      hide GivenOk, RoomOk, Owned, DevsOk, OwnersOk, Synced, PutUpTo;
      PinsPositive(obs, Owned(wps, partial), refs);
      PutNone(obs, drop, left);
      assert drop[0..] == drop;
      for i := 0 to |drop|
        invariant Valid() && refs == left + multiset(drop[i..]) && PutUpTo(old(obs), obs, drop, i, left)
      {
        ghost var before := obs;
        StillHeld(old(obs), obs, Owned(wps, partial), left, drop, i);
        OneFewer(left, drop, i);
        PutRef(drop[i]);
        PutNext(old(obs), before, obs, drop, i, left);
      }
      NoneLeft(left, drop);
    }

    /** In every state, runs given out are apart, and the open buckets are those with an owner or a reference. */
    lemma ValidIsSafe()
      requires Valid()
      ensures AllApart(obs, given)
      ensures forall s :: s in obs <==> s in Owned(wps, partial) || s in refs
      ensures forall s :: Owned(wps, partial)[s] <= 1
    {
      hide GivenOk, RoomOk, Owned, DevsOk, Synced, DistinctBuckets;
      TableDistinct(table, devs, obs);
      forall s, t, i, j | s in obs && t in obs && s in given && t in given && obs[s].dev == obs[t].dev
                          && 0 <= i < |given[s]| && 0 <= j < |given[t]| && (s, i) != (t, j)
        ensures Disjoint(given[s][i], given[t][j])
      {
        NeverOverlap(devs, obs, given, s, i, t, j);
      }
      forall s
        ensures s in obs <==> s in Owned(wps, partial) || s in refs
      {
        OpenWhileHeld(obs, Owned(wps, partial), refs, s);
      }
    }

    /** Over every sequence of steps: one owner each, open while held, and no sector given out twice. */
    method Run(ops: seq<Op>)
      requires Valid()
      modifies this, table
      ensures Valid() && AllApart(obs, given)
      ensures forall s :: s in obs <==> s in Owned(wps, partial) || s in refs
      ensures forall s :: Owned(wps, partial)[s] <= 1
    {
      hide GivenOk, RoomOk, Owned, DevsOk, OwnersOk, Synced, AllApart;
      for i := 0 to |ops|
        invariant Valid()
      {
        Step(ops[i]);
      }
      ValidIsSafe();
    }

    /** One step, if it is possible. */
    method Step(op: Op)
      requires Valid()
      modifies this, table
      ensures Valid()
    {
      hide GivenOk, RoomOk, Owned, DevsOk, OwnersOk, Synced;
      match op
      case Begin(w, have, n, req, wm, walks, target, targetDevs, allDevs, only, cl) =>
        if w < |wps| && !wps[w].locked && 0 < n && 0 < req {
          var r, short := Start(w, have, n, req, wm, walks, target, targetDevs, allDevs, only, cl);
        }
      case Append(w, sectors, cached) =>
        if w < |wps| && wps[w].locked && sectors <= wps[w].sectorsFree { var ptrs := AppendPtrs(w, sectors, cached); }
      case Get(w) => if w < |wps| && wps[w].locked { GetRefs(w); }
      case Put(s) => if s in refs { PutRef(s); }
      case End(w) => if w < |wps| && wps[w].locked { Done(w); }
      case GiveUp(w) => if w < |wps| && !wps[w].locked { Retire(w); }
    }

    /** The partial list never outgrows its array, not even with one more bucket. */
    lemma PartialFits(s: nat)
      requires Valid() && s in obs && s !in partial
      ensures |partial| + 1 < OPEN_BUCKETS_COUNT
    {
      hide GivenOk, RoomOk, Owned, DevsOk, OwnersOk, FreeListOk, ChainsOk, CountsOk, Distinct;
      var list := partial + [s];
      forall i | 0 <= i < |list|
        ensures 0 < list[i] < OPEN_BUCKETS_COUNT
      {
        PartialOpen(obs, wps, partial, refs);
        assert list[i] in obs;
      }
      PartialOpen(obs, wps, partial, refs);
      ShortList(list, OPEN_BUCKETS_COUNT);
    }

    /** try_decrease_writepoints: the buckets of a write point that is given up become partial. */
    method Retire(w: nat)
      requires Valid() && w < |wps| && !wps[w].locked
      modifies this`wps, this`partial
      ensures Valid()
      ensures wps == old(wps)[w := old(wps)[w].(ptrs := [])] && partial == old(partial) + old(wps)[w].ptrs
      ensures Owned(wps, partial) == old(Owned(wps, partial))
    {
      hide GivenOk, Owned, DevsOk, OwnersOk, Synced;
      var n := wps[w].(ptrs := []);
      OwnedMoves(wps, partial, w, n, partial + wps[w].ptrs, multiset{});
      assert Owned(wps, partial) + multiset{} == Owned(wps, partial);
      assert WpOk(obs, block, wps[w]);
      partial, wps := partial + wps[w].ptrs, wps[w := n];
    }
  }

  /** What may happen, in any order and any number of times. */
  datatype Op =
    | Begin(w: nat, devsHave: set<nat>, nrReplicas: nat, required: nat, watermark: Watermark, walks: seq<Walk>,
            target: bool, targetDevs: set<nat>, allDevs: set<nat>, onlySpecified: bool, cl: bool)
    | Append(w: nat, sectors: nat, cached: bool)
    | Get(w: nat)
    | Put(s: nat)
    | End(w: nat)
    | GiveUp(w: nat)

  ghost predicate Disjoint(a: Extent, b: Extent) { a.start + a.len <= b.start || b.start + b.len <= a.start }

  /** No two runs given out from open buckets of one device overlap. */
  ghost predicate AllApart(obs: map<nat, Ob>, given: map<nat, seq<Extent>>)
  {
    forall s, t :: s in obs && t in obs && s in given && t in given && obs[s].dev == obs[t].dev ==>
      forall i, j :: 0 <= i < |given[s]| && 0 <= j < |given[t]| && (s, i) != (t, j) ==> Disjoint(given[s][i], given[t][j])
  }

  /** The split made when a write is done. */
  method Split(obs: map<nat, Ob>, list: seq<nat>, block: nat) returns (keep: seq<nat>, drop: seq<nat>)
    requires forall i :: 0 <= i < |list| ==> list[i] in obs
    ensures multiset(keep) + multiset(drop) == multiset(list)
    ensures forall s :: s in keep <==> s in list && s in obs && block <= obs[s].sectorsFree
    ensures forall s :: s in drop <==> s in list && s in obs && obs[s].sectorsFree < block
  {
    keep, drop := [], [];
    for i := 0 to |list|
      invariant multiset(keep) + multiset(drop) == multiset(list[..i])
      invariant forall s :: s in keep <==> s in list[..i] && s in obs && block <= obs[s].sectorsFree
      invariant forall s :: s in drop <==> s in list[..i] && s in obs && obs[s].sectorsFree < block
    {
      TakeOne(list, i);
      PushOne(keep, drop, multiset(list[..i]), list[i]);
      assert list[..i + 1] == list[..i] + [list[i]];
      if obs[list[i]].sectorsFree < block { drop := drop + [list[i]]; } else { keep := keep + [list[i]]; }
    }
    TakeAll(list);
  }

  // ---- the partial list ----

  lemma {:induction false} PartialOpen(obs: map<nat, Ob>, wps: seq<WritePoint>, partial: seq<nat>, refs: multiset<nat>)
    requires OwnersOk(obs, Owned(wps, partial), refs)
    ensures NoDups(partial) && forall i :: 0 <= i < |partial| ==> partial[i] in obs
  {
    forall i | 0 <= i < |partial|
      ensures partial[i] in obs
    {
      assert partial[i] in multiset(partial);
      OpenWhileHeld(obs, Owned(wps, partial), refs, partial[i]);
    }
    forall i, j | 0 <= i < j < |partial|
      ensures partial[i] != partial[j]
    {
      assert Owned(wps, partial)[partial[i]] <= 1;
      if partial[i] == partial[j] { TwiceInBag(partial, i, j); }
    }
  }

  /** Different numbers between 0 and n, both excluded, are fewer than n. */
  lemma {:induction false} ShortList(list: seq<nat>, n: nat)
    requires NoDups(list) && n > 0 && forall i :: 0 <= i < |list| ==> 0 < list[i] < n
    ensures |list| < n
    decreases n
  {
    if |list| == 0 { return; }
    assert 0 < list[0] < n;
    if k :| 0 <= k < |list| && list[k] == n - 1 {
      var rest := list[..k] + list[k + 1..];
      assert forall i :: 0 <= i < |rest| ==> rest[i] == list[if i < k then i else i + 1];
      ShortList(rest, n - 1);
    } else {
      ShortList(list, n - 1);
    }
  }

  // ---- references ----

  lemma NoneInView(slots: seq<Slot>)
    requires forall s: nat :: !IsOpen(slots, s)
    ensures View(slots) == map[]
  {
  }

  /** A slot changes in nothing but its pin and type. */
  lemma {:induction false} Pinned(devs: seq<Dev>, block: nat, obs: map<nat, Ob>, wps: seq<WritePoint>, partial: seq<nat>,
                                  given: map<nat, seq<Extent>>, s: nat, n: Ob)
    requires GivenOk(devs, obs, given) && RoomOk(obs, block, wps, partial) && s in obs
    requires n == obs[s].(pin := n.pin, dataType := n.dataType)
    ensures GivenOk(devs, obs[s := n], given) && RoomOk(obs[s := n], block, wps, partial)
  {
    var next := obs[s := n];
    assert next.Keys == obs.Keys;
    assert SlotOk(devs, obs[s], given[s]);
    forall w | 0 <= w < |wps|
      ensures WpOk(next, block, wps[w])
    {
      assert WpOk(obs, block, wps[w]);
    }
  }

  lemma MorePins(obs: map<nat, Ob>, all: multiset<nat>, refs: multiset<nat>, s: nat, n: Ob)
    requires OwnersOk(obs, all, refs) && s in obs && n.pin == obs[s].pin + 1
    ensures OwnersOk(obs[s := n], all, refs + multiset{s})
  {
    forall t
      ensures PinOf(obs[s := n], t) == all[t] + (refs + multiset{s})[t]
    {
      assert PinOf(obs, t) == all[t] + refs[t];
    }
  }

  lemma FewerPins(obs: map<nat, Ob>, next: map<nat, Ob>, all: multiset<nat>, refs: multiset<nat>, s: nat)
    requires OwnersOk(obs, all, refs) && s in refs && s in obs
    requires next == if obs[s].pin == 1 then obs - {s} else obs[s := obs[s].(pin := obs[s].pin - 1)]
    ensures OwnersOk(next, all, refs - multiset{s})
  {
    forall t
      ensures PinOf(next, t) == all[t] + (refs - multiset{s})[t]
    {
      assert PinOf(obs, t) == all[t] + refs[t];
    }
  }

  /** Giving up a reference, the last one or not, keeps what is known about the other buckets. */
  lemma {:induction false} PutKeeps(devs: seq<Dev>, block: nat, obs: map<nat, Ob>, wps: seq<WritePoint>, partial: seq<nat>,
                                    refs: multiset<nat>, given: map<nat, seq<Extent>>, s: nat)
    requires OwnersOk(obs, Owned(wps, partial), refs) && GivenOk(devs, obs, given) && RoomOk(obs, block, wps, partial)
    requires s in refs && s in obs && obs[s].pin > 0
    ensures var last := obs[s].pin == 1;
            var next, left := if last then obs - {s} else obs[s := obs[s].(pin := obs[s].pin - 1)], if last then given - {s} else given;
            && OwnersOk(next, Owned(wps, partial), refs - multiset{s})
            && GivenOk(devs, next, left) && RoomOk(next, block, wps, partial)
  {
    hide OwnersOk, GivenOk, RoomOk, Owned;
    if obs[s].pin == 1 {
      FewerPins(obs, obs - {s}, Owned(wps, partial), refs, s);
      OpenWhileHeld(obs, Owned(wps, partial), refs, s);
      ClosedKeeps(devs, block, obs, wps, partial, given, s);
    } else {
      var n := obs[s].(pin := obs[s].pin - 1);
      FewerPins(obs, obs[s := n], Owned(wps, partial), refs, s);
      Pinned(devs, block, obs, wps, partial, given, s, n);
    }
  }

  /** Closing a bucket that nobody owns. */
  lemma {:induction false} ClosedKeeps(devs: seq<Dev>, block: nat, obs: map<nat, Ob>, wps: seq<WritePoint>, partial: seq<nat>,
                                       given: map<nat, seq<Extent>>, s: nat)
    requires GivenOk(devs, obs, given) && RoomOk(obs, block, wps, partial) && s !in Owned(wps, partial)
    ensures GivenOk(devs, obs - {s}, given - {s}) && RoomOk(obs - {s}, block, wps, partial)
  {
    hide SlotOk;
    forall w | 0 <= w < |wps|
      ensures WpOk(obs - {s}, block, wps[w])
    {
      WpBagHas(wps, w);
      assert WpOk(obs, block, wps[w]);
      forall i | 0 <= i < |wps[w].ptrs|
        ensures wps[w].ptrs[i] != s
      {
        assert wps[w].ptrs[i] in multiset(wps[w].ptrs);
      }
    }
    forall i | 0 <= i < |partial|
      ensures partial[i] != s
    {
      assert partial[i] in multiset(partial);
    }
  }

  /** bch2_open_bucket_put on the table. */
  method PutSlot(table: Table, devs: seq<Dev>, ghost obs: map<nat, Ob>, s: nat)
    requires Synced(table, devs, obs) && s in obs
    modifies table
    ensures obs[s].pin > 0
    ensures Synced(table, devs, if obs[s].pin == 1 then obs - {s} else obs[s := obs[s].(pin := obs[s].pin - 1)])
  {
    hide FreeListOk, ChainsOk, CountsOk, Distinct, View;
    SyncedAt(table, devs, obs, s);
    ghost var was := table.slots;
    table.Put(s);
    if obs[s].pin == 1 {
      ViewClosed(was, table.slots, s);
    } else {
      ViewChanged(was, s, table.slots[s]);
    }
  }

  lemma {:induction false} ViewClosed(was: seq<Slot>, slots: seq<Slot>, s: nat)
    requires |slots| == |was| && IsOpen(was, s) && forall t: nat :: IsOpen(slots, t) <==> IsOpen(was, t) && t != s
    requires forall t: nat :: t < |slots| && t != s ==> slots[t].(hash := 0) == was[t].(hash := 0)
    ensures View(slots) == View(was) - {s}
  {
    forall t: nat | t in View(slots)
      ensures t in View(was) && View(slots)[t] == View(was)[t]
    {
      assert IsOpen(was, t) && t != s;
      assert ObOf(slots[t]) == ObOf(slots[t].(hash := 0)) && ObOf(was[t]) == ObOf(was[t].(hash := 0));
    }
  }

  /** What Done lets go of. */
  ghost predicate Full(list: seq<nat>, obs: map<nat, Ob>, block: nat, s: nat)
  {
    s in list && s in obs && obs[s].sectorsFree < block
  }

  /** References to the first i buckets of the list have been taken. */
  ghost predicate GotUpTo(first: map<nat, Ob>, obs: map<nat, Ob>, list: seq<nat>, i: nat, t: DataType)
    requires i <= |list|
  {
    obs.Keys == first.Keys && forall s :: s in obs && s in first ==>
      obs[s] == if s in list[..i] then first[s].(pin := first[s].pin + 1, dataType := t) else first[s]
  }

  lemma {:induction false} GotNext(first: map<nat, Ob>, obs: map<nat, Ob>, list: seq<nat>, i: nat, t: DataType)
    requires i < |list| && GotUpTo(first, obs, list, i, t) && list[i] in first
    requires forall a, b :: 0 <= a < b < |list| ==> list[a] != list[b]
    ensures list[i] in obs
    ensures GotUpTo(first, obs[list[i] := obs[list[i]].(pin := obs[list[i]].pin + 1, dataType := t)], list, i + 1, t)
  {
    FreshOfList(list, i);
    assert list[..i + 1] == list[..i] + [list[i]];
    assert list[i] in first.Keys;
  }

  lemma GotNone(first: map<nat, Ob>, list: seq<nat>, t: DataType)
    ensures GotUpTo(first, first, list, 0, t)
  {
  }

  lemma GotAll(first: map<nat, Ob>, obs: map<nat, Ob>, list: seq<nat>, t: DataType)
    requires GotUpTo(first, obs, list, |list|, t)
    ensures obs.Keys == first.Keys && forall s :: s in obs ==>
              s in first && obs[s] == if s in list then first[s].(pin := first[s].pin + 1, dataType := t) else first[s]
  {
    assert list[..|list|] == list;
    assert forall s :: s in obs <==> s in obs.Keys;
  }

  /** References to the first i buckets of the list have been given up. */
  ghost predicate PutUpTo(first: map<nat, Ob>, obs: map<nat, Ob>, drop: seq<nat>, i: nat, refs: multiset<nat>)
    requires i <= |drop|
  {
    && (forall s :: s in obs <==> s in first && !(s in drop[..i] && s !in refs))
    && forall s :: s in obs && s in first ==> first[s].pin > 0 && obs[s] == if s in drop[..i] then first[s].(pin := first[s].pin - 1) else first[s]
  }

  lemma {:induction false} PutNext(first: map<nat, Ob>, obs: map<nat, Ob>, next: map<nat, Ob>, drop: seq<nat>, i: nat, refs: multiset<nat>)
    requires i < |drop| && PutUpTo(first, obs, drop, i, refs) && drop[i] in obs && drop[i] in first && first[drop[i]].pin > 0
    requires forall a, b :: 0 <= a < b < |drop| ==> drop[a] != drop[b]
    requires drop[i] in next <==> drop[i] in refs
    requires obs[drop[i]].pin > 0
    requires next == if drop[i] in next then obs[drop[i] := obs[drop[i]].(pin := obs[drop[i]].pin - 1)] else obs - {drop[i]}
    ensures PutUpTo(first, next, drop, i + 1, refs)
  {
    FreshOfList(drop, i);
    assert drop[..i + 1] == drop[..i] + [drop[i]];
  }

  lemma PutNone(first: map<nat, Ob>, drop: seq<nat>, refs: multiset<nat>)
    requires forall s :: s in first ==> first[s].pin > 0
    ensures PutUpTo(first, first, drop, 0, refs)
  {
  }

  lemma PutDone(first: map<nat, Ob>, obs: map<nat, Ob>, drop: seq<nat>, refs: multiset<nat>)
    requires PutUpTo(first, obs, drop, |drop|, refs)
    ensures forall s :: s in obs <==> s in first && !(s in drop && s !in refs)
    ensures forall s :: s in obs ==>
              first[s].pin > 0 && obs[s] == if s in drop then first[s].(pin := first[s].pin - 1) else first[s]
  {
    assert drop[..|drop|] == drop;
  }

  /** In the middle of letting go: the next bucket is open, and only other references keep it so. */
  lemma {:induction false} StillHeld(first: map<nat, Ob>, obs: map<nat, Ob>, all: multiset<nat>, refs: multiset<nat>, drop: seq<nat>, i: nat)
    requires i < |drop| && OwnersOk(obs, all, refs + multiset(drop[i..])) && PutUpTo(first, obs, drop, i, refs)
    requires (forall s :: s in drop ==> s !in all) && forall a, b :: 0 <= a < b < |drop| ==> drop[a] != drop[b]
    ensures drop[i] in obs && drop[i] in first && obs[drop[i]].pin > 0 && first[drop[i]].pin > 0
    ensures var r := refs + multiset(drop[i + 1..]); drop[i] in r || drop[i] in all <==> drop[i] in refs
  {
    hide OwnersOk;
    OneFewer(refs, drop, i);
    OpenWhileHeld(obs, all, refs + multiset(drop[i..]), drop[i]);
    assert drop[i] in drop;
    assert drop[i] in multiset(drop[i + 1..]) <==> drop[i] in drop[i + 1..];
  }

  lemma NoneLeft(refs: multiset<nat>, drop: seq<nat>)
    ensures refs + multiset(drop[|drop|..]) == refs
  {
    assert drop[|drop|..] == [];
  }

  lemma PinsPositive(obs: map<nat, Ob>, all: multiset<nat>, refs: multiset<nat>)
    requires OwnersOk(obs, all, refs)
    ensures forall s :: s in obs ==> obs[s].pin > 0
  {
  }

  lemma OneFewer(refs: multiset<nat>, drop: seq<nat>, i: nat)
    requires i < |drop|
    ensures drop[i] in refs + multiset(drop[i..])
    ensures refs + multiset(drop[i..]) - multiset{drop[i]} == refs + multiset(drop[i + 1..])
  {
    assert drop[i..] == [drop[i]] + drop[i + 1..];
  }

  lemma {:induction false} DoneKeeps(devs: seq<Dev>, block: nat, obs: map<nat, Ob>, wps: seq<WritePoint>, partial: seq<nat>,
                                     refs: multiset<nat>, w: nat, keep: seq<nat>, drop: seq<nat>, n: WritePoint)
    requires RoomOk(obs, block, wps, partial) && OwnersOk(obs, Owned(wps, partial), refs)
    requires w < |wps| && n.ptrs == keep && !n.locked && multiset(keep) + multiset(drop) == multiset(wps[w].ptrs)
    requires forall s :: s in keep ==> s in obs && block <= obs[s].sectorsFree
    ensures RoomOk(obs, block, wps[w := n], partial) && OwnersOk(obs, Owned(wps[w := n], partial), refs + multiset(drop))
    ensures forall s :: s in drop ==> s !in Owned(wps[w := n], partial)
    ensures forall a, b :: 0 <= a < b < |drop| ==> drop[a] != drop[b]
  {
    hide RoomOk, OwnersOk, Owned;
    DoneRoom(block, obs, wps, partial, w, n);
    LessOwned(wps, partial, w, n, keep, drop);
    OwnersLess(obs, Owned(wps, partial), Owned(wps[w := n], partial), refs, drop);
  }

  /** Buckets taken from their owner are referred to instead. */
  lemma {:induction false} OwnersLess(obs: map<nat, Ob>, all: multiset<nat>, less: multiset<nat>, refs: multiset<nat>, drop: seq<nat>)
    requires OwnersOk(obs, all, refs) && less + multiset(drop) == all
    ensures OwnersOk(obs, less, refs + multiset(drop)) && (forall s :: s in drop ==> s !in less)
    ensures forall a, b :: 0 <= a < b < |drop| ==> drop[a] != drop[b]
  {
    forall s
      ensures less[s] <= 1 && (s in drop ==> s !in less) && PinOf(obs, s) == less[s] + (refs + multiset(drop))[s]
    {
      assert all[s] == less[s] + multiset(drop)[s] && all[s] <= 1;
      assert s in drop <==> s in multiset(drop);
    }
    forall a, b | 0 <= a < b < |drop|
      ensures drop[a] != drop[b]
    {
      assert all[drop[a]] == less[drop[a]] + multiset(drop)[drop[a]] && all[drop[a]] <= 1;
      if drop[a] == drop[b] { TwiceInBag(drop, a, b); }
    }
  }

  lemma DoneRoom(block: nat, obs: map<nat, Ob>, wps: seq<WritePoint>, partial: seq<nat>, w: nat, n: WritePoint)
    requires RoomOk(obs, block, wps, partial) && w < |wps| && !n.locked
    requires forall s :: s in n.ptrs ==> s in obs && block <= obs[s].sectorsFree
    ensures RoomOk(obs, block, wps[w := n], partial)
  {
    var next := wps[w := n];
    forall v | 0 <= v < |next|
      ensures WpOk(obs, block, next[v])
    {
      if v != w { assert WpOk(obs, block, wps[v]); }
    }
  }

  lemma LessOwned(wps: seq<WritePoint>, partial: seq<nat>, w: nat, n: WritePoint, keep: seq<nat>, drop: seq<nat>)
    requires w < |wps| && n.ptrs == keep && multiset(keep) + multiset(drop) == multiset(wps[w].ptrs)
    ensures Owned(wps[w := n], partial) + multiset(drop) == Owned(wps, partial)
  {
    WpBagUpdate(wps, w, n);
    Cancel2(WpBag(wps[w := n]), WpBag(wps), multiset(wps[w].ptrs), multiset(keep), multiset(drop), multiset(partial));
  }

  lemma Cancel2(a: multiset<nat>, b: multiset<nat>, x: multiset<nat>, y: multiset<nat>, d: multiset<nat>, p: multiset<nat>)
    requires a + x == b + y && y + d == x
    ensures (a + p) + d == b + p
  {
    forall s
      ensures ((a + p) + d)[s] == (b + p)[s]
    {
      assert (a + x)[s] == (b + y)[s] && (y + d)[s] == x[s];
    }
  }

  // ---- giving out sectors ----

  /** The loop over a write point's buckets. */
  method GiveAll(table: Table, devs: seq<Dev>, ghost obs: map<nat, Ob>, ghost given: map<nat, seq<Extent>>, list: seq<nat>,
                 sectors: nat, cached: bool, dataType: DataType)
    returns (ptrs: seq<Ptr>, ghost next: map<nat, Ob>, ghost now: map<nat, seq<Extent>>)
    requires Synced(table, devs, obs)
    requires GivenOk(devs, obs, given) && (forall a, b :: 0 <= a < b < |list| ==> list[a] != list[b])
    requires forall a :: 0 <= a < |list| ==> list[a] in obs && sectors <= obs[list[a]].sectorsFree
    modifies table
    ensures Synced(table, devs, next)
    ensures GivenOk(devs, next, now) && |ptrs| == |list| && next.Keys == obs.Keys
    ensures forall s :: s in obs && s !in list ==> next[s] == obs[s] && now[s] == given[s]
    ensures forall j :: 0 <= j < |list| ==>
              GaveOut(devs, obs[list[j]], next[list[j]], given[list[j]], now[list[j]], ptrs[j], sectors, cached, dataType)
  {
    hide GivenOk, GaveOut, PtrOf, GaveUpTo, Synced;
    ptrs, next, now := [], obs, given;
    GivenKeys(devs, obs, given);
    GaveNone(devs, obs, given, list, sectors, cached, dataType);
    for i := 0 to |list|
      invariant Synced(table, devs, next)
      invariant GivenOk(devs, next, now) && next.Keys == obs.Keys == now.Keys == given.Keys && |ptrs| == i
      invariant GaveUpTo(devs, obs, next, given, now, list, ptrs, i, sectors, cached, dataType)
    {
      var s := list[i];
      GaveRest(devs, obs, next, given, now, list, ptrs, i, sectors, cached, dataType);
      var p := GiveStep(table, devs, next, now, s, sectors, cached, dataType);
      ghost var after := now[s] + [Extent(p.offset, sectors)];
      ghost var n := next[s].(sectorsFree := next[s].sectorsFree - sectors);
      GaveMore(devs, obs, next, given, now, list, ptrs, i, sectors, cached, dataType, n, after, p);
      ptrs, next, now := ptrs + [p], next[s := n], now[s := after];
    }
    GaveAll(devs, obs, next, given, now, list, ptrs, sectors, cached, dataType);
  }

  /** The first i buckets of the list have given out sectors, the others are as before. */
  ghost predicate GaveUpTo(devs: seq<Dev>, obs: map<nat, Ob>, next: map<nat, Ob>, given: map<nat, seq<Extent>>,
                           now: map<nat, seq<Extent>>, list: seq<nat>, ptrs: seq<Ptr>, i: nat, sectors: nat, cached: bool,
                           dataType: DataType)
    requires obs.Keys == next.Keys == given.Keys == now.Keys && i <= |list| && i == |ptrs|
    requires forall a :: 0 <= a < |list| ==> list[a] in obs
  {
    && (forall s :: s in obs && s !in list[..i] ==> next[s] == obs[s] && now[s] == given[s])
    && forall j :: 0 <= j < i ==>
         GaveOut(devs, obs[list[j]], next[list[j]], given[list[j]], now[list[j]], ptrs[j], sectors, cached, dataType)
  }

  lemma GaveNone(devs: seq<Dev>, obs: map<nat, Ob>, given: map<nat, seq<Extent>>, list: seq<nat>, sectors: nat, cached: bool,
                 dataType: DataType)
    requires obs.Keys == given.Keys && forall a :: 0 <= a < |list| ==> list[a] in obs
    ensures GaveUpTo(devs, obs, obs, given, given, list, [], 0, sectors, cached, dataType)
  {
  }

  lemma GaveRest(devs: seq<Dev>, obs: map<nat, Ob>, next: map<nat, Ob>, given: map<nat, seq<Extent>>, now: map<nat, seq<Extent>>,
                 list: seq<nat>, ptrs: seq<Ptr>, i: nat, sectors: nat, cached: bool, dataType: DataType)
    requires obs.Keys == next.Keys == given.Keys == now.Keys && i < |list| && i == |ptrs|
    requires (forall a, b :: 0 <= a < b < |list| ==> list[a] != list[b]) && forall a :: 0 <= a < |list| ==> list[a] in obs
    requires GaveUpTo(devs, obs, next, given, now, list, ptrs, i, sectors, cached, dataType)
    ensures list[i] in next && list[i] in now && next[list[i]] == obs[list[i]] && now[list[i]] == given[list[i]]
  {
    FreshOfList(list, i);
    assert list[i] in obs.Keys;
  }

  lemma {:induction false} GaveMore(devs: seq<Dev>, obs: map<nat, Ob>, next: map<nat, Ob>, given: map<nat, seq<Extent>>,
                                    now: map<nat, seq<Extent>>, list: seq<nat>, ptrs: seq<Ptr>, i: nat, sectors: nat, cached: bool,
                                    dataType: DataType, n: Ob, after: seq<Extent>, p: Ptr)
    requires obs.Keys == next.Keys == given.Keys == now.Keys && i < |list| && i == |ptrs|
    requires (forall a, b :: 0 <= a < b < |list| ==> list[a] != list[b]) && forall a :: 0 <= a < |list| ==> list[a] in obs
    requires GaveUpTo(devs, obs, next, given, now, list, ptrs, i, sectors, cached, dataType)
    requires GaveOut(devs, obs[list[i]], n, given[list[i]], after, p, sectors, cached, dataType)
    ensures next[list[i] := n].Keys == obs.Keys && now[list[i] := after].Keys == obs.Keys
    ensures GaveUpTo(devs, obs, next[list[i] := n], given, now[list[i] := after], list, ptrs + [p], i + 1, sectors, cached, dataType)
  {
    hide GaveOut;
    KeysSame(obs, next, list[i], n);
    KeysSame(obs, now, list[i], after);
    FreshOfList(list, i);
    GaveOthers(obs, next, list, i, n);
    GaveOthers(given, now, list, i, after);
    var next2, now2, ptrs2 := next[list[i] := n], now[list[i] := after], ptrs + [p];
    forall j | 0 <= j < i + 1
      ensures GaveOut(devs, obs[list[j]], next2[list[j]], given[list[j]], now2[list[j]], ptrs2[j], sectors, cached, dataType)
    {
      if j < i { assert list[j] != list[i] && ptrs2[j] == ptrs[j]; }
    }
  }

  lemma KeysSame<A, B>(a: map<nat, A>, b: map<nat, B>, s: nat, v: B)
    requires a.Keys == b.Keys && s in a
    ensures b[s := v].Keys == a.Keys
  {
    assert s in a.Keys;
  }

  lemma GaveOthers<A>(a: map<nat, A>, b: map<nat, A>, list: seq<nat>, i: nat, v: A)
    requires i < |list| && a.Keys == b.Keys && forall s :: s in a && s !in list[..i] ==> b[s] == a[s]
    ensures forall s :: s in a && s !in list[..i + 1] ==> s in b && b[list[i] := v][s] == a[s]
  {
    assert list[..i + 1] == list[..i] + [list[i]];
    assert forall s :: s in a <==> s in a.Keys;
  }

  lemma GaveAll(devs: seq<Dev>, obs: map<nat, Ob>, next: map<nat, Ob>, given: map<nat, seq<Extent>>, now: map<nat, seq<Extent>>,
                list: seq<nat>, ptrs: seq<Ptr>, sectors: nat, cached: bool, dataType: DataType)
    requires obs.Keys == next.Keys == given.Keys == now.Keys && |ptrs| == |list| && forall a :: 0 <= a < |list| ==> list[a] in obs
    requires GaveUpTo(devs, obs, next, given, now, list, ptrs, |list|, sectors, cached, dataType)
    ensures forall s :: s in obs && s !in list ==> s in next && s in now && s in given && next[s] == obs[s] && now[s] == given[s]
    ensures forall j :: 0 <= j < |list| ==>
              list[j] in next && list[j] in now && list[j] in given
              && GaveOut(devs, obs[list[j]], next[list[j]], given[list[j]], now[list[j]], ptrs[j], sectors, cached, dataType)
  {
    hide GaveOut;
    assert list[..|list|] == list;
    assert forall s :: s in obs <==> s in obs.Keys;
  }

  lemma GivenKeys(devs: seq<Dev>, obs: map<nat, Ob>, given: map<nat, seq<Extent>>)
    requires GivenOk(devs, obs, given)
    ensures obs.Keys == given.Keys
  {
  }

  /** One bucket gives out sectors. */
  method GiveStep(table: Table, devs: seq<Dev>, ghost obs: map<nat, Ob>, ghost given: map<nat, seq<Extent>>, s: nat,
                  sectors: nat, cached: bool, dataType: DataType)
    returns (p: Ptr)
    requires Synced(table, devs, obs)
    requires GivenOk(devs, obs, given) && s in obs && s in given && sectors <= obs[s].sectorsFree
    modifies table
    ensures var n, after := obs[s].(sectorsFree := obs[s].sectorsFree - sectors), given[s] + [Extent(p.offset, sectors)];
            Synced(table, devs, obs[s := n]) && GivenOk(devs, obs[s := n], given[s := after]) && GaveOut(devs, obs[s], n, given[s], after, p, sectors, cached, dataType)
  {
    hide SlotOk, GaveOut, Synced;
    GiveOne(devs, obs[s], given[s], sectors, cached, dataType);
    SyncedAt(table, devs, obs, s);
    p := PtrOf(devs, ObOf(table.slots[s]), cached, dataType);
    TakeSectors(table, devs, obs, s, sectors);
  }

  method TakeSectors(table: Table, devs: seq<Dev>, ghost obs: map<nat, Ob>, s: nat, sectors: nat)
    requires Synced(table, devs, obs) && s in obs && sectors <= obs[s].sectorsFree
    modifies table
    ensures Synced(table, devs, obs[s := obs[s].(sectorsFree := obs[s].sectorsFree - sectors)])
  {
    hide FreeListOk, ChainsOk, CountsOk, Distinct, View;
    SyncedAt(table, devs, obs, s);
    ghost var was := table.slots;
    table.Take(s, sectors);
    ViewChanged(was, s, table.slots[s]);
  }

  lemma GaveOutAll(devs: seq<Dev>, obs: map<nat, Ob>, next: map<nat, Ob>, given: map<nat, seq<Extent>>, now: map<nat, seq<Extent>>,
                   list: seq<nat>, ptrs: seq<Ptr>, sectors: nat, cached: bool, dataType: DataType)
    requires |ptrs| == |list| && forall j :: 0 <= j < |list| ==>
               list[j] in obs && list[j] in next && list[j] in given && list[j] in now
               && GaveOut(devs, obs[list[j]], next[list[j]], given[list[j]], now[list[j]], ptrs[j], sectors, cached, dataType)
    ensures forall s :: s in list ==> s in obs && s in next && sectors <= obs[s].sectorsFree
                                      && next[s] == obs[s].(sectorsFree := obs[s].sectorsFree - sectors)
  {
  }

  /** bch2_ob_ptr: the first free sector of the bucket. */
  function PtrOf(devs: seq<Dev>, o: Ob, cached: bool, dataType: DataType): Ptr
    requires o.dev < |devs| && o.sectorsFree <= devs[o.dev].bucketSize
  {
    Ptr(o.dev, BucketStart(devs, o) + devs[o.dev].bucketSize - o.sectorsFree, o.gen,
        cached || (devs[o.dev].durability == 0 && dataType == User))
  }

  /** One bucket before and after giving out sectors, and the pointer made for them. */
  ghost predicate GaveOut(devs: seq<Dev>, o: Ob, n: Ob, before: seq<Extent>, after: seq<Extent>, p: Ptr, sectors: nat, cached: bool,
                          dataType: DataType)
  {
    && o.dev < |devs| && sectors <= o.sectorsFree <= devs[o.dev].bucketSize
    && n == o.(sectorsFree := o.sectorsFree - sectors)
    && p == PtrOf(devs, o, cached, dataType) && after == before + [Extent(p.offset, sectors)]
  }

  lemma GiveOne(devs: seq<Dev>, o: Ob, runs: seq<Extent>, sectors: nat, cached: bool, dataType: DataType)
    requires SlotOk(devs, o, runs) && sectors <= o.sectorsFree
    ensures o.dev < |devs| && o.sectorsFree <= devs[o.dev].bucketSize
    ensures var p := PtrOf(devs, o, cached, dataType);
            var n, after := o.(sectorsFree := o.sectorsFree - sectors), runs + [Extent(p.offset, sectors)];
            SlotOk(devs, n, after) && GaveOut(devs, o, n, runs, after, p, sectors, cached, dataType)
  {
    hide BucketStart, Consecutive;
    SameStart(devs, o, o.sectorsFree - sectors);
    ConsecutiveMore(runs, BucketStart(devs, o), BucketStart(devs, o) + devs[o.dev].bucketSize - o.sectorsFree, sectors);
  }

  lemma SameStart(devs: seq<Dev>, o: Ob, left: nat)
    requires o.dev < |devs|
    ensures BucketStart(devs, o.(sectorsFree := left)) == BucketStart(devs, o)
  {
  }

  lemma FreshOfList(list: seq<nat>, i: nat)
    requires i < |list| && forall a, b :: 0 <= a < b < |list| ==> list[a] != list[b]
    ensures list[i] !in list[..i] && forall j :: 0 <= j < i ==> list[j] != list[i]
  {
  }

  /** The buckets of a locked write point: all different, all open, with room for what it may give. */
  lemma {:induction false} WriterKnown(obs: map<nat, Ob>, block: nat, wps: seq<WritePoint>, partial: seq<nat>, refs: multiset<nat>,
                                       w: nat)
    requires OwnersOk(obs, Owned(wps, partial), refs) && RoomOk(obs, block, wps, partial) && w < |wps|
    ensures forall a, b :: 0 <= a < b < |wps[w].ptrs| ==> wps[w].ptrs[a] != wps[w].ptrs[b]
    ensures forall a :: 0 <= a < |wps[w].ptrs| ==>
              wps[w].ptrs[a] in obs && (wps[w].locked ==> wps[w].sectorsFree <= obs[wps[w].ptrs[a]].sectorsFree)
  {
    WpBagHas(wps, w);
    assert WpOk(obs, block, wps[w]);
    var list := wps[w].ptrs;
    forall a, b | 0 <= a < b < |list|
      ensures list[a] != list[b]
    {
      assert Owned(wps, partial)[list[a]] <= 1;
      if list[a] == list[b] { TwiceInBag(list, a, b); }
    }
  }

  lemma TwiceInBag(list: seq<nat>, a: nat, b: nat)
    requires a < b < |list| && list[a] == list[b]
    ensures multiset(list)[list[a]] >= 2
  {
    var m := list[..b];
    assert list == m + [list[b]] + list[b + 1..];
    assert m[a] == list[a] && list[a] in multiset(m);
  }

  lemma {:induction false} AppendKeeps(devs: seq<Dev>, block: nat, obs: map<nat, Ob>, next: map<nat, Ob>, wps: seq<WritePoint>,
                                       partial: seq<nat>, refs: multiset<nat>, w: nat, sectors: nat)
    requires OwnersOk(obs, Owned(wps, partial), refs) && RoomOk(obs, block, wps, partial)
    requires w < |wps| && wps[w].locked && sectors <= wps[w].sectorsFree && next.Keys == obs.Keys
    requires forall s :: s in obs && s !in wps[w].ptrs ==> next[s] == obs[s]
    requires forall s :: s in wps[w].ptrs ==>
               s in obs && sectors <= obs[s].sectorsFree && next[s] == obs[s].(sectorsFree := obs[s].sectorsFree - sectors)
    ensures var n := wps[w := wps[w].(sectorsFree := wps[w].sectorsFree - sectors)];
            OwnersOk(next, Owned(n, partial), refs) && RoomOk(next, block, n, partial)
  {
    hide Owned, OwnersOk, RoomOk;
    var k := wps[w].(sectorsFree := wps[w].sectorsFree - sectors);
    OwnedMoves(wps, partial, w, k, partial, multiset{});
    assert Owned(wps, partial) + multiset{} == Owned(wps, partial);
    SameOwners(obs, next, Owned(wps, partial), refs);
    AppendRoom(block, obs, next, wps, partial, refs, w, sectors);
  }

  lemma SameOwners(obs: map<nat, Ob>, next: map<nat, Ob>, all: multiset<nat>, refs: multiset<nat>)
    requires OwnersOk(obs, all, refs) && next.Keys == obs.Keys
    requires forall s :: s in obs ==> s in next && next[s].pin == obs[s].pin
    ensures OwnersOk(next, all, refs)
  {
    forall s
      ensures PinOf(next, s) == PinOf(obs, s)
    {
      assert s in next <==> s in next.Keys;
    }
  }

  lemma {:induction false} AppendRoom(block: nat, obs: map<nat, Ob>, next: map<nat, Ob>, wps: seq<WritePoint>, partial: seq<nat>,
                                      refs: multiset<nat>, w: nat, sectors: nat)
    requires OwnersOk(obs, Owned(wps, partial), refs) && RoomOk(obs, block, wps, partial)
    requires w < |wps| && wps[w].locked && sectors <= wps[w].sectorsFree && next.Keys == obs.Keys
    requires forall s :: s in obs && s !in wps[w].ptrs ==> s in next && next[s] == obs[s]
    requires forall s :: s in wps[w].ptrs ==> s in obs && s in next && next[s].sectorsFree == obs[s].sectorsFree - sectors
    ensures RoomOk(next, block, wps[w := wps[w].(sectorsFree := wps[w].sectorsFree - sectors)], partial)
  {
    hide Owned, OwnersOk;
    var n := wps[w := wps[w].(sectorsFree := wps[w].sectorsFree - sectors)];
    forall v | 0 <= v < |n|
      ensures WpOk(next, block, n[v])
    {
      assert WpOk(obs, block, wps[v]);
      OwnersApart(obs, wps, partial, refs, v, w);
    }
    OwnersApart(obs, wps, partial, refs, w, w);
  }

  /** No bucket is in two write points, or in one and the partial list. */
  lemma {:induction false} OwnersApart(obs: map<nat, Ob>, wps: seq<WritePoint>, partial: seq<nat>, refs: multiset<nat>, v: nat, w: nat)
    requires OwnersOk(obs, Owned(wps, partial), refs) && v < |wps| && w < |wps|
    ensures v != w ==> forall s :: s in wps[v].ptrs ==> s !in wps[w].ptrs
    ensures forall s :: s in partial ==> s !in wps[w].ptrs
  {
    WpBagHas(wps, w);
    if v < w { TwoWps(wps, v, w); } else if w < v { TwoWps(wps, w, v); }
    forall s | s in wps[w].ptrs
      ensures s !in partial && (v != w ==> s !in wps[v].ptrs)
    {
      assert s in multiset(wps[w].ptrs) && Owned(wps, partial)[s] <= 1;
      assert s in partial <==> s in multiset(partial);
      assert s in wps[v].ptrs <==> s in multiset(wps[v].ptrs);
    }
  }

  lemma {:induction false} TwoWps(wps: seq<WritePoint>, v: nat, w: nat)
    requires v < w < |wps|
    ensures multiset(wps[v].ptrs) + multiset(wps[w].ptrs) <= WpBag(wps)
  {
    var k := |wps| - 1;
    if w == k { WpBagHas(wps[..k], v); } else { TwoWps(wps[..k], v, w); }
  }

  lemma {:induction false} NoPtrs(wps: seq<WritePoint>)
    requires forall w :: 0 <= w < |wps| ==> wps[w].ptrs == []
    ensures WpBag(wps) == multiset{}
  {
    if wps != [] { NoPtrs(wps[..|wps| - 1]); }
  }

  /** Newly opened buckets have given out nothing. */
  ghost function Opened0(given: map<nat, seq<Extent>>, obs: map<nat, Ob>): map<nat, seq<Extent>>
  {
    map s | s in obs :: if s in given then given[s] else []
  }

  /** What a write point may rely on when a request starts. */
  lemma {:induction false} StartKnown(devs: seq<Dev>, block: nat, obs: map<nat, Ob>, wps: seq<WritePoint>, partial: seq<nat>,
                                      refs: multiset<nat>, given: map<nat, seq<Extent>>, w: nat)
    requires DevsOk(devs, block) && OwnersOk(obs, Owned(wps, partial), refs) && GivenOk(devs, obs, given)
    requires RoomOk(obs, block, wps, partial) && w < |wps| && !wps[w].locked
    ensures Known(devs, obs, partial) && Known(devs, obs, wps[w].ptrs)
    ensures Roomy(obs, block, Bag([], wps[w].ptrs, partial))
    ensures 0 < block <= UINT_MAX && forall d :: 0 <= d < |devs| ==> block <= devs[d].bucketSize
  {
    hide OwnersOk, Owned, GivenOk;
    assert WpOk(obs, block, wps[w]);
    var list := wps[w].ptrs;
    forall i | 0 <= i < |list|
      ensures obs[list[i]].dev < |devs|
    {
      SlotDev(devs, obs, given, list[i]);
    }
    forall i | 0 <= i < |partial|
      ensures obs[partial[i]].dev < |devs|
    {
      SlotDev(devs, obs, given, partial[i]);
    }
    forall s | s in Bag([], list, partial)
      ensures s in obs && block <= obs[s].sectorsFree
    {
      assert s in list || s in partial;
    }
  }

  lemma SlotDev(devs: seq<Dev>, obs: map<nat, Ob>, given: map<nat, seq<Extent>>, s: nat)
    requires GivenOk(devs, obs, given) && s in obs
    ensures obs[s].dev < |devs|
  {
    assert SlotOk(devs, obs[s], given[s]);
  }

  lemma {:induction false} StartKeeps(devs: seq<Dev>, block: nat, obs: map<nat, Ob>, wps: seq<WritePoint>, partial: seq<nat>,
                                      refs: multiset<nat>, given: map<nat, seq<Extent>>, w: nat,
                                      more: map<nat, Ob>, rest: seq<nat>, n: WritePoint)
    requires OwnersOk(obs, Owned(wps, partial), refs) && GivenOk(devs, obs, given) && RoomOk(obs, block, wps, partial) && w < |wps|
    requires Extends(devs, obs, more) && Roomy(more, block, multiset(n.ptrs) + multiset(rest))
    requires multiset(n.ptrs) + multiset(rest) == Bag([], wps[w].ptrs, partial) + Since(obs, more)
    requires n.locked ==> forall i :: 0 <= i < |n.ptrs| ==> n.ptrs[i] in more && n.sectorsFree <= more[n.ptrs[i]].sectorsFree
    ensures OwnersOk(more, Owned(wps[w := n], rest), refs) && GivenOk(devs, more, Opened0(given, more))
    ensures RoomOk(more, block, wps[w := n], rest)
    ensures Owned(wps[w := n], rest) == Owned(wps, partial) + Since(obs, more)
  {
    OwnedMoves(wps, partial, w, n, rest, Since(obs, more));
    MoreOwners(devs, obs, more, Owned(wps, partial), refs);
    GivenMore(devs, obs, given, more);
    RoomMoves(devs, block, obs, wps, partial, w, more, rest, n);
  }

  lemma {:induction false} OwnedMoves(wps: seq<WritePoint>, partial: seq<nat>, w: nat, n: WritePoint, rest: seq<nat>,
                                      fresh0: multiset<nat>)
    requires w < |wps| && multiset(n.ptrs) + multiset(rest) == Bag([], wps[w].ptrs, partial) + fresh0
    ensures Owned(wps[w := n], rest) == Owned(wps, partial) + fresh0
  {
    WpBagUpdate(wps, w, n);
    var a, b := WpBag(wps[w := n]), WpBag(wps);
    Cancel(a, b, multiset(wps[w].ptrs), multiset(n.ptrs), multiset(rest), multiset(partial), fresh0);
  }

  lemma Cancel(a: multiset<nat>, b: multiset<nat>, x: multiset<nat>, y: multiset<nat>, r: multiset<nat>, p: multiset<nat>,
               f: multiset<nat>)
    requires a + x == b + y && y + r == x + p + f
    ensures a + r == b + p + f
  {
    forall s
      ensures (a + r)[s] == (b + p + f)[s]
    {
      assert (a + x)[s] == (b + y)[s] && (y + r)[s] == (x + p + f)[s];
    }
  }

  lemma {:induction false} MoreOwners(devs: seq<Dev>, obs: map<nat, Ob>, more: map<nat, Ob>, all: multiset<nat>, refs: multiset<nat>)
    requires OwnersOk(obs, all, refs) && Extends(devs, obs, more)
    ensures OwnersOk(more, all + Since(obs, more), refs)
  {
    var keys := more.Keys - obs.Keys;
    forall s
      ensures (all + Since(obs, more))[s] <= 1 && PinOf(more, s) == (all + Since(obs, more))[s] + refs[s]
    {
      assert multiset(keys)[s] == if s in keys then 1 else 0;
      assert PinOf(obs, s) == all[s] + refs[s];
    }
  }

  lemma {:induction false} GivenMore(devs: seq<Dev>, obs: map<nat, Ob>, given: map<nat, seq<Extent>>, more: map<nat, Ob>)
    requires GivenOk(devs, obs, given) && Extends(devs, obs, more)
    ensures GivenOk(devs, more, Opened0(given, more))
  {
    var next := Opened0(given, more);
    forall s | s in more
      ensures SlotOk(devs, more[s], next[s])
    {
      if s in obs { assert SlotOk(devs, obs[s], given[s]); }
    }
  }

  lemma {:induction false} RoomMoves(devs: seq<Dev>, block: nat, obs: map<nat, Ob>, wps: seq<WritePoint>, partial: seq<nat>, w: nat,
                                     more: map<nat, Ob>, rest: seq<nat>, n: WritePoint)
    requires RoomOk(obs, block, wps, partial) && w < |wps| && Extends(devs, obs, more)
    requires Roomy(more, block, multiset(n.ptrs) + multiset(rest))
    requires n.locked ==> forall i :: 0 <= i < |n.ptrs| ==> n.ptrs[i] in more && n.sectorsFree <= more[n.ptrs[i]].sectorsFree
    ensures RoomOk(more, block, wps[w := n], rest)
  {
    RoomyList(more, block, n.ptrs, rest);
    RoomyList(more, block, rest, n.ptrs);
    var next := wps[w := n];
    forall v | 0 <= v < |next|
      ensures WpOk(more, block, next[v])
    {
      if v != w { assert WpOk(obs, block, wps[v]); }
    }
  }
}
