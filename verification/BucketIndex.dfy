/**
 Derived data kept in step with the alloc keys of a device by bch2_trigger_alloc:
 the freespace and need_discard btrees, the bucket_gens btree, and the per-type
 counters of buckets, sectors and fragmented sectors. Btrees are sets and maps.
 */
module BucketIndex {

  import BucketGens

  const GENS_PER_KEY: nat := 256
  const GENBITS_UNIT: nat := 0x100_0000_0000_0000

  type u8 = x: nat | x < 256

  datatype DataType =
    | Free | Sb | Journal | Btree | User | Cached | Parity | Stripe | NeedGcGens | NeedDiscard | Unstriped

  /** bch_alloc_v4, without the fields the trigger's indexes do not depend on. */
  datatype Alloc = Alloc(dataType: DataType, gen: u8, oldestGen: u8, stripe: nat,
                         stripeSectors: nat, dirtySectors: nat, cachedSectors: nat,
                         needDiscard: bool, needIncGen: bool)

  /** A bucket without an alloc key. */
  const HOLE := Alloc(Free, 0, 0, 0, 0, 0, 0, false, false)

  /** data_type_is_empty. */
  predicate IsEmpty(t: DataType) { t == Free || t == NeedGcGens || t == NeedDiscard }

  /** alloc_gc_gen. */
  function GcGen(a: Alloc): u8 { BucketGens.GcGenOf(a.gen, a.oldestGen) }

  /** One more, as 8 bits. */
  function Inc8(x: u8): u8 { if x == 255 then 0 else x + 1 }

  /** bucket_data_type. */
  function BucketDataType(t: DataType): DataType { if t == Cached || t == Stripe then User else t }

  function SectorsDirty(a: Alloc): nat { a.stripeSectors + a.dirtySectors }

  /** bch2_bucket_sectors. */
  function Sectors(a: Alloc): nat { if a.dataType == Cached then a.cachedSectors else SectorsDirty(a) }

  /** bch2_bucket_sectors_fragmented. */
  function Fragmented(bucketSize: nat, a: Alloc): nat
  {
    var d := Sectors(a);
    if d == 0 || d >= bucketSize then 0 else bucketSize - d
  }

  /** bch2_bucket_sectors_unstriped. */
  function SectorsUnstriped(a: Alloc): nat { if a.dataType == Stripe then a.dirtySectors else 0 }

  /** alloc_data_type. */
  function AllocDataType(a: Alloc, t: DataType): DataType
  {
    if a.stripe != 0 then (if t == Parity then t else Stripe)
    else if SectorsDirty(a) != 0 then BucketDataType(t)
    else if a.cachedSectors != 0 then Cached
    else if a.needDiscard then NeedDiscard
    else if GcGen(a) >= BucketGens.BUCKET_GC_GEN_MAX then NeedGcGens
    else Free
  }

  /** alloc_freespace_genbits, in units of 2^56. */
  function Genbits(a: Alloc): nat { GcGen(a) / 16 }

  /** alloc_freespace_pos. */
  function FreespacePos(b: nat, a: Alloc): nat { b + Genbits(a) * GENBITS_UNIT }

  /** A freespace position tells its bucket: distinct buckets never share one. */
  lemma FreespaceBucket(b: nat, a: Alloc)
    requires b < GENBITS_UNIT
    ensures FreespacePos(b, a) % GENBITS_UNIT == b
  {
  }

  // ---- what the derived data should be ----

  /** x is the freespace position of a free bucket. */
  ghost predicate IsFreePos(allocs: seq<Alloc>, first: nat, x: nat)
  {
    var b := x % GENBITS_UNIT;
    first <= b < |allocs| && allocs[b].dataType == Free && x == FreespacePos(b, allocs[b])
  }

  ghost predicate FreespaceOk(allocs: seq<Alloc>, first: nat, freespace: set<nat>)
  {
    forall x: nat :: x in freespace <==> IsFreePos(allocs, first, x)
  }

  ghost predicate DiscardOk(allocs: seq<Alloc>, first: nat, needDiscard: set<nat>)
  {
    forall b: nat :: b in needDiscard <==> first <= b < |allocs| && allocs[b].dataType == NeedDiscard
  }

  /** The generation bucket_gens records for b: 256 buckets to a key, no key meaning all zero. */
  function RecordedGen(gens: map<nat, seq<u8>>, b: nat): u8
  {
    var key, i := b / GENS_PER_KEY, b % GENS_PER_KEY;
    if key in gens && i < |gens[key]| then gens[key][i] else 0
  }

  datatype Usage = Usage(buckets: int, sectors: int, fragmented: int)
  {
    function Plus(d: Usage): Usage
    {
      Usage(buckets + d.buckets, sectors + d.sectors, fragmented + d.fragmented)
    }

    function Minus(d: Usage): Usage
    {
      Usage(buckets - d.buckets, sectors - d.sectors, fragmented - d.fragmented)
    }
  }

  const ZERO := Usage(0, 0, 0)

  /** What one bucket adds to the counters of its type. */
  ghost function OwnShare(bucketSize: nat, a: Alloc, t: DataType): Usage
  {
    if a.dataType == t then Usage(1, Sectors(a), Fragmented(bucketSize, a)) else ZERO
  }

  ghost function UnstripedShare(a: Alloc, t: DataType): Usage
  {
    var n := SectorsUnstriped(a);
    if t == Unstriped && n != 0 then Usage(1, n, 0) else ZERO
  }

  /** What one bucket adds to the counters of type t. */
  ghost function Share(bucketSize: nat, a: Alloc, t: DataType): Usage
  {
    OwnShare(bucketSize, a, t).Plus(UnstripedShare(a, t))
  }

  ghost function TotalShare(bucketSize: nat, allocs: seq<Alloc>, t: DataType): Usage
  {
    if allocs == [] then ZERO
    else TotalShare(bucketSize, allocs[..|allocs| - 1], t).Plus(Share(bucketSize, allocs[|allocs| - 1], t))
  }

  lemma {:induction false} ShareReplaced(bucketSize: nat, allocs: seq<Alloc>, b: nat, a: Alloc, t: DataType)
    requires b < |allocs|
    ensures TotalShare(bucketSize, allocs[b := a], t)
            == TotalShare(bucketSize, allocs, t).Plus(Share(bucketSize, a, t).Minus(Share(bucketSize, allocs[b], t)))
  {
    hide Share;
    var n := |allocs| - 1;
    if b == n {
      assert allocs[b := a][..n] == allocs[..n];
    } else {
      assert allocs[b := a][..n] == allocs[..n][b := a];
      ShareReplaced(bucketSize, allocs[..n], b, a, t);
    }
  }

  /** A bucket that is free and holds nothing. */
  ghost predicate FreeAndBare(a: Alloc) { a.dataType == Free && a.stripeSectors == 0 && a.dirtySectors == 0 }

  lemma {:induction false} FreeShares(bucketSize: nat, allocs: seq<Alloc>, t: DataType)
    requires forall i :: 0 <= i < |allocs| ==> FreeAndBare(allocs[i])
    ensures IsUsage(TotalShare(bucketSize, allocs, t), if t == Free then |allocs| else 0)
  {
    hide Share, FreeAndBare, TotalShare, IsUsage;
    if allocs == [] {
      NoShare(bucketSize, t);
    } else {
      var n := |allocs| - 1;
      FreeShares(bucketSize, allocs[..n], t);
      FreeShare(bucketSize, allocs[n], t);
      TotalStep(bucketSize, allocs, t);
      UsagePlus(TotalShare(bucketSize, allocs[..n], t), Share(bucketSize, allocs[n], t), if t == Free then n else 0,
                if t == Free then 1 else 0);
    }
  }

  /** So many buckets, and nothing in them. */
  ghost predicate IsUsage(u: Usage, buckets: int) { u.buckets == buckets && u.sectors == 0 && u.fragmented == 0 }

  lemma NoShare(bucketSize: nat, t: DataType)
    ensures IsUsage(TotalShare(bucketSize, [], t), 0)
  {
  }

  lemma TotalStep(bucketSize: nat, allocs: seq<Alloc>, t: DataType)
    requires allocs != []
    ensures TotalShare(bucketSize, allocs, t)
            == TotalShare(bucketSize, allocs[..|allocs| - 1], t).Plus(Share(bucketSize, allocs[|allocs| - 1], t))
  {
    hide Share;
  }

  lemma UsagePlus(u: Usage, v: Usage, m: int, n: int)
    requires IsUsage(u, m) && IsUsage(v, n)
    ensures IsUsage(u.Plus(v), m + n)
  {
  }

  lemma FreeShare(bucketSize: nat, a: Alloc, t: DataType)
    requires FreeAndBare(a)
    ensures IsUsage(Share(bucketSize, a, t), if t == Free then 1 else 0)
  {
    hide IsUsage, OwnShare, UnstripedShare, FreeAndBare;
    FreeOwn(bucketSize, a, t);
    FreeUnstriped(a, t);
    UsagePlus(OwnShare(bucketSize, a, t), UnstripedShare(a, t), if t == Free then 1 else 0, 0);
  }

  lemma FreeOwn(bucketSize: nat, a: Alloc, t: DataType)
    requires FreeAndBare(a)
    ensures IsUsage(OwnShare(bucketSize, a, t), if t == Free then 1 else 0)
  {
  }

  lemma FreeUnstriped(a: Alloc, t: DataType)
    requires FreeAndBare(a)
    ensures IsUsage(UnstripedShare(a, t), 0)
  {
  }

  lemma ShareMoved(bucketSize: nat, allocs: seq<Alloc>, first: nat, b: nat, a: Alloc, t: DataType)
    requires first <= b < |allocs|
    ensures TotalShare(bucketSize, allocs[b := a][first..], t)
            == TotalShare(bucketSize, allocs[first..], t).Plus(Share(bucketSize, a, t).Minus(Share(bucketSize, allocs[b], t)))
  {
    hide Share, TotalShare;
    assert allocs[b := a][first..] == allocs[first..][b - first := a];
    ShareReplaced(bucketSize, allocs[first..], b - first, a, t);
  }

  function Counter(counters: map<DataType, Usage>, t: DataType): Usage
  {
    if t in counters then counters[t] else ZERO
  }

  ghost predicate GensOk(allocs: seq<Alloc>, first: nat, gens: map<nat, seq<u8>>)
  {
    && (forall key :: key in gens ==> |gens[key]| == GENS_PER_KEY)
    && forall b: nat :: first <= b < |allocs| ==> RecordedGen(gens, b) == allocs[b].gen
  }

  ghost predicate CountersOk(bucketSize: nat, allocs: seq<Alloc>, first: nat, counters: map<DataType, Usage>)
    requires first <= |allocs|
  {
    forall t: DataType :: Counter(counters, t) == TotalShare(bucketSize, allocs[first..], t)
  }

  // ---- the trigger ----

  /** The alloc key as the transactional trigger leaves it. */
  function Triggered(o: Alloc, n: Alloc, open: bool): Alloc
  {
    var a := n.(dataType := AllocDataType(n, n.dataType));
    var a := if !IsEmpty(a.dataType) && IsEmpty(o.dataType) then a.(needIncGen := true, needDiscard := true) else a;
    if IsEmpty(a.dataType) && a.needIncGen && !open then
      var total := a.stripeSectors + a.dirtySectors + a.cachedSectors;
      var a := if a.oldestGen == a.gen && total == 0 then a.(oldestGen := Inc8(a.oldestGen)) else a;
      var a := a.(gen := Inc8(a.gen), needIncGen := false);
      a.(dataType := AllocDataType(a, a.dataType))
    else a
  }

  /** What alloc_data_type calls empty: no stripe, and no sectors unless the recorded type says that they do not count. */
  predicate HoldsNothing(n: Alloc)
  {
    n.stripe == 0 && if SectorsDirty(n) != 0 then IsEmpty(n.dataType) else n.cachedSectors == 0
  }

  /** The generation is due to be raised: asked for, with nothing in the bucket, and nobody has it open. */
  predicate Due(n: Alloc, open: bool) { n.needIncGen && !open && HoldsNothing(n) }

  /**
   The recorded type is the one the other fields call for. The generation is raised
   exactly when that is due; a bucket that gets its first data is marked for discard
   and for raising the generation later. No sectors are touched.
   */
  lemma TriggeredIs(o: Alloc, n: Alloc, open: bool)
    ensures var r := Triggered(o, n, open);
            && AllocDataType(r, r.dataType) == r.dataType && (IsEmpty(r.dataType) <==> HoldsNothing(n))
            && (r.gen != n.gen <==> Due(n, open)) && (Due(n, open) ==> r.gen == Inc8(n.gen))
            && (r.oldestGen != n.oldestGen <==> Due(n, open) && n.gen == n.oldestGen && SectorsDirty(n) == 0 && n.cachedSectors == 0)
            && (r.needIncGen <==> !Due(n, open) && (n.needIncGen || (!HoldsNothing(n) && IsEmpty(o.dataType))))
            && (r.needDiscard <==> n.needDiscard || (!HoldsNothing(n) && IsEmpty(o.dataType)))
            && r.stripeSectors == n.stripeSectors && r.dirtySectors == n.dirtySectors && r.cachedSectors == n.cachedSectors
  {
  }

  /**
   The trigger on 8-bit generations is the trigger on unbounded counters that
   BucketGens reasons about, seen through 8 bits.
   */
  lemma {:induction false} TriggerOnCounters(o: Alloc, n: Alloc, k: BucketGens.Bucket)
    requires n.gen == BucketGens.Low8(k.gen) && n.oldestGen == BucketGens.Low8(k.oldestGen)
    requires n.needIncGen == k.needIncGen && n.needDiscard == k.needDiscard
    requires HoldsNothing(n) ==> SectorsDirty(n) == 0 && n.cachedSectors == 0
    ensures var r, s := Triggered(o, n, k.open), BucketGens.Triggered(!IsEmpty(o.dataType), !HoldsNothing(n), k);
            && r.gen == BucketGens.Low8(s.gen) && r.oldestGen == BucketGens.Low8(s.oldestGen)
            && r.needIncGen == s.needIncGen && r.needDiscard == s.needDiscard && s.open == k.open
  {
    TriggeredIs(o, n, k.open);
    NextLow8(k.gen);
    NextLow8(k.oldestGen);
    hide BucketGens.Low8;
  }

  lemma NextLow8(x: nat)
    ensures BucketGens.Low8(x + 1) == Inc8(BucketGens.Low8(x))
  {
  }

  class Device {
    const bucketSize: nat
    const first: nat
    /** The alloc keys; buckets below `first` do not exist. */
    var allocs: seq<Alloc>
    var freespace: set<nat>
    var needDiscard: set<nat>
    var gens: map<nat, seq<u8>>
    var counters: map<DataType, Usage>

    /** Everything derived is what recomputing it from the alloc keys gives. */
    ghost predicate Consistent()
      reads this
    {
      && first <= |allocs| < GENBITS_UNIT && GensOk(allocs, first, gens)
      && FreespaceOk(allocs, first, freespace) && DiscardOk(allocs, first, needDiscard)
      && CountersOk(bucketSize, allocs, first, counters)
    }

    /** A device without alloc keys: every bucket is free. */
    constructor (bucketSize: nat, first: nat, n: nat)
      requires first <= n < GENBITS_UNIT
      ensures Consistent() && this.bucketSize == bucketSize && this.first == first && allocs == AllocsOf(map[], n)
    {
      var free, discard := FreespaceInit(map[], first, n);
      this.bucketSize, this.first := bucketSize, first;
      allocs, freespace, needDiscard := AllocsOf(map[], n), free, discard;
      gens, counters := map[], map[Free := Usage(n - first, 0, 0)];
      new;
      forall t: DataType
        ensures Counter(counters, t) == TotalShare(bucketSize, allocs[first..], t)
      {
        FreeShares(bucketSize, allocs[first..], t);
      }
    }

    /** bch2_bucket_do_index. */
    method DoIndex(b: nat, a: Alloc, add: bool)
      modifies this`freespace, this`needDiscard
      ensures a.dataType == Free ==>
                freespace == (if add then old(freespace) + {FreespacePos(b, a)} else old(freespace) - {FreespacePos(b, a)})
      ensures a.dataType == NeedDiscard ==> needDiscard == (if add then old(needDiscard) + {b} else old(needDiscard) - {b})
      ensures a.dataType != Free ==> freespace == old(freespace)
      ensures a.dataType != NeedDiscard ==> needDiscard == old(needDiscard)
    {
      if a.dataType == Free {
        freespace := if add then freespace + {FreespacePos(b, a)} else freespace - {FreespacePos(b, a)};
      } else if a.dataType == NeedDiscard {
        needDiscard := if add then needDiscard + {b} else needDiscard - {b};
      }
    }

    /** The index part of the trigger. */
    method Reindex(b: nat, o: Alloc, a: Alloc)
      requires first <= b < |allocs| < GENBITS_UNIT && allocs[b] == o
      requires FreespaceOk(allocs, first, freespace) && DiscardOk(allocs, first, needDiscard)
      modifies this`freespace, this`needDiscard
      ensures FreespaceOk(allocs[b := a], first, freespace) && DiscardOk(allocs[b := a], first, needDiscard)
    {
      FreespaceBucket(b, o);
      FreespaceBucket(b, a);
      ghost var f := freespace;
      if o.dataType != a.dataType || (a.dataType == Free && Genbits(o) != Genbits(a)) {
        DoIndex(b, o, false);
        DoIndex(b, a, true);
      }
      hide FreespacePos;
      forall x: nat
        ensures x in freespace <==> IsFreePos(allocs[b := a], first, x)
      {
        assert x in f <==> IsFreePos(allocs, first, x);
      }
    }

    /** bch2_bucket_gen_update. */
    method GenUpdate(b: nat, gen: u8)
      requires forall key :: key in gens ==> |gens[key]| == GENS_PER_KEY
      modifies this`gens
      ensures forall key :: key in gens ==> |gens[key]| == GENS_PER_KEY
      ensures forall c: nat :: RecordedGen(gens, c) == if c == b then gen else RecordedGen(old(gens), c)
    {
      var key, i := b / GENS_PER_KEY, b % GENS_PER_KEY;
      var g: seq<u8> := if key in gens then gens[key] else seq(GENS_PER_KEY, j => 0);
      gens := gens[key := g[i := gen]];
    }

    /** bch2_dev_data_type_accounting_mod. */
    method AccountingMod(t: DataType, d: Usage)
      modifies this`counters
      ensures forall u: DataType ::
                Counter(counters, u) == if u == t then Counter(old(counters), u).Plus(d) else Counter(old(counters), u)
    {
      counters := counters[t := Counter(counters, t).Plus(d)];
    }

    /** bch2_alloc_key_to_dev_counters. */
    method KeyToCounters(o: Alloc, n: Alloc)
      modifies this`counters
      ensures forall t: DataType ::
                Counter(counters, t) == Counter(old(counters), t).Plus(Share(bucketSize, n, t).Minus(Share(bucketSize, o, t)))
    {
      hide OwnShare, UnstripedShare, Counter;
      TypeCounters(o, n);
      UnstripedCounters(o, n);
    }

    /** Its part for sectors of a stripe's bucket that are not part of the stripe. */
    method UnstripedCounters(o: Alloc, n: Alloc)
      modifies this`counters
      ensures forall t: DataType ::
                Counter(counters, t) == Counter(old(counters), t).Plus(UnstripedShare(n, t).Minus(UnstripedShare(o, t)))
    {
      hide Counter;
      var ou, nu := SectorsUnstriped(o), SectorsUnstriped(n);
      if ou != nu {
        AccountingMod(Unstriped, Usage((if nu != 0 then 1 else 0) - (if ou != 0 then 1 else 0), nu as int - ou, 0));
      }
    }

    /** Its part for the bucket's own type: a bucket changes type, or its sectors change. */
    method TypeCounters(o: Alloc, n: Alloc)
      modifies this`counters
      ensures forall t: DataType ::
                Counter(counters, t)
                == Counter(old(counters), t).Plus(OwnShare(bucketSize, n, t).Minus(OwnShare(bucketSize, o, t)))
    {
      hide Counter;
      var os, ns := Sectors(o), Sectors(n);
      if o.dataType != n.dataType {
        AccountingMod(n.dataType, Usage(1, ns, Fragmented(bucketSize, n)));
        AccountingMod(o.dataType, Usage(-1, -(os as int), -(Fragmented(bucketSize, o) as int)));
      } else if os != ns {
        AccountingMod(n.dataType, Usage(0, ns as int - os, Fragmented(bucketSize, n) as int - Fragmented(bucketSize, o)));
      }
    }

    /** bch2_trigger_alloc: fails for a bucket the device does not have, and otherwise keeps everything in step. */
    method Trigger(b: nat, n: Alloc, open: bool) returns (ok: bool)
      requires Consistent()
      modifies this
      ensures Consistent() && (ok <==> first <= b < |old(allocs)|)
      ensures allocs == if ok then old(allocs)[b := Triggered(old(allocs)[b], n, open)] else old(allocs)
    {
      if !(first <= b < |allocs|) { return false; }
      hide GensOk, FreespaceOk, DiscardOk, CountersOk, Triggered;
      var o := allocs[b];
      var a := Triggered(o, n, open);
      Reindex(b, o, a);
      UpdateGens(b, o, a);
      UpdateCounters(b, o, a);
      allocs := allocs[b := a];
      return true;
    }

    method UpdateGens(b: nat, o: Alloc, a: Alloc)
      requires first <= b < |allocs| && allocs[b] == o && GensOk(allocs, first, gens)
      modifies this`gens
      ensures GensOk(allocs[b := a], first, gens)
    {
      hide RecordedGen;
      if o.gen != a.gen { GenUpdate(b, a.gen); }
    }

    method UpdateCounters(b: nat, o: Alloc, a: Alloc)
      requires first <= b < |allocs| && allocs[b] == o && CountersOk(bucketSize, allocs, first, counters)
      modifies this`counters
      ensures CountersOk(bucketSize, allocs[b := a], first, counters)
    {
      hide Share, TotalShare, Counter;
      ghost var was := counters;
      KeyToCounters(o, a);
      forall t: DataType
        ensures Counter(counters, t) == TotalShare(bucketSize, allocs[b := a][first..], t)
      {
        assert Counter(was, t) == TotalShare(bucketSize, allocs[first..], t);
        ShareMoved(bucketSize, allocs, first, b, a, t);
      }
    }

    /** Any sequence of updates leaves everything in step. */
    method Run(updates: seq<(nat, Alloc, bool)>)
      requires Consistent()
      modifies this
      ensures Consistent() && |allocs| == |old(allocs)|
    {
      hide Consistent;
      for i := 0 to |updates|
        invariant Consistent() && |allocs| == |old(allocs)|
      {
        var _ := Trigger(updates[i].0, updates[i].1, updates[i].2);
      }
    }
  }

  /** The alloc keys of buckets 0 to n, holes filled in. */
  function AllocsOf(keys: map<nat, Alloc>, n: nat): seq<Alloc>
  {
    seq(n, b requires 0 <= b => if b in keys then keys[b] else HOLE)
  }

  /** bch2_dev_freespace_init: keys one at a time, holes in one piece. */
  method FreespaceInit(keys: map<nat, Alloc>, first: nat, n: nat) returns (freespace: set<nat>, needDiscard: set<nat>)
    requires first <= n < GENBITS_UNIT
    ensures FreespaceOk(AllocsOf(keys, n), first, freespace) && DiscardOk(AllocsOf(keys, n), first, needDiscard)
  {
    hide FreespacePos, IsFreePos;
    ghost var allocs := AllocsOf(keys, n);
    freespace, needDiscard := {}, {};
    var b := first;
    NoneBelow(allocs, first);
    while b < n
      invariant first <= b <= n
      invariant FreespaceOk(allocs[..b], first, freespace) && DiscardOk(allocs[..b], first, needDiscard)
    {
      if b in keys {
        var a := keys[b];
        OneMore(allocs, first, b, freespace);
        if a.dataType == Free {
          freespace := freespace + {FreespacePos(b, a)};
        } else if a.dataType == NeedDiscard {
          needDiscard := needDiscard + {b};
        }
        b := b + 1;
      } else {
        var end := b;
        while end < n && end !in keys
          invariant b <= end <= n && FreespaceOk(allocs[..end], first, freespace) && DiscardOk(allocs[..end], first, needDiscard)
        {
          OneMore(allocs, first, end, freespace);
          HolePos(end);
          freespace := freespace + {end};
          end := end + 1;
        }
        b := end;
      }
    }
    assert allocs[..n] == allocs;
  }

  lemma NoneBelow(allocs: seq<Alloc>, first: nat)
    requires first <= |allocs|
    ensures FreespaceOk(allocs[..first], first, {}) && DiscardOk(allocs[..first], first, {})
  {
  }

  lemma HolePos(b: nat)
    ensures FreespacePos(b, HOLE) == b
  {
  }

  lemma OneMore(allocs: seq<Alloc>, first: nat, b: nat, freespace: set<nat>)
    requires first <= b < |allocs| < GENBITS_UNIT && FreespaceOk(allocs[..b], first, freespace)
    ensures FreespaceOk(allocs[..b + 1], first,
                        if allocs[b].dataType == Free then freespace + {FreespacePos(b, allocs[b])} else freespace)
  {
    FreespaceBucket(b, allocs[b]);
    hide FreespacePos;
    forall x: nat
      ensures IsFreePos(allocs[..b + 1], first, x)
              <==> IsFreePos(allocs[..b], first, x) || (allocs[b].dataType == Free && x == FreespacePos(b, allocs[b]))
    {
    }
  }
}
