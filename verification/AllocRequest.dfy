/**
 Choosing the open buckets for a write (bch2_alloc_sectors_start_trans and what it
 calls in libbcachefs/alloc_foreground.c), with erasure coding off. Buckets come from
 the write point, then from the list of partially filled ones, then from the
 devices. What a walk of a device's free space comes upon is given, walk by walk;
 buckets are opened through the table of open buckets.
 */
module AllocRequest {
  import opened OpenBuckets

  const OPEN_BUCKET_LIST_MAX: nat := 15

  datatype Dev = Dev(durability: nat, bucketSize: nat)

  /** What an open slot holds. */
  datatype Ob = Ob(dev: nat, bucket: nat, gen: nat, sectorsFree: nat, dataType: DataType, pin: nat)

  function ObOf(u: Slot): Ob { Ob(u.dev, u.bucket, u.gen, u.sectorsFree, u.dataType, u.pin) }

  /** The open buckets of a table, by slot. */
  function View(slots: seq<Slot>): map<nat, Ob>
  {
    map s: nat | s < |slots| && IsOpen(slots, s) :: ObOf(slots[s])
  }

  /** obs is what the table holds. */
  ghost predicate Synced(table: Table, devs: seq<Dev>, obs: map<nat, Ob>)
    reads table
  {
    table.Ok() && |table.devOpen| == |devs| && obs == View(table.slots)
  }

  lemma SyncedAt(table: Table, devs: seq<Dev>, obs: map<nat, Ob>, s: nat)
    requires Synced(table, devs, obs) && s in obs
    ensures table.Ok() && IsOpen(table.slots, s) && obs[s] == ObOf(table.slots[s]) && obs[s].pin > 0
  {
  }

  lemma ViewChanged(slots: seq<Slot>, s: nat, u: Slot)
    requires 0 < s < |slots| && u.pin > 0
    ensures View(slots[s := u]) == View(slots)[s := ObOf(u)]
  {
  }

  lemma ViewIs(table: Table, devs: seq<Dev>, obs: map<nat, Ob>)
    requires Synced(table, devs, obs)
    ensures View(table.slots) == obs
  {
  }

  lemma ViewNone(slots: seq<Slot>, s: nat)
    requires !IsOpen(slots, s)
    ensures s !in View(slots)
  {
  }

  /** No two slots hold the same bucket. */
  ghost predicate DistinctBuckets(obs: map<nat, Ob>)
  {
    forall s, t :: s in obs && t in obs && s != t ==> obs[s].dev != obs[t].dev || obs[s].bucket != obs[t].bucket
  }

  /** The table never opens a bucket twice. */
  lemma {:induction false} TableDistinct(table: Table, devs: seq<Dev>, obs: map<nat, Ob>)
    requires Synced(table, devs, obs)
    ensures DistinctBuckets(obs)
  {
    hide FreeListOk, ChainsOk, CountsOk;
    forall s, t | s in obs && t in obs && s != t
      ensures obs[s].dev != obs[t].dev || obs[s].bucket != obs[t].bucket
    {
      assert IsOpen(table.slots, s) && IsOpen(table.slots, t);
    }
  }

  datatype Err = InsufficientDevices | FreelistEmpty | OpenBucketsEmpty | NoBucketsFound | TransactionRestart

  datatype Result = Ok | Fail(err: Err)

  /**
   A free bucket a walk comes upon. ready: it waits for no journal flush, is not locked
   and its alloc key agrees; usable: no superblock is in it and it is not excluded.
   */
  datatype Candidate = Candidate(bucket: nat, gen: nat, ready: bool, usable: bool)

  /** A walk of a device's free space. avail: there are free buckets; restart: it ends with a transaction restart. */
  datatype Walk = Walk(avail: bool, candidates: seq<Candidate>, restart: bool)

  /** A bucket that is passed over: open already, or not fit for use. */
  ghost predicate Unfit(slots: seq<Slot>, d: nat, c: Candidate)
  {
    !c.ready || !c.usable || HeldBy(slots, d, c.bucket)
  }

  /** o is the first bucket of the walk that is not passed over. */
  ghost predicate IsFirst(slots: seq<Slot>, d: nat, cs: seq<Candidate>, o: Ob)
  {
    exists i :: 0 <= i < |cs| && !Unfit(slots, d, cs[i]) && o.bucket == cs[i].bucket && o.gen == cs[i].gen
                && forall j :: 0 <= j < i ==> Unfit(slots, d, cs[j])
  }

  /** What bch2_bucket_alloc_trans returns. */
  datatype Answer = Opened(slot: nat) | Refused(err: Err)

  /** Every slot of the list is an open bucket on a known device. */
  ghost predicate Known(devs: seq<Dev>, obs: map<nat, Ob>, list: seq<nat>)
  {
    forall i :: 0 <= i < |list| ==> list[i] in obs && obs[list[i]].dev < |devs|
  }

  function Durability(devs: seq<Dev>, obs: map<nat, Ob>, s: nat): nat
    requires s in obs && obs[s].dev < |devs|
  {
    devs[obs[s].dev].durability
  }

  ghost function SumDurability(devs: seq<Dev>, obs: map<nat, Ob>, list: seq<nat>): nat
    requires Known(devs, obs, list)
  {
    if list == [] then 0
    else SumDurability(devs, obs, list[..|list| - 1]) + Durability(devs, obs, list[|list| - 1])
  }

  /** Distinct devices, none that already has a replica. */
  ghost predicate Spread(devs: seq<Dev>, obs: map<nat, Ob>, have: set<nat>, list: seq<nat>)
    requires Known(devs, obs, list)
  {
    && (forall i :: 0 <= i < |list| ==> obs[list[i]].dev !in have)
    && forall i, j :: 0 <= i < j < |list| ==> obs[list[i]].dev != obs[list[j]].dev
  }

  /** At most one device without durability, and none for metadata. */
  ghost predicate OneCache(devs: seq<Dev>, obs: map<nat, Ob>, dataType: DataType, list: seq<nat>)
    requires Known(devs, obs, list)
  {
    && (forall i, j :: 0 <= i < j < |list| && Durability(devs, obs, list[i]) == 0 ==> Durability(devs, obs, list[j]) != 0)
    && (dataType != User ==> forall i :: 0 <= i < |list| ==> Durability(devs, obs, list[i]) != 0)
  }

  /** The replicas chosen so far, with the running totals kept about them. */
  ghost predicate ChosenOk(devs: seq<Dev>, obs: map<nat, Ob>, have: set<nat>, dataType: DataType, list: seq<nat>, effective: nat,
                           haveCache: bool)
  {
    && Known(devs, obs, list) && Spread(devs, obs, have, list) && OneCache(devs, obs, dataType, list)
    && effective == SumDurability(devs, obs, list)
    && (dataType != User ==> haveCache)
    && (!haveCache ==> forall i :: 0 <= i < |list| ==> Durability(devs, obs, list[i]) != 0)
  }

  lemma {:induction false} ChooseOne(devs: seq<Dev>, obs: map<nat, Ob>, have: set<nat>, dataType: DataType, list: seq<nat>,
                                     effective: nat, haveCache: bool, s: nat)
    requires ChosenOk(devs, obs, have, dataType, list, effective, haveCache)
    requires s in obs && obs[s].dev < |devs| && obs[s].dev !in have
    requires forall i :: 0 <= i < |list| ==> obs[list[i]].dev != obs[s].dev
    requires Durability(devs, obs, s) == 0 ==> !haveCache
    ensures var d := Durability(devs, obs, s);
            ChosenOk(devs, obs, have, dataType, list + [s], effective + d, haveCache || d == 0)
  {
    hide SumDurability;
    ChooseSum(devs, obs, list, s);
    ChooseSpread(devs, obs, have, list, s);
    hide Spread;
  }

  lemma {:induction false} ChooseSum(devs: seq<Dev>, obs: map<nat, Ob>, list: seq<nat>, s: nat)
    requires Known(devs, obs, list) && s in obs && obs[s].dev < |devs|
    ensures Known(devs, obs, list + [s])
    ensures SumDurability(devs, obs, list + [s]) == SumDurability(devs, obs, list) + Durability(devs, obs, s)
  {
    assert (list + [s])[..|list|] == list;
  }

  lemma {:induction false} ChooseSpread(devs: seq<Dev>, obs: map<nat, Ob>, have: set<nat>, list: seq<nat>, s: nat)
    requires Known(devs, obs, list) && Known(devs, obs, list + [s]) && Spread(devs, obs, have, list)
    requires s in obs && obs[s].dev !in have && forall i :: 0 <= i < |list| ==> obs[list[i]].dev != obs[s].dev
    ensures Spread(devs, obs, have, list + [s])
  {
    var t := list + [s];
    assert forall i :: 0 <= i < |list| ==> t[i] == list[i];
  }

  lemma {:induction false} SameSum(devs: seq<Dev>, obs: map<nat, Ob>, more: map<nat, Ob>, list: seq<nat>)
    requires Known(devs, obs, list) && Extends(devs, obs, more)
    ensures Known(devs, more, list) && SumDurability(devs, more, list) == SumDurability(devs, obs, list)
  {
    if list != [] { SameSum(devs, obs, more, list[..|list| - 1]); }
  }

  /** Opening further buckets does not disturb the choice. */
  lemma MoreObs(devs: seq<Dev>, obs: map<nat, Ob>, more: map<nat, Ob>, have: set<nat>, dataType: DataType, list: seq<nat>,
                effective: nat, haveCache: bool)
    requires ChosenOk(devs, obs, have, dataType, list, effective, haveCache)
    requires Extends(devs, obs, more)
    ensures ChosenOk(devs, more, have, dataType, list, effective, haveCache)
  {
    SameSum(devs, obs, more, list);
  }

  /** Buckets have been opened since, empty ones with one reference; nothing else changed. */
  ghost predicate Extends(devs: seq<Dev>, obs: map<nat, Ob>, more: map<nat, Ob>)
  {
    && (forall s :: s in obs ==> s in more && more[s] == obs[s])
    && forall s :: s in more && s !in obs ==> NewlyOpen(devs, more[s])
  }

  predicate NewlyOpen(devs: seq<Dev>, o: Ob)
  {
    o.dev < |devs| && o.sectorsFree == devs[o.dev].bucketSize && o.pin == 1
  }

  /** The slots opened between two states. */
  ghost function Since(obs: map<nat, Ob>, more: map<nat, Ob>): multiset<nat>
  {
    multiset(more.Keys - obs.Keys)
  }

  lemma SinceStep(devs: seq<Dev>, a: map<nat, Ob>, b: map<nat, Ob>, s: nat, o: Ob)
    requires Extends(devs, a, b) && s !in b && NewlyOpen(devs, o)
    ensures Extends(devs, a, b[s := o]) && Since(a, b[s := o]) == Since(a, b) + multiset{s}
  {
    var keys := b.Keys - a.Keys;
    assert b[s := o].Keys - a.Keys == keys + {s};
    BagOfSet(keys, s);
  }

  lemma BagOfSet(a: set<nat>, s: nat)
    requires s !in a
    ensures multiset(a + {s}) == multiset(a) + multiset{s}
  {
  }

  lemma BagOfSets(a: set<nat>, b: set<nat>)
    requires a !! b
    ensures multiset(a + b) == multiset(a) + multiset(b)
  {
  }

  lemma SinceJoin(devs: seq<Dev>, a: map<nat, Ob>, b: map<nat, Ob>, c: map<nat, Ob>)
    requires Extends(devs, a, b) && Extends(devs, b, c)
    ensures Extends(devs, a, c) && Since(a, c) == Since(a, b) + Since(b, c)
  {
    assert c.Keys - a.Keys == (b.Keys - a.Keys) + (c.Keys - b.Keys);
    BagOfSets(b.Keys - a.Keys, c.Keys - b.Keys);
  }

  /** Every usable device has a replica already, is used by the choice, or has no durability. */
  ghost predicate RanOut(devs: seq<Dev>, obs: map<nat, Ob>, have: set<nat>, list: seq<nat>, usable: set<nat>)
  {
    forall d :: d in usable && d < |devs| ==> d in have || devs[d].durability == 0 || UsesDevice(obs, list, d)
  }

  ghost predicate UsesDevice(obs: map<nat, Ob>, list: seq<nat>, d: nat)
  {
    exists i :: 0 <= i < |list| && list[i] in obs && obs[list[i]].dev == d
  }

  /** All slots a request has its hands on, with multiplicity. */
  ghost function Bag(a: seq<nat>, b: seq<nat>, c: seq<nat>): multiset<nat>
  {
    multiset(a) + multiset(b) + multiset(c)
  }

  lemma UsesMore(obs: map<nat, Ob>, list: seq<nat>, s: nat)
    requires s in obs
    ensures UsesDevice(obs, list + [s], obs[s].dev) && forall d :: UsesDevice(obs, list, d) ==> UsesDevice(obs, list + [s], d)
  {
    var r := list + [s];
    assert r[|list|] == s;
    forall d | UsesDevice(obs, list, d)
      ensures UsesDevice(obs, r, d)
    {
      var i :| 0 <= i < |list| && list[i] in obs && obs[list[i]].dev == d;
      assert r[i] == list[i];
    }
  }

  lemma TakeOne(list: seq<nat>, i: nat)
    requires i < |list|
    ensures multiset(list[..i + 1]) == multiset(list[..i]) + multiset{list[i]}
  {
    assert list[..i + 1] == list[..i] + [list[i]];
  }

  lemma TakeAll(list: seq<nat>)
    ensures list[..|list|] == list
  {
  }

  /** One more on the right, one more on either list on the left. */
  lemma PushOne(a: seq<nat>, b: seq<nat>, c: multiset<nat>, s: nat)
    requires multiset(a) + multiset(b) == c
    ensures multiset(a + [s]) + multiset(b) == c + multiset{s} && multiset(a) + multiset(b + [s]) == c + multiset{s}
  {
  }

  lemma Regroup(a: multiset<nat>, b: multiset<nat>, s: nat)
    ensures (a + b) + multiset{s} == a + (b + multiset{s})
  {
  }

  lemma BagOrder(a: seq<nat>, b: seq<nat>, c: seq<nat>)
    ensures Bag(a, b, c) == (multiset(a) + multiset(c)) + multiset(b)
  {
  }

  ghost predicate FreshDevices(devs: seq<Dev>, have: set<nat>, obs: map<nat, Ob>, list: seq<nat>, may: set<nat>, usable: set<nat>)
  {
    && (forall d :: d in may ==> d < |devs| && d !in have)
    && (forall i :: 0 <= i < |list| && list[i] in obs ==> obs[list[i]].dev !in may)
    && forall d :: d in usable && d < |devs| ==> d in have || UsesDevice(obs, list, d) || d in may
  }

  /** The bucket is on a device that may be used, of the right type, and not on a cache device where that does not do. */
  predicate Wanted(devs: seq<Dev>, t: DataType, may: set<nat>, cache: bool, o: Ob)
    requires o.dev < |devs|
  {
    o.dev in may && o.dataType == t && !(devs[o.dev].durability == 0 && (t == Btree || cache))
  }

  ghost predicate NoneOf(devs: seq<Dev>, obs: map<nat, Ob>, t: DataType, may: set<nat>, cache: bool, list: seq<nat>)
  {
    forall s :: s in list && s in obs && obs[s].dev < |devs| ==> !Wanted(devs, t, may, cache, obs[s])
  }

  lemma NoneOfPush(devs: seq<Dev>, obs: map<nat, Ob>, t: DataType, may: set<nat>, cache: bool, list: seq<nat>, s: nat)
    requires NoneOf(devs, obs, t, may, cache, list) && s in obs && obs[s].dev < |devs| && !Wanted(devs, t, may, cache, obs[s])
    ensures NoneOf(devs, obs, t, may, cache, list + [s]) && NoneOf(devs, obs, t, may, cache, [s] + list)
  {
  }

  /** What was not wanted is not wanted when fewer devices may be used. */
  lemma NoneOfLess(devs: seq<Dev>, obs: map<nat, Ob>, t: DataType, may: set<nat>, cache: bool, may2: set<nat>, cache2: bool,
                   list: seq<nat>)
    requires NoneOf(devs, obs, t, may, cache, list) && may2 <= may && (cache ==> cache2)
    ensures NoneOf(devs, obs, t, may2, cache2, list)
  {
  }

  lemma NoneOfNone(devs: seq<Dev>, obs: map<nat, Ob>, t: DataType, may: set<nat>, cache: bool)
    ensures NoneOf(devs, obs, t, may, cache, [])
  {
  }

  /** Known devices among the given ones that have no replica and are not used by the choice. */
  function NewDevices(devs: seq<Dev>, have: set<nat>, obs: map<nat, Ob>, list: seq<nat>, devices: set<nat>): set<nat>
  {
    set d | d in devices && d < |devs| && d !in have && forall i :: 0 <= i < |list| ==> list[i] in obs && obs[list[i]].dev != d
  }

  lemma {:induction false} NewOnes(devs: seq<Dev>, have: set<nat>, obs: map<nat, Ob>, list: seq<nat>, devices: set<nat>)
    requires Known(devs, obs, list)
    ensures var may := NewDevices(devs, have, obs, list, devices);
            && (forall d :: d in may ==> d in devices && d < |devs| && d !in have)
            && (forall i :: 0 <= i < |list| ==> obs[list[i]].dev !in may)
            && forall d :: d in devices && d < |devs| ==> d in have || UsesDevice(obs, list, d) || d in may
  {
    var may := NewDevices(devs, have, obs, list, devices);
    forall d | d in devices && d < |devs| && d !in have && d !in may
      ensures UsesDevice(obs, list, d)
    {
      var i :| 0 <= i < |list| && !(list[i] in obs && obs[list[i]].dev != d);
    }
  }

  lemma RemoveAt(list: seq<nat>, i: nat)
    requires i < |list|
    ensures multiset(list[..i] + list[i + 1..]) + multiset{list[i]} == multiset(list)
    ensures (list[..i] + list[i + 1..])[i..] == list[i + 1..]
    ensures forall s :: s in list[..i] + list[i + 1..] ==> s in list
  {
    assert list == list[..i] + [list[i]] + list[i + 1..];
  }

  class Request {
    const devs: seq<Dev>
    const devsHave: set<nat>
    const nrReplicas: nat
    const dataType: DataType
    const watermark: Watermark
    const walks: seq<Walk>
    const table: Table
    var asked: nat
    /** What the table holds. */
    ghost var obs: map<nat, Ob>
    /** The partial list, the write point's list, and the choice. */
    var partial: seq<nat>
    var wpPtrs: seq<nat>
    var ptrs: seq<nat>
    var nrEffective: nat
    var haveCache: bool
    var mayAlloc: set<nat>
    /** The devices of the current attempt. */
    ghost var usable: set<nat>

    ghost predicate Valid()
      reads this, table
    {
      && Synced(table, devs, obs) && Known(devs, obs, partial) && Known(devs, obs, wpPtrs)
      && ChosenOk(devs, obs, devsHave, dataType, ptrs, nrEffective, haveCache)
    }

    /** Devices that may still be used are new ones. */
    ghost predicate MayOk()
      reads this
    {
      FreshDevices(devs, devsHave, obs, ptrs, mayAlloc, usable)
    }

    /** Nothing on the list would be taken. */
    ghost predicate NoneWanted(list: seq<nat>)
      reads this
    {
      NoneOf(devs, obs, dataType, mayAlloc, haveCache, list)
    }

    constructor (devs: seq<Dev>, devsHave: set<nat>, nrReplicas: nat, dataType: DataType, watermark: Watermark, walks: seq<Walk>,
                 table: Table, ghost obs: map<nat, Ob>, partial: seq<nat>, wpPtrs: seq<nat>)
      requires Synced(table, devs, obs) && Known(devs, obs, partial) && Known(devs, obs, wpPtrs)
      ensures this.devs == devs && this.devsHave == devsHave && this.nrReplicas == nrReplicas && this.dataType == dataType
      ensures this.table == table && this.obs == obs && this.partial == partial && this.wpPtrs == wpPtrs && ptrs == []
      ensures Valid() && nrEffective == 0 && haveCache == (dataType != User)
    {
      this.devs, this.devsHave, this.nrReplicas, this.dataType := devs, devsHave, nrReplicas, dataType;
      this.watermark, this.walks, this.table := watermark, walks, table;
      this.obs, this.partial, this.wpPtrs := obs, partial, wpPtrs;
      asked, ptrs, nrEffective, haveCache, mayAlloc, usable := 0, [], 0, dataType != User, {}, {};
    }

    /** want_bucket. */
    predicate WantBucket(o: Ob)
      requires o.dev < |devs|
      reads this
    {
      Wanted(devs, dataType, mayAlloc, haveCache, o)
    }

    /** add_new_bucket: true when there are enough replicas. */
    method AddNewBucket(s: nat) returns (enough: bool)
      requires Valid() && MayOk() && nrEffective < nrReplicas
      requires s in obs && obs[s].dev in mayAlloc && (Durability(devs, obs, s) == 0 ==> !haveCache)
      modifies this`ptrs, this`nrEffective, this`haveCache, this`mayAlloc
      ensures Valid() && MayOk() && ptrs == old(ptrs) + [s] && (enough <==> nrEffective >= nrReplicas)
      ensures mayAlloc == old(mayAlloc) - {obs[s].dev} && (old(haveCache) ==> haveCache)
    {
      hide ChosenOk, Synced;
      SyncedAt(table, devs, obs, s);
      var dev := table.slots[s].dev;
      var d := devs[dev].durability;
      ChosenKnown(devs, obs, devsHave, dataType, ptrs, nrEffective, haveCache);
      ChooseOne(devs, obs, devsHave, dataType, ptrs, nrEffective, haveCache, s);
      UsesMore(obs, ptrs, s);
      mayAlloc := mayAlloc - {dev};
      nrEffective := nrEffective + d;
      haveCache := haveCache || d == 0;
      ptrs := ptrs + [s];
      enough := nrEffective >= nrReplicas;
    }

    /** bucket_alloc_set_writepoint. */
    method FromWritePoint() returns (enough: bool)
      requires Valid() && MayOk() && nrEffective < nrReplicas
      modifies this
      ensures Valid() && MayOk() && (enough <==> nrEffective >= nrReplicas)
      ensures !enough ==> NoneWanted(wpPtrs)
      ensures obs == old(obs) && partial == old(partial) && asked == old(asked) && usable == old(usable)
      ensures Bag(ptrs, wpPtrs, partial) == old(Bag(ptrs, wpPtrs, partial))
    {
      hide ChosenOk, Synced, NoneOf, FreshDevices;
      var list, scratch := wpPtrs, [];
      enough := false;
      NoneOfNone(devs, obs, dataType, mayAlloc, haveCache);
      for i := 0 to |list|
        invariant Valid() && MayOk() && obs == old(obs) && partial == old(partial)
        invariant wpPtrs == list && asked == old(asked) && usable == old(usable)
        invariant enough <==> nrEffective >= nrReplicas
        invariant Known(devs, obs, scratch) && (!enough ==> NoneWanted(scratch))
        invariant multiset(ptrs) + multiset(scratch) == old(multiset(ptrs)) + multiset(list[..i])
      {
        TakeOne(list, i);
        PushOne(ptrs, scratch, old(multiset(ptrs)) + multiset(list[..i]), list[i]);
        Regroup(old(multiset(ptrs)), multiset(list[..i]), list[i]);
        SyncedAt(table, devs, obs, list[i]);
        if !enough && WantBucket(ObOf(table.slots[list[i]])) {
          ghost var may, cache := mayAlloc, haveCache;
          enough := AddNewBucket(list[i]);
          NoneOfLess(devs, obs, dataType, may, cache, mayAlloc, haveCache, scratch);
        } else {
          if !enough { NoneOfPush(devs, obs, dataType, mayAlloc, haveCache, scratch, list[i]); }
          scratch := scratch + [list[i]];
        }
      }
      TakeAll(list);
      wpPtrs := scratch;
    }

    /** Entry i leaves the partial list for the choice. */
    method TakePartial(i: nat) returns (enough: bool)
      requires Valid() && MayOk() && nrEffective < nrReplicas && i < |partial| && WantBucket(obs[partial[i]])
      requires NoneWanted(partial[i + 1..])
      modifies this`ptrs, this`nrEffective, this`haveCache, this`mayAlloc, this`partial
      ensures Valid() && MayOk() && (enough <==> nrEffective >= nrReplicas)
      ensures |partial| == |old(partial)| - 1 && NoneWanted(partial[i..])
      ensures multiset(ptrs) + multiset(partial) == old(multiset(ptrs) + multiset(partial))
    {
      hide ChosenOk, Synced, NoneOf, FreshDevices;
      var s := partial[i];
      RemoveAt(partial, i);
      ghost var may, cache, rest := mayAlloc, haveCache, partial[i + 1..];
      partial := partial[..i] + partial[i + 1..];
      enough := AddNewBucket(s);
      NoneOfLess(devs, obs, dataType, may, cache, mayAlloc, haveCache, rest);
    }

    /** bucket_alloc_set_partial, last one first. A device's free count includes its partial buckets, so it is never zero here. */
    method FromPartial() returns (enough: bool)
      requires Valid() && MayOk() && nrEffective < nrReplicas
      modifies this
      ensures Valid() && MayOk() && (enough <==> nrEffective >= nrReplicas)
      ensures !enough ==> NoneWanted(partial)
      ensures obs == old(obs) && wpPtrs == old(wpPtrs) && asked == old(asked) && usable == old(usable)
      ensures Bag(ptrs, wpPtrs, partial) == old(Bag(ptrs, wpPtrs, partial))
    {
      hide ChosenOk, Synced, NoneOf, FreshDevices;
      var i := |partial|;
      enough := false;
      NoneOfNone(devs, obs, dataType, mayAlloc, haveCache);
      assert partial[i..] == [];
      while i > 0 && !enough
        invariant 0 <= i <= |partial|
        invariant Valid() && MayOk() && obs == old(obs) && wpPtrs == old(wpPtrs) && asked == old(asked) && usable == old(usable)
        invariant enough <==> nrEffective >= nrReplicas
        invariant !enough ==> NoneWanted(partial[i..])
        invariant multiset(ptrs) + multiset(partial) == old(multiset(ptrs) + multiset(partial))
      {
        i := i - 1;
        var s := partial[i];
        SyncedAt(table, devs, obs, s);
        if WantBucket(ObOf(table.slots[s])) {
          enough := TakePartial(i);
        } else {
          NoneOfPush(devs, obs, dataType, mayAlloc, haveCache, partial[i + 1..], s);
          assert partial[i..] == [s] + partial[i + 1..];
        }
      }
      assert i == 0 ==> partial[i..] == partial;
      BagOrder(ptrs, wpPtrs, partial);
      BagOrder(old(ptrs), old(wpPtrs), old(partial));
    }

    /**
     bch2_bucket_alloc_trans: the first free bucket of the walk that the table opens. The
     table refuses a bucket that is open already.
     */
    method AllocBucket(d: nat) returns (a: Answer)
      requires Synced(table, devs, obs) && d < |devs|
      modifies table, this`asked, this`obs
      ensures Synced(table, devs, obs)
      ensures a.Opened? ==>
                && a.slot !in old(obs) && a.slot in obs && obs == old(obs)[a.slot := obs[a.slot]]
                && NewlyOpen(devs, obs[a.slot]) && obs[a.slot].dev == d && obs[a.slot].dataType == dataType
      ensures a.Refused? ==> obs == old(obs) && a.err != InsufficientDevices
      ensures a == Refused(OpenBucketsEmpty) ==> table.nrFree <= Reserved(watermark)
      ensures a.Opened? ==> old(asked) < |walks| && IsFirst(old(table.slots), d, walks[old(asked)].candidates, obs[a.slot])
      ensures a == Refused(NoBucketsFound) ==>
                old(asked) < |walks| && forall c :: c in walks[old(asked)].candidates ==> Unfit(old(table.slots), d, c)
    {
      hide FreeListOk, ChainsOk, CountsOk, Distinct, View, IsOpen, Unfit, HeldBy;
      if asked >= |walks| { return Refused(FreelistEmpty); }
      var walk := walks[asked];
      asked := asked + 1;
      if !walk.avail { return Refused(FreelistEmpty); }
      for i := 0 to |walk.candidates|
        invariant Synced(table, devs, obs) && obs == old(obs) && table.slots == old(table.slots)
        invariant forall j :: 0 <= j < i ==> Unfit(table.slots, d, walk.candidates[j])
      {
        var c := walk.candidates[i];
        a := TryBucket(d, c);
        if a != Refused(NoBucketsFound) { return; }
      }
      return Refused(if walk.restart then TransactionRestart else NoBucketsFound);
    }

    /** try_alloc_bucket. */
    method TryBucket(d: nat, c: Candidate) returns (a: Answer)
      requires Synced(table, devs, obs) && d < |devs|
      modifies table, this`obs
      ensures Synced(table, devs, obs)
      ensures a.Opened? ==>
                && a.slot !in old(obs) && a.slot in obs && obs == old(obs)[a.slot := obs[a.slot]]
                && NewlyOpen(devs, obs[a.slot]) && obs[a.slot].dev == d && obs[a.slot].dataType == dataType
                && obs[a.slot].bucket == c.bucket && obs[a.slot].gen == c.gen && !Unfit(old(table.slots), d, c)
      ensures a == Refused(NoBucketsFound) ==> Unfit(old(table.slots), d, c)
      ensures a.Refused? ==> obs == old(obs) && table.slots == old(table.slots) && (a.err == NoBucketsFound || a.err == OpenBucketsEmpty)
      ensures a == Refused(OpenBucketsEmpty) ==> table.nrFree <= Reserved(watermark)
    {
      hide FreeListOk, ChainsOk, CountsOk, Distinct, View;
      var open := table.BucketIsOpen(d, c.bucket);
      if open || !c.ready { return Refused(NoBucketsFound); }
      ghost var was := table.slots;
      var r := table.TryAlloc(watermark, d, c.bucket, c.gen, devs[d].bucketSize, c.usable);
      if r.Skipped? { return Refused(NoBucketsFound); }
      if r.NoSlots? { return Refused(OpenBucketsEmpty); }
      ViewNone(was, r.slot);
      table.SetType(r.slot, dataType);
      ViewChanged(was, r.slot, table.slots[r.slot]);
      assert table.slots == was[r.slot := table.slots[r.slot]];
      obs := obs[r.slot := ObOf(table.slots[r.slot])];
      return Opened(r.slot);
    }

    /** bch2_bucket_alloc_set_trans, the devices taken in any order. */
    method FromDevices(cl: bool) returns (r: Result)
      requires Valid() && MayOk() && nrEffective < nrReplicas
      modifies this, table
      ensures Valid() && MayOk() && (r.Ok? <==> nrEffective >= nrReplicas)
      ensures r == Fail(InsufficientDevices) ==> forall d :: d in mayAlloc ==> devs[d].durability == 0
      ensures partial == old(partial) && wpPtrs == old(wpPtrs) && usable == old(usable) && Extends(devs, old(obs), obs)
      ensures Bag(ptrs, wpPtrs, partial) == old(Bag(ptrs, wpPtrs, partial)) + Since(old(obs), obs)
    {
      hide ChosenOk, Since, Synced, Extends, UsesDevice, Known;
      r := Fail(InsufficientDevices);
      var left := mayAlloc;
      SinceNone(devs, obs);
      while left != {}
        invariant Valid() && MayOk() && r.Fail? && nrEffective < nrReplicas && left <= mayAlloc
        invariant r == Fail(InsufficientDevices) ==> forall d :: d in mayAlloc && d !in left ==> devs[d].durability == 0
        invariant partial == old(partial) && wpPtrs == old(wpPtrs) && usable == old(usable) && Extends(devs, old(obs), obs)
        invariant multiset(ptrs) == old(multiset(ptrs)) + Since(old(obs), obs)
        decreases |left|
      {
        var d :| d in left;
        left := left - {d};
        if devs[d].durability == 0 && haveCache { continue; }
        var stop;
        r, stop := FromDevice(d, r, cl, old(obs), old(multiset(ptrs)));
        if stop { break; }
      }
    }

    /** One device is asked for a bucket. */
    method FromDevice(d: nat, prev: Result, cl: bool, ghost was: map<nat, Ob>, ghost first: multiset<nat>)
      returns (r: Result, stop: bool)
      requires Valid() && MayOk() && nrEffective < nrReplicas && d in mayAlloc && Extends(devs, was, obs) && prev.Fail?
      requires devs[d].durability == 0 ==> !haveCache
      requires multiset(ptrs) == first + Since(was, obs)
      modifies this, table
      ensures Valid() && MayOk() && (r.Ok? <==> nrEffective >= nrReplicas) && (r.Ok? ==> stop)
      ensures mayAlloc <= old(mayAlloc) <= mayAlloc + {d} && (r == Fail(InsufficientDevices) ==> d !in mayAlloc && prev == r && !stop)
      ensures partial == old(partial) && wpPtrs == old(wpPtrs) && usable == old(usable) && Extends(devs, was, obs)
      ensures multiset(ptrs) == first + Since(was, obs)
    {
      hide ChosenOk, Since, Extends, Synced;
      var a := Obtain(d, was);
      match a {
        case Refused(err) =>
          return Fail(err), err == TransactionRestart || cl;
        case Opened(slot) =>
          var enough := AddNewBucket(slot);
          return (if enough then Ok else prev), enough;
      }
    }

    /** A bucket of device d is opened, if that is possible; nothing chosen so far changes. */
    method Obtain(d: nat, ghost was: map<nat, Ob>) returns (a: Answer)
      requires Valid() && MayOk() && d < |devs| && Extends(devs, was, obs)
      modifies table, this`asked, this`obs
      ensures Valid() && MayOk() && Extends(devs, was, obs)
      ensures a.Refused? ==> obs == old(obs) && a.err != InsufficientDevices
      ensures a.Opened? ==> a.slot in obs && obs[a.slot].dev == d && Since(was, obs) == Since(was, old(obs)) + multiset{a.slot}
    {
      hide ChosenOk, UsesDevice, Extends, Since, Synced;
      ghost var before := obs;
      a := AllocBucket(d);
      if a.Opened? {
        ghost var o := obs[a.slot];
        SinceStep(devs, was, before, a.slot, o);
        ChosenKnown(devs, before, devsHave, dataType, ptrs, nrEffective, haveCache);
        OpenedSlot(devs, before, a.slot, o);
        MoreObs(devs, before, obs, devsHave, dataType, ptrs, nrEffective, haveCache);
        UsesSame(devs, before, a.slot, o, ptrs);
      }
    }

    /** The devices of the target, without those that have a replica. */
    method MayUse(devices: set<nat>)
      requires Valid()
      modifies this`mayAlloc, this`usable
      ensures Valid() && MayOk() && usable == devices
    {
      hide Synced;
      usable := devices;
      var open := View(table.slots);
      ViewIs(table, devs, obs);
      ChosenKnown(devs, obs, devsHave, dataType, ptrs, nrEffective, haveCache);
      hide ChosenOk, View, NewDevices;
      mayAlloc := NewDevices(devs, devsHave, open, ptrs, devices);
      NewOnes(devs, devsHave, obs, ptrs, devices);
    }

    /** __open_bucket_add_buckets: `devices` are those of the target that may be written. */
    method AddBuckets(devices: set<nat>, cl: bool) returns (r: Result)
      requires Valid() && nrEffective < nrReplicas
      modifies this, table
      ensures Valid() && (r.Ok? <==> nrEffective >= nrReplicas) && Extends(devs, old(obs), obs)
      ensures r == Fail(InsufficientDevices) ==> RanOut(devs, obs, devsHave, ptrs, devices)
      ensures Bag(ptrs, wpPtrs, partial) == old(Bag(ptrs, wpPtrs, partial)) + Since(old(obs), obs)
    {
      hide ChosenOk, Since, Bag, Synced, NoneOf;
      ghost var was := obs;
      SinceNone(devs, obs);
      MayUse(devices);
      var enough := FromWritePoint();
      if enough { return Ok; }
      enough := FromPartial();
      if enough { return Ok; }
      r := FromDevices(false);
      if r.Fail? && r.err != TransactionRestart && r.err != InsufficientDevices && cl {
        ghost var mid := obs;
        r := FromDevices(true);
        SinceJoin(devs, was, mid, obs);
      }
    }

    /** deallocate_extra_replicas: replicas that are not needed go back to the write point. */
    method Trim()
      requires Valid() && nrEffective > nrReplicas
      modifies this`ptrs, this`wpPtrs
      ensures Known(devs, obs, ptrs) && Spread(devs, obs, devsHave, ptrs) && OneCache(devs, obs, dataType, ptrs)
      ensures nrReplicas <= SumDurability(devs, obs, ptrs) <= nrEffective
      ensures NeededBeyond(devs, obs, ptrs, SumDurability(devs, obs, ptrs) - nrReplicas)
      ensures Known(devs, obs, wpPtrs) && Bag(ptrs, wpPtrs, partial) == old(Bag(ptrs, wpPtrs, partial))
    {
      hide ChosenOk, Durability, Bag, SumDurability, OneCache, Spread, NeededBeyond, Synced;
      var open := View(table.slots);
      ViewIs(table, devs, obs);
      var keep, moved := Trimmed(devs, open, devsHave, dataType, ptrs, nrEffective, haveCache, nrReplicas);
      BagMoved(ptrs, wpPtrs, partial, keep, moved);
      ptrs, wpPtrs := keep, wpPtrs + moved;
    }

    /** open_bucket_free_unused for what the write point still has; the choice becomes its list. */
    method Commit()
      requires Known(devs, obs, wpPtrs) && Known(devs, obs, partial)
      modifies this`partial, this`wpPtrs
      ensures wpPtrs == ptrs && Known(devs, obs, partial)
      ensures multiset(wpPtrs) + multiset(partial) == old(Bag(ptrs, wpPtrs, partial))
    {
      for i := 0 to |wpPtrs|
        invariant wpPtrs == old(wpPtrs) && partial == old(partial) + wpPtrs[..i]
      {
        assert wpPtrs[..i + 1] == wpPtrs[..i] + [wpPtrs[i]];
        partial := partial + [wpPtrs[i]];
      }
      assert wpPtrs[..|wpPtrs|] == wpPtrs;
      BagOrder(ptrs, wpPtrs, old(partial));
      wpPtrs := ptrs;
    }

    /** The error path: the choice and the write point's list are put together, what does not fit becomes partial. */
    method Abandon()
      requires Known(devs, obs, wpPtrs) && Known(devs, obs, partial) && Known(devs, obs, ptrs)
      modifies this`ptrs, this`partial, this`wpPtrs
      ensures Known(devs, obs, wpPtrs) && Known(devs, obs, partial)
      ensures multiset(wpPtrs) + multiset(partial) == old(Bag(ptrs, wpPtrs, partial))
    {
      for i := 0 to |wpPtrs|
        invariant wpPtrs == old(wpPtrs) && Known(devs, obs, ptrs) && Known(devs, obs, partial)
        invariant multiset(ptrs) + multiset(partial) == old(multiset(ptrs) + multiset(partial)) + multiset(wpPtrs[..i])
      {
        TakeOne(wpPtrs, i);
        PushOne(ptrs, partial, old(multiset(ptrs) + multiset(partial)) + multiset(wpPtrs[..i]), wpPtrs[i]);
        Regroup(old(multiset(ptrs) + multiset(partial)), multiset(wpPtrs[..i]), wpPtrs[i]);
        if |ptrs| < OPEN_BUCKET_LIST_MAX {
          ptrs := ptrs + [wpPtrs[i]];
        } else {
          partial := partial + [wpPtrs[i]];
        }
      }
      TakeAll(wpPtrs);
      BagOrder(old(ptrs), wpPtrs, old(partial));
      wpPtrs := ptrs;
    }

    /** The attempts of bch2_alloc_sectors_start_trans: the target first, then all devices. */
    method Attempt(target: bool, targetDevs: set<nat>, allDevs: set<nat>, onlySpecified: bool, cl: bool) returns (r: Result)
      requires Valid() && nrEffective < nrReplicas
      modifies this, table
      ensures Valid() && (r.Ok? <==> nrEffective >= nrReplicas) && Extends(devs, old(obs), obs)
      ensures r == Fail(InsufficientDevices) ==>
                RanOut(devs, obs, devsHave, ptrs, if target && onlySpecified then targetDevs else allDevs)
      ensures Bag(ptrs, wpPtrs, partial) == old(Bag(ptrs, wpPtrs, partial)) + Since(old(obs), obs)
    {
      hide ChosenOk, Since, Bag, Extends, RanOut, Synced;
      var first0 := if target then targetDevs else allDevs;
      if !(target && !onlySpecified) {
        r := AddBuckets(first0, cl);
        return;
      }
      ghost var was, first := obs, Bag(ptrs, wpPtrs, partial);
      r := AddBuckets(first0, false);
      if r.Ok? || r.err == TransactionRestart { return; }
      if r.err == OpenBucketsEmpty {
        ghost var mid := obs;
        var r2 := AddBuckets(first0, cl);
        SinceJoin(devs, was, mid, obs);
        if r2.Ok? || r2.err == TransactionRestart || r2.err == OpenBucketsEmpty { return r2; }
      }
      ghost var mid := obs;
      UseNoMoreCache();
      r := AddBuckets(allDevs, cl);
      SinceJoin(devs, was, mid, obs);
    }

    /** Devices without durability are only taken from the target. */
    method UseNoMoreCache()
      requires Valid()
      modifies this`haveCache
      ensures Valid() && haveCache
    {
      haveCache := true;
    }

    /**
     bch2_alloc_sectors_start_trans, for a write point that is locked. On success the
     write point has the replicas asked for, or enough of them if devices ran out; in
     every case each open bucket is still in exactly one place.
     */
    method Start(target: bool, targetDevs: set<nat>, allDevs: set<nat>, onlySpecified: bool, cl: bool, required: nat, block: nat)
      returns (r: Result, short: bool, sectors: nat)
      requires Valid() && ptrs == [] && nrEffective == 0 && 0 < nrReplicas && 0 < required && 0 < block <= UINT_MAX
      requires Roomy(obs, block, Bag([], wpPtrs, partial)) && forall d :: 0 <= d < |devs| ==> block <= devs[d].bucketSize
      modifies this, table
      ensures Synced(table, devs, obs) && Known(devs, obs, wpPtrs) && Known(devs, obs, partial) && Extends(devs, old(obs), obs)
      ensures multiset(wpPtrs) + multiset(partial) == old(Bag([], wpPtrs, partial)) + Since(old(obs), obs)
      ensures Roomy(obs, block, multiset(wpPtrs) + multiset(partial))
      ensures r.Ok? ==>
                && Spread(devs, obs, devsHave, wpPtrs) && OneCache(devs, obs, dataType, wpPtrs)
                && SumDurability(devs, obs, wpPtrs) >= (if short then required else nrReplicas)
                && (short ==> SumDurability(devs, obs, wpPtrs) < nrReplicas
                              && RanOut(devs, obs, devsHave, wpPtrs, if target && onlySpecified then targetDevs else allDevs))
                && (!short ==> NeededBeyond(devs, obs, wpPtrs, SumDurability(devs, obs, wpPtrs) - nrReplicas))
                && 0 < sectors && forall i :: 0 <= i < |wpPtrs| ==> sectors <= obs[wpPtrs[i]].sectorsFree
    {
      hide ChosenOk, Synced, Since, Extends, Bag, Roomy, SumDurability, OneCache, Spread, NeededBeyond, RanOut;
      ghost var was, first := obs, Bag([], wpPtrs, partial);
      short, sectors := false, 0;
      r := Attempt(target, targetDevs, allDevs, onlySpecified, cl);
      RoomyMore(devs, was, obs, block, first, Bag(ptrs, wpPtrs, partial));
      if r == Fail(InsufficientDevices) && nrEffective >= required {
        short := true;
        r := Ok;
      }
      if r.Fail? {
        ChosenKnown(devs, obs, devsHave, dataType, ptrs, nrEffective, haveCache);
        Abandon();
        return;
      }
      sectors := Accept(block);
    }

    /** The success path. */
    method Accept(block: nat) returns (sectors: nat)
      requires Valid() && nrEffective > 0 && nrReplicas > 0 && 0 < block <= UINT_MAX && Roomy(obs, block, Bag(ptrs, wpPtrs, partial))
      modifies this`ptrs, this`partial, this`wpPtrs
      ensures Known(devs, obs, wpPtrs) && Known(devs, obs, partial)
      ensures multiset(wpPtrs) + multiset(partial) == old(Bag(ptrs, wpPtrs, partial))
      ensures Spread(devs, obs, devsHave, wpPtrs) && OneCache(devs, obs, dataType, wpPtrs)
      ensures nrEffective <= nrReplicas ==> SumDurability(devs, obs, wpPtrs) == nrEffective && wpPtrs == old(ptrs)
      ensures nrEffective >= nrReplicas ==>
                SumDurability(devs, obs, wpPtrs) >= nrReplicas
                && NeededBeyond(devs, obs, wpPtrs, SumDurability(devs, obs, wpPtrs) - nrReplicas)
      ensures 0 < sectors && forall i :: 0 <= i < |wpPtrs| ==> wpPtrs[i] in obs && sectors <= obs[wpPtrs[i]].sectorsFree
    {
      hide ChosenOk, Synced, Bag, SumDurability, OneCache, Spread, NeededBeyond, Known;
      Settle();
      Commit();
      sectors := Measure(block);
    }

    /** Nothing more than needed is kept. */
    method Settle()
      requires Valid()
      modifies this`ptrs, this`wpPtrs
      ensures Known(devs, obs, ptrs) && Known(devs, obs, wpPtrs) && Bag(ptrs, wpPtrs, partial) == old(Bag(ptrs, wpPtrs, partial))
      ensures Spread(devs, obs, devsHave, ptrs) && OneCache(devs, obs, dataType, ptrs)
      ensures nrEffective <= nrReplicas ==> SumDurability(devs, obs, ptrs) == nrEffective && ptrs == old(ptrs)
      ensures nrEffective >= nrReplicas ==>
                SumDurability(devs, obs, ptrs) >= nrReplicas
                && NeededBeyond(devs, obs, ptrs, SumDurability(devs, obs, ptrs) - nrReplicas)
    {
      hide ChosenOk, Synced, Bag, SumDurability, OneCache, Spread, NeededBeyond;
      ChosenParts(devs, obs, devsHave, dataType, ptrs, nrEffective, haveCache);
      if nrEffective > nrReplicas { Trim(); } else { AllNeeded(devs, obs, ptrs); }
    }

    /** How much the write point's buckets can all give. */
    method Measure(block: nat) returns (sectors: nat)
      requires Synced(table, devs, obs) && Known(devs, obs, wpPtrs) && SumDurability(devs, obs, wpPtrs) > 0
      requires 0 < block <= UINT_MAX && Roomy(obs, block, multiset(wpPtrs) + multiset(partial))
      ensures 0 < sectors && forall i :: 0 <= i < |wpPtrs| ==> wpPtrs[i] in obs && sectors <= obs[wpPtrs[i]].sectorsFree
    {
      RoomyList(obs, block, wpPtrs, partial);
      SumPositive(devs, obs, wpPtrs);
      ViewIs(table, devs, obs);
      sectors := SectorsFree(View(table.slots), wpPtrs, block);
    }
  }

  lemma AllNeeded(devs: seq<Dev>, obs: map<nat, Ob>, list: seq<nat>)
    requires Known(devs, obs, list)
    ensures NeededBeyond(devs, obs, list, 0)
  {
  }

  lemma RoomyList(obs: map<nat, Ob>, block: nat, a: seq<nat>, b: seq<nat>)
    requires Roomy(obs, block, multiset(a) + multiset(b))
    ensures forall i :: 0 <= i < |a| ==> a[i] in obs && block <= obs[a[i]].sectorsFree
  {
    forall i | 0 <= i < |a|
      ensures a[i] in obs && block <= obs[a[i]].sectorsFree
    {
      assert a[i] in multiset(a);
    }
  }

  /** Its loop: a replica is given up if the rest is enough without it. */
  method Trimmed(devs: seq<Dev>, obs: map<nat, Ob>, have: set<nat>, dataType: DataType, list: seq<nat>, effective: nat,
                 haveCache: bool, nrReplicas: nat)
    returns (keep: seq<nat>, moved: seq<nat>)
    requires ChosenOk(devs, obs, have, dataType, list, effective, haveCache) && effective > nrReplicas
    ensures Known(devs, obs, keep) && Spread(devs, obs, have, keep) && OneCache(devs, obs, dataType, keep)
    ensures nrReplicas <= SumDurability(devs, obs, keep) <= effective
    ensures NeededBeyond(devs, obs, keep, SumDurability(devs, obs, keep) - nrReplicas)
    ensures Known(devs, obs, moved) && multiset(keep) + multiset(moved) == multiset(list)
  {
    hide ChosenOk, KeepOk, Durability;
    ghost var sum;
    var extra;
    keep, moved, sum, extra := TrimLoop(devs, obs, have, dataType, list, effective, haveCache, nrReplicas);
    KeepDone(devs, obs, have, dataType, list, effective, haveCache, keep, moved, sum, effective - nrReplicas - extra);
  }

  method TrimLoop(devs: seq<Dev>, obs: map<nat, Ob>, have: set<nat>, dataType: DataType, list: seq<nat>, effective: nat,
                  haveCache: bool, nrReplicas: nat)
    returns (keep: seq<nat>, moved: seq<nat>, ghost sum: nat, extra: nat)
    requires ChosenOk(devs, obs, have, dataType, list, effective, haveCache) && effective > nrReplicas
    ensures KeepOk(devs, obs, have, dataType, list, |list|, keep, moved, sum, effective - nrReplicas - extra)
    ensures extra <= effective - nrReplicas && NeededBeyond(devs, obs, keep, extra)
  {
    hide ChosenOk, KeepOk, Durability;
    keep, moved, sum, extra := [], [], 0, effective - nrReplicas;
    ChosenKnown(devs, obs, have, dataType, list, effective, haveCache);
    KeepStart(devs, obs, have, dataType, list);
    for i := 0 to |list|
      invariant KeepOk(devs, obs, have, dataType, list, i, keep, moved, sum, effective - nrReplicas - extra)
      invariant extra <= effective - nrReplicas && NeededBeyond(devs, obs, keep, extra)
    {
      KeepStep(devs, obs, have, dataType, list, effective, haveCache, i, keep, moved, sum, effective - nrReplicas - extra);
      var d := Durability(devs, obs, list[i]);
      if d != 0 && d <= extra {
        extra := extra - d;
        moved := moved + [list[i]];
      } else {
        keep, sum := keep + [list[i]], sum + d;
      }
    }
  }

  /** Each replica either does not count or counts for more than `extra`. */
  ghost predicate NeededBeyond(devs: seq<Dev>, obs: map<nat, Ob>, list: seq<nat>, extra: nat)
  {
    forall i :: 0 <= i < |list| ==>
      list[i] in obs && obs[list[i]].dev < |devs|
      && (Durability(devs, obs, list[i]) == 0 || Durability(devs, obs, list[i]) > extra)
  }

  /** Of the first i replicas some are kept, with durability sum, and some given up, with durability gone. */
  ghost predicate KeepOk(devs: seq<Dev>, obs: map<nat, Ob>, have: set<nat>, dataType: DataType, list: seq<nat>, i: nat,
                         keep: seq<nat>, moved: seq<nat>, sum: nat, gone: int)
  {
    && i <= |list| && Known(devs, obs, list) && Known(devs, obs, keep)
    && Spread(devs, obs, have, keep) && OneCache(devs, obs, dataType, keep) && sum == SumDurability(devs, obs, keep)
    && (forall x :: 0 <= x < |keep| ==> keep[x] in list[..i])
    && sum + gone == SumDurability(devs, obs, list[..i])
    && Known(devs, obs, moved) && multiset(keep) + multiset(moved) == multiset(list[..i])
  }

  lemma KeepStart(devs: seq<Dev>, obs: map<nat, Ob>, have: set<nat>, dataType: DataType, list: seq<nat>)
    requires Known(devs, obs, list)
    ensures KeepOk(devs, obs, have, dataType, list, 0, [], [], 0, 0)
  {
  }

  lemma BagMoved(a: seq<nat>, b: seq<nat>, c: seq<nat>, keep: seq<nat>, moved: seq<nat>)
    requires multiset(keep) + multiset(moved) == multiset(a)
    ensures Bag(keep, b + moved, c) == Bag(a, b, c)
  {
  }

  lemma {:induction false} KeepStep(devs: seq<Dev>, obs: map<nat, Ob>, have: set<nat>, dataType: DataType, list: seq<nat>,
                                    effective: nat, haveCache: bool, i: nat, keep: seq<nat>, moved: seq<nat>, sum: nat, gone: int)
    requires ChosenOk(devs, obs, have, dataType, list, effective, haveCache) && i < |list|
    requires KeepOk(devs, obs, have, dataType, list, i, keep, moved, sum, gone)
    ensures var d := Durability(devs, obs, list[i]);
            && KeepOk(devs, obs, have, dataType, list, i + 1, keep, moved + [list[i]], sum, gone + d)
            && KeepOk(devs, obs, have, dataType, list, i + 1, keep + [list[i]], moved, sum + d, gone)
  {
    hide Durability, SumDurability, Spread, OneCache, ChosenOk;
    SumStep(devs, obs, list, i);
    KeptApart(devs, obs, have, dataType, list, effective, haveCache, i, keep, moved, sum, gone);
    assert list[..i + 1] == list[..i] + [list[i]];
    KeepMore(devs, obs, have, dataType, keep, list[i]);
    TakeOne(list, i);
    PushOne(keep, moved, multiset(list[..i]), list[i]);
  }

  lemma SumStep(devs: seq<Dev>, obs: map<nat, Ob>, list: seq<nat>, i: nat)
    requires Known(devs, obs, list) && i < |list|
    ensures SumDurability(devs, obs, list[..i + 1]) == SumDurability(devs, obs, list[..i]) + Durability(devs, obs, list[i])
  {
    assert list[..i + 1][..i] == list[..i];
  }

  /** A replica not yet looked at differs from those kept. */
  lemma {:induction false} KeptApart(devs: seq<Dev>, obs: map<nat, Ob>, have: set<nat>, dataType: DataType, list: seq<nat>,
                                     effective: nat, haveCache: bool, i: nat, keep: seq<nat>, moved: seq<nat>, sum: nat, gone: int)
    requires ChosenOk(devs, obs, have, dataType, list, effective, haveCache) && i < |list|
    requires KeepOk(devs, obs, have, dataType, list, i, keep, moved, sum, gone)
    ensures obs[list[i]].dev !in have && (dataType != User ==> Durability(devs, obs, list[i]) != 0)
    ensures forall x :: 0 <= x < |keep| ==>
              && obs[keep[x]].dev != obs[list[i]].dev
              && (Durability(devs, obs, keep[x]) == 0 ==> Durability(devs, obs, list[i]) != 0)
  {
    hide Durability, SumDurability;
    forall x | 0 <= x < |keep|
      ensures obs[keep[x]].dev != obs[list[i]].dev
      ensures Durability(devs, obs, keep[x]) == 0 ==> Durability(devs, obs, list[i]) != 0
    {
      assert keep[x] in list[..i];
      var j :| 0 <= j < i && list[..i][j] == keep[x];
      assert list[j] == keep[x];
    }
  }

  lemma {:induction false} KeepMore(devs: seq<Dev>, obs: map<nat, Ob>, have: set<nat>, dataType: DataType, keep: seq<nat>, s: nat)
    requires Known(devs, obs, keep) && Spread(devs, obs, have, keep) && OneCache(devs, obs, dataType, keep)
    requires s in obs && obs[s].dev < |devs| && obs[s].dev !in have && (dataType != User ==> Durability(devs, obs, s) != 0)
    requires forall x :: 0 <= x < |keep| ==>
               && obs[keep[x]].dev != obs[s].dev
               && (Durability(devs, obs, keep[x]) == 0 ==> Durability(devs, obs, s) != 0)
    ensures Known(devs, obs, keep + [s]) && Spread(devs, obs, have, keep + [s]) && OneCache(devs, obs, dataType, keep + [s])
    ensures SumDurability(devs, obs, keep + [s]) == SumDurability(devs, obs, keep) + Durability(devs, obs, s)
  {
    hide Durability;
    assert (keep + [s])[..|keep|] == keep;
  }

  lemma KeepDone(devs: seq<Dev>, obs: map<nat, Ob>, have: set<nat>, dataType: DataType, list: seq<nat>, effective: nat,
                 haveCache: bool, keep: seq<nat>, moved: seq<nat>, sum: nat, gone: int)
    requires ChosenOk(devs, obs, have, dataType, list, effective, haveCache)
    requires KeepOk(devs, obs, have, dataType, list, |list|, keep, moved, sum, gone)
    ensures Known(devs, obs, keep) && Spread(devs, obs, have, keep) && OneCache(devs, obs, dataType, keep)
    ensures sum == effective - gone == SumDurability(devs, obs, keep)
    ensures Known(devs, obs, moved) && multiset(keep) + multiset(moved) == multiset(list)
  {
    assert list[..|list|] == list;
  }

  lemma OpenedSlot(devs: seq<Dev>, obs: map<nat, Ob>, slot: nat, o: Ob)
    requires slot !in obs && NewlyOpen(devs, o)
    ensures Extends(devs, obs, obs[slot := o])
  {
  }

  lemma UsesSame(devs: seq<Dev>, obs: map<nat, Ob>, slot: nat, o: Ob, list: seq<nat>)
    requires slot !in obs && Known(devs, obs, list)
    ensures forall d :: UsesDevice(obs, list, d) <==> UsesDevice(obs[slot := o], list, d)
  {
  }

  lemma SinceNone(devs: seq<Dev>, obs: map<nat, Ob>)
    ensures Extends(devs, obs, obs) && Since(obs, obs) == multiset{}
  {
    assert obs.Keys - obs.Keys == {};
  }

  lemma ChosenKnown(devs: seq<Dev>, obs: map<nat, Ob>, have: set<nat>, dataType: DataType, list: seq<nat>, effective: nat,
                    haveCache: bool)
    requires ChosenOk(devs, obs, have, dataType, list, effective, haveCache)
    ensures Known(devs, obs, list)
  {
  }

  lemma ChosenParts(devs: seq<Dev>, obs: map<nat, Ob>, have: set<nat>, dataType: DataType, list: seq<nat>, effective: nat,
                    haveCache: bool)
    requires ChosenOk(devs, obs, have, dataType, list, effective, haveCache)
    ensures Known(devs, obs, list) && Spread(devs, obs, have, list) && OneCache(devs, obs, dataType, list)
    ensures effective == SumDurability(devs, obs, list)
  {
  }

  /** Every bucket in the bag has room for a block. */
  ghost predicate Roomy(obs: map<nat, Ob>, block: nat, bag: multiset<nat>)
  {
    forall s :: s in bag ==> s in obs && block <= obs[s].sectorsFree
  }

  lemma RoomyMore(devs: seq<Dev>, obs: map<nat, Ob>, more: map<nat, Ob>, block: nat, bag: multiset<nat>, bigger: multiset<nat>)
    requires Roomy(obs, block, bag) && Extends(devs, obs, more) && bigger == bag + Since(obs, more)
    requires forall d :: 0 <= d < |devs| ==> block <= devs[d].bucketSize
    ensures Roomy(more, block, bigger)
  {
  }

  lemma {:induction false} SumPositive(devs: seq<Dev>, obs: map<nat, Ob>, list: seq<nat>)
    requires Known(devs, obs, list)
    ensures SumDurability(devs, obs, list) > 0 ==> list != []
  {
  }

  function RoundDown(x: nat, block: nat): (r: nat)
    requires block > 0
    ensures r <= x && (block <= x ==> 0 < r)
  {
    x - x % block
  }

  const UINT_MAX: nat := 0xFFFF_FFFF

  /** The sectors every bucket of the list can give. */
  method SectorsFree(obs: map<nat, Ob>, list: seq<nat>, block: nat) returns (sectors: nat)
    requires 0 < block && forall i :: 0 <= i < |list| ==> list[i] in obs
    ensures forall i :: 0 <= i < |list| ==> sectors <= obs[list[i]].sectorsFree
    ensures block <= UINT_MAX && (forall i :: 0 <= i < |list| ==> block <= obs[list[i]].sectorsFree) ==> 0 < sectors
  {
    var least := UINT_MAX;
    for i := 0 to |list|
      invariant forall j :: 0 <= j < i ==> least <= obs[list[j]].sectorsFree
      invariant least == UINT_MAX || exists j :: 0 <= j < i && least == obs[list[j]].sectorsFree
    {
      if obs[list[i]].sectorsFree < least { least := obs[list[i]].sectorsFree; }
    }
    sectors := RoundDown(least, block);
  }
}
