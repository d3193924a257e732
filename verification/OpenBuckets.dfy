/**
 The table of open buckets (libbcachefs/alloc_foreground.c and .h): a fixed array of
 slots, slot 0 being the null of the index links. Unused slots form a free list;
 used ones form chains of a hash table keyed by device and bucket.
 */
module OpenBuckets {

  const OPEN_BUCKETS_COUNT: nat := 1024

  datatype Watermark = InteriorUpdates | Reclaim | BtreeMark | BtreeCopygc | Copygc | Normal | Stripe

  /** bch2_open_buckets_reserved. */
  function Reserved(w: Watermark): nat
  {
    match w
    case InteriorUpdates => 0
    case Reclaim => OPEN_BUCKETS_COUNT / 6
    case BtreeMark => OPEN_BUCKETS_COUNT / 4
    case BtreeCopygc => OPEN_BUCKETS_COUNT / 4
    case Copygc => OPEN_BUCKETS_COUNT / 3
    case _ => OPEN_BUCKETS_COUNT / 2
  }

  /** enum bch_data_type, as far as the allocator tells types apart; NoData is 0. */
  datatype DataType = NoData | User | Btree | OtherData

  /** struct open_bucket; freelist and hash are indexes of other slots, 0 for none. */
  datatype Slot = Slot(pin: nat, freelist: nat, hash: nat, valid: bool, dev: nat, bucket: nat, gen: nat, sectorsFree: nat,
                       dataType: DataType)

  const UNUSED := Slot(0, 0, 0, false, 0, 0, 0, 0, NoData)

  // ---- linked lists over the slots ----

  function First(list: seq<nat>): nat { if list == [] then 0 else list[0] }

  function After(list: seq<nat>, i: nat): nat
    requires i < |list|
  {
    if i + 1 < |list| then list[i + 1] else 0
  }

  ghost predicate NoDups(list: seq<nat>)
  {
    forall i, j :: 0 <= i < j < |list| ==> list[i] != list[j]
  }

  ghost predicate InTable(slots: seq<Slot>, list: seq<nat>)
  {
    NoDups(list) && forall i :: 0 <= i < |list| ==> 0 < list[i] < |slots|
  }

  /** Link i of a list over the freelist links, and of one over the hash links. */
  ghost predicate FreeLink(slots: seq<Slot>, list: seq<nat>, i: nat)
    requires i < |list| && list[i] < |slots|
  {
    slots[list[i]].freelist == After(list, i)
  }

  ghost predicate HashLink(slots: seq<Slot>, list: seq<nat>, i: nat)
    requires i < |list| && list[i] < |slots|
  {
    slots[list[i]].hash == After(list, i)
  }

  /** The freelist links starting at head spell out list. */
  ghost predicate FreeLinked(slots: seq<Slot>, head: nat, list: seq<nat>)
  {
    InTable(slots, list) && head == First(list) && forall i :: 0 <= i < |list| ==> FreeLink(slots, list, i)
  }

  /** The hash links starting at head spell out list. */
  ghost predicate HashLinked(slots: seq<Slot>, head: nat, list: seq<nat>)
  {
    InTable(slots, list) && head == First(list) && forall i :: 0 <= i < |list| ==> HashLink(slots, list, i)
  }

  // ---- what every operation keeps ----

  predicate IsOpen(slots: seq<Slot>, s: nat) { 0 < s < |slots| && slots[s].pin > 0 }

  /** No bucket of a device is held by two slots. */
  ghost predicate Distinct(slots: seq<Slot>)
  {
    forall s: nat, t: nat ::
      IsOpen(slots, s) && IsOpen(slots, t) && slots[s].dev == slots[t].dev && slots[s].bucket == slots[t].bucket ==> s == t
  }

  ghost predicate FreeListOk(slots: seq<Slot>, head: nat, free: seq<nat>)
  {
    && FreeLinked(slots, head, free)
    && forall s :: 0 < s < |slots| ==> (s in free <==> slots[s].pin == 0)
  }

  /** Every open slot is in the chain its bucket hashes to, and in no other. */
  ghost predicate ChainsOk(h: (nat, nat) -> nat, slots: seq<Slot>, table: seq<nat>, chains: seq<seq<nat>>)
  {
    && |chains| == |table|
    && (forall k :: 0 <= k < |table| ==> HashLinked(slots, table[k], chains[k]))
    && (forall k, s :: 0 <= k < |chains| && s in chains[k] ==> IsOpen(slots, s) && h(slots[s].dev, slots[s].bucket) == k)
    && (forall s: nat :: IsOpen(slots, s) ==>
          h(slots[s].dev, slots[s].bucket) < |chains| && s in chains[h(slots[s].dev, slots[s].bucket)])
  }

  ghost function OpenOn(slots: seq<Slot>, d: nat): set<nat>
  {
    set s: nat | s < |slots| && IsOpen(slots, s) && slots[s].dev == d
  }

  ghost predicate CountsOk(slots: seq<Slot>, devOpen: seq<nat>)
  {
    && (forall d: nat :: d < |devOpen| ==> devOpen[d] == |OpenOn(slots, d)|)
    && forall s: nat :: IsOpen(slots, s) ==> slots[s].dev < |devOpen|
  }

  class Table {
    /** The hash function, with a value for every device and bucket. */
    const h: (nat, nat) -> nat
    var slots: seq<Slot>
    var hashTable: seq<nat>
    var freeHead: nat
    var nrFree: nat
    var devOpen: seq<nat>
    ghost var free: seq<nat>
    ghost var chains: seq<seq<nat>>

    ghost predicate Ok()
      reads this
    {
      && |slots| == OPEN_BUCKETS_COUNT && (forall d, b :: h(d, b) < |hashTable|)
      && FreeListOk(slots, freeHead, free) && nrFree == |free|
      && ChainsOk(h, slots, hashTable, chains) && Distinct(slots) && CountsOk(slots, devOpen)
    }

    /** bch2_fs_allocator_foreground_init. */
    constructor (h: (nat, nat) -> nat, hashSize: nat, devices: nat)
      requires forall d, b :: h(d, b) < hashSize
      ensures Ok() && this.h == h && |devOpen| == devices
      ensures forall s: nat :: !IsOpen(slots, s)
    {
      var sl, head, count, list := LinkAll();
      this.h := h;
      hashTable := seq(hashSize, k => 0);
      chains := seq(hashSize, k => []);
      devOpen := seq(devices, d => 0);
      slots, freeHead, nrFree, free := sl, head, count, list;
      new;
      hide FreeListOk;
      NoneOpen(h, slots, hashTable, chains, devOpen);
    }

    /** bch2_bucket_is_open. */
    method BucketIsOpen(dev: nat, bucket: nat) returns (r: bool)
      requires Ok()
      ensures r <==> HeldBy(slots, dev, bucket)
    {
      hide FreeListOk, CountsOk, Distinct;
      var slot := hashTable[h(dev, bucket)];
      ghost var chain := chains[h(dev, bucket)];
      ghost var i := 0;
      assert HashLinked(slots, slot, chain);
      while slot != 0
        invariant 0 <= i <= |chain| && slot == (if i < |chain| then chain[i] else 0)
        invariant forall j :: 0 <= j < i ==> chain[j] < |slots| && !(slots[chain[j]].dev == dev && slots[chain[j]].bucket == bucket)
        decreases |chain| - i
      {
        assert HashLink(slots, chain, i) && chain[i] in chain;
        if slots[slot].dev == dev && slots[slot].bucket == bucket {
          assert IsOpen(slots, slot);
          return true;
        }
        slot := slots[slot].hash;
        i := i + 1;
      }
      return false;
    }

    /** __try_alloc_bucket: `usable` says the bucket holds no superblock and is not excluded. */
    method TryAlloc(w: Watermark, dev: nat, bucket: nat, gen: nat, bucketSize: nat, usable: bool) returns (r: AllocResult)
      requires Ok() && dev < |devOpen|
      modifies this
      ensures Ok() && |devOpen| == |old(devOpen)|
      ensures r.Skipped? <==> !usable || (old(nrFree) > Reserved(w) && HeldBy(old(slots), dev, bucket))
      ensures r.NoSlots? <==> usable && old(nrFree) <= Reserved(w)
      ensures !r.Got? ==> slots == old(slots) && nrFree == old(nrFree)
      ensures r.Got? ==>
                && 0 < r.slot < |slots| && !IsOpen(old(slots), r.slot) && nrFree == old(nrFree) - 1
                && slots == old(slots)[r.slot := slots[r.slot]]
                && slots[r.slot].(freelist := 0, hash := 0) == Slot(1, 0, 0, true, dev, bucket, gen, bucketSize, NoData)
    {
      hide FreeListOk, ChainsOk, CountsOk, Distinct, IsOpen;
      if !usable { return Skipped; }
      if nrFree <= Reserved(w) { return NoSlots; }
      var open := BucketIsOpen(dev, bucket);
      if open { return Skipped; }
      var s := OpenFirst(dev, bucket, gen, bucketSize);
      return Got(s);
    }

    /** bch2_open_bucket_alloc and bch2_open_bucket_hash_add. */
    method OpenFirst(dev: nat, bucket: nat, gen: nat, bucketSize: nat) returns (s: nat)
      requires Ok() && dev < |devOpen| && nrFree > 0 && !HeldBy(slots, dev, bucket)
      modifies this
      ensures Ok() && |devOpen| == |old(devOpen)| && nrFree == old(nrFree) - 1
      ensures 0 < s < |slots| && !IsOpen(old(slots), s) && slots == old(slots)[s := slots[s]]
      ensures slots[s].(freelist := 0, hash := 0) == Slot(1, 0, 0, true, dev, bucket, gen, bucketSize, NoData)
    {
      hide FreeListOk, ChainsOk, CountsOk, Distinct, IsOpen, HeldBy;
      s := freeHead;
      var k := h(dev, bucket);
      HeadFree(slots, freeHead, free);
      ChainCount(h, slots, hashTable, chains);
      var u := Slot(1, slots[s].freelist, hashTable[k], true, dev, bucket, gen, bucketSize, NoData);
      PopFree(slots, freeHead, free, u);
      ChainPush(h, slots, hashTable, chains, s, u);
      OpenedOne(slots, devOpen, s, u);
      freeHead, free := slots[s].freelist, free[1..];
      hashTable, chains := hashTable[k := s], chains[k := [s] + chains[k]];
      devOpen, nrFree := devOpen[dev := devOpen[dev] + 1], nrFree - 1;
      slots := slots[s := u];
    }

    /** bch2_open_bucket_get, for one slot. */
    method Get(s: nat)
      requires Ok() && IsOpen(slots, s)
      modifies this`slots
      ensures Ok() && slots == old(slots)[s := old(slots)[s].(pin := old(slots)[s].pin + 1)]
    {
      hide FreeListOk, ChainsOk, CountsOk, Distinct;
      var u := slots[s].(pin := slots[s].pin + 1);
      KeepsPlace(h, slots, hashTable, chains, freeHead, free, devOpen, s, u);
      slots := slots[s := u];
    }

    /** The type of data an open bucket is for. */
    method SetType(s: nat, t: DataType)
      requires Ok() && IsOpen(slots, s)
      modifies this`slots
      ensures Ok() && slots == old(slots)[s := old(slots)[s].(dataType := t)]
    {
      hide FreeListOk, ChainsOk, CountsOk, Distinct;
      var u := slots[s].(dataType := t);
      KeepsPlace(h, slots, hashTable, chains, freeHead, free, devOpen, s, u);
      slots := slots[s := u];
    }

    /** An open bucket gives out sectors. */
    method Take(s: nat, sectors: nat)
      requires Ok() && IsOpen(slots, s) && sectors <= slots[s].sectorsFree
      modifies this`slots
      ensures Ok() && slots == old(slots)[s := old(slots)[s].(sectorsFree := old(slots)[s].sectorsFree - sectors)]
    {
      hide FreeListOk, ChainsOk, CountsOk, Distinct;
      var u := slots[s].(sectorsFree := slots[s].sectorsFree - sectors);
      KeepsPlace(h, slots, hashTable, chains, freeHead, free, devOpen, s, u);
      slots := slots[s := u];
    }

    /** bch2_open_bucket_put: the last reference closes the bucket. */
    method Put(s: nat)
      requires Ok() && IsOpen(slots, s)
      modifies this
      ensures Ok() && |devOpen| == |old(devOpen)| && |slots| == |old(slots)|
      ensures forall t: nat :: IsOpen(slots, t) <==> IsOpen(old(slots), t) && !(t == s && old(slots)[s].pin == 1)
      ensures forall t: nat :: t < |slots| && t != s ==> slots[t].(hash := 0) == old(slots)[t].(hash := 0)
      ensures old(slots)[s].pin > 1 ==> slots == old(slots)[s := old(slots)[s].(pin := old(slots)[s].pin - 1)]
      ensures nrFree == old(nrFree) + (if old(slots)[s].pin == 1 then 1 else 0)
    {
      hide FreeListOk, ChainsOk, CountsOk, Distinct;
      if slots[s].pin > 1 { Unpin(s); } else { Close(s); }
    }

    /** One of several references is dropped. */
    method Unpin(s: nat)
      requires Ok() && IsOpen(slots, s) && slots[s].pin > 1
      modifies this`slots
      ensures Ok() && slots == old(slots)[s := old(slots)[s].(pin := old(slots)[s].pin - 1)]
    {
      hide FreeListOk, ChainsOk, CountsOk, Distinct;
      var u := slots[s].(pin := slots[s].pin - 1);
      KeepsPlace(h, slots, hashTable, chains, freeHead, free, devOpen, s, u);
      slots := slots[s := u];
    }

    /** __bch2_open_bucket_put. */
    method Close(s: nat)
      requires Ok() && IsOpen(slots, s)
      modifies this
      ensures Ok() && |devOpen| == |old(devOpen)| && |slots| == |old(slots)| && nrFree == old(nrFree) + 1
      ensures forall t: nat :: IsOpen(slots, t) <==> IsOpen(old(slots), t) && t != s
      ensures forall t: nat :: t < |slots| && t != s ==> slots[t].(hash := 0) == old(slots)[t].(hash := 0)
    {
      hide FreeListOk, ChainsOk, CountsOk, Distinct, IsOpen;
      OpenSlot(slots, devOpen, s);
      ChainCount(h, slots, hashTable, chains);
      var k := h(slots[s].dev, slots[s].bucket);
      var prev, p := FindPrev(s);
      var u := slots[s].(pin := 0, valid := false, dataType := NoData, hash := 0, freelist := freeHead);
      ChainRemove(h, slots, hashTable, chains, s, p, u);
      ClosedOne(slots, devOpen, s, u, Unlinked(slots, prev, slots[s].hash));
      FreeAgain(slots, freeHead, free, s, u, Unlinked(slots, prev, slots[s].hash));
      var dev := slots[s].dev;
      if prev == 0 { hashTable := hashTable[k := slots[s].hash]; }
      chains := chains[k := chains[k][..p] + chains[k][p + 1..]];
      slots := Unlinked(slots, prev, slots[s].hash)[s := u];
      devOpen, nrFree := devOpen[dev := devOpen[dev] - 1], nrFree + 1;
      freeHead, free := s, [s] + free;
    }

    /** The walk of bch2_open_bucket_hash_remove: the slot whose link leads to s, 0 for the table itself. */
    method FindPrev(s: nat) returns (prev: nat, ghost p: nat)
      requires Ok() && IsOpen(slots, s)
      ensures var chain := chains[h(slots[s].dev, slots[s].bucket)];
              p < |chain| && chain[p] == s && prev == (if p == 0 then 0 else chain[p - 1])
      ensures if prev == 0 then hashTable[h(slots[s].dev, slots[s].bucket)] == s else prev < |slots| && slots[prev].hash == s
    {
      hide FreeListOk, CountsOk, Distinct;
      var k := h(slots[s].dev, slots[s].bucket);
      ghost var chain := chains[k];
      assert HashLinked(slots, hashTable[k], chain) && s in chain;
      ghost var goal: nat :| goal < |chain| && chain[goal] == s;
      var at := hashTable[k];
      prev, p := 0, 0;
      while at != s
        invariant p <= goal && at == chain[p] && prev == (if p == 0 then 0 else chain[p - 1])
        invariant if prev == 0 then hashTable[k] == at else prev < |slots| && slots[prev].hash == at
        decreases goal - p
      {
        assert HashLink(slots, chain, p);
        prev, at := at, slots[at].hash;
        p := p + 1;
      }
    }
  }

  datatype AllocResult = Got(slot: nat) | Skipped | NoSlots

  ghost predicate HeldBy(slots: seq<Slot>, dev: nat, bucket: nat)
  {
    exists s: nat :: IsOpen(slots, s) && slots[s].dev == dev && slots[s].bucket == bucket
  }

  /** The slot before s, if any, now leads past it. */
  function Unlinked(slots: seq<Slot>, prev: nat, hash: nat): seq<Slot>
    requires prev < |slots|
  {
    if prev == 0 then slots else slots[prev := slots[prev].(hash := hash)]
  }

  // ---- how the lists change ----

  lemma ChainCount(h: (nat, nat) -> nat, slots: seq<Slot>, table: seq<nat>, chains: seq<seq<nat>>)
    requires ChainsOk(h, slots, table, chains)
    ensures |chains| == |table|
  {
  }

  lemma HeadFree(slots: seq<Slot>, head: nat, free: seq<nat>)
    requires FreeListOk(slots, head, free) && |free| > 0
    ensures 0 < head < |slots| && !IsOpen(slots, head) && head == free[0]
  {
    assert free[0] in free && FreeLink(slots, free, 0);
  }

  lemma {:induction false} PopFree(slots: seq<Slot>, head: nat, free: seq<nat>, u: Slot)
    requires FreeListOk(slots, head, free) && |free| > 0 && u.pin > 0 && head < |slots|
    ensures FreeListOk(slots[head := u], slots[head].freelist, free[1..])
  {
    assert FreeLink(slots, free, 0) && free == [head] + free[1..];
    var next, list := slots[head := u], free[1..];
    forall i | 0 <= i < |list|
      ensures FreeLink(next, list, i)
    {
      assert FreeLink(slots, free, i + 1);
    }
  }

  lemma {:induction false} ChainPush(h: (nat, nat) -> nat, slots: seq<Slot>, table: seq<nat>, chains: seq<seq<nat>>, s: nat, u: Slot)
    requires ChainsOk(h, slots, table, chains) && 0 < s < |slots| && !IsOpen(slots, s) && u.pin > 0
    requires h(u.dev, u.bucket) < |table| && u.hash == table[h(u.dev, u.bucket)]
    ensures var k := h(u.dev, u.bucket);
            ChainsOk(h, slots[s := u], table[k := s], chains[k := [s] + chains[k]])
  {
    var k := h(u.dev, u.bucket);
    var next, tb, cs := slots[s := u], table[k := s], chains[k := [s] + chains[k]];
    forall j | 0 <= j < |table|
      ensures HashLinked(next, tb[j], cs[j])
    {
      PushHash(slots, table[j], chains[j], s, u);
    }
    hide HashLinked;
    forall t: nat | IsOpen(next, t)
      ensures h(next[t].dev, next[t].bucket) < |cs| && t in cs[h(next[t].dev, next[t].bucket)]
    {
      if t != s { assert IsOpen(slots, t); }
    }
  }

  lemma PushNew(slots: seq<Slot>, list: seq<nat>, s: nat)
    requires InTable(slots, list) && 0 < s < |slots| && s !in list
    ensures InTable(slots, [s] + list)
  {
    var r := [s] + list;
    forall i, j | 0 <= i < j < |r|
      ensures r[i] != r[j]
    {
      assert r[j] == list[j - 1] && list[j - 1] in list;
    }
  }

  lemma {:induction false} PushHash(slots: seq<Slot>, head: nat, chain: seq<nat>, s: nat, u: Slot)
    requires HashLinked(slots, head, chain) && 0 < s < |slots| && (forall t :: t in chain ==> t != s)
    ensures HashLinked(slots[s := u], head, chain)
    ensures u.hash == head ==> HashLinked(slots[s := u], s, [s] + chain)
  {
    var next, list := slots[s := u], [s] + chain;
    PushNew(slots, chain, s);
    forall i | 0 <= i < |chain|
      ensures HashLink(next, chain, i)
    {
      assert HashLink(slots, chain, i) && chain[i] in chain;
    }
    forall i | 0 <= i < |list| && u.hash == head
      ensures HashLink(next, list, i)
    {
      if i > 0 { assert HashLink(next, chain, i - 1); }
    }
  }

  lemma {:induction false} OpenedOne(slots: seq<Slot>, devOpen: seq<nat>, s: nat, u: Slot)
    requires Distinct(slots) && CountsOk(slots, devOpen) && 0 < s < |slots| && !IsOpen(slots, s) && u.pin > 0
    requires u.dev < |devOpen| && !HeldBy(slots, u.dev, u.bucket)
    ensures Distinct(slots[s := u]) && CountsOk(slots[s := u], devOpen[u.dev := devOpen[u.dev] + 1])
  {
    var next := slots[s := u];
    OpenedDistinct(slots, s, u);
    hide Distinct;
    forall d: nat | d < |devOpen|
      ensures |OpenOn(next, d)| == |OpenOn(slots, d)| + (if d == u.dev then 1 else 0)
    {
      OpenOnAdded(slots, s, u, d);
    }
    hide HeldBy;
  }

  lemma OpenOnAdded(slots: seq<Slot>, s: nat, u: Slot, d: nat)
    requires 0 < s < |slots| && !IsOpen(slots, s) && u.pin > 0
    ensures |OpenOn(slots[s := u], d)| == |OpenOn(slots, d)| + (if d == u.dev then 1 else 0)
  {
    assert OpenOn(slots[s := u], d) == if d == u.dev then OpenOn(slots, d) + {s} else OpenOn(slots, d);
  }

  lemma {:induction false} OpenedDistinct(slots: seq<Slot>, s: nat, u: Slot)
    requires Distinct(slots) && 0 < s < |slots| && u.pin > 0 && !HeldBy(slots, u.dev, u.bucket)
    ensures Distinct(slots[s := u])
  {
    var next := slots[s := u];
    forall a: nat, b: nat | IsOpen(next, a) && IsOpen(next, b) && next[a].dev == next[b].dev && next[a].bucket == next[b].bucket
      ensures a == b
    {
      if a != s { assert IsOpen(slots, a); }
      if b != s { assert IsOpen(slots, b); }
    }
  }

  lemma OpenSlot(slots: seq<Slot>, devOpen: seq<nat>, s: nat)
    requires CountsOk(slots, devOpen) && IsOpen(slots, s)
    ensures 0 < s < |slots| && slots[s].dev < |devOpen| && devOpen[slots[s].dev] > 0
  {
    assert s in OpenOn(slots, slots[s].dev);
  }

  /** All slots but the first, linked in one by one. */
  method LinkAll() returns (slots: seq<Slot>, head: nat, count: nat, ghost free: seq<nat>)
    ensures |slots| == OPEN_BUCKETS_COUNT && FreeListOk(slots, head, free) && count == |free|
    ensures forall s :: 0 <= s < |slots| ==> slots[s].pin == 0
  {
    slots := seq(OPEN_BUCKETS_COUNT, s => UNUSED);
    head, count, free := 0, 0, [];
    for i := 1 to OPEN_BUCKETS_COUNT
      invariant |slots| == OPEN_BUCKETS_COUNT && count == |free|
      invariant forall s :: 0 <= s < |slots| ==> slots[s].pin == 0
      invariant FreeLinked(slots, head, free) && forall s :: s in free <==> 0 < s < i
    {
      PushFree(slots, head, free, i, slots[i]);
      hide FreeLinked;
      slots := slots[i := slots[i].(freelist := head)];
      head, count, free := i, count + 1, [i] + free;
    }
  }

  lemma NoneOpen(h: (nat, nat) -> nat, slots: seq<Slot>, table: seq<nat>, chains: seq<seq<nat>>, devOpen: seq<nat>)
    requires (forall s :: 0 <= s < |slots| ==> slots[s].pin == 0) && |table| == |chains|
    requires forall k :: 0 <= k < |table| ==> table[k] == 0 && chains[k] == []
    requires forall d :: 0 <= d < |devOpen| ==> devOpen[d] == 0
    ensures ChainsOk(h, slots, table, chains) && Distinct(slots) && CountsOk(slots, devOpen)
    ensures forall s: nat :: !IsOpen(slots, s)
  {
    forall d: nat | d < |devOpen|
      ensures |OpenOn(slots, d)| == 0
    {
      assert OpenOn(slots, d) == {};
    }
  }

  lemma {:induction false} PushFree(slots: seq<Slot>, head: nat, free: seq<nat>, s: nat, u: Slot)
    requires FreeLinked(slots, head, free) && 0 < s < |slots| && s !in free
    ensures FreeLinked(slots[s := u.(freelist := head)], s, [s] + free)
  {
    var list, next := [s] + free, slots[s := u.(freelist := head)];
    PushNew(slots, free, s);
    forall i | 0 <= i < |list|
      ensures FreeLink(next, list, i)
    {
      if i > 0 { assert FreeLink(slots, free, i - 1) && free[i - 1] in free; }
    }
  }

  /** A change of an open slot that concerns neither its links nor its bucket, and leaves it open. */
  predicate SamePlace(o: Slot, u: Slot)
  {
    u.pin > 0 && u.freelist == o.freelist && u.hash == o.hash && u.dev == o.dev && u.bucket == o.bucket
  }

  lemma {:induction false} KeepsPlace(h: (nat, nat) -> nat, slots: seq<Slot>, table: seq<nat>, chains: seq<seq<nat>>, head: nat,
                                   free: seq<nat>, devOpen: seq<nat>, s: nat, u: Slot)
    requires ChainsOk(h, slots, table, chains) && FreeListOk(slots, head, free) && Distinct(slots) && CountsOk(slots, devOpen)
    requires IsOpen(slots, s) && SamePlace(slots[s], u)
    ensures var next := slots[s := u];
            && ChainsOk(h, next, table, chains) && FreeListOk(next, head, free) && Distinct(next) && CountsOk(next, devOpen)
  {
    hide FreeListOk, ChainsOk, CountsOk, Distinct, IsOpen;
    PinFree(slots, head, free, s, u);
    PinChains(h, slots, table, chains, s, u);
    PinCounts(slots, devOpen, s, u);
  }

  lemma {:induction false} PinFree(slots: seq<Slot>, head: nat, free: seq<nat>, s: nat, u: Slot)
    requires FreeListOk(slots, head, free) && IsOpen(slots, s) && SamePlace(slots[s], u)
    ensures FreeListOk(slots[s := u], head, free)
  {
    var next := slots[s := u];
    forall i | 0 <= i < |free|
      ensures FreeLink(next, free, i)
    {
      assert FreeLink(slots, free, i);
    }
  }

  lemma {:induction false} PinCounts(slots: seq<Slot>, devOpen: seq<nat>, s: nat, u: Slot)
    requires Distinct(slots) && CountsOk(slots, devOpen) && IsOpen(slots, s) && SamePlace(slots[s], u)
    ensures var next := slots[s := u]; Distinct(next) && CountsOk(next, devOpen)
  {
    var next := slots[s := u];
    assert forall t: nat :: IsOpen(next, t) <==> IsOpen(slots, t);
    forall d: nat
      ensures OpenOn(next, d) == OpenOn(slots, d)
    {
    }
  }

  lemma {:induction false} PinChains(h: (nat, nat) -> nat, slots: seq<Slot>, table: seq<nat>, chains: seq<seq<nat>>, s: nat, u: Slot)
    requires ChainsOk(h, slots, table, chains) && IsOpen(slots, s) && SamePlace(slots[s], u)
    ensures ChainsOk(h, slots[s := u], table, chains)
  {
    var next := slots[s := u];
    forall k | 0 <= k < |table|
      ensures HashLinked(next, table[k], chains[k])
    {
      assert HashLinked(slots, table[k], chains[k]);
      forall i | 0 <= i < |chains[k]|
        ensures HashLink(next, chains[k], i)
      {
        assert HashLink(slots, chains[k], i);
      }
    }
    hide HashLinked;
    assert forall t: nat :: IsOpen(next, t) <==> IsOpen(slots, t);
  }

  /** Taking s out of its chain leaves all chains linked. */
  lemma {:induction false} ChainRemove(h: (nat, nat) -> nat, slots: seq<Slot>, table: seq<nat>, chains: seq<seq<nat>>, s: nat, p: nat,
                                       u: Slot)
    requires ChainsOk(h, slots, table, chains) && IsOpen(slots, s) && u.pin == 0
    requires h(slots[s].dev, slots[s].bucket) < |table|
    requires var chain := chains[h(slots[s].dev, slots[s].bucket)]; p < |chain| && chain[p] == s
    ensures var k := h(slots[s].dev, slots[s].bucket);
            var prev := if p == 0 then 0 else chains[k][p - 1];
            && prev < |slots| && prev != s && (prev == 0 <==> p == 0)
            && ChainsOk(h, Unlinked(slots, prev, slots[s].hash)[s := u], if p == 0 then table[k := slots[s].hash] else table,
                        chains[k := chains[k][..p] + chains[k][p + 1..]])
  {
    var k := h(slots[s].dev, slots[s].bucket);
    ChainFacts(h, slots, table, chains, k);
    hide HashLinked;
    var chain := chains[k];
    var prev := if p == 0 then 0 else chain[p - 1];
    var next := Unlinked(slots, prev, slots[s].hash)[s := u];
    var cs := chains[k := chain[..p] + chain[p + 1..]];
    RemovedMembers(chain, p);
    RemovedLinks(h, slots, table, chains, s, p, u);
    RemovedPlaces(h, slots, table, chains, s, next, cs) by {
      assert forall j, t :: 0 <= j < |cs| ==> (t in cs[j] <==> t in chains[j] && t != s);
    }
  }

  lemma ChainFacts(h: (nat, nat) -> nat, slots: seq<Slot>, table: seq<nat>, chains: seq<seq<nat>>, k: nat)
    requires ChainsOk(h, slots, table, chains) && k < |table|
    ensures InTable(slots, chains[k]) && |chains| == |table|
  {
    assert HashLinked(slots, table[k], chains[k]);
  }

  lemma {:induction false} RemovedLinks(h: (nat, nat) -> nat, slots: seq<Slot>, table: seq<nat>, chains: seq<seq<nat>>, s: nat, p: nat,
                                        u: Slot)
    requires ChainsOk(h, slots, table, chains) && IsOpen(slots, s)
    requires h(slots[s].dev, slots[s].bucket) < |table|
    requires var chain := chains[h(slots[s].dev, slots[s].bucket)]; p < |chain| && chain[p] == s
    ensures var k := h(slots[s].dev, slots[s].bucket);
            var prev := if p == 0 then 0 else chains[k][p - 1];
            prev < |slots| &&
            var next := Unlinked(slots, prev, slots[s].hash)[s := u];
            var tb, cs := (if p == 0 then table[k := slots[s].hash] else table), chains[k := chains[k][..p] + chains[k][p + 1..]];
            forall j :: 0 <= j < |table| ==> HashLinked(next, tb[j], cs[j])
  {
    var k := h(slots[s].dev, slots[s].bucket);
    var chain := chains[k];
    assert HashLinked(slots, table[k], chain);
    var prev := if p == 0 then 0 else chain[p - 1];
    assert prev != 0 ==> prev in chain;
    var next := Unlinked(slots, prev, slots[s].hash)[s := u];
    forall j | 0 <= j < |table| && j != k
      ensures HashLinked(next, table[j], chains[j])
    {
      OtherChain(h, slots, table, chains, j, k, next);
    }
    CutChain(slots, table[k], chain, p, u);
    hide HashLinked, ChainsOk;
  }

  /** Slots other than s stay where they are. */
  lemma {:induction false} RemovedPlaces(h: (nat, nat) -> nat, slots: seq<Slot>, table: seq<nat>, chains: seq<seq<nat>>, s: nat,
                                         next: seq<Slot>, cs: seq<seq<nat>>)
    requires ChainsOk(h, slots, table, chains) && IsOpen(slots, s) && |next| == |slots| && |cs| == |chains|
    requires next[s].pin == 0
    requires forall t :: 0 <= t < |slots| && t != s ==>
               next[t].pin == slots[t].pin && next[t].dev == slots[t].dev && next[t].bucket == slots[t].bucket
    requires forall j, t :: 0 <= j < |cs| ==> (t in cs[j] <==> t in chains[j] && t != s)
    ensures forall j, t :: 0 <= j < |cs| && t in cs[j] ==> IsOpen(next, t) && h(next[t].dev, next[t].bucket) == j
    ensures forall t: nat :: IsOpen(next, t) ==> h(next[t].dev, next[t].bucket) < |cs| && t in cs[h(next[t].dev, next[t].bucket)]
  {
    hide HashLinked;
    forall j, t | 0 <= j < |cs| && t in cs[j]
      ensures IsOpen(next, t) && h(next[t].dev, next[t].bucket) == j
    {
      assert t in chains[j] && t != s;
      assert IsOpen(slots, t) && h(slots[t].dev, slots[t].bucket) == j;
    }
    forall t: nat | IsOpen(next, t)
      ensures h(next[t].dev, next[t].bucket) < |cs| && t in cs[h(next[t].dev, next[t].bucket)]
    {
      assert IsOpen(slots, t) && t != s;
    }
  }

  lemma RemovedMembers(chain: seq<nat>, p: nat)
    requires NoDups(chain) && p < |chain|
    ensures forall t :: t in chain[..p] + chain[p + 1..] <==> t in chain && t != chain[p]
  {
    var r := chain[..p] + chain[p + 1..];
    forall t | t in chain && t != chain[p]
      ensures t in r
    {
      var i :| 0 <= i < |chain| && chain[i] == t;
      assert r[if i < p then i else i - 1] == t;
    }
  }

  lemma {:induction false} CutChain(slots: seq<Slot>, head: nat, chain: seq<nat>, p: nat, u: Slot)
    requires HashLinked(slots, head, chain) && p < |chain|
    ensures var s := chain[p];
            var prev := if p == 0 then 0 else chain[p - 1];
            HashLinked(Unlinked(slots, prev, slots[s].hash)[s := u], if p == 0 then slots[s].hash else head,
                       chain[..p] + chain[p + 1..])
  {
    var s := chain[p];
    var prev := if p == 0 then 0 else chain[p - 1];
    var next := Unlinked(slots, prev, slots[s].hash)[s := u];
    var r := chain[..p] + chain[p + 1..];
    assert HashLink(slots, chain, p) && (p > 0 ==> HashLink(slots, chain, p - 1));
    forall i | 0 <= i < |r|
      ensures HashLink(next, r, i)
    {
      assert HashLink(slots, chain, if i < p then i else i + 1);
    }
  }

  lemma {:induction false} OtherChain(h: (nat, nat) -> nat, slots: seq<Slot>, table: seq<nat>, chains: seq<seq<nat>>, j: nat, k: nat,
                                      next: seq<Slot>)
    requires ChainsOk(h, slots, table, chains) && j < |table| && k < |table| && j != k && |next| == |slots|
    requires forall t :: 0 <= t < |slots| && t !in chains[k] ==> next[t] == slots[t]
    ensures HashLinked(next, table[j], chains[j])
  {
    assert HashLinked(slots, table[j], chains[j]);
    forall i | 0 <= i < |chains[j]|
      ensures HashLink(next, chains[j], i)
    {
      assert HashLink(slots, chains[j], i) && chains[j][i] in chains[j];
    }
  }

  lemma {:induction false} ClosedOne(slots: seq<Slot>, devOpen: seq<nat>, s: nat, u: Slot, mid: seq<Slot>)
    requires Distinct(slots) && CountsOk(slots, devOpen) && IsOpen(slots, s) && u.pin == 0 && |mid| == |slots|
    requires slots[s].dev < |devOpen| && devOpen[slots[s].dev] > 0
    requires forall t :: 0 <= t < |slots| ==> mid[t].(hash := 0) == slots[t].(hash := 0)
    ensures Distinct(mid[s := u]) && CountsOk(mid[s := u], devOpen[slots[s].dev := devOpen[slots[s].dev] - 1])
    ensures forall t: nat :: IsOpen(mid[s := u], t) <==> IsOpen(slots, t) && t != s
  {
    var next, d0 := mid[s := u], slots[s].dev;
    forall t | 0 <= t < |slots|
      ensures mid[t].pin == slots[t].pin && mid[t].dev == slots[t].dev && mid[t].bucket == slots[t].bucket
    {
      assert mid[t].(hash := 0).pin == slots[t].(hash := 0).pin;
      assert mid[t].(hash := 0).dev == slots[t].(hash := 0).dev;
      assert mid[t].(hash := 0).bucket == slots[t].(hash := 0).bucket;
    }
    forall d: nat | d < |devOpen|
      ensures |OpenOn(next, d)| == |OpenOn(slots, d)| - (if d == d0 then 1 else 0)
    {
      assert OpenOn(next, d) == if d == d0 then OpenOn(slots, d) - {s} else OpenOn(slots, d);
    }
  }

  lemma {:induction false} FreeAgain(slots: seq<Slot>, head: nat, free: seq<nat>, s: nat, u: Slot, mid: seq<Slot>)
    requires FreeListOk(slots, head, free) && IsOpen(slots, s) && u.pin == 0 && u.freelist == head && |mid| == |slots|
    requires forall t :: 0 <= t < |slots| ==> mid[t].(hash := 0) == slots[t].(hash := 0)
    ensures FreeListOk(mid[s := u], s, [s] + free)
  {
    forall t | 0 <= t < |slots|
      ensures mid[t].pin == slots[t].pin && mid[t].freelist == slots[t].freelist
    {
      assert mid[t].(hash := 0).pin == slots[t].(hash := 0).pin;
      assert mid[t].(hash := 0).freelist == slots[t].(hash := 0).freelist;
    }
    forall i | 0 <= i < |free|
      ensures FreeLink(mid, free, i)
    {
      assert FreeLink(slots, free, i);
    }
    PushFree(mid, head, free, s, u);
    assert u.(freelist := head) == u;
  }
}
