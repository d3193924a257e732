/**
 Bucket generations. A bucket's generation is raised when it has been emptied, and a
 pointer is stale once its generation is behind. On disk both are 8 bits wide and are
 compared with wrap-around; bch2_gc_gens raises oldest_gen so that this stays sound.

 The state holds generations as unbounded counters, but every test made by the
 program reads only their low 8 bits, as the code does. An alloc key's sector counts
 are nonzero exactly when some extent has a pointer with the bucket's generation.
 */
module BucketGens {

  const BUCKET_GC_GEN_MAX: nat := 96

  datatype Bucket = Bucket(gen: nat, oldestGen: nat, needIncGen: bool, needDiscard: bool, open: bool)

  datatype Ptr = Ptr(bucket: nat, gen: nat, cached: bool)

  datatype DataType = Used | NeedDiscard | NeedGcGens | Free

  function Low8(x: nat): (r: nat)
    ensures r < 256
  {
    x % 256
  }

  /** gen_cmp: the difference as a signed 8-bit number. */
  function GenCmp(a: nat, b: nat): int
    requires a < 256 && b < 256
  {
    if a - b > 127 then a - b - 256 else if a - b < -128 then a - b + 256 else a - b
  }

  /** gen_after. */
  function GenAfter(a: nat, b: nat): nat
    requires a < 256 && b < 256
  {
    if GenCmp(a, b) > 0 then GenCmp(a, b) else 0
  }

  /** alloc_gc_gen: an unsigned 8-bit difference. */
  function GcGenOf(gen: nat, oldestGen: nat): (r: nat)
    requires gen < 256 && oldestGen < 256
    ensures r < 256
  {
    if gen >= oldestGen then gen - oldestGen else 256 - (oldestGen - gen)
  }

  function GcGen(k: Bucket): nat { GcGenOf(Low8(k.gen), Low8(k.oldestGen)) }

  /** Wrap-around comparison gives the true distance, as long as that fits in 7 bits. */
  lemma WrapAround(a: nat, b: nat)
    requires b <= a < b + 128
    ensures Low8(a) - Low8(b) == a - b || Low8(a) - Low8(b) == a - b - 256
    ensures GenCmp(Low8(a), Low8(b)) == a - b && GenAfter(Low8(a), Low8(b)) == a - b
    ensures GenAfter(Low8(b), Low8(a)) == 0
    ensures Low8(a) == Low8(b) <==> a == b
  {
    var qa, qb := a / 256, b / 256;
    assert a == 256 * qa + Low8(a) && b == 256 * qb + Low8(b);
    hide Low8;
    assert qa == qb || qa == qb + 1;
  }

  /** p has the generation of its bucket, seen through 8 bits. */
  predicate IsCurrent(p: Ptr, b: nat, gen: nat) { p.bucket == b && Low8(p.gen) == Low8(gen) }

  predicate AnyCurrent(ptrs: seq<Ptr>, b: nat, gen: nat)
  {
    exists i :: 0 <= i < |ptrs| && IsCurrent(ptrs[i], b, gen)
  }

  /** The bucket's alloc key has sectors. */
  predicate InUse(keys: seq<seq<Ptr>>, b: nat, gen: nat)
  {
    exists k :: 0 <= k < |keys| && AnyCurrent(keys[k], b, gen)
  }

  /** alloc_data_type. */
  function TypeOf(keys: seq<seq<Ptr>>, b: nat, k: Bucket): DataType
  {
    if InUse(keys, b, k.gen) then Used
    else if k.needDiscard then NeedDiscard
    else if GcGen(k) >= BUCKET_GC_GEN_MAX then NeedGcGens
    else Free
  }

  // ---- what every step keeps ----

  ghost predicate PtrOk(bk: seq<Bucket>, p: Ptr)
  {
    && p.bucket < |bk|
    && bk[p.bucket].oldestGen <= p.gen <= bk[p.bucket].gen
    && (!p.cached ==> p.gen == bk[p.bucket].gen)
  }

  ghost predicate PtrsOk(bk: seq<Bucket>, ptrs: seq<Ptr>)
  {
    forall i :: 0 <= i < |ptrs| ==> PtrOk(bk, ptrs[i])
  }

  ghost predicate BucketOk(keys: seq<seq<Ptr>>, b: nat, k: Bucket)
  {
    && k.oldestGen <= k.gen <= k.oldestGen + BUCKET_GC_GEN_MAX
    && (k.open || k.needIncGen || InUse(keys, b, k.gen) ==> k.gen < k.oldestGen + BUCKET_GC_GEN_MAX)
  }

  ghost predicate StateOk(bk: seq<Bucket>, keys: seq<seq<Ptr>>)
  {
    && (forall b :: 0 <= b < |bk| ==> BucketOk(keys, b, bk[b]))
    && forall k :: 0 <= k < |keys| ==> PtrsOk(bk, keys[k])
  }

  /** The 8-bit comparisons the code makes agree with the counters. */
  lemma ComparisonsSound(bk: seq<Bucket>, keys: seq<seq<Ptr>>, k: nat, i: nat)
    requires StateOk(bk, keys) && k < |keys| && i < |keys[k]|
    ensures keys[k][i].bucket < |bk|
    ensures var p, u := keys[k][i], bk[keys[k][i].bucket];
            && GcGen(u) == u.gen - u.oldestGen <= BUCKET_GC_GEN_MAX
            && GenAfter(Low8(u.gen), Low8(p.gen)) == u.gen - p.gen
            && (IsCurrent(p, p.bucket, u.gen) <==> p.gen == u.gen)
  {
    assert PtrOk(bk, keys[k][i]);
    var p, u := keys[k][i], bk[keys[k][i].bucket];
    assert BucketOk(keys, p.bucket, u);
    WrapAround(u.gen, u.oldestGen);
    WrapAround(u.gen, p.gen);
  }

  /** Only a bucket whose generation may still be raised is free. */
  lemma FreeHasRoom(keys: seq<seq<Ptr>>, b: nat, k: Bucket)
    requires BucketOk(keys, b, k) && TypeOf(keys, b, k) == Free
    ensures k.gen < k.oldestGen + BUCKET_GC_GEN_MAX
  {
    WrapAround(k.gen, k.oldestGen);
  }

  // ---- the trigger ----

  /** bch2_trigger_alloc, transactional part, for one bucket. */
  function Triggered(was: bool, now: bool, k: Bucket): (r: Bucket)
  {
    var m := if now && !was then k.(needIncGen := true, needDiscard := true) else k;
    if !now && m.needIncGen && !m.open then
      m.(gen := m.gen + 1, needIncGen := false,
         oldestGen := if Low8(m.oldestGen) == Low8(m.gen) then m.oldestGen + 1 else m.oldestGen)
    else m
  }

  lemma CurrentInUse(keys: seq<seq<Ptr>>, b: nat, gen: nat, k: nat, i: nat)
    requires k < |keys| && i < |keys[k]|
    ensures keys[k][i].bucket == b && keys[k][i].gen == gen ==> InUse(keys, b, gen)
  {
    if keys[k][i].bucket == b && keys[k][i].gen == gen { assert AnyCurrent(keys[k], b, gen); }
  }

  /** The trigger leaves room and outdates no pointer, also when the generation is raised. */
  lemma {:induction false} TriggerKeeps(bk: seq<Bucket>, keys: seq<seq<Ptr>>, b: nat, was: bool)
    requires b < |bk| && forall k :: 0 <= k < |keys| ==> PtrsOk(bk, keys[k])
    requires bk[b].oldestGen <= bk[b].gen <= bk[b].oldestGen + BUCKET_GC_GEN_MAX
    requires bk[b].open || bk[b].needIncGen || was ==> bk[b].gen < bk[b].oldestGen + BUCKET_GC_GEN_MAX
    requires InUse(keys, b, bk[b].gen) ==> was || bk[b].open
    ensures var r := Triggered(was, InUse(keys, b, bk[b].gen), bk[b]);
            BucketOk(keys, b, r) && forall k :: 0 <= k < |keys| ==> PtrsOk(bk[b := r], keys[k])
  {
    var now := InUse(keys, b, bk[b].gen);
    var r := Triggered(was, now, bk[b]);
    WrapAround(bk[b].gen, bk[b].oldestGen);
    if r.gen != bk[b].gen {
      hide InUse;
      forall k, i | 0 <= k < |keys| && 0 <= i < |keys[k]|
        ensures PtrOk(bk[b := r], keys[k][i])
        ensures keys[k][i].bucket == b ==> keys[k][i].gen < bk[b].gen
      {
        assert PtrOk(bk, keys[k][i]);
        CurrentInUse(keys, b, bk[b].gen, k, i);
      }
      NoneOfNext(keys, b, r);
    } else {
      forall k, i | 0 <= k < |keys| && 0 <= i < |keys[k]|
        ensures PtrOk(bk[b := r], keys[k][i])
      {
        assert PtrOk(bk, keys[k][i]);
      }
    }
  }

  lemma NoneOfNext(keys: seq<seq<Ptr>>, b: nat, r: Bucket)
    requires r.gen <= r.oldestGen + BUCKET_GC_GEN_MAX
    requires forall k, i :: 0 <= k < |keys| && 0 <= i < |keys[k]| && keys[k][i].bucket == b ==>
               r.oldestGen <= keys[k][i].gen < r.gen
    ensures !InUse(keys, b, r.gen)
  {
    if k, i :| 0 <= k < |keys| && 0 <= i < |keys[k]| && IsCurrent(keys[k][i], b, r.gen) {
      WrapAround(r.gen, keys[k][i].gen);
    }
  }

  // ---- updates of extents ----

  /** A pointer that may appear in an update: fresh from an open bucket, or copied from some extent. */
  predicate Admissible(bk: seq<Bucket>, keys: seq<seq<Ptr>>, p: Ptr)
  {
    && p.bucket < |bk|
    && ((bk[p.bucket].open && p.gen == bk[p.bucket].gen)
        || (CopyOf(keys, p) && (p.cached || Low8(p.gen) == Low8(bk[p.bucket].gen))))
  }

  predicate CopyOf(keys: seq<seq<Ptr>>, p: Ptr)
  {
    exists k, i :: 0 <= k < |keys| && 0 <= i < |keys[k]| && keys[k][i].bucket == p.bucket && keys[k][i].gen == p.gen
  }

  lemma {:induction false} AdmissibleOk(bk: seq<Bucket>, keys: seq<seq<Ptr>>, p: Ptr)
    requires StateOk(bk, keys) && Admissible(bk, keys, p)
    ensures PtrOk(bk, p)
    ensures IsCurrent(p, p.bucket, bk[p.bucket].gen) ==> bk[p.bucket].open || InUse(keys, p.bucket, bk[p.bucket].gen)
  {
    var u := bk[p.bucket];
    assert BucketOk(keys, p.bucket, u);
    if !(u.open && p.gen == u.gen) {
      var k, i :| 0 <= k < |keys| && 0 <= i < |keys[k]| && keys[k][i].bucket == p.bucket && keys[k][i].gen == p.gen;
      assert PtrOk(bk, keys[k][i]);
      WrapAround(u.gen, p.gen);
      CurrentInUse(keys, p.bucket, u.gen, k, i);
    }
  }

  /** Extent k is replaced by pointers that may appear in an update. */
  ghost predicate Replaces(bk: seq<Bucket>, keys: seq<seq<Ptr>>, next: seq<seq<Ptr>>, k: nat)
  {
    && k < |keys| == |next| && next == keys[k := next[k]]
    && forall i :: 0 <= i < |next[k]| ==> Admissible(bk, keys, next[k][i])
  }

  lemma {:induction false} ReplaceKeeps(bk: seq<Bucket>, keys: seq<seq<Ptr>>, next: seq<seq<Ptr>>, k: nat)
    requires StateOk(bk, keys) && Replaces(bk, keys, next, k)
    ensures forall j :: 0 <= j < |next| ==> PtrsOk(bk, next[j])
    ensures forall b :: 0 <= b < |bk| ==> (InUse(next, b, bk[b].gen) ==> InUse(keys, b, bk[b].gen) || bk[b].open)
  {
    forall i | 0 <= i < |next[k]|
      ensures PtrOk(bk, next[k][i])
      ensures var p := next[k][i];
              IsCurrent(p, p.bucket, bk[p.bucket].gen) ==> bk[p.bucket].open || InUse(keys, p.bucket, bk[p.bucket].gen)
    {
      AdmissibleOk(bk, keys, next[k][i]);
    }
    forall b | 0 <= b < |bk| && InUse(next, b, bk[b].gen)
      ensures InUse(keys, b, bk[b].gen) || bk[b].open
    {
      var j :| 0 <= j < |next| && AnyCurrent(next[j], b, bk[b].gen);
      if j != k { assert AnyCurrent(keys[j], b, bk[b].gen); }
    }
  }

  // ---- bch2_gc_gens ----

  /** dev_ptr_stale. */
  function Stale(bk: seq<Bucket>, p: Ptr): nat
    requires p.bucket < |bk|
  {
    GenAfter(Low8(bk[p.bucket].gen), Low8(p.gen))
  }

  /** bch2_extent_normalize: drops stale cached pointers. */
  function Normalized(bk: seq<Bucket>, ptrs: seq<Ptr>): seq<Ptr>
    requires forall i :: 0 <= i < |ptrs| ==> ptrs[i].bucket < |bk|
  {
    if ptrs == [] then []
    else (if ptrs[0].cached && Stale(bk, ptrs[0]) > 0 then [] else [ptrs[0]]) + Normalized(bk, ptrs[1..])
  }

  ghost predicate AllCurrent(bk: seq<Bucket>, ptrs: seq<Ptr>)
  {
    forall i :: 0 <= i < |ptrs| ==> PtrOk(bk, ptrs[i]) && ptrs[i].gen == bk[ptrs[i].bucket].gen
  }

  /** What is left of a normalized extent is current, and nothing current is lost. */
  lemma {:induction false} NormalizedKeeps(bk: seq<Bucket>, keys: seq<seq<Ptr>>, ptrs: seq<Ptr>)
    requires PtrsOk(bk, ptrs) && forall b :: 0 <= b < |bk| ==> BucketOk(keys, b, bk[b])
    ensures AllCurrent(bk, Normalized(bk, ptrs))
    ensures forall b :: 0 <= b < |bk| ==>
              (AnyCurrent(Normalized(bk, ptrs), b, bk[b].gen) <==> AnyCurrent(ptrs, b, bk[b].gen))
  {
    if ptrs != [] {
      NormalizedKeeps(bk, keys, ptrs[1..]);
      var p, rest := ptrs[0], Normalized(bk, ptrs[1..]);
      assert PtrOk(bk, p) && BucketOk(keys, p.bucket, bk[p.bucket]);
      WrapAround(bk[p.bucket].gen, p.gen);
      assert ptrs == [p] + ptrs[1..];
      forall b | 0 <= b < |bk|
        ensures AnyCurrent(Normalized(bk, ptrs), b, bk[b].gen) <==> AnyCurrent(ptrs, b, bk[b].gen)
      {
        CurrentOfConcat([p], ptrs[1..], b, bk[b].gen);
        CurrentOfConcat([p], rest, b, bk[b].gen);
        CurrentOfConcat([], rest, b, bk[b].gen);
      }
    }
  }

  lemma CurrentOfConcat(a: seq<Ptr>, c: seq<Ptr>, b: nat, gen: nat)
    ensures AnyCurrent(a + c, b, gen) <==> AnyCurrent(a, b, gen) || AnyCurrent(c, b, gen)
  {
    if i :| 0 <= i < |a| && IsCurrent(a[i], b, gen) { assert (a + c)[i] == a[i]; }
    if i :| 0 <= i < |c| && IsCurrent(c[i], b, gen) { assert (a + c)[|a| + i] == c[i]; }
  }

  /** The oldest generations found so far: none above the bucket's, none below the recorded one. */
  ghost predicate OldestOk(bk: seq<Bucket>, oldest: seq<nat>)
  {
    |oldest| == |bk| && forall b :: 0 <= b < |bk| ==> bk[b].oldestGen <= oldest[b] <= bk[b].gen <= oldest[b] + 16
  }

  ghost predicate Seen(oldest: seq<nat>, ptrs: seq<Ptr>)
  {
    forall i :: 0 <= i < |ptrs| ==> ptrs[i].bucket < |oldest| && oldest[ptrs[i].bucket] <= ptrs[i].gen
  }

  /** Bucket b's oldest generation is its own generation, or that of a pointer met. */
  ghost predicate Tight(bk: seq<Bucket>, keys: seq<seq<Ptr>>, oldest: seq<nat>)
    requires |oldest| == |bk|
  {
    forall b :: 0 <= b < |bk| ==> oldest[b] == bk[b].gen || HasPtr(keys, b, oldest[b])
  }

  ghost predicate HasPtr(keys: seq<seq<Ptr>>, b: nat, gen: nat)
  {
    exists k, i :: 0 <= k < |keys| && 0 <= i < |keys[k]| && keys[k][i].bucket == b && keys[k][i].gen == gen
  }

  /** gc_btree_gens_key, first loop. */
  method AnyTooStale(bk: seq<Bucket>, ptrs: seq<Ptr>) returns (r: bool)
    requires forall i :: 0 <= i < |ptrs| ==> ptrs[i].bucket < |bk|
    ensures r <==> exists i :: 0 <= i < |ptrs| && Stale(bk, ptrs[i]) > 16
  {
    for i := 0 to |ptrs|
      invariant forall j :: 0 <= j < i ==> Stale(bk, ptrs[j]) <= 16
    {
      if Stale(bk, ptrs[i]) > 16 { return true; }
    }
    return false;
  }

  /** gc_btree_gens_key, second loop. */
  method NoteOldest(bk: seq<Bucket>, done: seq<seq<Ptr>>, ptrs: seq<Ptr>, oldest: seq<nat>) returns (r: seq<nat>)
    requires PtrsOk(bk, ptrs) && OldestOk(bk, oldest) && Tight(bk, done, oldest)
    requires forall i :: 0 <= i < |ptrs| ==> bk[ptrs[i].bucket].gen <= ptrs[i].gen + 16
    ensures OldestOk(bk, r) && Tight(bk, done + [ptrs], r) && Seen(r, ptrs)
    ensures forall b :: 0 <= b < |bk| ==> r[b] <= oldest[b]
  {
    r := oldest;
    TightMore(bk, done, ptrs, r);
    hide Tight;
    for i := 0 to |ptrs|
      invariant OldestOk(bk, r) && Tight(bk, done + [ptrs], r)
      invariant forall j :: 0 <= j < i ==> r[ptrs[j].bucket] <= ptrs[j].gen
      invariant forall b :: 0 <= b < |bk| ==> r[b] <= oldest[b]
    {
      var p := ptrs[i];
      assert PtrOk(bk, p);
      if r[p.bucket] >= p.gen { WrapAround(r[p.bucket], p.gen); } else { WrapAround(p.gen, r[p.bucket]); }
      if GenAfter(Low8(r[p.bucket]), Low8(p.gen)) > 0 {
        TightLower(bk, done, ptrs, r, i);
        r := r[p.bucket := p.gen];
      }
    }
  }

  lemma TightMore(bk: seq<Bucket>, done: seq<seq<Ptr>>, ptrs: seq<Ptr>, oldest: seq<nat>)
    requires |oldest| == |bk| && Tight(bk, done, oldest)
    ensures Tight(bk, done + [ptrs], oldest)
  {
    forall b | 0 <= b < |bk| && HasPtr(done, b, oldest[b])
      ensures HasPtr(done + [ptrs], b, oldest[b])
    {
      var k, i :| 0 <= k < |done| && 0 <= i < |done[k]| && done[k][i].bucket == b && done[k][i].gen == oldest[b];
      assert (done + [ptrs])[k] == done[k];
    }
  }

  lemma TightLower(bk: seq<Bucket>, done: seq<seq<Ptr>>, ptrs: seq<Ptr>, oldest: seq<nat>, i: nat)
    requires |oldest| == |bk| && Tight(bk, done + [ptrs], oldest) && i < |ptrs| && ptrs[i].bucket < |bk|
    ensures Tight(bk, done + [ptrs], oldest[ptrs[i].bucket := ptrs[i].gen])
  {
    hide HasPtr;
    HasPtrAt(done + [ptrs], |done|, i);
  }

  lemma HasPtrAt(keys: seq<seq<Ptr>>, k: nat, i: nat)
    requires k < |keys| && i < |keys[k]|
    ensures HasPtr(keys, keys[k][i].bucket, keys[k][i].gen)
  {
  }

  /** One extent: either it is normalized, or its pointers are noted. */
  method GcKey(bk: seq<Bucket>, ghost keys: seq<seq<Ptr>>, done: seq<seq<Ptr>>, ptrs: seq<Ptr>, oldest: seq<nat>)
    returns (q: seq<Ptr>, r: seq<nat>)
    requires PtrsOk(bk, ptrs) && OldestOk(bk, oldest) && Tight(bk, done, oldest)
    requires forall b :: 0 <= b < |bk| ==> BucketOk(keys, b, bk[b])
    ensures q == ptrs || q == Normalized(bk, ptrs)
    ensures PtrsOk(bk, q) && OldestOk(bk, r) && Tight(bk, done + [q], r) && Seen(r, q)
    ensures forall b :: 0 <= b < |bk| ==> r[b] <= oldest[b] && (AnyCurrent(q, b, bk[b].gen) <==> AnyCurrent(ptrs, b, bk[b].gen))
  {
    hide InUse, Tight, AnyCurrent;
    var tooStale := AnyTooStale(bk, ptrs);
    if tooStale {
      NormalizedKeeps(bk, keys, ptrs);
      q, r := Normalized(bk, ptrs), oldest;
      TightMore(bk, done, q, r);
    } else {
      forall i | 0 <= i < |ptrs|
        ensures bk[ptrs[i].bucket].gen <= ptrs[i].gen + 16
      {
        assert PtrOk(bk, ptrs[i]) && BucketOk(keys, ptrs[i].bucket, bk[ptrs[i].bucket]);
        WrapAround(bk[ptrs[i].bucket].gen, ptrs[i].gen);
      }
      q := ptrs;
      r := NoteOldest(bk, done, ptrs, oldest);
    }
  }

  lemma SeenLower(oldest: seq<nat>, r: seq<nat>, ptrs: seq<Ptr>)
    requires Seen(oldest, ptrs) && |r| == |oldest| && forall b :: 0 <= b < |r| ==> r[b] <= oldest[b]
    ensures Seen(r, ptrs)
  {
  }

  /** The walk over all extents. */
  method GcKeys(bk: seq<Bucket>, keys: seq<seq<Ptr>>) returns (next: seq<seq<Ptr>>, oldest: seq<nat>)
    requires StateOk(bk, keys)
    ensures |next| == |keys| && OldestOk(bk, oldest) && Tight(bk, next, oldest)
    ensures forall k :: 0 <= k < |keys| ==>
              && PtrsOk(bk, keys[k]) && (next[k] == keys[k] || next[k] == Normalized(bk, keys[k]))
              && PtrsOk(bk, next[k]) && Seen(oldest, next[k])
    ensures forall b :: 0 <= b < |bk| ==> (InUse(next, b, bk[b].gen) <==> InUse(keys, b, bk[b].gen))
  {
    hide Tight, AnyCurrent, Seen, Normalized;
    oldest := seq(|bk|, b requires 0 <= b < |bk| => bk[b].gen);
    next := [];
    NothingNoted(bk, keys, oldest);
    for k := 0 to |keys|
      invariant |next| == k && OldestOk(bk, oldest) && Tight(bk, next, oldest)
      invariant forall j :: 0 <= j < k ==>
                  && PtrsOk(bk, keys[j]) && (next[j] == keys[j] || next[j] == Normalized(bk, keys[j]))
                  && PtrsOk(bk, next[j]) && Seen(oldest, next[j])
      invariant forall j, b :: 0 <= j < k && 0 <= b < |bk| ==>
                  (AnyCurrent(next[j], b, bk[b].gen) <==> AnyCurrent(keys[j], b, bk[b].gen))
    {
      var q, r := GcKey(bk, keys, next, keys[k], oldest);
      forall j | 0 <= j < k
        ensures Seen(r, next[j])
      {
        SeenLower(oldest, r, next[j]);
      }
      next, oldest := next + [q], r;
    }
    forall b | 0 <= b < |bk|
      ensures InUse(next, b, bk[b].gen) <==> InUse(keys, b, bk[b].gen)
    {
      if j :| 0 <= j < |keys| && AnyCurrent(keys[j], b, bk[b].gen) { assert AnyCurrent(next[j], b, bk[b].gen); }
    }
  }

  lemma NothingNoted(bk: seq<Bucket>, keys: seq<seq<Ptr>>, oldest: seq<nat>)
    requires StateOk(bk, keys) && |oldest| == |bk| && forall b :: 0 <= b < |bk| ==> oldest[b] == bk[b].gen
    ensures OldestOk(bk, oldest) && Tight(bk, [], oldest)
  {
    assert forall b :: 0 <= b < |bk| ==> BucketOk(keys, b, bk[b]);
  }

  /** Raising oldest_gen to what was found outdates no pointer. */
  lemma {:induction false} OldestWritten(bk: seq<Bucket>, keys: seq<seq<Ptr>>, oldest: seq<nat>, b: nat)
    requires b < |bk| == |oldest| && forall k :: 0 <= k < |keys| ==> PtrsOk(bk, keys[k]) && Seen(oldest, keys[k])
    requires bk[b].oldestGen <= oldest[b] <= bk[b].gen
    ensures forall k :: 0 <= k < |keys| ==> PtrsOk(bk[b := bk[b].(oldestGen := oldest[b])], keys[k])
  {
    forall k, i | 0 <= k < |keys| && 0 <= i < |keys[k]|
      ensures PtrOk(bk[b := bk[b].(oldestGen := oldest[b])], keys[k][i])
    {
      assert PtrOk(bk, keys[k][i]);
    }
  }

  // ---- whole runs ----

  datatype Op =
    | OpenBucket(bucket: nat)
    | CloseBucket(bucket: nat)
    | SetExtent(key: nat, ptrs: seq<Ptr>, touched: set<nat>)
    | Discard(bucket: nat)
    | GcGens

  class Generations {
    var bk: seq<Bucket>
    var keys: seq<seq<Ptr>>

    /** Any state within bounds may be the first one: a mounted filesystem brings its own. */
    constructor (bk: seq<Bucket>, keys: seq<seq<Ptr>>)
      requires StateOk(bk, keys)
      ensures this.bk == bk && this.keys == keys
    {
      this.bk, this.keys := bk, keys;
    }

    /** The allocator opens a bucket that is free. */
    method OpenBucket(b: nat)
      requires StateOk(bk, keys) && b < |bk|
      modifies this
      ensures StateOk(bk, keys) && keys == old(keys)
      ensures bk == if TypeOf(keys, b, old(bk)[b]) == Free && !old(bk)[b].open
                    then old(bk)[b := old(bk)[b].(open := true)] else old(bk)
    {
      hide InUse;
      if TypeOf(keys, b, bk[b]) == Free && !bk[b].open {
        FreeHasRoom(keys, b, bk[b]);
        FlagsOnly(bk, keys, b, bk[b].(open := true));
        bk := bk[b := bk[b].(open := true)];
      }
    }

    method CloseBucket(b: nat)
      requires StateOk(bk, keys) && b < |bk|
      modifies this
      ensures StateOk(bk, keys) && keys == old(keys) && bk == old(bk)[b := old(bk)[b].(open := false)]
    {
      FlagsOnly(bk, keys, b, bk[b].(open := false));
      bk := bk[b := bk[b].(open := false)];
    }

    /** A transaction replaces an extent; the trigger runs for every bucket whose alloc key it updates. */
    method SetExtent(k: nat, ptrs: seq<Ptr>, touched: set<nat>)
      requires StateOk(bk, keys) && k < |keys| && forall i :: 0 <= i < |ptrs| ==> Admissible(bk, keys, ptrs[i])
      requires forall b :: 0 <= b < |bk| && (InUse(keys, b, bk[b].gen) != InUse(keys[k := ptrs], b, bk[b].gen)) ==> b in touched
      modifies this
      ensures StateOk(bk, keys) && keys == old(keys)[k := ptrs] && |bk| == |old(bk)|
      ensures forall b :: 0 <= b < |bk| ==>
                bk[b] == if b in touched
                         then Triggered(InUse(old(keys), b, old(bk)[b].gen), InUse(keys, b, old(bk)[b].gen), old(bk)[b])
                         else old(bk)[b]
    {
      hide InUse, Admissible, Triggered, PtrsOk;
      ghost var was, first := keys, bk;
      var next := keys[k := ptrs];
      ReplaceKeeps(bk, keys, next, k);
      for b := 0 to |bk|
        invariant keys == was && |bk| == |first| && forall j :: 0 <= j < |next| ==> PtrsOk(bk, next[j])
        invariant forall c :: b <= c < |bk| ==> bk[c] == first[c]
        invariant forall c :: 0 <= c < b ==> BucketOk(next, c, bk[c])
        invariant forall c :: 0 <= c < b ==>
                    bk[c] == if c in touched
                             then Triggered(InUse(was, c, first[c].gen), InUse(next, c, first[c].gen), first[c]) else first[c]
      {
        if b in touched {
          TriggerKeeps(bk, next, b, InUse(keys, b, bk[b].gen));
          bk := bk[b := Triggered(InUse(keys, b, bk[b].gen), InUse(next, b, bk[b].gen), bk[b])];
        }
      }
      keys := next;
    }

    /** bch2_discard_one_bucket: the flag is cleared, and the update runs the trigger. */
    method Discard(b: nat)
      requires StateOk(bk, keys) && b < |bk|
      modifies this
      ensures StateOk(bk, keys) && keys == old(keys)
      ensures bk == if TypeOf(keys, b, old(bk)[b]) == NeedDiscard && !old(bk)[b].open
                    then old(bk)[b := Triggered(false, false, old(bk)[b].(needDiscard := false))] else old(bk)
    {
      hide InUse, Triggered;
      if TypeOf(keys, b, bk[b]) == NeedDiscard && !bk[b].open {
        var m := bk[b].(needDiscard := false);
        FlagsOnly(bk, keys, b, m);
        TriggerKeeps(bk[b := m], keys, b, false);
        assert bk[b := m][b := Triggered(false, false, m)] == bk[b := Triggered(false, false, m)];
        bk := bk[b := Triggered(false, false, m)];
      }
    }

    /** bch2_gc_gens: afterwards every generation is close to the oldest one in use. */
    method GcGens()
      requires StateOk(bk, keys)
      modifies this
      ensures StateOk(bk, keys) && |bk| == |old(bk)| && |keys| == |old(keys)|
      ensures forall k :: 0 <= k < |keys| ==>
                PtrsOk(old(bk), old(keys)[k]) && (keys[k] == old(keys)[k] || keys[k] == Normalized(old(bk), old(keys)[k]))
      ensures forall b :: 0 <= b < |bk| ==> Collected(old(bk)[b], bk[b], keys, b)
    {
      hide InUse, Triggered, PtrsOk, Seen, Tight, Collected, Normalized;
      ghost var first := bk;
      var next, oldest := GcKeys(bk, keys);
      forall b | 0 <= b < |bk|
        ensures BucketOk(next, b, bk[b])
      {
        SameUse(keys, next, b, bk[b]);
      }
      for b := 0 to |bk|
        invariant |bk| == |first| && OldestOk(first, oldest)
        invariant forall k :: 0 <= k < |next| ==> PtrsOk(bk, next[k]) && Seen(oldest, next[k])
        invariant forall c :: 0 <= c < |bk| ==> BucketOk(next, c, bk[c])
        invariant forall c :: b <= c < |bk| ==> bk[c] == first[c]
        invariant forall c :: 0 <= c < b ==> Collected(first[c], bk[c], next, c)
      {
        CollectOne(first, bk, next, oldest, b);
        if Low8(bk[b].oldestGen) != Low8(oldest[b]) {
          var m := bk[b].(oldestGen := oldest[b]);
          bk := bk[b := Triggered(InUse(next, b, m.gen), InUse(next, b, m.gen), m)];
        }
      }
      keys := next;
    }

    /** One step, if it is possible in the current state. */
    method Step(op: Op)
      requires StateOk(bk, keys)
      modifies this
      ensures StateOk(bk, keys)
    {
      hide InUse, Admissible, Triggered;
      match op
      case OpenBucket(b) => if b < |bk| { OpenBucket(b); }
      case CloseBucket(b) => if b < |bk| { CloseBucket(b); }
      case SetExtent(k, ptrs, touched) =>
        if k < |keys| && (forall i :: 0 <= i < |ptrs| ==> Admissible(bk, keys, ptrs[i]))
           && (forall b :: 0 <= b < |bk| && InUse(keys, b, bk[b].gen) != InUse(keys[k := ptrs], b, bk[b].gen) ==> b in touched)
        {
          SetExtent(k, ptrs, touched);
        }
      case Discard(b) => if b < |bk| { Discard(b); }
      case GcGens => GcGens();
    }

    /** In every run the 8-bit comparisons agree with the counters. */
    method Run(ops: seq<Op>)
      requires StateOk(bk, keys)
      modifies this
      ensures StateOk(bk, keys)
      ensures forall b :: 0 <= b < |bk| ==> GcGen(bk[b]) == bk[b].gen - bk[b].oldestGen <= BUCKET_GC_GEN_MAX
      ensures forall k, i :: 0 <= k < |keys| && 0 <= i < |keys[k]| ==>
                var p := keys[k][i];
                p.bucket < |bk| && bk[p.bucket].oldestGen <= p.gen <= bk[p.bucket].gen
                && GenAfter(Low8(bk[p.bucket].gen), Low8(p.gen)) == bk[p.bucket].gen - p.gen
    {
      hide InUse, GenAfter, GcGen, Low8;
      for i := 0 to |ops|
        invariant StateOk(bk, keys)
      {
        Step(ops[i]);
      }
      forall b | 0 <= b < |bk|
        ensures GcGen(bk[b]) == bk[b].gen - bk[b].oldestGen <= BUCKET_GC_GEN_MAX
      {
        GcGenIs(keys, b, bk[b]);
      }
      forall k, i | 0 <= k < |keys| && 0 <= i < |keys[k]|
        ensures var p := keys[k][i];
                p.bucket < |bk| && bk[p.bucket].oldestGen <= p.gen <= bk[p.bucket].gen
                && GenAfter(Low8(bk[p.bucket].gen), Low8(p.gen)) == bk[p.bucket].gen - p.gen
      {
        ComparisonsSound(bk, keys, k, i);
        assert PtrOk(bk, keys[k][i]);
      }
    }
  }

  lemma GcGenIs(keys: seq<seq<Ptr>>, b: nat, k: Bucket)
    requires BucketOk(keys, b, k)
    ensures GcGen(k) == k.gen - k.oldestGen <= BUCKET_GC_GEN_MAX
  {
    WrapAround(k.gen, k.oldestGen);
  }

  /** A bucket after bch2_gc_gens: at most 16 behind (17 if its generation was raised on the way), and no further than needed. */
  ghost predicate Collected(o: Bucket, n: Bucket, keys: seq<seq<Ptr>>, b: nat)
  {
    && o.oldestGen <= n.oldestGen && o.gen <= n.gen <= o.gen + 1 && n.gen <= n.oldestGen + 17
    && (n.oldestGen < o.gen ==> HasPtr(keys, b, n.oldestGen))
  }

  lemma SameUse(keys: seq<seq<Ptr>>, next: seq<seq<Ptr>>, b: nat, k: Bucket)
    requires BucketOk(keys, b, k) && (InUse(next, b, k.gen) <==> InUse(keys, b, k.gen))
    ensures BucketOk(next, b, k)
  {
  }

  /** Flags other than the open flag do not matter for pointers; opening needs room. */
  lemma FlagsOnly(bk: seq<Bucket>, keys: seq<seq<Ptr>>, b: nat, k: Bucket)
    requires StateOk(bk, keys) && b < |bk| && k.gen == bk[b].gen && k.oldestGen == bk[b].oldestGen && k.needIncGen == bk[b].needIncGen
    requires k.open && !bk[b].open ==> k.gen < k.oldestGen + BUCKET_GC_GEN_MAX
    ensures StateOk(bk[b := k], keys)
  {
    hide InUse;
    forall j, i | 0 <= j < |keys| && 0 <= i < |keys[j]|
      ensures PtrOk(bk[b := k], keys[j][i])
    {
      assert PtrOk(bk, keys[j][i]);
    }
  }

  lemma {:induction false} CollectOne(first: seq<Bucket>, bk: seq<Bucket>, keys: seq<seq<Ptr>>, oldest: seq<nat>, b: nat)
    requires b < |bk| == |first| && OldestOk(first, oldest) && bk[b] == first[b] && BucketOk(keys, b, bk[b])
    requires Tight(first, keys, oldest)
    requires forall k :: 0 <= k < |keys| ==> PtrsOk(bk, keys[k]) && Seen(oldest, keys[k])
    ensures var m := bk[b].(oldestGen := oldest[b]);
            var r := Triggered(InUse(keys, b, m.gen), InUse(keys, b, m.gen), m);
            && BucketOk(keys, b, r) && Collected(first[b], r, keys, b)
            && forall k :: 0 <= k < |keys| ==> PtrsOk(bk[b := r], keys[k])
    ensures Low8(bk[b].oldestGen) == Low8(oldest[b]) ==> Collected(first[b], bk[b], keys, b)
  {
    hide InUse, PtrsOk, Seen, HasPtr;
    var m := bk[b].(oldestGen := oldest[b]);
    OldestWritten(bk, keys, oldest, b);
    TriggerKeeps(bk[b := m], keys, b, InUse(keys, b, m.gen));
    var r := Triggered(InUse(keys, b, m.gen), InUse(keys, b, m.gen), m);
    assert bk[b := m][b := r] == bk[b := r];
    WrapAround(oldest[b], bk[b].oldestGen);
    WrapAround(m.gen, m.oldestGen);
  }
}
