/**
 When may an emptied bucket be written again? The part of bch2_trigger_alloc that
 records journal sequence numbers, the journal's promise not to flush a range, the
 table of buckets waiting for a flush, and the check made before reuse or discard.

 The journal is a numbered sequence of entries. After a crash the filesystem comes
 back as it was after some entry whose write was a flush. Each bucket has the list
 of its committed alloc keys, so that the state after any entry can be told.
 */
module BucketJournal {

  /** The fields of bch_alloc_v4 the protocol uses. */
  datatype Alloc = Alloc(empty: bool, seqNonempty: nat, seqEmpty: nat)

  /** One committed update of a bucket's alloc key. */
  datatype Update = Update(entry: nat, a: Alloc)

  /**
   cur: entry being filled; unwritten: oldest entry not yet on disk; flushed: newest
   entry known to be flushed; mustFlush and noflush: the promises made for entries;
   started: entries whose write has been started.
   */
  datatype Journal = Journal(cur: nat, unwritten: nat, flushed: nat, mustFlush: set<nat>, noflush: set<nat>, started: set<nat>)

  /** A crash, now or later, may bring back the state after entry s. */
  ghost predicate Recoverable(j: Journal, s: nat)
  {
    j.flushed <= s <= j.cur && s !in j.noflush
  }

  ghost predicate JournalOk(j: Journal)
  {
    && j.flushed < j.unwritten <= j.cur
    && forall s :: j.flushed < s < j.unwritten ==> s in j.noflush
  }

  ghost predicate LogOk(log: seq<Update>, seqNow: nat)
  {
    && |log| > 0 && log[0].entry == 0
    && (forall i :: 0 <= i < |log| ==> log[i].entry <= seqNow && log[i].a.seqNonempty <= log[i].entry)
    && forall i, k :: 0 <= i < k < |log| ==> log[i].entry <= log[k].entry
  }

  /** The alloc key after entry s: the last update that is not newer. */
  ghost function At(log: seq<Update>, s: nat): (a: Alloc)
    requires |log| > 0 && log[0].entry == 0
  {
    if log[|log| - 1].entry <= s then log[|log| - 1].a else At(log[..|log| - 1], s)
  }

  lemma {:induction false} AtSeq(log: seq<Update>, s: nat, n: nat)
    requires LogOk(log, n)
    ensures At(log, s).seqNonempty <= s
  {
    if log[|log| - 1].entry > s { AtSeq(log[..|log| - 1], s, n); }
  }

  lemma AtAppend(log: seq<Update>, u: Update, s: nat)
    requires |log| > 0 && log[0].entry == 0
    ensures At(log + [u], s) == if u.entry <= s then u.a else At(log, s)
  {
    assert (log + [u])[..|log|] == log;
  }

  /** Every state of bucket b with data that a crash could bring back is waited for or recorded. */
  ghost predicate Covered(j: Journal, log: seq<Update>, waiting: nat)
    requires LogOk(log, j.cur)
  {
    var now := log[|log| - 1].a;
    forall s: nat :: Recoverable(j, s) && !At(log, s).empty ==> s < waiting || (!now.empty && now.seqNonempty <= s)
  }

  /** Making fewer states recoverable keeps a bucket covered. */
  lemma CoveredShrink(j: Journal, k: Journal, log: seq<Update>, waiting: nat)
    requires LogOk(log, j.cur) && Covered(j, log, waiting) && k.cur == j.cur
    requires forall s :: Recoverable(k, s) ==> Recoverable(j, s)
    ensures Covered(k, log, waiting)
  {
  }

  // ---- one update of a bucket ----

  /** Some entry of the range is flushed already, or a flush of an entry before its end is under way or asked for. */
  ghost predicate MustFlushWithin(j: Journal, from: nat, to: nat)
  {
    from <= j.flushed || exists s :: j.unwritten <= s < to && s in j.mustFlush
  }

  /** The write of entry s has not been started. */
  predicate MayStart(j: Journal, s: nat) { j.unwritten <= s < j.cur && s !in j.started }

  /** The range [from, to) can no longer come back. */
  ghost predicate NeverFlushed(j: Journal, from: nat, to: nat)
  {
    forall s :: from <= s < to ==> !Recoverable(j, s)
  }

  lemma {:induction false} BecomesEmpty(j: Journal, k: Journal, log: seq<Update>, waiting: nat, q: nat, forgotten: bool)
    requires LogOk(log, j.cur) && Covered(j, log, waiting) && k.cur == j.cur && q <= j.cur
    requires forall s :: Recoverable(k, s) ==> Recoverable(j, s)
    requires log[|log| - 1].entry <= q && !log[|log| - 1].a.empty
    requires forgotten ==> NeverFlushed(k, log[|log| - 1].a.seqNonempty, q)
    ensures LogOk(log + [Update(q, Alloc(true, 0, if forgotten then 0 else q))], k.cur)
    ensures Covered(k, log + [Update(q, Alloc(true, 0, if forgotten then 0 else q))], if forgotten then waiting else q)
    ensures var a := Alloc(true, log[|log| - 1].a.seqNonempty, q);
            LogOk(log + [Update(q, a)], k.cur) && Covered(k, log + [Update(q, a)], if forgotten then waiting else q)
  {
    hide At;
    forall s, u: Update | u.entry == q
      ensures At(log + [u], s) == if u.entry <= s then u.a else At(log, s)
    {
      AtAppend(log, u, s);
    }
  }

  lemma {:induction false} StaysCovered(j: Journal, log: seq<Update>, waiting: nat, q: nat, a: Alloc)
    requires LogOk(log, j.cur) && Covered(j, log, waiting) && log[|log| - 1].entry <= q <= j.cur
    requires a.seqNonempty <= q
    requires a.empty ==> log[|log| - 1].a.empty
    requires !a.empty && !log[|log| - 1].a.empty ==> a.seqNonempty == log[|log| - 1].a.seqNonempty
    ensures LogOk(log + [Update(q, a)], j.cur) && Covered(j, log + [Update(q, a)], waiting)
  {
    hide At;
    forall s
      ensures At(log + [Update(q, a)], s) == if q <= s then a else At(log, s)
    {
      AtAppend(log, Update(q, a), s);
    }
  }

  /** An update in entry q leaves the bucket waiting for a flush. */
  ghost predicate Waits(o: Alloc, nowEmpty: bool, q: nat, j: Journal, canPromise: bool)
  {
    !o.empty && nowEmpty && o.seqNonempty != q && (!canPromise || MustFlushWithin(j, o.seqNonempty, q))
  }

  /** The alloc key an update in entry q leaves. */
  ghost function Recorded(o: Alloc, nowEmpty: bool, q: nat, j: Journal, canPromise: bool): Alloc
  {
    if o.empty && !nowEmpty && o.seqEmpty <= j.flushed then Alloc(false, q, 0)
    else if !o.empty && nowEmpty then (if Waits(o, nowEmpty, q, j, canPromise) then Alloc(true, o.seqNonempty, q) else Alloc(true, 0, 0))
    else o.(empty := nowEmpty)
  }

  // ---- the filesystem ----

  class Filesystem {
    /** The journal_no_flush feature. */
    const noFlushFeature: bool
    var journal: Journal
    var logs: seq<seq<Update>>
    /** bch2_bucket_journal_seq_ready, for each bucket. */
    var waiting: seq<nat>

    ghost predicate Ok()
      reads this
    {
      && JournalOk(journal) && |waiting| == |logs|
      && forall b :: 0 <= b < |logs| ==> LogOk(logs[b], journal.cur) && Covered(journal, logs[b], waiting[b])
    }

    function Current(b: nat): Alloc
      requires b < |logs| && |logs[b]| > 0
      reads this
    {
      logs[b][|logs[b]| - 1].a
    }

    constructor (buckets: nat, noFlushFeature: bool)
      ensures Ok() && |logs| == buckets && this.noFlushFeature == noFlushFeature
    {
      this.noFlushFeature := noFlushFeature;
      journal := Journal(1, 1, 0, {}, {}, {});
      logs := seq(buckets, i => [Update(0, Alloc(true, 0, 0))]);
      waiting := seq(buckets, i => 0);
    }

    /** may_alloc_bucket and the same test in bch2_discard_one_bucket. */
    method MayReuse(b: nat, open: bool) returns (ok: bool)
      requires Ok() && b < |logs|
      ensures ok <==> !open && waiting[b] <= journal.flushed
      ensures ok && Current(b).empty ==> forall s :: Recoverable(journal, s) ==> At(logs[b], s).empty
    {
      ok := !open && waiting[b] <= journal.flushed;
    }

    /** A new journal entry is opened. */
    method OpenEntry()
      requires Ok()
      modifies this
      ensures Ok() && logs == old(logs) && waiting == old(waiting) && journal == old(journal).(cur := old(journal).cur + 1)
    {
      hide LogOk, At;
      var n := journal.cur + 1;
      forall b | 0 <= b < |logs|
        ensures LogOk(logs[b], n) && Covered(journal.(cur := n), logs[b], waiting[b])
      {
        EntryOpened(journal, logs[b], waiting[b]);
      }
      journal := journal.(cur := n);
    }

    /** bch2_journal_flush_seq_async, for an entry that was not promised to stay unflushed. */
    method RequestFlush(s: nat)
      requires Ok()
      modifies this`journal
      ensures Ok() && journal == if old(journal).unwritten <= s <= old(journal).cur && s !in old(journal).noflush
                                 then old(journal).(mustFlush := old(journal).mustFlush + {s}) else old(journal)
    {
      if journal.unwritten <= s <= journal.cur && s !in journal.noflush {
        journal := journal.(mustFlush := journal.mustFlush + {s});
      }
    }

    /**
     bch2_journal_write_pick_flush, when the write of an entry starts. error: the journal
     has failed; firstFlush: no flush was written since startup; maySkip: the delay since
     the last flush allows to go without. After an error nothing is flushed any more, not
     even where that was asked for, and before the first flush nothing is written.
     */
    method PickFlush(s: nat, error: bool, firstFlush: bool, maySkip: bool) returns (failed: bool)
      requires Ok()
      modifies this`journal
      ensures Ok() && (failed <==> MayStart(old(journal), s) && error && firstFlush)
      ensures failed || !MayStart(old(journal), s) ==> journal == old(journal)
      ensures MayStart(old(journal), s) && !failed ==>
                var j := old(journal).(started := old(journal).started + {s});
                journal == if error || s in j.noflush || (s !in j.mustFlush && maySkip)
                           then j.(noflush := j.noflush + {s}) else j.(mustFlush := j.mustFlush + {s})
    {
      if !MayStart(journal, s) { return false; }
      if error && firstFlush { return true; }
      var j := journal.(started := journal.started + {s});
      if error || s in journal.noflush || (s !in journal.mustFlush && maySkip) {
        Shrink(j.(noflush := j.noflush + {s}));
      } else {
        Shrink(j.(mustFlush := j.mustFlush + {s}));
      }
      return false;
    }

    /** The oldest write that was started completes. */
    method WriteDone()
      requires Ok()
      modifies this`journal
      ensures Ok() && journal.flushed >= old(journal.flushed)
      ensures var j, s := old(journal), old(journal).unwritten;
              journal == if s !in j.started || s == j.cur then j
                         else if s in j.noflush then j.(unwritten := s + 1) else j.(unwritten := s + 1, flushed := s)
    {
      var s := journal.unwritten;
      if s !in journal.started || s == journal.cur { return; }
      if s in journal.noflush {
        Shrink(journal.(unwritten := s + 1));
      } else {
        Shrink(journal.(unwritten := s + 1, flushed := s));
      }
    }

    /** The journal changes so that no further state becomes recoverable. */
    method Shrink(k: Journal)
      requires Ok() && JournalOk(k) && k.cur == journal.cur
      requires forall s :: Recoverable(k, s) ==> Recoverable(journal, s)
      modifies this`journal
      ensures Ok() && journal == k
    {
      hide LogOk, At, Recoverable, JournalOk;
      forall b | 0 <= b < |logs|
        ensures Covered(k, logs[b], waiting[b])
      {
        CoveredShrink(journal, k, logs[b], waiting[b]);
      }
      journal := k;
    }

    /** bch2_journal_noflush_seq. On failure some entries may have been marked all the same. */
    method NoflushSeq(start: nat, end: nat) returns (ok: bool)
      requires Ok() && end <= journal.cur
      modifies this`journal
      ensures Ok() && journal.cur == old(journal.cur) && journal.flushed == old(journal.flushed)
      ensures journal.unwritten == old(journal.unwritten) && journal.mustFlush == old(journal.mustFlush)
      ensures journal.started == old(journal.started)
      ensures forall s :: Recoverable(journal, s) ==> old(Recoverable(journal, s))
      ensures ok ==> journal.flushed < start && NeverFlushed(journal, start, end)
      ensures ok <==> noFlushFeature && !MustFlushWithin(journal, start, end)
    {
      hide LogOk, Covered;
      if !noFlushFeature { return false; }
      if journal.flushed >= start { return false; }
      var s := journal.unwritten;
      while s < end
        invariant Ok() && journal.unwritten <= s
        invariant journal == old(journal).(noflush := journal.noflush) && old(journal).noflush <= journal.noflush
        invariant forall i :: journal.unwritten <= i < s && i < end ==> i in journal.noflush && i !in journal.mustFlush
      {
        if s in journal.mustFlush { return false; }
        Shrink(journal.(noflush := journal.noflush + {s}));
        s := s + 1;
      }
      return true;
    }

    /**
     The atomic part of bch2_trigger_alloc, for a commit in entry q. The entry is not
     yet written, and updates of one bucket commit in order.
     */
    method Commit(b: nat, q: nat, nowEmpty: bool)
      requires Ok() && b < |logs| && journal.unwritten <= q <= journal.cur && logs[b][|logs[b]| - 1].entry <= q
      modifies this
      ensures Ok() && |logs| == |old(logs)| && journal.cur == old(journal).cur && journal.flushed == old(journal).flushed
      ensures logs == old(logs)[b := old(logs)[b] + [Update(q, Recorded(old(Current(b)), nowEmpty, q, old(journal), noFlushFeature))]]
      ensures waiting == if Waits(old(Current(b)), nowEmpty, q, old(journal), noFlushFeature) then old(waiting)[b := q] else old(waiting)
    {
      hide At, Covered;
      var o := Current(b);
      var a := o.(empty := nowEmpty);
      if a.seqNonempty > q { a := a.(seqNonempty := q); }
      if o.empty && !nowEmpty && a.seqEmpty <= journal.flushed {
        a := a.(seqNonempty := q, seqEmpty := 0);
      }
      if !o.empty && nowEmpty {
        Emptied(b, q, a);
      } else {
        StaysCovered(journal, logs[b], waiting[b], q, a);
        logs := logs[b := logs[b] + [Update(q, a)]];
      }
    }

    /** The branch taken when the last sectors of a bucket go away. */
    method Emptied(b: nat, q: nat, a: Alloc)
      requires Ok() && b < |logs| && journal.unwritten <= q <= journal.cur && logs[b][|logs[b]| - 1].entry <= q
      requires !Current(b).empty && a.empty && a.seqNonempty == Current(b).seqNonempty
      modifies this
      ensures Ok() && |logs| == |old(logs)| && journal.cur == old(journal).cur && journal.flushed == old(journal).flushed
      ensures logs == old(logs)[b := old(logs)[b] + [Update(q, Recorded(old(Current(b)), true, q, old(journal), noFlushFeature))]]
      ensures waiting == if Waits(old(Current(b)), true, q, old(journal), noFlushFeature) then old(waiting)[b := q] else old(waiting)
    {
      hide At, Covered, Recoverable;
      ghost var j := journal;
      var forgotten := a.seqNonempty == q;
      if !forgotten { forgotten := NoflushSeq(a.seqNonempty, q); }
      BecomesEmpty(j, journal, logs[b], old(waiting)[b], q, forgotten);
      if forgotten {
        logs := logs[b := logs[b] + [Update(q, Alloc(true, 0, 0))]];
      } else {
        logs := logs[b := logs[b] + [Update(q, Alloc(true, a.seqNonempty, q))]];
        waiting := waiting[b := q];
      }
    }

    /** The table may drop a bucket once its entry is flushed. */
    method Evict(b: nat)
      requires Ok() && b < |logs|
      modifies this
      ensures Ok() && journal == old(journal) && logs == old(logs)
      ensures waiting == if old(waiting)[b] <= journal.flushed then old(waiting)[b := 0] else old(waiting)
    {
      if waiting[b] <= journal.flushed { waiting := waiting[b := 0]; }
    }

    /**
     A crash after which the state after entry s is read back. Entry numbers continue
     past all that were used, and the table of waiting buckets starts out empty.
     */
    method CrashAndRecover(s: nat, next: nat)
      requires Ok() && Recoverable(journal, s) && journal.cur < next
      modifies this
      ensures Ok() && |logs| == |old(logs)| && journal == Journal(next, next, s, {}, Between(s, next), {})
      ensures forall b :: 0 <= b < |logs| ==> Current(b) == At(old(logs)[b], s) && waiting[b] == 0
    {
      hide At, Covered;
      ghost var j, was := journal, logs;
      var k := Journal(next, next, s, {}, Between(s, next), {});
      forall b | 0 <= b < |logs|
        ensures LogOk(Replayed(logs[b], s), k.cur) && Covered(k, Replayed(logs[b], s), 0)
        ensures Replayed(logs[b], s)[|Replayed(logs[b], s)| - 1].a == At(logs[b], s)
      {
        ReplayedIsAt(j, k, logs[b], s);
      }
      logs := seq(|logs|, b requires 0 <= b < |logs| && |logs[b]| > 0 && logs[b][0].entry == 0 reads this => Replayed(logs[b], s));
      waiting := seq(|logs|, b => 0);
      journal := k;
    }

    /** In no run does a bucket pass the check while a recoverable state points into it. */
    method Run(ops: seq<Op>)
      requires Ok()
      modifies this
      ensures Ok() && |logs| == |old(logs)|
      ensures forall b, s :: 0 <= b < |logs| && Current(b).empty && waiting[b] <= journal.flushed && Recoverable(journal, s) ==>
                At(logs[b], s).empty
    {
      hide LogOk, Covered, At, Recoverable, JournalOk;
      for i := 0 to |ops|
        invariant Ok() && |logs| == |old(logs)|
      {
        Step(ops[i]);
      }
      OkIsSafe();
    }

    /** One step, if it is possible in the current state. */
    method Step(op: Op)
      requires Ok()
      modifies this
      ensures Ok() && |logs| == |old(logs)|
    {
      hide Covered, At;
      match op
      case Open => OpenEntry();
      case Request(s) => RequestFlush(s);
      case Start(s, error, firstFlush, maySkip) => var failed := PickFlush(s, error, firstFlush, maySkip);
      case Done => WriteDone();
      case Write(b, q, e) =>
        if b < |logs| && journal.unwritten <= q <= journal.cur && logs[b][|logs[b]| - 1].entry <= q { Commit(b, q, e); }
      case Evict(b) => if b < |logs| { Evict(b); }
      case Crash(s, next) => if journal.flushed <= s <= journal.cur < next && s !in journal.noflush { CrashAndRecover(s, next); }
    }

    lemma OkIsSafe()
      requires Ok()
      ensures forall b, s :: 0 <= b < |logs| && Current(b).empty && waiting[b] <= journal.flushed && Recoverable(journal, s) ==>
                At(logs[b], s).empty
    {
      hide At, JournalOk;
    }
  }

  /** Entries passed over when numbering continues after a crash: they never come back. */
  function Between(s: nat, n: nat): (r: set<nat>)
    ensures forall i :: i in r <==> s < i < n
  {
    if n <= s + 1 then {} else Between(s, n - 1) + {n - 1}
  }

  /** What survives recovery to entry s. */
  function Replayed(log: seq<Update>, s: nat): (r: seq<Update>)
    requires |log| > 0 && log[0].entry == 0
    ensures 0 < |r| <= |log| && r == log[..|r|]
  {
    if log[|log| - 1].entry <= s then log else assert log[..|log| - 1][0] == log[0]; Replayed(log[..|log| - 1], s)
  }

  /** Recovery brings back exactly the state after entry s, and nothing of it is a leftover. */
  lemma {:induction false} ReplayedIsAt(j: Journal, k: Journal, log: seq<Update>, s: nat)
    requires LogOk(log, j.cur) && s <= k.cur
    requires forall i :: Recoverable(k, i) ==> s <= i
    ensures LogOk(Replayed(log, s), k.cur) && Replayed(log, s)[|Replayed(log, s)| - 1].a == At(log, s)
    ensures Covered(k, Replayed(log, s), 0)
  {
    if log[|log| - 1].entry <= s {
      assert log[|log| - 1].a.seqNonempty <= s;
    } else {
      ReplayedIsAt(j, k, log[..|log| - 1], s);
    }
  }

  /** The whole of a run: what may happen, in any order and any number of times. */
  datatype Op =
    | Open
    | Request(entry: nat)
    | Start(entry: nat, error: bool, firstFlush: bool, maySkip: bool)
    | Done
    | Write(bucket: nat, entry: nat, empty: bool)
    | Evict(bucket: nat)
    | Crash(entry: nat, next: nat)

  /** Without the check a crash could bring back pointers into a bucket that is empty now. */
  lemma CheckMatters()
    ensures exists j: Journal, log: seq<Update>, waiting: nat, s: nat ::
              && JournalOk(j) && LogOk(log, j.cur) && Covered(j, log, waiting)
              && log[|log| - 1].a.empty && waiting > j.flushed && Recoverable(j, s) && !At(log, s).empty
  {
    var j := Journal(2, 2, 1, {1}, {}, {1});
    var start := [Update(0, Alloc(true, 0, 0)), Update(1, Alloc(false, 1, 0))];
    var u := Update(2, Alloc(true, 1, 2));
    AtAppend(start, u, 1);
    AtAppend(start, u, 2);
    assert Covered(j, start + [u], 2);
    assert Recoverable(j, 1) && !At(start + [u], 1).empty;
  }

  lemma EntryOpened(j: Journal, log: seq<Update>, waiting: nat)
    requires LogOk(log, j.cur) && Covered(j, log, waiting)
    ensures LogOk(log, j.cur + 1) && Covered(j.(cur := j.cur + 1), log, waiting)
  {
    var k := j.(cur := j.cur + 1);
    forall s: nat | Recoverable(k, s) && !At(log, s).empty
      ensures s < waiting || (!log[|log| - 1].a.empty && log[|log| - 1].a.seqNonempty <= s)
    {
      if s <= j.cur { assert Recoverable(j, s); }
    }
  }
}
