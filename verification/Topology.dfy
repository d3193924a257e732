/**
 Repairing the ranges of a btree's nodes (bch2_btree_repair_topology_recurse and the
 functions it uses in libbcachefs/btree_gc.c). The children of an interior node must
 tile its range; children that overlap or leave gaps are trimmed, extended or
 dropped, and gaps above the leaves are first filled with nodes found by scanning.

 Positions are numbers in the order of bpos, bpos_successor adding one.
 */
module Topology {

  /** A node: its range, BTREE_NODE_SEQ, whether it is unreadable or stale, and its children by max. */
  datatype Node = Node(min: nat, max: nat, version: nat, bad: bool, kids: seq<Node>)

  ghost predicate SortedByMax(kids: seq<Node>)
  {
    forall i, j :: 0 <= i < j < |kids| ==> kids[i].max < kids[j].max
  }

  ghost predicate EndIn(kids: seq<Node>, lo: nat, hi: nat)
  {
    forall i :: 0 <= i < |kids| ==> lo <= kids[i].max <= hi
  }

  /** What can be relied on before repair: children are keyed by their ends, which lie in the parent. */
  ghost predicate Wf(n: Node, level: nat)
    decreases level, 0
  {
    && n.min <= n.max
    && if level == 0 then n.kids == [] else SortedByMax(n.kids) && EndIn(n.kids, n.min, n.max) && AllWf(n.kids, level - 1)
  }

  ghost predicate AllWf(kids: seq<Node>, level: nat)
    decreases level, 1
  {
    forall i :: 0 <= i < |kids| ==> Wf(kids[i], level)
  }

  /** Each child starts right after the one before; the first starts at lo. */
  ghost predicate Contiguous(kids: seq<Node>, lo: nat)
  {
    && (|kids| > 0 ==> kids[0].min == lo)
    && forall i :: 0 < i < |kids| ==> kids[i].min == kids[i - 1].max + 1
  }

  /** No gap, no overlap, and nothing missing at either end. */
  ghost predicate Tiles(kids: seq<Node>, lo: nat, hi: nat)
  {
    |kids| > 0 && Contiguous(kids, lo) && kids[|kids| - 1].max == hi
  }

  ghost predicate Repaired(n: Node, level: nat)
    decreases level, 0
  {
    level > 0 ==> Tiles(n.kids, n.min, n.max) && AllRepaired(n.kids, level - 1)
  }

  ghost predicate AllRepaired(kids: seq<Node>, level: nat)
    decreases level, 1
  {
    forall i :: 0 <= i < |kids| ==> Repaired(kids[i], level)
  }

  ghost predicate NoneBad(n: Node, level: nat)
    decreases level, 0
  {
    !n.bad && (level > 0 ==> AllNotBad(n.kids, level - 1))
  }

  ghost predicate AllNotBad(kids: seq<Node>, level: nat)
    decreases level, 1
  {
    forall i :: 0 <= i < |kids| ==> NoneBad(kids[i], level)
  }

  /** Tiles means: every position of the range is in exactly one child. */
  lemma {:induction false} TilesCover(kids: seq<Node>, lo: nat, hi: nat, level: nat, p: nat) returns (i: nat)
    requires Tiles(kids, lo, hi) && AllWf(kids, level) && lo <= p <= hi
    ensures i < |kids| && kids[i].min <= p <= kids[i].max
    ensures forall j :: 0 <= j < |kids| && kids[j].min <= p <= kids[j].max ==> j == i
  {
    i := 0;
    while kids[i].max < p
      invariant i < |kids| && kids[i].min <= p
      invariant forall j :: 0 <= j < i ==> kids[j].max < p
    {
      i := i + 1;
    }
    var k := i;
    while k + 1 < |kids|
      invariant i <= k < |kids| && forall j :: i < j <= k ==> p < kids[j].min
      invariant p <= kids[k].max
    {
      k := k + 1;
    }
  }

  // ---- changing a node's range ----

  /** bch2_btree_node_drop_keys_outside_node, for the keys of an interior node. */
  function Inside(kids: seq<Node>, lo: nat, hi: nat): (r: seq<Node>)
    ensures |r| <= |kids| && forall i :: 0 <= i < |r| ==> r[i] in kids && lo <= r[i].max <= hi
  {
    if kids == [] then []
    else
      var rest := Inside(kids[..|kids| - 1], lo, hi);
      if lo <= kids[|kids| - 1].max <= hi then rest + [kids[|kids| - 1]] else rest
  }

  /** set_node_min. */
  function WithMin(n: Node, m: nat): Node { n.(min := m, kids := Inside(n.kids, m, n.max)) }

  /** set_node_max. */
  function WithMax(n: Node, m: nat): Node { n.(max := m, kids := Inside(n.kids, n.min, m)) }

  lemma {:induction false} InsideWf(kids: seq<Node>, lo: nat, hi: nat, level: nat)
    requires SortedByMax(kids) && AllWf(kids, level)
    ensures var r := Inside(kids, lo, hi); SortedByMax(r) && EndIn(r, lo, hi) && AllWf(r, level)
  {
    hide Wf;
    if kids != [] {
      var front := kids[..|kids| - 1];
      InsideWf(front, lo, hi, level);
      var rest := Inside(front, lo, hi);
      forall i | 0 <= i < |rest|
        ensures rest[i].max < kids[|kids| - 1].max
      {
        assert rest[i] in front;
      }
    }
  }

  lemma RangeWf(n: Node, m: nat, level: nat)
    requires Wf(n, level)
    ensures m <= n.max ==> Wf(WithMin(n, m), level)
    ensures n.min <= m ==> Wf(WithMax(n, m), level)
  {
    if level > 0 {
      InsideWf(n.kids, m, n.max, level - 1);
      InsideWf(n.kids, n.min, m, level - 1);
    }
  }

  // ---- nodes found by scanning ----

  /** Puts a node among others, by its end; journal keys at the same position overwrite. */
  function InsertByMax(kids: seq<Node>, n: Node): (r: seq<Node>)
    ensures forall i :: 0 <= i < |r| ==> r[i] == n || r[i] in kids
  {
    if kids == [] then [n]
    else if kids[|kids| - 1].max < n.max then kids + [n]
    else if kids[|kids| - 1].max == n.max then kids[..|kids| - 1] + [n]
    else InsertByMax(kids[..|kids| - 1], n) + [kids[|kids| - 1]]
  }

  lemma {:induction false} InsertSorted(kids: seq<Node>, n: Node)
    requires SortedByMax(kids)
    ensures SortedByMax(InsertByMax(kids, n))
  {
    if kids != [] && kids[|kids| - 1].max > n.max {
      var front := kids[..|kids| - 1];
      InsertSorted(front, n);
      var r := InsertByMax(front, n);
      forall i | 0 <= i < |r|
        ensures r[i].max < kids[|kids| - 1].max
      {
        assert r[i] == n || r[i] in front;
      }
    }
  }

  /** Leaves that lie in [lo, hi]. */
  ghost predicate LeavesIn(s: seq<Node>, lo: nat, hi: nat)
  {
    && SortedByMax(s)
    && forall i :: 0 <= i < |s| ==> lo <= s[i].min <= s[i].max <= hi && s[i].kids == []
  }

  /** A found node cut to [lo, hi]; its children are not known. */
  function Clip(n: Node, lo: nat, hi: nat): Node
  {
    Node(if n.min < lo then lo else n.min, if n.max > hi then hi else n.max, n.version, n.bad, [])
  }

  predicate Overlaps(n: Node, lo: nat, hi: nat) { n.min <= hi && lo <= n.max }

  /** Some node of the list ends at m. */
  ghost predicate EndsAt(s: seq<Node>, m: nat) { exists j :: 0 <= j < |s| && s[j].max == m }

  lemma {:induction false} InsertEnds(kids: seq<Node>, n: Node, m: nat)
    ensures EndsAt(InsertByMax(kids, n), m) <==> EndsAt(kids, m) || m == n.max
  {
    var r, k := InsertByMax(kids, n), |kids| - 1;
    if kids == [] {
      assert r == [n] && r[0].max == n.max;
    } else if kids[k].max < n.max {
      PushEnds(kids, n, m);
    } else if kids[k].max == n.max {
      PushEnds(kids[..k], n, m);
      PushEnds(kids[..k], kids[k], m);
      assert kids == kids[..k] + [kids[k]];
    } else {
      InsertEnds(kids[..k], n, m);
      PushEnds(InsertByMax(kids[..k], n), kids[k], m);
      PushEnds(kids[..k], kids[k], m);
      assert kids == kids[..k] + [kids[k]];
    }
  }

  lemma PushEnds(kids: seq<Node>, n: Node, m: nat)
    ensures EndsAt(kids + [n], m) <==> EndsAt(kids, m) || m == n.max
  {
    var r := kids + [n];
    assert r[|kids|] == n;
    if EndsAt(kids, m) {
      var j :| 0 <= j < |kids| && kids[j].max == m;
      assert r[j] == kids[j];
    }
  }

  /** bch2_get_scanned_nodes: what was found in [lo, hi], cut to that range; of those that end at one place the last. */
  method ScannedNodes(found: seq<Node>, lo: nat, hi: nat) returns (s: seq<Node>)
    requires lo <= hi && forall i :: 0 <= i < |found| ==> found[i].min <= found[i].max
    ensures LeavesIn(s, lo, hi)
    ensures forall j :: 0 <= j < |s| ==> exists i :: 0 <= i < |found| && Overlaps(found[i], lo, hi) && s[j] == Clip(found[i], lo, hi)
    ensures forall i :: 0 <= i < |found| && Overlaps(found[i], lo, hi) ==> EndsAt(s, Clip(found[i], lo, hi).max)
  {
    hide EndsAt;
    s := [];
    for i := 0 to |found|
      invariant LeavesIn(s, lo, hi)
      invariant forall j :: 0 <= j < |s| ==> exists i :: 0 <= i < |found| && Overlaps(found[i], lo, hi) && s[j] == Clip(found[i], lo, hi)
      invariant forall j :: 0 <= j < i && Overlaps(found[j], lo, hi) ==> EndsAt(s, Clip(found[j], lo, hi).max)
    {
      if Overlaps(found[i], lo, hi) {
        var c := Clip(found[i], lo, hi);
        InsertSorted(s, c);
        forall m
          ensures EndsAt(InsertByMax(s, c), m) <==> EndsAt(s, m) || m == c.max
        {
          InsertEnds(s, c, m);
        }
        s := InsertByMax(s, c);
      }
    }
  }

  // ---- one pass over the children ----

  /** What is decided about a child, given the one kept before it. */
  datatype Verdict =
    | Keep(cur: Node)             // as it is, or with a new start
    | TrimPrev(prev: Node)        // the node before gives way
    | DropPrev
    | DropThis
    | Fill(scanned: seq<Node>)    // nodes found for the gap in front; another pass is needed

  /** Readable, and not just the tail of something before the range. */
  ghost predicate Useful(n: Node, lo: nat) { !n.bad && !(n.min < lo && n.max == lo) }

  ghost predicate HasUseful(kids: seq<Node>, lo: nat)
  {
    exists i :: 0 <= i < |kids| && Useful(kids[i], lo)
  }

  ghost predicate LastReadable(kids: seq<Node>) { kids != [] ==> !kids[|kids| - 1].bad }

  datatype VisitStep = Passed | Filled | PrevGone

  /** The children passed so far and kept: ordered, and clear of the last one. */
  ghost predicate DoneOk(done: seq<Node>, level: nat, lo: nat, hi: nat)
  {
    && SortedByMax(done) && EndIn(done, lo, hi) && AllWf(done, level)
    && (|done| > 0 ==> lo <= done[|done| - 1].min)
    && forall i :: 0 <= i < |done| - 1 ==> done[i].max < done[|done| - 1].min
  }

  function ExpectedStart(done: seq<Node>, lo: nat): nat
  {
    if done == [] then lo else done[|done| - 1].max + 1
  }

  lemma {:induction false} DoneAppend(done: seq<Node>, level: nat, lo: nat, hi: nat, s: seq<Node>, c: Node)
    requires DoneOk(done, level, lo, hi) && Wf(c, level) && lo <= c.max <= hi
    requires SortedByMax(s) && EndIn(s, lo, hi) && AllWf(s, level)
    requires forall i :: 0 <= i < |s| ==> ExpectedStart(done, lo) <= s[i].max < c.min
    requires ExpectedStart(done, lo) <= c.min
    ensures DoneOk(done + s + [c], level, lo, hi)
  {
    assert c.min <= c.max;
    hide Wf;
  }

  lemma {:induction false} DoneTrim(done: seq<Node>, level: nat, lo: nat, hi: nat, p: Node, c: Node)
    requires DoneOk(done, level, lo, hi) && |done| > 0 && Wf(p, level) && Wf(c, level)
    requires p.min == done[|done| - 1].min && p.max + 1 == c.min && lo <= p.max && c.max <= hi
    ensures DoneOk(done[..|done| - 1] + [p, c], level, lo, hi)
  {
    assert p.min <= p.max && c.min <= c.max;
    hide Wf;
  }

  lemma ContiguousAppend(done: seq<Node>, lo: nat, c: Node)
    requires Contiguous(done, lo) && c.min == ExpectedStart(done, lo)
    ensures Contiguous(done + [c], lo)
  {
  }

  lemma ContiguousTrim(done: seq<Node>, lo: nat, p: Node, c: Node)
    requires Contiguous(done, lo) && |done| > 0 && p.min == done[|done| - 1].min && p.max + 1 == c.min
    ensures Contiguous(done[..|done| - 1] + [p, c], lo)
  {
  }

  class Repair {
    const found: seq<Node>
    var pulled: nat

    constructor (found: seq<Node>)
      ensures this.found == found && pulled == 0
    {
      this.found, pulled := found, 0;
    }

    ghost predicate FoundOk()
    {
      forall i :: 0 <= i < |found| ==> found[i].min <= found[i].max
    }

    /** btree_check_node_boundaries, for a child cur whose start is not the expected one. */
    method CheckBoundaries(level: nat, lo: nat, done: seq<Node>, cur: Node) returns (v: Verdict)
      requires FoundOk() && cur.min <= cur.max && (|done| > 0 ==> done[|done| - 1].max < cur.max)
      modifies this`pulled
      ensures v.Fill? <==> ExpectedStart(done, lo) < cur.min && level == 1 && old(pulled) < cur.min
      ensures pulled == if v.Fill? then cur.min else old(pulled)
      ensures v.Fill? ==> LeavesIn(v.scanned, ExpectedStart(done, lo), cur.min - 1)
      ensures v.Keep? ==>
                && v.cur.min == ExpectedStart(done, lo) <= cur.max
                && v.cur == if v.cur.min == cur.min then cur else WithMin(cur, v.cur.min)
      ensures v.TrimPrev? || v.DropPrev? <==>
                |done| > 0 && cur.min < ExpectedStart(done, lo) && done[|done| - 1].version < cur.version
      ensures v.TrimPrev? || v.DropPrev? ==> (v.DropPrev? <==> cur.min <= done[|done| - 1].min)
      ensures v.TrimPrev? ==> done[|done| - 1].min < cur.min && v.prev == WithMax(done[|done| - 1], cur.min - 1)
      ensures v.DropThis? <==>
                && cur.min < ExpectedStart(done, lo) && cur.max <= ExpectedStart(done, lo)
                && (|done| > 0 ==> cur.version <= done[|done| - 1].version)
    {
      var start := ExpectedStart(done, lo);
      if start == cur.min { return Keep(cur); }
      if start < cur.min {
        if level == 1 && pulled < cur.min {
          var s := ScannedNodes(found, start, cur.min - 1);
          pulled := cur.min;
          return Fill(s);
        }
        return Keep(WithMin(cur, start));
      }
      if |done| > 0 && cur.version > done[|done| - 1].version {
        if done[|done| - 1].min >= cur.min { return DropPrev; }
        return TrimPrev(WithMax(done[|done| - 1], cur.min - 1));
      }
      if start >= cur.max { return DropThis; }
      return Keep(WithMin(cur, start));
    }

    /** btree_repair_node_end: the last child must reach the end of its parent. */
    method RepairEnd(level: nat, hi: nat, done: seq<Node>) returns (out: seq<Node>, newPass: bool)
      requires FoundOk() && |done| > 0 && done[|done| - 1].max <= hi
      modifies this`pulled
      ensures newPass <==> done[|done| - 1].max != hi && level == 1 && old(pulled) < hi
      ensures pulled == if newPass then hi else old(pulled)
      ensures newPass ==> exists s :: out == done + s && LeavesIn(s, done[|done| - 1].max + 1, hi)
      ensures !newPass ==> out == if done[|done| - 1].max == hi then done else done[..|done| - 1] + [WithMax(done[|done| - 1], hi)]
    {
      var last := done[|done| - 1];
      if last.max == hi { return done, false; }
      if level == 1 && pulled < hi {
        var s := ScannedNodes(found, last.max + 1, hi);
        pulled := hi;
        return done + s, true;
      }
      return done[..|done| - 1] + [WithMax(last, hi)], false;
    }

    /** One child of the pass. */
    method Visit(lo: nat, hi: nat, level: nat, done: seq<Node>, cur: Node) returns (r: seq<Node>, step: VisitStep)
      requires FoundOk() && level > 0 && DoneOk(done, level - 1, lo, hi) && Wf(cur, level - 1) && cur.min <= cur.max
      requires lo <= cur.max <= hi && (|done| > 0 ==> done[|done| - 1].max < cur.max) && !cur.bad && LastReadable(done)
      modifies this`pulled
      ensures LastReadable(r) && (r == [] ==> done == [] && !Useful(cur, lo))
      ensures done == [] && !Useful(cur, lo) ==> r == [] && step == Passed
      ensures DoneOk(r, level - 1, lo, hi) && (|r| > 0 ==> r[|r| - 1].max <= cur.max)
      ensures step == PrevGone ==> r == done && |done| > 0 && pulled == old(pulled)
      ensures step == Filled ==> level == 1 && old(pulled) < pulled <= hi
      ensures step == Passed ==> pulled == old(pulled) && |r| <= |done| + 1 && (Contiguous(done, lo) ==> Contiguous(r, lo))
      ensures cur.min == ExpectedStart(done, lo) ==> step == Passed && r == done + [cur]
    {
      hide Wf, DoneOk, Contiguous, LeavesIn, WithMin, WithMax;
      var v := CheckBoundaries(level, lo, done, cur);
      if v.DropPrev? { return done, PrevGone; }
      if v.DropThis? { return done, Passed; }
      AppliedOk(lo, hi, level, done, cur, v);
      if v.Keep? { SameBad(cur, v.cur.min); }
      r := Applied(done, cur, v);
      step := if v.Fill? then Filled else Passed;
    }

    /**
     One pass. It ends with the children tiling the parent or none left, or asks for
     another pass; then something was pulled from the scan or a child was dropped.
     */
    method Pass(b: Node, level: nat) returns (out: seq<Node>, restart: bool)
      requires FoundOk() && Wf(b, level) && level > 0
      modifies this`pulled
      ensures Wf(b.(kids := out), level)
      ensures pulled != old(pulled) ==> restart && level == 1 && old(pulled) < pulled <= b.max
      ensures pulled == old(pulled) ==> |out| + (if restart then 1 else 0) <= |b.kids|
      ensures !restart ==> out == [] || Tiles(out, b.min, b.max)
      ensures Fine(b.kids, b.min, b.max) ==> !restart && out == b.kids
      ensures HasUseful(b.kids, b.min) ==> HasUseful(out, b.min)
      ensures !HasUseful(b.kids, b.min) ==> out == [] && !restart
    {
      hide Wf, DoneOk, Contiguous, Tiles, Fine, Useful, HasUseful;
      NothingDone(b, level);
      NoneUseful(b.kids, b.min);
      var kids, done, newPass, i := b.kids, [], false, 0;
      while i < |kids|
        invariant 0 <= i <= |kids| && DoneOk(done, level - 1, b.min, b.max)
        invariant |done| > 0 && i < |kids| ==> done[|done| - 1].max < kids[i].max
        invariant !newPass ==> pulled == old(pulled) && Contiguous(done, b.min) && |done| <= i
        invariant newPass ==> level == 1 && old(pulled) < pulled <= b.max
        invariant Fine(kids, b.min, b.max) ==> done == kids[..i] && !newPass
        invariant LastReadable(done) && (done == [] ==> !HasUseful(kids[..i], b.min))
        invariant !HasUseful(kids, b.min) ==> done == [] && !newPass
      {
        var cur := kids[i];
        UsefulNext(kids, b.min, i);
        OneUseful(kids, b.min, i);
        KidWf(b, level, i);
        NextStart(kids, b.min, b.max, i);
        i := i + 1;
        if cur.bad {
          assert !Useful(cur, b.min) by { BadUseless(cur, b.min); }
          continue;
        }
        var step;
        done, step := Visit(b.min, b.max, level, done, cur);
        if step == PrevGone {
          PrevDropped(b, level, done, i - 1);
          CurUseful(b, level, done, i - 1);
          return done[..|done| - 1] + kids[i - 1..], true;
        }
        newPass := newPass || step == Filled;
      }
      assert kids[..i] == kids;
      var more;
      out, more := Finish(b, level, done);
      restart := newPass || more;
    }

    /** The end of a pass. */
    method Finish(b: Node, level: nat, done: seq<Node>) returns (out: seq<Node>, more: bool)
      requires FoundOk() && Wf(b, level) && level > 0 && DoneOk(done, level - 1, b.min, b.max)
      modifies this`pulled
      ensures Wf(b.(kids := out), level)
      ensures more ==> level == 1 && old(pulled) < pulled <= b.max
      ensures !more ==> pulled == old(pulled) && |out| == |done|
      ensures !more && Contiguous(done, b.min) ==> out == [] || Tiles(out, b.min, b.max)
      ensures Fine(done, b.min, b.max) ==> !more && out == done
      ensures done != [] && LastReadable(done) ==> HasUseful(out, b.min)
      ensures done == [] ==> out == [] && !more
    {
      hide Wf, DoneOk, Contiguous;
      if done == [] {
        NoKids(b, level);
        return [], false;
      }
      LastWf(done, level - 1, b.min, b.max);
      out, more := RepairEnd(level, b.max, done);
      if LastReadable(done) { EndUseful(b, done, out, more); }
      EndRepaired(b, level, done, out, more);
    }

    /**
     bch2_btree_repair_topology_recurse. Either no child is left and the node is to be
     dropped, or every node below it, on every level, is tiled by its children. A node
     right above the leaves is dropped exactly when none of its children is useful. A
     tree that is in order is left alone.
     */
    method RepairNode(b: Node, level: nat) returns (out: Node, drop: bool)
      requires FoundOk() && Wf(b, level)
      modifies this`pulled
      ensures Wf(out, level) && out == b.(kids := out.kids)
      ensures old(pulled) <= pulled && (level == 0 ==> pulled == old(pulled))
      ensures drop ==> level > 0 && out.kids == []
      ensures !drop ==> Repaired(out, level)
      ensures level > 0 && !HasUseful(b.kids, b.min) ==> drop
      ensures level == 1 ==> (drop <==> !HasUseful(b.kids, b.min))
      ensures Repaired(b, level) && (level > 0 ==> AllNotBad(b.kids, level - 1)) ==>
                out == b && !drop && pulled == old(pulled)
      decreases level, 1
    {
      if level == 0 { return b, false; }
      hide Wf, Repaired, NoneBad, Tiles, Useful, HasUseful;
      var kids := b.kids;
      assert b.(kids := kids) == b;
      RepairedKids(b, level);
      ghost var good := Repaired(b, level) && AllNotBad(b.kids, level - 1);
      while true
        invariant Wf(b.(kids := kids), level) && old(pulled) <= pulled
        invariant good ==> kids == b.kids && pulled == old(pulled)
        invariant level == 1 && HasUseful(b.kids, b.min) ==> HasUseful(kids, b.min)
        invariant !HasUseful(b.kids, b.min) ==> kids == b.kids
        decreases if level == 1 && pulled < b.max then b.max - pulled else 0, |kids|
      {
        var restart, again;
        kids, restart := Pass(b.(kids := kids), level);
        if restart { continue; }
        if kids == [] {
          NoneUseful([], b.min);
          return b.(kids := []), true;
        }
        kids, again := RepairKids(b.(kids := kids), level);
        if !again {
          AllKidsRepaired(b.(kids := kids), level);
          return b.(kids := kids), false;
        }
      }
    }

    /** The second loop: every child in turn; a child with nothing left is deleted. */
    method RepairKids(b: Node, level: nat) returns (out: seq<Node>, again: bool)
      requires FoundOk() && Wf(b, level) && level > 0 && Tiles(b.kids, b.min, b.max)
      modifies this`pulled
      ensures Wf(b.(kids := out), level)
      ensures old(pulled) <= pulled && (level == 1 ==> pulled == old(pulled))
      ensures again ==> |out| < |b.kids| && level > 1
      ensures !again ==> Tiles(out, b.min, b.max) && AllRepaired(out, level - 1)
      ensures AllRepaired(b.kids, level - 1) && AllNotBad(b.kids, level - 1) ==> out == b.kids && !again && pulled == old(pulled)
      decreases level, 0
    {
      hide Wf, Repaired, NoneBad, RebuiltTo, Tiles, AllRepaired, AllNotBad;
      var kids := b.kids;
      ghost var good := AllRepaired(kids, level - 1) && AllNotBad(kids, level - 1);
      out, again := [], false;
      RebuiltStart(b, level);
      for j := 0 to |kids|
        invariant RebuiltTo(b, level, out, j, again)
        invariant old(pulled) <= pulled && (level == 1 ==> pulled == old(pulled))
        invariant good ==> out == kids[..j] && !again && pulled == old(pulled)
        invariant again ==> level > 1
      {
        KidWf(b, level, j);
        KidGood(kids, level - 1, j);
        var c, d := RepairNode(kids[j], level - 1);
        RebuiltStep(b, level, out, j, again, c, d);
        if d { again := true; } else { out := out + [c]; }
      }
      RebuiltDone(b, level, out, again);
    }
  }

  /** The first j children have been gone through; those kept have the same ranges as before. */
  ghost predicate RebuiltTo(b: Node, level: nat, out: seq<Node>, j: nat, again: bool)
    requires level > 0 && j <= |b.kids|
  {
    && SortedByMax(out) && EndIn(out, b.min, b.max) && AllWf(out, level - 1)
    && |out| <= j && (again ==> |out| < j) && (|out| > 0 ==> out[|out| - 1].max <= b.kids[j - 1].max)
    && (!again ==>
          && |out| == j && AllRepaired(out, level - 1)
          && forall i :: 0 <= i < j ==> out[i].min == b.kids[i].min && out[i].max == b.kids[i].max)
  }

  lemma RebuiltStart(b: Node, level: nat)
    requires level > 0
    ensures RebuiltTo(b, level, [], 0, false)
  {
  }

  lemma {:induction false} RebuiltStep(b: Node, level: nat, out: seq<Node>, j: nat, again: bool, c: Node, d: bool)
    requires level > 0 && Wf(b, level) && j < |b.kids| && RebuiltTo(b, level, out, j, again)
    requires Wf(c, level - 1) && c == b.kids[j].(kids := c.kids) && (!d ==> Repaired(c, level - 1))
    ensures RebuiltTo(b, level, if d then out else out + [c], j + 1, again || d)
  {
    hide Wf, Repaired, SortedByMax, EndIn, AllWf, AllRepaired;
    KidWf(b, level, j);
    if j > 0 { KidWf(b, level, j - 1); }
    if !d {
      KeptOne(out, level - 1, b.min, b.max, c);
      if !again { RepairedOne(out, level - 1, c); }
    }
  }

  lemma KeptOne(out: seq<Node>, level: nat, lo: nat, hi: nat, c: Node)
    requires SortedByMax(out) && EndIn(out, lo, hi) && AllWf(out, level) && Wf(c, level) && lo <= c.max <= hi
    requires |out| > 0 ==> out[|out| - 1].max < c.max
    ensures SortedByMax(out + [c]) && EndIn(out + [c], lo, hi) && AllWf(out + [c], level)
  {
    hide Wf;
  }

  lemma RepairedOne(out: seq<Node>, level: nat, c: Node)
    requires AllRepaired(out, level) && Repaired(c, level)
    ensures AllRepaired(out + [c], level)
  {
    hide Repaired;
  }

  lemma {:induction false} RebuiltDone(b: Node, level: nat, out: seq<Node>, again: bool)
    requires level > 0 && Wf(b, level) && RebuiltTo(b, level, out, |b.kids|, again) && Tiles(b.kids, b.min, b.max)
    ensures Wf(b.(kids := out), level)
    ensures !again ==> Tiles(out, b.min, b.max) && AllRepaired(out, level - 1)
    ensures again ==> |out| < |b.kids|
  {
    hide Repaired;
  }

  lemma RepairedKids(b: Node, level: nat)
    requires level > 0
    ensures Repaired(b, level) <==> Tiles(b.kids, b.min, b.max) && AllRepaired(b.kids, level - 1)
    ensures Repaired(b, level) && AllNotBad(b.kids, level - 1) ==> Fine(b.kids, b.min, b.max)
  {
    if AllNotBad(b.kids, level - 1) { assert forall i :: 0 <= i < |b.kids| ==> NoneBad(b.kids[i], level - 1); }
  }

  lemma AllKidsRepaired(b: Node, level: nat)
    requires level > 0 && Tiles(b.kids, b.min, b.max) && AllRepaired(b.kids, level - 1)
    ensures Repaired(b, level)
  {
  }

  lemma KidGood(kids: seq<Node>, level: nat, j: nat)
    requires j < |kids|
    ensures AllRepaired(kids, level) && AllNotBad(kids, level) ==>
              Repaired(kids[j], level) && (level > 0 ==> AllNotBad(kids[j].kids, level - 1))
  {
    if AllNotBad(kids, level) { assert NoneBad(kids[j], level); }
  }

  lemma SameBad(n: Node, m: nat)
    ensures WithMin(n, m).bad == n.bad && WithMax(n, m).bad == n.bad
  {
  }

  lemma NoneUseful(kids: seq<Node>, lo: nat)
    ensures !HasUseful(kids[..0], lo)
  {
  }

  lemma OneUseful(kids: seq<Node>, lo: nat, i: nat)
    requires i < |kids|
    ensures Useful(kids[i], lo) ==> HasUseful(kids, lo)
  {
    hide Useful;
  }

  /**
   A node right above the leaves whose one child is readable and holds a position of the
   node, but is dropped: only its last position lies in the node.
   */
  lemma {:induction false} LastPositionDropped(b: Node, lo: nat, hi: nat)
    requires 0 < lo <= hi && b == Node(lo, hi, 0, false, [Node(lo - 1, lo, 0, false, [])])
    ensures Wf(b, 1) && !b.kids[0].bad && b.kids[0].min <= b.min <= b.kids[0].max
    ensures !HasUseful(b.kids, b.min)
  {
    assert Wf(b.kids[0], 0);
  }

  lemma BadUseless(n: Node, lo: nat)
    ensures n.bad ==> !Useful(n, lo)
  {
  }

  lemma UsefulNext(kids: seq<Node>, lo: nat, i: nat)
    requires i < |kids|
    ensures HasUseful(kids[..i + 1], lo) <==> HasUseful(kids[..i], lo) || Useful(kids[i], lo)
  {
    hide Useful;
    var a, b := kids[..i], kids[..i + 1];
    if HasUseful(a, lo) {
      var j :| 0 <= j < |a| && Useful(a[j], lo);
      assert b[j] == a[j];
    }
    if Useful(kids[i], lo) { assert b[i] == kids[i]; }
    if HasUseful(b, lo) {
      var j :| 0 <= j < |b| && Useful(b[j], lo);
      if j < i { assert a[j] == b[j]; }
    }
  }

  /** A child that pushes the one before it out is useful itself. */
  lemma CurUseful(b: Node, level: nat, done: seq<Node>, k: nat)
    requires level > 0 && DoneOk(done, level - 1, b.min, b.max) && |done| > 0 && k < |b.kids|
    requires done[|done| - 1].max < b.kids[k].max && !b.kids[k].bad
    ensures HasUseful(done[..|done| - 1] + b.kids[k..], b.min)
  {
    var r := done[..|done| - 1] + b.kids[k..];
    assert r[|done| - 1] == b.kids[k] && Useful(b.kids[k], b.min);
  }

  lemma EndUseful(b: Node, done: seq<Node>, out: seq<Node>, more: bool)
    requires |done| > 0 && !done[|done| - 1].bad && b.min <= done[|done| - 1].min
    requires more ==> |out| >= |done| && out[|done| - 1] == done[|done| - 1]
    requires !more ==> out == done || out == done[..|done| - 1] + [WithMax(done[|done| - 1], b.max)]
    ensures HasUseful(out, b.min)
  {
    assert Useful(out[|done| - 1], b.min);
  }

  /** Readable children that tile their parent. */
  ghost predicate Fine(kids: seq<Node>, lo: nat, hi: nat)
  {
    Tiles(kids, lo, hi) && forall i :: 0 <= i < |kids| ==> !kids[i].bad
  }

  /** The children kept once a verdict is carried out. */
  function Applied(done: seq<Node>, cur: Node, v: Verdict): seq<Node>
    requires !v.DropPrev? && !v.DropThis? && (v.TrimPrev? ==> |done| > 0)
  {
    match v
    case Keep(c) => done + [c]
    case TrimPrev(p) => done[..|done| - 1] + [p, cur]
    case Fill(s) => done + s + [cur]
  }

  lemma {:induction false} AppliedOk(lo: nat, hi: nat, level: nat, done: seq<Node>, cur: Node, v: Verdict)
    requires level > 0 && DoneOk(done, level - 1, lo, hi) && Wf(cur, level - 1) && lo <= cur.max <= hi
    requires !v.DropPrev? && !v.DropThis? && (|done| > 0 ==> done[|done| - 1].max < cur.max)
    requires v.Keep? ==>
               && v.cur.min == ExpectedStart(done, lo) <= cur.max
               && v.cur == if v.cur.min == cur.min then cur else WithMin(cur, v.cur.min)
    requires v.TrimPrev? ==> |done| > 0 && cur.min < ExpectedStart(done, lo) && done[|done| - 1].min < cur.min
                             && v.prev == WithMax(done[|done| - 1], cur.min - 1)
    requires v.Fill? ==> level == 1 && ExpectedStart(done, lo) < cur.min && LeavesIn(v.scanned, ExpectedStart(done, lo), cur.min - 1)
    ensures var r := Applied(done, cur, v);
            DoneOk(r, level - 1, lo, hi) && |r| > 0 && r[|r| - 1].max == cur.max
    ensures !v.Fill? ==> |Applied(done, cur, v)| <= |done| + 1
    ensures !v.Fill? && Contiguous(done, lo) ==> Contiguous(Applied(done, cur, v), lo)
  {
    WfRange(cur, level - 1);
    hide Wf, DoneOk, Contiguous, LeavesIn, WithMin, WithMax;
    match v
    case Keep(c) => KeepOk(lo, hi, level, done, cur, c);
    case TrimPrev(p) => TrimOk(lo, hi, level, done, cur, p);
    case Fill(s) => FillOk(lo, hi, level, done, cur, s);
  }

  lemma {:induction false} KeepOk(lo: nat, hi: nat, level: nat, done: seq<Node>, cur: Node, c: Node)
    requires level > 0 && DoneOk(done, level - 1, lo, hi) && Wf(cur, level - 1) && cur.min <= cur.max <= hi && lo <= cur.max
    requires c.min == ExpectedStart(done, lo) <= cur.max && c == if c.min == cur.min then cur else WithMin(cur, c.min)
    ensures DoneOk(done + [c], level - 1, lo, hi) && c.max == cur.max
    ensures Contiguous(done, lo) ==> Contiguous(done + [c], lo)
  {
    hide Wf, DoneOk, Contiguous, Inside;
    RangeWf(cur, c.min, level - 1);
    DoneAppend(done, level - 1, lo, hi, [], c);
    assert done + [] + [c] == done + [c];
    if Contiguous(done, lo) { ContiguousAppend(done, lo, c); }
  }

  lemma {:induction false} TrimOk(lo: nat, hi: nat, level: nat, done: seq<Node>, cur: Node, p: Node)
    requires level > 0 && DoneOk(done, level - 1, lo, hi) && Wf(cur, level - 1) && cur.min <= cur.max <= hi
    requires |done| > 0 && cur.min < ExpectedStart(done, lo) && done[|done| - 1].min < cur.min
    requires p == WithMax(done[|done| - 1], cur.min - 1)
    ensures DoneOk(done[..|done| - 1] + [p, cur], level - 1, lo, hi)
    ensures Contiguous(done, lo) ==> Contiguous(done[..|done| - 1] + [p, cur], lo)
  {
    hide Wf, DoneOk, Contiguous, Inside;
    LastWf(done, level - 1, lo, hi);
    RangeWf(done[|done| - 1], p.max, level - 1);
    DoneTrim(done, level - 1, lo, hi, p, cur);
    if Contiguous(done, lo) { ContiguousTrim(done, lo, p, cur); }
  }

  lemma {:induction false} FillOk(lo: nat, hi: nat, level: nat, done: seq<Node>, cur: Node, s: seq<Node>)
    requires level == 1 && DoneOk(done, 0, lo, hi) && Wf(cur, 0) && lo <= cur.max <= hi
    requires ExpectedStart(done, lo) < cur.min && LeavesIn(s, ExpectedStart(done, lo), cur.min - 1)
    ensures DoneOk(done + s + [cur], 0, lo, hi)
  {
    hide Wf, DoneOk;
    LeavesWf(s, ExpectedStart(done, lo), cur.min - 1);
    StartIn(done, 0, lo, hi);
    WfRange(cur, 0);
    DoneAppend(done, 0, lo, hi, s, cur);
  }

  lemma StartIn(done: seq<Node>, level: nat, lo: nat, hi: nat)
    requires DoneOk(done, level, lo, hi)
    ensures lo <= ExpectedStart(done, lo)
  {
  }

  lemma LastWf(done: seq<Node>, level: nat, lo: nat, hi: nat)
    requires DoneOk(done, level, lo, hi) && |done| > 0
    ensures Wf(done[|done| - 1], level) && lo <= done[|done| - 1].max <= hi
    ensures lo <= done[|done| - 1].min
  {
  }

  lemma LeavesWf(s: seq<Node>, lo: nat, hi: nat)
    requires LeavesIn(s, lo, hi)
    ensures SortedByMax(s) && EndIn(s, lo, hi) && AllWf(s, 0)
  {
  }

  lemma WfRange(n: Node, level: nat)
    requires Wf(n, level)
    ensures n.min <= n.max
  {
  }

  lemma KidWf(b: Node, level: nat, i: nat)
    requires Wf(b, level) && level > 0 && i < |b.kids|
    ensures Wf(b.kids[i], level - 1) && b.kids[i].min <= b.kids[i].max && b.min <= b.kids[i].max <= b.max
    ensures i + 1 < |b.kids| ==> b.kids[i].max < b.kids[i + 1].max
  {
    WfRange(b.kids[i], level - 1);
  }

  lemma NothingDone(b: Node, level: nat)
    requires level > 0
    ensures DoneOk([], level - 1, b.min, b.max) && Contiguous([], b.min)
  {
  }

  /** Among children that tile their parent each starts where it is expected to. */
  lemma NextStart(kids: seq<Node>, lo: nat, hi: nat, i: nat)
    requires i < |kids|
    ensures Fine(kids, lo, hi) ==> !kids[i].bad && ExpectedStart(kids[..i], lo) == kids[i].min
    ensures kids[..i + 1] == kids[..i] + [kids[i]]
  {
  }

  lemma NoKids(b: Node, level: nat)
    requires Wf(b, level) && level > 0
    ensures Wf(b.(kids := []), level)
  {
  }

  lemma {:induction false} PrevDropped(b: Node, level: nat, done: seq<Node>, k: nat)
    requires Wf(b, level) && level > 0 && DoneOk(done, level - 1, b.min, b.max) && |done| > 0 && k < |b.kids|
    requires done[|done| - 1].max < b.kids[k].max
    ensures Wf(b.(kids := done[..|done| - 1] + b.kids[k..]), level)
  {
    var r := done[..|done| - 1] + b.kids[k..];
    assert AllWf(r, level - 1);
  }

  lemma {:induction false} EndRepaired(b: Node, level: nat, done: seq<Node>, out: seq<Node>, more: bool)
    requires Wf(b, level) && level > 0 && DoneOk(done, level - 1, b.min, b.max) && |done| > 0
    requires more ==> level == 1 && done[|done| - 1].max < b.max
                      && exists s :: out == done + s && LeavesIn(s, done[|done| - 1].max + 1, b.max)
    requires !more ==> out == if done[|done| - 1].max == b.max then done else done[..|done| - 1] + [WithMax(done[|done| - 1], b.max)]
    ensures Wf(b.(kids := out), level)
    ensures !more ==> |out| == |done| && (Contiguous(done, b.min) ==> Tiles(out, b.min, b.max))
  {
    hide Wf, Tiles, LeavesIn, DoneOk;
    if more {
      var s :| out == done + s && LeavesIn(s, done[|done| - 1].max + 1, b.max);
      EndFilled(b, level, done, s);
    } else {
      EndExtended(b, level, done);
    }
  }

  lemma {:induction false} EndFilled(b: Node, level: nat, done: seq<Node>, s: seq<Node>)
    requires Wf(b, level) && level == 1 && DoneOk(done, 0, b.min, b.max) && |done| > 0
    requires done[|done| - 1].max < b.max && LeavesIn(s, done[|done| - 1].max + 1, b.max)
    ensures Wf(b.(kids := done + s), level)
  {
    LeavesWf(s, done[|done| - 1].max + 1, b.max);
    LastWf(done, level - 1, b.min, b.max);
    hide Wf;
    KidsWf(b, level, done + s);
  }

  lemma {:induction false} EndExtended(b: Node, level: nat, done: seq<Node>)
    requires Wf(b, level) && level > 0 && DoneOk(done, level - 1, b.min, b.max) && |done| > 0
    ensures var out := if done[|done| - 1].max == b.max then done else done[..|done| - 1] + [WithMax(done[|done| - 1], b.max)];
            && Wf(b.(kids := out), level) && |out| == |done|
            && (Contiguous(done, b.min) ==> Tiles(out, b.min, b.max))
  {
    LastWf(done, level - 1, b.min, b.max);
    WfRange(done[|done| - 1], level - 1);
    RangeWf(done[|done| - 1], b.max, level - 1);
    hide Wf;
    var out := if done[|done| - 1].max == b.max then done else done[..|done| - 1] + [WithMax(done[|done| - 1], b.max)];
    KidsWf(b, level, out);
  }

  lemma KidsWf(b: Node, level: nat, out: seq<Node>)
    requires Wf(b, level) && level > 0 && SortedByMax(out) && EndIn(out, b.min, b.max) && AllWf(out, level - 1)
    ensures Wf(b.(kids := out), level)
  {
  }

  // ---- the check that follows a repair ----

  /** bch2_btree_node_check_topology: accepts exactly a node tiled by its children. */
  method CheckTopology(b: Node, level: nat) returns (ok: bool)
    requires Wf(b, level)
    ensures ok <==> level > 0 ==> Tiles(b.kids, b.min, b.max)
  {
    hide Wf;
    if level == 0 { return true; }
    var expected := b.min;
    for i := 0 to |b.kids|
      invariant Contiguous(b.kids[..i], b.min) && expected == ExpectedStart(b.kids[..i], b.min)
    {
      if b.kids[i].min != expected {
        return false;
      }
      NextStart(b.kids, b.min, b.max, i);
      expected := b.kids[i].max + 1;
    }
    assert b.kids[..|b.kids|] == b.kids;
    return |b.kids| > 0 && b.kids[|b.kids| - 1].max == b.max;
  }
}
