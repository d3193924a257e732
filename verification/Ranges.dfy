/** Lists of byte ranges (c_src/tools-util.c): rounding to blocks, sorting and merging. */
module Ranges {
  import opened Bits

  datatype Range = Range(start: nat, end: nat)

  /** round_down and round_up to a multiple of 2^k. */
  function RoundDown(x: nat, k: nat): nat { Lsh(Shr(x, k), k) }

  function RoundUp(x: nat, k: nat): nat { Lsh(Shr(x + Pow2(k) - 1, k), k) }

  ghost predicate Covers(r: seq<Range>, x: nat)
  {
    exists i :: 0 <= i < |r| && r[i].start <= x < r[i].end
  }

  /** Ranges in order, each ending before the next one starts. */
  ghost predicate Separate(r: seq<Range>)
  {
    && (forall i :: 0 <= i < |r| ==> r[i].start <= r[i].end)
    && forall i, j :: 0 <= i < j < |r| ==> r[i].end < r[j].start
  }

  ghost predicate Aligned(r: seq<Range>, k: nat)
  {
    forall i :: 0 <= i < |r| ==> Low(r[i].start, k) == 0 && Low(r[i].end, k) == 0
  }

  ghost predicate EndBy(r: seq<Range>, m: nat)
  {
    forall i :: 0 <= i < |r| ==> r[i].end <= m
  }

  /** A block lies in a rounded range exactly when it reaches into the range. */
  lemma {:induction false} RoundedBlock(r: Range, k: nat, b: nat)
    ensures RoundDown(r.start, k) <= Lsh(b, k) < RoundUp(r.end, k) <==> r.start < Lsh(b + 1, k) && Lsh(b, k) < r.end
  {
    hide Lsh, Shr, Low, Pow2;
    var up := Shr(r.end + Pow2(k) - 1, k);
    OrderOfBlocks(Shr(r.start, k), b, k);
    OrderOfBlocks(up, b, k);
    ShrLt(r.start, b + 1, k);
    ShrLt(r.end + Pow2(k) - 1, b + 1, k);
    LshAdd(b, 1, k);
    OneBlock(k);
  }

  lemma {:induction false} OneBlock(k: nat)
    ensures Lsh(1, k) == Pow2(k)
  {
    if k > 0 { OneBlock(k - 1); LshLsh(1, 1, k - 1); DoubleBlock(k - 1); }
  }

  lemma DoubleBlock(k: nat)
    ensures Lsh(2, k) == 2 * Lsh(1, k)
  {
    LshAdd(1, 1, k);
  }

  lemma OrderOfBlocks(a: nat, b: nat, k: nat)
    ensures Lsh(a, k) <= Lsh(b, k) <==> a <= b
  {
    hide Lsh, Pow2;
    if a <= b { LshMonotone(a, b, k); } else { LshGap(b, a, k); }
  }

  lemma RoundedRange(r: Range, k: nat)
    requires r.start <= r.end
    ensures RoundDown(r.start, k) <= RoundUp(r.end, k)
    ensures Low(RoundDown(r.start, k), k) == 0 && Low(RoundUp(r.end, k), k) == 0
  {
    hide Lsh, Shr, Low, Pow2;
    ShrMonotone(r.start, r.end + Pow2(k) - 1, k);
    LshMonotone(Shr(r.start, k), Shr(r.end + Pow2(k) - 1, k), k);
    ShrLsh(Shr(r.start, k), k, k);
    ShrLsh(Shr(r.end + Pow2(k) - 1, k), k, k);
  }

  /** ranges_roundup. */
  method RoundupAll(r: seq<Range>, k: nat) returns (out: seq<Range>)
    requires forall i :: 0 <= i < |r| ==> r[i].start <= r[i].end
    ensures |out| == |r| && Aligned(out, k) && forall i :: 0 <= i < |out| ==> out[i].start <= out[i].end
    ensures forall i :: 0 <= i < |r| ==> out[i] == Range(RoundDown(r[i].start, k), RoundUp(r[i].end, k))
  {
    hide RoundDown, RoundUp, Low;
    out := [];
    for i := 0 to |r|
      invariant |out| == i && Aligned(out, k) && forall j :: 0 <= j < i ==> out[j].start <= out[j].end
      invariant forall j :: 0 <= j < i ==> out[j] == Range(RoundDown(r[j].start, k), RoundUp(r[j].end, k))
    {
      RoundedRange(r[i], k);
      out := out + [Range(RoundDown(r[i].start, k), RoundUp(r[i].end, k))];
    }
  }

  // ---- sorting and merging ----

  ghost predicate ByStart(r: seq<Range>)
  {
    forall i, j :: 0 <= i < j < |r| ==> r[i].start <= r[j].start
  }

  /** A sort by start; equal starts in any order. */
  method SortByStart(r: seq<Range>) returns (out: seq<Range>)
    ensures ByStart(out) && multiset(out) == multiset(r)
  {
    hide ByStart;
    out := [];
    NoneByStart();
    for i := 0 to |r|
      invariant ByStart(out) && multiset(out) == multiset(r[..i])
    {
      out := InsertByStart(out, r[i]);
      assert r[..i + 1] == r[..i] + [r[i]];
    }
    assert r[..|r|] == r;
  }

  lemma NoneByStart()
    ensures ByStart([])
  {
  }

  method InsertByStart(r: seq<Range>, t: Range) returns (out: seq<Range>)
    requires ByStart(r)
    ensures ByStart(out) && multiset(out) == multiset(r) + multiset{t}
  {
    hide ByStart;
    var p := FirstAfter(r, t.start);
    InsertAt(r, p, t);
    InsertBag(r, p, t);
    out := r[..p] + [t] + r[p..];
  }

  method FirstAfter(r: seq<Range>, start: nat) returns (p: nat)
    ensures p <= |r| && (forall j :: 0 <= j < p ==> r[j].start <= start) && (p < |r| ==> start < r[p].start)
  {
    p := 0;
    while p < |r| && r[p].start <= start
      invariant p <= |r| && forall j :: 0 <= j < p ==> r[j].start <= start
    {
      p := p + 1;
    }
  }

  lemma {:induction false} InsertAt(r: seq<Range>, p: nat, t: Range)
    requires ByStart(r) && p <= |r| && (forall j :: 0 <= j < p ==> r[j].start <= t.start) && (p < |r| ==> t.start <= r[p].start)
    ensures ByStart(r[..p] + [t] + r[p..])
  {
    var out := r[..p] + [t] + r[p..];
    forall i, j | 0 <= i < j < |out|
      ensures out[i].start <= out[j].start
    {
      assert out[i] == if i < p then r[i] else if i == p then t else r[i - 1];
      assert out[j] == if j < p then r[j] else if j == p then t else r[j - 1];
      if p < |r| && i == p { assert r[p].start <= r[j - 1].start; }
    }
  }

  lemma InsertBag(r: seq<Range>, p: nat, t: Range)
    requires p <= |r|
    ensures multiset(r[..p] + [t] + r[p..]) == multiset(r) + multiset{t}
  {
    assert r == r[..p] + r[p..];
  }

  /** ranges_sort_merge: nothing is lost, nothing added, and what is left is apart. */
  method SortMerge(r: seq<Range>) returns (out: seq<Range>)
    requires forall i :: 0 <= i < |r| ==> r[i].start <= r[i].end
    ensures Separate(out) && forall x: nat :: Covers(out, x) <==> Covers(r, x)
    ensures forall k :: Aligned(r, k) ==> Aligned(out, k)
    ensures forall m :: EndBy(r, m) ==> EndBy(out, m)
  {
    hide Low, Covers, EndsFrom, Aligned;
    var s := SortByStart(r);
    SameMembers(r, s);
    out := [];
    for i := 0 to |s|
      invariant Separate(out) && forall x: nat :: Covers(out, x) <==> Covers(s[..i], x)
      invariant |out| > 0 && i < |s| ==> out[|out| - 1].start <= s[i].start
      invariant forall j :: 0 <= j < |out| ==> EndsFrom(s, out[j])
    {
      assert s[..i + 1] == s[..i] + [s[i]] && s[i] in r;
      EndsOf(s, i);
      if |out| > 0 && out[|out| - 1].end >= s[i].start {
        var t := out[|out| - 1];
        var m := Range(t.start, if t.end > s[i].end then t.end else s[i].end);
        MergeLast(out, s[..i], t, s[i], m);
        EndsMerged(s, t, i, m);
        out := out[..|out| - 1] + [m];
      } else {
        PushLast(out, s[..i], s[i]);
        out := out + [s[i]];
      }
    }
    assert s[..|s|] == s;
    forall x: nat
      ensures Covers(s, x) <==> Covers(r, x)
    {
      CoversSame(r, s, x);
      CoversSame(s, r, x);
    }
    EndsAligned(r, s, out);
  }

  lemma CoversPush(r: seq<Range>, t: Range, x: nat)
    ensures Covers(r + [t], x) <==> Covers(r, x) || t.start <= x < t.end
  {
    if Covers(r, x) {
      var i :| 0 <= i < |r| && r[i].start <= x < r[i].end;
      assert (r + [t])[i] == r[i];
    }
    assert (r + [t])[|r|] == t;
  }

  lemma {:induction false} MergeLast(out: seq<Range>, done: seq<Range>, t: Range, s: Range, m: Range)
    requires |out| > 0 && t == out[|out| - 1] && Separate(out) && t.start <= s.start <= t.end && s.start <= s.end
    requires m == Range(t.start, if t.end > s.end then t.end else s.end)
    requires forall x: nat :: Covers(out, x) <==> Covers(done, x)
    ensures Separate(out[..|out| - 1] + [m]) && forall x: nat :: Covers(out[..|out| - 1] + [m], x) <==> Covers(done + [s], x)
  {
    var front := out[..|out| - 1];
    assert out == front + [t];
    forall x: nat
      ensures Covers(front + [m], x) <==> Covers(done + [s], x)
    {
      CoversPush(front, m, x);
      CoversPush(front, t, x);
      CoversPush(done, s, x);
    }
    hide Covers;
  }

  lemma {:induction false} PushLast(out: seq<Range>, done: seq<Range>, s: Range)
    requires Separate(out) && s.start <= s.end && (|out| > 0 ==> out[|out| - 1].end < s.start)
    requires forall x: nat :: Covers(out, x) <==> Covers(done, x)
    ensures Separate(out + [s]) && forall x: nat :: Covers(out + [s], x) <==> Covers(done + [s], x)
  {
    forall x: nat
      ensures Covers(out + [s], x) <==> Covers(done + [s], x)
    {
      CoversPush(out, s, x);
      CoversPush(done, s, x);
    }
    hide Covers;
  }

  /** Start and end are those of ranges of the list. */
  ghost predicate EndsFrom(s: seq<Range>, t: Range)
  {
    exists i, j :: 0 <= i < |s| && 0 <= j < |s| && t == Range(s[i].start, s[j].end)
  }

  lemma SameMembers(a: seq<Range>, b: seq<Range>)
    requires multiset(a) == multiset(b)
    ensures forall t :: t in a <==> t in b
  {
    forall t
      ensures t in a <==> t in b
    {
      assert t in a <==> t in multiset(a);
      assert t in b <==> t in multiset(b);
    }
  }

  lemma CoversSame(a: seq<Range>, b: seq<Range>, x: nat)
    requires forall t :: t in a ==> t in b
    ensures Covers(a, x) ==> Covers(b, x)
  {
    if Covers(a, x) {
      var i :| 0 <= i < |a| && a[i].start <= x < a[i].end;
      assert a[i] in b;
    }
  }

  lemma EndsOf(s: seq<Range>, i: nat)
    requires i < |s|
    ensures EndsFrom(s, s[i])
  {
    assert s[i] == Range(s[i].start, s[i].end);
  }

  lemma EndsMerged(s: seq<Range>, t: Range, i: nat, m: Range)
    requires i < |s| && EndsFrom(s, t) && m.start == t.start && (m.end == t.end || m.end == s[i].end)
    ensures EndsFrom(s, m)
  {
    var a, b :| 0 <= a < |s| && 0 <= b < |s| && t == Range(s[a].start, s[b].end);
    assert m == Range(s[a].start, s[if m.end == t.end then b else i].end);
  }

  lemma {:induction false} EndsAligned(r: seq<Range>, s: seq<Range>, out: seq<Range>)
    requires (forall t :: t in s ==> t in r) && forall j :: 0 <= j < |out| ==> EndsFrom(s, out[j])
    ensures forall k :: Aligned(r, k) ==> Aligned(out, k)
    ensures forall m :: EndBy(r, m) ==> EndBy(out, m)
  {
    hide Low;
    forall j | 0 <= j < |out|
      ensures exists a, b :: 0 <= a < |r| && 0 <= b < |r| && out[j] == Range(r[a].start, r[b].end)
    {
      var a, b :| 0 <= a < |s| && 0 <= b < |s| && out[j] == Range(s[a].start, s[b].end);
      assert s[a] in r && s[b] in r;
      var c :| 0 <= c < |r| && r[c] == s[a];
      var d :| 0 <= d < |r| && r[d] == s[b];
      assert out[j] == Range(r[c].start, r[d].end);
    }
  }
}
