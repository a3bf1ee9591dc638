/** The extent allocator of src/alloc.rs: a sorted map of free runs, start block to length. */
module Alloc {
  import opened Wrappers
  import opened Format
  import opened Store

  type Runs = map<nat, nat>

  // --- ordered-map access -----------------------------------------------------

  lemma FindMin(s: set<nat>) returns (m: nat)
    requires s != {}
    ensures m in s && forall y :: y in s ==> m <= y
  {
    m :| m in s;
    if s != {m} {
      var m0 := m;
      var k := FindMin(s - {m});
      if k < m { m := k; }
      forall y | y in s ensures m <= y { assert y == m0 || y in s - {m0}; }
    }
  }

  lemma FindMax(s: set<nat>) returns (m: nat)
    requires s != {}
    ensures m in s && forall y :: y in s ==> y <= m
  {
    m :| m in s;
    if s != {m} {
      var m0 := m;
      var k := FindMax(s - {m});
      if m < k { m := k; }
      forall y | y in s ensures y <= m { assert y == m0 || y in s - {m0}; }
    }
  }

  lemma MinExists(s: set<nat>)
    requires s != {}
    ensures exists x :: x in s && forall y :: y in s ==> x <= y
  {
    var m := FindMin(s);
  }

  lemma MaxExists(s: set<nat>)
    requires s != {}
    ensures exists x :: x in s && forall y :: y in s ==> y <= x
  {
    var m := FindMax(s);
  }

  /** The first key of a `BTreeMap`. */
  function MinKey(s: set<nat>): (x: nat)
    requires s != {}
    ensures x in s && forall y :: y in s ==> x <= y
  {
    MinExists(s);
    var x :| x in s && forall y :: y in s ==> x <= y;
    x
  }

  /** The last key of a `BTreeMap`. */
  function MaxKey(s: set<nat>): (x: nat)
    requires s != {}
    ensures x in s && forall y :: y in s ==> y <= x
  {
    MaxExists(s);
    var x :| x in s && forall y :: y in s ==> y <= x;
    x
  }

  // --- what a run map means ---------------------------------------------------

  /** Block `b` lies in one of the runs. */
  ghost predicate Covers(free: Runs, b: nat) { exists s :: s in free && s <= b < s + free[s] }

  predicate InRange(start: nat, len: nat, b: nat) { start <= b < start + len }

  /** Non-empty runs inside `[first, total)`, disjoint, and with a used block between any two: fully coalesced. */
  ghost predicate Coalesced(free: Runs, first: nat, total: nat) {
    && first <= total
    && (forall s :: s in free ==> free[s] > 0 && first <= s && s + free[s] <= total)
    && (forall s, t :: s in free && t in free && s < t ==> s + free[s] < t)
  }

  /** A smallest run of at least `want` blocks, the lowest on ties. */
  ghost predicate BestFit(free: Runs, want: nat, start: nat) {
    && start in free && free[start] >= want
    && forall s :: s in free && free[s] >= want ==> free[start] < free[s] || (free[start] == free[s] && start <= s)
  }

  ghost predicate Fits(free: Runs, want: nat) { exists s :: s in free && free[s] >= want }

  /** Where an allocation lands: a best fit where some run is large enough, else the old end of a grown image. */
  ghost predicate Chosen(free0: Runs, total0: nat, image0: seq<byte>, want: nat,
                         start: nat, free1: Runs, total1: nat, image1: seq<byte>) {
    if Fits(free0, want) then
      BestFit(free0, want, start) && free1 == Carve(free0, start, want) && total1 == total0 && image1 == image0
    else
      && start == total0
      && image1 == Grown(image0, (start + want) * 4096)
      && total1 == |image1| / 4096 && total1 >= start + want
      && free1 == WithTail(free0, start + want, total1)
  }

  /** The rounding of a growth leaves its surplus as a new last run. */
  function WithTail(free: Runs, from: nat, total: nat): Runs {
    if total > from then free[from := total - from] else free
  }

  /** Cut `want` blocks off the front of the run at `start`. */
  function Carve(free: Runs, start: nat, want: nat): Runs
    requires start in free && free[start] >= want
  {
    var rest := free - {start};
    if free[start] > want then rest[start + want := free[start] - want] else rest
  }

  /** `want` blocks from `start` were free or new, and they alone have left the free blocks, which gained the growth. */
  ghost predicate Took(free0: Runs, total0: nat, free1: Runs, first: nat, total1: nat, start: nat, want: nat) {
    && Coalesced(free1, first, total1) && total0 <= total1
    && first <= start && start + want <= total1
    && (forall b: nat :: InRange(start, want, b) ==> Covers(free0, b) || b >= total0)
    && (forall b: nat :: Covers(free1, b) <==> (Covers(free0, b) || total0 <= b < total1) && !InRange(start, want, b))
  }

  lemma CarveTook(free: Runs, first: nat, total: nat, start: nat, want: nat)
    requires Coalesced(free, first, total) && start in free && 0 < want <= free[start]
    ensures Took(free, total, Carve(free, start, want), first, total, start, want)
  {
    CarveCovers(free, first, total, start, want);
    forall b: nat | InRange(start, want, b) ensures Covers(free, b) { assert start <= b < start + free[start]; }
  }

  lemma WithinTotal(free: Runs, first: nat, total: nat, more: nat)
    requires Coalesced(free, first, total) && total <= more
    ensures Coalesced(free, first, more) && first <= total && forall b: nat :: Covers(free, b) ==> first <= b < total
  {
  }

  /** A run put behind the last block. */
  lemma AppendSound(free: Runs, first: nat, total: nat, start: nat, len: nat, after: Runs)
    requires Coalesced(free, first, total) && total < start && len > 0 && after == free[start := len]
    ensures Coalesced(after, first, start + len)
  {
    assert start !in free;
  }

  lemma AppendCovers(free: Runs, first: nat, total: nat, start: nat, len: nat, after: Runs, b: nat)
    requires Coalesced(free, first, total) && total < start && len > 0 && after == free[start := len]
    ensures Covers(after, b) <==> Covers(free, b) || InRange(start, len, b)
  {
    assert start !in free;
    if InRange(start, len, b) { assert start in after && start <= b < start + after[start]; }
    if Covers(free, b) {
      var s :| s in free && s <= b < s + free[s];
      assert s in after && after[s] == free[s];
    }
    if Covers(after, b) {
      var s :| s in after && s <= b < s + after[s];
      assert s != start ==> s in free && free[s] == after[s];
    }
  }

  lemma GrowTook(free: Runs, first: nat, total: nat, want: nat, newTotal: nat)
    requires Coalesced(free, first, total) && want > 0 && total + want <= newTotal
    ensures Took(free, total, WithTail(free, total + want, newTotal), first, newTotal, total, want)
  {
    hide Covers, Coalesced;
    WithinTotal(free, first, total, newTotal);
    var from, after := total + want, WithTail(free, total + want, newTotal);
    if newTotal > from { AppendSound(free, first, total, from, newTotal - from, after); }
    forall b: nat ensures Covers(after, b) <==> (Covers(free, b) || total <= b < newTotal) && !InRange(total, want, b) {
      if newTotal > from { AppendCovers(free, first, total, from, newTotal - from, after, b); }
    }
  }

  lemma ChosenTook(free0: Runs, first: nat, total0: nat, image0: seq<byte>, want: nat,
                   start: nat, free1: Runs, total1: nat, image1: seq<byte>)
    requires Coalesced(free0, first, total0) && want > 0
    requires Chosen(free0, total0, image0, want, start, free1, total1, image1)
    ensures Took(free0, total0, free1, first, total1, start, want)
  {
    hide Took, Coalesced, Covers, Grown, Carve;
    if Fits(free0, want) {
      CarveTook(free0, first, total0, start, want);
    } else {
      GrowTook(free0, first, total0, want, total1);
    }
  }

  lemma CarveCovers(free: Runs, first: nat, total: nat, start: nat, want: nat)
    requires Coalesced(free, first, total) && start in free && 0 < want <= free[start]
    ensures Coalesced(Carve(free, start, want), first, total)
    ensures forall b: nat :: Covers(Carve(free, start, want), b) <==> Covers(free, b) && !InRange(start, want, b)
  {
    var after := Carve(free, start, want);
    assert forall s :: s in after ==> (s in free && s != start && after[s] == free[s]) || (s == start + want && s + after[s] == start + free[start]);
    forall b: nat ensures Covers(after, b) <==> Covers(free, b) && !InRange(start, want, b) {
      CarveCoversAt(free, first, total, start, want, b);
    }
  }

  lemma CarveCoversAt(free: Runs, first: nat, total: nat, start: nat, want: nat, b: nat)
    requires Coalesced(free, first, total) && start in free && 0 < want <= free[start]
    ensures Covers(Carve(free, start, want), b) <==> Covers(free, b) && !InRange(start, want, b)
  {
    if Covers(Carve(free, start, want), b) { CarveKeepsOnly(free, first, total, start, want, b); }
    if Covers(free, b) && !InRange(start, want, b) { CarveKeeps(free, start, want, b); }
  }

  lemma CarveKeepsOnly(free: Runs, first: nat, total: nat, start: nat, want: nat, b: nat)
    requires Coalesced(free, first, total) && start in free && 0 < want <= free[start]
    requires Covers(Carve(free, start, want), b)
    ensures Covers(free, b) && !InRange(start, want, b)
  {
    var after := Carve(free, start, want);
    var s :| s in after && s <= b < s + after[s];
    if s == start + want && free[start] > want {
      assert start in free && start <= b < start + free[start];
    } else {
      assert s in free && s != start && after[s] == free[s];
    }
  }

  lemma CarveKeeps(free: Runs, start: nat, want: nat, b: nat)
    requires start in free && 0 < want <= free[start]
    requires Covers(free, b) && !InRange(start, want, b)
    requires start + want in free ==> free[start] == want
    ensures Covers(Carve(free, start, want), b)
  {
    var after := Carve(free, start, want);
    var s :| s in free && s <= b < s + free[s];
    if s == start {
      assert start + want in after && start + want <= b < start + want + after[start + want];
    } else {
      assert s in after && after[s] == free[s];
    }
  }

  /** The key of the last run that starts before `start`, if any. */
  function Before(free: Runs, start: nat): (r: Option<nat>)
    ensures r.Some? ==> r.value in free && r.value < start && forall s :: s in free && s < start ==> s <= r.value
    ensures r.None? ==> forall s :: s in free ==> s >= start
  {
    var below := set s | s in free && s < start;
    if below == {} then (assert forall s :: s in free && s < start ==> s in below; None)
    else
      var m := MaxKey(below);
      assert forall s :: s in free && s < start ==> s in below;
      Some(m)
  }

  /** Freeing `[start, start + len)` turns the touching runs and it into the one run `[lo, hi)`. */
  ghost predicate Merges(free: Runs, first: nat, total: nat, start: nat, len: nat, lo: nat, hi: nat) {
    && Coalesced(free, first, total) && first <= start && start + len <= total && len > 0
    && (forall b: nat :: InRange(start, len, b) ==> !Covers(free, b))
    && lo <= start && start + len <= hi
    && (lo == start || (lo in free && lo + free[lo] == start))
    && (lo == start ==> forall s :: s in free && s < start ==> s + free[s] != start)
    && (hi == start + len || (start + len in free && hi == start + len + free[start + len]))
    && (hi == start + len ==> start + len !in free)
  }

  function Merged(free: Runs, start: nat, len: nat, lo: nat, hi: nat): Runs
    requires lo <= hi
  {
    (free - {lo, start + len})[lo := hi - lo]
  }

  lemma RunsApart(free: Runs, start: nat, len: nat, s: nat)
    requires forall b: nat :: InRange(start, len, b) ==> !Covers(free, b)
    requires s in free && free[s] > 0 && len > 0
    ensures s + free[s] <= start || start + len <= s
  {
    if s < start + len && start < s + free[s] {
      var b := if s < start then start else s;
      assert s <= b < s + free[s];
      assert Covers(free, b) && InRange(start, len, b);
    }
  }

  /** What a run map looks like to either side of the range that is merged in. */
  lemma MergedRuns(free: Runs, first: nat, total: nat, start: nat, len: nat, lo: nat, hi: nat, s: nat)
    requires Merges(free, first, total, start, len, lo, hi) && s in Merged(free, start, len, lo, hi)
    ensures var after := Merged(free, start, len, lo, hi);
      if s == lo then after[s] == hi - lo
      else (s in free && s != start + len && after[s] == free[s] && (s < lo ==> s + free[s] < lo) && (s > lo ==> hi < s))
  {
    if s != lo {
      RunsApart(free, start, len, s);
      if hi != start + len { assert start + len in free; }
    }
  }

  lemma MergeCoalesced(free: Runs, first: nat, total: nat, start: nat, len: nat, lo: nat, hi: nat)
    requires Merges(free, first, total, start, len, lo, hi)
    ensures Coalesced(Merged(free, start, len, lo, hi), first, total)
  {
    assert first <= lo && hi <= total && Coalesced(free, first, total);
    hide Merges, Merged;
    var after := Merged(free, start, len, lo, hi);
    forall s | s in after ensures after[s] > 0 && first <= s && s + after[s] <= total {
      MergedRuns(free, first, total, start, len, lo, hi, s);
    }
    forall s, t | s in after && t in after && s < t ensures s + after[s] < t {
      MergedRuns(free, first, total, start, len, lo, hi, s);
      MergedRuns(free, first, total, start, len, lo, hi, t);
    }
  }

  lemma MergeCovers(free: Runs, first: nat, total: nat, start: nat, len: nat, lo: nat, hi: nat, b: nat)
    requires Merges(free, first, total, start, len, lo, hi)
    ensures Covers(Merged(free, start, len, lo, hi), b) <==> Covers(free, b) || InRange(start, len, b)
  {
    if Covers(Merged(free, start, len, lo, hi), b) { MergeAddsOnly(free, first, total, start, len, lo, hi, b); }
    if InRange(start, len, b) || Covers(free, b) { MergeKeeps(free, first, total, start, len, lo, hi, b); }
  }

  lemma MergeAddsOnly(free: Runs, first: nat, total: nat, start: nat, len: nat, lo: nat, hi: nat, b: nat)
    requires Merges(free, first, total, start, len, lo, hi) && Covers(Merged(free, start, len, lo, hi), b)
    ensures Covers(free, b) || InRange(start, len, b)
  {
    var after := Merged(free, start, len, lo, hi);
    var s :| s in after && s <= b < s + after[s];
    if s != lo {
      assert s in free && free[s] == after[s];
    } else if b < start {
      assert lo in free && lo <= b < lo + free[lo];
    } else if b >= start + len {
      assert start + len in free && start + len <= b < hi;
    }
  }

  lemma MergeKeeps(free: Runs, first: nat, total: nat, start: nat, len: nat, lo: nat, hi: nat, b: nat)
    requires Merges(free, first, total, start, len, lo, hi) && (InRange(start, len, b) || Covers(free, b))
    ensures Covers(Merged(free, start, len, lo, hi), b)
  {
    var after := Merged(free, start, len, lo, hi);
    if lo <= b < hi {
      assert lo in after && lo <= b < lo + after[lo];
    } else {
      var s :| s in free && s <= b < s + free[s];
      if s == lo { RunsApart(free, start, len, lo); }
      assert s in after;
    }
  }

  /** Where the run that receives `[start, start + len)` begins. */
  function MergeLo(free: Runs, start: nat): (lo: nat)
    ensures lo <= start
  {
    var prev := Before(free, start);
    if prev.Some? && prev.value + free[prev.value] == start then prev.value else start
  }

  /** Where it ends. */
  function MergeHi(free: Runs, end: nat): (hi: nat)
    ensures hi >= end
  {
    if end in free then end + free[end] else end
  }

  /** The free map after `[start, start + len)` is freed. */
  function Freed(free: Runs, start: nat, len: nat): Runs {
    if len == 0 then free else Merged(free, start, len, MergeLo(free, start), MergeHi(free, start + len))
  }

  /** Removing the touching runs one by one and inserting their union gives the same map. */
  lemma FreedInSteps(free: Runs, start: nat, len: nat, below: Runs, apart: Runs)
    requires len > 0
    requires var lo := MergeLo(free, start); below == if lo < start then free - {lo} else free
    requires apart == if start + len in below then below - {start + len} else below
    ensures start + len in below <==> start + len in free
    ensures apart[MergeLo(free, start) := MergeHi(free, start + len) - MergeLo(free, start)] == Freed(free, start, len)
  {
  }

  /** The blocks lie in the data area, and none of them is free. */
  ghost predicate Freeable(free: Runs, first: nat, total: nat, start: nat, len: nat) {
    && (len > 0 ==> first <= start && start + len <= total)
    && forall b: nat :: InRange(start, len, b) ==> !Covers(free, b)
  }

  lemma FreedCovers(free: Runs, first: nat, total: nat, start: nat, len: nat)
    requires Coalesced(free, first, total) && Freeable(free, first, total, start, len)
    ensures Coalesced(Freed(free, start, len), first, total)
    ensures forall b: nat :: Covers(Freed(free, start, len), b) <==> Covers(free, b) || InRange(start, len, b)
  {
    if len > 0 {
      var lo, hi := MergeLo(free, start), MergeHi(free, start + len);
      forall s | lo == start && s in free && s < start ensures s + free[s] != start { }
      MergeCoalesced(free, first, total, start, len, lo, hi);
      forall b: nat ensures Covers(Freed(free, start, len), b) <==> Covers(free, b) || InRange(start, len, b) {
        MergeCovers(free, first, total, start, len, lo, hi, b);
      }
    }
  }

  /** Block `p` alone was handed out: the first of a smallest run, or the first new one behind the image. */
  ghost predicate TookOne(free0: Runs, total0: nat, p: nat, free1: Runs, total1: nat) {
    if Fits(free0, 1) then BestFit(free0, 1, p) && free1 == Carve(free0, p, 1) && total1 == total0
    else p == total0 < total1 && free1 == WithTail(free0, p + 1, total1)
  }

  lemma ChosenOne(free0: Runs, total0: nat, image0: seq<byte>, p: nat, free1: Runs, total1: nat, image1: seq<byte>)
    requires Chosen(free0, total0, image0, 1, p, free1, total1, image1)
    ensures TookOne(free0, total0, p, free1, total1)
  {
  }

  /** Out of a single run the first block goes. */
  lemma TookFirst(lo: nat, hi: nat, total: nat, free0: Runs, p: nat, free1: Runs, total1: nat)
    requires lo < hi && free0 == map[lo := hi - lo] && TookOne(free0, total, p, free1, total1)
    ensures p == lo && total1 == total
    ensures forall b: nat :: Covers(free1, b) <==> lo < b < hi
  {
    assert lo in free0 && Fits(free0, 1);
    if hi - lo > 1 { OneRunCovers(free1, lo + 1, hi); }
  }

  /** The block behind a run of a coalesced map is in use. */
  lemma RunEnds(free: Runs, first: nat, total: nat, s: nat)
    requires Coalesced(free, first, total) && s in free
    ensures Covers(free, s) && Covers(free, s + free[s] - 1) && !Covers(free, s + free[s])
  {
    forall t | t in free ensures !(t <= s + free[s] < t + free[t]) { }
  }

  /** A coalesced map of the blocks in an interval is one run. */
  lemma OneRun(free: Runs, first: nat, total: nat, lo: nat, hi: nat)
    requires Coalesced(free, first, total) && lo < hi && forall b: nat :: Covers(free, b) <==> lo <= b < hi
    ensures free == map[lo := hi - lo]
  {
    assert Covers(free, lo);
    var s :| s in free && s <= lo < s + free[s];
    RunEnds(free, first, total, s);
    forall t | t in free ensures t == lo { RunEnds(free, first, total, t); }
  }

  function Max(a: nat, b: nat): nat { if a > b then a else b }

  /** The first two blocks handed out by a new image that has room for them. */
  lemma TableCarved(first: nat, total: nat, image0: seq<byte>, start: nat, free1: Runs, total1: nat, image1: seq<byte>)
    requires first + 2 < total && Chosen(map[first := total - first], total, image0, 2, start, free1, total1, image1)
    ensures start == first && total1 == total && image1 == image0 && free1 == map[first + 2 := total - (first + 2)]
    ensures forall b: nat :: Covers(free1, b) <==> first + 2 <= b < total
  {
    var free0: Runs := map[first := total - first];
    assert first in free0 && Fits(free0, 2);
    OneRunCovers(free1, first + 2, total);
  }

  lemma OneRunCovers(free: Runs, lo: nat, hi: nat)
    requires lo < hi && free == map[lo := hi - lo]
    ensures forall b: nat :: Covers(free, b) <==> lo <= b < hi
  {
    forall b: nat | lo <= b < hi ensures Covers(free, b) { assert lo in free && lo <= b < lo + free[lo]; }
  }

  class Allocator {
    var free: Runs
    const firstData: nat
    var totalBlocks: nat

    ghost predicate Valid() reads this { Coalesced(free, firstData, totalBlocks) }

    constructor (first: nat, total: nat)
      requires first <= total
      ensures Valid() && firstData == first && totalBlocks == total
      ensures free == if total > first then map[first := total - first] else map[]
      ensures forall b: nat :: Covers(free, b) <==> first <= b < total
    {
      free := if total > first then map[first := total - first] else map[];
      firstData := first;
      totalBlocks := total;
      new;
      forall b: nat ensures Covers(free, b) <==> first <= b < total {
        if first <= b < total { assert first in free && first <= b < first + free[first]; }
      }
    }

    /** Best fit over the runs in ascending order, stopping at an exact fit. */
    method FindBest(want: nat) returns (best: Option<nat>)
      ensures best.Some? ==> BestFit(free, want, best.value)
      ensures best.None? ==> forall s :: s in free ==> free[s] < want
    {
      best := None;
      var rest := free.Keys;
      while rest != {}
        invariant rest <= free.Keys
        invariant forall s, t :: s in free && s !in rest && t in rest ==> s < t
        invariant best.None? ==> forall s :: s in free && s !in rest ==> free[s] < want
        invariant best.Some? ==> best.value in free && best.value !in rest && free[best.value] > want
        invariant best.Some? ==> forall s :: s in free && s !in rest && free[s] >= want ==>
          free[best.value] < free[s] || (free[best.value] == free[s] && best.value <= s)
        decreases rest
      {
        var start := MinKey(rest);
        var len := free[start];
        rest := rest - {start};
        if len >= want && (best.None? || len < free[best.value]) {
          best := Some(start);
          if len == want { break; }
        }
      }
    }

    /** Hand out `want` blocks: the best fit among the free runs, or new blocks at the end of the image. */
    method Allocate(image: Image, want: nat) returns (r: Result<nat>)
      requires Valid() && image.Valid()
      modifies this, image
      ensures Valid() && image.Valid()
      ensures want == 0 <==> r.Err?
      ensures want == 0 ==> r == Err(EINVAL) && free == old(free) && totalBlocks == old(totalBlocks) && image.data == old(image.data)
      ensures r.Ok? ==> Chosen(old(free), old(totalBlocks), old(image.data), want, r.value, free, totalBlocks, image.data)
      // The blocks handed out were free or are new, and nothing else is taken.
      ensures r.Ok? ==> Took(old(free), old(totalBlocks), free, firstData, totalBlocks, r.value, want)
      ensures forall b: nat :: BlockOf(image.data, b) == BlockOf(old(image.data), b)
    {
      hide Coalesced, Covers, BlockOf;
      if want == 0 { return Err(EINVAL); }
      var best := FindBest(want);
      if best.Some? {
        var start := best.value;
        var len := free[start];
        free := free - {start};
        if len > want { free := free[start + want := len - want]; }
        ChosenTook(old(free), firstData, old(totalBlocks), old(image.data), want, start, free, totalBlocks, image.data);
        return Ok(start);
      }
      var start := totalBlocks;
      var newTotal := start + want;
      image.GrowTo(newTotal * 4096);
      var imageBlocks := image.Len() / 4096;
      assert imageBlocks >= newTotal;
      if imageBlocks > newTotal {
        free := free[newTotal := imageBlocks - newTotal];
      }
      totalBlocks := if imageBlocks > newTotal then imageBlocks else newTotal;
      ChosenTook(old(free), firstData, old(totalBlocks), old(image.data), want, start, free, totalBlocks, image.data);
      return Ok(start);
    }

    /** Give back a run of blocks. Where they had been handed out, exactly they become free. */
    method Free(start: nat, len: nat)
      modifies this`free
      ensures free == Freed(old(free), start, len)
      ensures old(Valid() && Freeable(free, firstData, totalBlocks, start, len)) ==>
        Valid() && forall b: nat :: Covers(free, b) <==> Covers(old(free), b) || InRange(start, len, b)
    {
      if Valid() && Freeable(free, firstData, totalBlocks, start, len) { FreedCovers(free, firstData, totalBlocks, start, len); }
      if len == 0 { return; }
      InsertMerged(start, len);
    }

    /** Insert a run, joined with the run that ends where it starts and the run that starts where it ends. */
    method InsertMerged(start0: nat, len0: nat)
      requires len0 > 0
      modifies this`free
      ensures free == Freed(old(free), start0, len0)
    {
      var start, len := start0, len0;
      var prev := Before(free, start);
      if prev.Some? {
        var ps := prev.value;
        var pl := free[ps];
        if ps + pl == start {
          free := free - {ps};
          start := ps;
          len := len + pl;
        }
      }
      ghost var lo, end := MergeLo(old(free), start0), start0 + len0;
      ghost var below := if lo < start0 then old(free) - {lo} else old(free);
      assert start == lo && start + len == end && free == below;
      FreedInSteps(old(free), start0, len0, below, if end in below then below - {end} else below);
      if start + len in free {
        var nl := free[start + len];
        free := free - {start + len};
        len := len + nl;
      }
      free := free[start := len];
    }

    /** Cut the free tail of the image, keeping some slack. */
    method MaybeShrink(image: Image) returns (shrunk: bool)
      requires Valid() && image.Valid()
      modifies this, image
      ensures Valid() && image.Valid()
      ensures totalBlocks <= old(totalBlocks)
      ensures !shrunk ==> free == old(free) && totalBlocks == old(totalBlocks) && image.data == old(image.data)
      // Only free blocks go, and the free map loses exactly those.
      ensures forall b: nat :: totalBlocks <= b < old(totalBlocks) ==> Covers(old(free), b)
      ensures forall b: nat :: Covers(free, b) <==> Covers(old(free), b) && b < totalBlocks
      ensures forall b: nat :: b < totalBlocks ==> BlockOf(image.data, b) == BlockOf(old(image.data), b)
      // It shrinks exactly when the last run reaches the end and is longer than the slack it keeps.
      ensures shrunk <==> (old(free) != map[] && LongTail(old(free), old(totalBlocks)))
      ensures shrunk ==> totalBlocks == MaxKey(old(free).Keys) + SHRINK_SLACK_BLOCKS
      // The image is cut where the blocks now end.
      ensures shrunk && totalBlocks * 4096 < |old(image.data)| ==> image.data == old(image.data)[..totalBlocks * 4096]
      ensures shrunk && totalBlocks * 4096 >= |old(image.data)| ==> image.data == old(image.data)
    {
      if free == map[] { return false; }
      var start: nat := MaxKey(free.Keys);
      var len := free[start];
      if start + len != totalBlocks { return false; }
      if len <= SHRINK_SLACK_BLOCKS { return false; }
      var newTotal := if start + SHRINK_SLACK_BLOCKS > firstData then start + SHRINK_SLACK_BLOCKS else firstData;
      if newTotal >= totalBlocks { return false; }
      ShrinkCovers(free, firstData, totalBlocks, start, newTotal);
      image.ShrinkTo(newTotal * 4096);
      forall b: nat | b < newTotal ensures BlockOf(image.data, b) == BlockOf(old(image.data), b) {
        if newTotal * 4096 < |old(image.data)| { ShrunkBlock(old(image.data), newTotal, b); }
      }
      free := free - {start};
      var leftover := newTotal - start;
      if leftover > 0 { free := free[start := leftover]; }
      totalBlocks := newTotal;
      return true;
    }
  }

  /** The last run reaches the end of the image and is longer than the slack that is kept. */
  predicate LongTail(free: Runs, total: nat)
    requires free != map[]
  {
    var s: nat := MaxKey(free.Keys);
    s + free[s] == total && free[s] > SHRINK_SLACK_BLOCKS
  }

  /** It is exactly when the last 65 blocks are free, and then the free blocks that end the image lose all but 64. */
  lemma LongTailIff(free: Runs, first: nat, total: nat)
    requires Coalesced(free, first, total)
    ensures (free != map[] && LongTail(free, total)) <==> (total >= 65 && forall b: nat :: total - 65 <= b < total ==> Covers(free, b))
    ensures free != map[] && LongTail(free, total) ==> (
      var kept := MaxKey(free.Keys) + SHRINK_SLACK_BLOCKS;
      && 64 <= kept < total && (forall b: nat :: kept - 64 <= b < total ==> Covers(free, b))
      && (kept >= 65 ==> !Covers(free, kept - 65)))
  {
    hide Coalesced, Covers;
    if total >= 65 && forall b: nat :: total - 65 <= b < total ==> Covers(free, b) { TailRun(free, first, total); }
    if free != map[] && LongTail(free, total) {
      var s: nat := MaxKey(free.Keys);
      RunOf(free, s);
      if s > 0 { StartUsed(free, first, total, s); }
    }
  }

  lemma RunOf(free: Runs, s: nat)
    requires s in free
    ensures forall b: nat :: s <= b < s + free[s] ==> Covers(free, b)
  {
    forall b: nat | s <= b < s + free[s] ensures Covers(free, b) { assert s in free && s <= b < s + free[s]; }
  }

  lemma TailRun(free: Runs, first: nat, total: nat)
    requires Coalesced(free, first, total) && total >= 65 && forall b: nat :: total - 65 <= b < total ==> Covers(free, b)
    ensures free != map[] && LongTail(free, total)
  {
    hide Coalesced, LongTail;
    assert Covers(free, total - 1) && Covers(free, total - 65);
    var r :| r in free && r <= total - 1 < r + free[r];
    LastRun(free, first, total, r);
    if total - 65 < r { StartUsed(free, first, total, r); }
  }

  /** The run that holds the last block is the one that starts last, and ends the image. */
  lemma LastRun(free: Runs, first: nat, total: nat, r: nat)
    requires Coalesced(free, first, total) && r in free && r < total <= r + free[r]
    ensures r + free[r] == total && MaxKey(free.Keys) == r
    ensures LongTail(free, total) <==> free[r] > SHRINK_SLACK_BLOCKS
  {
    forall s | s in free ensures s <= r { }
  }

  /** The block in front of a run is used. */
  lemma StartUsed(free: Runs, first: nat, total: nat, s: nat)
    requires Coalesced(free, first, total) && s in free && s > 0
    ensures !Covers(free, s - 1)
  {
  }

  lemma ShrinkCovers(free: Runs, first: nat, total: nat, start: nat, newTotal: nat)
    requires Coalesced(free, first, total) && start in free && start + free[start] == total && start < newTotal <= total
    ensures var after := (free - {start})[start := newTotal - start];
      && Coalesced(after, first, newTotal)
      && (forall b: nat :: Covers(after, b) <==> Covers(free, b) && b < newTotal)
      && (forall b: nat :: newTotal <= b < total ==> Covers(free, b))
  {
    var after := (free - {start})[start := newTotal - start];
    forall s | s in free && s != start ensures s + free[s] < start { }
    forall b: nat ensures Covers(after, b) <==> Covers(free, b) && b < newTotal {
      ShrinkCoversAt(free, first, total, start, newTotal, b);
    }
    forall b: nat | newTotal <= b < total ensures Covers(free, b) { assert start in free && start <= b < start + free[start]; }
  }

  lemma ShrinkCoversAt(free: Runs, first: nat, total: nat, start: nat, newTotal: nat, b: nat)
    requires Coalesced(free, first, total) && start in free && start + free[start] == total && start < newTotal <= total
    ensures Covers((free - {start})[start := newTotal - start], b) <==> Covers(free, b) && b < newTotal
  {
    var after := (free - {start})[start := newTotal - start];
    if Covers(after, b) { ShrinkKeepsOnly(free, first, total, start, newTotal, b); }
    if Covers(free, b) && b < newTotal {
      var s :| s in free && s <= b < s + free[s];
      assert s in after && s <= b < s + after[s];
    }
  }

  lemma ShrinkKeepsOnly(free: Runs, first: nat, total: nat, start: nat, newTotal: nat, b: nat)
    requires Coalesced(free, first, total) && start in free && start + free[start] == total && start < newTotal <= total
    requires Covers((free - {start})[start := newTotal - start], b)
    ensures Covers(free, b) && b < newTotal
  {
    var after := (free - {start})[start := newTotal - start];
    var s :| s in after && s <= b < s + after[s];
    if s != start { assert s in free && s + free[s] <= total && (s < start ==> s + free[s] < start); }
    assert s in free && s <= b < s + free[s];
  }
}
