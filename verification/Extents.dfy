/** File extents: the logical-to-physical map of a file and its updates, after src/format.rs and src/inner.rs. */
module Extents {
  import opened Format
  import opened Wrappers

  datatype Extent = Extent(logical: nat, physical: nat, length: nat, physLength: nat, compress: byte) {
    function PhysLen(): nat { if physLength != 0 then physLength else length }
    predicate IsCompressed() { compress != 0 }
    function LogicalEnd(): nat { logical + length }
    function PhysicalEnd(): nat { physical + PhysLen() }
    predicate Contains(l: nat) { logical <= l < logical + length }
    predicate Holds(b: nat) { physical <= b < PhysicalEnd() }
    function Map(l: nat): Option<nat> { if Contains(l) then Some(physical + (l - logical)) else None }
  }

  function Whole(logical: nat, physical: nat, length: nat): Extent { Extent(logical, physical, length, length, 0) }

  /** Where a logical block lives: nowhere, in one physical block, or inside a compressed record. */
  datatype Spot = Hole | Raw(block: nat) | Packed(ext: Extent)

  function SpotIn(e: Extent, l: nat): Spot
    requires e.Contains(l)
  {
    if e.IsCompressed() then Packed(e) else Raw(e.physical + (l - e.logical))
  }

  /** The spot given by the first extent that contains `l`. */
  function SpotOf(exts: seq<Extent>, l: nat): Spot {
    if exts == [] then Hole
    else if exts[0].Contains(l) then SpotIn(exts[0], l)
    else SpotOf(exts[1..], l)
  }

  /** `map_file_block`: the first extent that contains `l`, compressed or not. */
  function MapBlock(exts: seq<Extent>, l: nat): Option<nat> {
    if exts == [] then None
    else if exts[0].Contains(l) then exts[0].Map(l)
    else MapBlock(exts[1..], l)
  }

  ghost predicate Owns(exts: seq<Extent>, b: nat) { exists e :: e in exts && e.Holds(b) }

  // --- well-formed extent lists -------------------------------------------------

  predicate Aligned(x: nat, rb: nat)
    requires rb > 0
  {
    x % rb == 0
  }

  /** A raw extent maps block for block; a compressed one starts a record and does not leave it. */
  predicate SoundExtent(e: Extent, rb: nat)
    requires rb > 0
  {
    && e.length > 0
    && (if e.IsCompressed() then Aligned(e.logical, rb) && e.length <= rb && e.physLength > 0 else e.PhysLen() == e.length)
  }

  ghost predicate Ordered(exts: seq<Extent>) {
    forall i, j :: 0 <= i < j < |exts| ==> exts[i].LogicalEnd() <= exts[j].logical
  }

  ghost predicate Apart(e: Extent, f: Extent) { e.PhysicalEnd() <= f.physical || f.PhysicalEnd() <= e.physical }

  ghost predicate Sound(exts: seq<Extent>, rb: nat)
    requires rb > 0
  {
    && Ordered(exts)
    && (forall e :: e in exts ==> SoundExtent(e, rb))
    && (forall e, f :: e in exts && f in exts && e != f ==> Apart(e, f))
  }

  lemma {:induction false} SpotAt(exts: seq<Extent>, i: nat, l: nat)
    requires Ordered(exts) && i < |exts| && exts[i].Contains(l)
    ensures SpotOf(exts, l) == SpotIn(exts[i], l) && MapBlock(exts, l) == exts[i].Map(l)
  {
    if i > 0 {
      assert exts[0].LogicalEnd() <= exts[i].logical;
      assert Ordered(exts[1..]) by {
        forall a, b | 0 <= a < b < |exts[1..]| ensures exts[1..][a].LogicalEnd() <= exts[1..][b].logical {
          assert exts[a + 1].LogicalEnd() <= exts[b + 1].logical;
        }
      }
      SpotAt(exts[1..], i - 1, l);
    }
  }

  /** In an ordered list the one extent that contains a block decides its spot. */
  lemma SpotBy(exts: seq<Extent>, e: Extent, l: nat)
    requires Ordered(exts) && e in exts && e.Contains(l)
    ensures SpotOf(exts, l) == SpotIn(e, l) && MapBlock(exts, l) == e.Map(l)
  {
    var i :| 0 <= i < |exts| && exts[i] == e;
    SpotAt(exts, i, l);
  }

  lemma {:induction false} SpotFrom(exts: seq<Extent>, l: nat) returns (found: Option<Extent>)
    ensures found.None? ==> SpotOf(exts, l) == Hole && MapBlock(exts, l) == None && forall e :: e in exts ==> !e.Contains(l)
    ensures found.Some? ==> found.value in exts && found.value.Contains(l) && SpotOf(exts, l) == SpotIn(found.value, l)
    ensures found.Some? ==> MapBlock(exts, l) == found.value.Map(l)
  {
    if exts == [] {
      found := None;
    } else if exts[0].Contains(l) {
      found := Some(exts[0]);
    } else {
      found := SpotFrom(exts[1..], l);
    }
  }

  /** `extents.iter().find(|e| e.contains_logical(l))`. */
  function FindExtent(exts: seq<Extent>, l: nat): (found: Option<Extent>)
    ensures found.None? ==> SpotOf(exts, l) == Hole
    ensures found.Some? ==> found.value in exts && found.value.Contains(l) && SpotOf(exts, l) == SpotIn(found.value, l)
  {
    if exts == [] then None
    else if exts[0].Contains(l) then Some(exts[0])
    else FindExtent(exts[1..], l)
  }

  lemma SpotNone(exts: seq<Extent>, l: nat)
    requires forall e :: e in exts ==> !e.Contains(l)
    ensures SpotOf(exts, l) == Hole
  {
    var f := SpotFrom(exts, l);
  }

  // --- sort_by_key(|e| e.logical) -------------------------------------------------

  /** `e` placed after every extent that does not start later. */
  function Insert(exts: seq<Extent>, e: Extent): (r: seq<Extent>)
    ensures |r| == |exts| + 1
    ensures forall x :: x in r <==> x in exts || x == e
  {
    if exts == [] || exts[|exts| - 1].logical <= e.logical then exts + [e]
    else
      var n := |exts| - 1;
      assert exts == exts[..n] + [exts[n]];
      Insert(exts[..n], e) + [exts[n]]
  }

  /** A stable sort by first logical block. */
  function SortByLogical(exts: seq<Extent>): (r: seq<Extent>)
    ensures |r| == |exts|
    ensures forall x :: x in r <==> x in exts
  {
    if exts == [] then []
    else
      var n := |exts| - 1;
      assert exts == exts[..n] + [exts[n]];
      Insert(SortByLogical(exts[..n]), exts[n])
  }

  lemma OrderedPrefix(exts: seq<Extent>, n: nat)
    requires Ordered(exts) && n <= |exts|
    ensures Ordered(exts[..n])
  {
    forall i, j | 0 <= i < j < n ensures exts[..n][i].LogicalEnd() <= exts[..n][j].logical { }
  }

  lemma {:induction false} SortOrdered(exts: seq<Extent>)
    requires Ordered(exts)
    ensures SortByLogical(exts) == exts
  {
    if exts != [] {
      var n := |exts| - 1;
      var front := exts[..n];
      OrderedPrefix(exts, n);
      SortOrdered(front);
      assert front != [] ==> front[|front| - 1].logical <= exts[n].logical;
      assert exts == front + [exts[n]];
    }
  }

  lemma OrderedSnoc(exts: seq<Extent>, e: Extent)
    requires Ordered(exts) && forall x :: x in exts ==> x.LogicalEnd() <= e.logical
    ensures Ordered(exts + [e])
  {
    var r := exts + [e];
    forall i, j | 0 <= i < j < |r| ensures r[i].LogicalEnd() <= r[j].logical {
      if j == |exts| { assert r[i] in exts; }
    }
  }

  lemma OrderedLast(exts: seq<Extent>, x: Extent)
    requires Ordered(exts) && exts != [] && x in exts[..|exts| - 1]
    ensures x.LogicalEnd() <= exts[|exts| - 1].logical
  {
    var i :| 0 <= i < |exts| - 1 && exts[i] == x;
  }

  /** Inserting an extent that overlaps no other keeps the list ordered. */
  lemma {:induction false} InsertOrdered(exts: seq<Extent>, e: Extent)
    requires Ordered(exts) && e.length > 0 && forall x :: x in exts ==> x.length > 0
    requires forall x :: x in exts ==> x.LogicalEnd() <= e.logical || e.LogicalEnd() <= x.logical
    ensures Ordered(Insert(exts, e))
  {
    if exts == [] || exts[|exts| - 1].logical <= e.logical {
      forall x | x in exts ensures x.LogicalEnd() <= e.logical {
        if x in exts[..|exts| - 1] { OrderedLast(exts, x); } else { assert x == exts[|exts| - 1]; }
      }
      OrderedSnoc(exts, e);
    } else {
      var n := |exts| - 1;
      assert exts[n] in exts;
      InsertOrdered(exts[..n], e);
      forall x | x in exts[..n] ensures x.LogicalEnd() <= exts[n].logical { OrderedLast(exts, x); }
      OrderedSnoc(Insert(exts[..n], e), exts[n]);
    }
  }

  // --- add_extent -----------------------------------------------------------------

  /** The new extent continues the last one both logically and physically, and neither is compressed. */
  predicate Continues(exts: seq<Extent>, e: Extent) {
    && !e.IsCompressed() && e.physLength == e.length && exts != []
    && var last := exts[|exts| - 1];
       !last.IsCompressed() && last.LogicalEnd() == e.logical && last.physical + last.PhysLen() == e.physical
  }

  function Joined(last: Extent, e: Extent): Extent {
    last.(length := last.length + e.length, physLength := if last.physLength != 0 then last.physLength + e.physLength else 0)
  }

  /** Merge into the last extent where the new one continues it, else insert in logical order. */
  function Added(exts: seq<Extent>, e: Extent): seq<Extent> {
    if Continues(exts, e) then exts[..|exts| - 1] + [Joined(exts[|exts| - 1], e)] else SortByLogical(exts + [e])
  }

  /** One more extent, unless two plain ones meet both in the file and in the image: then there are as many as before. */
  lemma AddedCount(exts: seq<Extent>, e: Extent)
    ensures |Added(exts, e)| == |exts| + (
      if exts != [] && exts[|exts| - 1].compress == 0 == e.compress && e.physLength == e.length
         && exts[|exts| - 1].LogicalEnd() == e.logical && exts[|exts| - 1].PhysicalEnd() == e.physical then 0 else 1)
  {
  }

  /** The new extent fits: sound, over a hole, on blocks the file does not own. */
  ghost predicate Addable(exts: seq<Extent>, e: Extent, rb: nat)
    requires rb > 0
  {
    && Sound(exts, rb) && SoundExtent(e, rb)
    && (forall l: nat :: e.Contains(l) ==> SpotOf(exts, l) == Hole)
    && (forall b: nat :: e.Holds(b) ==> !Owns(exts, b))
  }

  lemma AddableApart(exts: seq<Extent>, e: Extent, rb: nat, x: Extent)
    requires rb > 0 && Addable(exts, e, rb) && x in exts
    ensures x.LogicalEnd() <= e.logical || e.LogicalEnd() <= x.logical
    ensures Apart(x, e) && x != e
  {
    var l := if x.logical < e.logical then e.logical else x.logical;
    if e.Contains(l) && x.Contains(l) { SpotBy(exts, x, l); }
    var b := if x.physical < e.physical then e.physical else x.physical;
    if e.Holds(b) && x.Holds(b) { assert Owns(exts, b); }
  }

  lemma SortSnoc(exts: seq<Extent>, e: Extent)
    requires Ordered(exts)
    ensures SortByLogical(exts + [e]) == Insert(exts, e)
  {
    assert (exts + [e])[..|exts|] == exts;
    SortOrdered(exts);
  }

  lemma AddedMembers(exts: seq<Extent>, e: Extent, rb: nat)
    requires rb > 0 && Addable(exts, e, rb)
    ensures !Continues(exts, e) ==> forall x :: x in Added(exts, e) <==> x in exts || x == e
    ensures Continues(exts, e) ==>
      forall x :: x in Added(exts, e) <==> x in exts[..|exts| - 1] || x == Joined(exts[|exts| - 1], e)
  {
  }

  lemma AddedSound(exts: seq<Extent>, e: Extent, rb: nat)
    requires rb > 0 && Addable(exts, e, rb)
    ensures Sound(Added(exts, e), rb)
  {
    forall x | x in exts ensures (x.LogicalEnd() <= e.logical || e.LogicalEnd() <= x.logical) && Apart(x, e) {
      AddableApart(exts, e, rb, x);
    }
    if Continues(exts, e) {
      JoinedSound(exts, e, rb);
    } else {
      SortSnoc(exts, e);
      InsertOrdered(exts, e);
    }
  }

  lemma JoinedSound(exts: seq<Extent>, e: Extent, rb: nat)
    requires rb > 0 && Sound(exts, rb) && SoundExtent(e, rb) && Continues(exts, e)
    requires forall x :: x in exts ==> Apart(x, e)
    ensures Sound(exts[..|exts| - 1] + [Joined(exts[|exts| - 1], e)], rb)
  {
    var n := |exts| - 1;
    var front, last, j := exts[..n], exts[n], Joined(exts[n], e);
    assert last in exts;
    OrderedPrefix(exts, n);
    forall x | x in front ensures x in exts && x.LogicalEnd() <= j.logical && Apart(x, j) {
      OrderedLast(exts, x);
      JoinedApart(last, e, x, rb);
    }
    OrderedSnoc(front, j);
  }

  lemma JoinedApart(last: Extent, e: Extent, x: Extent, rb: nat)
    requires rb > 0 && SoundExtent(last, rb) && SoundExtent(e, rb) && SoundExtent(x, rb)
    requires !last.IsCompressed() && !e.IsCompressed() && e.physLength == e.length && last.physical + last.PhysLen() == e.physical
    requires Apart(x, e) && (x == last || Apart(x, last)) && x.LogicalEnd() <= last.logical
    ensures Apart(x, Joined(last, e))
  {
  }

  /** The logical map gains exactly the new extent. */
  lemma AddedSpot(exts: seq<Extent>, e: Extent, rb: nat, l: nat)
    requires rb > 0 && Addable(exts, e, rb)
    ensures SpotOf(Added(exts, e), l) == if e.Contains(l) then SpotIn(e, l) else SpotOf(exts, l)
  {
    var after := Added(exts, e);
    AddedSound(exts, e, rb);
    AddedMembers(exts, e, rb);
    var f := SpotFrom(exts, l);
    if Continues(exts, e) {
      var n := |exts| - 1;
      var last, j := exts[n], Joined(exts[n], e);
      assert last in exts && j in after;
      if e.Contains(l) || last.Contains(l) {
        SpotBy(after, j, l);
        if last.Contains(l) { SpotBy(exts, last, l); }
      } else if f.Some? {
        assert f.value in exts[..n];
        SpotBy(after, f.value, l);
      } else {
        forall x | x in after ensures !x.Contains(l) { }
        SpotNone(after, l);
      }
    } else {
      if e.Contains(l) {
        SpotBy(after, e, l);
      } else if f.Some? {
        SpotBy(after, f.value, l);
      } else {
        SpotNone(after, l);
      }
    }
  }

  /** The file owns what it owned and the new extent's blocks. */
  lemma AddedOwns(exts: seq<Extent>, e: Extent, rb: nat, b: nat)
    requires rb > 0 && Addable(exts, e, rb)
    ensures Owns(Added(exts, e), b) <==> Owns(exts, b) || e.Holds(b)
  {
    AddedMembers(exts, e, rb);
    if Continues(exts, e) {
      JoinedOwns(exts, e, rb, b);
    } else {
      var after := Added(exts, e);
      if Owns(exts, b) {
        var x :| x in exts && x.Holds(b);
        assert x in after;
      }
      if e.Holds(b) { assert e in after; }
    }
  }

  lemma JoinedOwns(exts: seq<Extent>, e: Extent, rb: nat, b: nat)
    requires rb > 0 && Sound(exts, rb) && SoundExtent(e, rb) && Continues(exts, e)
    ensures Owns(exts[..|exts| - 1] + [Joined(exts[|exts| - 1], e)], b) <==> Owns(exts, b) || e.Holds(b)
  {
    var n := |exts| - 1;
    var front, last, j := exts[..n], exts[n], Joined(exts[n], e);
    var after := front + [j];
    assert last in exts && j in after;
    assert j.Holds(b) <==> last.Holds(b) || e.Holds(b);
    if Owns(exts, b) {
      var x :| x in exts && x.Holds(b);
      if x in front { assert x in after; } else { assert x == last; }
    }
    if Owns(after, b) {
      var x :| x in after && x.Holds(b);
      if x != j { assert x in exts; }
    }
  }

  // --- punch_logical_range ----------------------------------------------------------

  predicate Meets(e: Extent, start: nat, end: nat) { !(e.LogicalEnd() <= start || e.logical >= end) }

  /** What is left of one extent when `[start, end)` is punched out of it. */
  function PunchOne(e: Extent, start: nat, end: nat): seq<Extent> {
    if !Meets(e, start, end) then [e]
    else if e.IsCompressed() then []
    else
      (if e.logical < start then [Whole(e.logical, e.physical, start - e.logical)] else [])
      + (if e.LogicalEnd() > end then [Whole(end, e.physical + (end - e.logical), e.LogicalEnd() - end)] else [])
  }

  /** The physical run that punching one extent frees: all of a compressed record, the middle of a raw one. */
  function PunchFrees(e: Extent, start: nat, end: nat): (run: (nat, nat)) {
    if !Meets(e, start, end) then (0, 0)
    else if e.IsCompressed() then (e.physical, e.PhysLen())
    else
      var mid0 := if start > e.logical then start else e.logical;
      var mid1 := if end < e.LogicalEnd() then end else e.LogicalEnd();
      if mid1 > mid0 then (e.physical + (mid0 - e.logical), mid1 - mid0) else (0, 0)
  }

  predicate FreesBlock(e: Extent, start: nat, end: nat, b: nat) {
    var run := PunchFrees(e, start, end);
    run.0 <= b < run.0 + run.1
  }

  function Punched(exts: seq<Extent>, start: nat, end: nat): (r: seq<Extent>)
    ensures forall x :: x in r <==> exists e :: e in exts && x in PunchOne(e, start, end)
  {
    if exts == [] then []
    else
      var n := |exts| - 1;
      assert exts == exts[..n] + [exts[n]];
      Punched(exts[..n], start, end) + PunchOne(exts[n], start, end)
  }

  /** The punched range cuts no compressed record in two. */
  ghost predicate CutsNoRecord(exts: seq<Extent>, start: nat, end: nat) {
    forall e :: e in exts && e.IsCompressed() && Meets(e, start, end) ==> start <= e.logical && e.LogicalEnd() <= end
  }

  lemma PieceOf(e: Extent, start: nat, end: nat, rb: nat, x: Extent)
    requires rb > 0 && start < end && SoundExtent(e, rb) && x in PunchOne(e, start, end)
    ensures SoundExtent(x, rb)
    ensures e.logical <= x.logical && x.LogicalEnd() <= e.LogicalEnd()
    ensures e.physical <= x.physical && x.PhysicalEnd() <= e.PhysicalEnd()
    ensures x.IsCompressed() ==> x == e
    ensures forall b: nat :: x.Holds(b) ==> !FreesBlock(e, start, end, b)
    ensures forall l: nat :: x.Contains(l) ==> !(start <= l < end && Meets(e, start, end)) && SpotIn(x, l) == SpotIn(e, l)
  {
  }

  lemma PiecesOrdered(e: Extent, start: nat, end: nat, rb: nat)
    requires rb > 0 && start < end && SoundExtent(e, rb)
    ensures Ordered(PunchOne(e, start, end))
    ensures forall x, y :: x in PunchOne(e, start, end) && y in PunchOne(e, start, end) && x != y ==> Apart(x, y)
  {
  }

  lemma OrderedConcat(s: seq<Extent>, t: seq<Extent>)
    requires Ordered(s) && Ordered(t) && forall x, y :: x in s && y in t ==> x.LogicalEnd() <= y.logical
    ensures Ordered(s + t)
  {
    var r := s + t;
    forall i, j | 0 <= i < j < |r| ensures r[i].LogicalEnd() <= r[j].logical {
      if i < |s| <= j { assert r[i] in s && r[j] in t; }
    }
  }

  lemma {:induction false} PunchedOrdered(exts: seq<Extent>, start: nat, end: nat, rb: nat)
    requires rb > 0 && start < end && Ordered(exts) && forall e :: e in exts ==> SoundExtent(e, rb)
    ensures Ordered(Punched(exts, start, end))
  {
    if exts != [] {
      var n := |exts| - 1;
      OrderedPrefix(exts, n);
      PunchedOrdered(exts[..n], start, end, rb);
      PiecesOrdered(exts[n], start, end, rb);
      forall x, y | x in Punched(exts[..n], start, end) && y in PunchOne(exts[n], start, end)
        ensures x.LogicalEnd() <= y.logical
      {
        var e :| e in exts[..n] && x in PunchOne(e, start, end);
        PieceOf(e, start, end, rb, x);
        PieceOf(exts[n], start, end, rb, y);
        OrderedLast(exts, e);
      }
      OrderedConcat(Punched(exts[..n], start, end), PunchOne(exts[n], start, end));
    }
  }

  lemma PunchedSound(exts: seq<Extent>, start: nat, end: nat, rb: nat)
    requires rb > 0 && start < end && Sound(exts, rb)
    ensures Sound(Punched(exts, start, end), rb)
  {
    var after := Punched(exts, start, end);
    PunchedOrdered(exts, start, end, rb);
    forall x | x in after ensures SoundExtent(x, rb) {
      var e :| e in exts && x in PunchOne(e, start, end);
      PieceOf(e, start, end, rb, x);
    }
    forall x, y | x in after && y in after && x != y ensures Apart(x, y) {
      var e :| e in exts && x in PunchOne(e, start, end);
      var f :| f in exts && y in PunchOne(f, start, end);
      PieceOf(e, start, end, rb, x);
      PieceOf(f, start, end, rb, y);
      if e == f { PiecesOrdered(e, start, end, rb); } else { assert Apart(e, f); }
    }
  }

  lemma PieceWith(e: Extent, start: nat, end: nat, rb: nat, l: nat) returns (x: Extent)
    requires rb > 0 && start < end && SoundExtent(e, rb) && e.Contains(l) && !(start <= l < end)
    requires e.IsCompressed() && Meets(e, start, end) ==> start <= e.logical && e.LogicalEnd() <= end
    ensures x in PunchOne(e, start, end) && x.Contains(l) && SpotIn(x, l) == SpotIn(e, l)
  {
    if !Meets(e, start, end) {
      x := e;
    } else if l < start {
      x := Whole(e.logical, e.physical, start - e.logical);
    } else {
      x := Whole(end, e.physical + (end - e.logical), e.LogicalEnd() - end);
    }
  }

  /** The logical map loses exactly the punched range. */
  lemma PunchedSpot(exts: seq<Extent>, start: nat, end: nat, rb: nat, l: nat)
    requires rb > 0 && start < end && Sound(exts, rb) && CutsNoRecord(exts, start, end)
    ensures SpotOf(Punched(exts, start, end), l) == if start <= l < end then Hole else SpotOf(exts, l)
  {
    var after := Punched(exts, start, end);
    PunchedSound(exts, start, end, rb);
    var f := SpotFrom(exts, l);
    if f.Some? && !(start <= l < end) {
      var x := PieceWith(f.value, start, end, rb, l);
      SpotBy(after, x, l);
    } else {
      forall x | x in after ensures !x.Contains(l) {
        var e :| e in exts && x in PunchOne(e, start, end);
        PieceOf(e, start, end, rb, x);
      }
      SpotNone(after, l);
    }
  }

  /** Some extent's punched piece contains `b`. */
  ghost predicate PunchFreesBlock(exts: seq<Extent>, start: nat, end: nat, b: nat) {
    exists e :: e in exts && FreesBlock(e, start, end, b)
  }

  lemma PunchedKeepsOnly(exts: seq<Extent>, start: nat, end: nat, rb: nat, b: nat)
    requires rb > 0 && start < end && Sound(exts, rb) && Owns(Punched(exts, start, end), b)
    ensures Owns(exts, b) && !PunchFreesBlock(exts, start, end, b)
  {
    var x :| x in Punched(exts, start, end) && x.Holds(b);
    var e :| e in exts && x in PunchOne(e, start, end);
    PieceOf(e, start, end, rb, x);
    assert e.Holds(b);
    if PunchFreesBlock(exts, start, end, b) {
      var g :| g in exts && FreesBlock(g, start, end, b);
      assert g == e || Apart(g, e);
      FreedWasHeld(g, start, end, rb, b);
    }
  }

  lemma FreedWasHeld(e: Extent, start: nat, end: nat, rb: nat, b: nat)
    requires rb > 0 && SoundExtent(e, rb) && FreesBlock(e, start, end, b)
    ensures e.Holds(b)
  {
  }

  lemma PieceHolding(e: Extent, start: nat, end: nat, rb: nat, b: nat) returns (x: Extent)
    requires rb > 0 && start < end && SoundExtent(e, rb) && e.Holds(b) && !FreesBlock(e, start, end, b)
    ensures x in PunchOne(e, start, end) && x.Holds(b)
  {
    if !Meets(e, start, end) {
      x := e;
    } else if b - e.physical + e.logical < start {
      x := Whole(e.logical, e.physical, start - e.logical);
    } else {
      x := Whole(end, e.physical + (end - e.logical), e.LogicalEnd() - end);
    }
  }

  /** The file keeps exactly the blocks that were not freed. */
  lemma PunchedOwns(exts: seq<Extent>, start: nat, end: nat, rb: nat, b: nat)
    requires rb > 0 && start < end && Sound(exts, rb)
    ensures Owns(Punched(exts, start, end), b) <==> Owns(exts, b) && !PunchFreesBlock(exts, start, end, b)
  {
    if Owns(Punched(exts, start, end), b) { PunchedKeepsOnly(exts, start, end, rb, b); }
    if Owns(exts, b) && !PunchFreesBlock(exts, start, end, b) {
      var e :| e in exts && e.Holds(b);
      var x := PieceHolding(e, start, end, rb, b);
    }
  }
}
