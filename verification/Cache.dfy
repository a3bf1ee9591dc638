/** The write-back block cache of src/cache.rs. */
module Cache {
  import opened Format
  import opened Store

  datatype Entry = Entry(data: Block, dirty: bool)

  /** What a reader sees: the cached copy of a block where there is one, else the image. */
  datatype Disk = Disk(entries: map<nat, Entry>, image: seq<byte>) {
    function At(b: nat): Block { if b in entries then entries[b].data else BlockOf(image, b) }

    /** A clean entry holds what the image holds. */
    ghost predicate Coherent() {
      |image| % 4096 == 0 && forall b: nat :: b in entries && !entries[b].dirty ==> entries[b].data == BlockOf(image, b)
    }
  }

  // --- recency order ----------------------------------------------------------

  function Distinct(s: seq<nat>): bool { forall i, j :: 0 <= i < j < |s| ==> s[i] != s[j] }

  function Without(s: seq<nat>, b: nat): (r: seq<nat>)
    ensures forall x :: x in r <==> x in s && x != b
    ensures Distinct(s) ==> Distinct(r) && |r| == if b in s then |s| - 1 else |s|
  {
    if s == [] then []
    else if s[0] == b then
      Without(s[1..], b)
    else
      var t := Without(s[1..], b);
      assert Distinct(s) ==> Distinct(s[1..]) && s[0] !in s[1..];
      [s[0]] + t
  }

  /** The recency list without its leading blocks that are no longer cached. */
  function SkipStale(lru: seq<nat>, cached: set<nat>): seq<nat> {
    if lru == [] || lru[0] in cached then lru else SkipStale(lru[1..], cached)
  }

  /** One access to block `b` in a cache of `cap` blocks: evict the oldest if `b` is new and there is no room. */
  function Access(lru: seq<nat>, cap: nat, b: nat): seq<nat> {
    (if b !in lru && |lru| >= cap && lru != [] then lru[1..] else Without(lru, b)) + [b]
  }

  function Run(cap: nat, trace: seq<nat>): seq<nat> {
    if trace == [] then [] else Access(Run(cap, trace[..|trace| - 1]), cap, trace[|trace| - 1])
  }

  /** The distinct blocks of a trace in order of their last access. */
  function LastUses(trace: seq<nat>): (r: seq<nat>)
    ensures forall x :: x in r <==> x in trace
    ensures Distinct(r)
  {
    if trace == [] then []
    else if trace[0] in trace[1..] then LastUses(trace[1..])
    else [trace[0]] + LastUses(trace[1..])
  }

  function TakeLast(s: seq<nat>, n: nat): seq<nat> { if |s| <= n then s else s[|s| - n..] }

  lemma {:induction false} WithoutAbsent(s: seq<nat>, b: nat)
    requires b !in s
    ensures Without(s, b) == s
  {
    if s != [] { WithoutAbsent(s[1..], b); }
  }

  lemma {:induction false} WithoutSplit(s: seq<nat>, t: seq<nat>, b: nat)
    ensures Without(s + t, b) == Without(s, b) + Without(t, b)
  {
    if s == [] {
      assert s + t == t;
    } else {
      assert (s + t)[1..] == s[1..] + t;
      WithoutSplit(s[1..], t, b);
    }
  }

  lemma {:induction false} WithoutOne(s: seq<nat>, pos: nat)
    requires Distinct(s) && pos < |s|
    ensures Without(s, s[pos]) == s[..pos] + s[pos + 1..]
  {
    if pos == 0 {
      WithoutAbsent(s[1..], s[0]);
    } else {
      assert s[1..][pos - 1] == s[pos];
      WithoutOne(s[1..], pos - 1);
      assert s[..pos] + s[pos + 1..] == [s[0]] + (s[1..][..pos - 1] + s[1..][pos..]);
    }
  }

  lemma {:induction false} LastUsesSnoc(trace: seq<nat>, b: nat)
    ensures LastUses(trace + [b]) == Without(LastUses(trace), b) + [b]
  {
    if trace == [] {
      assert trace + [b] == [b] && [b][1..] == [];
    } else {
      assert (trace + [b])[1..] == trace[1..] + [b];
      LastUsesSnoc(trace[1..], b);
      var l := LastUses(trace[1..]);
      assert ([trace[0]] + l)[1..] == l;
    }
  }

  lemma AccessOfTailHit(rest: seq<nat>, t: seq<nat>, cap: nat, b: nat)
    requires Distinct(rest + t) && b in t && |t| <= cap && (rest != [] ==> |t| == cap)
    ensures Access(t, cap, b) == TakeLast(Without(rest + t, b) + [b], cap)
  {
    forall i | 0 <= i < |rest| ensures rest[i] != b {
      var j :| 0 <= j < |t| && t[j] == b;
      assert (rest + t)[i] != (rest + t)[|rest| + j];
    }
    WithoutSplit(rest, t, b);
    WithoutAbsent(rest, b);
    assert Distinct(t) by { forall i, j | 0 <= i < j < |t| ensures t[i] != t[j] { assert (rest + t)[|rest| + i] != (rest + t)[|rest| + j]; } }
    assert |Without(t, b) + [b]| == |t|;
    assert (rest + Without(t, b)) + [b] == rest + (Without(t, b) + [b]);
  }

  lemma AccessOfTailMiss(rest: seq<nat>, t: seq<nat>, cap: nat, b: nat)
    requires Distinct(rest + t) && b !in t && 0 < cap && |t| <= cap && (rest != [] ==> |t| == cap)
    ensures Access(t, cap, b) == TakeLast(Without(rest + t, b) + [b], cap)
  {
    WithoutSplit(rest, t, b);
    WithoutAbsent(t, b);
    var w := Without(rest, b);
    if rest == [] {
      assert w + t == t;
      assert |t| == cap ==> (t + [b])[1..] == t[1..] + [b];
    } else {
      assert |w + t + [b]| == |w| + cap + 1;
      assert (w + t + [b])[|w| + 1..] == t[1..] + [b];
    }
  }

  /** An access moves a tail of the duplicate-free use order as it moves the whole. */
  lemma AccessOfTail(l: seq<nat>, cap: nat, b: nat)
    requires Distinct(l) && cap > 0
    ensures Access(TakeLast(l, cap), cap, b) == TakeLast(Without(l, b) + [b], cap)
  {
    var t := TakeLast(l, cap);
    var rest := l[..|l| - |t|];
    assert l == rest + t;
    if b in t { AccessOfTailHit(rest, t, cap, b); } else { AccessOfTailMiss(rest, t, cap, b); }
  }

  /** After any trace the recency list is the last `cap` distinct blocks, oldest access first. */
  lemma {:induction false} RunKeepsLastUses(cap: nat, trace: seq<nat>)
    requires cap > 0
    ensures Run(cap, trace) == TakeLast(LastUses(trace), cap)
  {
    if trace != [] {
      var n := |trace| - 1;
      RunKeepsLastUses(cap, trace[..n]);
      assert trace == trace[..n] + [trace[n]];
      LastUsesSnoc(trace[..n], trace[n]);
      AccessOfTail(LastUses(trace[..n]), cap, trace[n]);
    }
  }

  lemma DistinctCount(s: seq<nat>, keys: set<nat>)
    requires Distinct(s) && forall b: nat :: b in s <==> b in keys
    ensures |s| == |keys|
    decreases |s|
  {
    if s == [] {
      assert keys == {};
    } else {
      var n := |s| - 1;
      assert s[n] in keys;
      DistinctCount(s[..n], keys - {s[n]});
    }
  }

  class BlockCache {
    var entries: map<nat, Entry>
    var lru: seq<nat>
    const capacity: nat

    /** `entries` and `lru` hold the same blocks, each once, and no more than fit. */
    ghost predicate Valid() reads this {
      && capacity >= 16
      && Distinct(lru)
      && (forall b: nat :: b in lru <==> b in entries)
      && |lru| <= capacity
    }

    constructor (cap: nat)
      ensures Valid() && entries == map[] && lru == []
      ensures capacity == if cap < 16 then 16 else cap
    {
      entries, lru := map[], [];
      capacity := if cap < 16 then 16 else cap;
    }

    method Touch(block: nat)
      requires Distinct(lru)
      modifies this`lru
      ensures lru == Without(old(lru), block) + [block]
    {
      var pos := 0;
      while pos < |lru| && lru[pos] != block
        invariant 0 <= pos <= |lru|
        invariant block !in lru[..pos]
        invariant lru == old(lru)
      {
        pos := pos + 1;
      }
      if pos < |lru| {
        WithoutOne(lru, pos);
        lru := lru[..pos] + lru[pos + 1..];
      } else {
        assert lru[..pos] == lru;
        WithoutAbsent(lru, block);
      }
      lru := lru + [block];
    }

    /** Drop the least recently used block, writing it back first if it is dirty. */
    method EvictOne(image: Image)
      requires Distinct(lru) && (forall b: nat :: b in entries ==> b in lru)
      requires Disk(entries, image.data).Coherent()
      modifies this, image
      ensures Disk(entries, image.data).Coherent()
      ensures var live := SkipStale(old(lru), old(entries).Keys);
              && lru == (if live == [] then [] else live[1..])
              && entries == if live == [] then old(entries) else old(entries) - {live[0]}
      ensures |image.data| >= |old(image.data)|
      ensures forall b: nat :: Disk(entries, image.data).At(b) == old(Disk(entries, image.data)).At(b)
    {
      while |lru| > 0
        invariant SkipStale(lru, entries.Keys) == SkipStale(old(lru), old(entries).Keys)
        invariant entries == old(entries) && image.data == old(image.data)
        decreases |lru|
      {
        var oldest := lru[0];
        lru := lru[1..];
        if oldest in entries {
          var ent := entries[oldest];
          entries := entries - {oldest};
          if ent.dirty { image.WriteBlock(oldest, ent.data); }
          return;
        }
      }
    }

    /** Make room for `block`, which is not cached. */
    method MakeRoom(image: Image, block: nat)
      requires Valid() && Disk(entries, image.data).Coherent() && block !in entries
      modifies this, image
      ensures Valid() && Disk(entries, image.data).Coherent()
      ensures block !in entries && |lru| < capacity
      ensures lru + [block] == Access(old(lru), capacity, block)
      ensures |image.data| >= |old(image.data)|
      ensures forall b: nat :: Disk(entries, image.data).At(b) == old(Disk(entries, image.data)).At(b)
    {
      WithoutAbsent(lru, block);
      DistinctCount(lru, entries.Keys);
      if |entries| >= capacity {
        assert SkipStale(lru, entries.Keys) == lru;
        EvictOne(image);
      }
    }

    /** Read a block through the cache. */
    method Get(image: Image, block: nat) returns (data: Block)
      requires Valid() && Disk(entries, image.data).Coherent()
      modifies this, image
      ensures Valid() && Disk(entries, image.data).Coherent()
      ensures data == old(Disk(entries, image.data)).At(block)
      ensures forall b: nat :: Disk(entries, image.data).At(b) == old(Disk(entries, image.data)).At(b)
      ensures lru == Access(old(lru), capacity, block)
      ensures block in entries && entries[block].data == data
      ensures |image.data| >= |old(image.data)|
    {
      if block !in entries {
        MakeRoom(image, block);
        WithoutAbsent(lru, block);
        var block0 := Zeros(BLOCK_SIZE);
        var offset := block * 4096;
        if offset + 4096 <= |image.data| {
          var r := image.ReadBlock(block);
          block0 := r.value;
        } else {
          image.GrowTo(offset + 4096);
        }
        entries := entries[block := Entry(block0, false)];
      }
      Touch(block);
      data := entries[block].data;
    }

    /** Read a block the caller is about to change: it is marked dirty. */
    method GetMut(image: Image, block: nat) returns (data: Block)
      requires Valid() && Disk(entries, image.data).Coherent()
      modifies this, image
      ensures Valid() && Disk(entries, image.data).Coherent()
      ensures data == old(Disk(entries, image.data)).At(block)
      ensures forall b: nat :: Disk(entries, image.data).At(b) == old(Disk(entries, image.data)).At(b)
      ensures lru == Access(old(lru), capacity, block)
      ensures block in entries && entries[block] == Entry(data, true)
      ensures |image.data| >= |old(image.data)|
    {
      data := Get(image, block);
      entries := entries[block := entries[block].(dirty := true)];
    }

    /** The caller's write through the reference that `GetMut` handed out. */
    method Poke(image: Image, block: nat, data: Block)
      requires Valid() && Disk(entries, image.data).Coherent()
      requires block in entries && entries[block].dirty
      modifies this`entries
      ensures Valid() && Disk(entries, image.data).Coherent()
      ensures forall b: nat :: Disk(entries, image.data).At(b) == if b == block then data else old(Disk(entries, image.data)).At(b)
    {
      entries := entries[block := entries[block].(data := data)];
    }

    method InsertDirty(image: Image, block: nat, data: Block)
      requires Valid() && Disk(entries, image.data).Coherent()
      modifies this, image
      ensures Valid() && Disk(entries, image.data).Coherent()
      ensures forall b: nat :: Disk(entries, image.data).At(b) == if b == block then data else old(Disk(entries, image.data)).At(b)
      ensures lru == Access(old(lru), capacity, block)
      ensures block in entries && entries[block] == Entry(data, true)
      ensures |image.data| >= |old(image.data)|
    {
      if block !in entries {
        MakeRoom(image, block);
        WithoutAbsent(lru, block);
      }
      entries := entries[block := Entry(data, true)];
      Touch(block);
    }

    /** Write every dirty block back, in whatever order the table yields them. */
    method Flush(image: Image)
      requires Valid() && Disk(entries, image.data).Coherent()
      modifies this`entries, image
      ensures Valid() && Disk(entries, image.data).Coherent()
      ensures entries.Keys == old(entries).Keys
      ensures forall b: nat :: b in entries ==> entries[b] == Entry(old(entries)[b].data, false)
      ensures forall b: nat :: BlockOf(image.data, b) == old(Disk(entries, image.data)).At(b)
      ensures |image.data| >= |old(image.data)|
    {
      var rest := entries.Keys;
      while rest != {}
        invariant rest <= entries.Keys == old(entries).Keys
        invariant Disk(entries, image.data).Coherent()
        invariant forall b: nat :: b in entries ==> entries[b].data == old(entries)[b].data
        invariant forall b: nat :: b in entries && b !in rest ==> !entries[b].dirty
        invariant forall b: nat :: b !in entries ==> BlockOf(image.data, b) == BlockOf(old(image.data), b)
        invariant |image.data| >= |old(image.data)|
        decreases rest
      {
        var block :| block in rest;
        var ent := entries[block];
        if ent.dirty {
          image.WriteBlock(block, ent.data);
          entries := entries[block := ent.(dirty := false)];
        }
        rest := rest - {block};
      }
    }

    /** Forget the blocks at and past `minBlock`, dirty or not. */
    method DropFrom(minBlock: nat)
      requires Valid()
      modifies this
      ensures Valid()
      ensures entries == map b | b in old(entries) && b < minBlock :: old(entries)[b]
      ensures lru == Below(old(lru), minBlock)
    {
      entries := map b | b in entries && b < minBlock :: entries[b];
      lru := Below(lru, minBlock);
    }
  }

  /** `lru.retain(|b| b < min)`. */
  function Below(s: seq<nat>, min: nat): (r: seq<nat>)
    ensures forall x :: x in r <==> x in s && x < min
    ensures |r| <= |s| && (Distinct(s) ==> Distinct(r))
  {
    if s == [] then []
    else
      var t := Below(s[1..], min);
      assert Distinct(s) ==> Distinct(s[1..]) && s[0] !in s[1..];
      if s[0] < min then [s[0]] + t else t
  }
}
