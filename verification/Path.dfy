/** Unix paths as byte strings (src/path.rs): components, push, parent, and the path rebuilt at a symlink. */
module Path {
  import opened Wrappers
  import opened Format

  type Bytes = seq<byte>

  const SLASH: byte := 47

  datatype Component = RootDir | CurDir | ParentDir | Normal(name: Bytes)

  predicate IsAbsolute(path: Bytes) { path != [] && path[0] == SLASH }

  function TrimLeading(b: Bytes): (r: Bytes)
    ensures |r| <= |b| && (r != [] ==> r[0] != SLASH)
  {
    if b != [] && b[0] == SLASH then TrimLeading(b[1..]) else b
  }

  function TrimTrailing(b: Bytes): (r: Bytes)
    ensures |r| <= |b| && r == b[..|r|] && (r != [] ==> r[|r| - 1] != SLASH)
    ensures forall i :: |r| <= i < |b| ==> b[i] == SLASH
  {
    if b != [] && b[|b| - 1] == SLASH then TrimTrailing(b[..|b| - 1]) else b
  }

  /** The length of the part before the first slash. */
  function PartLen(b: Bytes): (n: nat)
    ensures n <= |b| && (n < |b| ==> b[n] == SLASH) && forall i :: 0 <= i < n ==> b[i] != SLASH
  {
    if b == [] || b[0] == SLASH then 0 else 1 + PartLen(b[1..])
  }

  function Comp(part: Bytes): Component {
    if part == [46] then CurDir else if part == [46, 46] then ParentDir else Normal(part)
  }

  /** The components after a leading slash: the nonempty parts between slashes. */
  function Split(b: Bytes): seq<Component>
    decreases |b|
  {
    var t := TrimLeading(b);
    if t == [] then []
    else
      var n := PartLen(t);
      [Comp(t[..n])] + Split(t[n..])
  }

  function ComponentsOf(path: Bytes): seq<Component> {
    (if IsAbsolute(path) then [RootDir] else []) + Split(path)
  }

  /** The iterator over a path's components. */
  class Components {
    var bytes: Bytes
    var abs: bool
    var started: bool

    /** What it will still yield. */
    ghost function Rest(): seq<Component> reads this {
      (if !started && abs then [RootDir] else []) + Split(bytes)
    }

    constructor (path: Bytes)
      ensures Rest() == ComponentsOf(path)
    {
      bytes, abs, started := path, IsAbsolute(path), false;
    }

    method Next() returns (c: Option<Component>)
      modifies this
      ensures old(Rest()) == [] ==> c == None && Rest() == []
      ensures old(Rest()) != [] ==> c == Some(old(Rest()[0])) && Rest() == old(Rest()[1..])
    {
      if !started {
        started := true;
        if abs {
          TrimTwice(bytes);
          bytes := TrimLeading(bytes);
          return Some(RootDir);
        }
      }
      if bytes == [] { return None; }
      bytes := TrimLeading(bytes);
      if bytes == [] { return None; }
      var end := PartLen(bytes);
      var part := bytes[..end];
      bytes := bytes[end..];
      return Some(Comp(part));
    }
  }

  lemma TrimTwice(b: Bytes)
    ensures Split(TrimLeading(b)) == Split(b)
  {
    var t := TrimLeading(b);
    assert TrimLeading(t) == t;
  }

  /** A component taken from the iterator, and what comes behind it. */
  function Ahead(c: Option<Component>, rest: seq<Component>): seq<Component> {
    if c.Some? then [c.value] + rest else []
  }

  lemma TakeOne(comps: seq<Component>, x: Component, rest: seq<Component>, all: seq<Component>)
    requires comps + Ahead(Some(x), rest) == all
    ensures rest == [] ==> comps + [x] == all
    ensures rest != [] ==> (comps + [x]) + Ahead(Some(rest[0]), rest[1..]) == all
  {
    if rest == [] {
      assert comps + ([x] + rest) == comps + [x];
    } else {
      var more := [rest[0]] + rest[1..];
      assert more == rest;
      assert comps + ([x] + more) == (comps + [x]) + more;
    }
  }

  /** `path.components().collect()`. */
  method Collect(path: Bytes) returns (comps: seq<Component>)
    ensures comps == ComponentsOf(path)
  {
    hide Split, ComponentsOf, Ahead, Components.Rest;
    var it := new Components(path);
    comps := [];
    var c := it.Next();
    ghost var rest := it.Rest();
    AheadAll(c, rest, ComponentsOf(path));
    while c.Some?
      invariant it.Rest() == rest && comps + Ahead(c, rest) == ComponentsOf(path)
      decreases if c.Some? then 1 + |rest| else 0
    {
      TakeOne(comps, c.value, rest, ComponentsOf(path));
      comps := comps + [c.value];
      c := it.Next();
      rest := it.Rest();
      if c.None? { NothingAhead(comps, rest); }
    }
    NothingAhead(comps, rest);
  }

  lemma AheadAll(c: Option<Component>, rest: seq<Component>, all: seq<Component>)
    requires if all == [] then c.None? else c == Some(all[0]) && rest == all[1..]
    ensures [] + Ahead(c, rest) == all
  {
  }

  lemma NothingAhead(comps: seq<Component>, rest: seq<Component>)
    ensures comps + Ahead(None, rest) == comps
  {
  }

  // --- splitting at a slash ----------------------------------------------------------------

  lemma {:induction false} TrimConcat(a: Bytes, b: Bytes)
    ensures TrimLeading(a + b) == if TrimLeading(a) == [] then TrimLeading(b) else TrimLeading(a) + b
  {
    if a == [] {
      assert a + b == b;
    } else if a[0] == SLASH {
      assert (a + b)[1..] == a[1..] + b;
      TrimConcat(a[1..], b);
    }
  }

  lemma {:induction false} PartConcat(t: Bytes, b: Bytes)
    requires b != [] && b[0] == SLASH
    ensures PartLen(t + b) == PartLen(t)
  {
    if t == [] {
      assert t + b == b;
    } else if t[0] != SLASH {
      assert (t + b)[1..] == t[1..] + b;
      PartConcat(t[1..], b);
    }
  }

  lemma SplitStep(b: Bytes)
    ensures TrimLeading(b) == [] ==> Split(b) == []
    ensures var t := TrimLeading(b);
      t != [] ==> PartLen(t) > 0 && |t[PartLen(t)..]| < |b| && Split(b) == [Comp(t[..PartLen(t)])] + Split(t[PartLen(t)..])
  {
  }

  lemma SplitTrimmed(a: Bytes, b: Bytes)
    requires TrimLeading(a) == TrimLeading(b)
    ensures Split(a) == Split(b)
  {
  }

  lemma TrimSlash(b: Bytes)
    ensures TrimLeading([SLASH] + b) == TrimLeading(b)
  {
    assert ([SLASH] + b)[1..] == b;
  }

  /** A slash separates components. */
  lemma {:induction false} SplitSlash(a: Bytes, b: Bytes)
    ensures Split(a + [SLASH] + b) == Split(a) + Split(b)
    decreases |a|
  {
    hide Split, PartLen, TrimLeading, Comp;
    var sb := [SLASH] + b;
    assert a + [SLASH] + b == a + sb;
    TrimConcat(a, sb);
    var t := TrimLeading(a);
    SplitStep(a);
    if t == [] {
      TrimSlash(b);
      SplitTrimmed(a + sb, b);
    } else {
      var n := PartLen(t);
      PartConcat(t, sb);
      SplitStep(a + sb);
      assert (t + sb)[..n] == t[..n];
      assert (t + sb)[n..] == t[n..] + [SLASH] + b;
      SplitSlash(t[n..], b);
      assert [Comp(t[..n])] + (Split(t[n..]) + Split(b)) == [Comp(t[..n])] + Split(t[n..]) + Split(b);
    }
  }

  /** A single part. */
  predicate IsPart(part: Bytes) { part != [] && SLASH !in part }

  lemma SplitPart(part: Bytes)
    requires IsPart(part)
    ensures Split(part) == [Comp(part)]
  {
    assert PartLen(part) == |part|;
    assert part[..|part|] == part;
    assert Split(part[|part|..]) == [];
  }

  /** What the iterator yields: no root after the start, and parts that came between slashes. */
  predicate Plain(c: Component) {
    match c
    case RootDir => false
    case Normal(name) => IsPart(name) && name != [46] && name != [46, 46]
    case _ => true
  }

  lemma {:induction false} SplitPlain(b: Bytes)
    ensures forall c :: c in Split(b) ==> Plain(c)
    decreases |b|
  {
    var t := TrimLeading(b);
    if t != [] {
      SplitPlain(t[PartLen(t)..]);
      assert IsPart(t[..PartLen(t)]);
    }
  }

  /** A nonempty path has a component. */
  lemma {:induction false} SomeComponent(path: Bytes)
    requires path != []
    ensures ComponentsOf(path) != []
  {
    if !IsAbsolute(path) { assert TrimLeading(path) == path; }
  }

  // --- push ------------------------------------------------------------------------------

  function Push(buf: Bytes, path: Bytes): Bytes {
    if IsAbsolute(path) then path
    else if buf != [] && buf[|buf| - 1] != SLASH then buf + [SLASH] + path
    else buf + path
  }

  /** Pushing a relative path appends its components. */
  lemma PushComponents(buf: Bytes, path: Bytes)
    requires !IsAbsolute(path)
    ensures ComponentsOf(Push(buf, path)) == ComponentsOf(buf) + ComponentsOf(path)
  {
    hide Split;
    NoParts();
    if buf == [] {
      assert buf + path == path;
    } else if buf[|buf| - 1] != SLASH {
      SplitSlash(buf, path);
      assert IsAbsolute(buf + [SLASH] + path) == IsAbsolute(buf);
    } else {
      var a := buf[..|buf| - 1];
      assert buf == a + [SLASH] && a + [SLASH] + [] == buf;
      SplitSlash(a, path);
      SplitSlash(a, []);
      assert IsAbsolute(buf + path) == IsAbsolute(buf);
    }
  }

  lemma NoParts()
    ensures Split([]) == []
  {
  }

  // --- parent and file name -------------------------------------------------------------------

  /** `rposition(== b'/')`. */
  function LastSlash(b: Bytes): (r: Option<nat>)
    ensures r.Some? ==> r.value < |b| && b[r.value] == SLASH && forall i :: r.value < i < |b| ==> b[i] != SLASH
    ensures r.None? ==> SLASH !in b
  {
    if b == [] then None
    else if b[|b| - 1] == SLASH then Some(|b| - 1)
    else LastSlash(b[..|b| - 1])
  }

  function ParentOf(path: Bytes): Option<Bytes> {
    if path == [SLASH] || path == [] then None
    else
      var t := TrimTrailing(path);
      if t == [] then None
      else
        var slash := LastSlash(t);
        if slash.None? then None else if slash.value == 0 then Some([SLASH]) else Some(path[..slash.value])
  }

  function FileName(path: Bytes): Option<Bytes> {
    if path == [SLASH] then None
    else
      var t := TrimTrailing(path);
      if t == [] then None
      else
        var slash := LastSlash(t);
        if slash.None? then Some(t) else Some(t[slash.value + 1..])
  }

  lemma {:induction false} SplitSlashes(b: Bytes)
    requires forall i :: 0 <= i < |b| ==> b[i] == SLASH
    ensures TrimLeading(b) == [] && Split(b) == []
  {
    if b != [] { SplitSlashes(b[1..]); }
  }

  /** Trailing slashes do not count. */
  lemma TrimmedComponents(path: Bytes)
    ensures Split(TrimTrailing(path)) == Split(path)
  {
    var t := TrimTrailing(path);
    var rest := path[|t|..];
    assert path == t + rest;
    if rest != [] {
      assert rest == [SLASH] + rest[1..];
      assert path == t + [SLASH] + rest[1..];
      SplitSlash(t, rest[1..]);
      SplitSlashes(rest[1..]);
    } else {
      assert path == t;
    }
  }

  /** A path is its parent followed by its file name. */
  lemma ParentAndName(path: Bytes)
    requires ParentOf(path).Some?
    ensures FileName(path).Some? && IsPart(FileName(path).value)
    ensures ComponentsOf(path) == ComponentsOf(ParentOf(path).value) + [Comp(FileName(path).value)]
  {
    hide Split, TrimTrailing, LastSlash;
    var t := TrimTrailing(path);
    var slash := LastSlash(t).value;
    var name := t[slash + 1..];
    TrimmedComponents(path);
    assert t == t[..slash] + [SLASH] + name;
    assert IsPart(name);
    SplitSlash(t[..slash], name);
    SplitPart(name);
    assert t[..slash] == path[..slash];
    if slash == 0 {
      SplitSlashes([SLASH]);
      SplitSlashes([]);
      assert t[..0] == [];
    } else {
      assert IsAbsolute(path) == IsAbsolute(path[..slash]);
    }
  }

  /** A path has a file name unless it is all slashes, and a parent exactly when a slash stands before that name. */
  lemma ParentIff(path: Bytes)
    ensures FileName(path).Some? <==> exists i :: 0 <= i < |path| && path[i] != SLASH
    ensures ParentOf(path).Some? <==> exists i, j :: 0 <= i < j < |path| && path[i] == SLASH && path[j] != SLASH
    ensures FileName(path).Some? && ParentOf(path).None? ==>
      IsPart(FileName(path).value) && ComponentsOf(path) == [Comp(FileName(path).value)]
  {
    hide Split, TrimTrailing, LastSlash;
    var t := TrimTrailing(path);
    if t == [] {
      forall i | 0 <= i < |path| ensures path[i] == SLASH { }
    } else {
      var last := |t| - 1;
      assert path[last] == t[last] != SLASH;
      if LastSlash(t).Some? {
        var slash := LastSlash(t).value;
        assert path[slash] == t[slash] == SLASH && slash < last;
      } else {
        forall i | 0 <= i < |t| ensures path[i] != SLASH { assert path[i] == t[i] && t[i] in t; }
        assert IsPart(t) && path[0] == t[0];
        TrimmedComponents(path);
        SplitPart(t);
      }
    }
  }

  // --- the path rebuilt at a symlink -------------------------------------------------------------

  function PushComponent(buf: Bytes, c: Component): Bytes {
    match c
    case Normal(n) => Push(buf, n)
    case ParentDir => Push(buf, [46, 46])
    case CurDir => buf
    case RootDir => [SLASH]
  }

  /** The target, with the components still to walk pushed on. */
  method Rebuild(target: Bytes, rest: seq<Component>) returns (buf: Bytes)
    requires forall c :: c in rest ==> Plain(c)
    ensures ComponentsOf(buf) == ComponentsOf(target) + WithoutDots(rest)
    ensures buf == [] <==> target == [] && WithoutDots(rest) == []
  {
    hide ComponentsOf, WithoutDots, PushComponent, Plain;
    NoDots();
    buf := target;
    for i := 0 to |rest|
      invariant ComponentsOf(buf) == ComponentsOf(target) + WithoutDots(rest[..i])
      invariant buf == [] <==> target == [] && WithoutDots(rest[..i]) == []
    {
      assert rest[..i + 1] == rest[..i] + [rest[i]];
      WithoutDotsSnoc(rest[..i], rest[i]);
      PushedOne(buf, rest[i]);
      buf := PushComponent(buf, rest[i]);
    }
    assert rest[..|rest|] == rest;
  }

  function WithoutDots(cs: seq<Component>): (r: seq<Component>)
    ensures |r| <= |cs|
  {
    if cs == [] then [] else (if cs[0] == CurDir then [] else [cs[0]]) + WithoutDots(cs[1..])
  }

  lemma NoDots()
    ensures WithoutDots([]) == []
  {
  }

  lemma {:induction false} WithoutDotsSnoc(cs: seq<Component>, c: Component)
    ensures WithoutDots(cs + [c]) == WithoutDots(cs) + if c == CurDir then [] else [c]
  {
    if cs == [] {
      assert [c][1..] == [];
    } else {
      assert (cs + [c])[1..] == cs[1..] + [c];
      WithoutDotsSnoc(cs[1..], c);
    }
  }

  lemma PushedOne(buf: Bytes, c: Component)
    requires Plain(c)
    ensures ComponentsOf(PushComponent(buf, c)) == ComponentsOf(buf) + if c == CurDir then [] else [c]
    ensures if c == CurDir then PushComponent(buf, c) == buf else PushComponent(buf, c) != []
  {
    if c.Normal? {
      PushComponents(buf, c.name);
      SplitPart(c.name);
    } else if c.ParentDir? {
      PushComponents(buf, [46, 46]);
      SplitPart([46, 46]);
    }
  }
}
