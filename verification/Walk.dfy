/**
  Path walk (src/inner.rs): `..`, absolute and relative symlinks, and what a walk can reach.
  The recursion at a symlink is bounded by `fuel`; running out of it is an answer of its own.
*/
module Walk {
  import opened Wrappers
  import opened Format
  import opened Path
  import opened Tree
  import opened TreeInvariant
  import opened TreeSteps
  import opened Namespace

  const SYMLOOP_MAX: nat := 40

  datatype Resolved = Resolved(parent: nat, name: Name, ino: Option<nat>)

  /** What a walk reads: the namespace, and the targets of symlinks. */
  datatype Env = Env(items: Items, links: map<nat, Bytes>)

  /** The inodes a walk stood on, and its answer; none if the fuel ran out. */
  datatype Walked = Walked(stood: set<nat>, answer: Option<Result<Resolved>>)

  function TargetOf(env: Env, ino: nat): Bytes { if ino in env.links then env.links[ino] else [] }

  /** The walk on from directory `dir` along `cs`, with `hops` symlinks followed in this call. */
  function Resolve(env: Env, root: nat, dir: nat, cs: seq<Component>, hops: nat, follow: bool, fuel: nat): Walked
    decreases fuel, |cs|
  {
    if cs == [] then Walked({dir}, Some(Ok(Resolved(dir, [], Some(dir)))))
    else
      var rest := match cs[0]
        case RootDir => Resolve(env, root, root, cs[1..], hops, follow, fuel)
        case CurDir => Resolve(env, root, dir, cs[1..], hops, follow, fuel)
        case ParentDir => ResolveUp(env, root, dir, cs, hops, follow, fuel)
        case Normal(name) => ResolveName(env, root, dir, cs, hops, follow, fuel);
      rest.(stood := {dir} + rest.stood)
  }

  /** Where `..` leads: the walk's own root is its own parent. */
  function UpFrom(items: Items, root: nat, dir: nat): Result<nat> {
    if dir !in items then Err(EIO)
    else if dir == root then Ok(dir)
    else if AdmitDir(items, dir).Err? then Err(AdmitDir(items, dir).error)
    else Ok(Parent(items, dir))
  }

  /** The inode a name leads to, if it is there. */
  function ChildOf(items: Items, dir: nat, name: Name): Result<Option<nat>> {
    if AdmitDir(items, dir).Err? then Err(AdmitDir(items, dir).error)
    else if Kid(items, dir, name).None? then Ok(None)
    else if Kid(items, dir, name).value.ino !in items then Err(EIO)
    else Ok(Some(Kid(items, dir, name).value.ino))
  }

  function ResolveUp(env: Env, root: nat, dir: nat, cs: seq<Component>, hops: nat, follow: bool, fuel: nat): Walked
    requires cs != []
    decreases fuel, |cs|, 0
  {
    match UpFrom(env.items, root, dir)
    case Err(e) => Walked({}, Some(Err(e)))
    case Ok(up) =>
      if |cs| == 1 then Walked({up}, Some(Ok(Resolved(up, DOTDOT, Some(up)))))
      else Resolve(env, root, up, cs[1..], hops, follow, fuel)
  }

  function ResolveName(env: Env, root: nat, dir: nat, cs: seq<Component>, hops: nat, follow: bool, fuel: nat): Walked
    requires cs != [] && cs[0].Normal?
    decreases fuel, |cs|, 0
  {
    match ChildOf(env.items, dir, cs[0].name)
    case Err(e) => Walked({}, Some(Err(e)))
    case Ok(None) => Walked({}, Some(if |cs| == 1 then Ok(Resolved(dir, cs[0].name, None)) else Err(ENOENT)))
    case Ok(Some(ino)) =>
      if IsLink(env.items, ino) && (|cs| > 1 || follow) then ResolveLink(env, root, dir, ino, cs[1..], hops, follow, fuel)
      else if |cs| == 1 then Walked({ino}, Some(Ok(Resolved(dir, cs[0].name, Some(ino)))))
      else Resolve(env, root, ino, cs[1..], hops, follow, fuel)
  }

  predicate IsLink(items: Items, i: nat) { TypeAt(items, i) == Some(Symlink) }

  /** A symlink's target, then what was left, walked by a new call that counts its own hops. */
  function ResolveLink(env: Env, root: nat, dir: nat, ino: nat, rest: seq<Component>, hops: nat, follow: bool,
          fuel: nat): Walked
    decreases fuel, |rest|, 1
  {
    var cs := ComponentsOf(TargetOf(env, ino)) + WithoutDots(rest);
    if hops + 1 > SYMLOOP_MAX then Walked({}, Some(Err(ELOOP)))
    else if fuel == 0 then Walked({}, None)
    else if cs == [] then Walked({}, Some(Err(EINVAL)))
    else Resolve(env, root, if cs[0].RootDir? then root else dir, cs, 0, follow, fuel - 1)
  }

  /** A whole walk of `path`. */
  function WalkPath(env: Env, root: nat, cwd: nat, path: Bytes, follow: bool, fuel: nat): Walked {
    if path == [] then Walked({}, Some(Err(EINVAL)))
    else Resolve(env, root, if IsAbsolute(path) then root else cwd, ComponentsOf(path), 0, follow, fuel)
  }

  // --- the loop of the source -----------------------------------------------------------------------

  method StepUp(fs: Inner, root: nat, dir: nat) returns (r: Result<nat>)
    ensures r == UpFrom(fs.Items(), root, dir)
  {
    hide KidsOf;
    var inode := fs.GetInode(dir);
    if inode.Err? { return Err(inode.error); }
    if dir == root { return Ok(dir); }
    var up := fs.DirLookup(dir, DOTDOT);
    if up.Err? { return Err(up.error); }
    return Ok(if up.value.Some? then up.value.value.ino else dir);
  }

  method StepDown(fs: Inner, dir: nat, name: Name) returns (r: Result<Option<nat>>)
    ensures r == ChildOf(fs.Items(), dir, name)
    ensures r.Ok? && r.value.Some? ==> r.value.value in fs.nodes && (fs.nodes[r.value.value].ft.Symlink? <==> IsLink(fs.Items(), r.value.value))
  {
    hide KidsOf;
    var inode := fs.GetInode(dir);
    if inode.Err? { return Err(inode.error); }
    if !inode.value.ft.Directory? { return Err(ENOTDIR); }
    var look := fs.DirLookup(dir, name);
    if look.Ok? && look.value.Some? {
      var child := fs.GetInode(look.value.value.ino);
      if child.Err? { return Err(child.error); }
      return Ok(Some(look.value.value.ino));
    }
    return Ok(None);
  }

  /** The walk loop, for a walk that ends: `fuel` only says so, and the code does without it. */
  method WalkFrom(fs: Inner, links: map<nat, Bytes>, root: nat, cwd: nat, path: Bytes, follow: bool, ghost fuel: nat)
    returns (r: Result<Resolved>)
    requires fs.Valid() && WalkPath(Env(fs.Items(), links), root, cwd, path, follow, fuel).answer.Some?
    ensures WalkPath(Env(fs.Items(), links), root, cwd, path, follow, fuel).answer == Some(r)
    decreases fuel
  {
    hide Inv, KidsOf, ComponentsOf, Resolve, Kid, UpFrom, ChildOf, Plain, WithoutDots, ResolveLink, AllDistinct, Abs,
      IsLink, WalkPath;
    ghost var env := Env(fs.Items(), links);
    WalkStart(env, root, cwd, path, follow, fuel);
    if path == [] { return Err(EINVAL); }
    var dir: nat := if IsAbsolute(path) then root else cwd;
    var comps := Collect(path);
    SomeComponent(path);
    PathPlain(path);
    var hops := 0;
    var i := 0;
    while i < |comps|
      invariant 0 <= i <= |comps|
      invariant WalkPath(env, root, cwd, path, follow, fuel).answer == Resolve(env, root, dir, comps[i..], hops, follow, fuel).answer
    {
      var last := i + 1 == |comps|;
      ghost var cs := comps[i..];
      assert cs[0] == comps[i] && cs[1..] == comps[i + 1..];
      ResolveStep(env, root, dir, cs, hops, follow, fuel);
      match comps[i]
      case RootDir =>
        dir := root;
        i := i + 1;
      case CurDir =>
        i := i + 1;
      case ParentDir =>
        var up := StepUp(fs, root, dir);
        if up.Err? { return Err(up.error); }
        dir := up.value;
        if last { return Ok(Resolved(dir, DOTDOT, Some(dir))); }
        i := i + 1;
      case Normal(name) =>
        var child := StepDown(fs, dir, name);
        if child.Err? { return Err(child.error); }
        if child.value.None? { return if last then Ok(Resolved(dir, name, None)) else Err(ENOENT); }
        var ino := child.value.value;
        if fs.nodes[ino].ft.Symlink? && (!last || follow) {
          LinkLimits(env, root, dir, ino, comps[i + 1..], hops, follow, fuel);
          hops := hops + 1;
          if hops > SYMLOOP_MAX { return Err(ELOOP); }
          var rest := Rebuild(if ino in links then links[ino] else [], comps[i + 1..]);
          RebuiltWalk(env, root, dir, ino, comps[i + 1..], rest, hops - 1, follow, fuel);
          r := WalkFrom(fs, links, root, dir, rest, follow, fuel - 1);
          return;
        }
        if last { return Ok(Resolved(dir, name, Some(ino))); }
        dir := ino;
        i := i + 1;
    }
    ResolveEnd(env, root, dir, comps[i..], hops, follow, fuel);
    return Ok(Resolved(dir, [], Some(dir)));
  }

  lemma WalkStart(env: Env, root: nat, cwd: nat, path: Bytes, follow: bool, fuel: nat)
    ensures path == [] ==> WalkPath(env, root, cwd, path, follow, fuel).answer == Some(Err(EINVAL))
    ensures path != [] ==> (
      var from := if IsAbsolute(path) then root else cwd;
      WalkPath(env, root, cwd, path, follow, fuel) == Resolve(env, root, from, ComponentsOf(path), 0, follow, fuel))
  {
  }

  lemma ResolveStep(env: Env, root: nat, dir: nat, cs: seq<Component>, hops: nat, follow: bool, fuel: nat)
    requires cs != []
    ensures Resolve(env, root, dir, cs, hops, follow, fuel).answer ==
      match cs[0]
      case RootDir => Resolve(env, root, root, cs[1..], hops, follow, fuel).answer
      case CurDir => Resolve(env, root, dir, cs[1..], hops, follow, fuel).answer
      case ParentDir => ResolveUp(env, root, dir, cs, hops, follow, fuel).answer
      case Normal(_) => ResolveName(env, root, dir, cs, hops, follow, fuel).answer
  {
  }

  lemma LinkLimits(env: Env, root: nat, dir: nat, ino: nat, rest: seq<Component>, hops: nat, follow: bool, fuel: nat)
    ensures hops + 1 > SYMLOOP_MAX ==> ResolveLink(env, root, dir, ino, rest, hops, follow, fuel).answer == Some(Err(ELOOP))
    ensures hops + 1 <= SYMLOOP_MAX && fuel == 0 ==> ResolveLink(env, root, dir, ino, rest, hops, follow, fuel).answer == None
  {
  }

  lemma ResolveEnd(env: Env, root: nat, dir: nat, cs: seq<Component>, hops: nat, follow: bool, fuel: nat)
    requires cs == []
    ensures Resolve(env, root, dir, cs, hops, follow, fuel).answer == Some(Ok(Resolved(dir, [], Some(dir))))
  {
  }

  lemma PathPlain(path: Bytes)
    ensures forall k :: 1 <= k < |ComponentsOf(path)| ==> Plain(ComponentsOf(path)[k])
  {
    SplitPlain(path);
    forall k | 1 <= k < |ComponentsOf(path)| ensures Plain(ComponentsOf(path)[k]) {
      assert ComponentsOf(path)[k] in Split(path);
    }
  }

  /** Walking the rebuilt path is walking the target's components and then the rest. */
  lemma RebuiltWalk(env: Env, root: nat, dir: nat, ino: nat, rest: seq<Component>, path: Bytes, hops: nat,
          follow: bool, fuel: nat)
    requires fuel > 0 && hops + 1 <= SYMLOOP_MAX
    requires ComponentsOf(path) == ComponentsOf(TargetOf(env, ino)) + WithoutDots(rest)
    ensures ResolveLink(env, root, dir, ino, rest, hops, follow, fuel).answer == WalkPath(env, root, dir, path, follow, fuel - 1).answer
  {
    if path == [] {
      NoParts();
      assert ComponentsOf(path) == [];
    } else {
      SomeComponent(path);
      RootFirst(path);
    }
  }

  lemma RootFirst(path: Bytes)
    requires path != []
    ensures ComponentsOf(path) != [] && (ComponentsOf(path)[0].RootDir? <==> IsAbsolute(path))
  {
    SomeComponent(path);
    SplitPlain(path);
    if !IsAbsolute(path) {
      assert ComponentsOf(path) == Split(path);
      assert ComponentsOf(path)[0] in Split(path);
    }
  }

  /** The walk at a name that is a symlink to follow. */
  lemma AtLink(env: Env, root: nat, dir: nat, cs: seq<Component>, hops: nat, follow: bool, fuel: nat, ino: nat)
    requires cs != [] && cs[0].Normal? && ChildOf(env.items, dir, cs[0].name) == Ok(Some(ino))
    requires IsLink(env.items, ino) && (|cs| > 1 || follow)
    ensures Resolve(env, root, dir, cs, hops, follow, fuel).answer == ResolveLink(env, root, dir, ino, cs[1..], hops, follow, fuel).answer
  {
    hide ChildOf, IsLink, ResolveLink;
    ResolveStep(env, root, dir, cs, hops, follow, fuel);
    assert ResolveName(env, root, dir, cs, hops, follow, fuel) == ResolveLink(env, root, dir, ino, cs[1..], hops, follow, fuel);
  }

  // --- confinement --------------------------------------------------------------------------------

  /** A directory at or below `root`, or an inode that one of them names. */
  ghost predicate Inside(items: Items, root: nat, i: nat) {
    || (DirAt(items, i) && Below(items, i, root))
    || exists d: nat, n: Name :: DirAt(items, d) && Below(items, d, root) && Holds(items, d, n, i)
  }

  ghost predicate AllInside(items: Items, root: nat, w: Walked) {
    && (forall i :: i in w.stood ==> Inside(items, root, i))
    && (w.answer.Some? && w.answer.value.Ok? ==> (
      && Inside(items, root, w.answer.value.value.parent)
      && (w.answer.value.value.ino.Some? ==> Inside(items, root, w.answer.value.value.ino.value))))
  }

  lemma BelowUp(items: Items, d: nat, root: nat)
    requires Below(items, d, root) && d != root
    ensures Below(items, Parent(items, d), root)
  {
    var n: nat :| Up(items, d, n) == root;
    assert Up(items, Parent(items, d), n - 1) == root;
  }

  lemma BelowChild(items: Items, c: nat, root: nat)
    requires Below(items, Parent(items, c), root)
    ensures Below(items, c, root)
  {
    var n: nat :| Up(items, Parent(items, c), n) == root;
    assert Up(items, c, n + 1) == root;
  }

  /** A directory inside is itself at or below the root. */
  lemma InsideDir(items: Items, root: nat, i: nat)
    requires Structured(items) && Inside(items, root, i) && DirAt(items, i)
    ensures Below(items, i, root)
  {
    hide Below, Parent, Shaped, NamedOnce, Rooted;
    if !Below(items, i, root) {
      var d: nat, n: Name :| DirAt(items, d) && Below(items, d, root) && Holds(items, d, n, i);
      assert TypeAt(items, i) == Some(Kid(items, d, n).value.ft);
      assert NamesDir(items, d, n) && InoAt(items, d, n) == i;
      BelowChild(items, i, root);
    }
  }

  lemma RootInside(items: Items, root: nat)
    requires DirAt(items, root)
    ensures Inside(items, root, root)
  {
    assert Up(items, root, 0) == root;
    assert Below(items, root, root);
  }

  lemma ChildInside(items: Items, root: nat, d: nat, name: Name, i: nat)
    requires Structured(items) && Inside(items, root, d) && DirAt(items, d) && Real(name) && Kid(items, d, name).Some? && Kid(items, d, name).value.ino == i
    ensures Inside(items, root, i)
  {
    hide Below, Structured;
    InsideDir(items, root, d);
    assert Holds(items, d, name, i);
  }

  lemma ParentInside(items: Items, root: nat, d: nat)
    requires Structured(items) && Inside(items, root, d) && DirAt(items, d) && d != root
    ensures Inside(items, root, Parent(items, d))
  {
    hide Below, Structured;
    InsideDir(items, root, d);
    BelowUp(items, d, root);
    ParentIsDir(items, d);
  }

  predicate AllPlain(cs: seq<Component>) { forall c :: c in cs ==> c.RootDir? || Plain(c) }

  lemma {:induction false} DotsPlain(cs: seq<Component>)
    requires AllPlain(cs)
    ensures AllPlain(WithoutDots(cs))
  {
    if cs != [] { DotsPlain(cs[1..]); }
  }

  lemma TargetPlain(path: Bytes)
    ensures AllPlain(ComponentsOf(path))
  {
    SplitPlain(path);
  }

  /** From a place inside, a walk never leaves: not by `..`, not by a symlink. */
  lemma {:induction false} ResolveInside(env: Env, root: nat, dir: nat, cs: seq<Component>, hops: nat, follow: bool, fuel: nat)
    requires Structured(env.items) && DirAt(env.items, root) && Inside(env.items, root, dir) && AllPlain(cs)
    ensures AllInside(env.items, root, Resolve(env, root, dir, cs, hops, follow, fuel))
    decreases fuel, |cs|, 0
  {
    hide Structured, Inside, Plain, TypeAt, Kid, Parent;
    if cs != [] {
      match cs[0]
      case RootDir =>
        RootInside(env.items, root);
        ResolveInside(env, root, root, cs[1..], hops, follow, fuel);
      case CurDir =>
        ResolveInside(env, root, dir, cs[1..], hops, follow, fuel);
      case ParentDir =>
        UpInside(env.items, root, dir);
        var up := UpFrom(env.items, root, dir);
        if up.Ok? && |cs| > 1 { ResolveInside(env, root, up.value, cs[1..], hops, follow, fuel); }
      case Normal(name) =>
        NameInside(env.items, root, dir, cs[0]);
        var child := ChildOf(env.items, dir, name);
        if child.Ok? && child.value.Some? {
          var ino := child.value.value;
          if IsLink(env.items, ino) && (|cs| > 1 || follow) {
            LinkInside(env, root, dir, ino, cs[1..], hops, follow, fuel);
          } else if |cs| > 1 {
            ResolveInside(env, root, ino, cs[1..], hops, follow, fuel);
          }
        }
    }
  }

  lemma {:induction false} LinkInside(env: Env, root: nat, dir: nat, ino: nat, rest: seq<Component>, hops: nat, follow: bool, fuel: nat)
    requires Structured(env.items) && DirAt(env.items, root) && Inside(env.items, root, dir) && AllPlain(rest)
    ensures AllInside(env.items, root, ResolveLink(env, root, dir, ino, rest, hops, follow, fuel))
    decreases fuel, |rest|, 1
  {
    hide Structured, Inside, Plain, ComponentsOf;
    var cs := ComponentsOf(TargetOf(env, ino)) + WithoutDots(rest);
    if hops + 1 <= SYMLOOP_MAX && fuel > 0 && cs != [] {
      TargetPlain(TargetOf(env, ino));
      DotsPlain(rest);
      RootInside(env.items, root);
      ResolveInside(env, root, if cs[0].RootDir? then root else dir, cs, 0, follow, fuel - 1);
    }
  }

  lemma UpInside(items: Items, root: nat, dir: nat)
    requires Structured(items) && DirAt(items, root) && Inside(items, root, dir)
    ensures UpFrom(items, root, dir).Ok? ==> Inside(items, root, UpFrom(items, root, dir).value)
  {
    hide Structured, Inside, Parent;
    if UpFrom(items, root, dir).Ok? && dir != root { ParentInside(items, root, dir); }
  }

  lemma NameInside(items: Items, root: nat, dir: nat, c: Component)
    requires Structured(items) && Inside(items, root, dir) && c.Normal? && Plain(c)
    ensures ChildOf(items, dir, c.name).Ok? && ChildOf(items, dir, c.name).value.Some? ==> Inside(items, root, ChildOf(items, dir, c.name).value.value)
  {
    hide Structured, Inside;
    var r := ChildOf(items, dir, c.name);
    if r.Ok? && r.value.Some? { ChildInside(items, root, dir, c.name, r.value.value); }
  }

  /** A walk from the root or a directory below it stands only on inodes at or below the root. */
  lemma WalkInside(env: Env, root: nat, cwd: nat, path: Bytes, follow: bool, fuel: nat)
    requires Structured(env.items) && DirAt(env.items, root) && DirAt(env.items, cwd) && Below(env.items, cwd, root)
    ensures AllInside(env.items, root, WalkPath(env, root, cwd, path, follow, fuel))
  {
    hide Structured, Below, Resolve, ComponentsOf;
    TargetPlain(path);
    RootInside(env.items, root);
    if path != [] {
      ResolveInside(env, root, if IsAbsolute(path) then root else cwd, ComponentsOf(path), 0, follow, fuel);
    }
  }

  // --- the hop limit -------------------------------------------------------------------------

  /** Every call counts its hops from zero and makes at most one, so the limit is never reached. */
  lemma {:induction false} NeverTooManyLinks(env: Env, root: nat, dir: nat, cs: seq<Component>, follow: bool, fuel: nat)
    ensures Resolve(env, root, dir, cs, 0, follow, fuel).answer != Some(Err(ELOOP))
    decreases fuel, |cs|
  {
    hide Kid, Parent, TypeAt, ComponentsOf;
    if cs != [] {
      match cs[0]
      case RootDir => NeverTooManyLinks(env, root, root, cs[1..], follow, fuel);
      case CurDir => NeverTooManyLinks(env, root, dir, cs[1..], follow, fuel);
      case ParentDir =>
        var up := UpFrom(env.items, root, dir);
        if up.Ok? { NeverTooManyLinks(env, root, up.value, cs[1..], follow, fuel); }
      case Normal(name) =>
        var child := ChildOf(env.items, dir, name);
        if child.Ok? && child.value.Some? {
          var ino := child.value.value;
          if IsLink(env.items, ino) && (|cs| > 1 || follow) {
            AtLink(env, root, dir, cs, 0, follow, fuel, ino);
            var next := ComponentsOf(TargetOf(env, ino)) + WithoutDots(cs[1..]);
            if fuel > 0 && next != [] {
              NeverTooManyLinks(env, root, if next[0].RootDir? then root else dir, next, follow, fuel - 1);
            }
          } else {
            NeverTooManyLinks(env, root, ino, cs[1..], follow, fuel);
          }
        }
    }
  }

  /** No walk is refused for following too many symlinks. */
  lemma WalkNeverLoops(env: Env, root: nat, cwd: nat, path: Bytes, follow: bool, fuel: nat)
    ensures WalkPath(env, root, cwd, path, follow, fuel).answer != Some(Err(ELOOP))
  {
    hide Resolve, ComponentsOf;
    if path != [] { NeverTooManyLinks(env, root, if IsAbsolute(path) then root else cwd, ComponentsOf(path), follow, fuel); }
  }

  /** A symlink to its own name is followed for ever: no amount of fuel gives an answer. */
  lemma {:induction false} SelfLinkNeverEnds(env: Env, root: nat, dir: nat, name: Name, ino: nat, fuel: nat)
    requires IsPart(name) && name != DOT && name != DOTDOT
    requires DirAt(env.items, dir) && Kid(env.items, dir, name) == Some(Target(ino, Symlink)) && IsLink(env.items, ino)
    requires TargetOf(env, ino) == name
    ensures WalkPath(env, root, dir, name, true, fuel).answer == None
    decreases fuel
  {
    hide Kid;
    NameAlone(name);
    var cs := [Normal(name)];
    assert ChildOf(env.items, dir, name) == Ok(Some(ino));
    assert cs[1..] == [] && WithoutDots(cs[1..]) == [];
    assert ComponentsOf(name) + WithoutDots(cs[1..]) == cs;
    AtLink(env, root, dir, cs, 0, true, fuel, ino);
    if fuel > 0 { SelfLinkNeverEnds(env, root, dir, name, ino, fuel - 1); }
  }

  lemma NameAlone(name: Name)
    requires IsPart(name) && name != DOT && name != DOTDOT
    ensures ComponentsOf(name) == [Normal(name)] && !IsAbsolute(name)
  {
    SplitPart(name);
  }

  /** An answer does not depend on how much fuel was left. */
  lemma {:induction false} MoreFuel(env: Env, root: nat, dir: nat, cs: seq<Component>, hops: nat, follow: bool, fuel: nat, more: nat)
    requires fuel <= more && Resolve(env, root, dir, cs, hops, follow, fuel).answer.Some?
    ensures Resolve(env, root, dir, cs, hops, follow, more).answer == Resolve(env, root, dir, cs, hops, follow, fuel).answer
    decreases fuel, |cs|
  {
    hide Kid, Parent, TypeAt, ComponentsOf;
    if cs != [] {
      match cs[0]
      case RootDir => MoreFuel(env, root, root, cs[1..], hops, follow, fuel, more);
      case CurDir => MoreFuel(env, root, dir, cs[1..], hops, follow, fuel, more);
      case ParentDir =>
        var up := UpFrom(env.items, root, dir);
        if up.Ok? && |cs| > 1 { MoreFuel(env, root, up.value, cs[1..], hops, follow, fuel, more); }
      case Normal(name) =>
        var child := ChildOf(env.items, dir, name);
        if child.Ok? && child.value.Some? {
          var ino := child.value.value;
          if IsLink(env.items, ino) && (|cs| > 1 || follow) {
            AtLink(env, root, dir, cs, hops, follow, fuel, ino);
            AtLink(env, root, dir, cs, hops, follow, more, ino);
            var next := ComponentsOf(TargetOf(env, ino)) + WithoutDots(cs[1..]);
            if hops + 1 <= SYMLOOP_MAX && fuel > 0 && next != [] {
              MoreFuel(env, root, if next[0].RootDir? then root else dir, next, 0, follow, fuel - 1, more - 1);
            }
          } else if |cs| > 1 {
            MoreFuel(env, root, ino, cs[1..], hops, follow, fuel, more);
          }
        }
    }
  }
}
