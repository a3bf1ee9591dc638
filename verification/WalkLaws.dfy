/**
  Where a path walk arrives, path by path: what each leading component does to the walk of the rest, and
  what the last one answers, in terms of entries, parents and types alone.
*/
module WalkLaws {
  import opened Wrappers
  import opened Format
  import opened Path
  import opened Tree
  import opened TreeInvariant
  import opened TreeSteps
  import opened Walk

  /** A path that does not begin with a slash. */
  predicate Relative(path: Bytes) { path != [] && !IsAbsolute(path) }

  /** A name as a component: nothing between slashes but `.` and `..`. */
  predicate IsName(name: Name) { IsPart(name) && Real(name) }

  // --- components of a path --------------------------------------------------------------------

  lemma RelativeComponents(path: Bytes)
    requires Relative(path)
    ensures ComponentsOf(path) == Split(path) != []
  {
    SomeComponent(path);
  }

  lemma PartThen(part: Bytes, path: Bytes)
    requires IsPart(part) && Relative(path)
    ensures var whole := part + [SLASH] + path; Relative(whole) && ComponentsOf(whole) == [Comp(part)] + ComponentsOf(path)
  {
    hide Split;
    SplitSlash(part, path);
    SplitPart(part);
  }

  lemma PartAlone(part: Bytes)
    requires IsPart(part)
    ensures Relative(part) && ComponentsOf(part) == [Comp(part)]
  {
    SplitPart(part);
  }

  lemma SlashThen(path: Bytes)
    requires Relative(path)
    ensures ComponentsOf([SLASH] + path) == [RootDir] + ComponentsOf(path) && IsAbsolute([SLASH] + path)
  {
    hide Split;
    SplitSlash([], path);
    NoParts();
    assert [] + [SLASH] + path == [SLASH] + path;
  }

  lemma JustSlash()
    ensures ComponentsOf([SLASH]) == [RootDir]
  {
    assert TrimLeading([SLASH]) == [];
  }

  /** The walk of a relative path is the walk of its components. */
  lemma WalkComponents(env: Env, root: nat, cwd: nat, path: Bytes, follow: bool, fuel: nat)
    requires Relative(path)
    ensures WalkPath(env, root, cwd, path, follow, fuel).answer == Resolve(env, root, cwd, ComponentsOf(path), 0, follow, fuel).answer
  {
    hide Resolve, ComponentsOf;
  }

  // --- the leading component ---------------------------------------------------------------------

  /** A leading slash: from the root, wherever the walk began. */
  lemma FromRoot(env: Env, root: nat, cwd: nat, path: Bytes, follow: bool, fuel: nat)
    requires Relative(path)
    ensures WalkPath(env, root, cwd, [SLASH] + path, follow, fuel).answer == WalkPath(env, root, root, path, follow, fuel).answer
    ensures WalkPath(env, root, cwd, [SLASH], follow, fuel).answer == Some(Ok(Resolved(root, [], Some(root))))
  {
    hide Resolve, ComponentsOf;
    SlashThen(path);
    JustSlash();
    WalkComponents(env, root, root, path, follow, fuel);
    ResolveStep(env, root, root, [RootDir] + ComponentsOf(path), 0, follow, fuel);
    ResolveStep(env, root, root, [RootDir], 0, follow, fuel);
    ResolveEnd(env, root, root, [RootDir][1..], 0, follow, fuel);
  }

  /** A leading `.`: no move. */
  lemma ThroughDot(env: Env, root: nat, cwd: nat, path: Bytes, follow: bool, fuel: nat)
    requires Relative(path)
    ensures WalkPath(env, root, cwd, DOT + [SLASH] + path, follow, fuel).answer == WalkPath(env, root, cwd, path, follow, fuel).answer
  {
    hide Resolve, ComponentsOf;
    PartThen(DOT, path);
    WalkComponents(env, root, cwd, DOT + [SLASH] + path, follow, fuel);
    WalkComponents(env, root, cwd, path, follow, fuel);
    ResolveStep(env, root, cwd, [CurDir] + ComponentsOf(path), 0, follow, fuel);
  }

  /** The directory above, for a walk whose root has none. */
  function Above(items: Items, root: nat, d: nat): nat { if d == root then d else Parent(items, d) }

  /** A leading `..`: on from the parent directory. */
  lemma ThroughUp(env: Env, root: nat, cwd: nat, path: Bytes, follow: bool, fuel: nat)
    requires Relative(path) && DirAt(env.items, cwd)
    ensures WalkPath(env, root, cwd, DOTDOT + [SLASH] + path, follow, fuel).answer
      == WalkPath(env, root, Above(env.items, root, cwd), path, follow, fuel).answer
  {
    hide Resolve, ComponentsOf, Parent;
    PartThen(DOTDOT, path);
    RelativeComponents(path);
    WalkComponents(env, root, cwd, DOTDOT + [SLASH] + path, follow, fuel);
    WalkComponents(env, root, Above(env.items, root, cwd), path, follow, fuel);
    ResolveStep(env, root, cwd, [ParentDir] + ComponentsOf(path), 0, follow, fuel);
  }

  /** A leading name of anything but a symlink: on from the inode it names. */
  lemma ThroughName(env: Env, root: nat, cwd: nat, name: Name, t: Target, path: Bytes, follow: bool, fuel: nat)
    requires Relative(path) && IsName(name) && Closed(env.items) && DirAt(env.items, cwd)
    requires Kid(env.items, cwd, name) == Some(t) && !t.ft.Symlink?
    ensures WalkPath(env, root, cwd, name + [SLASH] + path, follow, fuel).answer == WalkPath(env, root, t.ino, path, follow, fuel).answer
  {
    assert TypeAt(env.items, t.ino) == Some(t.ft);
    hide Resolve, ComponentsOf, Closed, Kid;
    PartThen(name, path);
    RelativeComponents(path);
    WalkComponents(env, root, cwd, name + [SLASH] + path, follow, fuel);
    WalkComponents(env, root, t.ino, path, follow, fuel);
    ResolveStep(env, root, cwd, [Normal(name)] + ComponentsOf(path), 0, follow, fuel);
  }

  /**
    A leading name of a symlink: on from the same directory along the symlink's target and then the rest, one
    expansion deeper.
  */
  lemma ThroughLink(env: Env, root: nat, cwd: nat, name: Name, t: Target, path: Bytes, follow: bool, fuel: nat)
    requires Relative(path) && WithoutDots(ComponentsOf(path)) == ComponentsOf(path) && IsName(name)
    requires Closed(env.items) && DirAt(env.items, cwd) && Kid(env.items, cwd, name) == Some(t) && t.ft.Symlink? && fuel > 0
    ensures WalkPath(env, root, cwd, name + [SLASH] + path, follow, fuel).answer
      == WalkPath(env, root, cwd, Push(TargetOf(env, t.ino), path), follow, fuel - 1).answer
  {
    assert TypeAt(env.items, t.ino) == Some(t.ft);
    hide Resolve, ComponentsOf, Closed, Kid, ResolveLink, WithoutDots;
    PartThen(name, path);
    RelativeComponents(path);
    var cs := [Normal(name)] + ComponentsOf(path);
    WalkComponents(env, root, cwd, name + [SLASH] + path, follow, fuel);
    AtLink(env, root, cwd, cs, 0, follow, fuel, t.ino);
    PushComponents(TargetOf(env, t.ino), path);
    RebuiltWalk(env, root, cwd, t.ino, cs[1..], Push(TargetOf(env, t.ino), path), 0, follow, fuel);
  }

  /** A leading name that is not there. */
  lemma ThroughNothing(env: Env, root: nat, cwd: nat, name: Name, path: Bytes, follow: bool, fuel: nat)
    requires Relative(path) && IsName(name) && DirAt(env.items, cwd) && Kid(env.items, cwd, name) == None
    ensures WalkPath(env, root, cwd, name + [SLASH] + path, follow, fuel).answer == Some(Err(ENOENT))
  {
    hide Resolve, ComponentsOf, Kid;
    PartThen(name, path);
    RelativeComponents(path);
    WalkComponents(env, root, cwd, name + [SLASH] + path, follow, fuel);
    ResolveStep(env, root, cwd, [Normal(name)] + ComponentsOf(path), 0, follow, fuel);
  }

  // --- the last component ------------------------------------------------------------------------

  lemma LastUp(env: Env, root: nat, cwd: nat, follow: bool, fuel: nat)
    requires DirAt(env.items, cwd)
    ensures var up := Above(env.items, root, cwd);
      WalkPath(env, root, cwd, DOTDOT, follow, fuel).answer == Some(Ok(Resolved(up, DOTDOT, Some(up))))
  {
    hide Resolve, ComponentsOf, Parent;
    PartAlone(DOTDOT);
    WalkComponents(env, root, cwd, DOTDOT, follow, fuel);
    ResolveStep(env, root, cwd, [ParentDir], 0, follow, fuel);
  }

  /** No directory to go up from. */
  lemma LastUpNowhere(env: Env, root: nat, cwd: nat, follow: bool, fuel: nat)
    requires !DirAt(env.items, cwd)
    ensures var answer := WalkPath(env, root, cwd, DOTDOT, follow, fuel).answer;
      && (TypeAt(env.items, cwd) == None ==> answer == Some(Err(EIO)))
      && (TypeAt(env.items, cwd).Some? && cwd != root ==> answer == Some(Err(ENOTDIR)))
  {
    hide Resolve, ComponentsOf, Parent;
    PartAlone(DOTDOT);
    WalkComponents(env, root, cwd, DOTDOT, follow, fuel);
    ResolveStep(env, root, cwd, [ParentDir], 0, follow, fuel);
  }

  /** A last name that is there is answered with its inode, and a missing one with none. */
  lemma LastName(env: Env, root: nat, cwd: nat, name: Name, follow: bool, fuel: nat)
    requires IsName(name) && Closed(env.items) && DirAt(env.items, cwd)
    ensures var t := Kid(env.items, cwd, name); var answer := WalkPath(env, root, cwd, name, follow, fuel).answer;
      && (t == None ==> answer == Some(Ok(Resolved(cwd, name, None))))
      && (t.Some? && !(t.value.ft.Symlink? && follow) ==> answer == Some(Ok(Resolved(cwd, name, Some(t.value.ino)))))
  {
    var t := Kid(env.items, cwd, name);
    assert t.Some? ==> TypeAt(env.items, t.value.ino) == Some(t.value.ft);
    hide Resolve, ComponentsOf, Closed, Kid, ResolveLink;
    PartAlone(name);
    WalkComponents(env, root, cwd, name, follow, fuel);
    ResolveStep(env, root, cwd, [Normal(name)], 0, follow, fuel);
  }

  /** A last symlink to follow: its target, from the same directory, one expansion deeper. */
  lemma LastLink(env: Env, root: nat, cwd: nat, name: Name, t: Target, fuel: nat)
    requires IsName(name) && Closed(env.items) && DirAt(env.items, cwd)
    requires Kid(env.items, cwd, name) == Some(t) && t.ft.Symlink? && fuel > 0
    ensures WalkPath(env, root, cwd, name, true, fuel).answer == WalkPath(env, root, cwd, TargetOf(env, t.ino), true, fuel - 1).answer
  {
    assert TypeAt(env.items, t.ino) == Some(t.ft);
    hide Resolve, ComponentsOf, Closed, Kid, ResolveLink;
    PartAlone(name);
    var cs := [Normal(name)];
    assert cs[1..] == [] && WithoutDots(cs[1..]) == [];
    WalkComponents(env, root, cwd, name, true, fuel);
    AtLink(env, root, cwd, cs, 0, true, fuel, t.ino);
    RebuiltWalk(env, root, cwd, t.ino, cs[1..], TargetOf(env, t.ino), 0, true, fuel);
  }

  /** A name looked up in what is no directory. */
  lemma NotThere(env: Env, root: nat, cwd: nat, name: Name, follow: bool, fuel: nat)
    requires IsName(name) && !DirAt(env.items, cwd)
    ensures WalkPath(env, root, cwd, name, follow, fuel).answer == Some(Err(if TypeAt(env.items, cwd) == None then EIO else ENOTDIR))
    ensures forall path: Bytes :: Relative(path) ==>
      WalkPath(env, root, cwd, name + [SLASH] + path, follow, fuel).answer
        == Some(Err(if TypeAt(env.items, cwd) == None then EIO else ENOTDIR))
  {
    hide Resolve, ComponentsOf, Kid;
    PartAlone(name);
    WalkComponents(env, root, cwd, name, follow, fuel);
    ResolveStep(env, root, cwd, [Normal(name)], 0, follow, fuel);
    forall path: Bytes | Relative(path)
      ensures WalkPath(env, root, cwd, name + [SLASH] + path, follow, fuel).answer
        == Some(Err(if TypeAt(env.items, cwd) == None then EIO else ENOTDIR))
    {
      PartThen(name, path);
      WalkComponents(env, root, cwd, name + [SLASH] + path, follow, fuel);
      ResolveStep(env, root, cwd, [Normal(name)] + ComponentsOf(path), 0, follow, fuel);
    }
  }

  // --- whole paths ---------------------------------------------------------------------------------

  lemma SubdirUp(items: Items, d: nat, name: Name, t: Target)
    requires Structured(items) && Real(name) && Kid(items, d, name) == Some(t) && t.ft.Directory?
    ensures DirAt(items, t.ino) && Parent(items, t.ino) == d
  {
    hide Kid, Parent, Shaped, NamedOnce, Rooted;
    assert NamesDir(items, d, name) && InoAt(items, d, name) == t.ino;
    assert TypeAt(items, t.ino) == Some(t.ft);
  }

  /** Into a subdirectory and up again is back where the walk was. */
  lemma DownAndUp(env: Env, root: nat, cwd: nat, name: Name, t: Target, follow: bool, fuel: nat)
    requires Structured(env.items) && IsName(name) && DirAt(env.items, cwd)
    requires Kid(env.items, cwd, name) == Some(t) && t.ft.Directory? && t.ino != root
    ensures WalkPath(env, root, cwd, name + [SLASH] + DOTDOT, follow, fuel).answer == Some(Ok(Resolved(cwd, DOTDOT, Some(cwd))))
  {
    hide Structured, Kid, Parent, WalkPath, IsPart;
    ClosedOf(env.items);
    SubdirUp(env.items, cwd, name, t);
    PartAlone(DOTDOT);
    ThroughName(env, root, cwd, name, t, DOTDOT, follow, fuel);
    LastUp(env, root, t.ino, follow, fuel);
  }

  /** Names with a slash between them. */
  function Joined(names: seq<Name>): Bytes
    requires names != []
    decreases |names|
  {
    if |names| == 1 then names[0] else names[0] + [SLASH] + Joined(names[1..])
  }

  /** Where entry after entry leads, through directories and not symlinks. */
  function Trail(items: Items, d: nat, names: seq<Name>): Option<nat>
    decreases |names|
  {
    if names == [] then Some(d)
    else
      var t := Kid(items, d, names[0]);
      if t.None? || !t.value.ft.Directory? then None else Trail(items, t.value.ino, names[1..])
  }

  lemma JoinedRelative(names: seq<Name>)
    requires names != [] && forall n :: n in names ==> IsName(n)
    ensures Relative(Joined(names))
  {
    assert IsName(names[0]) && names[0][0] in names[0];
  }

  /** A path of names is its last name walked from where the others lead. */
  lemma {:induction false} NamesWalk(env: Env, root: nat, cwd: nat, front: seq<Name>, back: seq<Name>, d: nat, follow: bool, fuel: nat)
    requires back != [] && (forall n :: n in front + back ==> IsName(n)) && Closed(env.items) && DirAt(env.items, cwd)
    requires Trail(env.items, cwd, front) == Some(d)
    ensures DirAt(env.items, d)
    ensures WalkPath(env, root, cwd, Joined(front + back), follow, fuel).answer == WalkPath(env, root, d, Joined(back), follow, fuel).answer
    decreases |front|
  {
    if front == [] {
      assert front + back == back;
    } else {
      var t := Kid(env.items, cwd, front[0]).value;
      assert TypeAt(env.items, t.ino) == Some(t.ft);
      hide WalkPath, Kid, Closed;
      var rest := front[1..] + back;
      assert front + back == [front[0]] + rest && (front + back)[1..] == rest;
      assert forall n :: n in rest ==> n in front + back;
      assert front[0] in front + back;
      JoinedRelative(rest);
      ThroughName(env, root, cwd, front[0], t, Joined(rest), follow, fuel);
      NamesWalk(env, root, t.ino, front[1..], back, d, follow, fuel);
    }
  }

  /**
    A path of plain names answers the inode that its chain of entries leads to, and the directory that has the last
    entry; none if only the last one is missing.
  */
  lemma NamesLead(env: Env, root: nat, cwd: nat, front: seq<Name>, last: Name, d: nat, follow: bool, fuel: nat)
    requires (forall n :: n in front + [last] ==> IsName(n)) && Closed(env.items) && DirAt(env.items, cwd)
    requires Trail(env.items, cwd, front) == Some(d)
    requires !(follow && Kid(env.items, d, last).Some? && Kid(env.items, d, last).value.ft.Symlink?)
    ensures var t := Kid(env.items, d, last);
      WalkPath(env, root, cwd, Joined(front + [last]), follow, fuel).answer
        == Some(Ok(Resolved(d, last, if t.Some? then Some(t.value.ino) else None)))
  {
    hide WalkPath, Kid, Closed, Trail;
    NamesWalk(env, root, cwd, front, [last], d, follow, fuel);
    assert last in front + [last];
    LastName(env, root, d, last, follow, fuel);
  }

  /** A name missing before the last one, or one that is no directory. */
  lemma NamesBreak(env: Env, root: nat, cwd: nat, front: seq<Name>, name: Name, back: seq<Name>, d: nat, follow: bool, fuel: nat)
    requires back != [] && (forall n :: n in front + ([name] + back) ==> IsName(n)) && Closed(env.items) && DirAt(env.items, cwd)
    requires Trail(env.items, cwd, front) == Some(d)
    ensures var t := Kid(env.items, d, name); var answer := WalkPath(env, root, cwd, Joined(front + ([name] + back)), follow, fuel).answer;
      && (t == None ==> answer == Some(Err(ENOENT)))
      && (t.Some? && !t.value.ft.Directory? && !t.value.ft.Symlink? ==> answer == Some(Err(ENOTDIR)))
  {
    var t := Kid(env.items, d, name);
    assert t.Some? ==> TypeAt(env.items, t.value.ino) == Some(t.value.ft);
    hide WalkPath, Kid, Closed, Trail;
    NamesWalk(env, root, cwd, front, [name] + back, d, follow, fuel);
    assert ([name] + back)[1..] == back;
    assert forall n :: n in back ==> n in front + ([name] + back);
    assert name in front + ([name] + back);
    JoinedRelative(back);
    if t == None {
      ThroughNothing(env, root, d, name, Joined(back), follow, fuel);
    } else if !t.value.ft.Directory? && !t.value.ft.Symlink? {
      ThroughName(env, root, d, name, t.value, Joined(back), follow, fuel);
      assert back[0] in back;
      if |back| > 1 {
        assert forall n :: n in back[1..] ==> n in back;
        JoinedRelative(back[1..]);
      }
      NotThere(env, root, t.value.ino, back[0], follow, fuel);
    }
  }
}
