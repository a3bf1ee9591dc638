/**
  When a path walk ends. Every symlink is expanded inside the expansions it was found in; a walk goes on
  for ever exactly when it expands a link, from the same directory, inside its own expansion.
*/
module WalkEnds {
  import opened Wrappers
  import opened Format
  import opened Path
  import opened Tree
  import opened TreeInvariant
  import opened Namespace
  import opened Walk

  /** A symlink and the directory it is found in. */
  type Link = (nat, nat)

  /** Every directory and inode that could make up a link: the bound on how deep expansions nest. */
  function Links(env: Env): set<Link> { set d: nat, i: nat | d in env.items && i in env.items :: (d, i) }

  /**
    What becomes of some components: the walk stops at one of them; it goes on from a directory; it comes
    to a link it stands inside, with components left over; or it runs in a circle. `cost` counts the links
    expanded on the way.
  */
  datatype Fate = Stops(cost: nat) | Goes(dir: nat, cost: nat) | Returns(link: Link, left: seq<Component>, cost: nat) | Circles

  /**
    Follow `cs` from `dir`, inside the expansions of the links in `chain`; `more` says whether components
    remain after `cs`. Nothing bounds this but the number of links.
  */
  function Follow(env: Env, root: nat, dir: nat, cs: seq<Component>, more: bool, follow: bool, chain: set<Link>): Fate
    decreases |Links(env) - chain|, |cs|
  {
    if cs == [] then Goes(dir, 0)
    else
      match cs[0]
      case RootDir => Follow(env, root, root, cs[1..], more, follow, chain)
      case CurDir => Follow(env, root, dir, cs[1..], more, follow, chain)
      case ParentDir =>
        (match UpFrom(env.items, root, dir)
         case Err(_) => Stops(0)
         case Ok(up) => if |cs| == 1 && !more then Stops(0) else Follow(env, root, up, cs[1..], more, follow, chain))
      case Normal(name) =>
        match ChildOf(env.items, dir, name)
        case Err(_) => Stops(0)
        case Ok(None) => Stops(0)
        case Ok(Some(ino)) =>
          if IsLink(env.items, ino) && (|cs| > 1 || more || follow) then
            if (dir, ino) in chain then Returns((dir, ino), cs[1..], 0)
            else
              Shorter(env, dir, ino, chain);
              var rest := WithoutDots(cs[1..]);
              var target := ComponentsOf(TargetOf(env, ino));
              if target == [] && rest == [] && !more then Stops(1)
              else
                (match Follow(env, root, dir, target, rest != [] || more, follow, chain + {(dir, ino)})
                 case Stops(k) => Stops(k + 1)
                 case Goes(d, k) => Later(Follow(env, root, d, rest, more, follow, chain), k + 1)
                 case Returns(link, left, k) => if link == (dir, ino) then Circles else Returns(link, left + rest, k + 1)
                 case Circles => Circles)
          else if |cs| == 1 && !more then Stops(0)
          else Follow(env, root, ino, cs[1..], more, follow, chain)
  }

  function Later(f: Fate, k: nat): Fate {
    match f
    case Stops(c) => Stops(c + k)
    case Goes(d, c) => Goes(d, c + k)
    case Returns(link, left, c) => Returns(link, left, c + k)
    case Circles => Circles
  }

  lemma Shorter(env: Env, dir: nat, ino: nat, chain: set<Link>)
    requires dir in env.items && ino in env.items && (dir, ino) !in chain
    ensures |Links(env) - (chain + {(dir, ino)})| < |Links(env) - chain|
  {
    assert Links(env) - (chain + {(dir, ino)}) == Links(env) - chain - {(dir, ino)};
    assert (dir, ino) in Links(env) - chain;
  }

  /** The walk of `path` meets no link inside its own expansion. */
  predicate Ends(env: Env, root: nat, cwd: nat, path: Bytes, follow: bool) {
    path == [] || !Follow(env, root, if IsAbsolute(path) then root else cwd, ComponentsOf(path), false, follow, {}).Circles?
  }

  // --- dots -----------------------------------------------------------------------------------

  lemma {:induction false} DotsConcat(a: seq<Component>, b: seq<Component>)
    ensures WithoutDots(a + b) == WithoutDots(a) + WithoutDots(b)
  {
    if a == [] {
      assert a + b == b;
    } else {
      assert (a + b)[1..] == a[1..] + b;
      DotsConcat(a[1..], b);
    }
  }

  lemma {:induction false} DotsTwice(a: seq<Component>)
    ensures WithoutDots(WithoutDots(a)) == WithoutDots(a)
  {
    if a != [] {
      DotsTwice(a[1..]);
      DotsConcat(if a[0] == CurDir then [] else [a[0]], WithoutDots(a[1..]));
    }
  }

  // --- following is walking ----------------------------------------------------------------------

  /** What the fate of `cs` says of a walk that has `out` to do after it, with fuel `f`. */
  ghost predicate Tells(env: Env, root: nat, dir: nat, cs: seq<Component>, follow: bool, out: seq<Component>, f: nat, fate: Fate) {
    var answer := Resolve(env, root, dir, cs + out, 0, follow, f).answer;
    match fate
    case Stops(k) => answer.Some? <==> f >= k
    case Goes(d, k) => answer == if f < k then None else Resolve(env, root, d, out, 0, follow, f - k).answer
    case Returns(link, left, k) => answer == if f < k then None else ResolveLink(env, root, link.0, link.1, left + out, 0, follow, f - k).answer
    case Circles => answer == None
  }

  /** The directory a path with a leading slash is walked from does not matter. */
  lemma AnyStart(env: Env, root: nat, dir: nat, cs: seq<Component>, follow: bool, f: nat)
    requires cs != []
    ensures Resolve(env, root, if cs[0].RootDir? then root else dir, cs, 0, follow, f).answer == Resolve(env, root, dir, cs, 0, follow, f).answer
  {
    hide Resolve;
    ResolveStep(env, root, dir, cs, 0, follow, f);
    ResolveStep(env, root, root, cs, 0, follow, f);
  }

  /** Expanding a link: its target, and then the rest without dots. */
  lemma Expanded(env: Env, root: nat, dir: nat, ino: nat, rest: seq<Component>, follow: bool, f: nat)
    ensures var next := ComponentsOf(TargetOf(env, ino)) + WithoutDots(rest);
      ResolveLink(env, root, dir, ino, rest, 0, follow, f).answer ==
        if f == 0 then None else if next == [] then Some(Err(EINVAL)) else Resolve(env, root, dir, next, 0, follow, f - 1).answer
  {
    hide Resolve, ComponentsOf, WithoutDots;
    var next := ComponentsOf(TargetOf(env, ino)) + WithoutDots(rest);
    if f > 0 && next != [] { AnyStart(env, root, dir, next, follow, f - 1); }
  }

  /** A link that was returned to is one of those the walk stands inside. */
  lemma {:induction false} ReturnsInside(env: Env, root: nat, dir: nat, cs: seq<Component>, more: bool, follow: bool, chain: set<Link>)
    ensures var fate := Follow(env, root, dir, cs, more, follow, chain); fate.Returns? ==> fate.link in chain
    decreases |Links(env) - chain|, |cs|
  {
    hide ComponentsOf, WithoutDots, UpFrom, ChildOf, IsLink, Links;
    if cs != [] {
      match cs[0]
      case RootDir => ReturnsInside(env, root, root, cs[1..], more, follow, chain);
      case CurDir => ReturnsInside(env, root, dir, cs[1..], more, follow, chain);
      case ParentDir =>
        var up := UpFrom(env.items, root, dir);
        if up.Ok? { ReturnsInside(env, root, up.value, cs[1..], more, follow, chain); }
      case Normal(name) =>
        var child := ChildOf(env.items, dir, name);
        if child.Ok? && child.value.Some? {
          var ino := child.value.value;
          if IsLink(env.items, ino) && (|cs| > 1 || more || follow) {
            if (dir, ino) !in chain {
              ChildIn(env, dir, name, ino);
              Shorter(env, dir, ino, chain);
              var rest := WithoutDots(cs[1..]);
              var target := ComponentsOf(TargetOf(env, ino));
              ReturnsInside(env, root, dir, target, rest != [] || more, follow, chain + {(dir, ino)});
              var inner := Follow(env, root, dir, target, rest != [] || more, follow, chain + {(dir, ino)});
              if inner.Goes? { ReturnsInside(env, root, inner.dir, rest, more, follow, chain); }
            }
          } else {
            ReturnsInside(env, root, ino, cs[1..], more, follow, chain);
          }
        }
    }
  }

  lemma ChildIn(env: Env, dir: nat, name: Name, ino: nat)
    requires ChildOf(env.items, dir, name) == Ok(Some(ino))
    ensures dir in env.items && ino in env.items
  {
  }

  /** Having more to do afterwards does not keep a walk from coming back to a link. */
  lemma {:induction false} ReturnsAnyway(env: Env, root: nat, dir: nat, cs: seq<Component>, follow: bool, chain: set<Link>)
    requires Follow(env, root, dir, cs, false, follow, chain).Returns?
    ensures Follow(env, root, dir, cs, true, follow, chain) == Follow(env, root, dir, cs, false, follow, chain)
    decreases |Links(env) - chain|, |cs|
  {
    hide ComponentsOf, WithoutDots, UpFrom, ChildOf, IsLink, Links;
    match cs[0]
    case RootDir => ReturnsAnyway(env, root, root, cs[1..], follow, chain);
    case CurDir => ReturnsAnyway(env, root, dir, cs[1..], follow, chain);
    case ParentDir => ReturnsAnyway(env, root, UpFrom(env.items, root, dir).value, cs[1..], follow, chain);
    case Normal(name) =>
      var ino := ChildOf(env.items, dir, name).value.value;
      if IsLink(env.items, ino) && (|cs| > 1 || follow) {
        if (dir, ino) !in chain {
          ChildIn(env, dir, name, ino);
          Shorter(env, dir, ino, chain);
          var rest := WithoutDots(cs[1..]);
          var target := ComponentsOf(TargetOf(env, ino));
          var inner := Follow(env, root, dir, target, rest != [], follow, chain + {(dir, ino)});
          if inner.Goes? {
            ReturnsAnyway(env, root, inner.dir, rest, follow, chain);
          } else if rest == [] {
            ReturnsAnyway(env, root, dir, target, follow, chain + {(dir, ino)});
          }
        }
      } else {
        ReturnsAnyway(env, root, ino, cs[1..], follow, chain);
      }
  }

  /** A walk that came back to a link inside its expansion comes back to it again and again. */
  lemma {:induction false} Forever(env: Env, root: nat, dir: nat, ino: nat, more: bool, follow: bool, chain: set<Link>,
          rest: seq<Component>, f: nat)
    requires dir in env.items && ino in env.items && (dir, ino) !in chain
    requires var fate := Follow(env, root, dir, ComponentsOf(TargetOf(env, ino)), more, follow, chain + {(dir, ino)});
      fate.Returns? && fate.link == (dir, ino)
    requires more ==> WithoutDots(rest) != []
    ensures ResolveLink(env, root, dir, ino, rest, 0, follow, f).answer == None
    decreases |Links(env) - (chain + {(dir, ino)})|, |ComponentsOf(TargetOf(env, ino))| + 1, f
  {
    hide Resolve, ResolveLink, ComponentsOf, WithoutDots, Follow, Links;
    var target, out, inside := ComponentsOf(TargetOf(env, ino)), WithoutDots(rest), chain + {(dir, ino)};
    var fate := Follow(env, root, dir, target, more, follow, inside);
    if out != [] && !more { ReturnsAnyway(env, root, dir, target, follow, inside); }
    Expanded(env, root, dir, ino, rest, follow, f);
    SomethingReturns(env, root, dir, target, more, follow, inside);
    if f > 0 {
      DotsTwice(rest);
      FollowTells(env, root, dir, target, out != [], follow, inside, out, f - 1);
      if f - 1 >= fate.cost {
        DotsConcat(fate.left, out);
        Forever(env, root, dir, ino, more, follow, chain, fate.left + out, f - 1 - fate.cost);
      }
    }
  }

  lemma SomethingReturns(env: Env, root: nat, dir: nat, cs: seq<Component>, more: bool, follow: bool, chain: set<Link>)
    requires Follow(env, root, dir, cs, more, follow, chain).Returns?
    ensures cs != []
  {
  }

  /** Following tells what the walk does, for any amount of fuel and whatever comes afterwards. */
  lemma {:induction false} FollowTells(env: Env, root: nat, dir: nat, cs: seq<Component>, more: bool, follow: bool, chain: set<Link>,
          out: seq<Component>, f: nat)
    requires WithoutDots(out) == out && (more <==> out != [])
    ensures Tells(env, root, dir, cs, follow, out, f, Follow(env, root, dir, cs, more, follow, chain))
    decreases |Links(env) - chain|, |cs|, 2
  {
    hide Resolve, ResolveName, ResolveLink, ComponentsOf, WithoutDots, UpFrom, ChildOf, IsLink, Links;
    if cs == [] {
      assert cs + out == out;
    } else {
      assert (cs + out)[0] == cs[0] && (cs + out)[1..] == cs[1..] + out;
      ResolveStep(env, root, dir, cs + out, 0, follow, f);
      match cs[0]
      case RootDir => FollowTells(env, root, root, cs[1..], more, follow, chain, out, f);
      case CurDir => FollowTells(env, root, dir, cs[1..], more, follow, chain, out, f);
      case ParentDir =>
        var up := UpFrom(env.items, root, dir);
        if up.Ok? { FollowTells(env, root, up.value, cs[1..], more, follow, chain, out, f); }
      case Normal(name) =>
        NameTells(env, root, dir, cs, more, follow, chain, out, f);
    }
  }

  lemma {:induction false} NameTells(env: Env, root: nat, dir: nat, cs: seq<Component>, more: bool, follow: bool, chain: set<Link>,
          out: seq<Component>, f: nat)
    requires WithoutDots(out) == out && (more <==> out != []) && cs != [] && cs[0].Normal?
    ensures Tells(env, root, dir, cs, follow, out, f, Follow(env, root, dir, cs, more, follow, chain))
    decreases |Links(env) - chain|, |cs|, 1
  {
    hide Resolve, ResolveLink, ComponentsOf, WithoutDots, UpFrom, ChildOf, IsLink, Links;
    assert (cs + out)[0] == cs[0] && (cs + out)[1..] == cs[1..] + out;
    ResolveStep(env, root, dir, cs + out, 0, follow, f);
    var child := ChildOf(env.items, dir, cs[0].name);
    if child.Ok? && child.value.Some? {
      var ino := child.value.value;
      if IsLink(env.items, ino) && (|cs| > 1 || more || follow) {
        LinkTells(env, root, dir, cs, more, follow, chain, out, f, ino);
      } else if |cs| > 1 || more {
        FollowTells(env, root, ino, cs[1..], more, follow, chain, out, f);
      }
    }
  }

  lemma {:induction false} LinkTells(env: Env, root: nat, dir: nat, cs: seq<Component>, more: bool, follow: bool, chain: set<Link>,
          out: seq<Component>, f: nat, ino: nat)
    requires WithoutDots(out) == out && (more <==> out != []) && cs != [] && cs[0].Normal?
    requires ChildOf(env.items, dir, cs[0].name) == Ok(Some(ino)) && IsLink(env.items, ino) && (|cs| > 1 || more || follow)
    ensures Tells(env, root, dir, cs, follow, out, f, Follow(env, root, dir, cs, more, follow, chain))
    decreases |Links(env) - chain|, |cs|, 0
  {
    hide Resolve, ResolveLink, ComponentsOf, WithoutDots, ChildOf, IsLink, Links, Follow, Tells;
    assert (cs + out)[0] == cs[0] && (cs + out)[1..] == cs[1..] + out;
    AtLink(env, root, dir, cs + out, 0, follow, f, ino);
    ChildIn(env, dir, cs[0].name, ino);
    FollowLink(env, root, dir, cs, more, follow, chain, ino);
    if (dir, ino) in chain {
      AtOnce(env, root, dir, cs, follow, out, f, ino);
    } else {
      Shorter(env, dir, ino, chain);
      var inside, rest, target := chain + {(dir, ino)}, WithoutDots(cs[1..]), ComponentsOf(TargetOf(env, ino));
      DotsConcat(cs[1..], out);
      DotsTwice(cs[1..]);
      DotsConcat(rest, out);
      assert target + (rest + out) == target + rest + out;
      Expanded(env, root, dir, ino, cs[1..] + out, follow, f);
      if target == [] && rest == [] && !more {
        assert target + rest + out == [];
        NothingLeft(env, root, dir, cs, follow, out, f);
      } else {
        var inner := Follow(env, root, dir, target, rest != [] || more, follow, inside);
        if inner.Returns? && inner.link == (dir, ino) {
          Forever(env, root, dir, ino, rest != [] || more, follow, chain, cs[1..] + out, f);
          NoAnswer(env, root, dir, cs, follow, out, f);
        } else {
          var next := if inner.Goes? then Follow(env, root, inner.dir, rest, more, follow, chain) else inner;
          if f > 0 {
            FollowTells(env, root, dir, target, rest != [] || more, follow, inside, rest + out, f - 1);
            if inner.Goes? && f - 1 >= inner.cost { FollowTells(env, root, inner.dir, rest, more, follow, chain, out, f - 1 - inner.cost); }
          }
          Outwards(env, root, dir, cs, follow, out, f, target, rest, inner, next);
        }
      }
    }
  }

  lemma AtOnce(env: Env, root: nat, dir: nat, cs: seq<Component>, follow: bool, out: seq<Component>, f: nat, ino: nat)
    requires cs != []
    requires Resolve(env, root, dir, cs + out, 0, follow, f).answer == ResolveLink(env, root, dir, ino, cs[1..] + out, 0, follow, f).answer
    ensures Tells(env, root, dir, cs, follow, out, f, Returns((dir, ino), cs[1..], 0))
  {
  }

  lemma NothingLeft(env: Env, root: nat, dir: nat, cs: seq<Component>, follow: bool, out: seq<Component>, f: nat)
    requires Resolve(env, root, dir, cs + out, 0, follow, f).answer == if f == 0 then None else Some(Err(EINVAL))
    ensures Tells(env, root, dir, cs, follow, out, f, Stops(1))
  {
  }

  lemma NoAnswer(env: Env, root: nat, dir: nat, cs: seq<Component>, follow: bool, out: seq<Component>, f: nat)
    requires Resolve(env, root, dir, cs + out, 0, follow, f).answer == None
    ensures Tells(env, root, dir, cs, follow, out, f, Circles)
  {
  }

  /** The fate at a link, from the fate inside its expansion and the fate of the rest. */
  function AtLinkFate(link: Link, rest: seq<Component>, inner: Fate, next: Fate): Fate {
    match inner
    case Stops(k) => Stops(k + 1)
    case Goes(d, k) => Later(next, k + 1)
    case Returns(l, left, k) => if l == link then Circles else Returns(l, left + rest, k + 1)
    case Circles => Circles
  }

  lemma FollowLink(env: Env, root: nat, dir: nat, cs: seq<Component>, more: bool, follow: bool, chain: set<Link>, ino: nat)
    requires cs != [] && cs[0].Normal? && ChildOf(env.items, dir, cs[0].name) == Ok(Some(ino))
    requires IsLink(env.items, ino) && (|cs| > 1 || more || follow)
    ensures Follow(env, root, dir, cs, more, follow, chain) ==
      if (dir, ino) in chain then Returns((dir, ino), cs[1..], 0)
      else
        var rest, target := WithoutDots(cs[1..]), ComponentsOf(TargetOf(env, ino));
        if target == [] && rest == [] && !more then Stops(1)
        else
          var inner := Follow(env, root, dir, target, rest != [] || more, follow, chain + {(dir, ino)});
          var next := if inner.Goes? then Follow(env, root, inner.dir, rest, more, follow, chain) else inner;
          AtLinkFate((dir, ino), rest, inner, next)
  {
    hide ComponentsOf, WithoutDots, ChildOf, IsLink, Links;
  }

  /** What the walk does inside an expansion and after it is what it does at the link. */
  lemma Outwards(env: Env, root: nat, dir: nat, cs: seq<Component>, follow: bool, out: seq<Component>, f: nat,
          target: seq<Component>, rest: seq<Component>, inner: Fate, next: Fate)
    requires Resolve(env, root, dir, cs + out, 0, follow, f).answer ==
      if f == 0 then None else Resolve(env, root, dir, target + (rest + out), 0, follow, f - 1).answer
    requires f > 0 ==> Tells(env, root, dir, target, follow, rest + out, f - 1, inner)
    requires f > 0 && inner.Goes? && f - 1 >= inner.cost ==> Tells(env, root, inner.dir, rest, follow, out, f - 1 - inner.cost, next)
    requires !inner.Goes? ==> next == inner
    ensures Tells(env, root, dir, cs, follow, out, f,
      match inner
      case Stops(k) => Stops(k + 1)
      case Goes(d, k) => Later(next, k + 1)
      case Returns(l, left, k) => Returns(l, left + rest, k + 1)
      case Circles => Circles)
  {
    hide Resolve, ResolveLink;
    if inner.Returns? { assert inner.left + (rest + out) == inner.left + rest + out; }
  }

  // --- the condition --------------------------------------------------------------------------------

  /** A walk is answered if and only if it meets no link inside that link's own expansion. */
  lemma EndsIff(env: Env, root: nat, cwd: nat, path: Bytes, follow: bool)
    ensures (exists fuel: nat :: WalkPath(env, root, cwd, path, follow, fuel).answer.Some?) <==> Ends(env, root, cwd, path, follow)
  {
    hide Resolve, ComponentsOf, Follow, IsAbsolute;
    if path == [] {
      assert WalkPath(env, root, cwd, path, follow, 0).answer.Some?;
    } else {
      var dir := if IsAbsolute(path) then root else cwd;
      var cs := ComponentsOf(path);
      var fate := Follow(env, root, dir, cs, false, follow, {});
      ReturnsInside(env, root, dir, cs, false, follow, {});
      assert cs + [] == cs;
      forall fuel: nat
        ensures Tells(env, root, dir, cs, follow, [], fuel, fate)
        ensures WalkPath(env, root, cwd, path, follow, fuel).answer == Resolve(env, root, dir, cs + [], 0, follow, fuel).answer
      {
        FollowTells(env, root, dir, cs, false, follow, {}, [], fuel);
      }
      if !fate.Circles? {
        if fate.Goes? { ResolveEnd(env, root, fate.dir, [], 0, follow, 0); }
        assert Tells(env, root, dir, cs, follow, [], fate.cost, fate);
        assert WalkPath(env, root, cwd, path, follow, fate.cost).answer.Some?;
      }
    }
  }

  /** The walk, for any path whose walk ends. */
  method WalkTo(fs: Inner, links: map<nat, Bytes>, root: nat, cwd: nat, path: Bytes, follow: bool) returns (r: Result<Resolved>)
    requires fs.Valid() && Ends(Env(fs.Items(), links), root, cwd, path, follow)
    ensures exists fuel: nat :: WalkPath(Env(fs.Items(), links), root, cwd, path, follow, fuel).answer == Some(r)
  {
    hide Inv, WalkPath, Ends;
    EndsIff(Env(fs.Items(), links), root, cwd, path, follow);
    ghost var fuel: nat :| WalkPath(Env(fs.Items(), links), root, cwd, path, follow, fuel).answer.Some?;
    r := WalkFrom(fs, links, root, cwd, path, follow, fuel);
  }
}
