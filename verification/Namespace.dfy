/**
  The namespace methods of src/inner.rs, working on directory entry lists, each proved to take the
  step of module Tree: same answers, same new state.
*/
module Namespace {
  import opened Wrappers
  import opened Format
  import opened Tree
  import opened TreeInvariant
  import opened TreeSteps

  datatype DirEntry = DirEntry(ino: nat, ft: FileType, name: Name)

  datatype Node = Node(ft: FileType, nlink: nat, entries: seq<DirEntry>)

  // --- entry lists -----------------------------------------------------------------------

  /** What a list of entries maps each name to; the first entry of a name counts. */
  function KidsOf(es: seq<DirEntry>): map<Name, Target> {
    if es == [] then map[] else KidsOf(es[1..])[es[0].name := Target(es[0].ino, es[0].ft)]
  }

  ghost predicate Distinct(es: seq<DirEntry>) {
    es == [] || (es[0].name !in KidsOf(es[1..]) && Distinct(es[1..]))
  }

  lemma {:induction false} KidsMember(es: seq<DirEntry>, name: Name)
    ensures name in KidsOf(es) <==> exists i :: 0 <= i < |es| && es[i].name == name
  {
    if es != [] {
      KidsMember(es[1..], name);
      if i :| 0 <= i < |es| && es[i].name == name {
        assert i > 0 ==> es[1..][i - 1].name == name;
      }
      if i :| 0 <= i < |es[1..]| && es[1..][i].name == name {
        assert es[i + 1].name == name;
      }
    }
  }

  /** The first entry of a name is the one that counts. */
  lemma {:induction false} KidsFirst(es: seq<DirEntry>, i: nat)
    requires i < |es| && forall j :: 0 <= j < i ==> es[j].name != es[i].name
    ensures es[i].name in KidsOf(es) && KidsOf(es)[es[i].name] == Target(es[i].ino, es[i].ft)
  {
    if i > 0 {
      assert es[0].name != es[i].name;
      forall j | 0 <= j < i - 1 ensures es[1..][j].name != es[1..][i - 1].name { assert es[j + 1].name != es[i].name; }
      KidsFirst(es[1..], i - 1);
    }
  }

  lemma {:induction false} KidsAppend(es: seq<DirEntry>, e: DirEntry)
    requires Distinct(es) && e.name !in KidsOf(es)
    ensures KidsOf(es + [e]) == KidsOf(es)[e.name := Target(e.ino, e.ft)] && Distinct(es + [e])
  {
    if es == [] {
      assert es + [e] == [e] && [e][1..] == [];
      assert KidsOf([e][1..]) == map[];
    } else {
      assert (es + [e])[1..] == es[1..] + [e];
      KidsAppend(es[1..], e);
    }
  }

  lemma {:induction false} KidsRemove(es: seq<DirEntry>, i: nat)
    requires Distinct(es) && i < |es|
    ensures KidsOf(es[..i] + es[i + 1..]) == KidsOf(es) - {es[i].name} && Distinct(es[..i] + es[i + 1..])
  {
    if i == 0 {
      assert es[..0] + es[1..] == es[1..];
    } else {
      var t := es[1..];
      var rest := t[..i - 1] + t[i..];
      assert es[..i] + es[i + 1..] == [es[0]] + rest;
      assert ([es[0]] + rest)[1..] == rest;
      KidsRemove(t, i - 1);
      KidsMember(t, es[0].name);
      assert t[i - 1].name != es[0].name;
      assert KidsOf([es[0]] + rest) == KidsOf(rest)[es[0].name := Target(es[0].ino, es[0].ft)];
      assert KidsOf(es) == KidsOf(t)[es[0].name := Target(es[0].ino, es[0].ft)];
    }
  }

  /** The list with every entry of one name pointed at `ino`. */
  function Redirect(es: seq<DirEntry>, name: Name, ino: nat): (r: seq<DirEntry>)
    ensures |r| == |es|
    ensures forall i :: 0 <= i < |es| ==> r[i] == if es[i].name == name then es[i].(ino := ino) else es[i]
  {
    seq(|es|, i requires 0 <= i < |es| => if es[i].name == name then es[i].(ino := ino) else es[i])
  }

  lemma {:induction false} KidsRedirect(es: seq<DirEntry>, name: Name, ino: nat)
    requires Distinct(es)
    ensures Distinct(Redirect(es, name, ino))
    ensures KidsOf(Redirect(es, name, ino)) == if name in KidsOf(es) then KidsOf(es)[name := KidsOf(es)[name].(ino := ino)] else KidsOf(es)
  {
    if es != [] {
      KidsRedirect(es[1..], name, ino);
      assert Redirect(es, name, ino)[1..] == Redirect(es[1..], name, ino);
    }
  }

  lemma ChildrenIn(es: seq<DirEntry>)
    ensures HasChildren(KidsOf(es)) <==> exists i :: 0 <= i < |es| && Real(es[i].name)
  {
    if i :| 0 <= i < |es| && Real(es[i].name) { KidsMember(es, es[i].name); }
    if n :| n in KidsOf(es) && Real(n) { KidsMember(es, n); }
  }

  // --- the abstract state -----------------------------------------------------------------

  function ItemOf(n: Node): Item { Item(n.ft, n.nlink, KidsOf(n.entries)) }

  function Abs(nodes: map<nat, Node>): Items { map i | i in nodes :: ItemOf(nodes[i]) }

  lemma AbsUpdate(nodes: map<nat, Node>, i: nat, n: Node)
    ensures Abs(nodes[i := n]) == Abs(nodes)[i := ItemOf(n)]
  {
  }

  lemma AbsRemove(nodes: map<nat, Node>, i: nat)
    ensures Abs(nodes - {i}) == Abs(nodes) - {i}
  {
  }

  ghost predicate AllDistinct(nodes: map<nat, Node>) { forall i :: i in nodes ==> Distinct(nodes[i].entries) }

  class Inner {
    var nodes: map<nat, Node>
    var openCount: map<nat, nat>
    var orphans: set<nat>
    var freeInodes: seq<nat>
    var nextInode: nat
    const writable: bool

    ghost function Items(): Tree.Items reads this { Abs(nodes) }

    ghost function S(): State reads this { State(Abs(nodes), openCount, orphans, freeInodes, nextInode) }

    /** No directory lists a name twice. */
    ghost predicate Listed() reads this { AllDistinct(nodes) }

    ghost predicate Valid() reads this { Listed() && Inv(S()) }

    /** The root directory of a new image. */
    constructor (writable: bool)
      ensures Valid() && S() == Fresh() && this.writable == writable
    {
      var entries := [DirEntry(ROOT_INO, Directory, DOT), DirEntry(ROOT_INO, Directory, DOTDOT)];
      nodes := map[ROOT_INO := Node(Directory, 2, entries)];
      openCount := map[];
      orphans := {};
      freeInodes := [];
      nextInode := FIRST_USER_INO;
      this.writable := writable;
      new;
      TwoEntries(entries, ROOT_INO, ROOT_INO);
      FreshInv();
      assert S().items == Fresh().items;
    }

    // --- reading a directory ------------------------------------------------------------------

    method GetInode(ino: nat) returns (r: Result<Node>)
      ensures r == if ino in nodes then Ok(nodes[ino]) else Err(EIO)
    {
      if ino !in nodes { return Err(EIO); }
      return Ok(nodes[ino]);
    }

    method ParseDir(ino: nat) returns (r: Result<seq<DirEntry>>)
      ensures AdmitDir(Items(), ino).Err? ==> r == Err(AdmitDir(Items(), ino).error)
      ensures AdmitDir(Items(), ino).Ok? ==> r == Ok(nodes[ino].entries)
    {
      var inode := GetInode(ino);
      if inode.Err? { return Err(inode.error); }
      if !inode.value.ft.Directory? { return Err(ENOTDIR); }
      return Ok(inode.value.entries);
    }

    /** The first entry of this name. */
    method DirLookup(dir: nat, name: Name) returns (r: Result<Option<Target>>)
      ensures AdmitDir(Items(), dir).Err? ==> r == Err(AdmitDir(Items(), dir).error)
      ensures AdmitDir(Items(), dir).Ok? ==> r == Ok(Kid(Items(), dir, name))
    {
      var entries := ParseDir(dir);
      if entries.Err? { return Err(entries.error); }
      var es := entries.value;
      var i := 0;
      while i < |es|
        invariant 0 <= i <= |es|
        invariant forall j :: 0 <= j < i ==> es[j].name != name
      {
        if es[i].name == name {
          KidsFirst(es, i);
          return Ok(Some(Target(es[i].ino, es[i].ft)));
        }
        i := i + 1;
      }
      KidsMember(es, name);
      return Ok(None);
    }

    /** Whether the list holds more than `.` and `..`. */
    method AnyChild(es: seq<DirEntry>) returns (extra: bool)
      ensures extra == HasChildren(KidsOf(es))
    {
      ChildrenIn(es);
      for i := 0 to |es|
        invariant forall j :: 0 <= j < i ==> !Real(es[j].name)
      {
        if es[i].name != DOT && es[i].name != DOTDOT { return true; }
      }
      return false;
    }

    // --- changing a directory --------------------------------------------------------------------

    method WriteDirEntries(dir: nat, es: seq<DirEntry>)
      requires dir in nodes && Distinct(es) && Listed()
      modifies `nodes
      ensures nodes.Keys == old(nodes.Keys)
      ensures Listed() && nodes == old(nodes)[dir := old(nodes[dir]).(entries := es)]
      ensures Items() == old(Items())[dir := old(Items()[dir]).(kids := KidsOf(es))]
    {
      AbsUpdate(nodes, dir, nodes[dir].(entries := es));
      nodes := nodes[dir := nodes[dir].(entries := es)];
    }

    /** Append an entry, unless the name is taken. */
    method DirInsert(dir: nat, name: Name, child: nat, ft: FileType) returns (r: Result<()>)
      requires Listed()
      modifies `nodes
      ensures nodes.Keys == old(nodes.Keys)
      ensures Listed()
      ensures r == AdmitCreate(old(Items()), true, dir, name)
      ensures r.Err? ==> nodes == old(nodes)
      ensures r.Ok? ==> Items() == Bind(old(Items()), dir, name, Target(child, ft))
    {
      r := ValidateName(name);
      if r.Err? { return; }
      var entries := ParseDir(dir);
      if entries.Err? { return Err(entries.error); }
      var es := entries.value;
      KidsMember(es, name);
      if exists i :: 0 <= i < |es| && es[i].name == name { return Err(EEXIST); }
      KidsAppend(es, DirEntry(child, ft, name));
      WriteDirEntries(dir, es + [DirEntry(child, ft, name)]);
    }

    /** Remove the first entry of this name. */
    method DirRemove(dir: nat, name: Name) returns (r: Result<Target>)
      requires Listed()
      modifies `nodes
      ensures nodes.Keys == old(nodes.Keys)
      ensures Listed()
      ensures AdmitDir(old(Items()), dir).Err? ==> r == Err(AdmitDir(old(Items()), dir).error)
      ensures AdmitDir(old(Items()), dir).Ok? && Kid(old(Items()), dir, name).None? ==> r == Err(ENOENT)
      ensures AdmitDir(old(Items()), dir).Ok? && Kid(old(Items()), dir, name).Some? ==> r == Ok(Kid(old(Items()), dir, name).value)
      ensures r.Err? ==> nodes == old(nodes)
      ensures r.Ok? ==> Items() == Unbind(old(Items()), dir, name)
    {
      var entries := ParseDir(dir);
      if entries.Err? { return Err(entries.error); }
      var es := entries.value;
      var i := 0;
      while i < |es| && es[i].name != name
        invariant 0 <= i <= |es|
        invariant forall j :: 0 <= j < i ==> es[j].name != name
      {
        i := i + 1;
      }
      KidsMember(es, name);
      if i == |es| { return Err(ENOENT); }
      KidsFirst(es, i);
      KidsRemove(es, i);
      WriteDirEntries(dir, es[..i] + es[i + 1..]);
      return Ok(Target(es[i].ino, es[i].ft));
    }

    /** `..` is pointed at `ino`. */
    method PointUp(dir: nat, ino: nat)
      requires Listed() && dir in nodes
      modifies `nodes
      ensures nodes.Keys == old(nodes.Keys)
      ensures Listed()
      ensures Items() == if DOTDOT in old(Items()[dir].kids) then Bind(old(Items()), dir, DOTDOT, old(Items()[dir].kids[DOTDOT]).(ino := ino)) else old(Items())
    {
      hide Distinct, KidsOf;
      var es := nodes[dir].entries;
      var i := 0;
      var out := es;
      while i < |es|
        invariant 0 <= i <= |es| && |out| == |es|
        invariant out[..i] == Redirect(es, DOTDOT, ino)[..i] && out[i..] == es[i..]
      {
        if out[i].name == DOTDOT { out := out[i := out[i].(ino := ino)]; }
        i := i + 1;
      }
      assert out == Redirect(es, DOTDOT, ino);
      KidsRedirect(es, DOTDOT, ino);
      WriteDirEntries(dir, out);
      assert Items()[dir].kids == KidsOf(out);
    }

    method MoreLinksOf(ino: nat)
      requires Listed() && ino in nodes
      modifies `nodes
      ensures nodes.Keys == old(nodes.Keys)
      ensures Listed() && Items() == MoreLinks(old(Items()), ino)
    {
      AbsUpdate(nodes, ino, nodes[ino].(nlink := nodes[ino].nlink + 1));
      nodes := nodes[ino := nodes[ino].(nlink := nodes[ino].nlink + 1)];
    }

    method FewerLinksOf(ino: nat)
      requires Listed() && ino in nodes
      modifies `nodes
      ensures nodes.Keys == old(nodes.Keys)
      ensures Listed() && Items() == FewerLinks(old(Items()), ino)
    {
      var n := if nodes[ino].nlink == 0 then 0 else nodes[ino].nlink - 1;
      AbsUpdate(nodes, ino, nodes[ino].(nlink := n));
      nodes := nodes[ino := nodes[ino].(nlink := n)];
    }

    // --- inodes ---------------------------------------------------------------------------------------

    /** A new inode: the last freed number, or the next unused one. */
    method AllocInode(ft: FileType) returns (r: Result<nat>)
      requires Listed()
      modifies `nodes, `freeInodes, `nextInode
      ensures Listed() && r == if writable then Ok(NextIno(old(S()))) else Err(EROFS)
      ensures r.Err? ==> nodes == old(nodes) && freeInodes == old(freeInodes) && nextInode == old(nextInode)
      ensures r.Ok? ==> nodes == old(nodes)[r.value := Node(ft, 1, [])]
      ensures r.Ok? ==> freeInodes == (if old(freeInodes) == [] then [] else old(freeInodes)[..|old(freeInodes)| - 1])
      ensures r.Ok? ==> nextInode == if old(freeInodes) == [] then old(nextInode) + 1 else old(nextInode)
    {
      if !writable { return Err(EROFS); }
      var ino;
      if |freeInodes| > 0 {
        ino := freeInodes[|freeInodes| - 1];
        freeInodes := freeInodes[..|freeInodes| - 1];
      } else {
        ino := nextInode;
        nextInode := nextInode + 1;
      }
      nodes := nodes[ino := Node(ft, 1, [])];
      return Ok(ino);
    }

    /** The inode disappears and its number can be given out again. */
    method DropInode(ino: nat)
      requires Listed()
      modifies `nodes, `freeInodes
      ensures Listed() && S() == Dropped(old(S()), ino)
    {
      AbsRemove(nodes, ino);
      nodes := nodes - {ino};
      if ino >= FIRST_USER_INO { freeInodes := freeInodes + [ino]; }
    }

    // --- create, link, unlink -----------------------------------------------------------------------

    /** A new directory gets `.` and `..`, and its parent the link that `..` makes. */
    method StartChild(ino: nat, parent: nat, ft: FileType, ghost nodes0: map<nat, Node>)
      requires Listed() && ino !in nodes0 && parent in nodes0 && nodes == nodes0[ino := Node(ft, 1, [])]
      modifies `nodes
      ensures Listed()
      ensures var more := Abs(nodes0)[ino := NewItem(ino, parent, ft)];
        Items() == if ft.Directory? then MoreLinks(more, parent) else more
    {
      hide KidsOf;
      if ft.Directory? {
        nodes := nodes[ino := nodes[ino].(nlink := 2)];
        var entries := [DirEntry(ino, Directory, DOT), DirEntry(parent, Directory, DOTDOT)];
        TwoEntries(entries, ino, parent);
        WriteDirEntries(ino, entries);
        NewItemAbs(Abs(nodes0), Items(), nodes0, nodes, ino, parent, ft);
        MoreLinksOf(parent);
      } else {
        NoEntries();
        NewItemAbs(Abs(nodes0), Items(), nodes0, nodes, ino, parent, ft);
      }
    }

    /** Create an inode and name it in `parent`. */
    method CreateChild(parent: nat, name: Name, ft: FileType) returns (r: Result<nat>)
      requires Valid()
      modifies `nodes, `freeInodes, `nextInode
      ensures Valid() && S() == Step(old(S()), writable, Create(parent, name, ft))
      ensures Admit(old(S()), writable, Create(parent, name, ft)).Ok? ==> r == Ok(NextIno(old(S())))
      ensures Admit(old(S()), writable, Create(parent, name, ft)).Err? ==> r == Err(Admit(old(S()), writable, Create(parent, name, ft)).error)
    {
      hide Inv, Structured, Safe, Closed, Kid, Created, KidsOf, AllDistinct, Distinct, Step, Admit, MoreLinks, Bind;
      ghost var op := Create(parent, name, ft);
      ghost var s := S();
      StepInv(s, writable, op);
      CreateFacts(s);
      OthersSafe(s, writable, op);
      StepOutcome(s, writable, op);
      if !writable { return Err(EROFS); }
      var v := ValidateName(name);
      if v.Err? { return Err(v.error); }
      var dir := GetInode(parent);
      if dir.Err? { return Err(dir.error); }
      if !dir.value.ft.Directory? { return Err(ENOTDIR); }
      var look := DirLookup(parent, name);
      KidIn(s.items, parent, name);
      if look.Ok? && look.value.Some? { return Err(EEXIST); }
      var a := AllocInode(ft);
      var ino := a.value;
      StartChild(ino, parent, ft, old(nodes));
      CreatedAs(s.items, Items(), ino, parent, name, ft);
      var done := DirInsert(parent, name, ino, ft);
      return Ok(ino);
    }

    /** Give a file one more name. */
    method LinkInto(target: nat, parent: nat, name: Name) returns (r: Result<()>)
      requires Valid()
      modifies `nodes
      ensures Valid() && S() == Step(old(S()), writable, Link(target, parent, name))
      ensures r == Admit(old(S()), writable, Link(target, parent, name))
    {
      hide Inv, Safe, Closed, Kid, KidsOf, AllDistinct, Distinct, Step, Admit, MoreLinks, Bind;
      ghost var s := S();
      StepInv(s, writable, Link(target, parent, name));
      OthersSafe(s, writable, Link(target, parent, name));
      InvClosed(s);
      StepOutcome(s, writable, Link(target, parent, name));
      if !writable { return Err(EROFS); }
      r := ValidateName(name);
      if r.Err? { return; }
      var t := GetInode(target);
      if t.Err? { return Err(t.error); }
      if t.value.ft.Directory? { return Err(EPERM); }
      var dir := GetInode(parent);
      if dir.Err? { return Err(dir.error); }
      var look := DirLookup(parent, name);
      if look.Err? { return Err(look.error); }
      KidIn(s.items, parent, name);
      if look.value.Some? { return Err(EEXIST); }
      r := DirInsert(parent, name, target, t.value.ft);
      MoreLinksOf(target);
    }

    /** An entry goes, and with it one link of its inode and, for a directory, one of its parent. */
    method Detach(parent: nat, name: Name, t: Target)
      requires Listed() && AdmitDir(Items(), parent).Ok? && Kid(Items(), parent, name) == Some(t) && t.ino in nodes
      modifies `nodes
      ensures nodes.Keys == old(nodes.Keys)
      ensures Listed() && Items() == Detached(old(Items()), parent, name)
    {
      hide KidsOf, AllDistinct, Distinct;
      var removed := DirRemove(parent, name);
      if t.ft.Directory? { FewerLinksOf(parent); }
      FewerLinksOf(t.ino);
    }

    /** Take a name away; the inode goes with its last name and last handle. */
    method UnlinkName(parent: nat, name: Name, rmdir: bool) returns (r: Result<()>)
      requires Valid()
      modifies `nodes, `freeInodes, `orphans
      ensures Valid() && S() == Step(old(S()), writable, Unlink(parent, name, rmdir))
      ensures r == Admit(old(S()), writable, Unlink(parent, name, rmdir))
    {
      hide Inv, Safe, Closed, Kid, KidsOf, HasChildren, Detached, AllDistinct, Distinct, Step, Admit;
      ghost var s := S();
      StepInv(s, writable, Unlink(parent, name, rmdir));
      OthersSafe(s, writable, Unlink(parent, name, rmdir));
      InvClosed(s);
      StepOutcome(s, writable, Unlink(parent, name, rmdir));
      if !writable { return Err(EROFS); }
      r := ValidateName(name);
      if r.Err? { return; }
      var dir := GetInode(parent);
      if dir.Err? { return Err(dir.error); }
      var look := DirLookup(parent, name);
      if look.Err? { return Err(look.error); }
      KidIn(s.items, parent, name);
      if look.value.None? { return Err(ENOENT); }
      var t := look.value.value;
      ClosedAt(s.items, parent, name);
      if rmdir {
        if !t.ft.Directory? { return Err(ENOTDIR); }
        var entries := ParseDir(t.ino);
        var extra := AnyChild(if entries.Ok? then entries.value else []);
        if extra { return Err(ENOTEMPTY); }
      } else if t.ft.Directory? {
        return Err(EISDIR);
      }
      Detach(parent, name, t);
      if nodes[t.ino].nlink == 0 {
        if t.ino !in openCount {
          DropInode(t.ino);
        } else {
          orphans := orphans + {t.ino};
        }
      }
    }

    // --- rename --------------------------------------------------------------------------------------

    /** Whether `dir` is `start` or within 4096 steps above it. */
    method IsAncestor(dir: nat, start: nat) returns (r: Result<bool>)
      requires Structured(Items()) && start in nodes
      ensures DirAt(Items(), start) ==> r == Ok(Reaches(Items(), start, dir, ANCESTOR_GUARD))
      ensures !DirAt(Items(), start) && start != dir ==> r == Err(ENOTDIR)
    {
      hide Structured, Kid, KidsOf;
      RootOk(Items());
      var child := start;
      var guard := 0;
      while child != ROOT_INO && guard < ANCESTOR_GUARD
        decreases ANCESTOR_GUARD - guard
        invariant guard <= ANCESTOR_GUARD && child in nodes
        invariant Reaches(Items(), start, dir, ANCESTOR_GUARD) == Reaches(Items(), child, dir, ANCESTOR_GUARD - guard)
        invariant if guard == 0 then child == start else DirAt(Items(), child) && DirAt(Items(), start)
      {
        if child == dir { return Ok(true); }
        var look := DirLookup(child, DOTDOT);
        if look.Err? { return Err(look.error); }
        if look.value.None? {
          StuckReaches(Items(), child, dir, ANCESTOR_GUARD - guard);
          break;
        }
        ParentIsDir(Items(), child);
        child := look.value.value.ino;
        guard := guard + 1;
      }
      if child == ROOT_INO {
        StuckReaches(Items(), child, dir, ANCESTOR_GUARD - guard);
      }
      return Ok(child == dir);
    }

    /** The entry moves to a free name. */
    method MoveEntry(op: nat, on: Name, np: nat, nn: Name, src: Target)
      requires Listed() && AdmitDir(Items(), op).Ok? && AdmitCreate(Items(), true, np, nn).Ok?
      requires on in Items()[op].kids && Items()[op].kids[on] == src && src.ino in nodes
      modifies `nodes
      ensures Listed() && Items() == Moved(old(Items()), op, on, np, nn)
    {
      hide KidsOf, AllDistinct, Distinct;
      var removed := DirRemove(op, on);
      var inserted := DirInsert(np, nn, src.ino, src.ft);
      if src.ft.Directory? && op != np {
        PointUp(src.ino, np);
        FewerLinksOf(op);
        MoreLinksOf(np);
      }
    }

    /** Move an entry; the invariant survives exactly when no directory slips below itself. */
    method Rename(op: nat, on: Name, np: nat, nn: Name) returns (r: Result<()>)
      requires Valid()
      modifies `nodes, `freeInodes, `orphans
      ensures Listed() && S() == Step(old(S()), writable, Op.Rename(op, on, np, nn))
      ensures r == Admit(old(S()), writable, Op.Rename(op, on, np, nn))
      ensures Valid() <==> Safe(old(S()), writable, Op.Rename(op, on, np, nn))
    {
      hide Inv, Safe, Closed, Kid, KidsOf, HasChildren, AfterRename, Reaches;
      ghost var s := S();
      StepInv(s, writable, Op.Rename(op, on, np, nn));
      InvClosed(s);
      if !writable { return Err(EROFS); }
      r := ValidateName(on);
      if r.Err? { return; }
      r := ValidateName(nn);
      if r.Err? { return; }
      var od := GetInode(op);
      if od.Err? { return Err(od.error); }
      var nd := GetInode(np);
      if nd.Err? { return Err(nd.error); }
      var look := DirLookup(op, on);
      if look.Err? { return Err(look.error); }
      KidIn(s.items, op, on);
      if look.value.None? { return Err(ENOENT); }
      var src := look.value.value;
      if op == np && on == nn {
        ClosedAt(s.items, op, on);
        RenameSelf(s, op, on);
        return Ok(());
      }
      r := RenameEntry(op, on, np, nn, src);
    }

    /** The name differs: no directory goes below itself, and an existing destination makes way. */
    method RenameEntry(op: nat, on: Name, np: nat, nn: Name, src: Target) returns (r: Result<()>)
      requires Valid() && writable && ValidateName(on).Ok? && ValidateName(nn).Ok?
      requires AdmitDir(Items(), op).Ok? && np in nodes && Kid(Items(), op, on) == Some(src) && (op != np || on != nn)
      modifies `nodes, `freeInodes, `orphans
      ensures Listed() && S() == Step(old(S()), writable, Op.Rename(op, on, np, nn))
      ensures r == Admit(old(S()), writable, Op.Rename(op, on, np, nn))
    {
      hide Inv, Structured, Closed, Kid, KidsOf, HasChildren, Moved, Reaches, Step, Admit, AllDistinct, Distinct,
        ItemOf;
      ghost var s := S();
      InvClosed(s);
      KidIn(s.items, op, on);
      ClosedAt(s.items, op, on);
      RenameOutcome(s, op, on, np, nn, src);
      if src.ft.Directory? {
        StructuredOf(s);
        var up := IsAncestor(src.ino, np);
        if up.Err? { return Err(up.error); }
        if up.value { return Err(EINVAL); }
      }
      var there := DirLookup(np, nn);
      if there.Err? { return Err(there.error); }
      KidIn(s.items, np, nn);
      if there.value.Some? {
        r := ReplaceEntry(op, on, np, nn, src, there.value.value);
      } else {
        MoveEntry(op, on, np, nn, src);
        return Ok(());
      }
    }

    /** The destination exists: it must be of the same kind, and a directory empty, and is unlinked first. */
    method ReplaceEntry(op: nat, on: Name, np: nat, nn: Name, src: Target, dest: Target) returns (r: Result<()>)
      requires Valid() && writable && ValidateName(on).Ok? && ValidateName(nn).Ok?
      requires AdmitDir(Items(), op).Ok? && AdmitDir(Items(), np).Ok? && (op != np || on != nn)
      requires Kid(Items(), op, on) == Some(src) && Kid(Items(), np, nn) == Some(dest)
      requires src.ft.Directory? ==> !Reaches(Items(), np, src.ino, ANCESTOR_GUARD)
      modifies `nodes, `freeInodes, `orphans
      ensures Listed() && S() == Step(old(S()), writable, Op.Rename(op, on, np, nn))
      ensures r == Admit(old(S()), writable, Op.Rename(op, on, np, nn))
    {
      hide Inv, Closed, Kid, KidsOf, HasChildren, AfterUnlink, Moved, Reaches;
      ghost var s := S();
      InvClosed(s);
      KidIn(s.items, op, on);
      KidIn(s.items, np, nn);
      ClosedAt(s.items, op, on);
      ClosedAt(s.items, np, nn);
      if src.ino == dest.ino { return Ok(()); }
      if src.ft.Directory? != dest.ft.Directory? {
        return if src.ft.Directory? then Err(ENOTDIR) else Err(EISDIR);
      }
      if dest.ft.Directory? {
        var entries := ParseDir(dest.ino);
        var extra := AnyChild(if entries.Ok? then entries.value else []);
        if extra { return Err(ENOTEMPTY); }
      }
      r := UnlinkName(np, nn, dest.ft.Directory?);
      Cleared(s, S(), op, on, np, nn);
      MoveEntry(op, on, np, nn, src);
    }

    // --- open and close ---------------------------------------------------------------------------------

    /** One more handle. */
    method IncOpen(ino: nat)
      modifies `openCount
      ensures S() == AfterOpen(old(S()), ino)
    {
      openCount := openCount[ino := (if ino in openCount then openCount[ino] else 0) + 1];
    }

    /** One handle less; the last one drops an inode without names. */
    method DecOpen(ino: nat)
      requires Valid()
      modifies `nodes, `freeInodes, `orphans, `openCount
      ensures Valid() && S() == Step(old(S()), writable, Close(ino))
    {
      hide Inv, Safe, Closed, KidsOf, AllDistinct, Distinct, Step;
      StepInv(S(), writable, Close(ino));
      OthersSafe(S(), writable, Close(ino));
      InvClosed(S());
      StepOutcome(S(), writable, Close(ino));
      if ino in openCount {
        var c := if openCount[ino] == 0 then 0 else openCount[ino] - 1;
        openCount := openCount[ino := c];
        if c == 0 {
          openCount := openCount - {ino};
          assert openCount == old(openCount) - {ino};
          if ino in orphans {
            orphans := orphans - {ino};
            var inode := GetInode(ino);
            var nlink := if inode.Ok? then inode.value.nlink else 0;
            if nlink == 0 { DropInode(ino); }
          }
        }
      }
    }
  }

  /** What becomes of a rename to another name, up to the case that the destination exists. */
  lemma RenameOutcome(s: State, op: nat, on: Name, np: nat, nn: Name, src: Target)
    requires Closed(s.items) && ValidateName(on).Ok? && ValidateName(nn).Ok? && (op != np || on != nn)
    requires AdmitDir(s.items, op).Ok? && np in s.items && Kid(s.items, op, on) == Some(src) && src.ino in s.items
    ensures var r := Op.Rename(op, on, np, nn); !DirAt(s.items, np) ==> Admit(s, true, r) == Err(ENOTDIR) && Step(s, true, r) == s
    ensures var r := Op.Rename(op, on, np, nn);
      DirAt(s.items, np) && src.ft.Directory? && Reaches(s.items, np, src.ino, ANCESTOR_GUARD) ==> Admit(s, true, r) == Err(EINVAL) && Step(s, true, r) == s
    ensures var r := Op.Rename(op, on, np, nn);
      DirAt(s.items, np) && !(src.ft.Directory? && Reaches(s.items, np, src.ino, ANCESTOR_GUARD)) && Kid(s.items, np, nn).None? ==>
        Admit(s, true, r) == Ok(()) && Step(s, true, r) == s.(items := Moved(s.items, op, on, np, nn))
  {
    hide Closed, Reaches, Moved;
  }

  lemma RenameSelf(s: State, op: nat, on: Name)
    requires op in s.items && on in s.items[op].kids && s.items[op].kids[on].ino in s.items
    ensures AfterRename(s, op, on, op, on) == s
  {
  }

  lemma StructuredOf(s: State)
    requires Inv(s)
    ensures Structured(s.items)
  {
  }

  lemma {:induction false} StuckReaches(items: Items, c: nat, a: nat, n: nat)
    requires Parent(items, c) == c
    ensures Reaches(items, c, a, n) <==> c == a
    decreases n
  {
    if n > 0 { StuckReaches(items, c, a, n - 1); }
  }

  lemma ParentIsDir(items: Items, d: nat)
    requires Structured(items) && DirAt(items, d)
    ensures DirAt(items, Parent(items, d)) && Kid(items, d, DOTDOT).Some?
  {
    assert TypeAt(items, Kid(items, d, DOTDOT).value.ino) == Some(Directory);
  }

  /** Once the destination is unlinked, the source entry can move to its name. */
  lemma Cleared(s: State, t: State, op: nat, on: Name, np: nat, nn: Name)
    requires Inv(s) && AdmitRename(s.items, true, op, on, np, nn).Ok? && (op != np || on != nn)
    requires nn in s.items[np].kids && s.items[np].kids[nn].ino in s.items && s.items[np].kids[nn].ino != s.items[op].kids[on].ino
    requires t == AfterUnlink(s, np, nn)
    ensures AdmitDir(t.items, op).Ok? && AdmitCreate(t.items, true, np, nn).Ok?
    ensures on in t.items[op].kids && t.items[op].kids[on] == s.items[op].kids[on] && t.items[op].kids[on].ino in t.items
  {
    hide Structured, Acyclic, Counted, HandlesOk, NumbersOk, AfterUnlink, Kid, Reaches, HasChildren;
    UnlinkStep(s, np, nn);
    ClearedFor(s.items, t.items, op, on, np, nn);
  }

  lemma InvClosed(s: State)
    requires Inv(s)
    ensures Closed(s.items)
  {
  }

  lemma CreateFacts(s: State)
    requires Inv(s)
    ensures Closed(s.items) && NextIno(s) !in s.items
  {
  }

  lemma OthersSafe(s: State, writable: bool, op: Op)
    requires !op.Rename? && !op.Open?
    ensures Safe(s, writable, op)
  {
  }

  lemma NoEntries()
    ensures KidsOf([]) == map[]
  {
  }

  lemma NewItemAbs(items: Items, other: Items, nodes0: map<nat, Node>, nodes1: map<nat, Node>, ino: nat, parent: nat,
          ft: FileType)
    requires items == Abs(nodes0) && other == Abs(nodes1) && ino in nodes1 && ino !in nodes0
    requires nodes1 - {ino} == nodes0 && ItemOf(nodes1[ino]) == NewItem(ino, parent, ft)
    ensures other == items[ino := NewItem(ino, parent, ft)]
  {
    assert nodes1 == nodes0[ino := nodes1[ino]];
    AbsUpdate(nodes0, ino, nodes1[ino]);
  }

  /** What is left to do when the new inode stands: bind its name. */
  lemma CreatedAs(items: Items, mid: Items, ino: nat, parent: nat, name: Name, ft: FileType)
    requires parent in items && ino !in items && ValidateName(name).Ok? && items[parent].IsDir() && name !in items[parent].kids
    requires mid == (if ft.Directory? then MoreLinks(items[ino := NewItem(ino, parent, ft)], parent) else items[ino := NewItem(ino, parent, ft)])
    ensures AdmitCreate(mid, true, parent, name).Ok?
    ensures Bind(mid, parent, name, Target(ino, ft)) == Created(items, ino, parent, name, ft)
  {
  }

  lemma TwoEntries(es: seq<DirEntry>, ino: nat, parent: nat)
    requires es == [DirEntry(ino, Directory, DOT), DirEntry(parent, Directory, DOTDOT)]
    ensures Distinct(es) && KidsOf(es) == map[DOT := Target(ino, Directory), DOTDOT := Target(parent, Directory)]
  {
    assert DOT != DOTDOT;
    assert es[1..] == [DirEntry(parent, Directory, DOTDOT)];
    assert es[1..][1..] == [];
    assert KidsOf(es[1..][1..]) == map[];
  }
}
