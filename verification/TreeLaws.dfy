/**
  What each namespace call does and what it refuses, said in terms of entries, types and names alone:
  the effects and the errors a caller of src/inner.rs can count on.
*/
module TreeLaws {
  import opened Wrappers
  import opened Format
  import opened Tree
  import opened TreeInvariant
  import opened TreeSteps
  import opened TreeResults

  /** Directory `d` has an entry besides `.` and `..`. */
  ghost predicate Occupied(items: Items, d: nat) { exists n: Name :: Real(n) && Kid(items, d, n).Some? }

  lemma OccupiedIff(items: Items, d: nat)
    requires d in items
    ensures HasChildren(items[d].kids) <==> Occupied(items, d)
  {
    if n :| n in items[d].kids && Real(n) { assert Kid(items, d, n).Some?; }
    if n: Name :| Real(n) && Kid(items, d, n).Some? { assert n in items[d].kids; }
  }

  /** Every entry is the same but the one named `name` in `p`, and those of inode `i`. */
  ghost predicate SameBut(items: Items, other: Items, p: nat, name: Name, i: nat) {
    && (forall d: nat, n: Name :: d != i && (d != p || n != name) ==> Kid(other, d, n) == Kid(items, d, n))
    && (forall j: nat :: j != i ==> TypeAt(other, j) == TypeAt(items, j))
  }

  // --- refusals ----------------------------------------------------------------------------

  /** Errors that come before an entry is looked at: a read-only file system, and names no entry can have. */
  lemma NamesRefused(s: State, writable: bool, op: Op, name: Name)
    requires match op
      case Create(_, n, _) => name == n
      case Link(_, _, n) => name == n
      case Unlink(_, n, _) => name == n
      case Rename(_, on, _, nn) => name == nn && ValidateName(on).Ok?
      case _ => false
    ensures !writable ==> Admit(s, writable, op) == Err(EROFS)
    ensures writable && ValidateName(name).Err? ==> Admit(s, writable, op) == Err(ValidateName(name).error)
  {
  }

  /** A new name is refused exactly where there is no such directory or the name is taken. */
  lemma CreateRefused(s: State, p: nat, name: Name, ft: FileType)
    requires ValidateName(name).Ok?
    ensures var r := Admit(s, true, Create(p, name, ft));
      && (r == Err(EIO) <==> TypeAt(s.items, p) == None)
      && (r == Err(ENOTDIR) <==> TypeAt(s.items, p).Some? && !DirAt(s.items, p))
      && (r == Err(EEXIST) <==> DirAt(s.items, p) && Kid(s.items, p, name).Some?)
      && (r == Ok(()) <==> DirAt(s.items, p) && Kid(s.items, p, name) == None)
  {
  }

  /** A link is refused in the same places, and to a directory always. */
  lemma LinkRefused(s: State, target: nat, p: nat, name: Name)
    requires ValidateName(name).Ok?
    ensures var r := Admit(s, true, Link(target, p, name));
      && (r == Err(EIO) <==> TypeAt(s.items, target) == None || (!DirAt(s.items, target) && TypeAt(s.items, p) == None))
      && (r == Err(EPERM) <==> DirAt(s.items, target))
      && (r == Err(ENOTDIR) <==>
            TypeAt(s.items, target).Some? && !DirAt(s.items, target) && TypeAt(s.items, p).Some? && !DirAt(s.items, p))
      && (r == Err(EEXIST) <==>
            TypeAt(s.items, target).Some? && !DirAt(s.items, target) && DirAt(s.items, p) && Kid(s.items, p, name).Some?)
      && (r == Ok(()) <==>
            TypeAt(s.items, target).Some? && !DirAt(s.items, target) && DirAt(s.items, p) && Kid(s.items, p, name) == None)
  {
  }

  /**
    A name is taken away unless it is not there, the call is for the other kind of inode, or it is the name of a
    directory with entries.
  */
  lemma UnlinkRefused(s: State, p: nat, name: Name, rmdir: bool)
    requires Closed(s.items) && DirAt(s.items, p) && ValidateName(name).Ok?
    ensures var r := Admit(s, true, Unlink(p, name, rmdir)); var t := Kid(s.items, p, name);
      && (r == Err(ENOENT) <==> t == None)
      && (r == Err(ENOTDIR) <==> rmdir && t.Some? && !t.value.ft.Directory?)
      && (r == Err(EISDIR) <==> !rmdir && t.Some? && t.value.ft.Directory?)
      && (r == Err(ENOTEMPTY) <==> rmdir && t.Some? && t.value.ft.Directory? && Occupied(s.items, t.value.ino))
      && (r == Ok(()) <==> t.Some? && (if rmdir then t.value.ft.Directory? && !Occupied(s.items, t.value.ino) else !t.value.ft.Directory?))
  {
    var t := Kid(s.items, p, name);
    if t.Some? {
      assert TypeAt(s.items, t.value.ino) == Some(t.value.ft);
      OccupiedIff(s.items, t.value.ino);
    }
    hide HasChildren, Occupied, Closed;
  }

  /** Where there is nothing to take a name from. */
  lemma UnlinkNowhere(s: State, p: nat, name: Name, rmdir: bool)
    requires !DirAt(s.items, p) && ValidateName(name).Ok?
    ensures Admit(s, true, Unlink(p, name, rmdir)) == if TypeAt(s.items, p) == None then Err(EIO) else Err(ENOTDIR)
  {
  }

  /** One of the two directories of a rename, or the source entry, is not there. */
  lemma RenameNowhere(s: State, op: nat, on: Name, np: nat, nn: Name)
    requires ValidateName(on).Ok? && ValidateName(nn).Ok? && (op != np || on != nn)
    ensures var r := Admit(s, true, Rename(op, on, np, nn));
      && (TypeAt(s.items, op) == None || TypeAt(s.items, np) == None ==> r == Err(EIO))
      && (TypeAt(s.items, op).Some? && TypeAt(s.items, np).Some? && !DirAt(s.items, op) ==> r == Err(ENOTDIR))
      && (DirAt(s.items, op) && TypeAt(s.items, np).Some? && Kid(s.items, op, on) == None ==> r == Err(ENOENT))
      && (DirAt(s.items, op) && TypeAt(s.items, np).Some? && Kid(s.items, op, on).Some? && !DirAt(s.items, np) ==> r == Err(ENOTDIR))
  {
  }

  /** Directory `d` is `np` or among the 4096 directories above it. */
  ghost predicate AboveWithin(items: Items, np: nat, d: nat) { exists k: nat :: k <= 4096 && Up(items, np, k) == d }

  lemma AboveIff(items: Items, np: nat, d: nat)
    ensures Reaches(items, np, d, ANCESTOR_GUARD) <==> AboveWithin(items, np, d)
  {
    var n := ANCESTOR_GUARD;
    ReachesIff(items, np, d, n);
    if k: nat :| k <= 4096 && Up(items, np, k) == d {
      assert AboveWithin(items, np, d);
      assert k <= n && Up(items, np, k) == d;
      assert exists k: nat :: k <= n && Up(items, np, k) == d;
      assert Reaches(items, np, d, n);
    } else {
      forall k: nat | k <= n ensures Up(items, np, k) != d { assert k <= 4096; }
    }
  }

  /**
    A rename between two directories is refused exactly when a directory would go below itself, or when the
    destination is another inode that is of the other kind, or a directory with entries.
  */
  lemma RenameRefused(s: State, op: nat, on: Name, np: nat, nn: Name, src: Target)
    requires Closed(s.items) && DirAt(s.items, op) && DirAt(s.items, np) && Kid(s.items, op, on) == Some(src)
    requires ValidateName(on).Ok? && ValidateName(nn).Ok? && (op != np || on != nn)
    ensures var r := Admit(s, true, Rename(op, on, np, nn)); var dest := Kid(s.items, np, nn);
      var below := src.ft.Directory? && AboveWithin(s.items, np, src.ino);
      var clash := !below && dest.Some? && dest.value.ino != src.ino;
      && (r == Err(EINVAL) <==> below)
      && (r == Err(ENOTDIR) <==> clash && src.ft.Directory? && !dest.value.ft.Directory?)
      && (r == Err(EISDIR) <==> clash && !src.ft.Directory? && dest.value.ft.Directory?)
      && (r == Err(ENOTEMPTY) <==> clash && src.ft.Directory? && dest.value.ft.Directory? && Occupied(s.items, dest.value.ino))
      && (r == Ok(()) <==> !below && (clash ==>
            src.ft.Directory? == dest.value.ft.Directory? && (src.ft.Directory? ==> !Occupied(s.items, dest.value.ino))))
  {
    var dest := Kid(s.items, np, nn);
    if dest.Some? {
      assert TypeAt(s.items, dest.value.ino) == Some(dest.value.ft);
      OccupiedIff(s.items, dest.value.ino);
    }
    AboveIff(s.items, np, src.ino);
    hide HasChildren, Occupied, Closed, Reaches, AboveWithin;
  }

  // --- effects -----------------------------------------------------------------------------

  /** A new inode, not there before, under the new name and no other, with its own `.` and `..` if it is a directory. */
  lemma CreateMakes(s: State, p: nat, name: Name, ft: FileType)
    requires Inv(s) && Admit(s, true, Create(p, name, ft)).Ok?
    ensures var t, i := Step(s, true, Create(p, name, ft)), NextIno(s);
      && TypeAt(s.items, i) == None && TypeAt(t.items, i) == Some(ft)
      && Kid(t.items, p, name) == Some(Target(i, ft)) && SameBut(s.items, t.items, p, name, i)
      && (forall n: Name :: Kid(t.items, i, n) ==
            if ft.Directory? && n == DOT then Some(Target(i, Directory))
            else if ft.Directory? && n == DOTDOT then Some(Target(p, Directory)) else None)
      && Names(t.items, i) == {(p, name)} && t.opens == s.opens && t.orphans == s.orphans
  {
    var t, i := Step(s, true, Create(p, name, ft)), NextIno(s);
    hide Structured, Counted, Acyclic, HandlesOk, Step, Admit, Created, Kid;
    RootIn(s.items);
    FreshIno(s);
    ClosedOf(s.items);
    StepOutcome(s, true, Create(p, name, ft));
    KidIn(s.items, p, name);
    CreatedEntries(s.items, i, p, name, ft);
    OnlyName(s.items, t.items, p, name, i);
  }

  lemma CreatedEntries(items: Items, i: nat, p: nat, name: Name, ft: FileType)
    requires DirAt(items, p) && i !in items && Real(name) && Kid(items, p, name) == None
    ensures var other := Created(items, i, p, name, ft);
      && TypeAt(other, i) == Some(ft) && Kid(other, p, name) == Some(Target(i, ft)) && SameBut(items, other, p, name, i)
      && forall n: Name :: Kid(other, i, n) ==
           if ft.Directory? && n == DOT then Some(Target(i, Directory))
           else if ft.Directory? && n == DOTDOT then Some(Target(p, Directory)) else None
  {
    assert DOT != DOTDOT;
  }

  /** The new name is the only one: no entry led to the number before. */
  lemma OnlyName(items: Items, other: Items, p: nat, name: Name, i: nat)
    requires Closed(items) && TypeAt(items, i) == None && Real(name) && SameBut(items, other, p, name, i) && p != i
    requires Kid(other, p, name).Some? && Kid(other, p, name).value.ino == i
    requires forall n: Name :: Real(n) ==> Kid(other, i, n) == None
    ensures Names(other, i) == {(p, name)}
  {
    hide Kid, TypeAt, Names;
    forall d: nat, n: Name ensures Holds(other, d, n, i) <==> d == p && n == name {
      if d != i && (d != p || n != name) { assert !Holds(items, d, n, i); }
    }
    forall x: (nat, Name) ensures x in Names(other, i) <==> x == (p, name) { InNames(other, x.0, x.1, i); }
  }

  lemma TypeIs(items: Items, i: nat)
    requires i in items
    ensures TypeAt(items, i) == Some(items[i].ft)
  {
  }

  /** One more name for the target, and no other entry touched. */
  lemma LinkMakes(s: State, target: nat, p: nat, name: Name)
    requires Inv(s) && Admit(s, true, Link(target, p, name)).Ok?
    ensures var t := Step(s, true, Link(target, p, name));
      && TypeAt(s.items, target).Some?
      && Kid(s.items, p, name) == None && Kid(t.items, p, name) == Some(Target(target, TypeAt(s.items, target).value))
      && OneEntry(s.items, t.items, p, name, Kid(t.items, p, name))
      && Names(t.items, target) == Names(s.items, target) + {(p, name)} && (p, name) !in Names(s.items, target)
      && t.opens == s.opens && t.orphans == s.orphans && NextIno(t) == NextIno(s)
  {
    var t := Step(s, true, Link(target, p, name));
    hide Structured, Counted, Acyclic, HandlesOk, NumbersOk, Step, Admit, Kid, Names, TypeAt;
    ClosedOf(s.items);
    StepOutcome(s, true, Link(target, p, name));
    KidIn(s.items, p, name);
    TypeIs(s.items, target);
    InNames(s.items, p, name, target);
    var goal := Target(target, s.items[target].ft);
    var bound := Bind(s.items, p, name, goal);
    BindFacts(s.items, p, name, goal);
    LinksFacts(bound, target);
    NamesAfter(s.items, t.items, p, name, Some(goal), target);
  }

  /** The name is gone, and no other entry touched. */
  lemma UnlinkTakes(s: State, p: nat, name: Name, rmdir: bool, gone: Target)
    requires Inv(s) && Admit(s, true, Unlink(p, name, rmdir)).Ok? && Kid(s.items, p, name) == Some(gone)
    ensures var t := Step(s, true, Unlink(p, name, rmdir));
      && (forall d: nat, n: Name :: Kid(t.items, d, n) == if d == p && n == name then None else Kid(s.items, d, n))
      && (forall j: nat :: j != gone.ino || DirAt(s.items, gone.ino) ==> TypeAt(t.items, j) == TypeAt(s.items, j))
      && Names(t.items, gone.ino) == Names(s.items, gone.ino) - {(p, name)}
      && t.opens == s.opens
  {
    var t := Step(s, true, Unlink(p, name, rmdir));
    hide Structured, Counted, Acyclic, HandlesOk, NumbersOk, Step, Admit, Kid, Names, AfterUnlink, Parent, HasChildren, TypeAt;
    ClosedOf(s.items);
    StepOutcome(s, true, Unlink(p, name, rmdir));
    KidIn(s.items, p, name);
    UnlinkStep(s, p, name);
    NamesTaken(s.items, t.items, p, name, gone.ino);
    UnlinkOpens(s, p, name);
  }

  lemma UnlinkOpens(s: State, p: nat, name: Name)
    requires p in s.items && name in s.items[p].kids && s.items[p].kids[name].ino in s.items
    ensures AfterUnlink(s, p, name).opens == s.opens
  {
    hide Detached;
  }

  lemma NamesTaken(items: Items, other: Items, p: nat, name: Name, i: nat)
    requires forall d: nat, n: Name :: Kid(other, d, n) == if d == p && n == name then None else Kid(items, d, n)
    ensures Names(other, i) == Names(items, i) - {(p, name)}
  {
    hide Kid, Names;
    forall d: nat, n: Name ensures Holds(other, d, n, i) <==> Holds(items, d, n, i) && (d != p || n != name) { }
    forall x: (nat, Name) ensures x in Names(other, i) <==> x in Names(items, i) && x != (p, name) {
      InNames(other, x.0, x.1, i);
      InNames(items, x.0, x.1, i);
    }
  }

  /** Renaming an entry to itself, or to another name of the same inode, changes nothing. */
  lemma RenameStays(s: State, op: nat, on: Name, np: nat, nn: Name)
    requires Inv(s) && Admit(s, true, Rename(op, on, np, nn)).Ok?
    requires Kid(s.items, op, on).Some? && Kid(s.items, np, nn).Some?
    requires Kid(s.items, np, nn).value.ino == Kid(s.items, op, on).value.ino
    ensures Step(s, true, Rename(op, on, np, nn)) == s
  {
    hide Structured, Acyclic, Counted, Moved, AfterUnlink, Reaches, HasChildren;
    ClosedOf(s.items);
  }

  /** A rename that replaces nothing, or replaces an inode, leaves every name it does not concern. */
  lemma RenameNames(s: State, op: nat, on: Name, np: nat, nn: Name, src: Target, d: nat)
    requires Inv(s) && Admit(s, true, Rename(op, on, np, nn)).Ok? && Kid(s.items, op, on) == Some(src)
    requires Named(s.items, d) && !Named(Step(s, true, Rename(op, on, np, nn)).items, d)
    ensures Kid(s.items, np, nn).Some? && Kid(s.items, np, nn).value.ino == d != src.ino && (op != np || on != nn)
  {
    hide Structured, Counted, Acyclic, HandlesOk, NumbersOk, Step, Admit, Kid, Parent;
    var t := Step(s, true, Rename(op, on, np, nn));
    var p: nat, n: Name :| Holds(s.items, p, n, d);
    if op == np && on == nn {
      RenameStays(s, op, on, np, nn);
    } else if Kid(s.items, np, nn).Some? && Kid(s.items, np, nn).value.ino == src.ino {
      RenameStays(s, op, on, np, nn);
    } else {
      RenameMoves(s, op, on, np, nn, src);
      NamesReal(s, op, on, np, nn);
      assert !Holds(t.items, np, nn, d) && !Holds(t.items, p, n, d);
    }
  }

  lemma NamesReal(s: State, op: nat, on: Name, np: nat, nn: Name)
    requires Admit(s, true, Rename(op, on, np, nn)).Ok?
    ensures Real(on) && Real(nn)
  {
  }

  lemma AdmittedWritable(s: State, writable: bool, op: Op)
    requires Admit(s, writable, op).Ok? && !op.Open? && !op.Close?
    ensures writable
  {
  }

  /** Only unlinks and renames take entries away. */
  lemma EntriesKept(s: State, writable: bool, op: Op)
    requires Inv(s) && !op.Unlink? && !op.Rename?
    ensures forall d: nat, n: Name :: Kid(s.items, d, n).Some? ==> Kid(Step(s, writable, op).items, d, n) == Kid(s.items, d, n)
  {
    hide Structured, Counted, Acyclic, HandlesOk, NumbersOk, Step, Admit, Kid, AfterCreate, AfterLink, TypeAt, Names;
    ClosedOf(s.items);
    StepOutcome(s, writable, op);
    if Admit(s, writable, op).Ok? {
      if op.Create? || op.Link? { AdmittedWritable(s, writable, op); }
      match op
      case Create(p, name, ft) =>
        CreateMakes(s, p, name, ft);
        CreateFree(s, p, name, ft);
        NoEntries(s.items, NextIno(s));
      case Link(target, p, name) => LinkMakes(s, target, p, name);
      case Close(ino) => CloseEntries(s, ino);
      case Open(_) =>
    }
  }

  lemma CreateFree(s: State, p: nat, name: Name, ft: FileType)
    requires Admit(s, true, Create(p, name, ft)).Ok?
    ensures Kid(s.items, p, name) == None
  {
  }

  lemma NoEntries(items: Items, i: nat)
    requires TypeAt(items, i) == None
    ensures forall n: Name :: Kid(items, i, n) == None
  {
  }

  lemma CloseEntries(s: State, ino: nat)
    requires Inv(s)
    ensures forall d: nat, n: Name :: Kid(AfterClose(s, ino).items, d, n) == Kid(s.items, d, n)
  {
    hide Structured, Counted, Acyclic, NumbersOk, Kid, Parent;
    if ino in s.opens && s.opens[ino] == 1 && ino in s.orphans && s.items[ino].nlink == 0 {
      var gone := s.(opens := s.opens - {ino}, orphans := s.orphans - {ino});
      if DirAt(s.items, ino) { DirHasLinks(s.items, ino); }
      SameNumbers(s, gone);
      DropStep(gone, ino);
    }
  }

  lemma StillNamed(items: Items, other: Items, d: nat)
    requires Named(items, d) && forall p: nat, n: Name :: Kid(items, p, n).Some? ==> Kid(other, p, n) == Kid(items, p, n)
    ensures Named(other, d)
  {
    hide Kid;
    var p: nat, n: Name :| Holds(items, p, n, d);
    assert Holds(other, p, n, d);
  }

  /** No step takes the last name from a directory that has entries. */
  lemma EmptyWhenRemoved(s: State, writable: bool, op: Op, d: nat)
    requires Inv(s) && DirAt(s.items, d) && Named(s.items, d) && !Named(Step(s, writable, op).items, d)
    ensures !Occupied(s.items, d)
  {
    hide Structured, Counted, Acyclic, HandlesOk, NumbersOk, Step, Admit, Named, Occupied, DirAt, Kid, Parent, Names, TypeAt,
      AfterCreate, AfterLink, AfterUnlink, AfterRename, AfterOpen, AfterClose;
    ClosedOf(s.items);
    StepOutcome(s, writable, op);
    if op.Unlink? && Admit(s, writable, op).Ok? {
      AdmittedWritable(s, writable, op);
      EmptyUnlinked(s, op.parent, op.name, op.rmdir, d);
    } else if op.Rename? && Admit(s, writable, op).Ok? {
      AdmittedWritable(s, writable, op);
      EmptyReplaced(s, op.oldParent, op.oldName, op.newParent, op.newName, d);
    } else if !op.Unlink? && !op.Rename? {
      EntriesKept(s, writable, op);
      StillNamed(s.items, Step(s, writable, op).items, d);
    }
  }

  lemma EmptyUnlinked(s: State, p: nat, name: Name, rmdir: bool, d: nat)
    requires Inv(s) && Admit(s, true, Unlink(p, name, rmdir)).Ok? && DirAt(s.items, d)
    requires Named(s.items, d) && !Named(Step(s, true, Unlink(p, name, rmdir)).items, d)
    ensures !Occupied(s.items, d)
  {
    hide Structured, Counted, Acyclic, HandlesOk, NumbersOk, Step, Admit, Occupied, Kid, Names, AfterUnlink, HasChildren;
    ClosedOf(s.items);
    StepOutcome(s, true, Unlink(p, name, rmdir));
    KidIn(s.items, p, name);
    EntryTyped(s.items, p, name);
    UnlinkTakes(s, p, name, rmdir, Kid(s.items, p, name).value);
    UnlinkRefused(s, p, name, rmdir);
    var q: nat, n: Name :| Holds(s.items, q, n, d);
    assert !Holds(Step(s, true, Unlink(p, name, rmdir)).items, q, n, d);
  }

  lemma EmptyReplaced(s: State, op: nat, on: Name, np: nat, nn: Name, d: nat)
    requires Inv(s) && Admit(s, true, Rename(op, on, np, nn)).Ok? && DirAt(s.items, d)
    requires Named(s.items, d) && !Named(Step(s, true, Rename(op, on, np, nn)).items, d)
    ensures !Occupied(s.items, d)
  {
    hide Structured, Counted, Acyclic, HandlesOk, NumbersOk, Step, Admit, Occupied, Kid, Named, AfterRename, HasChildren, Reaches, AboveWithin;
    ClosedOf(s.items);
    StepOutcome(s, true, Rename(op, on, np, nn));
    KidIn(s.items, op, on);
    KidIn(s.items, np, nn);
    var src := Kid(s.items, op, on).value;
    RenameNames(s, op, on, np, nn, src, d);
    EntryTyped(s.items, op, on);
    EntryTyped(s.items, np, nn);
    RenameRefused(s, op, on, np, nn, src);
  }

  lemma UnlinkDrops(s: State, p: nat, name: Name, i: nat)
    requires p in s.items && name in s.items[p].kids && s.items[p].kids[name].ino in s.items
    requires i in s.items && i !in AfterUnlink(s, p, name).items && i >= FIRST_USER_INO
    ensures AfterUnlink(s, p, name).free == s.free + [i]
  {
    hide Detached;
    DetachedFacts(s.items, p, name);
  }

  lemma RenameDrops(s: State, op: nat, on: Name, np: nat, nn: Name, i: nat)
    requires Standing(s.items, op, on, np, nn) && i in s.items && i !in AfterRename(s, op, on, np, nn).items && i >= FIRST_USER_INO
    ensures AfterRename(s, op, on, np, nn).free == s.free + [i]
  {
    hide AfterUnlink, Moved;
    if nn !in s.items[np].kids {
      MovedKinds(s.items, op, on, np, nn);
    } else {
      var cleared := AfterUnlink(s, np, nn);
      if op in cleared.items && np in cleared.items && on in cleared.items[op].kids && cleared.items[op].kids[on].ino in cleared.items {
        MovedKinds(cleared.items, op, on, np, nn);
      }
      UnlinkDrops(s, np, nn, i);
    }
  }

  lemma NumberOf(s: State, i: nat)
    requires NumbersOk(s) && Structured(s.items) && i in s.items && !DirAt(s.items, i)
    ensures i >= FIRST_USER_INO
  {
    RootOk(s.items);
  }

  /** The number of a dropped inode is the next to be handed out. */
  lemma DroppedReused(s: State, writable: bool, op: Op, i: nat)
    requires Inv(s) && i in s.items && i !in Step(s, writable, op).items
    ensures NextIno(Step(s, writable, op)) == i
  {
    hide Structured, Counted, Acyclic, HandlesOk, NumbersOk, Step, Admit, Kid, AfterUnlink, AfterRename, Created, Linked, Standing;
    ClosedOf(s.items);
    StepOutcome(s, writable, op);
    StepTypes(s, writable, op);
    DirKept(s.items, Step(s, writable, op).items, i);
    NumberOf(s, i);
    if Admit(s, writable, op).Ok? {
      match op
      case Create(p, name, ft) =>
        RootIn(s.items);
        FreshIno(s);
        CreatedTypes(s.items, NextIno(s), p, name, ft);
      case Link(target, p, name) => LinkedInodes(s.items, target, p, name);
      case Unlink(p, name, _) => UnlinkDrops(s, p, name, i);
      case Rename(od, on, nd, nn) => RenameDrops(s, od, on, nd, nn, i);
      case _ =>
    }
  }

  lemma LinkedInodes(items: Items, target: nat, p: nat, name: Name)
    requires p in items && target in items
    ensures Linked(items, target, p, name).Keys == items.Keys
  {
  }

  lemma DirKept(items: Items, other: Items, i: nat)
    requires DirAt(items, i) ==> DirAt(other, i)
    ensures i !in other ==> !DirAt(items, i)
  {
  }
}
