/**
  What the namespace invariant means for a caller: how long an inode lives, what a rename changes,
  and the rename that the bounded ancestor search lets through.
*/
module TreeResults {
  import opened Wrappers
  import opened Format
  import opened Tree
  import opened TreeInvariant
  import opened TreeSteps

  // --- handles ---------------------------------------------------------------------------

  /** The handles that are open on an inode. */
  function Handles(s: State, i: nat): nat { if i in s.opens then s.opens[i] else 0 }

  /** What one call makes of `h` handles on `i`: an open adds one, a close takes one away if there is one. */
  function HeldAfter(h: nat, op: Op, i: nat): nat {
    if op == Open(i) then h + 1 else if op == Close(i) && h > 0 then h - 1 else h
  }

  /** The opens of `i` not yet closed, counted on the calls alone. */
  function Held(h: nat, ops: seq<Op>, i: nat): nat
    decreases |ops|
  {
    if ops == [] then h else Held(HeldAfter(h, ops[0], i), ops[1..], i)
  }

  lemma RenameOpens(s: State, op: nat, on: Name, np: nat, nn: Name)
    requires Standing(s.items, op, on, np, nn)
    ensures AfterRename(s, op, on, np, nn).opens == s.opens
  {
    hide Detached, Moved;
  }

  lemma HandlesStep(s: State, writable: bool, op: Op, i: nat)
    requires Inv(s)
    ensures Handles(Step(s, writable, op), i) == HeldAfter(Handles(s, i), op, i)
  {
    hide Structured, Acyclic, Counted, NumbersOk, Created, Linked, Detached, AfterRename, AdmitRename, Kid;
    ClosedOf(s.items);
    if Admit(s, writable, op).Ok? {
      match op
      case Unlink(parent, name, _) => EntryTyped(s.items, parent, name);
      case Rename(od, on, nd, nn) =>
        EntriesStand(s.items, writable, od, on, nd, nn);
        RenameOpens(s, od, on, nd, nn);
      case _ =>
    }
  }

  /** Over any safe run the number of handles on an inode is its opens less its closes. */
  lemma {:induction false} HandlesRun(s: State, writable: bool, ops: seq<Op>, i: nat)
    requires Inv(s) && SafeRun(s, writable, ops)
    ensures Handles(RunAll(s, writable, ops), i) == Held(Handles(s, i), ops, i)
    decreases |ops|
  {
    hide Step, Safe, Inv, Handles, HeldAfter;
    if ops != [] {
      HandlesStep(s, writable, ops[0], i);
      StepInv(s, writable, ops[0]);
      HandlesRun(Step(s, writable, ops[0]), writable, ops[1..], i);
    }
  }

  /** At no point of the calls has `i` been closed as often as it was opened. */
  ghost predicate StaysHeld(h: nat, ops: seq<Op>, i: nat) { forall k: nat :: k <= |ops| ==> Held(h, ops[..k], i) > 0 }

  lemma StaysHeldFrom(h: nat, ops: seq<Op>, i: nat)
    requires StaysHeld(h, ops, i)
    ensures h > 0 && (ops != [] ==> StaysHeld(HeldAfter(h, ops[0], i), ops[1..], i))
  {
    hide HeldAfter;
    assert Held(h, ops[..0], i) == h;
    if ops != [] {
      var next := HeldAfter(h, ops[0], i);
      forall k: nat | k <= |ops[1..]| ensures Held(next, ops[1..][..k], i) > 0 {
        assert ops[..k + 1][1..] == ops[1..][..k] && ops[..k + 1][0] == ops[0];
        assert Held(h, ops[..k + 1], i) > 0;
      }
    }
  }

  // --- lifetimes -------------------------------------------------------------------------

  /** Which inodes exist after a step, and of which type. */
  lemma StepTypes(s: State, writable: bool, op: Op)
    requires Inv(s)
    ensures forall i: nat :: i in s.items && i in Step(s, writable, op).items ==> TypeAt(Step(s, writable, op).items, i) == TypeAt(s.items, i)
    ensures forall d: nat :: DirAt(s.items, d) ==> DirAt(Step(s, writable, op).items, d)
    ensures forall i: nat :: i in Step(s, writable, op).items && i !in s.items ==> op.Create? && i == NextIno(s)
  {
    hide Structured, Acyclic, Counted, Below, Reaches, Parent, Kid, AfterRename, AfterUnlink, Created, Linked,
      NumbersOk;
    ClosedOf(s.items);
    if Admit(s, writable, op).Ok? {
      match op
      case Create(parent, name, ft) =>
        RootIn(s.items);
        FreshIno(s);
        CreatedTypes(s.items, NextIno(s), parent, name, ft);
      case Link(target, parent, name) => LinkedTypes(s.items, target, parent, name);
      case Unlink(parent, name, rmdir) =>
        EntryTyped(s.items, parent, name);
        UnlinkTypes(s, parent, name);
      case Rename(od, on, nd, nn) =>
        EntriesStand(s.items, writable, od, on, nd, nn);
        RenameTypes(s, od, on, nd, nn);
      case Open(ino) =>
      case Close(ino) => CloseTypes(s, ino);
    }
  }

  ghost predicate TypesKept(items: Items, other: Items) {
    && (forall i: nat :: i in items && i in other ==> TypeAt(other, i) == TypeAt(items, i))
    && (forall d: nat :: DirAt(items, d) ==> DirAt(other, d))
    && (forall i: nat :: i in other ==> i in items)
  }

  lemma LinkedTypes(items: Items, target: nat, parent: nat, name: Name)
    requires parent in items && target in items
    ensures TypesKept(items, Linked(items, target, parent, name))
  {
  }

  lemma UnlinkTypes(s: State, p: nat, name: Name)
    requires Inv(s) && p in s.items && Real(name) && name in s.items[p].kids && s.items[p].kids[name].ino in s.items
    ensures TypesKept(s.items, AfterUnlink(s, p, name).items)
  {
    hide Structured, Acyclic, Counted, Parent, Kid, Detached, NumbersOk;
    UnlinkStep(s, p, name);
    DetachedKeeps(s.items, p, name);
    DetachedFacts(s.items, p, name);
  }

  lemma RenameTypes(s: State, op: nat, on: Name, np: nat, nn: Name)
    requires Standing(s.items, op, on, np, nn) && Inv(s) && AdmitRename(s.items, true, op, on, np, nn).Ok?
    ensures TypesKept(s.items, AfterRename(s, op, on, np, nn).items)
  {
    hide Structured, Acyclic, Counted, Parent, Kid, Moved, AfterUnlink, NumbersOk, HandlesOk, Reaches;
    if op == np && on == nn {
    } else if nn !in s.items[np].kids {
      MovedKinds(s.items, op, on, np, nn);
    } else if s.items[np].kids[nn].ino != s.items[op].kids[on].ino {
      var cleared := AfterUnlink(s, np, nn);
      UnlinkStep(s, np, nn);
      UnlinkTypes(s, np, nn);
      ClearedFor(s.items, cleared.items, op, on, np, nn);
      MovedKinds(cleared.items, op, on, np, nn);
    }
  }

  lemma CloseTypes(s: State, ino: nat)
    requires Inv(s)
    ensures TypesKept(s.items, AfterClose(s, ino).items)
  {
    hide Structured, Acyclic, Parent, Kid, NumbersOk, Counted;
    if ino in s.items && DirAt(s.items, ino) { DirHasLinks(s.items, ino); }
  }

  /**
    A file is dropped by the very step that leaves it without a name and without an open handle, and
    by no other; until then its link count is the number of its names.
  */
  lemma DroppedExactly(s: State, writable: bool, op: Op, i: nat)
    requires Inv(s) && Safe(s, writable, op) && i in s.items && !DirAt(s.items, i)
    ensures var t := Step(s, writable, op); i in t.items <==> Named(t.items, i) || HeldAfter(Handles(s, i), op, i) > 0
    ensures var t := Step(s, writable, op); i in t.items ==> t.items[i].nlink == |Names(t.items, i)| && TypeAt(t.items, i) == TypeAt(s.items, i)
  {
    hide Step, Safe;
    var t := Step(s, writable, op);
    StepInv(s, writable, op);
    StepTypes(s, writable, op);
    HandlesStep(s, writable, op, i);
    NamedExists(t.items, i);
    if i in t.items {
      assert TypeAt(t.items, i) == TypeAt(s.items, i);
      FileCount(t.items, i);
    }
  }

  lemma NamedExists(items: Items, i: nat)
    requires Structured(items)
    ensures Named(items, i) ==> i in items
  {
    if Named(items, i) {
      var d: nat, n: Name :| Holds(items, d, n, i);
      assert TypeAt(items, Kid(items, d, n).value.ino).Some?;
    }
  }

  lemma FileCount(items: Items, i: nat)
    requires Counted(items) && i in items && !DirAt(items, i)
    ensures items[i].nlink == |Names(items, i)|
    ensures items[i].nlink == 0 <==> !Named(items, i)
  {
    hide Named, Names;
    assert items[i].nlink == Tally(items, i);
    NamedIff(items, i);
  }

  /** The inode numbers handed out by the run. */
  ghost function HandedOut(s: State, writable: bool, ops: seq<Op>): set<nat>
    requires Inv(s) && SafeRun(s, writable, ops)
    decreases |ops|
  {
    if ops == [] then {}
    else
      StepInv(s, writable, ops[0]);
      (if ops[0].Create? && Admit(s, writable, ops[0]).Ok? then {NextIno(s)} else {})
        + HandedOut(Step(s, writable, ops[0]), writable, ops[1..])
  }

  /**
    As long as an inode has been opened more often than closed it stays, keeps its type, and its number is not given
    to another.
  */
  lemma {:induction false} OpenSurvives(s: State, writable: bool, ops: seq<Op>, i: nat)
    requires Inv(s) && SafeRun(s, writable, ops) && StaysHeld(Handles(s, i), ops, i)
    ensures i in RunAll(s, writable, ops).items && TypeAt(RunAll(s, writable, ops).items, i) == TypeAt(s.items, i)
    ensures i !in HandedOut(s, writable, ops)
    decreases |ops|
  {
    hide Step, Safe, Inv, HandlesOk, NumbersOk, TypeAt, Admit, StaysHeld, HeldAfter, Held, Handles;
    StaysHeldFrom(Handles(s, i), ops, i);
    OpenExists(s, i);
    if ops != [] {
      var t := Step(s, writable, ops[0]);
      HandlesStep(s, writable, ops[0], i);
      StepInv(s, writable, ops[0]);
      StaysHeldFrom(Handles(t, i), ops[1..], i);
      OpenExists(t, i);
      StepTypes(s, writable, ops[0]);
      OpenSurvives(t, writable, ops[1..], i);
    }
  }

  /** An open inode exists, and its number is not the next one to be handed out. */
  lemma OpenExists(s: State, i: nat)
    requires Inv(s) && Handles(s, i) > 0
    ensures i in s.items && i != NextIno(s)
  {
  }

  /**
    A directory stays over any run, whether its name is taken away or not: rmdir reclaims nothing, and the number is
    not given to another inode. Without a name it keeps one link of its own beside those of its subdirectories.
  */
  lemma {:induction false} RemovedDirStays(s: State, writable: bool, ops: seq<Op>, d: nat)
    requires Inv(s) && SafeRun(s, writable, ops) && DirAt(s.items, d)
    ensures var t := RunAll(s, writable, ops);
      && DirAt(t.items, d) && d !in HandedOut(s, writable, ops)
      && (d != ROOT_INO && !Named(t.items, d) ==> t.items[d].nlink == 1 + |Subdirs(t.items[d].kids)|)
    decreases |ops|
  {
    hide Step, Safe, Inv, Named, Subdirs, Admit, DirAt;
    DirExists(s, d);
    if ops == [] {
      NamelessDir(s, d);
    } else {
      var t := Step(s, writable, ops[0]);
      StepInv(s, writable, ops[0]);
      StepTypes(s, writable, ops[0]);
      RemovedDirStays(t, writable, ops[1..], d);
    }
  }

  lemma DirExists(s: State, d: nat)
    requires Inv(s) && DirAt(s.items, d)
    ensures d in s.items && d != NextIno(s)
  {
  }

  lemma NamelessDir(s: State, d: nat)
    requires Inv(s) && DirAt(s.items, d)
    ensures d in s.items && (d != ROOT_INO && !Named(s.items, d) ==> s.items[d].nlink == 1 + |Subdirs(s.items[d].kids)|)
  {
    hide Named, Subdirs;
    assert s.items[d].nlink == Tally(s.items, d);
  }

  // --- what a rename changes ---------------------------------------------------------------------

  /** The entry edits of a move, and nothing else. */
  ghost predicate OnlyMoved(items: Items, other: Items, op: nat, on: Name, np: nat, nn: Name, src: Target) {
    && Kid(other, np, nn) == Some(src)
    && (forall d: nat, n: Name :: !(d == np && n == nn) && !(d == op && n == on) && !(d == src.ino && n == DOTDOT) ==> Kid(other, d, n) == Kid(items, d, n))
    && (op != np || on != nn ==> Kid(other, op, on).None?)
    && Kid(other, src.ino, DOTDOT) == (if src.ft.Directory? then Some(Target(np, Directory)) else Kid(items, src.ino, DOTDOT))
  }

  /** One entry after a move. */
  lemma MovedEntry(items: Items, op: nat, on: Name, np: nat, nn: Name, d: nat, n: Name)
    requires op in items && np in items && Real(on) && Real(nn) && on in items[op].kids && items[op].kids[on].ino in items
    requires items[op].kids[on].ft.Directory? && op != np ==> Kid(items, items[op].kids[on].ino, DOTDOT).Some?
    ensures var src := items[op].kids[on];
      Kid(Moved(items, op, on, np, nn), d, n) ==
        if d == np && n == nn then Some(src)
        else if d == op && n == on then None
        else if src.ft.Directory? && op != np && d == src.ino && n == DOTDOT then Some(Kid(items, src.ino, DOTDOT).value.(ino := np))
        else Kid(items, d, n)
  {
  }

  lemma MovedEntries(items: Items, op: nat, on: Name, np: nat, nn: Name)
    requires Structured(items) && Acyclic(items) && op in items && np in items && Real(on) && Real(nn) && on in items[op].kids
    requires nn !in items[np].kids && items[op].kids[on].ino in items
    requires items[op].kids[on].ft.Directory? ==> items[op].kids[on].ino != np
    ensures OnlyMoved(items, Moved(items, op, on, np, nn), op, on, np, nn, items[op].kids[on])
  {
    hide Structured, Acyclic, Parent, Moved, Kid;
    var src := items[op].kids[on];
    EntryTyped(items, op, on);
    if src.ft.Directory? {
      ChildApart(items, op, on);
      DotsOf(items, src.ino);
      ParentEntry(items, src.ino);
    } else {
      NoKids(items, src.ino);
    }
    var other := Moved(items, op, on, np, nn);
    forall d: nat, n: Name
      ensures Kid(other, d, n) ==
        if d == np && n == nn then Some(src)
        else if d == op && n == on then None
        else if src.ft.Directory? && op != np && d == src.ino && n == DOTDOT then Some(Kid(items, src.ino, DOTDOT).value.(ino := np))
        else Kid(items, d, n)
    {
      MovedEntry(items, op, on, np, nn, d, n);
    }
  }

  lemma ParentEntry(items: Items, d: nat)
    requires Structured(items) && DirAt(items, d)
    ensures Kid(items, d, DOTDOT) == Some(Target(Parent(items, d), Directory))
  {
  }

  /**
    A rename that moves something gives the source inode the new name, takes the old one away, points
    a moved directory's `..` at the new parent, and changes no other entry.
  */
  lemma RenameMoves(s: State, op: nat, on: Name, np: nat, nn: Name, src: Target)
    requires Kid(s.items, op, on) == Some(src)
    requires Inv(s) && Admit(s, true, Rename(op, on, np, nn)).Ok? && (op != np || on != nn)
    requires Kid(s.items, np, nn).None? || Kid(s.items, np, nn).value.ino != src.ino
    ensures OnlyMoved(s.items, Step(s, true, Rename(op, on, np, nn)).items, op, on, np, nn, src)
  {
    hide Structured, Acyclic, Counted, Parent, Moved, AfterUnlink, NumbersOk, HandlesOk, Reaches, OnlyMoved, Kid;
    ClosedOf(s.items);
    KidIn(s.items, op, on);
    KidIn(s.items, np, nn);
    EntryTyped(s.items, op, on);
    NotItself(s.items, op, on, np);
    NotSelf(s.items, op, on, np);
    if nn !in s.items[np].kids {
      MovedEntries(s.items, op, on, np, nn);
    } else {
      EntryTyped(s.items, np, nn);
      var cleared := AfterUnlink(s, np, nn);
      UnlinkStep(s, np, nn);
      ClearedFor(s.items, cleared.items, op, on, np, nn);
      MovedEntries(cleared.items, op, on, np, nn);
      MovedOverCleared(s.items, cleared.items, Moved(cleared.items, op, on, np, nn), op, on, np, nn, s.items[op].kids[on]);
    }
  }

  lemma NotSelf(items: Items, op: nat, on: Name, np: nat)
    requires Structured(items) && Acyclic(items) && op in items && on in items[op].kids && Real(on)
    requires MovesDir(items, op, on, np) ==> items[op].kids[on].ino != np
    ensures items[op].kids[on].ft.Directory? ==> items[op].kids[on].ino != np
  {
    KidIn(items, op, on);
    if items[op].kids[on].ft.Directory? { ChildApart(items, op, on); }
  }

  lemma MovedOverCleared(items: Items, cleared: Items, other: Items, op: nat, on: Name, np: nat, nn: Name, src: Target)
    requires forall d: nat, n: Name :: Kid(cleared, d, n) == if d == np && n == nn then None else Kid(items, d, n)
    requires OnlyMoved(cleared, other, op, on, np, nn, src) && Real(nn)
    ensures OnlyMoved(items, other, op, on, np, nn, src)
  {
    hide Kid;
  }

  // --- the rename that slips through ------------------------------------------------------------

  const A: Name := [97]
  const B: Name := [98]

  /** Directories 1 to `n`, each but the last holding the next under the name "a". */
  function ChainKids(n: nat, i: nat): map<Name, Target> {
    var dots := map[DOT := Target(i, Directory), DOTDOT := Target(if i <= 1 then 1 else i - 1, Directory)];
    if i < n then dots[A := Target(i + 1, Directory)] else dots
  }

  function Chain(n: nat): Items {
    map i: nat | 1 <= i <= n :: Item(Directory, if i < n then 3 else 2, ChainKids(n, i))
  }

  lemma ChainKid(n: nat, d: nat, name: Name)
    ensures Kid(Chain(n), d, name) ==
      if !(1 <= d <= n) then None
      else if name == DOT then Some(Target(d, Directory))
      else if name == DOTDOT then Some(Target(if d == 1 then 1 else d - 1, Directory))
      else if name == A && d < n then Some(Target(d + 1, Directory)) else None
  {
    assert DOT != DOTDOT && A != DOT && A != DOTDOT;
  }

  lemma ChainStructured(n: nat)
    requires n >= 1
    ensures Structured(Chain(n))
  {
    hide Kid, TypeAt;
    forall d: nat, name: Name ensures Kid(Chain(n), d, name) ==
      if !(1 <= d <= n) then None
      else if name == DOT then Some(Target(d, Directory))
      else if name == DOTDOT then Some(Target(if d == 1 then 1 else d - 1, Directory))
      else if name == A && d < n then Some(Target(d + 1, Directory)) else None
    { ChainKid(n, d, name); }
    forall i: nat ensures TypeAt(Chain(n), i) == if 1 <= i <= n then Some(Directory) else None { ChainType(n, i); }
    assert DOT != DOTDOT;
  }

  lemma ChainType(n: nat, i: nat)
    ensures TypeAt(Chain(n), i) == if 1 <= i <= n then Some(Directory) else None
  {
  }

  lemma ChainCounted(n: nat)
    requires n >= 1
    ensures Counted(Chain(n))
  {
    forall i: nat | i in Chain(n) ensures Chain(n)[i].nlink == Tally(Chain(n), i) {
      hide Subdirs, Kid, Named;
      if i > 1 {
        ChainKid(n, i - 1, A);
        assert Real(A) && Holds(Chain(n), i - 1, A, i);
        HoldsNamed(Chain(n), i - 1, A, i);
      }
      ChainSubdirs(n, i);
    }
  }

  lemma HoldsNamed(items: Items, d: nat, name: Name, i: nat)
    requires Holds(items, d, name, i)
    ensures Named(items, i)
  {
  }

  lemma ChainSubdirs(n: nat, i: nat)
    requires 1 <= i <= n
    ensures Subdirs(ChainKids(n, i)) == if i < n then {A} else {}
  {
    assert Real(A);
  }

  lemma {:induction false} ChainUp(n: nat, d: nat, k: nat)
    requires 1 <= d <= n
    ensures Up(Chain(n), d, k) == if k < d then d - k else 1
    decreases k
  {
    if k > 0 {
      ChainKid(n, d, DOTDOT);
      ChainUp(n, Parent(Chain(n), d), k - 1);
    }
  }

  lemma ChainInv(n: nat)
    requires n >= 1
    ensures Inv(State(Chain(n), map[], {}, [], n + 1))
  {
    hide Structured, Counted;
    ChainStructured(n);
    ChainCounted(n);
    forall d: nat | d in Chain(n) ensures Below(Chain(n), d, ROOT_INO) {
      ChainUp(n, d, d - 1);
      assert Up(Chain(n), d, d - 1) == ROOT_INO;
    }
  }

  lemma SearchGivesUp()
    ensures !Reaches(Chain(4099), 4099, 2, ANCESTOR_GUARD)
  {
    if Reaches(Chain(4099), 4099, 2, ANCESTOR_GUARD) {
      ReachesIff(Chain(4099), 4099, 2, ANCESTOR_GUARD);
      var k: nat :| k <= ANCESTOR_GUARD && Up(Chain(4099), 4099, k) == 2;
      ChainUp(4099, 4099, k);
      assert false;
    }
  }

  lemma DeepAdmitted()
    ensures AdmitRename(Chain(4099), true, 1, A, 4099, B).Ok?
    ensures 1 in Chain(4099) && 2 in Chain(4099) && 4099 in Chain(4099)
    ensures A in Chain(4099)[1].kids && Chain(4099)[1].kids[A] == Target(2, Directory) && B !in Chain(4099)[4099].kids
  {
    hide Reaches, Kid;
    SearchGivesUp();
    ChainKid(4099, 1, A);
    ChainKid(4099, 4099, B);
    KidIn(Chain(4099), 1, A);
    KidIn(Chain(4099), 4099, B);
    assert A != DOT && B != DOT && A != DOTDOT && B != DOTDOT;
  }

  /**
    Renaming directory 2 under directory 4099, more than 4096 levels further down, is admitted: the
    search for an ancestor gives up, and the two are cut off from the root.
  */
  lemma DeepRename()
    ensures var s := State(Chain(4099), map[], {}, [], 4100);
      Inv(s) && Admit(s, true, Rename(1, A, 4099, B)).Ok? && !Acyclic(Step(s, true, Rename(1, A, 4099, B)).items)
  {
    hide Structured, Counted, Acyclic, Reaches, Moved, Kid, Below, AdmitRename, Chain, ChainKids, AfterRename;
    var s := State(Chain(4099), map[], {}, [], 4100);
    ChainInv(4099);
    ClosedOf(s.items);
    DeepAdmitted();
    ChainUp(4099, 4099, 4097);
    BelowAt(s.items, 4099, 2, 4097);
    KidIn(s.items, 1, A);
    RenameStep(s, 1, A, 4099, B);
  }

  lemma BelowAt(items: Items, d: nat, a: nat, n: nat)
    requires Up(items, d, n) == a
    ensures Below(items, d, a)
  {
  }
}
