/**
  Every namespace operation keeps the invariant, over any run; the one exception is a rename that the
  bounded ancestor search of src/inner.rs does not see through, and its exact condition.
*/
module TreeSteps {
  import opened Wrappers
  import opened Format
  import opened Tree
  import opened TreeInvariant

  // --- `..` chains -----------------------------------------------------------------------

  lemma {:induction false} UpSame(items: Items, other: Items, d: nat, n: nat)
    requires forall e: nat :: Parent(other, e) == Parent(items, e)
    ensures Up(other, d, n) == Up(items, d, n)
    decreases n
  {
    if n > 0 { UpSame(items, other, Parent(items, d), n - 1); }
  }

  lemma {:induction false} UpAdd(items: Items, d: nat, m: nat, n: nat)
    ensures Up(items, d, m + n) == Up(items, Up(items, d, m), n)
    decreases m
  {
    if m > 0 {
      UpAdd(items, Parent(items, d), m - 1, n);
      assert m + n - 1 == m - 1 + n;
    }
  }

  lemma {:induction false} UpStays(items: Items, d: nat, n: nat)
    requires Parent(items, d) == d
    ensures Up(items, d, n) == d
    decreases n
  {
    if n > 0 { UpStays(items, d, n - 1); }
  }

  /** Everything above a directory is a directory. */
  lemma {:induction false} UpIsDir(items: Items, d: nat, n: nat)
    requires Shaped(items) && Closed(items) && DirAt(items, d)
    ensures DirAt(items, Up(items, d, n))
    decreases n
  {
    if n > 0 {
      assert TypeAt(items, Kid(items, d, DOTDOT).value.ino) == Some(Directory);
      UpIsDir(items, Parent(items, d), n - 1);
    }
  }

  /** A directory other than the root is not its own parent. */
  lemma NotOwnParent(items: Items, d: nat)
    requires Acyclic(items) && DirAt(items, d) && d != ROOT_INO
    ensures Parent(items, d) != d
  {
    assert Below(items, d, ROOT_INO);
    var n: nat :| Up(items, d, n) == ROOT_INO;
    if Parent(items, d) == d { UpStays(items, d, n); }
  }

  lemma AcyclicSame(items: Items, other: Items)
    requires Acyclic(items)
    requires forall d: nat :: Parent(other, d) == Parent(items, d)
    requires forall d: nat :: DirAt(other, d) ==> DirAt(items, d)
    ensures Acyclic(other)
  {
    forall d: nat | d in other && other[d].IsDir() ensures Below(other, d, ROOT_INO) {
      assert DirAt(other, d) && DirAt(items, d);
      assert Below(items, d, ROOT_INO);
      var n: nat :| Up(items, d, n) == ROOT_INO;
      UpSame(items, other, d, n);
      assert Up(other, d, n) == ROOT_INO;
    }
  }

  /** `other` differs in the `..` of `s` alone. */
  ghost predicate Rerouted(items: Items, other: Items, s: nat, np: nat) {
    forall d: nat :: Parent(other, d) == if d == s then np else Parent(items, d)
  }

  /** A chain that avoids `s` is not affected. */
  lemma {:induction false} UpAvoids(items: Items, other: Items, s: nat, np: nat, d: nat, n: nat)
    requires Rerouted(items, other, s, np)
    requires forall k: nat :: k < n ==> Up(items, d, k) != s
    ensures Up(other, d, n) == Up(items, d, n)
    decreases n
  {
    if n > 0 {
      assert Up(items, d, 0) != s;
      var p := Parent(items, d);
      forall k: nat | k < n - 1 ensures Up(items, p, k) != s { assert Up(items, d, k + 1) == Up(items, p, k); }
      UpAvoids(items, other, s, np, p, n - 1);
    }
  }

  /** Chains that reached the root still do, by way of `np` if they pass `s`. */
  lemma {:induction false} StillReaches(items: Items, other: Items, s: nat, np: nat, d: nat, n: nat)
    requires Rerouted(items, other, s, np) && Below(other, np, ROOT_INO) && Up(items, d, n) == ROOT_INO
    ensures Below(other, d, ROOT_INO)
    decreases n
  {
    if d == s {
      var m: nat :| Up(other, np, m) == ROOT_INO;
      assert Up(other, d, m + 1) == ROOT_INO;
    } else if n == 0 {
      assert Up(other, d, 0) == ROOT_INO;
    } else {
      var p := Parent(items, d);
      StillReaches(items, other, s, np, p, n - 1);
      var m: nat :| Up(other, p, m) == ROOT_INO;
      assert Up(other, d, m + 1) == ROOT_INO;
    }
  }

  /** Below a directory that moved under itself, every chain runs in a circle. */
  lemma {:induction false} Circle(items: Items, other: Items, s: nat, np: nat, k: nat, j: nat, n: nat)
    requires Rerouted(items, other, s, np) && j <= k && Up(items, np, k) == s
    requires forall i: nat :: i < k ==> Up(items, np, i) != s
    requires forall i: nat :: i <= k ==> Up(items, np, i) != ROOT_INO
    ensures Up(other, Up(items, np, j), n) != ROOT_INO
    decreases n
  {
    if n > 0 {
      var d := Up(items, np, j);
      if j < k {
        UpAdd(items, np, j, 1);
        assert Up(items, d, 1) == Up(items, Parent(items, d), 0);
        Circle(items, other, s, np, k, j + 1, n - 1);
      } else {
        Circle(items, other, s, np, k, 0, n - 1);
      }
    }
  }

  lemma {:induction false} FirstHit(items: Items, d: nat, a: nat, n: nat) returns (k: nat)
    requires Up(items, d, n) == a
    ensures k <= n && Up(items, d, k) == a && forall i: nat :: i < k ==> Up(items, d, i) != a
    decreases n
  {
    if i: nat :| i < n && Up(items, d, i) == a {
      k := FirstHit(items, d, a, i);
    } else {
      k := n;
    }
  }

  /** A directory moved under itself never reaches the root again. */
  lemma CutOff(items: Items, other: Items, s: nat, np: nat)
    requires Rooted(items) && s != ROOT_INO && Below(items, np, s) && Rerouted(items, other, s, np)
    ensures !Below(other, s, ROOT_INO)
  {
    hide Parent;
    var n: nat :| Up(items, np, n) == s;
    var k := FirstHit(items, np, s, n);
    forall i: nat | i <= k ensures Up(items, np, i) != ROOT_INO {
      if Up(items, np, i) == ROOT_INO {
        UpAdd(items, np, i, k - i);
        UpStays(items, ROOT_INO, k - i);
      }
    }
    forall m: nat ensures Up(other, s, m) != ROOT_INO { Circle(items, other, s, np, k, k, m); }
  }

  lemma AllReach(items: Items, other: Items, s: nat, np: nat)
    requires Acyclic(items) && DirAt(items, np) && Rerouted(items, other, s, np) && !Below(items, np, s)
    requires forall d: nat :: DirAt(other, d) == DirAt(items, d)
    ensures Acyclic(other)
  {
    ReachesFrom(items, other, s, np);
    forall d: nat | d in other && other[d].IsDir() ensures Below(other, d, ROOT_INO) {
      assert DirAt(other, d) && DirAt(items, d);
      assert Below(items, d, ROOT_INO);
      var n: nat :| Up(items, d, n) == ROOT_INO;
      StillReaches(items, other, s, np, d, n);
    }
  }

  /** Moving directory `s` under `np` keeps the tree a tree exactly when `np` is not below `s`. */
  lemma RerouteIff(items: Items, other: Items, s: nat, np: nat)
    requires Rooted(items) && Acyclic(items) && DirAt(items, np) && DirAt(items, s) && s != ROOT_INO
    requires Rerouted(items, other, s, np) && forall d: nat :: DirAt(other, d) == DirAt(items, d)
    ensures Acyclic(other) <==> !Below(items, np, s)
  {
    hide Below, Rerouted, Parent;
    if Below(items, np, s) {
      CutOff(items, other, s, np);
      assert DirAt(other, s);
    } else {
      AllReach(items, other, s, np);
    }
  }

  lemma ReachesFrom(items: Items, other: Items, s: nat, np: nat)
    requires Acyclic(items) && DirAt(items, np) && Rerouted(items, other, s, np) && !Below(items, np, s)
    ensures Below(other, np, ROOT_INO)
  {
    assert Below(items, np, ROOT_INO);
    var n: nat :| Up(items, np, n) == ROOT_INO;
    UpAvoids(items, other, s, np, np, n);
    assert Up(other, np, n) == ROOT_INO;
  }

  /** A new directory hangs below its parent. */
  lemma AcyclicAdd(items: Items, other: Items, ino: nat, parent: nat)
    requires Structured(items) && Acyclic(items) && DirAt(items, parent) && !DirAt(items, ino)
    requires Rerouted(items, other, ino, parent) && forall d: nat :: DirAt(other, d) ==> d == ino || DirAt(items, d)
    ensures Acyclic(other)
  {
    forall k: nat ensures Up(items, parent, k) != ino { UpIsDir(items, parent, k); }
    ReachesFrom(items, other, ino, parent);
    forall d: nat | d in other && other[d].IsDir() ensures Below(other, d, ROOT_INO) {
      assert DirAt(other, d);
      if d == ino {
        var m: nat :| Up(other, parent, m) == ROOT_INO;
        assert Up(other, d, m + 1) == ROOT_INO;
      } else {
        assert Below(items, d, ROOT_INO);
        var n: nat :| Up(items, d, n) == ROOT_INO;
        StillReaches(items, other, ino, parent, d, n);
      }
    }
  }

  // --- the items after each operation ------------------------------------------------------

  lemma CreatedKeeps(items: Items, ino: nat, parent: nat, name: Name, ft: FileType)
    requires Structured(items) && Counted(items) && DirAt(items, parent) && Real(name) && name !in items[parent].kids
    requires ino !in items && ino != ROOT_INO
    ensures Structured(Created(items, ino, parent, name, ft)) && Counted(Created(items, ino, parent, name, ft))
    ensures forall d: nat :: Parent(Created(items, ino, parent, name, ft), d) == if d == ino && ft.Directory? then parent else Parent(items, d)
  {
    hide Tally, Structured, Kid, Parent, Named, SameEntries, OneEntry, OneMore;
    var more := items[ino := NewItem(ino, parent, ft)];
    AddFacts(items, ino, parent, ft);
    AddKeeps(items, more, ino, parent, ft);
    TallyAdd(items, ino, parent, ft);
    var counted := if ft.Directory? then MoreLinks(more, parent) else more;
    LinksFacts(more, parent);
    SameEntriesKeep(more, MoreLinks(more, parent));
    TallyLinks(more, parent);
    var t := Target(ino, ft);
    BindFacts(counted, parent, name, t);
    NoEntry(counted, parent, name);
    BindKeeps(counted, Bind(counted, parent, name, t), parent, name, t);
    ParentsStay(counted, Bind(counted, parent, name, t), parent, name, Some(t));
    TallyBind(counted, parent, name, t);
  }

  lemma NoEntry(items: Items, p: nat, name: Name)
    requires p in items && name !in items[p].kids
    ensures !NamesDir(items, p, name) && Kid(items, p, name).None?
  {
  }

  lemma LinkedKeeps(items: Items, target: nat, parent: nat, name: Name)
    requires Structured(items) && Counted(items) && DirAt(items, parent) && Real(name) && name !in items[parent].kids
    requires target in items && !DirAt(items, target)
    ensures Structured(Linked(items, target, parent, name)) && Counted(Linked(items, target, parent, name))
    ensures forall d: nat :: Parent(Linked(items, target, parent, name), d) == Parent(items, d)
  {
    hide Tally, Structured, Kid, Parent, Named, SameEntries, OneEntry;
    var t := Target(target, items[target].ft);
    var bound := Bind(items, parent, name, t);
    BindFacts(items, parent, name, t);
    NoEntry(items, parent, name);
    BindKeeps(items, bound, parent, name, t);
    ParentsStay(items, bound, parent, name, Some(t));
    TallyBind(items, parent, name, t);
    LinksFacts(bound, target);
    SameEntriesKeep(bound, MoreLinks(bound, target));
    TallyLinks(bound, target);
  }

  /** The entry of a directory leads to another directory, which `..` leads back from. */
  lemma ChildApart(items: Items, p: nat, name: Name)
    requires Structured(items) && Acyclic(items) && p in items && Real(name) && name in items[p].kids && items[p].kids[name].ft.Directory?
    ensures items[p].kids[name].ino != p && items[p].kids[name].ino != ROOT_INO && Parent(items, items[p].kids[name].ino) == p
    ensures DirAt(items, items[p].kids[name].ino)
  {
    assert Kid(items, p, name) == Some(items[p].kids[name]);
    assert NamesDir(items, p, name) && InoAt(items, p, name) == items[p].kids[name].ino;
    NotOwnParent(items, items[p].kids[name].ino);
  }

  lemma EntryTyped(items: Items, p: nat, name: Name)
    requires Structured(items) && p in items && name in items[p].kids
    ensures TypeAt(items, items[p].kids[name].ino) == Some(items[p].kids[name].ft) && DirAt(items, p)
  {
    assert Kid(items, p, name) == Some(items[p].kids[name]);
  }

  lemma DetachedEntries(items: Items, p: nat, name: Name)
    requires p in items && name in items[p].kids && items[p].kids[name].ino in items
    ensures forall d: nat, n: Name :: Kid(Detached(items, p, name), d, n) == if d == p && n == name then None else Kid(items, d, n)
    ensures forall i: nat :: TypeAt(Detached(items, p, name), i) == TypeAt(items, i)
  {
  }

  lemma DetachedKeeps(items: Items, p: nat, name: Name)
    requires Structured(items) && Counted(items) && Acyclic(items) && p in items && Real(name) && name in items[p].kids
    requires items[p].kids[name].ino in items
    ensures Structured(Detached(items, p, name)) && Counted(Detached(items, p, name))
    ensures forall d: nat :: Parent(Detached(items, p, name), d) == Parent(items, d)
    ensures forall d: nat, n: Name :: Kid(Detached(items, p, name), d, n) == if d == p && n == name then None else Kid(items, d, n)
    ensures forall i: nat :: TypeAt(Detached(items, p, name), i) == TypeAt(items, i)
  {
    hide Tally, Structured, Parent, Named, Acyclic, Kid, SameEntries, OneEntry, TypeAt, DirAt;
    DetachedEntries(items, p, name);
    var t := items[p].kids[name];
    var cut := Unbind(items, p, name);
    if t.ft.Directory? { ChildApart(items, p, name); }
    UnbindFacts(items, p, name);
    UnbindKeeps(items, cut, p, name);
    ParentsStay(items, cut, p, name, None);
    TallyUnbind(items, p, name);
    var mid := if t.ft.Directory? then FewerLinks(cut, p) else cut;
    LinksFacts(cut, p);
    SameEntriesKeep(cut, FewerLinks(cut, p));
    TallyLinks(cut, p);
    LinksFacts(mid, t.ino);
    SameEntriesKeep(mid, FewerLinks(mid, t.ino));
    TallyLinks(mid, t.ino);
  }

  /** An entry moves within a directory, or a file's entry moves anywhere: no count and no `..` changes. */
  lemma EntryMoves(items: Items, op: nat, on: Name, np: nat, nn: Name)
    requires Structured(items) && Counted(items) && Acyclic(items) && op in items && DirAt(items, np)
    requires Real(on) && Real(nn) && on in items[op].kids && nn !in items[np].kids
    requires items[op].kids[on].ino in items && (items[op].kids[on].ft.Directory? ==> op == np)
    ensures Structured(Moved(items, op, on, np, nn)) && Counted(Moved(items, op, on, np, nn))
    ensures forall d: nat :: Parent(Moved(items, op, on, np, nn), d) == Parent(items, d)
  {
    hide Tally, Structured, Parent, Named, Acyclic, Kid;
    var t := items[op].kids[on];
    var cut := Unbind(items, op, on);
    EntryTyped(items, op, on);
    if t.ft.Directory? { ChildApart(items, op, on); }
    UnbindFacts(items, op, on);
    UnbindKeeps(items, cut, op, on);
    ParentsStay(items, cut, op, on, None);
    if t.ft.Directory? { DirNameless(items, cut, op, on); }
    TallyUnbind(items, op, on);
    BindFacts(cut, np, nn, t);
    NoEntry(cut, np, nn);
    BindKeeps(cut, Bind(cut, np, nn, t), np, nn, t);
    ParentsStay(cut, Bind(cut, np, nn, t), np, nn, Some(t));
    TallyBind(cut, np, nn, t);
  }

  lemma DirNameless(items: Items, cut: Items, p: nat, name: Name)
    requires Structured(items) && p in items && Real(name) && name in items[p].kids && items[p].kids[name].ft.Directory?
    requires OneEntry(items, cut, p, name, None)
    ensures !Named(cut, items[p].kids[name].ino)
  {
    assert NamesDir(items, p, name) && InoAt(items, p, name) == items[p].kids[name].ino;
    UnbindNameless(items, cut, p, name);
  }

  function LinksMoved(n: nat, op: nat, np: nat, k: nat): nat {
    if k == np then n + 1 else if k == op && n > 0 then n - 1 else n
  }

  lemma DirMoveLinks(items: Items, op: nat, on: Name, np: nat, nn: Name)
    requires op in items && np in items && on in items[op].kids && items[op].kids[on].ino in items
    requires items[op].kids[on].ft.Directory? && op != np && items[op].kids[on].ino != np
    ensures Moved(items, op, on, np, nn).Keys == items.Keys
    ensures forall k: nat :: k in items ==> Moved(items, op, on, np, nn)[k].nlink == LinksMoved(items[k].nlink, op, np, k)
  {
  }

  /** A directory moves to another directory: its `..` and the two link counts follow. */
  lemma DirMoves(items: Items, op: nat, on: Name, np: nat, nn: Name)
    requires Structured(items) && Counted(items) && Acyclic(items) && op in items && DirAt(items, np)
    requires Real(on) && Real(nn) && on in items[op].kids && nn !in items[np].kids
    requires items[op].kids[on].ino in items && items[op].kids[on].ft.Directory? && op != np && items[op].kids[on].ino != np
    ensures Structured(Moved(items, op, on, np, nn)) && Counted(Moved(items, op, on, np, nn))
    ensures Rerouted(items, Moved(items, op, on, np, nn), items[op].kids[on].ino, np)
    ensures forall d: nat :: DirAt(Moved(items, op, on, np, nn), d) == DirAt(items, d)
  {
    hide Tally, Structured, Acyclic, Kid, Moved, Rerouted;
    DirMoveKeeps(items, op, on, np, nn);
    DirMoveLinks(items, op, on, np, nn);
  }

  ghost predicate TallyMoved(items: Items, other: Items, op: nat, np: nat, k: nat)
    requires k in items && k in other
  {
    Tally(other, k) + (if k == op then 1 else 0) == Tally(items, k) + (if k == np then 1 else 0)
  }

  /** The items of a move half-way: the old name gone, and `..` of the directory at the new parent. */
  function Repointed(items: Items, op: nat, on: Name, np: nat): Items
    requires op in items && on in items[op].kids && items[op].kids[on].ino in items
  {
    Bind(Unbind(items, op, on), items[op].kids[on].ino, DOTDOT, Target(np, Directory))
  }

  lemma RepointedKeeps(items: Items, op: nat, on: Name, np: nat)
    requires Structured(items) && Acyclic(items) && op in items && DirAt(items, np) && Real(on) && on in items[op].kids
    requires items[op].kids[on].ino in items && items[op].kids[on].ft.Directory?
    ensures var t := items[op].kids[on]; var re := Repointed(items, op, on, np);
      && Structured(re) && !Named(re, t.ino) && Parent(re, t.ino) == np && TypeAt(re, t.ino) == Some(Directory)
      && Rerouted(items, re, t.ino, np) && re.Keys == items.Keys
      && (forall d: nat :: DirAt(re, d) == DirAt(items, d))
      && (forall k: nat :: k in items && k in re ==> Tally(re, k) + (if k == op || k == t.ino then 1 else 0) == Tally(items, k))
  {
    hide Tally, Structured, Parent, Named, Acyclic, Kid, DirAt, TypeAt, SameEntries, OneEntry;
    var t := items[op].kids[on];
    var cut := Unbind(items, op, on);
    EntryTyped(items, op, on);
    ChildApart(items, op, on);
    UnbindFacts(items, op, on);
    UnbindKeeps(items, cut, op, on);
    ParentsStay(items, cut, op, on, None);
    DirNameless(items, cut, op, on);
    TallyUnbind(items, op, on);
    var re := Repointed(items, op, on, np);
    BindFacts(cut, t.ino, DOTDOT, Target(np, Directory));
    RepointKeeps(cut, re, t.ino, np);
    DirsStay(cut, re, t.ino, DOTDOT, Some(Target(np, Directory)));
    TallyDots(cut, re, t.ino, DOTDOT, Some(Target(np, Directory)));
    TypesStay(items, cut, re, op, on, t.ino, np);
  }

  /** A name is bound and the two link counts are adjusted. */
  lemma BoundKeeps(re: Items, op: nat, np: nat, nn: Name, t: Target)
    requires Structured(re) && op in re && DirAt(re, np) && Real(nn) && nn !in re[np].kids && t.ft.Directory?
    requires TypeAt(re, t.ino) == Some(Directory) && !Named(re, t.ino) && Parent(re, t.ino) == np && t.ino != ROOT_INO && t.ino != np
    ensures var other := MoreLinks(FewerLinks(Bind(re, np, nn, t), op), np);
      && Structured(other) && other.Keys == re.Keys
      && (forall d: nat :: Parent(other, d) == Parent(re, d))
      && (forall d: nat :: DirAt(other, d) == DirAt(re, d))
      && (forall k: nat :: k in re && k in other ==> Tally(other, k) == Tally(re, k) + if k == t.ino || k == np then 1 else 0)
  {
    hide Tally, Structured, Parent, Named, Kid, SameEntries, OneEntry;
    var bound := Bind(re, np, nn, t);
    BindFacts(re, np, nn, t);
    NoEntry(re, np, nn);
    BindKeeps(re, bound, np, nn, t);
    ParentsStay(re, bound, np, nn, Some(t));
    TallyBind(re, np, nn, t);
    var fewer := FewerLinks(bound, op);
    LinksFacts(bound, op);
    SameEntriesParts(bound, fewer);
    SameEntriesKeep(bound, fewer);
    TallyLinks(bound, op);
    LinksFacts(fewer, np);
    SameEntriesParts(fewer, MoreLinks(fewer, np));
    SameEntriesKeep(fewer, MoreLinks(fewer, np));
    TallyLinks(fewer, np);
    DirsStay(re, bound, np, nn, Some(t));
  }

  lemma DirMoveKeeps(items: Items, op: nat, on: Name, np: nat, nn: Name)
    requires Structured(items) && Acyclic(items) && op in items && DirAt(items, np)
    requires Real(on) && Real(nn) && on in items[op].kids && nn !in items[np].kids
    requires items[op].kids[on].ino in items && items[op].kids[on].ft.Directory? && op != np && items[op].kids[on].ino != np
    ensures Structured(Moved(items, op, on, np, nn))
    ensures Rerouted(items, Moved(items, op, on, np, nn), items[op].kids[on].ino, np)
    ensures forall d: nat :: DirAt(Moved(items, op, on, np, nn), d) == DirAt(items, d)
    ensures forall k: nat :: k in items && k in Moved(items, op, on, np, nn) ==> TallyMoved(items, Moved(items, op, on, np, nn), op, np, k)
  {
    hide Tally, Structured, Parent, Named, Acyclic, Kid, TypeAt, Moved, Repointed, Bind, FewerLinks, MoreLinks;
    DotsOf(items, np);
    ChildApart(items, op, on);
    RepointedKeeps(items, op, on, np);
    FreeStays(items, op, on, np, nn);
    BoundKeeps(Repointed(items, op, on, np), op, np, nn, items[op].kids[on]);
    MovedAs(items, op, on, np, nn);
  }

  lemma FreeStays(items: Items, op: nat, on: Name, np: nat, nn: Name)
    requires op in items && np in items && on in items[op].kids && items[op].kids[on].ino in items && nn !in items[np].kids && Real(nn)
    ensures np in Repointed(items, op, on, np) && nn !in Repointed(items, op, on, np)[np].kids
  {
  }

  lemma DirsStay(items: Items, other: Items, p: nat, name: Name, t: Option<Target>)
    requires OneEntry(items, other, p, name, t)
    ensures forall d: nat :: DirAt(other, d) == DirAt(items, d)
  {
  }

  lemma TypesStay(items: Items, cut: Items, re: Items, p: nat, name: Name, i: nat, np: nat)
    requires OneEntry(items, cut, p, name, None) && OneEntry(cut, re, i, DOTDOT, Some(Target(np, Directory)))
    ensures TypeAt(re, i) == TypeAt(items, i)
    ensures forall d: nat :: DirAt(cut, d) == DirAt(items, d)
  {
  }

  lemma TallyDots(items: Items, other: Items, p: nat, name: Name, t: Option<Target>)
    requires OneEntry(items, other, p, name, t) && !Real(name)
    ensures forall k: nat :: k in items && k in other && items[k].ft == other[k].ft ==> Tally(other, k) == Tally(items, k)
  {
    hide Tally, Kid;
    forall k: nat | k in items && k in other && items[k].ft == other[k].ft ensures Tally(other, k) == Tally(items, k) { TallySame(items, other, k); }
  }

  /** The move, with `..` pointed before the new name is made. */
  lemma MovedAs(items: Items, op: nat, on: Name, np: nat, nn: Name)
    requires Structured(items) && op in items && np in items && Real(on) && Real(nn) && on in items[op].kids
    requires items[op].kids[on].ino in items && items[op].kids[on].ft.Directory? && op != np
    requires items[op].kids[on].ino != np && items[op].kids[on].ino != op
    ensures var t := items[op].kids[on];
      var re := Repointed(items, op, on, np);
      Moved(items, op, on, np, nn) == MoreLinks(FewerLinks(Bind(re, np, nn, t), op), np)
  {
    hide Structured;
    var t := items[op].kids[on];
    EntryTyped(items, op, on);
    DotsOf(items, t.ino);
    BindCommutes(Unbind(items, op, on), np, nn, t, t.ino, DOTDOT, Target(np, Directory));
  }

  lemma DotsOf(items: Items, d: nat)
    requires Structured(items) && DirAt(items, d)
    ensures d in items && DOTDOT in items[d].kids && items[d].kids[DOTDOT].ft.Directory?
  {
    assert Kid(items, d, DOTDOT).Some?;
  }

  lemma BindCommutes(items: Items, p: nat, n: Name, t: Target, q: nat, m: Name, u: Target)
    requires p in items && q in items && p != q
    ensures Bind(Bind(items, p, n, t), q, m, u) == Bind(Bind(items, q, m, u), p, n, t)
  {
  }

  lemma DropCounted(items: Items, i: nat)
    requires Structured(items) && Counted(items) && i in items && !DirAt(items, i) && !Named(items, i)
    ensures Counted(items - {i})
  {
    hide Tally, Kid;
    DropFacts(items, i);
    forall k: nat | k in items - {i} ensures Tally(items - {i}, k) == Tally(items, k) {
      TallySame(items, items - {i}, k);
    }
  }

  // --- the whole state after each operation ---------------------------------------------------

  lemma FreshIno(s: State)
    requires NumbersOk(s) && ROOT_INO in s.items
    ensures NextIno(s) !in s.items && NextIno(s) != ROOT_INO && NextIno(s) >= FIRST_USER_INO
  {
  }

  lemma CreateStep(s: State, parent: nat, name: Name, ft: FileType)
    requires Inv(s) && AdmitCreate(s.items, true, parent, name).Ok?
    ensures Inv(AfterCreate(s, parent, name, ft))
  {
    hide Tally, Structured, Acyclic, Kid, Parent, Created, Counted, NumbersOk, HandlesOk;
    var ino := NextIno(s);
    RootIn(s.items);
    FreshIno(s);
    CreatedKeeps(s.items, ino, parent, name, ft);
    CreatedTypes(s.items, ino, parent, name, ft);
    if ft.Directory? {
      AcyclicAdd(s.items, Created(s.items, ino, parent, name, ft), ino, parent);
    } else {
      AcyclicSame(s.items, Created(s.items, ino, parent, name, ft));
    }
    CreateHandles(s, parent, name, ft);
    CreateNumbers(s, parent, name, ft);
  }

  lemma RootIn(items: Items)
    requires Structured(items)
    ensures ROOT_INO in items
  {
  }

  lemma CreatedTypes(items: Items, ino: nat, parent: nat, name: Name, ft: FileType)
    requires parent in items && ino !in items
    ensures forall i: nat :: TypeAt(Created(items, ino, parent, name, ft), i) == if i == ino then Some(ft) else TypeAt(items, i)
    ensures Created(items, ino, parent, name, ft).Keys == items.Keys + {ino}
    ensures forall i: nat :: i in items ==> Created(items, ino, parent, name, ft)[i].nlink >= items[i].nlink
    ensures Created(items, ino, parent, name, ft)[ino].nlink >= 1
  {
  }

  lemma CreateHandles(s: State, parent: nat, name: Name, ft: FileType)
    requires HandlesOk(s) && NumbersOk(s) && ROOT_INO in s.items && parent in s.items
    ensures HandlesOk(AfterCreate(s, parent, name, ft))
  {
    hide Created;
    FreshIno(s);
    CreatedTypes(s.items, NextIno(s), parent, name, ft);
    var t := AfterCreate(s, parent, name, ft);
    forall i | i in t.items && !t.items[i].IsDir() && t.items[i].nlink == 0 ensures i in t.orphans {
      assert TypeAt(t.items, i) == TypeAt(s.items, i);
    }
  }

  lemma CreateNumbers(s: State, parent: nat, name: Name, ft: FileType)
    requires NumbersOk(s) && ROOT_INO in s.items && parent in s.items
    ensures NumbersOk(AfterCreate(s, parent, name, ft))
  {
    hide Created;
    FreshIno(s);
    CreatedTypes(s.items, NextIno(s), parent, name, ft);
  }

  lemma LinkStep(s: State, target: nat, parent: nat, name: Name)
    requires Inv(s) && AdmitLink(s.items, true, target, parent, name).Ok?
    ensures Inv(AfterLink(s, target, parent, name))
  {
    hide Tally, Structured, Acyclic, Kid, Parent, Counted;
    LinkedKeeps(s.items, target, parent, name);
    AcyclicSame(s.items, Linked(s.items, target, parent, name));
  }

  /** What removing an entry leaves of the other entries and types. */
  ghost predicate Without(items: Items, other: Items, p: nat, name: Name, i: nat) {
    && (forall d: nat, n: Name :: Kid(other, d, n) == if d == p && n == name then None else Kid(items, d, n))
    && (forall j: nat :: j != i || DirAt(items, i) ==> TypeAt(other, j) == TypeAt(items, j))
    && (forall d: nat :: Parent(other, d) == Parent(items, d))
    && (forall d: nat :: DirAt(other, d) == DirAt(items, d))
  }

  /** A file whose last name went away and that nobody has open. */
  lemma DropStep(s: State, i: nat)
    requires Structured(s.items) && Counted(s.items) && i in s.items && !DirAt(s.items, i) && s.items[i].nlink == 0
    requires NumbersOk(s)
    ensures Structured(Dropped(s, i).items) && Counted(Dropped(s, i).items) && NumbersOk(Dropped(s, i))
    ensures forall d: nat, n: Name :: Kid(Dropped(s, i).items, d, n) == Kid(s.items, d, n)
    ensures forall j: nat :: j != i ==> TypeAt(Dropped(s, i).items, j) == TypeAt(s.items, j)
    ensures forall d: nat :: Parent(Dropped(s, i).items, d) == Parent(s.items, d)
    ensures forall d: nat :: DirAt(Dropped(s, i).items, d) == DirAt(s.items, d)
  {
    hide Structured, Counted, Parent, Kid, Named;
    LinklessNameless(s.items, i);
    DropKeeps(s.items, i);
    DropCounted(s.items, i);
    DropFacts(s.items, i);
    NoKids(s.items, i);
  }

  lemma LinklessNameless(items: Items, i: nat)
    requires Counted(items) && i in items && !DirAt(items, i) && items[i].nlink == 0
    ensures !Named(items, i)
  {
    assert items[i].nlink == Tally(items, i);
    NamedIff(items, i);
  }

  lemma NoKids(items: Items, i: nat)
    requires Structured(items) && !DirAt(items, i)
    ensures forall n: Name :: Kid(items, i, n).None?
  {
    hide Kid, DirAt;
  }

  lemma DetachedFacts(items: Items, p: nat, name: Name)
    requires p in items && name in items[p].kids && items[p].kids[name].ino in items
    ensures Detached(items, p, name).Keys == items.Keys
    ensures forall k: nat :: k in items && k != p && k != items[p].kids[name].ino ==> Detached(items, p, name)[k] == items[k]
  {
  }

  lemma DirHasLinks(items: Items, i: nat)
    requires Counted(items) && DirAt(items, i)
    ensures items[i].nlink > 0
  {
    assert items[i].nlink == Tally(items, i);
  }

  lemma UnlinkStep(s: State, p: nat, name: Name)
    requires Inv(s) && p in s.items && Real(name) && name in s.items[p].kids && s.items[p].kids[name].ino in s.items
    ensures Inv(AfterUnlink(s, p, name))
    ensures Without(s.items, AfterUnlink(s, p, name).items, p, name, s.items[p].kids[name].ino)
  {
    hide Structured, Counted, Parent, Kid, Acyclic, Detached, NumbersOk, HandlesOk, Tally, Named, SameEntries, OneEntry;
    var i := s.items[p].kids[name].ino;
    var cut := s.(items := Detached(s.items, p, name));
    DetachedKeeps(s.items, p, name);
    DetachedFacts(s.items, p, name);
    SameNumbers(s, cut);
    EntryTyped(s.items, p, name);
    if cut.items[i].nlink == 0 && i !in s.opens {
      if DirAt(cut.items, i) { DirHasLinks(cut.items, i); }
      DropStep(cut, i);
    }
    var t := AfterUnlink(s, p, name);
    if t.items == cut.items { SameNumbers(s, t); }
    AcyclicSame(s.items, t.items);
    UnlinkHandles(s, p, name);
  }

  lemma SameNumbers(s: State, t: State)
    requires NumbersOk(s) && t.items.Keys == s.items.Keys && t.free == s.free && t.next == s.next
    ensures NumbersOk(t)
  {
  }

  lemma UnlinkHandles(s: State, p: nat, name: Name)
    requires HandlesOk(s) && p in s.items && s.items[p].IsDir() && name in s.items[p].kids && s.items[p].kids[name].ino in s.items
    requires forall i: nat :: TypeAt(Detached(s.items, p, name), i) == TypeAt(s.items, i)
    ensures HandlesOk(AfterUnlink(s, p, name))
  {
    hide Detached;
    DetachedFacts(s.items, p, name);
    var t := AfterUnlink(s, p, name);
    forall i | i in t.items && !t.items[i].IsDir() && t.items[i].nlink == 0 ensures i in t.orphans {
      assert TypeAt(Detached(s.items, p, name), i) == TypeAt(s.items, i);
    }
  }

  // --- rename ------------------------------------------------------------------------------

  /** A directory changes its parent. */
  predicate MovesDir(items: Items, op: nat, on: Name, np: nat) {
    Kid(items, op, on).Some? && Kid(items, op, on).value.ft.Directory? && op != np
  }

  lemma MovedKinds(items: Items, op: nat, on: Name, np: nat, nn: Name)
    requires op in items && np in items && on in items[op].kids && items[op].kids[on].ino in items
    ensures Moved(items, op, on, np, nn).Keys == items.Keys
    ensures forall k: nat :: k in items ==> Moved(items, op, on, np, nn)[k].ft == items[k].ft
    ensures forall k: nat :: k in items && k != op && k != np ==> Moved(items, op, on, np, nn)[k].nlink == items[k].nlink
  {
  }

  /** An entry moves to a free name: everything but the tree is kept, and the tree unless the directory goes below itself. */
  lemma MoveStep(s: State, op: nat, on: Name, np: nat, nn: Name)
    requires Inv(s) && DirAt(s.items, op) && DirAt(s.items, np) && Real(on) && Real(nn)
    requires on in s.items[op].kids && nn !in s.items[np].kids && s.items[op].kids[on].ino in s.items
    requires MovesDir(s.items, op, on, np) ==> s.items[op].kids[on].ino != np
    ensures Consistent(s.(items := Moved(s.items, op, on, np, nn)))
    ensures Acyclic(Moved(s.items, op, on, np, nn)) <==> !(MovesDir(s.items, op, on, np) && Below(s.items, np, s.items[op].kids[on].ino))
  {
    hide Structured, Counted, Parent, Acyclic, Below, Moved, Rerouted, NumbersOk;
    var t := s.(items := Moved(s.items, op, on, np, nn));
    MovedKinds(s.items, op, on, np, nn);
    SameNumbers(s, t);
    if MovesDir(s.items, op, on, np) {
      DirMoves(s.items, op, on, np, nn);
      ChildApart(s.items, op, on);
      RootOk(s.items);
      RerouteIff(s.items, t.items, s.items[op].kids[on].ino, np);
    } else {
      EntryMoves(s.items, op, on, np, nn);
      AcyclicSame(s.items, t.items);
    }
  }

  lemma RootOk(items: Items)
    requires Structured(items)
    ensures Rooted(items)
  {
  }

  lemma BelowSame(items: Items, other: Items, d: nat, a: nat)
    requires forall e: nat :: Parent(other, e) == Parent(items, e)
    ensures Below(other, d, a) == Below(items, d, a)
  {
    hide Parent;
    forall n: nat ensures Up(other, d, n) == Up(items, d, n) { UpSame(items, other, d, n); }
  }

  /** The two directories, the source entry and the inodes that the two names lead to are there. */
  predicate Standing(items: Items, op: nat, on: Name, np: nat, nn: Name) {
    && op in items && np in items && on in items[op].kids && items[op].kids[on].ino in items
    && (nn in items[np].kids ==> items[np].kids[nn].ino in items)
  }

  /** Rename is refused, changes nothing, or moves; it never leaves a half-done state. */
  lemma RenameStep(s: State, op: nat, on: Name, np: nat, nn: Name)
    requires Standing(s.items, op, on, np, nn) && Inv(s) && AdmitRename(s.items, true, op, on, np, nn).Ok?
    ensures Consistent(AfterRename(s, op, on, np, nn))
    ensures Acyclic(AfterRename(s, op, on, np, nn).items) <==> !(MovesDir(s.items, op, on, np) && Below(s.items, np, s.items[op].kids[on].ino))
  {
    hide Structured, Counted, Parent, Acyclic, Below, Moved, NumbersOk, HandlesOk, AfterUnlink, Reaches;
    if op == np && on == nn {
    } else {
      NotItself(s.items, op, on, np);
      if nn !in s.items[np].kids {
        MoveStep(s, op, on, np, nn);
      } else if s.items[np].kids[nn].ino == s.items[op].kids[on].ino {
        SameTarget(s.items, op, on, np, nn);
      } else {
        var cleared := AfterUnlink(s, np, nn);
        UnlinkStep(s, np, nn);
        ClearedFor(s.items, cleared.items, op, on, np, nn);
        BelowSame(s.items, cleared.items, np, s.items[op].kids[on].ino);
        MoveStep(cleared, op, on, np, nn);
      }
    }
  }

  /** Where a rename is admitted, nothing it works on is missing. */
  lemma EntriesStand(items: Items, writable: bool, op: nat, on: Name, np: nat, nn: Name)
    requires Structured(items) && AdmitRename(items, writable, op, on, np, nn).Ok?
    ensures Standing(items, op, on, np, nn)
  {
    hide Structured, Reaches, HasChildren, Kid;
    EntryTyped(items, op, on);
    if nn in items[np].kids { EntryTyped(items, np, nn); }
  }

  /** The ancestor search, which starts at the new parent itself, said no. */
  lemma NotItself(items: Items, op: nat, on: Name, np: nat)
    requires op in items && on in items[op].kids && (items[op].kids[on].ft.Directory? ==> !Reaches(items, np, items[op].kids[on].ino, ANCESTOR_GUARD))
    ensures MovesDir(items, op, on, np) ==> items[op].kids[on].ino != np
  {
  }

  /** Two different entries name one inode: it is not a directory. */
  lemma SameTarget(items: Items, op: nat, on: Name, np: nat, nn: Name)
    requires Structured(items) && op in items && np in items && Real(on) && Real(nn)
    requires on in items[op].kids && nn in items[np].kids && items[np].kids[nn].ino == items[op].kids[on].ino
    requires op != np || on != nn
    ensures !items[op].kids[on].ft.Directory?
  {
    assert Kid(items, op, on) == Some(items[op].kids[on]) && Kid(items, np, nn) == Some(items[np].kids[nn]);
    assert InoAt(items, op, on) == InoAt(items, np, nn);
    assert items[op].kids[on].ft.Directory? ==> NamesDir(items, op, on) && NamesDir(items, np, nn);
  }

  /** After the destination is unlinked the source entry still stands. */
  lemma ClearedFor(items: Items, cleared: Items, op: nat, on: Name, np: nat, nn: Name)
    requires Structured(items) && AdmitRename(items, true, op, on, np, nn).Ok? && nn in items[np].kids && (op != np || on != nn)
    requires items[np].kids[nn].ino != items[op].kids[on].ino
    requires Without(items, cleared, np, nn, items[np].kids[nn].ino)
    ensures op in cleared && np in cleared && DirAt(cleared, op) && DirAt(cleared, np)
    ensures on in cleared[op].kids && cleared[op].kids[on] == items[op].kids[on] && nn !in cleared[np].kids
    ensures cleared[op].kids[on].ino in cleared
    ensures MovesDir(cleared, op, on, np) == MovesDir(items, op, on, np)
  {
    hide Parent, Reaches, Structured, Kid, TypeAt, HasChildren;
    EntryTyped(items, op, on);
    EntryTyped(items, np, nn);
    KidIn(items, op, on);
    KidIn(cleared, op, on);
    KidIn(cleared, np, nn);
    DirIn(cleared, op);
    DirIn(cleared, np);
    TypeIn(cleared, items[op].kids[on].ino);
    TypeIn(items, items[op].kids[on].ino);
  }

  lemma KidIn(items: Items, d: nat, n: Name)
    ensures Kid(items, d, n).Some? <==> d in items && n in items[d].kids
    ensures Kid(items, d, n).Some? ==> Kid(items, d, n).value == items[d].kids[n]
  {
  }

  lemma DirIn(items: Items, d: nat)
    ensures DirAt(items, d) <==> d in items && items[d].IsDir()
  {
  }

  lemma TypeIn(items: Items, i: nat)
    ensures TypeAt(items, i).Some? <==> i in items
  {
  }

  // --- open and close --------------------------------------------------------------------------

  /** A handle keeps the state consistent exactly when it is opened on an inode that exists. */
  lemma OpenIff(s: State, ino: nat)
    requires Inv(s)
    ensures Inv(AfterOpen(s, ino)) <==> ino in s.items
  {
    hide Structured, Counted, Acyclic, NumbersOk;
    SameNumbers(s, AfterOpen(s, ino));
    if ino in s.items {
      assert HandlesOk(AfterOpen(s, ino));
    } else {
      assert ino in AfterOpen(s, ino).opens;
    }
  }

  lemma CloseStep(s: State, ino: nat)
    requires Inv(s)
    ensures Inv(AfterClose(s, ino))
  {
    hide Structured, Counted, Acyclic, NumbersOk, Kid, Parent;
    if ino in s.opens && s.opens[ino] == 1 && ino in s.orphans && s.items[ino].nlink == 0 {
      var gone := s.(opens := s.opens - {ino}, orphans := s.orphans - {ino});
      SameNumbers(s, gone);
      if DirAt(s.items, ino) { DirHasLinks(s.items, ino); }
      DropStep(gone, ino);
      AcyclicSame(s.items, AfterClose(s, ino).items);
    } else {
      SameNumbers(s, AfterClose(s, ino));
    }
  }

  lemma ClosedAt(items: Items, p: nat, name: Name)
    requires Closed(items) && Kid(items, p, name).Some?
    ensures TypeAt(items, Kid(items, p, name).value.ino) == Some(Kid(items, p, name).value.ft)
    ensures Kid(items, p, name).value.ino in items
  {
  }

  lemma RenameStands(items: Items, writable: bool, op: nat, on: Name, np: nat, nn: Name)
    requires Closed(items) && AdmitRename(items, writable, op, on, np, nn).Ok?
    ensures Standing(items, op, on, np, nn)
  {
    hide Closed, Reaches, HasChildren;
    ClosedAt(items, op, on);
    if nn in items[np].kids { ClosedAt(items, np, nn); }
  }

  /** A step is refused or has its own effect. */
  lemma StepOutcome(s: State, writable: bool, op: Op)
    requires Closed(s.items)
    ensures Admit(s, writable, op).Err? ==> Step(s, writable, op) == s
    ensures match op
      case Create(parent, name, ft) =>
        var a := AdmitCreate(s.items, writable, parent, name);
        Admit(s, writable, op) == a && (a.Ok? ==> parent in s.items && Step(s, writable, op) == AfterCreate(s, parent, name, ft))
      case Link(target, parent, name) =>
        var a := AdmitLink(s.items, writable, target, parent, name);
        Admit(s, writable, op) == a
        && (a.Ok? ==> parent in s.items && target in s.items && Step(s, writable, op) == AfterLink(s, target, parent, name))
      case Unlink(parent, name, rmdir) =>
        var a := AdmitUnlink(s.items, writable, parent, name, rmdir);
        Admit(s, writable, op) == a
        && (a.Ok? ==> parent in s.items && name in s.items[parent].kids && s.items[parent].kids[name].ino in s.items
                      && Step(s, writable, op) == AfterUnlink(s, parent, name))
      case Rename(od, on, nd, nn) =>
        var a := AdmitRename(s.items, writable, od, on, nd, nn);
        Admit(s, writable, op) == a
        && (a.Ok? ==> Standing(s.items, od, on, nd, nn) && Step(s, writable, op) == AfterRename(s, od, on, nd, nn))
      case Open(ino) => Step(s, writable, op) == AfterOpen(s, ino)
      case Close(ino) => Step(s, writable, op) == AfterClose(s, ino)
  {
    hide Closed, HasChildren, AfterCreate, AfterLink, AfterUnlink, AfterRename, AfterOpen, AfterClose, Reaches;
    if Admit(s, writable, op).Ok? {
      match op
      case Unlink(parent, name, _) => ClosedAt(s.items, parent, name);
      case Rename(od, on, nd, nn) => RenameStands(s.items, writable, od, on, nd, nn);
      case _ =>
    }
  }

  // --- every step, every run -----------------------------------------------------------------------

  /** A rename would put a directory below itself. */
  ghost predicate BelowItself(items: Items, op: Op) {
    op.Rename? && MovesDir(items, op.oldParent, op.oldName, op.newParent)
    && Below(items, op.newParent, InoAt(items, op.oldParent, op.oldName))
  }

  /** The handle is opened on an inode that exists, and no directory slips below itself past the ancestor search. */
  ghost predicate Safe(s: State, writable: bool, op: Op) {
    Admit(s, writable, op).Ok? ==> (op.Open? ==> op.ino in s.items) && !BelowItself(s.items, op)
  }

  lemma StepInv(s: State, writable: bool, op: Op)
    requires Inv(s)
    ensures Inv(Step(s, writable, op)) <==> Safe(s, writable, op)
  {
    hide Structured, Acyclic, Counted, HandlesOk, NumbersOk, Below, Reaches, Parent, AfterCreate, AfterLink,
      AfterUnlink, AfterRename, AfterOpen, AfterClose;
    ClosedOf(s.items);
    if Admit(s, writable, op).Ok? {
      match op
      case Create(parent, name, ft) => CreateStep(s, parent, name, ft);
      case Link(target, parent, name) => LinkStep(s, target, parent, name);
      case Unlink(parent, name, rmdir) =>
        EntryTyped(s.items, parent, name);
        UnlinkStep(s, parent, name);
      case Rename(od, on, nd, nn) =>
        EntriesStand(s.items, writable, od, on, nd, nn);
        KidIn(s.items, od, on);
        RenameStep(s, od, on, nd, nn);
      case Open(ino) => OpenIff(s, ino);
      case Close(ino) => CloseStep(s, ino);
    }
  }

  lemma ClosedOf(items: Items)
    requires Structured(items)
    ensures Closed(items)
  {
  }

  lemma ReachesWithin(items: Items, d: nat, a: nat, k: nat, n: nat)
    requires k <= n && Up(items, d, k) == a
    ensures Reaches(items, d, a, n)
  {
    ReachesIff(items, d, a, n);
  }

  /** Within the reach of the ancestor search nothing slips through. */
  lemma ShallowIsSafe(s: State, writable: bool, op: Op)
    requires Inv(s) && op.Rename? && Reaches(s.items, op.newParent, ROOT_INO, ANCESTOR_GUARD)
    ensures Safe(s, writable, op)
  {
    hide Structured, Acyclic, Counted, HandlesOk, NumbersOk, Parent, Reaches;
    if Admit(s, writable, op).Ok? && BelowItself(s.items, op) {
      var src := InoAt(s.items, op.oldParent, op.oldName);
      KidIn(s.items, op.oldParent, op.oldName);
      ChildApart(s.items, op.oldParent, op.oldName);
      RootOk(s.items);
      ReachesIff(s.items, op.newParent, ROOT_INO, ANCESTOR_GUARD);
      var r: nat :| r <= ANCESTOR_GUARD && Up(s.items, op.newParent, r) == ROOT_INO;
      var n: nat :| Up(s.items, op.newParent, n) == src;
      if n > r {
        UpAdd(s.items, op.newParent, r, n - r);
        UpStays(s.items, ROOT_INO, n - r);
      }
      ReachesWithin(s.items, op.newParent, src, n, ANCESTOR_GUARD);
    }
  }

  ghost predicate SafeRun(s: State, writable: bool, ops: seq<Op>)
    requires Inv(s)
    decreases |ops|
  {
    ops == [] || (Safe(s, writable, ops[0]) && (StepInv(s, writable, ops[0]); SafeRun(Step(s, writable, ops[0]), writable, ops[1..])))
  }

  /** The state after a run. */
  ghost function RunAll(s: State, writable: bool, ops: seq<Op>): State
    requires Inv(s) && SafeRun(s, writable, ops)
    decreases |ops|
  {
    if ops == [] then s
    else
      StepInv(s, writable, ops[0]);
      RunAll(Step(s, writable, ops[0]), writable, ops[1..])
  }

  lemma {:induction false} RunInv(s: State, writable: bool, ops: seq<Op>)
    requires Inv(s) && SafeRun(s, writable, ops)
    ensures Inv(RunAll(s, writable, ops))
    decreases |ops|
  {
    if ops != [] {
      StepInv(s, writable, ops[0]);
      RunInv(Step(s, writable, ops[0]), writable, ops[1..]);
    }
  }

  /** A new image: the root, listing itself. */
  function Fresh(): State {
    State(map[ROOT_INO := Item(Directory, 2, map[DOT := Target(ROOT_INO, Directory), DOTDOT := Target(ROOT_INO, Directory)])], map[], {}, [], FIRST_USER_INO)
  }

  lemma FreshStructured()
    ensures Structured(Fresh().items)
  {
    assert DOT != DOTDOT;
  }

  lemma FreshCounted()
    ensures Counted(Fresh().items)
  {
    assert DOT != DOTDOT;
    assert Subdirs(Fresh().items[ROOT_INO].kids) == {};
  }

  lemma FreshInv()
    ensures Inv(Fresh())
  {
    hide Structured, Counted;
    FreshStructured();
    FreshCounted();
    assert Up(Fresh().items, ROOT_INO, 0) == ROOT_INO;
    assert Below(Fresh().items, ROOT_INO, ROOT_INO);
  }
}
