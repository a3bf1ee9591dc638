/**
  What every namespace operation keeps: directories form a tree, `..` points at the directory that
  names one, link counts equal the names there are, and an inode lives exactly as long as a name or
  an open handle does.
*/
module TreeInvariant {
  import opened Wrappers
  import opened Format
  import opened Tree

  // --- names and link counts -------------------------------------------------------------

  /** Entry `n` of directory `d`, other than `.` and `..`, names inode `i`. */
  predicate Holds(items: Items, d: nat, n: Name, i: nat) {
    Real(n) && Kid(items, d, n).Some? && Kid(items, d, n).value.ino == i
  }

  /** Every place that names `i`. */
  function Names(items: Items, i: nat): set<(nat, Name)> {
    set d: nat, n: Name | d in items && n in items[d].kids && Holds(items, d, n, i) :: (d, n)
  }

  function Subdirs(kids: map<Name, Target>): set<Name> { set n | n in kids && Real(n) && kids[n].ft.Directory? }

  ghost predicate Named(items: Items, i: nat) { exists d: nat, n: Name :: Holds(items, d, n, i) }

  /** The link count an inode should have. */
  ghost function Tally(items: Items, i: nat): nat
    requires i in items
  {
    if items[i].IsDir() then (if i == ROOT_INO || Named(items, i) then 1 else 0) + 1 + |Subdirs(items[i].kids)|
    else |Names(items, i)|
  }

  lemma InNames(items: Items, d: nat, n: Name, i: nat)
    ensures (d, n) in Names(items, i) <==> Holds(items, d, n, i)
  {
  }

  // --- the invariant -----------------------------------------------------------------------

  /** The root is its own parent. */
  predicate Rooted(items: Items) { DirAt(items, ROOT_INO) && Parent(items, ROOT_INO) == ROOT_INO }

  /** A directory lists itself and its parent; nothing else lists anything. */
  ghost predicate Shaped(items: Items) {
    && (forall d: nat :: DirAt(items, d) ==>
      && Kid(items, d, DOT) == Some(Target(d, Directory))
      && Kid(items, d, DOTDOT).Some? && Kid(items, d, DOTDOT).value.ft.Directory?)
    && (forall d: nat, n: Name :: Kid(items, d, n).Some? ==> DirAt(items, d))
  }

  predicate NamesDir(items: Items, d: nat, n: Name) {
    Real(n) && Kid(items, d, n).Some? && Kid(items, d, n).value.ft.Directory?
  }

  /** The inode an entry names, 0 where there is no entry. */
  function InoAt(items: Items, d: nat, n: Name): nat { if Kid(items, d, n).Some? then Kid(items, d, n).value.ino else 0 }

  /** A named directory is not the root, and `..` leads to the directory that names it. */
  ghost predicate NamedByParent(items: Items) {
    forall d: nat, n: Name :: NamesDir(items, d, n) ==>
      d == Parent(items, InoAt(items, d, n)) && InoAt(items, d, n) != ROOT_INO
  }

  /** No directory has two names in one place. */
  ghost predicate NamedOnce(items: Items) {
    forall d: nat, n: Name, m: Name ::
      NamesDir(items, d, n) && NamesDir(items, d, m) && n != m ==> InoAt(items, d, n) != InoAt(items, d, m)
  }

  ghost predicate Structured(items: Items) {
    Rooted(items) && Shaped(items) && Closed(items) && NamedByParent(items) && NamedOnce(items)
  }

  ghost predicate Counted(items: Items) { forall i: nat :: i in items ==> items[i].nlink == Tally(items, i) }

  /** Following `..` from any directory ends at the root. */
  ghost predicate Acyclic(items: Items) { forall d: nat :: d in items && items[d].IsDir() ==> Below(items, d, ROOT_INO) }

  /** Open inodes exist, and a nameless non-directory waits among the orphans for its last close. */
  predicate HandlesOk(s: State) {
    && (forall i :: i in s.opens ==> i in s.items && s.opens[i] > 0)
    && (forall i :: i in s.orphans ==> i in s.opens)
    && (forall i :: i in s.items && !s.items[i].IsDir() && s.items[i].nlink == 0 ==> i in s.orphans)
  }

  /** The numbers to hand out are unused and distinct. */
  predicate NumbersOk(s: State) {
    && s.next >= FIRST_USER_INO
    && (forall i :: i in s.items ==> 0 < i < s.next)
    && (forall k :: 0 <= k < |s.free| ==> FIRST_USER_INO <= s.free[k] < s.next && s.free[k] !in s.items)
    && (forall j, k :: 0 <= j < k < |s.free| ==> s.free[j] != s.free[k])
  }

  /** Everything but the absence of cycles. */
  ghost predicate Consistent(s: State) { Structured(s.items) && Counted(s.items) && HandlesOk(s) && NumbersOk(s) }

  ghost predicate Inv(s: State) { Consistent(s) && Acyclic(s.items) }

  // --- what each edit does, entry by entry ------------------------------------------------------

  /** `other` has the same entries and types as `items`. */
  ghost predicate SameEntries(items: Items, other: Items) {
    && (forall d: nat, n: Name :: Kid(other, d, n) == Kid(items, d, n))
    && (forall i: nat :: TypeAt(other, i) == TypeAt(items, i))
  }

  /** `other` differs at one entry. */
  ghost predicate OneEntry(items: Items, other: Items, p: nat, name: Name, t: Option<Target>) {
    && (forall d: nat, n: Name :: Kid(other, d, n) == if d == p && n == name then t else Kid(items, d, n))
    && (forall i: nat :: TypeAt(other, i) == TypeAt(items, i))
  }

  lemma BindFacts(items: Items, p: nat, name: Name, t: Target)
    requires p in items
    ensures OneEntry(items, Bind(items, p, name, t), p, name, Some(t))
  {
  }

  lemma UnbindFacts(items: Items, p: nat, name: Name)
    requires p in items
    ensures OneEntry(items, Unbind(items, p, name), p, name, None)
  {
  }

  lemma LinksFacts(items: Items, i: nat)
    requires i in items
    ensures SameEntries(items, MoreLinks(items, i)) && SameEntries(items, FewerLinks(items, i))
  {
  }

  /** `other` has one more inode, with no entries but `.` and `..`. */
  ghost predicate OneMore(items: Items, other: Items, ino: nat, parent: nat, ft: FileType) {
    && (forall d: nat, n: Name :: d != ino ==> Kid(other, d, n) == Kid(items, d, n))
    && (forall n: Name :: Kid(items, ino, n).None?)
    && (forall n: Name :: Real(n) || !ft.Directory? ==> Kid(other, ino, n).None?)
    && (ft.Directory? ==> Kid(other, ino, DOT) == Some(Target(ino, Directory)) && Kid(other, ino, DOTDOT) == Some(Target(parent, Directory)))
    && (forall i: nat :: i != ino ==> TypeAt(other, i) == TypeAt(items, i))
    && TypeAt(items, ino).None? && TypeAt(other, ino) == Some(ft)
  }

  lemma AddFacts(items: Items, ino: nat, parent: nat, ft: FileType)
    requires ino !in items
    ensures OneMore(items, items[ino := NewItem(ino, parent, ft)], ino, parent, ft)
  {
    assert DOT != DOTDOT;
  }

  lemma DropFacts(items: Items, i: nat)
    ensures forall d: nat, n: Name :: Kid(items - {i}, d, n) == if d == i then None else Kid(items, d, n)
    ensures forall j: nat :: TypeAt(items - {i}, j) == if j == i then None else TypeAt(items, j)
  {
  }

  // --- edits keep the structure --------------------------------------------------------------

  lemma SameEntriesKeep(items: Items, other: Items)
    requires SameEntries(items, other)
    ensures Structured(items) ==> Structured(other)
    ensures forall d: nat :: Parent(other, d) == Parent(items, d)
    ensures forall i: nat :: Named(other, i) == Named(items, i)
  {
    hide Kid, TypeAt, Parent, NamesDir, DirAt, InoAt, Named;
    SameEntriesParts(items, other);
  }

  lemma SameEntriesParts(items: Items, other: Items)
    requires SameEntries(items, other)
    ensures forall d: nat :: Parent(other, d) == Parent(items, d)
    ensures forall d: nat, n: Name :: NamesDir(other, d, n) == NamesDir(items, d, n) && InoAt(other, d, n) == InoAt(items, d, n)
    ensures forall d: nat :: DirAt(other, d) == DirAt(items, d)
    ensures forall i: nat :: Named(other, i) == Named(items, i)
  {
    hide Kid, TypeAt;
    forall d: nat, n: Name, i: nat ensures Holds(other, d, n, i) == Holds(items, d, n, i) {}
  }

  /** An edit of a real name leaves every `..` alone. */
  lemma ParentsStay(items: Items, other: Items, p: nat, name: Name, t: Option<Target>)
    requires OneEntry(items, other, p, name, t) && Real(name)
    ensures forall d: nat :: Parent(other, d) == Parent(items, d)
    ensures forall d: nat, n: Name :: NamesDir(other, d, n) == if d == p && n == name then t.Some? && t.value.ft.Directory? else NamesDir(items, d, n)
    ensures forall d: nat :: DirAt(other, d) == DirAt(items, d)
    ensures forall d: nat, n: Name :: d != p || n != name ==> InoAt(other, d, n) == InoAt(items, d, n)
    ensures t.Some? ==> InoAt(other, p, name) == t.value.ino
  {
    hide Kid, TypeAt;
  }

  lemma BindShapes(items: Items, other: Items, p: nat, name: Name, t: Target)
    requires Rooted(items) && Shaped(items) && Closed(items) && DirAt(items, p) && Real(name)
    requires TypeAt(items, t.ino) == Some(t.ft)
    requires OneEntry(items, other, p, name, Some(t))
    ensures Rooted(other) && Shaped(other) && Closed(other)
  {
    hide Kid, TypeAt, Parent, NamesDir, DirAt;
    ParentsStay(items, other, p, name, Some(t));
  }

  lemma NamesDirHolds(items: Items, d: nat, n: Name)
    requires NamesDir(items, d, n)
    ensures Kid(items, d, n).Some? && Named(items, InoAt(items, d, n))
  {
    assert Holds(items, d, n, InoAt(items, d, n));
  }

  /** A new name: of a file, or of a nameless directory whose `..` points there. */
  lemma BindKeeps(items: Items, other: Items, p: nat, name: Name, t: Target)
    requires Structured(items) && DirAt(items, p) && Real(name)
    requires TypeAt(items, t.ino) == Some(t.ft)
    requires t.ft.Directory? ==> Parent(items, t.ino) == p && t.ino != ROOT_INO && !Named(items, t.ino)
    requires !NamesDir(items, p, name)
    requires OneEntry(items, other, p, name, Some(t))
    ensures Structured(other)
  {
    hide Kid, TypeAt, Parent, DirAt, Shaped, Closed, Rooted, NamesDir, InoAt, Named;
    BindShapes(items, other, p, name, t);
    ParentsStay(items, other, p, name, Some(t));
    if t.ft.Directory? {
      forall d: nat, n: Name | NamesDir(items, d, n) ensures InoAt(items, d, n) != t.ino {
        NamesDirHolds(items, d, n);
      }
    }
  }

  lemma UnbindKeeps(items: Items, other: Items, p: nat, name: Name)
    requires Structured(items) && Real(name)
    requires OneEntry(items, other, p, name, None)
    ensures Structured(other)
  {
    hide Kid, TypeAt, Parent, NamesDir, DirAt, InoAt;
    ParentsStay(items, other, p, name, None);
  }

  /** A directory that lost its one name has none. */
  lemma UnbindNameless(items: Items, other: Items, p: nat, name: Name)
    requires Structured(items) && NamesDir(items, p, name)
    requires OneEntry(items, other, p, name, None)
    ensures !Named(other, InoAt(items, p, name))
  {
    hide Kid, TypeAt;
    forall d: nat, n: Name ensures !Holds(other, d, n, InoAt(items, p, name)) {
      assert !Holds(items, d, n, InoAt(items, p, name)) || (d == p && n == name) || !NamesDir(items, d, n);
    }
  }

  /** A new inode, not yet named. */
  lemma AddKeeps(items: Items, other: Items, ino: nat, parent: nat, ft: FileType)
    requires Structured(items) && DirAt(items, parent) && OneMore(items, other, ino, parent, ft)
    ensures Structured(other) && !Named(other, ino)
    ensures forall d: nat :: Parent(other, d) == if d == ino && ft.Directory? then parent else Parent(items, d)
  {
    hide Parent, NamesDir, DirAt, InoAt, Kid, TypeAt;
    AddedParts(items, other, ino, parent, ft);
  }

  lemma AddedParts(items: Items, other: Items, ino: nat, parent: nat, ft: FileType)
    requires Closed(items) && OneMore(items, other, ino, parent, ft)
    ensures forall d: nat :: Parent(other, d) == if d == ino && ft.Directory? then parent else Parent(items, d)
    ensures forall d: nat, n: Name :: NamesDir(other, d, n) == NamesDir(items, d, n)
    ensures forall d: nat :: DirAt(other, d) == if d == ino then ft.Directory? else DirAt(items, d)
    ensures forall d: nat, n: Name :: NamesDir(items, d, n) ==> d != ino && InoAt(items, d, n) != ino && InoAt(other, d, n) == InoAt(items, d, n)
    ensures !Named(other, ino)
  {
    hide Kid, TypeAt;
  }

  /** A nameless file disappears. */
  lemma DropKeeps(items: Items, i: nat)
    requires Structured(items) && TypeAt(items, i).Some? && !DirAt(items, i) && !Named(items, i)
    ensures Structured(items - {i})
    ensures forall d: nat :: Parent(items - {i}, d) == Parent(items, d)
  {
    hide Parent, NamesDir, DirAt, InoAt, Kid, TypeAt, Named;
    DropFacts(items, i);
    DropParts(items, i);
  }

  lemma DropParts(items: Items, i: nat)
    requires Shaped(items) && Closed(items) && TypeAt(items, i).Some? && !DirAt(items, i) && !Named(items, i)
    ensures forall d: nat :: Parent(items - {i}, d) == Parent(items, d)
    ensures forall d: nat, n: Name :: NamesDir(items - {i}, d, n) == NamesDir(items, d, n) && InoAt(items - {i}, d, n) == InoAt(items, d, n)
    ensures forall d: nat :: DirAt(items - {i}, d) == DirAt(items, d)
    ensures forall d: nat, n: Name :: Kid(items, d, n).Some? ==> d != i && Kid(items, d, n).value.ino != i
  {
    hide Kid, TypeAt;
    DropFacts(items, i);
    forall d: nat, n: Name | Kid(items, d, n).Some? ensures d != i && Kid(items, d, n).value.ino != i {
      assert !Holds(items, d, n, i);
    }
  }

  /** A nameless directory's `..` is pointed elsewhere. */
  lemma RepointKeeps(items: Items, other: Items, i: nat, np: nat)
    requires Structured(items) && DirAt(items, i) && i != ROOT_INO && !Named(items, i) && DirAt(items, np)
    requires OneEntry(items, other, i, DOTDOT, Some(Target(np, Directory)))
    ensures Structured(other) && !Named(other, i)
    ensures forall d: nat :: Parent(other, d) == if d == i then np else Parent(items, d)
  {
    hide Parent, NamesDir, DirAt, InoAt, Kid, TypeAt;
    RepointParts(items, other, i, np);
  }

  lemma RepointParts(items: Items, other: Items, i: nat, np: nat)
    requires !Named(items, i) && OneEntry(items, other, i, DOTDOT, Some(Target(np, Directory)))
    ensures forall d: nat :: Parent(other, d) == if d == i then np else Parent(items, d)
    ensures forall d: nat, n: Name :: NamesDir(other, d, n) == NamesDir(items, d, n)
    ensures forall d: nat :: DirAt(other, d) == DirAt(items, d)
    ensures forall d: nat, n: Name :: NamesDir(items, d, n) ==> InoAt(items, d, n) != i && InoAt(other, d, n) == InoAt(items, d, n)
    ensures !Named(other, i)
  {
    hide Kid, TypeAt;
    forall d: nat, n: Name ensures !Holds(items, d, n, i) && !Holds(other, d, n, i) {}
    forall d: nat, n: Name | NamesDir(items, d, n) ensures InoAt(items, d, n) != i { NamesDirHolds(items, d, n); }
  }

  // --- edits and link counts --------------------------------------------------------------------

  /** Only the counts of `i` and `j` change, by one. */
  ghost predicate TallyUp(items: Items, other: Items, i: nat, j: nat) {
    forall k: nat :: k in items && k in other ==> Tally(other, k) == Tally(items, k) + if k == i || k == j then 1 else 0
  }

  lemma NamesAfter(items: Items, other: Items, p: nat, name: Name, t: Option<Target>, i: nat)
    requires OneEntry(items, other, p, name, t) && Real(name)
    ensures t.Some? && t.value.ino == i ==> Names(other, i) == Names(items, i) + {(p, name)}
    ensures t.None? || t.value.ino != i ==> Names(other, i) == Names(items, i) - {(p, name)}
  {
    hide Kid, TypeAt, Names;
    forall d: nat, n: Name ensures (d, n) in Names(other, i) <==> Holds(other, d, n, i) { InNames(other, d, n, i); }
    forall d: nat, n: Name ensures (d, n) in Names(items, i) <==> Holds(items, d, n, i) { InNames(items, d, n, i); }
    forall x: (nat, Name) ensures x in Names(other, i) <==> Holds(other, x.0, x.1, i) { assert x == (x.0, x.1); }
    forall x: (nat, Name) ensures x in Names(items, i) <==> Holds(items, x.0, x.1, i) { assert x == (x.0, x.1); }
  }

  lemma NamesSame(items: Items, other: Items, i: nat)
    requires forall d: nat, n: Name :: Real(n) ==> Kid(other, d, n) == Kid(items, d, n)
    ensures Names(other, i) == Names(items, i) && Named(other, i) == Named(items, i)
  {
    hide Kid, Names;
    forall d: nat, n: Name ensures Holds(other, d, n, i) == Holds(items, d, n, i) {}
    forall d: nat, n: Name ensures (d, n) in Names(other, i) <==> Holds(other, d, n, i) { InNames(other, d, n, i); }
    forall d: nat, n: Name ensures (d, n) in Names(items, i) <==> Holds(items, d, n, i) { InNames(items, d, n, i); }
    forall x: (nat, Name) ensures x in Names(other, i) <==> Holds(other, x.0, x.1, i) { assert x == (x.0, x.1); }
    forall x: (nat, Name) ensures x in Names(items, i) <==> Holds(items, x.0, x.1, i) { assert x == (x.0, x.1); }
  }

  lemma NamedIff(items: Items, i: nat)
    ensures Named(items, i) <==> Names(items, i) != {}
  {
    hide Kid, Names;
    if Named(items, i) {
      var d: nat, n: Name :| Holds(items, d, n, i);
      InNames(items, d, n, i);
    } else if Names(items, i) != {} {
      var x :| x in Names(items, i);
      InNames(items, x.0, x.1, i);
    }
  }

  lemma SubdirsBind(kids: map<Name, Target>, name: Name, t: Target)
    requires Real(name) && name !in kids
    ensures Subdirs(kids[name := t]) == if t.ft.Directory? then Subdirs(kids) + {name} else Subdirs(kids)
    ensures name !in Subdirs(kids)
  {
  }

  lemma SubdirsUnbind(kids: map<Name, Target>, name: Name)
    requires Real(name) && name in kids
    ensures Subdirs(kids - {name}) == Subdirs(kids) - {name}
    ensures name in Subdirs(kids) <==> kids[name].ft.Directory?
  {
  }

  /** A file's new name counts for the file; a directory's counts for it and for its parent. */
  lemma TallyBind(items: Items, p: nat, name: Name, t: Target)
    requires DirAt(items, p) && Real(name) && name !in items[p].kids && TypeAt(items, t.ino) == Some(t.ft)
    requires t.ft.Directory? ==> !Named(items, t.ino) && t.ino != ROOT_INO && p != t.ino
    ensures TallyUp(items, Bind(items, p, name, t), t.ino, if t.ft.Directory? then p else t.ino)
  {
    hide Names, Named, Subdirs, Tally, Kid;
    var other := Bind(items, p, name, t);
    forall k: nat | k in items && k in other
      ensures Tally(other, k) == Tally(items, k) + if k == t.ino || (t.ft.Directory? && k == p) then 1 else 0
    {
      TallyBindAt(items, p, name, t, k);
    }
  }

  lemma TallyBindAt(items: Items, p: nat, name: Name, t: Target, k: nat)
    requires DirAt(items, p) && Real(name) && name !in items[p].kids && TypeAt(items, t.ino) == Some(t.ft) && k in items
    requires t.ft.Directory? ==> !Named(items, t.ino) && t.ino != ROOT_INO && p != t.ino
    ensures Tally(Bind(items, p, name, t), k) == Tally(items, k) + if k == t.ino || (t.ft.Directory? && k == p) then 1 else 0
  {
    hide Names, Named, Subdirs;
    var other := Bind(items, p, name, t);
    BindFacts(items, p, name, t);
    NamesAfter(items, other, p, name, Some(t), k);
    NamedIff(items, k);
    NamedIff(other, k);
    InNames(items, p, name, k);
    SubdirsBind(items[p].kids, name, t);
  }

  lemma TallyUnbind(items: Items, p: nat, name: Name)
    requires Structured(items) && p in items && Real(name) && name in items[p].kids
    requires items[p].kids[name].ft.Directory? ==> p != items[p].kids[name].ino
    ensures TallyUp(Unbind(items, p, name), items, items[p].kids[name].ino, if items[p].kids[name].ft.Directory? then p else items[p].kids[name].ino)
  {
    hide Names, Named, Subdirs, Tally, Structured, Kid, TypeAt;
    var other := Unbind(items, p, name);
    var t := items[p].kids[name];
    EntryFacts(items, p, name);
    if t.ft.Directory? {
      UnbindFacts(items, p, name);
      UnbindNameless(items, other, p, name);
    }
    forall k: nat | k in items && k in other
      ensures Tally(items, k) == Tally(other, k) + if k == t.ino || (t.ft.Directory? && k == p) then 1 else 0
    {
      TallyUnbindAt(items, p, name, k);
    }
  }

  lemma EntryFacts(items: Items, p: nat, name: Name)
    requires Structured(items) && p in items && Real(name) && name in items[p].kids
    ensures items[p].IsDir() && InoAt(items, p, name) == items[p].kids[name].ino
    ensures items[p].kids[name].ino in items && items[items[p].kids[name].ino].ft == items[p].kids[name].ft
    ensures items[p].kids[name].ft.Directory? ==> NamesDir(items, p, name) && items[p].kids[name].ino != ROOT_INO
  {
    assert Kid(items, p, name) == Some(items[p].kids[name]);
    assert DirAt(items, p);
    assert TypeAt(items, items[p].kids[name].ino) == Some(items[p].kids[name].ft);
    assert items[p].kids[name].ft.Directory? ==> NamesDir(items, p, name);
  }

  lemma TallyUnbindAt(items: Items, p: nat, name: Name, k: nat)
    requires p in items && Real(name) && name in items[p].kids && k in items
    requires k == items[p].kids[name].ino ==> items[k].ft == items[p].kids[name].ft
    requires items[p].IsDir()
    requires items[p].kids[name].ft.Directory? ==>
      items[p].kids[name].ino != ROOT_INO && p != items[p].kids[name].ino && !Named(Unbind(items, p, name), items[p].kids[name].ino)
    ensures Tally(items, k) == Tally(Unbind(items, p, name), k) + if k == items[p].kids[name].ino || (items[p].kids[name].ft.Directory? && k == p) then 1 else 0
  {
    hide Names, Named, Subdirs, TypeAt;
    var other := Unbind(items, p, name);
    UnbindFacts(items, p, name);
    NamesAfter(items, other, p, name, None, k);
    NamedIff(items, k);
    NamedIff(other, k);
    InNames(items, p, name, k);
    SubdirsUnbind(items[p].kids, name);
  }

  /** Entries `.` and `..`, link counts and unnamed inodes do not matter. */
  lemma TallySame(items: Items, other: Items, k: nat)
    requires k in items && k in other && items[k].ft == other[k].ft
    requires forall d: nat, n: Name :: Real(n) ==> Kid(other, d, n) == Kid(items, d, n)
    ensures Tally(other, k) == Tally(items, k)
  {
    hide Names, Named, Subdirs;
    NamesSame(items, other, k);
    assert Subdirs(other[k].kids) == Subdirs(items[k].kids) by { SubdirsSame(items, other, k); }
  }

  lemma SubdirsSame(items: Items, other: Items, k: nat)
    requires k in items && k in other
    requires forall d: nat, n: Name :: Real(n) ==> Kid(other, d, n) == Kid(items, d, n)
    ensures Subdirs(other[k].kids) == Subdirs(items[k].kids)
  {
    forall n: Name | Real(n) ensures n in Subdirs(other[k].kids) <==> n in Subdirs(items[k].kids) {
      assert Kid(other, k, n) == Kid(items, k, n);
    }
  }

  /** A new inode starts with the links its own entries make. */
  lemma TallyAdd(items: Items, ino: nat, parent: nat, ft: FileType)
    requires Structured(items) && ino !in items && DirAt(items, parent) && ino != ROOT_INO
    ensures Tally(items[ino := NewItem(ino, parent, ft)], ino) == if ft.Directory? then 1 else 0
    ensures TallyUp(items, items[ino := NewItem(ino, parent, ft)], ino, ino)
  {
    hide Names, Named, Subdirs, Structured, Kid, DirAt;
    var other := items[ino := NewItem(ino, parent, ft)];
    AddFacts(items, ino, parent, ft);
    AddKeeps(items, other, ino, parent, ft);
    forall d: nat, n: Name | Real(n) ensures Kid(other, d, n) == Kid(items, d, n) { if d == ino {} }
    forall k: nat | k in items && k in other ensures Tally(other, k) == Tally(items, k) { TallySame(items, other, k); }
    NamedIff(other, ino);
    NoSubdirs(ino, parent, ft);
  }

  lemma NoSubdirs(ino: nat, parent: nat, ft: FileType)
    ensures Subdirs(NewItem(ino, parent, ft).kids) == {}
  {
  }

  /** Link counts themselves are not counted. */
  lemma TallyLinks(items: Items, i: nat)
    requires i in items
    ensures forall k: nat :: k in items ==> Tally(MoreLinks(items, i), k) == Tally(items, k) && Tally(FewerLinks(items, i), k) == Tally(items, k)
  {
    hide Tally, Kid;
    LinksFacts(items, i);
    forall k: nat | k in items ensures Tally(MoreLinks(items, i), k) == Tally(items, k) && Tally(FewerLinks(items, i), k) == Tally(items, k) {
      TallySame(items, MoreLinks(items, i), k);
      TallySame(items, FewerLinks(items, i), k);
    }
  }
}
