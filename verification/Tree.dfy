/**
  The namespace of src/inner.rs as a value: what create, link, unlink, rename, open and close do to
  directories, link counts, open handles and `..` entries, and the invariants that every step keeps.
  Namespace.dfy proves that the methods working on entry lists take exactly these steps.
*/
module Tree {
  import opened Wrappers
  import opened Format

  type Name = seq<byte>

  const DOT: Name := [46]
  const DOTDOT: Name := [46, 46]
  const NAME_MAX: nat := 255
  const ANCESTOR_GUARD: nat := 4096

  datatype FileType = File | Directory | Symlink | BlockDevice | CharDevice | Fifo | Socket

  /** What a directory entry points to. */
  datatype Target = Target(ino: nat, ft: FileType)

  datatype Item = Item(ft: FileType, nlink: nat, kids: map<Name, Target>) {
    predicate IsDir() { ft.Directory? }
  }

  type Items = map<nat, Item>

  /** `orphans` lost their last name while open; `free` is the stack of inode numbers to reuse. */
  datatype State = State(items: Items, opens: map<nat, nat>, orphans: set<nat>, free: seq<nat>, next: nat)

  datatype Op =
    | Create(parent: nat, name: Name, ft: FileType)
    | Link(target: nat, parent: nat, name: Name)
    | Unlink(parent: nat, name: Name, rmdir: bool)
    | Rename(oldParent: nat, oldName: Name, newParent: nat, newName: Name)
    | Open(ino: nat)
    | Close(ino: nat)

  /** Neither `.` nor `..`. */
  predicate Real(name: Name) { name != DOT && name != DOTDOT }

  function ValidateName(name: Name): (r: Result<()>)
    ensures r.Ok? <==> 0 < |name| <= NAME_MAX && Real(name) && 0 !in name && 47 !in name
    ensures r == Err(ENAMETOOLONG) <==> |name| > NAME_MAX
  {
    if name == [] || name == DOT || name == DOTDOT then Err(EINVAL)
    else if |name| > NAME_MAX then Err(ENAMETOOLONG)
    else if 0 in name || 47 in name then Err(EINVAL)
    else Ok(())
  }

  // --- edits ---------------------------------------------------------------------------

  function Bind(items: Items, p: nat, name: Name, t: Target): Items
    requires p in items
  {
    items[p := items[p].(kids := items[p].kids[name := t])]
  }

  function Unbind(items: Items, p: nat, name: Name): Items
    requires p in items
  {
    items[p := items[p].(kids := items[p].kids - {name})]
  }

  function MoreLinks(items: Items, i: nat): Items
    requires i in items
  {
    items[i := items[i].(nlink := items[i].nlink + 1)]
  }

  /** `saturating_sub(1)` on the link count. */
  function FewerLinks(items: Items, i: nat): Items
    requires i in items
  {
    items[i := items[i].(nlink := if items[i].nlink == 0 then 0 else items[i].nlink - 1)]
  }

  predicate HasChildren(kids: map<Name, Target>) { exists n :: n in kids && Real(n) }

  // --- the tree --------------------------------------------------------------------------

  /** The entry of this name in directory `d`. */
  function Kid(items: Items, d: nat, name: Name): Option<Target> {
    if d in items && name in items[d].kids then Some(items[d].kids[name]) else None
  }

  function TypeAt(items: Items, i: nat): Option<FileType> { if i in items then Some(items[i].ft) else None }

  predicate DirAt(items: Items, d: nat) { TypeAt(items, d) == Some(Directory) }

  function Parent(items: Items, d: nat): nat {
    var up := Kid(items, d, DOTDOT);
    if up.Some? then up.value.ino else d
  }

  /** The directory `n` steps up. */
  function Up(items: Items, d: nat, n: nat): nat
    decreases n
  {
    if n == 0 then d else Up(items, Parent(items, d), n - 1)
  }

  ghost predicate Below(items: Items, d: nat, a: nat) { exists n: nat :: Up(items, d, n) == a }

  /** `a` is `d` or one of the `n` directories above it. */
  predicate Reaches(items: Items, d: nat, a: nat, n: nat)
    decreases n
  {
    d == a || (n > 0 && Reaches(items, Parent(items, d), a, n - 1))
  }

  lemma {:induction false} ReachesIff(items: Items, d: nat, a: nat, n: nat)
    ensures Reaches(items, d, a, n) <==> exists k: nat :: k <= n && Up(items, d, k) == a
    decreases n
  {
    if d == a {
      assert Up(items, d, 0) == a;
    } else if n > 0 {
      var p := Parent(items, d);
      ReachesIff(items, p, a, n - 1);
      if Reaches(items, p, a, n - 1) {
        var k: nat :| k <= n - 1 && Up(items, p, k) == a;
        var m: nat := k + 1;
        assert Up(items, d, m) == Up(items, p, k);
        assert exists k: nat :: k <= n && Up(items, d, k) == a;
      } else {
        forall k: nat | k <= n ensures Up(items, d, k) != a {
          if k > 0 {
            var j: nat := k - 1;
            assert Up(items, d, k) == Up(items, p, j);
            assert j <= n - 1;
          }
        }
      }
    }
  }

  // --- admission: the checks of each call, in their order -----------------------------------------

  function Admit(s: State, writable: bool, op: Op): Result<()> {
    match op
    case Create(parent, name, ft) => AdmitCreate(s.items, writable, parent, name)
    case Link(target, parent, name) => AdmitLink(s.items, writable, target, parent, name)
    case Unlink(parent, name, rmdir) => AdmitUnlink(s.items, writable, parent, name, rmdir)
    case Rename(op, on, np, nn) => AdmitRename(s.items, writable, op, on, np, nn)
    case Open(_) => Ok(())
    case Close(_) => Ok(())
  }

  /** The directory `parent` exists, is a directory, and the name may be looked up in it. */
  function AdmitDir(items: Items, parent: nat): Result<()> {
    if parent !in items then Err(EIO) else if !items[parent].IsDir() then Err(ENOTDIR) else Ok(())
  }

  function AdmitCreate(items: Items, writable: bool, parent: nat, name: Name): Result<()> {
    if !writable then Err(EROFS)
    else if ValidateName(name).Err? then ValidateName(name)
    else if AdmitDir(items, parent).Err? then AdmitDir(items, parent)
    else if name in items[parent].kids then Err(EEXIST)
    else Ok(())
  }

  function AdmitLink(items: Items, writable: bool, target: nat, parent: nat, name: Name): Result<()> {
    if !writable then Err(EROFS)
    else if ValidateName(name).Err? then ValidateName(name)
    else if target !in items then Err(EIO)
    else if items[target].IsDir() then Err(EPERM)
    else if AdmitDir(items, parent).Err? then AdmitDir(items, parent)
    else if name in items[parent].kids then Err(EEXIST)
    else Ok(())
  }

  function AdmitUnlink(items: Items, writable: bool, parent: nat, name: Name, rmdir: bool): Result<()> {
    if !writable then Err(EROFS)
    else if ValidateName(name).Err? then ValidateName(name)
    else if AdmitDir(items, parent).Err? then AdmitDir(items, parent)
    else if name !in items[parent].kids then Err(ENOENT)
    else
      var t := items[parent].kids[name];
      if rmdir && !t.ft.Directory? then Err(ENOTDIR)
      else if rmdir && t.ino in items && HasChildren(items[t.ino].kids) then Err(ENOTEMPTY)
      else if !rmdir && t.ft.Directory? then Err(EISDIR)
      else Ok(())
  }

  function AdmitRename(items: Items, writable: bool, op: nat, on: Name, np: nat, nn: Name): Result<()> {
    if !writable then Err(EROFS)
    else if ValidateName(on).Err? then ValidateName(on)
    else if ValidateName(nn).Err? then ValidateName(nn)
    else if op !in items || np !in items then Err(EIO)
    else if !items[op].IsDir() then Err(ENOTDIR)
    else if on !in items[op].kids then Err(ENOENT)
    else if op == np && on == nn then Ok(())
    else if !items[np].IsDir() then Err(ENOTDIR)
    else
      var src := items[op].kids[on];
      if src.ft.Directory? && Reaches(items, np, src.ino, ANCESTOR_GUARD) then Err(EINVAL)
      else if nn !in items[np].kids then Ok(())
      else
        var dest := items[np].kids[nn];
        if dest.ino == src.ino then Ok(())
        else if src.ft.Directory? && !dest.ft.Directory? then Err(ENOTDIR)
        else if !src.ft.Directory? && dest.ft.Directory? then Err(EISDIR)
        else if dest.ino in items && dest.ft.Directory? && HasChildren(items[dest.ino].kids) then Err(ENOTEMPTY)
        else Ok(())
  }

  // --- effects ---------------------------------------------------------------------------

  function NextIno(s: State): nat { if s.free == [] then s.next else s.free[|s.free| - 1] }

  /** The item of a new inode: a directory starts with `.` and `..`. */
  function NewItem(ino: nat, parent: nat, ft: FileType): Item {
    if ft.Directory? then Item(ft, 2, map[DOT := Target(ino, Directory), DOTDOT := Target(parent, Directory)])
    else Item(ft, 1, map[])
  }

  /** The items with a new inode `ino` named in `parent`. */
  function Created(items: Items, ino: nat, parent: nat, name: Name, ft: FileType): Items
    requires parent in items
  {
    var more := items[ino := NewItem(ino, parent, ft)];
    Bind(if ft.Directory? then MoreLinks(more, parent) else more, parent, name, Target(ino, ft))
  }

  function AfterCreate(s: State, parent: nat, name: Name, ft: FileType): State
    requires parent in s.items
  {
    s.(items := Created(s.items, NextIno(s), parent, name, ft),
       free := if s.free == [] then [] else s.free[..|s.free| - 1],
       next := if s.free == [] then s.next + 1 else s.next)
  }

  /** The items with one more name for `target`. */
  function Linked(items: Items, target: nat, parent: nat, name: Name): Items
    requires parent in items && target in items
  {
    MoreLinks(Bind(items, parent, name, Target(target, items[target].ft)), target)
  }

  function AfterLink(s: State, target: nat, parent: nat, name: Name): State
    requires parent in s.items && target in s.items
  {
    s.(items := Linked(s.items, target, parent, name))
  }

  function Dropped(s: State, ino: nat): State {
    s.(items := s.items - {ino}, free := if ino >= FIRST_USER_INO then s.free + [ino] else s.free)
  }

  /** The items after an entry is removed and both link counts adjusted. */
  function Detached(items: Items, parent: nat, name: Name): Items
    requires parent in items && name in items[parent].kids && items[parent].kids[name].ino in items
  {
    var t := items[parent].kids[name];
    var cut := Unbind(items, parent, name);
    FewerLinks(if t.ft.Directory? then FewerLinks(cut, parent) else cut, t.ino)
  }

  function AfterUnlink(s: State, parent: nat, name: Name): State
    requires parent in s.items && name in s.items[parent].kids && s.items[parent].kids[name].ino in s.items
  {
    var ino := s.items[parent].kids[name].ino;
    var cut := s.(items := Detached(s.items, parent, name));
    if cut.items[ino].nlink != 0 then cut
    else if ino in s.opens then cut.(orphans := cut.orphans + {ino})
    else Dropped(cut, ino)
  }

  /** The items after an entry moves, its destination name being free. */
  function Moved(items: Items, op: nat, on: Name, np: nat, nn: Name): Items
    requires op in items && np in items && on in items[op].kids && items[op].kids[on].ino in items
  {
    var src := items[op].kids[on];
    var bound := Bind(Unbind(items, op, on), np, nn, src);
    if src.ft.Directory? && op != np then
      var pointed := if DOTDOT in bound[src.ino].kids
                     then Bind(bound, src.ino, DOTDOT, bound[src.ino].kids[DOTDOT].(ino := np)) else bound;
      MoreLinks(FewerLinks(pointed, op), np)
    else bound
  }

  function AfterRename(s: State, op: nat, on: Name, np: nat, nn: Name): State
    requires op in s.items && np in s.items && on in s.items[op].kids && s.items[op].kids[on].ino in s.items
    requires nn in s.items[np].kids ==> s.items[np].kids[nn].ino in s.items
  {
    var src := s.items[op].kids[on];
    if op == np && on == nn then s
    else if nn !in s.items[np].kids then s.(items := Moved(s.items, op, on, np, nn))
    else if s.items[np].kids[nn].ino == src.ino then s
    else
      var cleared := AfterUnlink(s, np, nn);
      if op in cleared.items && np in cleared.items && on in cleared.items[op].kids && cleared.items[op].kids[on].ino in cleared.items
      then cleared.(items := Moved(cleared.items, op, on, np, nn))
      else cleared
  }

  function AfterOpen(s: State, ino: nat): State {
    s.(opens := s.opens[ino := (if ino in s.opens then s.opens[ino] else 0) + 1])
  }

  function AfterClose(s: State, ino: nat): State {
    if ino !in s.opens then s
    else if s.opens[ino] > 1 then s.(opens := s.opens[ino := s.opens[ino] - 1])
    else
      var closed := s.(opens := s.opens - {ino});
      if ino !in s.orphans then closed
      else
        var gone := closed.(orphans := s.orphans - {ino});
        if ino in s.items && s.items[ino].nlink > 0 then gone else Dropped(gone, ino)
  }

  /** Every entry refers to an inode of the recorded type. */
  ghost predicate Closed(items: Items) {
    forall d: nat, n: Name :: Kid(items, d, n).Some? ==> TypeAt(items, Kid(items, d, n).value.ino) == Some(Kid(items, d, n).value.ft)
  }

  /** One call, on a namespace without dangling entries. A refused call changes nothing. */
  ghost function Step(s: State, writable: bool, op: Op): State {
    if Admit(s, writable, op).Err? || !Closed(s.items) then s else
    match op
    case Create(parent, name, ft) => AfterCreate(s, parent, name, ft)
    case Link(target, parent, name) => AfterLink(s, target, parent, name)
    case Unlink(parent, name, rmdir) =>
      assert Kid(s.items, parent, name).Some?;
      AfterUnlink(s, parent, name)
    case Rename(op, on, np, nn) =>
      assert Kid(s.items, op, on).Some? && (nn in s.items[np].kids ==> Kid(s.items, np, nn).Some?);
      AfterRename(s, op, on, np, nn)
    case Open(ino) => AfterOpen(s, ino)
    case Close(ino) => AfterClose(s, ino)
  }
}
