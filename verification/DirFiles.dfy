/**
  Directories as files, over any run: the entry lists the namespace works on are the decoded bytes of the
  directories' files, whatever else is written, cut, flushed or created in between.
*/
module DirFiles {
  import opened Wrappers
  import opened Format
  import opened Tree
  import opened Compress
  import opened Ownership
  import opened FileView
  import opened FileWrites
  import opened FileCuts
  import opened FileData
  import Namespace
  import opened DirCodec

  /** The entry list of each directory. */
  type Dirs = map<nat, seq<DirEntry>>

  /** The lists the namespace holds. */
  function ListsOf(nodes: map<nat, Namespace.Node>): Dirs { map d | d in nodes && nodes[d].ft.Directory? :: nodes[d].entries }

  /** Every directory's file decodes to its list. */
  ghost predicate Lists(codec: Codec, rb: nat, s: Snap, dirs: Dirs)
    requires rb > 0
  {
    forall d: nat :: d in dirs ==> d in s.inodes && Decoded(Content(codec, rb, s, d)) == Ok(dirs[d])
  }

  datatype Act =
    | WriteDir(dir: nat, es: seq<DirEntry>)
    | ReadDir(dir: nat)
    | MakeDir(ino: nat, compression: Compression)
    | Data(step: Step)

  /** Entries that the widths of the directory format hold. */
  predicate Narrow(es: seq<DirEntry>) { |es| < U32 && forall e :: e in es ==> DirCodec.Fits(e) }

  /** The bytes of directories are written and cut as directories only. */
  predicate Allowed(dirs: Dirs, act: Act) {
    match act
    case WriteDir(dir, es) => dir in dirs && Narrow(es)
    case ReadDir(dir) => dir in dirs
    case MakeDir(_, _) => true
    case Data(Write(ino, _, _)) => ino !in dirs
    case Data(Truncate(ino, _)) => ino !in dirs
    case Data(_) => true
  }

  /** What an act does to the lists. A list too long for a file leaves the directory empty. */
  function Listed(writable: bool, all: set<nat>, dirs: Dirs, act: Act): Dirs {
    match act
    case WriteDir(dir, es) => if writable then dirs[dir := if |Encoded(es)| <= MAX_FILE_SIZE then es else []] else dirs
    case MakeDir(ino, _) => if writable && ino !in all then dirs[ino := []] else dirs
    case _ => dirs
  }

  /** The inodes after an act. */
  function Present(writable: bool, all: set<nat>, act: Act): set<nat> {
    match act
    case MakeDir(ino, _) => if writable then all + {ino} else all
    case Data(Create(ino, _)) => if writable then all + {ino} else all
    case _ => all
  }

  predicate AllAllowed(writable: bool, all: set<nat>, dirs: Dirs, acts: seq<Act>)
    decreases |acts|
  {
    acts == []
    || (Allowed(dirs, acts[0])
        && AllAllowed(writable, Present(writable, all, acts[0]), Listed(writable, all, dirs, acts[0]), acts[1..]))
  }

  function AllListed(writable: bool, all: set<nat>, dirs: Dirs, acts: seq<Act>): Dirs
    decreases |acts|
  {
    if acts == [] then dirs
    else AllListed(writable, Present(writable, all, acts[0]), Listed(writable, all, dirs, acts[0]), acts[1..])
  }

  /** The lists that the reads of directories must return, in order. */
  function Answers(writable: bool, all: set<nat>, dirs: Dirs, acts: seq<Act>): seq<seq<DirEntry>>
    requires AllAllowed(writable, all, dirs, acts)
    decreases |acts|
  {
    if acts == [] then []
    else
      (if acts[0].ReadDir? then [dirs[acts[0].dir]] else [])
        + Answers(writable, Present(writable, all, acts[0]), Listed(writable, all, dirs, acts[0]), acts[1..])
  }

  // --- the lists stay -------------------------------------------------------------------------

  lemma ListsExcept(codec: Codec, rb: nat, a: Snap, b: Snap, dirs: Dirs, ino: nat)
    requires rb > 0 && Lists(codec, rb, a, dirs) && SameExcept(codec, rb, a, b, ino)
    requires ino in dirs ==> ino in b.inodes && Decoded(Content(codec, rb, b, ino)) == Ok(dirs[ino])
    ensures Lists(codec, rb, b, dirs)
  {
    hide Content, Decoded, RecordByte;
    forall d: nat | d in dirs ensures d in b.inodes && Decoded(Content(codec, rb, b, d)) == Ok(dirs[d]) {
      if d != ino {
        assert SameFile(codec, rb, a, b, d);
        SameContent(codec, rb, a, b, d);
      }
    }
  }

  lemma ListsSame(codec: Codec, rb: nat, a: Snap, b: Snap, dirs: Dirs)
    requires rb > 0 && Lists(codec, rb, a, dirs) && SameAll(codec, rb, a, b)
    ensures Lists(codec, rb, b, dirs) && b.inodes.Keys == a.inodes.Keys
  {
    hide Content, Decoded, RecordByte;
    forall d: nat | d in dirs ensures d in b.inodes && Decoded(Content(codec, rb, b, d)) == Ok(dirs[d]) {
      assert SameFile(codec, rb, a, b, d);
      SameContent(codec, rb, a, b, d);
    }
  }

  /** One directory has a new list. */
  lemma ListsChanged(codec: Codec, rb: nat, a: Snap, b: Snap, dirs: Dirs, dir: nat, es: seq<DirEntry>)
    requires rb > 0 && Lists(codec, rb, a, dirs) && SameExcept(codec, rb, a, b, dir)
    requires dir in b.inodes && Decoded(Content(codec, rb, b, dir)) == Ok(es)
    ensures Lists(codec, rb, b, dirs[dir := es])
  {
    hide Content, Decoded, RecordByte;
    forall d: nat | d in dirs && d != dir ensures d in b.inodes && Decoded(Content(codec, rb, b, d)) == Ok(dirs[d]) {
      assert SameFile(codec, rb, a, b, d);
      SameContent(codec, rb, a, b, d);
    }
  }

  lemma ListsMore(codec: Codec, rb: nat, a: Snap, b: Snap, dirs: Dirs, ino: nat)
    requires rb > 0 && Lists(codec, rb, a, dirs) && ino !in a.inodes && ino in b.inodes && Content(codec, rb, b, ino) == []
    requires forall j: nat :: j in a.inodes ==> SameFile(codec, rb, a, b, j)
    ensures Lists(codec, rb, b, dirs) && Lists(codec, rb, b, dirs[ino := []])
  {
    hide Content, RecordByte;
    forall d: nat | d in dirs ensures d in b.inodes && Decoded(Content(codec, rb, b, d)) == Ok(dirs[d]) {
      assert SameFile(codec, rb, a, b, d);
      SameContent(codec, rb, a, b, d);
    }
  }

  lemma ListAt(codec: Codec, rb: nat, s: Snap, dirs: Dirs, dir: nat)
    requires rb > 0 && Lists(codec, rb, s, dirs) && dir in dirs
    ensures dir in s.inodes && Decoded(Content(codec, rb, s, dir)) == Ok(dirs[dir])
  {
  }

  /** A rewritten directory of the namespace is a rewritten list. */
  lemma ListsOfWrite(nodes: map<nat, Namespace.Node>, dir: nat, es: seq<DirEntry>)
    requires dir in nodes && nodes[dir].ft.Directory?
    ensures ListsOf(nodes[dir := nodes[dir].(entries := es)]) == ListsOf(nodes)[dir := es]
  {
  }

  // --- runs -------------------------------------------------------------------------------------

  /** One act on the files. */
  method Perform(fs: Inner, act: Act, ghost dirs: Dirs) returns (answer: seq<DirEntry>)
    requires fs.Valid() && fs.recordBlocks > 0 && Lists(fs.codec, fs.recordBlocks, fs.Now(), dirs) && Allowed(dirs, act)
    modifies fs`inodes, fs`owner, fs`recordCache, fs.alloc, fs.cache, fs.image
    ensures fs.Valid()
    ensures fs.inodes.Keys == Present(fs.writable, old(fs.inodes.Keys), act)
    ensures Lists(fs.codec, fs.recordBlocks, fs.Now(), Listed(fs.writable, old(fs.inodes.Keys), dirs, act))
    ensures act.ReadDir? ==> answer == dirs[act.dir]
  {
    hide Lists, Content, Decoded, Encoded, SameFile, SameAll, SameExcept, Clean, Inner.Valid, Inner.Ledger, Conserved, Truncated, Landed;
    ghost var codec, rb, s0 := fs.codec, fs.recordBlocks, fs.Now();
    answer := [];
    match act {
      case WriteDir(dir, es) =>
        ListAt(codec, rb, s0, dirs, dir);
        var r := WriteDirEntries(fs, dir, es);
        ExceptKeys(codec, rb, s0, fs.Now(), dir);
        DirRoundTrip(es);
        EmptyDecodes();
        if r == Err(EROFS) {
          ListsSame(codec, rb, s0, fs.Now(), dirs);
        } else {
          ListsChanged(codec, rb, s0, fs.Now(), dirs, dir, if |Encoded(es)| <= MAX_FILE_SIZE then es else []);
        }
      case ReadDir(dir) =>
        ListAt(codec, rb, s0, dirs, dir);
        var r := ParseDir(fs, dir);
        answer := r.value;
        ListsSame(codec, rb, s0, fs.Now(), dirs);
      case MakeDir(ino, compression) =>
        if fs.writable && ino !in fs.inodes {
          fs.NewFile(ino, compression);
          ListsMore(codec, rb, s0, fs.Now(), dirs, ino);
        }
      case Data(step) => PerformData(fs, step, dirs);
    }
  }

  lemma ExceptKeys(codec: Codec, rb: nat, a: Snap, b: Snap, ino: nat)
    requires SameExcept(codec, rb, a, b, ino)
    ensures b.inodes.Keys == a.inodes.Keys
  {
  }

  lemma EmptyDecodes()
    ensures Decoded([]) == Ok([])
  {
  }

  method PerformData(fs: Inner, step: Step, ghost dirs: Dirs)
    requires fs.Valid() && fs.recordBlocks > 0 && Lists(fs.codec, fs.recordBlocks, fs.Now(), dirs) && Allowed(dirs, Data(step))
    modifies fs`inodes, fs`owner, fs`recordCache, fs.alloc, fs.cache, fs.image
    ensures fs.Valid() && Lists(fs.codec, fs.recordBlocks, fs.Now(), dirs)
    ensures fs.inodes.Keys == Present(fs.writable, old(fs.inodes.Keys), Data(step))
  {
    hide Lists, Content, Decoded, Encoded, SameFile, SameAll, SameExcept, Clean, Inner.Valid, Inner.Ledger, Conserved, Truncated, Landed;
    ghost var codec, rb, s0 := fs.codec, fs.recordBlocks, fs.Now();
    match step {
      case Write(ino, offset, buf) =>
        var r := fs.WriteData(ino, offset, buf);
        ExceptKeys(codec, rb, s0, fs.Now(), ino);
        ListsExcept(codec, rb, s0, fs.Now(), dirs, ino);
      case Truncate(ino, size) =>
        var r := fs.TruncateData(ino, size);
        ExceptKeys(codec, rb, s0, fs.Now(), ino);
        ListsExcept(codec, rb, s0, fs.Now(), dirs, ino);
      case Read(ino, offset, len) =>
        var r := fs.ReadData(ino, offset, len);
        ListsSame(codec, rb, s0, fs.Now(), dirs);
      case Flush =>
        fs.FlushRecordCache();
        ListsSame(codec, rb, s0, fs.Now(), dirs);
      case Create(ino, compression) =>
        if fs.writable && ino !in fs.inodes {
          fs.NewFile(ino, compression);
          ListsMore(codec, rb, s0, fs.Now(), dirs, ino);
        }
      case SetCompression(ino, compression) =>
        if ino in dirs { ListAt(codec, rb, s0, dirs, ino); }
        var r := fs.SetInodeCompression(ino, compression);
        ExceptKeys(codec, rb, s0, fs.Now(), ino);
        ListsExcept(codec, rb, s0, fs.Now(), dirs, ino);
    }
  }

  /** The front of a run, unfolded. */
  lemma RunFront(writable: bool, all: set<nat>, dirs: Dirs, acts: seq<Act>)
    requires acts != [] && AllAllowed(writable, all, dirs, acts)
    ensures var all1, dirs1 := Present(writable, all, acts[0]), Listed(writable, all, dirs, acts[0]);
      && Allowed(dirs, acts[0]) && AllAllowed(writable, all1, dirs1, acts[1..])
      && AllListed(writable, all, dirs, acts) == AllListed(writable, all1, dirs1, acts[1..])
      && Answers(writable, all, dirs, acts) ==
           (if acts[0].ReadDir? then [dirs[acts[0].dir]] else []) + Answers(writable, all1, dirs1, acts[1..])
  {
  }

  lemma RunEnd(writable: bool, all: set<nat>, dirs: Dirs)
    ensures AllAllowed(writable, all, dirs, []) && AllListed(writable, all, dirs, []) == dirs
    ensures Answers(writable, all, dirs, []) == []
  {
  }

  /** Any run of directory rewrites and reads, among any other file operations: each read returns the list last written. */
  method RunActs(fs: Inner, acts: seq<Act>, ghost dirs0: Dirs) returns (answers: seq<seq<DirEntry>>)
    requires fs.Valid() && fs.recordBlocks > 0 && Lists(fs.codec, fs.recordBlocks, fs.Now(), dirs0)
    requires AllAllowed(fs.writable, fs.inodes.Keys, dirs0, acts)
    modifies fs`inodes, fs`owner, fs`recordCache, fs.alloc, fs.cache, fs.image
    ensures fs.Valid()
    ensures Lists(fs.codec, fs.recordBlocks, fs.Now(), AllListed(fs.writable, old(fs.inodes.Keys), dirs0, acts))
    ensures answers == Answers(fs.writable, old(fs.inodes.Keys), dirs0, acts)
  {
    hide Lists, Inner.Valid, Inner.Now, AllAllowed, AllListed, Answers, Allowed, Listed, Present;
    ghost var dirs := dirs0;
    answers := [];
    assert acts[0..] == acts;
    for k := 0 to |acts|
      invariant fs.Valid() && Lists(fs.codec, fs.recordBlocks, fs.Now(), dirs)
      invariant AllAllowed(fs.writable, fs.inodes.Keys, dirs, acts[k..])
      invariant AllListed(fs.writable, fs.inodes.Keys, dirs, acts[k..]) == AllListed(fs.writable, old(fs.inodes.Keys), dirs0, acts)
      invariant answers + Answers(fs.writable, fs.inodes.Keys, dirs, acts[k..]) == Answers(fs.writable, old(fs.inodes.Keys), dirs0, acts)
    {
      ghost var all, rest := fs.inodes.Keys, acts[k..];
      RunFront(fs.writable, all, dirs, rest);
      assert rest[0] == acts[k] && rest[1..] == acts[k + 1..];
      var answer := Perform(fs, acts[k], dirs);
      ghost var dirs1 := Listed(fs.writable, all, dirs, acts[k]);
      JoinAnswers(answers, if acts[k].ReadDir? then [answer] else [], Answers(fs.writable, fs.inodes.Keys, dirs1, acts[k + 1..]));
      if acts[k].ReadDir? { answers := answers + [answer]; }
      dirs := dirs1;
    }
    assert acts[|acts|..] == [];
    RunEnd(fs.writable, fs.inodes.Keys, dirs);
  }

  lemma JoinAnswers(a: seq<seq<DirEntry>>, b: seq<seq<DirEntry>>, c: seq<seq<DirEntry>>)
    ensures a + (b + c) == (a + b) + c && a + [] == a
  {
  }

  // --- both halves of an inode ------------------------------------------------------------------

  /** `write_dir_entries` on the namespace's list and on the directory's file: they stay the same list. */
  method WriteBoth(ns: Namespace.Inner, fs: Inner, dir: nat, es: seq<DirEntry>) returns (r: Result<()>)
    requires fs.Valid() && fs.recordBlocks > 0 && Lists(fs.codec, fs.recordBlocks, fs.Now(), ListsOf(ns.nodes))
    requires ns.Listed() && dir in ns.nodes && ns.nodes[dir].ft.Directory? && Namespace.Distinct(es) && Narrow(es)
    modifies ns`nodes, fs`inodes, fs`owner, fs`recordCache, fs.alloc, fs.cache, fs.image
    ensures fs.Valid() && ns.Listed()
    ensures r == if !fs.writable then Err(EROFS) else if |Encoded(es)| > MAX_FILE_SIZE then Err(EFBIG) else Ok(())
    ensures r.Ok? ==> ns.nodes == old(ns.nodes)[dir := old(ns.nodes[dir]).(entries := es)]
    ensures r.Ok? ==> Lists(fs.codec, fs.recordBlocks, fs.Now(), ListsOf(ns.nodes))
  {
    hide Lists, Content, Decoded, Encoded, SameAll, SameExcept, Inner.Valid, Namespace.AllDistinct, Namespace.Distinct, ListsOf;
    ghost var s0, nodes0 := fs.Now(), ns.nodes;
    ListOfDir(nodes0, dir);
    ListAt(fs.codec, fs.recordBlocks, s0, ListsOf(nodes0), dir);
    r := WriteDirEntries(fs, dir, es);
    if r.Ok? {
      DirRoundTrip(es);
      ListsChanged(fs.codec, fs.recordBlocks, s0, fs.Now(), ListsOf(nodes0), dir, es);
      ListsOfWrite(nodes0, dir, es);
      ns.WriteDirEntries(dir, es);
    }
  }

  lemma ListOfDir(nodes: map<nat, Namespace.Node>, dir: nat)
    requires dir in nodes && nodes[dir].ft.Directory?
    ensures dir in ListsOf(nodes)
  {
  }
}
