// The file system does what the tree does: every return value and every byte read, after any
// sequence of operations.
module RufsRefinement {
  import opened Wrappers
  import opened Bytes
  import opened Counting
  import opened RufsLayout
  import opened RufsState
  import opened RufsInvariants
  import opened RufsAccount
  import opened RufsDirectories
  import opened RufsNamespace
  import opened RufsMake
  import opened RufsFiles
  import opened RufsReadWrite
  import opened RufsAttributes
  import opened RufsRuns
  import opened RufsTree

  // ----- what the tree shows of the disk -----

  ghost function ModeAt(f: Fs, i: nat): set<nat>
    requires Shape(f)
  {
    if i < MAX_INUM then BitSet(Mode(f.inodes[i])) else {}
  }

  ghost function NodeAt(f: Fs, i: nat): Node
    requires Shape(f)
  {
    var mode := ModeAt(f, i);
    match KindAt(f, i)
    case Directory => Folder(mode)
    case Regular => Plain(mode, FileData(SizeAt(f, i), AllBytes(f, i), BlocksOf(f, i)))
    case _ => Special(mode)
  }

  ghost function FreeNumbers(f: Fs): set<nat>
    requires Shape(f)
  {
    set i: nat | i < MAX_INUM && !f.ibits[i]
  }

  ghost predicate Shows(f: Fs, t: Tree)
    requires Consistent(f)
  {
    && (forall p: seq<Name> :: p in t.nodes <==> Target(f, p).Some?)
    && (forall p: seq<Name> :: p in t.nodes ==> t.nodes[p] == NodeAt(f, Target(f, p).value))
    && t.numbers == |FreeNumbers(f)|
  }

  // Every entry leads to an inode in use, under the name of a path component.
  ghost predicate Live(f: Fs)
    requires Shape(f)
  {
    forall d: nat, n: nat :: Entry(f, d, n).Some? ==> IsLive(f, Entry(f, d, n).value)
  }

  ghost predicate IsLive(f: Fs, e: Dirent)
    requires Shape(f)
  {
    KindAt(f, e.ino) != Absent && exists m: Name :: Matches(e, m)
  }

  // What holds after every operation.
  ghost predicate Good(f: Fs, t: Tree) {
    Inv(f) && Live(f) && Shows(f, t)
  }

  // ----- counting the children of a directory -----

  ghost function UsedEntries(f: Fs, d: nat): set<nat>
    requires Shape(f)
  {
    set n: nat | n < SLOTS && Entry(f, d, n).Some?
  }

  lemma RoomIsUnused(f: Fs, d: nat)
    requires Consistent(f) && KindAt(f, d) == Directory
    ensures HasRoom(f, d) <==> exists n: nat :: n < SLOTS && Entry(f, d, n).None?
  {
    hide KindAt, SlotAt, InodesOk, BlocksOk, EntriesOk, Entry;
    forall s: nat | s < DIRECT
      ensures f.inodes[d].direct[s] != 0 <==> SlotAt(f, d, s).Some?
    {
      SlotRead(f, d, s);
    }
    if k: nat :| k < DIRECT && f.inodes[d].direct[k] == 0 {
      NoSlotNoEntry(f, d, DIRENTS_PER_BLOCK * k);
    }
    if n: nat :| n < SLOTS && Entry(f, d, n).None? {
      assert n / DIRENTS_PER_BLOCK < DIRECT;
    }
  }

  lemma NoSlotNoEntry(f: Fs, d: nat, n: nat)
    requires Shape(f) && SlotAt(f, d, n / DIRENTS_PER_BLOCK).None?
    ensures Entry(f, d, n).None?
  {
  }

  lemma RoomIsCount(f: Fs, d: nat)
    requires Consistent(f) && KindAt(f, d) == Directory
    ensures HasRoom(f, d) <==> |UsedEntries(f, d)| < SLOTS
  {
    hide KindAt, Entry, HasRoom, Consistent;
    InvIsSound(f);
    RoomIsUnused(f, d);
    var used := UsedEntries(f, d);
    SomeMissing(used, SLOTS);
    if n: nat :| n < SLOTS && Entry(f, d, n).None? {
      assert n !in used;
    }
    if n: nat :| n < SLOTS && n !in used {
      assert Entry(f, d, n).None?;
    }
  }

  ghost function NameOf(f: Fs, d: nat, n: nat): (m: Name)
    requires Shape(f) && Entry(f, d, n).Some? && IsLive(f, Entry(f, d, n).value)
    ensures Named(f, d, n, m)
  {
    var m: Name :| Matches(Entry(f, d, n).value, m);
    m
  }

  // A used entry is a child under its name, and every child is one.
  lemma EntryIsChild(f: Fs, d: nat, n: nat)
    requires Consistent(f) && Live(f) && KindAt(f, d) == Directory && Entry(f, d, n).Some?
    ensures n < SLOTS && IsLive(f, Entry(f, d, n).value)
    ensures Child(f, d, NameOf(f, d, n)) == Some(Entry(f, d, n).value.ino)
  {
    hide KindAt, SlotAt, InodesOk, BlocksOk, EntriesOk, DirFind;
    DirFindFinds(f, d, NameOf(f, d, n));
  }

  lemma ChildIsEntry(f: Fs, d: nat, m: Name) returns (n: nat)
    requires Consistent(f) && Live(f) && Child(f, d, m).Some?
    ensures Entry(f, d, n).Some? && IsLive(f, Entry(f, d, n).value) && NameOf(f, d, n) == m
  {
    hide KindAt, Entry, InodesOk, BlocksOk, EntriesOk, DirFind;
    DirFindFinds(f, d, m);
    n :| Named(f, d, n, m);
    var e := Entry(f, d, n).value;
    assert e.name[..|m|] == m && e.name[..|m|] == NameOf(f, d, n);
  }

  lemma TargetOfChild(f: Fs, parent: seq<Name>, name: Name)
    requires Sound(f) && Target(f, parent).Some?
    ensures Target(f, parent + [name]) == Child(f, Target(f, parent).value, name)
  {
    assert (parent + [name])[..|parent|] == parent;
  }

  lemma ChildrenAreEntries(f: Fs, t: Tree, parent: seq<Name>)
    requires Good(f, t) && Target(f, parent).Some? && KindAt(f, Target(f, parent).value) == Directory
    ensures |Children(t, parent)| == |UsedEntries(f, Target(f, parent).value)|
  {
    hide KindAt, Entry, Child, Target, InodesOk, BlocksOk, EntriesOk, Charged, NodeAt, IsLive;
    var d := Target(f, parent).value;
    var used, children := UsedEntries(f, d), Children(t, parent);
    var g := map n: nat | n in used :: parent + [NameOf(f, d, n)];
    forall n | n in used
      ensures g[n] in children
    {
      EntryIsChild(f, d, n);
      TargetOfChild(f, parent, NameOf(f, d, n));
      assert g[n][..|g[n]| - 1] == parent;
    }
    forall q | q in children
      ensures exists n :: n in used && n in g && g[n] == q
    {
      assert q == parent + [q[|q| - 1]];
      TargetOfChild(f, parent, q[|q| - 1]);
      var n := ChildIsEntry(f, d, q[|q| - 1]);
      EntryIsChild(f, d, n);
      assert n in used;
    }
    forall n, k | n in used && k in used && g[n] == g[k]
      ensures n == k
    {
      assert g[n][|parent|] == g[k][|parent|];
      SameNameSameEntry(f, d, n, k);
    }
    MatchedSize(used, children, g);
  }

  lemma SameNameSameEntry(f: Fs, d: nat, n: nat, k: nat)
    requires Consistent(f) && Live(f) && Entry(f, d, n).Some? && Entry(f, d, k).Some?
    requires NameOf(f, d, n) == NameOf(f, d, k)
    ensures n == k
  {
    hide KindAt, Entry, InodesOk, BlocksOk;
  }

  // ----- the conditions of mkdir and create -----

  lemma FolderIff(f: Fs, t: Tree, p: seq<Name>)
    requires Good(f, t)
    ensures IsFolder(t, p) <==> Target(f, p).Some? && KindAt(f, Target(f, p).value) == Directory
    ensures IsFile(t, p) <==> FileAt(f, p)
  {
    hide KindAt, Target, Consistent, Live;
    InvIsSound(f);
  }

  lemma NumbersLeft(f: Fs, t: Tree)
    requires Good(f, t)
    ensures t.numbers > 0 <==> HasNumber(f)
  {
    hide Consistent, Live, Target;
    InvIsSound(f);
    if i: nat :| i < MAX_INUM && !f.ibits[i] {
      assert i in FreeNumbers(f);
    }
  }

  lemma NewNameIff(f: Fs, t: Tree, parent: seq<Name>, name: Name)
    requires Good(f, t) && Target(f, parent).Some? && KindAt(f, Target(f, parent).value) == Directory
    ensures parent + [name] !in t.nodes <==> forall j: nat :: !Binds(f, Target(f, parent).value, name, j)
  {
    hide KindAt, Entry, DirFind, InodesOk, BlocksOk, EntriesOk, Charged, NodeAt, Target, Child;
    var d := Target(f, parent).value;
    TargetOfChild(f, parent, name);
    NameTaken(f, d, name);
    if Child(f, d, name).Some? {
      var n := ChildIsEntry(f, d, name);
      assert Bound(f, d, n, Entry(f, d, n).value.ino);
    }
    if j: nat :| Binds(f, d, name, j) {
      var n: nat :| Named(f, d, n, name) && Bound(f, d, n, j);
      SameName(f, d, n, name);
      EntryIsChild(f, d, n);
    }
  }

  lemma SameName(f: Fs, d: nat, n: nat, name: Name)
    requires Consistent(f) && Live(f) && Named(f, d, n, name)
    ensures NameOf(f, d, n) == name
  {
    hide KindAt, Entry, InodesOk, BlocksOk, EntriesOk;
    var e := Entry(f, d, n).value;
    assert e.name[..|name|] == name && e.name[..|name|] == NameOf(f, d, n);
  }

  // The tree knows when a node can be made, and what is lost when it cannot.
  lemma CanMakeIff(f: Fs, t: Tree, parent: seq<Name>, name: Name)
    requires Good(f, t)
    ensures CanMake(t, parent, name) <==> CanBind(f, parent, name)
    ensures IsFolder(t, parent) && t.numbers > 0 && !CanMake(t, parent, name) <==> LosesNumber(f, parent, name)
    ensures IsFolder(t, parent) && t.numbers > 0 && NewName(t, parent, name) && |Children(t, parent)| >= SLOTS <==>
            LosesBlock(f, parent, name)
  {
    hide KindAt, Target, Binds, HasRoom, HasNumber, Consistent, Live, Accounted, Shows, Children;
    InvIsSound(f);
    FolderIff(f, t, parent);
    NumbersLeft(f, t);
    if IsFolder(t, parent) {
      NewNameIff(f, t, parent, name);
      RoomIsCount(f, Target(f, parent).value);
      ChildrenAreEntries(f, t, parent);
    }
  }

  // ----- one step -----

  lemma TargetInUse(f: Fs, p: seq<Name>)
    requires Consistent(f) && Target(f, p).Some?
    ensures KindAt(f, Target(f, p).value) != Absent
  {
    LookupFollowsBindings(f, p);
  }

  lemma OneNumberLess(f: Fs, f': Fs, i: nat)
    requires Shape(f) && Shape(f') && OneNumberMore(f, f', i)
    ensures |FreeNumbers(f')| == |FreeNumbers(f)| - 1
  {
    assert FreeNumbers(f) == FreeNumbers(f') + {i};
    assert i !in FreeNumbers(f');
  }

  // The nodes of the inodes that a new entry leaves alone.
  lemma SameNodes(f: Fs, f': Fs, i: nat)
    requires Shape(f) && Shape(f') && SameFiles(f, f') && KindAt(f', i) == KindAt(f, i)
    requires ModeAt(f', i) == ModeAt(f, i)
    ensures NodeAt(f', i) == NodeAt(f, i)
  {
    hide KindAt, SlotAt, SizeAt, ModeAt;
    if KindAt(f, i) == Regular {
      assert AllBytes(f', i) == AllBytes(f, i);
      assert BlocksOf(f', i) == BlocksOf(f, i);
    }
  }

  lemma SameMode(f: Fs, f': Fs, d: nat, i: nat)
    requires Shape(f) && Shape(f') && KeepsInodes(f, f', d) && KindAt(f, i) != Absent
    ensures ModeAt(f', i) == ModeAt(f, i)
  {
    hide BitSet;
  }

  lemma MadeIsLive(f: Fs, f': Fs, d: nat, name: Name, i: nat, kind: Kind)
    requires Shape(f) && Shape(f') && Live(f) && Made(f, f', d, name, i, kind)
    ensures Live(f')
  {
    hide KindAt, Entry, Matches, SameFiles, Bound;
    var n: nat, e: Dirent :| AddsName(f, f', d, n, e, name, i);
    assert Matches(e, name);
    forall c: nat, m: nat | Entry(f', c, m).Some?
      ensures IsLive(f', Entry(f', c, m).value)
    {
      if c != d || m != n {
        assert Entry(f', c, m) == Entry(f, c, m);
        assert IsLive(f, Entry(f, c, m).value);
      }
    }
  }

  lemma MadeShows(f: Fs, f': Fs, t: Tree, parent: seq<Name>, name: Name, i: nat, kind: Kind)
    requires Good(f, t) && Inv(f') && CanBind(f, parent, name) && OneNumberMore(f, f', i)
    requires Made(f, f', Target(f, parent).value, name, i, kind) && SizeAt(f', i) == 0
    requires Grows(f, f', Target(f, parent).value)
    ensures Good(f', Make(t, parent, name, NodeAt(f', i)))
  {
    hide KindAt, Target, Child, Binds, HasRoom, HasNumber, InodesOk, BlocksOk, EntriesOk, Charged, NodeAt, SizeAt,
      FreeNumbers, Children, Live, SameFiles, Made;
    CanMakeIff(f, t, parent, name);
    MadeAddsPath(f, f', parent, name, i, kind);
    MadeIsLive(f, f', Target(f, parent).value, name, i, kind);
    OneNumberLess(f, f', i);
    var path := parent + [name];
    forall p: seq<Name> | p != path && Target(f, p).Some?
      ensures Target(f', p) == Target(f, p) && NodeAt(f', Target(f, p).value) == NodeAt(f, Target(f, p).value)
    {
      TargetInUse(f, p);
      SameMode(f, f', Target(f, parent).value, Target(f, p).value);
      SameNodes(f, f', Target(f, p).value);
    }
  }

  // The tables are as before; at most an inode number is gone.
  lemma FailedShows(f: Fs, f': Fs, t: Tree, numbers: nat)
    requires Good(f, t) && Inv(f') && f'.inodes == f.inodes && f'.data == f.data && numbers == |FreeNumbers(f')|
    ensures Good(f', t.(numbers := numbers))
  {
    hide KindAt, SlotAt, Entry, SizeAt, Bound, Named, Target, InodesOk, BlocksOk, EntriesOk, Charged, FreeNumbers,
      SameFiles;
    SameTables(f, f');
    SameTablesSamePaths(f, f');
    forall p: seq<Name> | Target(f, p).Some?
      ensures NodeAt(f', Target(f, p).value) == NodeAt(f, Target(f, p).value)
    {
      SameNodes(f, f', Target(f, p).value);
    }
  }

  lemma NewNodeAt(f: Fs, i: nat, kind: nat, mode: ModeArg)
    requires Shape(f) && (kind == IFDIR || kind == IFREG) && KindAt(f, i) == MadeKind(kind, mode)
    requires SizeAt(f, i) == 0 && (KindAt(f, i) == Regular ==> forall k: nat :: SlotAt(f, i, k) == None)
    requires i < MAX_INUM && BitSet(Mode(f.inodes[i])) == BitSet(kind) + BitSet(mode)
    ensures NodeAt(f, i) == NewNode(kind, mode)
  {
    hide KindAt, SlotAt, SizeAt, MadeKind, BitSet;
    if KindAt(f, i) == Regular {
      assert AllBytes(f, i) == Zeros(FILE_MAX);
      assert BlocksOf(f, i) == {};
    }
  }

  lemma MadeKindAt(f: Fs, f': Fs, d: nat, name: Name, i: nat, kind: Kind)
    requires Shape(f) && Shape(f') && Made(f, f', d, name, i, kind)
    ensures KindAt(f', i) == kind && (kind != Regular ==> SizeAt(f', i) == 0)
  {
  }

  lemma MkdirStep(f: Fs, t: Tree, parent: seq<Name>, name: Name, mode: ModeArg)
    requires Good(f, t)
    ensures var (f', r) := Mkdir(f, parent, name, mode);
            var (t', q) := TreeStep(t, OpMkdir(parent, name, mode));
            Good(f', t') && r == q
  {
    hide KindAt, SlotAt, SizeAt, Target, InodesOk, BlocksOk, EntriesOk, Charged, Made, Binds, HasRoom,
      HasNumber, CanMake, NodeAt, FreeNumbers, Live, LosesNumber, LosesBlock, LostBlocks, Mkdir, NewNode,
      Grows, BitSet;
    InvIsSound(f);
    MkdirMakes(f, parent, name, mode);
    CanMakeIff(f, t, parent, name);
    FolderIff(f, t, parent);
    var (f', r) := Mkdir(f, parent, name, mode);
    if r == 0 {
      MkdirKeeps(f, parent, name, mode);
      var i: nat :| Made(f, f', Target(f, parent).value, name, i, MadeKind(IFDIR, mode)) && OneNumberMore(f, f', i)
                    && IsNew(f'.inodes[i], i, IFDIR, 2, mode);
      MadeKindAt(f, f', Target(f, parent).value, name, i, MadeKind(IFDIR, mode));
      NewNodeAt(f', i, IFDIR, mode);
      MadeShows(f, f', t, parent, name, i, MadeKind(IFDIR, mode));
    } else {
      AttemptShows(f, f', t, parent, name, NewNode(IFDIR, mode));
    }
  }

  // A failed attempt has cost an inode number exactly when it got as far as taking one.
  lemma AttemptShows(f: Fs, f': Fs, t: Tree, parent: seq<Name>, name: Name, node: Node)
    requires Good(f, t) && Inv(f') && !CanBind(f, parent, name) && f'.inodes == f.inodes && f'.data == f.data
    requires if LosesNumber(f, parent, name) then exists i: nat :: OneNumberMore(f, f', i) else f' == f
    ensures Good(f', Make(t, parent, name, node))
  {
    hide KindAt, Target, InodesOk, BlocksOk, EntriesOk, Charged, CanBind, CanMake, NodeAt, FreeNumbers, Live,
      LosesNumber, LosesBlock, OneNumberMore;
    CanMakeIff(f, t, parent, name);
    if LosesNumber(f, parent, name) {
      var i: nat :| OneNumberMore(f, f', i);
      OneNumberLess(f, f', i);
      FailedShows(f, f', t, t.numbers - 1);
    }
  }

  lemma CreateStep(f: Fs, t: Tree, parent: seq<Name>, name: Name, mode: ModeArg)
    requires Good(f, t)
    ensures var (f', r) := Create(f, parent, name, mode);
            var (t', q) := TreeStep(t, OpCreate(parent, name, mode));
            Good(f', t') && r == q
  {
    hide KindAt, SlotAt, SizeAt, Target, InodesOk, BlocksOk, EntriesOk, Charged, Made, Binds, HasRoom,
      HasNumber, CanMake, NodeAt, FreeNumbers, Live, LosesNumber, LosesBlock, LostBlocks, Create, NewNode,
      Grows, BitSet;
    InvIsSound(f);
    CreateMakes(f, parent, name, mode);
    CanMakeIff(f, t, parent, name);
    FolderIff(f, t, parent);
    NumbersLeft(f, t);
    var (f', r) := Create(f, parent, name, mode);
    if r == 0 {
      CreateKeeps(f, parent, name, mode);
      var i: nat :| Made(f, f', Target(f, parent).value, name, i, MadeKind(IFREG, mode))
                    && SizeAt(f', i) == 0 && (forall k: nat :: SlotAt(f', i, k) == None) && OneNumberMore(f, f', i)
                    && IsNew(f'.inodes[i], i, IFREG, 1, mode);
      MadeKindAt(f, f', Target(f, parent).value, name, i, MadeKind(IFREG, mode));
      NewNodeAt(f', i, IFREG, mode);
      MadeShows(f, f', t, parent, name, i, MadeKind(IFREG, mode));
    } else {
      AttemptShows(f, f', t, parent, name, NewNode(IFREG, mode));
    }
  }

  // The file that a write leaves is the one the tree has.
  lemma WrittenNode(f: Fs, f': Fs, i: nat, w: FileWrite, r: nat)
    requires Shape(f) && Shape(f') && KindAt(f, i) == Regular && KindAt(f', i) == Regular
    requires WriteDone(f, f', i, w.buf, w.offset, r) && ModeAt(f', i) == ModeAt(f, i)
    ensures r == Stored(w)
    ensures NodeAt(f', i) == Plain(NodeAt(f, i).mode, AfterWrite(NodeAt(f, i).file, w))
  {
    hide KindAt, SlotAt, SizeAt, ByteAt, ModeAt;
    var x, y := NodeAt(f, i).file, NodeAt(f', i).file;
    assert y.bytes == AfterWrite(x, w).bytes;
    assert y.blocks == AfterWrite(x, w).blocks;
  }

  lemma OtherNodes(f: Fs, f': Fs, i: nat, j: nat)
    requires Inv(f) && Inv(f') && OnlyThisFile(f, f', i) && j != i && ModeAt(f', j) == ModeAt(f, j)
    ensures NodeAt(f', j) == NodeAt(f, j)
  {
    hide ModeAt, KindAt, SlotAt, SizeAt, Entry, InodesOk, BlocksOk, EntriesOk, Charged, Content, SamePaths;
    assert KindAt(f', j) == KindAt(f, j);
    assert AllBytes(f', j) == AllBytes(f, j);
    assert BlocksOf(f', j) == BlocksOf(f, j);
  }

  lemma SameLive(f: Fs, f': Fs, i: nat)
    requires Shape(f) && Shape(f') && OnlyFile(f, f', i) && Live(f)
    ensures Live(f')
  {
    hide KindAt, SlotAt, Entry, Matches;
    forall d: nat, n: nat | Entry(f', d, n).Some?
      ensures IsLive(f', Entry(f', d, n).value)
    {
      assert IsLive(f, Entry(f, d, n).value);
    }
  }

  lemma WriteStep(f: Fs, t: Tree, path: seq<Name>, buf: seq<Byte>, offset: nat)
    requires Good(f, t)
    ensures var (f', r) := Write(f, path, buf, offset);
            var (t', q) := TreeStep(t, OpWrite(path, buf, offset));
            Good(f', t') && r == q
  {
    hide KindAt, SlotAt, SizeAt, Entry, Target, InodesOk, BlocksOk, EntriesOk, Charged, Live, LostBlocks, Write,
      OnlyFile, OnlyThisFile, WriteDone, AfterWrite, Stored, NodeAt, ModeAt, KeepsInodes;
    InvIsSound(f);
    WriteKeepsTheRest(f, path, buf, offset);
    FolderIff(f, t, path);
    if FileAt(f, path) {
      var i := Target(f, path).value;
      var (f', r) := Write(f, path, buf, offset);
      WriteFile(f, path, buf, offset);
      SameLive(f, f', i);
      assert KindAt(f', i) == KindAt(f, i);
      WriteKeeps(f, path, buf, offset);
      SameMode(f, f', i, i);
      WrittenNode(f, f', i, FileWrite(buf, offset), r);
      forall p: seq<Name> | p != path && Target(f, p).Some?
        ensures NodeAt(f', Target(f, p).value) == NodeAt(f, Target(f, p).value)
      {
        if Target(f, p).value == i {
          PathsAreUnique(f, p, path);
        }
        TargetInUse(f, p);
        SameMode(f, f', i, Target(f, p).value);
        OtherNodes(f, f', i, Target(f, p).value);
      }
      SameNumbers(f, f');
    }
  }

  lemma SameNumbers(f: Fs, f': Fs)
    requires Shape(f) && Shape(f') && f'.ibits == f.ibits
    ensures FreeNumbers(f') == FreeNumbers(f)
  {
  }

  // ----- every run -----

  lemma {:induction false} OnlyRoot(p: seq<Name>)
    ensures Sound(Mkfs()) && Target(Mkfs(), p) == if p == [] then Some(0) else None
    decreases |p|
  {
    hide DecodeInode, NewInode, SlotAt, KindAt, DecodeEntry;
    MkfsInv();
    MkfsView(Mkfs());
    if p != [] {
      OnlyRoot(p[..|p| - 1]);
      if Child(Mkfs(), 0, p[|p| - 1]).Some? {
        DirFindFinds(Mkfs(), 0, p[|p| - 1]);
        var n: nat :| Named(Mkfs(), 0, n, p[|p| - 1]);
        MkfsHasNoEntries(0, n);
      }
    }
  }

  lemma MkfsHasNoEntries(d: nat, n: nat)
    ensures Shape(Mkfs()) && Entry(Mkfs(), d, n).None?
  {
    hide DecodeEntry, Mkfs, SlotAt;
    MkfsView(Mkfs());
    ZeroBlockHasNoEntries(n % DIRENTS_PER_BLOCK);
  }

  lemma MkfsNumbers()
    ensures Shape(Mkfs()) && |FreeNumbers(Mkfs())| == MAX_INUM - 1
  {
    MkfsInodes();
    IntervalSize(FreeNumbers(Mkfs()), 1, MAX_INUM);
  }

  lemma MkfsMode()
    ensures Shape(Mkfs()) && IsNew(Mkfs().inodes[0], 0, IFDIR, 2, 0x1ED) && ModeAt(Mkfs(), 0) == BitSet(0x41ED)
  {
    hide WithMode, BitSet, WordBytes;
    MkfsInodes();
    RootMode();
    NewInodeIsNew(0, IFDIR, 2, 0x1ED, D_START_BLK);
    WordAfterStore(Zeros(STAT_SIZE), STAT_MODE, 0x41ED);
  }

  lemma MkfsShows()
    ensures Good(Mkfs(), Root)
  {
    hide Mkfs, Consistent, Accounted, KindAt, Entry, Target, FreeNumbers, ModeAt, BitSet;
    MkfsMode();
    MkfsAccounted();
    MkfsView(Mkfs());
    MkfsNumbers();
    forall p: seq<Name>
      ensures Target(Mkfs(), p) == if p == [] then Some(0) else None
    {
      OnlyRoot(p);
    }
    forall d: nat, n: nat
      ensures Entry(Mkfs(), d, n).None?
    {
      MkfsHasNoEntries(d, n);
    }
  }

  lemma {:induction false} RunShows(ops: seq<Op>)
    ensures Good(After(ops), TreeAfter(ops))
  {
    hide Good, TreeStep, Step;
    if ops == [] {
      MkfsShows();
    } else {
      RunShows(ops[..|ops| - 1]);
      StepShows(After(ops[..|ops| - 1]), TreeAfter(ops[..|ops| - 1]), ops[|ops| - 1]);
    }
  }

  lemma StepShows(f: Fs, t: Tree, op: Op)
    requires Good(f, t)
    ensures Good(Step(f, op).0, TreeStep(t, op).0) && Step(f, op).1 == TreeStep(t, op).1
  {
    hide InodesOk, BlocksOk, EntriesOk, Charged, Live, Mkdir, Create, Write, Shows;
    match op
    case OpMkdir(parent, name, mode) => MkdirStep(f, t, parent, name, mode);
    case OpCreate(parent, name, mode) => CreateStep(f, t, parent, name, mode);
    case OpWrite(path, buf, offset) => WriteStep(f, t, path, buf, offset);
  }

  // Every operation returns what it returns on the tree, whatever came before.
  lemma ReturnsAsTree(ops: seq<Op>, op: Op)
    ensures Step(After(ops), op).1 == TreeStep(TreeAfter(ops), op).1
  {
    hide Good, TreeStep, Step;
    RunShows(ops);
    StepShows(After(ops), TreeAfter(ops), op);
  }

  // Every read gets what the tree holds, whatever came before.
  lemma ReadsAsTree(ops: seq<Op>, path: seq<Name>, size: nat, offset: nat)
    ensures Read(After(ops), path, size, offset) == TreeRead(TreeAfter(ops), path, size, offset)
  {
    hide After, TreeAfter, Consistent, Accounted, Live, Target, KindAt, Read, SizeAt, AllBytes, BlocksOf, Reach;
    var f := After(ops);
    RunShows(ops);
    InvIsSound(f);
    ReadReaches(f, path, size, offset);
    FolderIff(f, TreeAfter(ops), path);
  }

  // Every getattr returns the mode that the node was made with, whatever came in between.
  lemma AttrAsTree(ops: seq<Op>, path: seq<Name>)
    ensures var (mode, r) := Getattr(After(ops), path); var t := TreeAfter(ops);
            if path in t.nodes then r == 0 && BitSet(mode) == t.nodes[path].mode else r == -ENOENT
  {
    hide After, TreeAfter, Consistent, Accounted, Live, Target, KindAt, BitSet, SizeAt, AllBytes, BlocksOf;
    var f := After(ops);
    RunShows(ops);
    InvIsSound(f);
    LookupFollowsBindings(f, path);
    if Target(f, path).Some? {
      TargetInUse(f, path);
    }
  }

  // A file that has been written sequentially is read as the bytes written.
  lemma ReadsTheWrites(ops: seq<Op>, path: seq<Name>, size: nat, offset: nat)
    requires IsFile(TreeAfter(ops), path) && Sequential(WritesTo(ops, path))
    ensures var c := Spliced(WritesTo(ops, path));
            var bs := if offset >= |c| then [] else c[offset..Min(offset + size, |c|)];
            Read(After(ops), path, size, offset) == (bs, |bs|)
  {
    hide After, TreeAfter, Read, ReadFile, WritesTo, AfterWrites, Spliced, Sequential;
    ReadsAsTree(ops, path, size, offset);
    FileIsItsWrites(ops, path);
    SequentialRead(WritesTo(ops, path), size, offset);
  }

  // No operation changes the type, the link count or the stat of an inode in use.
  lemma StepKeepsAttributes(f: Fs, op: Op, j: nat)
    requires Inv(f) && KindAt(f, j) != Absent
    ensures Shape(Step(f, op).0) && SameAttributes(f.inodes[j], Step(f, op).0.inodes[j])
  {
    hide KindAt, Target, InodesOk, BlocksOk, EntriesOk, Charged, Mkdir, Create, Write, Made, CanBind, LosesNumber,
      LosesBlock, LostBlocks, IsNew, OneNumberMore;
    StepInv(f, op);
    match op
    case OpMkdir(parent, name, mode) =>
      MkdirMakes(f, parent, name, mode);
      if Mkdir(f, parent, name, mode).1 == 0 {
        MkdirKeeps(f, parent, name, mode);
      }
    case OpCreate(parent, name, mode) =>
      CreateMakes(f, parent, name, mode);
      if Create(f, parent, name, mode).1 == 0 {
        CreateKeeps(f, parent, name, mode);
      }
    case OpWrite(path, buf, offset) =>
      WriteKeepsTheRest(f, path, buf, offset);
      if FileAt(f, path) {
        WriteKeeps(f, path, buf, offset);
      }
  }

  // ----- the size of a directory -----

  ghost predicate Sized(f: Fs)
    requires Shape(f)
  {
    forall d: nat :: KindAt(f, d) == Directory ==> f.inodes[d].size == DIRENT_SIZE * |UsedEntries(f, d)|
  }

  lemma OneEntryMore(f: Fs, f': Fs, d: nat, name: seq<Byte>, i: nat, kind: Kind)
    requires Shape(f) && Shape(f') && Made(f, f', d, name, i, kind)
    ensures |UsedEntries(f', d)| == |UsedEntries(f, d)| + 1 <= SLOTS
    ensures forall c: nat :: c != d ==> UsedEntries(f', c) == UsedEntries(f, c)
    ensures UsedEntries(f, i) == {}
  {
    NoEntriesElsewhereAt(f, i);
    hide KindAt, SlotAt, Matches, SameFiles, Bound, Adds, UsedEntries, Entry;
    var n: nat, e: Dirent :| AddsName(f, f', d, n, e, name, i);
    EntryAdded(f, f', d, n, e);
  }

  lemma EntryAdded(f: Fs, f': Fs, d: nat, n: nat, e: Dirent)
    requires Shape(f) && Shape(f') && Adds(f, f', d, n, e)
    ensures |UsedEntries(f', d)| == |UsedEntries(f, d)| + 1 <= SLOTS
    ensures forall c: nat :: c != d ==> UsedEntries(f', c) == UsedEntries(f, c)
  {
    hide Entry;
    assert Entry(f', d, n) == Some(e);
    EntryInSlots(f', d, n);
    UsedAfter(f, f', d, n, e, d);
    hide UsedEntries;
    AtMostSlots(f', d);
    forall c: nat | c != d
      ensures UsedEntries(f', c) == UsedEntries(f, c)
    {
      UsedAfter(f, f', d, n, e, c);
    }
  }

  lemma UsedAfter(f: Fs, f': Fs, d: nat, n: nat, e: Dirent, c: nat)
    requires Shape(f) && Shape(f') && Adds(f, f', d, n, e) && n < SLOTS
    ensures UsedEntries(f', c) == if c == d then UsedEntries(f, c) + {n} else UsedEntries(f, c)
    ensures n !in UsedEntries(f, d)
  {
    hide Entry;
  }

  lemma AtMostSlots(f: Fs, d: nat)
    requires Shape(f)
    ensures |UsedEntries(f, d)| <= SLOTS
  {
    hide Entry;
    SomeMissing(UsedEntries(f, d), SLOTS);
  }

  lemma EntryInSlots(f: Fs, d: nat, n: nat)
    requires Shape(f) && Entry(f, d, n).Some?
    ensures n < SLOTS
  {
  }

  lemma NoEntriesElsewhereAt(f: Fs, i: nat)
    requires Shape(f) && KindAt(f, i) == Absent
    ensures UsedEntries(f, i) == {}
  {
  }

  lemma MadeSized(f: Fs, f': Fs, d: nat, name: seq<Byte>, i: nat, kind: Kind)
    requires Shape(f) && Shape(f') && Sized(f) && Made(f, f', d, name, i, kind) && KindAt(f, d) == Directory
    requires Grows(f, f', d) && i < MAX_INUM && f'.inodes[i].size == 0
    ensures Sized(f')
  {
    hide Made, UsedEntries, KindAt, KeepsInodes;
    OneEntryMore(f, f', d, name, i, kind);
    DirectoriesAfter(f, f', d, name, i, kind);
    forall c: nat | KindAt(f', c) == Directory
      ensures f'.inodes[c].size == DIRENT_SIZE * |UsedEntries(f', c)|
    {
      if c != i && c != d {
        SizeKept(f, f', d, c);
      }
    }
  }

  lemma SizeKept(f: Fs, f': Fs, d: nat, c: nat)
    requires Shape(f) && Shape(f') && KeepsInodes(f, f', d) && c != d && KindAt(f, c) != Absent
    ensures f'.inodes[c].size == f.inodes[c].size
  {
    hide KindAt;
  }

  lemma DirectoriesAfter(f: Fs, f': Fs, d: nat, name: seq<Byte>, i: nat, kind: Kind)
    requires Shape(f) && Shape(f') && Made(f, f', d, name, i, kind) && KindAt(f, d) == Directory
    ensures d != i && forall c: nat :: KindAt(f', c) == Directory && c != i ==> KindAt(f, c) == Directory
  {
    hide KindAt, SameFiles, Bound, AddsName;
  }

  lemma SameEntriesSized(f: Fs, f': Fs)
    requires Shape(f) && Shape(f') && Sized(f)
    requires forall d: nat, n: nat :: Entry(f', d, n) == Entry(f, d, n)
    requires forall d: nat :: KindAt(f', d) == Directory ==>
        KindAt(f, d) == Directory && f'.inodes[d].size == f.inodes[d].size
    ensures Sized(f')
  {
    hide KindAt, Entry;
    forall d: nat
      ensures UsedEntries(f', d) == UsedEntries(f, d)
    {
    }
  }

  lemma MkdirSized(f: Fs, parent: seq<Name>, name: Name, mode: ModeArg)
    requires Inv(f) && Sized(f)
    ensures var f' := Mkdir(f, parent, name, mode).0; Shape(f') && Sized(f')
  {
    hide KindAt, Entry, Target, InodesOk, BlocksOk, EntriesOk, Charged, Mkdir, Made, CanBind, LosesNumber, LosesBlock,
      LostBlocks, Sized, Grows, SlotAt, SizeAt, Bound, Named;
    MkdirMakes(f, parent, name, mode);
    var (f', r) := Mkdir(f, parent, name, mode);
    if r == 0 {
      MkdirKeeps(f, parent, name, mode);
      var d := Target(f, parent).value;
      var i: nat :| Made(f, f', d, name, i, MadeKind(IFDIR, mode)) && OneNumberMore(f, f', i)
                    && IsNew(f'.inodes[i], i, IFDIR, 2, mode);
      MadeSized(f, f', d, name, i, MadeKind(IFDIR, mode));
    } else {
      SameTables(f, f');
      SameEntriesSized(f, f');
    }
  }

  lemma CreateSized(f: Fs, parent: seq<Name>, name: Name, mode: ModeArg)
    requires Inv(f) && Sized(f)
    ensures var f' := Create(f, parent, name, mode).0; Shape(f') && Sized(f')
  {
    hide KindAt, Entry, Target, InodesOk, BlocksOk, EntriesOk, Charged, Create, Made, CanBind, LosesNumber, LosesBlock,
      LostBlocks, Sized, Grows, SlotAt, SizeAt, Bound, Named;
    CreateMakes(f, parent, name, mode);
    var (f', r) := Create(f, parent, name, mode);
    if r == 0 {
      CreateKeeps(f, parent, name, mode);
      var d := Target(f, parent).value;
      var i: nat :| Made(f, f', d, name, i, MadeKind(IFREG, mode)) && OneNumberMore(f, f', i)
                    && IsNew(f'.inodes[i], i, IFREG, 1, mode);
      assert OneNumberMore(f, f', i);
      MadeSized(f, f', d, name, i, MadeKind(IFREG, mode));
    } else {
      SameTables(f, f');
      SameEntriesSized(f, f');
    }
  }

  lemma StepSized(f: Fs, op: Op)
    requires Inv(f) && Sized(f)
    ensures Shape(Step(f, op).0) && Sized(Step(f, op).0)
  {
    hide KindAt, Entry, Target, InodesOk, BlocksOk, EntriesOk, Charged, Mkdir, Create, Write, LostBlocks, Sized,
      KeepsInodes, SlotAt, SizeAt;
    match op
    case OpMkdir(parent, name, mode) => MkdirSized(f, parent, name, mode);
    case OpCreate(parent, name, mode) => CreateSized(f, parent, name, mode);
    case OpWrite(path, buf, offset) =>
      WriteKeepsTheRest(f, path, buf, offset);
      if FileAt(f, path) {
        WriteKeeps(f, path, buf, offset);
        WriteSized(f, Write(f, path, buf, offset).0, Target(f, path).value);
      }
  }

  lemma WriteSized(f: Fs, f': Fs, i: nat)
    requires Shape(f) && Shape(f') && OnlyFile(f, f', i) && KeepsInodes(f, f', i) && KindAt(f, i) == Regular && Sized(f)
    ensures Sized(f')
  {
    hide KindAt, Entry, SlotAt, Sized;
    SameEntriesSized(f, f');
  }

  lemma MkfsSized()
    ensures Shape(Mkfs()) && Sized(Mkfs())
  {
    hide Mkfs, Entry, KindAt;
    MkfsView(Mkfs());
    MkfsRootSize();
    forall d: nat
      ensures UsedEntries(Mkfs(), d) == {}
    {
      forall n: nat
        ensures Entry(Mkfs(), d, n).None?
      {
        MkfsHasNoEntries(d, n);
      }
    }
  }

  lemma MkfsRootSize()
    ensures Shape(Mkfs()) && Mkfs().inodes[0].size == 0
  {
    MkfsInodes();
  }

  lemma {:induction false} RunSized(ops: seq<Op>)
    ensures Sized(After(ops))
  {
    hide Sized, Step, Inv;
    if ops == [] {
      MkfsSized();
    } else {
      RunSized(ops[..|ops| - 1]);
      StepSized(After(ops[..|ops| - 1]), ops[|ops| - 1]);
    }
  }

  // After any run the size field of a directory is 214 bytes for every child it has in the tree.
  lemma DirectorySize(ops: seq<Op>, path: seq<Name>)
    requires IsFolder(TreeAfter(ops), path)
    ensures Lookup(After(ops), path).Some?
    ensures Lookup(After(ops), path).value.size == 214 * |Children(TreeAfter(ops), path)|
  {
    hide After, TreeAfter, Consistent, Accounted, Live, Shows, Target, KindAt, UsedEntries, Children, Lookup;
    var f := After(ops);
    RunShows(ops);
    RunSized(ops);
    InvIsSound(f);
    LookupFollowsBindings(f, path);
    FolderIff(f, TreeAfter(ops), path);
    ChildrenAreEntries(f, TreeAfter(ops), path);
  }

  // ----- losses that happen -----

  ghost predicate TreeLosesNumber(t: Tree, op: Op) {
    !op.OpWrite? && IsFolder(t, op.parent) && t.numbers > 0 && !CanMake(t, op.parent, op.name)
  }

  ghost predicate TreeLosesBlock(t: Tree, op: Op) {
    TreeLosesNumber(t, op) && NewName(t, op.parent, op.name)
  }

  // The tree tells which operations take a number or a block for nothing.
  lemma LossesShow(ops: seq<Op>, op: Op)
    ensures OpLosesNumber(After(ops), op) <==> TreeLosesNumber(TreeAfter(ops), op)
    ensures OpLosesBlock(After(ops), op) <==> TreeLosesBlock(TreeAfter(ops), op)
  {
    hide After, TreeAfter, Good, LosesNumber, LosesBlock, Children;
    RunShows(ops);
    match op
    case OpMkdir(parent, name, _) => CanMakeIff(After(ops), TreeAfter(ops), parent, name);
    case OpCreate(parent, name, _) => CanMakeIff(After(ops), TreeAfter(ops), parent, name);
    case OpWrite(_, _, _) =>
  }

  lemma LossesAfter(ops: seq<Op>, op: Op)
    ensures NumbersLost(ops + [op]) == NumbersLost(ops) + if TreeLosesNumber(TreeAfter(ops), op) then 1 else 0
    ensures BlocksLost(ops + [op]) == BlocksLost(ops) + if TreeLosesBlock(TreeAfter(ops), op) then 1 else 0
    ensures TreeAfter(ops + [op]) == TreeStep(TreeAfter(ops), op).0
  {
    hide TreeStep, TreeLosesNumber, TreeLosesBlock, OpLosesNumber, OpLosesBlock;
    assert (ops + [op])[..|ops|] == ops;
    LossesShow(ops, op);
  }

  // The j-th of many names.
  function NameNo(j: nat): Name
    requires j <= SLOTS
  {
    [j / 250 + 1, j % 250 + 1]
  }

  // Files made in the root, one after the other.
  function Fill(k: nat): (ops: seq<Op>)
    requires k <= SLOTS
    ensures |ops| == k
  {
    if k == 0 then [] else Fill(k - 1) + [OpCreate([], NameNo(k - 1), 0)]
  }

  ghost predicate HoldsFirst(t: Tree, k: nat)
    requires k <= SLOTS
  {
    && t.numbers == MAX_INUM - 1 - k && IsFolder(t, []) && |Children(t, [])| == k
    && forall j: nat :: k <= j <= SLOTS ==> [NameNo(j)] !in t.nodes
  }

  lemma {:induction false} FillHolds(k: nat)
    requires k <= SLOTS
    ensures HoldsFirst(TreeAfter(Fill(k)), k) && NumbersLost(Fill(k)) == 0 && BlocksLost(Fill(k)) == 0
  {
    hide TreeStep, TreeAfter, NumbersLost, BlocksLost, HoldsFirst, TreeLosesNumber, TreeLosesBlock, NameNo;
    if k == 0 {
      RootHoldsNone();
    } else {
      FillHolds(k - 1);
      var op := OpCreate([], NameNo(k - 1), 0);
      LossesAfter(Fill(k - 1), op);
      OneMoreHeld(TreeAfter(Fill(k - 1)), k - 1);
    }
  }

  lemma RootHoldsNone()
    ensures HoldsFirst(TreeAfter([]), 0) && NumbersLost([]) == 0 && BlocksLost([]) == 0
  {
    assert Children(Root, []) == {};
  }

  lemma OneMoreHeld(t: Tree, k: nat)
    requires k < SLOTS && HoldsFirst(t, k)
    ensures var op := OpCreate([], NameNo(k), 0);
            HoldsFirst(TreeStep(t, op).0, k + 1) && !TreeLosesNumber(t, op) && !TreeLosesBlock(t, op)
  {
    var path := [NameNo(k)];
    var t' := TreeStep(t, OpCreate([], NameNo(k), 0)).0;
    assert [] + path == path;
    assert CanMake(t, [], NameNo(k));
    assert Children(t', []) == Children(t, []) + {path};
    assert path !in Children(t, []);
  }

  lemma FirstMade(op: Op)
    requires op == OpCreate([], NameNo(0), 0)
    ensures !TreeLosesNumber(Root, op) && !TreeLosesBlock(Root, op)
    ensures var t := TreeStep(Root, op).0; TreeLosesNumber(t, op) && !TreeLosesBlock(t, op)
  {
    hide BitSet, Blank;
    assert Children(Root, []) == {};
    assert [] + [NameNo(0)] == [NameNo(0)];
    assert CanMake(Root, [], NameNo(0));
  }

  // The same name twice: the second call costs an inode number.
  lemma LostNumberHappens()
    ensures var op := OpCreate([], NameNo(0), 0); NumbersLost([op, op]) == 1 && BlocksLost([op, op]) == 0
  {
    hide TreeStep, TreeLosesNumber, TreeLosesBlock, OpLosesNumber, OpLosesBlock;
    var op := OpCreate([], NameNo(0), 0);
    FirstMade(op);
    LossesAfter([], op);
    LossesAfter([op], op);
    assert [] + [op] == [op] && [op] + [op] == [op, op];
  }

  // 304 names fill the root; asking for one more costs a number and a block.
  lemma LostBlockHappens()
    ensures var ops := Fill(SLOTS) + [OpCreate([], NameNo(SLOTS), 0)]; NumbersLost(ops) == 1 && BlocksLost(ops) == 1
  {
    hide TreeStep, Children;
    FillHolds(SLOTS);
    LossesAfter(Fill(SLOTS), OpCreate([], NameNo(SLOTS), 0));
    assert [] + [NameNo(SLOTS)] == [NameNo(SLOTS)];
  }
}
