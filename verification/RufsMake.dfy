// mkdir and create: what they do to the tree of paths, in every outcome.
module RufsMake {
  import opened Wrappers
  import opened Bytes
  import opened RufsLayout
  import opened RufsState
  import opened RufsInvariants
  import opened RufsAccount
  import opened RufsDirectories
  import opened RufsNamespace

  // ----- writing the new inode -----

  // Inode i, not in use before, is now of this kind; nothing else seen through the inodes changes.
  ghost predicate Born(f: Fs, f': Fs, i: nat, kind: Kind)
    requires Shape(f) && Shape(f')
  {
    && KindAt(f, i) == Absent && (forall j: nat :: KindAt(f', j) == if j == i then kind else KindAt(f, j))
    && (forall c: nat, n: nat :: Entry(f', c, n) == Entry(f, c, n)) && SameFiles(f, f')
  }

  // The block a new directory takes was never cleared, but it is zero, so the directory is empty.
  lemma NewDirBorn(f: Fs, i: nat, b: nat, mode: nat)
    requires Consistent(f) && 0 < i < MAX_INUM && f.ibits[i] && KindAt(f, i) == Absent
    requires Unowned(f, b) && mode < WORD_LIMIT
    ensures var f' := Writei(f, i, NewInode(i, IFDIR, 2, WithMode(IFDIR, mode), D_START_BLK + b));
            Consistent(f') && Born(f, f', i, MadeKind(IFDIR, mode))
  {
    hide DecodeEntry, MadeKind, WithMode;
    var x := NewInode(i, IFDIR, 2, WithMode(IFDIR, mode), D_START_BLK + b);
    NewKind(i, IFDIR, 2, mode, D_START_BLK + b);
    var f' := Writei(f, i, x);
    assert PutData(f, D_START_BLK + b, Zeros(BLOCK)) == f;
    assert f' == Put(f, i, b, Zeros(BLOCK), x);
    PutShape(f, i, 0, b, Zeros(BLOCK), x);
    PutSlots(f, i, 0, b, Zeros(BLOCK), x);
    PutBlocksOk(f, i, 0, b, Zeros(BLOCK), x);
    hide NewInode, KindOf, KindAt, SlotAt, Put, BlocksOk;
    BornEntries(f, f', i, MadeKind(IFDIR, mode));
    BornInv(f, f', i, MadeKind(IFDIR, mode));
  }

  // Entries are as before when the new inode's slots are null or lead to a zero block.
  lemma BornEntries(f: Fs, f': Fs, i: nat, kind: Kind)
    requires Sound(f) && Sound(f') && KindAt(f, i) == Absent
    requires forall j: nat :: KindAt(f', j) == if j == i then kind else KindAt(f, j)
    requires forall j: nat, l: nat :: j != i ==> SlotAt(f', j, l) == SlotAt(f, j, l)
    requires forall l: nat :: SlotAt(f', i, l).Some? ==> SlotAt(f', i, l).value == Zeros(BLOCK)
    ensures forall c: nat, n: nat :: Entry(f', c, n) == Entry(f, c, n)
  {
    hide KindAt, SlotAt, DecodeEntry;
    forall c: nat, n: nat
      ensures Entry(f', c, n) == Entry(f, c, n)
    {
      ZeroBlockHasNoEntries(n % DIRENTS_PER_BLOCK);
    }
  }

  lemma BornInv(f: Fs, f': Fs, i: nat, kind: Kind)
    requires Consistent(f) && Sound(f') && BlocksOk(f') && 0 < i < MAX_INUM && f.ibits[i] && f'.ibits == f.ibits
    requires kind != Absent && KindAt(f, i) == Absent && f'.inodes == f.inodes[i := f'.inodes[i]]
    requires f'.inodes[i].ino == i
    requires forall j: nat :: KindAt(f', j) == if j == i then kind else KindAt(f, j)
    requires forall j: nat, l: nat :: j != i ==> SlotAt(f', j, l) == SlotAt(f, j, l)
    requires forall c: nat, n: nat :: Entry(f', c, n) == Entry(f, c, n)
    ensures Consistent(f') && Born(f, f', i, kind)
  {
    BornFiles(f, f', i, kind);
    hide KindAt, SlotAt, SizeAt, Entry, BlocksOk;
    assert InodesOk(f') by {
      assert forall j: nat :: j < MAX_INUM && j != i ==> f'.inodes[j] == f.inodes[j];
    }
    assert forall d: nat, n: nat, j: nat :: Bound(f', d, n, j) == Bound(f, d, n, j) by {
      assert forall d: nat, n: nat :: Entry(f', d, n) == Entry(f, d, n);
    }
    assert forall d: nat, n: nat, name: seq<Byte> :: Named(f', d, n, name) == Named(f, d, n, name);
  }

  lemma BornFiles(f: Fs, f': Fs, i: nat, kind: Kind)
    requires Shape(f) && Shape(f') && KindAt(f, i) == Absent && i < MAX_INUM && f'.inodes == f.inodes[i := f'.inodes[i]]
    requires forall j: nat :: KindAt(f', j) == if j == i then kind else KindAt(f, j)
    requires forall j: nat, l: nat :: j != i ==> SlotAt(f', j, l) == SlotAt(f, j, l)
    ensures SameFiles(f, f')
  {
    hide SlotAt;
    assert forall j: nat :: j < MAX_INUM && j != i ==> f'.inodes[j] == f.inodes[j];
  }

  lemma NewFileBorn(f: Fs, i: nat, mode: nat)
    requires Consistent(f) && 0 < i < MAX_INUM && f.ibits[i] && KindAt(f, i) == Absent
    requires mode < WORD_LIMIT
    ensures var f' := Writei(f, i, NewInode(i, IFREG, 1, WithMode(IFREG, mode), 0));
            && Consistent(f') && Born(f, f', i, MadeKind(IFREG, mode)) && SizeAt(f', i) == 0
            && forall k: nat :: SlotAt(f', i, k) == None
  {
    hide DecodeEntry, MadeKind, WithMode;
    NewKind(i, IFREG, 1, mode, 0);
    var x := NewInode(i, IFREG, 1, WithMode(IFREG, mode), 0);
    var f' := Writei(f, i, x);
    NewFileTables(f, i, x);
    hide NewInode, KindOf, KindAt, SlotAt, Owns;
    BornEntries(f, f', i, MadeKind(IFREG, mode));
    BornInv(f, f', i, MadeKind(IFREG, mode));
  }

  lemma NewFileTables(f: Fs, i: nat, x: Inode)
    requires Consistent(f) && i < MAX_INUM && KindAt(f, i) == Absent && Fits(x) && KindOf(x) != Absent
    requires forall k :: 0 <= k < DIRECT ==> x.direct[k] == 0
    ensures var f' := Writei(f, i, x);
            && Sound(f') && BlocksOk(f') && f'.ibits == f.ibits
            && (forall j: nat :: KindAt(f', j) == if j == i then KindOf(x) else KindAt(f, j))
            && (forall j: nat, l: nat :: SlotAt(f', j, l) == if j == i then None else SlotAt(f, j, l))
            && (forall j: nat, k: nat, b: nat :: Owns(f', j, k, b) == Owns(f, j, k, b))
  {
    hide KindOf;
    var f' := Writei(f, i, x);
    assert forall j :: 0 <= j < MAX_INUM ==> f'.inodes[j] == if j == i then x else f.inodes[j];
    assert Sound(f') by {
      assert PointersOk(x);
    }
    KindInUse(f);
    assert forall j: nat, k: nat, b: nat :: Owns(f', j, k, b) == Owns(f, j, k, b);
  }

  lemma KindInUse(f: Fs)
    requires Shape(f)
    ensures forall j: nat :: j < MAX_INUM ==> (KindAt(f, j) != Absent <==> f.inodes[j].valid != 0)
  {
  }

  // ----- mkdir and create -----

  // There is a free inode number.
  ghost predicate HasNumber(f: Fs)
    requires Shape(f)
  {
    exists i: nat :: i < MAX_INUM && !f.ibits[i]
  }

  // The parent is a directory with room for a name that fits and is not taken, and there is a
  // free inode number.
  ghost predicate CanBind(f: Fs, parent: seq<Name>, name: Name)
    requires Sound(f)
  {
    && Target(f, parent).Some? && KindAt(f, Target(f, parent).value) == Directory && |name| <= NAME_MAX
    && (forall j: nat :: !Binds(f, Target(f, parent).value, name, j)) && HasRoom(f, Target(f, parent).value)
    && HasNumber(f)
  }

  // Inode number i was in no use in f, and in f' its bit is set.
  ghost predicate Taken(f: Fs, f': Fs, i: nat)
    requires Shape(f) && Shape(f')
  {
    0 < i < MAX_INUM && KindAt(f, i) == Absent && f'.ibits[i] && forall d: nat, n: nat :: !Bound(f, d, n, i)
  }

  lemma KindOfInode(f: Fs, d: nat)
    requires Consistent(f) && KindAt(f, d) != Absent
    ensures d < MAX_INUM && (KindAt(f, d) == Directory <==> IsDir(f.inodes[d]))
    ensures (KindAt(f, d) == Regular <==> IsReg(f.inodes[d]))
    ensures PointersOk(f.inodes[d]) && f.inodes[d].ino == d && f.inodes[d].valid != 0
  {
  }

  // dir_add for a number just reserved, seen from before it was reserved.
  lemma BindReserved(f: Fs, f1: Fs, d: nat, name: seq<Byte>, i: nat, c: seq<Place>) returns (c': seq<Place>)
    requires Consistent(f) && Consistent(f1) && f1.inodes == f.inodes && f1.data == f.data && f1.dbits == f.dbits
    requires KindAt(f, d) == Directory && Reserved(f1, i) && Charged(f1, c) && Uncharged(f1, c, i)
    ensures PointersOk(f1.inodes[d])
    ensures var (f2, ok) := DirAdd(f1, f1.inodes[d], i, name);
            && Consistent(f2) && f2.ibits == f1.ibits
            && (ok <==> |name| <= NAME_MAX && (forall j: nat :: !Binds(f, d, name, j)) && HasRoom(f, d))
            && (ok ==> Taken(f, f2, i) && Bind(f, f2, d, name, i))
            && (!ok ==> f2.inodes == f.inodes && f2.data == f.data)
            && Charged(f2, c') && (ok ==> Uncharged(f2, c', i))
            && |LostBlocks(f2)| == |LostBlocks(f)| + if IsFullFor(f, d, name) then 1 else 0
  {
    hide KindAt, SlotAt, Entry, SizeAt, Owns, DirAdd, InodesOk, BlocksOk, EntriesOk, Bind, Named, Bound, Charged,
      Uncharged, LostBlocks;
    SameTables(f, f1);
    SameLost(f, f1);
    c' := DirAddBinds(f1, d, i, name, c);
    SameBinds(f, f1);
    assert (forall j: nat :: !Binds(f1, d, name, j)) <==> (forall j: nat :: !Binds(f, d, name, j));
    assert HasRoom(f1, d) <==> HasRoom(f, d);
    var (f2, ok) := DirAdd(f1, f1.inodes[d], i, name);
    if ok {
      BindAfterAlloc(f, f1, f2, d, name, i);
    }
  }

  lemma SameBinds(f: Fs, f1: Fs)
    requires Sound(f) && Shape(f1) && f1.inodes == f.inodes && f1.data == f.data
    ensures forall d: nat, name: seq<Byte>, j: nat :: Binds(f1, d, name, j) == Binds(f, d, name, j)
  {
    hide Named, Bound;
    SameTables(f, f1);
    forall d: nat, name: seq<Byte>, j: nat
      ensures Binds(f1, d, name, j) == Binds(f, d, name, j)
    {
      assert forall n: nat :: Named(f1, d, n, name) && Bound(f1, d, n, j) <==>
          Named(f, d, n, name) && Bound(f, d, n, j);
    }
  }

  // A call that makes no entry although it got as far as taking an inode number.
  ghost predicate LosesNumber(f: Fs, parent: seq<Name>, name: Name)
    requires Sound(f)
  {
    && Target(f, parent).Some? && KindAt(f, Target(f, parent).value) == Directory && HasNumber(f)
    && !CanBind(f, parent, name)
  }

  // It loses a block as well when only room was missing.
  ghost predicate LosesBlock(f: Fs, parent: seq<Name>, name: Name)
    requires Sound(f)
  {
    LosesNumber(f, parent, name) && IsFullFor(f, Target(f, parent).value, name)
  }

  // The entry is made exactly when that is so, for an inode number that is in no use at all;
  // otherwise the directories and files are as before.
  lemma BeginBinds(f: Fs, parent: seq<Name>, name: Name) returns (c: seq<Place>)
    requires Inv(f)
    ensures var r := Begin(f, parent, name);
            && (r.NoParent? <==> Target(f, parent).None?)
            && (r.NotDir? <==> Target(f, parent).Some? && KindAt(f, Target(f, parent).value) != Directory)
            && (r.Begun? <==> CanBind(f, parent, name))
            && (r.NotAdded? <==> LosesNumber(f, parent, name))
            && (r.Begun? ==>
                  && Consistent(r.fs) && Taken(f, r.fs, r.ino) && Bind(f, r.fs, Target(f, parent).value, name, r.ino)
                  && Charged(r.fs, c) && Uncharged(r.fs, c, r.ino)
                  && OneNumberMore(f, r.fs, r.ino) && |LostBlocks(r.fs)| == |LostBlocks(f)|)
            && (r.NotAdded? ==>
                  && Inv(r.fs) && r.fs.inodes == f.inodes && r.fs.data == f.data
                  && (exists i: nat :: OneNumberMore(f, r.fs, i))
                  && |LostBlocks(r.fs)| == |LostBlocks(f)| + if LosesBlock(f, parent, name) then 1 else 0)
  {
    hide KindAt, Target, DirAdd, Bind, HasRoom, Binds, InodesOk, BlocksOk, EntriesOk, Bound, Charged, Uncharged,
      LostBlocks;
    LookupFollowsBindings(f, parent);
    c := [];
    if Target(f, parent).Some? {
      var d := Target(f, parent).value;
      KindOfInode(f, d);
      if KindAt(f, d) == Directory && AllocIno(f).1.Some? {
        AllocInoInv(f);
        var (f1, i) := AllocIno(f);
        var c0: seq<Place> :| Charged(f, c0);
        AllocInoCharged(f, c0);
        c := BindReserved(f, f1, d, name, i.value, c0);
        assert OneNumberMore(f, Begin(f, parent, name).fs, i.value);
      }
    }
  }

  // The bit of inode number i, the lowest that was clear, has been set.
  ghost predicate OneNumberMore(f: Fs, f': Fs, i: nat)
    requires Shape(f) && Shape(f')
  {
    i < MAX_INUM && !f.ibits[i] && (forall j :: 0 <= j < i ==> f.ibits[j]) && f'.ibits == f.ibits[i := true]
  }

  // The entry and then the inode.
  lemma BindThenBorn(f: Fs, f1: Fs, f2: Fs, d: nat, name: seq<Byte>, i: nat, kind: Kind)
    requires Shape(f) && Shape(f1) && Shape(f2) && Bind(f, f1, d, name, i) && Taken(f, f1, i)
    requires kind != Absent && Born(f1, f2, i, kind)
    ensures Made(f, f2, d, name, i, kind)
  {
    hide KindAt, SlotAt, SizeAt, Entry, Matches, Bound;
    var n: nat, e: Dirent :| AddsName(f, f1, d, n, e, name, i);
    assert AddsName(f, f2, d, n, e, name, i);
  }

  lemma NewDirCharged(f1: Fs, f2: Fs, i: nat, b: nat, mode: nat, c: seq<Place>)
    requires Consistent(f1) && Charged(f1, c) && 0 < i < MAX_INUM && f1.ibits[i] && KindAt(f1, i) == Absent
    requires b < MAX_DNUM && !f1.dbits[b] && f2 == f1.(dbits := f1.dbits[b := true]) && Shape(f2)
    requires Uncharged(f1, c, i) && mode < WORD_LIMIT && f1.data[b] == Zeros(BLOCK)
    ensures var f' := Writei(f2, i, NewInode(i, IFDIR, 2, WithMode(IFDIR, mode), D_START_BLK + b));
            Shape(f') && Accounted(f') && LostBlocks(f') == LostBlocks(f1)
  {
    hide MadeKind, WithMode;
    var x := NewInode(i, IFDIR, 2, WithMode(IFDIR, mode), D_START_BLK + b);
    NewKind(i, IFDIR, 2, mode, D_START_BLK + b);
    SameTables(f1, f2);
    var f' := Writei(f2, i, x);
    assert PutData(f2, D_START_BLK + b, Zeros(BLOCK)) == f2;
    assert f' == Put(f2, i, b, Zeros(BLOCK), x);
    PutShape(f2, i, 0, b, Zeros(BLOCK), x);
    assert forall a: nat :: !Owns(f1, i, 0, a);
    hide NewInode, KindOf, KindAt, Owns, Put;
    ChargeBlock(f1, f', c, b, Place(i, 0));
    LostAfter(f1, f', b, Place(i, 0), true);
  }

  // mkdir succeeds exactly when it can bind the name: it never runs out of blocks.
  lemma MkdirMakes(f: Fs, parent: seq<Name>, name: Name, mode: nat)
    requires Inv(f) && mode < WORD_LIMIT
    ensures var (f', r) := Mkdir(f, parent, name, mode);
            && Inv(f')
            && (r == 0 <==> CanBind(f, parent, name))
            && (r != 0 ==> r == if Target(f, parent) == None then -ENOENT else -1)
            && (r == 0 ==> exists i: nat ::
                  && Made(f, f', Target(f, parent).value, name, i, MadeKind(IFDIR, mode)) && OneNumberMore(f, f', i)
                  && IsNew(f'.inodes[i], i, IFDIR, 2, mode))
            && (r != 0 ==> f'.inodes == f.inodes && f'.data == f.data)
            && (r != 0 ==> if LosesNumber(f, parent, name) then exists i: nat :: OneNumberMore(f, f', i) else f' == f)
            && |LostBlocks(f')| == |LostBlocks(f)| + if LosesBlock(f, parent, name) then 1 else 0
  {
    hide KindAt, Target, Begin, Bind, Made, HasRoom, Binds, InodesOk, BlocksOk, EntriesOk, Bound, NewInode, CanBind,
      Charged, Uncharged, LostBlocks, IsFullFor;
    var c := BeginBinds(f, parent, name);
    var b := Begin(f, parent, name);
    if b.Begun? {
      var d := Target(f, parent).value;
      TakenAbsent(f, b.fs, d, name, b.ino);
      UnchargedLeft(b.fs, c, b.ino);
      AllocBlkInv(b.fs);
      var (f2, p) := AllocBlk(b.fs);
      BindAllocated(f, b.fs, f2, d, name, b.ino);
      NewDirBorn(f2, b.ino, p.value - D_START_BLK, mode);
      NewInodeIsNew(b.ino, IFDIR, 2, mode, p.value);
      NewDirCharged(b.fs, f2, b.ino, p.value - D_START_BLK, mode, c);
      BindThenBorn(f, f2, Mkdir(f, parent, name, mode).0, d, name, b.ino, MadeKind(IFDIR, mode));
    }
  }

  lemma TakenAbsent(f: Fs, f1: Fs, d: nat, name: seq<Byte>, i: nat)
    requires Shape(f) && Shape(f1) && Bind(f, f1, d, name, i) && Taken(f, f1, i)
    ensures KindAt(f1, i) == Absent
  {
    hide KindAt, SlotAt, SizeAt, Entry;
  }

  // A block taken after dir_add does not show.
  lemma BindAllocated(f: Fs, f1: Fs, f2: Fs, d: nat, name: seq<Byte>, i: nat)
    requires Sound(f) && Sound(f1) && Shape(f2) && Bind(f, f1, d, name, i) && Taken(f, f1, i)
    requires f2.inodes == f1.inodes && f2.data == f1.data && f2.ibits == f1.ibits
    ensures Bind(f, f2, d, name, i) && Taken(f, f2, i) && KindAt(f2, i) == Absent
  {
    hide KindAt, SlotAt, SizeAt, Entry, Matches, Bound;
    SameTables(f1, f2);
    var n: nat, e: Dirent :| AddsName(f, f1, d, n, e, name, i);
    assert AddsName(f, f2, d, n, e, name, i);
  }

  lemma NewFileCharged(f: Fs, i: nat, mode: nat, c: seq<Place>)
    requires Consistent(f) && Charged(f, c) && i < MAX_INUM && KindAt(f, i) == Absent && Uncharged(f, c, i)
    requires mode < WORD_LIMIT
    ensures var f' := Writei(f, i, NewInode(i, IFREG, 1, WithMode(IFREG, mode), 0));
            Shape(f') && Accounted(f') && LostBlocks(f') == LostBlocks(f)
  {
    hide MadeKind, WithMode;
    NewKind(i, IFREG, 1, mode, 0);
    var x := NewInode(i, IFREG, 1, WithMode(IFREG, mode), 0);
    var f' := Writei(f, i, x);
    NewFileTables(f, i, x);
    hide NewInode, KindOf, KindAt, Owns;
    ChargesKept(f, f', c);
    SameLost(f, f');
  }

  // create succeeds exactly when it can bind the name.
  lemma CreateMakes(f: Fs, parent: seq<Name>, name: Name, mode: nat)
    requires Inv(f) && mode < WORD_LIMIT
    ensures var (f', r) := Create(f, parent, name, mode);
            && Inv(f')
            && (r == 0 <==> CanBind(f, parent, name))
            && (r != 0 ==>
                  r == if Target(f, parent) == None then -ENOENT
                       else if KindAt(f, Target(f, parent).value) != Directory then -ENOTDIR
                       else if !HasNumber(f) then -ENOSPC else -EIO)
            && (r == 0 ==> exists i: nat :: Made(f, f', Target(f, parent).value, name, i, MadeKind(IFREG, mode))
                             && SizeAt(f', i) == 0 && (forall k: nat :: SlotAt(f', i, k) == None)
                             && OneNumberMore(f, f', i) && IsNew(f'.inodes[i], i, IFREG, 1, mode))
            && (r != 0 ==> f'.inodes == f.inodes && f'.data == f.data)
            && (r != 0 ==> if LosesNumber(f, parent, name) then exists i: nat :: OneNumberMore(f, f', i) else f' == f)
            && |LostBlocks(f')| == |LostBlocks(f)| + if LosesBlock(f, parent, name) then 1 else 0
  {
    hide KindAt, Target, Begin, Bind, Made, HasRoom, Binds, InodesOk, BlocksOk, EntriesOk, Bound, NewInode, CanBind,
      SizeAt, Charged, Uncharged, LostBlocks, IsFullFor;
    var c := BeginBinds(f, parent, name);
    var b := Begin(f, parent, name);
    if b.Begun? {
      var d := Target(f, parent).value;
      BindAllocated(f, b.fs, b.fs, d, name, b.ino);
      NewFileBorn(b.fs, b.ino, mode);
      NewInodeIsNew(b.ino, IFREG, 1, mode, 0);
      NewFileCharged(b.fs, b.ino, mode, c);
      BindThenBorn(f, b.fs, Create(f, parent, name, mode).0, d, name, b.ino, MadeKind(IFREG, mode));
    }
  }

  // ----- the tree of paths -----

  // The one path more leads to a new inode of this kind, without children.
  ghost predicate OnePathMore(f: Fs, f': Fs, path: seq<Name>, kind: Kind)
    requires Consistent(f) && Consistent(f')
  {
    && Target(f, path) == None && Target(f', path).Some?
    && (var i := Target(f', path).value;
        KindAt(f, i) == Absent && (forall j: nat :: KindAt(f', j) == if j == i then kind else KindAt(f, j))
            && SizeAt(f', i) == 0
        && forall m: Name :: Child(f', i, m) == None)
    && forall p: seq<Name> :: p != path ==> Target(f', p) == Target(f, p)
  }

  ghost predicate SamePaths(f: Fs, f': Fs)
    requires Consistent(f) && Consistent(f')
  {
    SameKinds(f, f') && forall p: seq<Name> :: Target(f', p) == Target(f, p)
  }

  lemma MadeAddsPath(f: Fs, f': Fs, parent: seq<Name>, name: Name, i: nat, kind: Kind)
    requires Consistent(f) && Consistent(f')
    requires Target(f, parent).Some? && KindAt(f, Target(f, parent).value) == Directory
    requires (forall j: nat :: !Binds(f, Target(f, parent).value, name, j))
    requires Made(f, f', Target(f, parent).value, name, i, kind)
    ensures SizeAt(f', i) == 0 ==>
              OnePathMore(f, f', parent + [name], kind) && Target(f', parent + [name]) == Some(i)
    ensures SameFiles(f, f')
  {
    hide Target, Child, Binds, Bound, KindAt, SizeAt, SlotAt, InodesOk, BlocksOk, EntriesOk;
    var d := Target(f, parent).value;
    forall p: seq<Name>
      ensures Target(f', p) == if p == parent + [name] then Some(i) else Target(f, p)
    {
      PathsAfterMade(f, f', parent, d, name, i, kind, p);
    }
    PathsAfterMade(f, f', parent, d, name, i, kind, parent + [name]);
    forall m: Name
      ensures Child(f', i, m) == None
    {
      EmptyChild(f, f', d, name, i, kind, m);
    }
  }

  // Paths depend on the kinds and the entries only.
  lemma SameViewSamePaths(f: Fs, f': Fs)
    requires Consistent(f) && Consistent(f') && SameKinds(f, f')
    requires forall d: nat, n: nat :: Entry(f', d, n) == Entry(f, d, n)
    ensures SamePaths(f, f')
  {
    hide Target;
    forall p: seq<Name>
      ensures Target(f', p) == Target(f, p)
    {
      SameViewSamePath(f, f', p);
    }
  }

  lemma {:induction false} SameViewSamePath(f: Fs, f': Fs, p: seq<Name>)
    requires Consistent(f) && Consistent(f') && SameKinds(f, f')
    requires forall d: nat, n: nat :: Entry(f', d, n) == Entry(f, d, n)
    ensures Target(f', p) == Target(f, p)
    decreases |p|
  {
    hide Child, KindAt, Entry, InodesOk, BlocksOk, EntriesOk;
    if |p| > 0 {
      SameViewSamePath(f, f', p[..|p| - 1]);
      if Target(f, p[..|p| - 1]).Some? {
        SameViewSameChild(f, f', Target(f, p[..|p| - 1]).value, p[|p| - 1]);
      }
    }
  }

  lemma SameViewSameChild(f: Fs, f': Fs, d: nat, name: Name)
    requires Consistent(f) && Consistent(f') && SameKinds(f, f')
    requires forall d: nat, n: nat :: Entry(f', d, n) == Entry(f, d, n)
    ensures Child(f', d, name) == Child(f, d, name)
  {
    hide KindAt, Entry, DirFind, InodesOk, BlocksOk, EntriesOk;
    if KindAt(f, d) == Directory {
      DirFindFinds(f, d, name);
      DirFindFinds(f', d, name);
      assert forall n: nat :: Named(f', d, n, name) == Named(f, d, n, name);
    }
  }

  lemma SameTablesSamePaths(f: Fs, f': Fs)
    requires Consistent(f) && Consistent(f') && f'.inodes == f.inodes && f'.data == f.data
    ensures SamePaths(f, f') && SameFiles(f, f')
  {
    hide KindAt, SizeAt, SlotAt, Entry, Bound, Named, InodesOk, BlocksOk, EntriesOk;
    SameTables(f, f');
    SameViewSamePaths(f, f');
  }

  // The inode at this path is as mkdir or create has made it.
  ghost predicate IsNewAt(f: Fs, path: seq<Name>, kind: nat, link: nat, mode: nat)
    requires Sound(f)
  {
    && Target(f, path).Some? && Target(f, path).value < MAX_INUM
    && IsNew(f.inodes[Target(f, path).value], Target(f, path).value, kind, link, mode)
  }

  // mkdir adds the one path of the new, empty directory, or no path at all.
  lemma MkdirAddsPath(f: Fs, parent: seq<Name>, name: Name, mode: nat)
    requires Inv(f) && mode < WORD_LIMIT
    ensures var (f', r) := Mkdir(f, parent, name, mode);
            && Inv(f') && SameFiles(f, f')
            && if r == 0 then
                 && OnePathMore(f, f', parent + [name], MadeKind(IFDIR, mode))
                 && IsNewAt(f', parent + [name], IFDIR, 2, mode)
               else SamePaths(f, f')
  {
    hide KindAt, SizeAt, Target, Mkdir, Made, InodesOk, BlocksOk, EntriesOk, SameFiles, OnePathMore, SamePaths, Binds,
      HasRoom, Charged, LostBlocks, LosesNumber, LosesBlock, IsNew;
    InvIsSound(f);
    MkdirMakes(f, parent, name, mode);
    var (f', r) := Mkdir(f, parent, name, mode);
    if r == 0 {
      var i: nat :| Made(f, f', Target(f, parent).value, name, i, MadeKind(IFDIR, mode)) && OneNumberMore(f, f', i)
                    && i < MAX_INUM && IsNew(f'.inodes[i], i, IFDIR, 2, mode);
      NoSize(f, f', Target(f, parent).value, name, i, MadeKind(IFDIR, mode));
      MadeAddsPath(f, f', parent, name, i, MadeKind(IFDIR, mode));
    } else {
      SameTablesSamePaths(f, f');
    }
  }

  lemma NoSize(f: Fs, f': Fs, d: nat, name: seq<Byte>, i: nat, kind: Kind)
    requires Shape(f) && Shape(f') && Made(f, f', d, name, i, kind) && kind != Regular
    ensures SizeAt(f', i) == 0
  {
  }

  // create adds the one path of the new, empty file, or no path at all.
  lemma CreateAddsPath(f: Fs, parent: seq<Name>, name: Name, mode: nat)
    requires Inv(f) && mode < WORD_LIMIT
    ensures var (f', r) := Create(f, parent, name, mode);
            && Inv(f') && SameFiles(f, f')
            && if r == 0 then
                 && OnePathMore(f, f', parent + [name], MadeKind(IFREG, mode))
                 && IsNewAt(f', parent + [name], IFREG, 1, mode)
               else SamePaths(f, f')
  {
    hide KindAt, SizeAt, Target, Create, Made, InodesOk, BlocksOk, EntriesOk, SameFiles, OnePathMore, SamePaths, Binds,
      HasRoom, Charged, LostBlocks, LosesNumber, LosesBlock, IsNew;
    InvIsSound(f);
    CreateMakes(f, parent, name, mode);
    var (f', r) := Create(f, parent, name, mode);
    if r == 0 {
      var i: nat :| Made(f, f', Target(f, parent).value, name, i, MadeKind(IFREG, mode)) && SizeAt(f', i) == 0
                    && OneNumberMore(f, f', i) && i < MAX_INUM && IsNew(f'.inodes[i], i, IFREG, 1, mode);
      MadeAddsPath(f, f', parent, name, i, MadeKind(IFREG, mode));
    } else {
      SameTablesSamePaths(f, f');
    }
  }
}
