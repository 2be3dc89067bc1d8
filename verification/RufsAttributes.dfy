// What the operations do to the inodes in use: the type, the links and the mode of each stay what
// they were made, and only the parent of a new name grows.
module RufsAttributes {
  import opened Wrappers
  import opened Bytes
  import opened RufsLayout
  import opened RufsState
  import opened RufsInvariants
  import opened RufsAccount
  import opened RufsDirectories
  import opened RufsNamespace
  import opened RufsMake
  import opened RufsFiles
  import opened RufsReadWrite

  // Only the pointers and the size differ.
  predicate SameAttributes(x: Inode, x': Inode) {
    x' == x.(direct := x'.direct, size := x'.size)
  }

  // The inodes in use keep their attributes, and all but number d their size.
  ghost predicate KeepsInodes(f: Fs, f': Fs, d: nat)
    requires Shape(f) && Shape(f')
  {
    forall j: nat :: KindAt(f, j) != Absent ==>
      SameAttributes(f.inodes[j], f'.inodes[j]) && (j != d ==> f'.inodes[j].size == f.inodes[j].size)
  }

  // And directory d has grown by one entry.
  ghost predicate Grows(f: Fs, f': Fs, d: nat)
    requires Shape(f) && Shape(f')
  {
    d < MAX_INUM && KeepsInodes(f, f', d) && f'.inodes[d].size == (f.inodes[d].size + DIRENT_SIZE) % WORD_LIMIT
  }

  lemma DirAddKeeps(f: Fs, d: nat, i: nat, name: seq<Byte>)
    requires Sound(f) && KindAt(f, d) == Directory && f.inodes[d].ino == d && i < 0x1_0000
    ensures PointersOk(f.inodes[d])
    ensures var (f', ok) := DirAdd(f, f.inodes[d], i, name);
            ok ==> Grows(f, f', d)
  {
    hide EntryAt, DirFind, StoreEntry, FreeEntry, FirstZero;
  }

  lemma BeginKeeps(f: Fs, parent: seq<Name>, name: Name, d: nat)
    requires Consistent(f) && Target(f, parent) == Some(d)
    ensures var r := Begin(f, parent, name); r.Begun? ==> Grows(f, r.fs, d)
  {
    hide DirAdd, KindAt, Target, Lookup, BlocksOk, EntriesOk, InodesOk;
    LookupFollowsBindings(f, parent);
    KindOfInode(f, d);
    if IsDir(f.inodes[d]) && AllocIno(f).1.Some? {
      var (f1, i) := AllocIno(f);
      SameTables(f, f1);
      DirAddKeeps(f1, d, i.value, name);
    }
  }

  // The new inode is none of those in use.
  lemma NewInodeKeeps(f: Fs, f1: Fs, d: nat, i: nat, x: Inode)
    requires Shape(f) && Shape(f1) && Grows(f, f1, d) && KindAt(f, i) == Absent && d != i && i < MAX_INUM && Fits(x)
    ensures Grows(f, Writei(f1, i, x), d)
  {
    hide KindAt;
  }

  // mkdir and create, when they succeed.
  lemma MkdirKeeps(f: Fs, parent: seq<Name>, name: Name, mode: nat)
    requires Inv(f) && mode < WORD_LIMIT && Mkdir(f, parent, name, mode).1 == 0
    ensures Target(f, parent).Some?
    ensures var f' := Mkdir(f, parent, name, mode).0; var d := Target(f, parent).value;
            Shape(f') && KindAt(f, d) == Directory && Grows(f, f', d)
  {
    hide KindAt, Target, Begin, Bind, HasRoom, Binds, InodesOk, BlocksOk, EntriesOk, NewInode, Charged, Grows,
      LostBlocks, AllocBlk, CanBind, LosesNumber, LosesBlock, Uncharged;
    var c := BeginBinds(f, parent, name);
    var d, b := Target(f, parent).value, Begin(f, parent, name);
    BeginKeeps(f, parent, name, d);
    var (f2, p) := AllocBlk(b.fs);
    SameInodesKept(f, b.fs, f2, d);
    NewInodeKeeps(f, f2, d, b.ino, NewInode(b.ino, IFDIR, 2, WithMode(IFDIR, mode), p.value));
  }

  lemma CreateKeeps(f: Fs, parent: seq<Name>, name: Name, mode: nat)
    requires Inv(f) && mode < WORD_LIMIT && Create(f, parent, name, mode).1 == 0
    ensures Target(f, parent).Some?
    ensures var f' := Create(f, parent, name, mode).0; var d := Target(f, parent).value;
            Shape(f') && KindAt(f, d) == Directory && Grows(f, f', d)
  {
    hide KindAt, Target, Begin, Bind, HasRoom, Binds, InodesOk, BlocksOk, EntriesOk, NewInode, Charged, Grows,
      LostBlocks;
    var c := BeginBinds(f, parent, name);
    var d, b := Target(f, parent).value, Begin(f, parent, name);
    BeginKeeps(f, parent, name, d);
    NewInodeKeeps(f, b.fs, d, b.ino, NewInode(b.ino, IFREG, 1, WithMode(IFREG, mode), 0));
  }

  lemma SameInodesKept(f: Fs, f1: Fs, f2: Fs, d: nat)
    requires Shape(f) && Shape(f1) && Shape(f2) && Grows(f, f1, d) && f2.inodes == f1.inodes
    ensures Grows(f, f2, d)
  {
    hide KindAt;
  }

  // A write changes the pointers and the size of its own file.
  lemma WriteKeeps(f: Fs, path: seq<Name>, buf: seq<Byte>, offset: nat)
    requires Inv(f) && FileAt(f, path)
    ensures var f' := Write(f, path, buf, offset).0; Shape(f') && KeepsInodes(f, f', Target(f, path).value)
  {
    hide KindOf, KindAt, SlotAt, Entry, InodesOk, BlocksOk, EntriesOk, WriteBlocks, SizeAt, Target, Held, Placed,
      Written, Charged, LostBlocks, Accounted;
    var i := Target(f, path).value;
    LookupFollowsBindings(f, path);
    KindOfInode(f, i);
    HeldAtFirst(f, i);
    WriteLoop(f, i, f.inodes[i], offset / BLOCK, offset % BLOCK, buf, 0);
    var w := WriteBlocks(f, f.inodes[i], offset / BLOCK, offset % BLOCK, buf, 0);
    HeldShape(w.fs, i, w.inode);
    WrittenFully(f, Writei(w.fs, i, w.inode), i, offset / BLOCK, offset % BLOCK, buf, w);
  }
}
