// What every operation of the file system keeps: who owns which block, that free blocks are
// zero, and that every inode number is named at most once and the root never.
module RufsInvariants {
  import opened Wrappers
  import opened Bytes
  import opened RufsLayout
  import opened RufsState

  // ----- the disk seen through its inodes -----

  datatype Kind = Absent | Directory | Regular | Other

  ghost function KindOf(x: Inode): Kind
    requires |x.stat| == STAT_SIZE
  {
    if x.valid == 0 then Absent else if IsDir(x) then Directory else if IsReg(x) then Regular else Other
  }

  // What an inode made with this type and this mode argument is: neither a directory nor a file
  // when the mode brings the type bits of another type along.
  function MadeKind(kind: nat, mode: nat): (r: Kind)
    requires kind == IFDIR || kind == IFREG
    ensures r != Absent
  {
    if !TypeWithin(kind, mode) then Other else if kind == IFDIR then Directory else Regular
  }

  lemma NewKind(i: nat, kind: nat, link: nat, mode: nat, block: nat)
    requires kind == IFDIR || kind == IFREG
    requires i < 0x1_0000 && link < WORD_LIMIT && mode < WORD_LIMIT && block < WORD_LIMIT
    ensures KindOf(NewInode(i, kind, link, WithMode(kind, mode), block)) == MadeKind(kind, mode)
  {
    hide IsDir, IsReg, WithMode, TypeWithin;
    NewInodeKind(i, kind, link, mode, block);
  }

  ghost function KindAt(f: Fs, i: nat): (r: Kind)
    requires Shape(f)
    ensures r != Absent ==> i < MAX_INUM
  {
    if i < MAX_INUM then KindOf(f.inodes[i]) else Absent
  }

  // Pointer slot k of inode i names data block b.
  ghost predicate Owns(f: Fs, i: nat, k: nat, b: nat): (r: bool)
    requires Shape(f)
    ensures r ==> k < DIRECT && b < MAX_DNUM
  {
    KindAt(f, i) != Absent && k < DIRECT && b < MAX_DNUM && f.inodes[i].direct[k] == D_START_BLK + b
  }

  // What pointer slot k of inode i leads to.
  ghost function SlotAt(f: Fs, i: nat, k: nat): Option<Block>
    requires Shape(f)
  {
    if KindAt(f, i) != Absent && k < DIRECT && IsBlock(f.inodes[i].direct[k]) then
      Some(DataAt(f, f.inodes[i].direct[k]))
    else None
  }

  ghost function SizeAt(f: Fs, i: nat): nat
    requires Shape(f)
  {
    if KindAt(f, i) == Regular then f.inodes[i].size else 0
  }

  ghost function UsedEntry(b: Block, j: nat): Option<Dirent>
    requires j < DIRENTS_PER_BLOCK
  {
    if DecodeEntry(b, j).valid != 0 then Some(DecodeEntry(b, j)) else None
  }

  // Entry n of directory d, counting through its 16 block slots, if it is in use.
  ghost function Entry(f: Fs, d: nat, n: nat): Option<Dirent>
    requires Shape(f)
  {
    if KindAt(f, d) == Directory && n < SLOTS && SlotAt(f, d, n / DIRENTS_PER_BLOCK).Some? then
      UsedEntry(SlotAt(f, d, n / DIRENTS_PER_BLOCK).value, n % DIRENTS_PER_BLOCK)
    else None
  }

  // Entry n of directory d names inode i.
  ghost predicate Bound(f: Fs, d: nat, n: nat, i: nat)
    requires Shape(f)
  {
    Entry(f, d, n).Some? && Entry(f, d, n).value.ino == i
  }

  // Entry n of directory d has this name.
  ghost predicate Named(f: Fs, d: nat, n: nat, name: seq<Byte>)
    requires Shape(f)
  {
    Entry(f, d, n).Some? && Matches(Entry(f, d, n).value, name)
  }

  // ----- the invariant -----

  // The root is a directory; an inode in use carries its own number and has its bit set.
  ghost predicate InodesOk(f: Fs)
    requires Shape(f)
  {
    && KindAt(f, 0) == Directory && f.ibits[0]
    && (forall i: nat :: KindAt(f, i) != Absent ==> f.inodes[i].ino == i && f.ibits[i])
  }

  // No block is in two pointer slots, owned blocks are marked, and unmarked blocks are zero.
  ghost predicate BlocksOk(f: Fs)
    requires Shape(f)
  {
    && (forall i: nat, k: nat, b: nat :: Owns(f, i, k, b) ==> f.dbits[b])
    && (forall i: nat, k: nat, j: nat, l: nat, b: nat :: Owns(f, i, k, b) && Owns(f, j, l, b) ==> i == j && k == l)
    && (forall b: nat :: b < MAX_DNUM && !f.dbits[b] ==> f.data[b] == Zeros(BLOCK))
  }

  // Each inode number is in at most one entry of all directories together, none names the root,
  // and a directory has no name twice.
  ghost predicate EntriesOk(f: Fs)
    requires Shape(f)
  {
    && (forall d: nat, n: nat, i: nat :: Bound(f, d, n, i) ==> 0 < i < MAX_INUM && f.ibits[i])
    && (forall d: nat, n: nat, e: nat, m: nat, i: nat :: Bound(f, d, n, i) && Bound(f, e, m, i) ==> d == e && n == m)
    && (forall d: nat, n: nat, m: nat, name: seq<Byte> :: Named(f, d, n, name) && Named(f, d, m, name) ==> n == m)
  }

  ghost predicate Consistent(f: Fs) {
    Sound(f) && InodesOk(f) && BlocksOk(f) && EntriesOk(f)
  }

  // ----- mkfs -----

  lemma MkfsView(f: Fs)
    requires f == Mkfs()
    ensures Sound(f) && KindAt(f, 0) == Directory && f.inodes[0].ino == 0
    ensures forall i: nat :: i > 0 ==> KindAt(f, i) == Absent
    ensures forall i: nat, k: nat, b: nat :: Owns(f, i, k, b) ==> b == 0 && i == 0 && k == 0
    ensures forall i: nat, k: nat :: SlotAt(f, i, k).Some? ==> SlotAt(f, i, k).value == Zeros(BLOCK)
  {
    hide DecodeInode, NewInode, IsDir, IsReg, WithMode, TypeWithin;
    NewInodeKind(0, IFDIR, 2, 0x1ED, D_START_BLK);
    PlainMode();
    MkfsInodes();
  }

  lemma PlainMode()
    ensures TypeWithin(IFDIR, 0x1ED)
  {
  }

  lemma MkfsInodes()
    ensures var f := Mkfs();
            && Shape(f) && f.inodes[0] == NewInode(0, IFDIR, 2, WithMode(IFDIR, 0x1ED), D_START_BLK)
            && f.inodes[0].ino == 0 && f.inodes[0].valid == 1
            && |f.inodes[0].direct| == DIRECT
            && (forall k :: 0 <= k < DIRECT ==> f.inodes[0].direct[k] == if k == 0 then D_START_BLK else 0)
            && forall i :: 0 < i < MAX_INUM ==> f.inodes[i].valid == 0
  {
    var f := Mkfs();
    var blank := DecodeInode(Zeros(INODE_SIZE));
    var root := NewInode(0, IFDIR, 2, WithMode(IFDIR, 0x1ED), D_START_BLK);
    assert blank.valid == 0;
    assert Fits(root) && Fits(blank);
    assert forall i :: 0 <= i < MAX_INUM ==> f.inodes[i] == if i == 0 then root else blank;
  }

  lemma MkfsInv()
    ensures Consistent(Mkfs())
  {
    hide KindAt, Owns, SlotAt, DecodeEntry, DecodeInode, NewInode;
    var f := Mkfs();
    MkfsView(f);
    forall d: nat, n: nat
      ensures Entry(f, d, n).None?
    {
      ZeroBlockHasNoEntries(n % DIRENTS_PER_BLOCK);
    }
  }

  // ----- taking an inode number or a block from its bitmap -----

  // Only the bitmaps differ, so everything seen through the inodes is as before.
  lemma SameTables(f: Fs, f': Fs)
    requires Sound(f) && Shape(f') && f'.inodes == f.inodes && f'.data == f.data
    ensures Sound(f')
    ensures forall i: nat :: KindAt(f', i) == KindAt(f, i) && SizeAt(f', i) == SizeAt(f, i)
    ensures forall i: nat, k: nat :: SlotAt(f', i, k) == SlotAt(f, i, k)
    ensures forall i: nat, k: nat, b: nat :: Owns(f', i, k, b) == Owns(f, i, k, b)
    ensures forall d: nat, n: nat :: Entry(f', d, n) == Entry(f, d, n)
    ensures forall d: nat, n: nat, i: nat :: Bound(f', d, n, i) == Bound(f, d, n, i)
    ensures forall d: nat, n: nat, name: seq<Byte> :: Named(f', d, n, name) == Named(f, d, n, name)
  {
  }

  // Inode number i is marked but neither in use nor named.
  ghost predicate Reserved(f: Fs, i: nat)
    requires Shape(f)
  {
    0 < i < MAX_INUM && f.ibits[i] && KindAt(f, i) == Absent && forall d: nat, n: nat :: !Bound(f, d, n, i)
  }

  lemma AllocInoInv(f: Fs)
    requires Consistent(f) && AllocIno(f).1.Some?
    ensures var (f', i) := AllocIno(f);
            Shape(f') && f'.inodes == f.inodes && f'.data == f.data && f'.dbits == f.dbits && Consistent(f')
                && Reserved(f', i.value)
  {
    hide KindAt, Owns, SlotAt, Entry, SizeAt;
    SameTables(f, AllocIno(f).0);
  }

  // Block b of the data region is marked and owned by no slot but (i, k).
  ghost predicate Spare(f: Fs, b: nat, i: nat, k: nat)
    requires Shape(f)
  {
    b < MAX_DNUM && f.dbits[b] && forall j: nat, l: nat :: Owns(f, j, l, b) ==> j == i && l == k
  }

  // Block b is marked, still zero, and in no pointer slot.
  ghost predicate Unowned(f: Fs, b: nat)
    requires Shape(f)
  {
    b < MAX_DNUM && f.dbits[b] && f.data[b] == Zeros(BLOCK) && forall i: nat, k: nat :: !Owns(f, i, k, b)
  }

  lemma AllocBlkInv(f: Fs)
    requires Consistent(f) && AllocBlk(f).1.Some?
    ensures var (f', p) := AllocBlk(f);
            && Shape(f') && f'.inodes == f.inodes && f'.data == f.data && f'.ibits == f.ibits && Consistent(f')
            && IsBlock(p.value)
            && Unowned(f', p.value - D_START_BLK)
  {
    hide KindAt, Owns, SlotAt, Entry, SizeAt;
    SameTables(f, AllocBlk(f).0);
  }

  // ----- pointing a slot at a block -----

  // x replaces inode i, differing in pointer slot k only, which now names block b.
  ghost predicate Repoints(f: Fs, i: nat, k: nat, b: nat, x: Inode)
    requires Shape(f)
  {
    && i < MAX_INUM && k < DIRECT && b < MAX_DNUM && Fits(x) && x.valid != 0
    && forall l :: 0 <= l < DIRECT ==>
         x.direct[l] == if l == k then D_START_BLK + b else if KindAt(f, i) == Absent then 0 else f.inodes[i].direct[l]
  }

  function Put(f: Fs, i: nat, b: nat, block: Block, x: Inode): Fs
    requires |f.inodes| == MAX_INUM && |f.data| == MAX_DNUM && b < MAX_DNUM
  {
    Writei(PutData(f, D_START_BLK + b, block), i, x)
  }

  lemma PutShape(f: Fs, i: nat, k: nat, b: nat, block: Block, x: Inode)
    requires Sound(f) && Repoints(f, i, k, b, x)
    ensures Sound(Put(f, i, b, block, x))
    ensures forall j: nat :: KindAt(Put(f, i, b, block, x), j) == if j == i then KindOf(x) else KindAt(f, j)
    ensures forall j: nat, l: nat, c: nat :: Owns(Put(f, i, b, block, x), j, l, c) ==
              if j == i && l == k then c == b else Owns(f, j, l, c)
  {
    var f' := Put(f, i, b, block, x);
    assert Shape(f') by {
      assert forall j :: 0 <= j < MAX_INUM ==> f'.inodes[j] == if j == i then x else f.inodes[j];
    }
    assert PointersOk(x);
  }

  // Writing a block that no other slot leads to changes what that one slot leads to.
  lemma PutSlots(f: Fs, i: nat, k: nat, b: nat, block: Block, x: Inode)
    requires Sound(f) && Repoints(f, i, k, b, x) && Spare(f, b, i, k)
    ensures Sound(Put(f, i, b, block, x))
    ensures forall j: nat, l: nat :: SlotAt(Put(f, i, b, block, x), j, l) == if j == i && l == k then Some(block)
        else SlotAt(f, j, l)
  {
    var f' := Put(f, i, b, block, x);
    PutShape(f, i, k, b, block, x);
    forall j: nat, l: nat
      ensures SlotAt(f', j, l) == if j == i && l == k then Some(block) else SlotAt(f, j, l)
    {
      if KindAt(f, j) != Absent && l < DIRECT && IsBlock(f.inodes[j].direct[l]) {
        assert Owns(f, j, l, f.inodes[j].direct[l] - D_START_BLK);
      }
    }
  }

  lemma PutBlocksOk(f: Fs, i: nat, k: nat, b: nat, block: Block, x: Inode)
    requires Sound(f) && BlocksOk(f) && Repoints(f, i, k, b, x) && Spare(f, b, i, k)
    ensures Sound(Put(f, i, b, block, x)) && BlocksOk(Put(f, i, b, block, x))
  {
    PutShape(f, i, k, b, block, x);
    hide KindAt, Owns, SlotAt;
  }
}
