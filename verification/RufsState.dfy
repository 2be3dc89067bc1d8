// The file system as a machine over its decoded disk: the two bitmaps, the inode table and the
// data blocks. The class RufsDisk refines these operations.
module RufsState {
  import opened Wrappers
  import opened Bytes
  import opened Bitmaps
  import opened RufsLayout

  const MAX_INUM: nat := 1024
  const MAX_DNUM: nat := 16384
  const I_BITMAP_BLK: nat := 1
  const D_BITMAP_BLK: nat := 2
  const I_START_BLK: nat := 3
  const D_START_BLK: nat := 67
  const SLOTS: nat := 304  // 16 blocks of 19 entries

  const ENOENT: int := 2
  const EIO: int := 5
  const ENOTDIR: int := 20
  const EISDIR: int := 21
  const ENOSPC: int := 28

  // A path component: not empty, and free of NUL bytes.
  type Name = s: seq<Byte> | s != [] && forall i :: 0 <= i < |s| ==> s[i] != 0 witness [1]

  datatype Fs = Fs(ibits: seq<bool>, dbits: seq<bool>, inodes: seq<Inode>, data: seq<Block>)

  ghost predicate Shape(f: Fs) {
    && |f.ibits| == MAX_INUM && |f.dbits| == MAX_DNUM && |f.inodes| == MAX_INUM && |f.data| == MAX_DNUM
    && forall i :: 0 <= i < MAX_INUM ==> Fits(f.inodes[i])
  }

  predicate IsBlock(p: nat) {
    D_START_BLK <= p < D_START_BLK + MAX_DNUM
  }

  // Every direct pointer is null or names a data block.
  ghost predicate PointersOk(x: Inode) {
    Fits(x) && forall k :: 0 <= k < DIRECT && x.direct[k] != 0 ==> IsBlock(x.direct[k])
  }

  // ----- bitmaps -----

  // get_avail_ino
  function AllocIno(f: Fs): (r: (Fs, Option<nat>))
    requires |f.ibits| == MAX_INUM
    ensures match r.1
            case None => r.0 == f && forall j :: 0 <= j < MAX_INUM ==> f.ibits[j]
            case Some(i) =>
              && i < MAX_INUM && !f.ibits[i] && (forall j :: 0 <= j < i ==> f.ibits[j])
              && r.0 == f.(ibits := f.ibits[i := true])
  {
    var i := FirstClear(f.ibits, 0);
    if i == MAX_INUM then (f, None) else (f.(ibits := f.ibits[i := true]), Some(i))
  }

  // get_avail_blkno
  function AllocBlk(f: Fs): (r: (Fs, Option<nat>))
    requires |f.dbits| == MAX_DNUM
    ensures match r.1
            case None => r.0 == f && forall j :: 0 <= j < MAX_DNUM ==> f.dbits[j]
            case Some(p) =>
              && IsBlock(p) && !f.dbits[p - D_START_BLK]
              && (forall j :: 0 <= j < p - D_START_BLK ==> f.dbits[j])
              && r.0 == f.(dbits := f.dbits[p - D_START_BLK := true])
  {
    var b := FirstClear(f.dbits, 0);
    if b == MAX_DNUM then (f, None) else (f.(dbits := f.dbits[b := true]), Some(D_START_BLK + b))
  }

  // ----- readi, writei and the data blocks -----

  function Readi(f: Fs, ino: nat): Option<Inode>
    requires |f.inodes| == MAX_INUM
  {
    if ino >= MAX_INUM || f.inodes[ino].valid == 0 then None else Some(f.inodes[ino])
  }

  function Writei(f: Fs, ino: nat, x: Inode): Fs
    requires |f.inodes| == MAX_INUM
  {
    if ino >= MAX_INUM then f else f.(inodes := f.inodes[ino := x])
  }

  function DataAt(f: Fs, p: nat): Block
    requires |f.data| == MAX_DNUM && IsBlock(p)
  {
    f.data[p - D_START_BLK]
  }

  function PutData(f: Fs, p: nat, b: Block): Fs
    requires |f.data| == MAX_DNUM && IsBlock(p)
  {
    f.(data := f.data[p - D_START_BLK := b])
  }

  // ----- directories -----

  // Entry n of a directory, counting through its 16 block slots.
  function EntryAt(f: Fs, x: Inode, n: nat): (e: Dirent)
    requires |f.data| == MAX_DNUM && PointersOk(x) && n < SLOTS && x.direct[n / DIRENTS_PER_BLOCK] != 0
    ensures EntryFits(e)
  {
    DecodeEntry(DataAt(f, x.direct[n / DIRENTS_PER_BLOCK]), n % DIRENTS_PER_BLOCK)
  }

  predicate Matches(e: Dirent, name: seq<Byte>) {
    e.valid != 0 && e.len == |name| && |name| <= |e.name| && e.name[..|name|] == name
  }

  // The first entry for name at or after n; SLOTS when there is none.
  function FindEntry(f: Fs, x: Inode, name: seq<Byte>, n: nat): (k: nat)
    requires |f.data| == MAX_DNUM && PointersOk(x) && n <= SLOTS
    ensures n <= k <= SLOTS
    ensures k < SLOTS ==> x.direct[k / DIRENTS_PER_BLOCK] != 0 && Matches(EntryAt(f, x, k), name)
    ensures forall m :: n <= m < k && x.direct[m / DIRENTS_PER_BLOCK] != 0 ==> !Matches(EntryAt(f, x, m), name)
    decreases SLOTS - n
  {
    if n == SLOTS || (x.direct[n / DIRENTS_PER_BLOCK] != 0 && Matches(EntryAt(f, x, n), name)) then n
    else FindEntry(f, x, name, n + 1)
  }

  // The first unused entry at or after n in the blocks the directory has; SLOTS when there is none.
  function FreeEntry(f: Fs, x: Inode, n: nat): (k: nat)
    requires |f.data| == MAX_DNUM && PointersOk(x) && n <= SLOTS
    ensures n <= k <= SLOTS
    ensures k < SLOTS ==> x.direct[k / DIRENTS_PER_BLOCK] != 0 && EntryAt(f, x, k).valid == 0
    ensures forall m :: n <= m < k && x.direct[m / DIRENTS_PER_BLOCK] != 0 ==> EntryAt(f, x, m).valid != 0
    decreases SLOTS - n
  {
    if n == SLOTS || (x.direct[n / DIRENTS_PER_BLOCK] != 0 && EntryAt(f, x, n).valid == 0) then n
    else FreeEntry(f, x, n + 1)
  }

  function FirstZero(direct: seq<nat>, i: nat): (k: nat)
    requires i <= |direct|
    ensures i <= k <= |direct|
    ensures forall j :: i <= j < k ==> direct[j] != 0
    ensures k < |direct| ==> direct[k] == 0
    decreases |direct| - i
  {
    if i < |direct| && direct[i] != 0 then FirstZero(direct, i + 1) else i
  }

  // dir_find
  function DirFind(f: Fs, ino: nat, name: seq<Byte>): (r: Option<Dirent>)
    requires Shape(f) && (ino < MAX_INUM && f.inodes[ino].valid != 0 ==> PointersOk(f.inodes[ino]))
  {
    if |name| > NAME_MAX then None
    else
      match Readi(f, ino)
      case None => None
      case Some(x) =>
        var k := FindEntry(f, x, name, 0);
        if k == SLOTS then None else Some(EntryAt(f, x, k))
  }

  function Grown(x: Inode): Inode {
    x.(size := (x.size + DIRENT_SIZE) % WORD_LIMIT)
  }

  // dir_add where an unused entry k exists
  function AddInPlace(f: Fs, x: Inode, ino: nat, name: seq<Byte>, k: nat): (r: Fs)
    requires Shape(f) && PointersOk(x) && k < SLOTS && x.direct[k / DIRENTS_PER_BLOCK] != 0
    requires ino < 0x1_0000 && |name| <= NAME_MAX
    ensures Shape(r) && r.ibits == f.ibits && r.dbits == f.dbits
  {
    var p := x.direct[k / DIRENTS_PER_BLOCK];
    var e := EntryAt(f, x, k);
    var e1 := Dirent(ino, 1, Overlay(e.name, 0, name), |name|);
    Writei(PutData(f, p, StoreEntry(DataAt(f, p), k % DIRENTS_PER_BLOCK, e1)), x.ino, Grown(x))
  }

  // dir_add with a new block p in pointer slot i
  function AddInNewBlock(f: Fs, x: Inode, ino: nat, name: seq<Byte>, p: nat, i: nat): (r: Fs)
    requires Shape(f) && PointersOk(x) && IsBlock(p) && i < DIRECT
    requires ino < 0x1_0000 && |name| <= NAME_MAX
    ensures Shape(r) && r.ibits == f.ibits && r.dbits == f.dbits
  {
    var e1 := Dirent(ino, 1, Overlay(Zeros(NAME_MAX), 0, name), |name|);
    Writei(PutData(f, p, StoreEntry(Zeros(BLOCK), 0, e1)), x.ino, Grown(x.(direct := x.direct[i := p])))
  }

  // dir_add; false stands for a negative return value.
  function DirAdd(f: Fs, x: Inode, ino: nat, name: seq<Byte>): (r: (Fs, bool))
    requires Shape(f) && PointersOk(x) && ino < 0x1_0000
    requires x.ino < MAX_INUM && f.inodes[x.ino].valid != 0 ==> PointersOk(f.inodes[x.ino])
    ensures Shape(r.0)
  {
    if |name| > NAME_MAX || DirFind(f, x.ino, name).Some? then (f, false)
    else
      var k := FreeEntry(f, x, 0);
      if k < SLOTS then (AddInPlace(f, x, ino, name, k), true)
      else
        match AllocBlk(f)
        case (_, None) => (f, false)
        case (f1, Some(p)) =>
          var i := FirstZero(x.direct, 0);
          if i == DIRECT then (f1, false) else (AddInNewBlock(f1, x, ino, name, p, i), true)
  }

  // ----- paths -----

  // Every inode in use has proper pointers.
  ghost predicate Sound(f: Fs) {
    Shape(f) && forall i :: 0 <= i < MAX_INUM && f.inodes[i].valid != 0 ==> PointersOk(f.inodes[i])
  }

  // One turn of get_node_by_path's loop.
  function Enter(f: Fs, x: Inode, name: Name): (r: Option<Inode>)
    requires Sound(f) && Fits(x)
    ensures r.Some? ==> PointersOk(r.value)
  {
    if !IsDir(x) then None
    else
      match DirFind(f, x.ino, name)
      case None => None
      case Some(e) => Readi(f, e.ino)
  }

  // get_node_by_path from the root
  function Lookup(f: Fs, path: seq<Name>): (r: Option<Inode>)
    requires Sound(f)
    ensures r.Some? ==> PointersOk(r.value)
    decreases |path|
  {
    if |path| == 0 then Readi(f, 0)
    else
      match Lookup(f, path[..|path| - 1])
      case None => None
      case Some(x) => Enter(f, x, path[|path| - 1])
  }

  // ----- mkfs, mkdir, create -----

  // rufs_mkfs on a zeroed disk
  function Mkfs(): (f: Fs) {
    Fs(seq(MAX_INUM, i => i == 0), seq(MAX_DNUM, b => b == 0),
       seq(MAX_INUM, i => if i == 0 then NewInode(0, IFDIR, 2, WithMode(IFDIR, 0x1ED), D_START_BLK)
           else DecodeInode(Zeros(INODE_SIZE))),
       seq(MAX_DNUM, _ => Zeros(BLOCK)))
  }

  // The common part of rufs_mkdir and rufs_create: the parent, the inode number, the entry.
  datatype Begun =
    | Begun(fs: Fs, ino: nat)
    | NoParent
    | NotDir
    | NoInode
    | NotAdded(fs: Fs)

  function BeginIn(f: Fs, x: Inode, name: Name): (r: Begun)
    requires Sound(f) && PointersOk(x)
    ensures r.Begun? ==> r.ino < MAX_INUM && Shape(r.fs)
  {
    if !IsDir(x) then NotDir
    else
      match AllocIno(f)
      case (_, None) => NoInode
      case (f1, Some(i)) =>
        var (f2, ok) := DirAdd(f1, x, i, name);
        if ok then Begun(f2, i) else NotAdded(f2)
  }

  function Begin(f: Fs, parent: seq<Name>, name: Name): (r: Begun)
    requires Sound(f)
    ensures r.Begun? ==> r.ino < MAX_INUM && Shape(r.fs)
  {
    match Lookup(f, parent)
    case None => NoParent
    case Some(x) => BeginIn(f, x, name)
  }

  function Mkdir(f: Fs, parent: seq<Name>, name: Name, mode: nat): (r: (Fs, int))
    requires Sound(f) && mode < WORD_LIMIT
  {
    match Begin(f, parent, name)
    case NoParent => (f, -ENOENT)
    case NotDir => (f, -1)
    case NoInode => (f, -1)
    case NotAdded(f1) => (f1, -1)
    case Begun(f1, i) =>
      match AllocBlk(f1)
      case (_, None) => (f1, -ENOSPC)
      case (f2, Some(p)) => (Writei(f2, i, NewInode(i, IFDIR, 2, WithMode(IFDIR, mode), p)), 0)
  }

  function Create(f: Fs, parent: seq<Name>, name: Name, mode: nat): (r: (Fs, int))
    requires Sound(f) && mode < WORD_LIMIT
  {
    match Begin(f, parent, name)
    case NoParent => (f, -ENOENT)
    case NotDir => (f, -ENOTDIR)
    case NoInode => (f, -ENOSPC)
    case NotAdded(f1) => (f1, -EIO)
    case Begun(f1, i) => (Writei(f1, i, NewInode(i, IFREG, 1, WithMode(IFREG, mode), 0)), 0)
  }

  // ----- getattr -----

  // The mode that rufs_getattr returns.
  function Getattr(f: Fs, path: seq<Name>): (r: (nat, int))
    requires Sound(f)
  {
    match Lookup(f, path)
    case None => (0, -ENOENT)
    case Some(x) => (Mode(x), 0)
  }

  // ----- read and write -----

  function Min(a: nat, b: nat): nat {
    if a <= b then a else b
  }

  // The block of pointer slot i, allocated if it is missing.
  function BlockFor(f: Fs, x: Inode, i: nat): (r: (Fs, Option<nat>))
    requires Shape(f) && PointersOk(x) && i < DIRECT
    ensures Shape(r.0) && (r.1.Some? ==> IsBlock(r.1.value))
  {
    if x.direct[i] != 0 then (f, Some(x.direct[i])) else AllocBlk(f)
  }

  // The loop of rufs_write from block slot i on; done bytes of buf are written.
  datatype Writing = Writing(fs: Fs, inode: Inode, done: nat, full: bool)

  function WriteBlocks(f: Fs, x: Inode, i: nat, off: nat, buf: seq<Byte>, done: nat): (r: Writing)
    requires Shape(f) && PointersOk(x) && off < BLOCK && done <= |buf|
    ensures Shape(r.fs) && PointersOk(r.inode) && done <= r.done <= |buf|
    decreases DIRECT - i
  {
    if i >= DIRECT || done >= |buf| then Writing(f, x, done, false)
    else
      var (f1, p) := BlockFor(f, x, i);
      if p.None? then Writing(f1, x, done, true)
      else
        var n := Min(BLOCK - off, |buf| - done);
        var f2 := PutData(f1, p.value, Overlay(DataAt(f1, p.value), off, buf[done..done + n]));
        WriteBlocks(f2, x.(direct := x.direct[i := p.value]), i + 1, 0, buf, done + n)
  }

  function Write(f: Fs, path: seq<Name>, buf: seq<Byte>, offset: nat): (r: (Fs, int))
    requires Sound(f)
  {
    match Lookup(f, path)
    case None => (f, -ENOENT)
    case Some(x) =>
      if !IsReg(x) then (f, -EISDIR)
      else
        var w := WriteBlocks(f, x, offset / BLOCK, offset % BLOCK, buf, 0);
        if w.full then (w.fs, -ENOSPC)
        else
          var end := offset + w.done;
          var x1 := if end > w.inode.size then w.inode.(size := end % WORD_LIMIT) else w.inode;
          (Writei(w.fs, x1.ino, x1), w.done)
  }

  // The loop of rufs_read from block slot i on.
  function ReadBlocks(f: Fs, x: Inode, i: nat, off: nat, size: nat): (r: seq<Byte>)
    requires |f.data| == MAX_DNUM && PointersOk(x) && off < BLOCK
    ensures |r| <= size
    decreases DIRECT - i
  {
    if i >= DIRECT || size == 0 || x.direct[i] == 0 then []
    else
      var n := Min(BLOCK - off, size);
      DataAt(f, x.direct[i])[off..off + n] + ReadBlocks(f, x, i + 1, 0, size - n)
  }

  // The bytes rufs_read copies out, and its return value.
  function Read(f: Fs, path: seq<Name>, size: nat, offset: nat): (r: (seq<Byte>, int))
    requires Sound(f)
  {
    match Lookup(f, path)
    case None => ([], -ENOENT)
    case Some(x) =>
      if !IsReg(x) then ([], -EISDIR)
      else if offset >= x.size then ([], 0)
      else
        var n := if offset + size > x.size then x.size - offset else size;
        var r := ReadBlocks(f, x, offset / BLOCK, offset % BLOCK, n);
        (r, |r|)
  }
}
