// RUFS on its disk of blocks. Each method does its work in place on the blocks and is shown to
// do what the operation of the same name does on the decoded file system.
module RufsOnDisk {
  import opened Wrappers
  import opened Bytes
  import opened Bitmaps
  import opened RufsLayout
  import opened RufsState
  import opened RufsInvariants
  import opened RufsAccount
  import opened RufsReadWrite
  import opened RufsRuns

  const DISK_BLOCKS: nat := 16451  // D_START_BLK + MAX_DNUM
  const MAGIC_NUM: nat := 0x5C3A

  // ----- the decoded disk -----

  function InodeAt(s: seq<Block>, i: nat): (x: Inode)
    requires |s| == DISK_BLOCKS && i < MAX_INUM
    ensures Fits(x)
  {
    var a := INODE_SIZE * (i % INODES_PER_BLOCK);
    DecodeInode(s[I_START_BLK + i / INODES_PER_BLOCK][a..a + INODE_SIZE])
  }

  function Decoded(s: seq<Block>): (f: Fs)
    requires |s| == DISK_BLOCKS
    ensures Shape(f)
  {
    Fs(Bits(s[I_BITMAP_BLK])[..MAX_INUM], Bits(s[D_BITMAP_BLK])[..MAX_DNUM],
       seq(MAX_INUM, i requires 0 <= i < MAX_INUM => InodeAt(s, i)), s[D_START_BLK..])
  }

  lemma DecodedIBitmap(s: seq<Block>, b: Block, i: nat)
    requires |s| == DISK_BLOCKS && i < MAX_INUM && Bits(b) == Bits(s[I_BITMAP_BLK])[i := true]
    ensures var f := Decoded(s);
            Decoded(s[I_BITMAP_BLK := b]) == f.(ibits := f.ibits[i := true])
  {
    hide DecodeInode, Bits;
    SameInodeBlocks(s, s[I_BITMAP_BLK := b]);
    assert s[I_BITMAP_BLK := b][D_START_BLK..] == s[D_START_BLK..];
  }

  lemma DecodedDBitmap(s: seq<Block>, b: Block, i: nat)
    requires |s| == DISK_BLOCKS && i < MAX_DNUM && Bits(b) == Bits(s[D_BITMAP_BLK])[i := true]
    ensures var f := Decoded(s);
            Decoded(s[D_BITMAP_BLK := b]) == f.(dbits := f.dbits[i := true])
  {
    hide DecodeInode, Bits;
    SameInodeBlocks(s, s[D_BITMAP_BLK := b]);
    assert s[D_BITMAP_BLK := b][D_START_BLK..] == s[D_START_BLK..];
  }

  lemma SameInodeBlocks(s: seq<Block>, s': seq<Block>)
    requires |s| == |s'| == DISK_BLOCKS && forall n :: I_START_BLK <= n < D_START_BLK ==> s'[n] == s[n]
    ensures Decoded(s').inodes == Decoded(s).inodes
  {
    hide DecodeInode, Bits;
    forall i | 0 <= i < MAX_INUM
      ensures InodeAt(s', i) == InodeAt(s, i)
    {
      assert I_START_BLK <= I_START_BLK + i / INODES_PER_BLOCK < D_START_BLK;
    }
  }

  // Storing a data block changes that block alone.
  lemma DecodedData(s: seq<Block>, p: nat, b: Block)
    requires |s| == DISK_BLOCKS && IsBlock(p)
    ensures Decoded(s[p := b]) == PutData(Decoded(s), p, b)
  {
    hide DecodeInode, Bits;
    SameInodeBlocks(s, s[p := b]);
    assert s[p := b][D_START_BLK..] == s[D_START_BLK..][p - D_START_BLK := b];
  }

  // Storing one of the sixteen inodes of a block leaves its neighbours as they were.
  lemma DecodedInode(s: seq<Block>, ino: nat, x: Inode)
    requires |s| == DISK_BLOCKS && ino < MAX_INUM && Fits(x)
    ensures var n := I_START_BLK + ino / INODES_PER_BLOCK;
            var b := Overlay(s[n], INODE_SIZE * (ino % INODES_PER_BLOCK), EncodeInode(x));
            |b| == BLOCK && Decoded(s[n := b]) == Writei(Decoded(s), ino, x)
  {
    hide DecodeInode, EncodeInode, Bits;
    var n := I_START_BLK + ino / INODES_PER_BLOCK;
    var bs := EncodeInode(x);
    var b := Overlay(s[n], INODE_SIZE * (ino % INODES_PER_BLOCK), bs);
    var s' := s[n := b];
    forall i | 0 <= i < MAX_INUM
      ensures InodeAt(s', i) == if i == ino then x else InodeAt(s, i)
    {
      NeighbourKept(s[n], bs, ino % INODES_PER_BLOCK, i % INODES_PER_BLOCK);
      if i == ino {
        DecodeEncodeInode(x);
      }
    }
    assert Decoded(s').inodes == Decoded(s).inodes[ino := x];
    assert s'[D_START_BLK..] == s[D_START_BLK..];
  }

  lemma NeighbourKept(b: Block, bs: seq<Byte>, k: nat, l: nat)
    requires |bs| == INODE_SIZE && k < INODES_PER_BLOCK && l < INODES_PER_BLOCK
    ensures var r := Overlay(b, INODE_SIZE * k, bs);
            r[INODE_SIZE * l..INODE_SIZE * l + INODE_SIZE] == if l == k then bs
                else b[INODE_SIZE * l..INODE_SIZE * l + INODE_SIZE]
  {
    var r := Overlay(b, INODE_SIZE * k, bs)[INODE_SIZE * l..INODE_SIZE * l + INODE_SIZE];
    var e := if l == k then bs else b[INODE_SIZE * l..INODE_SIZE * l + INODE_SIZE];
    forall i | 0 <= i < INODE_SIZE
      ensures r[i] == e[i]
    {
    }
    assert r == e;
  }

  // ----- the scans of directory blocks -----

  // A null pointer has no entries to look at.
  lemma {:induction false} FindSkips(f: Fs, x: Inode, name: seq<Byte>, i: nat, j: nat)
    requires |f.data| == MAX_DNUM && PointersOk(x) && i < DIRECT && x.direct[i] == 0 && j <= DIRENTS_PER_BLOCK
    ensures FindEntry(f, x, name, DIRENTS_PER_BLOCK * i + j) == FindEntry(f, x, name, DIRENTS_PER_BLOCK * (i + 1))
    decreases DIRENTS_PER_BLOCK - j
  {
    if j < DIRENTS_PER_BLOCK {
      assert (DIRENTS_PER_BLOCK * i + j) / DIRENTS_PER_BLOCK == i;
      FindSkips(f, x, name, i, j + 1);
    }
  }

  lemma {:induction false} FreeSkips(f: Fs, x: Inode, i: nat, j: nat)
    requires |f.data| == MAX_DNUM && PointersOk(x) && i < DIRECT && x.direct[i] == 0 && j <= DIRENTS_PER_BLOCK
    ensures FreeEntry(f, x, DIRENTS_PER_BLOCK * i + j) == FreeEntry(f, x, DIRENTS_PER_BLOCK * (i + 1))
    decreases DIRENTS_PER_BLOCK - j
  {
    if j < DIRENTS_PER_BLOCK {
      assert (DIRENTS_PER_BLOCK * i + j) / DIRENTS_PER_BLOCK == i;
      FreeSkips(f, x, i, j + 1);
    }
  }

  // Entry j of the block in slot i.
  lemma EntryOfBlock(f: Fs, x: Inode, i: nat, j: nat)
    requires |f.data| == MAX_DNUM && PointersOk(x) && i < DIRECT && x.direct[i] != 0 && j < DIRENTS_PER_BLOCK
    ensures var n := DIRENTS_PER_BLOCK * i + j;
            && n < SLOTS && n / DIRENTS_PER_BLOCK == i && n % DIRENTS_PER_BLOCK == j
            && EntryAt(f, x, n) == DecodeEntry(DataAt(f, x.direct[i]), j)
  {
    hide DecodeEntry;
  }

  // One step of either scan.
  lemma FindHere(f: Fs, x: Inode, name: seq<Byte>, n: nat)
    requires |f.data| == MAX_DNUM && PointersOk(x) && n < SLOTS && x.direct[n / DIRENTS_PER_BLOCK] != 0
    ensures FindEntry(f, x, name, n) == if Matches(EntryAt(f, x, n), name) then n else FindEntry(f, x, name, n + 1)
  {
  }

  lemma FindNothing(f: Fs, x: Inode, name: seq<Byte>)
    requires |f.data| == MAX_DNUM && PointersOk(x)
    ensures FindEntry(f, x, name, DIRENTS_PER_BLOCK * DIRECT) == SLOTS
  {
  }

  lemma FreeHere(f: Fs, x: Inode, n: nat)
    requires |f.data| == MAX_DNUM && PointersOk(x) && n < SLOTS && x.direct[n / DIRENTS_PER_BLOCK] != 0
    ensures FreeEntry(f, x, n) == if EntryAt(f, x, n).valid == 0 then n else FreeEntry(f, x, n + 1)
  {
  }

  lemma FreeNowhere(f: Fs, x: Inode)
    requires |f.data| == MAX_DNUM && PointersOk(x)
    ensures FreeEntry(f, x, DIRENTS_PER_BLOCK * DIRECT) == SLOTS
  {
  }

  // The walk fails for good once a prefix of the path leads nowhere.
  lemma {:induction false} PrefixFails(f: Fs, path: seq<Name>, k: nat)
    requires Sound(f) && k <= |path| && Lookup(f, path[..k]) == None
    ensures Lookup(f, path) == None
    decreases |path| - k
  {
    hide Enter;
    if k == |path| {
      assert path[..k] == path;
    } else {
      assert path[..k + 1][..k] == path[..k];
      PrefixFails(f, path, k + 1);
    }
  }

  // ----- the turns of the read and write loops -----

  lemma WriteTurn(f: Fs, x: Inode, i: nat, off: nat, buf: seq<Byte>, done: nat)
    requires Shape(f) && PointersOk(x) && off < BLOCK && done < |buf| && i < DIRECT
    ensures var (f1, p) := BlockFor(f, x, i);
            WriteBlocks(f, x, i, off, buf, done) ==
            if p.None? then Writing(f1, x, done, true)
            else
              var n := Min(BLOCK - off, |buf| - done);
              var f2 := PutData(f1, p.value, Overlay(DataAt(f1, p.value), off, buf[done..done + n]));
              WriteBlocks(f2, x.(direct := x.direct[i := p.value]), i + 1, 0, buf, done + n)
    ensures x.direct[i] != 0 ==> x.(direct := x.direct[i := x.direct[i]]) == x
  {
  }

  lemma WriteEnds(f: Fs, x: Inode, i: nat, off: nat, buf: seq<Byte>, done: nat)
    requires Shape(f) && PointersOk(x) && off < BLOCK && done <= |buf| && (i >= DIRECT || done == |buf|)
    ensures WriteBlocks(f, x, i, off, buf, done) == Writing(f, x, done, false)
  {
  }

  lemma ReadEnds(f: Fs, x: Inode, i: nat, off: nat, size: nat)
    requires |f.data| == MAX_DNUM && PointersOk(x) && off < BLOCK && (i >= DIRECT || size == 0 || x.direct[i] == 0)
    ensures ReadBlocks(f, x, i, off, size) == []
  {
  }

  // A copy that continues the one before it.
  lemma CopyContinues(m: seq<Byte>, bs: seq<Byte>, n: nat, chunk: seq<Byte>, rest: seq<Byte>)
    requires |bs| <= |m| && n <= |bs| && bs == bs[..n] + (chunk + rest)
    ensures n + |chunk| <= |bs| && bs == bs[..n + |chunk|] + rest
    ensures Overlay(Overlay(m, 0, bs[..n]), n, chunk) == Overlay(m, 0, bs[..n + |chunk|])
  {
    assert bs[..n + |chunk|] == bs[..n] + chunk;
  }

  lemma AllocInoSound(f: Fs)
    requires Sound(f)
    ensures Sound(AllocIno(f).0)
  {
  }

  // struct superblock as rufs_mkfs fills it in
  function SuperblockBytes(): (bs: seq<Byte>)
    ensures |bs| == 24
  {
    WordBytes(MAGIC_NUM) + HalfBytes(MAX_INUM) + HalfBytes(MAX_DNUM)
    + WordsBytes([I_BITMAP_BLK, D_BITMAP_BLK, I_START_BLK, D_START_BLK])
  }

  // What rufs_init reads back from block 0: the magic number, the two limits, and where the bitmaps,
  // the inodes and the data begin.
  predicate IsSuperblock(b: Block) {
    && Word(b, 0) == 0x5C3A && Half(b, 4) == 1024 && Half(b, 6) == 16384
    && Word(b, 8) == 1 && Word(b, 12) == 2 && Word(b, 16) == 3 && Word(b, 20) == 67
  }

  lemma SuperblockFields(b: Block)
    requires b == Overlay(Zeros(BLOCK), 0, SuperblockBytes())
    ensures IsSuperblock(b)
  {
    hide WordBytes, WordsBytes, HalfBytes, Word, Words, Half;
    var ws := [I_BITMAP_BLK, D_BITMAP_BLK, I_START_BLK, D_START_BLK];
    var bs := SuperblockBytes();
    assert b[0..4] == bs[0..4] == WordBytes(MAGIC_NUM);
    assert b[4..6] == bs[4..6] == HalfBytes(MAX_INUM);
    assert b[6..8] == bs[6..8] == HalfBytes(MAX_DNUM);
    assert b[8..8 + 4 * |ws|] == bs[8..] == WordsBytes(ws);
    StoredWord(b, 0, MAGIC_NUM);
    StoredHalf(b, 4, MAX_INUM);
    StoredHalf(b, 6, MAX_DNUM);
    StoredWords(b, 8, ws);
    FourWords(b, 8);
  }

  lemma FourWords(m: seq<Byte>, a: nat)
    requires a + 16 <= |m|
    ensures var ws := Words(m, a, 4);
            Word(m, a) == ws[0] && Word(m, a + 4) == ws[1] && Word(m, a + 8) == ws[2] && Word(m, a + 12) == ws[3]
  {
  }

  // The disk mkfs has laid out, but for the root's inode.
  lemma FreshDisk(s: seq<Block>, s': seq<Block>)
    requires |s| == DISK_BLOCKS && forall n :: 0 < n < DISK_BLOCKS ==> s[n] == Zeros(BLOCK)
    requires |s'| == DISK_BLOCKS && forall n :: D_BITMAP_BLK < n < DISK_BLOCKS ==> s'[n] == Zeros(BLOCK)
    requires Bits(s'[I_BITMAP_BLK]) == Bits(Zeros(BLOCK))[0 := true]
    requires Bits(s'[D_BITMAP_BLK]) == Bits(Zeros(BLOCK))[0 := true]
    ensures RufsState.Writei(Decoded(s'), 0, NewInode(0, IFDIR, 2, WithMode(IFDIR, 0x1ED), D_START_BLK))
            == RufsState.Mkfs()
  {
    hide DecodeInode, NewInode, Bits;
    ZeroBits(Zeros(BLOCK));
    var f := Decoded(s');
    assert f.ibits == seq(MAX_INUM, i => i == 0);
    assert f.dbits == seq(MAX_DNUM, b => b == 0);
    assert f.data == seq(MAX_DNUM, _ => Zeros(BLOCK));
    forall i | 0 <= i < MAX_INUM
      ensures f.inodes[i] == DecodeInode(Zeros(INODE_SIZE))
    {
      var a := INODE_SIZE * (i % INODES_PER_BLOCK);
      assert Zeros(BLOCK)[a..a + INODE_SIZE] == Zeros(INODE_SIZE);
    }
  }

  // ----- the disk -----

  class RufsDisk {
    const blocks: array<Block>

    ghost predicate Valid() {
      blocks.Length == DISK_BLOCKS
    }

    // The file system that the blocks hold.
    ghost function View(): (f: Fs)
      requires Valid()
      reads blocks
      ensures Shape(f)
    {
      Decoded(blocks[..])
    }

    // dev_init; blocks beyond the end of the file read as zero
    constructor ()
      ensures Valid() && fresh(blocks) && forall n :: 0 <= n < DISK_BLOCKS ==> blocks[n] == Zeros(BLOCK)
    {
      blocks := new Block[DISK_BLOCKS](_ => Zeros(BLOCK));
    }

    // bio_read into a block buffer
    method BioRead(n: nat) returns (buffer: array<Byte>)
      requires Valid() && n < DISK_BLOCKS
      ensures fresh(buffer) && buffer[..] == blocks[n]
    {
      buffer := new Byte[BLOCK];
      var b := blocks[n];
      CopyInto(buffer, 0, b);
      assert buffer[..] == b;
    }

    // bio_write
    method BioWrite(n: nat, buffer: array<Byte>)
      requires Valid() && n < DISK_BLOCKS && buffer.Length == BLOCK
      modifies blocks
      ensures blocks[..] == old(blocks[..])[n := old(buffer[..])]
    {
      blocks[n] := buffer[..];
    }

    // get_avail_ino; -1 when there is none
    method GetAvailIno() returns (r: int)
      requires Valid()
      modifies blocks
      ensures View() == AllocIno(old(View())).0 && blocks[0] == old(blocks[0])
      ensures match AllocIno(old(View())).1 case None => r == -1 case Some(i) => r == i
    {
      hide Bits, InodeAt;
      ghost var s := blocks[..];
      var buffer := BioRead(I_BITMAP_BLK);
      ghost var bits := Decoded(s).ibits;
      for i := 0 to MAX_INUM
        invariant buffer[..] == s[I_BITMAP_BLK] && blocks[..] == s
        invariant FirstClear(bits, 0) == FirstClear(bits, i)
      {
        var bit := GetBit(buffer, i);
        assert bit == bits[i];
        if !bit {
          SetBit(buffer, i);
          DecodedIBitmap(s, buffer[..], i);
          BioWrite(I_BITMAP_BLK, buffer);
          return i;
        }
      }
      return -1;
    }

    // get_avail_blkno; -1 when there is none
    method GetAvailBlkno() returns (r: int)
      requires Valid()
      modifies blocks
      ensures View() == AllocBlk(old(View())).0 && blocks[0] == old(blocks[0])
      ensures match AllocBlk(old(View())).1 case None => r == -1 case Some(p) => r == p
    {
      hide Bits, InodeAt;
      ghost var s := blocks[..];
      var buffer := BioRead(D_BITMAP_BLK);
      ghost var bits := Decoded(s).dbits;
      for i := 0 to MAX_DNUM
        invariant buffer[..] == s[D_BITMAP_BLK] && blocks[..] == s
        invariant FirstClear(bits, 0) == FirstClear(bits, i)
      {
        var bit := GetBit(buffer, i);
        assert bit == bits[i];
        if !bit {
          SetBit(buffer, i);
          DecodedDBitmap(s, buffer[..], i);
          BioWrite(D_BITMAP_BLK, buffer);
          return D_START_BLK + i;
        }
      }
      return -1;
    }

    // readi
    method Readi(ino: nat) returns (r: Option<Inode>)
      requires Valid()
      ensures r == RufsState.Readi(View(), ino)
    {
      hide Bits, DecodeInode;
      if ino >= MAX_INUM {
        return None;
      }
      var buffer := BioRead(I_START_BLK + ino / INODES_PER_BLOCK);
      var offset := INODE_SIZE * (ino % INODES_PER_BLOCK);
      var inode := DecodeInode(buffer[offset..offset + INODE_SIZE]);
      assert buffer[offset..offset + INODE_SIZE] == buffer[..][offset..offset + INODE_SIZE];
      assert inode == View().inodes[ino];
      if inode.valid == 0 {
        return None;
      }
      return Some(inode);
    }

    // writei
    method Writei(ino: nat, inode: Inode)
      requires Valid() && Fits(inode)
      modifies blocks
      ensures View() == RufsState.Writei(old(View()), ino, inode) && blocks[0] == old(blocks[0])
    {
      hide Bits, EncodeInode, Decoded;
      if ino >= MAX_INUM {
        return;
      }
      ghost var s := blocks[..];
      var n := I_START_BLK + ino / INODES_PER_BLOCK;
      var buffer := BioRead(n);
      CopyInto(buffer, INODE_SIZE * (ino % INODES_PER_BLOCK), EncodeInode(inode));
      DecodedInode(s, ino, inode);
      BioWrite(n, buffer);
    }

    // A data block read into a buffer, and a buffer written to a data block.
    method ReadData(p: nat) returns (buffer: array<Byte>)
      requires Valid() && IsBlock(p)
      ensures fresh(buffer) && buffer[..] == DataAt(View(), p)
    {
      hide Bits, InodeAt;
      buffer := BioRead(p);
    }

    method WriteData(p: nat, buffer: array<Byte>)
      requires Valid() && IsBlock(p) && buffer.Length == BLOCK
      modifies blocks
      ensures View() == PutData(old(View()), p, old(buffer[..])) && blocks[0] == old(blocks[0])
    {
      hide Decoded;
      DecodedData(blocks[..], p, buffer[..]);
      BioWrite(p, buffer);
    }

    // dir_find
    method DirFind(ino: nat, name: seq<Byte>) returns (r: Option<Dirent>)
      requires Valid() && Sound(View())
      ensures r == RufsState.DirFind(View(), ino, name)
    {
      hide Decoded, FindEntry, DecodeEntry, EntryAt, DataAt;
      if |name| > NAME_MAX {
        return None;
      }
      ghost var f := View();
      var read := Readi(ino);
      if read == None {
        return None;
      }
      var dirInode := read.value;
      for i := 0 to DIRECT
        invariant FindEntry(f, dirInode, name, 0) == FindEntry(f, dirInode, name, DIRENTS_PER_BLOCK * i)
      {
        var blk := dirInode.direct[i];
        if blk == 0 {
          FindSkips(f, dirInode, name, i, 0);
        } else {
          var buffer := ReadData(blk);
          for j := 0 to DIRENTS_PER_BLOCK
            invariant buffer[..] == DataAt(f, blk)
            invariant FindEntry(f, dirInode, name, 0) == FindEntry(f, dirInode, name, DIRENTS_PER_BLOCK * i + j)
          {
            var entry := DecodeEntry(buffer[..], j);
            EntryOfBlock(f, dirInode, i, j);
            FindHere(f, dirInode, name, DIRENTS_PER_BLOCK * i + j);
            if Matches(entry, name) {
              return Some(entry);
            }
          }
        }
      }
      FindNothing(f, dirInode, name);
      return None;
    }

    // dir_add; false for a negative return value
    method DirAdd(dirInode: Inode, ino: nat, name: seq<Byte>) returns (ok: bool)
      requires Valid() && Sound(View()) && PointersOk(dirInode) && ino < 0x1_0000
      modifies blocks
      ensures (View(), ok) == RufsState.DirAdd(old(View()), dirInode, ino, name) && blocks[0] == old(blocks[0])
    {
      hide Decoded, FreeEntry, DecodeEntry, EncodeEntry, EntryAt, RufsState.DirFind, RufsState.Writei, PutData;
      ghost var f := View();
      if |name| > NAME_MAX {
        return false;
      }
      var found := DirFind(dirInode.ino, name);
      if found.Some? {
        return false;
      }
      for i := 0 to DIRECT
        invariant View() == f && blocks[0] == old(blocks[0])
        invariant FreeEntry(f, dirInode, 0) == FreeEntry(f, dirInode, DIRENTS_PER_BLOCK * i)
      {
        var blk := dirInode.direct[i];
        if blk == 0 {
          FreeSkips(f, dirInode, i, 0);
        } else {
          var buffer := ReadData(blk);
          for j := 0 to DIRENTS_PER_BLOCK
            invariant View() == f && buffer[..] == DataAt(f, blk) && blocks[0] == old(blocks[0])
            invariant FreeEntry(f, dirInode, 0) == FreeEntry(f, dirInode, DIRENTS_PER_BLOCK * i + j)
          {
            var entry := DecodeEntry(buffer[..], j);
            EntryOfBlock(f, dirInode, i, j);
            FreeHere(f, dirInode, DIRENTS_PER_BLOCK * i + j);
            if entry.valid == 0 {
              var added := Dirent(ino, 1, Overlay(entry.name, 0, name), |name|);
              CopyInto(buffer, DIRENT_SIZE * j, EncodeEntry(added));
              WriteData(blk, buffer);
              Writei(dirInode.ino, Grown(dirInode));
              return true;
            }
          }
        }
      }
      FreeNowhere(f, dirInode);
      ok := AddBlock(dirInode, ino, name);
    }

    // dir_add, the part that gives the directory one more block
    method AddBlock(dirInode: Inode, ino: nat, name: seq<Byte>) returns (ok: bool)
      requires Valid() && Sound(View()) && PointersOk(dirInode) && ino < 0x1_0000 && |name| <= NAME_MAX
      modifies blocks
      ensures var (f1, p) := AllocBlk(old(View()));
              var i := FirstZero(dirInode.direct, 0);
              (View(), ok) == if p.None? then (old(View()), false)
                              else if i == DIRECT then (f1, false)
                              else (AddInNewBlock(f1, dirInode, ino, name, p.value, i), true)
      ensures blocks[0] == old(blocks[0])
    {
      hide Decoded, EncodeEntry, RufsState.Writei, PutData;
      var newBlk := GetAvailBlkno();
      if newBlk < 0 {
        return false;
      }
      ghost var f1 := View();
      var slot := 0;
      while slot < DIRECT && dirInode.direct[slot] != 0
        invariant slot <= DIRECT && View() == f1 && blocks[0] == old(blocks[0])
        invariant FirstZero(dirInode.direct, 0) == FirstZero(dirInode.direct, slot)
      {
        slot := slot + 1;
      }
      if slot == DIRECT {
        return false;
      }
      var buffer := new Byte[BLOCK](_ => 0);
      assert buffer[..] == Zeros(BLOCK);
      var added := Dirent(ino, 1, Overlay(Zeros(NAME_MAX), 0, name), |name|);
      CopyInto(buffer, 0, EncodeEntry(added));
      WriteData(newBlk, buffer);
      Writei(dirInode.ino, Grown(dirInode.(direct := dirInode.direct[slot := newBlk])));
      return true;
    }

    // get_node_by_path, from the root
    method GetNodeByPath(path: seq<Name>) returns (r: Option<Inode>)
      requires Valid() && Sound(View())
      ensures r == Lookup(View(), path)
    {
      hide Decoded, RufsState.DirFind, RufsState.Readi, IsDir;
      ghost var f := View();
      var read := Readi(0);
      assert Lookup(f, path[..0]) == read;
      if read == None {
        PrefixFails(f, path, 0);
        return None;
      }
      var cur := read.value;
      for k := 0 to |path|
        invariant View() == f && Lookup(f, path[..k]) == Some(cur)
      {
        ghost var q := path[..k + 1];
        assert q[..k] == path[..k] && q[k] == path[k];
        if !IsDir(cur) {
          PrefixFails(f, path, k + 1);
          return None;
        }
        var dent := DirFind(cur.ino, path[k]);
        if dent == None {
          PrefixFails(f, path, k + 1);
          return None;
        }
        var next := Readi(dent.value.ino);
        if next == None {
          PrefixFails(f, path, k + 1);
          return None;
        }
        cur := next.value;
      }
      assert path[..|path|] == path;
      return Some(cur);
    }

    method WriteSuperblock()
      requires Valid()
      modifies blocks
      ensures IsSuperblock(blocks[0]) && forall n :: 0 < n < DISK_BLOCKS ==> blocks[n] == old(blocks[n])
    {
      hide IsSuperblock;
      var superblock := new Byte[BLOCK](_ => 0);
      assert superblock[..] == Zeros(BLOCK);
      CopyInto(superblock, 0, SuperblockBytes());
      SuperblockFields(superblock[..]);
      BioWrite(0, superblock);
    }

    // rufs_mkfs
    method Mkfs()
      requires Valid() && forall n :: 0 <= n < DISK_BLOCKS ==> blocks[n] == Zeros(BLOCK)
      modifies blocks
      ensures View() == RufsState.Mkfs() && Inv(View()) && IsSuperblock(blocks[0])
    {
      hide Bits, InodeAt, NewInode, Consistent, Charged, WithMode, IsSuperblock;
      WriteSuperblock();
      ghost var s := blocks[..];
      var bitmap := new Byte[BLOCK](_ => 0);
      assert bitmap[..] == Zeros(BLOCK);
      SetBit(bitmap, 0);
      BioWrite(I_BITMAP_BLK, bitmap);
      bitmap := new Byte[BLOCK](_ => 0);
      assert bitmap[..] == Zeros(BLOCK);
      SetBit(bitmap, 0);
      BioWrite(D_BITMAP_BLK, bitmap);
      var root := new Byte[BLOCK](_ => 0);
      assert root[..] == Zeros(BLOCK);
      BioWrite(D_START_BLK, root);
      FreshDisk(s, blocks[..]);
      Writei(0, NewInode(0, IFDIR, 2, WithMode(IFDIR, 0x1ED), D_START_BLK));
      MkfsAccounted();
    }

    // rufs_mkdir
    method Mkdir(parent: seq<Name>, name: Name, mode: ModeArg) returns (r: int)
      requires Valid() && Inv(View())
      modifies blocks
      ensures (View(), r) == RufsState.Mkdir(old(View()), parent, name, mode) && Inv(View())
      ensures blocks[0] == old(blocks[0])
    {
      hide Decoded, InodesOk, BlocksOk, EntriesOk, RufsState.DirAdd, NewInode, Lookup, FirstClear,
        RufsState.Writei;
      ghost var f := View();
      StepInv(f, OpMkdir(parent, name, mode));
      var parentInode := GetNodeByPath(parent);
      if parentInode == None {
        return -ENOENT;
      }
      if !IsDir(parentInode.value) {
        return -1;
      }
      var newIno := GetAvailIno();
      AllocInoSound(f);
      if newIno < 0 {
        return -1;
      }
      var ok := DirAdd(parentInode.value, newIno, name);
      if !ok {
        return -1;
      }
      var blk := GetAvailBlkno();
      if blk < 0 {
        return -ENOSPC;
      }
      Writei(newIno, NewInode(newIno, IFDIR, 2, WithMode(IFDIR, mode), blk));
      return 0;
    }

    // rufs_create
    method Create(parent: seq<Name>, name: Name, mode: ModeArg) returns (r: int)
      requires Valid() && Inv(View())
      modifies blocks
      ensures (View(), r) == RufsState.Create(old(View()), parent, name, mode) && Inv(View())
      ensures blocks[0] == old(blocks[0])
    {
      hide Decoded, InodesOk, BlocksOk, EntriesOk, RufsState.DirAdd, NewInode, Lookup, FirstClear,
        RufsState.Writei;
      ghost var f := View();
      StepInv(f, OpCreate(parent, name, mode));
      var parentInode := GetNodeByPath(parent);
      if parentInode == None {
        return -ENOENT;
      }
      if !IsDir(parentInode.value) {
        return -ENOTDIR;
      }
      var newIno := GetAvailIno();
      AllocInoSound(f);
      if newIno < 0 {
        return -ENOSPC;
      }
      var ok := DirAdd(parentInode.value, newIno, name);
      if !ok {
        return -EIO;
      }
      Writei(newIno, NewInode(newIno, IFREG, 1, WithMode(IFREG, mode), 0));
      return 0;
    }

    // rufs_write
    method Write(path: seq<Name>, buf: seq<Byte>, offset: nat) returns (r: int)
      requires Valid() && Inv(View())
      modifies blocks
      ensures (View(), r) == RufsState.Write(old(View()), path, buf, offset) && Inv(View())
      ensures blocks[0] == old(blocks[0])
    {
      hide Decoded, InodesOk, BlocksOk, EntriesOk, Lookup, AllocBlk, RufsState.Writei, PutData, WriteBlocks, Overlay,
        DataAt, IsReg;
      ghost var f := View();
      StepInv(f, OpWrite(path, buf, offset));
      var node := GetNodeByPath(path);
      if node == None {
        return -ENOENT;
      }
      var fileInode := node.value;
      if !IsReg(fileInode) {
        return -EISDIR;
      }
      ghost var w := WriteBlocks(f, fileInode, offset / BLOCK, offset % BLOCK, buf, 0);
      var written: nat, i: nat, blkOffset: nat := 0, offset / BLOCK, offset % BLOCK;
      while i < DIRECT && written < |buf|
        invariant Shape(View()) && PointersOk(fileInode) && blkOffset < BLOCK && written <= |buf|
        invariant w == WriteBlocks(View(), fileInode, i, blkOffset, buf, written) && blocks[0] == old(blocks[0])
        decreases DIRECT - i
      {
        WriteTurn(View(), fileInode, i, blkOffset, buf, written);
        if fileInode.direct[i] == 0 {
          var blk := GetAvailBlkno();
          if blk < 0 {
            return -ENOSPC;
          }
          fileInode := fileInode.(direct := fileInode.direct[i := blk]);
        }
        var buffer := ReadData(fileInode.direct[i]);
        var toCopy := BLOCK - blkOffset;
        if toCopy > |buf| - written {
          toCopy := |buf| - written;
        }
        CopyInto(buffer, blkOffset, buf[written..written + toCopy]);
        WriteData(fileInode.direct[i], buffer);
        written := written + toCopy;
        blkOffset := 0;
        i := i + 1;
      }
      WriteEnds(View(), fileInode, i, blkOffset, buf, written);
      if offset + written > fileInode.size {
        fileInode := fileInode.(size := (offset + written) % WORD_LIMIT);
      }
      Writei(fileInode.ino, fileInode);
      return written;
    }

    // rufs_read; the bytes go to the front of buffer
    method Read(path: seq<Name>, buffer: array<Byte>, size: nat, offset: nat) returns (r: int)
      requires Valid() && Inv(View()) && size <= buffer.Length
      modifies buffer
      ensures var (bs, n) := RufsState.Read(View(), path, size, offset);
              |bs| <= size && r == n && buffer[..] == Overlay(old(buffer[..]), 0, bs)
    {
      hide Decoded, InodesOk, BlocksOk, EntriesOk, Lookup, ReadBlocks, DataAt, IsReg;
      var node := GetNodeByPath(path);
      if node == None {
        return -ENOENT;
      }
      var fileInode := node.value;
      if !IsReg(fileInode) {
        return -EISDIR;
      }
      if offset >= fileInode.size {
        return 0;
      }
      var count := size;
      if offset + size > fileInode.size {
        count := fileInode.size - offset;
      }
      r := CopyOut(fileInode, buffer, count, offset);
    }

    // rufs_getattr, as far as the mode goes
    method Getattr(path: seq<Name>) returns (mode: nat, r: int)
      requires Valid() && Sound(View())
      ensures (mode, r) == RufsState.Getattr(View(), path)
    {
      hide Decoded, Lookup;
      var node := GetNodeByPath(path);
      if node == None {
        return 0, -ENOENT;
      }
      return Mode(node.value), 0;
    }

    // The loop of rufs_read
    method CopyOut(fileInode: Inode, buffer: array<Byte>, count: nat, offset: nat) returns (r: nat)
      requires Valid() && PointersOk(fileInode) && count <= buffer.Length
      modifies buffer
      ensures var bs := ReadBlocks(View(), fileInode, offset / BLOCK, offset % BLOCK, count);
              r == |bs| && |bs| <= count && buffer[..] == Overlay(old(buffer[..]), 0, bs)
    {
      hide Decoded, ReadBlocks, Overlay, DataAt;
      ghost var f := View();
      ghost var was := buffer[..];
      ghost var bs := ReadBlocks(f, fileInode, offset / BLOCK, offset % BLOCK, count);
      var bytesRead: nat, i: nat, blkOffset: nat := 0, offset / BLOCK, offset % BLOCK;
      while i < DIRECT && bytesRead < count && fileInode.direct[i] != 0
        invariant View() == f && blkOffset < BLOCK && bytesRead <= count && bytesRead <= |bs|
        invariant bs == bs[..bytesRead] + ReadBlocks(f, fileInode, i, blkOffset, count - bytesRead)
        invariant buffer[..] == Overlay(was, 0, bs[..bytesRead])
        decreases DIRECT - i
      {
        var block := ReadData(fileInode.direct[i]);
        var toCopy := BLOCK - blkOffset;
        if toCopy > count - bytesRead {
          toCopy := count - bytesRead;
        }
        ReadStep(f, fileInode, i, blkOffset, count - bytesRead);
        var chunk := block[blkOffset..blkOffset + toCopy];
        CopyContinues(was, bs, bytesRead, chunk, ReadBlocks(f, fileInode, i + 1, 0, count - bytesRead - toCopy));
        CopyInto(buffer, bytesRead, chunk);
        bytesRead := bytesRead + toCopy;
        blkOffset := 0;
        i := i + 1;
      }
      ReadEnds(f, fileInode, i, blkOffset, count - bytesRead);
      assert bs[..bytesRead] == bs;
      return bytesRead;
    }
  }
}
