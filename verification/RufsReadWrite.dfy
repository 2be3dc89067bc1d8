// rufs_write and rufs_read as operations on the bytes of the file at a path.
module RufsReadWrite {
  import opened Bytes
  import opened RufsLayout
  import opened RufsState
  import opened RufsInvariants
  import opened RufsAccount
  import opened RufsNamespace
  import opened RufsMake
  import opened RufsFiles

  ghost predicate FileAt(f: Fs, path: seq<Name>)
    requires Sound(f)
  {
    Target(f, path).Some? && KindAt(f, Target(f, path).value) == Regular
  }

  // Nothing but the contents and length of file i differs.
  ghost predicate OnlyThisFile(f: Fs, f': Fs, i: nat)
    requires Consistent(f) && Consistent(f')
  {
    && OnlyFile(f, f', i) && SamePaths(f, f')
    && forall j: nat :: j != i ==> SizeAt(f', j) == SizeAt(f, j) && Content(f', j) == Content(f, j)
  }

  // ----- rufs_write -----

  // The first r = min(|buf|, 65536 - offset) bytes of buf are stored, on blocks the file has, and
  // the length covers them.
  ghost predicate WriteDone(f: Fs, f': Fs, i: nat, buf: seq<Byte>, offset: nat, r: nat)
    requires Shape(f) && Shape(f')
  {
    && r == (if offset < FILE_MAX then Min(FILE_MAX - offset, |buf|) else 0)
    && BytesStored(f, f', i, offset, buf[..r]) && Backed(f, f', i, offset, r)
    && SizeAt(f', i) == if offset + r > SizeAt(f, i) then (offset + r) % WORD_LIMIT else SizeAt(f, i)
  }

  // At any offset a write stores what fits below 65536: it never runs out of blocks.
  lemma WriteFile(f: Fs, path: seq<Name>, buf: seq<Byte>, offset: nat)
    requires Inv(f) && FileAt(f, path)
    ensures var (f', r) := Write(f, path, buf, offset);
            var i := Target(f, path).value;
            && Inv(f') && OnlyFile(f, f', i) && (forall j: nat :: j != i ==> SizeAt(f', j) == SizeAt(f, j))
            && f'.ibits == f.ibits && LostBlocks(f') == LostBlocks(f)
            && r >= 0 && WriteDone(f, f', i, buf, offset, r)
  {
    hide KindOf, KindAt, SlotAt, Entry, ByteAt, InodesOk, BlocksOk, EntriesOk, WriteBlocks, OnlyFile, SizeAt, Target,
      Held, Placed, Written, WriteDone, Charged, LostBlocks, Accounted;
    var i := Target(f, path).value;
    LookupFollowsBindings(f, path);
    KindOfInode(f, i);
    var x := f.inodes[i];
    HeldAtFirst(f, i);
    WriteLoop(f, i, x, offset / BLOCK, offset % BLOCK, buf, 0);
    var w := WriteBlocks(f, x, offset / BLOCK, offset % BLOCK, buf, 0);
    HeldShape(w.fs, i, w.inode);
    assert w.inode.ino == i;
    WrittenFully(f, Writei(w.fs, i, w.inode), i, offset / BLOCK, offset % BLOCK, buf, w);
    WrittenBack(f, i, buf, offset, w);
  }

  lemma WrittenFully(v: Fs, v2: Fs, i: nat, k: nat, off: nat, buf: seq<Byte>, w: Writing)
    requires Shape(v) && Shape(v2) && Written(v, v2, i, k, off, buf, 0, w)
    ensures !w.full
  {
    hide OnlyFile, BytesStored, Backed, LostBlocks;
  }

  lemma SameSlotsBytes(f: Fs, v: Fs, g: Fs, i: nat, a: nat, bs: seq<Byte>)
    requires Shape(f) && Shape(v) && Shape(g) && BytesStored(f, v, i, a, bs)
    requires forall l: nat :: SlotAt(g, i, l) == SlotAt(v, i, l)
    ensures BytesStored(f, g, i, a, bs)
  {
    hide SlotAt;
    assert forall q: nat :: ByteAt(g, i, q) == ByteAt(v, i, q);
  }

  lemma KeepsSlots(f: Fs, f': Fs, i: nat)
    requires Shape(f) && Shape(f') && OnlyFile(f, f', i)
    ensures forall l: nat :: SlotAt(f, i, l).Some? ==> SlotAt(f', i, l).Some?
  {
    hide SlotAt, KindAt, Entry;
  }

  lemma WrittenBack(f: Fs, i: nat, buf: seq<Byte>, offset: nat, w: Writing)
    requires Consistent(f) && KindAt(f, i) == Regular && Held(w.fs, i, w.inode)
    requires w.fs.inodes == f.inodes && w.fs.ibits == f.ibits && Filled(f.inodes[i], w.inode)
    requires Shape(w.fs) && Sound(Writei(w.fs, i, w.inode))
    requires Written(f, Writei(w.fs, i, w.inode), i, offset / BLOCK, offset % BLOCK, buf, 0, w)
    ensures var end := offset + w.done;
            var f' := Writei(w.fs, i, if end > w.inode.size then w.inode.(size := end % WORD_LIMIT) else w.inode);
            && Inv(f') && OnlyFile(f, f', i) && (forall j: nat :: j != i ==> SizeAt(f', j) == SizeAt(f, j))
            && LostBlocks(f') == LostBlocks(f) && WriteDone(f, f', i, buf, offset, w.done)
  {
    hide KindOf, KindAt, SlotAt, Entry, ByteAt, InodesOk, BlocksOk, EntriesOk, OnlyFile, Held, Placed, BytesStored,
      SizeAt, LostBlocks, Accounted;
    var v := Writei(w.fs, i, w.inode);
    var end := offset + w.done;
    var size := if end > w.inode.size then end % WORD_LIMIT else w.inode.size;
    HeldShape(w.fs, i, w.inode);
    HeldPointers(w.fs, i, w.inode);
    HeldInv(w.fs, i, w.inode);
    ResizeInv(v, i, w.inode, size);
    var f' := Writei(v, i, w.inode.(size := size));
    assert f' == Writei(w.fs, i, w.inode.(size := size));
    OnlyFileTwice(f, v, f', i);
    SizeIsInodeSize(f);
    SizeIsInodeSize(v);
    SameKindsAt(f, v, i);
    assert BLOCK * (offset / BLOCK) + offset % BLOCK == offset;
    assert buf[0..w.done] == buf[..w.done];
    SameSlotsBytes(f, v, f', i, offset, buf[..w.done]);
  }

  lemma SameKindsAt(f: Fs, v: Fs, i: nat)
    requires Shape(f) && Shape(v) && OnlyFile(f, v, i)
    ensures forall j: nat :: KindAt(v, j) == KindAt(f, j)
  {
    hide KindAt, SlotAt, Entry;
  }

  lemma HeldInv(f: Fs, i: nat, x: Inode)
    requires Held(f, i, x)
    ensures Inv(Writei(f, i, x)) && Writei(f, i, x).inodes[i] == x
  {
  }

  lemma HeldAtFirst(f: Fs, i: nat)
    requires Inv(f) && KindAt(f, i) == Regular
    ensures Held(f, i, f.inodes[i]) && Writei(f, i, f.inodes[i]) == f
  {
    hide InodesOk, BlocksOk, EntriesOk, Charged;
    KindOfInode(f, i);
    assert Writei(f, i, f.inodes[i]) == f;
  }

  // Whatever the path and the offset, a write keeps the invariant, the tree of paths and every
  // other file.
  lemma WriteKeepsTheRest(f: Fs, path: seq<Name>, buf: seq<Byte>, offset: nat)
    requires Inv(f)
    ensures var (f', r) := Write(f, path, buf, offset);
            && Inv(f') && SamePaths(f, f') && f'.ibits == f.ibits && LostBlocks(f') == LostBlocks(f)
            && (FileAt(f, path) ==> OnlyThisFile(f, f', Target(f, path).value))
            && (!FileAt(f, path) ==> f' == f && r == if Target(f, path).None? then -ENOENT else -EISDIR)
  {
    hide KindAt, SlotAt, Entry, InodesOk, BlocksOk, EntriesOk, SizeAt, Target, Child, ByteAt, WriteBlocks, Charged,
      LostBlocks;
    LookupFollowsBindings(f, path);
    if Target(f, path).Some? {
      KindOfInode(f, Target(f, path).value);
    }
    if FileAt(f, path) {
      WriteFile(f, path, buf, offset);
      var f' := Write(f, path, buf, offset).0;
      SameViewSamePaths(f, f');
      OtherContents(f, f', Target(f, path).value);
    } else {
      SameViewSamePaths(f, f);
    }
  }

  lemma OtherContents(f: Fs, f': Fs, i: nat)
    requires Shape(f) && Shape(f') && OnlyFile(f, f', i) && forall j: nat :: j != i ==> SizeAt(f', j) == SizeAt(f, j)
    ensures forall j: nat :: j != i ==> Content(f', j) == Content(f, j)
  {
    hide SlotAt, KindAt, Entry, SizeAt, Content;
    forall j: nat | j != i
      ensures Content(f', j) == Content(f, j)
    {
      assert forall q: nat :: ByteAt(f', j, q) == ByteAt(f, j, q);
    }
  }

  // c with bs written over it at off, extending it if need be.
  ghost function Splice(c: seq<Byte>, off: nat, bs: seq<Byte>): (r: seq<Byte>)
    requires off <= |c|
    ensures |r| == if off + |bs| > |c| then off + |bs| else |c|
    ensures forall q :: 0 <= q < |r| ==> r[q] == if off <= q < off + |bs| then bs[q - off] else c[q]
  {
    c[..off] + bs + if off + |bs| <= |c| then c[off + |bs|..] else []
  }

  // On a file with all its blocks and no gap before offset, the contents are spliced.
  lemma WriteSplices(f: Fs, path: seq<Name>, buf: seq<Byte>, offset: nat)
    requires Inv(f) && FileAt(f, path)
    requires Dense(f, Target(f, path).value) && offset <= SizeAt(f, Target(f, path).value)
    ensures var (f', r) := Write(f, path, buf, offset);
            var i := Target(f, path).value;
            && Inv(f') && SamePaths(f, f') && OnlyThisFile(f, f', i) && Dense(f', i)
            && r == Min(FILE_MAX - offset, |buf|)
            && Content(f', i) == Splice(Content(f, i), offset, buf[..r])
  {
    hide KindAt, SlotAt, Entry, ByteAt, InodesOk, BlocksOk, EntriesOk, SizeAt, Target, Write, OnlyFile, WriteDone,
      Content, Dense, OnlyThisFile, SamePaths, Splice, Charged, LostBlocks;
    WriteKeepsTheRest(f, path, buf, offset);
    WriteFile(f, path, buf, offset);
    var (f', r) := Write(f, path, buf, offset);
    DoneSplices(f, f', Target(f, path).value, buf, offset, r);
  }

  lemma DoneSplices(f: Fs, f': Fs, i: nat, buf: seq<Byte>, offset: nat, r: nat)
    requires Shape(f) && Shape(f') && Dense(f, i) && offset <= SizeAt(f, i) && OnlyFile(f, f', i)
    requires WriteDone(f, f', i, buf, offset, r)
    ensures r == Min(FILE_MAX - offset, |buf|) && Dense(f', i)
    ensures Content(f', i) == Splice(Content(f, i), offset, buf[..r])
  {
    hide KindAt, SlotAt, Entry, ByteAt, SizeAt, Splice, Content;
    KeepsSlots(f, f', i);
    forall k: nat | BLOCK * k < SizeAt(f', i)
      ensures SlotAt(f', i, k).Some?
    {
      if BLOCK * k >= SizeAt(f, i) {
        assert offset / BLOCK <= k;
      }
    }
  }

  // ----- rufs_read -----

  // How many of the n bytes from a on come before the first block that is not there.
  function Reach(blocks: set<nat>, a: nat, n: nat): (r: nat)
    ensures r <= n && (forall q :: a <= q < a + r ==> q / BLOCK in blocks)
    ensures r < n ==> (a + r) / BLOCK !in blocks
    decreases n
  {
    if n == 0 || a / BLOCK !in blocks then 0 else 1 + Reach(blocks, a + 1, n - 1)
  }

  lemma ReachIs(blocks: set<nat>, a: nat, n: nat, r: nat)
    requires r <= n && (forall q :: a <= q < a + r ==> q / BLOCK in blocks)
    requires r < n ==> (a + r) / BLOCK !in blocks
    ensures Reach(blocks, a, n) == r
  {
  }

  // What a reader gets of the n bytes from a on.
  ghost function Reached(f: Fs, i: nat, a: nat, n: nat): (bs: seq<Byte>)
    requires Shape(f)
  {
    var r := Reach(BlocksOf(f, i), a, n);
    if 0 < r && a + r <= FILE_MAX then AllBytes(f, i)[a..a + r] else []
  }

  // It gets the n bytes of a block that is there, and goes on behind them.
  lemma ReachGoesOn(f: Fs, i: nat, k: nat, off: nat, n: nat, m: nat)
    requires Shape(f) && k < DIRECT && SlotAt(f, i, k).Some? && n > 0 && off + n <= BLOCK
    ensures var a := BLOCK * k + off;
            Reached(f, i, a, n + m) == AllBytes(f, i)[a..a + n] + Reached(f, i, a + n, m)
  {
    hide SlotAt, AllBytes, BlocksOf, Reach;
    var a := BLOCK * k + off;
    var r := Reach(BlocksOf(f, i), a + n, m);
    assert a + n <= FILE_MAX;
    ReachJoins(BlocksOf(f, i), k, off, n, m);
    ReachBound(f, i, a + n, m);
    if r > 0 {
      SlicesJoin(AllBytes(f, i), a, a + n, a + n + r);
    }
  }

  lemma ReachJoins(blocks: set<nat>, k: nat, off: nat, n: nat, m: nat)
    requires k in blocks && off + n <= BLOCK
    ensures var a := BLOCK * k + off; Reach(blocks, a, n + m) == n + Reach(blocks, a + n, m)
  {
    hide Reach;
    var a := BLOCK * k + off;
    assert forall q :: a <= q < a + n ==> q / BLOCK == k;
    ReachIs(blocks, a, n + m, n + Reach(blocks, a + n, m));
  }

  lemma ReachBound(f: Fs, i: nat, a: nat, n: nat)
    requires Shape(f)
    ensures var r := Reach(BlocksOf(f, i), a, n); r > 0 ==> a + r <= FILE_MAX
  {
    hide Reach, SlotAt;
    var r := Reach(BlocksOf(f, i), a, n);
    if r > 0 {
      var last := a + (r - 1);
      assert last / BLOCK in BlocksOf(f, i);
    }
  }

  // The bytes of one block are the bytes of the file at its place.
  lemma BlockIsContent(f: Fs, i: nat, k: nat, off: nat, n: nat)
    requires Consistent(f) && KindAt(f, i) == Regular && k < DIRECT && SlotAt(f, i, k).Some? && off + n <= BLOCK
    ensures PointersOk(f.inodes[i]) && f.inodes[i].direct[k] != 0
    ensures DataAt(f, f.inodes[i].direct[k])[off..off + n] == AllBytes(f, i)[BLOCK * k + off..BLOCK * k + off + n]
  {
    hide KindAt, InodesOk, BlocksOk, EntriesOk;
    KindOfInode(f, i);
    var a := BLOCK * k + off;
    var head := DataAt(f, f.inodes[i].direct[k])[off..off + n];
    var slice := AllBytes(f, i)[a..a + n];
    forall q | 0 <= q < n
      ensures head[q] == slice[q]
    {
      assert (a + q) / BLOCK == k && (a + q) % BLOCK == off + q;
    }
    assert head == slice;
  }

  lemma MissingBlock(f: Fs, i: nat, k: nat)
    requires Consistent(f) && KindAt(f, i) == Regular
    ensures PointersOk(f.inodes[i]) && (SlotAt(f, i, k).Some? <==> k < DIRECT && f.inodes[i].direct[k] != 0)
  {
    hide InodesOk, BlocksOk, EntriesOk;
    KindOfInode(f, i);
  }

  // The loop copies the bytes of the file up to the first block that is not there.
  lemma {:induction false} ReadLoop(f: Fs, i: nat, k: nat, off: nat, size: nat)
    requires Consistent(f) && KindAt(f, i) == Regular && off < BLOCK
    ensures PointersOk(f.inodes[i])
    ensures ReadBlocks(f, f.inodes[i], k, off, size) == Reached(f, i, BLOCK * k + off, size)
    decreases DIRECT - k
  {
    hide KindAt, SlotAt, Consistent, AllBytes, ReadBlocks, DataAt, Reached, PointersOk, Fits;
    InvIsSound(f);
    MissingBlock(f, i, k);
    if size == 0 || SlotAt(f, i, k).None? {
      ReadNothing(f, f.inodes[i], k, off, size);
      NothingReached(f, i, k, off, size);
    } else {
      var n := Min(BLOCK - off, size);
      BlockIsContent(f, i, k, off, n);
      ReadStep(f, f.inodes[i], k, off, size);
      ReachGoesOn(f, i, k, off, n, size - n);
      if size == n {
        ReadNothing(f, f.inodes[i], k + 1, 0, 0);
        NothingReached(f, i, (BLOCK * k + off + n) / BLOCK, (off + n) % BLOCK, 0);
      } else {
        ReadLoop(f, i, k + 1, 0, size - n);
      }
    }
  }

  lemma NothingReached(f: Fs, i: nat, k: nat, off: nat, size: nat)
    requires Shape(f) && off < BLOCK && (size == 0 || SlotAt(f, i, k).None?)
    ensures Reached(f, i, BLOCK * k + off, size) == []
  {
    hide SlotAt;
    assert (BLOCK * k + off) / BLOCK == k;
  }

  lemma ReadStep(f: Fs, x: Inode, k: nat, off: nat, size: nat)
    requires |f.data| == MAX_DNUM && PointersOk(x) && off < BLOCK && k < DIRECT && size > 0 && x.direct[k] != 0
    ensures var n := Min(BLOCK - off, size);
            ReadBlocks(f, x, k, off, size) == DataAt(f, x.direct[k])[off..off + n]
                + ReadBlocks(f, x, k + 1, 0, size - n)
  {
  }

  lemma ReadNothing(f: Fs, x: Inode, k: nat, off: nat, size: nat)
    requires |f.data| == MAX_DNUM && PointersOk(x) && off < BLOCK
    requires size == 0 || k >= DIRECT || x.direct[k] == 0
    ensures ReadBlocks(f, x, k, off, size) == []
  {
  }

  lemma SlicesJoin(c: seq<Byte>, a: nat, b: nat, d: nat)
    requires a <= b <= d <= |c|
    ensures c[a..b] + c[b..d] == c[a..d]
  {
  }

  // The bytes that a read of this size at this offset gets.
  ghost function ReadAt(f: Fs, i: nat, size: nat, offset: nat): (bs: seq<Byte>)
    requires Shape(f)
  {
    if offset < SizeAt(f, i) then Reached(f, i, offset, Min(offset + size, SizeAt(f, i)) - offset) else []
  }

  // rufs_read returns the bytes from offset up to the end of the request or of the file, or up to
  // the first block that is not there.
  lemma ReadReaches(f: Fs, path: seq<Name>, size: nat, offset: nat)
    requires Consistent(f)
    ensures Read(f, path, size, offset) ==
              if Target(f, path).None? then ([], -ENOENT)
              else if !FileAt(f, path) then ([], -EISDIR)
              else var bs := ReadAt(f, Target(f, path).value, size, offset); (bs, |bs|)
  {
    hide KindOf, KindAt, Consistent, Target, Lookup, ReadBlocks, Reached, SizeAt, PointersOk, Fits;
    InvIsSound(f);
    LookupFollowsBindings(f, path);
    if Target(f, path).Some? {
      KindOfInode(f, Target(f, path).value);
    }
    if FileAt(f, path) {
      var i := Target(f, path).value;
      SizeIsInodeSize(f);
      OffsetSplits(offset);
      if offset < SizeAt(f, i) {
        ReadLoop(f, i, offset / BLOCK, offset % BLOCK, Min(offset + size, SizeAt(f, i)) - offset);
      }
    }
  }

  // A file that has all its blocks is read up to the end of the request or of the file.
  lemma ReadIsSlice(f: Fs, path: seq<Name>, size: nat, offset: nat)
    requires Consistent(f) && FileAt(f, path) && Dense(f, Target(f, path).value)
    ensures var (bs, r) := Read(f, path, size, offset);
            var c := Content(f, Target(f, path).value);
            r == |bs| && bs == if offset >= |c| then [] else c[offset..Min(offset + size, |c|)]
  {
    hide KindAt, SlotAt, ByteAt, Target, Consistent, SizeAt, Reach, Read, Content, AllBytes, BlocksOf;
    InvIsSound(f);
    ReadReaches(f, path, size, offset);
    var i := Target(f, path).value;
    var c := Content(f, i);
    if offset < |c| {
      var end := Min(offset + size, |c|);
      assert Reach(BlocksOf(f, i), offset, end - offset) == end - offset;
      assert AllBytes(f, i)[offset..end] == c[offset..end];
    }
  }

  lemma OffsetSplits(offset: nat)
    ensures BLOCK * (offset / BLOCK) + offset % BLOCK == offset && offset % BLOCK < BLOCK
  {
  }
}
