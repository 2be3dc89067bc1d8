// Files: rufs_write splices its buffer into the bytes of one file and touches nothing else, and
// rufs_read returns a slice of those bytes.
module RufsFiles {
  import opened Wrappers
  import opened Bytes
  import opened RufsLayout
  import opened RufsState
  import opened RufsInvariants
  import opened RufsAccount
  import opened RufsDirectories
  import opened RufsMake

  const FILE_MAX: nat := 65536

  // ----- the bytes of a file -----

  ghost function ByteAt(f: Fs, i: nat, q: nat): Byte
    requires Shape(f)
  {
    if SlotAt(f, i, q / BLOCK).Some? then SlotAt(f, i, q / BLOCK).value[q % BLOCK] else 0
  }

  ghost function Content(f: Fs, i: nat): (c: seq<Byte>)
    requires Shape(f)
    ensures |c| == SizeAt(f, i)
    ensures forall q :: 0 <= q < |c| ==> c[q] == ByteAt(f, i, q)
  {
    seq(SizeAt(f, i), q requires 0 <= q => ByteAt(f, i, q))
  }

  // All the bytes that the 16 blocks of a file have room for.
  ghost function AllBytes(f: Fs, i: nat): (b: seq<Byte>)
    requires Shape(f)
    ensures |b| == FILE_MAX && forall q :: 0 <= q < FILE_MAX ==> b[q] == ByteAt(f, i, q)
  {
    seq(FILE_MAX, q requires 0 <= q => ByteAt(f, i, q))
  }

  // The blocks that a file has.
  ghost function BlocksOf(f: Fs, i: nat): (s: set<nat>)
    requires Shape(f)
    ensures forall k: nat :: k in s <==> SlotAt(f, i, k).Some?
  {
    set k: nat | k < DIRECT && SlotAt(f, i, k).Some?
  }

  // The file has a block for every byte it claims to hold.
  ghost predicate Dense(f: Fs, i: nat)
    requires Shape(f)
  {
    SizeAt(f, i) <= FILE_MAX && forall k: nat :: BLOCK * k < SizeAt(f, i) ==> SlotAt(f, i, k).Some?
  }

  // ----- one block written -----

  // Only the blocks of file i may differ, and it has lost none.
  ghost predicate OnlyFile(f: Fs, f': Fs, i: nat)
    requires Shape(f) && Shape(f')
  {
    && SameKinds(f, f') && (forall d: nat, n: nat :: Entry(f', d, n) == Entry(f, d, n))
    && (forall j: nat, l: nat :: j != i ==> SlotAt(f', j, l) == SlotAt(f, j, l))
    && (forall l: nat :: SlotAt(f, i, l).Some? ==> SlotAt(f', i, l).Some?)
  }

  // File i has bs at offset a; its other bytes are as before.
  ghost predicate BytesStored(f: Fs, f': Fs, i: nat, a: nat, bs: seq<Byte>)
    requires Shape(f) && Shape(f')
  {
    forall q: nat :: ByteAt(f', i, q) == if a <= q < a + |bs| then bs[q - a] else ByteAt(f, i, q)
  }

  // Block l of a file holds one of the n bytes from a on.
  predicate Touched(l: nat, a: nat, n: nat) {
    n > 0 && BLOCK * l < a + n && a < BLOCK * (l + 1)
  }

  // The blocks that hold the n bytes from a on are there, and no other block is new.
  ghost predicate Backed(f: Fs, f': Fs, i: nat, a: nat, n: nat)
    requires Shape(f) && Shape(f')
  {
    forall l: nat :: SlotAt(f', i, l).Some? <==> SlotAt(f, i, l).Some? || Touched(l, a, n)
  }

  lemma PutFile(f: Fs, i: nat, k: nat, b: nat, block: Block, x: Inode)
    requires Consistent(f) && Repoints(f, i, k, b, x) && Spare(f, b, i, k)
    requires KindAt(f, i) == Regular && KindOf(x) == Regular && x.ino == i && x.size == f.inodes[i].size
    ensures var f' := Put(f, i, b, block, x);
            && Consistent(f') && OnlyFile(f, f', i)
            && (forall j: nat :: SizeAt(f', j) == SizeAt(f, j))
            && (forall l: nat :: SlotAt(f', i, l) == if l == k then Some(block) else SlotAt(f, i, l))
  {
    var f' := Put(f, i, b, block, x);
    PutShape(f, i, k, b, block, x);
    PutSlots(f, i, k, b, block, x);
    PutBlocksOk(f, i, k, b, block, x);
    assert forall j: nat :: j < MAX_INUM ==> f'.inodes[j] == if j == i then x else f.inodes[j];
    hide KindOf, KindAt, SlotAt, UsedEntry, BlocksOk, Put;
    assert forall d: nat, n: nat :: Entry(f', d, n) == Entry(f, d, n);
    SameEntriesOk(f, f');
    SizeIsInodeSize(f);
    SizeIsInodeSize(f');
  }

  lemma SizeIsInodeSize(f: Fs)
    requires Shape(f)
    ensures forall j: nat :: SizeAt(f, j) == if KindAt(f, j) == Regular then f.inodes[j].size else 0
  {
  }

  lemma SameEntriesOk(f: Fs, f': Fs)
    requires Shape(f) && Shape(f') && EntriesOk(f) && f'.ibits == f.ibits
    requires forall d: nat, n: nat :: Entry(f', d, n) == Entry(f, d, n)
    ensures EntriesOk(f')
  {
    hide Entry;
    assert forall d: nat, n: nat, i: nat :: Bound(f', d, n, i) == Bound(f, d, n, i);
    assert forall d: nat, n: nat, name: seq<Byte> :: Named(f', d, n, name) == Named(f, d, n, name);
  }

  // Bytes copied into one block land at their place in the file.
  lemma BlockStored(f: Fs, f': Fs, i: nat, k: nat, block: Block, off: nat, bs: seq<Byte>)
    requires Shape(f) && Shape(f') && off + |bs| <= BLOCK
    requires forall l: nat :: SlotAt(f', i, l) == if l == k then Some(Overlay(block, off, bs)) else SlotAt(f, i, l)
    requires SlotAt(f, i, k) == Some(block) || (SlotAt(f, i, k) == None && block == Zeros(BLOCK))
    ensures BytesStored(f, f', i, BLOCK * k + off, bs)
  {
    hide SlotAt, Overlay;
    forall q: nat
      ensures ByteAt(f', i, q) == if BLOCK * k + off <= q < BLOCK * k + off + |bs| then bs[q - (BLOCK * k + off)]
          else ByteAt(f, i, q)
    {
      if q / BLOCK == k {
        assert q == BLOCK * k + q % BLOCK;
      }
    }
  }

  // ----- the loop of rufs_write -----

  // The loop works on a copy x of inode i; the file system it is building is f with x in place.
  ghost predicate Placed(f: Fs, i: nat, x: Inode) {
    && Shape(f) && i < MAX_INUM && Fits(x) && Consistent(Writei(f, i, x)) && KindOf(x) == Regular && x.ino == i
  }

  ghost predicate Held(f: Fs, i: nat, x: Inode) {
    Placed(f, i, x) && Accounted(Writei(f, i, x))
  }

  lemma HeldPointers(f: Fs, i: nat, x: Inode)
    requires Placed(f, i, x)
    ensures PointersOk(x) && KindAt(Writei(f, i, x), i) == Regular && x.valid != 0
  {
    assert Writei(f, i, x).inodes[i] == x;
  }

  // A null slot of the file means a free block.
  lemma BlockForNull(f: Fs, i: nat, x: Inode, k: nat)
    requires Held(f, i, x) && k < DIRECT && x.direct[k] == 0
    ensures AllocBlk(f).1.Some?
  {
    hide Consistent, Charged;
    var v := Writei(f, i, x);
    assert v.inodes[i] == x;
    HeldPointers(f, i, x);
    var c: seq<Place> :| Charged(v, c);
    NullUncharged(v, c, i, k);
    BlockLeft(v, c, Place(i, k));
  }

  // The block for slot k: the slot's own, or a zero block nobody owns. There always is one.
  lemma BlockForHeld(f: Fs, i: nat, x: Inode, k: nat)
    requires Held(f, i, x) && k < DIRECT && PointersOk(x)
    ensures var (f1, p) := BlockFor(f, x, k);
            && p.Some? && Placed(f1, i, x) && Spare(Writei(f1, i, x), p.value - D_START_BLK, i, k)
            && SlotAt(Writei(f1, i, x), i, k) == SlotAt(Writei(f, i, x), i, k)
            && if x.direct[k] != 0 then
                 f1 == f && p == Some(x.direct[k]) && SlotAt(Writei(f, i, x), i, k) == Some(DataAt(f1, p.value))
               else
                 && !f.dbits[p.value - D_START_BLK] && f1 == f.(dbits := f.dbits[p.value - D_START_BLK := true])
                 && SlotAt(Writei(f, i, x), i, k) == None && DataAt(f1, p.value) == Zeros(BLOCK)
  {
    hide KindOf, InodesOk, EntriesOk, Charged;
    var v := Writei(f, i, x);
    assert v.inodes[i] == x;
    HeldPointers(f, i, x);
    if x.direct[k] != 0 {
      assert Owns(v, i, k, x.direct[k] - D_START_BLK);
    } else {
      BlockForNull(f, i, x, k);
      assert AllocBlk(v) == (Writei(AllocBlk(f).0, i, x), AllocBlk(f).1);
      AllocBlkInv(v);
    }
  }

  // The block is charged to the slot, if it was not already.
  lemma StepAccounted(v: Fs, v1: Fs, i: nat, k: nat, b: nat, block: Block, x: Inode)
    requires Inv(v) && Sound(v1) && Repoints(v1, i, k, b, x) && KindAt(v, i) != Absent && KindOf(x) != Absent
    requires v1.inodes == v.inodes && v1.data == v.data && v1.ibits == v.ibits
    requires if v.inodes[i].direct[k] == 0 then !v.dbits[b] && v1.dbits == v.dbits[b := true]
             else v1.dbits == v.dbits && Owns(v, i, k, b)
    ensures var v2 := Put(v1, i, b, block, x);
            Shape(v2) && Accounted(v2) && LostBlocks(v2) == LostBlocks(v)
  {
    var v2 := Put(v1, i, b, block, x);
    PutShape(v1, i, k, b, block, x);
    SameTables(v, v1);
    var c: seq<Place> :| Charged(v, c);
    if v.inodes[i].direct[k] == 0 {
      NullUncharged(v, c, i, k);
      assert forall a: nat :: !Owns(v, i, k, a);
      hide KindOf, KindAt, Owns, Put;
      ChargeBlock(v, v2, c, b, Place(i, k));
      LostAfter(v, v2, b, Place(i, k), true);
    } else {
      assert forall a: nat :: Owns(v, i, k, a) <==> a == b;
      hide KindOf, KindAt, Owns, Put;
      ChargesKept(v, v2, c);
      SameLost(v, v2);
    }
  }

  // One turn of the loop.
  lemma WriteStep(f: Fs, i: nat, x: Inode, k: nat, off: nat, bs: seq<Byte>)
    requires Held(f, i, x) && k < DIRECT && PointersOk(x) && off + |bs| <= BLOCK
    requires BlockFor(f, x, k).1.Some?
    ensures var (f1, p) := BlockFor(f, x, k);
            var x2 := x.(direct := x.direct[k := p.value]);
            var f2 := PutData(f1, p.value, Overlay(DataAt(f1, p.value), off, bs));
            var v, v2 := Writei(f, i, x), Writei(f2, i, x2);
            && Held(f2, i, x2) && OnlyFile(v, v2, i) && BytesStored(v, v2, i, BLOCK * k + off, bs)
            && (|bs| > 0 ==> Backed(v, v2, i, BLOCK * k + off, |bs|)) && f2.inodes == f.inodes && f2.ibits == f.ibits
            && LostBlocks(v2) == LostBlocks(v)
  {
    hide KindOf, KindAt, SlotAt, Entry, UsedEntry, InodesOk, BlocksOk, EntriesOk, BlockFor, Overlay, Charged, Owns,
      Accounted, LostBlocks;
    var (f1, p) := BlockFor(f, x, k);
    var x2 := x.(direct := x.direct[k := p.value]);
    var block := DataAt(f1, p.value);
    var f2 := PutData(f1, p.value, Overlay(block, off, bs));
    var v, v1, v2 := Writei(f, i, x), Writei(f1, i, x), Writei(f2, i, x2);
    BlockForHeld(f, i, x, k);
    HeldPointers(f, i, x);
    HeldPointers(f1, i, x);
    var b := p.value - D_START_BLK;
    assert v1.inodes == v.inodes && v1.data == v.data;
    assert v1.inodes[i] == x;
    assert v2 == Put(v1, i, b, Overlay(block, off, bs), x2) by {
      assert v1.inodes[i := x2] == f1.inodes[i := x2];
    }
    SameKindOf(x, x2);
    PutFile(v1, i, k, b, Overlay(block, off, bs), x2);
    SameTables(v, v1);
    BlockStored(v, v2, i, k, block, off, bs);
    if x.direct[k] != 0 {
      OwnSlot(v, i, k, b);
    }
    StepAccounted(v, v1, i, k, b, Overlay(block, off, bs), x2);
  }

  lemma OwnSlot(v: Fs, i: nat, k: nat, b: nat)
    requires Shape(v) && KindAt(v, i) != Absent
    requires k < DIRECT && b < MAX_DNUM && v.inodes[i].direct[k] == D_START_BLK + b
    ensures Owns(v, i, k, b)
  {
  }

  lemma SameKindOf(x: Inode, x2: Inode)
    requires Fits(x) && |x2.direct| == DIRECT && x2 == x.(direct := x2.direct, size := x2.size) && x2.size < WORD_LIMIT
    requires forall k :: 0 <= k < DIRECT ==> x2.direct[k] < WORD_LIMIT
    ensures Fits(x2) && KindOf(x2) == KindOf(x)
  {
  }

  lemma BytesStoredTwice(f: Fs, f1: Fs, f2: Fs, i: nat, a: nat, bs: seq<Byte>, cs: seq<Byte>, b: nat)
    requires Shape(f) && Shape(f1) && Shape(f2)
    requires BytesStored(f, f1, i, a, bs) && BytesStored(f1, f2, i, b, cs) && (b == a + |bs| || cs == [])
    ensures BytesStored(f, f2, i, a, bs + cs)
  {
    hide ByteAt;
  }

  lemma OnlyFileTwice(f: Fs, f1: Fs, f2: Fs, i: nat)
    requires Shape(f) && Shape(f1) && Shape(f2) && OnlyFile(f, f1, i) && OnlyFile(f1, f2, i)
    ensures OnlyFile(f, f2, i)
  {
    hide KindAt, SlotAt, Entry;
  }

  // x2 is x with some null pointers filled in.
  ghost predicate Filled(x: Inode, x2: Inode) {
    && |x.direct| == DIRECT && |x2.direct| == DIRECT && x2 == x.(direct := x2.direct)
    && forall l :: 0 <= l < DIRECT && x.direct[l] != 0 ==> x2.direct[l] == x.direct[l]
  }


  // What the loop from slot k on has done when it ends as w: all that fits of what is left of the
  // buffer is stored.
  ghost predicate Written(v: Fs, v2: Fs, i: nat, k: nat, off: nat, buf: seq<Byte>, done: nat, w: Writing)
    requires Shape(v) && Shape(v2)
  {
    && done <= w.done <= |buf| && !w.full && LostBlocks(v2) == LostBlocks(v)
    && OnlyFile(v, v2, i) && BytesStored(v, v2, i, BLOCK * k + off, buf[done..w.done])
    && Backed(v, v2, i, BLOCK * k + off, w.done - done)
    && w.done - done == if k < DIRECT && off < BLOCK then Min(FILE_MAX - (BLOCK * k + off), |buf| - done) else 0
  }

  // One turn and then the rest of the loop.
  lemma WrittenThen(v: Fs, v1: Fs, v2: Fs, i: nat, k: nat, off: nat, buf: seq<Byte>, done: nat, n: nat, w: Writing)
    requires Shape(v) && Shape(v1) && Shape(v2)
    requires k < DIRECT && off < BLOCK && done < |buf| && n == Min(BLOCK - off, |buf| - done)
    requires OnlyFile(v, v1, i) && BytesStored(v, v1, i, BLOCK * k + off, buf[done..done + n])
    requires Backed(v, v1, i, BLOCK * k + off, n)
    requires LostBlocks(v1) == LostBlocks(v) && Written(v1, v2, i, k + 1, 0, buf, done + n, w)
    ensures Written(v, v2, i, k, off, buf, done, w)
  {
    hide LostBlocks, KindAt, SlotAt, Entry, ByteAt, BytesStored;
    OnlyFileTwice(v, v1, v2, i);
    BytesStoredTwice(v, v1, v2, i, BLOCK * k + off, buf[done..done + n], buf[done + n..w.done], BLOCK * (k + 1));
    assert buf[done..done + n] + buf[done + n..w.done] == buf[done..w.done];
  }

  lemma {:induction false} WriteLoop(f: Fs, i: nat, x: Inode, k: nat, off: nat, buf: seq<Byte>, done: nat)
    requires Held(f, i, x) && PointersOk(x) && off < BLOCK && done <= |buf|
    ensures var w := WriteBlocks(f, x, k, off, buf, done);
            && Held(w.fs, i, w.inode) && w.fs.inodes == f.inodes && w.fs.ibits == f.ibits && Filled(x, w.inode)
            && Written(Writei(f, i, x), Writei(w.fs, i, w.inode), i, k, off, buf, done, w)
    decreases DIRECT - k
  {
    hide KindOf, KindAt, SlotAt, Entry, ByteAt, BlockFor, Overlay, Held, Placed, OnlyFile, BytesStored, Written,
      Consistent, LostBlocks;
    HeldShape(f, i, x);
    if k < DIRECT && done < |buf| {
      BlockForHeld(f, i, x, k);
      var (f1, p) := BlockFor(f, x, k);
      var n := Min(BLOCK - off, |buf| - done);
      var x2 := x.(direct := x.direct[k := p.value]);
      var f2 := PutData(f1, p.value, Overlay(DataAt(f1, p.value), off, buf[done..done + n]));
      WriteStep(f, i, x, k, off, buf[done..done + n]);
      HeldShape(f2, i, x2);
      HeldPointers(f2, i, x2);
      WriteLoop(f2, i, x2, k + 1, 0, buf, done + n);
      var w := WriteBlocks(f2, x2, k + 1, 0, buf, done + n);
      HeldShape(w.fs, i, w.inode);
      assert Filled(x, x2);
      WrittenThen(Writei(f, i, x), Writei(f2, i, x2), Writei(w.fs, i, w.inode), i, k, off, buf, done, n, w);
    } else {
      NothingWritten(Writei(f, i, x), i, k, off, buf, Writing(f, x, done, false));
    }
  }

  lemma HeldShape(f: Fs, i: nat, x: Inode)
    requires Held(f, i, x)
    ensures Shape(f) && Fits(x) && i < MAX_INUM && Sound(Writei(f, i, x)) && Placed(f, i, x)
  {
  }

  lemma NothingWritten(v: Fs, i: nat, k: nat, off: nat, buf: seq<Byte>, w: Writing)
    requires Shape(v) && w.done <= |buf| && off < BLOCK && !w.full && (k >= DIRECT || w.done == |buf|)
    ensures Written(v, v, i, k, off, buf, w.done, w)
  {
    hide KindAt, SlotAt, Entry, ByteAt;
  }

  // ----- what becomes of the inode -----

  // The inode is written back with the new length.
  lemma ResizeInv(v: Fs, i: nat, x: Inode, size: nat)
    requires Inv(v) && i < MAX_INUM && v.inodes[i] == x && KindAt(v, i) == Regular && size < WORD_LIMIT
    ensures var f := Writei(v, i, x.(size := size));
            && Inv(f) && LostBlocks(f) == LostBlocks(v) && OnlyFile(v, f, i)
            && (forall j: nat :: SizeAt(f, j) == if j == i then size else SizeAt(v, j))
            && (forall l: nat :: SlotAt(f, i, l) == SlotAt(v, i, l))
  {
    var x2 := x.(size := size);
    var f := Writei(v, i, x2);
    ResizeTables(v, i, size);
    assert forall j: nat :: j < MAX_INUM ==> f.inodes[j] == if j == i then x2 else v.inodes[j];
    hide KindOf, KindAt, SlotAt, UsedEntry, Owns;
    assert forall d: nat, n: nat :: Entry(f, d, n) == Entry(v, d, n);
    SameEntriesOk(v, f);
    SizeIsInodeSize(v);
    SizeIsInodeSize(f);
    var c: seq<Place> :| Charged(v, c);
    ChargesKept(v, f, c);
    SameLost(v, f);
  }

  lemma ResizeTables(v: Fs, i: nat, size: nat)
    requires Sound(v) && i < MAX_INUM && KindAt(v, i) == Regular && size < WORD_LIMIT
    ensures var f := Writei(v, i, v.inodes[i].(size := size));
            && Sound(f) && (forall j: nat :: KindAt(f, j) == KindAt(v, j))
            && (forall j: nat, l: nat :: SlotAt(f, j, l) == SlotAt(v, j, l))
            && (forall j: nat, l: nat, b: nat :: Owns(f, j, l, b) == Owns(v, j, l, b))
  {
    hide KindOf;
    var x := v.inodes[i];
    var x2 := x.(size := size);
    var f := Writei(v, i, x2);
    SameKindOf(x, x2);
    assert forall j: nat :: j < MAX_INUM ==> f.inodes[j] == if j == i then x2 else v.inodes[j];
    KindInUse(v);
  }
}
