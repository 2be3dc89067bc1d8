// The on-disk structures of RUFS: the inode and the directory entry, and how they lie in
// a block byte for byte (little-endian, struct stat of 144 bytes with st_mode at 24).
module RufsLayout {
  import opened Bytes
  import opened Bitmaps

  const BLOCK: nat := 4096
  const INODE_SIZE: nat := 256
  const INODES_PER_BLOCK: nat := 16
  const DIRENT_SIZE: nat := 214
  const DIRENTS_PER_BLOCK: nat := 19
  const NAME_MAX: nat := 208
  const DIRECT: nat := 16
  const STAT_SIZE: nat := 144
  const STAT_MODE: nat := 24
  const IFDIR: nat := 0x4000
  const IFREG: nat := 0x8000

  type Block = b: seq<Byte> | |b| == BLOCK witness Zeros(BLOCK)

  function Half(m: seq<Byte>, a: nat): (h: nat)
    requires a + 2 <= |m|
    ensures h < 0x1_0000
  {
    var b0: int, b1: int := m[a], m[a + 1];
    b0 + 0x100 * b1
  }

  function HalfBytes(h: nat): (r: seq<Byte>)
    requires h < 0x1_0000
    ensures |r| == 2
  {
    [h % 0x100, h / 0x100]
  }

  // 16-bit values lie on disk lowest byte first.
  lemma HalfBit(m: seq<Byte>, a: nat, k: nat)
    requires a + 2 <= |m| && k < 16
    ensures Bit(Half(m, a), k) == Bit(m[a + k / 8], k % 8)
  {
    hide Bit, Pow2;
    ByteWidth(0);
    var b0: nat, b1: nat := m[a], m[a + 1];
    BitOfSum(b0, b1, 8, k);
  }

  function WordsBytes(ws: seq<nat>): (r: seq<Byte>)
    requires forall i :: 0 <= i < |ws| ==> ws[i] < WORD_LIMIT
    ensures |r| == 4 * |ws|
  {
    seq(4 * |ws|, i requires 0 <= i < 4 * |ws| => WordBytes(ws[i / 4])[i % 4])
  }

  function Words(m: seq<Byte>, a: nat, n: nat): (r: seq<nat>)
    requires a + 4 * n <= |m|
    ensures |r| == n
    ensures forall i :: 0 <= i < n ==> r[i] < WORD_LIMIT
  {
    seq(n, i requires 0 <= i < n => Word(m, a + 4 * i))
  }

  // ----- struct inode -----

  datatype Inode = Inode(ino: nat, valid: nat, size: nat, kind: nat, link: nat, direct: seq<nat>, indirect: seq<nat>,
      stat: seq<Byte>)

  // The values fit their fields.
  ghost predicate Fits(x: Inode) {
    && x.ino < 0x1_0000 && x.valid < 0x1_0000 && x.size < WORD_LIMIT && x.kind < WORD_LIMIT && x.link < WORD_LIMIT
    && |x.direct| == DIRECT && (forall i :: 0 <= i < DIRECT ==> x.direct[i] < WORD_LIMIT)
    && |x.indirect| == 8 && (forall i :: 0 <= i < 8 ==> x.indirect[i] < WORD_LIMIT)
    && |x.stat| == STAT_SIZE
  }

  function DecodeInode(bs: seq<Byte>): (x: Inode)
    requires |bs| == INODE_SIZE
    ensures Fits(x)
  {
    Inode(Half(bs, 0), Half(bs, 2), Word(bs, 4), Word(bs, 8), Word(bs, 12), Words(bs, 16, DIRECT), Words(bs, 80, 8),
        bs[112..])
  }

  function EncodeInode(x: Inode): (bs: seq<Byte>)
    requires Fits(x)
    ensures |bs| == INODE_SIZE
  {
    HalfBytes(x.ino) + HalfBytes(x.valid) + WordBytes(x.size) + WordBytes(x.kind) + WordBytes(x.link)
    + WordsBytes(x.direct) + WordsBytes(x.indirect) + x.stat
  }

  // The i-th word of a run of words stored at offset a.
  lemma StoredWords(bs: seq<Byte>, a: nat, ws: seq<nat>)
    requires forall i :: 0 <= i < |ws| ==> ws[i] < WORD_LIMIT
    requires a + 4 * |ws| <= |bs| && bs[a..a + 4 * |ws|] == WordsBytes(ws)
    ensures Words(bs, a, |ws|) == ws
  {
    hide Word, WordBytes, WordsBytes;
    forall i | 0 <= i < |ws|
      ensures Word(bs, a + 4 * i) == ws[i]
    {
      WordOfRun(ws, i);
      SliceOfSlice(bs, a, a + 4 * |ws|, 4 * i, 4 * i + 4);
      StoredWord(bs, a + 4 * i, ws[i]);
    }
  }

  lemma SliceOfSlice(bs: seq<Byte>, a: nat, b: nat, c: nat, d: nat)
    requires a <= b <= |bs| && c <= d <= b - a
    ensures bs[a..b][c..d] == bs[a + c..a + d]
  {
    var l, r := bs[a..b][c..d], bs[a + c..a + d];
    forall i | 0 <= i < |l|
      ensures l[i] == r[i]
    {
      assert l[i] == bs[a..b][c + i] == bs[a + c + i];
    }
  }

  lemma WordOfRun(ws: seq<nat>, i: nat)
    requires forall j :: 0 <= j < |ws| ==> ws[j] < WORD_LIMIT
    requires i < |ws|
    ensures WordsBytes(ws)[4 * i..4 * i + 4] == WordBytes(ws[i])
  {
    hide WordBytes;
    var w := WordsBytes(ws)[4 * i..4 * i + 4];
    forall j | 0 <= j < |w|
      ensures w[j] == WordBytes(ws[i])[j]
    {
      assert (4 * i + j) / 4 == i && (4 * i + j) % 4 == j;
    }
  }

  lemma StoredWord(bs: seq<Byte>, a: nat, w: nat)
    requires w < WORD_LIMIT && a + 4 <= |bs| && bs[a..a + 4] == WordBytes(w)
    ensures Word(bs, a) == w
  {
    var s := bs[a..a + 4];
    assert s[0] == bs[a] && s[1] == bs[a + 1] && s[2] == bs[a + 2] && s[3] == bs[a + 3];
    WordOfWordBytes(w);
  }

  lemma StoredHalf(bs: seq<Byte>, a: nat, h: nat)
    requires h < 0x1_0000 && a + 2 <= |bs| && bs[a..a + 2] == HalfBytes(h)
    ensures Half(bs, a) == h
  {
    var s := bs[a..a + 2];
    assert s[0] == bs[a] && s[1] == bs[a + 1];
  }

  // An inode copied out to disk and back in is the same inode.
  lemma DecodeEncodeInode(x: Inode)
    requires Fits(x)
    ensures DecodeInode(EncodeInode(x)) == x
  {
    hide WordBytes, WordsBytes, HalfBytes, Word, Words, Half;
    var bs := EncodeInode(x);
    assert bs[0..2] == HalfBytes(x.ino);
    assert bs[2..4] == HalfBytes(x.valid);
    assert bs[4..8] == WordBytes(x.size);
    assert bs[8..12] == WordBytes(x.kind);
    assert bs[12..16] == WordBytes(x.link);
    assert bs[16..16 + 4 * DIRECT] == WordsBytes(x.direct);
    assert bs[80..80 + 4 * 8] == WordsBytes(x.indirect);
    assert bs[112..] == x.stat;
    StoredHalf(bs, 0, x.ino);
    StoredHalf(bs, 2, x.valid);
    StoredWord(bs, 4, x.size);
    StoredWord(bs, 8, x.kind);
    StoredWord(bs, 12, x.link);
    StoredWords(bs, 16, x.direct);
    StoredWords(bs, 80, x.indirect);
  }

  // Where each field lies: storing a value at that offset replaces the field alone.
  lemma InodeOffsets(x: Inode, h: nat, w: nat, i: nat)
    requires Fits(x) && h < 0x1_0000 && w < WORD_LIMIT && i < DIRECT
    ensures var bs := EncodeInode(x);
            && DecodeInode(Overlay(bs, 0, HalfBytes(h))) == x.(ino := h)
            && DecodeInode(Overlay(bs, 2, HalfBytes(h))) == x.(valid := h)
            && DecodeInode(Overlay(bs, 4, WordBytes(w))) == x.(size := w)
            && DecodeInode(Overlay(bs, 8, WordBytes(w))) == x.(kind := w)
            && DecodeInode(Overlay(bs, 12, WordBytes(w))) == x.(link := w)
            && DecodeInode(Overlay(bs, 16 + 4 * i, WordBytes(w))) == x.(direct := x.direct[i := w])
  {
    hide WordBytes, HalfBytes, EncodeInode;
    var bs := EncodeInode(x);
    DecodeEncodeInode(x);
    InodeHalf(bs, 0, h);
    InodeHalf(bs, 2, h);
    InodeWord(bs, 4, w);
    InodeWord(bs, 8, w);
    InodeWord(bs, 12, w);
    InodeWord(bs, 16 + 4 * i, w);
  }

  lemma InodeHalf(bs: seq<Byte>, a: nat, h: nat)
    requires |bs| == INODE_SIZE && h < 0x1_0000 && (a == 0 || a == 2)
    ensures var x, y := DecodeInode(bs), DecodeInode(Overlay(bs, a, HalfBytes(h)));
            y == if a == 0 then x.(ino := h) else x.(valid := h)
  {
  }

  lemma InodeWord(bs: seq<Byte>, a: nat, w: nat)
    requires |bs| == INODE_SIZE && w < WORD_LIMIT && a % 4 == 0 && 4 <= a < 16 + 4 * DIRECT
    ensures var x, y := DecodeInode(bs), DecodeInode(Overlay(bs, a, WordBytes(w)));
            y == if a == 4 then x.(size := w) else if a == 8 then x.(kind := w) else if a == 12 then x.(link := w)
                 else x.(direct := x.direct[(a - 16) / 4 := w])
  {
    hide Word, WordBytes, Half;
    var cs := Overlay(bs, a, WordBytes(w));
    WordAfterStore(bs, a, w);
    assert cs[0] == bs[0] && cs[1] == bs[1] && cs[2] == bs[2] && cs[3] == bs[3];
    HalfOfEqualBytes(bs, cs, 0);
    HalfOfEqualBytes(bs, cs, 2);
    assert cs[112..] == bs[112..];
    assert Words(cs, 80, 8) == Words(bs, 80, 8);
    assert Words(cs, 16, DIRECT) ==
      if a < 16 then Words(bs, 16, DIRECT) else Words(bs, 16, DIRECT)[(a - 16) / 4 := w];
  }

  lemma HalfOfEqualBytes(m: seq<Byte>, m': seq<Byte>, a: nat)
    requires a + 2 <= |m| && a + 2 <= |m'| && m[a] == m'[a] && m[a + 1] == m'[a + 1]
    ensures Half(m, a) == Half(m', a)
  {
  }

  // st_mode, and the S_ISDIR and S_ISREG tests on it
  function Mode(x: Inode): nat
    requires |x.stat| == STAT_SIZE
  {
    Word(x.stat, STAT_MODE)
  }

  // st_mode is the word at byte 136 of an inode.
  lemma ModeOffset(bs: seq<Byte>)
    requires |bs| == INODE_SIZE
    ensures Mode(DecodeInode(bs)) == Word(bs, 136)
  {
    hide Half, Words;
    assert bs[112..][24] == bs[136] && bs[112..][25] == bs[137] && bs[112..][26] == bs[138] && bs[112..][27] == bs[139];
  }

  predicate IsDir(x: Inode)
    requires |x.stat| == STAT_SIZE
  {
    Mode(x) / 0x1000 % 0x10 == 4
  }

  predicate IsReg(x: Inode)
    requires |x.stat| == STAT_SIZE
  {
    Mode(x) / 0x1000 % 0x10 == 8
  }

  // The inode mkdir and create fill in: zeroed, then the listed fields.
  function NewInode(ino: nat, kind: nat, link: nat, mode: nat, block: nat): (x: Inode)
    requires ino < 0x1_0000 && kind < WORD_LIMIT && link < WORD_LIMIT && mode < WORD_LIMIT && block < WORD_LIMIT
    ensures Fits(x)
  {
    Inode(ino, 1, 0, kind, link, seq(DIRECT, i => if i == 0 then block else 0), seq(8, _ => 0),
          Overlay(Zeros(STAT_SIZE), STAT_MODE, WordBytes(mode)))
  }

  // kind | mode on 32-bit values
  function WithMode(kind: nat, mode: nat): (r: nat)
    requires kind < WORD_LIMIT && mode < WORD_LIMIT
    ensures r < WORD_LIMIT
  {
    WordWidth();
    Or(kind, mode, 32)
  }

  lemma WordWidth()
    ensures Pow2(32) == WORD_LIMIT && Pow2(14) == IFDIR && Pow2(15) == IFREG
  {
    assert Pow2(5) == 0x20;
    assert Pow2(10) == 0x400;
    assert Pow2(15) == 0x8000;
    assert Pow2(20) == 0x10_0000;
    assert Pow2(25) == 0x200_0000;
    assert Pow2(30) == 0x4000_0000;
  }

  // The bits of a 32-bit value.
  function BitSet(w: nat): set<nat> {
    set k: nat | k < 32 && Bit(w, k)
  }

  // Bit by bit, the mode of a new inode is the type or the argument.
  lemma BitsOfWithMode(kind: nat, mode: nat)
    requires kind < WORD_LIMIT && mode < WORD_LIMIT
    ensures BitSet(WithMode(kind, mode)) == BitSet(kind) + BitSet(mode)
  {
    hide Bit, Or, Pow2;
    WordWidth();
    forall k: nat | k < 32
      ensures Bit(WithMode(kind, mode), k) == (Bit(kind, k) || Bit(mode, k))
    {
      BitOfOr(kind, mode, 32, k);
    }
  }

  // What mkdir and create write into a new inode, field by field.
  ghost predicate IsNew(x: Inode, ino: nat, kind: nat, link: nat, mode: nat)
    requires |x.stat| == STAT_SIZE
  {
    && x.ino == ino && x.valid == 1 && x.size == 0 && x.kind == kind && x.link == link
    && BitSet(Mode(x)) == BitSet(kind) + BitSet(mode)
  }

  lemma NewInodeIsNew(ino: nat, kind: nat, link: nat, mode: nat, block: nat)
    requires ino < 0x1_0000 && kind < WORD_LIMIT && link < WORD_LIMIT && mode < WORD_LIMIT && block < WORD_LIMIT
    ensures IsNew(NewInode(ino, kind, link, WithMode(kind, mode), block), ino, kind, link, mode)
  {
    hide WithMode, BitSet, WordBytes;
    BitsOfWithMode(kind, mode);
    WordAfterStore(Zeros(STAT_SIZE), STAT_MODE, WithMode(kind, mode));
  }

  // The type bits of mode are among those of kind, a directory or a regular file.
  predicate TypeWithin(kind: nat, mode: nat) {
    mode / 0x1000 % 0x10 == 0 || mode / 0x1000 % 0x10 == kind / 0x1000 % 0x10
  }

  lemma TypeField(mode: nat)
    ensures mode / 16 / 16 / 16 == mode / 0x1000
  {
  }

  lemma LowBits(t: nat)
    ensures Bit(t, 2) == (t / 4 % 2 == 1) && Bit(t, 3) == (t / 8 % 2 == 1)
  {
    assert t / 2 / 2 == t / 4 && t / 4 / 2 == t / 8;
    assert Bit(t, 2) == Bit(t / 2, 1) == Bit(t / 2 / 2, 0);
    assert Bit(t, 3) == Bit(t / 2, 2) == Bit(t / 2 / 2, 1) == Bit(t / 2 / 2 / 2, 0);
  }

  lemma TypeBits(mode: nat)
    ensures Bit(mode, 14) == (mode / 0x1000 / 4 % 2 == 1) && Bit(mode, 15) == (mode / 0x1000 / 8 % 2 == 1)
  {
    hide Bit;
    TypeField(mode);
    LowBits(mode / 0x1000);
    FourBitsOn(mode, 10);
    FourBitsOn(mode / 16, 6);
    FourBitsOn(mode / 16 / 16, 2);
    FourBitsOn(mode, 11);
    FourBitsOn(mode / 16, 7);
    FourBitsOn(mode / 16 / 16, 3);
  }

  lemma TypeOfMode(mode: nat)
    requires mode < WORD_LIMIT
    ensures WithMode(IFDIR, mode) / 0x1000 % 0x10 == 4 <==> TypeWithin(IFDIR, mode)
    ensures WithMode(IFREG, mode) / 0x1000 % 0x10 == 8 <==> TypeWithin(IFREG, mode)
    ensures WithMode(IFDIR, mode) / 0x1000 % 0x10 != 8 && WithMode(IFREG, mode) / 0x1000 % 0x10 != 4
  {
    hide Or, Pow2, Bit;
    WordWidth();
    OrOfBit(14, mode, 32);
    OrOfBit(15, mode, 32);
    TypeBits(mode);
    OneTypeBit(mode, 4);
    OneTypeBit(mode, 8);
  }

  // 040000 | 0755 is 040755.
  lemma RootMode()
    ensures WithMode(IFDIR, 0x1ED) == 0x41ED
  {
    hide Or, Pow2, Bit;
    WordWidth();
    OrOfBit(14, 0x1ED, 32);
    TypeBits(0x1ED);
  }

  lemma OneTypeBit(mode: nat, bit: nat)
    requires bit == 4 || bit == 8
    ensures var r := if mode / 0x1000 / bit % 2 == 1 then mode else mode + 0x1000 * bit;
            && (r / 0x1000 % 0x10 == bit <==> mode / 0x1000 % 0x10 == 0 || mode / 0x1000 % 0x10 == bit)
            && r / 0x1000 % 0x10 != 12 - bit
  {
    var t := mode / 0x1000;
    assert (mode + 0x1000 * bit) / 0x1000 == t + bit by {
      if bit == 4 {
        assert (mode + 0x4000) / 0x1000 == t + 4;
      } else {
        assert (mode + 0x8000) / 0x1000 == t + 8;
      }
    }
    FieldBit(t, bit);
  }

  lemma FieldBit(t: nat, bit: nat)
    requires bit == 4 || bit == 8
    ensures var n := (if t / bit % 2 == 1 then t else t + bit) % 0x10;
            n != 12 - bit && (n == bit <==> t % 0x10 == 0 || t % 0x10 == bit)
  {
    var n := t % 0x10;
    if bit == 4 {
      ThirdBit(t / 0x10, n);
      SixteenthsAfter(t, 4);
      assert t / 4 % 2 == 1 <==> 4 <= n < 8 || 12 <= n;
    } else {
      FourthBit(t / 0x10, n);
      SixteenthsAfter(t, 8);
      assert t / 8 % 2 == 1 <==> 8 <= n;
    }
  }

  lemma ThirdBit(h: nat, n: nat)
    requires n < 0x10
    ensures (0x10 * h + n) / 4 % 2 == 1 <==> 4 <= n < 8 || 12 <= n
  {
    var q := if n < 4 then 0 else if n < 8 then 1 else if n < 12 then 2 else 3;
    assert 0x10 * h + n == 4 * (4 * h + q) + (n - 4 * q);
    assert (0x10 * h + n) / 4 == 4 * h + q;
  }

  lemma FourthBit(h: nat, n: nat)
    requires n < 0x10
    ensures (0x10 * h + n) / 8 % 2 == 1 <==> 8 <= n
  {
    var q := if n < 8 then 0 else 1;
    assert 0x10 * h + n == 8 * (2 * h + q) + (n - 8 * q);
    assert (0x10 * h + n) / 8 == 2 * h + q;
  }

  lemma SixteenthsAfter(t: nat, a: nat)
    requires a < 0x10
    ensures (t + a) % 0x10 == if t % 0x10 + a < 0x10 then t % 0x10 + a else t % 0x10 + a - 0x10
  {
    var h, n := t / 0x10, t % 0x10;
    if n + a < 0x10 {
      assert t + a == 0x10 * h + (n + a);
    } else {
      assert t + a == 0x10 * (h + 1) + (n + a - 0x10);
    }
  }

  // Whatever the permission bits, the new inode has the file type that S_ISDIR and S_ISREG test
  // exactly when mode brings no other type bit along.
  lemma NewInodeKind(ino: nat, kind: nat, link: nat, mode: nat, block: nat)
    requires ino < 0x1_0000 && kind < WORD_LIMIT && link < WORD_LIMIT && mode < WORD_LIMIT && block < WORD_LIMIT
    ensures IsDir(NewInode(ino, kind, link, WithMode(IFDIR, mode), block)) <==> TypeWithin(IFDIR, mode)
    ensures IsReg(NewInode(ino, kind, link, WithMode(IFREG, mode), block)) <==> TypeWithin(IFREG, mode)
    ensures !IsDir(NewInode(ino, kind, link, WithMode(IFREG, mode), block))
    ensures !IsReg(NewInode(ino, kind, link, WithMode(IFDIR, mode), block))
  {
    hide WithMode, TypeWithin, WordBytes;
    TypeOfMode(mode);
    WordAfterStore(Zeros(STAT_SIZE), STAT_MODE, WithMode(IFDIR, mode));
    WordAfterStore(Zeros(STAT_SIZE), STAT_MODE, WithMode(IFREG, mode));
  }

  // ----- struct dirent -----

  datatype Dirent = Dirent(ino: nat, valid: nat, name: seq<Byte>, len: nat)

  ghost predicate EntryFits(e: Dirent) {
    e.ino < 0x1_0000 && e.valid < 0x1_0000 && |e.name| == NAME_MAX && e.len < 0x1_0000
  }

  // Entry j of a directory block.
  function DecodeEntry(b: Block, j: nat): (e: Dirent)
    requires j < DIRENTS_PER_BLOCK
    ensures EntryFits(e)
  {
    var a := DIRENT_SIZE * j;
    Dirent(Half(b, a), Half(b, a + 2), b[a + 4..a + 212], Half(b, a + 212))
  }

  // Where each field of entry j lies.
  lemma DirentOffsets(b: Block, j: nat, h: nat, i: nat, c: Byte)
    requires j < DIRENTS_PER_BLOCK && h < 0x1_0000 && i < NAME_MAX
    ensures var a := 214 * j; var e := DecodeEntry(b, j);
            && DecodeEntry(Overlay(b, a, HalfBytes(h)), j) == e.(ino := h)
            && DecodeEntry(Overlay(b, a + 2, HalfBytes(h)), j) == e.(valid := h)
            && DecodeEntry(Overlay(b, a + 4 + i, [c]), j) == e.(name := e.name[i := c])
            && DecodeEntry(Overlay(b, a + 212, HalfBytes(h)), j) == e.(len := h)
  {
  }

  function EncodeEntry(e: Dirent): (bs: seq<Byte>)
    requires EntryFits(e)
    ensures |bs| == DIRENT_SIZE
  {
    HalfBytes(e.ino) + HalfBytes(e.valid) + e.name + HalfBytes(e.len)
  }

  function StoreEntry(b: Block, j: nat, e: Dirent): Block
    requires j < DIRENTS_PER_BLOCK && EntryFits(e)
  {
    Overlay(b, DIRENT_SIZE * j, EncodeEntry(e))
  }

  // Storing an entry changes that entry of the block and none of its neighbours.
  lemma EntryAfterStore(b: Block, j: nat, e: Dirent, k: nat)
    requires j < DIRENTS_PER_BLOCK && k < DIRENTS_PER_BLOCK && EntryFits(e)
    ensures DecodeEntry(StoreEntry(b, j, e), k) == if k == j then e else DecodeEntry(b, k)
  {
    hide Half, HalfBytes;
    var bs := EncodeEntry(e);
    var r := StoreEntry(b, j, e);
    var a := DIRENT_SIZE * k;
    if k == j {
      assert bs[0..2] == HalfBytes(e.ino) && bs[2..4] == HalfBytes(e.valid);
      assert bs[4..212] == e.name && bs[212..214] == HalfBytes(e.len);
      assert r[a..a + 2] == bs[0..2];
      assert r[a + 2..a + 4] == bs[2..4];
      assert r[a + 4..a + 212] == bs[4..212];
      assert r[a + 212..a + 214] == bs[212..214];
      StoredHalf(r, a, e.ino);
      StoredHalf(r, a + 2, e.valid);
      StoredHalf(r, a + 212, e.len);
    } else {
      EqualHalves(r, b, a);
      EqualHalves(r, b, a + 2);
      EqualHalves(r, b, a + 212);
      assert r[a + 4..a + 212] == b[a + 4..a + 212];
    }
  }

  lemma EqualHalves(m: seq<Byte>, m': seq<Byte>, a: nat)
    requires a + 2 <= |m| && a + 2 <= |m'| && m[a] == m'[a] && m[a + 1] == m'[a + 1]
    ensures Half(m, a) == Half(m', a)
  {
  }

  // A zeroed block is a directory block without entries.
  lemma ZeroBlockHasNoEntries(j: nat)
    requires j < DIRENTS_PER_BLOCK
    ensures DecodeEntry(Zeros(BLOCK), j).valid == 0
  {
  }
}
