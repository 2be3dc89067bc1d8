// The account of the data blocks: every marked block is charged to one pointer slot of one marked
// inode number. There are as many slots as blocks, so a slot that nothing is charged to means
// that a block is free, and get_avail_blkno never fails.
module RufsAccount {
  import opened Counting
  import opened RufsLayout
  import opened RufsState
  import opened RufsInvariants

  datatype Place = Place(ino: nat, slot: nat)

  predicate Marked(f: Fs, b: nat) {
    b < |f.dbits| && f.dbits[b]
  }

  // Block b is charged to place c[b]: the slot that leads to it when that inode is in use; the
  // number of an inode that never came to be used stands for a block lost with it.
  ghost predicate Charged(f: Fs, c: seq<Place>): (r: bool)
    requires Shape(f)
    ensures r ==> |c| == MAX_DNUM
  {
    && |c| == MAX_DNUM
    && (forall b: nat :: Marked(f, b) ==> c[b].ino < MAX_INUM && c[b].slot < DIRECT && f.ibits[c[b].ino])
    && (forall b: nat :: Marked(f, b) && KindAt(f, c[b].ino) != Absent ==> Owns(f, c[b].ino, c[b].slot, b))
    && (forall a: nat, b: nat :: Marked(f, a) && Marked(f, b) && c[a] == c[b] ==> a == b)
  }

  ghost predicate Accounted(f: Fs)
    requires Shape(f)
  {
    exists c: seq<Place> :: Charged(f, c)
  }

  // What every operation keeps.
  ghost predicate Inv(f: Fs) {
    Consistent(f) && Accounted(f)
  }

  // Nothing is charged to inode number i.
  ghost predicate Uncharged(f: Fs, c: seq<Place>, i: nat)
    requires Shape(f) && |c| == MAX_DNUM
  {
    forall b: nat :: Marked(f, b) ==> c[b].ino != i
  }

  // The places numbered through.
  function Code(p: Place): (n: nat)
    requires p.ino < MAX_INUM && p.slot < DIRECT
    ensures n < MAX_DNUM
  {
    DIRECT * p.ino + p.slot
  }

  lemma CodeIsUnique(p: Place, q: Place)
    requires p.ino < MAX_INUM && p.slot < DIRECT && q.ino < MAX_INUM && q.slot < DIRECT && p != q
    ensures Code(p) != Code(q)
  {
  }

  // There are only as many places as blocks.
  lemma PlacesRunOut(c: seq<Place>, place: Place)
    requires |c| == MAX_DNUM && NoRepeats(c) && place.ino < MAX_INUM && place.slot < DIRECT
    requires forall b :: 0 <= b < |c| ==> c[b].ino < MAX_INUM && c[b].slot < DIRECT
    ensures place in c
  {
    hide Code, NoRepeats;
    var q: seq<nat> := seq(MAX_DNUM, b requires 0 <= b < MAX_DNUM => Code(c[b]));
    CodesDiffer(c, q);
    NoneMissing(q, MAX_DNUM, Code(place));
    var b: nat :| b < MAX_DNUM && q[b] == Code(place);
    if c[b] != place {
      CodeIsUnique(c[b], place);
    }
  }

  lemma CodesDiffer(c: seq<Place>, q: seq<nat>)
    requires NoRepeats(c) && |q| == |c| && forall b :: 0 <= b < |c| ==> c[b].ino < MAX_INUM && c[b].slot < DIRECT
    requires forall b :: 0 <= b < |q| ==> q[b] == Code(c[b])
    ensures NoRepeats(q)
  {
    hide Code;
    forall a, b | 0 <= a < b < |q|
      ensures q[a] != q[b]
    {
      CodeIsUnique(c[a], c[b]);
    }
  }

  // A place that nothing is charged to means a free block.
  lemma BlockLeft(f: Fs, c: seq<Place>, free: Place)
    requires Shape(f) && Charged(f, c) && free.ino < MAX_INUM && free.slot < DIRECT
    requires forall b: nat :: Marked(f, b) ==> c[b] != free
    ensures AllocBlk(f).1.Some?
  {
    hide KindAt, Owns;
    if AllocBlk(f).1.None? {
      assert forall b: nat :: b < MAX_DNUM ==> Marked(f, b);
      PlacesRunOut(c, free);
    }
  }

  lemma MkfsAccounted()
    ensures Inv(Mkfs())
  {
    MkfsInv();
    var f := Mkfs();
    MkfsInodes();
    MkfsView(f);
    hide KindAt;
    assert forall b: nat :: Marked(f, b) ==> b == 0;
    assert Owns(f, 0, 0, 0);
    assert Charged(f, seq(MAX_DNUM, _ => Place(0, 0)));
  }

  // ----- what is lost -----

  ghost predicate InSomeSlot(f: Fs, b: nat)
    requires Shape(f)
  {
    exists i: nat, k: nat :: Owns(f, i, k, b)
  }

  // A marked block in no pointer slot, and a marked number of an inode not in use.
  ghost predicate IsLost(f: Fs, b: nat)
    requires Shape(f)
  {
    Marked(f, b) && !InSomeSlot(f, b)
  }

  ghost function LostBlocks(f: Fs): set<nat>
    requires Shape(f)
  {
    set b: nat | b < MAX_DNUM && IsLost(f, b)
  }

  ghost function LostNumbers(f: Fs): set<nat>
    requires Shape(f)
  {
    set i: nat | i < MAX_INUM && f.ibits[i] && KindAt(f, i) == Absent
  }

  lemma SameLost(f: Fs, f': Fs)
    requires Shape(f) && Shape(f') && f'.dbits == f.dbits
    requires forall i: nat, k: nat, b: nat :: Owns(f', i, k, b) == Owns(f, i, k, b)
    ensures LostBlocks(f') == LostBlocks(f)
  {
    hide KindAt, Owns;
    assert forall b: nat :: b < MAX_DNUM ==> IsLost(f', b) == IsLost(f, b);
  }

  // A block just taken that is put into a slot is not lost, and one that is not is.
  lemma LostAfter(f: Fs, f': Fs, b: nat, place: Place, owned: bool)
    requires Shape(f) && Shape(f') && b < MAX_DNUM && !f.dbits[b] && f'.dbits == f.dbits[b := true]
    requires forall i: nat, k: nat, a: nat :: Owns(f', i, k, a) ==
               if owned && i == place.ino && k == place.slot then a == b else Owns(f, i, k, a)
    requires forall i: nat, k: nat :: !Owns(f, i, k, b)
    requires owned ==> forall a: nat :: !Owns(f, place.ino, place.slot, a)
    ensures LostBlocks(f') == LostBlocks(f) + if owned then {} else {b}
    ensures b !in LostBlocks(f)
  {
    hide KindAt, Owns;
    if owned {
      assert Owns(f', place.ino, place.slot, b);
    }
    assert forall a: nat :: Marked(f', a) == (Marked(f, a) || a == b);
    forall a: nat | a < MAX_DNUM
      ensures IsLost(f', a) == if a == b then !owned else IsLost(f, a)
    {
      if a != b {
        assert forall i: nat, k: nat :: Owns(f', i, k, a) == Owns(f, i, k, a);
      }
    }
  }

  // ----- the account kept -----

  // The same blocks are marked and owned; inodes newly in use have nothing charged to them.
  lemma ChargesKept(f: Fs, f': Fs, c: seq<Place>)
    requires Shape(f) && Shape(f') && Charged(f, c) && f'.dbits == f.dbits
    requires forall i: nat :: i < MAX_INUM && f.ibits[i] ==> f'.ibits[i]
    requires forall i: nat, k: nat, b: nat :: Owns(f, i, k, b) ==> Owns(f', i, k, b)
    requires forall i: nat :: KindAt(f, i) == Absent && KindAt(f', i) != Absent ==> Uncharged(f, c, i)
    ensures Charged(f', c)
    ensures forall i: nat :: Uncharged(f, c, i) ==> Uncharged(f', c, i)
  {
    hide KindAt, Owns;
    assert forall b: nat :: Marked(f', b) == Marked(f, b);
  }

  // A block just taken is charged to a place that nothing is charged to.
  lemma ChargeBlock(f: Fs, f': Fs, c: seq<Place>, b: nat, place: Place)
    requires Shape(f) && Shape(f') && Charged(f, c) && b < MAX_DNUM && !f.dbits[b] && f'.dbits == f.dbits[b := true]
    requires forall i: nat :: i < MAX_INUM && f.ibits[i] ==> f'.ibits[i]
    requires place.ino < MAX_INUM && place.slot < DIRECT && f'.ibits[place.ino]
    requires forall a: nat :: Marked(f, a) ==> c[a] != place
    requires forall i: nat, k: nat, a: nat :: Owns(f, i, k, a) ==> Owns(f', i, k, a)
    requires forall i: nat :: KindAt(f, i) == Absent && KindAt(f', i) != Absent ==> Uncharged(f, c, i)
    requires KindAt(f', place.ino) != Absent ==> Owns(f', place.ino, place.slot, b)
    ensures Charged(f', c[b := place])
    ensures forall i: nat :: i != place.ino && Uncharged(f, c, i) ==> Uncharged(f', c[b := place], i)
  {
    hide KindAt, Owns;
    assert forall a: nat :: Marked(f', a) == (Marked(f, a) || a == b);
  }

  // An inode number just taken has nothing charged to it.
  lemma AllocInoCharged(f: Fs, c: seq<Place>)
    requires Sound(f) && Charged(f, c) && AllocIno(f).1.Some?
    ensures var (f', i) := AllocIno(f); Sound(f') && Charged(f', c) && Uncharged(f', c, i.value)
  {
    hide KindAt, Owns;
    var (f', i) := AllocIno(f);
    SameTables(f, f');
    assert Uncharged(f, c, i.value);
    ChargesKept(f, f', c);
  }

  // A null slot of an inode in use has nothing charged to it.
  lemma NullUncharged(f: Fs, c: seq<Place>, i: nat, k: nat)
    requires Shape(f) && Charged(f, c) && KindAt(f, i) != Absent && k < DIRECT && f.inodes[i].direct[k] == 0
    ensures forall b: nat :: Marked(f, b) ==> c[b] != Place(i, k)
  {
  }

  lemma UnchargedLeft(f: Fs, c: seq<Place>, i: nat)
    requires Shape(f) && Charged(f, c) && i < MAX_INUM && Uncharged(f, c, i)
    ensures AllocBlk(f).1.Some?
  {
    hide KindAt, Owns;
    BlockLeft(f, c, Place(i, 0));
  }

  // A block that ends up in no slot is charged to the inode number taken for the failed call.
  lemma LostCharged(f: Fs, f1: Fs, c: seq<Place>, b: nat, i: nat)
    requires Sound(f) && Charged(f, c) && b < MAX_DNUM && !f.dbits[b] && f1 == f.(dbits := f.dbits[b := true])
    requires i < MAX_INUM && f.ibits[i] && KindAt(f, i) == Absent && Uncharged(f, c, i)
    requires BlocksOk(f)
    ensures Shape(f1) && Charged(f1, c[b := Place(i, 0)])
    ensures |LostBlocks(f1)| == |LostBlocks(f)| + 1
  {
    hide KindAt, Owns;
    SameTables(f, f1);
    LostAfter(f, f1, b, Place(i, 0), false);
    ChargeBlock(f, f1, c, b, Place(i, 0));
  }
}
