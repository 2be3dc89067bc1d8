// Directories as finite maps: dir_find finds exactly the bound names, and dir_add binds one more
// name and leaves every other binding, in this directory and in all others, as it was.
module RufsDirectories {
  import opened Wrappers
  import opened Bytes
  import opened Bitmaps
  import opened RufsLayout
  import opened RufsState
  import opened RufsInvariants
  import opened RufsAccount

  // Directory d binds name to inode number i.
  ghost predicate Binds(f: Fs, d: nat, name: seq<Byte>, i: nat)
    requires Shape(f)
  {
    exists n: nat :: Named(f, d, n, name) && Bound(f, d, n, i)
  }

  // The entries that the code reads through an inode are those of the directory.
  lemma EntryRead(f: Fs, d: nat, n: nat)
    requires Sound(f) && KindAt(f, d) == Directory && n < SLOTS
    ensures PointersOk(f.inodes[d])
    ensures f.inodes[d].direct[n / DIRENTS_PER_BLOCK] == 0 ==> Entry(f, d, n) == None
    ensures f.inodes[d].direct[n / DIRENTS_PER_BLOCK] != 0 ==>
              var e := EntryAt(f, f.inodes[d], n);
              Entry(f, d, n) == if e.valid != 0 then Some(e) else None
  {
    hide DecodeEntry;
  }

  // dir_find returns the entry of that name, and fails only when there is none.
  lemma DirFindFinds(f: Fs, d: nat, name: seq<Byte>)
    requires Consistent(f) && KindAt(f, d) == Directory
    ensures forall n: nat :: Named(f, d, n, name) ==> DirFind(f, d, name) == Entry(f, d, n)
    ensures DirFind(f, d, name).Some? ==> exists n: nat :: Named(f, d, n, name)
  {
    hide KindAt, EntryAt, Entry;
    var x := f.inodes[d];
    assert KindAt(f, d) == KindOf(x) && PointersOk(x) by { EntryInUse(f, d); }
    forall n: nat | n < SLOTS
      ensures x.direct[n / DIRENTS_PER_BLOCK] == 0 ==> Entry(f, d, n) == None
      ensures x.direct[n / DIRENTS_PER_BLOCK] != 0 ==>
                Entry(f, d, n) == if EntryAt(f, x, n).valid != 0 then Some(EntryAt(f, x, n)) else None
    {
      EntryRead(f, d, n);
    }
    EntryBounds(f, d);
    if |name| <= NAME_MAX {
      var k := FindEntry(f, x, name, 0);
      assert k < SLOTS ==> Named(f, d, k, name);
    }
  }

  lemma EntryInUse(f: Fs, d: nat)
    requires Sound(f) && KindAt(f, d) == Directory
    ensures KindAt(f, d) == KindOf(f.inodes[d]) && f.inodes[d].valid != 0 && PointersOk(f.inodes[d])
  {
  }

  lemma EntryBounds(f: Fs, d: nat)
    requires Sound(f)
    ensures forall n: nat :: Entry(f, d, n).Some? ==>
              n < SLOTS && EntryFits(Entry(f, d, n).value) && Entry(f, d, n).value.valid != 0
  {
    hide DecodeEntry;
  }

  // dir_find read as a map: the names it finds are those the directory binds, each to one inode.
  lemma DirFindIsMap(f: Fs, d: nat, name: seq<Byte>, i: nat)
    requires Consistent(f) && KindAt(f, d) == Directory
    ensures Binds(f, d, name, i) <==> DirFind(f, d, name).Some? && DirFind(f, d, name).value.ino == i
  {
    DirFindFinds(f, d, name);
  }

  // ----- adding an entry -----

  // f' has the entries of f and the new entry e at place n of directory d.
  ghost predicate Adds(f: Fs, f': Fs, d: nat, n: nat, e: Dirent)
    requires Shape(f) && Shape(f')
  {
    && Entry(f, d, n) == None
    && forall c: nat, m: nat :: Entry(f', c, m) == if c == d && m == n then Some(e) else Entry(f, c, m)
  }

  ghost predicate SameKinds(f: Fs, f': Fs)
    requires Shape(f) && Shape(f')
  {
    forall i: nat :: KindAt(f', i) == KindAt(f, i)
  }

  // The regular files of f are unchanged in f': length and every block.
  ghost predicate SameFiles(f: Fs, f': Fs)
    requires Shape(f) && Shape(f')
  {
    forall i: nat :: KindAt(f, i) == Regular ==>
      KindAt(f', i) == Regular && SizeAt(f', i) == SizeAt(f, i) && forall k: nat :: SlotAt(f', i, k) == SlotAt(f, i, k)
  }

  // The name an entry matches is the one it was made with.
  lemma MadeEntryMatches(e: Dirent, oldName: seq<Byte>, name: seq<Byte>, other: seq<Byte>)
    requires |oldName| == NAME_MAX && |name| <= NAME_MAX
    requires e.valid == 1 && e.len == |name| && e.name == Overlay(oldName, 0, name)
    ensures Matches(e, other) <==> other == name
  {
    assert e.name[..|name|] == name;
  }

  // An entry stored into a block of the directory, or into a new block of it, is the one entry that changes.
  lemma StoredEntryAdds(f: Fs, f': Fs, d: nat, s: nat, t: nat, block: Block, e: Dirent)
    requires Shape(f) && Shape(f') && SameKinds(f, f') && KindAt(f, d) == Directory && s < DIRECT
    requires t < DIRENTS_PER_BLOCK
    requires forall j: nat, l: nat :: SlotAt(f', j, l) == if j == d && l == s then Some(block) else SlotAt(f, j, l)
    requires forall u: nat :: u < DIRENTS_PER_BLOCK && u != t ==>
               UsedEntry(block, u) == if SlotAt(f, d, s).Some? then UsedEntry(SlotAt(f, d, s).value, u) else None
    requires UsedEntry(block, t) == Some(e)
    requires SlotAt(f, d, s).Some? ==> UsedEntry(SlotAt(f, d, s).value, t) == None
    ensures Adds(f, f', d, DIRENTS_PER_BLOCK * s + t, e)
  {
    hide KindAt, SlotAt, UsedEntry;
    var n := DIRENTS_PER_BLOCK * s + t;
    forall c: nat, m: nat
      ensures Entry(f', c, m) == if c == d && m == n then Some(e) else Entry(f, c, m)
    {
      if c == d && m / DIRENTS_PER_BLOCK == s {
        assert m % DIRENTS_PER_BLOCK == t <==> m == n;
      }
    }
  }

  // Binding a reserved number to a new name keeps the entries well formed.
  lemma AddsEntriesOk(f: Fs, f': Fs, d: nat, n: nat, e: Dirent, name: seq<Byte>)
    requires Shape(f) && Shape(f') && EntriesOk(f) && Adds(f, f', d, n, e) && f'.ibits == f.ibits
    requires Reserved(f, e.ino)
    requires forall other: seq<Byte> :: Matches(e, other) ==> other == name
    requires forall m: nat :: !Named(f, d, m, name)
    ensures EntriesOk(f')
  {
    hide Bound, Named, KindAt;
    AddsBound(f, f', d, n, e);
  }

  lemma AddsBound(f: Fs, f': Fs, d: nat, n: nat, e: Dirent)
    requires Shape(f) && Shape(f') && Adds(f, f', d, n, e)
    ensures forall c: nat, m: nat, i: nat :: Bound(f', c, m, i) == if c == d && m == n then i == e.ino
        else Bound(f, c, m, i)
    ensures forall c: nat, m: nat, name: seq<Byte> ::
              Named(f', c, m, name) == if c == d && m == n then Matches(e, name) else Named(f, c, m, name)
  {
    hide Entry, Matches;
  }

  // ----- dir_add -----

  // The new entry e at place n of directory d binds name, and no other name, to inode number i.
  ghost predicate AddsName(f: Fs, f': Fs, d: nat, n: nat, e: Dirent, name: seq<Byte>, i: nat)
    requires Shape(f) && Shape(f')
  {
    Adds(f, f', d, n, e) && e.ino == i && forall other: seq<Byte> :: Matches(e, other) <==> other == name
  }

  // What a dir_add that succeeds does, all of it.
  ghost predicate Bind(f: Fs, f': Fs, d: nat, name: seq<Byte>, i: nat)
    requires Shape(f) && Shape(f')
  {
    && SameKinds(f, f') && SameFiles(f, f')
    && exists n: nat, e: Dirent :: AddsName(f, f', d, n, e, name, i)
  }

  lemma PutEntry(f: Fs, d: nat, s: nat, b: nat, t: nat, oldBlock: Block, e: Dirent, x: Inode)
    requires Consistent(f) && KindAt(f, d) == Directory && Repoints(f, d, s, b, x) && Spare(f, b, d, s)
    requires KindOf(x) == Directory && x.ino == d
    requires t < DIRENTS_PER_BLOCK && EntryFits(e) && e.valid == 1
    requires SlotAt(f, d, s).Some? ==> SlotAt(f, d, s).value == oldBlock
    requires SlotAt(f, d, s).None? ==> oldBlock == Zeros(BLOCK)
    requires UsedEntry(oldBlock, t) == None
    ensures var f' := Put(f, d, b, StoreEntry(oldBlock, t, e), x);
            && Sound(f') && InodesOk(f') && BlocksOk(f') && SameKinds(f, f') && SameFiles(f, f') && f'.ibits == f.ibits
            && Adds(f, f', d, DIRENTS_PER_BLOCK * s + t, e)
  {
    hide DecodeEntry, StoreEntry, EntryFits;
    var block := StoreEntry(oldBlock, t, e);
    var f' := Put(f, d, b, block, x);
    PutShape(f, d, s, b, block, x);
    PutSlots(f, d, s, b, block, x);
    PutBlocksOk(f, d, s, b, block, x);
    PutEntryTables(f, d, s, b, block, x);
    forall u: nat | u < DIRENTS_PER_BLOCK
      ensures DecodeEntry(block, u) == if u == t then e else DecodeEntry(oldBlock, u)
      ensures DecodeEntry(Zeros(BLOCK), u).valid == 0
    {
      EntryAfterStore(oldBlock, t, e, u);
      ZeroBlockHasNoEntries(u);
    }
    hide KindAt, SlotAt, Owns;
    StoredEntryAdds(f, f', d, s, t, block, e);
  }

  lemma PutEntryTables(f: Fs, d: nat, s: nat, b: nat, block: Block, x: Inode)
    requires Consistent(f) && KindAt(f, d) == Directory && Repoints(f, d, s, b, x) && Spare(f, b, d, s)
    requires KindOf(x) == Directory && x.ino == d
    ensures var f' := Put(f, d, b, block, x);
            Sound(f') && InodesOk(f') && SameKinds(f, f') && SameFiles(f, f') && f'.ibits == f.ibits
  {
    PutShape(f, d, s, b, block, x);
    PutSlots(f, d, s, b, block, x);
    hide KindOf, SlotAt;
  }

  // The unused entry k of the directory takes the name.
  lemma AddInPlaceBinds(f: Fs, d: nat, i: nat, name: seq<Byte>, k: nat)
    requires Consistent(f) && KindAt(f, d) == Directory && Reserved(f, i) && |name| <= NAME_MAX
    requires forall m: nat :: !Named(f, d, m, name)
    requires k < SLOTS && PointersOk(f.inodes[d]) && f.inodes[d].direct[k / DIRENTS_PER_BLOCK] != 0
    requires EntryAt(f, f.inodes[d], k).valid == 0
    ensures var f' := AddInPlace(f, f.inodes[d], i, name, k);
            Consistent(f') && f'.ibits == f.ibits && Bind(f, f', d, name, i)
  {
    hide StoreEntry, DecodeEntry;
    var x := f.inodes[d];
    var s := k / DIRENTS_PER_BLOCK;
    var b := x.direct[s] - D_START_BLK;
    var oldName := EntryAt(f, x, k).name;
    var e := Dirent(i, 1, Overlay(oldName, 0, name), |name|);
    assert Owns(f, d, s, b);
    NewEntryBinds(f, d, s, b, k % DIRENTS_PER_BLOCK, DataAt(f, x.direct[s]), e, oldName, name, Grown(x));
  }

  // A new block of the directory takes the name in its first entry.
  lemma AddInNewBlockBinds(f: Fs, d: nat, i: nat, name: seq<Byte>, b: nat, s: nat)
    requires Consistent(f) && KindAt(f, d) == Directory && Reserved(f, i) && |name| <= NAME_MAX
    requires forall m: nat :: !Named(f, d, m, name)
    requires Unowned(f, b) && s < DIRECT && PointersOk(f.inodes[d]) && f.inodes[d].direct[s] == 0
    ensures var f' := AddInNewBlock(f, f.inodes[d], i, name, D_START_BLK + b, s);
            Consistent(f') && f'.ibits == f.ibits && Bind(f, f', d, name, i)
  {
    hide StoreEntry;
    var x := f.inodes[d];
    var e := Dirent(i, 1, Overlay(Zeros(NAME_MAX), 0, name), |name|);
    ZeroBlockHasNoEntries(0);
    NewEntryBinds(f, d, s, b, 0, Zeros(BLOCK), e, Zeros(NAME_MAX), name,
        Grown(x.(direct := x.direct[s := D_START_BLK + b])));
  }

  lemma NewEntryBinds(f: Fs, d: nat, s: nat, b: nat, t: nat, oldBlock: Block, e: Dirent, oldName: seq<Byte>,
      name: seq<Byte>, x: Inode)
    requires Consistent(f) && KindAt(f, d) == Directory && Repoints(f, d, s, b, x) && Spare(f, b, d, s)
    requires KindOf(x) == Directory && x.ino == d
    requires t < DIRENTS_PER_BLOCK && EntryFits(e) && e.valid == 1
    requires SlotAt(f, d, s).Some? ==> SlotAt(f, d, s).value == oldBlock
    requires SlotAt(f, d, s).None? ==> oldBlock == Zeros(BLOCK)
    requires UsedEntry(oldBlock, t) == None
    requires |oldName| == NAME_MAX && |name| <= NAME_MAX && e.len == |name| && e.name == Overlay(oldName, 0, name)
    requires Reserved(f, e.ino) && forall m: nat :: !Named(f, d, m, name)
    ensures var f' := Put(f, d, b, StoreEntry(oldBlock, t, e), x);
            Consistent(f') && f'.ibits == f.ibits && Bind(f, f', d, name, e.ino)
  {
    hide Matches, Put, KindAt, SlotAt, Entry, Owns;
    var f' := Put(f, d, b, StoreEntry(oldBlock, t, e), x);
    PutEntry(f, d, s, b, t, oldBlock, e, x);
    forall other: seq<Byte>
      ensures Matches(e, other) <==> other == name
    {
      MadeEntryMatches(e, oldName, name, other);
    }
    AddsEntriesOk(f, f', d, DIRENTS_PER_BLOCK * s + t, e, name);
    assert AddsName(f, f', d, DIRENTS_PER_BLOCK * s + t, e, name, e.ino);
  }

  // One of the blocks of the directory has an entry that is not in use.
  ghost predicate HasUnusedEntry(f: Fs, d: nat)
    requires Shape(f)
  {
    exists n: nat :: n < SLOTS && SlotAt(f, d, n / DIRENTS_PER_BLOCK).Some? && Entry(f, d, n).None?
  }

  // The directory has an unused entry, or room for one more block.
  ghost predicate HasRoom(f: Fs, d: nat)
    requires Shape(f) && d < MAX_INUM
  {
    HasUnusedEntry(f, d) || exists k: nat :: k < DIRECT && f.inodes[d].direct[k] == 0
  }

  // Only the want of room keeps the directory from taking the name.
  ghost predicate IsFullFor(f: Fs, d: nat, name: seq<Byte>)
    requires Shape(f) && d < MAX_INUM
  {
    |name| <= NAME_MAX && (forall j: nat :: !Binds(f, d, name, j)) && !HasRoom(f, d)
  }

  lemma AddInPlaceCharged(f: Fs, d: nat, i: nat, name: seq<Byte>, k: nat, c: seq<Place>)
    requires Consistent(f) && KindAt(f, d) == Directory && i < 0x1_0000 && |name| <= NAME_MAX && Charged(f, c)
    requires k < SLOTS && PointersOk(f.inodes[d]) && f.inodes[d].direct[k / DIRENTS_PER_BLOCK] != 0
    ensures var f' := AddInPlace(f, f.inodes[d], i, name, k);
            && Charged(f', c) && LostBlocks(f') == LostBlocks(f)
            && forall j: nat :: Uncharged(f, c, j) ==> Uncharged(f', c, j)
  {
    hide StoreEntry, DecodeEntry, EntriesOk;
    var x := f.inodes[d];
    var s := k / DIRENTS_PER_BLOCK;
    var b := x.direct[s] - D_START_BLK;
    var e := Dirent(i, 1, Overlay(EntryAt(f, x, k).name, 0, name), |name|);
    var block := StoreEntry(DataAt(f, x.direct[s]), k % DIRENTS_PER_BLOCK, e);
    assert Owns(f, d, s, b);
    assert AddInPlace(f, x, i, name, k) == Put(f, d, b, block, Grown(x));
    PutShape(f, d, s, b, block, Grown(x));
    hide KindAt, Owns, Put;
    ChargesKept(f, Put(f, d, b, block, Grown(x)), c);
    SameLost(f, Put(f, d, b, block, Grown(x)));
  }

  lemma AddInNewBlockCharged(f: Fs, f1: Fs, d: nat, i: nat, name: seq<Byte>, b: nat, s: nat, c: seq<Place>)
    requires Consistent(f) && KindAt(f, d) == Directory && i < 0x1_0000 && |name| <= NAME_MAX && Charged(f, c)
    requires b < MAX_DNUM && !f.dbits[b] && f1 == f.(dbits := f.dbits[b := true])
    requires s < DIRECT && PointersOk(f.inodes[d]) && f.inodes[d].direct[s] == 0
    ensures Shape(f1)
    ensures var f' := AddInNewBlock(f1, f.inodes[d], i, name, D_START_BLK + b, s);
            && Charged(f', c[b := Place(d, s)]) && LostBlocks(f') == LostBlocks(f)
            && forall j: nat :: j != d && Uncharged(f, c, j) ==> Uncharged(f', c[b := Place(d, s)], j)
  {
    hide StoreEntry, EntriesOk;
    var x := f.inodes[d];
    var e := Dirent(i, 1, Overlay(Zeros(NAME_MAX), 0, name), |name|);
    var block := StoreEntry(Zeros(BLOCK), 0, e);
    var x1 := Grown(x.(direct := x.direct[s := D_START_BLK + b]));
    SameTables(f, f1);
    NullUncharged(f, c, d, s);
    assert AddInNewBlock(f1, x, i, name, D_START_BLK + b, s) == Put(f1, d, b, block, x1);
    PutShape(f1, d, s, b, block, x1);
    assert forall a: nat :: !Owns(f, d, s, a);
    hide KindAt, Owns, Put;
    ChargeBlock(f, Put(f1, d, b, block, x1), c, b, Place(d, s));
    LostAfter(f, Put(f1, d, b, block, x1), b, Place(d, s), true);
  }

  // dir_add of a new number binds the name exactly when the name fits, is not bound yet and
  // there is room; when it fails, the directories and files are as before. It always finds the
  // block it asks for, and a block that does not fit into a full directory is charged to the number.
  lemma DirAddBinds(f: Fs, d: nat, i: nat, name: seq<Byte>, c: seq<Place>) returns (c': seq<Place>)
    requires Consistent(f) && KindAt(f, d) == Directory && Reserved(f, i) && Charged(f, c) && Uncharged(f, c, i)
    ensures PointersOk(f.inodes[d])
    ensures var (f', ok) := DirAdd(f, f.inodes[d], i, name);
            && Consistent(f') && f'.ibits == f.ibits
            && (ok <==> |name| <= NAME_MAX && (forall j: nat :: !Binds(f, d, name, j)) && HasRoom(f, d))
            && (ok ==> Bind(f, f', d, name, i))
            && (!ok ==> f'.inodes == f.inodes && f'.data == f.data)
            && Charged(f', c') && (ok ==> Uncharged(f', c', i))
            && |LostBlocks(f')| == |LostBlocks(f)| + if IsFullFor(f, d, name) then 1 else 0
  {
    hide LostBlocks, HasUnusedEntry, KindAt, EntryAt, Entry, AddInPlace, AddInNewBlock, SlotAt, Owns, DirFind, HasRoom,
      InodesOk, BlocksOk, EntriesOk, Adds, SameKinds, SameFiles, Charged, Uncharged;
    c' := c;
    EntryInUse(f, d);
    NameTaken(f, d, name);
    RoomFound(f, d);
    OwnNumber(f, d);
    if |name| <= NAME_MAX && DirFind(f, d, name).None? {
      var x := f.inodes[d];
      var k := FreeEntry(f, x, 0);
      if k < SLOTS {
        AddInPlaceBinds(f, d, i, name, k);
        AddInPlaceCharged(f, d, i, name, k, c);
      } else {
        UnchargedLeft(f, c, i);
        AllocBlkInv(f);
        var (f1, p) := AllocBlk(f);
        AfterAlloc(f, f1, d, i, name);
        var b := p.value - D_START_BLK;
        var s := FirstZero(x.direct, 0);
        if s < DIRECT {
          AddInNewBlockBinds(f1, d, i, name, b, s);
          BindAfterAlloc(f, f1, AddInNewBlock(f1, x, i, name, p.value, s), d, name, i);
          AddInNewBlockCharged(f, f1, d, i, name, b, s, c);
          c' := c[b := Place(d, s)];
        } else {
          LostCharged(f, f1, c, b, i);
          c' := c[b := Place(i, 0)];
        }
      }
    }
  }

  lemma OwnNumber(f: Fs, d: nat)
    requires Consistent(f) && KindAt(f, d) != Absent
    ensures f.inodes[d].ino == d
  {
  }

  // The name is in use exactly when dir_find says so.
  lemma NameTaken(f: Fs, d: nat, name: seq<Byte>)
    requires Consistent(f) && KindAt(f, d) == Directory
    ensures DirFind(f, d, name).Some? <==> exists j: nat :: Binds(f, d, name, j)
    ensures DirFind(f, d, name).None? ==> forall m: nat :: !Named(f, d, m, name)
  {
    hide DirFind, KindAt, Entry;
    DirFindFinds(f, d, name);
    if DirFind(f, d, name).Some? {
      assert Binds(f, d, name, DirFind(f, d, name).value.ino) by {
        var n: nat :| Named(f, d, n, name);
        assert Bound(f, d, n, DirFind(f, d, name).value.ino);
      }
    }
  }

  // The scan for an unused entry and the search for a null pointer find room when there is any.
  lemma RoomFound(f: Fs, d: nat)
    requires Consistent(f) && KindAt(f, d) == Directory
    ensures PointersOk(f.inodes[d])
    ensures HasUnusedEntry(f, d) <==> FreeEntry(f, f.inodes[d], 0) < SLOTS
    ensures HasRoom(f, d) <==>
              FreeEntry(f, f.inodes[d], 0) < SLOTS || FirstZero(f.inodes[d].direct, 0) < DIRECT
  {
    hide KindAt, EntryAt, Entry, SlotAt, InodesOk, BlocksOk, EntriesOk, FreeEntry, FirstZero, FirstClear;
    EntryInUse(f, d);
    var x := f.inodes[d];
    forall n: nat | n < SLOTS
      ensures x.direct[n / DIRENTS_PER_BLOCK] != 0 <==> SlotAt(f, d, n / DIRENTS_PER_BLOCK).Some?
      ensures x.direct[n / DIRENTS_PER_BLOCK] != 0 ==> (Entry(f, d, n).None? <==> EntryAt(f, x, n).valid == 0)
    {
      EntryRead(f, d, n);
      SlotRead(f, d, n / DIRENTS_PER_BLOCK);
    }
  }

  lemma SlotRead(f: Fs, d: nat, s: nat)
    requires Sound(f) && KindAt(f, d) == Directory && s < DIRECT
    ensures f.inodes[d].direct[s] != 0 <==> SlotAt(f, d, s).Some?
  {
  }

  lemma AfterAlloc(f: Fs, f1: Fs, d: nat, i: nat, name: seq<Byte>)
    requires Sound(f) && Sound(f1) && f1.inodes == f.inodes && f1.data == f.data && f1.ibits == f.ibits
    requires KindAt(f, d) == Directory && Reserved(f, i) && forall m: nat :: !Named(f, d, m, name)
    ensures KindAt(f1, d) == Directory && Reserved(f1, i) && forall m: nat :: !Named(f1, d, m, name)
  {
    hide KindAt, Bound, Named;
    SameTables(f, f1);
  }

  // A change of the bitmaps beforehand does not matter.
  lemma BindAfterAlloc(f: Fs, f1: Fs, f2: Fs, d: nat, name: seq<Byte>, i: nat)
    requires Sound(f) && Shape(f1) && Shape(f2) && f1.inodes == f.inodes && f1.data == f.data
    requires Bind(f1, f2, d, name, i)
    ensures Bind(f, f2, d, name, i)
  {
    hide KindAt, SlotAt, SizeAt, Entry, Matches;
    SameTables(f, f1);
    var n: nat, e: Dirent :| AddsName(f1, f2, d, n, e, name, i);
    assert AddsName(f, f2, d, n, e, name, i);
  }
}
