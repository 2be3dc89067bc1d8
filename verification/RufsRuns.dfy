// Runs of the file system from mkfs: what holds after any sequence of mkdir, create and write,
// whatever each of them returned.
module RufsRuns {
  import opened Wrappers
  import opened Bytes
  import opened RufsLayout
  import opened RufsState
  import opened RufsInvariants
  import opened RufsAccount
  import opened RufsDirectories
  import opened RufsNamespace
  import opened RufsMake
  import opened RufsFiles
  import opened RufsReadWrite

  // A mode argument: any 32 bits.
  type ModeArg = m: nat | m < WORD_LIMIT

  datatype Op =
    | OpMkdir(parent: seq<Name>, name: Name, dirMode: ModeArg)
    | OpCreate(parent: seq<Name>, name: Name, fileMode: ModeArg)
    | OpWrite(path: seq<Name>, buf: seq<Byte>, offset: nat)

  function Step(f: Fs, op: Op): (r: (Fs, int))
    requires Sound(f)
  {
    match op
    case OpMkdir(parent, name, mode) => Mkdir(f, parent, name, mode)
    case OpCreate(parent, name, mode) => Create(f, parent, name, mode)
    case OpWrite(path, buf, offset) => Write(f, path, buf, offset)
  }

  lemma StepInv(f: Fs, op: Op)
    requires Inv(f)
    ensures Inv(Step(f, op).0)
  {
    hide InodesOk, BlocksOk, EntriesOk, Charged, Mkdir, Create, Write, OnePathMore, SamePaths, SameFiles, OnlyThisFile;
    InvIsSound(f);
    match op
    case OpMkdir(parent, name, mode) => MkdirAddsPath(f, parent, name, mode);
    case OpCreate(parent, name, mode) => CreateAddsPath(f, parent, name, mode);
    case OpWrite(path, buf, offset) => WriteKeepsTheRest(f, path, buf, offset);
  }

  // The file system after a sequence of operations on a fresh one.
  ghost function After(ops: seq<Op>): (f: Fs)
    ensures Inv(f)
  {
    if ops == [] then MkfsAccounted(); Mkfs()
    else
      var f := After(ops[..|ops| - 1]);
      StepInv(f, ops[|ops| - 1]);
      Step(f, ops[|ops| - 1]).0
  }

  // Data blocks: never shared, always in the data region and marked, and zero while they are free.
  lemma BlocksAreSafe(ops: seq<Op>, i: nat, k: nat, j: nat, l: nat, b: nat)
    requires i < MAX_INUM && j < MAX_INUM && k < DIRECT && l < DIRECT && b < MAX_DNUM
    ensures var f := After(ops);
            && (f.inodes[i].valid != 0 && f.inodes[i].direct[k] != 0 ==>
                  && IsBlock(f.inodes[i].direct[k]) && f.dbits[f.inodes[i].direct[k] - D_START_BLK]
                  && (f.inodes[j].valid != 0 && f.inodes[j].direct[l] == f.inodes[i].direct[k] ==> i == j && k == l))
            && (!f.dbits[b] ==> f.data[b] == Zeros(BLOCK))
  {
    hide After, InodesOk, EntriesOk;
    var f := After(ops);
    KindInUse(f);
    if f.inodes[i].valid != 0 && f.inodes[i].direct[k] != 0 {
      var c := f.inodes[i].direct[k] - D_START_BLK;
      assert Owns(f, i, k, c);
      if f.inodes[j].valid != 0 && f.inodes[j].direct[l] == f.inodes[i].direct[k] {
        assert Owns(f, j, l, c);
      }
    }
  }

  // ----- what never runs out, and what is lost -----

  // There is always a block when one is asked for: mkdir and write never report a full disk, and
  // create does so only for want of an inode number.
  lemma NeverOutOfBlocks(ops: seq<Op>, op: Op)
    ensures var r := Step(After(ops), op).1;
            r == -ENOSPC ==> op.OpCreate? && forall i :: 0 <= i < MAX_INUM ==> After(ops).ibits[i]
  {
    hide After, InodesOk, BlocksOk, EntriesOk, Charged, CanBind, KindAt, Target, LosesNumber, LosesBlock, LostBlocks,
      Made, Mkdir, Write, Begin, WriteDone, OnlyFile;
    var f := After(ops);
    match op
    case OpMkdir(parent, name, mode) => MkdirMakes(f, parent, name, mode);
    case OpCreate(parent, name, mode) => CreateMakes(f, parent, name, mode);
    case OpWrite(path, buf, offset) =>
      WriteKeepsTheRest(f, path, buf, offset);
      if FileAt(f, path) {
        WriteFile(f, path, buf, offset);
      }
  }

  // The operation takes an inode number for nothing, or a block.
  ghost predicate OpLosesNumber(f: Fs, op: Op)
    requires Sound(f)
  {
    match op
    case OpMkdir(parent, name, _) => LosesNumber(f, parent, name)
    case OpCreate(parent, name, _) => LosesNumber(f, parent, name)
    case OpWrite(_, _, _) => false
  }

  ghost predicate OpLosesBlock(f: Fs, op: Op)
    requires Sound(f)
  {
    match op
    case OpMkdir(parent, name, _) => LosesBlock(f, parent, name)
    case OpCreate(parent, name, _) => LosesBlock(f, parent, name)
    case OpWrite(_, _, _) => false
  }

  ghost function NumbersLost(ops: seq<Op>): nat {
    if ops == [] then 0
    else
      NumbersLost(ops[..|ops| - 1]) + if OpLosesNumber(After(ops[..|ops| - 1]), ops[|ops| - 1]) then 1 else 0
  }

  ghost function BlocksLost(ops: seq<Op>): nat {
    if ops == [] then 0
    else
      BlocksLost(ops[..|ops| - 1]) + if OpLosesBlock(After(ops[..|ops| - 1]), ops[|ops| - 1]) then 1 else 0
  }

  // A number more that no inode came to use.
  lemma NumberLost(f: Fs, f': Fs, i: nat)
    requires Shape(f) && Shape(f') && f'.inodes == f.inodes && OneNumberMore(f, f', i) && KindAt(f, i) == Absent
    ensures |LostNumbers(f')| == |LostNumbers(f)| + 1
  {
    assert forall j: nat :: KindAt(f', j) == KindAt(f, j);
    hide KindAt;
    assert LostNumbers(f') == LostNumbers(f) + {i};
  }

  // A number more that the new inode uses.
  lemma NumberUsed(f: Fs, f': Fs, i: nat, kind: Kind)
    requires Shape(f) && Shape(f') && OneNumberMore(f, f', i) && kind != Absent
    requires forall j: nat :: KindAt(f', j) == if j == i then kind else KindAt(f, j)
    ensures LostNumbers(f') == LostNumbers(f)
  {
    hide KindAt;
  }

  lemma CallAccount(f: Fs, f': Fs, r: int, parent: seq<Name>, name: Name, kind: Kind)
    requires Inv(f) && Shape(f') && kind != Absent
    requires r == 0 <==> CanBind(f, parent, name)
    requires r == 0 ==> exists i: nat ::
               Made(f, f', Target(f, parent).value, name, i, kind) && OneNumberMore(f, f', i)
    requires r != 0 ==> f'.inodes == f.inodes
    requires r != 0 ==> if LosesNumber(f, parent, name) then exists i: nat :: OneNumberMore(f, f', i) else f' == f
    ensures |LostNumbers(f')| == |LostNumbers(f)| + if LosesNumber(f, parent, name) then 1 else 0
  {
    hide KindAt, Target, HasRoom, Binds, BlocksOk, EntriesOk, Charged, SameFiles, AddsName, Bound, LostNumbers;
    if r == 0 {
      var i: nat :| Made(f, f', Target(f, parent).value, name, i, kind) && OneNumberMore(f, f', i);
      NumberUsed(f, f', i, kind);
    } else if LosesNumber(f, parent, name) {
      var i: nat :| OneNumberMore(f, f', i);
      NumberLost(f, f', i);
    }
  }

  lemma StepAccount(f: Fs, op: Op)
    requires Inv(f)
    ensures var f' := Step(f, op).0;
            && Shape(f')
            && |LostNumbers(f')| == |LostNumbers(f)| + (if OpLosesNumber(f, op) then 1 else 0)
            && |LostBlocks(f')| == |LostBlocks(f)| + if OpLosesBlock(f, op) then 1 else 0
  {
    hide InodesOk, BlocksOk, EntriesOk, Charged, CanBind, KindAt, Target, LosesNumber, LosesBlock, LostBlocks,
      LostNumbers, Made, Mkdir, Create, Write, OnlyThisFile, SamePaths, OneNumberMore;
    match op
    case OpMkdir(parent, name, mode) =>
      MkdirMakes(f, parent, name, mode);
      var (f', r) := Mkdir(f, parent, name, mode);
      CallAccount(f, f', r, parent, name, MadeKind(IFDIR, mode));
    case OpCreate(parent, name, mode) =>
      CreateMakes(f, parent, name, mode);
      var (f', r) := Create(f, parent, name, mode);
      CallAccount(f, f', r, parent, name, MadeKind(IFREG, mode));
    case OpWrite(path, buf, offset) =>
      WriteKeepsTheRest(f, path, buf, offset);
      SamePathsSameNumbers(f, Write(f, path, buf, offset).0);
  }

  lemma SamePathsSameNumbers(f: Fs, f': Fs)
    requires Inv(f) && Inv(f') && SamePaths(f, f') && f'.ibits == f.ibits
    ensures LostNumbers(f') == LostNumbers(f)
  {
    hide InodesOk, BlocksOk, EntriesOk, Charged, KindAt, Target;
  }

  lemma {:induction false} LossesAddUp(ops: seq<Op>)
    ensures |LostNumbers(After(ops))| == NumbersLost(ops) && |LostBlocks(After(ops))| == BlocksLost(ops)
  {
    hide LostNumbers, LostBlocks, OpLosesNumber, OpLosesBlock, Step, InodesOk, BlocksOk, EntriesOk, Charged;
    if ops == [] {
      MkfsLosesNothing();
    } else {
      LossesAddUp(ops[..|ops| - 1]);
      StepAccount(After(ops[..|ops| - 1]), ops[|ops| - 1]);
    }
  }

  lemma MkfsLosesNothing()
    ensures Shape(Mkfs()) && LostNumbers(Mkfs()) == {} && LostBlocks(Mkfs()) == {}
  {
    hide KindAt;
    MkfsView(Mkfs());
    MkfsInodes();
    assert Owns(Mkfs(), 0, 0, 0);
  }

  ghost function MarkedNumbers(f: Fs): set<nat>
    requires Shape(f)
  {
    set i: nat | i < MAX_INUM && f.ibits[i]
  }

  ghost function UsedNumbers(f: Fs): set<nat>
    requires Shape(f)
  {
    set i: nat | i < MAX_INUM && KindAt(f, i) != Absent
  }

  ghost function MarkedBlocks(f: Fs): set<nat>
    requires Shape(f)
  {
    set b: nat | b < MAX_DNUM && f.dbits[b]
  }

  ghost function UsedBlocks(f: Fs): set<nat>
    requires Shape(f)
  {
    set b: nat | b < MAX_DNUM && InSomeSlot(f, b)
  }

  // After any run the marked inode numbers are those in use and one for each call that failed
  // after taking one; the marked blocks are those in some slot and one for each call that found
  // its directory full.
  lemma AccountOfRun(ops: seq<Op>)
    ensures |MarkedNumbers(After(ops))| == |UsedNumbers(After(ops))| + NumbersLost(ops)
    ensures |MarkedBlocks(After(ops))| == |UsedBlocks(After(ops))| + BlocksLost(ops)
  {
    hide After, Inv, MarkedNumbers, UsedNumbers, LostNumbers, MarkedBlocks, UsedBlocks, LostBlocks;
    LossesAddUp(ops);
    AccountOf(After(ops));
  }

  lemma AccountOf(f: Fs)
    requires Inv(f)
    ensures |MarkedNumbers(f)| == |UsedNumbers(f)| + |LostNumbers(f)|
    ensures |MarkedBlocks(f)| == |UsedBlocks(f)| + |LostBlocks(f)|
  {
    hide EntriesOk, Charged, KindAt, Owns, InSomeSlot;
    assert MarkedNumbers(f) == UsedNumbers(f) + LostNumbers(f);
    assert UsedNumbers(f) !! LostNumbers(f);
    SlotsAreMarked(f);
    assert MarkedBlocks(f) == UsedBlocks(f) + LostBlocks(f);
    assert UsedBlocks(f) !! LostBlocks(f);
  }

  lemma SlotsAreMarked(f: Fs)
    requires Consistent(f)
    ensures forall b: nat :: InSomeSlot(f, b) ==> b < MAX_DNUM && f.dbits[b]
  {
    hide KindAt, Owns, InodesOk, EntriesOk;
  }

  // ----- the tree -----

  ghost predicate AllReachable(f: Fs)
    requires Sound(f)
  {
    forall i: nat :: KindAt(f, i) != Absent ==> exists p: seq<Name> :: Target(f, p) == Some(i)
  }

  lemma OnePathMoreReachable(f: Fs, f': Fs, path: seq<Name>, kind: Kind)
    requires Inv(f) && Inv(f') && OnePathMore(f, f', path, kind) && AllReachable(f)
    ensures AllReachable(f')
  {
    hide KindAt, Target, Child, InodesOk, BlocksOk, EntriesOk, SizeAt;
    forall i: nat | KindAt(f', i) != Absent
      ensures exists p: seq<Name> :: Target(f', p) == Some(i)
    {
      if Some(i) != Target(f', path) {
        var p: seq<Name> :| Target(f, p) == Some(i);
        assert Target(f', p) == Some(i);
      }
    }
  }

  lemma SamePathsReachable(f: Fs, f': Fs)
    requires Inv(f) && Inv(f') && SamePaths(f, f') && AllReachable(f)
    ensures AllReachable(f')
  {
    hide KindAt, Target, InodesOk, BlocksOk, EntriesOk;
    forall i: nat | KindAt(f', i) != Absent
      ensures exists p: seq<Name> :: Target(f', p) == Some(i)
    {
      var p: seq<Name> :| Target(f, p) == Some(i);
      assert Target(f', p) == Some(i);
    }
  }

  lemma {:induction false} RunReachable(ops: seq<Op>)
    ensures AllReachable(After(ops))
  {
    hide KindAt, Target, OnePathMore, SamePaths, AllReachable, SameFiles, OnlyThisFile, InodesOk, BlocksOk, EntriesOk,
      Mkdir, Create, Write;
    if ops == [] {
      MkfsReachable();
    } else {
      var f := After(ops[..|ops| - 1]);
      RunReachable(ops[..|ops| - 1]);
      match ops[|ops| - 1]
      case OpMkdir(parent, name, mode) =>
        MkdirAddsPath(f, parent, name, mode);
        var (f', r) := Mkdir(f, parent, name, mode);
        if r == 0 {
          OnePathMoreReachable(f, f', parent + [name], MadeKind(IFDIR, mode));
        } else {
          SamePathsReachable(f, f');
        }
      case OpCreate(parent, name, mode) =>
        CreateAddsPath(f, parent, name, mode);
        var (f', r) := Create(f, parent, name, mode);
        if r == 0 {
          OnePathMoreReachable(f, f', parent + [name], MadeKind(IFREG, mode));
        } else {
          SamePathsReachable(f, f');
        }
      case OpWrite(path, buf, offset) =>
        WriteKeepsTheRest(f, path, buf, offset);
        SamePathsReachable(f, Write(f, path, buf, offset).0);
    }
  }

  lemma MkfsReachable()
    ensures Sound(Mkfs()) && AllReachable(Mkfs())
  {
    hide KindAt, Consistent;
    MkfsView(Mkfs());
    assert Target(Mkfs(), []) == Some(0);
  }

  // The namespace is a tree: every inode in use is at exactly one path.
  lemma EveryInodeHasOnePath(ops: seq<Op>, i: nat)
    requires i < MAX_INUM && After(ops).inodes[i].valid != 0
    ensures exists p: seq<Name> ::
              && Lookup(After(ops), p) == Some(After(ops).inodes[i])
              && forall q: seq<Name> :: Lookup(After(ops), q) == Some(After(ops).inodes[i]) ==> q == p
  {
    hide After, Target, Lookup, BlocksOk, EntriesOk, KindAt;
    var f := After(ops);
    RunReachable(ops);
    KindInUse(f);
    var p: seq<Name> :| Target(f, p) == Some(i);
    LookupFollowsBindings(f, p);
    forall q: seq<Name> | Lookup(f, q) == Some(f.inodes[i])
      ensures q == p
    {
      LookupFollowsBindings(f, q);
      assert f.inodes[i].ino == i;
      PathsAreUnique(f, q, p);
    }
    assert Lookup(f, p) == Some(f.inodes[i]);
  }
}
