// Runs on the disk itself, from mkfs on a zeroed disk.
module RufsExecution {
  import opened Bytes
  import opened RufsLayout
  import opened RufsState
  import opened RufsInvariants
  import opened RufsAccount
  import opened RufsRuns
  import opened RufsTree
  import opened RufsRefinement
  import opened RufsOnDisk

  method Perform(disk: RufsDisk, op: Op) returns (r: int)
    requires disk.Valid() && Inv(disk.View())
    modifies disk.blocks
    ensures (disk.View(), r) == Step(old(disk.View()), op) && Inv(disk.View())
    ensures disk.blocks[0] == old(disk.blocks[0])
  {
    hide Inv;
    StepInv(disk.View(), op);
    match op {
      case OpMkdir(parent, name, mode) => r := disk.Mkdir(parent, name, mode);
      case OpCreate(parent, name, mode) => r := disk.Create(parent, name, mode);
      case OpWrite(path, buf, offset) => r := disk.Write(path, buf, offset);
    }
  }

  // Every call on the disk returns what it returns on the tree.
  method PerformRun(ops: seq<Op>) returns (disk: RufsDisk, results: seq<int>)
    ensures fresh(disk) && fresh(disk.blocks) && disk.Valid() && disk.View() == After(ops)
    ensures IsSuperblock(disk.blocks[0])
    ensures |results| == |ops|
    ensures forall k :: 0 <= k < |ops| ==> results[k] == TreeStep(TreeAfter(ops[..k]), ops[k]).1
  {
    hide Inv, Step, TreeStep, TreeAfter, Decoded, IsSuperblock;
    disk := new RufsDisk();
    disk.Mkfs();
    results := [];
    for i := 0 to |ops|
      invariant fresh(disk) && fresh(disk.blocks) && disk.Valid()
      invariant disk.View() == After(ops[..i]) && |results| == i && IsSuperblock(disk.blocks[0])
      invariant forall k :: 0 <= k < i ==> results[k] == TreeStep(TreeAfter(ops[..k]), ops[k]).1
    {
      assert ops[..i + 1][..i] == ops[..i];
      ReturnsAsTree(ops[..i], ops[i]);
      var r := Perform(disk, ops[i]);
      results := results + [r];
    }
    assert ops[..|ops|] == ops;
  }

  // And a read afterwards gets the bytes that the tree holds.
  method ReadAfterRun(disk: RufsDisk, ghost ops: seq<Op>, path: seq<Name>, buffer: array<Byte>, size: nat, offset: nat)
      returns (r: int)
    requires disk.Valid() && disk.View() == After(ops) && size <= buffer.Length
    modifies buffer
    ensures var (bs, n) := TreeRead(TreeAfter(ops), path, size, offset);
            |bs| <= size && r == n && buffer[..] == Overlay(old(buffer[..]), 0, bs)
  {
    hide Inv, Decoded, TreeRead, TreeAfter;
    ReadsAsTree(ops, path, size, offset);
    r := disk.Read(path, buffer, size, offset);
  }

  // Getattr returns, bit by bit, the mode that the tree has.
  method GetattrAfterRun(disk: RufsDisk, ghost ops: seq<Op>, path: seq<Name>) returns (mode: nat, r: int)
    requires disk.Valid() && disk.View() == After(ops)
    ensures var t := TreeAfter(ops);
            if path in t.nodes then r == 0 && BitSet(mode) == t.nodes[path].mode else r == -ENOENT
  {
    hide Decoded, TreeAfter, BitSet, InodesOk, BlocksOk, EntriesOk, Charged;
    AttrAsTree(ops, path);
    mode, r := disk.Getattr(path);
  }
}
