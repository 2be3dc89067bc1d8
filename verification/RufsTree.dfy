// What the file system is for, without a disk: a tree of paths, with files of at most 16 blocks.
module RufsTree {
  import opened Bytes
  import opened RufsLayout
  import opened RufsState
  import opened RufsInvariants
  import opened RufsFiles
  import opened RufsReadWrite
  import opened RufsRuns

  // A file: its length, the bytes of all the blocks it can have, and the blocks it has.
  datatype FileData = FileData(size: nat, bytes: seq<Byte>, blocks: set<nat>)

  predicate IsFileData(x: FileData) {
    |x.bytes| == FILE_MAX && forall k :: k in x.blocks ==> k < DIRECT
  }

  function Blank(): (x: FileData)
    ensures IsFileData(x)
  {
    FileData(0, Zeros(FILE_MAX), {})
  }

  type File = x: FileData | IsFileData(x) witness Blank()

  // The mode of a node is the set of its bits. Special stands for an inode that is neither a directory
  // nor a file.
  datatype Node = Folder(mode: set<nat>) | Plain(mode: set<nat>, file: File) | Special(mode: set<nat>)

  // The nodes at their paths, and how many inode numbers have not been taken.
  datatype Tree = Tree(nodes: map<seq<Name>, Node>, numbers: nat)

  datatype FileWrite = FileWrite(buf: seq<Byte>, offset: nat)

  // rufs_mkfs: one directory with mode 040755
  const Root: Tree := Tree(map[[] := Folder(BitSet(0x41ED))], MAX_INUM - 1)

  // ----- files -----

  function Stored(w: FileWrite): (r: nat)
    ensures r <= |w.buf| && (r > 0 ==> w.offset + r <= FILE_MAX)
  {
    if w.offset < FILE_MAX then Min(FILE_MAX - w.offset, |w.buf|) else 0
  }

  function AfterWrite(x: File, w: FileWrite): File {
    var r := Stored(w);
    FileData(if w.offset + r > x.size then (w.offset + r) % WORD_LIMIT else x.size,
             seq(FILE_MAX, q requires 0 <= q < FILE_MAX =>
               if w.offset <= q < w.offset + r then w.buf[q - w.offset] else x.bytes[q]),
             x.blocks + set k: nat | k < DIRECT && Touched(k, w.offset, r))
  }

  function AfterWrites(ws: seq<FileWrite>): File {
    if ws == [] then Blank() else AfterWrite(AfterWrites(ws[..|ws| - 1]), ws[|ws| - 1])
  }

  function ReadFile(x: File, size: nat, offset: nat): seq<Byte> {
    if offset >= x.size then []
    else
      var r := Reach(x.blocks, offset, Min(offset + size, x.size) - offset);
      if 0 < r && offset + r <= FILE_MAX then x.bytes[offset..offset + r] else []
  }

  // ----- the operations -----

  ghost function Children(t: Tree, p: seq<Name>): set<seq<Name>> {
    set q | q in t.nodes && |q| > 0 && q[..|q| - 1] == p
  }

  predicate IsFolder(t: Tree, p: seq<Name>) {
    p in t.nodes && t.nodes[p].Folder?
  }

  predicate IsFile(t: Tree, p: seq<Name>) {
    p in t.nodes && t.nodes[p].Plain?
  }

  // The name is new and fits.
  predicate NewName(t: Tree, parent: seq<Name>, name: Name) {
    |name| <= NAME_MAX && parent + [name] !in t.nodes
  }

  ghost predicate CanMake(t: Tree, parent: seq<Name>, name: Name) {
    IsFolder(t, parent) && t.numbers > 0 && NewName(t, parent, name) && |Children(t, parent)| < SLOTS
  }

  // A number is taken for every attempt in a folder, whether or not the node can be made.
  ghost function Make(t: Tree, parent: seq<Name>, name: Name, node: Node): Tree {
    if !IsFolder(t, parent) || t.numbers == 0 then t
    else
      Tree(if CanMake(t, parent, name) then t.nodes[parent + [name] := node] else t.nodes, t.numbers - 1)
  }

  // Bit by bit, its mode is the type or the argument.
  function NewNode(kind: nat, mode: ModeArg): Node
    requires kind == IFDIR || kind == IFREG
  {
    var bits := BitSet(kind) + BitSet(mode);
    match MadeKind(kind, mode)
    case Directory => Folder(bits)
    case Regular => Plain(bits, Blank())
    case _ => Special(bits)
  }

  ghost function TreeStep(t: Tree, op: Op): (r: (Tree, int)) {
    match op
    case OpMkdir(parent, name, mode) =>
      (Make(t, parent, name, NewNode(IFDIR, mode)),
       if parent !in t.nodes then -ENOENT else if CanMake(t, parent, name) then 0 else -1)
    case OpCreate(parent, name, mode) =>
      (Make(t, parent, name, NewNode(IFREG, mode)),
       if parent !in t.nodes then -ENOENT
       else if !t.nodes[parent].Folder? then -ENOTDIR
       else if t.numbers == 0 then -ENOSPC
       else if CanMake(t, parent, name) then 0 else -EIO)
    case OpWrite(path, buf, offset) =>
      if path !in t.nodes then (t, -ENOENT)
      else if !t.nodes[path].Plain? then (t, -EISDIR)
      else
        var w := FileWrite(buf, offset);
        (t.(nodes := t.nodes[path := t.nodes[path].(file := AfterWrite(t.nodes[path].file, w))]), Stored(w))
  }

  function TreeRead(t: Tree, path: seq<Name>, size: nat, offset: nat): (r: (seq<Byte>, int)) {
    if path !in t.nodes then ([], -ENOENT)
    else if !t.nodes[path].Plain? then ([], -EISDIR)
    else
      var bs := ReadFile(t.nodes[path].file, size, offset);
      (bs, |bs|)
  }

  ghost function TreeAfter(ops: seq<Op>): Tree {
    if ops == [] then Root else TreeStep(TreeAfter(ops[..|ops| - 1]), ops[|ops| - 1]).0
  }

  lemma StepKeepsMode(t: Tree, op: Op, p: seq<Name>)
    requires p in t.nodes
    ensures var t' := TreeStep(t, op).0; p in t'.nodes && t'.nodes[p].mode == t.nodes[p].mode
  {
    hide AfterWrite, BitSet;
  }

  // A node keeps the mode it was made with.
  lemma {:induction false} ModeStays(ops: seq<Op>, more: seq<Op>, p: seq<Name>)
    requires p in TreeAfter(ops).nodes
    ensures p in TreeAfter(ops + more).nodes && TreeAfter(ops + more).nodes[p].mode == TreeAfter(ops).nodes[p].mode
    decreases |more|
  {
    hide TreeStep, Root;
    if more == [] {
      assert ops + more == ops;
    } else {
      var rest := more[..|more| - 1];
      ModeStays(ops, rest, p);
      assert (ops + more)[..|ops + more| - 1] == ops + rest;
      StepKeepsMode(TreeAfter(ops + rest), more[|more| - 1], p);
    }
  }

  // ----- a file is its writes -----

  // The writes made to the file at p since it was created.
  ghost function WritesTo(ops: seq<Op>, p: seq<Name>): seq<FileWrite> {
    if ops == [] then []
    else
      var op := ops[|ops| - 1];
      WritesTo(ops[..|ops| - 1], p)
      + if op.OpWrite? && op.path == p && IsFile(TreeAfter(ops[..|ops| - 1]), p) then [FileWrite(op.buf, op.offset)]
        else []
  }

  // A step creates the file at p as an empty one, writes to it, or leaves it alone.
  lemma FileAfterStep(t: Tree, op: Op, p: seq<Name>)
    ensures var t' := TreeStep(t, op).0;
            if IsFile(t, p) then
              && IsFile(t', p)
              && t'.nodes[p].file ==
                   if op.OpWrite? && op.path == p then AfterWrite(t.nodes[p].file, FileWrite(op.buf, op.offset))
                   else t.nodes[p].file
            else IsFile(t', p) ==> t'.nodes[p].file == Blank()
  {
    hide AfterWrite, Blank;
  }

  lemma {:induction false} FileIsItsWrites(ops: seq<Op>, p: seq<Name>)
    ensures IsFile(TreeAfter(ops), p) ==> TreeAfter(ops).nodes[p].file == AfterWrites(WritesTo(ops, p))
    ensures !IsFile(TreeAfter(ops), p) ==> WritesTo(ops, p) == []
  {
    hide AfterWrite, Blank, TreeStep;
    if ops != [] {
      var t, op := TreeAfter(ops[..|ops| - 1]), ops[|ops| - 1];
      FileIsItsWrites(ops[..|ops| - 1], p);
      FileAfterStep(t, op, p);
      var ws := WritesTo(ops[..|ops| - 1], p);
      if op.OpWrite? && op.path == p && IsFile(t, p) {
        assert (ws + [FileWrite(op.buf, op.offset)])[..|ws|] == ws;
      } else {
        assert WritesTo(ops, p) == ws;
      }
    }
  }

  // Each write starts inside the file or at its end.
  ghost predicate Sequential(ws: seq<FileWrite>) {
    ws == [] || (Sequential(ws[..|ws| - 1]) && ws[|ws| - 1].offset <= AfterWrites(ws[..|ws| - 1]).size)
  }

  // The file holds these bytes and no block of it is left out.
  ghost predicate HoldsAll(x: File, c: seq<Byte>) {
    && x.size == |c| <= FILE_MAX && (forall q :: 0 <= q < |c| ==> x.bytes[q] == c[q])
    && forall k: nat :: BLOCK * k < x.size ==> k in x.blocks
  }

  lemma WriteHoldsAll(x: File, c: seq<Byte>, w: FileWrite)
    requires HoldsAll(x, c) && w.offset <= |c|
    ensures HoldsAll(AfterWrite(x, w), Splice(c, w.offset, w.buf[..Stored(w)]))
  {
    var y := AfterWrite(x, w);
    forall k: nat | BLOCK * k < y.size
      ensures k in y.blocks
    {
      if k !in x.blocks {
        assert Touched(k, w.offset, Stored(w));
      }
    }
  }

  // The writes applied to a plain sequence of bytes, each over the older ones.
  ghost function Spliced(ws: seq<FileWrite>): (c: seq<Byte>) {
    if ws == [] then []
    else
      var c, w := Spliced(ws[..|ws| - 1]), ws[|ws| - 1];
      if w.offset <= |c| then Splice(c, w.offset, w.buf[..Stored(w)]) else c
  }

  // Sequential writes leave no block out, and the file is the bytes written.
  lemma {:induction false} SequentialFile(ws: seq<FileWrite>)
    requires Sequential(ws)
    ensures HoldsAll(AfterWrites(ws), Spliced(ws))
  {
    hide HoldsAll, AfterWrite, Splice, Stored;
    if ws == [] {
      BlankHoldsAll();
    } else {
      SequentialFile(ws[..|ws| - 1]);
      SizeHeld(AfterWrites(ws[..|ws| - 1]), Spliced(ws[..|ws| - 1]));
      WriteHoldsAll(AfterWrites(ws[..|ws| - 1]), Spliced(ws[..|ws| - 1]), ws[|ws| - 1]);
    }
  }

  lemma BlankHoldsAll()
    ensures HoldsAll(Blank(), [])
  {
  }

  lemma SizeHeld(x: File, c: seq<Byte>)
    requires HoldsAll(x, c)
    ensures x.size == |c|
  {
  }

  // Such a file is read up to the end of the request or of the file.
  lemma SequentialRead(ws: seq<FileWrite>, size: nat, offset: nat)
    requires Sequential(ws)
    ensures var c := Spliced(ws);
            ReadFile(AfterWrites(ws), size, offset) ==
              if offset >= |c| then [] else c[offset..Min(offset + size, |c|)]
  {
    hide AfterWrites, Spliced;
    var x, c := AfterWrites(ws), Spliced(ws);
    SequentialFile(ws);
    if offset < x.size {
      var end := Min(offset + size, x.size);
      ReachIs(x.blocks, offset, end - offset, end - offset);
      assert x.bytes[offset..end] == c[offset..end];
    }
  }
}
