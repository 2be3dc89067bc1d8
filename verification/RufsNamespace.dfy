// Paths: get_node_by_path walks the directory bindings, the bindings form a tree, and mkdir and
// create add exactly one path to it.
module RufsNamespace {
  import opened Wrappers
  import opened Bytes
  import opened RufsLayout
  import opened RufsState
  import opened RufsInvariants
  import opened RufsDirectories

  // ----- what a path leads to -----

  // The inode that directory d has under name.
  ghost function Child(f: Fs, d: nat, name: Name): (r: Option<nat>)
    requires Sound(f)
    ensures r.Some? ==> KindAt(f, r.value) != Absent
  {
    if KindAt(f, d) == Directory && DirFind(f, d, name).Some? && KindAt(f, DirFind(f, d, name).value.ino) != Absent then
      Some(DirFind(f, d, name).value.ino)
    else None
  }

  // The inode number a path leads to from the root.
  ghost function Target(f: Fs, path: seq<Name>): (r: Option<nat>)
    requires Sound(f)
    decreases |path|
  {
    if |path| == 0 then Some(0)
    else
      match Target(f, path[..|path| - 1])
      case None => None
      case Some(d) => Child(f, d, path[|path| - 1])
  }

  // get_node_by_path returns the inode that the bindings lead to, and fails when they lead nowhere.
  lemma {:induction false} LookupFollowsBindings(f: Fs, path: seq<Name>)
    requires Consistent(f)
    ensures Target(f, path).Some? ==>
              && KindAt(f, Target(f, path).value) != Absent
              && Lookup(f, path) == Some(f.inodes[Target(f, path).value])
    ensures Target(f, path).None? ==> Lookup(f, path) == None
    decreases |path|
  {
    hide BlocksOk, EntriesOk, DirFind;
    if |path| > 0 {
      LookupFollowsBindings(f, path[..|path| - 1]);
    }
  }

  // A child is bound in one directory only, under one name only, and is never the root.
  lemma ChildIsUnique(f: Fs, d: nat, n: Name, e: nat, m: Name)
    requires Consistent(f) && Child(f, d, n).Some? && Child(f, d, n) == Child(f, e, m)
    ensures d == e && n == m && Child(f, d, n) != Some(0)
  {
    hide KindAt, Entry, DirFind, InodesOk, BlocksOk;
    DirFindFinds(f, d, n);
    DirFindFinds(f, e, m);
    var a: nat :| Named(f, d, a, n);
    var b: nat :| Named(f, e, b, m);
    assert Bound(f, d, a, Child(f, d, n).value) && Bound(f, e, b, Child(f, d, n).value);
    assert n == Entry(f, d, a).value.name[..|n|];
  }

  // Two paths to the same inode are the same path: the namespace is a tree.
  lemma {:induction false} PathsAreUnique(f: Fs, p: seq<Name>, q: seq<Name>)
    requires Consistent(f) && Target(f, p).Some? && Target(f, p) == Target(f, q)
    ensures p == q
    decreases |p|
  {
    hide Child, InodesOk, BlocksOk, EntriesOk, KindAt;
    if |p| > 0 && |q| > 0 {
      var p0, q0 := p[..|p| - 1], q[..|q| - 1];
      ChildIsUnique(f, Target(f, p0).value, p[|p| - 1], Target(f, q0).value, q[|q| - 1]);
      PathsAreUnique(f, p0, q0);
      assert p == p0 + [p[|p| - 1]] && q == q0 + [q[|q| - 1]];
    } else if |p| > 0 {
      ChildIsUnique(f, Target(f, p[..|p| - 1]).value, p[|p| - 1], Target(f, p[..|p| - 1]).value, p[|p| - 1]);
    } else if |q| > 0 {
      ChildIsUnique(f, Target(f, q[..|q| - 1]).value, q[|q| - 1], Target(f, q[..|q| - 1]).value, q[|q| - 1]);
    }
  }

  // ----- one new binding -----

  // Directory d now binds name to i, which was not in use and now is of this kind; everything else
  // is as before.
  ghost predicate Made(f: Fs, f': Fs, d: nat, name: seq<Byte>, i: nat, kind: Kind)
    requires Shape(f) && Shape(f')
  {
    && kind != Absent && KindAt(f, i) == Absent
    && (forall j: nat :: KindAt(f', j) == if j == i then kind else KindAt(f, j))
    && SameFiles(f, f') && (forall c: nat, n: nat :: !Bound(f, c, n, i))
    && exists n: nat, e: Dirent :: AddsName(f, f', d, n, e, name, i)
  }

  // dir_find after the new binding, for every directory and every name.
  lemma FoundAfterMade(f: Fs, f': Fs, d: nat, name: Name, i: nat, kind: Kind, e: nat, m: Name)
    requires Consistent(f) && Consistent(f') && Made(f, f', d, name, i, kind)
    requires KindAt(f, e) == Directory && KindAt(f', e) == Directory
    ensures e == d && m == name ==> DirFind(f', e, m).Some? && DirFind(f', e, m).value.ino == i
    ensures !(e == d && m == name) ==> DirFind(f', e, m) == DirFind(f, e, m)
  {
    hide KindAt, Entry, DirFind, InodesOk, BlocksOk, EntriesOk, Bound, Matches;
    DirFindFinds(f, e, m);
    DirFindFinds(f', e, m);
    NamedAfterMade(f, f', d, name, i, kind);
    if DirFind(f', e, m).Some? {
      var a: nat :| Named(f', e, a, m);
    }
    if DirFind(f, e, m).Some? {
      var a: nat :| Named(f, e, a, m);
      assert Named(f', e, a, m);
    }
  }

  lemma NamedAfterMade(f: Fs, f': Fs, d: nat, name: seq<Byte>, i: nat, kind: Kind)
    requires Shape(f) && Shape(f') && Made(f, f', d, name, i, kind)
    ensures exists n: nat :: Named(f', d, n, name) && Entry(f', d, n).value.ino == i
    ensures forall c: nat, n: nat, m: seq<Byte> :: Named(f, c, n, m) ==>
        Named(f', c, n, m) && Entry(f', c, n) == Entry(f, c, n)
    ensures forall c: nat, n: nat, m: seq<Byte> :: Named(f', c, n, m) && !(c == d && m == name) ==> Named(f, c, n, m)
  {
    hide KindAt, Entry, Bound, Matches, SameFiles;
    var n: nat, e: Dirent :| AddsName(f, f', d, n, e, name, i);
    assert Entry(f', d, n) == Some(e) && Matches(e, name);
    assert Named(f', d, n, name);
    forall c: nat, k: nat, m: seq<Byte>
      ensures Named(f, c, k, m) ==> Named(f', c, k, m) && Entry(f', c, k) == Entry(f, c, k)
      ensures Named(f', c, k, m) && !(c == d && m == name) ==> Named(f, c, k, m)
    {
      assert Entry(f', c, k) == if c == d && k == n then Some(e) else Entry(f, c, k);
    }
  }

  // One step of a path before and after the new binding.
  lemma ChildAfterMade(f: Fs, f': Fs, d: nat, name: Name, i: nat, kind: Kind, e: nat, m: Name)
    requires Consistent(f) && Consistent(f') && Made(f, f', d, name, i, kind) && KindAt(f, d) == Directory
    ensures e == d && m == name ==> Child(f', e, m) == Some(i)
    ensures !(e == d && m == name) ==> Child(f', e, m) == Child(f, e, m)
  {
    hide Entry, KindAt, DirFind, InodesOk, BlocksOk, EntriesOk, Matches;
    if KindAt(f, e) == Directory {
      FoundAfterMade(f, f', d, name, i, kind, e, m);
      DirFindFinds(f, e, m);
      if DirFind(f, e, m).Some? {
        var n: nat :| Named(f, e, n, m);
        assert DirFind(f, e, m).value.ino != i by {
          assert !Bound(f, e, n, i);
        }
      }
    } else if KindAt(f', e) == Directory {
      NamedAfterMade(f, f', d, name, i, kind);
      DirFindFinds(f', e, m);
      NoEntriesElsewhere(f, e);
      assert DirFind(f', e, m).None?;
    }
  }

  lemma NoEntriesElsewhere(f: Fs, e: nat)
    requires Shape(f) && KindAt(f, e) != Directory
    ensures forall n: nat, m: seq<Byte> :: !Named(f, e, n, m)
  {
  }

  // The path to the new binding leads to the new inode; every other path leads where it led before.
  lemma {:induction false} PathsAfterMade(f: Fs, f': Fs, parent: seq<Name>, d: nat, name: Name, i: nat, kind: Kind,
      p: seq<Name>)
    requires Consistent(f) && Consistent(f') && Made(f, f', d, name, i, kind) && KindAt(f, d) == Directory
    requires Target(f, parent) == Some(d) && forall j: nat :: !Binds(f, d, name, j)
    ensures Target(f', p) == if p == parent + [name] then Some(i) else Target(f, p)
    ensures p == parent + [name] ==> Target(f, p) == None
    decreases |p|
  {
    hide Child, Consistent, Made, KindAt, Binds;
    assert Consistent(f) && Sound(f) && Sound(f') by { InvIsSound(f); InvIsSound(f'); }
    if |p| > 0 {
      var q, m := p[..|p| - 1], p[|p| - 1];
      assert p == q + [m];
      PathsAfterMade(f, f', parent, d, name, i, kind, q);
      NewChild(f, d, name);
      if q == parent + [name] {
        EmptyChild(f, f', d, name, i, kind, m);
      } else if Target(f, q).Some? {
        ChildAfterMade(f, f', d, name, i, kind, Target(f, q).value, m);
        if Target(f, q).value == d {
          PathsAreUnique(f, q, parent);
        }
      }
      assert p == parent + [name] <==> q == parent && m == name;
    }
  }

  lemma InvIsSound(f: Fs)
    requires Consistent(f)
    ensures Sound(f)
  {
  }

  lemma NewChild(f: Fs, d: nat, name: Name)
    requires Consistent(f) && forall j: nat :: !Binds(f, d, name, j)
    ensures Child(f, d, name) == None
  {
    hide Binds, DirFind;
    if KindAt(f, d) == Directory && DirFind(f, d, name).Some? {
      DirFindIsMap(f, d, name, DirFind(f, d, name).value.ino);
    }
  }

  // The new inode has no children.
  lemma EmptyChild(f: Fs, f': Fs, d: nat, name: Name, i: nat, kind: Kind, m: Name)
    requires Consistent(f) && Consistent(f') && Made(f, f', d, name, i, kind) && KindAt(f, d) == Directory
    ensures Child(f', i, m) == None
  {
    hide DirFind, Consistent;
    InvIsSound(f);
    InvIsSound(f');
    ChildAfterMade(f, f', d, name, i, kind, i, m);
  }
}
