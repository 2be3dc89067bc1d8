// How the directory, the page tables and the user's pages lie in one byte array: what a
// store to any of them changes in the view of the others.
module PhysicalMemory {
  import opened Bytes
  import opened PageTables
  import opened Allocation

  // PDE d: a word of frame 0.
  function Pde(m: seq<Byte>, d: nat): nat
    requires |m| == MEM && d < ENTRIES
  {
    Word(m, 4 * d)
  }

  // The value the two-level walk finds for virtual page v, 0 when there is no table or no entry.
  function Walk(m: seq<Byte>, v: nat): nat
    requires |m| == MEM && v < VPAGES
  {
    var pde := Pde(m, v / ENTRIES);
    if pde == 0 || pde + PAGE > MEM then 0 else Word(m, pde + 4 * (v % ENTRIES))
  }

  function Dir(m: seq<Byte>): (r: seq<nat>)
    requires |m| == MEM
    ensures |r| == ENTRIES && forall d :: 0 <= d < ENTRIES ==> r[d] == Pde(m, d)
  {
    seq(ENTRIES, d requires 0 <= d < ENTRIES => Pde(m, d))
  }

  function Pages(m: seq<Byte>): (r: seq<nat>)
    requires |m| == MEM
    ensures |r| == VPAGES && forall v :: 0 <= v < VPAGES ==> r[v] == Walk(m, v)
  {
    seq(VPAGES, v requires 0 <= v < VPAGES => Walk(m, v))
  }

  // The directory names distinct frames other than its own.
  ghost predicate TablesApart(m: seq<Byte>) {
    && |m| == MEM
    && (forall d :: 0 <= d < ENTRIES && Pde(m, d) != 0 ==> FrameAddress(Pde(m, d)))
    && (forall d, e :: 0 <= d < e < ENTRIES && Pde(m, d) != 0 ==> Pde(m, d) != Pde(m, e))
  }

  // m and m' agree on the frame at address p.
  ghost predicate SameFrame(m: seq<Byte>, m': seq<Byte>, p: nat)
    requires |m| == MEM && |m'| == MEM && p + PAGE <= MEM
  {
    forall i :: p <= i < p + PAGE ==> m[i] == m'[i]
  }

  // A page's view depends on the directory's frame and its table's frame only.
  lemma WalkOfSameFrames(m: seq<Byte>, m': seq<Byte>, v: nat)
    requires |m| == MEM && |m'| == MEM && v < VPAGES
    requires Pde(m', v / ENTRIES) == Pde(m, v / ENTRIES)
    requires var pde := Pde(m, v / ENTRIES); pde != 0 && pde + PAGE <= MEM ==> SameFrame(m, m', pde)
    ensures Walk(m', v) == Walk(m, v)
  {
    var pde := Pde(m, v / ENTRIES);
    if pde != 0 && pde + PAGE <= MEM {
      WordOfEqualBytes(m, m', pde + 4 * (v % ENTRIES));
    }
  }

  lemma DirOfSameFrame(m: seq<Byte>, m': seq<Byte>)
    requires |m| == MEM && |m'| == MEM && SameFrame(m, m', 0)
    ensures Dir(m') == Dir(m)
  {
    forall d | 0 <= d < ENTRIES
      ensures Pde(m', d) == Pde(m, d)
    {
      WordOfEqualBytes(m, m', 4 * d);
    }
  }

  // A store inside the frame at q leaves every other frame as it is.
  lemma StoreKeepsFrame(m: seq<Byte>, q: nat, off: nat, bs: seq<Byte>, p: nat)
    requires |m| == MEM && off + |bs| <= PAGE && q + PAGE <= MEM && p + PAGE <= MEM
    requires q % PAGE == 0 && p % PAGE == 0 && p != q
    ensures SameFrame(m, Overlay(m, q + off, bs), p)
  {
  }

  // Writing into a frame that is neither the directory's nor a table's: translation is undisturbed.
  lemma DataStore(m: seq<Byte>, p: nat, off: nat, bs: seq<Byte>)
    requires TablesApart(m) && FrameAddress(p) && off + |bs| <= PAGE
    requires forall d :: 0 <= d < ENTRIES ==> Pde(m, d) != p
    ensures var m' := Overlay(m, p + off, bs); Dir(m') == Dir(m) && Pages(m') == Pages(m)
  {
    hide Word, SameFrame;
    var m' := Overlay(m, p + off, bs);
    StoreKeepsFrame(m, p, off, bs, 0);
    DirOfSameFrame(m, m');
    forall v | 0 <= v < VPAGES
      ensures Walk(m', v) == Walk(m, v)
    {
      var pde := Pde(m, v / ENTRIES);
      assert Dir(m')[v / ENTRIES] == Dir(m)[v / ENTRIES];
      if pde != 0 {
        StoreKeepsFrame(m, p, off, bs, pde);
      }
      WalkOfSameFrames(m, m', v);
    }
  }

  // Storing PTE t of directory slot d changes the view of that one page.
  lemma PteStore(m: seq<Byte>, d: nat, t: nat, w: nat)
    requires TablesApart(m) && d < ENTRIES && t < ENTRIES && Pde(m, d) != 0 && w < WORD_LIMIT
    ensures var m' := Overlay(m, Pde(m, d) + 4 * t, WordBytes(w));
            Dir(m') == Dir(m) && Pages(m') == Pages(m)[ENTRIES * d + t := w]
  {
    hide Word, SameFrame, WordBytes;
    var p := Pde(m, d);
    var a := p + 4 * t;
    var m' := Overlay(m, a, WordBytes(w));
    StoreKeepsFrame(m, p, 4 * t, WordBytes(w), 0);
    DirOfSameFrame(m, m');
    WordAfterStore(m, a, w);
    forall v | 0 <= v < VPAGES
      ensures Walk(m', v) == if v == ENTRIES * d + t then w else Walk(m, v)
    {
      assert Dir(m')[v / ENTRIES] == Dir(m)[v / ENTRIES];
      if v / ENTRIES == d {
        assert v == ENTRIES * d + v % ENTRIES;
        var b := p + 4 * (v % ENTRIES);
        assert b == a || b + 4 <= a || a + 4 <= b;
      } else {
        var pde := Pde(m, v / ENTRIES);
        if pde != 0 {
          assert pde != p by {
            assert v / ENTRIES < d || d < v / ENTRIES;
          }
          StoreKeepsFrame(m, p, 4 * t, WordBytes(w), pde);
        }
        WalkOfSameFrames(m, m', v);
      }
    }
    assert Pages(m') == Pages(m)[ENTRIES * d + t := w];
  }

  // Linking a zeroed frame as the table of slot d adds a table and maps nothing.
  lemma LinkTable(m: seq<Byte>, d: nat, p: nat)
    requires TablesApart(m) && d < ENTRIES && Pde(m, d) == 0 && FrameAddress(p)
    requires forall e :: 0 <= e < ENTRIES ==> Pde(m, e) != p
    ensures var m' := Overlay(Overlay(m, p, Zeros(PAGE)), 4 * d, WordBytes(p));
            Dir(m') == Dir(m)[d := p] && Pages(m') == Pages(m) && TablesApart(m')
  {
    hide Word, SameFrame, WordBytes;
    var m1 := Overlay(m, p, Zeros(PAGE));
    var m' := Overlay(m1, 4 * d, WordBytes(p));
    DataStore(m, p, 0, Zeros(PAGE));
    WordAfterStore(m1, 4 * d, p);
    forall e | 0 <= e < ENTRIES
      ensures Pde(m', e) == if e == d then p else Pde(m, e)
    {
      assert Dir(m1)[e] == Dir(m)[e];
    }
    assert Dir(m') == Dir(m)[d := p];
    forall v | 0 <= v < VPAGES
      ensures Walk(m', v) == Walk(m, v)
    {
      assert Pages(m1)[v] == Pages(m)[v];
      var pde := Pde(m', v / ENTRIES);
      if pde != 0 {
        StoreKeepsFrame(m1, 0, 4 * d, WordBytes(p), pde);
      }
      if v / ENTRIES == d {
        ZeroedTable(m, m1, m', p, v % ENTRIES);
      } else {
        assert Pde(m1, v / ENTRIES) == pde;
        WalkOfSameFrames(m1, m', v);
      }
    }
    assert Pages(m') == Pages(m);
  }

  lemma ZeroedTable(m: seq<Byte>, m1: seq<Byte>, m': seq<Byte>, p: nat, t: nat)
    requires |m| == MEM && p + PAGE <= MEM && t < ENTRIES && m1 == Overlay(m, p, Zeros(PAGE))
    requires |m'| == MEM && SameFrame(m1, m', p)
    ensures Word(m', p + 4 * t) == 0
  {
    var a := p + 4 * t;
    assert m1[a] == 0 && m1[a + 1] == 0 && m1[a + 2] == 0 && m1[a + 3] == 0;
    WordOfEqualBytes(m1, m', a);
  }

  // Unlinking the table of slot d once none of its pages is mapped, and zeroing it.
  lemma UnlinkTable(m: seq<Byte>, d: nat)
    requires TablesApart(m) && d < ENTRIES && Pde(m, d) != 0
    requires forall v :: 0 <= v < VPAGES && v / ENTRIES == d ==> Walk(m, v) == 0
    ensures var m' := Overlay(Overlay(m, 4 * d, WordBytes(0)), Pde(m, d), Zeros(PAGE));
            Dir(m') == Dir(m)[d := 0] && Pages(m') == Pages(m) && TablesApart(m')
  {
    hide Word, SameFrame, WordBytes;
    var p := Pde(m, d);
    var m1 := Overlay(m, 4 * d, WordBytes(0));
    var m' := Overlay(m1, p, Zeros(PAGE));
    WordAfterStore(m, 4 * d, 0);
    forall e | 0 <= e < ENTRIES
      ensures Pde(m1, e) == if e == d then 0 else Pde(m, e)
    {
    }
    assert Dir(m1) == Dir(m)[d := 0];
    forall v | 0 <= v < VPAGES
      ensures Walk(m1, v) == Walk(m, v)
    {
      if v / ENTRIES != d {
        var pde := Pde(m, v / ENTRIES);
        if pde != 0 {
          StoreKeepsFrame(m, 0, 4 * d, WordBytes(0), pde);
        }
        WalkOfSameFrames(m, m1, v);
      }
    }
    assert Pages(m1) == Pages(m);
    DataStore(m1, p, 0, Zeros(PAGE));
    forall e | 0 <= e < ENTRIES
      ensures Pde(m', e) == Pde(m1, e)
    {
      assert Dir(m')[e] == Dir(m1)[e];
    }
  }

  // ----- the user's view -----

  // The byte at virtual address a.
  function UserByte(m: seq<Byte>, a: nat): Byte
    requires |m| == MEM && a < ADDRESSES
  {
    var p := Walk(m, a / PAGE);
    if p + PAGE <= MEM then m[p + a % PAGE] else 0
  }

  // The mapped virtual addresses and their bytes.
  ghost function User(m: seq<Byte>): map<nat, Byte>
    requires |m| == MEM
  {
    map a: nat | a < ADDRESSES && Walk(m, a / PAGE) != 0 :: UserByte(m, a)
  }

  // The same addresses, with bs at the ones from va on.
  ghost function WriteUser(u: map<nat, Byte>, va: nat, bs: seq<Byte>): map<nat, Byte> {
    map a | a in u :: if va <= a < va + |bs| then bs[a - va] else u[a]
  }

  lemma PageStoreKeepsTables(m: seq<Byte>, c: Core, v: nat, off: nat, bs: seq<Byte>)
    requires |m| == MEM && Inv(c) && c.dir == Dir(m) && c.pages == Pages(m)
    requires v < VPAGES && c.pages[v] != 0 && off + |bs| <= PAGE
    ensures var m' := Overlay(m, c.pages[v] + off, bs);
            Dir(m') == c.dir && Pages(m') == c.pages
  {
    hide Pde, Walk, NoEmptyTable;
    OwnedTablesApart(c, m);
    forall d | 0 <= d < ENTRIES
      ensures Pde(m, d) != c.pages[v]
    {
      assert c.dir[d] != c.pages[v];
    }
    DataStore(m, c.pages[v], off, bs);
  }

  lemma OtherPageKept(m: seq<Byte>, c: Core, v: nat, off: nat, bs: seq<Byte>, w: nat)
    requires |m| == MEM && Inv(c) && v < VPAGES && w < VPAGES && v != w
    requires c.pages[v] != 0 && c.pages[w] != 0 && off + |bs| <= PAGE
    ensures SameFrame(m, Overlay(m, c.pages[v] + off, bs), c.pages[w])
  {
    assert c.pages[v] != c.pages[w] by {
      assert v < w || w < v;
    }
    StoreKeepsFrame(m, c.pages[v], off, bs, c.pages[w]);
  }

  lemma UserByteAfterStore(m: seq<Byte>, c: Core, v: nat, off: nat, bs: seq<Byte>, a: nat)
    requires |m| == MEM && Inv(c) && c.dir == Dir(m) && c.pages == Pages(m)
    requires v < VPAGES && c.pages[v] != 0 && off + |bs| <= PAGE && a < ADDRESSES
    ensures var m' := Overlay(m, c.pages[v] + off, bs);
            && Walk(m', a / PAGE) == Walk(m, a / PAGE)
            && (Walk(m, a / PAGE) != 0 ==>
                  UserByte(m', a) == if v * PAGE + off <= a < v * PAGE + off + |bs| then bs[a - (v * PAGE + off)]
                      else UserByte(m, a))
  {
    hide Walk, NoEmptyTable, SameFrame;
    var m' := Overlay(m, c.pages[v] + off, bs);
    PageStoreKeepsTables(m, c, v, off, bs);
    var w := a / PAGE;
    assert Pages(m')[w] == c.pages[w];
    if w != v && c.pages[w] != 0 {
      OtherPageKept(m, c, v, off, bs, w);
      SameFrameAt(m, m', c.pages[w], a % PAGE);
    }
    assert a == w * PAGE + a % PAGE;
  }

  // A store inside a mapped page changes the bytes at its own addresses, and at no other;
  // no word of the directory or of a page table changes.
  lemma UserStore(m: seq<Byte>, c: Core, v: nat, off: nat, bs: seq<Byte>)
    requires |m| == MEM && Inv(c) && c.dir == Dir(m) && c.pages == Pages(m)
    requires v < VPAGES && c.pages[v] != 0 && off + |bs| <= PAGE
    ensures var m' := Overlay(m, c.pages[v] + off, bs);
            && Dir(m') == c.dir && Pages(m') == c.pages
            && User(m') == WriteUser(User(m), v * PAGE + off, bs)
  {
    hide Walk, Owned, NoEmptyTable, UserByte;
    PageStoreKeepsTables(m, c, v, off, bs);
    assert FrameAddress(c.pages[v]) by {
      MappedFrame(c, v);
    }
    forall a: nat | a < ADDRESSES {
      UserByteAfterStore(m, c, v, off, bs, a);
    }
  }

  lemma MappedFrame(c: Core, v: nat)
    requires Inv(c) && v < VPAGES && c.pages[v] != 0
    ensures FrameAddress(c.pages[v])
  {
  }

  lemma SameFrameAt(m: seq<Byte>, m': seq<Byte>, p: nat, o: nat)
    requires |m| == MEM && |m'| == MEM && p + PAGE <= MEM && SameFrame(m, m', p) && o < PAGE
    ensures m[p + o] == m'[p + o]
  {
  }

  lemma OwnedTablesApart(c: Core, m: seq<Byte>)
    requires |m| == MEM && Shape(c) && Owned(c) && c.dir == Dir(m)
    ensures TablesApart(m)
  {
    hide Pde;
    assert forall d :: 0 <= d < ENTRIES ==> Pde(m, d) == c.dir[d];
  }
}
