// The allocator's promises, proved about whole calls of n_malloc and n_free.
module AllocationTheorems {
  import opened Wrappers
  import opened Bitmaps
  import opened PageTables
  import opened Allocation

  // The tables after n_free(va, size), with the source's conversion of the int size.
  ghost function Free(c: Core, va: nat, size: int): (r: Core)
    requires Inv(c) && va < ADDRESSES
    ensures Inv(r)
  {
    FreeRange(c, va / PAGE, PageCount(size % ADDRESSES))
  }

  // ----- success -----

  // The run get_next_avail picks is unmapped, because mapped pages are reserved.
  lemma RunIsUnmapped(c: Core, v: nat, n: nat)
    requires Inv(c) && 0 < v && 0 < n && FreeRun(c.virt, v, n)
    ensures v + n <= VPAGES && Unmapped(c.pages, v, n)
    ensures Unmapped(Reserved(c, v, n).pages, v, n) && Leaked(Reserved(c, v, n)) == Leaked(c)
  {
    forall f: nat | f < FRAMES
      ensures Unnamed(Reserved(c, v, n), f) <==> Unnamed(c, f)
    {
    }
  }

  // A successful n_malloc maps exactly the lowest free run, to frames of its own, and moves nothing else.
  lemma MallocSucceeds(c: Core, bytes: nat)
    requires Inv(c) && Malloc(c, bytes).1 != 0
    ensures var (r, va) := Malloc(c, bytes); var v := va / PAGE; var n := PageCount(bytes);
            && va == v * PAGE && 0 < n && 0 < v && v + n <= VPAGES
            && FirstRun(c.virt, 1, n) == Some(v)
            && MappedOver(c, r, v, n)
            && Leaked(r) == Leaked(c)
  {
    var n := PageCount(bytes);
    var v := FirstRun(c.virt, 1, n).value;
    RunIsUnmapped(c, v, n);
    MapRangeFacts(Reserved(c, v, n), v, n);
    MapRangeLeaks(Reserved(c, v, n), v, n);
    assert v * PAGE / PAGE == v;
  }

  // What the caller gets: every byte asked for is mapped, and nothing beyond the page of the last one.
  lemma MallocCovers(c: Core, bytes: nat, a: nat)
    requires Inv(c) && bytes < ADDRESSES && Malloc(c, bytes).1 != 0 && a < ADDRESSES
    ensures var (r, va) := Malloc(c, bytes);
            && va % PAGE == 0 && 0 < bytes && va + bytes <= ADDRESSES
            && (va <= a < va + bytes ==> c.pages[a / PAGE] == 0 && r.pages[a / PAGE] != 0)
            && (r.pages[a / PAGE] != c.pages[a / PAGE] ==> va <= a && a / PAGE * PAGE < va + bytes)
  {
    hide Owned, NoEmptyTable, Malloc, PageCount, FirstRun, Leaked;
    MallocSucceeds(c, bytes);
    RunIsUnmapped(c, Malloc(c, bytes).1 / PAGE, PageCount(bytes));
  }

  // A request for nothing, or for more than 32 bits can round up, is refused.
  lemma MallocRefuses(c: Core, bytes: nat)
    requires Inv(c) && bytes < ADDRESSES && (bytes == 0 || bytes > ADDRESSES - PAGE)
    ensures Malloc(c, bytes) == (c, 0)
  {
    hide PageCount;
  }

  // n_free of what n_malloc returned restores the directory, every page-table entry and both
  // bitmaps, so that the same request is answered with the same address again.
  lemma FreeUndoesMalloc(c: Core, bytes: nat)
    requires Inv(c) && bytes < ADDRESSES && Malloc(c, bytes).1 != 0
    ensures var (r, va) := Malloc(c, bytes);
            && va < ADDRESSES
            && Free(r, va, bytes) == c
            && Malloc(Free(r, va, bytes), bytes) == (r, va)
  {
    hide Owned, NoEmptyTable, Malloc, Leaked, PageCount, FirstRun, FreeRange;
    var (r, va) := Malloc(c, bytes);
    var n := PageCount(bytes);
    var v := va / PAGE;
    MallocSucceeds(c, bytes);
    RunIsUnmapped(c, v, n);
    FreeUndoesMap(c, r, v, n, {});
    SameCore(c, FreeRange(r, v, n), v, n);
  }

  lemma SameCore(c: Core, e: Core, v: nat, n: nat)
    requires Shape(c) && Shape(e) && FreeRun(c.virt, v, n)
    requires e.dir == c.dir && e.pages == c.pages && e.virt == SetRange(c.virt, v, n, false)
    requires forall f :: 0 <= f < FRAMES ==> e.phys[f] == c.phys[f]
    ensures e == c
  {
  }

  // ----- failure -----

  // A failing n_malloc leaves the mapping as it was. It leaves the bitmaps as they were when
  // there is no run; otherwise the part of the run it had not mapped yet stays reserved, and
  // if it was map_page that failed, the frame meant for that page stays marked.
  lemma MallocFails(c: Core, bytes: nat)
    requires Inv(c) && Malloc(c, bytes).1 == 0
    ensures var r := Malloc(c, bytes).0; var n := PageCount(bytes); var run := FirstRun(c.virt, 1, n);
            if n == 0 || run.None? then r == c
            else
              var v := run.value;
              match MapRange(Reserved(c, v, n), v, n)
              case Mapped(_) => false
              case NoFrame(_, k) =>
                k < n && r == c.(virt := SetRange(c.virt, v + k, n - k, true))
              case NoTable(_, k, f) =>
                k < n && f < FRAMES && !c.phys[f] &&
                r == c.(virt := SetRange(c.virt, v + k, n - k, true), phys := c.phys[f := true])
  {
    hide Owned, NoEmptyTable, Leaked, MapRange, PageCount, FirstRun;
    var n := PageCount(bytes);
    if n != 0 && FirstRun(c.virt, 1, n).Some? {
      var v := FirstRun(c.virt, 1, n).value;
      RunIsUnmapped(c, v, n);
      var c1 := Reserved(c, v, n);
      MapRangeFacts(c1, v, n);
      MapRangeLeaks(c1, v, n);
      var p := MapRange(c1, v, n);
      assert !p.Mapped?;
      var k := p.done;
      var lost := if p.NoTable? then {p.lost} else {};
      FreeUndoesMap(c1, p.core, v, k, lost);
      var r := FreeRange(p.core, v, k);
      assert r.virt == SetRange(c.virt, v + k, n - k, true);
      assert p.NoFrame? ==> r.phys == c.phys;
      assert p.NoTable? ==> r.phys == c.phys[p.lost := true];
    }
  }

  // ----- exactly when n_malloc succeeds -----

  ghost function FreeFrames(c: Core): set<nat>
    requires Shape(c)
  {
    set f: nat | f < FRAMES && !c.phys[f]
  }

  // The page tables that mapping n pages from v on has to create.
  ghost function NewTables(c: Core, v: nat, n: nat): set<nat>
    requires Shape(c)
  {
    set d: nat | d < ENTRIES && c.dir[d] == 0 && n > 0 && v / ENTRIES <= d <= (v + n - 1) / ENTRIES
  }

  lemma MapNextCost(c: Core, v: nat, done: nat)
    requires Inv(c) && 0 < v < VPAGES && c.pages[v] == 0
    ensures var d := v / ENTRIES; var r := MapNext(c, v, done); var cost := if c.dir[d] == 0 then 2 else 1;
            && (r.Mapped? <==> cost <= |FreeFrames(c)|)
            && (r.Mapped? ==>
                  && |FreeFrames(r.core)| == |FreeFrames(c)| - cost
                  && forall e :: 0 <= e < ENTRIES ==> (r.core.dir[e] != 0 <==> c.dir[e] != 0 || e == d))
  {
    var f := FirstClear(c.phys, 0);
    if f == FRAMES {
      assert FreeFrames(c) == {};
    } else {
      assert f in FreeFrames(c);
      var c1 := c.(phys := c.phys[f := true]);
      assert FreeFrames(c1) == FreeFrames(c) - {f};
      if c.dir[v / ENTRIES] == 0 {
        var g := FirstClear(c1.phys, 0);
        if g == FRAMES {
          assert FreeFrames(c1) == {};
        } else {
          assert g in FreeFrames(c1);
          var r := MapNext(c, v, done).core;
          assert FreeFrames(r) == FreeFrames(c1) - {g};
        }
      } else {
        var r := MapNext(c, v, done).core;
        assert FreeFrames(r) == FreeFrames(c1);
      }
    }
  }

  lemma NewTablesOneMore(c: Core, v: nat, n: nat)
    requires Shape(c) && 0 < n && v + n <= VPAGES
    ensures var d := (v + n - 1) / ENTRIES;
            && d < ENTRIES
            && (d in NewTables(c, v, n) <==> c.dir[d] == 0)
            && NewTables(c, v, n) == NewTables(c, v, n - 1) + (if c.dir[d] == 0 then {d} else {})
  {
  }

  lemma {:induction false} MapRangeCost(c: Core, v: nat, n: nat)
    requires Inv(c) && 0 < v && v + n <= VPAGES && Unmapped(c.pages, v, n)
    ensures var r := MapRange(c, v, n); var cost := n + |NewTables(c, v, n)|;
            && (r.Mapped? <==> cost <= |FreeFrames(c)|)
            && (r.Mapped? ==>
                  && |FreeFrames(r.core)| == |FreeFrames(c)| - cost
                  && forall e :: 0 <= e < ENTRIES ==> (r.core.dir[e] != 0 <==>
                      c.dir[e] != 0 || e in NewTables(c, v, n)))
    decreases n
  {
    hide Owned, NoEmptyTable, MapNext;
    if n == 0 {
      assert NewTables(c, v, 0) == {};
    } else {
      hide NewTables, FreeFrames;
      UnmappedPrefix(c.pages, v, n - 1, n);
      MapRangeCost(c, v, n - 1);
      NewTablesOneMore(c, v, n);
      var r := MapRange(c, v, n - 1);
      if r.Mapped? {
        MapNextCost(r.core, v + n - 1, n - 1);
      }
    }
  }

  // n_malloc succeeds exactly when it needs at least one page, a run of that many unreserved
  // pages exists, and there are free frames for its pages and for the tables they still lack.
  lemma MallocSucceedsIff(c: Core, bytes: nat)
    requires Inv(c)
    ensures var n := PageCount(bytes); var run := FirstRun(c.virt, 1, n);
            Malloc(c, bytes).1 != 0 <==>
              n > 0 && run.Some? && n + |NewTables(c, run.value, n)| <= |FreeFrames(c)|
  {
    var n := PageCount(bytes);
    var run := FirstRun(c.virt, 1, n);
    if n > 0 && run.Some? {
      var v := run.value;
      RunIsUnmapped(c, v, n);
      MapRangeCost(Reserved(c, v, n), v, n);
      assert NewTables(Reserved(c, v, n), v, n) == NewTables(c, v, n);
      assert FreeFrames(Reserved(c, v, n)) == FreeFrames(c);
    }
  }

  // ----- the frame account -----

  ghost function Tables(c: Core): set<nat>
    requires Shape(c)
  {
    set d: nat | d < ENTRIES && c.dir[d] != 0
  }

  ghost function MappedPages(c: Core): set<nat>
    requires Shape(c)
  {
    set v: nat | v < VPAGES && c.pages[v] != 0
  }

  ghost function MarkedFrameSet(c: Core): set<nat>
    requires Shape(c)
  {
    set f: nat | f < FRAMES && c.phys[f]
  }

  ghost function FramesNamed(entries: seq<nat>, s: set<nat>): set<nat>
    requires forall x :: x in s ==> x < |entries|
  {
    set x | x in s :: entries[x] / PAGE
  }

  lemma {:induction false} DistinctFrames(entries: seq<nat>, s: set<nat>)
    requires forall x :: x in s ==> x < |entries| && FrameAddress(entries[x])
    requires forall x, y :: x in s && y in s && x != y ==> entries[x] != entries[y]
    ensures |FramesNamed(entries, s)| == |s|
    decreases |s|
  {
    if s != {} {
      var x :| x in s;
      DistinctFrames(entries, s - {x});
      assert FramesNamed(entries, s) == FramesNamed(entries, s - {x}) + {entries[x] / PAGE};
      assert entries[x] / PAGE !in FramesNamed(entries, s - {x});
    }
  }

  lemma NamedFrames(entries: seq<nat>, s: set<nat>, f: nat)
    requires forall x :: x in s ==> x < |entries| && FrameAddress(entries[x])
    requires forall x: nat :: x < |entries| && entries[x] != 0 ==> x in s
    ensures f in FramesNamed(entries, s) <==> f != 0 && exists x: nat :: x < |entries| && entries[x] == f * PAGE
  {
    if f in FramesNamed(entries, s) {
      var x :| x in s && entries[x] / PAGE == f;
      assert entries[x] == f * PAGE;
    }
    if x: nat :| x < |entries| && entries[x] == f * PAGE && f != 0 {
      assert x in s;
    }
  }

  lemma DisjointSizes(a: set<nat>, b: set<nat>, c: set<nat>, d: set<nat>)
    requires a !! b !! c !! d
    ensures |a + b + c + d| == |a| + |b| + |c| + |d|
  {
  }

  ghost function TableFrames(c: Core): set<nat>
    requires Shape(c)
  {
    FramesNamed(c.dir, Tables(c))
  }

  ghost function PageFrames(c: Core): set<nat>
    requires Shape(c)
  {
    FramesNamed(c.pages, MappedPages(c))
  }

  // Frame f serves one purpose if it is marked, and none otherwise.
  lemma FrameUse(c: Core, f: nat)
    requires Inv(c)
    ensures f in MarkedFrameSet(c) <==> f == 0 || f in TableFrames(c) || f in PageFrames(c) || f in Leaked(c)
    ensures f == 0 ==> f !in TableFrames(c) && f !in PageFrames(c) && f !in Leaked(c)
    ensures f in TableFrames(c) ==> f !in PageFrames(c) && f !in Leaked(c)
    ensures f in PageFrames(c) ==> f !in Leaked(c)
  {
    NamedFrames(c.dir, Tables(c), f);
    NamedFrames(c.pages, MappedPages(c), f);
    if f in TableFrames(c) {
      var d: nat :| d < ENTRIES && c.dir[d] == f * PAGE;
    }
    if f in PageFrames(c) {
      var v: nat :| v < VPAGES && c.pages[v] == f * PAGE;
    }
  }

  lemma OneFrameEach(c: Core)
    requires Inv(c)
    ensures |TableFrames(c)| == |Tables(c)| && |PageFrames(c)| == |MappedPages(c)|
  {
    DistinctFrames(c.dir, Tables(c));
    DistinctFrames(c.pages, MappedPages(c));
  }

  // Every marked frame is the directory, one linked table, one mapped page, or leaked.
  lemma FrameAccount(c: Core)
    requires Inv(c)
    ensures |MarkedFrameSet(c)| == 1 + |Tables(c)| + |MappedPages(c)| + |Leaked(c)|
  {
    hide Owned, NoEmptyTable, Leaked, MarkedFrameSet, TableFrames, PageFrames, Tables, MappedPages;
    OneFrameEach(c);
    forall f: nat
      ensures f in MarkedFrameSet(c) <==> f == 0 || f in TableFrames(c) || f in PageFrames(c) || f in Leaked(c)
      ensures f == 0 ==> f !in TableFrames(c) && f !in PageFrames(c) && f !in Leaked(c)
      ensures f in TableFrames(c) ==> f !in PageFrames(c) && f !in Leaked(c)
      ensures f in PageFrames(c) ==> f !in Leaked(c)
    {
      FrameUse(c, f);
    }
    DisjointSizes({0}, TableFrames(c), PageFrames(c), Leaked(c));
    assert MarkedFrameSet(c) == {0} + TableFrames(c) + PageFrames(c) + Leaked(c);
  }
}
