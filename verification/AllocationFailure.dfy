// What a failing n_malloc loses: the virtual pages that it had no frames for, and a frame when the
// last free one goes to a page whose table is still missing. Three calls on a fresh memory lead there.
module AllocationFailure {
  import opened Wrappers
  import opened Counting
  import opened Bitmaps
  import opened PageTables
  import opened Allocation
  import opened AllocationTheorems

  // After k pages from v on and the tables they lacked there is one frame left, and the next
  // page still lacks its table.
  ghost predicate TableMissing(c: Core, v: nat, k: nat)
    requires Shape(c)
  {
    var d := (v + k) / ENTRIES;
    d < ENTRIES && c.dir[d] == 0 && d !in NewTables(c, v, k) && |FreeFrames(c)| == k + |NewTables(c, v, k)| + 1
  }

  lemma {:induction false} NoTableIff(c: Core, v: nat, n: nat)
    requires Inv(c) && 0 < v && v + n <= VPAGES && Unmapped(c.pages, v, n)
    ensures MapRange(c, v, n).NoTable? <==> exists k: nat :: k < n && TableMissing(c, v, k)
    decreases n
  {
    hide Owned, NoEmptyTable, MapNext, NewTables, FreeFrames;
    if n > 0 {
      UnmappedPrefix(c.pages, v, n - 1, n);
      NoTableIff(c, v, n - 1);
      MapRangeCost(c, v, n - 1);
      var r := MapRange(c, v, n - 1);
      if r.Mapped? {
        MapNextFails(r.core, v + n - 1, n - 1);
        assert MapRange(c, v, n).NoTable? <==> TableMissing(c, v, n - 1);
      } else {
        assert !TableMissing(c, v, n - 1);
      }
    }
  }

  lemma MapNextFails(c: Core, v: nat, done: nat)
    requires Inv(c) && 0 < v < VPAGES && c.pages[v] == 0
    ensures MapNext(c, v, done).NoTable? <==> c.dir[v / ENTRIES] == 0 && |FreeFrames(c)| == 1
  {
    var f := FirstClear(c.phys, 0);
    if f == FRAMES {
      assert FreeFrames(c) == {};
    } else {
      var c1 := c.(phys := c.phys[f := true]);
      assert FreeFrames(c) == FreeFrames(c1) + {f};
      var g := FirstClear(c1.phys, 0);
      if g == FRAMES {
        assert FreeFrames(c1) == {};
      } else {
        assert g in FreeFrames(c1);
      }
    }
  }

  // A request that loses a frame, told from the tables before the call.
  ghost predicate FailsInMapPage(c: Core, bytes: nat)
    requires Inv(c)
  {
    var n := PageCount(bytes);
    var run := FirstRun(c.virt, 1, n);
    n > 0 && run.Some? && exists k: nat :: k < n && TableMissing(c, run.value, k)
  }

  lemma FailsInMapPageIff(c: Core, bytes: nat)
    requires Inv(c) && PageCount(bytes) > 0 && FirstRun(c.virt, 1, PageCount(bytes)).Some?
    ensures var n := PageCount(bytes); var v := FirstRun(c.virt, 1, n).value;
            && v + n <= VPAGES && Unmapped(Reserved(c, v, n).pages, v, n)
            && (MapRange(Reserved(c, v, n), v, n).NoTable? <==> FailsInMapPage(c, bytes))
  {
    hide Owned, NoEmptyTable, MapRange, SetRange, PageCount, FirstRun;
    var n := PageCount(bytes);
    var v := FirstRun(c.virt, 1, n).value;
    RunIsUnmapped(c, v, n);
    var r := Reserved(c, v, n);
    NoTableIff(r, v, n);
    assert FreeFrames(r) == FreeFrames(c);
    forall k: nat
      ensures TableMissing(r, v, k) == TableMissing(c, v, k)
    {
      assert NewTables(r, v, k) == NewTables(c, v, k);
    }
  }

  // ----- the pages that stay reserved -----

  // How many of the n pages from v on there are frames for, with the tables they lack.
  ghost function PagesThatFit(c: Core, v: nat, n: nat): (k: nat)
    requires Shape(c)
    ensures k <= n
    ensures k < n ==> k + 1 + |NewTables(c, v, k + 1)| > |FreeFrames(c)|
  {
    if n == 0 then 0
    else
      var k := PagesThatFit(c, v, n - 1);
      if k == n - 1 && n + |NewTables(c, v, n)| <= |FreeFrames(c)| then n else k
  }

  // The loop of n_malloc maps as many pages as fit.
  lemma {:induction false} MapsWhatFits(c: Core, v: nat, n: nat)
    requires Inv(c) && 0 < v && v + n <= VPAGES && Unmapped(c.pages, v, n)
    ensures var r := MapRange(c, v, n);
            PagesThatFit(c, v, n) == if r.Mapped? then n else r.done
    decreases n
  {
    hide Owned, NoEmptyTable, MapNext, NewTables, FreeFrames;
    if n > 0 {
      UnmappedPrefix(c.pages, v, n - 1, n);
      MapsWhatFits(c, v, n - 1);
      MapRangeCost(c, v, n);
    }
  }

  // Reserved pages that are not mapped: no call frees them.
  ghost function LostPages(c: Core): set<nat>
    requires Shape(c)
  {
    set v: nat | v < VPAGES && c.virt[v] && c.pages[v] == 0
  }

  // How many pages a request loses, told from the tables before the call.
  ghost function PagesLostBy(c: Core, bytes: nat): nat
    requires Inv(c)
  {
    var n := PageCount(bytes);
    var run := FirstRun(c.virt, 1, n);
    if n == 0 || run.None? then 0 else n - PagesThatFit(c, run.value, n)
  }

  lemma {:induction false} SameFit(c: Core, r: Core, v: nat, n: nat)
    requires Shape(c) && Shape(r) && r.dir == c.dir && r.phys == c.phys
    ensures PagesThatFit(r, v, n) == PagesThatFit(c, v, n)
    decreases n
  {
    assert FreeFrames(r) == FreeFrames(c);
    if n > 0 {
      SameFit(c, r, v, n - 1);
      assert NewTables(r, v, n) == NewTables(c, v, n);
    }
  }

  lemma MallocLosesPages(c: Core, bytes: nat)
    requires Inv(c)
    ensures LostPages(c) <= LostPages(Malloc(c, bytes).0)
    ensures |LostPages(Malloc(c, bytes).0)| == |LostPages(c)| + PagesLostBy(c, bytes)
  {
    hide Owned, NoEmptyTable, FirstRun, SetRange, MapRange, PageCount, PagesThatFit, Leaked;
    var (r, va) := Malloc(c, bytes);
    var n := PageCount(bytes);
    var run := FirstRun(c.virt, 1, n);
    if n > 0 && run.Some? {
      var v := run.value;
      RunIsUnmapped(c, v, n);
      MapsWhatFits(Reserved(c, v, n), v, n);
      SameFit(c, Reserved(c, v, n), v, n);
      if va != 0 {
        MallocSucceeds(c, bytes);
        assert LostPages(r) == LostPages(c);
      } else {
        MallocFails(c, bytes);
        TailLost(c, r, v, n, PagesThatFit(c, v, n));
      }
    }
  }

  lemma TailLost(c: Core, r: Core, v: nat, n: nat, k: nat)
    requires Inv(c) && Shape(r) && FreeRun(c.virt, v, n) && k <= n
    requires v + n <= VPAGES && Unmapped(c.pages, v, n)
    requires r.pages == c.pages && r.virt == SetRange(c.virt, v + k, n - k, true)
    ensures LostPages(c) <= LostPages(r) && |LostPages(r)| == |LostPages(c)| + n - k
  {
    var tail := LostPages(r) - LostPages(c);
    assert forall u: nat :: u in tail <==> v + k <= u < v + n;
    IntervalSize(tail, v + k, v + n);
    assert LostPages(r) == LostPages(c) + tail;
  }

  lemma FreeLosesNoPage(c: Core, va: nat, size: int)
    requires Inv(c) && va < ADDRESSES
    ensures LostPages(Free(c, va, size)) == LostPages(c)
  {
    hide Owned, NoEmptyTable, Leaked, FreeRange, InSpan;
    FreeRangeFacts(c, va / PAGE, PageCount(size % ADDRESSES));
  }

  ghost function ReservedPages(c: Core): set<nat>
    requires Shape(c)
  {
    set v: nat | v < VPAGES && c.virt[v]
  }

  // Every reserved page is mapped or lost.
  lemma PageAccount(c: Core)
    requires Inv(c)
    ensures |ReservedPages(c)| == |MappedPages(c)| + |LostPages(c)|
  {
    hide NoEmptyTable;
    assert ReservedPages(c) == MappedPages(c) + LostPages(c);
    assert MappedPages(c) !! LostPages(c);
  }

  lemma SomePagesLost(c: Core, bytes: nat)
    requires Inv(c) && FailsInMapPage(c, bytes)
    ensures PagesLostBy(c, bytes) > 0
  {
    hide Owned, NoEmptyTable, MapRange, FirstRun, PagesThatFit, TableMissing;
    var n := PageCount(bytes);
    var v := FirstRun(c.virt, 1, n).value;
    FailsInMapPageIff(c, bytes);
    MapsWhatFits(Reserved(c, v, n), v, n);
    SameFit(c, Reserved(c, v, n), v, n);
  }

  // ----- three calls that lead to it -----

  const ALL_FRAMES: nat := 261887  // pages that with their 256 tables take every frame
  const HOLE: nat := 257

  // The first n pages after page 0 are mapped, but for the first m of them.
  ghost predicate MappedPart(c: Core, m: nat, n: nat)
    requires Shape(c)
  {
    && (forall u :: 0 <= u < VPAGES ==> (c.pages[u] != 0 <==> m < u <= n))
    && (forall u :: 0 <= u < VPAGES ==> (c.virt[u] <==> m < u <= n))
  }

  lemma TablesOfPart(c: Core, m: nat)
    requires Inv(c) && MappedPart(c, m, ALL_FRAMES) && m <= HOLE
    ensures forall d: nat :: d < ENTRIES ==> (c.dir[d] != 0 <==> d < 256)
    ensures |Tables(c)| == 256 && |MappedPages(c)| == ALL_FRAMES - m
  {
    hide Owned;
    forall d: nat | d < ENTRIES
      ensures c.dir[d] != 0 <==> d < 256
    {
      if d < 256 {
        var u := 1024 * d + 300;
        assert u / ENTRIES == d && c.pages[u] != 0;
        assert SlotUsed(c.pages, d);
      } else {
        assert !SlotUsed(c.pages, d);
      }
    }
    IntervalSize(Tables(c), 0, 256);
    IntervalSize(MappedPages(c), m + 1, ALL_FRAMES + 1);
  }

  lemma FramesAddUp(c: Core)
    requires Shape(c)
    ensures |FreeFrames(c)| + |MarkedFrameSet(c)| == FRAMES
  {
    IntervalSize(FreeFrames(c) + MarkedFrameSet(c), 0, FRAMES);
    assert FreeFrames(c) !! MarkedFrameSet(c);
  }

  // With no frame lost, as many frames are free as pages are missing.
  lemma FramesOfPart(c: Core, m: nat)
    requires Inv(c) && MappedPart(c, m, ALL_FRAMES) && m <= HOLE && Leaked(c) == {}
    ensures |FreeFrames(c)| == m
  {
    hide Owned, NoEmptyTable, MappedPart, FreeFrames, MarkedFrameSet, Leaked, Tables, MappedPages;
    TablesOfPart(c, m);
    FrameAccount(c);
    FramesAddUp(c);
  }

  // The first call takes every frame.
  lemma FirstCall()
    ensures Inv(Fresh())
    ensures var (c, va) := Malloc(Fresh(), ALL_FRAMES * PAGE);
            va == PAGE && MappedPart(c, 0, ALL_FRAMES) && Leaked(c) == {}
  {
    FreshStart();
    hide Fresh, Owned, NoEmptyTable, Malloc, Leaked, FirstRun, FreeFrames;
    MallocSucceedsIff(Fresh(), ALL_FRAMES * PAGE);
    MallocSucceeds(Fresh(), ALL_FRAMES * PAGE);
  }

  lemma FreshStart()
    ensures var c := Fresh();
            && Inv(c) && Leaked(c) == {} && FirstRun(c.virt, 1, ALL_FRAMES) == Some(1)
            && PageCount(ALL_FRAMES * PAGE) == ALL_FRAMES
            && ALL_FRAMES + |NewTables(c, 1, ALL_FRAMES)| <= |FreeFrames(c)|
            && MappedPart(c, 0, 0)
  {
    hide FirstRun;
    var c := Fresh();
    assert Inv(c) by {
      assert forall d :: 0 <= d < ENTRIES ==> !SlotUsed(c.pages, d);
    }
    assert FreeRun(c.virt, 1, ALL_FRAMES);
    assert MarkedFrameSet(c) == {0};
    FramesAddUp(c);
    IntervalSize(NewTables(c, 1, ALL_FRAMES), 0, 256);
  }

  // The second call makes a hole at the front.
  lemma SecondCall(c: Core)
    requires Inv(c) && MappedPart(c, 0, ALL_FRAMES) && Leaked(c) == {}
    ensures var r := Free(c, PAGE, HOLE * PAGE);
            MappedPart(r, HOLE, ALL_FRAMES) && Leaked(r) == {}
  {
    hide Owned, NoEmptyTable, Leaked, FreeRange;
    FreeRangeFacts(c, 1, HOLE);
  }

  // The third call does not fit into it.
  lemma ThirdCall(c: Core)
    requires Inv(c) && MappedPart(c, HOLE, ALL_FRAMES) && Leaked(c) == {}
    ensures FailsInMapPage(c, (HOLE + 1) * PAGE) && Malloc(c, (HOLE + 1) * PAGE).1 == 0
  {
    hide Owned, NoEmptyTable, Leaked, FreeFrames, FirstRun, Malloc, FailsInMapPage;
    var n := HOLE + 1;
    FramesOfPart(c, HOLE);
    TablesOfPart(c, HOLE);
    HoleTooSmall(c, n);
    var v := ALL_FRAMES + 1;
    assert NewTables(c, v, 256) == {} by {
      assert v / ENTRIES == 255 && (v + 256 - 1) / ENTRIES == 255;
    }
    assert (v + 256) / ENTRIES == 256;
    assert TableMissing(c, v, 256);
    FailsAt(c, n, v, 256);
    LostMeansFailed(c, n * PAGE);
  }

  lemma FailsAt(c: Core, n: nat, v: nat, k: nat)
    requires Inv(c) && 0 < n < VPAGES && FirstRun(c.virt, 1, n) == Some(v) && k < n && TableMissing(c, v, k)
    ensures FailsInMapPage(c, n * PAGE)
  {
    hide Owned, NoEmptyTable, TableMissing, FirstRun;
    assert PageCount(n * PAGE) == n;
  }

  lemma LostMeansFailed(c: Core, bytes: nat)
    requires Inv(c) && FailsInMapPage(c, bytes)
    ensures Malloc(c, bytes).1 == 0
  {
    hide Owned, NoEmptyTable, TableMissing;
    FailsInMapPageIff(c, bytes);
  }

  lemma HoleTooSmall(c: Core, n: nat)
    requires Shape(c) && MappedPart(c, HOLE, ALL_FRAMES) && n == HOLE + 1
    ensures FirstRun(c.virt, 1, n) == Some(ALL_FRAMES + 1)
  {
    hide FirstRun;
    assert FreeRun(c.virt, ALL_FRAMES + 1, n);
    var first := FirstRun(c.virt, 1, n).value;
    if first <= ALL_FRAMES {
      NoRunAt(c, n, first);
    }
  }

  lemma NoRunAt(c: Core, n: nat, w: nat)
    requires Shape(c) && MappedPart(c, HOLE, ALL_FRAMES) && n == HOLE + 1 && 1 <= w <= ALL_FRAMES
    ensures !FreeRun(c.virt, w, n)
  {
    var u := if w <= HOLE then n else w;
    assert c.virt[u] && w <= u < w + n;
  }
}
