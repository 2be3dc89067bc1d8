// The allocator of the simulated virtual memory as a machine over four tables: the page
// directory, the page-table entries (listed by virtual page number), and the two bitmaps.
// The class VirtualMemory refines these functions; everything the allocator promises is
// proved here about them.
module PageTables {
  import opened Wrappers
  import opened Bitmaps

  const PAGE: nat := 4096
  const ENTRIES: nat := 1024      // words of a directory or of one page table
  const FRAMES: nat := 0x4_0000   // 1 GB of physical memory
  const VPAGES: nat := 0x10_0000  // 4 GB of virtual addresses
  const MEM: nat := FRAMES * PAGE

  // dir[d] is PDE d; pages[v] is the PTE of virtual page v, 0 when the walk finds none;
  // phys and virt are the frame and the page bitmap.
  datatype Core = Core(dir: seq<nat>, pages: seq<nat>, phys: seq<bool>, virt: seq<bool>)

  predicate Shape(c: Core) {
    |c.dir| == ENTRIES && |c.pages| == VPAGES && |c.phys| == FRAMES && |c.virt| == VPAGES
  }

  // The address of a frame other than frame 0, which holds the directory.
  predicate FrameAddress(a: nat) {
    a % PAGE == 0 && PAGE <= a < MEM
  }

  // Some page of directory slot d is mapped.
  ghost predicate SlotUsed(pages: seq<nat>, d: nat) {
    exists v: nat :: v < |pages| && v / ENTRIES == d && pages[v] != 0
  }

  // Who uses which frame: the directory, the tables and the data pages are pairwise
  // distinct marked frames, and mapped pages are reserved.
  ghost predicate Owned(c: Core)
    requires Shape(c)
  {
    && c.phys[0]
    && c.pages[0] == 0
    && (forall d :: 0 <= d < ENTRIES && c.dir[d] != 0 ==> FrameAddress(c.dir[d]) && c.phys[c.dir[d] / PAGE])
    && (forall v :: 0 <= v < VPAGES && c.pages[v] != 0 ==>
          FrameAddress(c.pages[v]) && c.phys[c.pages[v] / PAGE] && c.virt[v])
    && (forall d, e :: 0 <= d < e < ENTRIES && c.dir[d] != 0 ==> c.dir[d] != c.dir[e])
    && (forall v, w :: 0 <= v < w < VPAGES && c.pages[v] != 0 ==> c.pages[v] != c.pages[w])
    && (forall d, v :: 0 <= d < ENTRIES && 0 <= v < VPAGES && c.dir[d] != 0 ==> c.dir[d] != c.pages[v])
  }

  // A table is linked exactly when one of its pages is mapped.
  ghost predicate NoEmptyTable(c: Core)
    requires Shape(c)
  {
    forall d :: 0 <= d < ENTRIES ==> (c.dir[d] != 0 <==> SlotUsed(c.pages, d))
  }

  ghost predicate Inv(c: Core) {
    Shape(c) && Owned(c) && NoEmptyTable(c)
  }

  // No directory slot and no page names frame f.
  ghost predicate Unnamed(c: Core, f: nat)
    requires Shape(c)
  {
    && f != 0
    && (forall d :: 0 <= d < ENTRIES ==> c.dir[d] != f * PAGE)
    && (forall v :: 0 <= v < VPAGES ==> c.pages[v] != f * PAGE)
  }

  // The state set_physical_mem leaves: only the directory's frame is taken.
  function Fresh(): (c: Core) {
    Core(seq(ENTRIES, _ => 0), seq(VPAGES, _ => 0), seq(FRAMES, f => f == 0), seq(VPAGES, _ => false))
  }

  // ----- map_page -----

  // The directory slot gets a page table if it has none.
  function EnsureTable(c: Core, d: nat): (r: Option<Core>)
    requires Shape(c) && d < ENTRIES
    ensures r.Some? ==> Shape(r.value)
  {
    if c.dir[d] != 0 then Some(c)
    else
      var f := FirstClear(c.phys, 0);
      if f == FRAMES then None
      else Some(c.(dir := c.dir[d := f * PAGE], phys := c.phys[f := true]))
  }

  function MapPage(c: Core, v: nat, pa: nat): (r: Option<Core>)
    requires Shape(c) && v < VPAGES && pa < MEM
    ensures r.Some? ==> Shape(r.value)
  {
    match EnsureTable(c, v / ENTRIES)
    case None => None
    case Some(c1) =>
      Some(c1.(pages := c1.pages[v := pa], phys := c1.phys[pa / PAGE := true], virt := c1.virt[v := true]))
  }

  // ----- n_free -----

  ghost function FreePage(c: Core, v: nat): (r: Core)
    requires Inv(c) && v < VPAGES
    ensures Shape(r)
  {
    if c.pages[v] == 0 then c
    else
      var d := v / ENTRIES;
      var c1 := c.(pages := c.pages[v := 0],
                   phys := c.phys[c.pages[v] / PAGE := false],
                   virt := c.virt[v := false]);
      if SlotUsed(c1.pages, d) then c1
      else c1.(dir := c1.dir[d := 0], phys := c1.phys[c.dir[d] / PAGE := false])
  }

  // The i-th page from page v on; page numbers wrap at the top of the address space.
  function PageAfter(v: nat, i: nat): nat
    requires v < VPAGES && i < VPAGES
  {
    if v + i < VPAGES then v + i else v + i - VPAGES
  }

  // Freeing n pages from page v on.
  ghost function FreeRange(c: Core, v: nat, n: nat): (r: Core)
    requires Inv(c) && v < VPAGES && n <= VPAGES
    ensures Inv(r)
    decreases n
  {
    if n == 0 then c
    else
      var c1 := FreeRange(c, v, n - 1);
      FreePageInv(c1, PageAfter(v, n - 1));
      FreePage(c1, PageAfter(v, n - 1))
  }

  lemma FreePageInv(c: Core, v: nat)
    requires Inv(c) && v < VPAGES
    ensures Inv(FreePage(c, v))
  {
    var r := FreePage(c, v);
    if c.pages[v] != 0 {
      forall d | 0 <= d < ENTRIES
        ensures r.dir[d] != 0 <==> SlotUsed(r.pages, d)
      {
        SlotUsedAfterUnmap(c.pages, v, d);
      }
    }
  }

  // Unmapping page v can only empty its own slot.
  lemma SlotUsedAfterUnmap(pages: seq<nat>, v: nat, d: nat)
    requires v < |pages|
    ensures SlotUsed(pages[v := 0], d) ==> SlotUsed(pages, d)
    ensures d != v / ENTRIES ==> (SlotUsed(pages[v := 0], d) <==> SlotUsed(pages, d))
  {
    var p := pages[v := 0];
    if u: nat :| u < |p| && u / ENTRIES == d && p[u] != 0 {
      assert pages[u] != 0;
    }
    if d != v / ENTRIES {
      if u: nat :| u < |pages| && u / ENTRIES == d && pages[u] != 0 {
        assert p[u] != 0;
      }
    }
  }

  lemma SlotUsedAfterMap(pages: seq<nat>, v: nat, pa: nat, d: nat)
    requires v < |pages| && pa != 0
    ensures SlotUsed(pages[v := pa], d) <==> SlotUsed(pages, d) || d == v / ENTRIES
  {
    var p := pages[v := pa];
    assert p[v := 0] == pages[v := 0];
    SlotUsedAfterUnmap(p, v, d);
    SlotUsedAfterUnmap(pages, v, d);
    assert p[v] != 0;
  }

  // ----- n_malloc -----

  // One round of the loop: a frame for the page, then the mapping.
  datatype Progress =
    | Mapped(core: Core)
    | NoFrame(core: Core, done: nat)             // allocate_phys_page failed
    | NoTable(core: Core, done: nat, lost: nat)  // map_page failed: frame lost stays marked

  ghost function MapNext(c: Core, v: nat, done: nat): (r: Progress)
    requires Inv(c) && 0 < v < VPAGES && c.pages[v] == 0
    ensures Inv(r.core)
    ensures !r.Mapped? ==> r.done == done
    ensures r.Mapped? ==> r.core.pages == c.pages[v := r.core.pages[v]]
  {
    var f := FirstClear(c.phys, 0);
    if f == FRAMES then NoFrame(c, done)
    else
      var c1 := c.(phys := c.phys[f := true]);
      MapPageInv(c, f, v);
      match MapPage(c1, v, f * PAGE)
      case None => NoTable(c1, done, f)
      case Some(c2) => Mapped(c2)
  }

  // An unmarked frame is unnamed, and marking it breaks nothing.
  lemma MarkFrame(c: Core, f: nat)
    requires Inv(c) && f < FRAMES && !c.phys[f]
    ensures var c1 := c.(phys := c.phys[f := true]); Unnamed(c, f) && Unnamed(c1, f) && Inv(c1)
  {
  }

  lemma EnsureTableOwned(c: Core, d: nat)
    requires Shape(c) && Owned(c) && d < ENTRIES && EnsureTable(c, d).Some?
    ensures var r := EnsureTable(c, d).value;
            && Shape(r) && Owned(r) && r.dir[d] != 0
            && r.dir == c.dir[d := r.dir[d]] && r.pages == c.pages && r.virt == c.virt
            && (forall f :: 0 <= f < FRAMES && c.phys[f] && Unnamed(c, f) ==> r.phys[f] && Unnamed(r, f))
  {
  }

  lemma SetPageOwned(c: Core, f: nat, v: nat)
    requires Shape(c) && Owned(c) && f < FRAMES && c.phys[f] && Unnamed(c, f)
    requires 0 < v < VPAGES
    ensures Owned(c.(pages := c.pages[v := f * PAGE], virt := c.virt[v := true]))
  {
  }

  // Mapping a page to a marked frame nothing else uses; a page mapped before loses its old frame.
  lemma MapMarkedInv(c: Core, f: nat, v: nat)
    requires Inv(c) && 0 < v < VPAGES && f < FRAMES && c.phys[f] && Unnamed(c, f)
    ensures MapPage(c, v, f * PAGE).Some? ==> Inv(MapPage(c, v, f * PAGE).value)
  {
    var d := v / ENTRIES;
    if EnsureTable(c, d).Some? {
      var c1 := EnsureTable(c, d).value;
      EnsureTableOwned(c, d);
      SetPageOwned(c1, f, v);
      var r := MapPage(c, v, f * PAGE).value;
      assert c1.phys[f * PAGE / PAGE := true] == c1.phys;
      assert r == c1.(pages := c1.pages[v := f * PAGE], virt := c1.virt[v := true]);
      forall e | 0 <= e < ENTRIES
        ensures r.dir[e] != 0 <==> SlotUsed(r.pages, e)
      {
        SlotUsedAfterMap(c.pages, v, f * PAGE, e);
      }
    }
  }

  lemma MapPageInv(c: Core, f: nat, v: nat)
    requires Inv(c) && 0 < v < VPAGES && f < FRAMES && !c.phys[f]
    ensures var c1 := c.(phys := c.phys[f := true]);
            Inv(c1) && (MapPage(c1, v, f * PAGE).Some? ==> Inv(MapPage(c1, v, f * PAGE).value))
  {
    MarkFrame(c, f);
    MapMarkedInv(c.(phys := c.phys[f := true]), f, v);
  }

  ghost predicate Unmapped(pages: seq<nat>, v: nat, n: nat)
    requires v + n <= |pages|
  {
    forall u :: v <= u < v + n ==> pages[u] == 0
  }

  // The loop of n_malloc after n rounds, or the round in which it gave up.
  ghost function MapRange(c: Core, v: nat, n: nat): (r: Progress)
    requires Inv(c) && 0 < v && v + n <= VPAGES && Unmapped(c.pages, v, n)
    ensures Inv(r.core)
    ensures r.Mapped? ==> forall u :: 0 <= u < VPAGES && !(v <= u < v + n) ==> r.core.pages[u] == c.pages[u]
    ensures !r.Mapped? ==> r.done < n
    decreases n
  {
    if n == 0 then Mapped(c)
    else
      match MapRange(c, v, n - 1)
      case Mapped(c1) => MapNext(c1, v + n - 1, n - 1)
      case failed => failed
  }

  // ----- frames that are marked but serve no purpose -----

  ghost function Leaked(c: Core): set<nat>
    requires Shape(c)
  {
    set f: nat | f < FRAMES && c.phys[f] && Unnamed(c, f)
  }

  // Freeing a page gives back its frame, and its table's frame when the table empties: no leak.
  lemma FreePageLeaksNothing(c: Core, v: nat)
    requires Inv(c) && v < VPAGES
    ensures Leaked(FreePage(c, v)) == Leaked(c)
  {
    var r := FreePage(c, v);
    var d := v / ENTRIES;
    assert forall u :: 0 <= u < VPAGES ==> r.pages[u] == if u == v then 0 else c.pages[u];
    assert forall e :: 0 <= e < ENTRIES ==> r.dir[e] == c.dir[e] || (e == d && r.dir[e] == 0);
    forall f: nat | f < FRAMES
      ensures r.phys[f] && Unnamed(r, f) <==> c.phys[f] && Unnamed(c, f)
    {
      if r.phys[f] && Unnamed(r, f) {
        forall u | 0 <= u < VPAGES
          ensures c.pages[u] != f * PAGE
        {
          assert r.pages[u] != f * PAGE;
        }
        forall e | 0 <= e < ENTRIES
          ensures c.dir[e] != f * PAGE
        {
          assert r.dir[e] != f * PAGE;
        }
      }
    }
  }

  lemma EnsureTableLeaksNothing(c: Core, d: nat)
    requires Shape(c) && Owned(c) && d < ENTRIES && EnsureTable(c, d).Some?
    ensures Leaked(EnsureTable(c, d).value) == Leaked(c)
  {
    var r := EnsureTable(c, d).value;
    EnsureTableOwned(c, d);
    assert forall e :: 0 <= e < ENTRIES ==> r.dir[e] == if e == d then r.dir[d] else c.dir[e];
    forall f: nat | f < FRAMES
      ensures r.phys[f] && Unnamed(r, f) <==> c.phys[f] && Unnamed(c, f)
    {
      if r.phys[f] && Unnamed(r, f) {
        forall e | 0 <= e < ENTRIES
          ensures c.dir[e] != f * PAGE
        {
          assert r.dir[e] != f * PAGE;
        }
      }
    }
  }

  // A round leaks nothing unless map_page fails, and then exactly the page's frame.
  lemma MapNextLeaks(c: Core, v: nat, done: nat)
    requires Inv(c) && 0 < v < VPAGES && c.pages[v] == 0
    ensures var r := MapNext(c, v, done);
            && Leaked(r.core) == Leaked(c) + (if r.NoTable? then {r.lost} else {})
            && (r.NoTable? ==> r.lost !in Leaked(c))
  {
    var f := FirstClear(c.phys, 0);
    if f < FRAMES {
      var c1 := c.(phys := c.phys[f := true]);
      MapPageInv(c, f, v);
      MarkFrame(c, f);
      assert Leaked(c1) == Leaked(c) + {f} by {
        forall g: nat | g < FRAMES
          ensures Unnamed(c1, g) <==> Unnamed(c, g)
        {
        }
      }
      if EnsureTable(c1, v / ENTRIES).Some? {
        EnsureTableOwned(c1, v / ENTRIES);
        EnsureTableLeaksNothing(c1, v / ENTRIES);
        NamingLeaks(EnsureTable(c1, v / ENTRIES).value, f, v);
      }
    }
  }

  // Naming a leaked frame as a page's data removes it, and only it, from the leaked ones.
  lemma NamingLeaks(c: Core, f: nat, v: nat)
    requires Shape(c) && Owned(c) && v < VPAGES && c.pages[v] == 0 && f in Leaked(c)
    ensures var r := c.(pages := c.pages[v := f * PAGE], phys := c.phys[f * PAGE / PAGE := true],
        virt := c.virt[v := true]);
            Leaked(r) == Leaked(c) - {f}
  {
    var r := c.(pages := c.pages[v := f * PAGE], phys := c.phys[f := true], virt := c.virt[v := true]);
    forall g: nat | g < FRAMES
      ensures r.phys[g] && Unnamed(r, g) <==> c.phys[g] && Unnamed(c, g) && g != f
    {
      if g == f {
        assert r.pages[v] == f * PAGE;
      } else if r.phys[g] && Unnamed(r, g) {
        assert forall u :: 0 <= u < VPAGES && u != v ==> c.pages[u] == r.pages[u];
      }
    }
  }
}
