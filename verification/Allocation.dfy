// What n_malloc and n_free promise: first fit, exact undoing, clean failure, an exact
// condition for success, and an account of every marked frame.
module Allocation {
  import opened Wrappers
  import opened PageTables

  const ADDRESSES: nat := 0x1_0000_0000

  // ----- get_next_avail -----

  predicate FreeRun(virt: seq<bool>, u: nat, n: nat) {
    u + n <= |virt| && forall i :: u <= i < u + n ==> !virt[i]
  }

  // The lowest run of n clear bits starting at u or above.
  function FirstRun(virt: seq<bool>, u: nat, n: nat): (r: Option<nat>)
    requires u <= |virt|
    ensures r.Some? ==> r.value >= u && FreeRun(virt, r.value, n)
    ensures r.Some? ==> forall w :: u <= w < r.value ==> !FreeRun(virt, w, n)
    ensures r.None? ==> forall w :: u <= w ==> !FreeRun(virt, w, n)
    decreases |virt| - u
  {
    if FreeRun(virt, u, n) then Some(u)
    else if u < |virt| then FirstRun(virt, u + 1, n)
    else None
  }

  function SetRange(bits: seq<bool>, u: nat, n: nat, b: bool): (r: seq<bool>)
    ensures |r| == |bits|
    ensures forall i :: 0 <= i < |bits| ==> r[i] == if u <= i < u + n then b else bits[i]
  {
    seq(|bits|, i requires 0 <= i < |bits| => if u <= i < u + n then b else bits[i])
  }

  // ----- n_malloc -----

  // Pages for a byte count, in the source's 32-bit arithmetic: just enough to hold the bytes, and
  // none when rounding up leaves 32 bits.
  function PageCount(bytes: nat): (n: nat)
    ensures n < VPAGES
    ensures bytes <= ADDRESSES - PAGE ==> PAGE * n - PAGE < bytes <= PAGE * n
    ensures ADDRESSES - PAGE < bytes < ADDRESSES ==> n == 0
  {
    (bytes + PAGE - 1) % ADDRESSES / PAGE
  }

  // The tables after n_malloc(bytes) and the address it returns, 0 for NULL.
  ghost function Malloc(c: Core, bytes: nat): (r: (Core, nat))
    requires Inv(c)
    ensures Inv(r.0)
  {
    var n := PageCount(bytes);
    if n == 0 then (c, 0)
    else
      match FirstRun(c.virt, 1, n)
      case None => (c, 0)
      case Some(v) =>
        match MapRange(Reserved(c, v, n), v, n)
        case Mapped(c1) => (c1, v * PAGE)
        case NoFrame(c1, k) => (FreeRange(c1, v, k), 0)
        case NoTable(c1, k, _) => (FreeRange(c1, v, k), 0)
  }

  // The tables once get_next_avail has set the bits of a run.
  ghost function Reserved(c: Core, v: nat, n: nat): (r: Core)
    requires Inv(c)
    ensures Inv(r)
  {
    c.(virt := SetRange(c.virt, v, n, true))
  }

  // ----- what a run of mappings and a run of unmappings do -----

  // Page u is among the n pages from v on, which wrap to page 0 at the top.
  ghost predicate InSpan(u: nat, v: nat, n: nat) {
    v <= u < v + n || u + VPAGES < v + n
  }

  // n_free of this many bytes at va reaches the page of address a: it begins fewer than so many
  // bytes after the page of va, going on at the bottom behind the top.
  predicate Covers(va: nat, bytes: nat, a: nat) {
    var d := a / PAGE - va / PAGE;
    PAGE * (if d >= 0 then d else d + VPAGES) < bytes <= ADDRESSES - PAGE
  }

  lemma CoversIsSpan(va: nat, bytes: nat, a: nat)
    requires va < ADDRESSES && a < ADDRESSES && bytes < ADDRESSES
    ensures Covers(va, bytes, a) <==> InSpan(a / PAGE, va / PAGE, PageCount(bytes))
  {
    hide PageCount;
  }

  // From the start of a page on, these are the pages of the bytes and no others.
  lemma CoversBytes(va: nat, bytes: nat, a: nat)
    requires va % PAGE == 0 && va < ADDRESSES && a < ADDRESSES && bytes <= ADDRESSES - PAGE
    ensures va <= a < va + bytes ==> Covers(va, bytes, a)
    ensures va <= a && Covers(va, bytes, a) ==> a / PAGE * PAGE < va + bytes
    ensures a < va ==> (Covers(va, bytes, a) <==> a / PAGE * PAGE + ADDRESSES < va + bytes)
  {
  }

  ghost predicate FreedOver(c: Core, r: Core, v: nat, n: nat)
    requires Shape(c) && Shape(r)
  {
    && (forall u :: 0 <= u < VPAGES ==> r.pages[u] == if InSpan(u, v, n) then 0 else c.pages[u])
    && (forall u :: 0 <= u < VPAGES ==> r.virt[u] == (c.virt[u] && !(InSpan(u, v, n) && c.pages[u] != 0)))
    && (forall d :: 0 <= d < ENTRIES && r.dir[d] != 0 ==> r.dir[d] == c.dir[d])
  }

  lemma FreePageFacts(c: Core, w: nat)
    requires Inv(c) && w < VPAGES
    ensures var r := FreePage(c, w);
            && r.pages == c.pages[w := 0]
            && r.virt == (if c.pages[w] != 0 then c.virt[w := false] else c.virt)
            && (forall d :: 0 <= d < ENTRIES && r.dir[d] != 0 ==> r.dir[d] == c.dir[d])
  {
    assert c.pages[w] == 0 ==> c.pages[w := 0] == c.pages;
  }

  lemma FreedOneMore(c: Core, c1: Core, r: Core, v: nat, n: nat, w: nat)
    requires Shape(c) && Shape(c1) && Shape(r)
    requires v < VPAGES && n < VPAGES && w == if v + n < VPAGES then v + n else v + n - VPAGES
    requires FreedOver(c, c1, v, n)
    requires r.pages == c1.pages[w := 0]
    requires r.virt == if c1.pages[w] != 0 then c1.virt[w := false] else c1.virt
    requires forall d :: 0 <= d < ENTRIES && r.dir[d] != 0 ==> r.dir[d] == c1.dir[d]
    ensures FreedOver(c, r, v, n + 1)
  {
  }

  lemma FreedNothing(c: Core, v: nat)
    requires Shape(c) && v < VPAGES
    ensures FreedOver(c, c, v, 0)
  {
  }

  lemma {:induction false} FreeRangeFacts(c: Core, v: nat, n: nat)
    requires Inv(c) && v < VPAGES && n <= VPAGES
    ensures FreedOver(c, FreeRange(c, v, n), v, n)
    ensures Leaked(FreeRange(c, v, n)) == Leaked(c)
    decreases n
  {
    hide Owned, NoEmptyTable, Leaked, FreePage, FreedOver;
    if n == 0 {
      FreedNothing(c, v);
    } else {
      var c1 := FreeRange(c, v, n - 1);
      var w := PageAfter(v, n - 1);
      FreeRangeFacts(c, v, n - 1);
      FreePageLeaksNothing(c1, w);
      FreePageFacts(c1, w);
      FreedOneMore(c, c1, FreePage(c1, w), v, n - 1, w);
    }
  }

  lemma UnmappedPrefix(pages: seq<nat>, v: nat, i: nat, n: nat)
    requires v + n <= |pages| && i <= n && Unmapped(pages, v, n)
    ensures Unmapped(pages, v, i)
  {
  }

  ghost function Rounds(r: Progress, n: nat): nat {
    if r.Mapped? then n else r.done
  }

  ghost predicate MappedOver(c: Core, r: Core, v: nat, k: nat)
    requires Shape(c) && Shape(r)
  {
    && (forall u :: 0 <= u < VPAGES ==> if v <= u < v + k then r.pages[u] != 0 else r.pages[u] == c.pages[u])
    && (forall u :: 0 <= u < VPAGES ==> r.virt[u] == (c.virt[u] || v <= u < v + k))
    && (forall d :: 0 <= d < ENTRIES && c.dir[d] != 0 ==> r.dir[d] == c.dir[d])
    && (forall f :: 0 <= f < FRAMES && c.phys[f] ==> r.phys[f])
  }

  lemma MappedNothing(c: Core, v: nat)
    requires Shape(c)
    ensures MappedOver(c, c, v, 0)
  {
  }

  lemma MapNextFacts(c: Core, v: nat, done: nat)
    requires Inv(c) && 0 < v < VPAGES && c.pages[v] == 0
    ensures var r := MapNext(c, v, done);
            && MappedOver(c, r.core, v, if r.Mapped? then 1 else 0)
            && (r.NoTable? ==> r.lost < FRAMES && !c.phys[r.lost])
  {
  }

  lemma StillMarked(c: Core, r: Core, v: nat, k: nat, f: nat)
    requires Shape(c) && Shape(r) && MappedOver(c, r, v, k) && f < FRAMES
    ensures c.phys[f] ==> r.phys[f]
  {
  }

  lemma MappedOneMore(c: Core, c1: Core, r: Core, v: nat, n: nat, more: nat)
    requires Shape(c) && Shape(c1) && Shape(r)
    requires v + n < VPAGES && more <= 1
    requires MappedOver(c, c1, v, n) && MappedOver(c1, r, v + n, more)
    ensures MappedOver(c, r, v, n + more)
  {
  }

  lemma {:induction false} MapRangeFacts(c: Core, v: nat, n: nat)
    requires Inv(c) && 0 < v && v + n <= VPAGES && Unmapped(c.pages, v, n)
    ensures var r := MapRange(c, v, n);
            && MappedOver(c, r.core, v, Rounds(r, n))
            && (r.NoTable? ==> r.lost < FRAMES && !c.phys[r.lost])
    decreases n
  {
    hide Owned, NoEmptyTable, MappedOver, MapNext;
    MappedNothing(c, v);
    if n > 0 {
      UnmappedPrefix(c.pages, v, n - 1, n);
      MapRangeFacts(c, v, n - 1);
      var r := MapRange(c, v, n - 1);
      if r.Mapped? {
        MapNextFacts(r.core, v + n - 1, n - 1);
        var s := MapNext(r.core, v + n - 1, n - 1);
        MappedOneMore(c, r.core, s.core, v, n - 1, if s.Mapped? then 1 else 0);
        if s.NoTable? {
          StillMarked(c, r.core, v, n - 1, s.lost);
        }
      }
    }
  }

  lemma {:induction false} MapRangeLeaks(c: Core, v: nat, n: nat)
    requires Inv(c) && 0 < v && v + n <= VPAGES && Unmapped(c.pages, v, n)
    ensures var r := MapRange(c, v, n);
            Leaked(r.core) == Leaked(c) + (if r.NoTable? then {r.lost} else {})
    decreases n
  {
    hide Owned, NoEmptyTable, Leaked, MapNext;
    if n > 0 {
      UnmappedPrefix(c.pages, v, n - 1, n);
      MapRangeLeaks(c, v, n - 1);
      var r := MapRange(c, v, n - 1);
      if r.Mapped? {
        MapNextLeaks(r.core, v + n - 1, n - 1);
      }
    }
  }

  // The marked frames follow from the mapping and the leaked frames.
  lemma MarkedFrames(c: Core, c': Core)
    requires Inv(c) && Inv(c') && c.dir == c'.dir && c.pages == c'.pages
    ensures forall f :: 0 <= f < FRAMES ==> (c'.phys[f] <==> f in Leaked(c') || (c.phys[f] && f !in Leaked(c)))
  {
    forall f: nat | f < FRAMES
      ensures Unnamed(c, f) <==> Unnamed(c', f)
      ensures !Unnamed(c, f) ==> c.phys[f] && c'.phys[f]
    {
    }
  }

  // Freeing the k pages that a run of mappings on c has added gives the directory, every
  // page-table entry and the frame bitmap back, up to frames lost in between.
  lemma FreeUndoesMap(c: Core, r: Core, v: nat, k: nat, lost: set<nat>)
    requires Inv(c) && Inv(r) && 0 < v < VPAGES && v + k <= VPAGES && Unmapped(c.pages, v, k)
    requires MappedOver(c, r, v, k)
    requires Leaked(r) == Leaked(c) + lost
    requires forall f :: f in lost ==> f < FRAMES && !c.phys[f]
    ensures var e := FreeRange(r, v, k);
            && e.dir == c.dir && e.pages == c.pages
            && e.virt == SetRange(c.virt, v, k, false)
            && |e.phys| == |c.phys| && (forall f :: 0 <= f < FRAMES ==> e.phys[f] == (c.phys[f] || f in lost))
  {
    var e := FreeRange(r, v, k);
    FreeRangeFacts(r, v, k);
    forall u | 0 <= u < VPAGES
      ensures InSpan(u, v, k) <==> v <= u < v + k
    {
    }
    assert e.pages == c.pages;
    assert e.dir == c.dir by {
      forall d | 0 <= d < ENTRIES
        ensures e.dir[d] == c.dir[d]
      {
        assert c.dir[d] != 0 <==> SlotUsed(c.pages, d);
        assert e.dir[d] != 0 <==> SlotUsed(e.pages, d);
      }
    }
    MarkedFrames(c, e);
    assert e.virt == SetRange(c.virt, v, k, false);
  }
}
