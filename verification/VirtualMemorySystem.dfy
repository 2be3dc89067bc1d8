// The simulated virtual memory itself: physical memory with the page directory and the page
// tables inside it, the two bitmaps, the buffer and the counters, updated in place.
module VirtualMemorySystem {
  import opened Wrappers
  import opened Bytes
  import opened Bitmaps
  import opened PageTables
  import opened Allocation
  import opened AllocationTheorems
  import opened PhysicalMemory
  import opened TlbCache

  // ----- addresses -----

  // PDX, PTX and OFF of a 32-bit address.
  function PDX(va: nat): nat
    requires va < ADDRESSES
    ensures PDX(va) < ENTRIES
  {
    va / 0x40_0000 % 0x400
  }

  function PTX(va: nat): nat
    requires va < ADDRESSES
    ensures PTX(va) < ENTRIES
  {
    va / 0x1000 % 0x400
  }

  function OFF(va: nat): nat
    requires va < ADDRESSES
    ensures OFF(va) < PAGE
  {
    va % 0x1000
  }

  // Addition of 32-bit unsigned values.
  function Add32(a: nat, b: nat): (r: nat)
    requires a < ADDRESSES && b < ADDRESSES
    ensures r == if a + b < ADDRESSES then a + b else a + b - ADDRESSES
  {
    (a + b) % ADDRESSES
  }

  // The three fields make up the address, and the first two its virtual page number.
  lemma AddressSplit(va: nat)
    requires va < ADDRESSES
    ensures va == (PDX(va) * ENTRIES + PTX(va)) * PAGE + OFF(va)
    ensures va / PAGE == PDX(va) * ENTRIES + PTX(va)
    ensures va / PAGE / ENTRIES == PDX(va) && va / PAGE % ENTRIES == PTX(va)
  {
  }

  lemma WrappedAddress(va: nat, i: nat)
    requires va < ADDRESSES && i < VPAGES
    ensures var u := (va + i * PAGE) % ADDRESSES;
            u / PAGE == PageAfter(va / PAGE, i) && (u == INVALID_PA ==> va % PAGE == PAGE - 1 && u / PAGE == VPAGES - 1)
  {
    var u := (va + i * PAGE) % ADDRESSES;
    assert u == if va + i * PAGE < ADDRESSES then va + i * PAGE else va + i * PAGE - ADDRESSES;
    assert u % PAGE == va % PAGE;
  }

  // The i-th of n pages from v on is in the span of them.
  lemma ReachesTop(v: nat, i: nat, n: nat)
    requires v < VPAGES && i < n < VPAGES
    ensures PageAfter(v, i) == VPAGES - 1 ==> InSpan(VPAGES - 1, v, n)
  {
  }

  // The n pages from v on are no longer in the buffer; every other page is if it was.
  ghost predicate ForgetsSpan(t: TlbState, t': TlbState, v: nat, n: nat) {
    forall u: nat :: u < VPAGES ==> Lookup(t', u) == if InSpan(u, v, n) then None else Lookup(t, u)
  }

  lemma ForgetsNothing(t: TlbState, v: nat)
    requires v < VPAGES
    ensures ForgetsSpan(t, t, v, 0)
  {
    hide Lookup;
  }

  lemma StillMissing(t: TlbState, t': TlbState, v: nat, n: nat, u: nat)
    requires ForgetsSpan(t, t', v, n) && u < VPAGES && Lookup(t, u) == None
    ensures Lookup(t', u) == None
  {
    hide Lookup, InSpan;
  }

  lemma ForgetsOneMore(t: TlbState, t1: TlbState, t2: TlbState, v: nat, i: nat)
    requires v < VPAGES && i < VPAGES && ForgetsSpan(t, t1, v, i) && Forgets(t1, t2, PageAfter(v, i))
    ensures ForgetsSpan(t, t2, v, i + 1)
  {
    hide Lookup;
  }

  // The same said by addresses.
  lemma ForgetsCovered(t: TlbState, t': TlbState, va: nat, bytes: nat)
    requires va < ADDRESSES && bytes < ADDRESSES && ForgetsSpan(t, t', va / PAGE, PageCount(bytes))
    ensures forall a: nat :: a < ADDRESSES ==>
              Lookup(t', a / PAGE) == if Covers(va, bytes, a) then None else Lookup(t, a / PAGE)
  {
    hide Lookup, PageCount, Covers, InSpan;
    forall a: nat | a < ADDRESSES
      ensures Lookup(t', a / PAGE) == if Covers(va, bytes, a) then None else Lookup(t, a / PAGE)
    {
      CoversIsSpan(va, bytes, a);
    }
  }

  // The conversion of an unsigned value to the 32-bit int parameter of n_free.
  function AsInt(x: nat): int
    requires x < ADDRESSES
  {
    if x < 0x8000_0000 then x else x - ADDRESSES
  }

  // ----- bytes that stay in their frames -----

  // The frames of the given pages hold the same bytes.
  ghost predicate Kept(m: seq<Byte>, m': seq<Byte>, pages: seq<nat>)
    requires |m| == MEM && |m'| == MEM
  {
    forall v :: 0 <= v < |pages| && pages[v] != 0 ==> pages[v] + PAGE <= MEM && SameFrame(m, m', pages[v])
  }

  lemma StoreKeeps(m: seq<Byte>, m': seq<Byte>, pages: seq<nat>, q: nat, off: nat, bs: seq<Byte>)
    requires |m| == MEM && |m'| == MEM && Kept(m, m', pages)
    requires q % PAGE == 0 && q + PAGE <= MEM && off + |bs| <= PAGE
    requires forall v :: 0 <= v < |pages| && pages[v] != 0 ==> FrameAddress(pages[v]) && pages[v] != q
    ensures Kept(m, Overlay(m', q + off, bs), pages)
  {
    forall v | 0 <= v < |pages| && pages[v] != 0
      ensures SameFrame(m, Overlay(m', q + off, bs), pages[v])
    {
      StoreKeepsFrame(m', q, off, bs, pages[v]);
    }
  }

  lemma KeptSelf(m: seq<Byte>, pages: seq<nat>)
    requires |m| == MEM && forall v :: 0 <= v < |pages| && pages[v] != 0 ==> FrameAddress(pages[v])
    ensures Kept(m, m, pages)
  {
  }

  lemma KeptTrans(m: seq<Byte>, m1: seq<Byte>, m2: seq<Byte>, pages: seq<nat>)
    requires |m| == MEM && |m1| == MEM && |m2| == MEM && Kept(m, m1, pages) && Kept(m1, m2, pages)
    ensures Kept(m, m2, pages)
  {
    forall v | 0 <= v < |pages| && pages[v] != 0
      ensures SameFrame(m, m2, pages[v])
    {
      assert SameFrame(m, m1, pages[v]) && SameFrame(m1, m2, pages[v]);
    }
  }

  lemma KeptFewer(m: seq<Byte>, m': seq<Byte>, pages: seq<nat>, v: nat)
    requires |m| == MEM && |m'| == MEM && Kept(m, m', pages) && v < |pages|
    ensures Kept(m, m', pages[v := 0])
  {
  }

  // Every page mapped in `older` is mapped to the same frame in `newer`.
  ghost predicate Extends(older: seq<nat>, newer: seq<nat>) {
    |older| == |newer| && forall u :: 0 <= u < |older| && older[u] != 0 ==> newer[u] == older[u]
  }

  lemma ExtendsItself(pages: seq<nat>)
    ensures Extends(pages, pages)
  {
  }

  lemma KeptOlder(m: seq<Byte>, m': seq<Byte>, older: seq<nat>, newer: seq<nat>)
    requires |m| == MEM && |m'| == MEM && Extends(older, newer) && Kept(m, m', newer)
    ensures Kept(m, m', older)
  {
  }

  lemma MappedExtends(c: Core, r: Core, v: nat, k: nat, n: nat)
    requires Shape(c) && Shape(r) && k <= n && v + n <= VPAGES && Unmapped(c.pages, v, n) && MappedOver(c, r, v, k)
    ensures Extends(c.pages, r.pages)
  {
  }

  // Where a page keeps its frame and the frame its bytes, the user reads the same bytes.
  lemma KeptUser(m: seq<Byte>, m': seq<Byte>)
    requires |m| == MEM && |m'| == MEM && Kept(m, m', Pages(m'))
    requires forall v :: 0 <= v < VPAGES && Pages(m')[v] != 0 ==> Pages(m')[v] == Pages(m)[v]
    ensures PhysicalMemory.User(m') == map a | a in PhysicalMemory.User(m)
              && Pages(m')[a / PAGE] != 0 :: PhysicalMemory.User(m)[a]
  {
    hide Walk, SameFrame;
    forall a: nat | a < ADDRESSES && Walk(m', a / PAGE) != 0
      ensures Walk(m, a / PAGE) == Walk(m', a / PAGE) && UserByte(m', a) == UserByte(m, a)
    {
      assert Pages(m')[a / PAGE] == Pages(m)[a / PAGE];
      SameFrameAt(m, m', Pages(m)[a / PAGE], a % PAGE);
    }
  }

  lemma KeptForUser(m: seq<Byte>, m': seq<Byte>, pages: seq<nat>)
    requires |m| == MEM && |m'| == MEM && pages == Pages(m) && Extends(pages, Pages(m')) && Kept(m, m', pages)
    ensures forall a :: a in PhysicalMemory.User(m) ==>
              a in PhysicalMemory.User(m') && PhysicalMemory.User(m')[a] == PhysicalMemory.User(m)[a]
  {
    hide Walk, SameFrame;
    forall a: nat | a < ADDRESSES && Walk(m, a / PAGE) != 0
      ensures Walk(m, a / PAGE) == Walk(m', a / PAGE) && UserByte(m', a) == UserByte(m, a)
    {
      assert Pages(m')[a / PAGE] == Pages(m)[a / PAGE];
      SameFrameAt(m, m', Pages(m)[a / PAGE], a % PAGE);
    }
  }

  // What n_malloc maps, address by address: all the bytes asked for, and no page behind them.
  lemma AllocatedUser(m: seq<Byte>, m': seq<Byte>, c: Core, bytes: nat)
    requires |m| == MEM && |m'| == MEM && Inv(c) && bytes < ADDRESSES
    requires c.pages == Pages(m) && Malloc(c, bytes).0.pages == Pages(m')
    ensures var va := Malloc(c, bytes).1; var u, u' := PhysicalMemory.User(m), PhysicalMemory.User(m');
            if va == 0 then u'.Keys == u.Keys
            else
              && va % PAGE == 0 && 0 < bytes && va + bytes <= ADDRESSES
              && (forall a: nat :: va <= a < va + bytes ==> a in u' && a !in u)
              && (forall a: nat :: a in u' && a !in u ==> va <= a && a / PAGE * PAGE < va + bytes)
  {
    hide Owned, NoEmptyTable, Malloc, Walk, UserByte;
    var (r, va) := Malloc(c, bytes);
    forall a: nat | a < ADDRESSES
      ensures a in PhysicalMemory.User(m) <==> c.pages[a / PAGE] != 0
      ensures a in PhysicalMemory.User(m') <==> r.pages[a / PAGE] != 0
    {
      assert c.pages[a / PAGE] == Walk(m, a / PAGE) && r.pages[a / PAGE] == Walk(m', a / PAGE);
    }
    if va == 0 {
      MallocKeepsPages(c, bytes);
    } else {
      MallocSomewhere(c, bytes);
      forall a: nat | a < ADDRESSES
        ensures va <= a < va + bytes ==> a in PhysicalMemory.User(m') && a !in PhysicalMemory.User(m)
        ensures r.pages[a / PAGE] != c.pages[a / PAGE] ==> va <= a && a / PAGE * PAGE < va + bytes
      {
        MallocCovers(c, bytes, a);
      }
    }
  }

  lemma MallocRefusesAll(c: Core, bytes: nat)
    requires Inv(c) && bytes < ADDRESSES
    ensures bytes == 0 || bytes > ADDRESSES - PAGE ==> Malloc(c, bytes) == (c, 0)
    ensures 0 < bytes <= ADDRESSES - PAGE ==> PageCount(bytes) == (bytes + PAGE - 1) / PAGE
  {
    hide Malloc;
    if bytes == 0 || bytes > ADDRESSES - PAGE {
      MallocRefuses(c, bytes);
    }
  }

  lemma MallocSomewhere(c: Core, bytes: nat)
    requires Inv(c) && bytes < ADDRESSES && Malloc(c, bytes).1 != 0
    ensures var va := Malloc(c, bytes).1; va % PAGE == 0 && 0 < bytes && va + bytes <= ADDRESSES
  {
    MallocCovers(c, bytes, 0);
  }

  lemma MallocKeepsPages(c: Core, bytes: nat)
    requires Inv(c) && Malloc(c, bytes).1 == 0
    ensures Malloc(c, bytes).0.pages == c.pages
  {
    hide Owned, NoEmptyTable, MapRange, PageCount, FirstRun, Malloc;
    MallocFails(c, bytes);
  }

  lemma FreedUser(m: seq<Byte>, m': seq<Byte>, c: Core, c': Core, va: nat, bytes: nat)
    requires |m| == MEM && |m'| == MEM && Shape(c) && Shape(c') && va < ADDRESSES && bytes < ADDRESSES
    requires c.pages == Pages(m) && c'.pages == Pages(m')
    requires FreedOver(c, c', va / PAGE, PageCount(bytes)) && Kept(m, m', c'.pages)
    ensures PhysicalMemory.User(m') ==
              map a | a in PhysicalMemory.User(m) && !Covers(va, bytes, a) :: PhysicalMemory.User(m)[a]
  {
    hide Walk, Kept, Covers, InSpan, PageCount;
    KeptUser(m, m');
    forall a: nat | a < ADDRESSES
      ensures c.pages[a / PAGE] == Walk(m, a / PAGE)
      ensures c'.pages[a / PAGE] == if Covers(va, bytes, a) then 0 else c.pages[a / PAGE]
    {
      CoversIsSpan(va, bytes, a);
    }
  }

  // ----- frames and tables -----

  lemma DataFrames(c: Core)
    requires Inv(c)
    ensures forall v :: 0 <= v < VPAGES && c.pages[v] != 0 ==> FrameAddress(c.pages[v])
  {
  }

  lemma UnmarkedFrame(c: Core, f: nat)
    requires Inv(c) && f < FRAMES && !c.phys[f]
    ensures FrameAddress(f * PAGE)
    ensures forall d :: 0 <= d < ENTRIES ==> c.dir[d] != f * PAGE
    ensures forall v :: 0 <= v < VPAGES ==> c.pages[v] != f * PAGE
  {
  }

  // A linked table's frame is a frame, and no page's.
  lemma LinkedFrame(c: Core, d: nat)
    requires Shape(c) && Owned(c) && d < ENTRIES && c.dir[d] != 0
    ensures FrameAddress(c.dir[d])
    ensures forall v :: 0 <= v < VPAGES && c.pages[v] != 0 ==> FrameAddress(c.pages[v]) && c.pages[v] != c.dir[d]
  {
  }

  lemma UnlinkedPage(c: Core, v: nat)
    requires Inv(c) && v < VPAGES && c.dir[v / ENTRIES] == 0
    ensures c.pages[v] == 0
  {
  }

  lemma WalkThrough(m: seq<Byte>, v: nat, pde: nat)
    requires |m| == MEM && v < VPAGES && pde == Pde(m, v / ENTRIES) && 0 < pde && pde + PAGE <= MEM
    ensures Pages(m)[v] == Word(m, pde + 4 * (v % ENTRIES))
  {
  }

  // A table whose words are all zero maps none of its slot's pages, and conversely.
  lemma EmptyMeansUnused(m: seq<Byte>, d: nat)
    requires |m| == MEM && d < ENTRIES && FrameAddress(Pde(m, d))
    ensures SlotUsed(Pages(m), d) <==> !forall t :: 0 <= t < ENTRIES ==> Word(m, Pde(m, d) + 4 * t) == 0
  {
    hide Word, Pde;
    forall t | 0 <= t < ENTRIES
      ensures Pages(m)[d * ENTRIES + t] == Word(m, Pde(m, d) + 4 * t)
    {
      assert (d * ENTRIES + t) / ENTRIES == d && (d * ENTRIES + t) % ENTRIES == t;
    }
    if SlotUsed(Pages(m), d) {
      var v: nat :| v < VPAGES && v / ENTRIES == d && Pages(m)[v] != 0;
      assert v == d * ENTRIES + v % ENTRIES;
      assert Word(m, Pde(m, d) + 4 * (v % ENTRIES)) != 0;
    }
  }

  lemma UnusedSlot(pages: seq<nat>, d: nat, m: seq<Byte>)
    requires |m| == MEM && pages == Pages(m) && !SlotUsed(pages, d)
    ensures forall v :: 0 <= v < VPAGES && v / ENTRIES == d ==> Walk(m, v) == 0
  {
    hide Walk;
    forall v | 0 <= v < VPAGES && v / ENTRIES == d
      ensures Walk(m, v) == 0
    {
      assert pages[v] == 0;
    }
  }

  lemma SameDirTablesApart(m: seq<Byte>, m': seq<Byte>)
    requires TablesApart(m) && |m'| == MEM && Dir(m') == Dir(m)
    ensures TablesApart(m')
  {
    hide Pde;
    assert forall d :: 0 <= d < ENTRIES ==> Dir(m')[d] == Pde(m, d);
  }

  lemma ClearedDirectory(m: seq<Byte>)
    requires |m| == MEM && forall i :: 0 <= i < PAGE ==> m[i] == 0
    ensures Dir(m) == Fresh().dir && Pages(m) == Fresh().pages
  {
    forall d | 0 <= d < ENTRIES
      ensures Pde(m, d) == 0
    {
      var a := 4 * d;
      assert m[a] == 0 && m[a + 1] == 0 && m[a + 2] == 0 && m[a + 3] == 0;
    }
  }

  lemma InitialCore(m: seq<Byte>, pb: seq<Byte>, vb: seq<Byte>)
    requires |m| == MEM && (forall i :: 0 <= i < PAGE ==> m[i] == 0)
    requires |pb| == FRAMES / 8 && (forall i :: 0 <= i < |pb| ==> pb[i] == 0)
    requires |vb| == VPAGES / 8 && (forall i :: 0 <= i < |vb| ==> vb[i] == 0)
    ensures FirstClear(Bits(pb), 0) == 0
    ensures PageTables.Core(Dir(m), Pages(m), Bits(pb)[0 := true], Bits(vb)) == Fresh()
  {
    ZeroBits(pb);
    ZeroBits(vb);
    assert Bits(vb) == Fresh().virt;
    assert Bits(pb)[0 := true] == Fresh().phys;
    ClearedDirectory(m);
  }

  lemma FreshInv()
    ensures Inv(Fresh())
  {
    var c := Fresh();
    forall d | 0 <= d < ENTRIES
      ensures !SlotUsed(c.pages, d)
    {
    }
  }

  // ----- runs of pages -----

  // No run of n clear bits starts in [u, w), so the search may go on at w.
  lemma {:induction false} SkipRuns(bits: seq<bool>, u: nat, w: nat, n: nat)
    requires u <= w <= |bits|
    requires forall x :: u <= x < w ==> !FreeRun(bits, x, n)
    ensures FirstRun(bits, u, n) == FirstRun(bits, w, n)
    decreases w - u
  {
    if u < w {
      SkipRuns(bits, u + 1, w, n);
    }
  }

  lemma RunHere(bits: seq<bool>, u: nat, n: nat)
    requires FreeRun(bits, u, n)
    ensures FirstRun(bits, u, n) == Some(u)
  {
  }

  lemma NoRoom(bits: seq<bool>, u: nat, n: nat)
    requires u <= |bits| < u + n
    ensures FirstRun(bits, u, n) == None
  {
  }

  // Reserves a run of pages.
  method SetBits(bitmap: array<Byte>, start: nat, n: nat)
    requires start + n <= 8 * bitmap.Length
    modifies bitmap
    ensures Bits(bitmap[..]) == SetRange(old(Bits(bitmap[..])), start, n, true)
  {
    hide Bits;
    ghost var bits := Bits(bitmap[..]);
    for i := 0 to n
      invariant Bits(bitmap[..]) == SetRange(bits, start, i, true)
    {
      SetBit(bitmap, start + i);
    }
  }

  lemma MapRangeStart(c: Core, v: nat)
    requires Inv(c) && 0 < v < VPAGES
    ensures Unmapped(c.pages, v, 0) && MapRange(c, v, 0) == Mapped(c) && MappedOver(c, c, v, 0)
  {
    hide Owned, NoEmptyTable;
  }

  // The next round works on an unmapped page.
  lemma MapRangeStep(c: Core, v: nat, i: nat, n: nat)
    requires Inv(c) && 0 < v && i < n && v + n <= VPAGES && Unmapped(c.pages, v, n) && Unmapped(c.pages, v, i)
    requires MapRange(c, v, i).Mapped?
    ensures Unmapped(c.pages, v, i + 1)
    ensures var ci := MapRange(c, v, i).core;
            && ci.pages[v + i] == 0
            && MapRange(c, v, i + 1) == MapNext(ci, v + i, i)
            && (MapRange(c, v, i + 1).Mapped? ==> MappedOver(c, MapRange(c, v, i + 1).core, v, i + 1))
  {
    hide Owned, NoEmptyTable, MapNext, MappedOver;
    MapRangeFacts(c, v, i + 1);
  }

  // Once a round has failed, the loop is over.
  lemma {:induction false} MapRangeStuck(c: Core, v: nat, i: nat, n: nat)
    requires Inv(c) && 0 < v && v + n <= VPAGES && i <= n && Unmapped(c.pages, v, n) && Unmapped(c.pages, v, i)
    requires !MapRange(c, v, i).Mapped?
    ensures MapRange(c, v, n) == MapRange(c, v, i)
    decreases n
  {
    hide Owned, NoEmptyTable, MapNext;
    if i < n {
      UnmappedPrefix(c.pages, v, n - 1, n);
      MapRangeStuck(c, v, i, n - 1);
    }
  }

  // A failing round ends the loop, and freeing the pages mapped so far restores the mapping.
  lemma GivesUp(c: Core, v: nat, i: nat, n: nat)
    requires Inv(c) && 0 < v < VPAGES && i < n && v + n <= VPAGES && Unmapped(c.pages, v, n)
    requires Unmapped(c.pages, v, i + 1)
    requires var p := MapRange(c, v, i + 1); !p.Mapped? && p.done == i
    ensures var p := MapRange(c, v, i + 1);
            && MapRange(c, v, n) == p
            && Extends(c.pages, FreeRange(p.core, v, i).pages)
            && Free(p.core, v * PAGE, AsInt(i * PAGE)) == FreeRange(p.core, v, i)
  {
    hide Owned, NoEmptyTable, MapRange, FreeRange, Leaked;
    var p := MapRange(c, v, i + 1);
    MapRangeStuck(c, v, i + 1, n);
    MapRangeFacts(c, v, i + 1);
    FreeRangeFacts(p.core, v, i);
    assert AsInt(i * PAGE) % ADDRESSES == i * PAGE;
    assert PageCount(i * PAGE) == i;
    assert v * PAGE / PAGE == v;
  }

  // ----- user data -----

  // How many of the n bytes from address a on can be reached before the first unmapped page.
  function MappedPrefix(pages: seq<nat>, a: nat, n: nat): (k: nat)
    requires |pages| == VPAGES
    ensures k <= n
    decreases n
  {
    if n == 0 || a >= ADDRESSES || pages[a / PAGE] == 0 then 0 else 1 + MappedPrefix(pages, a + 1, n - 1)
  }

  // Address b can be translated.
  predicate Reachable(pages: seq<nat>, b: nat)
    requires |pages| == VPAGES
  {
    b < ADDRESSES && pages[b / PAGE] != 0
  }

  lemma {:induction false} PrefixReaches(pages: seq<nat>, a: nat, n: nat)
    requires |pages| == VPAGES
    ensures var k := MappedPrefix(pages, a, n);
            && (forall b: nat :: a <= b < a + k ==> Reachable(pages, b))
            && (k < n ==> !Reachable(pages, a + k))
    decreases n
  {
    if n > 0 && Reachable(pages, a) {
      PrefixReaches(pages, a + 1, n - 1);
    }
  }

  // It is the longest stretch of mapped addresses from a on.
  lemma PrefixIsLongest(pages: seq<nat>, a: nat, n: nat, k: nat)
    requires |pages| == VPAGES
    ensures MappedPrefix(pages, a, n) == k <==>
              && k <= n && (forall b: nat :: a <= b < a + k ==> Reachable(pages, b))
              && (k < n ==> !Reachable(pages, a + k))
  {
    hide MappedPrefix, Reachable;
    PrefixReaches(pages, a, n);
    var m := MappedPrefix(pages, a, n);
    if m < k <= n {
      assert !Reachable(pages, a + m);
    } else if k < m {
      assert Reachable(pages, a + k);
    }
  }

  // An address past the top wraps to page 0, which is never mapped.
  lemma UnmappedStops(c: Core, a: nat, n: nat)
    requires Inv(c) && a <= ADDRESSES && n > 0
    ensures var curr := if a < ADDRESSES then a else 0;
            && (c.pages[curr / PAGE] == 0 ==> MappedPrefix(c.pages, a, n) == 0)
            && (c.pages[curr / PAGE] != 0 ==> a < ADDRESSES)
  {
  }

  lemma {:induction false} PrefixChunk(pages: seq<nat>, a: nat, n: nat, k: nat)
    requires |pages| == VPAGES && a < ADDRESSES && pages[a / PAGE] != 0 && k <= n && a % PAGE + k <= PAGE
    ensures MappedPrefix(pages, a, n) == k + MappedPrefix(pages, a + k, n - k)
    decreases k
  {
    if k > 0 {
      PrefixChunk(pages, a, n, k - 1);
      assert (a + k - 1) / PAGE == a / PAGE;
    }
  }

  lemma WriteNothing(u: map<nat, Byte>, va: nat)
    ensures WriteUser(u, va, []) == u
  {
  }

  lemma WriteTwice(u: map<nat, Byte>, va: nat, bs: seq<Byte>, d: nat)
    requires d <= |bs|
    ensures WriteUser(WriteUser(u, va, bs[..d]), va + d, bs[d..]) == WriteUser(u, va, bs)
  {
  }

  // A page's share of a longer write.
  lemma ChunkStore(m: seq<Byte>, c: Core, u: map<nat, Byte>, va: nat, bs: seq<Byte>, d: nat)
    requires |m| == MEM && Inv(c) && c.dir == Dir(m) && c.pages == Pages(m)
    requires d <= |bs| && PhysicalMemory.User(m) == WriteUser(u, va, bs[..d])
    requires va + d < ADDRESSES && c.pages[(va + d) / PAGE] != 0 && (va + d) % PAGE + |bs| - d <= PAGE
    ensures var p := c.pages[(va + d) / PAGE] + (va + d) % PAGE;
            && p + |bs| - d <= MEM
            && (var m' := Overlay(m, p, bs[d..]);
                Dir(m') == c.dir && Pages(m') == c.pages && PhysicalMemory.User(m') == WriteUser(u, va, bs))
  {
    hide Walk, UserByte, Owned, NoEmptyTable, WriteUser;
    MappedFrame(c, (va + d) / PAGE);
    UserStore(m, c, (va + d) / PAGE, (va + d) % PAGE, bs[d..]);
    WriteTwice(u, va, bs, d);
    assert (va + d) / PAGE * PAGE + (va + d) % PAGE == va + d;
  }

  ghost predicate Reads(u: map<nat, Byte>, a: nat, b: Byte) {
    a in u && u[a] == b
  }

  // The addresses from va on are mapped and hold bs.
  ghost predicate ReadsAs(u: map<nat, Byte>, va: nat, bs: seq<Byte>) {
    forall k :: 0 <= k < |bs| ==> Reads(u, va + k, bs[k])
  }

  lemma ReadsNothing(u: map<nat, Byte>, va: nat)
    ensures ReadsAs(u, va, [])
  {
  }

  lemma ReadsMore(u: map<nat, Byte>, va: nat, bs: seq<Byte>, more: seq<Byte>)
    requires ReadsAs(u, va, bs) && ReadsAs(u, va + |bs|, more)
    ensures ReadsAs(u, va, bs + more)
  {
    var all := bs + more;
    forall k | 0 <= k < |all|
      ensures Reads(u, va + k, all[k])
    {
      if k >= |bs| {
        assert all[k] == more[k - |bs|] && va + |bs| + (k - |bs|) == va + k;
      } else {
        assert all[k] == bs[k];
      }
    }
  }

  lemma CopiedPrefix(was: seq<Byte>, d: nat, chunk: seq<Byte>)
    requires d + |chunk| <= |was|
    ensures var r := Overlay(was, d, chunk);
            r[..d + |chunk|] == was[..d] + chunk && r[d + |chunk|..] == was[d..][|chunk|..]
  {
  }

  // What lies in a page's frame is what the user reads there.
  lemma PageReads(m: seq<Byte>, c: Core, a: nat, n: nat)
    requires |m| == MEM && Inv(c) && c.pages == Pages(m)
    requires a < ADDRESSES && c.pages[a / PAGE] != 0 && a % PAGE + n <= PAGE
    ensures var p := c.pages[a / PAGE] + a % PAGE;
            p + n <= MEM && ReadsAs(PhysicalMemory.User(m), a, m[p..p + n])
  {
    hide Walk, Owned, NoEmptyTable;
    var v := a / PAGE;
    MappedFrame(c, v);
    var p := c.pages[v] + a % PAGE;
    assert Walk(m, v) == c.pages[v];
    var bs := m[p..p + n];
    forall k | 0 <= k < |bs|
      ensures Reads(PhysicalMemory.User(m), a + k, bs[k])
    {
      assert (a + k) / PAGE == v && (a + k) % PAGE == a % PAGE + k && a + k < ADDRESSES;
    }
  }

  // ----- the memory -----

  class VirtualMemory {
    const physMem: array<Byte>
    const physBitmap: array<Byte>
    const virtBitmap: array<Byte>
    const tlb: Tlb
    var tlbLookups: nat
    var tlbMisses: nat

    ghost predicate Allocated()
      reads this
    {
      && physMem.Length == MEM
      && physBitmap.Length == FRAMES / 8
      && virtBitmap.Length == VPAGES / 8
      && physBitmap != virtBitmap
      && physMem != physBitmap && physMem != virtBitmap
      && tlb as object != this && tlb as object != physMem && tlb as object != physBitmap && tlb as object != virtBitmap
      && tlb.entries as object != physMem && tlb.entries as object != physBitmap && tlb.entries as object != virtBitmap
    }

    // The directory and page tables as they lie in physical memory, and the bitmaps.
    ghost function Core(): (c: Core)
      requires Allocated()
      reads this, physMem, physBitmap, virtBitmap
      ensures Shape(c)
    {
      PageTables.Core(Dir(physMem[..]), Pages(physMem[..]), Bits(physBitmap[..]), Bits(virtBitmap[..]))
    }

    // The mapped virtual addresses and their bytes.
    ghost function User(): map<nat, Byte>
      requires Allocated()
      reads this, physMem
    {
      PhysicalMemory.User(physMem[..])
    }

    // A user's buffer is none of the machine's own arrays.
    ghost predicate Outside(buffer: array<Byte>)
      reads this
    {
      && buffer != physMem && buffer != physBitmap && buffer != virtBitmap
      && buffer as object != tlb.entries && buffer as object != tlb && buffer as object != this
    }

    ghost predicate Valid()
      reads this, physMem, physBitmap, virtBitmap, tlb, tlb.entries
    {
      && Allocated()
      && Inv(Core())
      && tlb.Valid()
      && Coherent(tlb.State(), Core().pages)
    }

    // allocate_phys_page
    method AllocatePhysPage() returns (pa: nat)
      requires Allocated()
      modifies physBitmap
      ensures Core().dir == old(Core().dir) && Core().pages == old(Core().pages) && Core().virt == old(Core().virt)
      ensures var f := FirstClear(old(Core().phys), 0);
              if f == FRAMES then pa == INVALID_PA && Core().phys == old(Core().phys)
              else pa == f * PAGE && Core().phys == old(Core().phys)[f := true]
    {
      ghost var bits := Bits(physBitmap[..]);
      for pfn := 0 to FRAMES
        invariant Bits(physBitmap[..]) == bits
        invariant FirstClear(bits, 0) == FirstClear(bits, pfn)
      {
        var bit := GetBit(physBitmap, pfn);
        if !bit {
          SetBit(physBitmap, pfn);
          return pfn * PAGE;
        }
      }
      return INVALID_PA;
    }

    // A word of physical memory, as the source reads it through a pde_t* or pte_t*.
    function Load(a: nat): nat
      requires Allocated() && a + 4 <= MEM
      reads this, physMem
    {
      Word(physMem[..], a)
    }

    // set_physical_mem
    constructor ()
      ensures Valid() && fresh(physMem) && fresh(physBitmap) && fresh(virtBitmap) && fresh(tlb) && fresh(tlb.entries)
      ensures Core() == Fresh()
      ensures tlbLookups == 0 && tlbMisses == 0
    {
      hide Owned, NoEmptyTable, Word;
      physMem := new Byte[MEM];
      physBitmap := new Byte[FRAMES / 8](_ => 0);
      virtBitmap := new Byte[VPAGES / 8](_ => 0);
      tlb := new Tlb();
      tlbLookups, tlbMisses := 0, 0;
      new;
      ghost var pb := physBitmap[..];
      var pageDir := AllocatePhysPage();
      CopyInto(physMem, pageDir, Zeros(PAGE));
      InitialCore(physMem[..], pb, virtBitmap[..]);
      FreshInv();
    }

    // translate; the PTE's value stands for the pointer to it.
    method Translate(va: nat) returns (pte: Option<nat>)
      requires Valid() && va < ADDRESSES
      modifies this`tlbLookups, this`tlbMisses, tlb, tlb.entries
      ensures Valid()
      ensures pte == if Core().pages[va / PAGE] == 0 then None else Some(Core().pages[va / PAGE])
      ensures var (t, miss, _) := TlbCache.Translate(old(tlb.State()), Core().pages, va);
              && tlb.State() == t
              && tlbLookups == old(tlbLookups) + 1
              && tlbMisses == old(tlbMisses) + if miss then 1 else 0
    {
      hide Owned, NoEmptyTable, Coherent, WellFormed, Word, Insert, Find;
      ghost var c := Core();
      TranslateIsWalk(tlb.State(), c.pages, va);
      AddressSplit(va);
      var hit := tlb.Check(va);
      tlbLookups := tlbLookups + 1;
      if hit.Some? {
        assert Lookup(tlb.State(), va / PAGE) == hit;
        LookupIsWalk(tlb.State(), c.pages, va / PAGE);
        return hit;
      }
      tlbMisses := tlbMisses + 1;
      var pde := Load(4 * PDX(va));
      assert pde == c.dir[PDX(va)];
      if pde == 0 {
        return None;
      }
      LinkedFrame(c, PDX(va));
      var entry := Load(pde + 4 * PTX(va));
      assert entry == c.pages[va / PAGE];
      if entry == 0 {
        return None;
      }
      MappedFrame(c, va / PAGE);
      var _ := tlb.Add(va, entry);
      return Some(entry);
    }

    // The first half of map_page: a zeroed table for directory slot d if it has none.
    method LinkNewTable(d: nat) returns (ok: bool)
      requires Allocated() && Inv(Core()) && d < ENTRIES
      modifies physMem, physBitmap
      ensures var r := EnsureTable(old(Core()), d);
              ok == r.Some? && Core() == if ok then r.value else old(Core())
      ensures Kept(old(physMem[..]), physMem[..], old(Core().pages))
    {
      hide Owned, NoEmptyTable, Word, Walk, SameFrame;
      ghost var c, m := Core(), physMem[..];
      DataFrames(c);
      KeptSelf(m, c.pages);
      var pde := Load(4 * d);
      if pde != 0 {
        return true;
      }
      var p := AllocatePhysPage();
      if p == INVALID_PA {
        return false;
      }
      UnmarkedFrame(c, p / PAGE);
      OwnedTablesApart(c, m);
      LinkTable(m, d, p);
      StoreKeeps(m, m, c.pages, p, 0, Zeros(PAGE));
      CopyInto(physMem, p, Zeros(PAGE));
      StoreKeeps(m, physMem[..], c.pages, 0, 4 * d, WordBytes(p));
      CopyInto(physMem, 4 * d, WordBytes(p));
      return true;
    }

    // map_page, with a marked frame nothing else uses.
    method MapPage(va: nat, pa: nat) returns (ok: bool)
      requires Valid() && PAGE <= va < ADDRESSES
      requires FrameAddress(pa) && Core().phys[pa / PAGE] && Unnamed(Core(), pa / PAGE)
      modifies this`tlbLookups, this`tlbMisses, physMem, physBitmap, virtBitmap, tlb, tlb.entries
      ensures Valid()
      ensures var r := PageTables.MapPage(old(Core()), va / PAGE, pa);
              ok == r.Some? && Core() == if ok then r.value else old(Core())
      ensures Kept(old(physMem[..]), physMem[..], old(Core().pages))
      ensures tlb.State() == if ok then Insert(old(tlb.State()), va / PAGE, pa) else old(tlb.State())
      ensures tlbLookups == old(tlbLookups) + (if ok then 1 else 0)
      ensures tlbMisses == old(tlbMisses) + if ok then 1 else 0
    {
      hide Owned, NoEmptyTable, Coherent, WellFormed, Word, WordBytes, Insert, Find, Walk, SameFrame, Unnamed, Kept,
        Bits, TablesApart;
      ghost var c, m, t := Core(), physMem[..], tlb.State();
      AddressSplit(va);
      ok := LinkNewTable(PDX(va));
      assert tlb.State() == t;
      if !ok {
        assert Core() == c;
        return;
      }
      ghost var c1 := Core();
      EnsureTableOwned(c, PDX(va));
      var pde := Load(4 * PDX(va));
      assert pde == c1.dir[PDX(va)];
      LinkedFrame(c1, PDX(va));
      OwnedTablesApart(c1, physMem[..]);
      PteStore(physMem[..], PDX(va), PTX(va), pa);
      StoreKeeps(m, physMem[..], c.pages, pde, 4 * PTX(va), WordBytes(pa));
      CopyInto(physMem, pde + 4 * PTX(va), WordBytes(pa));
      SetBit(physBitmap, pa / PAGE);
      SetBit(virtBitmap, va / PAGE);
      assert Some(Core()) == PageTables.MapPage(c, va / PAGE, pa);
      InsertKeepsCoherent(t, c.pages, va / PAGE, pa);
      MapMarkedInv(c, pa / PAGE, va / PAGE);
      tlbLookups := tlbLookups + 1;
      tlbMisses := tlbMisses + 1;
      var _ := tlb.Add(va, pa);
    }

    // get_next_avail
    method GetNextAvail(numPages: nat) returns (va: nat)
      requires Allocated() && 0 < numPages
      modifies virtBitmap
      ensures Core().dir == old(Core().dir) && Core().pages == old(Core().pages) && Core().phys == old(Core().phys)
      ensures match FirstRun(old(Core().virt), 1, numPages)
              case None => va == 0 && Core().virt == old(Core().virt)
              case Some(v) => va == v * PAGE && Core().virt == SetRange(old(Core().virt), v, numPages, true)
    {
      hide Bits, FirstRun, SetRange, Dir, Pages;
      ghost var bits := Bits(virtBitmap[..]);
      var freePages := 0;
      for vpn := 1 to VPAGES
        invariant Bits(virtBitmap[..]) == bits
        invariant freePages < numPages && freePages < vpn
        invariant forall j :: vpn - freePages <= j < vpn ==> !bits[j]
        invariant FirstRun(bits, 1, numPages) == FirstRun(bits, vpn - freePages, numPages)
      {
        var bit := GetBit(virtBitmap, vpn);
        if bit {
          SkipRuns(bits, vpn - freePages, vpn + 1, numPages);
          freePages := 0;
        } else {
          freePages := freePages + 1;
        }
        if freePages >= numPages {
          var startVpn := vpn - numPages + 1;
          RunHere(bits, startVpn, numPages);
          SetBits(virtBitmap, startVpn, numPages);
          return startVpn * PAGE;
        }
      }
      NoRoom(bits, VPAGES - freePages, numPages);
      return 0;
    }

    // page_table_empty, for the table at address table
    method PageTableEmpty(table: nat) returns (empty: bool)
      requires Allocated() && table + PAGE <= MEM
      ensures empty <==> forall t :: 0 <= t < ENTRIES ==> Word(physMem[..], table + 4 * t) == 0
    {
      for i := 0 to ENTRIES
        invariant forall t :: 0 <= t < i ==> Word(physMem[..], table + 4 * t) == 0
      {
        var entry := Load(table + 4 * i);
        if entry != 0 {
          return false;
        }
      }
      return true;
    }

    // The loop body of n_free: unmap the page of va, and release its table if that empties it.
    method FreePageAt(va: nat)
      requires Valid() && va < ADDRESSES && (va == INVALID_PA ==> Lookup(tlb.State(), va / PAGE) == None)
      modifies physMem, physBitmap, virtBitmap, tlb.entries
      ensures Valid()
      ensures Core() == FreePage(old(Core()), va / PAGE)
      ensures Forgets(old(tlb.State()), tlb.State(), va / PAGE)
      ensures Kept(old(physMem[..]), physMem[..], Core().pages)
    {
      hide Owned, NoEmptyTable, Coherent, WellFormed, Word, WordBytes, Drop, Find, Lookup, Forgets, Walk, SameFrame,
        Kept, TablesApart, SlotUsed;
      ghost var c, m, v := Core(), physMem[..], va / PAGE;
      DataFrames(c);
      KeptSelf(m, c.pages);
      AddressSplit(va);
      var pde := Load(4 * PDX(va));
      assert pde == c.dir[PDX(va)];
      if pde == 0 {
        UnlinkedPage(c, v);
        NotHeld(v);
        return;
      }
      LinkedFrame(c, PDX(va));
      var entry := Load(pde + 4 * PTX(va));
      WalkThrough(m, v, pde);
      assert entry == c.pages[v];
      if entry == 0 {
        NotHeld(v);
        return;
      }
      UnmapPage(va, pde, entry);
    }

    // A page that is not mapped is not in the buffer.
    lemma NotHeld(v: nat)
      requires Valid() && v < VPAGES && Core().pages[v] == 0
      ensures Forgets(tlb.State(), tlb.State(), v)
    {
      hide Owned, NoEmptyTable;
      UnmappedIsMissing(tlb.State(), Core().pages, v);
      ForgetsMissing(tlb.State(), v);
    }

    // The rest of n_free's loop body, for a page that is mapped.
    method UnmapPage(va: nat, pde: nat, entry: nat)
      requires Valid() && va < ADDRESSES && (va == INVALID_PA ==> Lookup(tlb.State(), va / PAGE) == None)
      requires pde == Core().dir[PDX(va)] != 0 && entry == Core().pages[va / PAGE] != 0
      modifies physMem, physBitmap, virtBitmap, tlb.entries
      ensures Valid()
      ensures Core() == FreePage(old(Core()), va / PAGE)
      ensures Forgets(old(tlb.State()), tlb.State(), va / PAGE)
      ensures Kept(old(physMem[..]), physMem[..], Core().pages)
    {
      hide Owned, NoEmptyTable, Coherent, WellFormed, Word, WordBytes, Drop, Find, Lookup, Forgets, Walk, SameFrame,
        Kept, TablesApart, SlotUsed;
      ghost var c, m, v := Core(), physMem[..], va / PAGE;
      DataFrames(c);
      FreePageInv(c, v);
      AddressSplit(va);
      LinkedFrame(c, PDX(va));
      MappedFrame(c, v);
      OwnedTablesApart(c, m);
      ghost var pages1 := c.pages[v := 0];
      PteStore(m, PDX(va), PTX(va), 0);
      KeptSelf(m, c.pages);
      KeptFewer(m, m, c.pages, v);
      StoreKeeps(m, m, pages1, pde, 4 * PTX(va), WordBytes(0));
      CopyInto(physMem, pde + 4 * PTX(va), WordBytes(0));
      ClearBit(physBitmap, entry / PAGE);
      ClearBit(virtBitmap, va / PAGE);
      if va == INVALID_PA {
        SkippedDropIsStale(tlb.State(), c.pages, v);
        ForgetsMissing(tlb.State(), v);
      }
      DropKeepsCoherent(tlb.State(), c.pages, v);
      DropForgetsIt(tlb.State(), v);
      tlb.Invalidate(va);
      ghost var m1 := physMem[..];
      SameDirTablesApart(m, m1);
      ReleaseIfEmpty(PDX(va));
      KeptTrans(m, m1, physMem[..], pages1);
    }

    // The end of n_free's loop body: an empty table is unlinked, its frame released and zeroed.
    method ReleaseIfEmpty(d: nat)
      requires Allocated() && TablesApart(physMem[..]) && d < ENTRIES && Core().dir[d] != 0
      requires forall v :: 0 <= v < VPAGES && Core().pages[v] != 0 ==>
          FrameAddress(Core().pages[v]) && Core().pages[v] != Core().dir[d]
      modifies physMem, physBitmap
      ensures var c := old(Core());
              Core() == if SlotUsed(c.pages, d) then c
                        else c.(dir := c.dir[d := 0], phys := c.phys[c.dir[d] / PAGE := false])
      ensures Kept(old(physMem[..]), physMem[..], old(Core().pages))
    {
      hide Word, WordBytes, Walk, SlotUsed;
      ghost var c, m := Core(), physMem[..];
      var pde := Load(4 * d);
      assert pde == c.dir[d];
      KeptSelf(m, c.pages);
      var empty := PageTableEmpty(pde);
      EmptyMeansUnused(m, d);
      if empty {
        hide SameFrame, Kept, TablesApart;
        UnusedSlot(c.pages, d, m);
        UnlinkTable(m, d);
        StoreKeeps(m, m, c.pages, 0, 4 * d, WordBytes(0));
        CopyInto(physMem, 4 * d, WordBytes(0));
        ClearBit(physBitmap, pde / PAGE);
        StoreKeeps(m, physMem[..], c.pages, pde, 0, Zeros(PAGE));
        CopyInto(physMem, pde, Zeros(PAGE));
      }
    }

    // n_free
    method NFree(va: nat, size: int)
      requires Valid() && va < ADDRESSES && -0x8000_0000 <= size < 0x8000_0000
      requires va % PAGE == PAGE - 1 && Covers(va, size % ADDRESSES, INVALID_PA) ==>
                 Lookup(tlb.State(), VPAGES - 1) == None
      modifies physMem, physBitmap, virtBitmap, tlb.entries
      ensures Valid()
      ensures Core() == Free(old(Core()), va, size)
      ensures Kept(old(physMem[..]), physMem[..], Core().pages)
      ensures User() == map a | a in old(User()) && !Covers(va, size % ADDRESSES, a) :: old(User())[a]
      ensures forall a: nat :: a < ADDRESSES ==>
                Lookup(tlb.State(), a / PAGE) ==
                  if Covers(va, size % ADDRESSES, a) then None else Lookup(old(tlb.State()), a / PAGE)
    {
      hide Owned, NoEmptyTable, Coherent, WellFormed, SameFrame, Kept, FreePage, Walk, FreedOver, InSpan, Bits, Lookup,
        Drop, Covers, PageCount, Forgets, ForgetsSpan;
      ghost var c, m, v, t := Core(), physMem[..], va / PAGE, tlb.State();
      var numPages := PageCount(size % ADDRESSES);
      DataFrames(c);
      KeptSelf(m, c.pages);
      CoversIsSpan(va, size % ADDRESSES, INVALID_PA);
      ForgetsNothing(t, v);
      var i := 0;
      while i < numPages
        invariant i <= numPages && Valid()
        invariant Core() == FreeRange(c, v, i)
        invariant Kept(m, physMem[..], Core().pages)
        invariant ForgetsSpan(t, tlb.State(), v, i)
      {
        ReachesTop(v, i, numPages);
        ghost var m1, t1 := physMem[..], tlb.State();
        if Lookup(t, VPAGES - 1) == None {
          StillMissing(t, t1, v, i, VPAGES - 1);
        }
        var vaU := (va + i * PAGE) % ADDRESSES;
        WrappedAddress(va, i);
        FreePageAt(vaU);
        ForgetsOneMore(t, t1, tlb.State(), v, i);
        FreePageFacts(FreeRange(c, v, i), PageAfter(v, i));
        KeptFewer(m, m1, FreeRange(c, v, i).pages, PageAfter(v, i));
        KeptTrans(m, m1, physMem[..], Core().pages);
        i := i + 1;
      }
      ForgetsCovered(t, tlb.State(), va, size % ADDRESSES);
      FreeRangeFacts(c, v, numPages);
      FreedUser(m, physMem[..], c, Core(), va, size % ADDRESSES);
    }

    // One round of n_malloc's loop: a frame for the page of va, and the mapping. Either step may fail.
    method MapFreshPage(va: nat, ghost done: nat) returns (ok: bool)
      requires Valid() && PAGE <= va < ADDRESSES && Core().pages[va / PAGE] == 0
      modifies this`tlbLookups, this`tlbMisses, physMem, physBitmap, virtBitmap, tlb, tlb.entries
      ensures Valid()
      ensures var r := MapNext(old(Core()), va / PAGE, done); Core() == r.core && ok == r.Mapped?
      ensures Kept(old(physMem[..]), physMem[..], old(Core().pages))
      ensures var n := if ok then 1 else 0; tlbMisses == old(tlbMisses) + n && tlbLookups == old(tlbLookups) + n
    {
      hide Owned, NoEmptyTable, Coherent, WellFormed, SameFrame, Kept, Walk, Bits, Insert, Unnamed;
      ghost var c, m := Core(), physMem[..];
      DataFrames(c);
      KeptSelf(m, c.pages);
      var pa := AllocatePhysPage();
      if pa == INVALID_PA {
        return false;
      }
      MarkFrame(c, pa / PAGE);
      UnmarkedFrame(c, pa / PAGE);
      ok := MapPage(va, pa);
    }

    // The loop of n_malloc: map a run of pages, or give back the ones mapped so far.
    method MapRun(va: nat, numPages: nat) returns (ok: bool)
      requires Valid() && va % PAGE == 0 && 0 < va < ADDRESSES && va / PAGE + numPages <= VPAGES
      requires Unmapped(Core().pages, va / PAGE, numPages)
      modifies this`tlbLookups, this`tlbMisses, physMem, physBitmap, virtBitmap, tlb, tlb.entries
      ensures Valid()
      ensures var r := MapRange(old(Core()), va / PAGE, numPages);
              ok == r.Mapped? && Core() == if ok then r.core else FreeRange(r.core, va / PAGE, r.done)
      ensures Kept(old(physMem[..]), physMem[..], old(Core().pages)) && Extends(old(Core().pages), Core().pages)
      ensures ok ==> tlbMisses == old(tlbMisses) + numPages && tlbLookups == old(tlbLookups) + numPages
    {
      hide Owned, NoEmptyTable, Coherent, WellFormed, SameFrame, Kept, Walk, MappedOver, Bits, Unmapped,
           Insert, FreeRange, Free, Extends, PhysicalMemory.User, MapNext, MapRange, Dir, Pages, PageCount;
      ghost var c, m, v := Core(), physMem[..], va / PAGE;
      DataFrames(c);
      KeptSelf(m, c.pages);
      ExtendsItself(c.pages);
      MapRangeStart(c, v);
      var i := 0;
      while i < numPages
        invariant i <= numPages && Valid() && MappedOver(c, Core(), v, i)
        invariant Unmapped(c.pages, v, i)
        invariant MapRange(c, v, i) == Mapped(Core())
        invariant Kept(m, physMem[..], c.pages) && Extends(c.pages, Core().pages)
        invariant tlbMisses == old(tlbMisses) + i && tlbLookups == old(tlbLookups) + i
      {
        ghost var ci, mi := Core(), physMem[..];
        MapRangeStep(c, v, i, numPages);
        assert (va + i * PAGE) / PAGE == v + i;
        ok := MapFreshPage(va + i * PAGE, i);
        KeptOlder(mi, physMem[..], c.pages, ci.pages);
        KeptTrans(m, mi, physMem[..], c.pages);
        if !ok {
          GivesUp(c, v, i, numPages);
          mi := physMem[..];
          NFree(va, AsInt(i * PAGE));
          KeptOlder(mi, physMem[..], c.pages, Core().pages);
          KeptTrans(m, mi, physMem[..], c.pages);
          return;
        }
        i := i + 1;
        MappedExtends(c, Core(), v, i, numPages);
      }
      ok := true;
    }

    // n_malloc, once set_physical_mem has run
    method NMalloc(numBytes: nat) returns (va: nat)
      requires Valid() && numBytes < ADDRESSES
      modifies this`tlbLookups, this`tlbMisses, physMem, physBitmap, virtBitmap, tlb, tlb.entries
      ensures Valid()
      ensures (Core(), va) == Malloc(old(Core()), numBytes)
      ensures forall a :: a in old(User()) ==> a in User() && User()[a] == old(User())[a]
      ensures numBytes == 0 || numBytes > ADDRESSES - PAGE ==> va == 0 && Core() == old(Core())
      ensures va == 0 ==> User() == old(User())
      ensures va != 0 ==>
                && va % PAGE == 0 && va + numBytes <= ADDRESSES
                && (forall a: nat :: va <= a < va + numBytes ==> a in User() && a !in old(User()))
                && (forall a: nat :: a in User() && a !in old(User()) ==> va <= a && a / PAGE * PAGE < va + numBytes)
                && tlbMisses == old(tlbMisses) + (numBytes + PAGE - 1) / PAGE
                && tlbLookups == old(tlbLookups) + (numBytes + PAGE - 1) / PAGE
    {
      hide Owned, NoEmptyTable, Coherent, WellFormed, SameFrame, Kept, Walk, Bits, FirstRun, Unmapped,
           FreeRange, MapRange, Extends, PhysicalMemory.User, PageCount;
      ghost var c, m := Core(), physMem[..];
      MallocRefusesAll(c, numBytes);
      DataFrames(c);
      KeptSelf(m, c.pages);
      ExtendsItself(c.pages);
      var numPages := PageCount(numBytes);
      if numPages <= 0 {
        KeptForUser(m, m, c.pages);
        return 0;
      }
      va := GetNextAvail(numPages);
      if va == 0 {
        KeptForUser(m, m, c.pages);
        return 0;
      }
      assert va / PAGE * PAGE == va;
      RunIsUnmapped(c, va / PAGE, numPages);
      assert Core() == Reserved(c, va / PAGE, numPages);
      var ok := MapRun(va, numPages);
      KeptForUser(m, physMem[..], c.pages);
      AllocatedUser(m, physMem[..], c, numBytes);
      if !ok {
        return 0;
      }
    }

    // How far the next copy of put_data or get_data can go: up to n bytes at physical address pa,
    // or none when the page is unmapped. The current address is a, or 0 when a is past the top.
    method NextChunk(currVa: nat, ghost a: nat, remaining: nat) returns (n: nat, pa: nat)
      requires Valid() && a <= ADDRESSES && currVa == (if a < ADDRESSES then a else 0) && remaining > 0
      modifies this`tlbLookups, this`tlbMisses, tlb, tlb.entries
      ensures Valid() && Core() == old(Core())
      ensures n <= remaining
      ensures if n == 0 then MappedPrefix(Core().pages, a, remaining) == 0
              else
                && a < ADDRESSES && Core().pages[a / PAGE] != 0 && a % PAGE + n <= PAGE
                && pa == Core().pages[a / PAGE] + a % PAGE && pa + n <= MEM
                && MappedPrefix(Core().pages, a, remaining) == n + MappedPrefix(Core().pages, a + n, remaining - n)
    {
      hide Owned, NoEmptyTable, WellFormed, Coherent, Walk, MappedPrefix, Bits, Dir, Pages, Lookup, Insert,
        TlbCache.Translate;
      ghost var c := Core();
      var pte := Translate(currVa);
      UnmappedStops(c, a, remaining);
      if pte == None {
        return 0, 0;
      }
      var offset := OFF(currVa);
      n := if remaining < PAGE - offset then remaining else PAGE - offset;
      PrefixChunk(c.pages, a, remaining, n);
      MappedFrame(c, a / PAGE);
      pa := pte.value + offset;
    }

    // put_data; val == null stands for a NULL buffer.
    method PutData(va: nat, val: array?<Byte>, size: int) returns (ret: int)
      requires Valid() && va < ADDRESSES && size < 0x8000_0000
      requires val != null && size > 0 ==> size <= val.Length && Outside(val)
      modifies this`tlbLookups, this`tlbMisses, physMem, tlb, tlb.entries
      ensures Valid() && Core() == old(Core())
      ensures val == null || size <= 0 ==> ret == -1 && User() == old(User())
      ensures val != null && size > 0 ==>
                var n := MappedPrefix(Core().pages, va, size);
                ret == (if n == size then 0 else -1) && User() == WriteUser(old(User()), va, val[..n])
    {
      hide Owned, NoEmptyTable, WellFormed, Coherent, Walk, UserByte, PhysicalMemory.User, WriteUser, MappedPrefix,
        Bits,
           Dir, Pages, Lookup, Insert, TlbCache.Translate, Add32;
      if val == null || size <= 0 {
        return -1;
      }
      ghost var c, u := Core(), User();
      WriteNothing(u, va);
      var currVa, done := va, 0;
      while done < size
        invariant 0 <= done <= size && va + done <= ADDRESSES
        invariant currVa == (if va + done < ADDRESSES then va + done else 0)
        invariant Valid() && Core() == c
        invariant User() == WriteUser(u, va, val[..done])
        invariant MappedPrefix(c.pages, va, size) == done + MappedPrefix(c.pages, va + done, size - done)
      {
        var n, pa := NextChunk(currVa, va + done, size - done);
        if n == 0 {
          return -1;
        }
        assert val[..done + n][done..] == val[done..done + n] && val[..done + n][..done] == val[..done];
        ChunkStore(physMem[..], c, u, va, val[..done + n], done);
        CopyInto(physMem, pa, val[done..done + n]);
        done := done + n;
        currVa := Add32(currVa, n);
      }
      return 0;
    }

    // get_data
    method GetData(va: nat, val: array?<Byte>, size: int)
      requires Valid() && va < ADDRESSES && size < 0x8000_0000
      requires val != null && size > 0 ==> size <= val.Length && Outside(val)
      modifies this`tlbLookups, this`tlbMisses, tlb, tlb.entries
      modifies if val == null then {} else {val}
      ensures Valid() && Core() == old(Core()) && User() == old(User())
      ensures val != null && size <= 0 ==> val[..] == old(val[..])
      ensures val != null && size > 0 ==>
                var n := MappedPrefix(Core().pages, va, size);
                && ReadsAs(User(), va, val[..][..n])
                && val[..][n..] == old(val[..])[n..]
    {
      hide Owned, NoEmptyTable, WellFormed, Coherent, Walk, UserByte, PhysicalMemory.User, ReadsAs, MappedPrefix, Bits,
           Dir, Pages, Lookup, Insert, TlbCache.Translate, Add32;
      if val == null || size <= 0 {
        return;
      }
      ghost var c, m, was0 := Core(), physMem[..], val[..];
      ReadsNothing(User(), va);
      var currVa, done := va, 0;
      while done < size
        invariant 0 <= done <= size && va + done <= ADDRESSES
        invariant currVa == (if va + done < ADDRESSES then va + done else 0)
        invariant Valid() && Core() == c && physMem[..] == m
        invariant ReadsAs(User(), va, val[..][..done]) && val[..][done..] == was0[done..]
        invariant MappedPrefix(c.pages, va, size) == done + MappedPrefix(c.pages, va + done, size - done)
      {
        var n, pa := NextChunk(currVa, va + done, size - done);
        if n == 0 {
          return;
        }
        var chunk := physMem[pa..pa + n];
        PageReads(m, c, va + done, n);
        ReadsMore(User(), va, val[..][..done], chunk);
        ghost var was := val[..];
        CopyInto(val, done, chunk);
        CopiedPrefix(was, done, chunk);
        done := done + n;
        currVa := Add32(currVa, n);
      }
    }
  }
}
