// The translation look-aside buffer: 512 entries, filled in order and then replaced in a
// cyclic order, invalidated in place.
module TlbCache {
  import opened Wrappers
  import opened Counting
  import opened PageTables
  import opened Allocation

  const TLB_ENTRIES: nat := 512
  const INVALID_PA: nat := ADDRESSES - 1

  datatype Entry = Entry(vpn: nat, pfn: nat, pte: nat, valid: bool)
  datatype TlbState = TlbState(entries: seq<Entry>, count: nat, nextEvict: nat)

  ghost predicate WellFormed(t: TlbState) {
    && |t.entries| == TLB_ENTRIES
    && t.count <= TLB_ENTRIES && t.nextEvict < TLB_ENTRIES
    && (t.count < TLB_ENTRIES ==> t.nextEvict == 0)
    && (forall i :: t.count <= i < TLB_ENTRIES ==> !t.entries[i].valid)
    && (forall i, j :: 0 <= i < j < TLB_ENTRIES && t.entries[i].valid && t.entries[j].valid ==>
          t.entries[i].vpn != t.entries[j].vpn)
  }

  // Every valid entry holds what the page walk finds.
  ghost predicate Coherent(t: TlbState, pages: seq<nat>) {
    forall i :: 0 <= i < |t.entries| && t.entries[i].valid ==>
      && t.entries[i].vpn < |pages|
      && t.entries[i].pte == pages[t.entries[i].vpn] != 0
      && t.entries[i].pfn == t.entries[i].pte / PAGE
  }

  // The first valid entry for vpn at or after i; TLB_ENTRIES when there is none.
  function Find(entries: seq<Entry>, vpn: nat, i: nat): (k: nat)
    requires i <= |entries|
    ensures i <= k <= |entries|
    ensures k < |entries| ==> entries[k].valid && entries[k].vpn == vpn
    ensures forall j :: i <= j < k ==> !(entries[j].valid && entries[j].vpn == vpn)
    decreases |entries| - i
  {
    if i < |entries| && !(entries[i].valid && entries[i].vpn == vpn) then Find(entries, vpn, i + 1) else i
  }

  function Lookup(t: TlbState, vpn: nat): Option<nat> {
    var k := Find(t.entries, vpn, 0);
    if k < |t.entries| then Some(t.entries[k].pte) else None
  }

  // The slot the next insertion takes.
  function Victim(t: TlbState): nat {
    if t.count < TLB_ENTRIES then t.count else t.nextEvict
  }

  function Insert(t: TlbState, vpn: nat, pte: nat): TlbState
    requires |t.entries| == TLB_ENTRIES && t.nextEvict < TLB_ENTRIES
  {
    var k := Find(t.entries, vpn, 0);
    if k < TLB_ENTRIES then t.(entries := t.entries[k := t.entries[k].(pte := pte, pfn := pte / PAGE)])
    else
      var e := t.entries[Victim(t) := Entry(vpn, pte / PAGE, pte, true)];
      if t.count < TLB_ENTRIES then TlbState(e, t.count + 1, t.nextEvict)
      else TlbState(e, t.count, (t.nextEvict + 1) % TLB_ENTRIES)
  }

  function Drop(t: TlbState, vpn: nat): TlbState
    requires |t.entries| == TLB_ENTRIES
  {
    var k := Find(t.entries, vpn, 0);
    if k < TLB_ENTRIES then t.(entries := t.entries[k := t.entries[k].(valid := false)]) else t
  }

  // ----- coherence -----

  lemma InsertKeepsCoherent(t: TlbState, pages: seq<nat>, vpn: nat, pte: nat)
    requires WellFormed(t) && Coherent(t, pages) && vpn < |pages| && pte != 0
    ensures WellFormed(Insert(t, vpn, pte)) && Coherent(Insert(t, vpn, pte), pages[vpn := pte])
  {
    var k := Find(t.entries, vpn, 0);
    var r := Insert(t, vpn, pte);
    if k < TLB_ENTRIES {
      assert forall i :: 0 <= i < TLB_ENTRIES && i != k ==> r.entries[i] == t.entries[i];
    } else {
      assert forall i :: 0 <= i < TLB_ENTRIES && i != Victim(t) ==> r.entries[i] == t.entries[i];
    }
  }

  lemma DropKeepsCoherent(t: TlbState, pages: seq<nat>, vpn: nat)
    requires WellFormed(t) && Coherent(t, pages) && vpn < |pages|
    ensures WellFormed(Drop(t, vpn)) && Coherent(Drop(t, vpn), pages[vpn := 0])
  {
    var k := Find(t.entries, vpn, 0);
    var r := Drop(t, vpn);
    assert forall i :: 0 <= i < TLB_ENTRIES && i != k ==> r.entries[i] == t.entries[i];
  }

  // TLB_invalidate skips the address 0xFFFFFFFF: unmapping a page without dropping its entry keeps
  // the buffer coherent exactly when the page was not in it.
  lemma SkippedDropIsStale(t: TlbState, pages: seq<nat>, vpn: nat)
    requires WellFormed(t) && Coherent(t, pages) && vpn < |pages| && pages[vpn] != 0
    ensures Coherent(t, pages[vpn := 0]) <==> Lookup(t, vpn) == None
  {
  }

  // An entry for the page answers a lookup of it; without one there is no answer.
  lemma LookupIs(t: TlbState, vpn: nat)
    requires WellFormed(t)
    ensures forall i :: 0 <= i < TLB_ENTRIES && t.entries[i].valid && t.entries[i].vpn == vpn ==>
              Lookup(t, vpn) == Some(t.entries[i].pte)
    ensures Lookup(t, vpn).Some? ==>
              exists i :: 0 <= i < TLB_ENTRIES && t.entries[i].valid && t.entries[i].vpn == vpn
  {
  }

  // Dropping a page takes it out of the buffer, and nothing else.
  lemma DropForgets(t: TlbState, vpn: nat, u: nat)
    requires WellFormed(t)
    ensures var r := Drop(t, vpn);
            && WellFormed(r) && r.count == t.count && r.nextEvict == t.nextEvict
            && Lookup(r, u) == if u == vpn then None else Lookup(t, u)
  {
    hide Lookup;
    var k := Find(t.entries, vpn, 0);
    var r := Drop(t, vpn);
    assert forall i :: 0 <= i < TLB_ENTRIES && i != k ==> r.entries[i] == t.entries[i];
    LookupIs(t, u);
    LookupIs(r, u);
  }

  // Page vpn is no longer in the buffer; every other page is if it was.
  ghost predicate Forgets(t: TlbState, t': TlbState, vpn: nat) {
    forall u: nat :: Lookup(t', u) == if u == vpn then None else Lookup(t, u)
  }

  lemma DropForgetsIt(t: TlbState, vpn: nat)
    requires WellFormed(t)
    ensures Forgets(t, Drop(t, vpn), vpn)
  {
    hide Lookup, Drop;
    forall u: nat
      ensures Lookup(Drop(t, vpn), u) == if u == vpn then None else Lookup(t, u)
    {
      DropForgets(t, vpn, u);
    }
  }

  lemma ForgetsMissing(t: TlbState, vpn: nat)
    requires Lookup(t, vpn) == None
    ensures Forgets(t, t, vpn)
  {
  }

  lemma UnmappedIsMissing(t: TlbState, pages: seq<nat>, vpn: nat)
    requires WellFormed(t) && Coherent(t, pages) && vpn < |pages| && pages[vpn] == 0
    ensures Lookup(t, vpn) == None
  {
  }

  // Inserting a page puts it in. What gives way is the oldest place, only when the buffer is full
  // and the page was not in it; every other page stays.
  lemma InsertRemembers(t: TlbState, vpn: nat, pte: nat, u: nat)
    requires WellFormed(t)
    ensures var r := Insert(t, vpn, pte);
            var oldest := t.entries[t.nextEvict];
            var full := t.count == TLB_ENTRIES && Lookup(t, vpn).None?;
            && WellFormed(r)
            && r.nextEvict == (if full then (t.nextEvict + 1) % TLB_ENTRIES else t.nextEvict)
            && r.count == (if Lookup(t, vpn).None? && t.count < TLB_ENTRIES then t.count + 1 else t.count)
            && Lookup(r, u) ==
                 if u == vpn then Some(pte)
                 else if full && oldest.valid && oldest.vpn == u then None else Lookup(t, u)
  {
    hide Lookup;
    var k := Find(t.entries, vpn, 0);
    var r := Insert(t, vpn, pte);
    LookupIs(t, vpn);
    if k < TLB_ENTRIES {
      assert t.entries[k].valid && t.entries[k].vpn == vpn;
      assert r.entries[k].valid && r.entries[k].vpn == vpn;
      assert forall i :: 0 <= i < TLB_ENTRIES && i != k ==> r.entries[i] == t.entries[i];
    } else {
      assert r.entries[Victim(t)] == Entry(vpn, pte / PAGE, pte, true);
      assert forall i :: 0 <= i < TLB_ENTRIES && i != Victim(t) ==> r.entries[i] == t.entries[i];
    }
    LookupIs(t, u);
    LookupIs(r, u);
  }

  // A hit answers with the page walk's value.
  lemma LookupIsWalk(t: TlbState, pages: seq<nat>, vpn: nat)
    requires WellFormed(t) && Coherent(t, pages) && vpn < |pages| && Lookup(t, vpn).Some?
    ensures Lookup(t, vpn) == Some(pages[vpn]) && pages[vpn] != 0
  {
    var k := Find(t.entries, vpn, 0);
    assert t.entries[k].valid;
  }

  // ----- translate -----

  // The buffer after translate(va), whether it missed, and the PTE it found (0 for NULL).
  // The address 0xFFFFFFFF is never looked up.
  function Translate(t: TlbState, pages: seq<nat>, va: nat): (r: (TlbState, bool, nat))
    requires |t.entries| == TLB_ENTRIES && t.nextEvict < TLB_ENTRIES && va / PAGE < |pages|
  {
    var v := va / PAGE;
    if va != INVALID_PA && Lookup(t, v).Some? then (t, false, Lookup(t, v).value)
    else if pages[v] == 0 || va == 0 then (t, true, pages[v])
    else (Insert(t, v, pages[v]), true, pages[v])
  }

  // translate answers every address as the page walk would, and keeps the buffer coherent.
  lemma TranslateIsWalk(t: TlbState, pages: seq<nat>, va: nat)
    requires WellFormed(t) && Coherent(t, pages) && va / PAGE < |pages|
    ensures var (t', _, pte) := Translate(t, pages, va);
            && pte == pages[va / PAGE]
            && WellFormed(t') && Coherent(t', pages)
  {
    var v := va / PAGE;
    if Lookup(t, v).Some? {
      LookupIsWalk(t, pages, v);
    }
    if pages[v] != 0 {
      InsertKeepsCoherent(t, pages, v, pages[v]);
      assert pages[v := pages[v]] == pages;
    }
  }

  // A miss is counted exactly when the page is not in the buffer; a mapped page is in it afterwards.
  lemma TranslateCounts(t: TlbState, pages: seq<nat>, va: nat)
    requires WellFormed(t) && Coherent(t, pages) && va / PAGE < |pages|
    ensures var (t', miss, pte) := Translate(t, pages, va);
            && (miss <==> va == INVALID_PA || Lookup(t, va / PAGE) == None)
            && (!miss || pte == 0 || va == 0 ==> t' == t)
            && (pte != 0 && va != 0 ==> Lookup(t', va / PAGE) == Some(pte))
  {
    hide Lookup, Insert;
    var v := va / PAGE;
    InsertRemembers(t, v, pages[v], v);
    if Lookup(t, v).Some? {
      LookupIsWalk(t, pages, v);
    }
  }

  // ----- the bound on misses -----

  // A run of translate calls: the final buffer and the number of misses.
  function TranslateRun(t: TlbState, pages: seq<nat>, vas: seq<nat>): (r: (TlbState, nat))
    requires |t.entries| == TLB_ENTRIES && t.nextEvict < TLB_ENTRIES
    requires forall i :: 0 <= i < |vas| ==> vas[i] / PAGE < |pages|
    ensures |r.0.entries| == TLB_ENTRIES && r.0.nextEvict < TLB_ENTRIES
    decreases |vas|
  {
    if |vas| == 0 then (t, 0)
    else
      var (t1, misses) := TranslateRun(t, pages, vas[..|vas| - 1]);
      var (t2, miss, _) := Translate(t1, pages, vas[|vas| - 1]);
      (t2, misses + if miss then 1 else 0)
  }

  // The slot the k-th insertion from t on takes.
  function Slot(t: TlbState, k: nat): nat {
    if Victim(t) + k < TLB_ENTRIES then Victim(t) + k else Victim(t) + k - TLB_ENTRIES
  }

  // Since the buffer was t, exactly the pages in `added` have been inserted, in this order,
  // and each is still there.
  ghost predicate Grown(t: TlbState, t': TlbState, added: seq<nat>) {
    && WellFormed(t) && WellFormed(t')
    && |added| <= TLB_ENTRIES
    && Victim(t') == Slot(t, if |added| == TLB_ENTRIES then 0 else |added|)
    && (forall k :: 0 <= k < |added| ==> Holds(t', Slot(t, k), added[k]))
    && (forall j, k :: 0 <= j < k < |added| ==> added[j] != added[k])
  }

  predicate Holds(t: TlbState, i: nat, vpn: nat) {
    i < |t.entries| && t.entries[i].valid && t.entries[i].vpn == vpn
  }

  lemma HeldIsFound(t: TlbState, i: nat, vpn: nat)
    requires Holds(t, i, vpn)
    ensures Lookup(t, vpn).Some?
  {
  }

  // An entry survives the next 511 insertions: an insertion overwrites none of the fewer than
  // 512 entries added since t.
  lemma InsertGrows(t: TlbState, t': TlbState, added: seq<nat>, vpn: nat, pte: nat)
    requires Grown(t, t', added) && |added| < TLB_ENTRIES && Lookup(t', vpn).None?
    requires WellFormed(Insert(t', vpn, pte))
    ensures Grown(t, Insert(t', vpn, pte), added + [vpn])
  {
    var r := Insert(t', vpn, pte);
    var all := added + [vpn];
    forall k | 0 <= k < |all|
      ensures Holds(r, Slot(t, k), all[k])
    {
      if k < |added| {
        assert Slot(t, k) != Victim(t');
      }
    }
    forall k | 0 <= k < |added|
      ensures added[k] != vpn
    {
      HeldIsFound(t', Slot(t, k), added[k]);
    }
  }

  // The page that misses is none of those added, so fewer than 512 have been.
  lemma MissLeavesRoom(t: TlbState, t': TlbState, added: seq<nat>, vpn: nat, w: set<nat>)
    requires Grown(t, t', added) && Lookup(t', vpn).None? && vpn in w && |w| <= TLB_ENTRIES
    requires forall k :: 0 <= k < |added| ==> added[k] in w
    ensures |added| < TLB_ENTRIES && vpn !in added
  {
    forall k | 0 <= k < |added|
      ensures added[k] != vpn
    {
      HeldIsFound(t', Slot(t, k), added[k]);
    }
    DistinctWithin(added, w - {vpn});
  }

  lemma GrowsByNothing(t: TlbState)
    requires WellFormed(t)
    ensures Grown(t, t, [])
  {
  }

  lemma {:induction false} RunGrows(t: TlbState, pages: seq<nat>, vas: seq<nat>, w: set<nat>)
      returns (added: seq<nat>)
    requires WellFormed(t) && Coherent(t, pages) && |pages| > 0 && pages[0] == 0
    requires forall i :: 0 <= i < |vas| ==>
      vas[i] != INVALID_PA && vas[i] / PAGE < |pages| && vas[i] / PAGE in w && pages[vas[i] / PAGE] != 0
    requires |w| <= TLB_ENTRIES
    ensures var (t', misses) := TranslateRun(t, pages, vas);
            WellFormed(t') && Coherent(t', pages) && Grown(t, t', added) && misses == |added|
    ensures forall k :: 0 <= k < |added| ==> added[k] in w
    decreases |vas|
  {
    hide Coherent, Insert, Grown;
    if |vas| == 0 {
      GrowsByNothing(t);
      return [];
    }
    added := RunGrows(t, pages, vas[..|vas| - 1], w);
    var va := vas[|vas| - 1];
    var t1 := TranslateRun(t, pages, vas[..|vas| - 1]).0;
    TranslateIsWalk(t1, pages, va);
    if Lookup(t1, va / PAGE).None? {
      MissLeavesRoom(t, t1, added, va / PAGE, w);
      InsertGrows(t, t1, added, va / PAGE, pages[va / PAGE]);
      added := added + [va / PAGE];
    }
  }

  // However long, a run of translate calls that touches at most 512 distinct mapped pages
  // misses at most once for each of them, from any state of the buffer.
  lemma MissBound(t: TlbState, pages: seq<nat>, vas: seq<nat>, w: set<nat>)
    requires WellFormed(t) && Coherent(t, pages) && |pages| > 0 && pages[0] == 0
    requires forall i :: 0 <= i < |vas| ==>
      vas[i] != INVALID_PA && vas[i] / PAGE < |pages| && vas[i] / PAGE in w && pages[vas[i] / PAGE] != 0
    requires |w| <= TLB_ENTRIES
    ensures TranslateRun(t, pages, vas).1 <= |w|
  {
    var added := RunGrows(t, pages, vas, w);
    DistinctWithin(added, w);
  }

  // ----- the buffer itself -----

  class Tlb {
    var count: nat
    var nextEvict: nat
    const entries: array<Entry>

    ghost function State(): (t: TlbState)
      reads this, entries
    {
      TlbState(entries[..], count, nextEvict)
    }

    ghost predicate Valid()
      reads this, entries
    {
      WellFormed(State())
    }

    // The buffer as set_physical_mem initialises it.
    constructor ()
      ensures Valid() && fresh(entries)
      ensures forall i :: 0 <= i < TLB_ENTRIES ==> !State().entries[i].valid
    {
      entries := new Entry[TLB_ENTRIES](_ => Entry(0, 0, 0, false));
      count, nextEvict := 0, 0;
    }

    // TLB_add; false stands for its return value -1.
    method Add(va: nat, pa: nat) returns (ok: bool)
      requires Valid() && va < ADDRESSES && pa < ADDRESSES
      modifies this, entries
      ensures ok == (va != 0 && pa != INVALID_PA)
      ensures State() == if ok then Insert(old(State()), va / PAGE, pa) else old(State())
    {
      if va == 0 || pa == INVALID_PA {
        return false;
      }
      var vpn, pfn := va / PAGE, pa / PAGE;
      var i := 0;
      while i < TLB_ENTRIES
        invariant i <= TLB_ENTRIES
        invariant Find(entries[..], vpn, 0) == Find(entries[..], vpn, i)
      {
        if entries[i].valid && entries[i].vpn == vpn {
          entries[i] := entries[i].(pte := pa, pfn := pfn);
          return true;
        }
        i := i + 1;
      }
      var idx;
      if count < TLB_ENTRIES {
        idx := count;
        count := count + 1;
      } else {
        idx := nextEvict;
        nextEvict := (nextEvict + 1) % TLB_ENTRIES;
      }
      entries[idx] := Entry(vpn, pfn, pa, true);
      return true;
    }

    // TLB_check; the PTE stands for the pointer to it.
    method Check(va: nat) returns (pte: Option<nat>)
      requires Valid() && va < ADDRESSES
      ensures pte == if va == INVALID_PA then None else Lookup(State(), va / PAGE)
    {
      if va == INVALID_PA {
        return None;
      }
      var vpn := va / PAGE;
      var i := 0;
      while i < TLB_ENTRIES
        invariant i <= TLB_ENTRIES
        invariant Find(entries[..], vpn, 0) == Find(entries[..], vpn, i)
      {
        if entries[i].valid && entries[i].vpn == vpn {
          return Some(entries[i].pte);
        }
        i := i + 1;
      }
      return None;
    }

    // TLB_invalidate.
    method Invalidate(va: nat)
      requires Valid() && va < ADDRESSES
      modifies entries
      ensures State() == if va == INVALID_PA then old(State()) else Drop(old(State()), va / PAGE)
    {
      if va == INVALID_PA {
        return;
      }
      var vpn := va / PAGE;
      var i := 0;
      while i < TLB_ENTRIES
        invariant i <= TLB_ENTRIES
        invariant State() == old(State())
        invariant Find(entries[..], vpn, 0) == Find(entries[..], vpn, i)
      {
        if entries[i].valid && entries[i].vpn == vpn {
          entries[i] := entries[i].(valid := false);
          break;
        }
        i := i + 1;
      }
    }
  }
}
