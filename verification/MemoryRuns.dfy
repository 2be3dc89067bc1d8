// Whole runs of the simulated memory: the four calls as steps over an abstract state (the
// tables and the mapped bytes), what every run keeps, and the class as an implementation.
module MemoryRuns {
  import opened Wrappers
  import opened Bytes
  import opened PageTables
  import opened Allocation
  import opened AllocationTheorems
  import opened AllocationFailure
  import opened PhysicalMemory
  import opened VirtualMemorySystem

  datatype State = State(core: Core, user: map<nat, Byte>)

  // A call with its outcome.
  datatype Call =
    | Malloc(bytes: nat, result: nat)
    | Free(address: nat, size: int)
    | Put(va: nat, bytesPut: seq<Byte>, written: nat, ret: int)
    | Get(from: nat, length: nat, bytesGot: seq<Byte>)

  ghost predicate Good(s: State) {
    && Inv(s.core)
    && (forall a: nat :: a in s.user <==> a < ADDRESSES && s.core.pages[a / PAGE] != 0)
  }

  ghost predicate Step(s: State, call: Call, s': State) {
    && Good(s) && Good(s')
    && match call
       case Malloc(bytes, result) =>
         && bytes < ADDRESSES
         && (s'.core, result) == Allocation.Malloc(s.core, bytes)
         && (forall a :: a in s.user ==> Reads(s'.user, a, s.user[a]))
       case Free(address, size) =>
         && address < ADDRESSES
         && s'.core == AllocationTheorems.Free(s.core, address, size)
         && s'.user == map a | a in s.user && !Freed(a, address, size) :: s.user[a]
       case Put(va, bytesPut, written, ret) =>
         && s'.core == s.core
         && written == MappedPrefix(s.core.pages, va, |bytesPut|)
         && ret == (if written == |bytesPut| && written > 0 then 0 else -1)
         && s'.user == WriteUser(s.user, va, bytesPut[..written])
       case Get(from, length, bytesGot) =>
         && s' == s
         && |bytesGot| == MappedPrefix(s.core.pages, from, length)
         && ReadsAs(s.user, from, bytesGot)
  }

  ghost predicate Freed(a: nat, address: nat, size: int) {
    Covers(address, size % ADDRESSES, a)
  }

  ghost predicate IsRun(states: seq<State>, calls: seq<Call>) {
    && |states| == |calls| + 1
    && (forall i :: 0 <= i <= |calls| ==> Good(states[i]))
    && forall i :: 0 <= i < |calls| ==> Step(states[i], calls[i], states[i + 1])
  }

  // What is known of the byte at a after a call, given what was known before it.
  ghost function Known(before: Option<Byte>, call: Call, a: nat): Option<Byte> {
    match call
    case Put(va, bytesPut, written, _) =>
      if va <= a < va + written && a - va < |bytesPut| then Some(bytesPut[a - va]) else before
    case Free(address, size) =>
      if Freed(a, address, size) then None else before
    case _ => before
  }

  // The byte last put at address a by the calls, unless its page has been freed since.
  ghost function LastPut(calls: seq<Call>, a: nat): Option<Byte>
    decreases |calls|
  {
    if |calls| == 0 then None
    else Known(LastPut(calls[..|calls| - 1], a), calls[|calls| - 1], a)
  }

  lemma {:induction false} PutReachesMapped(s: State, va: nat, n: nat, k: nat)
    requires Good(s) && k < MappedPrefix(s.core.pages, va, n)
    ensures va + k in s.user
    decreases n
  {
    hide Owned, NoEmptyTable;
    if k > 0 {
      PutReachesMapped(s, va + 1, n - 1, k - 1);
    }
  }

  lemma StepHolds(s: State, call: Call, s': State, before: Option<Byte>, a: nat)
    requires Step(s, call, s')
    requires before.Some? ==> Reads(s.user, a, before.value)
    ensures Known(before, call, a).Some? ==> Reads(s'.user, a, Known(before, call, a).value)
  {
    hide Inv, Allocation.Malloc, AllocationTheorems.Free, Freed;
    match call {
      case Put(va, bytesPut, written, _) =>
        if va <= a < va + written {
          PutReachesMapped(s, va, |bytesPut|, a - va);
        }
      case _ =>
    }
  }

  // In every state of every run, each address that was put and not freed since is mapped and
  // holds the byte last put there, whatever was allocated, freed or written in between.
  lemma {:induction false} HoldsLastPut(states: seq<State>, calls: seq<Call>, a: nat)
    requires IsRun(states, calls)
    ensures LastPut(calls, a).Some? ==> Reads(states[|calls|].user, a, LastPut(calls, a).value)
    decreases |calls|
  {
    hide Good, Step, Reads, Known;
    if |calls| > 0 {
      var n := |calls| - 1;
      HoldsLastPut(states[..n + 1], calls[..n], a);
      StepHolds(states[n], calls[n], states[n + 1], LastPut(calls[..n], a), a);
    }
  }

  lemma GetReads(s: State, call: Call, s': State, a: nat)
    requires Step(s, call, s') && call.Get? && call.from <= a < call.from + |call.bytesGot|
    ensures Reads(s.user, a, call.bytesGot[a - call.from])
  {
    var k := a - call.from;
    assert Reads(s.user, call.from + k, call.bytesGot[k]);
  }

  // get_data returns the last byte put at every address it reaches.
  lemma GetReturnsLastPut(states: seq<State>, calls: seq<Call>, i: nat, a: nat)
    requires IsRun(states, calls) && i < |calls| && calls[i].Get?
    requires calls[i].from <= a < calls[i].from + |calls[i].bytesGot|
    ensures LastPut(calls[..i], a).Some? ==> calls[i].bytesGot[a - calls[i].from] == LastPut(calls[..i], a).value
  {
    hide Good, Step;
    HoldsLastPut(states[..i + 1], calls[..i], a);
    GetReads(states[i], calls[i], states[i + 1], a);
  }

  // ----- the frame account over runs -----

  // One n_malloc loses one frame exactly when the tables before it say that it will.
  lemma MallocLeaks(c: Core, bytes: nat)
    requires Inv(c)
    ensures var r := Allocation.Malloc(c, bytes).0;
            |Leaked(r)| == |Leaked(c)| + if FailsInMapPage(c, bytes) then 1 else 0
  {
    hide FirstRun, SetRange, MapRange, FailsInMapPage, PageCount;
    var (r, va) := Allocation.Malloc(c, bytes);
    if FailsInMapPage(c, bytes) {
      FailsNeedsRun(c, bytes);
    }
    if va != 0 {
      MallocSucceeds(c, bytes);
      if FailsInMapPage(c, bytes) {
        LostMeansFailed(c, bytes);
      }
    } else {
      MallocFails(c, bytes);
      forall f: nat | f < FRAMES
        ensures Unnamed(r, f) <==> Unnamed(c, f)
      {
      }
      var n := PageCount(bytes);
      if n > 0 && FirstRun(c.virt, 1, n).Some? {
        FailsInMapPageIff(c, bytes);
      }
      if FailsInMapPage(c, bytes) {
        var v := FirstRun(c.virt, 1, n).value;
        var f := MapRange(Reserved(c, v, n), v, n).lost;
        assert Unnamed(c, f) by {
          MarkFrame(c, f);
        }
        assert Leaked(r) == Leaked(c) + {f};
      } else {
        assert Leaked(r) == Leaked(c);
      }
    }
  }

  lemma FailsNeedsRun(c: Core, bytes: nat)
    requires Inv(c) && FailsInMapPage(c, bytes)
    ensures PageCount(bytes) > 0 && FirstRun(c.virt, 1, PageCount(bytes)).Some?
  {
    hide Inv, FirstRun, TableMissing;
  }

  ghost predicate CallFailsInMapPage(s: State, call: Call) {
    Good(s) && call.Malloc? && FailsInMapPage(s.core, call.bytes)
  }

  // How many calls of the run failed in map_page.
  ghost function MapFailures(states: seq<State>, calls: seq<Call>): nat
    requires |states| == |calls| + 1
    decreases |calls|
  {
    if |calls| == 0 then 0
    else
      var n := |calls| - 1;
      MapFailures(states[..n + 1], calls[..n]) + if CallFailsInMapPage(states[n], calls[n]) then 1 else 0
  }

  lemma StepLeaks(s: State, call: Call, s': State)
    requires Step(s, call, s')
    ensures |Leaked(s'.core)| == |Leaked(s.core)| + if CallFailsInMapPage(s, call) then 1 else 0
  {
    hide Owned, NoEmptyTable, Leaked, FailsInMapPage, Allocation.Malloc;
    match call {
      case Malloc(bytes, _) => MallocLeaks(s.core, bytes);
      case Free(address, size) => FreeRangeFacts(s.core, address / PAGE, PageCount(size % ADDRESSES));
      case _ =>
    }
  }

  lemma {:induction false} LeakedOverRun(states: seq<State>, calls: seq<Call>)
    requires IsRun(states, calls)
    ensures |Leaked(states[|calls|].core)| == |Leaked(states[0].core)| + MapFailures(states, calls)
    decreases |calls|
  {
    hide Inv, Step, CallFailsInMapPage, Leaked;
    if |calls| > 0 {
      var n := |calls| - 1;
      LeakedOverRun(states[..n + 1], calls[..n]);
      StepLeaks(states[n], calls[n], states[n + 1]);
    }
  }

  // In every state of every run that starts fresh, the marked frames are the directory, one per
  // linked table, one per mapped page, and one per n_malloc that failed in map_page.
  lemma MarkedFramesOfRun(states: seq<State>, calls: seq<Call>)
    requires IsRun(states, calls) && states[0].core == Fresh()
    ensures var c := states[|calls|].core;
            |MarkedFrameSet(c)| == 1 + |Tables(c)| + |MappedPages(c)| + MapFailures(states, calls)
  {
    hide Owned, NoEmptyTable, Step;
    LeakedOverRun(states, calls);
    FrameAccount(states[|calls|].core);
    assert Leaked(Fresh()) == {};
  }

  // ----- the page account over runs -----

  ghost function CallLosesPages(s: State, call: Call): nat {
    if Good(s) && call.Malloc? then PagesLostBy(s.core, call.bytes) else 0
  }

  // How many pages the calls of the run have left reserved for nothing.
  ghost function PagesLost(states: seq<State>, calls: seq<Call>): nat
    requires |states| == |calls| + 1
    decreases |calls|
  {
    if |calls| == 0 then 0
    else
      var n := |calls| - 1;
      PagesLost(states[..n + 1], calls[..n]) + CallLosesPages(states[n], calls[n])
  }

  lemma StepLosesPages(s: State, call: Call, s': State)
    requires Step(s, call, s')
    ensures LostPages(s.core) <= LostPages(s'.core)
    ensures |LostPages(s'.core)| == |LostPages(s.core)| + CallLosesPages(s, call)
  {
    hide Owned, NoEmptyTable, LostPages, PagesLostBy, Allocation.Malloc, AllocationTheorems.Free;
    match call {
      case Malloc(bytes, _) => MallocLosesPages(s.core, bytes);
      case Free(address, size) => FreeLosesNoPage(s.core, address, size);
      case _ =>
    }
  }

  // A page once lost stays lost, whatever is freed.
  lemma {:induction false} LostPagesOverRun(states: seq<State>, calls: seq<Call>)
    requires IsRun(states, calls)
    ensures LostPages(states[0].core) <= LostPages(states[|calls|].core)
    ensures |LostPages(states[|calls|].core)| == |LostPages(states[0].core)| + PagesLost(states, calls)
    decreases |calls|
  {
    hide Inv, Step, CallLosesPages, LostPages;
    if |calls| > 0 {
      var n := |calls| - 1;
      LostPagesOverRun(states[..n + 1], calls[..n]);
      StepLosesPages(states[n], calls[n], states[n + 1]);
    }
  }

  // In every state of every run that starts fresh, the reserved pages are the mapped ones and, for
  // each n_malloc that ran out of frames, the pages of its run that there were no frames for.
  lemma ReservedPagesOfRun(states: seq<State>, calls: seq<Call>)
    requires IsRun(states, calls) && states[0].core == Fresh()
    ensures var c := states[|calls|].core;
            |ReservedPages(c)| == |MappedPages(c)| + PagesLost(states, calls)
  {
    hide Owned, NoEmptyTable, Step;
    LostPagesOverRun(states, calls);
    PageAccount(states[|calls|].core);
    assert LostPages(Fresh()) == {};
  }

  // Every mapped byte zero.
  ghost function ZeroedUser(c: Core): map<nat, Byte>
    requires Inv(c)
  {
    map a: nat | a < ADDRESSES && c.pages[a / PAGE] != 0 :: 0
  }

  lemma ZeroedGood(c: Core)
    requires Inv(c)
    ensures Good(State(c, ZeroedUser(c)))
  {
    hide Owned, NoEmptyTable;
  }

  lemma MallocStep(c: Core, bytes: nat)
    requires Inv(c) && bytes < ADDRESSES
    ensures var (r, va) := Allocation.Malloc(c, bytes);
            Step(State(c, ZeroedUser(c)), Malloc(bytes, va), State(r, ZeroedUser(r)))
  {
    hide Owned, NoEmptyTable, Allocation.Malloc, Leaked, FirstRun, SetRange, MapRange, PageCount;
    var (r, va) := Allocation.Malloc(c, bytes);
    ZeroedGood(c);
    ZeroedGood(r);
    if va != 0 {
      MallocSucceeds(c, bytes);
    } else {
      MallocFails(c, bytes);
    }
    assert forall u :: 0 <= u < VPAGES && c.pages[u] != 0 ==> r.pages[u] != 0;
  }

  lemma FreeStep(c: Core, va: nat, size: int)
    requires Inv(c) && va < ADDRESSES
    ensures var r := AllocationTheorems.Free(c, va, size);
            Step(State(c, ZeroedUser(c)), Free(va, size), State(r, ZeroedUser(r)))
  {
    hide Owned, NoEmptyTable, Leaked, FreeRange, PageCount, InSpan, Covers;
    var r := AllocationTheorems.Free(c, va, size);
    ZeroedGood(c);
    ZeroedGood(r);
    FreeRangeFacts(c, va / PAGE, PageCount(size % ADDRESSES));
    forall a: nat | a < ADDRESSES
      ensures Covers(va, size % ADDRESSES, a) <==> InSpan(a / PAGE, va / PAGE, PageCount(size % ADDRESSES))
    {
      CoversIsSpan(va, size % ADDRESSES, a);
    }
    assert ZeroedUser(r) == map a | a in ZeroedUser(c) && !Freed(a, va, size) :: ZeroedUser(c)[a];
  }

  // Such a failure happens: allocate all frames, free a few pages, ask for one page more.
  lemma MapFailureHappens() returns (states: seq<State>, calls: seq<Call>)
    ensures IsRun(states, calls) && states[0].core == Fresh()
    ensures MapFailures(states, calls) == 1 && PagesLost(states, calls) > 0
  {
    hide Fresh, Inv, Allocation.Malloc, AllocationTheorems.Free, MappedPart, FailsInMapPage, Leaked, FreeRange, Step,
      ZeroedUser, MapFailures;
    FreshStart();
    FirstCall();
    var c0 := Fresh();
    var (c1, va) := Allocation.Malloc(c0, ALL_FRAMES * PAGE);
    SecondCall(c1);
    var c2 := AllocationTheorems.Free(c1, PAGE, HOLE * PAGE);
    ThirdCall(c2);
    var c3 := Allocation.Malloc(c2, (HOLE + 1) * PAGE).0;
    var s0, s1 := State(c0, ZeroedUser(c0)), State(c1, ZeroedUser(c1));
    var s2, s3 := State(c2, ZeroedUser(c2)), State(c3, ZeroedUser(c3));
    MallocStep(c0, ALL_FRAMES * PAGE);
    FreeStep(c1, PAGE, HOLE * PAGE);
    MallocStep(c2, (HOLE + 1) * PAGE);
    states := [s0, s1, s2, s3];
    calls := [Malloc(ALL_FRAMES * PAGE, PAGE), Free(PAGE, HOLE * PAGE), Malloc((HOLE + 1) * PAGE, 0)];
    StepsGood(s0, calls[0], s1);
    StepsGood(s1, calls[1], s2);
    StepsGood(s2, calls[2], s3);
    assert IsRun(states, calls);
    LeakedOverRun(states, calls);
    MallocLeaks(c2, (HOLE + 1) * PAGE);
    SomePagesLost(c2, (HOLE + 1) * PAGE);
    assert CallLosesPages(states[2], calls[2]) > 0;
    assert states[..3][2] == states[2];
  }

  lemma StepsGood(s: State, call: Call, s': State)
    requires Step(s, call, s')
    ensures Good(s) && Good(s')
  {
    hide Good;
  }

  // ----- the class makes these steps -----

  ghost function StateOf(vm: VirtualMemory): State
    requires vm.Allocated()
    reads vm, vm.physMem, vm.physBitmap, vm.virtBitmap
  {
    State(vm.Core(), vm.User())
  }

  lemma ValidIsGood(vm: VirtualMemory)
    requires vm.Valid()
    ensures Good(StateOf(vm))
  {
    hide Owned, NoEmptyTable;
  }

  datatype Command =
    | DoMalloc(bytes: nat)
    | DoFree(address: nat, size: int)
    | DoPut(va: nat, bytesPut: seq<Byte>)
    | DoGet(from: nat, length: nat)

  // The arguments fit their C types, and n_free does not come by the one address that
  // TLB_invalidate skips while its page is in the buffer.
  ghost predicate Callable(vm: VirtualMemory, command: Command)
    reads vm.tlb, vm.tlb.entries
  {
    match command
    case DoMalloc(bytes) => bytes < ADDRESSES
    case DoFree(address, size) =>
      && address < ADDRESSES && -0x8000_0000 <= size < 0x8000_0000
      && (address % PAGE == PAGE - 1 && Covers(address, size % ADDRESSES, TlbCache.INVALID_PA) ==>
            TlbCache.Lookup(vm.tlb.State(), VPAGES - 1) == None)
    case DoPut(va, bytesPut) => va < ADDRESSES && |bytesPut| < 0x8000_0000
    case DoGet(from, length) => from < ADDRESSES && length < 0x8000_0000
  }

  // Every call on the class is a step of the abstract machine.
  method Perform(vm: VirtualMemory, command: Command) returns (ghost call: Call)
    requires vm.Valid() && Callable(vm, command)
    modifies vm`tlbLookups, vm`tlbMisses, vm.physMem, vm.physBitmap, vm.virtBitmap, vm.tlb, vm.tlb.entries
    ensures vm.Valid()
    ensures Step(old(StateOf(vm)), call, StateOf(vm))
  {
    hide Inv, PhysicalMemory.User, Allocation.Malloc, AllocationTheorems.Free, MappedPrefix, WriteUser, ReadsAs, InSpan,
      PageCount;
    ValidIsGood(vm);
    match command {
      case DoMalloc(bytes) =>
        var result := vm.NMalloc(bytes);
        call := Malloc(bytes, result);
      case DoFree(address, size) =>
        vm.NFree(address, size);
        call := Free(address, size);
      case DoPut(va, bytesPut) =>
        var n := |bytesPut|;
        var buffer := new Byte[n](k requires 0 <= k < n => bytesPut[k]);
        assert buffer[..] == bytesPut;
        ghost var written := MappedPrefix(vm.Core().pages, va, n);
        assert buffer[..written] == bytesPut[..written];
        var ret := vm.PutData(va, buffer, n);
        WriteNothing(old(vm.User()), va);
        call := Put(va, bytesPut, written, ret);
      case DoGet(from, length) =>
        var buffer := new Byte[length](_ => 0);
        vm.GetData(from, buffer, length);
        ghost var n := MappedPrefix(vm.Core().pages, from, length);
        ReadsNothing(vm.User(), from);
        call := Get(from, length, buffer[..n]);
    }
    ValidIsGood(vm);
  }
}
