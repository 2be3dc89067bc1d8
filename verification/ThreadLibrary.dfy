// The user-level thread library as a state machine: each library call, up to the context
// switch it may end in, is one step of the running thread; so is the expiry of its quantum.
module ThreadLibrary {
  import opened Wrappers
  import opened Counting
  import opened ThreadHeap

  type Tid = nat
  type Mid = nat

  datatype Policy = RoundRobin | ShortestJobFirst
  datatype ThreadState = Ready | Running | Blocked | Terminated

  // What a thread does first when it is dispatched again: nothing special, clean up the thread
  // it has joined, or try again for the mutex it was waiting for.
  datatype Resume = Nothing | AfterJoin(target: Tid) | RetryLock(mutex: Mid)

  // holds lists the mutexes the thread has locked and not unlocked yet.
  datatype Tcb = Tcb(state: ThreadState, quanta: int, waiter: Option<Tid>, joined: bool, resume: Resume,
      holds: set<Mid>)
  datatype Mutex = Mutex(locked: bool, owner: Option<Tid>, waitQueue: seq<Tid>)

  // Thread 0 is the main thread; every other thread of tcbs is in the thread table.
  // runQueue is the content of the run structure: the RR queue in order, the PSJF heap in any.
  datatype Sys = Sys(running: Tid, tcbs: map<Tid, Tcb>, runQueue: seq<Tid>, mutexes: map<Mid, Mutex>, nextId: Tid)

  datatype Action =
    | Create | Yield | Preempt | Exit | Join(target: Tid) | Lock(mutex: Mid) | Unlock(mutex: Mid) | Continue

  // ----- scheduling -----

  // psjf_cmp on the control blocks
  predicate RunsBefore(s: Sys, t: Tid, u: Tid)
    requires t in s.tcbs && u in s.tcbs
  {
    Before(Thread(t, s.tcbs[t].quanta), Thread(u, s.tcbs[u].quanta))
  }

  // heap_pop: the position of the least thread among the first n.
  function LeastOf(s: Sys, n: nat): (k: nat)
    requires 0 < n <= |s.runQueue| && forall t :: t in s.runQueue ==> t in s.tcbs
    ensures k < n
    ensures forall j :: 0 <= j < n ==> !RunsBefore(s, s.runQueue[j], s.runQueue[k])
  {
    if n == 1 then 0
    else
      var k := LeastOf(s, n - 1);
      if RunsBefore(s, s.runQueue[n - 1], s.runQueue[k]) then n - 1 else k
  }

  function Choice(policy: Policy, s: Sys): (k: nat)
    requires s.runQueue != [] && forall t :: t in s.runQueue ==> t in s.tcbs
    ensures k < |s.runQueue|
  {
    match policy
    case RoundRobin => 0
    case ShortestJobFirst => LeastOf(s, |s.runQueue|)
  }

  // sched_rr / sched_psjf from a run structure that is not empty
  function Dispatch(policy: Policy, s: Sys): Sys
    requires s.runQueue != [] && forall t :: t in s.runQueue ==> t in s.tcbs
  {
    var k := Choice(policy, s);
    var next := s.runQueue[k];
    s.(running := next,
       tcbs := s.tcbs[next := s.tcbs[next].(state := Running)],
       runQueue := s.runQueue[..k] + s.runQueue[k + 1..])
  }

  // The switch of schedule(): what becomes of the thread that was running.
  function Requeue(s: Sys): Sys
    requires s.running in s.tcbs
  {
    var r := s.tcbs[s.running];
    match r.state
    case Running =>
      s.(tcbs := s.tcbs[s.running := r.(state := Ready, quanta := r.quanta + 1)], runQueue := s.runQueue + [s.running])
    case Ready => s.(runQueue := s.runQueue + [s.running])
    case Blocked => s
    case Terminated => s
  }

  // schedule(); None when there is no thread to dispatch.
  function Schedule(policy: Policy, s: Sys): Option<Sys>
    requires s.running in s.tcbs && forall t :: t in s.runQueue ==> t in s.tcbs
  {
    var s1 := Requeue(s);
    if s1.runQueue == [] then None else Some(Dispatch(policy, s1))
  }

  // ----- the library calls of the running thread -----

  function SetState(s: Sys, t: Tid, state: ThreadState): Sys
    requires t in s.tcbs
  {
    s.(tcbs := s.tcbs[t := s.tcbs[t].(state := state)])
  }

  function MakeReady(s: Sys, t: Tid): Sys
    requires t in s.tcbs
  {
    SetState(s, t, Ready).(runQueue := s.runQueue + [t])
  }

  // worker_create
  function CreateThread(s: Sys): Sys {
    s.(tcbs := s.tcbs[s.nextId := Tcb(Ready, 0, None, false, Nothing, {})],
       runQueue := s.runQueue + [s.nextId],
       nextId := s.nextId + 1)
  }

  // The pointer in the running thread's waiter field, if any, leads to another thread.
  predicate WaiterExists(s: Sys) {
    && s.running in s.tcbs
    && match s.tcbs[s.running].waiter case None => true case Some(w) => w in s.tcbs && w != s.running
  }

  // worker_exit up to its context switch
  function Terminate(s: Sys): Sys
    requires WaiterExists(s)
  {
    var w := s.tcbs[s.running].waiter;
    var s1 := s.(tcbs := s.tcbs[s.running := s.tcbs[s.running].(state := Terminated, waiter := None)]);
    if w.Some? then MakeReady(s1, w.value) else s1
  }

  // The end of worker_join: cleanup_thread on the target, and back to the caller.
  function Cleanup(s: Sys, t: Tid): Sys
    requires s.running in s.tcbs
  {
    s.(tcbs := s.tcbs[s.running := s.tcbs[s.running].(resume := Nothing)] - {t})
  }

  // worker_join refuses: no such thread in the table, the caller itself, or already joined.
  predicate Joinable(s: Sys, t: Tid) {
    t in s.tcbs && t != 0 && t != s.running && !s.tcbs[t].joined
  }

  // worker_join on a thread that has not terminated, up to its context switch
  function WaitFor(s: Sys, t: Tid): Sys
    requires t in s.tcbs && s.running in s.tcbs && t != s.running
  {
    s.(tcbs := s.tcbs[t := s.tcbs[t].(joined := true, waiter := Some(s.running))]
                     [s.running := s.tcbs[s.running].(state := Blocked, resume := AfterJoin(t))])
  }

  // worker_mutex_lock: the test-and-set succeeds
  function Acquire(s: Sys, m: Mid): Sys
    requires m in s.mutexes && s.running in s.tcbs
  {
    var r := s.tcbs[s.running];
    s.(mutexes := s.mutexes[m := s.mutexes[m].(locked := true, owner := Some(s.running))],
       tcbs := s.tcbs[s.running := r.(resume := Nothing, holds := r.holds + {m})])
  }

  // worker_mutex_lock: the test-and-set fails; up to the context switch
  function WaitForMutex(s: Sys, m: Mid): Sys
    requires m in s.mutexes && s.running in s.tcbs
  {
    s.(mutexes := s.mutexes[m := s.mutexes[m].(waitQueue := s.mutexes[m].waitQueue + [s.running])],
       tcbs := s.tcbs[s.running := s.tcbs[s.running].(state := Blocked, resume := RetryLock(m))])
  }

  function LockMutex(policy: Policy, s: Sys, m: Mid): Option<Sys>
    requires m in s.mutexes && s.running in s.tcbs && forall t :: t in s.runQueue ==> t in s.tcbs
  {
    if !s.mutexes[m].locked then Some(Acquire(s, m)) else Schedule(policy, WaitForMutex(s, m))
  }

  predicate QueueExists(s: Sys, m: Mid) {
    m in s.mutexes && forall t :: t in s.mutexes[m].waitQueue ==> t in s.tcbs
  }

  // worker_mutex_unlock by the owner
  function Release(s: Sys, m: Mid): Sys
    requires s.running in s.tcbs && QueueExists(s, m)
  {
    var q := s.mutexes[m].waitQueue;
    var r := s.tcbs[s.running];
    var s1 := s.(mutexes := s.mutexes[m := Mutex(false, None, if q == [] then [] else q[1..])],
                 tcbs := s.tcbs[s.running := r.(holds := r.holds - {m})]);
    if q == [] then s1 else MakeReady(s1, q[0])
  }

  // ----- the invariant -----

  predicate Is(s: Sys, t: Tid, state: ThreadState) {
    t in s.tcbs && s.tcbs[t].state == state
  }

  predicate Exists(s: Sys, t: Tid) {
    t in s.tcbs
  }

  // Thread t is in worker_join on x.
  predicate Joins(s: Sys, t: Tid, x: Tid) {
    t in s.tcbs && s.tcbs[t].resume == AfterJoin(x)
  }

  // Thread t is in worker_mutex_lock on m and has failed at least once.
  predicate Wants(s: Sys, t: Tid, m: Mid) {
    t in s.tcbs && s.tcbs[t].resume == RetryLock(m)
  }

  // The waiter field of x names t.
  predicate AwaitedBy(s: Sys, x: Tid, t: Tid) {
    x in s.tcbs && s.tcbs[x].waiter == Some(t)
  }

  predicate QueuedFor(s: Sys, m: Mid, t: Tid) {
    m in s.mutexes && t in s.mutexes[m].waitQueue
  }

  predicate Holds(s: Sys, t: Tid, m: Mid) {
    t in s.tcbs && m in s.tcbs[t].holds
  }

  predicate OwnedBy(s: Sys, m: Mid, t: Tid) {
    m in s.mutexes && s.mutexes[m].owner == Some(t)
  }

  predicate Joined(s: Sys, t: Tid) {
    t in s.tcbs && s.tcbs[t].joined
  }

  predicate MidCall(s: Sys, t: Tid) {
    t in s.tcbs && s.tcbs[t].resume != Nothing
  }

  // Exactly the thread that is running has state Running.
  ghost predicate OneRunning(s: Sys) {
    forall t :: Is(s, t, Running) <==> t == s.running
  }

  // The run structure holds each ready thread once, and nothing else.
  ghost predicate ReadyAreQueued(s: Sys) {
    && NoRepeats(s.runQueue)
    && (forall t :: t in s.runQueue <==> Is(s, t, Ready))
  }

  // A blocked thread sits once in the wait queue of the mutex it wants or in the waiter field of
  // the thread it joins, and nowhere else.
  ghost predicate BlockedWaitOnce(s: Sys) {
    && (forall t :: Is(s, t, Blocked) ==> MidCall(s, t))
    && (forall t, m :: Is(s, t, Blocked) && Wants(s, t, m) ==> QueuedFor(s, m, t))
    && (forall t, x :: Is(s, t, Blocked) && Joins(s, t, x) ==> AwaitedBy(s, x, t))
    && (forall m, t :: QueuedFor(s, m, t) ==> Is(s, t, Blocked) && Wants(s, t, m))
    && (forall x, t :: AwaitedBy(s, x, t) ==> Is(s, t, Blocked) && Joins(s, t, x))
    && (forall m :: m in s.mutexes ==> NoRepeats(s.mutexes[m].waitQueue))
  }

  // A thread is joined at most once; a joiner that runs again finds its target terminated.
  ghost predicate JoinsAreSafe(s: Sys) {
    && (forall t, x :: Joins(s, t, x) ==>
          Joined(s, x) && x != 0 && x != t && (Is(s, t, Blocked) || Is(s, x, Terminated)))
    && (forall t, u, x :: Joins(s, t, x) && Joins(s, u, x) ==> t == u)
    && (forall t, m :: Wants(s, t, m) ==> m in s.mutexes)
    && (forall t :: Is(s, t, Terminated) ==> !MidCall(s, t))
    && (forall t, x :: AwaitedBy(s, t, x) ==> !Is(s, t, Terminated))
  }

  // A mutex is locked exactly while it has an owner, and no other thread holds it.
  ghost predicate HoldersOwn(s: Sys) {
    && (forall m :: m in s.mutexes ==> (s.mutexes[m].locked <==> s.mutexes[m].owner.Some?))
    && (forall t, m :: Holds(s, t, m) ==> OwnedBy(s, m, t))
    && (forall m, t: Tid :: OwnedBy(s, m, t) ==> t < s.nextId && (Exists(s, t) ==> Holds(s, t, m)))
    && (forall t: Tid :: Exists(s, t) ==> t < s.nextId)
    && s.nextId > 0
  }

  // A mutex that is free while threads wait for it has a woken thread that will try again.
  ghost predicate FreeMutexHasCandidate(s: Sys) {
    forall m :: m in s.mutexes && !s.mutexes[m].locked && s.mutexes[m].waitQueue != [] ==>
        exists t :: Candidate(s, t, m)
  }

  ghost predicate Candidate(s: Sys, t: Tid, m: Mid) {
    (Is(s, t, Ready) || Is(s, t, Running)) && Wants(s, t, m)
  }

  ghost predicate Inv(s: Sys) {
    OneRunning(s) && ReadyAreQueued(s) && Rest(s)
  }

  ghost predicate Rest(s: Sys) {
    BlockedWaitOnce(s) && JoinsAreSafe(s) && HoldersOwn(s) && FreeMutexHasCandidate(s) && |s.tcbs| <= MAX_THREADS
  }

  // ----- between two threads -----

  // On the way into schedule(): the thread that was running is in no run structure yet.
  ghost predicate Switching(s: Sys) {
    && s.running in s.tcbs
    && NoRepeats(s.runQueue)
    && (forall t :: t in s.runQueue <==> Is(s, t, Ready) && t != s.running)
    && (forall t :: Is(s, t, Running) ==> t == s.running)
    && Rest(s)
  }

  // Before the dispatch: no thread is running.
  ghost predicate Idle(s: Sys) {
    && ReadyAreQueued(s)
    && (forall t :: !Is(s, t, Running))
    && Rest(s)
  }

  // The same threads wait and hold the same; a thread may have moved between ready and running.
  ghost predicate SameWaits(s: Sys, s': Sys) {
    && s'.tcbs.Keys == s.tcbs.Keys && s'.mutexes == s.mutexes && s'.nextId == s.nextId
    && (forall t :: t in s.tcbs ==> SameButRunnable(s.tcbs[t], s'.tcbs[t]))
  }

  predicate SameButRunnable(a: Tcb, b: Tcb) {
    && b.waiter == a.waiter && b.joined == a.joined && b.resume == a.resume && b.holds == a.holds
    && (b.state == a.state || (IsRunnable(a.state) && IsRunnable(b.state)))
  }

  predicate IsRunnable(state: ThreadState) {
    state == Ready || state == Running
  }

  // The threads other than those of set `but`, and all mutexes, are related as before.
  ghost predicate SameRelations(s: Sys, s': Sys, but: set<Tid>) {
    && (forall t, x :: t !in but ==> Joins(s', t, x) == Joins(s, t, x))
    && (forall t, x :: t !in but ==> Wants(s', t, x) == Wants(s, t, x))
    && (forall t, x :: t !in but ==> AwaitedBy(s', t, x) == AwaitedBy(s, t, x))
    && (forall t, x :: t !in but ==> Holds(s', t, x) == Holds(s, t, x))
    && (forall t :: t !in but ==> Is(s', t, Blocked) == Is(s, t, Blocked))
    && (forall t :: t !in but ==> Is(s', t, Terminated) == Is(s, t, Terminated))
    && (forall t :: t !in but ==> MidCall(s', t) == MidCall(s, t))
    && (forall t :: t !in but ==> Joined(s', t) == Joined(s, t))
    && (forall t :: t !in but ==> Exists(s', t) == Exists(s, t))
    && (forall t, x :: t !in but ==> Candidate(s', t, x) == Candidate(s, t, x))
  }

  lemma SameWaitsRelate(s: Sys, s': Sys)
    requires SameWaits(s, s')
    ensures SameRelations(s, s', {})
  {
  }

  lemma BlockedKept(s: Sys, s': Sys)
    requires BlockedWaitOnce(s) && SameRelations(s, s', {}) && s'.mutexes == s.mutexes
    ensures BlockedWaitOnce(s')
  {
    hide Joins, Wants, AwaitedBy, Holds, OwnedBy, QueuedFor, Candidate, Is, MidCall, Joined, Exists, NoRepeats;
    forall m, t ensures QueuedFor(s', m, t) == QueuedFor(s, m, t) { SameMutexes(s, s', m, t); }
  }

  lemma JoinsKept(s: Sys, s': Sys)
    requires JoinsAreSafe(s) && SameRelations(s, s', {}) && s'.mutexes == s.mutexes
    ensures JoinsAreSafe(s')
  {
    hide Joins, Wants, AwaitedBy, Holds, OwnedBy, QueuedFor, Candidate, Is, MidCall, Joined, Exists, NoRepeats;
  }

  lemma HoldersKept(s: Sys, s': Sys)
    requires HoldersOwn(s) && SameRelations(s, s', {}) && s'.mutexes == s.mutexes && s'.nextId == s.nextId
    ensures HoldersOwn(s')
  {
    hide Joins, Wants, AwaitedBy, Holds, OwnedBy, QueuedFor, Candidate, Is, MidCall, Joined, Exists, NoRepeats;
    forall m, t ensures OwnedBy(s', m, t) == OwnedBy(s, m, t) { SameMutexes(s, s', m, t); }
  }

  lemma CandidatesKept(s: Sys, s': Sys)
    requires FreeMutexHasCandidate(s) && SameRelations(s, s', {}) && s'.mutexes == s.mutexes
    ensures FreeMutexHasCandidate(s')
  {
    hide Joins, Wants, AwaitedBy, Holds, OwnedBy, QueuedFor, Candidate, Is, MidCall, Joined, Exists, NoRepeats;
  }

  lemma RestKept(s: Sys, s': Sys)
    requires Rest(s) && SameWaits(s, s')
    ensures Rest(s')
  {
    hide BlockedWaitOnce, JoinsAreSafe, HoldersOwn, FreeMutexHasCandidate, SameRelations;
    SameWaitsRelate(s, s');
    BlockedKept(s, s');
    JoinsKept(s, s');
    HoldersKept(s, s');
    CandidatesKept(s, s');
    assert |s'.tcbs| == |s'.tcbs.Keys| == |s.tcbs.Keys| == |s.tcbs|;
  }

  lemma SameMutexes(s: Sys, s': Sys, m: Mid, t: Tid)
    requires s'.mutexes == s.mutexes
    ensures QueuedFor(s', m, t) == QueuedFor(s, m, t) && OwnedBy(s', m, t) == OwnedBy(s, m, t)
  {
  }

  lemma RequeueIdles(s: Sys)
    requires Switching(s)
    ensures Idle(Requeue(s))
  {
    hide Rest;
    var s' := Requeue(s);
    RestKept(s, s');
    forall t
      ensures Is(s', t, Ready) <==> t in s'.runQueue
      ensures !Is(s', t, Running)
    {
      assert t != s.running ==> Is(s', t, Ready) == Is(s, t, Ready) && Is(s', t, Running) == Is(s, t, Running);
      assert t in s'.runQueue ==> t in s.runQueue || t == s.running;
    }
    forall i, j | 0 <= i < j < |s'.runQueue|
      ensures s'.runQueue[i] != s'.runQueue[j]
    {
      assert s.runQueue[i] in s.runQueue;
    }
  }

  lemma DispatchRuns(policy: Policy, s: Sys)
    requires Idle(s) && s.runQueue != []
    ensures Inv(Dispatch(policy, s))
  {
    hide Rest, LeastOf;
    var s' := Dispatch(policy, s);
    var k := Choice(policy, s);
    assert Is(s, s.runQueue[k], Ready);
    RestKept(s, s');
    TakeOut(s.runQueue, k);
    forall t
      ensures Is(s', t, Ready) <==> t in s'.runQueue
      ensures Is(s', t, Running) <==> t == s'.running
    {
      assert t != s'.running ==> Is(s', t, Ready) == Is(s, t, Ready) && Is(s', t, Running) == Is(s, t, Running);
    }
  }

  lemma TakeOut(q: seq<Tid>, k: nat)
    requires k < |q| && NoRepeats(q)
    ensures var r := q[..k] + q[k + 1..]; NoRepeats(r) && forall t :: t in r <==> t in q && t != q[k]
  {
    var r := q[..k] + q[k + 1..];
    forall i | 0 <= i < |r|
      ensures r[i] == if i < k then q[i] else q[i + 1]
    {
    }
    forall t | t in q && t != q[k]
      ensures t in r
    {
      var i: nat :| i < |q| && q[i] == t;
      assert r[if i < k then i else i - 1] == t;
    }
  }

  // Whatever the switch left behind, the next thread runs in a proper state.
  lemma ScheduleInv(policy: Policy, s: Sys)
    requires Switching(s)
    ensures Schedule(policy, s).Some? ==> Inv(Schedule(policy, s).value)
  {
    hide Rest, Dispatch;
    RequeueIdles(s);
    if Requeue(s).runQueue != [] {
      DispatchRuns(policy, Requeue(s));
    }
  }

  lemma InvSwitches(s: Sys)
    requires Inv(s)
    ensures Switching(s)
  {
    hide Rest;
    assert Is(s, s.running, Running);
    forall t
      ensures t in s.runQueue <==> Is(s, t, Ready) && t != s.running
    {
    }
  }

  lemma YieldSwitches(s: Sys)
    requires Inv(s)
    ensures s.running in s.tcbs && Switching(SetState(s, s.running, Ready))
  {
    hide Rest;
    InvSwitches(s);
    var s' := SetState(s, s.running, Ready);
    assert Is(s, s.running, Running);
    RestKept(s, s');
    forall t
      ensures t != s.running ==> Is(s', t, Ready) == Is(s, t, Ready) && Is(s', t, Running) == Is(s, t, Running)
    {
    }
  }

  // ----- each call -----

  // The running thread returns from worker_join on x, or never has to wait for it.
  ghost predicate CleansUp(s: Sys, x: Tid) {
    && Is(s, s.running, Running) && Is(s, x, Terminated)
    && (forall m :: !Wants(s, s.running, m))
    && (forall t :: Joins(s, t, x) ==> t == s.running)
    && (forall y :: Joins(s, s.running, y) ==> y == x)
  }

  // The running thread has to wait for x in worker_join.
  ghost predicate StartsWaiting(s: Sys, x: Tid) {
    && Is(s, s.running, Running) && !MidCall(s, s.running)
    && Exists(s, x) && x != 0 && x != s.running && !Joined(s, x) && !Is(s, x, Terminated)
  }

  // The running thread is at the test-and-set of mutex m, for the first time or again.
  ghost predicate AtLock(s: Sys, m: Mid) {
    && Is(s, s.running, Running) && m in s.mutexes
    && (forall y :: !Joins(s, s.running, y))
    && (forall y :: Wants(s, s.running, y) ==> y == m)
  }

  // A thread is in one call at a time.
  lemma OneCall(s: Sys)
    ensures forall t, x, y :: Joins(s, t, x) && Joins(s, t, y) ==> x == y
    ensures forall t, x, y :: Wants(s, t, x) && Wants(s, t, y) ==> x == y
    ensures forall t, x, y :: !(Joins(s, t, x) && Wants(s, t, y))
    ensures forall m, t, u :: OwnedBy(s, m, t) && OwnedBy(s, m, u) ==> t == u
  {
  }

  lemma RunningFacts(s: Sys)
    requires Is(s, s.running, Running)
    ensures !Is(s, s.running, Blocked) && !Is(s, s.running, Terminated) && !Is(s, s.running, Ready)
    ensures Exists(s, s.running)
    ensures !MidCall(s, s.running) ==> forall y :: !Wants(s, s.running, y) && !Joins(s, s.running, y)
    ensures !MidCall(s, s.running) <== forall y :: !Wants(s, s.running, y) && !Joins(s, s.running, y)
  {
    var r := s.tcbs[s.running].resume;
    assert r.RetryLock? ==> Wants(s, s.running, r.mutex);
    assert r.AfterJoin? ==> Joins(s, s.running, r.target);
  }

  // The waiter of the exiting thread is some other, blocked thread.
  lemma ExitWaiter(s: Sys)
    requires Is(s, s.running, Running) && BlockedWaitOnce(s)
    ensures forall t :: AwaitedBy(s, s.running, t) ==> Is(s, t, Blocked) && t != s.running
    ensures WaiterExists(s)
    ensures s.tcbs[s.running].waiter.Some? ==> AwaitedBy(s, s.running, s.tcbs[s.running].waiter.value)
  {
    var w := s.tcbs[s.running].waiter;
    if w.Some? {
      assert AwaitedBy(s, s.running, w.value);
    }
  }

  lemma CleanupShrinks(s: Sys, x: Tid)
    requires s.running in s.tcbs
    ensures |Cleanup(s, x).tcbs| <= |s.tcbs|
  {
    var m := s.tcbs[s.running := s.tcbs[s.running].(resume := Nothing)];
    assert (m - {x}).Keys == m.Keys - {x};
    assert |(m - {x}).Keys| <= |m.Keys|;
  }

  lemma AppendDistinct(q: seq<Tid>, t: Tid)
    requires NoRepeats(q) && t !in q
    ensures NoRepeats(q + [t])
  {
  }

  // Thread t is the one an unlock of m wakes.
  predicate Woken(s: Sys, m: Mid, t: Tid) {
    m in s.mutexes && s.mutexes[m].waitQueue != [] && t == s.mutexes[m].waitQueue[0]
  }

  lemma ReleaseWaiters(s: Sys, m: Mid)
    requires BlockedWaitOnce(s) && m in s.mutexes
    ensures QueueExists(s, m)
    ensures forall t :: t in s.mutexes[m].waitQueue ==>
              t in s.tcbs && s.tcbs[t].state == Blocked && s.tcbs[t].resume == RetryLock(m)
    ensures var q := s.mutexes[m].waitQueue;
            q != [] ==> NoRepeats(q[1..]) && (forall y :: QueuedFor(s, y, q[0]) ==>
                y == m) && forall t :: t in q[1..] <==> t in q && t != q[0]
  {
    var q := s.mutexes[m].waitQueue;
    forall t | t in q
      ensures t in s.tcbs && s.tcbs[t].state == Blocked && s.tcbs[t].resume == RetryLock(m)
    {
      assert QueuedFor(s, m, t);
    }
    if q != [] {
      TakeOut(q, 0);
      OneCall(s);
      assert QueuedFor(s, m, q[0]);
      assert q[..0] + q[0 + 1..] == q[1..];
    }
  }

  lemma ReleaseQueues(s: Sys, m: Mid)
    requires BlockedWaitOnce(s) && s.running in s.tcbs && QueueExists(s, m)
    ensures forall y, t :: QueuedFor(Release(s, m), y, t) == (QueuedFor(s, y, t) && !Woken(s, m, t))
  {
    hide BlockedWaitOnce;
    ReleaseWaiters(s, m);
    var q := s.mutexes[m].waitQueue;
    forall y, t
      ensures QueuedFor(Release(s, m), y, t) == (QueuedFor(s, y, t) && !Woken(s, m, t))
    {
      if q != [] {
        assert t in q[1..] <==> t in q && t != q[0];
        assert Woken(s, m, t) <==> t == q[0];
        assert t == q[0] && QueuedFor(s, y, q[0]) ==> y == m;
      } else {
        assert !Woken(s, m, t);
      }
      assert y == m ==> Release(s, m).mutexes[m].waitQueue == if q == [] then [] else q[1..];
      assert y != m ==> QueuedFor(Release(s, m), y, t) == QueuedFor(s, y, t);
    }
  }

  // worker_create

  lemma CreateRelates(s: Sys)
    requires !Exists(s, s.nextId)
    ensures var s' := CreateThread(s);
            && (forall t, x :: Joins(s', t, x) == Joins(s, t, x))
            && (forall t, x :: Wants(s', t, x) == Wants(s, t, x))
            && (forall t, x :: AwaitedBy(s', t, x) == AwaitedBy(s, t, x))
            && (forall t, x :: Holds(s', t, x) == Holds(s, t, x))
            && (forall m, t :: QueuedFor(s', m, t) == QueuedFor(s, m, t))
            && (forall m, t :: OwnedBy(s', m, t) == OwnedBy(s, m, t))
            && (forall t :: MidCall(s', t) == MidCall(s, t))
            && (forall t :: Joined(s', t) == Joined(s, t))
            && (forall t :: Exists(s', t) == (Exists(s, t) || t == s.nextId))
            && (forall t :: Is(s', t, Blocked) == Is(s, t, Blocked))
            && (forall t :: Is(s', t, Terminated) == Is(s, t, Terminated))
            && (forall t :: Is(s', t, Running) == Is(s, t, Running))
            && (forall t :: Is(s', t, Ready) == (Is(s, t, Ready) || t == s.nextId))
            && (forall t, m :: Candidate(s', t, m) == Candidate(s, t, m))
            && s'.mutexes == s.mutexes && |s'.tcbs| == |s.tcbs| + 1
  {
  }

  lemma CreateBlocked(s: Sys)
    requires !Exists(s, s.nextId) && BlockedWaitOnce(s)
    ensures BlockedWaitOnce(CreateThread(s))
  {
    hide Joins, Wants, AwaitedBy, Holds, OwnedBy, QueuedFor, Candidate, Is, MidCall, Joined, Exists, NoRepeats;
    CreateRelates(s);
  }

  lemma CreateJoins(s: Sys)
    requires !Exists(s, s.nextId) && JoinsAreSafe(s)
    ensures JoinsAreSafe(CreateThread(s))
  {
    hide Joins, Wants, AwaitedBy, Holds, OwnedBy, QueuedFor, Candidate, Is, MidCall, Joined, Exists, NoRepeats;
    CreateRelates(s);
  }

  lemma CreateHolders(s: Sys)
    requires !Exists(s, s.nextId) && HoldersOwn(s)
    ensures HoldersOwn(CreateThread(s))
  {
    hide Joins, Wants, AwaitedBy, Holds, OwnedBy, QueuedFor, Candidate, Is, MidCall, Joined, Exists, NoRepeats;
    CreateRelates(s);
  }

  lemma CreateCandidates(s: Sys)
    requires !Exists(s, s.nextId) && FreeMutexHasCandidate(s)
    ensures FreeMutexHasCandidate(CreateThread(s))
  {
    hide Joins, Wants, AwaitedBy, Holds, OwnedBy, QueuedFor, Candidate, Is, MidCall, Joined, Exists, NoRepeats;
    CreateRelates(s);
  }

  // worker_exit

  lemma ExitRelates(s: Sys)
    requires Is(s, s.running, Running) && !MidCall(s, s.running) && BlockedWaitOnce(s) && WaiterExists(s)
    ensures var s' := Terminate(s);
            && (forall t, x :: Joins(s', t, x) == Joins(s, t, x))
            && (forall t, x :: Wants(s', t, x) == Wants(s, t, x))
            && (forall x, t :: AwaitedBy(s', x, t) == (x != s.running && AwaitedBy(s, x, t)))
            && (forall t, x :: Holds(s', t, x) == Holds(s, t, x))
            && (forall m, t :: QueuedFor(s', m, t) == QueuedFor(s, m, t))
            && (forall m, t :: OwnedBy(s', m, t) == OwnedBy(s, m, t))
            && (forall t :: MidCall(s', t) == MidCall(s, t))
            && (forall t :: Joined(s', t) == Joined(s, t))
            && (forall t :: Exists(s', t) == Exists(s, t))
            && (forall t :: Is(s', t, Blocked) == (Is(s, t, Blocked) && !AwaitedBy(s, s.running, t)))
            && (forall t :: Is(s', t, Terminated) == (Is(s, t, Terminated) || t == s.running))
            && (forall t :: Is(s', t, Running) == (Is(s, t, Running) && t != s.running))
            && (forall t :: Is(s', t, Ready) == (Is(s, t, Ready) || AwaitedBy(s, s.running, t)))
            && (forall t, m :: Candidate(s, t, m) ==> Candidate(s', t, m))
            && s'.mutexes == s.mutexes && s'.nextId == s.nextId && s'.tcbs.Keys == s.tcbs.Keys
  {
    ExitWaiter(s);
  }

  lemma ExitBlocked(s: Sys)
    requires Is(s, s.running, Running) && !MidCall(s, s.running) && BlockedWaitOnce(s) && WaiterExists(s)
    ensures BlockedWaitOnce(Terminate(s))
  {
    hide Joins, Wants, AwaitedBy, Holds, OwnedBy, QueuedFor, Candidate, Is, MidCall, Joined, Exists, NoRepeats;
    RunningFacts(s);
    OneCall(s);
    ExitRelates(s);
  }

  lemma ExitJoins(s: Sys)
    requires Is(s, s.running, Running) && !MidCall(s, s.running) && BlockedWaitOnce(s) && WaiterExists(s)
    requires JoinsAreSafe(s)
    ensures JoinsAreSafe(Terminate(s))
  {
    hide Joins, Wants, AwaitedBy, Holds, OwnedBy, QueuedFor, Candidate, Is, MidCall, Joined, Exists, NoRepeats;
    RunningFacts(s);
    OneCall(s);
    ExitRelates(s);
  }

  lemma ExitHolders(s: Sys)
    requires Is(s, s.running, Running) && !MidCall(s, s.running) && BlockedWaitOnce(s) && WaiterExists(s)
    requires HoldersOwn(s)
    ensures HoldersOwn(Terminate(s))
  {
    hide Joins, Wants, AwaitedBy, Holds, OwnedBy, QueuedFor, Candidate, Is, MidCall, Joined, Exists, NoRepeats;
    RunningFacts(s);
    OneCall(s);
    ExitRelates(s);
  }

  lemma ExitCandidates(s: Sys)
    requires Is(s, s.running, Running) && !MidCall(s, s.running) && BlockedWaitOnce(s) && WaiterExists(s)
    requires FreeMutexHasCandidate(s)
    ensures FreeMutexHasCandidate(Terminate(s))
  {
    hide Joins, Wants, AwaitedBy, Holds, OwnedBy, QueuedFor, Candidate, Is, MidCall, Joined, Exists, NoRepeats;
    RunningFacts(s);
    OneCall(s);
    ExitRelates(s);
  }

  // worker_join on a terminated thread, and the return of worker_join

  lemma CleanupRelates(s: Sys, x: Tid)
    requires CleansUp(s, x) && JoinsAreSafe(s)
    ensures var s' := Cleanup(s, x);
            && (forall t, y :: Joins(s', t, y) == (t != s.running && Joins(s, t, y)))
            && (forall t, m :: Wants(s', t, m) == Wants(s, t, m))
            && (forall y, t :: AwaitedBy(s', y, t) == AwaitedBy(s, y, t))
            && (forall t, m :: Holds(s', t, m) == (t != x && Holds(s, t, m)))
            && (forall m, t :: QueuedFor(s', m, t) == QueuedFor(s, m, t))
            && (forall m, t :: OwnedBy(s', m, t) == OwnedBy(s, m, t))
            && (forall t :: MidCall(s', t) == (t != s.running && MidCall(s, t)))
            && (forall t :: Joined(s', t) == (t != x && Joined(s, t)))
            && (forall t :: Exists(s', t) == (t != x && Exists(s, t)))
            && (forall t :: Is(s', t, Blocked) == Is(s, t, Blocked))
            && (forall t :: Is(s', t, Terminated) == (t != x && Is(s, t, Terminated)))
            && (forall t :: Is(s', t, Running) == Is(s, t, Running))
            && (forall t :: Is(s', t, Ready) == Is(s, t, Ready))
            && (forall t, m :: Candidate(s', t, m) == Candidate(s, t, m))
            && s'.mutexes == s.mutexes && s'.nextId == s.nextId && |s'.tcbs| <= |s.tcbs|
  {
    CleanupShrinks(s, x);
    assert forall t :: AwaitedBy(s, x, t) ==> !Is(s, x, Terminated);
    assert !MidCall(s, x);
  }

  lemma CleanupBlocked(s: Sys, x: Tid)
    requires CleansUp(s, x) && JoinsAreSafe(s) && BlockedWaitOnce(s)
    ensures BlockedWaitOnce(Cleanup(s, x))
  {
    hide Joins, Wants, AwaitedBy, Holds, OwnedBy, QueuedFor, Candidate, Is, MidCall, Joined, Exists, NoRepeats;
    RunningFacts(s);
    CleanupRelates(s, x);
  }

  lemma CleanupJoins(s: Sys, x: Tid)
    requires CleansUp(s, x) && JoinsAreSafe(s)
    ensures JoinsAreSafe(Cleanup(s, x))
  {
    hide Joins, Wants, AwaitedBy, Holds, OwnedBy, QueuedFor, Candidate, Is, MidCall, Joined, Exists, NoRepeats;
    RunningFacts(s);
    CleanupRelates(s, x);
  }

  lemma CleanupHolders(s: Sys, x: Tid)
    requires CleansUp(s, x) && JoinsAreSafe(s) && HoldersOwn(s)
    ensures HoldersOwn(Cleanup(s, x))
  {
    hide Joins, Wants, AwaitedBy, Holds, OwnedBy, QueuedFor, Candidate, Is, MidCall, Joined, Exists, NoRepeats;
    RunningFacts(s);
    CleanupRelates(s, x);
  }

  lemma CleanupCandidates(s: Sys, x: Tid)
    requires CleansUp(s, x) && JoinsAreSafe(s) && FreeMutexHasCandidate(s)
    ensures FreeMutexHasCandidate(Cleanup(s, x))
  {
    hide Joins, Wants, AwaitedBy, Holds, OwnedBy, QueuedFor, Candidate, Is, MidCall, Joined, Exists, NoRepeats;
    RunningFacts(s);
    CleanupRelates(s, x);
  }

  // worker_join on a thread that is still alive

  lemma WaitRelates(s: Sys, x: Tid)
    requires StartsWaiting(s, x) && BlockedWaitOnce(s) && JoinsAreSafe(s)
    ensures var s' := WaitFor(s, x);
            && (forall t, y :: Joins(s', t, y) == (Joins(s, t, y) || (t == s.running && y == x)))
            && (forall t, m :: Wants(s', t, m) == Wants(s, t, m))
            && (forall y, t :: AwaitedBy(s', y, t) == (AwaitedBy(s, y, t) || (t == s.running && y == x)))
            && (forall t, m :: Holds(s', t, m) == Holds(s, t, m))
            && (forall m, t :: QueuedFor(s', m, t) == QueuedFor(s, m, t))
            && (forall m, t :: OwnedBy(s', m, t) == OwnedBy(s, m, t))
            && (forall t :: MidCall(s', t) == (MidCall(s, t) || t == s.running))
            && (forall t :: Joined(s', t) == (Joined(s, t) || t == x))
            && (forall t :: Exists(s', t) == Exists(s, t))
            && (forall t :: Is(s', t, Blocked) == (Is(s, t, Blocked) || t == s.running))
            && (forall t :: Is(s', t, Terminated) == Is(s, t, Terminated))
            && (forall t :: Is(s', t, Running) == (Is(s, t, Running) && t != s.running))
            && (forall t :: Is(s', t, Ready) == Is(s, t, Ready))
            && (forall t, m :: Candidate(s', t, m) == Candidate(s, t, m))
            && (forall t :: !Joins(s, t, x)) && (forall t :: !AwaitedBy(s, s.running, t) || t != s.running)
            && s'.mutexes == s.mutexes && s'.nextId == s.nextId && s'.tcbs.Keys == s.tcbs.Keys
  {
    assert forall t :: AwaitedBy(s, x, t) ==> Joins(s, t, x);
    assert forall t :: Joins(s, t, x) ==> Joined(s, x);
    assert forall y :: !Joins(s, s.running, y);
  }

  lemma WaitBlocked(s: Sys, x: Tid)
    requires StartsWaiting(s, x) && BlockedWaitOnce(s) && JoinsAreSafe(s)
    ensures BlockedWaitOnce(WaitFor(s, x))
  {
    hide Joins, Wants, AwaitedBy, Holds, OwnedBy, QueuedFor, Candidate, Is, MidCall, Joined, Exists, NoRepeats;
    RunningFacts(s);
    WaitRelates(s, x);
  }

  lemma WaitJoins(s: Sys, x: Tid)
    requires StartsWaiting(s, x) && BlockedWaitOnce(s) && JoinsAreSafe(s)
    ensures JoinsAreSafe(WaitFor(s, x))
  {
    hide Joins, Wants, AwaitedBy, Holds, OwnedBy, QueuedFor, Candidate, Is, MidCall, Joined, Exists, NoRepeats;
    RunningFacts(s);
    WaitRelates(s, x);
  }

  lemma WaitHolders(s: Sys, x: Tid)
    requires StartsWaiting(s, x) && BlockedWaitOnce(s) && JoinsAreSafe(s) && HoldersOwn(s)
    ensures HoldersOwn(WaitFor(s, x))
  {
    hide Joins, Wants, AwaitedBy, Holds, OwnedBy, QueuedFor, Candidate, Is, MidCall, Joined, Exists, NoRepeats;
    RunningFacts(s);
    WaitRelates(s, x);
  }

  lemma WaitCandidates(s: Sys, x: Tid)
    requires StartsWaiting(s, x) && BlockedWaitOnce(s) && JoinsAreSafe(s) && FreeMutexHasCandidate(s)
    ensures FreeMutexHasCandidate(WaitFor(s, x))
  {
    hide Joins, Wants, AwaitedBy, Holds, OwnedBy, QueuedFor, Candidate, Is, MidCall, Joined, Exists, NoRepeats;
    RunningFacts(s);
    WaitRelates(s, x);
  }

  // worker_mutex_lock on a free mutex

  lemma AcquireRelates(s: Sys, m: Mid)
    requires AtLock(s, m) && !s.mutexes[m].locked && HoldersOwn(s)
    ensures var s' := Acquire(s, m);
            && (forall t, y :: Joins(s', t, y) == Joins(s, t, y))
            && (forall t, y :: Wants(s', t, y) == (t != s.running && Wants(s, t, y)))
            && (forall y, t :: AwaitedBy(s', y, t) == AwaitedBy(s, y, t))
            && (forall t, y :: Holds(s', t, y) == (Holds(s, t, y) || (t == s.running && y == m)))
            && (forall m, t :: QueuedFor(s', m, t) == QueuedFor(s, m, t))
            && (forall y, t :: OwnedBy(s', y, t) == (OwnedBy(s, y, t) || (t == s.running && y == m)))
            && (forall t :: MidCall(s', t) == (t != s.running && MidCall(s, t)))
            && (forall t :: Joined(s', t) == Joined(s, t))
            && (forall t :: Exists(s', t) == Exists(s, t))
            && (forall t :: Is(s', t, Blocked) == Is(s, t, Blocked))
            && (forall t :: Is(s', t, Terminated) == Is(s, t, Terminated))
            && (forall t :: Is(s', t, Running) == Is(s, t, Running))
            && (forall t :: Is(s', t, Ready) == Is(s, t, Ready))
            && (forall t, y :: y != m ==> Candidate(s', t, y) == Candidate(s, t, y))
            && !Is(s, s.running, Blocked) && !Is(s, s.running, Terminated) && Exists(s, s.running)
            && s'.mutexes[m].locked
            && (forall y :: y in s.mutexes <==> y in s'.mutexes)
            && (forall y :: y in s.mutexes && y != m ==> s'.mutexes[y] == s.mutexes[y])
            && s'.mutexes[m] == Mutex(true, Some(s.running), s.mutexes[m].waitQueue) && s'.nextId == s.nextId
            && s'.tcbs.Keys == s.tcbs.Keys
  {
    assert forall t :: OwnedBy(s, m, t) ==> s.mutexes[m].locked;
  }

  lemma AcquireBlocked(s: Sys, m: Mid)
    requires AtLock(s, m) && !s.mutexes[m].locked && HoldersOwn(s) && BlockedWaitOnce(s)
    ensures BlockedWaitOnce(Acquire(s, m))
  {
    hide Joins, Wants, AwaitedBy, Holds, OwnedBy, QueuedFor, Candidate, Is, MidCall, Joined, Exists, NoRepeats;
    RunningFacts(s);
    AcquireRelates(s, m);
  }

  lemma AcquireJoins(s: Sys, m: Mid)
    requires AtLock(s, m) && !s.mutexes[m].locked && HoldersOwn(s) && JoinsAreSafe(s)
    ensures JoinsAreSafe(Acquire(s, m))
  {
    hide Joins, Wants, AwaitedBy, Holds, OwnedBy, QueuedFor, Candidate, Is, MidCall, Joined, Exists, NoRepeats;
    RunningFacts(s);
    AcquireRelates(s, m);
  }

  lemma AcquireHolders(s: Sys, m: Mid)
    requires AtLock(s, m) && !s.mutexes[m].locked && HoldersOwn(s)
    ensures HoldersOwn(Acquire(s, m))
  {
    hide Joins, Wants, AwaitedBy, Holds, OwnedBy, QueuedFor, Candidate, Is, MidCall, Joined, Exists, NoRepeats;
    RunningFacts(s);
    AcquireRelates(s, m);
  }

  lemma AcquireCandidates(s: Sys, m: Mid)
    requires AtLock(s, m) && !s.mutexes[m].locked && HoldersOwn(s) && FreeMutexHasCandidate(s)
    ensures FreeMutexHasCandidate(Acquire(s, m))
  {
    hide Joins, Wants, AwaitedBy, Holds, OwnedBy, QueuedFor, Candidate, Is, MidCall, Joined, Exists, NoRepeats;
    RunningFacts(s);
    AcquireRelates(s, m);
  }

  // worker_mutex_lock on a locked mutex

  lemma EnqueueRelates(s: Sys, m: Mid)
    requires AtLock(s, m) && s.mutexes[m].locked && BlockedWaitOnce(s)
    ensures var s' := WaitForMutex(s, m);
            && (forall t, y :: Joins(s', t, y) == Joins(s, t, y))
            && (forall t, y :: Wants(s', t, y) == (Wants(s, t, y) || (t == s.running && y == m)))
            && (forall y, t :: AwaitedBy(s', y, t) == AwaitedBy(s, y, t))
            && (forall t, y :: Holds(s', t, y) == Holds(s, t, y))
            && (forall y, t :: QueuedFor(s', y, t) == (QueuedFor(s, y, t) || (t == s.running && y == m)))
            && (forall m, t :: OwnedBy(s', m, t) == OwnedBy(s, m, t))
            && (forall t :: MidCall(s', t) == (MidCall(s, t) || t == s.running))
            && (forall t :: Joined(s', t) == Joined(s, t))
            && (forall t :: Exists(s', t) == Exists(s, t))
            && (forall t :: Is(s', t, Blocked) == (Is(s, t, Blocked) || t == s.running))
            && (forall t :: Is(s', t, Terminated) == Is(s, t, Terminated))
            && (forall t :: Is(s', t, Running) == (Is(s, t, Running) && t != s.running))
            && (forall t :: Is(s', t, Ready) == Is(s, t, Ready))
            && (forall t, y :: y != m ==> Candidate(s', t, y) == Candidate(s, t, y))
            && !Is(s, s.running, Terminated) && NoRepeats(s'.mutexes[m].waitQueue)
            && (forall y :: y in s.mutexes <==> y in s'.mutexes)
            && (forall y :: y in s.mutexes && y != m ==> s'.mutexes[y] == s.mutexes[y])
            && s'.mutexes[m].locked && s'.mutexes[m].owner == s.mutexes[m].owner && s'.nextId == s.nextId
            && s'.tcbs.Keys == s.tcbs.Keys
  {
    assert forall t :: QueuedFor(s, m, t) ==> Is(s, t, Blocked);
    assert !QueuedFor(s, m, s.running);
    AppendDistinct(s.mutexes[m].waitQueue, s.running);
  }

  lemma EnqueueBlocked(s: Sys, m: Mid)
    requires AtLock(s, m) && s.mutexes[m].locked && BlockedWaitOnce(s)
    ensures BlockedWaitOnce(WaitForMutex(s, m))
  {
    hide Joins, Wants, AwaitedBy, Holds, OwnedBy, QueuedFor, Candidate, Is, MidCall, Joined, Exists, NoRepeats;
    RunningFacts(s);
    EnqueueRelates(s, m);
  }

  lemma EnqueueJoins(s: Sys, m: Mid)
    requires AtLock(s, m) && s.mutexes[m].locked && BlockedWaitOnce(s) && JoinsAreSafe(s)
    ensures JoinsAreSafe(WaitForMutex(s, m))
  {
    hide Joins, Wants, AwaitedBy, Holds, OwnedBy, QueuedFor, Candidate, Is, MidCall, Joined, Exists, NoRepeats;
    RunningFacts(s);
    EnqueueRelates(s, m);
  }

  lemma EnqueueHolders(s: Sys, m: Mid)
    requires AtLock(s, m) && s.mutexes[m].locked && BlockedWaitOnce(s) && HoldersOwn(s)
    ensures HoldersOwn(WaitForMutex(s, m))
  {
    hide Joins, Wants, AwaitedBy, Holds, OwnedBy, QueuedFor, Candidate, Is, MidCall, Joined, Exists, NoRepeats;
    RunningFacts(s);
    EnqueueRelates(s, m);
  }

  lemma EnqueueCandidates(s: Sys, m: Mid)
    requires AtLock(s, m) && s.mutexes[m].locked && BlockedWaitOnce(s) && FreeMutexHasCandidate(s)
    ensures FreeMutexHasCandidate(WaitForMutex(s, m))
  {
    hide Joins, Wants, AwaitedBy, Holds, OwnedBy, QueuedFor, Candidate, Is, MidCall, Joined, Exists, NoRepeats;
    RunningFacts(s);
    EnqueueRelates(s, m);
  }

  // worker_mutex_unlock by the owner

  lemma ReleaseRelates(s: Sys, m: Mid)
    requires Is(s, s.running, Running) && OwnedBy(s, m, s.running) && QueueExists(s, m) && BlockedWaitOnce(s)
    ensures var s' := Release(s, m);
            && (forall t, y :: Joins(s', t, y) == Joins(s, t, y))
            && (forall t, y :: Wants(s', t, y) == Wants(s, t, y))
            && (forall y, t :: AwaitedBy(s', y, t) == AwaitedBy(s, y, t))
            && (forall t, y :: Holds(s', t, y) == (Holds(s, t, y) && !(t == s.running && y == m)))
            && (forall y, t :: QueuedFor(s', y, t) == (QueuedFor(s, y, t) && !Woken(s, m, t)))
            && (forall y, t :: OwnedBy(s', y, t) == (OwnedBy(s, y, t) && y != m))
            && (forall t :: MidCall(s', t) == MidCall(s, t))
            && (forall t :: Joined(s', t) == Joined(s, t))
            && (forall t :: Exists(s', t) == Exists(s, t))
            && (forall t :: Is(s', t, Blocked) == (Is(s, t, Blocked) && !Woken(s, m, t)))
            && (forall t :: Is(s', t, Terminated) == Is(s, t, Terminated))
            && (forall t :: Is(s', t, Running) == Is(s, t, Running))
            && (forall t :: Is(s', t, Ready) == (Is(s, t, Ready) || Woken(s, m, t)))
            && (forall t, y :: Candidate(s, t, y) ==> Candidate(s', t, y))
            && (forall t :: Woken(s, m, t) ==>
                  Is(s, t, Blocked) && Wants(s, t, m) && Candidate(s', t, m) && QueuedFor(s, m, t))
            && (s'.mutexes[m].waitQueue != [] ==> Woken(s, m, s.mutexes[m].waitQueue[0]))
            && NoRepeats(s'.mutexes[m].waitQueue)
            && (forall y :: y in s.mutexes <==> y in s'.mutexes)
            && (forall y :: y in s.mutexes && y != m ==> s'.mutexes[y] == s.mutexes[y])
            && m in s.mutexes && !s'.mutexes[m].locked && s'.mutexes[m].owner == None && s'.nextId == s.nextId
            && s'.tcbs.Keys == s.tcbs.Keys
  {
    ReleaseWaiters(s, m);
    ReleaseQueues(s, m);
    hide QueuedFor;
  }

  lemma ReleaseBlocked(s: Sys, m: Mid)
    requires Is(s, s.running, Running) && OwnedBy(s, m, s.running) && QueueExists(s, m) && BlockedWaitOnce(s)
    ensures BlockedWaitOnce(Release(s, m))
  {
    hide Joins, Wants, AwaitedBy, Holds, OwnedBy, QueuedFor, Candidate, Is, MidCall, Joined, Exists, NoRepeats;
    RunningFacts(s);
    OneCall(s);
    ReleaseRelates(s, m);
  }

  lemma ReleaseJoins(s: Sys, m: Mid)
    requires Is(s, s.running, Running) && OwnedBy(s, m, s.running) && QueueExists(s, m) && BlockedWaitOnce(s)
    requires JoinsAreSafe(s)
    ensures JoinsAreSafe(Release(s, m))
  {
    hide Joins, Wants, AwaitedBy, Holds, OwnedBy, QueuedFor, Candidate, Is, MidCall, Joined, Exists, NoRepeats;
    RunningFacts(s);
    OneCall(s);
    ReleaseRelates(s, m);
  }

  lemma ReleaseHolders(s: Sys, m: Mid)
    requires Is(s, s.running, Running) && OwnedBy(s, m, s.running) && QueueExists(s, m) && BlockedWaitOnce(s)
    requires HoldersOwn(s)
    ensures HoldersOwn(Release(s, m))
  {
    hide Joins, Wants, AwaitedBy, Holds, OwnedBy, QueuedFor, Candidate, Is, MidCall, Joined, Exists, NoRepeats;
    RunningFacts(s);
    OneCall(s);
    ReleaseRelates(s, m);
  }

  lemma ReleaseCandidates(s: Sys, m: Mid)
    requires Is(s, s.running, Running) && OwnedBy(s, m, s.running) && QueueExists(s, m) && BlockedWaitOnce(s)
    requires FreeMutexHasCandidate(s)
    ensures FreeMutexHasCandidate(Release(s, m))
  {
    hide Joins, Wants, AwaitedBy, Holds, OwnedBy, QueuedFor, Candidate, Is, MidCall, Joined, Exists, NoRepeats;
    RunningFacts(s);
    OneCall(s);
    ReleaseRelates(s, m);
  }

  // ----- every step of every run -----

  // No pointer dangles.
  ghost predicate Known(s: Sys) {
    && (forall t :: t in s.runQueue ==> t in s.tcbs)
    && WaiterExists(s)
    && (forall m :: m in s.mutexes ==> QueueExists(s, m))
  }

  // What the running thread may do: a thread that comes back in the middle of a call first
  // finishes it. Thread creation keeps the number of threads, main included, within MAX_THREADS.
  predicate Enabled(s: Sys, action: Action) {
    && Exists(s, s.running)
    && match action
       case Preempt => true
       case Continue => MidCall(s, s.running)
       case Create => !MidCall(s, s.running) && |s.tcbs| < MAX_THREADS
       case Lock(m) => !MidCall(s, s.running) && m in s.mutexes
       case Unlock(m) => !MidCall(s, s.running) && m in s.mutexes
       case _ => !MidCall(s, s.running)
  }

  // The state after the action, None when it leaves no thread to dispatch.
  ghost function Act(policy: Policy, s: Sys, action: Action): (r: Option<Sys>)
    requires Known(s) && Enabled(s, action)
  {
    match action
    case Create => Some(CreateThread(s))
    case Yield => Schedule(policy, SetState(s, s.running, Ready))
    case Preempt => Schedule(policy, s)
    case Exit => Schedule(policy, Terminate(s))
    case Join(x) =>
      if !Joinable(s, x) then Some(s)
      else if Is(s, x, Terminated) then Some(Cleanup(s, x))
      else Schedule(policy, WaitFor(s, x))
    case Lock(m) => LockMutex(policy, s, m)
    case Unlock(m) => if OwnedBy(s, m, s.running) then Some(Release(s, m)) else Some(s)
    case Continue =>
      match s.tcbs[s.running].resume
      case AfterJoin(x) => Some(Cleanup(s, x))
      case RetryLock(m) => if m in s.mutexes then LockMutex(policy, s, m) else Some(s)
      case Nothing => Some(s)
  }

  lemma InvKnown(s: Sys)
    requires Inv(s)
    ensures Known(s) && Is(s, s.running, Running)
  {
    hide JoinsAreSafe, HoldersOwn, FreeMutexHasCandidate;
    assert Is(s, s.running, Running);
    ExitWaiter(s);
    forall t | t in s.runQueue
      ensures t in s.tcbs
    {
      assert Is(s, t, Ready);
    }
    forall m | m in s.mutexes
      ensures QueueExists(s, m)
    {
      ReleaseWaiters(s, m);
    }
  }

  lemma KeysSize(s: Sys, s': Sys)
    requires s'.tcbs.Keys == s.tcbs.Keys
    ensures |s'.tcbs| == |s.tcbs|
  {
    assert |s'.tcbs| == |s'.tcbs.Keys| && |s.tcbs| == |s.tcbs.Keys|;
  }

  lemma CreateInv(s: Sys)
    requires Inv(s) && |s.tcbs| < MAX_THREADS
    ensures Inv(CreateThread(s))
  {
    hide Joins, Wants, AwaitedBy, Holds, OwnedBy, QueuedFor, Candidate, Is, MidCall, Joined, Exists, BlockedWaitOnce,
      JoinsAreSafe,
         FreeMutexHasCandidate;
    CreateRelates(s);
    CreateBlocked(s);
    CreateJoins(s);
    CreateHolders(s);
    CreateCandidates(s);
    assert s.nextId !in s.runQueue by {
      NewIsNotReady(s);
    }
    AppendDistinct(s.runQueue, s.nextId);
  }

  lemma NewIsNotReady(s: Sys)
    requires HoldersOwn(s)
    ensures !Exists(s, s.nextId) && !Is(s, s.nextId, Ready) && !Is(s, s.nextId, Running)
  {
  }

  lemma ExitSwitches(s: Sys)
    requires Inv(s) && Known(s) && !MidCall(s, s.running)
    ensures Switching(Terminate(s))
  {
    hide Joins, Wants, AwaitedBy, Holds, OwnedBy, QueuedFor, Candidate, MidCall, Joined, Exists, BlockedWaitOnce,
      JoinsAreSafe,
         HoldersOwn, FreeMutexHasCandidate, Is;
    RunningFacts(s);
    ExitWaiter(s);
    ExitRelates(s);
    ExitBlocked(s);
    ExitJoins(s);
    ExitHolders(s);
    ExitCandidates(s);
    KeysSize(s, Terminate(s));
    var w := s.tcbs[s.running].waiter;
    if w.Some? {
      BlockedNotReady(s, w.value);
      AppendDistinct(s.runQueue, w.value);
      OneWaiter(s, w.value);
    } else {
      NoWaiter(s);
    }
  }

  lemma BlockedNotReady(s: Sys, t: Tid)
    requires Is(s, t, Blocked)
    ensures !Is(s, t, Ready) && !Is(s, t, Running)
  {
  }

  lemma OneWaiter(s: Sys, w: Tid)
    requires s.running in s.tcbs && s.tcbs[s.running].waiter == Some(w)
    ensures forall t :: AwaitedBy(s, s.running, t) <==> t == w
  {
  }

  lemma NoWaiter(s: Sys)
    requires s.running in s.tcbs && s.tcbs[s.running].waiter == None
    ensures forall t :: !AwaitedBy(s, s.running, t)
  {
  }

  lemma CleanupInv(s: Sys, x: Tid)
    requires Inv(s) && CleansUp(s, x)
    ensures Inv(Cleanup(s, x))
  {
    hide Joins, Wants, AwaitedBy, Holds, OwnedBy, QueuedFor, Candidate, MidCall, Joined, Exists, BlockedWaitOnce,
      JoinsAreSafe,
         HoldersOwn, FreeMutexHasCandidate, Is;
    CleanupRelates(s, x);
    CleanupBlocked(s, x);
    CleanupJoins(s, x);
    CleanupHolders(s, x);
    CleanupCandidates(s, x);
  }

  lemma WaitSwitches(s: Sys, x: Tid)
    requires Inv(s) && StartsWaiting(s, x)
    ensures Switching(WaitFor(s, x))
  {
    hide Joins, Wants, AwaitedBy, Holds, OwnedBy, QueuedFor, Candidate, MidCall, Joined, Exists, BlockedWaitOnce,
      JoinsAreSafe,
         HoldersOwn, FreeMutexHasCandidate, Is;
    RunningFacts(s);
    WaitRelates(s, x);
    WaitBlocked(s, x);
    WaitJoins(s, x);
    WaitHolders(s, x);
    WaitCandidates(s, x);
    KeysSize(s, WaitFor(s, x));
  }

  lemma AcquireInv(s: Sys, m: Mid)
    requires Inv(s) && AtLock(s, m) && !s.mutexes[m].locked
    ensures Inv(Acquire(s, m))
  {
    hide Joins, Wants, AwaitedBy, Holds, OwnedBy, QueuedFor, Candidate, MidCall, Joined, Exists, BlockedWaitOnce,
      JoinsAreSafe,
         HoldersOwn, FreeMutexHasCandidate, Is;
    AcquireRelates(s, m);
    AcquireBlocked(s, m);
    AcquireJoins(s, m);
    AcquireHolders(s, m);
    AcquireCandidates(s, m);
    KeysSize(s, Acquire(s, m));
  }

  lemma EnqueueSwitches(s: Sys, m: Mid)
    requires Inv(s) && AtLock(s, m) && s.mutexes[m].locked
    ensures Switching(WaitForMutex(s, m))
  {
    hide Joins, Wants, AwaitedBy, Holds, OwnedBy, QueuedFor, Candidate, MidCall, Joined, Exists, BlockedWaitOnce,
      JoinsAreSafe,
         HoldersOwn, FreeMutexHasCandidate, Is;
    RunningFacts(s);
    EnqueueRelates(s, m);
    EnqueueBlocked(s, m);
    EnqueueJoins(s, m);
    EnqueueHolders(s, m);
    EnqueueCandidates(s, m);
    KeysSize(s, WaitForMutex(s, m));
  }

  lemma ReleaseInv(s: Sys, m: Mid)
    requires Inv(s) && Known(s) && OwnedBy(s, m, s.running) && m in s.mutexes
    ensures Inv(Release(s, m))
  {
    hide Joins, Wants, AwaitedBy, Holds, OwnedBy, QueuedFor, Candidate, MidCall, Joined, Exists, BlockedWaitOnce,
      JoinsAreSafe,
         HoldersOwn, FreeMutexHasCandidate, Is;
    ReleaseRelates(s, m);
    ReleaseBlocked(s, m);
    ReleaseJoins(s, m);
    ReleaseHolders(s, m);
    ReleaseCandidates(s, m);
    KeysSize(s, Release(s, m));
    if s.mutexes[m].waitQueue != [] {
      var w := s.mutexes[m].waitQueue[0];
      assert Woken(s, m, w);
      BlockedNotReady(s, w);
      AppendDistinct(s.runQueue, w);
    }
  }

  lemma LockInv(policy: Policy, s: Sys, m: Mid)
    requires Inv(s) && Known(s) && AtLock(s, m)
    ensures LockMutex(policy, s, m).Some? ==> Inv(LockMutex(policy, s, m).value)
  {
    hide Inv, Switching, Acquire, Schedule, WaitForMutex;
    if !s.mutexes[m].locked {
      AcquireInv(s, m);
    } else {
      EnqueueSwitches(s, m);
      ScheduleInv(policy, WaitForMutex(s, m));
    }
  }

  lemma JoinInv(policy: Policy, s: Sys, x: Tid)
    requires Inv(s) && Known(s) && Enabled(s, Join(x))
    ensures Act(policy, s, Join(x)).Some? ==> Inv(Act(policy, s, Join(x)).value)
  {
    RunningFacts(s) by { InvKnown(s); }
    if Joinable(s, x) {
      if Is(s, x, Terminated) {
        JoinTarget(s, x);
        CleanupInv(s, x);
      } else {
        hide Switching;
        WaitSwitches(s, x) by { InvKnown(s); }
        ScheduleInv(policy, WaitFor(s, x));
      }
    }
  }

  lemma JoinTarget(s: Sys, x: Tid)
    requires Inv(s) && Is(s, s.running, Running) && !MidCall(s, s.running) && Joinable(s, x) && Is(s, x, Terminated)
    ensures CleansUp(s, x)
  {
    hide BlockedWaitOnce, HoldersOwn, FreeMutexHasCandidate;
    forall t
      ensures !Joins(s, t, x)
    {
      assert Joins(s, t, x) ==> Joined(s, x);
    }
  }

  lemma ContinueInv(policy: Policy, s: Sys)
    requires Inv(s) && Known(s) && Enabled(s, Continue)
    ensures Act(policy, s, Continue).Some? ==> Inv(Act(policy, s, Continue).value)
  {
    InvKnown(s);
    var resume := s.tcbs[s.running].resume;
    match resume {
      case AfterJoin(x) =>
        ReturnTarget(s, x);
        CleanupInv(s, x);
      case RetryLock(m) =>
        assert Wants(s, s.running, m);
        LockInv(policy, s, m);
      case Nothing =>
    }
  }

  // A joiner that runs again finds its target terminated, and is the only one to join it.
  lemma ReturnTarget(s: Sys, x: Tid)
    requires Inv(s) && Is(s, s.running, Running) && Joins(s, s.running, x)
    ensures CleansUp(s, x)
  {
    hide BlockedWaitOnce, HoldersOwn, FreeMutexHasCandidate;
    OneCall(s);
  }

  // Every action of the running thread, under either policy, leads to a proper state again.
  lemma ActInv(policy: Policy, s: Sys, action: Action)
    requires Inv(s) && Enabled(s, action)
    ensures Known(s)
    ensures Act(policy, s, action).Some? ==> Inv(Act(policy, s, action).value)
  {
    InvKnown(s);
    match action {
      case Create => CreateInv(s);
      case Yield =>
        YieldSwitches(s);
        ScheduleInv(policy, SetState(s, s.running, Ready));
      case Preempt =>
        InvSwitches(s);
        ScheduleInv(policy, s);
      case Exit =>
        ExitSwitches(s);
        ScheduleInv(policy, Terminate(s));
      case Join(x) => JoinInv(policy, s, x);
      case Lock(m) =>
        RunningFacts(s);
        LockInv(policy, s, m);
      case Unlock(m) =>
        if OwnedBy(s, m, s.running) {
          ReleaseInv(s, m);
        }
      case Continue => ContinueInv(policy, s);
    }
  }
}
