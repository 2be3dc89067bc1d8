// What the thread library keeps in every state of every run, said thread by thread.
module ThreadRuns {
  import opened Wrappers
  import opened Counting
  import opened ThreadHeap
  import opened ThreadLibrary

  // init_main_thread: only the main thread, running, and free mutexes nobody waits for.
  ghost predicate Initial(s: Sys) {
    && s.running == 0 && s.nextId == 1 && s.runQueue == []
    && s.tcbs == map[0 := Tcb(Running, 0, None, false, Nothing, {})]
    && forall m :: m in s.mutexes ==> s.mutexes[m] == Mutex(false, None, [])
  }

  lemma InitialInv(s: Sys)
    requires Initial(s)
    ensures Inv(s)
  {
    assert forall t :: Is(s, t, Running) <==> t == 0;
    assert forall m, t :: !QueuedFor(s, m, t) && !OwnedBy(s, m, t);
    assert forall t, x :: !Joins(s, t, x) && !Wants(s, t, x) && !AwaitedBy(s, t, x) && !Holds(s, t, x);
  }

  ghost predicate IsRun(policy: Policy, states: seq<Sys>, actions: seq<Action>) {
    && |states| == |actions| + 1
    && Initial(states[0])
    && forall i :: 0 <= i < |actions| ==> Follows(policy, states[i], actions[i], states[i + 1])
  }

  ghost predicate Follows(policy: Policy, s: Sys, action: Action, s': Sys) {
    Known(s) && Enabled(s, action) && Act(policy, s, action) == Some(s')
  }

  lemma {:induction false} RunInv(policy: Policy, states: seq<Sys>, actions: seq<Action>)
    requires IsRun(policy, states, actions)
    ensures forall i :: 0 <= i < |states| ==> Inv(states[i])
    decreases |actions|
  {
    hide Inv, Known, Enabled, Act, Initial;
    if |actions| == 0 {
      InitialInv(states[0]);
    } else {
      var n := |actions| - 1;
      RunInv(policy, states[..n + 1], actions[..n]);
      assert states[..n + 1][n] == states[n];
      assert Follows(policy, states[n], actions[n], states[n + 1]);
      ActInv(policy, states[n], actions[n]);
      forall i | 0 <= i < |states|
        ensures Inv(states[i])
      {
        if i <= n {
          assert states[..n + 1][i] == states[i];
        }
      }
    }
  }

  // The ways a thread can be waiting for something.
  ghost predicate InWaitQueue(s: Sys, t: Tid) {
    exists m :: QueuedFor(s, m, t)
  }

  ghost predicate IsWaiter(s: Sys, t: Tid) {
    exists x :: AwaitedBy(s, x, t)
  }

  // Each thread is in exactly one place: on the processor, once in the run structure, once in the
  // wait queue of one mutex, in the waiter field of one thread, or, terminated, in none of these.
  ghost predicate InOnePlace(s: Sys, t: Tid) {
    && NoRepeats(s.runQueue)
    && (Is(s, t, Running) ==> t == s.running && t !in s.runQueue && !InWaitQueue(s, t) && !IsWaiter(s, t))
    && (Is(s, t, Ready) ==> t != s.running && t in s.runQueue && !InWaitQueue(s, t) && !IsWaiter(s, t))
    && (Is(s, t, Terminated) ==> t != s.running && t !in s.runQueue && !InWaitQueue(s, t) && !IsWaiter(s, t))
    && (Is(s, t, Blocked) ==>
          && t != s.running && t !in s.runQueue && (InWaitQueue(s, t) <==> !IsWaiter(s, t))
          && (forall m, m' :: QueuedFor(s, m, t) && QueuedFor(s, m', t) ==> m == m')
          && (forall m :: m in s.mutexes ==> NoRepeats(s.mutexes[m].waitQueue))
          && (forall x, x' :: AwaitedBy(s, x, t) && AwaitedBy(s, x', t) ==> x == x'))
  }

  lemma EachThreadInOnePlace(policy: Policy, states: seq<Sys>, actions: seq<Action>, i: nat, t: Tid)
    requires IsRun(policy, states, actions) && i < |states| && Exists(states[i], t)
    ensures InOnePlace(states[i], t)
  {
    hide Initial, Follows;
    RunInv(policy, states, actions);
    InvInOnePlace(states[i], t);
  }

  lemma InvInOnePlace(s: Sys, t: Tid)
    requires Inv(s)
    ensures InOnePlace(s, t)
  {
    hide JoinsAreSafe, HoldersOwn, FreeMutexHasCandidate;
    OneCall(s);
    if Is(s, t, Blocked) {
      assert MidCall(s, t);
      match s.tcbs[t].resume {
        case RetryLock(m) => assert Wants(s, t, m);
        case AfterJoin(x) => assert Joins(s, t, x);
        case Nothing =>
      }
    }
  }

  // At most one thread is inside a mutex, and the lock shows it.
  lemma MutualExclusion(policy: Policy, states: seq<Sys>, actions: seq<Action>, i: nat, m: Mid, t: Tid, u: Tid)
    requires IsRun(policy, states, actions) && i < |states| && Holds(states[i], t, m)
    ensures m in states[i].mutexes && states[i].mutexes[m].locked
    ensures Holds(states[i], u, m) ==> t == u
  {
    hide Initial, Follows;
    RunInv(policy, states, actions);
    var s := states[i];
    OneCall(s);
    assert OwnedBy(s, m, t);
    assert Holds(s, u, m) ==> OwnedBy(s, m, u);
  }

  // No wake-up is lost: while threads wait for a free mutex, one of them has been woken to retry.
  lemma NoLostWakeup(policy: Policy, states: seq<Sys>, actions: seq<Action>, i: nat, m: Mid)
    requires IsRun(policy, states, actions) && i < |states| && m in states[i].mutexes
    requires states[i].mutexes[m].waitQueue != []
    ensures states[i].mutexes[m].locked || exists t :: Candidate(states[i], t, m)
  {
    hide Initial, Follows, JoinsAreSafe, HoldersOwn, BlockedWaitOnce;
    RunInv(policy, states, actions);
  }

  // Thread t is named by no queue, no waiter field, no pending join and is not running.
  ghost predicate Unreferenced(s: Sys, t: Tid) {
    t != s.running && t !in s.runQueue && !InWaitQueue(s, t) && !IsWaiter(s, t) && forall u :: !Joins(s, u, t)
  }

  // worker_join frees only terminated threads. No queue, waiter field or pending join refers to
  // them any more; a mutex does exactly when the thread still held it.
  lemma FreedIsUnreferenced(policy: Policy, s: Sys, action: Action, s': Sys, x: Tid)
    requires Inv(s) && Follows(policy, s, action, s') && Exists(s, x) && !Exists(s', x)
    ensures (action.Join? || action.Continue?) && Is(s, x, Terminated) && Unreferenced(s', x)
    ensures forall m :: OwnedBy(s', m, x) <==> Holds(s, x, m)
  {
    InvKnown(s);
    ActInv(policy, s, action);
    OnlyCleanupFrees(policy, s, action, s', x);
    GoneIsUnreferenced(s', x);
    OwnersHold(s, x);
    assert forall m :: OwnedBy(s', m, x) == OwnedBy(s, m, x);
  }

  lemma OwnersHold(s: Sys, x: Tid)
    requires Inv(s) && Exists(s, x)
    ensures forall m :: OwnedBy(s, m, x) <==> Holds(s, x, m)
  {
    hide BlockedWaitOnce, JoinsAreSafe, FreeMutexHasCandidate;
  }

  // Main creates thread 1 and joins it; thread 1 locks mutex 0 and exits; main goes on.
  function HoldAndExit(step: nat): Sys {
    var main := Tcb(Running, 0, None, false, Nothing, {});
    var waiting := Tcb(Blocked, 0, None, false, AfterJoin(1), {});
    var joined := Tcb(Running, 0, Some(0), true, Nothing, {});
    var free, held := Mutex(false, None, []), Mutex(true, Some(1), []);
    match step
    case 0 => Sys(0, map[0 := main], [], map[0 := free], 1)
    case 1 => Sys(0, map[0 := main, 1 := Tcb(Ready, 0, None, false, Nothing, {})], [1], map[0 := free], 2)
    case 2 => Sys(1, map[0 := waiting, 1 := joined], [], map[0 := free], 2)
    case 3 => Sys(1, map[0 := waiting, 1 := joined.(holds := {0})], [], map[0 := held], 2)
    case 4 =>
      var gone := joined.(state := Terminated, waiter := None, holds := {0});
      Sys(0, map[0 := waiting.(state := Running), 1 := gone], [], map[0 := held], 2)
    case _ => Sys(0, map[0 := main], [], map[0 := held], 2)
  }

  lemma HoldAndExitCreates()
    ensures Follows(RoundRobin, HoldAndExit(0), Create, HoldAndExit(1))
  {
    assert CreateThread(HoldAndExit(0)) == HoldAndExit(1);
  }

  lemma HoldAndExitJoins()
    ensures Follows(RoundRobin, HoldAndExit(1), Join(1), HoldAndExit(2))
  {
    var w := WaitFor(HoldAndExit(1), 1);
    OnlyOneReady(w, 1);
    assert w.tcbs[1 := w.tcbs[1].(state := Running)] == HoldAndExit(2).tcbs;
  }

  lemma HoldAndExitLocks()
    ensures Follows(RoundRobin, HoldAndExit(2), Lock(0), HoldAndExit(3))
  {
    var s, s' := HoldAndExit(2), HoldAndExit(3);
    assert s.tcbs[1].holds + {0} == {0};
    assert Acquire(s, 0).tcbs == s'.tcbs && Acquire(s, 0).mutexes == s'.mutexes;
  }

  lemma HoldAndExitExits()
    ensures Follows(RoundRobin, HoldAndExit(3), Exit, HoldAndExit(4))
  {
    var w := Terminate(HoldAndExit(3));
    assert w.runQueue == [0];
    OnlyOneReady(w, 0);
    assert w.tcbs[0 := w.tcbs[0].(state := Running)] == HoldAndExit(4).tcbs;
  }

  lemma HoldAndExitCleansUp()
    ensures Follows(RoundRobin, HoldAndExit(4), Continue, HoldAndExit(5))
  {
    assert Cleanup(HoldAndExit(4), 1).tcbs == HoldAndExit(5).tcbs;
  }

  lemma HoldAndExitEnds()
    ensures Initial(HoldAndExit(0))
    ensures Exists(HoldAndExit(4), 1) && !Exists(HoldAndExit(5), 1) && OwnedBy(HoldAndExit(5), 0, 1)
  {
  }

  // A thread can exit while it holds a mutex; once it is joined and freed the mutex still names it.
  lemma FreedOwnerHappens() returns (states: seq<Sys>, actions: seq<Action>)
    ensures IsRun(RoundRobin, states, actions) && |actions| == 5
    ensures Exists(states[4], 1) && !Exists(states[5], 1) && OwnedBy(states[5], 0, 1)
  {
    hide HoldAndExit, Follows, Initial, Exists, OwnedBy;
    HoldAndExitEnds();
    HoldAndExitCreates();
    HoldAndExitJoins();
    HoldAndExitLocks();
    HoldAndExitExits();
    HoldAndExitCleansUp();
    states := seq(6, i requires 0 <= i < 6 => HoldAndExit(i));
    actions := [Create, Join(1), Lock(0), Exit, Continue];
    forall i | 0 <= i < 5
      ensures Follows(RoundRobin, states[i], actions[i], states[i + 1])
    {
      assert i == 0 || i == 1 || i == 2 || i == 3 || i == 4;
    }
  }

  lemma OnlyOneReady(s: Sys, t: Tid)
    requires s.running in s.tcbs && !IsRunnable(s.tcbs[s.running].state) && s.runQueue == [t] && t in s.tcbs
    ensures Schedule(RoundRobin, s) ==
              Some(s.(running := t, tcbs := s.tcbs[t := s.tcbs[t].(state := Running)], runQueue := []))
  {
    assert s.runQueue[..0] + s.runQueue[0 + 1..] == [];
  }

  lemma GoneIsUnreferenced(s: Sys, x: Tid)
    requires Inv(s) && !Exists(s, x)
    ensures Unreferenced(s, x)
  {
    hide HoldersOwn, FreeMutexHasCandidate;
    assert !Is(s, x, Blocked) && !Is(s, x, Ready) && !Is(s, x, Running);
    forall u
      ensures !Joins(s, u, x)
    {
      assert Joins(s, u, x) ==> Joined(s, x);
    }
  }

  lemma ScheduleFreesNone(policy: Policy, s: Sys)
    requires Exists(s, s.running) && forall t :: t in s.runQueue ==> t in s.tcbs
    ensures Schedule(policy, s).Some? ==> Schedule(policy, s).value.tcbs.Keys == s.tcbs.Keys
  {
    hide LeastOf;
  }

  lemma OnlyCleanupFrees(policy: Policy, s: Sys, action: Action, s': Sys, x: Tid)
    requires Inv(s) && Is(s, s.running, Running) && Follows(policy, s, action, s') && Exists(s, x) && !Exists(s', x)
    ensures (action.Join? || action.Continue?) && Is(s, x, Terminated) && s'.mutexes == s.mutexes
  {
    hide Inv, Schedule;
    match action {
      case Yield => ScheduleFreesNone(policy, SetState(s, s.running, Ready));
      case Preempt => ScheduleFreesNone(policy, s);
      case Exit => ScheduleFreesNone(policy, Terminate(s));
      case Join(y) =>
        if Joinable(s, y) && !Is(s, y, Terminated) {
          ScheduleFreesNone(policy, WaitFor(s, y));
        }
      case Lock(m) =>
        if s.mutexes[m].locked {
          ScheduleFreesNone(policy, WaitForMutex(s, m));
        }
      case Continue =>
        match s.tcbs[s.running].resume {
          case AfterJoin(y) =>
            assert Joins(s, s.running, y);
            ReturnTarget(s, y);
          case RetryLock(m) =>
            if m in s.mutexes && s.mutexes[m].locked {
              ScheduleFreesNone(policy, WaitForMutex(s, m));
            }
          case Nothing =>
        }
      case _ =>
    }
  }

  // In every state of every run the run structure has room for one more: a step pushes at most one
  // thread before it takes one out, so the array of MAX_THREADS slots never overflows as long as
  // there are at most that many threads, main included.
  lemma RunStructureFits(policy: Policy, states: seq<Sys>, actions: seq<Action>, i: nat)
    requires IsRun(policy, states, actions) && i < |states|
    ensures |states[i].runQueue| < MAX_THREADS
  {
    hide Initial, Follows, Inv;
    RunInv(policy, states, actions);
    InvFits(states[i]);
  }

  lemma InvFits(s: Sys)
    requires Inv(s)
    ensures |s.runQueue| < MAX_THREADS
  {
    hide BlockedWaitOnce, JoinsAreSafe, HoldersOwn, FreeMutexHasCandidate;
    assert Is(s, s.running, Running);
    forall i | 0 <= i < |s.runQueue|
      ensures s.runQueue[i] in s.tcbs.Keys - {s.running}
    {
      assert s.runQueue[i] in s.runQueue;
      assert Is(s, s.runQueue[i], Ready);
    }
    DistinctWithin(s.runQueue, s.tcbs.Keys - {s.running});
    assert |s.tcbs| == |s.tcbs.Keys|;
  }
}
