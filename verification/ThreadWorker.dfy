// thread-worker.c with its variables updated in place: the running thread, the control blocks,
// the run structure and the mutexes. Each call is shown to take the step of the state machine.
module ThreadWorker {
  import opened Wrappers
  import opened ThreadHeap
  import opened ThreadLibrary
  import opened ThreadRuns
  import opened ThreadRunStructure

  // The threads of q, each with its quanta.
  ghost predicate FiledUnder(tcbs: map<Tid, Tcb>, q: seq<Tid>, filed: seq<Thread>) {
    && |filed| == |q|
    && forall i :: 0 <= i < |q| ==> q[i] in tcbs && filed[i] == Thread(q[i], tcbs[q[i]].quanta)
  }

  lemma FiledExist(tcbs: map<Tid, Tcb>, q: seq<Tid>, filed: seq<Thread>)
    requires FiledUnder(tcbs, q, filed)
    ensures |filed| == |q| && forall t :: t in q ==> t in tcbs
  {
  }

  // Only the quanta of the threads of q matter.
  lemma FiledKept(tcbs: map<Tid, Tcb>, tcbs': map<Tid, Tcb>, q: seq<Tid>, filed: seq<Thread>)
    requires FiledUnder(tcbs, q, filed)
    requires forall t :: t in q && t in tcbs ==> t in tcbs' && tcbs'[t].quanta == tcbs[t].quanta
    ensures FiledUnder(tcbs', q, filed)
  {
    forall i | 0 <= i < |q|
      ensures q[i] in tcbs' && filed[i] == Thread(q[i], tcbs'[q[i]].quanta)
    {
      assert q[i] in q;
    }
  }

  lemma FiledMore(tcbs: map<Tid, Tcb>, q: seq<Tid>, filed: seq<Thread>, t: Tid)
    requires FiledUnder(tcbs, q, filed) && t in tcbs
    ensures FiledUnder(tcbs, q + [t], filed + [Thread(t, tcbs[t].quanta)])
  {
  }

  lemma FiledLess(tcbs: map<Tid, Tcb>, q: seq<Tid>, filed: seq<Thread>, k: nat)
    requires FiledUnder(tcbs, q, filed) && k < |q|
    ensures FiledUnder(tcbs, Without(q, k), Without(filed, k))
    ensures q[k] in tcbs && filed[k].id == q[k]
  {
  }

  // The machine's choice is the thread the run structure hands out.
  lemma ChoiceIsNext(policy: Policy, s: Sys, filed: seq<Thread>)
    requires s.runQueue != [] && FiledUnder(s.tcbs, s.runQueue, filed)
    ensures (forall t :: t in s.runQueue ==> t in s.tcbs) && IsNext(policy, filed, Choice(policy, s))
  {
    hide LeastOf;
    assert forall i :: 0 <= i < |filed| ==> s.runQueue[i] in s.tcbs;
    var k := Choice(policy, s);
    if policy == ShortestJobFirst {
      forall i | 0 <= i < |filed|
        ensures !Before(filed[i], filed[k])
      {
        assert !RunsBefore(s, s.runQueue[i], s.runQueue[k]);
      }
    }
  }

  lemma QueuedAreOthers(s: Sys)
    requires Inv(s)
    ensures s.running in s.tcbs && forall t :: t in s.runQueue ==> t in s.tcbs && t != s.running && t < s.nextId
  {
    hide BlockedWaitOnce, JoinsAreSafe, FreeMutexHasCandidate;
    assert Is(s, s.running, Running);
    forall t | t in s.runQueue
      ensures t in s.tcbs && t != s.running && t < s.nextId
    {
      assert Is(s, t, Ready) && Exists(s, t);
    }
  }

  lemma BeforeStep(policy: Policy, s: Sys, action: Action)
    requires Inv(s) && Enabled(s, action)
    ensures Known(s) && (Act(policy, s, action).Some? ==> Inv(Act(policy, s, action).value))
    ensures |s.runQueue| < MAX_THREADS && s.running in s.tcbs && s.running !in s.runQueue && s.nextId !in s.runQueue
  {
    hide Inv;
    InvFits(s);
    ActInv(policy, s, action);
    QueuedAreOthers(s);
  }

  lemma TerminatedNotQueued(s: Sys, x: Tid)
    requires Inv(s) && Is(s, x, Terminated)
    ensures x !in s.runQueue
  {
    hide Rest;
    assert !Is(s, x, Ready);
  }

  // The target of a join that comes back from its context switch.
  lemma JoinedNotQueued(s: Sys, x: Tid)
    requires Inv(s) && s.running in s.tcbs && s.tcbs[s.running].resume == AfterJoin(x)
    ensures x !in s.runQueue
  {
    hide Rest;
    assert Is(s, s.running, Running) && Joins(s, s.running, x);
    ReturnTarget(s, x);
    TerminatedNotQueued(s, x);
  }

  class Scheduler {
    const policy: Policy
    var runningTcb: Tid
    var tcbs: map<Tid, Tcb>
    const run: RunStructure
    ghost var runQueue: seq<Tid>  // the threads in the run structure, in the machine's order
    var mutexes: map<Mid, Mutex>
    var nextThreadId: Tid

    ghost function State(): Sys
      reads this
    {
      Sys(runningTcb, tcbs, runQueue, mutexes, nextThreadId)
    }

    // The run structure holds the threads of runQueue, each filed under the quanta it has.
    ghost predicate Linked()
      reads this, run, run.rrQueue, run.rrQueue.nodes, run.psjfHeap, run.psjfHeap.threads
    {
      run.Valid() && run.policy == policy && FiledUnder(tcbs, runQueue, run.filed)
    }

    // The thread can be filed: psjf_cmp is an order of its key.
    ghost predicate KeyFits(t: Tid)
      reads this
    {
      policy == ShortestJobFirst ==> t in tcbs && t < 0x8000_0000 && 0 <= tcbs[t].quanta < 0x8000_0000
    }

    // No thread is about to leave the range in which psjf_cmp is an order.
    ghost predicate KeysFit()
      reads this
    {
      policy == ShortestJobFirst ==>
        nextThreadId < 0x8000_0000 && forall t :: t in tcbs ==> t < 0x8000_0000 && 0 <= tcbs[t].quanta < 0x7FFF_FFFF
    }

    // init_main_thread, with the mutexes that worker_mutex_init has set up
    constructor (policy: Policy, mutexIds: set<Mid>)
      ensures Initial(State()) && ThreadLibrary.Inv(State()) && Linked() && KeysFit()
      ensures mutexes.Keys == mutexIds && this.policy == policy && fresh(run.Footprint())
    {
      this.policy := policy;
      runningTcb := 0;
      tcbs := map[0 := Tcb(Running, 0, None, false, Nothing, {})];
      run := new RunStructure(policy);
      runQueue := [];
      mutexes := map m | m in mutexIds :: Mutex(false, None, []);
      nextThreadId := 1;
      new;
      InitialInv(State());
    }

    // ----- scheduling -----

    // add_to_scheduler, which the run structure has room for
    method AddToScheduler(t: Tid)
      requires Linked() && t in tcbs && KeyFits(t) && |runQueue| < MAX_THREADS
      modifies this`runQueue, run.Footprint()
      ensures Linked() && runQueue == old(runQueue) + [t] && fresh(run.Footprint() - old(run.Footprint()))
    {
      hide FiledUnder, RunStructure.Valid;
      FiledExist(tcbs, runQueue, run.filed);
      FiledMore(tcbs, runQueue, run.filed, t);
      run.Add(Thread(t, tcbs[t].quanta));
      runQueue := runQueue + [t];
    }

    // A control block changes; a queued thread keeps its quanta.
    method SetTcb(t: Tid, tcb: Tcb)
      requires Linked() && (t in runQueue && t in tcbs ==> tcb.quanta == tcbs[t].quanta)
      modifies this`tcbs
      ensures Linked() && tcbs == old(tcbs)[t := tcb]
    {
      hide FiledUnder, RunStructure.Valid;
      FiledKept(tcbs, tcbs[t := tcb], runQueue, run.filed);
      tcbs := tcbs[t := tcb];
    }

    method SetThreadState(t: Tid, state: ThreadState)
      requires Linked() && t in tcbs
      modifies this`tcbs
      ensures Linked() && State() == SetState(old(State()), t, state)
    {
      hide FiledUnder, RunStructure.Valid;
      SetTcb(t, tcbs[t].(state := state));
    }

    // A blocked thread becomes ready and goes into the run structure.
    method Wake(t: Tid)
      requires Linked() && t in tcbs && KeyFits(t) && |runQueue| < MAX_THREADS
      modifies this`tcbs, this`runQueue, run.Footprint()
      ensures Linked() && State() == MakeReady(old(State()), t) && fresh(run.Footprint() - old(run.Footprint()))
    {
      hide FiledUnder, RunStructure.Valid;
      SetThreadState(t, Ready);
      AddToScheduler(t);
    }

    // sched_rr and sched_psjf
    method DispatchNext()
      requires Linked() && runQueue != []
      modifies this`runningTcb, this`tcbs, this`runQueue, run.Footprint()
      ensures Linked() && (forall t :: t in old(runQueue) ==> t in old(tcbs))
      ensures State() == Dispatch(policy, old(State())) && run.Footprint() <= old(run.Footprint())
    {
      hide FiledUnder, RunStructure.Valid, IsNext, Choice;
      FiledExist(tcbs, runQueue, run.filed);
      ghost var k := Choice(policy, State());
      ChoiceIsNext(policy, State(), run.filed);
      FiledLess(tcbs, runQueue, run.filed, k);
      var next: Tid := run.Take(k);
      runQueue := Without(runQueue, k);
      SetThreadState(next, Running);
      runningTcb := next;
    }

    // The switch of schedule: what becomes of the thread that was running.
    method PutBack()
      requires Linked() && runningTcb in tcbs && runningTcb !in runQueue
      requires IsRunnable(tcbs[runningTcb].state) ==> |runQueue| < MAX_THREADS
      requires policy == ShortestJobFirst ==> runningTcb < 0x8000_0000 && 0 <= tcbs[runningTcb].quanta < 0x7FFF_FFFF
      modifies this`tcbs, this`runQueue, run.Footprint()
      ensures Linked() && State() == Requeue(old(State()))
      ensures fresh(run.Footprint() - old(run.Footprint()))
    {
      hide FiledUnder, RunStructure.Valid;
      match tcbs[runningTcb].state {
        case Running =>
          var r := tcbs[runningTcb];
          SetTcb(runningTcb, r.(state := Ready, quanta := r.quanta + 1));
          AddToScheduler(runningTcb);
        case Ready => AddToScheduler(runningTcb);
        case Blocked =>
        case Terminated =>
      }
    }

    // schedule; false when there is no thread to dispatch
    method Schedule() returns (dispatched: bool)
      requires Linked() && runningTcb in tcbs && runningTcb !in runQueue
      requires IsRunnable(tcbs[runningTcb].state) ==> |runQueue| < MAX_THREADS
      requires policy == ShortestJobFirst ==> runningTcb < 0x8000_0000 && 0 <= tcbs[runningTcb].quanta < 0x7FFF_FFFF
      modifies this`runningTcb, this`tcbs, this`runQueue, run.Footprint()
      ensures Linked() && (forall t :: t in old(runQueue) ==> t in old(tcbs))
      ensures if dispatched then ThreadLibrary.Schedule(policy, old(State())) == Some(State())
              else ThreadLibrary.Schedule(policy, old(State())) == None
      ensures fresh(run.Footprint() - old(run.Footprint()))
    {
      hide FiledUnder, RunStructure.Valid, Requeue, Dispatch;
      FiledExist(tcbs, runQueue, run.filed);
      PutBack();
      FiledExist(tcbs, runQueue, run.filed);
      var empty := run.IsEmpty();
      if empty {
        return false;
      }
      DispatchNext();
      return true;
    }

    // ----- the calls of the running thread -----

    // The running thread may do this now; Known follows from the invariant.
    ghost predicate Accepts(action: Action)
      reads this, run, run.rrQueue, run.rrQueue.nodes, run.psjfHeap, run.psjfHeap.threads
    {
      ThreadLibrary.Inv(State()) && Known(State()) && Enabled(State(), action) && Linked() && KeysFit()
    }

    // The outcome of a call that may end in a context switch: the machine's step, or no thread left.
    ghost predicate Stepped(before: Sys, action: Action, dispatched: bool)
      reads this, run, run.rrQueue, run.rrQueue.nodes, run.psjfHeap, run.psjfHeap.threads
    {
      && Known(before) && Enabled(before, action) && Linked()
      && (dispatched <==> Act(policy, before, action).Some?)
      && (dispatched ==> Act(policy, before, action).value == State() && ThreadLibrary.Inv(State()))
    }

    // worker_create
    method WorkerCreate() returns (thread: Tid)
      requires Accepts(Create)
      modifies this`tcbs, this`runQueue, this`nextThreadId, run.Footprint()
      ensures Stepped(old(State()), Create, true) && thread == old(nextThreadId)
      ensures fresh(run.Footprint() - old(run.Footprint()))
    {
      hide ThreadLibrary.Inv, FiledUnder, RunStructure.Valid, ThreadLibrary.Schedule;
      BeforeStep(policy, State(), Create);
      ghost var s := State();
      thread := nextThreadId;
      nextThreadId := nextThreadId + 1;
      SetTcb(thread, Tcb(Ready, 0, None, false, Nothing, {}));
      AddToScheduler(thread);
      assert State() == CreateThread(s);
    }

    // worker_yield
    method WorkerYield() returns (dispatched: bool)
      requires Accepts(Yield)
      modifies this`runningTcb, this`tcbs, this`runQueue, run.Footprint()
      ensures Stepped(old(State()), Yield, dispatched)
      ensures fresh(run.Footprint() - old(run.Footprint()))
    {
      hide ThreadLibrary.Inv, FiledUnder, RunStructure.Valid, ThreadLibrary.Schedule;
      BeforeStep(policy, State(), Yield);
      SetThreadState(runningTcb, Ready);
      dispatched := Schedule();
    }

    // timer_handler
    method TimerHandler() returns (dispatched: bool)
      requires Accepts(Preempt)
      modifies this`runningTcb, this`tcbs, this`runQueue, run.Footprint()
      ensures Stepped(old(State()), Preempt, dispatched)
      ensures fresh(run.Footprint() - old(run.Footprint()))
    {
      hide ThreadLibrary.Inv, FiledUnder, RunStructure.Valid, ThreadLibrary.Schedule;
      BeforeStep(policy, State(), Preempt);
      dispatched := Schedule();
    }

    // worker_exit up to its context switch: the running thread ends and wakes the thread that joins it.
    method EndRunning()
      requires Linked() && KeysFit() && WaiterExists(State()) && |runQueue| < MAX_THREADS
      modifies this`tcbs, this`runQueue, run.Footprint()
      ensures Linked() && State() == Terminate(old(State())) && fresh(run.Footprint() - old(run.Footprint()))
    {
      hide FiledUnder, RunStructure.Valid;
      var waiting := tcbs[runningTcb].waiter;
      SetThreadState(runningTcb, Terminated);
      if waiting.Some? {
        Wake(waiting.value);
      }
      SetTcb(runningTcb, tcbs[runningTcb].(waiter := None));
    }

    // worker_exit
    method WorkerExit() returns (dispatched: bool)
      requires Accepts(ThreadLibrary.Exit)
      modifies this`runningTcb, this`tcbs, this`runQueue, run.Footprint()
      ensures Stepped(old(State()), ThreadLibrary.Exit, dispatched)
      ensures fresh(run.Footprint() - old(run.Footprint()))
    {
      hide ThreadLibrary.Inv, FiledUnder, RunStructure.Valid, ThreadLibrary.Schedule;
      BeforeStep(policy, State(), ThreadLibrary.Exit);
      EndRunning();
      dispatched := Schedule();
    }

    // cleanup_thread for the target of a join, which then returns
    method CleanupThread(thread: Tid)
      requires Linked() && runningTcb in tcbs && thread !in runQueue
      modifies this`tcbs
      ensures Linked() && State() == Cleanup(old(State()), thread)
    {
      hide FiledUnder, RunStructure.Valid;
      SetTcb(runningTcb, tcbs[runningTcb].(resume := Nothing));
      FiledKept(tcbs, tcbs - {thread}, runQueue, run.filed);
      tcbs := tcbs - {thread};
    }

    // worker_join up to its context switch, if it comes to one
    method WorkerJoin(thread: Tid) returns (dispatched: bool)
      requires Accepts(ThreadLibrary.Join(thread))
      modifies this`runningTcb, this`tcbs, this`runQueue, run.Footprint()
      ensures Stepped(old(State()), ThreadLibrary.Join(thread), dispatched)
      ensures fresh(run.Footprint() - old(run.Footprint()))
    {
      hide ThreadLibrary.Inv, FiledUnder, RunStructure.Valid, ThreadLibrary.Schedule;
      BeforeStep(policy, State(), ThreadLibrary.Join(thread));
      if thread !in tcbs || thread == 0 || runningTcb == thread || tcbs[thread].joined {
        return true;
      }
      ghost var s := State();
      if tcbs[thread].state == Terminated {
        TerminatedNotQueued(s, thread);
        CleanupThread(thread);
        return true;
      }
      SetTcb(thread, tcbs[thread].(joined := true));
      SetTcb(runningTcb, tcbs[runningTcb].(state := Blocked, resume := AfterJoin(thread)));
      SetTcb(thread, tcbs[thread].(waiter := Some(runningTcb)));
      assert State() == WaitFor(s, thread);
      dispatched := Schedule();
    }

    // One turn of the loop of worker_mutex_lock
    method TryLock(m: Mid) returns (dispatched: bool)
      requires Linked() && KeysFit() && m in mutexes && runningTcb in tcbs && runningTcb !in runQueue
      modifies this`runningTcb, this`tcbs, this`runQueue, this`mutexes, run.Footprint()
      ensures Linked() && fresh(run.Footprint() - old(run.Footprint()))
      ensures forall t :: t in old(runQueue) ==> t in old(tcbs)
      ensures if dispatched then LockMutex(policy, old(State()), m) == Some(State())
          else LockMutex(policy, old(State()), m) == None
    {
      hide FiledUnder, RunStructure.Valid, ThreadLibrary.Schedule;
      FiledExist(tcbs, runQueue, run.filed);
      var mutex, r := mutexes[m], tcbs[runningTcb];
      if mutex.locked {
        SetTcb(runningTcb, r.(state := Blocked, resume := RetryLock(m)));
        mutexes := mutexes[m := mutex.(waitQueue := mutex.waitQueue + [runningTcb])];
        dispatched := Schedule();
      } else {
        mutexes := mutexes[m := mutex.(locked := true, owner := Some(runningTcb))];
        SetTcb(runningTcb, r.(resume := Nothing, holds := r.holds + {m}));
        return true;
      }
    }

    // worker_mutex_lock
    method MutexLock(m: Mid) returns (dispatched: bool)
      requires Accepts(Lock(m))
      modifies this`runningTcb, this`tcbs, this`runQueue, this`mutexes, run.Footprint()
      ensures Stepped(old(State()), Lock(m), dispatched)
      ensures fresh(run.Footprint() - old(run.Footprint()))
    {
      hide ThreadLibrary.Inv, FiledUnder, RunStructure.Valid, ThreadLibrary.Schedule;
      BeforeStep(policy, State(), Lock(m));
      dispatched := TryLock(m);
    }

    // worker_mutex_unlock
    method MutexUnlock(m: Mid)
      requires Accepts(Unlock(m))
      modifies this`tcbs, this`runQueue, this`mutexes, run.Footprint()
      ensures Stepped(old(State()), Unlock(m), true)
      ensures fresh(run.Footprint() - old(run.Footprint()))
    {
      hide ThreadLibrary.Inv, FiledUnder, RunStructure.Valid, Release;
      BeforeStep(policy, State(), Unlock(m));
      if mutexes[m].owner != Some(runningTcb) {
        return;
      }
      ReleaseMutex(m);
    }

    // worker_mutex_unlock by the owner: the lock is cleared and the first waiter woken.
    method ReleaseMutex(m: Mid)
      requires Linked() && KeysFit() && runningTcb in tcbs && QueueExists(State(), m) && |runQueue| < MAX_THREADS
      modifies this`tcbs, this`runQueue, this`mutexes, run.Footprint()
      ensures Linked() && State() == Release(old(State()), m) && fresh(run.Footprint() - old(run.Footprint()))
    {
      hide FiledUnder, RunStructure.Valid;
      var waitQueue, r := mutexes[m].waitQueue, tcbs[runningTcb];
      SetTcb(runningTcb, r.(holds := r.holds - {m}));
      mutexes := mutexes[m := Mutex(false, None, waitQueue)];
      if waitQueue != [] {
        mutexes := mutexes[m := Mutex(false, None, waitQueue[1..])];
        assert waitQueue[0] in waitQueue;
        Wake(waitQueue[0]);
      }
    }

    // Back from a context switch in the middle of worker_join or worker_mutex_lock.
    method Resumed() returns (dispatched: bool)
      requires Accepts(Continue)
      modifies this`runningTcb, this`tcbs, this`runQueue, this`mutexes, run.Footprint()
      ensures Stepped(old(State()), Continue, dispatched)
      ensures fresh(run.Footprint() - old(run.Footprint()))
    {
      hide ThreadLibrary.Inv, FiledUnder, RunStructure.Valid, ThreadLibrary.Schedule;
      BeforeStep(policy, State(), Continue);
      match tcbs[runningTcb].resume {
        case AfterJoin(thread) =>
          JoinedNotQueued(State(), thread);
          CleanupThread(thread);
          return true;
        case RetryLock(m) =>
          if m in mutexes {
            dispatched := TryLock(m);
          } else {
            return true;
          }
        case Nothing => return true;
      }
    }
  }
}
