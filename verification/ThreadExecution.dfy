// The scheduler object taken through whole runs of the state machine.
module ThreadExecution {
  import opened ThreadLibrary
  import opened ThreadRuns
  import opened ThreadWorker

  // Thread numbers and quanta after n steps.
  ghost predicate KeysWithin(s: Sys, n: nat) {
    s.nextId <= n + 1 && forall t :: t in s.tcbs ==> t < s.nextId && 0 <= s.tcbs[t].quanta <= n
  }

  lemma ScheduleKeys(policy: Policy, s: Sys, n: nat)
    requires s.running in s.tcbs && (forall t :: t in s.runQueue ==> t in s.tcbs) && KeysWithin(s, n)
    ensures Schedule(policy, s).Some? ==> KeysWithin(Schedule(policy, s).value, n + 1)
  {
    hide LeastOf;
  }

  lemma LockKeys(policy: Policy, s: Sys, m: Mid, n: nat)
    requires s.running in s.tcbs && (forall t :: t in s.runQueue ==> t in s.tcbs) && KeysWithin(s, n) && m in s.mutexes
    ensures LockMutex(policy, s, m).Some? ==> KeysWithin(LockMutex(policy, s, m).value, n + 1)
  {
    hide Schedule;
    ScheduleKeys(policy, WaitForMutex(s, m), n);
  }

  // A step makes at most one thread and gives at most one quantum.
  lemma StepKeys(policy: Policy, s: Sys, action: Action, s': Sys, n: nat)
    requires Follows(policy, s, action, s') && KeysWithin(s, n)
    ensures KeysWithin(s', n + 1)
  {
    hide Schedule, LockMutex;
    match action {
      case Yield => ScheduleKeys(policy, SetState(s, s.running, Ready), n);
      case Preempt => ScheduleKeys(policy, s, n);
      case Exit => ScheduleKeys(policy, Terminate(s), n);
      case Join(x) =>
        if Joinable(s, x) && !Is(s, x, Terminated) {
          ScheduleKeys(policy, WaitFor(s, x), n);
        }
      case Lock(m) => LockKeys(policy, s, m, n);
      case Continue =>
        match s.tcbs[s.running].resume {
          case RetryLock(m) =>
            if m in s.mutexes {
              LockKeys(policy, s, m, n);
            }
          case _ =>
        }
      case _ =>
    }
  }

  // One step of the machine: the call of the running thread, or the expiry of its quantum.
  method Perform(s: Scheduler, action: Action) returns (dispatched: bool)
    requires s.Accepts(action)
    modifies s, s.run.Footprint()
    ensures s.Stepped(old(s.State()), action, dispatched)
    ensures dispatched ==> Follows(s.policy, old(s.State()), action, s.State())
    ensures fresh(s.run.Footprint() - old(s.run.Footprint()))
  {
    hide Inv, FiledUnder, Act;
    match action {
      case Create =>
        var _ := s.WorkerCreate();
        return true;
      case Yield => dispatched := s.WorkerYield();
      case Preempt => dispatched := s.TimerHandler();
      case Exit => dispatched := s.WorkerExit();
      case Join(thread) => dispatched := s.WorkerJoin(thread);
      case Lock(m) => dispatched := s.MutexLock(m);
      case Unlock(m) =>
        s.MutexUnlock(m);
        return true;
      case Continue => dispatched := s.Resumed();
    }
  }

  // From init_main_thread on, the object goes through the states of any run of the machine; under
  // PSJF the run may have up to 2^31 - 2 steps, so that psjf_cmp stays an order.
  method PerformRun(policy: Policy, mutexIds: set<Mid>, actions: seq<Action>, ghost states: seq<Sys>)
      returns (s: Scheduler)
    requires IsRun(policy, states, actions) && states[0].mutexes.Keys == mutexIds
    requires policy == ShortestJobFirst ==> |actions| < 0x7FFF_FFFF
    ensures fresh(s) && s.policy == policy && s.State() == states[|actions|] && s.Linked()
  {
    hide Inv, FiledUnder, Act, Known, Enabled;
    s := new Scheduler(policy, mutexIds);
    assert s.mutexes == states[0].mutexes;
    for i := 0 to |actions|
      invariant s.policy == policy && fresh(s) && fresh(s.run.Footprint())
      invariant s.State() == states[i] && Inv(s.State()) && s.Linked() && KeysWithin(s.State(), i)
    {
      assert Follows(policy, states[i], actions[i], states[i + 1]);
      var dispatched := Perform(s, actions[i]);
      StepKeys(policy, states[i], actions[i], states[i + 1], i);
    }
  }
}
