// What each call of the running thread changes, field by field, and that it changes nothing else.
module ThreadEffects {
  import opened Wrappers
  import opened ThreadLibrary

  // Thread t of the run structure is dispatched next: the first of it under round robin; under PSJF
  // the one with the fewest quanta, and of these the one with the smallest id.
  ghost predicate GoesFirst(policy: Policy, w: Sys, k: nat) {
    && k < |w.runQueue|
    && match policy
       case RoundRobin => k == 0
       case ShortestJobFirst =>
         forall i :: 0 <= i < |w.runQueue| && w.runQueue[i] in w.tcbs && w.runQueue[k] in w.tcbs ==>
           var q, t := w.tcbs[w.runQueue[i]].quanta, w.tcbs[w.runQueue[k]].quanta;
           t < q || (t == q && w.runQueue[k] <= w.runQueue[i])
  }

  // From w the thread that goes first is taken out of the run structure and runs; nothing else
  // changes. With an empty run structure there is no next state.
  ghost predicate Dispatches(policy: Policy, w: Sys, r: Option<Sys>) {
    if w.runQueue == [] then r == None
    else
      exists k: nat :: GoesFirst(policy, w, k) && w.runQueue[k] in w.tcbs
        && var t := w.runQueue[k];
           r == Some(Sys(t, w.tcbs[t := w.tcbs[t].(state := Running)], w.runQueue[..k] + w.runQueue[k + 1..],
                         w.mutexes, w.nextId))
  }

  lemma DispatchesFirst(policy: Policy, w: Sys)
    requires w.running in w.tcbs && (forall t :: t in w.runQueue ==> t in w.tcbs) && w.runQueue != []
    ensures Dispatches(policy, w, Some(Dispatch(policy, w)))
  {
    hide LeastOf;
    var k := Choice(policy, w);
    if policy == ShortestJobFirst {
      forall i | 0 <= i < |w.runQueue|
        ensures !RunsBefore(w, w.runQueue[i], w.runQueue[k])
      {
      }
    }
    assert GoesFirst(policy, w, k);
  }

  // A thread that gives up the processor and does not go back into the run structure itself.
  lemma LeavesOver(policy: Policy, w: Sys)
    requires w.running in w.tcbs && (forall t :: t in w.runQueue ==> t in w.tcbs)
    requires w.tcbs[w.running].state == Blocked || w.tcbs[w.running].state == Terminated
    ensures Dispatches(policy, w, Schedule(policy, w))
  {
    hide Choice;
    if w.runQueue != [] {
      DispatchesFirst(policy, w);
    }
  }

  lemma YieldEffect(policy: Policy, s: Sys)
    requires Inv(s) && Enabled(s, Yield)
    ensures Known(s)
    ensures var r := s.running;
            var w := s.(runQueue := s.runQueue + [r], tcbs := s.tcbs[r := s.tcbs[r].(state := Ready)]);
            Dispatches(policy, w, Act(policy, s, Yield))
  {
    hide Inv, Dispatch, Dispatches;
    InvKnown(s);
    var r := s.running;
    DispatchesFirst(policy, s.(runQueue := s.runQueue + [r], tcbs := s.tcbs[r := s.tcbs[r].(state := Ready)]));
  }

  // The expiry of a quantum is the only thing that counts one.
  lemma PreemptEffect(policy: Policy, s: Sys)
    requires Inv(s) && Enabled(s, Preempt)
    ensures Known(s)
    ensures var r := s.running; var b := s.tcbs[r];
            var w := s.(runQueue := s.runQueue + [r],
                        tcbs := s.tcbs[r := b.(state := Ready, quanta := b.quanta + 1)]);
            Dispatches(policy, w, Act(policy, s, Preempt))
  {
    hide Inv, Dispatch, Dispatches;
    InvKnown(s);
    var r, b := s.running, s.tcbs[s.running];
    DispatchesFirst(policy, s.(runQueue := s.runQueue + [r],
                               tcbs := s.tcbs[r := b.(state := Ready, quanta := b.quanta + 1)]));
  }

  // worker_exit ends the caller and readies the thread that joins it, if there is one.
  lemma ExitEffect(policy: Policy, s: Sys)
    requires Inv(s) && Enabled(s, Exit)
    ensures Known(s)
    ensures var r := s.running;
            var ended := s.tcbs[r := s.tcbs[r].(state := Terminated, waiter := None)];
            var w := match s.tcbs[r].waiter
                     case None => s.(tcbs := ended)
                     case Some(j) =>
                       s.(runQueue := s.runQueue + [j], tcbs := ended[j := s.tcbs[j].(state := Ready)]);
            Dispatches(policy, w, Act(policy, s, Exit))
  {
    hide Inv, Schedule, Dispatches;
    InvKnown(s);
    LeavesOver(policy, Terminate(s));
  }

  // worker_join refuses a thread it does not find, the caller, and one already joined; it removes a
  // terminated thread; otherwise the caller blocks and is entered as the waiter.
  lemma JoinEffect(policy: Policy, s: Sys, x: Tid)
    requires Inv(s) && Enabled(s, Join(x))
    ensures Known(s)
    ensures var r := s.running; var act := Act(policy, s, Join(x));
            if x !in s.tcbs || x == 0 || x == r || s.tcbs[x].joined then act == Some(s)
            else if s.tcbs[x].state == Terminated then act == Some(s.(tcbs := s.tcbs - {x}))
            else
              Dispatches(policy,
                  s.(tcbs := s.tcbs[x := s.tcbs[x].(joined := true, waiter := Some(r))]
                                   [r := s.tcbs[r].(state := Blocked, resume := AfterJoin(x))]), act)
  {
    hide Inv, Schedule, Dispatches;
    InvKnown(s);
    if Joinable(s, x) {
      if s.tcbs[x].state == Terminated {
        assert s.tcbs[s.running := s.tcbs[s.running].(resume := Nothing)] == s.tcbs;
      } else {
        LeavesOver(policy, WaitFor(s, x));
      }
    }
  }

  // worker_create makes a ready thread with the next number, no quanta, and the last place in the
  // run structure.
  lemma CreateEffect(policy: Policy, s: Sys)
    requires Inv(s) && Enabled(s, Create)
    ensures Known(s) && s.nextId !in s.tcbs
    ensures Act(policy, s, Create) ==
              Some(Sys(s.running, s.tcbs[s.nextId := Tcb(Ready, 0, None, false, Nothing, {})],
                       s.runQueue + [s.nextId], s.mutexes, s.nextId + 1))
  {
    InvKnown(s);
    NewIsNotReady(s);
  }

  // The test-and-set of worker_mutex_lock: on a free mutex it succeeds; otherwise the caller blocks
  // behind all that wait already.
  ghost predicate Locks(policy: Policy, s: Sys, m: Mid, act: Option<Sys>)
    requires s.running in s.tcbs && m in s.mutexes
  {
    var r := s.running; var b := s.tcbs[r]; var x := s.mutexes[m];
    if !x.locked then
      act == Some(s.(tcbs := s.tcbs[r := b.(resume := Nothing, holds := b.holds + {m})],
                     mutexes := s.mutexes[m := Mutex(true, Some(r), x.waitQueue)]))
    else
      Dispatches(policy,
          s.(tcbs := s.tcbs[r := b.(state := Blocked, resume := RetryLock(m))],
             mutexes := s.mutexes[m := Mutex(true, x.owner, x.waitQueue + [r])]), act)
  }

  lemma LockEffect(policy: Policy, s: Sys, m: Mid)
    requires Inv(s) && Enabled(s, Lock(m))
    ensures Known(s) && Locks(policy, s, m, Act(policy, s, Lock(m)))
  {
    hide Inv, Schedule, Dispatches;
    InvKnown(s);
    if s.mutexes[m].locked {
      LeavesOver(policy, WaitForMutex(s, m));
    }
  }

  // worker_mutex_unlock by the owner: the mutex is free, the first thread that waits for it is
  // ready and last in the run structure, and the others wait on in their order. The caller runs on.
  lemma UnlockEffect(policy: Policy, s: Sys, m: Mid)
    requires Inv(s) && Enabled(s, Unlock(m))
    ensures Known(s) && Act(policy, s, Unlock(m)).Some?
    ensures var s' := Act(policy, s, Unlock(m)).value; var r := s.running; var q := s.mutexes[m].waitQueue;
            if s.mutexes[m].owner != Some(r) then s' == s
            else
              && !s'.mutexes[m].locked && s'.mutexes[m].owner == None
              && s'.mutexes[m].waitQueue == (if q == [] then [] else q[1..])
              && s'.mutexes.Keys == s.mutexes.Keys
              && (forall n :: n in s.mutexes && n != m ==> s'.mutexes[n] == s.mutexes[n])
              && s'.runQueue == s.runQueue + (if q == [] then [] else [q[0]])
              && s'.running == r && s'.nextId == s.nextId && s'.tcbs.Keys == s.tcbs.Keys
              && r in s.tcbs && s'.tcbs[r] == s.tcbs[r].(holds := s.tcbs[r].holds - {m})
              && (q != [] ==> q[0] in s.tcbs && q[0] != r && s'.tcbs[q[0]] == s.tcbs[q[0]].(state := Ready))
              && (forall t :: t in s.tcbs && t != r && (q != [] ==> t != q[0]) ==> s'.tcbs[t] == s.tcbs[t])
  {
    InvKnown(s);
    var q := s.mutexes[m].waitQueue;
    if q != [] {
      assert QueuedFor(s, m, q[0]);
    }
  }

  // A thread that comes back from worker_join removes the one it joined; one that comes back from
  // worker_mutex_lock tries again.
  lemma ContinueEffect(policy: Policy, s: Sys)
    requires Inv(s) && Enabled(s, Continue)
    ensures Known(s)
    ensures var r := s.running; var b := s.tcbs[r]; var act := Act(policy, s, Continue);
            match b.resume
            case AfterJoin(x) =>
              x != r && act == Some(s.(tcbs := (s.tcbs - {x})[r := b.(resume := Nothing)]))
            case RetryLock(m) => m in s.mutexes && Locks(policy, s, m, act)
            case Nothing => false
  {
    InvKnown(s);
    var r := s.running;
    hide Schedule, Dispatches;
    match s.tcbs[r].resume {
      case AfterJoin(x) =>
        assert Joins(s, r, x);
        assert s.tcbs[r := s.tcbs[r].(resume := Nothing)] - {x} == (s.tcbs - {x})[r := s.tcbs[r].(resume := Nothing)];
      case RetryLock(m) =>
        assert Wants(s, r, m);
        if s.mutexes[m].locked {
          LeavesOver(policy, WaitForMutex(s, m));
        }
      case Nothing =>
    }
  }
}
