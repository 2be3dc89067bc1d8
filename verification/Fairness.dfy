// Fairness of both policies among the threads that compete for the processor: after n expired
// quanta, each of k such threads has had n / k of them, or one more, whatever the other threads
// are blocked on.
module Fairness {
  import opened Counting
  import opened ThreadLibrary

  // The running thread and the threads in the run structure.
  predicate Competes(s: Sys, t: Tid) {
    t == s.running || t in s.runQueue
  }

  ghost function Competitors(s: Sys): set<Tid> {
    (set t | t in s.runQueue) + {s.running}
  }

  // Competitors with more than `low` quanta.
  ghost function Ahead(s: Sys, low: int): set<Tid> {
    set t | t in Competitors(s) && t in s.tcbs && s.tcbs[t].quanta > low
  }

  ghost predicate Lined(s: Sys) {
    && s.running in s.tcbs && s.running !in s.runQueue && NoRepeats(s.runQueue)
    && forall t :: t in s.runQueue ==> t in s.tcbs
  }

  // The competitors have low or low + 1 quanta each; the running one has low; under round robin
  // the threads that are ahead are the last of the queue. Nothing is said of the other threads.
  ghost predicate Balanced(policy: Policy, s: Sys, low: int) {
    && Lined(s) && s.tcbs[s.running].state == Running && s.tcbs[s.running].quanta == low
    && (forall t :: Competes(s, t) ==> low <= s.tcbs[t].quanta <= low + 1)
    && (policy == RoundRobin ==>
          forall i, j :: 0 <= i < j < |s.runQueue| ==> s.tcbs[s.runQueue[i]].quanta <= s.tcbs[s.runQueue[j]].quanta)
  }

  // n quanta have been handed out to the k competitors.
  ghost predicate Served(policy: Policy, s: Sys, n: nat, low: int) {
    && Balanced(policy, s, low)
    && low >= 0 && n == |Competitors(s)| * low + |Ahead(s, low)|
  }

  // The next low: when the running thread was the last of its round, everyone has moved up.
  ghost function NextLow(s: Sys, low: int): (r: int)
    requires Lined(s)
    ensures r == low || r == low + 1
  {
    if forall t :: t in s.runQueue ==> s.tcbs[t].quanta > low then low + 1 else low
  }

  lemma RequeueRunning(policy: Policy, s: Sys, low: int)
    requires Balanced(policy, s, low)
    ensures var s1 := Requeue(s);
            && s1 == s.(tcbs := s1.tcbs, runQueue := s.runQueue + [s.running])
            && s1.tcbs.Keys == s.tcbs.Keys
            && s1.tcbs[s.running].quanta == low + 1
            && (forall t :: t in s.tcbs && t != s.running ==> s1.tcbs[t] == s.tcbs[t])
            && (forall t :: t in s1.runQueue <==> Competes(s, t))
            && NoRepeats(s1.runQueue)
  {
    AppendDistinct(s.runQueue, s.running);
    var q := s.runQueue + [s.running];
    forall t
      ensures t in q <==> t in s.runQueue || t == s.running
    {
    }
  }

  // The thread that is dispatched next has the fewest quanta of all.
  lemma ShortestIsLeast(s1: Sys, t: Tid)
    requires s1.runQueue != [] && (forall t :: t in s1.runQueue ==> t in s1.tcbs) && t in s1.runQueue
    ensures s1.tcbs[s1.runQueue[Choice(ShortestJobFirst, s1)]].quanta <= s1.tcbs[t].quanta
  {
    hide LeastOf;
    var j: nat :| j < |s1.runQueue| && s1.runQueue[j] == t;
    assert !RunsBefore(s1, s1.runQueue[j], s1.runQueue[Choice(ShortestJobFirst, s1)]);
  }

  lemma FirstIsLeast(s: Sys, low: int, t: Tid)
    requires Balanced(RoundRobin, s, low) && Competes(s, t)
    ensures var s1 := Requeue(s);
            s1.runQueue[0] in s1.tcbs && t in s1.tcbs && s1.tcbs[s1.runQueue[0]].quanta <= s1.tcbs[t].quanta
  {
    RequeueRunning(RoundRobin, s, low);
    if s.runQueue != [] {
      assert s.runQueue[0] in s.runQueue;
      if t != s.running {
        assert t in s.runQueue;
        var j: nat :| j < |s.runQueue| && s.runQueue[j] == t;
        assert s.tcbs[s.runQueue[0]].quanta <= s.tcbs[s.runQueue[j]].quanta;
      }
    }
  }

  lemma ChoiceIsLeast(policy: Policy, s: Sys, low: int)
    requires Balanced(policy, s, low)
    ensures var s1 := Requeue(s);
            && s1.runQueue != [] && (forall t :: t in s1.runQueue ==> t in s1.tcbs)
            && s1.tcbs[s1.runQueue[Choice(policy, s1)]].quanta == NextLow(s, low)
  {
    RequeueRunning(policy, s, low);
    var s1 := Requeue(s);
    var k := Choice(policy, s1);
    hide Choice, Balanced;
    var least := s1.runQueue[k];
    assert least in s1.runQueue;
    forall t | Competes(s, t)
      ensures s1.tcbs[least].quanta <= s1.tcbs[t].quanta
    {
      match policy {
        case ShortestJobFirst => ShortestIsLeast(s1, t);
        case RoundRobin =>
          assert k == 0 by { RoundRobinChoice(s1); }
          FirstIsLeast(s, low, t);
      }
    }
    Bounds(policy, s, low);
  }

  lemma RoundRobinChoice(s: Sys)
    requires s.runQueue != [] && forall t :: t in s.runQueue ==> t in s.tcbs
    ensures Choice(RoundRobin, s) == 0
  {
  }

  lemma Bounds(policy: Policy, s: Sys, low: int)
    requires Balanced(policy, s, low)
    ensures Lined(s) && s.tcbs[s.running].quanta == low
    ensures forall t :: Competes(s, t) ==> low <= s.tcbs[t].quanta <= low + 1
  {
  }

  lemma ExpiryKeepsOrder(s: Sys, low: int)
    requires Balanced(RoundRobin, s, low)
    requires var s1 := Requeue(s); s1.runQueue != [] && forall t :: t in s1.runQueue ==> t in s1.tcbs
    ensures var s1 := Requeue(s);
            forall i, j :: 1 <= i < j < |s1.runQueue| ==>
              s1.runQueue[i] in s1.tcbs && s1.runQueue[j] in s1.tcbs
              && s1.tcbs[s1.runQueue[i]].quanta <= s1.tcbs[s1.runQueue[j]].quanta
  {
    RequeueRunning(RoundRobin, s, low);
    var s1 := Requeue(s);
    var q := s1.runQueue;
    forall i, j | 1 <= i < j < |q|
      ensures q[i] in s1.tcbs && q[j] in s1.tcbs && s1.tcbs[q[i]].quanta <= s1.tcbs[q[j]].quanta
    {
      assert q[i] in q && q[j] in q;
      assert q[i] == s.runQueue[i] && s.runQueue[i] in s.runQueue;
      if j < |s.runQueue| {
        assert q[j] == s.runQueue[j] && s.runQueue[j] in s.runQueue;
        assert s.tcbs[s.runQueue[i]].quanta <= s.tcbs[s.runQueue[j]].quanta;
      } else {
        assert q[j] == s.running;
      }
    }
  }

  // The dispatch takes thread k out of the queue of s1 and runs it.
  lemma DispatchFrom(policy: Policy, s1: Sys)
    requires s1.runQueue != [] && (forall t :: t in s1.runQueue ==> t in s1.tcbs) && NoRepeats(s1.runQueue)
    ensures var k := Choice(policy, s1); var r := Dispatch(policy, s1);
            && r.running == s1.runQueue[k] && r.tcbs.Keys == s1.tcbs.Keys && Lined(r)
            && r.tcbs[r.running].state == Running
            && (forall t :: t in s1.tcbs ==> r.tcbs[t].quanta == s1.tcbs[t].quanta)
            && (forall t :: t in s1.tcbs && t != r.running ==> r.tcbs[t] == s1.tcbs[t])
            && (forall t :: Competes(r, t) <==> t in s1.runQueue)
  {
    hide Choice, NoRepeats;
    var k := Choice(policy, s1);
    TakeOut(s1.runQueue, k);
    assert s1.runQueue[k] in s1.runQueue;
  }

  lemma FirstLeaves(s1: Sys)
    requires s1.runQueue != [] && (forall t :: t in s1.runQueue ==> t in s1.tcbs)
    ensures var r := Dispatch(RoundRobin, s1);
            && r.runQueue == s1.runQueue[1..]
            && r.tcbs.Keys == s1.tcbs.Keys
            && forall t :: t in s1.tcbs ==> r.tcbs[t].quanta == s1.tcbs[t].quanta
  {
    assert s1.runQueue[0] in s1.runQueue;
    assert s1.runQueue[..0] + s1.runQueue[0 + 1..] == s1.runQueue[1..];
  }

  // Under round robin the queue stays ordered once its head has left.
  lemma OrderAfterExpiry(s: Sys, low: int)
    requires Balanced(RoundRobin, s, low)
    requires var s1 := Requeue(s); s1.runQueue != [] && forall t :: t in s1.runQueue ==> t in s1.tcbs
    ensures var r := Dispatch(RoundRobin, Requeue(s));
            forall i, j :: 0 <= i < j < |r.runQueue| ==>
              && r.runQueue[i] in r.tcbs && r.runQueue[j] in r.tcbs
              && r.tcbs[r.runQueue[i]].quanta <= r.tcbs[r.runQueue[j]].quanta
  {
    hide Balanced, Requeue, Dispatch;
    Bounds(RoundRobin, s, low);
    var s1 := Requeue(s);
    FirstLeaves(s1);
    ExpiryKeepsOrder(s, low);
    var r := Dispatch(RoundRobin, s1);
    forall i, j | 0 <= i < j < |r.runQueue|
      ensures r.runQueue[i] in r.tcbs && r.runQueue[j] in r.tcbs
      ensures r.tcbs[r.runQueue[i]].quanta <= r.tcbs[r.runQueue[j]].quanta
    {
      assert r.runQueue[i] == s1.runQueue[i + 1] && r.runQueue[j] == s1.runQueue[j + 1];
    }
  }

  // The running thread and those in the run structure have control blocks.
  ghost predicate CanSchedule(s: Sys) {
    s.running in s.tcbs && forall t :: t in s.runQueue ==> t in s.tcbs
  }

  // An expiry gives a quantum to the running thread and keeps the balance among the same
  // competitors; it does not touch the other threads.
  lemma ExpiryBalances(policy: Policy, s: Sys, low: int)
    requires Balanced(policy, s, low)
    ensures CanSchedule(s) && Schedule(policy, s).Some?
    ensures var r := Schedule(policy, s).value;
            && Balanced(policy, r, NextLow(s, low))
            && Competitors(r) == Competitors(s) && r.tcbs.Keys == s.tcbs.Keys
            && (forall t :: t in s.tcbs ==> r.tcbs[t].quanta == s.tcbs[t].quanta + if t == s.running then 1 else 0)
            && (forall t :: t in s.tcbs && !Competes(s, t) ==> r.tcbs[t] == s.tcbs[t])
  {
    hide LeastOf, Choice, Requeue, Dispatch, NoRepeats, Competitors;
    var s1 := Requeue(s);
    RequeueRunning(policy, s, low);
    ChoiceIsLeast(policy, s, low);
    DispatchFrom(policy, s1);
    if policy == RoundRobin {
      OrderAfterExpiry(s, low);
    }
    SameCompetitors(s, Schedule(policy, s).value);
  }

  lemma SameCompetitors(s: Sys, r: Sys)
    requires forall t :: Competes(r, t) <==> Competes(s, t)
    ensures Competitors(r) == Competitors(s)
  {
    OthersKeepOut(s);
    OthersKeepOut(r);
    hide Competes, Competitors;
  }

  // The timer expires n times.
  ghost function Expire(policy: Policy, s: Sys, n: nat, low: int): (r: (Sys, int))
    requires Balanced(policy, s, low)
    ensures Balanced(policy, r.0, r.1)
    decreases n
  {
    if n == 0 then (s, low)
    else
      var (s1, low1) := Expire(policy, s, n - 1, low);
      ExpiryBalances(policy, s1, low1);
      (Schedule(policy, s1).value, NextLow(s1, low1))
  }

  lemma AheadAfter(s: Sys, r: Sys, low: int)
    requires Lined(s) && Competitors(r) == Competitors(s) && r.tcbs.Keys == s.tcbs.Keys
    requires s.tcbs[s.running].quanta == low
    requires forall t :: Competes(s, t) ==> low <= s.tcbs[t].quanta <= low + 1
    requires forall t :: t in s.tcbs ==> r.tcbs[t].quanta == s.tcbs[t].quanta + if t == s.running then 1 else 0
    ensures NextLow(s, low) == low ==> |Ahead(r, low)| == |Ahead(s, low)| + 1
    ensures NextLow(s, low) != low ==> |Ahead(s, low)| == |Competitors(s)| - 1 && |Ahead(r, low + 1)| == 0
  {
    hide NoRepeats;
    OthersKeepOut(s);
    OthersKeepOut(r);
    hide Competitors;
    assert s.running !in Ahead(s, low);
    if NextLow(s, low) == low {
      assert Ahead(r, low) == Ahead(s, low) + {s.running};
    } else {
      assert Ahead(s, low) == Competitors(s) - {s.running};
      assert Ahead(r, low + 1) == {};
    }
  }

  // One more quantum is handed out.
  lemma ExpiryServes(policy: Policy, s: Sys, n: nat, low: int)
    requires Served(policy, s, n, low)
    ensures CanSchedule(s) && Schedule(policy, s).Some?
    ensures Served(policy, Schedule(policy, s).value, n + 1, NextLow(s, low))
  {
    hide Schedule, Balanced, Ahead, Competitors, Competes, Lined, NextLow;
    ExpiryBalances(policy, s, low);
    var r := Schedule(policy, s).value;
    Bounds(policy, s, low);
    AheadAfter(s, r, low);
    var k := |Competitors(s)|;
    assert k * (low + 1) == k * low + k;
  }

  lemma {:induction false} ExpireServes(policy: Policy, s: Sys, n: nat)
    requires Balanced(policy, s, 0) && forall t :: Competes(s, t) ==> s.tcbs[t].quanta == 0
    ensures var r := Expire(policy, s, n, 0);
            && Served(policy, r.0, n, r.1) && Competitors(r.0) == Competitors(s) && r.0.tcbs.Keys == s.tcbs.Keys
            && forall t :: t in s.tcbs && t !in Competitors(s) ==> r.0.tcbs[t] == s.tcbs[t]
    decreases n
  {
    hide Balanced, Schedule, Competitors;
    if n == 0 {
      NobodyAhead(policy, s);
    } else {
      ExpireServes(policy, s, n - 1);
      var (s1, low1) := Expire(policy, s, n - 1, 0);
      ExpiryServes(policy, s1, n - 1, low1);
      ExpiryBalances(policy, s1, low1);
      OthersKeepOut(s1);
    }
  }

  lemma OthersKeepOut(s: Sys)
    ensures forall t :: t in Competitors(s) <==> Competes(s, t)
  {
  }

  lemma NobodyAhead(policy: Policy, s: Sys)
    requires Balanced(policy, s, 0) && forall t :: Competes(s, t) ==> s.tcbs[t].quanta == 0
    ensures Ahead(s, 0) == {}
  {
    assert forall t :: t in Competitors(s) ==> Competes(s, t);
  }

  // After n expiries every one of the k threads that compete has n / k quanta or one more, and
  // exactly n % k of them have one more; all other threads are as they were.
  lemma FairShare(policy: Policy, s: Sys, n: nat, t: Tid)
    requires Balanced(policy, s, 0) && forall u :: Competes(s, u) ==> s.tcbs[u].quanta == 0
    ensures var r := Expire(policy, s, n, 0).0; var k := |Competitors(s)|;
            && k > 0 && Competitors(r) == Competitors(s) && r.tcbs.Keys == s.tcbs.Keys
            && (Competes(s, t) ==> r.tcbs[t].quanta == n / k || (n % k != 0 && r.tcbs[t].quanta == n / k + 1))
            && |Ahead(r, n / k)| == n % k
            && (t in s.tcbs && !Competes(s, t) ==> r.tcbs[t] == s.tcbs[t])
  {
    hide Schedule, Expire, Competitors;
    ExpireServes(policy, s, n);
    var (r, low) := Expire(policy, s, n, 0);
    var k := |Competitors(s)|;
    Bounds(policy, r, low);
    OthersKeepOut(s);
    OthersKeepOut(r);
    AheadIsFew(r, low);
    Quotient(n, k, low, |Ahead(r, low)|);
    if n % k == 0 {
      assert t !in Ahead(r, low);
    }
  }

  lemma AheadIsFew(r: Sys, low: int)
    requires Lined(r) && r.tcbs[r.running].quanta == low
    ensures |Ahead(r, low)| < |Competitors(r)|
  {
    var a := Ahead(r, low);
    assert a <= Competitors(r) && r.running !in a;
    SubsetSize(a + {r.running}, Competitors(r));
  }

  lemma Quotient(n: nat, k: nat, q: int, r: nat)
    requires k > 0 && q >= 0 && n == k * q + r && r < k
    ensures q == n / k && r == n % k
  {
    DivisionIsUnique(n, k, q, r, n / k, n % k);
  }

  lemma DivisionIsUnique(n: nat, k: nat, q: int, r: int, q': int, r': int)
    requires k > 0 && n == k * q + r == k * q' + r' && 0 <= r < k && 0 <= r' < k
    ensures q == q' && r == r'
  {
    if q < q' {
      Times(k, q, q' - q);
    }
    if q' < q {
      Times(k, q', q - q');
    }
  }

  lemma Times(k: nat, q: int, d: int)
    requires d >= 1
    ensures k * (q + d) >= k * q + k
  {
    var e := d - 1;
    assert k * (q + d) == k * q + k + k * e;
    assert k * e >= 0;
  }
}
