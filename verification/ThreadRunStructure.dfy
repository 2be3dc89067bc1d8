// The run structure of thread-worker.c: the linked queue under round robin, the array heap under
// PSJF, behind add_to_scheduler and the first step of sched_rr and sched_psjf.
module ThreadRunStructure {
  import opened ThreadHeap
  import opened ThreadQueue
  import opened ThreadLibrary

  function Ids(filed: seq<Thread>): (r: seq<int>)
    ensures |r| == |filed| && forall i :: 0 <= i < |r| ==> r[i] == filed[i].id
  {
    seq(|filed|, i requires 0 <= i < |filed| => filed[i].id)
  }

  // The thread that is taken next: the first of the queue, or the one before all others of the heap.
  ghost predicate IsNext(policy: Policy, filed: seq<Thread>, k: nat) {
    k < |filed| && match policy
                   case RoundRobin => k == 0
                   case ShortestJobFirst => forall i :: 0 <= i < |filed| ==> !Before(filed[i], filed[k])
  }

  function Without<T>(q: seq<T>, k: nat): (r: seq<T>)
    requires k < |q|
    ensures |r| == |q| - 1
  {
    q[..k] + q[k + 1..]
  }

  lemma WithoutElements<T>(q: seq<T>, k: nat)
    requires k < |q|
    ensures multiset(Without(q, k)) + multiset{q[k]} == multiset(q)
  {
    assert q == q[..k] + [q[k]] + q[k + 1..];
  }

  lemma CancelOne(a: multiset<Thread>, b: multiset<Thread>, x: Thread)
    requires a + multiset{x} == b + multiset{x}
    ensures a == b
  {
    assert a == (a + multiset{x}) - multiset{x};
    assert b == (b + multiset{x}) - multiset{x};
  }

  // A minimum of the heap is the thread that comes before all others.
  lemma LeastIsMinimum(filed: seq<Thread>, items: seq<Job>, k: nat, min: Job)
    requires multiset(items) == multiset(filed) && k < |filed| && min in multiset(items)
    requires forall i :: 0 <= i < |filed| ==> !Before(filed[i], filed[k])
    requires forall x :: x in items ==> PsjfCmp(min, x) <= 0
    ensures min == filed[k]
  {
    hide PsjfCmp;
    PsjfOrders();
    assert min in multiset(filed);
    var i: nat :| i < |filed| && filed[i] == min;
    assert filed[k] in multiset(filed);
    assert filed[k] in items;
    var least: Job := filed[k];
    assert !Before(min, least) && !Before(least, min);
  }

  lemma IdsOfMore(filed: seq<Thread>, thread: Thread)
    ensures Ids(filed + [thread]) == Ids(filed) + [thread.id]
  {
  }

  class RunStructure {
    const policy: Policy
    const rrQueue: Queue<int>
    const psjfHeap: MinHeap<Job>
    ghost var filed: seq<Thread>  // the threads in the order they came, with the quanta they had

    ghost predicate Valid()
      reads this, rrQueue, rrQueue.nodes, psjfHeap, psjfHeap.threads
    {
      && rrQueue.Valid() && psjfHeap.Valid()
      && (forall a: Job, b: Job :: psjfHeap.cmp(a, b) == PsjfCmp(a, b))
      && match policy
         case RoundRobin => rrQueue.Contents() == Ids(filed)
         case ShortestJobFirst => multiset(psjfHeap.Items()) == multiset(filed)
    }

    ghost function Footprint(): set<object>
      reads this, rrQueue
    {
      {this, rrQueue, psjfHeap, psjfHeap.threads} + set n | n in rrQueue.nodes
    }

    // init_queue and init_heap
    constructor (policy: Policy)
      ensures Valid() && filed == [] && this.policy == policy && fresh(Footprint())
    {
      this.policy := policy;
      rrQueue := new Queue();
      PsjfOrders();
      psjfHeap := new MinHeap((a: Job, b: Job) => PsjfCmp(a, b));
      filed := [];
    }

    // add_to_scheduler
    method Add(thread: Thread)
      requires Valid() && |filed| < MAX_THREADS
      requires policy == ShortestJobFirst ==> 0 <= thread.id < 0x8000_0000 && 0 <= thread.elapsedQuanta < 0x8000_0000
      modifies Footprint()
      ensures Valid() && filed == old(filed) + [thread] && fresh(Footprint() - old(Footprint()))
    {
      match policy {
        case RoundRobin => AddLast(thread);
        case ShortestJobFirst => AddToHeap(thread);
      }
    }

    method AddLast(thread: Thread)
      requires Valid() && policy == RoundRobin
      modifies this`filed, rrQueue, rrQueue.tail
      ensures Valid() && filed == old(filed) + [thread] && fresh(Footprint() - old(Footprint()))
    {
      hide Orders, PsjfCmp, HeapOrdered, Ids;
      IdsOfMore(filed, thread);
      rrQueue.Enqueue(thread.id);
      filed := filed + [thread];
    }

    method AddToHeap(thread: Job)
      requires Valid() && policy == ShortestJobFirst && |filed| < MAX_THREADS
      modifies this`filed, psjfHeap, psjfHeap.threads
      ensures Valid() && filed == old(filed) + [thread]
    {
      hide Orders, PsjfCmp, HeapOrdered, Ids;
      assert |multiset(psjfHeap.Items())| == |multiset(filed)|;
      psjfHeap.Push(thread);
      assert multiset(filed + [thread]) == multiset(filed) + multiset{thread};
      filed := filed + [thread];
    }

    // dequeue or heap_pop, from a run structure that is not empty
    method Take(ghost k: nat) returns (next: int)
      requires Valid() && filed != [] && IsNext(policy, filed, k)
      modifies Footprint()
      ensures Valid() && next == old(filed)[k].id && filed == Without(old(filed), k) && Footprint() <= old(Footprint())
    {
      match policy {
        case RoundRobin => next := TakeFirst();
        case ShortestJobFirst => next := TakeLeast(k);
      }
    }

    method TakeFirst() returns (next: int)
      requires Valid() && policy == RoundRobin && filed != []
      modifies this`filed, rrQueue
      ensures Valid() && next == old(filed)[0].id && filed == Without(old(filed), 0) && Footprint() <= old(Footprint())
    {
      hide Orders, PsjfCmp, HeapOrdered;
      var first := rrQueue.Dequeue();
      next := first.value;
      filed := Without(filed, 0);
      assert Ids(filed) == old(Ids(filed))[1..];
    }

    method TakeLeast(ghost k: nat) returns (next: int)
      requires Valid() && policy == ShortestJobFirst && filed != [] && IsNext(policy, filed, k)
      modifies this`filed, psjfHeap, psjfHeap.threads
      ensures Valid() && next == old(filed)[k].id && filed == Without(old(filed), k)
    {
      hide Orders, PsjfCmp, HeapOrdered, Ids, Before, Without;
      assert |multiset(psjfHeap.Items())| == |multiset(filed)|;
      ghost var items := psjfHeap.Items();
      var min := psjfHeap.Pop();
      assert min in multiset(items);
      LeastIsMinimum(filed, items, k, min);
      WithoutElements(filed, k);
      CancelOne(multiset(psjfHeap.Items()), multiset(Without(filed, k)), filed[k]);
      next := min.id;
      filed := Without(filed, k);
    }

    method IsEmpty() returns (empty: bool)
      requires Valid()
      ensures empty <==> filed == []
    {
      match policy {
        case RoundRobin => empty := rrQueue.IsEmpty();
        case ShortestJobFirst =>
          assert |multiset(psjfHeap.Items())| == |multiset(filed)|;
          empty := psjfHeap.IsEmpty();
      }
    }
  }
}
