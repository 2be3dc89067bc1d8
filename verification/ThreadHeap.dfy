// The array heap of datastructures.c, for any comparator that orders its elements totally.
module ThreadHeap {

  const MAX_THREADS: nat := 128

  // The sign of cmp orders the elements, ties allowed.
  ghost predicate Orders<T(!new)>(cmp: (T, T) -> int) {
    && (forall a, b :: cmp(a, b) < 0 <==> cmp(b, a) > 0)
    && (forall a, b, c :: cmp(a, b) <= 0 && cmp(b, c) <= 0 ==> cmp(a, c) <= 0)
  }

  lemma OrderFacts<T(!new)>(cmp: (T, T) -> int, a: T, b: T, c: T)
    requires Orders(cmp)
    ensures cmp(a, a) == 0
    ensures cmp(a, b) <= 0 || cmp(b, a) <= 0
    ensures cmp(a, b) < 0 ==> cmp(b, a) > 0
    ensures !(cmp(a, b) < 0) ==> cmp(b, a) <= 0
    ensures cmp(a, b) <= 0 && cmp(b, c) <= 0 ==> cmp(a, c) <= 0
    ensures cmp(a, b) < 0 && cmp(b, c) <= 0 ==> cmp(a, c) < 0
  {
    assert !(cmp(a, a) > 0) && !(cmp(a, a) < 0);
    assert cmp(b, c) <= 0 && cmp(c, a) <= 0 ==> cmp(b, a) <= 0;
  }

  function Parent(j: nat): nat
    requires j > 0
  {
    (j - 1) / 2
  }

  ghost predicate AtMost<T>(cmp: (T, T) -> int, s: seq<T>, p: nat, j: nat) {
    p < |s| && j < |s| && cmp(s[p], s[j]) <= 0
  }

  lemma AtMostIs<T>(cmp: (T, T) -> int, s: seq<T>, p: nat, j: nat)
    requires AtMost(cmp, s, p, j)
    ensures p < |s| && j < |s| && cmp(s[p], s[j]) <= 0
  {
  }

  // No element is smaller than its parent.
  ghost predicate HeapOrdered<T>(cmp: (T, T) -> int, s: seq<T>) {
    forall j: nat :: 0 < j < |s| ==> AtMost(cmp, s, Parent(j), j)
  }

  lemma {:induction false} RootIsMinimum<T(!new)>(cmp: (T, T) -> int, s: seq<T>, j: nat)
    requires Orders(cmp) && HeapOrdered(cmp, s) && j < |s|
    ensures AtMost(cmp, s, 0, j)
    decreases j
  {
    hide Orders;
    if j == 0 {
      OrderFacts(cmp, s[0], s[0], s[0]);
    } else {
      RootIsMinimum(cmp, s, Parent(j));
      assert AtMost(cmp, s, Parent(j), j);
      OrderFacts(cmp, s[0], s[Parent(j)], s[j]);
    }
  }

  function Swap<T>(s: seq<T>, i: nat, j: nat): (r: seq<T>)
    requires i < |s| && j < |s|
    ensures |r| == |s|
  {
    s[i := s[j]][j := s[i]]
  }

  lemma SwapKeepsElements<T>(s: seq<T>, i: nat, j: nat)
    requires i < |s| && j < |s|
    ensures multiset(Swap(s, i, j)) == multiset(s)
  {
  }

  method SwapInPlace<T>(a: array<T>, n: nat, i: nat, j: nat)
    requires i < n && j < n && n <= a.Length
    modifies a
    ensures a[..n] == Swap(old(a[..n]), i, j)
  {
    var temp := a[i];
    a[i] := a[j];
    a[j] := temp;
  }

  // Order everywhere but between i and its parent; the parent of i is below i's children.
  ghost predicate AllButUp<T>(cmp: (T, T) -> int, s: seq<T>, i: nat) {
    && (forall j: nat :: 0 < j < |s| && j != i ==> AtMost(cmp, s, Parent(j), j))
    && (forall j: nat :: 0 < j < |s| && 0 < i && Parent(j) == i ==> AtMost(cmp, s, Parent(i), j))
  }

  // Order everywhere but between i and its children; the parent of i is below i's children.
  ghost predicate AllButDown<T>(cmp: (T, T) -> int, s: seq<T>, i: nat) {
    && (forall j: nat :: 0 < j < |s| && Parent(j) != i ==> AtMost(cmp, s, Parent(j), j))
    && (forall j: nat :: 0 < j < |s| && 0 < i && Parent(j) == i ==> AtMost(cmp, s, Parent(i), j))
  }

  lemma SwapUp<T(!new)>(cmp: (T, T) -> int, s: seq<T>, i: nat)
    requires Orders(cmp) && AllButUp(cmp, s, i) && 0 < i < |s| && cmp(s[i], s[Parent(i)]) < 0
    ensures AllButUp(cmp, Swap(s, i, Parent(i)), Parent(i))
  {
    hide Orders;
    var p := Parent(i);
    var r := Swap(s, i, p);
    OrderFacts(cmp, s[i], s[p], s[p]);
    forall j: nat | 0 < j < |r|
      ensures j != p ==> AtMost(cmp, r, Parent(j), j)
      ensures 0 < p && Parent(j) == p ==> AtMost(cmp, r, Parent(p), j)
    {
      if j != i {
        assert AtMost(cmp, s, Parent(j), j);
        OrderFacts(cmp, s[i], s[p], s[j]);
      }
      if j != p && Parent(j) == i {
        assert AtMost(cmp, s, p, j);
      }
      if 0 < p {
        assert AtMost(cmp, s, Parent(p), p);
        OrderFacts(cmp, s[Parent(p)], s[p], s[j]);
      }
    }
  }

  lemma SwapDown<T(!new)>(cmp: (T, T) -> int, s: seq<T>, i: nat, c: nat)
    requires Orders(cmp) && AllButDown(cmp, s, i) && i < |s| && 0 < c < |s| && Parent(c) == i
    requires cmp(s[c], s[i]) < 0
    requires forall j: nat :: 0 < j < |s| && Parent(j) == i ==> AtMost(cmp, s, c, j)
    ensures AllButDown(cmp, Swap(s, i, c), c)
  {
    hide Orders;
    var r := Swap(s, i, c);
    forall j: nat | 0 < j < |r|
      ensures Parent(j) != c ==> AtMost(cmp, r, Parent(j), j)
      ensures Parent(j) == c ==> AtMost(cmp, r, i, j)
    {
      if Parent(j) == i {
        assert AtMost(cmp, s, c, j);
      } else {
        assert AtMost(cmp, s, Parent(j), j);
        if j == i {
          assert AtMost(cmp, s, Parent(i), c);
        }
      }
    }
  }

  // The upward walk ends at the root or below a parent that is not larger.
  lemma SettledUp<T(!new)>(cmp: (T, T) -> int, s: seq<T>, i: nat)
    requires Orders(cmp) && AllButUp(cmp, s, i) && i < |s|
    requires i > 0 ==> !(cmp(s[i], s[Parent(i)]) < 0)
    ensures HeapOrdered(cmp, s)
  {
    if i > 0 {
      OrderFacts(cmp, s[i], s[Parent(i)], s[i]);
    }
  }

  // The choice between i and its children.
  lemma SmallestChild<T(!new)>(cmp: (T, T) -> int, s: seq<T>, i: nat, c: nat)
    requires Orders(cmp) && AllButDown(cmp, s, i) && (i < |s| || |s| == 0 == i)
    requires var l := 2 * i + 1; var r := 2 * i + 2;
             var c0 := if l < |s| && cmp(s[l], s[i]) < 0 then l else i;
             c == if r < |s| && cmp(s[r], s[c0]) < 0 then r else c0
    ensures c == i ==> HeapOrdered(cmp, s)
    ensures c != i ==> 0 < c < |s| && Parent(c) == i && cmp(s[c], s[i]) < 0
    ensures c != i ==> forall j: nat :: 0 < j < |s| && Parent(j) == i ==> AtMost(cmp, s, c, j)
  {
    hide Orders;
    var l := 2 * i + 1;
    var r := 2 * i + 2;
    if l < |s| {
      OrderFacts(cmp, s[l], s[i], s[l]);
      OrderFacts(cmp, s[i], s[l], s[i]);
      if r < |s| {
        OrderFacts(cmp, s[r], s[l], s[i]);
        OrderFacts(cmp, s[r], s[i], s[l]);
        OrderFacts(cmp, s[l], s[r], s[i]);
      }
    }
    forall j: nat | 0 < j < |s| && Parent(j) == i
      ensures if c == i then AtMost(cmp, s, i, j) else AtMost(cmp, s, c, j)
    {
      assert j == l || j == r;
    }
  }

  lemma AppendedLast<T>(cmp: (T, T) -> int, before: seq<T>, x: T)
    requires HeapOrdered(cmp, before)
    ensures AllButUp(cmp, before + [x], |before|)
  {
    var s := before + [x];
    forall j: nat | 0 < j < |s| && j != |before|
      ensures AtMost(cmp, s, Parent(j), j)
    {
      assert AtMost(cmp, before, Parent(j), j);
    }
  }

  // Moving the last element over the root removes the root and disturbs the order only there.
  lemma LastToFront<T>(cmp: (T, T) -> int, before: seq<T>, after: seq<T>)
    requires |before| > 0 && HeapOrdered(cmp, before)
    requires after == if |before| == 1 then [] else [before[|before| - 1]] + before[1..|before| - 1]
    ensures AllButDown(cmp, after, 0)
    ensures multiset(after) + multiset{before[0]} == multiset(before)
  {
    if |before| > 1 {
      assert before == [before[0]] + before[1..|before| - 1] + [before[|before| - 1]];
      forall j: nat | 0 < j < |after| && Parent(j) != 0
        ensures AtMost(cmp, after, Parent(j), j)
      {
        assert AtMost(cmp, before, Parent(j), j);
      }
    } else {
      assert before == [before[0]];
    }
  }

  class MinHeap<T(!new, 0)> {
    const threads: array<T>
    var size: nat
    const cmp: (T, T) -> int

    ghost predicate Valid()
      reads this, threads
    {
      && threads.Length == MAX_THREADS && size <= MAX_THREADS
      && Orders(cmp)
      && HeapOrdered(cmp, Items())
    }

    ghost function Items(): seq<T>
      requires threads.Length == MAX_THREADS && size <= MAX_THREADS
      reads this, threads
    {
      threads[..size]
    }

    // init_heap
    constructor (cmp: (T, T) -> int)
      requires Orders(cmp)
      ensures Valid() && Items() == [] && this.cmp == cmp && fresh(threads)
    {
      threads := new T[MAX_THREADS];
      size := 0;
      this.cmp := cmp;
    }

    // heap_push
    method Push(thread: T)
      requires Valid() && size < MAX_THREADS
      modifies this, threads
      ensures Valid() && size == old(size) + 1
      ensures multiset(Items()) == old(multiset(Items())) + multiset{thread}
    {
      var i := size;
      hide Orders, AllButUp, AtMost, Swap;
      ghost var before := threads[..size];
      threads[i] := thread;
      size := size + 1;
      assert threads[..size] == before + [thread];
      AppendedLast(cmp, before, thread);
      while i > 0
        invariant i < size <= MAX_THREADS && size == old(size) + 1
        invariant AllButUp(cmp, threads[..size], i)
        invariant multiset(threads[..size]) == multiset(before) + multiset{thread}
      {
        var parent := (i - 1) / 2;
        if cmp(threads[i], threads[parent]) < 0 {
          SwapUp(cmp, threads[..size], i);
          SwapKeepsElements(threads[..size], i, parent);
          SwapInPlace(threads, size, i, parent);
          i := parent;
        } else {
          break;
        }
      }
      SettledUp(cmp, threads[..size], i);
    }

    // The smallest of element i and its children, i itself when neither child is smaller.
    method SmallestOf(i: nat) returns (smallest: nat)
      requires threads.Length == MAX_THREADS && size <= MAX_THREADS && Orders(cmp)
      requires AllButDown(cmp, Items(), i) && (i < size || size == 0 == i)
      ensures smallest == i ==> HeapOrdered(cmp, Items())
      ensures smallest != i ==> 0 < smallest < size && Parent(smallest) == i && cmp(threads[smallest], threads[i]) < 0
      ensures smallest != i ==> forall j: nat :: 0 < j < size && Parent(j) == i ==> AtMost(cmp, Items(), smallest, j)
    {
      var left := 2 * i + 1;
      var right := 2 * i + 2;
      smallest := i;
      if left < size && cmp(threads[left], threads[smallest]) < 0 {
        smallest := left;
      }
      if right < size && cmp(threads[right], threads[smallest]) < 0 {
        smallest := right;
      }
      SmallestChild(cmp, threads[..size], i, smallest);
    }

    // heap_pop, from a heap that is not empty
    method Pop() returns (min: T)
      requires Valid() && size > 0
      modifies this, threads
      ensures Valid() && size == old(size) - 1
      ensures multiset(Items()) + multiset{min} == old(multiset(Items()))
      ensures forall x :: x in old(Items()) ==> cmp(min, x) <= 0
    {
      hide Orders, AllButDown, AtMost, Swap;
      min := threads[0];
      ghost var before := threads[..size];
      forall x | x in before
        ensures cmp(min, x) <= 0
      {
        var j: nat :| j < |before| && before[j] == x;
        RootIsMinimum(cmp, before, j);
        AtMostIs(cmp, before, 0, j);
      }
      size := size - 1;
      threads[0] := threads[size];
      LastToFront(cmp, before, threads[..size]);
      var i := 0;
      while true
        invariant 0 <= i && (i < size || size == 0 == i) && size == old(size) - 1
        invariant AllButDown(cmp, threads[..size], i)
        invariant multiset(threads[..size]) + multiset{min} == multiset(before)
        decreases size - i
      {
        ghost var s := threads[..size];
        var smallest := SmallestOf(i);
        if smallest == i {
          break;
        }
        SwapDown(cmp, s, i, smallest);
        SwapKeepsElements(s, i, smallest);
        SwapInPlace(threads, size, i, smallest);
        i := smallest;
      }
    }

    // is_empty_heap
    method IsEmpty() returns (empty: bool)
      requires Valid()
      ensures empty <==> Items() == []
    {
      empty := size == 0;
    }
  }

  ghost predicate SortedBy<T>(cmp: (T, T) -> int, s: seq<T>) {
    forall i, j :: 0 <= i < j < |s| ==> cmp(s[i], s[j]) <= 0
  }

  ghost predicate AllAtMost<T>(cmp: (T, T) -> int, s: seq<T>, m: multiset<T>) {
    forall i, y :: 0 <= i < |s| && y in m ==> cmp(s[i], y) <= 0
  }

  lemma SortedMore<T>(cmp: (T, T) -> int, s: seq<T>, min: T, m: multiset<T>, rest: multiset<T>)
    requires SortedBy(cmp, s) && AllAtMost(cmp, s, m) && rest + multiset{min} == m
    requires forall y :: y in m ==> cmp(min, y) <= 0
    ensures SortedBy(cmp, s + [min]) && AllAtMost(cmp, s + [min], rest)
  {
    assert min in m;
    assert forall y :: y in rest ==> y in m;
  }

  lemma DrainStart<T>(cmp: (T, T) -> int, m: multiset<T>)
    ensures SortedBy(cmp, []) && AllAtMost(cmp, [], m)
  {
  }

  // Popping a heap until it is empty returns its threads, smallest first.
  method Drain<T(!new, 0)>(heap: MinHeap<T>) returns (out: seq<T>)
    requires heap.Valid()
    modifies heap, heap.threads
    ensures heap.Valid() && heap.size == 0
    ensures multiset(out) == old(multiset(heap.Items())) && SortedBy(heap.cmp, out)
  {
    hide Orders, HeapOrdered, SortedBy, AllAtMost;
    out := [];
    DrainStart(heap.cmp, multiset(heap.Items()));
    while heap.size > 0
      invariant heap.Valid()
      invariant multiset(out) + multiset(heap.Items()) == old(multiset(heap.Items()))
      invariant SortedBy(heap.cmp, out) && AllAtMost(heap.cmp, out, multiset(heap.Items()))
    {
      ghost var before := heap.Items();
      var min := heap.Pop();
      assert forall y :: y in multiset(before) ==> y in before;
      SortedMore(heap.cmp, out, min, multiset(before), multiset(heap.Items()));
      out := out + [min];
    }
    assert heap.Items() == [];
  }

  // Pushing any threads and popping as many returns exactly them, smallest first.
  method SortThreads<T(!new, 0)>(heap: MinHeap<T>, threads: seq<T>) returns (out: seq<T>)
    requires heap.Valid() && heap.size == 0 && |threads| <= MAX_THREADS
    modifies heap, heap.threads
    ensures heap.Valid() && heap.size == 0
    ensures multiset(out) == multiset(threads) && SortedBy(heap.cmp, out)
  {
    hide Orders, HeapOrdered, SortedBy;
    for i := 0 to |threads|
      invariant heap.Valid() && heap.size == i
      invariant multiset(heap.Items()) == multiset(threads[..i])
    {
      heap.Push(threads[i]);
      assert threads[..i + 1] == threads[..i] + [threads[i]];
    }
    assert threads[..|threads|] == threads;
    out := Drain(heap);
  }

  // ----- psjf_cmp -----

  datatype Thread = Thread(id: int, elapsedQuanta: int)

  // The value of a C int that receives x.
  function ToInt(x: int): int {
    var u := x % 0x1_0000_0000;
    if u < 0x8000_0000 then u else u - 0x1_0000_0000
  }

  // psjf_cmp: fewer quanta first, then the smaller id; the differences are cut to an int.
  function PsjfCmp(a: Thread, b: Thread): int {
    if a.elapsedQuanta != b.elapsedQuanta then ToInt(a.elapsedQuanta - b.elapsedQuanta)
    else ToInt(a.id - b.id)
  }

  // The order psjf_cmp stands for.
  predicate Before(a: Thread, b: Thread) {
    a.elapsedQuanta < b.elapsedQuanta || (a.elapsedQuanta == b.elapsedQuanta && a.id < b.id)
  }

  type Job = t: Thread | 0 <= t.id < 0x8000_0000 && 0 <= t.elapsedQuanta < 0x8000_0000 witness Thread(0, 0)

  // As long as ids and quanta stay below 2^31, the cut loses nothing and the comparator is a
  // total order with no ties between different threads.
  lemma PsjfOrders()
    ensures forall a: Job, b: Job :: PsjfCmp(a, b) < 0 <==> Before(a, b)
    ensures forall a: Job, b: Job :: PsjfCmp(a, b) == 0 <==> a == b
    ensures Orders<Job>((a, b) => PsjfCmp(a, b))
  {
  }

  function Distance(x: int, y: int): nat {
    if x < y then y - x else x - y
  }

  // What the cut leaves of the distance between the deciding fields is less than 2^31, and not
  // nothing when the quanta differ.
  predicate Near(a: Thread, b: Thread) {
    if a.elapsedQuanta != b.elapsedQuanta then
      0 < Distance(a.elapsedQuanta, b.elapsedQuanta) % 0x1_0000_0000 < 0x8000_0000
    else Distance(a.id, b.id) < 0x8000_0000
  }

  lemma CutBothWays(d: int)
    requires d >= 0
    ensures ToInt(d) == if d % 0x1_0000_0000 < 0x8000_0000 then d % 0x1_0000_0000 else d % 0x1_0000_0000 - 0x1_0000_0000
    ensures ToInt(-d) == if d % 0x1_0000_0000 == 0 then 0
                         else if d % 0x1_0000_0000 <= 0x8000_0000 then -(d % 0x1_0000_0000)
                         else 0x1_0000_0000 - d % 0x1_0000_0000
  {
    var r: int := d % 0x1_0000_0000;
    var q: int := d / 0x1_0000_0000;
    assert d == q * 0x1_0000_0000 + r;
    if r == 0 {
      assert (-d) % 0x1_0000_0000 == 0;
    } else {
      assert -d == (-q - 1) * 0x1_0000_0000 + (0x1_0000_0000 - r);
    }
  }

  // For any quanta and 32-bit ids, the comparator tells both ways round who comes first exactly
  // when that is so.
  lemma PsjfExact(a: Thread, b: Thread)
    requires 0 <= a.id < 0x1_0000_0000 && 0 <= b.id < 0x1_0000_0000
    ensures (PsjfCmp(a, b) < 0 <==> Before(a, b)) && (PsjfCmp(b, a) < 0 <==> Before(b, a)) <==> Near(a, b)
  {
    hide ToInt;
    CutBothWays(Distance(a.elapsedQuanta, b.elapsedQuanta));
    CutBothWays(Distance(a.id, b.id));
  }

  // With quanta 2^31 apart, two threads are each smaller than the other.
  lemma PsjfOrderFails()
    ensures exists a: Thread, b: Thread :: PsjfCmp(a, b) < 0 && PsjfCmp(b, a) < 0
  {
    var a, b := Thread(1, 0), Thread(2, 0x8000_0000);
    assert PsjfCmp(a, b) < 0 && PsjfCmp(b, a) < 0;
  }
}
