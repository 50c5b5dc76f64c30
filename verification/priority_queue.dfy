/**
 * The priority queue of priority_queue.py: a binary min-heap kept in a list,
 * ordered by `Tasks.Less`. The lock around each operation only makes it
 * atomic, so every operation is one state transition on an immutable value.
 */
module PriorityQueues {
  import opened Wrappers
  import opened Tasks

  /** The queue's list, kept in heap order. */
  datatype PriorityQueue = PriorityQueue(heap: seq<Task>)

  /** The tasks held, with their multiplicities. */
  function Contents(q: PriorityQueue): multiset<Task> {
    multiset(q.heap)
  }

  function Parent(i: nat): nat
    requires 0 < i
  {
    (i - 1) / 2
  }

  /** No element sorts strictly before its parent. */
  ghost predicate IsHeap(h: seq<Task>) {
    forall i | 0 < i < |h| :: Leq(h[Parent(i)], h[i])
  }

  /** The invariant every operation keeps. */
  ghost predicate Valid(q: PriorityQueue) {
    IsHeap(q.heap)
  }

  /** The children of `k` do not sort before the parent of `k`. */
  ghost predicate Bridged(h: seq<Task>, k: nat)
    requires k < |h|
  {
    0 < k ==> forall i | 0 < i < |h| && Parent(i) == k :: Leq(h[Parent(k)], h[i])
  }

  /** The heap property may fail only between `k` and its parent. */
  ghost predicate HeapBelowParentOf(h: seq<Task>, k: nat)
    requires k < |h|
  {
    && (forall i | 0 < i < |h| && i != k :: Leq(h[Parent(i)], h[i]))
    && Bridged(h, k)
  }

  /** The heap property may fail only between `k` and its children. */
  ghost predicate HeapAboveChildrenOf(h: seq<Task>, k: nat)
    requires k < |h|
  {
    && (forall i | 0 < i < |h| && Parent(i) != k :: Leq(h[Parent(i)], h[i]))
    && Bridged(h, k)
  }

  function Swap(h: seq<Task>, i: nat, j: nat): (r: seq<Task>)
    requires i < |h| && j < |h|
    ensures |r| == |h| && r[i] == h[j] && r[j] == h[i]
    ensures forall k | 0 <= k < |h| && k != i && k != j :: r[k] == h[k]
    ensures multiset(r) == multiset(h)
  {
    h[i := h[j]][j := h[i]]
  }

  /** Moves the element at `k` towards the root while it sorts strictly
      before its parent (heapq's `_siftdown`). */
  function SiftUp(h: seq<Task>, k: nat): (r: seq<Task>)
    requires k < |h| && HeapBelowParentOf(h, k)
    ensures IsHeap(r)
    ensures multiset(r) == multiset(h)
    decreases k
  {
    if k == 0 || !Less(h[k], h[Parent(k)]) then h
    else
      var p := Parent(k);
      SiftUpStep(h, k);
      SiftUp(Swap(h, k, p), p)
  }

  lemma SiftUpStep(h: seq<Task>, k: nat)
    requires k < |h| && HeapBelowParentOf(h, k)
    requires 0 < k && Less(h[k], h[Parent(k)])
    ensures HeapBelowParentOf(Swap(h, k, Parent(k)), Parent(k))
  {}

  /** Moves the element at `k` towards the leaves while a child sorts strictly
      before it, always swapping with the smaller child. */
  function SiftDown(h: seq<Task>, k: nat): (r: seq<Task>)
    requires k < |h| && HeapAboveChildrenOf(h, k)
    ensures IsHeap(r)
    ensures multiset(r) == multiset(h)
    decreases |h| - k
  {
    var l := 2 * k + 1;
    if l >= |h| then
      assert IsHeap(h) by {
        forall i | 0 < i < |h| ensures Leq(h[Parent(i)], h[i]) {
          assert Parent(i) != k;
        }
      }
      h
    else
      var m := if l + 1 < |h| && Less(h[l + 1], h[l]) then l + 1 else l;
      if Less(h[m], h[k]) then
        SiftDownStep(h, k, m);
        SiftDown(Swap(h, k, m), m)
      else
        SiftDownDone(h, k, m);
        h
  }

  lemma SiftDownStep(h: seq<Task>, k: nat, m: nat)
    requires k < |h| && HeapAboveChildrenOf(h, k)
    requires 2 * k + 1 < |h|
    requires m == if 2 * k + 2 < |h| && Less(h[2 * k + 2], h[2 * k + 1]) then 2 * k + 2 else 2 * k + 1
    requires Less(h[m], h[k])
    ensures m < |h| && HeapAboveChildrenOf(Swap(h, k, m), m)
  {
    var h' := Swap(h, k, m);
    assert Parent(m) == k;
    forall i | 0 < i < |h'| && Parent(i) != m
      ensures Leq(h'[Parent(i)], h'[i])
    {
      if i == m {
      } else if i == k {
        assert Leq(h[Parent(k)], h[m]);
      } else if Parent(i) == k {
        // the other child: h[m] is the smaller child
        assert Leq(h[m], h[i]);
      } else {
        assert Leq(h[Parent(i)], h[i]);
      }
    }
    forall i | 0 < i < |h'| && Parent(i) == m
      ensures Leq(h'[Parent(m)], h'[i])
    {
      assert Leq(h[m], h[i]);
    }
  }

  lemma SiftDownDone(h: seq<Task>, k: nat, m: nat)
    requires k < |h| && HeapAboveChildrenOf(h, k)
    requires 2 * k + 1 < |h|
    requires m == if 2 * k + 2 < |h| && Less(h[2 * k + 2], h[2 * k + 1]) then 2 * k + 2 else 2 * k + 1
    requires !Less(h[m], h[k])
    ensures IsHeap(h)
  {
    forall i | 0 < i < |h| ensures Leq(h[Parent(i)], h[i]) {
      if Parent(i) == k {
        ChildrenOf(i, k);
        assert Leq(h[m], h[i]);
        LeqIsTotalPreorder(h[k], h[m], h[i]);
      }
    }
  }

  /** The children of `k` are `2k + 1` and `2k + 2`. */
  lemma ChildrenOf(i: nat, k: nat)
    requires 0 < i
    ensures Parent(i) == k <==> i == 2 * k + 1 || i == 2 * k + 2
  {}

  /** The root of a heap sorts no later than any element. */
  lemma {:induction false} RootIsMinimal(h: seq<Task>, i: nat)
    requires IsHeap(h) && i < |h|
    ensures Leq(h[0], h[i])
    decreases i
  {
    if 0 < i {
      RootIsMinimal(h, Parent(i));
      assert Leq(h[Parent(i)], h[i]);
    }
  }

  /** `PriorityQueue()`: a fresh queue holds nothing. */
  function Empty(): (q: PriorityQueue)
    ensures Valid(q) && Contents(q) == multiset{}
  {
    PriorityQueue([])
  }

  /** `is_empty`: true exactly when the queue holds no task. */
  function IsEmpty(q: PriorityQueue): (r: bool)
    ensures r <==> Contents(q) == multiset{}
  {
    |q.heap| == 0
  }

  /** `push`: adds exactly one occurrence of `t`. */
  function Push(q: PriorityQueue, t: Task): (r: PriorityQueue)
    requires Valid(q)
    ensures Valid(r)
    ensures Contents(r) == Contents(q) + multiset{t}
  {
    var h := q.heap + [t];
    assert HeapBelowParentOf(h, |q.heap|) by {
      forall i | 0 < i < |h| && Parent(i) == |q.heap| ensures false {}
    }
    PriorityQueue(SiftUp(h, |q.heap|))
  }

  /** What `pop` returns, together with the queue it leaves behind. */
  datatype Popped = Popped(task: Option<Task>, queue: PriorityQueue)

  /** `pop`: `None` on an empty queue, otherwise removes and returns one
      occurrence of a task that no queued task sorts strictly before. */
  function Pop(q: PriorityQueue): (r: Popped)
    requires Valid(q)
    ensures Valid(r.queue)
    ensures IsEmpty(q) ==> r.task == None && r.queue == q
    ensures !IsEmpty(q) ==> r.task.Some? && IsMinimal(r.task.value, Contents(q))
    ensures !IsEmpty(q) ==> Contents(r.queue) == Contents(q) - multiset{r.task.value}
  {
    var h := q.heap;
    if |h| == 0 then Popped(None, q)
    else
      HeapRootIsMinimal(h);
      if |h| == 1 then
        assert h == [h[0]];
        Popped(Some(h[0]), Empty())
      else
        var h' := LastToRoot(h);
        Popped(Some(h[0]), PriorityQueue(SiftDown(h', 0)))
  }

  lemma HeapRootIsMinimal(h: seq<Task>)
    requires IsHeap(h) && 0 < |h|
    ensures IsMinimal(h[0], multiset(h))
  {
    forall x | x in multiset(h) ensures !Less(x, h[0]) {
      var i :| 0 <= i < |h| && h[i] == x;
      RootIsMinimal(h, i);
    }
  }

  /** Drops the last element and puts it in place of the root. */
  function LastToRoot(h: seq<Task>): (r: seq<Task>)
    requires IsHeap(h) && 1 < |h|
    ensures |r| == |h| - 1 && HeapAboveChildrenOf(r, 0)
    ensures multiset(r) == multiset(h) - multiset{h[0]}
  {
    var last := h[|h| - 1];
    var rest := h[..|h| - 1];
    assert h == rest + [last];
    var r := rest[0 := last];
    assert HeapAboveChildrenOf(r, 0) by {
      forall i | 0 < i < |r| && Parent(i) != 0 ensures Leq(r[Parent(i)], r[i]) {
        assert Leq(h[Parent(i)], h[i]);
      }
    }
    r
  }

  /** `pop` and `is_empty` agree: the queue signals empty exactly when it is. */
  lemma PopSignalsEmptyExactly(q: PriorityQueue)
    requires Valid(q)
    ensures Pop(q).task.None? <==> IsEmpty(q)
    ensures |Pop(q).queue.heap| == if IsEmpty(q) then 0 else |q.heap| - 1
  {}

  /** A fresh queue is empty; after one push it is not; after the matching pop
      it returns the pushed task and is empty again. */
  lemma PushThenPopOnEmpty(t: Task)
    ensures IsEmpty(Empty())
    ensures !IsEmpty(Push(Empty(), t))
    ensures Pop(Push(Empty(), t)).task == Some(t)
    ensures IsEmpty(Pop(Push(Empty(), t)).queue)
  {}

  /** Popping until empty yields every queued task once, in sorted order. */
  function PopAll(q: PriorityQueue): (r: seq<Task>)
    requires Valid(q)
    ensures multiset(r) == Contents(q)
    ensures Sorted(r)
    decreases |q.heap|
  {
    var p := Pop(q);
    if p.task.None? then []
    else
      PopSignalsEmptyExactly(q);
      var tail := PopAll(p.queue);
      PrependMinimal(p.task.value, tail, Contents(q));
      [p.task.value] + tail
  }

  /** Pushing the tasks of `ts` one after another adds each of them once. */
  function PushAll(q: PriorityQueue, ts: seq<Task>): (r: PriorityQueue)
    requires Valid(q)
    ensures Valid(r)
    ensures Contents(r) == Contents(q) + multiset(ts)
    decreases |ts|
  {
    if |ts| == 0 then q
    else
      assert ts == [ts[0]] + ts[1..];
      PushAll(Push(q, ts[0]), ts[1..])
  }

  /** Pushing any tasks into a fresh queue and popping until it is empty gives
      back exactly those tasks, each as often as it was pushed, in sorted order. */
  lemma PushAllThenPopAll(ts: seq<Task>)
    ensures var out := PopAll(PushAll(Empty(), ts));
      multiset(out) == multiset(ts) && |out| == |ts| && Sorted(out)
  {}

  /** A minimal task placed before a sorted selection of the rest keeps it sorted. */
  lemma PrependMinimal(t: Task, tail: seq<Task>, m: multiset<Task>)
    requires IsMinimal(t, m) && Sorted(tail)
    requires multiset(tail) == m - multiset{t}
    ensures Sorted([t] + tail)
    ensures multiset([t] + tail) == m
  {}
}
