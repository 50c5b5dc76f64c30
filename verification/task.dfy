/**
 * Tasks and the single ordering the scheduler ever uses (task.py).
 *
 * Times are whole numbers here; the source uses float seconds from the
 * wall clock, which is passed in as `now` wherever the source reads it.
 */
module Tasks {
  import opened Wrappers

  /** Task identity. The source draws a random UUID; here the caller supplies it. */
  type TaskId = nat

  /** A unit of work: its identity, its priority (lower value first), the
      declared execution time, the earliest time it may run, and how many
      times it has failed so far. */
  datatype Task = Task(id: TaskId, priority: int, executionTime: int, runAt: int, retries: nat)

  /** Python truthiness of the optional `run_at` argument: `None` and `0` are falsy. */
  predicate Truthy(runAt: Option<int>) {
    runAt.Some? && runAt.value != 0
  }

  /** `Task(priority, execution_time, run_at)`. The run time is `run_at or now`,
      so a missing run time and also a supplied 0 both become the creation time. */
  function NewTask(id: TaskId, priority: int, executionTime: int, runAt: Option<int>, now: int): (t: Task)
    ensures t.id == id && t.priority == priority && t.executionTime == executionTime
    ensures t.retries == 0
    ensures Truthy(runAt) ==> t.runAt == runAt.value
    ensures !Truthy(runAt) ==> t.runAt == now
  {
    Task(id, priority, executionTime, if Truthy(runAt) then runAt.value else now, 0)
  }

  /** A task created without a run time may run at once. */
  lemma DefaultRunAtIsEligible(id: TaskId, priority: int, executionTime: int, now: int)
    ensures NewTask(id, priority, executionTime, None, now).runAt <= now
  {}

  /** Because the source writes `run_at or now`, a supplied run time of 0 is
      replaced by the creation time, exactly like a missing one. */
  lemma ZeroRunAtIsReplaced(id: TaskId, priority: int, executionTime: int, now: int)
    ensures NewTask(id, priority, executionTime, Some(0), now)
         == NewTask(id, priority, executionTime, None, now)
    ensures NewTask(id, priority, executionTime, Some(0), now).runAt == now
  {}

  /** `Task.__lt__`: the earlier run time first; on equal run times the lower
      priority value first. The task id never breaks a tie. */
  predicate Less(a: Task, b: Task) {
    if a.runAt == b.runAt then a.priority < b.priority else a.runAt < b.runAt
  }

  /** `b` does not sort strictly before `a`. */
  predicate Leq(a: Task, b: Task) {
    !Less(b, a)
  }

  /** An independent statement of the order: lexicographic on the key pair
      (run time, priority). */
  predicate KeyBefore(a: Task, b: Task) {
    a.runAt < b.runAt || (a.runAt == b.runAt && a.priority < b.priority)
  }

  lemma LessIsLexicographic(a: Task, b: Task)
    ensures Less(a, b) <==> KeyBefore(a, b)
  {}

  /** Different run times: the run time alone decides, priority is ignored. */
  lemma LessByRunAt(a: Task, b: Task)
    requires a.runAt != b.runAt
    ensures Less(a, b) <==> a.runAt < b.runAt
  {}

  /** Equal run times: the lower priority value comes first. */
  lemma LessByPriority(a: Task, b: Task)
    requires a.runAt == b.runAt
    ensures Less(a, b) <==> a.priority < b.priority
  {}

  /** The order is a strict weak order: irreflexive, asymmetric, transitive,
      and incomparability is transitive too. The heap relies on this. */
  lemma LessIsStrictWeakOrder(a: Task, b: Task, c: Task)
    ensures !Less(a, a)
    ensures Less(a, b) ==> !Less(b, a)
    ensures Less(a, b) && Less(b, c) ==> Less(a, c)
    ensures !Less(a, b) && !Less(b, a) && !Less(b, c) && !Less(c, b) ==> !Less(a, c) && !Less(c, a)
  {}

  /** Two tasks are incomparable exactly when both keys agree, whatever their ids. */
  lemma IncomparableIffSameKey(a: Task, b: Task)
    ensures (!Less(a, b) && !Less(b, a)) <==> (a.runAt == b.runAt && a.priority == b.priority)
  {}

  /** `Leq` is a total preorder. */
  lemma LeqIsTotalPreorder(a: Task, b: Task, c: Task)
    ensures Leq(a, a)
    ensures Leq(a, b) || Leq(b, a)
    ensures Leq(a, b) && Leq(b, c) ==> Leq(a, c)
  {}

  /** The run time is the primary key: a task that does not sort after an
      eligible task is eligible too. */
  lemma EarlierIsEligible(a: Task, b: Task, now: int)
    requires Leq(a, b) && b.runAt <= now
    ensures a.runAt <= now
  {}

  /** `t` is among `m` and nothing in `m` sorts strictly before it. */
  ghost predicate IsMinimal(t: Task, m: multiset<Task>) {
    t in m && forall x | x in m :: !Less(x, t)
  }

  /** Each task of `s` sorts no later than every task after it. */
  ghost predicate Sorted(s: seq<Task>) {
    forall i, j | 0 <= i < j < |s| :: Leq(s[i], s[j])
  }
}
