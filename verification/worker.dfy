/**
 * `execute_task` of worker.py: run a task, and on failure count the failure
 * and decide whether the task goes back to the scheduler. Of the sleep that
 * stands for the work only its rejection of a negative duration is kept; the
 * log lines are left out; MAX_RETRIES is the parameter `maxRetries`.
 */
module Workers {
  import opened Wrappers
  import opened Tasks

  /** Tasks whose declared execution time exceeds this fail (the simulated failure). */
  const FailureThreshold: int := 2

  /** The call ends in the `except` branch: either the sleep standing for the
      work rejects a negative duration, or the simulated failure is raised. */
  predicate Fails(t: Task) {
    t.executionTime < 0 || t.executionTime > FailureThreshold
  }

  /** The task as it stands after the call (the source mutates it in place) and
      what the call returns: the same task to be resubmitted, or `None`. */
  datatype Execution = Execution(task: Task, resubmit: Option<Task>)

  /** `execute_task`: success leaves the task alone and returns `None`; failure
      adds one to `retries` and returns the task only while the new count is
      below the limit. Nothing but `retries` ever changes. */
  function ExecuteTask(t: Task, maxRetries: int): (e: Execution)
    ensures !Fails(t) ==> e == Execution(t, None)
    ensures Fails(t) ==> e.task == t.(retries := t.retries + 1)
    ensures Fails(t) ==> (e.resubmit.Some? <==> t.retries + 1 < maxRetries)
    ensures e.resubmit.Some? ==> e.resubmit.value == e.task && e.task.retries < maxRetries
  {
    if !Fails(t) then Execution(t, None)
    else
      var failed := t.(retries := t.retries + 1);
      if failed.retries < maxRetries then Execution(failed, Some(failed))
      else Execution(failed, None)
  }

  /** `retries` never decreases, and only `retries` changes, so a resubmitted
      task keeps its identity, priority and run time and is eligible at once
      again whenever it was eligible before. */
  lemma ExecuteTaskKeepsIdentity(t: Task, maxRetries: int, now: int)
    ensures var e := ExecuteTask(t, maxRetries);
      && e.task.retries >= t.retries
      && e.task.(retries := t.retries) == t
      && (t.runAt <= now ==> e.task.runAt <= now)
  {}

  /** A call counts a failure exactly when the execution time lies outside
      0 to 2: a negative duration fails in the sleep, one above 2 in the
      simulated failure. */
  lemma FailsOutsideZeroToTwo(t: Task, maxRetries: int)
    ensures ExecuteTask(t, maxRetries).task.retries == t.retries + 1
        <==> t.executionTime < 0 || 2 < t.executionTime
    ensures ExecuteTask(t, maxRetries).task == t <==> 0 <= t.executionTime <= 2
  {}

  /** A task reaching the limit is never resubmitted. */
  lemma ExhaustedIsDropped(t: Task, maxRetries: int)
    requires Fails(t) && t.retries + 1 >= maxRetries
    ensures ExecuteTask(t, maxRetries).resubmit == None
    ensures ExecuteTask(t, maxRetries).task.retries == t.retries + 1
  {}

  /** The successive states in which the task is handed to `execute_task` when
      every resubmission is dispatched again: it starts with `t` and stops at the
      first call that returns `None`. */
  function Dispatches(t: Task, maxRetries: int): (r: seq<Task>)
    ensures 0 < |r| && r[0] == t
    decreases maxRetries - t.retries
  {
    var e := ExecuteTask(t, maxRetries);
    match e.resubmit
    case None => [t]
    case Some(next) => [t] + Dispatches(next, maxRetries)
  }

  /** A task that succeeds is dispatched once. A task that always fails is
      dispatched once per remaining retry, the i-th time with `retries` grown by
      i: from `retries == 0` and a limit of at least 1, that is `maxRetries`
      dispatches and `maxRetries - 1` resubmissions. */
  lemma {:induction false} RetryBound(t: Task, maxRetries: int)
    ensures !Fails(t) ==> Dispatches(t, maxRetries) == [t]
    ensures Fails(t) ==> |Dispatches(t, maxRetries)| == if t.retries < maxRetries then maxRetries - t.retries else 1
    ensures Fails(t) ==> forall i | 0 <= i < |Dispatches(t, maxRetries)| ::
      Dispatches(t, maxRetries)[i] == t.(retries := t.retries + i)
    decreases maxRetries - t.retries
  {
    var e := ExecuteTask(t, maxRetries);
    if e.resubmit.Some? {
      var next := e.resubmit.value;
      RetryBound(next, maxRetries);
      var d := Dispatches(t, maxRetries);
      assert d == [t] + Dispatches(next, maxRetries);
      if Fails(t) {
        forall i | 0 < i < |d| ensures d[i] == t.(retries := t.retries + i) {
          assert d[i] == Dispatches(next, maxRetries)[i - 1];
        }
      }
    }
  }

  /** A task that always fails, starting with no retries under a limit of at
      least 1, is dispatched exactly `maxRetries` times, the last time with
      `maxRetries - 1` retries: `maxRetries - 1` resubmissions, then it is dropped. */
  lemma RetryBoundFromFresh(t: Task, maxRetries: int)
    requires Fails(t) && t.retries == 0 && 1 <= maxRetries
    ensures |Dispatches(t, maxRetries)| == maxRetries
    ensures Dispatches(t, maxRetries)[maxRetries - 1].retries == maxRetries - 1
  {
    RetryBound(t, maxRetries);
  }
}
