# In-process task scheduler: a Dafny model of its scheduling engine

This project models the sequential scheduling engine of a small in-process task
scheduler. It has four parts, each in its own module:

- `Tasks` (task.dfy) models the task record and its `__lt__` ordering. Tasks are
  ordered by `(run_at, priority)`, earlier first, and the task id never breaks a tie.
- `PriorityQueues` (priority_queue.dfy) models the lock-protected `heapq` list as a
  binary min-heap held in a `seq<Task>`, with `push`, `pop` and `is_empty`. `pop`
  signals an empty queue with `None`.
- `Schedulers` (scheduler.dfy) models `schedule` and `get_ready_task`.
  `get_ready_task` pops the minimal task, hands it out when its run time has come,
  and otherwise pushes it back and returns `None`.
- `Workers` (worker.dfy) models `execute_task`. A call fails when the declared
  execution time is above 2 (the simulated failure) or negative (`time.sleep`
  raises). On failure the retry count grows by one, and
  the task is returned for resubmission only while that count is below the limit.
- `WorkerLoops` (worker_loop.dfy) models one pass of the worker loop of app.py,
  built from the three operations above.

`Wrappers` (wrappers.dfy) holds the `Option` type that stands for Python's `None`.

Every operation is a pure function on immutable values. The locks only make each
queue operation atomic, so each call is one state transition. The wall clock is
the parameter `now`, and `MAX_RETRIES` (from config.py) is the parameter
`maxRetries`. Times are whole numbers.

Behaviour of the code that the model keeps as written:

- Ties: `__lt__` has no id tie-break, so two tasks with equal run time and
  priority are incomparable. `pop` returns *a* minimal task; which of several
  equal-key tasks comes out first depends on the heap layout.
- Default run time: `run_at or time.time()` replaces a missing run time and
  also a supplied 0 by the creation time (`Tasks.ZeroRunAtIsReplaced`).
- Execution outcome: a call fails (`Workers.Fails`) when `execution_time > 2`,
  the simulated failure, and also when `execution_time < 0`, because
  `time.sleep` rejects a negative duration inside the same `try`. Otherwise it
  succeeds.
- Retry limit: `MAX_RETRIES` is never checked by the code. `ExecuteTask`
  accepts any limit; only the exact dispatch count `Workers.RetryBoundFromFresh`
  assumes a limit of at least 1.

## Model

| member | source | states |
|---|---|---|
| Tasks.NewTask | task.py:5-10 | A new task keeps the given id, priority and execution time and starts with 0 retries. A run time that is truthy in Python (`Tasks.Truthy`, task.py:9) is kept; a missing run time or 0 becomes `now`. |
| Tasks.DefaultRunAtIsEligible | task.py:9 | A task created without a run time is eligible at its creation time. |
| Tasks.ZeroRunAtIsReplaced | task.py:9 | Because of `run_at or now`, a run time of 0 gives the same task as no run time, with run time `now`. |
| Tasks.LessIsLexicographic | task.py:12-16 | `Tasks.Less`, the model of `__lt__` (task.py:12-16), coincides with the lexicographic order on the key pair (run time, priority). |
| Tasks.LessByRunAt | task.py:14-16 | When run times differ, `a < b` holds exactly when `a.run_at < b.run_at`, whatever the priorities. |
| Tasks.LessByPriority | task.py:13-15 | When run times are equal, `a < b` holds exactly when `a.priority < b.priority`. |
| Tasks.LessIsStrictWeakOrder | task.py:12-16 | `Less` is irreflexive, asymmetric and transitive, and incomparability is transitive. |
| Tasks.IncomparableIffSameKey | task.py:14-15 | Two tasks are incomparable exactly when their run times and priorities are both equal; ids play no part. |
| Tasks.LeqIsTotalPreorder | task.py:12-16 | "Not after" is reflexive, total and transitive: the order the heap relies on. |
| Tasks.EarlierIsEligible | task.py:14-16 | Run time is the primary key: a task that does not sort after an eligible task is itself eligible (eligibility is `run_at <= now`, `Schedulers.Eligible`, scheduler.py:13). |
| PriorityQueues.SiftUp | priority_queue.py:11 | Moving the new last element towards the root restores the heap property and keeps the same multiset of tasks. |
| PriorityQueues.SiftDown | priority_queue.py:16 | Moving the new root towards the leaves restores the heap property and keeps the same multiset of tasks. |
| PriorityQueues.LastToRoot | priority_queue.py:16 | Removing the last element and putting it in place of the root leaves one element fewer, removes exactly one occurrence of the old root, and breaks the heap property only below the root. |
| PriorityQueues.RootIsMinimal | priority_queue.py:16 | In a heap, no element sorts strictly before the root. |
| PriorityQueues.Empty | priority_queue.py:5-6 | A freshly constructed queue is a valid heap with no tasks. |
| PriorityQueues.IsEmpty | priority_queue.py:19-21 | `is_empty` is true exactly when the queue holds no task. |
| PriorityQueues.Push | priority_queue.py:9-11 | `push` keeps the heap valid and adds exactly one occurrence of the task. |
| PriorityQueues.Pop | priority_queue.py:13-17 | On an empty queue `pop` returns `None` and changes nothing. Otherwise it returns a task that no queued task sorts strictly before, removes exactly that one occurrence, and keeps the heap valid. |
| PriorityQueues.PopSignalsEmptyExactly | priority_queue.py:13-21 | `pop` returns `None` exactly when `is_empty` holds; otherwise the heap shrinks by one. |
| PriorityQueues.PushThenPopOnEmpty | priority_queue.py:5-21 | A fresh queue is empty. After one `push(t)` it is not. The matching `pop` returns `t` and leaves the queue empty again. |
| PriorityQueues.PushAll | priority_queue.py:9-11 | Pushing a sequence of tasks one by one keeps the heap valid and adds each task once: contents grow by exactly the multiset of the sequence. |
| PriorityQueues.PushAllThenPopAll | priority_queue.py:9-17 | Pushing any tasks into a fresh queue and popping until `None` returns exactly the pushed tasks, with the same multiplicities and count, in sorted order. |
| PriorityQueues.PopAll | priority_queue.py:13-17 | Popping until `None` yields every queued task exactly once (equal multisets), in sorted order. |
| Schedulers.NewScheduler | scheduler.py:5-6 | A new scheduler owns a valid, empty queue. |
| Schedulers.Schedule | scheduler.py:8-9 | `schedule(t)` adds one occurrence of `t` whatever its run time, with no eligibility check. |
| Schedulers.GetReadyTask | scheduler.py:11-17 | A returned task is eligible, is minimal among the tasks pending before the call, and is removed. `None` is returned exactly when no pending task is eligible, and then the pending tasks are unchanged. |
| Schedulers.ReleaseIfEligible | scheduler.py:13-17 | After the pop, the task is handed out if eligible; otherwise it is pushed back, the pending tasks are restored, and `None` means nothing is eligible. |
| Schedulers.NothingEligibleAfterMinimal | scheduler.py:13-17 | If a minimal task is not yet eligible, then no task in the queue is. |
| Schedulers.GetReadyTaskConserves | scheduler.py:12-17 | No task is lost or duplicated: pending tasks after the call, plus the returned task, equal pending tasks before. |
| Schedulers.GetReadyTaskOnEmpty | scheduler.py:12-17 | On an empty scheduler the result is `None` and the scheduler stays empty. |
| Schedulers.LoneTaskBecomesReady | scheduler.py:8-17 | A task submitted alone is withheld while its run time is in the future and is returned once `now` reaches it. |
| Schedulers.LowerPriorityFirst | scheduler.py:12-14 | Two eligible tasks with the same run time are pending, in either submission order: the one with the lower priority value is returned first. |
| Schedulers.SingleEligibleDispatchedOnce | scheduler.py:12-14 | With exactly one eligible task pending, the first of two successive calls receives it and the second receives `None`. |
| Schedulers.DispatchAll | scheduler.py:11-17 | Calling `get_ready_task` until `None` hands out eligible tasks in sorted order. Handed-out plus remaining equals the original pending tasks, and nothing eligible remains. |
| Schedulers.AscendingRunTimes | scheduler.py:11-17 | Once every pending task is eligible, all are handed out, and tasks with distinct run times come out in strictly ascending run time. |
| Workers.ExecuteTask | worker.py:4-21 | Success (`0 <= execution_time <= 2`) returns `None` with the task unchanged. Failure (`Workers.Fails`: `execution_time > 2` raises at worker.py:10-11, a negative duration raises in `time.sleep` at worker.py:7) adds exactly 1 to `retries` and returns the same task exactly when the new count is below the limit. |
| Workers.ExecuteTaskKeepsIdentity | worker.py:4-21 | Only `retries` changes, and it never decreases. A resubmitted task keeps id, priority, execution time and run time, so an eligible task stays eligible. |
| Workers.FailsOutsideZeroToTwo | worker.py:7-16 | A call adds a retry exactly when the execution time is negative (the sleep raises) or above 2 (the simulated failure), and leaves the task unchanged exactly when it lies in 0 to 2. |
| Workers.ExhaustedIsDropped | worker.py:16-21 | A failing task whose new retry count reaches the limit is dropped, never returned. |
| Workers.Dispatches | worker.py:16-19 | The states in which a task is handed to `execute_task` when every resubmission is dispatched again (app.py:12-16): it starts with the task itself and ends at the first call that returns `None`. |
| Workers.RetryBound | worker.py:16-19 | Redispatching every resubmission, a succeeding task runs once. An always-failing task runs `maxRetries - retries` times (at least once), its i-th run with `retries` increased by i. |
| Workers.RetryBoundFromFresh | worker.py:10-21 | An always-failing task with 0 retries and a limit of at least 1 is dispatched exactly `maxRetries` times, the last time with `maxRetries - 1` retries. That is `maxRetries - 1` resubmissions and never a further dispatch. |
| WorkerLoops.WorkerStep | app.py:12-16 | One worker pass removes the minimal eligible task, if there is one. It puts the task back at most once, as the same task with one more retry, and only while that count is below the limit. Otherwise the pending tasks are unchanged. |
| WorkerLoops.FinishStep | app.py:13-16 | After `get_ready_task`, execute the task and reschedule the returned task, if any. The pending tasks change only by that resubmission. |
| WorkerLoops.StepNeverGrows | app.py:12-16 | A worker pass never increases the number of pending tasks. |

## Left out

- Threads and locks. Each locked queue operation is atomic, so each is modelled as one sequential step. Interleavings of worker threads are not modelled.
- `time.time()` is the parameter `now`. `time.sleep` (the simulated work and the polling delay) has no effect on the state and is dropped, except that a negative duration raises and so makes `execute_task` fail (`Workers.Fails`).
- Float timestamps and execution times are modelled as integers.
- `uuid.uuid4()`: the task id is a natural number chosen by the caller. Distinct ids are not enforced.
- `print` logging has no behavioural effect.
- config.py is not part of this model. `MAX_RETRIES` is a parameter and `WORKER_COUNT` is not modelled.
- app.py's global scheduler, `main`, the daemon threads and the endless loop are left out. Only one loop pass is modelled (`WorkerLoops.WorkerStep`).
- Python's `heapq` internals are not mirrored. `pop` uses a top-down sift that always swaps with the smaller child, whereas `heapq` sifts bottom-up. Both return a minimal task and keep the heap valid, but among tasks with equal keys they may return different ones.
- Aliasing of task objects: `execute_task` increments `retries` on the object itself (worker.py:16). A task scheduled twice is modelled as two independent copies; in the source both queue entries share one retry counter, so the dispatch counts of `Workers.Dispatches` apply per object, not per copy.
- Exceptions other than the simulated failure and the negative sleep (for example from `print`) are not modelled. The source would count them as failures too.
