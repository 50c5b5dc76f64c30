/**
 * One pass of the worker loop of app.py: take a ready task, execute it, and
 * resubmit it when execution asks for that. The threads, the endless loop and
 * the half-second sleep are left out; each pass is one atomic step here.
 */
module WorkerLoops {
  import opened Wrappers
  import opened Tasks
  import opened Schedulers
  import opened Workers

  /** The scheduler after the pass, the task handed out (if any) and the task
      put back into the scheduler (if any). */
  datatype Step = Step(scheduler: Scheduler, dispatched: Option<Task>, resubmitted: Option<Task>)

  /** The pending tasks after a pass are those before, minus the task handed
      out, plus the task put back. */
  function AfterStep(before: multiset<Task>, dispatched: Option<Task>, resubmitted: Option<Task>): multiset<Task> {
    (if dispatched.Some? then before - multiset{dispatched.value} else before)
    + (if resubmitted.Some? then multiset{resubmitted.value} else multiset{})
  }

  /** `worker_loop` body: `get_ready_task`; if a task came back, `execute_task`
      it; if that returned the task, `schedule` it again. A pass never
      duplicates a task: the one handed out comes back at most once, as its
      own retried state, and only while its retry budget lasts. */
  function WorkerStep(s: Scheduler, now: int, maxRetries: int): (r: Step)
    requires ValidScheduler(s)
    ensures ValidScheduler(r.scheduler)
    ensures Pending(r.scheduler) == AfterStep(Pending(s), r.dispatched, r.resubmitted)
    ensures r.dispatched.None? <==> forall x | x in Pending(s) :: !Eligible(x, now)
    ensures r.dispatched.None? ==> r.resubmitted.None?
    ensures r.dispatched.Some? ==> IsMinimal(r.dispatched.value, Pending(s)) && Eligible(r.dispatched.value, now)
    ensures r.resubmitted.Some? ==>
      && Fails(r.dispatched.value)
      && r.resubmitted.value == r.dispatched.value.(retries := r.dispatched.value.retries + 1)
      && r.resubmitted.value.retries < maxRetries
    ensures r.dispatched.Some? && Fails(r.dispatched.value) && r.dispatched.value.retries + 1 < maxRetries
      ==> r.resubmitted.Some?
  {
    FinishStep(s, GetReadyTask(s, now), maxRetries)
  }

  /** The part of a pass after `get_ready_task` returned `d`. */
  function FinishStep(s: Scheduler, d: Dispatch, maxRetries: int): (r: Step)
    requires ValidScheduler(d.scheduler)
    requires d.task.None? ==> Pending(d.scheduler) == Pending(s)
    requires d.task.Some? ==> Pending(d.scheduler) == Pending(s) - multiset{d.task.value}
    ensures ValidScheduler(r.scheduler)
    ensures Pending(r.scheduler) == AfterStep(Pending(s), r.dispatched, r.resubmitted)
    ensures r.dispatched == d.task
    ensures r.dispatched.None? ==> r.resubmitted.None?
    ensures r.resubmitted.Some? ==>
      && Fails(r.dispatched.value)
      && r.resubmitted.value == r.dispatched.value.(retries := r.dispatched.value.retries + 1)
      && r.resubmitted.value.retries < maxRetries
    ensures r.dispatched.Some? && Fails(r.dispatched.value) && r.dispatched.value.retries + 1 < maxRetries
      ==> r.resubmitted.Some?
  {
    match d.task
    case None => Step(d.scheduler, None, None)
    case Some(t) =>
      var e := ExecuteTask(t, maxRetries);
      match e.resubmit
      case None => Step(d.scheduler, Some(t), None)
      case Some(again) => Step(Schedule(d.scheduler, again), Some(t), Some(again))
  }

  /** A pass never adds a task: the queue does not grow. */
  lemma StepNeverGrows(s: Scheduler, now: int, maxRetries: int)
    requires ValidScheduler(s)
    ensures |Pending(WorkerStep(s, now, maxRetries).scheduler)| <= |Pending(s)|
  {}
}
