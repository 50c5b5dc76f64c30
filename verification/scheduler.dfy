/**
 * The scheduler of scheduler.py: one priority queue plus the
 * pop / check eligibility / push back policy of `get_ready_task`.
 * The wall clock the source reads is the parameter `now`.
 */
module Schedulers {
  import opened Wrappers
  import opened Tasks
  import opened PriorityQueues

  datatype Scheduler = Scheduler(queue: PriorityQueue)

  /** The tasks waiting in the scheduler. */
  function Pending(s: Scheduler): multiset<Task> {
    Contents(s.queue)
  }

  ghost predicate ValidScheduler(s: Scheduler) {
    Valid(s.queue)
  }

  /** A task may be handed out at time `now`. */
  predicate Eligible(t: Task, now: int) {
    t.runAt <= now
  }

  /** `Scheduler()`: a scheduler around a fresh queue. */
  function NewScheduler(): (s: Scheduler)
    ensures ValidScheduler(s) && Pending(s) == multiset{}
  {
    Scheduler(Empty())
  }

  /** `schedule`: admits `t` whatever its run time; nothing is checked at submission. */
  function Schedule(s: Scheduler, t: Task): (r: Scheduler)
    requires ValidScheduler(s)
    ensures ValidScheduler(r)
    ensures Pending(r) == Pending(s) + multiset{t}
  {
    Scheduler(Push(s.queue, t))
  }

  /** What `get_ready_task` returns, together with the scheduler it leaves behind. */
  datatype Dispatch = Dispatch(task: Option<Task>, scheduler: Scheduler)

  /** `get_ready_task`: pops the minimal task; hands it out when its run time has
      come, otherwise pushes it back and returns `None`. Since the run time is
      the primary key, `None` means that no pending task is eligible. */
  function GetReadyTask(s: Scheduler, now: int): (r: Dispatch)
    requires ValidScheduler(s)
    ensures ValidScheduler(r.scheduler)
    ensures r.task.None? <==> forall x | x in Pending(s) :: !Eligible(x, now)
    ensures r.task.None? ==> Pending(r.scheduler) == Pending(s)
    ensures r.task.Some? ==> Eligible(r.task.value, now)
    ensures r.task.Some? ==> IsMinimal(r.task.value, Pending(s))
    ensures r.task.Some? ==> Pending(r.scheduler) == Pending(s) - multiset{r.task.value}
  {
    ReleaseIfEligible(s, Pop(s.queue), now)
  }

  /** The second half of `get_ready_task`, given what `pop` returned: the task
      if its run time has come, otherwise `None` with the task pushed back. */
  function ReleaseIfEligible(s: Scheduler, p: Popped, now: int): (r: Dispatch)
    requires Valid(p.queue)
    requires p.task.None? ==> Pending(s) == multiset{} && Contents(p.queue) == multiset{}
    requires p.task.Some? ==> IsMinimal(p.task.value, Pending(s))
    requires p.task.Some? ==> Contents(p.queue) == Pending(s) - multiset{p.task.value}
    ensures ValidScheduler(r.scheduler)
    ensures r.task.None? <==> forall x | x in Pending(s) :: !Eligible(x, now)
    ensures r.task.None? ==> Pending(r.scheduler) == Pending(s)
    ensures r.task.Some? ==> r.task == p.task && Eligible(r.task.value, now)
    ensures r.task.Some? ==> Pending(r.scheduler) == Pending(s) - multiset{r.task.value}
  {
    match p.task
    case None => Dispatch(None, Scheduler(p.queue))
    case Some(t) =>
      if Eligible(t, now) then Dispatch(Some(t), Scheduler(p.queue))
      else
        NothingEligibleAfterMinimal(t, Pending(s), now);
        assert Contents(p.queue) + multiset{t} == Pending(s);
        Dispatch(None, Scheduler(Push(p.queue, t)))
  }

  /** When a minimal task is not yet eligible, no task is. */
  lemma NothingEligibleAfterMinimal(t: Task, m: multiset<Task>, now: int)
    requires IsMinimal(t, m) && !Eligible(t, now)
    ensures forall x | x in m :: !Eligible(x, now)
  {}

  /** No task is lost or duplicated: the pending tasks afterwards plus the task
      handed out, if any, are exactly the pending tasks before. */
  lemma GetReadyTaskConserves(s: Scheduler, now: int)
    requires ValidScheduler(s)
    ensures var r := GetReadyTask(s, now);
      Pending(r.scheduler) + (if r.task.Some? then multiset{r.task.value} else multiset{}) == Pending(s)
  {}

  /** On an empty scheduler `get_ready_task` returns `None` and it stays empty. */
  lemma GetReadyTaskOnEmpty(now: int)
    ensures GetReadyTask(NewScheduler(), now).task == None
    ensures Pending(GetReadyTask(NewScheduler(), now).scheduler) == multiset{}
  {}

  /** A task submitted alone is withheld until its run time and handed out from then on. */
  lemma LoneTaskBecomesReady(t: Task, now: int)
    ensures GetReadyTask(Schedule(NewScheduler(), t), now).task == if Eligible(t, now) then Some(t) else None
  {}

  /** Of two eligible tasks with the same run time pending, the one with the
      lower priority value is handed out first, whatever their submission order. */
  lemma LowerPriorityFirst(s: Scheduler, a: Task, b: Task, now: int)
    requires ValidScheduler(s) && Pending(s) == multiset{a, b}
    requires a.runAt == b.runAt && a.priority < b.priority && Eligible(a, now)
    ensures GetReadyTask(s, now).task == Some(a)
  {}

  /** With exactly one eligible task pending, two successive calls at the same
      time hand it out once: the first call gets it, the second gets `None`. */
  lemma SingleEligibleDispatchedOnce(s: Scheduler, e: Task, now: int)
    requires ValidScheduler(s)
    requires Eligible(e, now) && Pending(s)[e] == 1
    requires forall x | x in Pending(s) && x != e :: !Eligible(x, now)
    ensures GetReadyTask(s, now).task == Some(e)
    ensures GetReadyTask(GetReadyTask(s, now).scheduler, now).task == None
  {
    var r := GetReadyTask(s, now);
    var r2 := GetReadyTask(r.scheduler, now);
    assert r.task.Some?;
    assert Pending(r.scheduler) == Pending(s) - multiset{e};
    assert forall x | x in Pending(r.scheduler) :: x in Pending(s) && x != e;
  }

  /** Repeats `get_ready_task` at time `now` until it returns `None`: the tasks
      handed out, in order, and the scheduler left behind. */
  datatype Drained = Drained(tasks: seq<Task>, scheduler: Scheduler)

  /** Every eligible task is handed out once, in sorted order, so tasks with
      distinct run times leave in ascending run time; none is lost. */
  function DispatchAll(s: Scheduler, now: int): (r: Drained)
    requires ValidScheduler(s)
    ensures ValidScheduler(r.scheduler)
    ensures multiset(r.tasks) + Pending(r.scheduler) == Pending(s)
    ensures Sorted(r.tasks)
    ensures forall i | 0 <= i < |r.tasks| :: Eligible(r.tasks[i], now)
    ensures forall x | x in Pending(r.scheduler) :: !Eligible(x, now)
    decreases |s.queue.heap|
  {
    var d := GetReadyTask(s, now);
    match d.task
    case None => Drained([], d.scheduler)
    case Some(t) =>
      assert |Pending(d.scheduler)| == |Pending(s)| - 1;
      var rest := DispatchAll(d.scheduler, now);
      DrainStep(t, now, rest.tasks, Pending(rest.scheduler), Pending(d.scheduler), Pending(s));
      Drained([t] + rest.tasks, rest.scheduler)
  }

  /** Once all pending tasks are eligible, tasks with distinct run times are
      handed out in strictly ascending run time, and all of them are handed out. */
  lemma AscendingRunTimes(s: Scheduler, now: int)
    requires ValidScheduler(s)
    requires forall x | x in Pending(s) :: Eligible(x, now)
    ensures var r := DispatchAll(s, now);
      && multiset(r.tasks) == Pending(s)
      && (forall i, j | 0 <= i < j < |r.tasks| && r.tasks[i].runAt != r.tasks[j].runAt
            :: r.tasks[i].runAt < r.tasks[j].runAt)
  {}

  /** One step of `DispatchAll`: handing out a minimal eligible task `t` before
      the sorted eligible `tasks` drained from the rest keeps the result sorted,
      eligible and complete. */
  lemma DrainStep(t: Task, now: int, tasks: seq<Task>, left: multiset<Task>, rest: multiset<Task>, all: multiset<Task>)
    requires IsMinimal(t, all) && Eligible(t, now) && rest == all - multiset{t}
    requires multiset(tasks) + left == rest && Sorted(tasks)
    requires forall i | 0 <= i < |tasks| :: Eligible(tasks[i], now)
    ensures multiset([t] + tasks) + left == all
    ensures Sorted([t] + tasks)
    ensures forall i | 0 <= i < |[t] + tasks| :: Eligible(([t] + tasks)[i], now)
  {}
}
