/**
 Runs of the scheduler of kernel/task.c: any interleaving of timer switches,
 exits, forks, tasklet operations, sleeps and wake-ups.
 */
module SchedulerRuns {
  import opened Scheduler

  datatype Event =
    | Tick
    | ExitCurrent
    | ForkTask(t: Task)
    | NewTasklet(t: Task)
    | StartTasklet(t: Task)
    | TaskletDone
    | DropTasklet(t: Task)
    | NewQueue(q: WaitQueue)
    | DropQueue(q: WaitQueue)
    | SleepOn(q: WaitQueue, interruptable: bool)
    | WakeUp(q: WaitQueue)

  /** What the callers of each routine, or its own ASSERTs, guarantee. */
  predicate Enabled(s: State, e: Event) {
    match e
    case Tick => true
    case ExitCurrent => s.current != s.kidle && s.current !in s.scheduled
    case ForkTask(t) => t !in s.flags && t !in s.live
    case NewTasklet(t) => t !in s.flags && t !in s.live
    case StartTasklet(t) => t in s.scheduled
    case TaskletDone => s.current in s.scheduled
    case DropTasklet(t) => t in s.scheduled && !s.scheduled[t]
    case NewQueue(q) => q != 0 && q !in s.waitq
    case DropQueue(q) => q in s.waitq && s.waitq[q] == []
    case SleepOn(q, _) => q in s.waitq && s.current != s.kidle
    case WakeUp(q) => q in s.waitq
  }

  function Apply(s: State, e: Event): State
    requires Enabled(s, e)
  {
    match e
    case Tick => Switch(s)
    case ExitCurrent => Exit(s)
    case ForkTask(t) => Fork(s, t)
    case NewTasklet(t) => CreateTasklet(s, t)
    case StartTasklet(t) => ScheduleTasklet(s, t)
    case TaskletDone => FinishTasklet(s)
    case DropTasklet(t) => DestroyTasklet(s, t)
    case NewQueue(q) => CreateQueue(s, q)
    case DropQueue(q) => DestroyQueue(s, q)
    case SleepOn(q, i) => Sleep(s, q, i)
    case WakeUp(q) => Wake(s, q)
  }

  /** After init_tasking: init runs, kidle waits its turn, nothing is queued. */
  predicate Boot(s: State) {
    && s.current != s.kidle && s.runq == [] && s.waitq == map[] && s.scheduled == map[]
    && s.live == {s.current, s.kidle}
    && s.flags == map[s.current := AWAKE, s.kidle := AWAKE]
    && s.wq == map[s.current := 0, s.kidle := 0]
  }

  predicate Runs(s: State, es: seq<Event>)
    decreases |es|
  {
    es == [] || (Enabled(s, es[0]) && Runs(Apply(s, es[0]), es[1..]))
  }

  function After(s: State, es: seq<Event>): State
    requires Runs(s, es)
    decreases |es|
  {
    if es == [] then s else After(Apply(s, es[0]), es[1..])
  }

  lemma StepKeeps(s: State, e: Event)
    requires Inv(s) && Enabled(s, e)
    ensures Inv(Apply(s, e))
  {
    match e
    case Tick => SwitchKeeps(s);
    case ExitCurrent => ExitKeeps(s);
    case ForkTask(t) => ForkKeeps(s, t);
    case NewTasklet(t) => CreateTaskletKeeps(s, t);
    case StartTasklet(t) => ScheduleTaskletKeeps(s, t);
    case TaskletDone => FinishTaskletKeeps(s);
    case DropTasklet(t) => DestroyTaskletKeeps(s, t);
    case NewQueue(q) => QueueKeeps(s, q);
    case DropQueue(q) => QueueKeeps(s, q);
    case SleepOn(q, i) => SleepKeeps(s, q, i);
    case WakeUp(q) => WakeKeeps(s, q);
  }

  lemma {:induction false} RunKeeps(s: State, es: seq<Event>)
    requires Inv(s) && Runs(s, es)
    ensures Inv(After(s, es))
    decreases |es|
  {
    if es != [] {
      StepKeeps(s, es[0]);
      RunKeeps(Apply(s, es[0]), es[1..]);
    }
  }

  /** In every state any run from boot can reach, each live task other than kidle
      is in exactly one place, SLEEP_ASLEEP and wq both agree with it, SLEEP_INTERRUPTED
      is never set and kidle is queued nowhere. */
  lemma EveryReachableState(s: State, es: seq<Event>, t: Task)
    requires Boot(s) && Runs(s, es)
    ensures Inv(After(s, es))
    ensures t in After(s, es).live && t != After(s, es).kidle ==> OnePlace(After(s, es), t)
    ensures t in After(s, es).live && t != After(s, es).kidle ==> WaitAgrees(After(s, es), t)
    ensures t in After(s, es).flags ==> !After(s, es).flags[t].interrupted
    ensures After(s, es).kidle !in After(s, es).runq && !Waits(After(s, es), After(s, es).kidle)
  {
    assert Inv(s);
    RunKeeps(s, es);
    IdleNeverQueued(After(s, es));
    if t in After(s, es).live && t != After(s, es).kidle { EveryTaskInOnePlace(After(s, es), t); }
  }

  // ---- bounded waiting ------------------------------------------------

  /** The events that pick a new running task. */
  predicate Dispatches(e: Event) {
    e.Tick? || e.ExitCurrent? || e.TaskletDone? || e.SleepOn?
  }

  function DispatchCount(es: seq<Event>): nat {
    if es == [] then 0 else (if Dispatches(es[0]) then 1 else 0) + DispatchCount(es[1..])
  }

  /** One event moves a queued task up by one if it dispatches, else not at all;
      the head of the queue is the task that a dispatch picks. */
  lemma StepMovesUp(s: State, e: Event, k: nat)
    requires Enabled(s, e) && k < |s.runq|
    ensures var s' := Apply(s, e);
            if !Dispatches(e) then k < |s'.runq| && s'.runq[k] == s.runq[k]
            else if k == 0 then s'.current == s.runq[0]
            else k - 1 < |s'.runq| && s'.runq[k-1] == s.runq[k]
  {
  }

  /** A task with k tasks ahead of it advances by exactly one place at each
      dispatch, whatever else happens, and runs at dispatch number k + 1. */
  lemma {:induction false} BoundedWaiting(s: State, es: seq<Event>, k: nat)
    requires Runs(s, es) && k < |s.runq|
    ensures DispatchCount(es) <= k ==>
              k - DispatchCount(es) < |After(s, es).runq|
              && After(s, es).runq[k - DispatchCount(es)] == s.runq[k]
    ensures es != [] && DispatchCount(es) == k + 1 && DispatchCount(es[..|es|-1]) == k ==>
              After(s, es).current == s.runq[k]
    decreases |es|
  {
    if es != [] {
      var e, rest := es[0], es[1..];
      StepMovesUp(s, e, k);
      if !Dispatches(e) {
        BoundedWaiting(Apply(s, e), rest, k);
        if rest != [] { assert es[..|es|-1] == [e] + rest[..|rest|-1]; }
      } else if k > 0 {
        BoundedWaiting(Apply(s, e), rest, k - 1);
        if rest != [] {
          assert es[..|es|-1] == [e] + rest[..|rest|-1];
        }
      } else if rest != [] {
        assert es[..|es|-1] == [e] + rest[..|rest|-1];
      }
    }
  }

  /** A task with k others ahead of it in wait queue q, on the run queue behind all that
      are there once q is woken, runs at exactly the dispatch that its place says. */
  lemma WokenRuns(s: State, q: WaitQueue, k: nat, es: seq<Event>)
    requires q in s.waitq && k < |s.waitq[q]| && Runs(Wake(s, q), es)
    requires es != [] && DispatchCount(es) == |s.runq| + k + 1 && DispatchCount(es[..|es|-1]) == |s.runq| + k
    ensures After(Wake(s, q), es).current == s.waitq[q][k]
  {
    WakeMeans(s, q);
    BoundedWaiting(Wake(s, q), es, |s.runq| + k);
  }
}
