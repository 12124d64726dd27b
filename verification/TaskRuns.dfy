/**
 Runs of the code of kernel/task.c are runs of the scheduler's events: what is proved of
 every run of events holds of every run of the code.
 */
module TaskRuns {
  import opened Scheduler
  import opened SchedulerRuns
  import opened TaskCode

  /** Let the code do what an event stands for. */
  method Perform(k: Kernel, e: Event)
    requires k.Valid() && Enabled(k.Abs(), e)
    modifies k
    ensures k.Valid() && k.Abs() == Apply(old(k.Abs()), e)
  {
    hide Inv, Wake, Sleep, Switch, Exit, Fork, FinishTasklet;
    var ret;
    match e
    case Tick => k.SwitchTask(true);
    case ExitCurrent => k.ExitTask();
    case ForkTask(t) => ret := k.ForkTask(t, true, 1, true);
    case NewTasklet(t) => k.CreateTaskletNow(t, true);
    case StartTasklet(t) => ret := k.ScheduleTaskletNow(t, true);
    case TaskletDone => k.TaskletFinish();
    case DropTasklet(t) => k.DestroyTaskletNow(t);
    case NewQueue(q) => k.CreateWaitqueue(q, true);
    case DropQueue(q) => k.DestroyWaitqueue(q);
    case SleepOn(q, i) => k.SleepThread(q, i);
    case WakeUp(q) => k.WakeQueue(q);
  }

  /** Any run of the code from start-up ends where the run of its events does, in a state
      with every live task in exactly one place. */
  method RunFromBoot(init: Task, idle: Task, es: seq<Event>, ghost boot: State) returns (k: Kernel)
    requires init != idle && Boot(boot) && boot.current == init && boot.kidle == idle && Runs(boot, es)
    ensures fresh(k) && k.Valid() && k.Abs() == After(boot, es)
    ensures forall t :: t in k.live && t != k.kidle ==> OnePlace(k.Abs(), t) && WaitAgrees(k.Abs(), t)
  {
    hide Inv, Apply, Enabled, OnePlace, WaitAgrees;
    k := new Kernel(init, idle);
    var i := 0;
    while i < |es|
      invariant 0 <= i <= |es| && k.Valid() && fresh(k)
      invariant Runs(k.Abs(), es[i..]) && After(k.Abs(), es[i..]) == After(boot, es)
    {
      assert es[i..][0] == es[i] && es[i..][1..] == es[i+1..];
      Perform(k, es[i]);
      i := i + 1;
    }
    forall t | t in k.live && t != k.kidle ensures OnePlace(k.Abs(), t) && WaitAgrees(k.Abs(), t) {
      EveryTaskInOnePlace(k.Abs(), t);
    }
  }
}
