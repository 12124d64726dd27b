/**
 The routines of kernel/task.c as code over the kernel's globals, each proved to
 do what its function in `Scheduler` says and to keep the invariant.  Running out
 of memory either panics (ASSERT) or, where the code returns -ENOMEM, is a
 parameter.
 */
module TaskCode {
  import opened Machine
  import opened Scheduler

  const EAGAIN := 11

  class Kernel {
    var current: Task
    var runQueue: seq<Task>
    var waitQueues: map<WaitQueue, seq<Task>>
    var sleepFlags: map<Task, Flags>
    var waitingOn: map<Task, WaitQueue>
    var scheduled: map<Task, bool>
    ghost var live: set<Task>
    const kidle: Task

    ghost function Abs(): State
      reads this
    {
      State(current, runQueue, waitQueues, sleepFlags, waitingOn, scheduled, live, kidle)
    }

    ghost predicate Valid()
      reads this
    {
      Inv(Abs())
    }

    /** init_tasking: init runs, nothing is queued. */
    constructor (init: Task, idle: Task)
      requires init != idle
      ensures Valid() && current == init && kidle == idle && live == {init, idle}
      ensures runQueue == [] && waitQueues == map[] && scheduled == map[]
      ensures sleepFlags == map[init := AWAKE, idle := AWAKE] && waitingOn == map[init := 0, idle := 0]
    {
      current, runQueue, waitQueues, scheduled := init, [], map[], map[];
      sleepFlags := map[init := AWAKE, idle := AWAKE];
      waitingOn := map[init := 0, idle := 0];
      live := {init, idle};
      kidle := idle;
    }

    method GetReadyTask() returns (task: Task)
      modifies this`runQueue
      ensures old(runQueue) != [] ==> old(runQueue) == [task] + runQueue
      ensures old(runQueue) == [] ==> task == kidle && runQueue == []
    {
      if |runQueue| > 0 {
        task := runQueue[0];
        runQueue := runQueue[1..];
      } else {
        task := kidle;
      }
    }

    /** `queue` is the run queue from which the running task has just been picked: it was
        the head, or kidle runs because there was none. */
    ghost predicate Picked(queue: seq<Task>)
      reads this
    {
      if queue == [] then current == kidle && runQueue == [] else queue == [current] + runQueue
    }

    method SwitchTask(reschedule: bool)
      modifies this`runQueue, this`current
      ensures Picked(old(runQueue) + if reschedule && old(current) != kidle then [old(current)] else [])
      ensures reschedule ==> Abs() == Switch(old(Abs()))
      ensures !reschedule ==> Abs() == Dispatch(old(Abs()))
      ensures reschedule && old(Valid()) ==> Valid()
    {
      ghost var s := Abs();
      if reschedule && current != kidle {
        runQueue := runQueue + [current];
      }
      current := GetReadyTask();
      if reschedule && Inv(s) { SwitchKeeps(s); }
    }

    method ExitTask()
      requires Valid() && current != kidle && current !in scheduled
      modifies this`runQueue, this`current, this`live
      ensures Valid() && Abs() == Exit(old(Abs()))
      ensures live == old(live) - {old(current)} && Picked(old(runQueue))
    {
      ExitKeeps(Abs());
      live := live - {current};
      current := GetReadyTask();
    }

    /** fork, as far as the scheduler goes: `taskOk` and `restOk` say whether the task
        and everything after it could be allocated, `pid` is what nextpid found, 0 when
        there is none.  The child is queued exactly when the caller gets a pid. */
    method ForkTask(newTask: Task, taskOk: bool, pid: nat, restOk: bool) returns (ret: int)
      requires Valid() && newTask !in sleepFlags && newTask !in live
      modifies this`runQueue, this`sleepFlags, this`waitingOn, this`live
      ensures Valid() && Abs() == (if ret > 0 then Fork(old(Abs()), newTask) else old(Abs()))
      ensures ret > 0 <==> taskOk && pid > 0 && restOk
      ensures ret > 0 ==> ret == pid
      ensures ret > 0 ==> runQueue == old(runQueue) + [newTask] && live == old(live) + {newTask}
      ensures ret > 0 ==> sleepFlags == old(sleepFlags)[newTask := Flags(false, false, false)]
      ensures ret > 0 ==> waitingOn == old(waitingOn)[newTask := 0]
      ensures ret <= 0 ==> ret == if taskOk && pid == 0 then -EAGAIN else -ENOMEM
    {
      if !taskOk { return -ENOMEM; }
      if pid == 0 { return -EAGAIN; }
      if !restOk { return -ENOMEM; }
      ForkKeeps(Abs(), newTask);
      sleepFlags, waitingOn := sleepFlags[newTask := AWAKE], waitingOn[newTask := 0];
      live := live + {newTask};
      runQueue := runQueue + [newTask];
      ret := pid;
    }

    method ScheduleTaskletNow(tasklet: Task, ok: bool) returns (error: int)
      requires Valid() && tasklet in scheduled
      modifies this`runQueue, this`scheduled
      ensures Valid()
      ensures error == (if ok || old(scheduled)[tasklet] then 0 else -ENOMEM)
      ensures Abs() == if error == 0 then ScheduleTasklet(old(Abs()), tasklet) else old(Abs())
      ensures var queued := error == 0 && !old(scheduled)[tasklet];
              && runQueue == old(runQueue) + (if queued then [tasklet] else [])
              && scheduled == if queued then old(scheduled)[tasklet := true] else old(scheduled)
    {
      if scheduled[tasklet] { return 0; }
      if !ok { return -ENOMEM; }
      ScheduleTaskletKeeps(Abs(), tasklet);
      runQueue := runQueue + [tasklet];
      scheduled := scheduled[tasklet := true];
      error := 0;
    }

    /** create_tasklet, as far as the scheduler goes: `ok` is false when there is no pid
        or no memory. */
    method CreateTaskletNow(tasklet: Task, ok: bool)
      requires Valid() && tasklet !in sleepFlags && tasklet !in live
      modifies this`sleepFlags, this`waitingOn, this`scheduled, this`live
      ensures Valid() && Abs() == (if ok then CreateTasklet(old(Abs()), tasklet) else old(Abs()))
      ensures ok ==> live == old(live) + {tasklet} && scheduled == old(scheduled)[tasklet := false]
      ensures ok ==> sleepFlags == old(sleepFlags)[tasklet := Flags(false, false, false)]
      ensures ok ==> waitingOn == old(waitingOn)[tasklet := 0]
    {
      if !ok { return; }
      CreateTaskletKeeps(Abs(), tasklet);
      sleepFlags, waitingOn := sleepFlags[tasklet := AWAKE], waitingOn[tasklet := 0];
      scheduled := scheduled[tasklet := false];
      live := live + {tasklet};
    }

    method DestroyTaskletNow(tasklet: Task)
      requires Valid() && tasklet in scheduled && !scheduled[tasklet]
      modifies this`scheduled, this`live
      ensures Valid() && Abs() == DestroyTasklet(old(Abs()), tasklet)
      ensures live == old(live) - {tasklet} && scheduled == old(scheduled) - {tasklet}
    {
      DestroyTaskletKeeps(Abs(), tasklet);
      scheduled, live := scheduled - {tasklet}, live - {tasklet};
    }

    /** create_waitqueue; `ok` is false when there is no memory. */
    method CreateWaitqueue(q: WaitQueue, ok: bool)
      requires Valid() && q != 0 && q !in waitQueues
      modifies this`waitQueues
      ensures Valid() && Abs() == (if ok then CreateQueue(old(Abs()), q) else old(Abs()))
      ensures waitQueues == if ok then old(waitQueues)[q := []] else old(waitQueues)
    {
      if !ok { return; }
      QueueKeeps(Abs(), q);
      waitQueues := waitQueues[q := []];
    }

    /** destroy_waitqueue, whose ASSERT demands that nobody sleeps on the queue. */
    method DestroyWaitqueue(q: WaitQueue)
      requires Valid() && q in waitQueues && waitQueues[q] == []
      modifies this`waitQueues
      ensures Valid() && Abs() == DestroyQueue(old(Abs()), q)
      ensures waitQueues == old(waitQueues) - {q}
    {
      QueueKeeps(Abs(), q);
      waitQueues := waitQueues - {q};
    }

    method TaskletFinish()
      requires Valid() && current in scheduled
      modifies this`runQueue, this`current, this`scheduled
      ensures Valid() && Abs() == FinishTasklet(old(Abs()))
      ensures scheduled == old(scheduled)[old(current) := false] && Picked(old(runQueue))
    {
      FinishTaskletKeeps(Abs());
      scheduled := scheduled[current := false];
      SwitchTask(false);
    }

    /** sleep_thread, up to the switch away. */
    method SleepThread(q: WaitQueue, interruptable: bool)
      requires Valid() && q in waitQueues && current != kidle
      modifies this`runQueue, this`current, this`sleepFlags, this`waitingOn, this`waitQueues
      ensures Valid() && Abs() == Sleep(old(Abs()), q, interruptable)
      ensures waitQueues == old(waitQueues)[q := old(waitQueues)[q] + [old(current)]]
      ensures sleepFlags == old(sleepFlags)[old(current) := Flags(true, interruptable, false)]
      ensures waitingOn == old(waitingOn)[old(current) := q] && Picked(old(runQueue))
    {
      SleepKeeps(Abs(), q, interruptable);
      sleepFlags := sleepFlags[current := Flags(true, interruptable, false)];
      waitingOn := waitingOn[current := q];
      waitQueues := waitQueues[q := waitQueues[q] + [current]];
      SwitchTask(false);
    }

    /** sleep_thread, after the task runs again: the result is never nonzero. */
    method SleepResult() returns (interrupted: bool)
      requires Valid()
      ensures !interrupted
    {
      interrupted := sleepFlags[current].interrupted;
    }

    /** wake_queue: the loop that empties a wait queue node by node. */
    method WakeQueue(q: WaitQueue)
      requires Valid() && q in waitQueues
      modifies this`runQueue, this`sleepFlags, this`waitingOn, this`waitQueues
      ensures Valid() && Abs() == Wake(old(Abs()), q)
      ensures waitQueues == old(waitQueues)[q := []]
      ensures runQueue == old(runQueue) + old(waitQueues)[q]
      ensures sleepFlags.Keys == old(sleepFlags).Keys && waitingOn.Keys == old(waitingOn).Keys
      ensures forall t :: t in sleepFlags ==>
                sleepFlags[t] == if t in old(waitQueues)[q] then old(sleepFlags)[t].(asleep := false)
                                 else old(sleepFlags)[t]
      ensures forall t :: t in waitingOn ==>
                waitingOn[t] == if t in old(waitQueues)[q] then 0 else old(waitingOn)[t]
    {
      hide Inv, WakeSome;
      ghost var s := Abs();
      ghost var n := 0;
      WakeKeeps(s, q);
      SleepersKnown(s, q);
      WakeNone(s, q);
      WakeLeft(s, q, 0);
      while |waitQueues[q]| > 0
        invariant n <= |s.waitq[q]| && Abs() == WakeSome(s, q, n)
        invariant q in waitQueues && |waitQueues[q]| == |s.waitq[q]| - n
        decreases |s.waitq[q]| - n
      {
        WakeNext(s, q, n);
        var task := waitQueues[q][0];
        waitQueues := waitQueues[q := waitQueues[q][1..]];
        sleepFlags := sleepFlags[task := sleepFlags[task].(asleep := false)];
        waitingOn := waitingOn[task := 0];
        runQueue := runQueue + [task];
        n := n + 1;
        WakeLeft(s, q, n);
      }
      WakeMeans(s, q);
    }
  }
}
