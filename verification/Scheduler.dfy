/**
 The scheduler and the wait queues of kernel/task.c, on values: one function for
 each routine that runs with interrupts off, and what every run of them keeps.
 Tasks and wait queues are numbers; 0 is no wait queue.
 */
module Scheduler {

  type Task = nat
  type WaitQueue = nat

  /** The bits of `sleep_flags`. */
  datatype Flags = Flags(asleep: bool, interruptable: bool, interrupted: bool)

  const AWAKE := Flags(false, false, false)

  /**
   current     the running task
   runq        run_queue, head first
   waitq       the queue of every wait queue
   flags, wq   sleep_flags and wq of every task ever made
   scheduled   `scheduled` of every tasklet
   live        tasks made and neither exited nor destroyed
   kidle       the task that runs when nothing else can
   */
  datatype State = State(
    current: Task,
    runq: seq<Task>,
    waitq: map<WaitQueue, seq<Task>>,
    flags: map<Task, Flags>,
    wq: map<Task, WaitQueue>,
    scheduled: map<Task, bool>,
    live: set<Task>,
    kidle: Task)

  // ---- the routines ---------------------------------------------------

  /** get_ready_task, assigned to current_task: the head of the run queue, or
      kidle. */
  function Dispatch(s: State): State {
    if s.runq == [] then s.(current := s.kidle)
    else s.(current := s.runq[0], runq := s.runq[1..])
  }

  /** switch_task(1), as the timer interrupt calls it. */
  function Switch(s: State): State {
    Dispatch(if s.current == s.kidle then s else s.(runq := s.runq + [s.current]))
  }

  /** exit_task */
  function Exit(s: State): State {
    Dispatch(s.(live := s.live - {s.current}))
  }

  /** The scheduling part of fork: a fresh task at the tail of the run queue. */
  function Fork(s: State, t: Task): State {
    s.(runq := s.runq + [t], live := s.live + {t}, flags := s.flags[t := AWAKE], wq := s.wq[t := 0])
  }

  /** create_tasklet: a task nobody has scheduled yet. */
  function CreateTasklet(s: State, t: Task): State {
    s.(live := s.live + {t}, flags := s.flags[t := AWAKE], wq := s.wq[t := 0],
       scheduled := s.scheduled[t := false])
  }

  /** schedule_tasklet */
  function ScheduleTasklet(s: State, t: Task): State
    requires t in s.scheduled
  {
    if s.scheduled[t] then s
    else s.(runq := s.runq + [t], scheduled := s.scheduled[t := true])
  }

  /** _tasklet_finish */
  function FinishTasklet(s: State): State {
    Dispatch(s.(scheduled := s.scheduled[s.current := false]))
  }

  /** destroy_tasklet */
  function DestroyTasklet(s: State, t: Task): State {
    s.(live := s.live - {t}, scheduled := s.scheduled - {t})
  }

  function CreateQueue(s: State, q: WaitQueue): State {
    s.(waitq := s.waitq[q := []])
  }

  function DestroyQueue(s: State, q: WaitQueue): State {
    s.(waitq := s.waitq - {q})
  }

  /** sleep_thread up to the point where another task runs. */
  function Sleep(s: State, q: WaitQueue, interruptable: bool): State
    requires q in s.waitq
  {
    Dispatch(s.(flags := s.flags[s.current := Flags(true, interruptable, false)],
                wq := s.wq[s.current := q],
                waitq := s.waitq[q := s.waitq[q] + [s.current]]))
  }

  /** wake_queue after n nodes: the first n sleepers have moved, in order, to the
      tail of the run queue. */
  function WakeSome(s: State, q: WaitQueue, n: nat): State
    requires q in s.waitq && n <= |s.waitq[q]|
  {
    var woken := s.waitq[q][..n];
    s.(runq := s.runq + woken,
       waitq := s.waitq[q := s.waitq[q][n..]],
       flags := map t | t in s.flags :: if t in woken then s.flags[t].(asleep := false) else s.flags[t],
       wq := map t | t in s.wq :: if t in woken then 0 else s.wq[t])
  }

  /** One turn of wake_queue's loop. */
  function WakeHead(s: State, q: WaitQueue): State
    requires q in s.waitq && s.waitq[q] != [] && s.waitq[q][0] in s.flags
  {
    var t := s.waitq[q][0];
    s.(waitq := s.waitq[q := s.waitq[q][1..]],
       flags := s.flags[t := s.flags[t].(asleep := false)],
       wq := s.wq[t := 0],
       runq := s.runq + [t])
  }

  lemma WakeNext(s: State, q: WaitQueue, n: nat)
    requires q in s.waitq && n < |s.waitq[q]|
    requires s.waitq[q][n] in s.flags && s.waitq[q][n] in s.wq
    ensures WakeSome(s, q, n).waitq[q] != [] && WakeSome(s, q, n).waitq[q][0] in WakeSome(s, q, n).flags
    ensures WakeHead(WakeSome(s, q, n), q) == WakeSome(s, q, n + 1)
  {
    var w, t := s.waitq[q], s.waitq[q][n];
    assert w[..n+1] == w[..n] + [t];
    var a, b := WakeHead(WakeSome(s, q, n), q), WakeSome(s, q, n + 1);
    assert a.runq == b.runq;
    assert a.waitq == b.waitq;
    assert a.flags == b.flags;
    assert a.wq == b.wq;
  }

  lemma WakeLeft(s: State, q: WaitQueue, n: nat)
    requires q in s.waitq && n <= |s.waitq[q]|
    ensures q in WakeSome(s, q, n).waitq && |WakeSome(s, q, n).waitq[q]| == |s.waitq[q]| - n
  {
  }

  lemma WakeNone(s: State, q: WaitQueue)
    requires q in s.waitq
    ensures WakeSome(s, q, 0) == s
  {
    var a := WakeSome(s, q, 0);
    assert a.runq == s.runq && a.waitq == s.waitq && a.flags == s.flags && a.wq == s.wq;
  }

  /** wake_queue */
  function Wake(s: State, q: WaitQueue): State
    requires q in s.waitq
  {
    WakeSome(s, q, |s.waitq[q]|)
  }

  /** Waking a queue empties it onto the tail of the run queue, and its tasks neither
      sleep nor wait any more; nothing else changes. */
  lemma WakeMeans(s: State, q: WaitQueue)
    requires q in s.waitq
    ensures var s' := Wake(s, q);
            && s'.waitq == s.waitq[q := []] && s'.runq == s.runq + s.waitq[q]
            && s'.flags.Keys == s.flags.Keys && s'.wq.Keys == s.wq.Keys
            && (forall t :: t in s.flags ==>
                  s'.flags[t] == if t in s.waitq[q] then s.flags[t].(asleep := false) else s.flags[t])
            && (forall t :: t in s.wq ==> s'.wq[t] == if t in s.waitq[q] then 0 else s.wq[t])
            && s'.current == s.current && s'.scheduled == s.scheduled && s'.live == s.live && s'.kidle == s.kidle
  {
    assert s.waitq[q][..|s.waitq[q]|] == s.waitq[q];
  }

  // ---- the invariant --------------------------------------------------

  predicate NoDup(q: seq<Task>) {
    forall i, j :: 0 <= i < j < |q| ==> q[i] != q[j]
  }

  /** Neither a dormant tasklet nor a task that sleeps. */
  predicate Runnable(s: State, t: Task) {
    && t in s.live && t in s.flags && !s.flags[t].asleep
    && (t in s.scheduled ==> s.scheduled[t])
  }

  predicate Sleeping(s: State, t: Task) {
    t in s.live && t in s.flags && s.flags[t].asleep
  }

  predicate Dormant(s: State, t: Task) {
    t in s.live && t in s.scheduled && !s.scheduled[t]
  }

  /** What is recorded for every live task, and kidle's special place. */
  predicate TasksOk(s: State) {
    && s.kidle in s.live && s.kidle !in s.scheduled && s.kidle in s.flags && !s.flags[s.kidle].asleep
    && (forall t :: t in s.live ==> t in s.flags && t in s.wq)
    && (forall t :: t in s.live && t in s.flags && t in s.wq && !s.flags[t].asleep ==> s.wq[t] == 0)
    && (forall t :: t in s.scheduled ==> t in s.live)
    && (forall t :: t in s.flags ==> !s.flags[t].interrupted)
  }

  predicate RunOk(s: State) {
    && Runnable(s, s.current)
    && NoDup(s.runq)
    && (forall t :: t in s.runq ==> Runnable(s, t) && t != s.current && t != s.kidle)
  }

  /** The queue of q holds exactly the tasks that sleep on q, once each. */
  predicate QueueOk(s: State, q: WaitQueue)
    requires q in s.waitq
  {
    && NoDup(s.waitq[q])
    && (forall t :: t in s.waitq[q] ==> Sleeping(s, t) && t in s.wq && s.wq[t] == q)
  }

  ghost predicate WaitOk(s: State) {
    && 0 !in s.waitq
    && (forall q :: q in s.waitq ==> QueueOk(s, q))
    && (forall t :: Sleeping(s, t) ==>
          t in s.wq && s.wq[t] in s.waitq && t in s.waitq[s.wq[t]]
          && (t in s.scheduled ==> s.scheduled[t]))
  }

  /** No live task is lost. */
  predicate NoneLost(s: State) {
    forall t :: t in s.live && t != s.kidle && Runnable(s, t) ==> t == s.current || t in s.runq
  }

  ghost predicate Inv(s: State) {
    TasksOk(s) && RunOk(s) && WaitOk(s) && NoneLost(s)
  }

  /** Every live task but kidle is in exactly one place: running, once in the run
      queue, once in exactly one wait queue, or a dormant tasklet. */
  ghost predicate OnePlace(s: State, t: Task) {
    && (t == s.current ==> t !in s.runq && !Waits(s, t) && !Dormant(s, t))
    && (t in s.runq ==> multiset(s.runq)[t] == 1 && !Waits(s, t) && !Dormant(s, t))
    && (Waits(s, t) ==> !Dormant(s, t) && t in s.wq)
    && (Waits(s, t) ==> forall q :: q in s.waitq ==> multiset(s.waitq[q])[t] == if q == s.wq[t] then 1 else 0)
    && (t == s.current || t in s.runq || Waits(s, t) || Dormant(s, t))
  }

  ghost predicate Waits(s: State, t: Task) {
    exists q :: q in s.waitq && t in s.waitq[q]
  }

  /** The task's own record of waiting agrees with the queues. */
  ghost predicate WaitAgrees(s: State, t: Task) {
    && t in s.flags && t in s.wq
    && (Waits(s, t) <==> s.flags[t].asleep)
    && (Waits(s, t) <==> s.wq[t] != 0)
  }

  lemma {:induction false} NoDupCount(q: seq<Task>, t: Task)
    requires NoDup(q)
    ensures multiset(q)[t] == if t in q then 1 else 0
  {
    if q != [] {
      var p, x := q[..|q|-1], q[|q|-1];
      assert q == p + [x];
      NoDupCount(p, t);
    }
  }

  lemma EveryTaskInOnePlace(s: State, t: Task)
    requires Inv(s) && t in s.live && t != s.kidle
    ensures OnePlace(s, t)
    ensures WaitAgrees(s, t)
  {
    NoDupCount(s.runq, t);
    forall q | q in s.waitq
      ensures multiset(s.waitq[q])[t] == if Sleeping(s, t) && q == s.wq[t] then 1 else 0
    {
      assert QueueOk(s, q);
      NoDupCount(s.waitq[q], t);
    }
  }

  lemma SleepersKnown(s: State, q: WaitQueue)
    requires Inv(s) && q in s.waitq
    ensures NoDup(s.waitq[q])
    ensures forall t :: t in s.waitq[q] ==> t in s.flags && t in s.wq
  {
    assert QueueOk(s, q);
  }

  lemma IdleNeverQueued(s: State)
    requires Inv(s)
    ensures s.kidle !in s.runq && !Waits(s, s.kidle)
  {
    forall q | q in s.waitq ensures s.kidle !in s.waitq[q] {
      assert QueueOk(s, q);
    }
  }

  // ---- each routine keeps it -----------------------------------------

  lemma NoDupConcat(a: seq<Task>, b: seq<Task>)
    requires NoDup(a) && NoDup(b) && forall t :: t in a ==> t !in b
    ensures NoDup(a + b)
  {
    forall i, j | 0 <= i < j < |a + b| ensures (a + b)[i] != (a + b)[j] {
      if i < |a| <= j {
        assert (a + b)[i] in a && (a + b)[j] in b;
      }
    }
  }

  lemma HeadTail(q: seq<Task>)
    requires NoDup(q) && q != []
    ensures NoDup(q[1..]) && q[0] in q
    ensures forall t :: t in q <==> t == q[0] || t in q[1..]
    ensures q[0] !in q[1..]
  {
    assert q == [q[0]] + q[1..];
  }

  /** What a state is in between, when `current` has just been put away. */
  ghost predicate Between(s: State) {
    && TasksOk(s) && WaitOk(s)
    && NoDup(s.runq)
    && (forall t :: t in s.runq ==> Runnable(s, t) && t != s.kidle)
    && (forall t :: t in s.live && t != s.kidle && Runnable(s, t) ==> t in s.runq)
  }

  lemma DispatchKeeps(s: State)
    requires Between(s)
    ensures Inv(Dispatch(s))
  {
    if s.runq != [] { HeadTail(s.runq); }
    var s' := Dispatch(s);
    forall q | q in s'.waitq ensures QueueOk(s', q) {
      assert QueueOk(s, q);
    }
  }

  lemma SwitchKeeps(s: State)
    requires Inv(s)
    ensures Inv(Switch(s))
  {
    var m := if s.current == s.kidle then s else s.(runq := s.runq + [s.current]);
    forall q | q in m.waitq ensures QueueOk(m, q) {
      assert QueueOk(s, q);
    }
    DispatchKeeps(m);
  }

  lemma ExitKeeps(s: State)
    requires Inv(s) && s.current != s.kidle && s.current !in s.scheduled
    ensures Inv(Exit(s))
  {
    var m := s.(live := s.live - {s.current});
    forall q | q in m.waitq ensures QueueOk(m, q) {
      assert QueueOk(s, q);
    }
    DispatchKeeps(m);
  }

  lemma FinishTaskletKeeps(s: State)
    requires Inv(s) && s.current in s.scheduled
    ensures Inv(FinishTasklet(s))
  {
    var m := s.(scheduled := s.scheduled[s.current := false]);
    forall q | q in m.waitq ensures QueueOk(m, q) {
      assert QueueOk(s, q);
    }
    DispatchKeeps(m);
  }

  lemma SleepKeeps(s: State, q: WaitQueue, interruptable: bool)
    requires Inv(s) && s.current != s.kidle && q in s.waitq
    ensures Inv(Sleep(s, q, interruptable))
  {
    var m := s.(flags := s.flags[s.current := Flags(true, interruptable, false)],
                wq := s.wq[s.current := q],
                waitq := s.waitq[q := s.waitq[q] + [s.current]]);
    forall p | p in m.waitq ensures QueueOk(m, p) {
      assert QueueOk(s, p);
    }
    DispatchKeeps(m);
  }

  lemma WakeKeeps(s: State, q: WaitQueue)
    requires Inv(s) && q in s.waitq
    ensures Inv(Wake(s, q))
  {
    var s' := Wake(s, q);
    assert s.waitq[q][..|s.waitq[q]|] == s.waitq[q];
    assert QueueOk(s, q);
    forall p | p in s'.waitq ensures QueueOk(s', p) {
      assert QueueOk(s, p);
    }
    NoDupConcat(s.runq, s.waitq[q]);
    forall t | t in s'.runq ensures Runnable(s', t) && t != s'.current && t != s'.kidle {
      assert t in s.runq || t in s.waitq[q];
    }
  }

  lemma ForkKeeps(s: State, t: Task)
    requires Inv(s) && t !in s.flags && t !in s.live
    ensures Inv(Fork(s, t))
  {
    var s' := Fork(s, t);
    NoDupConcat(s.runq, [t]);
    forall q | q in s'.waitq ensures QueueOk(s', q) {
      assert QueueOk(s, q);
    }
  }

  lemma CreateTaskletKeeps(s: State, t: Task)
    requires Inv(s) && t !in s.flags && t !in s.live
    ensures Inv(CreateTasklet(s, t))
  {
    var s' := CreateTasklet(s, t);
    forall q | q in s'.waitq ensures QueueOk(s', q) {
      assert QueueOk(s, q);
    }
  }

  lemma ScheduleTaskletKeeps(s: State, t: Task)
    requires Inv(s) && t in s.scheduled
    ensures Inv(ScheduleTasklet(s, t))
  {
    var s' := ScheduleTasklet(s, t);
    forall q | q in s'.waitq ensures QueueOk(s', q) {
      assert QueueOk(s, q);
    }
  }

  lemma DestroyTaskletKeeps(s: State, t: Task)
    requires Inv(s) && t in s.scheduled && !s.scheduled[t]
    ensures Inv(DestroyTasklet(s, t))
  {
    var s' := DestroyTasklet(s, t);
    forall q | q in s'.waitq ensures QueueOk(s', q) {
      assert QueueOk(s, q);
    }
  }

  lemma QueueKeeps(s: State, q: WaitQueue)
    requires Inv(s)
    ensures q != 0 && q !in s.waitq ==> Inv(CreateQueue(s, q))
    ensures q in s.waitq && s.waitq[q] == [] ==> Inv(DestroyQueue(s, q))
  {
    if q != 0 && q !in s.waitq {
      var s' := CreateQueue(s, q);
      forall p | p in s'.waitq ensures QueueOk(s', p) {
        if p != q { assert QueueOk(s, p); }
      }
    }
    if q in s.waitq && s.waitq[q] == [] {
      var s' := DestroyQueue(s, q);
      forall p | p in s'.waitq ensures QueueOk(s', p) {
        assert QueueOk(s, p);
      }
    }
  }
}
