/**
 What a thread gets from the reader/writer semaphore of kernel/structures/mutex.c: when
 it passes, when it sleeps, and that the scheduler's side of every run is a run of
 scheduler events.
 */
module RwSemRuns {
  import opened Machine
  import opened Scheduler
  import opened RwSem
  import SchedulerRuns

  // ---- what a thread gets -----------------------------------------------

  function Running(s: Sys): Thread
    requires s.sched.current < |s.threads|
  {
    s.threads[s.sched.current]
  }

  /** A step that only the running thread and the words take part in: the scheduler and
      every other thread are as they were. */
  predicate OwnStep(s: Sys, s': Sys)
    requires s.sched.current < |s.threads|
  {
    && s'.sched == s.sched && s'.max == s.max && |s'.threads| == |s.threads|
    && forall u :: 0 <= u < |s.threads| && u != s.sched.current ==> s'.threads[u] == s.threads[u]
  }

  /** A reader gets a permit at once if and only if one is free, counting failures that
      are not backed out yet; otherwise it backs off. */
  lemma ReaderPassesIff(s: Sys, c: Choice)
    requires WordsOk(s) && Enabled(s, Run(c)) && Running(s).pc == ReadTry
    ensures var s' := Step(s, c); var th := s'.threads[s.sched.current];
            && OwnStep(s, s') && s'.sem == s.sem + 1 && s'.mutex == s.mutex
            && (Held(s.max, th) == Held(s.max, Running(s)) + 1 <==> s.sem < s.max)
            && (th == Thread(Outside, Running(s).shares + 1) <==> s.sem < s.max)
            && (th == Thread(ReadBackoff, Running(s).shares) <==> s.sem >= s.max)
  {
    SumsOf(s, s.sched.current);
  }

  /** A collecting writer gets its next permit if and only if one is free. */
  lemma CollectorPassesIff(s: Sys, c: Choice, n: nat)
    requires WordsOk(s) && Enabled(s, Run(c)) && Running(s).pc == Take(n)
    ensures var s' := Step(s, c); var th := s'.threads[s.sched.current];
            && OwnStep(s, s') && s'.sem == s.sem + 1 && s'.mutex == s.mutex
            && (Held(s.max, th) == Held(s.max, Running(s)) + 1 <==> s.sem < s.max)
            && (s.sem < s.max ==> th.pc == if n + 1 == s.max then Unlock else Take(n + 1))
            && (th.pc == TakeBackoff(n) <==> s.sem >= s.max)
            && th.shares == Running(s).shares
  {
    SumsOf(s, s.sched.current);
  }

  /** acquire_mutex gets the mutex if and only if it is clear. */
  lemma LockPassesIff(s: Sys, c: Choice)
    requires WordsOk(s) && Enabled(s, Run(c)) && Running(s).pc == LockTry
    ensures var s' := Step(s, c); var th := s'.threads[s.sched.current];
            && OwnStep(s, s') && s'.sem == s.sem && s'.mutex == 1
            && (th.pc == Take(0) <==> s.mutex == 0) && (th.pc == LockSleep <==> s.mutex == 1)
            && th.shares == Running(s).shares
  {
  }

  /** The running thread takes n steps while nothing else happens. */
  predicate RunsAlone(s: Sys, c: Choice, n: nat)
    decreases n
  {
    n == 0 || (Enabled(s, Run(c)) && RunsAlone(Step(s, c), c, n - 1))
  }

  function Alone(s: Sys, c: Choice, n: nat): Sys
    requires RunsAlone(s, c, n)
    decreases n
  {
    if n == 0 then s else Alone(Step(s, c), c, n - 1)
  }

  lemma {:induction false} AloneMore(s: Sys, c: Choice, n: nat, m: nat)
    requires RunsAlone(s, c, n) && RunsAlone(Alone(s, c, n), c, m)
    ensures RunsAlone(s, c, n + m) && Alone(s, c, n + m) == Alone(Alone(s, c, n), c, m)
    decreases n
  {
    hide Step;
    if n > 0 { AloneMore(Step(s, c), c, n - 1, m); }
  }

  /** The words and the running thread set, everything else as in s. */
  function With(s: Sys, pc: Pc, mutex: nat, sem: nat): Sys
    requires s.sched.current < |s.threads|
  {
    Goto(s, pc).(mutex := mutex, sem := sem)
  }

  /** Where the loop of acquire_semaphore_write stands with n permits. */
  function Collecting(max: nat, n: nat): Pc {
    if n == max then Unlock else Take(n)
  }

  lemma OneStep(s: Sys, c: Choice)
    requires Enabled(s, Run(c))
    ensures RunsAlone(s, c, 1) && Alone(s, c, 1) == Step(s, c)
  {
    assert RunsAlone(Step(s, c), c, 0);
  }

  /** With all other permits free the loop collects them one by one. */
  lemma {:induction false} CollectAll(s: Sys, c: Choice, n: nat)
    requires Ready(s) && n <= s.max && 0 < s.max < WORD
    ensures var a, b := With(s, Take(0), 1, 0), With(s, Collecting(s.max, n), 1, n);
            RunsAlone(a, c, n) && Alone(a, c, n) == b
    decreases n
  {
    if n > 0 {
      var a, b := With(s, Take(0), 1, 0), With(s, Collecting(s.max, n - 1), 1, n - 1);
      CollectAll(s, c, n - 1);
      assert Step(b, c) == With(s, Collecting(s.max, n), 1, n);
      OneStep(b, c);
      AloneMore(a, c, n - 1, 1);
    }
  }

  /** No thread sleeps on either queue. */
  predicate NobodyWaits(s: Sys) {
    && MUTEX_WQ in s.sched.waitq && SEM_WQ in s.sched.waitq
    && s.sched.waitq[MUTEX_WQ] == [] && s.sched.waitq[SEM_WQ] == []
  }

  /** A thread alone, with the mutex clear and all permits free, is writing after max + 4
      steps, and holds all of them. */
  lemma WriterGetsIn(s: Sys)
    requires Ready(s) && NobodyWaits(s) && 0 < s.max < WORD && s.mutex == 0 && s.sem == 0
    requires Running(s).pc == Outside
    ensures var n := s.max + 4;
            && RunsAlone(s, BeginWrite, n) && Alone(s, BeginWrite, n) == With(s, Writing, 0, s.max)
            && Held(s.max, Running(Alone(s, BeginWrite, n))) == Running(s).shares + s.max
  {
    var c := BeginWrite;
    var s3, s4, s5 := With(s, Unlock, 1, s.max), With(s, UnlockWake, 0, s.max), With(s, Writing, 0, s.max);
    WriterCollects(s);
    assert Step(s3, c) == s4;
    WakeNone(s.sched, MUTEX_WQ);
    assert Step(s4, c) == s5;
    hide Step;
    OneStep(s3, c);
    AloneMore(s, c, 2 + s.max, 1);
    OneStep(s4, c);
    AloneMore(s, c, 3 + s.max, 1);
  }

  lemma WriterCollects(s: Sys)
    requires Ready(s) && 0 < s.max < WORD && s.mutex == 0 && s.sem == 0 && Running(s).pc == Outside
    ensures RunsAlone(s, BeginWrite, 2 + s.max) && Alone(s, BeginWrite, 2 + s.max) == With(s, Unlock, 1, s.max)
  {
    var c := BeginWrite;
    var s1, s2 := With(s, LockTry, 0, 0), With(s, Take(0), 1, 0);
    assert Step(s, c) == s1 && Step(s1, c) == s2;
    hide Step;
    OneStep(s, c);
    OneStep(s1, c);
    AloneMore(s, c, 1, 1);
    CollectAll(s, c, s.max);
    AloneMore(s, c, 2, s.max);
  }

  /** Acquiring and releasing for writing gives back the whole state. */
  lemma WriteCycle(s: Sys)
    requires Ready(s) && NobodyWaits(s) && 0 < s.max < WORD && s.mutex == 0 && s.sem == 0
    requires Running(s).pc == Outside
    ensures RunsAlone(s, BeginWrite, s.max + 6) && Alone(s, BeginWrite, s.max + 6) == s
  {
    hide Step;
    var c := BeginWrite;
    var s5, s6 := With(s, Writing, 0, s.max), With(s, WriteWake, 0, 0);
    WriterGetsIn(s);
    WriterReleases(s, c);
    OneStep(s5, c);
    AloneMore(s, c, s.max + 4, 1);
    OneStep(s6, c);
    AloneMore(s, c, s.max + 5, 1);
  }

  /** release_semaphore_write when nobody sleeps. */
  lemma WriterReleases(s: Sys, c: Choice)
    requires Ready(s) && NobodyWaits(s) && s.max < WORD && s.mutex == 0 && s.sem == 0 && Running(s).pc == Outside
    ensures Step(With(s, Writing, 0, s.max), c) == With(s, WriteWake, 0, 0)
    ensures Step(With(s, WriteWake, 0, 0), c) == s
  {
    WakeNone(s.sched, SEM_WQ);
    assert s.threads[s.sched.current := Running(s)] == s.threads;
  }

  /** A reader that starts with a permit free has it two steps later. */
  lemma ReaderGetsIn(s: Sys)
    requires WordsOk(s) && Ready(s) && Running(s).pc == Outside && s.sem < s.max
    ensures RunsAlone(s, BeginRead, 2)
    ensures var s' := Alone(s, BeginRead, 2);
            OwnStep(s, s') && Running(s') == Thread(Outside, Running(s).shares + 1) && s'.sem == s.sem + 1
  {
    var s1 := Step(s, BeginRead);
    OneStep(s, BeginRead);
    WordsRead(s, BeginRead);
    ReaderPassesIff(s1, BeginRead);
    OneStep(s1, BeginRead);
    AloneMore(s, BeginRead, 1, 1);
  }

  /** A step that has backed off puts the thread to sleep at the tail of the semaphore's
      queue, where it will try again. */
  predicate AsleepOn(s: Sys, s': Sys, q: WaitQueue, pc: Pc)
    requires s.sched.current < |s.threads|
  {
    var t := s.sched.current;
    && q in s.sched.waitq && q in s'.sched.waitq && s'.sched.waitq[q] == s.sched.waitq[q] + [t]
    && t in s'.sched.flags && s'.sched.flags[t] == Flags(true, true, false)
    && s'.max == s.max && |s'.threads| == |s.threads| && s'.threads[t] == Thread(pc, s.threads[t].shares)
    && forall u :: 0 <= u < |s.threads| && u != t ==> s'.threads[u] == s.threads[u]
  }

  lemma ThreeSteps(s: Sys, c: Choice, s1: Sys, s2: Sys)
    requires Enabled(s, Run(c)) && Step(s, c) == s1 && Enabled(s1, Run(c)) && Step(s1, c) == s2 && Enabled(s2, Run(c))
    ensures RunsAlone(s, c, 3) && Alone(s, c, 3) == Step(s2, c)
  {
    hide Step, Enabled;
    OneStep(s, c);
    OneStep(s1, c);
    AloneMore(s, c, 1, 1);
    OneStep(s2, c);
    AloneMore(s, c, 2, 1);
  }

  /** sleep_thread before the switch away. */
  function Asleep(s: State, q: WaitQueue, interruptable: bool): State
    requires q in s.waitq
  {
    s.(flags := s.flags[s.current := Flags(true, interruptable, false)],
       wq := s.wq[s.current := q],
       waitq := s.waitq[q := s.waitq[q] + [s.current]])
  }

  lemma DispatchOnly(s: State)
    ensures Dispatch(s) == s.(current := Dispatch(s).current, runq := Dispatch(s).runq)
  {
  }

  /** The step that calls sleep_thread on the semaphore's queue. */
  lemma SleepStep(s: Sys, c: Choice)
    requires Enabled(s, Run(c)) && (Running(s).pc == ReadSleep || Running(s).pc.TakeSleep?)
    ensures var pc := if Running(s).pc == ReadSleep then ReadTry else Take(Running(s).pc.got);
            AsleepOn(s, Step(s, c), SEM_WQ, pc) && Step(s, c).sem == s.sem && Step(s, c).mutex == s.mutex
  {
    hide Dispatch;
    DispatchOnly(Asleep(s.sched, SEM_WQ, true));
  }

  /** A reader that finds no permit gives its failed attempt back and sleeps on the
      semaphore's queue until it tries again. */
  lemma ReaderSleeps(s: Sys, c: Choice)
    requires WordsOk(s) && Enabled(s, Run(c)) && Running(s).pc == ReadTry && s.sem >= s.max
    ensures RunsAlone(s, c, 3)
    ensures var s' := Alone(s, c, 3);
            AsleepOn(s, s', SEM_WQ, ReadTry) && s'.sem == s.sem && s'.mutex == s.mutex
  {
    hide WordsOk, Dispatch;
    var s1 := With(s, ReadBackoff, s.mutex, s.sem + 1);
    var s2 := With(s, ReadSleep, s.mutex, s.sem);
    SumsOf(s, s.sched.current);
    assert Step(s, c) == s1 && Step(s1, c) == s2;
    ThreeSteps(s, c, s1, s2);
    SleepStep(s2, c);
    hide Step;
  }

  /** The same for a writer that collects, which keeps the permits it has. */
  lemma CollectorSleeps(s: Sys, c: Choice, n: nat)
    requires WordsOk(s) && Enabled(s, Run(c)) && Running(s).pc == Take(n) && s.sem >= s.max
    ensures RunsAlone(s, c, 3)
    ensures var s' := Alone(s, c, 3);
            AsleepOn(s, s', SEM_WQ, Take(n)) && s'.sem == s.sem && s'.mutex == s.mutex
  {
    hide Step;
    var s1, s2 := With(s, TakeBackoff(n), s.mutex, s.sem + 1), With(s, TakeSleep(n), s.mutex, s.sem);
    CollectorBacksOff(s, c, n);
    ThreeSteps(s, c, s1, s2);
    SleepStep(s2, c);
  }

  lemma CollectorBacksOff(s: Sys, c: Choice, n: nat)
    requires WordsOk(s) && Enabled(s, Run(c)) && Running(s).pc == Take(n) && s.sem >= s.max
    ensures var s1, s2 := With(s, TakeBackoff(n), s.mutex, s.sem + 1), With(s, TakeSleep(n), s.mutex, s.sem);
            Step(s, c) == s1 && Step(s1, c) == s2
  {
    SumsOf(s, s.sched.current);
    hide WordsOk;
  }

  /** A thread that finds the mutex taken sleeps on its queue, and tries again when it
      runs. */
  lemma LockerSleeps(s: Sys, c: Choice)
    requires WordsOk(s) && Enabled(s, Run(c)) && Running(s).pc == LockTry && s.mutex == 1
    ensures RunsAlone(s, c, 2)
    ensures var s' := Alone(s, c, 2);
            AsleepOn(s, s', MUTEX_WQ, LockWoken) && s'.sem == s.sem && s'.mutex == s.mutex
  {
    var s1 := Step(s, c);
    OneStep(s, c);
    OneStep(s1, c);
    AloneMore(s, c, 1, 1);
  }

  lemma LockerTriesAgain(s: Sys, c: Choice)
    requires SysInv(s) && Enabled(s, Run(c)) && Running(s).pc == LockWoken
    ensures Step(s, c) == With(s, LockTry, s.mutex, s.sem)
  {
  }

  /** Releasing a read permit gives it back and moves every sleeper of the semaphore, in
      order, to the tail of the run queue. */
  lemma ReaderReleases(s: Sys)
    requires WordsOk(s) && Ready(s) && Running(s).pc == Outside && Running(s).shares > 0
    ensures RunsAlone(s, EndRead, 1) && Enabled(Step(s, EndRead), Run(BeginRead))
    ensures var s' := Step(Step(s, EndRead), BeginRead);
            && s'.sem == s.sem - 1 && s'.mutex == s.mutex
            && s'.threads[s.sched.current] == Thread(Outside, Running(s).shares - 1)
            && s'.sched.runq == s.sched.runq + s.sched.waitq[SEM_WQ] && s'.sched.waitq == s.sched.waitq[SEM_WQ := []]
  {
    hide Wake;
    OneStep(s, EndRead);
    SumsOf(s, s.sched.current);
    WakeMeans(s.sched, SEM_WQ);
  }

  /** Releasing for writing gives all the permits back and moves every sleeper of the
      semaphore, in order, to the tail of the run queue. */
  lemma WriteReleases(s: Sys, c: Choice)
    requires WordsOk(s) && Enabled(s, Run(c)) && Running(s).pc == Writing
    ensures Enabled(Step(s, c), Run(c))
    ensures var s' := Step(Step(s, c), c);
            && s'.sem == s.sem - s.max && s'.mutex == s.mutex && s'.max == s.max
            && s'.threads == s.threads[s.sched.current := Thread(Outside, Running(s).shares)]
            && s'.sched.runq == s.sched.runq + s.sched.waitq[SEM_WQ] && s'.sched.waitq == s.sched.waitq[SEM_WQ := []]
  {
    hide Wake;
    SumsOf(s, s.sched.current);
    WakeMeans(s.sched, SEM_WQ);
  }

  /** A writer that has all permits clears the mutex and moves every thread that sleeps on
      it, in order, to the tail of the run queue; then it is writing. */
  lemma MutexReleases(s: Sys, c: Choice)
    requires WordsOk(s) && Enabled(s, Run(c)) && Running(s).pc == Unlock
    ensures Enabled(Step(s, c), Run(c))
    ensures var s' := Step(Step(s, c), c);
            && s'.sem == s.sem && s'.mutex == 0 && s'.max == s.max
            && s'.threads == s.threads[s.sched.current := Thread(Writing, Running(s).shares)]
            && s'.sched.runq == s.sched.runq + s.sched.waitq[MUTEX_WQ]
            && s'.sched.waitq == s.sched.waitq[MUTEX_WQ := []]
  {
    hide Wake;
    WakeMeans(s.sched, MUTEX_WQ);
  }

  // ---- the scheduler's side ----------------------------------------------

  /** The scheduler events behind one event. */
  function SchedEvents(s: Sys, e: Event): seq<SchedulerRuns.Event>
    requires Enabled(s, e)
  {
    match e
    case Sched(se) => [se]
    case Run(_) =>
      match s.threads[s.sched.current].pc
      case ReadSleep => [SchedulerRuns.SleepOn(SEM_WQ, true)]
      case TakeSleep(_) => [SchedulerRuns.SleepOn(SEM_WQ, true)]
      case LockSleep => [SchedulerRuns.SleepOn(MUTEX_WQ, true)]
      case ReadWake => [SchedulerRuns.WakeUp(SEM_WQ)]
      case WriteWake => [SchedulerRuns.WakeUp(SEM_WQ)]
      case UnlockWake => [SchedulerRuns.WakeUp(MUTEX_WQ)]
      case _ => []
  }

  function SchedRun(s: Sys, es: seq<Event>): seq<SchedulerRuns.Event>
    requires Runs(s, es)
    decreases |es|
  {
    if es == [] then [] else SchedEvents(s, es[0]) + SchedRun(Apply(s, es[0]), es[1..])
  }

  lemma EventsApply(s: Sys, e: Event)
    requires Enabled(s, e)
    ensures SchedulerRuns.Runs(s.sched, SchedEvents(s, e))
    ensures SchedulerRuns.After(s.sched, SchedEvents(s, e)) == Apply(s, e).sched
  {
    var ses := SchedEvents(s, e);
    if ses != [] {
      assert ses[1..] == [];
      assert SchedulerRuns.Enabled(s.sched, ses[0]);
    }
  }

  lemma {:induction false} RunsConcat(s: State, a: seq<SchedulerRuns.Event>, b: seq<SchedulerRuns.Event>)
    requires SchedulerRuns.Runs(s, a) && SchedulerRuns.Runs(SchedulerRuns.After(s, a), b)
    ensures SchedulerRuns.Runs(s, a + b)
    ensures SchedulerRuns.After(s, a + b) == SchedulerRuns.After(SchedulerRuns.After(s, a), b)
    decreases |a|
  {
    if a == [] {
      assert a + b == b;
    } else {
      assert (a + b)[0] == a[0] && (a + b)[1..] == a[1..] + b;
      RunsConcat(SchedulerRuns.Apply(s, a[0]), a[1..], b);
    }
  }

  /** Every run is, on the scheduler's side, a run of scheduler events: bounded waiting
      and all else that is proved of those holds here. */
  lemma {:induction false} SchedProjection(s: Sys, es: seq<Event>)
    requires Runs(s, es)
    ensures SchedulerRuns.Runs(s.sched, SchedRun(s, es))
    ensures SchedulerRuns.After(s.sched, SchedRun(s, es)) == After(s, es).sched
    decreases |es|
  {
    if es != [] {
      var s' := Apply(s, es[0]);
      EventsApply(s, es[0]);
      SchedProjection(s', es[1..]);
      RunsConcat(s.sched, SchedEvents(s, es[0]), SchedRun(s', es[1..]));
    }
  }
}
