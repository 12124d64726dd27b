/**
 The mutex, counting semaphore and reader/writer semaphore of
 kernel/structures/mutex.c as a transition system over any number of threads, on
 top of the scheduler of kernel/task.c.  The running thread takes one step at a
 time; each __sync_ operation is one step and so is each routine that runs with
 interrupts off.  The plain decrement of a failed attempt (mutex.c:82) and the
 writer's plain subtraction (mutex.c:135) are taken as single steps.
 */
module RwSem {
  import opened Machine
  import opened Scheduler
  import SchedulerRuns

  /** The wait queues of the `write` mutex and of the semaphore. */
  const MUTEX_WQ: WaitQueue := 1
  const SEM_WQ: WaitQueue := 2

  /** Where a thread stands. */
  datatype Pc =
    | Outside                // in none of the routines
    | ReadTry                // about to add 1
    | ReadBackoff            // the sum exceeded max; about to subtract 1
    | ReadSleep              // about to call sleep_thread
    | ReadWake               // released; about to call wake_queue
    | LockTry                // about to test and set the mutex
    | LockSleep              // it was set; about to call sleep_thread
    | LockWoken              // about to look at what sleep_thread returned
    | Take(got: nat)         // holds the mutex, about to add 1
    | TakeBackoff(got: nat)
    | TakeSleep(got: nat)
    | Unlock                 // has all permits; about to clear the mutex
    | UnlockWake             // about to wake the mutex's queue
    | Writing                // returned from acquire_semaphore_write
    | WriteWake              // released; about to call wake_queue

  /** `shares` counts the read acquisitions the thread has not released. */
  datatype Thread = Thread(pc: Pc, shares: nat)

  datatype Sys = Sys(sched: State, mutex: nat, sem: nat, max: nat, threads: seq<Thread>)

  /** Permits a thread holds. */
  function Held(max: nat, th: Thread): nat {
    th.shares + match th.pc
               case Take(n) => n
               case TakeBackoff(n) => n
               case TakeSleep(n) => n
               case Unlock => max
               case UnlockWake => max
               case Writing => max
               case _ => 0
  }

  /** Failed attempts not yet backed out. */
  function Failed(th: Thread): nat {
    if th.pc == ReadBackoff || th.pc.TakeBackoff? then 1 else 0
  }

  /** 1 for a thread between taking and clearing the mutex. */
  function Owns(th: Thread): nat {
    if th.pc.Take? || th.pc.TakeBackoff? || th.pc.TakeSleep? || th.pc.Unlock? then 1 else 0
  }

  function SumHeld(max: nat, ts: seq<Thread>): nat {
    if ts == [] then 0 else SumHeld(max, ts[..|ts|-1]) + Held(max, ts[|ts|-1])
  }

  function SumFailed(ts: seq<Thread>): nat {
    if ts == [] then 0 else SumFailed(ts[..|ts|-1]) + Failed(ts[|ts|-1])
  }

  function SumOwns(ts: seq<Thread>): nat {
    if ts == [] then 0 else SumOwns(ts[..|ts|-1]) + Owns(ts[|ts|-1])
  }

  // ---- steps ----------------------------------------------------------

  function Goto(s: Sys, pc: Pc): Sys
    requires s.sched.current < |s.threads|
  {
    var t := s.sched.current;
    s.(threads := s.threads[t := s.threads[t].(pc := pc)])
  }

  /** Put the running thread to sleep; it continues at `pc` when woken. */
  function SleepAt(s: Sys, q: WaitQueue, pc: Pc): Sys
    requires s.sched.current < |s.threads| && q in s.sched.waitq
  {
    Goto(s, pc).(sched := Sleep(s.sched, q, true))
  }

  function WakeAt(s: Sys, q: WaitQueue, pc: Pc): Sys
    requires s.sched.current < |s.threads| && q in s.sched.waitq
  {
    Goto(s, pc).(sched := Wake(s.sched, q))
  }

  /** The choices a thread outside the routines has. */
  datatype Choice = BeginRead | BeginWrite | EndRead

  predicate Ready(s: Sys) {
    && s.sched.current < |s.threads| && s.sched.current != s.sched.kidle
    && MUTEX_WQ in s.sched.waitq && SEM_WQ in s.sched.waitq
  }

  /** One step of the running thread; `choice` matters only outside. */
  function Step(s: Sys, choice: Choice): Sys
    requires Ready(s)
    requires s.threads[s.sched.current].pc == Outside && choice == EndRead ==>
               s.threads[s.sched.current].shares > 0
  {
    var t := s.sched.current;
    var th := s.threads[t];
    match th.pc
    case Outside =>
      (match choice
       case BeginRead => Goto(s, ReadTry)
       case BeginWrite => Goto(s, LockTry)
       case EndRead => s.(sem := Wrap(s.sem - 1), threads := s.threads[t := Thread(ReadWake, th.shares - 1)]))
    // acquire_semaphore for a reader
    case ReadTry =>
      var sem := Wrap(s.sem + 1);
      if sem > s.max then Goto(s, ReadBackoff).(sem := sem)
      else s.(sem := sem, threads := s.threads[t := Thread(Outside, th.shares + 1)])
    case ReadBackoff => Goto(s, ReadSleep).(sem := Wrap(s.sem - 1))
    case ReadSleep => SleepAt(s, SEM_WQ, ReadTry)
    case ReadWake => WakeAt(s, SEM_WQ, Outside)
    // acquire_mutex
    case LockTry =>
      if s.mutex != 1 then Goto(s, Take(0)).(mutex := 1)
      else Goto(s, LockSleep).(mutex := 1)
    case LockSleep => SleepAt(s, MUTEX_WQ, LockWoken)
    case LockWoken =>
      if t in s.sched.flags && s.sched.flags[t].interrupted then Goto(s, Take(0))
      else Goto(s, LockTry)
    // the loop that takes all permits
    case Take(n) =>
      if n >= s.max then Goto(s, Unlock)
      else
        var sem := Wrap(s.sem + 1);
        if sem > s.max then Goto(s, TakeBackoff(n)).(sem := sem)
        else Goto(s, if n + 1 >= s.max then Unlock else Take(n + 1)).(sem := sem)
    case TakeBackoff(n) => Goto(s, TakeSleep(n)).(sem := Wrap(s.sem - 1))
    case TakeSleep(n) => SleepAt(s, SEM_WQ, Take(n))
    // release_mutex
    case Unlock => Goto(s, UnlockWake).(mutex := 0)
    case UnlockWake => WakeAt(s, MUTEX_WQ, Writing)
    // release_semaphore_write
    case Writing => Goto(s, WriteWake).(sem := Wrap(s.sem - s.max))
    case WriteWake => WakeAt(s, SEM_WQ, Outside)
  }

  /** A step of the running thread, or any scheduler event that is not one of the
      sleeps and wake-ups the threads do themselves. */
  datatype Event = Run(choice: Choice) | Sched(e: SchedulerRuns.Event)

  predicate Enabled(s: Sys, e: Event) {
    match e
    case Run(c) =>
      && Ready(s)
      && (s.threads[s.sched.current].pc == Outside && c == EndRead ==> s.threads[s.sched.current].shares > 0)
    case Sched(se) =>
      && SchedulerRuns.Enabled(s.sched, se)
      && (match se
          case ForkTask(t) => t == |s.threads| && s.max + |s.threads| + 1 < WORD
          case NewTasklet(t) => t == |s.threads| && s.max + |s.threads| + 1 < WORD
          case ExitCurrent =>
            s.sched.current < |s.threads| && s.threads[s.sched.current] == Thread(Outside, 0)
          case TaskletDone =>
            s.sched.current < |s.threads| && s.threads[s.sched.current] == Thread(Outside, 0)
          case DropQueue(q) => q != MUTEX_WQ && q != SEM_WQ
          case SleepOn(q, _) =>
            q != MUTEX_WQ && q != SEM_WQ && s.sched.current < |s.threads|
            && (s.threads[s.sched.current].pc == Outside || s.threads[s.sched.current].pc == Writing)
          case _ => true)
  }

  function Apply(s: Sys, e: Event): Sys
    requires Enabled(s, e)
  {
    match e
    case Run(c) => Step(s, c)
    case Sched(se) =>
      var s' := s.(sched := SchedulerRuns.Apply(s.sched, se));
      if se.ForkTask? || se.NewTasklet? then s'.(threads := s.threads + [Thread(Outside, 0)]) else s'
  }

  predicate Runs(s: Sys, es: seq<Event>)
    decreases |es|
  {
    es == [] || (Enabled(s, es[0]) && Runs(Apply(s, es[0]), es[1..]))
  }

  function After(s: Sys, es: seq<Event>): Sys
    requires Runs(s, es)
    decreases |es|
  {
    if es == [] then s else After(Apply(s, es[0]), es[1..])
  }

  // ---- the invariant --------------------------------------------------

  predicate PcOk(max: nat, th: Thread) {
    match th.pc
    case Take(n) => n < max
    case TakeBackoff(n) => n < max
    case TakeSleep(n) => n < max
    case _ => true
  }

  /** The semaphore word is permits held plus failed attempts not yet backed out;
      permits held never exceed max; the mutex word counts its owners. */
  predicate WordsOk(s: Sys) {
    && 0 < s.max && s.max + |s.threads| < WORD
    && s.sem == SumHeld(s.max, s.threads) + SumFailed(s.threads)
    && SumHeld(s.max, s.threads) <= s.max
    && s.mutex == SumOwns(s.threads) && s.mutex <= 1
    && (forall t :: 0 <= t < |s.threads| ==> PcOk(s.max, s.threads[t]))
  }

  ghost predicate SysInv(s: Sys) {
    Inv(s.sched) && WordsOk(s)
  }

  lemma {:induction false} SumUpdate(max: nat, ts: seq<Thread>, t: nat, th: Thread)
    requires t < |ts|
    ensures SumHeld(max, ts[t := th]) == SumHeld(max, ts) - Held(max, ts[t]) + Held(max, th)
    ensures SumFailed(ts[t := th]) == SumFailed(ts) - Failed(ts[t]) + Failed(th)
    ensures SumOwns(ts[t := th]) == SumOwns(ts) - Owns(ts[t]) + Owns(th)
    decreases |ts|
  {
    var us := ts[t := th];
    if t == |ts| - 1 {
      assert us[..|us|-1] == ts[..|ts|-1];
    } else {
      assert us[..|us|-1] == ts[..|ts|-1][t := th];
      SumUpdate(max, ts[..|ts|-1], t, th);
    }
  }

  lemma {:induction false} FailedBound(ts: seq<Thread>)
    ensures SumFailed(ts) <= |ts|
    decreases |ts|
  {
    if ts != [] { FailedBound(ts[..|ts|-1]); }
  }

  /** No two threads together hold more than all do. */
  lemma {:induction false} TwoShares(max: nat, ts: seq<Thread>, t: nat, u: nat)
    requires t < u < |ts|
    ensures Held(max, ts[t]) + Held(max, ts[u]) <= SumHeld(max, ts)
    ensures Owns(ts[t]) + Owns(ts[u]) <= SumOwns(ts)
    decreases |ts|
  {
    var us := ts[..|ts|-1];
    if u == |ts| - 1 {
      OneShare(max, us, t);
      assert us[t] == ts[t];
    } else {
      TwoShares(max, us, t, u);
      assert us[t] == ts[t] && us[u] == ts[u];
    }
  }

  lemma {:induction false} OneShare(max: nat, ts: seq<Thread>, t: nat)
    requires t < |ts|
    ensures Held(max, ts[t]) <= SumHeld(max, ts)
    ensures Owns(ts[t]) <= SumOwns(ts)
    ensures Failed(ts[t]) <= SumFailed(ts)
    decreases |ts|
  {
    if t < |ts| - 1 { OneShare(max, ts[..|ts|-1], t); }
  }

  /** A thread that has not failed leaves room for one more failure. */
  lemma FailedRoom(ts: seq<Thread>, t: nat)
    requires t < |ts| && Failed(ts[t]) == 0
    ensures SumFailed(ts) + 1 <= |ts|
  {
    SumUpdate(0, ts, t, Thread(ReadBackoff, 0));
    FailedBound(ts[t := Thread(ReadBackoff, 0)]);
  }

  /** The words after the running thread has become `th'` and they have been set:
      only the balance of its own change counts. */
  lemma Balance(s: Sys, th': Thread, mutex': nat, sem': nat)
    requires WordsOk(s) && s.sched.current < |s.threads| && PcOk(s.max, th')
    requires var th := s.threads[s.sched.current];
             && sem' == s.sem - Held(s.max, th) + Held(s.max, th') - Failed(th) + Failed(th')
             && (Held(s.max, th') <= Held(s.max, th) || sem' <= s.max)
             && mutex' == s.mutex - Owns(th) + Owns(th') && mutex' <= 1
    ensures WordsOk(s.(mutex := mutex', sem := sem', threads := s.threads[s.sched.current := th']))
  {
    var t := s.sched.current;
    SumUpdate(s.max, s.threads, t, th');
  }

  /** What the sums say about the running thread and the words. */
  lemma SumsOf(s: Sys, t: nat)
    requires WordsOk(s) && t < |s.threads|
    ensures s.sem == SumHeld(s.max, s.threads) + SumFailed(s.threads)
    ensures SumHeld(s.max, s.threads) <= s.max && 0 < s.max
    ensures Held(s.max, s.threads[t]) + Failed(s.threads[t]) <= s.sem < WORD
    ensures Failed(s.threads[t]) == 0 ==> s.sem + 1 < WORD
    ensures Owns(s.threads[t]) <= s.mutex <= 1
    ensures PcOk(s.max, s.threads[t])
  {
    OneShare(s.max, s.threads, t);
    FailedBound(s.threads);
    if Failed(s.threads[t]) == 0 { FailedRoom(s.threads, t); }
  }

  ghost predicate Uninterrupted(s: Sys) {
    s.sched.current in s.sched.flags ==> !s.sched.flags[s.sched.current].interrupted
  }

  predicate Reader(pc: Pc) {
    pc.Outside? || pc.ReadTry? || pc.ReadBackoff? || pc.ReadSleep? || pc.ReadWake?
  }

  lemma WordsRead(s: Sys, choice: Choice)
    requires WordsOk(s) && Enabled(s, Run(choice)) && Reader(s.threads[s.sched.current].pc)
    ensures WordsOk(Step(s, choice))
  {
    hide WordsOk, SumHeld, SumFailed, SumOwns, Wake, Sleep;
    var t, s' := s.sched.current, Step(s, choice);
    SumsOf(s, t);
    assert s'.threads == s.threads[t := s'.threads[t]];
    Balance(s, s'.threads[t], s'.mutex, s'.sem);
    BalanceSched(s, s');
  }

  lemma WordsTake(s: Sys, choice: Choice)
    requires WordsOk(s) && Enabled(s, Run(choice))
    requires var pc := s.threads[s.sched.current].pc; pc.Take? || pc.TakeBackoff? || pc.TakeSleep?
    ensures WordsOk(Step(s, choice))
  {
    hide WordsOk, SumHeld, SumFailed, SumOwns, Wake, Sleep;
    var t, s' := s.sched.current, Step(s, choice);
    SumsOf(s, t);
    assert s'.threads == s.threads[t := s'.threads[t]];
    Balance(s, s'.threads[t], s'.mutex, s'.sem);
    BalanceSched(s, s');
  }

  lemma WordsLock(s: Sys, choice: Choice)
    requires WordsOk(s) && Enabled(s, Run(choice)) && Uninterrupted(s)
    requires var pc := s.threads[s.sched.current].pc;
             !Reader(pc) && !(pc.Take? || pc.TakeBackoff? || pc.TakeSleep?)
    ensures WordsOk(Step(s, choice))
  {
    hide WordsOk, SumHeld, SumFailed, SumOwns, Wake, Sleep;
    var t, s' := s.sched.current, Step(s, choice);
    SumsOf(s, t);
    assert s'.threads == s.threads[t := s'.threads[t]];
    Balance(s, s'.threads[t], s'.mutex, s'.sem);
    BalanceSched(s, s');
  }

  /** The words do not depend on the scheduler's state. */
  lemma BalanceSched(s: Sys, s': Sys)
    requires s'.max == s.max
    requires WordsOk(s.(mutex := s'.mutex, sem := s'.sem, threads := s'.threads))
    ensures WordsOk(s')
  {
  }

  /** The words after a step of the running thread. */
  lemma WordsStep(s: Sys, choice: Choice)
    requires WordsOk(s) && Enabled(s, Run(choice)) && Uninterrupted(s)
    ensures WordsOk(Step(s, choice))
  {
    hide WordsOk, Step;
    var pc := s.threads[s.sched.current].pc;
    if Reader(pc) {
      WordsRead(s, choice);
    } else if pc.Take? || pc.TakeBackoff? || pc.TakeSleep? {
      WordsTake(s, choice);
    } else {
      WordsLock(s, choice);
    }
  }

  lemma SchedStep(s: Sys, choice: Choice)
    requires Inv(s.sched) && Enabled(s, Run(choice))
    ensures Inv(Step(s, choice).sched)
  {
    hide Inv, Wake, Sleep;
    match s.threads[s.sched.current].pc
    case ReadSleep => SleepKeeps(s.sched, SEM_WQ, true);
    case TakeSleep(_) => SleepKeeps(s.sched, SEM_WQ, true);
    case LockSleep => SleepKeeps(s.sched, MUTEX_WQ, true);
    case ReadWake => WakeKeeps(s.sched, SEM_WQ);
    case WriteWake => WakeKeeps(s.sched, SEM_WQ);
    case UnlockWake => WakeKeeps(s.sched, MUTEX_WQ);
    case _ =>
  }

  lemma StepKeeps(s: Sys, e: Event)
    requires SysInv(s) && Enabled(s, e)
    ensures SysInv(Apply(s, e))
  {
    match e
    case Run(c) =>
      WordsStep(s, c);
      SchedStep(s, c);
    case Sched(se) =>
      SchedulerRuns.StepKeeps(s.sched, se);
      var ts := s.threads + [Thread(Outside, 0)];
      assert ts[..|ts|-1] == s.threads;
  }

  lemma {:induction false} RunKeeps(s: Sys, es: seq<Event>)
    requires SysInv(s) && Runs(s, es)
    ensures SysInv(After(s, es))
    decreases |es|
  {
    if es != [] {
      StepKeeps(s, es[0]);
      RunKeeps(Apply(s, es[0]), es[1..]);
    }
  }

  // ---- what the invariant gives ---------------------------------------

  /** create_rw_semaphore(max) just done: nobody inside. */
  ghost predicate Created(s: Sys) {
    && Inv(s.sched) && MUTEX_WQ in s.sched.waitq && SEM_WQ in s.sched.waitq
    && s.mutex == 0 && s.sem == 0 && 0 < s.max && s.max + |s.threads| < WORD
    && (forall t :: 0 <= t < |s.threads| ==> s.threads[t] == Thread(Outside, 0))
  }

  lemma {:induction false} QuietSums(max: nat, ts: seq<Thread>)
    requires forall t :: 0 <= t < |ts| ==> ts[t] == Thread(Outside, 0)
    ensures SumHeld(max, ts) == 0 && SumFailed(ts) == 0 && SumOwns(ts) == 0
    decreases |ts|
  {
    if ts != [] { QuietSums(max, ts[..|ts|-1]); }
  }

  /** A thread that has returned from acquire_semaphore_write holds all permits:
      no thread reads and no other thread writes. */
  ghost predicate WriterAlone(s: Sys, t: nat)
    requires t < |s.threads|
  {
    s.threads[t].pc == Writing ==>
      && Held(s.max, s.threads[t]) == s.max && s.threads[t].shares == 0
      && forall u :: 0 <= u < |s.threads| && u != t ==>
           s.threads[u].shares == 0 && s.threads[u].pc != Writing && Held(s.max, s.threads[u]) == 0
  }

  /** At most one thread is part-way through collecting permits, and the thread
      that has got past acquire_mutex is the only one. */
  ghost predicate OneCollector(s: Sys) {
    forall t, u :: 0 <= t < u < |s.threads| ==> Owns(s.threads[t]) + Owns(s.threads[u]) <= 1
  }

  lemma Exclusion(s: Sys)
    requires WordsOk(s)
    ensures forall t :: 0 <= t < |s.threads| ==> WriterAlone(s, t)
    ensures OneCollector(s)
  {
    forall t | 0 <= t < |s.threads| ensures WriterAlone(s, t) {
      OneShare(s.max, s.threads, t);
      forall u | 0 <= u < |s.threads| && u != t
        ensures Held(s.max, s.threads[t]) + Held(s.max, s.threads[u]) <= s.max
      {
        TwoShares(s.max, s.threads, if t < u then t else u, if t < u then u else t);
      }
    }
    forall t, u | 0 <= t < u < |s.threads| ensures Owns(s.threads[t]) + Owns(s.threads[u]) <= 1 {
      TwoShares(s.max, s.threads, t, u);
    }
  }

  /** acquire_mutex returns only by finding the mutex clear, never because the
      sleep was interrupted, and then its caller is the only owner. */
  lemma AcquireMutexAlone(s: Sys, choice: Choice)
    requires SysInv(s) && Enabled(s, Run(choice))
    requires var pc := s.threads[s.sched.current].pc; pc == LockTry || pc == LockWoken
    requires Owns(Step(s, choice).threads[s.sched.current]) == 1
    ensures s.threads[s.sched.current].pc == LockTry && s.mutex == 0
    ensures forall u :: 0 <= u < |s.threads| ==> Owns(s.threads[u]) == 0
  {
    forall u | 0 <= u < |s.threads| ensures Owns(s.threads[u]) <= s.mutex {
      OneShare(s.max, s.threads, u);
    }
  }

  /** In every state any run can reach: the semaphore word is permits held plus
      failures not backed out, at most max permits are held, a writer inside is
      alone, and the mutex has at most one owner. */
  lemma EveryReachableState(s: Sys, es: seq<Event>)
    requires Created(s) && Runs(s, es)
    ensures var r := After(s, es);
            && r.sem == SumHeld(r.max, r.threads) + SumFailed(r.threads)
            && SumHeld(r.max, r.threads) <= r.max == s.max
            && (forall t :: 0 <= t < |r.threads| ==> WriterAlone(r, t))
            && OneCollector(r)
  {
    QuietSums(s.max, s.threads);
    RunKeeps(s, es);
    MaxFixed(s, es);
    Exclusion(After(s, es));
  }

  lemma {:induction false} MaxFixed(s: Sys, es: seq<Event>)
    requires Runs(s, es)
    ensures After(s, es).max == s.max
    decreases |es|
  {
    if es != [] { MaxFixed(Apply(s, es[0]), es[1..]); }
  }
}
