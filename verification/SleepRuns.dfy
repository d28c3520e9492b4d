// A sleep over whole runs: other tasks are switched to, sleep, fork and exit meanwhile.
module SleepRuns {
  import opened Words
  import opened TaskModel
  import opened SignalModel
  import opened TaskRuns

  /** The task at place i sleeps and has n ticks to go; with none to go, it has no alarm set. */
  predicate Sleeps(w: World, i: nat, n: nat) {
    i < |w.tasks| && i != w.cur && Asleep(w.tasks[i]) && TimeLeft(w.tasks[i].alarm) == n
  }

  /** The current task exits without parent, so that its place disappears. */
  predicate Unlinks(w: World, s: Step)
    requires Sane(w)
  {
    s.Exit? && (w.tasks[w.cur].ppid == 0 || w.tasks[w.cur].ppid == w.tasks[w.cur].pid)
  }

  /** The place that the task at place i has after a step. */
  function Moved(w: World, s: Step, i: nat): nat
    requires Sane(w)
  {
    if Unlinks(w, s) && w.cur < i then i - 1 else i
  }

  /** The step is meant for the task at place i: a wakeup, a signal, or the exit of a child. */
  predicate Disturbs(w: World, s: Step, i: nat)
    requires Sane(w)
  {
    match s
    case Wakeup(places) => i in places
    case Signal(j, _) => i == j
    case Exit => !Unlinks(w, s) && FindTask(w.tasks, w.tasks[w.cur].ppid) == i
    case _ => false
  }

  /** A task that is out of the race: it sleeps, or is not ready yet, or has ended. */
  predicate Out(t: TaskView) {
    !t.state.Runnable? && !t.state.Running? && t.pid != PID_IDLE
  }

  /** The signals of the task at place i after a step other than a tick: a signal sets one bit, and the
      exit of a child bit 17. */
  function SignalsAfter(w: World, s: Step, i: nat): nat
    requires Sane(w) && i < |w.tasks|
  {
    var signal := w.tasks[i].signal;
    match s
    case Signal(j, sig) => if i == j then SetBit(signal, sig) else signal
    case Exit => if Disturbs(w, s, i) then SetBit(signal, 17) else signal
    case _ => signal
  }

  /** Apart from its signals nothing changes but that its parent may be gone. */
  predicate OnlySignalled(t: TaskView, t': TaskView, signal: nat) {
    t' == t.(ppid := t'.ppid, signal := signal)
  }

  /** A rescheduling neither touches nor chooses a task that is not eligible. */
  lemma ReschedulePasses(w: World, i: nat)
    requires Sane(w) && i < |w.tasks| && i != w.cur && i != 0 && !Eligible(w.tasks[i])
    ensures Reschedule(w).cur != i && Reschedule(w).tasks[i] == w.tasks[i]
  {
    hide ClearBit, LowestBit, Search;
    if w.tasks[w.cur].signal == 0 {
      SearchIsNearest(Yielded(w), w.cur, 1);
    }
  }

  lemma OutNotChosen(w: World, i: nat)
    requires Inv(w) && i < |w.tasks| && Out(w.tasks[i])
    ensures Sane(w) && i != 0 && !Eligible(w.tasks[i])
  {
    hide Parents;
  }

  /** A task that exits with a parent leaves every task that is out of the race out of it, and tells no
      task but that parent. */
  lemma ZombiePasses(w: World, i: nat)
    requires Inv(w) && Enabled(w, Exit) && !Unlinks(w, Exit) && i < |w.tasks| && i != w.cur && Out(w.tasks[i])
    ensures var w' := Do(w, Exit);
            && |w'.tasks| == |w.tasks| && w'.cur != i
            && OnlySignalled(w.tasks[i], w'.tasks[i], SignalsAfter(w, Exit, i))
  {
    hide Inv, Enabled, Do, Reschedule, FindTask, SetBit, Parents, IsListed, Unlink, HandleSignal;
    OutNotChosen(w, i);
    DoExit(w);
    var tasks := Orphan(w.tasks, w.tasks[w.cur].pid);
    ParentKept(w);
    ReschedulePasses(w.(tasks := BecomeZombie(tasks, w.cur)), i);
  }

  /** Orphaning the children changes no PID, so the parent is found at the same place. */
  lemma ParentKept(w: World)
    requires Sane(w)
    ensures var tasks := Orphan(w.tasks, w.tasks[w.cur].pid);
            FindTask(SetState(tasks, w.cur, Zombie), w.tasks[w.cur].ppid) == FindTask(w.tasks, w.tasks[w.cur].ppid)
  {
    hide FindTask;
    var tasks := Orphan(w.tasks, w.tasks[w.cur].pid);
    FindTaskHere(SetState(tasks, w.cur, Zombie), w.tasks[w.cur].ppid, FindTask(w.tasks, w.tasks[w.cur].ppid));
  }

  /** The list from which a task is unlinked: the successor is an eligible task. */
  lemma UnlinkLeaves(tasks: seq<TaskView>, cur: nat, counter: int, j: nat)
    requires 0 < cur < |tasks| && 0 < j < |tasks| - 1 && !Eligible(Without(tasks, cur)[j])
    ensures var w' := Unlink(tasks, cur, counter);
            |w'.tasks| == |tasks| - 1 && w'.cur != j && w'.tasks[j] == Without(tasks, cur)[j]
  {
    hide Search, Without;
    SearchEligible(Without(tasks, cur), cur - 1);
  }

  lemma HandlePasses(w: World, j: nat)
    requires Sane(w) && j < |w.tasks| && j != w.cur
    ensures HandleSignal(w).tasks[j] == w.tasks[j] && HandleSignal(w).cur == w.cur
    ensures |HandleSignal(w).tasks| == |w.tasks|
  {
    hide ClearBit, LowestBit;
  }

  /** A task that exits without parent takes its place with it, and the successor is in the race. */
  lemma UnlinkPasses(w: World, i: nat)
    requires Inv(w) && Enabled(w, Exit) && Unlinks(w, Exit) && i < |w.tasks| && i != w.cur && Out(w.tasks[i])
    ensures var w', j := Do(w, Exit), Moved(w, Exit, i);
            j < |w'.tasks| && w'.cur != j && OnlySignalled(w.tasks[i], w'.tasks[j], w.tasks[i].signal)
  {
    hide Inv, Enabled, Do, Unlink, HandleSignal, Parents, IsListed, Reschedule, BecomeZombie;
    OutNotChosen(w, i);
    DoExit(w);
    var tasks := Orphan(w.tasks, w.tasks[w.cur].pid);
    var j := Moved(w, Exit, i);
    assert Without(tasks, w.cur)[j] == tasks[i];
    UnlinkLeaves(tasks, w.cur, w.counter, j);
    HandlePasses(Unlink(tasks, w.cur, w.counter), j);
  }

  /** A step that is neither a wakeup of a task that is out of the race nor a tick leaves it there; only a
      signal or the exit of a child changes its signals. */
  lemma StepPasses(w: World, s: Step, i: nat)
    requires Inv(w) && Enabled(w, s) && i < |w.tasks| && i != w.cur && Out(w.tasks[i])
    requires !(s.Wakeup? && i in s.places) && !s.TimerTick?
    ensures var w', j := Do(w, s), Moved(w, s, i);
            j < |w'.tasks| && w'.cur != j && OnlySignalled(w.tasks[i], w'.tasks[j], SignalsAfter(w, s, i))
  {
    hide Inv, Reschedule, SetBit, Out, Eligible, Orphan, BecomeZombie, Unlink, FindTask, ForkChild;
    OutNotChosen(w, i);
    match s
    case Resched => ReschedulePasses(w, i);
    case Sleep(ms) => ReschedulePasses(GoToSleep(w, ms), i);
    case QueueSleep => ReschedulePasses(w.(tasks := SetState(w.tasks, w.cur, Interruptable)), i);
    case Wakeup(places) =>
    case Signal(j, sig) =>
    case Fork => DoFork(w);
    case Exit =>
      if Unlinks(w, s) {
        UnlinkPasses(w, i);
      } else {
        ZombiePasses(w, i);
      }
  }

  /** One tick of a sleep. */
  lemma TickPasses(w: World, i: nat, n: nat)
    requires Inv(w) && Sleeps(w, i, n)
    ensures Enabled(w, TimerTick)
    ensures var w' := Do(w, TimerTick);
            && |w'.tasks| == |w.tasks| && w'.cur == w.cur
            && w'.tasks[i].pid == w.tasks[i].pid
            && if n == 1 then w'.tasks[i] == Woken(w.tasks[i]) else Sleeps(w', i, if n == 0 then 0 else n - 1)
  {
    DoTick(w);
    hide Inv, Do, Tick, Decrement, TimeLeft;
    if n == 0 {
      SleepForever(w.tasks[i], 1);
      assert Ticks(w.tasks[i], 1) == Tick(Ticks(w.tasks[i], 0));
    } else {
      SleepTick(w.tasks[i]);
      TimePasses(w.tasks[i].alarm);
    }
  }

  function TickCount(steps: seq<Step>): nat {
    if |steps| == 0 then 0 else (if steps[0].TimerTick? then 1 else 0) + TickCount(steps[1..])
  }

  /** No step of a run is meant for the task that starts at place i. */
  ghost predicate Undisturbed(w: World, steps: seq<Step>, i: nat)
    requires Inv(w) && CanRun(w, steps)
    decreases |steps|
  {
    |steps| == 0 ||
    (!Disturbs(w, steps[0], i) &&
     (InvKept(w, steps[0]); Undisturbed(Do(w, steps[0]), steps[1..], Moved(w, steps[0], i))))
  }

  /** The place at the end of a run of the task that starts at place i. */
  ghost function PlaceAfter(w: World, steps: seq<Step>, i: nat): nat
    requires Inv(w) && CanRun(w, steps)
    decreases |steps|
  {
    if |steps| == 0 then i
    else InvKept(w, steps[0]); PlaceAfter(Do(w, steps[0]), steps[1..], Moved(w, steps[0], i))
  }

  /** One step of a sleep whose time is not up. */
  lemma SleepStep(w: World, s: Step, i: nat, n: nat)
    requires Inv(w) && Enabled(w, s) && Sleeps(w, i, n) && !Disturbs(w, s, i)
    requires s.TimerTick? ==> n != 1
    ensures Sleeps(Do(w, s), Moved(w, s, i), if s.TimerTick? && n > 0 then n - 1 else n)
    ensures Do(w, s).tasks[Moved(w, s, i)].pid == w.tasks[i].pid
  {
    if s.TimerTick? {
      TickPasses(w, i, n);
    } else {
      StepPasses(w, s, i);
    }
  }

  /** In every run in which nothing is meant for a sleeping task it sleeps on, and is not current,
      until its time is up; without alarm it sleeps for ever. */
  lemma {:induction false} SleepsOn(w: World, steps: seq<Step>, i: nat, n: nat)
    requires Inv(w) && CanRun(w, steps) && Sleeps(w, i, n) && Undisturbed(w, steps, i)
    requires n == 0 || TickCount(steps) < n
    ensures Sleeps(RunAll(w, steps), PlaceAfter(w, steps, i), if n == 0 then 0 else n - TickCount(steps))
    ensures RunAll(w, steps).tasks[PlaceAfter(w, steps, i)].pid == w.tasks[i].pid
    decreases |steps|
  {
    hide Inv, Enabled, Do, Disturbs, Moved, Asleep, TimeLeft;
    if |steps| > 0 {
      var s := steps[0];
      InvSane(w);
      InvKept(w, s);
      SleepStep(w, s, i, n);
      SleepsOn(Do(w, s), steps[1..], Moved(w, s, i), if s.TimerTick? && n > 0 then n - 1 else n);
    }
  }

  /** sys_sleep puts its caller to sleep for its time. */
  lemma SleepBegins(w: World, ms: Int32)
    requires Inv(w) && w.tasks[w.cur].pid != PID_IDLE && w.tasks[w.cur].signal == 0
    ensures Enabled(w, Sleep(ms)) && Sleeps(Do(w, Sleep(ms)), w.cur, TimeLeft(ms))
    ensures Do(w, Sleep(ms)).tasks[w.cur].pid == w.tasks[w.cur].pid
  {
    hide Parents;
    DoSleep(w, ms);
    SleepLeaves(w, ms);
  }

  /** A sleep over runs: after sys_sleep, in every run in which nothing is meant for the task, it
      sleeps and is not current after fewer ticks than its time, and it becomes runnable, with
      SIGALRM pending, at exactly the tick at which its time is up. */
  lemma SleepEndsOnTime(w: World, ms: Int32, steps: seq<Step>)
    requires Inv(w) && w.tasks[w.cur].pid != PID_IDLE && w.tasks[w.cur].signal == 0
    requires Enabled(w, Sleep(ms)) && Inv(Do(w, Sleep(ms))) && CanRun(Do(w, Sleep(ms)), steps)
    requires Undisturbed(Do(w, Sleep(ms)), steps, w.cur)
    requires ms == 0 || TickCount(steps) < TimeLeft(ms)
    ensures var w1 := Do(w, Sleep(ms));
            var w2, i := RunAll(w1, steps), PlaceAfter(w1, steps, w.cur);
            && Sleeps(w2, i, if ms == 0 then 0 else TimeLeft(ms) - TickCount(steps))
            && w2.tasks[i].pid == w.tasks[w.cur].pid
            && Enabled(w2, TimerTick)
            && (TickCount(steps) + 1 == TimeLeft(ms) ==>
                  i < |Do(w2, TimerTick).tasks| && Do(w2, TimerTick).tasks[i] == Woken(w2.tasks[i]))
  {
    hide Inv, Enabled, Do, Disturbs, Moved, TimeLeft, Undisturbed, PlaceAfter, RunAll, CanRun, TickCount, Woken;
    SleepBegins(w, ms);
    var w1 := Do(w, Sleep(ms));
    var n := TimeLeft(ms);
    SleepsOn(w1, steps, w.cur, n);
    TickPasses(RunAll(w1, steps), PlaceAfter(w1, steps, w.cur), if n == 0 then 0 else n - TickCount(steps));
  }

  // ---------------------------------------------------------------------------
  // Signals and wakeups end a sleep

  /** A task that sleeps, with or without a signal pending. */
  predicate Lies(w: World, i: nat) {
    i < |w.tasks| && i != w.cur && w.tasks[i].state.Interruptable? && w.tasks[i].pid != PID_IDLE
  }

  /** In every run without tick in which nothing is meant for a sleeping task its signals wait for the tick. */
  lemma {:induction false} SignalsWait(w: World, steps: seq<Step>, i: nat)
    requires Inv(w) && CanRun(w, steps) && Lies(w, i) && Undisturbed(w, steps, i) && TickCount(steps) == 0
    ensures var w', j := RunAll(w, steps), PlaceAfter(w, steps, i);
            Lies(w', j) && w'.tasks[j].signal == w.tasks[i].signal && w'.tasks[j].pid == w.tasks[i].pid
    decreases |steps|
  {
    hide Inv, Enabled, Do, Disturbs, Moved;
    if |steps| > 0 {
      InvSane(w);
      InvKept(w, steps[0]);
      WaitStep(w, steps[0], i);
      SignalsWait(Do(w, steps[0]), steps[1..], Moved(w, steps[0], i));
    }
  }

  lemma WaitStep(w: World, s: Step, i: nat)
    requires Inv(w) && Enabled(w, s) && Lies(w, i) && !Disturbs(w, s, i) && !s.TimerTick?
    ensures var w', j := Do(w, s), Moved(w, s, i);
            Lies(w', j) && w'.tasks[j].signal == w.tasks[i].signal && w'.tasks[j].pid == w.tasks[i].pid
  {
    hide Inv, Enabled, Do, FindTask, SetBit;
    InvSane(w);
    StepPasses(w, s, i);
  }

  /** A signal ends a sleep at the next tick, whichever signal it is and whatever other tasks do until then:
      the task is RUNNABLE, and the signal is still pending. */
  lemma SignalEndsSleep(w: World, i: nat, sig: nat, steps: seq<Step>)
    requires Inv(w) && Lies(w, i) && Enabled(w, Signal(i, sig)) && Inv(Do(w, Signal(i, sig)))
    requires CanRun(Do(w, Signal(i, sig)), steps) && Undisturbed(Do(w, Signal(i, sig)), steps, i)
    requires TickCount(steps) == 0
    ensures var w1 := Do(w, Signal(i, sig));
            var w2, j := RunAll(w1, steps), PlaceAfter(w1, steps, i);
            && Enabled(w2, TimerTick) && j < |Do(w2, TimerTick).tasks|
            && var t := Do(w2, TimerTick).tasks[j];
            && t.pid == w.tasks[i].pid && t.state.Runnable? && Bit(t.signal, sig)
  {
    hide Inv, Undisturbed, PlaceAfter, RunAll, CanRun, TickCount, SetBit, Bit, Tick;
    var w1 := Do(w, Signal(i, sig));
    SignalSet(w, i, sig);
    SignalsWait(w1, steps, i);
    var w2, j := RunAll(w1, steps), PlaceAfter(w1, steps, i);
    DoTick(w2);
    TickLaw(w2.tasks[j], sig);
    BitNotZero(w2.tasks[j].signal, sig);
  }

  /** A signal sets one bit of one task. */
  lemma SignalSet(w: World, i: nat, sig: nat)
    requires Inv(w) && i < |w.tasks|
    ensures Enabled(w, Signal(i, sig))
    ensures var w' := Do(w, Signal(i, sig));
            && w'.cur == w.cur && |w'.tasks| == |w.tasks|
            && (forall k :: 0 <= k < |w.tasks| && k != i ==> w'.tasks[k] == w.tasks[k])
            && w'.tasks[i] == w.tasks[i].(signal := w'.tasks[i].signal)
            && forall b: nat :: Bit(w'.tasks[i].signal, b) <==> Bit(w.tasks[i].signal, b) || b == sig
  {
    hide Parents, SetBit, Bit, Reschedule;
    forall b: nat ensures Bit(SetBit(w.tasks[i].signal, sig), b) <==> Bit(w.tasks[i].signal, b) || b == sig {
      BitSetBit(w.tasks[i].signal, sig, b);
    }
  }

  lemma BitNotZero(w: nat, b: nat)
    requires Bit(w, b)
    ensures w != 0
  {
    ZeroBit(b);
  }

  /** sched_interruptable_sleep without pending signal: the caller sleeps, and its alarm stays as it was. */
  lemma QueueSleepBegins(w: World)
    requires Inv(w) && w.tasks[w.cur].pid != PID_IDLE && w.tasks[w.cur].signal == 0
    ensures Enabled(w, QueueSleep)
    ensures var w' := Do(w, QueueSleep);
            w'.cur != w.cur && w.cur < |w'.tasks| && w'.tasks[w.cur] == w.tasks[w.cur].(state := Interruptable)
  {
    hide Parents, Search;
    DoQueueSleep(w);
    var w1 := w.(tasks := SetState(w.tasks, w.cur, Interruptable));
    SearchIsNearest(w1.tasks, w1.cur, 1);
  }

  /** sched_wakeup makes exactly the tasks in the queue RUNNABLE. */
  lemma WakeupLaw(w: World, places: set<nat>, i: nat)
    requires Inv(w) && i < |w.tasks|
    ensures Enabled(w, Step.Wakeup(places))
    ensures var w' := Do(w, Step.Wakeup(places));
            && w'.cur == w.cur && |w'.tasks| == |w.tasks|
            && w'.tasks[i] == if i in places then w.tasks[i].(state := Runnable) else w.tasks[i]
  {
    hide Parents, IsListed, Reschedule;
  }
}
