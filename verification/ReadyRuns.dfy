// Tasks that can run, over whole runs: they stay ready until they give up, and get their turn.
module ReadyRuns {
  import opened Words
  import opened TaskModel
  import opened SignalModel
  import opened Fairness
  import opened ProcessIds
  import opened TaskRuns
  import opened SleepRuns

  /** A task other than the idle one that runs or may be chosen to run. */
  predicate Ready(t: TaskView) {
    (t.state.Running? || t.state.Runnable?) && t.pid != PID_IDLE
  }

  /** The current task gives up by itself: it goes to sleep or exits. */
  predicate GivesUp(s: Step) {
    s.Sleep? || s.QueueSleep? || s.Exit?
  }

  /** A switch leaves ready tasks ready, the one that is switched away from among them. */
  lemma ReschedulingReady(w: World, i: nat)
    requires Sane(w) && i < |w.tasks| && Ready(w.tasks[i])
    ensures Ready(Reschedule(w).tasks[i]) && Reschedule(w).tasks[i].pid == w.tasks[i].pid
  {
    hide Switch, ClearBit, LowestBit;
    if w.tasks[w.cur].signal == 0 {
      SwitchStates(w, i);
    } else {
      SwitchRefused(w);
    }
  }

  lemma ZombieReady(w: World, i: nat)
    requires Inv(w) && Enabled(w, Exit) && !Unlinks(w, Exit) && i < |w.tasks| && i != w.cur && Ready(w.tasks[i])
    ensures var w' := Do(w, Exit);
            |w'.tasks| == |w.tasks| && Ready(w'.tasks[i]) && w'.tasks[i].pid == w.tasks[i].pid
  {
    hide Inv, Enabled, Do, Reschedule, FindTask, SetBit, Parents, IsListed, Unlink, HandleSignal;
    DoExit(w);
    InvSane(w);
    ReschedulingReady(w.(tasks := BecomeZombie(Orphan(w.tasks, w.tasks[w.cur].pid), w.cur)), i);
  }

  lemma UnlinkReady(w: World, i: nat)
    requires Inv(w) && Enabled(w, Exit) && Unlinks(w, Exit) && i < |w.tasks| && i != w.cur && Ready(w.tasks[i])
    ensures var w', j := Do(w, Exit), Moved(w, Exit, i);
            j < |w'.tasks| && Ready(w'.tasks[j]) && w'.tasks[j].pid == w.tasks[i].pid
  {
    hide Inv, Enabled, Do, Parents, IsListed, Reschedule, BecomeZombie, Search, ClearBit, LowestBit;
    DoExit(w);
    InvSane(w);
    var tasks, j := Orphan(w.tasks, w.tasks[w.cur].pid), Moved(w, Exit, i);
    assert Without(tasks, w.cur)[j] == tasks[i];
  }

  /** No step takes a ready task out of the race unless the task gives up by itself. */
  lemma ReadyKept(w: World, s: Step, i: nat)
    requires Inv(w) && Enabled(w, s) && i < |w.tasks| && Ready(w.tasks[i])
    requires i == w.cur ==> !GivesUp(s)
    ensures var w', j := Do(w, s), Moved(w, s, i);
            j < |w'.tasks| && Ready(w'.tasks[j]) && w'.tasks[j].pid == w.tasks[i].pid
  {
    InvSane(w);
    hide Inv, Reschedule, SetBit, Ready, Orphan, BecomeZombie, Unlink, FindTask, ForkChild, Decrement;
    match s
    case Resched => ReschedulingReady(w, i);
    case TimerTick => TickReady(w.tasks[i]);
    case Sleep(ms) => ReschedulingReady(GoToSleep(w, ms), i);
    case QueueSleep => ReschedulingReady(w.(tasks := SetState(w.tasks, w.cur, Interruptable)), i);
    case Wakeup(places) => WokenReady(w.tasks[i]);
    case Signal(j, sig) => SignalledReady(w.tasks[i], SetBit(w.tasks[i].signal, sig));
    case Fork => DoFork(w);
    case Exit =>
      if Unlinks(w, s) {
        UnlinkReady(w, i);
      } else {
        ZombieReady(w, i);
      }
  }

  lemma TickReady(t: TaskView)
    requires Ready(t)
    ensures Ready(Tick(t)) && Tick(t).pid == t.pid && Tick(t).state == t.state
  {
    hide SetBit, Decrement;
  }

  lemma WokenReady(t: TaskView)
    requires Ready(t)
    ensures Ready(t.(state := Runnable))
  {
  }

  lemma SignalledReady(t: TaskView, signal: nat)
    requires Ready(t)
    ensures Ready(t.(signal := signal))
  {
  }

  /** In no step of a run does the task that starts at place i give up. */
  ghost predicate Stays(w: World, steps: seq<Step>, i: nat)
    requires Inv(w) && CanRun(w, steps)
    decreases |steps|
  {
    |steps| == 0 ||
    (!(i == w.cur && GivesUp(steps[0])) &&
     (InvKept(w, steps[0]); Stays(Do(w, steps[0]), steps[1..], Moved(w, steps[0], i))))
  }

  /** In every run a ready task stays ready until it gives up. */
  lemma {:induction false} StaysReady(w: World, steps: seq<Step>, i: nat)
    requires Inv(w) && CanRun(w, steps) && i < |w.tasks| && Ready(w.tasks[i]) && Stays(w, steps, i)
    ensures var w', j := RunAll(w, steps), PlaceAfter(w, steps, i);
            j < |w'.tasks| && Ready(w'.tasks[j]) && w'.tasks[j].pid == w.tasks[i].pid
    decreases |steps|
  {
    hide Inv, Enabled, Do, Ready, Moved, GivesUp;
    if |steps| > 0 {
      InvSane(w);
      InvKept(w, steps[0]);
      ReadyKept(w, steps[0], i);
      StaysReady(Do(w, steps[0]), steps[1..], Moved(w, steps[0], i));
    }
  }

  // ---------------------------------------------------------------------------
  // Getting a turn

  /** The steps that keep the list as it is, and those among them that end in a rescheduling. */
  predicate KeepsList(s: Step) {
    !s.Fork? && !s.Exit?
  }

  predicate Reschedules(s: Step) {
    s.Resched? || s.Sleep? || s.QueueSleep?
  }

  /** The number of steps of a run that reschedule while no signal is pending for the current task. */
  ghost function Turns(w: World, steps: seq<Step>): nat
    requires Inv(w) && CanRun(w, steps)
    decreases |steps|
  {
    if |steps| == 0 then 0
    else
      InvKept(w, steps[0]);
      (if Reschedules(steps[0]) && w.tasks[w.cur].signal == 0 then 1 else 0) + Turns(Do(w, steps[0]), steps[1..])
  }

  /** What the rescheduling at the end of a step starts from. */
  function Before(w: World, s: Step): World
    requires Sane(w) && Reschedules(s)
  {
    match s
    case Resched => w
    case Sleep(ms) => GoToSleep(w, ms)
    case QueueSleep => w.(tasks := SetState(w.tasks, w.cur, Interruptable))
  }

  lemma BeforeIs(w: World, s: Step)
    requires Inv(w) && Enabled(w, s) && Reschedules(s)
    ensures Sane(w) && Do(w, s) == Reschedule(Before(w, s))
  {
    hide Parents, Reschedule;
  }

  /** A rescheduling brings a ready task nearer, or makes it current; its distance from itself is a full
      circle.  While a signal is pending it changes nothing but that signal. */
  lemma TurnCloser(w: World, i: nat)
    requires Sane(w) && i < |w.tasks| && Ready(w.tasks[i]) && (w.tasks[i].state.Running? ==> i == w.cur)
    ensures |Reschedule(w).tasks| == |w.tasks|
    ensures var r := Reschedule(w).cur;
            if w.tasks[w.cur].signal != 0 then r == w.cur
            else r == i || Distance(r, i, |w.tasks|) < Distance(w.cur, i, |w.tasks|)
  {
    hide Search, ClearBit, LowestBit;
    SearchIsNearest(Yielded(w), w.cur, 1);
    if w.tasks[w.cur].signal == 0 {
      assert Eligible(Yielded(w)[i]);
    }
  }

  lemma OneRunning(w: World, i: nat)
    requires Inv(w) && i < |w.tasks| && w.tasks[i].state.Running?
    ensures i == w.cur
  {
    hide Parents;
  }

  lemma ListKept(w: World, s: Step)
    requires Inv(w) && Enabled(w, s) && KeepsList(s)
    ensures |Do(w, s).tasks| == |w.tasks|
  {
    hide Parents, Reschedule, SetBit;
    StepPids(w, s);
  }

  /** Ticks, wakeups and signals do not change whose turn it is. */
  lemma SameCurrent(w: World, s: Step)
    requires Inv(w) && Enabled(w, s) && KeepsList(s) && !Reschedules(s)
    ensures Do(w, s).cur == w.cur
  {
    hide Parents, SetBit, TickAll, WakeAll;
  }

  /** The run makes the task at place i current at some point after its start. */
  ghost predicate GetsTurn(w: World, steps: seq<Step>, i: nat)
    requires Inv(w) && CanRun(w, steps)
    decreases |steps|
  {
    |steps| > 0 &&
    (InvKept(w, steps[0]);
     Do(w, steps[0]).cur == i || GetsTurn(Do(w, steps[0]), steps[1..], i))
  }

  /** One step of a run towards the turn of a ready task. */
  lemma StepCloser(w: World, s: Step, i: nat)
    requires Inv(w) && Enabled(w, s) && KeepsList(s) && i < |w.tasks| && Ready(w.tasks[i])
    requires !(i == w.cur && GivesUp(s))
    ensures Sane(w) && |Do(w, s).tasks| == |w.tasks|
    ensures var r := Do(w, s).cur;
            if Reschedules(s) && w.tasks[w.cur].signal == 0
            then r == i || Distance(r, i, |w.tasks|) < Distance(w.cur, i, |w.tasks|)
            else r == w.cur
  {
    hide Inv, Enabled, Do, Reschedule, Distance;
    InvSane(w);
    ListKept(w, s);
    if w.tasks[i].state.Running? {
      OneRunning(w, i);
    }
    if Reschedules(s) {
      BeforeIs(w, s);
      TurnCloser(Before(w, s), i);
    } else {
      SameCurrent(w, s);
    }
  }

  /** Round robin over runs: a task that is RUNNING or RUNNABLE, the current one among them, becomes current
      again within as many turns as there are tasks, whatever ticks, wakeups, signals and refused switches
      lie between them, and whether the other tasks go to sleep or not. */
  lemma {:induction false} RoundRobin(w: World, steps: seq<Step>, i: nat)
    requires Inv(w) && CanRun(w, steps) && forall k :: 0 <= k < |steps| ==> KeepsList(steps[k])
    requires i < |w.tasks| && Ready(w.tasks[i]) && Stays(w, steps, i)
    requires Turns(w, steps) >= Distance(w.cur, i, |w.tasks|)
    ensures GetsTurn(w, steps, i)
    decreases |steps|
  {
    hide Inv, Enabled, Do, Ready, Distance, Reschedules, GivesUp;
    InvSane(w);
    if |steps| > 0 {
      var s, w' := steps[0], Do(w, steps[0]);
      InvKept(w, s);
      ReadyKept(w, s, i);
      StepCloser(w, s, i);
      if w'.cur != i {
        RoundRobin(w', steps[1..], i);
      }
    }
  }

  /** A new task is ready: it is a copy of its parent apart from its PID, and no other task changes. */
  lemma ChildReady(w: World)
    requires Inv(w) && Enabled(w, Fork)
    ensures var w', n := Do(w, Fork), |w.tasks|;
            && w'.cur == w.cur && |w'.tasks| == n + 1 && w'.tasks[..n] == w.tasks
            && Ready(w'.tasks[n])
            && w'.tasks[n] == w.tasks[w.cur].(pid := w'.tasks[n].pid, ppid := w.tasks[w.cur].pid, state := Runnable)
            && 0 < w'.tasks[n].pid <= 65535 && w'.counter == w'.tasks[n].pid
            && forall k :: 0 <= k < n - 1 ==> w.tasks[k].pid != w'.tasks[n].pid
  {
    hide Parents, IsListed, AllocatePid;
    DoFork(w);
    ForkPid(w);
    PidFound(w.tasks, w.counter);
  }
}
