// What becomes of tasks that end: sys_exit of source/kernel/schedule.c over whole runs.
module ExitRuns {
  import opened Words
  import opened TaskModel
  import opened SignalModel
  import opened TaskRuns
  import opened SleepRuns

  /** A task that exits without pending signal while its parent is listed is a zombie, and not current any
      more, and its parent gets signal 17.  If the parent is the one that goes on, it handles its first
      signal at once; otherwise nothing else of it changes, but that its own parent may be gone. */
  lemma ExitLeavesZombie(w: World)
    requires Inv(w) && Enabled(w, Exit) && !Unlinks(w, Exit) && w.tasks[w.cur].signal == 0
    ensures var w', p := Do(w, Exit), FindTask(w.tasks, w.tasks[w.cur].ppid);
            && |w'.tasks| == |w.tasks| && w'.cur != w.cur
            && w'.tasks[w.cur] == w.tasks[w.cur].(state := Zombie)
            && p < |w.tasks| && p != w.cur && w.tasks[p].pid == w.tasks[w.cur].ppid
            && var told := SetBit(w.tasks[p].signal, 17);
            && told != 0
            && (p != w'.cur ==> OnlySignalled(w.tasks[p], w'.tasks[p], told))
            && (p == w'.cur ==> w'.tasks[p].signal == ClearBit(told, LowestBit(told)))
  {
    hide Inv, Do, FindTask, SetBit, Parents, IsListed, Unlink, Reschedule, ClearBit, LowestBit;
    ListedParent(w);
    ToldNotZero(w.tasks[FindTask(w.tasks, w.tasks[w.cur].ppid)].signal);
    DoExit(w);
    ParentKept(w);
    var tasks := Orphan(w.tasks, w.tasks[w.cur].pid);
    var w2 := w.(tasks := BecomeZombie(tasks, w.cur));
    SwitchAway(w2);
  }

  /** With a signal pending the task that exits is a zombie too, but handles its first signal before it is
      switched away from; its parent gets signal 17. */
  lemma ExitPending(w: World)
    requires Inv(w) && Enabled(w, Exit) && !Unlinks(w, Exit) && w.tasks[w.cur].signal != 0
    ensures var w', t, p := Do(w, Exit), w.tasks[w.cur], FindTask(w.tasks, w.tasks[w.cur].ppid);
            && |w'.tasks| == |w.tasks| && w'.cur == w.cur
            && w'.tasks[w.cur] == t.(state := Zombie, signal := ClearBit(t.signal, LowestBit(t.signal)))
            && p < |w.tasks| && p != w.cur && w.tasks[p].pid == t.ppid
            && OnlySignalled(w.tasks[p], w'.tasks[p], SetBit(w.tasks[p].signal, 17))
  {
    hide Inv, Do, FindTask, SetBit, Parents, IsListed, Unlink, Reschedule, ClearBit, LowestBit;
    ListedParent(w);
    DoExit(w);
    ParentKept(w);
    RescheduleRefused(w.(tasks := BecomeZombie(Orphan(w.tasks, w.tasks[w.cur].pid), w.cur)));
  }

  lemma RescheduleRefused(w: World)
    requires Sane(w) && w.tasks[w.cur].signal != 0
    ensures var w', signal := Reschedule(w), w.tasks[w.cur].signal;
            && w'.cur == w.cur
            && w'.tasks == w.tasks[w.cur := w.tasks[w.cur].(signal := ClearBit(signal, LowestBit(signal)))]
  {
    hide ClearBit, LowestBit;
    SwitchRefused(w);
  }

  /** A rescheduling away from a task that is not eligible. */
  lemma SwitchAway(w: World)
    requires Inv(w) && w.tasks[w.cur].signal == 0 && w.tasks[w.cur].pid != PID_IDLE
    requires !w.tasks[w.cur].state.Runnable? && !w.tasks[w.cur].state.Running?
    ensures var w' := Reschedule(w);
            && |w'.tasks| == |w.tasks| && w'.cur != w.cur
            && (forall i :: 0 <= i < |w.tasks| && i != w'.cur ==> w'.tasks[i] == w.tasks[i])
            && w'.tasks[w'.cur].signal == TakenSignal(w.tasks[w'.cur]).signal
  {
    hide Parents, ClearBit, LowestBit, Search;
    SearchIsNearest(w.tasks, w.cur, 1);
  }

  lemma ToldNotZero(signal: nat)
    ensures SetBit(signal, 17) != 0
  {
    hide SetBit;
    BitSetBit(signal, 17, 17);
    BitNotZero(SetBit(signal, 17), 17);
  }

  /** The children of a task that exits lose their parent, and every other task keeps its own. */
  lemma ExitOrphans(w: World, i: nat)
    requires Inv(w) && Enabled(w, Exit) && i < |w.tasks| && i != w.cur
    ensures var w', j := Do(w, Exit), Moved(w, Exit, i);
            && j < |w'.tasks| && w'.tasks[j].pid == w.tasks[i].pid
            && w'.tasks[j].ppid == if w.tasks[i].ppid == w.tasks[w.cur].pid then 0 else w.tasks[i].ppid
  {
    hide Inv, Do, Enabled, Parents, IsListed, SetBit, FindTask, Reschedule, Unlink, HandleSignal;
    InvSane(w);
    DoExit(w);
    var tasks, j := Orphan(w.tasks, w.tasks[w.cur].pid), Moved(w, Exit, i);
    if Unlinks(w, Exit) {
      assert Without(tasks, w.cur)[j] == tasks[i];
      UnlinkParents(tasks, w.cur, w.counter, j);
    } else {
      RescheduleParents(w.(tasks := BecomeZombie(tasks, w.cur)), i);
    }
  }

  /** Neither a rescheduling nor the choice of a successor touches a PID or a parent. */
  lemma RescheduleParents(w: World, i: nat)
    requires Sane(w) && i < |w.tasks|
    ensures Reschedule(w).tasks[i].pid == w.tasks[i].pid && Reschedule(w).tasks[i].ppid == w.tasks[i].ppid
  {
    hide Search, ClearBit, LowestBit;
  }

  lemma UnlinkParents(tasks: seq<TaskView>, cur: nat, counter: int, j: nat)
    requires 0 < cur < |tasks| && j < |tasks| - 1
    ensures var w', rest := HandleSignal(Unlink(tasks, cur, counter)), Without(tasks, cur);
            |w'.tasks| == |rest| && w'.tasks[j].pid == rest[j].pid && w'.tasks[j].ppid == rest[j].ppid
  {
    hide Search, ClearBit, LowestBit, Without;
  }

  /** A task without parent that exits without pending signal is gone, and the task that goes on was
      RUNNABLE and is RUNNING. */
  lemma ExitUnlinks(w: World)
    requires Inv(w) && Enabled(w, Exit) && Unlinks(w, Exit)
    ensures var w' := Do(w, Exit);
            && |w'.tasks| == |w.tasks| - 1 && w'.cur < |w'.tasks| && w'.tasks[w'.cur].state.Running?
            && (forall j :: 0 <= j < |w'.tasks| ==> w'.tasks[j].pid == w.tasks[if j < w.cur then j else j + 1].pid)
            && w.tasks[if w'.cur < w.cur then w'.cur else w'.cur + 1].state.Runnable?
  {
    hide Inv, Do, Parents, IsListed, Search, ClearBit, LowestBit, Reschedule, BecomeZombie;
    DoExit(w);
    InvSane(w);
    var tasks := Orphan(w.tasks, w.tasks[w.cur].pid);
    var rest := Without(tasks, w.cur);
    EligibleRest(tasks, w.cur);
    SearchIsNearest(rest, w.cur - 1, 1);
  }

  // ---------------------------------------------------------------------------
  // A zombie stays one

  predicate IsZombie(w: World, i: nat) {
    i < |w.tasks| && i != w.cur && w.tasks[i].state.Zombie? && w.tasks[i].pid != PID_IDLE
  }

  predicate Wakes(s: Step, i: nat) {
    s.Wakeup? && i in s.places
  }

  lemma ZombieKept(w: World, s: Step, i: nat)
    requires Inv(w) && Enabled(w, s) && IsZombie(w, i) && !Wakes(s, i)
    ensures IsZombie(Do(w, s), Moved(w, s, i)) && Do(w, s).tasks[Moved(w, s, i)].pid == w.tasks[i].pid
  {
    hide Inv, Do, Enabled, SignalsAfter, Tick;
    InvSane(w);
    if s.TimerTick? {
      DoTick(w);
      TickLaw(w.tasks[i], 0);
    } else {
      StepPasses(w, s, i);
    }
  }

  /** No step of a run wakes the task that starts at place i. */
  ghost predicate NeverWoken(w: World, steps: seq<Step>, i: nat)
    requires Inv(w) && CanRun(w, steps)
    decreases |steps|
  {
    |steps| == 0 ||
    (!Wakes(steps[0], i) && (InvKept(w, steps[0]); NeverWoken(Do(w, steps[0]), steps[1..], Moved(w, steps[0], i))))
  }

  /** In every run a zombie stays one and never becomes current, whatever signals it gets, unless it still
      lies in a wait queue that is woken up. */
  lemma {:induction false} StaysZombie(w: World, steps: seq<Step>, i: nat)
    requires Inv(w) && CanRun(w, steps) && IsZombie(w, i) && NeverWoken(w, steps, i)
    ensures var w', j := RunAll(w, steps), PlaceAfter(w, steps, i);
            IsZombie(w', j) && w'.tasks[j].pid == w.tasks[i].pid
    decreases |steps|
  {
    hide Inv, Enabled, Do, Moved, Wakes;
    if |steps| > 0 {
      InvSane(w);
      InvKept(w, steps[0]);
      ZombieKept(w, steps[0], i);
      StaysZombie(Do(w, steps[0]), steps[1..], Moved(w, steps[0], i));
    }
  }
}
