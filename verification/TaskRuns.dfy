// Every step of the scheduler, and what they keep.
module TaskRuns {
  import opened Words
  import opened TaskModel
  import opened ProcessIds

  /** The entry points of the scheduler; each runs with interrupts off. */
  datatype Step =
    | Resched
    | TimerTick
    | Sleep(ms: Int32)
    | QueueSleep
    | Wakeup(places: set<nat>)
    | Signal(i: nat, sig: nat)
    | Fork
    | Exit

  /** sys_fork: the child is a copy of the current task. */
  function ForkChild(w: World): TaskView
    requires Sane(w) && -1 <= w.counter && AllocatePid(w.tasks, w.counter) >= 0
  {
    var parent := w.tasks[w.cur];
    parent.(pid := AllocatePid(w.tasks, w.counter), ppid := parent.pid, state := Runnable)
  }

  /** sys_fork */
  function Forked(w: World): (w': World)
    requires Sane(w) && -1 <= w.counter && AllocatePid(w.tasks, w.counter) >= 0
    ensures Sane(w')
  {
    w.(tasks := w.tasks + [ForkChild(w)], counter := AllocatePid(w.tasks, w.counter))
  }

  /** sched_wakeup: the tasks in a wait queue become runnable, whatever their state. */
  function WakeAll(tasks: seq<TaskView>, places: set<nat>): (r: seq<TaskView>)
    ensures |r| == |tasks|
  {
    seq(|tasks|, i requires 0 <= i < |tasks| => if i in places then tasks[i].(state := Runnable) else tasks[i])
  }

  /** The children of a task that exits lose their parent. */
  function Orphan(tasks: seq<TaskView>, pid: nat): (r: seq<TaskView>)
    ensures |r| == |tasks|
  {
    seq(|tasks|, i requires 0 <= i < |tasks| => if tasks[i].ppid == pid then tasks[i].(ppid := 0) else tasks[i])
  }

  /** sched_get_task: the first task with a PID, or the length of the list. */
  function FindTask(tasks: seq<TaskView>, pid: nat): (i: nat)
    ensures i <= |tasks| && (i < |tasks| ==> tasks[i].pid == pid)
    ensures forall j :: 0 <= j < i ==> tasks[j].pid != pid
  {
    if |tasks| == 0 || tasks[0].pid == pid then 0
    else
      var i := FindTask(tasks[1..], pid);
      assert forall j :: 0 < j < i + 1 ==> tasks[j] == tasks[1..][j - 1];
      i + 1
  }

  /** sys_exit of a task whose parent is still there: it becomes a zombie, and its parent is told. */
  function BecomeZombie(tasks: seq<TaskView>, cur: nat): (r: seq<TaskView>)
    requires cur < |tasks|
    ensures |r| == |tasks|
  {
    var tasks' := SetState(tasks, cur, Zombie);
    var p := FindTask(tasks', tasks[cur].ppid);
    if p < |tasks'| then tasks'[p := tasks'[p].(signal := SetBit(tasks'[p].signal, SIGCHLD))] else tasks'
  }

  /** sys_exit of a task without parent: it is unlinked, and the next eligible task goes on. */
  function Unlink(tasks: seq<TaskView>, cur: nat, counter: int): (w: World)
    requires 0 < cur < |tasks|
    ensures Sane(w)
  {
    var rest := Without(tasks, cur);
    var next := Search(rest, cur - 1, 1);
    if next == -1 then World(rest, 0, counter) else World(SetState(rest, next, Running), next, counter)
  }

  function Without(tasks: seq<TaskView>, i: nat): (r: seq<TaskView>)
    requires i < |tasks|
    ensures |r| == |tasks| - 1
    ensures forall j :: 0 <= j < |r| ==> r[j] == tasks[if j < i then j else j + 1]
  {
    tasks[..i] + tasks[i + 1..]
  }

  /** The steps of a run: the idle task neither calls sys_sleep nor exits, a fork finds a PID other
      than PID_IDLE, and a task without parent exits only while no signal is pending and some other
      task is eligible. */
  ghost predicate Enabled(w: World, s: Step)
    requires Sane(w)
  {
    match s
    case Resched => true
    case TimerTick => true
    case Sleep(_) => w.tasks[w.cur].pid != PID_IDLE
    case QueueSleep => true
    case Wakeup(places) => true
    case Signal(i, sig) => i < |w.tasks|
    case Fork => HasFreePid(w.tasks) && !(|w.tasks| == 1 && w.counter == MAX_PID)
    case Exit =>
      && w.tasks[w.cur].pid != PID_IDLE
      && (w.tasks[w.cur].ppid == 0 || w.tasks[w.cur].ppid == w.tasks[w.cur].pid ==>
            && w.tasks[w.cur].signal == 0
            && exists i :: 0 <= i < |w.tasks| && i != w.cur && Eligible(w.tasks[i]))
  }

  /** The invariant of the scheduler. */
  ghost predicate Inv(w: World) {
    && Sane(w) && 0 <= w.counter <= MAX_PID
    && w.tasks[0].pid == PID_IDLE
    && (forall i :: 0 < i < |w.tasks| ==> w.tasks[i].pid != PID_IDLE)
    && !w.tasks[0].state.Running?
    && (forall i :: 0 <= i < |w.tasks| && w.tasks[i].state.Running? ==> i == w.cur)
    && Parents(w.tasks)
  }

  /** Every parent is on the list. */
  ghost predicate Parents(tasks: seq<TaskView>) {
    forall i :: 0 <= i < |tasks| && tasks[i].ppid != 0 ==> IsListed(tasks, tasks[i].ppid)
  }

  ghost predicate IsListed(tasks: seq<TaskView>, pid: nat) {
    exists j :: 0 <= j < |tasks| && tasks[j].pid == pid
  }

  /** What a step does. */
  function Do(w: World, s: Step): (w': World)
    requires Inv(w) && Enabled(w, s)
    ensures Sane(w')
  {
    match s
    case Resched => Reschedule(w)
    case TimerTick => w.(tasks := TickAll(w.tasks))
    case Sleep(ms) => Reschedule(GoToSleep(w, ms))
    case QueueSleep => Reschedule(w.(tasks := SetState(w.tasks, w.cur, Interruptable)))
    case Wakeup(places) => w.(tasks := WakeAll(w.tasks, places))
    case Signal(i, sig) => w.(tasks := w.tasks[i := w.tasks[i].(signal := SetBit(w.tasks[i].signal, sig))])
    case Fork =>
      PidFound(w.tasks, w.counter);
      Forked(w)
    case Exit =>
      var tasks := Orphan(w.tasks, w.tasks[w.cur].pid);
      if tasks[w.cur].ppid > 0 then Reschedule(w.(tasks := BecomeZombie(tasks, w.cur)))
      else HandleSignal(Unlink(tasks, w.cur, w.counter))
  }

  lemma DoTick(w: World)
    requires Inv(w)
    ensures Enabled(w, TimerTick) && Do(w, TimerTick) == w.(tasks := TickAll(w.tasks))
  {
    hide Parents, IsListed, Reschedule, WakeAll, TickAll;
  }

  lemma DoResched(w: World)
    requires Inv(w)
    ensures Sane(w) && Enabled(w, Resched) && Do(w, Resched) == Reschedule(w) == HandleSignal(Switch(w))
  {
    hide Parents, IsListed, Switch, HandleSignal;
  }

  lemma DoSleep(w: World, ms: Int32)
    requires Inv(w) && w.tasks[w.cur].pid != PID_IDLE
    ensures Do(w, Sleep(ms)) == Reschedule(GoToSleep(w, ms))
  {
    hide Parents, IsListed, Reschedule, WakeAll, TickAll;
  }

  lemma DoQueueSleep(w: World)
    requires Inv(w)
    ensures Do(w, QueueSleep) == Reschedule(w.(tasks := SetState(w.tasks, w.cur, Interruptable)))
  {
    hide Parents, IsListed, Reschedule, WakeAll, TickAll;
  }

  lemma DoWakeup(w: World, places: set<nat>)
    requires Inv(w)
    ensures Do(w, Step.Wakeup(places)) == w.(tasks := WakeAll(w.tasks, places))
  {
    hide Parents, IsListed, Reschedule, WakeAll, TickAll;
  }

  lemma DoFork(w: World)
    requires Inv(w) && Enabled(w, Fork)
    ensures AllocatePid(w.tasks, w.counter) >= 0
    ensures Do(w, Fork) == Forked(w)
  {
    hide FindPid, Nth;
    PidFound(w.tasks, w.counter);
  }

  // ---------------------------------------------------------------------------
  // The invariant is kept

  /** Steps that change neither the list nor a PID or parent, and make no task RUNNING. */
  ghost predicate SameList(tasks: seq<TaskView>, tasks': seq<TaskView>) {
    && |tasks'| == |tasks|
    && forall i :: 0 <= i < |tasks| ==>
         && tasks'[i].pid == tasks[i].pid
         && (tasks'[i].ppid == tasks[i].ppid || tasks'[i].ppid == 0)
         && (tasks'[i].state.Running? ==> tasks[i].state.Running?)
  }

  lemma SameListKeeps(w: World, tasks': seq<TaskView>)
    requires Inv(w) && SameList(w.tasks, tasks')
    ensures Inv(w.(tasks := tasks'))
  {
    forall i | 0 <= i < |tasks'| && tasks'[i].ppid != 0 ensures IsListed(tasks', tasks'[i].ppid) {
      assert IsListed(w.tasks, w.tasks[i].ppid);
      var j :| 0 <= j < |w.tasks| && w.tasks[j].pid == w.tasks[i].ppid;
      assert tasks'[j].pid == tasks'[i].ppid;
    }
  }

  lemma SwitchKeeps(w: World)
    requires Inv(w)
    ensures Inv(Switch(w))
  {
    if w.tasks[w.cur].signal == 0 {
      var tasks := Yielded(w);
      SameListKeeps(w, tasks);
      var w1 := w.(tasks := tasks);
      SearchIsNearest(tasks, w.cur, 1);
      var next := if NextTask(tasks, w.cur) == -1 then 0 else NextTask(tasks, w.cur);
      if next != w.cur && tasks[next].pid != PID_IDLE {
        RunNext(w1, next);
      }
    }
  }

  /** Making another task the current one and RUNNING keeps the invariant when no task is RUNNING. */
  lemma RunNext(w: World, next: nat)
    requires Inv(w) && 0 < next < |w.tasks|
    requires forall i :: 0 <= i < |w.tasks| ==> !w.tasks[i].state.Running?
    ensures Inv(w.(tasks := SetState(w.tasks, next, Running), cur := next))
  {
    var tasks' := SetState(w.tasks, next, Running);
    forall i | 0 <= i < |tasks'| && tasks'[i].ppid != 0 ensures IsListed(tasks', tasks'[i].ppid) {
      assert IsListed(w.tasks, w.tasks[i].ppid);
      var j :| 0 <= j < |w.tasks| && w.tasks[j].pid == w.tasks[i].ppid;
      assert tasks'[j].pid == tasks'[i].ppid;
    }
  }

  lemma RescheduleKeeps(w: World)
    requires Inv(w)
    ensures Inv(Reschedule(w))
  {
    hide Switch, ClearBit, LowestBit;
    SwitchKeeps(w);
    SameListKeeps(Switch(w), HandleSignal(Switch(w)).tasks);
  }

  lemma ForkKeeps(w: World)
    requires Inv(w) && Enabled(w, Fork)
    ensures Inv(Do(w, Fork))
  {
    hide FindPid, Nth;
    PidFound(w.tasks, w.counter);
    var tasks' := w.tasks + [ForkChild(w)];
    ForkPid(w);
    forall i | 0 <= i < |tasks'| && tasks'[i].ppid != 0 ensures IsListed(tasks', tasks'[i].ppid) {
      if i < |w.tasks| {
        assert IsListed(w.tasks, w.tasks[i].ppid);
        var j :| 0 <= j < |w.tasks| && w.tasks[j].pid == w.tasks[i].ppid;
        assert tasks'[j].pid == tasks'[i].ppid;
      } else {
        assert tasks'[w.cur].pid == tasks'[i].ppid;
      }
    }
  }

  /** A fork that finds a PID keeps the invariant, apart from one case. */
  lemma ForkResult(w: World)
    requires Inv(w) && HasFreePid(w.tasks)
    ensures Sane(w) && 0 <= w.counter <= MAX_PID && AllocatePid(w.tasks, w.counter) >= 0
    ensures if |w.tasks| == 1 && w.counter == MAX_PID then AllocatePid(w.tasks, w.counter) == PID_IDLE
            else Enabled(w, Fork) && Inv(Do(w, Fork)) && Do(w, Fork) == Forked(w)
  {
    hide Parents, IsListed, AllocatePid, FindPid, Nth;
    PidFound(w.tasks, w.counter);
    IdlePidAgain(w.tasks, w.counter);
    if !(|w.tasks| == 1 && w.counter == MAX_PID) {
      ForkKeeps(w);
      DoFork(w);
    }
  }

  lemma ChildOf(w: World, child: TaskView)
    requires Sane(w) && -1 <= w.counter && AllocatePid(w.tasks, w.counter) >= 0
    requires child == w.tasks[w.cur].(pid := AllocatePid(w.tasks, w.counter), ppid := w.tasks[w.cur].pid)
    ensures child.(state := Runnable) == ForkChild(w)
  {
    hide AllocatePid;
  }

  /** A child never gets the PID of the idle task. */
  lemma ForkPid(w: World)
    requires Inv(w) && Enabled(w, Fork)
    ensures AllocatePid(w.tasks, w.counter) > PID_IDLE
  {
    hide FindPid, AllocatePid, Parents;
    PidFound(w.tasks, w.counter);
    IdlePidAgain(w.tasks, w.counter);
  }

  lemma NthNext(counter: int, k: nat)
    requires -1 <= counter <= MAX_PID
    ensures var p := if k == 0 then counter else Nth(counter, k);
            Nth(counter, k + 1) == if p < MAX_PID then p + 1 else PID_IDLE
  {
  }

  /** Some PID is free: a search that has only met used ones is not over. */
  lemma NotAllUsed(tasks: seq<TaskView>, counter: int, n: nat)
    requires -1 <= counter <= MAX_PID && HasFreePid(tasks) && n <= MAX_PID + 1
    requires Tried(Compared(tasks), counter, n)
    ensures n < MAX_PID + 1
  {
    hide Nth;
    var p: nat :| p <= MAX_PID && p !in Compared(tasks);
    var k := NthReaches(counter, p);
  }

  /** The parent that a zombie looks for is the one its entry named before. */
  lemma ZombieParent(tasks: seq<TaskView>, cur: nat)
    requires cur < |tasks|
    ensures FindTask(SetState(tasks, cur, Zombie), tasks[cur].ppid) == FindTask(tasks, tasks[cur].ppid)
  {
    FindTaskHere(SetState(tasks, cur, Zombie), tasks[cur].ppid, FindTask(tasks, tasks[cur].ppid));
  }

  lemma EligibleRest(tasks: seq<TaskView>, cur: nat)
    requires cur < |tasks| && exists i :: 0 <= i < |tasks| && i != cur && Eligible(tasks[i])
    ensures exists j :: 0 <= j < |tasks| - 1 && Eligible(Without(tasks, cur)[j])
  {
    var i :| 0 <= i < |tasks| && i != cur && Eligible(tasks[i]);
    assert Eligible(Without(tasks, cur)[if i < cur then i else i - 1]);
  }

  /** The first n PIDs after the counter are all in use. */
  ghost predicate Tried(used: seq<nat>, counter: int, n: nat)
    requires -1 <= counter
  {
    forall l :: 1 <= l <= n ==> Nth(counter, l) in used
  }

  lemma TriedNone(used: seq<nat>, counter: int)
    requires -1 <= counter
    ensures Tried(used, counter, 0)
  {
  }

  /** One round of allocate_new_pid. */
  lemma PidStep(tasks: seq<TaskView>, counter: int, n: nat, b: bool)
    requires -1 <= counter <= MAX_PID && n <= MAX_PID
    requires Tried(Compared(tasks), counter, n)
    requires b <==> Nth(counter, n + 1) in Compared(tasks)
    ensures b ==> Tried(Compared(tasks), counter, n + 1)
    ensures !b ==> Nth(counter, n + 1) == AllocatePid(tasks, counter)
  {
    hide Nth, FindPid;
    if !b {
      FindPidFirst(Compared(tasks), counter, 1, n + 1);
      FindPidHere(Compared(tasks), counter, n + 1);
    }
  }

  lemma FindTaskHere(tasks: seq<TaskView>, pid: nat, k: nat)
    requires k <= |tasks| && (forall j :: 0 <= j < k ==> tasks[j].pid != pid)
    requires k < |tasks| ==> tasks[k].pid == pid
    ensures FindTask(tasks, pid) == k
  {
    hide FindTask;
  }

  /** A loop over the list that has dealt with the first k tasks. */
  ghost function Partly(done: seq<TaskView>, before: seq<TaskView>, k: nat): seq<TaskView>
    requires k <= |before| == |done|
  {
    done[..k] + before[k..]
  }

  lemma PartlyStep(done: seq<TaskView>, before: seq<TaskView>, k: nat)
    requires k < |before| == |done|
    ensures Partly(done, before, k)[k] == before[k]
    ensures Partly(done, before, k)[k := done[k]] == Partly(done, before, k + 1)
  {
  }

  lemma PartlyEnds(done: seq<TaskView>, before: seq<TaskView>)
    requires |before| == |done|
    ensures Partly(done, before, 0) == before && Partly(done, before, |before|) == done
  {
  }

  lemma WakeOne(tasks: seq<TaskView>, k: nat)
    requires k < |tasks|
    ensures SetState(tasks, k, Runnable) == WakeAll(tasks, {k})
  {
  }

  lemma TickAllAt(tasks: seq<TaskView>, k: nat)
    requires k < |tasks|
    ensures TickAll(tasks)[k] == Tick(tasks[k])
  {
  }

  lemma OrphanAt(tasks: seq<TaskView>, pid: nat, k: nat)
    requires k < |tasks|
    ensures Orphan(tasks, pid)[k] == if tasks[k].ppid == pid then tasks[k].(ppid := 0) else tasks[k]
  {
  }

  lemma WakeMore(tasks: seq<TaskView>, a: set<nat>, b: set<nat>)
    ensures WakeAll(WakeAll(tasks, a), b) == WakeAll(tasks, a + b)
  {
  }

  lemma WakeNone(tasks: seq<TaskView>)
    ensures WakeAll(tasks, {}) == tasks
  {
  }

  lemma FirstPid(tasks: seq<TaskView>)
    requires tasks == []
    ensures AllocatePid(tasks, PID_IDLE - 1) == PID_IDLE
  {
    FindPidHere([], PID_IDLE - 1, 1);
  }

  lemma BootInv()
    ensures Inv(World([TaskView(PID_IDLE, 0, Runnable, 0, 0)], 0, PID_IDLE))
  {
  }

  /** After the children have been orphaned, no parent entry names the exiting task. */
  lemma OrphanKeeps(w: World, pid: nat)
    requires Inv(w)
    ensures Inv(w.(tasks := Orphan(w.tasks, pid)))
    ensures forall i :: 0 <= i < |w.tasks| && Orphan(w.tasks, pid)[i].ppid != 0 ==> Orphan(w.tasks, pid)[i].ppid != pid
  {
    SameListKeeps(w, Orphan(w.tasks, pid));
  }

  /** A task with a parent finds it on the list: sys_exit never signals a missing task. */
  lemma ParentFound(tasks: seq<TaskView>, i: nat)
    requires Parents(tasks) && i < |tasks| && tasks[i].ppid != 0
    ensures FindTask(tasks, tasks[i].ppid) < |tasks|
  {
    assert IsListed(tasks, tasks[i].ppid);
    var j :| 0 <= j < |tasks| && tasks[j].pid == tasks[i].ppid;
  }

  lemma ListedParent(w: World)
    requires Inv(w)
    ensures Sane(w) && (w.tasks[w.cur].ppid > 0 ==> FindTask(w.tasks, w.tasks[w.cur].ppid) < |w.tasks|)
  {
    if w.tasks[w.cur].ppid > 0 {
      ParentFound(w.tasks, w.cur);
    }
  }

  /** Unlinking a task that has no children on the list keeps the invariant. */
  lemma UnlinkKeeps(w: World)
    requires Inv(w) && w.cur > 0
    requires forall i :: 0 <= i < |w.tasks| && w.tasks[i].ppid != 0 ==> w.tasks[i].ppid != w.tasks[w.cur].pid
    requires exists i :: 0 <= i < |w.tasks| && i != w.cur && Eligible(w.tasks[i])
    ensures Inv(Unlink(w.tasks, w.cur, w.counter))
  {
    hide Parents, IsListed, Search, Eligible, SetState;
    var rest := Without(w.tasks, w.cur);
    WithoutKeeps(w);
    EligibleRest(w.tasks, w.cur);
    SearchFound(rest, w.cur - 1);
    NoneRunning(w, rest);
    hide Inv, Without;
    RunNext(World(rest, 0, w.counter), Search(rest, w.cur - 1, 1));
  }

  /** The remaining list as it would be with the idle task as the current one. */
  lemma WithoutKeeps(w: World)
    requires Inv(w) && w.cur > 0
    requires forall i :: 0 <= i < |w.tasks| && w.tasks[i].ppid != 0 ==> w.tasks[i].ppid != w.tasks[w.cur].pid
    ensures Inv(World(Without(w.tasks, w.cur), 0, w.counter))
  {
    WithoutParents(w.tasks, w.cur);
    hide Parents;
    var rest := Without(w.tasks, w.cur);
    assert forall i :: 0 <= i < |rest| ==> rest[i] == w.tasks[if i < w.cur then i else i + 1];
  }

  lemma WithoutParents(tasks: seq<TaskView>, cur: nat)
    requires Parents(tasks) && cur < |tasks|
    requires forall i :: 0 <= i < |tasks| && tasks[i].ppid != 0 ==> tasks[i].ppid != tasks[cur].pid
    ensures Parents(Without(tasks, cur))
  {
    var rest := Without(tasks, cur);
    forall i | 0 <= i < |rest| && rest[i].ppid != 0 ensures IsListed(rest, rest[i].ppid) {
      var i0 := if i < cur then i else i + 1;
      assert IsListed(tasks, tasks[i0].ppid);
      var j :| 0 <= j < |tasks| && tasks[j].pid == tasks[i0].ppid;
      assert rest[if j < cur then j else j - 1].pid == rest[i].ppid;
    }
  }

  lemma NoneRunning(w: World, rest: seq<TaskView>)
    requires Inv(w) && rest == Without(w.tasks, w.cur)
    ensures forall i :: 0 <= i < |rest| ==> !rest[i].state.Running?
  {
    hide Parents;
  }

  /** The search finds an eligible task if there is one, and it is not the idle task. */
  lemma SearchFound(tasks: seq<TaskView>, cur: nat)
    requires cur < |tasks| && tasks[0].pid == PID_IDLE && exists i :: 0 <= i < |tasks| && Eligible(tasks[i])
    ensures 0 < Search(tasks, cur, 1) < |tasks|
  {
    SearchIsNearest(tasks, cur, 1);
  }

  lemma EligibleAfterOrphan(w: World)
    requires Sane(w) && exists i :: 0 <= i < |w.tasks| && i != w.cur && Eligible(w.tasks[i])
    ensures exists i :: 0 <= i < |w.tasks| && i != w.cur && Eligible(Orphan(w.tasks, w.tasks[w.cur].pid)[i])
  {
    var i :| 0 <= i < |w.tasks| && i != w.cur && Eligible(w.tasks[i]);
    assert Eligible(Orphan(w.tasks, w.tasks[w.cur].pid)[i]);
  }

  lemma HandleKeeps(w: World)
    requires Inv(w)
    ensures Inv(HandleSignal(w))
  {
    hide ClearBit, LowestBit;
    SameListKeeps(w, HandleSignal(w).tasks);
  }

  /** The two ways in which a task ends, and what each of them starts from. */
  lemma DoExit(w: World)
    requires Inv(w) && Enabled(w, Exit)
    ensures var w1 := w.(tasks := Orphan(w.tasks, w.tasks[w.cur].pid));
            && Inv(w1)
            && if w1.tasks[w1.cur].ppid > 0
               then
                 && Inv(w1.(tasks := BecomeZombie(w1.tasks, w1.cur)))
                 && Do(w, Exit) == Reschedule(w1.(tasks := BecomeZombie(w1.tasks, w1.cur)))
               else
                 && w1.cur > 0 && w1.tasks[w1.cur].signal == 0
                 && (exists i :: 0 <= i < |w1.tasks| && i != w1.cur && Eligible(w1.tasks[i]))
                 && Inv(Unlink(w1.tasks, w1.cur, w1.counter))
                 && Do(w, Exit) == HandleSignal(Unlink(w1.tasks, w1.cur, w1.counter))
  {
    hide Reschedule, Unlink, HandleSignal, SetBit, Search;
    var w1 := w.(tasks := Orphan(w.tasks, w.tasks[w.cur].pid));
    OrphanKeeps(w, w.tasks[w.cur].pid);
    if w1.tasks[w1.cur].ppid > 0 {
      SameListKeeps(w1, BecomeZombie(w1.tasks, w1.cur));
    } else {
      EligibleAfterOrphan(w);
      UnlinkKeeps(w1);
    }
  }

  /** The current task has neither a parent other than itself nor handled all its signals. */
  predicate ExitsPending(w: World)
    requires Sane(w)
  {
    var t := w.tasks[w.cur];
    t.pid != PID_IDLE && (t.ppid == 0 || t.ppid == t.pid) && t.signal != 0
  }

  /** What the three ways in which a task ends start from. */
  lemma ExitCases(w: World)
    requires Inv(w) && Sane(w) && (Enabled(w, Exit) || ExitsPending(w))
    ensures var w1 := w.(tasks := Orphan(w.tasks, w.tasks[w.cur].pid));
            && Inv(w1)
            && (w1.tasks[w1.cur].ppid > 0 || w1.tasks[w1.cur].signal == 0 ==> Enabled(w, Exit) && !ExitsPending(w))
            && if w1.tasks[w1.cur].ppid > 0
               then
                 && Inv(w1.(tasks := BecomeZombie(w1.tasks, w1.cur)))
                 && Do(w, Exit) == Reschedule(w1.(tasks := BecomeZombie(w1.tasks, w1.cur)))
               else
                 && w1.cur > 0
                 && if w1.tasks[w1.cur].signal != 0 then ExitsPending(w)
                    else
                      && (exists i :: 0 <= i < |w1.tasks| && i != w1.cur && Eligible(w1.tasks[i]))
                      && Inv(Unlink(w1.tasks, w1.cur, w1.counter))
                      && Do(w, Exit) == HandleSignal(Unlink(w1.tasks, w1.cur, w1.counter))
  {
    hide Parents, Reschedule, Unlink, HandleSignal, BecomeZombie, Do;
    OrphanKeeps(w, w.tasks[w.cur].pid);
    if !ExitsPending(w) {
      DoExit(w);
    }
  }

  /** What handle_pending_signals does to the current task. */
  function TakenSignal(t: TaskView): TaskView {
    if t.signal == 0 then t else t.(signal := ClearBit(t.signal, LowestBit(t.signal)))
  }

  lemma HandleIsTaken(w: World)
    requires Inv(w)
    ensures Sane(w) && Inv(HandleSignal(w))
    ensures HandleSignal(w) == w.(tasks := w.tasks[w.cur := TakenSignal(w.tasks[w.cur])])
  {
    hide Parents, LowestBit, ClearBit;
    HandleKeeps(w);
  }

  lemma ExitKeeps(w: World)
    requires Inv(w) && Enabled(w, Exit)
    ensures Inv(Do(w, Exit))
  {
    var w1 := w.(tasks := Orphan(w.tasks, w.tasks[w.cur].pid));
    DoExit(w);
    hide Inv, Do, Enabled, Reschedule, Unlink, HandleSignal, BecomeZombie;
    if w1.tasks[w1.cur].ppid > 0 {
      RescheduleKeeps(w1.(tasks := BecomeZombie(w1.tasks, w1.cur)));
    } else {
      HandleKeeps(Unlink(w1.tasks, w1.cur, w1.counter));
    }
  }

  /** Every step keeps the invariant. */
  lemma InvKept(w: World, s: Step)
    requires Inv(w) && Enabled(w, s)
    ensures Inv(Do(w, s))
  {
    hide Inv, Reschedule, ForkChild, Unlink, BecomeZombie, SetBit, FindPid, Orphan, HandleSignal;
    match s
    case Resched => RescheduleKeeps(w);
    case TimerTick => TickKeeps(w);
    case Sleep(ms) =>
      InvSane(w);
      SleepKeeps(w, w.tasks[w.cur].(alarm := ms, state := Interruptable));
      RescheduleKeeps(GoToSleep(w, ms));
    case QueueSleep =>
      InvSane(w);
      SleepKeeps(w, w.tasks[w.cur].(state := Interruptable));
      RescheduleKeeps(w.(tasks := SetState(w.tasks, w.cur, Interruptable)));
    case Wakeup(places) => WakeKeeps(w, places);
    case Signal(i, sig) => SignalKeeps(w, i, sig);
    case Fork => ForkKeeps(w);
    case Exit => ExitKeeps(w);
  }

  lemma TickKeeps(w: World)
    requires Inv(w)
    ensures Inv(w.(tasks := TickAll(w.tasks)))
  {
    SameListKeeps(w, TickAll(w.tasks));
  }

  lemma WakeKeeps(w: World, places: set<nat>)
    requires Inv(w)
    ensures Inv(w.(tasks := WakeAll(w.tasks, places)))
  {
    SameListKeeps(w, WakeAll(w.tasks, places));
  }

  lemma SleepKeeps(w: World, t: TaskView)
    requires Inv(w) && t.pid == w.tasks[w.cur].pid && t.ppid == w.tasks[w.cur].ppid && !t.state.Running?
    ensures Inv(w.(tasks := w.tasks[w.cur := t]))
  {
    SameListKeeps(w, w.tasks[w.cur := t]);
  }

  lemma SignalKeeps(w: World, i: nat, sig: nat)
    requires Inv(w) && i < |w.tasks|
    ensures Inv(w.(tasks := w.tasks[i := w.tasks[i].(signal := SetBit(w.tasks[i].signal, sig))]))
  {
    SameListKeeps(w, w.tasks[i := w.tasks[i].(signal := SetBit(w.tasks[i].signal, sig))]);
  }

  lemma InvSane(w: World)
    requires Inv(w)
    ensures Sane(w)
  {
  }

  /** The steps can be taken one after the other. */
  ghost predicate CanRun(w: World, steps: seq<Step>)
    requires Inv(w)
    decreases |steps|
  {
    |steps| == 0 ||
    (Enabled(w, steps[0]) && (InvKept(w, steps[0]); CanRun(Do(w, steps[0]), steps[1..])))
  }

  /** The state after a run.  In every state that any run reaches the invariant holds: idle stays
      at the head and is not RUNNING, a RUNNING task is the current one, every parent is listed. */
  ghost function RunAll(w: World, steps: seq<Step>): (w': World)
    requires Inv(w) && CanRun(w, steps)
    ensures Inv(w')
    decreases |steps|
  {
    if |steps| == 0 then w else InvKept(w, steps[0]); RunAll(Do(w, steps[0]), steps[1..])
  }

  /** The tasks have the PIDs they had, and so has the counter. */
  ghost predicate SamePids(w: World, w': World) {
    && w'.counter == w.counter && |w'.tasks| == |w.tasks|
    && forall i :: 0 <= i < |w.tasks| ==> w'.tasks[i].pid == w.tasks[i].pid
  }

  lemma ReschedulePids(w: World, w1: World)
    requires Sane(w1) && SamePids(w, w1)
    ensures SamePids(w, Reschedule(w1))
  {
    hide Search, ClearBit, LowestBit;
  }

  lemma StepPids(w: World, s: Step)
    requires Inv(w) && Enabled(w, s) && !s.Fork? && !s.Exit?
    ensures SamePids(w, Do(w, s))
  {
    hide Reschedule, SetBit, Parents;
    match s
    case Resched => ReschedulePids(w, w);
    case Sleep(ms) => ReschedulePids(w, GoToSleep(w, ms));
    case QueueSleep => ReschedulePids(w, w.(tasks := SetState(w.tasks, w.cur, Interruptable)));
    case _ =>
  }

  lemma ForkAscends(w: World)
    requires Inv(w) && Enabled(w, Fork) && Ascending(w.tasks, w.counter) && w.counter < MAX_PID
    ensures Ascending(Do(w, Fork).tasks, Do(w, Fork).counter)
  {
    hide FindPid, Parents;
    PidBeforeWrap(w.tasks, w.counter);
  }

  lemma ExitAscends(w: World)
    requires Inv(w) && Enabled(w, Exit) && Ascending(w.tasks, w.counter)
    ensures Ascending(Do(w, Exit).tasks, Do(w, Exit).counter)
  {
    hide Reschedule, Search, SetBit, Parents, HandleSignal, FindTask, Unlink;
    var tasks := Orphan(w.tasks, w.tasks[w.cur].pid);
    if tasks[w.cur].ppid > 0 {
      ReschedulePids(w, w.(tasks := BecomeZombie(tasks, w.cur)));
    } else {
      ExitPids(w);
    }
  }

  /** Before the counter wraps around, every step keeps the PIDs ascending along the list. */
  lemma AscendingKept(w: World, s: Step)
    requires Inv(w) && Enabled(w, s) && Ascending(w.tasks, w.counter)
    requires s.Fork? ==> w.counter < MAX_PID
    ensures Ascending(Do(w, s).tasks, Do(w, s).counter)
  {
    hide Do, Inv, Enabled;
    if s.Fork? {
      ForkAscends(w);
    } else if s.Exit? {
      ExitAscends(w);
    } else {
      StepPids(w, s);
    }
  }

  lemma ExitPids(w: World)
    requires Sane(w) && 0 < w.cur && Ascending(w.tasks, w.counter)
    ensures var w' := HandleSignal(Unlink(Orphan(w.tasks, w.tasks[w.cur].pid), w.cur, w.counter));
            Ascending(w'.tasks, w'.counter)
  {
    hide Search, ClearBit, LowestBit;
    var tasks := Orphan(w.tasks, w.tasks[w.cur].pid);
    var rest := Without(tasks, w.cur);
    assert Ascending(rest, w.counter);
  }

  ghost predicate NoWrap(w: World, steps: seq<Step>)
    requires Inv(w) && CanRun(w, steps)
    decreases |steps|
  {
    |steps| == 0 ||
    ((steps[0].Fork? ==> w.counter < MAX_PID) && (InvKept(w, steps[0]); NoWrap(Do(w, steps[0]), steps[1..])))
  }

  /** In every run before the counter wraps around, the PIDs ascend along the list and so differ. */
  lemma {:induction false} PidsDistinct(w: World, steps: seq<Step>)
    requires Inv(w) && CanRun(w, steps) && NoWrap(w, steps) && Ascending(w.tasks, w.counter)
    ensures Ascending(RunAll(w, steps).tasks, RunAll(w, steps).counter)
    decreases |steps|
  {
    hide Inv, Enabled, Do;
    if |steps| > 0 {
      InvKept(w, steps[0]);
      AscendingKept(w, steps[0]);
      PidsDistinct(Do(w, steps[0]), steps[1..]);
    }
  }
}
