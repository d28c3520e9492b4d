// The scheduler of source/kernel/schedule.c and source/kernel/timer.c: tasks linked in place.
module Scheduling {
  import opened Words
  import opened TaskModel
  import opened ProcessIds
  import opened SignalModel
  import opened TaskRuns

  /** task_t, as far as the scheduler uses it. */
  class Task {
    var prev: Task?
    var next: Task?
    var pid: nat
    var ppid: nat
    var state: State
    var alarm: Int32
    var signal: nat
    var ktime: nat
    var utime: nat
    var exitcode: int

    constructor (pid: nat, ppid: nat, state: State, alarm: Int32, signal: nat)
      ensures View() == TaskView(pid, ppid, state, alarm, signal)
      ensures prev == null && next == null && ktime == 0 && utime == 0
    {
      this.pid, this.ppid, this.state, this.alarm, this.signal := pid, ppid, state, alarm, signal;
      prev, next := null, null;
      ktime, utime, exitcode := 0, 0, 0;
    }

    ghost function View(): TaskView
      reads this
    {
      TaskView(pid, ppid, state, alarm, signal)
    }

    /** The memcpy of sys_fork, and what it changes in the copy before it is listed. */
    method Copy(newPid: nat) returns (child: Task)
      ensures fresh(child) && child.View() == View().(pid := newPid, ppid := pid)
      ensures child.ktime == child.utime == 0 && child.exitcode == exitcode
    {
      child := new Task(newPid, pid, state, alarm, signal);
      child.prev, child.next, child.exitcode := prev, next, exitcode;
    }
  }

  const MAX_WAITQUEUE_TASKS: nat := 10

  /** waitqueue_t */
  class WaitQueue {
    const task: array<Task?>

    /** sched_init_waitqueue */
    constructor ()
      ensures fresh(task) && task.Length == 10
      ensures forall i :: 0 <= i < task.Length ==> task[i] == null
    {
      task := new Task?[MAX_WAITQUEUE_TASKS](i => null);
    }

    /** The tasks in the queue. */
    ghost function Queued(): (tasks: set<Task>)
      reads task
      ensures forall i :: 0 <= i < task.Length && task[i] != null ==> task[i] in tasks
    {
      set i | 0 <= i < task.Length && task[i] != null :: task[i] as Task
    }

    /** The task in one slot. */
    ghost function Slot(i: nat): set<Task>
      requires i < task.Length
      reads task
    {
      if task[i] == null then {} else {task[i]}
    }

    /** The search loop of sched_interruptable_sleep. */
    method FindFree() returns (i: nat)
      ensures i <= task.Length && (i < task.Length ==> FirstSlot(task[..], i))
      ensures i == task.Length <==> null !in task[..]
    {
      i := 0;
      while i != task.Length
        invariant i <= task.Length && forall j :: 0 <= j < i ==> task[j] != null
        decreases task.Length - i
      {
        if task[i] == null {
          break;
        }
        i := i + 1;
      }
    }
  }

  /** The first free slot of a wait queue. */
  ghost predicate FirstSlot(slots: seq<Task?>, i: nat) {
    i < |slots| && slots[i] == null && forall j :: 0 <= j < i ==> slots[j] != null
  }

  class Scheduler {
    var taskList: Task?
    var idleTask: Task?
    var currentTask: Task?
    var currentPid: int
    var kernelTicks: nat
    var scheduleTicks: int
    ghost var Tasks: seq<Task>
    ghost var cur: nat

    constructor ()
      ensures Linked() && Tasks == [] && currentTask == null && currentPid == PID_IDLE - 1
      ensures scheduleTicks == SCHEDULE_TICKS && kernelTicks == 0
    {
      taskList, idleTask, currentTask := null, null, null;
      currentPid := PID_IDLE - 1;
      scheduleTicks, kernelTicks := SCHEDULE_TICKS, 0;
      Tasks, cur := [], 0;
    }

    /** next and prev are inverse to each other and follow the ghost sequence. */
    ghost predicate Linked()
      reads `taskList, `Tasks, Tasks
    {
      && (forall i, j :: 0 <= i < j < |Tasks| ==> Tasks[i] != Tasks[j])
      && taskList == (if |Tasks| == 0 then null else Tasks[0])
      && (forall i {:trigger Tasks[i].prev} :: 0 <= i < |Tasks| ==>
           Tasks[i].prev == if i == 0 then null else Tasks[i - 1])
      && (forall i {:trigger Tasks[i].next} :: 0 <= i < |Tasks| ==>
           Tasks[i].next == if i == |Tasks| - 1 then null else Tasks[i + 1])
    }

    ghost function Views(): (views: seq<TaskView>)
      reads `Tasks, Tasks
      ensures |views| == |Tasks| && forall i :: 0 <= i < |Tasks| ==> views[i] == Tasks[i].View()
    {
      var tasks := Tasks;
      seq(|tasks|, i requires 0 <= i < |tasks| reads tasks => tasks[i].View())
    }

    ghost function TheWorld(): World
      reads `Tasks, `cur, `currentPid, Tasks
    {
      World(Views(), cur, currentPid)
    }

    ghost predicate Valid()
      reads `taskList, `Tasks, `cur, `currentPid, `currentTask, `idleTask, Tasks
    {
      Linked() && Inv(TheWorld()) && currentTask == Tasks[cur] && idleTask == Tasks[0]
    }

    // -------------------------------------------------------------------------
    // The list

    /** sched_add_task */
    method AddTask(t: Task)
      requires Linked() && t !in Tasks
      modifies this`taskList, this`idleTask, this`Tasks, Tasks, t`prev, t`next
      ensures Linked() && Tasks == old(Tasks) + [t]
      ensures idleTask == if |old(Tasks)| == 0 then t else old(idleTask)
      ensures Views() == old(Views()) + [old(t.View())]
    {
      var last := taskList;
      if last == null {
        taskList := t;
        t.next := null;
        t.prev := null;
        idleTask := t;
      } else {
        ghost var k := 0;
        while last.next != null
          invariant 0 <= k < |Tasks| && last == Tasks[k]
          decreases |Tasks| - k
        {
          last := last.next;
          k := k + 1;
        }
        last.next := t;
        t.prev := last;
        t.next := null;
      }
      Tasks := Tasks + [t];
    }

    /** The links that sched_remove_task changes; the idle task at the head is never removed, so the
        branch for the first element of the list is not reached. */
    method CutOut(t: Task, ghost k: nat)
      requires Linked() && 0 < k < |Tasks| && t == Tasks[k]
      modifies this`Tasks, Tasks`prev, Tasks`next
      ensures Linked() && Tasks == old(Tasks)[..k] + old(Tasks)[k + 1..]
      ensures t.next == old(t.next) && t.prev == old(t.prev)
    {
      if t.next == null {
        t.prev.next := null;
      } else if t.prev == null {
        assert false;
      } else {
        t.prev.next := t.next;
        t.next.prev := t.prev;
      }
      Tasks := Tasks[..k] + Tasks[k + 1..];
    }

    /** sched_remove_task, for a task at place k. */
    method RemoveTask(t: Task, ghost k: nat)
      requires Linked() && 0 < k < |Tasks| && t == Tasks[k]
      modifies this`Tasks, Tasks`prev, Tasks`next
      ensures Linked() && Tasks == old(Tasks)[..k] + old(Tasks)[k + 1..]
      ensures Views() == Without(old(Views()), k)
      ensures t.next == old(t.next) && t.prev == old(t.prev) && t.View() == old(t.View())
    {
      hide Linked;
      ghost var views := Views();
      CutOut(t, k);
      assert Views() == Without(views, k);
    }

    lemma LinkAt(k: nat)
      requires Linked() && k < |Tasks|
      ensures Tasks[k].next == (if k == |Tasks| - 1 then null else Tasks[k + 1]) && taskList == Tasks[0]
    {
    }

    lemma PlaceUnique(i: nat, j: nat)
      requires Linked() && i < |Tasks| && j < |Tasks| && Tasks[i] == Tasks[j]
      ensures i == j
    {
    }

    /** The pointer that get_next_runnable_task follows leads one place ahead. */
    lemma NextPlace(t: Task, c: nat, d: nat)
      requires Linked() && c < |Tasks| && d < |Tasks|
      requires t == Tasks[Ahead(c, d, |Tasks|)] || (d == 0 && t.next == if c == |Tasks| - 1 then null else Tasks[c + 1])
      ensures (if t.next != null then t.next else taskList) == Tasks[Ahead(c, d + 1, |Tasks|)]
    {
    }

    /** A walk comes back to where it started after a full circle, and not earlier. */
    lemma BackAgain(t: Task, c: nat, d: nat)
      requires Linked() && c < |Tasks| && 1 <= d <= |Tasks| && (t == Tasks[c] || t !in Tasks)
      ensures Tasks[Ahead(c, d, |Tasks|)] == t <==> d == |Tasks| && t == Tasks[c]
    {
    }

    /** The loop of get_next_runnable_task, which starts after place c.  For a task that has been
        unlinked it ends only if it finds a task. */
    method SearchList(task: Task, ghost c: nat, ghost listed: bool) returns (r: Task?, ghost found: int)
      requires Linked() && c < |Tasks|
      requires listed ==> task == Tasks[c]
      requires !listed ==> task !in Tasks && task.next == (if c == |Tasks| - 1 then null else Tasks[c + 1])
      requires !listed ==> exists j :: 0 <= j < |Tasks| && Eligible(Views()[j])
      ensures found == Search(Views(), c, 1)
      ensures r == if found == -1 then null else Tasks[found]
      ensures !listed ==> found != -1
    {
      hide Linked, Ahead, Search, Eligible, NoneUpTo;
      ghost var n, d, views := |Tasks|, 0, Views();
      NoneYet(views, c);
      LinkAt(c);
      var next := task;
      while true
        invariant 0 <= d < n && NoneUpTo(views, c, d)
        invariant d == 0 ==> next == task
        invariant d > 0 ==> next == Tasks[Ahead(c, d, n)]
        decreases n - d
      {
        NextPlace(next, c, d);
        SearchRound(views, c, d);
        next := if next.next != null then next.next else taskList;
        d := d + 1;
        assert next.View() == views[Ahead(c, d, n)];
        if next.state.Runnable? && next.pid != PID_IDLE {
          return next, Ahead(c, d, n);
        }
        BackAgain(task, c, d);
        if next == task {
          break;
        }
      }
      r, found := null, -1;
    }

    /** get_next_runnable_task, for the task at place i, or for a task that has just been unlinked
        from place i. */
    method GetNextRunnable(task: Task, ghost i: nat, ghost listed: bool) returns (r: Task?, ghost found: int)
      requires Linked() && |Tasks| > 0
      requires listed ==> i < |Tasks| && task == Tasks[i]
      requires !listed ==>
                 && task !in Tasks && 0 < i <= |Tasks| && task.prev == Tasks[i - 1]
                 && task.next == (if i < |Tasks| then Tasks[i] else null)
                 && exists j :: 0 <= j < |Tasks| && Eligible(Views()[j])
      ensures found == if listed then NextTask(Views(), i) else Search(Views(), i - 1, 1)
      ensures r == if found == -1 then null else Tasks[found]
      ensures !listed ==> found != -1
    {
      if task.prev == null && task.next == null {
        return task, i;
      }
      hide Search, Eligible;
      r, found := SearchList(task, if listed then i else i - 1, listed);
    }

    /** The task that the loop of get_next_runnable_task reaches in its k-th round. */
    ghost function Follow(task: Task, k: nat): (t: Task)
      requires Linked() && |Tasks| > 0 && (task.next == null || task.next in Tasks)
      reads `taskList, `Tasks, Tasks, task
      ensures k > 0 ==> t in Tasks
      decreases k
    {
      if k == 0 then task
      else
        var t := Follow(task, k - 1);
        if t.next != null then t.next else taskList
    }

    lemma {:induction false} FollowAhead(task: Task, c: nat, d: nat)
      requires Linked() && c < |Tasks| && 1 <= d <= |Tasks|
      requires task.next == if c == |Tasks| - 1 then null else Tasks[c + 1]
      ensures Follow(task, d) == Tasks[Ahead(c, d, |Tasks|)]
      decreases d
    {
      if d > 1 {
        FollowAhead(task, c, d - 1);
      }
    }

    /** For a task that has been unlinked from behind place c the loop ends if and only if some task
        is eligible: it never comes back to where it started. */
    lemma UnlinkedSearchEnds(task: Task, c: nat)
      requires Linked() && c < |Tasks| && task !in Tasks
      requires task.next == if c == |Tasks| - 1 then null else Tasks[c + 1]
      ensures (exists k: nat :: Stops(task, k)) <==> exists j :: 0 <= j < |Tasks| && Eligible(Views()[j])
    {
      if j :| 0 <= j < |Tasks| && Eligible(Views()[j]) {
        var d := Distance(c, j, |Tasks|);
        FollowAhead(task, c, d);
        assert Stops(task, d);
      }
      if k: nat :| Stops(task, k) {
        var t := Follow(task, k);
        var j :| 0 <= j < |Tasks| && Tasks[j] == t;
        assert Eligible(Views()[j]);
      }
    }

    /** The loop ends in its k-th round. */
    ghost predicate Stops(task: Task, k: nat)
      requires Linked() && |Tasks| > 0 && (task.next == null || task.next in Tasks)
      reads `taskList, `Tasks, Tasks, task
    {
      k > 0 && (Eligible(Follow(task, k).View()) || Follow(task, k) == task)
    }

    // -------------------------------------------------------------------------
    // Switching

    /** What changes when the state of the task at place i is set. */
    method SetTaskState(t: Task, s: State, ghost i: nat)
      requires Linked() && i < |Tasks| && t == Tasks[i]
      modifies t`state
      ensures Linked() && Views() == SetState(old(Views()), i, s)
    {
      t.state := s;
    }

    /** The part of switch_task that makes another task current: do_context_switch. */
    method EnterTask(next: Task, ghost i: nat)
      requires Linked() && i < |Tasks| && next == Tasks[i]
      modifies this`currentTask, this`cur, next`state
      ensures Linked() && currentTask == next && cur == i
      ensures Views() == if old(Views()[i].pid) != PID_IDLE then SetState(old(Views()), i, Running) else old(Views())
    {
      if next.pid != PID_IDLE {
        next.state := Running;
      }
      currentTask := next;
      cur := i;
    }

    /** The first part of switch_task: a task that is still RUNNING becomes available again. */
    method YieldCurrent()
      requires Linked() && cur < |Tasks| && currentTask == Tasks[cur]
      modifies Tasks
      ensures Linked() && Views() == Yielded(old(TheWorld()))
    {
      if currentTask.state.Running? {
        SetTaskState(currentTask, Runnable, cur);
      }
    }

    /** The second part of switch_task: the choice of the next task, and the switch to it. */
    method SwitchFrom(previous: Task)
      requires Linked() && cur < |Tasks| && currentTask == Tasks[cur] == previous && idleTask == Tasks[0]
      modifies this`currentTask, this`cur, Tasks
      ensures Linked() && cur < |Tasks| && currentTask == Tasks[cur]
      ensures var found := NextTask(old(Views()), old(cur));
              && cur == (if found == -1 then 0 else found)
              && Views() == if cur == old(cur) || old(Views())[cur].pid == PID_IDLE then old(Views())
                            else SetState(old(Views()), cur, Running)
    {
      hide NextTask, Eligible, Linked, Views;
      var next, found := GetNextRunnable(previous, cur, true);
      if next == null {
        next, found := idleTask, 0;
      }
      if found == cur {
        assert previous == next;
      }
      if previous == next {
        PlaceUnique(found, cur);
        return;
      }
      EnterTask(next, found);
    }

    /** switch_task */
    method SwitchTask()
      requires Valid()
      modifies this`currentTask, this`cur, Tasks
      ensures Valid() && Tasks == old(Tasks) && TheWorld() == Switch(old(TheWorld()))
    {
      hide Inv, NextTask, Eligible, Switch, Linked, Yielded, Views;
      ghost var w := TheWorld();
      InvSane(w);
      SwitchKeeps(w);
      assert currentTask.View() == w.tasks[w.cur];
      if currentTask.signal != 0 {
        SwitchRefused(w);
        return;
      }
      var previous := currentTask;
      YieldCurrent();
      SwitchFrom(previous);
      SwitchOutcome(w, cur);
    }

    /** handle_pending_signals, for a current task that may have been unlinked. */
    method TakeSignal()
      requires Linked() && currentTask != null && (currentTask in Tasks ==> cur < |Tasks| && currentTask == Tasks[cur])
      modifies currentTask`signal
      ensures Linked() && currentTask.View() == TakenSignal(old(currentTask.View()))
      ensures Views() == if currentTask in Tasks then old(Views())[cur := currentTask.View()] else old(Views())
    {
      hide Views, LowestBit, ClearBit;
      ghost var views := Views();
      if currentTask.signal == 0 {
        return;
      }
      var signal := LowestBit(currentTask.signal);
      currentTask.signal := ClearBit(currentTask.signal, signal);
      assert Views() == if currentTask in Tasks then views[cur := currentTask.View()] else views;
    }

    /** handle_pending_signals */
    method HandlePendingSignals()
      requires Valid()
      modifies Tasks
      ensures Valid() && Tasks == old(Tasks) && TheWorld() == HandleSignal(old(TheWorld()))
    {
      ghost var w := TheWorld();
      HandleKeeps(w);
      InvSane(w);
      hide Inv, Views, LowestBit, ClearBit;
      TakeSignal();
      assert Views() == HandleSignal(w).tasks;
    }

    /** reschedule */
    method DoReschedule()
      requires Valid()
      modifies this`currentTask, this`cur, Tasks
      ensures Valid() && Tasks == old(Tasks) &&
              TheWorld() == Do(old(TheWorld()), Resched) == Reschedule(old(TheWorld()))
    {
      DoResched(TheWorld());
      hide Do, Enabled, Inv, Linked, Switch, HandleSignal, Views;
      SwitchTask();
      HandlePendingSignals();
    }

    // -------------------------------------------------------------------------
    // The timer

    /** sys_signal */
    method SysSignal(t: Task, signal: nat, ghost i: nat)
      requires Linked() && i < |Tasks| && t == Tasks[i]
      modifies t`signal
      ensures Linked() && Views() == old(Views())[i := old(t.View()).(signal := SetBit(old(t.signal), signal))]
    {
      t.signal := SetBit(t.signal, signal);
    }

    /** The alarm time of a task comes nearer. */
    method CountDown(t: Task, ghost i: nat)
      requires Linked() && i < |Tasks| && t == Tasks[i]
      modifies t`alarm
      ensures Linked() && Views() == old(Views())[i := old(t.View()).(alarm := Decrement(old(t.alarm)))]
      ensures t.View() == Views()[i]
    {
      hide Decrement;
      t.alarm := Decrement(t.alarm);
    }

    /** The body of the loop of global_task_administration. */
    method Administer(t: Task, ghost i: nat)
      requires Linked() && i < |Tasks| && t == Tasks[i]
      modifies t`alarm, t`signal, t`state
      ensures Linked() && Views() == old(Views())[i := Tick(old(t.View()))]
    {
      hide SetBit, Views, Linked, Decrement;
      ghost var before := Views();
      assert before[i] == t.View();
      if t.state.Initialising? || t.pid == PID_IDLE {
        return;
      }
      if t.alarm != 0 {
        CountDown(t, i);
        if t.alarm == 0 {
          SysSignal(t, SIGALRM, i);
        }
      }
      if t.signal != 0 && t.state.Interruptable? {
        SetTaskState(t, Runnable, i);
      }
      assert t.View() == Tick(before[i]);
    }

    /** The loop of global_task_administration. */
    method TickList()
      requires Linked() && |Tasks| > 0
      modifies Tasks
      ensures Linked() && Views() == TickAll(old(Views()))
      ensures forall t :: t in Tasks ==> t.ktime == old(t.ktime) && t.utime == old(t.utime)
    {
      hide Linked, Partly, Tick, TickAll, Views;
      ghost var views := Views();
      LinkAt(0);
      PartlyEnds(TickAll(views), views);
      var task := taskList;
      ghost var k := 0;
      while task != null
        invariant Linked() && 0 <= k <= |Tasks| && task == (if k < |Tasks| then Tasks[k] else null)
        invariant Views() == Partly(TickAll(views), views, k)
        invariant forall t :: t in Tasks ==> t.ktime == old(t.ktime) && t.utime == old(t.utime)
        decreases |Tasks| - k
      {
        PartlyStep(TickAll(views), views, k);
        TickAllAt(views, k);
        Administer(task, k);
        LinkAt(k);
        task := task.next;
        k := k + 1;
      }
    }

    /** global_task_administration */
    method GlobalTaskAdministration()
      requires Valid()
      modifies Tasks
      ensures Valid() && TheWorld() == Do(old(TheWorld()), TimerTick)
      ensures forall t :: t in Tasks ==> t.ktime == old(t.ktime) && t.utime == old(t.utime)
    {
      ghost var w := TheWorld();
      TickKeeps(w);
      InvSane(w);
      DoTick(w);
      hide Inv, Do, Enabled, TickAll, Linked, Views;
      TickList();
      assert TheWorld() == w.(tasks := TickAll(w.tasks));
    }

    /** Time spent, which no other part of the scheduler looks at. */
    method AccountTime(rpl: nat)
      requires Valid()
      modifies Tasks
      ensures Valid() && TheWorld() == old(TheWorld()) && currentTask == old(currentTask)
      ensures forall t :: t in Tasks ==>
                && t.ktime == old(t.ktime) + (if t == currentTask && rpl == 0 then 1 else 0)
                && t.utime == old(t.utime) + (if t == currentTask && rpl != 0 then 1 else 0)
    {
      hide Inv, Views;
      InvSane(TheWorld());
      ghost var views := Views();
      if rpl == 0 {
        currentTask.ktime := currentTask.ktime + 1;
      } else {
        currentTask.utime := currentTask.utime + 1;
      }
      assert Views() == views;
    }

    /** timer_interrupt: the result 1 asks the interrupt handler for a rescheduling. */
    method TimerInterrupt(rpl: nat) returns (r: nat)
      requires Valid() && 1 <= scheduleTicks <= SCHEDULE_TICKS
      modifies this`kernelTicks, this`scheduleTicks, Tasks
      ensures Valid() && TheWorld() == Do(old(TheWorld()), TimerTick) && kernelTicks == old(kernelTicks) + 1
      ensures forall t :: t in Tasks ==>
                && t.ktime == old(t.ktime) + (if t == currentTask && rpl == 0 then 1 else 0)
                && t.utime == old(t.utime) + (if t == currentTask && rpl != 0 then 1 else 0)
      ensures 1 <= scheduleTicks <= SCHEDULE_TICKS && r == (if old(scheduleTicks) == 1 then 1 else 0)
      ensures scheduleTicks == NextSlice(old(scheduleTicks))
    {
      AccountTime(rpl);
      GlobalTaskAdministration();
      Count();
      r := CountSlice();
    }

    /** The tick counter of the kernel. */
    method Count()
      requires Valid()
      modifies this`kernelTicks
      ensures Valid() && TheWorld() == old(TheWorld()) && kernelTicks == old(kernelTicks) + 1
    {
      hide Inv, Views;
      ghost var views := Views();
      kernelTicks := kernelTicks + 1;
      assert Views() == views;
    }

    /** The slice counter of timer_interrupt. */
    method CountSlice() returns (r: nat)
      requires Valid() && 1 <= scheduleTicks <= SCHEDULE_TICKS
      modifies this`scheduleTicks
      ensures Valid() && TheWorld() == old(TheWorld())
      ensures scheduleTicks == NextSlice(old(scheduleTicks))
      ensures r == if old(scheduleTicks) == 1 then 1 else 0
    {
      hide Inv, Views;
      ghost var views := Views();
      scheduleTicks := scheduleTicks - 1;
      r := 0;
      if scheduleTicks <= 0 {
        scheduleTicks := SCHEDULE_TICKS;
        r := 1;
      }
      assert Views() == views;
    }

    // -------------------------------------------------------------------------
    // Sleeping

    /** The changes that sys_sleep makes to the current task. */
    method SetAlarm(ms: Int32)
      requires Valid() && currentTask.pid != PID_IDLE
      modifies Tasks
      ensures Valid() && TheWorld() == GoToSleep(old(TheWorld()), ms)
    {
      hide Inv, Views;
      ghost var w := TheWorld();
      InvSane(w);
      SleepKeeps(w, w.tasks[w.cur].(alarm := ms, state := Interruptable));
      currentTask.alarm := ms;
      currentTask.state := Interruptable;
      assert Views() == GoToSleep(w, ms).tasks;
    }

    /** sys_sleep; none when the idle task asks for it, which stops the kernel. */
    method SysSleep(ms: Int32) returns (panic: bool)
      requires Valid()
      modifies this`currentTask, this`cur, Tasks
      ensures Valid() && Tasks == old(Tasks) && panic == old(currentTask.pid == PID_IDLE)
      ensures TheWorld() == if panic then old(TheWorld()) else Do(old(TheWorld()), Sleep(ms))
    {
      ghost var w := TheWorld();
      InvSane(w);
      if currentTask.pid == PID_IDLE {
        return true;
      }
      DoSleep(w, ms);
      hide Inv, Do, Enabled, Linked, Views;
      SetAlarm(ms);
      DoReschedule();
      return false;
    }

    /** The current task lies down in a state that signals can end. */
    method LieDown()
      requires Valid()
      modifies Tasks
      ensures Valid() && TheWorld() == old(TheWorld()).(tasks := SetState(old(Views()), cur, Interruptable))
    {
      ghost var w := TheWorld();
      InvSane(w);
      SleepKeeps(w, w.tasks[w.cur].(state := Interruptable));
      hide Inv, Views;
      SetTaskState(currentTask, Interruptable, cur);
    }

    /** What follows in sched_interruptable_sleep once the task is in the queue. */
    method SleepNow()
      requires Valid()
      modifies this`currentTask, this`cur, Tasks
      ensures Valid() && Tasks == old(Tasks) && TheWorld() == Do(old(TheWorld()), QueueSleep)
    {
      hide Parents, IsListed;
      InvSane(TheWorld());
      DoQueueSleep(TheWorld());
      hide Inv, Do, Enabled, Linked, Reschedule;
      LieDown();
      DoReschedule();
    }

    /** sched_interruptable_sleep; panics when the queue is full. */
    method InterruptableSleep(queue: WaitQueue) returns (panic: bool, ghost slot: nat)
      requires Valid()
      modifies this`currentTask, this`cur, Tasks, queue.task
      ensures Valid() && Tasks == old(Tasks)
      ensures panic <==> null !in old(queue.task[..])
      ensures panic ==> TheWorld() == old(TheWorld()) && queue.task[..] == old(queue.task[..])
      ensures !panic ==> TheWorld() == Do(old(TheWorld()), QueueSleep) && FirstSlot(old(queue.task[..]), slot)
      ensures !panic ==> queue.task[..] == old(queue.task[..])[slot := old(currentTask)]
    {
      hide Inv, Do, Enabled, Linked;
      InvSane(TheWorld());
      ghost var slots := queue.task[..];
      slot, panic := 0, true;
      var i := queue.FindFree();
      if i != queue.task.Length {
        slot, panic := i, false;
        queue.task[i] := currentTask;
        assert queue.task[..] == slots[i := currentTask];
        SleepNow();
      }
    }

    /** The places of the tasks in a wait queue. */
    ghost function Places(slots: seq<Task?>): set<nat>
      reads `Tasks
    {
      set i: nat | i < |Tasks| && Tasks[i] in slots
    }

    lemma PlacesNone()
      ensures Places([]) == {}
    {
    }

    lemma PlacesStep(slots: seq<Task?>, i: nat)
      requires i < |slots|
      ensures Places(slots[..i + 1]) == Places(slots[..i]) + Places([slots[i]])
    {
      assert slots[..i + 1] == slots[..i] + [slots[i]];
    }

    lemma WakeStep(views: seq<TaskView>, slots: seq<Task?>, i: nat)
      requires i < |slots|
      ensures WakeAll(WakeAll(views, Places(slots[..i])), Places([slots[i]])) == WakeAll(views, Places(slots[..i + 1]))
    {
      hide Places, WakeAll;
      PlacesStep(slots, i);
      WakeMore(views, Places(slots[..i]), Places([slots[i]]));
    }

    lemma PlacesOne(t: Task, k: nat)
      requires Linked() && k < |Tasks| && Tasks[k] == t
      ensures Places([t]) == {k}
    {
    }

    lemma PlacesNull()
      ensures Places([null]) == {}
    {
    }

    lemma PlacesUnlisted(t: Task)
      requires t !in Tasks
      ensures Places([t]) == {}
    {
    }

    /** sched_wakeup; a queue may also hold tasks that are no longer listed. */
    method Wakeup(queue: WaitQueue)
      requires Valid()
      modifies queue.task, queue.Queued()`state
      ensures Valid() && Tasks == old(Tasks)
      ensures TheWorld() == Do(old(TheWorld()), Step.Wakeup(Places(old(queue.task[..]))))
      ensures forall i :: 0 <= i < queue.task.Length && old(queue.task[i]) != null ==>
                old(queue.task[i]).state.Runnable?
      ensures forall i :: 0 <= i < queue.task.Length ==> queue.task[i] == null
    {
      ghost var w, slots := TheWorld(), queue.task[..];
      WakeKeeps(w, Places(slots));
      DoWakeup(w, Places(slots));
      InvSane(w);
      hide Inv, Do, Enabled, Linked, WakeAll, Places, Views;
      WakeQueue(queue);
      assert TheWorld() == w.(tasks := WakeAll(w.tasks, Places(slots)));
    }

    /** A queued task becomes runnable, whether it is listed or not. */
    method MakeRunnable(t: Task)
      requires Linked()
      modifies t`state
      ensures Linked() && Views() == WakeAll(old(Views()), Places([t])) && t.state.Runnable?
    {
      ghost var views := Views();
      t.state := Runnable;
      if k :| 0 <= k < |Tasks| && Tasks[k] == t {
        PlacesOne(t, k);
        WakeOne(views, k);
        assert Views() == SetState(views, k, Runnable);
      } else {
        PlacesUnlisted(t);
        WakeNone(views);
        assert Views() == views;
      }
    }

    /** The list views as it was, with the tasks in the first n slots made runnable. */
    ghost predicate WokenUpTo(views: seq<TaskView>, slots: seq<Task?>, n: nat)
      requires n <= |slots|
      reads `Tasks, Tasks
    {
      Views() == WakeAll(views, Places(slots[..n]))
    }

    /** The body of the loop of sched_wakeup. */
    method WakeSlot(queue: WaitQueue, i: nat, ghost views: seq<TaskView>, ghost slots: seq<Task?>)
      requires Linked() && i < queue.task.Length == |slots| && queue.task[i] == slots[i] && WokenUpTo(views, slots, i)
      modifies queue.task, queue.Slot(i)`state
      ensures Linked() && WokenUpTo(views, slots, i + 1) && queue.task[i] == null
      ensures forall j :: 0 <= j < queue.task.Length && j != i ==> queue.task[j] == old(queue.task[j])
      ensures slots[i] != null ==> slots[i].state.Runnable?
    {
      hide Linked, WakeAll, Places;
      PlacesNull();
      WakeNone(Views());
      WakeStep(views, slots, i);
      if queue.task[i] != null {
        MakeRunnable(queue.task[i]);
        queue.task[i] := null;
      }
    }

    /** The loop of sched_wakeup. */
    method WakeQueue(queue: WaitQueue)
      requires Linked()
      modifies queue.task, queue.Queued()`state
      ensures Linked() && Views() == WakeAll(old(Views()), Places(old(queue.task[..])))
      ensures forall i :: 0 <= i < queue.task.Length && old(queue.task[i]) != null ==>
                old(queue.task[i]).state.Runnable?
      ensures forall i :: 0 <= i < queue.task.Length ==> queue.task[i] == null
    {
      hide Linked, WokenUpTo, WaitQueue.Queued;
      ghost var views, slots := Views(), queue.task[..];
      WokenNone(slots);
      var i := 0;
      while i != queue.task.Length
        invariant 0 <= i <= queue.task.Length && Linked() && WokenUpTo(views, slots, i)
        invariant forall j :: 0 <= j < i ==> queue.task[j] == null
        invariant forall j :: 0 <= j < i && slots[j] != null ==> slots[j].state.Runnable?
        invariant forall j :: i <= j < queue.task.Length ==> queue.task[j] == slots[j]
        decreases queue.task.Length - i
      {
        WakeSlot(queue, i, views, slots);
        i := i + 1;
      }
      WokenAll(views, slots);
    }

    lemma WokenNone(slots: seq<Task?>)
      ensures WokenUpTo(Views(), slots, 0)
    {
      PlacesNone();
      WakeNone(Views());
    }

    lemma WokenAll(views: seq<TaskView>, slots: seq<Task?>)
      requires WokenUpTo(views, slots, |slots|)
      ensures Views() == WakeAll(views, Places(slots))
    {
      assert slots[..|slots|] == slots;
    }

    // -------------------------------------------------------------------------
    // Creating and ending tasks

    /** sched_get_task */
    method GetTask(pid: nat) returns (r: Task?)
      requires Linked()
      ensures r == if FindTask(Views(), pid) < |Tasks| then Tasks[FindTask(Views(), pid)] else null
    {
      ghost var views := Views();
      var task := taskList;
      ghost var k := 0;
      while task != null
        invariant 0 <= k <= |Tasks| && task == (if k < |Tasks| then Tasks[k] else null)
        invariant forall j :: 0 <= j < k ==> views[j].pid != pid
        decreases |Tasks| - k
      {
        assert task.pid == views[k].pid;
        if task.pid == pid {
          FindTaskHere(views, pid, k);
          return task;
        }
        task := task.next;
        k := k + 1;
      }
      FindTaskHere(views, pid, k);
      return null;
    }

    /** allocate_new_pid: the search ends if some PID is free; otherwise no round ends it (PidFound). */
    method AllocateNewPid() returns (pid: int)
      requires Linked() && -1 <= currentPid <= MAX_PID && HasFreePid(Views())
      modifies this`currentPid
      ensures pid == currentPid == AllocatePid(Views(), old(currentPid))
    {
      hide Nth, Linked, AllocatePid, Compared, Tried;
      ghost var views, c, n := Views(), currentPid, 0;
      TriedNone(Compared(views), c);
      var b := true;
      while b
        invariant 0 <= n <= MAX_PID + 1 && currentPid == (if n == 0 then c else Nth(c, n))
        invariant b ==> Tried(Compared(views), c, n)
        invariant !b ==> currentPid == AllocatePid(views, c)
        decreases if b then 1 else 0, MAX_PID + 1 - n
      {
        NotAllUsed(views, c, n);
        NthNext(c, n);
        currentPid := if currentPid < MAX_PID then currentPid + 1 else PID_IDLE;
        b := InUse(currentPid);
        PidStep(views, c, n, b);
        n := n + 1;
      }
      return currentPid;
    }

    /** The inner loop of allocate_new_pid, and the test before it: is there another task than the
        last one with this PID? */
    method InUse(pid: nat) returns (b: bool)
      requires Linked()
      ensures b <==> pid in Compared(Views())
    {
      ghost var used := Compared(Views());
      b := false;
      if taskList == null {
        return;
      }
      var tmp := taskList;
      ghost var k := 0;
      while tmp.next != null && !b
        invariant 0 <= k < |Tasks| && tmp == Tasks[k]
        invariant b <==> pid in used[..k]
        decreases if b then 0 else 1, |Tasks| - k
      {
        assert used[k] == tmp.pid && used[..k + 1] == used[..k] + [used[k]];
        if tmp.pid == pid {
          b := true;
        }
        tmp := tmp.next;
        k := k + 1;
      }
      if !b {
        assert used[..k] == used;
      }
    }

    /** How sched_init_pid_0 and sys_fork end: the new task is listed and then made available. */
    method Publish(t: Task)
      requires Linked() && t !in Tasks
      modifies `taskList, `idleTask, `Tasks, Tasks, t`prev, t`next, t`state
      ensures Linked() && Tasks == old(Tasks) + [t]
      ensures idleTask == if |old(Tasks)| == 0 then t else old(idleTask)
      ensures Views() == old(Views()) + [old(t.View()).(state := Runnable)]
    {
      AddTask(t);
      hide Linked;
      SetTaskState(t, Runnable, |Tasks| - 1);
    }

    /** sched_init_pid_0 and switch_to_usermode: the idle task is listed, and becomes current. */
    method Boot()
      requires Linked() && Tasks == [] && currentPid == PID_IDLE - 1
      modifies this
      ensures Valid() && |Tasks| == 1 && fresh(Tasks[0])
      ensures TheWorld() == World([TaskView(0, 0, Runnable, 0, 0)], 0, 0)
    {
      hide Inv, Nth, FindPid, Linked, Views;
      BootInv();
      PidFree(Views());
      FirstPid(Views());
      var pid := AllocateNewPid();
      var task := new Task(pid, 0, Initialising, 0, 0);
      Publish(task);
      LinkAt(0);
      currentTask := taskList;
      cur := 0;
      assert TheWorld() == World([TaskView(PID_IDLE, 0, Runnable, 0, 0)], 0, PID_IDLE);
    }

    /** The first part of sys_fork: a copy of the current task with a PID of its own. */
    method MakeChild() returns (child: Task)
      requires Valid() && HasFreePid(Views())
      modifies `currentPid
      ensures AllocatePid(old(Views()), old(currentPid)) == currentPid >= 0
      ensures fresh(child) && child.View().(state := Runnable) == ForkChild(old(TheWorld()))
      ensures child.pid == currentPid && child.ktime == child.utime == 0
    {
      hide Parents, IsListed, AllocatePid, Linked, ForkChild, HasFreePid;
      ghost var w := TheWorld();
      PidFound(w.tasks, w.counter);
      ghost var parent := currentTask.View();
      assert parent == w.tasks[w.cur];
      var pid := AllocateNewPid();
      child := currentTask.Copy(pid);
      ChildOf(w, child.View());
    }

    /** sys_fork: the child is a copy of the current task, apart from the changes made here.  It
        breaks the invariant only if the idle task forks alone when the counter has reached the last
        PID: then the child is a second task with the PID of the idle task. */
    method SysFork() returns (pid: int, ghost child: Task)
      requires Valid() && HasFreePid(Views())
      modifies `taskList, `idleTask, `Tasks, `currentPid, Tasks
      ensures AllocatePid(old(Views()), old(currentPid)) >= 0 && TheWorld() == Forked(old(TheWorld()))
      ensures Linked() && Tasks == old(Tasks) + [child] && currentTask == Tasks[cur] && idleTask == Tasks[0]
      ensures if |old(Tasks)| == 1 && old(currentPid) == MAX_PID then pid == PID_IDLE
              else Valid() && Enabled(old(TheWorld()), Fork) && TheWorld() == Do(old(TheWorld()), Fork)
      ensures fresh(child) && pid == child.pid && child.ktime == child.utime == 0
    {
      hide Inv, Do, Enabled, Linked, AllocatePid, ForkChild, HasFreePid, Views;
      ghost var w := TheWorld();
      ForkResult(w);
      var task := MakeChild();
      child := task;
      Publish(task);
      assert TheWorld() == Forked(w);
      return task.pid, task;
    }

    /** One step of the loop of sys_exit. */
    method OrphanOne(t: Task, pid: nat, ghost i: nat)
      requires Linked() && i < |Tasks| && t == Tasks[i]
      modifies t`ppid
      ensures Linked() &&
              Views() == old(Views())[i := if old(t.ppid) == pid then old(t.View()).(ppid := 0) else old(t.View())]
    {
      if t.ppid == pid {
        t.ppid := 0;
      }
    }

    /** The loop of sys_exit that takes the parent away from the children of the current task. */
    method OrphanChildren(pid: nat)
      requires Linked() && |Tasks| > 0
      modifies Tasks
      ensures Linked() && Views() == Orphan(old(Views()), pid)
    {
      hide Linked, Partly, Orphan, Views;
      ghost var views := Views();
      LinkAt(0);
      PartlyEnds(Orphan(views, pid), views);
      var task := taskList;
      ghost var k := 0;
      while task != null
        invariant Linked() && 0 <= k <= |Tasks| && task == (if k < |Tasks| then Tasks[k] else null)
        invariant Views() == Partly(Orphan(views, pid), views, k)
        decreases |Tasks| - k
      {
        PartlyStep(Orphan(views, pid), views, k);
        OrphanAt(views, pid, k);
        OrphanOne(task, pid, k);
        LinkAt(k);
        task := task.next;
        k := k + 1;
      }
    }

    /** The branch of sys_exit for a task whose parent is still there. */
    method TurnZombie(exitcode: int)
      requires Linked() && cur < |Tasks| && currentTask == Tasks[cur] && currentTask.ppid > 0
      requires FindTask(Views(), currentTask.ppid) < |Tasks|
      modifies Tasks
      ensures Linked() && Views() == BecomeZombie(old(Views()), cur) && currentTask.exitcode == exitcode
    {
      hide FindTask, SetBit, Linked;
      ghost var views := Views();
      ZombieParent(views, cur);
      SetTaskState(currentTask, Zombie, cur);
      var parent := GetTask(currentTask.ppid);
      SysSignal(parent, SIGCHLD, FindTask(Views(), currentTask.ppid));
      SetExitCode(exitcode);
    }

    method SetExitCode(exitcode: int)
      requires Linked() && currentTask in Tasks
      modifies currentTask`exitcode
      ensures Linked() && Views() == old(Views()) && currentTask.exitcode == exitcode
    {
      ghost var views := Views();
      currentTask.exitcode := exitcode;
      assert Views() == views;
    }

    /** The first part of switch_task, for a task that is no longer listed. */
    method YieldUnlinked(t: Task)
      requires Linked() && t !in Tasks
      modifies t`state
      ensures Linked() && Views() == old(Views())
    {
      ghost var views := Views();
      if t.state.Running? {
        t.state := Runnable;
      }
      assert Views() == views;
    }

    /** switch_task for a current task that sys_exit has unlinked from place i. */
    method LeaveUnlinked(ghost i: nat)
      requires Linked() && |Tasks| > 0 && currentTask != null && currentTask !in Tasks
      requires 0 < i <= |Tasks| && currentTask.prev == Tasks[i - 1]
      requires currentTask.next == if i < |Tasks| then Tasks[i] else null
      requires currentTask.signal == 0 ==> exists j :: 0 <= j < |Tasks| && Eligible(Views()[j])
      modifies `currentTask, `cur, Tasks, currentTask`state
      ensures Linked()
      ensures if old(currentTask.signal) == 0
              then cur == Search(old(Views()), i - 1, 1) && 0 <= cur < |Tasks| && currentTask == Tasks[cur] &&
                   Views() == SetState(old(Views()), cur, Running)
              else currentTask == old(currentTask) && currentTask.View() == old(currentTask.View()) &&
                   Views() == old(Views())
    {
      hide Linked, Search, Eligible;
      if currentTask.signal != 0 {
        return;
      }
      ghost var views := Views();
      var previous := currentTask;
      YieldUnlinked(previous);
      var next, found := GetNextRunnable(previous, i, false);
      SearchEligible(views, i - 1);
      EnterTask(next, found);
    }

    /** The branch of sys_exit for a task without parent: it is unlinked, and left for good unless a
        signal is pending for it. */
    method LeaveList()
      requires Linked() && 0 < cur < |Tasks| && currentTask == Tasks[cur]
      requires currentTask.signal == 0 ==> exists i :: 0 <= i < |Tasks| && i != cur && Eligible(Views()[i])
      modifies `currentTask, `cur, `Tasks, Tasks
      ensures Linked() && Tasks == old(Tasks)[..old(cur)] + old(Tasks)[old(cur) + 1..]
      ensures if old(currentTask.signal) == 0
              then cur < |Tasks| && currentTask == Tasks[cur] &&
                   TheWorld() == Unlink(old(Views()), old(cur), currentPid)
              else currentTask == old(currentTask) && currentTask.View() == old(currentTask.View()) &&
                   currentTask !in Tasks && Views() == Without(old(Views()), old(cur))
    {
      ghost var views, place := Views(), cur;
      RemoveTask(currentTask, cur);
      if currentTask.signal == 0 {
        EligibleRest(views, place);
      }
      hide Search, Eligible, Linked, Views;
      LeaveUnlinked(place);
    }

    method ExitZombie(exitcode: int, ghost w: World)
      requires Linked() && Inv(w) && TheWorld() == w && currentTask == Tasks[cur] && idleTask == Tasks[0]
      requires Inv(w.(tasks := BecomeZombie(w.tasks, w.cur))) && currentTask.ppid > 0
      modifies `currentTask, `cur, Tasks
      ensures Valid() && TheWorld() == Reschedule(w.(tasks := BecomeZombie(w.tasks, w.cur)))
    {
      hide Inv, BecomeZombie, Linked, FindTask, Reschedule, Views;
      ListedParent(w);
      assert w.tasks[w.cur] == currentTask.View();
      TurnZombie(exitcode);
      DoReschedule();
    }

    method ExitUnlinked(ghost w: World)
      requires Linked() && Inv(w) && TheWorld() == w && currentTask == Tasks[cur] && idleTask == Tasks[0] && w.cur > 0
      requires currentTask.signal == 0 ==>
                 && Inv(Unlink(w.tasks, w.cur, w.counter))
                 && exists i :: 0 <= i < |Tasks| && i != w.cur && Eligible(w.tasks[i])
      modifies `currentTask, `cur, `Tasks, Tasks
      ensures Linked() && Tasks == old(Tasks)[..w.cur] + old(Tasks)[w.cur + 1..]
      ensures if old(currentTask.signal) == 0
              then Valid() && TheWorld() == HandleSignal(Unlink(w.tasks, w.cur, w.counter))
              else currentTask == old(currentTask) && currentTask.View() == TakenSignal(w.tasks[w.cur]) &&
                   Views() == Without(w.tasks, w.cur)
    {
      hide Inv, Unlink, Linked, Eligible, HandleSignal, TakenSignal, Without, Views;
      InvSane(w);
      assert w.tasks[w.cur] == currentTask.View();
      LeaveList();
      if w.tasks[w.cur].signal == 0 {
        HandleIsTaken(Unlink(w.tasks, w.cur, w.counter));
      }
      TakeSignal();
    }

    /** sys_exit; the idle task stops the kernel instead.  A task without parent for which a signal is
        pending is unlinked but stays the current task. */
    method SysExit(exitcode: int) returns (panic: bool)
      requires Valid()
      requires currentTask.pid != PID_IDLE ==> Enabled(TheWorld(), Exit) || ExitsPending(TheWorld())
      modifies `currentTask, `cur, `Tasks, Tasks
      ensures panic == old(currentTask.pid == PID_IDLE)
      ensures panic || !ExitsPending(old(TheWorld())) ==>
                Valid() && TheWorld() == if panic then old(TheWorld()) else Do(old(TheWorld()), Exit)
      ensures !panic && ExitsPending(old(TheWorld())) ==>
                && var tasks := Orphan(old(Views()), old(currentTask.pid));
                && Linked() && Tasks == old(Tasks)[..old(cur)] + old(Tasks)[old(cur) + 1..]
                && Views() == Without(tasks, old(cur))
                && currentTask == old(currentTask) && currentTask.View() == TakenSignal(tasks[old(cur)])
    {
      hide Inv, Do, Enabled, Linked, Orphan, BecomeZombie, Unlink, HandleSignal, Reschedule, TakenSignal, Without,
           Eligible, Views, ExitsPending;
      ghost var w := TheWorld();
      InvSane(w);
      assert w.tasks[w.cur] == currentTask.View();
      if currentTask.pid == PID_IDLE {
        return true;
      }
      ExitCases(w);
      OrphanChildren(currentTask.pid);
      ghost var w1 := TheWorld();
      assert w1.tasks[w1.cur] == currentTask.View() && w1 == w.(tasks := Orphan(w.tasks, w.tasks[w.cur].pid));
      if currentTask.ppid > 0 {
        ExitZombie(exitcode, w1);
      } else {
        ExitUnlinked(w1);
      }
      return false;
    }
  }
}
