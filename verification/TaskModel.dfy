// The tasks of source/kernel/schedule.c as values: what each scheduler operation does to them,
// and what holds in every run.
module TaskModel {
  import opened Words

  const PID_IDLE: nat := 0
  const MAX_PID: nat := 65535
  const SIGALRM: nat := 14
  const SIGCHLD: nat := 17

  const INT_MIN: int := -0x8000_0000
  const INT_MAX: int := 0x7FFF_FFFF

  /** The int of the source. */
  type Int32 = a: int | INT_MIN <= a <= INT_MAX

  datatype State = Initialising | Runnable | Running | Interruptable | Uninterruptable | Zombie

  /** The fields of a task that the scheduler works with; signal is a set of bits. */
  datatype TaskView = TaskView(pid: nat, ppid: nat, state: State, alarm: Int32, signal: nat)

  /** The task list, the place of the current task in it, and the last PID handed out. */
  datatype World = World(tasks: seq<TaskView>, cur: nat, counter: int)

  // ---------------------------------------------------------------------------
  // Round robin

  /** A task that may be switched to; the idle task never is. */
  predicate Eligible(t: TaskView) {
    t.state.Runnable? && t.pid != PID_IDLE
  }

  /** The place d steps after place i in a circle of n places. */
  function Ahead(i: nat, d: nat, n: nat): (r: nat)
    requires i < n && d <= n
    ensures r < n
  {
    if i + d < n then i + d else i + d - n
  }

  /** How many steps lead from place i forward to place j; a full circle from a place to itself. */
  function Distance(i: nat, j: nat, n: nat): (d: nat)
    requires i < n && j < n
    ensures 1 <= d <= n && Ahead(i, d, n) == j
  {
    if j > i then j - i else j - i + n
  }

  /** The first eligible task d or more steps after place cur. */
  function Search(tasks: seq<TaskView>, cur: nat, d: nat): (r: int)
    requires cur < |tasks| && 1 <= d
    ensures r == -1 || 0 <= r < |tasks|
    decreases |tasks| + 1 - d
  {
    if d > |tasks| then -1
    else if Eligible(tasks[Ahead(cur, d, |tasks|)]) then Ahead(cur, d, |tasks|)
    else Search(tasks, cur, d + 1)
  }

  /** The choice of the scheduler: the nearest eligible task, the current one coming last. */
  predicate IsNearest(tasks: seq<TaskView>, cur: nat, r: int)
    requires cur < |tasks|
  {
    if r == -1 then forall i :: 0 <= i < |tasks| ==> !Eligible(tasks[i])
    else
      && 0 <= r < |tasks| && Eligible(tasks[r])
      && forall i :: 0 <= i < |tasks| && Eligible(tasks[i]) ==> Distance(cur, r, |tasks|) <= Distance(cur, i, |tasks|)
  }

  lemma {:induction false} SearchIsNearest(tasks: seq<TaskView>, cur: nat, d: nat)
    requires cur < |tasks| && 1 <= d <= |tasks| + 1
    requires forall e :: 1 <= e < d ==> !Eligible(tasks[Ahead(cur, e, |tasks|)])
    ensures IsNearest(tasks, cur, Search(tasks, cur, d))
    decreases |tasks| + 1 - d
  {
    if d <= |tasks| && !Eligible(tasks[Ahead(cur, d, |tasks|)]) {
      SearchIsNearest(tasks, cur, d + 1);
    } else {
      forall i | 0 <= i < |tasks| && Eligible(tasks[i]) ensures d <= Distance(cur, i, |tasks|) {
        assert tasks[Ahead(cur, Distance(cur, i, |tasks|), |tasks|)] == tasks[i];
      }
    }
  }

  /** Places that are not eligible do not change the search. */
  lemma {:induction false} SearchSkip(tasks: seq<TaskView>, cur: nat, d: nat, e: nat)
    requires cur < |tasks| && 1 <= d <= e <= |tasks| + 1
    requires forall f :: d <= f < e ==> !Eligible(tasks[Ahead(cur, f, |tasks|)])
    ensures Search(tasks, cur, d) == Search(tasks, cur, e)
    decreases e - d
  {
    if d < e {
      SearchSkip(tasks, cur, d + 1, e);
    }
  }

  lemma SearchHere(tasks: seq<TaskView>, cur: nat, d: nat)
    requires cur < |tasks| && 1 <= d <= |tasks| && Eligible(tasks[Ahead(cur, d, |tasks|)])
    ensures Search(tasks, cur, d) == Ahead(cur, d, |tasks|)
  {
  }

  lemma SearchEligible(tasks: seq<TaskView>, cur: nat)
    requires cur < |tasks|
    ensures var r := Search(tasks, cur, 1); r != -1 ==> tasks[r].state.Runnable? && tasks[r].pid != PID_IDLE
  {
    SearchIsNearest(tasks, cur, 1);
  }

  lemma SearchEnds(tasks: seq<TaskView>, cur: nat)
    requires cur < |tasks|
    ensures Search(tasks, cur, |tasks| + 1) == -1
  {
  }

  /** The places 1 to d after cur hold no eligible task. */
  ghost predicate NoneUpTo(tasks: seq<TaskView>, cur: nat, d: nat)
    requires cur < |tasks| && d <= |tasks|
  {
    forall e :: 1 <= e <= d ==> !Eligible(tasks[Ahead(cur, e, |tasks|)])
  }

  lemma NoneYet(tasks: seq<TaskView>, cur: nat)
    requires cur < |tasks|
    ensures NoneUpTo(tasks, cur, 0)
  {
  }

  /** One round of the search: it is over at an eligible task, or when it has gone full circle. */
  lemma SearchRound(tasks: seq<TaskView>, cur: nat, d: nat)
    requires cur < |tasks| && d < |tasks| && NoneUpTo(tasks, cur, d)
    ensures var t := tasks[Ahead(cur, d + 1, |tasks|)];
            if t.state.Runnable? && t.pid != PID_IDLE then Search(tasks, cur, 1) == Ahead(cur, d + 1, |tasks|)
            else NoneUpTo(tasks, cur, d + 1)
    ensures NoneUpTo(tasks, cur, |tasks|) ==>
              Search(tasks, cur, 1) == -1 && forall i :: 0 <= i < |tasks| ==> !Eligible(tasks[i])
  {
    hide Search;
    SearchSkip(tasks, cur, 1, d + 1);
    if Eligible(tasks[Ahead(cur, d + 1, |tasks|)]) {
      SearchHere(tasks, cur, d + 1);
    }
    if NoneUpTo(tasks, cur, |tasks|) {
      NoneEligible(tasks, cur);
      SearchSkip(tasks, cur, 1, |tasks| + 1);
      SearchEnds(tasks, cur);
    }
  }

  /** A search from a full circle of places that are not eligible misses nothing. */
  lemma NoneEligible(tasks: seq<TaskView>, cur: nat)
    requires cur < |tasks| && forall d :: 1 <= d <= |tasks| ==> !Eligible(tasks[Ahead(cur, d, |tasks|)])
    ensures forall i :: 0 <= i < |tasks| ==> !Eligible(tasks[i])
  {
    forall i | 0 <= i < |tasks| ensures !Eligible(tasks[i]) {
      assert Ahead(cur, Distance(cur, i, |tasks|), |tasks|) == i;
    }
  }

  /** get_next_runnable_task: the only task of a list is chosen whatever its state. */
  function NextTask(tasks: seq<TaskView>, cur: nat): (r: int)
    requires cur < |tasks|
    ensures r == -1 || 0 <= r < |tasks|
  {
    if |tasks| == 1 then cur else Search(tasks, cur, 1)
  }

  // ---------------------------------------------------------------------------
  // The operations

  predicate Sane(w: World) {
    w.cur < |w.tasks|
  }

  function SetState(tasks: seq<TaskView>, i: nat, s: State): seq<TaskView>
    requires i < |tasks|
  {
    tasks[i := tasks[i].(state := s)]
  }

  /** The current task gives up the processor; a sleeping task stays asleep. */
  function Yielded(w: World): (tasks: seq<TaskView>)
    requires Sane(w)
    ensures |tasks| == |w.tasks|
  {
    if w.tasks[w.cur].state.Running? then SetState(w.tasks, w.cur, Runnable) else w.tasks
  }

  /** switch_task */
  function Switch(w: World): (w': World)
    requires Sane(w)
    ensures Sane(w') && |w'.tasks| == |w.tasks|
  {
    if w.tasks[w.cur].signal != 0 then w
    else
      var tasks := Yielded(w);
      var found := NextTask(tasks, w.cur);
      var next := if found == -1 then 0 else found;
      if next == w.cur then w.(tasks := tasks)
      else if tasks[next].pid != PID_IDLE then w.(tasks := SetState(tasks, next, Running), cur := next)
      else w.(tasks := tasks, cur := next)
  }

  /** The choice a switch makes once the current task has yielded. */
  lemma SwitchOutcome(w: World, next: nat)
    requires Sane(w) && w.tasks[w.cur].signal == 0
    requires next == if NextTask(Yielded(w), w.cur) == -1 then 0 else NextTask(Yielded(w), w.cur)
    ensures Switch(w) ==
              if next == w.cur then w.(tasks := Yielded(w))
              else if Yielded(w)[next].pid != PID_IDLE
              then w.(tasks := SetState(Yielded(w), next, Running), cur := next)
              else w.(tasks := Yielded(w), cur := next)
  {
  }

  /** What a switch does to every task: the current one, if it was RUNNING, is RUNNABLE afterwards; another
      one that is chosen is RUNNING, unless it is the idle task; nothing else changes. */
  lemma SwitchStates(w: World, i: nat)
    requires Sane(w) && w.tasks[w.cur].signal == 0 && i < |w.tasks|
    ensures var w' := Switch(w);
            w'.tasks[i] ==
              if i == w.cur && w.tasks[i].state.Running? then w.tasks[i].(state := Runnable)
              else if i != w.cur && i == w'.cur && w.tasks[i].pid != PID_IDLE then w.tasks[i].(state := Running)
              else w.tasks[i]
  {
    hide Search;
  }

  lemma SwitchRefused(w: World)
    requires Sane(w) && w.tasks[w.cur].signal != 0
    ensures Switch(w) == w
  {
  }

  /** bsf: the lowest bit that is set. */
  function LowestBit(w: nat): (j: nat)
    requires w != 0
    ensures Bit(w, j) && forall i: nat :: i < j ==> !Bit(w, i)
  {
    if w % 2 == 1 then 0
    else
      var k := LowestBit(w / 2);
      assert forall i: nat :: i < k + 1 ==> (i == 0 || Bit(w, i) == Bit(w / 2, i - 1));
      k + 1
  }

  /** handle_pending_signals: takes the lowest pending signal of the current task. */
  function HandleSignal(w: World): (w': World)
    requires Sane(w)
    ensures Sane(w') && |w'.tasks| == |w.tasks| && w'.cur == w.cur
  {
    var t := w.tasks[w.cur];
    if t.signal == 0 then w
    else w.(tasks := w.tasks[w.cur := t.(signal := ClearBit(t.signal, LowestBit(t.signal)))])
  }

  /** reschedule */
  function Reschedule(w: World): (w': World)
    requires Sane(w)
    ensures Sane(w') && |w'.tasks| == |w.tasks|
  {
    HandleSignal(Switch(w))
  }

  /** `alarm--`; below the least number it goes on with the greatest one. */
  function Decrement(a: Int32): Int32 {
    if a == INT_MIN then INT_MAX else a - 1
  }

  /** What global_task_administration does to one task at a tick. */
  function Tick(t: TaskView): TaskView {
    if t.state.Initialising? || t.pid == PID_IDLE then t
    else
      var t1 := if t.alarm != 0 then t.(alarm := Decrement(t.alarm)) else t;
      var t2 := if t.alarm != 0 && t1.alarm == 0 then t1.(signal := SetBit(t1.signal, SIGALRM)) else t1;
      if t2.signal != 0 && t2.state.Interruptable? then t2.(state := Runnable) else t2
  }

  /** global_task_administration */
  function TickAll(tasks: seq<TaskView>): (r: seq<TaskView>)
    ensures |r| == |tasks|
  {
    seq(|tasks|, i requires 0 <= i < |tasks| => Tick(tasks[i]))
  }

  /** sys_sleep, without the rescheduling that follows it. */
  function GoToSleep(w: World, ms: Int32): World
    requires Sane(w)
  {
    w.(tasks := w.tasks[w.cur := w.tasks[w.cur].(alarm := ms, state := Interruptable)])
  }
}
