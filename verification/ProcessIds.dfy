// The process identifiers that allocate_new_pid of source/kernel/schedule.c hands out.
module ProcessIds {
  import opened TaskModel

  /** The k-th PID after counter; after MAX_PID the counter starts again at PID_IDLE. */
  function Nth(counter: int, k: nat): (p: nat)
    requires -1 <= counter && 1 <= k
    ensures p <= MAX_PID
  {
    (counter + k) % (MAX_PID + 1)
  }

  /** The first PID at or after the k-th that is not in use, or -1 if every PID is. */
  function FindPid(used: seq<nat>, counter: int, k: nat): (r: int)
    requires -1 <= counter && 1 <= k
    ensures r == -1 || (0 <= r <= MAX_PID && r !in used)
    decreases MAX_PID + 2 - k
  {
    if k > MAX_PID + 1 then -1
    else if Nth(counter, k) !in used then Nth(counter, k)
    else FindPid(used, counter, k + 1)
  }

  function Pids(tasks: seq<TaskView>): (pids: seq<nat>)
    ensures |pids| == |tasks| && forall i :: 0 <= i < |tasks| ==> pids[i] == tasks[i].pid
  {
    seq(|tasks|, i requires 0 <= i < |tasks| => tasks[i].pid)
  }

  /** The PIDs that allocate_new_pid compares with: those of every task but the last one. */
  function Compared(tasks: seq<TaskView>): (used: seq<nat>)
    ensures |used| <= |tasks| && (|tasks| > 0 ==> |used| < |tasks|)
    ensures forall i :: 0 <= i < |used| ==> used[i] == tasks[i].pid
  {
    if |tasks| == 0 then [] else Pids(tasks)[..|tasks| - 1]
  }

  /** allocate_new_pid */
  function AllocatePid(tasks: seq<TaskView>, counter: int): int
    requires -1 <= counter
  {
    FindPid(Compared(tasks), counter, 1)
  }

  /** There is a PID for allocate_new_pid to find. */
  ghost predicate HasFreePid(tasks: seq<TaskView>) {
    exists p: nat :: p <= MAX_PID && p !in Compared(tasks)
  }

  /** The PIDs tried before the k-th are all in use if the search gets that far. */
  lemma {:induction false} FindPidFirst(used: seq<nat>, counter: int, k: nat, m: nat)
    requires -1 <= counter && 1 <= k <= m <= MAX_PID + 1
    requires forall l :: k <= l < m ==> Nth(counter, l) in used
    ensures FindPid(used, counter, k) == FindPid(used, counter, m)
    decreases m - k
  {
    if k < m {
      FindPidFirst(used, counter, k + 1, m);
    }
  }

  function Range(n: nat): (s: set<nat>)
    ensures |s| == n && forall i: nat :: i in s <==> i < n
  {
    if n == 0 then {} else Range(n - 1) + {n - 1}
  }

  function Elements(s: seq<nat>): (e: set<nat>)
    ensures |e| <= |s| && forall x :: x in e <==> x in s
  {
    if |s| == 0 then {} else {s[0]} + Elements(s[1..])
  }

  /** Pigeonhole: fewer than n numbers leave one of the first n numbers out. */
  lemma Pigeonhole(s: seq<nat>, n: nat)
    requires |s| < n
    ensures exists p: nat :: p < n && p !in s
  {
    hide Range, Elements;
    if forall p: nat :: p < n ==> p in s {
      SubsetSize(Range(n), Elements(s));
    }
  }

  lemma SubsetSize(a: set<nat>, b: set<nat>)
    requires a <= b
    ensures |a| <= |b|
  {
    assert b == a + (b - a);
  }

  lemma NthReaches(counter: int, p: nat) returns (k: nat)
    requires -1 <= counter <= MAX_PID && p <= MAX_PID
    ensures 1 <= k <= MAX_PID + 1 && Nth(counter, k) == p
  {
    k := if p > counter then p - counter else p - counter + MAX_PID + 1;
  }

  lemma {:induction false} NotFound(used: seq<nat>, counter: int, k: nat, l: nat)
    requires -1 <= counter && 1 <= k <= l <= MAX_PID + 1 && FindPid(used, counter, k) == -1
    ensures Nth(counter, l) in used
    decreases l - k
  {
    if k < l {
      NotFound(used, counter, k + 1, l);
    }
  }

  /** The search finds a PID if and only if one is free. */
  lemma PidFound(tasks: seq<TaskView>, counter: int)
    requires -1 <= counter <= MAX_PID
    ensures AllocatePid(tasks, counter) >= 0 <==> HasFreePid(tasks)
    ensures AllocatePid(tasks, counter) <= 65535
    ensures forall i :: 0 <= i < |tasks| - 1 ==> AllocatePid(tasks, counter) != tasks[i].pid
  {
    hide FindPid, Nth;
    var used := Compared(tasks);
    if p: nat :| p <= MAX_PID && p !in used && FindPid(used, counter, 1) == -1 {
      var k := NthReaches(counter, p);
      NotFound(used, counter, 1, k);
    }
    forall i | 0 <= i < |tasks| - 1 ensures AllocatePid(tasks, counter) != tasks[i].pid {
      assert used[i] == tasks[i].pid;
    }
  }

  /** One is free whenever at most 65536 tasks are listed. */
  lemma PidFree(tasks: seq<TaskView>)
    requires |tasks| <= 65536
    ensures HasFreePid(tasks)
  {
    Pigeonhole(Compared(tasks), MAX_PID + 1);
  }

  /** The PID found is that of the idle task if and only if that task is alone and the counter has
      reached the last PID. */
  lemma IdlePidAgain(tasks: seq<TaskView>, counter: int)
    requires 0 <= counter <= 65535 && |tasks| > 0 && tasks[0].pid == 0
    ensures AllocatePid(tasks, counter) == 0 <==> |tasks| == 1 && counter == 65535
  {
    hide FindPid;
    PidFound(tasks, counter);
    if |tasks| == 1 {
      assert Compared(tasks) == [];
      FindPidHere([], counter, 1);
    }
  }

  /** PIDs ascend along the list, and none is above the counter. */
  predicate Ascending(tasks: seq<TaskView>, counter: int) {
    && (forall i, j :: 0 <= i < j < |tasks| ==> tasks[i].pid < tasks[j].pid)
    && forall i :: 0 <= i < |tasks| ==> tasks[i].pid <= counter
  }

  /** Before the counter wraps around, the next PID is new. */
  lemma PidBeforeWrap(tasks: seq<TaskView>, counter: int)
    requires -1 <= counter < 65535 && Ascending(tasks, counter)
    ensures AllocatePid(tasks, counter) == counter + 1
  {
    hide FindPid;
    assert Nth(counter, 1) == counter + 1;
    FindPidHere(Compared(tasks), counter, 1);
  }

  lemma FindPidHere(used: seq<nat>, counter: int, k: nat)
    requires -1 <= counter && 1 <= k <= MAX_PID + 1 && Nth(counter, k) !in used
    ensures FindPid(used, counter, k) == Nth(counter, k)
  {
    hide Nth;
  }

  /** The new PID is that of the last task exactly when the last task has the first PID after the
      counter that no other task has. */
  lemma PidOfLastTask(tasks: seq<TaskView>, counter: int, k: nat)
    requires -1 <= counter <= MAX_PID && 0 < |tasks| <= MAX_PID + 1
    requires 1 <= k <= MAX_PID + 1 && Nth(counter, k) == tasks[|tasks| - 1].pid
    ensures AllocatePid(tasks, counter) == tasks[|tasks| - 1].pid <==>
              && tasks[|tasks| - 1].pid !in Pids(tasks)[..|tasks| - 1]
              && forall l :: 1 <= l < k ==> Nth(counter, l) in Pids(tasks)[..|tasks| - 1]
  {
    hide FindPid, Nth;
    var used, last := Pids(tasks)[..|tasks| - 1], tasks[|tasks| - 1].pid;
    PidFound(tasks, counter);
    if forall l :: 1 <= l < k ==> Nth(counter, l) in used {
      FindPidFirst(used, counter, 1, k);
      if last !in used {
        FindPidHere(used, counter, k);
      }
    } else {
      var l := FirstUnused(used, counter, k);
      FindPidFirst(used, counter, 1, l);
      FindPidHere(used, counter, l);
      NthDiffer(counter, l, k);
    }
  }

  lemma NthDiffer(counter: int, l: nat, k: nat)
    requires -1 <= counter && 1 <= l < k <= MAX_PID + 1
    ensures Nth(counter, l) != Nth(counter, k)
  {
  }

  lemma {:induction false} FirstUnused(used: seq<nat>, counter: int, k: nat) returns (l: nat)
    requires -1 <= counter && k <= MAX_PID + 1 && exists m :: 1 <= m < k && Nth(counter, m) !in used
    ensures 1 <= l < k && Nth(counter, l) !in used
    ensures forall m :: 1 <= m < l ==> Nth(counter, m) in used
  {
    if exists m :: 1 <= m < k - 1 && Nth(counter, m) !in used {
      l := FirstUnused(used, counter, k - 1);
    } else {
      l := k - 1;
    }
  }

  /** A list on which the new PID is not unique: the last task has PID 5, the counter has wrapped
      around to 4. */
  lemma DuplicatePid(idle: TaskView, last: TaskView)
    requires idle.pid == PID_IDLE && last.pid == 5
    ensures AllocatePid([idle, last], 4) == last.pid
  {
  }
}
