// Signals, alarms and sleep of source/kernel/schedule.c.
module SignalModel {
  import opened Words
  import opened TaskModel

  /** The pending signals in the order in which they are handled. */
  function Drain(w: nat): seq<nat>
    decreases BitCount(w)
  {
    if w == 0 then []
    else
      DrainSmaller(w);
      [LowestBit(w)] + Drain(ClearBit(w, LowestBit(w)))
  }

  function BitCount(w: nat): nat {
    if w == 0 then 0 else w % 2 + BitCount(w / 2)
  }

  lemma {:induction false} BitCountClear(w: nat, j: nat)
    requires Bit(w, j)
    ensures BitCount(ClearBit(w, j)) + 1 == BitCount(w)
  {
    assert ClearBit(w, j) / 2 == if j == 0 then w / 2 else ClearBit(w / 2, j - 1);
    if j > 0 {
      BitCountClear(w / 2, j - 1);
    }
  }

  lemma DrainSmaller(w: nat)
    requires w != 0
    ensures BitCount(ClearBit(w, LowestBit(w))) < BitCount(w)
  {
    BitCountClear(w, LowestBit(w));
  }

  /** Every pending signal is handled exactly once, lowest number first. */
  lemma {:induction false} DrainOrder(w: nat)
    ensures forall i, j :: 0 <= i < j < |Drain(w)| ==> Drain(w)[i] < Drain(w)[j]
    ensures forall b: nat :: b in Drain(w) <==> Bit(w, b)
    ensures |Drain(w)| == BitCount(w)
    decreases BitCount(w)
  {
    if w == 0 {
      forall b: nat ensures !Bit(w, b) {
        ZeroBit(b);
      }
    } else {
      var b0 := LowestBit(w);
      var w' := ClearBit(w, b0);
      DrainSmaller(w);
      BitCountClear(w, b0);
      DrainOrder(w');
      forall b: nat ensures Bit(w', b) == (Bit(w, b) && b != b0) {
        BitClearBit(w, b0, b);
      }
      assert Drain(w) == [b0] + Drain(w');
      forall j | 0 <= j < |Drain(w')| ensures b0 < Drain(w')[j] {
        assert Drain(w')[j] in Drain(w');
      }
    }
  }

  lemma {:induction false} ZeroBit(b: nat)
    ensures !Bit(0, b)
  {
    if b > 0 {
      ZeroBit(b - 1);
    }
  }

  function RescheduleTimes(w: World, k: nat): (w': World)
    requires Sane(w)
    ensures Sane(w')
    decreases k
  {
    if k == 0 then w else RescheduleTimes(Reschedule(w), k - 1)
  }

  function SetSignal(w: World, signal: nat): World
    requires Sane(w)
  {
    w.(tasks := w.tasks[w.cur := w.tasks[w.cur].(signal := signal)])
  }

  /** The signals that are left when the first k pending signals have been handled. */
  function Left(signal: nat, k: nat): nat
    decreases k
  {
    if k == 0 || signal == 0 then signal else Left(ClearBit(signal, LowestBit(signal)), k - 1)
  }

  lemma {:induction false} LeftDrain(signal: nat, k: nat)
    requires k <= |Drain(signal)|
    ensures Drain(Left(signal, k)) == Drain(signal)[k..]
    decreases k
  {
    if k > 0 {
      LeftDrain(ClearBit(signal, LowestBit(signal)), k - 1);
    }
  }

  /** While signals are pending, each rescheduling takes the lowest one and does nothing else; the
      task is not switched away from before it has handled them all. */
  lemma {:induction false} DrainBeforeSwitch(w: World, k: nat)
    requires Sane(w) && k <= |Drain(w.tasks[w.cur].signal)|
    ensures RescheduleTimes(w, k) == SetSignal(w, Left(w.tasks[w.cur].signal, k))
    decreases k
  {
    hide ClearBit, LowestBit;
    var signal := w.tasks[w.cur].signal;
    if k > 0 {
      var signal' := ClearBit(signal, LowestBit(signal));
      assert Reschedule(w) == SetSignal(w, signal');
      DrainBeforeSwitch(Reschedule(w), k - 1);
      SetTwice(w, signal', Left(signal', k - 1));
    } else {
      SetSame(w);
    }
  }

  lemma SetTwice(w: World, a: nat, b: nat)
    requires Sane(w)
    ensures Sane(SetSignal(w, a)) && SetSignal(SetSignal(w, a), b) == SetSignal(w, b)
  {
  }

  lemma SetSame(w: World)
    requires Sane(w)
    ensures SetSignal(w, w.tasks[w.cur].signal) == w
  {
  }

  // ---------------------------------------------------------------------------
  // Sleeping

  /** A task that goes to sleep without pending signal is no longer current. */
  lemma SleepLeaves(w: World, ms: Int32)
    requires Sane(w) && w.tasks[w.cur].pid != PID_IDLE && w.tasks[0].pid == PID_IDLE
    requires w.tasks[w.cur].signal == 0
    ensures var w' := Reschedule(GoToSleep(w, ms));
            w'.cur != w.cur && w'.tasks[w.cur] == GoToSleep(w, ms).tasks[w.cur]
  {
    var w1 := GoToSleep(w, ms);
    SearchIsNearest(w1.tasks, w1.cur, 1);
    assert !Eligible(w1.tasks[w1.cur]);
  }

  const INTS: int := 0x1_0000_0000

  /** How many decrements lead from an alarm time to 0. */
  function TimeLeft(alarm: Int32): (n: nat)
    ensures n < INTS && (n == 0 <==> alarm == 0)
  {
    if alarm >= 0 then alarm else alarm + INTS
  }

  lemma TimePasses(alarm: Int32)
    requires alarm != 0
    ensures TimeLeft(Decrement(alarm)) == TimeLeft(alarm) - 1
  {
  }

  function Ticks(t: TaskView, k: nat): TaskView {
    if k == 0 then t else Tick(Ticks(t, k - 1))
  }

  predicate Asleep(t: TaskView) {
    t.state.Interruptable? && t.pid != PID_IDLE && t.signal == 0
  }

  /** What a task becomes when its alarm goes off while it sleeps. */
  function Woken(t: TaskView): TaskView {
    t.(alarm := 0, signal := SetBit(0, SIGALRM), state := Runnable)
  }

  /** One tick of a sleep. */
  lemma SleepTick(t: TaskView)
    requires Asleep(t) && t.alarm != 0
    ensures Tick(t) == if TimeLeft(t.alarm) == 1 then Woken(t) else t.(alarm := Decrement(t.alarm))
  {
    hide SetBit, TimeLeft, Decrement;
    AlarmSignal();
    TimePasses(t.alarm);
  }

  /** A sleeping task becomes runnable at exactly the tick at which its time is up. */
  lemma {:induction false} SleepExact(t: TaskView, k: nat)
    requires Asleep(t) && t.alarm != 0 && k <= TimeLeft(t.alarm)
    ensures if k < TimeLeft(t.alarm)
            then Ticks(t, k) == t.(alarm := Ticks(t, k).alarm) && TimeLeft(Ticks(t, k).alarm) == TimeLeft(t.alarm) - k
            else Ticks(t, k) == Woken(t)
  {
    hide SetBit, Tick, Decrement, TimeLeft;
    if k > 0 {
      SleepExact(t, k - 1);
      var t' := Ticks(t, k - 1);
      SleepTick(t');
      TimePasses(t'.alarm);
    }
  }

  lemma AlarmSignal()
    ensures SetBit(0, SIGALRM) != 0
  {
    BitSetBit(0, SIGALRM, SIGALRM);
    ZeroBit(SIGALRM);
  }

  /** Without alarm no number of ticks ends a sleep. */
  lemma {:induction false} SleepForever(t: TaskView, k: nat)
    requires Asleep(t) && t.alarm == 0
    ensures Ticks(t, k) == t
  {
    hide SetBit;
    if k > 0 {
      SleepForever(t, k - 1);
    }
  }

  /** Ticks alone end every sleep but one of time 0. */
  lemma SleepEnds(t: TaskView)
    requires Asleep(t)
    ensures (exists k: nat :: Ticks(t, k).state.Runnable?) <==> t.alarm != 0
  {
    hide Tick;
    if t.alarm != 0 {
      SleepExact(t, TimeLeft(t.alarm));
      assert Ticks(t, TimeLeft(t.alarm)).state.Runnable?;
    } else {
      forall k: nat ensures !Ticks(t, k).state.Runnable? {
        SleepForever(t, k);
      }
    }
  }

  /** What a tick does to any task: an alarm time other than 0 comes one nearer; when it reaches 0, signal 14
      is pending as well; and a sleeping task with a signal pending, whichever it is, becomes RUNNABLE.
      The idle task and one that is not ready yet are left alone. */
  lemma TickLaw(t: TaskView, b: nat)
    ensures t.pid == 0 || t.state.Initialising? ==> Tick(t) == t
    ensures t.pid != 0 && !t.state.Initialising? ==>
              && Tick(t) == t.(alarm := Tick(t).alarm, signal := Tick(t).signal, state := Tick(t).state)
              && (if t.alarm == 0 then Tick(t).alarm == 0 else TimeLeft(Tick(t).alarm) == TimeLeft(t.alarm) - 1)
              && (Bit(Tick(t).signal, b) <==> Bit(t.signal, b) || (t.alarm == 1 && b == 14))
              && Tick(t).state ==
                 if t.state.Interruptable? && (t.signal != 0 || t.alarm == 1) then Runnable else t.state
  {
    hide SetBit, Bit;
    if t.alarm != 0 {
      TimePasses(t.alarm);
    }
    BitSetBit(t.signal, SIGALRM, b);
    BitSetBit(t.signal, SIGALRM, SIGALRM);
    ZeroBit(SIGALRM);
  }

  // ---------------------------------------------------------------------------
  // Time slices

  const SCHEDULE_TICKS: int := 50

  /** _schedule_ticks after one more tick. */
  function NextSlice(ticks: int): int {
    if ticks <= 1 then SCHEDULE_TICKS else ticks - 1
  }

  function SliceAfter(ticks: int, n: nat): int {
    if n == 0 then ticks else NextSlice(SliceAfter(ticks, n - 1))
  }

  /** A rescheduling is due at the tick at which the slice ends, and from then on at every 50th. */
  lemma {:induction false} SliceEnds(ticks: int, n: nat)
    requires 1 <= ticks <= 50
    ensures 1 <= SliceAfter(ticks, n) <= 50
    ensures SliceAfter(ticks, n) == 1 <==> (n - (ticks - 1)) % 50 == 0
    ensures (SliceAfter(ticks, n) - (ticks - n)) % 50 == 0
  {
    if n > 0 {
      SliceEnds(ticks, n - 1);
    }
  }
}
