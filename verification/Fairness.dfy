// Round robin without starvation: switch_task of source/kernel/schedule.c over whole runs.
module Fairness {
  import opened TaskModel

  /** A switch without pending signal brings a waiting task nearer, or chooses it. */
  lemma SwitchCloser(w: World, t: nat)
    requires Sane(w) && t < |w.tasks| && t != w.cur
    requires Eligible(w.tasks[t]) && w.tasks[w.cur].signal == 0
    ensures Switch(w).cur == t || Distance(Switch(w).cur, t, |w.tasks|) < Distance(w.cur, t, |w.tasks|)
  {
    var tasks := Yielded(w);
    SearchIsNearest(tasks, w.cur, 1);
    assert Eligible(tasks[t]);
  }

  /** Another task gives way to the idle task exactly when no task is eligible. */
  lemma IdleOnlyWhenNeeded(w: World)
    requires Sane(w) && w.tasks[w.cur].signal == 0 && |w.tasks| > 1
    requires w.tasks[0].pid == PID_IDLE && w.cur != 0
    ensures Switch(w).cur == 0 <==> forall i :: 0 <= i < |w.tasks| ==> !Eligible(Yielded(w)[i])
  {
    SearchIsNearest(Yielded(w), w.cur, 1);
  }

  /** A run with a fixed list in which task t waits for its turn.  Each act is a switch, made while
      no signal is pending, or anything else that leaves the current task in its place. */
  ghost predicate Waiting(ws: seq<World>, switches: seq<bool>, t: nat) {
    && |ws| == |switches| + 1
    && (forall k :: 0 <= k < |ws| ==>
          && Sane(ws[k]) && |ws[k].tasks| == |ws[0].tasks| && t < |ws[0].tasks|
          && (ws[k].cur != t ==> Eligible(ws[k].tasks[t])))
    && forall k :: 0 <= k < |switches| ==> Act(ws[k], ws[k + 1], switches[k])
  }

  ghost predicate Act(w: World, w': World, isSwitch: bool)
    requires Sane(w)
  {
    if isSwitch then w.tasks[w.cur].signal == 0 && w' == Switch(w) else w'.cur == w.cur
  }

  function CountTrue(s: seq<bool>): nat {
    if |s| == 0 then 0 else (if s[0] then 1 else 0) + CountTrue(s[1..])
  }

  /** No starvation: a waiting task becomes current within as many switches as its distance,
      so within as many as there are tasks. */
  lemma {:induction false} NoStarvation(ws: seq<World>, switches: seq<bool>, t: nat)
    requires Waiting(ws, switches, t)
    requires ws[0].cur == t || CountTrue(switches) >= Distance(ws[0].cur, t, |ws[0].tasks|)
    ensures exists k :: 0 <= k < |ws| && ws[k].cur == t
    decreases |ws|
  {
    if ws[0].cur != t {
      assert |switches| > 0;
      var rest := ws[1..];
      assert Act(ws[0], ws[1], switches[0]);
      if switches[0] {
        SwitchCloser(ws[0], t);
      }
      forall k | 0 <= k < |switches| - 1 ensures Act(rest[k], rest[k + 1], switches[1..][k]) {
        assert Act(ws[k + 1], ws[k + 2], switches[k + 1]);
      }
      NoStarvation(rest, switches[1..], t);
      var k :| 0 <= k < |rest| && rest[k].cur == t;
      assert ws[k + 1].cur == t;
    }
  }
}
