/** A sweep that has begun always finishes. */
module SweepProgress {
  import opened SweepModel
  import opened SweepSafety

  /** Steps a watcher has left before it waits at the gate or stops. */
  function WatcherRank(w: Watcher): nat {
    (match w.pc
     case Check => 1
     case WaitGate => 0
     case TakePermit => 9
     case LeaveGate => 8
     case WaitEvent => 7
     case WaitWriter => 6
     case Decide => 5
     case Writing => 4
     case LeaveWriter => 3
     case ReturnPermit => 2
     case Stopped => 0)
    +
    (match w.shutdown
     case NotAsked => 3
     case FlagSet => 2
     case EventSet => 1
     case Joined => 0)
  }

  function SweeperRank(max: nat, s: Sweeper): nat {
    match s
    case Idle => 1
    case AskGate => 0
    case RaiseEvent => max + 5
    case Collect(taken) => 4 + if taken <= max then max - taken else 0
    case LowerEvent => 3
    case OpenGate => 2
  }

  function WatcherRanks(ws: seq<Watcher>): nat {
    if ws == [] then 0 else WatcherRanks(ws[..|ws| - 1]) + WatcherRank(ws[|ws| - 1])
  }

  function SweeperRanks(max: nat, ss: seq<Sweeper>): nat {
    if ss == [] then 0 else SweeperRanks(max, ss[..|ss| - 1]) + SweeperRank(max, ss[|ss| - 1])
  }

  /** Bounds the number of steps all processes together can take before the gate is released. */
  function Measure(max: nat, s: State): nat {
    WatcherRanks(s.watchers) + SweeperRanks(max, s.sweepers)
  }

  lemma {:induction false} WatcherRanksUpdate(ws: seq<Watcher>, i: nat, w: Watcher)
    requires i < |ws|
    ensures WatcherRanks(ws[i := w]) + WatcherRank(ws[i]) == WatcherRanks(ws) + WatcherRank(w)
  {
    var front := ws[..|ws| - 1];
    if i == |ws| - 1 {
      assert ws[i := w][..i] == front;
    } else {
      WatcherRanksUpdate(front, i, w);
      assert ws[i := w][..|ws| - 1] == front[i := w];
    }
  }

  lemma {:induction false} SweeperRanksUpdate(max: nat, ss: seq<Sweeper>, j: nat, x: Sweeper)
    requires j < |ss|
    ensures SweeperRanks(max, ss[j := x]) + SweeperRank(max, ss[j]) == SweeperRanks(max, ss) + SweeperRank(max, x)
  {
    var front := ss[..|ss| - 1];
    if j == |ss| - 1 {
      assert ss[j := x][..j] == front;
    } else {
      SweeperRanksUpdate(max, front, j, x);
      assert ss[j := x][..|ss| - 1] == front[j := x];
    }
  }

  lemma {:induction false} WatcherRanksSame(v: seq<Watcher>, w: seq<Watcher>)
    requires |v| == |w| && forall i :: 0 <= i < |v| ==> WatcherRank(v[i]) == WatcherRank(w[i])
    ensures WatcherRanks(v) == WatcherRanks(w)
  {
    if v != [] {
      WatcherRanksSame(v[..|v| - 1], w[..|w| - 1]);
    }
  }

  lemma WatcherLowersRank(max: nat, s: State, i: nat)
    requires GateExclusive(s) && s.gate.BySweeper? && Enabled(max, s, WatcherStep(i))
    ensures var t := StepWatcher(max, s, i);
            |t.watchers| == |s.watchers| && t.watchers == s.watchers[i := t.watchers[i]] && t.sweepers == s.sweepers
            && WatcherRank(t.watchers[i]) < WatcherRank(s.watchers[i])
  {
  }

  lemma SweeperLowersRank(max: nat, s: State, j: nat)
    requires GateExclusive(s) && s.gate.BySweeper? && Enabled(max, s, SweeperStep(j))
    ensures var t := StepSweeper(max, s, j);
            |t.sweepers| == |s.sweepers| && t.sweepers == s.sweepers[j := t.sweepers[j]]
            && SweeperRank(max, t.sweepers[j]) < SweeperRank(max, s.sweepers[j])
            && |t.watchers| == |s.watchers|
            && forall i :: 0 <= i < |s.watchers| ==> WatcherRank(t.watchers[i]) == WatcherRank(s.watchers[i])
  {
  }

  lemma ShutdownLowersRank(max: nat, s: State, k: nat)
    requires Enabled(max, s, ShutdownStep(k))
    ensures var t := StepShutdown(s, k);
            |t.watchers| == |s.watchers| && t.watchers == s.watchers[k := t.watchers[k]] && t.sweepers == s.sweepers
            && WatcherRank(t.watchers[k]) < WatcherRank(s.watchers[k])
  {
  }

  /** While a sweeper holds the gate, every step of any process lowers the measure. */
  lemma StepLowersMeasure(max: nat, s: State, a: Action)
    requires Inv(max, s) && s.gate.BySweeper? && Enabled(max, s, a)
    ensures Measure(max, Step(max, s, a)) < Measure(max, s)
  {
    var t := Step(max, s, a);
    match a {
      case WatcherStep(i) =>
        WatcherLowersRank(max, s, i);
        hide StepWatcher, WatcherRank, Enabled, Inv;
        WatcherRanksUpdate(s.watchers, i, t.watchers[i]);
      case SweeperStep(j) =>
        SweeperLowersRank(max, s, j);
        hide StepSweeper, WatcherRank, SweeperRank, Enabled, Inv;
        SweeperRanksUpdate(max, s.sweepers, j, t.sweepers[j]);
        WatcherRanksSame(s.watchers, t.watchers);
      case ShutdownStep(k) =>
        ShutdownLowersRank(max, s, k);
        hide StepShutdown, WatcherRank, Enabled, Inv;
        WatcherRanksUpdate(s.watchers, k, t.watchers[k]);
    }
  }

  /** While a sweeper holds the gate, it or some watcher can take a step. */
  lemma SweepCanMove(max: nat, s: State) returns (a: Action)
    requires Inv(max, s) && s.gate.BySweeper?
    ensures Enabled(max, s, a) && (a == SweeperStep(s.gate.s) || a.WatcherStep?)
  {
    a := SweeperStep(s.gate.s);
    if !Enabled(max, s, a) {
      HoldersBound(s.watchers);
      var i :| 0 <= i < |s.watchers| && s.watchers[i].HoldsPermit();
      a := WatcherStep(i);
      if !Enabled(max, s, a) {
        assert s.watchers[i].pc.WaitWriter?;
        a := WatcherStep(s.writer.w);
      }
    }
  }

  /** A run that goes on long enough reaches the point where the sweeper has released the gate. */
  lemma {:induction false} SweepEnds(max: nat, s: State, actions: seq<Action>) returns (k: nat)
    requires Inv(max, s) && Execute(max, s, actions).Ran? && |actions| >= Measure(max, s)
    ensures k <= |actions| && Execute(max, s, actions[..k]).Ran?
    ensures !Execute(max, s, actions[..k]).state.gate.BySweeper?
    decreases |actions|
  {
    if !s.gate.BySweeper? {
      k := 0;
    } else {
      var first := SweepCanMove(max, s);
      StepLowersMeasure(max, s, first);
      StepLowersMeasure(max, s, actions[0]);
      StepKeepsInv(max, s, actions[0]);
      var rest := SweepEnds(max, Step(max, s, actions[0]), actions[1..]);
      k := rest + 1;
      assert actions[..k][0] == actions[0] && actions[..k][1..] == actions[1..][..rest];
    }
  }
}
