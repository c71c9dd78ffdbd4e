/** Shutting a watcher down: that its thread can end, and what a jam does to it. */
module SweepShutdown {
  import opened SweepModel
  import opened SweepSafety
  import opened SweepProgress
  import opened SweepCapacity

  /** The actions can be taken one after the other and end in `t`. */
  ghost predicate Leads(max: nat, s: State, actions: seq<Action>, t: State) {
    Execute(max, s, actions) == Ran(t)
  }

  lemma LeadsOne(max: nat, s: State, a: Action)
    requires Enabled(max, s, a)
    ensures Leads(max, s, [a], Step(max, s, a))
  {
    assert [a][1..] == [];
  }

  lemma LeadsOn(max: nat, s: State, a: seq<Action>, t: State, b: seq<Action>, u: State)
    requires Leads(max, s, a, t) && Leads(max, t, b, u)
    ensures Leads(max, s, a + b, u)
  {
    ExecuteConcat(max, s, a, b);
  }

  lemma LeadsReachable(max: nat, n: nat, m: nat, s: State, actions: seq<Action>, t: State)
    requires Reachable(max, n, m, s) && Leads(max, s, actions, t)
    ensures Reachable(max, n, m, t)
  {
    var before :| Execute(max, Initial(max, n, m), before) == Ran(s);
    LeadsOn(max, Initial(max, n, m), before, s, actions, t);
  }

  /** Steps a watcher that is shutting down has left in its loop. */
  function StepsLeft(pc: WatcherPc): nat {
    match pc
    case WaitGate => 9
    case TakePermit => 8
    case LeaveGate => 7
    case WaitEvent => 6
    case WaitWriter => 5
    case Decide => 4
    case Writing => 4
    case LeaveWriter => 3
    case ReturnPermit => 2
    case Check => 1
    case Stopped => 0
  }

  /** The watcher is where it was, its shutdown too. */
  ghost predicate SamePlace(s: State, t: State, k: nat) {
    && k < |s.watchers| == |t.watchers|
    && t.watchers[k].pc == s.watchers[k].pc && t.watchers[k].shutdown == s.watchers[k].shutdown
  }

  lemma StepElsewhere(max: nat, s: State, a: Action, k: nat)
    requires Enabled(max, s, a) && k < |s.watchers| && a != WatcherStep(k) && a != ShutdownStep(k)
    ensures SamePlace(s, Step(max, s, a), k)
  {
  }

  lemma OwnStep(max: nat, s: State, k: nat)
    requires Enabled(max, s, WatcherStep(k)) && s.watchers[k].TerminationEvent()
    ensures var t := Step(max, s, WatcherStep(k));
            && k < |t.watchers| && t.watchers[k].TerminationEvent()
            && StepsLeft(t.watchers[k].pc) < StepsLeft(s.watchers[k].pc)
  {
  }

  /** While a sweeper holds the gate a watcher at the gate stays there, and the sweeper gets done. */
  lemma {:induction false} SweeperLeavesGate(max: nat, s: State, k: nat) returns (actions: seq<Action>, t: State)
    requires Inv(max, s) && s.gate.BySweeper? && k < |s.watchers| && s.watchers[k].pc.WaitGate?
    ensures Leads(max, s, actions, t) && SamePlace(s, t, k) && t.gate.Free?
    decreases Measure(max, s)
  {
    var a := SweepCanMove(max, s);
    var next := Step(max, s, a);
    assert a != WatcherStep(k);
    StepElsewhere(max, s, a, k);
    StepLowersMeasure(max, s, a);
    StepKeepsInv(max, s, a);
    SweeperKeepsOrFrees(max, s, a);
    LeadsOne(max, s, a);
    hide Step, Enabled, Inv, Leads;
    if next.gate.Free? {
      actions, t := [a], next;
    } else {
      var rest;
      rest, t := SweeperLeavesGate(max, next, k);
      actions := [a] + rest;
      LeadsOn(max, s, [a], next, rest, t);
    }
  }

  lemma SweeperKeepsOrFrees(max: nat, s: State, a: Action)
    requires Inv(max, s) && s.gate.BySweeper? && Enabled(max, s, a)
    ensures Step(max, s, a).gate.BySweeper? || Step(max, s, a).gate.Free?
  {
  }

  /** A watcher at the gate leaves it in at most two steps if the permits suffice. */
  lemma WatcherLeavesGate(max: nat, n: nat, m: nat, s: State, k: nat) returns (actions: seq<Action>, t: State)
    requires n <= max && Reachable(max, n, m, s) && s.gate.ByWatcher?
    requires k < |s.watchers| && s.watchers[k].pc.WaitGate?
    ensures Leads(max, s, actions, t) && SamePlace(s, t, k) && t.gate.Free?
  {
    var a := GateHolderNotStuck(max, n, m, s);
    ReachableInv(max, n, m, s);
    HolderOfGate(max, s);
    var next := Step(max, s, a);
    StepElsewhere(max, s, a, k);
    LeadsOne(max, s, a);
    if next.gate.Free? {
      actions, t := [a], next;
    } else {
      var b := WatcherStep(s.gate.w);
      t := Step(max, next, b);
      StepElsewhere(max, next, b, k);
      LeadsOne(max, next, b);
      hide Leads;
      LeadsOn(max, s, [a], next, [b], t);
      actions := [a] + [b];
    }
  }

  lemma HolderOfGate(max: nat, s: State)
    requires Inv(max, s) && s.gate.ByWatcher?
    ensures s.gate.w < |s.watchers| && s.watchers[s.gate.w].HoldsGate()
  {
  }

  /** The holder of the writer mutex gives it back in at most three steps. */
  lemma {:induction false} WriterFreed(max: nat, s: State, k: nat) returns (actions: seq<Action>, t: State)
    requires Inv(max, s) && k < |s.watchers| && s.watchers[k].pc.WaitWriter? && !s.writer.Free?
    ensures Leads(max, s, actions, t) && SamePlace(s, t, k) && t.writer.Free?
    decreases StepsLeft(s.watchers[s.writer.w].pc), if s.watchers[s.writer.w].pc.Decide? then 1 else 0
  {
    var a := WatcherStep(s.writer.w);
    var next := Step(max, s, a);
    StepElsewhere(max, s, a, k);
    StepKeepsInv(max, s, a);
    LeadsOne(max, s, a);
    if next.writer.Free? {
      actions, t := [a], next;
    } else {
      var rest;
      rest, t := WriterFreed(max, next, k);
      hide Leads;
      LeadsOn(max, s, [a], next, rest, t);
      actions := [a] + rest;
    }
  }

  /** With at most `max` watchers whatever a terminating watcher waits for can be made to happen. */
  lemma CanBeEnabled(max: nat, n: nat, m: nat, s: State, k: nat) returns (actions: seq<Action>, t: State)
    requires n <= max && Reachable(max, n, m, s)
    requires k < |s.watchers| && s.watchers[k].TerminationEvent() && !s.watchers[k].pc.Stopped?
    ensures Leads(max, s, actions, t) && SamePlace(s, t, k) && Enabled(max, t, WatcherStep(k))
  {
    ReachableInv(max, n, m, s);
    if Enabled(max, s, WatcherStep(k)) {
      actions, t := [], s;
    } else if s.watchers[k].pc.WaitGate? {
      if s.gate.BySweeper? {
        actions, t := SweeperLeavesGate(max, s, k);
      } else {
        actions, t := WatcherLeavesGate(max, n, m, s, k);
      }
    } else if s.watchers[k].pc.TakePermit? {
      StarvedNever(max, n, m, s, k);
      assert false;
    } else {
      assert s.watchers[k].pc.WaitWriter?;
      actions, t := WriterFreed(max, s, k);
    }
  }

  /** With at most `max` watchers, from every reachable state in which a watcher's termination event is set
      some run takes its thread to the end, so that the wait in the shutdown can return. */
  lemma {:induction false} ShutdownCanFinish(max: nat, n: nat, m: nat, s: State, k: nat)
    returns (actions: seq<Action>, t: State)
    requires n <= max && Reachable(max, n, m, s) && k < |s.watchers| && s.watchers[k].TerminationEvent()
    ensures Leads(max, s, actions, t) && k < |t.watchers| && t.watchers[k].pc.Stopped?
    decreases StepsLeft(s.watchers[k].pc)
  {
    if s.watchers[k].pc.Stopped? {
      actions, t := [], s;
    } else {
      var first, ready := CanBeEnabled(max, n, m, s, k);
      var a := WatcherStep(k);
      var next := Step(max, ready, a);
      OwnStep(max, ready, k);
      LeadsOne(max, ready, a);
      hide Leads, Step, Enabled;
      LeadsOn(max, s, first, ready, [a], next);
      LeadsReachable(max, n, m, s, first + [a], next);
      var rest;
      rest, t := ShutdownCanFinish(max, n, m, next, k);
      LeadsOn(max, s, first + [a], next, rest, t);
      actions := first + [a] + rest;
    }
  }

  // ----- jams

  lemma LeadsMore(max: nat, s: State, actions: seq<Action>, t: State, a: Action)
    requires Leads(max, s, actions, t) && Enabled(max, t, a)
    ensures Leads(max, s, actions + [a], Step(max, t, a))
  {
    LeadsOne(max, t, a);
    LeadsOn(max, s, actions, t, [a], Step(max, t, a));
  }

  /** Shutting down a watcher that holds a permit ends a jam: some run then lets the watcher at the gate on. */
  lemma JamEnds(max: nat, s: State, i: nat, k: nat) returns (actions: seq<Action>, t: State)
    requires Inv(max, s) && Jammed(s, i) && k < |s.watchers| && s.watchers[k].HoldsPermit()
    ensures Leads(max, s, actions, t) && Enabled(max, t, WatcherStep(i)) && t.watchers[i].pc.TakePermit?
  {
    actions, t := AskedToStop(max, s, i, k);
    var a := WatcherStep(k);
    for step := 0 to 5
      invariant Leads(max, s, actions, t) && Releasing(max, t, i, k, step)
    {
      ReleasingStep(max, t, i, k, step);
      LeadsMore(max, s, actions, t, a);
      actions, t := actions + [a], Step(max, t, a);
    }
  }

  lemma AskedToStop(max: nat, s: State, i: nat, k: nat) returns (actions: seq<Action>, t: State)
    requires Inv(max, s) && Jammed(s, i) && k < |s.watchers| && s.watchers[k].HoldsPermit()
    ensures Leads(max, s, actions, t) && Releasing(max, t, i, k, 0)
  {
    var a := ShutdownStep(k);
    HoldersBound(s.watchers);
    LeadsOne(max, s, a);
    actions, t := [a], Step(max, s, a);
    if !t.watchers[k].TerminationEvent() {
      LeadsMore(max, s, actions, t, a);
      actions, t := actions + [a], Step(max, t, a);
    }
  }

  /** How a permit holder that is shut down goes on while another watcher waits for a permit. */
  ghost predicate Releasing(max: nat, s: State, i: nat, k: nat, step: nat) {
    && i < |s.watchers| && k < |s.watchers| && i != k && s.watchers[i].pc.TakePermit? && max > 0
    && s.watchers[k].TerminationEvent()
    && match step
       case 0 => s.watchers[k].pc.WaitEvent? && s.permits == 0 && s.writer.Free?
       case 1 => s.watchers[k].pc.WaitWriter? && s.permits == 0 && s.writer.Free?
       case 2 => s.watchers[k].pc.Decide? && s.permits == 0
       case 3 => s.watchers[k].pc.LeaveWriter? && s.permits == 0
       case 4 => s.watchers[k].pc.ReturnPermit? && s.permits == 0
       case _ => s.permits > 0
  }

  lemma ReleasingStep(max: nat, s: State, i: nat, k: nat, step: nat)
    requires Releasing(max, s, i, k, step) && step < 5
    ensures Enabled(max, s, WatcherStep(k)) && Releasing(max, Step(max, s, WatcherStep(k)), i, k, step + 1)
  {
  }
}
