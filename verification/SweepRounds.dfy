/** A watcher's loop from one sweep to the next: it goes on until it is asked to stop, and then it stops. */
module SweepRounds {
  import opened SweepModel
  import opened SweepSafety
  import opened SweepProgress
  import opened SweepCapacity
  import opened SweepShutdown

  // ----- asked to stop

  /** A thread has ended only if it was asked to, and the shutdown is done only when the thread has ended. */
  ghost predicate EndsWhenAsked(s: State) {
    forall i :: 0 <= i < |s.watchers| ==>
      && (s.watchers[i].pc.Stopped? ==> s.watchers[i].Terminating())
      && (s.watchers[i].shutdown.Joined? ==> s.watchers[i].pc.Stopped?)
  }

  lemma StepEndsWhenAsked(max: nat, s: State, a: Action)
    requires EndsWhenAsked(s) && Enabled(max, s, a)
    ensures EndsWhenAsked(Step(max, s, a))
  {
  }

  lemma {:induction false} ExecuteEndsWhenAsked(max: nat, s: State, actions: seq<Action>)
    requires EndsWhenAsked(s) && Execute(max, s, actions).Ran?
    ensures EndsWhenAsked(Execute(max, s, actions).state)
    decreases |actions|
  {
    if actions != [] {
      StepEndsWhenAsked(max, s, actions[0]);
      hide EndsWhenAsked, Step, Enabled;
      ExecuteEndsWhenAsked(max, Step(max, s, actions[0]), actions[1..]);
    }
  }

  /** In every reachable state a watcher's thread has ended only if it was asked to. */
  lemma StoppedWasAsked(max: nat, n: nat, m: nat, s: State)
    requires Reachable(max, n, m, s)
    ensures EndsWhenAsked(s)
  {
    var actions :| Execute(max, Initial(max, n, m), actions) == Ran(s);
    ExecuteEndsWhenAsked(max, Initial(max, n, m), actions);
  }

  /** What a step leaves of a watcher that was asked to stop: it stays asked, does not write again, and
      does not begin another round. */
  ghost predicate NoNewRound(w: Watcher, v: Watcher) {
    && v.Terminating() && v.writes <= w.writes
    && (w.pc.Check? || w.pc.Stopped? ==> v.pc.Check? || v.pc.Stopped?)
  }

  lemma StepNoNewRound(max: nat, s: State, a: Action, k: nat)
    requires Enabled(max, s, a) && k < |s.watchers| && s.watchers[k].Terminating()
    ensures |Step(max, s, a).watchers| == |s.watchers| && NoNewRound(s.watchers[k], Step(max, s, a).watchers[k])
  {
  }

  /** Once asked to stop a watcher never writes again, whatever the processes do, and takes the gate at most
      once more. */
  lemma {:induction false} AskedNeverWrites(max: nat, s: State, actions: seq<Action>, k: nat)
    requires Execute(max, s, actions).Ran? && k < |s.watchers| && s.watchers[k].Terminating()
    ensures var t := Execute(max, s, actions).state;
            k < |t.watchers| && NoNewRound(s.watchers[k], t.watchers[k])
    decreases |actions|
  {
    if actions != [] {
      StepNoNewRound(max, s, actions[0], k);
      hide Step, Enabled;
      AskedNeverWrites(max, Step(max, s, actions[0]), actions[1..], k);
    }
  }

  /** The termination event stays set. */
  lemma {:induction false} EventStays(max: nat, s: State, actions: seq<Action>, k: nat)
    requires Execute(max, s, actions).Ran? && k < |s.watchers| && s.watchers[k].TerminationEvent()
    ensures var t := Execute(max, s, actions).state; k < |t.watchers| && t.watchers[k].TerminationEvent()
    decreases |actions|
  {
    if actions != [] {
      EventStays(max, Step(max, s, actions[0]), actions[1..], k);
    }
  }

  /** Asking a watcher to stop takes at most two steps of its shutdown. */
  lemma Ask(max: nat, s: State, k: nat) returns (actions: seq<Action>, t: State)
    requires k < |s.watchers|
    ensures Leads(max, s, actions, t) && k < |t.watchers| && t.watchers[k].TerminationEvent()
  {
    var a := ShutdownStep(k);
    actions, t := [], s;
    if t.watchers[k].shutdown.NotAsked? {
      LeadsMore(max, s, actions, t, a);
      actions, t := actions + [a], Step(max, t, a);
    }
    if t.watchers[k].shutdown.FlagSet? {
      LeadsMore(max, s, actions, t, a);
      actions, t := actions + [a], Step(max, t, a);
    }
  }

  /** From every reachable state, with at most `max` watchers, some run shuts a watcher down to the end. */
  lemma ShutdownCanReturn(max: nat, n: nat, m: nat, s: State, k: nat) returns (actions: seq<Action>, t: State)
    requires n <= max && Reachable(max, n, m, s) && k < |s.watchers|
    ensures Leads(max, s, actions, t) && k < |t.watchers|
    ensures t.watchers[k].shutdown.Joined? && t.watchers[k].pc.Stopped?
  {
    var first, asked := Ask(max, s, k);
    LeadsReachable(max, n, m, s, first, asked);
    var rest;
    rest, t := ShutdownCanFinish(max, n, m, asked, k);
    EventStays(max, asked, rest, k);
    LeadsOn(max, s, first, asked, rest, t);
    actions := first + rest;
    if !t.watchers[k].shutdown.Joined? {
      var a := ShutdownStep(k);
      LeadsMore(max, s, actions, t, a);
      actions, t := actions + [a], Step(max, t, a);
    }
  }

  // ----- from sweep to sweep

  /** The actions lead to `t` without asking any watcher to stop. */
  ghost predicate Quietly(max: nat, s: State, actions: seq<Action>, t: State) {
    && Leads(max, s, actions, t) && |t.watchers| == |s.watchers| && |t.sweepers| == |s.sweepers|
    && forall k :: 0 <= k < |s.watchers| ==> t.watchers[k].shutdown == s.watchers[k].shutdown
  }

  lemma QuietStep(max: nat, s: State, a: Action)
    requires Enabled(max, s, a) && !a.ShutdownStep?
    ensures Quietly(max, s, [a], Step(max, s, a))
  {
    LeadsOne(max, s, a);
  }

  lemma QuietOn(max: nat, s: State, a: seq<Action>, t: State, b: seq<Action>, u: State)
    requires Quietly(max, s, a, t) && Quietly(max, t, b, u)
    ensures Quietly(max, s, a + b, u)
  {
    LeadsOn(max, s, a, t, b, u);
  }

  lemma QuietMore(max: nat, s: State, actions: seq<Action>, t: State, a: Action)
    requires Quietly(max, s, actions, t) && Enabled(max, t, a) && !a.ShutdownStep?
    ensures Quietly(max, s, actions + [a], Step(max, t, a))
  {
    QuietStep(max, t, a);
    QuietOn(max, s, actions, t, [a], Step(max, t, a));
  }

  lemma QuietReachable(max: nat, n: nat, m: nat, s: State, actions: seq<Action>, t: State)
    requires Reachable(max, n, m, s) && Quietly(max, s, actions, t)
    ensures Reachable(max, n, m, t)
  {
    LeadsReachable(max, n, m, s, actions, t);
  }

  /** A sweeper at the gate can be brought to leave it. */
  lemma {:induction false} SweepCanEnd(max: nat, s: State) returns (actions: seq<Action>, t: State)
    requires Inv(max, s) && s.gate.BySweeper?
    ensures Quietly(max, s, actions, t) && t.gate.Free?
    decreases Measure(max, s)
  {
    var a := SweepCanMove(max, s);
    var next := Step(max, s, a);
    StepLowersMeasure(max, s, a);
    StepKeepsInv(max, s, a);
    SweeperKeepsOrFrees(max, s, a);
    QuietStep(max, s, a);
    hide Step, Enabled, Inv, Quietly;
    if next.gate.Free? {
      actions, t := [a], next;
    } else {
      var rest;
      rest, t := SweepCanEnd(max, next);
      actions := [a] + rest;
      QuietOn(max, s, [a], next, rest, t);
    }
  }

  /** Whoever holds the gate can be brought to leave it, if the permits suffice. */
  lemma GateCanOpen(max: nat, n: nat, m: nat, s: State) returns (actions: seq<Action>, t: State)
    requires n <= max && Reachable(max, n, m, s)
    ensures Quietly(max, s, actions, t) && t.gate.Free?
  {
    ReachableInv(max, n, m, s);
    actions, t := [], s;
    if s.gate.BySweeper? {
      actions, t := SweepCanEnd(max, s);
    } else if s.gate.ByWatcher? {
      HolderOfGate(max, s);
      var a := GateHolderNotStuck(max, n, m, s);
      QuietStep(max, s, a);
      actions, t := [a], Step(max, s, a);
      if !t.gate.Free? {
        QuietMore(max, s, actions, t, a);
        actions, t := actions + [a], Step(max, t, a);
      }
    }
  }

  /** The watcher waits for the sweep event with its permit. */
  predicate Waiting(s: State, k: nat) {
    k < |s.watchers| && s.watchers[k].pc.WaitEvent? && s.watchers[k].HoldsPermit()
  }

  /** With the gate open a watcher that was not asked to stop is outside a sweep. */
  lemma OutsideSweep(max: nat, n: nat, m: nat, s: State, k: nat)
    requires Reachable(max, n, m, s) && s.gate.Free? && k < |s.watchers| && !s.watchers[k].Terminating()
    ensures var pc := s.watchers[k].pc; pc.Check? || pc.WaitGate? || pc.WaitEvent?
  {
    ReachableInv(max, n, m, s);
    StoppedWasAsked(max, n, m, s);
  }

  /** With at most `max` watchers, from every reachable state some run brings any watcher that was not asked
      to stop to wait for the sweep event with its permit, the gate open for the next sweep. */
  lemma CanWaitAgain(max: nat, n: nat, m: nat, s: State, k: nat) returns (actions: seq<Action>, t: State)
    requires n <= max && Reachable(max, n, m, s) && k < |s.watchers| && !s.watchers[k].Terminating()
    ensures Quietly(max, s, actions, t) && t.gate.Free? && Waiting(t, k)
  {
    actions, t := GateCanOpen(max, n, m, s);
    QuietReachable(max, n, m, s, actions, t);
    OutsideSweep(max, n, m, t, k);
    if !t.watchers[k].pc.WaitEvent? {
      var rest, u := ToEvent(max, n, m, t, k);
      QuietOn(max, s, actions, t, rest, u);
      actions, t := actions + rest, u;
    }
  }

  /** From the start of its loop to the wait for the event. */
  lemma ToEvent(max: nat, n: nat, m: nat, s: State, k: nat) returns (actions: seq<Action>, t: State)
    requires n <= max && Reachable(max, n, m, s) && s.gate.Free?
    requires k < |s.watchers| && !s.watchers[k].Terminating() && (s.watchers[k].pc.Check? || s.watchers[k].pc.WaitGate?)
    ensures Quietly(max, s, actions, t) && t.gate.Free? && Waiting(t, k)
  {
    var a := WatcherStep(k);
    actions, t := ToGate(max, s, k);
    QuietMore(max, s, actions, t, a);
    actions, t := actions + [a], Step(max, t, a);
    QuietReachable(max, n, m, s, actions, t);
    StarvedNever(max, n, m, t, k);
    QuietMore(max, s, actions, t, a);
    actions, t := actions + [a], Step(max, t, a);
    QuietMore(max, s, actions, t, a);
    actions, t := actions + [a], Step(max, t, a);
  }

  lemma ToGate(max: nat, s: State, k: nat) returns (actions: seq<Action>, t: State)
    requires k < |s.watchers| && !s.watchers[k].Terminating() && (s.watchers[k].pc.Check? || s.watchers[k].pc.WaitGate?)
    ensures Quietly(max, s, actions, t) && t.watchers[k].pc.WaitGate? && t.gate == s.gate
  {
    var a := WatcherStep(k);
    actions, t := [], s;
    if s.watchers[k].pc.Check? {
      QuietStep(max, s, a);
      actions, t := [a], Step(max, s, a);
    }
  }

  // ----- one whole sweep

  /** Sweeper `j` collects permits, and the watcher held one when the event was set. */
  ghost predicate SweepingWith(s: State, j: nat, k: nat) {
    j < |s.sweepers| && s.gate == BySweeper(j) && s.sweepers[j].Collect? && k < |s.watchers| && s.watchers[k].held
  }

  /** A sweep begins with every watcher that waits for it. */
  lemma SweepCanBegin(max: nat, s: State, j: nat, k: nat) returns (actions: seq<Action>, t: State)
    requires Inv(max, s) && s.gate.Free? && j < |s.sweepers| && Waiting(s, k)
    ensures Quietly(max, s, actions, t) && SweepingWith(t, j, k) && t.sweepers[j] == Collect(0)
    ensures t.watchers[k].writes == 0
  {
    var a := SweeperStep(j);
    actions, t := [], s;
    if s.sweepers[j].Idle? {
      QuietStep(max, s, a);
      actions, t := [a], Step(max, s, a);
    }
    QuietMore(max, s, actions, t, a);
    actions, t := actions + [a], Step(max, t, a);
    QuietMore(max, s, actions, t, a);
    actions, t := actions + [a], Step(max, t, a);
  }

  lemma StaysSweeping(max: nat, s: State, j: nat, k: nat, a: Action)
    requires Inv(max, s) && SweepingWith(s, j, k) && s.sweepers[j] != Collect(max) && Enabled(max, s, a)
    requires a == SweeperStep(j) || a.WatcherStep?
    ensures SweepingWith(Step(max, s, a), j, k)
  {
  }

  /** The sweep can be brought to the point where all permits are collected. */
  lemma {:induction false} CanCollectAll(max: nat, s: State, j: nat, k: nat) returns (actions: seq<Action>, t: State)
    requires Inv(max, s) && SweepingWith(s, j, k)
    ensures Quietly(max, s, actions, t) && SweepingWith(t, j, k) && t.sweepers[j] == Collect(max)
    decreases Measure(max, s)
  {
    if s.sweepers[j] == Collect(max) {
      actions, t := [], s;
    } else {
      var a := SweepCanMove(max, s);
      var next := Step(max, s, a);
      StepLowersMeasure(max, s, a);
      StepKeepsInv(max, s, a);
      StaysSweeping(max, s, j, k, a);
      QuietStep(max, s, a);
      hide Step, Enabled, Inv, Quietly, SweepingWith;
      var rest;
      rest, t := CanCollectAll(max, next, j, k);
      actions := [a] + rest;
      QuietOn(max, s, [a], next, rest, t);
    }
  }

  /** With at most `max` watchers, from every reachable state any sweeper can sweep again any watcher that
      was not asked to stop: some run leads to `u`, where the sweep begins and the watcher has not written
      since the event was set, and on to `t`, where the sweeper has all permits and the watcher has
      written once. */
  lemma CanBeSweptAgain(max: nat, n: nat, m: nat, s: State, j: nat, k: nat)
    returns (before: seq<Action>, u: State, during: seq<Action>, t: State)
    requires n <= max && Reachable(max, n, m, s) && j < |s.sweepers|
    requires k < |s.watchers| && !s.watchers[k].Terminating()
    ensures Quietly(max, s, before, u) && u.sweepers[j] == Collect(0) && u.watchers[k].writes == 0
    ensures Quietly(max, u, during, t) && t.sweepers[j] == Collect(max) && t.watchers[k].writes == 1
  {
    hide Quietly, Inv, Reachable, SweepingWith, Step, Enabled, Waiting;
    var ready, begin;
    before, ready := CanWaitAgain(max, n, m, s, k);
    QuietReachable(max, n, m, s, before, ready);
    ReachableInv(max, n, m, ready);
    StillThere(max, s, before, ready);
    begin, u := SweepCanBegin(max, ready, j, k);
    QuietReachable(max, n, m, ready, begin, u);
    QuietOn(max, s, before, ready, begin, u);
    ReachableInv(max, n, m, u);
    StillThere(max, ready, begin, u);
    during, t := CanCollectAll(max, u, j, k);
    QuietReachable(max, n, m, u, during, t);
    StillThere(max, u, during, t);
    SweptOnce(max, n, m, t, j, k);
    before := before + begin;
  }

  lemma StillThere(max: nat, s: State, actions: seq<Action>, t: State)
    requires Quietly(max, s, actions, t)
    ensures |t.watchers| == |s.watchers| && |t.sweepers| == |s.sweepers|
    ensures forall k :: 0 <= k < |s.watchers| ==> t.watchers[k].shutdown == s.watchers[k].shutdown
  {
  }

  lemma SweptOnce(max: nat, n: nat, m: nat, s: State, j: nat, k: nat)
    requires Reachable(max, n, m, s) && SweepingWith(s, j, k) && s.sweepers[j] == Collect(max)
    requires !s.watchers[k].Terminating()
    ensures s.watchers[k].writes == 1
  {
    FinishedSweepMeansWritten(max, n, m, s, j);
  }
}
