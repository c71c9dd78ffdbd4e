/** How many watchers the permits suffice for. */
module SweepCapacity {
  import opened SweepModel
  import opened SweepSafety

  /** The watcher holding the gate can always get its permit. */
  ghost predicate NeverStarved(max: nat, n: nat, m: nat) {
    forall s :: Reachable(max, n, m, s) ==>
      forall i :: 0 <= i < |s.watchers| && s.watchers[i].pc.TakePermit? ==> s.permits > 0
  }

  /** A watcher holds the gate with no permit left, and those that have one wait for an event that only
      the gate's next owner could set. */
  ghost predicate Jammed(s: State, i: nat) {
    && i < |s.watchers| && s.gate == ByWatcher(i) && s.watchers[i].pc.TakePermit? && s.permits == 0 && !s.event
    && (forall k :: 0 <= k < |s.watchers| ==>
         s.watchers[k].HoldsPermit() ==> s.watchers[k].pc.WaitEvent? && !s.watchers[k].TerminationEvent())
    && (forall k :: 0 <= k < |s.watchers| && k != i ==> !s.watchers[k].HoldsGate())
    && (forall j :: 0 <= j < |s.sweepers| ==> !s.sweepers[j].HoldsGate())
  }

  lemma StarvedNever(max: nat, n: nat, m: nat, s: State, i: nat)
    requires n <= max && Reachable(max, n, m, s)
    requires i < |s.watchers| && s.watchers[i].pc.TakePermit?
    ensures s.permits > 0
  {
    ReachableInv(max, n, m, s);
    var actions :| Execute(max, Initial(max, n, m), actions) == Ran(s);
    SameProcesses(max, Initial(max, n, m), actions);
    HoldersBound(s.watchers);
    assert !s.watchers[i].HoldsPermit();
  }

  lemma {:induction false} SameProcesses(max: nat, s: State, actions: seq<Action>)
    requires Execute(max, s, actions).Ran?
    ensures var t := Execute(max, s, actions).state;
            |t.watchers| == |s.watchers| && |t.sweepers| == |s.sweepers|
    decreases |actions|
  {
    if actions != [] {
      SameProcesses(max, Step(max, s, actions[0]), actions[1..]);
    }
  }

  /** The state in which the first `k` of `n` watchers wait for the event and the others have not begun. */
  function Crowded(max: nat, n: nat, m: nat, k: nat): State
    requires k <= max && k <= n
  {
    State(Free, max - k, false, Free,
          seq(n, i => Watcher(if i < k then WaitEvent else Check, NotAsked, false, 0)), seq(m, j => Idle))
  }

  lemma {:induction false} CrowdedReachable(max: nat, n: nat, m: nat, k: nat)
    requires k <= max && k <= n
    ensures Reachable(max, n, m, Crowded(max, n, m, k))
  {
    if k == 0 {
      assert Crowded(max, n, m, 0) == Initial(max, n, m);
      assert Execute(max, Initial(max, n, m), []) == Ran(Crowded(max, n, m, 0));
    } else {
      CrowdedReachable(max, n, m, k - 1);
      var s0 := Crowded(max, n, m, k - 1);
      var a := WatcherStep(k - 1);
      var s1 := Step(max, s0, a);
      var s2 := Step(max, s1, a);
      var s3 := Step(max, s2, a);
      var s4 := Step(max, s3, a);
      StepReachable(max, n, m, s0, a);
      StepReachable(max, n, m, s1, a);
      StepReachable(max, n, m, s2, a);
      StepReachable(max, n, m, s3, a);
      assert s4.watchers == Crowded(max, n, m, k).watchers;
    }
  }

  lemma StepReachable(max: nat, n: nat, m: nat, s: State, a: Action)
    requires Reachable(max, n, m, s) && Enabled(max, s, a)
    ensures Reachable(max, n, m, Step(max, s, a))
  {
    var actions :| Execute(max, Initial(max, n, m), actions) == Ran(s);
    ExecuteConcat(max, Initial(max, n, m), actions, [a]);
    assert Execute(max, s, [a]) == Ran(Step(max, s, a)) by {
      assert [a][1..] == [];
    }
  }

  /** With more watchers than permits the processes can jam. */
  lemma JamReachable(max: nat, n: nat, m: nat) returns (s: State)
    requires n > max
    ensures Reachable(max, n, m, s) && Jammed(s, max)
  {
    CrowdedReachable(max, n, m, max);
    var s0 := Crowded(max, n, m, max);
    var a := WatcherStep(max);
    var s1 := Step(max, s0, a);
    s := Step(max, s1, a);
    StepReachable(max, n, m, s0, a);
    StepReachable(max, n, m, s1, a);
  }

  /** The permits suffice exactly for up to `max` watchers. */
  lemma PermitsSufficeIff(max: nat, n: nat, m: nat)
    ensures NeverStarved(max, n, m) <==> n <= max
  {
    if n <= max {
      forall s, i | Reachable(max, n, m, s) && 0 <= i < |s.watchers| && s.watchers[i].pc.TakePermit?
        ensures s.permits > 0
      {
        StarvedNever(max, n, m, s, i);
      }
    } else {
      var s := JamReachable(max, n, m);
      assert s.watchers[max].pc.TakePermit?;
    }
  }

  /** The shutdown of a watcher that holds a permit. */
  ghost predicate FreesPermit(s: State, a: Action) {
    a.ShutdownStep? && a.k < |s.watchers| && s.watchers[a.k].HoldsPermit()
  }

  /** No step undoes a jam but the shutdown of a permit holder: no watcher gets past it and no sweep can
      begin. The shutdown of the watcher at the gate waits for ever. */
  lemma JamStays(max: nat, s: State, i: nat, a: Action)
    requires Jammed(s, i) && Enabled(max, s, a) && !FreesPermit(s, a)
    ensures var t := Step(max, s, a);
            && Jammed(t, i) && |t.watchers| == |s.watchers|
            && (forall k :: 0 <= k < |s.watchers| ==> (t.watchers[k].HoldsPermit() <==> s.watchers[k].HoldsPermit()))
            && (t.watchers[i].shutdown.Joined? ==> s.watchers[i].shutdown.Joined?)
  {
  }

  /** Whatever the processes do, a jam lasts until a watcher that holds a permit is shut down; until then
      the watcher at the gate can be asked to shut down but never gets there. */
  lemma {:induction false} JamForever(max: nat, s: State, i: nat, actions: seq<Action>)
    requires Jammed(s, i) && Execute(max, s, actions).Ran? && forall a :: a in actions ==> !FreesPermit(s, a)
    ensures var t := Execute(max, s, actions).state;
            Jammed(t, i) && (t.watchers[i].shutdown.Joined? ==> s.watchers[i].shutdown.Joined?)
    decreases |actions|
  {
    if actions != [] {
      hide Jammed, Enabled, Step;
      assert actions[0] in actions;
      JamStays(max, s, i, actions[0]);
      forall a | a in actions[1..] ensures !FreesPermit(Step(max, s, actions[0]), a) {
        assert a in actions;
      }
      JamForever(max, Step(max, s, actions[0]), i, actions[1..]);
    }
  }

  /** With at most `max` watchers, whoever holds the gate can be got out of it: some watcher or the
      holder itself can always step. */
  lemma GateHolderNotStuck(max: nat, n: nat, m: nat, s: State) returns (a: Action)
    requires n <= max && Reachable(max, n, m, s) && s.gate.ByWatcher?
    ensures a == WatcherStep(s.gate.w) && Enabled(max, s, a)
  {
    ReachableInv(max, n, m, s);
    a := WatcherStep(s.gate.w);
    if s.watchers[s.gate.w].pc.TakePermit? {
      StarvedNever(max, n, m, s, s.gate.w);
    }
  }
}
