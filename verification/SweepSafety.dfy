/** What every step of the sweep protocol keeps, and what a finished sweep guarantees. */
module SweepSafety {
  import opened SweepModel

  /** How many watchers hold a permit. */
  function Holders(watchers: seq<Watcher>): nat {
    if watchers == [] then 0
    else Holders(watchers[..|watchers| - 1]) + if watchers[|watchers| - 1].HoldsPermit() then 1 else 0
  }

  function Bit(b: bool): nat {
    if b then 1 else 0
  }

  lemma {:induction false} HoldersUpdate(watchers: seq<Watcher>, i: nat, w: Watcher)
    requires i < |watchers|
    ensures Holders(watchers[i := w]) + Bit(watchers[i].HoldsPermit()) == Holders(watchers) + Bit(w.HoldsPermit())
  {
    var front := watchers[..|watchers| - 1];
    if i == |watchers| - 1 {
      assert watchers[i := w][..i] == front;
    } else {
      HoldersUpdate(front, i, w);
      assert watchers[i := w][..|watchers| - 1] == front[i := w];
    }
  }

  lemma {:induction false} HoldersSame(v: seq<Watcher>, w: seq<Watcher>)
    requires |v| == |w| && forall i :: 0 <= i < |v| ==> v[i].HoldsPermit() == w[i].HoldsPermit()
    ensures Holders(v) == Holders(w)
  {
    if v != [] {
      HoldersSame(v[..|v| - 1], w[..|w| - 1]);
    }
  }

  lemma {:induction false} HoldersBound(watchers: seq<Watcher>)
    ensures Holders(watchers) <= |watchers|
    ensures Holders(watchers) == 0 <==> forall i :: 0 <= i < |watchers| ==> !watchers[i].HoldsPermit()
    ensures (exists i :: 0 <= i < |watchers| && !watchers[i].HoldsPermit()) ==> Holders(watchers) < |watchers|
  {
    if watchers != [] {
      HoldersBound(watchers[..|watchers| - 1]);
    }
  }

  /** What the sweeper that holds the gate is doing. */
  function AtGate(s: State): Sweeper {
    if s.gate.BySweeper? && s.gate.s < |s.sweepers| then s.sweepers[s.gate.s] else Idle
  }

  predicate Sweeping(s: State) {
    AtGate(s).Collect?
  }

  /** Permits the sweeper at the gate has collected. */
  function Collected(s: State): nat {
    if Sweeping(s) then AtGate(s).taken else 0
  }

  /** The gate has the one owner whose program counter says so. */
  ghost predicate GateExclusive(s: State) {
    && (forall i :: 0 <= i < |s.watchers| ==> (s.watchers[i].HoldsGate() <==> s.gate == ByWatcher(i)))
    && (forall j :: 0 <= j < |s.sweepers| ==> (s.sweepers[j].HoldsGate() <==> s.gate == BySweeper(j)))
    && (s.gate.ByWatcher? ==> s.gate.w < |s.watchers|) && (s.gate.BySweeper? ==> s.gate.s < |s.sweepers|)
  }

  /** So has the writer mutex: no two watchers write at a time. */
  ghost predicate WriterExclusive(s: State) {
    && (forall i :: 0 <= i < |s.watchers| ==> (s.watchers[i].HoldsWriter() <==> s.writer == ByWatcher(i)))
    && (s.writer.ByWatcher? ==> s.writer.w < |s.watchers|) && !s.writer.BySweeper?
  }

  ghost predicate Exclusive(s: State) {
    GateExclusive(s) && WriterExclusive(s)
  }

  /** No permit is ever lost or made. */
  ghost predicate PermitsConserved(max: nat, s: State) {
    s.permits + Holders(s.watchers) + Collected(s) == max
  }

  /** The event is set from the start of collecting to its reset; between collecting and reopening
      the gate nobody holds a permit. */
  ghost predicate Phases(s: State) {
    && (s.event <==> AtGate(s).Collect? || AtGate(s).LowerEvent?)
    && (AtGate(s).LowerEvent? || AtGate(s).OpenGate? ==> Holders(s.watchers) == 0)
  }

  /** Beyond the event a watcher is being swept or is terminating; it writes only in a sweep. */
  ghost predicate Wakes(s: State) {
    forall i :: 0 <= i < |s.watchers| ==>
      var w := s.watchers[i];
      && (w.pc.WaitWriter? || w.HoldsWriter() || w.pc.ReturnPermit? ==> w.Terminating() || Sweeping(s))
      && (w.pc.Writing? ==> Sweeping(s))
  }

  /** The record of one watcher during a sweep: it writes at most once, only if it held a permit when
      the event was set, and it does not let go of the permit without writing unless terminating. */
  predicate RecordValid(w: Watcher) {
    if w.held then
      match w.pc
      case WaitEvent => w.writes == 0
      case WaitWriter => w.writes == 0
      case Decide => w.writes == 0
      case Writing => w.writes == 1
      case _ => w.writes == 1 || (w.writes == 0 && w.Terminating())
    else w.writes == 0 && !w.HoldsPermit()
  }

  ghost predicate Records(s: State) {
    Sweeping(s) ==> forall i :: 0 <= i < |s.watchers| ==> RecordValid(s.watchers[i])
  }

  ghost predicate Inv(max: nat, s: State) {
    Exclusive(s) && PermitsConserved(max, s) && Phases(s) && Wakes(s) && Records(s)
  }

  lemma InitialInv(max: nat, n: nat, m: nat)
    ensures Inv(max, Initial(max, n, m))
  {
    HoldersBound(Initial(max, n, m).watchers);
  }

  lemma WatcherKeepsGate(max: nat, s: State, i: nat)
    requires GateExclusive(s) && Enabled(max, s, WatcherStep(i))
    ensures GateExclusive(Step(max, s, WatcherStep(i)))
  {
  }

  lemma WatcherKeepsWriter(max: nat, s: State, i: nat)
    requires WriterExclusive(s) && Enabled(max, s, WatcherStep(i))
    ensures WriterExclusive(Step(max, s, WatcherStep(i)))
  {
  }

  /** What a watcher's step changes: itself and, with its own, the free permits; never the sweeper at the
      gate nor the event. */
  lemma WatcherEffect(max: nat, s: State, i: nat)
    requires GateExclusive(s) && Enabled(max, s, WatcherStep(i))
    requires s.permits + Bit(s.watchers[i].HoldsPermit()) <= max
    ensures var t := Step(max, s, WatcherStep(i));
            && |t.watchers| == |s.watchers| && t.watchers == s.watchers[i := t.watchers[i]]
            && t.event == s.event && AtGate(t) == AtGate(s)
            && t.permits + Bit(t.watchers[i].HoldsPermit()) == s.permits + Bit(s.watchers[i].HoldsPermit())
            && (t.watchers[i].HoldsPermit() && !s.watchers[i].HoldsPermit() ==> s.watchers[i].HoldsGate())
  {
  }

  lemma WatcherKeepsPermits(max: nat, s: State, i: nat)
    requires GateExclusive(s) && PermitsConserved(max, s) && Phases(s) && Enabled(max, s, WatcherStep(i))
    ensures PermitsConserved(max, Step(max, s, WatcherStep(i))) && Phases(Step(max, s, WatcherStep(i)))
  {
    var t := Step(max, s, WatcherStep(i));
    HoldersBound(s.watchers);
    WatcherAtGate(max, s, i);
    WatcherEffect(max, s, i);
    hide Step, Enabled, GateExclusive, AtGate;
    HoldersUpdate(s.watchers, i, t.watchers[i]);
  }

  lemma WatcherAtGate(max: nat, s: State, i: nat)
    requires GateExclusive(s) && i < |s.watchers|
    ensures s.watchers[i].HoldsGate() ==> AtGate(s).Idle?
  {
  }

  lemma WatcherKeepsRecords(max: nat, s: State, i: nat)
    requires GateExclusive(s) && Phases(s) && Wakes(s) && Records(s) && Enabled(max, s, WatcherStep(i))
    ensures Wakes(Step(max, s, WatcherStep(i))) && Records(Step(max, s, WatcherStep(i)))
  {
    HoldersBound(s.watchers);
  }

  lemma WatcherKeepsInv(max: nat, s: State, i: nat)
    requires Inv(max, s) && Enabled(max, s, WatcherStep(i))
    ensures Inv(max, Step(max, s, WatcherStep(i)))
  {
    WatcherKeepsGate(max, s, i);
    WatcherKeepsWriter(max, s, i);
    WatcherKeepsPermits(max, s, i);
    WatcherKeepsRecords(max, s, i);
    hide Step, Enabled, GateExclusive, WriterExclusive, PermitsConserved, Phases, Wakes, Records;
  }

  lemma SweeperKeepsMutexes(max: nat, s: State, j: nat)
    requires Exclusive(s) && Enabled(max, s, SweeperStep(j))
    ensures Exclusive(Step(max, s, SweeperStep(j)))
  {
  }

  lemma SweeperKeepsPermits(max: nat, s: State, j: nat)
    requires GateExclusive(s) && PermitsConserved(max, s) && Phases(s) && Enabled(max, s, SweeperStep(j))
    ensures PermitsConserved(max, Step(max, s, SweeperStep(j))) && Phases(Step(max, s, SweeperStep(j)))
  {
    HoldersSame(s.watchers, Step(max, s, SweeperStep(j)).watchers);
    HoldersBound(s.watchers);
  }

  lemma SweeperKeepsRecords(max: nat, s: State, j: nat)
    requires GateExclusive(s) && PermitsConserved(max, s) && Wakes(s) && Records(s) && Enabled(max, s, SweeperStep(j))
    ensures Wakes(Step(max, s, SweeperStep(j))) && Records(Step(max, s, SweeperStep(j)))
  {
    HoldersBound(s.watchers);
  }

  lemma SweeperKeepsInv(max: nat, s: State, j: nat)
    requires Inv(max, s) && Enabled(max, s, SweeperStep(j))
    ensures Inv(max, Step(max, s, SweeperStep(j)))
  {
    hide Step, Enabled, Exclusive, GateExclusive, PermitsConserved, Phases, Wakes, Records;
    ExclusiveParts(s);
    SweeperKeepsMutexes(max, s, j);
    SweeperKeepsPermits(max, s, j);
    SweeperKeepsRecords(max, s, j);
  }

  lemma ExclusiveParts(s: State)
    ensures Exclusive(s) <==> GateExclusive(s) && WriterExclusive(s)
  {
  }

  lemma ShutdownKeepsMutexes(max: nat, s: State, k: nat)
    requires Exclusive(s) && Enabled(max, s, ShutdownStep(k))
    ensures Exclusive(Step(max, s, ShutdownStep(k)))
  {
  }

  lemma ShutdownKeepsInv(max: nat, s: State, k: nat)
    requires Inv(max, s) && Enabled(max, s, ShutdownStep(k))
    ensures Inv(max, Step(max, s, ShutdownStep(k)))
  {
    ShutdownKeepsMutexes(max, s, k);
    hide Exclusive;
    HoldersSame(s.watchers, Step(max, s, ShutdownStep(k)).watchers);
  }

  /** Every step of any process keeps the invariant. */
  lemma StepKeepsInv(max: nat, s: State, a: Action)
    requires Inv(max, s) && Enabled(max, s, a)
    ensures Inv(max, Step(max, s, a))
  {
    hide Inv;
    match a {
      case WatcherStep(i) => WatcherKeepsInv(max, s, i);
      case SweeperStep(j) => SweeperKeepsInv(max, s, j);
      case ShutdownStep(k) => ShutdownKeepsInv(max, s, k);
    }
  }

  lemma {:induction false} ExecuteKeepsInv(max: nat, s: State, actions: seq<Action>)
    requires Inv(max, s) && Execute(max, s, actions).Ran?
    ensures Inv(max, Execute(max, s, actions).state)
    decreases |actions|
  {
    hide Inv;
    if actions != [] {
      StepKeepsInv(max, s, actions[0]);
      ExecuteKeepsInv(max, Step(max, s, actions[0]), actions[1..]);
    }
  }

  lemma ReachableInv(max: nat, n: nat, m: nat, s: State)
    requires Reachable(max, n, m, s)
    ensures Inv(max, s)
  {
    var actions :| Execute(max, Initial(max, n, m), actions) == Ran(s);
    InitialInv(max, n, m);
    ExecuteKeepsInv(max, Initial(max, n, m), actions);
  }

  /** When a sweeper has taken all permits, every watcher that held one when the sweep event was set has
      called the write callback exactly once since, or has not and is terminating; every other watcher
      has not called it; and no watcher is inside it. */
  lemma FinishedSweepMeansWritten(max: nat, n: nat, m: nat, s: State, j: nat)
    requires Reachable(max, n, m, s) && j < |s.sweepers| && s.sweepers[j] == Collect(max)
    ensures forall i :: 0 <= i < |s.watchers| ==>
              var w := s.watchers[i];
              && !w.HoldsPermit() && !w.pc.Writing?
              && (w.held ==> w.writes == 1 || (w.writes == 0 && w.Terminating()))
              && (!w.held ==> w.writes == 0)
  {
    ReachableInv(max, n, m, s);
    HoldersBound(s.watchers);
  }

  /** No watcher ever calls the callback twice in one sweep, two watchers never write at the same time,
      and nobody writes unless a sweeper is collecting. */
  lemma WritesAreExclusive(max: nat, n: nat, m: nat, s: State, i: nat, k: nat)
    requires Reachable(max, n, m, s) && i < |s.watchers| && k < |s.watchers|
    ensures Sweeping(s) ==> s.watchers[i].writes <= 1
    ensures s.watchers[i].pc.Writing? && s.watchers[k].pc.Writing? ==> i == k
    ensures s.watchers[i].pc.Writing? ==> exists j :: 0 <= j < |s.sweepers| && s.sweepers[j].Collect? && s.event
  {
    ReachableInv(max, n, m, s);
  }

  /** Releasing permits never runs over the maximum of the semaphore, so no release fails. */
  lemma ReleasesSucceed(max: nat, n: nat, m: nat, s: State)
    requires Reachable(max, n, m, s)
    ensures s.permits <= max
    ensures forall i :: 0 <= i < |s.watchers| && s.watchers[i].pc.ReturnPermit? ==>
              Released(max, s.permits, 1) == s.permits + 1
    ensures forall j :: 0 <= j < |s.sweepers| && s.sweepers[j] == Collect(max) ==>
              Released(max, s.permits, max) == s.permits + max
  {
    ReachableInv(max, n, m, s);
    HoldersBound(s.watchers);
    forall i | 0 <= i < |s.watchers| && s.watchers[i].pc.ReturnPermit?
      ensures Released(max, s.permits, 1) == s.permits + 1
    {
      assert Holders(s.watchers) > 0;
    }
  }
}
