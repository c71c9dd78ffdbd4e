/** The profile sweep: watcher processes write their data when a sweeper asks for it.

    Processes share a gate mutex, a counting semaphore of `max` permits, a manual-reset sweep event and
    a writer mutex. Each step of a process is one call on these objects or one test of a flag. */
module SweepModel {

  /** Where a watcher thread is in its loop. */
  datatype WatcherPc =
    | Check          // tests its termination flag
    | WaitGate       // waits for the gate mutex
    | TakePermit     // holds the gate, waits for a permit
    | LeaveGate      // holds the gate and a permit
    | WaitEvent      // holds a permit, waits for the sweep event or its own termination event
    | WaitWriter     // holds a permit, waits for the writer mutex
    | Decide         // holds the writer mutex, tests its termination flag
    | Writing        // inside the write callback
    | LeaveWriter    // done with the writer mutex
    | ReturnPermit   // gives its permit back
    | Stopped

  /** How far the shutdown of a watcher's process has come. */
  datatype Shutdown = NotAsked | FlagSet | EventSet | Joined

  /** `held` and `writes` are history: whether the watcher held a permit when the sweep event was last
      set, and how often it has called the write callback since. */
  datatype Watcher = Watcher(pc: WatcherPc, shutdown: Shutdown, held: bool, writes: nat) {
    predicate Terminating() {
      !shutdown.NotAsked?
    }

    predicate TerminationEvent() {
      shutdown.EventSet? || shutdown.Joined?
    }

    predicate HoldsPermit() {
      pc.LeaveGate? || pc.WaitEvent? || pc.WaitWriter? || HoldsWriter() || pc.ReturnPermit?
    }

    predicate HoldsGate() {
      pc.TakePermit? || pc.LeaveGate?
    }

    predicate HoldsWriter() {
      pc.Decide? || pc.Writing? || pc.LeaveWriter?
    }
  }

  /** Where a sweeper is in PerformSweep; `Collect` takes the permits one by one. */
  datatype Sweeper = Idle | AskGate | RaiseEvent | Collect(taken: nat) | LowerEvent | OpenGate {
    predicate HoldsGate() {
      !Idle? && !AskGate?
    }
  }

  datatype Owner = Free | ByWatcher(w: nat) | BySweeper(s: nat)

  datatype State = State(gate: Owner, permits: nat, event: bool, writer: Owner,
                         watchers: seq<Watcher>, sweepers: seq<Sweeper>)

  datatype Action = WatcherStep(i: nat) | SweeperStep(j: nat) | ShutdownStep(k: nat)

  function Initial(max: nat, n: nat, m: nat): State {
    State(Free, max, false, Free, seq(n, i => Watcher(Check, NotAsked, false, 0)), seq(m, j => Idle))
  }

  /** Waiting calls are enabled when the object they wait for is signaled; other steps always are. */
  predicate Enabled(max: nat, s: State, a: Action) {
    match a
    case WatcherStep(i) =>
      i < |s.watchers| && (
        match s.watchers[i].pc
        case WaitGate => s.gate.Free?
        case TakePermit => s.permits > 0
        case WaitEvent => s.event || s.watchers[i].TerminationEvent()
        case WaitWriter => s.writer.Free?
        case Stopped => false
        case _ => true)
    case SweeperStep(j) =>
      j < |s.sweepers| && (
        match s.sweepers[j]
        case AskGate => s.gate.Free?
        case Collect(taken) => taken >= max || s.permits > 0
        case _ => true)
    case ShutdownStep(k) =>
      k < |s.watchers| && (
        match s.watchers[k].shutdown
        case EventSet => s.watchers[k].pc.Stopped?
        case Joined => false
        case _ => true)
  }

  /** Releasing more permits than the semaphore's maximum allows fails and changes nothing. */
  function Released(max: nat, permits: nat, count: nat): nat {
    if permits + count <= max then permits + count else permits
  }

  function Step(max: nat, s: State, a: Action): State
    requires Enabled(max, s, a)
  {
    match a
    case WatcherStep(i) => StepWatcher(max, s, i)
    case SweeperStep(j) => StepSweeper(max, s, j)
    case ShutdownStep(k) => StepShutdown(s, k)
  }

  function At(s: State, i: nat, pc: WatcherPc): State
    requires i < |s.watchers|
  {
    s.(watchers := s.watchers[i := s.watchers[i].(pc := pc)])
  }

  /** The loop of WatchForSweepEvents. */
  function StepWatcher(max: nat, s: State, i: nat): State
    requires Enabled(max, s, WatcherStep(i))
  {
    var w := s.watchers[i];
    match w.pc
    case Check => At(s, i, if w.Terminating() then Stopped else WaitGate)
    case WaitGate => At(s, i, TakePermit).(gate := ByWatcher(i))
    case TakePermit => At(s, i, LeaveGate).(permits := s.permits - 1)
    case LeaveGate => At(s, i, WaitEvent).(gate := Free)
    case WaitEvent => At(s, i, WaitWriter)
    case WaitWriter => At(s, i, Decide).(writer := ByWatcher(i))
    case Decide =>
      if w.Terminating() then At(s, i, LeaveWriter)
      else s.(watchers := s.watchers[i := w.(pc := Writing, writes := w.writes + 1)])
    case Writing => At(s, i, LeaveWriter)
    case LeaveWriter => At(s, i, ReturnPermit).(writer := Free)
    case ReturnPermit => At(s, i, Check).(permits := Released(max, s.permits, 1))
    case Stopped => s
  }

  /** The history fields of every watcher at the moment the sweep event is set. */
  function Remember(watchers: seq<Watcher>): seq<Watcher> {
    seq(|watchers|, i requires 0 <= i < |watchers| =>
      watchers[i].(held := watchers[i].HoldsPermit(), writes := 0))
  }

  /** PerformSweep, which may be called again once it has returned. */
  function StepSweeper(max: nat, s: State, j: nat): State
    requires Enabled(max, s, SweeperStep(j))
  {
    match s.sweepers[j]
    case Idle => s.(sweepers := s.sweepers[j := AskGate])
    case AskGate => s.(sweepers := s.sweepers[j := RaiseEvent], gate := BySweeper(j))
    case RaiseEvent =>
      s.(sweepers := s.sweepers[j := Collect(0)], event := true, watchers := Remember(s.watchers))
    case Collect(taken) =>
      if taken < max then s.(sweepers := s.sweepers[j := Collect(taken + 1)], permits := s.permits - 1)
      else s.(sweepers := s.sweepers[j := LowerEvent], permits := Released(max, s.permits, max))
    case LowerEvent => s.(sweepers := s.sweepers[j := OpenGate], event := false)
    case OpenGate => s.(sweepers := s.sweepers[j := Idle], gate := Free)
  }

  /** ShutdownBBSweepThread: first the flag, then the event, then the wait for the thread. */
  function StepShutdown(s: State, k: nat): State
    requires k < |s.watchers|
  {
    var w := s.watchers[k];
    s.(watchers := s.watchers[k := w.(shutdown :=
      match w.shutdown
      case NotAsked => FlagSet
      case FlagSet => EventSet
      case _ => Joined)])
  }

  /** The state after a run of actions, if each was enabled when it was taken. */
  datatype Outcome = Disabled | Ran(state: State)

  function Execute(max: nat, s: State, actions: seq<Action>): Outcome
    decreases |actions|
  {
    if actions == [] then Ran(s)
    else if Enabled(max, s, actions[0]) then Execute(max, Step(max, s, actions[0]), actions[1..])
    else Disabled
  }

  /** Some run of `n` watchers and `m` sweepers leads to `s`. */
  ghost predicate Reachable(max: nat, n: nat, m: nat, s: State) {
    exists actions :: Execute(max, Initial(max, n, m), actions) == Ran(s)
  }

  lemma {:induction false} ExecuteConcat(max: nat, s: State, a: seq<Action>, b: seq<Action>)
    ensures Execute(max, s, a + b) ==
            match Execute(max, s, a)
            case Disabled => Disabled
            case Ran(t) => Execute(max, t, b)
    decreases |a|
  {
    if a == [] {
      assert a + b == b;
    } else {
      assert (a + b)[0] == a[0] && (a + b)[1..] == a[1..] + b;
      if Enabled(max, s, a[0]) {
        ExecuteConcat(max, Step(max, s, a[0]), a[1..], b);
      }
    }
  }
}
