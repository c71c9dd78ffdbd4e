/** What the profiler has heard from its callbacks, and what it writes at shutdown because of it. */
module CallSessions {
  import opened Basics
  import opened CallTrees
  import opened CallForests
  import opened CallRecords
  import opened SortedMaps

  datatype Info = NoInfo | Info(name: string)

  /** The callbacks that reach the call recorder. A recorded allocation looks up the thread's active call. */
  datatype Callback =
    | Mapped(functionId: int, name: string, allowed: bool)
    | Entered(functionId: int, threadId: int, now: Stamp)
    | Left(functionId: int, threadId: int, now: Stamp)
    | TailCalled(functionId: int, threadId: int, now: Stamp)
    | UnwindEntered(functionId: int, threadId: int, now: Stamp)
    | UnwindLeft(threadId: int, now: Stamp)
    | Allocated(threadId: int)

  /** The functions asked for so far, the threads in the map of active calls, and each thread's events. */
  datatype Session = Session(functions: map<int, Info>, threads: set<int>, events: map<int, seq<Event>>)

  const START := Session(map[], {}, map[])

  /** One more event on one thread. */
  ghost function Extended(events: map<int, seq<Event>>, t: int, e: Event): map<int, seq<Event>> {
    events[t := EventsOf(events, t) + [e]]
  }

  /** Asking for a function that was not mapped leaves an empty entry, which a later mapping keeps. */
  ghost function AfterMapping(s: Session, functionId: int, name: string, allowed: bool): Session {
    if allowed && functionId !in s.functions then s.(functions := s.functions[functionId := Info(name)]) else s
  }

  ghost function AfterEntering(s: Session, functionId: int, threadId: int, now: Stamp): Session {
    var functions := if functionId in s.functions then s.functions else s.functions[functionId := NoInfo];
    if functions[functionId].Info?
    then Session(functions, s.threads + {threadId}, Extended(s.events, threadId, Enter(functionId, now)))
    else s.(functions := functions)
  }

  ghost function AfterLeaving(s: Session, threadId: int, now: Stamp): Session {
    if threadId in s.events then s.(events := Extended(s.events, threadId, Leave(now))) else s
  }

  /** The last number given out on a thread: numbers count its enters from 0. */
  ghost function LastNumber(events: seq<Event>): int {
    |Enters(events)| - 1
  }

  ghost function LastCallOf(s: Session, t: int): Option<int> {
    if t in s.events then Some(LastNumber(s.events[t])) else None
  }

  ghost function Heard(s: Session, c: Callback): Session {
    match c
    case Mapped(f, name, allowed) => AfterMapping(s, f, name, allowed)
    case Entered(f, t, now) => if f == 0 then s else AfterEntering(s, f, t, now)
    case UnwindEntered(f, t, now) => if f == 0 then s else AfterEntering(s, f, t, now)
    case Left(f, t, now) => if f == 0 then s else AfterLeaving(s, t, now)
    case TailCalled(f, t, now) => if f == 0 then s else AfterLeaving(s, t, now)
    case UnwindLeft(t, now) => AfterLeaving(s, t, now)
    case Allocated(t) => s.(threads := s.threads + {t})
  }

  /** A leave on a thread that is in the map without a record makes the callback follow a null pointer. */
  ghost predicate LeavesNothing(s: Session, threadId: int) {
    threadId in s.threads && threadId !in s.events
  }

  ghost predicate Crashes(s: Session, c: Callback) {
    match c
    case Left(f, t, _) => f != 0 && LeavesNothing(s, t)
    case TailCalled(f, t, _) => f != 0 && LeavesNothing(s, t)
    case UnwindLeft(t, _) => LeavesNothing(s, t)
    case _ => false
  }

  ghost function HeardFrom(s: Session, callbacks: seq<Callback>): Session {
    if callbacks == [] then s
    else Heard(HeardFrom(s, callbacks[..|callbacks| - 1]), callbacks[|callbacks| - 1])
  }

  ghost function HeardAll(callbacks: seq<Callback>): Session {
    HeardFrom(START, callbacks)
  }

  lemma {:induction false} HeardConcat(s: Session, a: seq<Callback>, b: seq<Callback>)
    ensures HeardFrom(s, a + b) == HeardFrom(HeardFrom(s, a), b)
    decreases |b|
  {
    if b == [] {
      assert a + b == a;
    } else {
      assert (a + b)[..|a + b| - 1] == a + b[..|b| - 1];
      HeardConcat(s, a, b[..|b| - 1]);
    }
  }

  ghost predicate CrashesAlong(callbacks: seq<Callback>) {
    exists i :: 0 <= i < |callbacks| && CrashesAt(callbacks, i)
  }

  ghost predicate CrashesAt(callbacks: seq<Callback>, i: nat)
    requires i < |callbacks|
  {
    Crashes(HeardAll(callbacks[..i]), callbacks[i])
  }

  ghost predicate ClockPositive(c: Callback) {
    match c
    case Entered(_, _, now) => !now.Unset()
    case UnwindEntered(_, _, now) => !now.Unset()
    case Left(_, _, now) => !now.Unset()
    case TailCalled(_, _, now) => !now.Unset()
    case UnwindLeft(_, now) => !now.Unset()
    case _ => true
  }

  ghost predicate SessionValid(s: Session) {
    && s.events.Keys <= s.threads
    && forall t :: t in s.events ==> ClocksPositive(s.events[t])
  }

  lemma HeardKeepsValid(s: Session, c: Callback)
    requires SessionValid(s) && ClockPositive(c)
    ensures SessionValid(Heard(s, c))
  {
  }

  lemma {:induction false} HeardAllValid(callbacks: seq<Callback>)
    requires forall c :: c in callbacks ==> ClockPositive(c)
    ensures SessionValid(HeardAll(callbacks))
  {
    if callbacks != [] {
      HeardAllValid(callbacks[..|callbacks| - 1]);
      HeardKeepsValid(HeardAll(callbacks[..|callbacks| - 1]), callbacks[|callbacks| - 1]);
    }
  }

  /** Whatever the callbacks, in whatever interleaving, a thread's lines in the output are one per mapped
      call that entered on it, in the order they entered, numbered 0, 1, ..., n, each below an earlier one
      and one deeper than it, and each with a leave time. */
  lemma EveryThreadWritten(callbacks: seq<Callback>, now: Stamp, t: int)
    requires (forall c :: c in callbacks ==> ClockPositive(c)) && !now.Unset()
    ensures var s := HeardAll(callbacks);
            var lines := OfThread(Written(Sorted(s.threads), s.events, now), t);
            && WellNumbered(lines) && OnePerEnter(t, lines, Enters(EventsOf(s.events, t)))
            && forall k :: 0 <= k < |lines| ==> !lines[k].record.leave.Unset()
  {
    var s := HeardAll(callbacks);
    HeardAllValid(callbacks);
    WrittenOfThread(Sorted(s.threads), s.events, now, t);
    ThreadLinesComplete(t, EventsOf(s.events, t), now);
  }

  // ----- the table of names

  /** The names of the mapped functions among the ids. */
  ghost function NamesWritten(ids: seq<int>, functions: map<int, Info>): seq<(int, string)> {
    if ids == [] then []
    else
      var id := Last(ids);
      NamesWritten(Front(ids), functions) +
      if id in functions && functions[id].Info? then [(id, functions[id].name)] else []
  }

  lemma {:induction false} NamesOfMapped(ids: seq<int>, functions: map<int, Info>, f: int, name: string)
    ensures (f, name) in NamesWritten(ids, functions) <==> f in ids && f in functions && functions[f] == Info(name)
    decreases |ids|
  {
    if ids != [] {
      NamesOfMapped(Front(ids), functions, f, name);
      assert f in ids <==> f in Front(ids) || f == Last(ids);
    }
  }

  /** Every call was entered by a mapped function, and it stays mapped. */
  ghost predicate EntersMapped(s: Session) {
    forall t, e :: t in s.events && e in s.events[t] && e.Enter? ==> IsMapped(s.functions, e.funcId)
  }

  ghost predicate IsMapped(functions: map<int, Info>, f: int) {
    f in functions && functions[f].Info?
  }

  lemma {:induction false} HeardAllMapped(callbacks: seq<Callback>)
    ensures EntersMapped(HeardAll(callbacks))
  {
    if callbacks != [] {
      HeardAllMapped(callbacks[..|callbacks| - 1]);
    }
  }

  lemma {:induction false} EntersAreEvents(events: seq<Event>, k: nat)
    requires k < |Enters(events)|
    ensures exists e :: e in events && e.Enter? && e.funcId == Enters(events)[k].0
    decreases |events|
  {
    if k < |Enters(Front(events))| {
      EntersAreEvents(Front(events), k);
      var e :| e in Front(events) && e.Enter? && e.funcId == Enters(events)[k].0;
      assert e in events;
    } else {
      assert Last(events) in events;
    }
  }

  /** Every function of a written call is in the table of names that follows. */
  lemma EveryCallNamed(callbacks: seq<Callback>, now: Stamp, t: int, k: nat)
    requires (forall c :: c in callbacks ==> ClockPositive(c)) && !now.Unset()
    requires k < |OfThread(Written(Sorted(HeardAll(callbacks).threads), HeardAll(callbacks).events, now), t)|
    ensures var s := HeardAll(callbacks);
            var line := OfThread(Written(Sorted(s.threads), s.events, now), t)[k];
            exists name :: (line.record.funcId, name) in NamesWritten(Sorted(s.functions.Keys), s.functions)
  {
    var s := HeardAll(callbacks);
    var events := EventsOf(s.events, t);
    EveryThreadWritten(callbacks, now, t);
    var f := OfThread(Written(Sorted(s.threads), s.events, now), t)[k].record.funcId;
    assert f == Enters(events)[k].0;
    hide Written, OfThread, WellNumbered, HeardAll;
    EntersAreEvents(events, k);
    HeardAllMapped(callbacks);
    assert IsMapped(s.functions, f);
    NamesOfMapped(Sorted(s.functions.Keys), s.functions, f, s.functions[f].name);
  }
}
