/** The profiler as a whole: the call recorder and the object tracker behind one set of callbacks. */
module CoreProfiling {
  import opened Basics
  import opened CallForests
  import opened CallHistory
  import opened CallRecorder
  import opened CallStacks
  import opened GcFates
  import opened GcTracker
  import opened SortedMaps
  import Calls = CallSessions
  import Gc = GcModel
  import Records = CallRecords

  datatype Callback =
    | Call(c: Calls.Callback)
    | ObjectAllocated(objectId: int, threadId: int, size: Option<nat>, typeName: string, now: Stamp)
    | GarbageCollectionStarted
    | SurvivingReferences(ranges: seq<Gc.Range>)
    | GarbageCollectionFinished

  /** What is recorded with an allocation: the last call number given out on its thread belongs to it. */
  ghost function Described(s: Calls.Session, c: Callback): Gc.Allocation
    requires c.ObjectAllocated?
  {
    Gc.Allocation(c.objectId, c.threadId, if c.size.Some? then c.size.value else 0, c.typeName,
                  Calls.LastCallOf(s, c.threadId), c.now.wall, c.now.cpu)
  }

  /** What the call recorder gets to hear. */
  ghost function CallsOf(c: Callback): seq<Calls.Callback> {
    match c
    case Call(call) => [call]
    case ObjectAllocated(_, t, Some(_), _, _) => [Calls.Allocated(t)]
    case _ => []
  }

  /** What the object tracker gets to hear. */
  ghost function ObjectsOf(s: Calls.Session, c: Callback): seq<Gc.Callback> {
    match c
    case Call(_) => []
    case ObjectAllocated(_, _, size, _, _) => [Gc.Allocated(Described(s, c), size.Some?)]
    case GarbageCollectionStarted => [Gc.Started]
    case SurvivingReferences(ranges) => [Gc.Survived(ranges)]
    case GarbageCollectionFinished => [Gc.Finished]
  }

  ghost function CallsIn(cs: seq<Callback>): seq<Calls.Callback> {
    if cs == [] then [] else CallsIn(cs[..|cs| - 1]) + CallsOf(cs[|cs| - 1])
  }

  ghost function ObjectsIn(cs: seq<Callback>): seq<Gc.Callback> {
    if cs == [] then []
    else ObjectsIn(cs[..|cs| - 1]) + ObjectsOf(Calls.HeardAll(CallsIn(cs[..|cs| - 1])), cs[|cs| - 1])
  }

  class CoreProfiler {
    const recorder: Recorder
    const tracker: Tracker

    constructor (deallocEnable: bool)
      ensures fresh(recorder) && fresh(recorder.Repr) && fresh(tracker) && fresh(tracker.Repr)
      ensures Valid() && recorder.Seen() == Calls.START && tracker.Now() == Gc.START
      ensures tracker.isDeallocEnable == deallocEnable
    {
      recorder := new Recorder();
      tracker := new Tracker(deallocEnable);
    }

    ghost predicate Valid()
      reads recorder, recorder.Repr, tracker
    {
      recorder.Valid() && tracker.Valid()
    }

    /** The object is recorded with the last call number of its thread, if its size can be read. */
    method Allocate(objectId: int, threadId: int, size: Option<nat>, typeName: string, now: Stamp)
      requires Valid()
      modifies recorder`activeInThread, tracker
      ensures Valid() && fresh(tracker.Repr - old(tracker.Repr)) && old(tracker.Repr) <= tracker.Repr
      ensures recorder.Seen() == if size.Some? then Calls.Heard(old(recorder.Seen()), Calls.Allocated(threadId))
                                 else old(recorder.Seen())
      ensures var c := ObjectAllocated(objectId, threadId, size, typeName, now);
              tracker.Now() == Gc.AfterAllocated(old(tracker.Now()), Described(old(recorder.Seen()), c), size.Some?)
    {
      if size.Some? {
        var order := recorder.LastCall(threadId);
        var what := Gc.Allocation(objectId, threadId, size.value, typeName, order, now.wall, now.cpu);
        tracker.ObjectAllocated(what, true);
      }
    }

    method Handle(c: Callback) returns (crashed: bool)
      requires Valid()
      modifies recorder, recorder.Repr, tracker, tracker.Repr
      ensures Valid() && fresh(recorder.Repr - old(recorder.Repr)) && fresh(tracker.Repr - old(tracker.Repr))
      ensures recorder.Seen() == Calls.HeardFrom(old(recorder.Seen()), CallsOf(c))
      ensures var objects := ObjectsOf(old(recorder.Seen()), c);
              tracker.Now() == Gc.RunFrom(old(tracker.Now()), objects, tracker.isDeallocEnable)
      ensures crashed <==> c.Call? && Calls.Crashes(old(recorder.Seen()), c.c)
    {
      crashed := false;
      match c {
        case Call(call) =>
          crashed := recorder.Handle(call);
        case ObjectAllocated(objectId, threadId, size, typeName, now) =>
          Allocate(objectId, threadId, size, typeName, now);
        case GarbageCollectionStarted =>
          tracker.GarbageCollectionStarted();
        case SurvivingReferences(ranges) =>
          tracker.SurvivingReferences(ranges);
        case GarbageCollectionFinished =>
          tracker.GarbageCollectionFinished();
      }
    }
  }

  ghost predicate CrashesAt(cs: seq<Callback>, i: nat)
    requires i < |cs|
  {
    cs[i].Call? && Calls.Crashes(Calls.HeardAll(CallsIn(cs[..i])), cs[i].c)
  }

  lemma OneMore(cs: seq<Callback>, i: nat)
    requires i < |cs|
    ensures CallsIn(cs[..i + 1]) == CallsIn(cs[..i]) + CallsOf(cs[i])
    ensures ObjectsIn(cs[..i + 1]) == ObjectsIn(cs[..i]) + ObjectsOf(Calls.HeardAll(CallsIn(cs[..i])), cs[i])
  {
    assert cs[..i + 1][..i] == cs[..i];
  }

  /** A whole session: the calls, the names and the objects that are written follow from the callbacks. */
  method Run(cs: seq<Callback>, deallocEnable: bool, now: Stamp)
    returns (crashed: bool, lines: seq<Records.Line>, names: seq<(int, string)>, objects: seq<Gc.ObjectLine>)
    ensures crashed <==> exists i :: 0 <= i < |cs| && CrashesAt(cs, i)
    ensures !crashed ==>
              var s := Calls.HeardAll(CallsIn(cs));
              && lines == Records.Written(Sorted(s.threads), s.events, now)
              && names == Calls.NamesWritten(Sorted(s.functions.Keys), s.functions)
              && objects == Gc.LinesOf(Gc.Written(Gc.RunFrom(Gc.START, ObjectsIn(cs), deallocEnable)))
    ensures !crashed && ClocksRun(CallsIn(cs), now) ==> IsOutput(CallsIn(cs), now, lines, names)
    ensures !crashed ==> multiset(objects) == multiset(LinesFor(ObjectsIn(cs), |ObjectsIn(cs)|, deallocEnable))
  {
    var profiler := new CoreProfiler(deallocEnable);
    lines, names, objects := [], [], [];
    StartOfRun(deallocEnable);
    hide Calls.HeardFrom, Gc.RunFrom, CallsIn, ObjectsIn, CallsOf, ObjectsOf, Calls.Crashes, CrashesAt;
    hide Recorder.Valid, Recorder.Seen, Tracker.Valid, Tracker.Now, IsOutput, ClocksRun, LinesFor;
    for i := 0 to |cs|
      invariant fresh(profiler.recorder) && fresh(profiler.recorder.Repr)
      invariant fresh(profiler.tracker) && fresh(profiler.tracker.Repr)
      invariant profiler.Valid() && profiler.tracker.isDeallocEnable == deallocEnable
      invariant profiler.recorder.Seen() == Calls.HeardAll(CallsIn(cs[..i]))
      invariant profiler.tracker.Now() == Gc.RunFrom(Gc.START, ObjectsIn(cs[..i]), deallocEnable)
      invariant forall j :: 0 <= j < i ==> !CrashesAt(cs, j)
    {
      crashed := profiler.Handle(cs[i]);
      CrashesHere(cs, i);
      if crashed {
        return;
      }
      HeardOneMore(cs, i, deallocEnable);
    }
    assert cs[..|cs|] == cs;
    crashed := false;
    lines, names, objects := Finish(profiler, cs, now);
  }

  /** What is written after callbacks that did not crash. */
  method Finish(profiler: CoreProfiler, ghost cs: seq<Callback>, now: Stamp)
    returns (lines: seq<Records.Line>, names: seq<(int, string)>, objects: seq<Gc.ObjectLine>)
    requires profiler.Valid() && profiler.recorder.Seen() == Calls.HeardAll(CallsIn(cs))
    requires profiler.tracker.Now() == Gc.RunFrom(Gc.START, ObjectsIn(cs), profiler.tracker.isDeallocEnable)
    modifies profiler.recorder, profiler.recorder.Repr, profiler.tracker, profiler.tracker.Repr
    ensures var s := Calls.HeardAll(CallsIn(cs));
            && lines == Records.Written(Sorted(s.threads), s.events, now)
            && names == Calls.NamesWritten(Sorted(s.functions.Keys), s.functions)
    ensures var enabled := profiler.tracker.isDeallocEnable;
            && objects == Gc.LinesOf(Gc.Written(Gc.RunFrom(Gc.START, ObjectsIn(cs), enabled)))
            && multiset(objects) == multiset(LinesFor(ObjectsIn(cs), |ObjectsIn(cs)|, enabled))
    ensures ClocksRun(CallsIn(cs), now) ==> IsOutput(CallsIn(cs), now, lines, names)
  {
    hide Calls.HeardFrom, Gc.RunFrom, CallsIn, ObjectsIn, Recorder.Valid, Recorder.Seen, Tracker.Valid, Tracker.Now;
    hide IsOutput, ClocksRun, LinesFor, Records.Written, Calls.NamesWritten, Gc.Written, Gc.LinesOf;
    var log := profiler.recorder.Shutdown(now);
    lines, names := log.lines, log.names;
    objects := profiler.tracker.Shutdown();
    EveryLine(ObjectsIn(cs), profiler.tracker.isDeallocEnable);
    if ClocksRun(CallsIn(cs), now) {
      OutputIs(CallsIn(cs), now);
    }
  }

  lemma CrashesHere(cs: seq<Callback>, i: nat)
    requires i < |cs|
    ensures CrashesAt(cs, i) <==> cs[i].Call? && Calls.Crashes(Calls.HeardAll(CallsIn(cs[..i])), cs[i].c)
  {
  }

  lemma StartOfRun(enabled: bool)
    ensures CallsIn([]) == [] && ObjectsIn([]) == []
    ensures Calls.HeardAll([]) == Calls.START && Gc.RunFrom(Gc.START, [], enabled) == Gc.START
  {
  }

  lemma HeardOneMore(cs: seq<Callback>, i: nat, enabled: bool)
    requires i < |cs|
    ensures var s := Calls.HeardAll(CallsIn(cs[..i]));
            && Calls.HeardFrom(s, CallsOf(cs[i])) == Calls.HeardAll(CallsIn(cs[..i + 1]))
            && Gc.RunFrom(Gc.RunFrom(Gc.START, ObjectsIn(cs[..i]), enabled), ObjectsOf(s, cs[i]), enabled) ==
               Gc.RunFrom(Gc.START, ObjectsIn(cs[..i + 1]), enabled)
  {
    OneMore(cs, i);
    hide Calls.HeardFrom, Gc.RunFrom, CallsIn, ObjectsIn, CallsOf, ObjectsOf;
    var s := Calls.HeardAll(CallsIn(cs[..i]));
    Calls.HeardConcat(Calls.START, CallsIn(cs[..i]), CallsOf(cs[i]));
    Gc.RunConcat(Gc.START, ObjectsIn(cs[..i]), ObjectsOf(s, cs[i]), enabled);
  }

  // ----- what the parts hear, read off the callbacks by position

  /** The callbacks about calls. */
  ghost function CallbacksIn(cs: seq<Callback>): seq<Calls.Callback> {
    if cs == [] then []
    else
      var front, c := cs[..|cs| - 1], cs[|cs| - 1];
      if c.Call? then CallbacksIn(front) + [c.c] else CallbacksIn(front)
  }

  /** The callbacks about objects, counted. */
  ghost function ObjectCallbacks(cs: seq<Callback>): nat {
    if cs == [] then 0 else ObjectCallbacks(cs[..|cs| - 1]) + if cs[|cs| - 1].Call? then 0 else 1
  }

  /** A recorded allocation makes no entry for a function and enters nothing. */
  lemma AllocatedEntersNothing(calls: seq<Calls.Callback>, t: int, u: int, f: int)
    ensures var more := calls + [Calls.Allocated(t)];
            && EnteredOn(more, u) == EnteredOn(calls, u)
            && (Mentioned(more, f) <==> Mentioned(calls, f)) && (MappedIn(more, f) <==> MappedIn(calls, f))
  {
    MentionedMore(calls, Calls.Allocated(t), f);
    MappedMore(calls, Calls.Allocated(t), f, "");
    EnteredMore(calls, Calls.Allocated(t), u);
  }

  /** Allocations apart, the recorder hears the callbacks about calls. */
  lemma {:induction false} CallsHeard(cs: seq<Callback>, t: int, f: int)
    ensures EnteredOn(CallsIn(cs), t) == EnteredOn(CallbacksIn(cs), t)
    ensures Mentioned(CallsIn(cs), f) <==> Mentioned(CallbacksIn(cs), f)
    ensures MappedIn(CallsIn(cs), f) <==> MappedIn(CallbacksIn(cs), f)
  {
    if cs != [] {
      var front, c := cs[..|cs| - 1], cs[|cs| - 1];
      CallsHeard(front, t, f);
      if c.Call? {
        if IsEnter(c.c) {
          CallsHeard(front, t, c.c.functionId);
        }
        OneCallHeard(CallsIn(front), CallbacksIn(front), c.c, t, f);
      } else if c.ObjectAllocated? && c.size.Some? {
        AllocatedEntersNothing(CallsIn(front), c.threadId, t, f);
      } else {
        assert CallsIn(front) + [] == CallsIn(front);
      }
    }
  }

  lemma OneCallHeard(a: seq<Calls.Callback>, b: seq<Calls.Callback>, c: Calls.Callback, t: int, f: int)
    requires EnteredOn(a, t) == EnteredOn(b, t)
    requires Mentioned(a, f) <==> Mentioned(b, f)
    requires MappedIn(a, f) <==> MappedIn(b, f)
    requires IsEnter(c) ==> (MappedIn(a, c.functionId) <==> MappedIn(b, c.functionId))
    ensures EnteredOn(a + [c], t) == EnteredOn(b + [c], t)
    ensures Mentioned(a + [c], f) <==> Mentioned(b + [c], f)
    ensures MappedIn(a + [c], f) <==> MappedIn(b + [c], f)
  {
    MentionedMore(a, c, f);
    MentionedMore(b, c, f);
    MappedMore(a, c, f, "");
    MappedMore(b, c, f, "");
    EnteredMore(a, c, t);
    EnteredMore(b, c, t);
    hide EnteredOn, Mentioned, MappedIn, MappedAs;
  }

  /** The recorded enters of a thread before the `i`-th callback. */
  ghost function EnteredBefore(cs: seq<Callback>, i: nat, t: int): seq<(int, Stamp)>
    requires i <= |cs|
  {
    EnteredOn(CallbacksIn(cs[..i]), t)
  }

  /** What the tracker is told at the `i`-th callback. An allocation is attributed to the last recorded
      enter on its thread, whose number is one less than how many there were. */
  ghost function ToldAt(cs: seq<Callback>, i: nat): Gc.Callback
    requires i < |cs| && !cs[i].Call?
  {
    match cs[i]
    case ObjectAllocated(objectId, threadId, size, typeName, now) =>
      var entered := |EnteredBefore(cs, i, threadId)|;
      var order := if entered == 0 then None else Some(entered - 1);
      var bytes := if size.Some? then size.value else 0;
      Gc.Allocated(Gc.Allocation(objectId, threadId, bytes, typeName, order, now.wall, now.cpu), size.Some?)
    case GarbageCollectionStarted => Gc.Started
    case SurvivingReferences(ranges) => Gc.Survived(ranges)
    case _ => Gc.Finished
  }

  /** The tracker is told of the `i`-th callback in its place. */
  ghost predicate HeardInPlace(cs: seq<Callback>, i: nat)
    requires i < |cs| && !cs[i].Call?
  {
    var place := ObjectCallbacks(cs[..i]);
    place < |ObjectsIn(cs)| && ObjectsIn(cs)[place] == ToldAt(cs, i)
  }

  /** The tracker hears one callback for each that is about objects, in order. */
  ghost predicate AllInPlace(cs: seq<Callback>) {
    && |ObjectsIn(cs)| == ObjectCallbacks(cs)
    && forall i :: 0 <= i < |cs| && !cs[i].Call? ==> HeardInPlace(cs, i)
  }

  lemma {:induction false} ObjectsHeard(cs: seq<Callback>)
    ensures AllInPlace(cs)
  {
    if cs != [] {
      ObjectsHeard(cs[..|cs| - 1]);
      OneObjectMore(cs);
      hide *;
      OneMoreInPlace(cs);
    }
  }

  lemma OneMoreInPlace(cs: seq<Callback>)
    requires cs != [] && AllInPlace(cs[..|cs| - 1])
    requires var front, c := cs[..|cs| - 1], cs[|cs| - 1];
             && ObjectCallbacks(cs) == ObjectCallbacks(front) + (if c.Call? then 0 else 1)
             && ObjectsIn(cs) == ObjectsIn(front) + if c.Call? then [] else [ToldAt(cs, |cs| - 1)]
    ensures AllInPlace(cs)
  {
    hide ObjectCallbacks, ObjectsIn, ToldAt, HeardInPlace;
    var front := cs[..|cs| - 1];
    forall i | 0 <= i < |cs| && !cs[i].Call? ensures HeardInPlace(cs, i) {
      if i < |front| {
        assert front[i] == cs[i];
        StaysInPlace(cs, i);
      } else {
        LastInPlace(cs);
      }
    }
  }

  lemma StaysInPlace(cs: seq<Callback>, i: nat)
    requires i < |cs| - 1 && !cs[i].Call?
    requires HeardInPlace(cs[..|cs| - 1], i) && ObjectsIn(cs[..|cs| - 1]) <= ObjectsIn(cs)
    ensures HeardInPlace(cs, i)
  {
    hide ObjectsIn, ObjectCallbacks, CallbacksIn, EnteredOn;
    assert cs[..|cs| - 1][..i] == cs[..i];
  }

  lemma LastInPlace(cs: seq<Callback>)
    requires cs != [] && !cs[|cs| - 1].Call?
    requires ObjectsIn(cs) == ObjectsIn(cs[..|cs| - 1]) + [ToldAt(cs, |cs| - 1)]
    requires |ObjectsIn(cs[..|cs| - 1])| == ObjectCallbacks(cs[..|cs| - 1])
    ensures HeardInPlace(cs, |cs| - 1)
  {
    hide ObjectsIn, ObjectCallbacks, ToldAt;
  }

  lemma OneObjectMore(cs: seq<Callback>)
    requires cs != []
    ensures var front, c := cs[..|cs| - 1], cs[|cs| - 1];
            && ObjectCallbacks(cs) == ObjectCallbacks(front) + (if c.Call? then 0 else 1)
            && ObjectsIn(cs) == ObjectsIn(front) + if c.Call? then [] else [ToldAt(cs, |cs| - 1)]
  {
    var front, c := cs[..|cs| - 1], cs[|cs| - 1];
    if c.ObjectAllocated? {
      CallsHeard(front, c.threadId, 0);
      LastCallIff(CallsIn(front), c.threadId);
    }
    LastHeard(cs);
    hide ObjectsOf, ToldAt, Calls.LastCallOf, Calls.HeardFrom, CallsIn;
  }

  lemma LastHeard(cs: seq<Callback>)
    requires cs != []
    requires var c := cs[|cs| - 1]; c.ObjectAllocated? ==>
               var front := cs[..|cs| - 1];
               var entered := |EnteredOn(CallbacksIn(front), c.threadId)|;
               Calls.LastCallOf(Calls.HeardAll(CallsIn(front)), c.threadId) ==
               if entered == 0 then None else Some(entered - 1)
    ensures ObjectsOf(Calls.HeardAll(CallsIn(cs[..|cs| - 1])), cs[|cs| - 1]) ==
            if cs[|cs| - 1].Call? then [] else [ToldAt(cs, |cs| - 1)]
  {
    hide Calls.HeardFrom, Calls.LastCallOf, EnteredOn, CallsIn, CallbacksIn;
  }

  /** The callbacks that reach the recorder: those about calls, and allocations of a known size, which look
      up the thread's active call. */
  predicate ReachesRecorder(c: Callback) {
    c.Call? || (c.ObjectAllocated? && c.size.Some?)
  }

  ghost function RecorderCallbacks(cs: seq<Callback>): nat {
    if cs == [] then 0 else RecorderCallbacks(cs[..|cs| - 1]) + if ReachesRecorder(cs[|cs| - 1]) then 1 else 0
  }

  ghost predicate CallInPlace(cs: seq<Callback>, i: nat)
    requires i < |cs| && ReachesRecorder(cs[i])
  {
    var place := RecorderCallbacks(cs[..i]);
    place < |CallsIn(cs)| && CallsIn(cs)[place] == if cs[i].Call? then cs[i].c else Calls.Allocated(cs[i].threadId)
  }

  /** The recorder hears one callback for each that reaches it, in order. */
  ghost predicate AllCallsInPlace(cs: seq<Callback>) {
    && |CallsIn(cs)| == RecorderCallbacks(cs)
    && forall i :: 0 <= i < |cs| && ReachesRecorder(cs[i]) ==> CallInPlace(cs, i)
  }

  lemma {:induction false} CallsHeardInPlace(cs: seq<Callback>)
    ensures AllCallsInPlace(cs)
  {
    if cs != [] {
      var front := cs[..|cs| - 1];
      CallsHeardInPlace(front);
      forall i | 0 <= i < |cs| && ReachesRecorder(cs[i]) ensures CallInPlace(cs, i) {
        if i < |front| {
          assert front[..i] == cs[..i] && CallInPlace(front, i);
        }
      }
    }
  }

  /** An allocation of a known size on the thread came before the `i`-th callback. */
  predicate AllocatedBefore(cs: seq<Callback>, i: nat, t: int)
    requires i <= |cs|
  {
    exists j :: 0 <= j < i && ReachesRecorder(cs[j]) &&
      if cs[j].Call? then cs[j].c == Calls.Allocated(t) else cs[j].threadId == t
  }

  lemma {:induction false} AllocationsHeard(cs: seq<Callback>, t: int)
    ensures AllocatedOn(CallsIn(cs), t) <==> AllocatedBefore(cs, |cs|, t)
  {
    if cs != [] {
      var front, c := cs[..|cs| - 1], cs[|cs| - 1];
      AllocationsHeard(front, t);
      assert forall j :: 0 <= j < |front| ==> front[j] == cs[j];
      if c.Call? {
        AllocatedMore(CallsIn(front), c.c, t);
      } else if c.ObjectAllocated? && c.size.Some? {
        AllocatedMore(CallsIn(front), Calls.Allocated(c.threadId), t);
      } else {
        assert CallsIn(front) + [] == CallsIn(front);
      }
    }
  }

  /** The profiler crashes exactly at a leave on a thread that has allocated and has no recorded enter. */
  lemma CrashesAtIff(cs: seq<Callback>, i: nat)
    requires i < |cs|
    ensures CrashesAt(cs, i) <==>
            cs[i].Call? &&
            exists t :: LeavesOn(cs[i].c, t) && EnteredBefore(cs, i, t) == [] && AllocatedBefore(cs, i, t)
  {
    if cs[i].Call? {
      var calls, c := CallsIn(cs[..i]), cs[i].c;
      assert (calls + [c])[..|calls|] == calls && (calls + [c])[|calls|] == c;
      CrashesIff(calls + [c], |calls|);
      forall t | true
        ensures FollowsNull(calls + [c], |calls|, t) <==>
                LeavesOn(c, t) && EnteredBefore(cs, i, t) == [] && AllocatedBefore(cs, i, t)
      {
        CallsHeard(cs[..i], t, 0);
        AllocationsHeard(cs[..i], t);
        AllocatedInPrefix(cs, i, t);
      }
    }
  }

  lemma AllocatedInPrefix(cs: seq<Callback>, i: nat, t: int)
    requires i <= |cs|
    ensures AllocatedBefore(cs[..i], i, t) <==> AllocatedBefore(cs, i, t)
  {
    assert forall j :: 0 <= j < i ==> cs[..i][j] == cs[j];
  }

  /** The number written with an object is that of the line, in the same output, of the last call entered
      on its thread before it was allocated. */
  lemma AllocationsNameLines(cs: seq<Callback>, i: nat, now: Stamp)
    requires i < |cs| && cs[i].ObjectAllocated? && EnteredBefore(cs, i, cs[i].threadId) != []
    requires (forall c :: c in CallsIn(cs) ==> Calls.ClockPositive(c)) && !now.Unset()
    ensures var s, entered := Calls.HeardAll(CallsIn(cs)), EnteredBefore(cs, i, cs[i].threadId);
            var lines := Records.OfThread(Records.Written(Sorted(s.threads), s.events, now), cs[i].threadId);
            var order := ToldAt(cs, i).what.functionNumOrder;
            && order.Some? && 0 <= order.value < |lines|
            && var record := lines[order.value].record;
               record.number == order.value && (record.funcId, record.enter) == entered[|entered| - 1]
  {
    hide *;
    var t := cs[i].threadId;
    LinesListEnters(CallsIn(cs), now, t);
    CallsHeard(cs, t, 0);
    EnteredPrefix(cs, i, t);
    var s := Calls.HeardAll(CallsIn(cs));
    var lines := Records.OfThread(Records.Written(Sorted(s.threads), s.events, now), t);
    LineOfEnter(t, lines, EnteredOn(CallbacksIn(cs), t), EnteredBefore(cs, i, t));
    NumberTold(cs, i);
  }

  lemma NumberTold(cs: seq<Callback>, i: nat)
    requires i < |cs| && cs[i].ObjectAllocated? && EnteredBefore(cs, i, cs[i].threadId) != []
    ensures ToldAt(cs, i).Allocated?
    ensures ToldAt(cs, i).what.functionNumOrder == Some(|EnteredBefore(cs, i, cs[i].threadId)| - 1)
  {
  }

  lemma LineOfEnter(t: int, lines: seq<Records.Line>, all: seq<(int, Stamp)>, entered: seq<(int, Stamp)>)
    requires Records.WellNumbered(lines) && Records.OnePerEnter(t, lines, all) && entered <= all && entered != []
    ensures var order := |entered| - 1;
            && order < |lines| && lines[order].record.number == order
            && (lines[order].record.funcId, lines[order].record.enter) == entered[order]
  {
    assert Records.WellNumberedAt(lines, |entered| - 1);
  }

  lemma {:induction false} EnteredPrefix(cs: seq<Callback>, i: nat, t: int)
    requires i <= |cs|
    ensures EnteredBefore(cs, i, t) <= EnteredOn(CallbacksIn(cs), t)
    decreases |cs|
  {
    if i == |cs| {
      assert cs[..i] == cs;
    } else {
      var front, c := cs[..|cs| - 1], cs[|cs| - 1];
      assert front[..i] == cs[..i];
      EnteredPrefix(front, i, t);
      if c.Call? {
        EnteredMore(CallbacksIn(front), c.c, t);
      }
    }
  }
}
