/** Callbacks as a runtime makes them: calls that enter and leave in any of the possible ways. */
module CallRuns {
  import opened Basics
  import opened CallTrees
  import opened CallForests
  import opened CallRecords
  import opened CallSessions
  import opened CallHistory
  import opened SortedMaps

  datatype Ending = Returns | TailCalls | Unwinds

  /** One call on a thread, whether it is entered by an exception handler, and how it ends. */
  datatype Played = Played(call: Call, handler: bool, ending: Ending) {
    function First(tid: int): Callback {
      if handler then UnwindEntered(call.funcId, tid, call.enter) else Entered(call.funcId, tid, call.enter)
    }

    function Final(tid: int): Callback {
      match ending
      case Returns => Left(call.funcId, tid, call.leave)
      case TailCalls => TailCalled(call.funcId, tid, call.leave)
      case Unwinds => UnwindLeft(tid, call.leave)
    }
  }

  function CallIn(p: Played): Call {
    p.call
  }

  /** The callbacks of one call: it enters, makes its calls, and leaves. */
  function CallbacksOf(t: Tree<Played>, tid: int): seq<Callback> {
    [t.item.First(tid)] + CallbacksOfAll(t.calls, tid) + [t.item.Final(tid)]
  }

  function CallbacksOfAll(ts: seq<Tree<Played>>, tid: int): seq<Callback> {
    if ts == [] then [] else CallbacksOfAll(Front(ts), tid) + CallbacksOf(Last(ts), tid)
  }

  // ----- one thread among others

  predicate IsOn(c: Callback, tid: int) {
    (IsEnter(c) || IsLeave(c)) && c.threadId == tid
  }

  /** The enters and leaves of one thread. */
  ghost function OnThread(cs: seq<Callback>, tid: int): seq<Callback> {
    if cs == [] then [] else OnThread(Front(cs), tid) + if IsOn(Last(cs), tid) then [Last(cs)] else []
  }

  /** The enters on the thread are of functions mapped before; leaves with an id have one. */
  ghost predicate MappedOn(cs: seq<Callback>, tid: int) {
    forall i :: 0 <= i < |cs| && IsOn(cs[i], tid) ==>
      (IsEnter(cs[i]) ==> Records(cs[..i], cs[i], tid)) && (cs[i].UnwindLeft? || cs[i].functionId != 0)
  }

  function AsEvent(c: Callback): Event
    requires IsEnter(c) || IsLeave(c)
  {
    if IsEnter(c) then Enter(c.functionId, c.now) else Leave(c.now)
  }

  ghost function AsEvents(cs: seq<Callback>): seq<Event>
    requires forall c :: c in cs ==> IsEnter(c) || IsLeave(c)
  {
    seq(|cs|, i requires 0 <= i < |cs| => AsEvent(cs[i]))
  }

  ghost predicate AllOnThread(cs: seq<Callback>, tid: int) {
    forall c :: c in cs ==> IsOn(c, tid)
  }

  lemma {:induction false} AllOn(cs: seq<Callback>, tid: int)
    ensures AllOnThread(OnThread(cs, tid), tid)
  {
    if cs != [] {
      AllOn(Front(cs), tid);
    }
  }

  lemma {:induction false} PrefixOn(cs: seq<Callback>, i: nat, tid: int)
    requires i <= |cs|
    ensures OnThread(cs[..i], tid) <= OnThread(cs, tid)
    ensures i < |cs| && IsOn(cs[i], tid) ==> OnThread(cs[..i], tid) + [cs[i]] <= OnThread(cs, tid)
    decreases |cs|
  {
    if i == |cs| {
      assert cs[..i] == cs;
    } else {
      PrefixOn(Front(cs), i, tid);
      assert Front(cs)[..i] == cs[..i];
    }
  }

  ghost predicate BeginsWithEnter(cs: seq<Callback>) {
    cs != [] ==> IsEnter(cs[0])
  }

  /** What is recorded for such a thread are its enters and leaves. */
  lemma {:induction false} ThreadHeard(cs: seq<Callback>, tid: int)
    requires MappedOn(cs, tid) && BeginsWithEnter(OnThread(cs, tid))
    ensures AllOnThread(OnThread(cs, tid), tid) && EventsOn(cs, tid) == AsEvents(OnThread(cs, tid))
    ensures EnteredOn(cs, tid) != [] <==> OnThread(cs, tid) != []
    decreases |cs|
  {
    AllOn(cs, tid);
    if cs != [] {
      var front, c := Front(cs), Last(cs);
      assert forall i :: 0 <= i < |front| ==> front[i] == cs[i] && front[..i] == cs[..i];
      assert MappedOn(front, tid);
      PrefixOn(cs, |front|, tid);
      ThreadHeard(front, tid);
      OnThreadMore(front, c, tid);
      RecordedNext(cs, tid);
      hide *;
    }
  }

  lemma OnThreadMore(cs: seq<Callback>, c: Callback, tid: int)
    requires AllOnThread(OnThread(cs + [c], tid), tid)
    ensures OnThread(cs + [c], tid) == OnThread(cs, tid) + if IsOn(c, tid) then [c] else []
    ensures AllOnThread(OnThread(cs, tid), tid)
    ensures IsOn(c, tid) ==> AsEvents(OnThread(cs + [c], tid)) == AsEvents(OnThread(cs, tid)) + [AsEvent(c)]
  {
    AllOn(cs, tid);
    assert Front(cs + [c]) == cs && Last(cs + [c]) == c;
  }

  lemma RecordedNext(cs: seq<Callback>, tid: int)
    requires cs != [] && MappedOn(cs, tid) && BeginsWithEnter(OnThread(cs, tid))
    requires EnteredOn(Front(cs), tid) != [] <==> OnThread(Front(cs), tid) != []
    ensures EventsOn(cs, tid) == EventsOn(Front(cs), tid) + if IsOn(Last(cs), tid) then [AsEvent(Last(cs))] else []
    ensures EnteredOn(cs, tid) != [] <==> EnteredOn(Front(cs), tid) != [] || IsOn(Last(cs), tid)
  {
    var front, c := Front(cs), Last(cs);
    assert IsOn(c, tid) && IsEnter(c) ==> Records(front, c, tid);
    assert IsOn(c, tid) && OnThread(front, tid) == [] ==> OnThread(cs, tid) == [c];
    hide MappedIn;
  }

  /** No enter or leave of such a thread crashes. */
  lemma ThreadDoesNotCrash(cs: seq<Callback>, tid: int, i: nat)
    requires MappedOn(cs, tid) && BeginsWithEnter(OnThread(cs, tid))
    requires i < |cs| && IsOn(cs[i], tid)
    ensures !CrashesAt(cs, i)
  {
    var before := cs[..i];
    assert forall j :: 0 <= j < i ==> before[j] == cs[j] && before[..j] == cs[..j];
    assert MappedOn(before, tid);
    PrefixOn(cs, i, tid);
    ThreadHeard(before, tid);
    assert IsLeave(cs[i]) ==> OnThread(before, tid) != [];
    CrashesIff(cs, i);
  }

  // ----- the events of a forest

  lemma AsEventsConcat(a: seq<Callback>, b: seq<Callback>)
    requires forall c :: c in a + b ==> IsEnter(c) || IsLeave(c)
    ensures (forall c :: c in a ==> c in a + b) && (forall c :: c in b ==> c in a + b)
    ensures AsEvents(a + b) == AsEvents(a) + AsEvents(b)
  {
    assert forall c :: c in a ==> c in a + b;
    assert forall c :: c in b ==> c in a + b;
  }

  lemma {:induction false} CallbacksAreEvents(t: Tree<Played>, tid: int)
    ensures AllOnThread(CallbacksOf(t, tid), tid) && BeginsWithEnter(CallbacksOf(t, tid))
    ensures AsEvents(CallbacksOf(t, tid)) == Events(Map(t, CallIn))
    decreases t, 1
  {
    CallbacksAllAreEvents(t.calls, tid);
    var first, calls, final := [t.item.First(tid)], CallbacksOfAll(t.calls, tid), [t.item.Final(tid)];
    AsEventsConcat(first, calls);
    AsEventsConcat(first + calls, final);
  }

  lemma {:induction false} CallbacksAllAreEvents(ts: seq<Tree<Played>>, tid: int)
    ensures AllOnThread(CallbacksOfAll(ts, tid), tid) && BeginsWithEnter(CallbacksOfAll(ts, tid))
    ensures AsEvents(CallbacksOfAll(ts, tid)) == EventsAll(MapAll(ts, CallIn))
    ensures ts != [] ==> CallbacksOfAll(ts, tid) != []
    decreases ts, 0
  {
    if ts != [] {
      CallbacksAllAreEvents(Front(ts), tid);
      CallbacksAreEvents(Last(ts), tid);
      AsEventsConcat(CallbacksOfAll(Front(ts), tid), CallbacksOf(Last(ts), tid));
      hide CallbacksOf, Events, Map;
      EventsPush(MapAll(Front(ts), CallIn), Map(Last(ts), CallIn));
    }
  }

  lemma EventsPush(ts: seq<Tree<Call>>, t: Tree<Call>)
    ensures EventsAll(ts + [t]) == EventsAll(ts) + Events(t)
  {
    assert Front(ts + [t]) == ts;
  }

  // ----- the lines of a tree of calls

  /** The lines of a call and those it makes, in preorder: numbers count them, every line names its caller
      and is one deeper than it. */
  function Spelled(t: Tree<Call>, tid: int, number: nat, depth: nat, parent: Parent): seq<Line> {
    [Line(Record(t.item.funcId, tid, number, depth, t.item.enter, t.item.leave), parent)] +
    SpelledAll(t.calls, tid, number + 1, depth + 1, CalledBy(number))
  }

  function SpelledAll(ts: seq<Tree<Call>>, tid: int, number: nat, depth: nat, parent: Parent): seq<Line> {
    if ts == [] then []
    else
      var before := SpelledAll(Front(ts), tid, number, depth, parent);
      before + Spelled(Last(ts), tid, number + |before|, depth, parent)
  }

  lemma SpelledPush(ts: seq<Tree<Call>>, t: Tree<Call>, tid: int, number: nat, depth: nat, parent: Parent)
    ensures var before := SpelledAll(ts, tid, number, depth, parent);
            SpelledAll(ts + [t], tid, number, depth, parent) ==
            before + Spelled(t, tid, number + |before|, depth, parent)
  {
    hide *;
    FrontOfPush(ts, t);
    SpelledOfLast(ts + [t], tid, number, depth, parent);
  }

  lemma FrontOfPush<T>(ts: seq<T>, t: T)
    ensures ts + [t] != [] && Front(ts + [t]) == ts && Last(ts + [t]) == t
  {
  }

  lemma SpelledOfLast(ts: seq<Tree<Call>>, tid: int, number: nat, depth: nat, parent: Parent)
    requires ts != []
    ensures var before := SpelledAll(Front(ts), tid, number, depth, parent);
            SpelledAll(ts, tid, number, depth, parent) ==
            before + Spelled(Last(ts), tid, number + |before|, depth, parent)
  {
    hide Spelled;
  }

  /** From `at` on the numbered lines are the given ones. */
  ghost predicate LinesAt(all: seq<Line>, at: nat, lines: seq<Line>) {
    at + |lines| <= |all| && all[at..at + |lines|] == lines
  }

  lemma LinesAtParts(all: seq<Line>, at: nat, a: seq<Line>, b: seq<Line>)
    requires LinesAt(all, at, a + b)
    ensures LinesAt(all, at, a) && LinesAt(all, at + |a|, b)
  {
    var whole := all[at..at + |a + b|];
    assert whole[..|a|] == a && whole[|a|..] == b;
  }

  /** What a line below `parent` has at depth `depth`, in well-numbered lines. */
  ghost predicate Below(all: seq<Line>, parent: Parent, depth: nat) {
    match parent
    case Root => depth == 0
    case CalledBy(n) => n < |all| && depth == all[n].record.depth + 1
  }

  lemma LineBelow(r: Record, parent: Parent, all: seq<Line>, at: nat, depth: nat)
    requires WellNumbered(all) && LinesAt(all, at, [Line(r, parent)]) && Below(all, parent, depth)
    ensures at < |all| && all[at].record == r && r.number == at && r.depth == depth
    ensures Below(all, CalledBy(at), depth + 1)
  {
    assert all[at] == all[at..at + 1][0] && WellNumberedAt(all, at);
  }

  lemma {:induction false} LinesAreSpelled(t: CallTree, parent: Parent, all: seq<Line>, at: nat, tid: int, depth: nat)
    requires WellNumbered(all) && (forall k :: 0 <= k < |all| ==> all[k].record.tid == tid)
    requires LinesAt(all, at, Lines(t, parent)) && Below(all, parent, depth)
    ensures Lines(t, parent) == Spelled(Map(t, CallOf), tid, at, depth, parent)
    decreases t, 1
  {
    var here := CalledBy(t.item.number);
    LinesAtParts(all, at, [Line(t.item, parent)], LinesAll(t.calls, here));
    LineBelow(t.item, parent, all, at, depth);
    hide LinesAll, SpelledAll, MapAll, LinesAt, Below, WellNumbered;
    LinesAllAreSpelled(t.calls, here, all, at + 1, tid, depth + 1);
  }

  lemma LinesOfLast(ts: seq<CallTree>, parent: Parent)
    requires ts != []
    ensures LinesAll(ts, parent) == LinesAll(Front(ts), parent) + Lines(Last(ts), parent)
    ensures MapAll(ts, CallOf) == MapAll(Front(ts), CallOf) + [Map(Last(ts), CallOf)]
  {
  }

  lemma {:induction false} LinesAllAreSpelled(
      ts: seq<CallTree>, parent: Parent, all: seq<Line>, at: nat, tid: int, depth: nat)
    requires WellNumbered(all) && (forall k :: 0 <= k < |all| ==> all[k].record.tid == tid)
    requires LinesAt(all, at, LinesAll(ts, parent)) && Below(all, parent, depth)
    ensures LinesAll(ts, parent) == SpelledAll(MapAll(ts, CallOf), tid, at, depth, parent)
    decreases ts, 0
  {
    if ts != [] {
      LinesOfLast(ts, parent);
      hide *;
      var front, last := LinesAll(Front(ts), parent), Lines(Last(ts), parent);
      LinesAtParts(all, at, front, last);
      LinesAllAreSpelled(Front(ts), parent, all, at, tid, depth);
      LinesAreSpelled(Last(ts), parent, all, at + |front|, tid, depth);
      SpelledPush(MapAll(Front(ts), CallOf), Map(Last(ts), CallOf), tid, at, depth, parent);
    }
  }

  lemma ForestLines(tid: int, ts: seq<Tree<Call>>, now: Stamp)
    requires ts != [] && !ts[0].item.leave.Unset()
    ensures ThreadLines(tid, EventsAll(ts), now) == Spelled(Node(ts[0].item, ts[0].calls + ts[1..]), tid, 0, 0, Root)
  {
    var events := EventsAll(ts);
    var t := After(tid, events);
    ForestRecorded(tid, ts);
    assert CallOf(t.root.item) == ts[0].item;
    assert CloseChain(t.root, 0, now) == t.root;
    AnyRunIsNumbered(tid, events);
    AnyRunListsEnters(tid, events);
    var all := Lines(t.root, Root);
    assert all[0..|all|] == all;
    LinesAreSpelled(t.root, Root, all, 0, tid, 0);
  }

  /** In any session in which the enters and leaves of one thread are those of calls t1, ..., tk of mapped
      functions, however each is entered and ends and whatever comes in between: none of them crashes, and
      the lines of the thread are t1 with t2, ..., tk as further calls of it, in preorder. */
  lemma ForestWritten(cs: seq<Callback>, tid: int, ts: seq<Tree<Played>>, now: Stamp)
    requires ts != [] && OnThread(cs, tid) == CallbacksOfAll(ts, tid) && MappedOn(cs, tid)
    requires !ts[0].item.call.leave.Unset()
    ensures forall i :: 0 <= i < |cs| && IsOn(cs[i], tid) ==> !CrashesAt(cs, i)
    ensures var s := HeardAll(cs);
            var calls := MapAll(ts, CallIn);
            OfThread(Written(Sorted(s.threads), s.events, now), tid) ==
            Spelled(Node(calls[0].item, calls[0].calls + calls[1..]), tid, 0, 0, Root)
  {
    var s, calls := HeardAll(cs), MapAll(ts, CallIn);
    CallbacksAllAreEvents(ts, tid);
    ThreadHeard(cs, tid);
    EventsHeard(cs, tid);
    EntersHeard(cs, tid);
    WrittenOfThread(Sorted(s.threads), s.events, now, tid);
    MapFirst(ts);
    ForestLines(tid, calls, now);
    forall i | 0 <= i < |cs| && IsOn(cs[i], tid) ensures !CrashesAt(cs, i) {
      ThreadDoesNotCrash(cs, tid, i);
    }
  }

  lemma {:induction false} MapFirst(ts: seq<Tree<Played>>)
    requires ts != []
    ensures MapAll(ts, CallIn)[0] == Map(ts[0], CallIn)
    decreases |ts|
  {
    if |ts| > 1 {
      MapFirst(Front(ts));
    }
  }

  /** A thread that has only allocated, and then a leave: the callback follows a null pointer. */
  lemma EarlyLeaveCrashes(tid: int, now: Stamp)
    ensures CrashesAlong([Allocated(tid), UnwindLeft(tid, now)])
  {
    var cs := [Allocated(tid), UnwindLeft(tid, now)];
    assert cs[..1] == [Allocated(tid)] && cs[..1][..0] == [];
    assert HeardFrom(START, []) == START;
    assert CrashesAt(cs, 1);
  }
}
