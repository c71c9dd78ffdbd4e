/** The records of one thread's calls, the tree they form, and the lines the tree is written as. */
module CallRecords {
  import opened CallTrees
  import opened CallForests
  import opened SortedMaps

  datatype Record = Record(funcId: int, tid: int, number: nat, depth: nat, enter: Stamp, leave: Stamp)

  type CallTree = Tree<Record>

  /** What is kept for one thread: the first call's tree, how far down its last-child chain the active
      call is, and the last number given out. */
  datatype Thread = NoCalls | Calls(root: CallTree, active: nat, last: nat)

  predicate ThreadValid(t: Thread) {
    t.Calls? ==> Reaches(t.root, t.active)
  }

  function NewRecord(t: Thread, tid: int, funcId: int, now: Stamp): Record
    requires ThreadValid(t)
  {
    if t.NoCalls? then Record(funcId, tid, 0, 0, now, UNSET)
    else Record(funcId, tid, t.last + 1, ItemAt(t.root, t.active).depth + 1, now, UNSET)
  }

  function AfterEnter(t: Thread, tid: int, funcId: int, now: Stamp): Thread
    requires ThreadValid(t)
  {
    var leaf := Node(NewRecord(t, tid, funcId, now), []);
    if t.NoCalls? then Calls(leaf, 0, 0)
    else Calls(Append(t.root, t.active, leaf), t.active + 1, t.last + 1)
  }

  function AfterLeave(t: Thread, now: Stamp): Thread
    requires ThreadValid(t)
  {
    if t.NoCalls? then t
    else
      var left := Relabel(t.root, t.active, ItemAt(t.root, t.active).(leave := now));
      Calls(left, if t.active == 0 then 0 else t.active - 1, t.last)
  }

  lemma EnterValid(t: Thread, tid: int, funcId: int, now: Stamp)
    requires ThreadValid(t)
    ensures ThreadValid(AfterEnter(t, tid, funcId, now))
  {
    if t.Calls? {
      AppendReaches(t.root, t.active, Node(NewRecord(t, tid, funcId, now), []));
    }
  }

  lemma LeaveValid(t: Thread, now: Stamp)
    requires ThreadValid(t)
    ensures ThreadValid(AfterLeave(t, now))
  {
    if t.Calls? {
      RelabelReaches(t.root, t.active, ItemAt(t.root, t.active).(leave := now));
    }
  }

  /** A thread's state after its events; a leave before the first enter changes nothing here, it is
      the recorder that cannot survive it. */
  ghost function After(tid: int, events: seq<Event>): (t: Thread)
    ensures ThreadValid(t)
  {
    if events == [] then NoCalls
    else
      var before := After(tid, Front(events));
      match Last(events)
      case Enter(f, now) => EnterValid(before, tid, f, now); AfterEnter(before, tid, f, now)
      case Leave(now) => LeaveValid(before, now); AfterLeave(before, now)
  }

  // ----- the lines a tree is written as

  /** One line: a record and the number of the call that made it, none for the root. */
  datatype Parent = Root | CalledBy(number: nat)

  datatype Line = Line(record: Record, parent: Parent)

  function Lines(t: CallTree, parent: Parent): seq<Line> {
    [Line(t.item, parent)] + LinesAll(t.calls, CalledBy(t.item.number))
  }

  function LinesAll(ts: seq<CallTree>, parent: Parent): seq<Line> {
    if ts == [] then [] else LinesAll(Front(ts), parent) + Lines(Last(ts), parent)
  }

  /** The lines carry the numbers 0, 1, 2, ... in order; every line but the first names an earlier call
      as its caller and is one deeper than it. */
  ghost predicate WellNumbered(lines: seq<Line>) {
    forall k :: 0 <= k < |lines| ==> WellNumberedAt(lines, k)
  }

  ghost predicate WellNumberedAt(lines: seq<Line>, k: nat)
    requires k < |lines|
  {
    && lines[k].record.number == k
    && if k == 0 then lines[k].parent == Root && lines[k].record.depth == 0
       else lines[k].parent.CalledBy? && lines[k].parent.number < k &&
            lines[k].record.depth == lines[lines[k].parent.number].record.depth + 1
  }

  lemma {:induction false} LinesAppend(t: CallTree, d: nat, leaf: Record, parent: Parent)
    requires Reaches(t, d)
    ensures Lines(Append(t, d, Node(leaf, [])), parent) ==
            Lines(t, parent) + [Line(leaf, CalledBy(ItemAt(t, d).number))]
    decreases d
  {
    var x := Node(leaf, []);
    if d == 0 {
      assert Front(t.calls + [x]) == t.calls;
      assert Lines(x, CalledBy(t.item.number)) == [Line(leaf, CalledBy(t.item.number))];
    } else {
      var here := CalledBy(t.item.number);
      LinesAppend(Last(t.calls), d - 1, leaf, here);
      assert Front(Front(t.calls) + [Append(Last(t.calls), d - 1, x)]) == Front(t.calls);
    }
  }

  /** Setting the leave time of one record changes that record in the lines and nothing else. */
  ghost predicate OnlyLeaveDiffers(before: seq<Line>, after: seq<Line>) {
    && |before| == |after|
    && forall k :: 0 <= k < |before| ==>
         after[k].parent == before[k].parent && after[k].record.(leave := before[k].record.leave) == before[k].record
  }

  lemma {:induction false} LinesLeave(t: CallTree, d: nat, now: Stamp, parent: Parent)
    requires Reaches(t, d)
    ensures OnlyLeaveDiffers(Lines(t, parent), Lines(Relabel(t, d, ItemAt(t, d).(leave := now)), parent))
    decreases d
  {
    if d > 0 {
      var here := CalledBy(t.item.number);
      LinesLeave(Last(t.calls), d - 1, now, here);
      var changed := Relabel(Last(t.calls), d - 1, ItemAt(t, d).(leave := now));
      assert Front(Front(t.calls) + [changed]) == Front(t.calls);
    }
  }

  lemma WellNumberedLeave(before: seq<Line>, after: seq<Line>)
    requires WellNumbered(before) && OnlyLeaveDiffers(before, after)
    ensures WellNumbered(after)
  {
    forall k | 0 <= k < |after| ensures WellNumberedAt(after, k) {
      assert WellNumberedAt(before, k);
    }
  }

  /** Every record on the last-child chain has its line. */
  lemma {:induction false} ItemHasLine(t: CallTree, d: nat, parent: Parent) returns (k: nat)
    requires Reaches(t, d)
    ensures k < |Lines(t, parent)| && Lines(t, parent)[k].record == ItemAt(t, d)
    decreases d
  {
    if d == 0 {
      k := 0;
    } else {
      var here := CalledBy(t.item.number);
      var j := ItemHasLine(Last(t.calls), d - 1, here);
      k := 1 + |LinesAll(Front(t.calls), here)| + j;
    }
  }

  /** What holds of a thread after any events: numbers, callers and depths are right. */
  ghost predicate Numbered(t: Thread) {
    t.Calls? ==> WellNumbered(Lines(t.root, Root)) && |Lines(t.root, Root)| == t.last + 1
  }

  lemma EnterKeepsNumbered(t: Thread, tid: int, funcId: int, now: Stamp)
    requires ThreadValid(t) && Numbered(t)
    ensures Numbered(AfterEnter(t, tid, funcId, now))
  {
    var r := NewRecord(t, tid, funcId, now);
    if t.NoCalls? {
      assert Lines(Node(r, []), Root) == [Line(r, Root)];
    } else {
      var lines := Lines(t.root, Root);
      LinesAppend(t.root, t.active, r, Root);
      var k := ItemHasLine(t.root, t.active, Root);
      assert WellNumberedAt(lines, k);
      var after := lines + [Line(r, CalledBy(k))];
      forall i | 0 <= i < |after| ensures WellNumberedAt(after, i) {
        assert i < |lines| ==> WellNumberedAt(lines, i);
      }
    }
  }

  lemma LeaveKeepsNumbered(t: Thread, now: Stamp)
    requires ThreadValid(t) && Numbered(t)
    ensures Numbered(AfterLeave(t, now))
  {
    if t.Calls? {
      LinesLeave(t.root, t.active, now, Root);
      WellNumberedLeave(Lines(t.root, Root), Lines(AfterLeave(t, now).root, Root));
    }
  }

  /** After any sequence of events the tree of a thread is written as lines numbered 0, 1, ..., n. */
  lemma {:induction false} AnyRunIsNumbered(tid: int, events: seq<Event>)
    ensures Numbered(After(tid, events))
    decreases |events|
  {
    if events != [] {
      AnyRunIsNumbered(tid, Front(events));
      var before := After(tid, Front(events));
      match Last(events) {
        case Enter(f, now) => EnterKeepsNumbered(before, tid, f, now);
        case Leave(now) => LeaveKeepsNumbered(before, now);
      }
    }
  }

  // ----- leave times

  /** Every record of the tree has its leave time. */
  ghost predicate Closed(t: CallTree) {
    !t.item.leave.Unset() && forall c :: c in t.calls ==> Closed(c)
  }

  /** Records without a leave time only lie on the chain from the root to the node `d` steps down. */
  ghost predicate OpenOnChain(t: CallTree, d: nat)
    requires Reaches(t, d)
    decreases d
  {
    if d == 0 then forall c :: c in t.calls ==> Closed(c)
    else (forall c :: c in Front(t.calls) ==> Closed(c)) && OpenOnChain(Last(t.calls), d - 1)
  }

  lemma {:induction false} AppendOpen(t: CallTree, d: nat, leaf: Record)
    requires Reaches(t, d) && OpenOnChain(t, d)
    ensures Reaches(Append(t, d, Node(leaf, [])), d + 1) && OpenOnChain(Append(t, d, Node(leaf, [])), d + 1)
    decreases d
  {
    var x := Node(leaf, []);
    AppendReaches(t, d, x);
    if d == 0 {
      assert Front(t.calls + [x]) == t.calls;
    } else {
      AppendOpen(Last(t.calls), d - 1, leaf);
      assert Front(Front(t.calls) + [Append(Last(t.calls), d - 1, x)]) == Front(t.calls);
    }
  }

  /** Leaving closes the active call: what is left open lies above it. */
  lemma {:induction false} LeaveOpen(t: CallTree, d: nat, now: Stamp)
    requires Reaches(t, d) && OpenOnChain(t, d) && !now.Unset()
    ensures var left := Relabel(t, d, ItemAt(t, d).(leave := now));
            var e := if d == 0 then 0 else d - 1;
            Reaches(left, e) && OpenOnChain(left, e) && (d == 0 ==> Closed(left))
    decreases d
  {
    var item := ItemAt(t, d).(leave := now);
    RelabelReaches(t, d, item);
    if d > 0 {
      LeaveOpen(Last(t.calls), d - 1, now);
      var changed := Relabel(Last(t.calls), d - 1, item);
      var left := Relabel(t, d, item);
      assert Front(left.calls) == Front(t.calls);
      if d == 1 {
        assert forall c :: c in left.calls ==> c in Front(t.calls) || c == changed;
      }
    }
  }

  ghost predicate ClocksPositive(events: seq<Event>) {
    forall e :: e in events ==> !e.now.Unset()
  }

  /** After any events a record without a leave time lies between the root and the active call. */
  lemma {:induction false} AnyRunIsOpenOnChain(tid: int, events: seq<Event>)
    requires ClocksPositive(events)
    ensures var t := After(tid, events); t.Calls? ==> OpenOnChain(t.root, t.active)
    decreases |events|
  {
    if events != [] {
      assert forall e :: e in Front(events) ==> e in events;
      assert Last(events) in events;
      AnyRunIsOpenOnChain(tid, Front(events));
      hide OpenOnChain, ClocksPositive;
      var before := After(tid, Front(events));
      match Last(events) {
        case Enter(f, now) =>
          if before.Calls? {
            AppendOpen(before.root, before.active, NewRecord(before, tid, f, now));
          }
        case Leave(now) =>
          if before.Calls? {
            LeaveOpen(before.root, before.active, now);
          }
      }
    }
  }

  /** What shutdown does on its way from the active call up to the root. */
  function CloseChain(t: CallTree, d: nat, now: Stamp): CallTree
    requires Reaches(t, d)
    decreases d
  {
    var item := if t.item.leave.Unset() then t.item.(leave := now) else t.item;
    if d == 0 then Node(item, t.calls)
    else Node(item, Front(t.calls) + [CloseChain(Last(t.calls), d - 1, now)])
  }

  lemma {:induction false} CloseChainCloses(t: CallTree, d: nat, now: Stamp)
    requires Reaches(t, d) && OpenOnChain(t, d) && !now.Unset()
    ensures Closed(CloseChain(t, d, now))
    decreases d
  {
    if d > 0 {
      CloseChainCloses(Last(t.calls), d - 1, now);
      var closed := CloseChain(t, d, now);
      assert forall c :: c in closed.calls ==> c in Front(t.calls) || c == Last(closed.calls);
    }
  }

  /** The line with a leave time put in if it has none. */
  function Stamped(line: Line, now: Stamp): Line {
    if line.record.leave.Unset() then line.(record := line.record.(leave := now)) else line
  }

  lemma {:induction false} CloseChainLines(t: CallTree, d: nat, now: Stamp, parent: Parent)
    requires Reaches(t, d)
    ensures var before, after := Lines(t, parent), Lines(CloseChain(t, d, now), parent);
            |after| == |before| &&
            forall k :: 0 <= k < |before| ==> after[k] == before[k] || after[k] == Stamped(before[k], now)
    decreases d
  {
    if d > 0 {
      var here := CalledBy(t.item.number);
      CloseChainLines(Last(t.calls), d - 1, now, here);
      var closed := CloseChain(t, d, now);
      assert Front(closed.calls) == Front(t.calls);
    }
  }

  lemma {:induction false} ClosedLines(t: CallTree, parent: Parent)
    requires Closed(t)
    ensures forall k :: 0 <= k < |Lines(t, parent)| ==> !Lines(t, parent)[k].record.leave.Unset()
    decreases t, 1
  {
    ClosedLinesAll(t.calls, CalledBy(t.item.number));
  }

  lemma {:induction false} ClosedLinesAll(ts: seq<CallTree>, parent: Parent)
    requires forall c :: c in ts ==> Closed(c)
    ensures forall k :: 0 <= k < |LinesAll(ts, parent)| ==> !LinesAll(ts, parent)[k].record.leave.Unset()
    decreases ts, 0
  {
    if ts != [] {
      assert Last(ts) in ts && forall c :: c in Front(ts) ==> c in ts;
      ClosedLinesAll(Front(ts), parent);
      ClosedLines(Last(ts), parent);
    }
  }

  /** What shutdown writes for a thread, after any events: the lines of its tree, numbered 0, 1, ..., n
      with right callers and depths, with a leave time put in wherever there was none. */
  lemma ShutdownLines(tid: int, events: seq<Event>, now: Stamp)
    requires ClocksPositive(events) && !now.Unset() && After(tid, events).Calls?
    ensures var t := After(tid, events);
            var lines := Lines(CloseChain(t.root, t.active, now), Root);
            && WellNumbered(lines) && |lines| == t.last + 1 == |Lines(t.root, Root)|
            && forall k :: 0 <= k < |lines| ==>
                 !lines[k].record.leave.Unset() && lines[k] == Stamped(Lines(t.root, Root)[k], now)
  {
    var t := After(tid, events);
    AnyRunIsNumbered(tid, events);
    AnyRunIsOpenOnChain(tid, events);
    CloseChainCloses(t.root, t.active, now);
    CloseChainLines(t.root, t.active, now, Root);
    WellNumberedLeave(Lines(t.root, Root), Lines(CloseChain(t.root, t.active, now), Root));
    ClosedLines(CloseChain(t.root, t.active, now), Root);
  }

  // ----- all threads

  ghost function EventsOf(events: map<int, seq<Event>>, t: int): seq<Event> {
    if t in events then events[t] else []
  }

  /** What shutdown writes for one thread. */
  ghost function ThreadLines(tid: int, events: seq<Event>, now: Stamp): seq<Line> {
    var t := After(tid, events);
    if t.NoCalls? then [] else Lines(CloseChain(t.root, t.active, now), Root)
  }

  /** What shutdown writes, thread after thread. */
  ghost function Written(threads: seq<int>, events: map<int, seq<Event>>, now: Stamp): seq<Line> {
    if threads == [] then []
    else Written(Front(threads), events, now) + ThreadLines(Last(threads), EventsOf(events, Last(threads)), now)
  }

  /** The lines of one thread. */
  ghost function OfThread(lines: seq<Line>, t: int): seq<Line> {
    if lines == [] then []
    else OfThread(Front(lines), t) + if Last(lines).record.tid == t then [Last(lines)] else []
  }

  /** The function and the time of every enter, in order. */
  ghost function Enters(events: seq<Event>): seq<(int, Stamp)> {
    if events == [] then []
    else Enters(Front(events)) + match Last(events) case Enter(f, now) => [(f, now)] case Leave(_) => []
  }

  /** The lines are one per enter, in order, all of thread `tid`. */
  ghost predicate OnePerEnter(tid: int, lines: seq<Line>, enters: seq<(int, Stamp)>) {
    && |lines| == |enters|
    && forall k :: 0 <= k < |lines| ==>
         lines[k].record.tid == tid && (lines[k].record.funcId, lines[k].record.enter) == enters[k]
  }

  lemma {:induction false} AnyRunListsEnters(tid: int, events: seq<Event>)
    ensures var t := After(tid, events);
            if t.NoCalls? then Enters(events) == [] else OnePerEnter(tid, Lines(t.root, Root), Enters(events))
    decreases |events|
  {
    if events != [] {
      AnyRunListsEnters(tid, Front(events));
      var before := After(tid, Front(events));
      match Last(events) {
        case Enter(f, now) =>
          var leaf := NewRecord(before, tid, f, now);
          if before.NoCalls? {
            assert Lines(Node(leaf, []), Root) == [Line(leaf, Root)];
          } else {
            LinesAppend(before.root, before.active, leaf, Root);
          }
        case Leave(now) =>
          if before.Calls? {
            LinesLeave(before.root, before.active, now, Root);
          }
      }
    }
  }

  /** What shutdown writes for a thread after any events: one line per call that entered, in the order
      they entered, numbered 0, 1, ..., n with right callers and depths, and a leave time in each. */
  lemma ThreadLinesComplete(tid: int, events: seq<Event>, now: Stamp)
    requires ClocksPositive(events) && !now.Unset()
    ensures var lines := ThreadLines(tid, events, now);
            && WellNumbered(lines) && OnePerEnter(tid, lines, Enters(events))
            && forall k :: 0 <= k < |lines| ==> !lines[k].record.leave.Unset()
  {
    var t := After(tid, events);
    AnyRunListsEnters(tid, events);
    if t.Calls? {
      ShutdownLines(tid, events, now);
      CloseChainLines(t.root, t.active, now, Root);
    }
  }

  lemma {:induction false} OfThreadConcat(a: seq<Line>, b: seq<Line>, t: int)
    ensures OfThread(a + b, t) == OfThread(a, t) + OfThread(b, t)
    decreases |b|
  {
    if b == [] {
      assert a + b == a;
    } else {
      assert Front(a + b) == a + Front(b);
      OfThreadConcat(a, Front(b), t);
    }
  }

  lemma {:induction false} OfOneThread(lines: seq<Line>, tid: int, t: int)
    requires forall k :: 0 <= k < |lines| ==> lines[k].record.tid == tid
    ensures OfThread(lines, t) == if t == tid then lines else []
    decreases |lines|
  {
    if lines != [] {
      OfOneThread(Front(lines), tid, t);
    }
  }

  /** The lines written for a thread are those of its own events, whatever the other threads did. */
  lemma {:induction false} WrittenOfThread(threads: seq<int>, events: map<int, seq<Event>>, now: Stamp, t: int)
    requires Ascending(threads)
    ensures OfThread(Written(threads, events, now), t) ==
            if t in threads then ThreadLines(t, EventsOf(events, t), now) else []
    decreases |threads|
  {
    if threads != [] {
      var last := Last(threads);
      var lines := ThreadLines(last, EventsOf(events, last), now);
      WrittenOfThread(Front(threads), events, now, t);
      OfThreadConcat(Written(Front(threads), events, now), lines, t);
      ThreadLinesTid(last, EventsOf(events, last), now);
      OfOneThread(lines, last, t);
      assert t in threads <==> t in Front(threads) || t == last;
    }
  }

  lemma ThreadLinesTid(tid: int, events: seq<Event>, now: Stamp)
    ensures forall k :: 0 <= k < |ThreadLines(tid, events, now)| ==> ThreadLines(tid, events, now)[k].record.tid == tid
  {
    var t := After(tid, events);
    AnyRunListsEnters(tid, events);
    if t.Calls? {
      CloseChainLines(t.root, t.active, now, Root);
    }
  }

  /** The lines are written thread after thread, in the order the threads are given. */
  ghost predicate ByThread(lines: seq<Line>, threads: seq<int>) {
    && (forall i :: 0 <= i < |lines| ==> lines[i].record.tid in threads)
    && (forall i, j :: 0 <= i < j < |lines| ==> lines[i].record.tid <= lines[j].record.tid)
  }

  lemma {:induction false} WrittenByThread(threads: seq<int>, events: map<int, seq<Event>>, now: Stamp)
    requires Ascending(threads)
    ensures ByThread(Written(threads, events, now), threads)
    decreases |threads|
  {
    if threads != [] {
      var front, last := Front(threads), Last(threads);
      WrittenByThread(front, events, now);
      ThreadLinesTid(last, EventsOf(events, last), now);
      assert front + [last] == threads;
      MoreByThread(Written(front, events, now), front, ThreadLines(last, EventsOf(events, last), now), last);
    }
  }

  lemma MoreByThread(lines: seq<Line>, threads: seq<int>, more: seq<Line>, tid: int)
    requires ByThread(lines, threads) && forall t :: t in threads ==> t < tid
    requires forall k :: 0 <= k < |more| ==> more[k].record.tid == tid
    ensures ByThread(lines + more, threads + [tid])
  {
  }

  /** One step of the way up: close the active call if it is open, go on from its caller. */
  lemma {:induction false} CloseStep(t: CallTree, d: nat, now: Stamp)
    requires Reaches(t, d)
    ensures var item := ItemAt(t, d);
            var up := if item.leave.Unset() then Relabel(t, d, item.(leave := now)) else t;
            if d == 0 then CloseChain(t, d, now) == up
            else Reaches(up, d - 1) && CloseChain(t, d, now) == CloseChain(up, d - 1, now)
    decreases d
  {
    if d > 0 {
      CloseStep(Last(t.calls), d - 1, now);
      ReachesLess(t, d, d - 1);
    }
  }

  // ----- the calls of the tree

  function CallOf(r: Record): Call {
    Call(r.funcId, r.enter, r.leave)
  }

  ghost function ShapeOf(t: Thread): Shape {
    if t.NoCalls? then NoShape else Shape(Map(t.root, CallOf), t.active)
  }

  lemma {:induction false} ShapeFollows(tid: int, events: seq<Event>)
    ensures ShapeOf(After(tid, events)) == Play(NoShape, events)
    decreases |events|
  {
    if events != [] {
      ShapeFollows(tid, Front(events));
      var before := After(tid, Front(events));
      match Last(events) {
        case Enter(f, now) =>
          var r := NewRecord(before, tid, f, now);
          assert Map(Node(r, []), CallOf) == Node(CallOf(r), []);
          if before.Calls? {
            MapAppend(before.root, before.active, Node(r, []), CallOf);
          }
        case Leave(now) =>
          if before.Calls? {
            MapRelabel(before.root, before.active, ItemAt(before.root, before.active).(leave := now), CallOf);
          }
      }
    }
  }

  /** The enter and leave events of calls t1, ..., tk are recorded as t1 with t2, ..., tk as further
      children of its root, in order, each call with its function and its times. */
  lemma ForestRecorded(tid: int, ts: seq<Tree<Call>>)
    requires ts != []
    ensures var t := After(tid, EventsAll(ts));
            t.Calls? && t.active == 0 && Map(t.root, CallOf) == Node(ts[0].item, ts[0].calls + ts[1..])
  {
    ShapeFollows(tid, EventsAll(ts));
    ForestBuildsOneTree(ts);
  }
}
