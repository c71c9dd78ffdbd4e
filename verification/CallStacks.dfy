/** The simple form of the recorder: a list of lines and a stack of the calls that are open. */
module CallStacks {
  import opened CallTrees
  import opened CallForests
  import opened CallRecords
  import opened CallSessions
  import opened CallHistory
  import opened SortedMaps

  /** The lines so far, and the numbers of the calls from the first one to the active one. */
  datatype Stack = Stack(lines: seq<Line>, open: seq<nat>)

  ghost predicate StackValid(s: Stack) {
    forall i :: 0 <= i < |s.open| ==> s.open[i] < |s.lines|
  }

  /** Entering pushes a call made by the one on top; leaving stamps the one on top and takes it off, except
      that the bottom stays. */
  function StackNext(s: Stack, tid: int, e: Event): Stack
    requires StackValid(s)
  {
    match e
    case Enter(f, now) =>
      var parent := if s.open == [] then Root else CalledBy(Last(s.open));
      Stack(s.lines + [Line(Record(f, tid, |s.lines|, |s.open|, now, UNSET), parent)], s.open + [|s.lines|])
    case Leave(now) =>
      if s.open == [] then s
      else
        var top := Last(s.open);
        var line := s.lines[top];
        Stack(s.lines[top := line.(record := line.record.(leave := now))],
              if |s.open| == 1 then s.open else Front(s.open))
  }

  ghost function StackAfter(tid: int, events: seq<Event>): (s: Stack)
    ensures StackValid(s)
  {
    if events == [] then Stack([], []) else StackNext(StackAfter(tid, Front(events)), tid, Last(events))
  }

  // ----- the tree's lines, one change at a time

  /** The records on the chain are those whose numbers are open, each one deeper than the one before. */
  ghost predicate ChainIsOpen(root: CallTree, active: nat, open: seq<nat>) {
    && |open| == active + 1
    && forall d :: 0 <= d <= active ==> OnChain(root, d, open[d])
  }

  ghost predicate OnChain(root: CallTree, d: nat, number: nat) {
    Reaches(root, d) && ItemAt(root, d).number == number && ItemAt(root, d).depth == d
  }

  ghost predicate Refines(t: Thread, s: Stack) {
    if t.NoCalls? then s == Stack([], []) else Lines(t.root, Root) == s.lines && ChainIsOpen(t.root, t.active, s.open)
  }

  lemma {:induction false} AppendStays<T>(t: Tree<T>, d: nat, x: Tree<T>, e: nat)
    requires Reaches(t, d) && e <= d
    ensures Reaches(t, e) && Reaches(Append(t, d, x), e) && ItemAt(Append(t, d, x), e) == ItemAt(t, e)
    decreases e
  {
    ReachesLess(t, d, e);
    if e > 0 {
      AppendStays(Last(t.calls), d - 1, x, e - 1);
    }
  }

  /** Another item in one node changes the one line of that node. */
  lemma {:induction false} LinesRelabel(t: CallTree, d: nat, item: Record, parent: Parent) returns (k: nat)
    requires Reaches(t, d) && item.number == ItemAt(t, d).number
    ensures var before := Lines(t, parent);
            && k < |before| && before[k].record == ItemAt(t, d)
            && Lines(Relabel(t, d, item), parent) == before[k := before[k].(record := item)]
    decreases d
  {
    if d == 0 {
      k := 0;
    } else {
      var here := CalledBy(t.item.number);
      var j := LinesRelabel(Last(t.calls), d - 1, item, here);
      var changed := Relabel(Last(t.calls), d - 1, item);
      assert Front(Front(t.calls) + [changed]) == Front(t.calls);
      k := 1 + |LinesAll(Front(t.calls), here)| + j;
    }
  }

  lemma EnterRefines(t: Thread, s: Stack, tid: int, f: int, now: Stamp)
    requires ThreadValid(t) && Numbered(t) && Refines(t, s) && StackValid(s)
    ensures ThreadValid(AfterEnter(t, tid, f, now))
    ensures Refines(AfterEnter(t, tid, f, now), StackNext(s, tid, Enter(f, now)))
  {
    EnterValid(t, tid, f, now);
    var leaf := NewRecord(t, tid, f, now);
    if t.NoCalls? {
      assert Lines(Node(leaf, []), Root) == [Line(leaf, Root)];
    } else {
      var x := Node(leaf, []);
      assert OnChain(t.root, t.active, s.open[t.active]);
      LinesAppend(t.root, t.active, leaf, Root);
      AppendReaches(t.root, t.active, x);
      hide Lines, Append;
      forall d | 0 <= d <= t.active ensures OnChain(Append(t.root, t.active, x), d, s.open[d]) {
        assert OnChain(t.root, d, s.open[d]);
        AppendStays(t.root, t.active, x, d);
      }
    }
  }

  lemma LeaveRefines(t: Thread, s: Stack, tid: int, now: Stamp)
    requires ThreadValid(t) && Numbered(t) && Refines(t, s) && StackValid(s)
    ensures ThreadValid(AfterLeave(t, now)) && Refines(AfterLeave(t, now), StackNext(s, tid, Leave(now)))
  {
    LeaveValid(t, now);
    if t.Calls? {
      var top := s.open[t.active];
      assert OnChain(t.root, t.active, top);
      var item := ItemAt(t.root, t.active).(leave := now);
      RelabelReaches(t.root, t.active, item);
      var k := LinesRelabel(t.root, t.active, item, Root);
      assert WellNumberedAt(Lines(t.root, Root), k);
      hide Lines, Relabel;
      forall d | 0 <= d <= t.active ensures OnChain(Relabel(t.root, t.active, item), d, s.open[d]) {
        assert OnChain(t.root, d, s.open[d]);
      }
    }
  }

  /** After any events, balanced or not, the tree of a thread has the lines of the stack, and its active
      call is the one on top. */
  lemma {:induction false} TreeRefinesStack(tid: int, events: seq<Event>)
    ensures Refines(After(tid, events), StackAfter(tid, events))
    decreases |events|
  {
    if events != [] {
      var front := Front(events);
      TreeRefinesStack(tid, front);
      AnyRunIsNumbered(tid, front);
      match Last(events) {
        case Enter(f, now) => EnterRefines(After(tid, front), StackAfter(tid, front), tid, f, now);
        case Leave(now) => LeaveRefines(After(tid, front), StackAfter(tid, front), tid, now);
      }
    }
  }

  /** The lines with the time of shutdown where there is no leave time. */
  ghost function StampedAll(lines: seq<Line>, now: Stamp): seq<Line> {
    seq(|lines|, k requires 0 <= k < |lines| => Stamped(lines[k], now))
  }

  /** The lines written for a thread, whatever the callbacks: those of the stack after its recorded enters
      and leaves, with the time of shutdown where a call was not left. */
  lemma StackWritten(cs: seq<Callback>, now: Stamp, t: int)
    requires (forall c :: c in cs ==> ClockPositive(c)) && !now.Unset()
    ensures var s := HeardAll(cs);
            OfThread(Written(Sorted(s.threads), s.events, now), t) ==
            StampedAll(StackAfter(t, EventsOn(cs, t)).lines, now)
  {
    var s := HeardAll(cs);
    HeardAllValid(cs);
    EventsHeard(cs, t);
    EntersHeard(cs, t);
    WrittenOfThread(Sorted(s.threads), s.events, now, t);
    var events := EventsOn(cs, t);
    TreeRefinesStack(t, events);
    assert ClocksPositive(events);
    assert t !in s.threads ==> events == [];
    if After(t, events).Calls? {
      ShutdownLines(t, events, now);
    }
    hide Written, OfThread, Lines, After, StackAfter, HeardFrom, EventsOn, CloseChain;
  }

  /** What a session that does not crash writes: thread after thread the lines of its stack, and the table
      of the functions that were mapped when they were first mentioned. */
  ghost predicate IsOutput(cs: seq<Callback>, now: Stamp, lines: seq<Line>, names: seq<(int, string)>) {
    && (forall i, j :: 0 <= i < j < |lines| ==> lines[i].record.tid <= lines[j].record.tid)
    && (forall t :: OfThread(lines, t) == StampedAll(StackAfter(t, EventsOn(cs, t)).lines, now))
    && (forall f, name :: (f, name) in names <==> MappedAs(cs, f, name))
    && (forall i, j :: 0 <= i < j < |names| ==> names[i].0 < names[j].0)
  }

  ghost predicate ClocksRun(cs: seq<Callback>, now: Stamp) {
    (forall c :: c in cs ==> ClockPositive(c)) && !now.Unset()
  }

  lemma OutputIs(cs: seq<Callback>, now: Stamp)
    requires ClocksRun(cs, now)
    ensures var s := HeardAll(cs);
            IsOutput(cs, now, Written(Sorted(s.threads), s.events, now),
                     NamesWritten(Sorted(s.functions.Keys), s.functions))
  {
    var s := HeardAll(cs);
    WrittenByThread(Sorted(s.threads), s.events, now);
    TableOfNames(cs);
    hide Written, OfThread, StackAfter, HeardFrom, EventsOn, MappedAs, NamesWritten, StampedAll;
    forall t ensures OfThread(Written(Sorted(s.threads), s.events, now), t) ==
                     StampedAll(StackAfter(t, EventsOn(cs, t)).lines, now) {
      StackWritten(cs, now, t);
    }
  }
}
