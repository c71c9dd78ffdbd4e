/** The recorder: callbacks build a tree of records per thread in memory, shutdown writes it out. */
module CallRecorder {
  import opened Basics
  import opened CallTrees
  import opened CallForests
  import opened CallRecords
  import opened CallCells
  import opened CallObjects
  import opened CallHistory
  import opened CallSessions
  import opened CallStacks
  import opened CallWriter
  import opened SortedMaps

  class Recorder {
    var functionMap: map<int, Info>
    var activeInThread: map<int, (int, FunctionClass?)>
    ghost var views: map<int, View>
    ghost var events: map<int, seq<Event>>
    ghost var Repr: set<FunctionClass>

    constructor ()
      ensures Valid() && Seen() == START && Repr == {}
    {
      functionMap, activeInThread := map[], map[];
      views, events, Repr := map[], map[], {};
    }

    ghost function Seen(): Session
      reads `functionMap, `activeInThread, `events
    {
      Session(functionMap, activeInThread.Keys, events)
    }

    ghost predicate Valid()
      reads `activeInThread, `views, `events, `Repr, Repr
    {
      Fits() && HeldBut({})
    }

    /** The maps fit together; a thread without a record has the default entry. */
    ghost predicate Fits()
      reads `activeInThread, `views, `events, `Repr
    {
      && views.Keys == events.Keys && views.Keys <= activeInThread.Keys
      && (forall t, f :: t in views && f in views[t].nodes ==> f in Repr)
      && (forall t :: t in activeInThread && t !in views ==> activeInThread[t] == (0, null))
    }

    /** Memory is right for every thread outside `except`. */
    ghost predicate HeldBut(except: set<int>)
      requires Fits()
      reads `activeInThread, `views, `events, `Repr, Repr
    {
      forall t :: t in views && t !in except ==> ThreadHeld(views[t], events[t], t, activeInThread[t])
    }

    /** Subscripting the map enters a default value for a thread that has none. */
    method Lookup(threadId: int) returns (entry: (int, FunctionClass?))
      requires Valid()
      modifies this`activeInThread
      ensures Valid()
      ensures activeInThread.Keys == old(activeInThread.Keys) + {threadId} && entry == activeInThread[threadId]
      ensures entry.1 == null <==> threadId !in events
      ensures threadId in events ==> entry.1 in Repr && entry.0 == LastNumber(events[threadId])
    {
      hide Valid, LastNumber;
      if threadId !in activeInThread {
        activeInThread := activeInThread[threadId := (0, null)];
        DefaultKeepsValid(threadId);
      }
      entry := activeInThread[threadId];
      EntryMeans(threadId);
    }

    twostate lemma DefaultKeepsValid(new threadId: int)
      requires old(Valid()) && threadId !in old(activeInThread)
      requires activeInThread == old(activeInThread)[threadId := (0, null)]
      requires views == old(views) && events == old(events) && Repr == old(Repr) && unchanged(Repr)
      ensures Valid()
    {
      hide ThreadHeld;
      forall t | t in views ensures ThreadHeld(views[t], events[t], t, activeInThread[t]) {
        assert old(ThreadHeld(views[t], events[t], t, activeInThread[t]));
        assert forall f :: f in views[t].nodes ==> f in Repr;
      }
    }

    lemma EntryMeans(threadId: int)
      requires Valid() && threadId in activeInThread
      ensures activeInThread[threadId].1 == null <==> threadId !in events
      ensures threadId in events ==> activeInThread[threadId].1 in Repr
      ensures threadId in events ==> activeInThread[threadId].0 == LastNumber(events[threadId])
    {
      if threadId in events {
        HeldNumber(views[threadId], events[threadId], threadId, activeInThread[threadId]);
      }
    }

    lemma KeysOfEvents()
      requires Valid()
      ensures events.Keys <= activeInThread.Keys
    {
    }

    /** What an allocation is attributed to: the last number given out on its thread, if any was. */
    method LastCall(threadId: int) returns (order: Option<int>)
      requires Valid()
      modifies this`activeInThread
      ensures Valid() && Seen() == Heard(old(Seen()), Allocated(threadId))
      ensures order == LastCallOf(old(Seen()), threadId)
    {
      hide Valid, LastNumber;
      var entry := Lookup(threadId);
      order := if entry.1 != null then Some(entry.0) else None;
    }

    /** A mapped function id is entered once; a later mapping does not replace an earlier entry. */
    method Map(functionId: int, name: string, allowed: bool) returns (hooked: bool)
      requires Valid()
      modifies this`functionMap
      ensures Valid() && hooked == allowed && Seen() == AfterMapping(old(Seen()), functionId, name, allowed)
    {
      if allowed && functionId !in functionMap {
        functionMap := functionMap[functionId := Info(name)];
      }
      hooked := allowed;
    }

    /** A mapped function's record becomes the active one of its thread and the last callee of the one
        that was; any other function is ignored. */
    method Enter(functionId: int, threadId: int, now: Stamp)
      requires Valid()
      modifies this, Repr
      ensures Valid() && fresh(Repr - old(Repr)) && Seen() == AfterEntering(old(Seen()), functionId, threadId, now)
    {
      hide Valid, Fits, HeldBut, ThreadHeld;
      if functionId !in functionMap {
        functionMap := functionMap[functionId := NoInfo];
      }
      if functionMap[functionId].Info? {
        var entry := Lookup(threadId);
        if entry.1 != null {
          EnterBelow(functionId, threadId, now);
        } else {
          EnterFirst(functionId, threadId, now);
        }
      }
    }

    method EnterFirst(functionId: int, threadId: int, now: Stamp)
      requires Valid() && threadId !in events
      modifies this
      ensures Valid() && fresh(Repr - old(Repr)) && functionMap == old(functionMap)
      ensures activeInThread.Keys == old(activeInThread.Keys) + {threadId}
      ensures events == Extended(old(events), threadId, CallForests.Enter(functionId, now))
    {
      ghost var r := NewRecord(NoCalls, threadId, functionId, now);
      var call := new FunctionClass(Record(functionId, threadId, 0, 0, now, UNSET), null);
      FirstIsHeld(r);
      AfterOneMore(threadId, [], CallForests.Enter(functionId, now));
      assert call.AsRecord() == r;
      Install(threadId, 0, call, View([call], [Cell(Root, r, [])]), CallForests.Enter(functionId, now));
    }

    method EnterBelow(functionId: int, threadId: int, now: Stamp)
      requires Valid() && threadId in events
      modifies this, Repr
      ensures Valid() && fresh(Repr - old(Repr)) && functionMap == old(functionMap)
      ensures activeInThread.Keys == old(activeInThread.Keys) + {threadId}
      ensures events == Extended(old(events), threadId, CallForests.Enter(functionId, now))
    {
      hide Valid, Fits, HeldBut, ThreadHeld;
      ValidParts();
      EntryHeld(threadId, {});
      var (order, prevFunction) := activeInThread[threadId];
      var call; ghost var v;
      call, v := Grow(functionId, threadId, order, prevFunction, now, views[threadId], events[threadId]);
      OthersKept(threadId, {}, {threadId});
      Install(threadId, order + 1, call, v, CallForests.Enter(functionId, now));
    }

    lemma ValidParts()
      requires Valid()
      ensures Fits() && HeldBut({})
    {
    }

    /** The entry of a thread with events is the active record, one of its own. */
    lemma EntryHeld(threadId: int, except: set<int>)
      requires Fits() && HeldBut(except) && threadId in events && threadId !in except
      ensures threadId in views && threadId in activeInThread && activeInThread[threadId].1 != null
      ensures ThreadHeld(views[threadId], events[threadId], threadId, activeInThread[threadId])
      ensures activeInThread[threadId].1 in Repr && activeInThread[threadId].1.TID == threadId
      ensures forall f :: f in views[threadId].nodes ==> f in Repr
    {
    }

    /** Changing records and the entry of one thread leaves the other threads right. */
    twostate lemma OthersKept(new threadId: int, new before: set<int>, new after: set<int>)
      requires old(Fits()) && old(HeldBut(before)) && before + {threadId} <= after
      requires views == old(views) && events == old(events) && Repr == old(Repr)
      requires threadId in views && activeInThread.Keys == old(activeInThread.Keys)
      requires forall t :: t in activeInThread && t != threadId ==> activeInThread[t] == old(activeInThread[t])
      requires forall g :: g in Repr && g.TID != threadId ==> unchanged(g)
      ensures Fits() && HeldBut(after)
    {
      forall t | t in views && t !in after ensures ThreadHeld(views[t], events[t], t, activeInThread[t]) {
        assert old(ThreadHeld(views[t], events[t], t, activeInThread[t]));
        assert forall g :: g in views[t].nodes ==> g.TID == t;
      }
    }

    /** Enters a thread's new active record. */
    method Install(threadId: int, order: int, call: FunctionClass, ghost v: View, ghost e: Event)
      requires Fits() && HeldBut({threadId})
      requires ThreadHeld(v, EventsOf(events, threadId) + [e], threadId, (order, call))
      requires forall f :: f in v.nodes ==> f in Repr || f == call
      modifies `activeInThread, `views, `events, `Repr
      ensures Valid() && Repr == old(Repr) + {call} && events == Extended(old(events), threadId, e)
      ensures activeInThread.Keys == old(activeInThread.Keys) + {threadId}
    {
      hide Fits, HeldBut, ThreadHeld, Valid;
      activeInThread := activeInThread[threadId := (order, call)];
      views, Repr := views[threadId := v], Repr + {call};
      events := Extended(events, threadId, e);
      Installed(threadId, (order, call), v, e);
    }

    twostate lemma Installed(new threadId: int, new entry: (int, FunctionClass?), new v: View, new e: Event)
      requires old(Fits()) && old(HeldBut({threadId})) && entry.1 != null
      requires activeInThread == old(activeInThread)[threadId := entry]
      requires views == old(views)[threadId := v] && Repr == old(Repr) + {entry.1}
      requires events == Extended(old(events), threadId, e)
      requires ThreadHeld(v, events[threadId], threadId, entry)
      requires forall f :: f in v.nodes ==> f in Repr
      requires unchanged(old(Repr))
      ensures Valid()
    {
      hide ThreadHeld;
      forall t | t in views ensures ThreadHeld(views[t], events[t], t, activeInThread[t]) {
        if t != threadId {
          assert old(ThreadHeld(views[t], events[t], t, activeInThread[t]));
          assert forall f :: f in views[t].nodes ==> f in old(Repr);
        }
      }
    }

    /** Makes the record of a call below the active one. */
    method Grow(functionId: int, threadId: int, order: int, prevFunction: FunctionClass, now: Stamp, ghost v: View,
                ghost evs: seq<Event>)
      returns (call: FunctionClass, ghost w: View)
      requires ThreadHeld(v, evs, threadId, (order, prevFunction))
      modifies prevFunction
      ensures ThreadHeld(w, evs + [CallForests.Enter(functionId, now)], threadId, (order + 1, call))
      ensures fresh(call) && w.nodes == v.nodes + [call]
    {
      hide ViewValid, After;
      AfterOneMore(threadId, evs, CallForests.Enter(functionId, now));
      call, w := NewCallee(functionId, threadId, order, prevFunction, now, v, After(threadId, evs));
    }

    method NewCallee(functionId: int, threadId: int, order: int, prevFunction: FunctionClass, now: Stamp,
                     ghost v: View, ghost t: Thread)
      returns (call: FunctionClass, ghost w: View)
      requires ViewValid(v, threadId, t) && IsActive(v, t, prevFunction) && order == t.last
      modifies prevFunction
      ensures var after := AfterEnter(t, threadId, functionId, now);
              ThreadValid(after) && ViewValid(w, threadId, after) && IsActive(w, after, call)
      ensures fresh(call) && w.nodes == v.nodes + [call]
    {
      ghost var a := ItemAt(t.root, t.active).number;
      BeforeCallee(v, threadId, t, prevFunction, functionId, now);
      hide Mirrored, TreeHeld, AfterEnter;
      var r := Record(functionId, threadId, order + 1, prevFunction.depth + 1, now, UNSET);
      call := new FunctionClass(r, prevFunction);
      AddCallee(prevFunction, call, v, a, r, threadId);
      w := Grown(v, a, call, r);
    }

    /** Leave, TailCall and ExceptionUnwindFunctionLeave: the active record gets its leave times and its
        caller becomes active, unless it has none. A thread that is in the map without a record, because
        it only allocated so far, makes the callback follow a null pointer. */
    method Leave(threadId: int, now: Stamp) returns (crashed: bool)
      requires Valid()
      modifies this, Repr
      ensures Valid() && Repr == old(Repr) && Seen() == AfterLeaving(old(Seen()), threadId, now)
      ensures crashed <==> LeavesNothing(old(Seen()), threadId)
    {
      hide Valid;
      crashed := false;
      KeysOfEvents();
      if threadId in activeInThread {
        EntryMeans(threadId);
        if activeInThread[threadId].1 == null {
          crashed := true;
        } else {
          LeaveActive(threadId, now);
        }
      }
    }

    method LeaveActive(threadId: int, now: Stamp)
      requires Valid() && threadId in events
      modifies this, Repr
      ensures Valid() && Repr == old(Repr) && functionMap == old(functionMap)
      ensures activeInThread.Keys == old(activeInThread.Keys) + {threadId}
      ensures events == Extended(old(events), threadId, CallForests.Leave(now))
    {
      hide Valid, Fits, HeldBut, ThreadHeld;
      ValidParts();
      EntryHeld(threadId, {});
      var (order, activeFunction) := activeInThread[threadId];
      var next; ghost var v;
      next, v := MarkLeft(threadId, order, activeFunction, now, views[threadId], events[threadId]);
      OthersKept(threadId, {}, {threadId});
      Install(threadId, order, next, v, CallForests.Leave(now));
      assert Repr == old(Repr);
    }

    /** Sets the leave times of the active record and finds the record that is active next. */
    method MarkLeft(threadId: int, order: int, activeFunction: FunctionClass, now: Stamp, ghost v: View,
                    ghost evs: seq<Event>)
      returns (next: FunctionClass, ghost w: View)
      requires ThreadHeld(v, evs, threadId, (order, activeFunction))
      modifies activeFunction
      ensures ThreadHeld(w, evs + [CallForests.Leave(now)], threadId, (order, next))
      ensures w.nodes == v.nodes && next in v.nodes
    {
      hide ViewValid, After;
      ghost var t := After(threadId, evs);
      AfterOneMore(threadId, evs, CallForests.Leave(now));
      w := SetLeave(threadId, activeFunction, now, v, t);
      next := if activeFunction.prevFunction != null then activeFunction.prevFunction else activeFunction;
    }

    method SetLeave(threadId: int, f: FunctionClass, now: Stamp, ghost v: View, ghost t: Thread)
      returns (ghost w: View)
      requires ViewValid(v, threadId, t) && IsActive(v, t, f)
      modifies f
      ensures w.nodes == v.nodes && ViewValid(w, threadId, AfterLeave(t, now))
      ensures f.prevFunction == old(f.prevFunction)
      ensures IsActive(w, AfterLeave(t, now), if f.prevFunction != null then f.prevFunction else f)
    {
      ghost var item := ItemAt(t.root, t.active).(leave := now);
      ActiveCell(v, threadId, t);
      TreeLeft(v.cells, t, now);
      hide TreeHeld, AfterLeave;
      w := View(v.nodes, v.cells[item.number := v.cells[item.number].(record := item)]);
      f.cpuTimeLeave := now.cpu;
      f.wallTimeLeave := now.wall;
      assert Mirrored(w, threadId);
    }

    /** Gives the record its leave times if it has none. */
    method StampOpen(threadId: int, f: FunctionClass, now: Stamp, ghost v: View, ghost t: Thread)
      returns (ghost w: View, ghost up: Thread)
      requires ViewValid(v, threadId, t) && IsActive(v, t, f)
      modifies f
      ensures w.nodes == v.nodes && ViewValid(w, threadId, up) && up.last == t.last
      ensures f.prevFunction == old(f.prevFunction) && (f.prevFunction == null <==> t.active == 0)
      ensures IsActive(w, up, if f.prevFunction != null then f.prevFunction else f)
      ensures if t.active == 0 then up == Calls(CloseChain(t.root, 0, now), 0, t.last)
              else up.active == t.active - 1 && CloseChain(up.root, up.active, now) == CloseChain(t.root, t.active, now)
    {
      ActiveCell(v, threadId, t);
      CloseStep(t.root, t.active, now);
      if f.cpuTimeLeave == 0.0 || f.wallTimeLeave == 0.0 {
        hide ViewValid;
        w := SetLeave(threadId, f, now, v, t);
        up := AfterLeave(t, now);
      } else {
        w, up := v, Calls(t.root, if t.active == 0 then 0 else t.active - 1, t.last);
      }
    }

    /** Walks from the active record up to the root and gives leave times to those that have none. */
    method CloseUp(threadId: int, active: FunctionClass, now: Stamp, ghost v: View, ghost t: Thread)
      returns (root: FunctionClass, ghost w: View)
      requires ViewValid(v, threadId, t) && IsActive(v, t, active)
      modifies set f | f in v.nodes
      ensures w.nodes == v.nodes && ViewValid(w, threadId, Calls(CloseChain(t.root, t.active, now), 0, t.last))
      ensures IsActive(w, Calls(CloseChain(t.root, t.active, now), 0, t.last), root)
    {
      hide ViewValid;
      root, w := active, v;
      ghost var cur := t;
      while true
        invariant w.nodes == v.nodes && ViewValid(w, threadId, cur) && IsActive(w, cur, root) && cur.last == t.last
        invariant CloseChain(cur.root, cur.active, now) == CloseChain(t.root, t.active, now)
        decreases cur.active
      {
        w, cur := StampOpen(threadId, root, now, w, cur);
        if root.prevFunction == null {
          break;
        }
        root := root.prevFunction;
      }
    }

    lemma EntryToWrite(threadId: int, done: set<int>, now: Stamp)
      requires Fits() && HeldBut(done) && threadId in activeInThread && threadId !in done
      ensures activeInThread[threadId].1 == null ==>
                HeldBut(done + {threadId}) && ThreadLines(threadId, EventsOf(events, threadId), now) == []
      ensures activeInThread[threadId].1 != null ==>
                && threadId in views && threadId in events
                && var t := After(threadId, events[threadId]);
                   && ViewValid(views[threadId], threadId, t)
                   && IsActive(views[threadId], t, activeInThread[threadId].1)
                   && ThreadLines(threadId, events[threadId], now) == Lines(CloseChain(t.root, t.active, now), Root)
                   && forall f :: f in views[threadId].nodes ==> f in Repr && f.TID == threadId
    {
      if threadId in events {
        EntryHeld(threadId, done);
        assert ThreadHeld(views[threadId], events[threadId], threadId, activeInThread[threadId]);
      }
      hide ViewValid, TreeHeld, Mirrored;
    }

    /** Writes the tree of one thread, from its root. */
    method WriteThread(threadId: int, log: Logger, now: Stamp, ghost done: set<int>)
      requires Fits() && HeldBut(done) && threadId in activeInThread && threadId !in done
      modifies `activeInThread, Repr, log`lines
      ensures Fits() && HeldBut(done + {threadId}) && activeInThread.Keys == old(activeInThread.Keys)
      ensures log.lines == old(log.lines) + ThreadLines(threadId, EventsOf(events, threadId), now)
    {
      EntryToWrite(threadId, done, now);
      hide Fits, HeldBut, ThreadHeld, ViewValid, ThreadLines, After;
      var (order, active) := activeInThread[threadId];
      if active != null {
        ghost var v, t := views[threadId], After(threadId, events[threadId]);
        var root; ghost var w;
        root, w := CloseUp(threadId, active, now, v, t);
        WriteTree(threadId, root, log, w, Calls(CloseChain(t.root, t.active, now), 0, t.last));
        activeInThread := activeInThread[threadId := (order, null)];
        OthersKept(threadId, done, done + {threadId});
      }
    }

    /** Writes the calls of every thread, in the order of the thread ids, then the names of the mapped
        functions, in the order of the function ids, and forgets everything. */
    method Shutdown(now: Stamp) returns (log: Logger)
      requires Valid()
      modifies this, Repr
      ensures Valid() && fresh(log) && Seen() == START
      ensures var s := old(Seen());
              && log.lines == Written(Sorted(s.threads), s.events, now)
              && log.names == NamesWritten(Sorted(s.functions.Keys), s.functions)
    {
      log := new Logger();
      var threads, ids := Sorted(activeInThread.Keys), Sorted(functionMap.Keys);
      assert forall t :: t in threads ==> t in activeInThread;
      hide Valid, Written, NamesWritten;
      WriteThreads(threads, log, now);
      WriteNames(ids, log);
      Forget();
    }

    method Forget()
      modifies `activeInThread, `functionMap, `views, `events
      ensures Valid() && Seen() == START
    {
      activeInThread, functionMap := map[], map[];
      views, events := map[], map[];
    }

    method WriteNames(ids: seq<int>, log: Logger)
      requires log.names == [] && forall i :: 0 <= i < |ids| ==> ids[i] in functionMap
      modifies log`names
      ensures log.names == NamesWritten(ids, functionMap)
    {
      for i := 0 to |ids|
        invariant log.names == NamesWritten(ids[..i], functionMap)
      {
        if functionMap[ids[i]].Info? {
          log.names := log.names + [(ids[i], functionMap[ids[i]].name)];
        }
        assert Front(ids[..i + 1]) == ids[..i];
      }
      assert ids[..|ids|] == ids;
    }

    method WriteThreads(threads: seq<int>, log: Logger, now: Stamp)
      requires Valid() && log.lines == [] && Ascending(threads) && forall t :: t in threads ==> t in activeInThread
      modifies `activeInThread, Repr, log`lines
      ensures log.lines == Written(threads, events, now)
    {
      ghost var done := {};
      ghost var entries := activeInThread.Keys;
      hide Fits, HeldBut;
      for i := 0 to |threads|
        invariant activeInThread.Keys == entries
        invariant done == set k | 0 <= k < i :: threads[k]
        invariant Fits() && HeldBut(done)
        invariant log.lines == Written(threads[..i], events, now)
      {
        WriteThread(threads[i], log, now, done);
        assert Front(threads[..i + 1]) == threads[..i];
        done := done + {threads[i]};
      }
      assert threads[..|threads|] == threads;
    }

    method AddCallee(prevFunction: FunctionClass, call: FunctionClass, ghost v: View, ghost a: nat, ghost leaf: Record,
                     ghost threadId: int)
      requires Mirrored(v, threadId) && a < |v.nodes| && v.nodes[a] == prevFunction && call !in v.nodes
      requires call.AsRecord() == leaf && call.prevFunction == prevFunction && call.calledFunctions == []
      requires leaf.number == |v.nodes| && leaf.tid == threadId
      modifies prevFunction`calledFunctions
      ensures Mirrored(Grown(v, a, call, leaf), threadId)
    {
      ghost var more := v.nodes + [call];
      forall k | 0 <= k < |v.nodes| ensures Mirrors(more, v.nodes[k], v.cells[k]) {
        MirrorsMore(v.nodes, call, v.nodes[k], v.cells[k]);
      }
      prevFunction.calledFunctions := prevFunction.calledFunctions + [call];
      ghost var w := Grown(v, a, call, leaf);
      forall k | 0 <= k < |w.nodes|
        ensures Mirrors(w.nodes, w.nodes[k], w.cells[k])
        ensures w.nodes[k].callOrderNumber == k && w.nodes[k].TID == threadId
      {
        if k == |v.nodes| {
          assert w.nodes[k] == call;
        } else {
          assert w.nodes[k] == v.nodes[k] && (k != a ==> v.nodes[k] != prevFunction);
        }
      }
    }

    /** What the runtime's callbacks do, behind the guards of their stubs. */
    method Handle(c: Callback) returns (crashed: bool)
      requires Valid()
      modifies this, Repr
      ensures Valid() && fresh(Repr - old(Repr)) && Seen() == Heard(old(Seen()), c)
      ensures crashed <==> Crashes(old(Seen()), c)
    {
      hide Valid;
      crashed := false;
      match c {
        case Mapped(f, name, allowed) =>
          var _ := Map(f, name, allowed);
        case Entered(f, t, now) =>
          if f != 0 {
            Enter(f, t, now);
          }
        case UnwindEntered(f, t, now) =>
          if f != 0 {
            Enter(f, t, now);
          }
        case Left(f, t, now) =>
          if f != 0 {
            crashed := Leave(t, now);
          }
        case TailCalled(f, t, now) =>
          if f != 0 {
            crashed := Leave(t, now);
          }
        case UnwindLeft(t, now) =>
          crashed := Leave(t, now);
        case Allocated(t) =>
          var _ := Lookup(t);
      }
    }
  }

  /** A profiling session: what is written is determined by the callbacks alone. */
  method Profile(callbacks: seq<Callback>, now: Stamp)
    returns (crashed: bool, lines: seq<Line>, names: seq<(int, string)>)
    ensures crashed <==> CrashesAlong(callbacks)
    ensures crashed <==> exists i: nat, t :: i < |callbacks| && FollowsNull(callbacks, i, t)
    ensures !crashed && ClocksRun(callbacks, now) ==> IsOutput(callbacks, now, lines, names)
    ensures !crashed ==>
              var s := HeardAll(callbacks);
              && lines == Written(Sorted(s.threads), s.events, now)
              && names == NamesWritten(Sorted(s.functions.Keys), s.functions)
  {
    var recorder := new Recorder();
    lines, names := [], [];
    CrashesAlongIff(callbacks);
    hide CrashesAlong, FollowsNull, IsOutput, ClocksRun;
    for i := 0 to |callbacks|
      invariant fresh(recorder) && fresh(recorder.Repr) && recorder.Valid()
      invariant recorder.Seen() == HeardAll(callbacks[..i])
      invariant forall j :: 0 <= j < i ==> !CrashesAt(callbacks, j)
    {
      crashed := recorder.Handle(callbacks[i]);
      if crashed {
        CrashFound(callbacks, i);
        return;
      }
      assert callbacks[..i + 1][..i] == callbacks[..i];
    }
    assert callbacks[..|callbacks|] == callbacks;
    crashed := false;
    var log := recorder.Shutdown(now);
    lines, names := log.lines, log.names;
    NoCrashFound(callbacks);
    if ClocksRun(callbacks, now) {
      OutputIs(callbacks, now);
    }
  }

  lemma CrashFound(callbacks: seq<Callback>, i: nat)
    requires i < |callbacks| && CrashesAt(callbacks, i)
    ensures CrashesAlong(callbacks)
  {
  }

  lemma NoCrashFound(callbacks: seq<Callback>)
    requires forall i :: 0 <= i < |callbacks| ==> !CrashesAt(callbacks, i)
    ensures !CrashesAlong(callbacks)
  {
  }
}
