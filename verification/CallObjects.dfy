/** The recorded calls as objects in memory. */
module CallObjects {
  import opened CallTrees
  import opened CallForests
  import opened CallRecords
  import opened CallCells

  /** One recorded call. */
  class FunctionClass {
    var prevFunction: FunctionClass?
    const funcId: int
    const TID: int
    const wallTimeEnter: real
    const cpuTimeEnter: real
    var wallTimeLeave: real
    var cpuTimeLeave: real
    const callOrderNumber: nat
    const depth: nat
    var calledFunctions: seq<FunctionClass>

    constructor (r: Record, prev: FunctionClass?)
      ensures AsRecord() == r.(leave := UNSET) && prevFunction == prev && calledFunctions == []
    {
      funcId, TID, callOrderNumber, depth := r.funcId, r.tid, r.number, r.depth;
      wallTimeEnter, cpuTimeEnter := r.enter.wall, r.enter.cpu;
      wallTimeLeave, cpuTimeLeave := 0.0, 0.0;
      prevFunction, calledFunctions := prev, [];
    }

    function AsRecord(): Record
      reads this
    {
      Record(funcId, TID, callOrderNumber, depth, Stamp(wallTimeEnter, cpuTimeEnter),
             Stamp(wallTimeLeave, cpuTimeLeave))
    }
  }

  /** The log: its list of calls and its table of function names. */
  class Logger {
    var lines: seq<Line>
    var names: seq<(int, string)>

    constructor ()
      ensures lines == [] && names == []
    {
      lines, names := [], [];
    }
  }

  /** The object in memory holds what the cell says, with objects for numbers. */
  ghost predicate Mirrors(nodes: seq<FunctionClass>, f: FunctionClass, c: Cell)
    reads f
  {
    && f.AsRecord() == c.record
    && (match c.prev
        case Root => f.prevFunction == null
        case CalledBy(p) => p < |nodes| && f.prevFunction == nodes[p])
    && |f.calledFunctions| == |c.calls|
    && forall i :: 0 <= i < |c.calls| ==> c.calls[i] < |nodes| && f.calledFunctions[i] == nodes[c.calls[i]]
  }

  /** The objects of one thread, by number, and what they hold. */
  datatype View = View(nodes: seq<FunctionClass>, cells: seq<Cell>)

  ghost predicate Mirrored(v: View, tid: int)
    reads v.nodes
  {
    && |v.nodes| == |v.cells|
    && forall k :: 0 <= k < |v.nodes| ==>
         && Mirrors(v.nodes, v.nodes[k], v.cells[k])
         && v.nodes[k].callOrderNumber == k && v.nodes[k].TID == tid
  }

  /** The cells hold the tree of the thread. */
  ghost predicate TreeHeld(cells: seq<Cell>, t: Thread) {
    && t.Calls? && ThreadValid(t) && t.last + 1 == |cells| == |Lines(t.root, Root)|
    && Holds(cells, t.root, Root) && NumberedFrom(Lines(t.root, Root), 0)
  }

  ghost predicate ViewValid(v: View, tid: int, t: Thread)
    reads v.nodes
  {
    Mirrored(v, tid) && TreeHeld(v.cells, t)
  }

  /** Memory holds a thread's tree after its events, and its entry in the map of active calls fits. */
  ghost predicate ThreadHeld(v: View, events: seq<Event>, tid: int, entry: (int, FunctionClass?))
    reads v.nodes
  {
    var t := After(tid, events);
    && ViewValid(v, tid, t) && entry.0 == t.last && entry.1 != null && IsActive(v, t, entry.1)
  }

  ghost predicate IsActive(v: View, t: Thread, f: FunctionClass) {
    && t.Calls? && ThreadValid(t)
    && ItemAt(t.root, t.active).number < |v.nodes| && f == v.nodes[ItemAt(t.root, t.active).number]
  }

  /** The view after a call entered. */
  function Grown(v: View, a: nat, f: FunctionClass, leaf: Record): View
    requires a < |v.cells|
  {
    View(v.nodes + [f], CellsEntered(v.cells, a, leaf))
  }

  /** The number in a thread's entry counts its enters. */
  lemma HeldNumber(v: View, events: seq<Event>, tid: int, entry: (int, FunctionClass?))
    requires ThreadHeld(v, events, tid, entry)
    ensures entry.1 in v.nodes && entry.0 == |Enters(events)| - 1
  {
    AnyRunListsEnters(tid, events);
    hide Holds, Mirrored, NumberedFrom, After, Lines;
  }

  lemma AfterOneMore(tid: int, events: seq<Event>, e: Event)
    ensures ThreadValid(After(tid, events))
    ensures e.Enter? ==> After(tid, events + [e]) == AfterEnter(After(tid, events), tid, e.funcId, e.now)
    ensures e.Leave? ==> After(tid, events + [e]) == AfterLeave(After(tid, events), e.now)
  {
  }

  /** The active call is the object its number says, with the data of its cell. */
  lemma ActiveCell(v: View, tid: int, t: Thread)
    requires ViewValid(v, tid, t)
    ensures t.active > 0 ==> Reaches(t.root, t.active - 1)
    ensures |v.nodes| == |v.cells| == t.last + 1
    ensures var a := ItemAt(t.root, t.active).number;
            && a < |v.nodes| && v.nodes[a].AsRecord() == v.cells[a].record == ItemAt(t.root, t.active)
            && v.nodes[a].TID == tid && Mirrors(v.nodes, v.nodes[a], v.cells[a])
            && v.cells[a].prev == if t.active == 0 then Root else CalledBy(ItemAt(t.root, t.active - 1).number)
  {
    if t.active > 0 {
      ReachesLess(t.root, t.active, t.active - 1);
    }
    ChainLinks(v.cells, t.root, t.active, Root);
  }

  lemma MirrorsMore(nodes: seq<FunctionClass>, call: FunctionClass, f: FunctionClass, c: Cell)
    requires Mirrors(nodes, f, c)
    ensures Mirrors(nodes + [call], f, c)
  {
  }

  /** The tree after a call entered is held by the cells after it. */
  lemma TreeEntered(cells: seq<Cell>, t: Thread, leaf: Record)
    requires TreeHeld(cells, t) && leaf.number == |cells|
    ensures var x := Node(leaf, []);
            var a := ItemAt(t.root, t.active).number;
            && a < |cells| && Reaches(Append(t.root, t.active, x), t.active + 1)
            && ItemAt(Append(t.root, t.active, x), t.active + 1) == leaf
            && TreeHeld(CellsEntered(cells, a, leaf), Calls(Append(t.root, t.active, x), t.active + 1, t.last + 1))
  {
    HoldsEntered(cells, t.root, t.active, leaf, Root, 0);
    LinesAppend(t.root, t.active, leaf, Root);
    AppendReaches(t.root, t.active, Node(leaf, []));
  }

  /** What a new callee of the active call is, and the tree it makes. */
  lemma BeforeCallee(v: View, tid: int, t: Thread, f: FunctionClass, funcId: int, now: Stamp)
    requires ViewValid(v, tid, t) && IsActive(v, t, f)
    ensures var a, after := ItemAt(t.root, t.active).number, AfterEnter(t, tid, funcId, now);
            var leaf := Record(funcId, tid, t.last + 1, f.depth + 1, now, UNSET);
            && a < |v.nodes| == |v.cells| == leaf.number && v.nodes[a] == f && Mirrored(v, tid)
            && after.Calls? && ThreadValid(after) && ItemAt(after.root, after.active).number == |v.nodes|
            && TreeHeld(CellsEntered(v.cells, a, leaf), after)
  {
    var leaf := NewRecord(t, tid, funcId, now);
    ActiveCell(v, tid, t);
    TreeEntered(v.cells, t, leaf);
    hide TreeHeld;
  }

  /** The tree after the active call left is held by the cells after it. */
  lemma TreeLeft(cells: seq<Cell>, t: Thread, now: Stamp)
    requires TreeHeld(cells, t)
    ensures var item := ItemAt(t.root, t.active).(leave := now);
            var after := AfterLeave(t, now);
            && item.number < |cells| && ThreadValid(after)
            && TreeHeld(cells[item.number := cells[item.number].(record := item)], after) && after.last == t.last
            && (t.active == 0 ==> ItemAt(after.root, after.active).number == item.number)
            && (t.active > 0 ==> Reaches(t.root, t.active - 1))
            && (t.active > 0 ==> ItemAt(after.root, after.active).number == ItemAt(t.root, t.active - 1).number)
  {
    var item := ItemAt(t.root, t.active).(leave := now);
    HoldsRelabeled(cells, t.root, t.active, item, Root, 0);
    LinesLeave(t.root, t.active, now, Root);
    RelabelReaches(t.root, t.active, item);
    if t.active > 0 {
      ReachesLess(t.root, t.active, t.active - 1);
    }
    hide Holds, Lines;
  }

  lemma FirstIsHeld(r: Record)
    requires r.number == 0
    ensures Holds([Cell(Root, r, [])], Node(r, []), Root)
    ensures Lines(Node(r, []), Root) == [Line(r, Root)]
  {
  }
}
