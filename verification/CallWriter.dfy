/** Writing a tree of recorded calls, and letting go of it. */
module CallWriter {
  import opened Basics
  import opened CallTrees
  import opened CallRecords
  import opened CallCells
  import opened CallObjects

  ghost function Range(nodes: seq<FunctionClass>, lo: int, hi: int): set<FunctionClass> {
    set k | lo <= k < hi && 0 <= k < |nodes| :: nodes[k]
  }

  /** The objects numbered from `lo` up to `hi` hold their cells. */
  ghost predicate RangeMirrored(v: View, lo: int, hi: int)
    reads Range(v.nodes, lo, hi)
  {
    && |v.nodes| == |v.cells| && 0 <= lo && hi <= |v.nodes|
    && forall k :: lo <= k < hi ==> Mirrors(v.nodes, v.nodes[k], v.cells[k])
  }

  ghost predicate NumbersMatch(nodes: seq<FunctionClass>) {
    forall k :: 0 <= k < |nodes| ==> nodes[k].callOrderNumber == k
  }

  lemma RangesApart(nodes: seq<FunctionClass>, lo: int, mid: int, hi: int)
    requires NumbersMatch(nodes) && lo <= mid <= hi
    ensures Range(nodes, lo, mid) !! Range(nodes, mid, hi)
    ensures Range(nodes, lo, mid) <= Range(nodes, lo, hi) && Range(nodes, mid, hi) <= Range(nodes, lo, hi)
  {
  }

  lemma RangeParts(v: View, lo: int, mid: int, hi: int)
    requires RangeMirrored(v, lo, hi) && lo <= mid <= hi
    ensures RangeMirrored(v, lo, mid) && RangeMirrored(v, mid, hi)
  {
  }

  /** Where each of several trees in a row begins: `out[i]` is what is written before the i-th. */
  ghost predicate LaidOut(cells: seq<Cell>, ts: seq<CallTree>, prev: Parent, base: nat, out: seq<seq<Line>>) {
    && |out| == |ts| + 1 && out[0] == [] && out[|ts|] == LinesAll(ts, prev)
    && forall i :: 0 <= i < |ts| ==> LaidOutAt(cells, ts, prev, base, out, i)
  }

  ghost predicate LaidOutAt(cells: seq<Cell>, ts: seq<CallTree>, prev: Parent, base: nat, out: seq<seq<Line>>, i: nat)
    requires |out| == |ts| + 1 && i < |ts|
  {
    && Holds(cells, ts[i], prev) && NumberedFrom(Lines(ts[i], prev), ts[i].item.number)
    && ts[i].item.number == base + |out[i]| && out[i + 1] == out[i] + Lines(ts[i], prev)
    && |out[i + 1]| <= |LinesAll(ts, prev)|
  }

  lemma LaidOutFacts(cells: seq<Cell>, ts: seq<CallTree>, prev: Parent, base: nat, out: seq<seq<Line>>, i: nat)
    requires LaidOut(cells, ts, prev, base, out) && i < |ts|
    ensures Holds(cells, ts[i], prev) && NumberedFrom(Lines(ts[i], prev), ts[i].item.number)
    ensures ts[i].item.number == base + |out[i]| && out[i + 1] == out[i] + Lines(ts[i], prev)
    ensures |out[i + 1]| <= |LinesAll(ts, prev)|
  {
    assert LaidOutAt(cells, ts, prev, base, out, i);
  }

  lemma {:induction false} LayOut(cells: seq<Cell>, ts: seq<CallTree>, prev: Parent, base: nat)
    returns (out: seq<seq<Line>>)
    requires HoldsAll(cells, ts, prev) && NumberedFrom(LinesAll(ts, prev), base)
    ensures LaidOut(cells, ts, prev, base, out)
    decreases |ts|
  {
    if ts == [] {
      out := [[]];
    } else {
      NumberedParts(LinesAll(Front(ts), prev), Lines(Last(ts), prev), base);
      NumberedTree(Last(ts), prev, base + |LinesAll(Front(ts), prev)|);
      var front := LayOut(cells, Front(ts), prev, base);
      out := front + [LinesAll(ts, prev)];
      forall i | 0 <= i < |ts| ensures LaidOutAt(cells, ts, prev, base, out, i) {
        if i < |ts| - 1 {
          assert LaidOutAt(cells, Front(ts), prev, base, front, i);
        }
      }
    }
  }

  lemma TopOfTree(cells: seq<Cell>, t: CallTree, prev: Parent)
    requires Holds(cells, t, prev) && NumberedFrom(Lines(t, prev), t.item.number)
    ensures var base := t.item.number;
            && base < |cells| && cells[base] == Cell(prev, t.item, NumbersOf(t.calls))
            && HoldsAll(cells, t.calls, CalledBy(base)) && NumberedFrom(LinesAll(t.calls, CalledBy(base)), base + 1)
            && Lines(t, prev) == [Line(t.item, prev)] + LinesAll(t.calls, CalledBy(base))
    ensures LinesAll([], CalledBy(t.item.number)) == []
  {
    NumberedTree(t, prev, t.item.number);
  }

  /** The objects of a tree: they are numbered as its lines are. */
  ghost function Own(v: View, t: CallTree, prev: Parent): set<FunctionClass> {
    Range(v.nodes, t.item.number, t.item.number + |Lines(t, prev)|)
  }

  ghost function OwnAll(v: View, ts: seq<CallTree>, prev: Parent, base: nat): set<FunctionClass> {
    Range(v.nodes, base, base + |LinesAll(ts, prev)|)
  }

  /** The objects hold the tree, `f` is the one of its root. */
  ghost predicate TreeInPlace(f: FunctionClass, v: View, t: CallTree, prev: Parent)
    reads Own(v, t, prev)
  {
    && Holds(v.cells, t, prev) && NumberedFrom(Lines(t, prev), t.item.number) && NumbersMatch(v.nodes)
    && RangeMirrored(v, t.item.number, t.item.number + |Lines(t, prev)|)
    && t.item.number < |v.nodes| && f == v.nodes[t.item.number]
  }

  ghost predicate TreesInPlace(fs: seq<FunctionClass>, v: View, ts: seq<CallTree>, prev: Parent, base: nat)
    reads OwnAll(v, ts, prev, base)
  {
    && HoldsAll(v.cells, ts, prev) && NumberedFrom(LinesAll(ts, prev), base) && NumbersMatch(v.nodes)
    && RangeMirrored(v, base, base + |LinesAll(ts, prev)|) && RootsOf(fs, v, ts)
  }

  ghost predicate RootsOf(fs: seq<FunctionClass>, v: View, ts: seq<CallTree>) {
    && |fs| == |ts|
    && forall i :: 0 <= i < |ts| ==> ts[i].item.number < |v.nodes| && fs[i] == v.nodes[ts[i].item.number]
  }

  /** The objects have let go of their callees. */
  ghost predicate Released(fs: set<FunctionClass>)
    reads fs
  {
    forall f :: f in fs ==> f.calledFunctions == []
  }

  lemma ReleasedBoth(a: set<FunctionClass>, b: set<FunctionClass>)
    ensures Released({})
    ensures Released(a) && Released(b) ==> Released(a + b)
  {
  }

  lemma ReleasedOne(f: FunctionClass)
    requires f.calledFunctions == []
    ensures Released({f})
  {
  }

  /** Writes the record and its callees' trees, and lets go of them. */
  method Serialize(f: FunctionClass, log: Logger, ghost v: View, ghost t: CallTree, ghost prev: Parent)
    requires TreeInPlace(f, v, t, prev)
    modifies log`lines, Own(v, t, prev)`calledFunctions
    ensures log.lines == old(log.lines) + Lines(t, prev) && Released(Own(v, t, prev))
    decreases t, 2
  {
    hide *;
    ghost var here, was := CalledBy(t.item.number), log.lines;
    BeforeCalls(f, v, t, prev);
    log.lines := log.lines + [LineOf(f)];
    SerializeAll(f.calledFunctions, log, v, t.calls, here, t.item.number + 1);
    Regroup(was, [Line(t.item, prev)], LinesAll(t.calls, here));
    f.calledFunctions := [];
    ReleasedOne(f);
    ReleasedBoth({f}, OwnAll(v, t.calls, here, t.item.number + 1));
  }

  lemma BeforeCalls(f: FunctionClass, v: View, t: CallTree, prev: Parent)
    requires TreeInPlace(f, v, t, prev)
    ensures LineOf(f) == Line(t.item, prev)
    ensures var base, here := t.item.number, CalledBy(t.item.number);
            && Lines(t, prev) == [Line(t.item, prev)] + LinesAll(t.calls, here)
            && TreesInPlace(f.calledFunctions, v, t.calls, here, base + 1)
            && Own(v, t, prev) == {f} + OwnAll(v, t.calls, here, base + 1)
            && f !in OwnAll(v, t.calls, here, base + 1)
  {
    var base, here := t.item.number, CalledBy(t.item.number);
    var end := base + |Lines(t, prev)|;
    TopOfTree(v.cells, t, prev);
    assert end == base + 1 + |LinesAll(t.calls, here)|;
    hide Holds, HoldsAll, Lines, LinesAll, NumberedFrom, Mirrors, LineOf;
    RecordWritten(f, v, t, prev, end);
    hide RangeMirrored, Range, NumbersMatch;
    RangeParts(v, base, base + 1, end);
    RangesApart(v.nodes, base, base + 1, end);
    RangesJoin(v.nodes, base, base + 1, end);
    RangeOfOne(v.nodes, base);
  }

  lemma RangeOfOne(nodes: seq<FunctionClass>, k: nat)
    requires k < |nodes|
    ensures Range(nodes, k, k + 1) == {nodes[k]}
  {
  }

  lemma RangesJoin(nodes: seq<FunctionClass>, lo: int, mid: int, hi: int)
    requires lo <= mid <= hi
    ensures Range(nodes, lo, hi) == Range(nodes, lo, mid) + Range(nodes, mid, hi)
  {
  }

  function LineOf(f: FunctionClass): Line
    reads f
  {
    Line(f.AsRecord(), if f.prevFunction != null then CalledBy(f.prevFunction.callOrderNumber) else Root)
  }

  lemma RecordWritten(f: FunctionClass, v: View, t: CallTree, prev: Parent, end: int)
    requires RangeMirrored(v, t.item.number, end) && t.item.number < end && NumbersMatch(v.nodes)
    requires v.cells[t.item.number] == Cell(prev, t.item, NumbersOf(t.calls)) && f == v.nodes[t.item.number]
    ensures LineOf(f) == Line(t.item, prev) && f in Range(v.nodes, t.item.number, t.item.number + 1)
    ensures |f.calledFunctions| == |t.calls|
    ensures forall i :: 0 <= i < |t.calls| ==>
              t.calls[i].item.number < |v.nodes| && f.calledFunctions[i] == v.nodes[t.calls[i].item.number]
  {
    var c := v.cells[t.item.number];
    assert Mirrors(v.nodes, f, c);
    assert forall i :: 0 <= i < |t.calls| ==> c.calls[i] == t.calls[i].item.number;
  }

  /** The trees from the i-th on are in place. */
  ghost predicate RestInPlace(fs: seq<FunctionClass>, v: View, ts: seq<CallTree>, prev: Parent, base: nat,
                              out: seq<seq<Line>>, i: nat)
    requires i < |out|
    reads Rest(v, ts, prev, base, out[i])
  {
    && LaidOut(v.cells, ts, prev, base, out) && NumbersMatch(v.nodes) && RootsOf(fs, v, ts)
    && RangeMirrored(v, base + |out[i]|, base + |LinesAll(ts, prev)|)
  }

  ghost function Done(v: View, base: nat, written: seq<Line>): set<FunctionClass> {
    Range(v.nodes, base, base + |written|)
  }

  ghost function Rest(v: View, ts: seq<CallTree>, prev: Parent, base: nat, written: seq<Line>): set<FunctionClass> {
    Range(v.nodes, base + |written|, base + |LinesAll(ts, prev)|)
  }

  lemma FirstTree(fs: seq<FunctionClass>, v: View, ts: seq<CallTree>, prev: Parent, base: nat)
    returns (out: seq<seq<Line>>)
    requires TreesInPlace(fs, v, ts, prev, base)
    ensures |fs| == |ts| && |out| == |ts| + 1 && out[0] == [] && out[|ts|] == LinesAll(ts, prev)
    ensures RestInPlace(fs, v, ts, prev, base, out, 0)
    ensures Done(v, base, []) == {} && Done(v, base, LinesAll(ts, prev)) == OwnAll(v, ts, prev, base)
  {
    out := LayOut(v.cells, ts, prev, base);
    hide HoldsAll, Holds, NumberedFrom, Mirrors, LaidOutAt;
  }

  lemma NextTree(
      fs: seq<FunctionClass>, v: View, ts: seq<CallTree>, prev: Parent, base: nat, out: seq<seq<Line>>, i: nat)
    requires i < |ts| == |fs| && |out| == |ts| + 1 && RestInPlace(fs, v, ts, prev, base, out, i)
    ensures TreeInPlace(fs[i], v, ts[i], prev) && out[i] + Lines(ts[i], prev) == out[i + 1]
    ensures RestInPlace(fs, v, ts, prev, base, out, i + 1)
    ensures Own(v, ts[i], prev) <= OwnAll(v, ts, prev, base)
    ensures Own(v, ts[i], prev) !! Rest(v, ts, prev, base, out[i + 1])
    ensures Own(v, ts[i], prev) !! Done(v, base, out[i])
    ensures Done(v, base, out[i + 1]) == Done(v, base, out[i]) + Own(v, ts[i], prev)
  {
    hide Holds, Lines, LinesAll, NumberedFrom, RangeMirrored, Range, NumbersMatch, LaidOut;
    var lo, mid, end := base + |out[i]|, base + |out[i + 1]|, base + |LinesAll(ts, prev)|;
    LaidOutFacts(v.cells, ts, prev, base, out, i);
    RangeParts(v, lo, mid, end);
    RangesApart(v.nodes, lo, mid, end);
    RangesApart(v.nodes, base, lo, end);
    RangesApart(v.nodes, base, lo, mid);
    RangesJoin(v.nodes, base, lo, mid);
  }

  /** Writes the trees of callees, one after the other. */
  method SerializeAll(functions: seq<FunctionClass>, log: Logger, ghost v: View, ghost ts: seq<CallTree>,
                      ghost prev: Parent, ghost base: nat)
    requires TreesInPlace(functions, v, ts, prev, base)
    modifies log`lines, OwnAll(v, ts, prev, base)`calledFunctions
    ensures log.lines == old(log.lines) + LinesAll(ts, prev) && Released(OwnAll(v, ts, prev, base))
    decreases ts, 1
  {
    hide *;
    ghost var was := log.lines;
    ghost var out := FirstTree(functions, v, ts, prev, base);
    ReleasedBoth({}, {});
    assert log.lines == was + out[0];
    for i := 0 to |functions|
      invariant log.lines == was + out[i]
      invariant RestInPlace(functions, v, ts, prev, base, out, i) && Released(Done(v, base, out[i]))
    {
      SerializeNext(functions, log, v, ts, prev, base, out, i, was);
    }
  }

  /** Writes the tree of one callee of several. */
  method SerializeNext(functions: seq<FunctionClass>, log: Logger, ghost v: View, ghost ts: seq<CallTree>,
                       ghost prev: Parent, ghost base: nat, ghost out: seq<seq<Line>>, i: nat, ghost was: seq<Line>)
    requires i < |ts| == |functions| && |out| == |ts| + 1 && RestInPlace(functions, v, ts, prev, base, out, i)
    requires log.lines == was + out[i] && Released(Done(v, base, out[i]))
    modifies log`lines, OwnAll(v, ts, prev, base)`calledFunctions
    ensures log.lines == was + out[i + 1]
    ensures RestInPlace(functions, v, ts, prev, base, out, i + 1) && Released(Done(v, base, out[i + 1]))
    decreases ts, 0
  {
    hide RestInPlace, TreeInPlace, OwnAll, Released, Lines, LinesAll;
    NextTree(functions, v, ts, prev, base, out, i);
    Serialize(functions[i], log, v, ts[i], prev);
    Regroup(was, out[i], Lines(ts[i], prev));
    ReleasedBoth(Done(v, base, out[i]), Own(v, ts[i], prev));
  }

  /** Writes the tree a thread's objects hold. */
  method WriteTree(threadId: int, root: FunctionClass, log: Logger, ghost v: View, ghost t: Thread)
    requires ViewValid(v, threadId, t) && IsActive(v, t, root) && t.active == 0
    modifies log`lines, set f | f in v.nodes
    ensures log.lines == old(log.lines) + Lines(t.root, Root)
    ensures forall f :: f in v.nodes ==> f.calledFunctions == []
  {
    WholeTree(v, threadId, t, root);
    hide TreeInPlace, ViewValid, Own, Lines;
    Serialize(root, log, v, t.root, Root);
  }

  lemma WholeTree(v: View, tid: int, t: Thread, root: FunctionClass)
    requires ViewValid(v, tid, t) && IsActive(v, t, root) && t.active == 0
    ensures TreeInPlace(root, v, t.root, Root)
    ensures Own(v, t.root, Root) == set f | f in v.nodes
  {
    NumberedTree(t.root, Root, 0);
    assert |Lines(t.root, Root)| == |v.nodes|;
    forall f | f in v.nodes ensures f in Own(v, t.root, Root) {
      var k :| 0 <= k < |v.nodes| && v.nodes[k] == f;
    }
  }
}
