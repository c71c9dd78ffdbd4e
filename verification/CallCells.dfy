/** A call tree laid out as numbered cells that refer to each other by number, as records in memory do. */
module CallCells {
  import opened CallTrees
  import opened CallRecords

  /** What one record in memory holds: the caller, its data, and its callees in order. */
  datatype Cell = Cell(prev: Parent, record: Record, calls: seq<nat>)

  function NumbersOf(ts: seq<CallTree>): seq<nat> {
    seq(|ts|, i requires 0 <= i < |ts| => ts[i].item.number)
  }

  /** The cells hold the tree. */
  ghost predicate Holds(cells: seq<Cell>, t: CallTree, prev: Parent) {
    && t.item.number < |cells|
    && cells[t.item.number] == Cell(prev, t.item, NumbersOf(t.calls))
    && HoldsAll(cells, t.calls, CalledBy(t.item.number))
  }

  ghost predicate HoldsAll(cells: seq<Cell>, ts: seq<CallTree>, prev: Parent) {
    ts == [] || (HoldsAll(cells, Front(ts), prev) && Holds(cells, Last(ts), prev))
  }

  /** The lines are numbered from `base` on. */
  ghost predicate NumberedFrom(lines: seq<Line>, base: nat) {
    forall k :: 0 <= k < |lines| ==> lines[k].record.number == base + k
  }

  lemma NumberedParts(a: seq<Line>, b: seq<Line>, base: nat)
    ensures NumberedFrom(a + b, base) <==> NumberedFrom(a, base) && NumberedFrom(b, base + |a|)
  {
    if NumberedFrom(a + b, base) {
      forall k | 0 <= k < |a| ensures a[k].record.number == base + k {
        assert (a + b)[k] == a[k];
      }
      forall k | 0 <= k < |b| ensures b[k].record.number == base + |a| + k {
        assert (a + b)[|a| + k] == b[k];
      }
    }
  }

  /** The numbers of a tree, its first calls and its last call, each in a range of its own. */
  lemma NumberedTree(t: CallTree, parent: Parent, base: nat)
    requires NumberedFrom(Lines(t, parent), base)
    ensures t.item.number == base
    ensures NumberedFrom(LinesAll(t.calls, CalledBy(base)), base + 1)
    ensures t.calls != [] ==>
              var before := |LinesAll(Front(t.calls), CalledBy(base))|;
              && NumberedFrom(LinesAll(Front(t.calls), CalledBy(base)), base + 1)
              && NumberedFrom(Lines(Last(t.calls), CalledBy(base)), base + 1 + before)
              && |Lines(t, parent)| == 1 + before + |Lines(Last(t.calls), CalledBy(base))|
  {
    assert Lines(t, parent)[0].record.number == base;
    NumberedParts([Line(t.item, parent)], LinesAll(t.calls, CalledBy(t.item.number)), base);
    if t.calls != [] {
      var here := CalledBy(base);
      NumberedParts(LinesAll(Front(t.calls), here), Lines(Last(t.calls), here), base + 1);
    }
  }

  lemma {:induction false} HoldsFrame(cells: seq<Cell>, cells': seq<Cell>, t: CallTree, prev: Parent, base: nat)
    requires Holds(cells, t, prev) && NumberedFrom(Lines(t, prev), base) && |cells| <= |cells'|
    requires forall k :: base <= k < base + |Lines(t, prev)| && k < |cells| ==> cells'[k] == cells[k]
    ensures Holds(cells', t, prev)
    decreases t, 1
  {
    NumberedTree(t, prev, base);
    HoldsAllFrame(cells, cells', t.calls, CalledBy(base), base + 1);
  }

  lemma {:induction false} HoldsAllFrame(cells: seq<Cell>, cells': seq<Cell>, ts: seq<CallTree>, prev: Parent,
                                         base: nat)
    requires HoldsAll(cells, ts, prev) && NumberedFrom(LinesAll(ts, prev), base) && |cells| <= |cells'|
    requires forall k :: base <= k < base + |LinesAll(ts, prev)| && k < |cells| ==> cells'[k] == cells[k]
    ensures HoldsAll(cells', ts, prev)
    decreases ts, 0
  {
    if ts != [] {
      NumberedParts(LinesAll(Front(ts), prev), Lines(Last(ts), prev), base);
      HoldsAllFrame(cells, cells', Front(ts), prev, base);
      HoldsFrame(cells, cells', Last(ts), prev, base + |LinesAll(Front(ts), prev)|);
    }
  }

  /** The chain of last children keeps inside the range of the tree's numbers, its first calls do not. */
  lemma {:induction false} ChainInRange(t: CallTree, d: nat, parent: Parent, base: nat)
    requires Reaches(t, d) && NumberedFrom(Lines(t, parent), base)
    ensures base <= ItemAt(t, d).number < base + |Lines(t, parent)|
    ensures d > 0 ==> ItemAt(t, d).number >= base + 1 + |LinesAll(Front(t.calls), CalledBy(base))|
    decreases d
  {
    NumberedTree(t, parent, base);
    if d > 0 {
      ChainInRange(Last(t.calls), d - 1, CalledBy(base), base + 1 + |LinesAll(Front(t.calls), CalledBy(base))|);
    }
  }

  /** The cell of a call on the chain refers back to the call before it. */
  lemma {:induction false} ChainLinks(cells: seq<Cell>, t: CallTree, d: nat, prev: Parent)
    requires Holds(cells, t, prev) && Reaches(t, d)
    ensures ItemAt(t, d).number < |cells| && cells[ItemAt(t, d).number].record == ItemAt(t, d)
    ensures d == 0 ==> cells[ItemAt(t, d).number].prev == prev
    ensures d > 0 ==> Reaches(t, d - 1) && cells[ItemAt(t, d).number].prev == CalledBy(ItemAt(t, d - 1).number)
    decreases d
  {
    if d > 0 {
      ChainLinks(cells, Last(t.calls), d - 1, CalledBy(t.item.number));
      ReachesLess(t, d, d - 1);
    }
  }

  /** The cells after a call entered below cell `a`. */
  function CellsEntered(cells: seq<Cell>, a: nat, leaf: Record): seq<Cell>
    requires a < |cells|
  {
    cells[a := cells[a].(calls := cells[a].calls + [|cells|])] + [Cell(CalledBy(a), leaf, [])]
  }

  lemma {:induction false} HoldsEntered(cells: seq<Cell>, t: CallTree, d: nat, leaf: Record, prev: Parent, base: nat)
    requires Holds(cells, t, prev) && Reaches(t, d) && NumberedFrom(Lines(t, prev), base)
    requires leaf.number == |cells| && base + |Lines(t, prev)| <= |cells|
    ensures ItemAt(t, d).number < |cells|
    ensures Holds(CellsEntered(cells, ItemAt(t, d).number, leaf), Append(t, d, Node(leaf, [])), prev)
    decreases d
  {
    hide Lines, LinesAll, NumberedFrom;
    ChainInRange(t, d, prev, base);
    NumberedTree(t, prev, base);
    if d == 0 {
      EnteredBelow(cells, t, leaf, prev, base);
    } else {
      var a, here := ItemAt(t, d).number, CalledBy(base);
      var x := Node(leaf, []);
      HoldsEntered(cells, Last(t.calls), d - 1, leaf, here, base + 1 + |LinesAll(Front(t.calls), here)|);
      var cells' := CellsEntered(cells, a, leaf);
      HoldsAllFrame(cells, cells', Front(t.calls), here, base + 1);
      LastChanged(cells, cells', t, Append(Last(t.calls), d - 1, x), prev);
    }
  }

  /** The cells hold the tree if its last child, still of the same number, is the only change. */
  lemma LastChanged(cells: seq<Cell>, cells': seq<Cell>, t: CallTree, last: CallTree, prev: Parent)
    requires Holds(cells, t, prev) && t.calls != [] && last.item.number == Last(t.calls).item.number
    requires t.item.number < |cells'| && cells'[t.item.number] == cells[t.item.number]
    requires HoldsAll(cells', Front(t.calls), CalledBy(t.item.number)) && Holds(cells', last, CalledBy(t.item.number))
    ensures Holds(cells', Node(t.item, Front(t.calls) + [last]), prev)
  {
    assert Front(Front(t.calls) + [last]) == Front(t.calls);
    assert NumbersOf(Front(t.calls) + [last]) == NumbersOf(t.calls);
  }

  lemma EnteredBelow(cells: seq<Cell>, t: CallTree, leaf: Record, prev: Parent, base: nat)
    requires Holds(cells, t, prev) && NumberedFrom(Lines(t, prev), base)
    requires leaf.number == |cells| && base + |Lines(t, prev)| <= |cells|
    ensures t.item.number < |cells|
    ensures Holds(CellsEntered(cells, t.item.number, leaf), Node(t.item, t.calls + [Node(leaf, [])]), prev)
  {
    hide Lines, LinesAll, NumberedFrom;
    NumberedTree(t, prev, base);
    var x, here := Node(leaf, []), CalledBy(base);
    var cells' := CellsEntered(cells, t.item.number, leaf);
    HoldsAllFrame(cells, cells', t.calls, here, base + 1);
    assert Front(t.calls + [x]) == t.calls;
    assert NumbersOf(t.calls + [x]) == NumbersOf(t.calls) + [|cells|];
    assert Holds(cells', x, here);
  }

  /** Changing the record in one cell, not its number, changes it in the tree. */
  lemma {:induction false} HoldsRelabeled(cells: seq<Cell>, t: CallTree, d: nat, item: Record, prev: Parent, base: nat)
    requires Holds(cells, t, prev) && Reaches(t, d) && NumberedFrom(Lines(t, prev), base)
    requires base + |Lines(t, prev)| <= |cells| && item.number == ItemAt(t, d).number
    ensures item.number < |cells|
    ensures Holds(cells[item.number := cells[item.number].(record := item)], Relabel(t, d, item), prev)
    decreases d
  {
    hide Lines, LinesAll, NumberedFrom;
    ChainInRange(t, d, prev, base);
    NumberedTree(t, prev, base);
    var cells' := cells[item.number := cells[item.number].(record := item)];
    var here := CalledBy(base);
    if d == 0 {
      HoldsAllFrame(cells, cells', t.calls, here, base + 1);
    } else {
      HoldsAllFrame(cells, cells', Front(t.calls), here, base + 1);
      HoldsRelabeled(cells, Last(t.calls), d - 1, item, here, base + 1 + |LinesAll(Front(t.calls), here)|);
      LastChanged(cells, cells', t, Relabel(Last(t.calls), d - 1, item), prev);
    }
  }
}
