/** The tracker of allocated objects: maps and lists of objects that the callbacks update in place. */
module GcTracker {
  import opened GcFates
  import opened GcModel
  import opened SortedMaps

  class ObjectClass {
    ghost const serial: nat
    const what: Allocation
    const gcNumber: int
    var untilGcNumber: int

    constructor (what: Allocation, gcNumber: int, ghost serial: nat)
      ensures AsObject() == Object(serial, what, gcNumber, gcNumber)
    {
      this.serial, this.what, this.gcNumber, untilGcNumber := serial, what, gcNumber, gcNumber;
    }

    function AsLine(): ObjectLine
      reads this
    {
      ObjectLine(what, gcNumber, untilGcNumber)
    }

    ghost function AsObject(): Object
      reads this
    {
      Object(serial, what, gcNumber, untilGcNumber)
    }
  }

  ghost function EntriesAt(alloc: map<int, ObjectClass>, keys: seq<int>): seq<ObjectClass>
    requires forall i :: 0 <= i < |keys| ==> keys[i] in alloc
  {
    seq(|keys|, i requires 0 <= i < |keys| => alloc[keys[i]])
  }

  lemma EntriesMore(alloc: map<int, ObjectClass>, keys: seq<int>, k: int)
    requires (forall i :: 0 <= i < |keys| ==> keys[i] in alloc) && k in alloc
    ensures EntriesAt(alloc, keys + [k]) == EntriesAt(alloc, keys) + [alloc[k]]
  {
  }

  /** No object is live at two addresses, or both live and dead. */
  ghost predicate Apart(alloc: map<int, ObjectClass>, dead: seq<ObjectClass>, all: set<ObjectClass>) {
    && (forall k :: k in alloc ==> alloc[k] in all && alloc[k].what.objectId == k && alloc[k] !in dead)
    && (forall i :: 0 <= i < |dead| ==> dead[i] in all)
  }

  /** The values of the objects in memory. */
  ghost function HeapOf(alloc: map<int, ObjectClass>, dead: seq<ObjectClass>, gcNumber: int, count: nat): Heap
    reads alloc.Values, dead
  {
    Heap(map k | k in alloc :: alloc[k].AsObject(),
         seq(|dead|, i requires 0 <= i < |dead| reads dead => dead[i].AsObject()), gcNumber, count)
  }

  /** Moving the unstamped objects in memory is the end of a collection. */
  lemma FinishedIs(alloc: map<int, ObjectClass>, dead: seq<ObjectClass>, all: set<ObjectClass>, gcNumber: int,
                   count: nat)
    requires Apart(alloc, dead, all)
    ensures var h := HeapOf(alloc, dead, gcNumber, count);
            var alloc', dead' := alloc - Unstamped(h), dead + EntriesAt(alloc, Sorted(Unstamped(h)));
            Apart(alloc', dead', all) && HeapOf(alloc', dead', gcNumber, count) == AfterFinished(h)
  {
    var h := HeapOf(alloc, dead, gcNumber, count);
    var keys := Sorted(Unstamped(h));
    StayApart(alloc, dead, all, keys, Unstamped(h));
    assert HeapOf(alloc - Unstamped(h), [], gcNumber, count).live == AfterFinished(h).live;
    var dead' := dead + EntriesAt(alloc, keys);
    assert HeapOf(map[], dead', gcNumber, count).dead == AfterFinished(h).dead;
  }

  lemma StayApart(alloc: map<int, ObjectClass>, dead: seq<ObjectClass>, all: set<ObjectClass>, keys: seq<int>,
                  gone: set<int>)
    requires Apart(alloc, dead, all) && IsSorted(keys, gone) && gone <= alloc.Keys
    ensures Apart(alloc - gone, dead + EntriesAt(alloc, keys), all)
  {
  }

  /** The keys among the first `i` that are in `gone`. */
  ghost predicate Picked(keys: seq<int>, i: nat, gone: set<int>, picked: seq<int>) {
    && i <= |keys| && Ascending(picked)
    && (forall j :: 0 <= j < |picked| ==> picked[j] in gone)
    && (forall j, k :: 0 <= j < |picked| && i <= k < |keys| ==> picked[j] < keys[k])
    && (forall j :: 0 <= j < i && keys[j] in gone ==> keys[j] in picked)
  }

  lemma PickNext(keys: seq<int>, i: nat, gone: set<int>, picked: seq<int>)
    requires Picked(keys, i, gone, picked) && i < |keys| && Ascending(keys)
    ensures Picked(keys, i + 1, gone, if keys[i] in gone then picked + [keys[i]] else picked)
  {
  }

  lemma PickedAll(keys: seq<int>, gone: set<int>, picked: seq<int>, all: set<int>)
    requires Picked(keys, |keys|, gone, picked) && IsSorted(keys, all) && gone <= all
    ensures picked == Sorted(gone)
  {
    forall k | k in gone ensures k in picked {
      assert k in keys;
    }
    SortedUnique(picked, Sorted(gone), gone);
  }

  lemma MarkedIs(alloc: map<int, ObjectClass>, dead: seq<ObjectClass>, h: Heap, r: Range)
    requires alloc.Keys == h.live.Keys && |dead| == |h.dead|
    requires forall k :: k in alloc ==> alloc[k].AsObject() == Marked(h.live[k], r.Contains(k), h.gcNumber)
    requires forall i :: 0 <= i < |dead| ==> dead[i].AsObject() == h.dead[i]
    ensures HeapOf(alloc, dead, h.gcNumber, h.count) == AfterSurvived(h, [r])
  {
  }

  class Tracker {
    var objectsAlloc: map<int, ObjectClass>
    var objectsDeAlloc: seq<ObjectClass>
    var gcNumber: int
    const isDeallocEnable: bool
    ghost var count: nat
    ghost var Repr: set<ObjectClass>

    constructor (deallocEnable: bool)
      ensures Valid() && Now() == START && isDeallocEnable == deallocEnable && Repr == {}
    {
      objectsAlloc, objectsDeAlloc, gcNumber := map[], [], 1;
      isDeallocEnable := deallocEnable;
      count, Repr := 0, {};
    }

    ghost predicate Valid()
      reads this
    {
      Apart(objectsAlloc, objectsDeAlloc, Repr)
    }

    ghost function Now(): Heap
      reads this, objectsAlloc.Values, objectsDeAlloc
    {
      HeapOf(objectsAlloc, objectsDeAlloc, gcNumber, count)
    }

    method ObjectAllocated(what: Allocation, measured: bool)
      requires Valid()
      modifies this
      ensures Valid() && fresh(Repr - old(Repr)) && old(Repr) <= Repr
      ensures Now() == AfterAllocated(old(Now()), what, measured)
    {
      if measured {
        var entry := new ObjectClass(what, gcNumber, count);
        objectsAlloc := objectsAlloc[what.objectId := entry];
        Repr, count := Repr + {entry}, count + 1;
      }
    }

    method GarbageCollectionStarted()
      requires Valid()
      modifies `gcNumber
      ensures Valid() && Now() == old(Now()).(gcNumber := old(Now()).gcNumber + 1)
    {
      gcNumber := gcNumber + 1;
    }

    method SurvivingReferences(ranges: seq<Range>)
      requires Valid()
      modifies Repr
      ensures Valid() && Now() == if isDeallocEnable then AfterSurvived(old(Now()), ranges) else old(Now())
    {
      if !isDeallocEnable {
        return;
      }
      ghost var before := Now();
      SurvivedNone(before);
      for i := 0 to |ranges|
        invariant Valid() && Now() == AfterSurvived(before, ranges[..i])
      {
        MarkRange(ranges[i]);
        SurvivedMore(before, ranges[..i], ranges[i]);
        assert ranges[..i] + [ranges[i]] == ranges[..i + 1];
      }
      assert ranges[..|ranges|] == ranges;
    }

    /** Walks the objects in order of address and stops behind the range. */
    method MarkRange(r: Range)
      requires Valid()
      modifies Repr
      ensures Valid() && Now() == AfterSurvived(old(Now()), [r])
    {
      var keys := Sorted(objectsAlloc.Keys);
      for i := 0 to |keys|
        invariant forall j :: 0 <= j < |keys| ==>
                    objectsAlloc[keys[j]].untilGcNumber == if j < i && r.Contains(keys[j]) then gcNumber
                                                           else old(objectsAlloc[keys[j]].untilGcNumber)
        invariant forall o :: o in objectsDeAlloc ==> unchanged(o)
      {
        var key := keys[i];
        var value := objectsAlloc[key];
        if r.start <= key && key < r.start + r.length {
          value.untilGcNumber := gcNumber;
        }
        if key >= r.start + r.length {
          assert forall j :: i <= j < |keys| ==> !r.Contains(keys[j]);
          break;
        }
      }
      ghost var h := old(Now());
      forall k | k in objectsAlloc
        ensures objectsAlloc[k].AsObject() == Marked(h.live[k], r.Contains(k), gcNumber)
      {
        assert k in keys;
      }
      forall i | 0 <= i < |objectsDeAlloc| ensures objectsDeAlloc[i].AsObject() == h.dead[i] {
        assert objectsDeAlloc[i] in objectsDeAlloc;
      }
      hide AfterSurvived;
      MarkedIs(objectsAlloc, objectsDeAlloc, h, r);
    }

    method GarbageCollectionFinished()
      requires Valid()
      modifies `objectsAlloc, `objectsDeAlloc
      ensures Valid() && Now() == if isDeallocEnable then AfterFinished(old(Now())) else old(Now())
    {
      if !isDeallocEnable {
        return;
      }
      hide HeapOf, AfterFinished, EntriesAt, Unstamped, Apart;
      ghost var alloc, dead, gone := objectsAlloc, objectsDeAlloc, Unstamped(Now());
      FinishedIs(alloc, dead, Repr, gcNumber, count);
      var objectsToDelete := CollectUnstamped();
      Erase(objectsToDelete, gone);
    }

    method Erase(keys: seq<int>, ghost gone: set<int>)
      requires IsSorted(keys, gone)
      modifies `objectsAlloc
      ensures objectsAlloc == old(objectsAlloc) - gone
    {
      SortedElements(keys, gone);
      for i := 0 to |keys|
        invariant objectsAlloc == old(objectsAlloc) - set j | 0 <= j < i :: keys[j]
      {
        objectsAlloc := objectsAlloc - {keys[i]};
      }
    }

    /** Appends the objects without the stamp of the collection to the dead, in order of address. */
    method CollectUnstamped() returns (objectsToDelete: seq<int>)
      requires Valid()
      modifies `objectsDeAlloc
      ensures objectsToDelete == Sorted(Unstamped(old(Now())))
      ensures objectsDeAlloc == old(objectsDeAlloc) + EntriesAt(objectsAlloc, objectsToDelete)
    {
      ghost var gone := Unstamped(Now());
      var keys := Sorted(objectsAlloc.Keys);
      assert forall i :: 0 <= i < |keys| ==> (keys[i] in gone <==> objectsAlloc[keys[i]].untilGcNumber != gcNumber);
      assert gone <= objectsAlloc.Keys;
      hide HeapOf, Unstamped, EntriesAt, Picked;
      objectsToDelete := CollectFrom(keys, gone);
      PickedAll(keys, gone, objectsToDelete, objectsAlloc.Keys);
    }

    method CollectFrom(keys: seq<int>, ghost gone: set<int>) returns (objectsToDelete: seq<int>)
      requires Ascending(keys) && gone <= objectsAlloc.Keys
      requires forall i :: 0 <= i < |keys| ==> keys[i] in objectsAlloc
      requires forall i :: 0 <= i < |keys| ==> (keys[i] in gone <==> objectsAlloc[keys[i]].untilGcNumber != gcNumber)
      modifies `objectsDeAlloc
      ensures Picked(keys, |keys|, gone, objectsToDelete)
      ensures objectsDeAlloc == old(objectsDeAlloc) + EntriesAt(objectsAlloc, objectsToDelete)
    {
      objectsToDelete := [];
      assert EntriesAt(objectsAlloc, []) == [];
      hide EntriesAt;
      for i := 0 to |keys|
        invariant Picked(keys, i, gone, objectsToDelete)
        invariant objectsDeAlloc == old(objectsDeAlloc) + EntriesAt(objectsAlloc, objectsToDelete)
      {
        PickNext(keys, i, gone, objectsToDelete);
        var entry := objectsAlloc[keys[i]];
        if entry.untilGcNumber != gcNumber {
          EntriesMore(objectsAlloc, objectsToDelete, keys[i]);
          objectsDeAlloc := objectsDeAlloc + [entry];
          objectsToDelete := objectsToDelete + [keys[i]];
        }
      }
    }

    /** Writes the dead objects, then the live ones in order of address. */
    method Shutdown() returns (lines: seq<ObjectLine>)
      requires Valid()
      modifies `objectsAlloc, Repr
      ensures lines == LinesOf(Written(old(Now())))
      ensures objectsAlloc == map[]
    {
      ghost var h := Now();
      lines := [];
      for i := 0 to |objectsDeAlloc|
        invariant |lines| == i && forall j :: 0 <= j < i ==> lines[j] == LineOf(h.dead[j])
      {
        lines := lines + [objectsDeAlloc[i].AsLine()];
      }
      var live := WriteLive();
      hide Written, LinesOf;
      WrittenLines(h, lines, live);
      lines := lines + live;
      objectsAlloc := map[];
    }

    /** A live object without the stamp of the last collection is written as living past it. */
    method WriteLive() returns (lines: seq<ObjectLine>)
      requires Valid()
      modifies Repr
      ensures var h := old(Now()); var keys := Sorted(h.live.Keys);
              |lines| == |keys| &&
              forall j :: 0 <= j < |keys| ==> lines[j] == LineOf(Closing(h.live[keys[j]], h.gcNumber))
    {
      ghost var h := Now();
      assert h.live.Keys == objectsAlloc.Keys;
      assert forall k :: k in objectsAlloc ==> objectsAlloc[k].AsObject() == h.live[k];
      var keys := Sorted(objectsAlloc.Keys);
      assert forall i, j :: 0 <= i < j < |keys| ==> objectsAlloc[keys[i]] != objectsAlloc[keys[j]];
      lines := WriteAt(keys, h);
    }

    method WriteAt(keys: seq<int>, ghost h: Heap) returns (lines: seq<ObjectLine>)
      requires forall i :: 0 <= i < |keys| ==> keys[i] in objectsAlloc && keys[i] in h.live
      requires forall i :: 0 <= i < |keys| ==> objectsAlloc[keys[i]] in Repr
      requires forall i :: 0 <= i < |keys| ==> objectsAlloc[keys[i]].AsObject() == h.live[keys[i]]
      requires forall i, j :: 0 <= i < j < |keys| ==> objectsAlloc[keys[i]] != objectsAlloc[keys[j]]
      requires h.gcNumber == gcNumber
      modifies Repr
      ensures |lines| == |keys|
      ensures forall j :: 0 <= j < |keys| ==> lines[j] == LineOf(Closing(h.live[keys[j]], h.gcNumber))
    {
      lines := [];
      for i := 0 to |keys|
        invariant |lines| == i
        invariant forall j :: 0 <= j < i ==> lines[j] == LineOf(Closing(h.live[keys[j]], h.gcNumber))
        invariant forall j :: i <= j < |keys| ==> objectsAlloc[keys[j]].AsObject() == h.live[keys[j]]
      {
        var entry := objectsAlloc[keys[i]];
        if entry.untilGcNumber != gcNumber {
          entry.untilGcNumber := gcNumber + 1;
        }
        lines := lines + [entry.AsLine()];
      }
    }

    method Handle(c: Callback)
      requires Valid()
      modifies this, Repr
      ensures Valid() && fresh(Repr - old(Repr)) && Now() == After(old(Now()), c, isDeallocEnable)
    {
      hide Apart, HeapOf, AfterAllocated, AfterSurvived, AfterFinished;
      match c {
        case Allocated(what, measured) => ObjectAllocated(what, measured);
        case Started => GarbageCollectionStarted();
        case Survived(ranges) => SurvivingReferences(ranges);
        case Finished => GarbageCollectionFinished();
      }
    }
  }

  /** What is written about objects is determined by the callbacks alone. */
  method Track(callbacks: seq<Callback>, deallocEnable: bool) returns (lines: seq<ObjectLine>)
    ensures lines == LinesOf(Written(RunFrom(START, callbacks, deallocEnable)))
    ensures multiset(lines) == multiset(LinesFor(callbacks, |callbacks|, deallocEnable))
  {
    var tracker := new Tracker(deallocEnable);
    hide Apart, HeapOf, After;
    for i := 0 to |callbacks|
      invariant fresh(tracker) && fresh(tracker.Repr) && tracker.Valid() && tracker.isDeallocEnable == deallocEnable
      invariant tracker.Now() == RunFrom(START, callbacks[..i], deallocEnable)
    {
      tracker.Handle(callbacks[i]);
      assert callbacks[..i] + [callbacks[i]] == callbacks[..i + 1];
      RunLast(START, callbacks[..i], callbacks[i], deallocEnable);
    }
    assert callbacks[..|callbacks|] == callbacks;
    lines := tracker.Shutdown();
    EveryLine(callbacks, deallocEnable);
  }
}
