/** The live and the dead objects as values, and what the callbacks do to them. */
module GcModel {
  import opened Basics
  import opened SortedMaps

  /** What is known of an allocation: the address, and what is recorded with it. */
  datatype Allocation = Allocation(objectId: int, threadId: int, size: nat, typeName: string,
                                   functionNumOrder: Option<int>, wall: real, cpu: real)

  /** `serial` tells allocations apart: it counts those before this one. */
  datatype Object = Object(serial: nat, what: Allocation, gcNumber: int, untilGcNumber: int)

  datatype Range = Range(start: int, length: nat) {
    predicate Contains(k: int) {
      start <= k < start + length
    }
  }

  datatype Heap = Heap(live: map<int, Object>, dead: seq<Object>, gcNumber: int, count: nat)

  const START := Heap(map[], [], 1, 0)

  /** An allocation whose size could not be read is not recorded. */
  datatype Callback = Allocated(what: Allocation, measured: bool) | Started | Survived(ranges: seq<Range>) | Finished {
    ghost predicate Records(k: int) {
      Allocated? && measured && what.objectId == k
    }

    ghost predicate Reports(k: int) {
      Survived? && InSome(ranges, k)
    }
  }

  ghost predicate InSome(ranges: seq<Range>, k: int) {
    exists r :: r in ranges && r.Contains(k)
  }

  ghost function AfterAllocated(h: Heap, what: Allocation, measured: bool): Heap {
    if measured then
      Heap(h.live[what.objectId := Object(h.count, what, h.gcNumber, h.gcNumber)], h.dead, h.gcNumber, h.count + 1)
    else h
  }

  /** Objects inside a reported range are stamped with the number of the collection. */
  ghost function AfterSurvived(h: Heap, ranges: seq<Range>): Heap {
    h.(live := map k | k in h.live :: Marked(h.live[k], InSome(ranges, k), h.gcNumber))
  }

  function Marked(o: Object, survives: bool, gcNumber: int): Object {
    if survives then o.(untilGcNumber := gcNumber) else o
  }

  ghost function Unstamped(h: Heap): set<int> {
    set k | k in h.live && h.live[k].untilGcNumber != h.gcNumber
  }

  ghost function ObjectsAt(live: map<int, Object>, keys: seq<int>): seq<Object>
    requires forall i :: 0 <= i < |keys| ==> keys[i] in live
  {
    seq(|keys|, i requires 0 <= i < |keys| => live[keys[i]])
  }

  /** Objects without the stamp of the collection move to the end of the dead, in order of address. */
  ghost function AfterFinished(h: Heap): Heap {
    h.(live := h.live - Unstamped(h), dead := h.dead + ObjectsAt(h.live, Sorted(Unstamped(h))))
  }

  ghost function After(h: Heap, c: Callback, enabled: bool): Heap {
    match c
    case Allocated(what, measured) => AfterAllocated(h, what, measured)
    case Started => h.(gcNumber := h.gcNumber + 1)
    case Survived(ranges) => if enabled then AfterSurvived(h, ranges) else h
    case Finished => if enabled then AfterFinished(h) else h
  }

  ghost function RunFrom(h: Heap, cs: seq<Callback>, enabled: bool): Heap {
    if cs == [] then h else After(RunFrom(h, cs[..|cs| - 1], enabled), cs[|cs| - 1], enabled)
  }

  lemma SurvivedNone(h: Heap)
    ensures AfterSurvived(h, []) == h
  {
  }

  /** Ranges can be reported one after the other. */
  lemma SurvivedMore(h: Heap, ranges: seq<Range>, r: Range)
    ensures AfterSurvived(AfterSurvived(h, ranges), [r]) == AfterSurvived(h, ranges + [r])
  {
  }

  // ----- what holds in every run

  /** Live objects lie at their address; no allocation occurs twice; the stamps lie between birth and the
      current collection, and strictly before it for the dead. */
  ghost predicate HeapValid(h: Heap) {
    StampsValid(h) && SerialsDiffer(h)
  }

  ghost predicate LiveValid(h: Heap, k: int)
    requires k in h.live
  {
    var o := h.live[k];
    o.what.objectId == k && o.serial < h.count && o.gcNumber <= o.untilGcNumber <= h.gcNumber
  }

  ghost predicate DeadValid(h: Heap, i: nat)
    requires i < |h.dead|
  {
    var o := h.dead[i];
    o.serial < h.count && o.gcNumber <= o.untilGcNumber < h.gcNumber
  }

  ghost predicate StampsValid(h: Heap) {
    && (forall k :: k in h.live ==> LiveValid(h, k))
    && (forall i :: 0 <= i < |h.dead| ==> DeadValid(h, i))
  }

  ghost predicate SerialsDiffer(h: Heap) {
    && (forall j, k :: j in h.live && k in h.live && h.live[j].serial == h.live[k].serial ==> j == k)
    && (forall i, j :: 0 <= i < |h.dead| && 0 <= j < |h.dead| && h.dead[i].serial == h.dead[j].serial ==> i == j)
    && (forall i, k :: 0 <= i < |h.dead| && k in h.live ==> h.dead[i].serial != h.live[k].serial)
  }

  lemma StartedValid(h: Heap)
    requires HeapValid(h)
    ensures HeapValid(h.(gcNumber := h.gcNumber + 1))
  {
    var g := h.(gcNumber := h.gcNumber + 1);
    forall k | k in g.live ensures LiveValid(g, k) { assert LiveValid(h, k); }
    forall i | 0 <= i < |g.dead| ensures DeadValid(g, i) { assert DeadValid(h, i); }
  }

  lemma AllocatedValid(h: Heap, what: Allocation)
    requires HeapValid(h)
    ensures HeapValid(AfterAllocated(h, what, true))
  {
    var g := AfterAllocated(h, what, true);
    forall k | k in g.live ensures LiveValid(g, k) { assert k == what.objectId || LiveValid(h, k); }
    forall i | 0 <= i < |g.dead| ensures DeadValid(g, i) { assert DeadValid(h, i); }
    forall k | k in h.live ensures h.live[k].serial < h.count { assert LiveValid(h, k); }
    forall i | 0 <= i < |h.dead| ensures h.dead[i].serial < h.count { assert DeadValid(h, i); }
  }

  lemma SurvivedValid(h: Heap, ranges: seq<Range>)
    requires HeapValid(h)
    ensures HeapValid(AfterSurvived(h, ranges))
  {
    var g := AfterSurvived(h, ranges);
    forall k | k in g.live ensures LiveValid(g, k) && g.live[k].serial == h.live[k].serial { assert LiveValid(h, k); }
    forall i | 0 <= i < |g.dead| ensures DeadValid(g, i) { assert DeadValid(h, i); }
  }

  /** Which objects a finished collection adds to the dead. */
  lemma NewlyDead(h: Heap)
    ensures var g, keys := AfterFinished(h), Sorted(Unstamped(h));
            && |g.dead| == |h.dead| + |keys|
            && (forall i :: 0 <= i < |h.dead| ==> g.dead[i] == h.dead[i])
            && (forall i :: |h.dead| <= i < |g.dead| ==>
                  keys[i - |h.dead|] in Unstamped(h) && g.dead[i] == h.live[keys[i - |h.dead|]])
  {
  }

  lemma FinishedStamps(h: Heap)
    requires HeapValid(h)
    ensures StampsValid(AfterFinished(h))
  {
    var g := AfterFinished(h);
    var keys := Sorted(Unstamped(h));
    NewlyDead(h);
    forall k | k in g.live ensures LiveValid(g, k) { assert LiveValid(h, k); }
    forall i | 0 <= i < |g.dead| ensures DeadValid(g, i) {
      assert if i < |h.dead| then DeadValid(h, i) else LiveValid(h, keys[i - |h.dead|]);
    }
  }

  lemma FinishedDiffer(h: Heap)
    requires HeapValid(h)
    ensures SerialsDiffer(AfterFinished(h))
  {
    var g := AfterFinished(h);
    var keys := Sorted(Unstamped(h));
    NewlyDead(h);
    forall i, j | 0 <= i < j < |g.dead| ensures g.dead[i].serial != g.dead[j].serial {
      if i >= |h.dead| {
        assert keys[i - |h.dead|] != keys[j - |h.dead|];
      }
    }
  }

  lemma {:induction false} EveryRunValid(cs: seq<Callback>, enabled: bool)
    ensures HeapValid(RunFrom(START, cs, enabled))
  {
    if cs != [] {
      var h := RunFrom(START, cs[..|cs| - 1], enabled);
      EveryRunValid(cs[..|cs| - 1], enabled);
      match cs[|cs| - 1] {
        case Allocated(what, measured) =>
          if measured {
            AllocatedValid(h, what);
          }
        case Started => StartedValid(h);
        case Survived(ranges) => SurvivedValid(h, ranges);
        case Finished =>
          FinishedStamps(h);
          FinishedDiffer(h);
      }
    }
  }

  // ----- no object is lost

  ghost predicate IsLive(h: Heap, n: nat) {
    exists k :: k in h.live && h.live[k].serial == n
  }

  ghost predicate IsDead(h: Heap, n: nat) {
    exists i :: 0 <= i < |h.dead| && h.dead[i].serial == n
  }

  ghost predicate Kept(h: Heap, n: nat) {
    IsLive(h, n) || IsDead(h, n)
  }

  /** Every allocation so far is among the live or the dead. */
  ghost predicate Conserved(h: Heap) {
    forall n: nat :: n < h.count ==> Kept(h, n)
  }

  /** The address of a recorded allocation holds no live object. */
  ghost predicate Unoccupied(h: Heap, c: Callback) {
    c.Allocated? && c.measured ==> c.what.objectId !in h.live
  }

  ghost predicate AllUnoccupied(cs: seq<Callback>, enabled: bool) {
    forall i :: 0 <= i < |cs| ==> UnoccupiedAt(cs, i, enabled)
  }

  ghost predicate UnoccupiedAt(cs: seq<Callback>, i: nat, enabled: bool)
    requires i < |cs|
  {
    Unoccupied(RunFrom(START, cs[..i], enabled), cs[i])
  }

  /** Collecting moves objects, it neither makes nor loses one. */
  lemma FinishedKeeps(h: Heap, n: nat)
    ensures Kept(AfterFinished(h), n) <==> Kept(h, n)
  {
    NewlyDead(h);
    if IsLive(h, n) {
      LiveMoves(h, n);
    }
    if i :| 0 <= i < |h.dead| && h.dead[i].serial == n {
      assert AfterFinished(h).dead[i].serial == n;
    }
  }

  lemma LiveMoves(h: Heap, n: nat)
    requires IsLive(h, n)
    ensures Kept(AfterFinished(h), n)
  {
    var g, keys := AfterFinished(h), Sorted(Unstamped(h));
    NewlyDead(h);
    hide AfterFinished;
    var k :| k in h.live && h.live[k].serial == n;
    if k in Unstamped(h) {
      var i :| 0 <= i < |keys| && keys[i] == k;
      assert g.dead[|h.dead| + i].serial == n;
    } else {
      assert k in AfterFinished(h).live && AfterFinished(h).live[k] == h.live[k] by { StaysLive(h, k); }
    }
  }

  lemma StaysLive(h: Heap, k: int)
    requires k in h.live
    ensures k in AfterFinished(h).live <==> k !in Unstamped(h)
    ensures k in AfterFinished(h).live ==> AfterFinished(h).live[k] == h.live[k]
  {
  }

  lemma SurvivedKeeps(h: Heap, ranges: seq<Range>, n: nat)
    ensures Kept(AfterSurvived(h, ranges), n) <==> Kept(h, n)
  {
    var g := AfterSurvived(h, ranges);
    assert forall k :: k in h.live ==> k in g.live && g.live[k].serial == h.live[k].serial;
  }

  /** An allocation at the address of a live object loses that object, any other one loses none. */
  lemma AllocatedKeeps(h: Heap, what: Allocation, n: nat)
    requires HeapValid(h)
    ensures Kept(AfterAllocated(h, what, true), n) <==>
            n == h.count || (Kept(h, n) && !(what.objectId in h.live && h.live[what.objectId].serial == n))
  {
    var g := AfterAllocated(h, what, true);
    assert g.live[what.objectId].serial == h.count;
    assert forall k :: k in h.live && k != what.objectId ==> k in g.live && g.live[k] == h.live[k];
    if what.objectId in h.live {
      assert LiveValid(h, what.objectId);
    }
  }

  lemma StepConserves(h: Heap, c: Callback, enabled: bool)
    requires HeapValid(h)
    ensures Conserved(After(h, c, enabled)) <==> Conserved(h) && Unoccupied(h, c)
  {
    var g := After(h, c, enabled);
    match c {
      case Allocated(what, measured) =>
        if measured {
          forall n: nat | true ensures Kept(g, n) <==>
            n == h.count || (Kept(h, n) && !(what.objectId in h.live && h.live[what.objectId].serial == n)) {
            AllocatedKeeps(h, what, n);
          }
          if what.objectId in h.live {
            assert LiveValid(h, what.objectId) && !Kept(g, h.live[what.objectId].serial);
          }
        }
      case Started =>
        assert forall n: nat :: Kept(g, n) <==> Kept(h, n);
      case Survived(ranges) =>
        forall n: nat | true ensures Kept(g, n) <==> Kept(h, n) { SurvivedKeeps(h, ranges, n); }
      case Finished =>
        forall n: nat | true ensures Kept(g, n) <==> Kept(h, n) { FinishedKeeps(h, n); }
    }
  }

  /** Every allocation stays among the live or the dead if and only if none is reported at the address of
      a live object. */
  lemma {:induction false} ConservedIff(cs: seq<Callback>, enabled: bool)
    ensures Conserved(RunFrom(START, cs, enabled)) <==> AllUnoccupied(cs, enabled)
  {
    if cs != [] {
      var front := cs[..|cs| - 1];
      ConservedIff(front, enabled);
      EveryRunValid(front, enabled);
      StepConserves(RunFrom(START, front, enabled), cs[|cs| - 1], enabled);
      forall i | 0 <= i < |front| ensures UnoccupiedAt(cs, i, enabled) <==> UnoccupiedAt(front, i, enabled) {
        assert front[..i] == cs[..i];
      }
      assert UnoccupiedAt(cs, |front|, enabled) <==> Unoccupied(RunFrom(START, front, enabled), cs[|front|]);
    }
  }

  // ----- one collection

  ghost predicate RecordedIn(cs: seq<Callback>, k: int) {
    exists c :: c in cs && c.Records(k)
  }

  ghost predicate ReportedIn(cs: seq<Callback>, k: int) {
    exists c :: c in cs && c.Reports(k)
  }

  /** Between its start and its finish a collection reports survivors; allocations may come in between. */
  ghost predicate DuringCollection(h: Heap, cs: seq<Callback>) {
    forall c :: c in cs ==> (c.Allocated? || c.Survived?) && forall k :: c.Records(k) ==> k !in h.live
  }

  lemma {:induction false} Marking(h: Heap, cs: seq<Callback>, k: int)
    requires DuringCollection(h, cs)
    ensures var g := RunFrom(h, cs, true);
            && g.gcNumber == h.gcNumber && g.dead == h.dead
            && (k in g.live <==> k in h.live || RecordedIn(cs, k))
            && (k in h.live ==>
                  g.live[k] == Marked(h.live[k], ReportedIn(cs, k), h.gcNumber))
            && (k !in h.live && k in g.live ==> g.live[k].untilGcNumber == h.gcNumber)
    decreases |cs|
  {
    if cs != [] {
      var front, c := cs[..|cs| - 1], cs[|cs| - 1];
      assert forall d :: d in cs <==> d in front || d == c;
      assert c in cs;
      Marking(h, front, k);
      assert RecordedIn(cs, k) <==> RecordedIn(front, k) || c.Records(k);
      assert ReportedIn(cs, k) <==> ReportedIn(front, k) || c.Reports(k);
    }
  }

  /** A collection keeps exactly the objects inside some reported range, and those allocated while it
      ran; all others join the dead in order of address, with the stamps they had. */
  lemma CollectionKeepsReported(h: Heap, cs: seq<Callback>)
    requires HeapValid(h) && DuringCollection(h, cs)
    ensures var g := RunFrom(h, [Started] + cs + [Finished], true);
            && g.gcNumber == h.gcNumber + 1
            && (forall k :: k in g.live <==> (k in h.live && ReportedIn(cs, k)) || RecordedIn(cs, k))
            && (forall k :: k in g.live ==> g.live[k].untilGcNumber == g.gcNumber)
            && (forall k :: k in g.live && k in h.live ==> g.live[k] == h.live[k].(untilGcNumber := g.gcNumber))
            && g.dead == h.dead + ObjectsAt(h.live, Sorted(Unreported(h, cs)))
            && (forall k :: k in Unreported(h, cs) ==>
                  h.live[k].gcNumber <= h.live[k].untilGcNumber < g.gcNumber)
  {
    var s := h.(gcNumber := h.gcNumber + 1);
    var m := RunFrom(s, cs, true);
    RunInParts(h, cs);
    Marking(s, cs, 0);
    hide RunFrom;
    forall k | true
      ensures MarkedRight(h, cs, m, k)
      ensures k in h.live ==> h.live[k].gcNumber <= h.live[k].untilGcNumber < m.gcNumber
    {
      MarkedInCollection(h, cs, k);
    }
    hide MarkedRight;
    UnstampedUnreported(h, cs, m);
    forall k | true
      ensures k in AfterFinished(m).live <==> (k in h.live && ReportedIn(cs, k)) || RecordedIn(cs, k)
      ensures k in AfterFinished(m).live ==> AfterFinished(m).live[k].untilGcNumber == m.gcNumber
      ensures k in AfterFinished(m).live && k in h.live ==>
                AfterFinished(m).live[k] == h.live[k].(untilGcNumber := m.gcNumber)
    {
      MarkedKept(h, cs, m, k);
    }
  }

  ghost function Unreported(h: Heap, cs: seq<Callback>): set<int> {
    set k | k in h.live && !ReportedIn(cs, k)
  }

  /** The stamps right before a collection finishes. */
  ghost predicate MarkedRight(h: Heap, cs: seq<Callback>, m: Heap, k: int) {
    && (k in m.live <==> k in h.live || RecordedIn(cs, k))
    && (k in h.live ==> !RecordedIn(cs, k) && h.live[k].gcNumber <= h.live[k].untilGcNumber <= h.gcNumber)
    && (k in h.live ==> m.live[k] == Marked(h.live[k], ReportedIn(cs, k), h.gcNumber + 1))
    && (k !in h.live && k in m.live ==> m.live[k].untilGcNumber == h.gcNumber + 1)
  }

  lemma MarkedInCollection(h: Heap, cs: seq<Callback>, k: int)
    requires HeapValid(h) && DuringCollection(h, cs)
    ensures MarkedRight(h, cs, RunFrom(h.(gcNumber := h.gcNumber + 1), cs, true), k)
  {
    Marking(h.(gcNumber := h.gcNumber + 1), cs, k);
    if k in h.live {
      assert LiveValid(h, k);
    }
  }

  lemma UnstampedUnreported(h: Heap, cs: seq<Callback>, m: Heap)
    requires (forall k :: MarkedRight(h, cs, m, k)) && m.gcNumber == h.gcNumber + 1
    ensures Unstamped(m) == Unreported(h, cs)
    ensures ObjectsAt(m.live, Sorted(Unstamped(m))) == ObjectsAt(h.live, Sorted(Unreported(h, cs)))
  {
    forall k | true ensures k in Unstamped(m) <==> k in Unreported(h, cs) {
      assert MarkedRight(h, cs, m, k);
    }
    assert Unstamped(m) == Unreported(h, cs);
    var keys := Sorted(Unstamped(m));
    forall i | 0 <= i < |keys| ensures keys[i] in h.live && m.live[keys[i]] == h.live[keys[i]] {
      assert MarkedRight(h, cs, m, keys[i]) && keys[i] in Unreported(h, cs);
    }
  }

  lemma MarkedKept(h: Heap, cs: seq<Callback>, m: Heap, k: int)
    requires MarkedRight(h, cs, m, k) && m.gcNumber == h.gcNumber + 1
    ensures var g := AfterFinished(m);
            && (k in g.live <==> (k in h.live && ReportedIn(cs, k)) || RecordedIn(cs, k))
            && (k in g.live ==> g.live[k].untilGcNumber == m.gcNumber)
            && (k in g.live && k in h.live ==> g.live[k] == h.live[k].(untilGcNumber := m.gcNumber))
  {
  }

  lemma {:induction false} RunConcat(h: Heap, a: seq<Callback>, b: seq<Callback>, enabled: bool)
    ensures RunFrom(h, a + b, enabled) == RunFrom(RunFrom(h, a, enabled), b, enabled)
    decreases |b|
  {
    if b == [] {
      assert a + b == a;
    } else {
      assert (a + b)[..|a + b| - 1] == a + b[..|b| - 1];
      RunConcat(h, a, b[..|b| - 1], enabled);
    }
  }

  lemma RunInParts(h: Heap, cs: seq<Callback>)
    ensures RunFrom(h, [Started] + cs + [Finished], true) ==
            AfterFinished(RunFrom(h.(gcNumber := h.gcNumber + 1), cs, true))
  {
    RunStarted(h);
    AfterIsFinished(RunFrom(h.(gcNumber := h.gcNumber + 1), cs, true));
    hide RunFrom, After, AfterFinished;
    RunConcat(h, [Started], cs, true);
    RunLast(h, [Started] + cs, Finished, true);
  }

  lemma RunStarted(h: Heap)
    ensures RunFrom(h, [Started], true) == h.(gcNumber := h.gcNumber + 1)
  {
  }

  lemma AfterIsFinished(h: Heap)
    ensures After(h, Finished, true) == AfterFinished(h)
  {
  }

  lemma RunLast(h: Heap, cs: seq<Callback>, c: Callback, enabled: bool)
    ensures RunFrom(h, cs + [c], enabled) == After(RunFrom(h, cs, enabled), c, enabled)
  {
  }

  /** Without tracking of deallocation no object ever dies or gets a stamp. */
  lemma {:induction false} NothingDiesUntracked(cs: seq<Callback>)
    ensures var h := RunFrom(START, cs, false);
            h.dead == [] && forall k :: k in h.live ==> h.live[k].untilGcNumber == h.live[k].gcNumber
  {
    if cs != [] {
      NothingDiesUntracked(cs[..|cs| - 1]);
    }
  }

  // ----- what shutdown writes

  /** A live object without the stamp of the last collection is written as living past it. */
  function Closing(o: Object, gcNumber: int): Object {
    if o.untilGcNumber != gcNumber then o.(untilGcNumber := gcNumber + 1) else o
  }

  ghost function ClosingAll(os: seq<Object>, gcNumber: int): seq<Object> {
    seq(|os|, i requires 0 <= i < |os| => Closing(os[i], gcNumber))
  }

  ghost function Written(h: Heap): seq<Object> {
    h.dead + ClosingAll(ObjectsAt(h.live, Sorted(h.live.Keys)), h.gcNumber)
  }

  /** What is written of an object. */
  datatype ObjectLine = ObjectLine(what: Allocation, gcNumber: int, untilGcNumber: int)

  function LineOf(o: Object): ObjectLine {
    ObjectLine(o.what, o.gcNumber, o.untilGcNumber)
  }

  ghost function LinesOf(os: seq<Object>): seq<ObjectLine> {
    seq(|os|, i requires 0 <= i < |os| => LineOf(os[i]))
  }

  ghost predicate WrittenAs(h: Heap, n: nat) {
    exists i :: 0 <= i < |Written(h)| && Written(h)[i].serial == n
  }

  lemma WrittenAt(h: Heap)
    ensures var w, keys := Written(h), Sorted(h.live.Keys);
            && |w| == |h.dead| + |keys|
            && (forall i :: 0 <= i < |h.dead| ==> w[i] == h.dead[i])
            && (forall i :: |h.dead| <= i < |w| ==>
                  keys[i - |h.dead|] in h.live && w[i] == Closing(h.live[keys[i - |h.dead|]], h.gcNumber))
  {
  }

  lemma WrittenLines(h: Heap, dead: seq<ObjectLine>, live: seq<ObjectLine>)
    requires |dead| == |h.dead| && forall i :: 0 <= i < |dead| ==> dead[i] == LineOf(h.dead[i])
    requires var keys := Sorted(h.live.Keys);
             |live| == |keys| && forall i :: 0 <= i < |keys| ==> live[i] == LineOf(Closing(h.live[keys[i]], h.gcNumber))
    ensures dead + live == LinesOf(Written(h))
  {
  }

  /** No allocation is written twice. */
  lemma WrittenOnce(h: Heap)
    requires SerialsDiffer(h)
    ensures forall i, j :: 0 <= i < j < |Written(h)| ==> Written(h)[i].serial != Written(h)[j].serial
  {
  }

  /** An allocation is written if and only if it is among the live or the dead. */
  lemma WrittenIfKept(h: Heap, n: nat)
    ensures WrittenAs(h, n) <==> Kept(h, n)
  {
    var keys := Sorted(h.live.Keys);
    WrittenAt(h);
    hide Written;
    if k :| k in h.live && h.live[k].serial == n {
      var i :| 0 <= i < |keys| && keys[i] == k;
      assert Written(h)[|h.dead| + i].serial == n;
    }
    if i :| 0 <= i < |h.dead| && h.dead[i].serial == n {
      assert Written(h)[i].serial == n;
    }
  }

  /** The output of any run tells the dead from the live: an object was collected exactly if the number
      it lived until is below that of the last collection; and no object ends before it begins. */
  lemma WrittenTellsDead(cs: seq<Callback>, enabled: bool)
    ensures var h := RunFrom(START, cs, enabled);
            forall i :: 0 <= i < |Written(h)| ==> TellsDead(h, i)
  {
    var h := RunFrom(START, cs, enabled);
    EveryRunValid(cs, enabled);
    hide RunFrom, HeapValid, Written;
    forall i | 0 <= i < |Written(h)| ensures TellsDead(h, i) {
      LineTellsDead(h, i);
    }
  }

  /** The number the `i`-th object is written with: below the last collection's for the dead; for the live
      that number if it is their stamp, and else the next. */
  ghost predicate TellsDead(h: Heap, i: nat)
    requires i < |Written(h)|
  {
    var end := Written(h)[i].untilGcNumber;
    && (i < |h.dead| <==> end < h.gcNumber) && Written(h)[i].gcNumber <= end <= h.gcNumber + 1
    && (i >= |h.dead| ==>
          var stamp := h.live[Sorted(h.live.Keys)[i - |h.dead|]].untilGcNumber;
          end == if stamp == h.gcNumber then h.gcNumber else h.gcNumber + 1)
  }

  lemma LineTellsDead(h: Heap, i: nat)
    requires HeapValid(h) && i < |Written(h)|
    ensures TellsDead(h, i)
  {
    var keys := Sorted(h.live.Keys);
    WrittenAt(h);
    hide Written;
    if i < |h.dead| {
      assert DeadValid(h, i);
    } else {
      assert LiveValid(h, keys[i - |h.dead|]);
    }
  }
}
