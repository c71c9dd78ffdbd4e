/** What becomes of each allocation, read off the callbacks by position. */
module GcFates {
  import opened Basics
  import opened SortedMaps
  import opened GcModel
  import opened GcOutput

  /** The `i`-th callback is an allocation that is recorded. */
  predicate IsBirth(cs: seq<Callback>, i: nat)
    requires i < |cs|
  {
    cs[i].Allocated? && cs[i].measured
  }

  /** Callback `m` shows that the object allocated at `i` is alive: it is its birth, or reports a range
      with its address while deallocation is tracked. */
  ghost predicate Seen(cs: seq<Callback>, i: nat, m: nat, enabled: bool)
    requires i <= m < |cs| && IsBirth(cs, i)
  {
    m == i ||
    (enabled && cs[m].Survived? &&
     exists r :: r in cs[m].ranges && r.start <= cs[i].what.objectId < r.start + r.length)
  }

  /** The last time before `n` that the object was seen. */
  ghost function LastSeen(cs: seq<Callback>, i: nat, n: nat, enabled: bool): (m: nat)
    requires i < n <= |cs| && IsBirth(cs, i)
    ensures i <= m < n
  {
    if n == i + 1 || Seen(cs, i, n - 1, enabled) then n - 1 else LastSeen(cs, i, n - 1, enabled)
  }

  /** It was seen since the last collection before `n` began. */
  ghost predicate SeenLately(cs: seq<Callback>, i: nat, n: nat, enabled: bool)
    requires i < n <= |cs| && IsBirth(cs, i)
  {
    exists m :: i <= m < n && Seen(cs, i, m, enabled) && forall p :: m < p < n ==> !cs[p].Started?
  }

  /** Callback `j` finishes a collection that has not seen the object. */
  ghost predicate CollectedAt(cs: seq<Callback>, i: nat, j: nat, enabled: bool)
    requires i < j < |cs| && IsBirth(cs, i)
  {
    cs[j].Finished? && enabled && !SeenLately(cs, i, j, enabled)
  }

  /** Callback `j` is an allocation at the same address. */
  predicate ReplacedAt(cs: seq<Callback>, i: nat, j: nat)
    requires i < j < |cs| && IsBirth(cs, i)
  {
    IsBirth(cs, j) && cs[j].what.objectId == cs[i].what.objectId
  }

  /** Up to `n` the object was neither collected nor replaced. */
  ghost predicate AliveUntil(cs: seq<Callback>, i: nat, n: nat, enabled: bool)
    requires i < n <= |cs| && IsBirth(cs, i)
  {
    forall j :: i < j < n ==> !CollectedAt(cs, i, j, enabled) && !ReplacedAt(cs, i, j)
  }

  ghost predicate DiesAt(cs: seq<Callback>, i: nat, d: nat, enabled: bool)
    requires i < d < |cs| && IsBirth(cs, i)
  {
    AliveUntil(cs, i, d, enabled) && CollectedAt(cs, i, d, enabled)
  }

  ghost predicate Dies(cs: seq<Callback>, i: nat, n: nat, enabled: bool)
    requires i < n <= |cs| && IsBirth(cs, i)
  {
    exists d :: i < d < n && DiesAt(cs, i, d, enabled)
  }

  /** The number of the collection under way, or the last one, when the `m`-th callback comes. */
  ghost function NumberAt(cs: seq<Callback>, m: nat): int
    requires m <= |cs|
  {
    1 + Collections(cs[..m])
  }

  // ----- numbers and positions

  lemma NumberNext(cs: seq<Callback>, m: nat)
    requires m < |cs|
    ensures NumberAt(cs, m + 1) == NumberAt(cs, m) + if cs[m].Started? then 1 else 0
  {
    assert cs[..m + 1][..m] == cs[..m];
  }

  lemma {:induction false} NumberSame(cs: seq<Callback>, m: nat, n: nat)
    requires m <= n <= |cs|
    ensures NumberAt(cs, m) <= NumberAt(cs, n)
    ensures NumberAt(cs, m) == NumberAt(cs, n) <==> forall p :: m <= p < n ==> !cs[p].Started?
    decreases n
  {
    if m < n {
      NumberSame(cs, m, n - 1);
      NumberNext(cs, n - 1);
    }
  }

  /** The last sighting is one, and none comes after it. */
  lemma {:induction false} LastSeenIsLast(cs: seq<Callback>, i: nat, n: nat, enabled: bool)
    requires i < n <= |cs| && IsBirth(cs, i)
    ensures var m := LastSeen(cs, i, n, enabled);
            Seen(cs, i, m, enabled) && forall p :: m < p < n ==> !Seen(cs, i, p, enabled)
    decreases n
  {
    if n > i + 1 && !Seen(cs, i, n - 1, enabled) {
      LastSeenIsLast(cs, i, n - 1, enabled);
    }
  }

  /** It was seen lately exactly if the last sighting came under the current number. */
  lemma SeenLatelyByNumber(cs: seq<Callback>, i: nat, n: nat, enabled: bool)
    requires i < n <= |cs| && IsBirth(cs, i)
    ensures var m := LastSeen(cs, i, n, enabled);
            && (SeenLately(cs, i, n, enabled) <==> NumberAt(cs, m) == NumberAt(cs, n))
            && !cs[m].Started?
  {
    var m := LastSeen(cs, i, n, enabled);
    LastSeenIsLast(cs, i, n, enabled);
    NumberNext(cs, m);
    NumberSame(cs, m + 1, n);
    NumberSame(cs, m, n);
    if SeenLately(cs, i, n, enabled) {
      var k :| i <= k < n && Seen(cs, i, k, enabled) && forall p :: k < p < n ==> !cs[p].Started?;
      assert k <= m;
    }
  }

  // ----- one object through a run

  /** The object of the allocation at `i` as it is at `n`: with what was reported, its number of birth and
      that of the last sighting. */
  ghost function ObjectOf(cs: seq<Callback>, i: nat, n: nat, enabled: bool): Object
    requires i < n <= |cs| && IsBirth(cs, i)
  {
    Object(|Births(cs[..i])|, cs[i].what, NumberAt(cs, i), NumberAt(cs, LastSeen(cs, i, n, enabled)))
  }

  ghost predicate IsLiveAs(h: Heap, o: Object) {
    o.what.objectId in h.live && h.live[o.what.objectId] == o
  }

  ghost predicate IsDeadAs(h: Heap, o: Object) {
    exists x :: 0 <= x < |h.dead| && h.dead[x] == o
  }

  /** Where the object is after the first `n` callbacks: live while it is alive, dead as it was when it
      was collected, and lost if it was replaced before. */
  ghost predicate Tracked(cs: seq<Callback>, i: nat, n: nat, enabled: bool)
    requires i < n <= |cs| && IsBirth(cs, i)
  {
    var h := RunFrom(START, cs[..n], enabled);
    && (AliveUntil(cs, i, n, enabled) ==> IsLiveAs(h, ObjectOf(cs, i, n, enabled)))
    && (forall d :: i < d < n && DiesAt(cs, i, d, enabled) ==> IsDeadAs(h, ObjectOf(cs, i, d, enabled)))
    && (!AliveUntil(cs, i, n, enabled) && !Dies(cs, i, n, enabled) ==> !Kept(h, |Births(cs[..i])|))
  }

  lemma RunNext(cs: seq<Callback>, n: nat, enabled: bool)
    requires n < |cs|
    ensures RunFrom(START, cs[..n + 1], enabled) == After(RunFrom(START, cs[..n], enabled), cs[n], enabled)
    ensures RunFrom(START, cs[..n], enabled).gcNumber == NumberAt(cs, n)
    ensures RunFrom(START, cs[..n], enabled).count == |Births(cs[..n])|
    ensures HeapValid(RunFrom(START, cs[..n], enabled))
  {
    assert cs[..n + 1][..n] == cs[..n];
    EveryRunBorn(cs[..n], enabled);
    EveryRunValid(cs[..n], enabled);
  }

  lemma {:induction false} BirthsGrow(cs: seq<Callback>, i: nat, n: nat)
    requires i < n <= |cs| && IsBirth(cs, i)
    ensures |Births(cs[..i])| < |Births(cs[..n])|
    decreases n
  {
    assert cs[..n][..n - 1] == cs[..n - 1];
    if i < n - 1 {
      BirthsGrow(cs, i, n - 1);
    }
  }

  lemma BornTracked(cs: seq<Callback>, i: nat, enabled: bool)
    requires i < |cs| && IsBirth(cs, i)
    ensures Tracked(cs, i, i + 1, enabled)
  {
    RunNext(cs, i, enabled);
    hide RunFrom;
  }

  /** One callback more while the object is alive. */
  lemma AliveNext(cs: seq<Callback>, i: nat, n: nat, enabled: bool)
    requires i < n < |cs| && IsBirth(cs, i) && AliveUntil(cs, i, n, enabled)
    ensures AliveUntil(cs, i, n + 1, enabled) <==>
            !CollectedAt(cs, i, n, enabled) && !ReplacedAt(cs, i, n)
  {
  }

  /** What one callback does to a live object. */
  lemma LiveNext(h: Heap, c: Callback, enabled: bool, o: Object)
    requires HeapValid(h) && IsLiveAs(h, o)
    ensures var g := After(h, c, enabled);
            var k := o.what.objectId;
            var replaced := c.Allocated? && c.measured && c.what.objectId == k;
            var collected := c.Finished? && enabled && o.untilGcNumber != h.gcNumber;
            var seen := enabled && c.Survived? && exists r :: r in c.ranges && r.start <= k < r.start + r.length;
            && (replaced ==> !Kept(g, o.serial))
            && (collected ==> IsDeadAs(g, o))
            && (!replaced && !collected ==> IsLiveAs(g, if seen then o.(untilGcNumber := h.gcNumber) else o))
  {
    match c {
      case Allocated(what, measured) =>
        assert LiveValid(h, o.what.objectId);
        if measured {
          AllocatedKeeps(h, what, o.serial);
        }
      case Started =>
      case Survived(ranges) =>
      case Finished =>
        if enabled {
          LiveFinishes(h, o);
        }
    }
  }

  lemma LiveFinishes(h: Heap, o: Object)
    requires IsLiveAs(h, o)
    ensures if o.untilGcNumber != h.gcNumber then IsDeadAs(AfterFinished(h), o) else IsLiveAs(AfterFinished(h), o)
  {
    var keys, k := Sorted(Unstamped(h)), o.what.objectId;
    NewlyDead(h);
    StaysLive(h, k);
    if k in Unstamped(h) {
      var x :| 0 <= x < |keys| && keys[x] == k;
      hide AfterFinished;
      assert AfterFinished(h).dead[|h.dead| + x] == o;
    }
  }

  /** What one callback does to a dead object: nothing. */
  lemma DeadNext(h: Heap, c: Callback, enabled: bool, o: Object)
    requires IsDeadAs(h, o)
    ensures IsDeadAs(After(h, c, enabled), o)
  {
    var x :| 0 <= x < |h.dead| && h.dead[x] == o;
    NewlyDead(h);
    assert After(h, c, enabled).dead[x] == o;
  }

  /** A lost object stays lost. */
  lemma LostNext(h: Heap, c: Callback, enabled: bool, n: nat)
    requires HeapValid(h) && !Kept(h, n) && n < h.count
    ensures !Kept(After(h, c, enabled), n)
  {
    match c {
      case Allocated(what, measured) =>
        if measured {
          AllocatedKeeps(h, what, n);
        }
      case Started => assert !IsLive(h, n) && !IsDead(h, n);
      case Survived(ranges) => SurvivedKeeps(h, ranges, n);
      case Finished => FinishedKeeps(h, n);
    }
  }

  /** What the next callback does to an object that is alive. */
  lemma AliveObjectNext(cs: seq<Callback>, i: nat, n: nat, enabled: bool)
    requires i < n < |cs| && IsBirth(cs, i) && IsLiveAs(RunFrom(START, cs[..n], enabled), ObjectOf(cs, i, n, enabled))
    ensures var g := RunFrom(START, cs[..n + 1], enabled);
            && (ReplacedAt(cs, i, n) ==> !Kept(g, |Births(cs[..i])|))
            && (CollectedAt(cs, i, n, enabled) ==> IsDeadAs(g, ObjectOf(cs, i, n, enabled)))
            && (!ReplacedAt(cs, i, n) && !CollectedAt(cs, i, n, enabled) ==>
                 IsLiveAs(g, ObjectOf(cs, i, n + 1, enabled)))
  {
    var h, o := RunFrom(START, cs[..n], enabled), ObjectOf(cs, i, n, enabled);
    RunNext(cs, n, enabled);
    SeenLatelyByNumber(cs, i, n, enabled);
    hide RunFrom, NumberAt, After, Kept, HeapValid, SeenLately, IsLiveAs, IsDeadAs;
    LiveNext(h, cs[n], enabled, o);
  }

  lemma TrackedAlive(cs: seq<Callback>, i: nat, n: nat, enabled: bool)
    requires i < n < |cs| && IsBirth(cs, i) && Tracked(cs, i, n, enabled) && AliveUntil(cs, i, n, enabled)
    ensures Tracked(cs, i, n + 1, enabled)
  {
    AliveObjectNext(cs, i, n, enabled);
    AliveNext(cs, i, n, enabled);
    hide RunFrom, Kept, ObjectOf, IsLiveAs, IsDeadAs, ReplacedAt, CollectedAt;
    forall d | i < d < n ensures !DiesAt(cs, i, d, enabled) {
    }
    assert Dies(cs, i, n + 1, enabled) <== DiesAt(cs, i, n, enabled);
  }

  lemma TrackedGone(cs: seq<Callback>, i: nat, n: nat, enabled: bool)
    requires i < n < |cs| && IsBirth(cs, i) && Tracked(cs, i, n, enabled) && !AliveUntil(cs, i, n, enabled)
    ensures Tracked(cs, i, n + 1, enabled)
  {
    var h := RunFrom(START, cs[..n], enabled);
    RunNext(cs, n, enabled);
    GoneNext(cs, i, n, enabled);
    BirthsGrow(cs, i, n);
    hide RunFrom, ObjectOf, After, Kept, HeapValid, IsDeadAs;
    forall d | i < d < n + 1 && DiesAt(cs, i, d, enabled)
      ensures IsDeadAs(After(h, cs[n], enabled), ObjectOf(cs, i, d, enabled))
    {
      DeadNext(h, cs[n], enabled, ObjectOf(cs, i, d, enabled));
    }
    if !Dies(cs, i, n + 1, enabled) {
      LostNext(h, cs[n], enabled, |Births(cs[..i])|);
    }
  }

  /** Once gone, an object does not come back or die again. */
  lemma GoneNext(cs: seq<Callback>, i: nat, n: nat, enabled: bool)
    requires i < n < |cs| && IsBirth(cs, i) && !AliveUntil(cs, i, n, enabled)
    ensures !AliveUntil(cs, i, n + 1, enabled) && !DiesAt(cs, i, n, enabled)
    ensures Dies(cs, i, n + 1, enabled) <==> Dies(cs, i, n, enabled)
  {
  }

  lemma {:induction false} EveryObjectTracked(cs: seq<Callback>, i: nat, n: nat, enabled: bool)
    requires i < n <= |cs| && IsBirth(cs, i)
    ensures Tracked(cs, i, n, enabled)
    decreases n
  {
    if n == i + 1 {
      BornTracked(cs, i, enabled);
    } else {
      EveryObjectTracked(cs, i, n - 1, enabled);
      hide *;
      if AliveUntil(cs, i, n - 1, enabled) {
        TrackedAlive(cs, i, n - 1, enabled);
      } else {
        TrackedGone(cs, i, n - 1, enabled);
      }
    }
  }

  // ----- the lines

  /** The object is neither alive at the end nor was it collected: another one took its address. */
  ghost predicate Lost(cs: seq<Callback>, i: nat, enabled: bool)
    requires i < |cs| && IsBirth(cs, i)
  {
    !AliveUntil(cs, i, |cs|, enabled) && !Dies(cs, i, |cs|, enabled)
  }

  /** The number an object is written to have lived until: for one that died that of the last sighting
      before; for one that is alive that of the last collection if it was seen since, and else the next. */
  ghost function EndNumber(cs: seq<Callback>, i: nat, enabled: bool): int
    requires i < |cs| && IsBirth(cs, i) && !Lost(cs, i, enabled)
  {
    if AliveUntil(cs, i, |cs|, enabled) then
      if SeenLately(cs, i, |cs|, enabled) then 1 + Collections(cs) else 2 + Collections(cs)
    else
      var d :| i < d < |cs| && DiesAt(cs, i, d, enabled);
      NumberAt(cs, LastSeen(cs, i, d, enabled))
  }

  ghost function LineFor(cs: seq<Callback>, i: nat, enabled: bool): ObjectLine
    requires i < |cs| && IsBirth(cs, i) && !Lost(cs, i, enabled)
  {
    ObjectLine(cs[i].what, NumberAt(cs, i), EndNumber(cs, i, enabled))
  }

  /** One line for each of the first `n` callbacks that is an allocation not lost later. */
  ghost function LinesFor(cs: seq<Callback>, n: nat, enabled: bool): seq<ObjectLine>
    requires n <= |cs|
  {
    if n == 0 then []
    else if IsBirth(cs, n - 1) && !Lost(cs, n - 1, enabled) then
      LinesFor(cs, n - 1, enabled) + [LineFor(cs, n - 1, enabled)]
    else LinesFor(cs, n - 1, enabled)
  }

  ghost predicate IsWritten(h: Heap, n: nat, line: ObjectLine) {
    exists x :: 0 <= x < |Written(h)| && Written(h)[x].serial == n && LineOf(Written(h)[x]) == line
  }

  lemma LiveWritten(h: Heap, o: Object)
    requires IsLiveAs(h, o)
    ensures IsWritten(h, o.serial, LineOf(Closing(o, h.gcNumber)))
  {
    var keys, k := Sorted(h.live.Keys), o.what.objectId;
    WrittenAt(h);
    hide Written;
    var x :| 0 <= x < |keys| && keys[x] == k;
    assert Written(h)[|h.dead| + x] == Closing(o, h.gcNumber);
  }

  lemma DeadWritten(h: Heap, o: Object)
    requires IsDeadAs(h, o)
    ensures IsWritten(h, o.serial, LineOf(o))
  {
    WrittenAt(h);
    hide Written;
    var x :| 0 <= x < |h.dead| && h.dead[x] == o;
    assert Written(h)[x] == o;
  }

  /** Every allocation that is not lost has its line, a lost one has none. */
  lemma BirthWritten(cs: seq<Callback>, i: nat, enabled: bool)
    requires i < |cs| && IsBirth(cs, i)
    ensures var h, n := RunFrom(START, cs, enabled), |Births(cs[..i])|;
            if Lost(cs, i, enabled) then !WrittenAs(h, n) else IsWritten(h, n, LineFor(cs, i, enabled))
  {
    var h := RunFrom(START, cs, enabled);
    assert cs[..|cs|] == cs;
    EveryObjectTracked(cs, i, |cs|, enabled);
    SeenLatelyByNumber(cs, i, |cs|, enabled);
    EveryRunBorn(cs, enabled);
    hide RunFrom, Births, SeenLately, LastSeen, Collections, IsWritten, IsLiveAs, IsDeadAs, Kept, WrittenAs;
    if AliveUntil(cs, i, |cs|, enabled) {
      LiveWritten(h, ObjectOf(cs, i, |cs|, enabled));
    } else if Lost(cs, i, enabled) {
      WrittenIfKept(h, |Births(cs[..i])|);
    } else {
      var d :| i < d < |cs| && DiesAt(cs, i, d, enabled) &&
               EndNumber(cs, i, enabled) == NumberAt(cs, LastSeen(cs, i, d, enabled));
      DeadWritten(h, ObjectOf(cs, i, d, enabled));
    }
  }

  // ----- all lines together

  /** What is chosen by distinct indices is, in another order, what stands at those indices. */
  ghost function Selected<T>(s: seq<T>, picks: seq<nat>): seq<T> {
    if s == [] then []
    else Selected(s[..|s| - 1], picks) + if |s| - 1 in picks then [s[|s| - 1]] else []
  }

  lemma {:induction false} SelectedSame<T>(s: seq<T>, a: seq<nat>, b: seq<nat>)
    requires forall n: nat :: n < |s| ==> (n in a <==> n in b)
    ensures Selected(s, a) == Selected(s, b)
  {
    if s != [] {
      SelectedSame(s[..|s| - 1], a, b);
    }
  }

  lemma {:induction false} ChosenIsSelected<T>(s: seq<T>, picks: seq<nat>)
    requires DistinctBelow(picks, |s|)
    ensures multiset(Chosen(s, picks)) == multiset(Selected(s, picks))
    decreases |s|
  {
    if s == [] {
      NonePicked(picks, 0);
    } else {
      var top := |s| - 1;
      var front := s[..top];
      SelectedLast(s, picks);
      if top in picks {
        var p :| 0 <= p < |picks| && picks[p] == top;
        var rest := picks[..p] + picks[p + 1..];
        WithoutPick(s, picks, p);
        hide *;
        ChosenIsSelected(front, rest);
        SelectedSame(front, picks, rest);
      } else {
        assert forall i :: 0 <= i < |picks| ==> picks[i] in picks;
        assert Chosen(s, picks) == Chosen(front, picks);
        ChosenIsSelected(front, picks);
      }
    }
  }

  lemma SelectedLast<T>(s: seq<T>, picks: seq<nat>)
    requires s != []
    ensures var front, top := s[..|s| - 1], |s| - 1;
            multiset(Selected(s, picks)) ==
            multiset(Selected(front, picks)) + if top in picks then multiset{s[top]} else multiset{}
  {
  }

  /** The line of each allocation, lost or not, in the order they were reported. */
  ghost function AllLines(cs: seq<Callback>, n: nat, enabled: bool): seq<ObjectLine>
    requires n <= |cs|
  {
    if n == 0 then []
    else if IsBirth(cs, n - 1) then AllLines(cs, n - 1, enabled) + [AnyLine(cs, n - 1, enabled)]
    else AllLines(cs, n - 1, enabled)
  }

  ghost function AnyLine(cs: seq<Callback>, i: nat, enabled: bool): ObjectLine
    requires i < |cs| && IsBirth(cs, i)
  {
    if Lost(cs, i, enabled) then ObjectLine(cs[i].what, 0, 0) else LineFor(cs, i, enabled)
  }

  ghost predicate BornAt(cs: seq<Callback>, i: nat, m: nat) {
    i < |cs| && IsBirth(cs, i) && |Births(cs[..i])| == m
  }

  lemma {:induction false} LineAt(cs: seq<Callback>, n: nat, m: nat, enabled: bool)
    requires n <= |cs|
    ensures |AllLines(cs, n, enabled)| == |Births(cs[..n])|
    ensures m < |AllLines(cs, n, enabled)| ==>
              exists i :: 0 <= i < n && BornAt(cs, i, m) && AllLines(cs, n, enabled)[m] == AnyLine(cs, i, enabled)
    decreases n
  {
    if n > 0 {
      assert cs[..n][..n - 1] == cs[..n - 1];
      LineAt(cs, n - 1, m, enabled);
      if IsBirth(cs, n - 1) && m == |Births(cs[..n - 1])| {
        assert BornAt(cs, n - 1, m);
      }
    }
  }

  lemma WrittenAreChosen(cs: seq<Callback>, enabled: bool)
    ensures var h := RunFrom(START, cs, enabled);
            && DistinctBelow(SerialsOf(Written(h)), |AllLines(cs, |cs|, enabled)|)
            && Chosen(AllLines(cs, |cs|, enabled), SerialsOf(Written(h))) == LinesOf(Written(h))
  {
    var h := RunFrom(START, cs, enabled);
    EveryRunValid(cs, enabled);
    EveryRunBorn(cs, enabled);
    WrittenBorn(h, Births(cs));
    assert cs[..|cs|] == cs;
    LineAt(cs, |cs|, 0, enabled);
    WrittenOnce(h);
    hide RunFrom, Written, HeapValid, AllBorn, AllLines, LineFor, Births;
    forall x | 0 <= x < |Written(h)|
      ensures AllLines(cs, |cs|, enabled)[Written(h)[x].serial] == LineOf(Written(h)[x])
    {
      WrittenIsLine(cs, h, x, enabled);
    }
  }

  lemma WrittenIsLine(cs: seq<Callback>, h: Heap, x: nat, enabled: bool)
    requires h == RunFrom(START, cs, enabled) && x < |Written(h)|
    requires Written(h)[x].serial < |AllLines(cs, |cs|, enabled)|
    requires forall i, j :: 0 <= i < j < |Written(h)| ==> Written(h)[i].serial != Written(h)[j].serial
    ensures AllLines(cs, |cs|, enabled)[Written(h)[x].serial] == LineOf(Written(h)[x])
  {
    var m := Written(h)[x].serial;
    LineAt(cs, |cs|, m, enabled);
    var i :| 0 <= i < |cs| && BornAt(cs, i, m) && AllLines(cs, |cs|, enabled)[m] == AnyLine(cs, i, enabled);
    BirthWritten(cs, i, enabled);
    hide RunFrom, Written, AllLines, Lost, LineFor, Births;
    assert WrittenAs(h, m);
    var y :| 0 <= y < |Written(h)| && Written(h)[y].serial == m && LineOf(Written(h)[y]) == LineFor(cs, i, enabled);
    assert x == y;
  }

  /** The places picked are those of the allocations that are not lost. */
  ghost predicate PicksKept(cs: seq<Callback>, picks: seq<nat>, enabled: bool) {
    forall i :: 0 <= i < |cs| && IsBirth(cs, i) ==> (|Births(cs[..i])| in picks <==> !Lost(cs, i, enabled))
  }

  lemma {:induction false} SelectedAreLines(cs: seq<Callback>, n: nat, picks: seq<nat>, enabled: bool)
    requires n <= |cs| && PicksKept(cs, picks, enabled)
    ensures Selected(AllLines(cs, n, enabled), picks) == LinesFor(cs, n, enabled)
    decreases n
  {
    hide *;
    if n == 0 {
      NoLines(cs, picks, enabled);
    } else {
      SelectedAreLines(cs, n - 1, picks, enabled);
      NextLine(cs, n, picks, enabled);
      if IsBirth(cs, n - 1) {
        SelectedMore(AllLines(cs, n - 1, enabled), AnyLine(cs, n - 1, enabled), picks);
      }
    }
  }

  lemma NoLines(cs: seq<Callback>, picks: seq<nat>, enabled: bool)
    ensures AllLines(cs, 0, enabled) == [] && LinesFor(cs, 0, enabled) == []
    ensures Selected(AllLines(cs, 0, enabled), picks) == []
  {
  }

  lemma NextLine(cs: seq<Callback>, n: nat, picks: seq<nat>, enabled: bool)
    requires 0 < n <= |cs| && PicksKept(cs, picks, enabled)
    ensures var before, lines := AllLines(cs, n - 1, enabled), LinesFor(cs, n - 1, enabled);
            if !IsBirth(cs, n - 1) then AllLines(cs, n, enabled) == before && LinesFor(cs, n, enabled) == lines
            else
              var line := AnyLine(cs, n - 1, enabled);
              && AllLines(cs, n, enabled) == before + [line]
              && LinesFor(cs, n, enabled) == lines + if |before| in picks then [line] else []
  {
    LineAt(cs, n - 1, 0, enabled);
    hide Lost, LineFor, Births;
  }

  lemma SelectedMore<T>(s: seq<T>, x: T, picks: seq<nat>)
    ensures Selected(s + [x], picks) == Selected(s, picks) + if |s| in picks then [x] else []
  {
    assert (s + [x])[..|s|] == s;
  }

  lemma SerialsKept(cs: seq<Callback>, enabled: bool)
    ensures PicksKept(cs, SerialsOf(Written(RunFrom(START, cs, enabled))), enabled)
  {
    var h := RunFrom(START, cs, enabled);
    hide RunFrom, Written, Births, Lost, LineFor;
    forall i | 0 <= i < |cs| && IsBirth(cs, i)
      ensures |Births(cs[..i])| in SerialsOf(Written(h)) <==> !Lost(cs, i, enabled)
    {
      BirthWritten(cs, i, enabled);
      KeptIsSerial(h, |Births(cs[..i])|);
    }
  }

  /** The output of any run: one line for each allocation whose address was not taken by another while it
      was alive, with what was reported, the number of collections begun before it plus one, and the
      number it lived until. */
  lemma EveryLine(cs: seq<Callback>, enabled: bool)
    ensures multiset(LinesOf(Written(RunFrom(START, cs, enabled)))) == multiset(LinesFor(cs, |cs|, enabled))
  {
    hide *;
    WrittenAreChosen(cs, enabled);
    var picks := SerialsOf(Written(RunFrom(START, cs, enabled)));
    SerialsKept(cs, enabled);
    SelectedAreLines(cs, |cs|, picks, enabled);
    ChosenIsSelected(AllLines(cs, |cs|, enabled), picks);
  }

  /** With tracking off nothing is collected, and an object is written to have lived past the last
      collection exactly if that began after it was allocated. */
  lemma UntrackedLine(cs: seq<Callback>, i: nat)
    requires i < |cs| && IsBirth(cs, i)
    ensures Lost(cs, i, false) <==> exists j :: i < j < |cs| && ReplacedAt(cs, i, j)
    ensures !Lost(cs, i, false) ==>
              var later := exists p :: i < p < |cs| && cs[p].Started?;
              EndNumber(cs, i, false) == if later then 2 + Collections(cs) else 1 + Collections(cs)
  {
    assert Seen(cs, i, i, false);
  }
}
