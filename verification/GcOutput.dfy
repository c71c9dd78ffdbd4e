/** What shutdown writes about objects, against the allocations that were reported. */
module GcOutput {
  import opened Basics
  import opened SortedMaps
  import opened GcModel

  /** What stays true of an allocation: what was reported, and how many collections had begun. */
  datatype Birth = Birth(what: Allocation, gcNumber: int)

  ghost function Collections(cs: seq<Callback>): nat {
    if cs == [] then 0 else Collections(cs[..|cs| - 1]) + if cs[|cs| - 1].Started? then 1 else 0
  }

  /** The recorded allocations in the order they were reported. */
  ghost function Births(cs: seq<Callback>): seq<Birth> {
    if cs == [] then []
    else
      var front, last := cs[..|cs| - 1], cs[|cs| - 1];
      Births(front) + BirthOf(last, 1 + Collections(front))
  }

  ghost function BirthOf(c: Callback, gcNumber: int): seq<Birth> {
    if c.Allocated? && c.measured then [Birth(c.what, gcNumber)] else []
  }

  /** The object is the allocation its serial says. */
  ghost predicate BornAs(o: Object, births: seq<Birth>) {
    o.serial < |births| && births[o.serial] == Birth(o.what, o.gcNumber)
  }

  ghost predicate AllBorn(h: Heap, births: seq<Birth>) {
    && (forall k :: k in h.live ==> BornAs(h.live[k], births))
    && (forall i :: 0 <= i < |h.dead| ==> BornAs(h.dead[i], births))
  }

  lemma AllocatedBorn(h: Heap, births: seq<Birth>, what: Allocation)
    requires AllBorn(h, births) && h.count == |births|
    ensures AllBorn(AfterAllocated(h, what, true), births + [Birth(what, h.gcNumber)])
  {
    var g, more := AfterAllocated(h, what, true), births + [Birth(what, h.gcNumber)];
    forall k | k in g.live ensures BornAs(g.live[k], more) {
      assert k != what.objectId ==> BornAs(h.live[k], births);
    }
    forall i | 0 <= i < |g.dead| ensures BornAs(g.dead[i], more) {
      assert BornAs(h.dead[i], births);
    }
  }

  lemma SurvivedBorn(h: Heap, births: seq<Birth>, ranges: seq<Range>)
    requires AllBorn(h, births)
    ensures AllBorn(AfterSurvived(h, ranges), births)
  {
    var g := AfterSurvived(h, ranges);
    forall k | k in g.live ensures BornAs(g.live[k], births) {
      assert BornAs(h.live[k], births);
    }
  }

  lemma FinishedBorn(h: Heap, births: seq<Birth>)
    requires AllBorn(h, births)
    ensures AllBorn(AfterFinished(h), births)
  {
    var g, keys := AfterFinished(h), Sorted(Unstamped(h));
    NewlyDead(h);
    forall k | k in g.live ensures BornAs(g.live[k], births) {
      assert BornAs(h.live[k], births);
    }
    forall i | 0 <= i < |g.dead| ensures BornAs(g.dead[i], births) {
      assert if i < |h.dead| then BornAs(h.dead[i], births) else BornAs(h.live[keys[i - |h.dead|]], births);
    }
  }

  lemma StartedBorn(h: Heap, births: seq<Birth>)
    requires AllBorn(h, births)
    ensures AllBorn(h.(gcNumber := h.gcNumber + 1), births)
  {
  }

  lemma StepBorn(h: Heap, births: seq<Birth>, c: Callback, enabled: bool)
    requires AllBorn(h, births) && h.count == |births|
    ensures var g, more := After(h, c, enabled), births + BirthOf(c, h.gcNumber);
            && AllBorn(g, more) && g.count == |more|
            && g.gcNumber == h.gcNumber + if c.Started? then 1 else 0
  {
    hide AllBorn;
    assert births + [] == births;
    match c {
      case Allocated(what, measured) =>
        if measured {
          AllocatedBorn(h, births, what);
        }
      case Started => StartedBorn(h, births);
      case Survived(ranges) => SurvivedBorn(h, births, ranges);
      case Finished => FinishedBorn(h, births);
    }
  }

  /** In any run every object, live or dead, is one of the reported allocations. */
  lemma {:induction false} EveryRunBorn(cs: seq<Callback>, enabled: bool)
    ensures var h := RunFrom(START, cs, enabled);
            h.gcNumber == 1 + Collections(cs) && h.count == |Births(cs)| && AllBorn(h, Births(cs))
  {
    if cs != [] {
      var front := cs[..|cs| - 1];
      EveryRunBorn(front, enabled);
      StepBorn(RunFrom(START, front, enabled), Births(front), cs[|cs| - 1], enabled);
      hide After, AllBorn, BirthOf;
    }
  }

  // ----- choosing elements by distinct indices

  ghost predicate DistinctBelow(picks: seq<nat>, n: nat) {
    && (forall i :: 0 <= i < |picks| ==> picks[i] < n)
    && (forall i, j :: 0 <= i < j < |picks| ==> picks[i] != picks[j])
  }

  ghost function Chosen<T>(s: seq<T>, picks: seq<nat>): seq<T>
    requires DistinctBelow(picks, |s|)
  {
    seq(|picks|, i requires 0 <= i < |picks| => s[picks[i]])
  }

  lemma MiddleOut<T>(a: seq<T>, x: T, b: seq<T>)
    ensures multiset(a + [x] + b) == multiset(a + b) + multiset{x}
    ensures forall y :: y in a + [x] + b <==> y in a + b || y == x
  {
  }

  lemma PicksWithout(picks: seq<nat>, n: nat, p: nat)
    requires n > 0 && DistinctBelow(picks, n) && p < |picks| && picks[p] == n - 1
    ensures DistinctBelow(picks[..p] + picks[p + 1..], n - 1)
    ensures picks == picks[..p] + [picks[p]] + picks[p + 1..]
  {
    var rest := picks[..p] + picks[p + 1..];
    forall i | 0 <= i < |rest| ensures rest[i] == picks[if i < p then i else i + 1] {
    }
  }

  lemma WithoutPick<T>(s: seq<T>, picks: seq<nat>, p: nat)
    requires s != [] && DistinctBelow(picks, |s|) && p < |picks| && picks[p] == |s| - 1
    ensures var rest := picks[..p] + picks[p + 1..];
            && DistinctBelow(rest, |s| - 1)
            && (forall n: nat :: n in picks <==> n in rest || n == |s| - 1)
            && multiset(Chosen(s, picks)) == multiset(Chosen(s[..|s| - 1], rest)) + multiset{s[|s| - 1]}
  {
    var all := Chosen(s, picks);
    PicksWithout(picks, |s|, p);
    MiddleOut(picks[..p], picks[p], picks[p + 1..]);
    ChosenWithout(s, picks, p);
    hide DistinctBelow, Chosen;
    MiddleOut(all[..p], s[|s| - 1], all[p + 1..]);
  }

  lemma ChosenWithout<T>(s: seq<T>, picks: seq<nat>, p: nat)
    requires s != [] && DistinctBelow(picks, |s|) && p < |picks| && picks[p] == |s| - 1
    requires DistinctBelow(picks[..p] + picks[p + 1..], |s| - 1)
    ensures var all := Chosen(s, picks);
            && |all| == |picks| && all == all[..p] + [s[|s| - 1]] + all[p + 1..]
            && Chosen(s[..|s| - 1], picks[..p] + picks[p + 1..]) == all[..p] + all[p + 1..]
  {
  }

  lemma NonePicked(picks: seq<nat>, n: nat)
    requires DistinctBelow(picks, n)
    ensures picks != [] ==> n > 0
  {
    if picks != [] {
      assert picks[0] < n;
    }
  }

  /** Distinct indices choose at most everything, and everything exactly if no index is missing. */
  lemma {:induction false} ChosenAll<T>(s: seq<T>, picks: seq<nat>)
    requires DistinctBelow(picks, |s|)
    ensures |picks| <= |s|
    ensures |picks| == |s| <==> forall n: nat :: n < |s| ==> n in picks
    ensures |picks| == |s| ==> multiset(Chosen(s, picks)) == multiset(s)
    decreases |s|
  {
    if s == [] {
      NonePicked(picks, 0);
      assert Chosen(s, picks) == s;
    } else {
      var top := |s| - 1;
      assert s == s[..top] + [s[top]];
      if top in picks {
        var p :| 0 <= p < |picks| && picks[p] == top;
        WithoutPick(s, picks, p);
        ChosenAll(s[..top], picks[..p] + picks[p + 1..]);
      } else {
        assert forall i :: 0 <= i < |picks| ==> picks[i] in picks;
        ChosenAll(s[..top], picks);
      }
    }
  }

  // ----- the output

  ghost function BirthsOf(lines: seq<ObjectLine>): seq<Birth> {
    seq(|lines|, i requires 0 <= i < |lines| => Birth(lines[i].what, lines[i].gcNumber))
  }

  ghost function SerialsOf(os: seq<Object>): seq<nat> {
    seq(|os|, i requires 0 <= i < |os| => os[i].serial)
  }

  lemma WrittenBorn(h: Heap, births: seq<Birth>)
    requires HeapValid(h) && AllBorn(h, births)
    ensures DistinctBelow(SerialsOf(Written(h)), |births|)
    ensures Chosen(births, SerialsOf(Written(h))) == BirthsOf(LinesOf(Written(h)))
  {
    var w, keys := Written(h), Sorted(h.live.Keys);
    WrittenAt(h);
    WrittenOnce(h);
    hide Written, HeapValid;
    forall i | 0 <= i < |w| ensures BornAs(w[i], births) {
      assert if i < |h.dead| then BornAs(h.dead[i], births) else BornAs(h.live[keys[i - |h.dead|]], births);
    }
  }

  lemma ConservedByCount(h: Heap, births: seq<Birth>)
    requires HeapValid(h) && AllBorn(h, births) && h.count == |births|
    ensures Conserved(h) <==> |Written(h)| == |births|
    ensures |Written(h)| <= |births|
  {
    var serials := SerialsOf(Written(h));
    WrittenBorn(h, births);
    ChosenAll(births, serials);
    forall n: nat | n < h.count ensures Kept(h, n) <==> n in serials {
      WrittenIfKept(h, n);
      KeptIsSerial(h, n);
    }
    hide Written, Kept, HeapValid, AllBorn, DistinctBelow;
  }

  lemma KeptIsSerial(h: Heap, n: nat)
    ensures WrittenAs(h, n) <==> n in SerialsOf(Written(h))
  {
    hide Written;
    var serials := SerialsOf(Written(h));
    if n in serials {
      var i :| 0 <= i < |serials| && serials[i] == n;
      assert Written(h)[i].serial == n;
    }
    if i :| 0 <= i < |Written(h)| && Written(h)[i].serial == n {
      assert serials[i] == n;
    }
  }

  lemma AllWrittenByCount(h: Heap, births: seq<Birth>)
    requires HeapValid(h) && AllBorn(h, births)
    ensures var lines := LinesOf(Written(h));
            |lines| == |births| <==> multiset(BirthsOf(lines)) == multiset(births)
  {
    var lines := LinesOf(Written(h));
    WrittenBorn(h, births);
    ChosenAll(births, SerialsOf(Written(h)));
    assert |multiset(BirthsOf(lines))| == |lines| && |multiset(births)| == |births|;
  }

  /** At the end of any run the lines are exactly the recorded allocations, each once, with what was
      reported and the number of the collection it fell under, if and only if none was reported at the
      address of a live object; otherwise some are missing. */
  lemma EveryAllocationWritten(cs: seq<Callback>, enabled: bool)
    ensures var lines := LinesOf(Written(RunFrom(START, cs, enabled)));
            && (AllUnoccupied(cs, enabled) <==> multiset(BirthsOf(lines)) == multiset(Births(cs)))
            && (AllUnoccupied(cs, enabled) <==> |lines| == |Births(cs)|)
            && |lines| <= |Births(cs)|
  {
    var h := RunFrom(START, cs, enabled);
    EveryRunValid(cs, enabled);
    EveryRunBorn(cs, enabled);
    ConservedIff(cs, enabled);
    ConservedByCount(h, Births(cs));
    AllWrittenByCount(h, Births(cs));
    hide *;
    assert |LinesOf(Written(h))| == |Written(h)| by {
      LinesOfLength(Written(h));
    }
  }

  lemma LinesOfLength(os: seq<Object>)
    ensures |LinesOf(os)| == |os|
  {
  }
}
