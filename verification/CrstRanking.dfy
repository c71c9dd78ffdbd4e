/** Ranking the lock types: a topological sort in passes that gives every group a rank of its own. */
module CrstRanking {
  import opened Digraph
  import opened CrstTypes
  import opened CrstTool

  datatype Outcome = Leveled | CycleDetected(level: int)

  type Ranks = map<CrstType, int>

  ghost function LevelsOf(crsts: set<CrstType>): Ranks
    reads crsts`level
  {
    map c | c in crsts :: c.level
  }

  /** Holding a type allows acquiring only lower ranked ones; a group has one rank that no other type
      has; the ranks in use are 0, 1, ..., top - 1 with no gap. */
  ghost predicate RanksValid(crsts: set<CrstType>, was: RuleLists, levels: Ranks, top: int)
    requires crsts <= was.Keys && crsts <= levels.Keys
    reads crsts`group
  {
    && (forall a :: a in crsts ==>
         levels[a] == CRST_UNORDERED || levels[a] == CRST_UNASSIGNED || 0 <= levels[a] < top)
    && (forall a, b :: a in crsts && b in was[a] && b in crsts && levels[a] >= 0 ==>
         levels[b] != CRST_UNASSIGNED && levels[b] < levels[a])
    && (forall a, b :: a in crsts && b in crsts && SameGroup(a, b) ==> levels[a] == levels[b])
    && (forall a, b :: a in crsts && b in crsts && a.group != null && levels[a] >= 0 && levels[b] == levels[a] ==>
         SameGroup(a, b))
    && (forall l :: 0 <= l < top ==> RankUsed(crsts, levels, l))
  }

  ghost predicate RankUsed(crsts: set<CrstType>, levels: Ranks, level: int)
    requires crsts <= levels.Keys
  {
    exists c :: c in crsts && levels[c] == level
  }

  ghost function Unassigned(crsts: set<CrstType>, levels: Ranks): set<CrstType>
    requires crsts <= levels.Keys
  {
    set c | c in crsts && levels[c] == CRST_UNASSIGNED
  }

  /** The unranked types with no rules left. */
  ghost function Ready(crsts: set<CrstType>, levels: Ranks): set<CrstType>
    requires crsts <= levels.Keys
    reads crsts`acquiredBeforeList
  {
    set c | c in crsts && levels[c] == CRST_UNASSIGNED && c.acquiredBeforeList == []
  }

  /** One ready type of each group from the given index on, in the order of the groups. */
  ghost predicate ReadyMembers(groups: seq<CrstTypeGroup>, members: seq<CrstType>, from: int, crsts: set<CrstType>)
    reads crsts
  {
    && |groups| == |members|
    && forall k :: 0 <= from <= k < |groups| ==>
         && members[k] in crsts && members[k].group == groups[k]
         && members[k].level == CRST_UNASSIGNED && members[k].acquiredBeforeList == []
  }

  /** The rules an unranked type still has: before the first pruning all of its own, afterwards those
      on the types in `pending`. */
  ghost predicate ListsPruned(crsts: set<CrstType>, was: RuleLists, levels: Ranks, pending: set<CrstType>, first: bool)
    requires crsts <= was.Keys && crsts <= levels.Keys
    reads crsts`acquiredBeforeList
  {
    forall a, b :: a in crsts && levels[a] == CRST_UNASSIGNED && b in crsts ==>
      (b in a.acquiredBeforeList <==> b in was[a] && (first || b in pending))
  }

  /** Types outside `pending` have a final level below `base`. */
  ghost predicate Settled(crsts: set<CrstType>, levels: Ranks, pending: set<CrstType>, base: int)
    requires crsts <= levels.Keys
  {
    forall b :: b in crsts && b !in pending ==> levels[b] != CRST_UNASSIGNED && levels[b] < base
  }

  /** Rules stay inside the collection and group members started with the same rules. */
  ghost predicate Frame(crsts: set<CrstType>, was: RuleLists)
    reads crsts`group, crsts`acquiredBeforeList
  {
    && crsts <= was.Keys && ListsClosed(crsts, was)
    && (forall a, b :: a in crsts && b in a.acquiredBeforeList ==> b in crsts)
    && (forall a, b :: a in crsts && b in crsts && SameGroup(a, b) ==> was[a] == was[b])
  }

  /** What holds of the collection between the steps of a pass that began at rank `base` with the
      types in `pending` unranked. */
  ghost predicate Progressing(crsts: set<CrstType>, was: RuleLists, levels: Ranks, pending: set<CrstType>,
                              first: bool, base: int, top: int)
    reads crsts`group, crsts`acquiredBeforeList
  {
    && crsts <= levels.Keys && Frame(crsts, was) && 0 <= base <= top
    && RanksValid(crsts, was, levels, top)
    && ListsPruned(crsts, was, levels, pending, first)
    && Settled(crsts, levels, pending, base)
  }

  /** A ready type only had rules on settled types. */
  lemma ReadyIsSettled(crsts: set<CrstType>, was: RuleLists, levels: Ranks, pending: set<CrstType>, first: bool,
                       base: int, top: int, a: CrstType)
    requires Progressing(crsts, was, levels, pending, first, base, top) && a in Ready(crsts, levels)
    ensures forall b :: b in was[a] ==> b in crsts && levels[b] != CRST_UNASSIGNED && levels[b] < base
  {
  }

  /** Members of a group are ready together. */
  lemma GroupReadyTogether(crsts: set<CrstType>, was: RuleLists, levels: Ranks, pending: set<CrstType>, first: bool,
                           base: int, top: int, a: CrstType, m: CrstType)
    requires Progressing(crsts, was, levels, pending, first, base, top) && a in Ready(crsts, levels)
    requires m in crsts && SameGroup(a, m)
    ensures m in Ready(crsts, levels)
  {
    assert levels[m] == levels[a] && was[m] == was[a];
    forall b | b in crsts ensures b !in m.acquiredBeforeList {
      assert b !in a.acquiredBeforeList;
    }
    NonemptyHasElement(m.acquiredBeforeList);
  }

  /** Giving the next rank to ready types, either some that have no group or exactly one whole group,
      keeps everything that holds during a pass. */
  lemma RankingStep(crsts: set<CrstType>, was: RuleLists, levels: Ranks, levels': Ranks, pending: set<CrstType>,
                    first: bool, base: int, top: int, chosen: set<CrstType>)
    requires Progressing(crsts, was, levels, pending, first, base, top) && crsts <= levels'.Keys
    requires chosen != {} && chosen <= Ready(crsts, levels)
    requires forall c :: c in crsts ==> levels'[c] == if c in chosen then top else levels[c]
    requires (forall a :: a in chosen ==> a.group == null) ||
             (forall a, b :: a in chosen && b in crsts ==> (SameGroup(a, b) <==> b in chosen))
    ensures Progressing(crsts, was, levels', pending, first, base, top + 1)
  {
    forall a | a in chosen
      ensures forall b :: b in was[a] ==> b in crsts && levels[b] != CRST_UNASSIGNED && levels[b] < base
    {
      ReadyIsSettled(crsts, was, levels, pending, first, base, top, a);
    }
    forall l | 0 <= l < top + 1 ensures RankUsed(crsts, levels', l) {
      if l == top {
        var c :| c in chosen;
        assert levels'[c] == l;
      } else {
        assert RankUsed(crsts, levels, l);
        var c :| c in crsts && levels[c] == l;
        assert levels'[c] == l;
      }
    }
    forall a, b | a in crsts && b in crsts && SameGroup(a, b) ensures levels'[a] == levels'[b] {
      assert levels[a] == levels[b];
    }
    forall a, b | a in crsts && b in was[a] && b in crsts && levels'[a] >= 0
      ensures levels'[b] != CRST_UNASSIGNED && levels'[b] < levels'[a]
    {
    }
  }

  /** Ranks the ready types that have no group and notes the groups of the others. */
  method ScanTypes(values: seq<CrstType>, currLevel: int, count: int, ghost crsts: set<CrstType>,
                   ghost ready: set<CrstType>)
    returns (unsorted: int, madeProgress: bool, deferredGroups: seq<CrstTypeGroup>)
    requires currLevel >= 0 && count == |Unassigned(crsts, LevelsOf(crsts))|
    requires ready == Ready(crsts, LevelsOf(crsts)) && forall c :: c in values <==> c in crsts
    modifies crsts`level
    ensures forall c :: c in crsts ==>
              c.level == if c in ready && c.group == null then currLevel else old(c.level)
    ensures madeProgress <==> exists c :: c in ready && c.group == null
    ensures Distinct(deferredGroups)
    ensures forall c :: c in ready && c.group != null ==> c.group in deferredGroups
    ensures forall g :: g in deferredGroups ==> exists c :: c in ready && c.group == g
    ensures unsorted == |Unassigned(crsts, LevelsOf(crsts))|
    ensures if madeProgress then unsorted < count else unsorted == count
  {
    assert forall c :: c in ready <==> c in crsts && c.level == CRST_UNASSIGNED && c.acquiredBeforeList == [];
    NoneScanned(ready);
    hide Ready, Unassigned, LevelsOf, Scanned;
    unsorted, madeProgress, deferredGroups := count, false, [];
    for i := 0 to |values|
      invariant forall c :: c in crsts ==>
                  c.level == if c in ready && c.group == null && c in values[..i] then currLevel else old(c.level)
      invariant Scanned(ready, values[..i], madeProgress, deferredGroups)
      invariant unsorted == |Unassigned(crsts, LevelsOf(crsts))|
      invariant if madeProgress then unsorted < count else unsorted == count
    {
      assert values[..i + 1] == values[..i] + [values[i]];
      unsorted, madeProgress, deferredGroups :=
        ScanType(values[i], currLevel, unsorted, madeProgress, deferredGroups, values[..i], crsts, ready);
    }
    assert values[..|values|] == values;
    AllScanned(ready, values, madeProgress, deferredGroups);
  }

  /** Ranks one type, if it is ready and has no group, or notes its group. */
  method ScanType(crst: CrstType, currLevel: int, count: int, progress: bool, deferred: seq<CrstTypeGroup>,
                  ghost done: seq<CrstType>, ghost crsts: set<CrstType>, ghost ready: set<CrstType>)
    returns (unsorted: int, madeProgress: bool, deferredGroups: seq<CrstTypeGroup>)
    requires crst in crsts && currLevel >= 0 && count == |Unassigned(crsts, LevelsOf(crsts))|
    requires Scanned(ready, done, progress, deferred)
    requires crst.level == CRST_UNASSIGNED && crst.acquiredBeforeList == [] ==> crst in ready
    requires crst in ready ==>
               crst.acquiredBeforeList == [] && (crst.level == CRST_UNASSIGNED || (crst.group == null && progress))
    modifies crst`level
    ensures crst.level == if old(crst.level) == CRST_UNASSIGNED && crst in ready && crst.group == null then currLevel
                          else old(crst.level)
    ensures Scanned(ready, done + [crst], madeProgress, deferredGroups)
    ensures unsorted == |Unassigned(crsts, LevelsOf(crsts))|
    ensures if madeProgress && !progress then unsorted < count else unsorted <= count
    ensures !madeProgress ==> unsorted == count
  {
    ScannedMore(ready, done, crst, progress, deferred);
    hide Unassigned, LevelsOf, Scanned;
    unsorted, madeProgress, deferredGroups := count, progress, deferred;
    if crst.level == CRST_UNASSIGNED && |crst.acquiredBeforeList| == 0 {
      if crst.group == null {
        crst.level := currLevel;
        OneRanked(crst, crsts);
        madeProgress := true;
        unsorted := unsorted - 1;
      } else if crst.group !in deferredGroups {
        deferredGroups := deferredGroups + [crst.group];
      }
    }
  }

  /** What a scan over the types `done` has found out. */
  ghost predicate Scanned(ready: set<CrstType>, done: seq<CrstType>, progress: bool, deferred: seq<CrstTypeGroup>)
    reads ready`group
  {
    && (progress <==> exists c :: c in ready && c.group == null && c in done)
    && Distinct(deferred)
    && (forall c :: c in ready && c in done && c.group != null ==> c.group in deferred)
    && (forall g :: g in deferred ==> exists c :: c in ready && c.group == g)
  }

  lemma NoneScanned(ready: set<CrstType>)
    ensures Scanned(ready, [], false, [])
  {
  }

  lemma ScannedMore(ready: set<CrstType>, done: seq<CrstType>, crst: CrstType, progress: bool,
                    deferred: seq<CrstTypeGroup>)
    requires Scanned(ready, done, progress, deferred)
    ensures crst !in ready ==> Scanned(ready, done + [crst], progress, deferred)
    ensures crst in ready && crst.group == null ==> Scanned(ready, done + [crst], true, deferred)
    ensures crst in ready && crst.group != null ==>
              var groups := if crst.group in deferred then deferred else deferred + [crst.group];
              Scanned(ready, done + [crst], progress, groups)
  {
  }

  lemma AllScanned(ready: set<CrstType>, done: seq<CrstType>, progress: bool, deferred: seq<CrstTypeGroup>)
    requires Scanned(ready, done, progress, deferred) && forall c :: c in ready ==> c in done
    ensures progress <==> exists c :: c in ready && c.group == null
    ensures Distinct(deferred) && forall c :: c in ready && c.group != null ==> c.group in deferred
    ensures forall g :: g in deferred ==> exists c :: c in ready && c.group == g
  {
  }

  /** Ranking one type leaves one fewer to rank. */
  twostate lemma OneRanked(new crst: CrstType, crsts: set<CrstType>)
    requires crst in crsts && old(crst.level) == CRST_UNASSIGNED && crst.level != CRST_UNASSIGNED
    requires forall c :: c in crsts && c != crst ==> c.level == old(c.level)
    ensures |Unassigned(crsts, LevelsOf(crsts))| == old(|Unassigned(crsts, LevelsOf(crsts))|) - 1
  {
    assert Unassigned(crsts, LevelsOf(crsts)) == old(Unassigned(crsts, LevelsOf(crsts))) - {crst};
  }

  /** Gives all members of a group one rank. */
  method RankGroup(group: CrstTypeGroup, currLevel: int, count: int, ghost crsts: set<CrstType>)
    returns (unsorted: int)
    requires currLevel >= 0 && group.members != [] && Distinct(group.members)
    requires forall m :: m in group.members ==> m in Ready(crsts, LevelsOf(crsts))
    requires count == |Unassigned(crsts, LevelsOf(crsts))|
    modifies crsts`level
    ensures forall c :: c in crsts ==> c.level == if c in group.members then currLevel else old(c.level)
    ensures unsorted == |Unassigned(crsts, LevelsOf(crsts))| < count
  {
    assert forall m :: m in group.members ==>
        m in crsts && m.level == CRST_UNASSIGNED && m.acquiredBeforeList == [];
    hide Ready, Unassigned, LevelsOf;
    unsorted := count;
    for i := 0 to |group.members|
      invariant forall c :: c in crsts ==>
                  c.level == if c in group.members[..i] then currLevel else old(c.level)
      invariant unsorted == |Unassigned(crsts, LevelsOf(crsts))| == count - i
    {
      var crst := group.members[i];
      // The check for members with differing rules can never fire.
      assert |crst.acquiredBeforeList| == 0;
      assert crst !in group.members[..i];
      label before:
      crst.level := currLevel;
      OneRanked@before(crst, crsts);
      unsorted := unsorted - 1;
      assert group.members[..i + 1] == group.members[..i] + [crst];
    }
    assert group.members[..|group.members|] == group.members;
  }

  /** The elements that have no rank yet. */
  method FindAllUnleveled(list: seq<CrstType>) returns (pruned: seq<CrstType>)
    ensures forall c :: c in pruned <==> c in list && c.level == CRST_UNASSIGNED
  {
    pruned := [];
    for i := 0 to |list|
      invariant forall c :: c in pruned <==> c in list[..i] && c.level == CRST_UNASSIGNED
    {
      if list[i].level == CRST_UNASSIGNED {
        pruned := pruned + [list[i]];
      }
      assert list[..i + 1] == list[..i] + [list[i]];
    }
    assert list[..|list|] == list;
  }

  /** Drops the rules on ranked types from the types that are still unranked. */
  method PruneRules(values: seq<CrstType>, ghost crsts: set<CrstType>)
    requires forall c :: c in values <==> c in crsts
    modifies crsts`acquiredBeforeList
    ensures forall a :: a in crsts && a.level != CRST_UNASSIGNED ==> a.acquiredBeforeList == old(a.acquiredBeforeList)
    ensures forall a, b :: a in crsts && a.level == CRST_UNASSIGNED ==>
              (b in a.acquiredBeforeList <==> b in old(a.acquiredBeforeList) && b.level == CRST_UNASSIGNED)
    ensures forall a, b :: a in crsts && b in a.acquiredBeforeList ==> b in old(a.acquiredBeforeList)
  {
    for i := 0 to |values|
      invariant forall a :: a in crsts && (a.level != CRST_UNASSIGNED || a !in values[..i]) ==>
                  a.acquiredBeforeList == old(a.acquiredBeforeList)
      invariant forall a, b :: a in values[..i] && a.level == CRST_UNASSIGNED ==>
                  (b in a.acquiredBeforeList <==> b in old(a.acquiredBeforeList) && b.level == CRST_UNASSIGNED)
      invariant forall a, b :: a in crsts && b in a.acquiredBeforeList ==> b in old(a.acquiredBeforeList)
    {
      var crst := values[i];
      if crst.level == CRST_UNASSIGNED {
        var prunedCrsts := FindAllUnleveled(crst.acquiredBeforeList);
        crst.acquiredBeforeList := prunedCrsts;
      }
      assert values[..i + 1] == values[..i] + [crst];
    }
    assert values[..|values|] == values;
    assert forall a :: a in crsts ==> a in values[..|values|];
  }

  /** One pass: the ready types without a group share the pass's rank, then every group found ready
      takes a rank of its own. */
  method RankPass(values: seq<CrstType>, base: int, count: int, groups: seq<CrstTypeGroup>,
                  ghost crsts: set<CrstType>, ghost was: RuleLists, ghost first: bool)
    returns (currLevel: int, unsorted: int, madeProgress: bool)
    requires forall c :: c in values <==> c in crsts
    requires GroupsValid(crsts, groups) && count == |Unassigned(crsts, LevelsOf(crsts))|
    requires Progressing(crsts, was, LevelsOf(crsts), Unassigned(crsts, LevelsOf(crsts)), first, base, base)
    modifies crsts`level
    ensures madeProgress <==> old(Ready(crsts, LevelsOf(crsts))) != {}
    ensures madeProgress ==> currLevel >= base && unsorted < count
    ensures madeProgress ==>
              Progressing(crsts, was, LevelsOf(crsts), old(Unassigned(crsts, LevelsOf(crsts))), first,
                          base, currLevel + 1)
    ensures unsorted == |Unassigned(crsts, LevelsOf(crsts))|
    ensures forall c :: c in crsts ==> (c.level == CRST_UNORDERED <==> old(c.level) == CRST_UNORDERED)
  {
    ghost var pending := Unassigned(crsts, LevelsOf(crsts));
    var deferredGroups;
    ghost var members;
    unsorted, madeProgress, deferredGroups, members := ScanPass(values, base, count, crsts, was, pending, first);
    currLevel, unsorted, madeProgress :=
      RankGroups(deferredGroups, members, base, unsorted, madeProgress, groups, crsts, was, pending, first, base);
  }

  lemma ScanKeepsProgress(crsts: set<CrstType>, was: RuleLists, levels: Ranks, levels': Ranks, pending: set<CrstType>,
                          first: bool, base: int, progress: bool)
    requires Progressing(crsts, was, levels, pending, first, base, base) && crsts <= levels'.Keys
    requires forall c :: c in crsts ==>
               levels'[c] == if c in Ready(crsts, levels) && c.group == null then base else levels[c]
    requires progress <==> exists c :: c in Ready(crsts, levels) && c.group == null
    ensures Progressing(crsts, was, levels', pending, first, base, if progress then base + 1 else base)
  {
    var singles := set c | c in Ready(crsts, levels) && c.group == null;
    if c :| c in Ready(crsts, levels) && c.group == null {
      assert c in singles;
      RankingStep(crsts, was, levels, levels', pending, first, base, base, singles);
    } else {
      assert forall l :: 0 <= l < base && RankUsed(crsts, levels, l) ==> RankUsed(crsts, levels', l);
    }
  }

  lemma PickMembers(groups: seq<CrstTypeGroup>, ready: set<CrstType>) returns (members: seq<CrstType>)
    requires forall g :: g in groups ==> exists c :: c in ready && c.group == g
    ensures |members| == |groups|
    ensures forall k :: 0 <= k < |groups| ==> members[k] in ready && members[k].group == groups[k]
  {
    members := [];
    for k := 0 to |groups|
      invariant |members| == k
      invariant forall i :: 0 <= i < k ==> members[i] in ready && members[i].group == groups[i]
    {
      assert groups[k] in groups;
      var c :| c in ready && c.group == groups[k];
      members := members + [c];
    }
  }

  method ScanPass(values: seq<CrstType>, base: int, count: int, ghost crsts: set<CrstType>, ghost was: RuleLists,
                  ghost pending: set<CrstType>, ghost first: bool)
    returns (unsorted: int, madeProgress: bool, deferredGroups: seq<CrstTypeGroup>, ghost members: seq<CrstType>)
    requires forall c :: c in values <==> c in crsts
    requires count == |Unassigned(crsts, LevelsOf(crsts))| && base >= 0
    requires Progressing(crsts, was, LevelsOf(crsts), pending, first, base, base)
    modifies crsts`level
    ensures Progressing(crsts, was, LevelsOf(crsts), pending, first, base, if madeProgress then base + 1 else base)
    ensures madeProgress || deferredGroups != [] <==> old(Ready(crsts, LevelsOf(crsts))) != {}
    ensures Distinct(deferredGroups)
    ensures ReadyMembers(deferredGroups, members, 0, crsts)
    ensures unsorted == |Unassigned(crsts, LevelsOf(crsts))|
    ensures if madeProgress then unsorted < count else unsorted == count
    ensures forall c :: c in crsts ==> (c.level == CRST_UNORDERED <==> old(c.level) == CRST_UNORDERED)
  {
    hide Progressing, Distinct;
    ghost var levels0 := LevelsOf(crsts);
    ghost var ready := Ready(crsts, levels0);
    unsorted, madeProgress, deferredGroups := ScanTypes(values, base, count, crsts, ready);
    ScanKeepsProgress(crsts, was, levels0, LevelsOf(crsts), pending, first, base, madeProgress);
    members := PickMembers(deferredGroups, ready);
    NonemptyHasElement(deferredGroups);
  }

  /** Ranks the deferred groups one after the other, each at a rank not used before. */
  method RankGroups(deferredGroups: seq<CrstTypeGroup>, ghost members: seq<CrstType>, level: int, count: int,
                    progress: bool, groups: seq<CrstTypeGroup>, ghost crsts: set<CrstType>, ghost was: RuleLists,
                    ghost pending: set<CrstType>, ghost first: bool, ghost base: int)
    returns (currLevel: int, unsorted: int, madeProgress: bool)
    requires GroupsValid(crsts, groups) && count == |Unassigned(crsts, LevelsOf(crsts))| && Distinct(deferredGroups)
    requires Progressing(crsts, was, LevelsOf(crsts), pending, first, base, if progress then level + 1 else level)
    requires 0 <= base <= level && ReadyMembers(deferredGroups, members, 0, crsts)
    modifies crsts`level
    ensures madeProgress <==> progress || deferredGroups != []
    ensures currLevel >= level && if deferredGroups != [] then unsorted < count else unsorted == count
    ensures Progressing(crsts, was, LevelsOf(crsts), pending, first, base,
                        if madeProgress then currLevel + 1 else currLevel)
    ensures unsorted == |Unassigned(crsts, LevelsOf(crsts))|
    ensures forall c :: c in crsts ==> (c.level == CRST_UNORDERED <==> old(c.level) == CRST_UNORDERED)
  {
    hide Progressing;
    currLevel, unsorted, madeProgress := level, count, progress;
    for j := 0 to |deferredGroups|
      invariant level <= currLevel && unsorted == |Unassigned(crsts, LevelsOf(crsts))|
      invariant if j > 0 then unsorted < count else unsorted == count
      invariant Progressing(crsts, was, LevelsOf(crsts), pending, first, base,
                            if madeProgress then currLevel + 1 else currLevel)
      invariant madeProgress <==> progress || j > 0
      invariant ReadyMembers(deferredGroups, members, j, crsts)
      invariant forall c :: c in crsts ==> (c.level == CRST_UNORDERED <==> old(c.level) == CRST_UNORDERED)
    {
      if madeProgress {
        currLevel := currLevel + 1;
      }
      unsorted := RankReadyGroup(deferredGroups[j], members[j], currLevel, unsorted, groups, crsts, was, pending,
                                 first, base);
      madeProgress := true;
    }
  }

  /** Ranks one group that was found ready. */
  method RankReadyGroup(group: CrstTypeGroup, ghost member: CrstType, currLevel: int, count: int,
                        groups: seq<CrstTypeGroup>, ghost crsts: set<CrstType>, ghost was: RuleLists,
                        ghost pending: set<CrstType>, ghost first: bool, ghost base: int)
    returns (unsorted: int)
    requires GroupsValid(crsts, groups) && count == |Unassigned(crsts, LevelsOf(crsts))|
    requires Progressing(crsts, was, LevelsOf(crsts), pending, first, base, currLevel)
    requires member in crsts && member.group == group
    requires member.level == CRST_UNASSIGNED && member.acquiredBeforeList == []
    modifies crsts`level
    ensures Progressing(crsts, was, LevelsOf(crsts), pending, first, base, currLevel + 1)
    ensures unsorted == |Unassigned(crsts, LevelsOf(crsts))| < count
    ensures forall c :: c in crsts ==> c.level == if c.group == group then currLevel else old(c.level)
    ensures old(member.level) == CRST_UNASSIGNED
    ensures forall c :: c in crsts && old(c.level) != CRST_UNASSIGNED ==> c.level == old(c.level)
  {
    ghost var levels, chosen := LevelsOf(crsts), set m | m in group.members;
    WholeGroupReady(group, member, groups, crsts, was, levels, pending, first, base, currLevel);
    hide GroupsValid, Distinct, Ready;
    unsorted := RankGroup(group, currLevel, count, crsts);
    assert member in chosen;
    RankingStep(crsts, was, levels, LevelsOf(crsts), pending, first, base, currLevel, chosen);
  }

  lemma WholeGroupReady(group: CrstTypeGroup, member: CrstType, groups: seq<CrstTypeGroup>, crsts: set<CrstType>,
                        was: RuleLists, levels: Ranks, pending: set<CrstType>, first: bool, base: int, top: int)
    requires Progressing(crsts, was, levels, pending, first, base, top) && GroupsValid(crsts, groups)
    requires member in Ready(crsts, levels) && member.group == group
    ensures group in groups && group.members != [] && Distinct(group.members)
    ensures member in set m | m in group.members
    ensures (set m | m in group.members) <= Ready(crsts, levels)
    ensures forall a, b :: a in group.members && b in crsts ==> (SameGroup(a, b) <==> b in group.members)
    ensures forall c :: c in crsts ==> (c in group.members <==> c.group == group)
  {
    assert member in group.members;
    forall m | m in group.members ensures m in Ready(crsts, levels) {
      GroupReadyTogether(crsts, was, levels, pending, first, base, top, member, m);
    }
  }

  /** Once the rules on ranked types are gone, some type is always ready: the rules have no cycle. */
  lemma NotStuck(crsts: set<CrstType>, was: RuleLists, levels: Ranks, base: int)
    requires crsts <= levels.Keys
    requires Progressing(crsts, was, levels, Unassigned(crsts, levels), false, base, base)
    requires NamesUnique(crsts) && Acyclic(RulesIn(crsts, was)) && Unassigned(crsts, levels) != {}
    ensures Ready(crsts, levels) != {}
  {
    var unranked := Unassigned(crsts, levels);
    var nodes := NamesOf(unranked);
    var c :| c in unranked;
    assert c.name in nodes;
    SinkExists(RulesIn(crsts, was), nodes);
    var x :| x in nodes && forall y :: y in nodes ==> (x, y) !in RulesIn(crsts, was);
    var a :| a in unranked && a.name == x;
    forall b | b in crsts ensures b !in a.acquiredBeforeList {
      if b in unranked {
        assert (x, b.name) !in RulesIn(crsts, was);
        RulesInMember(crsts, was, a, b);
      }
    }
    NonemptyHasElement(a.acquiredBeforeList);
    assert a in Ready(crsts, levels);
  }

  /** After a pass the pruning leaves every unranked type with its rules on unranked types only. */
  method PrunePass(values: seq<CrstType>, top: int, ghost crsts: set<CrstType>, ghost was: RuleLists,
                   ghost pending: set<CrstType>, ghost first: bool, ghost base: int)
    requires forall c :: c in values <==> c in crsts
    requires Progressing(crsts, was, LevelsOf(crsts), pending, first, base, top)
    modifies crsts`acquiredBeforeList
    ensures Progressing(crsts, was, LevelsOf(crsts), Unassigned(crsts, LevelsOf(crsts)), false, top, top)
  {
    PruneRules(values, crsts);
  }

  ghost predicate NotYetRanked(crsts: set<CrstType>)
    reads crsts`level
  {
    forall c :: c in crsts ==> c.level == CRST_UNASSIGNED || c.level == CRST_UNORDERED
  }

  /** Ranks every type that is not unordered. It fails exactly when there is something to rank but
      nothing to begin with: each unranked type still has a rule at the start. */
  method LevelCrsts(tool: CrstTypeTool) returns (outcome: Outcome)
    requires tool.Valid() && ReadyToLevel(tool.crsts.Values)
    requires NotYetRanked(tool.crsts.Values)
    modifies tool.crsts.Values`level, tool.crsts.Values`acquiredBeforeList
    ensures outcome.Leveled? <==> old(CanStart(tool.crsts.Values))
    ensures outcome.Leveled? ==> Ranking(tool.crsts.Values, old(Snapshot(tool.crsts.Values)))
    ensures outcome.Leveled? ==> forall c :: c in tool.crsts.Values ==>
              if old(c.level) == CRST_UNORDERED then c.level == CRST_UNORDERED else c.level >= 0
  {
    ghost var crsts, was := tool.crsts.Values, Snapshot(tool.crsts.Values);
    hide *;
    var values, unsorted := StartLeveling(tool, was);
    outcome := LevelPasses(values, unsorted, tool.groups.groups, crsts, was);
  }

  /** The types to rank, and how many they are. */
  method StartLeveling(tool: CrstTypeTool, ghost was: RuleLists) returns (values: seq<CrstType>, unsorted: int)
    requires tool.Valid() && ReadyToLevel(tool.crsts.Values) && was == Snapshot(tool.crsts.Values)
    requires NotYetRanked(tool.crsts.Values)
    ensures var crsts := tool.crsts.Values;
            && (forall c :: c in values <==> c in crsts)
            && unsorted == |Unassigned(crsts, LevelsOf(crsts))|
            && GroupsValid(crsts, tool.groups.groups) && NamesUnique(crsts) && crsts <= was.Keys
            && Acyclic(RulesIn(crsts, was))
            && Progressing(crsts, was, LevelsOf(crsts), Unassigned(crsts, LevelsOf(crsts)), true, 0, 0)
  {
    values := tool.Values();
    unsorted := CountUnsorted(values, tool.crsts.Values);
    StartState(tool.crsts.Values, was);
    hide Progressing, Acyclic, ReadyToLevel, RulesIn, GroupsValid, Unassigned;
  }

  /** What validation leaves behind is a correct start for the passes. */
  lemma StartState(crsts: set<CrstType>, was: RuleLists)
    requires ReadyToLevel(crsts) && was == Snapshot(crsts)
    requires NotYetRanked(crsts)
    ensures RulesIn(crsts, was) == Rules(crsts)
    ensures Progressing(crsts, was, LevelsOf(crsts), Unassigned(crsts, LevelsOf(crsts)), true, 0, 0)
  {
  }

  method LevelPasses(values: seq<CrstType>, count: int, groups: seq<CrstTypeGroup>, ghost crsts: set<CrstType>,
                     ghost was: RuleLists)
    returns (outcome: Outcome)
    requires forall c :: c in values <==> c in crsts
    requires GroupsValid(crsts, groups) && NamesUnique(crsts) && count == |Unassigned(crsts, LevelsOf(crsts))|
    requires crsts <= was.Keys && Acyclic(RulesIn(crsts, was))
    requires Progressing(crsts, was, LevelsOf(crsts), Unassigned(crsts, LevelsOf(crsts)), true, 0, 0)
    modifies crsts`level, crsts`acquiredBeforeList
    ensures outcome.Leveled? <==> old(CanStart(crsts))
    ensures outcome.Leveled? ==> Ranking(crsts, was)
    ensures outcome.Leveled? ==> forall c :: c in crsts ==> c.level == CRST_UNORDERED || c.level >= 0
    ensures forall c :: c in crsts ==> (c.level == CRST_UNORDERED <==> old(c.level) == CRST_UNORDERED)
  {
    hide Progressing, RanksValid, GroupsValid, NamesUnique, Acyclic;
    ghost var ready, pending := Ready(crsts, LevelsOf(crsts)), Unassigned(crsts, LevelsOf(crsts));
    var unsorted, currLevel := count, 0;
    ghost var first := true;
    while unsorted > 0
      invariant Progressing(crsts, was, LevelsOf(crsts), pending, first, currLevel, currLevel)
      invariant pending == Unassigned(crsts, LevelsOf(crsts)) && unsorted == |pending|
      invariant forall c :: c in crsts ==> (c.level == CRST_UNORDERED <==> old(c.level) == CRST_UNORDERED)
      invariant if first then ready == Ready(crsts, LevelsOf(crsts)) && unsorted == count else ready != {}
      decreases unsorted
    {
      if !first {
        NotStuck(crsts, was, LevelsOf(crsts), currLevel);
      }
      var madeProgress;
      ghost var base := currLevel;
      currLevel, unsorted, madeProgress := RankPass(values, currLevel, unsorted, groups, crsts, was, first);
      if !madeProgress {
        return CycleDetected(currLevel);
      }
      currLevel := currLevel + 1;
      PrunePass(values, currLevel, crsts, was, pending, first, base);
      pending := Unassigned(crsts, LevelsOf(crsts));
      first := false;
    }
    ProgressingRanks(crsts, was, LevelsOf(crsts), pending, first, currLevel, currLevel);
    outcome := Leveled;
  }

  lemma ProgressingRanks(crsts: set<CrstType>, was: RuleLists, levels: Ranks, pending: set<CrstType>, first: bool,
                         base: int, top: int)
    requires Progressing(crsts, was, levels, pending, first, base, top)
    ensures top >= 0 && crsts <= was.Keys && crsts <= levels.Keys && RanksValid(crsts, was, levels, top)
    ensures Unassigned(crsts, levels) == {} ==>
              forall c :: c in crsts ==> levels[c] == CRST_UNORDERED || levels[c] >= 0
  {
    assert forall c :: c in crsts && levels[c] == CRST_UNASSIGNED ==> c in Unassigned(crsts, levels);
  }

  /** Something is ready to be ranked, or nothing needs to be. */
  ghost predicate CanStart(crsts: set<CrstType>)
    reads crsts`level, crsts`acquiredBeforeList
  {
    Ready(crsts, LevelsOf(crsts)) != {} || Unassigned(crsts, LevelsOf(crsts)) == {}
  }

  /** A finished ranking with ranks 0 to some top. */
  ghost predicate Ranking(crsts: set<CrstType>, was: RuleLists)
    requires crsts <= was.Keys
    reads crsts`level, crsts`group
  {
    exists top :: top >= 0 && RanksValid(crsts, was, LevelsOf(crsts), top)
  }

  method CountUnsorted(values: seq<CrstType>, ghost crsts: set<CrstType>) returns (unsorted: int)
    requires Distinct(values) && forall c :: c in values <==> c in crsts
    ensures unsorted == |Unassigned(crsts, LevelsOf(crsts))|
  {
    unsorted := 0;
    ghost var counted: set<CrstType> := {};
    for i := 0 to |values|
      invariant unsorted == |counted|
      invariant counted == set c | c in values[..i] && c.level == CRST_UNASSIGNED
    {
      assert values[..i + 1] == values[..i] + [values[i]];
      assert values[i] !in values[..i];
      if values[i].level == CRST_UNASSIGNED {
        unsorted := unsorted + 1;
        counted := counted + {values[i]};
      }
    }
    assert values[..|values|] == values;
    assert counted == Unassigned(crsts, LevelsOf(crsts));
  }
}