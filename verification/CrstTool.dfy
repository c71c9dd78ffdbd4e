/** Checking the collection of lock types for errors and for cycles. */
module CrstTool {
  import opened Digraph
  import opened Quotients
  import opened CrstTypes

  /** How a check ends: IndexOutOfRange is the exception that escapes it. */
  datatype Verdict = Accepted | Rejected | IndexOutOfRange

  class CycleList {
    var items: seq<CrstType>

    constructor ()
      ensures items == []
    {
      items := [];
    }
  }

  ghost function Names(items: seq<CrstType>): seq<string> {
    seq(|items|, i requires 0 <= i < |items| => items[i].name)
  }

  ghost function NameSet(items: seq<CrstType>): set<string> {
    set c | c in items :: c.name
  }

  /** Some path from `curr` outside `visited` closes on `root`. */
  ghost predicate ClosesFrom(root: CrstType, curr: CrstType, visited: seq<CrstType>, g: set<(string, string)>) {
    Closes(g, root.name, curr.name, NameSet(visited))
  }

  /** `items` extends `visited` by a path from `curr` that closes on `root`. */
  ghost predicate FoundPath(root: CrstType, curr: CrstType, visited: seq<CrstType>, items: seq<CrstType>,
                            g: set<(string, string)>) {
    visited <= items && ClosingPath(g, root.name, curr.name, NameSet(visited), Names(items[|visited|..]))
  }

  lemma RootIsChild(root: CrstType, curr: CrstType, visited: seq<CrstType>, crsts: set<CrstType>,
                    g: set<(string, string)>)
    requires g == Rules(crsts) && RulesClosed(crsts) && NamesUnique(crsts) && root in crsts && curr in crsts
    requires forall c :: c in visited ==> c in crsts
    requires curr !in visited && root in curr.acquiredBeforeList
    ensures FoundPath(root, curr, visited, visited + [curr], g)
  {
  }

  lemma PathThroughChild(root: CrstType, curr: CrstType, child: CrstType, visited: seq<CrstType>,
                         items: seq<CrstType>, crsts: set<CrstType>, g: set<(string, string)>)
    requires g == Rules(crsts) && RulesClosed(crsts) && NamesUnique(crsts) && root in crsts && curr in crsts
    requires forall c :: c in visited ==> c in crsts
    requires curr !in visited && child in curr.acquiredBeforeList
    requires FoundPath(root, child, visited + [curr], items, g)
    ensures FoundPath(root, curr, visited, items, g)
  {
    var rest := items[|visited| + 1..];
    RulesMember(crsts, curr, child);
    assert NameSet(visited + [curr]) == NameSet(visited) + {curr.name};
    ClosingPathPrepend(g, root.name, curr.name, NameSet(visited), Names(rest));
    SuffixSplit(visited, curr, items);
    assert Names([curr] + rest) == [curr.name] + Names(rest);
  }

  lemma NoChildCloses(root: CrstType, curr: CrstType, visited: seq<CrstType>, crsts: set<CrstType>,
                      g: set<(string, string)>)
    requires g == Rules(crsts) && RulesClosed(crsts) && NamesUnique(crsts) && root in crsts && curr in crsts
    requires forall c :: c in visited ==> c in crsts
    requires curr !in visited && (root in visited || root == curr)
    requires forall c :: c in curr.acquiredBeforeList ==>
               c != root && (c in visited + [curr] || !ClosesFrom(root, c, visited + [curr], g))
    ensures !ClosesFrom(root, curr, visited, g)
  {
    var avoid := NameSet(visited);
    assert NameSet(visited + [curr]) == avoid + {curr.name};
    ClosesUnfold(g, root.name, curr.name, avoid);
    forall n | (curr.name, n) in g
      ensures n != root.name && (n in avoid + {curr.name} || !Closes(g, root.name, n, avoid + {curr.name}))
    {
      var c :| c in curr.acquiredBeforeList && c.name == n;
    }
  }

  ghost predicate AllDefined(crsts: set<CrstType>)
    reads crsts
  {
    forall c :: c in crsts ==> c.defined
  }

  /** Unordered types have neither rules nor a group. */
  ghost predicate UnorderedAlone(crsts: set<CrstType>)
    reads crsts
  {
    forall c :: c in crsts && c.level == CRST_UNORDERED ==> c.acquiredBeforeList == [] && c.group == null
  }

  class CrstTypeTool {
    var crsts: map<string, CrstType>
    const groups: CrstTypeGroups

    constructor ()
      ensures Valid() && crsts == map[] && groups.groups == [] && fresh(groups)
    {
      crsts := map[];
      groups := new CrstTypeGroups();
    }

    ghost predicate Valid()
      reads this, groups, groups.groups, crsts.Values
    {
      && (forall n :: n in crsts ==> crsts[n].name == n)
      && RulesClosed(crsts.Values)
      && GroupsValid(crsts.Values, groups.groups)
    }

    /** The types of the dictionary in an arbitrary order. */
    method Values() returns (values: seq<CrstType>)
      requires Valid()
      ensures Distinct(values)
      ensures forall c :: c in values <==> c in crsts.Values
    {
      values := [];
      var rest := crsts.Keys;
      while rest != {}
        invariant rest <= crsts.Keys && Distinct(values)
        invariant forall c :: c in values <==> c in crsts.Values && c.name !in rest
      {
        var name :| name in rest;
        values := values + [crsts[name]];
        rest := rest - {name};
      }
    }

    /** Depth-first search for a way back to `rootCrst`. When one is found the list has grown by a
        path that closes on the root; otherwise there is none and the list is as it was. */
    method FindCycle(rootCrst: CrstType, currCrst: CrstType, cycleList: CycleList, ghost crsts: set<CrstType>,
                     ghost g: set<(string, string)>)
      returns (found: bool)
      requires g == Rules(crsts) && RulesClosed(crsts) && NamesUnique(crsts) && rootCrst in crsts && currCrst in crsts
      requires forall c :: c in cycleList.items ==> c in crsts
      requires currCrst !in cycleList.items && (rootCrst in cycleList.items || rootCrst == currCrst)
      modifies cycleList
      ensures found ==> FoundPath(rootCrst, currCrst, old(cycleList.items), cycleList.items, g)
      ensures !found ==> !ClosesFrom(rootCrst, currCrst, old(cycleList.items), g)
      ensures !found ==> cycleList.items == old(cycleList.items)
      decreases crsts - set c | c in cycleList.items
    {
      ghost var was := cycleList.items;
      cycleList.items := cycleList.items + [currCrst];
      assert (set c | c in cycleList.items) == (set c | c in was) + {currCrst};
      for i := 0 to |currCrst.acquiredBeforeList|
        invariant cycleList.items == was + [currCrst]
        invariant forall c :: c in currCrst.acquiredBeforeList[..i] ==>
                    c != rootCrst && (c in was + [currCrst] || !ClosesFrom(rootCrst, c, was + [currCrst], g))
      {
        var childCrst := currCrst.acquiredBeforeList[i];
        if childCrst == rootCrst {
          RootIsChild(rootCrst, currCrst, was, crsts, g);
          return true;
        }
        if childCrst !in cycleList.items {
          found := FindCycle(rootCrst, childCrst, cycleList, crsts, g);
          if found {
            PathThroughChild(rootCrst, currCrst, childCrst, was, cycleList.items, crsts, g);
            return true;
          }
        }
        assert currCrst.acquiredBeforeList[..i + 1] == currCrst.acquiredBeforeList[..i] + [childCrst];
      }
      assert currCrst.acquiredBeforeList[..|currCrst.acquiredBeforeList|] == currCrst.acquiredBeforeList;
      NoChildCloses(rootCrst, currCrst, was, crsts, g);
      cycleList.items := cycleList.items[..|cycleList.items| - 1];
      found := false;
    }

    /** A search from a type with an empty list decides whether the type lies on a cycle. */
    method CycleThrough(crst: CrstType) returns (found: bool)
      requires Valid() && crst in crsts.Values
      ensures found <==> OnCycle(Rules(crsts.Values), crst.name)
    {
      ghost var g := Rules(crsts.Values);
      var cycleList := new CycleList();
      found := FindCycle(crst, crst, cycleList, crsts.Values, g);
      OnCycleIffCloses(g, crst.name);
      assert NameSet([]) == {};
    }

    /** The checks made on one type before normalization, in their order. */
    method ValidateCrst(crst: CrstType) returns (verdict: Verdict)
      requires Valid() && crst in crsts.Values
      ensures verdict.Accepted? <==> Passes(crst, crsts.Values)
      ensures verdict.IndexOutOfRange? <==>
              crst.defined && MixedUnordered(crst) && crst.acquiredBeforeList == []
      ensures verdict.Rejected? ==> OtherFault(crst, crsts.Values)
    {
      if !crst.defined {
        return Rejected;
      }
      if crst.level == CRST_UNORDERED && (|crst.acquiredBeforeList| > 0 || crst.group != null) {
        // The message names the first rule, which a type that only has a group does not have.
        return if |crst.acquiredBeforeList| > 0 then Rejected else IndexOutOfRange;
      }
      if crst in crst.acquiredBeforeList {
        SelfRuleIsCycle(crst, crsts.Values);
        return Rejected;
      }
      var found := CycleThrough(crst);
      return if found then Rejected else Accepted;
    }

    /** Accepts exactly the collections that are fully defined, keep unordered types apart and stay
        acyclic when every SameLevelAs class is contracted to one node; what it accepts is left
        normalized. */
    method ValidateCrsts() returns (verdict: Verdict)
      requires Valid()
      modifies crsts.Values`acquiredBeforeList
      ensures Valid()
      ensures verdict.Accepted? <==> old(Rankable(crsts.Values))
      ensures verdict.IndexOutOfRange? ==>
                exists c :: c in crsts.Values && old(MixedUnordered(c) && c.acquiredBeforeList == [])
      ensures old(NoOtherFault(crsts.Values)) ==>
                (verdict.IndexOutOfRange? <==> old(!UnorderedAlone(crsts.Values)))
      ensures verdict.Accepted? ==> ReadyToLevel(crsts.Values)
      ensures verdict.Accepted? ==>
                Rules(crsts.Values) == Normalized(old(Rules(crsts.Values)), SameLevel(crsts.Values))
    {
      VerdictGraph(crsts.Values);
      verdict := ValidateDefinitions();
      if verdict == Accepted {
        var acyclic := NormalizeAndValidate();
        verdict := if acyclic then Accepted else Rejected;
      }
    }

    method NormalizeAndValidate() returns (acyclic: bool)
      requires Valid() && UnorderedAlone(crsts.Values)
      modifies crsts.Values`acquiredBeforeList
      ensures Valid()
      ensures Rules(crsts.Values) == Normalized(old(Rules(crsts.Values)), SameLevel(crsts.Values))
      ensures acyclic <==> Acyclic(Rules(crsts.Values))
      ensures acyclic ==> ReadyToLevel(crsts.Values)
    {
      groups.NormalizeAllRules(crsts.Values);
      acyclic := ValidateNormalized();
    }

    /** The first pass over the types, made on the rules as they were declared. */
    method ValidateDefinitions() returns (verdict: Verdict)
      requires Valid()
      ensures verdict.Accepted? <==>
              AllDefined(crsts.Values) && UnorderedAlone(crsts.Values) && Acyclic(Rules(crsts.Values))
      ensures verdict.IndexOutOfRange? ==>
                exists c :: c in crsts.Values && MixedUnordered(c) && c.acquiredBeforeList == []
      ensures verdict.Rejected? ==> !NoOtherFault(crsts.Values)
    {
      ghost var good := Passing(crsts.Values);
      hide *;
      var values := Values();
      for i := 0 to |values|
        invariant Valid() && Passing(crsts.Values) == good
        invariant forall c :: c in values[..i] ==> c in good
      {
        verdict := ValidateCrst(values[i]);
        PassingMember(values[i], crsts.Values);
        if verdict != Accepted {
          FaultFound(values[i], crsts.Values, verdict);
          return;
        }
        assert values[..i + 1] == values[..i] + [values[i]];
      }
      assert values[..|values|] == values;
      ValidClosed();
      AllPass(crsts.Values);
      verdict := Accepted;
    }

    lemma ValidClosed()
      requires Valid()
      ensures RulesClosed(crsts.Values)
    {
    }

    /** The second pass, made on the normalized rules. */
    method ValidateNormalized() returns (acyclic: bool)
      requires Valid()
      ensures acyclic <==> Acyclic(Rules(crsts.Values))
    {
      ghost var g := Rules(crsts.Values);
      NoCycleAtAnyName(crsts.Values);
      hide *;
      var values := Values();
      for i := 0 to |values|
        invariant Valid() && Rules(crsts.Values) == g
        invariant forall c :: c in values[..i] ==> !OnCycle(g, c.name)
      {
        var found := CycleThrough(values[i]);
        if found {
          CycleRefutes(g, values[i].name);
          return false;
        }
        assert values[..i + 1] == values[..i] + [values[i]];
      }
      assert values[..|values|] == values;
      acyclic := true;
    }
  }

  ghost predicate Rankable(crsts: set<CrstType>)
    reads crsts
  {
    AllDefined(crsts) && UnorderedAlone(crsts) && Acyclic(Quotient(Rules(crsts), SameLevel(crsts)))
  }

  /** The declared rules are acyclic when the contracted ones are, and the contracted ones are exactly
      when the normalized ones are. */
  lemma VerdictGraph(crsts: set<CrstType>)
    requires RulesClosed(crsts) && NamesUnique(crsts)
    ensures var g, same := Rules(crsts), SameLevel(crsts);
            && (Acyclic(Quotient(g, same)) ==> Acyclic(g))
            && (Acyclic(Quotient(g, same)) <==> Acyclic(Normalized(g, same)))
  {
    var g, same := Rules(crsts), SameLevel(crsts);
    SameLevelIsEquivalence(crsts);
    RulesOverNames(crsts);
    NormalizedAcyclicIffQuotientAcyclic(g, same, NamesOf(crsts));
    NormalizedContains(g, same, NamesOf(crsts));
    AcyclicAntitone(g, Normalized(g, same));
  }

  /** The type is marked unordered and yet has a rule or a group. */
  ghost predicate MixedUnordered(c: CrstType)
    reads c
  {
    c.level == CRST_UNORDERED && (c.acquiredBeforeList != [] || c.group != null)
  }

  /** The type passes the checks made before normalization. */
  ghost predicate Passes(c: CrstType, crsts: set<CrstType>)
    reads c, crsts
  {
    c.defined && !MixedUnordered(c) && !OnCycle(Rules(crsts), c.name)
  }

  ghost function Passing(crsts: set<CrstType>): set<CrstType>
    reads crsts
  {
    set c | c in crsts && Passes(c, crsts)
  }

  lemma PassingMember(c: CrstType, crsts: set<CrstType>)
    requires c in crsts
    ensures c in Passing(crsts) <==> Passes(c, crsts)
  {
  }

  lemma AllPass(crsts: set<CrstType>)
    ensures (forall c :: c in crsts ==> c in Passing(crsts)) && RulesClosed(crsts) ==>
              AllDefined(crsts) && UnorderedAlone(crsts) && Acyclic(Rules(crsts))
  {
    if RulesClosed(crsts) {
      NoCycleAtAnyName(crsts);
    }
    hide OnCycle;
  }

  lemma FaultFound(c: CrstType, crsts: set<CrstType>, verdict: Verdict)
    requires c in crsts && !Passes(c, crsts) && verdict != Accepted
    requires verdict.Rejected? ==> OtherFault(c, crsts)
    requires verdict.IndexOutOfRange? ==> MixedUnordered(c) && c.acquiredBeforeList == []
    ensures !(AllDefined(crsts) && UnorderedAlone(crsts) && Acyclic(Rules(crsts)))
    ensures verdict.Rejected? ==> !NoOtherFault(crsts)
    ensures verdict.IndexOutOfRange? ==> exists d :: d in crsts && MixedUnordered(d) && d.acquiredBeforeList == []
  {
    hide OtherFault, OnCycle;
  }

  lemma CycleRefutes(g: set<(string, string)>, r: string)
    requires OnCycle(g, r)
    ensures !Acyclic(g)
  {
    hide OnCycle;
  }

  /** A fault that has a message of its own, whatever group the type is in. */
  ghost predicate OtherFault(c: CrstType, crsts: set<CrstType>)
    reads c, crsts
  {
    || !c.defined || OnCycle(Rules(crsts), c.name)
    || (c.level == CRST_UNORDERED && c.acquiredBeforeList != [])
  }

  ghost predicate NoOtherFault(crsts: set<CrstType>)
    reads crsts
  {
    forall c :: c in crsts ==> !OtherFault(c, crsts)
  }

  /** What the ranking may rely on: members of a group share their rules, unordered types have none,
      and there is no cycle. */
  ghost predicate ReadyToLevel(crsts: set<CrstType>)
    reads crsts
  {
    && RulesClosed(crsts)
    && Acyclic(Rules(crsts))
    && UnorderedAlone(crsts)
    && forall a, b :: a in crsts && b in crsts && SameGroup(a, b) ==> a.acquiredBeforeList == b.acquiredBeforeList
  }

  lemma SelfRuleIsCycle(c: CrstType, crsts: set<CrstType>)
    requires c in crsts && c in c.acquiredBeforeList
    ensures OnCycle(Rules(crsts), c.name)
  {
    assert (c.name, c.name) in Rules(crsts);
    assert WalkFromTo(Rules(crsts), [c.name, c.name], c.name, c.name);
  }

  /** Only names of types of the collection can lie on a cycle of its rules. */
  lemma NoCycleAtAnyName(crsts: set<CrstType>)
    requires RulesClosed(crsts)
    ensures (forall c :: c in crsts ==> !OnCycle(Rules(crsts), c.name)) ==> Acyclic(Rules(crsts))
  {
    if r :| OnCycle(Rules(crsts), r) {
      var w :| WalkFromTo(Rules(crsts), w, r, r) && |w| > 1;
      assert (w[0], w[1]) in Rules(crsts);
    }
  }
}
