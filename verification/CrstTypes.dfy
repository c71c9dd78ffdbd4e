/** The lock types, their rules, and the SameLevelAs groups they are merged into. */
module CrstTypes {
  import opened Digraph
  import opened Quotients

  const CRST_UNORDERED: int := -1
  const CRST_UNASSIGNED: int := -2

  /** One lock type, identified by its name. */
  class CrstType {
    const name: string
    var level: int
    var acquiredBeforeList: seq<CrstType>
    var group: CrstTypeGroup?
    var defined: bool

    constructor (name: string)
      ensures this.name == name && level == CRST_UNASSIGNED && acquiredBeforeList == []
      ensures group == null && !defined
    {
      this.name := name;
      level := CRST_UNASSIGNED;
      acquiredBeforeList := [];
      group := null;
      defined := false;
    }
  }

  ghost predicate NamesUnique(crsts: set<CrstType>) {
    forall a, b :: a in crsts && b in crsts && a.name == b.name ==> a == b
  }

  ghost function NamesOf(crsts: set<CrstType>): set<string> {
    set c | c in crsts :: c.name
  }

  /** Rules only mention types of the collection. */
  ghost predicate RulesClosed(crsts: set<CrstType>)
    reads crsts
  {
    forall a, b :: a in crsts && b in a.acquiredBeforeList ==> b in crsts
  }

  /** The AcquiredBefore rules of a collection, as a graph over names. */
  ghost function Rules(crsts: set<CrstType>): set<(string, string)>
    reads crsts
  {
    set a, b | a in crsts && b in a.acquiredBeforeList :: (a.name, b.name)
  }

  ghost predicate SameGroup(a: CrstType, b: CrstType)
    reads a`group, b`group
  {
    a.group != null && a.group == b.group
  }

  /** Being one type or members of one group, as an equivalence over names. */
  ghost function SameLevel(crsts: set<CrstType>): set<(string, string)>
    reads crsts`group
  {
    set a, b | a in crsts && b in crsts && (a == b || SameGroup(a, b)) :: (a.name, b.name)
  }

  lemma RulesMember(crsts: set<CrstType>, a: CrstType, b: CrstType)
    requires NamesUnique(crsts) && RulesClosed(crsts) && a in crsts && b in crsts
    ensures (a.name, b.name) in Rules(crsts) <==> b in a.acquiredBeforeList
  {
  }

  lemma RulesOverNames(crsts: set<CrstType>)
    requires RulesClosed(crsts)
    ensures Over(Rules(crsts), NamesOf(crsts))
  {
  }

  lemma SameLevelMember(crsts: set<CrstType>, a: CrstType, b: CrstType)
    requires NamesUnique(crsts) && a in crsts && b in crsts
    ensures (a.name, b.name) in SameLevel(crsts) <==> a == b || SameGroup(a, b)
  {
  }

  lemma SameLevelIsEquivalence(crsts: set<CrstType>)
    requires NamesUnique(crsts)
    ensures Equivalence(SameLevel(crsts), NamesOf(crsts))
  {
    var same := SameLevel(crsts);
    forall x, y, z | (x, y) in same && (y, z) in same ensures (x, z) in same {
      var a, b :| a in crsts && b in crsts && (a == b || SameGroup(a, b)) && (a.name, b.name) == (x, y);
      var c, d :| c in crsts && d in crsts && (c == d || SameGroup(c, d)) && (c.name, d.name) == (y, z);
      assert b == c;
    }
  }

  /** A set of types related by SameLevelAs. */
  class CrstTypeGroup {
    var members: seq<CrstType>

    constructor ()
      ensures members == []
    {
      members := [];
    }

    /** Takes the types as members, one after the other. */
    method Fill(types: seq<CrstType>, ghost crsts: set<CrstType>)
      requires forall m :: m in types ==> m in crsts
      modifies this, crsts`group
      ensures members == old(members) + types
      ensures forall c :: c in crsts ==> c.group == if c in types then this else old(c.group)
    {
      for i := 0 to |types|
        invariant members == old(members) + types[..i]
        invariant forall c :: c in crsts ==> c.group == if c in types[..i] then this else old(c.group)
      {
        members := members + [types[i]];
        types[i].group := this;
        assert types[..i + 1] == types[..i] + [types[i]];
      }
      assert types[..|types|] == types;
    }

    /** Gives every member the union of the members' rules, each rule once and in a list of its own. */
    method NormalizeRules()
      requires Distinct(members)
      modifies members`acquiredBeforeList
      ensures forall m :: m in members ==> Distinct(m.acquiredBeforeList)
      ensures forall m, n :: m in members && n in members ==> m.acquiredBeforeList == n.acquiredBeforeList
      ensures forall m, b :: m in members ==>
                (b in m.acquiredBeforeList <==> exists n :: n in members && b in old(n.acquiredBeforeList))
    {
      var acquiredBeforeList: seq<CrstType> := [];
      for i := 0 to |members|
        invariant Distinct(acquiredBeforeList)
        invariant forall b :: b in acquiredBeforeList <==> exists n :: n in members[..i] && b in n.acquiredBeforeList
      {
        var crst := members[i];
        ghost var before := acquiredBeforeList;
        for j := 0 to |crst.acquiredBeforeList|
          invariant Distinct(acquiredBeforeList)
          invariant forall b :: b in acquiredBeforeList <==> b in before || b in crst.acquiredBeforeList[..j]
        {
          var afterCrst := crst.acquiredBeforeList[j];
          if afterCrst !in acquiredBeforeList {
            acquiredBeforeList := acquiredBeforeList + [afterCrst];
          }
        }
        assert members[..i + 1] == members[..i] + [crst];
      }
      assert members[..|members|] == members;
      for i := 0 to |members|
        invariant forall m :: m in members[..i] ==> m.acquiredBeforeList == acquiredBeforeList
      {
        members[i].acquiredBeforeList := acquiredBeforeList;
        assert members[..i + 1] == members[..i] + [members[i]];
      }
    }
  }

  /** Every group is listed once, its members are distinct and point back to it, and every grouped
      type is listed in its group. */
  ghost predicate GroupsValid(crsts: set<CrstType>, groups: seq<CrstTypeGroup>)
    reads crsts`group, groups
  {
    && Distinct(groups)
    && (forall g :: g in groups ==> Distinct(g.members))
    && (forall g, m :: g in groups && m in g.members ==> m in crsts && m.group == g)
    && (forall c :: c in crsts && c.group != null ==> c.group in groups && c in c.group.members)
  }

  ghost predicate TouchesGroup(a: CrstType, crst1: CrstType, crst2: CrstType)
    reads a`group, crst1`group, crst2`group
  {
    a == crst1 || a == crst2 || SameGroup(a, crst1) || SameGroup(a, crst2)
  }

  /** Removes the first occurrence, as a list does. */
  function Without<T(==)>(s: seq<T>, x: T): seq<T> {
    if s == [] then []
    else if s[0] == x then s[1..]
    else [s[0]] + Without(s[1..], x)
  }

  lemma {:induction false} WithoutMembers<T>(s: seq<T>, x: T)
    requires Distinct(s)
    ensures Distinct(Without(s, x))
    ensures forall y :: y in Without(s, x) ==> y in s && y != x
    ensures forall y :: y in s && y != x ==> y in Without(s, x)
  {
    if s != [] {
      WithoutMembers(s[1..], x);
      assert s == [s[0]] + s[1..];
      var r := Without(s, x);
      forall j | 1 <= j < |r| && s[0] != x ensures r[0] != r[j] {
        assert r[j] == Without(s[1..], x)[j - 1];
        assert r[j] in Without(s[1..], x);
      }
    }
  }

  lemma DistinctJoin<T>(a: seq<T>, b: seq<T>)
    requires Distinct(a) && Distinct(b) && forall x :: x in a ==> x !in b
    ensures Distinct(a + b)
  {
    forall i, j | 0 <= i < j < |a + b| ensures (a + b)[i] != (a + b)[j] {
      if i < |a| <= j {
        assert a[i] in a && b[j - |a|] in b;
      }
    }
  }

  type RuleLists = map<CrstType, seq<CrstType>>

  ghost function Snapshot(crsts: set<CrstType>): RuleLists
    reads crsts
  {
    map c | c in crsts :: c.acquiredBeforeList
  }

  /** `rules` is the union of the lists the group members of `a` had. */
  ghost predicate IsUnionOfGroup(rules: seq<CrstType>, a: CrstType, crsts: set<CrstType>, was: RuleLists)
    requires crsts <= was.Keys
    reads a`group, crsts`group
  {
    && (forall b :: b in rules ==> b in crsts)
    && (forall b :: b in crsts ==>
         (b in rules <==> exists n :: n in crsts && SameGroup(a, n) && b in was[n]))
  }

  /** Where every type of the collection has the rules its group had, or its own if it has no group,
      the rules are the normalization of the old ones. */
  ghost predicate ListsNormalized(crsts: set<CrstType>, was: RuleLists)
    requires crsts <= was.Keys
    reads crsts
  {
    forall a :: a in crsts ==>
      if a.group == null then a.acquiredBeforeList == was[a] else IsUnionOfGroup(a.acquiredBeforeList, a, crsts, was)
  }

  ghost function RulesIn(crsts: set<CrstType>, was: RuleLists): set<(string, string)>
    requires crsts <= was.Keys
  {
    set a, b | a in crsts && b in was[a] :: (a.name, b.name)
  }

  ghost predicate ListsClosed(crsts: set<CrstType>, was: RuleLists)
    requires crsts <= was.Keys
  {
    forall a, b :: a in crsts && b in was[a] ==> b in crsts
  }

  lemma RulesInMember(crsts: set<CrstType>, was: RuleLists, a: CrstType, b: CrstType)
    requires crsts <= was.Keys && NamesUnique(crsts) && ListsClosed(crsts, was) && a in crsts && b in crsts
    ensures (a.name, b.name) in RulesIn(crsts, was) <==> b in was[a]
  {
  }

  lemma RuleNormalizedOnly(crsts: set<CrstType>, was: RuleLists, a: CrstType, b: CrstType)
    requires crsts <= was.Keys && NamesUnique(crsts) && ListsClosed(crsts, was) && a in crsts && b in crsts
    requires (a.name, b.name) in Normalized(RulesIn(crsts, was), SameLevel(crsts))
    ensures exists n :: n in crsts && (n == a || SameGroup(a, n)) && b in was[n]
  {
  }

  lemma RuleNormalizedAll(crsts: set<CrstType>, was: RuleLists, a: CrstType, n: CrstType, b: CrstType)
    requires crsts <= was.Keys && NamesUnique(crsts) && ListsClosed(crsts, was)
    requires a in crsts && b in crsts && n in crsts && (n == a || SameGroup(a, n)) && b in was[n]
    ensures (a.name, b.name) in Normalized(RulesIn(crsts, was), SameLevel(crsts))
  {
    NormalizedMember(RulesIn(crsts, was), SameLevel(crsts), a.name, b.name);
    RulesInMember(crsts, was, n, b);
    SameLevelMember(crsts, a, n);
  }

  lemma RuleNormalized(crsts: set<CrstType>, was: RuleLists, a: CrstType, b: CrstType)
    requires crsts <= was.Keys && NamesUnique(crsts) && ListsClosed(crsts, was)
    requires ListsNormalized(crsts, was) && a in crsts && b in crsts
    ensures b in a.acquiredBeforeList <==> (a.name, b.name) in Normalized(RulesIn(crsts, was), SameLevel(crsts))
  {
    if b in a.acquiredBeforeList {
      var n :| n in crsts && (n == a || SameGroup(a, n)) && b in was[n];
      RuleNormalizedAll(crsts, was, a, n, b);
    }
    if (a.name, b.name) in Normalized(RulesIn(crsts, was), SameLevel(crsts)) {
      RuleNormalizedOnly(crsts, was, a, b);
    }
  }

  lemma RulesNormalized(crsts: set<CrstType>, was: RuleLists)
    requires crsts <= was.Keys && NamesUnique(crsts) && ListsClosed(crsts, was) && ListsNormalized(crsts, was)
    ensures RulesClosed(crsts)
    ensures Rules(crsts) == Normalized(RulesIn(crsts, was), SameLevel(crsts))
  {
    var n := Normalized(RulesIn(crsts, was), SameLevel(crsts));
    forall a, b | a in crsts && b in a.acquiredBeforeList ensures b in crsts && (a.name, b.name) in n {
      RuleNormalized(crsts, was, a, b);
    }
    forall e | e in n ensures e in Rules(crsts) {
      NormalizedMember(RulesIn(crsts, was), SameLevel(crsts), e.0, e.1);
      var m :| (e.0, m) in SameLevel(crsts) && (m, e.1) in RulesIn(crsts, was);
      var a :| a in crsts && a.name == e.0;
      var b :| b in crsts && b.name == e.1;
      RuleNormalized(crsts, was, a, b);
    }
  }

  /** Every group formed so far. */
  class CrstTypeGroups {
    var groups: seq<CrstTypeGroup>

    constructor ()
      ensures groups == []
    {
      groups := [];
    }

    ghost function All(): set<CrstTypeGroup>
      reads this
    {
      set g | g in groups
    }

    /** Declares the two types to be at the same level: the classes they touch become one group and
        nothing else changes. */
    method Join(crst1: CrstType, crst2: CrstType, ghost crsts: set<CrstType>)
      requires GroupsValid(crsts, groups) && crst1 in crsts && crst2 in crsts
      modifies this, All(), crsts`group
      ensures GroupsValid(crsts, groups)
      ensures fresh(All() - old(All()))
      ensures forall a, b :: a in crsts && b in crsts ==>
                (SameGroup(a, b) <==>
                 old(SameGroup(a, b)) || old(TouchesGroup(a, crst1, crst2) && TouchesGroup(b, crst1, crst2)))
    {
      if crst1 == crst2 {
        if crst1.group == null {
          AddGroup([crst1], crsts);
        }
      } else if crst1.group == null && crst2.group == null {
        AddGroup([crst1, crst2], crsts);
      } else if crst1.group == null {
        AddMember(crst2.group, crst1, crsts);
      } else if crst2.group == null {
        AddMember(crst1.group, crst2, crsts);
      } else if crst1.group != crst2.group {
        Merge(crst1.group, crst2.group, crsts);
      }
    }

    /** Forms a new group of one or two types that have none. */
    method AddGroup(members: seq<CrstType>, ghost crsts: set<CrstType>)
      requires GroupsValid(crsts, groups) && Distinct(members) && |members| <= 2
      requires forall m :: m in members ==> m in crsts && m.group == null
      modifies this, crsts`group
      ensures GroupsValid(crsts, groups)
      ensures exists g :: fresh(g) && groups == old(groups) + [g] &&
                forall c :: c in crsts ==> c.group == if c in members then g else old(c.group)
    {
      var group := new CrstTypeGroup();
      hide GroupsValid, Distinct;
      group.Fill(members, crsts);
      groups := groups + [group];
      AddedValid(group, members, crsts);
    }

    twostate lemma AddedValid(new group: CrstTypeGroup, new members: seq<CrstType>, crsts: set<CrstType>)
      requires old(GroupsValid(crsts, groups)) && Distinct(members) && fresh(group)
      requires forall m :: m in members ==> m in crsts && old(m.group) == null
      requires groups == old(groups) + [group] && group.members == members
      requires forall g :: g in old(groups) ==> g.members == old(g.members)
      requires forall c :: c in crsts ==> c.group == if c in members then group else old(c.group)
      ensures GroupsValid(crsts, groups)
    {
      forall g, m | g in groups && m in g.members ensures m in crsts && m.group == g {
      }
    }

    /** Adds a type that has no group to an existing one. */
    method AddMember(group: CrstTypeGroup, crst: CrstType, ghost crsts: set<CrstType>)
      requires GroupsValid(crsts, groups) && group in groups && crst in crsts && crst.group == null
      modifies group, crst`group
      ensures GroupsValid(crsts, groups)
      ensures crst.group == group
    {
      assert crst !in group.members;
      group.members := group.members + [crst];
      crst.group := group;
    }

    /** Adds the members of one group to another and drops the emptied group. */
    method Merge(group: CrstTypeGroup, absorbGroup: CrstTypeGroup, ghost crsts: set<CrstType>)
      requires GroupsValid(crsts, groups) && group in groups && absorbGroup in groups && group != absorbGroup
      modifies this, group, crsts`group
      ensures GroupsValid(crsts, groups)
      ensures forall g :: g in groups ==> g in old(groups)
      ensures forall c :: c in crsts ==> c.group == if old(c.group) == absorbGroup then group else old(c.group)
    {
      MembersApart(group, absorbGroup, crsts);
      WithoutMembers(groups, absorbGroup);
      hide GroupsValid, Distinct, Without;
      group.Fill(absorbGroup.members, crsts);
      assert groups == old(groups);
      groups := Without(groups, absorbGroup);
      MergedValid(group, absorbGroup, crsts);
    }

    lemma MembersApart(group: CrstTypeGroup, absorbGroup: CrstTypeGroup, crsts: set<CrstType>)
      requires GroupsValid(crsts, groups) && group in groups && absorbGroup in groups && group != absorbGroup
      ensures Distinct(group.members + absorbGroup.members) && Distinct(groups)
      ensures forall m :: m in absorbGroup.members ==> m in crsts
      ensures forall c :: c in crsts ==> (c in absorbGroup.members <==> c.group == absorbGroup)
    {
      forall m | m in group.members ensures m !in absorbGroup.members {
        assert m.group == group;
      }
      DistinctJoin(group.members, absorbGroup.members);
    }

    twostate lemma MergedValid(new group: CrstTypeGroup, new absorbGroup: CrstTypeGroup, crsts: set<CrstType>)
      requires old(GroupsValid(crsts, groups)) && old(group in groups && absorbGroup in groups)
      requires group != absorbGroup && Distinct(groups)
      requires forall g :: g in groups ==> g in old(groups) && g != absorbGroup
      requires forall g :: g in old(groups) && g != absorbGroup ==> g in groups
      requires group.members == old(group.members) + old(absorbGroup.members) && Distinct(group.members)
      requires forall g :: g in groups && g != group ==> g.members == old(g.members)
      requires forall c :: c in crsts ==> c.group == if old(c.group) == absorbGroup then group else old(c.group)
      ensures GroupsValid(crsts, groups)
    {
      forall g, m | g in groups && m in g.members ensures m in crsts && m.group == g {
        assert g == group ==> m in old(group.members) || m in old(absorbGroup.members);
      }
      forall c | c in crsts && c.group != null ensures c.group in groups && c in c.group.members {
        assert old(c.group) in old(groups) && c in old(c.group.members);
      }
    }

    /** Normalizes every group. The rules become the normalization of the old rules over the
        SameLevelAs classes. */
    method NormalizeAllRules(ghost crsts: set<CrstType>)
      requires GroupsValid(crsts, groups) && RulesClosed(crsts) && NamesUnique(crsts)
      modifies crsts`acquiredBeforeList
      ensures RulesClosed(crsts)
      ensures Rules(crsts) == Normalized(old(Rules(crsts)), SameLevel(crsts))
      ensures forall a, b :: a in crsts && b in crsts && SameGroup(a, b) ==>
                a.acquiredBeforeList == b.acquiredBeforeList
      ensures forall a :: a in crsts && a.group == null ==>
                a.acquiredBeforeList == old(a.acquiredBeforeList)
    {
      ghost var was := Snapshot(crsts);
      NormalizeGroups(crsts, was);
      assert RulesIn(crsts, was) == old(Rules(crsts));
      RulesNormalized(crsts, was);
    }

    method NormalizeGroups(ghost crsts: set<CrstType>, ghost was: RuleLists)
      requires GroupsValid(crsts, groups) && RulesClosed(crsts) && was == Snapshot(crsts)
      modifies crsts`acquiredBeforeList
      ensures ListsNormalized(crsts, was)
      ensures forall a, b :: a in crsts && b in crsts && SameGroup(a, b) ==>
                a.acquiredBeforeList == b.acquiredBeforeList
    {
      DistinctGroups(crsts);
      StartClosed(crsts, was);
      hide *;
      for i := 0 to |groups|
        invariant forall a :: a in crsts && a.group !in groups[..i] ==> a.acquiredBeforeList == was[a]
        invariant forall g :: g in groups[..i] ==> GroupNormalized(g, crsts, was)
      {
        NormalizeGroup(groups[i], crsts, was);
        assert groups[..i + 1] == groups[..i] + [groups[i]];
      }
      assert groups[..|groups|] == groups;
      AllNormalized(crsts, was);
    }

    lemma StartClosed(crsts: set<CrstType>, was: RuleLists)
      requires RulesClosed(crsts) && was == Snapshot(crsts)
      ensures crsts <= was.Keys && ListsClosed(crsts, was)
      ensures forall a :: a in crsts ==> a.acquiredBeforeList == was[a]
    {
    }

    lemma DistinctGroups(crsts: set<CrstType>)
      requires GroupsValid(crsts, groups)
      ensures forall i, j :: 0 <= i < j < |groups| ==> groups[i] != groups[j]
    {
    }

    lemma AllNormalized(crsts: set<CrstType>, was: RuleLists)
      requires GroupsValid(crsts, groups) && crsts <= was.Keys
      requires forall g :: g in groups ==> GroupNormalized(g, crsts, was)
      requires forall a :: a in crsts && a.group !in groups ==> a.acquiredBeforeList == was[a]
      ensures ListsNormalized(crsts, was)
      ensures forall a, b :: a in crsts && b in crsts && SameGroup(a, b) ==>
                a.acquiredBeforeList == b.acquiredBeforeList
    {
      hide IsUnionOfGroup;
    }

    /** Normalizes one group and leaves the types outside it, and groups done before, alone. */
    method NormalizeGroup(group: CrstTypeGroup, ghost crsts: set<CrstType>, ghost was: RuleLists)
      requires GroupsValid(crsts, groups) && group in groups
      requires crsts <= was.Keys && ListsClosed(crsts, was)
      requires forall a :: a in crsts && a.group == group ==> a.acquiredBeforeList == was[a]
      modifies crsts`acquiredBeforeList
      ensures forall a :: a in crsts && a.group != group ==> a.acquiredBeforeList == old(a.acquiredBeforeList)
      ensures GroupNormalized(group, crsts, was)
      ensures forall g :: g in groups && g != group && old(GroupNormalized(g, crsts, was)) ==>
                GroupNormalized(g, crsts, was)
    {
      group.NormalizeRules();
    }
  }

  /** All types of the group have the union of the rules they had. */
  ghost predicate GroupNormalized(g: CrstTypeGroup, crsts: set<CrstType>, was: RuleLists)
    requires crsts <= was.Keys
    reads crsts
  {
    && (forall a :: a in crsts && a.group == g ==> IsUnionOfGroup(a.acquiredBeforeList, a, crsts, was))
    && (forall a, b :: a in crsts && b in crsts && a.group == g && b.group == g ==>
         a.acquiredBeforeList == b.acquiredBeforeList)
  }
}
