/** That the tool rejects only what cannot be ranked: what it accepts are exactly the files for which
    there are ranks that do what the file says. */
module CrstFeasibility {
  import opened Digraph
  import opened EquivalenceClosure
  import opened Quotients
  import opened CrstTypes
  import opened CrstGrammar
  import opened CrstTokens
  import opened CrstMain

  /** The ranks do what the file says: every name in it is defined and has a rank; what is listed after
      'AcquiredBefore' is below the type it is listed for, after 'AcquiredAfter' above it, and after
      'SameLevelAs' with it; a type has no place in the order exactly if it is marked 'Unordered'. */
  ghost predicate DoesWhatItSays(tokens: seq<Token>, levels: map<string, int>) {
    && (forall a :: a in levels <==> Id(a) in tokens)
    && (forall a :: a in levels ==> DefinesName(tokens, a))
    && (forall a :: a in levels ==> if Marks(tokens, a) then levels[a] == CRST_UNORDERED else levels[a] >= 0)
    && (forall a, b :: Lists(tokens, AcquiredBefore, a, b) ==> Below(levels, b, a))
    && (forall a, b :: Lists(tokens, AcquiredAfter, a, b) ==> Below(levels, a, b))
    && (forall a, b :: Lists(tokens, SameLevelAs, a, b) ==> Beside(levels, a, b))
  }

  predicate Below(levels: map<string, int>, a: string, b: string) {
    a in levels && b in levels && levels[a] < levels[b]
  }

  /** Both have the same place in the order. */
  predicate Beside(levels: map<string, int>, a: string, b: string) {
    a in levels && b in levels && levels[a] == levels[b] >= 0
  }

  /** The same of the facts a file declares. */
  ghost predicate Honours(db: Declared, levels: map<string, int>) {
    && levels.Keys == db.names && db.names <= db.defined
    && (forall a :: a in levels ==> if a in db.unordered then levels[a] == CRST_UNORDERED else levels[a] >= 0)
    && (forall a, b :: (a, b) in db.rules ==> Below(levels, b, a))
    && (forall a, b :: (a, b) in db.pairs ==> Beside(levels, a, b))
  }

  lemma HonoursFacts(tokens: seq<Token>, levels: map<string, int>)
    ensures Honours(Facts(tokens), levels) <==> DoesWhatItSays(tokens, levels)
  {
    TokensAreFacts(tokens);
    FactsAreTokens(tokens);
    hide Facts, Lists, Marks, DefinesName, Below, Beside;
  }

  lemma FactsAreTokens(tokens: seq<Token>)
    ensures var db := Facts(tokens);
            && (forall a :: a in db.defined <==> a in db.names && DefinesName(tokens, a))
            && (forall a, b :: (a, b) in db.rules ==>
                  Lists(tokens, AcquiredBefore, a, b) || Lists(tokens, AcquiredAfter, b, a))
            && (forall a, b :: (a, b) in db.pairs ==> Lists(tokens, SameLevelAs, a, b))
  {
    hide Lists, Marks, DefinesName;
  }

  lemma RanksOfFacts(db: Declared, levels: map<string, int>)
    requires Closed(db) && Consistent(db) && RanksRespect(db, levels)
    ensures levels.Keys == db.names && db.names <= db.defined
    ensures forall a, b :: (a, b) in db.rules ==> a in levels && b in levels && levels[a] > levels[b]
    ensures forall a, b :: (a, b) in db.pairs ==> a in levels && b in levels && levels[a] == levels[b]
    ensures forall a :: a in levels ==> if a in db.unordered then levels[a] == CRST_UNORDERED else levels[a] >= 0
    ensures forall a, b :: a in db.unordered ==>
              (a, b) !in db.rules && (a, b) !in db.pairs && (b, a) !in db.pairs
  {
    forall a, b | (a, b) in db.pairs
      ensures Related(db.pairs, a, b) && Related(db.pairs, a, a) && Related(db.pairs, b, b)
    {
      RelatedByPair(db.pairs, a, b);
      RelatedSymmetric(db.pairs, a, b);
      RelatedTransitive(db.pairs, a, b, a);
      RelatedTransitive(db.pairs, b, a, b);
    }
    hide Related, Acyclic, LevelUsed;
  }

  // ----- ranks show that a file is consistent

  lemma {:induction false} ChainBeside(db: Declared, levels: map<string, int>, w: seq<string>)
    requires Honours(db, levels) && Walk(Symmetric(db.pairs), w) && |w| > 1
    ensures Beside(levels, w[0], w[|w| - 1])
    decreases |w|
  {
    assert (w[0], w[1]) in Symmetric(db.pairs);
    assert Beside(levels, w[0], w[1]);
    if |w| > 2 {
      WalkSlice(Symmetric(db.pairs), w, 1, |w|);
      ChainBeside(db, levels, w[1..]);
    }
  }

  lemma RelatedBeside(db: Declared, levels: map<string, int>, a: string, b: string)
    requires Honours(db, levels) && Related(db.pairs, a, b)
    ensures Beside(levels, a, b)
  {
    var w :| WalkFromTo(Symmetric(db.pairs), w, a, b) && |w| > 1;
    ChainBeside(db, levels, w);
  }

  lemma {:induction false} WalkFalls(g: set<(string, string)>, levels: map<string, int>, w: seq<string>)
    requires (forall a, b :: (a, b) in g ==> Below(levels, b, a)) && Walk(g, w) && |w| > 1
    ensures Below(levels, w[|w| - 1], w[0])
    decreases |w|
  {
    assert (w[0], w[1]) in g;
    if |w| > 2 {
      WalkSlice(g, w, 1, |w|);
      WalkFalls(g, levels, w[1..]);
    }
  }

  lemma FallingIsAcyclic(g: set<(string, string)>, levels: map<string, int>)
    requires forall a, b :: (a, b) in g ==> Below(levels, b, a)
    ensures Acyclic(g)
  {
    forall r ensures !OnCycle(g, r) {
      if w :| WalkFromTo(g, w, r, r) && |w| > 1 {
        WalkFalls(g, levels, w);
      }
    }
  }

  lemma HonouredIsConsistent(db: Declared, levels: map<string, int>)
    requires Closed(db) && Honours(db, levels)
    ensures Consistent(db)
  {
    forall a | a in db.unordered ensures (forall b :: (a, b) !in db.rules) && !Related(db.pairs, a, a) {
      if Related(db.pairs, a, a) {
        RelatedBeside(db, levels, a, a);
      }
    }
    forall a, b | (a, b) in RulesWithinLevels(db) ensures Below(levels, b, a) {
      NormalizedMember(db.rules, Linked(db), a, b);
      var m :| (a, m) in Linked(db) && (m, b) in db.rules;
      if a != m {
        RelatedBeside(db, levels, a, m);
      }
    }
    FallingIsAcyclic(RulesWithinLevels(db), levels);
    LinkedIsEquivalence(db);
    NormalizedAcyclicIffQuotientAcyclic(db.rules, Linked(db), db.names);
  }

  // ----- a consistent file has ranks

  /** The edges of related nodes lead to the same nodes. */
  ghost predicate EdgesShared(n: set<(string, string)>, same: set<(string, string)>) {
    forall a, b, c :: (a, b) in same && (b, c) in n ==> (a, c) in n
  }

  /** The ranks fall along the edges among the nodes and are one for related nodes. */
  ghost predicate Orders(n: set<(string, string)>, same: set<(string, string)>, nodes: set<string>,
                         levels: map<string, int>) {
    && levels.Keys == nodes && (forall a :: a in levels ==> levels[a] >= 0)
    && (forall a, b :: (a, b) in n && a in nodes && b in nodes ==> Below(levels, b, a))
    && (forall a, b :: (a, b) in same && a in nodes && b in nodes ==> Beside(levels, a, b))
  }

  ghost predicate ClosedUnder(same: set<(string, string)>, nodes: set<string>) {
    forall a, b :: (a, b) in same && a in nodes ==> b in nodes
  }

  /** The class of a node without edges goes below all others. */
  ghost function WithBottom(level: set<string>, above: map<string, int>): map<string, int> {
    map a | a in level + above.Keys :: if a in level then 0 else above[a] + 1
  }

  lemma BottomAdded(n: set<(string, string)>, same: set<(string, string)>, all: set<string>, nodes: set<string>,
                    x: string, level: set<string>, above: map<string, int>)
    requires EdgesShared(n, same) && Equivalence(same, all) && nodes <= all && x in nodes
    requires forall y :: y in nodes ==> (x, y) !in n
    requires forall c :: c in level <==> c in nodes && (x, c) in same
    requires Orders(n, same, nodes - level, above)
    ensures Orders(n, same, nodes, WithBottom(level, above))
  {
    var levels := WithBottom(level, above);
    assert levels.Keys == nodes;
    forall a, b | a in level && b in nodes ensures (a, b) !in n {
      assert (x, a) in same && ((a, b) in n ==> (x, b) in n);
    }
    forall a, b | (a, b) in n && a in nodes && b in nodes ensures Below(levels, b, a) {
      if b !in level {
        assert Below(above, b, a);
      }
    }
    forall a, b | (a, b) in same && a in nodes && b in nodes ensures Beside(levels, a, b) {
      assert a in level <==> b in level;
      if a !in level {
        assert Beside(above, a, b);
      }
    }
  }

  /** Acyclic edges can be ranked from the sinks up, a whole class at a time. */
  lemma {:induction false} RanksExist(n: set<(string, string)>, same: set<(string, string)>, all: set<string>,
                                      nodes: set<string>) returns (levels: map<string, int>)
    requires Acyclic(n) && EdgesShared(n, same) && Equivalence(same, all) && nodes <= all && ClosedUnder(same, nodes)
    ensures Orders(n, same, nodes, levels)
    decreases |nodes|
  {
    if nodes == {} {
      levels := map[];
    } else {
      SinkExists(n, nodes);
      var x :| x in nodes && forall y :: y in nodes ==> (x, y) !in n;
      var level := set c | c in nodes && (x, c) in same;
      assert x in level && nodes - level < nodes && ClosedUnder(same, nodes - level);
      hide Acyclic, EdgesShared, Equivalence, ClosedUnder, Orders;
      SmallerSet(nodes - level, nodes);
      var above := RanksExist(n, same, all, nodes - level);
      levels := WithBottom(level, above);
      BottomAdded(n, same, all, nodes, x, level, above);
    }
  }

  lemma SmallerSet(a: set<string>, b: set<string>)
    requires a < b
    ensures |a| < |b|
  {
    assert |b| == |a| + |b - a| by {
      assert b == a + (b - a);
    }
    assert b - a != {};
  }

  lemma SharedEdges(g: set<(string, string)>, same: set<(string, string)>, nodes: set<string>)
    requires Equivalence(same, nodes)
    ensures EdgesShared(Normalized(g, same), same)
  {
    forall a, b, c | (a, b) in same && (b, c) in Normalized(g, same) ensures (a, c) in Normalized(g, same) {
      NormalizedMember(g, same, b, c);
      var m :| (b, m) in same && (m, c) in g;
      assert (a, m) in same;
      NormalizedMember(g, same, a, c);
    }
  }

  /** Unordered types of a consistent file are linked to nothing and have no rules. */
  lemma UnorderedApart(db: Declared)
    requires Closed(db) && Consistent(db)
    ensures ClosedUnder(Linked(db), db.names - db.unordered)
    ensures forall a, b :: (a, b) in db.rules ==> a !in db.unordered
    ensures forall a, b :: (a, b) in db.pairs ==> a !in db.unordered && b !in db.unordered
  {
    forall a, b | Related(db.pairs, a, b) ensures a !in db.unordered && b !in db.unordered {
      RelatedSymmetric(db.pairs, a, b);
      RelatedTransitive(db.pairs, a, b, a);
      RelatedTransitive(db.pairs, b, a, b);
    }
    forall a, b | (a, b) in db.pairs ensures Related(db.pairs, a, b) {
      RelatedByPair(db.pairs, a, b);
    }
    hide Related, Acyclic, Quotient;
  }

  lemma ConsistentIsHonoured(db: Declared) returns (levels: map<string, int>)
    requires Closed(db) && Consistent(db)
    ensures Honours(db, levels)
  {
    var ordered := db.names - db.unordered;
    LevelRulesAcyclic(db);
    LinkedIsEquivalence(db);
    UnorderedApart(db);
    assert db.names <= db.defined && ordered <= db.names;
    NormalizedContains(db.rules, Linked(db), db.names);
    forall a, b | (a, b) in db.pairs ensures (a, b) in Linked(db) {
      RelatedByPair(db.pairs, a, b);
    }
    hide Acyclic, Linked, Normalized, Equivalence, Consistent, Orders;
    SharedEdges(db.rules, Linked(db), db.names);
    var ranks := RanksExist(RulesWithinLevels(db), Linked(db), db.names, ordered);
    levels := WithUnordered(db, ranks);
    OrdersHonours(db, ranks);
  }

  ghost function WithUnordered(db: Declared, ranks: map<string, int>): map<string, int> {
    map a | a in db.names :: if a in ranks then ranks[a] else CRST_UNORDERED
  }

  lemma OrdersHonours(db: Declared, ranks: map<string, int>)
    requires Closed(db) && db.names <= db.defined
    requires Orders(RulesWithinLevels(db), Linked(db), db.names - db.unordered, ranks)
    requires db.rules <= RulesWithinLevels(db) && forall a, b :: (a, b) in db.pairs ==> (a, b) in Linked(db)
    requires forall a, b :: (a, b) in db.rules ==> a !in db.unordered
    requires forall a, b :: (a, b) in db.pairs ==> a !in db.unordered && b !in db.unordered
    ensures Honours(db, WithUnordered(db, ranks))
  {
    hide RulesWithinLevels, Linked;
    var levels := WithUnordered(db, ranks);
    forall a, b | (a, b) in db.rules ensures Below(levels, b, a) {
      assert b !in db.unordered ==> Below(ranks, b, a);
    }
    forall a, b | (a, b) in db.pairs ensures Beside(levels, a, b) {
      assert Beside(ranks, a, b);
    }
  }

  /** The tool rejects a well-formed file exactly if there are no ranks that do what it says; and the
      ranks it prints do what the file says. */
  lemma AcceptsWhatCanBeRanked(tokens: seq<Token>, result: RunResult)
    requires Answers(Facts(tokens), result)
    ensures result.Ranked? || result.Stalled? <==> exists levels :: DoesWhatItSays(tokens, levels)
    ensures result.Ranked? ==> DoesWhatItSays(tokens, result.levels)
  {
    var db := Facts(tokens);
    ConsistentIff(tokens);
    if result.Ranked? {
      TokensAreFacts(tokens);
      HonoursFacts(tokens, result.levels);
      hide Facts, Consistent, RanksRespect, HasFirst, DoesWhatItSays;
      RanksOfFacts(db, result.levels);
    }
  }

  lemma ConsistentIff(tokens: seq<Token>)
    ensures Consistent(Facts(tokens)) <==> exists levels :: DoesWhatItSays(tokens, levels)
  {
    var db := Facts(tokens);
    TokensAreFacts(tokens);
    hide Facts, Consistent, Closed, Honours, DoesWhatItSays;
    if levels :| DoesWhatItSays(tokens, levels) {
      HonoursFacts(tokens, levels);
      HonouredIsConsistent(db, levels);
    }
    if Consistent(db) {
      var levels := ConsistentIsHonoured(db);
      HonoursFacts(tokens, levels);
    }
  }
}
