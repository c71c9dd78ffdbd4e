/** The whole run of the tool, from the tokens of the definition file to the ranks it prints. */
module CrstMain {
  import opened Digraph
  import opened EquivalenceClosure
  import opened Quotients
  import opened CrstTypes
  import opened CrstTool
  import opened CrstRanking
  import opened CrstGrammar
  import opened CrstParser
  import opened CrstTokens

  datatype RunResult = Ranked(levels: map<string, int>) | SyntaxError(why: ParseResult) | Invalid | Failed | Stalled

  /** One type or types linked by SameLevelAs declarations. */
  ghost function Linked(db: Declared): set<(string, string)> {
    set a, b | a in db.names && b in db.names && (a == b || Related(db.pairs, a, b)) :: (a, b)
  }

  ghost function RulesWithinLevels(db: Declared): set<(string, string)> {
    Normalized(db.rules, Linked(db))
  }

  /** Everything mentioned is defined, unordered types are not ordered in any other way, and no cycle
      appears when linked types are taken as one. */
  ghost predicate Consistent(db: Declared) {
    && db.names <= db.defined
    && (forall a :: a in db.unordered ==>
         (forall b :: (a, b) !in db.rules) && !Related(db.pairs, a, a))
    && Acyclic(Quotient(db.rules, Linked(db)))
  }

  /** Some unordered type is at the level of others and has no rule: the message about it cannot be made. */
  ghost predicate HasBareGroupMember(db: Declared) {
    exists a :: a in db.unordered && Related(db.pairs, a, a) && forall b :: (a, b) !in db.rules
  }

  /** Apart from unordered types that are at the level of others there is nothing to report before the
      rules are spread: all is defined, unordered types have no rules, and the rules have no cycle. */
  ghost predicate OtherwiseSound(db: Declared) {
    && db.names <= db.defined
    && (forall a, b :: a in db.unordered ==> (a, b) !in db.rules)
    && Acyclic(db.rules)
  }

  /** Some ordered type may hold none of its own or its linked types' rules, or nothing is ordered. */
  ghost predicate HasFirst(db: Declared) {
    || db.names <= db.unordered
    || exists a :: a in db.names && a !in db.unordered && forall b :: (a, b) !in RulesWithinLevels(db)
  }

  /** The ranks respect the declarations: a type outranks all it may be held under, linked types share
      a rank that no other type has, unordered types are set apart, and no rank is skipped. */
  ghost predicate RanksRespect(db: Declared, levels: map<string, int>) {
    && levels.Keys == db.names
    && (forall a :: a in db.names ==> if a in db.unordered then levels[a] == CRST_UNORDERED else levels[a] >= 0)
    && (forall a, b :: (a, b) in db.rules && a in levels && b in levels ==> levels[a] > levels[b])
    && (forall a, b :: a in levels && b in levels && Related(db.pairs, a, b) ==> levels[a] == levels[b])
    && (forall a, b :: a in levels && b in levels && Related(db.pairs, a, a) && levels[a] == levels[b] ==>
         Related(db.pairs, a, b))
    && (forall a :: a in levels ==> forall l :: 0 <= l < levels[a] ==> LevelUsed(levels, l))
  }

  ghost predicate LevelUsed(levels: map<string, int>, level: int) {
    exists c :: c in levels && levels[c] == level
  }

  /** What the tool answers on a file that declares `db`: ranks that respect it exactly if it is consistent
      and something can be ranked first, a stall exactly if it is consistent and nothing can. The
      exception needs a bare group member and comes for certain if nothing else is wrong. */
  ghost predicate Answers(db: Declared, result: RunResult) {
    && !result.SyntaxError?
    && (result.Ranked? <==> Consistent(db) && HasFirst(db))
    && (result.Ranked? ==> RanksRespect(db, result.levels))
    && (result.Stalled? <==> Consistent(db) && !HasFirst(db))
    && (result.Failed? ==> HasBareGroupMember(db))
    && (OtherwiseSound(db) && HasBareGroupMember(db) ==> result.Failed?)
  }

  lemma LinkedIsSameLevel(tool: CrstTypeTool, db: Declared)
    requires Represents(tool, db)
    ensures SameLevel(tool.crsts.Values) == Linked(db)
  {
  }

  lemma RankableIsConsistent(tool: CrstTypeTool, db: Declared)
    requires Represents(tool, db)
    ensures Rankable(tool.crsts.Values) <==> Consistent(db)
  {
    var crsts := tool.crsts;
    LinkedIsSameLevel(tool, db);
    DefinedIsAllDefined(tool, db);
    forall a | a in db.unordered
      ensures crsts[a].acquiredBeforeList == [] && crsts[a].group == null <==>
              (forall b :: (a, b) !in db.rules) && !Related(db.pairs, a, a)
    {
      UnorderedAloneAt(tool, db, a);
    }
    assert forall c :: c in crsts.Values && c.level == CRST_UNORDERED ==> c.name in db.unordered;
  }

  lemma BareGroupMember(tool: CrstTypeTool, db: Declared, c: CrstType)
    requires Represents(tool, db) && c in tool.crsts.Values && MixedUnordered(c) && c.acquiredBeforeList == []
    ensures HasBareGroupMember(db)
  {
  }

  lemma SoundHasNoOtherFault(tool: CrstTypeTool, db: Declared)
    requires Represents(tool, db) && OtherwiseSound(db)
    ensures NoOtherFault(tool.crsts.Values)
    ensures UnorderedAlone(tool.crsts.Values) <==> !HasBareGroupMember(db)
  {
    var crsts := tool.crsts;
    DefinedIsAllDefined(tool, db);
    forall c | c in crsts.Values && c.level == CRST_UNORDERED
      ensures c.name in db.unordered && c.acquiredBeforeList == []
      ensures c.group == null <==> !Related(db.pairs, c.name, c.name)
    {
      UnorderedAloneAt(tool, db, c.name);
      RulesFrom(crsts.Values, c);
    }
    hide Acyclic, OnCycle;
    forall c | c in crsts.Values ensures !OtherFault(c, crsts.Values) {
      NoCycleIn(db.rules, c.name);
    }
    forall a | a in db.unordered ensures crsts[a] in crsts.Values && crsts[a].level == CRST_UNORDERED {
    }
  }

  lemma NoCycleIn(g: set<(string, string)>, r: string)
    requires Acyclic(g)
    ensures !OnCycle(g, r)
  {
  }

  lemma DefinedIsAllDefined(tool: CrstTypeTool, db: Declared)
    requires Represents(tool, db)
    ensures AllDefined(tool.crsts.Values) <==> db.names <= db.defined
  {
  }

  lemma UnorderedAloneAt(tool: CrstTypeTool, db: Declared, a: string)
    requires Represents(tool, db) && a in db.names
    ensures var c := tool.crsts[a];
            c.acquiredBeforeList == [] && c.group == null <==>
            (forall b :: (a, b) !in db.rules) && !Related(db.pairs, a, a)
  {
    var c := tool.crsts[a];
    RulesFrom(tool.crsts.Values, c);
    assert SameGroup(c, c) <==> Related(db.pairs, a, a);
  }

  lemma RulesFrom(crsts: set<CrstType>, c: CrstType)
    requires NamesUnique(crsts) && c in crsts
    ensures c.acquiredBeforeList == [] <==> forall b :: (c.name, b) !in Rules(crsts)
  {
    NonemptyHasElement(c.acquiredBeforeList);
    if b :| b in c.acquiredBeforeList {
      assert (c.name, b.name) in Rules(crsts);
    }
  }

  /** What validation leaves: the declared facts, with the rules spread over each set of linked types. */
  ghost predicate RepresentsNormalized(tool: CrstTypeTool, db: Declared)
    reads tool, tool.groups, tool.groups.groups, tool.crsts.Values
  {
    && tool.Valid() && tool.crsts.Keys == db.names
    && (forall n :: n in tool.crsts ==>
         tool.crsts[n].level == if n in db.unordered then CRST_UNORDERED else CRST_UNASSIGNED)
    && Rules(tool.crsts.Values) == RulesWithinLevels(db)
    && GroupsRepresent(tool.crsts, db.pairs)
  }

  lemma CanStartIsHasFirst(tool: CrstTypeTool, db: Declared)
    requires RepresentsNormalized(tool, db)
    ensures CanStart(tool.crsts.Values) <==> HasFirst(db)
  {
    var crsts := tool.crsts.Values;
    forall n | n in db.names
      ensures tool.crsts[n] in Ready(crsts, LevelsOf(crsts)) <==>
              n !in db.unordered && forall b :: (n, b) !in RulesWithinLevels(db)
      ensures tool.crsts[n] in Unassigned(crsts, LevelsOf(crsts)) <==> n !in db.unordered
    {
      RulesFrom(crsts, tool.crsts[n]);
      assert tool.crsts[n] in crsts;
    }
    forall c | c in crsts ensures c.name in db.names && tool.crsts[c.name] == c {
    }
  }

  ghost predicate NamedByKey(crsts: map<string, CrstType>) {
    forall n :: n in crsts ==> crsts[n].name == n
  }

  /** The types are ranked with respect to rules that include the declared ones. */
  ghost predicate TypesRanked(tool: CrstTypeTool, db: Declared, was: RuleLists)
    reads tool, tool.crsts.Values
  {
    && NamedByKey(tool.crsts) && tool.crsts.Keys == db.names && GroupsRepresent(tool.crsts, db.pairs)
    && tool.crsts.Values <= was.Keys && ListsClosed(tool.crsts.Values, was)
    && db.rules <= RulesIn(tool.crsts.Values, was) && Ranking(tool.crsts.Values, was)
    && forall n :: n in tool.crsts ==>
         if n in db.unordered then tool.crsts[n].level == CRST_UNORDERED else tool.crsts[n].level >= 0
  }

  /** A finished ranking of the types gives ranks that respect the declarations. */
  lemma RankingRespects(tool: CrstTypeTool, db: Declared, was: RuleLists, levels: map<string, int>)
    requires TypesRanked(tool, db, was) && Consistent(db)
    requires levels.Keys == db.names && forall n :: n in levels ==> levels[n] == tool.crsts[n].level
    ensures RanksRespect(db, levels)
  {
    var crsts, ranks := tool.crsts.Values, LevelsOf(tool.crsts.Values);
    var top :| top >= 0 && RanksValid(crsts, was, ranks, top);
    forall n | n in levels ensures tool.crsts[n] in crsts && ranks[tool.crsts[n]] == levels[n] {
    }
    forall a, b | (a, b) in db.rules && a in levels && b in levels ensures levels[a] > levels[b] {
      RulesInMember(crsts, was, tool.crsts[a], tool.crsts[b]);
    }
    forall a, b | a in levels && b in levels && Related(db.pairs, a, b) ensures levels[a] == levels[b] {
      assert SameGroup(tool.crsts[a], tool.crsts[b]);
    }
    forall a, b | a in levels && b in levels && Related(db.pairs, a, a) && levels[a] == levels[b]
      ensures Related(db.pairs, a, b)
    {
      assert SameGroup(tool.crsts[a], tool.crsts[a]);
      assert a !in db.unordered;
      assert SameGroup(tool.crsts[a], tool.crsts[b]);
    }
    forall a, l | a in levels && 0 <= l < levels[a] ensures LevelUsed(levels, l) {
      assert RankUsed(crsts, ranks, l);
      var c :| c in crsts && ranks[c] == l;
      assert levels[c.name] == l;
    }
  }

  /** Validates a collection that holds the declared facts. */
  method ValidateTypes(tool: CrstTypeTool, ghost db: Declared) returns (verdict: Verdict)
    requires Represents(tool, db)
    modifies tool.crsts.Values`acquiredBeforeList
    ensures verdict.Accepted? <==> Consistent(db)
    ensures verdict.Accepted? ==> RepresentsNormalized(tool, db) && ReadyToLevel(tool.crsts.Values)
    ensures verdict.IndexOutOfRange? ==> HasBareGroupMember(db)
    ensures OtherwiseSound(db) && HasBareGroupMember(db) ==> verdict.IndexOutOfRange?
  {
    hide Acyclic, Quotient, Normalized, RulesClosed, HasBareGroupMember, OtherwiseSound, NoOtherFault, UnorderedAlone;
    RankableIsConsistent(tool, db);
    if OtherwiseSound(db) {
      SoundHasNoOtherFault(tool, db);
    }
    forall c | c in tool.crsts.Values && MixedUnordered(c) && c.acquiredBeforeList == []
      ensures HasBareGroupMember(db)
    {
      BareGroupMember(tool, db, c);
    }
    LinkedIsSameLevel(tool, db);
    verdict := tool.ValidateCrsts();
  }

  /** Ranks a validated collection. */
  method LevelTypes(tool: CrstTypeTool, ghost db: Declared) returns (outcome: Outcome, ghost was: RuleLists)
    requires RepresentsNormalized(tool, db) && ReadyToLevel(tool.crsts.Values)
    requires db.rules <= RulesWithinLevels(db)
    modifies tool.crsts.Values`level, tool.crsts.Values`acquiredBeforeList
    ensures outcome.Leveled? <==> HasFirst(db)
    ensures outcome.Leveled? ==> TypesRanked(tool, db, was)
  {
    hide RepresentsNormalized, ReadyToLevel, RulesWithinLevels, ListsClosed, RulesIn, NamedByKey, Ranking, HasFirst;
    was := Snapshot(tool.crsts.Values);
    BeforeLeveling(tool, db, was);
    outcome := LevelCrsts(tool);
  }

  lemma BeforeLeveling(tool: CrstTypeTool, db: Declared, was: RuleLists)
    requires RepresentsNormalized(tool, db) && ReadyToLevel(tool.crsts.Values)
    requires db.rules <= RulesWithinLevels(db) && was == Snapshot(tool.crsts.Values)
    ensures tool.Valid() && tool.crsts.Keys == db.names && NamedByKey(tool.crsts)
    ensures GroupsRepresent(tool.crsts, db.pairs)
    ensures forall n :: n in tool.crsts ==>
              tool.crsts[n].level == if n in db.unordered then CRST_UNORDERED else CRST_UNASSIGNED
    ensures ListsClosed(tool.crsts.Values, was) && db.rules <= RulesIn(tool.crsts.Values, was)
    ensures CanStart(tool.crsts.Values) <==> HasFirst(db)
  {
    CanStartIsHasFirst(tool, db);
    SnapshotRules(tool.crsts.Values);
    hide Acyclic, RulesWithinLevels, CanStart, HasFirst, Rules, RulesIn, ListsClosed;
  }

  lemma SnapshotRules(crsts: set<CrstType>)
    ensures RulesIn(crsts, Snapshot(crsts)) == Rules(crsts)
    ensures ListsClosed(crsts, Snapshot(crsts)) <==> RulesClosed(crsts)
  {
  }

  /** Validates and ranks a collection that holds the declared facts. */
  method RankTypes(tool: CrstTypeTool, ghost db: Declared) returns (result: RunResult)
    requires Represents(tool, db)
    modifies tool.crsts.Values`level, tool.crsts.Values`acquiredBeforeList
    ensures Answers(db, result)
  {
    DeclaredRulesStay(tool, db);
    hide *;
    var verdict := ValidateTypes(tool, db);
    if verdict == Accepted {
      result := RankValidated(tool, db);
    } else {
      result := if verdict == Rejected then Invalid else Failed;
    }
    AnswersFollow(db, verdict, result);
  }

  lemma AnswersFollow(db: Declared, verdict: Verdict, result: RunResult)
    requires verdict.Accepted? <==> Consistent(db)
    requires verdict.IndexOutOfRange? ==> HasBareGroupMember(db)
    requires OtherwiseSound(db) && HasBareGroupMember(db) ==> verdict.IndexOutOfRange?
    requires verdict.Accepted? ==> (result.Ranked? && HasFirst(db) && RanksRespect(db, result.levels)) ||
                                   (result.Stalled? && !HasFirst(db))
    requires !verdict.Accepted? ==> result == if verdict == Rejected then Invalid else Failed
    ensures Answers(db, result)
  {
    hide Consistent, HasBareGroupMember, OtherwiseSound, HasFirst, RanksRespect;
  }

  method RankValidated(tool: CrstTypeTool, ghost db: Declared) returns (result: RunResult)
    requires RepresentsNormalized(tool, db) && ReadyToLevel(tool.crsts.Values)
    requires Consistent(db) && db.rules <= RulesWithinLevels(db)
    modifies tool.crsts.Values`level, tool.crsts.Values`acquiredBeforeList
    ensures result.Ranked? || result.Stalled?
    ensures result.Ranked? <==> HasFirst(db)
    ensures result.Ranked? ==> RanksRespect(db, result.levels)
  {
    KeysAreNames(tool, db);
    hide *;
    var outcome; ghost var was;
    outcome, was := LevelTypes(tool, db);
    if outcome.CycleDetected? {
      return Stalled;
    }
    var levels := ReadLevels(tool);
    RankingRespects(tool, db, was, levels);
    result := Ranked(levels);
  }

  method ReadLevels(tool: CrstTypeTool) returns (levels: map<string, int>)
    ensures levels.Keys == tool.crsts.Keys && forall n :: n in levels ==> levels[n] == tool.crsts[n].level
  {
    levels := map n | n in tool.crsts :: tool.crsts[n].level;
  }

  lemma KeysAreNames(tool: CrstTypeTool, db: Declared)
    requires RepresentsNormalized(tool, db)
    ensures tool.crsts.Keys == db.names
  {
  }

  lemma DeclaredRulesStay(tool: CrstTypeTool, db: Declared)
    requires Represents(tool, db)
    ensures db.rules <= RulesWithinLevels(db)
  {
    LinkedIsSameLevel(tool, db);
    SameLevelIsEquivalence(tool.crsts.Values);
    RulesOverNames(tool.crsts.Values);
    hide Equivalence, Normalized, Linked, SameLevel;
    NormalizedContains(db.rules, Linked(db), NamesOf(tool.crsts.Values));
  }

  /** What the tool answers on a file, by the positions of its tokens: its first fault if it is not
      well-formed or defines a name twice, and else what follows from the facts it states. */
  ghost predicate AnswersFile(tokens: seq<Token>, result: RunResult) {
    && (result.SyntaxError? <==> !(WellFormed(tokens) && NamesDiffer(tokens)))
    && (result.SyntaxError? ==> FirstFault(tokens, FaultOf(result.why)))
    && (!result.SyntaxError? ==> Answers(Facts(tokens), result))
  }

  /** The tool prints ranks exactly for the files that spell consistent definitions with distinct names
      in which something can be ranked first, and the ranks respect what the file declares. */
  method Run(tokens: seq<Token>) returns (result: RunResult)
    ensures result.SyntaxError? <==> forall defs :: SpellFile(defs) == tokens ==> !DistinctNames(defs)
    ensures forall defs :: SpellFile(defs) == tokens && DistinctNames(defs) ==> Answers(Meaning(defs), result)
    ensures AnswersFile(tokens, result)
  {
    var tool := new CrstTypeTool();
    var parser := new TypeFileParser(tokens, tool);
    NothingDeclared(tool);
    hide *;
    var parsed; ghost var defs;
    parsed, defs := parser.ParseFile();
    if parsed != Parsed {
      NotRead(tokens, parsed);
      return SyntaxError(parsed);
    }
    OneReading(tokens, defs);
    result := RankTypes(tool, Meaning(defs));
    Read(tokens, defs, result);
  }

  lemma NotRead(tokens: seq<Token>, parsed: ParseResult)
    requires parsed != Parsed && NoFile(tokens) && FirstFault(tokens, FaultOf(parsed))
    ensures forall defs :: SpellFile(defs) == tokens ==> !DistinctNames(defs)
    ensures AnswersFile(tokens, SyntaxError(parsed))
  {
    hide WellFormed, NamesDiffer, FirstFault, SpellFile, DistinctNames;
    FaultDecides(tokens, parsed);
  }

  lemma Read(tokens: seq<Token>, defs: seq<Definition>, result: RunResult)
    requires SpellFile(defs) == tokens && DistinctNames(defs) && FirstFault(tokens, NoFault)
    requires Meaning(defs) == Facts(tokens) && Answers(Meaning(defs), result)
    requires forall ds :: SpellFile(ds) == tokens ==> ds == defs
    ensures result.SyntaxError? <==> forall ds :: SpellFile(ds) == tokens ==> !DistinctNames(ds)
    ensures forall ds :: SpellFile(ds) == tokens && DistinctNames(ds) ==> Answers(Meaning(ds), result)
    ensures AnswersFile(tokens, result)
  {
    hide WellFormed, NamesDiffer, FirstFault, SpellFile, DistinctNames, Meaning, Facts;
    hide Consistent, HasFirst, RanksRespect;
    FaultDecides(tokens, Parsed);
  }

  lemma FaultDecides(tokens: seq<Token>, parsed: ParseResult)
    requires FirstFault(tokens, FaultOf(parsed))
    ensures parsed.Parsed? <==> WellFormed(tokens) && NamesDiffer(tokens)
  {
    FaultlessIff(tokens);
    if FirstFault(tokens, NoFault) {
      FirstFaultUnique(tokens, FaultOf(parsed), NoFault);
    }
    hide FirstFault, WellFormed, NamesDiffer;
  }

  lemma OneReading(tokens: seq<Token>, defs: seq<Definition>)
    requires SpellFile(defs) == tokens
    ensures forall ds :: SpellFile(ds) == tokens ==> ds == defs
  {
    hide *;
    forall ds | SpellFile(ds) == tokens ensures ds == defs {
      ReadFileComplete(ds);
      ReadFileComplete(defs);
    }
  }

  lemma NothingDeclared(tool: CrstTypeTool)
    requires tool.Valid() && tool.crsts == map[]
    ensures Represents(tool, NOTHING)
  {
  }

  /** The ranks, in terms of what the definitions say. */
  lemma RanksHonourDefinitions(defs: seq<Definition>, levels: map<string, int>)
    requires RanksRespect(Meaning(defs), levels)
    ensures forall a, b :: DeclaresRule(defs, a, b) ==> a in levels && b in levels && levels[a] > levels[b]
    ensures forall a, b :: DeclaresSameLevel(defs, a, b) ==> a in levels && b in levels && levels[a] == levels[b]
    ensures forall a :: DeclaresUnordered(defs, a) ==> a in levels && levels[a] == CRST_UNORDERED
  {
    var db := Meaning(defs);
    MeaningFacts(defs);
    MeaningClosed(defs);
    forall a, b | DeclaresRule(defs, a, b) ensures a in levels && b in levels && levels[a] > levels[b] {
      assert (a, b) in db.rules;
    }
    forall a, b | DeclaresSameLevel(defs, a, b) ensures a in levels && b in levels && levels[a] == levels[b] {
      assert (a, b) in db.pairs;
      RelatedByPair(db.pairs, a, b);
    }
  }

  /** Ranks fall along every chain of rules. */
  lemma {:induction false} RanksFallAlongPaths(db: Declared, levels: map<string, int>, w: seq<string>)
    requires RanksRespect(db, levels) && Closed(db) && Walk(db.rules, w) && |w| > 1
    ensures w[0] in levels && w[|w| - 1] in levels && levels[w[0]] > levels[w[|w| - 1]]
    decreases |w|
  {
    assert (w[0], w[1]) in db.rules;
    if |w| > 2 {
      WalkSlice(db.rules, w, 1, |w|);
      RanksFallAlongPaths(db, levels, w[1..]);
    }
  }

  lemma LinkedIsEquivalence(db: Declared)
    requires Closed(db)
    ensures Equivalence(Linked(db), db.names)
  {
    var same := Linked(db);
    forall a, b | (a, b) in same ensures (b, a) in same {
      if a != b {
        RelatedSymmetric(db.pairs, a, b);
      }
    }
    forall a, b, c | (a, b) in same && (b, c) in same ensures (a, c) in same {
      if a != b && b != c {
        RelatedTransitive(db.pairs, a, b, c);
      }
    }
  }

  lemma LevelRulesAcyclic(db: Declared)
    requires Closed(db) && Consistent(db)
    ensures Acyclic(RulesWithinLevels(db))
  {
    LinkedIsEquivalence(db);
    NormalizedAcyclicIffQuotientAcyclic(db.rules, Linked(db), db.names);
  }

  /** Where no rule leads to an unordered type, a consistent file never stalls the ranking. */
  lemma NoRuleOnUnorderedHasFirst(db: Declared)
    requires Closed(db) && Consistent(db)
    requires forall a, b :: (a, b) in db.rules ==> b !in db.unordered
    ensures HasFirst(db)
  {
    hide Acyclic, RulesWithinLevels;
    var nodes, n := db.names - db.unordered, RulesWithinLevels(db);
    LevelRulesAcyclic(db);
    if nodes != {} {
      SinkExists(n, nodes);
      var x :| x in nodes && forall y :: y in nodes ==> (x, y) !in n;
      forall b ensures (x, b) !in n {
        if (x, b) in n {
          RuleTarget(db, x, b);
        }
      }
      assert x in db.names && x !in db.unordered;
    } else {
      forall a | a in db.names ensures a in db.unordered {
        assert a !in nodes;
      }
    }
  }

  lemma RuleTarget(db: Declared, a: string, b: string)
    requires Closed(db) && (a, b) in RulesWithinLevels(db)
    ensures b in db.names && exists m :: (m, b) in db.rules
  {
  }

  /** A file that only orders types is ranked exactly if every name in it is defined and no type is,
      along its rules, acquired before itself. */
  lemma PlainFileRanks(tokens: seq<Token>, result: RunResult)
    requires SameLevelAs !in tokens && Unordered !in tokens && Answers(Facts(tokens), result)
    ensures result.Ranked? <==>
            (forall a :: Id(a) in tokens ==> DefinesName(tokens, a)) && Acyclic(Facts(tokens).rules)
  {
    var db := Facts(tokens);
    PlainFacts(tokens);
    assert db.names <= db.defined <==> forall a :: Id(a) in tokens ==> DefinesName(tokens, a) by {
      forall a | true ensures Id(a) in tokens <==> a in db.names {
      }
    }
    hide Facts;
    PlainRanks(db);
  }

  lemma PlainFacts(tokens: seq<Token>)
    requires SameLevelAs !in tokens && Unordered !in tokens
    ensures Closed(Facts(tokens)) && Facts(tokens).pairs == {} && Facts(tokens).unordered == {}
  {
    TokensAreFacts(tokens);
    forall a, b | true ensures !Lists(tokens, SameLevelAs, a, b) {
    }
    forall a | true ensures !Marks(tokens, a) {
    }
  }

  lemma PlainRanks(db: Declared)
    requires Closed(db) && db.pairs == {} && db.unordered == {}
    ensures Consistent(db) && HasFirst(db) <==> db.names <= db.defined && Acyclic(db.rules)
  {
    forall a, b ensures !Related(db.pairs, a, b) {
      if Related(db.pairs, a, b) {
        RelatedIsOver(db.pairs, {}, a, b);
      }
    }
    var g, same := db.rules, Linked(db);
    assert forall a, b :: (a, b) in same <==> a in db.names && a == b;
    hide Related;
    LinkedIsEquivalence(db);
    NormalizedAcyclicIffQuotientAcyclic(g, same, db.names);
    SameRules(g, same, db.names);
    if Consistent(db) {
      NoRuleOnUnorderedHasFirst(db);
    }
  }

  lemma SameRules(g: set<(string, string)>, same: set<(string, string)>, names: set<string>)
    requires forall a, b :: (a, b) in same <==> a in names && a == b
    requires forall a, b :: (a, b) in g ==> a in names && b in names
    ensures Normalized(g, same) == g
  {
    forall a, b | true ensures (a, b) in Normalized(g, same) <==> (a, b) in g {
      if (a, b) in g {
        assert (a, a) in same;
        NormalizedMember(g, same, a, b);
      }
    }
    PairsAre(Normalized(g, same), g);
  }

  // ----- two files

  lemma AddOneDependency(db: Declared, name: string, dep: Dependency)
    ensures AddDependencies(db, name, []) == db
    ensures AddDependencies(db, name, [dep]) == AddDependency(db, name, dep)
  {
    hide AddDependency;
    AddNoDependencies(db, name);
    AddDependenciesPush(db, name, [], dep);
    assert [] + [dep] == [dep];
  }

  lemma MeaningOfTwo(first: Definition, second: Definition)
    ensures Meaning([first, second]) == AddDefinition(AddDefinition(NOTHING, first), second)
  {
    hide AddDefinition;
    MeaningPush([], first);
    MeaningPush([first], second);
    assert [] + [first] == [first] && [first] + [second] == [first, second];
  }

  /** "Crst A AcquiredBefore U End Crst U Unordered End". */
  const RULE_ON_UNORDERED := [Definition("A", [Before(["U"])]), Definition("U", [NoOrder])]

  lemma MeaningOfRuleOnUnordered()
    ensures Meaning(RULE_ON_UNORDERED) == Declared({"A", "U"}, {"A", "U"}, {"U"}, {("A", "U")}, {})
  {
    MeaningOfTwo(Definition("A", [Before(["U"])]), Definition("U", [NoOrder]));
    hide Meaning, AddDependencies;
    AddOneDependency(StartDefinition(NOTHING, "A"), "A", Before(["U"]));
    var db := AddDefinition(NOTHING, Definition("A", [Before(["U"])]));
    assert db == Declared({"A", "U"}, {"A"}, {}, {("A", "U")}, {});
    AddOneDependency(StartDefinition(db, "U"), "U", NoOrder);
  }

  /** One rule on an unordered type is enough to stall the ranking of a consistent file. */
  lemma RuleOnUnorderedStalls()
    ensures DistinctNames(RULE_ON_UNORDERED)
    ensures Consistent(Meaning(RULE_ON_UNORDERED)) && !HasFirst(Meaning(RULE_ON_UNORDERED))
    ensures forall result :: Answers(Meaning(RULE_ON_UNORDERED), result) ==> result.Stalled?
  {
    MeaningOfRuleOnUnordered();
    hide Meaning, Consistent, HasFirst;
    OneRuleNoPairs(Meaning(RULE_ON_UNORDERED));
  }

  lemma OneRuleNoPairs(db: Declared)
    requires db == Declared({"A", "U"}, {"A", "U"}, {"U"}, {("A", "U")}, {})
    ensures Consistent(db) && !HasFirst(db)
  {
    forall a, b ensures !Related(db.pairs, a, b) {
      if Related(db.pairs, a, b) {
        RelatedIsOver(db.pairs, {}, a, b);
      }
    }
    var g, same := db.rules, Linked(db);
    assert forall a, b :: (a, b) in same <==> a in db.names && a == b;
    NormalizedMember(g, same, "A", "U");
    assert ("A", "A") in same;
    LinkedIsEquivalence(db);
    NormalizedAcyclicIffQuotientAcyclic(g, same, db.names);
    var n := Normalized(g, same);
    forall a, b ensures (a, b) in n ==> a == "A" && b == "U" {
      NormalizedMember(g, same, a, b);
    }
    forall r ensures !OnCycle(n, r) {
      CycleEnds(n, r);
    }
  }

  /** "Crst U Unordered SameLevelAs A End Crst A End". */
  const BARE_GROUP_MEMBER := [Definition("U", [NoOrder, Same(["A"])]), Definition("A", [])]

  lemma MeaningOfBareGroupMember()
    ensures Meaning(BARE_GROUP_MEMBER) == Declared({"A", "U"}, {"A", "U"}, {"U"}, {}, {("U", "A")})
  {
    var first, second := Definition("U", [NoOrder, Same(["A"])]), Definition("A", []);
    MeaningOfTwo(first, second);
    hide Meaning, AddDependencies;
    var start := StartDefinition(NOTHING, "U");
    AddOneDependency(start, "U", NoOrder);
    AddDependenciesPush(start, "U", [NoOrder], Same(["A"]));
    assert [NoOrder] + [Same(["A"])] == [NoOrder, Same(["A"])];
    var db := AddDefinition(NOTHING, first);
    assert db == Declared({"A", "U"}, {"U"}, {"U"}, {}, {("U", "A")});
    AddNoDependencies(StartDefinition(db, "A"), "A");
  }

  /** A file on which the tool ends with the exception instead of the message. */
  lemma BareGroupMemberFails()
    ensures DistinctNames(BARE_GROUP_MEMBER)
    ensures HasBareGroupMember(Meaning(BARE_GROUP_MEMBER)) && OtherwiseSound(Meaning(BARE_GROUP_MEMBER))
    ensures forall result :: Answers(Meaning(BARE_GROUP_MEMBER), result) ==> result.Failed?
  {
    MeaningOfBareGroupMember();
    hide Meaning;
    var db := Meaning(BARE_GROUP_MEMBER);
    RelatedByPair(db.pairs, "U", "A");
    RelatedByPair(db.pairs, "A", "U");
    RelatedTransitive(db.pairs, "U", "A", "U");
    forall r ensures !OnCycle(db.rules, r) {
      CycleEnds(db.rules, r);
    }
  }
}
