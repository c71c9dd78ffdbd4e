/** The recursive descent parser, which builds the types, their rules and their groups as it reads. */
module CrstParser {
  import opened Basics
  import opened Digraph
  import opened EquivalenceClosure
  import opened Quotients
  import opened CrstTypes
  import opened CrstTool
  import opened CrstGrammar
  import opened CrstTokens

  datatype ParseResult = Parsed | UnexpectedToken | UnexpectedEof | DuplicateDefinition

  /** The heap holds exactly the declared facts. */
  ghost predicate Represents(tool: CrstTypeTool, db: Declared)
    reads tool, tool.groups, tool.groups.groups, tool.crsts.Values
  {
    RepresentsIn(tool.crsts, tool.groups.groups, db)
  }

  ghost predicate RepresentsIn(crsts: map<string, CrstType>, groups: seq<CrstTypeGroup>, db: Declared)
    reads crsts.Values, groups
  {
    && (forall n :: n in crsts ==> crsts[n].name == n) && crsts.Keys == db.names
    && RulesClosed(crsts.Values) && Rules(crsts.Values) == db.rules
    && GroupsValid(crsts.Values, groups) && GroupsRepresent(crsts, db.pairs) && Over(db.pairs, db.names)
    && MarksRepresent(crsts, db)
  }

  /** The marks of the types are those declared. */
  ghost predicate MarksRepresent(crsts: map<string, CrstType>, db: Declared)
    reads crsts.Values`defined, crsts.Values`level
  {
    && db.defined <= db.names && db.unordered <= db.names
    && (forall n :: n in crsts ==> (crsts[n].defined <==> n in db.defined))
    && (forall n :: n in crsts ==>
         crsts[n].level == if n in db.unordered then CRST_UNORDERED else CRST_UNASSIGNED)
  }

  /** Two types share a group exactly when the declared pairs relate them. */
  ghost predicate GroupsRepresent(crsts: map<string, CrstType>, pairs: set<(string, string)>)
    reads crsts.Values`group
  {
    forall m, n :: m in crsts && n in crsts ==> (SameGroup(crsts[m], crsts[n]) <==> Related(pairs, m, n))
  }

  lemma RelatedIsOver(pairs: set<(string, string)>, names: set<string>, a: string, b: string)
    requires Over(pairs, names) && Related(pairs, a, b)
    ensures a in names && b in names
  {
    var g := Symmetric(pairs);
    var w :| WalkFromTo(g, w, a, b) && |w| > 1;
    assert (w[0], w[1]) in g && (w[|w| - 2], w[|w| - 1]) in g;
  }

  lemma ValuesAfterAdd<T>(m: map<string, T>, k: string, v: T)
    requires k !in m
    ensures m[k := v].Values == m.Values + {v}
  {
    forall x | x in m.Values ensures x in m[k := v].Values {
      var j :| j in m && m[j] == x;
      assert m[k := v][j] == x;
    }
    assert m[k := v][k] == v;
  }

  lemma RulesOfNew(crsts: set<CrstType>, c: CrstType)
    requires c.acquiredBeforeList == []
    ensures Rules(crsts + {c}) == Rules(crsts)
  {
  }

  lemma NewIsUngrouped(crsts: map<string, CrstType>, c: CrstType, db: Declared)
    requires GroupsRepresent(crsts, db.pairs) && Over(db.pairs, crsts.Keys) && c.name !in crsts && c.group == null
    ensures GroupsRepresent(crsts[c.name := c], db.pairs)
  {
    var more := crsts[c.name := c];
    forall m, n | m in more && n in more ensures SameGroup(more[m], more[n]) <==> Related(db.pairs, m, n) {
      if Related(db.pairs, m, n) {
        RelatedIsOver(db.pairs, crsts.Keys, m, n);
      }
    }
  }

  lemma KeysDeclared(tool: CrstTypeTool, db: Declared)
    requires Represents(tool, db)
    ensures tool.crsts.Keys == db.names
  {
  }

  /** A type just made, with no fact about it, adds its name to the declared ones. */
  lemma AddedRepresents(crsts: map<string, CrstType>, groups: seq<CrstTypeGroup>, c: CrstType, db: Declared)
    requires RepresentsIn(crsts, groups, db) && c.name !in crsts && c !in crsts.Values
    requires c.group == null && c.acquiredBeforeList == [] && !c.defined && c.level == CRST_UNASSIGNED
    ensures RepresentsIn(crsts[c.name := c], groups, db.(names := db.names + {c.name}))
    ensures crsts[c.name := c].Values == crsts.Values + {c}
  {
    ValuesAfterAdd(crsts, c.name, c);
    RulesOfNew(crsts.Values, c);
    NewIsUngrouped(crsts, c, db);
    NewIsUnmarked(crsts, c, db);
    hide GroupsRepresent, MarksRepresent, Rules;
  }

  lemma NewIsUnmarked(crsts: map<string, CrstType>, c: CrstType, db: Declared)
    requires MarksRepresent(crsts, db) && crsts.Keys == db.names && c.name !in crsts
    requires !c.defined && c.level == CRST_UNASSIGNED
    ensures MarksRepresent(crsts[c.name := c], db.(names := db.names + {c.name}))
  {
  }

  class TypeFileParser {
    const tokens: seq<Token>
    const tool: CrstTypeTool
    var currToken: nat

    constructor (tokens: seq<Token>, tool: CrstTypeTool)
      ensures this.tokens == tokens && this.tool == tool && currToken == 0
    {
      this.tokens := tokens;
      this.tool := tool;
      currToken := 0;
    }

    /** The type of the given name, made and entered in the dictionary if it is new. */
    method LookupOrAdd(name: string, ghost db: Declared) returns (crst: CrstType)
      requires Represents(tool, db)
      modifies tool`crsts
      ensures Represents(tool, db.(names := db.names + {name}))
      ensures name in tool.crsts && tool.crsts[name] == crst && crst.name == name
      ensures old(name !in tool.crsts) ==> !crst.defined
      ensures forall n :: n in old(tool.crsts) ==> n in tool.crsts && tool.crsts[n] == old(tool.crsts[n])
      ensures fresh(tool.crsts.Values - old(tool.crsts.Values))
    {
      if name in tool.crsts {
        crst := tool.crsts[name];
        assert db.names + {name} == db.names;
      } else {
        crst := AddNew(name, db);
      }
    }

    method AddNew(name: string, ghost db: Declared) returns (crst: CrstType)
      requires Represents(tool, db) && name !in tool.crsts
      modifies tool`crsts
      ensures Represents(tool, db.(names := db.names + {name}))
      ensures fresh(crst) && !crst.defined && tool.crsts == old(tool.crsts)[name := crst]
      ensures tool.crsts.Values == old(tool.crsts.Values) + {crst}
    {
      ghost var before := tool.crsts;
      crst := new CrstType(name);
      KeysDeclared(tool, db);
      hide RepresentsIn;
      assert RepresentsIn(before, tool.groups.groups, db);
      AddedRepresents(before, tool.groups.groups, crst, db);
      tool.crsts := tool.crsts[crst.name := crst];
    }

    /** Records that `prior` may be held while `crst` is acquired. */
    method AddRule(prior: CrstType, crst: CrstType, ghost db: Declared)
      requires Represents(tool, db) && prior in tool.crsts.Values && crst in tool.crsts.Values
      modifies prior`acquiredBeforeList
      ensures Represents(tool, db.(rules := db.rules + {(prior.name, crst.name)}))
    {
      prior.acquiredBeforeList := prior.acquiredBeforeList + [crst];
    }

    method Join(crst1: CrstType, crst2: CrstType, ghost db: Declared)
      requires Represents(tool, db) && crst1 in tool.crsts.Values && crst2 in tool.crsts.Values
      modifies tool.groups, tool.groups.All(), tool.crsts.Values`group
      ensures Represents(tool, db.(pairs := db.pairs + {(crst1.name, crst2.name)}))
      ensures fresh(tool.groups.All() - old(tool.groups.All()))
    {
      ghost var pairs, crsts := db.pairs, tool.crsts;
      forall m, n | m in crsts && n in crsts
        ensures Related(pairs + {(crst1.name, crst2.name)}, m, n) <==>
                SameGroup(crsts[m], crsts[n]) ||
                (TouchesGroup(crsts[m], crst1, crst2) && TouchesGroup(crsts[n], crst1, crst2))
      {
        AddPair(pairs, crst1.name, crst2.name, m, n);
      }
      tool.groups.Join(crst1, crst2, tool.crsts.Values);
    }

    method NextToken() returns (token: Option<Token>)
      requires currToken <= |tokens|
      modifies this`currToken
      ensures currToken <= |tokens|
      ensures if old(currToken) < |tokens| then token == Some(tokens[old(currToken)]) && currToken == old(currToken) + 1
              else token.None? && currToken == old(currToken)
    {
      if currToken >= |tokens| {
        return None;
      }
      token := Some(tokens[currToken]);
      currToken := currToken + 1;
    }

    /** Pushing back is only possible after a token was taken; every caller has taken one. */
    method UnwindToken()
      requires currToken > 0
      modifies this`currToken
      ensures currToken == old(currToken) - 1
    {
      currToken := currToken - 1;
    }

    /** Reads names up to the first token that is not one, which stays unread; the end of the file
        there is an error. */
    method ParseList(ghost db: Declared) returns (eof: bool, list: seq<CrstType>, ghost names: seq<string>)
      requires currToken <= |tokens| && Represents(tool, db)
      modifies this`currToken, tool`crsts
      ensures currToken <= |tokens|
      ensures TakeNames(tokens[old(currToken)..]) == (names, tokens[currToken..])
      ensures eof <==> currToken == |tokens|
      ensures Represents(tool, WithNames(db, names))
      ensures Listed(list, names, tool.crsts)
      ensures forall n :: n in old(tool.crsts) ==> n in tool.crsts && tool.crsts[n] == old(tool.crsts[n])
      ensures fresh(tool.crsts.Values - old(tool.crsts.Values))
    {
      hide Represents, TakeNames, WithNames;
      list, names := [], [];
      ghost var start := currToken;
      WithNamesPush(db, names, "");
      while true
        invariant start <= currToken <= |tokens|
        invariant TakeNames(tokens[start..]).0 == names + TakeNames(tokens[currToken..]).0
        invariant TakeNames(tokens[start..]).1 == TakeNames(tokens[currToken..]).1
        invariant Represents(tool, WithNames(db, names))
        invariant Listed(list, names, tool.crsts)
        invariant forall n :: n in old(tool.crsts) ==> n in tool.crsts && tool.crsts[n] == old(tool.crsts[n])
        invariant fresh(tool.crsts.Values - old(tool.crsts.Values))
        decreases |tokens| - currToken
      {
        TakeNamesStep(tokens, currToken, names);
        var token := NextToken();
        if token.None? {
          return true, list, names;
        }
        if !token.value.Id? {
          UnwindToken();
          return false, list, names;
        }
        var crst := LookupOrAdd(token.value.text, WithNames(db, names));
        list := list + [crst];
        WithNamesPush(db, names, token.value.text);
        names := names + [token.value.text];
      }
    }

    /** Appends the listed types to the rules of `crst`. */
    method AddBefore(crst: CrstType, list: seq<CrstType>, ghost names: seq<string>, ghost db: Declared)
      requires Represents(tool, db) && crst in tool.crsts.Values && NamesIn(names) <= db.names
      requires Listed(list, names, tool.crsts)
      modifies crst`acquiredBeforeList
      ensures Represents(tool, AddDependency(db, crst.name, Before(names)))
    {
      crst.acquiredBeforeList := crst.acquiredBeforeList + list;
      assert forall c :: c in list ==> c in tool.crsts.Values && c.name in names;
      assert forall n :: n in names ==> tool.crsts[n] in list;
    }

    /** Adds `crst` to the rules of each listed type. */
    method AddAfter(crst: CrstType, list: seq<CrstType>, ghost names: seq<string>, ghost db: Declared)
      requires Represents(tool, db) && crst in tool.crsts.Values && NamesIn(names) <= db.names
      requires Listed(list, names, tool.crsts)
      modifies tool.crsts.Values`acquiredBeforeList
      ensures Represents(tool, AddDependency(db, crst.name, After(names)))
    {
      hide Represents;
      AfterPrefix(db, crst.name, names, 0);
      for i := 0 to |list|
        invariant Represents(tool, AddDependency(db, crst.name, After(names[..i])))
      {
        AddRule(list[i], crst, AddDependency(db, crst.name, After(names[..i])));
        AfterPrefix(db, crst.name, names, i + 1);
      }
      assert names[..|names|] == names;
    }

    /** Joins `crst` with each listed type. */
    method AddSame(crst: CrstType, list: seq<CrstType>, ghost names: seq<string>, ghost db: Declared)
      requires Represents(tool, db) && crst in tool.crsts.Values && NamesIn(names) <= db.names
      requires Listed(list, names, tool.crsts)
      modifies tool.groups, tool.groups.All(), tool.crsts.Values`group
      ensures Represents(tool, AddDependency(db, crst.name, Same(names)))
      ensures fresh(tool.groups.All() - old(tool.groups.All()))
    {
      hide Represents;
      SamePrefix(db, crst.name, names, 0);
      for i := 0 to |list|
        invariant Represents(tool, AddDependency(db, crst.name, Same(names[..i]))) && tool.crsts == old(tool.crsts)
        invariant fresh(tool.groups.All() - old(tool.groups.All()))
      {
        Join(crst, list[i], AddDependency(db, crst.name, Same(names[..i])));
        SamePrefix(db, crst.name, names, i + 1);
      }
      assert names[..|names|] == names;
    }

    /** Reads what follows the keyword `token` inside the definition of `crst` and records it. */
    method ParseDependency(token: Token, crst: CrstType, ghost db: Declared)
      returns (result: ParseResult, ghost dep: Dependency)
      requires 0 < currToken <= |tokens| && tokens[currToken - 1] == token && !token.End?
      requires Represents(tool, db) && crst.name in tool.crsts && tool.crsts[crst.name] == crst
      modifies this`currToken, tool`crsts, tool.groups, tool.groups.All(), tool.crsts.Values
      ensures old(currToken) <= currToken <= |tokens|
      ensures result.Parsed? || result.UnexpectedToken? || result.UnexpectedEof?
      ensures result.UnexpectedToken? ==> ReadDependency(tokens[old(currToken) - 1..]).None?
      ensures result.UnexpectedEof? ==> ReadDependency(tokens[old(currToken) - 1..]) == Some((dep, []))
      ensures result.Parsed? ==> ReadDependency(tokens[old(currToken) - 1..]) == Some((dep, tokens[currToken..]))
      ensures result.Parsed? ==> Represents(tool, AddDependency(db, crst.name, dep))
      ensures result.Parsed? ==> crst.name in tool.crsts && tool.crsts[crst.name] == crst
      ensures fresh(tool.crsts.Values - old(tool.crsts.Values)) && fresh(tool.groups.All() - old(tool.groups.All()))
    {
      hide Represents, AddDependency, TakeNames;
      ghost var at := currToken;
      assert tokens[at - 1..][1..] == tokens[at..] && tokens[at - 1..][0] == token;
      dep := NoOrder;
      if token.Unordered? {
        MarkUnordered(crst, db);
        result := Parsed;
      } else if TakesList(token) {
        ghost var names;
        result, names := ParseListed(token, crst, db);
        dep := Listing(token, names);
      } else {
        result := UnexpectedToken;
      }
    }

    /** Reads the names after a keyword that takes a list and records the dependency. */
    method ParseListed(token: Token, crst: CrstType, ghost db: Declared)
      returns (result: ParseResult, ghost names: seq<string>)
      requires TakesList(token) && currToken <= |tokens|
      requires Represents(tool, db) && crst.name in tool.crsts && tool.crsts[crst.name] == crst
      modifies this`currToken, tool`crsts, tool.groups, tool.groups.All(), tool.crsts.Values
      ensures old(currToken) <= currToken <= |tokens|
      ensures TakeNames(tokens[old(currToken)..]) == (names, tokens[currToken..])
      ensures result == if currToken == |tokens| then UnexpectedEof else Parsed
      ensures result.Parsed? ==> Represents(tool, AddDependency(db, crst.name, Listing(token, names)))
      ensures result.Parsed? ==> crst.name in tool.crsts && tool.crsts[crst.name] == crst
      ensures fresh(tool.crsts.Values - old(tool.crsts.Values)) && fresh(tool.groups.All() - old(tool.groups.All()))
    {
      hide Represents, AddDependency, TakeNames;
      var eof, list;
      eof, list, names := ParseList(db);
      if eof {
        return UnexpectedEof, names;
      }
      NamesFirst(db, names, crst.name, Listing(token, names));
      if token.AcquiredBefore? {
        AddBefore(crst, list, names, WithNames(db, names));
      } else if token.AcquiredAfter? {
        AddAfter(crst, list, names, WithNames(db, names));
      } else {
        AddSame(crst, list, names, WithNames(db, names));
      }
      result := Parsed;
    }

    /** Reads one definition after its 'Crst' keyword. */
    method ParseCrst(ghost db: Declared) returns (result: ParseResult, ghost def: Definition)
      requires 0 < currToken <= |tokens| && Represents(tool, db)
      requires tokens[currToken - 1].Crst? && FitUpTo(tokens, currToken)
      modifies this`currToken, tool`crsts, tool.groups, tool.groups.All(), tool.crsts.Values
      ensures old(currToken) <= currToken <= |tokens|
      ensures result.Parsed? ==> DefinitionAt(tokens, old(currToken), def, currToken) && def.name !in db.defined
      ensures result.Parsed? ==> Represents(tool, AddDefinition(db, def))
      ensures result.DuplicateDefinition? ==> RepeatedNameAt(tokens, old(currToken), db)
      ensures result.UnexpectedToken? || result.UnexpectedEof? ==> NoDefinitionAt(tokens, old(currToken))
      ensures result.UnexpectedToken? || result.UnexpectedEof? ==> !RepeatedNameAt(tokens, old(currToken), db)
      ensures BodyRead(tokens, old(currToken), result, currToken)
      ensures fresh(tool.crsts.Values - old(tool.crsts.Values)) && fresh(tool.groups.All() - old(tool.groups.All()))
    {
      hide Represents, AddDependencies, ReadBody;
      def := Definition("", []);
      var crst;
      ghost var at := currToken;
      result, crst := ParseName(db);
      NameRead(tokens, at, result);
      if result == Parsed {
        ghost var deps;
        result, deps := ParseBody(crst, StartDefinition(db, crst.name), at);
        def := Definition(crst.name, deps);
      }
    }

    /** Reads the name a definition begins with and enters the type as defined. */
    method ParseName(ghost db: Declared) returns (result: ParseResult, crst: CrstType?)
      requires currToken <= |tokens| && Represents(tool, db)
      modifies this`currToken, tool`crsts, tool.crsts.Values
      ensures old(currToken) <= currToken <= |tokens|
      ensures result.Parsed? ==>
                && crst != null && crst.name in tool.crsts && tool.crsts[crst.name] == crst && crst.name !in db.defined
                && currToken == old(currToken) + 1 && tokens[old(currToken)] == Id(crst.name)
                && Represents(tool, StartDefinition(db, crst.name))
      ensures result.DuplicateDefinition? ==> RepeatedNameAt(tokens, old(currToken), db)
      ensures result.UnexpectedToken? ==> old(currToken) < |tokens| && !tokens[old(currToken)].Id?
      ensures result.UnexpectedEof? ==> old(currToken) == |tokens|
      ensures fresh(tool.crsts.Values - old(tool.crsts.Values))
    {
      hide Represents, ReadBody;
      crst := null;
      var token := NextToken();
      if token.None? {
        return UnexpectedEof, null;
      }
      if !token.value.Id? {
        return UnexpectedToken, null;
      }
      var name := token.value.text;
      if name in tool.crsts && tool.crsts[name].defined {
        DefinedIsDeclared(tool, db, name);
        return DuplicateDefinition, null;
      }
      crst := LookupOrAdd(name, db);
      UndefinedIsNotDeclared(tool, db.(names := db.names + {name}), name);
      MarkDefined(crst, db.(names := db.names + {name}));
      result := Parsed;
    }

    /** Reads the attributes of a definition up to and including its 'End'. */
    method ParseBody(crst: CrstType, ghost db: Declared, ghost at: nat)
      returns (result: ParseResult, ghost deps: seq<Dependency>)
      requires currToken <= |tokens| && Represents(tool, db) && AtAttribute(tokens, at, currToken)
      requires crst.name in tool.crsts && tool.crsts[crst.name] == crst
      modifies this`currToken, tool`crsts, tool.groups, tool.groups.All(), tool.crsts.Values
      ensures old(currToken) <= currToken <= |tokens|
      ensures result.Parsed? ==> old(currToken) < currToken
      ensures result.Parsed? ==> ReadBody(tokens[old(currToken)..]) == Some((deps, tokens[currToken..]))
      ensures result.Parsed? ==> Represents(tool, AddDependencies(db, crst.name, deps))
      ensures !result.Parsed? ==> ReadBody(tokens[old(currToken)..]).None? && !result.DuplicateDefinition?
      ensures BodyRead(tokens, at, result, currToken)
      ensures fresh(tool.crsts.Values - old(tool.crsts.Values)) && fresh(tool.groups.All() - old(tool.groups.All()))
    {
      hide Represents, AddDependency, AddDependencies, ReadDependency, ReadBody, Push, AtAttribute, EndsBefore;
      ghost var start, types, groups := currToken, tool.crsts.Values, tool.groups.All();
      deps := [];
      PushAllNone(ReadBody(tokens[start..]));
      AddNoDependencies(db, crst.name);
      var parsingCrst := true;
      while parsingCrst
        invariant start <= currToken <= |tokens| && (parsingCrst || start < currToken)
        invariant ReadBody(tokens[start..]) ==
                  PushAll(deps, if parsingCrst then ReadBody(tokens[currToken..]) else Some(([], tokens[currToken..])))
        invariant AttributeRead(tokens, at, Parsed, parsingCrst, currToken)
        invariant Represents(tool, AddDependencies(db, crst.name, deps))
        invariant crst.name in tool.crsts && tool.crsts[crst.name] == crst
        invariant fresh(tool.crsts.Values - types) && fresh(tool.groups.All() - groups)
        decreases |tokens| - currToken, parsingCrst
      {
        ghost var dep;
        result, parsingCrst, dep := ParseAttribute(crst, AddDependencies(db, crst.name, deps), at);
        if result != Parsed {
          return;
        }
        if parsingCrst {
          PushAllPush(deps, dep, ReadBody(tokens[currToken..]));
          AddDependenciesPush(db, crst.name, deps, dep);
          deps := deps + [dep];
        }
      }
      PushAllEnd(deps, tokens[currToken..]);
      result := Parsed;
    }

    /** Reads one attribute of a definition, or its 'End'. */
    method ParseAttribute(crst: CrstType, ghost db: Declared, ghost at: nat)
      returns (result: ParseResult, parsingCrst: bool, ghost dep: Dependency)
      requires currToken <= |tokens| && Represents(tool, db) && AtAttribute(tokens, at, currToken)
      requires crst.name in tool.crsts && tool.crsts[crst.name] == crst
      modifies this`currToken, tool`crsts, tool.groups, tool.groups.All(), tool.crsts.Values
      ensures old(currToken) <= currToken <= |tokens|
      ensures result.Parsed? ==> old(currToken) < currToken
      ensures result.Parsed? ==> crst.name in tool.crsts && tool.crsts[crst.name] == crst
      ensures result.Parsed? ==>
                ReadBody(tokens[old(currToken)..]) ==
                if parsingCrst then Push(dep, ReadBody(tokens[currToken..])) else Some(([], tokens[currToken..]))
      ensures result.Parsed? ==> Represents(tool, if parsingCrst then AddDependency(db, crst.name, dep) else db)
      ensures !result.Parsed? ==> ReadBody(tokens[old(currToken)..]).None? && !result.DuplicateDefinition?
      ensures AttributeRead(tokens, at, result, parsingCrst, currToken)
      ensures fresh(tool.crsts.Values - old(tool.crsts.Values)) && fresh(tool.groups.All() - old(tool.groups.All()))
    {
      hide Represents, AddDependency, ReadDependency, ReadBody, AtAttribute, EndsBefore, MisfitAfter, EndsAfter;
      parsingCrst, dep := true, NoOrder;
      ghost var before := currToken;
      ReadBodyStep(tokens[before..]);
      ReadBodyStep([]);
      var token := NextToken();
      if token.None? {
        result := UnexpectedEof;
        EndsHere(tokens, at);
      } else if token.value.End? {
        assert tokens[before..][1..] == tokens[currToken..];
        AttributeFits(tokens, at, before);
        result, parsingCrst := Parsed, false;
      } else {
        result, dep := ParseDependency(token.value, crst, db);
        DependencyFits(tokens, at, before, dep, currToken);
        if result == UnexpectedEof {
          DependencyFits(tokens, at, before, dep, |tokens|);
          assert tokens[|tokens|..] == [];
          EndsHere(tokens, at);
        }
      }
    }

    /** Reads the whole file: it accepts exactly the token sequences that spell definitions with
        distinct names, and then the heap holds exactly what they declare. */
    method ParseFile() returns (result: ParseResult, ghost defs: seq<Definition>)
      requires currToken == 0 && Represents(tool, NOTHING)
      modifies this`currToken, tool`crsts, tool.groups, tool.groups.All(), tool.crsts.Values
      ensures result.Parsed? ==>
                SpellFile(defs) == tokens && DistinctNames(defs) && Represents(tool, Meaning(defs))
      ensures !result.Parsed? ==> NoFile(tokens)
      ensures FirstFault(tokens, FaultOf(result))
      ensures result.Parsed? ==> Meaning(defs) == Facts(tokens)
      ensures fresh(tool.crsts.Values - old(tool.crsts.Values)) && fresh(tool.groups.All() - old(tool.groups.All()))
    {
      hide Represents, Meaning, ReadSoFar, NoFile, FirstFault, Facts;
      defs := [];
      NothingRead(tokens);
      NothingRepresented(tool);
      while currToken < |tokens|
        invariant currToken <= |tokens| && ReadSoFar(tokens, currToken, defs)
        invariant Represents(tool, Meaning(defs))
        invariant fresh(tool.crsts.Values - old(tool.crsts.Values)) && fresh(tool.groups.All() - old(tool.groups.All()))
        decreases |tokens| - currToken
      {
        ghost var def;
        result, def := ParseDefinition(defs);
        if result != Parsed {
          return result, defs;
        }
        defs := defs + [def];
      }
      FileRead(tokens, defs);
      result := Parsed;
    }

    /** Reads the next definition with its 'Crst'. */
    method ParseDefinition(ghost defs: seq<Definition>) returns (result: ParseResult, ghost def: Definition)
      requires currToken < |tokens| && ReadSoFar(tokens, currToken, defs) && Represents(tool, Meaning(defs))
      modifies this`currToken, tool`crsts, tool.groups, tool.groups.All(), tool.crsts.Values
      ensures result.Parsed? ==> old(currToken) < currToken <= |tokens| && ReadSoFar(tokens, currToken, defs + [def])
      ensures result.Parsed? ==> Represents(tool, Meaning(defs + [def]))
      ensures !result.Parsed? ==> NoFile(tokens) && FirstFault(tokens, FaultOf(result))
      ensures fresh(tool.crsts.Values - old(tool.crsts.Values)) && fresh(tool.groups.All() - old(tool.groups.All()))
    {
      hide Represents, Meaning, ReadFile, FaultlessTo, NamesBefore, FirstFault, BodyRead, NoDefinitionAt, NoFile,
           AddDefinition, ReadBody;
      ghost var before := currToken;
      def := Definition("", []);
      TopLevel(tokens, before);
      var token := NextToken();
      if token.value != Crst {
        NotAFile(tokens, defs, before);
        return UnexpectedToken, def;
      }
      CrstRead(tokens, currToken, Meaning(defs).defined);
      result, def := ParseCrst(Meaning(defs));
      CrstFault(tokens, before + 1, Meaning(defs), result, currToken);
      if result == Parsed {
        MeaningPush(defs, def);
        MoreRead(tokens, defs, def, before, currToken);
      } else if result == DuplicateDefinition {
        DuplicateName(tokens, defs, before);
      } else {
        NotAFile(tokens, defs, before);
      }
    }

    method MarkUnordered(crst: CrstType, ghost db: Declared)
      requires Represents(tool, db) && crst.name in tool.crsts && tool.crsts[crst.name] == crst
      modifies crst`level
      ensures Represents(tool, AddDependency(db, crst.name, NoOrder))
    {
      crst.level := CRST_UNORDERED;
    }

    method MarkDefined(crst: CrstType, ghost db: Declared)
      requires Represents(tool, db) && crst.name in tool.crsts && tool.crsts[crst.name] == crst
      modifies crst`defined
      ensures Represents(tool, db.(defined := db.defined + {crst.name}))
    {
      crst.defined := true;
    }
  }

  predicate TakesList(token: Token) {
    token.AcquiredBefore? || token.AcquiredAfter? || token.SameLevelAs?
  }

  /** The dependency a keyword and a list of names make. */
  function Listing(token: Token, names: seq<string>): Dependency
    requires TakesList(token)
  {
    if token.AcquiredBefore? then Before(names) else if token.AcquiredAfter? then After(names) else Same(names)
  }

  lemma NamesFirst(db: Declared, names: seq<string>, name: string, dep: Dependency)
    requires !dep.NoOrder? && dep.names == names
    ensures AddDependency(WithNames(db, names), name, dep) == AddDependency(db, name, dep)
    ensures NamesIn(names) <= WithNames(db, names).names
  {
  }

  /** How a list of names grows by the next token, or ends before it. */
  lemma TakeNamesStep(tokens: seq<Token>, at: nat, names: seq<string>)
    requires at <= |tokens|
    ensures if at < |tokens| && tokens[at].Id?
            then names + TakeNames(tokens[at..]).0 == names + [tokens[at].text] + TakeNames(tokens[at + 1..]).0 &&
                 TakeNames(tokens[at..]).1 == TakeNames(tokens[at + 1..]).1
            else names + TakeNames(tokens[at..]).0 == names && TakeNames(tokens[at..]).1 == tokens[at..]
  {
  }

  /** The list holds the types of the given names. */
  ghost predicate Listed(list: seq<CrstType>, names: seq<string>, crsts: map<string, CrstType>) {
    && |list| == |names|
    && forall k :: 0 <= k < |names| ==> names[k] in crsts && list[k] == crsts[names[k]] && list[k].name == names[k]
  }

  lemma AfterPrefix(db: Declared, name: string, names: seq<string>, i: nat)
    requires i <= |names| && NamesIn(names) <= db.names
    ensures AddDependency(db, name, After(names[..i])) ==
            if i == 0 then db
            else var d := AddDependency(db, name, After(names[..i - 1])); d.(rules := d.rules + {(names[i - 1], name)})
  {
  }

  lemma SamePrefix(db: Declared, name: string, names: seq<string>, i: nat)
    requires i <= |names| && NamesIn(names) <= db.names
    ensures AddDependency(db, name, Same(names[..i])) ==
            if i == 0 then db
            else var d := AddDependency(db, name, Same(names[..i - 1])); d.(pairs := d.pairs + {(name, names[i - 1])})
  {
  }

  ghost function WithNames(db: Declared, names: seq<string>): Declared {
    db.(names := db.names + NamesIn(names))
  }

  lemma WithNamesPush(db: Declared, names: seq<string>, name: string)
    ensures WithNames(db, []) == db
    ensures var d := WithNames(db, names); WithNames(db, names + [name]) == d.(names := d.names + {name})
  {
  }

  // ----- the reference reader, one step at a time

  ghost function PushAll(deps: seq<Dependency>, r: Option<(seq<Dependency>, seq<Token>)>)
    : Option<(seq<Dependency>, seq<Token>)>
  {
    match r
    case None => None
    case Some(p) => Some((deps + p.0, p.1))
  }

  ghost function Prepend(defs: seq<Definition>, r: Option<seq<Definition>>): Option<seq<Definition>> {
    match r
    case None => None
    case Some(ds) => Some(defs + ds)
  }

  ghost function AddDefinition(db: Declared, def: Definition): Declared {
    AddDependencies(StartDefinition(db, def.name), def.name, def.deps)
  }

  /** The tokens from `at` to `end` are the name and the body of `def`. */
  ghost predicate DefinitionAt(tokens: seq<Token>, at: nat, def: Definition, end: nat) {
    && at < |tokens| && tokens[at] == Id(def.name) && at < end <= |tokens|
    && ReadBody(tokens[at + 1..]) == Some((def.deps, tokens[end..]))
  }

  ghost predicate RepeatedNameAt(tokens: seq<Token>, at: nat, db: Declared) {
    at < |tokens| && tokens[at].Id? && tokens[at].text in db.defined
  }

  ghost predicate NoDefinitionAt(tokens: seq<Token>, at: nat) {
    at >= |tokens| || !tokens[at].Id? || ReadBody(tokens[at + 1..]).None?
  }

  // ----- faults

  function FaultOf(result: ParseResult): Fault {
    match result
    case Parsed => NoFault
    case UnexpectedToken => Misfit
    case UnexpectedEof => Incomplete
    case DuplicateDefinition => Repetition
  }

  /** How far a definition was read, by its tokens: to its end, to a token that does not fit, or to the
      end of the file. */
  ghost predicate BodyRead(tokens: seq<Token>, at: nat, result: ParseResult, n: nat) {
    && (result.Parsed? ==> EndsBefore(tokens, at, n))
    && (result.UnexpectedToken? ==> MisfitAfter(tokens, at))
    && (result.UnexpectedEof? ==> EndsAfter(tokens, at))
  }

  /** The same after one of its attributes. */
  ghost predicate AttributeRead(tokens: seq<Token>, at: nat, result: ParseResult, goesOn: bool, n: nat) {
    && (result.Parsed? ==> if goesOn then AtAttribute(tokens, at, n) else EndsBefore(tokens, at, n))
    && (result.UnexpectedToken? ==> MisfitAfter(tokens, at))
    && (result.UnexpectedEof? ==> EndsAfter(tokens, at))
  }

  lemma EndsHere(tokens: seq<Token>, at: nat)
    requires AtAttribute(tokens, at, |tokens|)
    ensures EndsAfter(tokens, at)
  {
    EndsInBody(tokens, at);
  }

  lemma NameRead(tokens: seq<Token>, at: nat, result: ParseResult)
    requires 0 < at <= |tokens| && FitUpTo(tokens, at) && tokens[at - 1].Crst?
    requires result.Parsed? ==> at < |tokens| && tokens[at].Id?
    requires result.UnexpectedToken? ==> at < |tokens| && !tokens[at].Id?
    requires result.UnexpectedEof? ==> at == |tokens|
    ensures result.Parsed? ==> AtAttribute(tokens, at, at + 1)
    ensures result.UnexpectedToken? ==> MisfitAfter(tokens, at)
    ensures result.UnexpectedEof? ==> EndsAfter(tokens, at)
  {
    if at < |tokens| {
      NameFits(tokens, at);
    }
  }

  /** The tokens before `n` spell the definitions, without a fault. */
  ghost predicate ReadSoFar(tokens: seq<Token>, n: nat, defs: seq<Definition>)
    requires n <= |tokens|
  {
    && ReadFile(tokens) == Prepend(defs, ReadFile(tokens[n..])) && DistinctNames(defs)
    && FaultlessTo(tokens, n) && NamesBefore(tokens, n, Meaning(defs).defined)
    && (n > 0 ==> tokens[n - 1].End?)
  }

  /** The tokens spell no definitions with distinct names. */
  ghost predicate NoFile(tokens: seq<Token>) {
    forall ds :: SpellFile(ds) == tokens ==> !DistinctNames(ds)
  }

  lemma NothingRead(tokens: seq<Token>)
    ensures ReadSoFar(tokens, 0, [])
  {
    PrependNothing(tokens);
  }

  lemma NothingRepresented(tool: CrstTypeTool)
    requires Represents(tool, NOTHING)
    ensures Represents(tool, Meaning([]))
  {
    MeaningPush([], Definition("", []));
  }

  lemma MoreRead(tokens: seq<Token>, defs: seq<Definition>, def: Definition, at: nat, end: nat)
    requires at < |tokens| && tokens[at] == Crst && ReadSoFar(tokens, at, defs)
    requires DefinitionAt(tokens, at + 1, def, end) && def.name !in Meaning(defs).defined
    requires FaultlessTo(tokens, end) && NamesBefore(tokens, end, Meaning(defs).defined + {tokens[at + 1].text})
    requires end > 0 && tokens[end - 1].End?
    ensures ReadSoFar(tokens, end, defs + [def])
  {
    hide FaultlessTo, NamesBefore, ReadFile, Meaning;
    FilePush(tokens, defs, def, at, end);
    MeaningPush(defs, def);
    DefinedPush(Meaning(defs), def);
    NewNameDistinct(defs, def);
  }

  lemma FileRead(tokens: seq<Token>, defs: seq<Definition>)
    requires ReadSoFar(tokens, |tokens|, defs)
    ensures SpellFile(defs) == tokens && DistinctNames(defs) && Meaning(defs) == Facts(tokens)
    ensures FirstFault(tokens, NoFault) && FaultOf(Parsed) == NoFault
  {
    FileEnd(tokens, defs);
    FactsAreMeaning(defs);
    FileFaultless(tokens);
  }

  lemma CrstRead(tokens: seq<Token>, n: nat, names: set<string>)
    requires 0 < n <= |tokens| && FaultlessTo(tokens, n) && NamesBefore(tokens, n - 1, names)
    requires n > 1 ==> tokens[n - 2].End?
    ensures FitUpTo(tokens, n) && NamesBefore(tokens, n, names)
  {
  }

  lemma CrstFault(tokens: seq<Token>, at: nat, db: Declared, result: ParseResult, n: nat)
    requires 0 < at <= |tokens| && FaultlessTo(tokens, at) && tokens[at - 1].Crst?
    requires NamesBefore(tokens, at, db.defined)
    requires BodyRead(tokens, at, result, n)
    requires result.DuplicateDefinition? <==> RepeatedNameAt(tokens, at, db)
    ensures !result.Parsed? ==> FirstFault(tokens, FaultOf(result))
    ensures result.Parsed? ==> FaultlessTo(tokens, n) && NamesBefore(tokens, n, db.defined + {tokens[at].text})
    ensures result.Parsed? ==> 0 < n <= |tokens| && tokens[n - 1].End?
  {
    DefinitionFaults(tokens, at, db.defined);
    hide FirstFault, FaultlessTo, NamesBefore, MisfitAfter, EndsAfter;
    if result.Parsed? {
      DefinitionDone(tokens, at, n, db.defined);
    }
  }

  lemma DefinedPush(db: Declared, def: Definition)
    ensures AddDefinition(db, def).defined == db.defined + {def.name}
  {
    AddDependenciesFacts(StartDefinition(db, def.name), def.name, def.deps);
  }

  lemma FileFaultless(tokens: seq<Token>)
    requires FaultlessTo(tokens, |tokens|) && (tokens != [] ==> tokens[|tokens| - 1].End?)
    ensures FirstFault(tokens, NoFault)
  {
  }

  lemma PushAllNone(r: Option<(seq<Dependency>, seq<Token>)>)
    ensures PushAll([], r) == r
  {
    match r
    case None =>
    case Some(p) => assert [] + p.0 == p.0;
  }

  lemma PushAllEnd(deps: seq<Dependency>, rest: seq<Token>)
    ensures PushAll(deps, Some(([], rest))) == Some((deps, rest))
  {
    assert deps + [] == deps;
  }

  lemma PushAllPush(deps: seq<Dependency>, dep: Dependency, r: Option<(seq<Dependency>, seq<Token>)>)
    ensures PushAll(deps + [dep], r) == PushAll(deps, Push(dep, r))
  {
    match r
    case None =>
    case Some(p) => assert deps + [dep] + p.0 == deps + ([dep] + p.0);
  }

  lemma ReadBodyStep(tokens: seq<Token>)
    ensures tokens == [] ==> ReadBody(tokens).None?
    ensures tokens != [] && tokens[0].End? ==> ReadBody(tokens) == Some(([], tokens[1..]))
    ensures tokens != [] && !tokens[0].End? ==>
              ReadBody(tokens) == match ReadDependency(tokens)
                                  case None => None
                                  case Some(p) => Push(p.0, ReadBody(p.1))
  {
  }

  lemma AddNoDependencies(db: Declared, name: string)
    ensures AddDependencies(db, name, []) == db
  {
  }

  lemma AddDependenciesPush(db: Declared, name: string, deps: seq<Dependency>, dep: Dependency)
    ensures AddDependencies(db, name, deps + [dep]) == AddDependency(AddDependencies(db, name, deps), name, dep)
  {
  }

  lemma MeaningPush(defs: seq<Definition>, def: Definition)
    ensures Meaning([]) == NOTHING
    ensures Meaning(defs + [def]) == AddDefinition(Meaning(defs), def)
  {
  }

  lemma DefinedIsDeclared(tool: CrstTypeTool, db: Declared, name: string)
    requires Represents(tool, db) && name in tool.crsts && tool.crsts[name].defined
    ensures name in db.defined
  {
  }

  lemma UndefinedIsNotDeclared(tool: CrstTypeTool, db: Declared, name: string)
    requires Represents(tool, db) && name in tool.crsts && !tool.crsts[name].defined
    ensures name !in db.defined
  {
  }

  lemma PrependNothing(tokens: seq<Token>)
    ensures ReadFile(tokens) == Prepend([], ReadFile(tokens[0..]))
  {
    assert tokens[0..] == tokens;
    match ReadFile(tokens)
    case None =>
    case Some(ds) => assert [] + ds == ds;
  }

  /** How the reader reads a definition at `at`. */
  lemma ReadFileAt(tokens: seq<Token>, at: nat, def: Definition, end: nat)
    requires at < |tokens| && tokens[at] == Crst && DefinitionAt(tokens, at + 1, def, end)
    ensures ReadFile(tokens[at..]) == Prepend([def], ReadFile(tokens[end..]))
  {
  }

  lemma FilePush(tokens: seq<Token>, defs: seq<Definition>, def: Definition, at: nat, end: nat)
    requires at < |tokens| && tokens[at] == Crst && DefinitionAt(tokens, at + 1, def, end)
    requires ReadFile(tokens) == Prepend(defs, ReadFile(tokens[at..]))
    ensures ReadFile(tokens) == Prepend(defs + [def], ReadFile(tokens[end..]))
  {
    ReadFileAt(tokens, at, def, end);
    match ReadFile(tokens[end..])
    case None =>
    case Some(ds) => assert defs + ([def] + ds) == defs + [def] + ds;
  }

  lemma NotAFile(tokens: seq<Token>, defs: seq<Definition>, at: nat)
    requires at < |tokens| && ReadFile(tokens) == Prepend(defs, ReadFile(tokens[at..]))
    requires tokens[at] != Crst || NoDefinitionAt(tokens, at + 1)
    ensures NoFile(tokens)
  {
    if at + 1 < |tokens| {
      assert tokens[at..][2..] == tokens[at + 2..];
    }
    assert ReadFile(tokens[at..]).None?;
    forall ds ensures SpellFile(ds) != tokens {
      ReadFileComplete(ds);
    }
  }

  lemma FileEnd(tokens: seq<Token>, defs: seq<Definition>)
    requires ReadFile(tokens) == Prepend(defs, ReadFile(tokens[|tokens|..]))
    ensures SpellFile(defs) == tokens
  {
    assert ReadFile([]) == Some([]);
    assert defs + [] == defs;
    ReadFileSound(tokens);
  }

  lemma DefinedByMeaning(defs: seq<Definition>, name: string) returns (i: nat)
    requires name in Meaning(defs).defined
    ensures i < |defs| && defs[i].name == name
  {
    MeaningFacts(defs);
    var d :| d in defs && d.name == name;
    i :| 0 <= i < |defs| && defs[i] == d;
  }

  lemma NewNameDistinct(defs: seq<Definition>, def: Definition)
    requires DistinctNames(defs) && def.name !in Meaning(defs).defined
    ensures DistinctNames(defs + [def])
  {
    MeaningFacts(defs);
    forall i | 0 <= i < |defs| ensures defs[i].name != def.name {
      assert defs[i] in defs;
    }
  }

  lemma DuplicateName(tokens: seq<Token>, defs: seq<Definition>, at: nat)
    requires at + 1 < |tokens| && tokens[at] == Crst && tokens[at + 1].Id?
    requires ReadFile(tokens) == Prepend(defs, ReadFile(tokens[at..]))
    requires tokens[at + 1].text in Meaning(defs).defined
    ensures NoFile(tokens)
  {
    var i := DefinedByMeaning(defs, tokens[at + 1].text);
    forall ds: seq<Definition> | SpellFile(ds) == tokens ensures !DistinctNames(ds) {
      ReadFileComplete(ds);
      ReadFileHead(tokens[at..]);
      assert ds[i].name == ds[|defs|].name;
    }
  }

  lemma ReadFileHead(tokens: seq<Token>)
    requires |tokens| >= 2 && ReadFile(tokens).Some?
    ensures ReadFile(tokens).value != [] && tokens[1] == Id(ReadFile(tokens).value[0].name)
  {
  }
}