/** The definition language: its grammar, a reference reader, and what a list of definitions declares. */
module CrstGrammar {
  import opened Basics

  /** A token with its keyword already recognized; keyword spelling only matters to messages. */
  datatype Token = Id(text: string) | Crst | End | AcquiredBefore | AcquiredAfter | Unordered | SameLevelAs

  datatype Dependency = Before(names: seq<string>) | After(names: seq<string>) | Same(names: seq<string>) | NoOrder

  datatype Definition = Definition(name: string, deps: seq<Dependency>)

  // ----- the grammar, as the token sequence each phrase is written as

  function SpellNames(names: seq<string>): seq<Token> {
    seq(|names|, i requires 0 <= i < |names| => Id(names[i]))
  }

  function SpellDependency(dep: Dependency): seq<Token> {
    match dep
    case Before(names) => [AcquiredBefore] + SpellNames(names)
    case After(names) => [AcquiredAfter] + SpellNames(names)
    case Same(names) => [SameLevelAs] + SpellNames(names)
    case NoOrder => [Unordered]
  }

  /** The dependencies of a definition and the 'End' that closes it. */
  function SpellBody(deps: seq<Dependency>): seq<Token> {
    if deps == [] then [End] else SpellDependency(deps[0]) + SpellBody(deps[1..])
  }

  function SpellFile(defs: seq<Definition>): seq<Token> {
    if defs == [] then []
    else [Crst, Id(defs[0].name)] + SpellBody(defs[0].deps) + SpellFile(defs[1..])
  }

  // ----- the reference reader

  function TakeNames(tokens: seq<Token>): (r: (seq<string>, seq<Token>))
    ensures |r.1| <= |tokens|
  {
    if tokens == [] || !tokens[0].Id? then ([], tokens)
    else
      var r := TakeNames(tokens[1..]);
      ([tokens[0].text] + r.0, r.1)
  }

  /** What reading one dependency leaves: the dependency read, and the tokens after it. */
  function ReadDependency(tokens: seq<Token>): (r: Option<(Dependency, seq<Token>)>)
    ensures r.Some? ==> |r.value.1| < |tokens|
  {
    if tokens == [] then None
    else
      var t := TakeNames(tokens[1..]);
      match tokens[0]
      case Unordered => Some((NoOrder, tokens[1..]))
      case AcquiredBefore => Some((Before(t.0), t.1))
      case AcquiredAfter => Some((After(t.0), t.1))
      case SameLevelAs => Some((Same(t.0), t.1))
      case _ => None
  }

  function ReadBody(tokens: seq<Token>): (r: Option<(seq<Dependency>, seq<Token>)>)
    ensures r.Some? ==> |r.value.1| < |tokens|
    decreases |tokens|
  {
    if tokens == [] then None
    else if tokens[0].End? then Some(([], tokens[1..]))
    else
      match ReadDependency(tokens)
      case None => None
      case Some(p) => Push(p.0, ReadBody(p.1))
  }

  function Push(dep: Dependency, r: Option<(seq<Dependency>, seq<Token>)>): Option<(seq<Dependency>, seq<Token>)> {
    match r
    case None => None
    case Some(p) => Some(([dep] + p.0, p.1))
  }

  function ReadFile(tokens: seq<Token>): Option<seq<Definition>>
    decreases |tokens|
  {
    if tokens == [] then Some([])
    else if |tokens| < 2 || tokens[0] != Crst || !tokens[1].Id? then None
    else
      match ReadBody(tokens[2..])
      case None => None
      case Some(p) =>
        match ReadFile(p.1)
        case None => None
        case Some(defs) => Some([Definition(tokens[1].text, p.0)] + defs)
  }

  // ----- the reader accepts exactly what the grammar spells

  lemma Uncons<T>(s: seq<T>)
    ensures s != [] ==> s == [s[0]] + s[1..]
  {
  }

  lemma ConsTail<T>(x: T, s: seq<T>)
    ensures ([x] + s)[0] == x && ([x] + s)[1..] == s
  {
  }

  lemma {:induction false} TakeNamesSound(tokens: seq<Token>)
    ensures var r := TakeNames(tokens);
            tokens == SpellNames(r.0) + r.1 && (r.1 == [] || !r.1[0].Id?)
  {
    if tokens != [] && tokens[0].Id? {
      TakeNamesSound(tokens[1..]);
      var names, rest := TakeNames(tokens[1..]).0, TakeNames(tokens[1..]).1;
      Uncons(tokens);
      SpellNamesCons(tokens[0].text, names);
      hide SpellNames;
      Regroup([tokens[0]], SpellNames(names), rest);
    } else {
      assert SpellNames([]) == [] && [] + tokens == tokens;
    }
  }

  lemma SpellNamesCons(name: string, names: seq<string>)
    ensures SpellNames([name] + names) == [Id(name)] + SpellNames(names)
  {
  }

  lemma {:induction false} TakeNamesComplete(names: seq<string>, rest: seq<Token>)
    requires rest == [] || !rest[0].Id?
    ensures TakeNames(SpellNames(names) + rest) == (names, rest)
  {
    var tokens := SpellNames(names) + rest;
    if names == [] {
      assert tokens == rest;
    } else {
      assert tokens[1..] == SpellNames(names[1..]) + rest;
      TakeNamesComplete(names[1..], rest);
      Uncons(names);
    }
  }

  lemma ReadDependencySound(tokens: seq<Token>)
    requires ReadDependency(tokens).Some?
    ensures var p := ReadDependency(tokens).value; tokens == SpellDependency(p.0) + p.1
  {
    var t := TakeNames(tokens[1..]);
    TakeNamesSound(tokens[1..]);
    hide SpellNames, TakeNames;
    Uncons(tokens);
    Regroup([tokens[0]], SpellNames(t.0), t.1);
  }

  lemma ReadDependencyComplete(dep: Dependency, rest: seq<Token>)
    requires rest == [] || !rest[0].Id?
    ensures ReadDependency(SpellDependency(dep) + rest) == Some((dep, rest))
  {
    hide SpellNames, TakeNames;
    match dep {
      case Before(names) => TakeNamesAfter(AcquiredBefore, names, rest);
      case After(names) => TakeNamesAfter(AcquiredAfter, names, rest);
      case Same(names) => TakeNamesAfter(SameLevelAs, names, rest);
      case NoOrder => ConsTail(Unordered, rest);
    }
  }

  lemma TakeNamesAfter(keyword: Token, names: seq<string>, rest: seq<Token>)
    requires rest == [] || !rest[0].Id?
    ensures var tokens := [keyword] + SpellNames(names) + rest;
            tokens[0] == keyword && TakeNames(tokens[1..]) == (names, rest)
  {
    TakeNamesComplete(names, rest);
    hide SpellNames, TakeNames;
    Regroup([keyword], SpellNames(names), rest);
    ConsTail(keyword, SpellNames(names) + rest);
  }

  lemma SpellBodyCons(dep: Dependency, deps: seq<Dependency>)
    ensures SpellBody([dep] + deps) == SpellDependency(dep) + SpellBody(deps)
  {
  }

  lemma {:induction false} ReadBodySound(tokens: seq<Token>)
    requires ReadBody(tokens).Some?
    ensures var p := ReadBody(tokens).value; tokens == SpellBody(p.0) + p.1
    decreases |tokens|
  {
    hide SpellDependency, ReadDependency;
    if tokens[0].End? {
      Uncons(tokens);
    } else {
      var p := ReadDependency(tokens).value;
      ReadDependencySound(tokens);
      ReadBodySound(p.1);
      var q := ReadBody(p.1).value;
      SpellBodyCons(p.0, q.0);
      Regroup(SpellDependency(p.0), SpellBody(q.0), q.1);
    }
  }

  lemma ReadBodyCons(dep: Dependency, tail: seq<Token>)
    requires tail != [] && !tail[0].Id?
    ensures ReadBody(SpellDependency(dep) + tail) == Push(dep, ReadBody(tail))
  {
    ReadDependencyComplete(dep, tail);
    assert !(SpellDependency(dep) + tail)[0].End?;
    hide SpellDependency, ReadDependency;
  }

  lemma {:induction false} ReadBodyComplete(deps: seq<Dependency>, rest: seq<Token>)
    ensures ReadBody(SpellBody(deps) + rest) == Some((deps, rest))
  {
    hide SpellDependency, ReadDependency;
    if deps == [] {
      ConsTail(End, rest);
    } else {
      SpellBodyStart(deps[1..]);
      hide ReadBody;
      ReadBodyComplete(deps[1..], rest);
      ReadBodyCons(deps[0], SpellBody(deps[1..]) + rest);
      Regroup(SpellDependency(deps[0]), SpellBody(deps[1..]), rest);
      Uncons(deps);
    }
  }

  lemma SpellBodyStart(deps: seq<Dependency>)
    ensures SpellBody(deps) != [] && !SpellBody(deps)[0].Id?
  {
  }

  lemma {:induction false} ReadFileSound(tokens: seq<Token>)
    requires ReadFile(tokens).Some?
    ensures SpellFile(ReadFile(tokens).value) == tokens
    decreases |tokens|
  {
    if tokens != [] {
      var p := ReadBody(tokens[2..]).value;
      ReadBodySound(tokens[2..]);
      ReadFileSound(p.1);
      SpellFileStep(tokens, Definition(tokens[1].text, p.0), ReadFile(p.1).value);
    }
  }

  lemma SpellFileStep(tokens: seq<Token>, def: Definition, defs: seq<Definition>)
    requires |tokens| >= 2 && tokens[0] == Crst && tokens[1] == Id(def.name)
    requires tokens[2..] == SpellBody(def.deps) + SpellFile(defs)
    ensures SpellFile([def] + defs) == tokens
  {
  }

  lemma ReadFileCons(def: Definition, rest: seq<Token>)
    ensures ReadFile([Crst, Id(def.name)] + SpellBody(def.deps) + rest) ==
            match ReadFile(rest)
            case None => None
            case Some(defs) => Some([def] + defs)
  {
    ReadBodyComplete(def.deps, rest);
    hide SpellBody, ReadBody;
    Regroup([Crst, Id(def.name)], SpellBody(def.deps), rest);
    var tail := SpellBody(def.deps) + rest;
    assert ([Crst, Id(def.name)] + tail)[2..] == tail;
  }

  lemma {:induction false} ReadFileComplete(defs: seq<Definition>)
    ensures ReadFile(SpellFile(defs)) == Some(defs)
  {
    if defs != [] {
      hide ReadFile, SpellBody;
      ReadFileComplete(defs[1..]);
      ReadFileCons(defs[0], SpellFile(defs[1..]));
      Uncons(defs);
    }
  }

  // ----- what a list of definitions declares

  ghost predicate DistinctNames(defs: seq<Definition>) {
    forall i, j :: 0 <= i < j < |defs| ==> defs[i].name != defs[j].name
  }

  /** "A before B", whether A's definition lists AcquiredBefore B or B's lists AcquiredAfter A. */
  ghost predicate DeclaresRule(defs: seq<Definition>, a: string, b: string) {
    exists d :: d in defs && DependsInOrder(d.name, d.deps, a, b)
  }

  ghost predicate DependsInOrder(name: string, deps: seq<Dependency>, a: string, b: string) {
    exists p :: p in deps &&
      ((p.Before? && name == a && b in p.names) || (p.After? && name == b && a in p.names))
  }

  ghost predicate DeclaresSameLevel(defs: seq<Definition>, a: string, b: string) {
    exists d :: d in defs && d.name == a && exists p :: p in d.deps && p.Same? && b in p.names
  }

  ghost predicate DeclaresUnordered(defs: seq<Definition>, a: string) {
    exists d :: d in defs && d.name == a && NoOrder in d.deps
  }

  ghost predicate Defines(defs: seq<Definition>, a: string) {
    exists d :: d in defs && d.name == a
  }

  /** The facts a file declares: the names it mentions, those it defines and those it marks unordered,
      the rules, and the pairs of types put at the same level. */
  datatype Declared = Declared(names: set<string>, defined: set<string>, unordered: set<string>,
                               rules: set<(string, string)>, pairs: set<(string, string)>)

  const NOTHING := Declared({}, {}, {}, {}, {})

  ghost function NamesIn(names: seq<string>): set<string> {
    set n | n in names
  }

  ghost function AddDependency(db: Declared, name: string, dep: Dependency): Declared {
    match dep
    case Before(ns) => db.(names := db.names + NamesIn(ns), rules := db.rules + set n | n in ns :: (name, n))
    case After(ns) => db.(names := db.names + NamesIn(ns), rules := db.rules + set n | n in ns :: (n, name))
    case Same(ns) => db.(names := db.names + NamesIn(ns), pairs := db.pairs + set n | n in ns :: (name, n))
    case NoOrder => db.(unordered := db.unordered + {name})
  }

  ghost function AddDependencies(db: Declared, name: string, deps: seq<Dependency>): Declared {
    if deps == [] then db
    else AddDependency(AddDependencies(db, name, deps[..|deps| - 1]), name, deps[|deps| - 1])
  }

  ghost function StartDefinition(db: Declared, name: string): Declared {
    db.(names := db.names + {name}, defined := db.defined + {name})
  }

  /** Reading definition after definition, dependency after dependency. */
  ghost function Meaning(defs: seq<Definition>): Declared {
    if defs == [] then NOTHING
    else
      var last := defs[|defs| - 1];
      AddDependencies(StartDefinition(Meaning(defs[..|defs| - 1]), last.name), last.name, last.deps)
  }

  lemma {:induction false} AddDependenciesFacts(db: Declared, name: string, deps: seq<Dependency>)
    ensures var r := AddDependencies(db, name, deps);
            && r.defined == db.defined
            && (forall a, b :: (a, b) in r.rules <==> (a, b) in db.rules || DependsInOrder(name, deps, a, b))
            && (forall a, b :: (a, b) in r.pairs <==>
                 (a, b) in db.pairs || (a == name && exists p :: p in deps && p.Same? && b in p.names))
            && (forall a :: a in r.unordered <==> a in db.unordered || (a == name && NoOrder in deps))
  {
    if deps != [] {
      var front, dep := deps[..|deps| - 1], deps[|deps| - 1];
      AddDependenciesFacts(db, name, front);
      assert forall p :: p in deps <==> p in front || p == dep;
    }
  }

  /** The facts collected are exactly the declared ones. */
  lemma {:induction false} MeaningFacts(defs: seq<Definition>)
    ensures var db := Meaning(defs);
            && (forall a :: a in db.defined <==> Defines(defs, a))
            && (forall a, b :: (a, b) in db.rules <==> DeclaresRule(defs, a, b))
            && (forall a, b :: (a, b) in db.pairs <==> DeclaresSameLevel(defs, a, b))
            && (forall a :: a in db.unordered <==> DeclaresUnordered(defs, a))
  {
    if defs != [] {
      var front, last := defs[..|defs| - 1], defs[|defs| - 1];
      MeaningFacts(front);
      AddDependenciesFacts(StartDefinition(Meaning(front), last.name), last.name, last.deps);
      assert forall d :: d in defs <==> d in front || d == last;
      forall a ensures a in Meaning(defs).defined <==> Defines(defs, a) {
        assert a in Meaning(front).defined <==> Defines(front, a);
        assert last in defs;
      }
      forall a ensures a in Meaning(defs).unordered <==> DeclaresUnordered(defs, a) {
        assert a in Meaning(front).unordered <==> DeclaresUnordered(front, a);
        assert last in defs;
      }
    }
  }

  /** Rules, pairs and marks only mention names the file mentions. */
  ghost predicate Closed(db: Declared) {
    && (forall a, b :: (a, b) in db.rules ==> a in db.names && b in db.names)
    && (forall a, b :: (a, b) in db.pairs ==> a in db.names && b in db.names)
    && db.defined <= db.names && db.unordered <= db.names
  }

  lemma {:induction false} AddDependenciesClosed(db: Declared, name: string, deps: seq<Dependency>)
    requires Closed(db) && name in db.names
    ensures Closed(AddDependencies(db, name, deps)) && db.names <= AddDependencies(db, name, deps).names
  {
    if deps != [] {
      AddDependenciesClosed(db, name, deps[..|deps| - 1]);
    }
  }

  lemma {:induction false} MeaningClosed(defs: seq<Definition>)
    ensures Closed(Meaning(defs))
  {
    if defs != [] {
      var last := defs[|defs| - 1];
      MeaningClosed(defs[..|defs| - 1]);
      AddDependenciesClosed(StartDefinition(Meaning(defs[..|defs| - 1]), last.name), last.name, last.deps);
    }
  }
}
