/** Definition files read off their tokens by position: which are well-formed, and what they declare. */
module CrstTokens {
  import opened Basics
  import opened CrstGrammar

  // ----- what a file says

  /** The `i`-th token begins a definition of `a`. */
  predicate Begins(tokens: seq<Token>, i: nat, a: string) {
    i + 1 < |tokens| && tokens[i] == Crst && tokens[i + 1] == Id(a)
  }

  /** No definition ends between the two places. */
  ghost predicate SameDefinition(tokens: seq<Token>, i: nat, k: nat)
    requires k <= |tokens|
  {
    forall m :: i < m < k ==> !tokens[m].End?
  }

  /** Only names stand between the two places. */
  ghost predicate OnlyNames(tokens: seq<Token>, j: nat, k: nat)
    requires k <= |tokens|
  {
    forall m :: j < m < k ==> tokens[m].Id?
  }

  /** The definition of `a` at `i` has the keyword at `j`, and `b` at `k` in the list after it. */
  ghost predicate ListsAt(tokens: seq<Token>, keyword: Token, a: string, b: string, i: nat, j: nat, k: nat) {
    && Begins(tokens, i, a) && i + 1 < j < k < |tokens|
    && tokens[j] == keyword && tokens[k] == Id(b)
    && SameDefinition(tokens, i, k) && OnlyNames(tokens, j, k)
  }

  /** Some definition of `a` names `b` after the keyword. */
  ghost predicate Lists(tokens: seq<Token>, keyword: Token, a: string, b: string) {
    exists i: nat, j: nat, k: nat :: ListsAt(tokens, keyword, a, b, i, j, k)
  }

  /** Some definition of `a` has the mark 'Unordered'. */
  ghost predicate Marks(tokens: seq<Token>, a: string) {
    exists i: nat, j: nat :: MarksAt(tokens, a, i, j)
  }

  ghost predicate MarksAt(tokens: seq<Token>, a: string, i: nat, j: nat) {
    Begins(tokens, i, a) && i + 1 < j < |tokens| && tokens[j].Unordered? && SameDefinition(tokens, i, j)
  }

  ghost predicate DefinesName(tokens: seq<Token>, a: string) {
    exists i: nat :: Begins(tokens, i, a)
  }

  /** A is acquired before B if A's definition says so, or B's says that it is acquired after A. */
  ghost predicate Orders(tokens: seq<Token>, a: string, b: string) {
    Lists(tokens, AcquiredBefore, a, b) || Lists(tokens, AcquiredAfter, b, a)
  }

  ghost function Ids(tokens: seq<Token>): set<string> {
    set t | t in tokens && t.Id? :: t.text
  }

  ghost function Facts(tokens: seq<Token>): Declared {
    var ids := Ids(tokens);
    Declared(ids, set a | a in ids && DefinesName(tokens, a), set a | a in ids && Marks(tokens, a),
             set a, b | a in ids && b in ids && Orders(tokens, a, b) :: (a, b),
             set a, b | a in ids && b in ids && Lists(tokens, SameLevelAs, a, b) :: (a, b))
  }

  /** What stands at a place in the file is among the facts. */
  lemma TokensAreFacts(tokens: seq<Token>)
    ensures var db := Facts(tokens);
            && (forall a :: Id(a) in tokens <==> a in db.names)
            && (forall a :: a in db.names && a in db.defined ==> DefinesName(tokens, a))
            && (forall a :: Marks(tokens, a) <==> a in db.unordered)
            && (forall a, b :: Lists(tokens, AcquiredBefore, a, b) ==> (a, b) in db.rules)
            && (forall a, b :: Lists(tokens, AcquiredAfter, a, b) ==> (b, a) in db.rules)
            && (forall a, b :: Lists(tokens, SameLevelAs, a, b) ==> (a, b) in db.pairs)
            && Closed(db)
  {
    forall keyword, a, b | Lists(tokens, keyword, a, b) ensures a in Ids(tokens) && b in Ids(tokens) {
      ListedAreNames(tokens, keyword, a, b);
    }
    forall a | Marks(tokens, a) ensures a in Ids(tokens) {
      MarkedAreNames(tokens, a);
    }
    hide Lists, Marks, DefinesName;
  }

  lemma ListedAreNames(tokens: seq<Token>, keyword: Token, a: string, b: string)
    requires Lists(tokens, keyword, a, b)
    ensures a in Ids(tokens) && b in Ids(tokens)
  {
    var i: nat, j: nat, k: nat :| ListsAt(tokens, keyword, a, b, i, j, k);
    assert tokens[i + 1] in tokens && tokens[k] in tokens;
  }

  lemma MarkedAreNames(tokens: seq<Token>, a: string)
    requires Marks(tokens, a)
    ensures a in Ids(tokens)
  {
    var i: nat, j: nat :| MarksAt(tokens, a, i, j);
    assert tokens[i + 1] in tokens;
  }

  // ----- which files are well-formed

  /** What may stand after what: 'Crst' at the start and after 'End', a name after 'Crst', more names only
      in a list, and keywords and 'End' only inside a definition. */
  predicate Fits(tokens: seq<Token>, k: nat)
    requires k < |tokens|
  {
    match tokens[k]
    case Crst => k == 0 || tokens[k - 1].End?
    case Id(_) => k > 0 && (tokens[k - 1].Crst? || InList(tokens, k - 1))
    case _ => k > 0 && !tokens[k - 1].Crst? && !tokens[k - 1].End?
  }

  /** After this token another name may come: it is a list keyword, or a name that is not a definition's. */
  predicate InList(tokens: seq<Token>, k: nat)
    requires k < |tokens|
  {
    match tokens[k]
    case AcquiredBefore => true
    case AcquiredAfter => true
    case SameLevelAs => true
    case Id(_) => k > 0 && !tokens[k - 1].Crst?
    case _ => false
  }

  ghost predicate FitUpTo(tokens: seq<Token>, n: nat)
    requires n <= |tokens|
  {
    forall k :: 0 <= k < n ==> Fits(tokens, k)
  }

  ghost predicate WellFormed(tokens: seq<Token>) {
    FitUpTo(tokens, |tokens|) && (tokens != [] ==> tokens[|tokens| - 1].End?)
  }

  /** No two definitions have one name. */
  ghost predicate NamesDiffer(tokens: seq<Token>) {
    forall i: nat, j: nat, a :: Begins(tokens, i, a) && Begins(tokens, j, a) ==> i == j
  }

  // ----- parts of a file

  /** A whole number of definitions: nothing, or tokens up to an 'End'. */
  predicate Whole(tokens: seq<Token>) {
    tokens != [] ==> tokens[|tokens| - 1].End?
  }

  lemma BeginsInParts(x: seq<Token>, y: seq<Token>, i: nat, a: string)
    requires Whole(x)
    ensures Begins(x + y, i, a) <==> if i < |x| then Begins(x, i, a) else Begins(y, i - |x|, a)
  {
  }

  lemma BetweenInFirst(x: seq<Token>, y: seq<Token>, i: nat, k: nat)
    requires k <= |x|
    ensures SameDefinition(x + y, i, k) <==> SameDefinition(x, i, k)
    ensures OnlyNames(x + y, i, k) <==> OnlyNames(x, i, k)
  {
    assert forall m :: 0 <= m < k ==> (x + y)[m] == x[m];
    assert SameDefinition(x + y, i, k) <==> forall m :: i < m < k ==> !(x + y)[m].End?;
    assert OnlyNames(x + y, i, k) <==> forall m :: i < m < k ==> (x + y)[m].Id?;
  }

  lemma BetweenInSecond(x: seq<Token>, y: seq<Token>, i: nat, k: nat)
    requires k <= |y|
    ensures SameDefinition(x + y, i + |x|, k + |x|) <==> SameDefinition(y, i, k)
    ensures OnlyNames(x + y, i + |x|, k + |x|) <==> OnlyNames(y, i, k)
  {
    var all, n := x + y, |x|;
    assert forall m :: 0 <= m < k ==> all[m + n] == y[m];
    if SameDefinition(y, i, k) {
      assert forall m :: i + n < m < k + n ==> all[m] == y[m - n];
    }
    if OnlyNames(y, i, k) {
      assert forall m :: i + n < m < k + n ==> all[m] == y[m - n];
    }
  }

  /** A definition that begins in the first part ends there. */
  lemma Straddles(x: seq<Token>, y: seq<Token>, i: nat, k: nat)
    requires Whole(x) && i + 1 < |x| <= k < |x + y|
    ensures !SameDefinition(x + y, i, k)
  {
    assert (x + y)[|x| - 1].End?;
  }

  /** A definition and what it lists lie in one part. */
  lemma ListsAtParts(x: seq<Token>, y: seq<Token>, keyword: Token, a: string, b: string, i: nat, j: nat, k: nat)
    requires Whole(x)
    ensures ListsAt(x + y, keyword, a, b, i, j, k) <==>
            if i < |x| then ListsAt(x, keyword, a, b, i, j, k)
            else j >= |x| && k >= |x| && ListsAt(y, keyword, a, b, i - |x|, j - |x|, k - |x|)
  {
    var n := |x|;
    BeginsInParts(x, y, i, a);
    if i + 1 < n <= k < |x + y| {
      Straddles(x, y, i, k);
    }
    if k <= n {
      BetweenInFirst(x, y, i, k);
      BetweenInFirst(x, y, j, k);
    } else if i >= n && j >= n && k <= n + |y| {
      BetweenInSecond(x, y, i - n, k - n);
      BetweenInSecond(x, y, j - n, k - n);
    }
    hide SameDefinition, OnlyNames;
  }

  lemma ListsInParts(x: seq<Token>, y: seq<Token>, keyword: Token, a: string, b: string)
    requires Whole(x)
    ensures Lists(x + y, keyword, a, b) <==> Lists(x, keyword, a, b) || Lists(y, keyword, a, b)
  {
    hide ListsAt;
    if i: nat, j: nat, k: nat :| ListsAt(x + y, keyword, a, b, i, j, k) {
      ListsAtParts(x, y, keyword, a, b, i, j, k);
    }
    if i: nat, j: nat, k: nat :| ListsAt(x, keyword, a, b, i, j, k) {
      ListsFirst(x, keyword, a, b, i, j, k);
      ListsAtParts(x, y, keyword, a, b, i, j, k);
    }
    if i: nat, j: nat, k: nat :| ListsAt(y, keyword, a, b, i, j, k) {
      ListsAtParts(x, y, keyword, a, b, i + |x|, j + |x|, k + |x|);
    }
  }

  lemma ListsFirst(x: seq<Token>, keyword: Token, a: string, b: string, i: nat, j: nat, k: nat)
    requires ListsAt(x, keyword, a, b, i, j, k)
    ensures i < |x|
  {
  }

  lemma MarksAtParts(x: seq<Token>, y: seq<Token>, a: string, i: nat, j: nat)
    requires Whole(x)
    ensures MarksAt(x + y, a, i, j) <==>
            if i < |x| then MarksAt(x, a, i, j) else j >= |x| && MarksAt(y, a, i - |x|, j - |x|)
  {
    var n := |x|;
    BeginsInParts(x, y, i, a);
    if i + 1 < n <= j < |x + y| {
      Straddles(x, y, i, j);
    }
    if j <= n {
      BetweenInFirst(x, y, i, j);
    } else if i >= n && j <= n + |y| {
      BetweenInSecond(x, y, i - n, j - n);
    }
    hide SameDefinition;
  }

  lemma MarksInParts(x: seq<Token>, y: seq<Token>, a: string)
    requires Whole(x)
    ensures Marks(x + y, a) <==> Marks(x, a) || Marks(y, a)
  {
    hide MarksAt;
    if i: nat, j: nat :| MarksAt(x + y, a, i, j) {
      MarksAtParts(x, y, a, i, j);
    }
    if i: nat, j: nat :| MarksAt(x, a, i, j) {
      MarksFirst(x, a, i, j);
      MarksAtParts(x, y, a, i, j);
    }
    if i: nat, j: nat :| MarksAt(y, a, i, j) {
      MarksAtParts(x, y, a, i + |x|, j + |x|);
    }
  }

  lemma MarksFirst(x: seq<Token>, a: string, i: nat, j: nat)
    requires MarksAt(x, a, i, j)
    ensures i < |x|
  {
  }

  lemma DefinesInParts(x: seq<Token>, y: seq<Token>, a: string)
    requires Whole(x)
    ensures DefinesName(x + y, a) <==> DefinesName(x, a) || DefinesName(y, a)
  {
    if i: nat :| Begins(x + y, i, a) {
      BeginsInParts(x, y, i, a);
    }
    if i: nat :| Begins(x, i, a) {
      BeginsInParts(x, y, i, a);
    }
    if i: nat :| Begins(y, i, a) {
      BeginsInParts(x, y, i + |x|, a);
    }
  }

  // ----- one definition

  predicate ListKeyword(keyword: Token) {
    keyword.AcquiredBefore? || keyword.AcquiredAfter? || keyword.SameLevelAs?
  }

  /** The dependency is written with the keyword and names `b`. */
  predicate Names(dep: Dependency, keyword: Token, b: string) {
    || (dep.Before? && keyword.AcquiredBefore? && b in dep.names)
    || (dep.After? && keyword.AcquiredAfter? && b in dep.names)
    || (dep.Same? && keyword.SameLevelAs? && b in dep.names)
  }

  ghost predicate NamesSome(deps: seq<Dependency>, keyword: Token, b: string) {
    exists p :: p in deps && Names(p, keyword, b)
  }

  ghost predicate ListedIn(tokens: seq<Token>, keyword: Token, b: string) {
    exists j: nat, k: nat :: ListedAt(tokens, keyword, b, j, k)
  }

  ghost predicate ListedAt(tokens: seq<Token>, keyword: Token, b: string, j: nat, k: nat) {
    j < k < |tokens| && tokens[j] == keyword && tokens[k] == Id(b) && OnlyNames(tokens, j, k)
  }

  lemma DependencyLists(dep: Dependency, keyword: Token, b: string)
    requires ListKeyword(keyword)
    ensures ListedIn(SpellDependency(dep), keyword, b) <==> Names(dep, keyword, b)
  {
    var tokens := SpellDependency(dep);
    if !dep.NoOrder? {
      assert forall k :: 0 < k < |tokens| ==> tokens[k] == Id(dep.names[k - 1]);
      if Names(dep, keyword, b) {
        var k :| 0 <= k < |dep.names| && dep.names[k] == b;
        assert ListedAt(tokens, keyword, b, 0, k + 1);
      }
    }
  }

  lemma ListedAtParts(x: seq<Token>, y: seq<Token>, keyword: Token, b: string, j: nat, k: nat)
    requires y != [] && !y[0].Id? && ListKeyword(keyword)
    ensures ListedAt(x + y, keyword, b, j, k) <==>
            if j < |x| then ListedAt(x, keyword, b, j, k)
            else k >= |x| && ListedAt(y, keyword, b, j - |x|, k - |x|)
  {
    var n := |x|;
    if j < n <= k < |x + y| {
      assert (x + y)[n] == y[0];
      assert k == n || !OnlyNames(x + y, j, k);
    }
    if k <= n {
      BetweenInFirst(x, y, j, k);
    } else if j >= n && k <= n + |y| {
      BetweenInSecond(x, y, j - n, k - n);
    }
    hide OnlyNames;
  }

  lemma ListedInParts(x: seq<Token>, y: seq<Token>, keyword: Token, b: string)
    requires y != [] && !y[0].Id? && ListKeyword(keyword)
    ensures ListedIn(x + y, keyword, b) <==> ListedIn(x, keyword, b) || ListedIn(y, keyword, b)
  {
    if j: nat, k: nat :| ListedAt(x + y, keyword, b, j, k) {
      ListedAtParts(x, y, keyword, b, j, k);
    }
    if j: nat, k: nat :| ListedAt(x, keyword, b, j, k) {
      ListedAtParts(x, y, keyword, b, j, k);
    }
    if j: nat, k: nat :| ListedAt(y, keyword, b, j, k) {
      ListedAtParts(x, y, keyword, b, j + |x|, k + |x|);
    }
  }

  lemma {:induction false} BodyLists(deps: seq<Dependency>, keyword: Token, b: string)
    requires ListKeyword(keyword)
    ensures ListedIn(SpellBody(deps), keyword, b) <==> NamesSome(deps, keyword, b)
  {
    if deps != [] {
      BodyLists(deps[1..], keyword, b);
      SpellBodyStart(deps[1..]);
      ListedInParts(SpellDependency(deps[0]), SpellBody(deps[1..]), keyword, b);
      DependencyLists(deps[0], keyword, b);
      hide ListedIn, SpellDependency, Names;
      assert forall p :: p in deps <==> p == deps[0] || p in deps[1..];
    }
  }

  /** A body ends with its only 'End' and has no 'Crst'. */
  ghost predicate BodyShape(body: seq<Token>) {
    && body != [] && body[|body| - 1].End?
    && (forall m :: 0 <= m < |body| - 1 ==> !body[m].End?)
    && (forall m :: 0 <= m < |body| ==> !body[m].Crst?)
  }

  lemma BodyShapeMore(x: seq<Token>, body: seq<Token>)
    requires BodyShape(body) && forall t :: t in x ==> !t.End? && !t.Crst?
    ensures BodyShape(x + body)
  {
    assert forall m :: 0 <= m < |x| ==> (x + body)[m] in x;
  }

  lemma DependencyTokens(dep: Dependency)
    ensures forall t :: t in SpellDependency(dep) ==> !t.End? && !t.Crst?
    ensures Unordered in SpellDependency(dep) <==> dep.NoOrder?
    ensures forall a :: Id(a) in SpellDependency(dep) <==> !dep.NoOrder? && a in dep.names
  {
    if !dep.NoOrder? {
      var tokens := SpellDependency(dep);
      assert forall k :: 0 <= k < |dep.names| ==> tokens[k + 1] == Id(dep.names[k]);
    }
  }

  lemma {:induction false} BodyTokens(deps: seq<Dependency>)
    ensures BodyShape(SpellBody(deps))
    ensures Unordered in SpellBody(deps) <==> NoOrder in deps
    ensures forall a :: Id(a) in SpellBody(deps) <==> exists p :: p in deps && !p.NoOrder? && a in p.names
  {
    if deps != [] {
      BodyTokens(deps[1..]);
      DependencyTokens(deps[0]);
      BodyShapeMore(SpellDependency(deps[0]), SpellBody(deps[1..]));
      hide SpellDependency, BodyShape;
      assert forall p :: p in deps <==> p == deps[0] || p in deps[1..];
    }
  }

  function SpellDefinition(def: Definition): seq<Token> {
    [Crst, Id(def.name)] + SpellBody(def.deps)
  }

  lemma OneBegins(def: Definition, i: nat, a: string)
    ensures Begins(SpellDefinition(def), i, a) <==> i == 0 && a == def.name
  {
    BodyTokens(def.deps);
    var body := SpellBody(def.deps);
    hide SpellBody;
    assert i >= 2 && i < |SpellDefinition(def)| ==> SpellDefinition(def)[i] == body[i - 2];
  }

  lemma OneSame(def: Definition, k: nat)
    requires k < |SpellDefinition(def)|
    ensures SameDefinition(SpellDefinition(def), 0, k)
  {
    BodyTokens(def.deps);
    hide SpellBody;
    assert forall m :: 2 <= m < k ==> SpellDefinition(def)[m] == SpellBody(def.deps)[m - 2];
  }

  lemma OneListsAt(def: Definition, keyword: Token, a: string, b: string, i: nat, j: nat, k: nat)
    ensures ListsAt(SpellDefinition(def), keyword, a, b, i, j, k) <==>
            i == 0 && a == def.name && j >= 2 && k >= 2 && ListedAt(SpellBody(def.deps), keyword, b, j - 2, k - 2)
  {
    var tokens, body := SpellDefinition(def), SpellBody(def.deps);
    hide Begins, SameDefinition, OnlyNames, SpellBody;
    OneBegins(def, i, a);
    assert |tokens| == 2 + |body|;
    assert forall m :: 0 <= m < |body| ==> tokens[m + 2] == body[m];
    if 2 <= j < k < |tokens| {
      OneSame(def, k);
      BetweenInSecond([Crst, Id(def.name)], body, j - 2, k - 2);
      assert tokens[j] == body[j - 2] && tokens[k] == body[k - 2];
    }
    hide SpellDefinition;
  }

  lemma OneListsOnly(def: Definition, keyword: Token, a: string, b: string)
    requires Lists(SpellDefinition(def), keyword, a, b)
    ensures a == def.name && ListedIn(SpellBody(def.deps), keyword, b)
  {
    hide ListsAt, ListedAt, SpellDefinition, SpellBody;
    var i: nat, j: nat, k: nat :| ListsAt(SpellDefinition(def), keyword, a, b, i, j, k);
    OneListsAt(def, keyword, a, b, i, j, k);
  }

  lemma OneListsAlso(def: Definition, keyword: Token, b: string)
    requires ListedIn(SpellBody(def.deps), keyword, b)
    ensures Lists(SpellDefinition(def), keyword, def.name, b)
  {
    hide ListsAt, ListedAt, SpellDefinition, SpellBody;
    var j: nat, k: nat :| ListedAt(SpellBody(def.deps), keyword, b, j, k);
    OneListsAt(def, keyword, def.name, b, 0, j + 2, k + 2);
  }

  lemma OneLists(def: Definition, keyword: Token, a: string, b: string)
    requires ListKeyword(keyword)
    ensures Lists(SpellDefinition(def), keyword, a, b) <==> a == def.name && NamesSome(def.deps, keyword, b)
  {
    hide *;
    BodyLists(def.deps, keyword, b);
    if Lists(SpellDefinition(def), keyword, a, b) {
      OneListsOnly(def, keyword, a, b);
    }
    if ListedIn(SpellBody(def.deps), keyword, b) {
      OneListsAlso(def, keyword, b);
    }
  }

  lemma OneMarks(def: Definition, a: string)
    ensures Marks(SpellDefinition(def), a) <==> a == def.name && NoOrder in def.deps
  {
    var tokens, body := SpellDefinition(def), SpellBody(def.deps);
    BodyTokens(def.deps);
    hide SpellBody;
    if i: nat, j: nat :| MarksAt(tokens, a, i, j) {
      OneBegins(def, i, a);
      assert body[j - 2] == tokens[j];
    }
    if j: nat :| j < |body| && body[j] == Unordered {
      OneBegins(def, 0, def.name);
      OneSame(def, j + 2);
      assert MarksAt(tokens, def.name, 0, j + 2);
    }
  }

  // ----- a file

  lemma SpellFileParts(defs: seq<Definition>)
    requires defs != []
    ensures SpellFile(defs) == SpellDefinition(defs[0]) + SpellFile(defs[1..])
    ensures Whole(SpellDefinition(defs[0]))
    ensures forall d :: d in defs <==> d == defs[0] || d in defs[1..]
  {
    BodyTokens(defs[0].deps);
    hide SpellBody;
  }

  ghost predicate DefinitionLists(defs: seq<Definition>, keyword: Token, a: string, b: string) {
    exists d :: d in defs && d.name == a && NamesSome(d.deps, keyword, b)
  }

  /** What is listed by position is what the definitions list. */
  lemma {:induction false} FileLists(defs: seq<Definition>, keyword: Token, a: string, b: string)
    requires ListKeyword(keyword)
    ensures Lists(SpellFile(defs), keyword, a, b) <==> DefinitionLists(defs, keyword, a, b)
  {
    if defs != [] {
      SpellFileParts(defs);
      hide SpellFile, SpellDefinition, Lists, NamesSome;
      FileLists(defs[1..], keyword, a, b);
      ListsInParts(SpellDefinition(defs[0]), SpellFile(defs[1..]), keyword, a, b);
      OneLists(defs[0], keyword, a, b);
    }
  }

  lemma {:induction false} FileMarks(defs: seq<Definition>, a: string)
    ensures Marks(SpellFile(defs), a) <==> DeclaresUnordered(defs, a)
    ensures DefinesName(SpellFile(defs), a) <==> Defines(defs, a)
  {
    if defs != [] {
      var first, rest := SpellDefinition(defs[0]), SpellFile(defs[1..]);
      SpellFileParts(defs);
      OneBegins(defs[0], 0, a);
      assert DefinesName(first, a) <==> a == defs[0].name by {
        if i: nat :| Begins(first, i, a) {
          OneBegins(defs[0], i, a);
        }
      }
      hide SpellFile, SpellDefinition, Marks, DefinesName;
      FileMarks(defs[1..], a);
      MarksInParts(first, rest, a);
      DefinesInParts(first, rest, a);
      OneMarks(defs[0], a);
    }
  }

  /** The names a file mentions. */
  ghost predicate Mentions(defs: seq<Definition>, a: string) {
    exists d :: d in defs && (d.name == a || exists p :: p in d.deps && !p.NoOrder? && a in p.names)
  }

  lemma {:induction false} FileIds(defs: seq<Definition>, a: string)
    ensures Id(a) in SpellFile(defs) <==> Mentions(defs, a)
  {
    if defs != [] {
      SpellFileParts(defs);
      BodyTokens(defs[0].deps);
      hide SpellFile, SpellBody;
      FileIds(defs[1..], a);
    }
  }

  lemma {:induction false} NamesOfDependencies(db: Declared, name: string, deps: seq<Dependency>, a: string)
    ensures a in AddDependencies(db, name, deps).names <==>
            a in db.names || exists p :: p in deps && !p.NoOrder? && a in p.names
  {
    if deps != [] {
      var front, dep := deps[..|deps| - 1], deps[|deps| - 1];
      NamesOfDependencies(db, name, front, a);
      assert forall p :: p in deps <==> p in front || p == dep;
    }
  }

  lemma {:induction false} MeaningNames(defs: seq<Definition>, a: string)
    ensures a in Meaning(defs).names <==> Mentions(defs, a)
  {
    if defs != [] {
      var front, last := defs[..|defs| - 1], defs[|defs| - 1];
      MeaningNames(front, a);
      NamesOfDependencies(StartDefinition(Meaning(front), last.name), last.name, last.deps, a);
      assert forall d :: d in defs <==> d in front || d == last;
      hide AddDependencies;
    }
  }

  /** A rule is declared from one side or the other. */
  lemma RulesAreListed(defs: seq<Definition>, a: string, b: string)
    ensures DeclaresRule(defs, a, b) <==>
            DefinitionLists(defs, AcquiredBefore, a, b) || DefinitionLists(defs, AcquiredAfter, b, a)
    ensures DeclaresSameLevel(defs, a, b) <==> DefinitionLists(defs, SameLevelAs, a, b)
  {
    forall d | d in defs
      ensures DependsInOrder(d.name, d.deps, a, b) <==>
              || (d.name == a && NamesSome(d.deps, AcquiredBefore, b))
              || (d.name == b && NamesSome(d.deps, AcquiredAfter, a))
    {
      forall p | p in d.deps ensures p.Before? && b in p.names <==> Names(p, AcquiredBefore, b) {
      }
    }
  }

  /** The facts read off the tokens by position are those the definitions declare. */
  lemma FactsAreMeaning(defs: seq<Definition>)
    ensures Facts(SpellFile(defs)) == Meaning(defs)
  {
    var tokens, db := SpellFile(defs), Meaning(defs);
    MeaningFacts(defs);
    MeaningClosed(defs);
    hide SpellFile, Meaning, Lists, Marks, DefinesName, DefinitionLists, DeclaresRule, DeclaresSameLevel,
         DeclaresUnordered, Defines;
    forall a | true
      ensures a in Ids(tokens) <==> a in db.names
      ensures Marks(tokens, a) <==> a in db.unordered
      ensures DefinesName(tokens, a) <==> a in db.defined
    {
      FileIds(defs, a);
      MeaningNames(defs, a);
      FileMarks(defs, a);
      assert Id(a) in tokens <==> a in Ids(tokens);
    }
    forall a, b | true
      ensures Orders(tokens, a, b) <==> (a, b) in db.rules
      ensures Lists(tokens, SameLevelAs, a, b) <==> (a, b) in db.pairs
    {
      FileLists(defs, AcquiredBefore, a, b);
      FileLists(defs, AcquiredAfter, b, a);
      FileLists(defs, SameLevelAs, a, b);
      RulesAreListed(defs, a, b);
    }
    FactsAre(tokens, db);
  }

  lemma PairsAre(a: set<(string, string)>, b: set<(string, string)>)
    requires forall x, y :: (x, y) in a <==> (x, y) in b
    ensures a == b
  {
    forall p | true ensures p in a <==> p in b {
      assert p == (p.0, p.1);
    }
  }

  lemma FactsAre(tokens: seq<Token>, db: Declared)
    requires Closed(db)
    requires forall a :: a in Ids(tokens) <==> a in db.names
    requires forall a :: (Marks(tokens, a) <==> a in db.unordered) && (DefinesName(tokens, a) <==> a in db.defined)
    requires forall a, b :: Orders(tokens, a, b) <==> (a, b) in db.rules
    requires forall a, b :: Lists(tokens, SameLevelAs, a, b) <==> (a, b) in db.pairs
    ensures Facts(tokens) == db
  {
    hide Marks, DefinesName, Orders, Lists, Ids;
    var facts := Facts(tokens);
    assert facts.names == db.names;
    assert facts.defined == db.defined;
    assert facts.unordered == db.unordered;
    PairsAre(facts.rules, db.rules);
    PairsAre(facts.pairs, db.pairs);
  }

  // ----- where reading stops

  /** Between the two places no definition begins or ends. */
  ghost predicate NoBreak(tokens: seq<Token>, at: nat, n: nat)
    requires n <= |tokens|
  {
    forall m :: at <= m < n ==> !tokens[m].End? && !tokens[m].Crst?
  }

  /** The definition whose name is at `at` is well-formed up to `n` and has not ended. */
  ghost predicate InBody(tokens: seq<Token>, at: nat, n: nat) {
    && 0 < at < n <= |tokens| && tokens[at - 1].Crst? && tokens[at].Id?
    && FitUpTo(tokens, n) && NoBreak(tokens, at, n)
  }

  /** There its next attribute should come. */
  ghost predicate AtAttribute(tokens: seq<Token>, at: nat, n: nat) {
    InBody(tokens, at, n) && (n < |tokens| && tokens[n].Id? ==> !InList(tokens, n - 1))
  }

  /** It ends right before `n`. */
  ghost predicate EndsBefore(tokens: seq<Token>, at: nat, n: nat) {
    0 < n <= |tokens| && InBody(tokens, at, n - 1) && tokens[n - 1].End?
  }

  /** From `at` on, the first token that does not fit comes before another definition. */
  ghost predicate MisfitAfter(tokens: seq<Token>, at: nat) {
    exists k :: at <= k < |tokens| && FitUpTo(tokens, k) && NoBreak(tokens, at, k) && !Fits(tokens, k)
  }

  /** The file ends inside the definition whose name is, or should be, at `at`. */
  ghost predicate EndsAfter(tokens: seq<Token>, at: nat) {
    FitUpTo(tokens, |tokens|) && 0 < at <= |tokens| && tokens[at - 1].Crst? && NoBreak(tokens, at, |tokens|)
  }

  /** A name after 'Crst' fits, and an attribute follows it; nothing else fits there. */
  lemma NameFits(tokens: seq<Token>, at: nat)
    requires 0 < at < |tokens| && FitUpTo(tokens, at) && tokens[at - 1].Crst?
    ensures tokens[at].Id? ==> AtAttribute(tokens, at, at + 1)
    ensures !tokens[at].Id? ==> MisfitAfter(tokens, at)
  {
    assert NoBreak(tokens, at, at);
  }

  /** What an attribute's first token, or 'End', does. */
  lemma AttributeFits(tokens: seq<Token>, at: nat, n: nat)
    requires AtAttribute(tokens, at, n) && n < |tokens|
    ensures tokens[n].End? ==> EndsBefore(tokens, at, n + 1)
    ensures tokens[n].Crst? || tokens[n].Id? ==> MisfitAfter(tokens, at)
    ensures tokens[n].Unordered? || ListKeyword(tokens[n]) ==> InBody(tokens, at, n + 1)
    ensures tokens[n].Unordered? ==> AtAttribute(tokens, at, n + 1)
  {
    assert !tokens[n - 1].End? && !tokens[n - 1].Crst?;
  }

  /** The names after a list keyword fit, and an attribute follows them. */
  lemma {:induction false} ListFits(tokens: seq<Token>, at: nat, n: nat, end: nat)
    requires InBody(tokens, at, n) && InList(tokens, n - 1) && end <= |tokens|
    requires TakeNames(tokens[n..]).1 == tokens[end..]
    ensures AtAttribute(tokens, at, end)
    decreases |tokens| - n
  {
    if n < |tokens| && tokens[n].Id? {
      assert tokens[n..][1..] == tokens[n + 1..];
      assert !tokens[n - 1].Crst?;
      ListFits(tokens, at, n + 1, end);
    } else {
      assert |tokens[n..]| == |tokens[end..]|;
    }
  }

  /** What the reference reader makes of an attribute decides what fits. */
  lemma DependencyFits(tokens: seq<Token>, at: nat, n: nat, dep: Dependency, end: nat)
    requires AtAttribute(tokens, at, n) && n < |tokens| && !tokens[n].End? && end <= |tokens|
    ensures ReadDependency(tokens[n..]).None? ==> MisfitAfter(tokens, at)
    ensures ReadDependency(tokens[n..]) == Some((dep, tokens[end..])) ==> AtAttribute(tokens, at, end)
  {
    AttributeFits(tokens, at, n);
    assert tokens[n..][1..] == tokens[n + 1..] && tokens[n..][0] == tokens[n];
    hide AtAttribute, InBody, MisfitAfter;
    if ListKeyword(tokens[n]) && TakeNames(tokens[n + 1..]).1 == tokens[end..] {
      ListFits(tokens, at, n + 1, end);
    }
    if tokens[n].Unordered? && tokens[n + 1..] == tokens[end..] {
      assert |tokens[n + 1..]| == |tokens[end..]|;
    }
  }

  lemma EndsInBody(tokens: seq<Token>, at: nat)
    requires InBody(tokens, at, |tokens|)
    ensures EndsAfter(tokens, at)
  {
  }

  /** The name at `k` was given to a definition before. */
  ghost predicate Repeats(tokens: seq<Token>, k: nat)
    requires k < |tokens|
  {
    k > 0 && tokens[k - 1].Crst? && tokens[k].Id? && exists i: nat :: i + 1 < k && Begins(tokens, i, tokens[k].text)
  }

  /** Up to `n` everything fits and no definition's name is repeated. */
  ghost predicate FaultlessTo(tokens: seq<Token>, n: nat)
    requires n <= |tokens|
  {
    FitUpTo(tokens, n) && forall k :: 0 <= k < n ==> !Repeats(tokens, k)
  }

  /** The names of the definitions that begin before `n`. */
  ghost predicate NamesBefore(tokens: seq<Token>, n: nat, names: set<string>) {
    forall a :: a in names <==> exists i: nat :: i + 1 < n && Begins(tokens, i, a)
  }

  /** The first fault of the file, if it has one: a token that does not fit, a repeated name, or that the
      file ends inside a definition. */
  datatype Fault = NoFault | Misfit | Repetition | Incomplete

  ghost predicate FirstFault(tokens: seq<Token>, fault: Fault) {
    match fault
    case NoFault => FaultlessTo(tokens, |tokens|) && Whole(tokens)
    case Misfit => exists k :: 0 <= k < |tokens| && FaultlessTo(tokens, k) && !Fits(tokens, k)
    case Repetition => exists k :: 0 <= k < |tokens| && FaultlessTo(tokens, k) && Repeats(tokens, k)
    case Incomplete => FaultlessTo(tokens, |tokens|) && !Whole(tokens)
  }

  lemma RepeatedFits(tokens: seq<Token>, k: nat)
    requires k < |tokens| && Repeats(tokens, k)
    ensures Fits(tokens, k)
  {
  }

  /** There is one first fault. */
  lemma FirstFaultUnique(tokens: seq<Token>, a: Fault, b: Fault)
    requires FirstFault(tokens, a) && FirstFault(tokens, b)
    ensures a == b
  {
    forall k | 0 <= k < |tokens| && Repeats(tokens, k) ensures Fits(tokens, k) {
      RepeatedFits(tokens, k);
    }
    hide Fits, Repeats;
    if !a.NoFault? && !a.Incomplete? && !b.NoFault? && !b.Incomplete? {
      var j, k :| 0 <= j < |tokens| && 0 <= k < |tokens| && FaultlessTo(tokens, j) && FaultlessTo(tokens, k)
                  && (if a.Misfit? then !Fits(tokens, j) else Repeats(tokens, j))
                  && (if b.Misfit? then !Fits(tokens, k) else Repeats(tokens, k));
      assert j == k;
    }
  }

  /** A file has no fault exactly if it is well-formed and gives no name twice. */
  lemma FaultlessIff(tokens: seq<Token>)
    ensures FirstFault(tokens, NoFault) <==> WellFormed(tokens) && NamesDiffer(tokens)
  {
    if WellFormed(tokens) && !NamesDiffer(tokens) {
      var i: nat, j: nat, a :| Begins(tokens, i, a) && Begins(tokens, j, a) && i < j;
      assert Repeats(tokens, j + 1);
    }
    if k :| 0 <= k < |tokens| && Repeats(tokens, k) {
      var i: nat :| i + 1 < k && Begins(tokens, i, tokens[k].text);
      assert Begins(tokens, k - 1, tokens[k].text);
    }
  }

  // ----- from one definition to the next

  /** Where a definition should begin, only 'Crst' fits. */
  lemma TopLevel(tokens: seq<Token>, n: nat)
    requires n < |tokens| && FaultlessTo(tokens, n) && (n > 0 ==> tokens[n - 1].End?)
    ensures tokens[n].Crst? ==> FaultlessTo(tokens, n + 1)
    ensures !tokens[n].Crst? ==> FirstFault(tokens, Misfit)
  {
  }

  /** No name is repeated where no definition begins. */
  lemma FaultlessOn(tokens: seq<Token>, at: nat, n: nat)
    requires at <= n <= |tokens| && FaultlessTo(tokens, at) && FitUpTo(tokens, n) && NoBreak(tokens, at, n)
    requires at < n ==> !Repeats(tokens, at)
    ensures FaultlessTo(tokens, n)
  {
  }

  /** The faults of one definition are the first ones of the file. */
  lemma DefinitionFaults(tokens: seq<Token>, at: nat, names: set<string>)
    requires 0 < at <= |tokens| && FaultlessTo(tokens, at) && tokens[at - 1].Crst? && NamesBefore(tokens, at, names)
    ensures at < |tokens| && tokens[at].Id? && tokens[at].text in names ==> FirstFault(tokens, Repetition)
    ensures !(at < |tokens| && tokens[at].Id? && tokens[at].text in names) ==>
              && (MisfitAfter(tokens, at) ==> FirstFault(tokens, Misfit))
              && (EndsAfter(tokens, at) ==> FirstFault(tokens, Incomplete))
  {
    if at < |tokens| && tokens[at].Id? {
      assert tokens[at].text in names <==> Repeats(tokens, at);
    }
    if !(at < |tokens| && tokens[at].Id? && tokens[at].text in names) {
      hide Fits, Repeats;
      if MisfitAfter(tokens, at) {
        var k :| at <= k < |tokens| && FitUpTo(tokens, k) && NoBreak(tokens, at, k) && !Fits(tokens, k);
        FaultlessOn(tokens, at, k);
      }
      if EndsAfter(tokens, at) {
        FaultlessOn(tokens, at, |tokens|);
      }
    }
  }

  /** A definition that was read to its end leaves no fault behind and adds its name. */
  lemma DefinitionDone(tokens: seq<Token>, at: nat, n: nat, names: set<string>)
    requires 0 < at <= |tokens| && FaultlessTo(tokens, at) && NamesBefore(tokens, at, names)
    requires EndsBefore(tokens, at, n)
    requires tokens[at].text !in names
    ensures FaultlessTo(tokens, n) && NamesBefore(tokens, n, names + {tokens[at].text})
  {
    assert !Repeats(tokens, at);
    FaultlessOn(tokens, at, n - 1);
    assert !Repeats(tokens, n - 1) && Fits(tokens, n - 1);
    assert Begins(tokens, at - 1, tokens[at].text);
    forall i: nat, a | i + 1 < n && Begins(tokens, i, a) ensures i + 1 < at || a == tokens[at].text {
    }
  }
}
