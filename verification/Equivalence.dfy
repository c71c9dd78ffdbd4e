/** The equivalence relation generated by a set of pairs, built up one pair at a time. */
module EquivalenceClosure {
  import opened Digraph

  ghost function Symmetric<T>(pairs: set<(T, T)>): set<(T, T)> {
    pairs + set e | e in pairs :: (e.1, e.0)
  }

  /** `a` and `b` are linked by a chain of at least one pair, read in either direction. */
  ghost predicate Related<T(!new)>(pairs: set<(T, T)>, a: T, b: T) {
    exists w :: WalkFromTo(Symmetric(pairs), w, a, b) && |w| > 1
  }

  /** `a` is one of `x` and `y`, or already related to one of them. */
  ghost predicate Touches<T(!new)>(pairs: set<(T, T)>, a: T, x: T, y: T) {
    a == x || a == y || Related(pairs, a, x) || Related(pairs, a, y)
  }

  lemma RelatedByPair<T(!new)>(pairs: set<(T, T)>, a: T, b: T)
    requires (a, b) in pairs || (b, a) in pairs
    ensures Related(pairs, a, b)
  {
    assert (a, b) in Symmetric(pairs);
    assert WalkFromTo(Symmetric(pairs), [a, b], a, b);
  }

  lemma RelatedTransitive<T(!new)>(pairs: set<(T, T)>, a: T, b: T, c: T)
    requires Related(pairs, a, b) && Related(pairs, b, c)
    ensures Related(pairs, a, c)
  {
    var g := Symmetric(pairs);
    var v :| WalkFromTo(g, v, a, b) && |v| > 1;
    var w :| WalkFromTo(g, w, b, c) && |w| > 1;
    var u := WalkJoin(g, v, w, a, b, c);
  }

  lemma RelatedSymmetric<T(!new)>(pairs: set<(T, T)>, a: T, b: T)
    requires Related(pairs, a, b)
    ensures Related(pairs, b, a)
  {
    var g := Symmetric(pairs);
    var w :| WalkFromTo(g, w, a, b) && |w| > 1;
    var r := seq(|w|, i requires 0 <= i < |w| => w[|w| - 1 - i]);
    forall i, j | 0 <= i < |r| - 1 && j == i + 1 ensures (r[i], r[j]) in g {
      assert (w[|w| - 1 - j], w[|w| - 1 - i]) in g;
    }
    assert WalkFromTo(g, r, b, a);
  }

  lemma RelatedMonotone<T(!new)>(pairs: set<(T, T)>, more: set<(T, T)>, a: T, b: T)
    requires Related(pairs, a, b) && pairs <= more
    ensures Related(more, a, b)
  {
  }

  /** Adding one pair merges exactly the two classes it touches. */
  lemma AddPair<T(!new)>(pairs: set<(T, T)>, x: T, y: T, a: T, b: T)
    ensures Related(pairs + {(x, y)}, a, b) <==>
            Related(pairs, a, b) || (Touches(pairs, a, x, y) && Touches(pairs, b, x, y))
  {
    var more := pairs + {(x, y)};
    if Related(more, a, b) {
      var w :| WalkFromTo(Symmetric(more), w, a, b) && |w| > 1;
      AddPairWalk(pairs, x, y, a, b, w);
    }
    if Related(pairs, a, b) {
      RelatedMonotone(pairs, more, a, b);
    }
    if Touches(pairs, a, x, y) && Touches(pairs, b, x, y) {
      AddPairMerges(pairs, x, y, a, b);
    }
  }

  lemma {:induction false} AddPairWalk<T(!new)>(pairs: set<(T, T)>, x: T, y: T, a: T, b: T, w: seq<T>)
    requires WalkFromTo(Symmetric(pairs + {(x, y)}), w, a, b) && |w| > 1
    ensures Related(pairs, a, b) || (Touches(pairs, a, x, y) && Touches(pairs, b, x, y))
    decreases |w|
  {
    var g := Symmetric(pairs + {(x, y)});
    var c := w[|w| - 2];
    assert (w[|w| - 2], w[|w| - 1]) in g;
    if |w| > 2 {
      WalkSlice(g, w, 0, |w| - 1);
      AddPairWalk(pairs, x, y, a, c, w[0..|w| - 1]);
    }
    if (c, b) in Symmetric(pairs) {
      RelatedByPair(pairs, c, b);
      if |w| > 2 {
        ExtendRelated(pairs, x, y, a, c, b);
      }
    } else {
      assert (c == x && b == y) || (c == y && b == x);
    }
  }

  lemma ExtendRelated<T(!new)>(pairs: set<(T, T)>, x: T, y: T, a: T, c: T, b: T)
    requires Related(pairs, c, b)
    ensures Related(pairs, a, c) ==> Related(pairs, a, b)
    ensures Touches(pairs, c, x, y) ==> Touches(pairs, b, x, y)
  {
    RelatedSymmetric(pairs, c, b);
    if Related(pairs, a, c) {
      RelatedTransitive(pairs, a, c, b);
    }
    if Related(pairs, c, x) {
      RelatedTransitive(pairs, b, c, x);
    } else if Related(pairs, c, y) {
      RelatedTransitive(pairs, b, c, y);
    }
  }

  lemma AddPairMerges<T(!new)>(pairs: set<(T, T)>, x: T, y: T, a: T, b: T)
    requires Touches(pairs, a, x, y) && Touches(pairs, b, x, y)
    ensures Related(pairs + {(x, y)}, a, b)
  {
    var more := pairs + {(x, y)};
    RelatedByPair(more, x, y);
    RelatedByPair(more, y, x);
    AnchoredAt(pairs, x, y, a);
    AnchoredAt(pairs, x, y, b);
    RelatedSymmetric(more, b, x);
    RelatedTransitive(more, a, x, b);
  }

  lemma AnchoredAt<T(!new)>(pairs: set<(T, T)>, x: T, y: T, a: T)
    requires Touches(pairs, a, x, y)
    ensures Related(pairs + {(x, y)}, a, x)
  {
    var more := pairs + {(x, y)};
    RelatedByPair(more, x, y);
    RelatedByPair(more, y, x);
    RelatedTransitive(more, x, y, x);
    if Related(pairs, a, x) {
      RelatedMonotone(pairs, more, a, x);
    } else if Related(pairs, a, y) {
      RelatedMonotone(pairs, more, a, y);
      RelatedTransitive(more, a, y, x);
    }
  }
}

/** Spreading the rules of a graph over the classes of an equivalence, against contracting each
    class to one node. */
module Quotients {
  import opened Digraph

  ghost predicate Equivalence<T(!new)>(same: set<(T, T)>, nodes: set<T>) {
    && (forall a :: a in nodes ==> (a, a) in same)
    && (forall a, b :: (a, b) in same ==> a in nodes && b in nodes && (b, a) in same)
    && (forall a, b, c :: (a, b) in same && (b, c) in same ==> (a, c) in same)
  }

  ghost predicate Over<T(!new)>(g: set<(T, T)>, nodes: set<T>) {
    forall a, b :: (a, b) in g ==> a in nodes && b in nodes
  }

  ghost function ClassOf<T>(same: set<(T, T)>, x: T): set<T> {
    set e | e in same && e.0 == x :: e.1
  }

  /** Each class contracted to one node; an edge inside a class becomes a self-loop. */
  ghost function Quotient<T>(g: set<(T, T)>, same: set<(T, T)>): set<(set<T>, set<T>)> {
    set e | e in g :: (ClassOf(same, e.0), ClassOf(same, e.1))
  }

  /** Every member of a class carries the edges of all of its members. */
  ghost function Normalized<T>(g: set<(T, T)>, same: set<(T, T)>): set<(T, T)> {
    set s, e | s in same && e in g && s.1 == e.0 :: (s.0, e.1)
  }

  lemma NormalizedMember<T(!new)>(g: set<(T, T)>, same: set<(T, T)>, a: T, b: T)
    ensures (a, b) in Normalized(g, same) <==> exists m :: (a, m) in same && (m, b) in g
  {
  }

  lemma ClassesEqual<T(!new)>(same: set<(T, T)>, nodes: set<T>, a: T, b: T)
    requires Equivalence(same, nodes) && a in nodes && b in nodes
    ensures ClassOf(same, a) == ClassOf(same, b) <==> (a, b) in same
  {
    if (a, b) in same {
      forall x ensures x in ClassOf(same, a) <==> x in ClassOf(same, b) {
        assert x in ClassOf(same, a) <==> (a, x) in same;
        assert x in ClassOf(same, b) <==> (b, x) in same;
      }
    } else {
      assert (b, b) in same;
      assert b in ClassOf(same, b);
      assert b !in ClassOf(same, a);
    }
  }

  lemma NormalizedContains<T(!new)>(g: set<(T, T)>, same: set<(T, T)>, nodes: set<T>)
    requires Equivalence(same, nodes) && Over(g, nodes)
    ensures g <= Normalized(g, same) && Over(Normalized(g, same), nodes)
  {
    forall e | e in g ensures e in Normalized(g, same) {
      assert (e.0, e.1) in g && (e.0, e.0) in same;
      NormalizedMember(g, same, e.0, e.1);
    }
  }

  /** A cycle of the normalized graph passes through the classes as a cycle of the quotient. */
  lemma NormalizedCycleProjects<T(!new)>(g: set<(T, T)>, same: set<(T, T)>, nodes: set<T>, r: T)
    requires Equivalence(same, nodes) && Over(g, nodes) && OnCycle(Normalized(g, same), r)
    ensures OnCycle(Quotient(g, same), ClassOf(same, r))
  {
    var n, q := Normalized(g, same), Quotient(g, same);
    var w :| WalkFromTo(n, w, r, r) && |w| > 1;
    var cs := seq(|w|, i requires 0 <= i < |w| => ClassOf(same, w[i]));
    forall i, j | 0 <= i < |cs| - 1 && j == i + 1 ensures (cs[i], cs[j]) in q {
      assert (w[i], w[j]) in n;
      NormalizedMember(g, same, w[i], w[j]);
      var m :| (w[i], m) in same && (m, w[j]) in g;
      ClassesEqual(same, nodes, w[i], m);
      var e := (m, w[j]);
      assert e in g;
      assert (ClassOf(same, e.0), ClassOf(same, e.1)) in q;
    }
    assert WalkFromTo(q, cs, ClassOf(same, r), ClassOf(same, r));
  }

  lemma LiftEdge<T(!new)>(g: set<(T, T)>, same: set<(T, T)>, nodes: set<T>, c: set<T>, d: set<T>) returns (y: T)
    requires Equivalence(same, nodes) && Over(g, nodes) && (c, d) in Quotient(g, same)
    ensures y in nodes && ClassOf(same, y) == d
    ensures forall x :: x in nodes && ClassOf(same, x) == c ==> (x, y) in Normalized(g, same)
  {
    var e :| e in g && ClassOf(same, e.0) == c && ClassOf(same, e.1) == d;
    y := e.1;
    assert (e.0, y) in g;
    forall x | x in nodes && ClassOf(same, x) == c ensures (x, y) in Normalized(g, same) {
      ClassesEqual(same, nodes, x, e.0);
      NormalizedMember(g, same, x, y);
    }
  }

  /** A walk of the quotient lifts to a walk of the normalized graph that any node of its first
      class can start. */
  lemma {:induction false} LiftWalk<T(!new)>(g: set<(T, T)>, same: set<(T, T)>, nodes: set<T>, cs: seq<set<T>>)
    returns (u: seq<T>)
    requires Equivalence(same, nodes) && Over(g, nodes)
    requires Walk(Quotient(g, same), cs) && |cs| > 1
    ensures Walk(Normalized(g, same), u) && u[|u| - 1] in nodes
    ensures ClassOf(same, u[|u| - 1]) == cs[|cs| - 1]
    ensures forall x :: x in nodes && ClassOf(same, x) == cs[0] ==> (x, u[0]) in Normalized(g, same)
    decreases |cs|
  {
    var q := Quotient(g, same);
    assert (cs[0], cs[1]) in q;
    var y := LiftEdge(g, same, nodes, cs[0], cs[1]);
    u := [y];
    if |cs| > 2 {
      WalkSlice(q, cs, 1, |cs|);
      var rest := LiftWalk(g, same, nodes, cs[1..]);
      WalkConcat(Normalized(g, same), u, rest);
      u := u + rest;
    }
  }

  lemma QuotientCycleLifts<T(!new)>(g: set<(T, T)>, same: set<(T, T)>, nodes: set<T>, c: set<T>)
    requires Equivalence(same, nodes) && Over(g, nodes) && OnCycle(Quotient(g, same), c)
    ensures exists r :: OnCycle(Normalized(g, same), r)
  {
    var cs :| WalkFromTo(Quotient(g, same), cs, c, c) && |cs| > 1;
    var u := LiftWalk(g, same, nodes, cs);
    var n := Normalized(g, same);
    WalkConcat(n, u, [u[0]]);
    assert WalkFromTo(n, u + [u[0]], u[0], u[0]);
    assert OnCycle(n, u[0]);
  }

  /** Looking for cycles after the rules are spread over each class decides exactly whether the
      graph with every class contracted to one node is acyclic. */
  lemma NormalizedAcyclicIffQuotientAcyclic<T(!new)>(g: set<(T, T)>, same: set<(T, T)>, nodes: set<T>)
    requires Equivalence(same, nodes) && Over(g, nodes)
    ensures Acyclic(Normalized(g, same)) <==> Acyclic(Quotient(g, same))
  {
    if !Acyclic(Quotient(g, same)) {
      var c :| OnCycle(Quotient(g, same), c);
      QuotientCycleLifts(g, same, nodes, c);
    }
    if !Acyclic(Normalized(g, same)) {
      var r :| OnCycle(Normalized(g, same), r);
      NormalizedCycleProjects(g, same, nodes, r);
    }
  }

  lemma OnCycleMonotone<T(!new)>(g: set<(T, T)>, h: set<(T, T)>, r: T)
    requires g <= h && OnCycle(g, r)
    ensures OnCycle(h, r)
  {
  }

  lemma AcyclicAntitone<T(!new)>(g: set<(T, T)>, h: set<(T, T)>)
    requires g <= h
    ensures Acyclic(h) ==> Acyclic(g)
  {
    if r :| OnCycle(g, r) {
      OnCycleMonotone(g, h, r);
    }
  }
}
