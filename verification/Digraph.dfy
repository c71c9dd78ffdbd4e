/** Finite directed graphs as sets of edges: walks, cycles, quotients. */
module Digraph {

  /** `w` is a nonempty sequence of nodes, each linked to the next by an edge of `g`. */
  ghost predicate Walk<T>(g: set<(T, T)>, w: seq<T>) {
    |w| > 0 && forall i, j :: 0 <= i < |w| - 1 && j == i + 1 ==> (w[i], w[j]) in g
  }

  ghost predicate WalkFromTo<T>(g: set<(T, T)>, w: seq<T>, a: T, b: T) {
    Walk(g, w) && w[0] == a && w[|w| - 1] == b
  }

  ghost predicate Distinct<T>(s: seq<T>) {
    forall i, j :: 0 <= i < j < |s| ==> s[i] != s[j]
  }

  /** Some walk of at least one edge leads from `r` back to `r`; a self-loop counts. */
  ghost predicate OnCycle<T(!new)>(g: set<(T, T)>, r: T) {
    exists w :: WalkFromTo(g, w, r, r) && |w| > 1
  }

  ghost predicate Acyclic<T(!new)>(g: set<(T, T)>) {
    forall r :: !OnCycle(g, r)
  }

  /** A repetition-free walk that starts at `from`, stays outside `avoid`, and whose last node
      has an edge to `root`: the rest of a cycle through `root`. */
  ghost predicate ClosingPath<T>(g: set<(T, T)>, root: T, from: T, avoid: set<T>, p: seq<T>) {
    && Walk(g, p) && Distinct(p) && p[0] == from
    && (forall x :: x in p ==> x !in avoid)
    && (p[|p| - 1], root) in g
  }

  ghost predicate Closes<T(!new)>(g: set<(T, T)>, root: T, from: T, avoid: set<T>) {
    exists p :: ClosingPath(g, root, from, avoid, p)
  }

  lemma WalkConcat<T>(g: set<(T, T)>, v: seq<T>, w: seq<T>)
    requires Walk(g, v) && Walk(g, w) && (v[|v| - 1], w[0]) in g
    ensures Walk(g, v + w)
  {
  }

  lemma WalkSlice<T>(g: set<(T, T)>, w: seq<T>, lo: nat, hi: nat)
    requires Walk(g, w) && lo < hi <= |w|
    ensures Walk(g, w[lo..hi])
  {
  }

  /** Walks from a to b and from b to c compose. */
  lemma WalkJoin<T>(g: set<(T, T)>, v: seq<T>, w: seq<T>, a: T, b: T, c: T) returns (u: seq<T>)
    requires WalkFromTo(g, v, a, b) && WalkFromTo(g, w, b, c)
    ensures WalkFromTo(g, u, a, c) && |u| == |v| + |w| - 1
  {
    if |w| == 1 {
      u := v;
    } else {
      WalkSlice(g, w, 1, |w|);
      assert w[0] == b && (w[0], w[1]) in g;
      WalkConcat(g, v, w[1..]);
      u := v + w[1..];
    }
  }

  /** Every walk contains a repetition-free walk with the same end points. */
  lemma {:induction false} Shorten<T>(g: set<(T, T)>, w: seq<T>, a: T, b: T) returns (p: seq<T>)
    requires WalkFromTo(g, w, a, b)
    ensures WalkFromTo(g, p, a, b) && Distinct(p)
    decreases |w|
  {
    if Distinct(w) {
      p := w;
    } else {
      var i, j :| 0 <= i < j < |w| && w[i] == w[j];
      var cut := w[..i + 1];
      WalkSlice(g, w, 0, i + 1);
      WalkSlice(g, w, j, |w|);
      assert cut == w[0..i + 1];
      var shorter := WalkJoin(g, cut, w[j..], a, w[i], b);
      p := Shorten(g, shorter, a, b);
    }
  }

  /** A node lies on a cycle exactly when a repetition-free path from it closes back on it. */
  lemma OnCycleIffCloses<T(!new)>(g: set<(T, T)>, r: T)
    ensures OnCycle(g, r) <==> Closes(g, r, r, {})
  {
    if OnCycle(g, r) {
      var w :| WalkFromTo(g, w, r, r) && |w| > 1;
      var last := w[|w| - 2];
      WalkSlice(g, w, 0, |w| - 1);
      var p := Shorten(g, w[0..|w| - 1], r, last);
      assert (w[|w| - 2], w[|w| - 1]) in g;
      assert ClosingPath(g, r, r, {}, p);
    }
    if Closes(g, r, r, {}) {
      var p :| ClosingPath(g, r, r, {}, p);
      WalkConcat(g, p, [r]);
      assert WalkFromTo(g, p + [r], r, r);
    }
  }

  /** One unfolding of the search: a path closes on `root` either at once or through a
      successor that has not been visited. */
  lemma ClosesUnfold<T(!new)>(g: set<(T, T)>, root: T, from: T, avoid: set<T>)
    requires from !in avoid && (root in avoid || root == from)
    ensures Closes(g, root, from, avoid) <==>
            exists c :: (from, c) in g &&
              (c == root || (c !in avoid + {from} && Closes(g, root, c, avoid + {from})))
  {
    if Closes(g, root, from, avoid) {
      var p :| ClosingPath(g, root, from, avoid, p);
      if |p| == 1 {
        assert (from, root) in g;
      } else {
        var c := p[1];
        assert (p[0], p[1]) in g;
        WalkSlice(g, p, 1, |p|);
        assert ClosingPath(g, root, c, avoid + {from}, p[1..]);
        assert c in p[1..];
      }
    }
    if c :| (from, c) in g && (c == root || (c !in avoid + {from} && Closes(g, root, c, avoid + {from}))) {
      if c == root {
        assert ClosingPath(g, root, from, avoid, [from]);
      } else {
        var q :| ClosingPath(g, root, c, avoid + {from}, q);
        ClosingPathPrepend(g, root, from, avoid, q);
      }
    }
  }

  lemma ClosingPathPrepend<T>(g: set<(T, T)>, root: T, from: T, avoid: set<T>, q: seq<T>)
    requires from !in avoid && |q| > 0 && (from, q[0]) in g
    requires ClosingPath(g, root, q[0], avoid + {from}, q)
    ensures ClosingPath(g, root, from, avoid, [from] + q)
  {
  }

  /** In an acyclic graph every nonempty finite set of nodes has a member with no edge into the set. */
  lemma SinkExists<T(!new)>(g: set<(T, T)>, nodes: set<T>)
    requires Acyclic(g) && nodes != {}
    ensures exists x :: x in nodes && forall y :: y in nodes ==> (x, y) !in g
  {
    if forall x :: x in nodes ==> exists y :: y in nodes && (x, y) in g {
      var x :| x in nodes;
      GrowWalk(g, nodes, [x]);
    }
  }

  /** If every node has a successor inside the set, a repetition-free walk inside it keeps growing
      until it closes a cycle. */
  lemma {:induction false} GrowWalk<T(!new)>(g: set<(T, T)>, nodes: set<T>, w: seq<T>)
    requires Walk(g, w) && Distinct(w)
    requires forall x :: x in w ==> x in nodes
    requires forall x :: x in nodes ==> exists y :: y in nodes && (x, y) in g
    ensures !Acyclic(g)
    decreases |nodes| - |w|, 0
  {
    DistinctBound(w, nodes);
    var last := w[|w| - 1];
    assert last in w;
    var y :| y in nodes && (last, y) in g;
    if y in w {
      var i :| 0 <= i < |w| && w[i] == y;
      WalkSlice(g, w, i, |w|);
      WalkConcat(g, w[i..], [y]);
      assert WalkFromTo(g, w[i..] + [y], y, y);
      assert OnCycle(g, y);
    } else {
      WalkConcat(g, w, [y]);
      DistinctBound(w + [y], nodes);
      GrowWalk(g, nodes, w + [y]);
    }
  }

  lemma {:induction false} DistinctBound<T>(w: seq<T>, nodes: set<T>)
    requires Distinct(w) && forall x :: x in w ==> x in nodes
    ensures |w| <= |nodes|
  {
    if w != [] {
      var x := w[|w| - 1];
      assert x in w;
      var front := w[..|w| - 1];
      forall y | y in front ensures y in nodes - {x} {
        assert y in w;
      }
      DistinctBound(front, nodes - {x});
    }
  }

  lemma SuffixSplit<T>(prefix: seq<T>, x: T, s: seq<T>)
    requires prefix + [x] <= s
    ensures prefix <= s && s[|prefix|..] == [x] + s[|prefix| + 1..]
  {
  }

  lemma NonemptyHasElement<T>(s: seq<T>)
    ensures s != [] ==> exists x :: x in s
  {
    if s != [] {
      assert s[0] in s;
    }
  }

  lemma CycleEnds<T(!new)>(g: set<(T, T)>, r: T)
    ensures OnCycle(g, r) ==> exists x, y :: (r, x) in g && (y, r) in g
  {
    if w :| WalkFromTo(g, w, r, r) && |w| > 1 {
      assert (w[0], w[1]) in g && (w[|w| - 2], w[|w| - 1]) in g;
    }
  }
}
