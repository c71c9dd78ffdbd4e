/** Ordered trees, grown along the chain of last children. */
module CallTrees {

  datatype Tree<T> = Node(item: T, calls: seq<Tree<T>>)

  function Last<T>(ts: seq<T>): T
    requires ts != []
  {
    ts[|ts| - 1]
  }

  function Front<T>(ts: seq<T>): seq<T>
    requires ts != []
  {
    ts[..|ts| - 1]
  }

  /** Following last children `d` times stays inside the tree. */
  predicate Reaches<T>(t: Tree<T>, d: nat)
    decreases d
  {
    d == 0 || (t.calls != [] && Reaches(Last(t.calls), d - 1))
  }

  function ItemAt<T>(t: Tree<T>, d: nat): T
    requires Reaches(t, d)
    decreases d
  {
    if d == 0 then t.item else ItemAt(Last(t.calls), d - 1)
  }

  /** The tree with `x` as a new last child of the node `d` steps down. */
  function Append<T>(t: Tree<T>, d: nat, x: Tree<T>): Tree<T>
    requires Reaches(t, d)
    decreases d
  {
    if d == 0 then Node(t.item, t.calls + [x])
    else Node(t.item, Front(t.calls) + [Append(Last(t.calls), d - 1, x)])
  }

  /** The tree with another item in the node `d` steps down. */
  function Relabel<T>(t: Tree<T>, d: nat, item: T): Tree<T>
    requires Reaches(t, d)
    decreases d
  {
    if d == 0 then Node(item, t.calls)
    else Node(t.item, Front(t.calls) + [Relabel(Last(t.calls), d - 1, item)])
  }

  function Map<S, T>(t: Tree<S>, f: S -> T): Tree<T> {
    Node(f(t.item), MapAll(t.calls, f))
  }

  function MapAll<S, T>(ts: seq<Tree<S>>, f: S -> T): (r: seq<Tree<T>>)
    ensures |r| == |ts|
  {
    if ts == [] then [] else MapAll(Front(ts), f) + [Map(Last(ts), f)]
  }

  lemma {:induction false} AppendReaches<T>(t: Tree<T>, d: nat, x: Tree<T>)
    requires Reaches(t, d)
    ensures Reaches(Append(t, d, x), d + 1) && Reaches(Append(t, d, x), d)
    ensures ItemAt(Append(t, d, x), d + 1) == x.item && ItemAt(Append(t, d, x), d) == ItemAt(t, d)
    decreases d
  {
    if d > 0 {
      AppendReaches(Last(t.calls), d - 1, x);
    }
  }

  lemma {:induction false} RelabelReaches<T>(t: Tree<T>, d: nat, item: T)
    requires Reaches(t, d)
    ensures Reaches(Relabel(t, d, item), d) && ItemAt(Relabel(t, d, item), d) == item
    ensures forall e :: 0 <= e < d ==>
              (Reaches(t, e) && Reaches(Relabel(t, d, item), e) && ItemAt(Relabel(t, d, item), e) == ItemAt(t, e))
    decreases d
  {
    if d > 0 {
      RelabelReaches(Last(t.calls), d - 1, item);
    }
  }

  lemma {:induction false} ReachesLess<T>(t: Tree<T>, d: nat, e: nat)
    requires Reaches(t, d) && e <= d
    ensures Reaches(t, e)
    decreases e
  {
    if e > 0 {
      ReachesLess(Last(t.calls), d - 1, e - 1);
    }
  }

  lemma {:induction false} MapAppend<S, T>(t: Tree<S>, d: nat, x: Tree<S>, f: S -> T)
    requires Reaches(t, d)
    ensures Reaches(Map(t, f), d) && Map(Append(t, d, x), f) == Append(Map(t, f), d, Map(x, f))
    decreases d
  {
    if d == 0 {
      assert Front(t.calls + [x]) == t.calls;
    } else {
      MapAppend(Last(t.calls), d - 1, x, f);
      var grown := Append(Last(t.calls), d - 1, x);
      assert Front(Front(t.calls) + [grown]) == Front(t.calls);
      assert Front(MapAll(t.calls, f)) == MapAll(Front(t.calls), f);
    }
  }

  lemma {:induction false} MapRelabel<S, T>(t: Tree<S>, d: nat, item: S, f: S -> T)
    requires Reaches(t, d)
    ensures Reaches(Map(t, f), d) && ItemAt(Map(t, f), d) == f(ItemAt(t, d))
    ensures Map(Relabel(t, d, item), f) == Relabel(Map(t, f), d, f(item))
    decreases d
  {
    if d > 0 {
      MapRelabel(Last(t.calls), d - 1, item, f);
      var changed := Relabel(Last(t.calls), d - 1, item);
      assert Front(Front(t.calls) + [changed]) == Front(t.calls);
      assert Front(MapAll(t.calls, f)) == MapAll(Front(t.calls), f);
    }
  }

  /** Relabelling a node just appended. */
  lemma {:induction false} RelabelAppended<T>(t: Tree<T>, d: nat, x: Tree<T>, item: T)
    requires Reaches(t, d)
    ensures Reaches(Append(t, d, x), d + 1)
    ensures Relabel(Append(t, d, x), d + 1, item) == Append(t, d, Node(item, x.calls))
    decreases d
  {
    AppendReaches(t, d, x);
    if d == 0 {
      assert Front(t.calls + [x]) == t.calls;
    } else {
      RelabelAppended(Last(t.calls), d - 1, x, item);
      assert Front(Front(t.calls) + [Append(Last(t.calls), d - 1, x)]) == Front(t.calls);
    }
  }
}

/** Call events on one thread and the tree of calls they build. */
module CallForests {
  import opened CallTrees

  /** Wall and cpu clock; a call whose leave times are not set has zero there. */
  datatype Stamp = Stamp(wall: real, cpu: real) {
    predicate Unset() {
      wall == 0.0 || cpu == 0.0
    }
  }

  const UNSET := Stamp(0.0, 0.0)

  datatype Event = Enter(funcId: int, now: Stamp) | Leave(now: Stamp)

  datatype Call = Call(funcId: int, enter: Stamp, leave: Stamp)

  datatype Shape = NoShape | Shape(root: Tree<Call>, active: nat)

  ghost predicate ShapeValid(s: Shape) {
    s.Shape? ==> Reaches(s.root, s.active)
  }

  /** Entering makes a new last child of the active call; leaving stamps the active call and makes its
      caller active, except that the root stays active. */
  ghost function Next(s: Shape, e: Event): (r: Shape)
    requires ShapeValid(s)
    ensures ShapeValid(r)
  {
    match e
    case Enter(f, now) =>
      var leaf := Node(Call(f, now, UNSET), []);
      if s.NoShape? then Shape(leaf, 0)
      else
        AppendReaches(s.root, s.active, leaf);
        Shape(Append(s.root, s.active, leaf), s.active + 1)
    case Leave(now) =>
      if s.NoShape? then s
      else
        RelabelReaches(s.root, s.active, ItemAt(s.root, s.active).(leave := now));
        ReachesLess(s.root, s.active, if s.active == 0 then 0 else s.active - 1);
        var left := Relabel(s.root, s.active, ItemAt(s.root, s.active).(leave := now));
        Shape(left, if s.active == 0 then 0 else s.active - 1)
  }

  ghost function Play(s: Shape, events: seq<Event>): (r: Shape)
    requires ShapeValid(s)
    ensures ShapeValid(r)
  {
    if events == [] then s else Next(Play(s, Front(events)), Last(events))
  }

  /** The events of one call: enter, the calls it makes, leave. */
  function Events(t: Tree<Call>): seq<Event> {
    [Enter(t.item.funcId, t.item.enter)] + EventsAll(t.calls) + [Leave(t.item.leave)]
  }

  function EventsAll(ts: seq<Tree<Call>>): seq<Event> {
    if ts == [] then [] else EventsAll(Front(ts)) + Events(Last(ts))
  }

  lemma {:induction false} PlayConcat(s: Shape, a: seq<Event>, b: seq<Event>)
    requires ShapeValid(s)
    ensures Play(s, a + b) == Play(Play(s, a), b)
  {
    if b == [] {
      assert a + b == a;
    } else {
      assert Front(a + b) == a + Front(b);
      PlayConcat(s, a, Front(b));
    }
  }

  /** A call played below the active one becomes its next child, and the active call is active again. */
  lemma {:induction false} PlayCall(root: Tree<Call>, d: nat, t: Tree<Call>)
    requires Reaches(root, d)
    ensures Play(Shape(root, d), Events(t)) == Shape(Append(root, d, t), d)
    decreases t
  {
    var s := Shape(root, d);
    var open := t.item.(leave := UNSET);
    var enter, leave := Enter(t.item.funcId, t.item.enter), Leave(t.item.leave);
    EnterShape(root, d, enter);
    LeaveShape(root, d, open, t);
    AppendReaches(root, d, Node(open, []));
    AppendTwice(root, d, open, t.calls);
    hide Next, Append, AppendAll, Play, Reaches;
    PlayOne(s, enter);
    PlayConcat(s, [enter], EventsAll(t.calls));
    PlayCalls(Append(root, d, Node(open, [])), d + 1, t.calls);
    PlayConcat(s, [enter] + EventsAll(t.calls), [leave]);
    PlayOne(Shape(Append(root, d, Node(open, t.calls)), d + 1), leave);
  }

  lemma EnterShape(root: Tree<Call>, d: nat, e: Event)
    requires Reaches(root, d) && e.Enter?
    ensures Next(Shape(root, d), e) == Shape(Append(root, d, Node(Call(e.funcId, e.now, UNSET), [])), d + 1)
  {
  }

  /** Leaving a call just made with its calls. */
  lemma LeaveShape(root: Tree<Call>, d: nat, open: Call, t: Tree<Call>)
    requires Reaches(root, d) && open == t.item.(leave := UNSET)
    ensures ShapeValid(Shape(Append(root, d, Node(open, t.calls)), d + 1))
    ensures Next(Shape(Append(root, d, Node(open, t.calls)), d + 1), Leave(t.item.leave)) ==
            Shape(Append(root, d, t), d)
    ensures Reaches(Append(root, d, t), d)
  {
    AppendReaches(root, d, Node(open, t.calls));
    AppendReaches(root, d, t);
    RelabelAppended(root, d, Node(open, t.calls), t.item);
    hide Append, Reaches;
  }

  lemma PlayOne(s: Shape, e: Event)
    requires ShapeValid(s)
    ensures Play(s, [e]) == Next(s, e)
  {
  }

  /** The tree with several new last children. */
  ghost function AppendAll(root: Tree<Call>, d: nat, ts: seq<Tree<Call>>): (r: Tree<Call>)
    requires Reaches(root, d)
    ensures Reaches(r, d)
  {
    if ts == [] then root
    else
      AppendReaches(AppendAll(root, d, Front(ts)), d, Last(ts));
      Append(AppendAll(root, d, Front(ts)), d, Last(ts))
  }

  lemma {:induction false} PlayCalls(root: Tree<Call>, d: nat, ts: seq<Tree<Call>>)
    requires Reaches(root, d)
    ensures Play(Shape(root, d), EventsAll(ts)) == Shape(AppendAll(root, d, ts), d)
    decreases ts
  {
    if ts != [] {
      PlayCalls(root, d, Front(ts));
      PlayConcat(Shape(root, d), EventsAll(Front(ts)), Events(Last(ts)));
      PlayCall(AppendAll(root, d, Front(ts)), d, Last(ts));
    }
  }

  lemma {:induction false} AppendTwice(root: Tree<Call>, d: nat, item: Call, ts: seq<Tree<Call>>)
    requires Reaches(root, d)
    ensures Reaches(Append(root, d, Node(item, [])), d + 1)
    ensures AppendAll(Append(root, d, Node(item, [])), d + 1, ts) == Append(root, d, Node(item, ts))
    decreases |ts|
  {
    AppendReaches(root, d, Node(item, []));
    if ts != [] {
      AppendTwice(root, d, item, Front(ts));
      AppendBelow(root, d, Node(item, Front(ts)), Last(ts));
      assert Front(ts) + [Last(ts)] == ts;
    }
  }

  lemma {:induction false} AppendBelow(root: Tree<Call>, d: nat, x: Tree<Call>, y: Tree<Call>)
    requires Reaches(root, d)
    ensures Reaches(Append(root, d, x), d + 1)
    ensures Append(Append(root, d, x), d + 1, y) == Append(root, d, Node(x.item, x.calls + [y]))
    decreases d
  {
    AppendReaches(root, d, x);
    if d == 0 {
      assert Front(root.calls + [x]) == root.calls;
    } else {
      AppendBelow(Last(root.calls), d - 1, x, y);
      assert Front(Front(root.calls) + [Append(Last(root.calls), d - 1, x)]) == Front(root.calls);
    }
  }

  /** Playing the calls t1, ..., tk one after the other builds t1 with t2, ..., tk as further children
      of its root, in order: the root is never left. */
  lemma ForestBuildsOneTree(ts: seq<Tree<Call>>)
    requires ts != []
    ensures Play(NoShape, EventsAll(ts)) == Shape(Node(ts[0].item, ts[0].calls + ts[1..]), 0)
    decreases |ts|
  {
    if |ts| == 1 {
      FirstCall(ts[0]);
      OneCall(ts);
    } else {
      var front, last := Front(ts), Last(ts);
      ForestBuildsOneTree(front);
      assert front[0] == ts[0];
      CallAdded(ts);
      hide Play, Events, EventsAll, Append;
      PlayConcat(NoShape, EventsAll(front), Events(last));
      PlayCall(Node(ts[0].item, ts[0].calls + front[1..]), 0, last);
    }
  }

  lemma OneCall(ts: seq<Tree<Call>>)
    requires |ts| == 1
    ensures EventsAll(ts) == Events(ts[0]) && Node(ts[0].item, ts[0].calls + ts[1..]) == ts[0]
  {
    hide Events;
    assert Front(ts) == [] && EventsAll([]) == [];
    assert [] + Events(ts[0]) == Events(ts[0]) && ts[0].calls + ts[1..] == ts[0].calls;
  }

  lemma CallAdded(ts: seq<Tree<Call>>)
    requires |ts| > 1
    ensures var root := Node(ts[0].item, ts[0].calls + Front(ts)[1..]);
            && EventsAll(ts) == EventsAll(Front(ts)) + Events(Last(ts)) && Reaches(root, 0)
            && Append(root, 0, Last(ts)) == Node(ts[0].item, ts[0].calls + ts[1..])
  {
    hide Events;
    var root := Node(ts[0].item, ts[0].calls + Front(ts)[1..]);
    assert Append(root, 0, Last(ts)) == Node(ts[0].item, ts[0].calls + Front(ts)[1..] + [Last(ts)]);
    RestOfFront(ts[0].calls, ts);
    hide Append, EventsAll;
    assert EventsAll(ts) == EventsAll(Front(ts)) + Events(Last(ts)) by {
      EventsOfLast(ts);
    }
  }

  lemma RestOfFront<T>(c: seq<T>, ts: seq<T>)
    requires |ts| > 1
    ensures c + Front(ts)[1..] + [Last(ts)] == c + ts[1..]
  {
  }

  lemma EventsOfLast(ts: seq<Tree<Call>>)
    requires ts != []
    ensures EventsAll(ts) == EventsAll(Front(ts)) + Events(Last(ts))
  {
  }

  lemma FirstCall(t: Tree<Call>)
    ensures Play(NoShape, Events(t)) == Shape(t, 0)
  {
    var open := t.item.(leave := UNSET);
    var enter, leave := Enter(t.item.funcId, t.item.enter), Leave(t.item.leave);
    PlayOne(NoShape, enter);
    PlayConcat(NoShape, [enter], EventsAll(t.calls));
    PlayCalls(Node(open, []), 0, t.calls);
    AppendAllAtRoot(open, t.calls);
    PlayConcat(NoShape, [enter] + EventsAll(t.calls), [leave]);
    PlayOne(Shape(Node(open, t.calls), 0), leave);
  }

  lemma {:induction false} AppendAllAtRoot(item: Call, ts: seq<Tree<Call>>)
    ensures AppendAll(Node(item, []), 0, ts) == Node(item, ts)
    decreases |ts|
  {
    if ts != [] {
      AppendAllAtRoot(item, Front(ts));
      assert Front(ts) + [Last(ts)] == ts;
    }
  }
}
