/** The order in which a sorted map is walked. */
module SortedMaps {

  predicate Ascending(s: seq<int>) {
    forall i, j :: 0 <= i < j < |s| ==> s[i] < s[j]
  }

  predicate IsLeast(k: int, keys: set<int>) {
    k in keys && forall j :: j in keys ==> k <= j
  }

  lemma HasElement(keys: set<int>)
    ensures keys == {} || exists a :: a in keys
  {
    if forall a :: a !in keys {
      assert keys == {};
    }
  }

  lemma {:induction false} LeastExists(keys: set<int>)
    requires keys != {}
    ensures exists k :: IsLeast(k, keys)
  {
    HasElement(keys);
    var a :| a in keys;
    var others := keys - {a};
    assert forall j :: j in keys ==> j == a || j in others;
    if others == {} {
      assert IsLeast(a, keys);
    } else {
      LeastExists(others);
      var k :| IsLeast(k, others);
      assert IsLeast(if a < k then a else k, keys);
    }
  }

  function Sorted(keys: set<int>): (s: seq<int>)
    ensures IsSorted(s, keys)
  {
    if keys == {} then []
    else
      LeastExists(keys);
      var k :| IsLeast(k, keys);
      var rest := Sorted(keys - {k});
      LeastFirst(k, rest, keys);
      [k] + rest
  }

  /** The elements of the set, in ascending order. */
  predicate IsSorted(s: seq<int>, keys: set<int>) {
    && Ascending(s)
    && (forall i :: 0 <= i < |s| ==> s[i] in keys)
    && (forall k :: k in keys ==> k in s)
  }

  lemma LeastFirst(k: int, rest: seq<int>, keys: set<int>)
    requires IsLeast(k, keys) && IsSorted(rest, keys - {k})
    ensures IsSorted([k] + rest, keys)
  {
  }

  lemma SortedElements(s: seq<int>, keys: set<int>)
    requires IsSorted(s, keys)
    ensures (set i | 0 <= i < |s| :: s[i]) == keys
  {
    forall k | k in keys ensures k in set i | 0 <= i < |s| :: s[i] {
      assert k in s;
    }
  }

  /** There is one ascending order. */
  lemma {:induction false} SortedUnique(a: seq<int>, b: seq<int>, keys: set<int>)
    requires IsSorted(a, keys) && IsSorted(b, keys)
    ensures a == b
    decreases |a|
  {
    SortedEmpty(a, keys);
    SortedEmpty(b, keys);
    if keys != {} {
      SortedRest(a, keys);
      SortedRest(b, keys);
      SortedUnique(a[1..], b[1..], keys - {a[0]});
      assert a == [a[0]] + a[1..] && b == [b[0]] + b[1..];
    }
  }

  lemma SortedEmpty(s: seq<int>, keys: set<int>)
    requires IsSorted(s, keys)
    ensures s == [] <==> keys == {}
  {
    HasElement(keys);
    if s != [] {
      assert s[0] in keys;
    }
  }

  lemma SortedRest(s: seq<int>, keys: set<int>)
    requires IsSorted(s, keys) && s != []
    ensures IsLeast(s[0], keys) && IsSorted(s[1..], keys - {s[0]})
  {
  }
}
