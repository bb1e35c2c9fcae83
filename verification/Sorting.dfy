/** The stable sort the services apply to fetched records, by a two-part key. */
module Sorting {

  predicate AtMost(a: (nat, nat), b: (nat, nat)) {
    a.0 < b.0 || (a.0 == b.0 && a.1 <= b.1)
  }

  ghost predicate Ordered<T>(s: seq<T>, key: T -> (nat, nat)) {
    forall i, j :: 0 <= i < j < |s| ==> AtMost(key(s[i]), key(s[j]))
  }

  ghost predicate DistinctKeys<T>(s: seq<T>, key: T -> (nat, nat)) {
    forall i, j :: 0 <= i < j < |s| ==> key(s[i]) != key(s[j])
  }

  /** Behind every element that may precede it. */
  function Insert<T>(s: seq<T>, x: T, key: T -> (nat, nat)): seq<T> {
    if s == [] || AtMost(key(s[|s| - 1]), key(x)) then s + [x]
    else Insert(s[..|s| - 1], x, key) + [s[|s| - 1]]
  }

  function Sort<T>(s: seq<T>, key: T -> (nat, nat)): seq<T> {
    if s == [] then [] else Insert(Sort(s[..|s| - 1], key), s[|s| - 1], key)
  }

  lemma {:induction false} InsertKeeps<T>(s: seq<T>, x: T, key: T -> (nat, nat))
    ensures multiset(Insert(s, x, key)) == multiset(s) + multiset{x} && |Insert(s, x, key)| == |s| + 1
    decreases |s|
  {
    if s != [] && !AtMost(key(s[|s| - 1]), key(x)) {
      InsertKeeps(s[..|s| - 1], x, key);
      assert s == s[..|s| - 1] + [s[|s| - 1]];
    }
  }

  lemma {:induction false} SortKeeps<T>(s: seq<T>, key: T -> (nat, nat))
    ensures multiset(Sort(s, key)) == multiset(s) && |Sort(s, key)| == |s|
    decreases |s|
  {
    if s != [] {
      SortKeeps(s[..|s| - 1], key);
      InsertKeeps(Sort(s[..|s| - 1], key), s[|s| - 1], key);
      assert s == s[..|s| - 1] + [s[|s| - 1]];
    }
  }

  lemma {:induction false} InsertOrders<T>(s: seq<T>, x: T, key: T -> (nat, nat))
    requires Ordered(s, key)
    ensures Ordered(Insert(s, x, key), key)
    decreases |s|
  {
    if s != [] && !AtMost(key(s[|s| - 1]), key(x)) {
      var front, last := s[..|s| - 1], s[|s| - 1];
      InsertOrders(front, x, key);
      InsertKeeps(front, x, key);
      forall i | 0 <= i < |front| + 1
        ensures AtMost(key(Insert(front, x, key)[i]), key(last))
      {
        var y := Insert(front, x, key)[i];
        assert y in multiset(Insert(front, x, key));
        assert y == x || y in front;
      }
    }
  }

  lemma {:induction false} SortOrders<T>(s: seq<T>, key: T -> (nat, nat))
    ensures Ordered(Sort(s, key), key)
    decreases |s|
  {
    if s != [] {
      SortOrders(s[..|s| - 1], key);
      InsertOrders(Sort(s[..|s| - 1], key), s[|s| - 1], key);
    }
  }

  lemma LastIsGreatest<T>(s: seq<T>, x: T, key: T -> (nat, nat))
    requires Ordered(s, key) && x in multiset(s)
    ensures s != [] && AtMost(key(x), key(s[|s| - 1]))
  {
    var i :| 0 <= i < |s| && s[i] == x;
    if i < |s| - 1 {
      assert AtMost(key(s[i]), key(s[|s| - 1]));
    }
  }

  lemma KeyDecides<T>(s: seq<T>, x: T, key: T -> (nat, nat))
    requires DistinctKeys(s, key) && x in multiset(s) && s != [] && key(x) == key(s[|s| - 1])
    ensures x == s[|s| - 1]
  {
    var i :| 0 <= i < |s| && s[i] == x;
  }

  lemma MultisetOfFront<T>(s: seq<T>)
    requires s != []
    ensures multiset(s) == multiset(s[..|s| - 1]) + multiset{s[|s| - 1]} && |multiset(s)| == |s|
  {
    assert s == s[..|s| - 1] + [s[|s| - 1]];
  }

  /** Two orderings of the same records agree when no two records share a key. */
  lemma {:induction false} OrderIsUnique<T>(a: seq<T>, b: seq<T>, key: T -> (nat, nat))
    requires Ordered(a, key) && Ordered(b, key) && DistinctKeys(b, key) && multiset(a) == multiset(b)
    ensures a == b
    decreases |a|
  {
    if a == [] {
      if b != [] {
        MultisetOfFront(b);
      }
    } else {
      var x := a[|a| - 1];
      MultisetOfFront(a);
      LastIsGreatest(b, x, key);
      var y := b[|b| - 1];
      MultisetOfFront(b);
      LastIsGreatest(a, y, key);
      KeyDecides(b, x, key);
      FrontsAgree(a, b);
      FrontIsOrdered(a, b, key);
      hide Ordered, DistinctKeys, AtMost;
      OrderIsUnique(a[..|a| - 1], b[..|b| - 1], key);
      assert a == a[..|a| - 1] + [x] && b == b[..|b| - 1] + [x];
    }
  }

  lemma FrontsAgree<T>(a: seq<T>, b: seq<T>)
    requires a != [] && b != [] && a[|a| - 1] == b[|b| - 1] && multiset(a) == multiset(b)
    ensures multiset(a[..|a| - 1]) == multiset(b[..|b| - 1])
  {
    MultisetOfFront(a);
    MultisetOfFront(b);
    assert multiset(a[..|a| - 1]) == multiset(a) - multiset{a[|a| - 1]};
    assert multiset(b[..|b| - 1]) == multiset(b) - multiset{b[|b| - 1]};
  }

  lemma FrontIsOrdered<T>(a: seq<T>, b: seq<T>, key: T -> (nat, nat))
    requires Ordered(a, key) && Ordered(b, key) && DistinctKeys(b, key) && a != [] && b != []
    ensures Ordered(a[..|a| - 1], key) && Ordered(b[..|b| - 1], key) && DistinctKeys(b[..|b| - 1], key)
  {
  }

  /** Sorting records with distinct keys undoes whatever order they arrived in. */
  lemma SortRestores<T>(arrived: seq<T>, ordered: seq<T>, key: T -> (nat, nat))
    requires Ordered(ordered, key) && DistinctKeys(ordered, key) && multiset(arrived) == multiset(ordered)
    ensures Sort(arrived, key) == ordered
  {
    SortKeeps(arrived, key);
    SortOrders(arrived, key);
    OrderIsUnique(Sort(arrived, key), ordered, key);
  }

  /** Sorting by one key leaves no two records with the same other key. */
  lemma {:induction false} InsertKeepsDistinct<T>(s: seq<T>, x: T, key: T -> (nat, nat), id: T -> (nat, nat))
    requires DistinctKeys(s, id) && forall y :: y in s ==> id(y) != id(x)
    ensures DistinctKeys(Insert(s, x, key), id)
    decreases |s|
  {
    if s != [] && !AtMost(key(s[|s| - 1]), key(x)) {
      var front, last := s[..|s| - 1], s[|s| - 1];
      InsertKeepsDistinct(front, x, key, id);
      InsertKeeps(front, x, key);
      forall i | 0 <= i < |front| + 1
        ensures id(Insert(front, x, key)[i]) != id(last)
      {
        var y := Insert(front, x, key)[i];
        assert y in multiset(Insert(front, x, key));
        assert y == x || y in front;
      }
    }
  }

  lemma {:induction false} SortKeepsDistinct<T>(s: seq<T>, key: T -> (nat, nat), id: T -> (nat, nat))
    requires DistinctKeys(s, id)
    ensures DistinctKeys(Sort(s, key), id)
    decreases |s|
  {
    if s != [] {
      var front, last := s[..|s| - 1], s[|s| - 1];
      SortKeepsDistinct(front, key, id);
      SortKeeps(front, key);
      forall y | y in Sort(front, key)
        ensures id(y) != id(last)
      {
        assert y in multiset(Sort(front, key));
        assert y in front;
      }
      InsertKeepsDistinct(Sort(front, key), last, key, id);
    }
  }
}
