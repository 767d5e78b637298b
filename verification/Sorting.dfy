/** Stable sorting by a strict comparison, and the uniqueness of strictly ordered sequences. */
module Sorting {
  import opened Base

  ghost predicate Transitive<T(!new)>(before: (T, T) -> bool) {
    forall a, b, c :: before(a, b) && before(b, c) ==> before(a, c)
  }

  ghost predicate Asymmetric<T(!new)>(before: (T, T) -> bool) {
    forall a, b :: before(a, b) ==> !before(b, a)
  }

  /** Every element relates to every later one; for a strict order this says that `s` is sorted without repeats. */
  ghost predicate Pairwise<T>(before: (T, T) -> bool, s: seq<T>) {
    forall i, j :: 0 <= i < j < |s| ==> before(s[i], s[j])
  }

  /** Two elements of such a sequence are the same or related one way or the other. */
  lemma PairwiseMembers<T(!new)>(before: (T, T) -> bool, s: seq<T>, x: T, y: T)
    requires Pairwise(before, s) && x in s && y in s
    ensures x == y || before(x, y) || before(y, x)
  {
    var i :| 0 <= i < |s| && s[i] == x;
    var j :| 0 <= j < |s| && s[j] == y;
    assert i < j ==> before(s[i], s[j]);
    assert j < i ==> before(s[j], s[i]);
  }

  /** Puts `x` ahead of the first element that does not have to precede it. */
  function Insert<T(!new)>(before: (T, T) -> bool, x: T, s: seq<T>): (r: seq<T>)
    ensures |r| == |s| + 1
    ensures forall y :: y in r <==> y == x || y in s
  {
    if s == [] || !before(s[0], x) then [x] + s else [s[0]] + Insert(before, x, s[1..])
  }

  /** A stable sort: ORDER BY of a query, and `list.sort` (also with `reverse=True`, which keeps ties in place). */
  function Sort<T(!new)>(before: (T, T) -> bool, s: seq<T>): (r: seq<T>)
    ensures |r| == |s|
    ensures forall y :: y in r <==> y in s
  {
    if s == [] then [] else Insert(before, s[0], Sort(before, s[1..]))
  }

  lemma {:induction false} InsertOrders<T(!new)>(before: (T, T) -> bool, fine: (T, T) -> bool, x: T, s: seq<T>)
    requires Transitive(fine) && Pairwise(fine, s)
    requires forall y :: y in s ==> if before(y, x) then fine(y, x) else fine(x, y)
    ensures Pairwise(fine, Insert(before, x, s))
  {
    if s == [] {
    } else if !before(s[0], x) {
      forall j | 0 <= j < |s| ensures fine(x, s[j]) {
        assert s[0] in s;
        if j > 0 { assert fine(s[0], s[j]); }
      }
    } else {
      InsertOrders(before, fine, x, s[1..]);
      var t := Insert(before, x, s[1..]);
      forall j | 0 <= j < |t| ensures fine(s[0], t[j]) {
        assert t[j] in t && s[0] in s;
        if t[j] != x {
          var k :| 0 <= k < |s[1..]| && s[1..][k] == t[j];
          assert s[k + 1] == t[j];
        }
      }
    }
  }

  /** Sorting by `before` gives the finer strict order `fine`, provided ties come in `fine` order already. */
  lemma {:induction false} SortOrders<T(!new)>(before: (T, T) -> bool, fine: (T, T) -> bool, s: seq<T>)
    requires Transitive(fine)
    requires forall a, b :: before(a, b) ==> fine(a, b)
    requires forall i, j :: 0 <= i < j < |s| && !before(s[j], s[i]) ==> fine(s[i], s[j])
    ensures Pairwise(fine, Sort(before, s))
  {
    if s != [] {
      var x, t := s[0], s[1..];
      forall i, j | 0 <= i < j < |t| && !before(t[j], t[i]) ensures fine(t[i], t[j]) {
        assert t[i] == s[i + 1] && t[j] == s[j + 1];
      }
      SortOrders(before, fine, t);
      forall y | y in Sort(before, t) ensures if before(y, x) then fine(y, x) else fine(x, y) {
        assert y in t;
        var k :| 0 <= k < |t| && t[k] == y;
        assert s[k + 1] == y && s[0] == x;
      }
      InsertOrders(before, fine, x, Sort(before, t));
    }
  }

  /** A set of elements has at most one strictly ordered listing. */
  lemma {:induction false} SortedUnique<T(!new)>(before: (T, T) -> bool, a: seq<T>, b: seq<T>)
    requires Asymmetric(before) && Pairwise(before, a) && Pairwise(before, b)
    requires forall x :: x in a <==> x in b
    ensures a == b
  {
    assert b == [] || b[0] in b;
    if a != [] {
      assert a[0] in b;
      HeadFirst(before, a, b[0]);
      HeadFirst(before, b, a[0]);
      forall x ensures x in a[1..] <==> x in b[1..] {
        TailWithout(before, a, x);
        TailWithout(before, b, x);
      }
      SortedUnique(before, a[1..], b[1..]);
      assert a == [a[0]] + a[1..] && b == [b[0]] + b[1..];
    }
  }

  lemma HeadFirst<T(!new)>(before: (T, T) -> bool, s: seq<T>, x: T)
    requires Pairwise(before, s) && x in s
    ensures x == s[0] || before(s[0], x)
  {
    var k :| 0 <= k < |s| && s[k] == x;
  }

  lemma TailWithout<T(!new)>(before: (T, T) -> bool, s: seq<T>, x: T)
    requires Asymmetric(before) && Pairwise(before, s) && s != []
    ensures x in s[1..] <==> x in s && x != s[0]
  {
    assert s == [s[0]] + s[1..];
    if x in s[1..] {
      var k :| 0 <= k < |s[1..]| && s[1..][k] == x;
      assert before(s[0], s[k + 1]);
    }
  }

  lemma {:induction false} FilterPairwise<T(!new)>(rel: (T, T) -> bool, p: T -> bool, s: seq<T>)
    requires Pairwise(rel, s)
    ensures Pairwise(rel, Filter(p, s))
  {
    if s != [] {
      var t, x := s[..|s| - 1], s[|s| - 1];
      FilterPairwise(rel, p, t);
      var f := Filter(p, t);
      forall i | 0 <= i < |f| ensures rel(f[i], x) {
        assert f[i] in t;
        var k :| 0 <= k < |t| && t[k] == f[i];
        assert rel(s[k], s[|s| - 1]);
      }
    }
  }
}
