/** Insertion sort by a caller-supplied strict total order. It stands for the
    two orderings the pipeline relies on: the ascending key order of
    `groupby` and the ranking of `Counter.most_common`. */
module Sorting {
  import opened Seqs

  /** Every earlier element is `less` than every later one. */
  ghost predicate SortedBy<T>(s: seq<T>, less: (T, T) -> bool) {
    forall i, j :: 0 <= i < j < |s| ==> less(s[i], s[j])
  }

  /** `less` is a strict total order on the elements of `xs`. */
  ghost predicate StrictTotalOn<T>(xs: set<T>, less: (T, T) -> bool) {
    && (forall a :: a in xs ==> !less(a, a))
    && (forall a, b :: a in xs && b in xs && a != b ==> less(a, b) || less(b, a))
    && (forall a, b, c :: a in xs && b in xs && c in xs && less(a, b) && less(b, c) ==> less(a, c))
  }

  /** `x` placed in front of the first element it is `less` than. */
  function Insert<T(==)>(x: T, s: seq<T>, less: (T, T) -> bool): (r: seq<T>)
    ensures multiset(r) == multiset(s) + multiset{x}
  {
    if s == [] then [x]
    else if less(x, s[0]) then [x] + s
    else
      assert s == [s[0]] + s[1..];
      [s[0]] + Insert(x, s[1..], less)
  }

  function SortBy<T(==)>(s: seq<T>, less: (T, T) -> bool): (r: seq<T>)
    ensures multiset(r) == multiset(s)
  {
    if s == [] then []
    else
      assert s == [s[0]] + s[1..];
      Insert(s[0], SortBy(s[1..], less), less)
  }

  lemma {:induction false} InsertSorted<T>(x: T, s: seq<T>, less: (T, T) -> bool, xs: set<T>)
    requires StrictTotalOn(xs, less)
    requires x in xs && forall y :: y in s ==> y in xs
    requires x !in s && SortedBy(s, less)
    ensures SortedBy(Insert(x, s, less), less)
  {
    if s != [] && !less(x, s[0]) {
      assert less(s[0], x);
      InsertSorted(x, s[1..], less, xs);
      var t := Insert(x, s[1..], less);
      forall y | y in t
        ensures less(s[0], y)
      {
        assert y in multiset(t);
        if y != x {
          assert y in s[1..];
        }
      }
    }
  }

  /** With a strict total order on elements that occur once, `SortBy` sorts. */
  lemma {:induction false} SortByOrders<T>(s: seq<T>, less: (T, T) -> bool, xs: set<T>)
    requires StrictTotalOn(xs, less)
    requires NoDup(s) && forall y :: y in s ==> y in xs
    ensures SortedBy(SortBy(s, less), less)
  {
    if s != [] {
      var tail := s[1..];
      assert NoDup(tail) by {
        assert forall i :: 0 <= i < |tail| ==> tail[i] == s[i + 1];
      }
      assert s[0] !in tail;
      SortByOrders(tail, less, xs);
      var t := SortBy(tail, less);
      assert s[0] in s;
      assert s[0] !in multiset(tail);
      assert s[0] !in t;
      forall y | y in t ensures y in xs {
        assert y in multiset(t);
        assert y in multiset(tail);
        assert y in tail;
        var k :| 0 <= k < |tail| && tail[k] == y;
        assert s[k + 1] == y;
      }
      InsertSorted(s[0], t, less, xs);
    }
  }

  /** A list sorted by an irreflexive order has no repeated element. */
  lemma SortedNoDup<T>(s: seq<T>, less: (T, T) -> bool, xs: set<T>)
    requires StrictTotalOn(xs, less)
    requires SortedBy(s, less) && forall y :: y in s ==> y in xs
    ensures NoDup(s)
  {
    forall i, j | 0 <= i < j < |s| ensures s[i] != s[j] {
      assert less(s[i], s[j]);
      assert s[i] in xs;
    }
  }

  /** With a strict total order on elements that occur once, `SortBy` sorts
      and the result holds no element twice. */
  lemma SortBySorted<T>(s: seq<T>, less: (T, T) -> bool, xs: set<T>)
    requires StrictTotalOn(xs, less)
    requires NoDup(s) && forall y :: y in s ==> y in xs
    ensures SortedBy(SortBy(s, less), less)
    ensures NoDup(SortBy(s, less))
  {
    SortByOrders(s, less, xs);
    var r := SortBy(s, less);
    forall y | y in r ensures y in xs {
      assert y in multiset(r);
      assert y in multiset(s);
      assert y in s;
    }
    SortedNoDup(r, less, xs);
  }
}
