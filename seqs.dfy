/** List operations the pipeline uses: comprehension filters, first-occurrence
    positions and the order-keeping de-duplication of pandas' `unique()`. */
module Seqs {

  /** No element occurs twice. */
  predicate NoDup<T(==)>(s: seq<T>) {
    forall i, j :: 0 <= i < j < |s| ==> s[i] != s[j]
  }

  /** Python's `[x for x in s if p(x)]`. */
  function Filter<T>(s: seq<T>, p: T -> bool): (r: seq<T>)
    ensures |r| <= |s|
    ensures forall i :: 0 <= i < |r| ==> r[i] in s && p(r[i])
    ensures forall i :: 0 <= i < |s| && p(s[i]) ==> s[i] in r
  {
    if s == [] then []
    else (if p(s[0]) then [s[0]] else []) + Filter(s[1..], p)
  }

  /** Filtering keeps the original order: it distributes over concatenation. */
  lemma {:induction false} FilterAppend<T>(a: seq<T>, b: seq<T>, p: T -> bool)
    ensures Filter(a + b, p) == Filter(a, p) + Filter(b, p)
  {
    if a == [] {
      assert a + b == b;
    } else {
      assert (a + b)[1..] == a[1..] + b;
      FilterAppend(a[1..], b, p);
    }
  }

  /** The position of the first occurrence of `x` in `s`, or `|s|` when there is none. */
  function IndexOf<T(==)>(s: seq<T>, x: T): (r: nat)
    ensures r <= |s|
    ensures r < |s| <==> x in s
    ensures r < |s| ==> s[r] == x
    ensures forall j :: 0 <= j < r ==> s[j] != x
  {
    if s == [] then 0
    else if s[0] == x then 0
    else 1 + IndexOf(s[1..], x)
  }

  /** A first occurrence inside a prefix is the first occurrence in the whole sequence. */
  lemma IndexOfPrefix<T>(s: seq<T>, n: nat, x: T)
    requires n <= |s| && x in s[..n]
    ensures IndexOf(s, x) == IndexOf(s[..n], x)
  {
    var k := IndexOf(s[..n], x);
    assert s[k] == x;
    assert forall j :: 0 <= j < k ==> s[j] == s[..n][j];
    // both are the least position holding x
    var m := IndexOf(s, x);
    assert m <= k;
    assert m < n && s[..n][m] == x;
  }

  /** pandas' `unique()`: the distinct elements of `s`, in order of first occurrence. */
  function Distinct<T(==)>(s: seq<T>): seq<T> {
    if s == [] then []
    else
      var d := Distinct(s[..|s| - 1]);
      if s[|s| - 1] in d then d else d + [s[|s| - 1]]
  }

  /** `Distinct` lists each element of `s` exactly once, and nothing else,
      ordered by first occurrence in `s`. */
  lemma {:induction false} DistinctSpec<T>(s: seq<T>)
    ensures NoDup(Distinct(s))
    ensures forall i :: 0 <= i < |Distinct(s)| ==> Distinct(s)[i] in s
    ensures forall i :: 0 <= i < |s| ==> s[i] in Distinct(s)
    ensures forall i, j :: 0 <= i < j < |Distinct(s)| ==> IndexOf(s, Distinct(s)[i]) < IndexOf(s, Distinct(s)[j])
  {
    if s != [] {
      var n := |s| - 1;
      DistinctSpec(s[..n]);
      var d := Distinct(s[..n]);
      assert forall i :: 0 <= i < n ==> s[..n][i] == s[i];
      assert DistinctOfInit(s, d);
      DistinctStep(s, d);
      assert Distinct(s) == if s[n] in d then d else d + [s[n]];
    }
  }

  /** What `Distinct` of all but the last element of `s` provides. */
  ghost predicate DistinctOfInit<T>(s: seq<T>, d: seq<T>)
    requires |s| > 0
  {
    && NoDup(d)
    && (forall i :: 0 <= i < |d| ==> d[i] in s[..|s| - 1])
    && (forall i :: 0 <= i < |s| - 1 ==> s[i] in d)
    && (forall i, j :: 0 <= i < j < |d| ==> IndexOf(s[..|s| - 1], d[i]) < IndexOf(s[..|s| - 1], d[j]))
  }

  /** A first occurrence before the last element is the same in all of `s`. */
  lemma InitPositions<T>(s: seq<T>, d: seq<T>)
    requires |s| > 0 && DistinctOfInit(s, d)
    ensures forall i :: 0 <= i < |d| ==> IndexOf(s, d[i]) == IndexOf(s[..|s| - 1], d[i]) < |s| - 1
  {
    forall i | 0 <= i < |d| ensures IndexOf(s, d[i]) == IndexOf(s[..|s| - 1], d[i]) {
      IndexOfPrefix(s, |s| - 1, d[i]);
    }
  }

  /** One step of `Distinct`, when the last element was seen before. */
  lemma DistinctStep<T>(s: seq<T>, d: seq<T>)
    requires |s| > 0 && DistinctOfInit(s, d)
    ensures var r := if s[|s| - 1] in d then d else d + [s[|s| - 1]];
            && NoDup(r)
            && (forall i :: 0 <= i < |r| ==> r[i] in s)
            && (forall i :: 0 <= i < |s| ==> s[i] in r)
            && (forall i, j :: 0 <= i < j < |r| ==> IndexOf(s, r[i]) < IndexOf(s, r[j]))
  {
    var n := |s| - 1;
    var x := s[n];
    assert s == s[..n] + [x];
    InitPositions(s, d);
    if x !in d {
      DistinctExtend(s, d);
    }
  }

  /** One step of `Distinct`, when the last element is new. */
  lemma DistinctExtend<T>(s: seq<T>, d: seq<T>)
    requires |s| > 0 && DistinctOfInit(s, d) && s[|s| - 1] !in d
    requires forall i :: 0 <= i < |d| ==> IndexOf(s, d[i]) == IndexOf(s[..|s| - 1], d[i]) < |s| - 1
    ensures var r := d + [s[|s| - 1]];
            && NoDup(r)
            && (forall i, j :: 0 <= i < j < |r| ==> IndexOf(s, r[i]) < IndexOf(s, r[j]))
  {
    var n := |s| - 1;
    var x := s[n];
    assert IndexOf(s, x) == n;
    var r := d + [x];
    assert forall i :: 0 <= i < |d| ==> r[i] == d[i];
  }
}
