/**
 * Header normalisation and the resolution of spreadsheet headers onto the
 * three required field names: record type (구분), content (내용) and raw
 * category (카테고리).
 */
module Columns {
  import opened Wrappers
  import opened Text
  import opened Seqs

  /** The required logical columns. The source holds them in a set; the model
      walks them in this order, and `ResolveOrderFree` shows the order does
      not matter. */
  const Required: seq<string> := ["구분", "내용", "카테고리"]

  /** A header name with all whitespace (U+00A0 included) removed; "" for a missing name. */
  function NormalizeCol(name: Option<string>): string {
    match name
    case None => ""
    case Some(s) => RemoveSpace(s)
  }

  /** The normalised form of an actual header. */
  function Key(header: string): string {
    NormalizeCol(Some(header))
  }

  /** Whitespace is removed wherever it stands: at any position, a
      whitespace character makes no difference to the key. */
  lemma {:induction false} KeyIgnoresSpace(a: string, c: char, b: string)
    requires IsSpace(c)
    ensures Key(a + [c] + b) == Key(a + b)
  {
    RemoveSpaceAppend(a + [c], b);
    RemoveSpaceAppend(a, [c]);
    RemoveSpaceAppend(a, b);
  }

  /** The non-breaking space U+00A0 is removed as well, wherever it stands. */
  lemma NonBreakingSpaceRemoved(a: string, b: string)
    ensures Key(a + ['\U{A0}'] + b) == Key(a + b)
  {
    KeyIgnoresSpace(a, '\U{A0}', b);
  }

  /** Every other character is kept, in its place among the rest: a
      non-whitespace character stands in the key between the keys of what
      precedes and what follows it. */
  lemma {:induction false} KeyKeepsOthers(a: string, c: char, b: string)
    requires !IsSpace(c)
    ensures Key(a + [c] + b) == Key(a) + [c] + Key(b)
  {
    RemoveSpaceAppend(a + [c], b);
    RemoveSpaceAppend(a, [c]);
    assert [c][1..] == [];
  }

  /** Every non-whitespace character is kept: a name without whitespace is its
      own key, and so normalising twice is normalising once. */
  lemma NormalizeColIdempotent(name: Option<string>)
    ensures NoSpace(NormalizeCol(name))
    ensures name.Some? && NoSpace(name.value) ==> NormalizeCol(name) == name.value
    ensures NormalizeCol(Some(NormalizeCol(name))) == NormalizeCol(name)
  {
    if name.Some? {
      RemoveSpaceNoSpace(name.value);
    }
    if name.Some? && NoSpace(name.value) {
      RemoveSpaceFixed(name.value);
    }
    RemoveSpaceFixed(NormalizeCol(name));
  }

  /** Each required name is already normalised, and the three are distinct. */
  lemma RequiredNormalized()
    ensures forall j :: 0 <= j < |Required| ==> Key(Required[j]) == Required[j]
    ensures forall j, k :: 0 <= j < k < |Required| ==> Required[j] != Required[k]
  {
    forall j | 0 <= j < |Required|
      ensures Key(Required[j]) == Required[j]
    {
      RemoveSpaceFixed(Required[j]);
    }
  }

  /** The position of the last header whose key is `k`, or -1 when there is none. */
  function LastIndex(cols: seq<string>, k: string): (r: int)
    ensures -1 <= r < |cols|
    ensures r >= 0 ==> Key(cols[r]) == k
  {
    if cols == [] then -1
    else if Key(cols[|cols| - 1]) == k then |cols| - 1
    else LastIndex(cols[..|cols| - 1], k)
  }

  /** No header after `LastIndex(cols, k)` has the key `k`; in particular
      `LastIndex` is -1 only when no header has it. */
  lemma {:induction false} LastIndexIsLast(cols: seq<string>, k: string)
    ensures forall j :: LastIndex(cols, k) < j < |cols| ==> Key(cols[j]) != k
  {
    if cols != [] && Key(cols[|cols| - 1]) != k {
      var n := |cols| - 1;
      LastIndexIsLast(cols[..n], k);
      assert forall j :: 0 <= j < n ==> cols[..n][j] == cols[j];
    }
  }

  /** `{normalize_col(c): c for c in cols}`: each key that some header has, to
      the LAST header having it. */
  function NormToActual(cols: seq<string>): (m: map<string, string>)
    ensures forall k :: k in m <==> LastIndex(cols, k) >= 0
    ensures forall k :: k in m ==> m[k] == cols[LastIndex(cols, k)] && Key(m[k]) == k
  {
    if cols == [] then map[]
    else
      var n := |cols| - 1;
      var m := NormToActual(cols[..n]);
      assert forall i :: 0 <= i < n ==> cols[..n][i] == cols[i];
      m[Key(cols[n]) := cols[n]]
  }

  /** The loop of `build_column_map` over `needs`: each name whose key some
      header has sends that key's header to the name. */
  function Resolve(n: map<string, string>, needs: seq<string>): map<string, string> {
    if needs == [] then map[]
    else
      var m := Resolve(n, needs[..|needs| - 1]);
      var key := Key(needs[|needs| - 1]);
      if key in n then m[n[key] := needs[|needs| - 1]] else m
  }

  /** One more round of the loop: the map so far, extended by the next name
      when its key has a header. */
  lemma ResolveStep(n: map<string, string>, needs: seq<string>, i: nat)
    requires i < |needs|
    ensures Resolve(n, needs[..i + 1])
            == if Key(needs[i]) in n then Resolve(n, needs[..i])[n[Key(needs[i])] := needs[i]]
               else Resolve(n, needs[..i])
  {
    assert needs[..i + 1][..i] == needs[..i];
  }

  /** The map `norm_to_actual` sends every key to a header having that key. */
  ghost predicate HeadersByKey(n: map<string, string>) {
    forall k :: k in n ==> Key(n[k]) == k
  }

  /** Each entry of the resolved map sends a header to the name whose key
      that header has. */
  lemma {:induction false} ResolveSources(n: map<string, string>, needs: seq<string>)
    ensures forall a :: a in Resolve(n, needs) ==>
              exists j :: 0 <= j < |needs| && Key(needs[j]) in n && a == n[Key(needs[j])]
                          && Resolve(n, needs)[a] == needs[j]
  {
    if needs != [] {
      var last := |needs| - 1;
      var init := needs[..last];
      ResolveSources(n, init);
      var m := Resolve(n, init);
      var key := Key(needs[last]);
      var r := Resolve(n, needs);
      forall a | a in r
        ensures exists j :: 0 <= j < |needs| && Key(needs[j]) in n && a == n[Key(needs[j])] && r[a] == needs[j]
      {
        if key in n && a == n[key] {
          assert Key(needs[last]) in n && a == n[Key(needs[last])] && r[a] == needs[last];
        } else {
          var j :| 0 <= j < last && Key(init[j]) in n && a == n[Key(init[j])] && m[a] == init[j];
          assert init[j] == needs[j];
        }
      }
    }
  }

  /** Names with distinct keys are resolved independently of each other:
      each name whose key is known gets its header. */
  lemma {:induction false} ResolveFinds(n: map<string, string>, needs: seq<string>)
    requires HeadersByKey(n)
    requires forall j, k :: 0 <= j < k < |needs| ==> Key(needs[j]) != Key(needs[k])
    ensures forall j :: 0 <= j < |needs| && Key(needs[j]) in n ==>
              n[Key(needs[j])] in Resolve(n, needs) && Resolve(n, needs)[n[Key(needs[j])]] == needs[j]
  {
    if needs != [] {
      var last := |needs| - 1;
      var init := needs[..last];
      assert forall j :: 0 <= j < last ==> init[j] == needs[j];
      ResolveFinds(n, init);
      var key := Key(needs[last]);
      var r := Resolve(n, needs);
      forall j | 0 <= j < last && Key(needs[j]) in n
        ensures n[Key(needs[j])] in r && r[n[Key(needs[j])]] == needs[j]
      {
        if key in n {
          assert Key(n[Key(needs[j])]) == Key(needs[j]) != key == Key(n[key]);
        }
      }
    }
  }

  /** There are no more entries than names. */
  lemma {:induction false} ResolveSize(n: map<string, string>, needs: seq<string>)
    ensures |Resolve(n, needs)| <= |needs|
  {
    if needs != [] {
      var last := |needs| - 1;
      ResolveSize(n, needs[..last]);
      var m := Resolve(n, needs[..last]);
      var key := Key(needs[last]);
      if key in n {
        var r := m[n[key] := needs[last]];
        assert r.Keys == m.Keys + {n[key]};
        assert |m.Keys + {n[key]}| <= |m.Keys| + |{n[key]}|;
      }
    }
  }

  /** The three facts above together. */
  lemma ResolveSpec(n: map<string, string>, needs: seq<string>)
    requires HeadersByKey(n)
    requires forall j, k :: 0 <= j < k < |needs| ==> Key(needs[j]) != Key(needs[k])
    ensures forall a :: a in Resolve(n, needs) ==>
              exists j :: 0 <= j < |needs| && Key(needs[j]) in n && a == n[Key(needs[j])]
                          && Resolve(n, needs)[a] == needs[j]
    ensures forall j :: 0 <= j < |needs| && Key(needs[j]) in n ==>
              n[Key(needs[j])] in Resolve(n, needs) && Resolve(n, needs)[n[Key(needs[j])]] == needs[j]
    ensures |Resolve(n, needs)| <= |needs|
  {
    ResolveSources(n, needs);
    ResolveFinds(n, needs);
    ResolveSize(n, needs);
  }

  /** The renaming `build_column_map` returns. Its entries are characterised
      by membership in `Required` alone, and `ResolveOrderFree` shows that the
      iteration order of the source's set does not affect it. */
  function ColumnMap(cols: seq<string>): map<string, string> {
    Resolve(NormToActual(cols), Required)
  }

  lemma ColumnMapResolves(cols: seq<string>)
    ensures forall a :: a in ColumnMap(cols) ==>
              exists j :: 0 <= j < |Required| && Key(Required[j]) in NormToActual(cols)
                          && a == NormToActual(cols)[Key(Required[j])] && ColumnMap(cols)[a] == Required[j]
    ensures forall j :: 0 <= j < |Required| && Key(Required[j]) in NormToActual(cols) ==>
              NormToActual(cols)[Key(Required[j])] in ColumnMap(cols)
              && ColumnMap(cols)[NormToActual(cols)[Key(Required[j])]] == Required[j]
    ensures |ColumnMap(cols)| <= |Required|
  {
    RequiredNormalized();
    ResolveSpec(NormToActual(cols), Required);
  }

  /** Every entry maps an actual header to the required name it normalises to,
      and the header chosen is the last one with that normalised form. */
  lemma ColumnMapEntries(cols: seq<string>)
    ensures forall a :: a in ColumnMap(cols) ==>
              && a in cols
              && ColumnMap(cols)[a] in Required
              && Key(a) == ColumnMap(cols)[a]
              && LastIndex(cols, Key(a)) >= 0
              && a == cols[LastIndex(cols, Key(a))]
  {
    RequiredNormalized();
    ColumnMapResolves(cols);
  }

  /** A required name is a value of the map exactly when some header normalises to it. */
  lemma ColumnMapCovers(cols: seq<string>, need: string)
    requires need in Required
    ensures (exists a :: a in ColumnMap(cols) && ColumnMap(cols)[a] == need)
            <==> exists i :: 0 <= i < |cols| && Key(cols[i]) == need
  {
    RequiredNormalized();
    ColumnMapResolves(cols);
    var n := NormToActual(cols);
    var j :| 0 <= j < |Required| && Required[j] == need;
    LastIndexIsLast(cols, need);
    if i :| 0 <= i < |cols| && Key(cols[i]) == need {
      assert n[Key(Required[j])] in ColumnMap(cols);
    }
  }

  /** At most one entry per required name. */
  lemma ColumnMapSize(cols: seq<string>)
    ensures |ColumnMap(cols)| <= |Required|
  {
    ColumnMapResolves(cols);
  }

  /** Every entry of the map resolved from `xs` is also an entry, with the
      same name, of the map resolved from any `ys` holding the same names. */
  lemma ResolveIncluded(n: map<string, string>, xs: seq<string>, ys: seq<string>)
    requires HeadersByKey(n)
    requires forall j, k :: 0 <= j < k < |ys| ==> Key(ys[j]) != Key(ys[k])
    requires forall x :: x in xs ==> x in ys
    ensures forall a :: a in Resolve(n, xs) ==> a in Resolve(n, ys) && Resolve(n, ys)[a] == Resolve(n, xs)[a]
  {
    ResolveSources(n, xs);
    ResolveFinds(n, ys);
    forall a | a in Resolve(n, xs)
      ensures a in Resolve(n, ys) && Resolve(n, ys)[a] == Resolve(n, xs)[a]
    {
      var j :| 0 <= j < |xs| && Key(xs[j]) in n && a == n[Key(xs[j])] && Resolve(n, xs)[a] == xs[j];
      assert xs[j] in ys;
      var k :| 0 <= k < |ys| && ys[k] == xs[j];
    }
  }

  /** Any order of walking the required set gives the same map: resolving
      the names in an order without repeats that holds each of them yields
      `ColumnMap`. */
  lemma ResolveOrderFree(cols: seq<string>, needs: seq<string>)
    requires NoDup(needs)
    requires forall x :: x in needs <==> x in Required
    ensures Resolve(NormToActual(cols), needs) == ColumnMap(cols)
  {
    var n := NormToActual(cols);
    RequiredNormalized();
    forall j | 0 <= j < |needs| ensures Key(needs[j]) == needs[j] {
      assert needs[j] in Required;
    }
    ResolveIncluded(n, needs, Required);
    ResolveIncluded(n, Required, needs);
    assert Resolve(n, needs).Keys == Resolve(n, Required).Keys;
  }

  /** `build_column_map`: the dictionary is filled one required name at a time. */
  method BuildColumnMap(cols: seq<string>) returns (mapping: map<string, string>)
    ensures mapping == ColumnMap(cols)
  {
    var normToActual := NormToActual(cols);
    mapping := map[];
    var i := 0;
    while i < |Required|
      invariant 0 <= i <= |Required|
      invariant mapping == Resolve(normToActual, Required[..i])
    {
      var need := Required[i];
      var key := NormalizeCol(Some(need));
      ResolveStep(normToActual, Required, i);
      if key in normToActual {
        mapping := mapping[normToActual[key] := need];
      }
      i := i + 1;
    }
    assert Required[..i] == Required;
  }

  /** `df.rename(columns=mapping)` on the header list. */
  function Renamed(cols: seq<string>, mapping: map<string, string>): (r: seq<string>)
    ensures |r| == |cols|
  {
    seq(|cols|, i requires 0 <= i < |cols| => if cols[i] in mapping then mapping[cols[i]] else cols[i])
  }

  /** `required_cols.issubset(df.columns)`. */
  predicate HasRequired(cols: seq<string>) {
    forall need :: need in Required ==> need in cols
  }

  /** The required-column check passes exactly when every required name is the
      normalised form of some actual header. */
  lemma RequiredCheckIff(cols: seq<string>)
    ensures HasRequired(Renamed(cols, ColumnMap(cols)))
            <==> forall need :: need in Required ==> exists i :: 0 <= i < |cols| && Key(cols[i]) == need
  {
    RequiredNormalized();
    ColumnMapEntries(cols);
    var m := ColumnMap(cols);
    var r := Renamed(cols, m);
    if forall need :: need in Required ==> exists i :: 0 <= i < |cols| && Key(cols[i]) == need {
      forall need | need in Required
        ensures need in r
      {
        ColumnMapCovers(cols, need);
        var a :| a in m && m[a] == need;
        var i :| 0 <= i < |cols| && cols[i] == a;
        assert r[i] == need;
      }
    }
    if HasRequired(r) {
      forall need | need in Required
        ensures exists i :: 0 <= i < |cols| && Key(cols[i]) == need
      {
        var i :| 0 <= i < |r| && r[i] == need;
        if cols[i] !in m {
          var j :| 0 <= j < |Required| && Required[j] == need;
          assert Key(cols[i]) == need;
        }
      }
    }
  }
}
