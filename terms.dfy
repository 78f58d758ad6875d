/**
 * Keyword extraction of one category's questions: the word runs of the joined
 * texts (`preprocess_text`) and the ten most frequent of them
 * (`Counter(words).most_common(10)`).
 */
module Terms {
  import opened Text
  import opened Seqs
  import opened Sorting

  /** The class `[가-힣a-zA-Z]` of the extraction pattern. */
  predicate IsWordChar(c: char) {
    ('a' <= c <= 'z') || ('A' <= c <= 'Z') || ('가' <= c <= '힣')
  }

  /** The length of the longest prefix of `s` made of word characters. */
  function RunLength(s: string): (n: nat)
    ensures n <= |s|
    ensures forall i :: 0 <= i < n ==> IsWordChar(s[i])
    ensures n == |s| || !IsWordChar(s[n])
  {
    if s == [] || !IsWordChar(s[0]) then 0 else 1 + RunLength(s[1..])
  }

  /** `re.findall(r"[가-힣a-zA-Z]+", s)`: the maximal runs of word characters,
      left to right. */
  function Tokens(s: string): seq<string>
    decreases |s|
  {
    if s == [] then []
    else if !IsWordChar(s[0]) then Tokens(s[1..])
    else
      var n := RunLength(s);
      [s[..n]] + Tokens(s[n..])
  }

  /** A token is a non-empty run of word characters. */
  predicate IsWord(w: string) {
    |w| > 0 && forall i :: 0 <= i < |w| ==> IsWordChar(w[i])
  }

  /** Every token is a non-empty run of word characters. */
  lemma {:induction false} TokensAreWords(s: string)
    ensures forall i :: 0 <= i < |Tokens(s)| ==> IsWord(Tokens(s)[i])
    decreases |s|
  {
    if s != [] {
      if !IsWordChar(s[0]) {
        TokensAreWords(s[1..]);
      } else {
        var n := RunLength(s);
        TokensAreWords(s[n..]);
        assert Tokens(s) == [s[..n]] + Tokens(s[n..]);
      }
    }
  }

  /** A run cannot cross a non-word character. */
  lemma {:induction false} RunLengthStops(a: string, c: char, b: string)
    requires !IsWordChar(c)
    ensures RunLength(a + [c] + b) == RunLength(a)
  {
    if a == [] {
      assert a + [c] + b == [c] + b;
    } else {
      assert (a + [c] + b)[1..] == a[1..] + [c] + b;
      if IsWordChar(a[0]) {
        RunLengthStops(a[1..], c, b);
      }
    }
  }

  /** A non-word character separates: the tokens of the two sides are the
      tokens of the whole, and no token spans the separator. */
  lemma {:induction false} TokensSplit(a: string, c: char, b: string)
    requires !IsWordChar(c)
    ensures Tokens(a + [c] + b) == Tokens(a) + Tokens(b)
    decreases |a|
  {
    var s := a + [c] + b;
    if a == [] {
      assert s == [c] + b;
      assert s[1..] == b;
    } else if !IsWordChar(a[0]) {
      assert s[1..] == a[1..] + [c] + b;
      TokensSplit(a[1..], c, b);
    } else {
      var n := RunLength(a);
      RunLengthStops(a, c, b);
      assert s[..n] == a[..n];
      assert s[n..] == a[n..] + [c] + b;
      TokensSplit(a[n..], c, b);
    }
  }

  /** A text made only of word characters is a single token. */
  lemma AllWordOneToken(s: string)
    requires IsWord(s)
    ensures Tokens(s) == [s]
  {
    var n := RunLength(s);
    assert IsWordChar(s[0]);
    assert n == |s|;
    assert s[..n] == s && s[n..] == [];
  }

  /** A text without word characters has no tokens. */
  lemma {:induction false} NoWordNoTokens(s: string)
    requires forall i :: 0 <= i < |s| ==> !IsWordChar(s[i])
    ensures Tokens(s) == []
  {
    if s != [] {
      NoWordNoTokens(s[1..]);
    }
  }

  /** The tokens of every text in order, one list after another. */
  function TokensOfEach(texts: seq<string>): seq<string> {
    if texts == [] then [] else Tokens(texts[0]) + TokensOfEach(texts[1..])
  }

  /** Joining the texts with a blank never makes a token that spans two texts. */
  lemma {:induction false} TokensOfJoin(texts: seq<string>)
    ensures Tokens(Join(texts, " ")) == TokensOfEach(texts)
  {
    if |texts| == 1 {
      assert TokensOfEach(texts[1..]) == [];
    } else if |texts| > 1 {
      var rest := Join(texts[1..], " ");
      TokensSplit(texts[0], ' ', rest);
      TokensOfJoin(texts[1..]);
    }
  }

  /** `preprocess_text`: the tokens of the texts joined by a blank, keeping
      those longer than one character. */
  function PreprocessText(texts: seq<string>): seq<string> {
    Filter(Tokens(Join(texts, " ")), (w: string) => |w| > 1)
  }

  /** The terms are exactly the words of two or more characters, text by
      text, in order; every kept term is a word of some text. */
  lemma PreprocessTextSpec(texts: seq<string>)
    ensures PreprocessText(texts) == Filter(TokensOfEach(texts), (w: string) => |w| > 1)
    ensures forall i :: 0 <= i < |PreprocessText(texts)| ==>
              |PreprocessText(texts)[i]| > 1 && IsWord(PreprocessText(texts)[i])
  {
    TokensOfJoin(texts);
    TokensAreWords(Join(texts, " "));
  }

  /** Preprocessing two lists of texts is preprocessing each. */
  lemma PreprocessTextAppend(a: seq<string>, b: seq<string>)
    ensures PreprocessText(a + b) == PreprocessText(a) + PreprocessText(b)
  {
    TokensOfJoin(a + b);
    TokensOfJoin(a);
    TokensOfJoin(b);
    TokensOfEachAppend(a, b);
    FilterAppend(TokensOfEach(a), TokensOfEach(b), (w: string) => |w| > 1);
  }

  lemma {:induction false} TokensOfEachAppend(a: seq<string>, b: seq<string>)
    ensures TokensOfEach(a + b) == TokensOfEach(a) + TokensOfEach(b)
  {
    if a == [] {
      assert a + b == b;
    } else {
      assert (a + b)[1..] == a[1..] + b;
      TokensOfEachAppend(a[1..], b);
    }
  }

  /** How many times `w` occurs in `words` (`Counter(words)[w]`). */
  function Count(words: seq<string>, w: string): nat {
    multiset(words)[w]
  }

  /** The order of `Counter.most_common`: higher count first; equal counts in
      order of first occurrence, which is the counter's insertion order. */
  predicate RankedBefore(words: seq<string>, a: string, b: string) {
    Count(words, a) > Count(words, b)
    || (Count(words, a) == Count(words, b) && IndexOf(words, a) < IndexOf(words, b))
  }

  /** `[w for w, _ in Counter(words).most_common(n)]`. */
  function MostCommon(words: seq<string>, n: nat): seq<string> {
    var ranked := SortBy(Distinct(words), (a, b) => RankedBefore(words, a, b));
    ranked[..if n < |ranked| then n else |ranked|]
  }

  /** The ranking is a strict total order on the words that occur: two
      different words have different first positions. */
  lemma RankedBeforeTotal(words: seq<string>)
    ensures StrictTotalOn(set w | w in words, (a, b) => RankedBefore(words, a, b))
  {
  }

  /** The ranked distinct words, all of them. */
  lemma RankedAll(words: seq<string>)
    ensures var ranked := SortBy(Distinct(words), (a, b) => RankedBefore(words, a, b));
            && |ranked| == |Distinct(words)|
            && SortedBy(ranked, (a, b) => RankedBefore(words, a, b))
            && NoDup(ranked)
            && (forall w :: w in ranked <==> w in words)
  {
    var less := (a, b) => RankedBefore(words, a, b);
    var d := Distinct(words);
    DistinctSpec(words);
    var ranked := SortBy(d, less);
    assert |multiset(ranked)| == |multiset(d)|;
    RankedBeforeTotal(words);
    forall y | y in d ensures y in (set w | w in words) {
      var i :| 0 <= i < |d| && d[i] == y;
    }
    SortBySorted(d, less, set w | w in words);
    forall w ensures w in ranked <==> w in words {
      assert w in ranked <==> w in multiset(d);
      if w in words {
        var i :| 0 <= i < |words| && words[i] == w;
      }
      if w in d {
        var i :| 0 <= i < |d| && d[i] == w;
      }
    }
  }

  /** `most_common(n)` keeps `n` distinct words of the list, or all of them
      when there are fewer. */
  lemma MostCommonShape(words: seq<string>, n: nat)
    ensures var r := MostCommon(words, n);
            && |r| == (if n < |Distinct(words)| then n else |Distinct(words)|)
            && NoDup(r)
            && (forall i :: 0 <= i < |r| ==> r[i] in words)
  {
    var ranked := SortBy(Distinct(words), (a, b) => RankedBefore(words, a, b));
    RankedAll(words);
    var r := MostCommon(words, n);
    assert r == ranked[..|r|];
    forall i | 0 <= i < |r| ensures r[i] in words {
      assert r[i] == ranked[i];
    }
  }

  /** The kept words come in non-increasing count, equal counts in order of
      first occurrence. */
  lemma MostCommonOrder(words: seq<string>, n: nat)
    ensures var r := MostCommon(words, n);
            forall i, j :: 0 <= i < j < |r| ==>
              Count(words, r[i]) > Count(words, r[j])
              || (Count(words, r[i]) == Count(words, r[j])
                  && IndexOf(words, r[i]) < IndexOf(words, r[j]))
  {
    var less := (a, b) => RankedBefore(words, a, b);
    var ranked := SortBy(Distinct(words), less);
    RankedAll(words);
    var r := MostCommon(words, n);
    forall i, j | 0 <= i < j < |r|
      ensures RankedBefore(words, r[i], r[j])
    {
      assert r[i] == ranked[i] && r[j] == ranked[j];
      assert less(ranked[i], ranked[j]);
    }
  }

  /** No word left out outranks a kept one. */
  lemma MostCommonMaximal(words: seq<string>, n: nat)
    ensures var r := MostCommon(words, n);
            forall i, w :: 0 <= i < |r| && w in words && w !in r ==>
              RankedBefore(words, r[i], w)
  {
    var less := (a, b) => RankedBefore(words, a, b);
    var ranked := SortBy(Distinct(words), less);
    RankedAll(words);
    var r := MostCommon(words, n);
    assert r == ranked[..|r|];
    forall i, w | 0 <= i < |r| && w in words && w !in r
      ensures RankedBefore(words, r[i], w)
    {
      var k :| 0 <= k < |ranked| && ranked[k] == w;
      assert r[i] == ranked[i];
      assert less(ranked[i], ranked[k]);
    }
  }

  /** A word that occurs more often than a kept one is kept as well. */
  lemma MostCommonKeepsMoreFrequent(words: seq<string>, n: nat, i: nat, w: string)
    requires i < |MostCommon(words, n)| && w in words
    requires Count(words, w) > Count(words, MostCommon(words, n)[i])
    ensures w in MostCommon(words, n)
  {
    MostCommonMaximal(words, n);
  }
}
