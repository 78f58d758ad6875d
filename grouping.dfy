/**
 * The table stages of the pipeline: the question rows, their grouping by
 * representative category, the staff mentioned in each group and the
 * keyword-match subset with its count.
 */
module Grouping {
  import opened Wrappers
  import opened Text
  import opened Seqs
  import opened Sorting
  import opened Categories
  import opened Staff

  /** One spreadsheet row, reduced to the three logical columns; a missing
      cell is None. */
  datatype Row = Row(kind: Option<string>, content: Option<string>, category: Option<string>)

  /** A row with the two derived columns added: `rep` is `대표카테고리`,
      `staff` is `강사명`. */
  datatype Entry = Entry(kind: Option<string>, content: Option<string>, category: Option<string>,
                         rep: Option<string>, staff: Option<string>)

  /** `df["대표카테고리"] = df["카테고리"].apply(map_category)` and
      `df["강사명"] = df["내용"].apply(detect_teacher)`, for one row. */
  function Annotate(r: Row): (e: Entry)
    ensures e.kind == r.kind && e.content == r.content && e.category == r.category
    ensures e.rep.None? <==> r.category.None?
    ensures e.rep == r.category || e.rep.value in Labels
    ensures e.staff.Some? ==> e.staff.value in Roster && Contains(CellText(r.content), e.staff.value)
  {
    MapCategoryRange(r.category);
    StaffInRoster(r.content);
    Entry(r.kind, r.content, r.category, MapCategory(r.category), StaffOf(r.content))
  }

  /** Both derived columns over the whole table. */
  function AnnotateAll(rows: seq<Row>): (es: seq<Entry>)
    ensures |es| == |rows|
    ensures forall i :: 0 <= i < |rows| ==> es[i] == Annotate(rows[i])
  {
    seq(|rows|, i requires 0 <= i < |rows| => Annotate(rows[i]))
  }

  /** The rows of `q_df`: `구분` is exactly "Q" and neither the content nor
      the representative category is missing. */
  predicate IsQuestion(r: Entry) {
    r.kind == Some("Q") && r.content.Some? && r.rep.Some?
  }

  function Questions(rows: seq<Entry>): seq<Entry> {
    Filter(rows, IsQuestion)
  }

  /** `q_df` keeps exactly the question rows, in row order. */
  lemma QuestionsSpec(rows: seq<Entry>)
    ensures forall i :: 0 <= i < |Questions(rows)| ==>
              Questions(rows)[i] in rows && IsQuestion(Questions(rows)[i])
    ensures forall i :: 0 <= i < |rows| && IsQuestion(rows[i]) ==> rows[i] in Questions(rows)
    ensures Questions(rows) == [] <==> forall i :: 0 <= i < |rows| ==> !IsQuestion(rows[i])
  {
    if Questions(rows) != [] {
      assert IsQuestion(Questions(rows)[0]);
    }
  }

  /** Questions of consecutive row blocks come block by block. */
  lemma QuestionsAppend(a: seq<Entry>, b: seq<Entry>)
    ensures Questions(a + b) == Questions(a) + Questions(b)
  {
    FilterAppend(a, b, IsQuestion);
  }

  /** The representative categories of the rows that have one, in row order. */
  function Reps(q: seq<Entry>): seq<string> {
    if q == [] then []
    else (match q[0].rep case Some(c) => [c] case None => []) + Reps(q[1..])
  }

  lemma {:induction false} RepsMembers(q: seq<Entry>, c: string)
    ensures c in Reps(q) <==> exists i :: 0 <= i < |q| && q[i].rep == Some(c)
  {
    if q != [] {
      RepsMembers(q[1..], c);
      if exists i :: 0 <= i < |q[1..]| && q[1..][i].rep == Some(c) {
        var i :| 0 <= i < |q[1..]| && q[1..][i].rep == Some(c);
        assert q[i + 1] == q[1..][i];
      }
      if exists i :: 0 <= i < |q| && q[i].rep == Some(c) {
        var i :| 0 <= i < |q| && q[i].rep == Some(c);
        if i > 0 {
          assert q[1..][i - 1] == q[i];
        }
      }
    }
  }

  /** The code-point order `groupby` sorts its keys by. */
  ghost predicate Ascending(keys: seq<string>) {
    SortedBy(keys, (a, b) => LexLess(a, b))
  }

  /** The group keys: the distinct representative categories, ascending. */
  function GroupKeys(q: seq<Entry>): seq<string> {
    SortBy(Distinct(Reps(q)), (a, b) => LexLess(a, b))
  }

  /** The keys are strictly ascending (hence distinct) and are exactly the
      representative categories of the rows. */
  lemma GroupKeysSpec(q: seq<Entry>)
    ensures Ascending(GroupKeys(q))
    ensures NoDup(GroupKeys(q))
    ensures forall c :: c in GroupKeys(q) <==> exists i :: 0 <= i < |q| && q[i].rep == Some(c)
  {
    var less := (a, b) => LexLess(a, b);
    var d := Distinct(Reps(q));
    DistinctSpec(Reps(q));
    var xs := set c | c in d;
    forall a | a in xs ensures !less(a, a) {
      LexLessIrreflexive(a);
    }
    forall a, b | a in xs && b in xs && a != b ensures less(a, b) || less(b, a) {
      LexLessTotal(a, b);
    }
    forall a, b, c | a in xs && b in xs && c in xs && less(a, b) && less(b, c) ensures less(a, c) {
      LexLessTransitive(a, b, c);
    }
    SortBySorted(d, less, xs);
    forall c ensures c in GroupKeys(q) <==> exists i :: 0 <= i < |q| && q[i].rep == Some(c) {
      assert c in GroupKeys(q) <==> c in multiset(d);
      RepsMembers(q, c);
      if c in d {
        var i :| 0 <= i < |d| && d[i] == c;
      }
      if c in Reps(q) {
        var i :| 0 <= i < |Reps(q)| && Reps(q)[i] == c;
      }
    }
  }

  /** The content list of category `k`: the contents of its rows in row order. */
  function Members(q: seq<Entry>, k: string): seq<string> {
    if q == [] then []
    else
      (if q[0].rep == Some(k) && q[0].content.Some? then [q[0].content.value] else [])
      + Members(q[1..], k)
  }

  /** Entry order is kept: the list of a row block is followed by the next block's. */
  lemma {:induction false} MembersAppend(a: seq<Entry>, b: seq<Entry>, k: string)
    ensures Members(a + b, k) == Members(a, k) + Members(b, k)
  {
    if a == [] {
      assert a + b == b;
    } else {
      assert (a + b)[1..] == a[1..] + b;
      MembersAppend(a[1..], b, k);
    }
  }

  /** A question's content is in its own category's list and in no other. */
  lemma {:induction false} MembersOfRow(q: seq<Entry>, i: nat, k: string)
    requires i < |q| && IsQuestion(q[i])
    ensures q[i].content.value in Members(q, q[i].rep.value)
    ensures k != q[i].rep.value ==>
              Members(q[..i] + [q[i]] + q[i + 1..], k) == Members(q[..i], k) + Members(q[i + 1..], k)
  {
    assert q == q[..i] + [q[i]] + q[i + 1..];
    MembersAppend(q[..i] + [q[i]], q[i + 1..], q[i].rep.value);
    MembersAppend(q[..i], [q[i]], q[i].rep.value);
    MembersAppend(q[..i] + [q[i]], q[i + 1..], k);
    MembersAppend(q[..i], [q[i]], k);
    assert Members([q[i]], k) == (if q[i].rep == Some(k) then [q[i].content.value] else []);
  }

  /** One entry of `grouped`: a category and its content list. */
  datatype Group = Group(category: string, questions: seq<string>)

  function GroupsFor(q: seq<Entry>, keys: seq<string>): (g: seq<Group>)
    ensures |g| == |keys|
    ensures forall i :: 0 <= i < |g| ==> g[i] == Group(keys[i], Members(q, keys[i]))
  {
    if keys == [] then [] else [Group(keys[0], Members(q, keys[0]))] + GroupsFor(q, keys[1..])
  }

  /** `q_df.groupby("대표카테고리")["내용"].apply(list).to_dict()`, in key order. */
  function Grouped(q: seq<Entry>): seq<Group> {
    GroupsFor(q, GroupKeys(q))
  }

  /** The number of contents the groups hold together. */
  function TotalSize(g: seq<Group>): nat {
    if g == [] then 0 else |g[0].questions| + TotalSize(g[1..])
  }

  /** How many rows with a content have a representative among `ks`. */
  function CountIn(q: seq<Entry>, ks: seq<string>): nat {
    if q == [] then 0
    else
      (if q[0].content.Some? && q[0].rep.Some? && q[0].rep.value in ks then 1 else 0)
      + CountIn(q[1..], ks)
  }

  lemma {:induction false} CountInCons(q: seq<Entry>, k: string, ks: seq<string>)
    requires k !in ks
    ensures CountIn(q, [k] + ks) == |Members(q, k)| + CountIn(q, ks)
  {
    if q != [] {
      CountInCons(q[1..], k, ks);
    }
  }

  lemma {:induction false} CountInNone(q: seq<Entry>)
    ensures CountIn(q, []) == 0
  {
    if q != [] {
      CountInNone(q[1..]);
    }
  }

  lemma {:induction false} TotalSizeCountIn(q: seq<Entry>, keys: seq<string>)
    requires NoDup(keys)
    ensures TotalSize(GroupsFor(q, keys)) == CountIn(q, keys)
  {
    if keys == [] {
      CountInNone(q);
    } else {
      assert keys == [keys[0]] + keys[1..];
      assert keys[0] !in keys[1..];
      assert NoDup(keys[1..]) by {
        forall i, j | 0 <= i < j < |keys[1..]| ensures keys[1..][i] != keys[1..][j] {
          assert keys[1..][i] == keys[i + 1] && keys[1..][j] == keys[j + 1];
        }
      }
      TotalSizeCountIn(q, keys[1..]);
      CountInCons(q, keys[0], keys[1..]);
      var g := GroupsFor(q, keys);
      assert g == [Group(keys[0], Members(q, keys[0]))] + GroupsFor(q, keys[1..]);
      assert g[1..] == GroupsFor(q, keys[1..]);
      assert TotalSize(g) == |Members(q, keys[0])| + TotalSize(GroupsFor(q, keys[1..]));
    }
  }

  lemma {:induction false} CountInAll(q: seq<Entry>, ks: seq<string>)
    requires forall i :: 0 <= i < |q| ==> IsQuestion(q[i]) && q[i].rep.value in ks
    ensures CountIn(q, ks) == |q|
  {
    if q != [] {
      CountInAll(q[1..], ks);
    }
  }

  /** The groups come in strictly ascending category order, so no category
      is listed twice. */
  lemma GroupedAscending(q: seq<Entry>)
    ensures forall i, j :: 0 <= i < j < |Grouped(q)| ==>
              LexLess(Grouped(q)[i].category, Grouped(q)[j].category)
  {
    GroupKeysSpec(q);
    var keys := GroupKeys(q);
    forall i, j | 0 <= i < j < |Grouped(q)|
      ensures LexLess(Grouped(q)[i].category, Grouped(q)[j].category)
    {
      assert Grouped(q)[i].category == keys[i] && Grouped(q)[j].category == keys[j];
    }
  }

  /** Each question's category has a group, and that group's list holds the
      question's content. */
  lemma GroupOfQuestion(q: seq<Entry>, i: nat)
    requires i < |q| && IsQuestion(q[i])
    ensures var g := Grouped(q);
            exists j :: 0 <= j < |g| && g[j].category == q[i].rep.value && q[i].content.value in g[j].questions
  {
    var keys := GroupKeys(q);
    var c := q[i].rep.value;
    GroupKeysSpec(q);
    assert c in keys;
    var j :| 0 <= j < |keys| && keys[j] == c;
    MembersOfRow(q, i, c);
    assert Grouped(q)[j] == Group(c, Members(q, c));
  }

  /** Each group's category is the representative category of some question. */
  lemma QuestionOfGroup(q: seq<Entry>, j: nat)
    requires j < |Grouped(q)|
    ensures exists i :: 0 <= i < |q| && q[i].rep == Some(Grouped(q)[j].category)
  {
    var keys := GroupKeys(q);
    GroupKeysSpec(q);
    assert Grouped(q)[j].category == keys[j];
    assert keys[j] in keys;
  }

  /** The list lengths sum to the number of questions: every question is in
      exactly one list once. */
  lemma GroupedSize(q: seq<Entry>)
    requires forall i :: 0 <= i < |q| ==> IsQuestion(q[i])
    ensures TotalSize(Grouped(q)) == |q|
  {
    var keys := GroupKeys(q);
    GroupKeysSpec(q);
    TotalSizeCountIn(q, keys);
    CountInAll(q, keys);
  }

  /** No rows kept, no groups: processing stops before grouping. */
  lemma GroupedEmpty(q: seq<Entry>)
    ensures Grouped(q) == [] <==> q == [] || forall i :: 0 <= i < |q| ==> q[i].rep.None?
  {
    GroupKeysSpec(q);
    if Grouped(q) != [] {
      assert GroupKeys(q)[0] in GroupKeys(q);
    } else if exists i :: 0 <= i < |q| && q[i].rep.Some? {
      var i :| 0 <= i < |q| && q[i].rep.Some?;
      assert q[i].rep.value in GroupKeys(q);
    }
  }

  /** The detected staff of the rows of category `k` that have one and whose
      name is non-empty, in row order (`dropna()` and `if t`). */
  function StaffNames(q: seq<Entry>, k: string): seq<string> {
    if q == [] then []
    else
      (if q[0].rep == Some(k) && q[0].staff.Some? && q[0].staff.value != ""
       then [q[0].staff.value] else [])
      + StaffNames(q[1..], k)
  }

  /** The staff mentioned by the questions of category `k`, once each. */
  function Mentions(q: seq<Entry>, k: string): seq<string> {
    Distinct(StaffNames(q, k))
  }

  lemma {:induction false} StaffNamesMembers(q: seq<Entry>, k: string, t: string)
    ensures t in StaffNames(q, k) <==>
              t != "" && exists i :: 0 <= i < |q| && q[i].rep == Some(k) && q[i].staff == Some(t)
  {
    if q != [] {
      StaffNamesMembers(q[1..], k, t);
      if exists i :: 0 <= i < |q[1..]| && q[1..][i].rep == Some(k) && q[1..][i].staff == Some(t) {
        var i :| 0 <= i < |q[1..]| && q[1..][i].rep == Some(k) && q[1..][i].staff == Some(t);
        assert q[i + 1] == q[1..][i];
      }
      if exists i :: 0 <= i < |q| && q[i].rep == Some(k) && q[i].staff == Some(t) {
        var i :| 0 <= i < |q| && q[i].rep == Some(k) && q[i].staff == Some(t);
        if i > 0 {
          assert q[1..][i - 1] == q[i];
        }
      }
    }
  }

  /** `teacher_mentions`: distinct, non-empty, each the detected staff of a
      question of that category and every such staff listed, in order of
      first mention. */
  lemma MentionsSpec(q: seq<Entry>, k: string)
    ensures NoDup(Mentions(q, k))
    ensures forall t :: t in Mentions(q, k) <==>
              t != "" && exists i :: 0 <= i < |q| && q[i].rep == Some(k) && q[i].staff == Some(t)
    ensures forall i, j :: 0 <= i < j < |Mentions(q, k)| ==>
              IndexOf(StaffNames(q, k), Mentions(q, k)[i]) < IndexOf(StaffNames(q, k), Mentions(q, k)[j])
  {
    var s := StaffNames(q, k);
    DistinctSpec(s);
    forall t ensures t in Mentions(q, k) <==>
        t != "" && exists i :: 0 <= i < |q| && q[i].rep == Some(k) && q[i].staff == Some(t)
    {
      StaffNamesMembers(q, k, t);
      if t in s {
        var i :| 0 <= i < |s| && s[i] == t;
      }
      if t in Mentions(q, k) {
        var i :| 0 <= i < |Mentions(q, k)| && Mentions(q, k)[i] == t;
      }
    }
  }

  /** Every mention is a roster name, given that the staff column was
      filled by `detect_teacher`. */
  lemma MentionsAreStaff(rows: seq<Row>, k: string)
    ensures forall t :: t in Mentions(AnnotateAll(rows), k) ==> t in Roster
  {
    var q := AnnotateAll(rows);
    MentionsSpec(q, k);
    forall t | t in Mentions(q, k) ensures t in Roster {
      var i :| 0 <= i < |q| && q[i].rep == Some(k) && q[i].staff == Some(t);
      assert q[i] == Annotate(rows[i]);
    }
  }

  /** `TARGET_CATEGORY`. */
  const TargetCategory: string := "모바일 기기 - 모바일 기기"

  /** `KEYWORDS`, in order. */
  const Keywords: seq<string> := ["중복", "iOS", "플레이어 ID", "충돌이슈", "초기화"]

  /** Python's `any(k.lower() in text for k in ks)`. */
  predicate AnyContained(text: string, ks: seq<string>) {
    ks != [] && (Contains(text, Lower(ks[0])) || AnyContained(text, ks[1..]))
  }

  /** `contains_keyword`: the lower-cased text of the content holds a lower-cased keyword. */
  predicate ContainsKeyword(content: Option<string>) {
    AnyContained(Lower(CellText(content)), Keywords)
  }

  lemma {:induction false} AnyContainedIff(text: string, ks: seq<string>)
    ensures AnyContained(text, ks) <==> exists i :: 0 <= i < |ks| && Contains(text, Lower(ks[i]))
  {
    if ks != [] {
      AnyContainedIff(text, ks[1..]);
      if exists i :: 0 <= i < |ks| && Contains(text, Lower(ks[i])) {
        var i :| 0 <= i < |ks| && Contains(text, Lower(ks[i]));
        if i > 0 {
          assert ks[1..][i - 1] == ks[i];
        }
      }
    }
  }

  /** `contains_keyword(t)` holds iff the lower-cased `str(t)` contains some
      lower-cased keyword. */
  lemma ContainsKeywordIff(content: Option<string>)
    ensures ContainsKeyword(content) <==>
              exists i :: 0 <= i < |Keywords| && Contains(Lower(CellText(content)), Lower(Keywords[i]))
  {
    AnyContainedIff(Lower(CellText(content)), Keywords);
  }

  /** The row test of `keyword_df`: type Q or A, the raw category text holds
      the target, and the content holds a keyword. */
  predicate InKeywordSubset(r: Entry) {
    (r.kind == Some("Q") || r.kind == Some("A"))
    && Contains(CellText(r.category), TargetCategory)
    && ContainsKeyword(r.content)
  }

  function KeywordRows(rows: seq<Entry>): seq<Entry> {
    Filter(rows, InKeywordSubset)
  }

  /** How many rows satisfy the keyword test. */
  function CountMatching(rows: seq<Entry>): nat {
    if rows == [] then 0 else (if InKeywordSubset(rows[0]) then 1 else 0) + CountMatching(rows[1..])
  }

  /** `keyword_df` holds exactly the rows passing all three tests, in row
      order, and `keyword_count` is how many rows pass them. */
  lemma {:induction false} KeywordRowsSpec(rows: seq<Entry>)
    ensures forall i :: 0 <= i < |KeywordRows(rows)| ==>
              KeywordRows(rows)[i] in rows && InKeywordSubset(KeywordRows(rows)[i])
    ensures forall i :: 0 <= i < |rows| && InKeywordSubset(rows[i]) ==> rows[i] in KeywordRows(rows)
    ensures |KeywordRows(rows)| == CountMatching(rows)
  {
    if rows != [] {
      KeywordRowsSpec(rows[1..]);
    }
  }

  /** A row without content never counts: "nan" holds no keyword. */
  lemma MissingContentNoKeyword(r: Entry)
    requires r.content.None?
    ensures !InKeywordSubset(r)
  {
    var t := Lower(CellText(r.content));
    assert forall k :: 0 <= k < |t| ==> t[k] == 'n' || t[k] == 'a';
    ContainsKeywordIff(r.content);
    forall i | 0 <= i < |Keywords| ensures !Contains(t, Lower(Keywords[i])) {
      var p := Lower(Keywords[i]);
      assert p[0] == LowerChar(Keywords[i][0]);
      NotContainsFirstChar(t, p);
    }
  }
}
