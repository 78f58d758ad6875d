/**
 * The per-category summary loop and the final report, and the whole run from
 * an uploaded table to the report: column resolution, the required-column
 * stop, the question stop, grouping, the keyword count and one generation call
 * per group.
 */
module Report {
  import opened Wrappers
  import opened Text
  import opened Seqs
  import opened Columns
  import opened Terms
  import opened Grouping

  /** How many questions of a group the prompt quotes. */
  const SampleSize: nat := 30

  /** How many keywords the prompt lists. */
  const TopCount: nat := 10

  /** What the prompt of one group says: the category, the number of its
      questions, its top keywords, the staff-mention line and the quoted
      questions. */
  datatype Request = Request(category: string, total: nat, keywords: seq<string>,
                             mentionLine: string, sample: string)

  /** The outcome of one generation call: the reply's text, or the text of
      the exception it raised. */
  type Reply = Result<string, string>

  /** `"\n".join(questions[:30])`. */
  function Sample(questions: seq<string>): string {
    Join(questions[..if |questions| < SampleSize then |questions| else SampleSize], "\n")
  }

  /** Only the first 30 questions are quoted: the ones after them never
      change the prompt, and a group of at most 30 is quoted whole. */
  lemma SampleSpec(questions: seq<string>, more: seq<string>)
    ensures |questions| >= SampleSize ==> Sample(questions + more) == Sample(questions)
    ensures |questions| <= SampleSize ==> Sample(questions) == Join(questions, "\n")
  {
    if |questions| >= SampleSize {
      assert (questions + more)[..SampleSize] == questions[..SampleSize];
    } else {
      assert questions[..|questions|] == questions;
    }
  }

  const MentionPrefix: string := "특정 강사 관련 문의 포함: "
  const MentionSuffix: string := " 선생님 관련 문의 포함."

  /** `mention_line`: empty without mentions, otherwise the names joined by
      ", " between the fixed phrases. */
  function MentionLine(mentions: seq<string>): string {
    if mentions == [] then "" else MentionPrefix + Join(mentions, ", ") + MentionSuffix
  }

  /** The line is empty exactly when nobody is mentioned, and then names
      every mentioned person between the fixed phrases. */
  lemma MentionLineSpec(mentions: seq<string>)
    ensures MentionLine(mentions) == "" <==> mentions == []
    ensures mentions != [] ==>
              MentionPrefix <= MentionLine(mentions)
              && forall i :: 0 <= i < |mentions| ==> Contains(MentionLine(mentions), mentions[i])
  {
    if mentions != [] {
      assert |MentionLine(mentions)| > 0;
      forall i | 0 <= i < |mentions| ensures Contains(MentionLine(mentions), mentions[i]) {
        JoinContains(mentions, ", ", i);
        ContainsWithin(MentionPrefix, Join(mentions, ", "), MentionSuffix, mentions[i]);
      }
    }
  }

  /** The prompt of one group of the question rows `q`. */
  function RequestFor(q: seq<Entry>, g: Group): Request {
    Request(g.category, |g.questions|, MostCommon(PreprocessText(g.questions), TopCount),
            MentionLine(Mentions(q, g.category)), Sample(g.questions))
  }

  /** The prompt names the group, counts all its questions, and lists at most
      ten distinct keywords, each a word of two or more characters from the
      group's questions, most frequent first. */
  lemma RequestForSpec(q: seq<Entry>, g: Group)
    ensures var r := RequestFor(q, g);
            && r.category == g.category && r.total == |g.questions|
            && |r.keywords| <= TopCount && NoDup(r.keywords)
            && (forall i :: 0 <= i < |r.keywords| ==>
                  r.keywords[i] in PreprocessText(g.questions) && |r.keywords[i]| > 1 && IsWord(r.keywords[i]))
  {
    var words := PreprocessText(g.questions);
    MostCommonShape(words, TopCount);
    PreprocessTextSpec(g.questions);
    var kw := MostCommon(words, TopCount);
    forall i | 0 <= i < |kw| ensures |kw[i]| > 1 && IsWord(kw[i]) {
      var j :| 0 <= j < |words| && words[j] == kw[i];
    }
  }

  /** Groups with different categories get different prompts. */
  lemma RequestsDiffer(q: seq<Entry>, g: Group, h: Group)
    requires g.category != h.category
    ensures RequestFor(q, g) != RequestFor(q, h)
  {
  }

  const FailurePrefix: string := "(요약 실패: "

  /** The summary of a reply: its text stripped, or the failure marker with
      the error text. */
  function Summary(reply: Reply): string {
    match reply
    case Success(text) => Strip(text)
    case Failure(error) => FailurePrefix + error + ")"
  }

  /** A failed call gives the marker; a successful one the reply with its
      leading and trailing whitespace removed, and nothing else: a slice of
      the reply, with only whitespace cut off on either side and none left
      at either end. */
  lemma SummarySpec(reply: Reply)
    ensures reply.Failure? ==> Summary(reply) == FailurePrefix + reply.error + ")"
    ensures reply.Success? ==>
              (Summary(reply) == [] || (!IsSpace(Summary(reply)[0]) && !IsSpace(Summary(reply)[|Summary(reply)| - 1])))
              && exists i, j :: 0 <= i <= j <= |reply.value| && Summary(reply) == reply.value[i..j]
                                && (forall k :: 0 <= k < i ==> IsSpace(reply.value[k]))
                                && (forall k :: j <= k < |reply.value| ==> IsSpace(reply.value[k]))
  {
  }

  /** `f"**[{category}]**\n{summary}\n"`. */
  function Card(category: string, summary: string): string {
    "**[" + category + "]**\n" + summary + "\n"
  }

  /** The card of one group, given the generation call. */
  function CardFor(q: seq<Entry>, g: Group, generate: Request -> Reply): string {
    Card(g.category, Summary(generate(RequestFor(q, g))))
  }

  /** One card per group, in group order. */
  function Cards(q: seq<Entry>, groups: seq<Group>, generate: Request -> Reply): seq<string> {
    seq(|groups|, i requires 0 <= i < |groups| => CardFor(q, groups[i], generate))
  }

  /** The loop at the heart of the report: for each group in order, build
      its prompt, call the generator, turn the reply or its failure into a
      summary, and append the group's card. */
  method SummarizeGroups(q: seq<Entry>, groups: seq<Group>, generate: Request -> Reply)
    returns (cards: seq<string>)
    ensures cards == Cards(q, groups, generate)
  {
    cards := [];
    var i := 0;
    while i < |groups|
      invariant 0 <= i <= |groups|
      invariant |cards| == i
      invariant forall k :: 0 <= k < i ==> cards[k] == CardFor(q, groups[k], generate)
    {
      var group := groups[i];
      var request := RequestFor(q, group);
      var reply := generate(request);
      var summary := Summary(reply);
      ghost var card := CardFor(q, groups[i], generate);
      assert Card(group.category, summary) == card;
      cards := cards + [Card(group.category, summary)];
      i := i + 1;
    }
    CardsAt(q, groups, generate, cards);
  }

  /** A list holding each group's card at its position is the card list. */
  lemma CardsAt(q: seq<Entry>, groups: seq<Group>, generate: Request -> Reply, cards: seq<string>)
    requires |cards| == |groups|
    requires forall k :: 0 <= k < |groups| ==> cards[k] == CardFor(q, groups[k], generate)
    ensures cards == Cards(q, groups, generate)
  {
  }

  /** The generator `generate` except that the call with prompt `request`
      raises `error`. */
  function FailingOn(generate: Request -> Reply, request: Request, error: string): Request -> Reply {
    r => if r == request then Failure(error) else generate(r)
  }

  /** A failing call affects only its own group: that group's card carries
      the failure marker and every other card is as before. */
  lemma FailureIsolation(q: seq<Entry>, groups: seq<Group>, generate: Request -> Reply,
                         i: nat, error: string)
    requires i < |groups|
    requires forall j, k :: 0 <= j < k < |groups| ==> groups[j].category != groups[k].category
    ensures var failing := FailingOn(generate, RequestFor(q, groups[i]), error);
            && |Cards(q, groups, failing)| == |groups|
            && Cards(q, groups, failing)[i] == Card(groups[i].category, FailurePrefix + error + ")")
            && forall j :: 0 <= j < |groups| && j != i ==>
                 Cards(q, groups, failing)[j] == Cards(q, groups, generate)[j]
  {
    var failing := FailingOn(generate, RequestFor(q, groups[i]), error);
    forall j | 0 <= j < |groups| && j != i
      ensures Cards(q, groups, failing)[j] == Cards(q, groups, generate)[j]
    {
      RequestsDiffer(q, groups[j], groups[i]);
    }
  }

  /** The fixed heading of the report text. */
  const ReportHeader: string := "## \U{1F9FE} 주요 문의 요약 (강사 포함 자동 인식)\n\n"

  /** `report_text`: the heading followed by the cards joined by "\n"; the
      blank line between two cards comes from each card's own trailing
      newline. */
  function ReportText(cards: seq<string>): string {
    ReportHeader + Join(cards, "\n")
  }

  /** The report starts with the heading, holds every card, and one more
      group adds a newline and that group's card at the end. */
  lemma ReportTextSpec(cards: seq<string>, card: string)
    ensures ReportHeader <= ReportText(cards)
    ensures forall i :: 0 <= i < |cards| ==> Contains(ReportText(cards), cards[i])
    ensures cards != [] ==> ReportText(cards + [card]) == ReportText(cards) + "\n" + card
    ensures ReportText([]) == ReportHeader
  {
    forall i | 0 <= i < |cards| ensures Contains(ReportText(cards), cards[i]) {
      JoinContains(cards, "\n", i);
      ContainsWithin(ReportHeader, Join(cards, "\n"), [], cards[i]);
      assert ReportHeader + Join(cards, "\n") + [] == ReportText(cards);
    }
    if cards != [] {
      JoinSnoc(cards, card, "\n");
    }
  }

  /** Why a run stops before any summary. */
  datatype RunError =
    | MissingColumns(columns: seq<string>)  // the renamed headers lack a required name
    | NoQuestions                           // no row is a question

  /** What a completed run produces. */
  datatype Analysis = Analysis(groups: seq<Group>, keywordCount: nat, cards: seq<string>, report: string)

  /** The cell of a row in column `j`; a short row reads as missing there. */
  function Cell(cells: seq<Option<string>>, j: nat): Option<string> {
    if j < |cells| then cells[j] else None
  }

  /** A table row read through the renamed headers: `df["구분"]`,
      `df["내용"]` and `df["카테고리"]`. */
  function ReadRow(renamed: seq<string>, cells: seq<Option<string>>): Row {
    Row(Cell(cells, IndexOf(renamed, Required[0])),
        Cell(cells, IndexOf(renamed, Required[1])),
        Cell(cells, IndexOf(renamed, Required[2])))
  }

  function ReadRows(renamed: seq<string>, table: seq<seq<Option<string>>>): (rows: seq<Row>)
    ensures |rows| == |table|
    ensures forall i :: 0 <= i < |table| ==> rows[i] == ReadRow(renamed, table[i])
  {
    seq(|table|, i requires 0 <= i < |table| => ReadRow(renamed, table[i]))
  }

  /** The table after renaming, with the two derived columns added. */
  function Frame(headers: seq<string>, table: seq<seq<Option<string>>>): seq<Entry> {
    AnnotateAll(ReadRows(Renamed(headers, ColumnMap(headers)), table))
  }

  /** The part of a run after both stops: grouping, the keyword count, the
      cards and the report. */
  function Complete(q: seq<Entry>, df: seq<Entry>, generate: Request -> Reply): Analysis {
    var groups := Grouped(q);
    var cards := Cards(q, groups, generate);
    Analysis(groups, |KeywordRows(df)|, cards, ReportText(cards))
  }

  /** The whole run on headers and rows of cells, as a value. */
  function Analyze(headers: seq<string>, table: seq<seq<Option<string>>>,
                   generate: Request -> Reply): Result<Analysis, RunError>
  {
    var renamed := Renamed(headers, ColumnMap(headers));
    if !HasRequired(renamed) then Failure(MissingColumns(renamed))
    else
      var df := Frame(headers, table);
      var q := Questions(df);
      if q == [] then Failure(NoQuestions) else Success(Complete(q, df, generate))
  }

  /** The run, step by step as the program takes them. */
  method Run(headers: seq<string>, table: seq<seq<Option<string>>>, generate: Request -> Reply)
    returns (outcome: Result<Analysis, RunError>)
    ensures outcome == Analyze(headers, table, generate)
  {
    var mapping := BuildColumnMap(headers);
    var renamed := Renamed(headers, mapping);
    if !HasRequired(renamed) {
      return Failure(MissingColumns(renamed));
    }
    var df := AnnotateAll(ReadRows(renamed, table));
    assert df == Frame(headers, table);
    var q := Questions(df);
    if q == [] {
      return Failure(NoQuestions);
    }
    var groups := Grouped(q);
    var keywordCount := |KeywordRows(df)|;
    var cards := SummarizeGroups(q, groups, generate);
    return Success(Analysis(groups, keywordCount, cards, ReportText(cards)));
  }

  /** The run stops for missing columns exactly when some required name is
      not the normalised form of any header. */
  lemma AnalyzeMissingColumns(headers: seq<string>, table: seq<seq<Option<string>>>,
                              generate: Request -> Reply)
    ensures Analyze(headers, table, generate).Failure?
            && Analyze(headers, table, generate).error.MissingColumns?
            <==> exists need :: need in Required && forall i :: 0 <= i < |headers| ==> Key(headers[i]) != need
  {
    var renamed := Renamed(headers, ColumnMap(headers));
    var outcome := Analyze(headers, table, generate);
    assert outcome.Failure? && outcome.error.MissingColumns? <==> !HasRequired(renamed);
    RequiredCheckIff(headers);
  }

  /** Past the column check, the run stops exactly when no row is a question. */
  lemma AnalyzeNoQuestions(headers: seq<string>, table: seq<seq<Option<string>>>,
                           generate: Request -> Reply)
    requires HasRequired(Renamed(headers, ColumnMap(headers)))
    ensures Analyze(headers, table, generate) == Failure(NoQuestions) <==>
              forall i :: 0 <= i < |table| ==> !IsQuestion(Frame(headers, table)[i])
  {
    var df := Frame(headers, table);
    QuestionsSpec(df);
    assert Analyze(headers, table, generate) == Failure(NoQuestions) <==> Questions(df) == [];
  }

  /** After the stops the groups are non-empty in number, ascending, hold
      every question once, and the keyword count is the number of matching
      rows of the whole frame. */
  lemma CompleteGroups(q: seq<Entry>, df: seq<Entry>, generate: Request -> Reply)
    requires q != [] && forall i :: 0 <= i < |q| ==> IsQuestion(q[i])
    ensures var a := Complete(q, df, generate);
            && a.groups == Grouped(q)
            && a.groups != []
            && (forall i, j :: 0 <= i < j < |a.groups| ==> LexLess(a.groups[i].category, a.groups[j].category))
            && TotalSize(a.groups) == |q|
            && a.keywordCount == CountMatching(df)
  {
    GroupedAscending(q);
    GroupedSize(q);
    KeywordRowsSpec(df);
    GroupOfQuestion(q, 0);
  }

  /** A card opens with its category in bold on a line of its own. */
  lemma CardHeading(category: string, summary: string)
    ensures "**[" + category + "]**\n" <= Card(category, summary)
  {
    var head := "**[" + category + "]**\n";
    assert Card(category, summary) == head + (summary + "\n");
  }

  /** Each group's card opens with the group's category, and a group whose
      call failed carries the failure marker with the error text. */
  lemma CardsSpec(q: seq<Entry>, groups: seq<Group>, generate: Request -> Reply)
    ensures var c := Cards(q, groups, generate);
            && |c| == |groups|
            && (forall i :: 0 <= i < |groups| ==> "**[" + groups[i].category + "]**\n" <= c[i])
            && (forall i :: 0 <= i < |groups| && generate(RequestFor(q, groups[i])).Failure? ==>
                  c[i] == Card(groups[i].category, FailurePrefix + generate(RequestFor(q, groups[i])).error + ")"))
  {
    var c := Cards(q, groups, generate);
    forall i | 0 <= i < |groups|
      ensures "**[" + groups[i].category + "]**\n" <= c[i]
    {
      CardHeading(groups[i].category, Summary(generate(RequestFor(q, groups[i]))));
    }
  }

  /** After the stops there is one card per group; the report opens with
      the heading and contains every card; each card opens with its group's
      category; and a group whose call failed carries the failure marker with
      the error text. */
  lemma CompleteCards(q: seq<Entry>, df: seq<Entry>, generate: Request -> Reply)
    ensures var a := Complete(q, df, generate);
            && |a.cards| == |a.groups|
            && ReportHeader <= a.report
            && (forall i :: 0 <= i < |a.cards| ==> Contains(a.report, a.cards[i]))
            && (forall i :: 0 <= i < |a.groups| ==> "**[" + a.groups[i].category + "]**\n" <= a.cards[i])
            && (forall i :: 0 <= i < |a.groups| && generate(RequestFor(q, a.groups[i])).Failure? ==>
                  a.cards[i] == Card(a.groups[i].category,
                                     FailurePrefix + generate(RequestFor(q, a.groups[i])).error + ")"))
  {
    var groups := Grouped(q);
    var cards := Cards(q, groups, generate);
    ReportTextSpec(cards, "");
    CardsSpec(q, groups, generate);
  }

  /** A run completes exactly when every required name is the normalised
      form of some header and some row is a question row; the completed run
      is then the part after the stops applied to the question rows. */
  lemma AnalyzeSuccess(headers: seq<string>, table: seq<seq<Option<string>>>,
                       generate: Request -> Reply)
    ensures Analyze(headers, table, generate).Success? <==>
              (forall need :: need in Required ==> exists i :: 0 <= i < |headers| && Key(headers[i]) == need)
              && exists i :: 0 <= i < |table| && IsQuestion(Frame(headers, table)[i])
    ensures Analyze(headers, table, generate).Success? ==>
              Analyze(headers, table, generate).value
              == Complete(Questions(Frame(headers, table)), Frame(headers, table), generate)
  {
    RequiredCheckIff(headers);
    QuestionsSpec(Frame(headers, table));
  }
}
