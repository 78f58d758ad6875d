# CS ticket report generator — a verified model of its pipeline

`cs_report_auto_v4.py` reads an exported spreadsheet of customer-service tickets (question and
answer rows, each with a type `구분`, a content `내용` and a detailed category `카테고리`). It
writes a daily report with one summary per coarse category. This project models the deterministic
pipeline that sits between its user-interface calls, one stage per module:

- **Columns**: header normalisation (`normalize_col`), the header-to-name renaming
  (`build_column_map`) and the required-column stop.
- **Categories**: the 24-entry table from detailed to representative category (`CATEGORY_MAP`,
  `map_category`).
- **Staff**: the staff-name detector over the 45-entry roster (`TEACHER_NAMES`,
  `detect_teacher`).
- **Terms**: keyword extraction (`preprocess_text`) and the ten most frequent keywords
  (`Counter(words).most_common(10)`).
- **Grouping**: the derived columns, the question rows `q_df`, `grouped`, the staff mentions of
  a group, and the keyword-match subset with its count.
- **Report**: the per-category loop with its failure marker, the report text, and the whole
  run as a function (`Analyze`) and a method (`Run`).

Support modules:

- **Text**: Python's `str` operations the program relies on: whitespace, `strip`, `in`,
  `lower`, `join`, and string order.
- **Seqs**: comprehension filters, first positions and pandas' order-keeping `unique()`.
- **Sorting**: an insertion sort by a strict total order.
- **Wrappers**: `Option` and `Result`.

A missing spreadsheet cell is `None`. Where the program converts a cell with `str(...)`, a
missing one reads as `"nan"`, pandas' text for NaN (`Text.CellText`). The generation call is a
parameter `generate: Request -> Reply`. `Request` holds what the prompt says about one group.
`Reply` is `Success(text)` or `Failure(error)`, the latter modelling the exception the call may
raise.

Three behaviours of the code are easy to misread:

- Groups come out in ascending code-point order of their category, because `groupby` sorts by
  default. They do not come out in order of first appearance.
- An unmapped category is returned as it was, without stripping. Only the lookup key is
  stripped.
- The keyword subset tests the raw `카테고리` text, not the representative category.

## Model

| member | source | states |
|---|---|---|
| Columns.KeyKeepsOthers | cs_report_auto_v4.py:44-50 | a non-whitespace character survives normalisation in its place: the key of `a + [c] + b` is the key of `a`, then `c`, then the key of `b` |
| Columns.NormalizeColIdempotent | cs_report_auto_v4.py:44-50 | the normalised header holds no whitespace (U+00A0 included); a header without whitespace is unchanged; normalising twice equals normalising once |
| Columns.NonBreakingSpaceRemoved | cs_report_auto_v4.py:49 | a non-breaking space U+00A0 anywhere in a header makes no difference to its normalised form |
| Columns.KeyIgnoresSpace | cs_report_auto_v4.py:48-49 | deleting any one whitespace character (U+00A0 included) from a header leaves its normalised form unchanged |
| Columns.LastIndexIsLast | cs_report_auto_v4.py:55 | the header kept for a key is the last one with that key; no later header has it |
| Columns.NormToActual | cs_report_auto_v4.py:55 | `norm_to_actual` has exactly the keys of the headers, and each key maps to the last header with that key, whose key it is |
| Columns.ResolveSources | cs_report_auto_v4.py:57-60 | every entry of the mapping sends a header to the required name that header's key equals |
| Columns.ResolveFinds | cs_report_auto_v4.py:57-60 | every name whose key some header has gets that header in the mapping, independently of the other names |
| Columns.ResolveSize | cs_report_auto_v4.py:56-60 | the mapping has no more entries than there are names |
| Columns.ColumnMapEntries | cs_report_auto_v4.py:53-61 | every key of the final mapping is an actual header, the last one with its key, and its value is the required name equal to that key |
| Columns.ColumnMapCovers | cs_report_auto_v4.py:53-61 | a required name appears as a value exactly when some header normalises to it |
| Columns.ColumnMapSize | cs_report_auto_v4.py:54-61 | the mapping has at most three entries |
| Columns.ResolveOrderFree | cs_report_auto_v4.py:54-60 | walking the required set in any order without repeats that holds each name gives the same mapping, so the set's iteration order does not matter |
| Columns.BuildColumnMap | cs_report_auto_v4.py:53-61 | the loop over the required names returns the mapping characterised above (order-free, as the source iterates a set) |
| Columns.RequiredCheckIff | cs_report_auto_v4.py:163-169 | after renaming, the required-column check passes exactly when every required name is the normalised form of some header |
| Categories.ValuesAreLabels | cs_report_auto_v4.py:64-89 | every table value is one of the four representative labels |
| Categories.LabelsAreFinal | cs_report_auto_v4.py:64-89 | no label is a key of the table and every label is already stripped |
| Categories.MapCategoryLookup | cs_report_auto_v4.py:91-92 | a value whose stripped text is a key maps to its entry; any other present value comes back unchanged and unstripped; a missing cell stays missing |
| Categories.MapCategoryRange | cs_report_auto_v4.py:91-92 | the result is missing exactly when the input is, and is either the input or one of the four labels |
| Categories.MapCategoryIdempotent | cs_report_auto_v4.py:64-92 | applying `map_category` twice equals applying it once |
| Staff.FirstMention | cs_report_auto_v4.py:106-110 | a found name is contained in the text and no earlier list entry is; nothing is found exactly when no entry is contained |
| Staff.DetectTeacher | cs_report_auto_v4.py:106-110 | the loop with early return finds the first roster name contained in `str(text)` |
| Staff.StaffInRoster | cs_report_auto_v4.py:95-110 | a detected name is a roster name that the text contains |
| Staff.RosterOrderWins | cs_report_auto_v4.py:106-110 | priority follows roster order: the earliest roster name occurring anywhere in the text is returned |
| Staff.NoHangulNoStaff | cs_report_auto_v4.py:95-110 | a text without Hangul syllables mentions no staff |
| Staff.MissingContentHasNoStaff | cs_report_auto_v4.py:106-110 | a missing content cell (text "nan") mentions no staff |
| Terms.RunLength | cs_report_auto_v4.py:114 | a token is the longest run of `[가-힣a-zA-Z]` characters at its start |
| Terms.TokensAreWords | cs_report_auto_v4.py:114 | every token found by the pattern is a non-empty run of its character class |
| Terms.TokensSplit | cs_report_auto_v4.py:114 | a character outside the class separates: the tokens of `a + [c] + b` are those of `a` followed by those of `b` |
| Terms.AllWordOneToken | cs_report_auto_v4.py:114 | a text made only of class characters is a single token |
| Terms.NoWordNoTokens | cs_report_auto_v4.py:114 | a text with no class character has no tokens |
| Terms.TokensOfJoin | cs_report_auto_v4.py:114 | joining the texts with a blank makes no token that spans two texts |
| Terms.PreprocessTextSpec | cs_report_auto_v4.py:113-115 | the terms are the tokens of each text in turn that are longer than one character, and each is a word of its class |
| Terms.PreprocessTextAppend | cs_report_auto_v4.py:113-115 | preprocessing two lists of texts equals preprocessing each and concatenating |
| Terms.MostCommonShape | cs_report_auto_v4.py:225 | `most_common(n)` keeps `min(n, distinct words)` distinct words, all of them from the list |
| Terms.MostCommonOrder | cs_report_auto_v4.py:225 | kept words have non-increasing counts; equal counts keep first-occurrence order |
| Terms.MostCommonMaximal | cs_report_auto_v4.py:225 | no word left out ranks before a kept one |
| Terms.MostCommonKeepsMoreFrequent | cs_report_auto_v4.py:225 | a word more frequent than a kept word is kept |
| Grouping.Annotate | cs_report_auto_v4.py:172-173 | the derived columns keep the row, the representative category is missing exactly when the category is and is the category or a label, and a detected staff name is a roster name the content contains |
| Grouping.QuestionsSpec | cs_report_auto_v4.py:175-178 | `q_df` holds exactly the rows of type "Q" with content and representative category; it is empty exactly when no row qualifies |
| Grouping.QuestionsAppend | cs_report_auto_v4.py:175 | the filter keeps row order |
| Grouping.GroupKeysSpec | cs_report_auto_v4.py:180 | the group keys are strictly ascending, distinct, and exactly the representative categories of the questions |
| Grouping.MembersAppend | cs_report_auto_v4.py:180 | a category's content list follows row order |
| Grouping.MembersOfRow | cs_report_auto_v4.py:180 | a question's content is in its own category's list and does not count towards any other |
| Grouping.GroupedAscending | cs_report_auto_v4.py:180 | `grouped` lists its categories in strictly ascending order |
| Grouping.GroupOfQuestion | cs_report_auto_v4.py:180 | every question's category has a group whose list holds the question's content |
| Grouping.QuestionOfGroup | cs_report_auto_v4.py:180 | every group's category is that of some question |
| Grouping.GroupedSize | cs_report_auto_v4.py:180 | the list lengths sum to the number of questions |
| Grouping.GroupedEmpty | cs_report_auto_v4.py:175-180 | there are no groups exactly when there are no rows with a representative category |
| Grouping.StaffNamesMembers | cs_report_auto_v4.py:230 | the staff column of a category's rows, without missing and empty values, holds exactly the names detected in them |
| Grouping.MentionsSpec | cs_report_auto_v4.py:229-231 | the staff mentions of a group are distinct, non-empty, exactly the names detected in its questions, and in first-occurrence order |
| Grouping.MentionsAreStaff | cs_report_auto_v4.py:229-231 | every mention is a roster name |
| Grouping.AnyContainedIff | cs_report_auto_v4.py:186 | `any(...)` over the keywords holds exactly when one lower-cased keyword is contained |
| Grouping.ContainsKeywordIff | cs_report_auto_v4.py:185-186 | `contains_keyword` holds exactly when the lower-cased `str(text)` contains some lower-cased keyword |
| Grouping.KeywordRowsSpec | cs_report_auto_v4.py:188-194 | `keyword_df` holds exactly the rows of type Q or A whose raw category text contains the target and whose content contains a keyword; `keyword_count` is their number |
| Grouping.MissingContentNoKeyword | cs_report_auto_v4.py:185-191 | a row without content never matches, since "nan" holds no keyword |
| Report.SampleSpec | cs_report_auto_v4.py:226 | only the first 30 questions are quoted; a group of at most 30 is quoted whole, joined by newlines |
| Report.MentionLineSpec | cs_report_auto_v4.py:235-237 | the mention line is empty exactly when nobody is mentioned; otherwise it starts with the fixed phrase and names every mentioned person |
| Report.RequestForSpec | cs_report_auto_v4.py:224-254 | the prompt names the category, counts all of its questions, and lists at most ten distinct keywords from its questions, each longer than one character |
| Report.RequestsDiffer | cs_report_auto_v4.py:240-254 | groups with different categories get different prompts |
| Report.SummarySpec | cs_report_auto_v4.py:256-264 | a failed call gives "(요약 실패: " + error + ")"; a successful reply gives a slice of the reply from which only whitespace was cut on either side and which has no whitespace left at either end, i.e. its stripped text |
| Report.SummarizeGroups | cs_report_auto_v4.py:223-285 | the loop appends one card per group, in group order, built from that group's own reply |
| Report.FailureIsolation | cs_report_auto_v4.py:256-285 | when the call for one group fails, that group's card carries the failure marker and every other card is unchanged |
| Report.ReportTextSpec | cs_report_auto_v4.py:289 | the report starts with the fixed heading and contains every card; one more card adds a newline and that card at the end |
| Report.Run | cs_report_auto_v4.py:163-289 | the run takes the program's steps in order and its outcome is `Analyze` |
| Report.AnalyzeMissingColumns | cs_report_auto_v4.py:163-169 | the run stops for missing columns exactly when some required name is not the normalised form of any header |
| Report.AnalyzeNoQuestions | cs_report_auto_v4.py:175-178 | past the column check, the run stops exactly when no row is a question |
| Report.AnalyzeSuccess | cs_report_auto_v4.py:175-289 | a run completes exactly when every required name is the normalised form of some header and some row of the table is a question row |
| Report.CompleteGroups | cs_report_auto_v4.py:180-194 | after the stops the groups are non-empty in number, ascending and hold every question once; the keyword count is the number of matching rows of the whole table |
| Report.CardsSpec | cs_report_auto_v4.py:262-284 | every group's card opens with `**[category]**` on its own line, and a group whose call raised carries the failure marker with the error text |
| Report.CompleteCards | cs_report_auto_v4.py:223-287 | after the stops there is one card per group, the report opens with the fixed heading and contains every card, and a failed group's card carries the failure marker |
| Text.StripIdempotent | cs_report_auto_v4.py:92 | `strip` is idempotent |
| Text.ContainsIff | cs_report_auto_v4.py:108 | Python's `p in s` holds exactly when `p` occurs at some position |
| Sorting.SortBySorted | cs_report_auto_v4.py:180 | sorting distinct elements by a strict total order yields a strictly ordered list with no repeats |
| Seqs.DistinctSpec | cs_report_auto_v4.py:230 | `unique()` lists every element once and nothing else, in order of first occurrence |

## Left out

- The Streamlit interface is not modelled: page setup, styles, sidebar, cards, the two-column
  layout, badges, the displayed `teacher_info_line`, and warnings and errors as displays. The two
  stops are modelled as the errors `MissingColumns` and `NoQuestions`.
- File upload, `pd.read_excel` and its failure, `to_excel`, `BytesIO` and the download buttons
  are I/O. The input is a header list and rows of optional text cells.
- Environment loading, API keys, the model name and the temperature slider are not modelled. The
  generation call is the parameter `generate`.
- The progress-bar value `i / len(grouped)` is a UI float.
- Report.RequestFor: the prompt is a structured `Request` holding what the prompt interpolates.
  Its fixed wording and the natural-language constraints it states are not modelled.
- Text.Lower: lower-cases ASCII letters only. The keywords and the Hangul text have no other case
  mapping that matters, but other scripts' case folding is not modelled.
- Text.IsSpace is a fixed table: Python's `str.isspace` set, which equals what `\s` matches in a
  `str` pattern and what `strip()` removes.
- Cells are text or missing. Numbers, dates and other cell types, and their `str` forms (other
  than "nan"), are not modelled.
- Report.ReadRow: when renaming leaves two columns with the same required name, pandas returns a
  frame; the model reads the first such column.
- Grouping.InKeywordSubset: `str.contains` uses a regular expression. The target
  "모바일 기기 - 모바일 기기" has no metacharacter, so plain substring search is modelled.
- Python's iteration order over the `REQUIRED` set is not modelled. The model walks one fixed
  order, and `Columns.ResolveOrderFree` proves that every other order gives the same mapping.
