# braintrust-examples core, modelled in Dafny

This project models the small pure transformations that sit between the
SDK calls in the braintrust example applications, and proves what they
promise:

- **help-docs, section cutting** (`buildMarkdownSections`). Each document
  is split at level-1 setext headings: a title line followed by a line of
  `=`. Section ids are globally consecutive.
- **help-docs, QA rows** (`setupQAPairs`). Generated question/answer pairs
  are flattened into evaluation rows with a train/test split.
- **help-docs, retrieval** (`rag.eval.ts`). Scored vectors get a stable
  descending sort. The first three are kept, then the first `TOP_K`, and
  their sections are looked up by id.
- **github-issues**:
  - the request-keyed response cache `cachedChatCompletion`;
  - the grade parser `parseBestTitle` and the winner/valid scores;
  - the issue selection in `loadIssues`, in both of its copies;
  - the issue-URL splitter of the `ghissue` route.
- **classify**: `getCategoryFromResponse`, the `match`/`valid` scores,
  `loadDataset`'s normalisation and the first-invalid `findIndex`.

| file | module | what it holds |
|---|---|---|
| `wrappers.dfy` | `Wrappers` | `Option`, `Result` |
| `sequences.dfy` | `Sequences` | `Take` (`slice(0, n)`), `Filter`, concatenation facts |
| `text.dfy` | `Text` | JavaScript `trim`, ASCII `toLowerCase`, `parseInt`, `split`/`join` on one character |
| `stable_sort.dfy` | `StableSort` | a stable sort by a numeric key, with its uniqueness |
| `markdown_sections.dfy` | `MarkdownSections` | the heading recogniser, the split, the fold into sections |
| `qa_rows.dfy` | `QaRows` | `setupQAPairs` |
| `retrieval.dfy` | `Retrieval` | vectors, ranking, top-3 / top-`TOP_K`, section lookup |
| `response_cache.dfy` | `ResponseCache` | `cachedChatCompletion` as get-or-compute over a row store |
| `title_grade.dfy` | `TitleGrade` | `parseBestTitle`, the winner/valid scores |
| `issue_selection.dfy` | `IssueSelection` | `loadIssues` after the dump is read |
| `issue_url.dfy` | `IssueUrl` | owner/repo/number from an issue URL |
| `classification.dfy` | `Classification` | the classify scoring functions |

Two files are kept as two copies of the same code in the source:

- `classify/javascript/src/utils.ts` and `classify/js/src/index.ts` hold the
  same classify functions. They are modelled once.
- `github-issues/js/src/index.ts` and `github-issues/js/evals/load.ts` hold
  the same `loadIssues`, differing only in `N_ISSUES` (20 and 1). It is
  modelled once, with the count as a parameter.

Several inputs the source gets from outside become parameters:

- the embedding and the similarity;
- the question generator;
- the upstream completion call;
- `JSON.parse` of an issue line.

Creation times are integer timestamps, as `Date.getTime()` returns them.

## Model

| member | source | states |
|---|---|---|
| MarkdownSections.MatchIsHeading | help-docs/js/evals/load.ts:67 | The recogniser matches `.*\n=+\n` from `q` up to `e` exactly when `s[q..e]` is a title line without line terminators, a newline, one or more `=` and a newline. |
| MarkdownSections.SplitAtHeadingsShape | help-docs/js/evals/load.ts:67 | `split(/(.*\n=+\n)/)` gives an odd number of pieces. Their concatenation is the document. Even pieces contain no heading match, and odd pieces are captured headings. |
| MarkdownSections.PieceSectionsShape | help-docs/js/evals/load.ts:69-85 | One document yields exactly one section per non-blank, non-heading piece. Every section carries the document's id. Ids run consecutively from the counter's value. Every text is non-empty and trimmed. |
| MarkdownSections.PieceSectionsSnoc | help-docs/js/evals/load.ts:69-85 | A further piece adds nothing when it is blank or a heading. A body piece adds one section: its id is the next one, and its text is `trim(pending heading + body)`. |
| MarkdownSections.BlankPiecesIgnored | help-docs/js/evals/load.ts:70-72 | Removing every whitespace-only piece leaves the output unchanged. Blank pieces touch neither the pending heading nor the sections. |
| MarkdownSections.PendingUnused | help-docs/js/evals/load.ts:68-85 | When no body piece comes before the next heading or the end, the pending heading has no effect on the output. |
| MarkdownSections.HeadingSuperseded | help-docs/js/evals/load.ts:74-75 | A heading followed by another heading, or by the end of its document, with only blank pieces between, contributes nothing. |
| MarkdownSections.SectionsFromShape | help-docs/js/evals/load.ts:64-87 | Over several documents the ids continue from the start value without resetting. Every text is trimmed and non-empty, and every section's `docId` is the id of one of the documents. |
| MarkdownSections.SectionsFromSnoc | help-docs/js/evals/load.ts:64-87 | A further document appends its own sections after all earlier ones. They are numbered from where the counter stopped, so sections come in document order, then piece order. |
| MarkdownSections.BuildMarkdownSections | help-docs/js/evals/load.ts:64-87 | Section `k` has id `k`, a non-empty trimmed text, and the id of one of the documents. |
| QaRows.UsedSections | help-docs/js/evals/load.ts:140 | `slice(0, NUM_SECTIONS)`: the first `min(40, n)` sections, as a prefix. |
| QaRows.SetupQAPairs | help-docs/js/evals/load.ts:140-172 | The row count is the total number of questions over the used sections, and `metadata.id` of row `k` is `k`. |
| QaRows.RowsAreQuestions | help-docs/js/evals/load.ts:147-170 | Every row is built from one valid (section, pair, question) position, with `input` the question, `expected` the pair's answer and the section's ids copied. Every question of every used section has a row. The positions are in loop order. |
| QaRows.FallbackContributesNothing | help-docs/js/evals/load.ts:127-134 | A section whose reply fell back to `{pairs: []}` has no row. |
| QaRows.SplitRule | help-docs/js/evals/load.ts:147-170 | Read off the rows: row `k` is a test row exactly when its `question_idx` is not 0 and it is the last row or the next row's `question_idx` is 0. That is, it is the last question of a pair with at least two questions. |
| QaRows.TestRowsPerPair | help-docs/js/evals/load.ts:163-166 | A pair yields exactly one test row when it has at least two questions, and none otherwise. |
| QaRows.RowsOrdered | help-docs/js/evals/load.ts:147-170 | When section ids increase, as `buildMarkdownSections` numbers them, rows are strictly ordered by (section id, topic index, question index). |
| Retrieval.Vectors | help-docs/js/evals/rag.eval.ts:40-47 | One vector per section, in section order, carrying that section's `docId`, `sectionId` and embedding. |
| Retrieval.OrZero | help-docs/js/evals/rag.eval.ts:63 | `similarity \|\| 0`: a missing, NaN or zero score counts as 0, and any other number as itself. |
| Retrieval.Rank | help-docs/js/evals/rag.eval.ts:59-63 | After the sort, scores (falsy as 0) are non-increasing and the list is a permutation of the input. |
| Retrieval.RankStable | help-docs/js/evals/rag.eval.ts:63 | Entries with equal scores keep their input order. |
| Retrieval.RankUnique | help-docs/js/evals/rag.eval.ts:63 | Any non-increasing rearrangement that keeps equal scores in input order is the ranking, so every stable engine sort gives the same list. |
| Retrieval.RankedFromSections | help-docs/js/evals/rag.eval.ts:40-63 | Every ranked entry is the vector made from some section. |
| Retrieval.TopMany | help-docs/js/evals/rag.eval.ts:65 | `slice(0, 3)`: the first `min(3, n)` ranked entries, as a prefix. |
| Retrieval.TopManyIsBest | help-docs/js/evals/rag.eval.ts:65 | No entry left out of `topMany` has a strictly higher score than a kept one. |
| Retrieval.Contexts | help-docs/js/evals/rag.eval.ts:98-100 | `splice(0, TOP_K)`: the first `min(2, n)` entries of `topMany`, so at most two, all drawn from it. |
| Retrieval.SectionAt | help-docs/js/evals/rag.eval.ts:100 | `sections[id].markdown` succeeds exactly for an id in range and reads that section. Otherwise it throws. |
| Retrieval.ContextTexts | help-docs/js/evals/rag.eval.ts:98-100 | The lookup succeeds exactly when every kept id is in range, and then gives one text per entry. |
| Retrieval.ContextTextsValues | help-docs/js/evals/rag.eval.ts:98-100 | A successful lookup returns, in order, the markdown of each entry's section. |
| Retrieval.EvalSections | help-docs/js/evals/rag.eval.ts:30 | The kept sections are numbered 0, 1, 2, … by position. |
| Retrieval.LookupFindsProducer | help-docs/js/evals/rag.eval.ts:69 | On sections numbered by position, `sections[v.sectionId]` is in range and is the section the ranked vector `v` was made from. |
| Retrieval.Similarities | help-docs/js/evals/rag.eval.ts:59-62 | One scored entry per vector, in order, each carrying its vector and that vector's score against the query. |
| Retrieval.Retrieve | help-docs/js/evals/rag.eval.ts:59-100 | One query fails exactly when one of the three `topMany` entries has a section id out of range, because those sections are read for relevance and for the log before the cut to `TOP_K`. Otherwise it returns one text per kept context, each that context's section markdown, in order. |
| Retrieval.RetrieveSucceeds | help-docs/js/evals/rag.eval.ts:98-100 | On the evaluation's own sections the retrieval never throws. It returns at most `TOP_K` texts, each the markdown of the section its entry came from. |
| StableSort.Sort | help-docs/js/evals/rag.eval.ts:63 | The sort returns a permutation of its input, ordered by key. |
| StableSort.SortStable | help-docs/js/evals/rag.eval.ts:63 | The sort keeps equal-key elements in input order. |
| StableSort.SortUnique | help-docs/js/evals/rag.eval.ts:63 | Two sorted sequences with the same elements of each key, in the same order, are equal. |
| StableSort.SortIsTheStableSort | help-docs/js/evals/rag.eval.ts:63 | Any sorted, order-preserving rearrangement of `s` equals `Sort(s)`. |
| StableSort.SortThenFilter | github-issues/js/src/index.ts:231-238 | Filtering after a stable sort equals stably sorting the filtered sequence. |
| StableSort.FirstWithKey | github-issues/js/evals/load.ts:40-47 | The head of the kept elements of key `k` is at a position before which no kept element has key `k`. |
| Text.TrimSpec | help-docs/js/evals/load.ts:81 | `trim` returns a slice of its input, with only white space removed at each end. It is empty exactly for an all-white-space input, and it leaves no white space at either end. |
| Text.LowerIdempotent | classify/javascript/src/utils.ts:44 | Lower-casing twice is lower-casing once. |
| Text.DecimalRoundTrip | github-issues/js/app/api/ghissue/route.ts:26 | Reading the canonical decimal spelling of `n` gives `n`. |
| Text.ParseInt | github-issues/js/app/api/ghissue/route.ts:26 | `parseInt` gives a number exactly when the string starts with a digit. |
| Text.ParseIntRoundTrip | github-issues/js/app/api/ghissue/route.ts:26 | `parseInt` reads the decimal spelling of `n`, followed by anything not starting with a digit, as `n`. |
| Text.SplitOn | github-issues/js/app/api/ghissue/route.ts:18 | `split` on one character yields at least one piece, and no piece contains the separator. |
| Text.JoinSplitRoundTrip | github-issues/js/app/api/ghissue/route.ts:18 | Joining the pieces of a split with the separator restores the string. |
| Text.SplitJoinRoundTrip | github-issues/js/src/index.ts:225 | Splitting the join of separator-free pieces gives the pieces back. |
| ResponseCache.Lookup | github-issues/js/src/index.ts:262-271 | The query finds a row exactly when some stored row has the key, and what it returns is stored under that key. |
| ResponseCache.LookupFirst | github-issues/js/src/index.ts:262-264 | The query returns the response of the first row with the key. |
| ResponseCache.GetOrCompute | github-issues/js/src/index.ts:260-284 | On a hit: the stored response, no upstream call, store unchanged. On a miss: exactly one upstream call. A successful miss appends one (key, response) row and returns the response. A failed miss propagates the error and stores nothing. |
| ResponseCache.AppendOnly | github-issues/js/src/index.ts:272-281 | Rows are never changed or removed. The store grows by at most one row. |
| ResponseCache.KeepsKeysUnique | github-issues/js/src/index.ts:272-281 | A call never adds a second row for a key already stored. |
| ResponseCache.SecondCallIsHit | github-issues/js/src/index.ts:260-284 | After a successful call, the same request is answered from the store with the same response and no upstream call. |
| ResponseCache.Transparent | github-issues/js/src/index.ts:272-283 | Over a store that agrees with upstream, a call answers what upstream would, and the store keeps agreeing. |
| ResponseCache.Run | github-issues/js/src/index.ts:260-284 | A sequential run answers every request, makes at most one upstream call per request, and only appends to the store. |
| ResponseCache.RunKeepsKeysUnique | github-issues/js/src/index.ts:259-281 | A sequential run never stores two rows with the same key, although the table has no uniqueness constraint. |
| ResponseCache.RunTransparent | github-issues/js/src/index.ts:272-283 | Over a store that agrees with upstream, every answer in a run is upstream's answer. |
| ResponseCache.RunCallsOnlyMisses | github-issues/js/src/index.ts:272-276 | A request is sent upstream only when the store had no row for it at the start of the run. |
| ResponseCache.RunCallsEachKeyOnce | github-issues/js/src/index.ts:272-281 | When upstream never fails, no request is sent upstream twice in a run. |
| TitleGrade.FirstWinner | github-issues/js/src/index.ts:200 | Finds the leftmost position where `Winner: ` followed by a digit starts, or reports that there is none. |
| TitleGrade.ParseBestTitle | github-issues/js/src/index.ts:198-201 | A number comes back exactly when the grade contains a case-sensitive `Winner: ` followed by a digit. |
| TitleGrade.ParseBestTitleValue | github-issues/js/src/index.ts:198-201 | When `p` is the leftmost position of `Winner: ` followed by a digit, and the digits after the tag run to `e` with a non-digit or the end after them, the grade reads as the decimal value of those digits. |
| TitleGrade.ParseBestTitleRoundTrip | github-issues/js/src/index.ts:198-201 | A grade with `Winner: n`, no earlier match and no digit straight after `n`, parses to `n`, whatever text comes before it. |
| TitleGrade.WordsBeforeTheTag | github-issues/js/src/index.ts:198-201 | `Well. Winner: 1` reads as 1: prose before the tag, even prose starting with `W`, does not hide the match. |
| TitleGrade.ScoreGrade | github-issues/js/src/index.ts:146-152 | Both scores are in {0, 1}. `winner` is 1 exactly when the parsed value is 1. `valid` is 0 exactly when parsing fails, and then `winner` is 0. |
| TitleGrade.AnalyzeExperiment | github-issues/js/src/index.ts:144-152 | One pair of scores per grade, in order, each the grade's own scores. |
| IssueSelection.NonEmptyLines | github-issues/js/src/index.ts:223-226 | The kept lines are non-empty and contain no newline. |
| IssueSelection.LoadIssues | github-issues/js/src/index.ts:223-238 | The loaded issues are the first `n` of the stable creation-time sort of the non-PR issues parsed from the non-empty lines. |
| IssueSelection.SelectIssues | github-issues/js/src/index.ts:231-238 | At most `n` issues, none a pull request, in ascending creation time. |
| IssueSelection.SelectIsSortOfNonPullRequests | github-issues/js/src/index.ts:231-238 | The result is the first `n` of the stable creation-time sort of the non-PR issues, so ties are in file order. |
| IssueSelection.SelectedAreEarliest | github-issues/js/src/index.ts:231-238 | Every returned issue is an input issue. No non-PR issue left out was created before a returned one. |
| IssueSelection.EmptyLinesIgnored | github-issues/js/evals/load.ts:32-36 | A dump loads as if only its non-empty lines had been there. |
| IssueSelection.NothingOnlyWhenAllPullRequests | github-issues/js/evals/load.ts:47 | The loader returns nothing exactly when every issue is a pull request. |
| IssueSelection.HeadIsEarliest | github-issues/js/evals/load.ts:40-47 | The first issue of the stable sort of the non-PR issues has the earliest creation time among them. |
| IssueSelection.HeadIsFirstInFile | github-issues/js/evals/load.ts:40-47 | Among the non-PR issues created at that time, it is the first in the file. |
| IssueSelection.EvalPicksEarliest | github-issues/js/evals/load.ts:6-47 | With `N_ISSUES` = 1 and at least one non-PR issue, the loader returns exactly one issue. It was created no later than any non-PR issue and comes first in the file among the earliest. |
| IssueUrl.LastFour | github-issues/js/app/api/ghissue/route.ts:18 | `slice(-4)`: the last `min(4, n)` segments, as a suffix. |
| IssueUrl.ParseIssueUrl | github-issues/js/app/api/ghissue/route.ts:14-26 | Reading the reference fails exactly when the `url` parameter is missing. |
| IssueUrl.ReadsLastFourSegments | github-issues/js/app/api/ghissue/route.ts:18-26 | With at least four segments: owner is the 4th-from-last, repo the 3rd-from-last, and the number is `parseInt` of the last. Neither owner nor repo holds `/`. |
| IssueUrl.JoinedSegments | github-issues/js/app/api/ghissue/route.ts:18-26 | Segments joined with `/` are read back as they were joined, whatever comes before the last four. |
| IssueUrl.ThirdSegmentIgnored | github-issues/js/app/api/ghissue/route.ts:18 | The 2nd-from-last segment is never checked: changing it changes nothing. |
| IssueUrl.GithubIssueUrl | github-issues/js/app/api/ghissue/route.ts:17-26 | `https://github.com/O/R/issues/N` gives owner `O`, repo `R` and number `N`. |
| IssueUrl.DigitNumber | github-issues/js/app/api/ghissue/route.ts:26 | An all-digit last segment is passed on as its decimal value. |
| IssueUrl.LastFourIsSuffix | github-issues/js/app/api/ghissue/route.ts:18 | The four segments used, joined with `/`, are a suffix of the URL. |
| Classification.CategoryOf | classify/javascript/src/utils.ts:35-45 | `""` when there is no choice, no message, or missing or empty content. Otherwise a string of the content's non-zero length that equals the content up to case, character by character, and has no ASCII capital: the content lower-cased. |
| Classification.LaterChoicesIgnored | classify/javascript/src/utils.ts:39-44 | Only the first choice matters. |
| Classification.CategoryIsLowerCase | classify/javascript/src/utils.ts:44 | Lower-casing the category again changes nothing. |
| Classification.IndexOfCategory | classify/javascript/src/utils.ts:73 | `indexOf` is -1 exactly when the category is absent. Otherwise it is the first position holding it. |
| Classification.ExpectedCategory | classify/javascript/src/utils.ts:62 | `categories[label].toLowerCase()` succeeds exactly for a label in range, and is that category lower-cased. |
| Classification.ScoreTitle | classify/javascript/src/utils.ts:61-73 | Both scores are 0/1. `match` is 1 exactly when the category equals the expected one. `valid` is 1 exactly when the category is one of `categories`. Scoring fails exactly when the label is out of range. |
| Classification.AnalyzeExperiment | classify/js/src/index.ts:128-147 | Scoring succeeds exactly when every title has a response and an in-range label. Then it gives one pair of scores per title, in order. |
| Classification.LabelFeature | classify/javascript/src/utils.ts:144-146 | `find` stops at the first feature named `label`, or finds none. |
| Classification.LabelNames | classify/javascript/src/utils.ts:144-148 | The names of the first feature named `label`, or none when there is no such feature or it has no names. |
| Classification.LoadDataset | classify/javascript/src/utils.ts:136-153 | One title per row, in row order, with the row's text and label. The categories are the label names in their order, each equal to its name up to case and already lower-case. Without a `label` feature, or without names on it, there are none. |
| Classification.LoadedCategories | classify/javascript/src/utils.ts:144-148 | The categories are the `label` feature's names lower-cased, in their order, or none when there is no such feature or it has no names. |
| Classification.MatchImpliesValid | classify/javascript/src/utils.ts:62-73 | With categories as `loadDataset` leaves them, a `match` of 1 implies a `valid` of 1. |
| Classification.InvalidIndex | classify/js/src/index.ts:200-203 | `findIndex` returns the smallest index whose category is not in `categories`, or -1 when every category is. |

## Left out

- File, network and database I/O is left out: downloads, gunzip, `fs` reads and writes, and the SQLite calls. The store and the dump are values, and a database read error is not modelled.
- Every SDK call (OpenAI, Braintrust, Chroma, Octokit) and the prompt texts are left out. The embedding, the similarity, the question generator and the upstream completion are parameters.
- Concurrency is left out: the `throttledQueue` rate limit, the `Promise.all` fan-out, the `sectionsStarted` counter, and the insert that is not awaited, which lets concurrent misses store a key twice. One sequential run is modelled.
- Floating point is left out: cosine similarity, and the relevance minimum, maximum and average (`Math.min` of an empty list is `Infinity`). A score is a `Similarity`: missing, NaN, or a real.
- `JSON.stringify` is taken to be injective, so the cache is keyed by the request itself. A stored response is taken to read back as the value stored. `JSON.parse` of an issue line is a parameter.
- `new Date(..)` parsing is left out: creation times are integers. An unparseable date (NaN in the comparator) is not modelled.
- Text.Lower: only ASCII letters are lower-cased; JavaScript's full-Unicode `toLowerCase` is not modelled.
- Text.ParseInt: leading white space, a sign, a radix prefix and precision loss above 2^53 are not modelled. Only a string of decimal digits followed by a non-digit, without a `0x` prefix, is read as `parseInt` would.
- Strings are sequences of Unicode scalar values, not of UTF-16 code units as in JavaScript. This matters to none of the modelled operations, which only look at ASCII and BMP white space.
- QaRows.SetupQAPairs does not model the `qa_pairs.json` cache file written around it.
- Apart from the ranking and lookup modelled in `Retrieval`, the `.eval.ts` drivers and `classify/javascript/src/index.ts` only call the functions above. The relevance scores that `rag.eval.ts` computes for `topMany`, and its log, are left out; only the section reads they make are modelled. The UI components, the Next.js completion routes, the `QAchat` scripts and the prompt templates are not part of this model.
- TitleGrade.AnalyzeExperiment takes the grades as a sequence and does not model the experiment logging. An out-of-range read of `titleGrades[i]` cannot happen there, because the grades are made one per issue.
- QaRows.SetupQAPairs: two error paths of the question generator are not modelled. The completion call itself is outside the `try`, so a rejected call rejects the `Promise.all` and no rows are made. A reply that parses but has no `pairs`, or a pair without `questions`, throws in the loop instead of falling back. The model's generator gives either pairs or the `{pairs: []}` fallback.
- Classification.AnalyzeExperiment returns only the error when a title fails. The rows logged for the titles before it are not part of the result.
