/** Choosing which issues to work on (`loadIssues` in
    github-issues/js/src/index.ts and github-issues/js/evals/load.ts).

    The cached dump holds one JSON issue per line. Empty lines are dropped,
    the rest parsed, the issues sorted by creation time with a stable sort,
    pull requests dropped, and the first `N_ISSUES` kept. Reading and
    downloading the dump is left out; `JSON.parse` is a parameter, and a
    creation time is the integer timestamp `new Date(..).getTime()` gives. */
module IssueSelection {
  import opened Sequences
  import opened StableSort
  import opened Text

  /** How many issues the experiment script keeps. */
  const N_ISSUES: nat := 20

  /** How many issues the evaluation loader keeps. */
  const N_ISSUES_EVAL: nat := 1

  datatype Issue = Issue(url: string, title: string, pageContent: string,
                         createdAt: int, isPullRequest: bool)

  /** The sort key: the comparator `a - b` on creation times. */
  function CreatedAt(i: Issue): real {
    i.createdAt as real
  }

  predicate NotPullRequest(i: Issue) {
    !i.isPullRequest
  }

  predicate NonEmpty(line: string) {
    |line| > 0
  }

  /** `text.split("\n").filter((x) => x.length > 0)`: the lines of the dump
      that are not empty. A line of spaces is kept. */
  function NonEmptyLines(text: string): (r: seq<string>)
    ensures forall k :: 0 <= k < |r| ==> |r[k]| > 0 && '\n' !in r[k]
  {
    Filter(SplitOn(text, '\n'), NonEmpty)
  }

  /** `.map((x) => JSON.parse(x))`. */
  function ParseAll(lines: seq<string>, parse: string -> Issue): (r: seq<Issue>)
    ensures |r| == |lines|
    ensures forall k :: 0 <= k < |r| ==> r[k] == parse(lines[k])
  {
    seq(|lines|, k requires 0 <= k < |lines| => parse(lines[k]))
  }

  /** Sort by creation time, drop pull requests, keep the first `n`. */
  function SelectIssues(issues: seq<Issue>, n: nat): (r: seq<Issue>)
    ensures |r| <= n
    ensures forall k :: 0 <= k < |r| ==> !r[k].isPullRequest
    ensures SortedBy(r, CreatedAt)
  {
    var kept := Filter(Sort(issues, CreatedAt), NotPullRequest);
    FilterSorted(Sort(issues, CreatedAt), NotPullRequest, CreatedAt);
    Take(kept, n)
  }

  /** `loadIssues` once the dump has been read: the first `n` of the
      issues parsed from the non-empty lines that are not pull requests,
      in stable creation order. */
  function LoadIssues(text: string, parse: string -> Issue, n: nat): (r: seq<Issue>)
    ensures r == Take(Sort(Filter(ParseAll(NonEmptyLines(text), parse), NotPullRequest), CreatedAt), n)
  {
    var issues := ParseAll(NonEmptyLines(text), parse);
    SelectIsSortOfNonPullRequests(issues, n);
    SelectIssues(issues, n)
  }

  /** Sorting before dropping pull requests gives what sorting the other
      issues would: the result is the first `n` of the non-PR issues in
      stable creation order, ties in file order. */
  lemma SelectIsSortOfNonPullRequests(issues: seq<Issue>, n: nat)
    ensures SelectIssues(issues, n) == Take(Sort(Filter(issues, NotPullRequest), CreatedAt), n)
  {
    SortThenFilter(issues, NotPullRequest, CreatedAt);
  }

  /** Every returned issue is one of the input's non-PR issues, and no
      non-PR issue left out was created before a returned one. */
  lemma SelectedAreEarliest(issues: seq<Issue>, n: nat)
    ensures var r := SelectIssues(issues, n);
            forall k :: 0 <= k < |r| ==> r[k] in issues
    ensures var r := SelectIssues(issues, n);
            forall e, k :: e in issues && !e.isPullRequest && e !in r && 0 <= k < |r| ==>
              r[k].createdAt <= e.createdAt
  {
    var sorted := Sort(issues, CreatedAt);
    var kept := Filter(sorted, NotPullRequest);
    var r := SelectIssues(issues, n);
    assert r == Take(kept, n);
    FilterSorted(sorted, NotPullRequest, CreatedAt);
    forall k | 0 <= k < |r|
      ensures r[k] in issues
    {
      assert r[k] == kept[k];
      assert kept[k] in multiset(sorted);
    }
    forall e, k | e in issues && !e.isPullRequest && e !in r && 0 <= k < |r|
      ensures r[k].createdAt <= e.createdAt
    {
      assert e in multiset(issues);
      var m :| 0 <= m < |sorted| && sorted[m] == e;
      assert e in kept;
      var j :| 0 <= j < |kept| && kept[j] == e;
      assert r[k] == kept[k];
      assert CreatedAt(kept[k]) <= CreatedAt(kept[j]);
    }
  }

  /** The loader keeps nothing exactly when every issue is a pull
      request. */
  lemma NothingOnlyWhenAllPullRequests(issues: seq<Issue>, n: nat)
    requires n > 0
    ensures |SelectIssues(issues, n)| == 0 <==>
              forall k :: 0 <= k < |issues| ==> issues[k].isPullRequest
  {
    var f := Filter(issues, NotPullRequest);
    SelectIsSortOfNonPullRequests(issues, n);
    if |f| > 0 {
      assert f[0] in issues;
    }
  }

  /** The head of the stable sort of the non-PR issues has the earliest
      creation time of them all. */
  lemma HeadIsEarliest(issues: seq<Issue>)
    requires |Filter(issues, NotPullRequest)| > 0
    ensures var h := Sort(Filter(issues, NotPullRequest), CreatedAt)[0];
            forall k :: 0 <= k < |issues| && !issues[k].isPullRequest ==>
              h.createdAt <= issues[k].createdAt
  {
    var f := Filter(issues, NotPullRequest);
    var sorted := Sort(f, CreatedAt);
    forall k | 0 <= k < |issues| && !issues[k].isPullRequest
      ensures sorted[0].createdAt <= issues[k].createdAt
    {
      assert issues[k] in multiset(sorted);
      var m :| 0 <= m < |sorted| && sorted[m] == issues[k];
      assert CreatedAt(sorted[0]) <= CreatedAt(sorted[m]);
    }
  }

  /** Among the non-PR issues created at that earliest time, the head of the
      stable sort is the first in the file. */
  lemma HeadIsFirstInFile(issues: seq<Issue>)
    requires |Filter(issues, NotPullRequest)| > 0
    ensures var h := Sort(Filter(issues, NotPullRequest), CreatedAt)[0];
            exists i :: 0 <= i < |issues| && issues[i] == h
              && forall j :: 0 <= j < i && !issues[j].isPullRequest ==>
                   issues[j].createdAt != h.createdAt
  {
    var f := Filter(issues, NotPullRequest);
    var sorted := Sort(f, CreatedAt);
    var k0 := CreatedAt(sorted[0]);
    SortStable(f, CreatedAt);
    assert WithKey(sorted, CreatedAt, k0) == WithKey(f, CreatedAt, k0);
    assert WithKey(sorted, CreatedAt, k0)[0] == sorted[0];
    FirstWithKey(issues, NotPullRequest, CreatedAt, k0);
  }

  /** With `N_ISSUES_EVAL` = 1 the loader returns the earliest non-PR issue,
      and among the earliest the first in the file. */
  lemma EvalPicksEarliest(issues: seq<Issue>)
    requires exists k :: 0 <= k < |issues| && !issues[k].isPullRequest
    ensures var r := SelectIssues(issues, N_ISSUES_EVAL);
            && |r| == 1
            && (forall k :: 0 <= k < |issues| && !issues[k].isPullRequest ==>
                  r[0].createdAt <= issues[k].createdAt)
            && exists i :: 0 <= i < |issues| && issues[i] == r[0]
                 && forall j :: 0 <= j < i && !issues[j].isPullRequest ==>
                      issues[j].createdAt != r[0].createdAt
  {
    NothingOnlyWhenAllPullRequests(issues, N_ISSUES_EVAL);
    SelectIsSortOfNonPullRequests(issues, N_ISSUES_EVAL);
    var k :| 0 <= k < |issues| && !issues[k].isPullRequest;
    assert issues[k] in Filter(issues, NotPullRequest);
    HeadIsEarliest(issues);
    HeadIsFirstInFile(issues);
  }

  /** Empty lines never reach the parser: a dump written as the lines
      `lines` loads as if only its non-empty lines had been there. */
  lemma EmptyLinesIgnored(lines: seq<string>, parse: string -> Issue, n: nat)
    requires |lines| >= 1
    requires forall k :: 0 <= k < |lines| ==> '\n' !in lines[k]
    ensures LoadIssues(Join(lines, '\n'), parse, n)
              == SelectIssues(ParseAll(Filter(lines, NonEmpty), parse), n)
  {
    SplitJoinRoundTrip(lines, '\n');
  }
}
