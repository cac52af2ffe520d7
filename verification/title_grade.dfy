/** Reading which title a judging model preferred for an issue, and the two
    per-issue scores (github-issues/js/src/index.ts, `parseBestTitle` and
    `analyzeExperiment`).

    `parseBestTitle` runs `grade.match(/Winner: (\d+)/)` and reads the
    captured digits with `parseInt`; when nothing matches, `match` gives
    `null` and reading group 1 of it throws. The throw is `None` here. */
module TitleGrade {
  import opened Wrappers
  import opened Text

  const WINNER_TAG: string := "Winner: "

  /** `Winner: ` followed by at least one ASCII digit starts at `i`. */
  predicate WinnerAt(s: string, i: nat) {
    i + |WINNER_TAG| < |s| && s[i..i + |WINNER_TAG|] == WINNER_TAG && IsDigit(s[i + |WINNER_TAG|])
  }

  /** The first position from `i` on where the expression matches. */
  function FirstWinner(s: string, i: nat): (r: Option<nat>)
    requires i <= |s|
    ensures r.Some? ==> i <= r.value && WinnerAt(s, r.value)
    ensures r.Some? ==> forall m :: i <= m < r.value ==> !WinnerAt(s, m)
    ensures r.None? ==> forall m :: i <= m <= |s| ==> !WinnerAt(s, m)
    decreases |s| - i
  {
    if i + |WINNER_TAG| >= |s| then None
    else if WinnerAt(s, i) then Some(i)
    else FirstWinner(s, i + 1)
  }

  /** `parseBestTitle`: the number after the first `Winner: `, or `None`
      when the grade has no such match. */
  function ParseBestTitle(grade: string): (r: Option<nat>)
    ensures r.Some? <==> exists i :: 0 <= i <= |grade| && WinnerAt(grade, i)
  {
    match FirstWinner(grade, 0)
    case None => None
    case Some(i) =>
      var start := i + |WINNER_TAG|;
      var digits := grade[start..DigitsEnd(grade, start)];
      assert AllDigits(digits);
      Some(DecimalValue(digits))
  }

  /** The value is read from the digit run after the leftmost match: when
      `p` is the first position where `Winner: ` and a digit start, and the
      digits after the tag run up to `e`, where a non-digit or the end of
      the grade follows, the grade reads as the decimal value of that run. */
  lemma ParseBestTitleValue(grade: string, p: nat, e: nat)
    requires WinnerAt(grade, p)
    requires forall m :: 0 <= m < p ==> !WinnerAt(grade, m)
    requires p + |WINNER_TAG| < e <= |grade|
    requires AllDigits(grade[p + |WINNER_TAG|..e])
    requires e == |grade| || !IsDigit(grade[e])
    ensures ParseBestTitle(grade) == Some(DecimalValue(grade[p + |WINNER_TAG|..e]))
  {
    var start := p + |WINNER_TAG|;
    FirstWinnerIs(grade, p);
    assert forall m :: start <= m < e ==> grade[m] == grade[start..e][m - start];
    DigitsEndAt(grade, start, e);
  }

  /** The first match is the one at `p` when none starts before it. */
  lemma FirstWinnerIs(s: string, p: nat)
    requires WinnerAt(s, p)
    requires forall m :: 0 <= m < p ==> !WinnerAt(s, m)
    ensures FirstWinner(s, 0) == Some(p)
  {
  }

  lemma TagThenDigits(before: string, d: string, after: string)
    requires |d| > 0 && AllDigits(d)
    requires |after| > 0 ==> !IsDigit(after[0])
    ensures var s := before + WINNER_TAG + d + after;
            var start := |before| + |WINNER_TAG|;
            && WinnerAt(s, |before|)
            && DigitsEnd(s, start) == start + |d|
            && s[start..start + |d|] == d
  {
    var s := before + WINNER_TAG + d + after;
    var p := |before|;
    var start := p + |WINNER_TAG|;
    assert s[p..start] == WINNER_TAG;
    assert forall m :: 0 <= m < |d| ==> s[start + m] == d[m];
    assert s[start..start + |d|] == d;
    assert start + |d| < |s| ==> s[start + |d|] == after[0];
    DigitsEndAt(s, start, start + |d|);
  }

  /** A grade holding `Winner: n`, with no earlier match and no digit
      straight after `n`, is read as `n`. */
  lemma ParseBestTitleRoundTrip(before: string, n: nat, after: string)
    requires forall m :: 0 <= m < |before| ==> !WinnerAt(before + WINNER_TAG + DecimalString(n) + after, m)
    requires |after| > 0 ==> !IsDigit(after[0])
    ensures ParseBestTitle(before + WINNER_TAG + DecimalString(n) + after) == Some(n)
  {
    var d := DecimalString(n);
    var s := before + WINNER_TAG + d + after;
    var p := |before|;
    TagThenDigits(before, d, after);
    ParseBestTitleValue(s, p, p + |WINNER_TAG| + |d|);
    DecimalRoundTrip(n);
  }

  /** A grade that starts with prose before the tag is still read:
      `Well. Winner: 1` picks title 1. */
  lemma WordsBeforeTheTag()
    ensures ParseBestTitle("Well. " + WINNER_TAG + DecimalString(1) + "") == Some(1)
  {
    var before := "Well. ";
    var s := before + WINNER_TAG + DecimalString(1) + "";
    forall m | 0 <= m < |before|
      ensures !WinnerAt(s, m)
    {
      assert s[m + 1] != WINNER_TAG[1];
    }
    ParseBestTitleRoundTrip(before, 1, "");
  }

  datatype Scores = Scores(winner: nat, valid: nat)

  /** The scores of one grade: `winner` is 1 when the grade picks title 1,
      `valid` is 0 when the grade cannot be read. */
  function ScoreGrade(grade: string): (r: Scores)
    ensures r.winner in {0, 1} && r.valid in {0, 1}
    ensures r.winner == 1 <==> ParseBestTitle(grade) == Some(1)
    ensures r.valid == 0 <==> ParseBestTitle(grade).None?
    ensures r.valid == 0 ==> r.winner == 0
  {
    match ParseBestTitle(grade)
    case None => Scores(0, 0)
    case Some(v) => Scores(if v == 1 then 1 else 0, 1)
  }

  /** `analyzeExperiment`: one pair of scores per issue, in issue order. */
  method AnalyzeExperiment(grades: seq<string>) returns (scores: seq<Scores>)
    ensures |scores| == |grades|
    ensures forall i :: 0 <= i < |grades| ==> scores[i] == ScoreGrade(grades[i])
  {
    scores := [];
    var i := 0;
    while i < |grades|
      invariant 0 <= i <= |grades|
      invariant |scores| == i
      invariant forall k :: 0 <= k < i ==> scores[k] == ScoreGrade(grades[k])
    {
      var valid := 1;
      var winner := 0;
      match ParseBestTitle(grades[i]) {
        case None =>
          valid := 0;
        case Some(v) =>
          winner := if v == 1 then 1 else 0;
      }
      scores := scores + [Scores(winner, valid)];
      i := i + 1;
    }
  }
}
