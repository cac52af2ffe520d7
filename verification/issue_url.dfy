/** Reading an issue reference out of a GitHub issue URL
    (github-issues/js/app/api/ghissue/route.ts, `GET`).

    The handler takes the `url` query parameter, splits it at `/`, keeps the
    last four segments with `slice(-4)` and destructures them as
    `[owner, repo, _, issue_number]`; the number is read with `parseInt`.
    Nothing checks that the URL is a GitHub URL or that the third of the
    four segments is `issues`. A missing parameter makes `url!.split`
    throw. */
module IssueUrl {
  import opened Wrappers
  import opened Sequences
  import opened Text

  /** What the handler passes on to the issues endpoint. A destructured
      name past the end of the array is `undefined` (`None`), and so is the
      `NaN` that `parseInt` gives for a segment not starting with a digit. */
  datatype IssueRef = IssueRef(owner: string, repo: Option<string>, issueNumber: Option<nat>)

  /** `segments.slice(-4)`: the last four, or all of them when fewer. */
  function LastFour(segments: seq<string>): (r: seq<string>)
    ensures |r| == if |segments| < 4 then |segments| else 4
    ensures r == segments[|segments| - |r|..]
  {
    if |segments| < 4 then segments else segments[|segments| - 4..]
  }

  /** Element `i` of an array being destructured. */
  function Element(s: seq<string>, i: nat): (r: Option<string>)
    ensures r.Some? <==> i < |s|
    ensures r.Some? ==> r.value == s[i]
  {
    if i < |s| then Some(s[i]) else None
  }

  /** `GET` up to the request: the owner, repo and issue number read from
      the `url` parameter, or the error when the parameter is missing. */
  function ParseIssueUrl(url: Option<string>): (r: Result<IssueRef, string>)
    ensures r.Success? <==> url.Some?
  {
    match url
    case None => Failure("TypeError: cannot read properties of null")
    case Some(u) =>
      var last := LastFour(SplitOn(u, '/'));
      var number := Element(last, 3);
      Success(IssueRef(last[0], Element(last, 1),
                       if number.Some? then ParseInt(number.value) else None))
  }

  /** Owner, repo and number are the 4th-from-last, 3rd-from-last and last
      segments of a URL with at least four segments, and none of them holds
      a `/`. */
  lemma ReadsLastFourSegments(u: string)
    requires |SplitOn(u, '/')| >= 4
    ensures var segments := SplitOn(u, '/');
            var n := |segments|;
            var r := ParseIssueUrl(Some(u)).value;
            && r.owner == segments[n - 4]
            && r.repo == Some(segments[n - 3])
            && r.issueNumber == ParseInt(segments[n - 1])
            && '/' !in r.owner && '/' !in r.repo.value
  {
  }

  predicate NoSlash(parts: seq<string>) {
    forall k :: 0 <= k < |parts| ==> '/' !in parts[k]
  }

  /** Segments joined with `/` are read back as they were joined. */
  lemma JoinedSegments(parts: seq<string>)
    requires |parts| >= 4 && NoSlash(parts)
    ensures var n := |parts|;
            ParseIssueUrl(Some(Join(parts, '/')))
              == Success(IssueRef(parts[n - 4], Some(parts[n - 3]), ParseInt(parts[n - 1])))
  {
    SplitJoinRoundTrip(parts, '/');
    ReadsLastFourSegments(Join(parts, '/'));
  }

  lemma NoSlashAppend(prefix: seq<string>, last: seq<string>)
    requires NoSlash(prefix) && NoSlash(last)
    ensures NoSlash(prefix + last)
  {
    assert forall k :: |prefix| <= k < |prefix + last| ==> (prefix + last)[k] == last[k - |prefix|];
  }

  /** The segment between repo and number is never looked at: URLs that
      differ only there give the same reference. */
  lemma ThirdSegmentIgnored(prefix: seq<string>, owner: string, repo: string,
                            x: string, y: string, number: string)
    requires NoSlash(prefix)
    requires '/' !in owner && '/' !in repo && '/' !in x && '/' !in y && '/' !in number
    ensures ParseIssueUrl(Some(Join(prefix + [owner, repo, x, number], '/')))
              == ParseIssueUrl(Some(Join(prefix + [owner, repo, y, number], '/')))
  {
    var a := prefix + [owner, repo, x, number];
    var b := prefix + [owner, repo, y, number];
    assert NoSlash([owner, repo, x, number]) && NoSlash([owner, repo, y, number]);
    NoSlashAppend(prefix, [owner, repo, x, number]);
    NoSlashAppend(prefix, [owner, repo, y, number]);
    JoinedSegments(a);
    JoinedSegments(b);
  }

  /** `https://github.com/O/R/issues/N` gives owner `O`, repo `R` and issue
      number `N`. */
  lemma GithubIssueUrl(owner: string, repo: string, n: nat)
    requires '/' !in owner && '/' !in repo
    ensures ParseIssueUrl(Some(Join(["https:", "", "github.com", owner, repo, "issues",
                                     DecimalString(n)], '/')))
              == Success(IssueRef(owner, Some(repo), Some(n)))
  {
    var d := DecimalString(n);
    assert !IsDigit('/');
    JoinedSegments(["https:", "", "github.com", owner, repo, "issues", d]);
    ParseIntAllDigits(d);
    DecimalRoundTrip(n);
  }

  /** An all-digit last segment is passed on as its decimal value. */
  lemma DigitNumber(u: string)
    requires var last := SplitOn(u, '/')[|SplitOn(u, '/')| - 1];
             |SplitOn(u, '/')| >= 4 && |last| > 0 && AllDigits(last)
    ensures var last := SplitOn(u, '/')[|SplitOn(u, '/')| - 1];
            ParseIssueUrl(Some(u)).value.issueNumber == Some(DecimalValue(last))
  {
    ParseIntAllDigits(SplitOn(u, '/')[|SplitOn(u, '/')| - 1]);
  }

  /** The four segments used, joined back with `/`, are a suffix of the
      URL. */
  lemma LastFourIsSuffix(u: string)
    requires |SplitOn(u, '/')| >= 4
    ensures var j := Join(LastFour(SplitOn(u, '/')), '/');
            |j| <= |u| && u[|u| - |j|..] == j
  {
    var segments := SplitOn(u, '/');
    var n := |segments|;
    JoinSplitRoundTrip(u, '/');
    if n > 4 {
      JoinAt(segments, n - 4, '/');
    }
  }

  /** Joining splits at any inner boundary. */
  lemma {:induction false} JoinAt(parts: seq<string>, m: nat, c: char)
    requires 0 < m < |parts|
    ensures Join(parts, c) == Join(parts[..m], c) + [c] + Join(parts[m..], c)
    decreases m
  {
    if m > 1 {
      JoinAt(parts[1..], m - 1, c);
      assert parts[1..][..m - 1] == parts[1..m];
      assert parts[1..][m - 1..] == parts[m..];
      assert parts[..m][1..] == parts[1..m];
    }
  }
}
