/** String helpers shared by the model: JavaScript's notion of white space
    and `String.prototype.trim`, ASCII lower-casing, decimal digit runs, and
    splitting on / joining with a single separator character. */
module Text {
  import opened Wrappers

  /** The characters `String.prototype.trim` removes: ECMAScript WhiteSpace
      (tab, vertical tab, form feed, space, no-break space, byte-order mark
      and the Unicode space separators) and LineTerminator (LF, CR, U+2028,
      U+2029). */
  predicate IsWhitespace(c: char) {
    var n := c as int;
    n == 0x09 || n == 0x0A || n == 0x0B || n == 0x0C || n == 0x0D || n == 0x20
    || n == 0xA0 || n == 0x1680 || (0x2000 <= n <= 0x200A)
    || n == 0x2028 || n == 0x2029 || n == 0x202F || n == 0x205F
    || n == 0x3000 || n == 0xFEFF
  }

  /** True when `s` holds only white space, i.e. `s.trim()` is the empty
      string and therefore falsy. */
  predicate IsBlank(s: string) {
    forall i :: 0 <= i < |s| ==> IsWhitespace(s[i])
  }

  /** `s` has no white space at either end. */
  predicate IsTrimmed(s: string) {
    |s| == 0 || (!IsWhitespace(s[0]) && !IsWhitespace(s[|s| - 1]))
  }

  /** `s` without its leading white space. */
  function TrimStart(s: string): string {
    if |s| > 0 && IsWhitespace(s[0]) then TrimStart(s[1..]) else s
  }

  /** `s` without its trailing white space. */
  function TrimEnd(s: string): string {
    if |s| > 0 && IsWhitespace(s[|s| - 1]) then TrimEnd(s[..|s| - 1]) else s
  }

  /** `String.prototype.trim`: white space removed from both ends. */
  function Trim(s: string): string {
    TrimEnd(TrimStart(s))
  }

  /** `TrimStart` drops a white-space prefix and stops at the first other
      character. */
  lemma {:induction false} TrimStartSpec(s: string)
    ensures var r := TrimStart(s);
      && |r| <= |s| && r == s[|s| - |r|..]
      && IsBlank(s[..|s| - |r|])
      && (r == [] || !IsWhitespace(r[0]))
  {
    if |s| > 0 && IsWhitespace(s[0]) {
      TrimStartSpec(s[1..]);
      var k := |s[1..]| - |TrimStart(s[1..])|;
      assert s[..k + 1] == [s[0]] + s[1..][..k];
    }
  }

  /** `TrimEnd` drops a white-space suffix and stops at the last other
      character. */
  lemma {:induction false} TrimEndSpec(s: string)
    ensures var r := TrimEnd(s);
      && |r| <= |s| && r == s[..|r|]
      && IsBlank(s[|r|..])
      && (r == [] || !IsWhitespace(r[|r| - 1]))
  {
    if |s| > 0 && IsWhitespace(s[|s| - 1]) {
      var init := s[..|s| - 1];
      TrimEndSpec(init);
      var r := TrimEnd(init);
      assert s[|r|..] == init[|r|..] + [s[|s| - 1]];
      assert r == init[..|r|] == s[..|r|];
    }
  }

  /** Trimming removes white space from the ends and nothing else: the
      result is a slice of `s` with only white space on either side, it has
      no white space at either end, and it is empty exactly when `s` is all
      white space. */
  lemma TrimSpec(s: string)
    ensures IsTrimmed(Trim(s))
    ensures Trim(s) == [] <==> IsBlank(s)
    ensures exists i, j :: 0 <= i <= j <= |s| && Trim(s) == s[i..j]
                           && IsBlank(s[..i]) && IsBlank(s[j..])
  {
    var t := TrimStart(s);
    var r := TrimEnd(t);
    TrimStartSpec(s);
    TrimEndSpec(t);
    var i := |s| - |t|;
    var j := i + |r|;
    assert t == s[i..];
    assert t[|r|..] == s[j..];
    assert r == s[i..j];
    assert |r| > 0 ==> r[0] == t[0];
    assert IsBlank(s[..i]) && IsBlank(s[j..]);
    if r == [] {
      assert s == s[..i] + s[j..];
    } else {
      assert !IsWhitespace(s[i]);
    }
  }

  /** A string ending in a piece that does not trim away does not trim to
      the empty string either. */
  lemma TrimOfNonBlankSuffix(a: string, b: string)
    requires !IsBlank(b)
    ensures Trim(a + b) != []
  {
    TrimSpec(a + b);
    var m :| 0 <= m < |b| && !IsWhitespace(b[m]);
    assert (a + b)[|a| + m] == b[m];
  }

  /** ASCII `toLowerCase` of one character. */
  function LowerChar(c: char): (r: char)
    ensures !('A' <= r <= 'Z')
    ensures 'A' <= c <= 'Z' ==> r as int == c as int + 32
    ensures !('A' <= c <= 'Z') ==> r == c
  {
    if 'A' <= c <= 'Z' then (c as int + 32) as char else c
  }

  /** `String.prototype.toLowerCase`, restricted to the ASCII letters. */
  function Lower(s: string): (r: string)
    ensures |r| == |s|
    ensures forall i :: 0 <= i < |s| ==> r[i] == LowerChar(s[i])
  {
    seq(|s|, i requires 0 <= i < |s| => LowerChar(s[i]))
  }

  /** Lower-casing is idempotent: a lower-cased string is left unchanged. */
  lemma LowerIdempotent(s: string)
    ensures Lower(Lower(s)) == Lower(s)
  {
    var once := Lower(s);
    assert forall i :: 0 <= i < |once| ==> LowerChar(once[i]) == once[i];
  }

  predicate IsDigit(c: char) {
    '0' <= c <= '9'
  }

  predicate AllDigits(s: string) {
    forall i :: 0 <= i < |s| ==> IsDigit(s[i])
  }

  /** Decimal value of a run of ASCII digits, most significant first. */
  function DecimalValue(s: string): nat
    requires AllDigits(s)
  {
    if |s| == 0 then 0
    else DecimalValue(s[..|s| - 1]) * 10 + (s[|s| - 1] as int - '0' as int)
  }

  /** Canonical decimal spelling of `n`, without leading zeros. */
  function DecimalString(n: nat): (r: string)
    ensures |r| > 0 && AllDigits(r)
    ensures |r| > 1 ==> r[0] != '0'
    decreases n
  {
    var last := ('0' as int + n % 10) as char;
    if n < 10 then [last] else DecimalString(n / 10) + [last]
  }

  /** Reading the canonical spelling of `n` gives `n` back. */
  lemma {:induction false} DecimalRoundTrip(n: nat)
    ensures DecimalValue(DecimalString(n)) == n
    decreases n
  {
    var s := DecimalString(n);
    if n >= 10 {
      DecimalRoundTrip(n / 10);
      assert s[..|s| - 1] == DecimalString(n / 10);
    }
  }

  /** The end of the run of digits that starts at `i`. */
  function DigitsEnd(s: string, i: nat): (j: nat)
    requires i <= |s|
    ensures i <= j <= |s|
    ensures forall m :: i <= m < j ==> IsDigit(s[m])
    ensures j < |s| ==> !IsDigit(s[j])
    decreases |s| - i
  {
    if i < |s| && IsDigit(s[i]) then DigitsEnd(s, i + 1) else i
  }

  /** `parseInt(s, 10)` for a string that starts with its digits: the value
      of the leading digit run, or `None` (NaN) when there is none. */
  function ParseInt(s: string): (r: Option<nat>)
    ensures r.Some? <==> |s| > 0 && IsDigit(s[0])
  {
    var e := DigitsEnd(s, 0);
    if e == 0 then None else Some(DecimalValue(s[..e]))
  }

  /** An all-digit string is read in full. */
  lemma ParseIntAllDigits(s: string)
    requires |s| > 0 && AllDigits(s)
    ensures ParseInt(s) == Some(DecimalValue(s))
  {
    assert DigitsEnd(s, 0) == |s|;
    assert s[..|s|] == s;
  }

  /** Reading stops at the first non-digit: the canonical spelling of `n`
      followed by anything that does not start with a digit reads as `n`. */
  lemma ParseIntRoundTrip(n: nat, rest: string)
    requires |rest| > 0 ==> !IsDigit(rest[0])
    ensures ParseInt(DecimalString(n) + rest) == Some(n)
  {
    var d := DecimalString(n);
    var s := d + rest;
    DigitsEndAt(s, 0, |d|);
    assert s[..|d|] == d;
    DecimalRoundTrip(n);
  }

  /** `DigitsEnd` stops exactly at the first non-digit. */
  lemma DigitsEndAt(s: string, i: nat, k: nat)
    requires i <= k <= |s|
    requires forall m :: i <= m < k ==> IsDigit(s[m])
    requires k < |s| ==> !IsDigit(s[k])
    ensures DigitsEnd(s, i) == k
  {
  }

  /** Index of the first occurrence of `c` in `s`, or `|s|` when there is none. */
  function IndexOf(s: string, c: char): (k: nat)
    ensures k <= |s|
    ensures forall m :: 0 <= m < k ==> s[m] != c
    ensures k < |s| ==> s[k] == c
  {
    if |s| == 0 then 0
    else if s[0] == c then 0
    else 1 + IndexOf(s[1..], c)
  }

  /** `s.split(c)` for a one-character separator: the maximal pieces of `s`
      between occurrences of `c`, always at least one. */
  function SplitOn(s: string, c: char): (r: seq<string>)
    ensures |r| >= 1
    ensures forall k :: 0 <= k < |r| ==> c !in r[k]
    decreases |s|
  {
    var i := IndexOf(s, c);
    if i == |s| then [s] else [s[..i]] + SplitOn(s[i + 1..], c)
  }

  /** `parts.join(c)`. */
  function Join(parts: seq<string>, c: char): string
  {
    if |parts| == 0 then []
    else if |parts| == 1 then parts[0]
    else parts[0] + [c] + Join(parts[1..], c)
  }

  /** Joining the pieces of a split with the same separator restores the
      original string. */
  lemma JoinCons(a: string, rest: seq<string>, c: char)
    requires |rest| >= 1
    ensures Join([a] + rest, c) == a + [c] + Join(rest, c)
  {
    assert ([a] + rest)[0] == a && ([a] + rest)[1..] == rest;
  }

  lemma {:induction false} JoinSplitRoundTrip(s: string, c: char)
    ensures Join(SplitOn(s, c), c) == s
    decreases |s|
  {
    var i := IndexOf(s, c);
    if i < |s| {
      var rest := s[i + 1..];
      assert SplitOn(s, c) == [s[..i]] + SplitOn(rest, c);
      JoinCons(s[..i], SplitOn(rest, c), c);
      JoinSplitRoundTrip(rest, c);
      assert s == s[..i] + [c] + rest;
    }
  }

  /** Splitting a string whose pieces contain no separator gives those pieces
      back: the inverse direction of `JoinSplitRoundTrip`. */
  lemma {:induction false} SplitJoinRoundTrip(parts: seq<string>, c: char)
    requires |parts| >= 1
    requires forall k :: 0 <= k < |parts| ==> c !in parts[k]
    ensures SplitOn(Join(parts, c), c) == parts
    decreases |parts|
  {
    if |parts| == 1 {
      assert IndexOf(parts[0], c) == |parts[0]|;
    } else {
      var s := Join(parts, c);
      var tail := Join(parts[1..], c);
      assert s == parts[0] + [c] + tail;
      assert IndexOf(s, c) == |parts[0]| by {
        assert s[|parts[0]|] == c;
        assert forall m :: 0 <= m < |parts[0]| ==> s[m] == parts[0][m];
      }
      assert s[..|parts[0]|] == parts[0];
      assert s[|parts[0]| + 1..] == tail;
      SplitJoinRoundTrip(parts[1..], c);
    }
  }
}
