/** Small facts about sequence concatenation, stated once for any element
    type so that proofs about the model can cite them instead of rederiving
    them on concrete sequences. */
module Sequences {
  lemma ConsSnoc<T>(s: seq<T>, x: T)
    requires |s| > 0
    ensures s == [s[0]] + s[1..]
    ensures s + [x] == [s[0]] + (s[1..] + [x])
  {
  }

  lemma HeadTail<T>(s: seq<T>)
    requires |s| > 0
    ensures s == [s[0]] + s[1..]
  {
  }

  lemma ConcatAssoc<T>(a: seq<T>, b: seq<T>, c: seq<T>)
    ensures a + (b + c) == (a + b) + c
  {
  }

  lemma ConsParts<T>(x: T, rest: seq<T>)
    ensures ([x] + rest)[0] == x && ([x] + rest)[1..] == rest
  {
  }

  /** The first `n` elements, or all of them when there are fewer:
      `s.slice(0, n)`. */
  function Take<T>(s: seq<T>, n: nat): (r: seq<T>)
    ensures |r| == if n < |s| then n else |s|
    ensures r <= s
  {
    if n < |s| then s[..n] else s
  }

  /** The elements satisfying `p`, in their order in `s`:
      `s.filter(p)`. */
  function Filter<T>(s: seq<T>, p: T -> bool): (r: seq<T>)
    ensures |r| <= |s|
    ensures forall i :: 0 <= i < |r| ==> r[i] in s && p(r[i])
    ensures forall i :: 0 <= i < |s| && p(s[i]) ==> s[i] in r
  {
    if |s| == 0 then []
    else
      var rest := Filter(s[1..], p);
      assert forall i :: 1 <= i < |s| ==> s[i] == s[1..][i - 1];
      assert forall i :: 0 <= i < |rest| ==> rest[i] in s[1..];
      (if p(s[0]) then [s[0]] else []) + rest
  }

  lemma FilterUnfold<T>(s: seq<T>, p: T -> bool)
    requires |s| > 0
    ensures Filter(s, p) == (if p(s[0]) then [s[0]] else []) + Filter(s[1..], p)
  {
  }

  lemma FilterCons<T>(x: T, s: seq<T>, p: T -> bool)
    ensures Filter([x] + s, p) == (if p(x) then [x] else []) + Filter(s, p)
  {
    ConsParts(x, s);
    FilterUnfold([x] + s, p);
  }
}
