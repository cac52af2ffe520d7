/** Cutting help-desk documents into sections at level-1 setext headings
    ("title line" followed by a line of `=`), with globally consecutive
    section ids (help-docs/js/evals/load.ts, `buildMarkdownSections`).

    The document text is first split with the regular expression
    `/(.*\n=+\n)/` and a capturing group, so the pieces alternate between
    plain text and captured headings. The pieces are then folded with a
    pending heading: a heading piece is held, a non-blank text piece becomes
    a section together with the held heading, and blank pieces are skipped. */
module MarkdownSections {
  import opened Wrappers
  import opened Text
  import opened Sequences

  datatype MarkdownDoc = MarkdownDoc(id: int, markdown: string)

  datatype MarkdownSection = MarkdownSection(docId: int, sectionId: int, markdown: string)

  // ---------------------------------------------------------------------
  // The regular expression `.*\n=+\n`
  // ---------------------------------------------------------------------

  /** The characters `.` does not match in a JavaScript regular expression. */
  predicate IsLineTerminator(c: char) {
    c == '\n' || c == '\r' || c as int == 0x2028 || c as int == 0x2029
  }

  /** How far `.*` reaches from `i`: the first line terminator at or after
      `i`, or the end of `s`. */
  function LineEnd(s: string, i: nat): (j: nat)
    requires i <= |s|
    ensures i <= j <= |s|
    decreases |s| - i
  {
    if i == |s| || IsLineTerminator(s[i]) then i else LineEnd(s, i + 1)
  }

  lemma {:induction false} LineEndSpec(s: string, i: nat)
    requires i <= |s|
    ensures forall m :: i <= m < LineEnd(s, i) ==> !IsLineTerminator(s[m])
    ensures LineEnd(s, i) < |s| ==> IsLineTerminator(s[LineEnd(s, i)])
    decreases |s| - i
  {
    if i < |s| && !IsLineTerminator(s[i]) {
      LineEndSpec(s, i + 1);
    }
  }

  /** How far a run of `c` reaches from `i`. */
  function RunEnd(s: string, i: nat, c: char): (j: nat)
    requires i <= |s|
    ensures i <= j <= |s|
    decreases |s| - i
  {
    if i == |s| || s[i] != c then i else RunEnd(s, i + 1, c)
  }

  lemma {:induction false} RunEndSpec(s: string, i: nat, c: char)
    requires i <= |s|
    ensures forall m :: i <= m < RunEnd(s, i, c) ==> s[m] == c
    ensures RunEnd(s, i, c) < |s| ==> s[RunEnd(s, i, c)] != c
    decreases |s| - i
  {
    if i < |s| && s[i] == c {
      RunEndSpec(s, i + 1, c);
    }
  }

  /** The language of `.*\n=+\n`: a title line free of line terminators, a
      newline, one or more `=`, and a closing newline. */
  ghost predicate UnderlinedHeading(t: string) {
    && |t| >= 3
    && t[|t| - 1] == '\n'
    && exists j :: 0 <= j < |t| - 2 && t[j] == '\n'
                   && (forall m :: 0 <= m < j ==> !IsLineTerminator(t[m]))
                   && (forall m :: j < m < |t| - 1 ==> t[m] == '=')
  }

  /** The end of the match of `.*\n=+\n` that starts exactly at `q`, if any.
      Greedy `.*` can only stop at the first line terminator, and greedy
      `=+` only at the first character that is not `=`, so the match, when
      there is one, is unique. */
  function UnderlineMatchAt(s: string, q: nat): (r: Option<nat>)
    requires q <= |s|
    ensures r.Some? ==> q + 3 <= r.value <= |s|
  {
    var j := LineEnd(s, q);
    if j < |s| && s[j] == '\n' then
      var e := RunEnd(s, j + 1, '=');
      if j + 1 < e < |s| && s[e] == '\n' then Some(e + 1) else None
    else None
  }

  lemma MatchIsHeadingSound(s: string, q: nat, e: nat)
    requires q <= e <= |s|
    requires UnderlineMatchAt(s, q) == Some(e)
    ensures UnderlinedHeading(s[q..e])
  {
    var t := s[q..e];
    var j := LineEnd(s, q);
    LineEndSpec(s, q);
    RunEndSpec(s, j + 1, '=');
    assert t[j - q] == '\n';
    assert forall m :: 0 <= m < |t| ==> t[m] == s[q + m];
    assert forall m :: 0 <= m < j - q ==> !IsLineTerminator(t[m]);
    assert forall m :: j - q < m < |t| - 1 ==> t[m] == '=';
  }

  /** `LineEnd` stops at the first line terminator. */
  lemma LineEndAt(s: string, i: nat, k: nat)
    requires i <= k < |s| && IsLineTerminator(s[k])
    requires forall m :: i <= m < k ==> !IsLineTerminator(s[m])
    ensures LineEnd(s, i) == k
  {
    LineEndSpec(s, i);
  }

  /** `RunEnd` stops at the first character other than `c`. */
  lemma RunEndAt(s: string, i: nat, k: nat, c: char)
    requires i <= k < |s| && s[k] != c
    requires forall m :: i <= m < k ==> s[m] == c
    ensures RunEnd(s, i, c) == k
  {
    RunEndSpec(s, i, c);
  }

  lemma MatchIsHeadingComplete(s: string, q: nat, e: nat)
    requires q <= e <= |s|
    requires UnderlinedHeading(s[q..e])
    ensures UnderlineMatchAt(s, q) == Some(e)
  {
    var t := s[q..e];
    var j' :| 0 <= j' < |t| - 2 && t[j'] == '\n'
              && (forall m :: 0 <= m < j' ==> !IsLineTerminator(t[m]))
              && (forall m :: j' < m < |t| - 1 ==> t[m] == '=');
    var j := q + j';
    assert s[j] == '\n' && s[e - 1] == '\n';
    assert forall m :: q <= m < j ==> !IsLineTerminator(s[m]) by {
      forall m | q <= m < j
        ensures !IsLineTerminator(s[m])
      {
        assert s[m] == t[m - q];
      }
    }
    assert forall m :: j + 1 <= m < e - 1 ==> s[m] == '=' by {
      forall m | j + 1 <= m < e - 1
        ensures s[m] == '='
      {
        assert s[m] == t[m - q];
      }
    }
    LineEndAt(s, q, j);
    RunEndAt(s, j + 1, e - 1, '=');
  }

  /** `UnderlineMatchAt` recognises exactly the language of the expression:
      it reports a match from `q` to `e` if and only if `s[q..e]` is an
      underlined heading. */
  lemma MatchIsHeading(s: string, q: nat, e: nat)
    requires q <= e <= |s|
    ensures UnderlineMatchAt(s, q) == Some(e) <==> UnderlinedHeading(s[q..e])
  {
    if UnderlineMatchAt(s, q) == Some(e) {
      MatchIsHeadingSound(s, q, e);
    }
    if UnderlinedHeading(s[q..e]) {
      MatchIsHeadingComplete(s, q, e);
    }
  }

  /** The expression matches at some position from `i` on. */
  predicate UnderlineFrom(t: string, i: nat)
    requires i <= |t|
    decreases |t| - i
  {
    i < |t| && (UnderlineMatchAt(t, i).Some? || UnderlineFrom(t, i + 1))
  }

  /** `piece.match(/.*\n=+\n/)` succeeds: the expression matches somewhere. */
  predicate ContainsUnderline(t: string) {
    UnderlineFrom(t, 0)
  }

  lemma {:induction false} UnderlineFromWitness(t: string, i: nat)
    requires i <= |t|
    ensures UnderlineFrom(t, i) <==> exists m :: i <= m < |t| && UnderlineMatchAt(t, m).Some?
    decreases |t| - i
  {
    if i < |t| {
      UnderlineFromWitness(t, i + 1);
    }
  }

  /** Matching inside a slice is matching in the whole string: the
      expression has no anchors or look-around. */
  lemma MatchInSlice(s: string, a: nat, b: nat, i: nat)
    requires a <= b <= |s| && i <= b - a
    requires UnderlineMatchAt(s[a..b], i).Some?
    ensures UnderlineMatchAt(s, a + i) == Some(a + UnderlineMatchAt(s[a..b], i).value)
  {
    var t := s[a..b];
    var e := UnderlineMatchAt(t, i).value;
    MatchIsHeading(t, i, e);
    assert forall m :: 0 <= m < e - i ==> t[i..e][m] == s[a + i..a + e][m];
    assert t[i..e] == s[a + i..a + e];
    MatchIsHeading(s, a + i, a + e);
  }

  // ---------------------------------------------------------------------
  // `markdown.split(/(.*\n=+\n)/)`
  // ---------------------------------------------------------------------

  function Concat(parts: seq<string>): string {
    if |parts| == 0 then [] else parts[0] + Concat(parts[1..])
  }

  /** The split loop: `p` is where the current text piece began and `q` the
      next position to try; no match starts in `[p, q)`. */
  function SplitFrom(s: string, p: nat, q: nat): (r: seq<string>)
    requires p <= q <= |s|
    decreases |s| - q
  {
    if q == |s| then [s[p..]]
    else match UnderlineMatchAt(s, q)
      case Some(e) => [s[p..q], s[q..e]] + SplitFrom(s, e, e)
      case None => SplitFrom(s, p, q + 1)
  }

  /** `s.split(/(.*\n=+\n)/)`: text pieces at even positions, the captured
      headings at odd positions. */
  function SplitAtHeadings(s: string): seq<string> {
    SplitFrom(s, 0, 0)
  }

  /** At the end of the input the split emits the last text piece. */
  lemma SplitFromEnd(s: string, p: nat)
    requires p <= |s|
    ensures SplitFrom(s, p, |s|) == [s[p..]]
  {
  }

  /** A match at `q` closes the text piece begun at `p` and is captured. */
  lemma SplitFromMatch(s: string, p: nat, q: nat, e: nat)
    requires p <= q < |s|
    requires UnderlineMatchAt(s, q) == Some(e)
    ensures SplitFrom(s, p, q) == [s[p..q], s[q..e]] + SplitFrom(s, e, e)
  {
  }

  /** With no match at `q` the split tries the next position. */
  lemma SplitFromNoMatch(s: string, p: nat, q: nat)
    requires p <= q < |s|
    requires UnderlineMatchAt(s, q).None?
    ensures SplitFrom(s, p, q) == SplitFrom(s, p, q + 1)
  {
  }

  lemma ConcatCons(a: string, rest: seq<string>)
    ensures Concat([a] + rest) == a + Concat(rest)
  {
    assert ([a] + rest)[1..] == rest;
  }

  lemma {:induction false} SplitFromOdd(s: string, p: nat, q: nat)
    requires p <= q <= |s|
    ensures |SplitFrom(s, p, q)| % 2 == 1
    decreases |s| - q
  {
    if q == |s| {
      SplitFromEnd(s, p);
    } else if UnderlineMatchAt(s, q).Some? {
      var e := UnderlineMatchAt(s, q).value;
      SplitFromMatch(s, p, q, e);
      SplitFromOdd(s, e, e);
    } else {
      SplitFromNoMatch(s, p, q);
      SplitFromOdd(s, p, q + 1);
    }
  }

  lemma SliceThree(s: string, p: nat, q: nat, e: nat)
    requires p <= q <= e <= |s|
    ensures s[p..] == s[p..q] + (s[q..e] + s[e..])
  {
  }

  lemma {:induction false} SplitFromConcat(s: string, p: nat, q: nat)
    requires p <= q <= |s|
    ensures Concat(SplitFrom(s, p, q)) == s[p..]
    decreases |s| - q
  {
    if q == |s| {
      SplitFromEnd(s, p);
      ConcatCons(s[p..], []);
    } else if UnderlineMatchAt(s, q).Some? {
      var e := UnderlineMatchAt(s, q).value;
      var rest := SplitFrom(s, e, e);
      SplitFromMatch(s, p, q, e);
      assert SplitFrom(s, p, q) == [s[p..q]] + ([s[q..e]] + rest);
      SplitFromConcat(s, e, e);
      ConcatCons(s[q..e], rest);
      ConcatCons(s[p..q], [s[q..e]] + rest);
      SliceThree(s, p, q, e);
    } else {
      SplitFromNoMatch(s, p, q);
      SplitFromConcat(s, p, q + 1);
    }
  }

  /** Text pieces at even positions contain no heading; captured pieces at
      odd positions are headings. */
  ghost predicate Alternates(r: seq<string>) {
    && (forall k :: 0 <= k < |r| && k % 2 == 1 ==> UnderlinedHeading(r[k]) && ContainsUnderline(r[k]))
    && (forall k :: 0 <= k < |r| && k % 2 == 0 ==> !ContainsUnderline(r[k]))
  }

  lemma AlternatesCons(a: string, b: string, rest: seq<string>)
    requires !ContainsUnderline(a) && UnderlinedHeading(b) && ContainsUnderline(b)
    requires Alternates(rest)
    ensures Alternates([a, b] + rest)
  {
    var r := [a, b] + rest;
    forall k | 2 <= k < |r|
      ensures r[k] == rest[k - 2]
    {
    }
  }

  /** A match found by the split is a heading piece. */
  lemma MatchedPieceIsHeading(s: string, q: nat, e: nat)
    requires q <= |s|
    requires UnderlineMatchAt(s, q) == Some(e)
    ensures UnderlinedHeading(s[q..e]) && ContainsUnderline(s[q..e])
  {
    var head := s[q..e];
    MatchIsHeading(s, q, e);
    MatchIsHeading(head, 0, |head|);
    assert head[0..|head|] == head;
    assert UnderlineMatchAt(head, 0).Some?;
  }

  lemma {:induction false} SplitFromPieces(s: string, p: nat, q: nat)
    requires p <= q <= |s|
    requires forall m :: p <= m < q ==> UnderlineMatchAt(s, m).None?
    ensures Alternates(SplitFrom(s, p, q))
    decreases |s| - q
  {
    if q == |s| {
      NoMatchInGap(s, p, q);
      assert s[p..q] == s[p..];
      SplitFromEnd(s, p);
    } else if UnderlineMatchAt(s, q).Some? {
      var e := UnderlineMatchAt(s, q).value;
      SplitFromMatch(s, p, q, e);
      SplitFromPieces(s, e, e);
      NoMatchInGap(s, p, q);
      MatchedPieceIsHeading(s, q, e);
      AlternatesCons(s[p..q], s[q..e], SplitFrom(s, e, e));
    } else {
      SplitFromNoMatch(s, p, q);
      SplitFromPieces(s, p, q + 1);
    }
  }

  /** A text piece contains no match: any match inside it would have been
      found by the split first. */
  lemma NoMatchInGap(s: string, p: nat, q: nat)
    requires p <= q <= |s|
    requires forall m :: p <= m < q ==> UnderlineMatchAt(s, m).None?
    ensures !ContainsUnderline(s[p..q])
  {
    UnderlineFromWitness(s[p..q], 0);
    if ContainsUnderline(s[p..q]) {
      var i :| 0 <= i < |s[p..q]| && UnderlineMatchAt(s[p..q], i).Some?;
      MatchInSlice(s, p, q, i);
      assert false;
    }
  }

  /** The split loses and invents nothing, and alternates text pieces (which
      contain no heading) with captured headings. */
  lemma SplitAtHeadingsShape(s: string)
    ensures |SplitAtHeadings(s)| % 2 == 1
    ensures Concat(SplitAtHeadings(s)) == s
    ensures Alternates(SplitAtHeadings(s))
  {
    SplitFromOdd(s, 0, 0);
    SplitFromConcat(s, 0, 0);
    SplitFromPieces(s, 0, 0);
  }

  // ---------------------------------------------------------------------
  // The section fold
  // ---------------------------------------------------------------------

  /** A piece of the split together with the outcome of
      `piece.match(/.*\n=+\n/)` on it. */
  datatype Piece = Piece(text: string, underlined: bool)

  function Classify(texts: seq<string>): (r: seq<Piece>)
    ensures |r| == |texts|
    ensures forall k :: 0 <= k < |r| ==>
              (r[k].text == texts[k] && (r[k].underlined <==> ContainsUnderline(texts[k])))
  {
    seq(|texts|, k requires 0 <= k < |texts| => Piece(texts[k], ContainsUnderline(texts[k])))
  }

  /** A piece that becomes a section: not blank and not a heading. */
  predicate IsBody(piece: Piece) {
    !IsBlank(piece.text) && !piece.underlined
  }

  /** A piece that is held as the pending heading. */
  predicate IsHeading(piece: Piece) {
    !IsBlank(piece.text) && piece.underlined
  }

  function CountBodies(pieces: seq<Piece>): nat {
    if |pieces| == 0 then 0
    else (if IsBody(pieces[0]) then 1 else 0) + CountBodies(pieces[1..])
  }

  /** The sections one document's pieces produce, given the pending heading
      and the next section id. */
  function PieceSections(docId: int, pieces: seq<Piece>, pending: string, next: int)
    : seq<MarkdownSection>
  {
    if |pieces| == 0 then []
    else
      var piece := pieces[0];
      if IsBlank(piece.text) then
        PieceSections(docId, pieces[1..], pending, next)
      else if piece.underlined then
        PieceSections(docId, pieces[1..], piece.text, next)
      else
        [MarkdownSection(docId, next, Trim(pending + piece.text))]
          + PieceSections(docId, pieces[1..], [], next + 1)
  }

  /** Section ids run `next`, `next + 1`, ... in order. */
  predicate NumberedFrom(r: seq<MarkdownSection>, next: int) {
    forall k :: 0 <= k < |r| ==> r[k].sectionId == next + k
  }

  /** Every section's text is non-empty and has no white space at its ends. */
  predicate TrimmedTexts(r: seq<MarkdownSection>) {
    forall k :: 0 <= k < |r| ==> r[k].markdown != [] && IsTrimmed(r[k].markdown)
  }

  /** Every section carries the given document id. */
  predicate OfDoc(r: seq<MarkdownSection>, docId: int) {
    forall k :: 0 <= k < |r| ==> r[k].docId == docId
  }

  lemma ShapeCons(head: MarkdownSection, tail: seq<MarkdownSection>, docId: int, next: int)
    requires head.docId == docId && head.sectionId == next
    requires head.markdown != [] && IsTrimmed(head.markdown)
    requires OfDoc(tail, docId) && NumberedFrom(tail, next + 1) && TrimmedTexts(tail)
    ensures OfDoc([head] + tail, docId) && NumberedFrom([head] + tail, next)
    ensures TrimmedTexts([head] + tail)
  {
    var r := [head] + tail;
    assert forall k :: 1 <= k < |r| ==> r[k] == tail[k - 1];
  }

  /** One document yields one section per body piece, all carrying the
      document's id, numbered consecutively from `next`, each with
      non-empty trimmed text. */
  lemma {:induction false} PieceSectionsShape(docId: int, pieces: seq<Piece>, pending: string, next: int)
    ensures |PieceSections(docId, pieces, pending, next)| == CountBodies(pieces)
    ensures OfDoc(PieceSections(docId, pieces, pending, next), docId)
    ensures NumberedFrom(PieceSections(docId, pieces, pending, next), next)
    ensures TrimmedTexts(PieceSections(docId, pieces, pending, next))
    decreases |pieces|
  {
    if |pieces| > 0 {
      var piece := pieces[0];
      if IsBlank(piece.text) {
        PieceSectionsShape(docId, pieces[1..], pending, next);
      } else if piece.underlined {
        PieceSectionsShape(docId, pieces[1..], piece.text, next);
      } else {
        var head := MarkdownSection(docId, next, Trim(pending + piece.text));
        var tail := PieceSections(docId, pieces[1..], [], next + 1);
        assert PieceSections(docId, pieces, pending, next) == [head] + tail;
        assert head.markdown != [] && IsTrimmed(head.markdown) by {
          TrimOfNonBlankSuffix(pending, piece.text);
          TrimSpec(pending + piece.text);
        }
        PieceSectionsShape(docId, pieces[1..], [], next + 1);
        ShapeCons(head, tail, docId, next);
      }
    }
  }

  /** The heading pending after `pieces`, read off the end: the last
      non-blank piece if it is a heading, nothing if it is a body, and the
      initial `pending` if every piece is blank. */
  function PendingAfter(pieces: seq<Piece>, pending: string): string {
    if |pieces| == 0 then pending
    else
      var last := pieces[|pieces| - 1];
      if IsBlank(last.text) then PendingAfter(pieces[..|pieces| - 1], pending)
      else if last.underlined then last.text
      else []
  }

  /** The pending heading after one piece, starting from `pending`. */
  function PendingStep(x: Piece, pending: string): string {
    if IsBlank(x.text) then pending else if x.underlined then x.text else []
  }

  lemma {:induction false} PendingAfterCons(x: Piece, rest: seq<Piece>, pending: string)
    ensures PendingAfter([x] + rest, pending) == PendingAfter(rest, PendingStep(x, pending))
    decreases |rest|
  {
    var all := [x] + rest;
    if |rest| > 0 {
      assert all[..|all| - 1] == [x] + rest[..|rest| - 1];
      assert all[|all| - 1] == rest[|rest| - 1];
      PendingAfterCons(x, rest[..|rest| - 1], pending);
    } else {
      assert all[..0] == [];
    }
  }

  /** The section a single piece adds after `pending`, if it is a body. */
  function Emitted(docId: int, t: Piece, pending: string, id: int): seq<MarkdownSection> {
    if IsBody(t) then [MarkdownSection(docId, id, Trim(pending + t.text))] else []
  }

  /** One step of the fold, as the loop body performs it. */
  lemma PieceSectionsStep(docId: int, x: Piece, rest: seq<Piece>, pending: string, next: int)
    ensures PieceSections(docId, [x] + rest, pending, next)
            == Emitted(docId, x, pending, next)
               + PieceSections(docId, rest, PendingStep(x, pending), next + |Emitted(docId, x, pending, next)|)
    ensures CountBodies([x] + rest) == |Emitted(docId, x, pending, next)| + CountBodies(rest)
  {
    ConsParts(x, rest);
  }

  /** What one more piece adds: nothing for a blank piece or a heading, and
      for a body exactly one section, numbered after the earlier ones, whose
      text is the trimmed pending heading followed by the body. */
  lemma {:induction false} PieceSectionsSnoc(docId: int, pieces: seq<Piece>, t: Piece,
                                             pending: string, next: int,
                                             held: string, id: int)
    requires held == PendingAfter(pieces, pending)
    requires id == next + CountBodies(pieces)
    ensures PieceSections(docId, pieces + [t], pending, next)
            == PieceSections(docId, pieces, pending, next) + Emitted(docId, t, held, id)
    decreases |pieces|
  {
    if |pieces| == 0 {
      assert pieces + [t] == [t] + [];
      PieceSectionsStep(docId, t, [], pending, next);
    } else {
      var x := pieces[0];
      var e := Emitted(docId, x, pending, next);
      HeadTail(pieces);
      PendingAfterCons(x, pieces[1..], pending);
      PieceSectionsStep(docId, x, pieces[1..], pending, next);
      PieceSectionsSnoc(docId, pieces[1..], t, PendingStep(x, pending), next + |e|, held, id);
      SnocAfterHead(docId, pieces, t, pending, next, held, id);
    }
  }

  /** The inductive step of `PieceSectionsSnoc`: the claim for `pieces`
      follows from the claim for `pieces[1..]` after the first piece. */
  lemma SnocAfterHead(docId: int, pieces: seq<Piece>, t: Piece,
                      pending: string, next: int, held: string, id: int)
    requires |pieces| > 0
    requires held == PendingAfter(pieces, pending)
    requires id == next + CountBodies(pieces)
    requires var e := Emitted(docId, pieces[0], pending, next);
             var p' := PendingStep(pieces[0], pending);
             PieceSections(docId, pieces[1..] + [t], p', next + |e|)
             == PieceSections(docId, pieces[1..], p', next + |e|) + Emitted(docId, t, held, id)
    ensures PieceSections(docId, pieces + [t], pending, next)
            == PieceSections(docId, pieces, pending, next) + Emitted(docId, t, held, id)
  {
    var x := pieces[0];
    var rest := pieces[1..];
    var e := Emitted(docId, x, pending, next);
    var p' := PendingStep(x, pending);
    var mid := PieceSections(docId, rest, p', next + |e|);
    var last := Emitted(docId, t, held, id);
    ConsSnoc(pieces, t);
    PieceSectionsStep(docId, x, rest + [t], pending, next);
    PieceSectionsStep(docId, x, rest, pending, next);
    ConcatAssoc(e, mid, last);
  }

  function DropBlank(pieces: seq<Piece>): (r: seq<Piece>)
    ensures forall k :: 0 <= k < |r| ==> !IsBlank(r[k].text)
  {
    if |pieces| == 0 then []
    else (if IsBlank(pieces[0].text) then [] else [pieces[0]]) + DropBlank(pieces[1..])
  }

  lemma DropBlankCons(x: Piece, rest: seq<Piece>)
    ensures DropBlank([x] + rest) == (if IsBlank(x.text) then [] else [x]) + DropBlank(rest)
  {
    ConsParts(x, rest);
  }

  /** Blank pieces change neither the pending heading nor the output:
      removing all of them gives the same sections. */
  lemma {:induction false} BlankPiecesIgnored(docId: int, pieces: seq<Piece>,
                                              pending: string, next: int)
    ensures PieceSections(docId, DropBlank(pieces), pending, next)
            == PieceSections(docId, pieces, pending, next)
    decreases |pieces|
  {
    if |pieces| > 0 {
      var x := pieces[0];
      var rest := pieces[1..];
      HeadTail(pieces);
      var e := Emitted(docId, x, pending, next);
      var p' := PendingStep(x, pending);
      assert PieceSections(docId, pieces, pending, next)
             == e + PieceSections(docId, rest, p', next + |e|) by {
        PieceSectionsStep(docId, x, rest, pending, next);
      }
      BlankPiecesIgnored(docId, rest, p', next + |e|);
      DropBlankCons(x, rest);
      if IsBlank(x.text) {
        assert e == [] && p' == pending;
        assert DropBlank(pieces) == DropBlank(rest);
        assert PieceSections(docId, pieces, pending, next) == PieceSections(docId, rest, pending, next);
      } else {
        assert DropBlank(pieces) == [x] + DropBlank(rest);
        PieceSectionsStep(docId, x, DropBlank(rest), pending, next);
      }
    }
  }

  /** No body piece comes before the next heading (or the end). */
  predicate NoBodyFirst(pieces: seq<Piece>) {
    |pieces| == 0
    || (IsBlank(pieces[0].text) && NoBodyFirst(pieces[1..]))
    || IsHeading(pieces[0])
  }

  /** When no body follows before the next heading or the end of the
      document, the pending heading is never used. */
  lemma {:induction false} PendingUnused(docId: int, pieces: seq<Piece>,
                                         p1: string, p2: string, next: int)
    requires NoBodyFirst(pieces)
    ensures PieceSections(docId, pieces, p1, next) == PieceSections(docId, pieces, p2, next)
    decreases |pieces|
  {
    if |pieces| > 0 {
      var x := pieces[0];
      assert pieces == [x] + pieces[1..];
      PieceSectionsStep(docId, x, pieces[1..], p1, next);
      PieceSectionsStep(docId, x, pieces[1..], p2, next);
      if IsBlank(x.text) {
        PendingUnused(docId, pieces[1..], p1, p2, next);
      }
    }
  }

  /** A heading followed by another heading, or by the end of its document,
      with only blank pieces between, is dropped: it contributes nothing. */
  lemma HeadingSuperseded(docId: int, h: Piece, rest: seq<Piece>,
                          pending: string, next: int)
    requires IsHeading(h)
    requires NoBodyFirst(rest)
    ensures PieceSections(docId, [h] + rest, pending, next)
            == PieceSections(docId, rest, pending, next)
  {
    PieceSectionsStep(docId, h, rest, pending, next);
    PendingUnused(docId, rest, h.text, pending, next);
  }

  // ---------------------------------------------------------------------
  // All documents
  // ---------------------------------------------------------------------

  /** The sections of one document, numbered from `next`; every document
      starts with no pending heading. */
  function DocSections(doc: MarkdownDoc, next: int): seq<MarkdownSection> {
    PieceSections(doc.id, Classify(SplitAtHeadings(doc.markdown)), [], next)
  }

  /** The sections of `docs` in document order, numbered from `next`
      without restarting between documents. */
  function SectionsFrom(docs: seq<MarkdownDoc>, next: int): seq<MarkdownSection> {
    if |docs| == 0 then []
    else
      var first := DocSections(docs[0], next);
      first + SectionsFrom(docs[1..], next + |first|)
  }

  /** Every section belongs to one of `docs`. */
  predicate FromDocs(r: seq<MarkdownSection>, docs: seq<MarkdownDoc>) {
    forall k :: 0 <= k < |r| ==> exists j :: 0 <= j < |docs| && docs[j].id == r[k].docId
  }

  /** Ids continue from `next` across documents, every section's text is
      non-empty and trimmed, and every section belongs to one of `docs`. */
  lemma {:induction false} SectionsFromShape(docs: seq<MarkdownDoc>, next: int)
    ensures NumberedFrom(SectionsFrom(docs, next), next)
    ensures TrimmedTexts(SectionsFrom(docs, next))
    ensures FromDocs(SectionsFrom(docs, next), docs)
    decreases |docs|
  {
    if |docs| > 0 {
      var d := docs[0];
      var first := DocSections(d, next);
      var rest := SectionsFrom(docs[1..], next + |first|);
      PieceSectionsShape(d.id, Classify(SplitAtHeadings(d.markdown)), [], next);
      assert OfDoc(first, d.id) && NumberedFrom(first, next) && TrimmedTexts(first);
      SectionsFromShape(docs[1..], next + |first|);
      var r := first + rest;
      assert SectionsFrom(docs, next) == r;
      forall k | 0 <= k < |r|
        ensures r[k].sectionId == next + k
        ensures r[k].markdown != [] && IsTrimmed(r[k].markdown)
        ensures exists j :: 0 <= j < |docs| && docs[j].id == r[k].docId
      {
        if k < |first| {
          assert r[k] == first[k];
          assert docs[0].id == r[k].docId;
        } else {
          var i := k - |first|;
          assert r[k] == rest[i];
          assert exists j :: 0 <= j < |docs[1..]| && docs[1..][j].id == rest[i].docId;
          var j :| 0 <= j < |docs[1..]| && docs[1..][j].id == rest[i].docId;
          assert docs[j + 1].id == r[k].docId;
        }
      }
    }
  }

  /** `buildMarkdownSections`: ids run 0, 1, 2, ... over all documents. */
  function BuildMarkdownSections(docs: seq<MarkdownDoc>): (r: seq<MarkdownSection>)
    ensures forall k :: 0 <= k < |r| ==> r[k].sectionId == k
    ensures forall k :: 0 <= k < |r| ==> r[k].markdown != [] && IsTrimmed(r[k].markdown)
    ensures forall k :: 0 <= k < |r| ==> exists j :: 0 <= j < |docs| && docs[j].id == r[k].docId
  {
    SectionsFromShape(docs, 0);
    SectionsFrom(docs, 0)
  }

  /** A further document adds its own sections after all earlier ones,
      numbered from where the counter stopped and carrying its own id. */
  lemma SectionsFromStep(d: MarkdownDoc, rest: seq<MarkdownDoc>, next: int)
    ensures SectionsFrom([d] + rest, next)
            == DocSections(d, next) + SectionsFrom(rest, next + |DocSections(d, next)|)
  {
    ConsParts(d, rest);
  }

  lemma {:induction false} SectionsFromSnoc(docs: seq<MarkdownDoc>, d: MarkdownDoc, next: int)
    ensures SectionsFrom(docs + [d], next)
            == SectionsFrom(docs, next) + DocSections(d, next + |SectionsFrom(docs, next)|)
    decreases |docs|
  {
    if |docs| == 0 {
      assert docs + [d] == [d] + [];
      SectionsFromStep(d, [], next);
    } else {
      var x := docs[0];
      var rest := docs[1..];
      var first := DocSections(x, next);
      var n1 := next + |first|;
      ConsSnoc(docs, d);
      SectionsFromSnoc(rest, d, n1);
      var mid := SectionsFrom(rest, n1);
      var last := DocSections(d, n1 + |mid|);
      SectionsFromStep(x, rest + [d], next);
      SectionsFromStep(x, rest, next);
      ConcatAssoc(first, mid, last);
    }
  }
}
