/** Flattening generated question/answer groups into evaluation rows
    (help-docs/js/evals/load.ts, `setupQAPairs` and the fallback in
    `produceCandidateQuestions`).

    The first `NUM_SECTIONS` sections are each sent to a question generator;
    a reply that cannot be read becomes `{pairs: []}`. The rows are emitted
    by three nested loops over sections, pairs and questions, with one
    running row id. The model separates the loop nest, which enumerates
    coordinates (section position, pair index, question index), from the
    row built at each coordinate. */
module QaRows {
  import opened Wrappers
  import opened Sequences
  import opened MarkdownSections

  /** How many sections are sent to the question generator. */
  const NUM_SECTIONS: nat := 40

  datatype QAPair = QAPair(questions: seq<string>, answer: string)

  datatype QAPairs = QAPairs(pairs: seq<QAPair>)

  datatype Split = Train | Test

  datatype Metadata = Metadata(documentId: int, sectionId: int, topicIdx: nat,
                               questionIdx: nat, id: nat, split: Split)

  datatype QAData = QAData(input: string, expected: string, metadata: Metadata)

  /** The generator's reply for one section: the parsed pairs, or
      `{pairs: []}` when the reply could not be parsed. */
  function CandidatesOrEmpty(reply: Option<QAPairs>): QAPairs {
    match reply
    case Some(p) => p
    case None => QAPairs([])
  }

  /** A row position in the loop nest: section position `q` in the used
      sections, pair index `i` in that section's pairs, question index `j`
      in that pair. */
  datatype Coord = Coord(q: nat, i: nat, j: nat)

  predicate ValidCoord(cands: seq<QAPairs>, c: Coord) {
    && c.q < |cands|
    && c.i < |cands[c.q].pairs|
    && c.j < |cands[c.q].pairs[c.i].questions|
  }

  /** Strict lexicographic order on coordinates: the order in which the
      loops visit them. */
  predicate CoordBefore(a: Coord, b: Coord) {
    a.q < b.q || (a.q == b.q && (a.i < b.i || (a.i == b.i && a.j < b.j)))
  }

  // ---------------------------------------------------------------------
  // The loop nest
  // ---------------------------------------------------------------------

  /** The innermost loop: the questions of pair `i` of section `q`. */
  function PairCoords(q: nat, i: nat, n: nat): (r: seq<Coord>)
    ensures |r| == n
    ensures forall j :: 0 <= j < n ==> r[j] == Coord(q, i, j)
  {
    seq(n, j requires 0 <= j < n => Coord(q, i, j))
  }

  /** The middle loop, from pair `i` on. */
  function SectionCoords(q: nat, pairs: seq<QAPair>, i: nat): seq<Coord>
    requires i <= |pairs|
    decreases |pairs| - i
  {
    if i == |pairs| then []
    else PairCoords(q, i, |pairs[i].questions|) + SectionCoords(q, pairs, i + 1)
  }

  /** The outer loop, from section position `q` on. */
  function AllCoords(cands: seq<QAPairs>, q: nat): seq<Coord>
    requires q <= |cands|
    decreases |cands| - q
  {
    if q == |cands| then []
    else SectionCoords(q, cands[q].pairs, 0) + AllCoords(cands, q + 1)
  }

  /** The number of questions in pairs `i..`. */
  function QuestionsFrom(pairs: seq<QAPair>, i: nat): nat
    requires i <= |pairs|
    decreases |pairs| - i
  {
    if i == |pairs| then 0 else |pairs[i].questions| + QuestionsFrom(pairs, i + 1)
  }

  /** The number of questions over all replies from position `q` on. */
  function TotalQuestions(cands: seq<QAPairs>, q: nat): nat
    requires q <= |cands|
    decreases |cands| - q
  {
    if q == |cands| then 0 else QuestionsFrom(cands[q].pairs, 0) + TotalQuestions(cands, q + 1)
  }

  // ---------------------------------------------------------------------
  // What the loop nest enumerates
  // ---------------------------------------------------------------------

  /** Every coordinate in `r` is a question of `cands`. */
  predicate AllValid(cands: seq<QAPairs>, r: seq<Coord>) {
    forall k :: 0 <= k < |r| ==> ValidCoord(cands, r[k])
  }

  /** Every coordinate in `r` lies in section position `q`, at pair `i` or
      later. */
  predicate InSectionFrom(r: seq<Coord>, q: nat, i: nat) {
    forall k :: 0 <= k < |r| ==> r[k].q == q && r[k].i >= i
  }

  /** Every coordinate in `r` lies in section position `q` or later. */
  predicate FromSection(r: seq<Coord>, q: nat) {
    forall k :: 0 <= k < |r| ==> r[k].q >= q
  }

  /** Every coordinate the middle loop visits is a question of section `q`
      at pair index `i` or later. */
  lemma {:induction false} SectionCoordsValid(cands: seq<QAPairs>, q: nat, i: nat)
    requires q < |cands| && i <= |cands[q].pairs|
    ensures AllValid(cands, SectionCoords(q, cands[q].pairs, i))
    ensures InSectionFrom(SectionCoords(q, cands[q].pairs, i), q, i)
    decreases |cands[q].pairs| - i
  {
    var pairs := cands[q].pairs;
    if i < |pairs| {
      SectionCoordsValid(cands, q, i + 1);
      var a := PairCoords(q, i, |pairs[i].questions|);
      var b := SectionCoords(q, pairs, i + 1);
      var r := a + b;
      assert SectionCoords(q, pairs, i) == r;
      forall k | 0 <= k < |r|
        ensures ValidCoord(cands, r[k]) && r[k].q == q && r[k].i >= i
      {
        if k < |a| {
          assert r[k] == Coord(q, i, k);
        } else {
          assert r[k] == b[k - |a|];
        }
      }
    }
  }

  /** Every coordinate the loops visit is a question of some section at
      position `q` or later. */
  lemma {:induction false} AllCoordsValid(cands: seq<QAPairs>, q: nat)
    requires q <= |cands|
    ensures AllValid(cands, AllCoords(cands, q))
    ensures FromSection(AllCoords(cands, q), q)
    decreases |cands| - q
  {
    if q < |cands| {
      AllCoordsValid(cands, q + 1);
      SectionCoordsValid(cands, q, 0);
      var a := SectionCoords(q, cands[q].pairs, 0);
      var b := AllCoords(cands, q + 1);
      var r := a + b;
      assert AllCoords(cands, q) == r;
      forall k | 0 <= k < |r|
        ensures ValidCoord(cands, r[k]) && r[k].q >= q
      {
        if k < |a| {
          assert r[k] == a[k];
        } else {
          assert r[k] == b[k - |a|];
        }
      }
    }
  }

  /** There is one coordinate per question. */
  lemma {:induction false} AllCoordsCount(cands: seq<QAPairs>, q: nat)
    requires q <= |cands|
    ensures |AllCoords(cands, q)| == TotalQuestions(cands, q)
    decreases |cands| - q
  {
    if q < |cands| {
      SectionCoordsCount(cands[q].pairs, q, 0);
      AllCoordsCount(cands, q + 1);
    }
  }

  lemma {:induction false} SectionCoordsCount(pairs: seq<QAPair>, q: nat, i: nat)
    requires i <= |pairs|
    ensures |SectionCoords(q, pairs, i)| == QuestionsFrom(pairs, i)
    decreases |pairs| - i
  {
    if i < |pairs| {
      SectionCoordsCount(pairs, q, i + 1);
    }
  }

  /** Sorted: each coordinate comes before every later one. */
  predicate CoordsSorted(r: seq<Coord>) {
    forall a, b :: 0 <= a < b < |r| ==> CoordBefore(r[a], r[b])
  }

  lemma SortedConcat(x: seq<Coord>, y: seq<Coord>)
    requires CoordsSorted(x) && CoordsSorted(y)
    requires forall a, b :: 0 <= a < |x| && 0 <= b < |y| ==> CoordBefore(x[a], y[b])
    ensures CoordsSorted(x + y)
  {
    var r := x + y;
    forall a, b | 0 <= a < b < |r|
      ensures CoordBefore(r[a], r[b])
    {
      if b < |x| {
        assert r[a] == x[a] && r[b] == x[b];
      } else if a < |x| {
        assert r[a] == x[a] && r[b] == y[b - |x|];
      } else {
        assert r[a] == y[a - |x|] && r[b] == y[b - |x|];
      }
    }
  }

  lemma {:induction false} SectionCoordsSorted(cands: seq<QAPairs>, q: nat, i: nat)
    requires q < |cands| && i <= |cands[q].pairs|
    ensures CoordsSorted(SectionCoords(q, cands[q].pairs, i))
    decreases |cands[q].pairs| - i
  {
    var pairs := cands[q].pairs;
    if i < |pairs| {
      SectionCoordsSorted(cands, q, i + 1);
      SectionCoordsValid(cands, q, i + 1);
      var a := PairCoords(q, i, |pairs[i].questions|);
      var b := SectionCoords(q, pairs, i + 1);
      assert CoordsSorted(a);
      assert forall x, y :: 0 <= x < |a| && 0 <= y < |b| ==> CoordBefore(a[x], b[y]);
      SortedConcat(a, b);
    }
  }

  /** The loops visit coordinates in strictly increasing lexicographic
      order: by section, then pair, then question. */
  lemma {:induction false} AllCoordsSorted(cands: seq<QAPairs>, q: nat)
    requires q <= |cands|
    ensures CoordsSorted(AllCoords(cands, q))
    decreases |cands| - q
  {
    if q < |cands| {
      AllCoordsSorted(cands, q + 1);
      AllCoordsValid(cands, q + 1);
      SectionCoordsSorted(cands, q, 0);
      SectionCoordsValid(cands, q, 0);
      var a := SectionCoords(q, cands[q].pairs, 0);
      var b := AllCoords(cands, q + 1);
      assert forall x, y :: 0 <= x < |a| && 0 <= y < |b| ==> CoordBefore(a[x], b[y]);
      SortedConcat(a, b);
    }
  }

  lemma {:induction false} SectionCoordsComplete(cands: seq<QAPairs>, c: Coord, i: nat)
    requires ValidCoord(cands, c) && i <= c.i
    ensures c in SectionCoords(c.q, cands[c.q].pairs, i)
    decreases |cands[c.q].pairs| - i
  {
    var pairs := cands[c.q].pairs;
    var a := PairCoords(c.q, i, |pairs[i].questions|);
    if i == c.i {
      assert a[c.j] == c;
    } else {
      SectionCoordsComplete(cands, c, i + 1);
    }
  }

  /** The loops miss no question: every valid coordinate of a section at
      position `q` or later is visited. */
  lemma {:induction false} AllCoordsComplete(cands: seq<QAPairs>, c: Coord, q: nat)
    requires ValidCoord(cands, c) && q <= c.q
    ensures c in AllCoords(cands, q)
    decreases |cands| - q
  {
    if q == c.q {
      SectionCoordsComplete(cands, c, 0);
    } else {
      AllCoordsComplete(cands, c, q + 1);
    }
  }

  // ---------------------------------------------------------------------
  // Rows
  // ---------------------------------------------------------------------

  /** The split of question `j` of a pair with `n` questions: the last
      question of a pair with at least two goes to the test set. */
  function SplitOf(j: nat, n: nat): Split {
    if j == n - 1 && j > 0 then Test else Train
  }

  /** The row pushed at coordinate `c` when the row counter is `id`. */
  function RowAt(used: seq<MarkdownSection>, cands: seq<QAPairs>, c: Coord, id: nat): QAData
    requires |cands| == |used|
    requires ValidCoord(cands, c)
  {
    var section := used[c.q];
    var pair := cands[c.q].pairs[c.i];
    QAData(pair.questions[c.j], pair.answer,
           Metadata(section.docId, section.sectionId, c.i, c.j, id,
                    SplitOf(c.j, |pair.questions|)))
  }

  /** The sections actually used: the first `NUM_SECTIONS`. */
  function UsedSections(sections: seq<MarkdownSection>): (r: seq<MarkdownSection>)
    ensures |r| == if |sections| < NUM_SECTIONS then |sections| else NUM_SECTIONS
    ensures r <= sections
  {
    Take(sections, NUM_SECTIONS)
  }

  /** The generator's replies, one per used section, with the fallback
      applied. */
  function Candidates(used: seq<MarkdownSection>, propose: MarkdownSection -> Option<QAPairs>)
    : (r: seq<QAPairs>)
    ensures |r| == |used|
    ensures forall q :: 0 <= q < |used| ==> r[q] == CandidatesOrEmpty(propose(used[q]))
  {
    seq(|used|, q requires 0 <= q < |used| => CandidatesOrEmpty(propose(used[q])))
  }

  /** `setupQAPairs`: one row per visited coordinate, with the running row
      id equal to the row's position. */
  function SetupQAPairs(sections: seq<MarkdownSection>, propose: MarkdownSection -> Option<QAPairs>)
    : (r: seq<QAData>)
    ensures var cands := Candidates(UsedSections(sections), propose);
            |r| == TotalQuestions(cands, 0)
    ensures forall k :: 0 <= k < |r| ==> r[k].metadata.id == k
  {
    var used := UsedSections(sections);
    var cands := Candidates(used, propose);
    var coords := AllCoords(cands, 0);
    AllCoordsValid(cands, 0);
    AllCoordsCount(cands, 0);
    seq(|coords|, k requires 0 <= k < |coords| => RowAt(used, cands, coords[k], k))
  }

  /** Every row is the row of one question of one used section: its input
      is that question, its expected output the pair's answer, and its ids
      are copied from the section; and every question of every used section
      has a row, in loop order. */
  lemma RowsAreQuestions(sections: seq<MarkdownSection>, propose: MarkdownSection -> Option<QAPairs>)
    ensures var used := UsedSections(sections);
            var cands := Candidates(used, propose);
            var coords := AllCoords(cands, 0);
            var r := SetupQAPairs(sections, propose);
            && |r| == |coords|
            && (forall k :: 0 <= k < |r| ==> ValidCoord(cands, coords[k]) && r[k] == RowAt(used, cands, coords[k], k))
            && (forall c :: ValidCoord(cands, c) ==> c in coords)
            && CoordsSorted(coords)
  {
    var used := UsedSections(sections);
    var cands := Candidates(used, propose);
    AllCoordsValid(cands, 0);
    AllCoordsSorted(cands, 0);
    forall c | ValidCoord(cands, c)
      ensures c in AllCoords(cands, 0)
    {
      AllCoordsComplete(cands, c, 0);
    }
  }

  /** A section whose reply could not be parsed contributes no coordinates
      and therefore no rows. */
  lemma FallbackContributesNothing(used: seq<MarkdownSection>,
                                   propose: MarkdownSection -> Option<QAPairs>, q: nat)
    requires q < |used| && propose(used[q]).None?
    ensures var cands := Candidates(used, propose);
            forall c :: ValidCoord(cands, c) ==> c.q != q
  {
  }

  // ---------------------------------------------------------------------
  // The train/test split
  // ---------------------------------------------------------------------

  /** The number of test rows among the first `m` questions of a pair with
      `n` questions. */
  function TestCount(m: nat, n: nat): nat {
    if m == 0 then 0 else TestCount(m - 1, n) + (if SplitOf(m - 1, n) == Test then 1 else 0)
  }

  /** In a strictly ordered coordinate list, order of coordinates is order
      of positions. */
  lemma SortedOrder(r: seq<Coord>, a: nat, b: nat)
    requires CoordsSorted(r) && a < |r| && b < |r|
    requires CoordBefore(r[a], r[b])
    ensures a < b
  {
  }

  /** In the loop order, the coordinate after the last question of a pair
      starts the next pair, and the one after any other question is the
      next question of the same pair; the last coordinate of all ends its
      pair. */
  lemma NextCoord(cands: seq<QAPairs>, coords: seq<Coord>, k: nat)
    requires AllValid(cands, coords) && CoordsSorted(coords)
    requires forall c :: ValidCoord(cands, c) ==> c in coords
    requires k < |coords|
    ensures var c := coords[k];
            var n := |cands[c.q].pairs[c.i].questions|;
            && (k + 1 < |coords| ==> (coords[k + 1].j == 0 <==> c.j == n - 1))
            && (k + 1 == |coords| ==> c.j == n - 1)
  {
    var c := coords[k];
    var n := |cands[c.q].pairs[c.i].questions|;
    assert ValidCoord(cands, c);
    if c.j < n - 1 {
      var d := Coord(c.q, c.i, c.j + 1);
      assert ValidCoord(cands, d);
      var m :| 0 <= m < |coords| && coords[m] == d;
      SortedOrder(coords, k, m);
      if k + 1 < m {
        assert CoordBefore(coords[k + 1], coords[m]);
      }
    } else if k + 1 < |coords| {
      var e := coords[k + 1];
      assert ValidCoord(cands, e);
      if e.j != 0 {
        var d := Coord(e.q, e.i, 0);
        assert ValidCoord(cands, d);
        var m :| 0 <= m < |coords| && coords[m] == d;
        SortedOrder(coords, m, k + 1);
      }
    }
  }

  /** The split, read off the rows: a row is a test row exactly when it is
      not the first question of its pair and the row after it, if any,
      starts a new pair. So the last question of a pair of two or more is
      the test row, and a pair of one question has none. */
  lemma SplitRule(sections: seq<MarkdownSection>, propose: MarkdownSection -> Option<QAPairs>, k: nat)
    requires k < |SetupQAPairs(sections, propose)|
    ensures var r := SetupQAPairs(sections, propose);
            r[k].metadata.split == Test <==>
              r[k].metadata.questionIdx > 0
              && (k + 1 == |r| || r[k + 1].metadata.questionIdx == 0)
  {
    var used := UsedSections(sections);
    var cands := Candidates(used, propose);
    var coords := AllCoords(cands, 0);
    RowsAreQuestions(sections, propose);
    NextCoord(cands, coords, k);
  }

  lemma {:induction false} TestCountBelowLast(m: nat, n: nat)
    requires m < n
    ensures TestCount(m, n) == 0
  {
    if m > 0 {
      TestCountBelowLast(m - 1, n);
    }
  }

  /** A pair yields exactly one test row when it has two or more questions,
      and none when it has one or none. */
  lemma TestRowsPerPair(n: nat)
    ensures TestCount(n, n) == if n >= 2 then 1 else 0
  {
    if n > 0 {
      TestCountBelowLast(n - 1, n);
    }
  }

  // ---------------------------------------------------------------------
  // Ordering by section id
  // ---------------------------------------------------------------------

  /** Strict lexicographic order on (section id, topic index, question
      index). */
  predicate RowBefore(a: QAData, b: QAData) {
    var x, y := a.metadata, b.metadata;
    x.sectionId < y.sectionId
    || (x.sectionId == y.sectionId
        && (x.topicIdx < y.topicIdx || (x.topicIdx == y.topicIdx && x.questionIdx < y.questionIdx)))
  }

  /** When the sections' ids increase, as `buildMarkdownSections` numbers
      them, the rows are ordered by (section id, topic index, question
      index). */
  lemma RowsOrdered(sections: seq<MarkdownSection>, propose: MarkdownSection -> Option<QAPairs>)
    requires forall a, b :: 0 <= a < b < |sections| ==> sections[a].sectionId < sections[b].sectionId
    ensures var r := SetupQAPairs(sections, propose);
            forall a, b :: 0 <= a < b < |r| ==> RowBefore(r[a], r[b])
  {
    var used := UsedSections(sections);
    var cands := Candidates(used, propose);
    var coords := AllCoords(cands, 0);
    var r := SetupQAPairs(sections, propose);
    RowsAreQuestions(sections, propose);
    forall a, b | 0 <= a < b < |r|
      ensures RowBefore(r[a], r[b])
    {
      var ca, cb := coords[a], coords[b];
      assert CoordBefore(ca, cb);
      assert used[ca.q] == sections[ca.q] && used[cb.q] == sections[cb.q];
    }
  }
}
