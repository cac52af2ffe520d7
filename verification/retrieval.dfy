/** Top-K retrieval over the embedded help-desk sections
    (help-docs/js/evals/rag.eval.ts).

    Each of the first `NUM_SECTIONS` sections gets a vector record carrying
    its document and section ids. For a query, every vector is scored, the
    scored list is sorted by descending score with a falsy score (missing,
    zero or NaN) counted as 0, the first three are kept, and the first
    `TOP_K` of those are looked up again by section id to give the context
    texts. Embedding and cosine similarity are parameters of the model: an
    embedding is a sequence of reals and a score is an abstract
    `Similarity`. */
module Retrieval {
  import opened Wrappers
  import opened Sequences
  import opened StableSort
  import opened MarkdownSections
  import QaRows

  const TOP_K: nat := 2

  /** How many ranked vectors are kept before the context cut. */
  const TOP_MANY: nat := 3

  /** The outcome of `similarity(a, b)`: a number, NaN, or nothing at all. */
  datatype Similarity = Missing | NotANumber | Value(x: real)

  datatype Vector = Vector(docId: int, sectionId: int, embedding: seq<real>)

  datatype Scored = Scored(v: Vector, similarity: Similarity)

  /** `similarity || 0`: every falsy score counts as zero. */
  function OrZero(s: Similarity): (r: real)
    ensures s.Value? && s.x != 0.0 ==> r == s.x
    ensures !s.Value? ==> r == 0.0
    ensures r == 0.0 <==> (s.Value? ==> s.x == 0.0)
  {
    match s
    case Value(x) => x
    case _ => 0.0
  }

  /** The score the list is sorted by, as seen by the comparator. */
  function Score(e: Scored): real {
    OrZero(e.similarity)
  }

  /** The ascending sort key that yields the comparator's order
      `(b.similarity || 0) - (a.similarity || 0)`. */
  function Descending(e: Scored): real {
    -Score(e)
  }

  /** `vectors`: one record per section, in section order. */
  function Vectors(sections: seq<MarkdownSection>, embed: string -> seq<real>): (r: seq<Vector>)
    ensures |r| == |sections|
    ensures forall i :: 0 <= i < |r| ==> ProducedBy(r[i], sections[i], embed)
  {
    seq(|sections|, i requires 0 <= i < |sections| =>
      Vector(sections[i].docId, sections[i].sectionId, embed(sections[i].markdown)))
  }

  /** `v` is the vector record made for `s`. */
  predicate ProducedBy(v: Vector, s: MarkdownSection, embed: string -> seq<real>) {
    v.docId == s.docId && v.sectionId == s.sectionId && v.embedding == embed(s.markdown)
  }

  /** `similarities`: each vector with its score against the query. */
  function Similarities(vectors: seq<Vector>, score: seq<real> -> Similarity): (r: seq<Scored>)
    ensures |r| == |vectors|
    ensures forall i :: 0 <= i < |r| ==> r[i].v == vectors[i]
    ensures forall i :: 0 <= i < |r| ==> r[i].similarity == score(vectors[i].embedding)
  {
    seq(|vectors|, i requires 0 <= i < |vectors| => Scored(vectors[i], score(vectors[i].embedding)))
  }

  /** The in-place sort of `similarities`: scores non-increasing, the same
      elements, and equal scores in their input order. */
  function Rank(s: seq<Scored>): (r: seq<Scored>)
    ensures |r| == |s|
    ensures forall i, j :: 0 <= i < j < |r| ==> Score(r[i]) >= Score(r[j])
    ensures multiset(r) == multiset(s)
  {
    var r := Sort(s, Descending);
    assert forall i, j :: 0 <= i < j < |r| ==> Descending(r[i]) <= Descending(r[j]);
    r
  }

  /** Entries with equal scores keep their relative order. */
  lemma RankStable(s: seq<Scored>)
    ensures forall k :: WithKey(Rank(s), Descending, k) == WithKey(s, Descending, k)
  {
    SortStable(s, Descending);
  }

  /** The ranking is determined by the comparator: any non-increasing,
      order-preserving rearrangement of `s` is `Rank(s)`, whichever stable
      algorithm the engine uses. */
  lemma RankUnique(s: seq<Scored>, t: seq<Scored>)
    requires forall i, j :: 0 <= i < j < |t| ==> Score(t[i]) >= Score(t[j])
    requires forall k :: WithKey(t, Descending, k) == WithKey(s, Descending, k)
    ensures t == Rank(s)
  {
    SortIsTheStableSort(s, t, Descending);
  }

  /** `topMany`: the first three ranked entries. */
  function TopMany(ranked: seq<Scored>): (r: seq<Scored>)
    ensures |r| == if |ranked| < TOP_MANY then |ranked| else TOP_MANY
    ensures r <= ranked
  {
    Take(ranked, TOP_MANY)
  }

  /** `docs.splice(0, TOP_K)`: at most two entries, all from `topMany`. */
  function Contexts(topMany: seq<Scored>): (r: seq<Scored>)
    ensures |r| <= TOP_K
    ensures |r| == if |topMany| < TOP_K then |topMany| else TOP_K
    ensures r <= topMany
  {
    Take(topMany, TOP_K)
  }

  /** The kept entries are the best: no entry left out of `topMany` has a
      strictly higher score than one kept. */
  lemma TopManyIsBest(s: seq<Scored>)
    ensures var ranked := Rank(s);
            var top := TopMany(ranked);
            forall i, j :: 0 <= i < |top| <= j < |ranked| ==> Score(ranked[j]) <= Score(top[i])
  {
    var ranked := Rank(s);
    var top := TopMany(ranked);
    forall i, j | 0 <= i < |top| <= j < |ranked|
      ensures Score(ranked[j]) <= Score(top[i])
    {
      assert top[i] == ranked[i];
    }
  }

  /** `sections[id]`, read for its `markdown`: reading past the end gives
      `undefined`, whose `markdown` throws. */
  function SectionAt(sections: seq<MarkdownSection>, id: int): (r: Result<MarkdownSection, string>)
    ensures r.Success? <==> 0 <= id < |sections|
    ensures r.Success? ==> r.value == sections[id]
  {
    if 0 <= id < |sections| then Success(sections[id])
    else Failure("TypeError: cannot read properties of undefined")
  }

  /** The context texts: each kept entry's section markdown, looked up by
      section id; fails at the first id out of range. */
  function ContextTexts(sections: seq<MarkdownSection>, contexts: seq<Scored>)
    : (r: Result<seq<string>, string>)
    ensures r.Success? ==> |r.value| == |contexts|
    ensures r.Success? <==> forall i :: 0 <= i < |contexts| ==> SectionAt(sections, contexts[i].v.sectionId).Success?
  {
    if |contexts| == 0 then Success([])
    else
      match SectionAt(sections, contexts[0].v.sectionId)
      case Failure(e) => Failure(e)
      case Success(s) =>
        match ContextTexts(sections, contexts[1..])
        case Failure(e) => Failure(e)
        case Success(rest) =>
          assert forall i :: 1 <= i < |contexts| ==> contexts[i] == contexts[1..][i - 1];
          Success([s.markdown] + rest)
  }

  /** The sections the evaluation keeps: the first `NUM_SECTIONS` of
      `buildMarkdownSections`. */
  function EvalSections(docs: seq<MarkdownDoc>): (r: seq<MarkdownSection>)
    ensures NumberedFrom(r, 0)
  {
    var all := BuildMarkdownSections(docs);
    var r := Take(all, QaRows.NUM_SECTIONS);
    assert forall k :: 0 <= k < |r| ==> r[k] == all[k];
    r
  }

  /** The entries kept for one query: the first three of the ranking. */
  function TopFor(sections: seq<MarkdownSection>, embed: string -> seq<real>,
                  score: seq<real> -> Similarity): seq<Scored> {
    TopMany(Rank(Similarities(Vectors(sections, embed), score)))
  }

  /** The answer to one query: rank and keep three; read the section of
      each of the three (for its relevance score and for the log), which
      fails at an id out of range; then keep `TOP_K` and return their
      sections' texts. */
  function Retrieve(sections: seq<MarkdownSection>, embed: string -> seq<real>,
                    score: seq<real> -> Similarity): (r: Result<seq<string>, string>)
    ensures var top := TopFor(sections, embed, score);
            r.Success? <==> forall i :: 0 <= i < |top| ==> 0 <= top[i].v.sectionId < |sections|
    ensures var ctx := Contexts(TopFor(sections, embed, score));
            r.Success? ==>
              |r.value| == |ctx|
              && forall i :: 0 <= i < |ctx| ==>
                   0 <= ctx[i].v.sectionId < |sections|
                   && r.value[i] == sections[ctx[i].v.sectionId].markdown
  {
    var top := TopFor(sections, embed, score);
    var ctx := Contexts(top);
    if ContextTexts(sections, top).Failure? then Failure(ContextTexts(sections, top).error)
    else
      assert forall i :: 0 <= i < |ctx| ==> ctx[i] == top[i];
      ContextTextsValues(sections, ctx);
      ContextTexts(sections, ctx)
  }

  /** Every ranked entry came from some section. */
  lemma RankedFromSections(sections: seq<MarkdownSection>, embed: string -> seq<real>,
                           score: seq<real> -> Similarity, e: Scored)
    requires e in Rank(Similarities(Vectors(sections, embed), score))
    ensures exists i :: 0 <= i < |sections| && ProducedBy(e.v, sections[i], embed)
  {
    var sims := Similarities(Vectors(sections, embed), score);
    assert e in multiset(Rank(sims));
    assert e in multiset(sims);
    var i :| 0 <= i < |sims| && sims[i] == e;
    assert ProducedBy(e.v, sections[i], embed);
  }

  /** When the sections are numbered 0, 1, 2, ... as `buildMarkdownSections`
      numbers them, `sections[v.sectionId]` is in range and is the very
      section the ranked entry `v` was made from. */
  lemma LookupFindsProducer(sections: seq<MarkdownSection>, embed: string -> seq<real>,
                            score: seq<real> -> Similarity, e: Scored)
    requires NumberedFrom(sections, 0)
    requires e in Rank(Similarities(Vectors(sections, embed), score))
    ensures SectionAt(sections, e.v.sectionId).Success?
    ensures ProducedBy(e.v, SectionAt(sections, e.v.sectionId).value, embed)
  {
    RankedFromSections(sections, embed, score, e);
    var i :| 0 <= i < |sections| && ProducedBy(e.v, sections[i], embed);
    assert sections[i].sectionId == i;
  }

  /** On the evaluation's own sections the retrieval never fails, and it
      returns the markdown of the sections the kept entries came from, at
      most `TOP_K` of them. */
  lemma RetrieveSucceeds(docs: seq<MarkdownDoc>, embed: string -> seq<real>,
                         score: seq<real> -> Similarity)
    ensures var sections := EvalSections(docs);
            var ctx := Contexts(TopFor(sections, embed, score));
            var r := Retrieve(sections, embed, score);
            && r.Success?
            && |r.value| == |ctx| <= TOP_K
            && forall i :: 0 <= i < |ctx| ==>
                 r.value[i] == sections[ctx[i].v.sectionId].markdown
                 && ProducedBy(ctx[i].v, sections[ctx[i].v.sectionId], embed)
  {
    var sections := EvalSections(docs);
    var ranked := Rank(Similarities(Vectors(sections, embed), score));
    var top := TopFor(sections, embed, score);
    var ctx := Contexts(top);
    forall i | 0 <= i < |top|
      ensures 0 <= top[i].v.sectionId < |sections|
      ensures ProducedBy(top[i].v, sections[top[i].v.sectionId], embed)
    {
      assert top[i] == ranked[i];
      LookupFindsProducer(sections, embed, score, top[i]);
    }
    assert forall i :: 0 <= i < |ctx| ==> ctx[i] == top[i];
  }

  /** A successful lookup returns the markdown of each entry's section, in
      order. */
  lemma {:induction false} ContextTextsValues(sections: seq<MarkdownSection>, contexts: seq<Scored>)
    requires ContextTexts(sections, contexts).Success?
    ensures var r := ContextTexts(sections, contexts).value;
            forall i :: 0 <= i < |contexts| ==>
              0 <= contexts[i].v.sectionId < |sections|
              && r[i] == sections[contexts[i].v.sectionId].markdown
  {
    if |contexts| > 0 {
      ContextTextsValues(sections, contexts[1..]);
      var r := ContextTexts(sections, contexts).value;
      var rest := ContextTexts(sections, contexts[1..]).value;
      assert r == [sections[contexts[0].v.sectionId].markdown] + rest;
      assert forall i :: 1 <= i < |contexts| ==> contexts[i] == contexts[1..][i - 1] && r[i] == rest[i - 1];
    }
  }
}
