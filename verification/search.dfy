/** The search procedure of the back end's search test script: native vector search
    first; when that yields no rows or fails, a case-insensitive lexical match over
    title, content, tags and authors, each candidate scored against the query
    embedding and the candidates ranked by descending score. */
module Search {
  import opened Common
  import opened Text
  import opened Records
  import opened Ranking

  const VectorIndexName := "vector_index"
  const VectorPath := "content_embedding"
  const NumCandidates: nat := 100
  /** Rows requested from, and read back from, the native engine. */
  const VectorLimit: nat := 10
  /** Candidates read back from the lexical query. */
  const LexicalLimit: nat := 10
  /** Ranked lexical results displayed. */
  const ShownLimit: nat := 5
  /** Length of the content excerpt kept with a lexical result. */
  const ExcerptLength: nat := 100
  /** Score of a candidate whose embedding cannot be compared with the query's. */
  const NeutralScore: real := 0.5

  /** The `$vectorSearch` stage handed to the native engine. */
  datatype VectorQuery = VectorQuery(index: string, path: string, queryVector: Vector, numCandidates: nat, limit: nat)

  /** One projected row of the native engine: id, title, the content cut at 200 bytes
      of its UTF-8 form (`$substr`), and the engine's own similarity score. */
  datatype VectorHit = VectorHit(id: Id, title: string, content: string, score: real)

  /** What the aggregate call gives back: its rows, or an exception. */
  datatype VectorOutcome = VectorOk(hits: seq<VectorHit>) | VectorFail

  /** The title and content excerpt kept with a lexical result. */
  datatype LexicalRow = LexicalRow(title: string, excerpt: string)

  /** How a search run ends. */
  datatype Report =
    | EmptyStore
    | VectorResults(hits: seq<VectorHit>)
    | NoLexicalMatches
    | LexicalResults(ranked: seq<Scored<LexicalRow>>, shown: seq<Scored<LexicalRow>>)

  function QueryFor(q: Vector): VectorQuery {
    VectorQuery(VectorIndexName, VectorPath, q, NumCandidates, VectorLimit)
  }

  /** The engine answered with at least one row. */
  predicate Answered(o: VectorOutcome) {
    o.VectorOk? && |o.hits| > 0
  }

  // ---------------------------------------------------------------------------
  // Embedding score
  // ---------------------------------------------------------------------------

  /** `sum(a * b for a, b in zip(q, d))` over vectors of equal length. */
  function Dot(a: Vector, b: Vector): real
    requires |a| == |b|
  {
    if |a| == 0 then 0.0 else a[0] * b[0] + Dot(a[1..], b[1..])
  }

  /** `max(0, min(1, x))`. */
  function Clamp01(x: real): (r: real)
    ensures 0.0 <= r <= 1.0
    ensures 0.0 <= x <= 1.0 ==> r == x
    ensures x < 0.0 ==> r == 0.0
    ensures x > 1.0 ==> r == 1.0
  {
    if x < 0.0 then 0.0 else if x > 1.0 then 1.0 else x
  }

  /** The candidate's embedding is present, non-empty and as long as the query's. */
  predicate Comparable(q: Vector, e: Option<Vector>) {
    e.Some? && |e.value| > 0 && |e.value| == |q|
  }

  /** The score of a lexical candidate: the dot product mapped from [-1, 1] onto
      [0, 1] and clamped, or the neutral 0.5 when the embeddings cannot be compared. */
  function Similarity(q: Vector, e: Option<Vector>): (r: real)
    ensures 0.0 <= r <= 1.0
    ensures !Comparable(q, e) ==> r == NeutralScore
    ensures Comparable(q, e) ==> r == Clamp01((Dot(q, e.value) + 1.0) / 2.0)
  {
    if Comparable(q, e) then Clamp01((Dot(q, e.value) + 1.0) / 2.0) else NeutralScore
  }

  lemma {:induction false} DotSymmetric(a: Vector, b: Vector)
    requires |a| == |b|
    ensures Dot(a, b) == Dot(b, a)
  {
    if |a| > 0 {
      DotSymmetric(a[1..], b[1..]);
    }
  }

  /** The score does not depend on which side is the query: two comparable vectors
      score each other alike. */
  lemma SimilaritySymmetric(q: Vector, d: Vector)
    requires |q| == |d| && |q| > 0
    ensures Similarity(q, Some(d)) == Similarity(d, Some(q))
  {
    DotSymmetric(q, d);
  }

  lemma {:induction false} DotSelfNonNegative(a: Vector)
    ensures Dot(a, a) >= 0.0
  {
    if |a| > 0 {
      DotSelfNonNegative(a[1..]);
      assert a[0] * a[0] >= 0.0;
    }
  }

  /** A candidate whose embedding equals the query's scores at least the neutral 0.5. */
  lemma SimilarityToSelf(q: Vector)
    requires |q| > 0
    ensures Similarity(q, Some(q)) >= NeutralScore
  {
    DotSelfNonNegative(q);
  }

  /** Comparable candidates are ranked by their dot product with the query. */
  lemma SimilarityMonotone(q: Vector, d1: Vector, d2: Vector)
    requires Comparable(q, Some(d1)) && Comparable(q, Some(d2))
    requires Dot(q, d1) <= Dot(q, d2)
    ensures Similarity(q, Some(d1)) <= Similarity(q, Some(d2))
  {
  }

  /** The clamp saturates exactly outside [-1, 1]. */
  lemma SimilaritySaturates(q: Vector, d: Vector)
    requires Comparable(q, Some(d))
    ensures Similarity(q, Some(d)) == 1.0 <==> Dot(q, d) >= 1.0
    ensures Similarity(q, Some(d)) == 0.0 <==> Dot(q, d) <= -1.0
  {
  }

  // ---------------------------------------------------------------------------
  // Lexical fallback
  // ---------------------------------------------------------------------------

  /** The `$or` of four case-insensitive matches: title, content, any tag, any author. */
  predicate LexicalMatch(d: Document, query: string) {
    || ContainsIgnoreCase(d.title, query)
    || ContainsIgnoreCase(d.content, query)
    || (exists t :: t in d.tags && ContainsIgnoreCase(t, query))
    || (exists a :: a in d.authors && ContainsIgnoreCase(a, query))
  }

  /** The documents of the store the lexical query selects, in store order. */
  function Matching(store: seq<Document>, query: string): (r: seq<Document>)
    ensures |r| <= |store|
    ensures forall d :: d in r <==> d in store && LexicalMatch(d, query)
  {
    if |store| == 0 then []
    else
      var rest := Matching(store[1..], query);
      assert forall d :: d in store <==> d == store[0] || d in store[1..];
      (if LexicalMatch(store[0], query) then [store[0]] else []) + rest
  }

  /** Selection keeps store order: the matches of a concatenation are the matches of
      its parts, concatenated. */
  lemma {:induction false} MatchingConcat(a: seq<Document>, b: seq<Document>, query: string)
    ensures Matching(a + b, query) == Matching(a, query) + Matching(b, query)
    decreases |a|
  {
    if |a| == 0 {
      assert a + b == b;
    } else {
      var ab := a + b;
      assert ab[0] == a[0];
      assert ab[1..] == a[1..] + b;
      MatchingConcat(a[1..], b, query);
    }
  }

  /** `find({"$or": ...}).limit(10)`: the first ten matching documents in store order. */
  function LexicalCandidates(store: seq<Document>, query: string): (r: seq<Document>)
    ensures |r| == Min(LexicalLimit, |Matching(store, query)|)
    ensures r <= Matching(store, query)
    ensures forall d :: d in r ==> d in store && LexicalMatch(d, query)
    ensures |Matching(store, query)| <= LexicalLimit ==>
              forall d :: d in store && LexicalMatch(d, query) ==> d in r
  {
    var m := Matching(store, query);
    var r := Take(m, LexicalLimit);
    assert forall d :: d in r ==> d in m by {
      forall d | d in r ensures d in m {
        var k :| 0 <= k < |r| && r[k] == d;
        assert m[k] == d;
      }
    }
    r
  }

  function RowOf(d: Document): LexicalRow {
    LexicalRow(d.title, Take(d.content, ExcerptLength))
  }

  /** Pairs every candidate's row with its score against the query embedding. */
  function ScoreCandidates(q: Vector, docs: seq<Document>): (r: seq<Scored<LexicalRow>>)
    ensures |r| == |docs|
    ensures forall i :: 0 <= i < |docs| ==> r[i] == Scored(RowOf(docs[i]), Similarity(q, docs[i].embedding))
  {
    if |docs| == 0 then []
    else [Scored(RowOf(docs[0]), Similarity(q, docs[0].embedding))] + ScoreCandidates(q, docs[1..])
  }

  /** `out` is `input` sorted by descending score, ties in their original order. */
  ghost predicate RankedFrom<T>(out: seq<Scored<T>>, input: seq<Scored<T>>) {
    && multiset(out) == multiset(input)
    && SortedDesc(out)
    && forall v :: WithScore(out, v) == WithScore(input, v)
  }

  lemma SortDescRanks<T>(s: seq<Scored<T>>)
    ensures RankedFrom(SortDesc(s), s)
  {
    forall v ensures WithScore(SortDesc(s), v) == WithScore(s, v) {
      SortDescStable(s, v);
    }
  }

  // ---------------------------------------------------------------------------
  // The search run
  // ---------------------------------------------------------------------------

  /** One search run over the given store: `embed` is the embedding model and
      `engine` the native vector engine, both outside the model. */
  function RunSearch(store: seq<Document>, query: string, embed: string -> Vector,
                     engine: VectorQuery -> VectorOutcome): (r: Report)
    ensures r.EmptyStore? <==> |store| == 0
    ensures r.VectorResults? <==> |store| > 0 && Answered(engine(QueryFor(embed(query))))
    ensures r.NoLexicalMatches? <==>
              |store| > 0 && !Answered(engine(QueryFor(embed(query)))) &&
              forall d :: d in store ==> !LexicalMatch(d, query)
  {
    if |store| == 0 then EmptyStore
    else
      var q := embed(query);
      var outcome := engine(QueryFor(q));
      if Answered(outcome) then VectorResults(Take(outcome.hits, VectorLimit))
      else
        var docs := LexicalCandidates(store, query);
        if |docs| == 0 then NoLexicalMatches
        else
          assert docs[0] in docs;
          var ranked := SortDesc(ScoreCandidates(q, docs));
          LexicalResults(ranked, Take(ranked, ShownLimit))
  }

  /** A non-empty answer of the native engine is the result, capped at ten rows as
      read back, and the lexical path does not run: the result does not depend on
      the documents of the store beyond their being some. */
  lemma VectorAnswerWins(s1: seq<Document>, s2: seq<Document>, query: string,
                         embed: string -> Vector, engine: VectorQuery -> VectorOutcome)
    requires |s1| > 0 && |s2| > 0
    requires Answered(engine(QueryFor(embed(query))))
    ensures RunSearch(s1, query, embed, engine) == RunSearch(s2, query, embed, engine)
    ensures RunSearch(s1, query, embed, engine) == VectorResults(Take(engine(QueryFor(embed(query))).hits, VectorLimit))
  {
  }

  /** When the engine fails or returns nothing, the lexical candidates are scored and
      ranked: the ranking is a stable descending sort of the scored candidates, every
      score lies in [0, 1], and the first five are shown. */
  lemma LexicalFallback(store: seq<Document>, query: string,
                        embed: string -> Vector, engine: VectorQuery -> VectorOutcome)
    requires |store| > 0
    requires !Answered(engine(QueryFor(embed(query))))
    requires exists d :: d in store && LexicalMatch(d, query)
    ensures var r := RunSearch(store, query, embed, engine);
            && r.LexicalResults?
            && RankedFrom(r.ranked, ScoreCandidates(embed(query), LexicalCandidates(store, query)))
            && |r.ranked| == Min(LexicalLimit, |Matching(store, query)|)
            && (forall k :: 0 <= k < |r.ranked| ==> 0.0 <= r.ranked[k].score <= 1.0)
            && r.shown == Take(r.ranked, ShownLimit)
  {
    var q := embed(query);
    var docs := LexicalCandidates(store, query);
    var scored := ScoreCandidates(q, docs);
    var ranked := SortDesc(scored);
    SortDescRanks(scored);
    forall k | 0 <= k < |ranked| ensures 0.0 <= ranked[k].score <= 1.0 {
      assert ranked[k] in multiset(scored);
      var j :| 0 <= j < |scored| && scored[j] == ranked[k];
    }
  }
}
