/** `find_relevant_documents`: empty-corpus exit, literal page/slide override, then top-k semantic search. */
module Retrieval {
  import opened Wrappers
  import opened Text
  import opened Records
  import opened SlideRef
  import opened Ranking

  /**
    What retrieval can raise: the IndexError of `documents[idx]` when the
    stored embeddings outnumber the records, or the ValueError of the cosine
    similarity against an embedding matrix with no rows.
   */
  datatype Fault = IndexOutOfRange | NoEmbeddings

  /** The score given to a record found by an explicit page or slide reference. */
  const OverrideScore: real := 1.0

  /** The result entry built from a record: its text and metadata copied, with the given score. */
  function ToRetrieved(rec: PageRecord, score: real): RetrievedDoc {
    RetrievedDoc(rec.text, Metadata(rec.file, rec.page, rec.lecture), score)
  }

  /** The position of the first record, in list order, whose page number is `n`. */
  function FirstWithPage(docs: seq<PageRecord>, n: nat): (r: Option<nat>)
    ensures r.Some? ==> r.value < |docs| && docs[r.value].page == n
                        && forall j :: 0 <= j < r.value ==> docs[j].page != n
    ensures r.None? ==> forall j :: 0 <= j < |docs| ==> docs[j].page != n
    decreases |docs|
  {
    if docs == [] then None
    else if docs[0].page == n then Some(0)
    else match FirstWithPage(docs[1..], n)
      case None => None
      case Some(j) => Some(j + 1)
  }

  /** The record the literal-reference override returns, if the query names a page some record has. */
  function OverrideHit(query: string, docs: seq<PageRecord>): (r: Option<nat>)
    ensures r.Some? ==> FindSlideRef(Lower(query)).Some? && r.value < |docs|
                        && docs[r.value].page == FindSlideRef(Lower(query)).value
                        && forall j :: 0 <= j < r.value ==> docs[j].page != FindSlideRef(Lower(query)).value
    ensures r.None? ==> FindSlideRef(Lower(query)).None?
                        || forall j :: 0 <= j < |docs| ==> docs[j].page != FindSlideRef(Lower(query)).value
  {
    match FindSlideRef(Lower(query))
    case None => None
    case Some(n) => FirstWithPage(docs, n)
  }

  /**
    The loop over the chosen positions: one entry per position, in order, or
    the IndexError the first position past the end of `docs` raises.
   */
  function Gather(docs: seq<PageRecord>, scores: seq<real>, idx: seq<nat>): (r: Result<seq<RetrievedDoc>, Fault>)
    requires forall t :: 0 <= t < |idx| ==> idx[t] < |scores|
    ensures r.Success? <==> forall t :: 0 <= t < |idx| ==> idx[t] < |docs|
    ensures r.Failure? ==> r.error == IndexOutOfRange
    ensures r.Success? ==> |r.value| == |idx|
                           && forall t :: 0 <= t < |idx| ==> r.value[t] == ToRetrieved(docs[idx[t]], scores[idx[t]])
    decreases |idx|
  {
    if idx == [] then Success([])
    else
      var last := idx[|idx| - 1];
      match Gather(docs, scores, idx[..|idx| - 1])
      case Failure(e) => Failure(e)
      case Success(prefix) =>
        if last < |docs| then Success(prefix + [ToRetrieved(docs[last], scores[last])])
        else Failure(IndexOutOfRange)
  }

  /**
    The semantic search over the similarity of the query to each embedding
    row: the ValueError when there is no row, otherwise the records at a top-k
    choice of positions, in rank order.
   */
  ghost predicate SemanticSpec(docs: seq<PageRecord>, scores: seq<real>, topK: int, r: Result<seq<RetrievedDoc>, Fault>) {
    if scores == [] then r == Failure(NoEmbeddings)
    else exists idx :: IsTopSelection(scores, SliceCount(|scores|, topK), idx) && r == Gather(docs, scores, idx)
  }

  /**
    What `find_relevant_documents` returns for a query, the records, the
    similarity of the query to each embedding row, and `top_k`: nothing for an
    empty corpus; the first record with the referenced page, scored 1.0, when
    the query's leftmost page/slide reference names a page some record has;
    otherwise the semantic search.
   */
  ghost predicate RetrievalSpec(query: string, docs: seq<PageRecord>, scores: seq<real>, topK: int,
                                r: Result<seq<RetrievedDoc>, Fault>) {
    if docs == [] then r == Success([])
    else match OverrideHit(query, docs)
      case Some(j) => r == Success([ToRetrieved(docs[j], OverrideScore)])
      case None => SemanticSpec(docs, scores, topK, r)
  }

  /** The override's scan: `for doc in documents: if doc['page'] == slide_num: return ...`. */
  method ScanForPage(documents: seq<PageRecord>, n: nat) returns (hit: Option<nat>)
    ensures hit == FirstWithPage(documents, n)
  {
    var i := 0;
    while i < |documents|
      invariant 0 <= i <= |documents|
      invariant forall j :: 0 <= j < i ==> documents[j].page != n
    {
      if documents[i].page == n {
        return Some(i);
      }
      i := i + 1;
    }
    return None;
  }

  /** The result loop: `for idx in top_indices: doc = documents[idx]; retrieved_docs.append(...)`. */
  method CollectResults(documents: seq<PageRecord>, scores: seq<real>, top: seq<nat>)
    returns (r: Result<seq<RetrievedDoc>, Fault>)
    requires forall t :: 0 <= t < |top| ==> top[t] < |scores|
    ensures r == Gather(documents, scores, top)
  {
    var retrieved := [];
    for t := 0 to |top|
      invariant Gather(documents, scores, top[..t]) == Success(retrieved)
    {
      assert top[..t + 1][..t] == top[..t];
      var idx := top[t];
      if idx >= |documents| {
        assert Gather(documents, scores, top).Failure?;
        assert Gather(documents, scores, top).error.IndexOutOfRange?;
        return Failure(IndexOutOfRange);
      }
      retrieved := retrieved + [ToRetrieved(documents[idx], scores[idx])];
    }
    assert top[..|top|] == top;
    return Success(retrieved);
  }

  /** `find_relevant_documents(query, documents, doc_embeddings, model, top_k)`, given the similarity scores. */
  method FindRelevant(query: string, documents: seq<PageRecord>, scores: seq<real>, topK: int)
    returns (r: Result<seq<RetrievedDoc>, Fault>)
    ensures RetrievalSpec(query, documents, scores, topK, r)
    ensures documents == [] ==> r == Success([])
  {
    if documents == [] {
      return Success([]);
    }
    var slide := FindSlideRef(Lower(query));
    if slide.Some? {
      var hit := ScanForPage(documents, slide.value);
      if hit.Some? {
        return Success([ToRetrieved(documents[hit.value], OverrideScore)]);
      }
    }
    if scores == [] {
      return Failure(NoEmbeddings);
    }
    var top := SelectTop(scores, topK);
    r := CollectResults(documents, scores, top);
  }

  /**
    The override: when the leftmost reference names page `n` and some record
    has it, the result is exactly one entry, the first such record in list
    order, scored 1.0, whatever the similarity scores.
   */
  lemma OverrideResult(query: string, docs: seq<PageRecord>, scores: seq<real>, topK: int,
                       r: Result<seq<RetrievedDoc>, Fault>, n: nat, j: nat)
    requires RetrievalSpec(query, docs, scores, topK, r)
    requires FindSlideRef(Lower(query)) == Some(n)
    requires j < |docs| && docs[j].page == n && forall i :: 0 <= i < j ==> docs[i].page != n
    ensures r == Success([ToRetrieved(docs[j], 1.0)])
    ensures r.value[0].metadata.page == n && r.value[0].score == 1.0
  {
    var hit := OverrideHit(query, docs);
    assert hit.Some?;
    assert hit.value == j;
  }

  /**
    A reference to a page no record has does not end the search: the result
    is the semantic one, and no later reference in the query is tried.
   */
  lemma UnmatchedReferenceFallsThrough(query: string, docs: seq<PageRecord>, scores: seq<real>, topK: int,
                                       r: Result<seq<RetrievedDoc>, Fault>, n: nat)
    requires RetrievalSpec(query, docs, scores, topK, r)
    requires docs != [] && FindSlideRef(Lower(query)) == Some(n)
    requires forall j :: 0 <= j < |docs| ==> docs[j].page != n
    ensures SemanticSpec(docs, scores, topK, r)
  {
    assert FirstWithPage(docs, n).None?;
  }

  /**
    The reference check lowercases the query first, so a query that differs
    only in the ASCII case of its letters (`Slide 3`, `SLIDE 3`) gets the same
    override.
   */
  lemma OverrideIgnoresCase(q1: string, q2: string, docs: seq<PageRecord>)
    requires SameTextAnyCase(q1, q2)
    ensures FindSlideRef(Lower(q1)) == FindSlideRef(Lower(q2))
    ensures OverrideHit(q1, docs) == OverrideHit(q2, docs)
  {
    LowerIgnoresCase(q1, q2);
  }

  /**
    The semantic path, when there are embeddings and they do not outnumber
    the records: it
    succeeds with `SliceCount(|scores|, top_k)` entries (`min(top_k, n)` for
    `top_k >= 1`), in non-increasing score order, each a copy of a distinct
    record with that record's own score, and no record left out scores higher
    than one returned.
   */
  lemma SemanticResult(query: string, docs: seq<PageRecord>, scores: seq<real>, topK: int,
                       r: Result<seq<RetrievedDoc>, Fault>)
    requires RetrievalSpec(query, docs, scores, topK, r)
    requires docs != [] && OverrideHit(query, docs).None? && 0 < |scores| <= |docs|
    ensures r.Success? && |r.value| == SliceCount(|scores|, topK)
    ensures topK >= 1 && |scores| == |docs| ==> |r.value| == if topK < |docs| then topK else |docs|
    ensures forall s, t :: 0 <= s < t < |r.value| ==> r.value[s].score >= r.value[t].score
    ensures exists idx :: IsTopSelection(scores, |r.value|, idx)
                          && forall t :: 0 <= t < |idx| ==> r.value[t] == ToRetrieved(docs[idx[t]], scores[idx[t]])
  {
    var idx :| IsTopSelection(scores, SliceCount(|scores|, topK), idx) && r == Gather(docs, scores, idx);
    forall s, t | 0 <= s < t < |r.value| ensures r.value[s].score >= r.value[t].score {
      assert r.value[s].score == scores[idx[s]];
    }
  }

  /**
    Without a matching reference, a non-empty corpus with no embeddings makes
    the similarity computation raise.
   */
  lemma EmptyEmbeddingsFail(query: string, docs: seq<PageRecord>, scores: seq<real>, topK: int,
                            r: Result<seq<RetrievedDoc>, Fault>)
    requires RetrievalSpec(query, docs, scores, topK, r)
    requires docs != [] && OverrideHit(query, docs).None? && scores == []
    ensures r == Failure(NoEmbeddings)
  {
  }

  /**
    Retrieval never raises over an empty corpus, nor when there is at least
    one similarity score and no more scores than records.
   */
  lemma AlignedRetrievalSucceeds(query: string, docs: seq<PageRecord>, scores: seq<real>, topK: int,
                                 r: Result<seq<RetrievedDoc>, Fault>)
    requires RetrievalSpec(query, docs, scores, topK, r)
    requires docs == [] || 0 < |scores| <= |docs|
    ensures r.Success?
  {
    if docs != [] && OverrideHit(query, docs).None? {
      SemanticResult(query, docs, scores, topK, r);
    }
  }
}
