/**
  The session state of the question-answering app: ingestion of the uploaded
  lectures (the "Initialize System" action) and answering one question over
  the ingested corpus.
 */
module SessionState {
  import opened Wrappers
  import opened Records
  import opened Extraction
  import opened Retrieval
  import opened Generation
  import opened Pipeline

  /**
    One uploaded file: its name and, when the PDF reader could open it, the
    raw text of each page in order (`None` when reading raised).
   */
  datatype Upload = Upload(name: string, pages: Option<seq<string>>)

  /** What the initialize action reported. */
  datatype InitOutcome =
    | NoUploads
    | ModelLoadFailed
    | ExtractionFailed
    | EmbeddingFailed
    | Indexed(pageCount: nat, fileCount: nat)

  /** The reader opened every upload. */
  predicate Readable(uploads: seq<Upload>) {
    forall i :: 0 <= i < |uploads| ==> uploads[i].pages.Some?
  }

  /** The records of all uploads, concatenated in upload order. */
  function AllRecords(uploads: seq<Upload>): seq<PageRecord>
    requires Readable(uploads)
  {
    if uploads == [] then []
    else
      var init := uploads[..|uploads| - 1];
      var last := uploads[|uploads| - 1];
      assert forall i :: 0 <= i < |init| ==> init[i] == uploads[i];
      AllRecords(init) + PageRecords(last.name, last.pages.value)
  }

  /** The similarity of the question to each stored embedding, in storage order. */
  function Similarities(embeddings: seq<Vector>, similarity: Vector -> real): seq<real> {
    seq(|embeddings|, i requires 0 <= i < |embeddings| => similarity(embeddings[i]))
  }

  /** Append is associative; stated once so the proofs below can name the step. */
  lemma ConcatAssoc<T>(a: seq<T>, b: seq<T>, c: seq<T>)
    ensures a + (b + c) == (a + b) + c
  {
  }

  /** Reading one more upload after `us` appends its page records. */
  lemma AllRecordsSnoc(us: seq<Upload>, u: Upload)
    requires Readable(us) && u.pages.Some?
    ensures Readable(us + [u])
    ensures AllRecords(us + [u]) == AllRecords(us) + PageRecords(u.name, u.pages.value)
  {
    assert (us + [u])[..|us|] == us;
  }

  lemma ReadableAppend(us: seq<Upload>, vs: seq<Upload>)
    requires Readable(us) && Readable(vs)
    ensures Readable(us + vs)
  {
    forall k | 0 <= k < |us + vs|
      ensures (us + vs)[k].pages.Some?
    {
      if k >= |us| {
        assert (us + vs)[k] == vs[k - |us|];
      }
    }
  }

  /** Ingesting two batches one after the other is ingesting their concatenation. */
  lemma {:induction false} AllRecordsAppend(us: seq<Upload>, vs: seq<Upload>)
    requires Readable(us) && Readable(vs)
    ensures Readable(us + vs)
    ensures AllRecords(us + vs) == AllRecords(us) + AllRecords(vs)
    decreases |vs|
  {
    ReadableAppend(us, vs);
    if vs == [] {
      assert us + vs == us;
    } else {
      var init := vs[..|vs| - 1];
      var last := vs[|vs| - 1];
      assert Readable(init) by {
        forall k | 0 <= k < |init| ensures init[k].pages.Some? {
          assert init[k] == vs[k];
        }
      }
      assert us + vs == (us + init) + [last] by {
        assert vs == init + [last];
        ConcatAssoc(us, init, [last]);
      }
      var tail := PageRecords(last.name, last.pages.value);
      assert AllRecords(vs) == AllRecords(init) + tail by {
        assert vs == init + [last];
        AllRecordsSnoc(init, last);
      }
      AllRecordsAppend(us, init);
      AllRecordsSnoc(us + init, last);
      ConcatAssoc(AllRecords(us), AllRecords(init), tail);
      calc {
        AllRecords(us + vs);
        AllRecords((us + init) + [last]);
        AllRecords(us + init) + tail;
        (AllRecords(us) + AllRecords(init)) + tail;
        AllRecords(us) + (AllRecords(init) + tail);
        AllRecords(us) + AllRecords(vs);
      }
    }
  }

  /** One readable upload contributes exactly its own page records. */
  lemma AllRecordsSingle(u: Upload)
    requires u.pages.Some?
    ensures Readable([u]) && AllRecords([u]) == PageRecords(u.name, u.pages.value)
  {
    assert [u][..0] == [];
  }

  /**
    Uploading the same readable file twice ingests its records twice, so the
    corpus then holds two records with the same id: ids are distinct only
    within one file.
   */
  lemma DuplicateUploadRepeatsIds(u: Upload)
    requires u.pages.Some? && PageRecords(u.name, u.pages.value) != []
    ensures Readable([u, u])
    ensures var rs := AllRecords([u, u]);
            exists s, t :: 0 <= s < t < |rs| && rs[s].id == rs[t].id
  {
    var r := PageRecords(u.name, u.pages.value);
    AllRecordsSingle(u);
    AllRecordsAppend([u], [u]);
    assert [u] + [u] == [u, u];
    var rs := AllRecords([u, u]);
    assert rs == r + r;
    assert rs[0].id == rs[|r|].id;
  }

  /** Reading one more upload appends its page records. */
  lemma AllRecordsStep(uploads: seq<Upload>, i: nat)
    requires i < |uploads| && Readable(uploads[..i]) && uploads[i].pages.Some?
    ensures Readable(uploads[..i + 1])
    ensures AllRecords(uploads[..i + 1]) == AllRecords(uploads[..i]) + PageRecords(uploads[i].name, uploads[i].pages.value)
  {
    assert uploads[..i + 1][..i] == uploads[..i];
  }

  /**
    The extraction loop of the initialize action: the records of each upload
    in turn, appended to the running list; `None` when the reader fails on an
    upload, which abandons the loop.
   */
  method ExtractAll(uploads: seq<Upload>) returns (all: Option<seq<PageRecord>>)
    ensures all.Some? <==> Readable(uploads)
    ensures all.Some? ==> all.value == AllRecords(uploads)
  {
    var allDocuments := [];
    for i := 0 to |uploads|
      invariant Readable(uploads[..i]) && allDocuments == AllRecords(uploads[..i])
    {
      match uploads[i].pages {
        case None =>
          assert !Readable(uploads);
          return None;
        case Some(pages) =>
          var docs := ExtractRecords(uploads[i].name, pages);
          AllRecordsStep(uploads, i);
          allDocuments := allDocuments + docs;
      }
    }
    assert uploads[..|uploads|] == uploads;
    return Some(allDocuments);
  }

  /** The session fields the app keeps between interactions. */
  class Session {
    var documents: seq<PageRecord>
    var embeddings: Option<seq<Vector>>
    var ready: bool

    /** A ready session has embeddings to search. */
    ghost predicate Valid()
      reads this
    {
      ready ==> embeddings.Some?
    }

    /** The state of a fresh session: no documents, no embeddings, not ready. */
    constructor ()
      ensures Valid()
      ensures documents == [] && embeddings == None && !ready
    {
      documents := [];
      embeddings := None;
      ready := false;
    }

    /**
      The initialize action. `modelLoads` says whether the embedding model
      loaded, `embed` is the model's encoder and `encodeFails` says whether
      encoding the page texts raised. The corpus is replaced before the
      embeddings are computed, so a failed encoding leaves the new records
      beside the previous embeddings and readiness. A successful run marks the
      session ready even when no page had any text.
     */
    method Initialize(uploads: seq<Upload>, modelLoads: bool, embed: string -> Vector, encodeFails: bool)
      returns (outcome: InitOutcome)
      requires Valid()
      modifies this
      ensures Valid()
      ensures uploads == [] ==> outcome == NoUploads && unchanged(this)
      ensures uploads != [] && !modelLoads ==> outcome == ModelLoadFailed && unchanged(this)
      ensures uploads != [] && modelLoads && !Readable(uploads) ==>
                outcome == ExtractionFailed && unchanged(this)
      ensures uploads != [] && modelLoads && Readable(uploads) ==> documents == AllRecords(uploads)
      ensures uploads != [] && modelLoads && Readable(uploads) && encodeFails ==>
                outcome == EmbeddingFailed && embeddings == old(embeddings) && ready == old(ready)
      ensures uploads != [] && modelLoads && Readable(uploads) && !encodeFails ==>
                && outcome == Indexed(|documents|, |uploads|)
                && ready
                && embeddings.Some?
                && |embeddings.value| == |documents|
                && forall i :: 0 <= i < |documents| ==> embeddings.value[i] == embed(documents[i].text)
    {
      if uploads == [] {
        return NoUploads;
      }
      if !modelLoads {
        return ModelLoadFailed;
      }
      var extracted := ExtractAll(uploads);
      if extracted.None? {
        return ExtractionFailed;
      }
      var allDocuments := extracted.value;
      documents := allDocuments;
      if encodeFails {
        return EmbeddingFailed;
      }
      var texts := seq(|allDocuments|, k requires 0 <= k < |allDocuments| => allDocuments[k].text);
      var vectors := seq(|texts|, k requires 0 <= k < |texts| => embed(texts[k]));
      embeddings := Some(vectors);
      ready := true;
      return Indexed(|allDocuments|, |uploads|);
    }

    /**
      Answering one (non-empty) question in a ready session: retrieval with
      top-k 3 over the stored records, scored by `similarity` against each
      stored embedding, then the pipeline with `llm` as the inference service.
      Only retrieval can fail: with a non-empty corpus, the semantic search
      raises when there are no embeddings or more embeddings than records.
     */
    method Ask(question: string, similarity: Vector -> real, llm: ChatRequest -> Completion)
      returns (r: Result<PipelineResult, Fault>)
      requires Valid() && ready && question != ""
      ensures var scores := Similarities(embeddings.value, similarity);
              match r
              case Success(res) =>
                && RetrievalSpec(question, documents, scores, TopK, Success(res.retrievedDocs))
                && res == RunPipeline(question, res.retrievedDocs, llm)
              case Failure(e) => RetrievalSpec(question, documents, scores, TopK, Failure(e))
      ensures documents != [] && embeddings.value == [] && OverrideHit(question, documents).None? ==>
                r == Failure(NoEmbeddings)
      ensures documents == [] || 0 < |embeddings.value| <= |documents| ==> r.Success?
    {
      var scores := Similarities(embeddings.value, similarity);
      var retrieved := FindRelevant(question, documents, scores, TopK);
      if documents == [] || 0 < |scores| <= |documents| {
        AlignedRetrievalSucceeds(question, documents, scores, TopK, retrieved);
      }
      if documents != [] && scores == [] && OverrideHit(question, documents).None? {
        EmptyEmbeddingsFail(question, documents, scores, TopK, retrieved);
      }
      if retrieved.Failure? {
        return Failure(retrieved.error);
      }
      var res := RunPipeline(question, retrieved.value, llm);
      assert res.retrievedDocs == retrieved.value;
      return Success(res);
    }
  }
}
