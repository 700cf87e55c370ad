/** `run_rag_pipeline`: retrieval, prompt, generation, then the answer with its citations. */
module Pipeline {
  import opened Wrappers
  import opened Text
  import opened Records
  import opened Prompt
  import opened Generation

  /** The number of documents the pipeline asks retrieval for. */
  const TopK: int := 3

  const NoInformationAnswer := "\U{274C} No relevant information found in the lectures."
  const NoPromptAnswer := "\U{274C} Could not build prompt from retrieved documents."
  const SourcesLead := "\n\n\U{1F4DA} **Sources:** "
  const CitationSeparator := ", "

  /** The dictionary the pipeline returns. */
  datatype PipelineResult = PipelineResult(answer: string, sources: seq<Metadata>, retrievedDocs: seq<RetrievedDoc>)

  /** `file (Slide page)`, one citation. */
  function Citation(m: Metadata): string {
    m.file + " (Slide " + NatToString(m.page) + ")"
  }

  function Citations(docs: seq<RetrievedDoc>): seq<string> {
    seq(|docs|, i requires 0 <= i < |docs| => Citation(docs[i].metadata))
  }

  function SourceList(docs: seq<RetrievedDoc>): seq<Metadata> {
    seq(|docs|, i requires 0 <= i < |docs| => docs[i].metadata)
  }

  /**
    `run_rag_pipeline` once retrieval has produced `retrieved`; `llm` stands for
    the inference service. With nothing retrieved the answer is the fixed
    no-information text with no sources; otherwise the model is asked once with
    the composed prompt, the citations are appended in rank order, the sources
    are the retrieved metadata in rank order and the retrieved documents are
    passed through unchanged.
   */
  function RunPipeline(question: string, retrieved: seq<RetrievedDoc>, llm: ChatRequest -> Completion): (r: PipelineResult)
    ensures retrieved == [] <==> r == PipelineResult(NoInformationAnswer, [], [])
    ensures retrieved != [] ==> r.retrievedDocs == retrieved
    ensures retrieved != [] ==> |r.sources| == |retrieved| && forall i :: 0 <= i < |retrieved| ==> r.sources[i] == retrieved[i].metadata
    ensures retrieved != [] ==>
              var generated := GenerateResponse(llm(UserRequest(ComposePrompt(question, retrieved).value)));
              StartsWith(r.answer, generated + SourcesLead)
              && r.answer[|generated + SourcesLead|..] == Join(Citations(retrieved), CitationSeparator)
  {
    if retrieved == [] then PipelineResult(NoInformationAnswer, [], [])
    else
      var prompt := ComposePrompt(question, retrieved);
      if prompt.None? || prompt.value == "" then PipelineResult(NoPromptAnswer, [], [])
      else
        var answer := GenerateResponse(llm(UserRequest(prompt.value)));
        var formatted := answer + SourcesLead + Join(Citations(retrieved), CitationSeparator);
        assert formatted[|answer + SourcesLead|..] == Join(Citations(retrieved), CitationSeparator);
        PipelineResult(formatted, SourceList(retrieved), retrieved)
  }

  /**
    The citation of the `i`-th retrieved document, `file (Slide page)`, stands
    in the citation list after the earlier citations and their separators, so
    the list follows the rank order. `RunPipeline` places the list right after
    the generated text and the sources heading.
   */
  lemma CitationAt(retrieved: seq<RetrievedDoc>, i: nat)
    requires i < |retrieved|
    ensures OccursAt(Join(Citations(retrieved), CitationSeparator), Citation(retrieved[i].metadata),
                     JoinOffset(Citations(retrieved), CitationSeparator, i))
  {
    JoinAt(Citations(retrieved), CitationSeparator, i);
  }
}
