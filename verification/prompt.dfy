/** `build_prompt`: the grounded prompt sent to the language model. */
module Prompt {
  import opened Wrappers
  import opened Text
  import opened Records

  /** Characters of a page's text that go into the prompt (`doc['text'][:500]`). */
  const ContextCharLimit: nat := 500
  const BlockSeparator := "\n\n"
  const PromptHead := "You are a helpful teaching assistant. Answer based ONLY on the lecture content below.\n\nLECTURE CONTENT:\n"
  const QuestionLead := "\n\nQUESTION: "
  const PromptTail := "\n\nProvide a clear, educational answer based only on the content above.\n\nANSWER:"

  /** `[file, Slide page]:` and a line break, the label that opens a context block. */
  function BlockLabel(m: Metadata): string {
    "[" + m.file + ", Slide " + NatToString(m.page) + "]:\n"
  }

  /** One context block: the label, then at most the first 500 characters of the text. */
  function Block(doc: RetrievedDoc): string {
    BlockLabel(doc.metadata) + Truncate(doc.text, ContextCharLimit)
  }

  function Blocks(docs: seq<RetrievedDoc>): seq<string> {
    seq(|docs|, i requires 0 <= i < |docs| => Block(docs[i]))
  }

  /** The fixed instructional template around the context and the question. */
  function FillTemplate(context: string, query: string): string {
    PromptHead + context + (QuestionLead + query + PromptTail)
  }

  /**
    The prompt for a question and its retrieved documents: none when nothing
    was retrieved, otherwise the template around the blocks joined by a blank
    line.
   */
  function ComposePrompt(query: string, docs: seq<RetrievedDoc>): (r: Option<string>)
    ensures r.None? <==> docs == []
    ensures r.Some? ==> StartsWith(r.value, PromptHead) && |r.value| > 0
  {
    if docs == [] then None else Some(FillTemplate(Context(docs), query))
  }

  /** `build_prompt(query, context_docs)`, with its loop over the documents. */
  method BuildPrompt(query: string, contextDocs: seq<RetrievedDoc>) returns (prompt: Option<string>)
    ensures prompt == ComposePrompt(query, contextDocs)
  {
    if contextDocs == [] {
      return None;
    }
    var contextParts := [];
    for i := 0 to |contextDocs|
      invariant |contextParts| == i
      invariant forall j :: 0 <= j < i ==> contextParts[j] == Block(contextDocs[j])
    {
      var meta := contextDocs[i].metadata;
      var text := Truncate(contextDocs[i].text, ContextCharLimit);
      contextParts := contextParts + [BlockLabel(meta) + text];
    }
    assert contextParts == Blocks(contextDocs);
    var context := Join(contextParts, BlockSeparator);
    prompt := Some(FillTemplate(context, query));
  }

  /** The context: the blocks joined by a blank line. */
  function Context(docs: seq<RetrievedDoc>): string {
    Join(Blocks(docs), BlockSeparator)
  }

  /**
    Where document `i` sits in the context: after the earlier blocks and
    separators comes its label `[file, Slide page]:`, and right after the
    label the first `min(|text|, 500)` characters of its text. Blocks keep the
    input (rank) order.
   */
  lemma ContextBlockAt(docs: seq<RetrievedDoc>, i: nat)
    requires i < |docs|
    ensures PiecesAt(Context(docs), BlockLabel(docs[i].metadata), Truncate(docs[i].text, ContextCharLimit),
                     JoinOffset(Blocks(docs), BlockSeparator, i))
  {
    var tag := BlockLabel(docs[i].metadata);
    var shown := Truncate(docs[i].text, ContextCharLimit);
    assert Blocks(docs)[i] == tag + shown;
    JoinedPieces(Blocks(docs), BlockSeparator, i, tag, shown);
  }

  /**
    The layout of a prompt: the fixed instructions, the context right after
    them, then the question lead with the question right after it, and the
    closing instructions ending the prompt.
   */
  lemma PromptLayout(query: string, docs: seq<RetrievedDoc>)
    requires docs != []
    ensures var p := ComposePrompt(query, docs).value;
            && StartsWith(p, PromptHead)
            && OccursAt(p, Context(docs), |PromptHead|)
            && PiecesAt(p, QuestionLead, query, |PromptHead| + |Context(docs)|)
            && OccursAt(p, PromptTail, |p| - |PromptTail|)
  {
    FramedLayout(PromptHead, Context(docs), QuestionLead, query, PromptTail);
  }

  /**
    Where document `i` sits in the prompt `build_prompt` returns: its label
    `[file, Slide page]:` at the offset of block `i` past the fixed
    instructions, and right after the label the first `min(|text|, 500)`
    characters of its text.
   */
  lemma PromptBlockAt(query: string, docs: seq<RetrievedDoc>, i: nat)
    requires i < |docs|
    ensures PiecesAt(ComposePrompt(query, docs).value, BlockLabel(docs[i].metadata),
                     Truncate(docs[i].text, ContextCharLimit),
                     |PromptHead| + JoinOffset(Blocks(docs), BlockSeparator, i))
  {
    var tag := BlockLabel(docs[i].metadata);
    var shown := Truncate(docs[i].text, ContextCharLimit);
    var o := JoinOffset(Blocks(docs), BlockSeparator, i);
    ContextBlockAt(docs, i);
    PiecesAtShift(PromptHead, Context(docs), tag, shown, o);
    PiecesAtExtend(PromptHead + Context(docs), QuestionLead + query + PromptTail, tag, shown, |PromptHead| + o);
  }
}
