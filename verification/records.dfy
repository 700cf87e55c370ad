/** The values that flow through the pipeline. */
module Records {

  /** One indexed page: the dictionary `extract_text_from_pdf` builds for a page with text. */
  datatype PageRecord = PageRecord(text: string, lecture: string, file: string, page: nat, id: string)

  /** The `metadata` dictionary of a retrieved document, and the entries of a result's `sources`. */
  datatype Metadata = Metadata(file: string, page: nat, lecture: string)

  /** One ranked retrieval result. */
  datatype RetrievedDoc = RetrievedDoc(text: string, metadata: Metadata, score: real)

  /** An embedding vector, produced by the embedding model outside this model. */
  type Vector = seq<real>
}
