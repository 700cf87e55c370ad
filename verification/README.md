# Lecture Q&A retrieval-and-answer core, in Dafny

This project models the question-answering core of `test.py`, a Streamlit app
that answers questions about uploaded lecture PDFs. The parts modelled are:

- **Ingestion** (the "Initialize System" action):
  - each PDF's pages become page records, keeping only pages whose stripped
    text is non-empty;
  - a record holds the text, the lecture name, the file, the 1-based page
    number and an id;
  - the records of all uploads are concatenated in upload order;
  - one embedding is computed per record.
- **Retrieval** (`find_relevant_documents`):
  - an empty corpus returns nothing;
  - a literal `slide N` / `page N` reference in the lowercased question
    returns the first record with that page, with score 1.0;
  - otherwise the top-k records by similarity are returned, highest first.
- **Prompt composition** (`build_prompt`).
- **Failure classification** of the chat-completion call (`generate_llm_response`).
- **Orchestration** (`run_rag_pipeline`): retrieval, prompt, generation, and
  the answer with its `file (Slide page)` citations.

Modules, one per file:

| File | Module | Contents |
|---|---|---|
| `wrappers.dfy` | `Wrappers` | `Option` and `Result` |
| `text.dfy` | `Text` | the Python string operations the code relies on (details below) |
| `records.dfy` | `Records` | page records, metadata, retrieved entries |
| `extraction.dfy` | `Extraction` | the record-building loop of `extract_text_from_pdf` |
| `slideref.dfy` | `SlideRef` | a scanner for `re.search(r'\b(?:slide\|page)\s*(\d+)\b', ...)` |
| `ranking.dfy` | `Ranking` | `similarities.argsort()[-top_k:][::-1]` |
| `retrieval.dfy` | `Retrieval` | `find_relevant_documents` |
| `prompt.dfy` | `Prompt` | `build_prompt` |
| `generation.dfy` | `Generation` | the request and the outcome classification of `generate_llm_response` |
| `pipeline.dfy` | `Pipeline` | `run_rag_pipeline` |
| `session.dfy` | `SessionState` | the session fields, the initialize action, asking one question |

The string operations in `Text` are: `str.strip` with Python's whitespace
set, ASCII `lower`, `in`, `join`, `int`/`str` on decimals, `s[:500]` and
`replace(".pdf", "")`.

Abstracted inputs:
- The PDF reader becomes the sequence of raw page texts of each upload, or
  `None` when reading raised.
- The sentence-embedding model becomes a function from text to vector, plus
  a flag for a failed load and one for a failed encoding.
- The cosine similarity of the question to each stored vector becomes a
  function from vector to `real`.
- The inference service becomes a function from the chat request to a
  `Completion`: either the reply content or the text of the raised exception.

Behaviours of the code that the model keeps, some of them surprising:
- Initialization marks the session ready even when no page had text. There
  is no "no content" error.
- The corpus is replaced before the embeddings are computed. A failed
  encoding therefore leaves the new records next to the previous embeddings.
  If those embeddings outnumber the records, a later question can index past
  the end of the records. `Retrieval.Fault` models that `IndexError`.
- A first initialization whose pages are all blank stores an embedding matrix
  with no rows and marks the session ready. If a later initialization then
  fails while encoding, the new records sit beside that empty matrix, and a
  question without a matching page reference makes the cosine similarity
  raise. `Retrieval.Fault` models that `ValueError` too.
- Record ids are distinct within one file only. Uploading a file twice
  repeats its ids.
- `argsort` is not stable, so no order among equal scores is promised.
- The empty-corpus check comes before the page-reference override.

## Model

| member | source | states |
|---|---|---|
| Text.TrimStart | test.py:97 | the result is the suffix of the input after its leading Python whitespace; it is empty or starts with a non-space |
| Text.TrimEnd | test.py:97 | the result is the prefix of the input before its trailing Python whitespace; it is empty or ends with a non-space |
| Text.StripIsTrimmedSlice | test.py:97 | `strip()` returns a slice `s[i..j]` where everything before `i` and after `j` is whitespace and the slice neither starts nor ends with whitespace |
| Text.StripEmptyIff | test.py:97-98 | the stripped text is empty exactly when every character of the page text is whitespace, which is when the page is skipped |
| Text.Lower | test.py:131 | the model's ASCII lowering: same length, no ASCII capital left, each capital replaced by its small letter, every other character kept |
| Text.LowerIgnoresCase | test.py:131 | texts that differ only in the ASCII case of their letters lower to the same text |
| Text.ContainsIff | test.py:188-190 | the scan used for Python's `in` is true exactly when the substring occurs at some position |
| Text.JoinAt | test.py:207 | in `sep.join(parts)` each part sits at its offset, is followed by `sep` unless it is last, and the last part ends the string |
| Text.Truncate | test.py:204 | `s[:limit]` is a prefix of `s` of length `min(|s|, limit)` |
| Text.NatToString | test.py:103-104 | the decimal text of a page number is non-empty, all digits, with no leading zero except for 0 |
| Text.DigitsRoundTrip | test.py:133 | `int()` of the decimal text of `n` gives back `n` |
| Text.NatToStringInjective | test.py:104 | different page numbers have different decimal texts |
| Text.RemoveAll | test.py:101 | `replace(".pdf", "")` never makes the string longer |
| Text.RemoveAllAbsent | test.py:101 | `replace` leaves a string without the pattern unchanged |
| Extraction.LectureNameDropsExtension | test.py:101 | the lecture name of `stem + ".pdf"` is `stem` when the stem has no other `.pdf` in it |
| Extraction.PageIdInjective | test.py:104 | within one file, different pages give different ids |
| Extraction.IsRecordOfPrefix | test.py:96-105 | a record built from the first pages of a file is a record of the whole file, numbered within those pages |
| Extraction.RecordsOf | test.py:96-105 | the records built from the stripped page texts: each is the record of a page with non-empty text, page numbers strictly increase, and there are no more records than pages |
| Extraction.RecordsOfStep | test.py:96-105 | taking one more page appends that page's record exactly when its stripped text is non-empty, and nothing otherwise |
| Extraction.RecordsOfComplete | test.py:96-105 | every page with non-empty stripped text has a record among them |
| Extraction.PageRecords | test.py:96-105 | every record has a 1-based page number within the file, the stripped non-empty text of that page, the lecture name, file and id built from it; page numbers strictly increase; there are at most as many records as pages |
| Extraction.PageRecordsComplete | test.py:96-105 | every page whose stripped text is non-empty has a record |
| Extraction.PageRecordIdsDistinct | test.py:104 | the records of one file have pairwise distinct ids |
| Extraction.ExtractRecords | test.py:96-105 | the page loop with its appends produces exactly the page records of the file |
| SlideRef.KeywordAt | test.py:131 | reports 5 only where `slide` starts, 4 only where `page` starts, and 0 otherwise |
| Text.SkipSpaces | test.py:131 | the end of the maximal run of `\s` characters from a position |
| SlideRef.SkipDigits | test.py:131 | the end of the maximal run of `\d` characters from a position |
| SlideRef.SkipSpacesUnique | test.py:131 | any whitespace run that is followed by a non-space ends where `SkipSpaces` says |
| SlideRef.SkipDigitsUnique | test.py:131 | any digit run that is followed by a non-digit or by the end of the string ends where `SkipDigits` says |
| SlideRef.MatchAtSound | test.py:131 | a match found by the scanner at a position is a match of the pattern there |
| SlideRef.MatchAtComplete | test.py:131 | a match of the pattern at a position is found by the scanner there, with the same number |
| SlideRef.MatchAtIff | test.py:131 | the scanner finds a number at a position exactly when the pattern matches there, and the number is the value of the matched digits |
| SlideRef.MatchAtNoneIff | test.py:131 | the scanner finds nothing at a position exactly when the pattern cannot match there |
| SlideRef.FirstFoundSound | test.py:131-133 | from a starting position, the search returns the first attempt that found a match, or nothing when none did; every attempt before it found nothing |
| SlideRef.FirstFoundComplete | test.py:131-133 | when the attempt at `p` finds a match and none between the start and `p` does, the search returns the attempt at `p` |
| SlideRef.FindSlideRefIsLeftmostMatch | test.py:131-133 | `FindSlideRef(s)` is `Some(n)` exactly when the leftmost match of the pattern in `s` captures digits whose value is `n` |
| SlideRef.KeywordIsFound | test.py:131 | `slide` and `page` in the text are both recognised as the keyword |
| Ranking.SliceCount | test.py:151 | `argsort()[-k:]` keeps `min(k, n)` positions for `k >= 1`, all `n` for `k == 0`, and never more than `n` |
| Ranking.ArgSort | test.py:151 | `argsort()` returns a permutation of the positions in non-decreasing score order |
| Ranking.InsertKeepsOrder | test.py:151 | inserting a position at its place keeps the order a sorted permutation of one more position |
| Ranking.SelectTop | test.py:151 | `argsort()[-k:][::-1]` gives `SliceCount(n, k)` distinct in-range positions in non-increasing score order, and no position left out scores higher than one kept |
| Retrieval.FirstWithPage | test.py:134-136 | the first record in list order whose page is `n`, or none when no record has page `n` |
| Retrieval.OverrideHit | test.py:131-144 | the override fires exactly when the leftmost reference in the lowercased query names a page that some record has, and then picks the first such record |
| Retrieval.Gather | test.py:153-166 | succeeds exactly when every chosen position is a record position, and otherwise fails with the index fault; on success one entry per position, in order, copying the text and metadata of that record with its similarity |
| Retrieval.ScanForPage | test.py:134-136 | the override loop returns the first record with the page, as `FirstWithPage` |
| Retrieval.CollectResults | test.py:153-166 | the result loop builds the entries of `Gather`, or raises the index fault |
| Retrieval.FindRelevant | test.py:118-166 | the result meets `RetrievalSpec`: empty for an empty corpus, the override hit with score 1.0, otherwise the similarity fault when there are no embeddings, or else the records at a top-k choice in rank order |
| Retrieval.OverrideResult | test.py:131-144 | with leftmost reference `n` and a record of page `n`, the result is that first record alone, with page `n` and score 1.0, whatever the scores |
| Retrieval.UnmatchedReferenceFallsThrough | test.py:131-151 | a reference to a page no record has leads to the semantic result |
| Retrieval.SemanticResult | test.py:147-166 | on the semantic path with at least one score and no more scores than records: success with `min(top_k, n)` entries for `top_k >= 1`, non-increasing scores, each entry a copy of a distinct record, and no record left out scoring higher |
| Retrieval.EmptyEmbeddingsFail | test.py:147-148 | without a matching reference, a non-empty corpus with no embeddings makes the similarity raise |
| Retrieval.OverrideIgnoresCase | test.py:131-144 | queries that differ only in the ASCII case of their letters get the same page reference and the same override |
| Retrieval.AlignedRetrievalSucceeds | test.py:118-166 | retrieval never raises over an empty corpus, nor when there is at least one score and no more scores than records |
| Prompt.ComposePrompt | test.py:195-220 | there is no prompt exactly when nothing was retrieved; otherwise the prompt starts with the fixed instructions |
| Prompt.BuildPrompt | test.py:195-220 | the loop over the documents builds exactly `ComposePrompt` |
| Prompt.ContextBlockAt | test.py:201-207 | in the context, document `i`'s label `[file, Slide page]:` sits at the offset of block `i`, after the earlier blocks and separators in input order, and the first `min(|text|, 500)` characters of its text follow the label directly |
| Prompt.PromptLayout | test.py:207-218 | the prompt starts with the fixed instructions, the context follows them directly, then the question lead with the question right after it, and the closing instructions end the prompt |
| Prompt.PromptBlockAt | test.py:201-218 | in the returned prompt, document `i`'s label `[file, Slide page]:` sits past the fixed instructions at the offset of block `i`, in input order, and the first `min(|text|, 500)` characters of its text follow the label directly |
| Generation.ReplyIsStripped | test.py:185 | a reply becomes the answer with only surrounding white space cut off: a slice of the content that neither starts nor ends with white space |
| Generation.ClassifyFailure | test.py:186-192 | the rate-limit answer exactly when the message has `rate limit` (any case) or `429`; the invalid-token answer exactly when it does not but has `authorization` (any case) or `401`; otherwise `❌ Error: ` followed by the message |
| Pipeline.RunPipeline | test.py:223-270 | nothing retrieved gives exactly the no-information answer with no sources; otherwise the retrieved documents pass through unchanged, the sources are their metadata in rank order, and the answer is the generated text for the composed prompt, the sources heading and the comma-joined citations |
| Pipeline.CitationAt | test.py:262-264 | in the comma-joined citation list that ends the answer, the citation `file (Slide page)` of document `i` sits at its offset, after the earlier citations in rank order |
| SessionState.AllRecordsAppend | test.py:336-340 | ingesting two batches of uploads in turn gives the concatenation of their records |
| SessionState.AllRecordsSingle | test.py:336-340 | a single readable upload contributes exactly its own page records |
| SessionState.DuplicateUploadRepeatsIds | test.py:336-340 | uploading the same file twice gives two records with the same id |
| SessionState.ExtractAll | test.py:336-340 | the extraction loop returns the concatenated records exactly when every upload is readable |
| SessionState.Session.constructor | test.py:277-287 | a fresh session has no documents, no embeddings and is not ready |
| SessionState.Session.Initialize | test.py:322-357 | no uploads, a failed model load or a failed extraction change nothing; otherwise the corpus is replaced by the concatenated records; a failed encoding keeps the previous embeddings and readiness; success stores one embedding per record, in order, and marks the session ready |
| SessionState.Session.Ask | test.py:472-486 | for a non-empty question (the `if question:` guard), the retrieval meets `RetrievalSpec` with top-k 3 and the result is the pipeline on what retrieval returned; with records but no embeddings and no matching reference it fails with the similarity fault; it cannot fail over an empty corpus, nor while there is at least one embedding and no more embeddings than records |

## Left out

- The auto-launcher that re-runs the script under Streamlit: process plumbing.
- All Streamlit UI: the sidebar, the token field, the buttons, spinners, progress bar, status panel and chat-history display, and the chat history itself. Presentation only.
- The temporary file and the PyMuPDF reader: replaced by the given page texts of each upload.
- The sentence-embedding model and scikit-learn's cosine similarity: replaced by given functions; floating-point effects such as NaN scores are not modelled.
- The network call to the inference service: replaced by a given function from request to outcome.
- The model-name and token parameters of the embedding loader and the client: fixed values, not modelled.
- SlideRef.IsWordChar: Python's `\w` and `\d` also match non-ASCII letters and digits in `str` patterns; the model uses the ASCII classes.
- Text.Lower: Python's `lower()` also lowers non-ASCII letters; the model lowers ASCII only.
- SessionState.Session.Initialize: a reader failure is modelled per upload; the part of the progress reporting done before it is not modelled.
- SessionState.Session.Ask: a failure while embedding the question is not modelled; the similarity scores are given.
