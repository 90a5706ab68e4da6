# HackRx retrieval-augmented question answering, modelled in Dafny

The system answers questions about insurance-policy documents. It ingests PDFs and scanned images. It extracts their text (pdfminer, with a fallback to the NarrativeText elements of `unstructured`; Textract with a fallback to Tesseract for images), cuts the text into overlapping token-bounded chunks and embeds them. It stores the vectors in a Pinecone index in batches of 100.

A question goes through these steps:
- It is lower-cased and its abbreviations and medical terms are rewritten.
- It is expanded with the patient's age and location.
- It is answered from a hybrid of dense (vector) and sparse (BM25) retrieval: the two candidate lists are merged by text, and the sparse scores are normalised by their maximum and weighted against the dense ones.
- The answer is generated from a prompt that holds the best passages under a character budget.
- The answer is scored with a small confidence rule, and the system answers with at most three sources.

This project models that logic; each source file becomes one module.

| module | file | what it holds |
|---|---|---|
| `Wrappers` | `wrappers.dfy` | `Option` and `Result` |
| `PySeq` | `pyseq.dfy` | Python slice clamping (`xs[:k]`), distinctness, and an insertion-ordered `dict` |
| `Metadata` | `metadata.dfy` | metadata dictionaries (`map<string, MetaValue>`) with `.get(key, default)` |
| `Text` | `text.dfy` | the ASCII `str` operations: `lower`, `strip`, `split` and substring search, plus decimal numerals |
| `Chunker` | `chunker.dfy` | `IntelligentChunker`: `semantic_chunking` and `create_overlap` |
| `Retriever` | `retriever.dfy` | `HybridRetriever`: tokenisation, `sparse_retrieval` top-k and `hybrid_retrieval` fusion |
| `QueryProcessor` | `query_processor.dfy` | `preprocess_query`, `extract_entities` (the age regex and entity overwrite) and `expand_query` |
| `ResponseGenerator` | `response_generator.dfy` | `create_rag_prompt` and `validate_response` |
| `EmbeddingManager` | `embedding_manager.dfy` | `create_index` (create-if-absent) and `upsert_embeddings` (batches of 100, metadata defaults) |
| `PdfProcessor` | `pdf_processor.dfy` | `extract_with_pdfminer` and `extract_with_unstructured` |
| `RagSystem` | `rag_system.dfy` | `HackRxRAGSystem`: construction, `process_documents` and `answer_query` |

Each loop-driven operation is modelled the same way:
- It is a `method` with the source's loop and its invariants.
- The method is proved equal to a specification function.
- The lemmas state the promised properties about that function.

State that the source updates in place becomes classes:
- the Pinecone client's list of indexes;
- an index's log of upsert calls;
- the id source;
- the system object's `retriever` field.

Collaborators the code only calls become inputs, given as values or functions:
- sentence splitter, token counter, embedder;
- BM25 scores, dense query results, spaCy entities;
- the text extractors and the generated answer.

## Model

| member | source | states |
|---|---|---|
| PySeq.SliceEnd | app/retriever.py:33 | the length of `xs[:k]`: `k` itself for `0 <= k <= n`, `n` above, `n + k` for a negative `k` down to `-n`, and `0` below that |
| PySeq.Take | app/response_generator.py:20 | `xs[:k]` is the prefix of the clamped length |
| PySeq.Dict.Put | app/retriever.py:57-76 | dict assignment keeps validity, a new key goes last, an existing key keeps its place and takes the new value |
| Text.Lower | app/query_processor.py:34 | `lower()` keeps the length, maps each character by ASCII case folding and leaves no upper-case letter |
| Text.LowerOfLowercase | app/query_processor.py:34 | lower-casing text without capitals changes nothing |
| Text.Strip | app/chunker.py:28 | `strip()` yields text with no leading or trailing whitespace, never longer than its input |
| Text.StripIsMiddle | app/chunker.py:28 | `strip()` is a contiguous slice `s[i..j]` of its input with `s[..i]` and `s[j..]` all whitespace; with the result being stripped, this pins it down |
| Text.TrimLeft | app/chunker.py:28 | the leading part removed is all whitespace and what remains does not start with whitespace |
| Text.TrimRight | app/chunker.py:28 | the trailing part removed is all whitespace and what remains does not end with whitespace |
| Text.StripIdempotent | app/chunker.py:28 | stripping twice is stripping once |
| Text.StripEmptyIffAllSpace | app/chunker.py:42 | `strip()` is empty exactly when the text is all whitespace |
| Text.StripAfterBlank | app/chunker.py:38 | a leading blank added by accumulation disappears under `strip()` |
| Text.Split | app/response_generator.py:77 | `split()` produces non-empty words without whitespace |
| Text.SplitCountsWords | app/response_generator.py:77 | `len(s.split())` equals the number of positions where a non-whitespace character starts `s` or follows whitespace, so words are maximal runs |
| Text.SplitKeepsEveryNonSpace | app/response_generator.py:77 | the words of `split()`, concatenated, are exactly the non-whitespace characters of the text in order |
| Text.SplitNoUpper | app/retriever.py:11 | splitting lower-cased text gives lower-case words |
| Text.JoinPair | app/query_processor.py:81 | `" ".join([a, b])` is `a + " " + b` |
| Text.NatToString | app/response_generator.py:20 | the numeral of a number is non-empty and all digits |
| Text.NatToStringRoundTrip | app/response_generator.py:20 | reading the numeral of `n` back gives `n` |
| Chunker.MetaOr | app/chunker.py:30 | `metadata or {}`: the caller's metadata, or the empty dict for None |
| Chunker.CreateOverlap | app/chunker.py:51-66 | the loop over the reversed sentences, with its break, equals `OverlapOf`, and the result is stripped |
| Chunker.FitDownIsLongest | app/chunker.py:58-64 | the loop, walking from the end, keeps `j` sentences exactly when the last `j` fit in the overlap budget |
| Chunker.OverlapIsLongestFit | app/chunker.py:58-66 | the overlap is the longest run of trailing sentences whose token sum is at most `overlap` (both directions) |
| Chunker.OverlapEmptyWhenLastTooBig | app/chunker.py:60-64 | when the last sentence alone exceeds the budget the overlap is empty, as the loop stops at once |
| Chunker.SemanticChunking | app/chunker.py:15-49 | the packing loop and its final flush compute `Pack` |
| Chunker.RunSnoc | app/chunker.py:22-39 | one more sentence is one more loop step |
| Chunker.StepChunks | app/chunker.py:26-31 | a step emits the stripped running chunk with its token count exactly when the budget is passed and the running chunk is non-empty, and emits nothing otherwise |
| Chunker.PackOfNoSentences | app/chunker.py:22-49 | no sentences, no chunks |
| Chunker.RunBound | app/chunker.py:22-39 | the chunks emitted plus a running chunk never outnumber the sentences |
| Chunker.PackBound | app/chunker.py:15-49 | there are never more chunks than sentences |
| Chunker.RunWellFormed | app/chunker.py:22-39 | every chunk emitted in the loop is stripped and carries the caller's metadata |
| Chunker.StepWellFormed | app/chunker.py:26-39 | one loop step keeps every chunk stripped and carrying the metadata |
| Chunker.WellFormedAppend | app/chunker.py:27-31 | appending a stripped chunk with the caller's metadata keeps the list well formed |
| Chunker.PackWellFormed | app/chunker.py:26-47 | every chunk's text is stripped and carries `metadata or {}`, the final chunk included |
| Chunker.RunWithinBudget | app/chunker.py:37-39 | sentences whose counts sum to at most `chunk_size` are never flushed: the running chunk is their accumulation and its tokens are the sum of theirs |
| Chunker.RunAppend | app/chunker.py:22-39 | the loop over `ss + ts` is the loop over `ts` resumed from the state `ss` leaves |
| Chunker.AccumulateStep | app/chunker.py:37-39 | a sentence within the budget is appended to the running chunk and its tokens added |
| Chunker.AccumulateFrom | app/chunker.py:37-39 | from any loop state, sentences fitting in the remaining budget are all accumulated, with no flush |
| Chunker.AccumulateAfter | app/chunker.py:22-39 | after any prefix of the sentences, including prefixes that flushed, later sentences fitting in the remaining budget are accumulated onto the running chunk |
| Chunker.LoneSentence | app/chunker.py:26 | a single non-blank sentence forms one chunk whatever its size, so a chunk can exceed `chunk_size` |
| Chunker.BlankConcat | app/chunker.py:38-42 | text is blank exactly when both its halves are |
| Chunker.StepKeepsContent | app/chunker.py:26-39 | once a non-blank sentence has been seen, the loop state never loses non-blank text |
| Chunker.FlushKeepsContent | app/chunker.py:27-36 | a flush keeps non-blank text, either in the emitted chunk or in the new running chunk |
| Chunker.AccumulateKeepsContent | app/chunker.py:37-39 | accumulation keeps non-blank text |
| Chunker.RunKeepsContent | app/chunker.py:22-39 | a non-blank sentence anywhere leaves non-blank text in the loop state |
| Chunker.NonBlankSentenceGivesChunk | app/chunker.py:41-47 | input with a non-blank sentence yields at least one non-empty chunk |
| Chunker.NoOverlapOfBlank | app/chunker.py:34 | text in which the splitter finds no sentence has an empty overlap |
| Chunker.AccumulateKeepsBlank | app/chunker.py:37-39 | accumulating a blank sentence onto a blank running chunk keeps it blank |
| Chunker.FlushKeepsBlank | app/chunker.py:26-36 | flushing a blank running chunk emits a chunk with empty text and starts a blank running chunk |
| Chunker.StepKeepsBlank | app/chunker.py:22-39 | with only blank sentences, no iteration puts non-empty text in a chunk or in the running chunk |
| Chunker.RunKeepsBlank | app/chunker.py:22-39 | the loop over blank sentences leaves only chunks with empty text and a blank running chunk |
| Chunker.AllBlankGivesBlankChunks | app/chunker.py:22-47 | with only blank sentences, and a splitter finding none in blank text, every chunk returned has empty text; the final blank chunk is dropped |
| Chunker.BlankSentencesCanFlush | app/chunker.py:26-31 | a blank running chunk over the budget is still flushed: two blank 10-token sentences under `chunk_size` 5 give one chunk with text `''`, so blank input does not always yield no chunks |
| Retriever.Tokenize | app/retriever.py:11 | `text.lower().split()` gives non-empty, whitespace-free, lower-case tokens |
| Retriever.NewRetriever | app/retriever.py:6-13 | the retriever keeps the corpus and tokenises each passage at the same position |
| Retriever.RankByScore | app/retriever.py:33 | `argsort(scores)[::-1][:m]`: `m` distinct positions in non-increasing score order, none left out scoring above one taken |
| Retriever.SparseRetrieval | app/retriever.py:27-43 | exactly `min(top_k, n)` rows at distinct corpus positions, each with that position's text and score, in non-increasing order, covering the highest scores |
| Retriever.MaxOf | app/retriever.py:64 | `max` is an upper bound reached by some element |
| Retriever.TopKKeepsMaximum | app/retriever.py:64 | the maximum over the sparse candidates is BM25's overall maximum |
| Retriever.NormalizedSparseBounds | app/retriever.py:64-67 | with a positive maximum every normalised sparse score lies in `[0, 1]` and the best reaches exactly 1 |
| Retriever.DenseTexts | app/retriever.py:56 | the texts of the dense matches, position for position |
| Retriever.SparseTexts | app/retriever.py:66 | the texts of the sparse hits, position for position |
| Retriever.FirstOccurrences | app/retriever.py:52-76 | the key order of the combined dict: each candidate text once, and no other |
| Retriever.FirstOccurrencesInOrder | app/retriever.py:52-76 | the keys come in the order of their first insertion: a key before another was first inserted earlier |
| Retriever.CandidatesDenseFirst | app/retriever.py:55-76 | every text from the dense results precedes every text only BM25 found |
| Retriever.LastDense | app/retriever.py:55-61 | the dense match whose entry survives for a text, absent exactly when no dense match carries it |
| Retriever.LastSparse | app/retriever.py:65-76 | the sparse hit whose score survives for a text, absent exactly when no hit carries it |
| Retriever.LastDenseIsLast | app/retriever.py:57 | a text repeated in the dense list takes the score and metadata of its last occurrence |
| Retriever.LastSparseIsLast | app/retriever.py:69-70 | a text repeated among the BM25 hits takes the score of its last occurrence, the later assignment overwriting the earlier |
| Retriever.ExtremeWeights | app/retriever.py:58-74 | with `dense_weight` 1 only the dense score counts; with 0 only the normalised sparse score counts |
| Retriever.FusedCandidates | app/retriever.py:79-86 | one row per key of the combined dict, in dict order, with its fused score and metadata |
| Retriever.InsertByScore | app/retriever.py:89 | insertion into a list sorted by non-increasing score keeps it sorted and adds exactly the new row |
| Retriever.SortByScore | app/retriever.py:89 | `sort(key=score, reverse=True)` gives a sorted permutation of its input |
| Retriever.InsertKeepsTies | app/retriever.py:89 | insertion keeps the order among rows of equal score |
| Retriever.SortKeepsTies | app/retriever.py:89 | the sort is stable: rows of any one score keep their relative order |
| Retriever.SortKeepsDistinctTexts | app/retriever.py:89 | sorting cannot duplicate a text |
| Retriever.FuseShape | app/retriever.py:45-90 | at most `top_k` results (after Python clamping), never the same text twice, in non-increasing combined score |
| Retriever.FuseRows | app/retriever.py:57-86 | each result is a dense or sparse candidate with score `w*dense + (1-w)*sparse/max_sparse` (a missing method giving 0), and keeps dense metadata or else `{'text': text}` |
| Retriever.FuseKeepsEveryCandidate | app/retriever.py:55-90 | when the candidates fit in `top_k`, a text found by only one method is still returned |
| Retriever.FuseTiesKeepInsertionOrder | app/retriever.py:79-90 | results of equal score appear in insertion order: dense order first, then new sparse-only texts |
| Retriever.HybridRetrieval | app/retriever.py:45-90 | the two dict-filling loops, the scoring loop, the sort and the slice compute `Fuse` over the dense results and a valid sparse top-`2*top_k`. The result holds at most `top_k` rows, never the same text twice, in non-increasing score, each text a dense match's or a corpus passage |
| Retriever.HybridShape | app/retriever.py:78-90 | the fusion of dense matches and a sparse top-`2*top_k` has at most `top_k` rows, distinct texts, non-increasing scores, and only texts of the dense matches or the corpus |
| Retriever.CombinedRows | app/retriever.py:79-86 | the `final_results` loop builds one row per dict key, scored by the sum of its two parts |
| Retriever.FinalStage | app/retriever.py:52-76 | after both loops the dict keys are the first occurrences and each entry holds the surviving dense part, sparse part and metadata |
| Retriever.DenseStageStep | app/retriever.py:55-61 | one dense iteration keeps the dict equal to the fusion of the dense prefix seen so far |
| Retriever.SparseStageStep | app/retriever.py:65-76 | one sparse iteration overwrites the sparse part of a known text and adds an unknown one with dense part 0 and `{'text': text}` |
| QueryProcessor.LoweredAbbreviations | app/query_processor.py:12-22 | the abbreviation table in dict order with its keys lower-cased (`'M'` becomes `'m'`) |
| QueryProcessor.PreprocessQuery | app/query_processor.py:31-44 | the two substitution loops compute `Preprocess` and leave no upper-case letter |
| QueryProcessor.PreprocessNoUpper | app/query_processor.py:12-44 | the rewrite has no upper-case letters, since the input is lowered and every replacement is lower case |
| QueryProcessor.ReplaceWordIdentity | app/query_processor.py:38 | `re.sub` with `\b` anchors leaves text without a whole-word match unchanged |
| QueryProcessor.SubFromNoUpper | app/query_processor.py:38 | substituting lower-case replacements into lower-case text keeps it lower case |
| QueryProcessor.ApplyRulesNoUpper | app/query_processor.py:37-42 | a sequence of lower-case substitutions keeps text lower case |
| QueryProcessor.ApplyRulesStep | app/query_processor.py:37-42 | the rules are applied one after the other, in order |
| QueryProcessor.PreprocessIdentity | app/query_processor.py:34-44 | a query with none of the keys as a whole word comes back as `query.lower()` |
| QueryProcessor.WholeWordsOnly | app/query_processor.py:38 | `mo` does not match inside `mos`, and `m` matches only a standalone `m` |
| QueryProcessor.KneeSurgery | app/query_processor.py:37-42 | abbreviations come before medical terms, so `knee sx` becomes `orthopedic knee procedure` |
| QueryProcessor.NotIdempotent | app/query_processor.py:28 | `diabetes` becomes `diabetes mellitus`, and rewriting that gives `diabetes mellitus mellitus` |
| QueryProcessor.DigitRunIsRun | app/query_processor.py:57 | `\d+` consumes exactly the maximal run of digits |
| QueryProcessor.SepRunIsRun | app/query_processor.py:57 | `[-\s]*` consumes exactly the maximal run of hyphens and whitespace |
| QueryProcessor.AgePatternIsAgeAt | app/query_processor.py:57 | a match of the pattern at a position is what the matcher accepts there, with that digit run |
| QueryProcessor.AgeAtIsPattern | app/query_processor.py:57 | what the matcher accepts at a position is a match of the pattern there |
| QueryProcessor.AgeStart | app/query_processor.py:57 | the search result lies within the text |
| QueryProcessor.AgeStartMatches | app/query_processor.py:57 | the search's position holds a match |
| QueryProcessor.AgeStartIsLeftmost | app/query_processor.py:57 | `re.search` returns the leftmost match |
| QueryProcessor.AgeStartFails | app/query_processor.py:57 | a failed search means no position matches |
| QueryProcessor.AgeOf | app/query_processor.py:57-59 | the age is absent exactly when nothing matches; otherwise it is a non-empty digit string from a match |
| QueryProcessor.HyphenatedAge | app/query_processor.py:57-59 | `46-year-old` gives the age `46` |
| QueryProcessor.LastTagged | app/query_processor.py:62-66 | the last entity with a tag, absent exactly when no entity has that tag |
| QueryProcessor.ExtractEntities | app/query_processor.py:46-68 | the age is the first match's digits, location and time period are the last GPE and DATE entities, and the procedure is always None |
| QueryProcessor.ExpandQuery | app/query_processor.py:70-82 | the loop's result is `Expanded`: it starts with `query + ". "`, is exactly that with neither age nor location, and puts the age part before the location part |
| QueryProcessor.Expanded | app/query_processor.py:70-82 | the expanded query always starts with `query + ". "` |
| ResponseGenerator.Snippets | app/response_generator.py:19-20 | one snippet per retrieved context, the `i`-th numbered `i + 1` and holding the first 500 characters of the `i`-th context's text |
| ResponseGenerator.FitCount | app/response_generator.py:19-24 | the number of snippets taken: all earlier ones fit and the next one is the first to overflow |
| ResponseGenerator.CreateRagPrompt | app/response_generator.py:12-41 | the loop with its break, followed by the prompt template, computes `Prompt` over the budgeted context |
| ResponseGenerator.ContextWithinBudget | app/response_generator.py:21-24 | the context text never exceeds `max_context_length` characters, and is empty for a negative budget |
| ResponseGenerator.FitCountFrom | app/response_generator.py:19-23 | the count taken is fixed by where the first overflow happens |
| ResponseGenerator.StopsAtFirstOverflow | app/response_generator.py:19-23 | the context is the prefix of snippets before the first overflow, even when later snippets would fit |
| ResponseGenerator.SnippetNumbering | app/response_generator.py:20 | snippet `i` is `Document `, the numeral of `i+1`, `: `, at most the first 500 characters of the text, then `...\n\n` |
| ResponseGenerator.PromptHasQuestion | app/response_generator.py:31 | the prompt holds the query verbatim right after `USER QUESTION: ` |
| ResponseGenerator.PromptHasContext | app/response_generator.py:28-29 | the prompt holds the context text verbatim |
| ResponseGenerator.ValidateResponse | app/response_generator.py:70-90 | the response comes back unchanged. Citations are found iff the lowered response contains `document` or `policy states`, and the length is adequate iff it has more than 10 words. Confidence is 1.0, 0.8, 0.7 or 0.5 for exactly the four combinations |
| ResponseGenerator.CitationsByDocumentOrPolicy | app/response_generator.py:73-74 | the three-phrase `any` equals checking `document` or `policy states`; `according to document` adds nothing |
| EmbeddingManager.EmbeddingManager.CreateIndex | app/embedding_manager.py:22-32 | the index is registered with the cosine / aws / us-east-1 spec only when absent; a handle with that name is returned |
| EmbeddingManager.Registered | app/embedding_manager.py:24-31 | after creation the name is present, an existing list is untouched, and a new name is appended with its spec |
| EmbeddingManager.CreateIndexIdempotent | app/embedding_manager.py:24-31 | creating an index twice registers it once |
| EmbeddingManager.PineconeClient.Create | app/embedding_manager.py:25-31 | creation appends the spec to the client's index list |
| EmbeddingManager.VectorIndex.Upsert | app/embedding_manager.py:55 | an upsert call is recorded in order in the index's log |
| EmbeddingManager.IdSource.Fresh | app/embedding_manager.py:43 | every id drawn is new |
| EmbeddingManager.VectorFor | app/embedding_manager.py:44-53 | the vector has the chunk's embedding and the metadata keys text, source, chunk_index and tokens, with missing values defaulting to `''`, 0 and 0 |
| EmbeddingManager.ToVectors | app/embedding_manager.py:42-53 | one vector per chunk, the `i`-th built from the `i`-th chunk with the `i`-th fresh id |
| EmbeddingManager.VectorIdsDistinct | app/embedding_manager.py:43 | the ids within the vectors are pairwise distinct |
| EmbeddingManager.BatchesCover | app/embedding_manager.py:38-39 | the batches, concatenated, are the input in order |
| EmbeddingManager.BatchSizes | app/embedding_manager.py:38-39 | every batch holds between 1 and 100 items |
| EmbeddingManager.BatchCount | app/embedding_manager.py:38 | there are `ceil(n / 100)` batches, none for empty input |
| EmbeddingManager.BatchVectors | app/embedding_manager.py:42-53 | the inner loop builds the batch's vectors, drawing one fresh id per chunk |
| EmbeddingManager.VectorsOfSlice | app/embedding_manager.py:39-53 | converting a slice with ids starting at its offset gives the matching slice of the whole conversion |
| EmbeddingManager.EmbeddingManager.UpsertEmbeddings | app/embedding_manager.py:34-55 | the index receives the batches of 100 of the converted vectors, in order, one upsert per batch, and one id is drawn per chunk |
| PdfProcessor.ExtractWithPdfminer | app/pdf_processor.py:9-16 | a failed extraction gives None instead of raising; a successful one gives its text |
| PdfProcessor.ExtractWithUnstructured | app/pdf_processor.py:18-40 | the loop files each element into `titles`, `text`, `tables` or `lists` by its category |
| PdfProcessor.Bucket | app/pdf_processor.py:30-38 | a bucket holds only texts of elements of its category and is never longer than the input |
| PdfProcessor.BucketKeepsEvery | app/pdf_processor.py:30-38 | every element of a bucketed category is in its bucket |
| PdfProcessor.CategoryIndicesExact | app/pdf_processor.py:30-38 | the positions listed for a category are exactly those whose element has it, in increasing order |
| PdfProcessor.BucketIsFilter | app/pdf_processor.py:30-38 | a bucket is the category's filter of the elements: one entry per element of the category, the `k`-th being the text of the `k`-th such element |
| PdfProcessor.Others | app/pdf_processor.py:30-38 | the number of dropped elements is at most the number of elements |
| PdfProcessor.BucketsPartition | app/pdf_processor.py:30-38 | the four bucket sizes sum to the elements minus those of other categories, so no element is in two lists |
| RagSystem.ExtractionFallbacks | app/rag_system.py:34-46 | a `.pdf` path uses pdfminer unless it failed or its stripped text is under 100 characters, falling back to the joined NarrativeText items; other files use Textract, falling back to Tesseract on failure |
| RagSystem.UpperCasePdf | app/rag_system.py:35 | the `.pdf` test ignores case |
| RagSystem.RagSystem.ExtractText | app/rag_system.py:34-46 | the extraction branch computes `DocumentText` |
| RagSystem.ChunkTexts | app/rag_system.py:56 | the chunk texts, position for position |
| RagSystem.ZipChunks | app/rag_system.py:60-68 | `zip` stops at the shorter list, and every chunk record has a text |
| RagSystem.ZipTexts | app/rag_system.py:60-69 | one corpus text per zipped pair |
| RagSystem.ZipLoop | app/rag_system.py:60-69 | the enumerate/zip loop builds the chunk records and the corpus texts |
| RagSystem.DocChunks | app/rag_system.py:48-69 | every chunk record of a document has a text |
| RagSystem.Ingested | app/rag_system.py:28-69 | every chunk record across the documents has a text |
| RagSystem.DocChunksNumbered | app/rag_system.py:48-69 | `chunk_index` counts 0, 1, 2, … within each document, `source` is the path, and a document contributes only when its stripped text is over 50 characters |
| RagSystem.CorpusAligned | app/rag_system.py:28-69 | `corpus_texts[j]` is `all_chunks[j]['text']` for every `j` |
| RagSystem.DocAligned | app/rag_system.py:60-69 | within one document the corpus texts and chunk records line up |
| RagSystem.RagSystem.IngestDocument | app/rag_system.py:34-69 | the per-document body computes that document's chunk records and corpus texts |
| RagSystem.RagSystem.constructor | app/rag_system.py:11-24 | with the default chunker settings (`chunk_size` 1024, `overlap` 128), the system creates the `hackrx-documents` index if absent and starts with no retriever |
| RagSystem.RagSystem.ProcessDocuments | app/rag_system.py:26-82 | all chunk records of this call are upserted in batches with fresh ids, and the retriever is replaced by one over this call's texts only |
| RagSystem.RagSystem.AnswerQuery | app/rag_system.py:84-121 | no retriever gives the error string and empty retrieval the not-found message; otherwise the searched query is `Expanded` of the preprocessed query and its entities, the contexts are the fusion for it at `top_k=5`, and the answer carries 1 to 5 of them |
| RagSystem.FinalReply | app/rag_system.py:114-121 | the reply carries the validated answer and confidence, the sources of at most the first three contexts (defaulting to `Unknown`) and the number of contexts |
| RagSystem.Respond | app/rag_system.py:103-121 | generating, validating and building the reply computes `FinalReply` |
| RagSystem.Sources | app/rag_system.py:117 | each source is the context's `source` metadata, or `Unknown` |
| RagSystem.SparseOnlySourceUnknown | app/rag_system.py:117 | a context found only by the sparse method has the source `Unknown` |

## Left out

- BM25 scoring (`BM25Okapi`) is not modelled: its scores are an input whose length equals the corpus size. No tie-break or empty-corpus behaviour is invented for it.
- Pinecone's query and storage are not modelled. Dense results are an input, and an index is modelled as the log of the upsert calls it received.
- SentenceTransformer encoding, tiktoken counting and nltk `sent_tokenize` are given functions. The model takes no property of the token counts for granted.
- spaCy named-entity recognition is an input list of tagged entities. The flan-t5 pipeline is loaded by the source but never used.
- DialoGPT generation (`generate_response`, app/response_generator.py:43-68) is a given function from the prompt to the answer text; the prompt in turn is built from the query and the contexts. Its tokenisation, sampling, decoding and prompt-stripping are not modelled.
- pdfminer's `extract_text` and unstructured's `partition` are inputs: an outcome that may fail, and a list of categorised elements.
- Textract and Tesseract OCR are inputs. Any Textract exception is a `Failure`.
- app/document_processor.py and app/main.py are not part of this model: they have OCR, HTTP endpoints and file I/O, with no logic of their own here.
- Console output (`print`) is not modelled.
- uuid4 randomness is not modelled. Ids come from a counter, which captures only that every id is fresh. Vector ids are numbers rather than strings.
- Scores, weights and confidence are mathematical reals, not floating point.
- Retriever.HybridRetrieval: requires the maximum BM25 score to be non-zero whenever sparse candidates exist. At zero, numpy would divide by zero and produce NaN.
- Retriever.HybridRetrieval: requires every dense match to carry a `text` in its metadata. Without one the source raises KeyError at app/retriever.py:56, and that error path is not modelled.
- RagSystem.RagSystem.ProcessDocuments: unstructured's `partition` and Tesseract are total functions here. In the source an exception from either escapes `process_documents`, so nothing is upserted and the retriever is not replaced; that path is not modelled.
- Retriever.SparseRetrieval: leaves the order among equal BM25 scores open. numpy's argsort is not stable, and the contract says only what holds for any tie order.
- RagSystem.RagSystem.AnswerQuery: requires, for the one expanded query it searches with, that BM25 scores every corpus passage, that the top scores are not all zero, and that every dense match carries a text (see the two HybridRetrieval lines).
- Text: covers only ASCII case folding and Python's ASCII whitespace; Unicode case mapping and Unicode `\b` word boundaries are not modelled.
- `dense_weight` is not validated by the source, and the model does not restrict it either.
- Constructing `EmbeddingManager` without an API key leaves `pc` unset, so the later `create_index` call fails with an AttributeError. The model always has a client.
- Several loop bodies are separate methods in the model: `RagSystem.RagSystem.IngestDocument`, `RagSystem.ZipLoop`, `EmbeddingManager.BatchVectors`, `RagSystem.Respond` and `Retriever.CombinedRows`. They run in the same order as the source's loops.
