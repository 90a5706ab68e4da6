/** The orchestration of app/rag_system.py: ingesting documents (text extraction with
    fallbacks, chunking, indexing, building the retriever) and answering a query (rewrite,
    retrieve, generate, score). Every library the system calls is a parameter. */
module RagSystem {
  import opened Wrappers
  import opened Metadata
  import opened Text
  import opened PySeq
  import Chunker
  import EmbeddingManager
  import PdfProcessor
  import Retriever
  import QueryProcessor
  import ResponseGenerator

  /** What the extraction and embedding libraries return for a document: pdfminer's text or
      failure, unstructured's elements, Textract's text or exception, Tesseract's text, and the
      sentence embeddings of a list of texts. */
  datatype Extractors = Extractors(
    pdfminer: string -> Result<string>,
    partition: string -> seq<PdfProcessor.Element>,
    textract: string -> Result<string>,
    tesseract: string -> string,
    embed: seq<string> -> seq<seq<real>>)

  /** The services behind a query: the entity recogniser, the dense index search for a query
      and `top_k`, the BM25 scores of a tokenised query, and the language model's answer to a
      prompt. */
  datatype Services = Services(
    nlp: string -> seq<QueryProcessor.Ent>,
    denseSearch: (string, int) -> seq<Retriever.DenseMatch>,
    bm25: seq<string> -> seq<real>,
    generate: string -> string)

  const IndexName := "hackrx-documents"
  const NoDocumentsError := "Error: No documents have been processed yet."
  const NotFoundMessage := "I couldn't find relevant information to answer your query."
  /** `top_k` of the retrieval in `answer_query`, and `hybrid_retrieval`'s default weight. */
  const AnswerTopK := 5
  const DenseWeight := 0.7
  const MaxContextLength := 2000

  /** The query `answer_query` searches with: the preprocessed query, expanded with the
      entities the recogniser finds in it. */
  function ExpandedQuery(userQuery: string, s: Services): string
  {
    var processed := QueryProcessor.Preprocess(userQuery);
    QueryProcessor.Expanded(processed, s.nlp(processed))
  }

  /** The tokens BM25 scores for that query. */
  function QueryTokens(userQuery: string, s: Services): seq<string>
  {
    Retriever.Tokenize(ExpandedQuery(userQuery, s))
  }

  /** `doc_path.lower().endswith('.pdf')`. */
  predicate IsPdf(path: string)
  {
    EndsWith(Lower(path), ".pdf")
  }

  /** pdfminer's text is used unless extraction failed or its stripped text is shorter than 100. */
  predicate PdfTextUsable(t: Option<string>)
  {
    t.Some? && t.value != [] && |Strip(t.value)| >= 100
  }

  /** The text extracted from one document. */
  function DocumentText(x: Extractors, path: string): string
  {
    if IsPdf(path) then
      var t := PdfProcessor.ExtractWithPdfminer(x.pdfminer(path));
      if PdfTextUsable(t) then t.value else Join(" ", PdfProcessor.Bucket(x.partition(path), "NarrativeText"))
    else
      match x.textract(path)
      case Success(t) => t
      case Failure(_) => x.tesseract(path)
  }

  /** The four ways a document's text is obtained. */
  lemma ExtractionFallbacks(x: Extractors, path: string)
    ensures IsPdf(path) && x.pdfminer(path).Success? && |Strip(x.pdfminer(path).value)| >= 100
            ==> DocumentText(x, path) == x.pdfminer(path).value
    ensures IsPdf(path) && (x.pdfminer(path).Failure? || |Strip(x.pdfminer(path).value)| < 100)
            ==> DocumentText(x, path) == Join(" ", PdfProcessor.Bucket(x.partition(path), "NarrativeText"))
    ensures !IsPdf(path) && x.textract(path).Success? ==> DocumentText(x, path) == x.textract(path).value
    ensures !IsPdf(path) && x.textract(path).Failure? ==> DocumentText(x, path) == x.tesseract(path)
  {
    if IsPdf(path) && x.pdfminer(path).Success? && |Strip(x.pdfminer(path).value)| >= 100 {
      assert x.pdfminer(path).value != [];
    }
  }

  /** The suffix test ignores case. */
  lemma UpperCasePdf()
    ensures IsPdf("POLICY.PDF") && !IsPdf("scan.png")
  {
    assert Lower("POLICY.PDF")[6..] == ".pdf";
    assert Lower("scan.png")[4..] != ".pdf" by {
      assert Lower("scan.png")[6] == 'n';
    }
  }

  /** A document is chunked only when its text is non-empty and longer than 50 once stripped. */
  predicate KeepsText(text: string)
  {
    text != [] && |Strip(text)| > 50
  }

  function ChunkTexts(chunks: seq<Chunker.Chunk>): (r: seq<string>)
    ensures |r| == |chunks| && forall i :: 0 <= i < |chunks| ==> r[i] == chunks[i].text
  {
    seq(|chunks|, i requires 0 <= i < |chunks| => chunks[i].text)
  }

  /** The `chunk_data` dictionary for the `i`-th chunk of the document at `path`. */
  function ChunkData(path: string, i: nat, chunk: Chunker.Chunk, embedding: seq<real>): EmbeddingManager.ChunkWithEmbedding
  {
    EmbeddingManager.ChunkWithEmbedding(embedding, map[
      "text" := Str(chunk.text), "source" := Str(path), "chunk_index" := Int(i), "tokens" := Int(chunk.tokens)])
  }

  /** The chunks `semantic_chunking` makes of one document, none when its text is too short. */
  function DocChunkList(c: Chunker.Chunker, x: Extractors, path: string): seq<Chunker.Chunk>
  {
    var text := DocumentText(x, path);
    if KeepsText(text) then Chunker.Pack(c, text, map["source" := Str(path)]) else []
  }

  function MinLen(a: nat, b: nat): nat
  {
    if a <= b then a else b
  }

  /** `enumerate(zip(chunks, embeddings))` turned into chunk dictionaries. */
  function ZipChunks(path: string, chunks: seq<Chunker.Chunk>, embeddings: seq<seq<real>>): (r: seq<EmbeddingManager.ChunkWithEmbedding>)
    ensures |r| == MinLen(|chunks|, |embeddings|) && EmbeddingManager.AllHaveText(r)
  {
    var n := MinLen(|chunks|, |embeddings|);
    seq(n, i requires 0 <= i < n => ChunkData(path, i, chunks[i], embeddings[i]))
  }

  /** The chunk texts appended to `corpus_texts` alongside. */
  function ZipTexts(chunks: seq<Chunker.Chunk>, embeddings: seq<seq<real>>): (r: seq<string>)
    ensures |r| == MinLen(|chunks|, |embeddings|)
  {
    var n := MinLen(|chunks|, |embeddings|);
    seq(n, i requires 0 <= i < n => chunks[i].text)
  }

  /** The chunks of one document, with their embeddings; `zip` stops at the shorter list. */
  function DocChunks(c: Chunker.Chunker, x: Extractors, path: string): (r: seq<EmbeddingManager.ChunkWithEmbedding>)
    ensures EmbeddingManager.AllHaveText(r)
  {
    var chunks := DocChunkList(c, x, path);
    ZipChunks(path, chunks, x.embed(ChunkTexts(chunks)))
  }

  /** The corpus texts contributed by one document. */
  function DocCorpus(c: Chunker.Chunker, x: Extractors, path: string): seq<string>
  {
    var chunks := DocChunkList(c, x, path);
    ZipTexts(chunks, x.embed(ChunkTexts(chunks)))
  }

  /** `all_chunks` after processing `paths`. */
  function Ingested(c: Chunker.Chunker, x: Extractors, paths: seq<string>): (r: seq<EmbeddingManager.ChunkWithEmbedding>)
    ensures EmbeddingManager.AllHaveText(r)
  {
    if paths == [] then [] else Ingested(c, x, paths[..|paths| - 1]) + DocChunks(c, x, paths[|paths| - 1])
  }

  /** `corpus_texts` after processing `paths`. */
  function Corpus(c: Chunker.Chunker, x: Extractors, paths: seq<string>): seq<string>
  {
    if paths == [] then [] else Corpus(c, x, paths[..|paths| - 1]) + DocCorpus(c, x, paths[|paths| - 1])
  }

  /** Within one document, `chunk_index` counts 0, 1, 2, ... and every chunk names its source;
      a document contributes only when its text passes the length threshold. */
  lemma DocChunksNumbered(c: Chunker.Chunker, x: Extractors, path: string)
    ensures var r := DocChunks(c, x, path);
            forall i :: 0 <= i < |r| ==> r[i].fields["chunk_index"] == Int(i) && r[i].fields["source"] == Str(path)
    ensures DocChunks(c, x, path) != [] ==> KeepsText(DocumentText(x, path))
  {
    var chunks := DocChunkList(c, x, path);
    ZipNumbered(path, chunks, x.embed(ChunkTexts(chunks)));
  }

  lemma ZipNumbered(path: string, chunks: seq<Chunker.Chunk>, embeddings: seq<seq<real>>)
    ensures var r := ZipChunks(path, chunks, embeddings);
            forall i :: 0 <= i < |r| ==> r[i].fields["chunk_index"] == Int(i) && r[i].fields["source"] == Str(path)
  {
  }

  /** `corpus_texts[j]` is always `all_chunks[j]['text']`. */
  lemma {:induction false} CorpusAligned(c: Chunker.Chunker, x: Extractors, paths: seq<string>)
    ensures |Corpus(c, x, paths)| == |Ingested(c, x, paths)|
    ensures forall j :: 0 <= j < |Ingested(c, x, paths)| ==>
      "text" in Ingested(c, x, paths)[j].fields && Ingested(c, x, paths)[j].fields["text"] == Str(Corpus(c, x, paths)[j])
    decreases |paths|
  {
    if paths != [] {
      var init := paths[..|paths| - 1];
      var last := paths[|paths| - 1];
      CorpusAligned(c, x, init);
      DocAligned(c, x, last);
      var a: seq<EmbeddingManager.ChunkWithEmbedding> := Ingested(c, x, init);
      var b: seq<EmbeddingManager.ChunkWithEmbedding> := DocChunks(c, x, last);
      var p: seq<string> := Corpus(c, x, init);
      var q: seq<string> := DocCorpus(c, x, last);
      forall j | 0 <= j < |a + b| ensures "text" in (a + b)[j].fields && (a + b)[j].fields["text"] == Str((p + q)[j]) {
        if j >= |a| {
          assert (a + b)[j] == b[j - |a|] && (p + q)[j] == q[j - |a|];
        } else {
          assert (a + b)[j] == a[j] && (p + q)[j] == p[j];
        }
      }
    }
  }

  lemma DocAligned(c: Chunker.Chunker, x: Extractors, path: string)
    ensures |DocCorpus(c, x, path)| == |DocChunks(c, x, path)|
    ensures forall j :: 0 <= j < |DocChunks(c, x, path)| ==>
      "text" in DocChunks(c, x, path)[j].fields && DocChunks(c, x, path)[j].fields["text"] == Str(DocCorpus(c, x, path)[j])
  {
    var chunks := DocChunkList(c, x, path);
    ZipAligned(path, chunks, x.embed(ChunkTexts(chunks)));
  }

  lemma ZipAligned(path: string, chunks: seq<Chunker.Chunk>, embeddings: seq<seq<real>>)
    ensures forall j :: 0 <= j < |ZipChunks(path, chunks, embeddings)| ==>
      ZipChunks(path, chunks, embeddings)[j].fields["text"] == Str(ZipTexts(chunks, embeddings)[j])
  {
  }

  /** The reply of `answer_query`: a message string, or the final response dictionary. */
  datatype Reply = Message(text: string) | Answer(answer: string, confidence: real, sources: seq<MetaValue>, retrievedChunks: nat)

  /** `[ctx['metadata'].get('source', 'Unknown') for ctx in contexts]`. */
  function Sources(contexts: seq<Retriever.Fused>): (r: seq<MetaValue>)
    ensures |r| == |contexts|
    ensures forall i :: 0 <= i < |contexts| ==> r[i] == Get(contexts[i].metadata, "source", Str("Unknown"))
  {
    seq(|contexts|, i requires 0 <= i < |contexts| => Get(contexts[i].metadata, "source", Str("Unknown")))
  }

  /** A passage found only by the sparse search carries just its text, so its source reads
      'Unknown'. */
  lemma SparseOnlySourceUnknown(dense: seq<Retriever.DenseMatch>, hits: seq<Retriever.SparseHit>, w: real, topK: int, i: nat)
    requires Retriever.AllHaveText(dense) && Retriever.Normalizable(hits)
    requires i < |Retriever.Fuse(dense, hits, w, topK)|
    requires Retriever.Fuse(dense, hits, w, topK)[i].text !in Retriever.DenseTexts(dense)
    ensures Sources(Retriever.Fuse(dense, hits, w, topK))[i] == Str("Unknown")
  {
    Retriever.FuseRows(dense, hits, w, topK);
  }

  /** The `for i, (chunk, embedding) in enumerate(zip(chunks, embeddings))` loop. */
  method ZipLoop(path: string, chunks: seq<Chunker.Chunk>, embeddings: seq<seq<real>>)
    returns (docChunks: seq<EmbeddingManager.ChunkWithEmbedding>, docCorpus: seq<string>)
    ensures docChunks == ZipChunks(path, chunks, embeddings)
    ensures docCorpus == ZipTexts(chunks, embeddings)
  {
    docChunks, docCorpus := [], [];
    var n := MinLen(|chunks|, |embeddings|);
    for i := 0 to n
      invariant docChunks == ZipChunks(path, chunks, embeddings)[..i]
      invariant docCorpus == ZipTexts(chunks, embeddings)[..i]
    {
      var chunkData := ChunkData(path, i, chunks[i], embeddings[i]);
      docChunks := docChunks + [chunkData];
      docCorpus := docCorpus + [chunks[i].text];
    }
  }

  /** The system: its collaborators, the vector index it created, and the retriever over the
      last ingested corpus (`None` before the first ingest). */
  class RagSystem {
    const chunker: Chunker.Chunker
    const extractors: Extractors
    const embeddingManager: EmbeddingManager.EmbeddingManager
    const ids: EmbeddingManager.IdSource
    const index: EmbeddingManager.VectorIndex
    var retriever: Option<Retriever.HybridRetriever>

    /** `__init__`: creates (or reuses) the index "hackrx-documents"; no retriever yet. */
    constructor(chunker: Chunker.Chunker, extractors: Extractors, em: EmbeddingManager.EmbeddingManager, ids: EmbeddingManager.IdSource)
      requires chunker.chunkSize == Chunker.DefaultChunkSize && chunker.overlap == Chunker.DefaultOverlap
      modifies em.pc
      ensures this.chunker == chunker && this.extractors == extractors
      ensures embeddingManager == em && this.ids == ids
      ensures em.pc.indexes == EmbeddingManager.Registered(old(em.pc.indexes), IndexName, em.dimension)
      ensures fresh(index) && index.name == IndexName && index.upserts == []
      ensures retriever == None
    {
      this.chunker := chunker;
      this.extractors := extractors;
      embeddingManager := em;
      this.ids := ids;
      var idx := em.CreateIndex(IndexName);
      index := idx;
      retriever := None;
    }

    /** `process_documents(document_paths)`: extract, chunk and embed every document, send all
        chunks to the index in one batched upsert, and replace the retriever by one over this
        call's chunk texts only. */
    method ProcessDocuments(paths: seq<string>)
      modifies this, index, ids
      ensures index.upserts == old(index.upserts)
        + EmbeddingManager.BatchesFrom(EmbeddingManager.ToVectors(Ingested(chunker, extractors, paths), old(ids.next)), 0)
      ensures ids.next == old(ids.next) + |Ingested(chunker, extractors, paths)|
      ensures retriever == Some(Retriever.NewRetriever(Corpus(chunker, extractors, paths)))
    {
      var allChunks: seq<EmbeddingManager.ChunkWithEmbedding> := [];
      var corpusTexts: seq<string> := [];
      for k := 0 to |paths|
        invariant allChunks == Ingested(chunker, extractors, paths[..k])
        invariant corpusTexts == Corpus(chunker, extractors, paths[..k])
        invariant index.upserts == old(index.upserts) && ids.next == old(ids.next)
      {
        var docPath := paths[k];
        assert paths[..k + 1][..k] == paths[..k];
        var docChunks, docCorpus := IngestDocument(docPath);
        allChunks := allChunks + docChunks;
        corpusTexts := corpusTexts + docCorpus;
      }
      assert paths[..|paths|] == paths;
      embeddingManager.UpsertEmbeddings(index, allChunks, ids);
      retriever := Some(Retriever.NewRetriever(corpusTexts));
    }

    /** The body of the loop of `process_documents` for one path: the chunk dictionaries and the
        corpus texts it appends. */
    method IngestDocument(docPath: string)
      returns (docChunks: seq<EmbeddingManager.ChunkWithEmbedding>, docCorpus: seq<string>)
      ensures docChunks == DocChunks(chunker, extractors, docPath)
      ensures docCorpus == DocCorpus(chunker, extractors, docPath)
    {
      var chunks: seq<Chunker.Chunk> := [];
      var text := ExtractText(docPath);
      if text != [] && |Strip(text)| > 50 {
        chunks := Chunker.SemanticChunking(chunker, text, Some(map["source" := Str(docPath)]));
      }
      assert chunks == DocChunkList(chunker, extractors, docPath);
      var chunkTexts := ChunkTexts(chunks);
      var embeddings := extractors.embed(chunkTexts);
      docChunks, docCorpus := ZipLoop(docPath, chunks, embeddings);
    }

    /** The text-extraction branch of `process_documents` for one path. */
    method ExtractText(docPath: string) returns (text: string)
      ensures text == DocumentText(extractors, docPath)
    {
      if EndsWith(Lower(docPath), ".pdf") {
        var pdfText := PdfProcessor.ExtractWithPdfminer(extractors.pdfminer(docPath));
        if pdfText.None? || pdfText.value == [] || |Strip(pdfText.value)| < 100 {
          var structuredContent := PdfProcessor.ExtractWithUnstructured(extractors.partition(docPath));
          text := Join(" ", structuredContent.text);
        } else {
          text := pdfText.value;
        }
      } else {
        match extractors.textract(docPath)
        case Success(t) =>
          text := t;
        case Failure(_) =>
          text := extractors.tesseract(docPath);
      }
    }

    /** `answer_query(user_query)`. The ghost results name what the reply is built from: the
        expanded query, the sparse hits and the retrieved contexts. */
    method AnswerQuery(userQuery: string, s: Services)
      returns (reply: Reply, ghost expanded: string, ghost sparse: seq<Retriever.SparseHit>, ghost contexts: seq<Retriever.Fused>)
      requires retriever.Some? ==> |s.bm25(QueryTokens(userQuery, s))| == |retriever.value.corpusTexts|
      requires retriever.Some? ==>
        SliceEnd(|s.bm25(QueryTokens(userQuery, s))|, 2 * AnswerTopK) == 0 || Retriever.MaxOf(s.bm25(QueryTokens(userQuery, s))) != 0.0
      requires retriever.Some? ==> Retriever.AllHaveText(s.denseSearch(ExpandedQuery(userQuery, s), 2 * AnswerTopK))
      ensures retriever.None? ==> reply == Message(NoDocumentsError)
      ensures retriever.Some? ==>
        && expanded == ExpandedQuery(userQuery, s)
        && StartsWith(expanded, QueryProcessor.Preprocess(userQuery) + ". ")
        && Retriever.IsSparseTopK(retriever.value.corpusTexts, s.bm25(Retriever.Tokenize(expanded)), 2 * AnswerTopK, sparse)
        && Retriever.Normalizable(sparse)
        && contexts == Retriever.Fuse(s.denseSearch(expanded, 2 * AnswerTopK), sparse, DenseWeight, AnswerTopK)
        && (reply == Message(NotFoundMessage) <==> contexts == [])
      ensures reply.Message? ==> reply.text == NoDocumentsError || reply.text == NotFoundMessage
      ensures reply.Answer? ==> retriever.Some? && 1 <= |contexts| <= AnswerTopK && reply == FinalReply(userQuery, contexts, s)
    {
      expanded, sparse, contexts := "", [], [];
      if retriever.None? {
        return Message(NoDocumentsError), expanded, sparse, contexts;
      }
      var processedQuery := QueryProcessor.PreprocessQuery(userQuery);
      var expandedQuery := QueryProcessor.ExpandQuery(processedQuery, s.nlp(processedQuery));
      expanded := expandedQuery;
      var denseResults := s.denseSearch(expandedQuery, 2 * AnswerTopK);
      var retrievedContexts;
      retrievedContexts, sparse := Retriever.HybridRetrieval(
        retriever.value, denseResults, s.bm25(Retriever.Tokenize(expandedQuery)), AnswerTopK, DenseWeight);
      contexts := retrievedContexts;
      if retrievedContexts == [] {
        return Message(NotFoundMessage), expanded, sparse, contexts;
      }
      Retriever.FuseShape(denseResults, sparse, DenseWeight, AnswerTopK);
      reply := Respond(userQuery, retrievedContexts, s);
    }
  }

  /** The final response dictionary for non-empty retrieved contexts. */
  function FinalReply(userQuery: string, contexts: seq<Retriever.Fused>, s: Services): (r: Reply)
    ensures r.Answer? && r.retrievedChunks == |contexts| && |r.sources| == MinLen(3, |contexts|)
    ensures r.confidence in {0.5, 0.7, 0.8, 1.0}
    ensures forall i :: 0 <= i < |r.sources| ==> r.sources[i] == Get(contexts[i].metadata, "source", Str("Unknown"))
  {
    var prompt := ResponseGenerator.Prompt(userQuery, ResponseGenerator.ContextText(contexts, MaxContextLength));
    var v := ResponseGenerator.ValidateResponse(s.generate(prompt), contexts);
    Answer(v.response, v.confidence, Sources(Take(contexts, 3)), |contexts|)
  }

  /** Generation, validation and the final dictionary of `answer_query`. */
  method Respond(userQuery: string, contexts: seq<Retriever.Fused>, s: Services) returns (reply: Reply)
    ensures reply == FinalReply(userQuery, contexts, s)
  {
    var prompt := ResponseGenerator.CreateRagPrompt(userQuery, contexts, MaxContextLength);
    var rawResponse := s.generate(prompt);
    var validated := ResponseGenerator.ValidateResponse(rawResponse, contexts);
    reply := Answer(validated.response, validated.confidence, Sources(Take(contexts, 3)), |contexts|);
  }
}
