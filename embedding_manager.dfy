/** The vector-database bookkeeping of app/embedding_manager.py: creating an index only when it is
    missing, and sending chunk vectors to it in batches of 100. Embedding computation and the
    database service itself are not modelled; an index is represented by the log of the upsert
    calls it receives. */
module EmbeddingManager {
  import opened Metadata

  /** The size of one upsert call. */
  const BatchSize := 100

  /** The creation request that `create_index` sends: cosine metric, serverless on AWS us-east-1. */
  datatype IndexSpec = IndexSpec(name: string, dimension: nat, metric: string, cloud: string, region: string)

  function Names(specs: seq<IndexSpec>): (r: seq<string>)
    ensures |r| == |specs| && forall i :: 0 <= i < |specs| ==> r[i] == specs[i].name
  {
    seq(|specs|, i requires 0 <= i < |specs| => specs[i].name)
  }

  /** The indexes of an account after asking for `name` with `dimension`. */
  function Registered(specs: seq<IndexSpec>, name: string, dimension: nat): (r: seq<IndexSpec>)
    ensures name in Names(r)
    ensures name in Names(specs) ==> r == specs
    ensures name !in Names(specs) ==> r == specs + [IndexSpec(name, dimension, "cosine", "aws", "us-east-1")]
  {
    if name in Names(specs) then specs
    else
      var r := specs + [IndexSpec(name, dimension, "cosine", "aws", "us-east-1")];
      assert Names(r)[|specs|] == name;
      r
  }

  /** Asking for an index a second time changes nothing, whatever dimension is asked for. */
  lemma CreateIndexIdempotent(specs: seq<IndexSpec>, name: string, d1: nat, d2: nat)
    ensures Registered(Registered(specs, name, d1), name, d2) == Registered(specs, name, d1)
  {
  }

  /** A Pinecone account: the indexes it holds, oldest first. */
  class PineconeClient {
    var indexes: seq<IndexSpec>

    constructor(existing: seq<IndexSpec>)
      ensures indexes == existing
    {
      indexes := existing;
    }

    /** `pc.create_index(...)`. */
    method Create(spec: IndexSpec)
      modifies this
      ensures indexes == old(indexes) + [spec]
    {
      indexes := indexes + [spec];
    }
  }

  /** A vector as the upsert call receives it; `id` stands for the uuid string. */
  datatype Vector = Vector(id: nat, values: seq<real>, metadata: Meta)

  /** An element of `chunks_with_embeddings`: its embedding and its other dictionary entries. */
  datatype ChunkWithEmbedding = ChunkWithEmbedding(embedding: seq<real>, fields: Meta)

  /** The handle `pc.Index(name)` returns; `upserts` lists the batches it was sent, in order. */
  class VectorIndex {
    const name: string
    var upserts: seq<seq<Vector>>

    constructor(name: string)
      ensures this.name == name && upserts == []
    {
      this.name := name;
      upserts := [];
    }

    /** `index.upsert(vectors=...)`. */
    method Upsert(vectors: seq<Vector>)
      modifies this
      ensures upserts == old(upserts) + [vectors]
    {
      upserts := upserts + [vectors];
    }
  }

  /** The source of fresh vector ids (`uuid.uuid4()`): every call yields an id never seen before. */
  class IdSource {
    var next: nat

    constructor()
      ensures next == 0
    {
      next := 0;
    }

    method Fresh() returns (id: nat)
      modifies this
      ensures id == old(next) && next == old(next) + 1
    {
      id := next;
      next := next + 1;
    }
  }

  /** The vector built for one chunk: its embedding, its text, and `source`, `chunk_index` and
      `tokens` taken from the chunk or defaulted to `''`, `0` and `0`. */
  function VectorFor(c: ChunkWithEmbedding, id: nat): (v: Vector)
    requires "text" in c.fields
    ensures v.id == id && v.values == c.embedding
    ensures v.metadata.Keys == {"text", "source", "chunk_index", "tokens"}
    ensures v.metadata["text"] == c.fields["text"]
    ensures v.metadata["source"] == (if "source" in c.fields then c.fields["source"] else Str(""))
    ensures v.metadata["chunk_index"] == (if "chunk_index" in c.fields then c.fields["chunk_index"] else Int(0))
    ensures v.metadata["tokens"] == (if "tokens" in c.fields then c.fields["tokens"] else Int(0))
  {
    Vector(id, c.embedding, map[
      "text" := c.fields["text"],
      "source" := Get(c.fields, "source", Str("")),
      "chunk_index" := Get(c.fields, "chunk_index", Int(0)),
      "tokens" := Get(c.fields, "tokens", Int(0))])
  }

  predicate AllHaveText(chunks: seq<ChunkWithEmbedding>)
  {
    forall i :: 0 <= i < |chunks| ==> "text" in chunks[i].fields
  }

  /** The vectors for `chunks`, with ids handed out consecutively from `start`. */
  function ToVectors(chunks: seq<ChunkWithEmbedding>, start: nat): (vs: seq<Vector>)
    requires AllHaveText(chunks)
    ensures |vs| == |chunks|
    ensures forall i :: 0 <= i < |vs| ==> vs[i] == VectorFor(chunks[i], start + i)
  {
    seq(|chunks|, i requires 0 <= i < |chunks| => VectorFor(chunks[i], start + i))
  }

  /** No two vectors of one upsert run share an id. */
  lemma VectorIdsDistinct(chunks: seq<ChunkWithEmbedding>, start: nat)
    requires AllHaveText(chunks)
    ensures forall i, j :: 0 <= i < j < |chunks| ==> ToVectors(chunks, start)[i].id != ToVectors(chunks, start)[j].id
  {
  }

  /** `xs[i:i + 100]` for `i = k, k + 100, ...` while `i < len(xs)`. */
  function BatchesFrom<T>(xs: seq<T>, k: nat): seq<seq<T>>
    decreases |xs| - k
  {
    if k >= |xs| then []
    else [xs[k..if k + BatchSize <= |xs| then k + BatchSize else |xs|]] + BatchesFrom(xs, k + BatchSize)
  }

  function Flatten<T>(bs: seq<seq<T>>): seq<T>
  {
    if bs == [] then [] else bs[0] + Flatten(bs[1..])
  }

  /** The batches, run together, give back the input from `k` on, in order. */
  lemma {:induction false} BatchesCover<T>(xs: seq<T>, k: nat)
    requires k <= |xs|
    ensures Flatten(BatchesFrom(xs, k)) == xs[k..]
    decreases |xs| - k
  {
    if k < |xs| {
      var e := if k + BatchSize <= |xs| then k + BatchSize else |xs|;
      var bs := BatchesFrom(xs, k);
      assert bs[0] == xs[k..e] && bs[1..] == BatchesFrom(xs, k + BatchSize);
      if k + BatchSize <= |xs| {
        BatchesCover(xs, k + BatchSize);
      } else {
        assert BatchesFrom(xs, k + BatchSize) == [];
      }
      assert xs[k..] == xs[k..e] + xs[e..];
    }
  }

  /** Every batch holds between 1 and 100 elements. */
  lemma {:induction false} BatchSizes<T>(xs: seq<T>, k: nat)
    ensures forall b :: b in BatchesFrom(xs, k) ==> 1 <= |b| <= BatchSize
    decreases |xs| - k
  {
    if k < |xs| {
      BatchSizes(xs, k + BatchSize);
    }
  }

  /** There are `ceil((len(xs) - k) / 100)` batches: none for an empty input. */
  lemma {:induction false} BatchCount<T>(xs: seq<T>, k: nat)
    requires k <= |xs|
    ensures |BatchesFrom(xs, k)| == (|xs| - k + BatchSize - 1) / BatchSize
    decreases |xs| - k
  {
    if k < |xs| && k + BatchSize <= |xs| {
      BatchCount(xs, k + BatchSize);
    }
  }

  /** The inner loop of `upsert_embeddings`: one vector per chunk of the batch, each with a fresh id. */
  method BatchVectors(batch: seq<ChunkWithEmbedding>, ids: IdSource) returns (vectors: seq<Vector>)
    requires AllHaveText(batch)
    modifies ids
    ensures vectors == ToVectors(batch, old(ids.next))
    ensures ids.next == old(ids.next) + |batch|
  {
    ghost var start := ids.next;
    vectors := [];
    for j := 0 to |batch|
      invariant ids.next == start + j
      invariant vectors == ToVectors(batch, start)[..j]
    {
      var vectorId := ids.Fresh();
      vectors := vectors + [VectorFor(batch[j], vectorId)];
    }
  }

  /** The vectors of a slice of the chunks are the matching slice of the vectors. */
  lemma VectorsOfSlice(chunks: seq<ChunkWithEmbedding>, start: nat, i: nat, e: nat)
    requires AllHaveText(chunks) && i <= e <= |chunks|
    ensures AllHaveText(chunks[i..e])
    ensures ToVectors(chunks[i..e], start + i) == ToVectors(chunks, start)[i..e]
  {
  }

  /** The parts of `EmbeddingManager` that the core uses: the embedding dimension and the client. */
  class EmbeddingManager {
    const dimension: nat
    const pc: PineconeClient

    constructor(dimension: nat, pc: PineconeClient)
      ensures this.dimension == dimension && this.pc == pc
    {
      this.dimension := dimension;
      this.pc := pc;
    }

    /** `create_index(index_name)`: create the index when the account lacks it, then return a handle. */
    method CreateIndex(indexName: string) returns (index: VectorIndex)
      modifies pc
      ensures pc.indexes == Registered(old(pc.indexes), indexName, dimension)
      ensures fresh(index) && index.name == indexName && index.upserts == []
    {
      if indexName !in Names(pc.indexes) {
        pc.Create(IndexSpec(indexName, dimension, "cosine", "aws", "us-east-1"));
      }
      index := new VectorIndex(indexName);
    }

    /** `upsert_embeddings(index, chunks_with_embeddings)`: one upsert call per batch of 100
        consecutive chunks, each chunk sent as a vector with a fresh id. */
    method UpsertEmbeddings(index: VectorIndex, chunks: seq<ChunkWithEmbedding>, ids: IdSource)
      requires AllHaveText(chunks)
      modifies index, ids
      ensures index.upserts == old(index.upserts) + BatchesFrom(ToVectors(chunks, old(ids.next)), 0)
      ensures ids.next == old(ids.next) + |chunks|
    {
      ghost var all := ToVectors(chunks, ids.next);
      ghost var start := ids.next;
      var i := 0;
      while i < |chunks|
        invariant index.upserts + BatchesFrom(all, i) == old(index.upserts) + BatchesFrom(all, 0)
        invariant ids.next == start + (if i < |chunks| then i else |chunks|)
        invariant i <= |chunks| + BatchSize
        decreases |chunks| - i
      {
        var e := if i + BatchSize <= |chunks| then i + BatchSize else |chunks|;
        var batch := chunks[i..e];
        var vectors := BatchVectors(batch, ids);
        VectorsOfSlice(chunks, start, i, e);
        assert BatchesFrom(all, i) == [vectors] + BatchesFrom(all, i + BatchSize);
        index.Upsert(vectors);
        i := i + BatchSize;
      }
    }
  }
}
