/** The hybrid retriever: BM25 top-k selection over a fixed corpus, and the weighted fusion of
    dense (vector index) and sparse (BM25) candidates into one ranked list keyed by passage text.
    The vector index's matches and BM25's score vector are inputs. */
module Retriever {
  import opened Wrappers
  import opened Metadata
  import opened PySeq
  import Text

  /** A match returned by the vector index: its similarity score and the metadata stored with it. */
  datatype DenseMatch = DenseMatch(score: real, metadata: Meta)

  /** A row of the sparse result list: `{'text', 'score', 'index'}`. */
  datatype SparseHit = SparseHit(text: string, score: real, index: nat)

  /** A row of the fused result list: `{'text', 'score', 'metadata'}`. */
  datatype Fused = Fused(text: string, score: real, metadata: Meta)

  /** A retriever over one corpus. BM25's term tables are not modelled; only the tokenised
      corpus it is built from is kept, aligned with the corpus. */
  datatype HybridRetriever = HybridRetriever(corpusTexts: seq<string>, tokenizedCorpus: seq<seq<string>>)

  /** `text.lower().split()`: lower-case words without whitespace. */
  function Tokenize(s: string): (r: seq<string>)
    ensures forall w :: w in r ==> w != [] && Text.NoSpace(w) && Text.NoUpper(w)
  {
    Text.SplitNoUpper(Text.Lower(s));
    Text.Split(Text.Lower(s))
  }

  /** The constructor: tokenises every passage, keeping positions aligned with the corpus. */
  function NewRetriever(corpus: seq<string>): (r: HybridRetriever)
    ensures r.corpusTexts == corpus && |r.tokenizedCorpus| == |corpus|
    ensures forall i :: 0 <= i < |corpus| ==> r.tokenizedCorpus[i] == Tokenize(corpus[i])
  {
    HybridRetriever(corpus, seq(|corpus|, i requires 0 <= i < |corpus| => Tokenize(corpus[i])))
  }

  // ----- sparse retrieval ----------------------------------------------------------------------

  function Indices(hits: seq<SparseHit>): (r: seq<nat>)
    ensures |r| == |hits| && forall i :: 0 <= i < |hits| ==> r[i] == hits[i].index
  {
    seq(|hits|, i requires 0 <= i < |hits| => hits[i].index)
  }

  /** What `sparse_retrieval` promises: `min(top_k, n)` rows (Python slice clamping), at
      pairwise different corpus positions, each with that position's text and score, in
      non-increasing score order, and no position left out scores above one taken. The order
      among equal scores is left open, as numpy's argsort does not fix it. */
  ghost predicate IsSparseTopK(corpus: seq<string>, scores: seq<real>, topK: int, hits: seq<SparseHit>)
    requires |scores| == |corpus|
  {
    && |hits| == SliceEnd(|corpus|, topK)
    && (forall i :: 0 <= i < |hits| ==>
          hits[i].index < |corpus| && hits[i].text == corpus[hits[i].index] && hits[i].score == scores[hits[i].index])
    && Distinct(Indices(hits))
    && (forall i, j :: 0 <= i < j < |hits| ==> hits[i].score >= hits[j].score)
    && (forall i, k :: 0 <= i < |hits| && 0 <= k < |scores| && k !in Indices(hits) ==> scores[k] <= hits[i].score)
  }

  /** A distinct list of positions below `n` that is shorter than `n` misses one of them. */
  lemma {:induction false} Pigeonhole(xs: seq<nat>, n: nat)
    requires Distinct(xs) && |xs| < n
    requires forall i :: 0 <= i < |xs| ==> xs[i] < n
    ensures exists k :: 0 <= k < n && k !in xs
    decreases n
  {
    if n - 1 in xs {
      var p :| 0 <= p < |xs| && xs[p] == n - 1;
      var ys := xs[..p] + xs[p + 1..];
      RemoveAt(xs, p);
      assert forall i :: 0 <= i < |ys| ==> ys[i] < n - 1 by {
        forall i | 0 <= i < |ys| ensures ys[i] < n - 1 {
          var j :| 0 <= j < |xs| && xs[j] == ys[i];
        }
      }
      Pigeonhole(ys, n - 1);
      var k :| 0 <= k < n - 1 && k !in ys;
      assert k !in xs;
    }
  }

  /** Removing the element at `p` from a distinct list leaves the others, each once. */
  lemma RemoveAt(xs: seq<nat>, p: nat)
    requires p < |xs| && Distinct(xs)
    ensures var ys := xs[..p] + xs[p + 1..];
            && |ys| == |xs| - 1 && Distinct(ys)
            && (forall i :: 0 <= i < |ys| ==> ys[i] in xs && ys[i] != xs[p])
            && (forall x :: x in xs ==> x == xs[p] || x in ys)
  {
    var ys := xs[..p] + xs[p + 1..];
    assert forall i :: 0 <= i < |ys| ==> ys[i] == if i < p then xs[i] else xs[i + 1];
    assert forall j :: 0 <= j < |xs| && j != p ==> xs[j] == ys[if j < p then j else j - 1];
  }

  /** `np.argsort(scores)[::-1][:m]` for `0 <= m <= n`: the positions of the `m` highest scores,
      highest first, each once. Ties may come in any order. */
  method RankByScore(scores: seq<real>, m: nat) returns (ranked: seq<nat>)
    requires m <= |scores|
    ensures |ranked| == m && Distinct(ranked)
    ensures forall i :: 0 <= i < m ==> ranked[i] < |scores|
    ensures forall i, j :: 0 <= i < j < m ==> scores[ranked[i]] >= scores[ranked[j]]
    ensures forall i, k :: 0 <= i < m && 0 <= k < |scores| && k !in ranked ==> scores[k] <= scores[ranked[i]]
  {
    ranked := [];
    while |ranked| < m
      invariant |ranked| <= m && Distinct(ranked)
      invariant forall i :: 0 <= i < |ranked| ==> ranked[i] < |scores|
      invariant forall i, j :: 0 <= i < j < |ranked| ==> scores[ranked[i]] >= scores[ranked[j]]
      invariant forall i, k :: 0 <= i < |ranked| && 0 <= k < |scores| && k !in ranked ==> scores[k] <= scores[ranked[i]]
      decreases m - |ranked|
    {
      Pigeonhole(ranked, |scores|);
      var best: int := -1;
      for k := 0 to |scores|
        invariant -1 <= best < |scores| && (best >= 0 ==> best !in ranked)
        invariant best < 0 ==> forall k' :: 0 <= k' < k ==> k' in ranked
        invariant best >= 0 ==> forall k' :: 0 <= k' < k && k' !in ranked ==> scores[k'] <= scores[best]
      {
        if k !in ranked && (best < 0 || scores[k] > scores[best]) {
          best := k;
        }
      }
      ranked := ranked + [best];
    }
  }

  /** `sparse_retrieval`: ranks the corpus by the BM25 scores of the tokenised query and returns
      the top `top_k` rows. */
  method SparseRetrieval(r: HybridRetriever, scores: seq<real>, topK: int) returns (results: seq<SparseHit>)
    requires |scores| == |r.corpusTexts|
    ensures IsSparseTopK(r.corpusTexts, scores, topK, results)
  {
    var topIndices := RankByScore(scores, SliceEnd(|scores|, topK));
    results := [];
    for j := 0 to |topIndices|
      invariant |results| == j
      invariant forall i :: 0 <= i < j ==>
        results[i] == SparseHit(r.corpusTexts[topIndices[i]], scores[topIndices[i]], topIndices[i])
    {
      var idx := topIndices[j];
      results := results + [SparseHit(r.corpusTexts[idx], scores[idx], idx)];
    }
    assert Indices(results) == topIndices;
  }

  // ----- maxima of scores ----------------------------------------------------------------------

  /** `max(xs)` for a non-empty list of scores. */
  function MaxOf(xs: seq<real>): (m: real)
    requires xs != []
    ensures forall i :: 0 <= i < |xs| ==> xs[i] <= m
    ensures exists i :: 0 <= i < |xs| && xs[i] == m
  {
    if |xs| == 1 then xs[0]
    else
      var rest := MaxOf(xs[1..]);
      assert forall i :: 1 <= i < |xs| ==> xs[i] == xs[1..][i - 1];
      if xs[0] >= rest then xs[0] else rest
  }

  function HitScores(hits: seq<SparseHit>): (r: seq<real>)
    ensures |r| == |hits| && forall i :: 0 <= i < |hits| ==> r[i] == hits[i].score
  {
    seq(|hits|, i requires 0 <= i < |hits| => hits[i].score)
  }

  /** `max([r['score'] for r in sparse_results]) if sparse_results else 1`. */
  function MaxSparse(hits: seq<SparseHit>): real
  {
    if hits == [] then 1.0 else MaxOf(HitScores(hits))
  }

  /** The sparse candidates' maximum is BM25's overall maximum: the top-k keep it. */
  lemma TopKKeepsMaximum(corpus: seq<string>, scores: seq<real>, topK: int, hits: seq<SparseHit>)
    requires |scores| == |corpus| && IsSparseTopK(corpus, scores, topK, hits) && hits != []
    ensures MaxSparse(hits) == MaxOf(scores)
  {
    var top := hits[0].score;
    forall k | 0 <= k < |scores| ensures scores[k] <= top {
      if k in Indices(hits) {
        var i :| 0 <= i < |hits| && Indices(hits)[i] == k;
        assert scores[k] == hits[i].score;
      }
    }
    forall i | 0 <= i < |hits| ensures HitScores(hits)[i] <= top {
      assert hits[i].score == scores[hits[i].index];
    }
    assert HitScores(hits)[0] == top;
    assert scores[hits[0].index] == top;
  }

  // ----- the fusion specification --------------------------------------------------------------

  predicate AllHaveText(dense: seq<DenseMatch>)
  {
    forall i :: 0 <= i < |dense| ==> HasText(dense[i].metadata)
  }

  function DenseTexts(dense: seq<DenseMatch>): (r: seq<string>)
    requires AllHaveText(dense)
    ensures |r| == |dense| && forall i :: 0 <= i < |dense| ==> r[i] == TextOf(dense[i].metadata)
  {
    seq(|dense|, i requires 0 <= i < |dense| => TextOf(dense[i].metadata))
  }

  function SparseTexts(hits: seq<SparseHit>): (r: seq<string>)
    ensures |r| == |hits| && forall i :: 0 <= i < |hits| ==> r[i] == hits[i].text
  {
    seq(|hits|, i requires 0 <= i < |hits| => hits[i].text)
  }

  /** The distinct strings of `ts` in the order of their first occurrence: the key order of a
      dict into which `ts` is inserted left to right. */
  function FirstOccurrences(ts: seq<string>): (r: seq<string>)
    ensures Distinct(r)
    ensures forall t :: t in r <==> t in ts
    ensures |r| <= |ts|
    decreases |ts|
  {
    if ts == [] then []
    else
      var d := FirstOccurrences(ts[..|ts| - 1]);
      assert forall t :: t in ts <==> t in ts[..|ts| - 1] || t == ts[|ts| - 1];
      if ts[|ts| - 1] in d then d else d + [ts[|ts| - 1]]
  }

  /** The last dense match carrying text `t`: a later duplicate overwrites an earlier one. */
  function LastDense(dense: seq<DenseMatch>, t: string): (r: Option<DenseMatch>)
    requires AllHaveText(dense)
    ensures r.None? <==> t !in DenseTexts(dense)
    ensures r.Some? ==> r.value in dense && TextOf(r.value.metadata) == t
    decreases |dense|
  {
    if dense == [] then None
    else
      var init := dense[..|dense| - 1];
      assert forall i :: 0 <= i < |init| ==> DenseTexts(dense)[i] == DenseTexts(init)[i];
      assert DenseTexts(dense) == DenseTexts(init) + [TextOf(dense[|dense| - 1].metadata)];
      if TextOf(dense[|dense| - 1].metadata) == t then Some(dense[|dense| - 1])
      else LastDense(init, t)
  }

  /** The last sparse hit carrying text `t`. */
  function LastSparse(hits: seq<SparseHit>, t: string): (r: Option<SparseHit>)
    ensures r.None? <==> t !in SparseTexts(hits)
    ensures r.Some? ==> r.value in hits && r.value.text == t
    decreases |hits|
  {
    if hits == [] then None
    else
      var init := hits[..|hits| - 1];
      assert SparseTexts(hits) == SparseTexts(init) + [hits[|hits| - 1].text];
      if hits[|hits| - 1].text == t then Some(hits[|hits| - 1])
      else LastSparse(init, t)
  }

  /** `x * w`, the weighting of a score. */
  function Weigh(x: real, w: real): real
  {
    x * w
  }

  /** The weighted dense score of `t`, or 0 when no dense match carries it. */
  function DensePart(dense: seq<DenseMatch>, w: real, t: string): real
    requires AllHaveText(dense)
  {
    var m := LastDense(dense, t);
    if m.Some? then Weigh(m.value.score, w) else 0.0
  }

  /** The weighted sparse score of `t` after division by `maxSparse`, or 0 when no hit carries it. */
  function SparsePart(hits: seq<SparseHit>, maxSparse: real, w: real, t: string): real
    requires maxSparse != 0.0
  {
    var h := LastSparse(hits, t);
    if h.Some? then Weigh(h.value.score / maxSparse, 1.0 - w) else 0.0
  }

  /** Every candidate's score can be normalised: there are no hits or their maximum is not 0. */
  predicate Normalizable(hits: seq<SparseHit>)
  {
    MaxSparse(hits) != 0.0
  }

  /** `dense_weight * dense + (1 - dense_weight) * sparse / max_sparse`, a missing method giving 0. */
  function CombinedScore(dense: seq<DenseMatch>, hits: seq<SparseHit>, w: real, t: string): real
    requires AllHaveText(dense) && Normalizable(hits)
  {
    DensePart(dense, w, t) + SparsePart(hits, MaxSparse(hits), w, t)
  }

  /** The dense metadata when a dense match carries `t`, else `{'text': t}`. */
  function MetadataFor(dense: seq<DenseMatch>, t: string): Meta
    requires AllHaveText(dense)
  {
    var m := LastDense(dense, t);
    if m.Some? then m.value.metadata else map["text" := Str(t)]
  }

  /** The texts of all candidates, dense ones first, each once, in first-insertion order. */
  function CandidateTexts(dense: seq<DenseMatch>, hits: seq<SparseHit>): seq<string>
    requires AllHaveText(dense)
  {
    FirstOccurrences(DenseTexts(dense) + SparseTexts(hits))
  }

  /** The fused rows before sorting, in the order the combined dict yields them. */
  function FusedCandidates(dense: seq<DenseMatch>, hits: seq<SparseHit>, w: real): (r: seq<Fused>)
    requires AllHaveText(dense) && Normalizable(hits)
    ensures |r| == |CandidateTexts(dense, hits)|
    ensures forall i :: 0 <= i < |r| ==> r[i] == FusedRow(dense, hits, w, CandidateTexts(dense, hits)[i])
  {
    var keys := CandidateTexts(dense, hits);
    seq(|keys|, i requires 0 <= i < |keys| => FusedRow(dense, hits, w, keys[i]))
  }

  function FusedRow(dense: seq<DenseMatch>, hits: seq<SparseHit>, w: real, t: string): Fused
    requires AllHaveText(dense) && Normalizable(hits)
  {
    Fused(t, CombinedScore(dense, hits, w, t), MetadataFor(dense, t))
  }

  /** The result of `hybrid_retrieval` given the candidates both methods returned. */
  function Fuse(dense: seq<DenseMatch>, hits: seq<SparseHit>, w: real, topK: int): seq<Fused>
    requires AllHaveText(dense) && Normalizable(hits)
  {
    Take(SortByScore(FusedCandidates(dense, hits, w)), topK)
  }

  // ----- list.sort(key=score, reverse=True) ----------------------------------------------------

  predicate SortedByScore(s: seq<Fused>)
  {
    forall i, j :: 0 <= i < j < |s| ==> s[i].score >= s[j].score
  }

  /** Places `x` after every element scoring strictly higher and before the rest. */
  function InsertByScore(x: Fused, s: seq<Fused>): (r: seq<Fused>)
    requires SortedByScore(s)
    ensures |r| == |s| + 1
    ensures forall y :: y in r <==> y == x || y in s
    ensures multiset(r) == multiset(s) + multiset{x}
    ensures SortedByScore(r)
    decreases |s|
  {
    if s == [] || s[0].score <= x.score then [x] + s
    else
      SortedTail(s);
      var rest := InsertByScore(x, s[1..]);
      SortedCons(s[0], rest);
      assert s == [s[0]] + s[1..];
      [s[0]] + rest
  }

  /** The tail of a sorted list is sorted and scores no higher than its head. */
  lemma SortedTail(s: seq<Fused>)
    requires SortedByScore(s) && s != []
    ensures SortedByScore(s[1..]) && forall y :: y in s[1..] ==> y.score <= s[0].score
  {
    forall y | y in s[1..] ensures y.score <= s[0].score {
      var k :| 0 <= k < |s[1..]| && s[1..][k] == y;
      assert s[k + 1] == y;
    }
  }

  lemma SortedCons(h: Fused, rest: seq<Fused>)
    requires SortedByScore(rest) && forall y :: y in rest ==> y.score <= h.score
    ensures SortedByScore([h] + rest)
  {
    forall i, j | 0 <= i < j < |rest| + 1 ensures ([h] + rest)[i].score >= ([h] + rest)[j].score {
      assert ([h] + rest)[j] == rest[j - 1];
      if i > 0 {
        assert ([h] + rest)[i] == rest[i - 1];
      } else {
        assert rest[j - 1] in rest;
      }
    }
  }

  /** `sort(key=score, reverse=True)`: Python's sort is stable, also with `reverse=True`, so
      this is an insertion sort that never moves an element past an equal one. */
  function SortByScore(s: seq<Fused>): (r: seq<Fused>)
    ensures SortedByScore(r) && |r| == |s| && multiset(r) == multiset(s)
    decreases |s|
  {
    if s == [] then []
    else
      assert s == [s[0]] + s[1..];
      InsertByScore(s[0], SortByScore(s[1..]))
  }

  /** The elements of `s` whose score is `v`, in order. */
  function WithScore(s: seq<Fused>, v: real): seq<Fused>
  {
    if s == [] then [] else (if s[0].score == v then [s[0]] else []) + WithScore(s[1..], v)
  }

  lemma {:induction false} WithScoreAppend(a: seq<Fused>, b: seq<Fused>, v: real)
    ensures WithScore(a + b, v) == WithScore(a, v) + WithScore(b, v)
    decreases |a|
  {
    if a == [] {
      assert a + b == b;
    } else {
      assert (a + b)[0] == a[0];
      assert (a + b)[1..] == a[1..] + b;
      WithScoreAppend(a[1..], b, v);
    }
  }

  lemma WithScoreCons(f: Fused, s: seq<Fused>, v: real)
    ensures WithScore([f] + s, v) == (if f.score == v then [f] else []) + WithScore(s, v)
  {
    assert ([f] + s)[0] == f;
    assert ([f] + s)[1..] == s;
  }

  lemma {:induction false} InsertKeepsTies(x: Fused, s: seq<Fused>, v: real)
    requires SortedByScore(s)
    ensures WithScore(InsertByScore(x, s), v) == WithScore([x] + s, v)
    decreases |s|
  {
    if s != [] && s[0].score > x.score {
      SortedTail(s);
      var rest := InsertByScore(x, s[1..]);
      assert InsertByScore(x, s) == [s[0]] + rest;
      InsertKeepsTies(x, s[1..], v);
      TiesStep(x, s, rest, v);
    }
  }

  /** Moving `x` behind a higher-scored head does not reorder the elements of any one score. */
  lemma TiesStep(x: Fused, s: seq<Fused>, rest: seq<Fused>, v: real)
    requires s != [] && s[0].score > x.score
    requires WithScore(rest, v) == WithScore([x] + s[1..], v)
    ensures WithScore([s[0]] + rest, v) == WithScore([x] + s, v)
  {
    WithScoreCons(s[0], rest, v);
    WithScoreCons(x, s[1..], v);
    WithScoreCons(x, s, v);
    assert s == [s[0]] + s[1..];
    WithScoreCons(s[0], s[1..], v);
    if x.score == v {
      assert WithScore(s, v) == WithScore(s[1..], v);
    } else {
      assert WithScore([x] + s[1..], v) == WithScore(s[1..], v);
    }
  }

  /** Stability: among elements of equal score, sorting keeps their original order. */
  lemma {:induction false} SortKeepsTies(s: seq<Fused>, v: real)
    ensures WithScore(SortByScore(s), v) == WithScore(s, v)
    decreases |s|
  {
    if s != [] {
      SortKeepsTies(s[1..], v);
      InsertKeepsTies(s[0], SortByScore(s[1..]), v);
      WithScoreAppend([s[0]], SortByScore(s[1..]), v);
      WithScoreAppend([s[0]], s[1..], v);
      assert s == [s[0]] + s[1..];
    }
  }

  lemma {:induction false} WithScorePrefix(s: seq<Fused>, k: nat, v: real)
    requires k <= |s|
    ensures WithScore(s[..k], v) <= WithScore(s, v)
  {
    assert s == s[..k] + s[k..];
    WithScoreAppend(s[..k], s[k..], v);
  }

  predicate DistinctTexts(s: seq<Fused>)
  {
    forall i, j :: 0 <= i < j < |s| ==> s[i].text != s[j].text
  }

  lemma {:induction false} InsertKeepsDistinctTexts(x: Fused, s: seq<Fused>)
    requires SortedByScore(s) && DistinctTexts(s)
    requires forall i :: 0 <= i < |s| ==> s[i].text != x.text
    ensures DistinctTexts(InsertByScore(x, s))
    decreases |s|
  {
    if s != [] && s[0].score > x.score {
      InsertKeepsDistinctTexts(x, s[1..]);
      var rest := InsertByScore(x, s[1..]);
      forall i | 0 <= i < |rest| ensures rest[i].text != s[0].text {
        assert rest[i] in multiset(s[1..]) + multiset{x};
        if rest[i] != x {
          var j :| 0 <= j < |s[1..]| && s[1..][j] == rest[i];
          assert s[j + 1] == rest[i];
        }
      }
    }
  }

  lemma {:induction false} SortKeepsDistinctTexts(s: seq<Fused>)
    requires DistinctTexts(s)
    ensures DistinctTexts(SortByScore(s))
    decreases |s|
  {
    if s != [] {
      SortKeepsDistinctTexts(s[1..]);
      var sorted := SortByScore(s[1..]);
      forall i | 0 <= i < |sorted| ensures sorted[i].text != s[0].text {
        assert sorted[i] in multiset(s[1..]);
        var j :| 0 <= j < |s[1..]| && s[1..][j] == sorted[i];
        assert s[j + 1] == sorted[i];
      }
      InsertKeepsDistinctTexts(s[0], sorted);
    }
  }

  // ----- properties of the fused list ----------------------------------------------------------

  /** The fused list is no longer than `top_k` (after Python's clamping), holds every candidate
      text at most once, and is in non-increasing score order. */
  lemma FuseShape(dense: seq<DenseMatch>, hits: seq<SparseHit>, w: real, topK: int)
    requires AllHaveText(dense) && Normalizable(hits)
    ensures var r := Fuse(dense, hits, w, topK);
      && |r| == SliceEnd(|CandidateTexts(dense, hits)|, topK)
      && |r| <= |dense| + |hits|
      && DistinctTexts(r)
      && SortedByScore(r)
  {
    var f := FusedCandidates(dense, hits, w);
    var keys := CandidateTexts(dense, hits);
    assert DistinctTexts(f) by {
      forall i, j | 0 <= i < j < |f| ensures f[i].text != f[j].text {
        assert f[i].text == keys[i] && f[j].text == keys[j];
      }
    }
    SortKeepsDistinctTexts(f);
  }

  /** Every returned row is a candidate text with its combined score and its metadata: dense
      metadata when a dense match carries the text, else just `{'text': text}`. */
  lemma FuseRows(dense: seq<DenseMatch>, hits: seq<SparseHit>, w: real, topK: int)
    requires AllHaveText(dense) && Normalizable(hits)
    ensures var r := Fuse(dense, hits, w, topK);
      forall i :: 0 <= i < |r| ==>
        && (r[i].text in DenseTexts(dense) || r[i].text in SparseTexts(hits))
        && r[i].score == CombinedScore(dense, hits, w, r[i].text)
        && r[i].metadata == MetadataFor(dense, r[i].text)
  {
    var f := FusedCandidates(dense, hits, w);
    var r := Fuse(dense, hits, w, topK);
    var sorted := SortByScore(f);
    forall i | 0 <= i < |r|
      ensures r[i].text in DenseTexts(dense) || r[i].text in SparseTexts(hits)
      ensures r[i].score == CombinedScore(dense, hits, w, r[i].text)
      ensures r[i].metadata == MetadataFor(dense, r[i].text)
    {
      assert r[i] == sorted[i];
      assert sorted[i] in multiset(f);
      var j :| 0 <= j < |f| && f[j] == sorted[i];
      assert CandidateTexts(dense, hits)[j] in CandidateTexts(dense, hits);
    }
  }

  /** A text found by only one method is not dropped: when all candidates fit in `top_k`,
      every text of either list is returned. */
  lemma FuseKeepsEveryCandidate(dense: seq<DenseMatch>, hits: seq<SparseHit>, w: real, topK: int, t: string)
    requires AllHaveText(dense) && Normalizable(hits)
    requires |CandidateTexts(dense, hits)| <= topK
    requires t in DenseTexts(dense) || t in SparseTexts(hits)
    ensures exists i :: 0 <= i < |Fuse(dense, hits, w, topK)| && Fuse(dense, hits, w, topK)[i].text == t
  {
    var keys := CandidateTexts(dense, hits);
    assert t in DenseTexts(dense) + SparseTexts(hits);
    var j :| 0 <= j < |keys| && keys[j] == t;
    var f := FusedCandidates(dense, hits, w);
    var sorted := SortByScore(f);
    assert f[j] in multiset(sorted);
    var i :| 0 <= i < |sorted| && sorted[i] == f[j];
    assert Fuse(dense, hits, w, topK) == sorted;
  }

  /** Ties keep first-insertion order: the returned rows with any one score are a prefix of the
      candidates with that score, taken in dict order (dense order, then new sparse texts). */
  lemma FuseTiesKeepInsertionOrder(dense: seq<DenseMatch>, hits: seq<SparseHit>, w: real, topK: int, v: real)
    requires AllHaveText(dense) && Normalizable(hits)
    ensures WithScore(Fuse(dense, hits, w, topK), v) <= WithScore(FusedCandidates(dense, hits, w), v)
  {
    var sorted := SortByScore(FusedCandidates(dense, hits, w));
    WithScorePrefix(sorted, SliceEnd(|sorted|, topK), v);
    SortKeepsTies(FusedCandidates(dense, hits, w), v);
  }

  /** Sparse normalisation: with non-negative scores and a positive maximum, every normalised
      score lies in [0, 1] and the best candidate scores exactly 1. */
  lemma NormalizedSparseBounds(hits: seq<SparseHit>)
    requires hits != [] && forall i :: 0 <= i < |hits| ==> hits[i].score >= 0.0
    requires MaxSparse(hits) > 0.0
    ensures forall i :: 0 <= i < |hits| ==> 0.0 <= hits[i].score / MaxSparse(hits) <= 1.0
    ensures exists i :: 0 <= i < |hits| && hits[i].score / MaxSparse(hits) == 1.0
  {
    var m := MaxSparse(hits);
    forall i | 0 <= i < |hits| ensures 0.0 <= hits[i].score / m <= 1.0 {
      assert HitScores(hits)[i] <= m;
      DivisionBounds(hits[i].score, m);
    }
    var i :| 0 <= i < |HitScores(hits)| && HitScores(hits)[i] == m;
    assert hits[i].score == m;
    DivisionBounds(m, m);
  }

  lemma DivisionBounds(x: real, m: real)
    requires 0.0 <= x <= m && m > 0.0
    ensures 0.0 <= x / m <= 1.0 && (x == m ==> x / m == 1.0)
  {
  }

  /** With `dense_weight = 1` sparse evidence contributes nothing; with `dense_weight = 0` dense
      evidence contributes nothing. */
  lemma ExtremeWeights(dense: seq<DenseMatch>, hits: seq<SparseHit>, t: string)
    requires AllHaveText(dense) && Normalizable(hits)
    ensures CombinedScore(dense, hits, 1.0, t) ==
      (if t in DenseTexts(dense) then LastDense(dense, t).value.score else 0.0)
    ensures CombinedScore(dense, hits, 0.0, t) ==
      (if t in SparseTexts(hits) then LastSparse(hits, t).value.score / MaxSparse(hits) else 0.0)
  {
  }

  /** A text repeated within the dense list takes the score and metadata of its last
      occurrence. */
  lemma {:induction false} LastDenseIsLast(dense: seq<DenseMatch>, t: string, i: nat)
    requires AllHaveText(dense) && i < |dense| && TextOf(dense[i].metadata) == t
    requires forall j :: i < j < |dense| ==> TextOf(dense[j].metadata) != t
    ensures LastDense(dense, t) == Some(dense[i])
    decreases |dense|
  {
    if i < |dense| - 1 {
      var init := dense[..|dense| - 1];
      assert init[i] == dense[i];
      LastDenseIsLast(init, t, i);
    }
  }

  /** A text repeated within the sparse hits takes the score and metadata of its last
      occurrence, the later assignment overwriting the earlier one. */
  lemma {:induction false} LastSparseIsLast(hits: seq<SparseHit>, t: string, i: nat)
    requires i < |hits| && hits[i].text == t
    requires forall j :: i < j < |hits| ==> hits[j].text != t
    ensures LastSparse(hits, t) == Some(hits[i])
    decreases |hits|
  {
    if i < |hits| - 1 {
      var init := hits[..|hits| - 1];
      assert init[i] == hits[i];
      LastSparseIsLast(init, t, i);
    }
  }

  /** The position of the first occurrence of `t` in `ts`. */
  function IndexOf(ts: seq<string>, t: string): (i: nat)
    requires t in ts
    ensures i < |ts| && ts[i] == t
    ensures forall j :: 0 <= j < i ==> ts[j] != t
    decreases |ts|
  {
    if ts[0] == t then 0 else 1 + IndexOf(ts[1..], t)
  }

  /** Appending does not move a first occurrence. */
  lemma {:induction false} IndexOfPrefix(ts: seq<string>, us: seq<string>, t: string)
    requires t in ts
    ensures t in ts + us && IndexOf(ts + us, t) == IndexOf(ts, t)
  {
    var i := IndexOf(ts, t);
    var k := IndexOf(ts + us, t);
    assert (ts + us)[i] == t;
    assert k <= i;
    assert ts[k] == (ts + us)[k];
  }

  /** The keys come in the order of their first occurrences in `ts`. */
  lemma {:induction false} FirstOccurrencesInOrder(ts: seq<string>)
    ensures forall i, j :: 0 <= i < j < |FirstOccurrences(ts)| ==>
      IndexOf(ts, FirstOccurrences(ts)[i]) < IndexOf(ts, FirstOccurrences(ts)[j])
    decreases |ts|
  {
    if ts != [] {
      var init, x := ts[..|ts| - 1], ts[|ts| - 1];
      assert ts == init + [x];
      FirstOccurrencesInOrder(init);
      InOrderSnoc(init, x);
    }
  }

  lemma InOrderSnoc(init: seq<string>, x: string)
    requires forall i, j :: 0 <= i < j < |FirstOccurrences(init)| ==>
      IndexOf(init, FirstOccurrences(init)[i]) < IndexOf(init, FirstOccurrences(init)[j])
    ensures forall i, j :: 0 <= i < j < |FirstOccurrences(init + [x])| ==>
      IndexOf(init + [x], FirstOccurrences(init + [x])[i]) < IndexOf(init + [x], FirstOccurrences(init + [x])[j])
  {
    var ts := init + [x];
    FirstOccurrencesSnoc(init, x);
    var d, r := FirstOccurrences(init), FirstOccurrences(ts);
    forall k | 0 <= k < |d| ensures IndexOf(ts, d[k]) == IndexOf(init, d[k]) {
      IndexOfPrefix(init, [x], d[k]);
    }
    if x !in init {
      NewLastIndex(init, x);
      assert r == d + [x];
      forall i, j | 0 <= i < j < |r| ensures IndexOf(ts, r[i]) < IndexOf(ts, r[j]) {
        assert r[i] == d[i];
        if j < |d| {
          assert r[j] == d[j];
        } else {
          assert r[j] == x;
        }
      }
    } else {
      assert r == d;
    }
  }

  /** A string new to `init` is first found at the end of `init + [x]`. */
  lemma NewLastIndex(init: seq<string>, x: string)
    requires x !in init
    ensures x in init + [x] && IndexOf(init + [x], x) == |init|
  {
    var ts := init + [x];
    assert ts[|init|] == x;
    assert forall j :: 0 <= j < |init| ==> ts[j] != x by {
      forall j | 0 <= j < |init| ensures ts[j] != x {
        assert ts[j] == init[j];
      }
    }
  }

  /** Every text the dense list returned comes before every text only BM25 found. */
  lemma CandidatesDenseFirst(dense: seq<DenseMatch>, hits: seq<SparseHit>)
    requires AllHaveText(dense)
    ensures var r := CandidateTexts(dense, hits);
      forall i, j :: 0 <= i < j < |r| && r[j] in DenseTexts(dense) ==> r[i] in DenseTexts(dense)
  {
    var d := DenseTexts(dense);
    var ts := d + SparseTexts(hits);
    var r := FirstOccurrences(ts);
    assert r == CandidateTexts(dense, hits);
    FirstOccurrencesInOrder(ts);
    forall i, j | 0 <= i < j < |r| && r[j] in d ensures r[i] in d {
      IndexOfPrefix(d, SparseTexts(hits), r[j]);
      assert r[i] in ts;
      var k := IndexOf(ts, r[i]);
      assert k < IndexOf(ts, r[j]);
      assert IndexOf(ts, r[j]) == IndexOf(d, r[j]) < |d|;
      assert ts[k] == d[k];
    }
  }

  // ----- hybrid retrieval ----------------------------------------------------------------------

  /** A value of the `combined_results` dict. */
  datatype Entry = Entry(dense: real, sparse: real, metadata: Meta)

  /** `hybrid_retrieval`: the sparse candidates are the top `2 * top_k` BM25 rows (returned as
      the ghost `sparse`, since their order among ties is open); the dense candidates are the
      matches the vector index returned. The result is the fused list of those candidates. */
  method HybridRetrieval(r: HybridRetriever, dense: seq<DenseMatch>, scores: seq<real>, topK: int, denseWeight: real)
    returns (results: seq<Fused>, ghost sparse: seq<SparseHit>)
    requires |scores| == |r.corpusTexts| && AllHaveText(dense)
    requires SliceEnd(|scores|, 2 * topK) == 0 || MaxOf(scores) != 0.0
    ensures IsSparseTopK(r.corpusTexts, scores, 2 * topK, sparse) && Normalizable(sparse)
    ensures results == Fuse(dense, sparse, denseWeight, topK)
    ensures topK >= 0 ==> |results| <= topK
    ensures |results| <= |dense| + SliceEnd(|scores|, 2 * topK)
    ensures DistinctTexts(results) && SortedByScore(results)
    ensures forall i :: 0 <= i < |results| ==> results[i].text in DenseTexts(dense) || results[i].text in r.corpusTexts
  {
    var sparseResults := SparseRetrieval(r, scores, 2 * topK);
    sparse := sparseResults;
    if sparseResults != [] {
      TopKKeepsMaximum(r.corpusTexts, scores, 2 * topK, sparseResults);
    }
    var combined: Dict<string, Entry> := EmptyDict();

    for i := 0 to |dense|
      invariant DenseStage(dense, denseWeight, i, combined)
    {
      DenseStageStep(dense, denseWeight, i, combined);
      var text := TextOf(dense[i].metadata);
      combined := combined.Put(text, Entry(Weigh(dense[i].score, denseWeight), 0.0, dense[i].metadata));
    }

    var maxSparseScore := MaxSparse(sparseResults);
    StageSwitch(dense, sparseResults, denseWeight, combined);
    for i := 0 to |sparseResults|
      invariant SparseStage(dense, sparseResults, denseWeight, i, combined)
    {
      SparseStageStep(dense, sparseResults, denseWeight, i, combined);
      var text := sparseResults[i].text;
      var normalized := sparseResults[i].score / maxSparseScore;
      if text in combined.entries {
        combined := combined.Put(text, combined.entries[text].(sparse := Weigh(normalized, 1.0 - denseWeight)));
      } else {
        combined := combined.Put(text, Entry(0.0, Weigh(normalized, 1.0 - denseWeight), map["text" := Str(text)]));
      }
    }

    FinalStage(dense, sparseResults, denseWeight, combined);
    var finalResults := CombinedRows(combined, FusedCandidates(dense, sparseResults, denseWeight));
    finalResults := SortByScore(finalResults);
    results := Take(finalResults, topK);
    HybridShape(r.corpusTexts, scores, dense, sparseResults, denseWeight, topK);
  }

  /** The fused list of the dense matches and a top-`2 * topK` BM25 selection: at most `topK`
      rows, distinct texts, sorted by score, every text from the dense matches or the corpus. */
  lemma HybridShape(corpus: seq<string>, scores: seq<real>, dense: seq<DenseMatch>, hits: seq<SparseHit>, w: real, topK: int)
    requires |scores| == |corpus| && AllHaveText(dense)
    requires IsSparseTopK(corpus, scores, 2 * topK, hits) && Normalizable(hits)
    ensures var results := Fuse(dense, hits, w, topK);
      && (topK >= 0 ==> |results| <= topK)
      && |results| <= |dense| + SliceEnd(|scores|, 2 * topK)
      && DistinctTexts(results) && SortedByScore(results)
      && forall i :: 0 <= i < |results| ==> results[i].text in DenseTexts(dense) || results[i].text in corpus
  {
    var results := Fuse(dense, hits, w, topK);
    FuseShape(dense, hits, w, topK);
    FuseRows(dense, hits, w, topK);
    forall i | 0 <= i < |results| && results[i].text !in DenseTexts(dense)
      ensures results[i].text in corpus
    {
      var j :| 0 <= j < |hits| && SparseTexts(hits)[j] == results[i].text;
      assert corpus[hits[j].index] == results[i].text;
    }
  }

  /** The loop building `final_results` from `combined_results.items()`: one row per key, in
      dict order, scored by the sum of its two parts; `expected` is what each row must be. */
  method CombinedRows(combined: Dict<string, Entry>, ghost expected: seq<Fused>) returns (rows: seq<Fused>)
    requires |combined.keys| == |expected|
    requires forall j :: 0 <= j < |combined.keys| ==>
      && combined.keys[j] in combined.entries
      && var e := combined.entries[combined.keys[j]];
         Fused(combined.keys[j], e.dense + e.sparse, e.metadata) == expected[j]
    ensures rows == expected
  {
    rows := [];
    for j := 0 to |combined.keys|
      invariant rows == expected[..j]
    {
      var text := combined.keys[j];
      var e := combined.entries[text];
      rows := rows + [Fused(text, e.dense + e.sparse, e.metadata)];
    }
  }

  /** The combined dict after the dense loop has seen `dense[..i]`. */
  ghost predicate DenseStage(dense: seq<DenseMatch>, w: real, i: nat, combined: Dict<string, Entry>)
    requires AllHaveText(dense) && i <= |dense|
  {
    && combined.Valid()
    && combined.keys == FirstOccurrences(DenseTexts(dense[..i]))
    && forall t :: t in combined.entries ==>
         combined.entries[t] == Entry(DensePart(dense[..i], w, t), 0.0, MetadataFor(dense[..i], t))
  }

  /** The combined dict after the sparse loop has also seen `hits[..i]`. */
  ghost predicate SparseStage(dense: seq<DenseMatch>, hits: seq<SparseHit>, w: real, i: nat, combined: Dict<string, Entry>)
    requires AllHaveText(dense) && i <= |hits| && Normalizable(hits)
  {
    && combined.Valid()
    && combined.keys == FirstOccurrences(DenseTexts(dense) + SparseTexts(hits[..i]))
    && forall t :: t in combined.entries ==>
         combined.entries[t] == Entry(DensePart(dense, w, t), SparsePart(hits[..i], MaxSparse(hits), w, t), MetadataFor(dense, t))
  }

  /** After both loops the dict yields the fused candidates, row by row. */
  lemma FinalStage(dense: seq<DenseMatch>, hits: seq<SparseHit>, w: real, combined: Dict<string, Entry>)
    requires AllHaveText(dense) && Normalizable(hits) && SparseStage(dense, hits, w, |hits|, combined)
    ensures |combined.keys| == |FusedCandidates(dense, hits, w)|
    ensures forall j :: 0 <= j < |combined.keys| ==>
      && combined.keys[j] in combined.entries
      && var e := combined.entries[combined.keys[j]];
         Fused(combined.keys[j], e.dense + e.sparse, e.metadata) == FusedCandidates(dense, hits, w)[j]
  {
    assert hits[..|hits|] == hits;
    assert combined.keys == CandidateTexts(dense, hits);
    forall j | 0 <= j < |combined.keys|
      ensures combined.keys[j] in combined.entries
      ensures var e := combined.entries[combined.keys[j]];
         Fused(combined.keys[j], e.dense + e.sparse, e.metadata) == FusedCandidates(dense, hits, w)[j]
    {
      assert combined.keys[j] in combined.keys;
    }
  }

  lemma FirstOccurrencesSnoc(ts: seq<string>, x: string)
    ensures FirstOccurrences(ts + [x]) == if x in ts then FirstOccurrences(ts) else FirstOccurrences(ts) + [x]
  {
    assert (ts + [x])[..|ts|] == ts;
  }

  lemma DenseStageStep(dense: seq<DenseMatch>, w: real, i: nat, combined: Dict<string, Entry>)
    requires AllHaveText(dense) && i < |dense| && DenseStage(dense, w, i, combined)
    ensures DenseStage(dense, w, i + 1,
      combined.Put(TextOf(dense[i].metadata), Entry(Weigh(dense[i].score, w), 0.0, dense[i].metadata)))
  {
    var text := TextOf(dense[i].metadata);
    var c2 := combined.Put(text, Entry(Weigh(dense[i].score, w), 0.0, dense[i].metadata));
    DenseStageKeys(dense, w, i, combined);
    DenseStageEntries(dense, w, i, combined);
  }

  lemma DenseStageKeys(dense: seq<DenseMatch>, w: real, i: nat, combined: Dict<string, Entry>)
    requires AllHaveText(dense) && i < |dense| && DenseStage(dense, w, i, combined)
    ensures combined.Put(TextOf(dense[i].metadata), Entry(Weigh(dense[i].score, w), 0.0, dense[i].metadata)).keys
         == FirstOccurrences(DenseTexts(dense[..i + 1]))
  {
    DenseKeysStep(dense, i, combined.keys);
  }

  lemma DenseStageEntries(dense: seq<DenseMatch>, w: real, i: nat, combined: Dict<string, Entry>)
    requires AllHaveText(dense) && i < |dense| && DenseStage(dense, w, i, combined)
    ensures var c2 := combined.Put(TextOf(dense[i].metadata), Entry(Weigh(dense[i].score, w), 0.0, dense[i].metadata));
            forall t :: t in c2.entries ==>
              c2.entries[t] == Entry(DensePart(dense[..i + 1], w, t), 0.0, MetadataFor(dense[..i + 1], t))
  {
    var text := TextOf(dense[i].metadata);
    var c2 := combined.Put(text, Entry(Weigh(dense[i].score, w), 0.0, dense[i].metadata));
    forall t | t in c2.entries
      ensures c2.entries[t] == Entry(DensePart(dense[..i + 1], w, t), 0.0, MetadataFor(dense[..i + 1], t))
    {
      if t == text {
        DenseEntryNew(dense, w, i, t);
      } else {
        DenseEntryKept(dense, w, i, t);
      }
    }
  }

  lemma DenseKeysStep(dense: seq<DenseMatch>, i: nat, keys: seq<string>)
    requires AllHaveText(dense) && i < |dense| && keys == FirstOccurrences(DenseTexts(dense[..i]))
    ensures var text := TextOf(dense[i].metadata);
      FirstOccurrences(DenseTexts(dense[..i + 1])) == if text in keys then keys else keys + [text]
  {
    DensePrefixStep(dense, i);
    FirstOccurrencesSnoc(DenseTexts(dense[..i]), TextOf(dense[i].metadata));
  }

  lemma DenseEntryNew(dense: seq<DenseMatch>, w: real, i: nat, t: string)
    requires AllHaveText(dense) && i < |dense| && t == TextOf(dense[i].metadata)
    ensures DensePart(dense[..i + 1], w, t) == Weigh(dense[i].score, w)
    ensures MetadataFor(dense[..i + 1], t) == dense[i].metadata
  {
    LastDensePrefixStep(dense, i, t);
  }

  lemma DenseEntryKept(dense: seq<DenseMatch>, w: real, i: nat, t: string)
    requires AllHaveText(dense) && i < |dense| && t != TextOf(dense[i].metadata)
    ensures DensePart(dense[..i + 1], w, t) == DensePart(dense[..i], w, t)
    ensures MetadataFor(dense[..i + 1], t) == MetadataFor(dense[..i], t)
  {
    LastDensePrefixStep(dense, i, t);
  }

  lemma DensePrefixStep(dense: seq<DenseMatch>, i: nat)
    requires AllHaveText(dense) && i < |dense|
    ensures DenseTexts(dense[..i + 1]) == DenseTexts(dense[..i]) + [TextOf(dense[i].metadata)]
  {
    assert dense[..i + 1][..i] == dense[..i];
  }

  lemma LastDensePrefixStep(dense: seq<DenseMatch>, i: nat, t: string)
    requires AllHaveText(dense) && i < |dense|
    ensures LastDense(dense[..i + 1], t) ==
            (if t == TextOf(dense[i].metadata) then Some(dense[i]) else LastDense(dense[..i], t))
  {
    assert dense[..i + 1][..i] == dense[..i];
  }

  lemma LastSparsePrefixStep(hits: seq<SparseHit>, i: nat, t: string)
    requires i < |hits|
    ensures LastSparse(hits[..i + 1], t) ==
            (if t == hits[i].text then Some(hits[i]) else LastSparse(hits[..i], t))
  {
    assert hits[..i + 1][..i] == hits[..i];
  }

  lemma StageSwitch(dense: seq<DenseMatch>, hits: seq<SparseHit>, w: real, combined: Dict<string, Entry>)
    requires AllHaveText(dense) && Normalizable(hits) && DenseStage(dense, w, |dense|, combined)
    ensures SparseStage(dense, hits, w, 0, combined)
  {
    assert dense[..|dense|] == dense;
    assert DenseTexts(dense) + SparseTexts(hits[..0]) == DenseTexts(dense);
  }

  lemma SparseStageStep(dense: seq<DenseMatch>, hits: seq<SparseHit>, w: real, i: nat, combined: Dict<string, Entry>)
    requires AllHaveText(dense) && Normalizable(hits) && i < |hits| && SparseStage(dense, hits, w, i, combined)
    ensures var text, part := hits[i].text, Weigh(hits[i].score / MaxSparse(hits), 1.0 - w);
      && (text in combined.entries ==>
            SparseStage(dense, hits, w, i + 1, combined.Put(text, combined.entries[text].(sparse := part))))
      && (text !in combined.entries ==>
            SparseStage(dense, hits, w, i + 1, combined.Put(text, Entry(0.0, part, map["text" := Str(text)]))))
  {
    var text, part := hits[i].text, Weigh(hits[i].score / MaxSparse(hits), 1.0 - w);
    var prev, next := hits[..i], hits[..i + 1];
    var ds := DenseTexts(dense);
    SparseKeysStep(ds, hits, i);
    assert text in combined.entries <==> text in ds + SparseTexts(prev);
    var c2 := if text in combined.entries then combined.Put(text, combined.entries[text].(sparse := part))
              else combined.Put(text, Entry(0.0, part, map["text" := Str(text)]));
    assert c2.keys == FirstOccurrences(ds + SparseTexts(next));
    forall t | t in c2.entries
      ensures c2.entries[t] == Entry(DensePart(dense, w, t), SparsePart(next, MaxSparse(hits), w, t), MetadataFor(dense, t))
    {
      LastSparsePrefixStep(hits, i, t);
      if t != text {
        assert c2.entries[t] == combined.entries[t];
      } else if text !in combined.entries {
        assert text !in ds;
      }
    }
  }

  lemma SparseKeysStep(ds: seq<string>, hits: seq<SparseHit>, i: nat)
    requires i < |hits|
    ensures ds + SparseTexts(hits[..i + 1]) == (ds + SparseTexts(hits[..i])) + [hits[i].text]
    ensures FirstOccurrences(ds + SparseTexts(hits[..i + 1])) ==
            if hits[i].text in ds + SparseTexts(hits[..i]) then FirstOccurrences(ds + SparseTexts(hits[..i]))
            else FirstOccurrences(ds + SparseTexts(hits[..i])) + [hits[i].text]
  {
    assert hits[..i + 1][..i] == hits[..i];
    assert SparseTexts(hits[..i + 1]) == SparseTexts(hits[..i]) + [hits[i].text];
    FirstOccurrencesSnoc(ds + SparseTexts(hits[..i]), hits[i].text);
  }
}
