/** The sentence-packing chunker: sentences are packed greedily into chunks under a token
    budget, and every chunk after the first starts with a short overlap taken from the end of
    the chunk before it. The sentence splitter and the token counter are given functions. */
module Chunker {
  import opened Wrappers
  import opened Metadata
  import Text

  /** A chunk dictionary `{'text', 'tokens', 'metadata'}`. */
  datatype Chunk = Chunk(text: string, tokens: int, metadata: Meta)

  /** The chunker's settings: `chunk_size`, `overlap`, the sentence splitter and the token
      counter (an encoder's length; no law about how counts of pieces add up is taken for granted). */
  datatype Chunker = Chunker(chunkSize: int, overlap: int, sentences: string -> seq<string>, countTokens: string -> nat)

  /** The default `chunk_size` and `overlap` of `IntelligentChunker()`. */
  const DefaultChunkSize := 1024
  const DefaultOverlap := 128

  /** `metadata or {}`. */
  function MetaOr(metadata: Option<Meta>): (m: Meta)
    ensures metadata.Some? ==> m == metadata.value
    ensures metadata.None? ==> m == map[]
  {
    if metadata.Some? then metadata.value else map[]
  }

  // ----- create_overlap ------------------------------------------------------------------------

  /** The sum of the token counts of `ss`. */
  function TokenSum(c: Chunker, ss: seq<string>): nat
    decreases |ss|
  {
    if ss == [] then 0 else TokenSum(c, ss[..|ss| - 1]) + c.countTokens(ss[|ss| - 1])
  }

  /** How many of `ss[..i]`, taken from the end, the overlap loop keeps when `acc` tokens are
      already taken: it stops at the first one that would pass the overlap budget. */
  function FitDown(c: Chunker, ss: seq<string>, i: nat, acc: int): (k: nat)
    requires i <= |ss|
    ensures k <= i
    decreases i
  {
    if i == 0 then 0
    else if acc + c.countTokens(ss[i - 1]) <= c.overlap then 1 + FitDown(c, ss, i - 1, acc + c.countTokens(ss[i - 1]))
    else 0
  }

  /** The number of trailing sentences the overlap keeps. */
  function FitCount(c: Chunker, ss: seq<string>): nat
  {
    FitDown(c, ss, |ss|, 0)
  }

  /** `xs[0] + " " + xs[1] + " " + ... + xs[n-1] + " "`. */
  function SpaceJoin(xs: seq<string>): string
  {
    if xs == [] then "" else xs[0] + " " + SpaceJoin(xs[1..])
  }

  /** `create_overlap(text)`: the kept trailing sentences in their original order, stripped. */
  function OverlapOf(c: Chunker, text: string): string
  {
    var ss := c.sentences(text);
    Text.Strip(SpaceJoin(ss[|ss| - FitCount(c, ss)..]))
  }

  /** The loop of `create_overlap`, walking the sentences from the end and stopping at the
      first one that does not fit. */
  method CreateOverlap(c: Chunker, text: string) returns (overlapText: string)
    ensures overlapText == OverlapOf(c, text)
    ensures Text.IsStripped(overlapText)
  {
    var ss := c.sentences(text);
    overlapText := "";
    var overlapTokens := 0;
    var i := |ss|;
    while i > 0
      invariant 0 <= i <= |ss|
      invariant overlapText == SpaceJoin(ss[i..])
      invariant FitCount(c, ss) == (|ss| - i) + FitDown(c, ss, i, overlapTokens)
      decreases i
    {
      var sentenceTokens := c.countTokens(ss[i - 1]);
      if overlapTokens + sentenceTokens <= c.overlap {
        assert ss[i - 1..] == [ss[i - 1]] + ss[i..];
        overlapText := ss[i - 1] + " " + overlapText;
        overlapTokens := overlapTokens + sentenceTokens;
        i := i - 1;
      } else {
        break;
      }
    }
    overlapText := Text.Strip(overlapText);
  }

  /** The greedy stop gives the longest run that fits: for `acc` tokens already taken, `j`
      sentences ending at `i` fit the budget exactly when `j` is at most what was kept. */
  lemma {:induction false} FitDownIsLongest(c: Chunker, ss: seq<string>, i: nat, acc: int, j: nat)
    requires i <= |ss| && 1 <= j <= i
    ensures acc + TokenSum(c, ss[i - j..i]) <= c.overlap <==> j <= FitDown(c, ss, i, acc)
    decreases i
  {
    var last := c.countTokens(ss[i - 1]);
    var run := ss[i - j..i];
    assert run[..|run| - 1] == ss[i - j..i - 1];
    assert TokenSum(c, run) == TokenSum(c, ss[i - j..i - 1]) + last;
    if acc + last <= c.overlap && j > 1 {
      FitDownIsLongest(c, ss, i - 1, acc + last, j - 1);
    }
  }

  /** `create_overlap` keeps the longest run of trailing sentences whose token sum is at most
      `overlap`. */
  lemma OverlapIsLongestFit(c: Chunker, ss: seq<string>, j: nat)
    requires 1 <= j <= |ss|
    ensures TokenSum(c, ss[|ss| - j..]) <= c.overlap <==> j <= FitCount(c, ss)
  {
    assert ss[|ss| - j..] == ss[|ss| - j..|ss|];
    FitDownIsLongest(c, ss, |ss|, 0, j);
  }

  /** The overlap is empty when the last sentence alone is over the budget. */
  lemma OverlapEmptyWhenLastTooBig(c: Chunker, text: string)
    requires var ss := c.sentences(text); ss != [] && c.countTokens(ss[|ss| - 1]) > c.overlap
    ensures OverlapOf(c, text) == ""
  {
    var ss := c.sentences(text);
    assert ss[|ss|..] == [];
  }

  // ----- semantic_chunking ---------------------------------------------------------------------

  /** The loop state: `chunks`, `current_chunk` and `current_tokens`. */
  datatype PackState = PackState(chunks: seq<Chunk>, current: string, tokens: int)

  /** The running chunk is flushed before `s` when `s` would pass the budget and the running
      chunk is not the empty string. */
  predicate Flushes(c: Chunker, st: PackState, s: string)
  {
    st.tokens + c.countTokens(s) > c.chunkSize && st.current != ""
  }

  /** The flush before `s`: the running chunk, stripped, becomes a chunk, and the new running
      chunk is its overlap followed by `s`. */
  function Flush(c: Chunker, md: Meta, st: PackState, s: string): PackState
  {
    var next := OverlapOf(c, st.current) + " " + s;
    PackState(st.chunks + [Chunk(Text.Strip(st.current), st.tokens, md)], next, c.countTokens(next))
  }

  /** One iteration of the loop for sentence `s`. */
  function Step(c: Chunker, md: Meta, st: PackState, s: string): PackState
  {
    if Flushes(c, st, s) then Flush(c, md, st, s)
    else PackState(st.chunks, st.current + " " + s, st.tokens + c.countTokens(s))
  }

  /** The loop state after the sentences `ss`, from `chunks = []`, `current_chunk = ""`. */
  function Run(c: Chunker, md: Meta, ss: seq<string>): PackState
    decreases |ss|
  {
    if ss == [] then PackState([], "", 0) else Step(c, md, Run(c, md, ss[..|ss| - 1]), ss[|ss| - 1])
  }

  /** The chunks after the loop, with the final chunk added when it is not blank. */
  function Finish(md: Meta, st: PackState): seq<Chunk>
  {
    if Text.Strip(st.current) != "" then st.chunks + [Chunk(Text.Strip(st.current), st.tokens, md)]
    else st.chunks
  }

  /** The result of `semantic_chunking(text, metadata)`. */
  function Pack(c: Chunker, text: string, md: Meta): seq<Chunk>
  {
    Finish(md, Run(c, md, c.sentences(text)))
  }

  /** `semantic_chunking`. */
  method SemanticChunking(c: Chunker, text: string, metadata: Option<Meta>) returns (chunks: seq<Chunk>)
    ensures chunks == Pack(c, text, MetaOr(metadata))
  {
    var sentences := c.sentences(text);
    var md := MetaOr(metadata);
    chunks := [];
    var currentChunk := "";
    var currentTokens := 0;
    for i := 0 to |sentences|
      invariant Run(c, md, sentences[..i]) == PackState(chunks, currentChunk, currentTokens)
    {
      RunSnoc(c, md, sentences, i);
      ghost var before := PackState(chunks, currentChunk, currentTokens);
      var sentence := sentences[i];
      var sentenceTokens := c.countTokens(sentence);
      if currentTokens + sentenceTokens > c.chunkSize && currentChunk != "" {
        chunks := chunks + [Chunk(Text.Strip(currentChunk), currentTokens, md)];
        var overlapText := CreateOverlap(c, currentChunk);
        currentChunk := overlapText + " " + sentence;
        currentTokens := c.countTokens(currentChunk);
      } else {
        currentChunk := currentChunk + " " + sentence;
        currentTokens := currentTokens + sentenceTokens;
      }
      assert PackState(chunks, currentChunk, currentTokens) == Step(c, md, before, sentence);
    }
    assert sentences[..|sentences|] == sentences;
    if Text.Strip(currentChunk) != "" {
      chunks := chunks + [Chunk(Text.Strip(currentChunk), currentTokens, md)];
    }
  }

  lemma RunSnoc(c: Chunker, md: Meta, ss: seq<string>, i: nat)
    requires i < |ss|
    ensures Run(c, md, ss[..i + 1]) == Step(c, md, Run(c, md, ss[..i]), ss[i])
  {
    assert ss[..i + 1][..i] == ss[..i];
  }

  // ----- properties of the packing -------------------------------------------------------------

  /** No sentences, no chunks. */
  lemma PackOfNoSentences(c: Chunker, text: string, md: Meta)
    requires c.sentences(text) == []
    ensures Pack(c, text, md) == []
  {
  }

  /** Every flush needs a non-empty running chunk, and the running chunk is non-empty after
      any sentence: at most one chunk per sentence, counting the running one. */
  lemma {:induction false} RunBound(c: Chunker, md: Meta, ss: seq<string>)
    ensures var st := Run(c, md, ss); |st.chunks| + (if st.current == "" then 0 else 1) <= |ss|
    decreases |ss|
  {
    if ss != [] {
      RunBound(c, md, ss[..|ss| - 1]);
    }
  }

  /** There are never more chunks than sentences. */
  lemma PackBound(c: Chunker, text: string, md: Meta)
    ensures |Pack(c, text, md)| <= |c.sentences(text)|
  {
    RunBound(c, md, c.sentences(text));
  }

  predicate WellFormed(chunks: seq<Chunk>, md: Meta)
  {
    forall i :: 0 <= i < |chunks| ==> Text.IsStripped(chunks[i].text) && chunks[i].metadata == md
  }

  lemma {:induction false} RunWellFormed(c: Chunker, md: Meta, ss: seq<string>)
    ensures WellFormed(Run(c, md, ss).chunks, md)
    decreases |ss|
  {
    if ss != [] {
      RunWellFormed(c, md, ss[..|ss| - 1]);
      StepWellFormed(c, md, Run(c, md, ss[..|ss| - 1]), ss[|ss| - 1]);
    }
  }

  lemma StepWellFormed(c: Chunker, md: Meta, st: PackState, s: string)
    requires WellFormed(st.chunks, md)
    ensures WellFormed(Step(c, md, st, s).chunks, md)
  {
    StepChunks(c, md, st, s);
    if Flushes(c, st, s) {
      WellFormedAppend(st.chunks, Chunk(Text.Strip(st.current), st.tokens, md), md);
    }
  }

  /** A step adds the flushed chunk, or nothing. */
  lemma StepChunks(c: Chunker, md: Meta, st: PackState, s: string)
    ensures Step(c, md, st, s).chunks
         == if Flushes(c, st, s) then st.chunks + [Chunk(Text.Strip(st.current), st.tokens, md)] else st.chunks
  {
  }

  lemma WellFormedAppend(chunks: seq<Chunk>, ch: Chunk, md: Meta)
    requires WellFormed(chunks, md) && Text.IsStripped(ch.text) && ch.metadata == md
    ensures WellFormed(chunks + [ch], md)
  {
    assert forall i :: 0 <= i < |chunks| ==> (chunks + [ch])[i] == chunks[i];
  }

  /** Every chunk's text is stripped and carries the caller's metadata (`{}` for None). */
  lemma PackWellFormed(c: Chunker, text: string, metadata: Option<Meta>)
    ensures WellFormed(Pack(c, text, MetaOr(metadata)), MetaOr(metadata))
  {
    var st := Run(c, MetaOr(metadata), c.sentences(text));
    RunWellFormed(c, MetaOr(metadata), c.sentences(text));
    if Text.Strip(st.current) != "" {
      WellFormedAppend(st.chunks, Chunk(Text.Strip(st.current), st.tokens, MetaOr(metadata)), MetaOr(metadata));
    }
  }

  /** `" " + s_1 + " " + s_2 + ...`, the running chunk built by accumulation alone. */
  function Accumulated(ss: seq<string>): string
    decreases |ss|
  {
    if ss == [] then "" else Accumulated(ss[..|ss| - 1]) + " " + ss[|ss| - 1]
  }

  /** Sentences whose token counts sum to at most `chunk_size` are never flushed: the running
      chunk is their accumulation and its token count is the sum of theirs. */
  lemma {:induction false} RunWithinBudget(c: Chunker, md: Meta, ss: seq<string>)
    requires TokenSum(c, ss) <= c.chunkSize
    ensures Run(c, md, ss) == PackState([], Accumulated(ss), TokenSum(c, ss))
    decreases |ss|
  {
    if ss != [] {
      RunWithinBudget(c, md, ss[..|ss| - 1]);
    }
  }

  /** A sentence that fits joins the running chunk. */
  lemma AccumulateStep(c: Chunker, md: Meta, st: PackState, s: string)
    requires st.tokens + c.countTokens(s) <= c.chunkSize
    ensures Step(c, md, st, s) == PackState(st.chunks, st.current + " " + s, st.tokens + c.countTokens(s))
  {
  }

  /** The loop state after the sentences `ts`, starting from the state `st`. */
  function Steps(c: Chunker, md: Meta, st: PackState, ts: seq<string>): PackState
    decreases |ts|
  {
    if ts == [] then st else Step(c, md, Steps(c, md, st, ts[..|ts| - 1]), ts[|ts| - 1])
  }

  /** Running over `ss + ts` is running over `ts` from where `ss` left the loop. */
  lemma {:induction false} RunAppend(c: Chunker, md: Meta, ss: seq<string>, ts: seq<string>)
    ensures Run(c, md, ss + ts) == Steps(c, md, Run(c, md, ss), ts)
    decreases |ts|
  {
    if ts == [] {
      assert ss + ts == ss;
    } else {
      var init := ts[..|ts| - 1];
      RunAppend(c, md, ss, init);
      assert (ss + ts)[..|ss + ts| - 1] == ss + init;
      assert (ss + ts)[|ss + ts| - 1] == ts[|ts| - 1];
    }
  }

  /** From any loop state, sentences that fit in what is left of the budget are all
      accumulated into the running chunk, with no flush. */
  lemma {:induction false} AccumulateFrom(c: Chunker, md: Meta, st: PackState, ts: seq<string>)
    requires st.tokens + TokenSum(c, ts) <= c.chunkSize
    ensures Steps(c, md, st, ts) == PackState(st.chunks, st.current + Accumulated(ts), st.tokens + TokenSum(c, ts))
    decreases |ts|
  {
    if ts != [] {
      var init, x := ts[..|ts| - 1], ts[|ts| - 1];
      AccumulateFrom(c, md, st, init);
      var mid := Steps(c, md, st, init);
      AccumulateStep(c, md, mid, x);
      assert st.current + Accumulated(ts) == (st.current + Accumulated(init)) + " " + x;
    }
  }

  /** After any prefix, further sentences that fit in what is left of the budget are all
      accumulated into the running chunk, with no flush. */
  lemma AccumulateAfter(c: Chunker, md: Meta, ss: seq<string>, ts: seq<string>)
    requires Run(c, md, ss).tokens + TokenSum(c, ts) <= c.chunkSize
    ensures var st := Run(c, md, ss);
      Run(c, md, ss + ts) == PackState(st.chunks, st.current + Accumulated(ts), st.tokens + TokenSum(c, ts))
  {
    RunAppend(c, md, ss, ts);
    AccumulateFrom(c, md, Run(c, md, ss), ts);
  }

  /** A lone sentence forms one chunk whatever its size: the first sentence is never flushed. */
  lemma LoneSentence(c: Chunker, text: string, md: Meta, s: string)
    requires c.sentences(text) == [s] && !Text.AllSpace(s)
    ensures Pack(c, text, md) == [Chunk(Text.Strip(s), c.countTokens(s), md)]
  {
    var ss := c.sentences(text);
    assert ss[..0] == [];
    var init := PackState([], "", 0);
    assert Run(c, md, ss) == Step(c, md, init, s);
    assert !Flushes(c, init, s);
    assert Run(c, md, ss) == PackState([], " " + s, c.countTokens(s));
    Text.StripAfterBlank(s);
    Text.StripEmptyIffAllSpace(s);
  }

  lemma BlankConcat(a: string, b: string)
    ensures Text.AllSpace(a + b) <==> Text.AllSpace(a) && Text.AllSpace(b)
  {
    if Text.AllSpace(a + b) {
      forall i | 0 <= i < |a| ensures Text.IsSpace(a[i]) { assert (a + b)[i] == a[i]; }
      forall i | 0 <= i < |b| ensures Text.IsSpace(b[i]) { assert (a + b)[|a| + i] == b[i]; }
    }
  }

  /** Some chunk so far or the running chunk holds a non-blank character. */
  predicate HasContent(st: PackState)
  {
    !Text.AllSpace(st.current) || exists i :: 0 <= i < |st.chunks| && st.chunks[i].text != ""
  }

  lemma StepKeepsContent(c: Chunker, md: Meta, st: PackState, s: string)
    requires HasContent(st) || !Text.AllSpace(s)
    ensures HasContent(Step(c, md, st, s))
  {
    if Flushes(c, st, s) {
      var next := OverlapOf(c, st.current) + " " + s;
      var flushed := Chunk(Text.Strip(st.current), st.tokens, md);
      FlushKeepsContent(st, s, OverlapOf(c, st.current), flushed);
      assert Step(c, md, st, s) == PackState(st.chunks + [flushed], next, c.countTokens(next));
    } else {
      AccumulateKeepsContent(st, s);
      assert Step(c, md, st, s) == PackState(st.chunks, st.current + " " + s, st.tokens + c.countTokens(s));
    }
  }

  lemma FlushKeepsContent(st: PackState, s: string, ov: string, flushed: Chunk)
    requires HasContent(st) || !Text.AllSpace(s)
    requires flushed.text == Text.Strip(st.current)
    ensures forall n :: HasContent(PackState(st.chunks + [flushed], ov + " " + s, n))
  {
    var chunks := st.chunks + [flushed];
    BlankConcat(ov + " ", s);
    Text.StripEmptyIffAllSpace(st.current);
    if !Text.AllSpace(st.current) {
      assert chunks[|st.chunks|].text != "";
    } else if Text.AllSpace(s) {
      var i :| 0 <= i < |st.chunks| && st.chunks[i].text != "";
      assert chunks[i] == st.chunks[i];
    }
  }

  lemma AccumulateKeepsContent(st: PackState, s: string)
    requires HasContent(st) || !Text.AllSpace(s)
    ensures forall n :: HasContent(PackState(st.chunks, st.current + " " + s, n))
  {
    BlankConcat(st.current + " ", s);
    BlankConcat(st.current, " ");
  }

  lemma {:induction false} RunKeepsContent(c: Chunker, md: Meta, ss: seq<string>, j: nat)
    requires j < |ss| && !Text.AllSpace(ss[j])
    ensures HasContent(Run(c, md, ss))
    decreases |ss|
  {
    var init := ss[..|ss| - 1];
    if j < |ss| - 1 {
      assert init[j] == ss[j];
      RunKeepsContent(c, md, init, j);
    }
    StepKeepsContent(c, md, Run(c, md, init), ss[|ss| - 1]);
  }

  /** A non-blank sentence is never lost: some chunk then has non-blank text, since the final
      running chunk is emitted whenever it is not blank. */
  lemma NonBlankSentenceGivesChunk(c: Chunker, text: string, md: Meta, j: nat)
    requires j < |c.sentences(text)| && !Text.AllSpace(c.sentences(text)[j])
    ensures exists i :: 0 <= i < |Pack(c, text, md)| && Pack(c, text, md)[i].text != ""
  {
    var st := Run(c, md, c.sentences(text));
    RunKeepsContent(c, md, c.sentences(text), j);
    Text.StripEmptyIffAllSpace(st.current);
    var r := Pack(c, text, md);
    if !Text.AllSpace(st.current) {
      assert r[|st.chunks|].text != "";
    } else {
      var i :| 0 <= i < |st.chunks| && st.chunks[i].text != "";
      assert r[i] == st.chunks[i];
    }
  }

  // ----- blank input ---------------------------------------------------------------------------

  /** No chunk so far has text, and the running chunk is blank. */
  predicate AllBlank(st: PackState)
  {
    (forall i :: 0 <= i < |st.chunks| ==> st.chunks[i].text == "") && Text.AllSpace(st.current)
  }

  /** The splitter finds no sentence in blank text, as a sentence tokenizer does. */
  ghost predicate BlankHasNoSentences(c: Chunker)
  {
    forall t :: Text.AllSpace(t) ==> c.sentences(t) == []
  }

  lemma StepKeepsBlank(c: Chunker, md: Meta, st: PackState, s: string)
    requires AllBlank(st) && Text.AllSpace(s) && c.sentences(st.current) == []
    ensures AllBlank(Step(c, md, st, s))
  {
    if Flushes(c, st, s) {
      var next := OverlapOf(c, st.current) + " " + s;
      var flushed := Chunk(Text.Strip(st.current), st.tokens, md);
      Text.StripEmptyIffAllSpace(st.current);
      NoOverlapOfBlank(c, st.current);
      BlankNext(OverlapOf(c, st.current), s);
      FlushKeepsBlank(st, flushed, next, c.countTokens(next));
      assert Step(c, md, st, s) == PackState(st.chunks + [flushed], next, c.countTokens(next));
    } else {
      AccumulateKeepsBlank(st, s);
      assert Step(c, md, st, s) == PackState(st.chunks, st.current + " " + s, st.tokens + c.countTokens(s));
    }
  }

  /** Text without sentences has an empty overlap. */
  lemma NoOverlapOfBlank(c: Chunker, t: string)
    requires c.sentences(t) == []
    ensures OverlapOf(c, t) == ""
  {
    var ss := c.sentences(t);
    var kept := ss[|ss| - FitCount(c, ss)..];
    assert kept == [];
    assert SpaceJoin(kept) == "";
    Text.StripOfStripped("");
  }

  lemma FlushKeepsBlank(st: PackState, flushed: Chunk, next: string, n: int)
    requires AllBlank(st) && flushed.text == "" && Text.AllSpace(next)
    ensures AllBlank(PackState(st.chunks + [flushed], next, n))
  {
    var chunks := st.chunks + [flushed];
    forall i | 0 <= i < |chunks| ensures chunks[i].text == "" {
      if i < |st.chunks| {
        assert chunks[i] == st.chunks[i];
      }
    }
  }

  /** After a flush with an empty overlap, the new running chunk is a blank and `s`. */
  lemma BlankNext(ov: string, s: string)
    requires ov == "" && Text.AllSpace(s)
    ensures Text.AllSpace(ov + " " + s)
  {
    assert ov + " " + s == " " + s;
    assert Text.IsSpace(" "[0]);
    BlankConcat(" ", s);
  }

  lemma AccumulateKeepsBlank(st: PackState, s: string)
    requires AllBlank(st) && Text.AllSpace(s)
    ensures forall n :: AllBlank(PackState(st.chunks, st.current + " " + s, n))
  {
    BlankConcat(st.current + " ", s);
    BlankConcat(st.current, " ");
  }

  lemma {:induction false} RunKeepsBlank(c: Chunker, md: Meta, ss: seq<string>)
    requires BlankHasNoSentences(c)
    requires forall k :: 0 <= k < |ss| ==> Text.AllSpace(ss[k])
    ensures AllBlank(Run(c, md, ss))
    decreases |ss|
  {
    if ss != [] {
      var init := ss[..|ss| - 1];
      assert forall k :: 0 <= k < |init| ==> init[k] == ss[k];
      RunKeepsBlank(c, md, init);
      assert c.sentences(Run(c, md, init).current) == [];
      StepKeepsBlank(c, md, Run(c, md, init), ss[|ss| - 1]);
    }
  }

  /** With only blank sentences, every chunk produced has empty text: the final blank chunk is
      dropped, but a blank running chunk over the budget is still flushed by the loop. */
  lemma AllBlankGivesBlankChunks(c: Chunker, text: string, md: Meta)
    requires BlankHasNoSentences(c)
    requires forall k :: 0 <= k < |c.sentences(text)| ==> Text.AllSpace(c.sentences(text)[k])
    ensures forall i :: 0 <= i < |Pack(c, text, md)| ==> Pack(c, text, md)[i].text == ""
  {
    var st := Run(c, md, c.sentences(text));
    RunKeepsBlank(c, md, c.sentences(text));
    Text.StripEmptyIffAllSpace(st.current);
  }

  /** A chunker with budget 5, no overlap, a splitter that finds two blank sentences in any
      text that is not blank, and 10 tokens for any text. */
  function BlankProbe(): (c: Chunker)
    ensures BlankHasNoSentences(c)
  {
    Chunker(5, 0, t => if Text.AllSpace(t) then [] else [" ", " "], t => 10)
  }

  /** Input whose sentences are all blank can still yield a chunk: two blank sentences of 10
      tokens each under a budget of 5 flush the first as a chunk with empty text. */
  lemma BlankSentencesCanFlush()
    ensures Pack(BlankProbe(), "x", map[]) == [Chunk("", 10, map[])]
  {
    var c := BlankProbe();
    var ss := c.sentences("x");
    BlankProbeSentences();
    assert ss[..|ss| - 1] == [" "];
    var st1 := Run(c, map[], [" "]);
    BlankProbeFirstStep();
    assert Text.AllSpace("  ") by {
      assert Text.IsSpace("  "[0]) && Text.IsSpace("  "[1]);
    }
    assert c.sentences("  ") == [];
    Text.StripEmptyIffAllSpace("  ");
    NoOverlapOfBlank(c, "  ");
    assert Flushes(c, st1, " ");
    assert "" + " " + " " == "  ";
    assert Run(c, map[], ss) == Step(c, map[], st1, " ");
  }

  lemma BlankProbeSentences()
    ensures BlankProbe().sentences("x") == [" ", " "]
  {
    assert !Text.AllSpace("x") by {
      assert !Text.IsSpace("x"[0]);
    }
  }

  lemma BlankProbeFirstStep()
    ensures Run(BlankProbe(), map[], [" "]) == PackState([], "  ", 10)
  {
    var c := BlankProbe();
    assert [" "][..0] == [];
    var st0 := Run(c, map[], []);
    assert !Flushes(c, st0, " ");
    assert "" + " " + " " == "  ";
  }
}
