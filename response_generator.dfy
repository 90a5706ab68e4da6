/** Prompt assembly under a character budget, and the confidence rule applied to a generated
    answer (app/response_generator.py). The language model itself is not modelled. */
module ResponseGenerator {
  import opened Text
  import opened PySeq
  import Retriever

  /** Characters of a passage's text that go into its snippet: `text[:500]`. */
  const SnippetTextLimit := 500

  /** The snippet for the `i`-th retrieved passage, numbered from 1. */
  function Snippet(i: nat, text: string): string
  {
    "Document " + NatToString(i + 1) + ": " + Take(text, SnippetTextLimit) + "...\n\n"
  }

  /** One snippet per retrieved passage, in retrieval order. */
  function Snippets(contexts: seq<Retriever.Fused>): (ss: seq<string>)
    ensures |ss| == |contexts|
    ensures forall i :: 0 <= i < |ss| ==> ss[i] == Snippet(i, contexts[i].text)
  {
    seq(|contexts|, i requires 0 <= i < |contexts| => Snippet(i, contexts[i].text))
  }

  /** The first `j + 1` snippets together fit in `budget` characters. */
  predicate FitsWith(ss: seq<string>, budget: int, j: nat)
    requires j < |ss|
  {
    |Concat(ss[..j + 1])| <= budget
  }

  /** Starting at snippet `k`, the index of the first snippet that would overflow the budget,
      or `|ss|` when none does. */
  function FitCount(ss: seq<string>, budget: int, k: nat): (n: nat)
    requires k <= |ss|
    ensures k <= n <= |ss|
    ensures forall j :: k <= j < n ==> FitsWith(ss, budget, j)
    ensures n < |ss| ==> !FitsWith(ss, budget, n)
    decreases |ss| - k
  {
    if k == |ss| || !FitsWith(ss, budget, k) then k else FitCount(ss, budget, k + 1)
  }

  /** The `context_text` that `create_rag_prompt` accumulates. */
  function ContextText(contexts: seq<Retriever.Fused>, budget: int): string
  {
    var ss := Snippets(contexts);
    Concat(ss[..FitCount(ss, budget, 0)])
  }

  const PromptHead := "Based on the following policy documents, answer the user's question accurately and cite specific clauses where applicable.\n\nPOLICY DOCUMENTS:\n"

  const QuestionLabel := "USER QUESTION: "

  const PromptTail := "\n\nINSTRUCTIONS:\n1. Provide a clear, direct answer\n2. Cite specific document sections that support your answer\n3. If information is insufficient, state this clearly\n4. Use the format: \"According to Document X, [specific clause/information]\"\n\nANSWER:"

  /** The prompt template filled with the context text and the query. */
  function Prompt(query: string, contextText: string): string
  {
    Fill(PromptHead, contextText, QuestionLabel, query, PromptTail)
  }

  /** The layout of the prompt: header, context, a blank line, the labelled question, the rest. */
  function Fill(head: string, contextText: string, marker: string, query: string, tail: string): string
  {
    head + (contextText + ("\n\n" + ((marker + query) + tail)))
  }

  /** `create_rag_prompt(query, retrieved_contexts, max_context_length)`. */
  method CreateRagPrompt(query: string, contexts: seq<Retriever.Fused>, maxContextLength: int)
    returns (prompt: string)
    ensures prompt == Prompt(query, ContextText(contexts, maxContextLength))
  {
    ghost var ss := Snippets(contexts);
    var contextText := "";
    var currentLength := 0;
    var i := 0;
    while i < |contexts|
      invariant i <= |contexts|
      invariant contextText == Concat(ss[..i]) && currentLength == |contextText|
      invariant FitCount(ss, maxContextLength, i) == FitCount(ss, maxContextLength, 0)
    {
      var snippet := Snippet(i, contexts[i].text);
      assert ss[..i + 1] == ss[..i] + [snippet];
      ConcatSnoc(ss[..i], snippet);
      if currentLength + |snippet| > maxContextLength {
        break;
      }
      contextText := contextText + snippet;
      currentLength := currentLength + |snippet|;
      i := i + 1;
    }
    prompt := Prompt(query, contextText);
  }

  /** The context text never exceeds the budget; a negative budget admits no snippet. */
  lemma ContextWithinBudget(contexts: seq<Retriever.Fused>, budget: int)
    ensures budget >= 0 ==> |ContextText(contexts, budget)| <= budget
    ensures budget < 0 ==> ContextText(contexts, budget) == []
  {
    var ss := Snippets(contexts);
    var n := FitCount(ss, budget, 0);
    if n > 0 {
      assert FitsWith(ss, budget, n - 1);
      if budget < 0 {
        assert false;
      }
    } else {
      assert ss[..n] == [];
    }
  }

  lemma {:induction false} FitCountFrom(ss: seq<string>, budget: int, k: nat, n: nat)
    requires k <= n <= |ss|
    requires forall j :: k <= j < n ==> FitsWith(ss, budget, j)
    requires n < |ss| ==> !FitsWith(ss, budget, n)
    ensures FitCount(ss, budget, k) == n
    decreases n - k
  {
    if k < n {
      FitCountFrom(ss, budget, k + 1, n);
    }
  }

  /** The included snippets are exactly those before the first one that overflows: the loop
      stops there even when later, shorter snippets would still fit. */
  lemma StopsAtFirstOverflow(contexts: seq<Retriever.Fused>, budget: int, n: nat)
    requires n <= |contexts|
    requires forall j :: 0 <= j < n ==> FitsWith(Snippets(contexts), budget, j)
    requires n < |contexts| ==> !FitsWith(Snippets(contexts), budget, n)
    ensures ContextText(contexts, budget) == Concat(Snippets(contexts)[..n])
  {
    FitCountFrom(Snippets(contexts), budget, 0, n);
  }

  /** Snippet `i` reads "Document ", then the decimal numeral of `i + 1`, then ": ", then at
      most the first 500 characters of the text, then "...\n\n". */
  lemma SnippetNumbering(i: nat, text: string)
    ensures var s := Snippet(i, text);
            var d := NatToString(i + 1);
            var m := if |text| < SnippetTextLimit then |text| else SnippetTextLimit;
            |s| == 9 + |d| + 2 + m + 5 &&
            s[..9] == "Document " &&
            DecimalValue(s[9..9 + |d|]) == i + 1 &&
            s[9 + |d|..11 + |d|] == ": " &&
            s[11 + |d|..11 + |d| + m] == text[..m] &&
            EndsWith(s, "...\n\n")
  {
    var d := NatToString(i + 1);
    var s := Snippet(i, text);
    assert s[9..9 + |d|] == d;
    NatToStringRoundTrip(i + 1);
  }

  /** The query appears verbatim in the prompt, right after "USER QUESTION: ". */
  lemma PromptHasQuestion(query: string, contextText: string)
    ensures Contains(Prompt(query, contextText), QuestionLabel + query)
  {
    FillHasQuestion(PromptHead, contextText, QuestionLabel, query, PromptTail);
  }

  lemma FillHasQuestion(head: string, contextText: string, marker: string, query: string, tail: string)
    ensures Contains(Fill(head, contextText, marker, query, tail), marker + query)
  {
    ContainsPrefix(marker + query, tail);
    ContainsAfter("\n\n", (marker + query) + tail, marker + query);
    ContainsAfter(contextText, "\n\n" + ((marker + query) + tail), marker + query);
    ContainsAfter(head, contextText + ("\n\n" + ((marker + query) + tail)), marker + query);
  }

  /** The context text appears verbatim in the prompt, after the header. */
  lemma PromptHasContext(query: string, contextText: string)
    ensures Contains(Prompt(query, contextText), contextText)
  {
    FillHasContext(PromptHead, contextText, QuestionLabel, query, PromptTail);
  }

  lemma FillHasContext(head: string, contextText: string, marker: string, query: string, tail: string)
    ensures Contains(Fill(head, contextText, marker, query, tail), contextText)
  {
    ContainsPrefix(contextText, "\n\n" + ((marker + query) + tail));
    ContainsAfter(head, contextText + ("\n\n" + ((marker + query) + tail)), contextText);
  }

  /** The dictionary `validate_response` returns. */
  datatype Validation = Validation(response: string, confidence: real, hasCitations: bool, adequateLength: bool)

  const CitationPhrases := ["according to document", "document", "policy states"]

  /** `validate_response(response, retrieved_contexts)`; the contexts are not consulted. */
  function ValidateResponse(response: string, contexts: seq<Retriever.Fused>): (v: Validation)
    ensures v.response == response
    ensures v.hasCitations <==> Contains(Lower(response), "document") || Contains(Lower(response), "policy states")
    ensures v.adequateLength <==> |Split(response)| > 10
    ensures v.confidence == 1.0 <==> v.hasCitations && v.adequateLength
    ensures v.confidence == 0.8 <==> v.hasCitations && !v.adequateLength
    ensures v.confidence == 0.7 <==> !v.hasCitations && v.adequateLength
    ensures v.confidence == 0.5 <==> !v.hasCitations && !v.adequateLength
    ensures v.confidence in {0.5, 0.7, 0.8, 1.0}
  {
    var lowered := Lower(response);
    var hasCitations := exists k :: 0 <= k < |CitationPhrases| && Contains(lowered, CitationPhrases[k]);
    CitationsByDocumentOrPolicy(lowered);
    var adequateLength := |Split(response)| > 10;
    var confidence := 0.5 + (if hasCitations then 0.3 else 0.0) + (if adequateLength then 0.2 else 0.0);
    Validation(response, confidence, hasCitations, adequateLength)
  }

  /** "according to document" ends in "document", so it never decides the outcome on its own. */
  lemma CitationsByDocumentOrPolicy(lowered: string)
    ensures (exists k :: 0 <= k < |CitationPhrases| && Contains(lowered, CitationPhrases[k]))
        <==> Contains(lowered, "document") || Contains(lowered, "policy states")
  {
    if Contains(lowered, CitationPhrases[0]) {
      assert CitationPhrases[0] == "according to " + "document";
      ContainsTail(lowered, "according to ", "document");
    }
    if Contains(lowered, "document") {
      assert Contains(lowered, CitationPhrases[1]);
    }
    if Contains(lowered, "policy states") {
      assert Contains(lowered, CitationPhrases[2]);
    }
  }
}
