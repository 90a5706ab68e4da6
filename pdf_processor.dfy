/** Text extraction from PDF files (app/pdf_processor.py). The PDF libraries are replaced by
    their outcomes: the element list `partition` yields, and whether `extract_text` succeeded. */
module PdfProcessor {
  import opened Wrappers

  /** An element `partition` yields: its category and its text, `str(element)`. */
  datatype Element = Element(category: string, text: string)

  /** The dictionary `extract_with_unstructured` returns, one list per key. */
  datatype StructuredContent = StructuredContent(titles: seq<string>, text: seq<string>, tables: seq<string>, lists: seq<string>)

  /** The texts of the elements of one category, in input order. */
  function Bucket(elements: seq<Element>, category: string): (r: seq<string>)
    ensures |r| <= |elements|
    ensures forall t :: t in r ==> exists i :: 0 <= i < |elements| && elements[i] == Element(category, t)
  {
    if elements == [] then []
    else
      var rest := Bucket(elements[..|elements| - 1], category);
      var last := elements[|elements| - 1];
      if last.category == category then rest + [last.text] else rest
  }

  /** `extract_with_unstructured(pdf_path)`, given the output of `partition(pdf_path)`. */
  method ExtractWithUnstructured(elements: seq<Element>) returns (content: StructuredContent)
    ensures content.titles == Bucket(elements, "Title")
    ensures content.text == Bucket(elements, "NarrativeText")
    ensures content.tables == Bucket(elements, "Table")
    ensures content.lists == Bucket(elements, "ListItem")
  {
    content := StructuredContent([], [], [], []);
    for i := 0 to |elements|
      invariant content.titles == Bucket(elements[..i], "Title")
      invariant content.text == Bucket(elements[..i], "NarrativeText")
      invariant content.tables == Bucket(elements[..i], "Table")
      invariant content.lists == Bucket(elements[..i], "ListItem")
    {
      var element := elements[i];
      assert elements[..i + 1][..i] == elements[..i];
      if element.category == "Title" {
        content := content.(titles := content.titles + [element.text]);
      } else if element.category == "NarrativeText" {
        content := content.(text := content.text + [element.text]);
      } else if element.category == "Table" {
        content := content.(tables := content.tables + [element.text]);
      } else if element.category == "ListItem" {
        content := content.(lists := content.lists + [element.text]);
      }
    }
    assert elements[..|elements|] == elements;
  }

  /** Every element of one of the four categories lands in that category's list. */
  lemma {:induction false} BucketKeepsEvery(elements: seq<Element>, category: string, i: nat)
    requires i < |elements| && elements[i].category == category
    ensures elements[i].text in Bucket(elements, category)
    decreases |elements|
  {
    var n := |elements| - 1;
    if i < n {
      assert elements[..n][i] == elements[i];
      BucketKeepsEvery(elements[..n], category, i);
    }
  }

  /** The positions of the elements of one category, in increasing order: exactly those `i`
      with `elements[i].category == category`. */
  function CategoryIndices(elements: seq<Element>, category: string): (idx: seq<nat>)
    ensures forall k :: 0 <= k < |idx| ==> idx[k] < |elements|
  {
    if elements == [] then []
    else
      var n := |elements| - 1;
      var rest := CategoryIndices(elements[..n], category);
      if elements[n].category == category then rest + [n] else rest
  }

  /** `CategoryIndices` lists every position of the category, only those, in increasing order. */
  lemma {:induction false} CategoryIndicesExact(elements: seq<Element>, category: string)
    ensures forall k :: 0 <= k < |CategoryIndices(elements, category)| ==>
      elements[CategoryIndices(elements, category)[k]].category == category
    ensures forall k, l :: 0 <= k < l < |CategoryIndices(elements, category)| ==>
      CategoryIndices(elements, category)[k] < CategoryIndices(elements, category)[l]
    ensures forall i :: 0 <= i < |elements| && elements[i].category == category ==> i in CategoryIndices(elements, category)
    decreases |elements|
  {
    if elements != [] {
      var n := |elements| - 1;
      var front := elements[..n];
      CategoryIndicesExact(front, category);
      var rest := CategoryIndices(front, category);
      var idx := CategoryIndices(elements, category);
      assert idx == if elements[n].category == category then rest + [n] else rest;
      forall k | 0 <= k < |idx| ensures elements[idx[k]].category == category {
        if k < |rest| {
          assert idx[k] == rest[k] && front[rest[k]] == elements[rest[k]];
          assert front[rest[k]].category == category;
        } else {
          assert idx[k] == n;
        }
      }
      forall k, l | 0 <= k < l < |idx| ensures idx[k] < idx[l] {
        if l < |rest| {
          assert idx[k] == rest[k] && idx[l] == rest[l];
        } else {
          assert idx[k] == rest[k] && rest[k] < n;
        }
      }
      forall i | 0 <= i < |elements| && elements[i].category == category ensures i in idx {
        if i < n {
          assert front[i] == elements[i];
          assert i in rest;
        } else {
          assert idx[|idx| - 1] == n;
        }
      }
    }
  }

  /** A category's list is the filter of the elements by that category: its `k`-th entry is the
      text of the `k`-th element of the category, and it has one entry per such element. */
  lemma {:induction false} BucketIsFilter(elements: seq<Element>, category: string)
    ensures |Bucket(elements, category)| == |CategoryIndices(elements, category)|
    ensures forall k :: 0 <= k < |Bucket(elements, category)| ==>
      Bucket(elements, category)[k] == elements[CategoryIndices(elements, category)[k]].text
    decreases |elements|
  {
    if elements != [] {
      var n := |elements| - 1;
      var front := elements[..n];
      BucketIsFilter(front, category);
      var rest, idx := Bucket(front, category), CategoryIndices(front, category);
      assert forall k :: 0 <= k < |idx| ==> rest[k] == elements[idx[k]].text by {
        forall k | 0 <= k < |idx| ensures rest[k] == elements[idx[k]].text {
          assert front[idx[k]] == elements[idx[k]];
        }
      }
      if elements[n].category == category {
        assert Bucket(elements, category) == rest + [elements[n].text];
        assert CategoryIndices(elements, category) == idx + [n];
      } else {
        assert Bucket(elements, category) == rest;
        assert CategoryIndices(elements, category) == idx;
      }
    }
  }

  predicate IsBucketed(category: string)
  {
    category == "Title" || category == "NarrativeText" || category == "Table" || category == "ListItem"
  }

  /** The number of elements of any other category; these are dropped. */
  function Others(elements: seq<Element>): (n: nat)
    ensures n <= |elements|
  {
    if elements == [] then 0
    else Others(elements[..|elements| - 1]) + (if IsBucketed(elements[|elements| - 1].category) then 0 else 1)
  }

  /** No element is counted twice: the four lists together hold at most one entry per element,
      and exactly one per element when all are of the four categories. */
  lemma {:induction false} BucketsPartition(elements: seq<Element>)
    ensures |Bucket(elements, "Title")| + |Bucket(elements, "NarrativeText")|
          + |Bucket(elements, "Table")| + |Bucket(elements, "ListItem")| == |elements| - Others(elements)
    decreases |elements|
  {
    if elements != [] {
      BucketsPartition(elements[..|elements| - 1]);
    }
  }

  /** `extract_with_pdfminer(pdf_path)`, given what `extract_text(pdf_path)` did: a failure
      becomes `None` instead of an exception. */
  function ExtractWithPdfminer(outcome: Result<string>): (r: Option<string>)
    ensures r.None? <==> outcome.Failure?
    ensures r.Some? ==> r.value == outcome.value
  {
    match outcome
    case Success(text) => Some(text)
    case Failure(_) => None
  }
}
