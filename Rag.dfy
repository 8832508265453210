/**
 * Model of `RAGService._build_context` in src/services/rag.py: the retrieved
 * documents become "## title" parts with their text cut to 500 characters,
 * taken in order until the running length of the parts reaches the limit,
 * and joined by blank lines.
 */
module Rag {
  import opened Wrappers
  import opened Strings

  /**
   * A retrieved document dictionary, reduced to the two keys the context
   * reads; `None` is a missing key.
   */
  datatype Document = Document(title: Option<string>, text: Option<string>)

  const NoDocuments: string := "No relevant documentation found."
  const ExcerptLength: nat := 500
  const PartSeparator: string := "\n\n"

  /** `doc.get("title", "Untitled")`: the title when there is one, `"Untitled"` otherwise. */
  function TitleOf(doc: Document): (title: string)
    ensures doc.title.Some? ==> title == doc.title.value
    ensures doc.title.None? ==> title == "Untitled"
  {
    if doc.title.Some? then doc.title.value else "Untitled"
  }

  /** `doc.get("text", "")[:500]`. */
  function ExcerptOf(doc: Document): (excerpt: string)
    ensures |excerpt| <= ExcerptLength
    ensures doc.text.Some? ==> excerpt <= doc.text.value
    ensures doc.text.Some? && |doc.text.value| <= ExcerptLength ==> excerpt == doc.text.value
    ensures doc.text.Some? && |doc.text.value| > ExcerptLength ==> |excerpt| == ExcerptLength
    ensures doc.text.None? ==> excerpt == ""
  {
    if doc.text.Some? then Take(doc.text.value, ExcerptLength) else ""
  }

  /** `f"## {title}\n{content}\n"`. */
  function Part(doc: Document): (part: string)
    ensures |part| == |TitleOf(doc)| + |ExcerptOf(doc)| + 5
  {
    "## " + TitleOf(doc) + "\n" + ExcerptOf(doc) + "\n"
  }

  /** The parts of `docs`, in order. */
  function Parts(docs: seq<Document>): (parts: seq<string>)
    ensures |parts| == |docs|
    ensures forall i | 0 <= i < |docs| :: parts[i] == Part(docs[i])
  {
    if docs == [] then [] else Parts(docs[..|docs| - 1]) + [Part(docs[|docs| - 1])]
  }

  /** The lengths of the parts of `docs`, added up. */
  function PartsLength(docs: seq<Document>): nat {
    if docs == [] then 0 else PartsLength(docs[..|docs| - 1]) + |Part(docs[|docs| - 1])|
  }

  /** One more document adds its part at the end, and its length to the running length. */
  lemma PartsExtend(docs: seq<Document>, i: nat)
    requires i < |docs|
    ensures Parts(docs[..i + 1]) == Parts(docs[..i]) + [Part(docs[i])]
    ensures PartsLength(docs[..i + 1]) == PartsLength(docs[..i]) + |Part(docs[i])|
  {
    assert docs[..i + 1][..i] == docs[..i];
  }

  /** Every part is at least five characters long, so the running length grows strictly. */
  lemma {:induction false} PartsLengthGrows(docs: seq<Document>, i: nat, j: nat)
    requires i < j <= |docs|
    ensures PartsLength(docs[..i]) + 5 * (j - i) <= PartsLength(docs[..j])
    decreases j - i
  {
    PartsExtend(docs, j - 1);
    assert |Part(docs[j - 1])| >= 5;
    if i < j - 1 {
      PartsLengthGrows(docs, i, j - 1);
      assert PartsLength(docs[..i]) + 5 * (j - 1 - i) <= PartsLength(docs[..j - 1]);
    }
  }

  /**
   * How many documents the loop takes when it has already taken `k` without
   * reaching the limit: it stops at the first count whose running length
   * reaches `maxTokens`, or when the documents run out.
   */
  function TakenFrom(docs: seq<Document>, maxTokens: int, k: nat): (taken: nat)
    requires 1 <= k <= |docs|
    ensures k <= taken <= |docs|
    ensures forall j | k <= j < taken :: PartsLength(docs[..j]) < maxTokens
    ensures taken < |docs| ==> PartsLength(docs[..taken]) >= maxTokens
    decreases |docs| - k
  {
    if k == |docs| || PartsLength(docs[..k]) >= maxTokens then k
    else TakenFrom(docs, maxTokens, k + 1)
  }

  /**
   * How many documents make it into the context: between 1 and all of them.
   * Every part before the last leaves the running length below the limit, and
   * the last reaches it unless it belongs to the last document.
   */
  function Taken(docs: seq<Document>, maxTokens: int): (taken: nat)
    requires docs != []
    ensures 1 <= taken <= |docs|
    ensures forall j | 1 <= j < taken :: PartsLength(docs[..j]) < maxTokens
    ensures taken < |docs| ==> PartsLength(docs[..taken]) >= maxTokens
  {
    TakenFrom(docs, maxTokens, 1)
  }

  /**
   * The running length only grows, so once the loop stops every longer run of
   * documents also reaches the limit, and since each part is at least five
   * characters, at most `maxTokens / 5 + 1` documents are taken.
   */
  lemma TakenBound(docs: seq<Document>, maxTokens: int)
    requires docs != []
    ensures forall j | Taken(docs, maxTokens) < j <= |docs| :: PartsLength(docs[..j]) >= maxTokens
    ensures Taken(docs, maxTokens) > 1 ==> 5 * (Taken(docs, maxTokens) - 1) < maxTokens
  {
    var taken := Taken(docs, maxTokens);
    forall j | taken < j <= |docs| ensures PartsLength(docs[..j]) >= maxTokens {
      PartsLengthGrows(docs, taken, j);
    }
    if taken > 1 {
      PartsLengthGrows(docs, 0, taken - 1);
      assert docs[..0] == [];
    }
  }

  /**
   * `_build_context`: the fixed message when there are no documents;
   * otherwise the parts of the first `Taken` documents, in order, joined by
   * blank lines.
   */
  method BuildContext(documents: seq<Document>, maxTokens: int := 2000) returns (context: string)
    ensures documents == [] ==> context == NoDocuments
    ensures documents != [] ==>
      context == Join(Parts(documents[..Taken(documents, maxTokens)]), PartSeparator)
  {
    if documents == [] {
      return NoDocuments;
    }

    var contextParts: seq<string> := [];
    var totalLength := 0;
    for i := 0 to |documents|
      invariant contextParts == Parts(documents[..i])
      invariant totalLength == PartsLength(documents[..i])
      invariant 0 < i ==> totalLength < maxTokens
      invariant 0 < i ==> TakenFrom(documents, maxTokens, i) == Taken(documents, maxTokens)
    {
      var part := Part(documents[i]);
      PartsExtend(documents, i);
      contextParts := contextParts + [part];
      totalLength := totalLength + |part|;
      if totalLength >= maxTokens {
        assert TakenFrom(documents, maxTokens, i + 1) == i + 1;
        break;
      }
    }
    context := Join(contextParts, PartSeparator);
  }
}
