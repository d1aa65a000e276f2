/**
 * The library's node records, reduced to what this code reads and writes: a text
 * node's id, body, metadata (source, header entries, `headers`, `paragraphs`) and
 * its PREVIOUS / NEXT relationships, each held as the related node's id.
 */
module Nodes {
  import opened Wrappers
  import opened Sources
  import opened Paragraphs

  /**
   * A node's metadata dictionary. `source` is always present; `entries` holds the
   * string-valued keys (the `Header N` keys of a section before they are consumed);
   * `headers` and `paragraphs` are `None` when the key is absent.
   */
  datatype Metadata = Metadata(
    source: Source,
    entries: map<string, string>,
    headers: Option<seq<string>>,
    paragraphs: Option<seq<ParagraphReference>>)

  /** `TextNode`: `prev` and `next` are the ids in the PREVIOUS and NEXT relationships, if set. */
  datatype TextNode = TextNode(
    id: string,
    text: string,
    metadata: Metadata,
    prev: Option<string>,
    next: Option<string>)

  /** `NodeWithScore`: the score is carried as given (floating point is not modelled). */
  datatype NodeWithScore = NodeWithScore(node: TextNode, score: Option<real>)

  /** Python's `not metadata.get("paragraphs")`: the key is absent or the list is empty. */
  predicate LacksParagraphs(n: TextNode) {
    n.metadata.paragraphs.None? || n.metadata.paragraphs.value == []
  }
}
