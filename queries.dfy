/**
 * `QueryResult`: a chunk and its score, converted to and from the library's scored node.
 */
module Queries {
  import opened Wrappers
  import opened Nodes
  import opened Texts

  /** The score is carried as given (floating point is not modelled). */
  datatype QueryResult = QueryResult(text: TextChunk, score: Option<real>)

  /** `QueryResult.from_node_with_score`. */
  function FromNodeWithScore(n: NodeWithScore): (r: Result<QueryResult, KeyError>)
    ensures r.Success? <==> FromTextNode(n.node).Success?
    ensures r.Success? ==> r.value.score == n.score && Success(r.value.text) == FromTextNode(n.node)
  {
    match FromTextNode(n.node)
    case Failure(e) => Failure(e)
    case Success(c) => Success(QueryResult(c, n.score))
  }

  /** `QueryResult.to_simple_node_with_score`. */
  function ToSimpleNodeWithScore(q: QueryResult): (n: NodeWithScore)
    ensures n.score == q.score && n.node == ToSimpleTextNode(q.text)
  {
    NodeWithScore(ToSimpleTextNode(q.text), q.score)
  }

  /**
   * The trip the reranker makes (to a scored plain node and back) keeps the chunk's id,
   * body, source, headers, paragraphs and the score, and drops `prev_id` and `next_id`.
   */
  lemma ScoredRoundTrip(q: QueryResult)
    ensures FromNodeWithScore(ToSimpleNodeWithScore(q)) == Success(QueryResult(Unlinked(q.text), q.score))
  {
    SimpleTextNodeRoundTrip(q.text);
  }

  /** A result whose chunk is linked does not survive the trip unchanged. */
  lemma LinkedResultChanges(q: QueryResult)
    requires q.text.prevId.Some? || q.text.nextId.Some?
    ensures FromNodeWithScore(ToSimpleNodeWithScore(q)) != Success(q)
  {
    ScoredRoundTrip(q);
  }
}
