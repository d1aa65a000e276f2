/**
 * `TextChunk`: the retrievable unit. Its embedding text prefixes the body with the
 * source and the header trail; building a chunk from such a text strips the prefix
 * again, so a chunk survives the trip through a plain text node.
 */
module Texts {
  import opened Wrappers
  import opened Strings
  import opened Sources
  import opened Paragraphs
  import opened Nodes

  datatype TextChunk = TextChunk(
    id: string,
    text: string,
    source: Source,
    headers: seq<string>,
    paragraphs: seq<ParagraphReference>,
    prevId: Option<string>,
    nextId: Option<string>)

  /** The `KeyError` raised when a node lacks a metadata key. */
  datatype KeyError = MissingKey(key: string)

  const SourcePrefix: string := "Source: "

  // ---------------------------------------------------------------------------
  // model_post_init
  // ---------------------------------------------------------------------------

  /** Two newlines start at index `j`. */
  predicate BlankLineAt(s: string, j: nat) {
    j + 1 < |s| && s[j] == '\n' && s[j + 1] == '\n'
  }

  /** Index of the first `"\n\n"` in `s`, or `|s|` when there is none. */
  function FirstBlankLine(s: string): (i: nat)
    ensures i <= |s| && (i < |s| ==> BlankLineAt(s, i))
    ensures forall j :: 0 <= j < i ==> !BlankLineAt(s, j)
    decreases |s|
  {
    if |s| < 2 then |s|
    else if s[0] == '\n' && s[1] == '\n' then 0
    else
      var i := 1 + FirstBlankLine(s[1..]);
      assert forall j :: 1 <= j < i ==> BlankLineAt(s, j) == BlankLineAt(s[1..], j - 1);
      i
  }

  /**
   * `model_post_init`: a text that starts with `Source: ` is replaced by what follows
   * its first `"\n\n"` (`text.split("\n\n", 1)[-1]`); any other text is kept.
   */
  function PostInitText(text: string): (r: string)
    ensures !StartsWith(text, SourcePrefix) ==> r == text
    ensures FirstBlankLine(text) == |text| ==> r == text
    ensures StartsWith(text, SourcePrefix) && FirstBlankLine(text) < |text| ==>
      text == text[..FirstBlankLine(text)] + "\n\n" + r
  {
    if StartsWith(text, SourcePrefix) then
      var i := FirstBlankLine(text);
      if i < |text| then
        assert text == text[..i] + "\n\n" + text[i + 2..];
        text[i + 2..]
      else text
    else text
  }

  /** The pydantic constructor: fields as given, then `model_post_init` on the text. */
  function NewTextChunk(id: string, text: string, source: Source, headers: seq<string>,
                        paragraphs: seq<ParagraphReference>, prevId: Option<string>, nextId: Option<string>): (c: TextChunk)
    ensures c.id == id && c.source == source && c.headers == headers && c.paragraphs == paragraphs
    ensures c.prevId == prevId && c.nextId == nextId
    ensures !StartsWith(text, SourcePrefix) ==> c.text == text
    ensures StartsWith(text, SourcePrefix) && FirstBlankLine(text) < |text| ==>
      text == text[..FirstBlankLine(text)] + "\n\n" + c.text
  {
    TextChunk(id, PostInitText(text), source, headers, paragraphs, prevId, nextId)
  }

  // ---------------------------------------------------------------------------
  // embed_text
  // ---------------------------------------------------------------------------

  /** The repr of each header, in order. */
  function QuotedHeaders(headers: seq<string>): (r: seq<string>)
    ensures |r| == |headers| && forall k :: 0 <= k < |headers| ==> r[k] == Repr(headers[k])
  {
    seq(|headers|, k requires 0 <= k < |headers| => Repr(headers[k]))
  }

  /** `Headers: 'h1' >>> 'h2'` and a newline, or nothing when there are no headers. */
  function HeaderLine(headers: seq<string>): (line: string)
    ensures line == [] <==> headers == []
    ensures line != [] ==> StartsWith(line, "Headers: ") && line[|line| - 1] == '\n'
    ensures line != [] ==> '\n' !in line[..|line| - 1]
  {
    if headers == [] then ""
    else
      var j := "Headers: " + Join(QuotedHeaders(headers), " >>> ");
      HeadersNoNewline(headers);
      assert (j + "\n")[..|j|] == j;
      PrefixStarts("Headers: ", Join(QuotedHeaders(headers), " >>> ") + "\n");
      j + "\n"
  }

  /** `TextChunk.embed_text`. */
  function EmbedText(c: TextChunk): string {
    SourcePrefix + Sources.ToString(c.source) + "\n" + HeaderLine(c.headers) + "\n" + c.text
  }

  /** Every newline of `q` is followed, inside `q`, by a character that is not a newline. */
  predicate LoneNewlines(q: string) {
    forall j :: 0 <= j < |q| && q[j] == '\n' ==> j + 1 < |q| && q[j + 1] != '\n'
  }

  /** The part of the embedding text before the blank line that separates it from the body. */
  function EmbedHead(c: TextChunk): string {
    Head(Sources.ToString(c.source), c.headers)
  }

  /** `Source: <src>`, and the header trail on a line of its own when there is one. */
  function Head(src: string, headers: seq<string>): string {
    if headers == [] then SourcePrefix + src
    else SourcePrefix + src + "\n" + "Headers: " + Join(QuotedHeaders(headers), " >>> ")
  }

  /** The embedding text is its head, one blank line and the body; the head has no blank line. */
  lemma EmbedTextLayout(c: TextChunk)
    ensures EmbedText(c) == EmbedHead(c) + "\n\n" + c.text
    ensures LoneNewlines(EmbedHead(c)) && EmbedHead(c)[|EmbedHead(c)| - 1] != '\n'
    ensures StartsWith(EmbedHead(c), SourcePrefix)
  {
    ToStringNoNewline(c.source);
    HeadLayout(Sources.ToString(c.source), c.headers, c.text);
  }

  lemma HeadLayout(src: string, headers: seq<string>, text: string)
    requires '\n' !in src
    ensures SourcePrefix + src + "\n" + HeaderLine(headers) + "\n" + text == Head(src, headers) + "\n\n" + text
    ensures LoneNewlines(Head(src, headers)) && Head(src, headers)[|Head(src, headers)| - 1] != '\n'
    ensures StartsWith(Head(src, headers), SourcePrefix)
  {
    HeadJoins(src, headers, text);
    HeadLone(src, headers);
    HeadStarts(src, headers);
  }

  lemma HeadJoins(src: string, headers: seq<string>, text: string)
    ensures SourcePrefix + src + "\n" + HeaderLine(headers) + "\n" + text == Head(src, headers) + "\n\n" + text
  {
    var s := SourcePrefix + src;
    if headers == [] {
      assert s + "\n" + "" + "\n" + text == s + "\n\n" + text;
    } else {
      var j := "Headers: " + Join(QuotedHeaders(headers), " >>> ");
      HeadersParts(s, j, text);
    }
  }

  lemma HeadLone(src: string, headers: seq<string>)
    requires '\n' !in src
    ensures LoneNewlines(Head(src, headers)) && Head(src, headers)[|Head(src, headers)| - 1] != '\n'
  {
    var s := SourcePrefix + src;
    assert '\n' !in s;
    if headers == [] {
      NoNewlineLone(s);
    } else {
      var j := "Headers: " + Join(QuotedHeaders(headers), " >>> ");
      HeadersNoNewline(headers);
      JoinedLone(s, j);
    }
  }

  lemma HeadStarts(src: string, headers: seq<string>)
    ensures StartsWith(Head(src, headers), SourcePrefix)
  {
    if headers == [] {
      PrefixStarts(SourcePrefix, src);
    } else {
      var j := "Headers: " + Join(QuotedHeaders(headers), " >>> ");
      PrefixStarts(SourcePrefix, src + "\n" + j);
      assert SourcePrefix + (src + "\n" + j) == Head(src, headers);
    }
  }

  lemma HeadersParts(s: string, j: string, text: string)
    ensures s + "\n" + (j + "\n") + "\n" + text == s + "\n" + j + "\n\n" + text
  {
  }

  lemma PrefixStarts(p: string, x: string)
    ensures StartsWith(p + x, p)
  {
    assert (p + x)[..|p|] == p;
  }

  lemma NoNewlineLone(s: string)
    requires '\n' !in s
    ensures LoneNewlines(s)
  {
  }

  lemma HeadersNoNewline(headers: seq<string>)
    ensures '\n' !in "Headers: " + Join(QuotedHeaders(headers), " >>> ")
  {
    forall k | 0 <= k < |headers|
      ensures '\n' !in QuotedHeaders(headers)[k]
    {
      ReprNoNewline(headers[k]);
    }
    JoinNoChar(QuotedHeaders(headers), " >>> ", '\n');
  }

  /** Two newline-free lines joined by one newline: that newline is followed by the second line. */
  lemma JoinedLone(s: string, j: string)
    requires '\n' !in s && '\n' !in j && j != []
    ensures LoneNewlines(s + "\n" + j) && (s + "\n" + j)[|s + "\n" + j| - 1] != '\n'
  {
    var q := s + "\n" + j;
    forall k | 0 <= k < |q| && q[k] == '\n'
      ensures k + 1 < |q| && q[k + 1] != '\n'
    {
      if k == |s| {
        assert q[k + 1] == j[0];
      }
    }
    assert q[|q| - 1] == j[|j| - 1];
  }

  /** The first blank line of `q + "\n\n" + t` is the one after `q` when `q` has none of its own. */
  lemma {:induction false} FirstBlankLineAfter(q: string, t: string)
    requires LoneNewlines(q) && (q == [] || q[|q| - 1] != '\n')
    ensures FirstBlankLine(q + "\n\n" + t) == |q|
    decreases |q|
  {
    var s := q + "\n\n" + t;
    if q == [] {
      assert s[0] == '\n' && s[1] == '\n';
    } else {
      assert s[0] == q[0];
      if |q| == 1 {
        assert s[1] == '\n' && q[0] != '\n';
      } else {
        assert s[1] == q[1];
        assert q[0] == '\n' ==> q[1] != '\n';
      }
      var q' := q[1..];
      assert s[1..] == q' + "\n\n" + t;
      assert LoneNewlines(q') by {
        forall j | 0 <= j < |q'| && q'[j] == '\n'
          ensures j + 1 < |q'| && q'[j + 1] != '\n'
        {
          assert q[j + 1] == '\n';
        }
      }
      FirstBlankLineAfter(q', t);
    }
  }

  /** A chunk built from `embed_text` has exactly the original body: `model_post_init` undoes `embed_text`. */
  lemma PostInitEmbedText(c: TextChunk)
    ensures PostInitText(EmbedText(c)) == c.text
  {
    EmbedTextLayout(c);
    var q := EmbedHead(c);
    FirstBlankLineAfter(q, c.text);
    var e := EmbedText(c);
    assert e[..|SourcePrefix|] == q[..|SourcePrefix|];
    assert e[|q| + 2..] == c.text;
  }

  // ---------------------------------------------------------------------------
  // Conversions to and from text nodes
  // ---------------------------------------------------------------------------

  /**
   * `TextChunk.from_text_node`: id, text, source and paragraphs copied, headers
   * defaulting to `[]`, `prev_id` / `next_id` the related nodes' ids. A node without
   * `paragraphs` raises `KeyError`.
   */
  function FromTextNode(n: TextNode): (r: Result<TextChunk, KeyError>)
    ensures r.Success? <==> n.metadata.paragraphs.Some?
    ensures r.Failure? ==> r.error == MissingKey("paragraphs")
  {
    match n.metadata.paragraphs
    case None => Failure(MissingKey("paragraphs"))
    case Some(paragraphs) =>
      Success(NewTextChunk(n.id, n.text, n.metadata.source, n.metadata.headers.GetOr([]),
                           paragraphs, n.prev, n.next))
  }

  /** `TextChunk.from_text_nodes`: one chunk per node, in order; the first node without paragraphs raises. */
  function FromTextNodes(ns: seq<TextNode>): (r: Result<seq<TextChunk>, KeyError>)
    ensures r.Success? <==> forall k :: 0 <= k < |ns| ==> ns[k].metadata.paragraphs.Some?
    ensures r.Success? ==> |r.value| == |ns| && forall k :: 0 <= k < |ns| ==> FromTextNode(ns[k]) == Success(r.value[k])
    decreases |ns|
  {
    if ns == [] then Success([])
    else match FromTextNode(ns[0])
      case Failure(e) => Failure(e)
      case Success(c) =>
        match FromTextNodes(ns[1..])
        case Failure(e) => Failure(e)
        case Success(cs) =>
          assert forall k :: 1 <= k < |ns| ==> ns[k] == ns[1..][k - 1];
          Success([c] + cs)
  }

  /** `TextChunk.to_simple_text_node`: the id, the embedding text, the three metadata keys, no relationships. */
  function ToSimpleTextNode(c: TextChunk): (n: TextNode)
    ensures n.prev.None? && n.next.None? && n.id == c.id
    ensures n.metadata.headers == Some(c.headers) && n.metadata.paragraphs == Some(c.paragraphs)
  {
    TextNode(c.id, EmbedText(c), Metadata(c.source, map[], Some(c.headers), Some(c.paragraphs)), None, None)
  }

  /** The chunk without its links. */
  function Unlinked(c: TextChunk): TextChunk {
    c.(prevId := None, nextId := None)
  }

  /**
   * Through a plain text node and back, a chunk keeps its id, body, source, headers and
   * paragraphs, and always loses its links.
   */
  lemma SimpleTextNodeRoundTrip(c: TextChunk)
    ensures FromTextNode(ToSimpleTextNode(c)) == Success(Unlinked(c))
  {
    PostInitEmbedText(c);
  }
}
