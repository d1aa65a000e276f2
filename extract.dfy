/**
 * Segmentation post-processing: the header-stripping step applied to each markdown
 * section, the id and paragraph refresh of every chunk, the pass that links adjacent
 * chunks of the same source and carries paragraph references forward, and the final
 * provenance check. The library's splitters are not modelled: the passes take the
 * splitter's output, an ordered array of nodes, as their input.
 */
module Extract {
  import opened Wrappers
  import opened Strings
  import opened Sources
  import opened Paragraphs
  import opened Nodes
  import opened Texts

  // ---------------------------------------------------------------------------
  // Sorted metadata keys
  // ---------------------------------------------------------------------------

  /** `k` is the smallest key of `ks` in Python's string order (code points, lexicographic). */
  predicate IsLeast(k: string, ks: set<string>) {
    k in ks && forall j :: j in ks && j != k ==> StrLess(k, j)
  }

  lemma {:induction false} LeastExists(ks: set<string>)
    requires ks != {}
    ensures exists k :: IsLeast(k, ks)
    decreases |ks|
  {
    var x :| x in ks;
    var rest := ks - {x};
    if rest == {} {
      assert ks == rest + {x};
      assert IsLeast(x, ks);
    } else {
      LeastExists(rest);
      var y :| IsLeast(y, rest);
      StrLessTotal(x, y);
      if StrLess(x, y) {
        forall j | j in ks && j != x
          ensures StrLess(x, j)
        {
          if j != y {
            StrLessTransitive(x, y, j);
          }
        }
        assert IsLeast(x, ks);
      } else {
        assert IsLeast(y, ks);
      }
    }
  }

  lemma LeastUnique(ks: set<string>)
    ensures forall a, b :: IsLeast(a, ks) && IsLeast(b, ks) ==> a == b
  {
    forall a, b | IsLeast(a, ks) && IsLeast(b, ks)
      ensures a == b
    {
      if a != b {
        StrLessTransitive(a, b, a);
        StrLessIrreflexive(a);
      }
    }
  }

  /** `sorted(ks)`: every key once, in increasing order. */
  function SortedKeys(ks: set<string>): (r: seq<string>)
    ensures |r| == |ks| && forall k :: k in r <==> k in ks
    ensures forall i, j :: 0 <= i < j < |r| ==> StrLess(r[i], r[j])
    decreases |ks|
  {
    if ks == {} then []
    else
      LeastExists(ks);
      LeastUnique(ks);
      var k :| IsLeast(k, ks);
      var rest := SortedKeys(ks - {k});
      assert forall j :: j in rest ==> StrLess(k, j);
      [k] + rest
  }

  // ---------------------------------------------------------------------------
  // _build_node_from_split
  // ---------------------------------------------------------------------------

  /** `key.lower().startswith("header")`. */
  predicate IsHeaderKey(key: string) {
    StartsWith(Lower(key), "header")
  }

  predicate IsHash(c: char) {
    c == '#'
  }

  /** One header step on the text: `text.replace(header, "").strip("#").strip()`. */
  function StripHeader(text: string, header: string): (r: string)
    ensures IsStripped(r) && |r| <= |text|
  {
    var t := Trim(RemoveAll(text, header), IsHash);
    TrimInfix(RemoveAll(text, header), IsHash);
    InfixLength(t, RemoveAll(text, header));
    var r := Strip(t);
    TrimInfix(t, IsSpace);
    InfixLength(r, t);
    r
  }

  lemma InfixLength(a: string, b: string)
    requires IsInfix(a, b)
    ensures |a| <= |b|
  {
  }

  /** A key the header loop pops: a key of `entries` whose lower-case form starts with `header`. */
  predicate Popped(key: string, entries: map<string, string>) {
    key in entries && IsHeaderKey(key)
  }

  /** The section body after the header steps for `keys`, taken in order. */
  function SectionText(text: string, entries: map<string, string>, keys: seq<string>): string
    decreases |keys|
  {
    if keys == [] then text
    else
      var t := SectionText(text, entries, keys[..|keys| - 1]);
      var key := keys[|keys| - 1];
      if Popped(key, entries) then StripHeader(t, entries[key]) else t
  }

  /** The header values of `keys`, in order, without the `"NULL"` ones. */
  function SectionHeaders(entries: map<string, string>, keys: seq<string>): (r: seq<string>)
    ensures |r| <= |keys| && forall h :: h in r ==> h != "NULL"
    decreases |keys|
  {
    if keys == [] then []
    else
      var hs := SectionHeaders(entries, keys[..|keys| - 1]);
      var key := keys[|keys| - 1];
      if Popped(key, entries) && entries[key] != "NULL" then hs + [entries[key]] else hs
  }

  /** The entries left once the header keys among `keys` are popped. */
  function Unheadered(entries: map<string, string>, keys: seq<string>): map<string, string> {
    map k | k in entries && !(k in keys && IsHeaderKey(k)) :: entries[k]
  }

  /** `Some(hs)` when `hs` is non-empty: the `headers` key is written only then. */
  function HeadersEntry(hs: seq<string>): Option<seq<string>> {
    if hs == [] then None else Some(hs)
  }

  /** The metadata of the section node built from `text` and the section metadata `meta`. */
  function SectionMetadata(text: string, meta: Metadata): Metadata
    requires meta.headers.None?
  {
    var keys := SortedKeys(meta.entries.Keys);
    Metadata(meta.source, Unheadered(meta.entries, keys), HeadersEntry(SectionHeaders(meta.entries, keys)),
             Some(ExtractAll(SectionText(text, meta.entries, keys))))
  }

  /**
   * `_CustomMarkdownNodeParser._build_node_from_split`. The header keys are visited in
   * sorted order; each is popped, its value deleted from the text and the text trimmed;
   * the non-`"NULL"` values become `headers` and the paragraphs are extracted from the
   * cleaned text. `id` is the id the library gives the new node. A `headers` entry in the
   * incoming metadata would itself be taken for a header key, so there is none.
   */
  method BuildNodeFromSplit(textSplit: string, meta: Metadata, id: string) returns (node: TextNode)
    requires meta.headers.None?
    ensures node.id == id && node.prev.None? && node.next.None?
    ensures node.text == SectionText(textSplit, meta.entries, SortedKeys(meta.entries.Keys))
    ensures node.metadata == SectionMetadata(textSplit, meta)
    ensures forall k :: k in node.metadata.entries ==> !IsHeaderKey(k)
  {
    var entries := meta.entries;
    var keys := SortedKeys(entries.Keys);
    var text := textSplit;
    var remaining := entries;
    var headers: seq<string> := [];
    for i := 0 to |keys|
      invariant text == SectionText(textSplit, entries, keys[..i])
      invariant headers == SectionHeaders(entries, keys[..i])
      invariant remaining == Unheadered(entries, keys[..i])
    {
      var key := keys[i];
      SectionTextStep(textSplit, entries, keys, i);
      SectionHeadersStep(entries, keys, i);
      UnheaderedStep(entries, keys, i);
      if IsHeaderKey(key) {
        var header := entries[key];
        text := StripHeader(text, header);
        remaining := remaining - {key};
        if header != "NULL" {
          headers := headers + [header];
        }
      }
    }
    assert keys[..|keys|] == keys;
    var paragraphs := ExtractAll(text);
    var metadata := Metadata(meta.source, remaining, HeadersEntry(headers), Some(paragraphs));
    node := TextNode(id, text, metadata, None, None);
  }

  /** One more key: the text after `keys[..i + 1]`. */
  lemma SectionTextStep(text: string, entries: map<string, string>, keys: seq<string>, i: nat)
    requires i < |keys|
    ensures SectionText(text, entries, keys[..i + 1]) ==
            if Popped(keys[i], entries) then StripHeader(SectionText(text, entries, keys[..i]), entries[keys[i]])
            else SectionText(text, entries, keys[..i])
  {
    assert keys[..i + 1][..i] == keys[..i];
  }

  /** One more key: the header list after `keys[..i + 1]`. */
  lemma SectionHeadersStep(entries: map<string, string>, keys: seq<string>, i: nat)
    requires i < |keys|
    ensures SectionHeaders(entries, keys[..i + 1]) ==
            if Popped(keys[i], entries) && entries[keys[i]] != "NULL" then SectionHeaders(entries, keys[..i]) + [entries[keys[i]]]
            else SectionHeaders(entries, keys[..i])
  {
    assert keys[..i + 1][..i] == keys[..i];
  }

  /** One more key: the entries left after `keys[..i + 1]`. */
  lemma UnheaderedStep(entries: map<string, string>, keys: seq<string>, i: nat)
    requires i < |keys|
    ensures Unheadered(entries, keys[..i + 1]) ==
            if IsHeaderKey(keys[i]) then Unheadered(entries, keys[..i]) - {keys[i]} else Unheadered(entries, keys[..i])
  {
    assert forall k :: k in keys[..i + 1] <==> k in keys[..i] || k == keys[i];
  }

  /** `keys` has a key that the header loop pops. */
  predicate HasHeaderKey(keys: seq<string>, entries: map<string, string>) {
    exists k :: k in keys && Popped(k, entries)
  }

  /** Once a header key has been processed the body has no whitespace at either end. */
  lemma {:induction false} SectionTextStripped(text: string, entries: map<string, string>, keys: seq<string>)
    requires HasHeaderKey(keys, entries)
    ensures IsStripped(SectionText(text, entries, keys))
    decreases |keys|
  {
    var init := keys[..|keys| - 1];
    var key := keys[|keys| - 1];
    if !Popped(key, entries) {
      var k :| k in keys && Popped(k, entries);
      assert keys == init + [key];
      assert k in init;
      SectionTextStripped(text, entries, init);
    }
  }

  /** A section without header keys keeps its text. */
  lemma {:induction false} SectionTextNoHeaders(text: string, entries: map<string, string>, keys: seq<string>)
    requires !HasHeaderKey(keys, entries)
    ensures SectionText(text, entries, keys) == text
    decreases |keys|
  {
    if keys != [] {
      var init := keys[..|keys| - 1];
      assert forall k :: k in init ==> k in keys;
      SectionTextNoHeaders(text, entries, init);
    }
  }

  /** The header list follows key order: the headers of `a + b` are those of `a`, then those of `b`. */
  lemma {:induction false} SectionHeadersAppend(entries: map<string, string>, a: seq<string>, b: seq<string>)
    ensures SectionHeaders(entries, a + b) == SectionHeaders(entries, a) + SectionHeaders(entries, b)
    decreases |b|
  {
    if b != [] {
      var init := b[..|b| - 1];
      assert (a + b)[..|a + b| - 1] == a + init;
      SectionHeadersAppend(entries, a, init);
    } else {
      assert a + b == a;
    }
  }

  /** Every non-`"NULL"` value of a header key among `keys` is in the header list, and nothing else is. */
  lemma {:induction false} SectionHeadersMembers(entries: map<string, string>, keys: seq<string>, h: string)
    ensures h in SectionHeaders(entries, keys) <==>
            h != "NULL" && exists k :: k in keys && Popped(k, entries) && entries[k] == h
    decreases |keys|
  {
    if keys != [] {
      var init := keys[..|keys| - 1];
      var key := keys[|keys| - 1];
      assert keys == init + [key];
      assert forall k :: k in keys <==> k in init || k == key;
      SectionHeadersMembers(entries, init, h);
    }
  }

  // ---------------------------------------------------------------------------
  // _post_process_nodes_fix_node
  // ---------------------------------------------------------------------------

  /**
   * One node of the id and paragraph refresh. `contentId` stands for
   * `str(uuid5(NAMESPACE_DNS, node.get_content(MetadataMode.ALL)))`: a deterministic
   * function of the node's text and metadata, read before the paragraphs are replaced.
   */
  function FixNode(n: TextNode, contentId: (string, Metadata) -> string): (r: TextNode)
    ensures r.text == n.text && r.prev == n.prev && r.next == n.next
    ensures r.metadata.source == n.metadata.source && r.metadata.headers == n.metadata.headers
    ensures r.metadata.paragraphs == Some(ExtractAll(n.text))
  {
    n.(id := contentId(n.text, n.metadata), metadata := n.metadata.(paragraphs := Some(ExtractAll(n.text))))
  }

  /** `_post_process_nodes_fix_node`: every node refreshed in place, in order. */
  method FixNodes(nodes: array<TextNode>, contentId: (string, Metadata) -> string)
    modifies nodes
    ensures forall k :: 0 <= k < nodes.Length ==> nodes[k] == FixNode(old(nodes[k]), contentId)
  {
    for i := 0 to nodes.Length
      invariant forall k :: 0 <= k < i ==> nodes[k] == FixNode(old(nodes[k]), contentId)
      invariant forall k :: i <= k < nodes.Length ==> nodes[k] == old(nodes[k])
    {
      nodes[i] := FixNode(nodes[i], contentId);
    }
  }

  /**
   * Refreshing a node twice leaves its text, links and metadata as the first refresh left
   * them; only the id may differ, since it is computed over metadata that now holds the
   * paragraphs.
   */
  lemma FixNodeTwice(n: TextNode, contentId: (string, Metadata) -> string)
    ensures var once := FixNode(n, contentId); var twice := FixNode(once, contentId);
      twice.text == once.text && twice.metadata == once.metadata
      && twice.prev == once.prev && twice.next == once.next
  {
  }

  /** After the refresh a node lacks paragraphs exactly when its text has no marker. */
  lemma FixedLacksParagraphs(n: TextNode, contentId: (string, Metadata) -> string)
    ensures LacksParagraphs(FixNode(n, contentId)) <==> ExtractAll(n.text) == []
  {
  }

  // ---------------------------------------------------------------------------
  // _post_process_nodes_fix_relationships
  // ---------------------------------------------------------------------------

  /** The nodes as a pass leaves them, and the `KeyError` it raised, if any. */
  datatype Pass = Pass(nodes: seq<TextNode>, error: Option<KeyError>)

  /** The number of adjacent pairs: `zip(nodes[:-1], nodes[1:])`. */
  function Pairs(n: nat): nat {
    if n == 0 then 0 else n - 1
  }

  /** What a node keeps through the pass: id, text, source, header entries and headers. */
  predicate Kept(a: TextNode, b: TextNode) {
    a.id == b.id && a.text == b.text && a.metadata.source == b.metadata.source
    && a.metadata.entries == b.metadata.entries && a.metadata.headers == b.metadata.headers
  }

  /** The two nodes of a pair as the loop body leaves them, and the `KeyError` it raised. */
  datatype Step = Step(first: TextNode, second: TextNode, error: Option<KeyError>)

  /**
   * The loop body for the pair `(a, b)`. Different sources: pop NEXT from `a`, then
   * PREVIOUS from `b` (a missing one raises). Same source: link both ways, and hand `a`'s
   * paragraph list to `b` when `b` has none.
   */
  function LinkStep(a: TextNode, b: TextNode): (r: Step)
    ensures Kept(a, r.first) && Kept(b, r.second)
    ensures r.first.prev == a.prev && r.first.metadata == a.metadata && r.second.next == b.next
    ensures !LacksParagraphs(b) ==> r.second.metadata == b.metadata
    ensures r.second.metadata.paragraphs in {b.metadata.paragraphs, a.metadata.paragraphs}
    ensures r.error.None? <==>
            if a.metadata.source != b.metadata.source then a.next.Some? && b.prev.Some?
            else !LacksParagraphs(b) || a.metadata.paragraphs.Some?
  {
    if a.metadata.source != b.metadata.source then
      if a.next.None? then Step(a, b, Some(MissingKey("NEXT")))
      else if b.prev.None? then Step(a.(next := None), b, Some(MissingKey("PREVIOUS")))
      else Step(a.(next := None), b.(prev := None), None)
    else
      var first := a.(next := Some(b.id));
      var second := b.(prev := Some(a.id));
      if !LacksParagraphs(b) then Step(first, second, None)
      else if a.metadata.paragraphs.None? then Step(first, second, Some(MissingKey("paragraphs")))
      else Step(first, second.(metadata := b.metadata.(paragraphs := a.metadata.paragraphs)), None)
  }

  /** The links a pair sets (or removes), and the paragraphs it carries, when it raises nothing. */
  predicate StepDone(a: TextNode, b: TextNode, first: TextNode, second: TextNode) {
    if a.metadata.source == b.metadata.source then
      first.next == Some(b.id) && second.prev == Some(a.id)
      && (LacksParagraphs(b) ==> second.metadata.paragraphs == first.metadata.paragraphs)
    else
      first.next.None? && second.prev.None?
  }

  lemma LinkStepDone(a: TextNode, b: TextNode)
    requires LinkStep(a, b).error.None?
    ensures StepDone(a, b, LinkStep(a, b).first, LinkStep(a, b).second)
  {
  }

  /** The pair `(s[k], s[k + 1])` handled in the list. */
  function LinkPair(s: seq<TextNode>, k: nat): (p: Pass)
    requires k + 1 < |s|
  {
    var r := LinkStep(s[k], s[k + 1]);
    Pass(s[k := r.first][k + 1 := r.second], r.error)
  }

  /** The pass after the first `i` pairs (it stops at the first pair that raises). */
  function LinkPass(s: seq<TextNode>, i: nat): (p: Pass)
    requires i <= Pairs(|s|)
    ensures |p.nodes| == |s|
    decreases i
  {
    if i == 0 then Pass(s, None)
    else
      var p := LinkPass(s, i - 1);
      if p.error.Some? then p else LinkPair(p.nodes, i - 1)
  }

  /**
   * What any prefix of the pass keeps: every node's id, text, source and headers; the
   * nodes after the last pair handled; the first node's PREVIOUS link and metadata; and
   * the metadata of every node that came with paragraphs.
   */
  lemma {:induction false} LinkPassFrame(s: seq<TextNode>, i: nat)
    requires i <= Pairs(|s|)
    ensures forall k :: 0 <= k < |s| ==> Kept(s[k], LinkPass(s, i).nodes[k])
    ensures forall k :: i < k < |s| ==> LinkPass(s, i).nodes[k] == s[k]
    ensures forall k :: i <= k < |s| ==> LinkPass(s, i).nodes[k].next == s[k].next
    ensures |s| > 0 ==> LinkPass(s, i).nodes[0].prev == s[0].prev && LinkPass(s, i).nodes[0].metadata == s[0].metadata
    ensures forall k :: 0 <= k < |s| && !LacksParagraphs(s[k]) ==> LinkPass(s, i).nodes[k].metadata == s[k].metadata
    decreases i
  {
    if i > 0 {
      LinkPassFrame(s, i - 1);
      var p := LinkPass(s, i - 1);
      if p.error.None? {
        var r := LinkStep(p.nodes[i - 1], p.nodes[i]);
        assert p.nodes[i] == s[i];
        assert LinkPass(s, i).nodes == p.nodes[i - 1 := r.first][i := r.second];
      }
    }
  }

  /** The facts the pair `k` establishes: links one way or the other, and the carried paragraphs. */
  predicate PairDone(s: seq<TextNode>, t: seq<TextNode>, k: nat)
    requires k + 1 < |s| == |t|
  {
    if s[k].metadata.source == s[k + 1].metadata.source then
      t[k].next == Some(s[k + 1].id) && t[k + 1].prev == Some(s[k].id)
      && (LacksParagraphs(s[k + 1]) ==> t[k + 1].metadata.paragraphs == t[k].metadata.paragraphs)
    else
      t[k].next.None? && t[k + 1].prev.None?
  }

  /** A pass that raised nothing has done every pair it went through, and later pairs undo none of it. */
  lemma {:induction false} LinkPassPairs(s: seq<TextNode>, i: nat)
    requires i <= Pairs(|s|) && LinkPass(s, i).error.None?
    ensures forall k :: 0 <= k < i ==> PairDone(s, LinkPass(s, i).nodes, k)
    decreases i
  {
    if i > 0 {
      var p := LinkPass(s, i - 1);
      LinkPassPairs(s, i - 1);
      LinkPassFrame(s, i - 1);
      var a := p.nodes[i - 1];
      var b := p.nodes[i];
      var r := LinkStep(a, b);
      LinkStepDone(a, b);
      var t := LinkPass(s, i).nodes;
      assert t == p.nodes[i - 1 := r.first][i := r.second];
      assert b == s[i];
      assert PairDone(s, t, i - 1);
      forall k | 0 <= k < i - 1
        ensures PairDone(s, t, k)
      {
        assert PairDone(s, p.nodes, k);
        assert t[k] == p.nodes[k];
      }
    }
  }

  /** Once a pair raises, the pass is over: later pairs change nothing. */
  lemma {:induction false} LinkPassStops(s: seq<TextNode>, i: nat, j: nat)
    requires i <= j <= Pairs(|s|) && LinkPass(s, i).error.Some?
    ensures LinkPass(s, j) == LinkPass(s, i)
    decreases j
  {
    if j > i {
      LinkPassStops(s, i, j - 1);
    }
  }

  /**
   * `_post_process_nodes_fix_relationships`, in place. Returns the `KeyError` raised, if
   * any; the array then holds the nodes as the raising pair left them.
   */
  method FixRelationships(nodes: array<TextNode>) returns (error: Option<KeyError>)
    modifies nodes
    ensures nodes[..] == LinkPass(old(nodes[..]), Pairs(nodes.Length)).nodes
    ensures error == LinkPass(old(nodes[..]), Pairs(nodes.Length)).error
  {
    ghost var s := nodes[..];
    for i := 0 to Pairs(nodes.Length)
      invariant nodes[..] == LinkPass(s, i).nodes && LinkPass(s, i).error.None?
    {
      ghost var before := nodes[..];
      error := LinkPairInPlace(nodes, i);
      assert LinkPass(s, i + 1) == LinkPair(before, i);
      if error.Some? {
        LinkPassStops(s, i + 1, Pairs(nodes.Length));
        return;
      }
    }
    return None;
  }

  /** One iteration of the loop in `_post_process_nodes_fix_relationships`, on `nodes[i]` and `nodes[i + 1]`. */
  method LinkPairInPlace(nodes: array<TextNode>, i: nat) returns (error: Option<KeyError>)
    requires i + 1 < nodes.Length
    modifies nodes
    ensures nodes[..] == LinkPair(old(nodes[..]), i).nodes
    ensures error == LinkPair(old(nodes[..]), i).error
  {
    var a := nodes[i];
    var b := nodes[i + 1];
    ghost var before := nodes[..];
    ghost var r := LinkStep(a, b);
    if a.metadata.source != b.metadata.source {
      if a.next.None? {
        assert before[i := r.first][i + 1 := r.second] == before;
        return Some(MissingKey("NEXT"));
      }
      nodes[i] := a.(next := None);
      if b.prev.None? {
        assert nodes[..] == before[i := r.first][i + 1 := r.second];
        return Some(MissingKey("PREVIOUS"));
      }
      nodes[i + 1] := b.(prev := None);
    } else {
      nodes[i] := a.(next := Some(b.id));
      nodes[i + 1] := b.(prev := Some(a.id));
      if LacksParagraphs(b) {
        if a.metadata.paragraphs.None? {
          assert nodes[..] == before[i := r.first][i + 1 := r.second];
          return Some(MissingKey("paragraphs"));
        }
        nodes[i + 1] := nodes[i + 1].(metadata := b.metadata.(paragraphs := a.metadata.paragraphs));
      }
    }
    assert nodes[..] == before[i := r.first][i + 1 := r.second];
    return None;
  }

  /** A pass over nodes that all have a `paragraphs` entry leaves them all with one. */
  lemma {:induction false} LinkPassParagraphs(s: seq<TextNode>, i: nat)
    requires i <= Pairs(|s|)
    requires forall k :: 0 <= k < |s| ==> s[k].metadata.paragraphs.Some?
    ensures forall k :: 0 <= k < |s| ==> LinkPass(s, i).nodes[k].metadata.paragraphs.Some?
    decreases i
  {
    if i > 0 {
      LinkPassParagraphs(s, i - 1);
      var p := LinkPass(s, i - 1);
      if p.error.None? {
        var r := LinkStep(p.nodes[i - 1], p.nodes[i]);
        assert LinkPass(s, i).nodes == p.nodes[i - 1 := r.first][i := r.second];
      }
    }
  }

  /** In a pass that raised nothing, a node that has paragraphs passes them on along a run of the same source. */
  lemma {:induction false} SameSourceRunHasParagraphs(s: seq<TextNode>, i: nat, j: nat)
    requires i <= j < |s| && LinkPass(s, Pairs(|s|)).error.None?
    requires forall k :: i <= k < j ==> s[k].metadata.source == s[k + 1].metadata.source
    requires !LacksParagraphs(LinkPass(s, Pairs(|s|)).nodes[i])
    ensures !LacksParagraphs(LinkPass(s, Pairs(|s|)).nodes[j])
    decreases j - i
  {
    if i < j {
      var t := LinkPass(s, Pairs(|s|)).nodes;
      LinkPassPairs(s, Pairs(|s|));
      LinkPassFrame(s, Pairs(|s|));
      assert PairDone(s, t, i);
      if !LacksParagraphs(s[i + 1]) {
        assert t[i + 1].metadata == s[i + 1].metadata;
      }
      SameSourceRunHasParagraphs(s, i + 1, j);
    }
  }

  // ---------------------------------------------------------------------------
  // parse_documents_into_nodes, parse_nodes_into_text_chunks
  // ---------------------------------------------------------------------------

  /** The number of nodes whose `paragraphs` entry is missing or empty. */
  function CountLacking(s: seq<TextNode>): (r: nat)
    ensures r <= |s|
    ensures r == 0 <==> forall k :: 0 <= k < |s| ==> !LacksParagraphs(s[k])
    decreases |s|
  {
    if s == [] then 0
    else
      assert forall k :: 1 <= k < |s| ==> s[k] == s[1..][k - 1];
      (if LacksParagraphs(s[0]) then 1 else 0) + CountLacking(s[1..])
  }

  /** Why `parse_documents_into_nodes` raised: a `KeyError` from the link pass, or the `ValueError` of the provenance check. */
  datatype ParseError = Key(error: KeyError) | NoParagraphs(count: nat)

  /** Every node refreshed: the state `_post_process_nodes_fix_node` leaves. */
  function FixAll(s: seq<TextNode>, contentId: (string, Metadata) -> string): (r: seq<TextNode>)
    ensures |r| == |s| && forall k :: 0 <= k < |s| ==> r[k] == FixNode(s[k], contentId)
  {
    seq(|s|, k requires 0 <= k < |s| => FixNode(s[k], contentId))
  }

  /** What `parse_documents_into_nodes` returns or raises once the two passes have run. */
  function ParseOutcome(p: Pass): Result<seq<TextNode>, ParseError> {
    if p.error.Some? then Failure(Key(p.error.value))
    else if CountLacking(p.nodes) > 0 then Failure(NoParagraphs(CountLacking(p.nodes)))
    else Success(p.nodes)
  }

  /**
   * `parse_documents_into_nodes` after the splitters: `nodes` is the sentence splitter's
   * output. Both passes run in place; then every node must have a paragraph reference.
   */
  method ParseDocumentsIntoNodes(nodes: array<TextNode>, contentId: (string, Metadata) -> string)
    returns (r: Result<seq<TextNode>, ParseError>)
    modifies nodes
    ensures nodes[..] == LinkPass(FixAll(old(nodes[..]), contentId), Pairs(nodes.Length)).nodes
    ensures r == ParseOutcome(LinkPass(FixAll(old(nodes[..]), contentId), Pairs(nodes.Length)))
  {
    FixNodes(nodes, contentId);
    assert nodes[..] == FixAll(old(nodes[..]), contentId);
    var error := FixRelationships(nodes);
    if error.Some? {
      return Failure(Key(error.value));
    }
    var missing := CountLacking(nodes[..]);
    if missing > 0 {
      return Failure(NoParagraphs(missing));
    }
    return Success(nodes[..]);
  }

  /**
   * The outcome of the check: success exactly when the passes raised nothing and every
   * node has a paragraph reference; the nodes are then the passes' nodes, in order; the
   * count reported is the number of nodes without one.
   */
  lemma ParseOutcomeMeaning(s: seq<TextNode>, contentId: (string, Metadata) -> string)
    ensures var p := LinkPass(FixAll(s, contentId), Pairs(|s|));
      && (ParseOutcome(p).Success? <==> p.error.None? && forall k :: 0 <= k < |s| ==> !LacksParagraphs(p.nodes[k]))
      && (ParseOutcome(p).Success? ==>
            && |ParseOutcome(p).value| == |s|
            && forall k :: 0 <= k < |s| ==>
                 ParseOutcome(p).value[k].id == contentId(s[k].text, s[k].metadata)
                 && ParseOutcome(p).value[k].text == s[k].text)
      && (ParseOutcome(p).Failure? && ParseOutcome(p).error.NoParagraphs? ==>
            0 < ParseOutcome(p).error.count <= |s|)
  {
    var f := FixAll(s, contentId);
    LinkPassFrame(f, Pairs(|s|));
  }

  /** `parse_nodes_into_text_chunks`: one chunk per node, in order, carrying the node's links. */
  function ParseNodesIntoTextChunks(nodes: seq<TextNode>): (r: Result<seq<TextChunk>, KeyError>)
    ensures r.Success? <==> forall k :: 0 <= k < |nodes| ==> nodes[k].metadata.paragraphs.Some?
    ensures r.Success? ==> |r.value| == |nodes| && forall k :: 0 <= k < |nodes| ==>
      r.value[k].id == nodes[k].id && r.value[k].source == nodes[k].metadata.source
      && r.value[k].paragraphs == nodes[k].metadata.paragraphs.value
      && r.value[k].prevId == nodes[k].prev && r.value[k].nextId == nodes[k].next
  {
    FromTextNodes(nodes)
  }

  /**
   * The chunks of a successful parse: each has a paragraph reference, and adjacent
   * chunks of one source point at each other.
   */
  lemma ParsedChunks(s: seq<TextNode>, contentId: (string, Metadata) -> string)
    requires ParseOutcome(LinkPass(FixAll(s, contentId), Pairs(|s|))).Success?
    ensures var nodes := ParseOutcome(LinkPass(FixAll(s, contentId), Pairs(|s|))).value;
      var r := ParseNodesIntoTextChunks(nodes);
      && r.Success? && |r.value| == |s|
      && (forall k :: 0 <= k < |s| ==> r.value[k].paragraphs != [])
      && (forall k :: 0 <= k < |s| - 1 && s[k].metadata.source == s[k + 1].metadata.source ==>
            r.value[k].nextId == Some(r.value[k + 1].id) && r.value[k + 1].prevId == Some(r.value[k].id))
  {
    var f := FixAll(s, contentId);
    var p := LinkPass(f, Pairs(|s|));
    LinkPassFrame(f, Pairs(|s|));
    LinkPassPairs(f, Pairs(|s|));
    forall k | 0 <= k < |s| - 1 && s[k].metadata.source == s[k + 1].metadata.source
      ensures p.nodes[k].next == Some(p.nodes[k + 1].id) && p.nodes[k + 1].prev == Some(p.nodes[k].id)
    {
      assert PairDone(f, p.nodes, k);
    }
  }
}
