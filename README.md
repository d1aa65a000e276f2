# logos: chunk provenance, modelled in Dafny

logos indexes a corpus of books, letters and lectures for retrieval. Every passage
carries paragraph markers such as `[par 12] ` or `(pág. 33 § <n>) `. The pipeline splits
documents into sections and then into chunks. Each chunk keeps the list of paragraph
references it came from, is linked to its neighbours from the same source, and is
rendered as an embedding text (`Source: …`, `Headers: …`, body). This project models
that core and proves what it promises:

- **Paragraph markers** (`Paragraphs`, `ParagraphLaws`, `ParagraphSplit`).
  - The marker pattern is a deterministic matcher. `re.finditer` and `re.sub` are a
    generic left-to-right scan (`Scanning`).
  - `extract_all`, `remove`, `format`, `startswith` and `__str__`/`__hash__` are
    functions. `split` is a method with its loop.
  - Proved: a rendered marker re-extracts to its canonical form, which has the same
    `str`, and `format` is idempotent and keeps what `remove` and `extract_all` see.
    `split`'s piece count and its two index quirks are shown.
- **Section and chunk post-processing** (`Extract`).
  - Header stripping in `_build_node_from_split` is a method with the sorted-key loop.
  - The id and paragraph refresh is a method over an array of nodes.
  - The pair-linking pass is an in-place method. It is proved equal to a node-level
    step function folded over the pairs.
  - The provenance check of `parse_documents_into_nodes` and the conversion to chunks
    are modelled with their error paths.
- **Chunk entities** (`Sources`, `Texts`, `Queries`).
  - Covered: `Source.from_path` and `__str__`, `TextChunk.embed_text` and
    `model_post_init`, and the node and scored-node conversions.
  - Proved: `model_post_init` undoes `embed_text`, and the reranker's round trip keeps
    everything except the neighbour links.
- **Pagination** (`Pagination`). `Paginate` is a class. Proved: the page count is a
  ceiling, pages partition the data, and the count does not follow later page-size
  changes.
- **Text clean-up** (`Cleanup`).
  - The seventeen substitutions of `doc2txt.py clean` are `re.sub` with hand-written
    matchers. The fold over them is a loop.
  - Proved for single rules: `HardSpaces` leaves none of the characters it replaces;
    `StraightDoubleQuotes` and `StraightSingleQuotes` replace each quote by its
    straight form and change nothing else; `SpaceAfterPunctuation` and
    `SpaceBeforeOpeners` add exactly one space inside each pair they target and change
    nothing else, so none of those pairs is left; `SingleSpaces`, `LineStartSpaces`
    and `RepeatedPunctuation` leave none of the pairs they target; `BlankLines` turns
    every run of three or more newlines into exactly two and changes nothing else; `JunkLines` removes a lone junk line; `LeadingNumber`
    and `TrailingNumber` remove only a digit line at the start or the end. After the
    whole chain no non-breaking space, tab or typographic quote is left.

Facts about the code that the model follows:

- `split`'s docstring (paragraph.py:72-74) says the text is split into the paragraphs
  that start with a reference. The cut positions come from the original text, but
  the cuts are applied to the shrinking last piece. A marker at index 0 gives a cut
  position of -1 and so cuts off the last character, and only a marker at index 1 is
  skipped.
- The link pass (extract.py:93-102) removes no node and adds none, and it changes no
  node's text.
- A node without paragraphs receives the whole paragraph list of a predecessor from the
  same source (extract.py:101-102); across a change of source nothing is carried.
- `remove` does not always leave a marker-free text: removing one marker can join the
  characters around it into another marker.

## Model

| member | source | states |
|---|---|---|
| Paragraphs.MatchAtConsumes | src/logos/entities/paragraph.py:13-18 | every marker match spans at least one character and never more than the text (the pattern cannot match the empty string) |
| Paragraphs.MatchAt | src/logos/entities/paragraph.py:13-18 | the marker at the start of a text, page group tried first; a match is at least three characters long, starts with an opener and ends with a closer and a space |
| Paragraphs.ExtractAll | src/logos/entities/paragraph.py:43-47 | `re.finditer` over the text, one reference per match; `ParagraphLaws.ExtractAllIsFindIter` and `ParagraphLaws.ExtractAtFirst` state what it finds |
| Paragraphs.Remove | src/logos/entities/paragraph.py:50-54 | the length left is the input length minus the total length of the markers found |
| Paragraphs.Format | src/logos/entities/paragraph.py:57-61 | `re.sub` rewriting each marker as `(str(r)) `; `ParagraphLaws.FormatExtract`, `ParagraphLaws.FormatRemove` and `ParagraphLaws.FormatIdempotent` state what it keeps |
| Paragraphs.StartsWithMarker | src/logos/entities/paragraph.py:64-68 | `re.match` anchored at index 0; `ParagraphLaws.StartsWithFirstFound` ties it to the first marker found |
| Paragraphs.ToString | src/logos/entities/paragraph.py:87-93 | `§ p` without a page, `<type> <n> § p` with one, `pág.` standing for a missing type or `pag`; `ParagraphLaws.RenderedMatch` shows the rendering is read back as a marker |
| Paragraphs.HashKey | src/logos/entities/paragraph.py:84-85 | the string `__hash__` hashes, its `__str__`; `ParagraphLaws.HashKeyCanonical` says when two keys agree |
| Paragraphs.Canonical | src/logos/entities/paragraph.py:87-93 | the canonical reference keeps paragraph and page number, has a page type exactly when it has a page number, and renders like the original |
| Paragraphs.MatchAtPaged | src/logos/entities/paragraph.py:13-18 | an opener, a page group `<type> <digits> ` and a paragraph group (`par` or `§`, a space, digits, a closer and a space) form one marker with that paragraph, page number and page type, spanning exactly those parts |
| Paragraphs.MatchAtUnpaged | src/logos/entities/paragraph.py:13-18 | an opener directly followed by the paragraph group is a marker without page number or page type |
| Paragraphs.ParAtExcludesPage | src/logos/entities/paragraph.py:15-16 | where a paragraph group starts no page group can start, so trying the optional page group first gives the regex's backtracking result |
| Paragraphs.MatchAgree | src/logos/entities/paragraph.py:13-18 | whether and how a marker matches depends only on the characters it spans |
| Paragraphs.MatchNoInnerOpener | src/logos/entities/paragraph.py:13-18 | no `[` or `(` occurs inside a marker after its opener |
| Paragraphs.MatchWellFormed | src/logos/entities/paragraph.py:15 | an extracted reference has a page number exactly when it has a page type, and the page type is one of `pag`, `pág.`, `solapas`, `tapa` |
| ParagraphLaws.UnpagedMarkerOf | src/logos/entities/paragraph.py:13-18 | `(§ d) ` for a digit string `d` is a marker of paragraph `int(d)`, five characters longer than `d` |
| ParagraphLaws.PagedMarkerOf | src/logos/entities/paragraph.py:13-18 | `(k n § d) ` for a page keyword `k` is a marker with page type `k`, page `int(n)` and paragraph `int(d)` spanning the whole text |
| ParagraphLaws.PageKeywordOf | src/logos/entities/paragraph.py:15 | `pág.`, `solapas` and `tapa` written out are read as that page keyword |
| ParagraphLaws.CanonicalToString | src/logos/entities/paragraph.py:87-93 | the canonical reference renders like the original, and canonicalising twice changes nothing |
| ParagraphLaws.RenderedMatch | src/logos/entities/paragraph.py:61-93 | the rendered form `(str(r)) ` of a well-formed reference is itself a marker, spanning exactly that text and extracting to the canonical reference |
| ParagraphLaws.HashKeyCanonical | src/logos/entities/paragraph.py:84-93 | two well-formed references hash alike if and only if their canonical forms are equal |
| ParagraphLaws.FormatExtract | src/logos/entities/paragraph.py:47-61 | extracting from a formatted text gives the canonical forms of the original references, in order |
| ParagraphLaws.FormatRemove | src/logos/entities/paragraph.py:54-61 | removing markers from a formatted text gives what removing them from the original gives |
| ParagraphLaws.FormatIdempotent | src/logos/entities/paragraph.py:61 | formatting twice is formatting once |
| ParagraphLaws.FormatStartsWith | src/logos/entities/paragraph.py:61-68 | a formatted text starts with a marker if and only if the original does |
| ParagraphLaws.ExtractAllIsFindIter | src/logos/entities/paragraph.py:47 | the extracted references are the values of the leftmost non-overlapping matches, in increasing position, each scan resuming right after the previous match |
| ParagraphLaws.RemoveAtFirst | src/logos/entities/paragraph.py:54 | removal keeps everything before the first marker, drops the marker, and goes on after it |
| ParagraphLaws.FormatAtFirst | src/logos/entities/paragraph.py:61 | formatting keeps everything before the first marker, replaces the marker by its rendered form, and goes on after it |
| ParagraphLaws.ExtractAtFirst | src/logos/entities/paragraph.py:47 | the first extracted reference is the first marker's, followed by those after it |
| ParagraphLaws.NoMarkersUnchanged | src/logos/entities/paragraph.py:54-61 | a text with no marker is unchanged by removal and by formatting |
| ParagraphLaws.StartsWithFirstFound | src/logos/entities/paragraph.py:47-68 | a text starts with a marker if and only if the first marker found starts at index 0 |
| ParagraphSplit.Cut | src/logos/entities/paragraph.py:80-81 | one cut keeps all pieces but the last and never shortens the list |
| ParagraphSplit.SplitAll | src/logos/entities/paragraph.py:75-82 | the pieces after the cuts of a list of matches, never empty; `ParagraphSplit.SplitAllLength`, `ParagraphSplit.SplitAllInfixes` and `ParagraphSplit.SplitAllStripped` state its properties |
| ParagraphSplit.SplitAllLength | src/logos/entities/paragraph.py:75-82 | the result has one piece more than there are matches not starting at index 1 |
| ParagraphSplit.SplitAllStep | src/logos/entities/paragraph.py:76-81 | each match found in the original text applies one cut to the pieces so far |
| ParagraphSplit.Split | src/logos/entities/paragraph.py:75-82 | the loop over the original text's matches builds exactly the specified pieces, one more than the matches not at index 1 |
| ParagraphSplit.SplitAt | src/logos/entities/paragraph.py:76-82 | the loop body, appending the stripped tail and overwriting the stripped head, builds the pieces for any list of matches |
| ParagraphSplit.SplitNoMarkers | src/logos/entities/paragraph.py:75 | a text without markers splits into itself alone |
| ParagraphSplit.SplitAllInfixes | src/logos/entities/paragraph.py:80-81 | every piece is a substring of the text |
| ParagraphSplit.SplitAllStripped | src/logos/entities/paragraph.py:80-81 | once a cut is made every piece has no surrounding whitespace |
| ParagraphSplit.MarkerAtStartCutsLastChar | src/logos/entities/paragraph.py:77-81 | a marker at index 0 gives cut position -1, which separates the last character |
| ParagraphSplit.MarkerAtOneSkipped | src/logos/entities/paragraph.py:77-79 | a marker at index 1 is skipped and makes no cut |
| Sources.ParseSourceType | src/logos/entities/source.py:13-24 | a value yields the member that has that value, and no member otherwise |
| Sources.ParseTypeValue | src/logos/entities/source.py:13-24 | every member is found from its own value |
| Sources.StemSuffix | src/logos/entities/source.py:43 | stem and suffix make up the file name, and a suffix is a dot followed by dot-free characters |
| Sources.Stem | src/logos/entities/source.py:43 | `PurePath.stem`: the name without its last suffix; with `Sources.Suffix` it makes up the name, as `Sources.StemSuffix` states |
| Sources.Suffix | src/logos/entities/source.py:43 | `PurePath.suffix`: from the last dot, unless that dot leads or ends the name; `Sources.StemSuffix` states its shape |
| Sources.TypeKey | src/logos/entities/source.py:41-44 | the type key is the lower-cased folder name, `words` kept whole, otherwise with trailing `s` stripped |
| Sources.FromPath | src/logos/entities/source.py:36-46 | a source is built exactly when the folder's type key names a member; then the path is kept verbatim, the title is the file stem, and the type has the key's value |
| Sources.TypeTitleCapitalises | src/logos/entities/source.py:54-55 | the shown type is its value with the first letter upper-cased |
| Sources.TypeTitle | src/logos/entities/source.py:55 | `str.title()` of each member's value; `Sources.TypeTitleCapitalises` states it |
| Sources.ToString | src/logos/entities/source.py:54-55 | the title-cased type, a space and the repr of the title; `Sources.KindOfToString` and `Sources.ToStringNoNewline` state what can be read from it |
| Sources.KindOfToString | src/logos/entities/source.py:54-55 | the type can be read back from the rendered source |
| Sources.ToStringNoNewline | src/logos/entities/source.py:54-55 | the rendered source has no newline |
| Sources.PluralFolder | src/logos/entities/source.py:41-44 | a plural folder name (value plus `s`) and the value itself give the value, `words` included |
| Sources.FolderAndFile | src/logos/entities/source.py:41-43 | in `dir/folder/file` the parent name is `folder` and the name is `file` |
| Sources.FromFolder | src/logos/entities/source.py:36-46 | a file in a folder whose key names a type becomes that source |
| Sources.FolderNames | src/logos/entities/source.py:41-44 | `books` gives `book`, `Letters` gives `letter`, `article` and `words` stay, and every trailing `s` goes |
| Sources.UnknownFolderFails | src/logos/entities/source.py:41-44 | a folder naming no type raises; there is no fallback to `other` |
| Sources.NoFolderFails | src/logos/entities/source.py:41-44 | a bare file name has an empty parent and raises |
| Texts.FirstBlankLine | src/logos/entities/text.py:33 | the index found holds `"\n\n"` and no earlier index does |
| Texts.PostInitText | src/logos/entities/text.py:32-33 | a text starting with `Source: ` loses everything up to its first blank line; any other text is kept |
| Strings.Repr | src/logos/entities/text.py:76 | Python's `repr` of a string: quoted with `'`, or with `"` exactly when the string has a `'` and no `"`, both ends the same quote |
| Strings.ReprCharPlain | src/logos/entities/text.py:76 | a character is written as itself exactly when it is not a backslash, not the chosen quote and printable; otherwise it becomes an escape starting with a backslash |
| Strings.ReprZeroWidthSpace | src/logos/entities/source.py:55 | a non-printable character above U+00FF gets a `\u` escape: the zero-width space is shown as `'\u200b'` |
| Strings.ReprNoNewline | src/logos/entities/text.py:76-77 | a repr has no newline, so the header line stays one line |
| Texts.QuotedHeaders | src/logos/entities/text.py:76 | one repr per header, in order, with Python's quoting and escapes |
| Texts.HeaderLine | src/logos/entities/text.py:77 | empty exactly when there are no headers; otherwise a single line starting `Headers: ` and ending in its only newline |
| Texts.EmbedText | src/logos/entities/text.py:71-78 | the `Source:` line, the header line and the body; `Texts.EmbedTextLayout` and `Texts.PostInitEmbedText` state its layout and its inverse |
| Texts.NewTextChunk | src/logos/entities/text.py:28-33 | every field is kept as given except the text: a text not starting `Source: ` is kept, and one that does loses exactly its head up to the first blank line |
| Texts.EmbedTextLayout | src/logos/entities/text.py:71-78 | the embedding text is a head starting `Source: `, one blank line and the body, and the head contains no blank line |
| Texts.PostInitEmbedText | src/logos/entities/text.py:32-78 | building a chunk from a chunk's embedding text gives back exactly its body |
| Texts.FromTextNode | src/logos/entities/text.py:35-48 | a chunk is built exactly when the node has a `paragraphs` entry, possibly empty; otherwise `KeyError('paragraphs')` |
| Texts.FromTextNodes | src/logos/entities/text.py:50-55 | all nodes convert or the first failure is raised; on success one chunk per node, in order |
| Texts.ToSimpleTextNode | src/logos/entities/text.py:57-69 | the plain node keeps the id, carries headers and paragraphs, and has no relationships |
| Texts.SimpleTextNodeRoundTrip | src/logos/entities/text.py:28-69 | through a plain node and back a chunk keeps id, body, source, headers and paragraphs, and loses its links |
| Queries.FromNodeWithScore | src/logos/entities/query.py:21-29 | a result is built exactly when the node converts, with the score carried unchanged |
| Queries.ToSimpleNodeWithScore | src/logos/entities/query.py:31-38 | the scored node carries the score unchanged and the chunk as a plain node |
| Queries.ScoredRoundTrip | src/logos/entities/query.py:21-38 | the reranker's round trip keeps id, body, source, headers, paragraphs and score, and clears both links |
| Queries.LinkedResultChanges | src/logos/entities/query.py:21-38 | a linked result never survives that round trip unchanged |
| Extract.SortedKeys | src/logos/data/extract.py:66 | every metadata key once, in strictly increasing code-point order |
| Extract.LeastExists | src/logos/data/extract.py:66 | a non-empty key set has a least key |
| Extract.LeastUnique | src/logos/data/extract.py:66 | the least key is unique |
| Extract.StripHeader | src/logos/data/extract.py:69 | after one header step the body has no surrounding whitespace and is no longer than before |
| Extract.SectionHeaders | src/logos/data/extract.py:66-72 | at most one header per key and never `NULL` |
| Extract.SectionText | src/logos/data/extract.py:66-69 | the body after the header steps for the keys, in order; `Extract.SectionTextStep`, `Extract.SectionTextStripped` and `Extract.SectionTextNoHeaders` state its properties |
| Extract.Unheadered | src/logos/data/extract.py:66-70 | the metadata entries left once the header keys are popped; `Extract.UnheaderedStep` states each step |
| Extract.BuildNodeFromSplit | src/logos/data/extract.py:59-77 | the loop over the sorted keys builds the specified body and metadata; no header key is left in the metadata |
| Extract.SectionTextStep | src/logos/data/extract.py:67-69 | one loop step strips the header's value when the key is a header key, and changes nothing otherwise |
| Extract.SectionHeadersStep | src/logos/data/extract.py:70-72 | one loop step appends the popped value unless it is `NULL` |
| Extract.UnheaderedStep | src/logos/data/extract.py:67-70 | one loop step pops the key exactly when it is a header key |
| Extract.SectionTextStripped | src/logos/data/extract.py:69 | once any header key was processed the body has no surrounding whitespace |
| Extract.SectionTextNoHeaders | src/logos/data/extract.py:66-69 | with no header key the body is untouched |
| Extract.SectionHeadersAppend | src/logos/data/extract.py:66-72 | headers follow key order: the headers of two key runs are concatenated |
| Extract.SectionHeadersMembers | src/logos/data/extract.py:66-72 | a string is among the headers if and only if it is not `NULL` and is the value of a header key |
| Extract.FixNode | src/logos/data/extract.py:84-86 | the refreshed node keeps text, links, source and headers; its paragraphs are those extracted from its body |
| Extract.FixNodes | src/logos/data/extract.py:80-86 | every node of the array is refreshed in place |
| Extract.FixNodeTwice | src/logos/data/extract.py:84-86 | refreshing a node twice keeps the text, metadata and links of refreshing it once |
| Extract.FixedLacksParagraphs | src/logos/data/extract.py:86 | a refreshed node lacks paragraphs if and only if its body has no marker |
| Extract.LinkStep | src/logos/data/extract.py:94-102 | one pair step keeps ids, texts, sources and header data; the second node's paragraphs are its own or the first's; it raises exactly when a missing link is popped or a paragraph list to carry is missing |
| Extract.LinkStepDone | src/logos/data/extract.py:94-102 | a step that does not raise links same-source neighbours both ways and carries the paragraphs to a node lacking them; it unlinks different sources |
| Extract.LinkPair | src/logos/data/extract.py:93-102 | the list after one pair step at a position; `Extract.LinkPairInPlace` is its in-place loop body |
| Extract.LinkPass | src/logos/data/extract.py:93-102 | the pass never drops or adds nodes |
| Extract.LinkPassFrame | src/logos/data/extract.py:93-102 | the pass keeps every node's id, text, source and headers; it leaves nodes after the current pair alone, never changes the first node's metadata, and never touches nodes that have paragraphs |
| Extract.LinkPassPairs | src/logos/data/extract.py:93-102 | when no step raises, every pair is linked (or unlinked) as its step says |
| Extract.LinkPassStops | src/logos/data/extract.py:95-96 | a raised `KeyError` ends the pass: nothing later changes |
| Extract.FixRelationships | src/logos/data/extract.py:89-102 | the in-place loop leaves the array and the error exactly as the pass specifies |
| Extract.LinkPairInPlace | src/logos/data/extract.py:94-102 | one loop iteration updates the pair in the array and returns the error exactly as the pair step specifies, leaving every other node untouched |
| Extract.LinkPassParagraphs | src/logos/data/extract.py:99-102 | if every node has a paragraph list, every node still has one after the pass |
| Extract.SameSourceRunHasParagraphs | src/logos/data/extract.py:99-102 | along a run of same-source nodes, paragraphs present at the start are carried to every later node |
| Extract.CountLacking | src/logos/data/extract.py:123 | the count is at most the node count and is zero if and only if every node has paragraphs |
| Extract.FixAll | src/logos/data/extract.py:84-86 | one refreshed node per node, in order |
| Extract.ParseDocumentsIntoNodes | src/logos/data/extract.py:119-127 | both passes run in place; the result is the nodes, the `KeyError`, or the count of nodes without paragraphs |
| Extract.ParseOutcome | src/logos/data/extract.py:122-127 | the `KeyError` of a step, else the count of nodes without paragraphs when there are any, else the nodes; `Extract.ParseOutcomeMeaning` states its meaning |
| Extract.ParseOutcomeMeaning | src/logos/data/extract.py:122-127 | success exactly when no step raised and every node has paragraphs; then the nodes are the input's, in order, with content ids; a reported count is between 1 and the node count |
| Extract.ParseNodesIntoTextChunks | src/logos/data/extract.py:130-134 | success exactly when every node has a `paragraphs` entry, possibly empty; then one chunk per node, in order, with id, source, paragraphs and links copied |
| Extract.ParsedChunks | src/logos/data/extract.py:105-134 | after a successful parse every chunk has a non-empty paragraph list and same-source neighbours are linked both ways |
| Pagination.TotalPagesIsCeiling | src/logos/app/components/paginate.py:55 | the page count is the ceiling of items over page size, and zero exactly for no items |
| Pagination.TotalPages | src/logos/app/components/paginate.py:55 | `(n + page_size - 1) // page_size`; `Pagination.TotalPagesIsCeiling` proves it is the ceiling |
| Pagination.Clip | src/logos/app/components/paginate.py:63 | a slice bound is clipped to the data length |
| Pagination.Paginate.constructor | src/logos/app/components/paginate.py:36-55 | the fields are stored and the page count is computed once, consistently with the data |
| Pagination.Paginate.GetPage | src/logos/app/components/paginate.py:57-63 | a page has at most page-size items and is empty exactly when it starts past the data |
| Pagination.Paginate.Incremental | src/logos/app/components/paginate.py:65-103 | the selected size becomes the page size while the page count and data stay; with no page the number input fails (its minimum 1 is above its maximum 0); otherwise the chosen page is between 1 and the page count; the object stays consistent exactly when the new size gives the old count |
| Pagination.Paginate.PagesPrefix | src/logos/app/components/paginate.py:57-63 | the first `k` pages are the first `k * pageSize` items |
| Pagination.Paginate.PagesCoverData | src/logos/app/components/paginate.py:55-63 | pages 1 to the page count, concatenated, are exactly the data |
| Pagination.Paginate.PageInRangeNonEmpty | src/logos/app/components/paginate.py:55-63 | every page from 1 to the page count is non-empty |
| Pagination.Paginate.PageBeyondEmpty | src/logos/app/components/paginate.py:55-63 | every page past the page count is empty |
| Pagination.Paginate.OfferedPagesCover | src/logos/app/components/paginate.py:53-63 | the pages offered (1 to the stored page count) give back all the data if and only if the stored count times the current page size covers it |
| Cleanup.MatchHardSpace | scripts/doc2txt.py:50 | a match is one non-breaking space or tab, replaced by a space |
| Cleanup.MatchEmptyBrackets | scripts/doc2txt.py:52 | a match is an opener, whitespace and a closer, and its replacement brings no new character |
| Cleanup.MatchNoSpaceAfter | scripts/doc2txt.py:54 | a match spans two characters and its replacement uses only them and a space |
| Cleanup.MatchNoSpaceBefore | scripts/doc2txt.py:56 | a match spans two characters and its replacement uses only them and a space |
| Cleanup.MatchSpaces | scripts/doc2txt.py:58 | a match is a run of spaces, replaced by one space |
| Cleanup.MatchSpaceAfterOpener | scripts/doc2txt.py:60 | a match spans two characters and its replacement is taken from them |
| Cleanup.MatchSpaceBeforeCloser | scripts/doc2txt.py:62 | a match spans two characters and its replacement is taken from them |
| Cleanup.MatchDoubleQuote | scripts/doc2txt.py:64 | a match is one typographic quote, replaced by `"` |
| Cleanup.MatchSingleQuote | scripts/doc2txt.py:66 | a match is one low quote, replaced by `'` |
| Cleanup.MatchLineStart | scripts/doc2txt.py:68 | a match is a newline and spaces, replaced by a newline |
| Cleanup.MatchLineEnd | scripts/doc2txt.py:70 | a match is spaces and a newline, replaced by a newline |
| Cleanup.MatchJunkLine | scripts/doc2txt.py:72 | a match is a line between two newlines, replaced by one newline |
| Cleanup.MatchNewlines | scripts/doc2txt.py:74 | a match is a run of newlines, replaced by two |
| Cleanup.MatchSpaceBeforePunctuation | scripts/doc2txt.py:76 | a match spans two characters and its replacement is taken from them |
| Cleanup.MatchRepeatedPunctuation | scripts/doc2txt.py:78 | a match is a run of one punctuation mark, replaced by one mark |
| Cleanup.MatchTrailingNumber | scripts/doc2txt.py:82 | a match is deleted and brings no character |
| Cleanup.HardSpaces | scripts/doc2txt.py:50 | the `re.sub` of the rule at this line of the list; `Cleanup.RuleRemoves` states what it achieves |
| Cleanup.EmptyBrackets | scripts/doc2txt.py:52 | the `re.sub` of the rule at this line of the list; `Cleanup.RuleKeepsAbsent` bounds what it can bring |
| Cleanup.SpaceAfterPunctuation | scripts/doc2txt.py:54 | the `re.sub` of the rule at this line of the list; `Cleanup.SpaceAfterPunctuationWrites` proves exactly one space is added inside each such pair and nothing else changes |
| Cleanup.SpaceBeforeOpeners | scripts/doc2txt.py:56 | the `re.sub` of the rule at this line of the list; `Cleanup.SpaceBeforeOpenersWrites` proves exactly one space is added inside each such pair and nothing else changes |
| Cleanup.SingleSpaces | scripts/doc2txt.py:58 | the `re.sub` of the rule at this line of the list; `Cleanup.SingleSpacesLeaveNone` states what it achieves |
| Cleanup.OpenerSpace | scripts/doc2txt.py:60 | the `re.sub` of the rule at this line of the list; `Cleanup.RuleKeepsAbsent` bounds what it can bring |
| Cleanup.CloserSpace | scripts/doc2txt.py:62 | the `re.sub` of the rule at this line of the list; `Cleanup.RuleKeepsAbsent` bounds what it can bring |
| Cleanup.StraightDoubleQuotes | scripts/doc2txt.py:64 | the `re.sub` of the rule at this line of the list; `Cleanup.StraightDoubleQuotesWrites` proves each typographic quote becomes `"` and nothing else changes |
| Cleanup.StraightSingleQuotes | scripts/doc2txt.py:66 | the `re.sub` of the rule at this line of the list; `Cleanup.StraightSingleQuotesWrites` proves each low quote becomes `'` and nothing else changes |
| Cleanup.LineStartSpaces | scripts/doc2txt.py:68 | the `re.sub` of the rule at this line of the list; `Cleanup.LineStartSpacesLeavesNone` states what it achieves |
| Cleanup.LineEndSpaces | scripts/doc2txt.py:70 | the `re.sub` of the rule at this line of the list; `Cleanup.RuleKeepsAbsent` bounds what it can bring |
| Cleanup.JunkLines | scripts/doc2txt.py:72 | the `re.sub` of the rule at this line of the list; `Cleanup.JunkLineRemoved` and `Cleanup.AdjacentJunkLineKept` states what it achieves |
| Cleanup.BlankLines | scripts/doc2txt.py:74 | the `re.sub` of the rule at this line of the list; `Cleanup.BlankLinesWrites` proves every run of three or more newlines becomes exactly two and nothing else changes |
| Cleanup.PunctuationSpace | scripts/doc2txt.py:76 | the `re.sub` of the rule at this line of the list; `Cleanup.RuleKeepsAbsent` bounds what it can bring |
| Cleanup.RepeatedPunctuation | scripts/doc2txt.py:78 | the `re.sub` of the rule at this line of the list; `Cleanup.RepeatedPunctuationLeavesNone` states what it achieves |
| Cleanup.LeadingNumber | scripts/doc2txt.py:80 | the rule at this line of the list, `^[\d]+\n{2}` removed at the start of the text only; `Cleanup.LeadingNumberAtStart` and `Cleanup.LeadingNumberRemoved` states what it achieves |
| Cleanup.TrailingNumber | scripts/doc2txt.py:82 | the `re.sub` of the rule at this line of the list; `Cleanup.TrailingNumberAtEnd` states what it achieves |
| Cleanup.ApplyAll | scripts/doc2txt.py:85-89 | the rules applied in list order, each to the previous output; `Cleanup.Clean` is its loop and `Cleanup.ApplyNext` its step |
| Cleanup.Clean | scripts/doc2txt.py:85-89 | the loop applies every rule in list order, each to the previous rule's output |
| Cleanup.ApplyNext | scripts/doc2txt.py:87-88 | the first `k + 1` rules are the first `k` followed by rule `k` |
| Cleanup.RuleKeepsAbsent | scripts/doc2txt.py:48-83 | no rule brings a character other than a space, quote or newline that its input lacks |
| Cleanup.RuleRemoves | scripts/doc2txt.py:50-66 | the first rule leaves no non-breaking space or tab; the quote rules leave no typographic or low quote |
| Cleanup.RemovedStaysRemoved | scripts/doc2txt.py:48-89 | once its rule has run, such a character never comes back in later rules |
| Cleanup.CleanedPlain | scripts/doc2txt.py:48-89 | a cleaned text has no non-breaking space, tab, typographic quote or low quote |
| Cleanup.SpaceAfterPunctuationLeavesNone | scripts/doc2txt.py:54 | after the rule no closer or punctuation mark is directly followed by a word character |
| Cleanup.SpaceBeforeOpenersLeavesNone | scripts/doc2txt.py:56 | after the rule no word character is directly followed by an opener |
| Cleanup.SingleSpacesLeaveNone | scripts/doc2txt.py:58 | after the rule no two spaces are neighbours |
| Cleanup.LineStartSpacesLeavesNone | scripts/doc2txt.py:68 | after the rule no newline is followed by a space |
| Cleanup.JunkLineRemoved | scripts/doc2txt.py:72 | a line of spaces, punctuation and digits between two newlines is removed with one of them |
| Cleanup.AdjacentJunkLineKept | scripts/doc2txt.py:72 | of two such lines in a row only the first goes, because the match takes the shared newline |
| Cleanup.BlankLinesLimit | scripts/doc2txt.py:74 | after the rule no three newlines are in a row, and a text that started with three or more starts with exactly two |
| Cleanup.SubStraightens | scripts/doc2txt.py:64-66 | a substitution of each character of a set by one fixed character writes the text with exactly those characters replaced |
| Cleanup.StraightDoubleQuotesWrites | scripts/doc2txt.py:64 | the rule equals the text with each of `‘’“”` replaced by `"` and every other character kept, position by position |
| Cleanup.StraightSingleQuotesWrites | scripts/doc2txt.py:66 | the rule equals the text with each of `‚‛` replaced by `'` and every other character kept, position by position |
| Cleanup.SubSpaces | scripts/doc2txt.py:54-56 | a substitution writing `\1 \2` for a two-character pair whose second character never starts another pair adds exactly one space inside every pair and changes nothing else |
| Cleanup.SpacedHit | scripts/doc2txt.py:54-56 | a pair at the start gets its space, and the rest is handled after the pair |
| Cleanup.SpaceAfterPunctuationWrites | scripts/doc2txt.py:54 | the rule equals the text with one space added after each of `)],.!?` that is followed by a word character, and nothing else changed |
| Cleanup.SpaceBeforeOpenersWrites | scripts/doc2txt.py:56 | the rule equals the text with one space added after each word character that is followed by `(` or `[`, and nothing else changed |
| Cleanup.KeepTwoFresh | scripts/doc2txt.py:74 | newlines before a text do not change what is kept when they cannot make three with its leading ones |
| Cleanup.KeepTwoSkip | scripts/doc2txt.py:74 | after two newlines every further leading newline is dropped |
| Cleanup.BlankLinesWrites | scripts/doc2txt.py:74 | the rule equals the text without each newline that follows two newlines: every run of three or more becomes exactly two, shorter runs and all other characters are kept |
| Cleanup.RepeatedPunctuationLeavesNone | scripts/doc2txt.py:78 | after the rule no punctuation mark is directly repeated |
| Cleanup.LeadingNumberAtStart | scripts/doc2txt.py:80 | only a digit line and blank line at the very start are removed; a text not starting with a digit is kept |
| Cleanup.LeadingNumberRemoved | scripts/doc2txt.py:80 | a leading digit line followed by a blank line is removed |
| Cleanup.TrailingMatch | scripts/doc2txt.py:82 | a match is a blank line and a digit line ending the text or preceding its final newline |
| Cleanup.TrailingNumberAtEnd | scripts/doc2txt.py:82 | the rule removes at most one blank line and digit line, and only at the end or before a final newline |

## Left out

- File and process I/O are not modelled. This covers loading documents, `Source.load`,
  pickle persistence, the CLI walk, the external document converters and the file loop
  of `clean`. `Cleanup.Clean` takes one file's contents.
- The library splitters (`MarkdownNodeParser`, `SentenceSplitter`) are not modelled.
  `Extract.BuildNodeFromSplit` receives the section text and metadata. The passes of
  `Extract.ParseDocumentsIntoNodes` receive the splitter's node list.
- The node id is a parameter. `uuid5` over the rendered content (the name-based UUID of
  section 4.3 of RFC 4122) and the library's `MetadataMode.ALL` rendering are one
  deterministic function, `contentId`.
- `Nodes.Metadata` always has a source, as every loaded document does. The
  `KeyError('source')` that `TextChunk.from_text_node` and the link pass would raise for
  a node without one is therefore not modelled.
- Node objects are values in an array, so aliasing between node objects is not modelled.
- The reranker, txtai index, search wrappers, Streamlit UI, configuration and
  environment tweaks are not part of this model.
- Python's `hash` itself is not modelled. `ParagraphReference.__hash__` is the string it
  hashes.
- `Paragraphs.MatchAt`: `\d` is ASCII digits only. Python also accepts other Unicode
  digits.
- `Cleanup.IsWord`: `\w` is taken on Latin-1 text, and `\d` is ASCII digits. Python's
  Unicode classes are wider.
- `Sources.TypeKey`: lower-casing covers ASCII letters only.
- `Sources.FromPath`: paths use `/` separators only, with POSIX `PurePath` rules.
- `Queries.FromNodeWithScore`: the floating-point score is carried as an opaque value.
- `Texts.NewTextChunk`: `model_post_init` runs as part of construction. The text field
  is not reassigned in place.
- `Extract.BuildNodeFromSplit` requires that the section metadata has no `headers` list
  yet. The source would treat such a key as a header key and fail on its list value.
- `Extract.LinkPass`: the error of the whole pass is not characterised in one lemma.
  Each step's error is characterised by `Extract.LinkStep`. `Extract.LinkPassStops`
  shows that an error ends the pass.
- `Extract.ParseDocumentsIntoNodes`: the `ValueError` message is reduced to the count of
  nodes without paragraphs. The listing of those nodes is left out.
- `Pagination.Paginate.GetPage` requires a page number of at least 1. The page indicator
  never offers less, and Python's negative-slice wrap-around is not modelled.
- `Pagination.Paginate.constructor` requires a positive page size. The source divides by
  it, and every selector option is positive.
- `Pagination.Paginate.Incremental`: the selector's and the number input's answers are
  parameters. The page information text and the widget `key` are not modelled. The
  number input's failure when there is no page is the value `ValueAboveMax(1, 0)`;
  Streamlit's exception type and message are not modelled.
- `Strings.Repr`: the printable test lists the control, format, separator, private-use
  and noncharacter code points by hand. Unassigned code points and format characters
  not in that list are written unescaped, where Python escapes them, because the
  Unicode character database is not modelled.
- `Texts.QuotedHeaders` inherits that gap from `Strings.Repr`.
- `Cleanup.EmptyBrackets`, `Cleanup.OpenerSpace`, `Cleanup.CloserSpace` and
  `Cleanup.PunctuationSpace` have no one-pass guarantee proved beyond the character
  lemmas. Their replacement can bring a space next to another space, so no pair-free
  result holds for them alone.
- `Cleanup.LineEndSpaces`: the absence of a space before a newline afterwards is not
  proved, because its matches start at a character they drop.
- `Cleanup.CleanedPlain`: the per-rule guarantees on spaces and newlines hold right
  after their rule. Whether later rules keep them is not proved.
