/**
 * Paragraph references: the inline markers `[par 12] `, `(pág. 3 § <n>) `, ... that
 * locate a paragraph of a source, and the operations that find, delete, rewrite
 * and cut at them.
 *
 * The marker grammar is matched by a hand-written, deterministic matcher
 * (`MatchAt`) that reads a marker at the start of a string. Scanning a text with
 * it from left to right, skipping each match, gives the leftmost non-overlapping
 * matches that Python's `re.finditer` / `re.sub` produce.
 */
module Paragraphs {
  import opened Wrappers
  import opened Strings
  import opened Scanning

  /** `paragraph`, and the optional page locator taken from the same marker. */
  datatype ParagraphReference = ParagraphReference(paragraph: nat, pageNum: Option<nat>, pageType: Option<string>)

  const SectionSign: char := '\U{A7}'
  /** The canonical page label `pág.`. */
  const PageLabel: string := "p\U{E1}g."
  /** The page-type keywords, in the order the pattern tries them. */
  const PageTypes: seq<string> := ["pag", PageLabel, "solapas", "tapa"]

  predicate IsOpener(c: char) {
    c == '[' || c == '('
  }

  predicate IsCloser(c: char) {
    c == ']' || c == ')'
  }

  // ---------------------------------------------------------------------------
  // The marker grammar, read at positions of the candidate string
  // ---------------------------------------------------------------------------

  /** `k` occurs in `s` at index `i`. */
  predicate StartsAt(s: string, i: nat, k: string) {
    i + |k| <= |s| && s[i..i + |k|] == k
  }

  /** The first of `keywords` occurring at index `i`: an alternation, tried in order. */
  function KeywordAt(s: string, i: nat, keywords: seq<string>): (k: Option<string>)
    ensures k.Some? ==> k.value in keywords && StartsAt(s, i, k.value)
  {
    if keywords == [] then None
    else if StartsAt(s, i, keywords[0]) then Some(keywords[0])
    else KeywordAt(s, i, keywords[1..])
  }

  /** The keywords that introduce the paragraph number. */
  const ParagraphKeywords: seq<string> := ["par", [SectionSign]]

  /** The length of the maximal run of ASCII digits starting at index `i` (`\d+` is greedy). */
  function DigitsFrom(s: string, i: nat): (d: nat)
    requires i <= |s|
    ensures i + d <= |s|
    decreases |s| - i
  {
    if i < |s| && IsDigit(s[i]) then 1 + DigitsFrom(s, i + 1) else 0
  }

  /** The value of the `n` decimal digits of `s` from index `a` on. */
  function DigitsValueAt(s: string, a: nat, n: nat): nat
    requires a + n <= |s|
    decreases n
  {
    if n == 0 then 0 else DigitsValueAt(s, a, n - 1) * 10 + DigitValue(s[a + n - 1])
  }

  /**
   * A space at index `j`, then a non-empty digit run that some character follows:
   * the length of the run, or 0 when there is none.
   */
  function SpacedDigits(s: string, j: nat): (d: nat)
    ensures d > 0 ==> j + 1 + d < |s|
  {
    if j < |s| && s[j] == ' ' then
      var d := DigitsFrom(s, j + 1);
      if j + 1 + d < |s| then d else 0
    else 0
  }

  /** The optional group: page type, a space, the page number, a space. */
  datatype PagePart = PagePart(pageType: string, pageNum: nat, len: nat)

  /** The optional page group of the pattern, at index `i`. */
  function PageAt(s: string, i: nat): (r: Option<PagePart>)
    ensures r.Some? ==> 0 < r.value.len && i + r.value.len <= |s| && r.value.pageType in PageTypes
  {
    match KeywordAt(s, i, PageTypes)
    case None => None
    case Some(k) => PageAfter(s, i, k)
  }

  /** The page group once its keyword `k` has been read at index `i`. */
  function PageAfter(s: string, i: nat, k: string): (r: Option<PagePart>)
    ensures r.Some? ==> r.value.len == |k| + 2 + SpacedDigits(s, i + |k|) && i + r.value.len <= |s| && r.value.pageType == k
  {
    var j := i + |k|;
    var d := SpacedDigits(s, j);
    if d == 0 || s[j + 1 + d] != ' ' then None
    else Some(PagePart(k, DigitsValueAt(s, j + 1, d), |k| + d + 2))
  }

  /**
   * `par` or `§`, a space, the paragraph number, a closer and the mandatory space, at
   * index `i`: the paragraph number and the length.
   */
  function ParAt(s: string, i: nat): (r: Option<(nat, nat)>)
    ensures r.Some? ==> 0 < r.value.1 && i + r.value.1 <= |s|
    ensures r.Some? ==> 2 <= r.value.1 && IsCloser(s[i + r.value.1 - 2]) && s[i + r.value.1 - 1] == ' '
  {
    match KeywordAt(s, i, ParagraphKeywords)
    case None => None
    case Some(k) => ParAfter(s, i, k)
  }

  /** The paragraph group once its keyword `k` has been read at index `i`. */
  function ParAfter(s: string, i: nat, k: string): (r: Option<(nat, nat)>)
    ensures r.Some? ==> r.value.1 == |k| + 3 + SpacedDigits(s, i + |k|) && i + r.value.1 <= |s|
    ensures r.Some? ==> IsCloser(s[i + r.value.1 - 2]) && s[i + r.value.1 - 1] == ' '
  {
    var j := i + |k|;
    var d := SpacedDigits(s, j);
    if d == 0 || j + 2 + d >= |s| || !IsCloser(s[j + 1 + d]) || s[j + 2 + d] != ' ' then None
    else Some((DigitsValueAt(s, j + 1, d), |k| + d + 3))
  }

  /**
   * The marker at the start of `s`, if any. The page group is optional and is tried
   * first; when the rest of the marker fails after it, the marker is tried without it.
   */
  function MatchAt(s: string): (r: Option<Hit<ParagraphReference>>)
    ensures r.Some? ==> 0 < r.value.len <= |s|
    ensures r.Some? ==> 3 <= r.value.len && IsOpener(s[0]) && IsCloser(s[r.value.len - 2]) && s[r.value.len - 1] == ' '
  {
    if s == [] || !IsOpener(s[0]) then None
    else
      var page := PageAt(s, 1);
      var paged := if page.Some? then ParAt(s, 1 + page.value.len) else None;
      if page.Some? && paged.Some? then
        Some(Hit(ParagraphReference(paged.value.0, Some(page.value.pageNum), Some(page.value.pageType)),
                 1 + page.value.len + paged.value.1))
      else
        match ParAt(s, 1)
        case None => None
        case Some((par, n)) => Some(Hit(ParagraphReference(par, None, None), 1 + n))
  }

  // ---------------------------------------------------------------------------
  // The operations
  // ---------------------------------------------------------------------------

  /** The matcher never matches the empty string and stays within its input. */
  lemma MatchAtConsumes()
    ensures Consumes(MatchAt)
  {
  }

  /** `ParagraphReference.extract_all`: `re.finditer` over the text, one reference per match. */
  function ExtractAll(t: string): seq<ParagraphReference> {
    MatchAtConsumes();
    ScanAll(MatchAt, t)
  }

  /** `ParagraphReference.remove`: `re.sub` with the empty replacement. */
  function Remove(t: string): (r: string)
    ensures |r| + TotalLen(Markers(t)) == |t|
  {
    MatchAtConsumes();
    EraseLength(MatchAt, t, 0);
    Sub(MatchAt, Nothing, t)
  }

  /** The rewritten form of one marker: `(` + str(ref) + `) `. */
  function Rendered(r: ParagraphReference): string {
    "(" + ToString(r) + ") "
  }

  /** `ParagraphReference.format`: `re.sub` with every marker rewritten. */
  function Format(t: string): string {
    MatchAtConsumes();
    Sub(MatchAt, Rendered, t)
  }

  /** `ParagraphReference.startswith`: `re.match`, anchored at index 0. */
  predicate StartsWithMarker(t: string) {
    MatchAt(t).Some?
  }

  /** Python's `self.page_type or "pág."`, with `pag` shown as `pág.`. */
  function PageTypeLabel(pageType: Option<string>): string {
    if pageType.None? || pageType.value == "" || pageType.value == "pag" then PageLabel else pageType.value
  }

  /** `ParagraphReference.__str__`. */
  function ToString(r: ParagraphReference): string {
    if r.pageNum.None? then [SectionSign, ' '] + NatToString(r.paragraph)
    else PageTypeLabel(r.pageType) + " " + NatToString(r.pageNum.value) + [' ', SectionSign, ' '] + NatToString(r.paragraph)
  }

  /** `ParagraphReference.__hash__` hashes this string. */
  function HashKey(r: ParagraphReference): string {
    ToString(r)
  }

  /** `re.finditer(REFERENCE_REGEX, s)`: the match objects, with their positions. */
  function Markers(s: string): seq<Found<ParagraphReference>> {
    MatchAtConsumes();
    FindAt(MatchAt, s, 0)
  }

  // ---------------------------------------------------------------------------
  // Canonical form and well-formed references
  // ---------------------------------------------------------------------------

  /** The reference that re-extracting its rendered form gives. */
  function Canonical(r: ParagraphReference): (c: ParagraphReference)
    ensures c.paragraph == r.paragraph && c.pageNum == r.pageNum
    ensures c.pageType.Some? <==> r.pageNum.Some?
    ensures ToString(c) == ToString(r)
  {
    if r.pageNum.None? then ParagraphReference(r.paragraph, None, None)
    else ParagraphReference(r.paragraph, r.pageNum, Some(PageTypeLabel(r.pageType)))
  }

  /** A page type that `__str__` renders as a keyword of the pattern. */
  predicate WellFormed(r: ParagraphReference) {
    r.pageNum.Some? ==> r.pageType.None? || r.pageType.value == "" || r.pageType.value in PageTypes
  }


  // ---------------------------------------------------------------------------
  // Facts about the grammar pieces
  // ---------------------------------------------------------------------------

  /** `t` and `u` have the same first `n` characters. */
  predicate Agree(t: string, u: string, n: nat) {
    n <= |t| && n <= |u| && forall i {:trigger t[i], u[i]} :: 0 <= i < n ==> t[i] == u[i]
  }

  /** Each character of an occurrence is the keyword's. */
  lemma StartsAtChar(s: string, i: nat, k: string, m: nat)
    requires StartsAt(s, i, k) && m < |k|
    ensures s[i + m] == k[m]
  {
    assert s[i..i + |k|][m] == s[i + m];
  }

  /** One differing character rules out an occurrence. */
  lemma NotStartsAt(s: string, i: nat, k: string, m: nat)
    requires m < |k| && (i + m >= |s| || s[i + m] != k[m])
    ensures !StartsAt(s, i, k)
  {
    if i + |k| <= |s| {
      assert s[i..i + |k|][m] == s[i + m];
    }
  }

  /** A piece of an occurrence is an occurrence. */
  lemma StartsAtSlice(s: string, i: nat, k: string, a: nat, b: nat)
    requires StartsAt(s, i, k) && a <= b <= |k|
    ensures StartsAt(s, i + a, k[a..b])
  {
    forall m | 0 <= m < b - a
      ensures s[i + a..i + b][m] == k[a..b][m]
    {
      StartsAtChar(s, i, k, a + m);
    }
  }

  /** The middle of a concatenation occurs where it was put. */
  lemma StartsAtJoin(a: string, k: string, c: string)
    ensures StartsAt(a + k + c, |a|, k)
  {
    assert (a + k + c)[|a|..|a| + |k|] == k;
  }

  lemma StartsAtAgree(x: string, y: string, n: nat, i: nat, k: string)
    requires Agree(x, y, n) && i + |k| <= n
    ensures StartsAt(y, i, k) == StartsAt(x, i, k)
  {
    assert x[i..i + |k|] == y[i..i + |k|];
  }

  lemma {:induction false} KeywordAtAgree(x: string, y: string, n: nat, i: nat, keywords: seq<string>, w: nat)
    requires Agree(x, y, n) && i + w <= n && forall j :: 0 <= j < |keywords| ==> |keywords[j]| <= w
    ensures KeywordAt(y, i, keywords) == KeywordAt(x, i, keywords)
  {
    if keywords != [] {
      StartsAtAgree(x, y, n, i, keywords[0]);
      KeywordAtAgree(x, y, n, i, keywords[1..], w);
    }
  }

  /** No keyword occurs at `i`. */
  lemma {:induction false} NoKeywordAt(s: string, i: nat, keywords: seq<string>)
    requires forall j :: 0 <= j < |keywords| ==> !StartsAt(s, i, keywords[j])
    ensures KeywordAt(s, i, keywords).None?
  {
    if keywords != [] {
      NoKeywordAt(s, i, keywords[1..]);
    }
  }

  /** The keyword with index `idx` is the first one occurring at `i`. */
  lemma {:induction false} KeywordAtIndex(s: string, i: nat, keywords: seq<string>, idx: nat)
    requires idx < |keywords| && StartsAt(s, i, keywords[idx])
    requires forall j :: 0 <= j < idx ==> !StartsAt(s, i, keywords[j])
    ensures KeywordAt(s, i, keywords) == Some(keywords[idx])
  {
    if idx > 0 {
      KeywordAtIndex(s, i, keywords[1..], idx - 1);
    }
  }

  /** The run found by `DigitsFrom` is all digits and ends at a non-digit or at the end. */
  lemma {:induction false} DigitsFromRun(s: string, i: nat)
    requires i <= |s|
    ensures var d := DigitsFrom(s, i);
      AllDigits(s[i..i + d]) && (i + d == |s| || !IsDigit(s[i + d]))
    decreases |s| - i
  {
    if i < |s| && IsDigit(s[i]) {
      DigitsFromRun(s, i + 1);
      var d := DigitsFrom(s, i);
      assert s[i..i + d] == [s[i]] + s[i + 1..i + d];
    }
  }

  /** A digit string followed by a non-digit is exactly the run found at its position. */
  lemma {:induction false} DigitsFromOf(s: string, i: nat, d: string)
    requires StartsAt(s, i, d) && AllDigits(d) && i + |d| < |s| && !IsDigit(s[i + |d|])
    ensures DigitsFrom(s, i) == |d|
    decreases |d|
  {
    if d != [] {
      StartsAtChar(s, i, d, 0);
      StartsAtSlice(s, i, d, 1, |d|);
      DigitsFromOf(s, i + 1, d[1..]);
    }
  }

  lemma {:induction false} DigitsFromAgree(x: string, y: string, n: nat, i: nat)
    requires Agree(x, y, n) && i <= |x| && i + DigitsFrom(x, i) < n
    ensures DigitsFrom(y, i) == DigitsFrom(x, i)
    decreases |x| - i
  {
    assert x[i] == y[i];
    if IsDigit(x[i]) {
      DigitsFromAgree(x, y, n, i + 1);
    }
  }

  lemma {:induction false} DigitsValueAtAgree(x: string, y: string, n: nat, a: nat, m: nat)
    requires Agree(x, y, n) && a + m <= n
    ensures DigitsValueAt(y, a, m) == DigitsValueAt(x, a, m)
    decreases m
  {
    if m > 0 {
      DigitsValueAtAgree(x, y, n, a, m - 1);
      assert x[a + m - 1] == y[a + m - 1];
    }
  }

  lemma SpacedDigitsAgree(x: string, y: string, n: nat, j: nat)
    requires Agree(x, y, n) && SpacedDigits(x, j) > 0 && j + 1 + SpacedDigits(x, j) < n
    ensures SpacedDigits(y, j) == SpacedDigits(x, j)
  {
    assert x[j] == y[j];
    DigitsFromAgree(x, y, n, j + 1);
  }

  /** The shortest groups are a page group with one digit and a paragraph group with one digit. */
  lemma PartLengths(s: string, i: nat, j: nat)
    requires PageAt(s, i).Some? && ParAt(s, j).Some?
    ensures PageAt(s, i).value.len >= 6 && ParAt(s, j).value.1 >= 5
  {
  }

  lemma PageAtAgree(x: string, y: string, n: nat, i: nat)
    requires Agree(x, y, n) && PageAt(x, i).Some? && i + PageAt(x, i).value.len <= n && i + 7 <= n
    ensures PageAt(y, i) == PageAt(x, i)
  {
    KeywordAtAgree(x, y, n, i, PageTypes, 7);
    PageAfterAgree(x, y, n, i, KeywordAt(x, i, PageTypes).value);
  }

  lemma PageAfterAgree(x: string, y: string, n: nat, i: nat, k: string)
    requires Agree(x, y, n) && PageAfter(x, i, k).Some? && i + PageAfter(x, i, k).value.len <= n
    ensures PageAfter(y, i, k) == PageAfter(x, i, k)
  {
    var j := i + |k|;
    var d := SpacedDigits(x, j);
    SpacedDigitsAgree(x, y, n, j);
    assert x[j + 1 + d] == y[j + 1 + d];
    DigitsValueAtAgree(x, y, n, j + 1, d);
  }

  lemma ParAtAgree(x: string, y: string, n: nat, i: nat)
    requires Agree(x, y, n) && ParAt(x, i).Some? && i + ParAt(x, i).value.1 <= n
    ensures ParAt(y, i) == ParAt(x, i)
  {
    KeywordAtAgree(x, y, n, i, ParagraphKeywords, 3);
    ParAfterAgree(x, y, n, i, KeywordAt(x, i, ParagraphKeywords).value);
  }

  lemma ParAfterAgree(x: string, y: string, n: nat, i: nat, k: string)
    requires Agree(x, y, n) && ParAfter(x, i, k).Some? && i + ParAfter(x, i, k).value.1 <= n
    ensures ParAfter(y, i, k) == ParAfter(x, i, k)
  {
    var j := i + |k|;
    var d := SpacedDigits(x, j);
    SpacedDigitsAgree(x, y, n, j);
    assert x[j + 1 + d] == y[j + 1 + d] && x[j + 2 + d] == y[j + 2 + d];
    DigitsValueAtAgree(x, y, n, j + 1, d);
  }

  /** `par` and `§` are not page keywords, so the two branches of the pattern never compete. */
  lemma ParAtExcludesPage(s: string, i: nat)
    requires ParAt(s, i).Some?
    ensures PageAt(s, i).None?
  {
    var k := KeywordAt(s, i, ParagraphKeywords).value;
    if k == "par" {
      StartsAtChar(s, i, k, 0);
      StartsAtChar(s, i, k, 1);
      StartsAtChar(s, i, k, 2);
      NotStartsAt(s, i, "pag", 2);
      NotStartsAt(s, i, PageLabel, 1);
    } else {
      StartsAtChar(s, i, k, 0);
      NotStartsAt(s, i, "pag", 0);
      NotStartsAt(s, i, PageLabel, 0);
    }
    NotStartsAt(s, i, "solapas", 0);
    NotStartsAt(s, i, "tapa", 0);
    NoKeywordAt(s, i, PageTypes);
  }

  // ---------------------------------------------------------------------------
  // Facts about the matcher
  // ---------------------------------------------------------------------------

  /** `MatchAt` when the page group and the rest of the marker both match. */
  lemma MatchAtPaged(s: string, page: PagePart, par: (nat, nat))
    requires s != [] && IsOpener(s[0]) && PageAt(s, 1) == Some(page) && ParAt(s, 1 + page.len) == Some(par)
    ensures MatchAt(s) == Some(Hit(ParagraphReference(par.0, Some(page.pageNum), Some(page.pageType)), 1 + page.len + par.1))
  {
  }

  /** `MatchAt` when the marker has no page group. */
  lemma MatchAtUnpaged(s: string, par: (nat, nat))
    requires s != [] && IsOpener(s[0]) && ParAt(s, 1) == Some(par)
    ensures MatchAt(s) == Some(Hit(ParagraphReference(par.0, None, None), 1 + par.1))
  {
    ParAtExcludesPage(s, 1);
  }

  /** A marker is read with its page group exactly when the group and the rest both match. */
  predicate PagedAt(s: string) {
    PageAt(s, 1).Some? && ParAt(s, 1 + PageAt(s, 1).value.len).Some?
  }

  /** A match depends only on the characters it spans. */
  lemma MatchAgree(x: string, y: string)
    requires MatchAt(x).Some? && Agree(x, y, MatchAt(x).value.len)
    ensures MatchAt(y) == MatchAt(x)
  {
    if PagedAt(x) {
      MatchAgreePaged(x, y, PageAt(x, 1).value, ParAt(x, 1 + PageAt(x, 1).value.len).value);
    } else {
      MatchAgreeUnpaged(x, y, ParAt(x, 1).value);
    }
  }

  lemma MatchAgreePaged(x: string, y: string, page: PagePart, par: (nat, nat))
    requires x != [] && IsOpener(x[0]) && PageAt(x, 1) == Some(page) && ParAt(x, 1 + page.len) == Some(par)
    requires Agree(x, y, 1 + page.len + par.1)
    ensures MatchAt(y) == MatchAt(x)
  {
    MatchAtPaged(x, page, par);
    PartsAgreePaged(x, y, page, par);
    MatchAtPaged(y, page, par);
  }

  lemma PartsAgreePaged(x: string, y: string, page: PagePart, par: (nat, nat))
    requires x != [] && IsOpener(x[0]) && PageAt(x, 1) == Some(page) && ParAt(x, 1 + page.len) == Some(par)
    requires Agree(x, y, 1 + page.len + par.1)
    ensures y != [] && IsOpener(y[0]) && PageAt(y, 1) == Some(page) && ParAt(y, 1 + page.len) == Some(par)
  {
    var n := 1 + page.len + par.1;
    PartLengths(x, 1, 1 + page.len);
    PageAtAgree(x, y, n, 1);
    ParAtAgree(x, y, n, 1 + page.len);
    assert x[0] == y[0];
  }

  lemma MatchAgreeUnpaged(x: string, y: string, par: (nat, nat))
    requires x != [] && IsOpener(x[0]) && ParAt(x, 1) == Some(par)
    requires Agree(x, y, 1 + par.1)
    ensures MatchAt(y) == MatchAt(x)
  {
    ParAtAgree(x, y, 1 + par.1, 1);
    assert x[0] == y[0];
    MatchAtUnpaged(x, par);
    MatchAtUnpaged(y, par);
  }

  /** No opener among `s[lo..hi]`. */
  predicate NoOpenerIn(s: string, lo: nat, hi: nat) {
    lo <= hi <= |s| && forall m :: lo <= m < hi ==> !IsOpener(s[m])
  }

  lemma NoOpenerJoin(s: string, a: nat, b: nat, c: nat)
    requires NoOpenerIn(s, a, b) && NoOpenerIn(s, b, c)
    ensures NoOpenerIn(s, a, c)
  {
  }

  lemma KeywordNoOpener(s: string, i: nat, k: string)
    requires StartsAt(s, i, k) && forall m :: 0 <= m < |k| ==> !IsOpener(k[m])
    ensures NoOpenerIn(s, i, i + |k|)
  {
    forall m | i <= m < i + |k|
      ensures !IsOpener(s[m])
    {
      StartsAtChar(s, i, k, m - i);
    }
  }

  /** A space, a digit run and one more non-opener character, from `j` on. */
  lemma SpacedDigitsNoOpener(s: string, j: nat)
    requires SpacedDigits(s, j) > 0 && !IsOpener(s[j + 1 + SpacedDigits(s, j)])
    ensures NoOpenerIn(s, j, j + 2 + SpacedDigits(s, j))
  {
    var d := SpacedDigits(s, j);
    DigitsFromRun(s, j + 1);
    forall m | j + 1 <= m < j + 1 + d
      ensures !IsOpener(s[m])
    {
      assert s[j + 1..j + 1 + d][m - j - 1] == s[m];
    }
  }

  lemma PageAtNoOpener(s: string, i: nat)
    requires PageAt(s, i).Some?
    ensures NoOpenerIn(s, i, i + PageAt(s, i).value.len)
  {
    var k := KeywordAt(s, i, PageTypes).value;
    KeywordNoOpener(s, i, k);
    SpacedDigitsNoOpener(s, i + |k|);
    NoOpenerJoin(s, i, i + |k|, i + PageAt(s, i).value.len);
  }

  lemma ParAtNoOpener(s: string, i: nat)
    requires ParAt(s, i).Some?
    ensures NoOpenerIn(s, i, i + ParAt(s, i).value.1)
  {
    var k := KeywordAt(s, i, ParagraphKeywords).value;
    var j := i + |k|;
    KeywordNoOpener(s, i, k);
    SpacedDigitsNoOpener(s, j);
    NoOpenerJoin(s, i, j, j + 2 + SpacedDigits(s, j));
    assert !IsOpener(s[j + 2 + SpacedDigits(s, j)]);
  }

  /** Only the first character of a marker is an opener. */
  lemma MatchNoInnerOpener(x: string)
    requires MatchAt(x).Some?
    ensures NoOpenerIn(x, 1, MatchAt(x).value.len)
  {
    if PagedAt(x) {
      var page := PageAt(x, 1).value;
      var par := ParAt(x, 1 + page.len).value;
      MatchAtPaged(x, page, par);
      PageAtNoOpener(x, 1);
      ParAtNoOpener(x, 1 + page.len);
      NoOpenerJoin(x, 1, 1 + page.len, 1 + page.len + par.1);
    } else {
      MatchAtUnpaged(x, ParAt(x, 1).value);
      ParAtNoOpener(x, 1);
    }
  }

  /** Every extracted reference carries its page type exactly when it carries a page number. */
  lemma MatchWellFormed(x: string)
    requires MatchAt(x).Some?
    ensures var r := MatchAt(x).value.val;
      WellFormed(r) && (r.pageNum.Some? <==> r.pageType.Some?) && (r.pageType.Some? ==> r.pageType.value in PageTypes)
  {
  }
}
