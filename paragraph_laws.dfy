/**
 * What the paragraph-reference operations promise: the rewritten form of a
 * reference is itself a marker denoting the same reference, rewriting commutes with
 * extraction and deletion, and the scans agree with `re.finditer`.
 */
module ParagraphLaws {
  import opened Wrappers
  import opened Strings
  import opened Scanning
  import opened Paragraphs

  // ---------------------------------------------------------------------------
  // The rewritten form of a reference is a marker
  // ---------------------------------------------------------------------------

  /** `§ <d>) ` is spelled out at index `i` of `s`. */
  predicate ParSpelledAt(s: string, i: nat, d: string) {
    && i + |d| + 4 <= |s|
    && s[i] == SectionSign && s[i + 1] == ' ' && s[i + 2..i + 2 + |d|] == d
    && s[i + 2 + |d|] == ')' && s[i + 3 + |d|] == ' '
  }

  /** `<k> <d> ` is spelled out at index `i` of `s`. */
  predicate PageSpelledAt(s: string, i: nat, k: string, d: string) {
    && i + |k| + |d| + 2 <= |s|
    && s[i..i + |k|] == k && s[i + |k|] == ' '
    && s[i + |k| + 1..i + |k| + 1 + |d|] == d && s[i + |k| + 1 + |d|] == ' '
  }

  lemma ParLayout(s: string, pre: string, d: string, rest: string)
    requires s == pre + ([SectionSign, ' '] + d + ") ") + rest
    ensures ParSpelledAt(s, |pre|, d)
  {
    assert s == (pre + [SectionSign, ' ']) + d + (") " + rest);
  }

  lemma PageLayout(s: string, pre: string, k: string, d: string, rest: string)
    requires s == pre + (k + " " + d + " ") + rest
    ensures PageSpelledAt(s, |pre|, k, d)
  {
    assert s == pre + k + (" " + d + " " + rest);
    assert s == (pre + k + " ") + d + (" " + rest);
  }

  /** `§ <d>) ` at index `i` is read as the paragraph group, with number `int(d)`. */
  lemma ParAtOf(s: string, i: nat, d: string)
    requires AllDigits(d) && d != [] && ParSpelledAt(s, i, d)
    ensures ParAt(s, i) == Some((DigitsValue(d), |d| + 4))
  {
    SectionKeywordOf(s, i);
    SectionGroupOf(s, i, d);
    ParAtIs(s, i, [SectionSign]);
  }

  /** After the keyword `§` at `i`, the rest of `§ <d>) ` is read as the number `int(d)`. */
  lemma SectionGroupOf(s: string, i: nat, d: string)
    requires AllDigits(d) && d != [] && ParSpelledAt(s, i, d)
    ensures ParAfter(s, i, [SectionSign]) == Some((DigitsValue(d), |d| + 4))
  {
    var k := [SectionSign];
    assert |k| == 1;
    assert IsCloser(s[i + |k| + 1 + |d|]) && s[i + |k| + 2 + |d|] == ' ';
    SpacedDigitsOf(s, i + 1, d);
    ParAfterIs(s, i, k, |d|, DigitsValue(d));
  }

  /** `§` is read as the paragraph keyword. */
  lemma SectionKeywordOf(s: string, i: nat)
    requires i < |s| && s[i] == SectionSign
    ensures KeywordAt(s, i, ParagraphKeywords) == Some([SectionSign])
  {
    NotStartsAt(s, i, "par", 0);
    assert s[i..i + 1] == [SectionSign];
    KeywordAtIndex(s, i, ParagraphKeywords, 1);
  }

  /** A space at `j`, then the digit string `d` and a non-digit. */
  lemma SpacedDigitsOf(s: string, j: nat, d: string)
    requires AllDigits(d) && d != [] && j + 1 + |d| < |s|
    requires s[j] == ' ' && s[j + 1..j + 1 + |d|] == d && !IsDigit(s[j + 1 + |d|])
    ensures SpacedDigits(s, j) == |d| && DigitsValueAt(s, j + 1, |d|) == DigitsValue(d)
  {
    DigitsFromOf(s, j + 1, d);
    DigitsValueAtOf(s, j + 1, d);
  }

  /** The positional value of an occurrence of `d` is `int(d)`. */
  lemma {:induction false} DigitsValueAtOf(s: string, a: nat, d: string)
    requires a + |d| <= |s| && s[a..a + |d|] == d
    ensures DigitsValueAt(s, a, |d|) == DigitsValue(d)
    decreases |d|
  {
    if d != [] {
      var m := |d| - 1;
      assert s[a..a + m] == d[..m];
      DigitsValueAtOf(s, a, d[..m]);
      assert s[a + m] == d[m];
    }
  }

  lemma ParAfterIs(s: string, i: nat, k: string, n: nat, v: nat)
    requires n > 0 && SpacedDigits(s, i + |k|) == n && DigitsValueAt(s, i + |k| + 1, n) == v
    requires i + |k| + 2 + n < |s| && IsCloser(s[i + |k| + 1 + n]) && s[i + |k| + 2 + n] == ' '
    ensures ParAfter(s, i, k) == Some((v, |k| + n + 3))
  {
  }

  lemma ParAtIs(s: string, i: nat, k: string)
    requires KeywordAt(s, i, ParagraphKeywords) == Some(k)
    ensures ParAt(s, i) == ParAfter(s, i, k)
  {
  }

  /** The page keywords that `__str__` can write are each the first keyword to occur. */
  lemma PageKeywordOf(s: string, i: nat, keyword: string)
    requires keyword == PageLabel || keyword == "solapas" || keyword == "tapa"
    requires i + |keyword| <= |s| && s[i..i + |keyword|] == keyword
    ensures KeywordAt(s, i, PageTypes) == Some(keyword)
  {
    StartsAtChar(s, i, keyword, 0);
    if keyword == PageLabel {
      StartsAtChar(s, i, keyword, 1);
      NotStartsAt(s, i, "pag", 1);
      KeywordAtIndex(s, i, PageTypes, 1);
    } else if keyword == "solapas" {
      NotStartsAt(s, i, "pag", 0);
      NotStartsAt(s, i, PageLabel, 0);
      KeywordAtIndex(s, i, PageTypes, 2);
    } else {
      NotStartsAt(s, i, "pag", 0);
      NotStartsAt(s, i, PageLabel, 0);
      NotStartsAt(s, i, "solapas", 0);
      KeywordAtIndex(s, i, PageTypes, 3);
    }
  }

  /** `<k> <d> ` at index `i`, with `k` the first page keyword there, is read as the page group. */
  lemma PageAtOf(s: string, i: nat, k: string, d: string)
    requires KeywordAt(s, i, PageTypes) == Some(k) && AllDigits(d) && d != [] && PageSpelledAt(s, i, k, d)
    ensures PageAt(s, i) == Some(PagePart(k, DigitsValue(d), |k| + |d| + 2))
  {
    SpacedDigitsOf(s, i + |k|, d);
    PageAfterIs(s, i, k, |d|, DigitsValue(d));
    PageAtIs(s, i, k);
  }

  lemma PageAfterIs(s: string, i: nat, k: string, n: nat, v: nat)
    requires n > 0 && SpacedDigits(s, i + |k|) == n && DigitsValueAt(s, i + |k| + 1, n) == v
    requires s[i + |k| + 1 + n] == ' '
    ensures PageAfter(s, i, k) == Some(PagePart(k, v, |k| + n + 2))
  {
  }

  lemma PageAtIs(s: string, i: nat, k: string)
    requires KeywordAt(s, i, PageTypes) == Some(k)
    ensures PageAt(s, i) == PageAfter(s, i, k)
  {
  }

  /** A marker without page, spelled out: `(§ <d>) `. */
  lemma UnpagedMarkerOf(s: string, d: string)
    requires AllDigits(d) && d != [] && s != [] && s[0] == '(' && ParSpelledAt(s, 1, d)
    ensures MatchAt(s) == Some(Hit(ParagraphReference(DigitsValue(d), None, None), |d| + 5))
  {
    ParAtOf(s, 1, d);
    MatchAtUnpaged(s, (DigitsValue(d), |d| + 4));
  }

  /** A marker with a page, spelled out: `(<k> <n> § <d>) `. */
  lemma PagedMarkerOf(s: string, k: string, n: string, d: string)
    requires KeywordAt(s, 1, PageTypes) == Some(k)
    requires AllDigits(n) && n != [] && AllDigits(d) && d != [] && s != [] && s[0] == '('
    requires PageSpelledAt(s, 1, k, n) && ParSpelledAt(s, |k| + |n| + 3, d)
    ensures MatchAt(s) == Some(Hit(ParagraphReference(DigitsValue(d), Some(DigitsValue(n)), Some(k)), |k| + |n| + |d| + 7))
  {
    var page := PagePart(k, DigitsValue(n), |k| + |n| + 2);
    var par := (DigitsValue(d), |d| + 4);
    var j := |k| + |n| + 3;
    PageAtOf(s, 1, k, n);
    ParAtOf(s, j, d);
    assert 1 + page.len == j;
    assert PageAt(s, 1) == Some(page);
    assert ParAt(s, 1 + page.len) == Some(par);
    MatchAtPaged(s, page, par);
    var hit := Hit(ParagraphReference(DigitsValue(d), Some(DigitsValue(n)), Some(k)), |k| + |n| + |d| + 7);
    assert hit == Hit(ParagraphReference(par.0, Some(page.pageNum), Some(page.pageType)), 1 + page.len + par.1);
    assert MatchAt(s) == Some(hit);
  }

  /** `str()` of a canonical reference is the same string. */
  lemma CanonicalToString(r: ParagraphReference)
    ensures ToString(Canonical(r)) == ToString(r) && Rendered(Canonical(r)) == Rendered(r)
    ensures Canonical(Canonical(r)) == Canonical(r)
  {
  }

  /**
   * The rewritten form `(` + str(r) + `) ` is a marker of exactly its own length, and
   * it denotes the canonical form of `r`, whatever text follows it.
   */
  lemma RenderedMatch(r: ParagraphReference, rest: string)
    requires WellFormed(r)
    ensures MatchAt(Rendered(r) + rest) == Some(Hit(Canonical(r), |Rendered(r)|))
  {
    if r.pageNum.None? {
      RenderedMatchNoPage(r, rest);
    } else {
      RenderedMatchWithPage(r, rest);
    }
  }

  lemma RenderedMatchNoPage(r: ParagraphReference, rest: string)
    requires r.pageNum.None?
    ensures MatchAt(Rendered(r) + rest) == Some(Hit(Canonical(r), |Rendered(r)|))
  {
    var s := Rendered(r) + rest;
    var d := NatToString(r.paragraph);
    assert s == "(" + ([SectionSign, ' '] + d + ") ") + rest;
    ParLayout(s, "(", d, rest);
    UnpagedMarkerOf(s, d);
    NatToStringValue(r.paragraph);
  }

  /** The rewritten form of a reference with a page: the opener, the page group, the paragraph group. */
  lemma RenderedPaged(r: ParagraphReference, rest: string)
    requires WellFormed(r) && r.pageNum.Some?
    ensures var keyword := PageTypeLabel(r.pageType);
      var w1 := keyword + " " + NatToString(r.pageNum.value) + " ";
      var w2 := [SectionSign, ' '] + NatToString(r.paragraph) + ") ";
      && (keyword == PageLabel || keyword == "solapas" || keyword == "tapa")
      && Rendered(r) + rest == "(" + w1 + (w2 + rest)
      && Rendered(r) + rest == ("(" + w1) + w2 + rest
      && |Rendered(r)| == 1 + |w1| + |w2|
      && Canonical(r) == ParagraphReference(r.paragraph, r.pageNum, Some(keyword))
  {
  }

  lemma RenderedMatchWithPage(r: ParagraphReference, rest: string)
    requires WellFormed(r) && r.pageNum.Some?
    ensures MatchAt(Rendered(r) + rest) == Some(Hit(Canonical(r), |Rendered(r)|))
  {
    RenderedPaged(r, rest);
    var s := Rendered(r) + rest;
    var k := PageTypeLabel(r.pageType);
    var n := NatToString(r.pageNum.value);
    var d := NatToString(r.paragraph);
    PagedLayout(s, k, n, d, rest);
    PageKeywordOf(s, 1, k);
    PagedMarkerOf(s, k, n, d);
    NatToStringValue(r.pageNum.value);
    NatToStringValue(r.paragraph);
    assert MatchAt(s) == Some(Hit(ParagraphReference(r.paragraph, Some(r.pageNum.value), Some(k)), |k| + |n| + |d| + 7));
    assert Canonical(r) == ParagraphReference(r.paragraph, Some(r.pageNum.value), Some(k));
    assert |Rendered(r)| == |k| + |n| + |d| + 7;
    assert Hit(ParagraphReference(r.paragraph, Some(r.pageNum.value), Some(k)), |k| + |n| + |d| + 7) == Hit(Canonical(r), |Rendered(r)|);
    assert MatchAt(s) == Some(Hit(Canonical(r), |Rendered(r)|));
  }

  /** Where the pieces of `(<k> <n> § <d>) ` lie at the start of `s`. */
  lemma PagedLayout(s: string, k: string, n: string, d: string, rest: string)
    requires s == "(" + (k + " " + n + " ") + (([SectionSign, ' '] + d + ") ") + rest)
    requires s == ("(" + (k + " " + n + " ")) + ([SectionSign, ' '] + d + ") ") + rest
    ensures s != [] && s[0] == '(' && PageSpelledAt(s, 1, k, n) && ParSpelledAt(s, |k| + |n| + 3, d)
  {
    PageLayout(s, "(", k, n, [SectionSign, ' '] + d + ") " + rest);
    ParLayout(s, "(" + (k + " " + n + " "), d, rest);
  }

  /** Two extracted references hash alike exactly when they are the same reference. */
  lemma HashKeyCanonical(r1: ParagraphReference, r2: ParagraphReference)
    requires WellFormed(r1) && WellFormed(r2)
    ensures HashKey(r1) == HashKey(r2) <==> Canonical(r1) == Canonical(r2)
  {
    CanonicalToString(r1);
    CanonicalToString(r2);
    if HashKey(r1) == HashKey(r2) {
      RenderedMatch(r1, []);
      RenderedMatch(r2, []);
      assert Rendered(r1) + [] == Rendered(r2) + [];
    }
  }

  // ---------------------------------------------------------------------------
  // Rewriting commutes with the scans
  // ---------------------------------------------------------------------------

  /**
   * Copying one character in front of a rewritten text creates no marker: if the
   * result starts with a marker, the original text starts with the same one.
   */
  lemma CopyKeepsMatch(t: string)
    requires t != [] && MatchAt([t[0]] + Format(t[1..])).Some?
    ensures MatchAt(t) == MatchAt([t[0]] + Format(t[1..]))
  {
    var s := t[1..];
    MatchAtConsumes();
    SubAtFirst(MatchAt, Rendered, s);
    var q := FirstMatch(MatchAt, s);
    if q == |s| {
      assert [t[0]] + Format(s) == t;
    } else {
      CopyKeepsMatchAt(t, q, MatchAt(s[q..]).value);
    }
  }

  /** `CopyKeepsMatch` when the rewritten text has a leftmost marker at `q`. */
  lemma CopyKeepsMatchAt(t: string, q: nat, h: Hit<ParagraphReference>)
    requires t != [] && q < |t| - 1 && MatchAt(t[1..][q..]) == Some(h)
    requires (MatchAtConsumes(); SubSplitsAt(MatchAt, Rendered, t[1..], q))
    requires MatchAt([t[0]] + Format(t[1..])).Some?
    ensures MatchAt(t) == MatchAt([t[0]] + Format(t[1..]))
  {
    var s := t[1..];
    var f := Format(s);
    var r := Rendered(h.val);
    FormatSplitsAt(s, q, h);
    assert r[0] == '(';
    PrefixKept(f, s, q, r, Format(s[q + h.len..]));
    CopyAgrees(t, f, q);
    MatchAgree([t[0]] + f, t);
  }

  /** Formatting keeps the text before the leftmost marker and renders that marker in its place. */
  lemma FormatSplitsAt(s: string, q: nat, h: Hit<ParagraphReference>)
    requires q < |s| && MatchAt(s[q..]) == Some(h)
    requires (MatchAtConsumes(); SubSplitsAt(MatchAt, Rendered, s, q))
    ensures Format(s) == s[..q] + Rendered(h.val) + Format(s[q + h.len..])
  {
    MatchAtConsumes();
    SplitsAtIs(MatchAt, Rendered, s, q, h);
    var rest := s[q + h.len..];
    ghost var w: ParagraphReference -> string := Rendered;
    assert w(h.val) == Rendered(h.val);
    assert Sub(MatchAt, Rendered, s) == s[..q] + Rendered(h.val) + Sub(MatchAt, Rendered, rest);
    assert Format(s) == Sub(MatchAt, Rendered, s);
    assert Format(rest) == Sub(MatchAt, Rendered, rest);
  }



  /** `s[..q] + r + rest` keeps the first `q` characters of `s` and has `r[0]` at `q`. */
  lemma PrefixKept(f: string, s: string, q: nat, r: string, rest: string)
    requires q <= |s| && r != [] && f == s[..q] + r + rest
    ensures q < |f| && f[q] == r[0] && forall j :: 0 <= j < q ==> f[j] == s[j]
  {
  }

  /**
   * When the rewritten tail `f` keeps the first `q` characters of `t[1..]` and has an
   * opener at `q`, the copy agrees with `t` over the whole of any marker it starts with.
   */
  lemma CopyAgrees(t: string, f: string, q: nat)
    requires t != [] && q < |t| - 1 && q < |f| && f[q] == '('
    requires forall j :: 0 <= j < q ==> f[j] == t[1..][j]
    requires MatchAt([t[0]] + f).Some?
    ensures Agree([t[0]] + f, t, MatchAt([t[0]] + f).value.len)
  {
    var u := [t[0]] + f;
    var L := MatchAt(u).value.len;
    MatchNoInnerOpener(u);
    assert u[1 + q] == '(';
    assert L <= 1 + q;
    forall i | 0 <= i < L
      ensures u[i] == t[i]
    {
      if i > 0 {
        assert u[i] == f[i - 1] == t[1..][i - 1];
      }
    }
  }

  lemma NoMatchAfterCopy(t: string)
    requires t != [] && MatchAt(t).None?
    ensures MatchAt([t[0]] + Format(t[1..])).None?
  {
    if MatchAt([t[0]] + Format(t[1..])).Some? {
      CopyKeepsMatch(t);
    }
  }

  /** The canonical form of each reference, in order. */
  function Canonicals(rs: seq<ParagraphReference>): (r: seq<ParagraphReference>)
    ensures |r| == |rs| && forall k :: 0 <= k < |rs| ==> r[k] == Canonical(rs[k])
  {
    seq(|rs|, k requires 0 <= k < |rs| => Canonical(rs[k]))
  }

  /** Extracting from the rewritten text gives the extracted references, canonicalised. */
  lemma {:induction false} FormatExtract(t: string)
    ensures ExtractAll(Format(t)) == Canonicals(ExtractAll(t))
    decreases |t|
  {
    if t != [] {
      match MatchAt(t)
      case Some(m) =>
        MatchWellFormed(t);
        var rest := Format(t[m.len..]);
        RenderedMatch(m.val, rest);
        assert (Rendered(m.val) + rest)[|Rendered(m.val)|..] == rest;
        FormatExtract(t[m.len..]);
      case None =>
        NoMatchAfterCopy(t);
        var u := [t[0]] + Format(t[1..]);
        assert u[1..] == Format(t[1..]);
        FormatExtract(t[1..]);
    }
  }

  /** Deleting markers from the rewritten text gives the same result as from the original. */
  lemma {:induction false} FormatRemove(t: string)
    ensures Remove(Format(t)) == Remove(t)
    decreases |t|
  {
    if t != [] {
      match MatchAt(t)
      case Some(m) =>
        MatchWellFormed(t);
        var rest := Format(t[m.len..]);
        RenderedMatch(m.val, rest);
        assert (Rendered(m.val) + rest)[|Rendered(m.val)|..] == rest;
        FormatRemove(t[m.len..]);
      case None =>
        NoMatchAfterCopy(t);
        var u := [t[0]] + Format(t[1..]);
        assert u[1..] == Format(t[1..]);
        FormatRemove(t[1..]);
    }
  }

  /** Rewriting is idempotent. */
  lemma {:induction false} FormatIdempotent(t: string)
    ensures Format(Format(t)) == Format(t)
    decreases |t|
  {
    if t != [] {
      match MatchAt(t)
      case Some(m) =>
        MatchWellFormed(t);
        var rest := Format(t[m.len..]);
        RenderedMatch(m.val, rest);
        CanonicalToString(m.val);
        assert (Rendered(m.val) + rest)[|Rendered(m.val)|..] == rest;
        FormatIdempotent(t[m.len..]);
      case None =>
        NoMatchAfterCopy(t);
        var u := [t[0]] + Format(t[1..]);
        assert u[1..] == Format(t[1..]);
        FormatIdempotent(t[1..]);
    }
  }

  /** A text starts with a marker exactly when its rewritten form does. */
  lemma FormatStartsWith(t: string)
    ensures StartsWithMarker(Format(t)) == StartsWithMarker(t)
  {
    if t != [] {
      match MatchAt(t)
      case Some(m) =>
        MatchWellFormed(t);
        RenderedMatch(m.val, Format(t[m.len..]));
      case None =>
        NoMatchAfterCopy(t);
    }
  }

  // ---------------------------------------------------------------------------
  // The scans are re.finditer and re.sub
  // ---------------------------------------------------------------------------

  /**
   * `extract_all` is `re.finditer`: one reference per leftmost non-overlapping match,
   * in increasing text position, every place a marker starts covered by a match.
   */
  lemma ExtractAllIsFindIter(t: string)
    ensures IsFindIter(MatchAt, t, 0, Markers(t)) && Vals(Markers(t)) == ExtractAll(t)
  {
    MatchAtConsumes();
    FindAtIsFindIter(MatchAt, t);
    FindAtScan(MatchAt, t, 0);
  }

  /** `remove` keeps the text before the leftmost marker verbatim, drops the marker and goes on after it. */
  lemma RemoveAtFirst(t: string, q: nat, h: Hit<ParagraphReference>)
    requires q == FirstMatch(MatchAt, t) && q < |t| && MatchAt(t[q..]) == Some(h)
    ensures Remove(t) == t[..q] + Remove(t[q + h.len..])
  {
    MatchAtConsumes();
    SubAtFirst(MatchAt, Nothing, t);
    RemoveSplitsAt(t, q, h);
  }

  /** `format` keeps the text before the leftmost marker verbatim, rewrites the marker and goes on after it. */
  lemma FormatAtFirst(t: string, q: nat, h: Hit<ParagraphReference>)
    requires q == FirstMatch(MatchAt, t) && q < |t| && MatchAt(t[q..]) == Some(h)
    ensures Format(t) == t[..q] + Rendered(h.val) + Format(t[q + h.len..])
  {
    MatchAtConsumes();
    SubAtFirst(MatchAt, Rendered, t);
    FormatSplitsAt(t, q, h);
  }

  /** `extract_all` yields the leftmost marker's reference, then the references after it. */
  lemma ExtractAtFirst(t: string, q: nat, h: Hit<ParagraphReference>)
    requires q == FirstMatch(MatchAt, t) && q < |t| && MatchAt(t[q..]) == Some(h)
    ensures ExtractAll(t) == [h.val] + ExtractAll(t[q + h.len..])
  {
    MatchAtConsumes();
    ScanAtFirst(MatchAt, t);
    ExtractSplitsAt(t, q, h);
  }


  /** Removing keeps the text before the leftmost marker and drops that marker. */
  lemma RemoveSplitsAt(s: string, q: nat, h: Hit<ParagraphReference>)
    requires q < |s| && MatchAt(s[q..]) == Some(h)
    requires (MatchAtConsumes(); SubSplitsAt(MatchAt, Nothing, s, q))
    ensures Remove(s) == s[..q] + Remove(s[q + h.len..])
  {
    MatchAtConsumes();
    EraseSplitsIs(MatchAt, s, q, h);
    var rest := s[q + h.len..];
    assert Remove(s) == Sub(MatchAt, Nothing, s);
    assert Remove(rest) == Sub(MatchAt, Nothing, rest);
  }

  /** Extraction yields the leftmost marker's reference, then those after it. */
  lemma ExtractSplitsAt(s: string, q: nat, h: Hit<ParagraphReference>)
    requires q < |s| && MatchAt(s[q..]) == Some(h)
    requires (MatchAtConsumes(); ScanSplitsAt(MatchAt, s, q))
    ensures ExtractAll(s) == [h.val] + ExtractAll(s[q + h.len..])
  {
    MatchAtConsumes();
    ScanSplitsIs(MatchAt, s, q, h);
    var rest := s[q + h.len..];
    assert ExtractAll(s) == ScanAll(MatchAt, s);
    assert ExtractAll(rest) == ScanAll(MatchAt, rest);
  }


  /** A text without markers is left alone by both `remove` and `format`. */
  lemma NoMarkersUnchanged(t: string)
    requires ExtractAll(t) == []
    ensures Remove(t) == t && Format(t) == t
  {
    MatchAtConsumes();
    NoMatchUnchanged(MatchAt, Nothing, t);
    NoMatchUnchanged(MatchAt, Rendered, t);
  }

  /** `startswith` holds exactly when the first match found starts at index 0. */
  lemma StartsWithFirstFound(t: string)
    ensures StartsWithMarker(t) <==> Markers(t) != [] && Markers(t)[0].start == 0
  {
    MatchAtConsumes();
    FirstFoundAtZero(MatchAt, t);
  }
}
