/**
 * The clean-up of extracted text files: seventeen regular-expression substitutions,
 * applied in order, each to the whole output of the one before.
 *
 * Each pattern is a matcher that reads a match at the start of a string (greedy runs;
 * no pattern here needs backtracking to find its match), and each rule is `re.sub`
 * with that matcher. `\w` and `\d` are taken on Latin-1 text.
 */
module Cleanup {
  import opened Wrappers
  import opened Strings
  import opened Scanning

  // ---------------------------------------------------------------------------
  // Character classes
  // ---------------------------------------------------------------------------

  /**
   * `\w` on Latin-1 text: letters and digits of ASCII, the underscore, and the Latin-1
   * characters Python counts as alphanumeric (including `ª`, `º`, `µ`, `²`, `³`, `¹`,
   * `¼`, `½`, `¾` and the accented letters).
   */
  predicate IsWord(c: char) {
    ('a' <= c <= 'z') || ('A' <= c <= 'Z') || ('0' <= c <= '9') || c == '_'
    || c == '\U{AA}' || c == '\U{B2}' || c == '\U{B3}' || c == '\U{B5}' || c == '\U{B9}'
    || c == '\U{BA}' || ('\U{BC}' <= c <= '\U{BE}')
    || ('\U{C0}' <= c <= '\U{D6}') || ('\U{D8}' <= c <= '\U{F6}') || ('\U{F8}' <= c <= '\U{FF}')
  }

  predicate IsBlank(c: char) {
    c == ' '
  }

  predicate IsNewline(c: char) {
    c == '\n'
  }

  /** `[ ,.!?0-9]`: what a line of stray punctuation and page numbers is made of. */
  predicate IsLineJunk(c: char) {
    c == ' ' || c == ',' || c == '.' || c == '!' || c == '?' || IsDigit(c)
  }

  const Openers: string := "(["
  const Closers: string := ")]"
  /** `[\)\],.!?]`: the characters after which a word needs a space. */
  const SpaceAfter: string := ")],.!?"
  /** `[,.!?°º]`: punctuation that takes no space before it and is not repeated. */
  const Punctuation: string := ",.!?\U{B0}\U{BA}"
  /** Typographic quotes turned into `"`. */
  const DoubleQuotes: string := "\U{2018}\U{2019}\U{201C}\U{201D}"
  /** Low quotes turned into `'`. */
  const SingleQuotes: string := "\U{201A}\U{201B}"

  /** Length of the run of characters satisfying `p` at the start of `s`. */
  function RunOf(s: string, p: char -> bool): (n: nat)
    ensures n <= |s| && (forall k :: 0 <= k < n ==> p(s[k])) && (n < |s| ==> !p(s[n]))
    decreases |s|
  {
    if s == [] || !p(s[0]) then 0
    else
      var n := 1 + RunOf(s[1..], p);
      assert forall k :: 1 <= k < n ==> s[k] == s[1..][k - 1];
      n
  }

  // ---------------------------------------------------------------------------
  // The patterns
  // ---------------------------------------------------------------------------

  /** The characters a replacement may bring that the text did not have. */
  const Inserted: string := " \"'\n"

  /** Every character of the replacement is inserted or taken from the matched text. */
  predicate FromMatched(h: Hit<string>, s: string)
    requires h.len <= |s|
  {
    forall c :: c in h.val ==> c in Inserted || c in s[..h.len]
  }

  /** `[ \t]` → `" "`. */
  function MatchHardSpace(s: string): (m: Option<Hit<string>>)
    ensures m.Some? ==> 0 < m.value.len <= |s| && FromMatched(m.value, s)
  {
    if s != [] && (s[0] == '\U{A0}' || s[0] == '\t') then Some(Hit(" ", 1)) else None
  }

  /** `[\(\[]\s*[\)\]]` → `""`. */
  function MatchEmptyBrackets(s: string): (m: Option<Hit<string>>)
    ensures m.Some? ==> 0 < m.value.len <= |s| && FromMatched(m.value, s)
  {
    if s != [] && s[0] in Openers then
      var w := RunOf(s[1..], IsSpace);
      if 1 + w < |s| && s[1 + w] in Closers then Some(Hit("", w + 2)) else None
    else None
  }

  /** `([\)\],.!?])(\w)` → `\1 \2`. */
  function MatchNoSpaceAfter(s: string): (m: Option<Hit<string>>)
    ensures m.Some? ==> 0 < m.value.len <= |s| && FromMatched(m.value, s)
  {
    if |s| >= 2 && s[0] in SpaceAfter && IsWord(s[1]) then Some(Hit([s[0], ' ', s[1]], 2)) else None
  }

  /** `(\w)([\(\[])` → `\1 \2`. */
  function MatchNoSpaceBefore(s: string): (m: Option<Hit<string>>)
    ensures m.Some? ==> 0 < m.value.len <= |s| && FromMatched(m.value, s)
  {
    if |s| >= 2 && IsWord(s[0]) && s[1] in Openers then Some(Hit([s[0], ' ', s[1]], 2)) else None
  }

  /** ` +` → `" "`. */
  function MatchSpaces(s: string): (m: Option<Hit<string>>)
    ensures m.Some? ==> 0 < m.value.len <= |s| && FromMatched(m.value, s)
  {
    var n := RunOf(s, IsBlank);
    if n > 0 then Some(Hit(" ", n)) else None
  }

  /** `([‘“\(\[]) ` → `\1`. */
  function MatchSpaceAfterOpener(s: string): (m: Option<Hit<string>>)
    ensures m.Some? ==> 0 < m.value.len <= |s| && FromMatched(m.value, s)
  {
    if |s| >= 2 && (s[0] == '\U{2018}' || s[0] == '\U{201C}' || s[0] in Openers) && s[1] == ' ' then
      Some(Hit([s[0]], 2))
    else None
  }

  /** ` ([’”\)\]])` → `\1`. */
  function MatchSpaceBeforeCloser(s: string): (m: Option<Hit<string>>)
    ensures m.Some? ==> 0 < m.value.len <= |s| && FromMatched(m.value, s)
  {
    if |s| >= 2 && s[0] == ' ' && (s[1] == '\U{2019}' || s[1] == '\U{201D}' || s[1] in Closers) then
      Some(Hit([s[1]], 2))
    else None
  }

  /** `[‘’“”]` → `"`. */
  function MatchDoubleQuote(s: string): (m: Option<Hit<string>>)
    ensures m.Some? ==> 0 < m.value.len <= |s| && FromMatched(m.value, s)
  {
    if s != [] && s[0] in DoubleQuotes then Some(Hit("\"", 1)) else None
  }

  /** `[‚‛]` → `'`. */
  function MatchSingleQuote(s: string): (m: Option<Hit<string>>)
    ensures m.Some? ==> 0 < m.value.len <= |s| && FromMatched(m.value, s)
  {
    if s != [] && s[0] in SingleQuotes then Some(Hit("'", 1)) else None
  }

  /** `\n([ ]+)` → `"\n"`. */
  function MatchLineStart(s: string): (m: Option<Hit<string>>)
    ensures m.Some? ==> 0 < m.value.len <= |s| && FromMatched(m.value, s)
  {
    if s != [] && s[0] == '\n' then
      var n := RunOf(s[1..], IsBlank);
      if n > 0 then Some(Hit("\n", n + 1)) else None
    else None
  }

  /** `([ ]+)\n` → `"\n"`. */
  function MatchLineEnd(s: string): (m: Option<Hit<string>>)
    ensures m.Some? ==> 0 < m.value.len <= |s| && FromMatched(m.value, s)
  {
    var n := RunOf(s, IsBlank);
    if n > 0 && n < |s| && s[n] == '\n' then Some(Hit("\n", n + 1)) else None
  }

  /** `\n([ ,.!?0-9]+)\n` → `"\n"`. */
  function MatchJunkLine(s: string): (m: Option<Hit<string>>)
    ensures m.Some? ==> 0 < m.value.len <= |s| && FromMatched(m.value, s)
  {
    if s != [] && s[0] == '\n' then
      var n := RunOf(s[1..], IsLineJunk);
      if n > 0 && n + 1 < |s| && s[n + 1] == '\n' then Some(Hit("\n", n + 2)) else None
    else None
  }

  /** `\n{3,}` → `"\n\n"`. */
  function MatchNewlines(s: string): (m: Option<Hit<string>>)
    ensures m.Some? ==> 0 < m.value.len <= |s| && FromMatched(m.value, s)
  {
    var n := RunOf(s, IsNewline);
    if n >= 3 then Some(Hit("\n\n", n)) else None
  }

  /** ` ([,.!?°º])` → `\1`. */
  function MatchSpaceBeforePunctuation(s: string): (m: Option<Hit<string>>)
    ensures m.Some? ==> 0 < m.value.len <= |s| && FromMatched(m.value, s)
  {
    if |s| >= 2 && s[0] == ' ' && s[1] in Punctuation then Some(Hit([s[1]], 2)) else None
  }

  /** `([,.!?°º])\1+` → `\1`. */
  function MatchRepeatedPunctuation(s: string): (m: Option<Hit<string>>)
    ensures m.Some? ==> 0 < m.value.len <= |s| && FromMatched(m.value, s)
  {
    if |s| >= 2 && s[0] in Punctuation && s[1] == s[0] then
      var c := s[0];
      var n := 1 + RunOf(s[1..], x => x == c);
      Some(Hit([c], n))
    else None
  }

  /** `\n{2}[\d]+$` → `""`: `$` is the end of the text or the position before a final newline. */
  function MatchTrailingNumber(s: string): (m: Option<Hit<string>>)
    ensures m.Some? ==> 0 < m.value.len <= |s| && FromMatched(m.value, s)
  {
    if |s| >= 2 && s[0] == '\n' && s[1] == '\n' then
      var d := DigitRun(s[2..]);
      if d > 0 && (d + 2 == |s| || (d + 3 == |s| && s[d + 2] == '\n')) then Some(Hit("", d + 2)) else None
    else None
  }

  // ---------------------------------------------------------------------------
  // The rules
  // ---------------------------------------------------------------------------

  /** The replacement of a match is the string the matcher computed. */
  function Id(v: string): string {
    v
  }

  /** Non-breaking spaces and tabs become spaces. */
  function HardSpaces(s: string): string {
    assert Consumes(MatchHardSpace);
    Sub(MatchHardSpace, Id, s)
  }

  /** Remove empty parentheses and brackets. */
  function EmptyBrackets(s: string): string {
    assert Consumes(MatchEmptyBrackets);
    Sub(MatchEmptyBrackets, Id, s)
  }

  /** Add the missing space after punctuation. */
  function SpaceAfterPunctuation(s: string): string {
    assert Consumes(MatchNoSpaceAfter);
    Sub(MatchNoSpaceAfter, Id, s)
  }

  /** Add the missing space before parentheses and brackets. */
  function SpaceBeforeOpeners(s: string): string {
    assert Consumes(MatchNoSpaceBefore);
    Sub(MatchNoSpaceBefore, Id, s)
  }

  /** Replace runs of spaces with one space. */
  function SingleSpaces(s: string): string {
    assert Consumes(MatchSpaces);
    Sub(MatchSpaces, Id, s)
  }

  /** Remove the space after a quote, parenthesis or bracket opener. */
  function OpenerSpace(s: string): string {
    assert Consumes(MatchSpaceAfterOpener);
    Sub(MatchSpaceAfterOpener, Id, s)
  }

  /** Remove the space before a quote, parenthesis or bracket closer. */
  function CloserSpace(s: string): string {
    assert Consumes(MatchSpaceBeforeCloser);
    Sub(MatchSpaceBeforeCloser, Id, s)
  }

  /** Typographic quotes become `"`. */
  function StraightDoubleQuotes(s: string): string {
    assert Consumes(MatchDoubleQuote);
    Sub(MatchDoubleQuote, Id, s)
  }

  /** Low quotes become `'`. */
  function StraightSingleQuotes(s: string): string {
    assert Consumes(MatchSingleQuote);
    Sub(MatchSingleQuote, Id, s)
  }

  /** Remove spaces at line starts. */
  function LineStartSpaces(s: string): string {
    assert Consumes(MatchLineStart);
    Sub(MatchLineStart, Id, s)
  }

  /** Remove spaces at line ends. */
  function LineEndSpaces(s: string): string {
    assert Consumes(MatchLineEnd);
    Sub(MatchLineEnd, Id, s)
  }

  /** Remove lines made only of punctuation, spaces or digits. */
  function JunkLines(s: string): string {
    assert Consumes(MatchJunkLine);
    Sub(MatchJunkLine, Id, s)
  }

  /** At most two newlines in a row. */
  function BlankLines(s: string): string {
    assert Consumes(MatchNewlines);
    Sub(MatchNewlines, Id, s)
  }

  /** Remove the space before punctuation. */
  function PunctuationSpace(s: string): string {
    assert Consumes(MatchSpaceBeforePunctuation);
    Sub(MatchSpaceBeforePunctuation, Id, s)
  }

  /** Remove repeated punctuation. */
  function RepeatedPunctuation(s: string): string {
    assert Consumes(MatchRepeatedPunctuation);
    Sub(MatchRepeatedPunctuation, Id, s)
  }

  /**
   * `^[\d]+\n{2}` → `""`: without the MULTILINE flag `^` is the start of the text only,
   * so at most one match, at position 0.
   */
  function LeadingNumber(s: string): string {
    var d := DigitRun(s);
    if d > 0 && d + 2 <= |s| && s[d] == '\n' && s[d + 1] == '\n' then s[d + 2..] else s
  }

  /** Remove a last line made only of digits. */
  function TrailingNumber(s: string): string {
    assert Consumes(MatchTrailingNumber);
    Sub(MatchTrailingNumber, Id, s)
  }

  /** `CLEANUP_REGEX_SUBSTITUTIONS`, in order. */
  const CleanupRules: seq<string -> string> := [
    HardSpaces, EmptyBrackets, SpaceAfterPunctuation, SpaceBeforeOpeners, SingleSpaces,
    OpenerSpace, CloserSpace, StraightDoubleQuotes, StraightSingleQuotes, LineStartSpaces,
    LineEndSpaces, JunkLines, BlankLines, PunctuationSpace, RepeatedPunctuation,
    LeadingNumber, TrailingNumber
  ]

  /** The rules applied in order, each to the output of the previous one. */
  function ApplyAll(rules: seq<string -> string>, s: string): string
    decreases |rules|
  {
    if rules == [] then s else rules[|rules| - 1](ApplyAll(rules[..|rules| - 1], s))
  }

  /** The substitution loop of `clean` for one file's contents. */
  method Clean(contents: string) returns (cleaned: string)
    ensures cleaned == ApplyAll(CleanupRules, contents)
  {
    cleaned := contents;
    for i := 0 to |CleanupRules|
      invariant cleaned == ApplyAll(CleanupRules[..i], contents)
    {
      assert CleanupRules[..i + 1][..i] == CleanupRules[..i];
      cleaned := CleanupRules[i](cleaned);
    }
    assert CleanupRules[..|CleanupRules|] == CleanupRules;
  }

  // ---------------------------------------------------------------------------
  // What the rules leave behind
  // ---------------------------------------------------------------------------

  /** The first `k + 1` rules are the first `k` rules followed by rule `k`. */
  lemma ApplyNext(k: nat, s: string)
    requires k < |CleanupRules|
    ensures ApplyAll(CleanupRules[..k + 1], s) == CleanupRules[k](ApplyAll(CleanupRules[..k], s))
  {
    assert CleanupRules[..k + 1][..k] == CleanupRules[..k];
  }

  /** Every replacement of `mat` is built from inserted characters and the matched text. */
  ghost predicate Faithful(mat: string -> Option<Hit<string>>)
    requires Consumes(mat)
  {
    forall s :: mat(s).Some? ==> FromMatched(mat(s).value, s)
  }

  /** A substitution brings no character outside `Inserted` that the text did not have. */
  lemma {:induction false} SubKeepsAbsent(mat: string -> Option<Hit<string>>, t: string, c: char)
    requires Consumes(mat) && Faithful(mat) && c !in Inserted && c !in t
    ensures c !in Sub(mat, Id, t)
    decreases |t|
  {
    if t != [] {
      match mat(t)
      case Some(h) =>
        assert FromMatched(h, t);
        assert c !in t[..h.len] && c !in t[h.len..];
        SubKeepsAbsent(mat, t[h.len..], c);
      case None =>
        assert c !in t[1..];
        SubKeepsAbsent(mat, t[1..], c);
    }
  }

  /** A substitution that matches every `c` and never writes one leaves no `c`. */
  lemma {:induction false} SubRemoves(mat: string -> Option<Hit<string>>, t: string, c: char)
    requires Consumes(mat)
    requires forall s :: s != [] && s[0] == c ==> mat(s).Some?
    requires forall s :: mat(s).Some? ==> c !in mat(s).value.val
    ensures c !in Sub(mat, Id, t)
    decreases |t|
  {
    if t != [] {
      match mat(t)
      case Some(h) =>
        SubRemoves(mat, t[h.len..], c);
      case None =>
        SubRemoves(mat, t[1..], c);
    }
  }

  /** No rule brings back a character outside `Inserted` that its input lacks. */
  lemma RuleKeepsAbsent(k: nat, t: string, c: char)
    requires k < |CleanupRules| && c !in Inserted && c !in t
    ensures c !in CleanupRules[k](t)
  {
    if k == 0 {
      assert CleanupRules[k] == HardSpaces;
      SubKeepsAbsent(MatchHardSpace, t, c);
    } else if k == 1 {
      assert CleanupRules[k] == EmptyBrackets;
      SubKeepsAbsent(MatchEmptyBrackets, t, c);
    } else if k == 2 {
      assert CleanupRules[k] == SpaceAfterPunctuation;
      SubKeepsAbsent(MatchNoSpaceAfter, t, c);
    } else if k == 3 {
      assert CleanupRules[k] == SpaceBeforeOpeners;
      SubKeepsAbsent(MatchNoSpaceBefore, t, c);
    } else if k == 4 {
      assert CleanupRules[k] == SingleSpaces;
      SubKeepsAbsent(MatchSpaces, t, c);
    } else if k == 5 {
      assert CleanupRules[k] == OpenerSpace;
      SubKeepsAbsent(MatchSpaceAfterOpener, t, c);
    } else if k == 6 {
      assert CleanupRules[k] == CloserSpace;
      SubKeepsAbsent(MatchSpaceBeforeCloser, t, c);
    } else if k == 7 {
      assert CleanupRules[k] == StraightDoubleQuotes;
      SubKeepsAbsent(MatchDoubleQuote, t, c);
    } else if k == 8 {
      assert CleanupRules[k] == StraightSingleQuotes;
      SubKeepsAbsent(MatchSingleQuote, t, c);
    } else if k == 9 {
      assert CleanupRules[k] == LineStartSpaces;
      SubKeepsAbsent(MatchLineStart, t, c);
    } else if k == 10 {
      assert CleanupRules[k] == LineEndSpaces;
      SubKeepsAbsent(MatchLineEnd, t, c);
    } else if k == 11 {
      assert CleanupRules[k] == JunkLines;
      SubKeepsAbsent(MatchJunkLine, t, c);
    } else if k == 12 {
      assert CleanupRules[k] == BlankLines;
      SubKeepsAbsent(MatchNewlines, t, c);
    } else if k == 13 {
      assert CleanupRules[k] == PunctuationSpace;
      SubKeepsAbsent(MatchSpaceBeforePunctuation, t, c);
    } else if k == 14 {
      assert CleanupRules[k] == RepeatedPunctuation;
      SubKeepsAbsent(MatchRepeatedPunctuation, t, c);
    } else if k == 15 {
      assert CleanupRules[k] == LeadingNumber;
      assert c !in t[DigitRun(t)..];
    } else {
      assert CleanupRules[k] == TrailingNumber;
      SubKeepsAbsent(MatchTrailingNumber, t, c);
    }
  }

  /** The typographic characters the rules replace. */
  const Typographic: string := "\U{A0}\t" + DoubleQuotes + SingleQuotes

  /** The index of the rule that replaces a typographic character. */
  function ReplacedBy(c: char): (k: nat)
    requires c in Typographic
    ensures k < |CleanupRules|
  {
    if c == '\U{A0}' || c == '\t' then 0 else if c in DoubleQuotes then 7 else 8
  }

  /** The rule `ReplacedBy(c)` leaves no `c`, whatever it is given. */
  lemma RuleRemoves(c: char, t: string)
    requires c in Typographic
    ensures c !in CleanupRules[ReplacedBy(c)](t)
  {
    if c == '\U{A0}' || c == '\t' {
      assert CleanupRules[ReplacedBy(c)] == HardSpaces;
      SubRemoves(MatchHardSpace, t, c);
    } else if c in DoubleQuotes {
      assert CleanupRules[ReplacedBy(c)] == StraightDoubleQuotes;
      SubRemoves(MatchDoubleQuote, t, c);
    } else {
      assert CleanupRules[ReplacedBy(c)] == StraightSingleQuotes;
      SubRemoves(MatchSingleQuote, t, c);
    }
  }

  /** Once its rule has run, a typographic character never comes back. */
  lemma {:induction false} RemovedStaysRemoved(c: char, k: nat, s: string)
    requires c in Typographic && ReplacedBy(c) < k <= |CleanupRules|
    ensures c !in ApplyAll(CleanupRules[..k], s)
    decreases k
  {
    ApplyNext(k - 1, s);
    if k - 1 == ReplacedBy(c) {
      RuleRemoves(c, ApplyAll(CleanupRules[..k - 1], s));
    } else {
      RemovedStaysRemoved(c, k - 1, s);
      RuleKeepsAbsent(k - 1, ApplyAll(CleanupRules[..k - 1], s), c);
    }
  }

  /** A cleaned text has no non-breaking space, tab, typographic or low quote. */
  lemma CleanedPlain(contents: string)
    ensures forall c :: c in Typographic ==> c !in ApplyAll(CleanupRules, contents)
  {
    forall c | c in Typographic
      ensures c !in ApplyAll(CleanupRules, contents)
    {
      RemovedStaysRemoved(c, |CleanupRules|, contents);
      assert CleanupRules[..|CleanupRules|] == CleanupRules;
    }
  }

  // ---------------------------------------------------------------------------
  // What each rule achieves in one pass
  // ---------------------------------------------------------------------------

  /** No two neighbouring characters of `t` form a `bad` pair. */
  predicate NoBadPair(t: string, bad: (char, char) -> bool) {
    forall i :: 0 <= i < |t| - 1 ==> !bad(t[i], t[i + 1])
  }

  /**
   * A substitution whose replacements start with the first matched character, hold no
   * bad pair, cannot form one with the character after the match, and which matches
   * wherever the text has a bad pair, leaves none.
   */
  lemma {:induction false} SubNoBadPair(mat: string -> Option<Hit<string>>, bad: (char, char) -> bool, t: string)
    requires Consumes(mat)
    requires forall s :: mat(s).Some? ==> mat(s).value.val != [] && mat(s).value.val[0] == s[0]
    requires forall s :: mat(s).Some? ==> NoBadPair(mat(s).value.val, bad)
    requires forall s :: mat(s).Some? && mat(s).value.len < |s| ==>
               !bad(mat(s).value.val[|mat(s).value.val| - 1], s[mat(s).value.len])
    requires forall s :: |s| >= 2 && mat(s).None? ==> !bad(s[0], s[1])
    ensures NoBadPair(Sub(mat, Id, t), bad)
    ensures t != [] ==> Sub(mat, Id, t) != [] && Sub(mat, Id, t)[0] == t[0]
    decreases |t|
  {
    if t != [] {
      match mat(t)
      case Some(h) =>
        var x := Sub(mat, Id, t[h.len..]);
        SubNoBadPair(mat, bad, t[h.len..]);
        assert x != [] ==> x[0] == t[h.len];
        NoBadJoin(h.val, x, bad);
      case None =>
        var x := Sub(mat, Id, t[1..]);
        SubNoBadPair(mat, bad, t[1..]);
        assert x != [] ==> x[0] == t[1];
        NoBadJoin([t[0]], x, bad);
    }
  }

  /** Two pair-free strings joined without a bad pair at the seam are pair-free. */
  lemma NoBadJoin(a: string, x: string, bad: (char, char) -> bool)
    requires a != [] && NoBadPair(a, bad) && NoBadPair(x, bad)
    requires x != [] ==> !bad(a[|a| - 1], x[0])
    ensures NoBadPair(a + x, bad) && (a + x)[0] == a[0]
  {
    var r := a + x;
    forall i | 0 <= i < |r| - 1
      ensures !bad(r[i], r[i + 1])
    {
      if i + 1 < |a| {
        assert r[i] == a[i] && r[i + 1] == a[i + 1];
      } else if i + 1 == |a| {
        assert r[i] == a[|a| - 1] && r[i + 1] == x[0];
      } else {
        assert r[i] == x[i - |a|] && r[i + 1] == x[i + 1 - |a|];
      }
    }
  }

  predicate DoubleSpace(a: char, b: char) {
    a == ' ' && b == ' '
  }

  /** After the rule replacing ` +`, no two spaces are neighbours. */
  lemma SingleSpacesLeaveNone(t: string)
    ensures NoBadPair(SingleSpaces(t), DoubleSpace)
  {
    SubNoBadPair(MatchSpaces, DoubleSpace, t);
  }

  /** A character of `)],.!?` directly before a word character. */
  predicate MissingSpaceAfter(a: char, b: char) {
    a in SpaceAfter && IsWord(b)
  }

  /** After the rule adding spaces after punctuation, no such pair is left. */
  lemma SpaceAfterPunctuationLeavesNone(t: string)
    ensures NoBadPair(SpaceAfterPunctuation(t), MissingSpaceAfter)
  {
    SubNoBadPair(MatchNoSpaceAfter, MissingSpaceAfter, t);
  }

  /** A word character directly before `(` or `[`. */
  predicate MissingSpaceBefore(a: char, b: char) {
    IsWord(a) && b in Openers
  }

  /** After the rule adding spaces before openers, no such pair is left. */
  lemma SpaceBeforeOpenersLeavesNone(t: string)
    ensures NoBadPair(SpaceBeforeOpeners(t), MissingSpaceBefore)
  {
    SubNoBadPair(MatchNoSpaceBefore, MissingSpaceBefore, t);
  }

  /** A newline directly followed by a space. */
  predicate SpaceAtLineStart(a: char, b: char) {
    a == '\n' && b == ' '
  }

  /** After the rule removing spaces at line starts, no line but the first starts with a space. */
  lemma LineStartSpacesLeavesNone(t: string)
    ensures NoBadPair(LineStartSpaces(t), SpaceAtLineStart)
  {
    SubNoBadPair(MatchLineStart, SpaceAtLineStart, t);
  }

  /** The same punctuation mark twice in a row. */
  predicate DoubledPunctuation(a: char, b: char) {
    a in Punctuation && a == b
  }

  /** After the rule collapsing repeated punctuation, no mark is repeated. */
  lemma RepeatedPunctuationLeavesNone(t: string)
    ensures NoBadPair(RepeatedPunctuation(t), DoubledPunctuation)
  {
    SubNoBadPair(MatchRepeatedPunctuation, DoubledPunctuation, t);
  }

  /** Number of newlines at the start of `s`. */
  function Lead(s: string): nat {
    RunOf(s, IsNewline)
  }

  /** Three newlines in a row, starting at `i`. */
  predicate TripleNewlineAt(s: string, i: nat) {
    i + 2 < |s| && s[i] == '\n' && s[i + 1] == '\n' && s[i + 2] == '\n'
  }

  /**
   * After the rule replacing `\n{3,}`, no three newlines are in a row, and a text that
   * started with three or more newlines starts with exactly two.
   */
  lemma {:induction false} BlankLinesLimit(t: string)
    ensures forall i :: 0 <= i < |BlankLines(t)| ==> !TripleNewlineAt(BlankLines(t), i)
    ensures Lead(BlankLines(t)) == if Lead(t) >= 3 then 2 else Lead(t)
    decreases |t|
  {
    if t != [] {
      var r := BlankLines(t);
      match MatchNewlines(t)
      case Some(h) =>
        var x := BlankLines(t[h.len..]);
        BlankLinesLimit(t[h.len..]);
        assert r == "\n\n" + x;
        assert Lead(t[h.len..]) == 0;
        assert x == [] || x[0] != '\n';
        assert r[0] == '\n' && r[1] == '\n' && (|r| == 2 || r[2] != '\n');
        forall i | 0 <= i < |r|
          ensures !TripleNewlineAt(r, i)
        {
          if i >= 2 {
            assert !TripleNewlineAt(x, i - 2);
          }
        }
      case None =>
        var x := BlankLines(t[1..]);
        BlankLinesLimit(t[1..]);
        assert r == [t[0]] + x;
        if t[0] == '\n' {
          assert Lead(t[1..]) == Lead(t) - 1;
        }
        forall i | 0 <= i < |r|
          ensures !TripleNewlineAt(r, i)
        {
          if i >= 1 {
            assert !TripleNewlineAt(x, i - 1);
          }
        }
    }
  }

  // ---------------------------------------------------------------------------
  // What the rules write
  // ---------------------------------------------------------------------------

  /** `t` with every character of `quotes` replaced by `q` and every other character kept. */
  function Straightened(t: string, quotes: string, q: char): string {
    seq(|t|, i requires 0 <= i < |t| => if t[i] in quotes then q else t[i])
  }

  /** A substitution of each character of `quotes` by `q` writes `Straightened`. */
  lemma {:induction false} SubStraightens(mat: string -> Option<Hit<string>>, quotes: string, q: char, t: string)
    requires Consumes(mat)
    requires forall s :: mat(s) == if s != [] && s[0] in quotes then Some(Hit([q], 1)) else None
    ensures Sub(mat, Id, t) == Straightened(t, quotes, q)
    decreases |t|
  {
    if t != [] {
      SubStraightens(mat, quotes, q, t[1..]);
      assert Straightened(t, quotes, q) == [if t[0] in quotes then q else t[0]] + Straightened(t[1..], quotes, q);
    }
  }

  /** Each typographic quote becomes `"`, and nothing else changes. */
  lemma StraightDoubleQuotesWrites(t: string)
    ensures StraightDoubleQuotes(t) == Straightened(t, DoubleQuotes, '"')
  {
    SubStraightens(MatchDoubleQuote, DoubleQuotes, '"', t);
  }

  /** Each low quote becomes `'`, and nothing else changes. */
  lemma StraightSingleQuotesWrites(t: string)
    ensures StraightSingleQuotes(t) == Straightened(t, SingleQuotes, '\'')
  {
    SubStraightens(MatchSingleQuote, SingleQuotes, '\'', t);
  }

  /** `t` with one space added between `t[i]` and `t[i + 1]` wherever `bad(t[i], t[i + 1])`, and nothing else changed. */
  function Spaced(t: string, bad: (char, char) -> bool): string
    decreases |t|
  {
    if |t| < 2 then t
    else [t[0]] + (if bad(t[0], t[1]) then [' '] else []) + Spaced(t[1..], bad)
  }

  /**
   * A substitution that writes a space inside every `bad` pair writes `Spaced`, provided
   * the second character of a bad pair never starts another one (so matches cannot overlap).
   */
  lemma {:induction false} SubSpaces(mat: string -> Option<Hit<string>>, bad: (char, char) -> bool, t: string)
    requires Consumes(mat)
    requires forall s :: mat(s) == if |s| >= 2 && bad(s[0], s[1]) then Some(Hit([s[0], ' ', s[1]], 2)) else None
    requires forall a, b :: bad(a, b) ==> forall c :: !bad(b, c)
    ensures Sub(mat, Id, t) == Spaced(t, bad)
    decreases |t|
  {
    if |t| >= 2 && bad(t[0], t[1]) {
      assert mat(t) == Some(Hit([t[0], ' ', t[1]], 2));
      SubHit(mat, Id, t);
      SubSpaces(mat, bad, t[2..]);
      assert |t| >= 3 ==> !bad(t[1], t[2]);
      SpacedHit(t, bad);
    } else if t != [] {
      assert mat(t) == None;
      SubCons(mat, Id, t);
      SubSpaces(mat, bad, t[1..]);
    }
  }

  /** A bad pair at the start gets its space, and the scan goes on after the pair. */
  lemma SpacedHit(t: string, bad: (char, char) -> bool)
    requires |t| >= 2 && bad(t[0], t[1]) && (|t| >= 3 ==> !bad(t[1], t[2]))
    ensures Spaced(t, bad) == [t[0], ' ', t[1]] + Spaced(t[2..], bad)
  {
    var u := t[1..];
    assert Spaced(t, bad) == [t[0]] + " " + Spaced(u, bad);
    if |t| >= 3 {
      assert u[0] == t[1] && u[1] == t[2] && u[1..] == t[2..];
      assert Spaced(u, bad) == [t[1]] + Spaced(t[2..], bad);
    } else {
      assert u == [t[1]] && t[2..] == [];
    }
  }

  /** Exactly one space goes between a closer or punctuation mark and a following word character; nothing else changes. */
  lemma SpaceAfterPunctuationWrites(t: string)
    ensures SpaceAfterPunctuation(t) == Spaced(t, MissingSpaceAfter)
  {
    SubSpaces(MatchNoSpaceAfter, MissingSpaceAfter, t);
  }

  /** Exactly one space goes between a word character and a following opener; nothing else changes. */
  lemma SpaceBeforeOpenersWrites(t: string)
    ensures SpaceBeforeOpeners(t) == Spaced(t, MissingSpaceBefore)
  {
    SubSpaces(MatchNoSpaceBefore, MissingSpaceBefore, t);
  }

  /** `t` without each newline that follows two newlines; `n` newlines directly precede `t`. */
  function KeepTwo(t: string, n: nat): string
    decreases |t|
  {
    if t == [] then []
    else if t[0] != '\n' then [t[0]] + KeepTwo(t[1..], 0)
    else if n >= 2 then KeepTwo(t[1..], 2)
    else "\n" + KeepTwo(t[1..], n + 1)
  }

  /** Newlines before `t` do not matter when they cannot make three with its own leading ones. */
  lemma {:induction false} KeepTwoFresh(t: string, n: nat)
    requires Lead(t) + n <= 2
    ensures KeepTwo(t, n) == KeepTwo(t, 0)
    decreases |t|
  {
    if t != [] && t[0] == '\n' {
      assert Lead(t) == 1 + Lead(t[1..]);
      KeepTwoFresh(t[1..], n + 1);
      KeepTwoFresh(t[1..], 1);
    }
  }

  /** After two newlines, the next `k` leading newlines of `t` are all dropped. */
  lemma {:induction false} KeepTwoSkip(t: string, k: nat)
    requires k <= Lead(t)
    ensures KeepTwo(t, 2) == KeepTwo(t[k..], 2)
    decreases k
  {
    if k > 0 {
      assert Lead(t) == 1 + Lead(t[1..]);
      KeepTwoSkip(t[1..], k - 1);
      assert t[1..][k - 1..] == t[k..];
    }
  }

  /** Every run of three or more newlines becomes exactly two, and nothing else changes. */
  lemma {:induction false} BlankLinesWrites(t: string)
    ensures BlankLines(t) == KeepTwo(t, 0)
    decreases |t|
  {
    if t != [] {
      var L := Lead(t);
      match MatchNewlines(t)
      case Some(h) =>
        BlankLinesWrites(t[L..]);
        assert Lead(t) == 1 + Lead(t[1..]) && Lead(t[1..]) == 1 + Lead(t[2..]);
        assert t[1..][1..] == t[2..];
        KeepTwoSkip(t[2..], L - 2);
        assert t[2..][L - 2..] == t[L..];
        KeepTwoFresh(t[L..], 2);
      case None =>
        BlankLinesWrites(t[1..]);
        if t[0] == '\n' {
          assert Lead(t) == 1 + Lead(t[1..]);
          KeepTwoFresh(t[1..], 1);
        }
    }
  }

  /**
   * The rule for `^[\d]+\n{2}` removes at most a first line of digits and the blank
   * line after it, and leaves a text that does not start with a digit as it is.
   */
  lemma LeadingNumberAtStart(t: string)
    ensures LeadingNumber(t) == t || exists d :: 0 < d && d + 2 <= |t| && AllDigits(t[..d])
                                                && t[d..d + 2] == "\n\n" && LeadingNumber(t) == t[d + 2..]
    ensures (t == [] || !IsDigit(t[0])) ==> LeadingNumber(t) == t
  {
  }

  /** A digit line followed by a blank line is removed from the start. */
  lemma LeadingNumberRemoved(d: string, rest: string)
    requires d != [] && AllDigits(d)
    ensures LeadingNumber(d + "\n\n" + rest) == rest
  {
    assert d + "\n\n" + rest == d + ("\n\n" + rest);
    DigitRunOf(d, "\n\n" + rest);
    assert (d + "\n\n" + rest)[|d| + 2..] == rest;
  }

  /** A match of `\n{2}[\d]+$` is a blank line and a digit line that end the text or precede its final newline. */
  lemma TrailingMatch(u: string)
    requires MatchTrailingNumber(u).Some?
    ensures var n := MatchTrailingNumber(u).value.len;
      2 < n && u[..2] == "\n\n" && AllDigits(u[2..n]) && MatchTrailingNumber(u).value.val == ""
      && (u[n..] == [] || u[n..] == "\n")
  {
    var n := MatchTrailingNumber(u).value.len;
    assert u[2..][..n - 2] == u[2..n];
  }

  /** What may follow a match is left as it is. */
  lemma TrailingTailKept(v: string)
    requires v == [] || v == "\n"
    ensures TrailingNumber(v) == v
  {
    if v != [] {
      assert MatchTrailingNumber(v).None?;
      SubCons(MatchTrailingNumber, Id, v);
    }
  }

  /**
   * `r` is `t` without the blank line and digit line at `t[q..q + n]`, which end `t` or
   * precede its final newline.
   */
  predicate RemovedLastLine(t: string, r: string, q: nat, n: nat) {
    q + n <= |t| && 2 < n && t[q..q + 2] == "\n\n" && AllDigits(t[q + 2..q + n])
    && (t[q + n..] == [] || t[q + n..] == "\n") && r == t[..q] + t[q + n..]
  }

  /**
   * The rule for `\n{2}[\d]+$` removes at most one blank line and digit line, and only
   * at the end of the text or just before its final newline.
   */
  lemma TrailingNumberAtEnd(t: string)
    ensures TrailingNumber(t) == t || exists q: nat, n: nat :: RemovedLastLine(t, TrailingNumber(t), q, n)
  {
    assert Consumes(MatchTrailingNumber);
    SubAtFirst(MatchTrailingNumber, Id, t);
    var q := FirstMatch(MatchTrailingNumber, t);
    if q < |t| {
      TrailingNumberFound(t, q);
    }
  }

  lemma TrailingNumberFound(t: string, q: nat)
    requires q < |t| && MatchTrailingNumber(t[q..]).Some?
    requires SubSplitsAt(MatchTrailingNumber, Id, t, q)
    ensures RemovedLastLine(t, TrailingNumber(t), q, MatchTrailingNumber(t[q..]).value.len)
  {
    var u := t[q..];
    var h := MatchTrailingNumber(u).value;
    SplitsAtIs(MatchTrailingNumber, Id, t, q, h);
    TrailingMatch(u);
    var n := h.len;
    var x := TrailingNumber(u[n..]);
    TrailingTailKept(u[n..]);
    assert Id(h.val) == [];
    assert TrailingNumber(t) == t[..q] + x;
    LastLineParts(t, q, n, TrailingNumber(t));
  }

  /** Pure sequence facts behind `TrailingNumberFound`. */
  lemma LastLineParts(t: string, q: nat, n: nat, r: string)
    requires 2 < n && q + n <= |t|
    requires t[q..][..2] == "\n\n" && AllDigits(t[q..][2..n])
    requires t[q..][n..] == [] || t[q..][n..] == "\n"
    requires r == t[..q] + t[q..][n..]
    ensures RemovedLastLine(t, r, q, n)
  {
    assert t[q..][..2] == t[q..q + 2] && t[q..][2..n] == t[q + 2..q + n] && t[q..][n..] == t[q + n..];
  }

  /** A line of digits and punctuation between two newlines is removed with one of them. */
  lemma JunkLineRemoved(j: string, rest: string)
    requires j != [] && forall k :: 0 <= k < |j| ==> IsLineJunk(j[k])
    ensures JunkLines("\n" + j + "\n" + rest) == "\n" + JunkLines(rest)
  {
    var t := "\n" + j + "\n" + rest;
    assert t[1..][..|j|] == j;
    assert RunOf(t[1..], IsLineJunk) == |j| by {
      assert t[1..][|j|] == '\n';
    }
    SubHit(MatchJunkLine, Id, t);
    assert t[|j| + 2..] == rest;
  }

  /**
   * The match takes the newline it shares with the next line, so of two junk lines in a
   * row only the first goes: `"\n1\n2\n"` becomes `"\n2\n"`.
   */
  lemma AdjacentJunkLineKept()
    ensures JunkLines("\n1\n2\n") == "\n2\n"
  {
    JunkLineRemoved("1", "2\n");
    LastLineKept();
  }

  lemma LastLineKept()
    ensures JunkLines("2\n") == "2\n"
  {
    var u: string := "2\n";
    assert MatchJunkLine(u).None?;
    SubCons(MatchJunkLine, Id, u);
    assert u[1..] == "\n";
    assert MatchJunkLine("\n").None?;
    SubCons(MatchJunkLine, Id, "\n");
  }
}
