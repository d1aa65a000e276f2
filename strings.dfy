/**
 * The parts of Python's `str` behaviour that the modelled code relies on:
 * whitespace and character stripping, `replace(old, "")`, `str(int)`, `int(digits)`,
 * `repr(str)`, `join`, code-point ordering of strings and slicing with negative bounds.
 */
module Strings {

  /** Python's `str.isspace()`: the complete list of Unicode whitespace code points. */
  predicate IsSpace(c: char) {
    c == '\t' || c == '\n' || c == '\U{0B}' || c == '\U{0C}' || c == '\r'
    || ('\U{1C}' <= c <= '\U{1F}') || c == ' ' || c == '\U{85}' || c == '\U{A0}'
    || c == '\U{1680}' || ('\U{2000}' <= c <= '\U{200A}') || c == '\U{2028}' || c == '\U{2029}'
    || c == '\U{202F}' || c == '\U{205F}' || c == '\U{3000}'
  }

  /** The ASCII digits `0`..`9` (what `\d` matches on text restricted to Latin-1). */
  predicate IsDigit(c: char) {
    '0' <= c <= '9'
  }

  predicate AllDigits(s: string) {
    forall i :: 0 <= i < |s| ==> IsDigit(s[i])
  }

  predicate StartsWith(s: string, prefix: string) {
    |prefix| <= |s| && s[..|prefix|] == prefix
  }

  /** `a` occurs as a contiguous piece of `b`. */
  ghost predicate IsInfix(a: string, b: string) {
    exists i, j :: 0 <= i <= j <= |b| && b[i..j] == a
  }

  lemma InfixOfSlice(a: string, b: string, i: nat, j: nat)
    requires i <= j <= |b| && b[i..j] == a
    ensures IsInfix(a, b)
  {
  }

  lemma InfixTransitive(a: string, b: string, c: string)
    requires IsInfix(a, b) && IsInfix(b, c)
    ensures IsInfix(a, c)
  {
    var i, j :| 0 <= i <= j <= |b| && b[i..j] == a;
    var k, l :| 0 <= k <= l <= |c| && c[k..l] == b;
    assert |b| == l - k;
    forall t | 0 <= t < j - i
      ensures c[k + i..k + j][t] == a[t]
    {
      assert a[t] == b[i + t] == c[k + i + t];
    }
    assert c[k + i..k + j] == a;
  }

  // ---------------------------------------------------------------------------
  // Stripping
  // ---------------------------------------------------------------------------

  /** Drops the longest prefix of characters satisfying `drop`. */
  function TrimLeft(s: string, drop: char -> bool): (r: string)
    ensures |r| <= |s| && r == s[|s| - |r|..]
    ensures r == [] || !drop(r[0])
    ensures forall i :: 0 <= i < |s| - |r| ==> drop(s[i])
    decreases |s|
  {
    if s != [] && drop(s[0]) then
      var r := TrimLeft(s[1..], drop);
      assert s[1..][|s| - 1 - |r|..] == s[|s| - |r|..];
      assert forall i :: 1 <= i < |s| - |r| ==> s[i] == s[1..][i - 1];
      r
    else s
  }

  /** Drops the longest suffix of characters satisfying `drop`. */
  function TrimRight(s: string, drop: char -> bool): (r: string)
    ensures |r| <= |s| && r == s[..|r|]
    ensures r == [] || !drop(r[|r| - 1])
    ensures forall i :: |r| <= i < |s| ==> drop(s[i])
    decreases |s|
  {
    if s != [] && drop(s[|s| - 1]) then
      var r := TrimRight(s[..|s| - 1], drop);
      assert s[..|s| - 1][..|r|] == s[..|r|];
      assert forall i :: |r| <= i < |s| - 1 ==> s[i] == s[..|s| - 1][i];
      r
    else s
  }

  /** Python's `s.strip(chars)`, with the characters given as a predicate. */
  function Trim(s: string, drop: char -> bool): (r: string)
    ensures r == [] || (!drop(r[0]) && !drop(r[|r| - 1]))
  {
    TrimRight(TrimLeft(s, drop), drop)
  }

  /** What `strip` keeps is a contiguous piece of its input. */
  lemma TrimInfix(s: string, drop: char -> bool)
    ensures IsInfix(Trim(s, drop), s)
  {
    var l := TrimLeft(s, drop);
    var r := TrimRight(l, drop);
    assert s[|s| - |l|..][0..|r|] == r;
    assert s[|s| - |l|..|s| - |l| + |r|] == r;
    InfixOfSlice(r, s, |s| - |l|, |s| - |l| + |r|);
  }

  /** Python's `s.strip()`. */
  function Strip(s: string): (r: string)
    ensures IsStripped(r)
  {
    Trim(s, IsSpace)
  }

  /** No whitespace at either end. */
  predicate IsStripped(s: string) {
    s == [] || (!IsSpace(s[0]) && !IsSpace(s[|s| - 1]))
  }

  lemma {:induction false} TrimLeftNoop(s: string, drop: char -> bool)
    requires s == [] || !drop(s[0])
    ensures TrimLeft(s, drop) == s
  {
  }

  lemma {:induction false} StripOfStripped(s: string)
    requires IsStripped(s)
    ensures Strip(s) == s
  {
    TrimLeftNoop(s, IsSpace);
  }

  // ---------------------------------------------------------------------------
  // replace(old, "")
  // ---------------------------------------------------------------------------

  predicate OccursAt(p: string, s: string, i: nat) {
    i + |p| <= |s| && s[i..i + |p|] == p
  }

  predicate OccursIn(p: string, s: string) {
    exists i: nat | i <= |s| :: OccursAt(p, s, i)
  }

  /**
   * Python's `s.replace(p, "")`: every leftmost, non-overlapping occurrence of `p`
   * is deleted. An empty `p` leaves `s` as it is.
   */
  function RemoveAll(s: string, p: string): (r: string)
    ensures |r| <= |s|
    decreases |s|
  {
    if p == [] || |s| < |p| then s
    else if s[..|p|] == p then RemoveAll(s[|p|..], p)
    else [s[0]] + RemoveAll(s[1..], p)
  }

  lemma {:induction false} RemoveAllAbsent(s: string, p: string)
    requires !OccursIn(p, s)
    ensures RemoveAll(s, p) == s
    decreases |s|
  {
    if p == [] || |s| < |p| {
    } else {
      assert !OccursAt(p, s, 0);
      assert !OccursIn(p, s[1..]) by {
        forall i: nat | i <= |s[1..]| && OccursAt(p, s[1..], i)
          ensures false
        {
          assert s[1..][i..i + |p|] == s[i + 1..i + 1 + |p|];
          assert OccursAt(p, s, i + 1);
        }
      }
      RemoveAllAbsent(s[1..], p);
    }
  }

  // ---------------------------------------------------------------------------
  // Integers and their decimal form
  // ---------------------------------------------------------------------------

  function DigitValue(c: char): nat {
    if IsDigit(c) then (c as int) - ('0' as int) else 0
  }

  function DigitChar(d: nat): (c: char)
    requires d < 10
    ensures IsDigit(c) && DigitValue(c) == d
  {
    (('0' as int) + d) as char
  }

  /** Python's `int(digits)` on a run of decimal digits; leading zeros are allowed. */
  function DigitsValue(d: string): nat
    decreases |d|
  {
    if d == [] then 0 else DigitsValue(d[..|d| - 1]) * 10 + DigitValue(d[|d| - 1])
  }

  /** Python's `str(n)` for a non-negative integer. */
  function NatToString(n: nat): (r: string)
    ensures |r| >= 1 && AllDigits(r)
    decreases n
  {
    if n < 10 then [DigitChar(n)] else NatToString(n / 10) + [DigitChar(n % 10)]
  }

  /** `int(str(n)) == n`. */
  lemma {:induction false} NatToStringValue(n: nat)
    ensures DigitsValue(NatToString(n)) == n
    decreases n
  {
    if n >= 10 {
      var r := NatToString(n);
      assert r[..|r| - 1] == NatToString(n / 10);
      NatToStringValue(n / 10);
    }
  }

  /** Length of the longest prefix of ASCII digits. */
  function DigitRun(s: string): (k: nat)
    ensures k <= |s| && AllDigits(s[..k]) && (k == |s| || !IsDigit(s[k]))
    decreases |s|
  {
    if s != [] && IsDigit(s[0]) then
      var k := 1 + DigitRun(s[1..]);
      assert s[..k] == [s[0]] + s[1..][..k - 1];
      k
    else 0
  }

  lemma {:induction false} DigitRunOf(d: string, rest: string)
    requires AllDigits(d) && (rest == [] || !IsDigit(rest[0]))
    ensures DigitRun(d + rest) == |d|
    decreases |d|
  {
    if d != [] {
      assert (d + rest)[1..] == d[1..] + rest;
      DigitRunOf(d[1..], rest);
    }
  }

  // ---------------------------------------------------------------------------
  // repr() and join()
  // ---------------------------------------------------------------------------

  function HexDigit(d: nat): char
    requires d < 16
  {
    "0123456789abcdef"[d]
  }

  /** The last `n` hexadecimal digits of `v`, lower case, most significant first. */
  function Hex(v: nat, n: nat): (r: string)
    ensures |r| == n && '\n' !in r
    decreases n
  {
    if n == 0 then [] else Hex(v / 16, n - 1) + [HexDigit(v % 16)]
  }

  /**
   * Code points above U+00FF that `str.isprintable` rejects, so that `repr` escapes
   * them: the space separators other than U+0020, the line and paragraph separators,
   * the format characters, the private-use areas and the noncharacters.
   */
  predicate WideNonPrintable(c: char) {
    // space, line and paragraph separators
    c == '\U{1680}' || ('\U{2000}' <= c <= '\U{200A}') || c == '\U{2028}' || c == '\U{2029}'
    || c == '\U{202F}' || c == '\U{205F}' || c == '\U{3000}'
    // format characters
    || ('\U{0600}' <= c <= '\U{0605}') || c == '\U{061C}' || c == '\U{06DD}' || c == '\U{070F}'
    || ('\U{0890}' <= c <= '\U{0891}') || c == '\U{08E2}' || c == '\U{180E}'
    || ('\U{200B}' <= c <= '\U{200F}') || ('\U{202A}' <= c <= '\U{202E}')
    || ('\U{2060}' <= c <= '\U{2064}') || ('\U{2066}' <= c <= '\U{206F}') || c == '\U{FEFF}'
    || ('\U{FFF9}' <= c <= '\U{FFFB}') || c == '\U{110BD}' || c == '\U{110CD}'
    || ('\U{13430}' <= c <= '\U{1343F}') || ('\U{1BCA0}' <= c <= '\U{1BCA3}')
    || ('\U{1D173}' <= c <= '\U{1D17A}') || c == '\U{E0001}' || ('\U{E0020}' <= c <= '\U{E007F}')
    // private use
    || ('\U{E000}' <= c <= '\U{F8FF}') || ('\U{F0000}' <= c <= '\U{FFFFD}')
    || ('\U{100000}' <= c <= '\U{10FFFD}')
    // noncharacters
    || ('\U{FDD0}' <= c <= '\U{FDEF}') || (c as int) % 0x10000 >= 0xFFFE
  }

  /** Characters `repr` writes as a numeric escape. */
  predicate NonPrintable(c: char) {
    c < ' ' || ('\U{7F}' <= c <= '\U{A0}') || c == '\U{AD}' || WideNonPrintable(c)
  }

  /** `\xhh`, `\uhhhh` or `\Uhhhhhhhh`: the shortest of Python's numeric escapes that fits. */
  function Escape(v: nat): (r: string)
    ensures |r| >= 4 && r[0] == '\\' && '\n' !in r
  {
    var e := if v < 0x100 then "\\x" + Hex(v, 2)
      else if v < 0x10000 then "\\u" + Hex(v, 4)
      else "\\U" + Hex(v, 8);
    e
  }

  /** Python's `repr` of one character inside a string quoted with `quote`. */
  function ReprChar(c: char, quote: char): string {
    if c == '\\' then "\\\\"
    else if c == quote then ['\\', quote]
    else if c == '\t' then "\\t"
    else if c == '\n' then "\\n"
    else if c == '\r' then "\\r"
    else if NonPrintable(c) then Escape(c as int)
    else [c]
  }

  function ReprBody(s: string, quote: char): string
    decreases |s|
  {
    if s == [] then [] else ReprChar(s[0], quote) + ReprBody(s[1..], quote)
  }

  /** Python's `repr(s)`: single quotes unless `s` holds `'` and no `"`. */
  function Repr(s: string): (r: string)
    ensures |r| >= 2 && r[0] == r[|r| - 1] && r[0] in "'\""
    ensures r[0] == '"' <==> '\'' in s && '"' !in s
  {
    var quote := if '\'' in s && '"' !in s then '"' else '\'';
    [quote] + ReprBody(s, quote) + [quote]
  }

  /**
   * A character is written as itself exactly when it is printable and neither the
   * backslash nor the quote; otherwise it becomes an escape starting with a backslash.
   */
  lemma ReprCharPlain(c: char, quote: char)
    ensures ReprChar(c, quote) == [c] <==> c != '\\' && c != quote && !NonPrintable(c)
    ensures ReprChar(c, quote) != [c] ==> |ReprChar(c, quote)| >= 2 && ReprChar(c, quote)[0] == '\\'
  {
  }

  /** A zero-width space (U+200B) is escaped: its repr is the eight characters `'\u200b'`. */
  lemma ReprZeroWidthSpace()
    ensures Repr("\U{200B}") == "'\\u200b'"
  {
    assert WideNonPrintable('\U{200B}');
    EscapeZeroWidth();
    assert ReprBody("\U{200B}", '\'') == ReprChar('\U{200B}', '\'') + ReprBody([], '\'');
  }

  lemma EscapeZeroWidth()
    ensures Escape(0x200B) == "\\u200b"
  {
    assert Hex(2, 1) == Hex(0, 0) + ['2'];
    assert Hex(0x20, 2) == Hex(2, 1) + ['0'];
    assert Hex(0x200, 3) == Hex(0x20, 2) + ['0'];
    assert Hex(0x200B, 4) == Hex(0x200, 3) + ['b'];
    assert Escape(0x200B) == "\\u" + Hex(0x200B, 4);
  }

  lemma ReprCharNoNewline(c: char, quote: char)
    requires quote != '\n'
    ensures '\n' !in ReprChar(c, quote)
  {
  }

  lemma {:induction false} ReprBodyNoNewline(s: string, quote: char)
    requires quote != '\n'
    ensures '\n' !in ReprBody(s, quote)
    decreases |s|
  {
    if s != [] {
      ReprBodyNoNewline(s[1..], quote);
      ReprCharNoNewline(s[0], quote);
    }
  }

  /** A repr never spans lines: every newline is escaped. */
  lemma ReprNoNewline(s: string)
    ensures '\n' !in Repr(s)
  {
    var quote := if '\'' in s && '"' !in s then '"' else '\'';
    ReprBodyNoNewline(s, quote);
  }

  /** Python's `sep.join(parts)`. */
  function Join(parts: seq<string>, sep: string): string
    decreases |parts|
  {
    if parts == [] then []
    else if |parts| == 1 then parts[0]
    else parts[0] + sep + Join(parts[1..], sep)
  }

  lemma {:induction false} JoinNoChar(parts: seq<string>, sep: string, c: char)
    requires c !in sep && forall i :: 0 <= i < |parts| ==> c !in parts[i]
    ensures c !in Join(parts, sep)
    decreases |parts|
  {
    if |parts| > 1 {
      JoinNoChar(parts[1..], sep, c);
    }
  }

  // ---------------------------------------------------------------------------
  // Code-point ordering (Python's `<` on str)
  // ---------------------------------------------------------------------------

  predicate StrLess(a: string, b: string)
    decreases |a|
  {
    if a == [] then b != []
    else if b == [] then false
    else if a[0] == b[0] then StrLess(a[1..], b[1..])
    else a[0] < b[0]
  }

  lemma {:induction false} StrLessIrreflexive(a: string)
    ensures !StrLess(a, a)
    decreases |a|
  {
    if a != [] {
      StrLessIrreflexive(a[1..]);
    }
  }

  lemma {:induction false} StrLessTransitive(a: string, b: string, c: string)
    requires StrLess(a, b) && StrLess(b, c)
    ensures StrLess(a, c)
    decreases |a|
  {
    if a != [] && b != [] && c != [] && a[0] == b[0] && b[0] == c[0] {
      StrLessTransitive(a[1..], b[1..], c[1..]);
    }
  }

  lemma {:induction false} StrLessTotal(a: string, b: string)
    requires a != b
    ensures StrLess(a, b) || StrLess(b, a)
    decreases |a|
  {
    if a != [] && b != [] && a[0] == b[0] {
      assert a == [a[0]] + a[1..] && b == [b[0]] + b[1..];
      StrLessTotal(a[1..], b[1..]);
    }
  }

  // ---------------------------------------------------------------------------
  // Slicing with Python's index rules
  // ---------------------------------------------------------------------------

  /** The index a Python slice bound `k` stands for in a sequence of length `n`. */
  function SliceIndex(k: int, n: nat): (i: nat)
    ensures i <= n
  {
    if k < 0 then (if n + k < 0 then 0 else n + k) else if k > n then n else k
  }

  /** Python's `s[k:]`. */
  function SliceFrom(s: string, k: int): string {
    s[SliceIndex(k, |s|)..]
  }

  /** Python's `s[:k]`. */
  function SliceTo(s: string, k: int): string {
    s[..SliceIndex(k, |s|)]
  }

  /** Both halves of a slice are contiguous pieces of the sliced string. */
  lemma SliceInfix(s: string, k: int)
    ensures IsInfix(SliceTo(s, k), s) && IsInfix(SliceFrom(s, k), s)
  {
    var i := SliceIndex(k, |s|);
    InfixOfSlice(s[..i], s, 0, i);
    InfixOfSlice(s[i..], s, i, |s|);
  }

  /** ASCII lower-casing (Python's `str.lower` restricted to `A`..`Z`). */
  function Lower(s: string): (r: string)
    ensures |r| == |s|
    ensures forall i :: 0 <= i < |s| ==> r[i] == (if 'A' <= s[i] <= 'Z' then (s[i] as int + 32) as char else s[i])
  {
    seq(|s|, i requires 0 <= i < |s| => if 'A' <= s[i] <= 'Z' then (s[i] as int + 32) as char else s[i])
  }
}
