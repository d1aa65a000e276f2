/**
 * Python's `re.finditer` and `re.sub` for a pattern given as a matcher: a function
 * that reads a match at the start of a string. Scanning from left to right and
 * resuming after each match gives the leftmost non-overlapping matches; positions
 * where no match starts are copied (by `sub`) or skipped (by `finditer`).
 *
 * None of the patterns scanned here can match the empty string, so every match
 * consumes at least one character.
 */
module Scanning {
  import opened Wrappers

  /** A match at the start of a string: what it captured and how many characters it spans. */
  datatype Hit<+T> = Hit(val: T, len: nat)

  /** A matcher spans at least one character and never more than it was given. */
  ghost predicate Consumes<T>(mat: string -> Option<Hit<T>>) {
    forall s :: mat(s).Some? ==> 0 < mat(s).value.len <= |s|
  }

  /** The captured value of every match, in text order. */
  function ScanAll<T>(mat: string -> Option<Hit<T>>, t: string): seq<T>
    requires Consumes(mat)
    decreases |t|
  {
    if t == [] then []
    else match mat(t)
      case Some(h) => [h.val] + ScanAll(mat, t[h.len..])
      case None => ScanAll(mat, t[1..])
  }

  /** `re.sub` with a replacement function: every match replaced by `repl` of its capture. */
  function Sub<T>(mat: string -> Option<Hit<T>>, repl: T -> string, t: string): string
    requires Consumes(mat)
    decreases |t|
  {
    if t == [] then []
    else match mat(t)
      case Some(h) => repl(h.val) + Sub(mat, repl, t[h.len..])
      case None => [t[0]] + Sub(mat, repl, t[1..])
  }

  /** The empty replacement: `re.sub` with it deletes the matches. */
  function Nothing<T>(v: T): string {
    []
  }

  /** Index of the leftmost match in `s`, or `|s|` when there is none. */
  function FirstMatch<T>(mat: string -> Option<Hit<T>>, s: string): (q: nat)
    requires Consumes(mat)
    ensures q <= |s| && (q < |s| ==> mat(s[q..]).Some?)
    decreases |s|
  {
    if s == [] || mat(s).Some? then 0
    else
      var q := 1 + FirstMatch(mat, s[1..]);
      assert q < |s| ==> s[q..] == s[1..][q - 1..];
      q
  }

  // ---------------------------------------------------------------------------
  // Positions of the matches
  // ---------------------------------------------------------------------------

  /** A match object: its start, its length and what it captured. */
  datatype Found<+T> = Found(start: nat, len: nat, val: T)

  /** `re.finditer` over `t`, where `t` begins at position `off` of the scanned string. */
  function FindAt<T>(mat: string -> Option<Hit<T>>, t: string, off: nat): seq<Found<T>>
    requires Consumes(mat)
    decreases |t|
  {
    if t == [] then []
    else match mat(t)
      case Some(h) => [Found(off, h.len, h.val)] + FindAt(mat, t[h.len..], off + h.len)
      case None => FindAt(mat, t[1..], off + 1)
  }

  /** The captured values, in order. */
  function Vals<T>(f: seq<Found<T>>): (r: seq<T>)
    ensures |r| == |f|
  {
    if f == [] then [] else [f[0].val] + Vals(f[1..])
  }

  /** The number of characters the matches span together. */
  function TotalLen<T>(f: seq<Found<T>>): nat {
    if f == [] then 0 else f[0].len + TotalLen(f[1..])
  }

  /** Position `p` lies inside one of the matches. */
  ghost predicate Covered<T>(f: seq<Found<T>>, p: nat) {
    exists k :: 0 <= k < |f| && f[k].start <= p < f[k].start + f[k].len
  }

  /**
   * What `re.finditer` promises: each item is a match at its position, the items are
   * in increasing order and do not overlap, and every position where a match could
   * start lies inside some item (leftmost-first scanning).
   */
  ghost predicate IsFindIter<T>(mat: string -> Option<Hit<T>>, s: string, i: nat, f: seq<Found<T>>)
    requires i <= |s|
  {
    && AllMatchedAt(mat, s, i, f)
    && Ordered(f)
    && CoversFrom(mat, s, i, f)
  }

  /** `x` is a match of `mat` in `s`, at or after position `i`. */
  ghost predicate MatchedAt<T>(mat: string -> Option<Hit<T>>, s: string, i: nat, x: Found<T>) {
    i <= x.start && x.start + x.len <= |s| && mat(s[x.start..]) == Some(Hit(x.val, x.len))
  }

  /** Increasing and non-overlapping. */
  ghost predicate Ordered<T>(f: seq<Found<T>>) {
    forall k :: 0 <= k < |f| - 1 ==> f[k].start + f[k].len <= f[k + 1].start
  }

  // ---------------------------------------------------------------------------
  // One step of each scan
  // ---------------------------------------------------------------------------

  lemma ScanHit<T>(mat: string -> Option<Hit<T>>, t: string)
    requires Consumes(mat) && t != [] && mat(t).Some?
    ensures ScanAll(mat, t) == [mat(t).value.val] + ScanAll(mat, t[mat(t).value.len..])
  {
  }

  lemma SubHit<T>(mat: string -> Option<Hit<T>>, repl: T -> string, t: string)
    requires Consumes(mat) && t != [] && mat(t).Some?
    ensures Sub(mat, repl, t) == repl(mat(t).value.val) + Sub(mat, repl, t[mat(t).value.len..])
  {
  }

  lemma SubCons<T>(mat: string -> Option<Hit<T>>, repl: T -> string, t: string)
    requires Consumes(mat) && t != [] && mat(t).None?
    ensures Sub(mat, repl, t) == [t[0]] + Sub(mat, repl, t[1..])
  {
  }

  lemma FindAtHit<T>(mat: string -> Option<Hit<T>>, t: string, off: nat)
    requires Consumes(mat) && t != [] && mat(t).Some?
    ensures var h := mat(t).value;
      FindAt(mat, t, off) == [Found(off, h.len, h.val)] + FindAt(mat, t[h.len..], off + h.len)
  {
  }

  lemma ValsCons<T>(x: Found<T>, f: seq<Found<T>>)
    ensures Vals([x] + f) == [x.val] + Vals(f)
  {
    assert ([x] + f)[1..] == f;
  }

  lemma TotalLenCons<T>(x: Found<T>, f: seq<Found<T>>)
    ensures TotalLen([x] + f) == x.len + TotalLen(f)
  {
    assert ([x] + f)[1..] == f;
  }

  /** Dropping `i` characters and then `l` more is dropping `i + l`. */
  lemma DropDrop<T>(mat: string -> Option<Hit<T>>, s: string, i: nat, l: nat, off: nat)
    requires Consumes(mat) && i + l <= |s|
    ensures mat(s[i..][l..]) == mat(s[i + l..])
    ensures FindAt(mat, s[i..][l..], off) == FindAt(mat, s[i + l..], off)
  {
    assert s[i..][l..] == s[i + l..];
  }

  // ---------------------------------------------------------------------------
  // The scans agree with each other
  // ---------------------------------------------------------------------------

  /** The positional scan and the value scan see the same matches. */
  lemma {:induction false} FindAtScan<T>(mat: string -> Option<Hit<T>>, t: string, off: nat)
    requires Consumes(mat)
    ensures Vals(FindAt(mat, t, off)) == ScanAll(mat, t)
    decreases |t|
  {
    if t != [] {
      match mat(t)
      case Some(h) =>
        FindAtScan(mat, t[h.len..], off + h.len);
        FindAtScanHit(mat, t, off, h);
      case None =>
        FindAtScan(mat, t[1..], off + 1);
        FindAtScanMiss(mat, t, off);
    }
  }

  lemma FindAtScanHit<T>(mat: string -> Option<Hit<T>>, t: string, off: nat, h: Hit<T>)
    requires Consumes(mat) && t != [] && mat(t) == Some(h)
    requires Vals(FindAt(mat, t[h.len..], off + h.len)) == ScanAll(mat, t[h.len..])
    ensures Vals(FindAt(mat, t, off)) == ScanAll(mat, t)
  {
    FindAtHit(mat, t, off);
    ValsCons(Found(off, h.len, h.val), FindAt(mat, t[h.len..], off + h.len));
  }

  lemma FindAtScanMiss<T>(mat: string -> Option<Hit<T>>, t: string, off: nat)
    requires Consumes(mat) && t != [] && mat(t).None?
    requires Vals(FindAt(mat, t[1..], off + 1)) == ScanAll(mat, t[1..])
    ensures Vals(FindAt(mat, t, off)) == ScanAll(mat, t)
  {
  }

  /** Deleting every match shortens the text by exactly the total length of the matches. */
  lemma {:induction false} EraseLength<T>(mat: string -> Option<Hit<T>>, t: string, off: nat)
    requires Consumes(mat)
    ensures |Sub(mat, Nothing, t)| + TotalLen(FindAt(mat, t, off)) == |t|
    decreases |t|
  {
    if t != [] {
      match mat(t)
      case Some(h) =>
        EraseLength(mat, t[h.len..], off + h.len);
        EraseHit(mat, t, off, h);
      case None =>
        EraseLength(mat, t[1..], off + 1);
        EraseMiss(mat, t, off);
    }
  }

  lemma EraseHit<T>(mat: string -> Option<Hit<T>>, t: string, off: nat, h: Hit<T>)
    requires Consumes(mat) && t != [] && mat(t) == Some(h)
    requires |Sub(mat, Nothing, t[h.len..])| + TotalLen(FindAt(mat, t[h.len..], off + h.len)) == |t| - h.len
    ensures |Sub(mat, Nothing, t)| + TotalLen(FindAt(mat, t, off)) == |t|
  {
    EraseHitLength(mat, t);
    FindAtHit(mat, t, off);
    TotalLenCons(Found(off, h.len, h.val), FindAt(mat, t[h.len..], off + h.len));
  }

  lemma EraseHitLength<T>(mat: string -> Option<Hit<T>>, t: string)
    requires Consumes(mat) && t != [] && mat(t).Some?
    ensures |Sub(mat, Nothing, t)| == |Sub(mat, Nothing, t[mat(t).value.len..])|
  {
  }

  lemma EraseMiss<T>(mat: string -> Option<Hit<T>>, t: string, off: nat)
    requires Consumes(mat) && t != [] && mat(t).None?
    requires |Sub(mat, Nothing, t[1..])| + TotalLen(FindAt(mat, t[1..], off + 1)) == |t| - 1
    ensures |Sub(mat, Nothing, t)| + TotalLen(FindAt(mat, t, off)) == |t|
  {
  }

  // ---------------------------------------------------------------------------
  // The positional scan is re.finditer
  // ---------------------------------------------------------------------------

  /** Each item found in `s[i..]` is a match at its position, at or after `i`. */
  lemma {:induction false} FindAtMatches<T>(mat: string -> Option<Hit<T>>, s: string, i: nat)
    requires Consumes(mat) && i <= |s|
    ensures AllMatchedAt(mat, s, i, FindAt(mat, s[i..], i))
    decreases |s| - i
  {
    if i < |s| {
      match mat(s[i..])
      case Some(h) =>
        FindAtMatches(mat, s, i + h.len);
        MatchesHit(mat, s, i, h);
      case None =>
        FindAtMatches(mat, s, i + 1);
        MatchesMiss(mat, s, i);
    }
  }

  /** Every item of `f` is a match in `s` at or after `i`. */
  ghost predicate AllMatchedAt<T>(mat: string -> Option<Hit<T>>, s: string, i: nat, f: seq<Found<T>>) {
    forall k :: 0 <= k < |f| ==> MatchedAt(mat, s, i, f[k])
  }

  lemma MatchesHit<T>(mat: string -> Option<Hit<T>>, s: string, i: nat, h: Hit<T>)
    requires Consumes(mat) && i < |s| && mat(s[i..]) == Some(h)
    requires AllMatchedAt(mat, s, i + h.len, FindAt(mat, s[i + h.len..], i + h.len))
    ensures AllMatchedAt(mat, s, i, FindAt(mat, s[i..], i))
  {
    DropDrop(mat, s, i, h.len, i + h.len);
    FindAtHit(mat, s[i..], i);
    MatchesCons(mat, s, i, h, FindAt(mat, s[i + h.len..], i + h.len));
  }

  lemma MatchesMiss<T>(mat: string -> Option<Hit<T>>, s: string, i: nat)
    requires Consumes(mat) && i < |s| && mat(s[i..]).None?
    requires AllMatchedAt(mat, s, i + 1, FindAt(mat, s[i + 1..], i + 1))
    ensures AllMatchedAt(mat, s, i, FindAt(mat, s[i..], i))
  {
    DropDrop(mat, s, i, 1, i + 1);
    MatchesSkip(mat, s, i, FindAt(mat, s[i + 1..], i + 1));
  }

  lemma MatchesCons<T>(mat: string -> Option<Hit<T>>, s: string, i: nat, h: Hit<T>, g: seq<Found<T>>)
    requires i + h.len <= |s| && mat(s[i..]) == Some(h)
    requires AllMatchedAt(mat, s, i + h.len, g)
    ensures AllMatchedAt(mat, s, i, [Found(i, h.len, h.val)] + g)
  {
    var f := [Found(i, h.len, h.val)] + g;
    forall k | 0 <= k < |f|
      ensures MatchedAt(mat, s, i, f[k])
    {
      if k > 0 {
        assert f[k] == g[k - 1];
        assert MatchedAt(mat, s, i + h.len, g[k - 1]);
      }
    }
  }

  lemma MatchesSkip<T>(mat: string -> Option<Hit<T>>, s: string, i: nat, g: seq<Found<T>>)
    requires AllMatchedAt(mat, s, i + 1, g)
    ensures AllMatchedAt(mat, s, i, g)
  {
  }

  /** The items found are in increasing order and do not overlap. */
  lemma {:induction false} FindAtOrdered<T>(mat: string -> Option<Hit<T>>, s: string, i: nat)
    requires Consumes(mat) && i <= |s|
    ensures Ordered(FindAt(mat, s[i..], i))
    decreases |s| - i
  {
    if i < |s| {
      match mat(s[i..])
      case Some(h) =>
        FindAtOrdered(mat, s, i + h.len);
        FindAtMatches(mat, s, i + h.len);
        OrderedHit(mat, s, i, h);
      case None =>
        FindAtOrdered(mat, s, i + 1);
        DropDrop(mat, s, i, 1, i + 1);
    }
  }

  lemma OrderedHit<T>(mat: string -> Option<Hit<T>>, s: string, i: nat, h: Hit<T>)
    requires Consumes(mat) && i < |s| && mat(s[i..]) == Some(h)
    requires Ordered(FindAt(mat, s[i + h.len..], i + h.len))
    requires AllMatchedAt(mat, s, i + h.len, FindAt(mat, s[i + h.len..], i + h.len))
    ensures Ordered(FindAt(mat, s[i..], i))
  {
    DropDrop(mat, s, i, h.len, i + h.len);
    FindAtHit(mat, s[i..], i);
    OrderedCons(mat, s, i, h, FindAt(mat, s[i + h.len..], i + h.len));
  }

  lemma OrderedCons<T>(mat: string -> Option<Hit<T>>, s: string, i: nat, h: Hit<T>, g: seq<Found<T>>)
    requires Ordered(g) && AllMatchedAt(mat, s, i + h.len, g)
    ensures Ordered([Found(i, h.len, h.val)] + g)
  {
    var f := [Found(i, h.len, h.val)] + g;
    forall k | 0 <= k < |f| - 1
      ensures f[k].start + f[k].len <= f[k + 1].start
    {
      assert f[k + 1] == g[k];
      assert MatchedAt(mat, s, i + h.len, g[k]);
      if k > 0 { assert f[k] == g[k - 1]; }
    }
  }

  /** Every position where a match starts lies inside some item found (leftmost-first). */
  lemma {:induction false} FindAtCovers<T>(mat: string -> Option<Hit<T>>, s: string, i: nat)
    requires Consumes(mat) && i <= |s|
    ensures CoversFrom(mat, s, i, FindAt(mat, s[i..], i))
    decreases |s| - i
  {
    if i < |s| {
      match mat(s[i..])
      case Some(h) =>
        FindAtCovers(mat, s, i + h.len);
        CoversHit(mat, s, i, h);
      case None =>
        FindAtCovers(mat, s, i + 1);
        CoversMiss(mat, s, i);
    }
  }

  /** Every position from `i` on where a match starts is inside an item of `f`. */
  ghost predicate CoversFrom<T>(mat: string -> Option<Hit<T>>, s: string, i: nat, f: seq<Found<T>>) {
    forall p :: i <= p < |s| && mat(s[p..]).Some? ==> Covered(f, p)
  }

  lemma CoversHit<T>(mat: string -> Option<Hit<T>>, s: string, i: nat, h: Hit<T>)
    requires Consumes(mat) && i < |s| && mat(s[i..]) == Some(h)
    requires CoversFrom(mat, s, i + h.len, FindAt(mat, s[i + h.len..], i + h.len))
    ensures CoversFrom(mat, s, i, FindAt(mat, s[i..], i))
  {
    DropDrop(mat, s, i, h.len, i + h.len);
    FindAtHit(mat, s[i..], i);
    CoversCons(mat, s, i, h, FindAt(mat, s[i + h.len..], i + h.len));
  }

  lemma CoversMiss<T>(mat: string -> Option<Hit<T>>, s: string, i: nat)
    requires Consumes(mat) && i < |s| && mat(s[i..]).None?
    requires CoversFrom(mat, s, i + 1, FindAt(mat, s[i + 1..], i + 1))
    ensures CoversFrom(mat, s, i, FindAt(mat, s[i..], i))
  {
    DropDrop(mat, s, i, 1, i + 1);
  }

  lemma CoversCons<T>(mat: string -> Option<Hit<T>>, s: string, i: nat, h: Hit<T>, g: seq<Found<T>>)
    requires i + h.len <= |s|
    requires CoversFrom(mat, s, i + h.len, g)
    ensures CoversFrom(mat, s, i, [Found(i, h.len, h.val)] + g)
  {
    var f := [Found(i, h.len, h.val)] + g;
    forall p | i <= p < |s| && mat(s[p..]).Some?
      ensures Covered(f, p)
    {
      if p < i + h.len {
        assert f[0].start <= p < f[0].start + f[0].len;
      } else {
        assert Covered(g, p);
        var k :| 0 <= k < |g| && g[k].start <= p < g[k].start + g[k].len;
        assert f[k + 1] == g[k];
      }
    }
  }

  /** `FindAt` is `re.finditer`. */
  lemma FindAtIsFindIter<T>(mat: string -> Option<Hit<T>>, s: string)
    requires Consumes(mat)
    ensures IsFindIter(mat, s, 0, FindAt(mat, s, 0))
  {
    assert s[0..] == s;
    FindAtMatches(mat, s, 0);
    FindAtOrdered(mat, s, 0);
    FindAtCovers(mat, s, 0);
  }

  /** A match at index 0 exactly when the first item found starts there. */
  lemma FirstFoundAtZero<T>(mat: string -> Option<Hit<T>>, t: string)
    requires Consumes(mat)
    ensures mat(t).Some? && t != [] <==> FindAt(mat, t, 0) != [] && FindAt(mat, t, 0)[0].start == 0
  {
    if t != [] && mat(t).None? {
      FindAtMatches(mat, t, 1);
    }
  }

  // ---------------------------------------------------------------------------
  // The leftmost match
  // ---------------------------------------------------------------------------

  /** `re.sub` of `t` is `t[..q]`, the replacement of the match at `q`, and `re.sub` of the rest. */
  ghost predicate SubSplitsAt<T>(mat: string -> Option<Hit<T>>, repl: T -> string, t: string, q: nat)
    requires Consumes(mat) && q < |t| && mat(t[q..]).Some?
  {
    var h := mat(t[q..]).value;
    Sub(mat, repl, t) == t[..q] + repl(h.val) + Sub(mat, repl, t[q + h.len..])
  }

  /** Unfolds `SubSplitsAt`. */
  lemma SplitsAtIs<T>(mat: string -> Option<Hit<T>>, repl: T -> string, t: string, q: nat, h: Hit<T>)
    requires Consumes(mat) && q < |t| && mat(t[q..]) == Some(h) && SubSplitsAt(mat, repl, t, q)
    ensures Sub(mat, repl, t) == t[..q] + repl(h.val) + Sub(mat, repl, t[q + h.len..])
  {
  }

  /** Unfolds `SubSplitsAt` for the empty replacement. */
  lemma EraseSplitsIs<T>(mat: string -> Option<Hit<T>>, t: string, q: nat, h: Hit<T>)
    requires Consumes(mat) && q < |t| && mat(t[q..]) == Some(h) && SubSplitsAt(mat, Nothing, t, q)
    ensures Sub(mat, Nothing, t) == t[..q] + Sub(mat, Nothing, t[q + h.len..])
  {
    SplitsAtIs(mat, Nothing, t, q, h);
    assert Nothing(h.val) == [];
  }

  /** Unfolds `ScanSplitsAt`. */
  lemma ScanSplitsIs<T>(mat: string -> Option<Hit<T>>, t: string, q: nat, h: Hit<T>)
    requires Consumes(mat) && q < |t| && mat(t[q..]) == Some(h) && ScanSplitsAt(mat, t, q)
    ensures ScanAll(mat, t) == [h.val] + ScanAll(mat, t[q + h.len..])
  {
  }

  /** The values scanned from `t` are the capture at `q` followed by the captures after it. */
  ghost predicate ScanSplitsAt<T>(mat: string -> Option<Hit<T>>, t: string, q: nat)
    requires Consumes(mat) && q < |t| && mat(t[q..]).Some?
  {
    var h := mat(t[q..]).value;
    ScanAll(mat, t) == [h.val] + ScanAll(mat, t[q + h.len..])
  }

  /**
   * `re.sub` keeps the text before the leftmost match verbatim, writes the replacement
   * of that match and goes on after it; with no match, it changes nothing.
   */
  lemma {:induction false} SubAtFirst<T>(mat: string -> Option<Hit<T>>, repl: T -> string, t: string)
    requires Consumes(mat)
    ensures FirstMatch(mat, t) == |t| ==> Sub(mat, repl, t) == t
    ensures FirstMatch(mat, t) < |t| ==> SubSplitsAt(mat, repl, t, FirstMatch(mat, t))
    decreases |t|
  {
    if t != [] && mat(t).None? {
      var u := t[1..];
      SubAtFirst(mat, repl, u);
      var q := FirstMatch(mat, u);
      FirstMatchSkip(mat, t);
      if q == |u| {
        SubSkipAll(mat, repl, t);
      } else {
        SubSkipTo(mat, repl, t, q);
      }
    } else if t != [] {
      assert t[..0] + repl(mat(t).value.val) == repl(mat(t).value.val);
      assert t[0..] == t;
    }
  }

  lemma FirstMatchSkip<T>(mat: string -> Option<Hit<T>>, t: string)
    requires Consumes(mat) && t != [] && mat(t).None?
    ensures FirstMatch(mat, t) == 1 + FirstMatch(mat, t[1..])
  {
  }

  lemma SubSkipAll<T>(mat: string -> Option<Hit<T>>, repl: T -> string, t: string)
    requires Consumes(mat) && t != [] && mat(t).None?
    requires Sub(mat, repl, t[1..]) == t[1..]
    ensures Sub(mat, repl, t) == t
  {
    SubCons(mat, repl, t);
    assert [t[0]] + t[1..] == t;
  }

  lemma SubSkipTo<T>(mat: string -> Option<Hit<T>>, repl: T -> string, t: string, q: nat)
    requires Consumes(mat) && t != [] && mat(t).None? && q < |t| - 1 && mat(t[1..][q..]).Some?
    requires SubSplitsAt(mat, repl, t[1..], q)
    ensures mat(t[1 + q..]).Some? && SubSplitsAt(mat, repl, t, 1 + q)
  {
    var u := t[1..];
    SubCons(mat, repl, t);
    var h := mat(u[q..]).value;
    SubShiftEq(mat, repl, t, q, h.len);
    ConsSplit(t, q, repl(h.val), Sub(mat, repl, u[q + h.len..]));
  }

  lemma SubShiftEq<T>(mat: string -> Option<Hit<T>>, repl: T -> string, t: string, q: nat, l: nat)
    requires Consumes(mat) && 1 + q + l <= |t|
    ensures mat(t[1..][q..]) == mat(t[1 + q..])
    ensures Sub(mat, repl, t[1..][q + l..]) == Sub(mat, repl, t[1 + q + l..])
  {
    assert t[1..][q..] == t[1 + q..];
    assert t[1..][q + l..] == t[1 + q + l..];
  }

  lemma ConsSplit(t: string, q: nat, r: string, rest: string)
    requires q < |t|
    ensures [t[0]] + ((t[1..][..q] + r) + rest) == t[..1 + q] + r + rest
  {
    assert t[..1 + q] == [t[0]] + t[1..][..q];
  }

  /** The first value scanned is the capture of the leftmost match; none when there is none. */
  lemma {:induction false} ScanAtFirst<T>(mat: string -> Option<Hit<T>>, t: string)
    requires Consumes(mat)
    ensures FirstMatch(mat, t) == |t| ==> ScanAll(mat, t) == []
    ensures FirstMatch(mat, t) < |t| ==> ScanSplitsAt(mat, t, FirstMatch(mat, t))
    decreases |t|
  {
    if t != [] && mat(t).None? {
      var u := t[1..];
      ScanAtFirst(mat, u);
      var q := FirstMatch(mat, u);
      FirstMatchSkip(mat, t);
      assert ScanAll(mat, t) == ScanAll(mat, u);
      if q < |u| {
        ScanSkipTo(mat, t, q);
      }
    } else if t != [] {
      assert t[0..] == t;
    }
  }

  lemma ScanSkipTo<T>(mat: string -> Option<Hit<T>>, t: string, q: nat)
    requires Consumes(mat) && t != [] && mat(t).None? && q < |t| - 1 && mat(t[1..][q..]).Some?
    requires ScanSplitsAt(mat, t[1..], q)
    ensures mat(t[1 + q..]).Some? && ScanSplitsAt(mat, t, 1 + q)
  {
    var h := mat(t[1..][q..]).value;
    ScanShiftEq(mat, t, q, h.len);
  }

  lemma ScanShiftEq<T>(mat: string -> Option<Hit<T>>, t: string, q: nat, l: nat)
    requires Consumes(mat) && 1 + q + l <= |t|
    ensures mat(t[1..][q..]) == mat(t[1 + q..])
    ensures ScanAll(mat, t[1..][q + l..]) == ScanAll(mat, t[1 + q + l..])
  {
    assert t[1..][q..] == t[1 + q..];
    assert t[1..][q + l..] == t[1 + q + l..];
  }

  /** With no match anywhere, `re.sub` returns its input. */
  lemma NoMatchUnchanged<T>(mat: string -> Option<Hit<T>>, repl: T -> string, t: string)
    requires Consumes(mat) && ScanAll(mat, t) == []
    ensures Sub(mat, repl, t) == t
  {
    SubAtFirst(mat, repl, t);
    ScanAtFirst(mat, t);
  }
}
