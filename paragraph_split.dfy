/**
 * `ParagraphReference.split`: the text is cut before every marker, with the cut positions
 * taken from the ORIGINAL text while the cuts are applied to the last, ever shorter piece.
 * The model follows the code as written: a marker at index 1 is skipped, a marker at
 * index 0 cuts at Python index -1 (one character before the end of the last piece), and
 * cut positions past the end of the last piece are clipped as Python slicing clips them.
 */
module ParagraphSplit {
  import opened Strings
  import opened Scanning
  import opened Paragraphs
  import opened ParagraphLaws

  /** One round of the loop: cut the last piece at `start - 1`, unless that is index 0. */
  function Cut(pieces: seq<string>, start: nat): (r: seq<string>)
    requires pieces != []
    ensures |pieces| <= |r| && r[..|pieces| - 1] == pieces[..|pieces| - 1]
  {
    var pos := start - 1;
    if pos == 0 then pieces
    else
      var last := pieces[|pieces| - 1];
      pieces[..|pieces| - 1] + [Strip(SliceTo(last, pos)), Strip(SliceFrom(last, pos))]
  }

  /** The pieces after the loop has run over the markers `found`, in order. */
  function SplitAll(text: string, found: seq<Found<ParagraphReference>>): (r: seq<string>)
    ensures r != []
    decreases |found|
  {
    if found == [] then [text]
    else Cut(SplitAll(text, found[..|found| - 1]), found[|found| - 1].start)
  }

  /** The number of markers that do not start at index 1, i.e. that cut. */
  function Cuts(found: seq<Found<ParagraphReference>>): nat
    decreases |found|
  {
    if found == [] then 0
    else Cuts(found[..|found| - 1]) + (if found[|found| - 1].start == 1 then 0 else 1)
  }

  /** `split` yields one piece plus one per cutting marker; in particular never an empty list. */
  lemma {:induction false} SplitAllLength(text: string, found: seq<Found<ParagraphReference>>)
    ensures |SplitAll(text, found)| == 1 + Cuts(found)
    decreases |found|
  {
    if found != [] {
      SplitAllLength(text, found[..|found| - 1]);
    }
  }

  /** The loop's step: the pieces after `k + 1` markers are the pieces after `k`, cut once more. */
  lemma SplitAllStep(text: string, found: seq<Found<ParagraphReference>>, k: nat)
    requires k < |found|
    ensures SplitAll(text, found[..k + 1]) == Cut(SplitAll(text, found[..k]), found[k].start)
  {
    assert found[..k + 1][..k] == found[..k];
  }

  /** Appending `tail` and then overwriting the old last piece with `head` replaces that piece by both. */
  lemma AppendThenOverwrite(pieces: seq<string>, head: string, tail: string)
    requires pieces != []
    ensures (pieces + [tail])[|pieces| - 1 := head] == pieces[..|pieces| - 1] + [head, tail]
  {
  }

  /** `ParagraphReference.split`: the loop over the match objects of `re.finditer`. */
  method Split(text: string) returns (result: seq<string>)
    ensures result == SplitAll(text, Markers(text))
    ensures |result| == 1 + Cuts(Markers(text))
  {
    result := SplitAt(text, Markers(text));
  }

  /** The loop of `split`, over the matches `found`, loop for loop. */
  method SplitAt(text: string, found: seq<Found<ParagraphReference>>) returns (result: seq<string>)
    ensures result == SplitAll(text, found)
    ensures |result| == 1 + Cuts(found)
  {
    result := [text];
    for k := 0 to |found|
      invariant result == SplitAll(text, found[..k])
    {
      SplitAllStep(text, found, k);
      var splitPos := found[k].start - 1;
      if splitPos == 0 {
        continue;
      }
      var last := result[|result| - 1];
      var head, tail := Strip(SliceTo(last, splitPos)), Strip(SliceFrom(last, splitPos));
      AppendThenOverwrite(result, head, tail);
      result := result + [tail];
      result := result[|result| - 2 := head];
    }
    assert found[..|found|] == found;
    SplitAllLength(text, found);
  }

  /** Without markers `split` returns the text itself as the only piece. */
  lemma SplitNoMarkers(text: string)
    requires ExtractAll(text) == []
    ensures SplitAll(text, Markers(text)) == [text]
  {
    ExtractAllIsFindIter(text);
  }

  /** Every piece is a contiguous piece of the text. */
  lemma {:induction false} SplitAllInfixes(text: string, found: seq<Found<ParagraphReference>>)
    ensures forall p :: p in SplitAll(text, found) ==> IsInfix(p, text)
    decreases |found|
  {
    if found == [] {
      InfixOfSlice(text, text, 0, |text|);
    } else {
      SplitAllInfixes(text, found[..|found| - 1]);
      CutInfixes(SplitAll(text, found[..|found| - 1]), found[|found| - 1].start, text);
    }
  }

  /** Cutting pieces of `text` gives pieces of `text`. */
  lemma CutInfixes(pieces: seq<string>, start: nat, text: string)
    requires pieces != [] && forall p :: p in pieces ==> IsInfix(p, text)
    ensures forall p :: p in Cut(pieces, start) ==> IsInfix(p, text)
  {
    var pos := start - 1;
    if pos != 0 {
      var last := pieces[|pieces| - 1];
      assert last in pieces;
      HalvesInfixes(last, pos, text);
      ReplaceLastInfixes(pieces, Strip(SliceTo(last, pos)), Strip(SliceFrom(last, pos)), text);
    }
  }

  lemma ReplaceLastInfixes(pieces: seq<string>, head: string, tail: string, text: string)
    requires pieces != [] && forall p :: p in pieces ==> IsInfix(p, text)
    requires IsInfix(head, text) && IsInfix(tail, text)
    ensures forall p :: p in pieces[..|pieces| - 1] + [head, tail] ==> IsInfix(p, text)
  {
    forall p | p in pieces[..|pieces| - 1] + [head, tail]
      ensures IsInfix(p, text)
    {
      if p !in pieces[..|pieces| - 1] {
        assert p == head || p == tail;
      }
    }
  }

  /** Both stripped halves of a piece of `text` are pieces of `text`. */
  lemma HalvesInfixes(last: string, pos: int, text: string)
    requires IsInfix(last, text)
    ensures IsInfix(Strip(SliceTo(last, pos)), text) && IsInfix(Strip(SliceFrom(last, pos)), text)
  {
    var before, after := SliceTo(last, pos), SliceFrom(last, pos);
    SliceInfix(last, pos);
    TrimInfix(before, IsSpace);
    TrimInfix(after, IsSpace);
    InfixTransitive(before, last, text);
    InfixTransitive(after, last, text);
    InfixTransitive(Strip(before), before, text);
    InfixTransitive(Strip(after), after, text);
  }

  /** Once a cut has happened, every piece is stripped of surrounding whitespace. */
  lemma {:induction false} SplitAllStripped(text: string, found: seq<Found<ParagraphReference>>)
    ensures |SplitAll(text, found)| > 1 ==> forall p :: p in SplitAll(text, found) ==> IsStripped(p)
    decreases |found|
  {
    if found != [] {
      var pieces := SplitAll(text, found[..|found| - 1]);
      SplitAllStripped(text, found[..|found| - 1]);
      SplitAllLength(text, found[..|found| - 1]);
      var pos := found[|found| - 1].start - 1;
      if pos != 0 {
        var last := pieces[|pieces| - 1];
        var head, tail := Strip(SliceTo(last, pos)), Strip(SliceFrom(last, pos));
        assert SplitAll(text, found) == pieces[..|pieces| - 1] + [head, tail];
        forall p | p in SplitAll(text, found)
          ensures IsStripped(p)
        {
          if p !in pieces[..|pieces| - 1] {
            assert p == head || p == tail;
          }
        }
      }
    }
  }

  /**
   * A marker at index 0 cuts at Python index -1: the first piece loses only the last
   * character of the text, which becomes the second piece.
   */
  lemma MarkerAtStartCutsLastChar(text: string, m: Found<ParagraphReference>)
    requires text != [] && m.start == 0
    ensures SplitAll(text, [m]) == [Strip(text[..|text| - 1]), Strip(text[|text| - 1..])]
  {
    assert [m][..0] == [];
    assert SplitAll(text, [m]) == Cut([text], 0);
    assert SliceTo(text, -1) == text[..|text| - 1];
    assert SliceFrom(text, -1) == text[|text| - 1..];
  }

  /** A marker at index 1 (after one leading character) does not cut. */
  lemma MarkerAtOneSkipped(text: string, found: seq<Found<ParagraphReference>>, m: Found<ParagraphReference>)
    requires m.start == 1
    ensures SplitAll(text, found + [m]) == SplitAll(text, found)
  {
    assert (found + [m])[..|found|] == found;
    SplitAllLength(text, found);
  }
}
