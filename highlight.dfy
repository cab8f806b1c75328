/**
 * Highlighting of search hits inside a table cell: createHighlightedText,
 * which splits a cell's text into plain runs and highlighted matches, and
 * the guard in addCell that decides whether a cell is highlighted at all.
 */
module Highlight {
  import opened JsText
  import opened ProcessFilter

  /** A text node (Plain) or a highlight span (Mark) of the fragment, in document order. */
  datatype Segment = Plain(text: string) | Mark(text: string)

  /** The text the fragment displays: its segments' texts, in order. */
  function Concat(segs: seq<Segment>): string
  {
    if segs == [] then [] else Concat(segs[..|segs| - 1]) + segs[|segs| - 1].text
  }

  /** The position in the displayed text at which segment k begins. */
  function Start(segs: seq<Segment>, k: nat): nat
    requires k <= |segs|
  {
    |Concat(segs[..k])|
  }

  /**
   * The segment seg, placed at position p of text, is where the
   * left-to-right search by term puts it. With lower = text lower-cased:
   * a Mark sits at p exactly when indexOf(term, p) on lower answers p, and
   * lower-cases to the term; a Plain run is never empty and ends where
   * indexOf(term, p) finds the next hit, or at the end of text when it
   * finds none.
   */
  predicate Fits(text: string, term: string, p: nat, seg: Segment)
  {
    var next := IndexOf(Lower(text), term, p);
    match seg
    case Mark(m) => next == p && Lower(m) == term
    case Plain(u) => u != [] && (next == p + |u| || (next == -1 && p + |u| == |text|))
  }

  /** Segment k of segs fits where it starts. */
  predicate FitsAt(text: string, term: string, segs: seq<Segment>, k: nat)
    requires k < |segs|
  {
    Fits(text, term, Start(segs, k), segs[k])
  }

  /** Every segment of segs fits where it starts. */
  predicate AllFit(text: string, term: string, segs: seq<Segment>)
  {
    forall k :: 0 <= k < |segs| ==> FitsAt(text, term, segs, k)
  }

  /** segs displays exactly text, every segment placed where the left-to-right search puts it. */
  predicate IsHighlighting(text: string, term: string, segs: seq<Segment>)
  {
    Concat(segs) == text && AllFit(text, term, segs)
  }

  lemma ConcatAppend(segs: seq<Segment>, x: Segment)
    ensures Concat(segs + [x]) == Concat(segs) + x.text
  {
    assert (segs + [x])[..|segs|] == segs;
  }

  lemma SliceJoin(s: string, a: nat, b: nat)
    requires a <= b <= |s|
    ensures s[..a] + s[a..b] == s[..b]
  {
  }

  lemma StartPrefix(segs: seq<Segment>, ext: seq<Segment>, k: nat)
    requires k <= |segs|
    ensures Start(segs + ext, k) == Start(segs, k)
  {
    assert (segs + ext)[..k] == segs[..k];
  }

  /** Segment k occupies [Start(k), Start(k + 1)) of the displayed text. */
  lemma {:induction false} SegmentSlice(segs: seq<Segment>, k: nat)
    requires k < |segs|
    ensures Start(segs, k + 1) == Start(segs, k) + |segs[k].text|
    ensures Start(segs, k + 1) <= |Concat(segs)|
    ensures Concat(segs)[Start(segs, k)..Start(segs, k + 1)] == segs[k].text
    decreases |segs|
  {
    assert segs[..k + 1][..k] == segs[..k];
    if k + 1 < |segs| {
      var init := segs[..|segs| - 1];
      SegmentSlice(init, k);
      assert init[..k] == segs[..k] && init[..k + 1] == segs[..k + 1];
    } else {
      assert segs[..k + 1] == segs;
    }
  }

  /**
   * Appending a segment that fits where the displayed text ends keeps every
   * segment fitting, and extends the displayed text by the segment's text.
   */
  lemma AppendFitting(text: string, term: string, segs: seq<Segment>, x: Segment)
    requires AllFit(text, term, segs)
    requires Fits(text, term, |Concat(segs)|, x)
    ensures AllFit(text, term, segs + [x])
    ensures Concat(segs + [x]) == Concat(segs) + x.text
  {
    ConcatAppend(segs, x);
    forall k | 0 <= k < |segs| + 1 ensures FitsAt(text, term, segs + [x], k) {
      StartPrefix(segs, [x], k);
      if k < |segs| {
        assert FitsAt(text, term, segs, k);
        assert (segs + [x])[k] == segs[k];
      } else {
        assert segs[..k] == segs;
      }
    }
  }

  /** A hit at p, in its original case, fits there as a Mark. */
  lemma HitFits(text: string, term: string, p: nat)
    requires OccursAt(Lower(text), term, p)
    ensures Fits(text, term, p, Mark(text[p..p + |term|]))
  {
    LowerSlice(text, p, p + |term|);
    IndexOfHit(Lower(text), term, p);
  }

  /** The text before the next hit, non-empty, extends a highlighting of text[..last] to text[..next]. */
  lemma AppendPlainBefore(text: string, term: string, segs: seq<Segment>, last: nat, next: nat)
    requires last < next <= |text| && next == IndexOf(Lower(text), term, last)
    requires Concat(segs) == text[..last] && AllFit(text, term, segs)
    ensures Concat(segs + [Plain(text[last..next])]) == text[..next]
    ensures AllFit(text, term, segs + [Plain(text[last..next])])
  {
    AppendFitting(text, term, segs, Plain(text[last..next]));
    SliceJoin(text, last, next);
  }

  /** The hit found at next extends a highlighting of text[..next] past the hit. */
  lemma AppendHit(text: string, term: string, segs: seq<Segment>, next: nat)
    requires OccursAt(Lower(text), term, next)
    requires Concat(segs) == text[..next] && AllFit(text, term, segs)
    ensures Concat(segs + [Mark(text[next..next + |term|])]) == text[..next + |term|]
    ensures AllFit(text, term, segs + [Mark(text[next..next + |term|])])
  {
    HitFits(text, term, next);
    AppendFitting(text, term, segs, Mark(text[next..next + |term|]));
    SliceJoin(text, next, next + |term|);
  }

  /** With no hit left, the non-empty remainder completes a highlighting of text[..last]. */
  lemma AppendRest(text: string, term: string, segs: seq<Segment>, last: nat)
    requires last < |text| && IndexOf(Lower(text), term, last) == -1
    requires Concat(segs) == text[..last] && AllFit(text, term, segs)
    ensures IsHighlighting(text, term, segs + [Plain(text[last..])])
  {
    AppendFitting(text, term, segs, Plain(text[last..]));
    SliceJoin(text, last, |text|);
    assert text[..|text|] == text;
  }

  /** A Mark of a highlighting is as long as the term. */
  lemma MarkLength(text: string, term: string, segs: seq<Segment>, k: nat)
    requires IsHighlighting(text, term, segs)
    requires k < |segs| && segs[k].Mark?
    ensures |segs[k].text| == |term|
  {
    assert FitsAt(text, term, segs, k);
  }

  /**
   * createHighlightedText(text, searchTerm): scans the lower-cased text with
   * indexOf from lastIndex, emitting the plain text before each hit, the hit
   * itself in its original case, and the plain remainder. The term must be
   * non-empty: with "" indexOf would return lastIndex forever.
   */
  method CreateHighlightedText(text: string, term: string) returns (segs: seq<Segment>)
    requires term != []
    ensures IsHighlighting(text, term, segs)
    ensures forall k :: 0 <= k < |segs| && segs[k].Mark? ==> |segs[k].text| == |term|
  {
    var lower := Lower(text);
    var lastIndex := 0;
    var startIndex := IndexOf(lower, term, 0);
    segs := [];
    while startIndex != -1
      invariant 0 <= lastIndex <= |text|
      invariant startIndex == IndexOf(lower, term, lastIndex)
      invariant Concat(segs) == text[..lastIndex]
      invariant AllFit(text, term, segs)
      decreases |text| - lastIndex
    {
      if startIndex > lastIndex {
        AppendPlainBefore(text, term, segs, lastIndex, startIndex);
        segs := segs + [Plain(text[lastIndex..startIndex])];
      }
      AppendHit(text, term, segs, startIndex);
      segs := segs + [Mark(text[startIndex..startIndex + |term|])];
      lastIndex := startIndex + |term|;
      startIndex := IndexOf(lower, term, lastIndex);
    }
    if lastIndex < |text| {
      AppendRest(text, term, segs, lastIndex);
      segs := segs + [Plain(text[lastIndex..])];
    } else {
      assert text[..lastIndex] == text;
    }
    forall k | 0 <= k < |segs| && segs[k].Mark? ensures |segs[k].text| == |term| {
      MarkLength(text, term, segs, k);
    }
  }

  /** With a non-empty term no segment that fits is empty. */
  lemma FittingNonEmpty(text: string, term: string, p: nat, x: Segment)
    requires term != [] && Fits(text, term, p, x)
    ensures x.text != []
  {
    assert |Lower(x.text)| == |x.text|;
  }

  /** Two segments that fit at the same position and show the text found there are the same segment. */
  lemma SameFittingSegment(text: string, term: string, p: nat, x: Segment, y: Segment)
    requires p <= |text| && Fits(text, term, p, x) && Fits(text, term, p, y)
    requires x.text <= text[p..] && y.text <= text[p..]
    ensures x == y
  {
    assert |Lower(x.text)| == |x.text| && |Lower(y.text)| == |y.text|;
    assert x.Mark? <==> y.Mark?;
    assert x.text == text[p..][..|x.text|] && y.text == text[p..][..|y.text|];
  }

  /** Under a non-empty term every segment of a highlighting starts before the end of the text. */
  lemma SegmentStartsInside(text: string, term: string, segs: seq<Segment>, k: nat)
    requires term != [] && IsHighlighting(text, term, segs) && k < |segs|
    ensures Start(segs, k) < Start(segs, k + 1) <= |text|
  {
    SegmentSlice(segs, k);
    assert FitsAt(text, term, segs, k);
    FittingNonEmpty(text, term, Start(segs, k), segs[k]);
  }

  /** Segment k of a highlighting is the slice of text where it starts, and fits there. */
  lemma SegmentOfText(text: string, term: string, segs: seq<Segment>, k: nat)
    requires IsHighlighting(text, term, segs) && k < |segs|
    ensures Start(segs, k) <= |text| && segs[k].text <= text[Start(segs, k)..]
    ensures Fits(text, term, Start(segs, k), segs[k])
  {
    SegmentSlice(segs, k);
    assert FitsAt(text, term, segs, k);
    var p := Start(segs, k);
    assert text[p..][..|segs[k].text|] == text[p..p + |segs[k].text|];
  }

  /** Two highlightings that agree on their first k segments agree on segment k too. */
  lemma NextSegmentAgrees(text: string, term: string, a: seq<Segment>, b: seq<Segment>, k: nat)
    requires IsHighlighting(text, term, a) && IsHighlighting(text, term, b)
    requires k < |a| && k < |b| && a[..k] == b[..k]
    ensures a[k] == b[k]
  {
    assert Start(b, k) == Start(a, k);
    SegmentOfText(text, term, a, k);
    SegmentOfText(text, term, b, k);
    SameFittingSegment(text, term, Start(a, k), a[k], b[k]);
  }

  lemma PrefixExtends<T>(a: seq<T>, b: seq<T>, k: nat)
    requires k < |a| && k < |b| && a[..k] == b[..k] && a[k] == b[k]
    ensures a[..k + 1] == b[..k + 1]
  {
    assert a[..k + 1] == a[..k] + [a[k]] && b[..k + 1] == b[..k] + [b[k]];
  }

  /** Two highlightings of the same text by the same non-empty term that agree on their first k segments agree everywhere. */
  lemma {:induction false} HighlightingUniqueFrom(text: string, term: string, a: seq<Segment>, b: seq<Segment>, k: nat)
    requires term != []
    requires IsHighlighting(text, term, a) && IsHighlighting(text, term, b)
    requires k <= |a| && k <= |b| && a[..k] == b[..k]
    ensures a == b
    decreases |text| - Start(a, k)
  {
    if k < |a| && k < |b| {
      NextSegmentAgrees(text, term, a, b, k);
      PrefixExtends(a, b, k);
      SegmentStartsInside(text, term, a, k);
      HighlightingUniqueFrom(text, term, a, b, k + 1);
    } else if k < |a| {
      // b has displayed all of text where a's segment k would start
      assert b[..k] == b;
      SegmentStartsInside(text, term, a, k);
    } else if k < |b| {
      assert a[..k] == a;
      SegmentStartsInside(text, term, b, k);
    } else {
      assert a == a[..k] && b == b[..k];
    }
  }

  /**
   * The highlighting of text by a non-empty term is unique, so the contract
   * of CreateHighlightedText fixes its output completely.
   */
  lemma HighlightingUnique(text: string, term: string, a: seq<Segment>, b: seq<Segment>)
    requires term != []
    requires IsHighlighting(text, term, a) && IsHighlighting(text, term, b)
    ensures a == b
  {
    HighlightingUniqueFrom(text, term, a, b, 0);
  }

  /** Hits strictly advance: a later Mark starts at or after the end of an earlier one. */
  lemma {:induction false} MarksDoNotOverlap(text: string, term: string, segs: seq<Segment>, i: nat, j: nat)
    requires IsHighlighting(text, term, segs)
    requires i < j < |segs| && segs[i].Mark? && segs[j].Mark?
    ensures Start(segs, i) + |term| <= Start(segs, j)
    decreases j - i
  {
    SegmentSlice(segs, i);
    assert FitsAt(text, term, segs, i);
    StartMonotone(segs, i + 1, j);
  }

  lemma {:induction false} StartMonotone(segs: seq<Segment>, i: nat, j: nat)
    requires i <= j <= |segs|
    ensures Start(segs, i) <= Start(segs, j)
    decreases j - i
  {
    if i < j {
      SegmentSlice(segs, i);
      StartMonotone(segs, i + 1, j);
    }
  }

  // ------------------------------------------------------------ addCell

  /** A table cell: plain text content, or the highlighted fragment. */
  datatype Cell = TextCell(content: string) | HighlightCell(segments: seq<Segment>)

  /** The text a cell displays. */
  function CellText(c: Cell): string
  {
    match c
    case TextCell(t) => t
    case HighlightCell(segs) => Concat(segs)
  }

  /**
   * addCell's guard: a non-empty search term, a value that is a non-empty
   * string, and that string, lower-cased, containing the term.
   */
  predicate WantsHighlight(value: JsValue, searchText: string)
  {
    var term := Lower(searchText);
    && term != []
    && value.JStr? && value.s != []
    && Includes(Lower(value.s), term)
  }

  /**
   * What addCell puts in the cell for value under the search box's text:
   * the highlighting by the lower-cased search text exactly when the guard
   * holds, the value's text unchanged otherwise; either way the cell shows
   * the value's text.
   */
  predicate CellShows(cell: Cell, value: JsValue, searchText: string)
  {
    && (cell.HighlightCell? <==> WantsHighlight(value, searchText))
    && (cell.TextCell? ==> cell.content == ToString(value))
    && (cell.HighlightCell? ==> IsHighlighting(value.s, Lower(searchText), cell.segments))
    && CellText(cell) == ToString(value)
  }

  /** addCell(row, text): the guard, then createHighlightedText when it holds. */
  method AddCell(value: JsValue, searchText: string) returns (cell: Cell)
    ensures CellShows(cell, value, searchText)
  {
    cell := TextCell(ToString(value));
    var term := Lower(searchText);
    if term != [] && value.JStr? && value.s != [] {
      var textLower := Lower(value.s);
      IncludesIffIndexOf(textLower, term);
      if IndexOf(textLower, term, 0) != -1 {
        var segs := CreateHighlightedText(value.s, term);
        cell := HighlightCell(segs);
      }
    }
  }

  /** The value and the search text determine the cell completely. */
  lemma CellShowsUnique(c1: Cell, c2: Cell, value: JsValue, searchText: string)
    requires CellShows(c1, value, searchText) && CellShows(c2, value, searchText)
    ensures c1 == c2
  {
    if c1.HighlightCell? {
      HighlightingUnique(value.s, Lower(searchText), c1.segments, c2.segments);
    }
  }
}
