/**
 * The selection and edit state machine of crates/examples/upstream/input.rs.
 *
 * Ranges are byte offsets into the content. Slicing a Rust string anywhere but on a
 * character boundary panics, so the methods that slice prove that they do not. Grapheme
 * segmentation is a parameter: the start offsets of the graphemes of the current content.
 */
module TextInputs {
  import opened Wrappers
  import opened Offsets

  datatype Range = Range(start: nat, end: nat)
  {
    predicate IsEmpty() { start >= end }
  }

  function Bytes(s: string): nat { Length(Utf8, s) }

  ghost predicate OnBoundary(s: string, offset: nat) { IsBoundary(Utf8, s, offset) }

  /** Ordered, within the text, and on character boundaries. */
  ghost predicate RangeOk(s: string, r: Range) {
    r.start <= r.end <= Bytes(s) && OnBoundary(s, r.start) && OnBoundary(s, r.end)
  }

  /** The grapheme starts: character boundaries in order, the first one at 0. */
  ghost predicate IsSegmentation(s: string, starts: seq<nat>) {
    && (s == [] <==> starts == []) && (starts != [] ==> starts[0] == 0)
    && (forall k :: 0 <= k < |starts| ==> starts[k] < Bytes(s) && OnBoundary(s, starts[k]))
    && (forall j, k :: 0 <= j < k < |starts| ==> starts[j] < starts[k])
  }

  /** `r` is the last grapheme start before the offset, or 0. */
  ghost predicate IsPrevious(starts: seq<nat>, offset: nat, r: nat) {
    ((r in starts && r < offset) || r == 0) && forall g :: g in starts && g < offset ==> g <= r
  }

  /** `r` is the first grapheme start after the offset, or the end of the text. */
  ghost predicate IsNext(starts: seq<nat>, end: nat, offset: nat, r: nat) {
    ((r in starts && r > offset) || r == end) && forall g :: g in starts && g > offset ==> r <= g
  }

  /** Both are determined by the segmentation. */
  lemma NeighboursUnique(s: string, starts: seq<nat>, offset: nat, r1: nat, r2: nat)
    requires IsSegmentation(s, starts)
    ensures IsPrevious(starts, offset, r1) && IsPrevious(starts, offset, r2) ==> r1 == r2
    ensures IsNext(starts, Bytes(s), offset, r1) && IsNext(starts, Bytes(s), offset, r2) ==> r1 == r2
  {
  }

  lemma PreviousIsBefore(starts: seq<nat>, offset: nat, r: nat)
    requires IsPrevious(starts, offset, r)
    ensures r <= offset && (r == offset <==> offset == 0)
  {}

  /** `&s[..offset]` and `&s[offset..]`. */
  function Before(s: string, offset: nat): string { s[..Ceiling(Utf8, s, offset)] }

  function After(s: string, offset: nat): string { s[Ceiling(Utf8, s, offset)..] }

  /** Slicing on a boundary splits the text there. */
  lemma SliceOnBoundary(s: string, offset: nat)
    requires OnBoundary(s, offset)
    ensures Before(s, offset) + After(s, offset) == s
    ensures Bytes(Before(s, offset)) == offset && Bytes(After(s, offset)) == Bytes(s) - offset
  {
    var k: nat :| k <= |s| && Pos(Utf8, s, k) == offset;
    CeilingOfBoundary(Utf8, s, k);
    LengthConcat(Utf8, Before(s, offset), After(s, offset));
  }

  /** Slicing at a converted offset splits the text at the character that the offset leads to. */
  lemma SliceAtUnits(s: string, units: nat)
    ensures var k, offset := Ceiling(Utf16, s, units), Convert(Utf16, s, units);
            offset == Bytes(s[..k]) && Before(s, offset) == s[..k] && After(s, offset) == s[k..]
  {
    CeilingOfBoundary(Utf8, s, Ceiling(Utf16, s, units));
  }

  lemma EndsAreBoundaries(s: string)
    ensures OnBoundary(s, 0) && OnBoundary(s, Bytes(s))
  {
    assert Pos(Utf8, s, 0) == 0;
    assert s[..|s|] == s;
    assert Pos(Utf8, s, |s|) == Bytes(s);
  }

  /** The end of a prefix is a boundary of the whole. */
  lemma PrefixIsBoundary(a: string, b: string)
    ensures OnBoundary(a + b, Bytes(a)) && Bytes(a) <= Bytes(a + b)
  {
    assert (a + b)[..|a|] == a;
    assert Pos(Utf8, a + b, |a|) == Bytes(a);
    LengthConcat(Utf8, a, b);
  }

  lemma BoundaryWithin(s: string, offset: nat)
    requires OnBoundary(s, offset)
    ensures offset <= Bytes(s)
  {
    SliceOnBoundary(s, offset);
  }

  /** The text with a range replaced; the range need not be ordered. */
  function Spliced(s: string, r: Range, text: string): string {
    Before(s, r.start) + text + After(s, r.end)
  }

  /** After a splice the inserted text is a range on boundaries. */
  lemma SplicedRange(s: string, r: Range, text: string)
    requires OnBoundary(s, r.start)
    ensures RangeOk(Spliced(s, r, text), Range(r.start, r.start + Bytes(text)))
  {
    hide Length;
    hide Ceiling;
    var a := Before(s, r.start);
    SliceOnBoundary(s, r.start);
    LengthConcat(Utf8, a, text);
    PrefixIsBoundary(a, text + After(s, r.end));
    assert a + (text + After(s, r.end)) == Spliced(s, r, text);
    PrefixIsBoundary(a + text, After(s, r.end));
  }

  class TextInput {
    var content: string
    var selectedRange: Range
    var selectionReversed: bool
    var markedRange: Option<Range>
    var isSelecting: bool

    ghost predicate Valid()
      reads this
    {
      RangeOk(content, selectedRange) && (markedRange.Some? ==> RangeOk(content, markedRange.value))
    }

    /** The moving end of the selection. */
    function CursorOffset(): nat
      reads this
    {
      if selectionReversed then selectedRange.start else selectedRange.end
    }

    /** The end that stays. */
    ghost function Anchor(): nat
      reads this
    {
      if selectionReversed then selectedRange.end else selectedRange.start
    }

    constructor ()
      ensures Valid() && content == "" && selectedRange == Range(0, 0) && markedRange == None && !selectionReversed
    {
      content, selectedRange, selectionReversed, markedRange, isSelecting := "", Range(0, 0), false, None, false;
      EndsAreBoundaries("");
    }

    method MoveTo(offset: nat)
      requires Valid() && OnBoundary(content, offset)
      modifies this`selectedRange
      ensures Valid() && selectedRange == Range(offset, offset) && CursorOffset() == Anchor() == offset
    {
      BoundaryWithin(content, offset);
      selectedRange := Range(offset, offset);
    }

    /** The cursor goes to the offset, the anchor stays, whichever way the selection turns. */
    method SelectTo(offset: nat)
      requires Valid() && OnBoundary(content, offset)
      modifies this`selectedRange, this`selectionReversed
      ensures Valid() && CursorOffset() == offset && Anchor() == old(Anchor())
      ensures var anchor := if old(selectionReversed) then old(selectedRange).end else old(selectedRange).start;
              && selectedRange == (if offset <= anchor then Range(offset, anchor) else Range(anchor, offset))
              && selectionReversed == (offset < anchor || (old(selectionReversed) && offset == anchor))
    {
      BoundaryWithin(content, offset);
      if selectionReversed {
        selectedRange := selectedRange.(start := offset);
      } else {
        selectedRange := selectedRange.(end := offset);
      }
      if selectedRange.end < selectedRange.start {
        selectionReversed := !selectionReversed;
        selectedRange := Range(selectedRange.end, selectedRange.start);
      }
    }

    /** The last grapheme start before the offset, or 0. */
    method PreviousBoundary(graphemes: seq<nat>, offset: nat) returns (r: nat)
      requires IsSegmentation(content, graphemes)
      ensures OnBoundary(content, r) && IsPrevious(graphemes, offset, r)
      ensures if exists g :: g in graphemes && g < offset then
                r in graphemes && r < offset && forall g :: g in graphemes && g < offset ==> g <= r
              else r == 0
    {
      EndsAreBoundaries(content);
      var k := |graphemes|;
      while k > 0
        invariant 0 <= k <= |graphemes|
        invariant forall j :: k <= j < |graphemes| ==> graphemes[j] >= offset
      {
        k := k - 1;
        if graphemes[k] < offset {
          return graphemes[k];
        }
      }
      return 0;
    }

    /** The first grapheme start after the offset, or the end. */
    method NextBoundary(graphemes: seq<nat>, offset: nat) returns (r: nat)
      requires IsSegmentation(content, graphemes)
      ensures OnBoundary(content, r) && IsNext(graphemes, Bytes(content), offset, r)
      ensures if exists g :: g in graphemes && g > offset then
                r in graphemes && r > offset && forall g :: g in graphemes && g > offset ==> r <= g
              else r == Bytes(content)
    {
      EndsAreBoundaries(content);
      for k := 0 to |graphemes|
        invariant forall j :: 0 <= j < k ==> graphemes[j] <= offset
      {
        if graphemes[k] > offset {
          return graphemes[k];
        }
      }
      return Bytes(content);
    }

    method Left(graphemes: seq<nat>)
      requires Valid() && IsSegmentation(content, graphemes)
      modifies this`selectedRange
      ensures Valid() && selectedRange.IsEmpty()
      ensures if old(selectedRange).IsEmpty() then IsPrevious(graphemes, old(CursorOffset()), CursorOffset())
              else CursorOffset() == old(selectedRange).start
    {
      if selectedRange.IsEmpty() {
        var previous := PreviousBoundary(graphemes, CursorOffset());
        MoveTo(previous);
      } else {
        MoveTo(selectedRange.start);
      }
    }

    method Right(graphemes: seq<nat>)
      requires Valid() && IsSegmentation(content, graphemes)
      modifies this`selectedRange
      ensures Valid() && selectedRange.IsEmpty()
      ensures if old(selectedRange).IsEmpty() then IsNext(graphemes, Bytes(content), old(CursorOffset()), CursorOffset())
              else CursorOffset() == old(selectedRange).end
    {
      if selectedRange.IsEmpty() {
        var next := NextBoundary(graphemes, selectedRange.end);
        MoveTo(next);
      } else {
        MoveTo(selectedRange.end);
      }
    }

    method SelectLeft(graphemes: seq<nat>)
      requires Valid() && IsSegmentation(content, graphemes)
      modifies this`selectedRange, this`selectionReversed
      ensures Valid() && Anchor() == old(Anchor()) && IsPrevious(graphemes, old(CursorOffset()), CursorOffset())
    {
      var previous := PreviousBoundary(graphemes, CursorOffset());
      SelectTo(previous);
    }

    method SelectRight(graphemes: seq<nat>)
      requires Valid() && IsSegmentation(content, graphemes)
      modifies this`selectedRange, this`selectionReversed
      ensures Valid() && Anchor() == old(Anchor()) && IsNext(graphemes, Bytes(content), old(CursorOffset()), CursorOffset())
    {
      var next := NextBoundary(graphemes, CursorOffset());
      SelectTo(next);
    }

    method SelectAll()
      requires Valid()
      modifies this`selectedRange, this`selectionReversed
      ensures Valid() && selectedRange == Range(0, Bytes(content)) && CursorOffset() == Bytes(content)
    {
      EndsAreBoundaries(content);
      MoveTo(0);
      SelectTo(Bytes(content));
    }

    method Home()
      requires Valid()
      modifies this`selectedRange
      ensures Valid() && selectedRange == Range(0, 0)
    {
      EndsAreBoundaries(content);
      MoveTo(0);
    }

    method End()
      requires Valid()
      modifies this`selectedRange
      ensures Valid() && selectedRange == Range(Bytes(content), Bytes(content))
    {
      EndsAreBoundaries(content);
      MoveTo(Bytes(content));
    }

    /** Rings the bell at the start of the text; otherwise deletes the marked text, else the selection or the grapheme before the cursor. */
    method Backspace(graphemes: seq<nat>) returns (bell: bool)
      requires Valid() && IsSegmentation(content, graphemes)
      modifies this
      ensures Valid() && (bell <==> old(selectedRange).IsEmpty() && old(CursorOffset()) == 0)
      ensures bell ==> content == old(content) && selectedRange == old(selectedRange) && markedRange == old(markedRange)
      ensures !bell && old(markedRange) == None ==>
                && selectedRange.IsEmpty() && markedRange == None
                && if old(selectedRange).IsEmpty() then
                     && IsPrevious(graphemes, old(selectedRange).start, selectedRange.start)
                     && content == Spliced(old(content), Range(selectedRange.start, old(selectedRange).end), "")
                   else
                     && selectedRange.start == old(selectedRange).start
                     && content == Spliced(old(content), old(selectedRange), "")
      ensures !bell && old(markedRange).Some? ==>
                && content == Spliced(old(content), old(markedRange).value, "") && markedRange == None
                && selectedRange == Range(old(markedRange).value.start, old(markedRange).value.start)
    {
      hide Spliced;
      hide IsPrevious;
      if selectedRange.IsEmpty() {
        var previous := PreviousBoundary(graphemes, CursorOffset());
        PreviousIsBefore(graphemes, CursorOffset(), previous);
        if CursorOffset() == previous {
          return true;
        }
        SelectTo(previous);
      }
      RemoveText();
      return false;
    }

    /** Rings the bell at the end of the text; otherwise deletes the marked text, else the selection or the grapheme after the cursor. */
    method Delete(graphemes: seq<nat>) returns (bell: bool)
      requires Valid() && IsSegmentation(content, graphemes)
      modifies this
      ensures Valid() && (bell <==> old(selectedRange).IsEmpty() && old(CursorOffset()) == Bytes(old(content)))
      ensures bell ==> content == old(content) && selectedRange == old(selectedRange) && markedRange == old(markedRange)
      ensures !bell && old(markedRange) == None ==>
                && selectedRange == Range(old(selectedRange).start, old(selectedRange).start) && markedRange == None
                && if old(selectedRange).IsEmpty() then
                     exists to: nat ::
                       && IsNext(graphemes, Bytes(old(content)), old(selectedRange).end, to)
                       && content == Spliced(old(content), Range(old(selectedRange).start, to), "")
                   else content == Spliced(old(content), old(selectedRange), "")
      ensures !bell && old(markedRange).Some? ==>
                && content == Spliced(old(content), old(markedRange).value, "") && markedRange == None
                && selectedRange == Range(old(markedRange).value.start, old(markedRange).value.start)
    {
      hide Spliced;
      if selectedRange.IsEmpty() {
        var next := NextBoundary(graphemes, CursorOffset());
        if CursorOffset() == next {
          return true;
        }
        SelectTo(next);
      }
      RemoveText();
      return false;
    }

    /** `replace_text_in_range` with no range and no text: the marked text goes, else the selection. */
    method RemoveText()
      requires Valid()
      modifies this`content, this`selectedRange, this`markedRange
      ensures Valid() && markedRange == None
      ensures var r := if old(markedRange).Some? then old(markedRange).value else old(selectedRange);
              content == Spliced(old(content), r, "") && selectedRange == Range(r.start, r.start)
    {
      hide Spliced;
      assert Bytes("") == 0;
      ReplaceTextInRange(None, "");
    }

    method OffsetFromUtf16(offset: nat) returns (r: nat)
      ensures r == Convert(Utf16, content, offset) && OnBoundary(content, r)
    {
      r := ConvertOffset(Utf16, content, offset);
      ConvertLandsOnBoundary(Utf16, content, offset);
    }

    method OffsetToUtf16(offset: nat) returns (r: nat)
      ensures r == Convert(Utf8, content, offset) && IsBoundary(Utf16, content, r)
    {
      r := ConvertOffset(Utf8, content, offset);
      ConvertLandsOnBoundary(Utf8, content, offset);
    }

    method RangeFromUtf16(range: Range) returns (r: Range)
      ensures r == Range(Convert(Utf16, content, range.start), Convert(Utf16, content, range.end))
      ensures OnBoundary(content, r.start) && OnBoundary(content, r.end)
      ensures range.start <= range.end ==> RangeOk(content, r)
    {
      var start := OffsetFromUtf16(range.start);
      var end := OffsetFromUtf16(range.end);
      if range.start <= range.end {
        ConvertIsMonotone(Utf16, content, range.start, range.end);
      }
      ConvertLandsOnBoundary(Utf16, content, range.end);
      r := Range(start, end);
    }

    /** The range an edit applies to: the given one, else the marked one, else the selection. */
    ghost function Effective(rangeUtf16: Option<Range>): Range
      reads this
    {
      if rangeUtf16.Some? then
        Range(Convert(Utf16, content, rangeUtf16.value.start), Convert(Utf16, content, rangeUtf16.value.end))
      else if markedRange.Some? then markedRange.value
      else selectedRange
    }

    method EffectiveRange(rangeUtf16: Option<Range>) returns (range: Range)
      requires Valid()
      ensures range == Effective(rangeUtf16) && OnBoundary(content, range.start) && OnBoundary(content, range.end)
      ensures rangeUtf16 == None || rangeUtf16.value.start <= rangeUtf16.value.end ==> RangeOk(content, range)
    {
      match rangeUtf16
      case Some(r) =>
        range := RangeFromUtf16(r);
      case None =>
        range := if markedRange.Some? then markedRange.value else selectedRange;
    }

    /** Where the range starts and ends, in characters. */
    lemma SliceAtRange(rangeUtf16: Option<Range>, newText: string)
      requires Valid()
      ensures var r := Effective(rangeUtf16);
              var (a, b) := match rangeUtf16
                            case Some(r) => (Ceiling(Utf16, content, r.start), Ceiling(Utf16, content, r.end))
                            case None =>
                              var m := if markedRange.Some? then markedRange.value else selectedRange;
                              (Ceiling(Utf8, content, m.start), Ceiling(Utf8, content, m.end));
              && Before(content, r.start) == content[..a] && After(content, r.end) == content[b..]
              && r.start == Bytes(content[..a]) && r.end == Bytes(content[..b])
              && r.start + Bytes(newText) == Bytes(content[..a] + newText)
    {
      hide Length;
      hide Convert;
      if rangeUtf16.Some? {
        SliceAtUnits(content, rangeUtf16.value.start);
        SliceAtUnits(content, rangeUtf16.value.end);
      } else {
        var m := if markedRange.Some? then markedRange.value else selectedRange;
        SliceOnBoundary(content, m.start);
        SliceOnBoundary(content, m.end);
      }
      LengthConcat(Utf8, Before(content, Effective(rangeUtf16).start), newText);
    }

    /** Replaces a range; explicit ranges that are not ordered do not break the invariant either. */
    method ReplaceTextInRange(rangeUtf16: Option<Range>, newText: string)
      requires Valid()
      modifies this`content, this`selectedRange, this`markedRange
      ensures Valid() && markedRange == None
      // The text between two characters is replaced: those the given range leads to, else those of the mark or the selection.
      ensures var was := old(content);
              var (a, b) := match rangeUtf16
                            case Some(r) => (Ceiling(Utf16, was, r.start), Ceiling(Utf16, was, r.end))
                            case None =>
                              var m := if old(markedRange).Some? then old(markedRange).value else old(selectedRange);
                              (Ceiling(Utf8, was, m.start), Ceiling(Utf8, was, m.end));
              && content == was[..a] + newText + was[b..]
              && selectedRange == Range(Bytes(was[..a] + newText), Bytes(was[..a] + newText))
      ensures var r := old(Effective(rangeUtf16));
              && content == Spliced(old(content), r, newText)
              && selectedRange == Range(r.start + Bytes(newText), r.start + Bytes(newText))
    {
      hide Length;
      hide Ceiling;
      hide IsBoundary;
      var range := EffectiveRange(rangeUtf16);
      SliceAtRange(rangeUtf16, newText);
      SplicedRange(content, range, newText);
      content := Before(content, range.start) + newText + After(content, range.end);
      selectedRange := Range(range.start + Bytes(newText), range.start + Bytes(newText));
      markedRange := None;
    }

    /**
     * Replaces a range and marks the new text. The code takes the units of an explicit new
     * selection from the start of the content, and moves its two ends by the two ends of
     * the replaced range. The selection may then leave the text, or split a character: see
     * `ExplicitSelectionValidIff`, and `ExplicitSelectionCorrectIff` for what is selected.
     */
    method ReplaceAndMarkTextInRange(rangeUtf16: Option<Range>, newText: string, newSelectedRangeUtf16: Option<Range>)
      requires Valid()
      modifies this`content, this`selectedRange, this`markedRange
      ensures newSelectedRangeUtf16 == None ==> Valid()
      ensures var was := old(content);
              var (a, b) := match rangeUtf16
                            case Some(r) => (Ceiling(Utf16, was, r.start), Ceiling(Utf16, was, r.end))
                            case None =>
                              var m := if old(markedRange).Some? then old(markedRange).value else old(selectedRange);
                              (Ceiling(Utf8, was, m.start), Ceiling(Utf8, was, m.end));
              && content == was[..a] + newText + was[b..]
              && markedRange == (if newText == "" then None else Some(Range(Bytes(was[..a]), Bytes(was[..a] + newText))))
              && selectedRange ==
                   match newSelectedRangeUtf16
                   case None => Range(Bytes(was[..a] + newText), Bytes(was[..a] + newText))
                   case Some(n) =>
                     Range(Bytes(content[..Ceiling(Utf16, content, n.start)]) + Bytes(was[..a]),
                           Bytes(content[..Ceiling(Utf16, content, n.end)]) + Bytes(was[..b]))
      ensures var r := old(Effective(rangeUtf16));
              && content == Spliced(old(content), r, newText)
              && markedRange == (if newText == "" then None else Some(Range(r.start, r.start + Bytes(newText))))
              && selectedRange ==
                   match newSelectedRangeUtf16
                   case None => Range(r.start + Bytes(newText), r.start + Bytes(newText))
                   case Some(n) => Selected(content, r, n)
      ensures newSelectedRangeUtf16.Some? ==>
                var r, n := old(Effective(rangeUtf16)), newSelectedRangeUtf16.value;
                && (Valid() <==> selectedRange.start <= selectedRange.end
                                 && OnBoundary(Rest(content, n.start), r.start) && OnBoundary(Rest(content, n.end), r.end))
                && (r.start <= r.end && n.start <= n.end ==> selectedRange.start <= selectedRange.end)
    {
      hide Length;
      hide Ceiling;
      hide IsBoundary;
      var range := EffectiveRange(rangeUtf16);
      SliceAtRange(rangeUtf16, newText);
      SplicedRange(content, range, newText);
      content := Before(content, range.start) + newText + After(content, range.end);
      if newText != "" {
        markedRange := Some(Range(range.start, range.start + Bytes(newText)));
      } else {
        markedRange := None;
      }
      match newSelectedRangeUtf16 {
        case Some(n) =>
          var newRange := RangeFromUtf16(n);
          selectedRange := Range(newRange.start + range.start, newRange.end + range.end);
          ExplicitSelectionValidIff(content, range, n);
        case None =>
          selectedRange := Range(range.start + Bytes(newText), range.start + Bytes(newText));
      }
    }

    method UnmarkText()
      requires Valid()
      modifies this`markedRange
      ensures Valid() && markedRange == None
    {
      markedRange := None;
    }

    method Reset()
      modifies this
      ensures Valid() && content == "" && selectedRange == Range(0, 0) && markedRange == None && !selectionReversed
    {
      content, selectedRange, selectionReversed, markedRange, isSelecting := "", Range(0, 0), false, None, false;
      EndsAreBoundaries("");
    }
  }

  /**
   * An ordered splice keeps the text on both sides: what was before the range and what was
   * after it are where they were, around the new text.
   */
  lemma SpliceKeepsSides(s: string, r: Range, text: string)
    requires RangeOk(s, r)
    ensures Before(Spliced(s, r, text), r.start) == Before(s, r.start)
    ensures After(Spliced(s, r, text), r.start + Bytes(text)) == After(s, r.end)
    ensures Bytes(Spliced(s, r, text)) == Bytes(s) - (r.end - r.start) + Bytes(text)
  {
    var a, b := Before(s, r.start), After(s, r.end);
    SliceOnBoundary(s, r.start);
    SliceOnBoundary(s, r.end);
    var t := a + text + b;
    assert t[..|a|] == a;
    assert t[..|a + text|] == a + text;
    LengthConcat(Utf8, a, text);
    LengthConcat(Utf8, a + text, b);
    assert Pos(Utf8, t, |a|) == r.start && Pos(Utf8, t, |a + text|) == r.start + Bytes(text);
    CeilingOfBoundary(Utf8, t, |a|);
    CeilingOfBoundary(Utf8, t, |a + text|);
  }

  /** Replacing the new text by the text that was there undoes an edit. */
  lemma SpliceUndo(s: string, r: Range, text: string, removed: string)
    requires RangeOk(s, r) && s == Before(s, r.start) + removed + After(s, r.end)
    ensures Spliced(Spliced(s, r, text), Range(r.start, r.start + Bytes(text)), removed) == s
  {
    SpliceKeepsSides(s, r, text);
  }

  // ----- Explicit selections --------------------------------------------------------

  function Units(s: string): nat { Length(Utf16, s) }

  /** What is left of the text after its first `units` 16-bit units. */
  function Rest(s: string, units: nat): string { s[Ceiling(Utf16, s, units)..] }

  /** The selection that the code makes of a requested one, in the new content. */
  function Selected(content: string, r: Range, n: Range): Range {
    Range(Convert(Utf16, content, n.start) + r.start, Convert(Utf16, content, n.end) + r.end)
  }

  /** The requested selection, counted from the start of the new text. */
  function Asked(r: Range, newText: string, n: Range): Range {
    Range(r.start + Convert(Utf16, newText, n.start), r.start + Convert(Utf16, newText, n.end))
  }

  ghost predicate SelectsAsked(s: string, r: Range, newText: string, n: Range) {
    Selected(Spliced(s, r, newText), r, n) == Asked(r, newText, n)
  }

  /** How many bytes more the first `units` units of `before + text` take than those of `text`. */
  function Drift(before: string, text: string, units: nat): int {
    if units <= Units(before) then Convert(Utf16, before, units) - Convert(Utf16, text, units)
    else Bytes(before) + Convert(Utf16, text, units - Units(before)) - Convert(Utf16, text, units)
  }

  lemma DriftIs(before: string, text: string, after: string, units: nat)
    requires units <= Units(text)
    ensures Drift(before, text, units) == Convert(Utf16, before + text + after, units) - Convert(Utf16, text, units)
  {
    hide Convert;
    hide Length;
    assert before + text + after == before + (text + after);
    if units <= Units(before) {
      ConvertPrefix(Utf16, before, text + after, units);
    } else {
      ConvertConcat(Utf16, before, text + after, units);
      ConvertPrefix(Utf16, text, after, units - Units(before));
    }
  }

  /**
   * When an explicit selection inside the new text comes out as requested. The code counts
   * its units from the start of the content, not of the new text, so its start is right
   * when they take the same bytes there; and it adds the end of the replaced range to the
   * end, so there the difference has to make up for what was replaced.
   */
  lemma ExplicitSelectionCorrectIff(s: string, r: Range, newText: string, n: Range)
    requires n.start <= Units(newText) && n.end <= Units(newText)
    ensures var before := Before(s, r.start);
            SelectsAsked(s, r, newText, n) <==> Drift(before, newText, n.start) == 0 && Drift(before, newText, n.end) == r.start - r.end
  {
    DriftIs(Before(s, r.start), newText, After(s, r.end), n.start);
    DriftIs(Before(s, r.start), newText, After(s, r.end), n.end);
  }

  /** Character by character, the text before the edit and the new text together are as wide as the new text. */
  predicate WidthsRepeat(before: string, text: string, n: nat)
    requires n <= |text|
  {
    forall k :: 0 <= k < n ==> Width(Utf8, (before + text)[k]) == Width(Utf8, text[k])
  }

  lemma {:induction false} SameWidthsSamePos(before: string, text: string, k: nat)
    requires k <= |text| && WidthsRepeat(before, text, k)
    ensures Pos(Utf8, before + text, k) == Pos(Utf8, text, k) && Pos(Utf16, before + text, k) == Pos(Utf16, text, k)
  {
    if k > 0 {
      SameWidthsSamePos(before, text, k - 1);
      PosNext(Utf8, before + text, k - 1);
      PosNext(Utf8, text, k - 1);
      PosNext(Utf16, before + text, k - 1);
      PosNext(Utf16, text, k - 1);
    }
  }

  lemma NoDrift(before: string, text: string, units: nat)
    requires WidthsRepeat(before, text, |text|) && units <= Units(text)
    ensures Drift(before, text, units) == 0
  {
    hide Length;
    var k := Ceiling(Utf16, text, units);
    forall j: nat | j <= |text|
      ensures Pos(Utf16, before + text, j) == Pos(Utf16, text, j) && Pos(Utf8, before + text, j) == Pos(Utf8, text, j)
    {
      SameWidthsSamePos(before, text, j);
    }
    assert text[..|text|] == text && before + text + "" == before + text;
    CeilingUnique(Utf16, before + text, units, k);
    DriftIs(before, text, "", units);
  }

  /** At the first character where the widths differ, there is drift. */
  lemma SomeDrift(before: string, text: string, k: nat)
    requires k < |text| && WidthsRepeat(before, text, k) && !WidthsRepeat(before, text, k + 1)
    ensures var units := Pos(Utf16, text, k) + 1; units <= Units(text) && Drift(before, text, units) != 0
  {
    SameWidthsSamePos(before, text, k);
    ConvertInside(Utf16, text, k);
    ConvertInside(Utf16, before + text, k);
    PosNext(Utf8, text, k);
    PosNext(Utf8, before + text, k);
    assert before + text + "" == before + text;
    DriftIs(before, text, "", Pos(Utf16, text, k) + 1);
  }

  /** Where the widths repeat, the selection is the requested one exactly when the edit replaced nothing. */
  lemma ExplicitSelectionCorrectIffInsertion(s: string, r: Range, newText: string, n: Range)
    requires WidthsRepeat(Before(s, r.start), newText, |newText|)
    requires n.start <= Units(newText) && n.end <= Units(newText)
    ensures SelectsAsked(s, r, newText, n) <==> r.start == r.end
  {
    ExplicitSelectionCorrectIff(s, r, newText, n);
    NoDrift(Before(s, r.start), newText, n.start);
    NoDrift(Before(s, r.start), newText, n.end);
  }

  /** They do at the start of the content, and when all characters have one width. */
  lemma WidthsRepeatAtStartOrUniform(before: string, text: string, w: nat)
    requires before == "" || forall c :: c in before + text ==> Width(Utf8, c) == w
    ensures WidthsRepeat(before, text, |text|)
  {
    forall k | 0 <= k < |text| ensures Width(Utf8, (before + text)[k]) == Width(Utf8, text[k]) {
      assert (before + text)[k] in before + text && (before + text)[|before| + k] in before + text;
    }
  }

  /** Every selection inside the new text comes out as requested exactly for insertions where the widths repeat. */
  lemma EverySelectionCorrectIff(s: string, r: Range, newText: string)
    ensures (forall n: Range :: n.start <= n.end <= Units(newText) ==> SelectsAsked(s, r, newText, n))
            <==> r.start == r.end && WidthsRepeat(Before(s, r.start), newText, |newText|)
  {
    hide WidthsRepeat;
    hide SelectsAsked;
    hide Drift;
    var before := Before(s, r.start);
    if r.start == r.end && WidthsRepeat(before, newText, |newText|) {
      forall n: Range | n.start <= n.end <= Units(newText) ensures SelectsAsked(s, r, newText, n) {
        ExplicitSelectionCorrectIffInsertion(s, r, newText, n);
      }
    }
    if forall n: Range :: n.start <= n.end <= Units(newText) ==> SelectsAsked(s, r, newText, n) {
      ExplicitSelectionCorrectIff(s, r, newText, Range(0, 0));
      if !WidthsRepeat(before, newText, |newText|) {
        var k := FirstDifference(before, newText, |newText|);
        SomeDrift(before, newText, k);
        var units := Pos(Utf16, newText, k) + 1;
        ExplicitSelectionCorrectIff(s, r, newText, Range(units, units));
      }
    }
  }

  lemma {:induction false} FirstDifference(before: string, text: string, n: nat) returns (k: nat)
    requires n <= |text| && !WidthsRepeat(before, text, n)
    ensures k < n && WidthsRepeat(before, text, k) && !WidthsRepeat(before, text, k + 1)
  {
    if WidthsRepeat(before, text, n - 1) {
      k := n - 1;
    } else {
      k := FirstDifference(before, text, n - 1);
    }
  }

  /** A place in the text from the boundary at `k` on is a place in the rest. */
  lemma BoundaryBehind(s: string, k: nat, bytes: nat)
    requires k <= |s|
    ensures OnBoundary(s, Pos(Utf8, s, k) + bytes) <==> OnBoundary(s[k..], bytes)
  {
    var a, b := s[..k], s[k..];
    assert a + b == s && Pos(Utf8, s, k) == Bytes(a);
    forall j: nat | j <= |b| ensures Pos(Utf8, s, k + j) == Bytes(a) + Pos(Utf8, b, j) { PosConcat(Utf8, a, b, j); }
    hide Pos;
    if OnBoundary(b, bytes) {
      var j: nat :| j <= |b| && Pos(Utf8, b, j) == bytes;
      assert Pos(Utf8, s, k + j) == Bytes(a) + bytes;
    }
    if OnBoundary(s, Bytes(a) + bytes) {
      var i: nat :| i <= |s| && Pos(Utf8, s, i) == Bytes(a) + bytes;
      if i < k { PosIncreases(Utf8, s, i, k); }
      assert Pos(Utf8, s, k + (i - k)) == Bytes(a) + Pos(Utf8, b, i - k);
    }
  }

  lemma BoundaryOfRest(s: string, units: nat, bytes: nat)
    ensures OnBoundary(s, Convert(Utf16, s, units) + bytes) <==> OnBoundary(Rest(s, units), bytes)
  {
    BoundaryBehind(s, Ceiling(Utf16, s, units), bytes);
  }

  /**
   * When an explicit selection is a range of the new content: whole characters have to
   * take up the shift of each end, behind the units that were asked for. The order of the
   * ends is only in question when the edit or the request had them out of order.
   */
  lemma ExplicitSelectionValidIff(content: string, r: Range, n: Range)
    ensures var selected := Selected(content, r, n);
            && (RangeOk(content, selected) <==>
                  && selected.start <= selected.end
                  && OnBoundary(Rest(content, n.start), r.start) && OnBoundary(Rest(content, n.end), r.end))
            && (r.start <= r.end && n.start <= n.end ==> selected.start <= selected.end)
  {
    hide Length;
    hide IsBoundary;
    BoundaryOfRest(content, n.start, r.start);
    BoundaryOfRest(content, n.end, r.end);
    if n.start <= n.end { ConvertIsMonotone(Utf16, content, n.start, n.end); }
    var selected := Selected(content, r, n);
    if OnBoundary(content, selected.end) { BoundaryWithin(content, selected.end); }
  }

  predicate OneByte(s: string) {
    forall c :: c in s ==> Width(Utf8, c) == 1
  }

  lemma {:induction false} OneByteLength(s: string)
    requires OneByte(s)
    ensures Bytes(s) == Units(s) == |s|
  {
    if s != [] { OneByteLength(s[..|s| - 1]); }
  }

  lemma OneByteConvert(s: string, units: nat)
    requires OneByte(s)
    ensures |Rest(s, units)| == if units <= |s| then |s| - units else 0
  {
    forall k: nat | k <= |s| ensures Pos(Utf16, s, k) == k { OneByteLength(s[..k]); }
    CeilingUnique(Utf16, s, units, if units <= |s| then units else |s|);
  }

  lemma OneByteBoundary(s: string, offset: nat)
    requires OneByte(s)
    ensures OnBoundary(s, offset) <==> offset <= |s|
  {
    OneByteLength(s);
    if offset <= |s| {
      OneByteLength(s[..offset]);
      assert Pos(Utf8, s, offset) == offset;
    }
    if OnBoundary(s, offset) { BoundaryWithin(s, offset); }
  }

  /** On one-byte characters that is a bound on the end of the selection. */
  lemma ExplicitSelectionStaysInOneByteText(s: string, r: Range, newText: string, n: Range)
    requires RangeOk(s, r) && n.start <= n.end && OneByte(s) && OneByte(newText)
    ensures var content := Spliced(s, r, newText);
            && |content| == |s| - (r.end - r.start) + |newText|
            && (RangeOk(content, Selected(content, r, n)) <==> r.end == 0 || n.end + r.end <= |content|)
  {
    hide Length;
    hide Ceiling;
    hide IsBoundary;
    var content := Spliced(s, r, newText);
    SpliceKeepsSides(s, r, newText);
    OneByteLength(s);
    OneByteLength(newText);
    OneByteLength(content);
    ExplicitSelectionValidIff(content, r, n);
    OneByteConvert(content, n.start);
    OneByteConvert(content, n.end);
    OneByteBoundary(Rest(content, n.start), r.start);
    OneByteBoundary(Rest(content, n.end), r.end);
  }

  /** The boundaries of a text of at most two characters. */
  lemma ShortText(s: string)
    requires 1 <= |s| <= 2
    ensures var a, u := Width(Utf8, s[0]), Width(Utf16, s[0]);
            && Bytes(s) == (if |s| == 2 then a + Width(Utf8, s[1]) else a)
            && Units(s) == (if |s| == 2 then u + Width(Utf16, s[1]) else u)
            && Convert(Utf16, s, 0) == 0 && Convert(Utf16, s, u) == a
            && OnBoundary(s, a) && Before(s, a) == s[..1] && After(s, a) == s[1..]
            && OnBoundary(s, Bytes(s)) && After(s, Bytes(s)) == ""
  {
    forall enc ensures Length(enc, s) == Pos(enc, s, |s|) && Pos(enc, s, 1) == Width(enc, s[0])
      ensures |s| == 2 ==> Pos(enc, s, 2) == Width(enc, s[0]) + Width(enc, s[1])
    {
      assert s[..|s|] == s;
      PosNext(enc, s, 0);
      if |s| == 2 { PosNext(enc, s, 1); }
    }
    CeilingOfBoundary(Utf16, s, 0);
    CeilingOfBoundary(Utf16, s, 1);
    CeilingOfBoundary(Utf8, s, 1);
    CeilingOfBoundary(Utf8, s, |s|);
  }

  /** An insertion behind a two-byte character: the selection is not the requested one, and ends outside the text. */
  lemma ExplicitSelectionLeavesText()
    ensures var s, r, n := [0xE9 as char], Range(2, 2), Range(0, 1);
            var content := Spliced(s, r, "a");
            && RangeOk(s, r) && n.end == Units("a")
            && Bytes(content) == 3 && Selected(content, r, n) == Range(2, 4) && !SelectsAsked(s, r, "a", n)
  {
    var s := [0xE9 as char];
    ShortText(s);
    ShortText("a");
    ShortText(s + "a");
    hide Length;
    hide Convert;
    hide IsBoundary;
    hide Before;
    hide After;
    assert Spliced(s, Range(2, 2), "a") == s + "a";
  }

  /** A replacement where the two errors cancel out. */
  lemma ExplicitSelectionRightByChance()
    ensures var s, r, newText, n := "ab", Range(1, 2), [0xE9 as char], Range(0, 1);
            RangeOk(s, r) && n.end == Units(newText) && SelectsAsked(s, r, newText, n)
  {
    RightByChance("ab", [0xE9 as char]);
  }

  lemma RightByChance(s: string, newText: string)
    requires |s| == 2 && OneByte(s) && |newText| == 1 && Width(Utf8, newText[0]) == 2
    ensures RangeOk(s, Range(1, 2)) && Units(newText) == 1 && SelectsAsked(s, Range(1, 2), newText, Range(0, 1))
  {
    var content := [s[0], newText[0]];
    assert s[0] in s && s[1] in s;
    ShortText(s);
    ShortText(newText);
    ShortText(content);
    hide Length;
    hide Convert;
    hide IsBoundary;
    hide Before;
    hide After;
    assert s[..1] + newText == content;
    assert Spliced(s, Range(1, 2), newText) == content;
  }
}
