/**
 * How the splitting service cuts extracted document text into segments:
 * on the score-sheet title if it occurs, otherwise into the lines that have
 * content, otherwise the whole text as one segment.
 */
module Segmenter {
  import opened Sequences
  import opened Strings
  import opened Wrappers

  /** The title that starts each student's score sheet, used as the marker between segments. */
  const Marker: string := "2025年济南市第一次模拟考试成绩单"

  /** `text.split('\n')`. */
  function Lines(text: string): (lines: seq<string>)
    ensures |lines| >= 1
  {
    Split(text, "\n")
  }

  /** `text.split('\n').filter((line) => line.trim())`: lines with content, untrimmed, in order. */
  function ContentLines(text: string): seq<string> {
    Filter(Lines(text), HasContent)
  }

  /** The segment list the service iterates over. */
  function Segments(text: string): (segs: seq<string>)
    ensures |segs| >= 1
  {
    var pieces := Split(text, Marker);
    if |pieces| > 1 then pieces
    else
      var lines := ContentLines(text);
      if |lines| > 0 then lines else [text]
  }

  /** The marker occurs somewhere in `text`. */
  predicate HasMarker(text: string) {
    IndexOf(text, Marker).Some?
  }

  /**
   * With the marker present, the segments are the pieces between markers,
   * untouched, at least two of them, none containing the marker, and joining
   * them with the marker gives back the text.
   */
  lemma SegmentsByMarker(text: string)
    requires HasMarker(text)
    ensures var segs := Segments(text);
      && segs == Split(text, Marker)
      && |segs| > 1
      && Join(segs, Marker) == text
      && forall i, k :: 0 <= i < |segs| ==> !OccursAt(segs[i], Marker, k)
  {
    SplitJoin(text, Marker);
    SplitPiecesFree(text, Marker);
  }

  /**
   * Without the marker, and with some line that has content, the segments are
   * exactly the lines with content: each is some line of the text, unchanged,
   * they appear in the text's order, and no line with content is dropped.
   */
  lemma SegmentsByLines(text: string)
    requires !HasMarker(text)
    requires exists i :: 0 <= i < |Lines(text)| && HasContent(Lines(text)[i])
    ensures var segs := Segments(text);
      var lines := Lines(text);
      var ix := Positions(lines, HasContent);
      && segs == ContentLines(text)
      && |segs| == |ix| > 0
      && (forall k :: 0 <= k < |segs| ==> segs[k] == lines[ix[k]] && HasContent(segs[k]))
      && (forall k, l :: 0 <= k < l < |ix| ==> ix[k] < ix[l])
      && (forall j :: 0 <= j < |lines| && HasContent(lines[j]) ==> j in ix)
  {
    FilterEmpty(Lines(text), HasContent);
    PositionsComplete(Lines(text), HasContent);
  }

  /** Without the marker and without any line with content, the text is the single segment. */
  lemma SegmentsFallback(text: string)
    requires !HasMarker(text)
    requires forall i :: 0 <= i < |Lines(text)| ==> !HasContent(Lines(text)[i])
    ensures Segments(text) == [text]
  {
    FilterEmpty(Lines(text), HasContent);
  }

  /** A blank text (empty, or only whitespace and line breaks) is its own single segment. */
  lemma BlankTextIsOneSegment(text: string)
    requires IsBlank(text)
    ensures Segments(text) == [text]
  {
    forall k: nat | k + |Marker| <= |text|
      ensures !OccursAt(text, Marker, k)
    {
      assert IsJsWhitespace(text[k]) && !IsJsWhitespace(Marker[0]);
      assert text[k..k + |Marker|][0] == text[k];
    }
    SplitBlank(text, "\n");
    var lines := Lines(text);
    forall i | 0 <= i < |lines|
      ensures !HasContent(lines[i])
    {
      TrimEmptyIffBlank(lines[i]);
    }
    SegmentsFallback(text);
  }

  /** The marker at the very start of the text makes the first segment empty. */
  lemma LeadingMarkerGivesEmptyFirstSegment(text: string)
    requires |Marker| <= |text| && text[..|Marker|] == Marker
    ensures Segments(text)[0] == ""
  {
    assert OccursAt(text, Marker, 0);
    assert IndexOf(text, Marker) == Some(0);
  }

  /**
   * The marker cannot overlap itself: its first character `2` recurs only
   * at position 2, and what follows there differs.
   */
  lemma MarkerSelfOverlapFree()
    ensures SelfOverlapFree(Marker)
  {
    forall t | 0 < t < |Marker|
      ensures Marker[t..] != Marker[..|Marker| - t]
    {
      if t == 2 {
        assert Marker[t..][1] != Marker[..|Marker| - t][1];
      } else {
        assert Marker[t..][0] != Marker[..|Marker| - t][0];
      }
    }
  }
}
