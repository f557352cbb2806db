/** Worked examples of the splitting service on concrete texts. */
module WordServiceExamples {
  import opened Wrappers
  import opened Sequences
  import opened Strings
  import Paths
  import opened Segmenter
  import opened WordService

  /** No character of `s` is `c`. */
  predicate Avoids(s: string, c: char) {
    forall k :: 0 <= k < |s| ==> s[k] != c
  }

  /** Splitting right after a piece that holds no character that could start the separator. */
  lemma SplitAfterFree(a: string, sep: string, rest: string)
    requires sep != "" && Avoids(a, sep[0])
    ensures Split(a + sep + rest, sep) == [a] + Split(rest, sep)
  {
    var s := a + sep + rest;
    forall k | 0 <= k < |a|
      ensures !OccursAt(s, sep, k)
    {
      assert s[k] == a[k];
      if k + |sep| <= |s| {
        assert s[k..k + |sep|][0] == s[k];
      }
    }
    SplitAtFirst(a, sep, rest);
  }

  /** A piece that holds no character that could start the separator is not split. */
  lemma SplitFree(c: string, sep: string)
    requires sep != "" && Avoids(c, sep[0])
    ensures Split(c, sep) == [c]
  {
    forall k: nat | k + |sep| <= |c|
      ensures !OccursAt(c, sep, k)
    {
      assert c[k..k + |sep|][0] == c[k];
    }
  }

  /**
   * Three pieces joined by a separator that cannot overlap itself split back
   * into the three pieces, provided none of them holds the separator.
   */
  lemma SplitThree(a: string, b: string, c: string, sep: string)
    requires sep != "" && SelfOverlapFree(sep)
    requires IndexOf(a, sep).None? && IndexOf(b, sep).None? && IndexOf(c, sep).None?
    ensures Split(a + sep + b + sep + c, sep) == [a, b, c]
  {
    var tail := b + sep + c;
    assert a + sep + b + sep + c == a + sep + tail;
    SplitAfterPiece(a, sep, tail);
    SplitAfterPiece(b, sep, c);
    assert [a] + ([b] + [c]) == [a, b, c];
  }

  /** Two lines with a blank line between them and a final line break. */
  function TwoLineText(a: string, b: string): string {
    a + "\n\n" + b + "\n"
  }

  /** Such a text splits into the two lines, the blank one and an empty last one. */
  lemma TwoLineTextLines(a: string, b: string)
    requires Avoids(a, '\n') && Avoids(b, '\n')
    ensures Lines(TwoLineText(a, b)) == [a, "", b, ""]
  {
    var nl := "\n";
    var tail := b + nl + "";
    var middle := "" + nl + tail;
    assert TwoLineText(a, b) == a + nl + middle;
    SplitAfterFree(a, nl, middle);
    SplitAfterFree("", nl, tail);
    SplitAfterFree(b, nl, "");
    SplitFree("", nl);
    Four(a, "", b, "");
  }

  /** A four-element list as nested concatenations. */
  lemma Four<T>(w: T, x: T, y: T, z: T)
    ensures [w] + ([x] + ([y] + [z])) == [w, x, y, z]
  {
  }

  /** Filtering a one-element list keeps the element exactly when it passes. */
  lemma FilterSingleton<T>(x: T, p: T -> bool)
    ensures Filter([x], p) == if p(x) then [x] else []
  {
    assert [x][..0] == [];
  }

  /** Of an element that passes and one that does not, only the first is kept. */
  lemma FilterPair<T>(x: T, y: T, p: T -> bool)
    requires p(x) && !p(y)
    ensures Filter([x, y], p) == [x]
  {
    FilterAppend([x], [y], p);
    FilterSingleton(x, p);
    FilterSingleton(y, p);
    assert [x] + [y] == [x, y];
  }

  /** Two such pairs in a row keep their first elements. */
  lemma FilterTwoPairs<T>(w: T, x: T, y: T, z: T, p: T -> bool)
    requires p(w) && !p(x) && p(y) && !p(z)
    ensures Filter([w, x, y, z], p) == [w, y]
  {
    assert [w, x, y, z] == [w, x] + [y, z];
    FilterAppend([w, x], [y, z], p);
    FilterPair(w, x, p);
    FilterPair(y, z, p);
  }

  /** Of the two lines, the blank line and the empty last one, the two lines are kept. */
  lemma TwoLineTextContent(a: string, b: string)
    requires HasContent(a) && HasContent(b)
    ensures Filter([a, "", b, ""], HasContent) == [a, b]
  {
    TrimEmptyIffBlank("");
    FilterTwoPairs(a, "", b, "", HasContent);
  }

  /** Without the marker, such a text gives the two lines as its segments. */
  lemma TwoLineTextSegments(a: string, b: string)
    requires Avoids(a, '\n') && Avoids(b, '\n') && HasContent(a) && HasContent(b)
    requires !HasMarker(TwoLineText(a, b))
    ensures Segments(TwoLineText(a, b)) == [a, b]
  {
    TwoLineTextLines(a, b);
    TwoLineTextContent(a, b);
  }

  /** A line starting with a character other than white space has content. */
  lemma NonBlankStart(line: string)
    requires |line| > 0 && !IsJsWhitespace(line[0])
    ensures HasContent(line)
  {
    TrimEmptyIffBlank(line);
  }

  /** A text shorter than the marker cannot hold it. */
  lemma ShortTextHasNoMarker(text: string)
    requires |text| < |Marker|
    ensures !HasMarker(text)
  {
  }

  /** The two lines of the example: no line break inside, and content. */
  lemma HelloWorldLines()
    ensures Avoids("Hello", '\n') && Avoids("World", '\n')
    ensures HasContent("Hello") && HasContent("World")
  {
    NonBlankStart("Hello");
    NonBlankStart("World");
  }

  /** "Hello\n\nWorld\n": the blank line is dropped, and the others are kept in order. */
  lemma LinesExample()
    ensures Segments("Hello\n\nWorld\n") == ["Hello", "World"]
  {
    var text := "Hello\n\nWorld\n";
    assert text == TwoLineText("Hello", "World");
    ShortTextHasNoMarker(text);
    HelloWorldLines();
    TwoLineTextSegments("Hello", "World");
  }

  /**
   * Three pieces without the marker, joined by the marker, come back as the
   * three segments, the first one even when empty.
   */
  lemma MarkedTextSegments(a: string, b: string, c: string)
    requires !HasMarker(a) && !HasMarker(b) && !HasMarker(c)
    ensures Segments(a + Marker + b + Marker + c) == [a, b, c]
  {
    MarkerSelfOverlapFree();
    SplitThree(a, b, c, Marker);
  }

  /** The numbering of the leading-marker example: the empty first segment uses up number 1. */
  lemma LeadingMarkerPlan(stem: string, dir: string, x: string, y: string)
    requires x != "" && y != ""
    ensures Planned(["", x, y], stem, dir) == [WriteOf(dir, stem, 2, x), WriteOf(dir, stem, 3, y)]
  {
    var segs := ["", x, y];
    assert segs[..0] == [] && segs[..1] == [""] && segs[..2] == ["", x] && segs[..3] == segs;
    assert Planned(segs[..1], stem, dir) == [];
    assert Planned(segs[..2], stem, dir) == [WriteOf(dir, stem, 2, x)];
  }

  /**
   * A text that opens with the marker followed by two reports: the empty
   * first segment is skipped, so the two files are numbered 2 and 3.
   */
  lemma LeadingMarkerNumbering(stem: string, dir: string, x: string, y: string)
    requires x != "" && y != "" && !HasMarker(x) && !HasMarker(y)
    ensures Segments(Marker + x + Marker + y) == ["", x, y]
    ensures Planned(Segments(Marker + x + Marker + y), stem, dir) ==
      [WriteOf(dir, stem, 2, x), WriteOf(dir, stem, 3, y)]
  {
    assert Marker + x + Marker + y == "" + Marker + x + Marker + y;
    MarkedTextSegments("", x, y);
    LeadingMarkerPlan(stem, dir, x, y);
  }

  /** The first `.docx` entry of the listing is taken, whatever follows it. */
  lemma FindInputTakesFirst()
    ensures FindInput(["notes.txt", "b.docx", "a.docx"]) == Success("b.docx")
  {
    var listing := ["notes.txt", "b.docx", "a.docx"];
    assert !IsDocx(listing[0]) && IsDocx(listing[1]);
  }

  /** The extension is compared exactly: an upper-case `.DOCX` is not an input. */
  lemma FindInputIsCaseSensitive()
    ensures FindInput(["notes.txt", "report.DOCX"]) == Failure(NoInputMessage)
  {
    var listing := ["notes.txt", "report.DOCX"];
    assert !IsDocx(listing[0]) && !IsDocx(listing[1]);
  }
}
