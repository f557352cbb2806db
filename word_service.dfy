/**
 * The document splitting service: it finds the input document, creates the
 * output directory, cuts the extracted text into segments and writes one
 * single-paragraph document per non-empty segment, named after the input
 * file and the segment's position.
 */
module WordService {
  import opened Wrappers
  import opened Sequences
  import opened Strings
  import Paths
  import opened Segmenter
  import opened FileSystem

  /** The extension the service looks for and gives its output files. */
  const DocxExtension: string := ".docx"
  /** What stands between the input file's stem and the segment number in an output name ("paragraph"). */
  const SegmentInfix: string := "_段落"
  /** The message of the error thrown when the input directory holds no `.docx` file. */
  const NoInputMessage: string := "test 目录下没有找到 Word 文档"
  /** The input and output directories, relative to the working directory. */
  const InputDirName: string := "test"
  const OutputDirName: string := "file"

  /** What a successful split returns. */
  datatype SplitResult = SplitResult(success: bool, count: nat, files: seq<string>)

  /** A segment is processed unless it is the empty (falsy) string; a blank one is kept. */
  predicate IsNonEmpty(segment: string) {
    segment != ""
  }

  /** The name of the file for the segment numbered `index`: `<stem>_段落<index>.docx`. */
  function OutputFileName(stem: string, index: nat): string {
    stem + SegmentInfix + DecimalString(index) + DocxExtension
  }

  /** Where the file for the segment numbered `index` is written. */
  function OutputPath(dir: string, stem: string, index: nat): string {
    Paths.Join(dir, OutputFileName(stem, index))
  }

  /** Different segment numbers never give the same output path. */
  lemma OutputPathInjective(dir: string, stem: string, a: nat, b: nat)
    requires OutputPath(dir, stem, a) == OutputPath(dir, stem, b)
    ensures a == b
  {
    Paths.JoinInjective(dir, OutputFileName(stem, a), OutputFileName(stem, b));
    var x, y := OutputFileName(stem, a), OutputFileName(stem, b);
    var lo := |stem + SegmentInfix|;
    assert DecimalString(a) == x[lo..|x| - |DocxExtension|];
    assert DecimalString(b) == y[lo..|y| - |DocxExtension|];
    DecimalInjective(a, b);
  }

  /** The write for the segment `segment` numbered `index`. */
  function WriteOf(dir: string, stem: string, index: nat, segment: string): FileWrite {
    FileWrite(OutputPath(dir, stem, index), SingleParagraph(segment))
  }

  /**
   * The documents written for `segments`, in order: one per non-empty segment,
   * holding that segment and numbered by its position in the whole list.
   */
  function Planned(segments: seq<string>, stem: string, dir: string): (plan: seq<FileWrite>)
    decreases |segments|
  {
    if segments == [] then []
    else
      var n := |segments| - 1;
      Planned(segments[..n], stem, dir) +
        (if IsNonEmpty(segments[n]) then [WriteOf(dir, stem, n + 1, segments[n])] else [])
  }

  /**
   * The k-th document written holds the k-th non-empty segment and is
   * numbered by that segment's position in the whole list plus one, so the
   * numbers skip over empty segments.
   */
  lemma {:induction false} PlannedAt(segments: seq<string>, stem: string, dir: string)
    ensures var ix := Positions(segments, IsNonEmpty);
      var plan := Planned(segments, stem, dir);
      && |plan| == |ix|
      && forall k :: 0 <= k < |plan| ==> plan[k] == WriteOf(dir, stem, ix[k] + 1, segments[ix[k]])
    decreases |segments|
  {
    if segments != [] {
      var n := |segments| - 1;
      var prefix := segments[..n];
      PlannedAt(prefix, stem, dir);
      var ix, ixAll := Positions(prefix, IsNonEmpty), Positions(segments, IsNonEmpty);
      var plan, planAll := Planned(prefix, stem, dir), Planned(segments, stem, dir);
      assert ixAll == ix + (if IsNonEmpty(segments[n]) then [n] else []);
      assert planAll == plan + (if IsNonEmpty(segments[n]) then [WriteOf(dir, stem, n + 1, segments[n])] else []);
      forall k | 0 <= k < |planAll|
        ensures planAll[k] == WriteOf(dir, stem, ixAll[k] + 1, segments[ixAll[k]])
      {
        if k < |plan| {
          assert planAll[k] == plan[k] && ixAll[k] == ix[k];
          assert prefix[ix[k]] == segments[ix[k]];
        } else {
          assert ixAll[k] == n;
        }
      }
    }
  }

  /** The paths of the planned writes, in order. */
  function PathsOf(plan: seq<FileWrite>): (paths: seq<string>)
    ensures |paths| == |plan|
    ensures forall k :: 0 <= k < |plan| ==> paths[k] == plan[k].path
  {
    seq(|plan|, k requires 0 <= k < |plan| => plan[k].path)
  }

  /** The result reported after writing the files for `segments`. */
  function ResultFor(segments: seq<string>, stem: string, dir: string): SplitResult {
    var plan := Planned(segments, stem, dir);
    SplitResult(true, |plan|, PathsOf(plan))
  }

  /** The result of splitting the extracted `text` of `inputPath` into `outputDir`. */
  function ExpectedResult(inputPath: string, outputDir: string, text: string): SplitResult {
    ResultFor(Segments(text), Paths.Stem(inputPath), outputDir)
  }

  /** The outcome of a split given what extraction produced: its error re-thrown, or the result. */
  function Outcome(extracted: Result<string, string>, inputPath: string, outputDir: string): Result<SplitResult, string> {
    match extracted
    case Failure(e) => Failure(e)
    case Success(text) => Success(ExpectedResult(inputPath, outputDir, text))
  }

  /** The files a split writes given what extraction produced. */
  function WritesFor(extracted: Result<string, string>, inputPath: string, outputDir: string): seq<FileWrite> {
    match extracted
    case Failure(_) => []
    case Success(text) => Planned(Segments(text), Paths.Stem(inputPath), outputDir)
  }

  /**
   * The emission loop of `splitWordDocumentByParagraphs`: every non-empty
   * segment is written as a single-paragraph document numbered by its
   * position in `segments` plus one; empty segments are skipped, but still
   * use up their number.
   */
  method WriteSegments(disk: Disk, segments: seq<string>, stem: string, outputDir: string)
    returns (outputFiles: seq<string>)
    modifies disk
    ensures disk.dirs == old(disk.dirs)
    ensures disk.written == old(disk.written) + Planned(segments, stem, outputDir)
    ensures outputFiles == PathsOf(Planned(segments, stem, outputDir))
  {
    outputFiles := [];
    for i := 0 to |segments|
      invariant disk.dirs == old(disk.dirs)
      invariant disk.written == old(disk.written) + Planned(segments[..i], stem, outputDir)
      invariant outputFiles == PathsOf(Planned(segments[..i], stem, outputDir))
    {
      assert segments[..i + 1][..i] == segments[..i];
      var segment := segments[i];
      if segment == "" {
        continue;
      }
      var doc := SingleParagraph(segment);
      var outputPath := OutputPath(outputDir, stem, i + 1);
      ghost var before := Planned(segments[..i], stem, outputDir);
      ghost var w := WriteOf(outputDir, stem, i + 1, segment);
      assert (before + [w])[..|before|] == before;
      assert PathsOf(before + [w]) == PathsOf(before) + [outputPath];
      disk.WriteFile(outputPath, doc);
      outputFiles := outputFiles + [outputPath];
    }
    assert segments[..|segments|] == segments;
  }

  /**
   * `splitWordDocumentByParagraphs(inputPath, outputDir)`, with text
   * extraction given as `extract`. The output directory is created first,
   * so it exists even when extraction fails.
   */
  method SplitDocument(disk: Disk, extract: string -> Result<string, string>, inputPath: string, outputDir: string)
    returns (r: Result<SplitResult, string>)
    modifies disk
    ensures disk.dirs == old(disk.dirs) + {outputDir}
    ensures r == Outcome(extract(inputPath), inputPath, outputDir)
    ensures disk.written == old(disk.written) + WritesFor(extract(inputPath), inputPath, outputDir)
  {
    disk.EnsureDir(outputDir);
    var extracted := extract(inputPath);
    if extracted.Failure? {
      return Failure(extracted.error);
    }
    var segments := Segments(extracted.value);
    var outputFiles := WriteSegments(disk, segments, Paths.Stem(inputPath), outputDir);
    r := Success(SplitResult(true, |outputFiles|, outputFiles));
  }

  /** A directory entry the service takes as a Word document. */
  predicate IsDocx(name: string) {
    EndsWith(name, DocxExtension)
  }

  /** The input chosen from a directory listing: the first `.docx` entry in listing order, or the error. */
  function FindInput(listing: seq<string>): (r: Result<string, string>)
    ensures r.Failure? <==> forall i :: 0 <= i < |listing| ==> !IsDocx(listing[i])
    ensures r.Failure? ==> r.error == NoInputMessage
    ensures r.Success? ==> exists i :: 0 <= i < |listing| && listing[i] == r.value && IsDocx(r.value) &&
                                       forall j :: 0 <= j < i ==> !IsDocx(listing[j])
  {
    var docxFiles := Filter(listing, IsDocx);
    FilterEmpty(listing, IsDocx);
    if |docxFiles| == 0 then Failure(NoInputMessage)
    else
      FilterFirst(listing, IsDocx);
      var i := Positions(listing, IsDocx)[0];
      assert listing[i] == docxFiles[0];
      Success(docxFiles[0])
  }

  /**
   * `processTestWordDocument()`: pick the input from the listing of `<cwd>/test`
   * and split it into `<cwd>/file`. When there is no input nothing is created.
   */
  method ProcessTestWordDocument(disk: Disk, extract: string -> Result<string, string>, cwd: string, listing: seq<string>)
    returns (r: Result<SplitResult, string>)
    modifies disk
    ensures FindInput(listing).Failure? ==>
      r == Failure(NoInputMessage) && disk.dirs == old(disk.dirs) && disk.written == old(disk.written)
    ensures FindInput(listing).Success? ==>
      var inputPath := Paths.Join(Paths.Join(cwd, InputDirName), FindInput(listing).value);
      var outputDir := Paths.Join(cwd, OutputDirName);
      && disk.dirs == old(disk.dirs) + {outputDir}
      && r == Outcome(extract(inputPath), inputPath, outputDir)
      && disk.written == old(disk.written) + WritesFor(extract(inputPath), inputPath, outputDir)
  {
    var testDir := Paths.Join(cwd, InputDirName);
    var outputDir := Paths.Join(cwd, OutputDirName);
    var found := FindInput(listing);
    if found.Failure? {
      return Failure(found.error);
    }
    var inputPath := Paths.Join(testDir, found.value);
    r := SplitDocument(disk, extract, inputPath, outputDir);
  }
}

/** What a split produces, stated against the segment list, and worked examples. */
module WordServiceProperties {
  import opened Wrappers
  import opened Sequences
  import opened Strings
  import Paths
  import opened Segmenter
  import opened FileSystem
  import opened WordService

  /**
   * A split succeeds with as many files as there are non-empty segments; the
   * k-th file is written in the output directory, holds the k-th non-empty
   * segment and is numbered by that segment's position among all segments
   * plus one.
   */
  lemma ResultMatchesSegments(segments: seq<string>, stem: string, dir: string)
    ensures var res := ResultFor(segments, stem, dir);
      var kept := Filter(segments, IsNonEmpty);
      var ix := Positions(segments, IsNonEmpty);
      var plan := Planned(segments, stem, dir);
      && res.success
      && res.count == |res.files| == |kept| == |plan|
      && forall k :: 0 <= k < |res.files| ==>
           && res.files[k] == OutputPath(dir, stem, ix[k] + 1)
           && plan[k] == FileWrite(res.files[k], SingleParagraph(kept[k]))
  {
    PlannedAt(segments, stem, dir);
    var plan := Planned(segments, stem, dir);
    var ix := Positions(segments, IsNonEmpty);
    var kept := Filter(segments, IsNonEmpty);
    var files := PathsOf(plan);
    assert ResultFor(segments, stem, dir) == SplitResult(true, |plan|, files);
    forall k | 0 <= k < |files|
      ensures files[k] == OutputPath(dir, stem, ix[k] + 1)
      ensures plan[k] == FileWrite(files[k], SingleParagraph(kept[k]))
    {
      assert plan[k] == WriteOf(dir, stem, ix[k] + 1, segments[ix[k]]);
      assert kept[k] == segments[ix[k]];
    }
  }

  /** No two files of one split share a path, so none overwrites another. */
  lemma PlannedPathsDistinct(segments: seq<string>, stem: string, dir: string)
    ensures var plan := Planned(segments, stem, dir);
      forall k, l :: 0 <= k < l < |plan| ==> plan[k].path != plan[l].path
  {
    PlannedAt(segments, stem, dir);
    var plan := Planned(segments, stem, dir);
    var ix := Positions(segments, IsNonEmpty);
    forall k, l | 0 <= k < l < |plan|
      ensures plan[k].path != plan[l].path
    {
      if plan[k].path == plan[l].path {
        OutputPathInjective(dir, stem, ix[k] + 1, ix[l] + 1);
      }
    }
  }

  /** The fixed parts of an output name hold no slash. */
  lemma FixedPartsArePlain()
    ensures Paths.IsPlainName(SegmentInfix) && Paths.IsPlainName(DocxExtension)
  {
  }

  /** An output file name built on a slash-free stem is slash-free. */
  lemma OutputFileNameIsPlain(stem: string, index: nat)
    requires Paths.IsPlainName(stem)
    ensures Paths.IsPlainName(OutputFileName(stem, index))
  {
    var digits := DecimalString(index);
    FixedPartsArePlain();
    assert Paths.IsPlainName(digits);
    Paths.PlainNameConcat(stem, SegmentInfix);
    Paths.PlainNameConcat(stem + SegmentInfix, digits);
    Paths.PlainNameConcat(stem + SegmentInfix + digits, DocxExtension);
  }

  /** Every output file's base name is `<stem>_段落<n>.docx`, with the stem of the input file. */
  lemma OutputBasename(inputPath: string, dir: string, index: nat)
    ensures Paths.Basename(OutputPath(dir, Paths.Stem(inputPath), index)) ==
      Paths.Stem(inputPath) + SegmentInfix + DecimalString(index) + DocxExtension
  {
    var stem := Paths.Stem(inputPath);
    Paths.StemIsPlain(inputPath);
    OutputFileNameIsPlain(stem, index);
    Paths.BasenameOfJoin(dir, OutputFileName(stem, index));
  }

  /** An empty first segment leaves no file numbered 1. */
  lemma EmptyFirstSegmentSkipsNumberOne(segments: seq<string>, stem: string, dir: string)
    requires |segments| > 0 && segments[0] == ""
    ensures forall k :: 0 <= k < |Planned(segments, stem, dir)| ==> Planned(segments, stem, dir)[k].path != OutputPath(dir, stem, 1)
  {
    PlannedAt(segments, stem, dir);
    var ix := Positions(segments, IsNonEmpty);
    forall k | 0 <= k < |Planned(segments, stem, dir)|
      ensures Planned(segments, stem, dir)[k].path != OutputPath(dir, stem, 1)
    {
      if Planned(segments, stem, dir)[k].path == OutputPath(dir, stem, 1) {
        OutputPathInjective(dir, stem, ix[k] + 1, 1);
      }
    }
  }

  /** A text that starts with the marker yields no file numbered 1. */
  lemma LeadingMarkerSkipsNumberOne(inputPath: string, outputDir: string, text: string)
    requires |Marker| <= |text| && text[..|Marker|] == Marker
    ensures OutputPath(outputDir, Paths.Stem(inputPath), 1) !in ExpectedResult(inputPath, outputDir, text).files
  {
    LeadingMarkerGivesEmptyFirstSegment(text);
    EmptyFirstSegmentSkipsNumberOne(Segments(text), Paths.Stem(inputPath), outputDir);
  }

  /** Empty text yields no file at all. */
  lemma EmptyTextWritesNothing(inputPath: string, outputDir: string)
    ensures ExpectedResult(inputPath, outputDir, "").count == 0
    ensures ExpectedResult(inputPath, outputDir, "").files == []
  {
    BlankTextIsOneSegment("");
    assert Planned([""], Paths.Stem(inputPath), outputDir) == [];
  }

  /** Non-empty text made only of whitespace yields one file, numbered 1, holding the whole text. */
  lemma BlankTextWritesOneFile(inputPath: string, outputDir: string, text: string)
    requires text != "" && IsBlank(text)
    ensures ExpectedResult(inputPath, outputDir, text).files == [OutputPath(outputDir, Paths.Stem(inputPath), 1)]
    ensures Planned(Segments(text), Paths.Stem(inputPath), outputDir) == [WriteOf(outputDir, Paths.Stem(inputPath), 1, text)]
  {
    BlankTextIsOneSegment(text);
    var stem := Paths.Stem(inputPath);
    var plan := Planned([text], stem, outputDir);
    assert [text][..0] == [];
    assert Planned([text][..0], stem, outputDir) == [];
    assert plan == [] + [WriteOf(outputDir, stem, 0 + 1, [text][0])];
    assert PathsOf(plan) == [plan[0].path];
  }
}
