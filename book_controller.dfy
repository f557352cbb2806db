/**
 * The book controller's own logic: building the DTO from a multipart form
 * (defaults first, then one override per uploaded file), the extension
 * filter of the cover-image upload and the upload result.
 */
module BookController {
  import opened Wrappers
  import opened Books
  import Paths

  /** An uploaded file as the upload middleware describes it. */
  datatype UploadedFile = UploadedFile(fieldname: string, filename: string, originalname: string)

  /** The text fields of the form; a description that was not sent is `None`. */
  datatype FormBody = FormBody(name: string, author: string, description: Option<string>)

  /** What the upload filter decides for a file. */
  datatype FilterDecision = Accept | Reject(error: string)

  /** What `uploadFile` returns. */
  datatype UploadResult = UploadResult(fileName: string, filePath: string)

  /** The directory uploaded files are stored in, with its separator. */
  const UploadPrefix: string := "uploads/"
  /** The form fields that carry the two files of a book. */
  const CoverField: string := "coverImage"
  const BookFileField: string := "bookFile"
  /** The error the upload filter rejects a file with. */
  const UnsupportedTypeMessage: string := "File type is not supported"

  /** Where an uploaded file is served from: `uploads/<filename>`. */
  function UploadPath(filename: string): (p: string)
    ensures |p| == |UploadPrefix| + |filename|
    ensures p[..|UploadPrefix|] == UploadPrefix && p[|UploadPrefix|..] == filename
  {
    UploadPrefix + filename
  }

  /** `value || ''` for an optional string: a missing or empty value becomes `''`. */
  function OrEmpty(value: Option<string>): (s: string)
    ensures value.Some? ==> s == value.value
    ensures value.None? ==> s == ""
  {
    match value
    case None => ""
    case Some(v) => v
  }

  /** The path of the last file uploaded under `field`, if any. */
  function LastUpload(files: seq<UploadedFile>, field: string): (r: Option<string>)
    ensures r.None? <==> forall i :: 0 <= i < |files| ==> files[i].fieldname != field
    ensures r.Some? ==> exists i :: 0 <= i < |files| && files[i].fieldname == field &&
                                    r.value == UploadPath(files[i].filename) &&
                                    forall j :: i < j < |files| ==> files[j].fieldname != field
    decreases |files|
  {
    if files == [] then None
    else
      var last := files[|files| - 1];
      if last.fieldname == field then Some(UploadPath(last.filename))
      else
        var prefix := files[..|files| - 1];
        assert forall j :: 0 <= j < |prefix| ==> prefix[j] == files[j];
        LastUpload(prefix, field)
  }

  /**
   * The `files.forEach` loop of `create` and `update`: a file under
   * `coverImage` sets the cover path, one under `bookFile` the book-file
   * path, each to `uploads/<filename>`; other fields change nothing, and
   * the last file under a field wins.
   */
  method ApplyUploads(dto: BookDto, files: seq<UploadedFile>) returns (r: BookDto)
    ensures r.name == dto.name && r.author == dto.author && r.description == dto.description
    ensures r.coverImage == LastUpload(files, CoverField).GetOr(dto.coverImage)
    ensures r.bookFile == LastUpload(files, BookFileField).GetOr(dto.bookFile)
  {
    r := dto;
    for i := 0 to |files|
      invariant r.name == dto.name && r.author == dto.author && r.description == dto.description
      invariant r.coverImage == LastUpload(files[..i], CoverField).GetOr(dto.coverImage)
      invariant r.bookFile == LastUpload(files[..i], BookFileField).GetOr(dto.bookFile)
    {
      assert files[..i + 1][..i] == files[..i];
      var file := files[i];
      var filePath := UploadPrefix + file.filename;
      if file.fieldname == CoverField {
        r := r.(coverImage := filePath);
      } else if file.fieldname == BookFileField {
        r := r.(bookFile := filePath);
      }
    }
    assert files[..|files|] == files;
  }

  /** The DTO `create` starts from: name and author as sent, the description or `''`, no files. */
  function CreateDefaults(body: FormBody): (dto: BookDto)
    ensures dto.coverImage == "" && dto.bookFile == ""
  {
    BookDto(body.name, body.author, OrEmpty(body.description), "", "")
  }

  /** The DTO `update` starts from: as for `create`, but keeping the stored book's file paths. */
  function UpdateDefaults(body: FormBody, existing: Option<Book>): (dto: BookDto)
    ensures existing.None? ==> dto == CreateDefaults(body)
    ensures existing.Some? ==>
      dto == CreateDefaults(body).(coverImage := existing.value.coverImage, bookFile := existing.value.bookFile)
  {
    var coverImage := if existing.Some? then existing.value.coverImage else "";
    var bookFile := if existing.Some? then existing.value.bookFile else "";
    BookDto(body.name, body.author, OrEmpty(body.description), coverImage, bookFile)
  }

  /** The five client-supplied fields of a book. */
  function DtoOf(book: Book): BookDto {
    BookDto(book.name, book.author, book.description, book.coverImage, book.bookFile)
  }

  /** `create(body, files)` with the generated identifier given as `id`. */
  method Create(service: BookService, body: FormBody, files: seq<UploadedFile>, id: int) returns (book: Book)
    modifies service
    ensures book.id == id && book.name == body.name && book.author == body.author
    ensures book.description == OrEmpty(body.description)
    ensures book.coverImage == LastUpload(files, CoverField).GetOr("")
    ensures book.bookFile == LastUpload(files, BookFileField).GetOr("")
    ensures service.books == old(service.books) + [book]
    ensures service.saves == old(service.saves) + 1
  {
    var createBookDto := CreateDefaults(body);
    createBookDto := ApplyUploads(createBookDto, files);
    book := service.Create(createBookDto, id);
  }

  /**
   * `update(id, body, files)`: the stored book is looked up first so that
   * its file paths survive when no new file is sent for them; the service
   * then patches the first book with the identifier or fails.
   */
  method Update(service: BookService, id: int, body: FormBody, files: seq<UploadedFile>) returns (r: Result<Book, string>)
    modifies service
    ensures var existing := Find(old(service.books), id);
      && (r.Failure? <==> existing.None?)
      && (r.Failure? ==> r.error == NotFoundMessage && service.books == old(service.books))
      && (r.Success? ==>
            && r.value.id == id && r.value.name == body.name && r.value.author == body.author
            && r.value.description == OrEmpty(body.description)
            && r.value.coverImage == LastUpload(files, CoverField).GetOr(existing.value.coverImage)
            && r.value.bookFile == LastUpload(files, BookFileField).GetOr(existing.value.bookFile)
            && Updated(old(service.books), id, DtoOf(r.value)) == Some(service.books))
    ensures service.saves == old(service.saves) + (if r.Success? then 1 else 0)
  {
    var existingBook := service.FindById(id);
    var updateBookDto := UpdateDefaults(body, existingBook);
    updateBookDto := ApplyUploads(updateBookDto, files);
    r := service.Update(id, updateBookDto);
  }

  /** The extensions the upload filter accepts, compared case-sensitively. */
  predicate IsImageExtension(ext: string) {
    ext == ".jpg" || ext == ".jpeg" || ext == ".png"
  }

  /** The upload filter: a file is accepted exactly when its extension is `.jpg`, `.jpeg` or `.png`. */
  function FileFilter(originalname: string): (d: FilterDecision)
    ensures d.Accept? <==> IsImageExtension(Paths.Extname(originalname))
    ensures d.Reject? ==> d.error == UnsupportedTypeMessage
  {
    var ext := Paths.Extname(originalname);
    if ext != ".jpg" && ext != ".jpeg" && ext != ".png" then Reject(UnsupportedTypeMessage)
    else Accept
  }

  /** `uploadFile(file)`: the stored file name and the path it is served from. */
  function UploadFile(file: UploadedFile): (r: UploadResult)
    ensures r.fileName == file.filename
    ensures r.filePath == UploadPath(r.fileName)
  {
    UploadResult(file.filename, UploadPrefix + file.filename)
  }
}

/** What the controller's assembly, filter and upload result promise. */
module BookControllerProperties {
  import opened Wrappers
  import opened Books
  import opened BookController
  import Paths

  /** A file that is not the last under its field is overridden by the later one. */
  lemma LastFileWins(files: seq<UploadedFile>, file: UploadedFile)
    ensures LastUpload(files + [file], file.fieldname) == Some(UploadPath(file.filename))
  {
    assert (files + [file])[|files + [file]| - 1] == file;
  }

  /** A file under any other field leaves a field's path as it was. */
  lemma OtherFieldIgnored(files: seq<UploadedFile>, file: UploadedFile, field: string)
    requires file.fieldname != field
    ensures LastUpload(files + [file], field) == LastUpload(files, field)
  {
    assert (files + [file])[..|files|] == files;
  }

  /** Without uploads, `create` stores empty file paths and `update` keeps the stored ones. */
  lemma NoUploadsKeepDefaults(body: FormBody, existing: Book)
    ensures LastUpload([], CoverField).GetOr(UpdateDefaults(body, Some(existing)).coverImage) == existing.coverImage
    ensures LastUpload([], BookFileField).GetOr(UpdateDefaults(body, Some(existing)).bookFile) == existing.bookFile
    ensures LastUpload([], CoverField).GetOr(CreateDefaults(body).coverImage) == ""
  {
  }

  /**
   * Two covers and a book file uploaded in that order: the second cover
   * wins, and the book file is set independently.
   */
  lemma UploadOrderExample(a: string, b: string, c: string)
    ensures var files := [UploadedFile(CoverField, a, "a.png"), UploadedFile(BookFileField, b, "b.pdf"),
                          UploadedFile(CoverField, c, "c.png")];
      && LastUpload(files, CoverField) == Some(UploadPath(c))
      && LastUpload(files, BookFileField) == Some(UploadPath(b))
  {
    var f1, f2, f3 := UploadedFile(CoverField, a, "a.png"), UploadedFile(BookFileField, b, "b.pdf"),
                      UploadedFile(CoverField, c, "c.png");
    LastFileWins([f1, f2], f3);
    assert [f1, f2, f3] == [f1, f2] + [f3];
    OtherFieldIgnored([f1, f2], f3, BookFileField);
    LastFileWins([f1], f2);
    assert [f1, f2] == [f1] + [f2];
  }

  /**
   * For a slash-free name made of a non-empty stem and one dotted extension,
   * the filter looks at that extension alone.
   */
  lemma FileFilterOfName(stem: string, ext: string)
    requires stem != "" && Paths.IsPlainName(stem)
    requires |ext| > 1 && ext[0] == '.' && Paths.IsPlainName(ext)
    requires forall j :: 1 <= j < |ext| ==> ext[j] != '.'
    ensures FileFilter(stem + ext).Accept? <==> IsImageExtension(ext)
  {
    Paths.ExtnameOfName(stem, ext);
  }

  /** A hidden file such as `.png` has no extension, so it is rejected. */
  lemma HiddenFileRejected(name: string)
    requires |name| > 0 && name[0] == '.' && Paths.IsPlainName(name)
    requires forall j :: 1 <= j < |name| ==> name[j] != '.'
    ensures FileFilter(name) == Reject(UnsupportedTypeMessage)
  {
    assert Paths.LastIndexOf(name, '/').None?;
    assert Paths.Basename(name) == name;
    assert Paths.LastIndexOf(name, '.') == Some(0);
  }

  /** `.png` and `.jpeg` names are accepted. */
  lemma ImageNamesAccepted(stem: string)
    requires stem != "" && Paths.IsPlainName(stem)
    ensures FileFilter(stem + ".png").Accept?
    ensures FileFilter(stem + ".jpeg").Accept?
  {
    PngIsExtension();
    FileFilterOfName(stem, ".png");
    JpegIsExtension();
    FileFilterOfName(stem, ".jpeg");
  }

  /** `.png` is a dotted, slash-free extension with no further dot. */
  lemma PngIsExtension()
    ensures Paths.IsPlainName(".png") && forall j :: 1 <= j < |".png"| ==> ".png"[j] != '.'
  {
  }

  /** `.jpeg` is a dotted, slash-free extension with no further dot. */
  lemma JpegIsExtension()
    ensures Paths.IsPlainName(".jpeg") && forall j :: 1 <= j < |".jpeg"| ==> ".jpeg"[j] != '.'
  {
  }

  /** The comparison is case-sensitive: `.PNG` is rejected. */
  lemma UpperCaseRejected(stem: string)
    requires stem != "" && Paths.IsPlainName(stem)
    ensures FileFilter(stem + ".PNG").Reject?
  {
    assert Paths.IsPlainName(".PNG") && forall j :: 1 <= j < |".PNG"| ==> ".PNG"[j] != '.';
    FileFilterOfName(stem, ".PNG");
    assert ".PNG"[1] != ".png"[1] && ".PNG"[1] != ".jpg"[1] && |".PNG"| != |".jpeg"|;
  }

  /** Only the last extension counts: `.png.gif` is rejected. */
  lemma LastExtensionCounts(stem: string)
    requires stem != "" && Paths.IsPlainName(stem)
    ensures FileFilter(stem + ".png" + ".gif").Reject?
  {
    PngIsExtension();
    Paths.PlainNameConcat(stem, ".png");
    assert Paths.IsPlainName(".gif") && forall j :: 1 <= j < |".gif"| ==> ".gif"[j] != '.';
    FileFilterOfName(stem + ".png", ".gif");
    assert ".gif"[1] != ".png"[1] && ".gif"[1] != ".jpg"[1] && |".gif"| != |".jpeg"|;
  }

  /** The upload path is the upload directory joined with the file name, whose base name it keeps. */
  lemma UploadPathIsJoin(file: UploadedFile)
    requires file.filename != "" && Paths.IsPlainName(file.filename)
    ensures UploadFile(file).filePath == Paths.Join("uploads", file.filename)
    ensures Paths.Basename(UploadFile(file).filePath) == UploadFile(file).fileName
  {
    Paths.BasenameOfJoin("uploads", file.filename);
  }
}
