# Book management system and score-sheet splitter, modelled in Dafny

The repository is a NestJS back end with two jobs. It keeps a list of books
in a JSON file, with multipart upload of a cover image and a book file. It
also splits a Word document holding many students' score sheets into one
document per sheet. This project models the core of both, plus the global
exception filter that turns errors into responses.

- **Document splitting** (`WordService`, `Segmenter`):
  - The extracted text is cut on the score-sheet title
    `2025年济南市第一次模拟考试成绩单`.
  - Failing that, it is cut into the lines that have content (`line.trim()`
    non-empty, kept untrimmed).
  - Failing that, the whole text is one segment.
  - Every segment other than `""` is written as a one-paragraph document
    `<stem>_段落<i+1>.docx` in the output directory. `i` is the segment's
    position in the unfiltered list, so the numbers skip the empty segments.
  - The result lists the written paths in order, with their count.
  - `processTestWordDocument` takes the first `.docx` name of the listing of
    `test/`. It fails before anything is created when there is none.
- **Book store** (`Books.BookService`). The stored list is the `books` field,
  and each write-back of the file is counted in `saves`.
  - `create` appends.
  - `update` patches the first book with the identifier in place, or fails
    with the bad request `书籍不存在` without writing.
  - `delete` splices out the first match. It writes only when there was one,
    and always answers `删除成功`.
- **Book controller** (`BookController`):
  - It builds the DTO from the form: defaults first, then one override per
    uploaded file, by field name, where the last file wins.
  - `update` keeps the stored book's file paths as defaults.
  - The upload filter accepts exactly the extensions `.jpg`, `.jpeg` and
    `.png`, case-sensitively.
  - `uploadFile` answers with the file name and `uploads/<filename>`.
- **Exception filter** (`ExceptionFilter`). It derives a status and message
  from an HTTP exception, another `Error`, or any other thrown value. From
  these it chooses a log level (error from 500, warning from 400) and builds
  the body `{code: status, message, data: null}`.

The splitting loop, the file system and the book store are imperative, as in
the source:
- `FileSystem.Disk` is a class whose `dirs` and `written` fields are updated
  by `EnsureDir` and `WriteFile`.
- `WordService.WriteSegments` is the index loop.
- `Books.BookService` is a class over the stored list.
- `BookController.ApplyUploads` is the `forEach` loop.

Each method is proved against a specification function:
- `Segmenter.Segments` for segment selection;
- `WordService.Planned` for the writes;
- `Books.Updated` and `Books.Removed` for the list changes;
- `BookController.LastUpload` for the upload loop.

The properties are lemmas about those functions.

Output files are numbered by the segment's position before filtering, so
the numbers can have gaps. Their names are `<stem>_段落<n>.docx`. Only the
empty segment `""` is skipped: a segment made only of whitespace, for
instance a piece between two markers that holds only a line break, is
written.

The listing of `test/` is taken in the order `readdirSync` returns it; on
POSIX systems Node sorts the names. The model holds for any order: "first"
always means first in the listing it is given.

## Model

| member | source | states |
|---|---|---|
| Segmenter.Segments | src/word/word.service.ts:28-37 | there is always at least one segment |
| Segmenter.MarkerSelfOverlapFree | src/word/word.service.ts:28 | no proper suffix of the marker is a prefix of it, so two occurrences cannot overlap |
| Segmenter.Lines | src/word/word.service.ts:31 | `text.split('\n')` always has at least one line |
| Segmenter.SegmentsByMarker | src/word/word.service.ts:28-34 | when the marker occurs, the segments are the split pieces, untouched, at least two; joining them with the marker gives back the text; no piece contains the marker |
| Segmenter.SegmentsByLines | src/word/word.service.ts:31-36 | without the marker but with some line that has content, the segments are exactly the lines with content: untrimmed, in text order, none dropped |
| Segmenter.SegmentsFallback | src/word/word.service.ts:32-37 | without the marker and without any line that has content, the text itself is the single segment |
| Segmenter.BlankTextIsOneSegment | src/word/word.service.ts:28-37 | empty or whitespace-only text is its own single segment |
| Segmenter.LeadingMarkerGivesEmptyFirstSegment | src/word/word.service.ts:28-34 | text that starts with the marker has `""` as its first segment |
| Strings.IndexOf | src/word/word.service.ts:28 | the leftmost occurrence of the separator, with none before it; `None` exactly when it never occurs |
| Strings.Split | src/word/word.service.ts:28 | `split` with a literal separator yields at least one piece; exactly one piece, the text itself, iff the separator does not occur |
| Strings.SplitStep | src/word/word.service.ts:28 | a split is the text before the first separator followed by the split of the rest, and the text is those parts around the separator |
| Strings.SplitAfterPiece | src/word/word.service.ts:28 | for a separator that cannot overlap itself, a piece without the separator followed by the separator splits off whole |
| Strings.SplitJoin | src/word/word.service.ts:28 | splitting then joining with the same separator gives back the text |
| Strings.SplitPiecesFree | src/word/word.service.ts:28 | no piece of a split contains the separator |
| Strings.SplitBlank | src/word/word.service.ts:31 | every piece of a split of a blank text is blank |
| Strings.LeadingWhitespace | src/word/word.service.ts:31 | counts the whitespace at the start of a string: all of it whitespace, and the next character is not |
| Strings.TrailingWhitespace | src/word/word.service.ts:31 | counts the whitespace at the end of a string: all of it whitespace, and the character before it is not |
| Strings.Trim | src/word/word.service.ts:31 | `trim()` is no longer than the line and, when non-empty, starts and ends with a character that is not whitespace |
| Strings.TrimEmptyIffBlank | src/word/word.service.ts:31 | `trim()` gives the falsy `""` exactly when the line is made only of ECMAScript whitespace and line terminators |
| Strings.DecimalString | src/word/word.service.ts:65 | the rendering of `i + 1` in a template literal is a non-empty string of decimal digits, with no leading zero unless the number is 0 |
| Strings.DecimalRoundTrip | src/word/word.service.ts:65 | reading back the rendered number gives the number |
| Strings.DecimalInjective | src/word/word.service.ts:65 | different numbers render differently |
| Sequences.Positions | src/word/word.service.ts:31 | the positions kept by `filter` are valid, pass the test and are strictly increasing |
| Sequences.PositionsComplete | src/word/word.service.ts:31 | every element that passes the test is at a kept position |
| Sequences.Filter | src/word/word.service.ts:31 | `filter` keeps exactly the elements at the kept positions, in order, unchanged |
| Sequences.FilterEmpty | src/word/word.service.ts:102-104 | the filtered list is empty iff no element passes |
| Sequences.FilterFirst | src/word/word.service.ts:102-109 | the first filtered element is the first passing element of the list |
| Sequences.FilterAppend | src/word/word.service.ts:31 | filtering distributes over concatenation |
| Paths.LastIndexOf | src/word/word.service.ts:64 | the last occurrence of a character, with none after it; `None` when it never occurs |
| Paths.PlainNameConcat | src/word/word.service.ts:65 | a concatenation has no slash iff neither part has one |
| Paths.Basename | src/word/word.service.ts:64 | `path.basename` is a slash-free suffix of the path, preceded by a slash when shorter than the path |
| Paths.ExtOfBase | src/book/book.controller.ts:131 | the extension of a base name is one of its suffixes; when non-empty it starts with its only dot and is shorter than the name; it is empty exactly when the name is `..` or has no dot after its first character |
| Paths.Extname | src/book/book.controller.ts:131 | `path.extname` ends the base name; when non-empty it starts with a dot, holds no other dot and is shorter than the base name; it is empty exactly when the base name is `..` or has no dot after its first character |
| Paths.Stem | src/word/word.service.ts:64 | `basename(p, extname(p))` followed by the extension is the base name |
| Paths.StemIsPlain | src/word/word.service.ts:64 | the stem holds no slash |
| Paths.BasenameAfterSlash | src/word/word.service.ts:66 | a slash-free name after a slash is the base name |
| Paths.BasenameOfJoin | src/word/word.service.ts:66 | joining a slash-free name onto any directory keeps it as the base name |
| Paths.JoinInjective | src/word/word.service.ts:66 | joining onto one directory never maps two names to one path |
| Paths.ExtnameOfName | src/book/book.controller.ts:131 | a name made of a stem and one dotted extension has exactly that extension |
| Paths.ExtnameOfTrailingDot | src/book/book.controller.ts:131 | a name ending in a dot, such as `a.`, has the extension `.` and the name before the dot as its stem |
| FileSystem.Disk.EnsureDir | src/word/word.service.ts:22-24 | afterwards the directory exists, other directories are kept and nothing is written |
| FileSystem.Disk.WriteFile | src/word/word.service.ts:70 | exactly one write is appended and the directories are unchanged |
| WordService.OutputPathInjective | src/word/word.service.ts:64-66 | different segment numbers give different output paths |
| WordService.PlannedAt | src/word/word.service.ts:42-66 | the k-th write holds the k-th non-empty segment and is numbered by that segment's position in the whole list plus one |
| WordService.WriteSegments | src/word/word.service.ts:42-74 | the loop appends exactly the planned writes, in order, creates no directory and returns their paths |
| WordService.SplitDocument | src/word/word.service.ts:16-87 | the output directory is created first; an extraction error is rethrown unchanged with nothing written; otherwise the planned files are written and the result reports them |
| WordService.FindInput | src/word/word.service.ts:101-109 | fails with the no-document error iff no name ends in `.docx`, else yields the first such name in listing order |
| WordService.ProcessTestWordDocument | src/word/word.service.ts:92-113 | without an input it fails and changes nothing; otherwise it splits `<cwd>/test/<first .docx>` into `<cwd>/file` |
| WordServiceProperties.ResultMatchesSegments | src/word/word.service.ts:42-81 | success; `count`, the number of files and the number of non-empty segments are equal; the k-th path is numbered by the k-th non-empty segment's position plus one and its document holds that segment |
| WordServiceProperties.PlannedPathsDistinct | src/word/word.service.ts:65-70 | no two files of one split share a path |
| WordServiceProperties.OutputFileNameIsPlain | src/word/word.service.ts:65 | an output name built on a slash-free stem has no slash |
| WordServiceProperties.OutputBasename | src/word/word.service.ts:64-66 | every output file's base name is `<stem of the input>_段落<n>.docx` |
| WordServiceProperties.EmptyFirstSegmentSkipsNumberOne | src/word/word.service.ts:42-65 | an empty first segment leaves no file numbered 1 |
| WordServiceProperties.LeadingMarkerSkipsNumberOne | src/word/word.service.ts:28-66 | text that starts with the marker produces no `_段落1` file |
| WordServiceProperties.EmptyTextWritesNothing | src/word/word.service.ts:37-44 | empty text produces no file |
| WordServiceProperties.BlankTextWritesOneFile | src/word/word.service.ts:31-44 | non-empty whitespace-only text produces exactly one file, numbered 1, holding the whole text |
| WordServiceExamples.SplitAfterFree | src/word/word.service.ts:28 | splitting right after a piece that cannot start the separator yields that piece first |
| WordServiceExamples.SplitFree | src/word/word.service.ts:28 | a piece that cannot start the separator is not split |
| WordServiceExamples.SplitThree | src/word/word.service.ts:28 | three pieces without the separator, joined by a separator that cannot overlap itself, split back into those three pieces |
| WordServiceExamples.TwoLineTextLines | src/word/word.service.ts:31 | `a\n\nb\n` splits into `a`, `""`, `b`, `""` |
| WordServiceExamples.TwoLineTextContent | src/word/word.service.ts:31 | of those, the filter keeps `a` and `b` |
| WordServiceExamples.TwoLineTextSegments | src/word/word.service.ts:31-36 | such a text without the marker has the segments `[a, b]` |
| WordServiceExamples.LinesExample | src/word/word.service.ts:31-36 | `"Hello\n\nWorld\n"` has the segments `["Hello", "World"]` |
| WordServiceExamples.MarkedTextSegments | src/word/word.service.ts:28-34 | for any pieces `a`, `b`, `c` that do not contain the marker, `a + marker + b + marker + c` has the segments `[a, b, c]`, even when `a` is empty |
| WordServiceExamples.LeadingMarkerNumbering | src/word/word.service.ts:28-66 | for any non-empty `x`, `y` that do not contain the marker, `marker + x + marker + y` has the segments `["", x, y]`; its files are numbered 2 and 3 |
| WordServiceExamples.FindInputTakesFirst | src/word/word.service.ts:101-109 | of `notes.txt`, `b.docx` and `a.docx`, `b.docx` is taken |
| WordServiceExamples.FindInputIsCaseSensitive | src/word/word.service.ts:102-105 | `report.DOCX` is not an input, so discovery fails |
| Books.FirstIndex | src/book/book.service.ts:59 | `findIndex`: the first position with the identifier, none before it; `None` iff no book has it |
| Books.Find | src/book/book.service.ts:21 | `find`: a book with the identifier at a position with no earlier match; `None` iff no book has it |
| Books.FromDto | src/book/book.service.ts:27-33 | the new book has the given identifier and exactly the five fields of the DTO |
| Books.Updated | src/book/book.service.ts:42-54 | there is no updated list exactly when no book has the identifier; otherwise it has the same length |
| Books.Removed | src/book/book.service.ts:59-63 | the list loses one book exactly when a book has the identifier, and is kept at its length otherwise |
| Books.Patched | src/book/book.service.ts:48-52 | the five fields are overwritten and the identifier is kept |
| Books.BookService.List | src/book/book.service.ts:14-17 | the stored list, unchanged |
| Books.BookService.FindById | src/book/book.service.ts:19-22 | the first book with the identifier, or nothing |
| Books.BookService.Create | src/book/book.service.ts:24-36 | exactly one book, built from the identifier and the DTO, is appended, and the list is written once |
| Books.BookService.Update | src/book/book.service.ts:39-55 | fails with `书籍不存在` iff no book has the identifier, then nothing changes or is written; otherwise the first match is patched in place, returned, and the list written once |
| Books.BookService.Delete | src/book/book.service.ts:57-65 | the first match is spliced out; the list is written iff there was one; the message is always `删除成功` |
| BookProperties.CreateDuplicateIsShadowed | src/book/book.service.ts:19-36 | a created book whose identifier is already stored is never found; the earlier book is |
| BookProperties.CreateFreshIsFound | src/book/book.service.ts:19-36 | a created book with a fresh identifier is found |
| BookProperties.FirstIndexAt | src/book/book.service.ts:59 | a match with none before it is the first match |
| BookProperties.FirstIndexAppendKeeps | src/book/book.service.ts:34 | appending keeps an existing first match |
| BookProperties.FirstIndexAppendShifts | src/book/book.service.ts:34 | with no match in front, the first match is the back part's, shifted |
| BookProperties.FirstIndexAppendNone | src/book/book.service.ts:34 | no match in either part means none in the whole |
| BookProperties.UpdateChangesOnlyFirstMatch | src/book/book.service.ts:42-54 | an update keeps the length, every identifier and every book but the first match; that identifier then finds the patched book |
| BookProperties.UpdateMissingFails | src/book/book.service.ts:42-47 | an update of a missing identifier fails |
| BookProperties.FirstIndexSameIds | src/book/book.service.ts:42-52 | lists with the same identifiers at the same positions have the same first matches |
| BookProperties.UpdateKeepsOtherLookups | src/book/book.service.ts:42-54 | an update changes what no other identifier finds |
| BookProperties.DeleteRemovesFirstMatch | src/book/book.service.ts:59-61 | a delete removes exactly the first match, one element, keeping the rest in order (as a multiset, the list minus that book) |
| BookProperties.DeleteMissingKeepsAll | src/book/book.service.ts:59-63 | a delete of a missing identifier keeps the list |
| BookProperties.DeleteFindsNext | src/book/book.service.ts:59-61 | after a delete, the identifier finds the next book that had it |
| BookProperties.DropAt | src/book/book.service.ts:61 | `splice(i, 1)` keeps the books before `i` and moves the later ones down by one |
| BookProperties.DeleteKeepsOtherLookups | src/book/book.service.ts:59-61 | a delete changes what no other identifier finds |
| BookProperties.DuplicateExample | src/book/book.service.ts:21-61 | with two books sharing an identifier, find, update and delete all act on the earlier one |
| BookController.UploadPath | src/book/book.controller.ts:60 | `uploads/<filename>` is the prefix followed by the file name |
| BookController.OrEmpty | src/book/book.controller.ts:52 | the description when sent, `''` otherwise |
| BookController.LastUpload | src/book/book.controller.ts:59-67 | `None` iff no file has the field; otherwise the upload path of a file with it and no later one |
| BookController.ApplyUploads | src/book/book.controller.ts:58-68 | name, author and description are kept; each file path is that of the last file under its field, or the default |
| BookController.CreateDefaults | src/book/book.controller.ts:49-55 | the create DTO starts without file paths |
| BookController.UpdateDefaults | src/book/book.controller.ts:89-99 | the update DTO starts as the create one, with the stored book's file paths when it exists |
| BookController.Create | src/book/book.controller.ts:44-71 | the stored book carries the sent name, author and description (or `''`), and the last cover and book-file uploads or `''`; it is appended |
| BookController.Update | src/book/book.controller.ts:83-115 | fails iff no book has the identifier, and then nothing is written; otherwise the first match gets the sent fields and the last uploads, else its own file paths, and the list is written once |
| BookController.FileFilter | src/book/book.controller.ts:130-137 | accepts iff the extension is `.jpg`, `.jpeg` or `.png`, else rejects with `File type is not supported` |
| BookController.UploadFile | src/book/book.controller.ts:140-145 | the file name, and the path `uploads/<file name>` |
| BookControllerProperties.LastFileWins | src/book/book.controller.ts:59-66 | the last file under a field sets that field's path |
| BookControllerProperties.OtherFieldIgnored | src/book/book.controller.ts:59-66 | a file under another field changes nothing for a field |
| BookControllerProperties.NoUploadsKeepDefaults | src/book/book.controller.ts:49-112 | without uploads, create stores empty paths and update keeps the stored ones |
| BookControllerProperties.UploadOrderExample | src/book/book.controller.ts:59-66 | covers `a` then `c` with a book file `b` between: the cover is `c`, the book file `b` |
| BookControllerProperties.FileFilterOfName | src/book/book.controller.ts:130-137 | for `stem.ext` the filter decides on `.ext` alone |
| BookControllerProperties.HiddenFileRejected | src/book/book.controller.ts:130-134 | a hidden file such as `.png` has no extension and is rejected |
| BookControllerProperties.ImageNamesAccepted | src/book/book.controller.ts:130-137 | `.png` and `.jpeg` files are accepted |
| BookControllerProperties.UpperCaseRejected | src/book/book.controller.ts:130-134 | `.PNG` is rejected |
| BookControllerProperties.LastExtensionCounts | src/book/book.controller.ts:130-134 | `x.png.gif` is rejected |
| BookControllerProperties.UploadPathIsJoin | src/book/book.controller.ts:140-145 | the upload path is `uploads` joined with the file name, whose base name it keeps |
| ExceptionFilter.HttpMessage | src/common/filters/http-exception.filter.ts:27-45 | an HTTP exception has no message (sent as `undefined`) exactly when its response's message list is empty; the other cases are the `ExceptionFilterProperties` lemmas below |
| ExceptionFilter.Derive | src/common/filters/http-exception.filter.ts:21-49 | status is the exception's own for an HTTP exception, else 500; the stack is kept only for a plain `Error`; the message is undefined iff the response's message list is empty |
| ExceptionFilter.LogLevelFor | src/common/filters/http-exception.filter.ts:65-80 | error iff status ≥ 500, warning iff 400 ≤ status < 500, nothing iff below 400 |
| ExceptionFilter.BodyMessage | src/common/filters/http-exception.filter.ts:84 | a defined message is sent as it is |
| ExceptionFilter.Catch | src/common/filters/http-exception.filter.ts:21-86 | the body's code is the derived status and its data null; the log level follows the status |
| ExceptionFilterProperties.NonErrorIsInternal | src/common/filters/http-exception.filter.ts:21-22 | a thrown non-`Error` gives 500, `Internal server error` and an error log |
| ExceptionFilterProperties.PlainErrorKeepsMessage | src/common/filters/http-exception.filter.ts:46-49 | a plain `Error` gives 500 with its own message and stack |
| ExceptionFilterProperties.TextResponseIsMessage | src/common/filters/http-exception.filter.ts:25-29 | a string response is the message verbatim, with the exception's status |
| ExceptionFilterProperties.ObjectResponseMessage | src/common/filters/http-exception.filter.ts:30-42 | a `message` list gives its first element, a string itself, anything else the exception's message |
| ExceptionFilterProperties.NoResponseMessageUsesOwn | src/common/filters/http-exception.filter.ts:43-45 | a response without `message` gives the exception's own message |
| ExceptionFilterProperties.EmptyMessageListGivesUndefined | src/common/filters/http-exception.filter.ts:38-39 | an empty message list gives the body message `undefined` |
| ExceptionFilterProperties.BodyMessageComesFromException | src/common/filters/http-exception.filter.ts:21-86 | the body message is the default, the exception's own, or one carried by its response, never anything else |
| ExceptionFilterProperties.LogLevelMonotone | src/common/filters/http-exception.filter.ts:66-80 | a higher status never gets a milder log level |
| ExceptionFilterProperties.BookNotFoundResponse | src/book/book.service.ts:46 | the missing-book error reaches the client as code 400 with `书籍不存在`, logged as a warning |
| ExceptionFilterProperties.ValidationFailureReportsFirst | src/common/filters/http-exception.filter.ts:38-39 | a list of validation messages reports its first one |

## Left out

- Text extraction (mammoth) is a parameter `extract` of the service methods, returning the text or an error. Building and packing the `.docx` bytes (docx `Document`/`Packer`) is reduced to a `SingleParagraph(text)` value.
- The file system is the `FileSystem.Disk` object: the set of existing directories and the ordered list of writes. A failing `mkdirSync` or `writeFileSync` is not modelled, nor the files a split wrote before such a failure. An error of `readdirSync` is not modelled either: the listing of `test/` is a parameter. `mkdirSync` with `recursive: true` also creates missing parent directories; `EnsureDir` adds only the named directory, since no property here depends on the parents.
- Node's `path` module is modelled for POSIX paths that have no trailing slash:
  - `basename` is the text after the last `/`;
  - `extname` follows Node, so it is empty for no dot, a leading-only dot, or `..`;
  - `join` puts exactly one `/` between a directory and a plain name.

  Normalisation of `.`, `..` and repeated slashes in `join` is not modelled. The working directory is a parameter `cwd`.
- `String.prototype.trim` is modelled over the ECMAScript whitespace and line-terminator characters. Strings are sequences of characters, not UTF-16 code units.
- Loggers, timestamps and the `JSON.stringify` of the request in the exception filter are not modelled. Neither is the `response.status().json()` call; `ExceptionFilter.Catch` returns the status, log level and body instead.
- `generateId` (`Math.random`) is the parameter `id` of `Create`.
- The database service is the `books` field of `Books.BookService`, with `saves` counting write-backs; reading and writing the JSON file are not modelled.
- The controller's `list`, `findById` and `delete` routes pass straight through to the service and are not modelled separately.
- Route parameters are modelled as integers. The global `ValidationPipe` with `transform` turns them into JavaScript numbers, which may also be fractional (`1.5`) or `NaN`; since stored identifiers are integers, such an identifier matches no book, as a missing integer one does. `NaN` and fractions are not modelled.
- Form fields `name` and `author` are strings. A missing one (`undefined`, stored as absent in the JSON) is not modelled. A sent but empty description is the same as a missing one, both giving `''`.
- The DTO validators, multer storage, the upload size limits and the NestJS decorators are not modelled. `async`/`await` becomes sequential code.
- An HTTP exception's message list is modelled as a list of strings; a non-string first element is not modelled.
