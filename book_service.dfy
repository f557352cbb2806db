/**
 * The book store: every operation reads the stored list of books, changes it
 * and writes it back. The stored file is modelled as the `books` field and
 * each write-back is counted in `saves`.
 */
module Books {
  import opened Wrappers

  /** A stored book. */
  datatype Book = Book(id: int, name: string, author: string, description: string, coverImage: string, bookFile: string)

  /** The fields a client supplies for a new or changed book. */
  datatype BookDto = BookDto(name: string, author: string, description: string, coverImage: string, bookFile: string)

  /** The message of the bad-request error raised when updating a missing book ("book does not exist"). */
  const NotFoundMessage: string := "书籍不存在"
  /** The message returned by a delete, whether or not a book was removed ("deleted"). */
  const DeletedMessage: string := "删除成功"

  /** The position of the first book with identifier `id` at or after `from`. */
  function FirstIndexFrom(books: seq<Book>, id: int, from: nat): (r: Option<nat>)
    requires from <= |books|
    ensures r.Some? ==> from <= r.value < |books| && books[r.value].id == id
    ensures r.Some? ==> forall j :: from <= j < r.value ==> books[j].id != id
    ensures r.None? <==> forall j :: from <= j < |books| ==> books[j].id != id
    decreases |books| - from
  {
    if from == |books| then None
    else if books[from].id == id then Some(from)
    else FirstIndexFrom(books, id, from + 1)
  }

  /** `books.findIndex(book => book.id === id)`, with `None` for -1: the position of the first book with the identifier. */
  function FirstIndex(books: seq<Book>, id: int): (r: Option<nat>)
    ensures r.Some? ==> r.value < |books| && books[r.value].id == id
    ensures r.Some? ==> forall j :: 0 <= j < r.value ==> books[j].id != id
    ensures r.None? <==> forall j :: 0 <= j < |books| ==> books[j].id != id
  {
    FirstIndexFrom(books, id, 0)
  }

  /** `books.find(book => book.id === id)`: the first book with that identifier. */
  function Find(books: seq<Book>, id: int): (r: Option<Book>)
    ensures r.None? <==> forall j :: 0 <= j < |books| ==> books[j].id != id
    ensures r.Some? ==> exists i :: 0 <= i < |books| && books[i] == r.value && r.value.id == id &&
                                    forall j :: 0 <= j < i ==> books[j].id != id
  {
    match FirstIndex(books, id)
    case None => None
    case Some(i) => Some(books[i])
  }

  /** The book `create` builds: the given identifier and the five fields of the DTO. */
  function FromDto(id: int, dto: BookDto): (b: Book)
    ensures b.id == id
    ensures BookDto(b.name, b.author, b.description, b.coverImage, b.bookFile) == dto
  {
    Book(id, dto.name, dto.author, dto.description, dto.coverImage, dto.bookFile)
  }

  /** A book with its five fields overwritten from the DTO; its identifier is kept. */
  function Patched(book: Book, dto: BookDto): (b: Book)
    ensures b == FromDto(book.id, dto)
  {
    book.(name := dto.name, author := dto.author, coverImage := dto.coverImage,
          bookFile := dto.bookFile, description := dto.description)
  }

  /** The list after `update`: the first match patched, or nothing when there is none. */
  function Updated(books: seq<Book>, id: int, dto: BookDto): (r: Option<seq<Book>>)
    ensures r.None? <==> FirstIndex(books, id).None?
    ensures r.Some? ==> |r.value| == |books|
  {
    match FirstIndex(books, id)
    case None => None
    case Some(i) => Some(books[i := Patched(books[i], dto)])
  }

  /** The list after `delete`: the first match spliced out, or the list itself when there is none. */
  function Removed(books: seq<Book>, id: int): (r: seq<Book>)
    ensures |r| == |books| - (if FirstIndex(books, id).Some? then 1 else 0)
  {
    match FirstIndex(books, id)
    case None => books
    case Some(i) => books[..i] + books[i + 1..]
  }

  /** The in-memory book service over the stored list. */
  class BookService {
    /** The stored books, in storage order. */
    var books: seq<Book>
    /** How many times the list has been written back. */
    var saves: nat

    constructor (stored: seq<Book>)
      ensures books == stored && saves == 0
    {
      books := stored;
      saves := 0;
    }

    /** `list()`: the stored list, unchanged. */
    method List() returns (r: seq<Book>)
      ensures r == books
    {
      r := books;
    }

    /** `findById(id)`: the first book with the identifier, if any. */
    method FindById(id: int) returns (r: Option<Book>)
      ensures r == Find(books, id)
    {
      r := Find(books, id);
    }

    /**
     * `create(dto)` with the generated identifier given as `id`: one book is
     * appended and the list written back. The identifier is not checked
     * against those already stored.
     */
    method Create(dto: BookDto, id: int) returns (book: Book)
      modifies this
      ensures book == FromDto(id, dto)
      ensures books == old(books) + [book]
      ensures saves == old(saves) + 1
    {
      book := FromDto(id, dto);
      books := books + [book];
      saves := saves + 1;
    }

    /**
     * `update(id, dto)`: the bad-request error when no book has the
     * identifier, with nothing written; otherwise the first such book is
     * patched in place and the list written back.
     */
    method Update(id: int, dto: BookDto) returns (r: Result<Book, string>)
      modifies this
      ensures r.Failure? <==> Find(old(books), id).None?
      ensures r.Failure? ==> r.error == NotFoundMessage && books == old(books) && saves == old(saves)
      ensures r.Success? ==>
        && r.value == FromDto(id, dto)
        && Updated(old(books), id, dto) == Some(books)
        && saves == old(saves) + 1
    {
      var found := FirstIndex(books, id);
      if found.None? {
        return Failure(NotFoundMessage);
      }
      var i := found.value;
      var foundBook := books[i];
      foundBook := foundBook.(name := dto.name);
      foundBook := foundBook.(author := dto.author);
      foundBook := foundBook.(coverImage := dto.coverImage);
      foundBook := foundBook.(bookFile := dto.bookFile);
      foundBook := foundBook.(description := dto.description);
      books := books[i := foundBook];
      saves := saves + 1;
      r := Success(foundBook);
    }

    /**
     * `delete(id)`: the first book with the identifier is spliced out and the
     * list written back; with no such book nothing is written. The same
     * message is returned either way.
     */
    method Delete(id: int) returns (message: string)
      modifies this
      ensures message == DeletedMessage
      ensures books == Removed(old(books), id)
      ensures saves == old(saves) + (if FirstIndex(old(books), id).Some? then 1 else 0)
    {
      var index := FirstIndex(books, id);
      if index.Some? {
        books := books[..index.value] + books[index.value + 1..];
        saves := saves + 1;
      }
      message := DeletedMessage;
    }
  }
}

/** What the store operations promise, stated over the list functions. */
module BookProperties {
  import opened Wrappers
  import opened Books

  /**
   * Creating a book whose identifier is already stored does not change what
   * `findById` returns for it: the earliest book shadows the new one.
   */
  lemma CreateDuplicateIsShadowed(books: seq<Book>, id: int, dto: BookDto)
    requires Find(books, id).Some?
    ensures Find(books + [FromDto(id, dto)], id) == Find(books, id)
  {
    FirstIndexAppendKeeps(books, [FromDto(id, dto)], id);
  }

  /** Creating a book with a fresh identifier makes it findable. */
  lemma CreateFreshIsFound(books: seq<Book>, id: int, dto: BookDto)
    requires Find(books, id).None?
    ensures Find(books + [FromDto(id, dto)], id) == Some(FromDto(id, dto))
  {
    assert FirstIndex([FromDto(id, dto)], id) == Some(0);
    FirstIndexAppendShifts(books, [FromDto(id, dto)], id);
  }

  /** A position holding the identifier with none before it is the first match. */
  lemma FirstIndexAt(books: seq<Book>, id: int, i: nat)
    requires i < |books| && books[i].id == id
    requires forall j :: 0 <= j < i ==> books[j].id != id
    ensures FirstIndex(books, id) == Some(i)
  {
  }

  /** Appending books never changes an existing first match. */
  lemma FirstIndexAppendKeeps(a: seq<Book>, b: seq<Book>, id: int)
    requires FirstIndex(a, id).Some?
    ensures FirstIndex(a + b, id) == FirstIndex(a, id)
  {
    var i := FirstIndex(a, id).value;
    assert (a + b)[i] == a[i];
    assert forall j :: 0 <= j < i ==> (a + b)[j] == a[j];
    FirstIndexAt(a + b, id, i);
  }

  /** With no match in the front part, the first match is the back part's, shifted. */
  lemma FirstIndexAppendShifts(a: seq<Book>, b: seq<Book>, id: int)
    requires FirstIndex(a, id).None? && FirstIndex(b, id).Some?
    ensures FirstIndex(a + b, id) == Some(|a| + FirstIndex(b, id).value)
  {
    var j := FirstIndex(b, id).value;
    assert (a + b)[|a| + j] == b[j];
    assert b[j].id == id;
    NoMatchBefore(a, b, id, j);
    FirstIndexAt(a + b, id, |a| + j);
  }

  /** No book in `a`, nor among the first `j` of `b`, has the identifier. */
  lemma NoMatchBefore(a: seq<Book>, b: seq<Book>, id: int, j: nat)
    requires FirstIndex(a, id).None? && j <= |b|
    requires forall k :: 0 <= k < j ==> b[k].id != id
    ensures forall k :: 0 <= k < |a| + j ==> (a + b)[k].id != id
  {
    forall k | 0 <= k < |a| + j
      ensures (a + b)[k].id != id
    {
      if k < |a| {
        assert (a + b)[k] == a[k];
      } else {
        assert (a + b)[k] == b[k - |a|];
      }
    }
  }

  /** With no match in either part there is none in the whole. */
  lemma FirstIndexAppendNone(a: seq<Book>, b: seq<Book>, id: int)
    requires FirstIndex(a, id).None? && FirstIndex(b, id).None?
    ensures FirstIndex(a + b, id).None?
  {
    var ab := a + b;
    forall k | 0 <= k < |ab|
      ensures ab[k].id != id
    {
      if k < |a| {
        assert ab[k] == a[k];
      } else {
        assert ab[k] == b[k - |a|];
      }
    }
  }

  /**
   * `update` of a stored identifier keeps the length, every identifier and
   * every book other than the first match; afterwards that identifier finds
   * the patched book.
   */
  lemma UpdateChangesOnlyFirstMatch(books: seq<Book>, id: int, dto: BookDto)
    requires Find(books, id).Some?
    ensures Updated(books, id, dto).Some?
    ensures var after := Updated(books, id, dto).value;
      var i := FirstIndex(books, id).value;
      && |after| == |books|
      && (forall j :: 0 <= j < |books| ==> after[j].id == books[j].id)
      && (forall j :: 0 <= j < |books| && j != i ==> after[j] == books[j])
      && Find(after, id) == Some(FromDto(id, dto))
  {
    var i := FirstIndex(books, id).value;
    var after := Updated(books, id, dto).value;
    FirstIndexSameIds(books, after, id);
  }

  /** `update` of a missing identifier fails and leaves the list as it was. */
  lemma UpdateMissingFails(books: seq<Book>, id: int, dto: BookDto)
    requires Find(books, id).None?
    ensures Updated(books, id, dto).None?
  {
  }

  /** Lists with the same identifiers at the same positions have the same first matches. */
  lemma FirstIndexSameIds(a: seq<Book>, b: seq<Book>, id: int)
    requires |a| == |b| && forall j :: 0 <= j < |a| ==> a[j].id == b[j].id
    ensures FirstIndex(a, id) == FirstIndex(b, id)
  {
    if FirstIndex(a, id).Some? {
      var i := FirstIndex(a, id).value;
      assert b[i].id == id;
    }
  }

  /** `update` does not change what any other identifier finds. */
  lemma UpdateKeepsOtherLookups(books: seq<Book>, id: int, dto: BookDto, other: int)
    requires Updated(books, id, dto).Some? && other != id
    ensures Find(Updated(books, id, dto).value, other) == Find(books, other)
  {
    var i := FirstIndex(books, id).value;
    var after := Updated(books, id, dto).value;
    FirstIndexSameIds(books, after, other);
    if FirstIndex(books, other).Some? {
      assert FirstIndex(books, other).value != i;
    }
  }

  /**
   * `delete` of a stored identifier removes exactly the first match and
   * keeps the others in their relative order.
   */
  lemma DeleteRemovesFirstMatch(books: seq<Book>, id: int)
    requires Find(books, id).Some?
    ensures var i := FirstIndex(books, id).value;
      && Removed(books, id) == books[..i] + books[i + 1..]
      && |Removed(books, id)| == |books| - 1
      && multiset(Removed(books, id)) + multiset{books[i]} == multiset(books)
  {
    var i := FirstIndex(books, id).value;
    assert books == books[..i] + [books[i]] + books[i + 1..];
  }

  /** `delete` of a missing identifier leaves the list as it was. */
  lemma DeleteMissingKeepsAll(books: seq<Book>, id: int)
    requires Find(books, id).None?
    ensures Removed(books, id) == books
  {
  }

  /** After `delete`, the identifier finds the next book that had it, if any. */
  lemma DeleteFindsNext(books: seq<Book>, id: int)
    requires Find(books, id).Some?
    ensures var i := FirstIndex(books, id).value;
      Find(Removed(books, id), id) == Find(books[i + 1..], id)
  {
    var i := FirstIndex(books, id).value;
    var before, after := books[..i], books[i + 1..];
    assert FirstIndex(before, id).None?;
    if FirstIndex(after, id).Some? {
      FirstIndexAppendShifts(before, after, id);
      assert (before + after)[i + FirstIndex(after, id).value] == after[FirstIndex(after, id).value];
    } else {
      FirstIndexAppendNone(before, after, id);
    }
  }

  /** Dropping position `i` keeps the books before it and moves the ones after it down by one. */
  lemma DropAt(books: seq<Book>, i: nat)
    requires i < |books|
    ensures var r := books[..i] + books[i + 1..];
      && |r| == |books| - 1
      && (forall j :: 0 <= j < i ==> r[j] == books[j])
      && (forall j :: i <= j < |r| ==> r[j] == books[j + 1])
  {
  }

  /** After `delete`, every other identifier finds what it found before. */
  lemma DeleteKeepsOtherLookups(books: seq<Book>, id: int, other: int)
    requires Find(books, id).Some? && other != id
    ensures Find(Removed(books, id), other) == Find(books, other)
  {
    var i := FirstIndex(books, id).value;
    var rest := books[..i] + books[i + 1..];
    assert Removed(books, id) == rest;
    DropAt(books, i);
    match FirstIndex(books, other)
    case None =>
      assert forall j :: 0 <= j < |rest| ==> rest[j].id != other;
    case Some(m) =>
      assert books[m] == rest[if m < i then m else m - 1];
      FirstIndexAt(rest, other, if m < i then m else m - 1);
  }

  /** Two books with one identifier: every lookup, update and delete acts on the earlier one. */
  lemma DuplicateExample(dto: BookDto)
    ensures var first, second := Book(7, "a", "x", "", "", ""), Book(7, "b", "y", "", "", "");
      var books := [first, second];
      && Find(books, 7) == Some(first)
      && Updated(books, 7, dto) == Some([FromDto(7, dto), second])
      && Removed(books, 7) == [second]
  {
    var first, second := Book(7, "a", "x", "", "", ""), Book(7, "b", "y", "", "", "");
    var books := [first, second];
    FirstIndexAt(books, 7, 0);
    assert Patched(first, dto) == FromDto(7, dto);
    assert books[0 := FromDto(7, dto)] == [FromDto(7, dto), second];
    assert books[..0] + books[1..] == [second];
  }
}
