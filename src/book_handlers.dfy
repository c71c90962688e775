/**
 * The lookup and delete handlers of the book API
 * (Lab-0.3/BookManagement/BookManagement/Features/Books/): `GetBookByIdByPageHandler`,
 * `GetBookByIdHandler` and `DeleteBookHandler`. The two queries read the table and
 * change nothing, so they are functions of its rows; the delete changes the table and
 * is a method of `BookStore`.
 */
module BookHandlers {
  import opened Wrappers
  import opened Numerics
  import opened Validation
  import opened BookModel
  import opened BookValidators
  import opened BookOrder
  import opened BookPaging

  // ---------------------------------------------------------------------------
  // GetBookByIdByPageHandler
  // ---------------------------------------------------------------------------

  /** Position `i` of a table of `count` rows lies on the page that starts at `skip` and holds `size` rows. */
  predicate OnPage(skip: int, size: int, count: int, i: int) {
    skip <= i < skip + size && 0 <= i < count
  }

  /**
   * `.Skip(skip).Take(size)` on the ordered rows, then `FirstOrDefault(b => b.Id == id)`:
   * a book with the id at a position of that page, if there is one.
   */
  function LookupOnPage(sorted: seq<Book>, skip: int, size: int, id: Guid): (found: Option<Book>)
    ensures found.Some? ==> found.value.id == id && found.value in sorted
    ensures skip >= 0 && size >= 0 ==>
      (found.Some? <==> exists i :: OnPage(skip, size, |sorted|, i) && sorted[i].id == id)
  {
    var found := FirstWithId(SkipTake(sorted, skip, size), id);
    FoundOnSlice(sorted, skip, size, id, found);
    found
  }

  lemma {:induction false} FoundOnSlice(s: seq<Book>, skip: int, size: int, id: Guid, found: Option<Book>)
    requires found == FirstWithId(SkipTake(s, skip, size), id)
    ensures found.Some? ==> found.value in s
    ensures skip >= 0 && size >= 0 ==>
      (found.Some? <==> exists i :: OnPage(skip, size, |s|, i) && s[i].id == id)
  {
    var page := SkipTake(s, skip, size);
    if found.Some? {
      var k :| FirstIndexOf(page, id, k) && page[k] == found.value;
      PageEntryStored(s, skip, size, k);
    }
    if skip >= 0 && size >= 0 && exists i :: OnPage(skip, size, |s|, i) && s[i].id == id {
      var i :| OnPage(skip, size, |s|, i) && s[i].id == id;
      StoredOnPage(s, skip, size, i);
    }
  }

  /** Position `k` of a page is a stored row, which lies on the page when the window is not negative. */
  lemma PageEntryStored(s: seq<Book>, skip: int, size: int, k: int)
    requires 0 <= k < |SkipTake(s, skip, size)|
    ensures SkipTake(s, skip, size)[k] in s
    ensures skip >= 0 && size >= 0 ==> OnPage(skip, size, |s|, skip + k) && s[skip + k] == SkipTake(s, skip, size)[k]
  {
    var from := if skip <= 0 then 0 else skip;
    assert s[from + k] == SkipTake(s, skip, size)[k];
  }

  /** A stored row inside a non-negative window is on the page. */
  lemma StoredOnPage(s: seq<Book>, skip: int, size: int, i: int)
    requires skip >= 0 && size >= 0 && OnPage(skip, size, |s|, i)
    ensures 0 <= i - skip < |SkipTake(s, skip, size)| && SkipTake(s, skip, size)[i - skip] == s[i]
  {
  }

  /** `Handle`: validate, sort by title then id, cut the page, look for the id on it. */
  function GetBookByIdByPage(books: seq<Book>, r: GetBookByIdByPageRequest): (result: HttpResult<Book>)
    ensures ValidateGetBookByIdByPage(r) != [] <==> result == BadRequest(ValidateGetBookByIdByPage(r))
    ensures result.Ok? || result.NotFound? || result.BadRequest?
    ensures result.Ok? ==> result.value.id == r.id
  {
    var errors := ValidateGetBookByIdByPage(r);
    if errors != [] then BadRequest(errors)
    else
      match LookupOnPage(SortBooks(books), Skip(r.page, r.pageSize), r.pageSize as int, r.id)
      case Some(b) => Ok(b)
      case None => NotFound
  }

  /** `Handle` as written, with the skip computed in 32-bit arithmetic. */
  function GetBookByIdByPageAsWritten(books: seq<Book>, r: GetBookByIdByPageRequest): (result: HttpResult<Book>)
    ensures ValidateGetBookByIdByPage(r) != [] <==> result == BadRequest(ValidateGetBookByIdByPage(r))
    ensures result.Ok? ==> result.value.id == r.id
  {
    var errors := ValidateGetBookByIdByPage(r);
    if errors != [] then BadRequest(errors)
    else
      match LookupOnPage(SortBooks(books), SkipAsWritten(r.page, r.pageSize) as int, r.pageSize as int, r.id)
      case Some(b) => Ok(b)
      case None => NotFound
  }

  /**
   * A valid request finds a book exactly when the book with the requested id sits, in
   * the order by title then id, at a position of the requested page.
   */
  lemma ByPageFoundIff(books: seq<Book>, r: GetBookByIdByPageRequest)
    requires ValidateGetBookByIdByPage(r) == []
    ensures var sorted, skip := SortBooks(books), Skip(r.page, r.pageSize);
      GetBookByIdByPage(books, r).Ok? <==> exists i :: OnPage(skip, r.pageSize as int, |sorted|, i) && sorted[i].id == r.id
  {
    ValidSkipNotNegative(GetAllBooksRequest(r.page, r.pageSize));
  }

  /** A book the handler returns is a row of the table. */
  lemma ByPageReturnsStoredBook(books: seq<Book>, r: GetBookByIdByPageRequest)
    requires GetBookByIdByPage(books, r).Ok?
    ensures GetBookByIdByPage(books, r).value in books
  {
    var b := GetBookByIdByPage(books, r).value;
    assert b in multiset(SortBooks(books));
  }

  /** A stored book that lies on another page of the sorted table is not found. */
  lemma OnAnotherPageNotFound(books: seq<Book>, r: GetBookByIdByPageRequest, k: int)
    requires UniqueIds(books) && ValidateGetBookByIdByPage(r) == []
    requires 0 <= k < |SortBooks(books)| && SortBooks(books)[k].id == r.id
    requires !OnPage(Skip(r.page, r.pageSize), r.pageSize as int, |SortBooks(books)|, k)
    ensures GetBookByIdByPage(books, r) == NotFound
  {
    var sorted := SortBooks(books);
    UniqueIdsPermutation(books, sorted);
    assert forall i :: OnPage(Skip(r.page, r.pageSize), r.pageSize as int, |sorted|, i) ==> sorted[i].id != r.id;
    ByPageFoundIff(books, r);
  }

  /** The answer does not depend on the order the table keeps its rows in. */
  lemma ByPageIgnoresStoredOrder(s: seq<Book>, t: seq<Book>, r: GetBookByIdByPageRequest)
    requires multiset(s) == multiset(t) && UniqueIds(s)
    ensures GetBookByIdByPage(s, r) == GetBookByIdByPage(t, r)
  {
    SortIgnoresStoredOrder(s, t);
  }

  /** The handler as written agrees with the corrected one while the exact skip fits in 32 bits. */
  lemma ByPageAsWrittenAgreesWhileSkipFits(books: seq<Book>, r: GetBookByIdByPageRequest)
    requires ValidateGetBookByIdByPage(r) == [] && Skip(r.page, r.pageSize) < 0x8000_0000
    ensures GetBookByIdByPageAsWritten(books, r) == GetBookByIdByPage(books, r)
  {
    SkipExactWhileItFits(r.page, r.pageSize);
  }

  /**
   * A table of one book: page 21474838 of size 100 is far past it, yet the wrapped skip
   * is negative, counts as zero, and the handler as written finds the book there.
   */
  lemma ByPageAsWrittenFindsBookOnFarPage(b: Book)
    requires b.id != EmptyGuid
    ensures var r := GetBookByIdByPageRequest(b.id, 21474838, 100);
      && GetBookByIdByPage([b], r) == NotFound
      && GetBookByIdByPageAsWritten([b], r) == Ok(b)
  {
    var r := GetBookByIdByPageRequest(b.id, 21474838, 100);
    assert SortBooks([b]) == [b];
    assert SkipAsWritten(r.page, r.pageSize) == -2147483596;
    assert SkipTake([b], SkipAsWritten(r.page, r.pageSize) as int, r.pageSize as int) == [b];
    assert Skip(r.page, r.pageSize) == 2147483700;
  }

  // ---------------------------------------------------------------------------
  // GetBookByIdHandler
  // ---------------------------------------------------------------------------

  /** `Handle`: the primary-key lookup, without calling the validator. */
  function GetBookById(books: seq<Book>, r: GetBookByIdRequest): (result: HttpResult<Book>)
    ensures result.NotFound? <==> forall i :: 0 <= i < |books| ==> books[i].id != r.id
    ensures result.Ok? || result.NotFound?
    ensures result.Ok? ==> result.value.id == r.id && result.value in books
  {
    match FirstWithId(books, r.id)
    case Some(b) => Ok(b)
    case None => NotFound
  }

  /** With unique ids, the lookup returns the one stored book with the requested id. */
  lemma GetByIdFindsStoredBook(books: seq<Book>, r: GetBookByIdRequest, k: nat)
    requires UniqueIds(books) && k < |books| && books[k].id == r.id
    ensures GetBookById(books, r) == Ok(books[k])
  {
    FirstWithIdFindsTheBook(books, r.id, k);
  }

  /**
   * No validation runs: the empty id, which the validator rejects, reaches the lookup
   * and finds a book stored under it.
   */
  lemma GetByIdSkipsValidation(books: seq<Book>, k: nat)
    requires UniqueIds(books) && k < |books| && books[k].id == EmptyGuid
    ensures ValidateGetBookById(GetBookByIdRequest(EmptyGuid)) != []
    ensures GetBookById(books, GetBookByIdRequest(EmptyGuid)) == Ok(books[k])
  {
    GetByIdFindsStoredBook(books, GetBookByIdRequest(EmptyGuid), k);
  }

  /** A book the paged lookup finds, the plain lookup finds too. */
  lemma ByPageAgreesWithGetById(books: seq<Book>, r: GetBookByIdByPageRequest)
    requires UniqueIds(books) && GetBookByIdByPage(books, r).Ok?
    ensures GetBookById(books, GetBookByIdRequest(r.id)) == GetBookByIdByPage(books, r)
  {
    ByPageReturnsStoredBook(books, r);
    var b := GetBookByIdByPage(books, r).value;
    var k :| 0 <= k < |books| && books[k] == b;
    GetByIdFindsStoredBook(books, GetBookByIdRequest(r.id), k);
  }

  // ---------------------------------------------------------------------------
  // DeleteBookHandler
  // ---------------------------------------------------------------------------

  /** The table with every row of id `id` removed, the others in their order. */
  function WithoutId(s: seq<Book>, id: Guid): (r: seq<Book>)
    ensures forall b :: b in r <==> b in s && b.id != id
    ensures |r| <= |s|
  {
    if |s| == 0 then []
    else if s[0].id == id then WithoutId(s[1..], id)
    else [s[0]] + WithoutId(s[1..], id)
  }

  /** With unique ids, the removal takes out exactly the row holding the id and keeps the rest in order. */
  lemma {:induction false} WithoutIdRemovesOneRow(s: seq<Book>, k: nat)
    requires UniqueIds(s) && k < |s|
    ensures WithoutId(s, s[k].id) == s[..k] + s[k + 1..]
  {
    var id := s[k].id;
    var tail := s[1..];
    if k == 0 {
      WithoutIdAtHead(s);
    } else {
      assert s[0].id != id;
      assert WithoutId(s, id) == [s[0]] + WithoutId(tail, id);
      TailUniqueIds(s);
      assert tail[k - 1] == s[k];
      WithoutIdRemovesOneRow(tail, k - 1);
      assert s[..k] == [s[0]] + tail[..k - 1];
      assert s[k + 1..] == tail[k..];
    }
  }

  /** With unique ids, removing the first row's id removes just that row. */
  lemma WithoutIdAtHead(s: seq<Book>)
    requires UniqueIds(s) && |s| > 0
    ensures WithoutId(s, s[0].id) == s[1..]
  {
    var tail := s[1..];
    assert forall j :: 0 <= j < |tail| ==> tail[j].id != s[0].id by {
      forall j | 0 <= j < |tail| ensures tail[j].id != s[0].id {
        assert tail[j] == s[j + 1];
      }
    }
    WithoutAbsentId(tail, s[0].id);
  }

  lemma TailUniqueIds(s: seq<Book>)
    requires UniqueIds(s) && |s| > 0
    ensures UniqueIds(s[1..])
  {
    var tail := s[1..];
    forall i, j | 0 <= i < |tail| && 0 <= j < |tail| && tail[i].id == tail[j].id
      ensures i == j
    {
      assert tail[i] == s[i + 1] && tail[j] == s[j + 1];
    }
  }

  lemma {:induction false} WithoutAbsentId(s: seq<Book>, id: Guid)
    requires forall j :: 0 <= j < |s| ==> s[j].id != id
    ensures WithoutId(s, id) == s
  {
    if |s| > 0 {
      WithoutAbsentId(s[1..], id);
      assert s == [s[0]] + s[1..];
    }
  }

  /** The table's rows, updated in place by the delete handler. */
  class BookStore {
    var books: seq<Book>

    constructor (books: seq<Book>)
      ensures this.books == books
    {
      this.books := books;
    }

    /** `Handle`: validate, look up, remove and save. */
    method Delete(request: DeleteBookRequest) returns (result: HttpResult<()>)
      modifies this
      ensures result == DeleteResult(old(books), request)
      ensures books == RowsAfterDelete(old(books), request)
    {
      var errors := ValidateDeleteBook(request);
      if errors != [] {
        return BadRequest(errors);
      }
      var book := FirstWithId(books, request.id);
      if book.None? {
        return NotFound;
      }
      books := WithoutId(books, book.value.id);
      return NoContent;
    }
  }

  /** What the delete handler answers on a table. */
  function DeleteResult(books: seq<Book>, r: DeleteBookRequest): (result: HttpResult<()>)
    ensures ValidateDeleteBook(r) != [] <==> result == BadRequest(ValidateDeleteBook(r))
    ensures result.NoContent? <==> r.id != EmptyGuid && exists i :: 0 <= i < |books| && books[i].id == r.id
    ensures result.BadRequest? || result.NotFound? || result.NoContent?
  {
    var errors := ValidateDeleteBook(r);
    if errors != [] then BadRequest(errors)
    else if FirstWithId(books, r.id).None? then NotFound
    else NoContent
  }

  /** The table's rows after the delete handler. */
  function RowsAfterDelete(books: seq<Book>, r: DeleteBookRequest): (after: seq<Book>)
    ensures !DeleteResult(books, r).NoContent? ==> after == books
    ensures forall b :: b in after <==> b in books && (DeleteResult(books, r).NoContent? ==> b.id != r.id)
  {
    if DeleteResult(books, r).NoContent? then WithoutId(books, r.id) else books
  }

  /**
   * A delete that succeeds takes out the one row with the id, keeps every other row in
   * its order, keeps the ids unique, and a lookup of the id then finds nothing.
   */
  lemma DeleteRemovesOnlyThatBook(books: seq<Book>, r: DeleteBookRequest, k: nat)
    requires UniqueIds(books) && k < |books| && books[k].id == r.id && r.id != EmptyGuid
    ensures DeleteResult(books, r) == NoContent
    ensures RowsAfterDelete(books, r) == books[..k] + books[k + 1..]
    ensures UniqueIds(RowsAfterDelete(books, r))
    ensures GetBookById(RowsAfterDelete(books, r), GetBookByIdRequest(r.id)) == NotFound
  {
    WithoutIdRemovesOneRow(books, k);
    var after := books[..k] + books[k + 1..];
    forall i, j | 0 <= i < |after| && 0 <= j < |after| && after[i].id == after[j].id
      ensures i == j
    {
      var i' := if i < k then i else i + 1;
      var j' := if j < k then j else j + 1;
      assert after[i] == books[i'] && after[j] == books[j'];
    }
  }

  /** Deleting the same id twice: the first call answers NoContent, the second NotFound. */
  lemma DeleteTwice(books: seq<Book>, r: DeleteBookRequest)
    requires r.id != EmptyGuid && exists i :: 0 <= i < |books| && books[i].id == r.id
    ensures DeleteResult(books, r) == NoContent
    ensures DeleteResult(RowsAfterDelete(books, r), r) == NotFound
  {
    var after := RowsAfterDelete(books, r);
    forall i | 0 <= i < |after|
      ensures after[i].id != r.id
    {
      assert after[i] in after;
    }
  }
}
