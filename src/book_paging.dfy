/**
 * `GetAllBooksHandler` of the book API
 * (Lab-0.3/BookManagement/BookManagement/Features/Books/GetAllBooksHandler.cs): after
 * validation, the books in table order from `skip = (Page - 1) * PageSize`, at most
 * `PageSize` of them. The query reads the table and changes nothing, so the handler is
 * a function of the table.
 *
 * The handler computes `skip` in C# `int`, where the product wraps for pages far past
 * the end; `SkipAsWritten` keeps that arithmetic, `Skip` the evident intent.
 */
module BookPaging {
  import opened Numerics
  import opened Validation
  import opened BookModel
  import opened BookValidators

  /** `Skip(skip).Take(take)`: a negative count skips or takes nothing, and both stop at the end. */
  function SkipTake<T>(s: seq<T>, skip: int, take: int): (r: seq<T>)
    ensures var from := if skip <= 0 then 0 else skip;
      && |r| == (if from >= |s| || take <= 0 then 0 else if |s| - from < take then |s| - from else take)
      && forall i :: 0 <= i < |r| ==> r[i] == s[from + i]
  {
    var from := if skip <= 0 then 0 else if skip >= |s| then |s| else skip;
    var n := if take <= 0 then 0 else if from + take >= |s| then |s| - from else take;
    s[from..from + n]
  }

  /** `(request.Page - 1) * request.PageSize`, as intended: exact. */
  function Skip(page: int32, pageSize: int32): int {
    (page as int - 1) * (pageSize as int)
  }

  /** `(request.Page - 1) * request.PageSize` as written: both operations wrap in 32 bits. */
  function SkipAsWritten(page: int32, pageSize: int32): int32 {
    Wrap32(Wrap32(page as int - 1) as int * pageSize as int)
  }

  /** For every request the validator accepts, the exact skip is never negative. */
  lemma ValidSkipNotNegative(r: GetAllBooksRequest)
    requires ValidateGetAllBooks(r) == []
    ensures Skip(r.page, r.pageSize) >= 0
  {
  }

  /** `Handle`, with the exact skip. */
  function GetAllBooks(books: seq<Book>, r: GetAllBooksRequest): (result: HttpResult<seq<Book>>)
    ensures ValidateGetAllBooks(r) != [] <==> result == BadRequest(ValidateGetAllBooks(r))
    ensures result.Ok? ==> |result.value| <= r.pageSize as int
    ensures result.Ok? && Skip(r.page, r.pageSize) >= |books| ==> result.value == []
  {
    var errors := ValidateGetAllBooks(r);
    if errors != [] then BadRequest(errors)
    else Ok(SkipTake(books, Skip(r.page, r.pageSize), r.pageSize as int))
  }

  /** `Handle` as written, with the wrapping skip. */
  function GetAllBooksAsWritten(books: seq<Book>, r: GetAllBooksRequest): (result: HttpResult<seq<Book>>)
    ensures ValidateGetAllBooks(r) != [] <==> result == BadRequest(ValidateGetAllBooks(r))
    ensures result.Ok? ==> |result.value| <= r.pageSize as int
  {
    var errors := ValidateGetAllBooks(r);
    if errors != [] then BadRequest(errors)
    else Ok(SkipTake(books, SkipAsWritten(r.page, r.pageSize) as int, r.pageSize as int))
  }

  /** For a valid page and size, the wrapped skip is the exact one as long as that fits in 32 bits. */
  lemma SkipExactWhileItFits(page: int32, pageSize: int32)
    requires page >= 1 && 1 <= pageSize <= 100
    requires Skip(page, pageSize) < 0x8000_0000
    ensures SkipAsWritten(page, pageSize) as int == Skip(page, pageSize)
  {
    var pred := page as int - 1;
    assert Wrap32(pred) as int == pred;
    var product := pred * pageSize as int;
    assert product == Skip(page, pageSize);
    ProductNotNegative(pred, pageSize as int);
    assert Wrap32(product) as int == product;
  }

  lemma ProductNotNegative(a: int, b: int)
    requires a >= 0 && b >= 0
    ensures a * b >= 0
  {
  }

  /** The two agree on every request whose exact skip fits in 32 bits. */
  lemma AsWrittenAgreesWhileSkipFits(books: seq<Book>, r: GetAllBooksRequest)
    requires Skip(r.page, r.pageSize) < 0x8000_0000
    requires ValidateGetAllBooks(r) == []
    ensures GetAllBooksAsWritten(books, r) == GetAllBooks(books, r)
  {
    SkipExactWhileItFits(r.page, r.pageSize);
  }

  /**
   * Page 21474838 of size 100 lies past the end of any table of fewer than 2147483700
   * books, but the wrapped skip is negative, counts as zero, and the first page comes back.
   */
  lemma AsWrittenFarPageReturnsFirstPage(books: seq<Book>)
    requires 0 < |books| < 2147483700
    ensures var r := GetAllBooksRequest(21474838, 100);
      && SkipAsWritten(r.page, r.pageSize) == -2147483596
      && GetAllBooks(books, r) == Ok([])
      && GetAllBooksAsWritten(books, r) == Ok(SkipTake(books, 0, 100))
      && GetAllBooksAsWritten(books, r) != GetAllBooks(books, r)
  {
    var r := GetAllBooksRequest(21474838, 100);
    assert Skip(r.page, r.pageSize) == 2147483700;
    assert SkipTake(books, 0, 100)[0] == books[0];
  }

  // ---------------------------------------------------------------------------
  // Pages
  // ---------------------------------------------------------------------------

  /** Page `p` (from 1) of size `size`: the books from `(p - 1) * size` on, at most `size` of them. */
  function Page(books: seq<Book>, p: nat, size: nat): (page: seq<Book>)
    requires p >= 1
  {
    var start := (p - 1) * size;
    books[Min(start, |books|)..Min(start + size, |books|)]
  }

  /** What the handler returns for a valid request is that page. */
  lemma GetAllBooksReturnsPage(books: seq<Book>, r: GetAllBooksRequest)
    requires ValidateGetAllBooks(r) == []
    ensures GetAllBooks(books, r) == Ok(Page(books, r.page as int, r.pageSize as int))
  {
    PageIsSkipTake(books, r.page as int, r.pageSize as int);
  }

  function Min(a: int, b: int): int {
    if a <= b then a else b
  }

  /** A page is what `Skip(...).Take(size)` gives from its start. */
  lemma PageIsSkipTake(books: seq<Book>, p: nat, size: nat)
    requires p >= 1
    ensures Page(books, p, size) == SkipTake(books, (p - 1) * size, size)
  {
  }

  /** Pages 1..k, concatenated. */
  function PagesUpTo(books: seq<Book>, k: nat, size: nat): seq<Book> {
    if k == 0 then [] else PagesUpTo(books, k - 1, size) + Page(books, k, size)
  }

  /**
   * Pages 1..k together are exactly the first k·size books, in order: consecutive pages
   * follow each other without overlap or gap.
   */
  lemma {:induction false} PagesPartitionPrefix(books: seq<Book>, k: nat, size: nat)
    ensures PagesUpTo(books, k, size) == books[..Min(k * size, |books|)]
  {
    if k > 0 {
      var start := (k - 1) * size;
      NextPageStart(k, size);
      PagesPartitionPrefix(books, k - 1, size);
      JoinSlices(books, Min(start, |books|), Min(start + size, |books|));
    }
  }

  lemma NextPageStart(k: nat, size: nat)
    requires k >= 1
    ensures k * size == (k - 1) * size + size
  {
  }

  lemma JoinSlices<T>(s: seq<T>, a: nat, b: nat)
    requires a <= b <= |s|
    ensures s[..a] + s[a..b] == s[..b]
  {
  }

  /** A page that starts at or past the end is empty, and the request still succeeds. */
  lemma PastTheEndIsEmpty(books: seq<Book>, r: GetAllBooksRequest)
    requires ValidateGetAllBooks(r) == [] && Skip(r.page, r.pageSize) >= |books|
    ensures GetAllBooks(books, r) == Ok([])
  {
  }
}
