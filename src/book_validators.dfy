/**
 * The six FluentValidation validators of the book API
 * (Lab-0.3/BookManagement/BookManagement/Validators/). Every failing rule reports, in
 * declaration order. `DateTime.Now.Year`, read when a validator is built, is the
 * parameter `currentYear`.
 */
module BookValidators {
  import opened Text
  import opened Numerics
  import opened Validation
  import opened BookModel

  const IdEmpty: string := "Book ID must not be empty."
  const AuthorRequired: string := "Author is required."
  const TitleRequired: string := "Title is required."
  const PageTooSmall: string := "Page must be at least 1."
  const PageSizeOutOfRange: string := "PageSize must be between 1 and 100."

  /** `$"Year must be between 0 and {DateTime.Now.Year}."`. */
  function YearMessage(currentYear: int): string {
    "Year must be between 0 and " + IntToString(currentYear) + "."
  }

  /** `RuleFor(x => x.Id).NotEmpty()`: a Guid is empty when it is `Guid.Empty`. */
  function IdFailures(id: Guid): (fs: seq<ValidationFailure>)
    ensures |fs| <= 1
    ensures fs == [] <==> id != EmptyGuid
    ensures fs != [] ==> fs[0] == ValidationFailure("Id", IdEmpty)
  {
    Rule(id != EmptyGuid, "Id", IdEmpty)
  }

  /** The Author, Title and Year rules shared by the create and update validators. */
  function BookFieldFailures(author: string, title: string, year: int, currentYear: int)
    : (fs: seq<ValidationFailure>)
    ensures fs == [] <==> !IsWhiteSpaceOnly(author) && !IsWhiteSpaceOnly(title) && 0 <= year <= currentYear
    ensures ValidationFailure("Author", AuthorRequired) in fs <==> IsWhiteSpaceOnly(author)
    ensures ValidationFailure("Title", TitleRequired) in fs <==> IsWhiteSpaceOnly(title)
    ensures ValidationFailure("Year", YearMessage(currentYear)) in fs <==> !(0 <= year <= currentYear)
    ensures |fs| <= 3
  {
    Rule(!IsWhiteSpaceOnly(author), "Author", AuthorRequired)
    + Rule(!IsWhiteSpaceOnly(title), "Title", TitleRequired)
    + Rule(0 <= year <= currentYear, "Year", YearMessage(currentYear))
  }

  /** `CreateBookValidator`. */
  function ValidateCreateBook(r: CreateBookRequest, currentYear: int): (fs: seq<ValidationFailure>)
    ensures fs == [] <==> !IsWhiteSpaceOnly(r.author) && !IsWhiteSpaceOnly(r.title) && 0 <= r.year <= currentYear
  {
    BookFieldFailures(r.author, r.title, r.year, currentYear)
  }

  /** `UpdateBookValidator`. */
  function ValidateUpdateBook(r: UpdateBookRequest, currentYear: int): (fs: seq<ValidationFailure>)
    ensures fs == [] <==>
      r.id != EmptyGuid && !IsWhiteSpaceOnly(r.author) && !IsWhiteSpaceOnly(r.title) && 0 <= r.year <= currentYear
    ensures r.id == EmptyGuid ==> fs[0] == ValidationFailure("Id", IdEmpty)
  {
    IdFailures(r.id) + BookFieldFailures(r.author, r.title, r.year, currentYear)
  }

  /** The Page and PageSize rules shared by the two paging validators. */
  function PagingFailures(page: int32, pageSize: int32): (fs: seq<ValidationFailure>)
    ensures fs == [] <==> page >= 1 && 1 <= pageSize <= 100
    ensures ValidationFailure("Page", PageTooSmall) in fs <==> page < 1
    ensures ValidationFailure("PageSize", PageSizeOutOfRange) in fs <==> !(1 <= pageSize <= 100)
  {
    Rule(page >= 1, "Page", PageTooSmall)
    + Rule(1 <= pageSize <= 100, "PageSize", PageSizeOutOfRange)
  }

  /** `GetAllBooksValidator`. */
  function ValidateGetAllBooks(r: GetAllBooksRequest): (fs: seq<ValidationFailure>)
    ensures fs == [] <==> r.page >= 1 && 1 <= r.pageSize <= 100
  {
    PagingFailures(r.page, r.pageSize)
  }

  /** `GetBookByIdByPageValidator`. */
  function ValidateGetBookByIdByPage(r: GetBookByIdByPageRequest): (fs: seq<ValidationFailure>)
    ensures fs == [] <==> r.id != EmptyGuid && r.page >= 1 && 1 <= r.pageSize <= 100
  {
    IdFailures(r.id) + PagingFailures(r.page, r.pageSize)
  }

  /** `GetBookByIdValidator`. */
  function ValidateGetBookById(r: GetBookByIdRequest): (fs: seq<ValidationFailure>)
    ensures |fs| <= 1 && (fs == [] <==> r.id != EmptyGuid)
  {
    IdFailures(r.id)
  }

  /** `DeleteBookValidator`. */
  function ValidateDeleteBook(r: DeleteBookRequest): (fs: seq<ValidationFailure>)
    ensures |fs| <= 1 && (fs == [] <==> r.id != EmptyGuid)
  {
    IdFailures(r.id)
  }

  // ---------------------------------------------------------------------------
  // Relations between the validators
  // ---------------------------------------------------------------------------

  /** Apart from the Id rule, updating is validated exactly as creating. */
  lemma UpdateIsIdRulePlusCreate(r: UpdateBookRequest, currentYear: int)
    ensures ValidateUpdateBook(r, currentYear)
      == IdFailures(r.id) + ValidateCreateBook(CreateBookRequest(r.title, r.author, r.year), currentYear)
    ensures r.id != EmptyGuid ==>
      ValidateUpdateBook(r, currentYear) == ValidateCreateBook(CreateBookRequest(r.title, r.author, r.year), currentYear)
  {
  }

  /** The by-page validator is the Id rule followed by the get-all validator's rules. */
  lemma ByPageIsIdRulePlusGetAll(r: GetBookByIdByPageRequest)
    ensures ValidateGetBookByIdByPage(r) == IdFailures(r.id) + ValidateGetAllBooks(GetAllBooksRequest(r.page, r.pageSize))
  {
  }

  /** The delete and get-by-id validators agree on every Guid. */
  lemma DeleteAndGetByIdAgree(id: Guid)
    ensures ValidateDeleteBook(DeleteBookRequest(id)) == ValidateGetBookById(GetBookByIdRequest(id))
  {
  }

  /** The request defaults page 1 and page size 10 pass; page 0 and sizes 0 and 101 do not. */
  lemma PagingBoundaries(id: Guid)
    ensures PagingFailures(DefaultPage, DefaultPageSize) == []
    ensures id != EmptyGuid ==> ValidateGetBookByIdByPage(GetBookByIdByPageRequest(id, DefaultPage, DefaultPageSize)) == []
    ensures PagingFailures(0, 10) != [] && PagingFailures(1, 0) != [] && PagingFailures(1, 101) != []
    ensures PagingFailures(1, 1) == [] && PagingFailures(1, 100) == []
  {
  }

  /** An empty title and an out-of-range year each report, independently of the other fields. */
  lemma FieldsReportIndependently(r: CreateBookRequest, currentYear: int)
    requires r.title == [] && r.year == currentYear + 1
    ensures ValidationFailure("Title", TitleRequired) in ValidateCreateBook(r, currentYear)
    ensures ValidationFailure("Year", YearMessage(currentYear)) in ValidateCreateBook(r, currentYear)
    ensures (ValidationFailure("Author", AuthorRequired) in ValidateCreateBook(r, currentYear)) == IsWhiteSpaceOnly(r.author)
  {
  }
}
