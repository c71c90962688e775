/**
 * The data of the book API (Lab-0.3/BookManagement): the stored book, the request
 * records and the `IResult` values the handlers return. The `Book` class and most
 * request records are not part of this model; their members are those the validators
 * and handlers read.
 */
module BookModel {
  import opened Numerics
  import opened Validation

  datatype Book = Book(id: Guid, title: string, author: string, year: int)

  datatype CreateBookRequest = CreateBookRequest(title: string, author: string, year: int)
  datatype UpdateBookRequest = UpdateBookRequest(id: Guid, title: string, author: string, year: int)
  datatype GetAllBooksRequest = GetAllBooksRequest(page: int32, pageSize: int32)
  datatype GetBookByIdRequest = GetBookByIdRequest(id: Guid)
  datatype DeleteBookRequest = DeleteBookRequest(id: Guid)

  /** `record GetBookByIdByPageRequest(Guid Id, int Page = 1, int PageSize = 10)`. */
  datatype GetBookByIdByPageRequest = GetBookByIdByPageRequest(id: Guid, page: int32, pageSize: int32)

  const DefaultPage: int32 := 1
  const DefaultPageSize: int32 := 10

  /** The `Results.*` values the handlers return. */
  datatype HttpResult<T> =
    | BadRequest(errors: seq<ValidationFailure>)
    | Ok(value: T)
    | NotFound
    | NoContent
}
