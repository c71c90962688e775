/**
 * The `OrderCategory` enum both order projects use. Its declaration is not part of this
 * model; the six member names are those the request annotation lists. A C# enum can hold
 * any number, so a value that names no member is kept as `Undefined(code)`.
 */
module OrderCategories {
  import opened Text

  datatype OrderCategory =
    | Fiction | NonFiction | Technical | Children | Science | History
    | Undefined(code: int)

  /** FluentValidation's `IsInEnum()`: the value is one of the declared members. */
  predicate IsDefined(c: OrderCategory) {
    !c.Undefined?
  }

  /** `Enum.ToString()`: the member name, or the number of a value that names no member. */
  function Name(c: OrderCategory): string {
    match c
    case Fiction => "Fiction"
    case NonFiction => "NonFiction"
    case Technical => "Technical"
    case Children => "Children"
    case Science => "Science"
    case History => "History"
    case Undefined(n) => IntToString(n)
  }
}
