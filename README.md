# DOT-NET-Labs in Dafny

This project models the decision logic of four small .NET projects and proves properties of it:

- **OrderManagementAPI** covers several pieces:
  - the FluentValidation validator for `CreateOrderProfileRequest`, with its per-field rule chains, store look-ups and the whole-request business rule;
  - the `ValidISBN`, `PriceRange` and `OrderCategory` attributes and the annotations on the request;
  - the MediatR `ValidationBehavior`;
  - the create-order handler, with its duplicate-ISBN check and its metrics updates;
  - the `AuthorInitials`, `AvailabilityStatus` and `PublishedAge` resolvers.
- **OderManagementAPI** is the second copy of the order API. Its rules differ, so it is modelled separately:
  - the validator with the ISBN-10/ISBN-13 check-digit test `BeAValidIsbn`;
  - the persistence validator with its ISBN regular expression;
  - the `AdvancedOrderMappingProfile` member rules;
  - the create handler, with its store and its `all_orders` cache key;
  - its two resolvers.
- **Lab-0.3 BookManagement** covers the six book validators and the four handlers: get all, get by id on a page, get by id, and delete.
- **Lab-0.2** is the console task list, covering:
  - `AddTask` and `MarkTaskComplete`;
  - the overdue filter;
  - the `project2` copy made with `with`;
  - the menu loop.

How the source is represented:

- **Stores.** The order stores and the book table are sequences. Queries that only read a store are functions of it.
- **State changed in place** becomes a class whose methods state the new contents:
  - `OrderStore`, `OrderContext` and `MemoryCache`;
  - `MetricsContext` (the metrics record the pipeline frames share);
  - `BookStore`, `ClientModelValidationContext` and `TaskList`.
- **Clocks, `Guid.NewGuid`, stopwatch readings and console input** are parameters.
- **Library code** becomes an explicit definition or a parameter:
  - The .NET regular expressions are written out as predicates. This includes `$`, which also matches before a final `\n`.
  - `int.TryParse` is written out for the invariant culture.
  - `string.Split(' ', RemoveEmptyEntries)` is written out.
  - `string.Length` counts UTF-16 code units (`Text.Utf16Length`), so a character above U+FFFF counts twice.
  - `Uri.TryCreate`, the AutoMapper mappings and currency formatting are function parameters.
- **Numbers.** `decimal` is `real`. `DateTime` is a count of 100 ns ticks. `Guid` is a natural number below 2^128, with 0 as `Guid.Empty`. The number is the one the 32 hex digits of `Guid.ToString()` spell, in order. EF Core stores a Guid in SQLite as that text in upper case, and the database compares the text byte by byte. Fixed-width upper-case hex text sorts in numeric order, so `ThenBy(b => b.Id)` is the order of these numbers. C# `int` is the `int32` newtype, and wrap-around is written out with `Wrap32`.

Files live in `src/`. Most modules follow one source file. `OrderApiAttributes`, `OrderApiResolvers` and `BookHandlers` each gather a few small source files of one kind. A few modules are shared:

- `Wrappers`;
- `Text` (characters, `Split`, `Remove`, case mapping);
- `Numerics` (`int32`, `Guid`);
- `Time`;
- `Validation` (FluentValidation failures);
- `OrderCategories`;
- the request and entity datatypes.

## Model

| member | source | states |
|---|---|---|
| OrderApiValidator.BeAppropriateTitle | OrderManagementAPI/OrderManagementAPI/Features/Order/Validators/CreateOrderProfileRequestValidator.cs:70-81 | the loop returns true exactly when no deny-listed word occurs in the title, ignoring case |
| OrderApiValidator.Extension | OrderManagementAPI/OrderManagementAPI/Features/Order/Validators/CreateOrderProfileRequestValidator.cs:133 | a non-empty extension is a suffix of the path that starts with its last '.' and contains no further '.' or '/' |
| OrderApiValidator.ExtensionOfName | OrderManagementAPI/OrderManagementAPI/Features/Order/Validators/CreateOrderProfileRequestValidator.cs:133 | the extension of `stem.ext` is `.ext` whenever `ext` has no '.' or '/' |
| OrderApiValidator.ImageUrlVerdict | OrderManagementAPI/OrderManagementAPI/Features/Order/Validators/CreateOrderProfileRequestValidator.cs:121-141 | for a non-empty URL whose parsed path ends in `.ext`, it is accepted exactly when the scheme is http or https and the lower-cased `.ext` is one of .jpg .jpeg .png .gif .webp |
| OrderApiValidator.CountPublishedOn | OrderManagementAPI/OrderManagementAPI/Features/Order/Validators/CreateOrderProfileRequestValidator.cs:148-149 | the number of orders published on a day is at most the store size |
| OrderApiValidator.PassComplexBusinessRules | OrderManagementAPI/OrderManagementAPI/Features/Order/Validators/CreateOrderProfileRequestValidator.cs:143-187 | the method returns true exactly when the daily count is under 500, a Technical order costs at least 20, a Children title has no deny-listed word, and no order costs over 500 with stock over 10 |
| OrderApiValidator.TitleFailures | OrderManagementAPI/OrderManagementAPI/Features/Order/Validators/CreateOrderProfileRequestValidator.cs:22-27 | every failure of the title chain is reported against Title |
| OrderApiValidator.AuthorFailures | OrderManagementAPI/OrderManagementAPI/Features/Order/Validators/CreateOrderProfileRequestValidator.cs:30-34 | every failure of the author chain is reported against Author |
| OrderApiValidator.IsbnFailures | OrderManagementAPI/OrderManagementAPI/Features/Order/Validators/CreateOrderProfileRequestValidator.cs:37-40 | every failure of the ISBN chain is reported against ISBN |
| OrderApiValidator.ScalarFailures | OrderManagementAPI/OrderManagementAPI/Features/Order/Validators/CreateOrderProfileRequestValidator.cs:43-59 | category, price, date and stock failures name only those four properties |
| OrderApiValidator.CoverFailures | OrderManagementAPI/OrderManagementAPI/Features/Order/Validators/CreateOrderProfileRequestValidator.cs:61-63 | cover failures are reported against CoverImageUrl |
| OrderApiValidator.LaterFailures | OrderManagementAPI/OrderManagementAPI/Features/Order/Validators/CreateOrderProfileRequestValidator.cs:43-67 | the failures after the ISBN chain name only Category, Price, PublishedDate, StockQuantity, CoverImageUrl or the whole request |
| OrderApiValidator.Validate | OrderManagementAPI/OrderManagementAPI/Features/Order/Validators/CreateOrderProfileRequestValidator.cs:16-68 | no failure exactly when every rule of every chain and the business rule hold (`Acceptable`) |
| OrderApiValidator.EmptyTitleFailsTwice | OrderManagementAPI/OrderManagementAPI/Features/Order/Validators/CreateOrderProfileRequestValidator.cs:22-24 | an empty title gives "required" then "at least 1 character", in that order, because no cascade mode stops the chain |
| OrderApiValidator.BlankTitleIsRequiredOnly | OrderManagementAPI/OrderManagementAPI/Features/Order/Validators/CreateOrderProfileRequestValidator.cs:22-24 | a one-space title fails NotEmpty but not MinimumLength(1) |
| OrderApiValidator.LongTitleReported | OrderManagementAPI/OrderManagementAPI/Features/Order/Validators/CreateOrderProfileRequestValidator.cs:25 | a title over 200 UTF-16 code units yields the "must not exceed 200" failure |
| OrderApiValidator.SurrogatePairTitleTooLong | OrderManagementAPI/OrderManagementAPI/Features/Order/Validators/CreateOrderProfileRequestValidator.cs:25 | 101 characters above U+FFFF are 202 code units, so `MaximumLength(200)` rejects them |
| OrderApiValidator.SurrogatePairAuthorLongEnough | OrderManagementAPI/OrderManagementAPI/Features/Order/Validators/CreateOrderProfileRequestValidator.cs:32 | one character above U+FFFF is two code units, so it meets `MinimumLength(2)` |
| OrderApiValidator.SplitOffTitle | OrderManagementAPI/OrderManagementAPI/Features/Order/Validators/CreateOrderProfileRequestValidator.cs:22-40 | the failure list is the title chain followed by failures that never name Title |
| OrderApiValidator.SplitOffAuthor | OrderManagementAPI/OrderManagementAPI/Features/Order/Validators/CreateOrderProfileRequestValidator.cs:22-40 | the author chain sits between failures that never name Author |
| OrderApiValidator.SplitOffIsbn | OrderManagementAPI/OrderManagementAPI/Features/Order/Validators/CreateOrderProfileRequestValidator.cs:22-40 | the ISBN chain sits between failures that never name ISBN |
| OrderApiValidator.TitleAcceptedIff | OrderManagementAPI/OrderManagementAPI/Features/Order/Validators/CreateOrderProfileRequestValidator.cs:22-27 | no Title failure exactly when the title is not blank, is at most 200 UTF-16 code units, is appropriate and is not taken for that author |
| OrderApiValidator.InappropriateTitleIff | OrderManagementAPI/OrderManagementAPI/Features/Order/Validators/CreateOrderProfileRequestValidator.cs:26 | the inappropriate-content failure appears exactly when the title contains a deny-listed word, ignoring case |
| OrderApiValidator.DuplicateTitleIff | OrderManagementAPI/OrderManagementAPI/Features/Order/Validators/CreateOrderProfileRequestValidator.cs:83-94 | the duplicate-title failure appears exactly when some stored order has the same title and the same author |
| OrderApiValidator.TitleTakenInChain | OrderManagementAPI/OrderManagementAPI/Features/Order/Validators/CreateOrderProfileRequestValidator.cs:22-27 | the title chain holds the duplicate-title failure exactly when the title is taken for that author |
| OrderApiValidator.TitleTakenIffStored | OrderManagementAPI/OrderManagementAPI/Features/Order/Validators/CreateOrderProfileRequestValidator.cs:85-86 | the `AnyAsync` query is true exactly when a stored order matches both title and author |
| OrderApiValidator.AuthorAcceptedIff | OrderManagementAPI/OrderManagementAPI/Features/Order/Validators/CreateOrderProfileRequestValidator.cs:30-34 | no Author failure exactly when the author is 2 to 100 UTF-16 code units, not blank, and made only of ASCII letters, white space, '-', '\'' and '.' |
| OrderApiValidator.DuplicateIsbnIff | OrderManagementAPI/OrderManagementAPI/Features/Order/Validators/CreateOrderProfileRequestValidator.cs:111-119 | the duplicate-ISBN failure appears exactly when a stored order has the identical, unnormalised ISBN string |
| OrderApiValidator.SpaceIsNoShape | OrderManagementAPI/OrderManagementAPI/Features/Order/Validators/CreateOrderProfileRequestValidator.cs:103 | a string containing a space never has the 10- or 13-character ISBN shape |
| OrderApiValidator.SpaceBreaksIsbnFormat | OrderManagementAPI/OrderManagementAPI/Features/Order/Validators/CreateOrderProfileRequestValidator.cs:96-109 | the format rule removes hyphens only, so any ISBN containing a space fails it |
| OrderApiValidator.SmallStoreUnderDailyLimit | OrderManagementAPI/OrderManagementAPI/Features/Order/Validators/CreateOrderProfileRequestValidator.cs:147-154 | a store of fewer than 500 orders never reaches the daily limit |
| OrderApiValidator.BusinessRuleFailureIff | OrderManagementAPI/OrderManagementAPI/Features/Order/Validators/CreateOrderProfileRequestValidator.cs:143-187 | the whole-request failure appears exactly when one of the four business conditions is violated |
| OrderApiValidator.CheapTechnicalRejected | OrderManagementAPI/OrderManagementAPI/Features/Order/Validators/CreateOrderProfileRequestValidator.cs:156-162 | a Technical order at 19.99 passes the price rules but fails the business rule |
| OrderApiValidator.ChildrenBadWordFailsTwice | OrderManagementAPI/OrderManagementAPI/Features/Order/Validators/CreateOrderProfileRequestValidator.cs:164-176 | a Children order with a deny-listed title word gets both the Title failure and the business-rule failure |
| OrderApiValidator.AbsentCoverNotChecked | OrderManagementAPI/OrderManagementAPI/Features/Order/Validators/CreateOrderProfileRequestValidator.cs:61-63 | a null or empty cover URL never produces a CoverImageUrl failure |
| OrderApiIsbnAttribute.CleanIsbn | OrderManagementAPI/OrderManagementAPI/ValidationAttributes/ValidISBNAttribute.cs:23 | the cleaned ISBN contains no '-' and no space |
| OrderApiIsbnAttribute.CleanIsbnConcat | OrderManagementAPI/OrderManagementAPI/ValidationAttributes/ValidISBNAttribute.cs:23 | cleaning distributes over concatenation |
| OrderApiIsbnAttribute.CleanIsbnDropsSeparator | OrderManagementAPI/OrderManagementAPI/ValidationAttributes/ValidISBNAttribute.cs:23 | inserting one '-' or space anywhere leaves the cleaned ISBN unchanged |
| OrderApiIsbnAttribute.SeparatorInvariance | OrderManagementAPI/OrderManagementAPI/ValidationAttributes/ValidISBNAttribute.cs:23 | inserting or removing a '-' or space never changes the attribute's verdict |
| OrderApiIsbnAttribute.NonStringPasses | OrderManagementAPI/OrderManagementAPI/ValidationAttributes/ValidISBNAttribute.cs:18-21 | a null or non-string value passes |
| OrderApiIsbnAttribute.StringVerdict | OrderManagementAPI/OrderManagementAPI/ValidationAttributes/ValidISBNAttribute.cs:23-35 | a string passes exactly when its cleaned form is empty or matches 9 digits and a digit or 'X', or 13 digits; otherwise it fails with the constructor's message |
| OrderApiIsbnAttribute.AnyThirteenDigitsPass | OrderManagementAPI/OrderManagementAPI/ValidationAttributes/ValidISBNAttribute.cs:30-33 | any 13 digits pass, whatever the check digit: it is a shape check only |
| OrderApiIsbnAttribute.LowercaseXFails | OrderManagementAPI/OrderManagementAPI/ValidationAttributes/ValidISBNAttribute.cs:30-33 | nine digits followed by a lower-case 'x' fail |
| OrderApiIsbnAttribute.MergeAttribute | OrderManagementAPI/OrderManagementAPI/ValidationAttributes/ValidISBNAttribute.cs:50-58 | returns true exactly when the key was absent; the dictionary becomes the old one with the key added only if it was absent |
| OrderApiIsbnAttribute.MergeNeverOverwrites | OrderManagementAPI/OrderManagementAPI/ValidationAttributes/ValidISBNAttribute.cs:50-58 | after a merge the keys are the old keys plus the new one, every old value is kept, and a new key maps to the given value |
| OrderApiIsbnAttribute.AddValidation | OrderManagementAPI/OrderManagementAPI/ValidationAttributes/ValidISBNAttribute.cs:38-48 | throws exactly on a null context; otherwise data-val, data-val-isbn and data-val-isbn-pattern are present, old values are kept, and missing ones get "true", the message and the pattern |
| OrderApiPriceRange.Verdict | OrderManagementAPI/OrderManagementAPI/ValidationAttributes/PriceRangeAttribute.cs:18-36 | null passes, a non-decimal fails with "Invalid price type.", and a decimal passes exactly when min <= price <= max |
| OrderApiPriceRange.SameMessageBothSides | OrderManagementAPI/OrderManagementAPI/ValidationAttributes/PriceRangeAttribute.cs:30-33 | a price below the range and one above it fail with the same generated message |
| OrderApiPriceRange.RequestBoundaries | OrderManagementAPI/OrderManagementAPI/Features/Order/CreateOrderProfileRequest.cs:27-28 | with bounds 0.01 and 9999.99, both bounds pass and 0 and 10000 fail |
| OrderApiPriceRange.AgreesWithFluentRuleOnCents | OrderManagementAPI/OrderManagementAPI/Features/Order/CreateOrderProfileRequest.cs:27 | for prices in whole cents the attribute accepts exactly the prices with 0 < p < 10000 that the fluent rule accepts |
| OrderApiPriceRange.DisagreeOnFinerPrices | OrderManagementAPI/OrderManagementAPI/Features/Order/CreateOrderProfileRequest.cs:27 | the price 0.005 is rejected by the attribute but accepted by the fluent rule |
| OrderApiCategoryAttribute.Verdict | OrderManagementAPI/OrderManagementAPI/ValidationAttributes/OrderCategoryAttribute.cs:18-41 | null passes; a non-category fails with the fixed type message; a category passes exactly when its name equals an allowed name up to case, else it fails with the generated list message |
| OrderApiCategoryAttribute.CaseInsensitive | OrderManagementAPI/OrderManagementAPI/ValidationAttributes/OrderCategoryAttribute.cs:35 | upper-casing the allowed list never changes a verdict |
| OrderApiCategoryAttribute.UndefinedNameStart | OrderManagementAPI/OrderManagementAPI/ValidationAttributes/OrderCategoryAttribute.cs:33 | the name of an undefined enum value (its number) never starts with a letter, so it matches no allowed name |
| OrderApiCategoryAttribute.RequestCategoriesAcceptExactlyMembers | OrderManagementAPI/OrderManagementAPI/Features/Order/CreateOrderProfileRequest.cs:22-25 | with the request's six names, a category passes exactly when it is a defined member |
| OrderApiRequestAnnotations.TitleErrors | OrderManagementAPI/OrderManagementAPI/Features/Order/CreateOrderProfileRequest.cs:10-12 | no error exactly when the title is not blank and at most 200 UTF-16 code units long |
| OrderApiRequestAnnotations.AuthorErrors | OrderManagementAPI/OrderManagementAPI/Features/Order/CreateOrderProfileRequest.cs:14-16 | no error exactly when the author is not blank and 2 to 100 UTF-16 code units long |
| OrderApiRequestAnnotations.IsbnErrors | OrderManagementAPI/OrderManagementAPI/Features/Order/CreateOrderProfileRequest.cs:18-20 | no error exactly when the ISBN is not blank and its cleaned form is empty or has the ISBN shape |
| OrderApiRequestAnnotations.CategoryErrors | OrderManagementAPI/OrderManagementAPI/Features/Order/CreateOrderProfileRequest.cs:22-25 | no error exactly when the category is a defined member |
| OrderApiRequestAnnotations.PriceErrors | OrderManagementAPI/OrderManagementAPI/Features/Order/CreateOrderProfileRequest.cs:27-28 | no error exactly when 0.01 <= price <= 9999.99 |
| OrderApiRequestAnnotations.StockErrors | OrderManagementAPI/OrderManagementAPI/Features/Order/CreateOrderProfileRequest.cs:35-36 | no error exactly when 0 <= stock <= 100000 |
| OrderApiRequestAnnotations.AnnotationErrors | OrderManagementAPI/OrderManagementAPI/Features/Order/CreateOrderProfileRequest.cs:8-37 | the request has no annotation error exactly when all six member constraints hold |
| OrderApiRequestAnnotations.DefaultStockInRange | OrderManagementAPI/OrderManagementAPI/Features/Order/CreateOrderProfileRequest.cs:36 | the default stock of 1 satisfies the stock range |
| OrderApiRequestAnnotations.HyphensOnlyIsbnPasses | OrderManagementAPI/OrderManagementAPI/Features/Order/CreateOrderProfileRequest.cs:18-20 | "---" satisfies both Required and ValidISBN, since it cleans to the empty string |
| OrderApiPipeline.AddValidationDuration | OrderManagementAPI/OrderManagementAPI/Common/Behaviors/ValidationBehavior.cs:44-50 | a record is present afterwards exactly when one was present before: no record is ever created |
| OrderApiPipeline.AddValidationDurationKeepsOtherFields | OrderManagementAPI/OrderManagementAPI/Common/Behaviors/ValidationBehavior.cs:46-49 | only ValidationDuration changes, by the elapsed time; every other field is kept |
| OrderApiPipeline.AddValidationDurationTwice | OrderManagementAPI/OrderManagementAPI/Common/Behaviors/ValidationBehavior.cs:48 | two additions equal one addition of the sum |
| OrderApiPipeline.Results | OrderManagementAPI/OrderManagementAPI/Common/Behaviors/ValidationBehavior.cs:33-35 | one result per validator, in order, each computed on the same request |
| OrderApiPipeline.NonEmpty | OrderManagementAPI/OrderManagementAPI/Common/Behaviors/ValidationBehavior.cs:37-38 | the kept results are all non-empty and no more than the input |
| OrderApiPipeline.FlattenNonEmpty | OrderManagementAPI/OrderManagementAPI/Common/Behaviors/ValidationBehavior.cs:37-40 | dropping empty results does not change the flattened failure list |
| OrderApiPipeline.FlattenConcat | OrderManagementAPI/OrderManagementAPI/Common/Behaviors/ValidationBehavior.cs:39 | flattening distributes over concatenation |
| OrderApiPipeline.FlattenEmptyIff | OrderManagementAPI/OrderManagementAPI/Common/Behaviors/ValidationBehavior.cs:55 | the flattened list is empty exactly when every result is empty |
| OrderApiPipeline.FailuresConcat | OrderManagementAPI/OrderManagementAPI/Common/Behaviors/ValidationBehavior.cs:33-40 | the failures of two validator lists are the concatenation of each list's failures, and they are empty exactly when every validator passes |
| OrderApiPipeline.SingleValidator | OrderManagementAPI/OrderManagementAPI/Common/Behaviors/ValidationBehavior.cs:33-40 | with one validator, the failures are exactly its result |
| OrderApiPipeline.RunValidators | OrderManagementAPI/OrderManagementAPI/Common/Behaviors/ValidationBehavior.cs:28-50 | the failures are every validator's failures in validator order, non-empty exactly when some validator fails; the validation time is added to the record only when there are validators |
| OrderApiPipeline.Handle | OrderManagementAPI/OrderManagementAPI/Common/Behaviors/ValidationBehavior.cs:26-72 | with no validators, next's response with metrics untouched; otherwise the validation duration is written to the record the pipeline frames share, it throws with all failures in validator order exactly when some validator fails, and else returns next's response |
| OrderApiPipeline.SetDatabaseSaveDuration | OrderManagementAPI/OrderManagementAPI/Features/Order/CreateOrderHandler.cs:63-69 | a record is present afterwards exactly when one was present before: no record is ever created |
| OrderApiPipeline.SetDatabaseSaveDurationReplaces | OrderManagementAPI/OrderManagementAPI/Features/Order/CreateOrderHandler.cs:65-68 | the save duration is replaced, not added to: the last write wins and no other field changes |
| OrderApiCreateHandler.StoreAfter | OrderManagementAPI/OrderManagementAPI/Features/Order/CreateOrderHandler.cs:30-59 | a taken ISBN leaves the store unchanged; otherwise exactly the mapped order is appended |
| OrderApiCreateHandler.Handle | OrderManagementAPI/OrderManagementAPI/Features/Order/CreateOrderHandler.cs:24-79 | the store becomes StoreAfter; a duplicate ISBN is rejected with "Order with this ISBN already exists." after only the ISBN-check duration is written to the shared record; otherwise the DTO of the mapped order is returned and both durations are written to it |
| OrderApiCreateHandler.Send | OrderManagementAPI/OrderManagementAPI/Common/Behaviors/ValidationBehavior.cs:26-72 | the behavior with the create handler as next(): when a validator fails the failures are thrown, the table is unchanged and only the validation time is written to the record the pipeline frames share; otherwise the handler's duplicate check, append and duration updates follow on the record the behavior left |
| OrderApiCreateHandler.AwaitSend | OrderManagementAPI/OrderManagementAPI/Common/MetricsContext.cs:5-11 | `await mediator.Send` as its caller sees it: Send's outcome and table, with the caller's `AsyncLocal` metrics record unchanged |
| OrderApiCreateHandler.StoreOnlyGrows | OrderManagementAPI/OrderManagementAPI/Features/Order/CreateOrderHandler.cs:58-59 | the old store is a prefix of the new one, which is at most one order longer |
| OrderApiCreateHandler.PreservesUniqueIsbns | OrderManagementAPI/OrderManagementAPI/Features/Order/CreateOrderHandler.cs:30-42 | a store with distinct ISBNs keeps them distinct |
| OrderApiCreateHandler.SecondRequestRejected | OrderManagementAPI/OrderManagementAPI/Features/Order/CreateOrderHandler.cs:30-42 | after one request its ISBN is taken, and repeating it changes nothing |
| OrderApiCreateHandler.HyphenatedIsbnIsDifferent | OrderManagementAPI/OrderManagementAPI/Features/Order/CreateOrderHandler.cs:30 | a stored "978-0000000001" does not make "9780000000001" a duplicate: the comparison is exact |
| OrderApiResolvers.AuthorInitials | OrderManagementAPI/OrderManagementAPI/Features/Order/Resolvers/AuthorInitialsResolver.cs:6-21 | the result has one or two characters, and a null author gives "?" |
| OrderApiResolvers.SpacesOnlyHaveNoInitials | OrderManagementAPI/OrderManagementAPI/Features/Order/Resolvers/AuthorInitialsResolver.cs:8-13 | an author made only of spaces, including the empty one, gives "?" |
| OrderApiResolvers.FirstInitial | OrderManagementAPI/OrderManagementAPI/Features/Order/Resolvers/AuthorInitialsResolver.cs:15-20 | the first initial is the upper-cased first non-space character |
| OrderApiResolvers.SpacingDoesNotMatter | OrderManagementAPI/OrderManagementAPI/Features/Order/Resolvers/AuthorInitialsResolver.cs:8 | leading, trailing and doubled spaces do not change the initials |
| OrderApiResolvers.MiddleNamesIgnored | OrderManagementAPI/OrderManagementAPI/Features/Order/Resolvers/AuthorInitialsResolver.cs:15-18 | with first, middle and last names, the result is the upper-cased first letters of the first and the last |
| OrderApiResolvers.SingleName | OrderManagementAPI/OrderManagementAPI/Features/Order/Resolvers/AuthorInitialsResolver.cs:20 | a single name gives its upper-cased first letter |
| OrderApiResolvers.AvailabilityStatus | OrderManagementAPI/OrderManagementAPI/Features/Order/Resolvers/AvailabilityStatusResolver.cs:6-20 | for an order whose availability is stock > 0: "Out of Stock" exactly when stock <= 0, "Last Copy" at 1, "Limited Stock" at 2..5, "In Stock" above 5, and never "Unavailable" |
| OrderApiResolvers.SwitchArmsWithoutInvariant | OrderManagementAPI/OrderManagementAPI/Features/Order/Resolvers/AvailabilityStatusResolver.cs:13-19 | the switch on its own maps an available order with stock 0 to "Unavailable" and one with stock -3 to "Limited Stock"; only the computed availability rules these arms out |
| OrderApiResolvers.PublishedAge | OrderManagementAPI/OrderManagementAPI/Features/Order/Resolvers/PublishedAgeResolver.cs:6-26 | "New Release" exactly under 30 days, "N months old" with N in 1..12 under 365, "N years old" with N in 1..4 under 1825, and "Classic" exactly from 1825 |
| OrderApiResolvers.AgeBandsMonotone | OrderManagementAPI/OrderManagementAPI/Features/Order/Resolvers/PublishedAgeResolver.cs:10-25 | the age band never decreases as the age grows |
| OrderApiResolvers.FutureIsNewRelease | OrderManagementAPI/OrderManagementAPI/Features/Order/Resolvers/PublishedAgeResolver.cs:8-13 | a date published less than 30 days ago, or in the future, is a new release |
| Time.WholeDays | OrderManagementAPI/OrderManagementAPI/Features/Order/Resolvers/PublishedAgeResolver.cs:8-10 | `TimeSpan.Days`: whole days truncated toward zero, for positive and negative spans |
| Time.Date | OrderManagementAPI/OrderManagementAPI/Features/Order/Validators/CreateOrderProfileRequestValidator.cs:148-149 | `DateTime.Date` is the midnight at or before the instant, less than a day earlier |
| OderIsbn.Clean | OderManagementAPI/OrderManagementAPI/Features/Order/Validators/CreateOrderProfileRequestValidator.cs:41 | the cleaned ISBN is never longer than the input |
| OderIsbn.CleanConcat | OderManagementAPI/OrderManagementAPI/Features/Order/Validators/CreateOrderProfileRequestValidator.cs:41 | cleaning distributes over concatenation |
| OderIsbn.CleanDropsSeparator | OderManagementAPI/OrderManagementAPI/Features/Order/Validators/CreateOrderProfileRequestValidator.cs:41 | inserting a '-' or space leaves the cleaned ISBN unchanged |
| OderIsbn.SeparatorInvariance | OderManagementAPI/OrderManagementAPI/Features/Order/Validators/CreateOrderProfileRequestValidator.cs:41 | inserting or removing a '-' or space never changes the checksum verdict |
| OderIsbn.CleanOfLowercaseX | OderManagementAPI/OrderManagementAPI/Features/Order/Validators/CreateOrderProfileRequestValidator.cs:41 | upper-casing makes 'x' and 'X' clean to the same string |
| OderIsbn.LowercaseXIsX | OderManagementAPI/OrderManagementAPI/Features/Order/Validators/CreateOrderProfileRequestValidator.cs:41-58 | a lower-case 'x' is judged exactly as 'X' |
| OderIsbn.BeAValidIsbn | OderManagementAPI/OrderManagementAPI/Features/Order/Validators/CreateOrderProfileRequestValidator.cs:37-83 | the two summing loops return true exactly when the input is not null or blank and cleans to a valid ISBN-10 or ISBN-13 |
| OderIsbn.WhiteSpaceCleansToNoIsbn | OderManagementAPI/OrderManagementAPI/Features/Order/Validators/CreateOrderProfileRequestValidator.cs:39 | a blank string never cleans to a valid ISBN |
| OderIsbn.WhiteSpaceGuardRedundant | OderManagementAPI/OrderManagementAPI/Features/Order/Validators/CreateOrderProfileRequestValidator.cs:39-41 | for non-null input the verdict is just the checksum test on the cleaned string |
| OderIsbn.RejectedShapes | OderManagementAPI/OrderManagementAPI/Features/Order/Validators/CreateOrderProfileRequestValidator.cs:39-82 | null, blank, and any cleaned length other than 10 or 13 are rejected |
| OderIsbn.Isbn10ExactlyOneCheckChar | OderManagementAPI/OrderManagementAPI/Features/Order/Validators/CreateOrderProfileRequestValidator.cs:43-66 | for nine digits exactly one tenth character is accepted: the weighted sum mod 11 as a digit, or 'X' for 10 |
| OderIsbn.Isbn13ExactlyOneCheckChar | OderManagementAPI/OrderManagementAPI/Features/Order/Validators/CreateOrderProfileRequestValidator.cs:68-80 | for twelve digits exactly one thirteenth character is accepted: (10 - sum mod 10) mod 10 |
| OderIsbn.Sum10AfterOneChange | OderManagementAPI/OrderManagementAPI/Features/Order/Validators/CreateOrderProfileRequestValidator.cs:47-51 | changing digit k changes the ISBN-10 sum by (k+1) times the digit difference |
| OderIsbn.Sum13AfterOneChange | OderManagementAPI/OrderManagementAPI/Features/Order/Validators/CreateOrderProfileRequestValidator.cs:72-76 | changing digit k changes the ISBN-13 sum by its weight (1 or 3) times the digit difference |
| OderIsbn.Isbn10DetectsSingleDigitError | OderManagementAPI/OrderManagementAPI/Features/Order/Validators/CreateOrderProfileRequestValidator.cs:43-66 | changing any one of the first nine digits of a valid ISBN-10 makes it invalid |
| OderIsbn.Isbn13DetectsSingleDigitError | OderManagementAPI/OrderManagementAPI/Features/Order/Validators/CreateOrderProfileRequestValidator.cs:68-80 | changing any one of the first twelve digits of a valid ISBN-13 makes it invalid |
| OderIsbn.CheckCharChangeDetected | OderManagementAPI/OrderManagementAPI/Features/Order/Validators/CreateOrderProfileRequestValidator.cs:53-79 | replacing the check character of a valid ISBN by another character makes it invalid |
| OderIsbn.Isbn10Example | OderManagementAPI/OrderManagementAPI/Features/Order/Validators/CreateOrderProfileRequestValidator.cs:43-66 | 0306406152 is a valid ISBN-10 |
| OderIsbn.Isbn10WrongCheckChar | OderManagementAPI/OrderManagementAPI/Features/Order/Validators/CreateOrderProfileRequestValidator.cs:56-58 | 030640615X is not a valid ISBN-10 |
| OderIsbn.Isbn13Example | OderManagementAPI/OrderManagementAPI/Features/Order/Validators/CreateOrderProfileRequestValidator.cs:68-80 | 9780306406157 is a valid ISBN-13 |
| OderIsbn.Isbn13WrongCheckDigit | OderManagementAPI/OrderManagementAPI/Features/Order/Validators/CreateOrderProfileRequestValidator.cs:78-79 | 9780306406158 is not a valid ISBN-13 |
| OderIsbn.CheckDigit13 | OderManagementAPI/OrderManagementAPI/Features/Order/Validators/CreateOrderProfileRequestValidator.cs:78 | the ISBN-13 check digit is between 0 and 9 |
| OderIsbn.Weight13 | OderManagementAPI/OrderManagementAPI/Features/Order/Validators/CreateOrderProfileRequestValidator.cs:75 | every ISBN-13 weight is 1 or 3 |
| OderValidator.IsbnMessage | OderManagementAPI/OrderManagementAPI/Features/Order/Validators/CreateOrderProfileRequestValidator.cs:22 | the message starts with the quoted ISBN value |
| OderValidator.TextFailures | OderManagementAPI/OrderManagementAPI/Features/Order/Validators/CreateOrderProfileRequestValidator.cs:13-19 | at most two failures, all for the property; none exactly when the value is not blank and its UTF-16 length is within the maximum; "required" first when blank, "too long" last when too long |
| OderValidator.ScalarFailures | OderManagementAPI/OrderManagementAPI/Features/Order/Validators/CreateOrderProfileRequestValidator.cs:24-34 | none exactly when the category is defined, price > 0, the date is not after the captured now, and stock >= 0 |
| OderValidator.Validate | OderManagementAPI/OrderManagementAPI/Features/Order/Validators/CreateOrderProfileRequestValidator.cs:11-35 | no failure exactly when every rule holds, including the ISBN checksum |
| OderValidator.BlankLongTitleFailsTwice | OderManagementAPI/OrderManagementAPI/Features/Order/Validators/CreateOrderProfileRequestValidator.cs:13-15 | 201 spaces give "required" then "too long": the chain does not stop |
| OderValidator.IsbnRuleIsChecksum | OderManagementAPI/OrderManagementAPI/Features/Order/Validators/CreateOrderProfileRequestValidator.cs:21-22 | an ISBN failure appears exactly when BeAValidIsbn rejects, and it carries the quoted-value message |
| OderValidator.AcceptanceIgnoresIsbnSeparators | OderManagementAPI/OrderManagementAPI/Features/Order/Validators/CreateOrderProfileRequestValidator.cs:21-22 | a '-' or space in the ISBN never changes whether the request is accepted |
| OderValidator.PublishedDateBoundary | OderManagementAPI/OrderManagementAPI/Features/Order/Validators/CreateOrderProfileRequestValidator.cs:30-31 | a date equal to now passes and one tick later fails |
| OderPersistenceValidator.Branch13NeverMatches | OderManagementAPI/OrderManagementAPI/Persistance/CreateOrderProfileRequestValidator.cs:12 | the 13-digit alternative can never match: its lookahead demands digits where its body demands hyphens |
| OderPersistenceValidator.RegexCharacterization | OderManagementAPI/OrderManagementAPI/Persistance/CreateOrderProfileRequestValidator.cs:12 | the pattern matches exactly one of the ISBN-10 prefixes followed by ten digits, optionally then '\n' |
| OderPersistenceValidator.AcceptedStartsWithIsbn | OderManagementAPI/OrderManagementAPI/Persistance/CreateOrderProfileRequestValidator.cs:12 | every accepted ISBN begins with the literal "ISBN" |
| OderPersistenceValidator.AcceptedHasNoX | OderManagementAPI/OrderManagementAPI/Persistance/CreateOrderProfileRequestValidator.cs:12 | no accepted ISBN contains 'X' |
| OderPersistenceValidator.PrefixedExamplesAccepted | OderManagementAPI/OrderManagementAPI/Persistance/CreateOrderProfileRequestValidator.cs:12 | "ISBN0306406152" and "ISBN-10:0306406152" match |
| OderPersistenceValidator.RejectedExamples | OderManagementAPI/OrderManagementAPI/Persistance/CreateOrderProfileRequestValidator.cs:12 | a bare ISBN-10, a hyphenated ISBN-13 and an ISBN ending in 'X' do not match |
| OderPersistenceValidator.BlankNotMatched | OderManagementAPI/OrderManagementAPI/Persistance/CreateOrderProfileRequestValidator.cs:11-12 | a blank ISBN never matches the pattern |
| OderPersistenceValidator.Validate | OderManagementAPI/OrderManagementAPI/Persistance/CreateOrderProfileRequestValidator.cs:7-16 | no failure exactly when title, author and ISBN are not blank, the ISBN matches, price > 0 and stock >= 0 |
| OderPersistenceValidator.NamedTitleAndAuthor | OderManagementAPI/OrderManagementAPI/Persistance/CreateOrderProfileRequestValidator.cs:9-10 | a one-letter title and author satisfy NotEmpty |
| OderPersistenceValidator.BlankIsbnFailsTwice | OderManagementAPI/OrderManagementAPI/Persistance/CreateOrderProfileRequestValidator.cs:11-13 | a blank ISBN gives "ISBN is required." then the format message |
| OderPersistenceValidator.NumericRules | OderManagementAPI/OrderManagementAPI/Persistance/CreateOrderProfileRequestValidator.cs:14-15 | price <= 0 gives exactly the price message and negative stock exactly the stock message |
| OderPersistenceValidator.UnconstrainedFields | OderManagementAPI/OrderManagementAPI/Persistance/CreateOrderProfileRequestValidator.cs:7-16 | category, published date and cover URL never affect the result |
| OderMapping.MapToOrder | OderManagementAPI/OrderManagementAPI/Features/Order/AdvancedOrderMappingProfile.cs:10-16 | id and creation time are the given ones, UpdatedAt is unset, the other fields are copied, and IsAvailable holds exactly when stock > 0 |
| OderMapping.PriceAndCoverRules | OderManagementAPI/OrderManagementAPI/Features/Order/AdvancedOrderMappingProfile.cs:15-16 | Children: the price is exactly 0.9 times the request price and the cover is dropped; otherwise both are copied; a positive price never rises |
| OderHandler.OrdersAfter | OderManagementAPI/OrderManagementAPI/Features/Order/CreateOrderHandler.cs:24-40 | a valid request with an unused ISBN appends exactly its mapped order; otherwise the orders are unchanged |
| OderHandler.CacheAfter | OderManagementAPI/OrderManagementAPI/Features/Order/CreateOrderHandler.cs:42 | on success exactly the all_orders key is removed; otherwise the cache is unchanged |
| OderHandler.Handle | OderManagementAPI/OrderManagementAPI/Features/Order/CreateOrderHandler.cs:19-47 | validation failures are returned first; then a duplicate ISBN fails with "An order with this ISBN already exists."; otherwise the order is added, the cache key removed and the mapped DTO returned; the state is OrdersAfter and CacheAfter |
| OderHandler.OrdersAfterKeepsUniqueIsbns | OderManagementAPI/OrderManagementAPI/Features/Order/CreateOrderHandler.cs:30-40 | distinct ISBNs stay distinct, and the old orders are a prefix of the new ones |
| OderHandler.CacheLosesOnlyAllOrders | OderManagementAPI/OrderManagementAPI/Features/Order/CreateOrderHandler.cs:42 | every other cache entry survives unchanged |
| OderHandler.AddedOrdersPassTheChecksumValidator | OderManagementAPI/OrderManagementAPI/Features/Order/CreateOrderHandler.cs:24-40 | an order added after the checksum validator has a valid ISBN, a positive price, non-negative stock and consistent availability |
| OderHandler.SecondRequestRejected | OderManagementAPI/OrderManagementAPI/Features/Order/CreateOrderHandler.cs:30-35 | resubmitting an accepted request leaves the orders unchanged |
| OderResolvers.AuthorInitials | OderManagementAPI/OrderManagementAPI/Features/Order/Resolvers/AuthorInitialsResolver.cs:9-29 | one or two characters, and "?" for a null or blank author |
| OderResolvers.FinalFallbackUnreachable | OderManagementAPI/OrderManagementAPI/Features/Order/Resolvers/AuthorInitialsResolver.cs:28 | a non-blank author always splits into at least one part, so the last return is dead |
| OderResolvers.AgreesWithOrderApi | OderManagementAPI/OrderManagementAPI/Features/Order/Resolvers/AuthorInitialsResolver.cs:9-29 | on null, non-blank or all-space authors it returns what the OrderManagementAPI resolver returns |
| OderResolvers.TabDiffers | OderManagementAPI/OrderManagementAPI/Features/Order/Resolvers/AuthorInitialsResolver.cs:11 | on a lone tab the two resolvers differ: "?" against a tab |
| OderResolvers.AvailabilityStatus | OderManagementAPI/OrderManagementAPI/Features/Order/Resolvers/AvailabilityStatusResolver.cs:7-25 | "Out of Stock" exactly when not available, otherwise one of the three stock labels |
| OderResolvers.AgreesWithOrderApiWhenFlagMatchesStock | OderManagementAPI/OrderManagementAPI/Features/Order/Resolvers/AvailabilityStatusResolver.cs:7-25 | when availability means stock > 0, it returns what the OrderManagementAPI resolver returns |
| OderResolvers.AvailableWithoutStock | OderManagementAPI/OrderManagementAPI/Features/Order/Resolvers/AvailabilityStatusResolver.cs:9 | an available order with stock <= 0 is labelled "Limited Stock" |
| OderResolvers.MappedOrderLabels | OderManagementAPI/OrderManagementAPI/Features/Order/Resolvers/AvailabilityStatusResolver.cs:7-25 | for a mapped order: "Out of Stock" exactly when stock <= 0, "Last Copy" at 1, "Limited Stock" at 2..5, "In Stock" above 5 |
| BookValidators.IdFailures | Lab-0.3/BookManagement/BookManagement/Validators/DeleteBookValidator.cs:10-11 | at most one failure, present exactly for Guid.Empty, with the "Book ID must not be empty." message |
| BookValidators.BookFieldFailures | Lab-0.3/BookManagement/BookManagement/Validators/CreateBookValidator.cs:10-12 | each of the author, title and year messages appears exactly when its own rule fails; none exactly when all hold |
| BookValidators.ValidateCreateBook | Lab-0.3/BookManagement/BookManagement/Validators/CreateBookValidator.cs:8-13 | valid exactly when author and title are not blank and 0 <= year <= the current year |
| BookValidators.ValidateUpdateBook | Lab-0.3/BookManagement/BookManagement/Validators/UpdateBookValidator.cs:8-15 | valid exactly when the id is not empty and the create rules hold; an empty id is reported first |
| BookValidators.PagingFailures | Lab-0.3/BookManagement/BookManagement/Validators/GetAllBooksValidator.cs:10-16 | the page message appears exactly when page < 1, the size message exactly when the size is outside 1..100 |
| BookValidators.ValidateGetAllBooks | Lab-0.3/BookManagement/BookManagement/Validators/GetAllBooksValidator.cs:8-17 | valid exactly when page >= 1 and 1 <= size <= 100 |
| BookValidators.ValidateGetBookByIdByPage | Lab-0.3/BookManagement/BookManagement/Validators/GetBookByIdByPageValidator.cs:8-21 | valid exactly when the id is not empty, page >= 1 and 1 <= size <= 100 |
| BookValidators.ValidateGetBookById | Lab-0.3/BookManagement/BookManagement/Validators/GetBookByIdValidator.cs:8-12 | at most one failure, none exactly when the id is not empty |
| BookValidators.ValidateDeleteBook | Lab-0.3/BookManagement/BookManagement/Validators/DeleteBookValidator.cs:8-12 | at most one failure, none exactly when the id is not empty |
| BookValidators.UpdateIsIdRulePlusCreate | Lab-0.3/BookManagement/BookManagement/Validators/UpdateBookValidator.cs:10-14 | the update failures are the id failure followed by exactly the create failures |
| BookValidators.ByPageIsIdRulePlusGetAll | Lab-0.3/BookManagement/BookManagement/Validators/GetBookByIdByPageValidator.cs:10-20 | the by-page failures are the id failure followed by exactly the get-all failures |
| BookValidators.DeleteAndGetByIdAgree | Lab-0.3/BookManagement/BookManagement/Validators/DeleteBookValidator.cs:10-11 | the delete and get-by-id validators give the same failures on every id |
| BookValidators.PagingBoundaries | Lab-0.3/BookManagement/BookManagement/Validators/GetAllBooksValidator.cs:10-16 | the defaults 1 and 10 pass; page 0, size 0 and size 101 fail; size 1 and 100 pass |
| BookValidators.FieldsReportIndependently | Lab-0.3/BookManagement/BookManagement/Validators/CreateBookValidator.cs:10-12 | an empty title and a future year are both reported, and the author message depends only on the author |
| BookPaging.SkipTake | Lab-0.3/BookManagement/BookManagement/Features/Books/GetAllBooksHandler.cs:23-24 | `Skip(n).Take(m)`: a non-positive skip skips nothing, a non-positive take takes nothing, and the elements are those from the skip on, at most m of them |
| BookPaging.ValidSkipNotNegative | Lab-0.3/BookManagement/BookManagement/Validators/GetAllBooksValidator.cs:10-16 | for every accepted request the exact skip is >= 0 |
| BookPaging.GetAllBooks | Lab-0.3/BookManagement/BookManagement/Features/Books/GetAllBooksHandler.cs:11-27 | BadRequest exactly when the validator fails; otherwise at most PageSize books, and none when the skip is at or past the end |
| BookPaging.GetAllBooksAsWritten | Lab-0.3/BookManagement/BookManagement/Features/Books/GetAllBooksHandler.cs:11-27 | the same handler with the 32-bit skip: BadRequest exactly when the validator fails, otherwise at most PageSize books |
| BookPaging.SkipExactWhileItFits | Lab-0.3/BookManagement/BookManagement/Features/Books/GetAllBooksHandler.cs:20 | for a valid request whose exact skip fits in an int, the wrapped skip equals it |
| BookPaging.AsWrittenAgreesWhileSkipFits | Lab-0.3/BookManagement/BookManagement/Features/Books/GetAllBooksHandler.cs:20-25 | the handler as written returns the intended page whenever the skip fits in an int |
| BookPaging.AsWrittenFarPageReturnsFirstPage | Lab-0.3/BookManagement/BookManagement/Features/Books/GetAllBooksHandler.cs:20-25 | page 21474838 of size 100 wraps to skip -2147483596 and returns the first page instead of an empty one |
| BookPaging.GetAllBooksReturnsPage | Lab-0.3/BookManagement/BookManagement/Features/Books/GetAllBooksHandler.cs:20-25 | a valid request returns exactly the slice from (Page-1)*PageSize, at most PageSize long, in table order |
| BookPaging.PageIsSkipTake | Lab-0.3/BookManagement/BookManagement/Features/Books/GetAllBooksHandler.cs:23-24 | a page is the Skip/Take of its start |
| BookPaging.PagesPartitionPrefix | Lab-0.3/BookManagement/BookManagement/Features/Books/GetAllBooksHandler.cs:20-25 | pages 1..k concatenated are exactly the first k*PageSize books: no overlap and no gap |
| BookPaging.PastTheEndIsEmpty | Lab-0.3/BookManagement/BookManagement/Features/Books/GetAllBooksHandler.cs:21-26 | a page past the end is Ok with no books, not an error |
| Numerics.Wrap32 | Lab-0.3/BookManagement/BookManagement/Features/Books/GetAllBooksHandler.cs:20 | C# int arithmetic: the result is congruent modulo 2^32 and equals the input when it fits |
| BookOrder.StrLessIrreflexive | Lab-0.3/BookManagement/BookManagement/Features/Books/GetBookByIdByPageHandler.cs:25 | no title sorts before itself |
| BookOrder.StrLessTransitive | Lab-0.3/BookManagement/BookManagement/Features/Books/GetBookByIdByPageHandler.cs:25 | the title order is transitive |
| BookOrder.StrLessTotal | Lab-0.3/BookManagement/BookManagement/Features/Books/GetBookByIdByPageHandler.cs:25 | any two distinct titles are ordered one way or the other |
| BookOrder.KeyLeqReflexive | Lab-0.3/BookManagement/BookManagement/Features/Books/GetBookByIdByPageHandler.cs:25-26 | the (Title, Id) order is reflexive |
| BookOrder.KeyLeqTotal | Lab-0.3/BookManagement/BookManagement/Features/Books/GetBookByIdByPageHandler.cs:25-26 | the (Title, Id) order is total |
| BookOrder.KeyLeqTransitive | Lab-0.3/BookManagement/BookManagement/Features/Books/GetBookByIdByPageHandler.cs:25-26 | the (Title, Id) order is transitive |
| BookOrder.KeyLeqAntisymmetric | Lab-0.3/BookManagement/BookManagement/Features/Books/GetBookByIdByPageHandler.cs:25-26 | two books equal under the order have the same title and id |
| BookOrder.Insert | Lab-0.3/BookManagement/BookManagement/Features/Books/GetBookByIdByPageHandler.cs:25-26 | inserting into a sorted sequence keeps it sorted and adds exactly that book |
| BookOrder.SortBooks | Lab-0.3/BookManagement/BookManagement/Features/Books/GetBookByIdByPageHandler.cs:23-26 | `OrderBy(Title).ThenBy(Id)` gives a sorted permutation of the table |
| BookOrder.SortedPermutationUnique | Lab-0.3/BookManagement/BookManagement/Features/Books/GetBookByIdByPageHandler.cs:25-26 | with ids identifying books, there is only one sorted arrangement of a table |
| BookOrder.SortIgnoresStoredOrder | Lab-0.3/BookManagement/BookManagement/Features/Books/GetBookByIdByPageHandler.cs:23-26 | the sorted table does not depend on the order the rows are stored in |
| BookOrder.UniqueIdsPermutation | Lab-0.3/BookManagement/BookManagement/Features/Books/GetBookByIdByPageHandler.cs:23-26 | reordering rows keeps ids distinct |
| BookOrder.FirstWithId | Lab-0.3/BookManagement/BookManagement/Features/Books/GetBookByIdByPageHandler.cs:31 | `FirstOrDefault(b => b.Id == id)`: null exactly when no row has that id, otherwise the row at the first position holding that id |
| BookOrder.FirstWithIdFindsTheBook | Lab-0.3/BookManagement/BookManagement/Features/Books/GetBookByIdByPageHandler.cs:31 | with distinct ids, the lookup returns the one row holding the id |
| BookHandlers.LookupOnPage | Lab-0.3/BookManagement/BookManagement/Features/Books/GetBookByIdByPageHandler.cs:27-31 | the book is found exactly when a row with that id sits at a position in [skip, skip+size), and a found book is from the table |
| BookHandlers.GetBookByIdByPage | Lab-0.3/BookManagement/BookManagement/Features/Books/GetBookByIdByPageHandler.cs:11-38 | BadRequest exactly when the validator fails; otherwise Ok or NotFound, and Ok carries the requested id |
| BookHandlers.GetBookByIdByPageAsWritten | Lab-0.3/BookManagement/BookManagement/Features/Books/GetBookByIdByPageHandler.cs:20-31 | the same handler with the 32-bit skip; a returned book still carries the requested id |
| BookHandlers.ByPageFoundIff | Lab-0.3/BookManagement/BookManagement/Features/Books/GetBookByIdByPageHandler.cs:20-37 | for a valid request, Ok exactly when the id is at a sorted position on the requested page |
| BookHandlers.ByPageReturnsStoredBook | Lab-0.3/BookManagement/BookManagement/Features/Books/GetBookByIdByPageHandler.cs:31-37 | a returned book is a row of the table |
| BookHandlers.OnAnotherPageNotFound | Lab-0.3/BookManagement/BookManagement/Features/Books/GetBookByIdByPageHandler.cs:27-35 | a stored book whose sorted position is on another page gives NotFound |
| BookHandlers.ByPageIgnoresStoredOrder | Lab-0.3/BookManagement/BookManagement/Features/Books/GetBookByIdByPageHandler.cs:23-26 | the answer does not depend on the order rows are stored in |
| BookHandlers.ByPageAsWrittenAgreesWhileSkipFits | Lab-0.3/BookManagement/BookManagement/Features/Books/GetBookByIdByPageHandler.cs:20 | as written and as intended agree whenever the skip fits in an int |
| BookHandlers.ByPageAsWrittenFindsBookOnFarPage | Lab-0.3/BookManagement/BookManagement/Features/Books/GetBookByIdByPageHandler.cs:20-37 | a one-book table asked for page 21474838 of size 100 gives NotFound as intended but Ok as written |
| BookHandlers.GetBookById | Lab-0.3/BookManagement/BookManagement/Features/Books/GetBookByIdHandler.cs:9-17 | NotFound exactly when no row has the id; otherwise Ok with a row holding it; never BadRequest |
| BookHandlers.GetByIdFindsStoredBook | Lab-0.3/BookManagement/BookManagement/Features/Books/GetBookByIdHandler.cs:11-16 | a stored id returns its book |
| BookHandlers.GetByIdSkipsValidation | Lab-0.3/BookManagement/BookManagement/Features/Books/GetBookByIdHandler.cs:9-17 | Guid.Empty fails its validator, yet the handler still finds a row stored under it |
| BookHandlers.ByPageAgreesWithGetById | Lab-0.3/BookManagement/BookManagement/Features/Books/GetBookByIdByPageHandler.cs:31-37 | whenever the by-page lookup finds a book, get-by-id returns the same book |
| BookHandlers.WithoutId | Lab-0.3/BookManagement/BookManagement/Features/Books/DeleteBookHandler.cs:24 | the remaining rows are exactly those whose id differs |
| BookHandlers.WithoutIdRemovesOneRow | Lab-0.3/BookManagement/BookManagement/Features/Books/DeleteBookHandler.cs:24-25 | with distinct ids, removing a stored id removes exactly that row and keeps the others in order |
| BookHandlers.WithoutAbsentId | Lab-0.3/BookManagement/BookManagement/Features/Books/DeleteBookHandler.cs:18-22 | removing an absent id changes nothing |
| BookHandlers.BookStore.Delete | Lab-0.3/BookManagement/BookManagement/Features/Books/DeleteBookHandler.cs:10-28 | the result is DeleteResult and the table becomes RowsAfterDelete |
| BookHandlers.DeleteResult | Lab-0.3/BookManagement/BookManagement/Features/Books/DeleteBookHandler.cs:12-27 | BadRequest exactly when the validator fails; NoContent exactly when the id is not empty and stored; otherwise NotFound |
| BookHandlers.RowsAfterDelete | Lab-0.3/BookManagement/BookManagement/Features/Books/DeleteBookHandler.cs:18-25 | unchanged unless NoContent; on NoContent exactly the rows with other ids remain |
| BookHandlers.DeleteRemovesOnlyThatBook | Lab-0.3/BookManagement/BookManagement/Features/Books/DeleteBookHandler.cs:18-27 | deleting a stored book returns NoContent, removes only its row, keeps ids distinct, and the book is then not found |
| BookHandlers.DeleteTwice | Lab-0.3/BookManagement/BookManagement/Features/Books/DeleteBookHandler.cs:18-27 | deleting the same id twice gives NoContent, then NotFound |
| IntParse.ParseInt32 | Lab-0.2/Lab-0.2/Program.cs:40-41 | `int.TryParse` of a null string fails; which other strings parse is stated by ParseInt32Iff |
| IntParse.ParseInt32Iff | Lab-0.2/Lab-0.2/Program.cs:40-41 | parsing gives v exactly when the string is white space, an optional '+' or '-', at least one digit and white space, and the sign and digits denote v; every other string, and every value outside the int range, fails |
| IntParse.ParseOfLayout | Lab-0.2/Lab-0.2/Program.cs:40-41 | a string laid out as white space, sign, digits, white space parses to the signed value when it fits in an int, and fails otherwise |
| IntParse.LayoutOfParse | Lab-0.2/Lab-0.2/Program.cs:40-41 | every string that parses has that layout, with the parsed value as its signed value |
| IntParse.ParseIntToString | Lab-0.2/Lab-0.2/Program.cs:40-41 | the text `ToString()` writes for any int, negative ones included, parses back to it |
| IntParse.DigitsValueOfNatToString | Lab-0.2/Lab-0.2/Program.cs:40-41 | the digits ToString writes for n read back as n |
| IntParse.ParseNatToString | Lab-0.2/Lab-0.2/Program.cs:40-41 | the decimal text of n parses back to n exactly when n fits in an int, and fails otherwise |
| IntParse.ParseOfDigits | Lab-0.2/Lab-0.2/Program.cs:40-41 | a run of digits parses to its value when it fits in an int |
| IntParse.NotNumbers | Lab-0.2/Lab-0.2/Program.cs:40-41 | null, "" and "-" do not parse |
| IntParse.WordNotNumber | Lab-0.2/Lab-0.2/Program.cs:40-41 | "two" does not parse |
| IntParse.ParsePadded | Lab-0.2/Lab-0.2/Program.cs:40-41 | " 2 " parses to 2: surrounding white space is allowed |
| IntParse.ParseSigned | Lab-0.2/Lab-0.2/Program.cs:40-41 | "+3" parses to 3 |
| TaskManager.TaskList.constructor | Lab-0.2/Lab-0.2/Program.cs:149 | the list holds the given tasks |
| TaskManager.AddTask | Lab-0.2/Lab-0.2/Program.cs:19-28 | the list becomes the old list with one new task appended |
| TaskManager.AddTaskAppendsOpenTask | Lab-0.2/Lab-0.2/Program.cs:19-28 | the old tasks are kept, and the new last task is open, due seven days after the clock reading, and titled with the input or "Untitled Task" for a null line |
| TaskManager.Completed | Lab-0.2/Lab-0.2/Program.cs:40-45 | same length, titles and due dates; a task is complete afterwards exactly when it was, or when the input parses to its 1-based number |
| TaskManager.CompletedNumber | Lab-0.2/Lab-0.2/Program.cs:40-45 | the same statement in terms of the parsed number |
| TaskManager.MarkTaskComplete | Lab-0.2/Lab-0.2/Program.cs:30-53 | the list is replaced by Completed of the old list and the input line |
| TaskManager.CompletedUnselected | Lab-0.2/Lab-0.2/Program.cs:30-53 | when the input selects no task (an empty list, an unparsable line, an out-of-range number), the list is unchanged |
| TaskManager.CompletedSelected | Lab-0.2/Lab-0.2/Program.cs:40-45 | a valid number replaces only that task, by its completed copy; completing a completed task leaves the list equal |
| TaskManager.CompletedIdempotent | Lab-0.2/Lab-0.2/Program.cs:43-45 | entering the same number twice has the effect of once |
| TaskManager.OverdueMembers | Lab-0.2/Lab-0.2/Program.cs:91-93 | the overdue list holds exactly the open tasks due before now, and is no longer than the list |
| TaskManager.OverdueConcat | Lab-0.2/Lab-0.2/Program.cs:91-93 | the filter keeps the original order: it distributes over concatenation |
| TaskManager.NewTaskNotOverdue | Lab-0.2/Lab-0.2/Program.cs:24 | a task added from the menu is not overdue within its seven days |
| TaskManager.CompletingNeverAddsOverdue | Lab-0.2/Lab-0.2/Program.cs:91-93 | marking a task complete never makes another task overdue |
| TaskManager.CopyWithTask | Lab-0.2/Lab-0.2/Program.cs:78-84 | the copy has a fresh list holding the original tasks plus the new one, and the original list is unchanged |
| TaskManager.Start | Lab-0.2/Lab-0.2/Program.cs:73-93 | project holds "Initial Task", due in 7 days; project2 has its own list with "New Task", due in 14 days, added; the overdue list is the filter of project's tasks |
| TaskManager.NothingOverdueAtStart | Lab-0.2/Lab-0.2/Program.cs:73-93 | checked within seven days of creation, the start-up project has nothing overdue |
| TaskManager.RunMenu | Lab-0.2/Lab-0.2/Program.cs:116-144 | the loop leaves the list as the Session function of the old list and the input lines |
| TaskManager.SessionExtends | Lab-0.2/Lab-0.2/Program.cs:116-144 | a menu session never removes or reorders a task, never changes a title or due date, and never reopens a completed task |
| TaskManager.SessionGrowth | Lab-0.2/Lab-0.2/Program.cs:116-144 | a session adds at most one task per input line |
| Text.Utf16LengthIsCount | OrderManagementAPI/OrderManagementAPI/Features/Order/Validators/CreateOrderProfileRequestValidator.cs:24-25 | `string.Length` equals the character count exactly when no character lies above U+FFFF |
| Text.Utf16LengthOfSurrogatePairs | OrderManagementAPI/OrderManagementAPI/Features/Order/Validators/CreateOrderProfileRequestValidator.cs:24-25 | characters above U+FFFF count two code units each |
| Text.SplitEmptyIffSpaces | OrderManagementAPI/OrderManagementAPI/Features/Order/Resolvers/AuthorInitialsResolver.cs:8-10 | splitting on ' ' without empty entries gives no parts exactly when the string is all spaces |
| Text.SplitAroundSpace | OrderManagementAPI/OrderManagementAPI/Features/Order/Resolvers/AuthorInitialsResolver.cs:8 | a space separates the parts of its two sides |
| Text.DoubledSpace | OrderManagementAPI/OrderManagementAPI/Features/Order/Resolvers/AuthorInitialsResolver.cs:8 | a doubled space splits like a single one |
| Text.SplitFirst | OrderManagementAPI/OrderManagementAPI/Features/Order/Resolvers/AuthorInitialsResolver.cs:15-20 | the first part begins with the first non-space character |

## Left out

- Program.cs of all three web projects, the middleware, EF Core configuration and migrations, Swagger and routing are transport and wiring, not decision logic.
- Logging calls and stopwatch measurement are left out. Elapsed times enter the handlers as integer parameters.
- The OderManagementAPI PublishedAgeResolver works in floating point (`TotalDays`, 365.25), so it is not modelled.
- PriceFormatterResolver and the currency text in the PriceRange message are culture-dependent. The formatter is a function parameter.
- The OrderManagementAPI mapping profile is not part of this model. Its mappings are function parameters of the create handler.
- `Uri.TryCreate` and `Path.GetExtension` are replaced. The URL arrives already parsed into a scheme and an absolute path, and the extension is taken from the path's last '.' segment.
- Character classes use ASCII:
  - `char.IsDigit` and `\d` accept ASCII digits only;
  - `ToUpper` and `ToLower` map ASCII letters only;
  - `char.IsLetter` is ASCII letters;
  - `char.IsWhiteSpace` uses the full .NET list.
- String ordering in `OrderBy(b => b.Title)` is ordinal, by character code. The database collation and a culture-aware comparer are not modelled.
- `Book` ids are assumed distinct (the table's primary key) wherever a lemma relies on it. `FindAsync` is a search of the table.
- BookHandlers.GetBookById: the store is a sequence with distinct ids rather than a dictionary, so "lookup" is a search by id.
- TaskManager.AddTask, TaskManager.Start: `DateTime` is an unbounded tick count, so `DateTime.Now.AddDays(7)` and `AddDays(14)` never throw; .NET throws ArgumentOutOfRangeException past 9999-12-31, and the model does not.
- TaskManager.OverdueMembers: the overdue filter compares every task with one clock reading `now`; the original reads `DateTime.Now` again for each task, so a task falling due while the filter runs may be judged differently.
- OrderApiValidator.Validate: one `today` serves both the published-date rule and the daily-count business rule. In the original the date rule's `DateTime.Today` is read once, when the rules are built, and the business rule's `DateTime.Today.Date` on every call, so they can differ once midnight passes between construction and validation.
- IntParse.ParseInt32: only the invariant culture's '+' and '-' signs are handled. Trailing NUL characters are not, and neither are other `NumberStyles`.
- TaskManager.RunMenu: a null console line (end of input) ends the session here, while the original loops forever. The text printed by DisplayInfo and DisplayTasks is not modelled.
- The `Manager` class (Program.cs of Lab-0.2) only holds data and is never used, so it is not modelled.
- Null strings are modelled only where the code handles them: the ISBN checksum, the resolvers, the console input and the cover URL. Elsewhere request strings are non-null.
- Test files are not modelled. Some of their assertions expect rules that the validators shown do not contain.
- FailuresConcat: each validator is modelled with its own failure list. In the original, ValidationBehavior builds one `ValidationContext` and passes it to every validator. FluentValidation backs each result with that context's shared failure list, so with two or more failing validators the source repeats the failures once per validator, possibly interleaved in completion order. The deployed program registers one validator per request, and `OrderApiPipeline.SingleValidator` covers that case.
- RunValidators: the failures are each validator's own list in validator order. With several validators sharing one context, the original repeats them (see the FailuresConcat line).
- Handle (`OrderApiPipeline.Handle`): the thrown failure list rests on the same independent-list reading as RunValidators. It is exact for one validator, but not for several validators sharing one context.
- BookPaging.GetAllBooks: the query has no `OrderBy`, so the database decides the row order. The model takes the stored sequence's order, and `BookPaging.PagesPartitionPrefix` holds only while that order is stable between requests.
- OderIsbn.BeAValidIsbn, OrderApiIsbnAttribute.StringVerdict, OrderApiResolvers.AuthorInitials, OderResolvers.AuthorInitials: these count and index characters, not UTF-16 code units. A character above U+FFFF is a surrogate pair in .NET. Such a pair is never a digit, 'X', '-' or a space, so it breaks every ISBN rule either way. A name starting with one gives a lone surrogate as its initial in the original but the whole character here.
- Asynchrony and cancellation tokens are not modelled. MetricsContext is one object passed explicitly, holding the record as the behavior and the handler see it. The `AsyncLocal` scoping appears only in `OrderApiCreateHandler.AwaitSend`. The behavior's and the handler's writes stay inside their `async` frames, so they are invisible to Send's caller. The original endpoint therefore logs zero validation and save durations (see Findings). The endpoint itself is not modelled.
- BookValidators.BookFieldFailures: one `currentYear` serves both the `InclusiveBetween(0, DateTime.Now.Year)` bound and the message. The original reads `DateTime.Now.Year` separately for each when the validator is built, so the two can differ if the year turns between the two reads.
- OderMapping.PriceAndCoverRules: `Price * 0.9m` is exact `real` multiplication here. C# `decimal` rounds a product that needs more than 28-29 significant digits.
- The DTO returned by the handlers is produced by a function parameter. The DTO's fields are not modelled.

## Findings

| source | as written | input that shows it | evidently intended | confidence | as-written member | corrected member |
|---|---|---|---|---|---|---|
| OrderManagementAPI/OrderManagementAPI/Program.cs:87-96 | the endpoint reads `MetricsContext.CurrentMetrics` after `await mediator.Send(request)`. The behavior and the handler wrote their durations to the `AsyncLocal` slot inside `async` methods, and those writes do not flow back to the awaiting caller | any create request: the logged ValidationDuration and DatabaseSaveDuration are the zeros set at Program.cs:72 | the logged record carries the validation, ISBN-check and save durations | not executed | OrderApiCreateHandler.AwaitSend | OrderApiCreateHandler.Send |
| Lab-0.3/BookManagement/BookManagement/Features/Books/GetAllBooksHandler.cs:20 | `(request.Page - 1) * request.PageSize` is computed in 32-bit `int` and wraps; `Skip` treats the negative result as 0 | Page = 21474838, PageSize = 100 (both accepted by the validator): the exact skip 2147483700 wraps to -2147483596, so page 1 is returned instead of an empty page | the exact skip, so any page past the end is empty and pages 1..k are the first k·PageSize books | not executed | BookPaging.AsWrittenFarPageReturnsFirstPage | BookPaging.PagesPartitionPrefix |
| Lab-0.3/BookManagement/BookManagement/Features/Books/GetBookByIdByPageHandler.cs:20 | the same 32-bit skip before `Skip(skip).Take(PageSize)` on the sorted table | a one-book table asked for that book on Page = 21474838, PageSize = 100 returns Ok(book) although the book is on page 1 | Ok exactly when the book's sorted position lies on the requested page | not executed | BookHandlers.ByPageAsWrittenFindsBookOnFarPage | BookHandlers.ByPageFoundIff |
