# Book and review catalogue: tables, aggregation and consistency

This project models the core of a small book catalogue service, a Spring
application over two relational tables:

- `books` (id, book_name, author_name), with ids drawn from `books_seq`;
- `book_reviews` (id, book_id, rating, reviewer_name, review_text), with ids
  drawn from `book_reviews_seq`.

Two data-access classes, `BookDAO` and `BookReviewDAO`, wrap the SQL
statements. Most of their methods run one statement. Two run two, with no
transaction around them: `saveBook` draws `nextval('books_seq')` and then
inserts, and `saveBookReview` inserts and then reads back the row with the
greatest id. Two assemblers, `BookAssembler` and
`BookReviewAssembler`, sit on top of them. They build the derived views,
such as a book with the average of its reviews' ratings, and map every
outcome to an HTTP status (200, 204, 404 or 500).

Files and modules:

- `entities.dfy` (`Entities`): the rows, the DTO projections, `Option` (Java's
  `null`), `Fallible` (a data-access call that may throw) and `Response` (the
  status the assemblers answer with: `Ok(body)`, `NoContent`, `NotFound`,
  `ServerError`).
- `search.dfy` (`Search`): the `ilike '%' || ? || '%'` pattern match, with SQL
  LIKE wildcards and an abstract case folding `fold: char -> char`.
- `tables.dfy` (`Tables`): what each SQL statement selects or leaves behind,
  as functions over the table rows. The lemmas about them cover keys, the
  round trips, referential integrity and the inner join.
- `rating.dfy` (`Rating`): the sum of the ratings and the nullable average.
- `database.dfy` (`Database`): class `Store`, which holds both tables and both
  sequences as fields. It has one method per DAO method, and each method's
  contract gives the new state and the result.
- `book_assembler.dfy` (`BookAssembler`) and `review_assembler.dfy`
  (`BookReviewAssembler`): the assembler operations, as methods over a `Store`.
  This is the store the Java code receives by injection.

Modelling choices:

- Tables are sequences in table order. A query without `order by` returns
  rows in that order.
- Ids are keys (`Store.Valid()`). An insert under an id that is already taken
  fails like any other store failure.
- A sequence field holds the last value handed out. `nextval` is assumed to
  add one (the schema that sets the increment is not part of this model), and
  a failed insert is assumed to use up that value.
- Review creation does not check that the book exists. The model shows the
  orphan this can create (`Tables.UncheckedReviewInsertOrphans`). A review
  update does not check it either: `updateBookReview` writes the caller's
  book id straight through (`Tables.UpdatedReviews`), so referential
  integrity is not kept by every operation that changes the tables.
- A store failure is a boolean `fault` parameter of the DAO calls whose
  exceptions the assemblers catch: `saveBook`, `deleteBookById`,
  `deleteBookReviewByBookId`, `saveBookReview` and `deleteBookReviewById`.
  `deleteBook` has one flag per step. A failure in the second step therefore
  leaves a book without reviews, and never a review without its book.
  `saveBookReview` also has one flag per statement. When the read-back fails
  after the insert, the answer is a server error, yet the new row stays in
  `book_reviews`.
- The search term is spliced into a LIKE pattern without escaping. A `%` or
  `_` in the term therefore acts as a wildcard (the term `%` matches every
  author: `Search.PercentTermMatchesAll`). For a term without wildcards, the
  match is a case-insensitive substring test (`Search.ILikeIsFoldedSubstring`).
- `saveBookReview` reads back "the row with the greatest id". That is the
  inserted row exactly when the new id exceeds every existing id
  (`Tables.LastAfterInsert`). A sequence that lags behind the ids makes the
  call return a different review (`Tables.LaggingSequenceReadsOtherRow`).
  The store keeps "sequence ahead of every id" once it holds
  (`Store.ReviewsSeqAhead`, `Store.BooksSeqAhead`).

In these places the code differs from what its unit tests expect, and the
model follows the code:

- On an empty result, `getBooksByAuthorName`, `getReviewByBookId` and
  `getReviewByReviewerName` answer NOT_FOUND. The unit tests, written against
  a later API, expect an empty list: BookControllerTest lines 229-233 for
  `getBooksByAuthorName`, BookReviewAssemblerTest lines 34-38 for
  `getReviewByBookId`, ReviewControllerTest lines 79-83 for
  `getReviewByReviewerName`. So after `deleteBook`, the assembler's
  `getReviewByBookId` answers NOT_FOUND, while the DAO's list is empty
  (`Store.DeleteBookReviewByBookId`).
- `getFullAllBooks` answers NO_CONTENT on an empty table, while
  BookControllerTest lines 44-49 expect the assembler to return an empty list.

Field names follow the SQL and the row mappers, not the entity and DTO
declarations. Those declare `text` and `author`, while the mappers call
`setReviewText` and `setAuthorName`. `Book.java` is not part of this model.
Its fields (id, bookName, author) are the ones `BookDAO`'s mapper sets.
The assembler calls `new BookWithAverageRatingDTO(book)`
(BookAssembler.java lines 27 and 95), but the DTO as declared has no such
constructor. The model assumes that this constructor copies the book's id,
name and author and leaves the average unset until `setAverageRating`
(`BookAssembler.View`).

## Model

| member | source | states |
|---|---|---|
| `Search.Like` | src/main/java/ru/mrhellko/library/dao/BookDAO.java:21 | LIKE matching; a pattern without `%` matches exactly the texts of its own length that agree with it, after folding, at every position that is not `_` |
| `Search.PercentMatchesAll` | src/main/java/ru/mrhellko/library/dao/BookDAO.java:21 | a lone `%` matches every text |
| `Search.LikeLiteralPrefix` | src/main/java/ru/mrhellko/library/dao/BookDAO.java:21 | for a wildcard-free term `s`, the pattern `s%` matches exactly the texts that start with `s` after folding |
| `Search.LikeLeadingPercent` | src/main/java/ru/mrhellko/library/dao/BookDAO.java:21 | a leading `%` matches exactly when the rest of the pattern matches some suffix |
| `Search.ILikeIsFoldedSubstring` | src/main/java/ru/mrhellko/library/dao/BookDAO.java:21 | for a wildcard-free term, the author search matches exactly the authors that contain the term case-insensitively |
| `Search.PercentTermMatchesAll` | src/main/java/ru/mrhellko/library/dao/BookDAO.java:21 | the unescaped term `%` matches every author |
| `Tables.BooksWithId` | src/main/java/ru/mrhellko/library/dao/BookDAO.java:16 | selects exactly the rows with that id |
| `Tables.BooksExcept` | src/main/java/ru/mrhellko/library/dao/BookDAO.java:20 | the delete keeps exactly the rows with another id; the rows removed are those with the id; for an absent id the table is unchanged |
| `Tables.BooksMatching` | src/main/java/ru/mrhellko/library/dao/BookDAO.java:21 | selects exactly the rows whose author matches the pattern |
| `Tables.UpdatedBooks` | src/main/java/ru/mrhellko/library/dao/BookDAO.java:18 | the update keeps the number of rows |
| `Tables.AtMostOneBookWithId` | src/main/java/ru/mrhellko/library/dao/BookDAO.java:34-44 | on a keyed table at most one row has a given id |
| `Tables.FindBook` | src/main/java/ru/mrhellko/library/dao/BookDAO.java:34-44 | lookup by id returns a row of the table with that id, returns absent exactly when no row has it, and returns the row when one has it; it never fabricates a row |
| `Tables.BooksExceptUnique` | src/main/java/ru/mrhellko/library/dao/BookDAO.java:60-62 | deleting by id keeps the key |
| `Tables.UpdatedBooksKeepsIds` | src/main/java/ru/mrhellko/library/dao/BookDAO.java:50-52 | the update keeps every id, the key, the set of ids and every row with another id |
| `Tables.UpdateThenFindBook` | src/main/java/ru/mrhellko/library/dao/BookDAO.java:50-52 | after the update the id reads back with the new name and author, other ids read back unchanged, and an unknown id changes nothing |
| `Tables.AppendThenFindBook` | src/main/java/ru/mrhellko/library/dao/BookDAO.java:54-58 | a row inserted under an unused id keeps the key and reads back unchanged |
| `Tables.BookFirstLeavesOrphans` | src/main/java/ru/mrhellko/library/assembler/BookAssembler.java:69-72 | deleting a book before its reviews leaves a review without its book, which is why the reviews go first |
| `Tables.NoReviewsOfMissingBook` | src/main/java/ru/mrhellko/library/assembler/BookAssembler.java:71-74 | under referential integrity a missing book has no reviews, so deleting its reviews leaves the table as it was |
| `Tables.UncheckedReviewInsertOrphans` | src/main/java/ru/mrhellko/library/dao/BookReviewDAO.java:72-75 | inserting a review of a missing book breaks referential integrity |
| `Tables.ReviewsWithId` | src/main/java/ru/mrhellko/library/dao/BookReviewDAO.java:15 | selects exactly the reviews with that id |
| `Tables.ReviewsExceptId` | src/main/java/ru/mrhellko/library/dao/BookReviewDAO.java:21 | the delete keeps exactly the reviews with another id; the rows removed are those with the id; for an absent id the table is unchanged |
| `Tables.ReviewsOfBook` | src/main/java/ru/mrhellko/library/dao/BookReviewDAO.java:16 | selects exactly the reviews with that book_id |
| `Tables.ReviewsNotOfBook` | src/main/java/ru/mrhellko/library/dao/BookReviewDAO.java:22 | the delete keeps exactly the reviews of other books; the rows removed are the book's reviews; a book without reviews leaves the table unchanged |
| `Tables.NoReviewsLeftOfBook` | src/main/java/ru/mrhellko/library/dao/BookReviewDAO.java:81-83 | after deleting by book id, selecting that book's reviews gives an empty list |
| `Tables.UpdatedReviews` | src/main/java/ru/mrhellko/library/dao/BookReviewDAO.java:18 | the update keeps the number of rows |
| `Tables.LastById` | src/main/java/ru/mrhellko/library/dao/BookReviewDAO.java:20 | `order by id desc limit 1` is absent only on an empty table, and otherwise a row whose id is the greatest |
| `Tables.AtMostOneReviewWithId` | src/main/java/ru/mrhellko/library/dao/BookReviewDAO.java:43-49 | on a keyed table at most one review has a given id |
| `Tables.FindReview` | src/main/java/ru/mrhellko/library/dao/BookReviewDAO.java:43-49 | lookup by id returns a review with that id, returns absent exactly when none has it, and returns the review when one has it |
| `Tables.ReviewsExceptIdUnique` | src/main/java/ru/mrhellko/library/dao/BookReviewDAO.java:77-79 | deleting by id keeps the key |
| `Tables.ReviewsNotOfBookUnique` | src/main/java/ru/mrhellko/library/dao/BookReviewDAO.java:81-83 | deleting by book id keeps the key |
| `Tables.UpdateThenFindReview` | src/main/java/ru/mrhellko/library/dao/BookReviewDAO.java:68-70 | after the update the id reads back with the new book id, rating, reviewer and text, other ids read back unchanged, and an unknown id changes nothing |
| `Tables.LastAfterInsert` | src/main/java/ru/mrhellko/library/dao/BookReviewDAO.java:72-75 | the row read back after the insert is the inserted one exactly when its id exceeds every existing id |
| `Tables.LaggingSequenceReadsOtherRow` | src/main/java/ru/mrhellko/library/dao/BookReviewDAO.java:72-75 | with an existing id 5 and a new id 1, the row read back is the old review 5 |
| `Tables.ReviewerJoin` | src/main/java/ru/mrhellko/library/dao/BookReviewDAO.java:17 | every join row comes from a review by that reviewer and its book, and every such pair gives a row |
| `Tables.JoinRows` | src/main/java/ru/mrhellko/library/dao/BookReviewDAO.java:17 | a review contributes one join row per matching book, in table order, each built from that review and that book |
| `Tables.ReviewerJoinIsLookup` | src/main/java/ru/mrhellko/library/dao/BookReviewDAO.java:60-66 | on a keyed `books` the join is one row per review of the reviewer whose book exists, in review order; reviews of missing books are dropped |
| `Rating.SumRatings` | src/main/java/ru/mrhellko/library/assembler/BookAssembler.java:104-107 | the sum the loop builds by adding the ratings in list order equals the reference sum taken from the first rating on |
| `Rating.SumFromFirstAppend` | src/main/java/ru/mrhellko/library/assembler/BookAssembler.java:104-107 | appending a review adds its rating to the reference sum |
| `Rating.Average` | src/main/java/ru/mrhellko/library/assembler/BookAssembler.java:102-109 | the average is absent exactly when there are no reviews (never 0), and otherwise it times the count equals the sum |
| `Rating.SumRatingsBounds` | src/main/java/ru/mrhellko/library/assembler/BookAssembler.java:104-107 | bounds on every rating bound the sum by count times bound |
| `Rating.AverageBounds` | src/main/java/ru/mrhellko/library/assembler/BookAssembler.java:108 | the average lies between the lowest and the highest rating bound |
| `Rating.QuotientBounds` | src/main/java/ru/mrhellko/library/assembler/BookAssembler.java:108 | a sum between `lo * n` and `hi * n`, divided by `n > 0`, lies between `lo` and `hi` |
| `Rating.AverageOfEqualRatings` | src/main/java/ru/mrhellko/library/assembler/BookAssembler.java:108 | equal ratings average to that rating |
| `Rating.AverageIsFractional` | src/test/java/ru/mrhellko/library/assembler/BookAssemblerTest.java:52-121 | ratings 8 and 6 give 7.0 (the test at lines 52-73), 10 alone gives 10.0 (line 120), and 7 and 8 give 7.5, a case added here to show there is no integer truncation |
| `Database.Store.constructor` | src/main/java/ru/mrhellko/library/dao/BookDAO.java:13-24 | a store with the given rows and sequence positions |
| `Database.Store.GetBookById` | src/main/java/ru/mrhellko/library/dao/BookDAO.java:34-44 | a row of the table with that id, absent exactly when none exists |
| `Database.Store.GetAll` | src/main/java/ru/mrhellko/library/dao/BookDAO.java:46-48 | every row, in table order, with the table unchanged |
| `Database.Store.UpdateBook` | src/main/java/ru/mrhellko/library/dao/BookDAO.java:50-52 | only `books` changes; the row with the book's id gets the new name and author under the same id; every other id reads back as before; the key and referential integrity hold |
| `Database.Store.SaveBook` | src/main/java/ru/mrhellko/library/dao/BookDAO.java:54-58 | the sequence advances by one; the book is stamped with the new value and appended, and reads back unchanged; a store failure or a taken id inserts nothing; with the sequence ahead, only a store failure fails |
| `Database.SaveTwice` | src/main/java/ru/mrhellko/library/dao/BookDAO.java:22 | two successful saves get strictly increasing ids |
| `Database.Store.DeleteBookById` | src/main/java/ru/mrhellko/library/dao/BookDAO.java:60-62 | removes the rows with the id and returns their number: 1 for an existing id, 0 with the table unchanged for a missing one; afterwards the id is absent |
| `Database.Store.GetBooksByAuthorName` | src/main/java/ru/mrhellko/library/dao/BookDAO.java:64-66 | exactly the books whose author matches the pattern; for a wildcard-free term, exactly those whose author contains it case-insensitively |
| `Database.Store.GetReviewById` | src/main/java/ru/mrhellko/library/dao/BookReviewDAO.java:43-49 | a review with that id, absent exactly when none exists |
| `Database.Store.GetReviewByBookId` | src/main/java/ru/mrhellko/library/dao/BookReviewDAO.java:51-58 | exactly the reviews with that book id, empty for an unknown book |
| `Database.Store.GetReviewByReviewerName` | src/main/java/ru/mrhellko/library/dao/BookReviewDAO.java:60-66 | the inner join; on a keyed table, one row per review of the reviewer whose book exists |
| `Database.Store.UpdateBookReview` | src/main/java/ru/mrhellko/library/dao/BookReviewDAO.java:68-70 | only `book_reviews` changes, and only the row with that id; it takes the four new fields; the affected count is 1 or 0 |
| `Database.Store.SaveBookReview` | src/main/java/ru/mrhellko/library/dao/BookReviewDAO.java:72-75 | the sequence advances; unless the insert fails (store failure or taken id), the review is appended under the new id; a failure of the read-back still leaves it appended; the result is the row with the greatest id, which is the inserted review when the sequence was ahead |
| `Database.Store.DeleteBookReviewById` | src/main/java/ru/mrhellko/library/dao/BookReviewDAO.java:77-79 | removes only that review and returns 1, or returns 0 with nothing changed; a failure changes nothing |
| `Database.Store.DeleteBookReviewByBookId` | src/main/java/ru/mrhellko/library/dao/BookReviewDAO.java:81-83 | removes every review of the book, keeps all others and returns how many went (possibly 0) |
| `BookAssembler.View` | src/main/java/ru/mrhellko/library/assembler/BookAssembler.java:95-96 | the view's average is absent, not 0, exactly when the book has no reviews |
| `BookAssembler.AverageRating` | src/main/java/ru/mrhellko/library/assembler/BookAssembler.java:102-109 | the loop computes the average of the book's reviews; absent exactly when no review names the book |
| `BookAssembler.FillList` | src/main/java/ru/mrhellko/library/assembler/BookAssembler.java:92-100 | one view per book, same length and order, each with its own book's average |
| `BookAssembler.GetFullBookWithAverageRating` | src/main/java/ru/mrhellko/library/assembler/BookAssembler.java:24-33 | NotFound exactly for a missing id; otherwise Ok with the row's id, name and author and the average of that id |
| `BookAssembler.GetFullAllBooks` | src/main/java/ru/mrhellko/library/assembler/BookAssembler.java:35-43 | NoContent exactly for an empty table; otherwise Ok with one view per row, in order |
| `BookAssembler.GetBooksByAuthorName` | src/main/java/ru/mrhellko/library/assembler/BookAssembler.java:82-90 | NotFound exactly when no author matches; otherwise Ok with one view per matching book, in order |
| `BookAssembler.UpdateBook` | src/main/java/ru/mrhellko/library/assembler/BookAssembler.java:45-58 | on a missing id, NotFound and the store unchanged; otherwise the persisted and returned row is the path id with the input's name and author |
| `BookAssembler.SaveBook` | src/main/java/ru/mrhellko/library/assembler/BookAssembler.java:60-67 | the sequence advances by one and stays ahead of every id once it was; Ok with the saved book under its new id, or ServerError with nothing inserted when the store fails |
| `BookAssembler.DeleteBook` | src/main/java/ru/mrhellko/library/assembler/BookAssembler.java:69-80 | reviews are deleted before the book; afterwards no review names the id, even when no book row went; 0 rows gives NotFound, 1 gives Ok, a failure in either step gives ServerError; NotFound leaves `books` unchanged, and also `book_reviews` when it had no orphans; referential integrity is kept in every case |
| `BookReviewAssembler.GetReviewByBookId` | src/main/java/ru/mrhellko/library/assembler/BookReviewAssembler.java:20-32 | NotFound exactly when the book has no reviews; otherwise Ok with (reviewer name, text, rating) of each review, same length and order |
| `BookReviewAssembler.GetReviewByReviewerName` | src/main/java/ru/mrhellko/library/assembler/BookReviewAssembler.java:34-41 | the DAO's list unchanged when it is non-empty, NotFound when it is empty |
| `BookReviewAssembler.UpdateBookReview` | src/main/java/ru/mrhellko/library/assembler/BookReviewAssembler.java:43-58 | on a missing id, NotFound and the store unchanged; otherwise the path id with the input's book id, rating, reviewer and text is persisted and returned |
| `BookReviewAssembler.SaveBookReview` | src/main/java/ru/mrhellko/library/assembler/BookReviewAssembler.java:60-67 | the sequence advances by one and stays ahead of every id once it was; Ok with the review the DAO read back; ServerError when either statement fails, with nothing inserted when the insert failed and the new row kept when only the read-back failed |
| `BookReviewAssembler.DeleteBookReviewById` | src/main/java/ru/mrhellko/library/assembler/BookReviewAssembler.java:69-79 | 0 rows gives NotFound with the table unchanged; otherwise Ok with only that review removed; a store failure gives ServerError and changes nothing |

## Left out

- HTTP routing, JSON serialisation and the controllers. The controllers are written against a different assembler API.
- JDBC, `JdbcTemplate`, the row mappers and the SQL engine. Each statement is modelled by the rows it selects or leaves behind.
- Database bootstrap (`H2Configuration`) and `NotFoundException`; the assemblers modelled here never throw it.
- Store failures of the calls the assemblers do not catch (the lookups, the listings and both updates). They leave the core as exceptions, so they are not modelled.
- Concurrency and transactions. In particular, the two steps of `deleteBook` are not atomic; the model shows what a failure after the first step leaves.
- A failure of `nextval` itself is merged with a failure of the insert that follows: both use up a sequence value.
- Java's `null` for strings, ids and ratings. Every field holds a value.
- Search: a backslash in the search term is matched literally; the database's LIKE escape character is not modelled. Case folding is the abstract `fold` parameter, not Unicode case folding.
- Rating.Average: a real quotient rather than a 32-bit float, so float rounding is not modelled.
- Rating.SumRatings: ratings are unbounded integers. The Java `Byte` range of a rating is not modelled, and neither is the 32-bit `int` wrap-around of the sum (it needs millions of reviews of one book). The code does not validate the range of a rating, and neither does the model.
- Database.Store.SaveBook: returns the stamped book as a value. The Java method also sets the id on the caller's own object (aliasing), which the model does not capture.
- BookAssembler.GetFullBookWithAverageRating: does not state that no review query runs for a missing id. That is visible only in the method body, which asks for reviews only after a book was found.
- Database.Store.SaveBook: that `nextval('books_seq')` adds one is an assumption; the increment is set by the schema, which is not part of this model.
- Database.Store.SaveBookReview: every call advances `book_reviews_seq` by one, even when the insert fails. `nextval` runs inside the INSERT, so a failure that stops the statement before it runs would draw no value; the model does not tell these failures apart.
- Database.Store.Valid: ids are assumed to be primary keys, because the schema is not part of this model.
