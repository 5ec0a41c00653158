/** BookAssembler: books composed with their average rating, and the book
    operations with the statuses they answer with. */
module BookAssembler {
  import opened Entities
  import opened Search
  import opened Tables
  import opened Rating
  import opened Database

  /** A book with the average of its reviews, as a BookWithAverageRatingDTO
      built from the book and given `getAverageRating(book.id)`. */
  function View(b: Book, reviews: seq<Review>): (v: BookWithRating)
    ensures v.averageRating.None? <==> ReviewsOfBook(reviews, b.id) == []
  {
    BookWithRating(b.id, b.bookName, b.author, Average(ReviewsOfBook(reviews, b.id)))
  }

  /** `getAverageRating`: sums the ratings of the book's reviews in a loop and
      divides by their number, or answers null when there are none. */
  method AverageRating(store: Store, bookId: int) returns (avg: Option<real>)
    ensures avg == Average(ReviewsOfBook(store.reviews, bookId))
    ensures avg.None? <==> forall r :: r in store.reviews ==> r.bookId != bookId
  {
    var reviews := store.GetReviewByBookId(bookId);
    var sum := 0;
    for i := 0 to |reviews|
      invariant sum == SumRatings(reviews[..i])
    {
      assert reviews[..i + 1][..i] == reviews[..i];
      sum := sum + reviews[i].rating;
    }
    assert reviews[..|reviews|] == reviews;
    avg := if |reviews| == 0 then None else Some(sum as real / |reviews| as real);
    assert |reviews| > 0 ==> reviews[0] in reviews;
  }

  /** `fillListOfBookWithAverageRatingDTO`: one view per book, in the same order. */
  method FillList(store: Store, books: seq<Book>) returns (views: seq<BookWithRating>)
    ensures |views| == |books|
    ensures forall i :: 0 <= i < |books| ==> views[i] == View(books[i], store.reviews)
  {
    views := [];
    for i := 0 to |books|
      invariant |views| == i
      invariant forall k :: 0 <= k < i ==> views[k] == View(books[k], store.reviews)
    {
      var avg := AverageRating(store, books[i].id);
      views := views + [BookWithRating(books[i].id, books[i].bookName, books[i].author, avg)];
    }
  }

  /** `getFullBookWithAverageRatingDTO`: the view of the book, or NOT_FOUND. */
  method GetFullBookWithAverageRating(store: Store, id: int) returns (r: Response<BookWithRating>)
    requires store.Valid()
    ensures r.Ok? || r == NotFound
    ensures r == NotFound <==> !HasBook(store.books, id)
    ensures forall b :: b in store.books && b.id == id ==> r == Ok(View(b, store.reviews))
    ensures r.Ok? ==> r.body.id == id && r.body.averageRating == Average(ReviewsOfBook(store.reviews, id))
  {
    var book := store.GetBookById(id);
    if book.Some? {
      var avg := AverageRating(store, id);
      r := Ok(BookWithRating(book.value.id, book.value.bookName, book.value.author, avg));
    } else {
      r := NotFound;
    }
  }

  /** `getFullAllBooks`: a view of every book in table order, or NO_CONTENT
      when there are no books. */
  method GetFullAllBooks(store: Store) returns (r: Response<seq<BookWithRating>>)
    ensures r.Ok? || r == NoContent
    ensures r == NoContent <==> store.books == []
    ensures r.Ok? ==> |r.body| == |store.books|
    ensures r.Ok? ==> forall i :: 0 <= i < |store.books| ==> r.body[i] == View(store.books[i], store.reviews)
  {
    var books := store.GetAll();
    if books != [] {
      var views := FillList(store, books);
      r := Ok(views);
    } else {
      r := NoContent;
    }
  }

  /** `getBooksByAuthorName`: a view of every book whose author matches, or
      NOT_FOUND when none does. */
  method GetBooksByAuthorName(store: Store, authorName: string, fold: char -> char)
    returns (r: Response<seq<BookWithRating>>)
    ensures r.Ok? || r == NotFound
    ensures var found := BooksMatching(store.books, ContainsPattern(authorName), fold);
      (r == NotFound <==> found == []) &&
      (r.Ok? ==> |r.body| == |found| && forall i :: 0 <= i < |found| ==> r.body[i] == View(found[i], store.reviews))
    ensures r.Ok? && Literal(authorName) ==>
      forall v :: v in r.body ==> ContainsFolded(v.author, authorName, fold)
  {
    var books := store.GetBooksByAuthorName(authorName, fold);
    if books != [] {
      var views := FillList(store, books);
      r := Ok(views);
      if Literal(authorName) {
        forall v | v in views ensures ContainsFolded(v.author, authorName, fold) {
          var k :| 0 <= k < |views| && views[k] == v;
          assert books[k] in books;
        }
      }
    } else {
      r := NotFound;
    }
  }

  /** `updateBook`: NOT_FOUND when the id is unknown; otherwise the stored
      book takes the path id and the input's name and author, is written
      back and returned. */
  method UpdateBook(store: Store, book: Book, id: int) returns (r: Response<Book>)
    requires store.Valid()
    modifies store`books
    ensures store.Valid()
    ensures r.Ok? || r == NotFound
    ensures r == NotFound <==> !HasBook(old(store.books), id)
    ensures r == NotFound ==> store.books == old(store.books)
    ensures r.Ok? ==> r.body == Book(id, book.bookName, book.author)
    ensures r.Ok? ==> store.books == UpdatedBooks(old(store.books), r.body) && FindBook(store.books, id) == Some(r.body)
    ensures forall other :: other != id ==> FindBook(store.books, other) == FindBook(old(store.books), other)
  {
    var found := store.GetBookById(id);
    if found.Some? {
      var updated := found.value.(id := id, bookName := book.bookName, author := book.author);
      store.UpdateBook(updated);
      r := Ok(updated);
    } else {
      r := NotFound;
    }
  }

  /** `saveBook`: the saved book with its new id, or INTERNAL_SERVER_ERROR
      when the store fails. */
  method SaveBook(store: Store, book: Book, fault: bool) returns (r: Response<Book>)
    requires store.Valid()
    modifies store`books, store`booksSeq
    ensures store.Valid()
    ensures store.booksSeq == old(store.booksSeq) + 1
    ensures old(store.BooksSeqAhead()) ==> store.BooksSeqAhead()
    ensures r.Ok? || r == ServerError
    ensures r == ServerError <==> fault || HasBook(old(store.books), store.booksSeq)
    ensures r == ServerError ==> store.books == old(store.books)
    ensures r.Ok? ==> r.body == Book(store.booksSeq, book.bookName, book.author) && !HasBook(old(store.books), r.body.id)
    ensures r.Ok? ==> store.books == old(store.books) + [r.body] && FindBook(store.books, r.body.id) == Some(r.body)
  {
    var saved := store.SaveBook(book, fault);
    if saved.Success? {
      r := Ok(saved.value);
    } else {
      r := ServerError;
    }
  }

  /** `deleteBook`: deletes the book's reviews, then the book; NOT_FOUND when
      no book row was deleted, INTERNAL_SERVER_ERROR when either step fails. */
  method DeleteBook(store: Store, id: int, reviewFault: bool, bookFault: bool) returns (r: Response<()>)
    requires store.Valid()
    modifies store`books, store`reviews
    ensures store.Valid()
    ensures reviewFault ==> r == ServerError && store.books == old(store.books) && store.reviews == old(store.reviews)
    ensures !reviewFault ==> store.reviews == ReviewsNotOfBook(old(store.reviews), id)
    ensures !reviewFault ==> forall rv :: rv in store.reviews ==> rv.bookId != id
    ensures !reviewFault && bookFault ==> r == ServerError && store.books == old(store.books)
    ensures !reviewFault && !bookFault ==> store.books == BooksExcept(old(store.books), id)
    ensures !reviewFault && !bookFault ==> (r == Ok(()) <==> HasBook(old(store.books), id))
    ensures !reviewFault && !bookFault ==> (r == NotFound <==> !HasBook(old(store.books), id))
    ensures r == NotFound ==> store.books == old(store.books)
    ensures r == NotFound && NoOrphans(old(store.books), old(store.reviews)) ==> store.reviews == old(store.reviews)
    ensures NoOrphans(old(store.books), old(store.reviews)) ==> NoOrphans(store.books, store.reviews)
  {
    if NoOrphans(store.books, store.reviews) && !HasBook(store.books, id) {
      NoReviewsOfMissingBook(store.books, store.reviews, id);
    }
    var removedReviews := store.DeleteBookReviewByBookId(id, reviewFault);
    if removedReviews.Failure? {
      return ServerError;
    }
    var removedBooks := store.DeleteBookById(id, bookFault);
    if removedBooks.Failure? {
      return ServerError;
    }
    if removedBooks.value == 0 {
      return NotFound;
    }
    return Ok(());
  }
}
