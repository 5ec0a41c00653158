/** The two data-access classes over one database: the `books` and
    `book_reviews` tables with their id sequences `books_seq` and
    `book_reviews_seq`. Each method does what its SQL statements do; a
    `fault` parameter says whether the store rejects a statement (connectivity
    or any other driver error), which the callers turn into a server error. */
module Database {
  import opened Entities
  import opened Search
  import opened Tables

  class Store {
    /** The rows of `books`, in table order. */
    var books: seq<Book>
    /** The rows of `book_reviews`, in table order. */
    var reviews: seq<Review>
    /** The last value `nextval('books_seq')` handed out. */
    var booksSeq: int
    /** The last value `nextval('book_reviews_seq')` handed out. */
    var reviewsSeq: int

    /** Both ids are primary keys. */
    ghost predicate Valid()
      reads this
    {
      UniqueBookIds(books) && UniqueReviewIds(reviews)
    }

    /** `books_seq` is ahead of every book id, so its next value is unused. */
    ghost predicate BooksSeqAhead()
      reads this
    {
      forall b :: b in books ==> b.id <= booksSeq
    }

    /** `book_reviews_seq` is ahead of every review id. */
    ghost predicate ReviewsSeqAhead()
      reads this
    {
      forall r :: r in reviews ==> r.id <= reviewsSeq
    }

    /** A database with the given rows and sequence positions. */
    constructor (books0: seq<Book>, reviews0: seq<Review>, booksSeq0: int, reviewsSeq0: int)
      requires UniqueBookIds(books0) && UniqueReviewIds(reviews0)
      ensures Valid()
      ensures books == books0 && reviews == reviews0
      ensures booksSeq == booksSeq0 && reviewsSeq == reviewsSeq0
    {
      books, reviews := books0, reviews0;
      booksSeq, reviewsSeq := booksSeq0, reviewsSeq0;
    }

    // -------------------------------------------------------------------------
    // BookDAO

    /** `getBookById`: the row with that id, or null when there is none. */
    method GetBookById(id: int) returns (r: Option<Book>)
      ensures r == FindBook(books, id)
      ensures r.Some? ==> r.value in books && r.value.id == id
      ensures Valid() ==> (r.None? <==> !HasBook(books, id))
    {
      r := FindBook(books, id);
    }

    /** `getAll`: every row. */
    method GetAll() returns (r: seq<Book>)
      ensures r == books
    {
      r := books;
    }

    /** `updateBook`: sets book_name and author_name of the row with the book's id. */
    method UpdateBook(book: Book)
      requires Valid()
      modifies this`books
      ensures Valid()
      ensures books == UpdatedBooks(old(books), book)
      ensures HasBook(old(books), book.id) ==> FindBook(books, book.id) == Some(Book(book.id, book.bookName, book.author))
      ensures forall id :: id != book.id ==> FindBook(books, id) == FindBook(old(books), id)
      ensures forall id :: HasBook(books, id) <==> HasBook(old(books), id)
      ensures NoOrphans(old(books), reviews) ==> NoOrphans(books, reviews)
    {
      UpdatedBooksKeepsIds(books, book);
      forall id ensures id != book.id ==> FindBook(UpdatedBooks(books, book), id) == FindBook(books, id) {
        UpdateThenFindBook(books, book, id);
      }
      UpdateThenFindBook(books, book, book.id);
      books := UpdatedBooks(books, book);
    }

    /** `saveBook`: draws the next value of `books_seq`, stamps it on the book
        and inserts the row; the insert fails when the store faults or when
        the id is already taken. */
    method SaveBook(book: Book, fault: bool) returns (r: Fallible<Book>)
      requires Valid()
      modifies this`books, this`booksSeq
      ensures Valid()
      ensures booksSeq == old(booksSeq) + 1
      ensures r.Failure? <==> fault || HasBook(old(books), booksSeq)
      ensures r.Failure? ==> books == old(books)
      ensures r.Success? ==> r.value == Book(booksSeq, book.bookName, book.author)
      ensures r.Success? ==> books == old(books) + [r.value] && FindBook(books, r.value.id) == Some(r.value)
      ensures old(BooksSeqAhead()) ==> BooksSeqAhead() && (r.Failure? <==> fault)
      ensures NoOrphans(old(books), reviews) ==> NoOrphans(books, reviews)
    {
      booksSeq := booksSeq + 1;
      var stamped := book.(id := booksSeq);
      var taken := BooksWithId(books, booksSeq);
      assert |taken| > 0 ==> taken[0] in taken;
      if fault || |taken| > 0 {
        r := Failure;
      } else {
        AppendThenFindBook(books, stamped);
        books := books + [stamped];
        r := Success(stamped);
      }
    }

    /** `deleteBookById`: deletes the rows with that id and returns how many. */
    method DeleteBookById(id: int, fault: bool) returns (r: Fallible<int>)
      requires Valid()
      modifies this`books
      ensures Valid()
      ensures r.Failure? <==> fault
      ensures r.Failure? ==> books == old(books)
      ensures r.Success? ==> books == BooksExcept(old(books), id) && r.value == |old(books)| - |books|
      ensures r.Success? ==> !HasBook(books, id)
      ensures r.Success? ==> (r.value == 1 <==> HasBook(old(books), id)) && (r.value == 0 <==> !HasBook(old(books), id))
      ensures r.Success? && r.value == 0 ==> books == old(books)
    {
      if fault {
        r := Failure;
      } else {
        var removed := BooksWithId(books, id);
        AtMostOneBookWithId(books, id);
        assert |removed| > 0 ==> removed[0] in removed;
        BooksExceptUnique(books, id);
        books := BooksExcept(books, id);
        r := Success(|removed|);
      }
    }

    /** `getBooksByAuthorName`: the books whose author matches
        `ilike '%' || authorName || '%'`, compared after `fold`. */
    method GetBooksByAuthorName(authorName: string, fold: char -> char) returns (r: seq<Book>)
      ensures r == BooksMatching(books, ContainsPattern(authorName), fold)
      ensures forall b :: b in r <==> b in books && Like(b.author, ContainsPattern(authorName), fold)
      ensures Literal(authorName) ==>
        forall b :: b in r <==> b in books && ContainsFolded(b.author, authorName, fold)
    {
      r := BooksMatching(books, ContainsPattern(authorName), fold);
      if Literal(authorName) {
        forall b | b in books ensures Like(b.author, ContainsPattern(authorName), fold) <==> ContainsFolded(b.author, authorName, fold) {
          ILikeIsFoldedSubstring(b.author, authorName, fold);
        }
      }
    }

    // -------------------------------------------------------------------------
    // BookReviewDAO

    /** `getReviewById`: the row with that id, or null when there is none. */
    method GetReviewById(id: int) returns (r: Option<Review>)
      ensures r == FindReview(reviews, id)
      ensures r.Some? ==> r.value in reviews && r.value.id == id
      ensures Valid() ==> (r.None? <==> !HasReview(reviews, id))
    {
      r := FindReview(reviews, id);
    }

    /** `getReviewByBookId`: the reviews of that book, an empty list for none. */
    method GetReviewByBookId(bookId: int) returns (r: seq<Review>)
      ensures r == ReviewsOfBook(reviews, bookId)
      ensures forall x :: x in r <==> x in reviews && x.bookId == bookId
    {
      r := ReviewsOfBook(reviews, bookId);
    }

    /** `getReviewByReviewerName`: the reviewer's reviews joined with their
        books; a review whose book is missing contributes no row. */
    method GetReviewByReviewerName(name: string) returns (r: seq<ReviewByReviewerName>)
      ensures r == ReviewerJoin(reviews, books, name)
      ensures Valid() ==> r == ReviewerRows(reviews, books, name)
    {
      r := ReviewerJoin(reviews, books, name);
      if Valid() {
        ReviewerJoinIsLookup(reviews, books, name);
      }
    }

    /** `updateBookReview`: replaces book_id, rating, reviewer_name and
        review_text of the row with the review's id; returns the affected count. */
    method UpdateBookReview(rv: Review) returns (count: int)
      requires Valid()
      modifies this`reviews
      ensures Valid()
      ensures reviews == UpdatedReviews(old(reviews), rv)
      ensures count == |ReviewsWithId(old(reviews), rv.id)|
      ensures count == (if HasReview(old(reviews), rv.id) then 1 else 0)
      ensures HasReview(old(reviews), rv.id) ==>
        FindReview(reviews, rv.id) == Some(Review(rv.id, rv.bookId, rv.rating, rv.reviewerName, rv.reviewText))
      ensures forall id :: id != rv.id ==> FindReview(reviews, id) == FindReview(old(reviews), id)
    {
      var matching := ReviewsWithId(reviews, rv.id);
      AtMostOneReviewWithId(reviews, rv.id);
      assert |matching| > 0 ==> matching[0] in matching;
      forall id ensures id != rv.id ==> FindReview(UpdatedReviews(reviews, rv), id) == FindReview(reviews, id) {
        UpdateThenFindReview(reviews, rv, id);
      }
      UpdateThenFindReview(reviews, rv, rv.id);
      reviews := UpdatedReviews(reviews, rv);
      count := |matching|;
    }

    /** `saveBookReview`: two statements outside a transaction. The insert
        stores the review under `nextval('book_reviews_seq')`; it fails when
        the store faults (`insertFault`) or the id is taken. Then the row with
        the greatest id is read back; that query can fail on its own
        (`readFault`), and the inserted row stays. */
    method SaveBookReview(rv: Review, insertFault: bool, readFault: bool) returns (r: Fallible<Review>)
      requires Valid()
      modifies this`reviews, this`reviewsSeq
      ensures Valid()
      ensures reviewsSeq == old(reviewsSeq) + 1
      ensures var inserted := Review(reviewsSeq, rv.bookId, rv.rating, rv.reviewerName, rv.reviewText);
        if insertFault || HasReview(old(reviews), reviewsSeq) then reviews == old(reviews)
        else reviews == old(reviews) + [inserted]
      ensures r.Failure? <==> insertFault || HasReview(old(reviews), reviewsSeq) || readFault
      ensures r.Success? ==> r.value in reviews && forall x :: x in reviews ==> x.id <= r.value.id
      ensures old(ReviewsSeqAhead()) ==> ReviewsSeqAhead()
      ensures old(ReviewsSeqAhead()) && !insertFault && !readFault ==>
        r == Success(Review(reviewsSeq, rv.bookId, rv.rating, rv.reviewerName, rv.reviewText))
    {
      reviewsSeq := reviewsSeq + 1;
      var inserted := Review(reviewsSeq, rv.bookId, rv.rating, rv.reviewerName, rv.reviewText);
      var taken := ReviewsWithId(reviews, reviewsSeq);
      assert |taken| > 0 ==> taken[0] in taken;
      if insertFault || |taken| > 0 {
        return Failure;
      }
      LastAfterInsert(reviews, inserted);
      reviews := reviews + [inserted];
      if readFault {
        return Failure;
      }
      r := Success(LastById(reviews).value);
    }

    /** `deleteBookReviewById`: deletes the rows with that id and returns how many. */
    method DeleteBookReviewById(id: int, fault: bool) returns (r: Fallible<int>)
      requires Valid()
      modifies this`reviews
      ensures Valid()
      ensures r.Failure? <==> fault
      ensures r.Failure? ==> reviews == old(reviews)
      ensures r.Success? ==> reviews == ReviewsExceptId(old(reviews), id) && r.value == |old(reviews)| - |reviews|
      ensures r.Success? ==> (r.value == 1 <==> HasReview(old(reviews), id)) && (r.value == 0 <==> !HasReview(old(reviews), id))
      ensures r.Success? && r.value == 0 ==> reviews == old(reviews)
      ensures NoOrphans(books, old(reviews)) ==> NoOrphans(books, reviews)
    {
      if fault {
        r := Failure;
      } else {
        var removed := ReviewsWithId(reviews, id);
        AtMostOneReviewWithId(reviews, id);
        assert |removed| > 0 ==> removed[0] in removed;
        ReviewsExceptIdUnique(reviews, id);
        reviews := ReviewsExceptId(reviews, id);
        r := Success(|removed|);
      }
    }

    /** `deleteBookReviewByBookId`: deletes every review of that book and
        returns how many; zero is a normal answer. */
    method DeleteBookReviewByBookId(bookId: int, fault: bool) returns (r: Fallible<int>)
      requires Valid()
      modifies this`reviews
      ensures Valid()
      ensures r.Failure? <==> fault
      ensures r.Failure? ==> reviews == old(reviews)
      ensures r.Success? ==> reviews == ReviewsNotOfBook(old(reviews), bookId)
      ensures r.Success? ==> r.value == |ReviewsOfBook(old(reviews), bookId)| && r.value == |old(reviews)| - |reviews|
      ensures r.Success? ==> ReviewsOfBook(reviews, bookId) == []
      ensures NoOrphans(books, old(reviews)) ==> NoOrphans(books, reviews)
    {
      if fault {
        r := Failure;
      } else {
        var removed := ReviewsOfBook(reviews, bookId);
        ReviewsNotOfBookUnique(reviews, bookId);
        NoReviewsLeftOfBook(reviews, bookId);
        reviews := ReviewsNotOfBook(reviews, bookId);
        r := Success(|removed|);
      }
    }
  }

  /** Two successive `saveBook` calls that both succeed hand out strictly
      increasing, hence distinct, ids. */
  method SaveTwice(store: Store, first: Book, second: Book, fault1: bool, fault2: bool)
    returns (r1: Fallible<Book>, r2: Fallible<Book>)
    requires store.Valid()
    modifies store`books, store`booksSeq
    ensures store.Valid()
    ensures r1.Success? && r2.Success? ==> r1.value.id < r2.value.id
    ensures r1.Success? && r2.Success? ==> store.books == old(store.books) + [r1.value, r2.value]
  {
    r1 := store.SaveBook(first, fault1);
    r2 := store.SaveBook(second, fault2);
  }
}
