/** The meaning of the SQL statements of the two data-access classes, as
    functions over the rows of `books` and `book_reviews`. Every selection
    keeps the rows in table order. */
module Tables {
  import opened Entities
  import opened Search

  // ---------------------------------------------------------------------------
  // Keys

  /** `books.id` is a key. */
  ghost predicate UniqueBookIds(books: seq<Book>) {
    forall i, j :: 0 <= i < j < |books| ==> books[i].id != books[j].id
  }

  /** `book_reviews.id` is a key. */
  ghost predicate UniqueReviewIds(reviews: seq<Review>) {
    forall i, j :: 0 <= i < j < |reviews| ==> reviews[i].id != reviews[j].id
  }

  ghost predicate HasBook(books: seq<Book>, id: int) {
    exists b :: b in books && b.id == id
  }

  ghost predicate HasReview(reviews: seq<Review>, id: int) {
    exists r :: r in reviews && r.id == id
  }

  /** Referential integrity: every review names an existing book. */
  ghost predicate NoOrphans(books: seq<Book>, reviews: seq<Review>) {
    forall r :: r in reviews ==> HasBook(books, r.bookId)
  }

  lemma UniqueBooksTail(books: seq<Book>)
    requires books != [] && UniqueBookIds(books)
    ensures UniqueBookIds(books[1..])
    ensures forall b :: b in books[1..] ==> b.id != books[0].id
  {
  }

  lemma UniqueBooksCons(b: Book, books: seq<Book>)
    requires UniqueBookIds(books)
    requires forall x :: x in books ==> x.id != b.id
    ensures UniqueBookIds([b] + books)
  {
  }

  lemma UniqueReviewsTail(reviews: seq<Review>)
    requires reviews != [] && UniqueReviewIds(reviews)
    ensures UniqueReviewIds(reviews[1..])
    ensures forall r :: r in reviews[1..] ==> r.id != reviews[0].id
  {
  }

  lemma UniqueReviewsCons(r: Review, reviews: seq<Review>)
    requires UniqueReviewIds(reviews)
    requires forall x :: x in reviews ==> x.id != r.id
    ensures UniqueReviewIds([r] + reviews)
  {
  }

  // ---------------------------------------------------------------------------
  // books

  /** `select ... from books b where b.id = ?` */
  function BooksWithId(books: seq<Book>, id: int): (r: seq<Book>)
    ensures forall b :: b in r <==> b in books && b.id == id
    ensures |r| <= |books|
  {
    if books == [] then []
    else if books[0].id == id then [books[0]] + BooksWithId(books[1..], id)
    else BooksWithId(books[1..], id)
  }

  /** What `delete from books where id = ?` leaves. */
  function BooksExcept(books: seq<Book>, id: int): (r: seq<Book>)
    ensures forall b :: b in r <==> b in books && b.id != id
    ensures |r| == |books| - |BooksWithId(books, id)|
    ensures !HasBook(books, id) ==> r == books
  {
    if books == [] then []
    else if books[0].id != id then [books[0]] + BooksExcept(books[1..], id)
    else BooksExcept(books[1..], id)
  }

  /** `select ... from books b where b.author_name ilike pattern` */
  function BooksMatching(books: seq<Book>, pattern: string, fold: char -> char): (r: seq<Book>)
    ensures forall b :: b in r <==> b in books && Like(b.author, pattern, fold)
    ensures |r| <= |books|
  {
    if books == [] then []
    else if Like(books[0].author, pattern, fold) then [books[0]] + BooksMatching(books[1..], pattern, fold)
    else BooksMatching(books[1..], pattern, fold)
  }

  /** What `update books set book_name = ?, author_name = ? where id = ?` leaves. */
  function UpdatedBooks(books: seq<Book>, b: Book): (r: seq<Book>)
    ensures |r| == |books|
  {
    seq(|books|, i requires 0 <= i < |books| =>
      if books[i].id == b.id then Book(books[i].id, b.bookName, b.author) else books[i])
  }

  lemma {:induction false} AtMostOneBookWithId(books: seq<Book>, id: int)
    ensures UniqueBookIds(books) ==> |BooksWithId(books, id)| <= 1
  {
    if books != [] && UniqueBookIds(books) {
      UniqueBooksTail(books);
      AtMostOneBookWithId(books[1..], id);
      var rest := BooksWithId(books[1..], id);
      assert |rest| > 0 ==> rest[0] in rest;
    }
  }

  /** `getBookById`: the matching row when there is exactly one, otherwise
      null (`queryForObject` throws, and the DAO catches, on zero rows and on
      more than one). */
  function FindBook(books: seq<Book>, id: int): (r: Option<Book>)
    ensures r.Some? ==> r.value in books && r.value.id == id
    ensures UniqueBookIds(books) ==> (r.Some? <==> HasBook(books, id))
    ensures UniqueBookIds(books) ==> forall b :: b in books && b.id == id ==> r == Some(b)
  {
    var m := BooksWithId(books, id);
    AtMostOneBookWithId(books, id);
    if |m| == 1 then (assert m[0] in m; Some(m[0])) else None
  }

  lemma {:induction false} BooksExceptUnique(books: seq<Book>, id: int)
    requires UniqueBookIds(books)
    ensures UniqueBookIds(BooksExcept(books, id))
  {
    if books != [] {
      UniqueBooksTail(books);
      BooksExceptUnique(books[1..], id);
      if books[0].id != id {
        UniqueBooksCons(books[0], BooksExcept(books[1..], id));
      }
    }
  }

  /** An update keeps every id, so it keeps the key, the set of ids and
      every row whose id differs. */
  lemma UpdatedBooksKeepsIds(books: seq<Book>, b: Book)
    ensures forall i :: 0 <= i < |books| ==> UpdatedBooks(books, b)[i].id == books[i].id
    ensures UniqueBookIds(books) ==> UniqueBookIds(UpdatedBooks(books, b))
    ensures forall id :: HasBook(UpdatedBooks(books, b), id) <==> HasBook(books, id)
    ensures forall x :: x in books && x.id != b.id ==> x in UpdatedBooks(books, b)
  {
  }

  /** Round trip of `updateBook`: on a key, reading the updated id back gives
      the new name and author under the same id, and every other id reads
      back as before. */
  lemma UpdateThenFindBook(books: seq<Book>, b: Book, id: int)
    requires UniqueBookIds(books)
    ensures HasBook(books, b.id) ==> FindBook(UpdatedBooks(books, b), b.id) == Some(Book(b.id, b.bookName, b.author))
    ensures !HasBook(books, b.id) ==> UpdatedBooks(books, b) == books
    ensures id != b.id ==> FindBook(UpdatedBooks(books, b), id) == FindBook(books, id)
  {
    var u := UpdatedBooks(books, b);
    UpdatedBooksKeepsIds(books, b);
    if HasBook(books, b.id) {
      var x :| x in books && x.id == b.id;
      var k :| 0 <= k < |books| && books[k] == x;
      assert u[k] == Book(b.id, b.bookName, b.author);
      assert u[k] in u;
    } else {
      assert forall i :: 0 <= i < |books| ==> books[i] in books;
    }
    if id != b.id {
      if HasBook(books, id) {
        var x :| x in books && x.id == id;
        assert x in u;
      }
    }
  }

  /** Round trip of `saveBook`: a row appended under a fresh id reads back unchanged. */
  lemma AppendThenFindBook(books: seq<Book>, b: Book)
    requires UniqueBookIds(books) && !HasBook(books, b.id)
    ensures UniqueBookIds(books + [b])
    ensures FindBook(books + [b], b.id) == Some(b)
  {
  }

  /** Why reviews go first: deleting a book that still has reviews leaves orphans. */
  lemma BookFirstLeavesOrphans(books: seq<Book>, reviews: seq<Review>, id: int)
    requires exists r :: r in reviews && r.bookId == id
    ensures !NoOrphans(BooksExcept(books, id), reviews)
  {
  }

  /** Under referential integrity a missing book has no reviews, so deleting
      its reviews changes nothing. */
  lemma NoReviewsOfMissingBook(books: seq<Book>, reviews: seq<Review>, id: int)
    requires NoOrphans(books, reviews) && !HasBook(books, id)
    ensures ReviewsOfBook(reviews, id) == []
    ensures ReviewsNotOfBook(reviews, id) == reviews
  {
  }

  /** Review creation does not check the book: inserting a review of a
      missing book breaks referential integrity. */
  lemma UncheckedReviewInsertOrphans(books: seq<Book>, reviews: seq<Review>, rv: Review)
    requires !HasBook(books, rv.bookId)
    ensures !NoOrphans(books, reviews + [rv])
  {
  }

  // ---------------------------------------------------------------------------
  // book_reviews

  /** `select ... from book_reviews r where r.id = ?` */
  function ReviewsWithId(reviews: seq<Review>, id: int): (r: seq<Review>)
    ensures forall x :: x in r <==> x in reviews && x.id == id
    ensures |r| <= |reviews|
  {
    if reviews == [] then []
    else if reviews[0].id == id then [reviews[0]] + ReviewsWithId(reviews[1..], id)
    else ReviewsWithId(reviews[1..], id)
  }

  /** What `delete from book_reviews where id = ?` leaves. */
  function ReviewsExceptId(reviews: seq<Review>, id: int): (r: seq<Review>)
    ensures forall x :: x in r <==> x in reviews && x.id != id
    ensures |r| == |reviews| - |ReviewsWithId(reviews, id)|
    ensures !HasReview(reviews, id) ==> r == reviews
  {
    if reviews == [] then []
    else if reviews[0].id != id then [reviews[0]] + ReviewsExceptId(reviews[1..], id)
    else ReviewsExceptId(reviews[1..], id)
  }

  /** `select ... from book_reviews r where r.book_id = ?` */
  function ReviewsOfBook(reviews: seq<Review>, bookId: int): (r: seq<Review>)
    ensures forall x :: x in r <==> x in reviews && x.bookId == bookId
    ensures |r| <= |reviews|
  {
    if reviews == [] then []
    else if reviews[0].bookId == bookId then [reviews[0]] + ReviewsOfBook(reviews[1..], bookId)
    else ReviewsOfBook(reviews[1..], bookId)
  }

  /** What `delete from book_reviews where book_id = ?` leaves. */
  function ReviewsNotOfBook(reviews: seq<Review>, bookId: int): (r: seq<Review>)
    ensures forall x :: x in r <==> x in reviews && x.bookId != bookId
    ensures |r| == |reviews| - |ReviewsOfBook(reviews, bookId)|
    ensures ReviewsOfBook(reviews, bookId) == [] ==> r == reviews
  {
    if reviews == [] then []
    else if reviews[0].bookId != bookId then [reviews[0]] + ReviewsNotOfBook(reviews[1..], bookId)
    else ReviewsNotOfBook(reviews[1..], bookId)
  }

  /** After `delete from book_reviews where book_id = ?`, selecting that book's reviews gives nothing. */
  lemma {:induction false} NoReviewsLeftOfBook(reviews: seq<Review>, bookId: int)
    ensures ReviewsOfBook(ReviewsNotOfBook(reviews, bookId), bookId) == []
  {
    if reviews != [] {
      NoReviewsLeftOfBook(reviews[1..], bookId);
    }
  }

  /** What `update book_reviews set book_id = ?, rating = ?, reviewer_name = ?,
      review_text = ? where id = ?` leaves. */
  function UpdatedReviews(reviews: seq<Review>, rv: Review): (r: seq<Review>)
    ensures |r| == |reviews|
  {
    seq(|reviews|, i requires 0 <= i < |reviews| =>
      if reviews[i].id == rv.id then Review(reviews[i].id, rv.bookId, rv.rating, rv.reviewerName, rv.reviewText)
      else reviews[i])
  }

  /** `select ... from book_reviews r order by id desc limit 1` */
  function LastById(reviews: seq<Review>): (r: Option<Review>)
    ensures r.None? <==> reviews == []
    ensures r.Some? ==> r.value in reviews && forall x :: x in reviews ==> x.id <= r.value.id
  {
    if reviews == [] then None
    else match LastById(reviews[1..])
      case None => Some(reviews[0])
      case Some(m) => if m.id > reviews[0].id then Some(m) else Some(reviews[0])
  }

  lemma {:induction false} AtMostOneReviewWithId(reviews: seq<Review>, id: int)
    ensures UniqueReviewIds(reviews) ==> |ReviewsWithId(reviews, id)| <= 1
  {
    if reviews != [] && UniqueReviewIds(reviews) {
      UniqueReviewsTail(reviews);
      AtMostOneReviewWithId(reviews[1..], id);
      var rest := ReviewsWithId(reviews[1..], id);
      assert |rest| > 0 ==> rest[0] in rest;
    }
  }

  /** `getReviewById`: the matching row when there is exactly one, otherwise null. */
  function FindReview(reviews: seq<Review>, id: int): (r: Option<Review>)
    ensures r.Some? ==> r.value in reviews && r.value.id == id
    ensures UniqueReviewIds(reviews) ==> (r.Some? <==> HasReview(reviews, id))
    ensures UniqueReviewIds(reviews) ==> forall x :: x in reviews && x.id == id ==> r == Some(x)
  {
    var m := ReviewsWithId(reviews, id);
    AtMostOneReviewWithId(reviews, id);
    if |m| == 1 then (assert m[0] in m; Some(m[0])) else None
  }

  lemma {:induction false} ReviewsExceptIdUnique(reviews: seq<Review>, id: int)
    requires UniqueReviewIds(reviews)
    ensures UniqueReviewIds(ReviewsExceptId(reviews, id))
  {
    if reviews != [] {
      UniqueReviewsTail(reviews);
      ReviewsExceptIdUnique(reviews[1..], id);
      if reviews[0].id != id {
        UniqueReviewsCons(reviews[0], ReviewsExceptId(reviews[1..], id));
      }
    }
  }

  lemma {:induction false} ReviewsNotOfBookUnique(reviews: seq<Review>, bookId: int)
    requires UniqueReviewIds(reviews)
    ensures UniqueReviewIds(ReviewsNotOfBook(reviews, bookId))
  {
    if reviews != [] {
      UniqueReviewsTail(reviews);
      ReviewsNotOfBookUnique(reviews[1..], bookId);
      if reviews[0].bookId != bookId {
        UniqueReviewsCons(reviews[0], ReviewsNotOfBook(reviews[1..], bookId));
      }
    }
  }

  /** Round trip of `updateBookReview`: on a key, the row of that id reads
      back with the new fields and its own id; every other id reads back as
      before. */
  lemma UpdateThenFindReview(reviews: seq<Review>, rv: Review, id: int)
    requires UniqueReviewIds(reviews)
    ensures UniqueReviewIds(UpdatedReviews(reviews, rv))
    ensures HasReview(reviews, rv.id) ==>
      FindReview(UpdatedReviews(reviews, rv), rv.id) == Some(Review(rv.id, rv.bookId, rv.rating, rv.reviewerName, rv.reviewText))
    ensures !HasReview(reviews, rv.id) ==> UpdatedReviews(reviews, rv) == reviews
    ensures id != rv.id ==> FindReview(UpdatedReviews(reviews, rv), id) == FindReview(reviews, id)
  {
    var u := UpdatedReviews(reviews, rv);
    assert forall i :: 0 <= i < |reviews| ==> u[i].id == reviews[i].id;
    if HasReview(reviews, rv.id) {
      var x :| x in reviews && x.id == rv.id;
      var k :| 0 <= k < |reviews| && reviews[k] == x;
      assert u[k] in u;
    } else {
      assert forall i :: 0 <= i < |reviews| ==> reviews[i] in reviews;
    }
    if id != rv.id {
      if HasReview(u, id) {
        var x :| x in u && x.id == id;
        var k :| 0 <= k < |u| && u[k] == x;
        assert reviews[k] in reviews;
      }
      if HasReview(reviews, id) {
        var x :| x in reviews && x.id == id;
        var k :| 0 <= k < |reviews| && reviews[k] == x;
        assert u[k] == x;
      }
    }
  }

  /** The row `saveBookReview` reads back is the one it inserted exactly when
      the new id exceeds every existing id. */
  lemma LastAfterInsert(reviews: seq<Review>, rv: Review)
    requires UniqueReviewIds(reviews) && !HasReview(reviews, rv.id)
    ensures UniqueReviewIds(reviews + [rv])
    ensures LastById(reviews + [rv]) == Some(rv) <==> forall x :: x in reviews ==> x.id < rv.id
  {
  }

  /** The row read back after an insert whose sequence value lags behind an
      existing id is that other row, not the inserted one. */
  lemma LaggingSequenceReadsOtherRow()
    ensures var old5 := Review(5, 1, 7, "a", "x");
            var new1 := Review(1, 2, 9, "b", "y");
            LastById([old5] + [new1]) == Some(old5)
  {
  }

  /** `getReviewByReviewerName`: the inner join of `book_reviews` and `books`
      on `b.id = r.book_id`, restricted to the reviewer. */
  function ReviewerJoin(reviews: seq<Review>, books: seq<Book>, name: string): (r: seq<ReviewByReviewerName>)
    ensures forall x :: x in r ==>
      exists rv, b :: rv in reviews && b in books && rv.reviewerName == name && b.id == rv.bookId && x == JoinRow(rv, b)
    ensures forall rv, b :: rv in reviews && b in books && rv.reviewerName == name && b.id == rv.bookId ==>
      JoinRow(rv, b) in r
  {
    if reviews == [] then []
    else
      var rest := ReviewerJoin(reviews[1..], books, name);
      if reviews[0].reviewerName == name then JoinRows(reviews[0], BooksWithId(books, reviews[0].bookId)) + rest
      else rest
  }

  /** The rows one review contributes to the join, one per matching book. */
  function JoinRows(rv: Review, matching: seq<Book>): (r: seq<ReviewByReviewerName>)
    ensures |r| == |matching|
    ensures forall i :: 0 <= i < |matching| ==> r[i] == JoinRow(rv, matching[i])
  {
    if matching == [] then [] else [JoinRow(rv, matching[0])] + JoinRows(rv, matching[1..])
  }

  /** Reference definition of the join on a keyed `books`: one row per review
      of the reviewer whose book exists, in review order; the others are dropped. */
  function ReviewerRows(reviews: seq<Review>, books: seq<Book>, name: string): seq<ReviewByReviewerName> {
    if reviews == [] then []
    else
      var rest := ReviewerRows(reviews[1..], books, name);
      match FindBook(books, reviews[0].bookId)
      case Some(b) => if reviews[0].reviewerName == name then [JoinRow(reviews[0], b)] + rest else rest
      case None => rest
  }

  lemma {:induction false} ReviewerJoinIsLookup(reviews: seq<Review>, books: seq<Book>, name: string)
    requires UniqueBookIds(books)
    ensures ReviewerJoin(reviews, books, name) == ReviewerRows(reviews, books, name)
  {
    if reviews != [] {
      ReviewerJoinIsLookup(reviews[1..], books, name);
      var rv := reviews[0];
      var m := BooksWithId(books, rv.bookId);
      AtMostOneBookWithId(books, rv.bookId);
      if |m| == 1 {
        assert m[0] in m;
        assert JoinRows(rv, m) == [JoinRow(rv, m[0])];
      } else {
        assert m == [];
        assert !HasBook(books, rv.bookId);
      }
    }
  }
}
