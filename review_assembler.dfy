/** BookReviewAssembler: the review operations with the statuses they answer with. */
module BookReviewAssembler {
  import opened Entities
  import opened Tables
  import opened Database

  /** `getReviewByBookId`: the reviewer-facing projection of each of the
      book's reviews, in the same order, or NOT_FOUND when it has none. */
  method GetReviewByBookId(store: Store, bookId: int) returns (r: Response<seq<ReviewByBookId>>)
    ensures r.Ok? || r == NotFound
    ensures var found := ReviewsOfBook(store.reviews, bookId);
      (r == NotFound <==> found == []) &&
      (r.Ok? ==> |r.body| == |found| && forall i :: 0 <= i < |found| ==> r.body[i] == ByBookIdView(found[i]))
  {
    var reviews := store.GetReviewByBookId(bookId);
    if reviews != [] {
      var views := [];
      for i := 0 to |reviews|
        invariant |views| == i
        invariant forall k :: 0 <= k < i ==> views[k] == ByBookIdView(reviews[k])
      {
        views := views + [ByBookIdView(reviews[i])];
      }
      r := Ok(views);
    } else {
      r := NotFound;
    }
  }

  /** `getReviewByReviewerName`: the rows of the join unchanged, or NOT_FOUND
      when there are none. */
  method GetReviewByReviewerName(store: Store, name: string) returns (r: Response<seq<ReviewByReviewerName>>)
    ensures r.Ok? || r == NotFound
    ensures var rows := ReviewerJoin(store.reviews, store.books, name);
      (rows == [] ==> r == NotFound) && (rows != [] ==> r == Ok(rows))
    ensures store.Valid() && r.Ok? ==> r.body == ReviewerRows(store.reviews, store.books, name)
  {
    var rows := store.GetReviewByReviewerName(name);
    if rows != [] {
      r := Ok(rows);
    } else {
      r := NotFound;
    }
  }

  /** `updateBookReview`: NOT_FOUND when the id is unknown; otherwise the
      stored review keeps the path id, takes book id, rating, reviewer name
      and text from the input, is written back and returned. */
  method UpdateBookReview(store: Store, rv: Review, id: int) returns (r: Response<Review>)
    requires store.Valid()
    modifies store`reviews
    ensures store.Valid()
    ensures r.Ok? || r == NotFound
    ensures r == NotFound <==> !HasReview(old(store.reviews), id)
    ensures r == NotFound ==> store.reviews == old(store.reviews)
    ensures r.Ok? ==> r.body == Review(id, rv.bookId, rv.rating, rv.reviewerName, rv.reviewText)
    ensures r.Ok? ==> store.reviews == UpdatedReviews(old(store.reviews), r.body) && FindReview(store.reviews, id) == Some(r.body)
    ensures forall other :: other != id ==> FindReview(store.reviews, other) == FindReview(old(store.reviews), other)
  {
    var found := store.GetReviewById(id);
    if found.Some? {
      var updated := found.value.(id := id, bookId := rv.bookId, rating := rv.rating,
                                  reviewerName := rv.reviewerName, reviewText := rv.reviewText);
      var _ := store.UpdateBookReview(updated);
      r := Ok(updated);
    } else {
      r := NotFound;
    }
  }

  /** `saveBookReview`: the review the store reads back after the insert, or
      INTERNAL_SERVER_ERROR when either statement fails; a failure of the
      read-back leaves the inserted row in place. */
  method SaveBookReview(store: Store, rv: Review, insertFault: bool, readFault: bool) returns (r: Response<Review>)
    requires store.Valid()
    modifies store`reviews, store`reviewsSeq
    ensures store.Valid()
    ensures store.reviewsSeq == old(store.reviewsSeq) + 1
    ensures old(store.ReviewsSeqAhead()) ==> store.ReviewsSeqAhead()
    ensures r.Ok? || r == ServerError
    ensures var inserted := Review(store.reviewsSeq, rv.bookId, rv.rating, rv.reviewerName, rv.reviewText);
      if insertFault || HasReview(old(store.reviews), store.reviewsSeq) then store.reviews == old(store.reviews)
      else store.reviews == old(store.reviews) + [inserted]
    ensures r == ServerError <==> insertFault || HasReview(old(store.reviews), store.reviewsSeq) || readFault
    ensures r.Ok? ==> r.body in store.reviews && forall x :: x in store.reviews ==> x.id <= r.body.id
    ensures old(store.ReviewsSeqAhead()) && !insertFault && !readFault ==>
      r == Ok(Review(store.reviewsSeq, rv.bookId, rv.rating, rv.reviewerName, rv.reviewText))
  {
    var saved := store.SaveBookReview(rv, insertFault, readFault);
    if saved.Success? {
      r := Ok(saved.value);
    } else {
      r := ServerError;
    }
  }

  /** `deleteBookReviewById`: OK when a row was deleted, NOT_FOUND when none
      was, INTERNAL_SERVER_ERROR when the store fails. */
  method DeleteBookReviewById(store: Store, id: int, fault: bool) returns (r: Response<()>)
    requires store.Valid()
    modifies store`reviews
    ensures store.Valid()
    ensures fault <==> r == ServerError
    ensures fault ==> store.reviews == old(store.reviews)
    ensures !fault ==> store.reviews == ReviewsExceptId(old(store.reviews), id)
    ensures !fault ==> (r == Ok(()) <==> HasReview(old(store.reviews), id))
    ensures !fault ==> (r == NotFound <==> !HasReview(old(store.reviews), id))
    ensures r == NotFound ==> store.reviews == old(store.reviews)
    ensures NoOrphans(store.books, old(store.reviews)) ==> NoOrphans(store.books, store.reviews)
  {
    var removed := store.DeleteBookReviewById(id, fault);
    if removed.Failure? {
      return ServerError;
    }
    if removed.value == 0 {
      return NotFound;
    }
    return Ok(());
  }
}
