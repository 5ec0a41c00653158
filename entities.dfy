/** Rows of the two tables, the projections the queries and the assemblers
    build, and the result types of the data-access and assembler layers. */
module Entities {

  /** A row of `books`: (id, book_name, author_name). */
  datatype Book = Book(id: int, bookName: string, author: string)

  /** A row of `book_reviews`: (id, book_id, rating, reviewer_name, review_text). */
  datatype Review = Review(id: int, bookId: int, rating: int, reviewerName: string, reviewText: string)

  /** The reviewer-facing projection of a review (BookReviewByBookIdDTO). */
  datatype ReviewByBookId = ReviewByBookId(reviewerName: string, reviewText: string, rating: int)

  /** One row of the reviewer-name join (BookReviewByReviewerNameDTO). */
  datatype ReviewByReviewerName = ReviewByReviewerName(reviewText: string, rating: int, bookName: string, authorName: string)

  /** A book with its derived average rating (BookWithAverageRatingDTO); the
      average is absent for a book without reviews. */
  datatype BookWithRating = BookWithRating(id: int, bookName: string, author: string, averageRating: Option<real>)

  /** A nullable value: `None` stands for Java's `null`. */
  datatype Option<+T> = None | Some(value: T)

  /** What a data-access call that may throw yields: its value, or the failure of the store. */
  datatype Fallible<+T> = Success(value: T) | Failure

  /** The HTTP statuses the assemblers answer with: 200 with a body, 204, 404 and 500. */
  datatype Response<+T> = Ok(body: T) | NoContent | NotFound | ServerError

  /** The projection built by the BookReviewByBookIdDTO constructor. */
  function ByBookIdView(r: Review): ReviewByBookId {
    ReviewByBookId(r.reviewerName, r.reviewText, r.rating)
  }

  /** The row `select r.review_text, r.rating, b.book_name, b.author_name` builds from a joined pair. */
  function JoinRow(r: Review, b: Book): ReviewByReviewerName {
    ReviewByReviewerName(r.reviewText, r.rating, b.bookName, b.author)
  }
}
