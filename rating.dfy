/** The aggregate rating of a book: the arithmetic mean of its reviews'
    ratings, absent (not zero) when it has none. */
module Rating {
  import opened Entities

  /** The sum of the ratings, added in list order as the loop of
      `getAverageRating` adds them. It equals the sum taken from the first
      review on. */
  function SumRatings(reviews: seq<Review>): (sum: int)
    ensures sum == SumFromFirst(reviews)
  {
    if reviews == [] then 0
    else
      var init := reviews[..|reviews| - 1];
      SumFromFirstAppend(init, reviews[|reviews| - 1]);
      assert init + [reviews[|reviews| - 1]] == reviews;
      SumRatings(init) + reviews[|reviews| - 1].rating
  }

  /** Reference sum: the first rating plus the sum of the rest. */
  function SumFromFirst(reviews: seq<Review>): int {
    if reviews == [] then 0 else reviews[0].rating + SumFromFirst(reviews[1..])
  }

  /** Appending a review adds its rating to the reference sum. */
  lemma {:induction false} SumFromFirstAppend(init: seq<Review>, last: Review)
    ensures SumFromFirst(init + [last]) == SumFromFirst(init) + last.rating
  {
    if init != [] {
      assert (init + [last])[1..] == init[1..] + [last];
      SumFromFirstAppend(init[1..], last);
    }
  }

  /** `sum / size` with fractional division, or null for an empty list. */
  function Average(reviews: seq<Review>): (r: Option<real>)
    ensures r.None? <==> reviews == []
    ensures r.Some? ==> r.value * |reviews| as real == SumRatings(reviews) as real
  {
    if reviews == [] then None
    else
      DivideThenMultiply(SumRatings(reviews) as real, |reviews| as real);
      Some(SumRatings(reviews) as real / |reviews| as real)
  }

  /** Dividing by a non-zero number and multiplying back gives the original. */
  lemma DivideThenMultiply(x: real, n: real)
    requires n != 0.0
    ensures (x / n) * n == x
  {
  }

  /** Bounds on every rating bound the sum. */
  lemma {:induction false} SumRatingsBounds(reviews: seq<Review>, lo: int, hi: int)
    requires forall r :: r in reviews ==> lo <= r.rating <= hi
    ensures lo * |reviews| <= SumRatings(reviews) <= hi * |reviews|
  {
    if reviews != [] {
      var init := reviews[..|reviews| - 1];
      assert forall r :: r in init ==> r in reviews;
      SumRatingsBounds(init, lo, hi);
      assert reviews[|reviews| - 1] in reviews;
      BoundsStep(SumRatings(init), reviews[|reviews| - 1].rating, |init|, lo, hi);
    }
  }

  /** One more rating within the bounds keeps the sum within `count` times the bounds. */
  lemma BoundsStep(sum: int, x: int, n: int, lo: int, hi: int)
    requires lo * n <= sum <= hi * n && lo <= x <= hi
    ensures lo * (n + 1) <= sum + x <= hi * (n + 1)
  {
    assert lo * (n + 1) == lo * n + lo && hi * (n + 1) == hi * n + hi;
  }

  /** The average lies between the smallest and the largest possible rating:
      ratings in 0..10 give an average in 0..10. */
  lemma AverageBounds(reviews: seq<Review>, lo: int, hi: int)
    requires reviews != []
    requires forall r :: r in reviews ==> lo <= r.rating <= hi
    ensures lo as real <= Average(reviews).value <= hi as real
  {
    SumRatingsBounds(reviews, lo, hi);
    QuotientBounds(SumRatings(reviews), |reviews|, lo, hi);
  }

  /** A sum between `lo * n` and `hi * n`, divided by `n`, lies between `lo` and `hi`. */
  lemma QuotientBounds(sum: int, n: int, lo: int, hi: int)
    requires n > 0 && lo * n <= sum <= hi * n
    ensures lo as real <= sum as real / n as real <= hi as real
  {
    var q := sum as real / n as real;
    assert q * n as real == sum as real;
    CastProduct(lo, n);
    CastProduct(hi, n);
    CancelPositiveFactor(lo as real, q, n as real);
    CancelPositiveFactor(q, hi as real, n as real);
  }

  /** Converting a product to a real converts each factor. */
  lemma CastProduct(x: int, y: int)
    ensures (x * y) as real == (x as real) * (y as real)
  {
  }

  /** A positive factor may be cancelled from both sides of an inequality. */
  lemma CancelPositiveFactor(x: real, y: real, n: real)
    requires n > 0.0 && x * n <= y * n
    ensures x <= y
  {
  }

  /** Ratings that are all equal average to that rating. */
  lemma AverageOfEqualRatings(reviews: seq<Review>, c: int)
    requires reviews != []
    requires forall r :: r in reviews ==> r.rating == c
    ensures Average(reviews) == Some(c as real)
  {
    AverageBounds(reviews, c, c);
  }

  /** Division is fractional, not integer: ratings 8 and 6 give 7.0, ratings 7 and 8 give 7.5. */
  lemma AverageIsFractional()
    ensures Average([Review(1, 1, 8, "a", ""), Review(2, 1, 6, "b", "")]) == Some(7.0)
    ensures Average([Review(1, 1, 7, "a", ""), Review(2, 1, 8, "b", "")]) == Some(7.5)
    ensures Average([Review(1, 1, 10, "a", "")]) == Some(10.0)
  {
    var two := [Review(1, 1, 8, "a", ""), Review(2, 1, 6, "b", "")];
    assert two[..1] == [two[0]] && two[..1][..0] == [];
    assert SumRatings(two) == 14;
    var other := [Review(1, 1, 7, "a", ""), Review(2, 1, 8, "b", "")];
    assert other[..1] == [other[0]] && other[..1][..0] == [];
    assert SumRatings(other) == 15;
    var one := [Review(1, 1, 10, "a", "")];
    assert one[..0] == [];
  }
}
