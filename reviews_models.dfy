/** A user's review of a bike: a rating from 1 to 5 and a comment. Reviews are
    listed newest first and disappear with their bike or their author. */
module ReviewModels {
  import opened RentalModels
  import Seqs

  datatype Review = Review(bike: BikeId, user: UserId, rating: int, comment: string, createdAt: Instant)

  const MinRating: int := 1
  const MaxRating: int := 5

  /** A rating the validators accept. */
  predicate ValidRating(rating: int)
  {
    MinRating <= rating <= MaxRating
  }

  /** The errors the two validators of the rating field report, the minimum
      check first. */
  datatype RatingError = BelowMinimum(limit: int) | AboveMaximum(limit: int)

  /** Runs the minimum-value and maximum-value validators on `rating`. */
  function RatingErrors(rating: int): (errors: seq<RatingError>)
    ensures errors == [] <==> ValidRating(rating)
    ensures BelowMinimum(MinRating) in errors <==> rating < MinRating
    ensures AboveMaximum(MaxRating) in errors <==> rating > MaxRating
    ensures |errors| <= 1
  {
    (if rating < MinRating then [BelowMinimum(MinRating)] else [])
    + (if rating > MaxRating then [AboveMaximum(MaxRating)] else [])
  }

  /** The ordering key of a review: its creation time. */
  function CreatedKey(r: Review): int
  {
    r.createdAt
  }

  /** The reviews in listing order, newest first. Reviews created at the same
      moment come in an unspecified order in the database; here they keep one
      fixed order. */
  function ListReviews(reviews: seq<Review>): (listed: seq<Review>)
    ensures multiset(listed) == multiset(reviews)
    ensures forall i, j :: 0 <= i < j < |listed| ==> listed[i].createdAt >= listed[j].createdAt
  {
    var listed := Seqs.SortDesc(reviews, CreatedKey);
    assert Seqs.SortedDesc(listed, CreatedKey);
    listed
  }

  /** Deleting a bike deletes its reviews and keeps every other one. */
  function DeleteBikeReviews(reviews: seq<Review>, bike: BikeId): (kept: seq<Review>)
    ensures forall i :: 0 <= i < |kept| ==> kept[i].bike != bike && kept[i] in reviews
    ensures forall i :: 0 <= i < |reviews| && reviews[i].bike != bike ==> reviews[i] in kept
    ensures forall r :: multiset(kept)[r] == if r.bike != bike then multiset(reviews)[r] else 0
  {
    var p := (r: Review) => r.bike != bike;
    assert forall r :: multiset(Seqs.Filter(reviews, p))[r] == if p(r) then multiset(reviews)[r] else 0 by {
      forall r ensures multiset(Seqs.Filter(reviews, p))[r] == if p(r) then multiset(reviews)[r] else 0 {
        Seqs.FilterCount(reviews, p, r);
      }
    }
    Seqs.Filter(reviews, p)
  }

  /** Deleting a user deletes the user's reviews and keeps every other one. */
  function DeleteUserReviews(reviews: seq<Review>, user: UserId): (kept: seq<Review>)
    ensures forall i :: 0 <= i < |kept| ==> kept[i].user != user && kept[i] in reviews
    ensures forall i :: 0 <= i < |reviews| && reviews[i].user != user ==> reviews[i] in kept
    ensures forall r :: multiset(kept)[r] == if r.user != user then multiset(reviews)[r] else 0
  {
    var p := (r: Review) => r.user != user;
    assert forall r :: multiset(Seqs.Filter(reviews, p))[r] == if p(r) then multiset(reviews)[r] else 0 by {
      forall r ensures multiset(Seqs.Filter(reviews, p))[r] == if p(r) then multiset(reviews)[r] else 0 {
        Seqs.FilterCount(reviews, p, r);
      }
    }
    Seqs.Filter(reviews, p)
  }

  const ReviewPrefix: string := "Review by "
  const ForWord: string := " for "

  /** The string form of a review, "Review by {username} for {bike name}":
      the author's name follows the prefix and the bike's name ends it. */
  function ReviewLabel(username: string, bikeName: string): (s: string)
    ensures |s| == |ReviewPrefix| + |username| + |ForWord| + |bikeName|
    ensures s[..|ReviewPrefix|] == ReviewPrefix
    ensures s[|ReviewPrefix|..|ReviewPrefix| + |username|] == username
    ensures s[|s| - |bikeName| - |ForWord|..|s| - |bikeName|] == ForWord
    ensures s[|s| - |bikeName|..] == bikeName
  {
    ReviewPrefix + username + ForWord + bikeName
  }
}
