/** The review service: after an order is COMPLETED each of its two parties may
    review the other once; the reviewee may reply once; the profile statistics
    report the share of positive reviews. */
module Reviews {

  import opened Wrappers
  import O = OrderEntity
  import U = UserEntity
  import opened Tables
  import opened Text

  /** Review.Type: who reviews whom. */
  datatype ReviewType = EmployerToDeveloper | DeveloperToEmployer
  {
    function Code(): int
    {
      match this
      case EmployerToDeveloper => 1
      case DeveloperToEmployer => 2
    }
  }

  /** One `review` row. The tags are kept as the list the request carried rather
      than as its JSON text. */
  datatype Review = Review(
    orderId: nat,
    projectId: nat,
    reviewerId: nat,
    revieweeId: nat,
    reviewType: ReviewType,
    rating: int,
    skillRating: int,
    communicationRating: int,
    attitudeRating: int,
    timelinessRating: int,
    content: string,
    tags: Option<seq<string>>,
    isAnonymous: bool,
    reply: Option<string>,
    deleted: bool)

  /** The ratings a create request carries; an absent sub-rating is None. */
  datatype Ratings = Ratings(
    rating: int,
    skill: Option<int>,
    communication: Option<int>,
    attitude: Option<int>,
    timeliness: Option<int>)

  predicate InRange(x: int)
  {
    1 <= x <= 5
  }

  /** The request's bean validation: every supplied rating is 1 to 5. */
  predicate ValidRatings(q: Ratings)
  {
    InRange(q.rating)
    && (q.skill.Some? ==> InRange(q.skill.value))
    && (q.communication.Some? ==> InRange(q.communication.value))
    && (q.attitude.Some? ==> InRange(q.attitude.value))
    && (q.timeliness.Some? ==> InRange(q.timeliness.value))
  }

  predicate RatingsInRange(r: Review)
  {
    InRange(r.rating) && InRange(r.skillRating) && InRange(r.communicationRating)
    && InRange(r.attitudeRating) && InRange(r.timelinessRating)
  }

  /** findByOrderAndReviewer finds a row: the reviewer has a live review of the
      order. */
  predicate HasReviewed(rows: seq<Review>, orderId: nat, reviewerId: nat)
  {
    exists i :: 0 <= i < |rows| && rows[i].orderId == orderId && rows[i].reviewerId == reviewerId && !rows[i].deleted
  }

  /** At most one live review per (order, reviewer). */
  predicate OnePerReviewer(rows: seq<Review>)
  {
    forall i, j ::
      (0 <= i < |rows| && 0 <= j < |rows| && !rows[i].deleted && !rows[j].deleted
       && rows[i].orderId == rows[j].orderId && rows[i].reviewerId == rows[j].reviewerId) ==>
      i == j
  }

  /** A sub-rating as stored: the one given, or else the overall rating. */
  function SubRating(sub: Option<int>, overall: int): (r: int)
    ensures sub.None? ==> r == overall
    ensures InRange(overall) && (sub.Some? ==> InRange(sub.value)) ==> InRange(r)
  {
    if sub.Some? then sub.value else overall
  }

  /** The review createReview inserts for `reviewer` on `order`. The type and the
      reviewee follow from which party reviews; a missing sub-rating is the
      overall rating; the tags are stored only when there are some. */
  function NewReview(order: O.Order, orderId: nat, reviewer: nat, q: Ratings, content: string,
                     tags: Option<seq<string>>, isAnonymous: Option<bool>): (r: Review)
    requires reviewer == order.employerId || reviewer == order.developerId
    ensures r.orderId == orderId && r.projectId == order.projectId && r.reviewerId == reviewer && !r.deleted
    ensures (r.reviewType == EmployerToDeveloper) == (reviewer == order.employerId)
    ensures r.revieweeId == (if reviewer == order.employerId then order.developerId else order.employerId)
    ensures reviewer == order.employerId || r.revieweeId == order.employerId
    ensures r.rating == q.rating && (q.skill.None? ==> r.skillRating == q.rating)
    ensures (q.communication.None? ==> r.communicationRating == q.rating)
            && (q.attitude.None? ==> r.attitudeRating == q.rating)
            && (q.timeliness.None? ==> r.timelinessRating == q.rating)
    ensures ValidRatings(q) ==> RatingsInRange(r)
    ensures r.isAnonymous <==> isAnonymous == Some(true)
    ensures r.reply.None?
  {
    var isEmployer := reviewer == order.employerId;
    Review(orderId, order.projectId, reviewer,
           if isEmployer then order.developerId else order.employerId,
           if isEmployer then EmployerToDeveloper else DeveloperToEmployer,
           q.rating,
           SubRating(q.skill, q.rating),
           SubRating(q.communication, q.rating),
           SubRating(q.attitude, q.rating),
           SubRating(q.timeliness, q.rating),
           content,
           if tags.Some? && |tags.value| > 0 then tags else None,
           if isAnonymous.Some? then isAnonymous.value else false,
           None, false)
  }

  /** canReviewOrder for `user`. Unlike createReview it does not look at the
      order's deletedAt. */
  predicate CanReviewOrder(orders: seq<O.Order>, reviews: seq<Review>, orderId: nat, user: nat)
  {
    orderId < |orders| && orders[orderId].status == O.Completed
    && (orders[orderId].employerId == user || orders[orderId].developerId == user)
    && !HasReviewed(reviews, orderId, user)
  }

  /** The checks of createReview, as the error it raises or none. */
  function CreateCheck(orders: seq<O.Order>, reviews: seq<Review>, orderId: nat, user: nat): (r: Option<ErrorCode>)
  {
    if orderId >= |orders| || orders[orderId].deleted then Some(OrderNotFound)
    else if orders[orderId].status != O.Completed then Some(BadRequest)
    else if orders[orderId].employerId != user && orders[orderId].developerId != user then Some(Forbidden)
    else if HasReviewed(reviews, orderId, user) then Some(Conflict)
    else None
  }

  /** On a live order, canReviewOrder answers exactly whether createReview would
      pass its checks. */
  lemma CanReviewMatchesCreate(orders: seq<O.Order>, reviews: seq<Review>, orderId: nat, user: nat)
    requires orderId < |orders| && !orders[orderId].deleted
    ensures CanReviewOrder(orders, reviews, orderId, user) <==> CreateCheck(orders, reviews, orderId, user).None?
  {
  }

  /** On a deleted COMPLETED order the two disagree: canReviewOrder says yes and
      createReview answers ORDER_NOT_FOUND. */
  lemma CanReviewDeletedOrder(o: O.Order)
    requires o.status == O.Completed && o.deleted
    ensures CanReviewOrder([o], [], 0, o.employerId)
    ensures CreateCheck([o], [], 0, o.employerId) == Some(OrderNotFound)
  {
  }

  /** countByReviewee: the live reviews the user received. */
  function CountReceived(rows: seq<Review>, userId: nat): nat
  {
    if rows == [] then 0
    else CountReceived(rows[..|rows| - 1], userId)
         + (if rows[|rows| - 1].revieweeId == userId && !rows[|rows| - 1].deleted then 1 else 0)
  }

  /** countPositiveByReviewee: those of them rated 4 or 5. */
  function CountPositive(rows: seq<Review>, userId: nat): nat
  {
    if rows == [] then 0
    else CountPositive(rows[..|rows| - 1], userId)
         + (if rows[|rows| - 1].revieweeId == userId && !rows[|rows| - 1].deleted && rows[|rows| - 1].rating >= 4 then 1 else 0)
  }

  lemma {:induction false} PositiveAtMostReceived(rows: seq<Review>, userId: nat)
    ensures CountPositive(rows, userId) <= CountReceived(rows, userId)
  {
    if rows != [] {
      PositiveAtMostReceived(rows[..|rows| - 1], userId);
    }
  }

  /** positiveRate in percent: positive / count rounded half-up to two decimals,
      times 100, so the nearest whole percent with halves rounded up; 0 when
      there are no reviews. */
  function PositiveRate(positive: nat, count: nat): (rate: int)
  {
    if count > 0 then (200 * positive + count) / (2 * count) else 0
  }

  /** The rate is the percentage rounded half-up: within half a point of
      100 · positive / count, and at most 100 while positive ≤ count. */
  lemma PositiveRateSpec(positive: nat, count: nat)
    ensures count > 0 ==> var rate := PositiveRate(positive, count);
      2 * count * rate <= 200 * positive + count < 2 * count * rate + 2 * count
    ensures positive <= count ==> 0 <= PositiveRate(positive, count) <= 100
  {
    if count == 0 { return; }
    var rate := PositiveRate(positive, count);
    var n := 200 * positive + count;
    var d := 2 * count;
    assert n == d * (n / d) + n % d;
    if positive <= count {
      assert n < d * 101 by {
        assert n <= 200 * count + count;
      }
      if rate > 100 {
        assert d * rate >= d * 101 by { MulAtLeast(d, rate, 101); }
      }
    }
  }

  lemma MulAtLeast(d: nat, x: int, y: int)
    requires x >= y
    ensures d * x >= d * y
  {
  }

  lemma PositiveRateExamples()
    ensures PositiveRate(2, 3) == 67 && PositiveRate(1, 3) == 33 && PositiveRate(1, 8) == 13
    ensures PositiveRate(0, 5) == 0 && PositiveRate(5, 5) == 100 && PositiveRate(0, 0) == 0
  {
  }

  /** The statistics' review numbers for a user: count, positive count and rate. */
  function ReviewStats(rows: seq<Review>, userId: nat): (r: (nat, nat, int))
    ensures r.1 <= r.0 && 0 <= r.2 <= 100
    ensures r.0 == 0 ==> r.2 == 0
  {
    var count := CountReceived(rows, userId);
    var positive := CountPositive(rows, userId);
    PositiveAtMostReceived(rows, userId);
    PositiveRateSpec(positive, count);
    (count, positive, PositiveRate(positive, count))
  }

  /** The reviewer toVO shows: id 0 and "匿名用户" for an anonymous review,
      otherwise the reviewer's own id and name, or nothing when that user has no
      row. */
  function ShownReviewer(r: Review, users: seq<U.User>): (shown: Option<(int, string)>)
    ensures r.isAnonymous ==> shown == Some((0, "匿名用户"))
    ensures !r.isAnonymous && r.reviewerId < |users| ==> shown == Some((r.reviewerId as int, users[r.reviewerId].username))
    ensures !r.isAnonymous && r.reviewerId >= |users| ==> shown.None?
  {
    if r.isAnonymous then Some((0, "匿名用户"))
    else if r.reviewerId < |users| then Some((r.reviewerId as int, users[r.reviewerId].username))
    else None
  }

  class ReviewRepository {
    var rows: seq<Review>

    /** One review per reviewer and order, every rating 1 to 5. */
    ghost predicate Valid()
      reads this
    {
      OnePerReviewer(rows) && forall i :: 0 <= i < |rows| ==> RatingsInRange(rows[i])
    }

    constructor()
      ensures rows == [] && Valid()
    {
      rows := [];
    }
  }

  class ReviewService {
    const reviews: ReviewRepository
    const orders: OrderRepository

    constructor(reviews: ReviewRepository, orders: OrderRepository)
      ensures this.reviews == reviews && this.orders == orders
    {
      this.reviews := reviews;
      this.orders := orders;
    }

    /** createReview by `actor`. The request is validated before the call:
        ratings 1 to 5, content not blank and of 10 to 1000 UTF-16 units. */
    method CreateReview(actor: nat, orderId: nat, q: Ratings, content: string,
                        tags: Option<seq<string>>, isAnonymous: Option<bool>) returns (r: Result<nat>)
      requires reviews.Valid() && ValidRatings(q) && NotBlank(content) && 10 <= JavaLength(content) <= 1000
      modifies reviews
      ensures reviews.Valid()
      ensures r.Ok? <==> CreateCheck(orders.rows, old(reviews.rows), orderId, actor).None?
      ensures r.Err? ==> r.error == CreateCheck(orders.rows, old(reviews.rows), orderId, actor).value
                         && reviews.rows == old(reviews.rows)
      ensures r.Ok? ==>
        r.value == |old(reviews.rows)|
        && reviews.rows == old(reviews.rows) + [NewReview(orders.rows[orderId], orderId, actor, q, content, tags, isAnonymous)]
        && HasReviewed(reviews.rows, orderId, actor)
    {
      if orderId >= |orders.rows| || orders.rows[orderId].deleted {
        return Err(OrderNotFound);
      }
      var order := orders.rows[orderId];
      if order.status != O.Completed {
        return Err(BadRequest);
      }
      if order.employerId != actor && order.developerId != actor {
        return Err(Forbidden);
      }
      if HasReviewed(reviews.rows, orderId, actor) {
        return Err(Conflict);
      }
      var review := NewReview(order, orderId, actor, q, content, tags, isAnonymous);
      var id := |reviews.rows|;
      reviews.rows := reviews.rows + [review];
      assert reviews.rows[id] == review;
      r := Ok(id);
    }

    /** replyReview: the reviewee replies once to a live review. The reply is
        validated before the call: not blank, and at most 500 UTF-16 units. */
    method ReplyReview(actor: nat, id: nat, reply: string) returns (r: Result<Review>)
      requires reviews.Valid() && NotBlank(reply) && JavaLength(reply) <= 500
      modifies reviews
      ensures reviews.Valid()
      ensures r.Ok? <==>
        id < |old(reviews.rows)| && !old(reviews.rows)[id].deleted && old(reviews.rows)[id].revieweeId == actor
        && (old(reviews.rows)[id].reply.None? || old(reviews.rows)[id].reply.value == "")
      ensures r.Err? ==> reviews.rows == old(reviews.rows)
      ensures r.Err? ==>
        r.error == if id >= |old(reviews.rows)| || old(reviews.rows)[id].deleted then NotFound
                   else if old(reviews.rows)[id].revieweeId != actor then Forbidden
                   else Conflict
      ensures r.Ok? ==>
        r.value == old(reviews.rows)[id].(reply := Some(reply))
        && reviews.rows == old(reviews.rows)[id := r.value]
    {
      if id >= |reviews.rows| || reviews.rows[id].deleted {
        return Err(NotFound);
      }
      var review := reviews.rows[id];
      if review.revieweeId != actor {
        return Err(Forbidden);
      }
      if review.reply.Some? && review.reply.value != "" {
        return Err(Conflict);
      }
      var replied := review.(reply := Some(reply));
      reviews.rows := reviews.rows[id := replied];
      r := Ok(replied);
    }
  }

  /** Once replied to, a review cannot be replied to again: the stored reply is
      non-empty. */
  lemma ReplyOnlyOnce(review: Review, reply: string)
    requires |reply| > 0
    ensures var replied := review.(reply := Some(reply));
      replied.reply.Some? && replied.reply.value != ""
  {
  }
}
