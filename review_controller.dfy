/** The review endpoints: posting the logged-in user's single review, the
    list of all reviews, newest first, and the admin delete. */
module ReviewController {
  import opened Tables
  import opened Sorting
  import opened Database

  /** The review body. Its `username` is never read: a review always belongs
      to the session's user. */
  datatype ReviewDto = ReviewDto(username: string, comment: string, rating: int)

  /** One line of the review list. `createdAt` is the timestamp, not its
      day-precision rendering. */
  datatype ReviewEntry = ReviewEntry(username: Option<string>, rating: int, comment: string, createdAt: int)

  predicate HasReview(reviews: seq<Review>, userId: int)
  {
    exists rv :: rv in reviews && rv.userId == userId
  }

  /** No user has more than one review. */
  ghost predicate OneReviewPerUser(reviews: seq<Review>)
  {
    forall i, j :: 0 <= i < j < |reviews| ==> reviews[i].userId != reviews[j].userId
  }

  /** Adding a review for a user who has none keeps one review per user. */
  lemma AddingFirstReviewKeepsOnePerUser(reviews: seq<Review>, rv: Review)
    requires OneReviewPerUser(reviews) && !HasReview(reviews, rv.userId)
    ensures OneReviewPerUser(reviews + [rv])
  {
    var r := reviews + [rv];
    forall i | 0 <= i < |reviews| ensures r[i].userId != rv.userId {
      assert reviews[i] in reviews;
    }
  }

  /** POST api/Review: Unauthorized when nobody is logged in or the session's
      user does not exist, BadRequest when that user already has a review;
      in each case nothing is added. Otherwise exactly one review is added,
      owned by the session's user, with the body's comment and rating and
      the time `now`. */
  method PostReview(db: Store, dto: ReviewDto, now: int) returns (r: Status)
    requires db.Valid()
    modifies db`reviews, db`nextReviewId
    ensures db.Valid()
    ensures r == Ok || r == Unauthorized || r == BadRequest
    ensures r == Unauthorized <==>
              db.sessionUserId.None? || forall u :: u in db.users ==> u.id != db.sessionUserId.value
    ensures r == BadRequest <==>
              && db.sessionUserId.Some?
              && (exists u :: u in db.users && u.id == db.sessionUserId.value)
              && HasReview(old(db.reviews), db.sessionUserId.value)
    ensures r != Ok ==> db.reviews == old(db.reviews) && db.nextReviewId == old(db.nextReviewId)
    ensures r == Ok ==>
              db.reviews == old(db.reviews) + [Review(old(db.nextReviewId), db.sessionUserId.value, dto.rating, dto.comment, now)]
    ensures r == Ok ==> db.nextReviewId == old(db.nextReviewId) + 1
    ensures OneReviewPerUser(old(db.reviews)) ==> OneReviewPerUser(db.reviews)
  {
    if db.sessionUserId.None? {
      return Unauthorized;
    }
    var userId := db.sessionUserId.value;
    var k := FirstIndex(db.users, UserKey, userId);
    if k.None? {
      assert forall u :: u in db.users ==> UserKey(u) != userId;
      return Unauthorized;
    }
    var user := db.users[k.value];
    assert user in db.users;
    if HasReview(db.reviews, user.id) {
      return BadRequest;
    }
    var review := Review(db.nextReviewId, user.id, dto.rating, dto.comment, now);
    AppendFreshKey(db.reviews, ReviewKey, db.nextReviewId, review);
    if OneReviewPerUser(db.reviews) {
      AddingFirstReviewKeepsOnePerUser(db.reviews, review);
    }
    db.reviews := db.reviews + [review];
    db.nextReviewId := db.nextReviewId + 1;
    r := Ok;
  }

  /** Each review paired with the username of its author. */
  function ReviewEntries(users: seq<User>, reviews: seq<Review>): seq<ReviewEntry>
  {
    seq(|reviews|, i requires 0 <= i < |reviews| =>
      ReviewEntry(UsernameOf(users, reviews[i].userId), reviews[i].rating, reviews[i].comment, reviews[i].createdAt))
  }

  /** Review list order: the newer review first. */
  predicate NewerFirst(a: ReviewEntry, b: ReviewEntry)
  {
    a.createdAt >= b.createdAt
  }

  lemma NewerFirstIsTotal()
    ensures TotalPreorder(NewerFirst)
  {
  }

  /** GET api/Review/all: every review exactly once, with its author's
      username, newest first. */
  function GetAllReviews(db: Store): (r: seq<ReviewEntry>)
    reads db
    ensures multiset(r) == multiset(ReviewEntries(db.users, db.reviews))
    ensures |r| == |db.reviews|
    ensures forall i, j :: 0 <= i < j < |r| ==> r[i].createdAt >= r[j].createdAt
  {
    NewerFirstIsTotal();
    var r := Sort(ReviewEntries(db.users, db.reviews), NewerFirst);
    assert |r| == |db.reviews| by {
      assert |multiset(r)| == |multiset(ReviewEntries(db.users, db.reviews))|;
    }
    r
  }

  /** Every review appears in the list, as its own entry. */
  lemma GetAllReviewsListsEveryReview(db: Store, rv: Review)
    requires rv in db.reviews
    ensures ReviewEntry(UsernameOf(db.users, rv.userId), rv.rating, rv.comment, rv.createdAt) in GetAllReviews(db)
  {
    var i :| 0 <= i < |db.reviews| && db.reviews[i] == rv;
    var entries := ReviewEntries(db.users, db.reviews);
    assert entries[i] in multiset(entries);
    assert entries[i] in multiset(GetAllReviews(db));
  }

  /** DELETE api/Review/{reviewId}: Unauthorized when nobody is logged in,
      Forbidden unless the session's user is an admin, NotFound when no
      review has this id, and in each case nothing changes; otherwise
      exactly that review is removed (Ok). */
  method DeleteReview(db: Store, reviewId: int) returns (r: Status)
    requires db.Valid()
    modifies db`reviews
    ensures db.Valid()
    ensures r == Ok || r == Unauthorized || r == Forbidden || r == NotFound
    ensures r == Unauthorized <==> db.sessionUserId.None?
    ensures r == Forbidden <==> db.sessionUserId.Some? && !IsAdmin(db.users, db.sessionUserId.value)
    ensures r == NotFound <==> db.sessionUserId.Some? && IsAdmin(db.users, db.sessionUserId.value)
                               && forall rv :: rv in old(db.reviews) ==> rv.id != reviewId
    ensures r != Ok ==> db.reviews == old(db.reviews)
    ensures r == Ok ==> db.reviews == RemoveAt(old(db.reviews), FirstIndex(old(db.reviews), ReviewKey, reviewId).value)
    ensures r == Ok ==> forall rv :: rv in db.reviews ==> rv.id != reviewId
    ensures OneReviewPerUser(old(db.reviews)) ==> OneReviewPerUser(db.reviews)
  {
    if db.sessionUserId.None? {
      return Unauthorized;
    }
    if !IsAdmin(db.users, db.sessionUserId.value) {
      return Forbidden;
    }
    var k := FirstIndex(db.reviews, ReviewKey, reviewId);
    if k.None? {
      assert forall rv :: rv in db.reviews ==> ReviewKey(rv) != reviewId;
      return NotFound;
    }
    RemoveAtDropsRow(db.reviews, ReviewKey, k.value);
    if OneReviewPerUser(db.reviews) {
      RemovalKeepsOneReviewPerUser(db.reviews, k.value);
    }
    db.reviews := RemoveAt(db.reviews, k.value);
    r := Ok;
  }

  /** Removing any review keeps one review per user. */
  lemma RemovalKeepsOneReviewPerUser(reviews: seq<Review>, i: nat)
    requires OneReviewPerUser(reviews) && i < |reviews|
    ensures OneReviewPerUser(RemoveAt(reviews, i))
  {
    var r := RemoveAt(reviews, i);
    forall a, b | 0 <= a < b < |r| ensures r[a].userId != r[b].userId {
      var a' := if a < i then a else a + 1;
      var b' := if b < i then b else b + 1;
      assert r[a] == reviews[a'] && r[b] == reviews[b'];
    }
  }
}
