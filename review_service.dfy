/** The review service of the NovillusPath application: enrolled students review a course
    once; the author or an admin updates or deletes a review; the review list of a course is
    shown to whoever may view the course. */
module ReviewService {
  import opened Domain
  import opened Store
  import AuthorizationHelper
  import VisibilityHelper
  import EnrollmentService

  /** The user has a review of the course. */
  predicate Reviewed(reviews: map<Id, Review>, userId: Option<Id>, courseId: Id) {
    exists id :: id in reviews && Some(reviews[id].userId) == userId && reviews[id].courseId == courseId
  }

  /** No user has two reviews of the same course. */
  predicate OneReviewPerCourse(reviews: map<Id, Review>) {
    forall a, b :: a in reviews && b in reviews && a != b ==>
      reviews[a].userId != reviews[b].userId || reviews[a].courseId != reviews[b].courseId
  }

  /** Every review's author is enrolled in the reviewed course. */
  predicate ReviewAuthorsEnrolled(reviews: map<Id, Review>, enrollments: set<Enrollment>) {
    forall id :: id in reviews ==> EnrollmentService.Enrolled(enrollments, reviews[id].userId, reviews[id].courseId)
  }

  /** The caller is enrolled in the course; a caller without a user id is not. */
  predicate CallerEnrolled(enrollments: set<Enrollment>, user: Principal, courseId: Id) {
    user.userId.Some? && EnrollmentService.Enrolled(enrollments, user.userId.value, courseId)
  }

  /** Submit the caller's review of a course. */
  method CreateReview(db: Db, user: Principal, courseId: Id, rating: int, comment: Option<string>, newId: Id)
    returns (r: Outcome<Review>)
    requires newId !in db.reviews
    modifies db
    ensures r.Forbidden? <==> !AuthorizationHelper.CanPerformReviewAction(user)
    ensures r.NotFound? <==> AuthorizationHelper.CanPerformReviewAction(user) && courseId !in old(db.courses)
    ensures r.BadRequest? <==>
      AuthorizationHelper.CanPerformReviewAction(user) && courseId in old(db.courses) &&
      (!CallerEnrolled(old(db.enrollments), user, courseId) || Reviewed(old(db.reviews), user.userId, courseId))
    ensures !r.Ok? ==> unchanged(db)
    ensures unchanged(db`courses, db`sections, db`lessons, db`blocks, db`categories, db`enrollments, db`touched)
    ensures r.Ok? ==> user.userId.Some? && r.value == Review(user.userId.value, courseId, rating, comment)
    ensures r.Ok? ==> db.reviews == old(db.reviews)[newId := r.value]
    ensures OneReviewPerCourse(old(db.reviews)) ==> OneReviewPerCourse(db.reviews)
    ensures ReviewAuthorsEnrolled(old(db.reviews), old(db.enrollments)) ==> ReviewAuthorsEnrolled(db.reviews, db.enrollments)
  {
    if !AuthorizationHelper.CanPerformReviewAction(user) {
      return Forbidden;
    }
    if courseId !in db.courses {
      return NotFound;
    }
    if !CallerEnrolled(db.enrollments, user, courseId) {
      return BadRequest;
    }
    if Reviewed(db.reviews, user.userId, courseId) {
      return BadRequest;
    }
    var review := Review(user.userId.value, courseId, rating, comment);
    db.reviews := db.reviews[newId := review];
    return Ok(review);
  }

  /** A review as it is returned: with whether the caller may edit and delete it. */
  datatype ReviewView = ReviewView(review: Review, canModify: bool)

  /** One review of a course, for any caller; NotFound when it does not exist or belongs to
      another course. */
  function GetReviewById(reviews: map<Id, Review>, user: Principal, courseId: Id, reviewId: Id): (r: Outcome<ReviewView>)
    ensures r.Ok? <==> reviewId in reviews && reviews[reviewId].courseId == courseId
    ensures !r.Forbidden? && !r.BadRequest?
    ensures r.Ok? ==> r.value.review == reviews[reviewId]
    ensures r.Ok? ==> (r.value.canModify <==> Admin in user.roles || user.userId == Some(reviews[reviewId].userId))
  {
    if reviewId !in reviews || reviews[reviewId].courseId != courseId then NotFound
    else
      var review := reviews[reviewId];
      Ok(ReviewView(review, AuthorizationHelper.CanModifyReview(user, review.userId)))
  }

  /** The review after an update: the given rating and comment replace the old ones. */
  function UpdatedReview(review: Review, rating: Option<int>, comment: Option<string>): Review {
    review.(rating := if rating.Some? then rating.value else review.rating,
            comment := if comment.Some? then comment else review.comment)
  }

  /** The review exists, belongs to the course and the caller may modify it. */
  predicate MayModify(reviews: map<Id, Review>, user: Principal, courseId: Id, reviewId: Id) {
    reviewId in reviews && reviews[reviewId].courseId == courseId &&
    AuthorizationHelper.CanModifyReview(user, reviews[reviewId].userId)
  }

  /** Change the rating and comment of a review. */
  method UpdateReview(db: Db, user: Principal, courseId: Id, reviewId: Id, rating: Option<int>, comment: Option<string>)
    returns (r: Outcome<()>)
    modifies db
    ensures r.NotFound? <==> reviewId !in old(db.reviews) || old(db.reviews)[reviewId].courseId != courseId
    ensures r.Forbidden? <==>
      reviewId in old(db.reviews) && old(db.reviews)[reviewId].courseId == courseId &&
      !AuthorizationHelper.CanModifyReview(user, old(db.reviews)[reviewId].userId)
    ensures r.Ok? <==> MayModify(old(db.reviews), user, courseId, reviewId)
    ensures !r.Ok? ==> unchanged(db)
    ensures unchanged(db`courses, db`sections, db`lessons, db`blocks, db`categories, db`enrollments)
    ensures r.Ok? ==> db.reviews == old(db.reviews)[reviewId := UpdatedReview(old(db.reviews)[reviewId], rating, comment)]
    ensures r.Ok? ==> db.touched == old(db.touched) + {reviewId}
    ensures OneReviewPerCourse(old(db.reviews)) ==> OneReviewPerCourse(db.reviews)
    ensures ReviewAuthorsEnrolled(old(db.reviews), old(db.enrollments)) ==> ReviewAuthorsEnrolled(db.reviews, db.enrollments)
  {
    if reviewId !in db.reviews {
      return NotFound;
    }
    var review := db.reviews[reviewId];
    if review.courseId != courseId {
      return NotFound;
    }
    if !AuthorizationHelper.CanModifyReview(user, review.userId) {
      return Forbidden;
    }
    db.reviews := db.reviews[reviewId := UpdatedReview(review, rating, comment)];
    db.touched := db.touched + {reviewId};
    return Ok(());
  }

  /** Remove a review. */
  method DeleteReview(db: Db, user: Principal, reviewId: Id, courseId: Id) returns (r: Outcome<()>)
    modifies db
    ensures r.NotFound? <==> reviewId !in old(db.reviews) || old(db.reviews)[reviewId].courseId != courseId
    ensures r.Forbidden? <==>
      reviewId in old(db.reviews) && old(db.reviews)[reviewId].courseId == courseId &&
      !AuthorizationHelper.CanModifyReview(user, old(db.reviews)[reviewId].userId)
    ensures r.Ok? <==> MayModify(old(db.reviews), user, courseId, reviewId)
    ensures !r.Ok? ==> unchanged(db)
    ensures unchanged(db`courses, db`sections, db`lessons, db`blocks, db`categories, db`enrollments, db`touched)
    ensures r.Ok? ==> db.reviews == old(db.reviews) - {reviewId}
    ensures OneReviewPerCourse(old(db.reviews)) ==> OneReviewPerCourse(db.reviews)
    ensures ReviewAuthorsEnrolled(old(db.reviews), old(db.enrollments)) ==> ReviewAuthorsEnrolled(db.reviews, db.enrollments)
  {
    if reviewId !in db.reviews {
      return NotFound;
    }
    var review := db.reviews[reviewId];
    if review.courseId != courseId {
      return NotFound;
    }
    if !AuthorizationHelper.CanModifyReview(user, review.userId) {
      return Forbidden;
    }
    db.reviews := db.reviews - {reviewId};
    return Ok(());
  }

  /** The reviews of a course, when the caller may see the course's review list; a course the
      caller may not see is reported as not found. */
  function GetReviewsByCourseId(courses: map<Id, Course>, reviews: map<Id, Review>, user: Principal, courseId: Id)
    : (r: Outcome<set<Id>>)
    ensures r.Ok? <==> courseId in courses && VisibilityHelper.CanUserViewCourse(courses[courseId], user)
    ensures r.Ok? ==> forall id :: id in r.value <==> id in reviews && reviews[id].courseId == courseId
    ensures !r.Forbidden? && !r.BadRequest?
  {
    if courseId !in courses || !VisibilityHelper.CanUserViewReviewListForCourse(courses[courseId], user) then NotFound
    else Ok(set id | id in reviews && reviews[id].courseId == courseId)
  }

  /** The page count of a paged review list: the ceiling of the count divided by the page
      size. The page size is not checked, so a negative one gives a page count of zero or less. */
  function TotalPages(totalCount: nat, pageSize: int): (r: int)
    requires pageSize != 0
    ensures pageSize > 0 ==> (r - 1) * pageSize < totalCount <= r * pageSize
    ensures pageSize < 0 ==> r * pageSize <= totalCount < (r - 1) * pageSize
  {
    if pageSize > 0 then (totalCount + pageSize - 1) / pageSize
    else -(totalCount / -pageSize)
  }

  /** The paged list: the same gate as the full list, and the page count of all the course's
      reviews. */
  function GetPagedReviewsByCourseId(courses: map<Id, Course>, reviews: map<Id, Review>, user: Principal,
                                     courseId: Id, pageSize: int)
    : (r: Outcome<int>)
    requires pageSize != 0
    ensures r.Ok? <==> GetReviewsByCourseId(courses, reviews, user, courseId).Ok?
    ensures r.Ok? ==> r.value == TotalPages(|GetReviewsByCourseId(courses, reviews, user, courseId).value|, pageSize)
    ensures r.Ok? && pageSize > 0 ==>
      (r.value - 1) * pageSize < |GetReviewsByCourseId(courses, reviews, user, courseId).value| <= r.value * pageSize
    ensures r.Ok? && pageSize < 0 ==>
      r.value * pageSize <= |GetReviewsByCourseId(courses, reviews, user, courseId).value| < (r.value - 1) * pageSize
    ensures !r.Forbidden? && !r.BadRequest?
  {
    match GetReviewsByCourseId(courses, reviews, user, courseId)
    case Ok(ids) => Ok(TotalPages(|ids|, pageSize))
    case _ => NotFound
  }
}
