/** The enrollment service of the NovillusPath application: enrolling a student in a
    Published course, unenrolling, and listing a student's courses. */
module EnrollmentService {
  import opened Domain
  import opened Store
  import AuthorizationHelper

  /** The student is enrolled in the course. */
  predicate Enrolled(enrollments: set<Enrollment>, userId: Id, courseId: Id) {
    Enrollment(userId, courseId) in enrollments
  }

  /** Every enrollment refers to an existing course. */
  predicate EnrollmentsReferToCourses(courses: map<Id, Course>, enrollments: set<Enrollment>) {
    forall e :: e in enrollments ==> e.courseId in courses
  }

  /** Enroll `userId` (the student, who may differ from the caller) in a course. */
  method Enroll(db: Db, user: Principal, courseId: Id, userId: Id) returns (r: Outcome<()>)
    modifies db
    ensures r.Forbidden? <==> !AuthorizationHelper.CanPerformEnrollmentAction(user, userId)
    ensures r.NotFound? <==> AuthorizationHelper.CanPerformEnrollmentAction(user, userId) && courseId !in old(db.courses)
    ensures r.BadRequest? <==>
      AuthorizationHelper.CanPerformEnrollmentAction(user, userId) && courseId in old(db.courses) &&
      (old(db.courses)[courseId].status != Published || Enrolled(old(db.enrollments), userId, courseId))
    ensures !r.Ok? ==> unchanged(db)
    ensures unchanged(db`courses, db`sections, db`lessons, db`blocks, db`categories, db`reviews, db`touched)
    ensures r.Ok? ==> db.enrollments == old(db.enrollments) + {Enrollment(userId, courseId)}
    ensures r.Ok? ==> Enrollment(userId, courseId) !in old(db.enrollments)
    ensures EnrollmentsReferToCourses(old(db.courses), old(db.enrollments)) ==>
      EnrollmentsReferToCourses(db.courses, db.enrollments)
  {
    if !AuthorizationHelper.CanPerformEnrollmentAction(user, userId) {
      return Forbidden;
    }
    if courseId !in db.courses {
      return NotFound;
    }
    if db.courses[courseId].status != Published {
      return BadRequest;
    }
    if Enrolled(db.enrollments, userId, courseId) {
      return BadRequest;
    }
    db.enrollments := db.enrollments + {Enrollment(userId, courseId)};
    return Ok(());
  }

  /** Remove `userId`'s enrollment in a course. */
  method Unenroll(db: Db, user: Principal, courseId: Id, userId: Id) returns (r: Outcome<()>)
    modifies db
    ensures r.Forbidden? <==> !AuthorizationHelper.CanPerformEnrollmentAction(user, userId)
    ensures r.NotFound? <==>
      AuthorizationHelper.CanPerformEnrollmentAction(user, userId) && !Enrolled(old(db.enrollments), userId, courseId)
    ensures !r.BadRequest?
    ensures !r.Ok? ==> unchanged(db)
    ensures unchanged(db`courses, db`sections, db`lessons, db`blocks, db`categories, db`reviews, db`touched)
    ensures r.Ok? ==> db.enrollments == old(db.enrollments) - {Enrollment(userId, courseId)}
    ensures EnrollmentsReferToCourses(old(db.courses), old(db.enrollments)) ==>
      EnrollmentsReferToCourses(db.courses, db.enrollments)
  {
    if !AuthorizationHelper.CanPerformEnrollmentAction(user, userId) {
      return Forbidden;
    }
    if !Enrolled(db.enrollments, userId, courseId) {
      return NotFound;
    }
    db.enrollments := db.enrollments - {Enrollment(userId, courseId)};
    return Ok(());
  }

  /** The courses of a student's enrollments whose course still exists; no caller check. */
  function GetUserEnrolledCourses(courses: map<Id, Course>, enrollments: set<Enrollment>, userId: Id): (r: set<Id>)
    ensures forall c :: c in r <==> Enrolled(enrollments, userId, c) && c in courses
  {
    set e | e in enrollments && e.userId == userId && e.courseId in courses :: e.courseId
  }
}
