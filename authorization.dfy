/** The authorization combinators the services consult before mutating anything.
    Each is a pure function of the caller (an optional user id and a role set) and the
    id of the owner of the entity concerned. */
module AuthorizationHelper {
  import opened Domain

  predicate IsAdmin(user: Principal) {
    Admin in user.roles
  }

  predicate IsStudent(user: Principal) {
    Student in user.roles
  }

  /** A missing user id owns nothing. */
  predicate IsOwner(userId: Option<Id>, ownerId: Id) {
    userId.Some? && userId.value == ownerId
  }

  predicate IsCurrentUserTheTargetUser(user: Principal, targetUserId: Id) {
    user.userId.Some? && user.userId.value == targetUserId
  }

  predicate CanEditCourse(user: Principal, instructorId: Id) {
    IsAdmin(user) || IsOwner(user.userId, instructorId)
  }

  predicate CanEditSection(user: Principal, instructorId: Id) {
    IsAdmin(user) || IsOwner(user.userId, instructorId)
  }

  predicate CanEditLesson(user: Principal, instructorId: Id) {
    IsAdmin(user) || IsOwner(user.userId, instructorId)
  }

  /** Enrolling or unenrolling `targetUserId`: an admin for anyone, a student for itself. */
  predicate CanPerformEnrollmentAction(user: Principal, targetUserId: Id) {
    IsAdmin(user) || (IsStudent(user) && IsCurrentUserTheTargetUser(user, targetUserId))
  }

  predicate CanPerformReviewAction(user: Principal) {
    IsStudent(user)
  }

  predicate CanModifyReview(user: Principal, targetUserId: Id) {
    IsAdmin(user) || IsCurrentUserTheTargetUser(user, targetUserId)
  }

  /** Ownership needs a user id. */
  lemma OwnerNeedsUserId(ownerId: Id)
    ensures !IsOwner(None, ownerId)
  {
  }

  /** The three edit checks are one predicate: admin, or the user id equals the instructor id. */
  lemma EditChecksAgree(user: Principal, instructorId: Id)
    ensures CanEditCourse(user, instructorId) <==> Admin in user.roles || user.userId == Some(instructorId)
    ensures CanEditSection(user, instructorId) == CanEditCourse(user, instructorId)
    ensures CanEditLesson(user, instructorId) == CanEditCourse(user, instructorId)
  {
  }

  lemma EnrollmentActionCharacterized(user: Principal, targetUserId: Id)
    ensures CanPerformEnrollmentAction(user, targetUserId)
        <==> Admin in user.roles || (Student in user.roles && user.userId == Some(targetUserId))
  {
  }

  /** Reviewing needs the student role; being an admin is not enough. */
  lemma ReviewActionNeedsStudent(user: Principal)
    ensures CanPerformReviewAction(user) <==> Student in user.roles
    ensures Student !in user.roles ==> !CanPerformReviewAction(user)
  {
  }

  /** Modifying a review needs admin or authorship, and no particular role besides. */
  lemma ModifyReviewCharacterized(user: Principal, targetUserId: Id)
    ensures CanModifyReview(user, targetUserId) <==> Admin in user.roles || user.userId == Some(targetUserId)
    ensures user.userId == Some(targetUserId) ==> CanModifyReview(user, targetUserId)
  {
  }

  /** An admin passes every check except the review action. */
  lemma AdminPassesAllButReviewAction(user: Principal, ownerId: Id)
    requires Admin in user.roles
    ensures CanEditCourse(user, ownerId) && CanEditSection(user, ownerId) && CanEditLesson(user, ownerId)
    ensures CanPerformEnrollmentAction(user, ownerId) && CanModifyReview(user, ownerId)
    ensures CanPerformReviewAction(user) <==> Student in user.roles
  {
  }
}
