/** Who may see which content. Every check grants an admin and the owning instructor
    everything, and everyone else only what is Published all the way up the chain.
    The `course` passed with a section or lesson is the course that section belongs to. */
module VisibilityHelper {
  import opened Domain

  /** The caller holds the Instructor role and is the course's instructor. */
  predicate IsOwningInstructor(course: Course, user: Principal) {
    Instructor in user.roles && user.userId.Some? && course.instructorId == user.userId.value
  }

  predicate CanUserViewCourse(course: Course, user: Principal) {
    if Admin in user.roles then true
    else if IsOwningInstructor(course, user) then true
    else course.status == Published
  }

  predicate CanUserViewSection(section: Section, course: Course, user: Principal) {
    if Admin in user.roles then true
    else if IsOwningInstructor(course, user) then true
    else section.status == Published && course.status == Published
  }

  predicate CanUserViewLesson(lesson: Lesson, section: Section, course: Course, user: Principal) {
    if Admin in user.roles then true
    else if IsOwningInstructor(course, user) then true
    else lesson.status == Published && section.status == Published && course.status == Published
  }

  predicate CanUserViewReviewListForCourse(course: Course, user: Principal) {
    if Admin in user.roles then true
    else if IsOwningInstructor(course, user) then true
    else course.status == Published
  }

  lemma AdminSeesEverything(lesson: Lesson, section: Section, course: Course, user: Principal)
    requires Admin in user.roles
    ensures CanUserViewCourse(course, user) && CanUserViewSection(section, course, user)
    ensures CanUserViewLesson(lesson, section, course, user) && CanUserViewReviewListForCourse(course, user)
  {
  }

  lemma OwningInstructorSeesEverything(lesson: Lesson, section: Section, course: Course, user: Principal)
    requires Instructor in user.roles && user.userId == Some(course.instructorId)
    ensures CanUserViewCourse(course, user) && CanUserViewSection(section, course, user)
    ensures CanUserViewLesson(lesson, section, course, user) && CanUserViewReviewListForCourse(course, user)
  {
  }

  /** Everyone else sees exactly the content that is Published up to the course. */
  lemma OthersSeeOnlyPublished(lesson: Lesson, section: Section, course: Course, user: Principal)
    requires Admin !in user.roles && !IsOwningInstructor(course, user)
    ensures CanUserViewCourse(course, user) <==> course.status == Published
    ensures CanUserViewSection(section, course, user) <==> section.status == Published && course.status == Published
    ensures CanUserViewLesson(lesson, section, course, user)
        <==> lesson.status == Published && section.status == Published && course.status == Published
  {
  }

  /** Seeing a lesson implies seeing its section, which implies seeing its course. */
  lemma VisibilityIsMonotone(lesson: Lesson, section: Section, course: Course, user: Principal)
    ensures CanUserViewLesson(lesson, section, course, user) ==> CanUserViewSection(section, course, user)
    ensures CanUserViewSection(section, course, user) ==> CanUserViewCourse(course, user)
  {
  }

  /** A caller without a user id and without the admin role sees only Published content. */
  lemma AnonymousSeesOnlyPublished(lesson: Lesson, section: Section, course: Course, user: Principal)
    requires user.userId.None? && Admin !in user.roles
    ensures CanUserViewCourse(course, user) <==> course.status == Published
    ensures CanUserViewSection(section, course, user) <==> section.status == Published && course.status == Published
    ensures CanUserViewLesson(lesson, section, course, user)
        <==> lesson.status == Published && section.status == Published && course.status == Published
  {
  }

  lemma ReviewListFollowsCourse(course: Course, user: Principal)
    ensures CanUserViewReviewListForCourse(course, user) == CanUserViewCourse(course, user)
  {
  }
}
