/** The course service of the NovillusPath application: the role filter of the course list,
    the published-subtree view of one course, the create, update and delete guards, and the
    status update with its cascade down to the course's sections and lessons. */
module CourseService {
  import opened Domain
  import opened Store
  import AuthorizationHelper
  import VisibilityHelper

  // ---------------------------------------------------------------------------
  // Reads

  /** The list filter: no filter for an admin; own or Published courses for an instructor
      with a user id; Published courses for everyone else. */
  predicate ListFilter(course: Course, user: Principal) {
    if Admin in user.roles then true
    else if Instructor in user.roles && user.userId.Some? then
      course.instructorId == user.userId.value || course.status == Published
    else course.status == Published
  }

  /** The ids of the courses the list returns: exactly the courses the caller may view. */
  function GetCourses(courses: map<Id, Course>, user: Principal): (r: set<Id>)
    ensures forall id :: id in r <==> id in courses && VisibilityHelper.CanUserViewCourse(courses[id], user)
  {
    set id | id in courses && ListFilter(courses[id], user)
  }

  /** A course with the sections and lessons its reader is shown. */
  datatype CourseView = CourseView(course: Course, sections: map<Id, Section>, lessons: map<Id, Lesson>)

  /** The reader is neither an admin nor the course's instructor holding the Instructor role. */
  predicate PublicView(course: Course, user: Principal) {
    Admin !in user.roles && !(Instructor in user.roles && user.userId == Some(course.instructorId))
  }

  /** One course with its sections and their lessons. A course the caller may not view is
      not found; a public reader is shown only the Published sections and, in them, only the
      Published lessons. */
  method GetCourseById(courses: map<Id, Course>, sections: map<Id, Section>, lessons: map<Id, Lesson>,
                       user: Principal, id: Id)
    returns (r: Outcome<CourseView>)
    ensures r.NotFound? <==> id !in courses || !VisibilityHelper.CanUserViewCourse(courses[id], user)
    ensures !r.Forbidden? && !r.BadRequest?
    ensures r.Ok? ==> r.value.course == courses[id]
    ensures r.Ok? ==> forall s :: s in r.value.sections <==>
      ChildOf(sections, id, s) && VisibilityHelper.CanUserViewSection(sections[s], courses[id], user)
    ensures r.Ok? ==> forall s :: s in r.value.sections ==> s in sections && r.value.sections[s] == sections[s]
    ensures r.Ok? ==> forall l :: l in r.value.lessons <==>
      LessonOf(sections, lessons, id, l) &&
      VisibilityHelper.CanUserViewLesson(lessons[l], sections[lessons[l].parent], courses[id], user)
    ensures r.Ok? ==> forall l :: l in r.value.lessons ==> l in lessons && r.value.lessons[l] == lessons[l]
  {
    if id !in courses {
      return NotFound;
    }
    var course := courses[id];
    if !VisibilityHelper.CanUserViewCourse(course, user) {
      return NotFound;
    }
    var publicView := PublicView(course, user);
    var shown: map<Id, Section> := map s | s in sections && sections[s].parent == id :: sections[s];
    if publicView {
      shown := map s | s in shown && shown[s].status == Published :: shown[s];
    }
    var shownLessons: map<Id, Lesson> := map[];
    var pending := shown.Keys;
    while pending != {}
      invariant pending <= shown.Keys
      invariant forall l :: l in shownLessons <==>
        l in lessons && lessons[l].parent in shown.Keys - pending && (!publicView || lessons[l].status == Published)
      invariant forall l :: l in shownLessons ==> shownLessons[l] == lessons[l]
      decreases pending
    {
      var s :| s in pending;
      var kept: map<Id, Lesson> := map l | l in lessons && lessons[l].parent == s && (!publicView || lessons[l].status == Published) :: lessons[l];
      shownLessons := shownLessons + kept;
      pending := pending - {s};
    }
    return Ok(CourseView(course, shown, shownLessons));
  }

  // ---------------------------------------------------------------------------
  // Create, update, delete

  /** Create a course owned by the caller, as Draft, with the requested categories (all of
      which must exist). */
  method CreateCourse(db: Db, user: Principal, title: string, categoryIds: set<Id>, newId: Id)
    returns (r: Outcome<Course>)
    requires newId !in db.courses
    modifies db
    ensures r.Forbidden? <==> user.userId.None?
    ensures r.BadRequest? <==> user.userId.Some? && !(categoryIds <= old(db.categories))
    ensures !r.NotFound?
    ensures !r.Ok? ==> unchanged(db)
    ensures unchanged(db`sections, db`lessons, db`blocks, db`categories, db`enrollments, db`reviews, db`touched)
    ensures r.Ok? ==> r.value == Course(user.userId.value, title, Draft, categoryIds)
    ensures r.Ok? ==> db.courses == old(db.courses)[newId := r.value]
  {
    if user.userId.None? {
      return Forbidden;
    }
    if !(categoryIds <= db.categories) {
      return BadRequest;
    }
    var created := Course(user.userId.value, title, Draft, categoryIds);
    db.courses := db.courses[newId := created];
    return Ok(created);
  }

  /** The categories after an update: kept when none are given, cleared when an empty list
      is given, replaced otherwise. */
  function CategoriesAfter(requested: Option<set<Id>>, current: set<Id>): set<Id> {
    if requested.None? then current else requested.value
  }

  /** The course after an update: the given title and status are copied over (the status
      without any cascade) and the categories follow `CategoriesAfter`. */
  function UpdatedCourse(course: Course, title: Option<string>, status: Option<Status>, categoryIds: Option<set<Id>>): Course {
    course.(title := if title.Some? then title.value else course.title,
            status := if status.Some? then status.value else course.status,
            categories := CategoriesAfter(categoryIds, course.categories))
  }

  method UpdateCourse(db: Db, user: Principal, id: Id, title: Option<string>, status: Option<Status>,
                      categoryIds: Option<set<Id>>)
    returns (r: Outcome<()>)
    modifies db
    ensures r.NotFound? <==> id !in old(db.courses)
    ensures r.Forbidden? <==>
      id in old(db.courses) && !AuthorizationHelper.CanEditCourse(user, old(db.courses)[id].instructorId)
    ensures r.BadRequest? <==>
      id in old(db.courses) && AuthorizationHelper.CanEditCourse(user, old(db.courses)[id].instructorId) &&
      categoryIds.Some? && !(categoryIds.value <= old(db.categories))
    ensures !r.Ok? ==> unchanged(db)
    ensures unchanged(db`sections, db`lessons, db`blocks, db`categories, db`enrollments, db`reviews)
    ensures r.Ok? ==> db.courses == old(db.courses)[id := UpdatedCourse(old(db.courses)[id], title, status, categoryIds)]
    ensures r.Ok? ==> db.touched == old(db.touched) + {id}
  {
    if id !in db.courses {
      return NotFound;
    }
    var course := db.courses[id];
    if !AuthorizationHelper.CanEditCourse(user, course.instructorId) {
      return Forbidden;
    }
    if categoryIds.Some? && categoryIds.value != {} && !(categoryIds.value <= db.categories) {
      return BadRequest;
    }
    db.courses := db.courses[id := UpdatedCourse(course, title, status, categoryIds)];
    db.touched := db.touched + {id};
    return Ok(());
  }

  /** An update that sets a Published course to Draft leaves its Published sections in place:
      the general update does not run the status cascade. */
  lemma UpdateSkipsCascade(courses: map<Id, Course>, sections: map<Id, Section>, lessons: map<Id, Lesson>, id: Id, sectionId: Id)
    requires id in courses && courses[id].status == Published
    requires ChildOf(sections, id, sectionId) && sections[sectionId].status == Published
    ensures StatusConsistent(courses, sections, lessons) ==> courses[id].status == Published
    ensures !StatusConsistent(courses[id := UpdatedCourse(courses[id], None, Some(Draft), None)], sections, lessons)
  {
    var updated := courses[id := UpdatedCourse(courses[id], None, Some(Draft), None)];
    assert sections[sectionId].parent in updated && updated[sections[sectionId].parent].status == Draft;
  }

  method DeleteCourse(db: Db, user: Principal, id: Id) returns (r: Outcome<()>)
    modifies db
    ensures r.NotFound? <==> id !in old(db.courses)
    ensures r.Forbidden? <==>
      id in old(db.courses) && !AuthorizationHelper.CanEditCourse(user, old(db.courses)[id].instructorId)
    ensures !r.BadRequest?
    ensures !r.Ok? ==> unchanged(db)
    ensures unchanged(db`sections, db`lessons, db`blocks, db`categories, db`enrollments, db`reviews, db`touched)
    ensures r.Ok? ==> db.courses == old(db.courses) - {id}
  {
    if id !in db.courses {
      return NotFound;
    }
    if !AuthorizationHelper.CanEditCourse(user, db.courses[id].instructorId) {
      return Forbidden;
    }
    db.courses := db.courses - {id};
    return Ok(());
  }

  // ---------------------------------------------------------------------------
  // Status and cascade

  /** The children with every child in `done` set to `target`. */
  function WithStatus(children: map<Id, Child>, done: set<Id>, target: Status): map<Id, Child> {
    map id | id in children :: if id in done then children[id].(status := target) else children[id]
  }

  /** The lessons of the sections in `done`. */
  function LessonsUnder(lessons: map<Id, Lesson>, done: set<Id>): set<Id> {
    set id | id in lessons && lessons[id].parent in done
  }

  /** The ids in `selected` whose status differs from `target`. */
  function Differing(children: map<Id, Child>, selected: set<Id>, target: Status): set<Id> {
    set id | id in selected && id in children && children[id].status != target
  }

  lemma WithStatusUnion(children: map<Id, Child>, a: set<Id>, b: set<Id>, target: Status)
    ensures WithStatus(WithStatus(children, a, target), b, target) == WithStatus(children, a + b, target)
  {
  }

  lemma WithStatusAdd(children: map<Id, Child>, done: set<Id>, x: Id, target: Status)
    requires x in children
    ensures WithStatus(children, done + {x}, target) ==
      if children[x].status == target then WithStatus(children, done, target)
      else WithStatus(children, done, target)[x := children[x].(status := target)]
  {
    if children[x].status == target {
      assert children[x].(status := target) == children[x];
    }
  }

  /** After the sections in `done`, the next section's lessons are disjoint from those
      already visited and still carry their original status. */
  lemma NextSectionLessons(lessons: map<Id, Lesson>, done: set<Id>, section: Id, target: Status)
    requires section !in done
    ensures LessonsUnder(lessons, done + {section}) == LessonsUnder(lessons, done) + LessonsUnder(lessons, {section})
    ensures Differing(WithStatus(lessons, LessonsUnder(lessons, done), target), LessonsUnder(lessons, {section}), target) ==
            Differing(lessons, LessonsUnder(lessons, {section}), target)
    ensures Differing(lessons, LessonsUnder(lessons, done + {section}), target) ==
            Differing(lessons, LessonsUnder(lessons, done), target) + Differing(lessons, LessonsUnder(lessons, {section}), target)
  {
  }

  /** Once every section of the course is visited, the loop's state is the cascade's. */
  lemma CascadeDone(sections: map<Id, Section>, lessons: map<Id, Lesson>, courseId: Id, target: Status, inCourse: set<Id>)
    requires inCourse == set s | s in sections && sections[s].parent == courseId
    ensures WithStatus(sections, inCourse, target) == CascadeSections(sections, courseId, target)
    ensures WithStatus(lessons, LessonsUnder(lessons, inCourse), target) == CascadeLessons(sections, lessons, courseId, target)
    ensures Differing(sections, inCourse, target) + Differing(lessons, LessonsUnder(lessons, inCourse), target) ==
            CascadeTouched(sections, lessons, courseId, target)
  {
  }

  /** The inner loop: set every selected child to `target`, writing and stamping only those
      whose status differs. */
  method SetStatusOf(children: map<Id, Child>, selected: set<Id>, target: Status)
    returns (updated: map<Id, Child>, touched: set<Id>)
    requires selected <= children.Keys
    ensures updated == WithStatus(children, selected, target)
    ensures touched == Differing(children, selected, target)
  {
    updated, touched := children, {};
    var pending := selected;
    while pending != {}
      invariant pending <= selected
      invariant updated == WithStatus(children, selected - pending, target)
      invariant touched == Differing(children, selected - pending, target)
      decreases pending
    {
      var child :| child in pending;
      WithStatusAdd(children, selected - pending, child, target);
      if updated[child].status != target {
        updated := updated[child := updated[child].(status := target)];
        touched := touched + {child};
      }
      assert selected - (pending - {child}) == (selected - pending) + {child};
      pending := pending - {child};
    }
  }

  /** The nested loops of the cascade: every section of the course, then every lesson of
      that section, takes `target`; only those whose status differs are written and stamped. */
  method Cascade(sections: map<Id, Section>, lessons: map<Id, Lesson>, courseId: Id, target: Status)
    returns (newSections: map<Id, Section>, newLessons: map<Id, Lesson>, touched: set<Id>)
    ensures newSections == CascadeSections(sections, courseId, target)
    ensures newLessons == CascadeLessons(sections, lessons, courseId, target)
    ensures touched == CascadeTouched(sections, lessons, courseId, target)
  {
    var inCourse := set s | s in sections && sections[s].parent == courseId;
    var sectionsTouched: set<Id>, lessonsTouched: set<Id> := {}, {};
    newSections, newLessons := sections, lessons;
    var pending := inCourse;
    while pending != {}
      invariant pending <= inCourse
      invariant newSections == WithStatus(sections, inCourse - pending, target)
      invariant newLessons == WithStatus(lessons, LessonsUnder(lessons, inCourse - pending), target)
      invariant sectionsTouched == Differing(sections, inCourse - pending, target)
      invariant lessonsTouched == Differing(lessons, LessonsUnder(lessons, inCourse - pending), target)
      decreases pending
    {
      var section :| section in pending;
      var done := inCourse - pending;
      WithStatusAdd(sections, done, section, target);
      if newSections[section].status != target {
        newSections := newSections[section := newSections[section].(status := target)];
        sectionsTouched := sectionsTouched + {section};
      }
      var ofSection := LessonsUnder(lessons, {section});
      NextSectionLessons(lessons, done, section, target);
      WithStatusUnion(lessons, LessonsUnder(lessons, done), ofSection, target);
      var shifted: set<Id>;
      newLessons, shifted := SetStatusOf(newLessons, ofSection, target);
      lessonsTouched := lessonsTouched + shifted;
      assert inCourse - (pending - {section}) == done + {section};
      pending := pending - {section};
    }
    assert inCourse - pending == inCourse;
    CascadeDone(sections, lessons, courseId, target, inCourse);
    touched := sectionsTouched + lessonsTouched;
  }

  /** Set a course's status. Moving it to a different Draft or Archived status takes its
      sections and lessons along; the status string is checked before the course is looked up. */
  method UpdateCourseStatus(db: Db, user: Principal, id: Id, status: string) returns (r: Outcome<()>)
    modifies db
    ensures r.BadRequest? <==> ParseStatus(status, true).None?
    ensures r.NotFound? <==> ParseStatus(status, true).Some? && id !in old(db.courses)
    ensures r.Forbidden? <==>
      ParseStatus(status, true).Some? && id in old(db.courses) &&
      !AuthorizationHelper.CanEditCourse(user, old(db.courses)[id].instructorId)
    ensures !r.Ok? ==> unchanged(db)
    ensures unchanged(db`blocks, db`categories, db`enrollments, db`reviews)
    ensures r.Ok? ==>
      var target := ParseStatus(status, true).value;
      && db.courses == old(db.courses)[id := old(db.courses)[id].(status := target)]
      && (if CascadeRuns(old(db.courses)[id], target) then
            && db.sections == CascadeSections(old(db.sections), id, target)
            && db.lessons == CascadeLessons(old(db.sections), old(db.lessons), id, target)
            && db.touched == old(db.touched) + {id} + CascadeTouched(old(db.sections), old(db.lessons), id, target)
          else
            db.sections == old(db.sections) && db.lessons == old(db.lessons) && db.touched == old(db.touched) + {id})
    ensures r.Ok? && StatusConsistent(old(db.courses), old(db.sections), old(db.lessons)) ==>
      StatusConsistent(db.courses, db.sections, db.lessons)
  {
    var parsed := ParseStatus(status, true);
    if parsed.None? {
      return BadRequest;
    }
    var target := parsed.value;
    if id !in db.courses {
      return NotFound;
    }
    var course := db.courses[id];
    if !AuthorizationHelper.CanEditCourse(user, course.instructorId) {
      return Forbidden;
    }
    ghost var consistent := StatusConsistent(db.courses, db.sections, db.lessons);
    if CascadeRuns(course, target) {
      var sections, lessons, touched := Cascade(db.sections, db.lessons, id, target);
      if consistent {
        CascadeKeepsConsistent(db.courses, db.sections, db.lessons, id, target);
      }
      db.sections, db.lessons, db.touched := sections, lessons, db.touched + touched;
    } else if consistent {
      CourseStatusKeepsConsistent(db.courses, db.sections, db.lessons, id, target);
    }
    db.courses := db.courses[id := course.(status := target)];
    db.touched := db.touched + {id};
    return Ok(());
  }

  /** The cascade runs when the status changes to Draft or Archived. */
  predicate CascadeRuns(course: Course, target: Status) {
    course.status != target && (target == Draft || target == Archived)
  }
}
