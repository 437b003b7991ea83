/** The lesson service of the SourceGuild application. Creating, moving and deleting a lesson
    go through the order manager on the sibling orders, whose results are written back to the
    loaded lessons; they reach exactly the states the NovillusPath inline loops reach. The
    status update enforces the publish gate, and the two reads filter by visibility.
    The SourceGuild authorization and visibility helpers are taken to be the NovillusPath ones. */
module SourceGuildLessonService {
  import opened Domain
  import opened Store
  import OrderManager
  import Siblings
  import LessonContent
  import AuthorizationHelper
  import VisibilityHelper

  /** The ids an order-manager call touched. */
  function TouchedIds(touched: seq<Id>): (r: set<Id>)
    ensures forall x :: x in r <==> x in touched
  {
    set x | x in touched
  }

  /** The section exists with its course and the caller may not edit it. */
  predicate Refused(courses: map<Id, Course>, sections: map<Id, Section>, user: Principal, sectionId: Id) {
    HasCourse(courses, sections, sectionId) &&
    !AuthorizationHelper.CanEditSection(user, SectionInstructor(courses, sections, sectionId))
  }

  /** The section exists with its course and the caller may edit it. */
  predicate Admitted(courses: map<Id, Course>, sections: map<Id, Section>, user: Principal, sectionId: Id) {
    HasCourse(courses, sections, sectionId) &&
    AuthorizationHelper.CanEditSection(user, SectionInstructor(courses, sections, sectionId))
  }

  method CreateLesson(db: Db, user: Principal, sectionId: Id, title: string, order: Option<int>,
                      requests: seq<BlockRequest>, newId: Id)
    returns (r: Outcome<Lesson>)
    requires newId !in db.lessons
    modifies db
    ensures r.NotFound? <==> !HasCourse(old(db.courses), old(db.sections), sectionId)
    ensures r.Forbidden? <==> Refused(old(db.courses), old(db.sections), user, sectionId)
    ensures r.BadRequest? <==>
      Admitted(old(db.courses), old(db.sections), user, sectionId) &&
      ((order.Some? && order.value < 0) || exists i :: 0 <= i < |requests| && !LessonContent.Supported(requests[i]))
    ensures !r.Ok? ==> unchanged(db)
    ensures unchanged(db`courses, db`sections, db`categories, db`enrollments, db`reviews)
    ensures r.Ok? ==>
      && r.value == Siblings.Created(old(db.lessons), sectionId, title, order)
      && db.lessons == Siblings.AfterCreate(old(db.lessons), sectionId, title, order, newId)
      && db.touched == old(db.touched) + Siblings.ShiftedByCreate(old(db.lessons), sectionId, order)
    ensures r.Ok? ==>
      && newId in db.blocks && db.blocks == old(db.blocks)[newId := db.blocks[newId]]
      && |db.blocks[newId]| == |requests|
      && (forall k :: 0 <= k < |requests| ==>
            LessonContent.Convert(LessonContent.SortByOrder(requests)[k]) == Some(db.blocks[newId][k]))
  {
    if sectionId !in db.sections || db.sections[sectionId].parent !in db.courses {
      return NotFound;
    }
    var course := db.courses[db.sections[sectionId].parent];
    if !AuthorizationHelper.CanEditSection(user, course.instructorId) {
      return Forbidden;
    }
    var loaded := db.lessons;
    var lessonsInSection := ChildOrders(loaded, sectionId);
    var lessons: map<Id, Lesson>, shiftedIds: set<Id>;
    var k: int;
    if order.None? {
      k := OrderManager.NextOrder(lessonsInSection);
      lessons, shiftedIds := loaded, {};
      WriteBackUnchanged(loaded, lessonsInSection);
    } else {
      k := order.value;
      if k < 0 {
        return BadRequest;
      }
      var orders, touched := OrderManager.ShiftOrderForInsert(lessonsInSection, k);
      lessons, shiftedIds := WithOrders(loaded, orders), TouchedIds(touched);
    }
    var contentBlocks := LessonContent.BuildBlocks(requests);
    if contentBlocks.None? {
      return BadRequest;
    }
    var created := Child(sectionId, title, k, Draft);
    db.lessons, db.touched := lessons[newId := created], db.touched + shiftedIds;
    db.blocks := db.blocks[newId := contentBlocks.value];
    return Ok(created);
  }

  /** The update's reordering on the loaded lessons: the other lessons of the section go to
      the order manager, whose new orders are written back. */
  method MoveWithManager(loaded: map<Id, Lesson>, lessonId: Id, newOrder: int) returns (lessons: map<Id, Lesson>, shiftedIds: set<Id>)
    requires lessonId in loaded
    ensures lessons == WithOrders(loaded, OrderManager.ShiftedForUpdate(Siblings.SiblingsOf(loaded, lessonId), loaded[lessonId].order, newOrder))
    ensures shiftedIds == Siblings.ShiftedByUpdate(loaded, lessonId, Some(newOrder))
  {
    var siblings := ChildOrders(loaded - {lessonId}, loaded[lessonId].parent);
    var orders, touched := OrderManager.ShiftOrderForUpdate(siblings, loaded[lessonId].order, newOrder);
    lessons, shiftedIds := WithOrders(loaded, orders), TouchedIds(touched);
  }

  method UpdateLesson(db: Db, user: Principal, sectionId: Id, lessonId: Id, title: Option<string>, order: Option<int>)
    returns (r: Outcome<()>)
    modifies db
    ensures r.NotFound? <==>
      !HasCourse(old(db.courses), old(db.sections), sectionId) ||
      (Admitted(old(db.courses), old(db.sections), user, sectionId) && !ChildOf(old(db.lessons), sectionId, lessonId))
    ensures r.Forbidden? <==> Refused(old(db.courses), old(db.sections), user, sectionId)
    ensures r.BadRequest? <==>
      Admitted(old(db.courses), old(db.sections), user, sectionId) && ChildOf(old(db.lessons), sectionId, lessonId) &&
      order.Some? && order.value != old(db.lessons)[lessonId].order && order.value < 0
    ensures !r.Ok? ==> unchanged(db)
    ensures unchanged(db`courses, db`sections, db`blocks, db`categories, db`enrollments, db`reviews)
    ensures r.Ok? ==>
      && db.lessons == Siblings.AfterUpdate(old(db.lessons), lessonId, title, order)
      && db.touched == old(db.touched) + {lessonId} + Siblings.ShiftedByUpdate(old(db.lessons), lessonId, order)
  {
    if sectionId !in db.sections || db.sections[sectionId].parent !in db.courses {
      return NotFound;
    }
    var course := db.courses[db.sections[sectionId].parent];
    if !AuthorizationHelper.CanEditSection(user, course.instructorId) {
      return Forbidden;
    }
    if lessonId !in db.lessons || db.lessons[lessonId].parent != sectionId {
      return NotFound;
    }
    var loaded := db.lessons;
    var current := loaded[lessonId];
    var lessons: map<Id, Lesson>, shiftedIds: set<Id>;
    var newOrder := current.order;
    if order.Some? && order.value != current.order {
      newOrder := order.value;
      if newOrder < 0 {
        return BadRequest;
      }
      lessons, shiftedIds := MoveWithManager(loaded, lessonId, newOrder);
    } else {
      lessons, shiftedIds := loaded, {};
      ghost var siblings := Siblings.SiblingsOf(loaded, lessonId);
      assert OrderManager.ShiftedForUpdate(siblings, current.order, newOrder) == siblings;
      WriteBackUnchanged(loaded, siblings);
    }
    var updated := current.(title := Siblings.TitleAfter(title, current.title), order := newOrder);
    db.lessons, db.touched := lessons[lessonId := updated], db.touched + {lessonId} + shiftedIds;
    return Ok(());
  }

  /** The orders of the lessons above `deletedOrder`: the list the delete hands to the
      order manager. */
  function Above(orders: map<Id, int>, deletedOrder: int): (r: map<Id, int>)
    ensures r.Keys <= orders.Keys
    ensures forall x :: x in orders ==> (x in r <==> orders[x] > deletedOrder)
  {
    map x | x in orders && orders[x] > deletedOrder :: orders[x]
  }

  /** Shifting only the lessons above the gap writes the same lessons as shifting them all. */
  lemma ShiftAboveOnly(children: map<Id, Child>, siblings: map<Id, int>, deletedOrder: int)
    requires siblings.Keys <= children.Keys
    requires forall x :: x in siblings ==> siblings[x] == children[x].order
    ensures WithOrders(children, OrderManager.ShiftedForDelete(Above(siblings, deletedOrder), deletedOrder)) ==
            WithOrders(children, OrderManager.ShiftedForDelete(siblings, deletedOrder))
  {
  }

  /** The delete's reordering on the loaded lessons: the lessons of the section above the
      removed one go to the order manager, whose new orders are written back. */
  method CloseGapWithManager(loaded: map<Id, Lesson>, lessonId: Id) returns (lessons: map<Id, Lesson>, shiftedIds: set<Id>)
    requires lessonId in loaded
    ensures lessons == Siblings.AfterDelete(loaded, lessonId)
    ensures shiftedIds == Siblings.ShiftedByDelete(loaded, lessonId)
  {
    var deletedOrder := loaded[lessonId].order;
    var toReorder := Above(ChildOrders(loaded, loaded[lessonId].parent), deletedOrder);
    var orders, touched := OrderManager.ShiftOrderForDelete(toReorder, deletedOrder);
    var remaining := loaded - {lessonId};
    ghost var siblings := Siblings.SiblingsOf(loaded, lessonId);
    assert toReorder == Above(siblings, deletedOrder);
    ShiftAboveOnly(remaining, siblings, deletedOrder);
    lessons, shiftedIds := WithOrders(remaining, orders), TouchedIds(touched);
  }

  method DeleteLesson(db: Db, user: Principal, sectionId: Id, lessonId: Id) returns (r: Outcome<()>)
    modifies db
    ensures r.NotFound? <==>
      !HasCourse(old(db.courses), old(db.sections), sectionId) ||
      (Admitted(old(db.courses), old(db.sections), user, sectionId) && !ChildOf(old(db.lessons), sectionId, lessonId))
    ensures r.Forbidden? <==> Refused(old(db.courses), old(db.sections), user, sectionId)
    ensures !r.BadRequest?
    ensures !r.Ok? ==> unchanged(db)
    ensures unchanged(db`courses, db`sections, db`blocks, db`categories, db`enrollments, db`reviews)
    ensures r.Ok? ==>
      && db.lessons == Siblings.AfterDelete(old(db.lessons), lessonId)
      && db.touched == old(db.touched) + Siblings.ShiftedByDelete(old(db.lessons), lessonId)
  {
    if sectionId !in db.sections || db.sections[sectionId].parent !in db.courses {
      return NotFound;
    }
    var course := db.courses[db.sections[sectionId].parent];
    if !AuthorizationHelper.CanEditSection(user, course.instructorId) {
      return Forbidden;
    }
    if lessonId !in db.lessons || db.lessons[lessonId].parent != sectionId {
      return NotFound;
    }
    var lessons, shiftedIds := CloseGapWithManager(db.lessons, lessonId);
    db.lessons, db.touched := lessons, db.touched + shiftedIds;
    return Ok(());
  }

  /** Set a lesson's status, refusing to publish it under a section or course that is not
      Published. No cascade: a lesson's status alone changes. */
  method UpdateLessonStatus(db: Db, user: Principal, sectionId: Id, lessonId: Id, status: string) returns (r: Outcome<()>)
    modifies db
    ensures r.NotFound? <==>
      !HasCourse(old(db.courses), old(db.sections), sectionId) ||
      (Admitted(old(db.courses), old(db.sections), user, sectionId) && !ChildOf(old(db.lessons), sectionId, lessonId))
    ensures r.Forbidden? <==> Refused(old(db.courses), old(db.sections), user, sectionId)
    ensures r.BadRequest? <==>
      Admitted(old(db.courses), old(db.sections), user, sectionId) && ChildOf(old(db.lessons), sectionId, lessonId) &&
      !PublishAllowed(old(db.courses), old(db.sections), sectionId, ParseStatus(status, false))
    ensures !r.Ok? ==> unchanged(db)
    ensures unchanged(db`courses, db`sections, db`blocks, db`categories, db`enrollments, db`reviews)
    ensures r.Ok? ==>
      && ParseStatus(status, false).Some?
      && db.lessons == old(db.lessons)[lessonId := old(db.lessons)[lessonId].(status := ParseStatus(status, false).value)]
      && db.touched == old(db.touched) + {lessonId}
    ensures r.Ok? && StatusConsistent(old(db.courses), old(db.sections), old(db.lessons)) ==>
      StatusConsistent(db.courses, db.sections, db.lessons)
  {
    if sectionId !in db.sections || db.sections[sectionId].parent !in db.courses {
      return NotFound;
    }
    var section := db.sections[sectionId];
    var course := db.courses[section.parent];
    if !AuthorizationHelper.CanEditSection(user, course.instructorId) {
      return Forbidden;
    }
    if lessonId !in db.lessons || db.lessons[lessonId].parent != sectionId {
      return NotFound;
    }
    var newStatus := ParseStatus(status, false);
    if newStatus.None? {
      return BadRequest;
    }
    if newStatus.value == Published && (section.status != Published || course.status != Published) {
      return BadRequest;
    }
    if StatusConsistent(db.courses, db.sections, db.lessons) {
      LessonStatusKeepsConsistent(db.courses, db.sections, db.lessons, lessonId, newStatus.value);
    }
    db.lessons := db.lessons[lessonId := db.lessons[lessonId].(status := newStatus.value)];
    db.touched := db.touched + {lessonId};
    return Ok(());
  }

  /** The parsed status is valid, and if it is Published then so are the section and its course. */
  predicate PublishAllowed(courses: map<Id, Course>, sections: map<Id, Section>, sectionId: Id, parsed: Option<Status>)
    requires HasCourse(courses, sections, sectionId)
  {
    parsed.Some? &&
    (parsed.value == Published ==>
       sections[sectionId].status == Published && courses[sections[sectionId].parent].status == Published)
  }

  /** The caller sees every lesson of the section: an admin or the course's instructor (by
      user id alone, whatever the caller's roles). */
  predicate Privileged(course: Course, user: Principal) {
    Admin in user.roles || user.userId == Some(course.instructorId)
  }

  /** The lessons of a section the caller may list. A section the caller may not view is
      reported as not found. */
  function GetLessonsBySection(courses: map<Id, Course>, sections: map<Id, Section>, lessons: map<Id, Lesson>,
                               user: Principal, sectionId: Id): (r: Outcome<set<Id>>)
    ensures r.Ok? <==>
      HasCourse(courses, sections, sectionId) &&
      VisibilityHelper.CanUserViewSection(sections[sectionId], courses[sections[sectionId].parent], user)
    ensures !r.Forbidden? && !r.BadRequest?
    ensures r.Ok? ==> forall id :: id in r.value <==>
      ChildOf(lessons, sectionId, id) &&
      (Privileged(courses[sections[sectionId].parent], user) || lessons[id].status == Published)
  {
    if !HasCourse(courses, sections, sectionId) then NotFound
    else
      var section := sections[sectionId];
      var course := courses[section.parent];
      if !VisibilityHelper.CanUserViewSection(section, course, user) then NotFound
      else Ok(set id | id in lessons && lessons[id].parent == sectionId &&
                       (Privileged(course, user) || lessons[id].status == Published))
  }

  /** One lesson of a section, if the caller may view it; anything hidden is not found. */
  function GetLessonById(courses: map<Id, Course>, sections: map<Id, Section>, lessons: map<Id, Lesson>,
                         user: Principal, sectionId: Id, lessonId: Id): (r: Outcome<Lesson>)
    ensures !r.Forbidden? && !r.BadRequest?
    ensures r.Ok? ==> ChildOf(lessons, sectionId, lessonId) && r.value == lessons[lessonId]
  {
    if !HasCourse(courses, sections, sectionId) then NotFound
    else
      var section := sections[sectionId];
      var course := courses[section.parent];
      if !VisibilityHelper.CanUserViewSection(section, course, user) then NotFound
      else if lessonId !in lessons || lessons[lessonId].parent != sectionId then NotFound
      else if !VisibilityHelper.CanUserViewLesson(lessons[lessonId], section, course, user) then NotFound
      else Ok(lessons[lessonId])
  }

  /** A lesson is returned by id exactly when it is in the section and the caller may view it
      (viewing a lesson already implies viewing its section). */
  lemma ByIdIsLessonVisibility(courses: map<Id, Course>, sections: map<Id, Section>, lessons: map<Id, Lesson>,
                               user: Principal, sectionId: Id, lessonId: Id)
    ensures GetLessonById(courses, sections, lessons, user, sectionId, lessonId).Ok? <==>
      HasCourse(courses, sections, sectionId) && ChildOf(lessons, sectionId, lessonId) &&
      VisibilityHelper.CanUserViewLesson(lessons[lessonId], sections[sectionId], courses[sections[sectionId].parent], user)
  {
    if HasCourse(courses, sections, sectionId) && ChildOf(lessons, sectionId, lessonId) {
      var section := sections[sectionId];
      VisibilityHelper.VisibilityIsMonotone(lessons[lessonId], section, courses[section.parent], user);
    }
  }

  /** The list holds exactly the lessons the caller may view by id, unless the caller is the
      course's instructor by user id without holding the Instructor role. */
  lemma ListIsLessonVisibility(courses: map<Id, Course>, sections: map<Id, Section>, lessons: map<Id, Lesson>,
                               user: Principal, sectionId: Id, lessonId: Id)
    requires HasCourse(courses, sections, sectionId)
    requires var course := courses[sections[sectionId].parent];
      Privileged(course, user) ==> Admin in user.roles || Instructor in user.roles
    requires GetLessonsBySection(courses, sections, lessons, user, sectionId).Ok?
    ensures lessonId in GetLessonsBySection(courses, sections, lessons, user, sectionId).value <==>
      GetLessonById(courses, sections, lessons, user, sectionId, lessonId).Ok?
  {
    ByIdIsLessonVisibility(courses, sections, lessons, user, sectionId, lessonId);
  }

  /** The exception: such a caller lists a Draft lesson of a Published section of a Published
      course, yet is refused that lesson by id. */
  lemma OwnerWithoutRoleListsHiddenLesson(courses: map<Id, Course>, sections: map<Id, Section>, lessons: map<Id, Lesson>,
                                          user: Principal, sectionId: Id, lessonId: Id)
    requires HasCourse(courses, sections, sectionId) && ChildOf(lessons, sectionId, lessonId)
    requires var course := courses[sections[sectionId].parent];
      user.userId == Some(course.instructorId) && Admin !in user.roles && Instructor !in user.roles &&
      course.status == Published && sections[sectionId].status == Published && lessons[lessonId].status == Draft
    ensures GetLessonsBySection(courses, sections, lessons, user, sectionId).Ok?
    ensures lessonId in GetLessonsBySection(courses, sections, lessons, user, sectionId).value
    ensures GetLessonById(courses, sections, lessons, user, sectionId, lessonId).NotFound?
  {
  }
}
