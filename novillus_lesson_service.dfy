/** The lesson service of the NovillusPath application: creating, moving and deleting the
    lessons of a section, with the sibling shifting written out inline as in the section
    service, and the two read operations, which check only that the section or lesson exists. */
module NovillusLessonService {
  import opened Domain
  import opened Store
  import OrderManager
  import Siblings
  import InlineOrdering
  import LessonContent
  import SectionService
  import VisibilityHelper

  /** The section exists with its course and the caller fails the inline ownership check. */
  predicate Refused(courses: map<Id, Course>, sections: map<Id, Section>, user: Principal, sectionId: Id) {
    HasCourse(courses, sections, sectionId) &&
    SectionService.NotOwnerNorAdmin(user, SectionInstructor(courses, sections, sectionId))
  }

  /** The section exists with its course and the caller passes the inline ownership check. */
  predicate Admitted(courses: map<Id, Course>, sections: map<Id, Section>, user: Principal, sectionId: Id) {
    HasCourse(courses, sections, sectionId) &&
    !SectionService.NotOwnerNorAdmin(user, SectionInstructor(courses, sections, sectionId))
  }

  /** Add a lesson to a section, at the requested position or after the last one, with its
      content blocks. */
  method CreateLesson(db: Db, user: Principal, sectionId: Id, title: string, order: Option<int>,
                      requests: seq<BlockRequest>, newId: Id)
    returns (r: Outcome<Lesson>)
    requires newId !in db.lessons
    modifies db
    ensures r.NotFound? <==> !HasCourse(old(db.courses), old(db.sections), sectionId)
    ensures r.Forbidden? <==> Refused(old(db.courses), old(db.sections), user, sectionId)
    ensures r.BadRequest? <==>
      Admitted(old(db.courses), old(db.sections), user, sectionId) &&
      ((order.Some? && order.value < 0) || exists i :: 0 <= i < |requests| && !LessonContent.Supported(requests[i]))
    ensures !r.Ok? ==> unchanged(db)
    ensures unchanged(db`courses, db`sections, db`categories, db`enrollments, db`reviews)
    ensures r.Ok? ==>
      && r.value == Siblings.Created(old(db.lessons), sectionId, title, order)
      && db.lessons == Siblings.AfterCreate(old(db.lessons), sectionId, title, order, newId)
      && db.touched == old(db.touched) + Siblings.ShiftedByCreate(old(db.lessons), sectionId, order)
    ensures r.Ok? ==>
      && newId in db.blocks && db.blocks == old(db.blocks)[newId := db.blocks[newId]]
      && |db.blocks[newId]| == |requests|
      && (forall k :: 0 <= k < |requests| ==>
            LessonContent.Convert(LessonContent.SortByOrder(requests)[k]) == Some(db.blocks[newId][k]))
  {
    if sectionId !in db.sections || db.sections[sectionId].parent !in db.courses {
      return NotFound;
    }
    var course := db.courses[db.sections[sectionId].parent];
    if SectionService.NotOwnerNorAdmin(user, course.instructorId) {
      return Forbidden;
    }
    var loaded := db.lessons;
    var lessonsInSection := ChildOrders(loaded, sectionId);
    var lessons: map<Id, Lesson>, shiftedIds: set<Id>;
    var k: int;
    if order.None? {
      k := OrderManager.NextOrder(lessonsInSection);
      lessons, shiftedIds := loaded, {};
      WriteBackUnchanged(loaded, lessonsInSection);
    } else {
      k := order.value;
      if k < 0 {
        return BadRequest;
      }
      lessons, shiftedIds := InlineOrdering.ShiftUpFrom(loaded, sectionId, k);
    }
    var contentBlocks := LessonContent.BuildBlocks(requests);
    if contentBlocks.None? {
      return BadRequest;
    }
    var created := Child(sectionId, title, k, Draft);
    db.lessons, db.touched := lessons[newId := created], db.touched + shiftedIds;
    db.blocks := db.blocks[newId := contentBlocks.value];
    return Ok(created);
  }

  /** Retitle a lesson and move it to a new position among its section's lessons. */
  method UpdateLesson(db: Db, user: Principal, sectionId: Id, lessonId: Id, title: Option<string>, order: Option<int>)
    returns (r: Outcome<()>)
    modifies db
    ensures r.NotFound? <==>
      !HasCourse(old(db.courses), old(db.sections), sectionId) ||
      (Admitted(old(db.courses), old(db.sections), user, sectionId) && !ChildOf(old(db.lessons), sectionId, lessonId))
    ensures r.Forbidden? <==> Refused(old(db.courses), old(db.sections), user, sectionId)
    ensures r.BadRequest? <==>
      Admitted(old(db.courses), old(db.sections), user, sectionId) && ChildOf(old(db.lessons), sectionId, lessonId) &&
      order.Some? && order.value != old(db.lessons)[lessonId].order && order.value < 0
    ensures !r.Ok? ==> unchanged(db)
    ensures unchanged(db`courses, db`sections, db`blocks, db`categories, db`enrollments, db`reviews)
    ensures r.Ok? ==>
      && db.lessons == Siblings.AfterUpdate(old(db.lessons), lessonId, title, order)
      && db.touched == old(db.touched) + {lessonId} + Siblings.ShiftedByUpdate(old(db.lessons), lessonId, order)
  {
    if sectionId !in db.sections || db.sections[sectionId].parent !in db.courses {
      return NotFound;
    }
    var course := db.courses[db.sections[sectionId].parent];
    if SectionService.NotOwnerNorAdmin(user, course.instructorId) {
      return Forbidden;
    }
    if lessonId !in db.lessons || db.lessons[lessonId].parent != sectionId {
      return NotFound;
    }
    var loaded := db.lessons;
    var current := loaded[lessonId];
    var originalOrder := current.order;
    var lessons: map<Id, Lesson>, shiftedIds: set<Id>;
    var newOrder := originalOrder;
    if order.Some? && order.value != originalOrder {
      newOrder := order.value;
      if newOrder < 0 {
        return BadRequest;
      }
      lessons, shiftedIds := InlineOrdering.MoveAmong(loaded, sectionId, lessonId, originalOrder, newOrder);
    } else {
      lessons, shiftedIds := loaded, {};
      ghost var siblings := Siblings.SiblingsOf(loaded, lessonId);
      assert OrderManager.ShiftedForUpdate(siblings, originalOrder, newOrder) == siblings;
      WriteBackUnchanged(loaded, siblings);
    }
    var updated := current.(title := Siblings.TitleAfter(title, current.title), order := newOrder);
    db.lessons, db.touched := lessons[lessonId := updated], db.touched + {lessonId} + shiftedIds;
    return Ok(());
  }

  /** Remove a lesson and close the gap it leaves among its section's lessons. */
  method DeleteLesson(db: Db, user: Principal, sectionId: Id, lessonId: Id) returns (r: Outcome<()>)
    modifies db
    ensures r.NotFound? <==>
      !HasCourse(old(db.courses), old(db.sections), sectionId) ||
      (Admitted(old(db.courses), old(db.sections), user, sectionId) && !ChildOf(old(db.lessons), sectionId, lessonId))
    ensures r.Forbidden? <==> Refused(old(db.courses), old(db.sections), user, sectionId)
    ensures !r.BadRequest?
    ensures !r.Ok? ==> unchanged(db)
    ensures unchanged(db`courses, db`sections, db`blocks, db`categories, db`enrollments, db`reviews)
    ensures r.Ok? ==>
      && db.lessons == Siblings.AfterDelete(old(db.lessons), lessonId)
      && db.touched == old(db.touched) + Siblings.ShiftedByDelete(old(db.lessons), lessonId)
  {
    if sectionId !in db.sections || db.sections[sectionId].parent !in db.courses {
      return NotFound;
    }
    var course := db.courses[db.sections[sectionId].parent];
    if SectionService.NotOwnerNorAdmin(user, course.instructorId) {
      return Forbidden;
    }
    if lessonId !in db.lessons || db.lessons[lessonId].parent != sectionId {
      return NotFound;
    }
    var deletedOrder := db.lessons[lessonId].order;
    var lessons, shiftedIds := InlineOrdering.CloseGap(db.lessons - {lessonId}, sectionId, deletedOrder);
    db.lessons, db.touched := lessons, db.touched + shiftedIds;
    return Ok(());
  }

  /** The lesson reads (`Store.ListChildren` of the section, `Store.FindChild` in it) apply no
      visibility rule: a caller who may not view a lesson (an anonymous caller and a Draft
      lesson, say) still gets it, and gets it in the section's list. */
  lemma ReadsIgnoreVisibility(courses: map<Id, Course>, sections: map<Id, Section>, lessons: map<Id, Lesson>,
                              user: Principal, sectionId: Id, lessonId: Id)
    requires HasCourse(courses, sections, sectionId) && ChildOf(lessons, sectionId, lessonId)
    ensures FindChild(lessons, sectionId, lessonId) == Ok(lessons[lessonId])
    ensures lessonId in ListChildren(sections, lessons, sectionId).value
    ensures user.userId.None? && Admin !in user.roles && lessons[lessonId].status == Draft ==>
      !VisibilityHelper.CanUserViewLesson(lessons[lessonId], sections[sectionId], courses[sections[sectionId].parent], user)
  {
  }
}
