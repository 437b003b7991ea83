/** The section service of the NovillusPath application: creating, moving and deleting
    the sections of a course. The sibling shifting is written out inline here; each
    method's postcondition ties the new sibling orders to the order manager's functions,
    so the inline loops are the same operations.

    Each method works on local copies of the loaded entities (`sections`, `touched`) and
    writes them back to the store at the end, which stands for the single commit. */
module SectionService {
  import opened Domain
  import opened Store
  import OrderManager
  import AuthorizationHelper
  import InlineOrdering
  import Siblings
  import VisibilityHelper

  /** The ownership check the section and lesson services write out inline: the caller is
      not the course's instructor and not an admin. */
  predicate NotOwnerNorAdmin(user: Principal, instructorId: Id) {
    user.userId != Some(instructorId) && Admin !in user.roles
  }

  /** The inline check refuses exactly the callers the shared edit check refuses. */
  lemma InlineCheckIsCanEditSection(user: Principal, instructorId: Id)
    ensures NotOwnerNorAdmin(user, instructorId) <==> !AuthorizationHelper.CanEditSection(user, instructorId)
  {
  }

  /** Add a section to a course, at the requested position (shifting the sections from
      there up) or after the last one. */
  method CreateSection(db: Db, user: Principal, courseId: Id, title: string, order: Option<int>, newId: Id)
    returns (r: Outcome<Section>)
    requires newId !in db.sections
    modifies db
    ensures r.NotFound? <==> courseId !in old(db.courses)
    ensures r.Forbidden? <==> courseId in old(db.courses) && NotOwnerNorAdmin(user, old(db.courses)[courseId].instructorId)
    ensures r.BadRequest? <==>
      courseId in old(db.courses) && !NotOwnerNorAdmin(user, old(db.courses)[courseId].instructorId) &&
      order.Some? && order.value < 0
    ensures !r.Ok? ==> unchanged(db)
    ensures unchanged(db`courses, db`lessons, db`blocks, db`categories, db`enrollments, db`reviews)
    ensures r.Ok? ==>
      && r.value == Siblings.Created(old(db.sections), courseId, title, order)
      && db.sections == Siblings.AfterCreate(old(db.sections), courseId, title, order, newId)
      && db.touched == old(db.touched) + Siblings.ShiftedByCreate(old(db.sections), courseId, order)
  {
    if courseId !in db.courses {
      return NotFound;
    }
    var course := db.courses[courseId];
    if NotOwnerNorAdmin(user, course.instructorId) {
      return Forbidden;
    }
    var loaded := db.sections;
    var sectionsInCourse := ChildOrders(loaded, courseId);
    var sections: map<Id, Section>, shiftedIds: set<Id>;
    var k: int;
    if order.None? {
      k := OrderManager.NextOrder(sectionsInCourse);
      sections, shiftedIds := loaded, {};
      WriteBackUnchanged(loaded, sectionsInCourse);
    } else {
      k := order.value;
      if k < 0 {
        return BadRequest;
      }
      sections, shiftedIds := InlineOrdering.ShiftUpFrom(loaded, courseId, k);
    }
    var created := Child(courseId, title, k, Draft);
    db.sections, db.touched := sections[newId := created], db.touched + shiftedIds;
    return Ok(created);
  }

  /** Retitle a section and move it to a new position among its course's sections. */
  method UpdateSection(db: Db, user: Principal, courseId: Id, sectionId: Id, title: Option<string>, order: Option<int>)
    returns (r: Outcome<()>)
    modifies db
    ensures r.NotFound? <==>
      courseId !in old(db.courses) ||
      (!NotOwnerNorAdmin(user, old(db.courses)[courseId].instructorId) && !ChildOf(old(db.sections), courseId, sectionId))
    ensures r.Forbidden? <==> courseId in old(db.courses) && NotOwnerNorAdmin(user, old(db.courses)[courseId].instructorId)
    ensures r.BadRequest? <==>
      courseId in old(db.courses) && !NotOwnerNorAdmin(user, old(db.courses)[courseId].instructorId) &&
      ChildOf(old(db.sections), courseId, sectionId) &&
      order.Some? && order.value != old(db.sections)[sectionId].order && order.value < 0
    ensures !r.Ok? ==> unchanged(db)
    ensures unchanged(db`courses, db`lessons, db`blocks, db`categories, db`enrollments, db`reviews)
    ensures r.Ok? ==>
      && db.sections == Siblings.AfterUpdate(old(db.sections), sectionId, title, order)
      && db.touched == old(db.touched) + {sectionId} + Siblings.ShiftedByUpdate(old(db.sections), sectionId, order)
  {
    if courseId !in db.courses {
      return NotFound;
    }
    var course := db.courses[courseId];
    if NotOwnerNorAdmin(user, course.instructorId) {
      return Forbidden;
    }
    if sectionId !in db.sections || db.sections[sectionId].parent != courseId {
      return NotFound;
    }
    var loaded := db.sections;
    var current := loaded[sectionId];
    var originalOrder := current.order;
    var sections: map<Id, Section>, shiftedIds: set<Id>;
    var newOrder := originalOrder;
    if order.Some? && order.value != originalOrder {
      newOrder := order.value;
      if newOrder < 0 {
        return BadRequest;
      }
      sections, shiftedIds := InlineOrdering.MoveAmong(loaded, courseId, sectionId, originalOrder, newOrder);
    } else {
      sections, shiftedIds := loaded, {};
      ghost var siblings := Siblings.SiblingsOf(loaded, sectionId);
      assert OrderManager.ShiftedForUpdate(siblings, originalOrder, newOrder) == siblings;
      WriteBackUnchanged(loaded, siblings);
    }
    var updated := current.(title := Siblings.TitleAfter(title, current.title), order := newOrder);
    db.sections, db.touched := sections[sectionId := updated], db.touched + {sectionId} + shiftedIds;
    return Ok(());
  }

  /** Remove a section and close the gap it leaves among its course's sections. */
  method DeleteSection(db: Db, user: Principal, courseId: Id, sectionId: Id) returns (r: Outcome<()>)
    modifies db
    ensures r.NotFound? <==>
      courseId !in old(db.courses) ||
      (!NotOwnerNorAdmin(user, old(db.courses)[courseId].instructorId) && !ChildOf(old(db.sections), courseId, sectionId))
    ensures r.Forbidden? <==> courseId in old(db.courses) && NotOwnerNorAdmin(user, old(db.courses)[courseId].instructorId)
    ensures !r.BadRequest?
    ensures !r.Ok? ==> unchanged(db)
    ensures unchanged(db`courses, db`lessons, db`blocks, db`categories, db`enrollments, db`reviews)
    ensures r.Ok? ==>
      && db.sections == Siblings.AfterDelete(old(db.sections), sectionId)
      && db.touched == old(db.touched) + Siblings.ShiftedByDelete(old(db.sections), sectionId)
  {
    if courseId !in db.courses {
      return NotFound;
    }
    var course := db.courses[courseId];
    if NotOwnerNorAdmin(user, course.instructorId) {
      return Forbidden;
    }
    if sectionId !in db.sections || db.sections[sectionId].parent != courseId {
      return NotFound;
    }
    var deletedOrder := db.sections[sectionId].order;
    var sections, shiftedIds := InlineOrdering.CloseGap(db.sections - {sectionId}, courseId, deletedOrder);
    db.sections, db.touched := sections, db.touched + shiftedIds;
    return Ok(());
  }

  /** The section reads (`Store.ListChildren` of the course, `Store.FindChild` in it) apply no
      visibility rule: an anonymous caller gets a Draft section of a course, which the
      visibility rules would hide from them. */
  lemma SectionReadsIgnoreVisibility(courses: map<Id, Course>, sections: map<Id, Section>, user: Principal, sectionId: Id)
    requires HasCourse(courses, sections, sectionId)
    ensures FindChild(sections, sections[sectionId].parent, sectionId) == Ok(sections[sectionId])
    ensures sectionId in ListChildren(courses, sections, sections[sectionId].parent).value
    ensures user.userId.None? && Admin !in user.roles && sections[sectionId].status == Draft ==>
      !VisibilityHelper.CanUserViewSection(sections[sectionId], courses[sections[sectionId].parent], user)
  {
  }
}
