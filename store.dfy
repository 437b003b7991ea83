/** The in-memory store the services work on, in place of the ORM context, with the
    views of it the services share: the sibling orders under one parent, writing new
    orders back, the status cascade of a course and the status-consistency invariant.
    Every service call is one atomic commit: on an error path nothing is written. */
module Store {
  import opened Domain
  import OrderManager

  class Db {
    var courses: map<Id, Course>
    var sections: map<Id, Section>
    var lessons: map<Id, Lesson>
    /** The content blocks of each lesson, in the order they were attached. */
    var blocks: map<Id, seq<ContentBlock>>
    var categories: set<Id>
    var enrollments: set<Enrollment>
    var reviews: map<Id, Review>
    /** Ids whose UpdatedAt stamp an operation has refreshed. */
    var touched: set<Id>

    constructor (courses: map<Id, Course>, sections: map<Id, Section>, lessons: map<Id, Lesson>,
                 categories: set<Id>)
      ensures this.courses == courses && this.sections == sections && this.lessons == lessons
      ensures this.categories == categories
      ensures blocks == map[] && enrollments == {} && reviews == map[] && touched == {}
    {
      this.courses := courses;
      this.sections := sections;
      this.lessons := lessons;
      this.categories := categories;
      blocks := map[];
      enrollments := {};
      reviews := map[];
      touched := {};
    }
  }

  /** The order of every child of `parent`: the sibling list the order logic works on. */
  function ChildOrders(children: map<Id, Child>, parent: Id): (r: map<Id, int>)
    ensures forall id :: id in r <==> id in children && children[id].parent == parent
    ensures forall id :: id in r ==> r[id] == children[id].order
  {
    map id | id in children && children[id].parent == parent :: children[id].order
  }

  /** `children` with the orders in `orders` written back; everything else kept. */
  function WithOrders(children: map<Id, Child>, orders: map<Id, int>): map<Id, Child> {
    map id | id in children :: if id in orders then children[id].(order := orders[id]) else children[id]
  }

  /** Writing back new orders for the children of one parent changes nothing but those orders:
      that parent's sibling orders become the new ones, every other parent's stay as they were,
      and no child changes parent, title or status. */
  lemma WriteBackOrders(children: map<Id, Child>, parent: Id, orders: map<Id, int>)
    requires orders.Keys == ChildOrders(children, parent).Keys
    ensures WithOrders(children, orders).Keys == children.Keys
    ensures ChildOrders(WithOrders(children, orders), parent) == orders
    ensures forall q :: q != parent ==> ChildOrders(WithOrders(children, orders), q) == ChildOrders(children, q)
    ensures forall id :: id in children ==>
      WithOrders(children, orders)[id].(order := children[id].order) == children[id]
  {
    var w := WithOrders(children, orders);
    assert ChildOrders(w, parent).Keys == orders.Keys by {
      forall id | id in orders ensures id in ChildOrders(w, parent) {
        assert id in ChildOrders(children, parent);
      }
    }
  }

  /** Adding a new child under `parent` adds exactly its order to that parent's siblings. */
  lemma AddChild(children: map<Id, Child>, id: Id, child: Child)
    requires id !in children
    ensures ChildOrders(children[id := child], child.parent) == ChildOrders(children, child.parent)[id := child.order]
    ensures forall q :: q != child.parent ==> ChildOrders(children[id := child], q) == ChildOrders(children, q)
  {
  }

  /** Removing a child removes exactly its order from its siblings. */
  lemma RemoveChild(children: map<Id, Child>, id: Id)
    ensures forall q :: ChildOrders(children - {id}, q) == ChildOrders(children, q) - {id}
  {
  }

  /** Writing back orders a child already has changes nothing. */
  lemma WriteBackUnchanged(children: map<Id, Child>, orders: map<Id, int>)
    requires orders.Keys <= children.Keys
    requires forall id :: id in orders ==> orders[id] == children[id].order
    ensures WithOrders(children, orders) == children
  {
    forall id | id in children ensures WithOrders(children, orders)[id] == children[id] {
      assert children[id].(order := children[id].order) == children[id];
    }
  }

  /** A child's siblings plus the child itself are its parent's children. */
  lemma SplitChild(children: map<Id, Child>, id: Id)
    requires id in children
    ensures ChildOrders(children - {id}, children[id].parent)[id := children[id].order] == ChildOrders(children, children[id].parent)
    ensures |ChildOrders(children, children[id].parent)| == |ChildOrders(children - {id}, children[id].parent)| + 1
  {
    var p := children[id].parent;
    assert ChildOrders(children, p).Keys == ChildOrders(children - {id}, p).Keys + {id};
  }

  /** Placing a new child with new orders written back for its siblings: its parent's sibling
      orders become `orders` plus the new child's order. */
  lemma PlaceChild(children: map<Id, Child>, orders: map<Id, int>, id: Id, child: Child)
    requires id !in children
    requires orders.Keys == ChildOrders(children, child.parent).Keys
    ensures ChildOrders(WithOrders(children, orders)[id := child], child.parent) == orders[id := child.order]
  {
    WriteBackOrders(children, child.parent, orders);
    AddChild(WithOrders(children, orders), id, child);
  }

  /** Replacing a child, with new orders written back for its siblings: its parent's
      sibling orders become `orders` plus the child's new order. */
  lemma ReplaceChild(children: map<Id, Child>, orders: map<Id, int>, id: Id, child: Child)
    requires orders.Keys == ChildOrders(children - {id}, child.parent).Keys
    ensures ChildOrders(WithOrders(children, orders)[id := child], child.parent) == orders[id := child.order]
  {
    assert WithOrders(children, orders)[id := child] == WithOrders(children - {id}, orders)[id := child];
    PlaceChild(children - {id}, orders, id, child);
  }

  /** Partway through an inline shift loop: the children in `done` have moved by `delta`,
      every other child is as it was. */
  ghost predicate ShiftedSoFar(now: map<Id, Child>, before: map<Id, Child>, done: set<Id>, delta: int) {
    now.Keys == before.Keys &&
    forall id :: id in before ==>
      now[id] == if id in done then before[id].(order := before[id].order + delta) else before[id]
  }

  /** When an inline loop has moved exactly the children that `orders` moves by `delta`, the
      children are `before` with `orders` written back. */
  lemma ShiftComplete(now: map<Id, Child>, before: map<Id, Child>, done: set<Id>, delta: int, orders: map<Id, int>)
    requires ShiftedSoFar(now, before, done, delta)
    requires done <= orders.Keys <= before.Keys
    requires forall id :: id in orders ==>
      orders[id] == if id in done then before[id].order + delta else before[id].order
    ensures now == WithOrders(before, orders)
  {
    forall id | id in before ensures now[id] == WithOrders(before, orders)[id] {
      if id in orders && id !in done {
        assert before[id].(order := before[id].order) == before[id];
      }
    }
  }

  /** No Published section sits in a non-Published course and no Published lesson in a
      non-Published section. */
  ghost predicate StatusConsistent(courses: map<Id, Course>, sections: map<Id, Section>, lessons: map<Id, Lesson>) {
    (forall s :: s in sections && sections[s].status == Published && sections[s].parent in courses
       ==> courses[sections[s].parent].status == Published) &&
    (forall l :: l in lessons && lessons[l].status == Published && lessons[l].parent in sections
       ==> sections[lessons[l].parent].status == Published)
  }

  /** `id` is a child (a section, a lesson) of `parent`. */
  predicate ChildOf(children: map<Id, Child>, parent: Id, id: Id) {
    id in children && children[id].parent == parent
  }

  /** The children of `parent` when the parent exists, whatever their status and whoever asks:
      the list read of both NovillusPath services, which apply no visibility rule. */
  function ListChildren<P>(parents: map<Id, P>, children: map<Id, Child>, parent: Id): (r: Outcome<set<Id>>)
    ensures r.Ok? <==> parent in parents
    ensures r.Ok? ==> forall id :: id in r.value <==> ChildOf(children, parent, id)
    ensures !r.Forbidden? && !r.BadRequest?
  {
    if parent !in parents then NotFound
    else Ok(set id | id in children && children[id].parent == parent)
  }

  /** Child `id` of `parent`, whatever its status and whoever asks; NotFound when it does not
      exist or belongs to another parent. */
  function FindChild(children: map<Id, Child>, parent: Id, id: Id): (r: Outcome<Child>)
    ensures r.Ok? <==> ChildOf(children, parent, id)
    ensures r.Ok? ==> r.value == children[id]
    ensures !r.Forbidden? && !r.BadRequest?
  {
    if id !in children || children[id].parent != parent then NotFound
    else Ok(children[id])
  }

  /** The section exists together with its course: what loading a section with its course
      finds (the course is a required relation, so a section without one is not found). */
  predicate HasCourse(courses: map<Id, Course>, sections: map<Id, Section>, sectionId: Id) {
    sectionId in sections && sections[sectionId].parent in courses
  }

  /** The instructor of the course a found section belongs to. */
  function SectionInstructor(courses: map<Id, Course>, sections: map<Id, Section>, sectionId: Id): Id
    requires HasCourse(courses, sections, sectionId)
  {
    courses[sections[sectionId].parent].instructorId
  }

  predicate LessonOf(sections: map<Id, Section>, lessons: map<Id, Lesson>, courseId: Id, id: Id) {
    id in lessons && ChildOf(sections, courseId, lessons[id].parent)
  }

  /** The sections after the course cascade: every section of the course takes `target`. */
  function CascadeSections(sections: map<Id, Section>, courseId: Id, target: Status): map<Id, Section> {
    map id | id in sections :: if ChildOf(sections, courseId, id) then sections[id].(status := target) else sections[id]
  }

  /** The lessons after the course cascade: every lesson of a section of the course takes `target`. */
  function CascadeLessons(sections: map<Id, Section>, lessons: map<Id, Lesson>, courseId: Id, target: Status): map<Id, Lesson> {
    map id | id in lessons :: if LessonOf(sections, lessons, courseId, id) then lessons[id].(status := target) else lessons[id]
  }

  /** The sections and lessons the cascade writes to: those of the course not yet at `target`. */
  function CascadeTouched(sections: map<Id, Section>, lessons: map<Id, Lesson>, courseId: Id, target: Status): set<Id> {
    (set id | id in sections && ChildOf(sections, courseId, id) && sections[id].status != target) +
    (set id | id in lessons && LessonOf(sections, lessons, courseId, id) && lessons[id].status != target)
  }

  /** After the cascade every section and lesson of the course has the target status, nothing
      outside the course changed, and nothing but statuses changed. */
  lemma CascadeReachesSubtree(sections: map<Id, Section>, lessons: map<Id, Lesson>, courseId: Id, target: Status)
    ensures CascadeSections(sections, courseId, target).Keys == sections.Keys
    ensures CascadeLessons(sections, lessons, courseId, target).Keys == lessons.Keys
    ensures forall id :: ChildOf(sections, courseId, id) ==> CascadeSections(sections, courseId, target)[id].status == target
    ensures forall id :: LessonOf(sections, lessons, courseId, id) ==>
      CascadeLessons(sections, lessons, courseId, target)[id].status == target
    ensures forall id :: id in sections && !ChildOf(sections, courseId, id) ==>
      CascadeSections(sections, courseId, target)[id] == sections[id]
    ensures forall id :: id in lessons && !LessonOf(sections, lessons, courseId, id) ==>
      CascadeLessons(sections, lessons, courseId, target)[id] == lessons[id]
    ensures forall id :: id in sections ==>
      CascadeSections(sections, courseId, target)[id].(status := sections[id].status) == sections[id]
    ensures forall id :: id in lessons ==>
      CascadeLessons(sections, lessons, courseId, target)[id].(status := lessons[id].status) == lessons[id]
  {
  }

  /** The cascade writes exactly the entities whose status it changes. */
  lemma CascadeTouchesExactlyChanged(sections: map<Id, Section>, lessons: map<Id, Lesson>, courseId: Id, target: Status)
    requires sections.Keys !! lessons.Keys
    ensures forall id :: id in sections ==>
      (id in CascadeTouched(sections, lessons, courseId, target) <==>
         CascadeSections(sections, courseId, target)[id] != sections[id])
    ensures forall id :: id in lessons ==>
      (id in CascadeTouched(sections, lessons, courseId, target) <==>
         CascadeLessons(sections, lessons, courseId, target)[id] != lessons[id])
  {
    forall id | id in sections
      ensures id in CascadeTouched(sections, lessons, courseId, target)
          <==> CascadeSections(sections, courseId, target)[id] != sections[id]
    {
      assert id !in lessons;
      if ChildOf(sections, courseId, id) && sections[id].status != target {
        assert CascadeSections(sections, courseId, target)[id].status != sections[id].status;
      }
    }
    forall id | id in lessons
      ensures id in CascadeTouched(sections, lessons, courseId, target)
          <==> CascadeLessons(sections, lessons, courseId, target)[id] != lessons[id]
    {
      assert id !in sections;
      if LessonOf(sections, lessons, courseId, id) && lessons[id].status != target {
        assert CascadeLessons(sections, lessons, courseId, target)[id].status != lessons[id].status;
      }
    }
  }

  /** Moving a course to Draft or Archived together with its cascade keeps the store
      status-consistent. */
  lemma CascadeKeepsConsistent(courses: map<Id, Course>, sections: map<Id, Section>, lessons: map<Id, Lesson>,
                               courseId: Id, target: Status)
    requires StatusConsistent(courses, sections, lessons)
    requires courseId in courses && target != Published
    ensures StatusConsistent(courses[courseId := courses[courseId].(status := target)],
                             CascadeSections(sections, courseId, target),
                             CascadeLessons(sections, lessons, courseId, target))
  {
    var cs := courses[courseId := courses[courseId].(status := target)];
    var ss := CascadeSections(sections, courseId, target);
    var ls := CascadeLessons(sections, lessons, courseId, target);
    forall s | s in ss && ss[s].status == Published && ss[s].parent in cs
      ensures cs[ss[s].parent].status == Published
    {
      assert !ChildOf(sections, courseId, s);
    }
    forall l | l in ls && ls[l].status == Published && ls[l].parent in ss
      ensures ss[ls[l].parent].status == Published
    {
      assert !LessonOf(sections, lessons, courseId, l);
      assert !ChildOf(sections, courseId, lessons[l].parent);
    }
  }

  /** Setting a course's status without any cascade keeps consistency when the new status is
      Published or the old one. */
  lemma CourseStatusKeepsConsistent(courses: map<Id, Course>, sections: map<Id, Section>, lessons: map<Id, Lesson>,
                                    courseId: Id, target: Status)
    requires StatusConsistent(courses, sections, lessons)
    requires courseId in courses && (target == Published || target == courses[courseId].status)
    ensures StatusConsistent(courses[courseId := courses[courseId].(status := target)], sections, lessons)
  {
  }

  /** Setting a lesson's status keeps consistency whenever the publish gate lets it through:
      the target is not Published, or the lesson's section is Published. */
  lemma LessonStatusKeepsConsistent(courses: map<Id, Course>, sections: map<Id, Section>, lessons: map<Id, Lesson>,
                                    lessonId: Id, target: Status)
    requires StatusConsistent(courses, sections, lessons)
    requires lessonId in lessons && lessons[lessonId].parent in sections
    requires target == Published ==> sections[lessons[lessonId].parent].status == Published
    ensures StatusConsistent(courses, sections, lessons[lessonId := lessons[lessonId].(status := target)])
  {
  }
}
