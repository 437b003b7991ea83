# Course-catalog content hierarchy, modelled in Dafny

This project models the core of a course-catalog backend that exists in two snapshots, NovillusPath and SourceGuild. Courses hold sections, and sections hold lessons. Each of the three carries a status (Draft, Published or Archived) and, below the course, a positional `Order` among its siblings. Students enroll in Published courses and review the courses they are enrolled in.

The model covers four parts:

- **Sibling ordering.** This is `OrderManager`'s insert, move and delete shifts, plus the copies of the same loops written inline in the NovillusPath section and lesson services. The module `OrderManager` defines each shift once, as a function on a map from item to order, and as a loop that visits the selected items sorted by order. `InlineOrdering` holds the inline loops; their contracts equate them with the same functions. `Siblings` states what a whole create, update or delete does to a parent's children. The services refuse only a negative order; an order past the end of the siblings is accepted and leaves a gap in the orders (`Siblings.CreatePastEndLeavesGap`, `Siblings.UpdatePastEndLeavesGap`).
- **Status lifecycle.** A course moved to Draft or Archived takes its sections and lessons along (`CourseService.Cascade` has the nested loops). A lesson can be published only under a Published section of a Published course. The invariant `Store.StatusConsistent` ("nothing Published below something that is not") is kept by both, and is broken by the general course update, which sets a status without the cascade.
- **Visibility and authorization.** These are pure predicates over an explicit principal: an optional user id and a set of roles.
- **Guarded orchestration.** Each service operation is a method on the store class `Store.Db`. It returns `Ok`, `NotFound`, `Forbidden` or `BadRequest` in place of the source's exceptions. Its contract says exactly when each error happens, in the source's check order. The store is `unchanged` on every error path. A successful call's new state is given exactly; the ids whose `UpdatedAt` is stamped are recorded in `Db.touched`.

The services work on local copies of the entities they load and write them back at the end. This stands for the single `SaveChangesAsync` commit. New entity ids (`Guid`s) are parameters that must be fresh.

## Model

| member | source | states |
|---|---|---|
| Domain.ParseStatus | SourceGuild.Application/Services/LessonService.cs:169-172 | the parsed status's name matches the string, case-sensitively or not; `None` exactly when no status name matches |
| Domain.ParseStatusName | NovillusPath.Application/Services/CourseService.cs:124 | every status name parses back to its status, in both modes |
| Domain.ParseIgnoresCase | NovillusPath.Application/Services/CourseService.cs:124-127 | case-insensitive parsing accepts every spelling that folds to a status name |
| OrderManager.ShiftedForInsert | SourceGuild.Application/Helpers/OrderManager.cs:6-13 | the insert shift keeps every item, frees position `newOrder` and keeps all pairs in the same relative order |
| OrderManager.ShiftedForUpdate | SourceGuild.Application/Helpers/OrderManager.cs:16-34 | the move shift keeps every item, never reverses a pair, and frees `newOrder` when the old order was free |
| OrderManager.ShiftedForDelete | SourceGuild.Application/Helpers/OrderManager.cs:37-44 | the delete shift keeps every item, never reverses a pair, and keeps every item on its side of the deleted slot |
| OrderManager.ShiftSelected | SourceGuild.Application/Helpers/OrderManager.cs:8-12 | the `foreach` over a filtered, sorted view: exactly the selected items move by `delta`; each is touched once, in the sort order |
| OrderManager.ShiftOrderForInsert | SourceGuild.Application/Helpers/OrderManager.cs:6-13 | the loop gives `ShiftedForInsert`; it touches exactly the items at `newOrder` or above, each once, in ascending order |
| OrderManager.ShiftOrderForUpdate | SourceGuild.Application/Helpers/OrderManager.cs:16-34 | the loop gives `ShiftedForUpdate`; it touches exactly the items whose order changes, descending when moving up; with equal orders nothing changes or is touched |
| OrderManager.ShiftOrderForDelete | SourceGuild.Application/Helpers/OrderManager.cs:37-44 | the loop gives `ShiftedForDelete`; it touches exactly the items above the deleted order, ascending |
| OrderManager.NextOrder | NovillusPath.Application/Services/SectionService.cs:68-71 | the appended order is above every sibling; it is 0 without siblings and otherwise one past a sibling's order |
| OrderManager.AppendKeepsDense | NovillusPath.Application/Services/LessonService.cs:34-37 | appending to siblings ordered 0..n-1 gives the new item n and keeps the orders 0..n |
| OrderManager.InsertKeepsDistinct | SourceGuild.Application/Helpers/OrderManager.cs:8-10 | after an insert shift, the shifted distinct orders plus `newOrder` are distinct |
| OrderManager.InsertKeepsDense | SourceGuild.Application/Helpers/OrderManager.cs:6-13 | inserting at 0 <= k <= n into orders 0..n-1 gives orders 0..n |
| OrderManager.UpdateKeepsDistinct | SourceGuild.Application/Helpers/OrderManager.cs:16-34 | if the siblings are distinct and none holds the old order, the moved siblings plus `newOrder` are distinct |
| OrderManager.UpdateKeepsDense | SourceGuild.Application/Helpers/OrderManager.cs:16-34 | if the siblings plus the old order are 0..n-1 and 0 <= newOrder < n, the result is again 0..n-1 |
| OrderManager.DeleteKeepsDense | SourceGuild.Application/Helpers/OrderManager.cs:37-44 | if the siblings plus the deleted order are 0..n-1, the shifted siblings are 0..n-2 |
| OrderManager.UpdateKeepsRelativeOrder | SourceGuild.Application/Helpers/OrderManager.cs:16-34 | siblings not at the old order keep their strict relative order under a move |
| OrderManager.DeleteKeepsRelativeOrder | SourceGuild.Application/Helpers/OrderManager.cs:37-44 | siblings not at the deleted order keep their strict relative order under a delete |
| AuthorizationHelper.IsAdmin | NovillusPath.Application/Helpers/AuthorizationHelper.cs:8 | the caller holds the Admin role |
| AuthorizationHelper.IsStudent | NovillusPath.Application/Helpers/AuthorizationHelper.cs:9 | the caller holds the Student role |
| AuthorizationHelper.IsOwner | NovillusPath.Application/Helpers/AuthorizationHelper.cs:10 | a present user id equal to the owner id; a missing one owns nothing |
| AuthorizationHelper.IsCurrentUserTheTargetUser | NovillusPath.Application/Helpers/AuthorizationHelper.cs:11-12 | the caller's user id is present and equals the target user id |
| AuthorizationHelper.CanEditCourse | NovillusPath.Application/Helpers/AuthorizationHelper.cs:13-14 | admin, or owner of the course's instructor id |
| AuthorizationHelper.CanEditSection | NovillusPath.Application/Helpers/AuthorizationHelper.cs:15-16 | admin, or owner of the section's course instructor id |
| AuthorizationHelper.CanEditLesson | NovillusPath.Application/Helpers/AuthorizationHelper.cs:17-18 | admin, or owner of the lesson's course instructor id |
| AuthorizationHelper.CanPerformEnrollmentAction | NovillusPath.Application/Helpers/AuthorizationHelper.cs:19-20 | admin, or a student acting on their own enrollment |
| AuthorizationHelper.CanPerformReviewAction | NovillusPath.Application/Helpers/AuthorizationHelper.cs:21-22 | the caller holds the Student role |
| AuthorizationHelper.CanModifyReview | NovillusPath.Application/Helpers/AuthorizationHelper.cs:23-24 | admin, or the caller is the review's author |
| AuthorizationHelper.OwnerNeedsUserId | NovillusPath.Application/Helpers/AuthorizationHelper.cs:10 | no one owns anything without a user id |
| AuthorizationHelper.EditChecksAgree | NovillusPath.Application/Helpers/AuthorizationHelper.cs:13-18 | the course, section and lesson edit checks are one predicate: admin, or user id equals the instructor id |
| AuthorizationHelper.EnrollmentActionCharacterized | NovillusPath.Application/Helpers/AuthorizationHelper.cs:19-20 | an enrollment action is allowed iff admin, or student acting for themself |
| AuthorizationHelper.ReviewActionNeedsStudent | NovillusPath.Application/Helpers/AuthorizationHelper.cs:21-22 | submitting a review is allowed iff the caller has the student role |
| AuthorizationHelper.ModifyReviewCharacterized | NovillusPath.Application/Helpers/AuthorizationHelper.cs:23-24 | modifying a review is allowed iff admin or author; no role is needed for the author |
| AuthorizationHelper.AdminPassesAllButReviewAction | NovillusPath.Application/Helpers/AuthorizationHelper.cs:13-24 | an admin passes every check; the review action still needs the student role |
| VisibilityHelper.IsOwningInstructor | NovillusPath.Application/Helpers/VisibilityHelper.cs:8 | the caller holds the Instructor role and its user id is the course's instructor id |
| VisibilityHelper.CanUserViewCourse | NovillusPath.Application/Helpers/VisibilityHelper.cs:5-10 | admin, owning instructor, or a Published course |
| VisibilityHelper.CanUserViewSection | NovillusPath.Application/Helpers/VisibilityHelper.cs:12-17 | admin, owning instructor of its course, or the section and its course both Published |
| VisibilityHelper.CanUserViewLesson | NovillusPath.Application/Helpers/VisibilityHelper.cs:19-24 | admin, owning instructor of its course, or the lesson, its section and its course all Published |
| VisibilityHelper.CanUserViewReviewListForCourse | NovillusPath.Application/Helpers/VisibilityHelper.cs:26-33 | admin, owning instructor, or a Published course |
| VisibilityHelper.AdminSeesEverything | NovillusPath.Application/Helpers/VisibilityHelper.cs:5-33 | an admin views every course, section, lesson and review list |
| VisibilityHelper.OwningInstructorSeesEverything | NovillusPath.Application/Helpers/VisibilityHelper.cs:8-29 | an instructor with the course's instructor id views the course and everything in it |
| VisibilityHelper.OthersSeeOnlyPublished | NovillusPath.Application/Helpers/VisibilityHelper.cs:9-23 | for anyone else, a course, section or lesson is visible iff it and everything above it is Published |
| VisibilityHelper.VisibilityIsMonotone | NovillusPath.Application/Helpers/VisibilityHelper.cs:5-24 | viewing a lesson implies viewing its section, which implies viewing its course |
| VisibilityHelper.AnonymousSeesOnlyPublished | NovillusPath.Application/Helpers/VisibilityHelper.cs:5-24 | a caller without a user id and without the admin role sees a course, a section or a lesson iff it and everything above it is Published |
| VisibilityHelper.ReviewListFollowsCourse | NovillusPath.Application/Helpers/VisibilityHelper.cs:26-33 | the review list is visible exactly when the course is |
| Store.ChildOrders | NovillusPath.Application/Services/SectionService.cs:66 | the sibling list of a parent holds exactly its children, each with its own order |
| Store.ListChildren | NovillusPath.Application/Services/SectionService.cs:32-42 | the list read of sections (and, in the lesson service, of lessons): NotFound iff the parent is missing; otherwise exactly its children |
| Store.FindChild | NovillusPath.Application/Services/SectionService.cs:44-53 | the by-id read of a section (and, in the lesson service, of a lesson): found iff it exists under that parent, and then it is the stored one |
| Store.CascadeReachesSubtree | NovillusPath.Application/Services/CourseService.cs:133-159 | after the cascade every section and lesson of the course has the target status; nothing else changes, and nothing but statuses |
| Store.CascadeTouchesExactlyChanged | NovillusPath.Application/Services/CourseService.cs:141-154 | the cascade stamps exactly the sections and lessons whose status it changes |
| Store.CascadeKeepsConsistent | NovillusPath.Application/Services/CourseService.cs:133-161 | moving a course to Draft or Archived together with its cascade keeps the store status-consistent |
| Store.CourseStatusKeepsConsistent | NovillusPath.Application/Services/CourseService.cs:133-161 | setting a course to Published, or to its current status, without cascade keeps consistency |
| Store.LessonStatusKeepsConsistent | SourceGuild.Application/Services/LessonService.cs:173-179 | a lesson status the publish gate lets through keeps the store status-consistent |
| Siblings.CreateOrders | NovillusPath.Application/Services/SectionService.cs:68-92 | a create gives the parent the insert-shifted (or unchanged) sibling orders plus the new order; other parents and all other fields are unchanged; the stamped ids are exactly the changed ones |
| Siblings.CreateKeepsDense | NovillusPath.Application/Services/LessonService.cs:34-54 | appending, or creating at 0..n, keeps a parent's orders 0..n-1 dense |
| Siblings.CreateKeepsDistinct | NovillusPath.Application/Services/LessonService.cs:43-54 | creating at any position keeps distinct sibling orders distinct |
| Siblings.CreatePastEndLeavesGap | NovillusPath.Application/Services/SectionService.cs:74-92 | a create at an order beyond the sibling count is accepted and leaves the orders no longer 0..n |
| Siblings.UpdateOrders | NovillusPath.Application/Services/SectionService.cs:115-158 | an update gives the moved siblings `ShiftedForUpdate` plus the child's new order |
| Siblings.UpdateInPlaceKeepsOrders | NovillusPath.Application/Services/SectionService.cs:151-158 | an update without a new order leaves every sibling order as it was |
| Siblings.UpdateLeavesOthers | NovillusPath.Application/Services/LessonService.cs:131-171 | an update leaves other parents' children alone and changes nothing of a sibling but its order |
| Siblings.UpdateKeepsDense | NovillusPath.Application/Services/LessonService.cs:147-166 | moving a child to 0..n-1 keeps dense orders dense |
| Siblings.UpdateKeepsDistinct | NovillusPath.Application/Services/SectionService.cs:127-149 | moving a child anywhere keeps distinct orders distinct |
| Siblings.UpdatePastEndLeavesGap | NovillusPath.Application/Services/SectionService.cs:121-150 | a move to an order at or beyond the sibling count is accepted and leaves the orders no longer 0..n-1 |
| Siblings.DeleteOrders | NovillusPath.Application/Services/SectionService.cs:178-190 | a delete removes the child and gives its siblings `ShiftedForDelete`; other parents are unchanged |
| Siblings.DeleteKeepsDense | NovillusPath.Application/Services/LessonService.cs:194-205 | deleting from dense orders leaves the rest dense |
| InlineOrdering.ShiftEach | NovillusPath.Application/Services/SectionService.cs:86-91 | the inline `foreach`: every selected child moves by `delta`, each stamped once |
| InlineOrdering.ShiftUpFrom | NovillusPath.Application/Services/LessonService.cs:45-54 | the inline create loop equals `OrderManager.ShiftedForInsert` written back, and stamps exactly the siblings at k or above |
| InlineOrdering.MoveAmong | NovillusPath.Application/Services/LessonService.cs:147-166 | the inline move loops equal `OrderManager.ShiftedForUpdate` written back, and stamp exactly the moved siblings |
| InlineOrdering.CloseGap | NovillusPath.Application/Services/SectionService.cs:182-190 | the inline delete loop equals `OrderManager.ShiftedForDelete` written back, and stamps exactly the siblings above the gap |
| SectionService.InlineCheckIsCanEditSection | NovillusPath.Application/Services/SectionService.cs:58 | the inline owner-or-admin check refuses exactly whom `CanEditSection` refuses |
| SectionService.CreateSection | NovillusPath.Application/Services/SectionService.cs:55-99 | NotFound iff no course; Forbidden iff not owner or admin; BadRequest iff negative order; otherwise `Siblings.AfterCreate`, stamping the shifted sections |
| SectionService.UpdateSection | NovillusPath.Application/Services/SectionService.cs:101-162 | the guards in order; a different negative order is BadRequest; otherwise `Siblings.AfterUpdate`, stamping the section and the moved siblings |
| SectionService.DeleteSection | NovillusPath.Application/Services/SectionService.cs:164-193 | the guards in order; otherwise `Siblings.AfterDelete`, stamping the siblings above |
| SectionService.SectionReadsIgnoreVisibility | NovillusPath.Application/Services/SectionService.cs:32-53 | the section reads, `Store.ListChildren` and `Store.FindChild`, return a Draft section to an anonymous caller, whom the visibility rules would refuse it |
| LessonContent.Convert | NovillusPath.Application/Services/LessonService.cs:63-71 | Text and Video requests become their entity with the request's order; any other kind has none |
| LessonContent.SortByOrder | NovillusPath.Application/Services/LessonService.cs:60 | the stable sort by order (`OrderBy`) keeps the length; sortedness, stability and membership are the lemmas below |
| LessonContent.InsertKeepsSorted | NovillusPath.Application/Services/LessonService.cs:60 | an insertion step keeps the requests sorted and adds only the inserted one |
| LessonContent.InsertIsStable | NovillusPath.Application/Services/LessonService.cs:60 | among equal orders an insertion step puts the new request last |
| LessonContent.SortIsSorted | NovillusPath.Application/Services/LessonService.cs:60 | the sort yields non-decreasing orders |
| LessonContent.SortIsStable | NovillusPath.Application/Services/LessonService.cs:60 | the requests of each order keep their request order, so the sort is a permutation |
| LessonContent.SortKeepsMembers | NovillusPath.Application/Services/LessonService.cs:60 | a request is in the sorted requests iff it is in the requests |
| LessonContent.WithOrderMembers | NovillusPath.Application/Services/LessonService.cs:60 | a request is among those of its own order iff it is among the requests |
| LessonContent.BuildBlocks | SourceGuild.Application/Services/LessonService.cs:37-53 | the block loop fails iff some kind is unsupported; otherwise one block per request, converted in sorted order, with non-decreasing orders |
| NovillusLessonService.CreateLesson | NovillusPath.Application/Services/LessonService.cs:18-85 | NotFound iff no section with course; Forbidden iff not owner or admin; BadRequest iff negative order or unsupported block; otherwise `Siblings.AfterCreate` with the built blocks |
| NovillusLessonService.UpdateLesson | NovillusPath.Application/Services/LessonService.cs:111-175 | the guards in order; a different negative order is BadRequest; otherwise `Siblings.AfterUpdate`, stamping the lesson and the moved siblings |
| NovillusLessonService.DeleteLesson | NovillusPath.Application/Services/LessonService.cs:176-207 | the guards in order; otherwise `Siblings.AfterDelete`, stamping the siblings above |
| NovillusLessonService.ReadsIgnoreVisibility | NovillusPath.Application/Services/LessonService.cs:87-110 | the lesson reads, `Store.ListChildren` and `Store.FindChild`, return a Draft lesson to an anonymous caller, whom the visibility rules would refuse it |
| SourceGuildLessonService.TouchedIds | SourceGuild.Application/Services/LessonService.cs:34 | the ids the `touch` callback stamped, as a set |
| SourceGuildLessonService.CreateLesson | SourceGuild.Application/Services/LessonService.cs:12-58 | the same guards and result as the inline version, reached through `OrderManager.ShiftOrderForInsert` |
| SourceGuildLessonService.MoveWithManager | SourceGuild.Application/Services/LessonService.cs:119-129 | the `ShiftOrderForUpdate` call gives `ShiftedForUpdate` on the other lessons and stamps exactly the moved ones |
| SourceGuildLessonService.UpdateLesson | SourceGuild.Application/Services/LessonService.cs:104-134 | the same guards and result as the inline version, reached through `OrderManager.ShiftOrderForUpdate` |
| SourceGuildLessonService.ShiftAboveOnly | SourceGuild.Application/Services/LessonService.cs:149-150 | shifting only the lessons above the deleted one equals shifting all its siblings |
| SourceGuildLessonService.CloseGapWithManager | SourceGuild.Application/Services/LessonService.cs:149-151 | the `ShiftOrderForDelete` call on the lessons above gives `Siblings.AfterDelete` |
| SourceGuildLessonService.DeleteLesson | SourceGuild.Application/Services/LessonService.cs:136-153 | the same guards and result as the inline version, reached through `OrderManager.ShiftOrderForDelete` |
| SourceGuildLessonService.UpdateLessonStatus | SourceGuild.Application/Services/LessonService.cs:155-181 | guards, then BadRequest iff the string does not parse or Published is asked under a non-Published section or course; otherwise only that lesson's status changes, and consistency is kept |
| SourceGuildLessonService.PublishAllowed | SourceGuild.Application/Services/LessonService.cs:169-177 | the status string parsed, and Published is asked only under a Published section of a Published course |
| SourceGuildLessonService.Privileged | SourceGuild.Application/Services/LessonService.cs:64-73 | admin, or the caller's user id is the course's instructor id, whatever its roles |
| SourceGuildLessonService.GetLessonsBySection | SourceGuild.Application/Services/LessonService.cs:60-79 | Ok iff the section exists and the caller may view it (a hidden section is NotFound); then exactly the section's lessons that are Published or that a privileged caller asks for |
| SourceGuildLessonService.GetLessonById | SourceGuild.Application/Services/LessonService.cs:81-102 | never Forbidden; Ok returns the lesson of the section |
| SourceGuildLessonService.ByIdIsLessonVisibility | SourceGuild.Application/Services/LessonService.cs:81-102 | a lesson is returned by id iff it is in an existing section and `CanUserViewLesson` holds |
| SourceGuildLessonService.ListIsLessonVisibility | SourceGuild.Application/Services/LessonService.cs:64-73 | the list holds exactly the lessons returned by id, for every caller whose privilege comes with a role |
| SourceGuildLessonService.OwnerWithoutRoleListsHiddenLesson | SourceGuild.Application/Services/LessonService.cs:60-102 | a course owner without the instructor role lists a Draft lesson but is refused it by id |
| CourseService.GetCourses | NovillusPath.Application/Services/CourseService.cs:20-34 | the listed courses are exactly those `CanUserViewCourse` allows |
| CourseService.ListFilter | NovillusPath.Application/Services/CourseService.cs:26-30 | no filter for an admin; own or Published courses for an instructor with a user id; Published courses for everyone else |
| CourseService.PublicView | NovillusPath.Application/Services/CourseService.cs:47-55 | the reader is neither an admin nor the course's instructor holding the Instructor role |
| CourseService.GetCourseById | NovillusPath.Application/Services/CourseService.cs:36-57 | NotFound iff missing or invisible; the sections and lessons shown are exactly those the visibility predicates allow |
| CourseService.CreateCourse | NovillusPath.Application/Services/CourseService.cs:59-81 | Forbidden iff no user id; BadRequest iff an unknown category; otherwise a Draft course of the caller is added |
| CourseService.UpdateCourse | NovillusPath.Application/Services/CourseService.cs:83-111 | NotFound, then Forbidden, then BadRequest on unknown categories; otherwise the given fields are copied and the course stamped |
| CourseService.UpdateSkipsCascade | NovillusPath.Application/Services/CourseService.cs:88 | the general update can set a Published course with Published sections to Draft, breaking status consistency |
| CourseService.DeleteCourse | NovillusPath.Application/Services/CourseService.cs:113-120 | NotFound, then Forbidden; otherwise the course is removed |
| CourseService.WithStatusUnion | NovillusPath.Application/Services/CourseService.cs:139-157 | setting statuses over two sets in turn equals setting them over the union |
| CourseService.SetStatusOf | NovillusPath.Application/Services/CourseService.cs:148-155 | the inner loop sets every selected child to the target, stamping exactly those that differed |
| CourseService.Cascade | NovillusPath.Application/Services/CourseService.cs:137-158 | the nested loops give `CascadeSections`, `CascadeLessons` and `CascadeTouched` |
| CourseService.UpdateCourseStatus | NovillusPath.Application/Services/CourseService.cs:122-163 | BadRequest (before lookup) iff unparsable; NotFound; Forbidden; otherwise the status is set, the cascade runs iff the status differs and is Draft or Archived, and consistency is kept |
| EnrollmentService.Enroll | NovillusPath.Application/Services/EnrollmentService.cs:18-51 | Forbidden first, then NotFound, then BadRequest for an unpublished course or an existing enrollment; otherwise exactly one new pair; enrollments keep referring to courses |
| EnrollmentService.Unenroll | NovillusPath.Application/Services/EnrollmentService.cs:65-75 | Forbidden first, then NotFound iff not enrolled; otherwise exactly that pair is removed |
| EnrollmentService.GetUserEnrolledCourses | NovillusPath.Application/Services/EnrollmentService.cs:53-63 | exactly the existing courses the user is enrolled in |
| ReviewService.CreateReview | NovillusPath.Application/Services/ReviewService.cs:18-53 | Forbidden iff not a student; NotFound iff no course; BadRequest iff not enrolled or already reviewed; the review is the caller's for the route course; one review per user and course and enrolled authors are preserved |
| ReviewService.GetReviewById | NovillusPath.Application/Services/ReviewService.cs:55-66 | the review iff it exists in the route course; `canModify` is `CanModifyReview` |
| ReviewService.UpdateReview | NovillusPath.Application/Services/ReviewService.cs:68-92 | NotFound (missing or other course), then Forbidden; otherwise the given rating and comment replace the old ones; invariants preserved |
| ReviewService.DeleteReview | NovillusPath.Application/Services/ReviewService.cs:94-111 | the same guards; otherwise exactly that review is removed; invariants preserved |
| ReviewService.GetReviewsByCourseId | NovillusPath.Application/Services/ReviewService.cs:113-124 | Ok iff the course exists and the caller may view it; exactly the course's reviews |
| ReviewService.TotalPages | NovillusPath.Application/Services/ReviewService.cs:146 | the page count is the ceiling of the count divided by the page size, for either sign of the page size |
| ReviewService.GetPagedReviewsByCourseId | NovillusPath.Application/Services/ReviewService.cs:126-157 | the same gate as the full list; the page count is `TotalPages` of the course's review count, so the least covering count for a positive size and the matching bound for a negative one |

## Left out

- Controllers, HTTP mapping and middleware are not part of this model. This includes the argument swap in the review controller's delete call: the service's own parameter order is modelled.
- Persistence is replaced by the in-memory store `Store.Db`. Each service call is one atomic commit. Concurrency and transactions are not modelled.
- The ORM's cascade deletes are not modelled. Deleting a course, section or lesson leaves its children, enrollments and reviews in the store.
- Identity and token handling are not modelled: the caller is a plain value, an optional user id and a role set.
- Validators are not modelled. Titles, review ratings (a byte in 1..5) and comment lengths arrive unchecked.
- Only the titles, orders, statuses and categories of entities are modelled. Descriptions, prices, images and the other fields that the mappers copy are not.
- The clock is not modelled: `UpdatedAt = DateTime.UtcNow` becomes membership in `Db.touched`. Guids become fresh id parameters.
- Read results are sets of ids, so the order in which repositories return lists (by `Order`, by date) is not modelled.
- The floating-point `Math.Ceiling` of the page count is modelled as exact integer arithmetic. The page's items (skip and take), average ratings and course search are not modelled.
- ReviewService.TotalPages: requires a non-zero page size. With zero, the source converts a floating-point infinity or NaN to `int`, and the result depends on the runtime.
- Domain.ParseStatus: accepts exactly the three names, with ASCII case folding. `Enum.TryParse` also accepts numeric strings, surrounding whitespace and comma-separated names; those forms are not modelled.
- Sibling orders are modelled as a map from entity id to order rather than as the loaded `IList`. The `touch` callback of `OrderManager` is kept as a sequence in call order; the inline copies record a set of stamped ids.
- SourceGuild's section and course repositories and helpers are taken to behave like NovillusPath's, where only NovillusPath's are available.
