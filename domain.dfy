/** Entities, the caller's identity and the service outcome shared by every part of the
    course-catalog model. Identifiers (GUIDs in the system) are opaque naturals. */
module Domain {

  type Id = nat

  datatype Option<T> = None | Some(value: T)

  /** The three publication states shared by courses, sections and lessons. */
  datatype Status = Draft | Published | Archived

  datatype Role = Admin | Instructor | Student

  /** The already-authenticated caller: an optional user id and the roles it holds. */
  datatype Principal = Principal(userId: Option<Id>, roles: set<Role>)

  /** What a service operation ends with, in place of the three service exceptions. */
  datatype Outcome<T> = Ok(value: T) | NotFound | Forbidden | BadRequest

  datatype Course = Course(instructorId: Id, title: string, status: Status, categories: set<Id>)

  /** A section (parent = its course) or a lesson (parent = its section): both carry a
      position among their siblings and a status. */
  datatype Child = Child(parent: Id, title: string, order: int, status: Status)

  type Section = Child
  type Lesson = Child

  datatype BlockKind = Text | Video | OtherKind(code: int)

  /** A content block as it arrives in a create request (the polymorphic DTO). */
  datatype BlockRequest = BlockRequest(kind: BlockKind, order: int, body: string)

  /** The two content-block entities. */
  datatype ContentBlock = TextContent(order: int, text: string) | VideoContent(order: int, url: string)

  datatype Enrollment = Enrollment(userId: Id, courseId: Id)

  /** A review; its rating is a byte in the source, checked to lie in 1..5 before it arrives. */
  datatype Review = Review(userId: Id, courseId: Id, rating: int, comment: Option<string>)

  function StatusName(s: Status): string {
    match s
    case Draft => "Draft"
    case Published => "Published"
    case Archived => "Archived"
  }

  function AsciiLower(c: char): char {
    if 'A' <= c <= 'Z' then (c as int + 32) as char else c
  }

  predicate EqualsIgnoreCase(a: string, b: string) {
    |a| == |b| && forall i :: 0 <= i < |a| ==> AsciiLower(a[i]) == AsciiLower(b[i])
  }

  predicate NameMatches(s: string, name: string, ignoreCase: bool) {
    if ignoreCase then EqualsIgnoreCase(s, name) else s == name
  }

  /** Parsing a status string by enum name, case-sensitively or not. */
  function ParseStatus(s: string, ignoreCase: bool): (r: Option<Status>)
    ensures r.Some? ==> NameMatches(s, StatusName(r.value), ignoreCase)
    ensures r.None? ==> forall st: Status :: !NameMatches(s, StatusName(st), ignoreCase)
  {
    if NameMatches(s, "Draft", ignoreCase) then Some(Draft)
    else if NameMatches(s, "Published", ignoreCase) then Some(Published)
    else if NameMatches(s, "Archived", ignoreCase) then Some(Archived)
    else None
  }

  /** Every status name parses back to its status, in either mode. */
  lemma ParseStatusName(st: Status, ignoreCase: bool)
    ensures ParseStatus(StatusName(st), ignoreCase) == Some(st)
  {
  }

  /** Case-insensitive parsing accepts every spelling that folds to a status name. */
  lemma ParseIgnoresCase(s: string, st: Status)
    requires EqualsIgnoreCase(s, StatusName(st))
    ensures ParseStatus(s, true) == Some(st)
  {
    ParseStatusName(st, true);
  }
}
