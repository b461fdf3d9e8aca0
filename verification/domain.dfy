/**
 * The records of the help-desk application: users, complaints and the partial
 * complaint update (`Partial<Complaint>`) that the client sends and the servers merge.
 * Timestamps are JavaScript time values: integer milliseconds since the epoch.
 */
module Domain {
  import opened Wrappers
  import opened Text

  datatype Role = Student | Department

  /** The string a role is stored and transmitted as. */
  function RoleName(r: Role): string {
    match r
    case Student => "student"
    case Department => "department"
  }

  datatype Status = Open | Closed | Reopened

  datatype Priority = Urgent | High | Medium | Low

  /** The department list, in the order of the servers' `DEPARTMENTS`. */
  const Departments: seq<string> :=
    ["Academic Support and Resources", "Financial Support", "IT", "Student Affairs"]

  /** No department is listed twice. */
  lemma DepartmentsDistinct()
    ensures forall i, j :: 0 <= i < j < |Departments| ==> Departments[i] != Departments[j]
  {
    assert Departments[0][0] == 'A' && Departments[1][0] == 'F' && Departments[2][0] == 'I' && Departments[3][0] == 'S';
  }

  const MsPerSecond: int := 1000
  const MsPerDay: int := 24 * 60 * 60 * 1000

  /** The range of JavaScript time values; `new Date(t)` is invalid outside it. */
  const MaxTimeValue: int := 8640000000000000

  predicate ValidTimeValue(t: int) {
    -MaxTimeValue <= t <= MaxTimeValue
  }

  /** `toISOString().slice(0, 19)`: the time value cut down to the whole second. */
  function WholeSecond(t: int): (r: int)
    ensures r % MsPerSecond == 0
    ensures r <= t < r + MsPerSecond
  {
    t - t % MsPerSecond
  }

  /** Shifting by whole seconds commutes with cutting down to the second. */
  lemma WholeSecondShift(t: int, k: int)
    requires k % MsPerSecond == 0
    ensures WholeSecond(t + k) == WholeSecond(t) + k
  {
    var q := k / MsPerSecond;
    assert k == MsPerSecond * q;
    assert (t + MsPerSecond * q) % MsPerSecond == t % MsPerSecond;
  }

  /** A row of the users table. `role` holds whatever string the signup request carried. */
  datatype User = User(
    id: string,
    name: string,
    email: string,
    password: string,
    role: string,
    major: Option<string>,
    departmentName: Option<string>,
    age: Option<int>)

  /** A user as the servers return it: every column except the password. */
  datatype PublicUser = PublicUser(
    id: string,
    name: string,
    email: string,
    role: string,
    major: Option<string>,
    departmentName: Option<string>,
    age: Option<int>)

  function WithoutPassword(u: User): (p: PublicUser)
    ensures p.id == u.id && p.name == u.name && p.email == u.email && p.role == u.role
    ensures p.major == u.major && p.departmentName == u.departmentName && p.age == u.age
  {
    PublicUser(u.id, u.name, u.email, u.role, u.major, u.departmentName, u.age)
  }

  /**
   * Whether two values of a text column are the same key for the database. The tables
   * use a case-insensitive collation (`utf8mb4_unicode_ci` on the bcrypt server, the
   * server's default `_ci` collation on the root one), so `WHERE email = ?`, the
   * primary keys and the UNIQUE e-mail index all ignore letter case.
   */
  predicate SameKey(a: string, b: string) {
    ToLower(a) == ToLower(b)
  }

  /** The users table's constraints: no two rows share an id (primary key) or an e-mail (UNIQUE), as keys. */
  predicate UserKeysDistinct(users: seq<User>) {
    forall i, j :: 0 <= i < j < |users| ==>
      !SameKey(users[i].id, users[j].id) && !SameKey(users[i].email, users[j].email)
  }

  /** Keys that are equal as strings are the same key, and a value is the same key as its lower-cased form. */
  lemma SameKeyLaws(a: string, b: string)
    ensures a == b ==> SameKey(a, b)
    ensures SameKey(a, ToLower(a)) && SameKey(ToLower(a), a)
    ensures SameKey(a, b) <==> SameKey(ToLower(a), ToLower(b))
  {
    LowerIdempotent(a);
    LowerIdempotent(b);
  }

  predicate IsStudentUser(u: PublicUser) {
    u.role == RoleName(Student)
  }

  predicate IsDepartmentUser(u: PublicUser) {
    u.role == RoleName(Department)
  }

  datatype Complaint = Complaint(
    id: string,
    studentId: string,
    studentName: string,
    department: string,
    complaintText: string,
    status: Status,
    priority: Priority,
    createdAt: int,
    resolvedAt: Option<int>,
    solutionText: string,
    aiRecommendation: string)

  /**
   * A partial complaint update. A field that is `None` is absent from the request
   * body; `resolvedAt: Some(None)` is an explicit `null`.
   */
  datatype Patch = Patch(
    studentId: Option<string>,
    studentName: Option<string>,
    department: Option<string>,
    complaintText: Option<string>,
    status: Option<Status>,
    priority: Option<Priority>,
    createdAt: Option<int>,
    resolvedAt: Option<Option<int>>,
    solutionText: Option<string>,
    aiRecommendation: Option<string>)

  const NoChange: Patch := Patch(None, None, None, None, None, None, None, None, None, None)

  /** No field is present: the request body is `{}`. */
  predicate IsEmptyPatch(p: Patch) {
    p == NoChange
  }

  /** `UPDATE complaints SET <fields of p>`: present fields overwrite, absent ones stay. */
  function Merge(c: Complaint, p: Patch): (r: Complaint)
    ensures r.id == c.id
    ensures r.studentId == (if p.studentId.Some? then p.studentId.value else c.studentId)
    ensures r.studentName == (if p.studentName.Some? then p.studentName.value else c.studentName)
    ensures r.department == (if p.department.Some? then p.department.value else c.department)
    ensures r.complaintText == (if p.complaintText.Some? then p.complaintText.value else c.complaintText)
    ensures r.status == (if p.status.Some? then p.status.value else c.status)
    ensures r.priority == (if p.priority.Some? then p.priority.value else c.priority)
    ensures r.createdAt == (if p.createdAt.Some? then p.createdAt.value else c.createdAt)
    ensures r.resolvedAt == (if p.resolvedAt.Some? then p.resolvedAt.value else c.resolvedAt)
    ensures r.solutionText == (if p.solutionText.Some? then p.solutionText.value else c.solutionText)
    ensures r.aiRecommendation == (if p.aiRecommendation.Some? then p.aiRecommendation.value else c.aiRecommendation)
    ensures IsEmptyPatch(p) ==> r == c
  {
    Complaint(
      c.id,
      p.studentId.GetOr(c.studentId),
      p.studentName.GetOr(c.studentName),
      p.department.GetOr(c.department),
      p.complaintText.GetOr(c.complaintText),
      p.status.GetOr(c.status),
      p.priority.GetOr(c.priority),
      p.createdAt.GetOr(c.createdAt),
      p.resolvedAt.GetOr(c.resolvedAt),
      p.solutionText.GetOr(c.solutionText),
      p.aiRecommendation.GetOr(c.aiRecommendation))
  }
}
