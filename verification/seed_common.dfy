/**
 * What the two seeders (`server/database.js` and the root `database.js`) have in
 * common: the cells of a CSV line, the row the complaints table receives, status
 * normalisation, the users derived from the student ids, the id-to-name map, and the
 * "first row per ticket wins" loop that aborts when a date cannot be rendered.
 */
module SeedData {
  import opened Wrappers
  import opened Text
  import opened Domain
  import Dedup

  /** The columns both seeders read from a CSV line, each trimmed. */
  datatype CsvRecord = CsvRecord(
    ticketId: string,
    studentId: string,
    category: string,
    complaintText: string,
    priority: string,
    status: string,
    dateSubmitted: string)

  /**
   * The cells of the free-text column: everything between the third cell and the fifth
   * cell from the end, empty when those overlap.
   */
  function TextCells(parts: seq<string>): (r: seq<string>)
    requires |parts| >= 7
    ensures |parts| <= 8 ==> r == []
    ensures |parts| > 8 ==> parts == parts[..3] + r + parts[|parts| - 5..]
  {
    var n := |parts|;
    if n - 5 <= 3 then [] else parts[3..n - 5]
  }

  /**
   * The columns of a line of at least seven comma-separated cells: the first three
   * from the front, date/status/priority from the back, and the text in between with
   * every double quote removed.
   */
  function Cells(parts: seq<string>): (r: CsvRecord)
    requires |parts| >= 7
    ensures r.ticketId == Trim(parts[0]) && r.studentId == Trim(parts[1]) && r.category == Trim(parts[2])
    ensures r.dateSubmitted == Trim(parts[|parts| - 3]) && r.status == Trim(parts[|parts| - 4])
    ensures r.priority == Trim(parts[|parts| - 5])
    ensures '"' !in r.complaintText && Trimmed(r.complaintText)
  {
    var n := |parts|;
    var text := RemoveAll(Join(TextCells(parts), ','), '"');
    TrimAvoids(text, '"');
    CsvRecord(Trim(parts[0]), Trim(parts[1]), Trim(parts[2]), Trim(text),
              Trim(parts[n - 5]), Trim(parts[n - 4]), Trim(parts[n - 3]))
  }

  /** A row for the complaints table. `priority` keeps the CSV text as it is. */
  datatype SeedComplaint = SeedComplaint(
    id: string,
    studentId: string,
    studentName: string,
    department: string,
    complaintText: string,
    status: Status,
    priority: string,
    createdAt: int,
    resolvedAt: Option<int>,
    solutionText: string,
    aiRecommendation: string)

  /**
   * What a line that passes every check contributes under its ticket id: a row, or an
   * abort of the whole seed because `toISOString` throws on the date it computed.
   */
  datatype Entry = Accept(row: SeedComplaint) | Abort(ticket: string)

  function EntryTicket(e: Entry): string {
    match e
    case Accept(c) => c.id
    case Abort(t) => t
  }

  /**
   * Why a seed stops: a line without a student column (root seeder), a date that cannot
   * be rendered, or a bulk insert that the users' or the complaints' keys reject.
   */
  datatype SeedError = NoStudentColumn | InvalidDate(ticket: string) | DuplicateUser | DuplicateTicket

  const SeedPassword: string := "password"
  const ResolvedSolution: string := "The issue has been addressed and resolved by our team."
  const StaffAdvice: string := "Review the student's issue and provide a detailed update or solution."
  /** Closed seed rows are resolved three days after they were submitted. */
  const ResolutionDelay: int := 3 * MsPerDay

  /** The CSV status mapped onto the three statuses: Resolved and Closed close, Reopened reopens, anything else is Open. */
  function NormaliseStatus(s: string): (r: Status)
    ensures r == Closed <==> (s == "Resolved" || s == "Closed")
    ensures r == Reopened <==> s == "Reopened"
  {
    if s == "Resolved" || s == "Closed" then Closed
    else if s == "Reopened" then Reopened
    else Open
  }

  /** The root seeder's version, with its explicit "In Progress" branch: the same mapping. */
  function NormaliseStatusRoot(s: string): (r: Status)
    ensures r == NormaliseStatus(s)
    ensures s == "In Progress" ==> r == Open
  {
    if s == "Resolved" || s == "Closed" then Closed
    else if s == "Reopened" then Reopened
    else if s == "In Progress" then Open
    else Open
  }

  // ---------------------------------------------------------------- users

  predicate IsStudentId(id: string) {
    id != "" && StartsWith(id, "S")
  }

  function Identity(s: string): string { s }

  function StudentCandidates(ids: seq<string>): (r: seq<string>)
    ensures forall k :: 0 <= k < |r| ==> IsStudentId(r[k])
    ensures forall id :: id in r <==> id in ids && IsStudentId(id)
  {
    if ids == [] then []
    else if IsStudentId(ids[0]) then [ids[0]] + StudentCandidates(ids[1..])
    else StudentCandidates(ids[1..])
  }

  /** The non-empty ids that start with `S`, each once, in first-seen order. */
  function StudentIds(ids: seq<string>): (r: seq<string>)
    ensures forall k :: 0 <= k < |r| ==> IsStudentId(r[k])
    ensures forall i, j :: 0 <= i < j < |r| ==> r[i] != r[j]
    ensures forall id :: id in r <==> id in ids && IsStudentId(id)
  {
    var c := StudentCandidates(ids);
    var r := Dedup.KeepFirst(c, Identity);
    assert forall id :: id in r <==> id in c by {
      forall id ensures id in r <==> id in c {
        if id in r {
          var k :| 0 <= k < |r| && r[k] == id;
          assert Identity(r[k]) in Dedup.KeysOf(r, Identity);
        }
        if id in c {
          var k :| 0 <= k < |c| && c[k] == id;
          assert Identity(c[k]) in Dedup.KeysOf(c, Identity);
          var k' :| 0 <= k' < |r| && Identity(r[k']) == id;
        }
      }
    }
    assert forall i, j :: 0 <= i < j < |r| ==> Identity(r[i]) != Identity(r[j]);
    r
  }

  /** The digits of a student id: the id without its first `S` (a one-shot replace of the letter). */
  function IdDigits(id: string): string {
    RemoveFirst(id, 'S')
  }

  /** The parts of a student address around the digits. */
  const AddressPrefix: string := "student"
  const AddressDomain: string := "@university.edu"

  /** Both parts are already lower case; the prefix has seven letters and begins with `s`. */
  lemma AddressPartsLower()
    ensures ToLower(AddressPrefix) == AddressPrefix && ToLower(AddressDomain) == AddressDomain
    ensures |AddressPrefix| == 7 && AddressPrefix[0] == 's'
  {
  }

  function StudentAddress(digits: string): string {
    AddressPrefix + digits + AddressDomain
  }

  /** The first student's address, "student@university.edu": the address pattern with no digits. */
  const FirstStudentEmail: string := StudentAddress("")

  lemma FirstStudentEmailLiteral()
    ensures FirstStudentEmail == "student@university.edu"
  {
    assert AddressPrefix + "" == AddressPrefix;
  }

  function StudentEmail(id: string, index: nat): string {
    if index == 0 then FirstStudentEmail else StudentAddress(IdDigits(id))
  }

  /** The student at position `index` of the derived id list; ages 20 to 24 in turn where the schema has an age column. */
  function StudentUser(id: string, index: nat, password: string, withAge: bool): (u: User)
    ensures u.id == id && u.role == "student" && u.password == password
    ensures u.email == StudentEmail(id, index)
    ensures withAge ==> u.age.Some? && 20 <= u.age.value <= 24
    ensures !withAge ==> u.age.None?
  {
    User(id, "Student " + IdDigits(id), StudentEmail(id, index), password, "student",
         Some("Computer Science"), None, if withAge then Some(20 + index % 5) else None)
  }

  /** The ids of the department accounts, in the order of the department list. */
  const DepartmentIds: seq<string> := ["user_dept_asr", "user_dept_fs", "user_dept_it", "user_dept_sa"]

  /** Their e-mail addresses, in the same order. */
  const DepartmentEmails: seq<string> :=
    ["eleanor@university.edu", "ben@university.edu", "chloe@university.edu", "david@university.edu"]

  /** The four department accounts, one per department, in the order of the department list. */
  function DepartmentUsers(password: string, withAges: bool): (r: seq<User>)
    ensures |r| == |Departments|
    ensures forall k :: 0 <= k < |r| ==>
              r[k].role == "department" && r[k].departmentName == Some(Departments[k]) && r[k].password == password
    ensures forall k :: 0 <= k < |r| ==> r[k].id == DepartmentIds[k] && r[k].email == DepartmentEmails[k]
  {
    [ User(DepartmentIds[0], "Dr. Eleanor Vance", DepartmentEmails[0], password, "department", None,
           Some(Departments[0]), if withAges then Some(45) else None),
      User(DepartmentIds[1], "Mr. Benjamin Carter", DepartmentEmails[1], password, "department", None,
           Some(Departments[1]), if withAges then Some(52) else None),
      User(DepartmentIds[2], "Ms. Chloe Davis", DepartmentEmails[2], password, "department", None,
           Some(Departments[2]), if withAges then Some(38) else None),
      User(DepartmentIds[3], "Mr. David Chen", DepartmentEmails[3], password, "department", None,
           Some(Departments[3]), if withAges then Some(41) else None) ]
  }

  /** The department accounts have distinct ids and e-mails, none of which looks like a student's. */
  lemma DepartmentAccountsDistinct(password: string, withAges: bool)
    ensures var r := DepartmentUsers(password, withAges);
            && (forall k :: 0 <= k < |r| ==> !IsStudentId(r[k].id))
            && (forall i, j :: 0 <= i < j < |r| ==> r[i].id != r[j].id)
  {
    DepartmentKeysDistinct();
  }

  /**
   * As keys of the collation, the department ids begin with `u` and the department
   * e-mails with a letter other than `s`, and no two of either are the same key.
   */
  lemma DepartmentKeysDistinct()
    ensures forall k :: 0 <= k < 4 ==> !IsStudentId(DepartmentIds[k]) && DepartmentIds[k] != [] && ToLower(DepartmentIds[k])[0] == 'u'
    ensures forall k :: 0 <= k < 4 ==> DepartmentEmails[k] != [] && ToLower(DepartmentEmails[k])[0] != 's'
    ensures forall i, j :: 0 <= i < j < 4 ==>
              !SameKey(DepartmentIds[i], DepartmentIds[j]) && !SameKey(DepartmentEmails[i], DepartmentEmails[j])
  {
    DepartmentIdKeys();
    DepartmentEmailKeys();
  }

  lemma DepartmentIdKeys()
    ensures forall k :: 0 <= k < 4 ==> !IsStudentId(DepartmentIds[k]) && DepartmentIds[k] != [] && ToLower(DepartmentIds[k])[0] == 'u'
    ensures forall i, j :: 0 <= i < j < 4 ==> !SameKey(DepartmentIds[i], DepartmentIds[j])
  {
    assert DepartmentIds[0][10] == 'a' && DepartmentIds[1][10] == 'f' && DepartmentIds[2][10] == 'i' && DepartmentIds[3][10] == 's';
    forall k | 0 <= k < 4 ensures !IsStudentId(DepartmentIds[k]) && ToLower(DepartmentIds[k])[0] == 'u' {
      assert DepartmentIds[k][0] == 'u';
    }
    forall i, j | 0 <= i < j < 4 ensures !SameKey(DepartmentIds[i], DepartmentIds[j]) {
      assert ToLower(DepartmentIds[i])[10] != ToLower(DepartmentIds[j])[10];
    }
  }

  lemma DepartmentEmailKeys()
    ensures forall k :: 0 <= k < 4 ==> DepartmentEmails[k] != [] && ToLower(DepartmentEmails[k])[0] != 's'
    ensures forall i, j :: 0 <= i < j < 4 ==> !SameKey(DepartmentEmails[i], DepartmentEmails[j])
  {
    assert DepartmentEmails[0][0] == 'e' && DepartmentEmails[1][0] == 'b' && DepartmentEmails[2][0] == 'c' && DepartmentEmails[3][0] == 'd';
    forall i, j | 0 <= i < j < 4 ensures !SameKey(DepartmentEmails[i], DepartmentEmails[j]) {
      assert ToLower(DepartmentEmails[i])[0] != ToLower(DepartmentEmails[j])[0];
    }
  }

  /** One student account per id, in order, numbering from `start`. */
  function StudentUsers(studentIds: seq<string>, start: nat, password: string, withAges: bool): (r: seq<User>)
    ensures |r| == |studentIds|
    ensures forall k :: 0 <= k < |r| ==> r[k] == StudentUser(studentIds[k], start + k, password, withAges)
  {
    if studentIds == [] then []
    else [StudentUser(studentIds[0], start, password, withAges)] + StudentUsers(studentIds[1..], start + 1, password, withAges)
  }

  /** The department accounts followed by the student accounts. */
  function SeedUsers(studentIds: seq<string>, password: string, withAges: bool): (r: seq<User>)
    ensures |r| == |Departments| + |studentIds|
    ensures r[..|Departments|] == DepartmentUsers(password, withAges)
    ensures forall k :: |Departments| <= k < |r| ==>
              r[k] == StudentUser(studentIds[k - |Departments|], k - |Departments|, password, withAges)
  {
    var depts := DepartmentUsers(password, withAges);
    var r := depts + StudentUsers(studentIds, 0, password, withAges);
    assert r[..|depts|] == depts;
    r
  }

  /** The id the seeded user at position `k` gets: a department's, then the students' in order. */
  function SeedId(studentIds: seq<string>, k: int): string
    requires 0 <= k < |Departments| + |studentIds|
  {
    if k < |Departments| then DepartmentIds[k] else studentIds[k - |Departments|]
  }

  /** The e-mail the seeded user at position `k` gets: a department's, then the students' in order. */
  function SeedEmail(studentIds: seq<string>, k: int): string
    requires 0 <= k < |Departments| + |studentIds|
  {
    if k < |Departments| then DepartmentEmails[k]
    else if k == |Departments| then FirstStudentEmail
    else StudentAddress(IdDigits(studentIds[k - |Departments|]))
  }

  /** The id and the e-mail of the seeded user at position `k`. */
  lemma SeedUserAt(studentIds: seq<string>, password: string, withAges: bool, k: int)
    requires 0 <= k < |Departments| + |studentIds|
    ensures SeedUsers(studentIds, password, withAges)[k].id == SeedId(studentIds, k)
    ensures SeedUsers(studentIds, password, withAges)[k].email == SeedEmail(studentIds, k)
  {
    var r := SeedUsers(studentIds, password, withAges);
    if k < |Departments| {
      assert r[k] == r[..|Departments|][k];
    }
  }

  /**
   * The seeded ids are never equal as strings (needed for the id-to-name map): the
   * student ids are distinct, and department ids never look like student ids.
   */
  lemma SeedUserIdsUnequal(studentIds: seq<string>, password: string, withAges: bool)
    requires forall k :: 0 <= k < |studentIds| ==> IsStudentId(studentIds[k])
    requires forall i, j :: 0 <= i < j < |studentIds| ==> studentIds[i] != studentIds[j]
    ensures var r := SeedUsers(studentIds, password, withAges);
            forall i, j :: 0 <= i < j < |r| ==> r[i].id != r[j].id
  {
    var depts := DepartmentUsers(password, withAges);
    var students := StudentUsers(studentIds, 0, password, withAges);
    DepartmentAccountsDistinct(password, withAges);
    assert SeedUsers(studentIds, password, withAges) == depts + students;
    DistinctIdsConcat(depts, students);
  }

  /** Department ids and student ids cannot clash, so the joined list keeps distinct ids. */
  lemma DistinctIdsConcat(depts: seq<User>, students: seq<User>)
    requires forall i, j :: 0 <= i < j < |depts| ==> depts[i].id != depts[j].id
    requires forall k :: 0 <= k < |depts| ==> !IsStudentId(depts[k].id)
    requires forall k :: 0 <= k < |students| ==> IsStudentId(students[k].id)
    requires forall i, j :: 0 <= i < j < |students| ==> students[i].id != students[j].id
    ensures var r := depts + students; forall i, j :: 0 <= i < j < |r| ==> r[i].id != r[j].id
  {
    var r := depts + students;
    forall i, j | 0 <= i < j < |r| ensures r[i].id != r[j].id {
      if j < |depts| {
        assert r[i] == depts[i] && r[j] == depts[j];
      } else if i < |depts| {
        assert r[i] == depts[i] && r[j] == students[j - |depts|];
      } else {
        assert r[i] == students[i - |depts|] && r[j] == students[j - |depts|];
      }
    }
  }

  /** No two student ids are the same key of the collation. */
  predicate StudentKeysDistinct(ids: seq<string>) {
    forall i, j :: 0 <= i < j < |ids| ==> !SameKey(ids[i], ids[j])
  }

  /** No student after the first has the bare id "S", whose address would be the first student's. */
  predicate NoLaterBareId(ids: seq<string>) {
    forall k :: 1 <= k < |ids| ==> ids[k] != "S"
  }

  /** Two student addresses are equal only for equal digits. */
  lemma StudentEmailInjective(a: string, b: string)
    requires StudentAddress(a) == StudentAddress(b)
    ensures a == b
  {
    var x := StudentAddress(a);
    var y := StudentAddress(b);
    assert |a| == |b|;
    assert a == x[7..7 + |a|];
    assert b == y[7..7 + |b|];
  }

  /** A student id lower-cases to `s` followed by its lower-cased digits. */
  lemma StudentIdLower(id: string)
    requires IsStudentId(id)
    ensures IdDigits(id) == id[1..]
    ensures ToLower(id) == "s" + ToLower(id[1..])
  {
    assert id == "S" + id[1..];
    LowerConcat("S", id[1..]);
  }

  /** Two student ids are the same key exactly when their digits are. */
  lemma StudentIdKeys(a: string, b: string)
    requires IsStudentId(a) && IsStudentId(b)
    ensures SameKey(a, b) <==> SameKey(IdDigits(a), IdDigits(b))
  {
    StudentIdLower(a);
    StudentIdLower(b);
    if SameKey(a, b) {
      assert ToLower(a)[1..] == ToLower(b)[1..];
    }
  }

  /** Two student addresses are the same key exactly when their digits are. */
  lemma AddressKeys(a: string, b: string)
    ensures SameKey(StudentAddress(a), StudentAddress(b)) <==> SameKey(a, b)
  {
    AddressPartsLower();
    LowerConcat(AddressPrefix, a);
    LowerConcat(AddressPrefix + a, AddressDomain);
    LowerConcat(AddressPrefix, b);
    LowerConcat(AddressPrefix + b, AddressDomain);
    assert ToLower(StudentAddress(a)) == StudentAddress(ToLower(a));
    assert ToLower(StudentAddress(b)) == StudentAddress(ToLower(b));
    if SameKey(StudentAddress(a), StudentAddress(b)) {
      StudentEmailInjective(ToLower(a), ToLower(b));
    }
  }

  /**
   * The addresses of the students at positions `i < j` are the same key exactly when
   * the first is position 0 and the other's id is the bare "S", or neither is position
   * 0 and the ids are the same key.
   */
  lemma StudentEmailKeys(a: string, i: nat, b: string, j: nat)
    requires IsStudentId(a) && IsStudentId(b) && i < j
    ensures SameKey(StudentEmail(a, i), StudentEmail(b, j)) <==> if i == 0 then b == "S" else SameKey(a, b)
  {
    StudentIdLower(b);
    if i == 0 {
      AddressKeys("", IdDigits(b));
      assert b == "S" <==> b[1..] == "" by {
        assert b == "S" + b[1..];
      }
    } else {
      AddressKeys(IdDigits(a), IdDigits(b));
      StudentIdKeys(a, b);
    }
  }

  /** Under distinct student keys, the seeded ids at positions `i < j` are different keys. */
  lemma IdKeysApart(studentIds: seq<string>, i: int, j: int)
    requires forall k :: 0 <= k < |studentIds| ==> IsStudentId(studentIds[k])
    requires StudentKeysDistinct(studentIds)
    requires 0 <= i < j < |Departments| + |studentIds|
    ensures !SameKey(SeedId(studentIds, i), SeedId(studentIds, j))
  {
    var n := |Departments|;
    DepartmentKeysDistinct();
    if i < n && n <= j {
      StudentIdLower(studentIds[j - n]);
      assert ToLower(SeedId(studentIds, i))[0] != ToLower(SeedId(studentIds, j))[0];
    }
  }

  /** Under distinct student keys, the seeded users at positions `i < j` have different id keys. */
  lemma SeedIdPair(studentIds: seq<string>, password: string, withAges: bool, i: int, j: int)
    requires forall k :: 0 <= k < |studentIds| ==> IsStudentId(studentIds[k])
    requires StudentKeysDistinct(studentIds)
    requires 0 <= i < j < |Departments| + |studentIds|
    ensures !SameKey(SeedUsers(studentIds, password, withAges)[i].id, SeedUsers(studentIds, password, withAges)[j].id)
  {
    SeedUserAt(studentIds, password, withAges, i);
    SeedUserAt(studentIds, password, withAges, j);
    IdKeysApart(studentIds, i, j);
  }

  /** Students whose ids are the same key become seeded users with the same id key. */
  lemma SeedIdClash(studentIds: seq<string>, password: string, withAges: bool, i: int, j: int)
    requires 0 <= i < j < |studentIds| && SameKey(studentIds[i], studentIds[j])
    ensures var n := |Departments|;
            SameKey(SeedUsers(studentIds, password, withAges)[n + i].id, SeedUsers(studentIds, password, withAges)[n + j].id)
  {
    var n := |Departments|;
    SeedUserAt(studentIds, password, withAges, n + i);
    SeedUserAt(studentIds, password, withAges, n + j);
  }

  lemma SeedIdsAllApart(studentIds: seq<string>, password: string, withAges: bool)
    requires forall k :: 0 <= k < |studentIds| ==> IsStudentId(studentIds[k])
    requires StudentKeysDistinct(studentIds)
    ensures var r := SeedUsers(studentIds, password, withAges);
            forall i, j :: 0 <= i < j < |r| ==> !SameKey(r[i].id, r[j].id)
  {
    var r := SeedUsers(studentIds, password, withAges);
    forall i, j | 0 <= i < j < |r| ensures !SameKey(r[i].id, r[j].id) {
      SeedIdPair(studentIds, password, withAges, i, j);
    }
  }

  lemma SeedIdsSomeClash(studentIds: seq<string>, password: string, withAges: bool)
    requires !StudentKeysDistinct(studentIds)
    ensures var r := SeedUsers(studentIds, password, withAges);
            exists i, j :: 0 <= i < j < |r| && SameKey(r[i].id, r[j].id)
  {
    var i, j :| 0 <= i < j < |studentIds| && SameKey(studentIds[i], studentIds[j]);
    SeedIdClash(studentIds, password, withAges, i, j);
  }

  /**
   * The seeded ids satisfy the users table's primary key, under the case-insensitive
   * collation, exactly when no two student ids are the same key: department ids begin
   * with `u` and student ids with `S`, so they never meet.
   */
  lemma SeedUserIdsDistinct(studentIds: seq<string>, password: string, withAges: bool)
    requires forall k :: 0 <= k < |studentIds| ==> IsStudentId(studentIds[k])
    ensures var r := SeedUsers(studentIds, password, withAges);
            (forall i, j :: 0 <= i < j < |r| ==> !SameKey(r[i].id, r[j].id)) <==> StudentKeysDistinct(studentIds)
  {
    if StudentKeysDistinct(studentIds) {
      SeedIdsAllApart(studentIds, password, withAges);
    } else {
      SeedIdsSomeClash(studentIds, password, withAges);
    }
  }

  /** The condition under which the seeded e-mails are distinct keys (see `SeedEmailsDistinct`). */
  predicate EmailsApartCondition(studentIds: seq<string>) {
    NoLaterBareId(studentIds) && forall i, j :: 1 <= i < j < |studentIds| ==> !SameKey(studentIds[i], studentIds[j])
  }

  /** Every student address begins with `s`, in either case. */
  lemma StudentEmailInitial(id: string, index: nat)
    ensures StudentEmail(id, index) != [] && ToLower(StudentEmail(id, index))[0] == 's'
  {
    var digits := if index == 0 then "" else IdDigits(id);
    assert StudentEmail(id, index) == StudentAddress(digits);
    AddressPartsLower();
    assert StudentAddress(digits)[0] == 's';
  }

  /** The first student's seeded e-mail and a later student's are different keys. */
  lemma SeedFirstEmailApart(studentIds: seq<string>, j: int)
    requires forall k :: 0 <= k < |studentIds| ==> IsStudentId(studentIds[k])
    requires NoLaterBareId(studentIds)
    requires |Departments| < j < |Departments| + |studentIds|
    ensures !SameKey(SeedEmail(studentIds, |Departments|), SeedEmail(studentIds, j))
  {
    FirstEmailApart(studentIds, j - |Departments|);
  }

  /** Two later students' seeded e-mails are different keys when their ids are. */
  lemma SeedLaterEmailsApart(studentIds: seq<string>, i: int, j: int)
    requires |Departments| < i < j < |Departments| + |studentIds|
    requires IsStudentId(studentIds[i - |Departments|]) && IsStudentId(studentIds[j - |Departments|])
    requires !SameKey(studentIds[i - |Departments|], studentIds[j - |Departments|])
    ensures !SameKey(SeedEmail(studentIds, i), SeedEmail(studentIds, j))
  {
    LaterEmailsApart(studentIds[i - |Departments|], studentIds[j - |Departments|]);
  }

  /** No two department e-mails are the same key. */
  lemma DepartmentEmailsApart(studentIds: seq<string>, i: int, j: int)
    requires 0 <= i < j < |Departments|
    ensures !SameKey(SeedEmail(studentIds, i), SeedEmail(studentIds, j))
  {
    DepartmentKeysDistinct();
  }

  /** A department's e-mail and a student's are never the same key. */
  lemma DepartmentStudentEmailsApart(studentIds: seq<string>, i: int, j: int)
    requires 0 <= i < |Departments| <= j < |Departments| + |studentIds|
    ensures !SameKey(SeedEmail(studentIds, i), SeedEmail(studentIds, j))
  {
    DepartmentKeysDistinct();
    StudentEmailInitial(studentIds[j - |Departments|], j - |Departments|);
  }

  /** The first student's address and a later student's are different keys unless the later id is the bare "S". */
  lemma FirstEmailApart(studentIds: seq<string>, j: int)
    requires forall k :: 0 <= k < |studentIds| ==> IsStudentId(studentIds[k])
    requires NoLaterBareId(studentIds)
    requires 1 <= j < |studentIds|
    ensures !SameKey(FirstStudentEmail, StudentAddress(IdDigits(studentIds[j])))
  {
    var b := studentIds[j];
    StudentIdLower(b);
    AddressKeys("", IdDigits(b));
    assert b == "S" + b[1..];
  }

  /** Two later students' addresses are different keys when their ids are. */
  lemma LaterEmailsApart(a: string, b: string)
    requires IsStudentId(a) && IsStudentId(b) && !SameKey(a, b)
    ensures !SameKey(StudentAddress(IdDigits(a)), StudentAddress(IdDigits(b)))
  {
    StudentIdKeys(a, b);
    AddressKeys(IdDigits(a), IdDigits(b));
  }

  /** Under that condition, the seeded e-mails at positions `i < j` are different keys. */
  lemma EmailKeysApart(studentIds: seq<string>, i: int, j: int)
    requires forall k :: 0 <= k < |studentIds| ==> IsStudentId(studentIds[k])
    requires EmailsApartCondition(studentIds)
    requires 0 <= i < j < |Departments| + |studentIds|
    ensures !SameKey(SeedEmail(studentIds, i), SeedEmail(studentIds, j))
  {
    var n := |Departments|;
    if j < n {
      DepartmentEmailsApart(studentIds, i, j);
    } else if i < n {
      DepartmentStudentEmailsApart(studentIds, i, j);
    } else if i == n {
      SeedFirstEmailApart(studentIds, j);
    } else {
      SeedLaterEmailsApart(studentIds, i, j);
    }
  }

  /** Under the condition, the seeded users at positions `i < j` have different e-mail keys. */
  lemma SeedEmailPair(studentIds: seq<string>, password: string, withAges: bool, i: int, j: int)
    requires forall k :: 0 <= k < |studentIds| ==> IsStudentId(studentIds[k])
    requires EmailsApartCondition(studentIds)
    requires 0 <= i < j < |Departments| + |studentIds|
    ensures !SameKey(SeedUsers(studentIds, password, withAges)[i].email, SeedUsers(studentIds, password, withAges)[j].email)
  {
    SeedUserAt(studentIds, password, withAges, i);
    SeedUserAt(studentIds, password, withAges, j);
    EmailKeysApart(studentIds, i, j);
  }

  /** Students at positions `i < j` whose addresses are the same key give seeded users with the same e-mail key. */
  lemma SeedEmailClash(studentIds: seq<string>, password: string, withAges: bool, i: int, j: int)
    requires forall k :: 0 <= k < |studentIds| ==> IsStudentId(studentIds[k])
    requires 0 <= i < j < |studentIds|
    requires if i == 0 then studentIds[j] == "S" else SameKey(studentIds[i], studentIds[j])
    ensures var n := |Departments|;
            SameKey(SeedUsers(studentIds, password, withAges)[n + i].email, SeedUsers(studentIds, password, withAges)[n + j].email)
  {
    var n := |Departments|;
    StudentEmailKeys(studentIds[i], i, studentIds[j], j);
    SeedUserAt(studentIds, password, withAges, n + i);
    SeedUserAt(studentIds, password, withAges, n + j);
  }

  lemma SeedEmailsAllApart(studentIds: seq<string>, password: string, withAges: bool)
    requires forall k :: 0 <= k < |studentIds| ==> IsStudentId(studentIds[k])
    requires EmailsApartCondition(studentIds)
    ensures var r := SeedUsers(studentIds, password, withAges);
            forall i, j :: 0 <= i < j < |r| ==> !SameKey(r[i].email, r[j].email)
  {
    var r := SeedUsers(studentIds, password, withAges);
    forall i, j | 0 <= i < j < |r| ensures !SameKey(r[i].email, r[j].email) {
      SeedEmailPair(studentIds, password, withAges, i, j);
    }
  }

  lemma SeedEmailsSomeClash(studentIds: seq<string>, password: string, withAges: bool)
    requires forall k :: 0 <= k < |studentIds| ==> IsStudentId(studentIds[k])
    requires !EmailsApartCondition(studentIds)
    ensures var r := SeedUsers(studentIds, password, withAges);
            exists i, j :: 0 <= i < j < |r| && SameKey(r[i].email, r[j].email)
  {
    if !NoLaterBareId(studentIds) {
      var k :| 1 <= k < |studentIds| && studentIds[k] == "S";
      SeedEmailClash(studentIds, password, withAges, 0, k);
    } else {
      var i, j :| 1 <= i < j < |studentIds| && SameKey(studentIds[i], studentIds[j]);
      SeedEmailClash(studentIds, password, withAges, i, j);
    }
  }

  /**
   * The seeded e-mails satisfy the UNIQUE index of the users table, under the
   * case-insensitive collation, exactly when no student after the first has the bare id
   * "S" (whose address would be the first student's) and no two students after the
   * first have ids that are the same key (whose addresses would differ only in case).
   */
  lemma SeedEmailsDistinct(studentIds: seq<string>, password: string, withAges: bool)
    requires forall k :: 0 <= k < |studentIds| ==> IsStudentId(studentIds[k])
    ensures var r := SeedUsers(studentIds, password, withAges);
            (forall i, j :: 0 <= i < j < |r| ==> !SameKey(r[i].email, r[j].email)) <==>
            (NoLaterBareId(studentIds) && forall i, j :: 1 <= i < j < |studentIds| ==> !SameKey(studentIds[i], studentIds[j]))
  {
    if EmailsApartCondition(studentIds) {
      SeedEmailsAllApart(studentIds, password, withAges);
    } else {
      SeedEmailsSomeClash(studentIds, password, withAges);
    }
  }

  /**
   * The bulk insert of the seeded users passes both keys of the table exactly when no
   * two student ids are the same key and no later student has the bare id "S".
   */
  lemma SeedUsersInsertable(studentIds: seq<string>, password: string, withAges: bool)
    requires forall k :: 0 <= k < |studentIds| ==> IsStudentId(studentIds[k])
    ensures UserKeysDistinct(SeedUsers(studentIds, password, withAges)) <==>
            StudentKeysDistinct(studentIds) && NoLaterBareId(studentIds)
  {
    SeedUserIdsDistinct(studentIds, password, withAges);
    SeedEmailsDistinct(studentIds, password, withAges);
  }

  /** A later student with the bare id "S" is given the first student's address. */
  lemma SeedEmailsClash(studentIds: seq<string>, password: string, withAges: bool, k: int)
    requires forall k :: 0 <= k < |studentIds| ==> IsStudentId(studentIds[k])
    requires 1 <= k < |studentIds| && studentIds[k] == "S"
    ensures var r := SeedUsers(studentIds, password, withAges);
            r[|Departments|].email == r[|Departments| + k].email
  {
    assert IdDigits("S") == "";
  }

  /** No two kept rows' ticket ids are the same key: the complaints table's primary key accepts the bulk insert. */
  predicate TicketKeysDistinct(rows: seq<SeedComplaint>) {
    forall i, j :: 0 <= i < j < |rows| ==> !SameKey(rows[i].id, rows[j].id)
  }

  function UserIds(users: seq<User>): set<string> {
    set k | 0 <= k < |users| :: users[k].id
  }

  lemma UserIdsSnoc(users: seq<User>, u: User)
    ensures UserIds(users + [u]) == UserIds(users) + {u.id}
  {
    var all := users + [u];
    forall id | id in UserIds(all) ensures id in UserIds(users) + {u.id} {
      var k :| 0 <= k < |all| && all[k].id == id;
      if k < |users| { assert users[k].id == id; }
    }
    forall id | id in UserIds(users) ensures id in UserIds(all) {
      var k :| 0 <= k < |users| && users[k].id == id;
      assert all[k].id == id;
    }
    assert all[|users|].id == u.id;
  }

  /** No later user has the id of `users[k]`. */
  predicate LastWithId(users: seq<User>, k: int)
    requires 0 <= k < |users|
  {
    forall j :: k < j < |users| ==> users[j].id != users[k].id
  }

  /**
   * The map from id to name built from the users in order: every id maps to the name of the LAST
   * user with that id (a later entry overwrites an earlier one).
   */
  function NameMap(users: seq<User>): (m: map<string, string>)
    ensures m.Keys == UserIds(users)
    ensures forall k :: 0 <= k < |users| && LastWithId(users, k) ==> m[users[k].id] == users[k].name
  {
    if users == [] then map[]
    else
      var n := |users| - 1;
      var front := users[..n];
      assert users == front + [users[n]];
      UserIdsSnoc(front, users[n]);
      var m := NameMap(front);
      forall k | 0 <= k < n && LastWithId(users, k)
        ensures m[users[k].id] == users[k].name
      {
        assert front[k] == users[k];
        assert LastWithId(front, k) by {
          forall j | k < j < n ensures front[j].id != front[k].id { assert front[j] == users[j]; }
        }
      }
      m[users[n].id := users[n].name]
  }

  /** When ids are distinct (as the seeded users' are), every user's id maps to its own name. */
  lemma NameMapDistinct(users: seq<User>)
    requires forall i, j :: 0 <= i < j < |users| ==> users[i].id != users[j].id
    ensures forall k :: 0 <= k < |users| ==> users[k].id in NameMap(users) && NameMap(users)[users[k].id] == users[k].name
  {
    forall k | 0 <= k < |users|
      ensures users[k].id in NameMap(users) && NameMap(users)[users[k].id] == users[k].name
    {
      assert LastWithId(users, k);
      assert users[k].id in UserIds(users);
    }
  }

  // ---------------------------------------------------------------- first row per ticket wins

  /** The entries of the lines that produce one, in line order. */
  function Present(candidates: seq<Option<Entry>>): (r: seq<Entry>)
    ensures |r| <= |candidates|
  {
    if candidates == [] then []
    else
      var n := |candidates| - 1;
      Present(candidates[..n]) + (if candidates[n].Some? then [candidates[n].value] else [])
  }

  /**
   * The outcome of the kept entries (the first entry of each ticket): all their rows,
   * or the first abort among them.
   */
  function Resolve(kept: seq<Entry>): (r: Result<seq<SeedComplaint>, SeedError>)
    ensures r.Success? <==> forall k :: 0 <= k < |kept| ==> kept[k].Accept?
    ensures r.Success? ==> |r.value| == |kept| && forall k :: 0 <= k < |kept| ==> r.value[k] == kept[k].row
    ensures r.Failure? ==> r.error.InvalidDate?
  {
    if kept == [] then Success([])
    else
      var n := |kept| - 1;
      var front := kept[..n];
      assert forall k :: 0 <= k < n ==> kept[k] == front[k];
      match Resolve(front)
      case Failure(e) => Failure(e)
      case Success(rows) =>
        match kept[n]
        case Abort(t) => Failure(InvalidDate(t))
        case Accept(c) => Success(rows + [c])
  }

  lemma ResolveSnocFailure(xs: seq<Entry>, x: Entry)
    requires Resolve(xs).Failure?
    ensures Resolve(xs + [x]) == Resolve(xs)
  {
    assert (xs + [x])[..|xs|] == xs;
  }

  /** After kept entries that all resolve, one more entry aborts with its ticket or adds its row. */
  lemma ResolveSnoc(xs: seq<Entry>, e: Entry)
    requires Resolve(xs).Success?
    ensures Resolve(xs + [e]) == match e
                                 case Abort(t) => Failure(InvalidDate(t))
                                 case Accept(c) => Success(Resolve(xs).value + [c])
  {
    assert (xs + [e])[..|xs|] == xs;
  }

  /** Once the kept entries hold an abort, later entries change nothing. */
  lemma {:induction false} ResolveFailureSticks(a: seq<Entry>, b: seq<Entry>)
    requires Resolve(a).Failure? && a <= b
    ensures Resolve(b) == Resolve(a)
    decreases |b|
  {
    if |b| > |a| {
      var n := |b| - 1;
      assert a <= b[..n];
      ResolveFailureSticks(a, b[..n]);
      assert b == b[..n] + [b[n]];
      ResolveSnocFailure(b[..n], b[n]);
    } else {
      assert a == b;
    }
  }

  /** De-duplicating a longer input keeps what de-duplicating a prefix of it kept. */
  lemma {:induction false} KeepFirstMonotone(xs: seq<Entry>, ys: seq<Entry>)
    requires xs <= ys
    ensures Dedup.KeepFirst(xs, EntryTicket) <= Dedup.KeepFirst(ys, EntryTicket)
    decreases |ys|
  {
    if |ys| > |xs| {
      var n := |ys| - 1;
      assert xs <= ys[..n];
      KeepFirstMonotone(xs, ys[..n]);
      assert ys == ys[..n] + [ys[n]];
      Dedup.KeepFirstSnoc(ys[..n], ys[n], EntryTicket);
    } else {
      assert xs == ys;
    }
  }

  lemma PresentSnoc(c: seq<Option<Entry>>, x: Option<Entry>)
    ensures Present(c + [x]) == Present(c) + (if x.Some? then [x.value] else [])
  {
    assert (c + [x])[..|c|] == c;
  }

  /** The entries of one more line: its entry, if any, after those of the lines before it. */
  lemma PresentStep(candidates: seq<Option<Entry>>, i: nat)
    requires i < |candidates|
    ensures Present(candidates[..i + 1]) ==
              Present(candidates[..i]) + (if candidates[i].Some? then [candidates[i].value] else [])
  {
    assert candidates[..i + 1] == candidates[..i] + [candidates[i]];
    PresentSnoc(candidates[..i], candidates[i]);
  }

  /** The entries of a prefix of the lines are a prefix of the entries of all lines. */
  lemma {:induction false} PresentPrefix(c: seq<Option<Entry>>, i: nat)
    requires i <= |c|
    ensures Present(c[..i]) <= Present(c)
    decreases |c|
  {
    if i == |c| {
      assert c[..i] == c;
    } else {
      var n := |c| - 1;
      PresentPrefix(c[..n], i);
      assert c[..n][..i] == c[..i];
      assert c == c[..n] + [c[n]];
      PresentSnoc(c[..n], c[n]);
    }
  }

  /** Every entry comes from some line. */
  lemma {:induction false} PresentOrigin(c: seq<Option<Entry>>, e: Entry)
    requires e in Present(c)
    ensures exists i :: 0 <= i < |c| && c[i] == Some(e)
  {
    var n := |c| - 1;
    assert c == c[..n] + [c[n]];
    PresentSnoc(c[..n], c[n]);
    if e in Present(c[..n]) {
      PresentOrigin(c[..n], e);
      var i :| 0 <= i < n && c[..n][i] == Some(e);
      assert c[i] == Some(e);
    } else {
      assert c[n] == Some(e);
    }
  }

  /** An abort that is the first entry of its ticket, reached with no abort before it, decides the seed. */
  lemma AbortDecides(candidates: seq<Option<Entry>>, i: nat, t: string)
    requires i < |candidates| && candidates[i] == Some(Abort(t))
    requires t !in Dedup.KeysOf(Present(candidates[..i]), EntryTicket)
    requires Resolve(Dedup.KeepFirst(Present(candidates[..i]), EntryTicket)).Success?
    ensures Resolve(Dedup.KeepFirst(Present(candidates), EntryTicket)) == Failure(InvalidDate(t))
  {
    AbortKept(candidates, i, t);
    FailureSpreads(candidates, i + 1);
  }

  lemma AbortKept(candidates: seq<Option<Entry>>, i: nat, t: string)
    requires i < |candidates| && candidates[i] == Some(Abort(t))
    requires t !in Dedup.KeysOf(Present(candidates[..i]), EntryTicket)
    requires Resolve(Dedup.KeepFirst(Present(candidates[..i]), EntryTicket)).Success?
    ensures Resolve(Dedup.KeepFirst(Present(candidates[..i + 1]), EntryTicket)) == Failure(InvalidDate(t))
  {
    var before := Present(candidates[..i]);
    var e := Abort(t);
    PresentStep(candidates, i);
    assert Dedup.KeepFirst(before + [e], EntryTicket) == Dedup.KeepFirst(before, EntryTicket) + [e] by {
      Dedup.KeepFirstSnoc(before, e, EntryTicket);
    }
    ResolveSnoc(Dedup.KeepFirst(before, EntryTicket), e);
  }

  /** A seed that has failed on the first `i` lines fails the same way on all of them. */
  lemma FailureSpreads(candidates: seq<Option<Entry>>, i: nat)
    requires i <= |candidates|
    requires Resolve(Dedup.KeepFirst(Present(candidates[..i]), EntryTicket)).Failure?
    ensures Resolve(Dedup.KeepFirst(Present(candidates), EntryTicket)) ==
            Resolve(Dedup.KeepFirst(Present(candidates[..i]), EntryTicket))
  {
    PresentPrefix(candidates, i);
    KeepFirstMonotone(Present(candidates[..i]), Present(candidates));
    ResolveFailureSticks(Dedup.KeepFirst(Present(candidates[..i]), EntryTicket),
                         Dedup.KeepFirst(Present(candidates), EntryTicket));
  }

  /** A line without an entry leaves everything as it was. */
  lemma SkipStep(candidates: seq<Option<Entry>>, i: nat)
    requires i < |candidates| && candidates[i].None?
    ensures Present(candidates[..i + 1]) == Present(candidates[..i])
  {
    assert candidates[..i + 1] == candidates[..i] + [candidates[i]];
    PresentSnoc(candidates[..i], candidates[i]);
  }

  /** An entry whose ticket is already present is dropped, whatever it is. */
  lemma DuplicateStep(candidates: seq<Option<Entry>>, i: nat, e: Entry)
    requires i < |candidates| && candidates[i] == Some(e)
    requires EntryTicket(e) in Dedup.KeysOf(Present(candidates[..i]), EntryTicket)
    ensures Dedup.KeepFirst(Present(candidates[..i + 1]), EntryTicket) == Dedup.KeepFirst(Present(candidates[..i]), EntryTicket)
    ensures Dedup.KeysOf(Present(candidates[..i + 1]), EntryTicket) == Dedup.KeysOf(Present(candidates[..i]), EntryTicket)
  {
    var before := Present(candidates[..i]);
    assert candidates[..i + 1] == candidates[..i] + [candidates[i]];
    PresentSnoc(candidates[..i], candidates[i]);
    Dedup.KeepFirstSnoc(before, e, EntryTicket);
    Dedup.KeysSnoc(before, e, EntryTicket);
  }

  /** An accepted row whose ticket is new is appended to the rows so far. */
  lemma AcceptExtends(candidates: seq<Option<Entry>>, i: nat, c: SeedComplaint, rows: seq<SeedComplaint>)
    requires i < |candidates| && candidates[i] == Some(Accept(c))
    requires c.id !in Dedup.KeysOf(Present(candidates[..i]), EntryTicket)
    requires Resolve(Dedup.KeepFirst(Present(candidates[..i]), EntryTicket)) == Success(rows)
    ensures Resolve(Dedup.KeepFirst(Present(candidates[..i + 1]), EntryTicket)) == Success(rows + [c])
    ensures Dedup.KeysOf(Present(candidates[..i + 1]), EntryTicket) == Dedup.KeysOf(Present(candidates[..i]), EntryTicket) + {c.id}
  {
    var before := Present(candidates[..i]);
    var e := Accept(c);
    PresentStep(candidates, i);
    Dedup.KeysSnoc(before, e, EntryTicket);
    assert Dedup.KeepFirst(before + [e], EntryTicket) == Dedup.KeepFirst(before, EntryTicket) + [e] by {
      Dedup.KeepFirstSnoc(before, e, EntryTicket);
    }
    ResolveSnoc(Dedup.KeepFirst(before, EntryTicket), e);
  }

  /**
   * The seeding loop: walk the lines in order, skip a line without an entry or whose
   * ticket already has a row, stop the whole seed at an abort, otherwise push the row
   * and remember its ticket. It computes the first entry of every ticket, resolved.
   */
  method FirstWins(candidates: seq<Option<Entry>>) returns (r: Result<seq<SeedComplaint>, SeedError>)
    ensures r == Resolve(Dedup.KeepFirst(Present(candidates), EntryTicket))
  {
    var rows: seq<SeedComplaint> := [];
    var seen: set<string> := {};
    var i := 0;
    while i < |candidates|
      invariant 0 <= i <= |candidates|
      invariant Resolve(Dedup.KeepFirst(Present(candidates[..i]), EntryTicket)) == Success(rows)
      invariant seen == Dedup.KeysOf(Present(candidates[..i]), EntryTicket)
      decreases |candidates| - i
    {
      match candidates[i] {
        case None =>
          SkipStep(candidates, i);
        case Some(e) =>
          if EntryTicket(e) in seen {
            DuplicateStep(candidates, i, e);
          } else {
            match e {
              case Abort(t) =>
                AbortDecides(candidates, i, t);
                return Failure(InvalidDate(t));
              case Accept(c) =>
                AcceptExtends(candidates, i, c, rows);
                rows := rows + [c];
                seen := seen + {c.id};
            }
          }
      }
      i := i + 1;
    }
    assert candidates[..i] == candidates;
    r := Success(rows);
  }

  /** Every row of a successful seed comes from a line, and no two rows share a ticket id (the primary key). */
  lemma FirstWinsRows(candidates: seq<Option<Entry>>)
    requires Resolve(Dedup.KeepFirst(Present(candidates), EntryTicket)).Success?
    ensures var rows := Resolve(Dedup.KeepFirst(Present(candidates), EntryTicket)).value;
            && (forall i, j :: 0 <= i < j < |rows| ==> rows[i].id != rows[j].id)
            && (forall k :: 0 <= k < |rows| ==> Accept(rows[k]) in Present(candidates))
  {
    var kept := Dedup.KeepFirst(Present(candidates), EntryTicket);
    var rows := Resolve(kept).value;
    forall i, j | 0 <= i < j < |rows| ensures rows[i].id != rows[j].id {
      assert EntryTicket(kept[i]) != EntryTicket(kept[j]);
    }
    forall k | 0 <= k < |rows| ensures Accept(rows[k]) in Present(candidates) {
      KeptIsPresent(Present(candidates), k);
    }
  }

  /**
   * When every row the lines produce names a user and carries that user's name, so
   * does every row of a successful seed, and no two of its rows share a ticket id.
   */
  lemma KeptRowsReferenceUsers(users: seq<User>, candidates: seq<Option<Entry>>)
    requires forall c :: Accept(c) in Present(candidates) ==>
               exists u :: 0 <= u < |users| && users[u].id == c.studentId && users[u].name == c.studentName
    requires Resolve(Dedup.KeepFirst(Present(candidates), EntryTicket)).Success?
    ensures var rows := Resolve(Dedup.KeepFirst(Present(candidates), EntryTicket)).value;
            && (forall i, j :: 0 <= i < j < |rows| ==> rows[i].id != rows[j].id)
            && (forall k :: 0 <= k < |rows| ==>
                  exists u :: 0 <= u < |users| && users[u].id == rows[k].studentId && users[u].name == rows[k].studentName)
  {
    FirstWinsRows(candidates);
  }

  lemma KeptIsPresent(xs: seq<Entry>, k: int)
    requires 0 <= k < |Dedup.KeepFirst(xs, EntryTicket)|
    ensures Dedup.KeepFirst(xs, EntryTicket)[k] in xs
  {
    var kept := Dedup.KeepFirst(xs, EntryTicket);
    var key := EntryTicket(kept[k]);
    assert key in Dedup.KeysOf(xs, EntryTicket);
    var i :| 0 <= i < |xs| && EntryTicket(xs[i]) == key;
    var first := FirstIndex(xs, key, i);
    assert kept[k] == xs[first];
  }

  /** The first index of `xs` whose ticket is `key`, given one such index `i`. */
  function FirstIndex(xs: seq<Entry>, key: string, i: int): (f: int)
    requires 0 <= i < |xs| && EntryTicket(xs[i]) == key
    ensures 0 <= f <= i && EntryTicket(xs[f]) == key && Dedup.FirstWithKey(xs, EntryTicket, f)
    decreases i
  {
    if exists j :: 0 <= j < i && EntryTicket(xs[j]) == key then
      var j :| 0 <= j < i && EntryTicket(xs[j]) == key;
      FirstIndex(xs, key, j)
    else i
  }
}
