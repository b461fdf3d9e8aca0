/**
 * The seeder of the plain-text server (the root `database.js`): the student ids read
 * straight from the second cell of every line (a line without a comma makes the whole
 * seed fail), the inline per-line parsing with its required-field checks, and the
 * month/day/year date turned into an ISO date string. `new Date(string)` is the
 * parameter `parseDate`; `None` stands for an invalid date.
 */
module SeedRoot {
  import opened Wrappers
  import opened Text
  import opened Domain
  import opened SeedData
  import Dedup

  /** The data lines: the trimmed text split into lines, without the header. */
  function DataLines(csv: string): seq<string> {
    Split(Trim(csv), '\n')[1..]
  }

  /**
   * The second comma-separated cell of every line,
   * trimmed; a line with no second cell throws, and the seed with it.
   */
  function StudentColumn(lines: seq<string>): (r: Result<seq<string>, SeedError>)
    ensures r.Success? <==> forall k :: 0 <= k < |lines| ==> ',' in lines[k]
    ensures r.Failure? ==> r.error == NoStudentColumn
    ensures r.Success? ==>
              && |r.value| == |lines|
              && (forall k :: 0 <= k < |lines| ==> |Split(lines[k], ',')| >= 2 && r.value[k] == Trim(Split(lines[k], ',')[1]))
  {
    if lines == [] then Success([])
    else
      var parts := Split(lines[0], ',');
      if |parts| < 2 then Failure(NoStudentColumn)
      else
        match StudentColumn(lines[1..])
        case Failure(e) => Failure(e)
        case Success(rest) => Success([Trim(parts[1])] + rest)
  }

  /**
   * The ISO date string built from a `Date_Submitted` of three non-empty '/' parts:
   * the third part, then the first and the second padded to two digits.
   */
  function IsoDate(date: string): (r: Option<string>)
    ensures r.Some? <==> var p := Split(date, '/'); |p| == 3 && p[0] != "" && p[1] != "" && p[2] != ""
  {
    var p := Split(date, '/');
    if |p| != 3 || p[2] == "" || p[0] == "" || p[1] == "" then None
    else Some(p[2] + "-" + PadTwo(p[0]) + "-" + PadTwo(p[1]))
  }

  /** The first number is the month and the second the day: `3/15/2024` becomes `2024-03-15`. */
  lemma IsoDateIsMonthFirst(month: string, day: string, year: string)
    requires month != "" && day != "" && year != ""
    requires '/' !in month && '/' !in day && '/' !in year
    ensures IsoDate(month + "/" + day + "/" + year) == Some(year + "-" + PadTwo(month) + "-" + PadTwo(day))
  {
    JoinTriple(month, day, year, '/');
    assert month + "/" + day + "/" + year == month + ['/'] + day + ['/'] + year;
    assert NoPartHas([month, day, year], '/') by {
      assert forall k :: 0 <= k < 3 ==> [month, day, year][k] in {month, day, year};
    }
    JoinThenSplit([month, day, year], '/');
  }

  /** Every required column is present (non-empty after trimming). */
  predicate Complete(rec: CsvRecord) {
    rec.studentId != "" && rec.category != "" && rec.priority != "" && rec.status != ""
    && rec.dateSubmitted != "" && rec.complaintText != ""
  }

  /**
   * The row a complete record of a known student becomes when its date reads as `t`:
   * copied columns, the student's name, the status mapped, the creation time cut to the
   * second, the stock solution text for a closed ticket; this schema has no resolution time.
   */
  predicate RowOf(names: map<string, string>, rec: CsvRecord, t: int, c: SeedComplaint) {
    && rec.studentId in names
    && c.id == rec.ticketId && c.studentId == rec.studentId && c.studentName == names[rec.studentId]
    && c.department == rec.category && c.complaintText == rec.complaintText
    && c.priority == rec.priority && c.status == NormaliseStatus(rec.status)
    && c.createdAt == WholeSecond(t) && c.resolvedAt.None?
    && (c.status == Closed ==> c.solutionText == ResolvedSolution)
    && (c.status != Closed ==> c.solutionText == "")
    && c.aiRecommendation == StaffAdvice
  }

  function SeedRow(names: map<string, string>, rec: CsvRecord, t: int): (c: SeedComplaint)
    requires rec.studentId in names
    ensures RowOf(names, rec, t, c)
  {
    var status := NormaliseStatusRoot(rec.status);
    SeedComplaint(
      rec.ticketId, rec.studentId, names[rec.studentId], rec.category, rec.complaintText,
      status, rec.priority, WholeSecond(t), None,
      if status == Closed then ResolvedSolution else "",
      StaffAdvice)
  }

  /** The record a line holds, for a line of at least seven cells. */
  function LineRecord(line: string): (r: Option<CsvRecord>)
    ensures r.Some? <==> |Split(line, ',')| >= 7
  {
    var parts := Split(line, ',');
    if |parts| < 7 then None else Some(Cells(parts))
  }

  /**
   * What one line contributes: nothing when it has fewer than seven cells, no ticket
   * id, a missing required column, an unknown student or a date without three
   * non-empty parts; an abort when the ISO date built from it is invalid (`toISOString`
   * throws); otherwise its row.
   */
  function LineEntry(names: map<string, string>, line: string, parseDate: string -> Option<int>): (r: Option<Entry>)
    ensures r.Some? <==> && LineRecord(line).Some?
                         && var rec := LineRecord(line).value;
                         && rec.ticketId != "" && Complete(rec) && rec.studentId in names
                         && IsoDate(rec.dateSubmitted).Some?
    ensures r.Some? ==>
              var rec := LineRecord(line).value;
              var t := parseDate(IsoDate(rec.dateSubmitted).value);
              && EntryTicket(r.value) == rec.ticketId
              && (r.value.Abort? <==> t.None? || !ValidTimeValue(t.value))
              && (r.value.Accept? ==> RowOf(names, rec, t.value, r.value.row))
  {
    match LineRecord(line)
    case None => None
    case Some(rec) =>
      if rec.ticketId == "" || !Complete(rec) || rec.studentId !in names then None
      else
        match IsoDate(rec.dateSubmitted)
        case None => None
        case Some(iso) =>
          match parseDate(iso)
          case None => Some(Abort(rec.ticketId))
          case Some(t) =>
            if !ValidTimeValue(t) then Some(Abort(rec.ticketId))
            else Some(Accept(SeedRow(names, rec, t)))
  }

  function Candidates(names: map<string, string>, lines: seq<string>, parseDate: string -> Option<int>): (r: seq<Option<Entry>>)
    ensures |r| == |lines| && forall k :: 0 <= k < |r| ==> r[k] == LineEntry(names, lines[k], parseDate)
  {
    if lines == [] then [] else [LineEntry(names, lines[0], parseDate)] + Candidates(names, lines[1..], parseDate)
  }

  /** The users for a student column: the department accounts and one student per distinct student id, password stored as typed, no ages. */
  function Users(column: seq<string>): (r: seq<User>)
    ensures forall i, j :: 0 <= i < j < |r| ==> r[i].id != r[j].id
    ensures forall k :: 0 <= k < |r| ==> r[k].password == SeedPassword && r[k].age.None?
    ensures var ids := StudentIds(column);
            UserKeysDistinct(r) <==> StudentKeysDistinct(ids) && NoLaterBareId(ids)
  {
    var ids := StudentIds(column);
    SeedUserIdsUnequal(ids, SeedPassword, false);
    SeedUsersInsertable(ids, SeedPassword, false);
    PlainSeedUsers(ids);
    SeedUsers(ids, SeedPassword, false)
  }

  /** Every user seeded without ages keeps the password as typed and has no age. */
  lemma PlainSeedUsers(ids: seq<string>)
    ensures var r := SeedUsers(ids, SeedPassword, false);
            forall k :: 0 <= k < |r| ==> r[k].password == SeedPassword && r[k].age.None?
  {
    var r := SeedUsers(ids, SeedPassword, false);
    assert forall k :: 0 <= k < |Departments| ==> r[k] == DepartmentUsers(SeedPassword, false)[k];
  }

  /**
   * `seedData`: the student column first (a line without a comma fails the seed
   * before anything is inserted), then the users in one insert, which the users table
   * refuses when two ids or two e-mails are the same key, then the complaint rows, the
   * first row of each ticket winning, where an invalid date of a kept ticket aborts the
   * seed, then one insert of those rows, refused when two ticket ids are the same key.
   */
  method Seed(csv: string, parseDate: string -> Option<int>)
    returns (r: Result<(seq<User>, seq<SeedComplaint>), SeedError>)
    ensures StudentColumn(DataLines(csv)).Failure? ==> r == Failure(NoStudentColumn)
    ensures StudentColumn(DataLines(csv)).Success? ==>
              var users := Users(StudentColumn(DataLines(csv)).value);
              var kept := Resolve(Dedup.KeepFirst(Present(Candidates(NameMap(users), DataLines(csv), parseDate)), EntryTicket));
              && (!UserKeysDistinct(users) ==> r == Failure(DuplicateUser))
              && (r.Success? <==> UserKeysDistinct(users) && kept.Success? && TicketKeysDistinct(kept.value))
              && (r.Success? ==> r.value == (users, kept.value))
              && (UserKeysDistinct(users) && kept.Failure? ==> r == Failure(kept.error))
              && (UserKeysDistinct(users) && kept.Success? && !TicketKeysDistinct(kept.value) ==> r == Failure(DuplicateTicket))
  {
    var lines := DataLines(csv);
    match StudentColumn(lines) {
      case Failure(e) =>
        r := Failure(e);
      case Success(column) =>
        var users := Users(column);
        if !UserKeysDistinct(users) {
          return Failure(DuplicateUser);
        }
        var rows := FirstWins(Candidates(NameMap(users), lines, parseDate));
        match rows {
          case Success(complaints) =>
            r := if TicketKeysDistinct(complaints) then Success((users, complaints)) else Failure(DuplicateTicket);
          case Failure(e) => r := Failure(e);
        }
    }
  }

  /** A blank line among the data lines (it has no comma) fails the seed. */
  lemma BlankLineFailsSeed(csv: string, k: int)
    requires 0 <= k < |DataLines(csv)| && Blank(DataLines(csv)[k])
    ensures StudentColumn(DataLines(csv)).Failure?
  {
    var line := DataLines(csv)[k];
    assert AllSpace(line);
    forall i | 0 <= i < |line| ensures line[i] != ',' {
      assert IsSpace(line[i]);
    }
  }

  /** A row the lines produce names a user and carries that user's name. */
  lemma EntryReferencesUser(users: seq<User>, lines: seq<string>, parseDate: string -> Option<int>, c: SeedComplaint)
    requires forall i, j :: 0 <= i < j < |users| ==> users[i].id != users[j].id
    requires Accept(c) in Present(Candidates(NameMap(users), lines, parseDate))
    ensures exists u :: 0 <= u < |users| && users[u].id == c.studentId && users[u].name == c.studentName
  {
    var names := NameMap(users);
    var candidates := Candidates(names, lines, parseDate);
    PresentOrigin(candidates, Accept(c));
    var i :| 0 <= i < |candidates| && candidates[i] == Some(Accept(c));
    assert LineEntry(names, lines[i], parseDate) == Some(Accept(c));
    assert c.studentId in UserIds(users);
    var u :| 0 <= u < |users| && users[u].id == c.studentId;
    NameMapDistinct(users);
  }

  /**
   * Every row of a successful seed refers to a seeded user and carries that user's
   * name (the foreign key holds), and no two rows share a ticket id (the primary key holds).
   */
  lemma RowsReferenceUsers(users: seq<User>, lines: seq<string>, parseDate: string -> Option<int>)
    requires forall i, j :: 0 <= i < j < |users| ==> users[i].id != users[j].id
    requires Resolve(Dedup.KeepFirst(Present(Candidates(NameMap(users), lines, parseDate)), EntryTicket)).Success?
    ensures var rows := Resolve(Dedup.KeepFirst(Present(Candidates(NameMap(users), lines, parseDate)), EntryTicket)).value;
            && (forall i, j :: 0 <= i < j < |rows| ==> rows[i].id != rows[j].id)
            && (forall k :: 0 <= k < |rows| ==>
                  exists u :: 0 <= u < |users| && users[u].id == rows[k].studentId && users[u].name == rows[k].studentName)
  {
    var candidates := Candidates(NameMap(users), lines, parseDate);
    forall c | Accept(c) in Present(candidates)
      ensures exists u :: 0 <= u < |users| && users[u].id == c.studentId && users[u].name == c.studentName
    {
      EntryReferencesUser(users, lines, parseDate, c);
    }
    KeptRowsReferenceUsers(users, candidates);
  }
}
