/**
 * The seeder of the bcrypt server (`server/database.js`): `robustCSVParser`, the
 * users derived from the parsed student ids, and the per-record mapping to complaint
 * rows (day/month/year dates, three-day resolution of closed tickets). `new Date(y,
 * m, d)` in local time is the parameter `makeDate`; `None` stands for NaN.
 */
module SeedServer {
  import opened Wrappers
  import opened Text
  import opened Domain
  import opened SeedData
  import Dedup

  // ---------------------------------------------------------------- robustCSVParser

  /** A record as the parser leaves it: every cell trimmed, and no double quote in the text. */
  predicate CleanRecord(rec: CsvRecord) {
    && Trimmed(rec.ticketId) && Trimmed(rec.studentId) && Trimmed(rec.category)
    && Trimmed(rec.priority) && Trimmed(rec.status) && Trimmed(rec.dateSubmitted)
    && Trimmed(rec.complaintText) && '"' !in rec.complaintText
  }

  lemma CellsClean(parts: seq<string>)
    requires |parts| >= 7
    ensures CleanRecord(Cells(parts))
  {
  }

  /** One data line: nothing for a blank line or one with fewer than seven cells, else its columns. */
  function ParseLine(line: string): (r: Option<CsvRecord>)
    ensures r.None? <==> Blank(line) || |Split(line, ',')| < 7
    ensures r.Some? ==> CleanRecord(r.value)
  {
    if Blank(line) then None
    else
      var parts := Split(line, ',');
      if |parts| < 7 then None
      else
        CellsClean(parts);
        Some(Cells(parts))
  }

  /** The records of one line: none or one. */
  function LineRecords(line: string): (r: seq<CsvRecord>)
    ensures |r| <= 1
    ensures forall k :: 0 <= k < |r| ==> CleanRecord(r[k])
  {
    var rec := ParseLine(line);
    if rec.Some? then [rec.value] else []
  }

  function ParseLines(lines: seq<string>): (r: seq<CsvRecord>)
    ensures |r| <= |lines|
    ensures forall k :: 0 <= k < |r| ==> CleanRecord(r[k])
  {
    if lines == [] then [] else LineRecords(lines[0]) + ParseLines(lines[1..])
  }

  /** The lines of the trimmed text. */
  function CsvLines(csv: string): (r: seq<string>)
    ensures |r| >= 1
  {
    Split(Trim(csv), '\n')
  }

  /**
   * `robustCSVParser`: the first line is the header; every later line yields at most
   * one record, whose cells are trimmed and whose text holds no double quote.
   */
  function RobustParse(csv: string): (r: seq<CsvRecord>)
    ensures |r| <= |CsvLines(csv)| - 1
    ensures forall k :: 0 <= k < |r| ==> CleanRecord(r[k])
  {
    ParseLines(CsvLines(csv)[1..])
  }

  // ---------------------------------------------------------------- rendering, for the round trip

  /** A cell that survives splitting on commas and newlines and trimming unchanged. */
  predicate PlainCell(s: string) {
    ',' !in s && '\n' !in s && Trimmed(s)
  }

  /** A data row of the file: the record's columns in file order, then two columns the seeder does not read. */
  datatype CsvRow = CsvRow(rec: CsvRecord, tail1: string, tail2: string)

  /** The cells before the text column. */
  function Front(row: CsvRow): seq<string> {
    [row.rec.ticketId, row.rec.studentId, row.rec.category]
  }

  /** The cells after the text column. */
  function Back(row: CsvRow): seq<string> {
    [row.rec.priority, row.rec.status, row.rec.dateSubmitted, row.tail1, row.tail2]
  }

  function RowCells(row: CsvRow): seq<string> {
    Front(row) + [row.rec.complaintText] + Back(row)
  }

  function RenderLine(row: CsvRow): string {
    Join(RowCells(row), ',')
  }

  /**
   * A row the file format can carry: plain cells, and a text without quotes or
   * newlines (commas are allowed in the text).
   */
  predicate RepresentableRow(row: CsvRow) {
    && (forall k :: 0 <= k < |Front(row)| ==> PlainCell(Front(row)[k]))
    && (forall k :: 0 <= k < |Back(row)| ==> PlainCell(Back(row)[k]))
    && '"' !in row.rec.complaintText && '\n' !in row.rec.complaintText && Trimmed(row.rec.complaintText)
  }

  function RenderLines(rows: seq<CsvRow>): (r: seq<string>)
    ensures |r| == |rows|
    ensures forall k :: 0 <= k < |r| ==> r[k] == RenderLine(rows[k])
  {
    if rows == [] then [] else [RenderLine(rows[0])] + RenderLines(rows[1..])
  }

  /** The file: a header line, then one line per row. */
  function RenderCsv(header: string, rows: seq<CsvRow>): string {
    Join([header] + RenderLines(rows), '\n')
  }

  function Records(rows: seq<CsvRow>): (r: seq<CsvRecord>)
    ensures |r| == |rows| && forall k :: 0 <= k < |r| ==> r[k] == rows[k].rec
  {
    if rows == [] then [] else [rows[0].rec] + Records(rows[1..])
  }

  /** The cells of a rendered line: the text column comes back split at its commas. */
  lemma RenderedCells(row: CsvRow)
    requires RepresentableRow(row)
    ensures Split(RenderLine(row), ',') == Front(row) + Split(row.rec.complaintText, ',') + Back(row)
  {
    SplitJoinMiddle(Front(row), row.rec.complaintText, Back(row), ',');
  }

  /** A rendered line is trimmed, non-empty and free of newlines. */
  lemma RenderedLineShape(row: CsvRow)
    requires RepresentableRow(row)
    ensures Trimmed(RenderLine(row)) && RenderLine(row) != [] && '\n' !in RenderLine(row)
  {
    var cells := RowCells(row);
    assert forall k :: 0 <= k < |cells| ==> Trimmed(cells[k]) && '\n' !in cells[k] by {
      forall k | 0 <= k < |cells| ensures Trimmed(cells[k]) && '\n' !in cells[k] {
        if k < 3 { assert cells[k] == Front(row)[k]; }
        else if k > 3 { assert cells[k] == Back(row)[k - 4]; }
      }
    }
    JoinTrimmed(cells, ',');
    JoinAvoids(cells, ',', '\n');
    assert RenderLine(row) == cells[0] + [','] + Join(cells[1..], ',');
  }

  /** The columns read from a rendered line are the row's record. */
  lemma CellsOfRendered(row: CsvRow, parts: seq<string>)
    requires RepresentableRow(row)
    requires parts == Front(row) + Split(row.rec.complaintText, ',') + Back(row)
    ensures |parts| >= 9 && Cells(parts) == row.rec
  {
    var text := row.rec.complaintText;
    var pieces := Split(text, ',');
    var n := |parts|;
    assert parts[3..n - 5] == pieces;
    SplitThenJoin(text, ',');
    assert parts[0] == Front(row)[0] && parts[1] == Front(row)[1] && parts[2] == Front(row)[2];
    assert parts[n - 5] == Back(row)[0] && parts[n - 4] == Back(row)[1] && parts[n - 3] == Back(row)[2];
  }

  /** A representable row is read back exactly by the line parser. */
  lemma ParseRenderedLine(row: CsvRow)
    requires RepresentableRow(row)
    ensures ParseLine(RenderLine(row)) == Some(row.rec)
  {
    RenderedLineShape(row);
    RenderedCells(row);
    CellsOfRendered(row, Split(RenderLine(row), ','));
  }

  lemma {:induction false} ParseRenderedLines(rows: seq<CsvRow>)
    requires forall k :: 0 <= k < |rows| ==> RepresentableRow(rows[k])
    ensures ParseLines(RenderLines(rows)) == Records(rows)
  {
    if rows != [] {
      ParseRenderedLines(rows[1..]);
      ParseRenderedLine(rows[0]);
      assert RenderLines(rows)[1..] == RenderLines(rows[1..]);
    }
  }

  /** The header and rendered lines: trimmed, non-empty, one line each. */
  lemma RenderedFileLines(header: string, rows: seq<CsvRow>, lines: seq<string>)
    requires header != [] && Trimmed(header) && '\n' !in header
    requires forall k :: 0 <= k < |rows| ==> RepresentableRow(rows[k])
    requires lines == [header] + RenderLines(rows)
    ensures forall k :: 0 <= k < |lines| ==> Trimmed(lines[k]) && lines[k] != []
    ensures NoPartHas(lines, '\n')
  {
    forall k | 0 <= k < |lines| ensures Trimmed(lines[k]) && lines[k] != [] && '\n' !in lines[k] {
      if k > 0 {
        RenderedLineShape(rows[k - 1]);
      }
    }
  }

  /**
   * The parser reads back every record of a file rendered from representable rows
   * under a header line (non-empty, trimmed, one line), whatever the two unread columns hold.
   */
  lemma RobustParseRoundTrip(header: string, rows: seq<CsvRow>)
    requires header != [] && Trimmed(header) && '\n' !in header
    requires forall k :: 0 <= k < |rows| ==> RepresentableRow(rows[k])
    ensures RobustParse(RenderCsv(header, rows)) == Records(rows)
  {
    var lines := [header] + RenderLines(rows);
    RenderedFileLines(header, rows, lines);
    JoinTrimmed(lines, '\n');
    JoinThenSplit(lines, '\n');
    assert CsvLines(RenderCsv(header, rows))[1..] == RenderLines(rows);
    ParseRenderedLines(rows);
  }

  // ---------------------------------------------------------------- dates

  /** `new Date(t)` keeps a time value only inside the range; outside it the date is NaN. */
  function TimeClip(t: Option<int>): (r: Option<int>)
    ensures r.Some? ==> ValidTimeValue(r.value)
    ensures t.Some? && ValidTimeValue(t.value) ==> r == t
  {
    match t
    case Some(v) => if ValidTimeValue(v) then t else None
    case None => None
  }

  /**
   * Three date parts read by `parseInt` as day, month and year and given to
   * `new Date(year, month - 1, day)`; a part that does not read is NaN.
   */
  function DateOfParts(day: string, month: string, year: string, makeDate: (int, int, int) -> Option<int>): (r: Option<int>)
    ensures r.Some? ==> ValidTimeValue(r.value)
    ensures r.Some? ==> ParseInt(day).Some? && ParseInt(month).Some? && ParseInt(year).Some?
  {
    var y, m, d := ParseInt(year), ParseInt(month), ParseInt(day);
    if y.None? || m.None? || d.None? then None
    else TimeClip(makeDate(y.value, m.value - 1, d.value))
  }

  /** `Date_Submitted` read as day/month/year: exactly three '/'-separated parts. */
  function SubmittedAt(date: string, makeDate: (int, int, int) -> Option<int>): (r: Option<int>)
    ensures |Split(date, '/')| != 3 ==> r.None?
    ensures r.Some? ==> ValidTimeValue(r.value)
  {
    var parts := Split(date, '/');
    if |parts| != 3 then None else DateOfParts(parts[0], parts[1], parts[2], makeDate)
  }

  /** Three numbers printed with '/' between them split back into their renderings. */
  lemma SplitPrintedDate(day: nat, month: nat, year: nat)
    ensures Split(NatToString(day) + "/" + NatToString(month) + "/" + NatToString(year), '/')
            == [NatToString(day), NatToString(month), NatToString(year)]
  {
    NatToStringAvoids(day, '/');
    NatToStringAvoids(month, '/');
    NatToStringAvoids(year, '/');
    SplitThree(NatToString(day), NatToString(month), NatToString(year), '/');
  }

  lemma DateOfReadParts(d: string, m: string, y: string, day: int, month: int, year: int, makeDate: (int, int, int) -> Option<int>)
    requires ParseInt(d) == Some(day) && ParseInt(m) == Some(month) && ParseInt(y) == Some(year)
    ensures DateOfParts(d, m, y, makeDate) == TimeClip(makeDate(year, month - 1, day))
  {
  }

  lemma DateOfPrintedParts(day: nat, month: nat, year: nat, makeDate: (int, int, int) -> Option<int>)
    ensures DateOfParts(NatToString(day), NatToString(month), NatToString(year), makeDate)
            == TimeClip(makeDate(year, month - 1, day))
  {
    ParseIntOfNatToString(day);
    ParseIntOfNatToString(month);
    ParseIntOfNatToString(year);
    DateOfReadParts(NatToString(day), NatToString(month), NatToString(year), day, month, year, makeDate);
  }

  /** The first number is the day and the second the month (counted from 1). */
  lemma SubmittedAtIsDayFirst(day: nat, month: nat, year: nat, makeDate: (int, int, int) -> Option<int>)
    ensures SubmittedAt(NatToString(day) + "/" + NatToString(month) + "/" + NatToString(year), makeDate)
            == TimeClip(makeDate(year, month - 1, day))
  {
    SplitPrintedDate(day, month, year);
    DateOfPrintedParts(day, month, year, makeDate);
  }

  // ---------------------------------------------------------------- rows

  /**
   * The row a record becomes when its student is known and its date reads as `t`:
   * copied columns, the student's name, the status mapped, the creation time cut to
   * the second, and for a closed ticket a resolution three days later with the stock
   * solution text.
   */
  predicate RowOf(names: map<string, string>, rec: CsvRecord, t: int, c: SeedComplaint) {
    && rec.studentId in names
    && c.id == rec.ticketId && c.studentId == rec.studentId && c.studentName == names[rec.studentId]
    && c.department == rec.category && c.complaintText == rec.complaintText
    && c.priority == rec.priority && c.status == NormaliseStatus(rec.status)
    && c.createdAt == WholeSecond(t)
    && (c.status == Closed <==> c.resolvedAt.Some?)
    && (c.status == Closed ==> c.resolvedAt == Some(c.createdAt + ResolutionDelay) && c.solutionText == ResolvedSolution)
    && (c.status != Closed ==> c.solutionText == "")
    && c.aiRecommendation == StaffAdvice
  }

  function SeedRow(names: map<string, string>, rec: CsvRecord, t: int): (c: SeedComplaint)
    requires rec.studentId in names
    ensures RowOf(names, rec, t, c)
  {
    var status := NormaliseStatus(rec.status);
    var createdAt := WholeSecond(t);
    WholeSecondShift(t, ResolutionDelay);
    SeedComplaint(
      rec.ticketId, rec.studentId, names[rec.studentId], rec.category, rec.complaintText,
      status, rec.priority, createdAt,
      if status == Closed then Some(WholeSecond(t + ResolutionDelay)) else None,
      if status == Closed then ResolvedSolution else "",
      StaffAdvice)
  }

  /**
   * What one parsed record contributes: nothing when the ticket or student id is
   * empty, the student is not a seeded user or the date is unusable; an abort when a
   * closed ticket's resolution date falls outside the time range; otherwise its row.
   */
  function RecordEntry(names: map<string, string>, rec: CsvRecord, makeDate: (int, int, int) -> Option<int>): (r: Option<Entry>)
    ensures r.Some? <==> rec.ticketId != "" && rec.studentId != "" && rec.studentId in names
                         && SubmittedAt(rec.dateSubmitted, makeDate).Some?
    ensures r.Some? ==> EntryTicket(r.value) == rec.ticketId
    ensures r.Some? ==>
              var t := SubmittedAt(rec.dateSubmitted, makeDate).value;
              && (r.value.Abort? <==> NormaliseStatus(rec.status) == Closed && !ValidTimeValue(t + ResolutionDelay))
              && (r.value.Accept? ==> RowOf(names, rec, t, r.value.row))
  {
    if rec.ticketId == "" || rec.studentId == "" || rec.studentId !in names then None
    else
      match SubmittedAt(rec.dateSubmitted, makeDate)
      case None => None
      case Some(t) =>
        if NormaliseStatus(rec.status) == Closed && !ValidTimeValue(t + ResolutionDelay) then Some(Abort(rec.ticketId))
        else Some(Accept(SeedRow(names, rec, t)))
  }

  function StudentColumn(records: seq<CsvRecord>): (r: seq<string>)
    ensures |r| == |records| && forall k :: 0 <= k < |r| ==> r[k] == records[k].studentId
  {
    if records == [] then [] else [records[0].studentId] + StudentColumn(records[1..])
  }

  function Candidates(names: map<string, string>, records: seq<CsvRecord>, makeDate: (int, int, int) -> Option<int>): (r: seq<Option<Entry>>)
    ensures |r| == |records| && forall k :: 0 <= k < |r| ==> r[k] == RecordEntry(names, records[k], makeDate)
  {
    if records == [] then [] else [RecordEntry(names, records[0], makeDate)] + Candidates(names, records[1..], makeDate)
  }

  /** The users `seedData` inserts for a CSV text: the department accounts and one student per distinct student id. */
  function Users(csv: string, hashedPassword: string): (r: seq<User>)
    ensures forall i, j :: 0 <= i < j < |r| ==> r[i].id != r[j].id
    ensures var ids := StudentIds(StudentColumn(RobustParse(csv)));
            UserKeysDistinct(r) <==> StudentKeysDistinct(ids) && NoLaterBareId(ids)
  {
    var ids := StudentIds(StudentColumn(RobustParse(csv)));
    SeedUserIdsUnequal(ids, hashedPassword, true);
    SeedUsersInsertable(ids, hashedPassword, true);
    SeedUsers(ids, hashedPassword, true)
  }

  /**
   * `seedData`: the users in one insert, which the users table refuses when two ids or
   * two e-mails are the same key; then the complaint rows, the first row of each ticket
   * winning, where a closed ticket whose resolution date cannot be rendered aborts the
   * seed; then one insert of those rows, which the complaints table refuses when two
   * ticket ids are the same key. `hashedPassword` is bcrypt's hash of "password".
   */
  method Seed(csv: string, hashedPassword: string, makeDate: (int, int, int) -> Option<int>)
    returns (r: Result<(seq<User>, seq<SeedComplaint>), SeedError>)
    ensures var users := Users(csv, hashedPassword);
            var kept := Resolve(Dedup.KeepFirst(Present(Candidates(NameMap(users), RobustParse(csv), makeDate)), EntryTicket));
            && (!UserKeysDistinct(users) ==> r == Failure(DuplicateUser))
            && (r.Success? <==> UserKeysDistinct(users) && kept.Success? && TicketKeysDistinct(kept.value))
            && (r.Success? ==> r.value == (users, kept.value))
            && (UserKeysDistinct(users) && kept.Failure? ==> r == Failure(kept.error))
            && (UserKeysDistinct(users) && kept.Success? && !TicketKeysDistinct(kept.value) ==> r == Failure(DuplicateTicket))
  {
    var users := Users(csv, hashedPassword);
    if !UserKeysDistinct(users) {
      return Failure(DuplicateUser);
    }
    var candidates := Candidates(NameMap(users), RobustParse(csv), makeDate);
    var rows := FirstWins(candidates);
    match rows {
      case Success(complaints) =>
        r := if TicketKeysDistinct(complaints) then Success((users, complaints)) else Failure(DuplicateTicket);
      case Failure(e) => r := Failure(e);
    }
  }

  /** A row the records produce names a user and carries that user's name. */
  lemma EntryReferencesUser(users: seq<User>, records: seq<CsvRecord>, makeDate: (int, int, int) -> Option<int>, c: SeedComplaint)
    requires forall i, j :: 0 <= i < j < |users| ==> users[i].id != users[j].id
    requires Accept(c) in Present(Candidates(NameMap(users), records, makeDate))
    ensures exists u :: 0 <= u < |users| && users[u].id == c.studentId && users[u].name == c.studentName
  {
    var names := NameMap(users);
    var candidates := Candidates(names, records, makeDate);
    PresentOrigin(candidates, Accept(c));
    var i :| 0 <= i < |candidates| && candidates[i] == Some(Accept(c));
    assert RecordEntry(names, records[i], makeDate) == Some(Accept(c));
    assert c.studentId in UserIds(users);
    var u :| 0 <= u < |users| && users[u].id == c.studentId;
    NameMapDistinct(users);
  }

  /**
   * Every row of a successful seed refers to a seeded user and carries that user's
   * name (the foreign key holds), and no two rows share a ticket id (the primary key holds).
   */
  lemma RowsReferenceUsers(users: seq<User>, records: seq<CsvRecord>, makeDate: (int, int, int) -> Option<int>)
    requires forall i, j :: 0 <= i < j < |users| ==> users[i].id != users[j].id
    requires Resolve(Dedup.KeepFirst(Present(Candidates(NameMap(users), records, makeDate)), EntryTicket)).Success?
    ensures var rows := Resolve(Dedup.KeepFirst(Present(Candidates(NameMap(users), records, makeDate)), EntryTicket)).value;
            && (forall i, j :: 0 <= i < j < |rows| ==> rows[i].id != rows[j].id)
            && (forall k :: 0 <= k < |rows| ==>
                  exists u :: 0 <= u < |users| && users[u].id == rows[k].studentId && users[u].name == rows[k].studentName)
  {
    var candidates := Candidates(NameMap(users), records, makeDate);
    forall c | Accept(c) in Present(candidates)
      ensures exists u :: 0 <= u < |users| && users[u].id == c.studentId && users[u].name == c.studentName
    {
      EntryReferencesUser(users, records, makeDate, c);
    }
    KeptRowsReferenceUsers(users, candidates);
  }
}
