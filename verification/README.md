# AI Student Ticketing System — a Dafny model of its core

The system is a university help desk. Students file complaints ("tickets") against
one of four departments. Department staff answer and close them, often with an
AI-drafted solution. Students may close their own ticket, or reopen a closed one
after reading an AI assessment of the answer. The repository holds two generations
of the same application:

- the **root** version: `server.js` with plain-text passwords, its seeder `database.js`,
  and the pages under `pages/` with `context/DataContext.tsx`;
- the **bcrypt** version: `server/server.js` with bcrypt and JWT, its seeder
  `server/database.js`, and the client under `client/src/`.

This project models, as pure functions over immutable data:

- the servers' account and complaint endpoints (`AuthServer`, `ComplaintServer`);
- the two CSV seeders (`SeedData`, `SeedServer`, `SeedRoot`, with `Dedup` for "first row
  per ticket wins");
- the client's request layer and cached data (`ClientData`);
- the complaint card's status transitions (`Lifecycle`);
- the list pages' filters, sort orders and batch selection (`Queries`);
- the root department page's sequential AI batch (`Batch`);
- the analytics page's counts (`Analytics`);
- the keyword department classifier (`Prediction`);
- the new-complaint form (`Submission`).

`Lists`, `Text` and `Wrappers` hold the JavaScript array, string and option semantics
the models are built from.

The servers do **not** enforce the ticket life cycle. Their update endpoint merges any
body into the row. The only rules are the ones the client's complaint card applies
before it sends an update, and `Lifecycle` states those rules as the card has them.
Likewise, the batch on the root department page stops at the first failing ticket.
It does not carry on past failures, and `Batch` models it that way.

Timestamps are JavaScript time values: integer milliseconds since the epoch. The AI
model, password hashing, token signing and verification, and the clock enter as
function parameters. So do date construction and the conversion of a time to a
calendar day.

## Model

| member | source | states |
|---|---|---|
| AuthServer.ExtractToken | server/server.js:32-33 | a missing header gives no token; a non-empty header gives one exactly when it contains a space, and an empty header gives the empty token |
| AuthServer.AuthenticateToken | server/server.js:31-42 | no token is rejected with 401 `Unauthorized`, a token that does not verify with 403 `Invalid token`; the request proceeds exactly when the token verifies, with its claims |
| AuthServer.BearerHeaderYieldsToken | server/server.js:33 | a `Bearer <token>` header yields exactly the token, for any token without a space |
| AuthServer.FindUser | server/server.js:88-89 | `rows[0]` of the email-and-role query: a row whose e-mail and role are the same keys as the ones asked for under the case-insensitive collation, and none exactly when no row matches both |
| AuthServer.FindUserAppended | server/server.js:88-89 | a row just appended is found by its email and role when no earlier row has both |
| AuthServer.InsertUser | server/database.js:48-50 | an insert is refused exactly when its id or e-mail is already a key of the table; otherwise the row is appended, and distinct keys stay distinct |
| AuthServer.Login | server/server.js:85-102 | a missing email gives 500; a login succeeds exactly when email, password and role are present, a row matches the lower-cased email and the role as keys, and the password check passes; it returns the token of that user's id and role and the row without its password; every 401 carries `Invalid credentials or role.` |
| AuthServer.NewUserId | server/server.js:113 | a new id is `S` for role student and `D` for any other role, followed by the clock's digits |
| AuthServer.Signup | server/server.js:104-123 | a missing email gives 500; 409 exactly when the email, in any letter case, is already a key of the table; success exactly when email, password, name and role are present and neither the email nor the new id is taken; then the row with the lower-cased email and the hashed password is appended and returned without the password, and the table's keys stay distinct |
| AuthServer.SignupThenLogin | server/server.js:85-123 | after a successful signup, logging in with the same email (in any letter case), password and role succeeds, given a hash the password check accepts |
| AuthServer.SignupRefusesCaseVariant | server/server.js:107-109 | after a signup, a second signup whose e-mail differs only in letter case is refused with 409 |
| AuthServer.StoredAge | server/server.js:150 | a missing age and an age of 0 are stored as null, and any other age as given |
| AuthServer.UpdatedRow | server/server.js:146-153 | a profile update writes the name and lower-cased email; students also get major and age, department users get the department name; id, password and role are kept |
| AuthServer.FindById | server/server.js:157-159 | `updatedRows[0]`: a row whose id is the same key as the caller's, and none exactly when no row has it |
| AuthServer.UpdateProfile | server/server.js:135-165 | a missing email gives 500; 409 exactly when a row with another id holds the lower-cased email; otherwise, with a name given, exactly the rows with the caller's id are rewritten and the answer is the caller's new row without its password, present exactly when the caller's row existed; without a name the update fails with 500 on an existing row and changes nothing otherwise |
| AuthServer.UpdateProfileKeepsKeys | server/server.js:141-155 | a successful profile update keeps the users' ids and e-mails distinct keys, since no other row holds the new e-mail |
| AuthServer.LoginPlain | server.js:66-84 | a missing or empty email, password or role gives 400; otherwise login succeeds exactly when a row matches the lower-cased email and the role as keys and stores the password as typed, and returns that row without its password; any other failure is the 401 |
| AuthServer.SignupPlain | server.js:86-105 | a missing email gives 500; 409 exactly when the email, in any letter case, is already a key of the table; success exactly when name, password and role are present and the email and the `user_<clock>` id are free; the row keeps the email as typed and the password in plain text, is appended and returned without the password, and the table's keys stay distinct |
| AuthServer.SignupPlainThenLogin | server.js:66-105 | every successful root signup with a non-empty email, password and role can log in at once with the same credentials: the login's lower-cased email is the same key as the one stored as typed |
| AuthServer.SignupPlainRefusesCaseVariant | server.js:90-92 | after a root signup, a second signup whose e-mail differs only in letter case is refused with 409, though the first was stored as typed |
| ComplaintServer.NewComplaint | server/server.js:181-198 | a new complaint is Open, with no solution and no resolution time, created now, with the body's student, department and text |
| ComplaintServer.Insert | server/server.js:199-200 | an insert succeeds exactly when no stored id is the same key as the new id (primary key under the case-insensitive collation) and some user's id is the same key as its student id (foreign key); it then adds exactly that row under its id's key, keeps every other row, and keeps a consistent table consistent |
| ComplaintServer.Create | server/server.js:178-206 | a body missing the student id, name, department or text fails with 500 (NOT NULL); otherwise creation succeeds exactly when both AI calls answer, no row's id is the same key as `TCKT<clock>` and the student id is a user's key; the stored and returned row is then the new Open complaint with the AI priority and recommendation; every failure is the 500; a consistent table stays consistent |
| ComplaintServer.CreatePlain | server.js:130-153 | a body missing the priority, student id, name, department or text fails with 500 (NOT NULL); otherwise root creation succeeds exactly when the recommendation answers, no row's id is the same key as `complaint_<clock>` and the student id is a user's key; the row carries the body's priority; every failure is the 500; a consistent table stays consistent |
| ComplaintServer.CreateServersAgree | server/server.js:178-206 | when the AI picks the priority the root body carries and neither id is taken, both servers succeed together and create the same row up to its id |
| ComplaintServer.Update | server/server.js:209-226 | an empty body gives 500 and an id that is no stored id's key 404; success exactly for a non-empty body on an id whose key is stored and whose named student, if any, is a user's key; then only that row changes, to the row merged with the body (keeping its stored id), which is returned; a consistent table stays consistent |
| ComplaintServer.UpdateFindsCaseVariant | server/server.js:215-223 | an update addressed by any letter-case variant of a stored row's id finds that row, succeeding exactly for a non-empty body with a known student and answering the row merged with the body |
| ComplaintServer.RootBody | server.js:160-163 | the root rewrites only a given `createdAt`, to its whole second, and a body is empty exactly when the rewritten one is |
| ComplaintServer.UpdatePlain | server.js:155-177 | a given `createdAt` outside the JavaScript date range, or any `resolvedAt` (the root table has no such column), gives 500; otherwise the bcrypt update of the body with `createdAt` cut to the whole second, succeeding under the same conditions |
| ComplaintServer.RootUpdateIsBcryptUpdate | server.js:155-177 | on a body without `resolvedAt` the root update is the bcrypt update of the rewritten body, and of the same body when it has no `createdAt` |
| ComplaintServer.GenerateSolution | server/server.js:246-259 | the endpoint returns the AI draft for the text and department, or 500 `Failed to generate AI solution.` |
| ComplaintServer.GenerateAdvice | server/server.js:261-275 | the endpoint returns the AI advice for the text and solution, or 500 `Failed to generate AI advice.` |
| Domain.Merge | server/server.js:213-214 | `UPDATE ... SET ?`: each field the body has overwrites the stored one, each field it lacks keeps it; the id never changes; an empty patch changes nothing |
| Domain.WholeSecond | server.js:161-163 | `toISOString().slice(0, 19)` cuts a time to the whole second at or below it |
| Domain.DepartmentsDistinct | server/server.js:23-28 | the department list names four different departments |
| Domain.WithoutPassword | server/server.js:92 | the user handed back carries every stored field (id, name, e-mail, role, major, department, age) and no password |
| Domain.SameKeyLaws | server/database.js:36 | under the case-insensitive collation equal strings are the same key, a value is the same key as its lower-cased form, and lower-casing both sides keeps the relation |
| Lifecycle.SavePatch | client/src/components/ComplaintCard.tsx:83-95 | saving as a department user with a blank solution while closing sends nothing; otherwise the update carries the status, the trimmed solution, the department, and a resolution time exactly when closing |
| Lifecycle.InitialDraft | client/src/components/ComplaintCard.tsx:38-40 | the card opens with the complaint's own status and department selected |
| Lifecycle.ReopenPatch | client/src/components/ComplaintCard.tsx:108-110 | reopening sends status Reopened, an empty solution and a null resolution time, and leaves department, priority, text and creation time alone |
| Lifecycle.StudentClosePatch | client/src/components/ComplaintCard.tsx:118-120 | a student's close sends status Closed and the resolution time, and leaves solution and department alone |
| Lifecycle.ActionsKeepResolvedIffClosed | client/src/components/ComplaintCard.tsx:83-120 | after any update the card sends, the complaint has a resolution time exactly when it is Closed |
| Lifecycle.StudentChoicesExclusive | client/src/components/ComplaintCard.tsx:254-266 | a student is offered either "close" or "reopen", never both, and always one of them |
| Lifecycle.ClosedOnlyReopens | client/src/components/ComplaintCard.tsx:183-266 | on a Closed complaint the only action offered to anyone is the student's reopen |
| Lifecycle.DepartmentCloseHasSolution | client/src/components/ComplaintCard.tsx:84-92 | a department user who closes a complaint that was not closed leaves a non-blank, trimmed solution |
| Lifecycle.CloseThenReopen | client/src/components/ComplaintCard.tsx:83-110 | a department close followed by a student reopen gives a Reopened complaint with no solution and no resolution time, and the other fields unchanged |
| Lifecycle.StudentCloseNeedsNoSolution | client/src/components/ComplaintCard.tsx:118-120 | a student's close needs no solution and keeps the solution text |
| ClientData.ErrorText | client/src/services/api.ts:16-17 | the error text is never empty, and a non-empty message is kept as it is |
| ClientData.HandleResponse | client/src/services/api.ts:13-23 | 401 and 403 fail with `Unauthorized` whatever the body says; other failures carry the body's message; a success yields the body |
| ClientData.AuthorizationHeader | client/src/services/api.ts:5-11 | the header always starts with `Bearer ` |
| ClientData.HeaderCarriesToken | client/src/services/api.ts:5-11 | the server's token gate reads back exactly the token the client stored |
| ClientData.MissingTokenSendsNull | client/src/services/api.ts:5-11 | with no stored token the gate receives the token `null` |
| ClientData.HandleApiError | client/src/context/DataContext.tsx:27-34 | `Unauthorized` and `Invalid token` end the session; any other message is only shown |
| ClientData.GateRejectionLogsOut | client/src/context/DataContext.tsx:27-34 | every request the token gate rejects, with 401 or with 403, ends the session |
| ClientData.NoTokenLogsOut | client/src/context/DataContext.tsx:27-34 | a request sent without a stored token ends the session when the verifier refuses `null` |
| ClientData.ServerErrorNotifies | client/src/context/DataContext.tsx:27-34 | a server failure other than the gate's is shown with its own message, and the session survives |
| ClientData.Refresh | client/src/context/DataContext.tsx:36-57 | signed out, both lists are emptied; otherwise the loaded lists replace the cache, and on failure the cache stays and the error is handled |
| ClientData.ByStudent | client/src/context/DataContext.tsx:95-97 | only the student's complaints |
| ClientData.ByDepartment | client/src/context/DataContext.tsx:99-101 | only the department's complaints |
| ClientData.GettersAreExact | client/src/context/DataContext.tsx:95-101 | the getters keep every matching complaint, as often as listed, and nothing else |
| ClientData.GettersKeepOrder | client/src/context/DataContext.tsx:95-101 | the getters commute with concatenation, so they keep list order |
| ClientData.SignedOutSeesNothing | client/src/context/DataContext.tsx:37-42 | signed out, every list view is empty |
| ClientData.AddComplaint | client/src/context/DataContext.tsx:71-81 | a created complaint goes in front and the answer is true; a failure leaves the list, answers false and is handled |
| ClientData.AddComplaintRoot | context/DataContext.tsx:49-52 | the root client puts the created complaint in front; an error propagates to the caller |
| ClientData.ReplaceById | client/src/context/DataContext.tsx:86 | every entry with the id is replaced by the returned row, and every other entry is kept |
| ClientData.ReplaceByIdLaws | client/src/context/DataContext.tsx:86 | replacing an id the list does not hold changes nothing; replacing twice keeps the second row |
| ClientData.UpdateComplaint | client/src/context/DataContext.tsx:83-93 | the returned row replaces the entries with its id and the answer is true; a failure leaves the list, answers false and is handled |
| ClientData.UpdateComplaintRoot | context/DataContext.tsx:54-57 | the root client replaces the entries with the returned row; an error propagates |
| ClientData.ListedIdSpeltAsListed | client/src/context/DataContext.tsx:83-86 | on a list that mirrors the table, every listed id is spelt as the list spells every entry of its key, so the client's exact-id replace finds exactly the entries of the updated row |
| ClientData.UpdateKeepsMirror | client/src/context/DataContext.tsx:83-93 | a successful server update followed by the client's replace keeps the cached list equal to the server's rows, for an id spelt as the list spells it |
| ClientData.UpdateByCaseVariantLeavesStaleEntry | client/src/context/DataContext.tsx:83-86 | an update addressed by a letter-case variant of a listed id changes the server's row but leaves the listed entry stale, because the client compares ids exactly |
| ClientData.CreateKeepsMirror | client/src/context/DataContext.tsx:71-81 | a server creation followed by the client's prepend keeps the cached list equal to the server's rows |
| ClientData.SolutionRequest | client/src/services/api.ts:93-100 | the draft request's body carries the complaint's text and department |
| ClientData.AdviceRequest | client/src/components/ComplaintCard.tsx:69 | no advice request is sent without a solution; otherwise its body carries the complaint's text and solution |
| ClientData.RouteId | server/server.js:246 | the `:id` a route reads is a plain segment, and the request's path (before any `?` or `#`) is exactly the action path built for that id |
| ClientData.PathPart | server/server.js:246 | the path the router matches is a prefix of the request target with no `?` or `#`, and the whole target when it has neither |
| ClientData.RoutePathRoundTrip | client/src/services/api.ts:93-109 | a path built for an id routes back to that id exactly when the id is a plain segment: non-empty, not `.` or `..`, and free of `/`, `?`, `#`, `%`, `\`, tab, line feed and carriage return |
| ClientData.RequestsRouteToComplaint | client/src/services/api.ts:93-109 | both AI requests route on the server to the complaint they are about, when its id is a plain segment |
| Queries.RanksSeparate | client/src/pages/DepartmentComplaints.tsx:11-22 | the rank tables give different values different ranks |
| Queries.DepartmentList | client/src/pages/DepartmentComplaints.tsx:34-39 | the department page lists only its own department's complaints, and none without a department |
| Queries.StudentList | client/src/pages/MyComplaints.tsx:27-32 | the student page lists only the student's own complaints, and none when signed out |
| Queries.FilterByStatus | client/src/pages/DepartmentComplaints.tsx:78-80 | the filter keeps only complaints of the chosen status, or all of them |
| Queries.StatusFilterExact | client/src/pages/DepartmentComplaints.tsx:78-80 | `All` keeps the list; a status keeps exactly the complaints that have it, each as often as listed |
| Queries.SortOrderOf | client/src/pages/MyComplaints.tsx:35-53 | each select value picks its order, and anything else falls back to newest first |
| Queries.SortOrderRoundTrip | client/src/pages/MyComplaints.tsx:35-53 | every order is selected by its own value |
| Queries.Ordered | client/src/pages/MyComplaints.tsx:35-53 | the sorted list is a permutation of the input, ordered by date (either way), by status rank or by priority rank |
| Queries.RankSortsKeepTies | client/src/pages/DepartmentComplaints.tsx:84-98 | sorting by status or by priority keeps each group of equal rank in list order |
| Queries.OrderedIsTheStableSort | client/src/pages/DepartmentComplaints.tsx:84-98 | any stable sort with the page's comparator returns exactly `Ordered` |
| Queries.Processed | pages/DepartmentComplaints.tsx:77-103 | the shown list is a permutation of the filtered list, and no longer than the input |
| Queries.ProcessedDepartmentList | client/src/pages/DepartmentComplaints.tsx:34-101 | a complaint is shown exactly when it is in the list, of the viewer's department, and passes the filter |
| Queries.BatchSelection | pages/DepartmentComplaints.tsx:48-55 | the batch works on Open or Reopened complaints with no solution |
| Queries.SelectionMatchesCount | pages/DepartmentComplaints.tsx:48-107 | the button's number is the size of the batch, which holds every ticket needing a solution and nothing else |
| Queries.NothingPendingSelectsNothing | pages/DepartmentComplaints.tsx:48-55 | with no ticket needing a solution the batch is empty and the count is 0 |
| Batch.Step | pages/DepartmentComplaints.tsx:61-66 | one ticket fails exactly when its draft fails or no row's id is the same key as its id |
| Batch.StepIsEndpointCalls | pages/DepartmentComplaints.tsx:61-66 | one ticket is the draft endpoint followed by the root update endpoint with `{ solutionText }`, and the returned row replaces the ticket in the list |
| Batch.RunBatch | pages/DepartmentComplaints.tsx:60-74 | the loop's result is `RunFrom`; it counts at most the selected tickets |
| Batch.RunFromProgress | pages/DepartmentComplaints.tsx:60-74 | the completed tickets all had a draft and a stored row, and the first ticket not completed failed |
| Batch.RunFromLeavesOthers | pages/DepartmentComplaints.tsx:60-74 | the batch keeps the table's keys, and leaves every row untouched unless a completed ticket's id has its key |
| Batch.RunFromWritesDrafts | pages/DepartmentComplaints.tsx:60-74 | with ids that are distinct keys, each completed ticket's row is its old row with its own draft as solution |
| Batch.StepKeepsListIds | pages/DepartmentComplaints.tsx:63-64 | a succeeding ticket on a mirrored list keeps the list's length and every entry's id |
| Batch.RunFromKeepsMirror | pages/DepartmentComplaints.tsx:60-74 | a list that matches the table still matches it after a batch over tickets spelt as the list spells them |
| Analytics.Windowed | pages/Analytics.tsx:36-44 | `all` keeps the list; a bounded range keeps only complaints created on or after the cutoff |
| Analytics.WindowExact | pages/Analytics.tsx:36-44 | a bounded range keeps exactly the complaints created since its cutoff, each as often as listed |
| Analytics.WindowsNest | pages/Analytics.tsx:36-44 | the 30-day view is within the 90-day view, which is within all time |
| Analytics.StatsPartition | pages/Analytics.tsx:46-53 | open and reopened count their statuses; closed counts exactly the Closed complaints and is never negative; the three sum to the total; the active card counts the complaints that are not Closed |
| Analytics.DepartmentCountsSum | pages/Analytics.tsx:74-81 | entry `i` counts department `i`; the counts sum to at most the total, and to the total exactly when every complaint names a listed department |
| Analytics.PriorityCountsSum | pages/Analytics.tsx:83-90 | entry `i` counts priority `i`, and the counts sum to the total |
| Analytics.TallyIsCount | pages/Analytics.tsx:101-105 | a day is in the tally exactly when some complaint falls on it, and its count is how many do |
| Analytics.SortLabels | pages/Analytics.tsx:107 | the sorted labels are the tally's labels, each once, in increasing string order |
| Analytics.IncreasingUnique | pages/Analytics.tsx:107 | a set of labels has only one increasing order, so the sort's result is determined |
| Analytics.DayChartFacts | pages/Analytics.tsx:101-118 | the chart has one label per day some complaint falls on, in increasing order; each count is that day's number of complaints; the counts sum to the total |
| Prediction.PredictDepartment | services/predictionService.ts:4-18 | the prediction is always one of the four departments |
| Prediction.PredictIsFirstMatch | services/predictionService.ts:4-18 | the classifier is the first matching rule of the list IT, Financial, Academic over the lower-cased text, with Student Affairs as the default |
| Prediction.PredictionCases | services/predictionService.ts:7-17 | IT exactly when an IT keyword appears; Financial exactly for a financial keyword without an IT one; Academic exactly for an academic keyword without either; Student Affairs exactly for none |
| Prediction.KeywordAnyCase | services/predictionService.ts:5-9 | an IT keyword in any letter case yields IT |
| Prediction.PredictionIgnoresCase | services/predictionService.ts:5 | upper- or lower-casing the text first changes no prediction |
| Submission.FindStudent | pages/NewComplaint.tsx:77 | the user found has role student and an id equal to the trimmed entered id, ignoring case; none is found exactly when no user matches |
| Submission.FindStudentIsFirst | pages/NewComplaint.tsx:77 | the user found is the first match in the list |
| Submission.FindStudentIgnoresCase | pages/NewComplaint.tsx:77 | letter case in the entered id does not change who is found |
| Submission.Submit | pages/NewComplaint.tsx:60-92 | blank text or no user stops with a warning; a submitted body is complete (no NOT NULL column left out) and carries the form's department, untrimmed text and priority |
| Submission.StudentFilesAsSelf | pages/NewComplaint.tsx:75-92 | a student with some text files exactly the body of their own id and name, department, text and priority |
| Submission.DepartmentFilesForStudent | pages/NewComplaint.tsx:67-84 | a department user with a blank id is stopped; one whose id matches no student is stopped with that id; otherwise the body names a matching student's id and name |
| Submission.ShownSuggestion | pages/NewComplaint.tsx:26-40 | a suggestion is shown exactly when the user is a student, the trimmed text has at least 25 characters, and the answer names another department than the selected one |
| Submission.ApplySuggestion | pages/NewComplaint.tsx:175-177 | applying selects the suggested department and hides the suggestion |
| Submission.AppliedSuggestionSettles | pages/NewComplaint.tsx:175-177 | after applying, the same answer is not suggested again |
| SeedData.Cells | server/database.js:102-112 | the columns of a line, trimmed: ticket, student and category from the front; priority, status and date from the back; the text has no double quote and no surrounding space |
| SeedData.NormaliseStatus | server/database.js:160-162 | Resolved and Closed close, Reopened reopens, and anything else is Open |
| SeedData.NormaliseStatusRoot | database.js:123-126 | the root mapping, with its explicit "In Progress" branch, is the same mapping |
| SeedData.StudentIds | server/database.js:132 | each non-empty id starting with `S`, once |
| SeedData.FirstStudentEmailLiteral | server/database.js:137 | the first student's address is the pattern's address with no digits |
| SeedData.StudentUser | server/database.js:134-143 | student `index` keeps its id and gets role student, the e-mail for its index, and an age from 20 to 24 when ages are seeded |
| SeedData.DepartmentUsers | server/database.js:123-128 | the four department accounts, one per department, in list order |
| SeedData.DepartmentAccountsDistinct | server/database.js:123-128 | the department accounts have distinct ids and e-mails, none of which looks like a student's |
| SeedData.SeedUsers | server/database.js:145 | the department accounts, then the students |
| SeedData.SeedUserIdsDistinct | server/database.js:145-148 | the seeded ids are distinct keys of the case-insensitive primary key exactly when no two student ids are the same key |
| SeedData.SeedEmailsDistinct | server/database.js:137-148 | the seeded e-mails are distinct keys of the UNIQUE index exactly when no student after the first has the bare id `S` and no two students after the first have ids that are the same key |
| SeedData.SeedUsersInsertable | server/database.js:145-148 | the one users insert passes the primary key and the UNIQUE index exactly when no two student ids are the same key and no later student has the bare id `S` |
| SeedData.StudentEmailKeys | server/database.js:137 | two student addresses are the same key exactly when the earlier is the first student's and the later id is the bare `S`, or neither is the first's and their ids are the same key |
| SeedData.SeedEmailsClash | server/database.js:137 | a later student with the bare id `S` gets the first student's address |
| SeedData.NameMap | server/database.js:146 | every id maps to the name of the last user with that id |
| SeedData.NameMapDistinct | server/database.js:146 | with distinct ids, every user's id maps to its own name |
| SeedData.Resolve | server/database.js:154-187 | the kept entries give all their rows, or the seed fails at an abort |
| SeedData.AbortDecides | server/database.js:181 | the first abort of a new ticket, with no abort before it, decides the seed's failure |
| SeedData.FailureSpreads | server/database.js:154-187 | a seed that fails on the first lines fails the same way on all of them |
| SeedData.FirstWins | server/database.js:151-187 | the seeding loop computes the first entry of every ticket, resolved |
| SeedData.FirstWinsRows | server/database.js:152-158 | every row of a successful seed comes from a line, and no two rows share a ticket id |
| SeedData.KeptRowsReferenceUsers | server/database.js:158-175 | when every row the lines produce names a user, so does every row of a successful seed |
| Dedup.KeepFirst | server/database.js:152-186 | the first element of each key, in order: keys distinct, each element kept is the first of its key |
| Dedup.KeepFirstSnoc | server/database.js:158-186 | one more input element is kept exactly when its key is new |
| SeedServer.ParseLine | server/database.js:97-114 | a blank line or one with fewer than seven cells gives no record; otherwise its columns |
| SeedServer.RobustParse | server/database.js:94-117 | the first line is the header; every later line gives at most one record, with trimmed cells and no double quote in the text |
| SeedServer.RobustParseRoundTrip | server/database.js:94-117 | a file rendered from representable rows under a header line parses back to exactly their records |
| SeedServer.SubmittedAt | server/database.js:164-169 | a date without exactly three `/` parts gives no time, and any time it gives is within the JavaScript time range |
| SeedServer.SubmittedAtIsDayFirst | server/database.js:167-168 | in a printed date the first number is the day and the second the month, counted from 1 |
| SeedServer.TimeClip | server/database.js:169 | a date outside the JavaScript time range is dropped and any other is kept |
| SeedServer.SeedRow | server/database.js:172-184 | the row copies the columns, takes the student's name, maps the status, cuts the time to the second, and for a closed ticket adds a resolution three days later and the stock solution |
| SeedServer.RecordEntry | server/database.js:154-186 | a record with an empty ticket or student id, an unknown student or an unusable date gives nothing; a closed ticket whose resolution falls outside the date range aborts; otherwise its row |
| SeedServer.Users | server/database.js:121-145 | no two seeded users have the same id string, and the users' ids and e-mails are distinct keys exactly when the student ids are distinct keys and no later student has the bare id `S` |
| SeedServer.Seed | server/database.js:120-193 | users whose keys clash fail the seed with `DuplicateUser`; otherwise the first row of each ticket, resolved, where an unrenderable resolution date aborts; rows whose ticket ids clash as keys fail with `DuplicateTicket`; a success returns the users and those rows |
| SeedServer.RowsReferenceUsers | server/database.js:148-190 | every row of a successful seed names a seeded user and carries that user's name, and no two rows share a ticket id |
| SeedRoot.StudentColumn | database.js:83 | the second cell of every line, trimmed; a line without a comma fails the seed |
| SeedRoot.IsoDate | database.js:128-130 | a date gives an ISO date text exactly when it has three non-empty `/` parts |
| SeedRoot.IsoDateIsMonthFirst | database.js:130 | the first number is read as the month and the second as the day |
| SeedRoot.SeedRow | database.js:133-144 | the row copies the columns, takes the student's name, maps the status, cuts the time to the second, and for a closed ticket adds the stock solution |
| SeedRoot.LineEntry | database.js:103-146 | a short line, one without a ticket id, one missing a required column, one of an unknown student or one with a malformed date gives nothing; an invalid date aborts; otherwise its row |
| SeedRoot.Users | database.js:74-95 | no two seeded users have the same id string; all have the stock password as typed and no age; ids and e-mails are distinct keys exactly when the student ids are distinct keys and no later student has the bare id `S` |
| SeedRoot.PlainSeedUsers | database.js:74-93 | every user the root seeds keeps the stock password as typed and has no age |
| SeedRoot.Seed | database.js:72-154 | a line without a comma fails first with `NoStudentColumn`; then users whose keys clash fail with `DuplicateUser`; otherwise the first row of each ticket, where an invalid date aborts; rows whose ticket ids clash as keys fail with `DuplicateTicket`; a success returns the users and those rows |
| SeedRoot.BlankLineFailsSeed | database.js:82-83 | a blank data line fails the whole seed |
| SeedRoot.RowsReferenceUsers | database.js:96-151 | every row of a successful seed names a seeded user and carries that user's name, and no two rows share a ticket id |
| Text.Trim | pages/NewComplaint.tsx:62 | `trim()` is empty exactly for all-space text, and its result starts and ends with no space |
| Text.ToLower | services/predictionService.ts:5 | lower-casing maps each character by itself and keeps the length |
| Text.Contains | services/predictionService.ts:7 | `includes` holds exactly when the word occurs at some position |
| Text.Split | server/database.js:102 | `split` yields at least one part, exactly one when the separator is absent, and no part holds the separator |
| Text.JoinThenSplit | server/database.js:112 | joining parts without the separator and splitting again gives the parts back |
| Text.ParseIntOfNatToString | server/database.js:168 | `parseInt` reads back what a number prints as |
| Text.ParseInt | server/database.js:168 | `parseInt` of text without a hexadecimal prefix is its decimal reading, which fails exactly when no digit follows the sign |
| Text.RemoveAll | server/database.js:112 | `replace(/"/g, '')` leaves no double quote and every other character as often as before |
| Text.PadTwo | database.js:130 | `padStart(2, '0')` keeps a string of two or more characters and left-fills a shorter one with zeros to length two |
| Text.SplitThenJoin | server/database.js:112 | joining the parts of a split with the same separator restores the string |
| Lists.Filter | client/src/context/DataContext.tsx:96 | `filter` keeps only passing elements and is never longer |
| Lists.FilterMultiset | client/src/context/DataContext.tsx:96 | `filter` keeps every occurrence of a passing element and none of a failing one |
| Lists.SortByKey | client/src/pages/MyComplaints.tsx:35-53 | the key sort returns a permutation ordered by the key |
| Lists.SortStable | client/src/pages/MyComplaints.tsx:35-53 | the key sort keeps each key's elements in input order |
| Lists.StableSortUnique | client/src/pages/MyComplaints.tsx:35-53 | any sequence ordered by the key that keeps each key's elements in input order is exactly the key sort |
| Lists.SumOfCounts | pages/Analytics.tsx:74-90 | counts over distinct keys sum to the number of elements whose key is one of them |
| Text.BelowTotal | pages/Analytics.tsx:107 | of two different strings exactly one sorts first |
| Text.BelowTransitive | pages/Analytics.tsx:107 | the string order is transitive |

## Left out

- Network, the database server, `localStorage`, React state and rendering,
  notifications and navigation. Each endpoint and page handler is a function from its
  inputs to its result. Of the database, the model keeps the tables as values and the
  constraints the endpoints run into: the primary keys, the UNIQUE e-mail index, the
  foreign key from complaints to users, NOT NULL on the columns a creation or signup
  body may omit, and the case-insensitive collation of text keys (`Domain.SameKey` for
  the users' ids and e-mails and the foreign key, `ComplaintServer.RowKey` for
  complaint ids).
- Domain.SameKey: the collation is modelled as ASCII case folding. `utf8mb4_unicode_ci`
  also equates accented and unaccented letters, ignores trailing spaces and folds non-ASCII case; those keys are compared as different here. The
  members below inherit this.
- FindUser: ASCII case folding only (see `Domain.SameKey`); an e-mail or role that matches a row only through accents or trailing spaces is not found.
- Login: ASCII case folding only (see `Domain.SameKey`); an e-mail or role that matches a stored one only through accents or trailing spaces gets 401.
- Signup: ASCII case folding only (see `Domain.SameKey`); an e-mail that matches a stored one only through accents or trailing spaces is not refused with 409.
- UpdateProfile: ASCII case folding only (see `Domain.SameKey`); an e-mail that matches a stored one only through accents or trailing spaces of another account is not refused with 409.
- LoginPlain: ASCII case folding only (see `Domain.SameKey`); an e-mail or role that matches a stored one only through accents or trailing spaces gets 401.
- SignupPlain: ASCII case folding only (see `Domain.SameKey`); an e-mail that matches a stored one only through accents or trailing spaces is not refused with 409.
- SeedUserIdsDistinct: ASCII case folding only (see `Domain.SameKey`); two student ids the collation equates only through accents or trailing spaces count as distinct keys.
- SeedEmailsDistinct: ASCII case folding only (see `Domain.SameKey`); two e-mails the collation equates only through accents or trailing spaces count as distinct keys.
- ComplaintServer.RowKey: complaint ids are keyed by ASCII case folding, like
  `Domain.SameKey`; ids the collation equates only through accents or trailing spaces
  are different keys here. ComplaintServer.Insert, Create, CreatePlain, Update,
  UpdatePlain and Batch.Step inherit this.
- ComplaintServer.Update: a body field sent as JSON `null` would write NULL (and fail
  on a NOT NULL column); a `Patch` field is only absent or given, so this is not
  modelled. UpdatePlain inherits this.
- ComplaintServer.CreatePlain: the root table's `priority` is free text and the body's
  value is stored as it is; the model types it as the four levels, so a body with
  another priority text is not modelled (see Analytics.PriorityCountsSum).
- Column widths (`VARCHAR(255)`, `VARCHAR(50)`) and the truncation or error on longer
  text are not modelled. NOT NULL is modelled as a failed insert or update, which is
  the behaviour under MySQL's default strict SQL mode.
- RouteId: Express percent-decodes `req.params.id`; the model does not decode, and an
  id with `%` is not routed (`PlainSegment`). The URL parser's rewriting of the path
  (removing `.` and `..` segments, turning `\` into `/`, stripping tab, line feed and
  carriage return) is not computed either; ids it would rewrite are not routed.
- RoutePathRoundTrip: stated for the ids the model routes; for an id with `%`, a dot
  segment, a backslash, a tab or a line break the server would read another path,
  which the model does not compute.
- RequestsRouteToComplaint: stated for plain-segment ids, as `RoutePathRoundTrip`.
- Prediction.PredictionIgnoresCase: holds for the ASCII case mapping of `Text.ToLower`
  and `Text.ToUpper`. Under JavaScript's full Unicode mapping it can fail: `ı`
  upper-cases to `I`, which lower-cases to `i`, so upper-casing first can create a
  keyword.
- Analytics.PriorityCountsSum: a complaint's priority is one of the four levels. The
  seeders copy the CSV's priority text into a `VARCHAR` column as it is, and a seeded
  row with another priority would fall outside every bar of the chart (and get an
  undefined rank in `Queries.Ordered`'s priority sort). Seeded rows are not converted
  into `Complaint` values, so this case is not modelled.
- The AI model. Priority, recommendation, solution, advice and department suggestion
  calls are parameters returning `None` on failure. The prompts and the JSON clean-up
  of AI answers are not modelled.
- Password hashing, password checking, and JWT signing and verification are parameters.
  The token lifetime is only a constant.
- The clock (`Date.now()`, `new Date()`) is a parameter `now`. Date construction from
  parts or strings (`new Date(y, m, d)`, `new Date(string)`) is the parameter
  `makeDate` or `parseDate`. The conversion of a time to its ISO day (`toISOString()`)
  is the parameter `dayKey`.
- Analytics.Cutoff: the page goes back `days` calendar days in local time; the model
  goes back `days` × 24 h. These differ across a daylight-saving change.
- Text.ToLower, Text.ToUpper: only ASCII letters change case; JavaScript's full Unicode
  case mapping is not modelled.
- Text.Below: compares Unicode code points, where JavaScript compares UTF-16 code
  units. The two orders agree on the ASCII day labels the page sorts.
- Domain.WholeSecond: the MySQL `DATETIME` text is represented by the time it denotes,
  cut to the second. The text itself is not built.
- Promise concurrency: `Promise.all` on the bcrypt department page, and request
  interleaving in general. The bcrypt page's parallel batch is left out; the root
  page's sequential batch is modelled.
- The 750 ms debounce and cancellation of the suggestion request on the new-complaint
  page. `Submission.ShownSuggestion` models the state after the effect has run.
- The root client's `services/api.ts`, the route wrappers, the headers, the profile
  and login pages, and the colour helpers of the complaint card.
- JSON parse failures of response bodies. A `null` solution text is modelled as the
  empty string.
- `constants.ts` is not part of this model. The department list and its order are
  taken from `server/server.js:23-28`.
- The `id` field of an update body, which would rename the row, is not modelled.
- Batch.RunBatch: the stop at the first failure is modelled, but the notices are not:
  the start notice with the number of tickets, the success notice with the count, and
  the fixed error notice. The `refreshData()` that reloads both lists afterwards is
  also not modelled.
- Submission.ShownSuggestion: the 25-character threshold counts code points (`|s|`);
  `trim().length` counts UTF-16 code units, so text with characters outside the Basic
  Multilingual Plane reaches the threshold sooner in the page than in the model.
- Text.PadTwo: counts code points; `padStart` counts UTF-16 code units, so a single
  character outside the Basic Multilingual Plane is already two units long and is kept
  unpadded by the page, while the model pads it.

## Design notes

- The root signup stores the e-mail as typed, while its duplicate check and the login
  use the lower-cased e-mail. Under the case-insensitive collation the two are the same
  key, so a mixed-case signup can still log in (`AuthServer.SignupPlainThenLogin`) and
  a case variant of a stored e-mail is refused with 409
  (`AuthServer.SignupPlainRefusesCaseVariant`).
- The servers do not check status transitions. Any body is merged into the row. The
  life-cycle properties are properties of the complaint card, which is the only place
  that builds updates.
- The two seeders read the `Date_Submitted` column differently. `server/database.js`
  reads it as day/month/year (`SeedServer.SubmittedAtIsDayFirst`). The root
  `database.js` reads it as month/day/year (`SeedRoot.IsoDateIsMonthFirst`).
