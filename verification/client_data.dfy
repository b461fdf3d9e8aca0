/**
 * The client's data layer: how `api.ts` turns an HTTP response into data or an
 * error and which `Authorization` header it sends, how the data context reacts to an
 * error, and how it keeps its cached complaint list (prepend on create, replace by id
 * on update, the two exact-match getters). The two data contexts differ in failure
 * handling: the bcrypt client reports a failure and answers `false`, the root client
 * lets the error propagate; both leave the list as it was.
 */
module ClientData {
  import opened Wrappers
  import opened Text
  import opened Domain
  import opened Lists
  import AuthServer
  import ComplaintServer

  // ---------------------------------------------------------------- api.ts

  /** A response as `fetch` delivers it: the status, the body's `message` if it has one, and the body. */
  datatype Response<T> = Response(status: nat, message: Option<string>, data: T)

  /** `response.ok`. */
  predicate Ok(status: nat) {
    200 <= status <= 299
  }

  const UnauthorizedMessage: string := "Unauthorized"
  const InvalidTokenMessage: string := "Invalid token"
  const GenericApiError: string := "An API error occurred"

  /** The body's message, or the stock text when the message is absent or empty. */
  function ErrorText(message: Option<string>): (r: string)
    ensures r != ""
    ensures message.Some? && message.value != "" ==> r == message.value
  {
    if message.Some? && message.value != "" then message.value else GenericApiError
  }

  /**
   * `handleResponse`: 401 and 403 become the error `Unauthorized` whatever the body
   * says; any other failure carries the body's message; a success yields the body.
   */
  function HandleResponse<T>(resp: Response<T>): (r: Result<T, string>)
    ensures r.Success? <==> Ok(resp.status)
    ensures r.Success? ==> r.value == resp.data
    ensures resp.status == 401 || resp.status == 403 ==> r == Failure(UnauthorizedMessage)
    ensures r.Failure? && resp.status != 401 && resp.status != 403 ==> r.error == ErrorText(resp.message)
  {
    if resp.status == 401 || resp.status == 403 then Failure(UnauthorizedMessage)
    else if !Ok(resp.status) then Failure(ErrorText(resp.message))
    else Success(resp.data)
  }

  /** The response a server error is sent as. */
  function ErrorResponse<T>(e: AuthServer.HttpError, body: T): Response<T> {
    Response(e.status, Some(e.message), body)
  }

  /** `getAuthHeaders`: `Bearer ` and the stored token, which prints as `null` when none is stored. */
  function AuthorizationHeader(stored: Option<string>): (h: string)
    ensures |h| >= 7 && h[..7] == "Bearer "
  {
    "Bearer " + (if stored.Some? then stored.value else "null")
  }

  /** The server's token gate reads back exactly the token the client stored. */
  lemma HeaderCarriesToken(token: string)
    requires ' ' !in token
    ensures AuthServer.ExtractToken(Some(AuthorizationHeader(Some(token)))) == Some(token)
  {
    AuthServer.BearerHeaderYieldsToken(token);
  }

  /** With no stored token the gate receives the four letters `null` as the token. */
  lemma MissingTokenSendsNull()
    ensures AuthServer.ExtractToken(Some(AuthorizationHeader(None))) == Some("null")
  {
    AuthServer.BearerHeaderYieldsToken("null");
  }

  // ---------------------------------------------------------------- error handling

  /** What the data context does with an error: end the session, or only show a notice. */
  datatype Reaction = LogOut(notice: string) | Notify(notice: string)

  const SessionExpired: string := "Your session has expired. Please log in again."
  const ConnectionFailed: string := "Could not connect to the server."

  /** `handleApiError`: the two session messages log the user out; any other only notifies. */
  function HandleApiError(message: string): (r: Reaction)
    ensures r.LogOut? <==> message == UnauthorizedMessage || message == InvalidTokenMessage
    ensures r.LogOut? ==> r.notice == SessionExpired
    ensures r.Notify? ==> r.notice != "" && (message != "" ==> r.notice == message)
  {
    if message == UnauthorizedMessage || message == InvalidTokenMessage then LogOut(SessionExpired)
    else Notify(if message != "" then message else ConnectionFailed)
  }

  /** Every request the token gate rejects, with 401 or with 403, ends the client's session. */
  lemma GateRejectionLogsOut<T>(header: Option<string>, verify: string -> Option<AuthServer.Payload>, body: T)
    requires AuthServer.AuthenticateToken(header, verify).Reject?
    ensures var r := HandleResponse(ErrorResponse(AuthServer.AuthenticateToken(header, verify).error, body));
            r.Failure? && HandleApiError(r.error).LogOut?
  {
  }

  /** A request sent without a stored token is rejected if the verifier refuses `null`, and the session ends. */
  lemma NoTokenLogsOut<T>(verify: string -> Option<AuthServer.Payload>, body: T)
    requires verify("null").None?
    ensures var g := AuthServer.AuthenticateToken(Some(AuthorizationHeader(None)), verify);
            && g == AuthServer.Reject(AuthServer.HttpError(403, InvalidTokenMessage))
            && HandleApiError(HandleResponse(ErrorResponse(g.error, body)).error).LogOut?
  {
    MissingTokenSendsNull();
  }

  /** A server failure other than the gate's reaches the user as its own message, and the session survives. */
  lemma ServerErrorNotifies<T>(e: AuthServer.HttpError, body: T)
    requires !Ok(e.status) && e.status != 401 && e.status != 403
    requires e.message != "" && e.message != UnauthorizedMessage && e.message != InvalidTokenMessage
    ensures HandleResponse(ErrorResponse(e, body)) == Failure(e.message)
    ensures HandleApiError(e.message) == Notify(e.message)
  {
  }

  // ---------------------------------------------------------------- cached lists

  /** The data context's state: the users and complaints last loaded. */
  datatype Cache = Cache(users: seq<PublicUser>, complaints: seq<Complaint>)

  /** `!token`: no token, or an empty one. */
  predicate SignedOut(token: Option<string>) {
    token.None? || token.value == ""
  }

  /**
   * `refreshData` of the bcrypt client: signed out, both lists are emptied; otherwise
   * the loaded lists replace the cache, or on failure the cache stays and the error is handled.
   */
  function Refresh(cache: Cache, token: Option<string>, loaded: Result<Cache, string>): (r: (Cache, Option<Reaction>))
    ensures SignedOut(token) ==> r == (Cache([], []), None)
    ensures !SignedOut(token) && loaded.Success? ==> r == (loaded.value, None)
    ensures !SignedOut(token) && loaded.Failure? ==> r == (cache, Some(HandleApiError(loaded.error)))
  {
    if SignedOut(token) then (Cache([], []), None)
    else match loaded
      case Success(latest) => (latest, None)
      case Failure(message) => (cache, Some(HandleApiError(message)))
  }

  /** The complaint was filed by student `id`. */
  function OwnedBy(id: string): Complaint -> bool {
    (c: Complaint) => c.studentId == id
  }

  /** The complaint is routed to department `name`. */
  function InDepartment(name: string): Complaint -> bool {
    (c: Complaint) => c.department == name
  }

  /** `getComplaintsByStudent`: the student's complaints, in list order. */
  function ByStudent(cs: seq<Complaint>, id: string): (r: seq<Complaint>)
    ensures forall k :: 0 <= k < |r| ==> r[k].studentId == id
  {
    Filter(cs, OwnedBy(id))
  }

  /** `getComplaintsByDepartment`: the department's complaints, in list order. */
  function ByDepartment(cs: seq<Complaint>, name: string): (r: seq<Complaint>)
    ensures forall k :: 0 <= k < |r| ==> r[k].department == name
  {
    Filter(cs, InDepartment(name))
  }

  /** The getters keep every matching complaint (as often as the list holds it) and nothing else. */
  lemma GettersAreExact(cs: seq<Complaint>, id: string, name: string, c: Complaint)
    ensures multiset(ByStudent(cs, id))[c] == if c.studentId == id then multiset(cs)[c] else 0
    ensures multiset(ByDepartment(cs, name))[c] == if c.department == name then multiset(cs)[c] else 0
  {
    FilterMultiset(cs, OwnedBy(id), c);
    FilterMultiset(cs, InDepartment(name), c);
  }

  /** The getters keep list order: they commute with concatenation. */
  lemma GettersKeepOrder(a: seq<Complaint>, b: seq<Complaint>, id: string, name: string)
    ensures ByStudent(a + b, id) == ByStudent(a, id) + ByStudent(b, id)
    ensures ByDepartment(a + b, name) == ByDepartment(a, name) + ByDepartment(b, name)
  {
    FilterAppend(a, b, OwnedBy(id));
    FilterAppend(a, b, InDepartment(name));
  }

  /** Signed out, every list view is empty. */
  lemma SignedOutSeesNothing(cache: Cache, token: Option<string>, loaded: Result<Cache, string>, id: string, name: string)
    requires SignedOut(token)
    ensures ByStudent(Refresh(cache, token, loaded).0.complaints, id) == []
    ensures ByDepartment(Refresh(cache, token, loaded).0.complaints, name) == []
  {
  }

  /**
   * `addComplaint` of the bcrypt client: a created complaint is put in front and the
   * answer is `true`; a failure leaves the list, answers `false` and is handled.
   */
  function AddComplaint(cs: seq<Complaint>, created: Result<Complaint, string>): (r: (seq<Complaint>, bool, Option<Reaction>))
    ensures r.1 <==> created.Success?
    ensures created.Success? ==> |r.0| == |cs| + 1 && r.0[0] == created.value && r.0[1..] == cs && r.2.None?
    ensures created.Failure? ==> r.0 == cs && r.2 == Some(HandleApiError(created.error))
  {
    match created
    case Success(c) => ([c] + cs, true, None)
    case Failure(message) => (cs, false, Some(HandleApiError(message)))
  }

  /** `addComplaint` of the root client: the error propagates and the list is left to the caller unchanged. */
  function AddComplaintRoot(cs: seq<Complaint>, created: Result<Complaint, string>): (r: Result<seq<Complaint>, string>)
    ensures r.Success? <==> created.Success?
    ensures r.Success? ==> r.value == [created.value] + cs
    ensures r.Failure? ==> r.error == created.error
  {
    match created
    case Success(c) => Success([c] + cs)
    case Failure(message) => Failure(message)
  }

  /** Every cached complaint with id `id` replaced by `updated`, the rest kept in place. */
  function ReplaceById(cs: seq<Complaint>, id: string, updated: Complaint): (r: seq<Complaint>)
    ensures |r| == |cs|
    ensures forall k :: 0 <= k < |cs| && cs[k].id != id ==> r[k] == cs[k]
    ensures forall k :: 0 <= k < |cs| && cs[k].id == id ==> r[k] == updated
  {
    if cs == [] then []
    else [if cs[0].id == id then updated else cs[0]] + ReplaceById(cs[1..], id, updated)
  }

  /** Replacing by an id the list does not hold changes nothing; replacing twice keeps the second row. */
  lemma ReplaceByIdLaws(cs: seq<Complaint>, id: string, first: Complaint, second: Complaint)
    ensures (forall k :: 0 <= k < |cs| ==> cs[k].id != id) ==> ReplaceById(cs, id, first) == cs
    ensures first.id == id ==> ReplaceById(ReplaceById(cs, id, first), id, second) == ReplaceById(cs, id, second)
  {
  }

  /**
   * `updateComplaint` of the bcrypt client: the returned row replaces the entries with
   * that id and the answer is `true`; a failure leaves the list, answers `false` and is handled.
   */
  function UpdateComplaint(cs: seq<Complaint>, id: string, updated: Result<Complaint, string>): (r: (seq<Complaint>, bool, Option<Reaction>))
    ensures r.1 <==> updated.Success?
    ensures updated.Success? ==> r.0 == ReplaceById(cs, id, updated.value) && r.2.None?
    ensures updated.Failure? ==> r.0 == cs && r.2 == Some(HandleApiError(updated.error))
  {
    match updated
    case Success(c) => (ReplaceById(cs, id, c), true, None)
    case Failure(message) => (cs, false, Some(HandleApiError(message)))
  }

  /** `updateComplaint` of the root client: the error propagates. */
  function UpdateComplaintRoot(cs: seq<Complaint>, id: string, updated: Result<Complaint, string>): (r: Result<seq<Complaint>, string>)
    ensures r.Success? <==> updated.Success?
    ensures r.Success? ==> r.value == ReplaceById(cs, id, updated.value)
    ensures r.Failure? ==> r.error == updated.error
  {
    match updated
    case Success(c) => Success(ReplaceById(cs, id, c))
    case Failure(message) => Failure(message)
  }

  /** The cached list agrees with the server's table: every entry is the row stored under its id's key. */
  predicate Mirrors(cs: seq<Complaint>, store: ComplaintServer.Store) {
    forall k :: 0 <= k < |cs| ==>
      ComplaintServer.RowKey(cs[k].id) in store && store[ComplaintServer.RowKey(cs[k].id)] == cs[k]
  }

  /**
   * `id` is spelt as the list spells every entry of the same key, as when the client
   * passes the id of a complaint it shows (or of none it shows).
   */
  predicate SpeltAsListed(cs: seq<Complaint>, id: string) {
    forall k :: 0 <= k < |cs| && SameKey(cs[k].id, id) ==> cs[k].id == id
  }

  /** On a mirrored list, the id of any listed complaint is spelt as the list spells it. */
  lemma ListedIdSpeltAsListed(cs: seq<Complaint>, store: ComplaintServer.Store, j: int)
    requires Mirrors(cs, store) && 0 <= j < |cs|
    ensures SpeltAsListed(cs, cs[j].id)
  {
    forall k | 0 <= k < |cs| && SameKey(cs[k].id, cs[j].id) ensures cs[k].id == cs[j].id {
      assert ComplaintServer.RowKey(cs[k].id) == ComplaintServer.RowKey(cs[j].id);
    }
  }

  /**
   * A successful server update followed by the client's replace keeps the cache
   * faithful to the table, when the id is spelt as the list spells it.
   */
  lemma UpdateKeepsMirror(cs: seq<Complaint>, store: ComplaintServer.Store, studentIds: set<string>, id: string, p: Patch)
    requires Mirrors(cs, store) && SpeltAsListed(cs, id)
    requires ComplaintServer.Update(store, studentIds, id, p).Success?
    ensures var (store', row) := ComplaintServer.Update(store, studentIds, id, p).value;
            Mirrors(UpdateComplaint(cs, id, Success(row)).0, store')
  {
    var (store', row) := ComplaintServer.Update(store, studentIds, id, p).value;
    var r := UpdateComplaint(cs, id, Success(row)).0;
    forall k | 0 <= k < |r|
      ensures ComplaintServer.RowKey(r[k].id) in store' && store'[ComplaintServer.RowKey(r[k].id)] == r[k]
    {
      if cs[k].id != id {
        assert ComplaintServer.RowKey(cs[k].id) != ComplaintServer.RowKey(id);
      }
    }
  }

  /**
   * Addressed by a letter-case variant of a listed id, the server updates the row but
   * the client's replace, which compares ids exactly, keeps the old entry: the cache
   * no longer mirrors the table.
   */
  lemma UpdateByCaseVariantLeavesStaleEntry(c: Complaint, studentIds: set<string>)
    requires c.id == "T1" && c.solutionText == ""
    ensures var store := map["t1" := c];
            var p := NoChange.(solutionText := Some("x"));
            && Mirrors([c], store)
            && ComplaintServer.Update(store, studentIds, "t1", p).Success?
            && !Mirrors(UpdateComplaint([c], "t1", Success(ComplaintServer.Update(store, studentIds, "t1", p).value.1)).0,
                        ComplaintServer.Update(store, studentIds, "t1", p).value.0)
  {
    assert ComplaintServer.RowKey("T1") == "t1";
    assert ComplaintServer.RowKey("t1") == "t1";
  }

  /** A complaint created on the server and prepended by the client keeps the cache faithful to the table. */
  lemma CreateKeepsMirror(cs: seq<Complaint>, store: ComplaintServer.Store, created: ComplaintServer.Store, c: Complaint)
    requires Mirrors(cs, store)
    requires ComplaintServer.RowKey(c.id) !in store && created == store[ComplaintServer.RowKey(c.id) := c]
    ensures Mirrors(AddComplaint(cs, Success(c)).0, created)
  {
    var r := AddComplaint(cs, Success(c)).0;
    forall k | 0 <= k < |r|
      ensures ComplaintServer.RowKey(r[k].id) in created && created[ComplaintServer.RowKey(r[k].id)] == r[k]
    {
      if k > 0 {
        assert r[k] == cs[k - 1];
      }
    }
  }

  // ---------------------------------------------------------------- AI requests

  /** A POST request: its path and its JSON body. */
  datatype Post<B> = Post(path: string, body: B)

  datatype SolutionBody = SolutionBody(complaintText: string, department: string)

  datatype AdviceBody = AdviceBody(complaintText: string, solutionText: string)

  /** `fetchGeneratedSolution`: the complaint's id in the path; only its text and department in the body. */
  function SolutionRequest(c: Complaint): (r: Post<SolutionBody>)
    ensures r.body.complaintText == c.complaintText && r.body.department == c.department
  {
    Post(ActionPath(c.id, SolutionAction), SolutionBody(c.complaintText, c.department))
  }

  /**
   * The request for a student's AI advice, sent only when the complaint has a
   * solution; the path carries the id and the body only the text and the solution.
   */
  function AdviceRequest(c: Complaint): (r: Option<Post<AdviceBody>>)
    ensures r.None? <==> c.solutionText == ""
    ensures r.Some? ==> r.value.body.complaintText == c.complaintText && r.value.body.solutionText == c.solutionText
  {
    if c.solutionText == "" then None
    else Some(Post(ActionPath(c.id, AdviceAction), AdviceBody(c.complaintText, c.solutionText)))
  }

  const ComplaintsPrefix: string := "/api/complaints/"

  /** The action segments of the two AI routes. */
  const SolutionAction: string := "generate-solution"
  const AdviceAction: string := "generate-student-recommendation"

  /** Neither action segment holds a query or fragment mark. */
  lemma ActionsHaveNoMarks()
    ensures '?' !in SolutionAction && '#' !in SolutionAction
    ensures '?' !in AdviceAction && '#' !in AdviceAction
  {
  }

  /** `/api/complaints/${id}/<action>`. */
  function ActionPath(id: string, action: string): string {
    ComplaintsPrefix + id + "/" + action
  }

  /**
   * The path the router matches: the request target up to its first `?` (the query
   * string) or `#` (a fragment, which never reaches the server).
   */
  function PathPart(url: string): (r: string)
    ensures |r| <= |url| && r == url[..|r|]
    ensures '?' !in r && '#' !in r
    ensures '?' !in url && '#' !in url ==> r == url
  {
    if url == [] then []
    else if url[0] == '?' || url[0] == '#' then []
    else [url[0]] + PathPart(url[1..])
  }

  /**
   * A segment the model routes as it is: non-empty, not a dot segment (`.` or `..`,
   * which the URL parser removes), and free of `/`, `?`, `#`, the escape `%`, the
   * backslash (which the parser turns into `/`) and tab, line feed and carriage
   * return (which it strips).
   */
  predicate PlainSegment(id: string) {
    && id != "" && id != "." && id != ".."
    && '/' !in id && '?' !in id && '#' !in id && '%' !in id
    && '\\' !in id && '\t' !in id && '\n' !in id && '\r' !in id
  }

  /**
   * The `:id` the route `/api/complaints/:id/<action>` reads from a request target:
   * in the path part, the text between the prefix and `/<action>`, which must be one
   * plain segment; a segment with an escape is not routed by the model.
   */
  function RouteId(url: string, action: string): (r: Option<string>)
    ensures r.Some? ==> PlainSegment(r.value)
    ensures r.Some? ==> PathPart(url) == ActionPath(r.value, action)
  {
    var path := PathPart(url);
    var suffix := "/" + action;
    if |path| > |ComplaintsPrefix| + |suffix|
       && path[..|ComplaintsPrefix|] == ComplaintsPrefix
       && path[|path| - |suffix|..] == suffix
       && PlainSegment(path[|ComplaintsPrefix|..|path| - |suffix|])
    then
      var id := path[|ComplaintsPrefix|..|path| - |suffix|];
      assert path == path[..|ComplaintsPrefix|] + id + path[|path| - |suffix|..];
      Some(id)
    else None
  }

  /**
   * The path of a request built for complaint `id` routes back to `id` exactly when
   * the id is a plain segment: the client does not encode the id, so a `?` or `#` in
   * it cuts the path short, a `/` or `\\` splits it, and a dot segment or a tab or
   * line break is rewritten away before the request is sent.
   */
  lemma RoutePathRoundTrip(id: string, action: string)
    requires '?' !in action && '#' !in action
    ensures RouteId(ActionPath(id, action), action) == Some(id) <==> PlainSegment(id)
  {
    var path := ActionPath(id, action);
    if PlainSegment(id) {
      assert path == ComplaintsPrefix + id + ("/" + action);
      assert '?' !in path && '#' !in path by {
        forall k | 0 <= k < |path| ensures path[k] != '?' && path[k] != '#' {
          if k < |ComplaintsPrefix| {
            assert path[k] == ComplaintsPrefix[k];
          } else if k < |ComplaintsPrefix| + |id| {
            assert path[k] == id[k - |ComplaintsPrefix|];
          } else {
            assert path[k] == ("/" + action)[k - |ComplaintsPrefix| - |id|];
          }
        }
      }
      assert path[..|ComplaintsPrefix|] == ComplaintsPrefix;
      assert path[|ComplaintsPrefix|..|path| - |"/" + action|] == id;
    }
  }

  /** Both AI request paths name the complaint they are about, for an id that is a plain segment. */
  lemma RequestsRouteToComplaint(c: Complaint)
    requires PlainSegment(c.id)
    ensures RouteId(SolutionRequest(c).path, SolutionAction) == Some(c.id)
    ensures AdviceRequest(c).Some? ==> RouteId(AdviceRequest(c).value.path, AdviceAction) == Some(c.id)
  {
    ActionsHaveNoMarks();
    RoutePathRoundTrip(c.id, SolutionAction);
    RoutePathRoundTrip(c.id, AdviceAction);
  }
}
