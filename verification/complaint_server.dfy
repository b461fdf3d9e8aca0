/**
 * The complaint endpoints of both servers over a keyed store: creation (priority from
 * the AI on the bcrypt server, from the request body on the root server), the
 * permissive partial update with its 404, and the two AI drafting endpoints. The AI
 * service and the clock are parameters; an AI call that fails is `None`.
 */
module ComplaintServer {
  import opened Wrappers
  import opened Text
  import opened Domain
  import opened AuthServer

  /**
   * The key a complaint id is stored and looked up under. The `id` column is compared
   * under the case-insensitive collation, so ids that differ only in letter case name
   * the same row.
   */
  function RowKey(id: string): (k: string)
    ensures |k| == |id|
  {
    ToLower(id)
  }

  /** The complaints table: each row under the key of its id. */
  type Store = map<string, Complaint>

  /** A creation body; a field the body omits is `None`. `priority` is read only by the root server. */
  datatype CreateRequest = CreateRequest(
    studentId: Option<string>, studentName: Option<string>, department: Option<string>,
    complaintText: Option<string>, priority: Option<Priority>)

  const CreateFailed: HttpError := HttpError(500, "Failed to create complaint.")
  const UpdateFailed: HttpError := HttpError(500, "Failed to update complaint.")
  const NotFound: HttpError := HttpError(404, "Complaint not found.")

  /** The body has every NOT NULL column a creation copies from it. */
  predicate Complete(req: CreateRequest) {
    req.studentId.Some? && req.studentName.Some? && req.department.Some? && req.complaintText.Some?
  }

  /** The row a creation inserts: Open, no solution, no resolution time, created now. */
  function NewComplaint(id: string, req: CreateRequest, priority: Priority, now: int, advice: string): (c: Complaint)
    requires Complete(req)
    ensures c.id == id && c.status == Open && c.solutionText == "" && c.resolvedAt.None?
    ensures c.priority == priority && c.createdAt == now && c.aiRecommendation == advice
    ensures c.studentId == req.studentId.value && c.studentName == req.studentName.value
    ensures c.department == req.department.value && c.complaintText == req.complaintText.value
  {
    Complaint(id, req.studentId.value, req.studentName.value, req.department.value, req.complaintText.value,
              Open, priority, now, None, "", advice)
  }

  /** Some user's id is the same key as `id`, so the foreign key from complaints to users accepts it. */
  predicate KnownStudent(studentIds: set<string>, id: string) {
    exists u :: u in studentIds && SameKey(u, id)
  }

  /**
   * The complaints table's constraints over the users' ids: every row is stored under
   * the key of its own id (primary key) and names a user (foreign key).
   */
  predicate TableConsistent(store: Store, studentIds: set<string>) {
    forall k :: k in store ==> RowKey(store[k].id) == k && KnownStudent(studentIds, store[k].studentId)
  }

  /**
   * Inserting a row: an id that is the same key as a stored one (primary key) or a
   * student id that is no user's (foreign key) fails.
   */
  function Insert(store: Store, studentIds: set<string>, c: Complaint): (r: Result<Store, HttpError>)
    ensures r.Success? <==> RowKey(c.id) !in store && KnownStudent(studentIds, c.studentId)
    ensures r.Success? ==> r.value.Keys == store.Keys + {RowKey(c.id)} && r.value[RowKey(c.id)] == c
    ensures r.Success? ==> forall k :: k in store ==> r.value[k] == store[k]
    ensures r.Success? && TableConsistent(store, studentIds) ==> TableConsistent(r.value, studentIds)
    ensures r.Failure? ==> r.error == CreateFailed
  {
    if RowKey(c.id) in store || !KnownStudent(studentIds, c.studentId) then Failure(CreateFailed)
    else Success(store[RowKey(c.id) := c])
  }

  /** The id the bcrypt server gives a new complaint: `TCKT<clock>`. */
  function TicketId(now: nat): string {
    "TCKT" + NatToString(now)
  }

  /** The id the root server gives a new complaint: `complaint_<clock>`. */
  function PlainComplaintId(now: nat): string {
    "complaint_" + NatToString(now)
  }

  /**
   * POST /api/complaints on the bcrypt server: id `TCKT<clock>`; the priority is the
   * one the AI classifies, whatever the request says. A body without student id, name,
   * department or text inserts NULL into a NOT NULL column; that, any AI failure, and
   * an insert the keys reject all abort with 500.
   */
  function Create(store: Store, studentIds: set<string>, req: CreateRequest, now: nat,
                  classify: string -> Option<Priority>, advise: string -> Option<string>)
    : (r: Result<(Store, Complaint), HttpError>)
    ensures !Complete(req) ==> r == Failure(CreateFailed)
    ensures r.Success? <==>
              && Complete(req)
              && classify(req.complaintText.value).Some? && advise(req.complaintText.value).Some?
              && RowKey(TicketId(now)) !in store && KnownStudent(studentIds, req.studentId.value)
    ensures r.Failure? ==> r.error == CreateFailed
    ensures r.Success? ==>
              && r.value.1 == NewComplaint(TicketId(now), req, classify(req.complaintText.value).value, now,
                                           advise(req.complaintText.value).value)
              && r.value.0 == store[RowKey(TicketId(now)) := r.value.1]
    ensures r.Success? && TableConsistent(store, studentIds) ==> TableConsistent(r.value.0, studentIds)
  {
    if !Complete(req) then Failure(CreateFailed)
    else
      match classify(req.complaintText.value)
      case None => Failure(CreateFailed)
      case Some(priority) =>
        match advise(req.complaintText.value)
        case None => Failure(CreateFailed)
        case Some(advice) =>
          var c := NewComplaint(TicketId(now), req, priority, now, advice);
          match Insert(store, studentIds, c)
          case Failure(e) => Failure(e)
          case Success(store') => Success((store', c))
  }

  /**
   * POST /api/complaints on the root server: id `complaint_<clock>`; the priority is
   * the one in the request body, and only the staff recommendation comes from the AI.
   * A missing priority, student id, name, department or text violates NOT NULL: 500.
   */
  function CreatePlain(store: Store, studentIds: set<string>, req: CreateRequest, now: nat,
                       advise: string -> Option<string>)
    : (r: Result<(Store, Complaint), HttpError>)
    ensures !Complete(req) || req.priority.None? ==> r == Failure(CreateFailed)
    ensures r.Success? <==>
              && Complete(req) && req.priority.Some? && advise(req.complaintText.value).Some?
              && RowKey(PlainComplaintId(now)) !in store && KnownStudent(studentIds, req.studentId.value)
    ensures r.Failure? ==> r.error == CreateFailed
    ensures r.Success? ==>
              && r.value.1 == NewComplaint(PlainComplaintId(now), req, req.priority.value, now,
                                           advise(req.complaintText.value).value)
              && r.value.0 == store[RowKey(PlainComplaintId(now)) := r.value.1]
    ensures r.Success? && TableConsistent(store, studentIds) ==> TableConsistent(r.value.0, studentIds)
  {
    if !Complete(req) then Failure(CreateFailed)
    else
      match advise(req.complaintText.value)
      case None => Failure(CreateFailed)
      case Some(advice) =>
        match req.priority
        case None => Failure(CreateFailed)
        case Some(priority) =>
          var c := NewComplaint(PlainComplaintId(now), req, priority, now, advice);
          match Insert(store, studentIds, c)
          case Failure(e) => Failure(e)
          case Success(store') => Success((store', c))
  }

  /**
   * The two servers create the same row apart from its id when the AI classifies the
   * text with the priority the root request carries, and both succeed together when
   * neither id is taken.
   */
  lemma CreateServersAgree(store: Store, studentIds: set<string>, req: CreateRequest, now: nat,
                           classify: string -> Option<Priority>, advise: string -> Option<string>)
    requires req.priority.Some? && req.complaintText.Some? && classify(req.complaintText.value) == req.priority
    requires RowKey(TicketId(now)) !in store && RowKey(PlainComplaintId(now)) !in store
    ensures Create(store, studentIds, req, now, classify, advise).Success?
            <==> CreatePlain(store, studentIds, req, now, advise).Success?
    ensures Create(store, studentIds, req, now, classify, advise).Success? ==>
              Create(store, studentIds, req, now, classify, advise).value.1
                == CreatePlain(store, studentIds, req, now, advise).value.1.(id := TicketId(now))
  {
  }

  /** The patch names a user as its student, if it names one at all (the foreign key on update). */
  predicate StudentKnown(p: Patch, studentIds: set<string>) {
    p.studentId.Some? ==> KnownStudent(studentIds, p.studentId.value)
  }

  /**
   * PUT /api/complaints/:id on the bcrypt server: merge whatever fields the body has
   * into the row whose id is the same key as `id`. An empty body makes an invalid
   * `UPDATE ... SET` (500); an id that matches no row gives 404 and changes nothing; a
   * student id that names no user breaks the foreign key (500). The row keeps its
   * stored id, which is what the re-read returns.
   */
  function Update(store: Store, studentIds: set<string>, id: string, p: Patch): (r: Result<(Store, Complaint), HttpError>)
    ensures IsEmptyPatch(p) ==> r == Failure(UpdateFailed)
    ensures !IsEmptyPatch(p) && RowKey(id) !in store ==> r == Failure(NotFound)
    ensures r.Success? <==> !IsEmptyPatch(p) && RowKey(id) in store && StudentKnown(p, studentIds)
    ensures r.Failure? ==> r.error == UpdateFailed || r.error == NotFound
    ensures r.Success? ==>
              && r.value.0.Keys == store.Keys
              && r.value.1 == Merge(store[RowKey(id)], p)
              && r.value.0[RowKey(id)] == r.value.1
              && forall k :: k in store && k != RowKey(id) ==> r.value.0[k] == store[k]
    ensures r.Success? && TableConsistent(store, studentIds) ==> TableConsistent(r.value.0, studentIds)
  {
    if IsEmptyPatch(p) then Failure(UpdateFailed)
    else if RowKey(id) !in store then Failure(NotFound)
    else if !StudentKnown(p, studentIds) then Failure(UpdateFailed)
    else
      var c := Merge(store[RowKey(id)], p);
      Success((store[RowKey(id) := c], c))
  }

  /**
   * An update addressed by any letter-case variant of a stored row's id finds that
   * row: it succeeds exactly when the body is non-empty and its student is known, and
   * answers with the stored row merged with the body.
   */
  lemma UpdateFindsCaseVariant(store: Store, studentIds: set<string>, row: Complaint, id: string, p: Patch)
    requires TableConsistent(store, studentIds)
    requires row in store.Values && SameKey(id, row.id)
    ensures Update(store, studentIds, id, p).Success? <==> !IsEmptyPatch(p) && StudentKnown(p, studentIds)
    ensures Update(store, studentIds, id, p).Success? ==> Update(store, studentIds, id, p).value.1 == Merge(row, p)
  {
    var k :| k in store && store[k] == row;
    assert RowKey(row.id) == k;
  }

  /** The body the root server writes: a given (truthy, so non-zero) `createdAt` cut down to whole seconds. */
  function RootBody(p: Patch): (q: Patch)
    requires p.createdAt.Some? ==> ValidTimeValue(p.createdAt.value)
    ensures q.createdAt == if p.createdAt.Some? then Some(WholeSecond(p.createdAt.value)) else None
    ensures q.(createdAt := p.createdAt) == p
    ensures IsEmptyPatch(q) <==> IsEmptyPatch(p)
  {
    match p.createdAt
    case None => p
    case Some(t) => p.(createdAt := Some(WholeSecond(t)))
  }

  /**
   * PUT /api/complaints/:id on the root server: a given `createdAt` outside the time
   * range makes `toISOString` throw (500) before the table is touched; a given one is
   * otherwise rewritten to whole seconds (a zero time is falsy and kept, which is the
   * same). The root table has no `resolvedAt` column, so a body that carries one fails
   * with 500. Everything else is the bcrypt server's update.
   */
  function UpdatePlain(store: Store, studentIds: set<string>, id: string, p: Patch): (r: Result<(Store, Complaint), HttpError>)
    ensures p.createdAt.Some? && !ValidTimeValue(p.createdAt.value) ==> r == Failure(UpdateFailed)
    ensures p.resolvedAt.Some? ==> r == Failure(UpdateFailed)
    ensures IsEmptyPatch(p) ==> r == Failure(UpdateFailed)
    ensures !IsEmptyPatch(p) && p.resolvedAt.None? && RowKey(id) !in store && (p.createdAt.Some? ==> ValidTimeValue(p.createdAt.value))
            ==> r == Failure(NotFound)
    ensures r.Success? <==>
              && !IsEmptyPatch(p) && RowKey(id) in store && StudentKnown(p, studentIds) && p.resolvedAt.None?
              && (p.createdAt.Some? ==> ValidTimeValue(p.createdAt.value))
    ensures r.Failure? ==> r.error == UpdateFailed || r.error == NotFound
    ensures r.Success? ==>
              && r.value.0.Keys == store.Keys
              && r.value.1 == Merge(store[RowKey(id)], RootBody(p))
              && r.value.0[RowKey(id)] == r.value.1
              && (forall k :: k in store && k != RowKey(id) ==> r.value.0[k] == store[k])
    ensures r.Success? && TableConsistent(store, studentIds) ==> TableConsistent(r.value.0, studentIds)
  {
    if p.createdAt.Some? && !ValidTimeValue(p.createdAt.value) then Failure(UpdateFailed)
    else if p.resolvedAt.Some? then Failure(UpdateFailed)
    else Update(store, studentIds, id, RootBody(p))
  }

  /**
   * On a body without `createdAt` or `resolvedAt`, the root server's update is the
   * bcrypt server's; with a valid `createdAt` it is the bcrypt update of the time cut
   * down to whole seconds.
   */
  lemma RootUpdateIsBcryptUpdate(store: Store, studentIds: set<string>, id: string, p: Patch)
    requires p.resolvedAt.None?
    requires p.createdAt.Some? ==> ValidTimeValue(p.createdAt.value)
    ensures UpdatePlain(store, studentIds, id, p) == Update(store, studentIds, id, RootBody(p))
    ensures p.createdAt.None? ==> UpdatePlain(store, studentIds, id, p) == Update(store, studentIds, id, p)
  {
  }

  /** POST /api/complaints/:id/generate-solution: the AI draft, or 500. */
  function GenerateSolution(complaintText: string, department: string,
                            draft: (string, string) -> Option<string>): (r: Result<string, HttpError>)
    ensures r.Success? <==> draft(complaintText, department).Some?
    ensures r.Success? ==> r.value == draft(complaintText, department).value
    ensures r.Failure? ==> r.error == HttpError(500, "Failed to generate AI solution.")
  {
    match draft(complaintText, department)
    case Some(s) => Success(s)
    case None => Failure(HttpError(500, "Failed to generate AI solution."))
  }

  /** POST /api/complaints/:id/generate-student-recommendation: the AI advice, or 500. */
  function GenerateAdvice(complaintText: string, solutionText: string,
                          advise: (string, string) -> Option<string>): (r: Result<string, HttpError>)
    ensures r.Success? <==> advise(complaintText, solutionText).Some?
    ensures r.Success? ==> r.value == advise(complaintText, solutionText).value
    ensures r.Failure? ==> r.error == HttpError(500, "Failed to generate AI advice.")
  {
    match advise(complaintText, solutionText)
    case Some(s) => Success(s)
    case None => Failure(HttpError(500, "Failed to generate AI advice."))
  }
}
