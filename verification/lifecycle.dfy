/**
 * The complaint status rules as the complaint card applies them: the department's
 * save, the student's reopen and self-close, and which of these the card offers in
 * which state. The card builds partial updates; the server merges them unchecked
 * (`Domain.Merge`), so these rules exist only on the client.
 */
module Lifecycle {
  import opened Wrappers
  import opened Text
  import opened Domain

  /** The signed-in user, if any, seen through the two role tests of the card. */
  predicate DepartmentViewer(viewer: Option<PublicUser>) {
    viewer.Some? && IsDepartmentUser(viewer.value)
  }

  predicate StudentViewer(viewer: Option<PublicUser>) {
    viewer.Some? && IsStudentUser(viewer.value)
  }

  /** The card's editable fields: solution text, chosen status and chosen department. */
  datatype Draft = Draft(solutionText: string, newStatus: Status, newDepartment: string)

  /** The draft a card starts with: the complaint's own values. */
  function InitialDraft(c: Complaint): (d: Draft)
    ensures d.newStatus == c.status && d.newDepartment == c.department
  {
    Draft(c.solutionText, c.status, c.department)
  }

  /**
   * `handleSave`: a department user may not close with a blank solution; otherwise
   * the update carries the chosen status and department, the trimmed solution, and a
   * `resolvedAt` that is `now` exactly when the new status is Closed and `null` otherwise.
   */
  function SavePatch(viewer: Option<PublicUser>, d: Draft, now: int): (r: Option<Patch>)
    ensures r.None? <==> DepartmentViewer(viewer) && Blank(d.solutionText) && d.newStatus == Closed
    ensures r.Some? ==> && r.value.status == Some(d.newStatus)
                        && r.value.department == Some(d.newDepartment)
                        && r.value.solutionText == Some(Trim(d.solutionText))
                        && r.value.resolvedAt.Some?
                        && (r.value.resolvedAt.value.Some? <==> d.newStatus == Closed)
                        && (r.value.resolvedAt.value.Some? ==> r.value.resolvedAt.value.value == now)
  {
    if DepartmentViewer(viewer) && Trim(d.solutionText) == [] && d.newStatus == Closed then None
    else Some(NoChange.(
      status := Some(d.newStatus),
      solutionText := Some(Trim(d.solutionText)),
      department := Some(d.newDepartment),
      resolvedAt := Some(if d.newStatus == Closed then Some(now) else None)))
  }

  /** `handleReopen`: status Reopened, solution cleared, `resolvedAt` null, nothing else. */
  function ReopenPatch(): (p: Patch)
    ensures p.status == Some(Reopened) && p.solutionText == Some("") && p.resolvedAt == Some(None)
    ensures p.department.None? && p.priority.None? && p.complaintText.None? && p.createdAt.None?
  {
    NoChange.(status := Some(Reopened), solutionText := Some(""), resolvedAt := Some(None))
  }

  /** `handleStudentClose`: status Closed and `resolvedAt` now; solution and department untouched. */
  function StudentClosePatch(now: int): (p: Patch)
    ensures p.status == Some(Closed) && p.resolvedAt == Some(Some(now))
    ensures p.solutionText.None? && p.department.None?
  {
    NoChange.(status := Some(Closed), resolvedAt := Some(Some(now)))
  }

  /** The department edit controls (and so the save button) are shown while the complaint is not Closed. */
  predicate OffersDepartmentEdit(viewer: Option<PublicUser>, c: Complaint) {
    DepartmentViewer(viewer) && c.status != Closed
  }

  /** "Close My Ticket" is shown to a student while the complaint is Open or Reopened. */
  predicate OffersStudentClose(viewer: Option<PublicUser>, c: Complaint) {
    StudentViewer(viewer) && (c.status == Open || c.status == Reopened)
  }

  /** "Reopen Complaint" (and the AI advice block) is shown to a student once the complaint is Closed. */
  predicate OffersReopen(viewer: Option<PublicUser>, c: Complaint) {
    StudentViewer(viewer) && c.status == Closed
  }

  /** The actions a card can perform. */
  datatype Action = Save(draft: Draft) | Reopen | CloseByStudent

  predicate Offered(viewer: Option<PublicUser>, c: Complaint, a: Action) {
    match a
    case Save(_) => OffersDepartmentEdit(viewer, c)
    case Reopen => OffersReopen(viewer, c)
    case CloseByStudent => OffersStudentClose(viewer, c)
  }

  /** The update an action sends, if it sends one. */
  function ActionPatch(viewer: Option<PublicUser>, a: Action, now: int): Option<Patch> {
    match a
    case Save(d) => SavePatch(viewer, d, now)
    case Reopen => Some(ReopenPatch())
    case CloseByStudent => Some(StudentClosePatch(now))
  }

  /** The card's status transition: the complaint after the server merged the action's update. */
  function Step(viewer: Option<PublicUser>, c: Complaint, a: Action, now: int): Complaint {
    match ActionPatch(viewer, a, now)
    case Some(p) => Merge(c, p)
    case None => c
  }

  /** A complaint carries a resolution time exactly when it is Closed. */
  predicate ResolvedIffClosed(c: Complaint) {
    c.resolvedAt.Some? <==> c.status == Closed
  }

  /** Every update the card sends re-establishes `ResolvedIffClosed`, whatever state it starts from. */
  lemma ActionsKeepResolvedIffClosed(viewer: Option<PublicUser>, c: Complaint, a: Action, now: int)
    requires ResolvedIffClosed(c)
    ensures ResolvedIffClosed(Step(viewer, c, a, now))
  {
    match a
    case Save(d) =>
      var r := SavePatch(viewer, d, now);
      if r.Some? {
        assert r.value.status == Some(d.newStatus);
      }
    case Reopen =>
    case CloseByStudent =>
  }

  /** Student self-close and reopen are never offered together, and exactly one is offered to a student. */
  lemma StudentChoicesExclusive(viewer: Option<PublicUser>, c: Complaint)
    ensures !(OffersStudentClose(viewer, c) && OffersReopen(viewer, c))
    ensures StudentViewer(viewer) ==> OffersStudentClose(viewer, c) || OffersReopen(viewer, c)
    ensures !(OffersDepartmentEdit(viewer, c) && (OffersStudentClose(viewer, c) || OffersReopen(viewer, c)))
  {
  }

  /**
   * The state machine as the card drives it: once Closed, the only way out is the
   * student's reopen, which lands in Reopened with the solution and resolution time cleared.
   */
  lemma ClosedOnlyReopens(viewer: Option<PublicUser>, c: Complaint, a: Action, now: int)
    requires c.status == Closed
    requires Offered(viewer, c, a)
    ensures a == Reopen
    ensures Step(viewer, c, a, now).status == Reopened
    ensures Step(viewer, c, a, now).solutionText == ""
    ensures Step(viewer, c, a, now).resolvedAt.None?
  {
  }

  /** A department user who closes through the card leaves a non-blank, trimmed solution behind. */
  lemma DepartmentCloseHasSolution(viewer: Option<PublicUser>, c: Complaint, d: Draft, now: int)
    requires DepartmentViewer(viewer)
    requires Step(viewer, c, Save(d), now).status == Closed
    requires c.status != Closed
    ensures !Blank(Step(viewer, c, Save(d), now).solutionText)
    ensures Trimmed(Step(viewer, c, Save(d), now).solutionText)
  {
    var r := SavePatch(viewer, d, now);
    if r.Some? {
      assert Step(viewer, c, Save(d), now).solutionText == Trim(d.solutionText);
      assert d.newStatus == Closed;
      assert Trim(Trim(d.solutionText)) == Trim(d.solutionText);
    }
  }

  /**
   * Close with a solution, then reopen: the complaint is Reopened, its solution is
   * empty and its resolution time is cleared, while the text, owner, priority and
   * creation time it had before are kept.
   */
  lemma CloseThenReopen(viewer: Option<PublicUser>, student: Option<PublicUser>, c: Complaint, solution: string, now: int, later: int)
    requires DepartmentViewer(viewer)
    requires !Blank(solution)
    ensures
      var closed := Step(viewer, c, Save(Draft(solution, Closed, c.department)), now);
      && closed.status == Closed && closed.resolvedAt == Some(now) && closed.solutionText == Trim(solution)
      && var reopened := Step(student, closed, Reopen, later);
      && reopened.status == Reopened && reopened.solutionText == "" && reopened.resolvedAt.None?
      && reopened.complaintText == c.complaintText && reopened.studentId == c.studentId
      && reopened.priority == c.priority && reopened.createdAt == c.createdAt
      && reopened.department == c.department
  {
    var p := SavePatch(viewer, Draft(solution, Closed, c.department), now);
    assert p.Some?;
  }

  /** Student self-close does not require a solution and leaves the solution text as it was. */
  lemma StudentCloseNeedsNoSolution(viewer: Option<PublicUser>, c: Complaint, now: int)
    requires OffersStudentClose(viewer, c)
    ensures Step(viewer, c, CloseByStudent, now).status == Closed
    ensures Step(viewer, c, CloseByStudent, now).resolvedAt == Some(now)
    ensures Step(viewer, c, CloseByStudent, now).solutionText == c.solutionText
    ensures Step(viewer, c, CloseByStudent, now).department == c.department
  {
  }
}
