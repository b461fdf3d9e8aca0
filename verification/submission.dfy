/**
 * The new-complaint form of the root client: the checks `handleSubmit` makes before
 * it sends anything, the student a department user files for, the creation body it
 * sends, and when the form shows an AI department suggestion. The suggestion itself
 * comes from the server's AI endpoint and is a parameter here.
 */
module Submission {
  import opened Wrappers
  import opened Text
  import opened Domain
  import opened ComplaintServer

  /** What the form holds when it is submitted. */
  datatype Form = Form(complaintText: string, studentId: string, department: string, priority: Priority)

  /** Why a submission stops before any request. */
  datatype Rejection = MissingDetails | MissingStudentId | StudentNotFound(enteredId: string)

  /** The warning or error shown for each rejection. */
  function RejectionNotice(r: Rejection): string {
    match r
    case MissingDetails => "Please fill out the complaint details."
    case MissingStudentId => "Please enter the Student ID."
    case StudentNotFound(id) => "Student with ID \"" + id + "\" not found. Please check the ID and try again."
  }

  /** `u.id.toLowerCase() === studentId.trim().toLowerCase() && u.role === Role.Student`. */
  predicate MatchesStudent(u: PublicUser, enteredId: string) {
    ToLower(u.id) == ToLower(Trim(enteredId)) && IsStudentUser(u)
  }

  /** `users.find(...)`: the first user matching the entered id. */
  function FindStudent(users: seq<PublicUser>, enteredId: string): (r: Option<PublicUser>)
    ensures r.None? <==> forall k :: 0 <= k < |users| ==> !MatchesStudent(users[k], enteredId)
    ensures r.Some? ==> r.value in users && MatchesStudent(r.value, enteredId)
  {
    if users == [] then None
    else if MatchesStudent(users[0], enteredId) then Some(users[0])
    else
      var r := FindStudent(users[1..], enteredId);
      assert forall k :: 1 <= k < |users| ==> users[k] == users[1..][k - 1];
      r
  }

  /** The user found is the first match: every user listed before it fails the test. */
  lemma {:induction false} FindStudentIsFirst(users: seq<PublicUser>, enteredId: string)
    requires FindStudent(users, enteredId).Some?
    ensures exists i :: 0 <= i < |users| && users[i] == FindStudent(users, enteredId).value &&
                        forall k :: 0 <= k < i ==> !MatchesStudent(users[k], enteredId)
  {
    if !MatchesStudent(users[0], enteredId) {
      FindStudentIsFirst(users[1..], enteredId);
      var i :| 0 <= i < |users[1..]| && users[1..][i] == FindStudent(users[1..], enteredId).value &&
               forall k :: 0 <= k < i ==> !MatchesStudent(users[1..][k], enteredId);
      assert users[i + 1] == FindStudent(users, enteredId).value;
      forall k | 0 <= k < i + 1 ensures !MatchesStudent(users[k], enteredId) {
        if k > 0 {
          assert users[k] == users[1..][k - 1];
        }
      }
    } else {
      assert users[0] == FindStudent(users, enteredId).value;
    }
  }

  /** Letter case in the entered id does not change who is found. */
  lemma FindStudentIgnoresCase(users: seq<PublicUser>, enteredId: string)
    ensures FindStudent(users, ToUpper(enteredId)) == FindStudent(users, enteredId)
  {
    forall u: PublicUser ensures MatchesStudent(u, ToUpper(enteredId)) == MatchesStudent(u, enteredId) {
      TrimUpper(enteredId, ToUpper(enteredId));
      LowerOfUpper(Trim(enteredId));
    }
    FindStudentCongruent(users, ToUpper(enteredId), enteredId);
  }

  /** Trimming commutes with upper-casing, which never turns a letter into a space or back. */
  lemma {:induction false} TrimUpper(s: string, t: string)
    requires t == ToUpper(s)
    ensures Trim(t) == ToUpper(Trim(s))
    decreases |s|
  {
    assert forall k :: 0 <= k < |s| ==> (IsSpace(t[k]) <==> IsSpace(s[k])) by {
      forall k | 0 <= k < |s| ensures IsSpace(t[k]) <==> IsSpace(s[k]) {
        assert t[k] == UpperChar(s[k]);
      }
    }
    if s == [] {
    } else if IsSpace(s[0]) {
      assert t[1..] == ToUpper(s[1..]);
      TrimUpper(s[1..], t[1..]);
    } else if IsSpace(s[|s| - 1]) {
      var n := |s| - 1;
      assert t[..n] == ToUpper(s[..n]);
      TrimUpper(s[..n], t[..n]);
    }
  }

  /** Two entered ids that every user matches alike find the same user. */
  lemma {:induction false} FindStudentCongruent(users: seq<PublicUser>, a: string, b: string)
    requires forall u: PublicUser :: MatchesStudent(u, a) == MatchesStudent(u, b)
    ensures FindStudent(users, a) == FindStudent(users, b)
  {
    if users != [] {
      FindStudentCongruent(users[1..], a, b);
    }
  }

  /** `handleSubmit`: the creation body it passes to `addComplaint`, or why it sends nothing. */
  function Submit(user: Option<PublicUser>, users: seq<PublicUser>, form: Form): (r: Result<CreateRequest, Rejection>)
    ensures r == Failure(MissingDetails) <==> user.None? || Blank(form.complaintText)
    ensures r.Success? ==> Complete(r.value)
    ensures r.Success? ==> r.value.department == Some(form.department) && r.value.complaintText == Some(form.complaintText)
                           && r.value.priority == Some(form.priority)
  {
    if Blank(form.complaintText) || user.None? then Failure(MissingDetails)
    else if IsDepartmentUser(user.value) && Blank(form.studentId) then Failure(MissingStudentId)
    else
      var student :=
        if IsDepartmentUser(user.value) then FindStudent(users, form.studentId) else Some(user.value);
      match student
      case None => Failure(StudentNotFound(form.studentId))
      case Some(s) => Success(CreateRequest(Some(s.id), Some(s.name), Some(form.department), Some(form.complaintText), Some(form.priority)))
  }

  /** A signed-in student with some text files under their own id and name, and nothing stops them. */
  lemma StudentFilesAsSelf(user: PublicUser, users: seq<PublicUser>, form: Form)
    requires IsStudentUser(user) && !Blank(form.complaintText)
    ensures Submit(Some(user), users, form) ==
              Success(CreateRequest(Some(user.id), Some(user.name), Some(form.department), Some(form.complaintText),
                                    Some(form.priority)))
  {
  }

  /**
   * A department user with some text files for the first student whose id matches the
   * entered one; with an empty id, or with no student matching, nothing is sent.
   */
  lemma DepartmentFilesForStudent(user: PublicUser, users: seq<PublicUser>, form: Form)
    requires IsDepartmentUser(user) && !Blank(form.complaintText)
    ensures Blank(form.studentId) ==> Submit(Some(user), users, form) == Failure(MissingStudentId)
    ensures !Blank(form.studentId) && FindStudent(users, form.studentId).None? ==>
              Submit(Some(user), users, form) == Failure(StudentNotFound(form.studentId))
    ensures Submit(Some(user), users, form).Success? <==>
              !Blank(form.studentId) && exists k :: 0 <= k < |users| && MatchesStudent(users[k], form.studentId)
    ensures Submit(Some(user), users, form).Success? ==>
              var req := Submit(Some(user), users, form).value;
              exists k :: 0 <= k < |users| && MatchesStudent(users[k], form.studentId)
                          && req.studentId == Some(users[k].id) && req.studentName == Some(users[k].name)
  {
    if !Blank(form.studentId) {
      var found := FindStudent(users, form.studentId);
      if found.Some? {
        assert found.value in users;
        var k :| 0 <= k < |users| && users[k] == found.value;
        assert MatchesStudent(users[k], form.studentId);
      }
    }
  }

  // ---------------------------------------------------------------- department suggestion

  /** The minimum trimmed length before a suggestion is requested. */
  const SuggestMinLength: nat := 25

  /** The effect asks for a suggestion only for a signed-in student whose trimmed text is long enough. */
  predicate WantsSuggestion(user: Option<PublicUser>, complaintText: string) {
    user.Some? && IsStudentUser(user.value) && |Trim(complaintText)| >= SuggestMinLength
  }

  /**
   * The suggestion shown once the effect has run: cleared when none is wanted; otherwise
   * the server's answer (`None` when the request fails) if it names another department
   * than the selected one.
   */
  function ShownSuggestion(user: Option<PublicUser>, complaintText: string, selected: string,
                           answer: Option<string>): (r: Option<string>)
    ensures r.Some? <==> WantsSuggestion(user, complaintText) && answer.Some? && answer.value != selected
    ensures r.Some? ==> r == answer
  {
    if !WantsSuggestion(user, complaintText) then None
    else if answer.Some? && answer.value != selected then answer
    else None
  }

  /** The department select and the suggestion box. */
  datatype Choice = Choice(department: string, suggestion: Option<string>)

  /** "Apply": the suggested department becomes the selection and the suggestion is hidden. */
  function ApplySuggestion(c: Choice): (r: Choice)
    requires c.suggestion.Some?
    ensures r.department == c.suggestion.value && r.suggestion.None?
  {
    Choice(c.suggestion.value, None)
  }

  /**
   * After applying a suggestion, the same answer is not suggested again: it now names the
   * selected department.
   */
  lemma AppliedSuggestionSettles(user: Option<PublicUser>, complaintText: string, c: Choice)
    requires c.suggestion.Some?
    ensures ShownSuggestion(user, complaintText, ApplySuggestion(c).department, c.suggestion).None?
  {
  }
}
