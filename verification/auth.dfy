/**
 * Authentication and accounts on the two servers: the bearer-token gate, login,
 * signup and profile update of `server/server.js` (bcrypt + JWT), and the plain-text
 * login and signup of the earlier root `server.js`. Hashing, token signing and token
 * verification are foreign libraries and enter as function parameters; the users
 * table is a sequence of rows in table order.
 */
module AuthServer {
  import opened Wrappers
  import opened Text
  import opened Domain

  /** A JSON error response: HTTP status and `message`. */
  datatype HttpError = HttpError(status: nat, message: string)

  const InternalError: HttpError := HttpError(500, "Internal server error")

  /** The claims a token carries. */
  datatype Payload = Payload(userId: string, role: string)

  /** Token lifetime passed to `jwt.sign`: '8h'. */
  const TokenLifetimeSeconds: nat := 8 * 60 * 60

  // ---------------------------------------------------------------- token gate

  /**
   * The token in an `Authorization` header: the second space-separated word of a
   * present, non-empty header.
   * A missing header, or one without a space, gives no token; an empty header gives
   * the empty string (which the JWT library then rejects).
   */
  function ExtractToken(header: Option<string>): (t: Option<string>)
    ensures header.None? ==> t.None?
    ensures header == Some("") ==> t == Some("")
    ensures header.Some? && header.value != "" ==>
              (t.Some? <==> ' ' in header.value)
  {
    match header
    case None => None
    case Some(h) =>
      if h == "" then Some("")
      else
        var parts := Split(h, ' ');
        assert |parts| >= 2 <==> ' ' in h;
        if |parts| >= 2 then Some(parts[1]) else None
  }

  /** The outcome of `authenticateToken`: a rejection, or the decoded claims and `next()`. */
  datatype Gate = Reject(error: HttpError) | Proceed(claims: Payload)

  /** `authenticateToken`: 401 without a token, 403 for a token that does not verify. */
  function AuthenticateToken(header: Option<string>, verify: string -> Option<Payload>): (g: Gate)
    ensures ExtractToken(header).None? ==> g == Reject(HttpError(401, "Unauthorized"))
    ensures (ExtractToken(header).Some? && verify(ExtractToken(header).value).None?) ==>
              g == Reject(HttpError(403, "Invalid token"))
    ensures g.Proceed? <==> ExtractToken(header).Some? && verify(ExtractToken(header).value).Some?
    ensures g.Proceed? ==> g.claims == verify(ExtractToken(header).value).value
  {
    match ExtractToken(header)
    case None => Reject(HttpError(401, "Unauthorized"))
    case Some(token) =>
      match verify(token)
      case None => Reject(HttpError(403, "Invalid token"))
      case Some(claims) => Proceed(claims)
  }

  /** A header of the form the client sends, `Bearer <token>`, yields the token back. */
  lemma {:induction false} BearerHeaderYieldsToken(token: string)
    requires ' ' !in token
    ensures ExtractToken(Some("Bearer " + token)) == Some(token)
  {
    assert "Bearer " + token == "Bearer" + [' '] + token;
    SplitAfterPart("Bearer", token, ' ');
    SplitNoSeparator(token, ' ');
  }

  // ---------------------------------------------------------------- lookups

  /**
   * The first row of `SELECT * FROM users WHERE email = ? AND role = ?`: both columns
   * are compared as keys of the collation, so letter case does not matter.
   */
  function FindUser(users: seq<User>, email: string, role: string): (r: Option<User>)
    ensures r.Some? ==> r.value in users && SameKey(r.value.email, email) && SameKey(r.value.role, role)
    ensures r.None? <==> forall k :: 0 <= k < |users| ==> !(SameKey(users[k].email, email) && SameKey(users[k].role, role))
  {
    if users == [] then None
    else if SameKey(users[0].email, email) && SameKey(users[0].role, role) then Some(users[0])
    else FindUser(users[1..], email, role)
  }

  /** Some row holds this e-mail, as a key of the collation. */
  predicate EmailTaken(users: seq<User>, email: string) {
    exists k :: 0 <= k < |users| && SameKey(users[k].email, email)
  }

  /** Some row holds this id, as a key of the collation. */
  predicate IdTaken(users: seq<User>, id: string) {
    exists k :: 0 <= k < |users| && SameKey(users[k].id, id)
  }

  /**
   * `INSERT INTO users SET ?` of one row: the primary key and the UNIQUE e-mail index
   * reject a row whose id or e-mail is already a key of the table (`None`, which the
   * endpoints answer with 500); otherwise the row is appended.
   */
  function InsertUser(users: seq<User>, u: User): (r: Option<seq<User>>)
    ensures r.Some? <==> !IdTaken(users, u.id) && !EmailTaken(users, u.email)
    ensures r.Some? ==> r.value == users + [u]
    ensures r.Some? && UserKeysDistinct(users) ==> UserKeysDistinct(r.value)
  {
    if IdTaken(users, u.id) || EmailTaken(users, u.email) then None
    else
      var users' := users + [u];
      assert UserKeysDistinct(users) ==> UserKeysDistinct(users') by {
        if UserKeysDistinct(users) {
          forall i, j | 0 <= i < j < |users'|
            ensures !SameKey(users'[i].id, users'[j].id) && !SameKey(users'[i].email, users'[j].email)
          {
            if j == |users| {
              assert users'[i] == users[i] && users'[j] == u;
            } else {
              assert users'[i] == users[i] && users'[j] == users[j];
            }
          }
        }
      }
      Some(users')
  }

  /** A row appended after no row with its e-mail is what a lookup by that e-mail and its role finds. */
  lemma {:induction false} FindUserAppended(users: seq<User>, u: User, email: string, role: string)
    requires !EmailTaken(users, email)
    requires SameKey(u.email, email) && SameKey(u.role, role)
    ensures FindUser(users + [u], email, role) == Some(u)
  {
    if users != [] {
      assert !SameKey(users[0].email, email);
      assert (users + [u])[1..] == users[1..] + [u];
      assert !EmailTaken(users[1..], email) by {
        forall k | 0 <= k < |users[1..]| ensures !SameKey(users[1..][k].email, email) {
          assert users[1..][k] == users[k + 1];
        }
      }
      FindUserAppended(users[1..], u, email, role);
    }
  }

  // ---------------------------------------------------------------- server/server.js

  /** A login body; a field may be missing. */
  datatype LoginRequest = LoginRequest(email: Option<string>, password: Option<string>, role: Option<string>)

  /** A successful login: the signed token and the user without the password. */
  datatype Session = Session(token: string, user: PublicUser)

  /**
   * POST /api/auth/login (bcrypt + JWT): look up the lower-cased email with exactly
   * the given role; succeed only if a row is found and the password matches its hash.
   * A missing email makes `toLowerCase` throw and a missing password makes the hash
   * comparison throw, both answered with 500.
   */
  function Login(users: seq<User>, req: LoginRequest,
                 compare: (string, string) -> bool,
                 sign: (Payload, nat) -> string): (r: Result<Session, HttpError>)
    ensures req.email.None? ==> r == Failure(InternalError)
    ensures r.Success? <==>
              && req.email.Some? && req.role.Some? && req.password.Some?
              && var found := FindUser(users, ToLower(req.email.value), req.role.value);
              && found.Some? && compare(req.password.value, found.value.password)
    ensures r.Success? ==>
              var u := FindUser(users, ToLower(req.email.value), req.role.value).value;
              && r.value.user == WithoutPassword(u)
              && r.value.token == sign(Payload(u.id, u.role), TokenLifetimeSeconds)
    ensures r.Failure? && r.error.status == 401 ==>
              r.error.message == "Invalid credentials or role."
  {
    if req.email.None? then Failure(InternalError)
    else
      var found := if req.role.None? then None else FindUser(users, ToLower(req.email.value), req.role.value);
      match found
      case None => Failure(HttpError(401, "Invalid credentials or role."))
      case Some(u) =>
        if req.password.None? then Failure(InternalError)
        else if compare(req.password.value, u.password) then
          Success(Session(sign(Payload(u.id, u.role), TokenLifetimeSeconds), WithoutPassword(u)))
        else Failure(HttpError(401, "Invalid credentials or role."))
  }

  /** A signup body; a field may be missing. */
  datatype SignupRequest = SignupRequest(
    name: Option<string>, email: Option<string>, password: Option<string>, role: Option<string>,
    major: Option<string>, departmentName: Option<string>, age: Option<int>)

  const EmailInUse: HttpError := HttpError(409, "An account with this email already exists.")

  /** The id a new account gets: 'S' for role student, 'D' for any other or a missing role, then the clock. */
  function NewUserId(role: Option<string>, now: nat): (id: string)
    ensures |id| >= 2
    ensures id[0] == (if role == Some(RoleName(Student)) then 'S' else 'D')
    ensures id[1..] == NatToString(now)
  {
    (if role == Some(RoleName(Student)) then "S" else "D") + NatToString(now)
  }

  /** An e-mail and its lower-cased form are the same key, so they are taken together. */
  lemma EmailTakenLower(users: seq<User>, email: string)
    ensures EmailTaken(users, ToLower(email)) <==> EmailTaken(users, email)
  {
    LowerIdempotent(email);
  }

  /**
   * POST /api/auth/signup (bcrypt): a missing email makes `toLowerCase` throw (500);
   * 409 if the lower-cased email is already a key of the table; a missing password
   * makes the hash throw (500). The row gets the lower-cased email and the hashed
   * password. A missing name or role violates NOT NULL, and an id already in the table
   * (two signups in the same millisecond) violates the primary key: both 500.
   */
  function Signup(users: seq<User>, req: SignupRequest, hash: string -> string, now: nat)
    : (r: Result<(seq<User>, PublicUser), HttpError>)
    ensures req.email.None? ==> r == Failure(InternalError)
    ensures r == Failure(EmailInUse) <==> req.email.Some? && EmailTaken(users, req.email.value)
    ensures r.Failure? ==> r.error == EmailInUse || r.error == InternalError
    ensures r.Success? <==>
              && req.email.Some? && req.password.Some? && req.name.Some? && req.role.Some?
              && !EmailTaken(users, req.email.value) && !IdTaken(users, NewUserId(req.role, now))
    ensures r.Success? ==>
              && |r.value.0| == |users| + 1 && r.value.0 == users + [r.value.0[|users|]]
              && r.value.0[|users|] == User(NewUserId(req.role, now), req.name.value, ToLower(req.email.value),
                                            hash(req.password.value), req.role.value,
                                            req.major, req.departmentName, req.age)
              && r.value.1 == WithoutPassword(r.value.0[|users|])
    ensures r.Success? && UserKeysDistinct(users) ==> UserKeysDistinct(r.value.0)
  {
    match req.email
    case None => Failure(InternalError)
    case Some(typed) =>
      var email := ToLower(typed);
      EmailTakenLower(users, typed);
      if EmailTaken(users, email) then Failure(EmailInUse)
      else if req.password.None? || req.name.None? || req.role.None? then Failure(InternalError)
      else
        var u := User(NewUserId(req.role, now), req.name.value, email, hash(req.password.value), req.role.value,
                      req.major, req.departmentName, req.age);
        match InsertUser(users, u)
        case None => Failure(InternalError)
        case Some(users') => Success((users', WithoutPassword(u)))
  }

  /** Signing up and then logging in with the same credentials succeeds, for a sound hash. */
  lemma SignupThenLogin(users: seq<User>, req: SignupRequest,
                        hash: string -> string, compare: (string, string) -> bool,
                        sign: (Payload, nat) -> string, now: nat)
    requires Signup(users, req, hash, now).Success?
    requires compare(req.password.value, hash(req.password.value))
    ensures
      var (users', created) := Signup(users, req, hash, now).value;
      Login(users', LoginRequest(req.email, req.password, req.role), compare, sign)
        == Success(Session(sign(Payload(created.id, req.role.value), TokenLifetimeSeconds), created))
  {
    var (users', created) := Signup(users, req, hash, now).value;
    var u := users'[|users|];
    EmailTakenLower(users, req.email.value);
    FindUserAppended(users, u, ToLower(req.email.value), req.role.value);
  }

  /** Once an account exists, a signup whose e-mail differs from it only in letter case is refused with 409. */
  lemma SignupRefusesCaseVariant(users: seq<User>, req: SignupRequest, hash: string -> string, now: nat,
                                 again: SignupRequest, later: nat)
    requires Signup(users, req, hash, now).Success?
    requires again.email.Some? && SameKey(again.email.value, req.email.value)
    ensures Signup(Signup(users, req, hash, now).value.0, again, hash, later) == Failure(EmailInUse)
  {
    var users' := Signup(users, req, hash, now).value.0;
    LowerIdempotent(req.email.value);
    assert SameKey(users'[|users|].email, again.email.value);
  }

  /** A profile update body; a field may be missing. */
  datatype ProfileRequest = ProfileRequest(
    name: Option<string>, email: Option<string>, major: Option<string>, age: Option<int>, departmentName: Option<string>)

  /** The stored age: a missing age and an age of 0 both become null; any other is read as a decimal integer. */
  function StoredAge(age: Option<int>): (r: Option<int>)
    ensures r.None? <==> age.None? || age.value == 0
    ensures r.Some? ==> r == age
  {
    match age
    case None => None
    case Some(a) => if a == 0 then None else Some(a)
  }

  /** The columns a profile update writes into the caller's row, when the body has a name and an e-mail. */
  function UpdatedRow(u: User, role: string, req: ProfileRequest): (v: User)
    requires req.name.Some? && req.email.Some?
    ensures v.id == u.id && v.password == u.password && v.role == u.role
    ensures v.name == req.name.value && v.email == ToLower(req.email.value)
    ensures role == RoleName(Student) ==> v.major == req.major && v.age == StoredAge(req.age)
                                          && v.departmentName == u.departmentName
    ensures role == RoleName(Department) ==> v.departmentName == req.departmentName
                                             && v.major == u.major && v.age == u.age
    ensures role != RoleName(Student) && role != RoleName(Department) ==>
              v.major == u.major && v.age == u.age && v.departmentName == u.departmentName
  {
    var base := u.(name := req.name.value, email := ToLower(req.email.value));
    if role == RoleName(Student) then base.(major := req.major, age := StoredAge(req.age))
    else if role == RoleName(Department) then base.(departmentName := req.departmentName)
    else base
  }

  /** The first row with the given id as a key, as the re-read after the update returns it (absent if the caller's row is gone). */
  function FindById(users: seq<User>, id: string): (r: Option<User>)
    ensures r.Some? ==> r.value in users && SameKey(r.value.id, id)
    ensures r.None? <==> !IdTaken(users, id)
  {
    if users == [] then None
    else if SameKey(users[0].id, id) then Some(users[0])
    else
      var r := FindById(users[1..], id);
      assert r.None? ==> !IdTaken(users, id) by {
        if r.None? {
          forall k | 0 <= k < |users| ensures !SameKey(users[k].id, id) {
            if k > 0 { assert users[k] == users[1..][k - 1]; }
          }
        }
      }
      r
  }

  const EmailElsewhere: HttpError := HttpError(409, "This email is already in use by another account.")

  /** `SELECT id FROM users WHERE email = ? AND id != ?` finds a row: another account holds the e-mail. */
  predicate EmailHeldByOther(users: seq<User>, userId: string, email: string) {
    exists k :: 0 <= k < |users| && SameKey(users[k].email, email) && !SameKey(users[k].id, userId)
  }

  /** The table after `UPDATE users SET ... WHERE id = ?`: every row with the caller's id rewritten. */
  function RewriteCaller(users: seq<User>, caller: Payload, req: ProfileRequest): (r: seq<User>)
    requires req.name.Some? && req.email.Some?
    ensures |r| == |users|
    ensures forall k :: 0 <= k < |users| ==>
              r[k] == if SameKey(users[k].id, caller.userId) then UpdatedRow(users[k], caller.role, req) else users[k]
  {
    seq(|users|, k requires 0 <= k < |users| =>
          if SameKey(users[k].id, caller.userId) then UpdatedRow(users[k], caller.role, req) else users[k])
  }

  /** After the rewrite, the caller's row is found exactly when it was there before, at the same position. */
  lemma RewrittenRow(users: seq<User>, caller: Payload, req: ProfileRequest)
    requires req.name.Some? && req.email.Some?
    ensures var users' := RewriteCaller(users, caller, req);
            var row := FindById(users', caller.userId);
            && (row.Some? <==> IdTaken(users, caller.userId))
            && (row.Some? ==> exists k :: 0 <= k < |users| && SameKey(users[k].id, caller.userId) && row.value == users'[k])
  {
    var users' := RewriteCaller(users, caller, req);
    assert forall k :: 0 <= k < |users| ==> users'[k].id == users[k].id;
    assert IdTaken(users', caller.userId) == IdTaken(users, caller.userId) by {
      if IdTaken(users, caller.userId) {
        var k :| 0 <= k < |users| && SameKey(users[k].id, caller.userId);
        assert SameKey(users'[k].id, caller.userId);
      }
    }
    var row := FindById(users', caller.userId);
    if row.Some? {
      var k :| 0 <= k < |users'| && users'[k] == row.value;
      assert SameKey(users[k].id, caller.userId);
    }
  }

  /**
   * PUT /api/users/profile: a missing email makes `toLowerCase` throw (500); 409 only
   * if ANOTHER row (id a different key from the caller's) holds the lower-cased email;
   * otherwise rewrite the caller's row and answer with it. A missing name violates
   * NOT NULL (strict SQL mode) when the caller's row exists; with no such row the
   * update touches nothing and the answer has no row.
   */
  function UpdateProfile(users: seq<User>, caller: Payload, req: ProfileRequest)
    : (r: Result<(seq<User>, Option<PublicUser>), HttpError>)
    ensures req.email.None? ==> r == Failure(InternalError)
    ensures r == Failure(EmailElsewhere) <==> req.email.Some? && EmailHeldByOther(users, caller.userId, ToLower(req.email.value))
    ensures r.Failure? ==> r.error == EmailElsewhere || r.error == InternalError
    ensures r.Success? <==>
              && req.email.Some? && !EmailHeldByOther(users, caller.userId, ToLower(req.email.value))
              && (req.name.Some? || !IdTaken(users, caller.userId))
    ensures r.Success? && req.name.None? ==> r.value == (users, None)
    ensures r.Success? && req.name.Some? ==>
              && r.value.0 == RewriteCaller(users, caller, req)
              && (r.value.1.Some? <==> IdTaken(users, caller.userId))
              && (r.value.1.Some? ==> exists k :: 0 <= k < |users| && SameKey(users[k].id, caller.userId)
                                                 && r.value.1.value == WithoutPassword(r.value.0[k]))
  {
    match req.email
    case None => Failure(InternalError)
    case Some(typed) =>
      if EmailHeldByOther(users, caller.userId, ToLower(typed)) then Failure(EmailElsewhere)
      else if req.name.None? then
        if IdTaken(users, caller.userId) then Failure(InternalError) else Success((users, None))
      else
        var users' := RewriteCaller(users, caller, req);
        var row := FindById(users', caller.userId);
        RewrittenRow(users, caller, req);
        Success((users', if row.Some? then Some(WithoutPassword(row.value)) else None))
  }

  /** A profile update keeps the table's keys distinct: the 409 check leaves no other row with the new e-mail. */
  lemma UpdateProfileKeepsKeys(users: seq<User>, caller: Payload, req: ProfileRequest)
    requires UserKeysDistinct(users)
    requires UpdateProfile(users, caller, req).Success?
    ensures UserKeysDistinct(UpdateProfile(users, caller, req).value.0)
  {
    if req.name.Some? {
      var users' := RewriteCaller(users, caller, req);
      var email := ToLower(req.email.value);
      forall i, j | 0 <= i < j < |users'|
        ensures !SameKey(users'[i].id, users'[j].id) && !SameKey(users'[i].email, users'[j].email)
      {
        var hi := SameKey(users[i].id, caller.userId);
        var hj := SameKey(users[j].id, caller.userId);
        assert users'[i].id == users[i].id && users'[j].id == users[j].id;
        if hi && !hj {
          assert users'[i].email == email && users'[j] == users[j];
          assert !SameKey(users[j].email, email);
        } else if hj && !hi {
          assert users'[j].email == email && users'[i] == users[i];
          assert !SameKey(users[i].email, email);
        }
      }
    }
  }

  // ---------------------------------------------------------------- root server.js

  /** JavaScript truthiness of an optional string field. */
  predicate Given(f: Option<string>) {
    f.Some? && f.value != ""
  }

  /**
   * POST /api/auth/login of the root server: 400 unless email, password and role are
   * all given; then the lower-cased email and the role must match a row (as keys of the
   * collation) whose stored password equals the given one. The answer is the user
   * alone, with no token.
   */
  function LoginPlain(users: seq<User>, req: LoginRequest): (r: Result<PublicUser, HttpError>)
    ensures !(Given(req.email) && Given(req.password) && Given(req.role)) ==>
              r == Failure(HttpError(400, "Email, password, and role are required."))
    ensures r.Success? <==>
              && Given(req.email) && Given(req.password) && Given(req.role)
              && var found := FindUser(users, ToLower(req.email.value), req.role.value);
              && found.Some? && found.value.password == req.password.value
    ensures r.Success? ==> r.value == WithoutPassword(FindUser(users, ToLower(req.email.value), req.role.value).value)
    ensures r.Failure? ==> r.error.status == 400 || r.error == HttpError(401, "Invalid credentials or role.")
  {
    if !(Given(req.email) && Given(req.password) && Given(req.role)) then
      Failure(HttpError(400, "Email, password, and role are required."))
    else
      match FindUser(users, ToLower(req.email.value), req.role.value)
      case Some(u) =>
        if u.password == req.password.value then Success(WithoutPassword(u))
        else Failure(HttpError(401, "Invalid credentials or role."))
      case None => Failure(HttpError(401, "Invalid credentials or role."))
  }

  const SignupFailed: HttpError := HttpError(500, "Internal server error during signup.")

  /** The id the root signup gives a new account: `user_<clock>`. */
  function PlainUserId(now: nat): string {
    "user_" + NatToString(now)
  }

  /**
   * POST /api/auth/signup of the root server: a missing email makes `toLowerCase`
   * throw (500); 409 if the lower-cased email is already a key of the table; otherwise
   * the row stores the email exactly as typed, the password in plain text and the id
   * `user_<clock>`. A missing name, password or role (NOT NULL) and a taken id fail the
   * insert with 500. Since the collation ignores case, the e-mail as typed is a key
   * exactly when its lower-cased form is, so the UNIQUE index never fires after the 409
   * check has passed.
   */
  function SignupPlain(users: seq<User>, req: SignupRequest, now: nat)
    : (r: Result<(seq<User>, PublicUser), HttpError>)
    ensures req.email.None? ==> r == Failure(SignupFailed)
    ensures r == Failure(EmailInUse) <==> req.email.Some? && EmailTaken(users, req.email.value)
    ensures r.Failure? ==> r.error == EmailInUse || r.error == SignupFailed
    ensures r.Success? <==>
              && req.email.Some? && req.name.Some? && req.password.Some? && req.role.Some?
              && !EmailTaken(users, req.email.value) && !IdTaken(users, PlainUserId(now))
    ensures r.Success? ==>
              && |r.value.0| == |users| + 1 && r.value.0 == users + [r.value.0[|users|]]
              && r.value.0[|users|] == User(PlainUserId(now), req.name.value, req.email.value, req.password.value,
                                            req.role.value, req.major, req.departmentName, None)
              && r.value.1 == WithoutPassword(r.value.0[|users|])
    ensures r.Success? && UserKeysDistinct(users) ==> UserKeysDistinct(r.value.0)
  {
    match req.email
    case None => Failure(SignupFailed)
    case Some(typed) =>
      EmailTakenLower(users, typed);
      if EmailTaken(users, ToLower(typed)) then Failure(EmailInUse)
      else if req.name.None? || req.password.None? || req.role.None? then Failure(SignupFailed)
      else
        var u := User(PlainUserId(now), req.name.value, typed, req.password.value, req.role.value,
                      req.major, req.departmentName, None);
        match InsertUser(users, u)
        case None => Failure(SignupFailed)
        case Some(users') => Success((users', WithoutPassword(u)))
  }

  /**
   * Every successful root signup with a non-empty email, password and role can log in
   * right away: the row keeps the e-mail as typed, and the login's lower-cased e-mail is
   * the same key.
   */
  lemma SignupPlainThenLogin(users: seq<User>, req: SignupRequest, now: nat)
    requires SignupPlain(users, req, now).Success?
    requires Given(req.email) && Given(req.password) && Given(req.role)
    ensures
      var (users', created) := SignupPlain(users, req, now).value;
      LoginPlain(users', LoginRequest(req.email, req.password, req.role)) == Success(created)
  {
    var (users', created) := SignupPlain(users, req, now).value;
    var u := users'[|users|];
    EmailTakenLower(users, req.email.value);
    SameKeyLaws(req.email.value, req.email.value);
    FindUserAppended(users, u, ToLower(req.email.value), req.role.value);
  }

  /** Once a root account exists, a signup whose e-mail differs from it only in letter case is refused with 409. */
  lemma SignupPlainRefusesCaseVariant(users: seq<User>, req: SignupRequest, now: nat, again: SignupRequest, later: nat)
    requires SignupPlain(users, req, now).Success?
    requires again.email.Some? && SameKey(again.email.value, req.email.value)
    ensures SignupPlain(SignupPlain(users, req, now).value.0, again, later) == Failure(EmailInUse)
  {
    var users' := SignupPlain(users, req, now).value.0;
    assert SameKey(users'[|users|].email, again.email.value);
  }
}
