/** Registration, sign-in and profile changes in
    `backend/src/services/auth.service.ts`. bcrypt is the injective
    `Hashed` encoding, so `compare(password, hash)` is `hash ==
    Hashed(password)`; a signed JWT is the pair of claims it carries. */
module Auth {
  import opened Wrappers
  import opened Domain
  import opened Text
  import opened Middleware
  import opened Directory
  import Students
  import StudentImport
  import Sheet

  /** The claims of a signed token. */
  datatype Token = Token(userId: nat, role: string)

  /** What `register` and `login` answer: the user without its hash, and a
      token. */
  datatype Session = Session(user: UserView, token: Token)

  /** The body of a `register` request. `national_id` and `password` are
      strings: the route's validation lets no request without them through. */
  datatype Registration = Registration(
    nationalId: string,
    username: Option<string>,
    email: Option<string>,
    password: string,
    roleName: Option<string>,
    fullName: Option<string>,
    studentNumber: Option<string>)

  const AlreadyRegistered := ApiError(400, "البيانات (الرقم الهوية أو البريد أو اسم المستخدم) مسجلة مسبقاً.")
  const RoleInvalid := ApiError(400, "الصلاحية المطلوبة غير صحيحة.")
  const BadCredentials := ApiError(401, "بيانات الدخول غير صحيحة.")
  const UserNotFound := ApiError(404, "المستخدم غير موجود.")
  const StudentsCannotEdit := ApiError(403, "لا يمكن للطالب تعديل بيانات الحساب.")
  const NationalIdInUse := ApiError(400, "الرقم الهوية مسجل مسبقاً لمستخدم آخر.")

  /** Some stored user has the national id, or the e-mail, or the username
      of the request. An absent e-mail or username matches nobody. */
  predicate Conflict(users: seq<User>, d: Registration) {
    exists i :: 0 <= i < |users| &&
      (|| users[i].nationalId == Some(d.nationalId)
       || (d.email.Some? && users[i].email == d.email)
       || (d.username.Some? && users[i].username == d.username))
  }

  function ConflictAt(users: seq<User>, d: Registration): (r: bool)
    ensures r <==> Conflict(users, d)
  {
    if |users| == 0 then false
    else
      var u := users[0];
      if u.nationalId == Some(d.nationalId) || (d.email.Some? && u.email == d.email)
         || (d.username.Some? && u.username == d.username)
      then true
      else
        var rest := ConflictAt(users[1..], d);
        assert Conflict(users[1..], d) ==> Conflict(users, d) by {
          if Conflict(users[1..], d) {
            var i :| 0 <= i < |users[1..]| && (|| users[1..][i].nationalId == Some(d.nationalId)
              || (d.email.Some? && users[1..][i].email == d.email)
              || (d.username.Some? && users[1..][i].username == d.username));
            assert users[i + 1] == users[1..][i];
          }
        }
        assert Conflict(users, d) ==> Conflict(users[1..], d) by {
          if Conflict(users, d) {
            var i :| 0 <= i < |users| && (|| users[i].nationalId == Some(d.nationalId)
              || (d.email.Some? && users[i].email == d.email)
              || (d.username.Some? && users[i].username == d.username));
            assert i != 0;
            assert users[1..][i - 1] == users[i];
          }
        }
        rest
  }

  /** The user `register` saves: the username falls back to the national id
      and the role is `student`, whatever role was asked for. */
  function RegisteredUser(reg: Registry, d: Registration): User {
    User(NextUserId(reg.users), OrElse(d.username, Some(d.nationalId)), d.email, Some(d.nationalId),
         Some(Hashed(d.password)), Some(StudentRole))
  }

  /** The profile `register` saves: the full name falls back to the
      username as sent. */
  function RegisteredProfile(d: Registration): ProfileDraft {
    ProfileDraft(OrElse(d.fullName, d.username), d.studentNumber, None)
  }

  /** `register`: 400 when the national id, e-mail or username is taken,
      400 when the student role is missing, otherwise a new student account
      and a session for it. */
  function Register(reg: Registry, d: Registration): (r: Result<(Registry, Session), Thrown>)
    ensures Conflict(reg.users, d) <==> r.Err? && r.error == Raise(AlreadyRegistered)
    ensures !Conflict(reg.users, d) && StudentRole !in reg.roles ==> r == Err(Raise(RoleInvalid))
    ensures r.Ok? ==> StudentRole in reg.roles && |r.value.0.users| == |reg.users| + 1
    ensures r.Ok? ==> r.value.1.token.role == "student"
    ensures r.Ok? ==> r.value.1.user == WithoutPassword(r.value.0.users[|reg.users|])
  {
    if ConflictAt(reg.users, d) then Err(Raise(AlreadyRegistered))
    else if StudentRole !in reg.roles then Err(Raise(RoleInvalid))
    else
      var u := RegisteredUser(reg, d);
      match SaveAccount(reg, u, RegisteredProfile(d))
      case Err(e) => Err(e)
      case Ok(after) =>
        assert after.users[|reg.users|] == u;
        Ok((after, Session(WithoutPassword(u), Token(u.id, StudentRole.name))))
  }

  /** The requested role plays no part in registration. */
  lemma RoleNameIgnored(reg: Registry, d: Registration, a: Option<string>, b: Option<string>)
    ensures Register(reg, d.(roleName := a)) == Register(reg, d.(roleName := b))
  {
    assert Conflict(reg.users, d.(roleName := a)) <==> Conflict(reg.users, d.(roleName := b));
  }

  /** The stored account of a registration: the username is the one sent or
      else the national id, the profile's full name the one sent or else the
      username sent. */
  lemma RegisteredAccount(reg: Registry, d: Registration)
    requires Register(reg, d).Ok?
    ensures var after := Register(reg, d).value.0;
      var u := after.users[|reg.users|];
      && u.role == Some(StudentRole)
      && u.nationalId == Some(d.nationalId)
      && u.username == (if Truthy(d.username) then d.username else Some(d.nationalId))
      && |after.students| == |reg.students| + 1
      && Some(after.students[|reg.students|].fullName) == (if Truthy(d.fullName) then d.fullName else d.username)
      && after.students[|reg.students|].userId == Some(u.id)
  {
    var u := RegisteredUser(reg, d);
    var after := SaveAccount(reg, u, RegisteredProfile(d)).value;
    assert after.users[|reg.users|] == u;
    assert after.students[|reg.students|] == ProfileOf(reg, u, RegisteredProfile(d));
  }

  // ---------------------------------------------------------------------
  // login

  /** `login`: the id is trimmed and looked up; an unknown id, a user without
      a hash and a wrong password all give the same 401. A user without a
      role cannot be given a token: reading its name throws, which the error
      handler answers with 500. */
  function Login(reg: Registry, rawId: string, password: string): (r: Result<Session, Thrown>)
    ensures FirstWith(reg.users, NationalIdOf, Trim(rawId)).None? ==> r == Err(Raise(BadCredentials))
    ensures r.Ok? ==> exists i :: (0 <= i < |reg.users| && reg.users[i].nationalId == Some(Trim(rawId))
      && reg.users[i].passwordHash == Some(Hashed(password)) && reg.users[i].role.Some?
      && r.value == Session(WithoutPassword(reg.users[i]), Token(reg.users[i].id, reg.users[i].role.value.name)))
  {
    LoginWith(reg, Trim(rawId), password)
  }

  /** `login` once the id has been trimmed. */
  function LoginWith(reg: Registry, id: string, password: string): (r: Result<Session, Thrown>)
    ensures FirstWith(reg.users, NationalIdOf, id).None? ==> r == Err(Raise(BadCredentials))
    ensures r.Ok? ==> exists i :: (0 <= i < |reg.users| && reg.users[i].nationalId == Some(id)
      && reg.users[i].passwordHash == Some(Hashed(password)) && reg.users[i].role.Some?
      && r.value == Session(WithoutPassword(reg.users[i]), Token(reg.users[i].id, reg.users[i].role.value.name)))
  {
    match FirstWith(reg.users, NationalIdOf, id)
    case None => Err(Raise(BadCredentials))
    case Some(i) =>
      var u := reg.users[i];
      if u.passwordHash.None? || u.passwordHash != Some(Hashed(password)) then Err(Raise(BadCredentials))
      else if u.role.None? then Err(Thrown(None, None))
      else Ok(Session(WithoutPassword(u), Token(u.id, u.role.value.name)))
  }

  /** A stored user holding `id` has `password`. */
  predicate Holds(reg: Registry, id: string, password: string) {
    exists i :: 0 <= i < |reg.users| && reg.users[i].nationalId == Some(id)
      && reg.users[i].passwordHash == Some(Hashed(password))
  }

  /** A stored user holding `id` has `password` and a role. */
  predicate HoldsWithRole(reg: Registry, id: string, password: string) {
    exists i :: 0 <= i < |reg.users| && reg.users[i].nationalId == Some(id)
      && reg.users[i].passwordHash == Some(Hashed(password)) && reg.users[i].role.Some?
  }

  /** With national ids unique, sign-in succeeds exactly when the user with
      the trimmed id has that password and a role. Every other failure (an
      unknown id, a user without a hash, a wrong password) is one and the
      same 401, so a caller cannot tell which it was. */
  lemma LoginSucceedsIffCredentialsHold(reg: Registry, rawId: string, password: string)
    requires UniqueColumn(reg.users, NationalIdOf)
    ensures Login(reg, rawId, password).Ok? <==> HoldsWithRole(reg, Trim(rawId), password)
    ensures !Holds(reg, Trim(rawId), password) ==> Login(reg, rawId, password) == Err(Raise(BadCredentials))
  {
    LoginWithCredentials(reg, Trim(rawId), password);
  }

  lemma LoginWithCredentials(reg: Registry, id: string, password: string)
    requires UniqueColumn(reg.users, NationalIdOf)
    ensures LoginWith(reg, id, password).Ok? <==> HoldsWithRole(reg, id, password)
    ensures !Holds(reg, id, password) ==> LoginWith(reg, id, password) == Err(Raise(BadCredentials))
  {
    if Holds(reg, id, password) {
      var i :| 0 <= i < |reg.users| && reg.users[i].nationalId == Some(id)
        && reg.users[i].passwordHash == Some(Hashed(password));
      assert FirstWith(reg.users, NationalIdOf, id).Some?;
    }
    match FirstWith(reg.users, NationalIdOf, id)
    case None =>
    case Some(k) =>
      assert reg.users[k].nationalId == Some(id);
  }

  /** White space around the id makes no difference. */
  lemma LoginTrimsTheId(reg: Registry, rawId: string, password: string)
    ensures Login(reg, rawId, password) == Login(reg, Trim(rawId), password)
  {
    TrimFixed(Trim(rawId));
  }

  /** A user who just registered can sign in with the id and password sent,
      and gets a student token for the new account. */
  lemma RegisteredCanSignIn(reg: Registry, d: Registration)
    requires Register(reg, d).Ok?
    requires Trim(d.nationalId) == d.nationalId
    ensures var after := Register(reg, d).value.0;
      Login(after, d.nationalId, d.password) == Ok(Session(WithoutPassword(after.users[|reg.users|]), Token(after.users[|reg.users|].id, "student")))
  {
    var after := Register(reg, d).value.0;
    var u := RegisteredUser(reg, d);
    assert after.users == reg.users + [u];
    NewestHolder(reg.users, u, d.nationalId);
  }

  /** When no stored user holds `id`, the first holder after appending `u`
      holding it is `u`. */
  lemma NewestHolder(users: seq<User>, u: User, id: string)
    requires forall j :: 0 <= j < |users| ==> users[j].nationalId != Some(id)
    requires u.nationalId == Some(id)
    ensures FirstWith(users + [u], NationalIdOf, id) == Some(|users|)
  {
    if |users| > 0 {
      assert (users + [u])[1..] == users[1..] + [u];
      NewestHolder(users[1..], u, id);
    }
  }

  lemma NotTakenNoHolder(users: seq<User>, id: string)
    requires !Taken(users, NationalIdOf, Some(id))
    ensures forall j :: 0 <= j < |users| ==> users[j].nationalId != Some(id)
  {
  }

  /** A student created by staff without a password signs in with the
      national id and `123456`. */
  lemma CreatedStudentSignsIn(reg: Registry, body: Students.NewStudent, id: string)
    requires body.nationalId == Some(id) && Trim(id) == id
    requires !Truthy(body.password)
    requires Students.CreateStudent(reg, body).Ok?
    ensures Login(Students.CreateStudent(reg, body).value, id, Students.DefaultPassword).Ok?
  {
    var section := Students.SectionFor(reg.sections, body.sectionId, Students.SectionMissing).value;
    var u := Students.NewUser(reg, body);
    var draft := ProfileDraft(body.fullName, OrElse(body.studentNumber, body.nationalId), section);
    assert Students.CreateStudent(reg, body) == SaveAccount(reg, u, draft);
    NotTakenNoHolder(reg.users, id);
    NewestHolder(reg.users, u, id);
  }

  /** A student imported from a sheet signs in with the row's national id
      and its student number, or its national id when the row has none. */
  lemma ImportedStudentSignsIn(p: StudentImport.Progress, row: Sheet.Row, section: Option<Section>)
    requires StudentImport.Accepts(p.reg, row, section)
    requires Trim(StudentImport.NationalIdIn(row)) == StudentImport.NationalIdIn(row)
    ensures Login(StudentImport.ImportRow(p, row, section).reg, StudentImport.NationalIdIn(row),
                  StudentImport.LoginName(row)).Ok?
  {
    var id := StudentImport.NationalIdIn(row);
    var u := StudentImport.ImportedUser(p.reg, row);
    NotTakenNoHolder(p.reg.users, id);
    NewestHolder(p.reg.users, u, id);
  }

  // ---------------------------------------------------------------------
  // updateProfile

  /** `updateProfile`: 404 for an unknown user, 403 for a student; a truthy
      national id different from the stored one must be free (400
      otherwise) and replaces it; a non-blank password is hashed as given.
      The answer is the saved user without its hash. */
  function UpdateProfile(reg: Registry, userId: nat, nationalId: Option<string>, password: Option<string>)
    : (r: Result<(Registry, UserView), Thrown>)
    ensures PositionOf(reg.users, IdOfUser, userId).None? ==> r == Err(Raise(UserNotFound))
    ensures PositionOf(reg.users, IdOfUser, userId).Some? && reg.users[PositionOf(reg.users, IdOfUser, userId).value].role == Some(StudentRole) ==>
      r == Err(Raise(StudentsCannotEdit))
    ensures r.Ok? ==> |r.value.0.users| == |reg.users| && r.value.0.students == reg.students
    ensures r.Ok? ==> var i := PositionOf(reg.users, IdOfUser, userId).value;
      && r.value.1 == WithoutPassword(r.value.0.users[i])
      && r.value.0.users[i].id == userId
      && (Truthy(nationalId) ==> r.value.0.users[i].nationalId == nationalId)
      && (!Truthy(nationalId) ==> r.value.0.users[i].nationalId == reg.users[i].nationalId)
      && (Students.NewPassword(password) ==> r.value.0.users[i].passwordHash == Some(Hashed(password.value)))
      && (!Students.NewPassword(password) ==> r.value.0.users[i].passwordHash == reg.users[i].passwordHash)
  {
    match PositionOf(reg.users, IdOfUser, userId)
    case None => Err(Raise(UserNotFound))
    case Some(i) =>
      var u := reg.users[i];
      if u.role == Some(StudentRole) then Err(Raise(StudentsCannotEdit))
      else if Truthy(nationalId) && nationalId != u.nationalId && FirstWith(reg.users, NationalIdOf, nationalId.value).Some?
      then Err(Raise(NationalIdInUse))
      else
        var v := u.(nationalId := if Truthy(nationalId) then nationalId else u.nationalId,
                    passwordHash := if Students.NewPassword(password) then Some(Hashed(password.value)) else u.passwordHash);
        var users := reg.users[i := v];
        Ok((reg.(users := users), WithoutPassword(v)))
  }

  /** A national id another user holds is refused. */
  lemma TakenNationalIdRefused(reg: Registry, userId: nat, nationalId: string, password: Option<string>)
    requires PositionOf(reg.users, IdOfUser, userId).Some?
    requires reg.users[PositionOf(reg.users, IdOfUser, userId).value].role != Some(StudentRole)
    requires nationalId != []
    requires exists j :: 0 <= j < |reg.users| && reg.users[j].id != userId && reg.users[j].nationalId == Some(nationalId)
    requires UniqueColumn(reg.users, NationalIdOf)
    ensures UpdateProfile(reg, userId, Some(nationalId), password) == Err(Raise(NationalIdInUse))
  {
    var i := PositionOf(reg.users, IdOfUser, userId).value;
    var j :| 0 <= j < |reg.users| && reg.users[j].id != userId && reg.users[j].nationalId == Some(nationalId);
    assert NationalIdOf(reg.users[j]) == Some(nationalId);
  }

  /** Profile changes keep every unique column unique. */
  lemma UpdateProfileKeepsConsistent(reg: Registry, userId: nat, nationalId: Option<string>, password: Option<string>)
    requires Consistent(reg)
    requires UpdateProfile(reg, userId, nationalId, password).Ok?
    ensures Consistent(UpdateProfile(reg, userId, nationalId, password).value.0)
  {
    var i := PositionOf(reg.users, IdOfUser, userId).value;
    var after := UpdateProfile(reg, userId, nationalId, password).value.0;
    var users := after.users;
    assert forall j :: 0 <= j < |users| && j != i ==> users[j] == reg.users[j];
    assert users[i].username == reg.users[i].username && users[i].email == reg.users[i].email;
    UniqueAfterChange(reg.users, users, i, UsernameOf);
    UniqueAfterChange(reg.users, users, i, EmailOf);
    if Truthy(nationalId) && nationalId != reg.users[i].nationalId {
      assert FirstWith(reg.users, NationalIdOf, nationalId.value).None?;
      forall a, b | 0 <= a < b < |users| && NationalIdOf(users[a]).Some?
        ensures NationalIdOf(users[a]) != NationalIdOf(users[b])
      {
        if a != i && b != i {
          assert users[a] == reg.users[a] && users[b] == reg.users[b];
        }
      }
    } else {
      UniqueAfterChange(reg.users, users, i, NationalIdOf);
    }
  }

  /** Changing one row without touching column `col` keeps it unique. */
  lemma UniqueAfterChange(a: seq<User>, b: seq<User>, i: nat, col: User -> Option<string>)
    requires UniqueColumn(a, col)
    requires |a| == |b| && i < |a|
    requires forall j :: 0 <= j < |a| && j != i ==> b[j] == a[j]
    requires col(b[i]) == col(a[i])
    ensures UniqueColumn(b, col)
  {
    forall x, y | 0 <= x < y < |b| && col(b[x]).Some?
      ensures col(b[x]) != col(b[y])
    {
      assert col(b[x]) == col(a[x]) && col(b[y]) == col(a[y]);
    }
  }
}
