/** The account tables the student and authentication services read and
    write: sections, roles, login identities and student profiles. The
    unique columns of `User` (`username`, `email`, `national_id`) and of
    `Student` (`student_number`) admit any number of nulls but no repeated
    value. */
module Directory {
  import opened Wrappers
  import opened Domain
  import opened Middleware

  datatype Registry = Registry(
    sections: seq<Section>,
    roles: seq<Role>,
    users: seq<User>,
    students: seq<StudentProfile>)

  const StudentRole := Role("student")

  /** The section with id `id`, if one is stored. */
  function FindSection(sections: seq<Section>, id: nat): (r: Option<Section>)
    ensures r.Some? ==> r.value in sections && r.value.id == id
    ensures r.None? ==> forall s :: s in sections ==> s.id != id
  {
    if |sections| == 0 then None
    else if sections[0].id == id then Some(sections[0])
    else FindSection(sections[1..], id)
  }

  /** The position of the first row whose column `col` holds `v`. */
  function FirstWith<T>(s: seq<T>, col: T -> Option<string>, v: string): (r: Option<nat>)
    ensures r.Some? ==> r.value < |s| && col(s[r.value]) == Some(v)
    ensures r.Some? ==> forall j :: 0 <= j < r.value ==> col(s[j]) != Some(v)
    ensures r.None? <==> forall j :: 0 <= j < |s| ==> col(s[j]) != Some(v)
  {
    if |s| == 0 then None
    else if col(s[0]) == Some(v) then Some(0)
    else
      var rest := FirstWith(s[1..], col, v);
      if rest.None? then None else Some(rest.value + 1)
  }

  /** The position of the first row whose id is `id`: `findOne` by primary
      key, for users and student profiles alike. */
  function PositionOf<T>(s: seq<T>, idOf: T -> nat, id: nat): (r: Option<nat>)
    ensures r.Some? ==> r.value < |s| && idOf(s[r.value]) == id
    ensures r.Some? ==> forall j :: 0 <= j < r.value ==> idOf(s[j]) != id
    ensures r.None? <==> forall j :: 0 <= j < |s| ==> idOf(s[j]) != id
  {
    if |s| == 0 then None
    else if idOf(s[0]) == id then Some(0)
    else
      var rest := PositionOf(s[1..], idOf, id);
      if rest.None? then None else Some(rest.value + 1)
  }

  function IdOfUser(u: User): nat { u.id }
  function IdOfStudent(p: StudentProfile): nat { p.id }

  /** Looking a row up again after an update that kept every id finds the
      same position. */
  lemma {:induction false} PositionUnchanged<T>(a: seq<T>, b: seq<T>, idOf: T -> nat, id: nat, i: nat)
    requires PositionOf(a, idOf, id) == Some(i)
    requires |a| == |b| && forall j :: 0 <= j < |a| ==> idOf(a[j]) == idOf(b[j])
    ensures PositionOf(b, idOf, id) == Some(i)
  {
    if |a| > 0 && idOf(a[0]) != id {
      assert idOf(b[0]) != id;
      assert PositionOf(a[1..], idOf, id) == Some(i - 1);
      PositionUnchanged(a[1..], b[1..], idOf, id, i - 1);
      assert PositionOf(b, idOf, id) == Some(PositionOf(b[1..], idOf, id).value + 1);
    }
  }

  /** An id no row had is still missing after an update that kept every id. */
  lemma PositionStillMissing<T>(a: seq<T>, b: seq<T>, idOf: T -> nat, id: nat)
    requires PositionOf(a, idOf, id).None?
    requires |a| == |b| && forall j :: 0 <= j < |a| ==> idOf(a[j]) == idOf(b[j])
    ensures PositionOf(b, idOf, id).None?
  {
  }

  function NationalIdOf(u: User): Option<string> { u.nationalId }
  function UsernameOf(u: User): Option<string> { u.username }
  function EmailOf(u: User): Option<string> { u.email }
  function StudentNumberOf(s: StudentProfile): Option<string> { s.studentNumber }

  /** No non-null value occurs twice in column `col`. */
  predicate UniqueColumn<T>(s: seq<T>, col: T -> Option<string>) {
    forall i, j :: 0 <= i < j < |s| && col(s[i]).Some? ==> col(s[i]) != col(s[j])
  }

  /** Some row already holds the non-null value `v` in column `col`. */
  predicate Taken<T>(s: seq<T>, col: T -> Option<string>, v: Option<string>) {
    v.Some? && exists i :: 0 <= i < |s| && col(s[i]) == v
  }

  /** The state the unique constraints guarantee. */
  predicate Consistent(reg: Registry) {
    && UniqueColumn(reg.users, NationalIdOf)
    && UniqueColumn(reg.users, UsernameOf)
    && UniqueColumn(reg.users, EmailOf)
    && UniqueColumn(reg.students, StudentNumberOf)
  }

  /** Appending a row whose value is not taken keeps the column unique. */
  lemma AppendUnique<T>(s: seq<T>, col: T -> Option<string>, x: T)
    requires UniqueColumn(s, col)
    requires !Taken(s, col, col(x))
    ensures UniqueColumn(s + [x], col)
  {
    var t := s + [x];
    forall i, j | 0 <= i < j < |t| && col(t[i]).Some?
      ensures col(t[i]) != col(t[j])
    {
      if j == |s| {
        assert t[j] == x && t[i] == s[i];
        if col(s[i]) == col(x) {
          assert Taken(s, col, col(x));
        }
      }
    }
  }

  /** Taken values stay taken when rows are appended. */
  lemma TakenGrows<T>(s: seq<T>, more: seq<T>, col: T -> Option<string>, v: Option<string>)
    requires Taken(s, col, v)
    ensures Taken(s + more, col, v)
  {
    var i :| 0 <= i < |s| && col(s[i]) == v;
    assert (s + more)[i] == s[i];
  }

  /** A value is taken exactly when a lookup for it finds a row. */
  lemma TakenIffFound<T>(s: seq<T>, col: T -> Option<string>, v: string)
    ensures Taken(s, col, Some(v)) <==> FirstWith(s, col, v).Some?
  {
    if FirstWith(s, col, v).Some? {
      assert col(s[FirstWith(s, col, v).value]) == Some(v);
    }
  }

  /** One more than the largest stored user id. */
  function NextUserId(users: seq<User>): (r: nat)
    ensures forall u :: u in users ==> u.id < r
  {
    if |users| == 0 then 1
    else
      var rest := NextUserId(users[1..]);
      assert forall u :: u in users[1..] ==> u in users;
      if users[0].id < rest then rest else users[0].id + 1
  }

  /** One more than the largest stored student id. */
  function NextStudentId(students: seq<StudentProfile>): (r: nat)
    ensures forall s :: s in students ==> s.id < r
  {
    if |students| == 0 then 1
    else
      var rest := NextStudentId(students[1..]);
      if students[0].id < rest then rest else students[0].id + 1
  }

  // ---------------------------------------------------------------------
  // Writes

  /** An `ApiError` thrown by a service. */
  function Raise(e: ApiError): Thrown { Thrown(Some(e), None) }

  /** A driver error carrying its SQLSTATE code. */
  function DbFailure(code: string): Thrown { Thrown(None, Some(code)) }

  const UniqueViolation := "23505"
  const NotNullViolation := "23502"

  /** The user columns a new user `u` would repeat. */
  predicate UserClashes(users: seq<User>, u: User) {
    || Taken(users, NationalIdOf, u.nationalId)
    || Taken(users, UsernameOf, u.username)
    || Taken(users, EmailOf, u.email)
  }

  /** The student fields a service fills in before saving a profile. */
  datatype ProfileDraft = ProfileDraft(fullName: Option<string>, studentNumber: Option<string>, section: Option<Section>)

  /** The stored profile of a draft linked to user `u`. */
  function ProfileOf(reg: Registry, u: User, p: ProfileDraft): StudentProfile
    requires p.fullName.Some?
  {
    StudentProfile(NextStudentId(reg.students), Some(u.id), p.fullName.value, p.studentNumber, p.section)
  }

  /** A user insert followed by its profile insert, in one transaction: the
      user insert fails on a unique column that already holds its value, the
      profile insert on a null `full_name` or a taken `student_number`; a
      failure of either leaves both tables as they were. */
  function SaveAccount(reg: Registry, u: User, p: ProfileDraft): (r: Result<Registry, Thrown>)
    ensures r.Ok? <==>
      !UserClashes(reg.users, u) && p.fullName.Some? && !Taken(reg.students, StudentNumberOf, p.studentNumber)
    ensures r.Ok? ==> r.value.sections == reg.sections && r.value.roles == reg.roles
    ensures r.Ok? ==> r.value.users == reg.users + [u]
    ensures r.Ok? ==> r.value.students == reg.students + [ProfileOf(reg, u, p)]
    ensures r.Err? ==> r.error == DbFailure(UniqueViolation) || r.error == DbFailure(NotNullViolation)
  {
    if UserClashes(reg.users, u) then Err(DbFailure(UniqueViolation))
    else if p.fullName.None? then Err(DbFailure(NotNullViolation))
    else if Taken(reg.students, StudentNumberOf, p.studentNumber) then Err(DbFailure(UniqueViolation))
    else Ok(reg.(users := reg.users + [u], students := reg.students + [ProfileOf(reg, u, p)]))
  }

  /** A successful account insert keeps every unique column unique. */
  lemma SaveKeepsConsistent(reg: Registry, u: User, p: ProfileDraft)
    requires Consistent(reg)
    requires SaveAccount(reg, u, p).Ok?
    ensures Consistent(SaveAccount(reg, u, p).value)
  {
    AppendUnique(reg.users, NationalIdOf, u);
    AppendUnique(reg.users, UsernameOf, u);
    AppendUnique(reg.users, EmailOf, u);
    AppendUnique(reg.students, StudentNumberOf, ProfileOf(reg, u, p));
  }

  /** A saved account holds the values it was saved with: its national id and
      username become taken. */
  lemma SavedValuesTaken(reg: Registry, u: User, p: ProfileDraft)
    requires SaveAccount(reg, u, p).Ok?
    ensures u.nationalId.Some? ==> Taken(SaveAccount(reg, u, p).value.users, NationalIdOf, u.nationalId)
    ensures u.username.Some? ==> Taken(SaveAccount(reg, u, p).value.users, UsernameOf, u.username)
  {
    var users := SaveAccount(reg, u, p).value.users;
    assert users[|reg.users|] == u;
  }
}
