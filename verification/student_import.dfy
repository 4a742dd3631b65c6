/** The spreadsheet import of `importFromExcel` in
    `backend/src/services/student.service.ts`. Each row is handled on its
    own: a row without a truthy national id or full name, or whose national
    id is already registered, is recorded as an error; otherwise a user and
    a student profile are saved together, and a database refusal of that
    save is recorded as an error too. Later rows see the accounts earlier
    rows created. */
module StudentImport {
  import opened Wrappers
  import opened Domain
  import opened Sheet
  import opened Middleware
  import opened Directory

  const NationalIdColumn := "national_id"
  const FullNameColumn := "full_name"
  const StudentNumberColumn := "student_number"

  const RoleUndefined := ApiError(500, "صلاحية الطالب غير معرفة.")

  /** Why a row was not imported. The service reports `Incomplete` as
      `بيانات ناقصة في الصف: <row as JSON>`, `AlreadyRegistered` as
      `الرقم القومي <id> مسجل مسبقاً.`, and `Failed` as
      `خطأ في استيراد <name>: <driver message>`. */
  datatype RowError =
    | Incomplete(row: Row)
    | AlreadyRegistered(nationalId: string)
    | Failed(fullName: string, cause: Thrown)

  /** The accounts so far, the rows imported and the errors recorded. */
  datatype Progress = Progress(reg: Registry, success: nat, errors: seq<RowError>)

  /** Both required columns hold truthy cells. */
  predicate Complete(row: Row) {
    Present(row, NationalIdColumn) && Present(row, FullNameColumn)
  }

  function NationalIdIn(row: Row): string
    requires Complete(row)
  {
    CellString(row[NationalIdColumn])
  }

  /** `String(student_number || national_id)`: the username, the password and
      the student number of an imported student. */
  function LoginName(row: Row): (r: string)
    requires Complete(row)
    ensures r != []
  {
    if Present(row, StudentNumberColumn) then CellString(row[StudentNumberColumn])
    else NationalIdIn(row)
  }

  /** The login identity an accepted row creates. */
  function ImportedUser(reg: Registry, row: Row): User
    requires Complete(row)
  {
    User(NextUserId(reg.users),
         Some(LoginName(row)),
         Some(NationalIdIn(row) + "@sems.local"),
         Some(NationalIdIn(row)),
         Some(Hashed(LoginName(row))),
         Some(StudentRole))
  }

  function ImportedProfile(row: Row, section: Option<Section>): ProfileDraft
    requires Complete(row)
  {
    ProfileDraft(Some(CellString(row[FullNameColumn])), Some(LoginName(row)), section)
  }

  /** The row's national id is held by a stored user. */
  predicate Registered(reg: Registry, row: Row)
    requires Complete(row)
  {
    FirstWith(reg.users, NationalIdOf, NationalIdIn(row)).Some?
  }

  /** The row creates an account: it is complete, its national id is new, and
      the database takes the save. */
  predicate Accepts(reg: Registry, row: Row, section: Option<Section>) {
    && Complete(row)
    && !Registered(reg, row)
    && SaveAccount(reg, ImportedUser(reg, row), ImportedProfile(row, section)).Ok?
  }

  /** One pass of the loop body. */
  function ImportRow(p: Progress, row: Row, section: Option<Section>): (q: Progress)
    ensures Accepts(p.reg, row, section) ==> q.success == p.success + 1 && q.errors == p.errors
    ensures !Accepts(p.reg, row, section) ==>
      q.reg == p.reg && q.success == p.success && |q.errors| == |p.errors| + 1 && q.errors[..|p.errors|] == p.errors
  {
    if !Complete(row) then p.(errors := p.errors + [Incomplete(row)])
    else if Registered(p.reg, row) then p.(errors := p.errors + [AlreadyRegistered(NationalIdIn(row))])
    else
      match SaveAccount(p.reg, ImportedUser(p.reg, row), ImportedProfile(row, section))
      case Err(e) => p.(errors := p.errors + [Failed(CellString(row[FullNameColumn]), e)])
      case Ok(reg) => Progress(reg, p.success + 1, p.errors)
  }

  /** Which error a refused row records. */
  lemma RowErrorNamesTheCause(p: Progress, row: Row, section: Option<Section>)
    ensures !Complete(row) ==> ImportRow(p, row, section).errors == p.errors + [Incomplete(row)]
    ensures Complete(row) && Taken(p.reg.users, NationalIdOf, Some(NationalIdIn(row))) ==>
      ImportRow(p, row, section).errors == p.errors + [AlreadyRegistered(NationalIdIn(row))]
    ensures Complete(row) && !Taken(p.reg.users, NationalIdOf, Some(NationalIdIn(row))) && !Accepts(p.reg, row, section) ==>
      exists cause :: ImportRow(p, row, section).errors == p.errors + [Failed(CellString(row[FullNameColumn]), cause)]
  {
    if Complete(row) {
      TakenIffFound(p.reg.users, NationalIdOf, NationalIdIn(row));
    }
  }

  /** `b` holds every row of `a`, in place, and perhaps more. */
  predicate Extends(a: Registry, b: Registry) {
    && b.sections == a.sections && b.roles == a.roles
    && |a.users| <= |b.users| && b.users[..|a.users|] == a.users
    && |a.students| <= |b.students| && b.students[..|a.students|] == a.students
  }

  lemma ExtendsTransitive(a: Registry, b: Registry, c: Registry)
    requires Extends(a, b) && Extends(b, c)
    ensures Extends(a, c)
  {
    assert c.users[..|a.users|] == c.users[..|b.users|][..|a.users|];
    assert c.students[..|a.students|] == c.students[..|b.students|][..|a.students|];
  }

  /** A row only ever adds accounts. */
  lemma ImportRowExtends(p: Progress, row: Row, section: Option<Section>)
    ensures Extends(p.reg, ImportRow(p, row, section).reg)
  {
    if Accepts(p.reg, row, section) {
      var q := ImportRow(p, row, section);
      assert q.reg.users[..|p.reg.users|] == p.reg.users;
      assert q.reg.students[..|p.reg.students|] == p.reg.students;
    }
  }

  /** The loop over the rows, from `start`. */
  function ImportRows(start: Progress, rows: seq<Row>, section: Option<Section>): (r: Progress)
    ensures r.success + |r.errors| == start.success + |start.errors| + |rows|
    ensures r.success >= start.success
  {
    if |rows| == 0 then start
    else ImportRow(ImportRows(start, rows[..|rows| - 1], section), rows[|rows| - 1], section)
  }

  /** The section an import assigns: the one `sectionId` names, if it is
      truthy and names one; an unknown id assigns none and is not an
      error. */
  function SheetSection(reg: Registry, sectionId: Option<nat>): (r: Option<Section>)
    ensures r.Some? ==> TruthyNat(sectionId) && r.value in reg.sections && r.value.id == sectionId.value
    ensures TruthyNat(sectionId) && r.None? ==> forall s :: s in reg.sections ==> s.id != sectionId.value
  {
    if TruthyNat(sectionId) then FindSection(reg.sections, sectionId.value) else None
  }

  /** The outcome of an import: the accounts afterwards, the imported count
      and the errors in row order. */
  datatype Report = Report(reg: Registry, success: nat, errors: seq<RowError>)

  /** `importFromExcel`: 500 when the student role is missing; otherwise
      every row is either imported or recorded as one error. */
  method ImportFromSheet(reg: Registry, rows: seq<Row>, sectionId: Option<nat>) returns (r: Result<Report, Thrown>)
    ensures r.Err? <==> StudentRole !in reg.roles
    ensures r.Err? ==> r.error == Raise(RoleUndefined)
    ensures r.Ok? ==> r.value.success + |r.value.errors| == |rows|
    ensures r.Ok? ==>
      var done := ImportRows(Progress(reg, 0, []), rows, SheetSection(reg, sectionId));
      r.value == Report(done.reg, done.success, done.errors)
  {
    if StudentRole !in reg.roles {
      return Err(Raise(RoleUndefined));
    }
    var section := SheetSection(reg, sectionId);
    var p := Progress(reg, 0, []);
    var i := 0;
    while i < |rows|
      invariant 0 <= i <= |rows|
      invariant p == ImportRows(Progress(reg, 0, []), rows[..i], section)
    {
      assert rows[..i + 1][..i] == rows[..i];
      assert ImportRows(Progress(reg, 0, []), rows[..i + 1], section)
          == ImportRow(ImportRows(Progress(reg, 0, []), rows[..i], section), rows[i], section);
      p := ImportRow(p, rows[i], section);
      i := i + 1;
    }
    assert rows[..|rows|] == rows;
    r := Ok(Report(p.reg, p.success, p.errors));
  }

  /** Rows only ever add accounts, and the accounts added are the imported
      rows: one user and one profile each. */
  lemma {:induction false} ImportAppends(start: Progress, rows: seq<Row>, section: Option<Section>)
    ensures Extends(start.reg, ImportRows(start, rows, section).reg)
    ensures |ImportRows(start, rows, section).reg.users| == |start.reg.users| + ImportRows(start, rows, section).success - start.success
  {
    if |rows| > 0 {
      var mid := ImportRows(start, rows[..|rows| - 1], section);
      ImportAppends(start, rows[..|rows| - 1], section);
      ImportRowExtends(mid, rows[|rows| - 1], section);
      ExtendsTransitive(start.reg, mid.reg, ImportRows(start, rows, section).reg);
    }
  }

  /** The import keeps every unique column unique; in particular no national
      id ends up with two accounts, even when the sheet repeats it. */
  lemma {:induction false} ImportKeepsConsistent(start: Progress, rows: seq<Row>, section: Option<Section>)
    requires Consistent(start.reg)
    ensures Consistent(ImportRows(start, rows, section).reg)
  {
    if |rows| > 0 {
      var mid := ImportRows(start, rows[..|rows| - 1], section);
      ImportKeepsConsistent(start, rows[..|rows| - 1], section);
      var row := rows[|rows| - 1];
      if Accepts(mid.reg, row, section) {
        SaveKeepsConsistent(mid.reg, ImportedUser(mid.reg, row), ImportedProfile(row, section));
      }
    }
  }

  /** A refused row stays refused however many accounts are added. */
  lemma RefusalPersists(a: Registry, b: Registry, row: Row, section: Option<Section>)
    requires Extends(a, b)
    requires !Accepts(a, row, section)
    ensures !Accepts(b, row, section)
  {
    if Complete(row) {
      var nid := NationalIdIn(row);
      assert a.users + b.users[|a.users|..] == b.users;
      assert a.students + b.students[|a.students|..] == b.students;
      TakenIffFound(a.users, NationalIdOf, nid);
      TakenIffFound(b.users, NationalIdOf, nid);
      if Registered(a, row) {
        TakenGrows(a.users, b.users[|a.users|..], NationalIdOf, Some(nid));
      } else {
        var ua := ImportedUser(a, row);
        var ub := ImportedUser(b, row);
        var draft := ImportedProfile(row, section);
        assert UserClashes(a.users, ua) || Taken(a.students, StudentNumberOf, draft.studentNumber);
        if Taken(a.users, UsernameOf, ua.username) {
          TakenGrows(a.users, b.users[|a.users|..], UsernameOf, ub.username);
        } else if Taken(a.users, EmailOf, ua.email) {
          TakenGrows(a.users, b.users[|a.users|..], EmailOf, ub.email);
        } else {
          TakenGrows(a.students, b.students[|a.students|..], StudentNumberOf, draft.studentNumber);
        }
      }
    }
  }

  /** An accepted row is refused afterwards: its national id is now held. */
  lemma AcceptedThenRegistered(p: Progress, row: Row, section: Option<Section>)
    requires Accepts(p.reg, row, section)
    ensures !Accepts(ImportRow(p, row, section).reg, row, section)
  {
    var u := ImportedUser(p.reg, row);
    var after := ImportRow(p, row, section).reg;
    SavedValuesTaken(p.reg, u, ImportedProfile(row, section));
    TakenIffFound(after.users, NationalIdOf, NationalIdIn(row));
  }

  /** After an import, the accounts it produced refuse every row of the
      sheet. */
  lemma {:induction false} ImportedSheetRefused(start: Progress, rows: seq<Row>, section: Option<Section>)
    ensures forall k :: 0 <= k < |rows| ==> !Accepts(ImportRows(start, rows, section).reg, rows[k], section)
  {
    if |rows| > 0 {
      var init := rows[..|rows| - 1];
      var row := rows[|rows| - 1];
      var mid := ImportRows(start, init, section);
      var after := ImportRows(start, rows, section);
      ImportedSheetRefused(start, init, section);
      ImportRowExtends(mid, row, section);
      forall k | 0 <= k < |rows|
        ensures !Accepts(after.reg, rows[k], section)
      {
        if k < |init| {
          assert rows[k] == init[k];
          RefusalPersists(mid.reg, after.reg, rows[k], section);
        } else if Accepts(mid.reg, row, section) {
          AcceptedThenRegistered(mid, row, section);
        } else {
          assert after.reg == mid.reg;
        }
      }
    }
  }

  /** Rows that a registry refuses leave it as it is. */
  lemma {:induction false} RefusedRowsChangeNothing(start: Progress, rows: seq<Row>, section: Option<Section>)
    requires forall k :: 0 <= k < |rows| ==> !Accepts(start.reg, rows[k], section)
    ensures ImportRows(start, rows, section).reg == start.reg
    ensures ImportRows(start, rows, section).success == start.success
  {
    if |rows| > 0 {
      var init := rows[..|rows| - 1];
      assert forall k :: 0 <= k < |init| ==> init[k] == rows[k];
      RefusedRowsChangeNothing(start, init, section);
    }
  }

  /** Importing the same sheet again adds no account: every row is reported
      as an error the second time. */
  lemma ReimportAddsNothing(reg: Registry, rows: seq<Row>, section: Option<Section>)
    ensures var first := ImportRows(Progress(reg, 0, []), rows, section);
      var second := ImportRows(Progress(first.reg, 0, []), rows, section);
      second.reg == first.reg && second.success == 0 && |second.errors| == |rows|
  {
    var first := ImportRows(Progress(reg, 0, []), rows, section);
    ImportedSheetRefused(Progress(reg, 0, []), rows, section);
    RefusedRowsChangeNothing(Progress(first.reg, 0, []), rows, section);
  }

  /** Each accepted row can sign in afterwards: its user holds the row's
      national id, and the password is the student number or else the
      national id. */
  lemma AcceptedRowCredentials(p: Progress, row: Row, section: Option<Section>)
    requires Accepts(p.reg, row, section)
    ensures var after := ImportRow(p, row, section).reg;
      var u := after.users[|p.reg.users|];
      && u.nationalId == Some(NationalIdIn(row))
      && u.passwordHash == Some(Hashed(LoginName(row)))
      && u.username == Some(LoginName(row))
      && u.role == Some(StudentRole)
      && after.students[|p.reg.students|].userId == Some(u.id)
  {
  }
}
