/** Student administration in `backend/src/services/student.service.ts`:
    the paginated listing of `getAll`, and the field defaulting of `create`
    and `update`. The page and limit are read through `Number(...)` and
    arrive here as integers; the `ILIKE` search is a parameter
    `contains(column, text)`. */
module Students {
  import opened Wrappers
  import opened Domain
  import opened Text
  import opened Grouping
  import opened Sorting
  import opened Middleware
  import opened Directory

  // ---------------------------------------------------------------------
  // getAll

  /** The query of a listing request; `None` where the parameter is absent.
      `section_id` is a query string, so any non-empty value (`'0'`
      included) is truthy: `sectionId` is `None` only for an absent or empty
      one, and otherwise holds the number the string names. */
  datatype Query = Query(page: Option<int>, limit: Option<int>, search: Option<string>, sectionId: Option<nat>)

  /** The `pagination` object of a listing; `pages` is `None` when the limit
      is 0, where `Math.ceil(total / 0)` is not a number of pages. */
  datatype Pagination = Pagination(total: nat, page: int, limit: int, pages: Option<int>)

  /** A student as the listing joins it: the profile and its user's
      national id. */
  datatype Listed = Listed(profile: StudentProfile, nationalId: Option<string>)

  datatype Listing = Listing(students: seq<Listed>, pagination: Pagination)

  const DefaultPage := 1
  const DefaultLimit := 20

  function PageOf(q: Query): int { q.page.GetOr(DefaultPage) }

  function LimitOf(q: Query): int { q.limit.GetOr(DefaultLimit) }

  /** `(page - 1) * limit`: the rows in front of the requested page. */
  function Skip(page: int, limit: int): int { (page - 1) * limit }

  function Min(a: int, b: int): int { if a <= b then a else b }

  /** `Math.ceil(a / b)`: the least integer not below the exact quotient. */
  function CeilDiv(a: int, b: int): (r: int)
    requires b != 0
    ensures (r - 1) as real < a as real / b as real <= r as real
  {
    if b > 0 then CeilPositive(a, b)
    else
      assert (-a) as real / (-b) as real == a as real / b as real;
      CeilPositive(-a, -b)
  }

  function CeilPositive(a: int, b: int): (r: int)
    requires b > 0
    ensures (r - 1) as real < a as real / b as real <= r as real
  {
    var q := (-a) / b;
    var m := (-a) % b;
    assert a == -q * b - m && 0 <= m < b;
    Quotient(a as real, b as real, (-q - 1) as real, (-q) as real);
    -q
  }

  /** Dividing strict-lower / upper bounds of a product by a positive factor. */
  lemma Quotient(a: real, b: real, lo: real, hi: real)
    requires b > 0.0 && lo * b < a <= hi * b
    ensures lo < a / b <= hi
  {
  }

  /** For a positive limit, `pages` pages of `limit` rows hold all `total`
      rows, and one page fewer does not. */
  lemma {:induction false} CeilDivCovers(total: nat, limit: int)
    requires limit > 0
    ensures CeilDiv(total, limit) >= 0
    ensures CeilDiv(total, limit) * limit >= total
    ensures total > 0 ==> (CeilDiv(total, limit) - 1) * limit < total
  {
    var t: int := total;
    var q := (-t) / limit;
    var m := (-t) % limit;
    assert -t == q * limit + m && 0 <= m < limit;
    assert CeilDiv(total, limit) == -q;
    assert -q * limit == total + m;
  }

  lemma MulAtMost(a: int, b: int, c: int)
    requires a <= b && c >= 0
    ensures a * c <= b * c
  {
  }

  /** The `pagination` object: echoes the page and limit in force and counts
      the pages needed for `total` matching rows. */
  function Paginate(total: nat, q: Query): (p: Pagination)
    ensures p.total == total && p.page == PageOf(q) && p.limit == LimitOf(q)
    ensures p.pages.None? <==> LimitOf(q) == 0
    ensures p.pages.Some? ==>
      (p.pages.value - 1) as real < total as real / p.limit as real <= p.pages.value as real
  {
    var limit := LimitOf(q);
    Pagination(total, PageOf(q), limit, if limit == 0 then None else Some(CeilDiv(total, limit)))
  }

  /** The rows of page `page`: those at positions `skip`, `skip + 1`, ... up
      to `limit` of them. */
  function Window<T>(s: seq<T>, page: int, limit: int): (r: seq<T>)
    requires page >= 1 && limit >= 1
    ensures |r| <= limit
    ensures |r| == if Skip(page, limit) >= |s| then 0 else Min(limit, |s| - Skip(page, limit))
    ensures forall i :: 0 <= i < |r| ==> Skip(page, limit) + i < |s| && r[i] == s[Skip(page, limit) + i]
  {
    MulAtMost(0, page - 1, limit);
    Slice(s, Skip(page, limit), limit)
  }

  /** Up to `limit` rows from position `skip` on. */
  function Slice<T>(s: seq<T>, skip: nat, limit: nat): (r: seq<T>)
    ensures |r| == if skip >= |s| then 0 else Min(limit, |s| - skip)
    ensures forall i :: 0 <= i < |r| ==> skip + i < |s| && r[i] == s[skip + i]
  {
    s[Min(skip, |s|)..Min(skip + limit, |s|)]
  }

  /** A page holds rows of the list, in the list's order. */
  lemma WindowOfSorted<T>(s: seq<T>, page: int, limit: int, key: T -> real)
    requires page >= 1 && limit >= 1
    ensures forall x :: x in Window(s, page, limit) ==> x in s
    ensures SortedDesc(s, key) ==> SortedDesc(Window(s, page, limit), key)
  {
    var w := Window(s, page, limit);
    var skip := Skip(page, limit);
    forall x | x in w ensures x in s {
      var i :| 0 <= i < |w| && w[i] == x;
      assert s[skip + i] == x;
    }
    if SortedDesc(s, key) {
      forall i, j | 0 <= i < j < |w| ensures key(w[i]) >= key(w[j]) {
        assert w[i] == s[skip + i] && w[j] == s[skip + j];
      }
    }
  }

  /** Pages `1..n` one after the other. */
  function Pages<T>(s: seq<T>, n: nat, limit: int): seq<T>
    requires limit >= 1
  {
    if n == 0 then [] else Pages(s, n - 1, limit) + Window(s, n, limit)
  }

  /** The first `n` pages are the first `n * limit` rows. */
  lemma {:induction false} PagesArePrefix<T>(s: seq<T>, n: nat, limit: int)
    requires limit >= 1
    ensures n * limit >= 0
    ensures Pages(s, n, limit) == s[..Min(n * limit, |s|)]
  {
    MulAtMost(0, n, limit);
    if n > 0 {
      PagesArePrefix(s, n - 1, limit);
      assert Skip(n, limit) == (n - 1) * limit;
      assert Skip(n, limit) + limit == n * limit;
      MulAtMost(0, n - 1, limit);
      var lo := Min((n - 1) * limit, |s|);
      var hi := Min(n * limit, |s|);
      assert Window(s, n, limit) == s[lo..hi];
      assert s[..lo] + s[lo..hi] == s[..hi];
    }
  }

  /** Reading every page, from the first to the last the pagination counts,
      lists every row exactly once and in order. */
  lemma PagesListEveryRow<T>(s: seq<T>, limit: int)
    requires limit >= 1
    ensures CeilDiv(|s|, limit) >= 0
    ensures Pages(s, CeilDiv(|s|, limit), limit) == s
  {
    CeilDivCovers(|s|, limit);
    PagesArePrefix(s, CeilDiv(|s|, limit), limit);
  }

  /** Pages past the last counted page are empty; the last one is not. */
  lemma PagesBeyondLastAreEmpty<T>(s: seq<T>, page: int, limit: int)
    requires page >= 1 && limit >= 1
    ensures page > CeilDiv(|s|, limit) ==> Window(s, page, limit) == []
    ensures |s| > 0 && page == CeilDiv(|s|, limit) ==> Window(s, page, limit) != []
  {
    CeilDivCovers(|s|, limit);
    var c := CeilDiv(|s|, limit);
    if page > c {
      MulAtMost(c, page - 1, limit);
    }
  }

  /** The `search` condition: the text occurs in the full name, the student
      number or the national id. A null column matches nothing. */
  predicate SearchHit(contains: (string, string) -> bool, text: string, x: Listed) {
    || contains(x.profile.fullName, text)
    || (x.profile.studentNumber.Some? && contains(x.profile.studentNumber.value, text))
    || (x.nationalId.Some? && contains(x.nationalId.value, text))
  }

  /** The `WHERE` clause: each condition applies only when its parameter is
      truthy. A given section filter rejects a student without a section, and
      a filter naming no stored section (`'0'` among them) rejects every
      student. */
  predicate Wanted(q: Query, contains: (string, string) -> bool, x: Listed) {
    && (Truthy(q.search) ==> SearchHit(contains, q.search.value, x))
    && (q.sectionId.Some? ==> x.profile.section.Some? && x.profile.section.value.id == q.sectionId.value)
  }

  function WantedBy(q: Query, contains: (string, string) -> bool): Listed -> bool {
    x => Wanted(q, contains, x)
  }

  function IdKey(x: Listed): real { x.profile.id as real }

  /** Every matching student, newest id first. */
  function Ordered(all: seq<Listed>, q: Query, contains: (string, string) -> bool): (r: seq<Listed>)
    ensures multiset(r) == multiset(Filter(all, WantedBy(q, contains)))
    ensures SortedDesc(r, IdKey)
  {
    SortDesc(Filter(all, WantedBy(q, contains)), IdKey)
  }

  /** `getAll`: one page of the matching students, and the pagination of the
      whole match. The page and limit must be positive for the page to be a
      slice of the match. */
  function ListStudents(all: seq<Listed>, q: Query, contains: (string, string) -> bool): (r: Listing)
    requires PageOf(q) >= 1 && LimitOf(q) >= 1
    ensures r.pagination.total == |Filter(all, WantedBy(q, contains))|
    ensures r.pagination.page == PageOf(q) && r.pagination.limit == LimitOf(q)
    ensures r.pagination.pages.Some?
    ensures |r.students| <= LimitOf(q)
  {
    Listing(Window(Ordered(all, q, contains), PageOf(q), LimitOf(q)),
            Paginate(|Filter(all, WantedBy(q, contains))|, q))
  }

  /** Every listed student is stored and satisfies the query; the page is
      ordered by id, largest first. */
  lemma ListedStudentsMatch(all: seq<Listed>, q: Query, contains: (string, string) -> bool)
    requires PageOf(q) >= 1 && LimitOf(q) >= 1
    ensures forall x :: x in ListStudents(all, q, contains).students ==> x in all && Wanted(q, contains, x)
    ensures SortedDesc(ListStudents(all, q, contains).students, IdKey)
  {
    var matching := Filter(all, WantedBy(q, contains));
    var ordered := Ordered(all, q, contains);
    assert ListStudents(all, q, contains).students == Window(ordered, PageOf(q), LimitOf(q));
    WindowOfSorted(ordered, PageOf(q), LimitOf(q), IdKey);
    FilterIn(all, WantedBy(q, contains));
    SameElements(ordered, matching);
    assert forall x :: x in matching ==> WantedBy(q, contains)(x);
  }

  /** A section filter that no student's section carries, such as
      `section_id=0`, is still applied: the listing is empty and counts no
      student. */
  lemma UnmatchedSectionListsNobody(all: seq<Listed>, q: Query, contains: (string, string) -> bool)
    requires PageOf(q) >= 1 && LimitOf(q) >= 1
    requires q.sectionId.Some?
    requires forall k :: 0 <= k < |all| ==>
      all[k].profile.section.None? || all[k].profile.section.value.id != q.sectionId.value
    ensures ListStudents(all, q, contains).students == []
    ensures ListStudents(all, q, contains).pagination.total == 0
  {
    FilterNone(all, WantedBy(q, contains));
    assert Ordered(all, q, contains) == SortDesc([], IdKey);
  }

  /** The query asking for page `p` of the same selection. */
  function AtPage(q: Query, p: int): Query { q.(page := Some(p)) }

  /** Walking the pages `1..pages` of a query lists each matching student
      exactly once: the pages put together are a permutation of the match. */
  lemma EveryMatchOnOnePage(all: seq<Listed>, q: Query, contains: (string, string) -> bool)
    requires PageOf(q) >= 1 && LimitOf(q) >= 1
    ensures ListStudents(all, q, contains).pagination.pages.value >= 0
    ensures var n := ListStudents(all, q, contains).pagination.pages.value;
      multiset(Pages(Ordered(all, q, contains), n, LimitOf(q))) == multiset(Filter(all, WantedBy(q, contains)))
  {
    var matching := Filter(all, WantedBy(q, contains));
    var ordered := Ordered(all, q, contains);
    assert ListStudents(all, q, contains).pagination == Paginate(|matching|, q);
    SameElements(ordered, matching);
    assert Paginate(|matching|, q).pages == Some(CeilDiv(|ordered|, LimitOf(q)));
    PagesListEveryRow(ordered, LimitOf(q));
  }

  // ---------------------------------------------------------------------
  // create

  /** The body of a `create` request. */
  datatype NewStudent = NewStudent(
    fullName: Option<string>,
    nationalId: Option<string>,
    studentNumber: Option<string>,
    sectionId: Option<nat>,
    email: Option<string>,
    password: Option<string>)

  const SectionMissing := ApiError(400, "الشعبة غير موجودة.")
  const RoleMissing := ApiError(500, "صلاحية الطالب غير معرفة في النظام.")
  const DefaultPassword := "123456"
  const MailDomain := "@sems.local"

  /** A value interpolated into a template literal: an absent value prints
      as `undefined`. */
  function Interpolated(v: Option<string>): string {
    match v
    case None => "undefined"
    case Some(s) => s
  }

  /** The section a truthy `section_id` names, or an error when none has
      that id; no section when the id is not truthy. */
  function SectionFor(sections: seq<Section>, id: Option<nat>, missing: ApiError): (r: Result<Option<Section>, Thrown>)
    ensures r.Err? <==> TruthyNat(id) && FindSection(sections, id.value).None?
    ensures r.Err? ==> r.error == Raise(missing)
    ensures r.Ok? && TruthyNat(id) ==> r.value.Some? && r.value.value in sections && r.value.value.id == id.value
    ensures r.Ok? && !TruthyNat(id) ==> r.value.None?
  {
    if !TruthyNat(id) then Ok(None)
    else
      match FindSection(sections, id.value)
      case None => Err(Raise(missing))
      case Some(s) => Ok(Some(s))
  }

  /** The login identity `create` builds: the username is the student number
      or else the national id, the e-mail the given one or else
      `<national id>@sems.local`, the password the given one or else
      `123456`. */
  function NewUser(reg: Registry, body: NewStudent): User {
    User(NextUserId(reg.users),
         OrElse(body.studentNumber, body.nationalId),
         OrElse(body.email, Some(Interpolated(body.nationalId) + MailDomain)),
         body.nationalId,
         Some(Hashed(OrElse(body.password, Some(DefaultPassword)).value)),
         Some(StudentRole))
  }

  /** `create`: checks the section, then the student role, then saves the
      user and its profile together. */
  function CreateStudent(reg: Registry, body: NewStudent): (r: Result<Registry, Thrown>)
    ensures r.Err? && r.error == Raise(SectionMissing) <==>
      TruthyNat(body.sectionId) && FindSection(reg.sections, body.sectionId.value).None?
    ensures !TruthyNat(body.sectionId) || FindSection(reg.sections, body.sectionId.value).Some? ==>
      (r.Err? && r.error == Raise(RoleMissing) <==> StudentRole !in reg.roles)
    ensures r.Ok? ==> StudentRole in reg.roles && |r.value.users| == |reg.users| + 1
    ensures r.Ok? ==> |r.value.students| == |reg.students| + 1
    ensures r.Ok? ==> r.value.users[..|reg.users|] == reg.users && r.value.students[..|reg.students|] == reg.students
  {
    match SectionFor(reg.sections, body.sectionId, SectionMissing)
    case Err(e) => Err(e)
    case Ok(section) =>
      if StudentRole !in reg.roles then Err(Raise(RoleMissing))
      else
        var r := SaveAccount(reg, NewUser(reg, body),
                             ProfileDraft(body.fullName, OrElse(body.studentNumber, body.nationalId), section));
        if r.Ok? then
          assert r.value.users[..|reg.users|] == reg.users;
          assert r.value.students[..|reg.students|] == reg.students;
          r
        else r
  }

  /** What `create` stores. The new user is last, holds the role `student`,
      and signs in as the student number or else the national id; without a
      password it gets `123456`, without an e-mail the address
      `<national id>@sems.local`. The new profile is linked to it and has
      the same student number or national id as its student number. */
  lemma CreatedAccount(reg: Registry, body: NewStudent)
    requires CreateStudent(reg, body).Ok?
    ensures var after := CreateStudent(reg, body).value;
      var u := after.users[|reg.users|];
      var p := after.students[|reg.students|];
      && |after.students| == |reg.students| + 1
      && u.role == Some(StudentRole)
      && u.nationalId == body.nationalId
      && u.username == (if Truthy(body.studentNumber) then body.studentNumber else body.nationalId)
      && (Truthy(body.password) ==> u.passwordHash == Some(Hashed(body.password.value)))
      && (!Truthy(body.password) ==> u.passwordHash == Some(Hashed(DefaultPassword)))
      && (!Truthy(body.email) ==> u.email == Some(Interpolated(body.nationalId) + MailDomain))
      && p.userId == Some(u.id) && Some(p.fullName) == body.fullName
      && p.studentNumber == u.username
      && (u !in reg.users)
  {
  }

  /** `create` keeps every unique column unique. */
  lemma CreateKeepsConsistent(reg: Registry, body: NewStudent)
    requires Consistent(reg)
    requires CreateStudent(reg, body).Ok?
    ensures Consistent(CreateStudent(reg, body).value)
  {
    var section := SectionFor(reg.sections, body.sectionId, SectionMissing).value;
    SaveKeepsConsistent(reg, NewUser(reg, body),
                        ProfileDraft(body.fullName, OrElse(body.studentNumber, body.nationalId), section));
  }

  // ---------------------------------------------------------------------
  // update

  /** The body of an `update` request. */
  datatype StudentChanges = StudentChanges(
    fullName: Option<string>,
    studentNumber: Option<string>,
    sectionId: Option<nat>,
    nationalId: Option<string>,
    email: Option<string>,
    password: Option<string>)

  const NoChanges := StudentChanges(None, None, None, None, None, None)

  const StudentNotFound := ApiError(404, "الطالب غير موجود.")
  const SectionUnknown := ApiError(400, "الفصل غير موجود.")

  /** A password that is present and not blank after trimming. */
  predicate NewPassword(p: Option<string>) {
    Truthy(p) && Trim(p.value) != ""
  }

  /** The login identity after the changes: a truthy national id or e-mail
      replaces the stored one; a non-blank password is hashed as given. */
  function ChangedUser(u: User, c: StudentChanges): (v: User)
    ensures v.id == u.id && v.username == u.username && v.role == u.role
    ensures v.nationalId == OrElse(c.nationalId, u.nationalId)
    ensures v.email == OrElse(c.email, u.email)
    ensures v.passwordHash == if NewPassword(c.password) then Some(Hashed(c.password.value)) else u.passwordHash
  {
    u.(nationalId := OrElse(c.nationalId, u.nationalId),
       email := OrElse(c.email, u.email),
       passwordHash := if NewPassword(c.password) then Some(Hashed(c.password.value)) else u.passwordHash)
  }

  /** The profile after the changes: a found section, a truthy full name or
      student number replaces the stored one. */
  function ChangedProfile(p: StudentProfile, section: Option<Section>, c: StudentChanges): (q: StudentProfile)
    ensures q.id == p.id && q.userId == p.userId
    ensures q.section == if section.Some? then section else p.section
    ensures Some(q.fullName) == OrElse(c.fullName, Some(p.fullName))
    ensures q.studentNumber == OrElse(c.studentNumber, p.studentNumber)
  {
    p.(section := if section.Some? then section else p.section,
       fullName := if Truthy(c.fullName) then c.fullName.value else p.fullName,
       studentNumber := OrElse(c.studentNumber, p.studentNumber))
  }

  predicate UsersUnique(users: seq<User>) {
    UniqueColumn(users, NationalIdOf) && UniqueColumn(users, UsernameOf) && UniqueColumn(users, EmailOf)
  }

  /** Saving the linked user, if there is one: the database refuses a state
      in which a unique column repeats a value. */
  function SaveUser(reg: Registry, p: StudentProfile, c: StudentChanges): (r: Result<seq<User>, Thrown>)
    ensures r.Ok? ==> |r.value| == |reg.users|
    ensures r.Ok? ==> UsersUnique(r.value)
    ensures r.Err? ==> r.error == DbFailure(UniqueViolation)
  {
    var at := if p.userId.Some? then PositionOf(reg.users, IdOfUser, p.userId.value) else None;
    if at.None? then
      if UsersUnique(reg.users) then Ok(reg.users) else Err(DbFailure(UniqueViolation))
    else
      var users := reg.users[at.value := ChangedUser(reg.users[at.value], c)];
      if UsersUnique(users) then Ok(users) else Err(DbFailure(UniqueViolation))
  }

  /** `update`: 404 for an unknown student; then, inside one transaction, the
      linked user is saved, a truthy `section_id` must name a section (400
      otherwise), and the profile is saved. Any failure leaves the registry
      as it was. */
  function UpdateStudent(reg: Registry, id: nat, c: StudentChanges): (r: Result<Registry, Thrown>)
    ensures PositionOf(reg.students, IdOfStudent, id).None? ==> r == Err(Raise(StudentNotFound))
    ensures r.Ok? ==> PositionOf(reg.students, IdOfStudent, id).Some?
    ensures r.Ok? ==> r.value.sections == reg.sections && r.value.roles == reg.roles
    ensures r.Ok? ==> |r.value.users| == |reg.users| && |r.value.students| == |reg.students|
  {
    match PositionOf(reg.students, IdOfStudent, id)
    case None => Err(Raise(StudentNotFound))
    case Some(i) =>
      var p := reg.students[i];
      match SaveUser(reg, p, c)
      case Err(e) => Err(e)
      case Ok(users) =>
        match SectionFor(reg.sections, c.sectionId, SectionUnknown)
        case Err(e) => Err(e)
        case Ok(section) =>
          var students := reg.students[i := ChangedProfile(p, section, c)];
          if UniqueColumn(students, StudentNumberOf) then Ok(reg.(users := users, students := students))
          else Err(DbFailure(UniqueViolation))
  }

  /** An unknown section is refused once the student is found and the user
      saved. */
  lemma UnknownSectionRefused(reg: Registry, id: nat, c: StudentChanges)
    requires PositionOf(reg.students, IdOfStudent, id).Some?
    requires SaveUser(reg, reg.students[PositionOf(reg.students, IdOfStudent, id).value], c).Ok?
    requires TruthyNat(c.sectionId) && FindSection(reg.sections, c.sectionId.value).None?
    ensures UpdateStudent(reg, id, c) == Err(Raise(SectionUnknown))
  {
  }

  /** Only truthy fields overwrite: the stored student and user afterwards are
      the changed versions of the stored ones, and every other row is as it
      was. */
  lemma UpdateChangesOnlyThatStudent(reg: Registry, id: nat, c: StudentChanges)
    requires UpdateStudent(reg, id, c).Ok?
    ensures var i := PositionOf(reg.students, IdOfStudent, id).value;
      var after := UpdateStudent(reg, id, c).value;
      && (forall j :: 0 <= j < |reg.students| && j != i ==> after.students[j] == reg.students[j])
      && after.students[i] == ChangedProfile(reg.students[i], SectionFor(reg.sections, c.sectionId, SectionUnknown).value, c)
      && (forall j :: 0 <= j < |reg.users| && Some(reg.users[j].id) != reg.students[i].userId ==>
            after.users[j] == reg.users[j])
  {
  }

  /** A consistent registry accepts an empty change set unchanged. */
  lemma NoChangesKeepsRegistry(reg: Registry, id: nat)
    requires Consistent(reg)
    requires PositionOf(reg.students, IdOfStudent, id).Some?
    ensures UpdateStudent(reg, id, NoChanges) == Ok(reg)
  {
    var i := PositionOf(reg.students, IdOfStudent, id).value;
    var p := reg.students[i];
    assert ChangedProfile(p, None, NoChanges) == p;
    assert reg.students[i := p] == reg.students;
    if p.userId.Some? && PositionOf(reg.users, IdOfUser, p.userId.value).Some? {
      var k := PositionOf(reg.users, IdOfUser, p.userId.value).value;
      assert ChangedUser(reg.users[k], NoChanges) == reg.users[k];
      assert reg.users[k := reg.users[k]] == reg.users;
    }
  }

  /** Sending the same update twice stores what sending it once stores. */
  lemma UpdateIdempotent(reg: Registry, id: nat, c: StudentChanges)
    requires UpdateStudent(reg, id, c).Ok?
    ensures var once := UpdateStudent(reg, id, c).value;
      UpdateStudent(once, id, c) == Ok(once)
  {
    var once := UpdateStudent(reg, id, c).value;
    var i := PositionOf(reg.students, IdOfStudent, id).value;
    assert PositionOf(once.students, IdOfStudent, id) == Some(i) by {
      PositionUnchanged(reg.students, once.students, IdOfStudent, id, i);
    }
    var p := reg.students[i];
    var section := SectionFor(reg.sections, c.sectionId, SectionUnknown).value;
    assert ChangedProfile(ChangedProfile(p, section, c), section, c) == ChangedProfile(p, section, c);
    assert once.students[i := once.students[i]] == once.students;
    if p.userId.Some? && PositionOf(reg.users, IdOfUser, p.userId.value).Some? {
      var k := PositionOf(reg.users, IdOfUser, p.userId.value).value;
      PositionUnchanged(reg.users, once.users, IdOfUser, p.userId.value, k);
      assert ChangedUser(ChangedUser(reg.users[k], c), c) == ChangedUser(reg.users[k], c);
      assert once.users[k := once.users[k]] == once.users;
    } else if p.userId.Some? {
      PositionStillMissing(reg.users, once.users, IdOfUser, p.userId.value);
    }
  }

  /** A blank or absent password leaves the stored hash alone. */
  lemma BlankPasswordKeepsHash(u: User, c: StudentChanges)
    requires c.password.None? || Trim(c.password.value) == ""
    ensures ChangedUser(u, c).passwordHash == u.passwordHash
  {
  }
}
