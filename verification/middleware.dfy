/** The request-layer decisions of `backend/src/middleware`: the required-field
    check of `validate.ts`, the role gate of `roleGuard.ts` and the status
    mapping of `errorHandler.ts`. A middleware outcome is `None` when it
    calls `next()` and `Some(e)` when it calls `next(e)`. */
module Middleware {
  import opened Wrappers
  import opened Domain
  import opened Grouping

  /** A JSON value of a request body, as far as the checks can tell apart.
      `Other` stands for any object or array. */
  datatype Json = Undefined | Null | Str(s: string) | Num(n: int) | Bool(b: bool) | Other

  /** `req.body`: a key that is not present reads as `undefined`. */
  type Body = map<string, Json>

  function Field(body: Body, name: string): Json {
    if name in body then body[name] else Undefined
  }

  /** `=== undefined || === null || === ''`: zero and `false` are present. */
  predicate IsMissing(v: Json) {
    v == Undefined || v == Null || v == Str("")
  }

  function MissingIn(body: Body): string -> bool {
    name => IsMissing(Field(body, name))
  }

  /** The loop over `schema.body`: the missing fields, in schema order. */
  function MissingFields(required: seq<string>, body: Body): (r: seq<string>)
    ensures |r| <= |required|
    ensures forall i :: 0 <= i < |r| ==> IsMissing(Field(body, r[i]))
  {
    Filter(required, MissingIn(body))
  }

  /** Each required field is reported as often as the schema lists it when
      it is missing, and never otherwise; a schema without repetitions
      reports each field at most once. */
  lemma MissingFieldsExactly(required: seq<string>, body: Body)
    ensures forall name :: multiset(MissingFields(required, body))[name]
                           == (if IsMissing(Field(body, name)) then multiset(required)[name] else 0)
    ensures Distinct(required) ==> Distinct(MissingFields(required, body))
  {
    FilterCount(required, MissingIn(body));
    var r := MissingFields(required, body);
    if Distinct(required) {
      DistinctMultiplicity(required);
      DistinctMultiplicity(r);
    }
  }

  /** Missing fields are reported in the order the schema lists them: the
      report is the schema with the present fields taken out. */
  lemma MissingFieldsInSchemaOrder(a: seq<string>, b: seq<string>, body: Body)
    ensures MissingFields(a + b, body) == MissingFields(a, body) + MissingFields(b, body)
  {
    FilterConcat(a, b, MissingIn(body));
  }

  const RequiredPrefix := "الحقول التالية مطلوبة: "
  const Separator := ", "

  /** `Array.prototype.join(', ')`. */
  function Join(xs: seq<string>): (r: string)
    ensures |xs| == 1 ==> r == xs[0]
  {
    if |xs| == 0 then "" else if |xs| == 1 then xs[0] else xs[0] + Separator + Join(xs[1..])
  }

  /** `validate(schema)`: `schema` is `None` when it has no `body` list. The
      outcome is a 400 listing the missing fields when there are any, and
      passes otherwise. */
  function Validate(schema: Option<seq<string>>, body: Body): (r: Option<ApiError>)
    ensures schema.None? ==> r.None?
    ensures schema.Some? ==>
      (r.Some? <==> exists i :: 0 <= i < |schema.value| && IsMissing(Field(body, schema.value[i])))
    ensures r.Some? ==> r.value.status == 400
    ensures r.Some? ==> r.value.message == RequiredPrefix + Join(MissingFields(schema.value, body))
  {
    match schema
    case None => None
    case Some(required) =>
      var missing := MissingFields(required, body);
      SomeFieldMissing(required, body);
      if |missing| > 0 then Some(ApiError(400, RequiredPrefix + Join(missing))) else None
  }

  /** The report is empty exactly when no required field is missing. */
  lemma SomeFieldMissing(required: seq<string>, body: Body)
    ensures |MissingFields(required, body)| > 0 <==>
      exists i :: 0 <= i < |required| && IsMissing(Field(body, required[i]))
  {
    var missing := MissingFields(required, body);
    FilterIn(required, MissingIn(body));
    if exists i :: 0 <= i < |required| && IsMissing(Field(body, required[i])) {
      var i :| 0 <= i < |required| && IsMissing(Field(body, required[i]));
      assert required[i] in missing;
    }
    if |missing| > 0 {
      assert missing[0] in missing;
      var i :| 0 <= i < |required| && required[i] == missing[0];
      assert IsMissing(Field(body, required[i]));
    }
  }

  /** The inverse of `Join` for names without a comma: cut at each comma and
      drop the space after it. */
  function SplitFields(s: string): seq<string>
    decreases |s|
  {
    if ',' !in s then [s]
    else
      var i := CommaAt(s);
      [s[..i]] + SplitFields(if i + 1 < |s| && s[i + 1] == ' ' then s[i + 2..] else s[i + 1..])
  }

  /** The position of the first comma. */
  function CommaAt(s: string): (i: nat)
    requires ',' in s
    ensures i < |s| && s[i] == ',' && ',' !in s[..i]
  {
    if s[0] == ',' then 0 else assert s == [s[0]] + s[1..]; 1 + CommaAt(s[1..])
  }

  predicate CommaFree(xs: seq<string>) {
    forall i :: 0 <= i < |xs| ==> ',' !in xs[i]
  }

  lemma CommaAtPrefix(a: string, rest: string)
    requires ',' !in a
    ensures ',' in a + Separator + rest
    ensures CommaAt(a + Separator + rest) == |a|
  {
    var s := a + Separator + rest;
    assert s[|a|] == ',';
  }

  /** Splitting a comma-free field followed by the separator peels that
      field off. */
  lemma SplitStep(a: string, rest: string)
    requires ',' !in a
    ensures SplitFields(a + Separator + rest) == [a] + SplitFields(rest)
  {
    var s := a + Separator + rest;
    CommaAtPrefix(a, rest);
    assert s[..|a|] == a;
    assert s[|a| + 1] == ' ';
    assert s[|a| + 2..] == rest;
  }

  /** The missing-field list can be read back from the message when no field
      name contains a comma. */
  lemma {:induction false} JoinSplit(xs: seq<string>)
    requires |xs| >= 1 && CommaFree(xs)
    ensures SplitFields(Join(xs)) == xs
  {
    if |xs| == 1 {
      assert ',' !in xs[0];
    } else {
      var rest := xs[1..];
      assert Join(xs) == xs[0] + Separator + Join(rest);
      assert ',' !in xs[0];
      SplitStep(xs[0], Join(rest));
      assert CommaFree(rest) by {
        forall i | 0 <= i < |rest| ensures ',' !in rest[i] {
          assert rest[i] == xs[i + 1];
        }
      }
      JoinSplit(rest);
      assert xs == [xs[0]] + rest;
    }
  }

  // ---------------------------------------------------------------------
  // roleGuard

  const Unauthorized := ApiError(401, "غير مصرح لك بالوصول.")
  const Forbidden := ApiError(403, "ليس لديك الصلاحيات الكافية للوصول لهذا المسار.")

  /** `roleGuard(roles)`: 401 without a user or without a role, 403 when the
      role's name is not listed, and a pass otherwise. */
  function RoleGuard(roles: seq<string>, user: Option<User>): (r: Option<ApiError>)
    ensures (user.None? || user.value.role.None?) <==> r == Some(Unauthorized)
    ensures r.None? <==> user.Some? && user.value.role.Some? && user.value.role.value.name in roles
    ensures r == Some(Forbidden) <==> user.Some? && user.value.role.Some? && user.value.role.value.name !in roles
  {
    if user.None? || user.value.role.None? then Some(Unauthorized)
    else if user.value.role.value.name !in roles then Some(Forbidden)
    else None
  }

  /** A route that lists no roles turns every signed-in user away. */
  lemma EmptyRoleListDenies(user: User)
    requires user.role.Some?
    ensures RoleGuard([], Some(user)) == Some(Forbidden)
  {
  }

  /** Listing more roles never turns away a user who passed before. */
  lemma MoreRolesAdmitMore(roles: seq<string>, more: seq<string>, user: Option<User>)
    requires RoleGuard(roles, user).None?
    ensures RoleGuard(roles + more, user).None?
  {
  }

  // ---------------------------------------------------------------------
  // errorHandler

  /** What reaches the error handler: possibly an `ApiError` instance, and
      possibly a database driver `code`. */
  datatype Thrown = Thrown(apiError: Option<ApiError>, code: Option<string>)

  /** The JSON error response. */
  datatype Reply = Reply(status: nat, error: string)

  const DuplicateMessage := "السجل موجود مسبقاً. قيمة مكررة."
  const ReferenceMessage := "مرجع غير صالح. السجل المرتبط غير موجود."
  const UnexpectedMessage := "حدث خطأ غير متوقع في الخادم."

  /** `errorHandler`: an `ApiError` answers with its own status and message;
      otherwise a unique violation (`23505`) is 409, a foreign-key violation
      (`23503`) 400, and anything else 500. */
  function HandleError(err: Thrown): (r: Reply)
    ensures err.apiError.Some? ==> r == Reply(err.apiError.value.status, err.apiError.value.message)
    ensures err.apiError.None? && err.code == Some("23505") ==> r == Reply(409, DuplicateMessage)
    ensures err.apiError.None? && err.code == Some("23503") ==> r == Reply(400, ReferenceMessage)
    ensures err.apiError.None? && err.code != Some("23505") && err.code != Some("23503") ==>
      r == Reply(500, UnexpectedMessage)
  {
    if err.apiError.Some? then Reply(err.apiError.value.status, err.apiError.value.message)
    else if err.code == Some("23505") then Reply(409, DuplicateMessage)
    else if err.code == Some("23503") then Reply(400, ReferenceMessage)
    else Reply(500, UnexpectedMessage)
  }

  /** An `ApiError` is answered the same whatever driver code it carries. */
  lemma ApiErrorWins(e: ApiError, c1: Option<string>, c2: Option<string>)
    ensures HandleError(Thrown(Some(e), c1)) == HandleError(Thrown(Some(e), c2))
  {
  }

  /** A failed validation reaches the client as a 400 naming the missing
      fields; a failed role check as 401 or 403. */
  lemma GuardsReachTheClient(schema: seq<string>, body: Body, roles: seq<string>, user: Option<User>)
    ensures Validate(Some(schema), body).Some? ==>
      HandleError(Thrown(Validate(Some(schema), body), None)).status == 400
    ensures RoleGuard(roles, user).Some? ==>
      HandleError(Thrown(RoleGuard(roles, user), None)).status in {401, 403}
  {
  }
}
