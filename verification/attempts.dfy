/** The attempt engine of `backend/src/services/exam.service.ts`: the exam
    lookup, the reattempt eligibility check, and the student and guest
    submissions that append one `Result` row to the store. The store is an
    in-memory value; every operation is sequential. */
module Attempts {
  import opened Wrappers
  import opened Domain
  import Scoring
  import Format

  /** The part of the database the attempt engine reads and writes. */
  datatype Store = Store(exams: seq<Exam>, students: seq<StudentProfile>, results: seq<Attempt>)

  const ExamNotFound := ApiError(404, "النموذج غير موجود.")
  const NoStudentProfile := ApiError(400, "بيانات الطالب غير موجودة.")
  const ReattemptDenied := ApiError(403, "غير مسموح بإعادة هذا الامتحان.")

  /** `getById`: the exam with the given id, or 404. */
  function FindExam(exams: seq<Exam>, id: int): (r: Outcome<Exam>)
    ensures r.Ok? ==> r.value in exams && r.value.id == id
    ensures r.Err? <==> forall i :: 0 <= i < |exams| ==> exams[i].id != id
    ensures r.Err? ==> r.error == ExamNotFound
  {
    if |exams| == 0 then Err(ExamNotFound)
    else if exams[0].id == id then Ok(exams[0])
    else FindExam(exams[1..], id)
  }

  /** `studentRepository.findOne({ where: { user: { id: userId } } })`. */
  function FindStudentByUser(students: seq<StudentProfile>, userId: nat): (r: Option<StudentProfile>)
    ensures r.Some? ==> r.value in students && r.value.userId == Some(userId)
    ensures r.None? <==> forall i :: 0 <= i < |students| ==> students[i].userId != Some(userId)
  {
    if |students| == 0 then None
    else if students[0].userId == Some(userId) then Some(students[0])
    else FindStudentByUser(students[1..], userId)
  }

  /** The number of stored results of student `sid` for exam `examId`. */
  function CountFor(results: seq<Attempt>, examId: nat, sid: nat): nat {
    if |results| == 0 then 0
    else
      CountFor(results[..|results| - 1], examId, sid)
      + (if results[|results| - 1].examId == examId && results[|results| - 1].student == Some(sid) then 1 else 0)
  }

  /** `resultRepository.findOne({ where: { exam_model, student } })` found a row. */
  predicate HasResult(results: seq<Attempt>, examId: nat, sid: nat) {
    exists i :: 0 <= i < |results| && results[i].examId == examId && results[i].student == Some(sid)
  }

  /** A result exists exactly when the count is positive. */
  lemma {:induction false} HasResultIffCounted(results: seq<Attempt>, examId: nat, sid: nat)
    ensures HasResult(results, examId, sid) <==> CountFor(results, examId, sid) > 0
  {
    if |results| > 0 {
      var init := results[..|results| - 1];
      HasResultIffCounted(init, examId, sid);
      if HasResult(init, examId, sid) {
        var i :| 0 <= i < |init| && init[i].examId == examId && init[i].student == Some(sid);
        assert results[i] == init[i];
      }
      if HasResult(results, examId, sid) {
        var i :| 0 <= i < |results| && results[i].examId == examId && results[i].student == Some(sid);
        if i < |init| {
          assert init[i] == results[i];
        }
      }
    }
  }

  /** `checkAttemptEligibility`: 404 for an unknown exam; `true` when the
      template allows reattempts or the user has no student profile; 403
      when the student already has a result for the exam; `true` otherwise. */
  function CheckAttemptEligibility(store: Store, examId: int, userId: nat): (r: Outcome<bool>)
    ensures r.Ok? ==> r.value
    ensures FindExam(store.exams, examId).Err? ==> r == Err(ExamNotFound)
    ensures FindExam(store.exams, examId).Ok? ==>
      (r == Err(ReattemptDenied) <==>
        && !FindExam(store.exams, examId).value.allowReattempt
        && FindStudentByUser(store.students, userId).Some?
        && HasResult(store.results, examId, FindStudentByUser(store.students, userId).value.id))
    ensures FindExam(store.exams, examId).Ok? ==> r.Ok? || r == Err(ReattemptDenied)
  {
    match FindExam(store.exams, examId)
    case Err(e) => Err(e)
    case Ok(exam) =>
      if exam.allowReattempt then Ok(true)
      else
        match FindStudentByUser(store.students, userId)
        case None => Ok(true)
        case Some(student) =>
          if HasResult(store.results, exam.id, student.id) then Err(ReattemptDenied) else Ok(true)
  }

  /** The `Result` row a scoring pass produces. */
  function Graded(exam: Exam, entries: seq<Entry>, student: Option<nat>, guestName: Option<string>,
                  startedAt: Option<nat>, now: nat): (a: Attempt)
    ensures a.examId == exam.id && a.student == student
    ensures a.isGuest <==> student.None?
    ensures a.totalQuestions == |exam.questions|
    ensures a.score == Scoring.CountEarned(exam.questions, entries) && a.score <= a.totalQuestions
    ensures a.percentage == Scoring.Percentage(a.score, a.totalQuestions)
    ensures a.startedAt == startedAt.GetOr(now) && a.completedAt == now
  {
    var score := Scoring.CountEarned(exam.questions, entries);
    var total := |exam.questions|;
    Attempt(exam.id, student, student.None?, guestName, score, total,
            Scoring.Percentage(score, total), startedAt.GetOr(now), now)
  }

  /** The percentage as the `decimal(5,2)` column keeps it: the value rounded
      to a whole number of hundredths, halves away from zero. */
  function StoredPercentage(p: real): (s: real)
    ensures (s * 100.0).Floor as real == s * 100.0
    ensures -0.005 <= s - p <= 0.005
    ensures 0.0 <= p ==> 0.0 <= s
    ensures p <= 100.0 ==> s <= 100.0
  {
    var h: int := Format.Hundredths(p);
    var k := if p < 0.0 then -h else h;
    WholeHundredths(k);
    k as real / 100.0
  }

  lemma WholeHundredths(k: int)
    ensures ((k as real / 100.0) * 100.0).Floor == k
  {
    assert (k as real / 100.0) * 100.0 == k as real;
  }

  /** A value already in whole hundredths is stored as it is, so storing is
      idempotent. */
  lemma StoredWholeHundredths(p: real)
    requires (p * 100.0).Floor as real == p * 100.0
    ensures StoredPercentage(p) == p
  {
    var m := if p < 0.0 then -p else p;
    var k := (p * 100.0).Floor;
    assert m * 100.0 == (if p < 0.0 then -k else k) as real;
    assert Format.Hundredths(p) == if p < 0.0 then -k else k;
  }

  lemma StoredIdempotent(p: real)
    ensures StoredPercentage(StoredPercentage(p)) == StoredPercentage(p)
  {
    StoredWholeHundredths(StoredPercentage(p));
  }

  /** The row as the database keeps it: the same row with the percentage
      rounded by the column. */
  function Stored(a: Attempt): (b: Attempt)
    ensures b.percentage == StoredPercentage(a.percentage)
    ensures b.(percentage := a.percentage) == a
  {
    a.(percentage := StoredPercentage(a.percentage))
  }

  /** One result of six earns 16.666…% in the response but 16.67 in the
      table, so an `AVG` over stored rows can differ from the mean of the
      returned percentages: 0.00 and 16.67 average 8.335, which renders as
      `8.34`, where the exact values average 8.333… and render as `8.33`. */
  lemma SixthIsRounded()
    ensures Scoring.Percentage(1, 6) != 16.67
    ensures StoredPercentage(Scoring.Percentage(1, 6)) == 16.67
    ensures StoredPercentage(Scoring.Percentage(0, 6)) == 0.0
    ensures Format.Hundredths((0.0 + 16.67) / 2.0) == 834
    ensures Format.Hundredths((Scoring.Percentage(0, 6) + Scoring.Percentage(1, 6)) / 2.0) == 833
  {
    assert Scoring.Percentage(1, 6) == 100.0 / 6.0;
    assert Format.Hundredths(100.0 / 6.0) == 1667;
    assert Format.Hundredths(0.0) == 0;
    assert Format.Hundredths(8.335) == 834;
    assert Format.Hundredths(50.0 / 6.0) == 833;
  }

  /** `submitExam`: 404 for an unknown exam, 400 when the user has no
      student profile, 403 (and nothing stored) when reattempts are off and a
      result already exists; otherwise the graded row is returned and its
      stored form, with the percentage rounded by the column, is appended.
      The reply is the entity `save` was given, so it keeps the exact
      percentage. */
  function SubmitExam(store: Store, examId: int, userId: nat, entries: seq<Entry>,
                      startedAt: Option<nat>, now: nat): (r: Outcome<(Store, Attempt)>)
    ensures FindExam(store.exams, examId).Err? ==> r == Err(ExamNotFound)
    ensures FindExam(store.exams, examId).Ok? && FindStudentByUser(store.students, userId).None?
      ==> r == Err(NoStudentProfile)
    ensures r == Err(ReattemptDenied) <==>
      && FindExam(store.exams, examId).Ok?
      && FindStudentByUser(store.students, userId).Some?
      && !FindExam(store.exams, examId).value.allowReattempt
      && HasResult(store.results, examId, FindStudentByUser(store.students, userId).value.id)
    ensures r.Ok? <==>
      && FindExam(store.exams, examId).Ok?
      && FindStudentByUser(store.students, userId).Some?
      && (FindExam(store.exams, examId).value.allowReattempt
          || !HasResult(store.results, examId, FindStudentByUser(store.students, userId).value.id))
    ensures r.Ok? ==>
      var (store', a) := r.value;
      && store'.exams == store.exams && store'.students == store.students
      && store'.results == store.results + [Stored(a)]
      && a == Graded(FindExam(store.exams, examId).value, entries,
                     Some(FindStudentByUser(store.students, userId).value.id), None, startedAt, now)
      && a.examId == examId && !a.isGuest && a.guestName.None?
  {
    match FindExam(store.exams, examId)
    case Err(e) => Err(e)
    case Ok(exam) =>
      match FindStudentByUser(store.students, userId)
      case None => Err(NoStudentProfile)
      case Some(student) =>
        if !exam.allowReattempt && HasResult(store.results, exam.id, student.id) then Err(ReattemptDenied)
        else
          var a := Graded(exam, entries, Some(student.id), None, startedAt, now);
          Ok((store.(results := store.results + [Stored(a)]), a))
  }

  /** `submitGuestExam`: no profile and no reattempt check; the row is marked
      as a guest row and carries the guest's name, and is stored and
      returned as in `submitExam`. Only an unknown exam fails. */
  function SubmitGuestExam(store: Store, examId: int, entries: seq<Entry>, guestName: Option<string>,
                           startedAt: Option<nat>, now: nat): (r: Outcome<(Store, Attempt)>)
    ensures r.Err? <==> FindExam(store.exams, examId).Err?
    ensures r.Err? ==> r.error == ExamNotFound
    ensures r.Ok? ==>
      var (store', a) := r.value;
      && store'.exams == store.exams && store'.students == store.students
      && store'.results == store.results + [Stored(a)]
      && a == Graded(FindExam(store.exams, examId).value, entries, None, guestName, startedAt, now)
      && a.examId == examId && a.isGuest && a.student.None? && a.guestName == guestName
  {
    match FindExam(store.exams, examId)
    case Err(e) => Err(e)
    case Ok(exam) =>
      var a := Graded(exam, entries, None, guestName, startedAt, now);
      Ok((store.(results := store.results + [Stored(a)]), a))
  }

  // ----- Properties across calls -------------------------------------------------

  /** Guest scoring and student scoring agree on score, total and percentage
      for the same exam and the same entries. */
  lemma GuestScoresLikeStudent(store: Store, examId: int, userId: nat, entries: seq<Entry>,
                               guestName: Option<string>, startedAt: Option<nat>, now: nat)
    requires SubmitExam(store, examId, userId, entries, startedAt, now).Ok?
    ensures SubmitGuestExam(store, examId, entries, guestName, startedAt, now).Ok?
    ensures
      var s := SubmitExam(store, examId, userId, entries, startedAt, now).value.1;
      var g := SubmitGuestExam(store, examId, entries, guestName, startedAt, now).value.1;
      s.score == g.score && s.totalQuestions == g.totalQuestions && s.percentage == g.percentage
  {
  }

  /** The eligibility pre-check and the submit-time check agree: for a user
      with a student profile, the pre-check refuses exactly when the submission
      would be refused with 403. */
  lemma PrecheckAgreesWithSubmit(store: Store, examId: int, userId: nat, entries: seq<Entry>,
                                 startedAt: Option<nat>, now: nat)
    requires FindStudentByUser(store.students, userId).Some?
    ensures CheckAttemptEligibility(store, examId, userId) == Err(ReattemptDenied)
        <==> SubmitExam(store, examId, userId, entries, startedAt, now) == Err(ReattemptDenied)
  {
  }

  /** No two exams share an id. */
  predicate UniqueExamIds(store: Store) {
    forall i, j :: 0 <= i < j < |store.exams| ==> store.exams[i].id != store.exams[j].id
  }

  /** The sequential uniqueness invariant: an exam without reattempts has at
      most one stored result per student. */
  ghost predicate SingleAttempt(store: Store) {
    forall i, sid: nat :: 0 <= i < |store.exams| && !store.exams[i].allowReattempt
      ==> CountFor(store.results, store.exams[i].id, sid) <= 1
  }

  /** A student submission keeps the invariant. */
  lemma SubmitKeepsSingleAttempt(store: Store, examId: int, userId: nat, entries: seq<Entry>,
                                 startedAt: Option<nat>, now: nat)
    requires UniqueExamIds(store) && SingleAttempt(store)
    requires SubmitExam(store, examId, userId, entries, startedAt, now).Ok?
    ensures SingleAttempt(SubmitExam(store, examId, userId, entries, startedAt, now).value.0)
  {
    var (store', a) := SubmitExam(store, examId, userId, entries, startedAt, now).value;
    var exam := FindExam(store.exams, examId).value;
    var sid0 := a.student.value;
    forall i, sid: nat | 0 <= i < |store'.exams| && !store'.exams[i].allowReattempt
      ensures CountFor(store'.results, store'.exams[i].id, sid) <= 1
    {
      var e := store'.exams[i];
      assert store'.results[..|store'.results| - 1] == store.results;
      if e.id == a.examId && sid == sid0 {
        var k :| 0 <= k < |store.exams| && store.exams[k] == exam;
        assert k == i;
        HasResultIffCounted(store.results, e.id, sid);
      }
    }
  }

  /** A guest submission keeps the invariant: guest rows belong to no student. */
  lemma GuestSubmitKeepsSingleAttempt(store: Store, examId: int, entries: seq<Entry>,
                                      guestName: Option<string>, startedAt: Option<nat>, now: nat)
    requires SingleAttempt(store)
    requires SubmitGuestExam(store, examId, entries, guestName, startedAt, now).Ok?
    ensures SingleAttempt(SubmitGuestExam(store, examId, entries, guestName, startedAt, now).value.0)
  {
    var store' := SubmitGuestExam(store, examId, entries, guestName, startedAt, now).value.0;
    assert store'.results[..|store'.results| - 1] == store.results;
  }

  /** Once a student has submitted an exam without reattempts, a second
      submission of the same exam by the same user is refused with 403. */
  lemma SecondSubmissionRefused(store: Store, examId: int, userId: nat, e1: seq<Entry>, e2: seq<Entry>,
                                s1: Option<nat>, s2: Option<nat>, now1: nat, now2: nat)
    requires SubmitExam(store, examId, userId, e1, s1, now1).Ok?
    requires !FindExam(store.exams, examId).value.allowReattempt
    ensures SubmitExam(SubmitExam(store, examId, userId, e1, s1, now1).value.0, examId, userId, e2, s2, now2)
            == Err(ReattemptDenied)
  {
    var (store', a) := SubmitExam(store, examId, userId, e1, s1, now1).value;
    var last := |store'.results| - 1;
    assert store'.results[last] == Stored(a);
    assert HasResult(store'.results, examId, FindStudentByUser(store'.students, userId).value.id);
  }

  /** With reattempts allowed, every submission by a student with a profile
      succeeds and adds exactly one result for that student. */
  lemma ReattemptAddsOneResult(store: Store, examId: int, userId: nat, entries: seq<Entry>,
                               startedAt: Option<nat>, now: nat)
    requires FindExam(store.exams, examId).Ok? && FindExam(store.exams, examId).value.allowReattempt
    requires FindStudentByUser(store.students, userId).Some?
    ensures SubmitExam(store, examId, userId, entries, startedAt, now).Ok?
    ensures
      var sid := FindStudentByUser(store.students, userId).value.id;
      var store' := SubmitExam(store, examId, userId, entries, startedAt, now).value.0;
      CountFor(store'.results, examId as nat, sid) == CountFor(store.results, examId as nat, sid) + 1
  {
    var store' := SubmitExam(store, examId, userId, entries, startedAt, now).value.0;
    assert store'.results[..|store'.results| - 1] == store.results;
  }

  /** Guests are never refused for having attempted before: any number of
      guest submissions of an existing exam succeed. */
  lemma GuestNeverRefused(store: Store, examId: int, entries: seq<Entry>, guestName: Option<string>,
                          startedAt: Option<nat>, now: nat)
    requires FindExam(store.exams, examId).Ok?
    ensures SubmitGuestExam(store, examId, entries, guestName, startedAt, now).Ok?
    ensures
      var store' := SubmitGuestExam(store, examId, entries, guestName, startedAt, now).value.0;
      SubmitGuestExam(store', examId, entries, guestName, startedAt, now).Ok?
  {
  }
}
