/** What `backend/src/controllers/exam.controller.ts` and
    `backend/src/controllers/guest.controller.ts` add to the exam service:
    hiding which option is correct, the student-only eligibility gate, the
    shape of the start payload, the guest listing and the status codes. */
module Controllers {
  import opened Wrappers
  import opened Domain
  import opened Grouping
  import Attempts

  /** An option as it is sent to a client; `isCorrect` is `None` once the
      key has been deleted. */
  datatype AnswerView = AnswerView(id: nat, text: string, isCorrect: Option<bool>, sortOrder: int)

  datatype QuestionView = QuestionView(id: nat, text: string, sortOrder: int, answers: seq<AnswerView>)

  datatype ExamView = ExamView(
    id: nat,
    name: string,
    durationMinutes: int,
    allowReattempt: bool,
    isActive: bool,
    subject: Subject,
    questions: seq<QuestionView>)

  function AnswerOut(a: Answer, masked: bool): AnswerView {
    AnswerView(a.id, a.text, (if masked then None else Some(a.isCorrect)), a.sortOrder)
  }

  function QuestionOut(q: Question, masked: bool): (v: QuestionView)
    ensures |v.answers| == |q.answers|
    ensures forall j :: 0 <= j < |v.answers| ==> v.answers[j] == AnswerOut(q.answers[j], masked)
  {
    QuestionView(q.id, q.text, q.sortOrder,
                 seq(|q.answers|, j requires 0 <= j < |q.answers| => AnswerOut(q.answers[j], masked)))
  }

  function QuestionsOut(qs: seq<Question>, masked: bool): (v: seq<QuestionView>)
    ensures |v| == |qs|
    ensures forall i :: 0 <= i < |v| ==> v[i] == QuestionOut(qs[i], masked)
  {
    seq(|qs|, i requires 0 <= i < |qs| => QuestionOut(qs[i], masked))
  }

  /** The exam as it is serialised, with the `is_correct` keys deleted when
      `masked` holds. */
  function ExamOut(e: Exam, masked: bool): ExamView {
    ExamView(e.id, e.name, e.durationMinutes, e.allowReattempt, e.isActive, e.subject, QuestionsOut(e.questions, masked))
  }

  /** No option of the view says whether it is correct. */
  predicate Hidden(v: seq<QuestionView>) {
    forall i, j :: 0 <= i < |v| && 0 <= j < |v[i].answers| ==> v[i].answers[j].isCorrect.None?
  }

  /** The stored exam a full view was made from. */
  function AnswerIn(a: AnswerView): Answer {
    Answer(a.id, a.text, a.isCorrect.GetOr(false), a.sortOrder)
  }

  function QuestionIn(q: QuestionView): Question {
    Question(q.id, q.text, q.sortOrder, seq(|q.answers|, j requires 0 <= j < |q.answers| => AnswerIn(q.answers[j])))
  }

  function QuestionsIn(v: seq<QuestionView>): seq<Question> {
    seq(|v|, i requires 0 <= i < |v| => QuestionIn(v[i]))
  }

  /** Nothing but the correctness marks is lost: an unhidden view gives back
      the stored questions, and a hidden view differs from it only in the
      marks. */
  lemma ViewRoundTrip(qs: seq<Question>)
    ensures QuestionsIn(QuestionsOut(qs, false)) == qs
    ensures Hidden(QuestionsOut(qs, true))
    ensures forall i :: 0 <= i < |qs| ==>
      var h := QuestionsOut(qs, true)[i];
      && h.id == qs[i].id && h.text == qs[i].text && h.sortOrder == qs[i].sortOrder
      && |h.answers| == |qs[i].answers|
      && forall j :: 0 <= j < |h.answers| ==>
           h.answers[j].id == qs[i].answers[j].id && h.answers[j].text == qs[i].answers[j].text
           && h.answers[j].sortOrder == qs[i].answers[j].sortOrder
  {
    var back := QuestionsIn(QuestionsOut(qs, false));
    forall i | 0 <= i < |qs| ensures back[i] == qs[i] {
      var q := QuestionOut(qs[i], false);
      assert QuestionIn(q).answers == qs[i].answers;
    }
  }

  /** `req.user?.role?.name === 'student'`. */
  predicate IsStudent(caller: Option<User>) {
    caller.Some? && caller.value.role.Some? && caller.value.role.value.name == "student"
  }

  /** `getExamById`: the exam, with the marks hidden from students only. */
  function GetExamById(exams: seq<Exam>, id: int, caller: Option<User>): (r: Outcome<ExamView>)
    ensures r.Err? <==> Attempts.FindExam(exams, id).Err?
    ensures r.Ok? ==> r.value == ExamOut(Attempts.FindExam(exams, id).value, IsStudent(caller))
    ensures r.Ok? && IsStudent(caller) ==> Hidden(r.value.questions)
    ensures r.Ok? && !IsStudent(caller) ==> QuestionsIn(r.value.questions) == Attempts.FindExam(exams, id).value.questions
  {
    match Attempts.FindExam(exams, id)
    case Err(e) => Err(e)
    case Ok(exam) =>
      ViewRoundTrip(exam.questions);
      Ok(ExamOut(exam, IsStudent(caller)))
  }

  /** `getExamQuestions`: the stored questions as they are, marks included. */
  function GetExamQuestions(exams: seq<Exam>, id: int): (r: Outcome<seq<Question>>)
    ensures r.Err? <==> Attempts.FindExam(exams, id).Err?
    ensures r.Ok? ==> r.value == Attempts.FindExam(exams, id).value.questions
  {
    match Attempts.FindExam(exams, id)
    case Err(e) => Err(e)
    case Ok(exam) => Ok(exam.questions)
  }

  /** The `exam` part of a start payload. */
  datatype ExamHeader = ExamHeader(id: nat, name: string, durationMinutes: int, subjectName: string)

  /** `{ exam: {...}, questions }`. */
  datatype StartPayload = StartPayload(exam: ExamHeader, questions: seq<QuestionView>)

  function Payload(e: Exam, masked: bool): StartPayload {
    StartPayload(ExamHeader(e.id, e.name, e.durationMinutes, e.subject.name), QuestionsOut(e.questions, masked))
  }

  /** `startExam`: for a student caller the eligibility check runs first and
      its 404 or 403 is the answer; other callers are not checked. The
      payload carries four exam fields and the questions, hidden from
      students. */
  function StartExam(store: Attempts.Store, id: int, caller: Option<User>): (r: Outcome<StartPayload>)
    ensures Attempts.FindExam(store.exams, id).Err? ==> r == Err(Attempts.ExamNotFound)
    ensures IsStudent(caller) ==>
      (r.Err? <==> Attempts.CheckAttemptEligibility(store, id, caller.value.id).Err?)
    ensures !IsStudent(caller) ==> (r.Err? <==> Attempts.FindExam(store.exams, id).Err?)
    ensures r.Ok? ==> r.value == Payload(Attempts.FindExam(store.exams, id).value, IsStudent(caller))
    ensures r.Ok? && IsStudent(caller) ==> Hidden(r.value.questions)
  {
    if IsStudent(caller) && Attempts.CheckAttemptEligibility(store, id, caller.value.id).Err? then
      Err(Attempts.CheckAttemptEligibility(store, id, caller.value.id).error)
    else
      match Attempts.FindExam(store.exams, id)
      case Err(e) => Err(e)
      case Ok(exam) =>
        ViewRoundTrip(exam.questions);
        Ok(Payload(exam, IsStudent(caller)))
  }

  /** A supervisor or manager can open an exam a student would be refused. */
  lemma StaffSkipEligibility(store: Attempts.Store, id: int, staff: User, student: User)
    requires Attempts.FindExam(store.exams, id).Ok?
    requires !IsStudent(Some(staff))
    ensures StartExam(store, id, Some(staff)).Ok?
    ensures Attempts.CheckAttemptEligibility(store, id, student.id) == Err(Attempts.ReattemptDenied) && IsStudent(Some(student))
      ==> StartExam(store, id, Some(student)) == Err(Attempts.ReattemptDenied)
  {
  }

  /** A reply with a status code. */
  datatype Response<T> = Response(status: nat, body: T)

  /** `submitExam`: 201 with the stored result, or the service's error. */
  function SubmitExam(store: Attempts.Store, id: int, userId: nat, entries: seq<Entry>,
                      startedAt: Option<nat>, now: nat): (r: Outcome<(Attempts.Store, Response<Attempt>)>)
    ensures r.Err? <==> Attempts.SubmitExam(store, id, userId, entries, startedAt, now).Err?
    ensures r.Err? ==> r.error == Attempts.SubmitExam(store, id, userId, entries, startedAt, now).error
    ensures r.Ok? ==>
      var (store', a) := Attempts.SubmitExam(store, id, userId, entries, startedAt, now).value;
      r.value == (store', Response(201, a))
  {
    match Attempts.SubmitExam(store, id, userId, entries, startedAt, now)
    case Err(e) => Err(e)
    case Ok(done) => Ok((done.0, Response(201, done.1)))
  }

  // ---------------------------------------------------------------------
  // guest.controller.ts

  predicate IsActive(e: Exam) {
    e.isActive
  }

  /** The guest listing: the active exams, in the stored order. */
  function ActiveExams(exams: seq<Exam>): (r: seq<Exam>)
    ensures forall i :: 0 <= i < |r| ==> r[i].isActive
  {
    Filter(exams, IsActive)
  }

  /** The listing holds every active exam, as often as it is stored, and no
      inactive one; listing two catalogues one after the other lists their
      active exams in the same order. */
  lemma ActiveExamsExactly(exams: seq<Exam>, more: seq<Exam>)
    ensures forall e :: multiset(ActiveExams(exams))[e] == if e.isActive then multiset(exams)[e] else 0
    ensures ActiveExams(exams + more) == ActiveExams(exams) + ActiveExams(more)
  {
    FilterCount(exams, IsActive);
    FilterConcat(exams, more, IsActive);
  }

  const ExamUnavailable := ApiError(403, "هذا الامتحان غير متاح حالياً")

  /** Guest `startExam`: 404 for an unknown exam, 403 for an inactive one;
      otherwise the payload with every mark hidden, whatever the caller. */
  function GuestStartExam(exams: seq<Exam>, id: int): (r: Outcome<StartPayload>)
    ensures Attempts.FindExam(exams, id).Err? ==> r == Err(Attempts.ExamNotFound)
    ensures Attempts.FindExam(exams, id).Ok? && !Attempts.FindExam(exams, id).value.isActive ==> r == Err(ExamUnavailable)
    ensures r.Ok? <==> Attempts.FindExam(exams, id).Ok? && Attempts.FindExam(exams, id).value.isActive
    ensures r.Ok? ==> r.value == Payload(Attempts.FindExam(exams, id).value, true) && Hidden(r.value.questions)
  {
    match Attempts.FindExam(exams, id)
    case Err(e) => Err(e)
    case Ok(exam) =>
      if !exam.isActive then Err(ExamUnavailable)
      else
        ViewRoundTrip(exam.questions);
        Ok(Payload(exam, true))
  }

  /** The guest start payload is the one a student would get. */
  lemma GuestSeesWhatStudentsSee(store: Attempts.Store, id: int, student: User)
    requires IsStudent(Some(student))
    requires GuestStartExam(store.exams, id).Ok? && StartExam(store, id, Some(student)).Ok?
    ensures GuestStartExam(store.exams, id).value == StartExam(store, id, Some(student)).value
  {
  }

  /** Guest `submitExam`: 201 with the stored guest result. */
  function GuestSubmitExam(store: Attempts.Store, id: int, entries: seq<Entry>, guestName: Option<string>,
                           startedAt: Option<nat>, now: nat): (r: Outcome<(Attempts.Store, Response<Attempt>)>)
    ensures r.Err? <==> Attempts.SubmitGuestExam(store, id, entries, guestName, startedAt, now).Err?
    ensures r.Ok? ==>
      var (store', a) := Attempts.SubmitGuestExam(store, id, entries, guestName, startedAt, now).value;
      r.value == (store', Response(201, a))
  {
    match Attempts.SubmitGuestExam(store, id, entries, guestName, startedAt, now)
    case Err(e) => Err(e)
    case Ok(done) => Ok((done.0, Response(201, done.1)))
  }

  /** Only starting checks `is_active`: a guest submission to an inactive
      exam is still stored. */
  lemma GuestSubmitSkipsActiveCheck(store: Attempts.Store, id: int, entries: seq<Entry>, guestName: Option<string>,
                                    startedAt: Option<nat>, now: nat)
    requires Attempts.FindExam(store.exams, id).Ok? && !Attempts.FindExam(store.exams, id).value.isActive
    ensures GuestStartExam(store.exams, id) == Err(ExamUnavailable)
    ensures GuestSubmitExam(store, id, entries, guestName, startedAt, now).Ok?
  {
  }
}
