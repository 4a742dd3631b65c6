/** Question authoring in `backend/src/services/exam.service.ts`:
    `addQuestion` and `updateQuestion` store the submitted option list with
    `sort_order` equal to each option's position. Database ids are not part of
    the drafts these operations produce. */
module Authoring {
  import opened Wrappers
  import opened Domain
  import Attempts

  /** One `{ answer_text, is_correct }` element of a request body. */
  datatype AnswerInput = AnswerInput(text: string, isCorrect: bool)

  /** An option as it is written to the database. */
  datatype AnswerDraft = AnswerDraft(text: string, isCorrect: bool, sortOrder: int)

  /** A question as it is written to the database, with its options. */
  datatype QuestionDraft = QuestionDraft(text: string, answers: seq<AnswerDraft>)

  const QuestionNotFound := ApiError(404, "السؤال غير موجود.")

  /** `answers.map((a, idx) => ({ ...a, sort_order: idx }))`. */
  function Positioned(inputs: seq<AnswerInput>): (r: seq<AnswerDraft>)
    ensures |r| == |inputs|
    ensures forall i :: 0 <= i < |r| ==> r[i].sortOrder == i
    ensures forall i :: 0 <= i < |r| ==> r[i].text == inputs[i].text && r[i].isCorrect == inputs[i].isCorrect
  {
    seq(|inputs|, i requires 0 <= i < |inputs| => AnswerDraft(inputs[i].text, inputs[i].isCorrect, i))
  }

  /** The request view of stored options: text and correctness. */
  function Inputs(drafts: seq<AnswerDraft>): seq<AnswerInput> {
    seq(|drafts|, i requires 0 <= i < |drafts| => AnswerInput(drafts[i].text, drafts[i].isCorrect))
  }

  /** Sort orders strictly increase along the stored list. */
  predicate SortedByPosition(drafts: seq<AnswerDraft>) {
    forall i, j :: 0 <= i < j < |drafts| ==> drafts[i].sortOrder < drafts[j].sortOrder
  }

  /** Positioning loses nothing: reading the stored options back in
      `sort_order` gives the submitted list, and that order is the list
      order. */
  lemma PositionedRoundTrip(inputs: seq<AnswerInput>)
    ensures Inputs(Positioned(inputs)) == inputs
    ensures SortedByPosition(Positioned(inputs))
  {
  }

  /** The options `addQuestion` stores: none when `answers` is not an array
      (`None`), the positioned list otherwise. */
  function AnswerSet(answers: Option<seq<AnswerInput>>): seq<AnswerDraft> {
    match answers
    case None => []
    case Some(a) => Positioned(a)
  }

  /** `addQuestion`: 404 when the exam does not exist; otherwise a question
      with the given text whose options are the submitted ones in order. */
  function AddQuestion(exams: seq<Exam>, examId: int, text: string, answers: Option<seq<AnswerInput>>)
    : (r: Outcome<QuestionDraft>)
    ensures r.Err? <==> Attempts.FindExam(exams, examId).Err?
    ensures r.Err? ==> r.error == Attempts.ExamNotFound
    ensures r.Ok? ==> r.value.text == text
    ensures r.Ok? && answers.None? ==> r.value.answers == []
    ensures r.Ok? && answers.Some? ==>
      Inputs(r.value.answers) == answers.value && SortedByPosition(r.value.answers)
  {
    match Attempts.FindExam(exams, examId)
    case Err(e) => Err(e)
    case Ok(_) =>
      PositionedRoundTrip(answers.GetOr([]));
      Ok(QuestionDraft(text, AnswerSet(answers)))
  }

  /** The stored form of an existing question. */
  function DraftOf(q: Question): QuestionDraft {
    QuestionDraft(q.text, seq(|q.answers|, i requires 0 <= i < |q.answers| =>
      AnswerDraft(q.answers[i].text, q.answers[i].isCorrect, q.answers[i].sortOrder)))
  }

  /** The question with id `questionId` inside exam `examId`, if any. */
  function FindQuestion(exams: seq<Exam>, examId: int, questionId: int): (r: Option<Question>)
    ensures r.Some? ==> r.value.id == questionId
    ensures r.Some? ==> Attempts.FindExam(exams, examId).Ok? && r.value in Attempts.FindExam(exams, examId).value.questions
    ensures r.None? && Attempts.FindExam(exams, examId).Ok? ==>
      forall q :: q in Attempts.FindExam(exams, examId).value.questions ==> q.id != questionId
  {
    match Attempts.FindExam(exams, examId)
    case Err(_) => None
    case Ok(exam) => FirstWithId(exam.questions, questionId)
  }

  function FirstWithId(qs: seq<Question>, id: int): (r: Option<Question>)
    ensures r.Some? ==> r.value in qs && r.value.id == id
    ensures r.None? ==> forall q :: q in qs ==> q.id != id
  {
    if |qs| == 0 then None
    else if qs[0].id == id then Some(qs[0])
    else FirstWithId(qs[1..], id)
  }

  /** `updateQuestion`: 404 unless the question belongs to the exam. The text
      is replaced when given (an absent text is skipped by the save). The
      option set is replaced as a whole, positioned, only when `answers` is an
      array; otherwise the stored options stay as they were. */
  function UpdateQuestion(exams: seq<Exam>, examId: int, questionId: int, text: Option<string>,
                          answers: Option<seq<AnswerInput>>): (r: Outcome<QuestionDraft>)
    ensures r.Err? <==> FindQuestion(exams, examId, questionId).None?
    ensures r.Err? ==> r.error == QuestionNotFound
    ensures r.Ok? ==>
      var stored := DraftOf(FindQuestion(exams, examId, questionId).value);
      && r.value.text == text.GetOr(stored.text)
      && (answers.None? ==> r.value.answers == stored.answers)
      && (answers.Some? ==> Inputs(r.value.answers) == answers.value && SortedByPosition(r.value.answers))
  {
    match FindQuestion(exams, examId, questionId)
    case None => Err(QuestionNotFound)
    case Some(q) =>
      var current := DraftOf(q);
      PositionedRoundTrip(answers.GetOr([]));
      Ok(QuestionDraft(text.GetOr(current.text),
                       if answers.Some? then Positioned(answers.value) else current.answers))
  }

  /** After a replacement the stored options depend only on the submitted
      list: whatever options two questions had before, they end up equal. */
  lemma ReplacementForgetsOldAnswers(q1: Question, q2: Question, exams1: seq<Exam>, exams2: seq<Exam>,
                                     examId: int, text: Option<string>, answers: seq<AnswerInput>)
    requires FindQuestion(exams1, examId, q1.id) == Some(q1)
    requires FindQuestion(exams2, examId, q2.id) == Some(q2)
    ensures UpdateQuestion(exams1, examId, q1.id, text, Some(answers)).value.answers
         == UpdateQuestion(exams2, examId, q2.id, text, Some(answers)).value.answers
  {
  }
}
