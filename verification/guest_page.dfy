/** The guest exam page (`GuestPage`): a three-phase screen (choose an exam,
    take it, see the result) driven by the events its controls and its
    timer raise. A guest attempt is sent with the guest's name, and the
    submit guard is lowered whatever the server answers. */
module GuestPage {
  import opened Wrappers
  import opened Domain
  import opened Text
  import opened AnswerSheet

  datatype Phase = Choosing | Taking | Showing

  datatype Page = Page(
    phase: Phase,
    name: string,
    selected: Option<nat>,
    questions: seq<Question>,
    sheet: seq<Choice>,
    timeLeft: int,
    started: bool,
    result: Option<real>,
    submitting: bool)

  /** The body of `POST /guest/exams/:id/submit`. */
  datatype Request = Request(answers: seq<Entry>, guestName: string)

  datatype Step = Step(page: Page, request: Option<Request>)

  /** What `GET /guest/exams/:id/start` answered: a failure, or the exam's
      duration (absent when the reply has none) and its questions. */
  datatype StartReply = StartFailed | Started(durationMinutes: Option<int>, questions: Option<seq<Question>>)

  /** What the page can do: type a name, pick an exam card, press start,
      choose an option, press submit, receive the submit reply (`None` for a
      failure, else the percentage), let a second pass, or go back to the
      list. */
  datatype Event =
    | Type(name: string)
    | SelectExam(examId: nat)
    | StartClicked(reply: StartReply)
    | PickAnswer(questionId: nat, answerId: int)
    | SubmitClicked
    | SubmitReply(outcome: Option<real>)
    | TimerTick
    | BackClicked

  const Fresh := Page(Choosing, "", None, [], [], 0, false, None, false)

  /** The countdown a start sets: `duration_minutes * 60 || 1800`, where an
      absent duration gives `NaN` and both `NaN` and `0` are falsy. */
  function StartCountdown(durationMinutes: Option<int>): (r: int)
    ensures r != 0
    ensures durationMinutes.Some? && durationMinutes.value != 0 ==> r == durationMinutes.value * 60
    ensures durationMinutes.None? || durationMinutes.value == 0 ==> r == 1800
  {
    if durationMinutes.Some? && durationMinutes.value * 60 != 0 then durationMinutes.value * 60 else 1800
  }

  /** `startExam`: refused (the phase stays) without a non-blank name or a
      selected exam, or when the server refuses; otherwise the questions are
      loaded, the countdown set and the exam phase entered. The answers are
      not cleared. */
  function StartExam(p: Page, reply: StartReply): Page {
    if IsBlank(p.name) || p.selected.None? then p
    else match reply
      case StartFailed => p
      case Started(d, qs) =>
        p.(questions := qs.GetOr([]), timeLeft := StartCountdown(d), started := true, phase := Taking)
  }

  /** `handleSubmit` up to the request: ignored while one is in flight. */
  function Submit(p: Page): Step {
    if p.submitting then Step(p, None)
    else Step(p.(submitting := true), Some(Request(Submission(p.sheet), p.name)))
  }

  /** The reply to a submission: a result moves to the result phase; the
      guard is lowered in either case. */
  function Finish(p: Page, outcome: Option<real>): Page {
    match outcome
    case Some(percentage) => p.(result := Some(percentage), phase := Showing, submitting := false)
    case None => p.(submitting := false)
  }

  /** One run of the timer effect, as on the student page. */
  function Tick(p: Page): Step {
    if !p.started || p.result.Some? then Step(p, None)
    else if p.timeLeft <= 0 then Submit(p)
    else Step(p.(timeLeft := p.timeLeft - 1), None)
  }

  function Ticks(p: Page, n: nat): Page
    decreases n
  {
    if n == 0 then p else Ticks(Tick(p).page, n - 1)
  }

  /** "Back to the list": the phase, the selection, the result, the answers
      and the started flag are reset; the questions and the clock are not. */
  function BackToList(p: Page): Page {
    p.(phase := Choosing, selected := None, result := None, sheet := [], started := false)
  }

  /** The events the current phase renders a control for; the timer runs in
      every phase and a reply can arrive only while a submission is in
      flight. */
  predicate Offered(p: Page, e: Event) {
    match e
    case Type(_) => p.phase == Choosing
    case SelectExam(_) => p.phase == Choosing
    case StartClicked(_) => p.phase == Choosing
    case PickAnswer(_, _) => p.phase == Taking
    case SubmitClicked => p.phase == Taking
    case SubmitReply(_) => p.submitting
    case TimerTick => true
    case BackClicked => p.phase == Showing
  }

  function Apply(p: Page, e: Event): Step
    requires Ascending(p.sheet)
  {
    match e
    case Type(name) => Step(p.(name := name), None)
    case SelectExam(id) => Step(p.(selected := Some(id)), None)
    case StartClicked(reply) => Step(StartExam(p, reply), None)
    case PickAnswer(q, a) => Step(p.(sheet := Choose(p.sheet, q, a)), None)
    case SubmitClicked => Submit(p)
    case SubmitReply(outcome) => Step(Finish(p, outcome), None)
    case TimerTick => Tick(p)
    case BackClicked => Step(BackToList(p), None)
  }

  /** What each phase implies about the rest of the state. */
  predicate Coherent(p: Page) {
    && Ascending(p.sheet)
    && (p.phase == Choosing ==> !p.started && p.result.None? && !p.submitting)
    && (p.phase == Taking ==> p.started && p.result.None?)
    && (p.phase == Showing ==> p.result.Some? && !p.submitting)
  }

  // ---------------------------------------------------------------------
  // Properties

  /** Every offered event keeps the phases coherent, and a request is only
      ever sent from the exam phase with nothing already in flight; it
      carries the whole answer map and the guest's name. */
  lemma EventsKeepCoherent(p: Page, e: Event)
    requires Coherent(p) && Offered(p, e)
    ensures Coherent(Apply(p, e).page)
    ensures Apply(p, e).request.Some? ==>
      && p.phase == Taking && !p.submitting
      && Apply(p, e).request == Some(Request(Submission(p.sheet), p.name))
  {
  }

  lemma FreshIsCoherent()
    ensures Coherent(Fresh)
  {
  }

  /** The exam phase is entered exactly when the name is not blank, an exam
      is selected and the server accepts; the clock then shows the exam's
      duration, or 30 minutes when it has none. */
  lemma StartNeedsNameAndExam(p: Page, reply: StartReply)
    ensures StartExam(p, reply) != p ==>
      !IsBlank(p.name) && p.selected.Some? && reply.Started?
    ensures !IsBlank(p.name) && p.selected.Some? && reply.Started? ==>
      && StartExam(p, reply).phase == Taking
      && StartExam(p, reply).started
      && StartExam(p, reply).timeLeft == StartCountdown(reply.durationMinutes)
      && StartExam(p, reply).sheet == p.sheet
  {
  }

  /** After going back to the list nothing is selected, so no start
      succeeds until an exam is chosen again, and no answer is kept. */
  lemma BackNeedsNewSelection(p: Page, reply: StartReply)
    ensures var b := BackToList(p);
      && StartExam(b, reply) == b
      && b.sheet == []
      && Tick(b).request.None?
  {
  }

  /** The guard is released by every reply: after a failure, pressing submit
      sends the attempt again. */
  lemma ReplyReleasesGuard(p: Page, outcome: Option<real>)
    ensures !Finish(p, outcome).submitting
    ensures outcome.None? ==>
      Submit(Finish(p, outcome)).request == Some(Request(Submission(p.sheet), p.name))
  {
  }

  /** A started guest attempt of `d` minutes, `d` not zero, runs `d * 60`
      silent ticks and the next tick submits the answers with the name. */
  lemma {:induction false} GuestSubmitsOnTime(p: Page, d: nat, qs: Option<seq<Question>>)
    requires !IsBlank(p.name) && p.selected.Some? && p.result.None? && !p.submitting
    requires d > 0
    ensures var s := StartExam(p, Started(Some(d), qs));
      && (forall k: nat :: k < d * 60 ==> Tick(Ticks(s, k)).request.None?)
      && Tick(Ticks(s, d * 60)).request == Some(Request(Submission(p.sheet), p.name))
  {
    var s := StartExam(p, Started(Some(d), qs));
    CountdownRuns(s, d * 60);
  }

  lemma {:induction false} CountdownRuns(p: Page, n: nat)
    requires p.started && p.result.None?
    requires n <= p.timeLeft
    ensures Ticks(p, n) == p.(timeLeft := p.timeLeft - n)
    ensures forall k: nat :: k < n ==> Tick(Ticks(p, k)).request.None?
    decreases n
  {
    if n > 0 {
      var next := Tick(p).page;
      assert next == p.(timeLeft := p.timeLeft - 1);
      CountdownRuns(next, n - 1);
      forall k: nat | k < n ensures Tick(Ticks(p, k)).request.None? {
        if k > 0 {
          assert Ticks(p, k) == Ticks(next, k - 1);
        }
      }
    }
  }
}
