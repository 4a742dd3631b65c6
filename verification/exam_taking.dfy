/** The student's exam page (`ExamTakingPage`): starting an attempt, picking
    answers, the submit guard, the one-second countdown that submits on its
    own when time runs out, and the manual submit button. Each event is a
    function from the page state to the next one; a `Step` also carries the
    answer list a call sends to the server, if any. */
module ExamTaking {
  import opened Wrappers
  import opened Domain
  import opened AnswerSheet
  import Scoring

  datatype Page = Page(
    questions: seq<Question>,
    sheet: seq<Choice>,
    timeLeft: int,
    started: bool,
    result: Option<real>,
    submitting: bool)

  /** A state and the `answers` body of the submit request it issued. */
  datatype Step = Step(page: Page, request: Option<seq<Entry>>)

  /** The state before the attempt starts. */
  const Fresh := Page([], [], 0, false, None, false)

  /** The page states every event keeps: the answer map is well formed. */
  predicate Valid(p: Page) {
    Ascending(p.sheet)
  }

  /** A successful `POST /exams/:id/start`: the questions are shown and the
      countdown is set to the exam's duration in seconds. */
  function Start(p: Page, durationMinutes: int, questions: seq<Question>): (r: Page)
    ensures r.timeLeft == durationMinutes * 60 && r.started
    ensures r.questions == questions && r.sheet == p.sheet && r.result == p.result && r.submitting == p.submitting
  {
    p.(questions := questions, timeLeft := durationMinutes * 60, started := true)
  }

  /** Clicking option `a` of question `q`. */
  function Pick(p: Page, q: nat, a: int): (r: Page)
    requires Valid(p)
    ensures Valid(r)
    ensures Lookup(r.sheet, q) == Some(a)
  {
    ChooseLookup(p.sheet, q, a, q);
    p.(sheet := Choose(p.sheet, q, a))
  }

  /** `handleSubmit`: ignored while a submission is in flight; otherwise it
      raises the guard and sends the whole answer map. */
  function Submit(p: Page): (s: Step)
    ensures p.submitting ==> s == Step(p, None)
    ensures !p.submitting ==> s.page.submitting && s.request == Some(Submission(p.sheet))
  {
    if p.submitting then Step(p, None)
    else Step(p.(submitting := true), Some(Submission(p.sheet)))
  }

  /** The server graded the attempt: the result is shown. The guard is not
      lowered. */
  function Delivered(p: Page, percentage: real): Page {
    p.(result := Some(percentage))
  }

  /** The request failed: the guard is lowered so the attempt can be sent
      again. */
  function Refused(p: Page): Page {
    p.(submitting := false)
  }

  /** One run of the timer effect: nothing before the start or once a result
      exists; submission when no time is left; otherwise one second off the
      clock. */
  function Tick(p: Page): Step {
    if !p.started || p.result.Some? then Step(p, None)
    else if p.timeLeft <= 0 then Submit(p)
    else Step(p.(timeLeft := p.timeLeft - 1), None)
  }

  /** `n` ticks with no other event in between. */
  function Ticks(p: Page, n: nat): Page
    decreases n
  {
    if n == 0 then p else Ticks(Tick(p).page, n - 1)
  }

  /** The submit button is enabled: no submission in flight and at least as
      many answers as questions. */
  predicate SubmitEnabled(p: Page) {
    !p.submitting && |p.sheet| >= |p.questions|
  }

  // ---------------------------------------------------------------------
  // Properties

  /** While a submission is in flight neither a click nor the timer sends a
      second one, and the state does not change. */
  lemma InFlightSendsNothing(p: Page)
    requires p.submitting
    ensures Submit(p) == Step(p, None)
    ensures Tick(p).request.None?
  {
  }

  /** A failed submission can be repeated: the next call sends the same map. */
  lemma RefusedCanRetry(p: Page)
    ensures Submit(Refused(p)).request == Some(Submission(p.sheet))
  {
  }

  /** With time on the clock each tick takes one second off and sends
      nothing. */
  lemma {:induction false} CountdownRuns(p: Page, n: nat)
    requires p.started && p.result.None?
    requires n <= p.timeLeft
    ensures Ticks(p, n) == p.(timeLeft := p.timeLeft - n)
    ensures forall k: nat :: k < n ==> Tick(Ticks(p, k)).request.None?
    decreases n
  {
    if n > 0 {
      var next := Tick(p).page;
      assert next == p.(timeLeft := p.timeLeft - 1);
      CountdownRuns(next, n - 1);
      forall k: nat | k < n ensures Tick(Ticks(p, k)).request.None? {
        if k > 0 {
          assert Ticks(p, k) == Ticks(next, k - 1);
        }
      }
    }
  }

  /** Once the clock shows no time left, the next tick submits the map. */
  lemma TimeUpSubmits(p: Page)
    requires p.started && p.result.None? && !p.submitting
    requires p.timeLeft <= 0
    ensures Tick(p) == Step(p.(submitting := true), Some(Submission(p.sheet)))
  {
  }

  /** An attempt of `d` minutes started with nothing in flight runs `d * 60`
      silent ticks, and the tick after them submits whatever has been
      answered. */
  lemma StartedAttemptSubmitsOnTime(p: Page, d: nat, questions: seq<Question>)
    requires p.result.None? && !p.submitting
    ensures var s := Start(p, d, questions);
      && (forall k: nat :: k < d * 60 ==> Tick(Ticks(s, k)).request.None?)
      && Tick(Ticks(s, d * 60)).request == Some(Submission(p.sheet))
  {
    var s := Start(p, d, questions);
    CountdownRuns(s, d * 60);
    TimeUpSubmits(Ticks(s, d * 60));
  }

  /** A delivered result ends the attempt: no click, tick or further choice
      sends anything again. */
  lemma DeliveredIsFinal(p: Page, percentage: real, q: nat, a: int)
    requires Valid(p) && p.submitting
    ensures var d := Delivered(p, percentage);
      && Submit(d) == Step(d, None)
      && Tick(d) == Step(d, None)
      && Submit(Pick(d, q, a)).request.None?
      && Tick(Pick(d, q, a)).request.None?
  {
  }

  /** Every event keeps the answer map well formed. */
  lemma EventsKeepValid(p: Page, d: int, qs: seq<Question>, q: nat, a: int, percentage: real)
    requires Valid(p)
    ensures Valid(Start(p, d, qs)) && Valid(Pick(p, q, a)) && Valid(Submit(p).page)
    ensures Valid(Delivered(p, percentage)) && Valid(Refused(p)) && Valid(Tick(p).page)
  {
  }

  /** The ids of the questions on the page. */
  function QuestionIds(qs: seq<Question>): set<nat> {
    set i | 0 <= i < |qs| :: qs[i].id
  }

  lemma {:induction false} QuestionIdCount(qs: seq<Question>)
    requires Scoring.DistinctIds(qs)
    ensures |QuestionIds(qs)| == |qs|
  {
    if |qs| > 0 {
      var init := qs[..|qs| - 1];
      QuestionIdCount(init);
      QuestionIdsSnoc(qs);
      assert qs[|qs| - 1].id !in QuestionIds(init);
    }
  }

  /** The ids of a list are those of all but its last question, and the
      last one's. */
  lemma QuestionIdsSnoc(qs: seq<Question>)
    requires |qs| > 0
    ensures QuestionIds(qs) == QuestionIds(qs[..|qs| - 1]) + {qs[|qs| - 1].id}
  {
    var init := qs[..|qs| - 1];
    forall k | k in QuestionIds(qs) ensures k in QuestionIds(init) + {qs[|qs| - 1].id} {
      var i :| 0 <= i < |qs| && qs[i].id == k;
      if i < |qs| - 1 { assert init[i].id == k; }
    }
    forall k | k in QuestionIds(init) ensures k in QuestionIds(qs) {
      var i :| 0 <= i < |init| && init[i].id == k;
      assert qs[i].id == k;
    }
  }

  /** A subset at least as large as its superset is all of it. */
  lemma FullSubset<T>(a: set<T>, b: set<T>)
    requires a <= b && |a| >= |b|
    ensures a == b
  {
    var d := b - a;
    assert b == a + d && a * d == {};
  }

  /** When answers are picked only among the page's questions and no two
      questions share an id, the submit button is enabled exactly when
      nothing is in flight and every question has an answer. */
  lemma SubmitEnabledIffAllAnswered(p: Page)
    requires Valid(p) && Scoring.DistinctIds(p.questions)
    requires KeysOf(p.sheet) <= QuestionIds(p.questions)
    ensures SubmitEnabled(p) <==>
      !p.submitting && forall i :: 0 <= i < |p.questions| ==> Lookup(p.sheet, p.questions[i].id).Some?
  {
    var keys := KeysOf(p.sheet);
    var ids := QuestionIds(p.questions);
    KeyCount(p.sheet);
    QuestionIdCount(p.questions);
    if |p.sheet| >= |p.questions| {
      FullSubset(keys, ids);
      forall i | 0 <= i < |p.questions| ensures Lookup(p.sheet, p.questions[i].id).Some? {
        assert p.questions[i].id in ids;
        LookupIffKey(p.sheet, p.questions[i].id);
      }
    } else {
      assert !(ids <= keys) by {
        if ids <= keys { Scoring.SubsetCardinality(ids, keys); }
      }
      var k :| k in ids && k !in keys;
      var i :| 0 <= i < |p.questions| && p.questions[i].id == k;
      LookupIffKey(p.sheet, k);
    }
  }
}
