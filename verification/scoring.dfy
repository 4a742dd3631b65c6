/** The scoring rule shared by the student and the guest submission paths of
    `backend/src/services/exam.service.ts`: a question scores one point when
    the first submitted entry for it names the id of its first correct
    option. */
module Scoring {
  import opened Wrappers
  import opened Domain

  /** `answers.find((a) => a.question_id === q.id)`, as an index: the first
      entry for question `qid`, or `None` when the question is unanswered. */
  function FindEntry(entries: seq<Entry>, qid: int): (r: Option<nat>)
    ensures r.Some? ==> r.value < |entries| && entries[r.value].questionId == qid
    ensures r.Some? ==> forall j :: 0 <= j < r.value ==> entries[j].questionId != qid
    ensures r.None? <==> forall j :: 0 <= j < |entries| ==> entries[j].questionId != qid
  {
    if |entries| == 0 then None
    else if entries[0].questionId == qid then Some(0)
    else
      match FindEntry(entries[1..], qid)
      case None => None
      case Some(i) => Some(i + 1)
  }

  /** `q.answers?.find((a) => a.is_correct)`, as an index: the first option
      marked correct, or `None` when the question has none. */
  function FirstCorrect(answers: seq<Answer>): (r: Option<nat>)
    ensures r.Some? ==> r.value < |answers| && answers[r.value].isCorrect
    ensures r.Some? ==> forall j :: 0 <= j < r.value ==> !answers[j].isCorrect
    ensures r.None? <==> forall j :: 0 <= j < |answers| ==> !answers[j].isCorrect
  {
    if |answers| == 0 then None
    else if answers[0].isCorrect then Some(0)
    else
      match FirstCorrect(answers[1..])
      case None => None
      case Some(i) => Some(i + 1)
  }

  /** The `if (submitted && correctAnswer && submitted.answer_id ===
      correctAnswer.id)` test for one question. */
  predicate Earns(q: Question, entries: seq<Entry>) {
    var s := FindEntry(entries, q.id);
    var c := FirstCorrect(q.answers);
    s.Some? && c.Some? && entries[s.value].answerId == q.answers[c.value].id
  }

  /** Reference definition of the score: the number of template questions
      that earn their point. */
  function CountEarned(qs: seq<Question>, entries: seq<Entry>): (n: nat)
    ensures n <= |qs|
  {
    if |qs| == 0 then 0
    else CountEarned(qs[..|qs| - 1], entries) + (if Earns(qs[|qs| - 1], entries) then 1 else 0)
  }

  /** `(score / totalQuestions) * 100`, or exactly 0 for an empty template. */
  function Percentage(score: nat, total: nat): real {
    if total > 0 then (score as real / total as real) * 100.0 else 0.0
  }

  /** The `forEach` loop of `submitExam` / `submitGuestExam` together with
      the percentage computed after it. */
  method ScoreExam(questions: seq<Question>, entries: seq<Entry>)
    returns (score: nat, total: nat, percentage: real)
    ensures total == |questions|
    ensures score == CountEarned(questions, entries)
    ensures score <= total
    ensures percentage == Percentage(score, total)
  {
    score := 0;
    total := |questions|;
    var i := 0;
    while i < |questions|
      invariant 0 <= i <= |questions|
      invariant score == CountEarned(questions[..i], entries)
    {
      assert questions[..i + 1][..i] == questions[..i];
      if Earns(questions[i], entries) {
        score := score + 1;
      }
      i := i + 1;
    }
    assert questions[..i] == questions;
    percentage := Percentage(score, total);
  }

  /** The percentage lies in [0, 100]; it is 0 for an empty template and 100
      exactly when every question earned its point. */
  lemma PercentageRange(score: nat, total: nat)
    requires score <= total
    ensures 0.0 <= Percentage(score, total) <= 100.0
    ensures total == 0 ==> Percentage(score, total) == 0.0
    ensures total > 0 ==> (Percentage(score, total) == 100.0 <==> score == total)
    ensures score == 0 ==> Percentage(score, total) == 0.0
  {
    if total > 0 {
      var f := score as real / total as real;
      assert f * (total as real) == score as real;
      assert f <= 1.0;
    }
  }

  // ----- Count as a cardinality -----------------------------------------------

  /** The indices of the questions that earn a point. */
  function EarningIndices(qs: seq<Question>, entries: seq<Entry>): set<nat> {
    set i: nat | i < |qs| && Earns(qs[i], entries)
  }

  /** The recursive count is the number of earning question positions. */
  lemma {:induction false} CountIsCardinality(qs: seq<Question>, entries: seq<Entry>)
    ensures CountEarned(qs, entries) == |EarningIndices(qs, entries)|
  {
    if |qs| > 0 {
      var init := qs[..|qs| - 1];
      var last := |qs| - 1;
      CountIsCardinality(init, entries);
      IndicesOfPrefix(qs, entries);
      var a := EarningIndices(init, entries);
      if Earns(qs[last], entries) {
        assert |a + {last}| == |a| + 1;
      }
    }
  }

  /** The earning positions of `qs` are those of its prefix, plus the last
      position when its question earns. */
  lemma IndicesOfPrefix(qs: seq<Question>, entries: seq<Entry>)
    requires |qs| > 0
    ensures var last := |qs| - 1;
      && last !in EarningIndices(qs[..last], entries)
      && EarningIndices(qs, entries)
         == EarningIndices(qs[..last], entries) + (if Earns(qs[last], entries) then {last} else {})
  {
    var init := qs[..|qs| - 1];
    var last := |qs| - 1;
    var a := EarningIndices(init, entries);
    var b := EarningIndices(qs, entries);
    forall i: nat | i in a
      ensures i in b
    {
      assert init[i] == qs[i];
    }
    forall i: nat | i in b && i != last
      ensures i in a
    {
      assert init[i] == qs[i];
    }
  }

  // ----- What does not change the score ---------------------------------------

  /** Whether `qid` is the id of some template question. */
  predicate InTemplate(qs: seq<Question>, qid: int) {
    exists i :: 0 <= i < |qs| && qs[i].id == qid
  }

  /** Entries whose question is not in the template. */
  predicate AllForeign(qs: seq<Question>, extra: seq<Entry>) {
    forall j :: 0 <= j < |extra| ==> !InTemplate(qs, extra[j].questionId)
  }

  /** Foreign entries do not change which entry a template question finds. */
  lemma ForeignEntriesInvisible(q: Question, qs: seq<Question>, before: seq<Entry>, extra: seq<Entry>, after: seq<Entry>)
    requires q in qs
    requires AllForeign(qs, extra)
    ensures Earns(q, before + extra + after) == Earns(q, before + after)
  {
    var all := before + extra + after;
    var base := before + after;
    var k :| 0 <= k < |qs| && qs[k] == q;
    assert forall j :: 0 <= j < |extra| ==> extra[j].questionId != q.id;
    match FindEntry(base, q.id)
    case None =>
      forall j | 0 <= j < |all|
        ensures all[j].questionId != q.id
      {
        if j < |before| {
          assert all[j] == base[j];
        } else if j < |before| + |extra| {
          assert all[j] == extra[j - |before|];
        } else {
          assert all[j] == base[j - |extra|];
        }
      }
    case Some(i) =>
      var i' := if i < |before| then i else i + |extra|;
      assert all[i'] == base[i];
      forall j | 0 <= j < i'
        ensures all[j].questionId != q.id
      {
        if j < |before| {
          assert all[j] == base[j];
        } else if j < |before| + |extra| {
          assert all[j] == extra[j - |before|];
        } else {
          assert all[j] == base[j - |extra|];
        }
      }
      FindEntryIsFirst(all, q.id, i');
  }

  /** `FindEntry` returns the index of the first match, whichever that is. */
  lemma FindEntryIsFirst(entries: seq<Entry>, qid: int, i: nat)
    requires i < |entries| && entries[i].questionId == qid
    requires forall j :: 0 <= j < i ==> entries[j].questionId != qid
    ensures FindEntry(entries, qid) == Some(i)
  {
    var r := FindEntry(entries, qid);
    assert r.Some?;
    if r.value < i {
      assert false;
    } else if r.value > i {
      assert false;
    }
  }

  /** Entries naming a question outside the template never change the score,
      wherever they are inserted in the submission. */
  lemma ForeignEntriesIgnored(qs: seq<Question>, before: seq<Entry>, extra: seq<Entry>, after: seq<Entry>)
    requires AllForeign(qs, extra)
    ensures CountEarned(qs, before + extra + after) == CountEarned(qs, before + after)
  {
    forall i | 0 <= i < |qs|
      ensures Earns(qs[i], before + extra + after) == Earns(qs[i], before + after)
    {
      ForeignEntriesInvisible(qs[i], qs, before, extra, after);
    }
    CountPointwise(qs, before + extra + after, before + after);
  }

  /** Two submissions that earn the same points question by question have the
      same count. */
  lemma {:induction false} CountPointwise(qs: seq<Question>, e1: seq<Entry>, e2: seq<Entry>)
    requires forall i :: 0 <= i < |qs| ==> Earns(qs[i], e1) == Earns(qs[i], e2)
    ensures CountEarned(qs, e1) == CountEarned(qs, e2)
  {
    if |qs| > 0 {
      var init := qs[..|qs| - 1];
      assert forall i :: 0 <= i < |init| ==> init[i] == qs[i];
      CountPointwise(init, e1, e2);
    }
  }

  // ----- Unanswered and unkeyed questions ----------------------------------------

  /** Whether the submission has an entry for question `q`. */
  predicate Answered(q: Question, entries: seq<Entry>) {
    FindEntry(entries, q.id).Some?
  }

  /** The indices of the questions that are answered and have a correct
      option. */
  function AnsweredKeyedIndices(qs: seq<Question>, entries: seq<Entry>): set<nat> {
    set i: nat | i < |qs| && Answered(qs[i], entries) && FirstCorrect(qs[i].answers).Some?
  }

  /** Unanswered questions and questions without a correct option contribute
      nothing: the score is at most the number of answered questions that
      have a correct option. */
  lemma ScoreAtMostAnsweredKeyed(qs: seq<Question>, entries: seq<Entry>)
    ensures CountEarned(qs, entries) <= |AnsweredKeyedIndices(qs, entries)|
  {
    CountIsCardinality(qs, entries);
    var earning := EarningIndices(qs, entries);
    var keyed := AnsweredKeyedIndices(qs, entries);
    forall i | i in earning
      ensures i in keyed
    {
      assert Earns(qs[i], entries);
    }
    SubsetCardinality(earning, keyed);
  }

  lemma SubsetCardinality<T>(a: set<T>, b: set<T>)
    requires a <= b
    ensures |a| <= |b|
  {
    assert b == a + (b - a);
  }

  /** An empty submission scores 0. */
  lemma {:induction false} EmptySubmissionScoresZero(qs: seq<Question>)
    ensures CountEarned(qs, []) == 0
  {
    if |qs| > 0 {
      EmptySubmissionScoresZero(qs[..|qs| - 1]);
    }
  }

  // ----- The answer key scores full marks ---------------------------------------

  /** Every question has at least one option marked correct. */
  predicate FullyKeyed(qs: seq<Question>) {
    forall i :: 0 <= i < |qs| ==> FirstCorrect(qs[i].answers).Some?
  }

  /** No two template questions share an id. */
  predicate DistinctIds(qs: seq<Question>) {
    forall i, j :: 0 <= i < j < |qs| ==> qs[i].id != qs[j].id
  }

  /** The submission that picks the correct option of every question. */
  function AnswerKey(qs: seq<Question>): (key: seq<Entry>)
    requires FullyKeyed(qs)
    ensures |key| == |qs|
    ensures forall i :: 0 <= i < |qs| ==> key[i].questionId == qs[i].id
  {
    seq(|qs|, i requires 0 <= i < |qs| => Entry(qs[i].id, qs[i].answers[FirstCorrect(qs[i].answers).value].id))
  }

  /** When every question earns its point, the score is the number of
      questions. */
  lemma {:induction false} AllEarnedIsFull(qs: seq<Question>, entries: seq<Entry>)
    requires forall i :: 0 <= i < |qs| ==> Earns(qs[i], entries)
    ensures CountEarned(qs, entries) == |qs|
  {
    if |qs| > 0 {
      var init := qs[..|qs| - 1];
      assert forall i :: 0 <= i < |init| ==> init[i] == qs[i];
      AllEarnedIsFull(init, entries);
    }
  }

  /** Answering every question with its correct option scores `N` out of `N`,
      hence 100 percent. */
  lemma AnswerKeyScoresFull(qs: seq<Question>)
    requires FullyKeyed(qs) && DistinctIds(qs)
    ensures CountEarned(qs, AnswerKey(qs)) == |qs|
    ensures |qs| > 0 ==> Percentage(CountEarned(qs, AnswerKey(qs)), |qs|) == 100.0
  {
    var key := AnswerKey(qs);
    forall i | 0 <= i < |qs|
      ensures Earns(qs[i], key)
    {
      FindEntryIsFirst(key, qs[i].id, i);
    }
    AllEarnedIsFull(qs, key);
    PercentageRange(|qs|, |qs|);
  }
}
