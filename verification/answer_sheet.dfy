/** The `Record<number, number>` answer map both exam pages keep, from
    question id to the chosen option id, and the list of
    `{question_id, answer_id}` pairs built from it on submission. A map with
    integer keys enumerates them in ascending order, so it is modelled as a
    list of choices whose question ids strictly ascend. */
module AnswerSheet {
  import opened Wrappers
  import opened Domain
  import opened Text
  import Scoring

  /** One property `answers[questionId] = answerId` of the map. */
  datatype Choice = Choice(questionId: nat, answerId: int)

  /** Keys in enumeration order: strictly ascending, hence never repeated. */
  predicate Ascending(sheet: seq<Choice>) {
    forall i, j :: 0 <= i < j < |sheet| ==> sheet[i].questionId < sheet[j].questionId
  }

  /** `answers[q]`, `None` for `undefined`. */
  function Lookup(sheet: seq<Choice>, q: nat): Option<int> {
    if |sheet| == 0 then None
    else if sheet[0].questionId == q then Some(sheet[0].answerId)
    else Lookup(sheet[1..], q)
  }

  /** `Object.keys(answers)` as a set of question ids. */
  function KeysOf(sheet: seq<Choice>): set<nat> {
    set i | 0 <= i < |sheet| :: sheet[i].questionId
  }

  /** `{ ...answers, [q]: a }`: the choice for `q` is replaced in place, or
      inserted at its place in key order. */
  function Choose(sheet: seq<Choice>, q: nat, a: int): (r: seq<Choice>)
    requires Ascending(sheet)
    ensures Ascending(r)
    ensures forall i :: 0 <= i < |r| ==> r[i] == Choice(q, a) || r[i] in sheet
  {
    if |sheet| == 0 then [Choice(q, a)]
    else if sheet[0].questionId == q then [Choice(q, a)] + sheet[1..]
    else if q < sheet[0].questionId then [Choice(q, a)] + sheet
    else
      var rest := Choose(sheet[1..], q, a);
      var r := [sheet[0]] + rest;
      forall i, j | 0 <= i < j < |r|
        ensures r[i].questionId < r[j].questionId
      {
        if i == 0 {
          assert r[j] == rest[j - 1];
          if rest[j - 1] != Choice(q, a) {
            var k :| 0 <= k < |sheet[1..]| && sheet[1..][k] == rest[j - 1];
            assert sheet[k + 1] == rest[j - 1];
          }
        }
      }
      r
  }

  /** Choosing `a` for `q` makes `answers[q]` read `a` and leaves every other
      question's answer as it was. */
  lemma {:induction false} ChooseLookup(sheet: seq<Choice>, q: nat, a: int, p: nat)
    requires Ascending(sheet)
    ensures Lookup(Choose(sheet, q, a), q) == Some(a)
    ensures p != q ==> Lookup(Choose(sheet, q, a), p) == Lookup(sheet, p)
  {
    if |sheet| > 0 && sheet[0].questionId != q && !(q < sheet[0].questionId) {
      ChooseLookup(sheet[1..], q, a, p);
    }
  }

  /** Choosing adds `q` to the keys and adds an entry only when `q` had no
      answer yet. */
  lemma ChooseKeys(sheet: seq<Choice>, q: nat, a: int)
    requires Ascending(sheet)
    ensures KeysOf(Choose(sheet, q, a)) == KeysOf(sheet) + {q}
    ensures |Choose(sheet, q, a)| == |sheet| + (if Lookup(sheet, q).None? then 1 else 0)
  {
    ChooseKeySet(sheet, q, a);
    ChooseCount(sheet, q, a);
  }

  lemma {:induction false} ChooseKeySet(sheet: seq<Choice>, q: nat, a: int)
    requires Ascending(sheet)
    ensures KeysOf(Choose(sheet, q, a)) == KeysOf(sheet) + {q}
  {
    if |sheet| == 0 {
      KeysOfCons(Choice(q, a), []);
    } else if sheet[0].questionId == q {
      assert Choose(sheet, q, a) == [Choice(q, a)] + sheet[1..];
      KeysOfCons(Choice(q, a), sheet[1..]);
      KeysOfCons(sheet[0], sheet[1..]);
      assert sheet == [sheet[0]] + sheet[1..];
    } else if q < sheet[0].questionId {
      assert Choose(sheet, q, a) == [Choice(q, a)] + sheet;
      KeysOfCons(Choice(q, a), sheet);
    } else {
      var rest := Choose(sheet[1..], q, a);
      assert Choose(sheet, q, a) == [sheet[0]] + rest;
      ChooseKeySet(sheet[1..], q, a);
      KeysOfCons(sheet[0], sheet[1..]);
      KeysOfCons(sheet[0], rest);
      assert sheet == [sheet[0]] + sheet[1..];
    }
  }

  lemma {:induction false} ChooseCount(sheet: seq<Choice>, q: nat, a: int)
    requires Ascending(sheet)
    ensures |Choose(sheet, q, a)| == |sheet| + (if Lookup(sheet, q).None? then 1 else 0)
  {
    if |sheet| > 0 && sheet[0].questionId != q {
      if q < sheet[0].questionId {
        LookupAbsent(sheet, q);
      } else {
        assert Lookup(sheet, q) == Lookup(sheet[1..], q);
        ChooseCount(sheet[1..], q, a);
      }
    }
  }

  lemma KeysOfCons(c: Choice, rest: seq<Choice>)
    ensures KeysOf([c] + rest) == {c.questionId} + KeysOf(rest)
  {
    var s := [c] + rest;
    forall k | k in KeysOf(s) ensures k in {c.questionId} + KeysOf(rest) {
      var i :| 0 <= i < |s| && s[i].questionId == k;
      if i > 0 { assert rest[i - 1].questionId == k; }
    }
    forall k | k in KeysOf(rest) ensures k in KeysOf(s) {
      var i :| 0 <= i < |rest| && rest[i].questionId == k;
      assert s[i + 1].questionId == k;
    }
    assert s[0].questionId == c.questionId;
  }

  /** A key below the first key of an ascending map is absent from it. */
  lemma {:induction false} LookupAbsent(sheet: seq<Choice>, q: nat)
    requires Ascending(sheet)
    requires |sheet| > 0 && q < sheet[0].questionId
    ensures Lookup(sheet, q).None?
  {
    if |sheet| > 1 {
      LookupAbsent(sheet[1..], q);
    }
  }

  /** `answers[q]` is defined exactly for the keys of the map. */
  lemma {:induction false} LookupIffKey(sheet: seq<Choice>, q: nat)
    ensures Lookup(sheet, q).Some? <==> q in KeysOf(sheet)
  {
    if |sheet| > 0 {
      LookupIffKey(sheet[1..], q);
      KeysOfCons(sheet[0], sheet[1..]);
      assert sheet == [sheet[0]] + sheet[1..];
    }
  }

  /** A map with no repeated key has as many keys as entries. */
  lemma {:induction false} KeyCount(sheet: seq<Choice>)
    requires Ascending(sheet)
    ensures |KeysOf(sheet)| == |sheet|
  {
    if |sheet| > 0 {
      KeyCount(sheet[1..]);
      KeysOfCons(sheet[0], sheet[1..]);
      assert sheet == [sheet[0]] + sheet[1..];
      LookupIffKey(sheet[1..], sheet[0].questionId);
      if |sheet| > 1 {
        LookupAbsent(sheet[1..], sheet[0].questionId);
      }
    }
  }

  // ---------------------------------------------------------------------
  // Submission

  /** One `{ question_id: parseInt(qId), answer_id: aId }` pair: the key is
      enumerated as its decimal text and `parseInt` recovers it. */
  function Sent(c: Choice): (e: Entry)
    ensures e == Entry(c.questionId, c.answerId)
  {
    ParseIntRoundTrip(c.questionId);
    Entry(ParseInt(NatToString(c.questionId)).value, c.answerId)
  }

  /** `Object.entries(answers).map(...)`. */
  function Submission(sheet: seq<Choice>): (r: seq<Entry>)
    ensures |r| == |sheet|
    ensures forall i :: 0 <= i < |sheet| ==> r[i] == Entry(sheet[i].questionId, sheet[i].answerId)
  {
    seq(|sheet|, i requires 0 <= i < |sheet| => Sent(sheet[i]))
  }

  /** The submitted list carries one entry per answered question, in
      ascending question order, so no question id repeats; the scoring loop's
      first-entry lookup finds, for every question, exactly the answer the
      map holds. */
  lemma SubmissionMatchesSheet(sheet: seq<Choice>, q: nat)
    requires Ascending(sheet)
    ensures var e := Submission(sheet);
      forall i, j :: 0 <= i < j < |e| ==> e[i].questionId < e[j].questionId
    ensures Scoring.FindEntry(Submission(sheet), q).Some? <==> Lookup(sheet, q).Some?
    ensures Lookup(sheet, q).Some? ==>
      Submission(sheet)[Scoring.FindEntry(Submission(sheet), q).value].answerId == Lookup(sheet, q).value
  {
    SubmissionFinds(sheet, q);
  }

  /** The scoring loop's first-entry lookup in the submitted list reads what the
      map holds for `q`. */
  lemma {:induction false} SubmissionFinds(sheet: seq<Choice>, q: nat)
    ensures Scoring.FindEntry(Submission(sheet), q).Some? <==> Lookup(sheet, q).Some?
    ensures Lookup(sheet, q).Some? ==>
      Submission(sheet)[Scoring.FindEntry(Submission(sheet), q).value].answerId == Lookup(sheet, q).value
  {
    if |sheet| > 0 {
      var e := Submission(sheet);
      SubmissionFinds(sheet[1..], q);
      SubmissionCons(sheet);
    }
  }

  /** The submitted list of a non-empty map is its first entry followed by
      the list of the rest. */
  lemma SubmissionCons(sheet: seq<Choice>)
    requires |sheet| > 0
    ensures Submission(sheet)[0] == Entry(sheet[0].questionId, sheet[0].answerId)
    ensures Submission(sheet)[1..] == Submission(sheet[1..])
  {
    var e := Submission(sheet);
    var t := Submission(sheet[1..]);
    forall k | 0 <= k < |t| ensures e[1..][k] == t[k] {
      assert e[k + 1] == Entry(sheet[k + 1].questionId, sheet[k + 1].answerId);
      assert t[k] == Entry(sheet[1..][k].questionId, sheet[1..][k].answerId);
    }
  }
}
