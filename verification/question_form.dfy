/** The question modal of the supervisor's exam page (`ExamsPage`): the
    answer rows, the radio that marks the correct one, the padding an edit
    adds, and what `handleQSubmit` lets through to the server.

    The rows are JavaScript objects that the text inputs mutate in place, so
    the form keeps them as references into a small heap: two rows holding
    the same reference show, and change, the same object. */
module QuestionForm {
  import opened Wrappers
  import opened Domain
  import opened Text
  import opened Grouping

  /** One `{ answer_text, is_correct }` object. */
  datatype Slot = Slot(text: string, isCorrect: bool)

  const BlankSlot := Slot("", false)

  /** `qForm`: the question text, its order, the row objects by reference,
      the objects themselves, and the first reference not yet handed out. */
  datatype Form = Form(questionText: string, sortOrder: int, refs: seq<nat>, heap: map<nat, Slot>, next: nat)

  /** Every object lives below `next`. */
  predicate HeapBelow(heap: map<nat, Slot>, next: nat) {
    forall r :: r in heap ==> r < next
  }

  /** Every row refers to an existing object. */
  predicate WellFormed(f: Form) {
    && HeapBelow(f.heap, f.next)
    && (forall i :: 0 <= i < |f.refs| ==> f.refs[i] in f.heap)
  }

  /** No two rows share an object. */
  predicate Unshared(f: Form) {
    forall i, j :: 0 <= i < j < |f.refs| ==> f.refs[i] != f.refs[j]
  }

  /** What the rows show. */
  function Rows(f: Form): (r: seq<Slot>)
    requires WellFormed(f)
    ensures |r| == |f.refs|
  {
    seq(|f.refs|, i requires 0 <= i < |f.refs| => f.heap[f.refs[i]])
  }

  /** New objects holding `slots`, at the references from `next` on. */
  function NewObjects(next: nat, slots: seq<Slot>): (m: map<nat, Slot>)
    ensures forall r :: r in m ==> next <= r < next + |slots|
  {
    if |slots| == 0 then map[]
    else NewObjects(next, slots[..|slots| - 1])[next + |slots| - 1 := slots[|slots| - 1]]
  }

  lemma {:induction false} NewObjectAt(next: nat, slots: seq<Slot>, k: nat)
    requires k < |slots|
    ensures next + k in NewObjects(next, slots) && NewObjects(next, slots)[next + k] == slots[k]
  {
    if k < |slots| - 1 {
      NewObjectAt(next, slots[..|slots| - 1], k);
    }
  }

  /** A form whose rows are new objects holding `slots`, one object each. */
  function Build(questionText: string, sortOrder: int, heap: map<nat, Slot>, next: nat, slots: seq<Slot>): Form {
    Form(questionText, sortOrder, seq(|slots|, k => next + k), heap + NewObjects(next, slots), next + |slots|)
  }

  /** The form `useState` starts with and a save resets to: four empty,
      incorrect rows. */
  function FreshForm(heap: map<nat, Slot>, next: nat): Form {
    Build("", 0, heap, next, [BlankSlot, BlankSlot, BlankSlot, BlankSlot])
  }

  /** Typing `v` into row `i`: `newAnswers[i].answer_text = v` writes to
      the object the row refers to. */
  function TypeAnswer(f: Form, i: nat, v: string): Form
    requires WellFormed(f) && i < |f.refs|
  {
    f.(heap := f.heap[f.refs[i] := f.heap[f.refs[i]].(text := v)])
  }

  /** Typing into the question text area. */
  function TypeQuestion(f: Form, v: string): Form {
    f.(questionText := v)
  }

  /** Clicking the radio of row `i`: every row is copied into a new object
      with `is_correct: j === i`. */
  function PickCorrect(f: Form, i: nat): Form
    requires WellFormed(f) && i < |f.refs|
  {
    var rows := Rows(f);
    Build(f.questionText, f.sortOrder, f.heap, f.next,
      seq(|rows|, j requires 0 <= j < |rows| => rows[j].(isCorrect := j == i)))
  }

  /** `q.answers?.map(a => ({ answer_text, is_correct: !!a.is_correct })) || []`. */
  function Mapped(answers: Option<seq<Answer>>): (r: seq<Slot>)
    ensures answers.None? ==> r == []
    ensures answers.Some? ==> |r| == |answers.value|
  {
    match answers
    case None => []
    case Some(stored) => seq(|stored|, k requires 0 <= k < |stored| => Slot(stored[k].text, stored[k].isCorrect))
  }

  /** How many blank rows the edit adds: up to four when the question has
      an answer list, none when it has none. */
  function Padding(answers: Option<seq<Answer>>): nat {
    if answers.Some? && |answers.value| < 4 then 4 - |answers.value| else 0
  }

  /** The edit pencil as written: the stored answers become new objects,
      and `Array(extra).fill({...})` puts ONE blank object in every padded
      row. */
  function EditForm(f: Form, text: string, sortOrder: Option<int>, answers: Option<seq<Answer>>): Form {
    var base := Build(text, sortOrder.GetOr(0), f.heap, f.next, Mapped(answers));
    if Padding(answers) > 0 then
      var pad := base.next;
      base.(refs := base.refs + seq(Padding(answers), _ => pad), heap := base.heap[pad := BlankSlot], next := pad + 1)
    else base
  }

  /** The edit with one blank object per padded row
      (`Array.from({ length: extra }, () => ({...}))`). */
  function EditFormFixed(f: Form, text: string, sortOrder: Option<int>, answers: Option<seq<Answer>>): Form {
    Build(text, sortOrder.GetOr(0), f.heap, f.next, Mapped(answers) + seq(Padding(answers), _ => BlankSlot))
  }

  /** The body of the create (`POST`) or update (`PUT`) request. */
  datatype Body = Body(questionText: string, sortOrder: int, answers: seq<Slot>)

  /** What pressing save leads to: the browser refuses an empty `required`
      field before the handler runs; the handler returns without a selected
      exam, and rejects fewer than two answers or no correct one. */
  datatype Outcome = Blocked | NoExam | TooFewChoices | NoCorrectChoice | Send(body: Body)

  /** The `required` attribute: an empty value blocks the submit event, one
      of white space does not. */
  predicate BrowserAccepts(f: Form)
    requires WellFormed(f)
  {
    f.questionText != "" && forall i :: 0 <= i < |f.refs| ==> Rows(f)[i].text != ""
  }

  /** `ans.answer_text.trim() !== ''`. */
  function IsFilled(s: Slot): bool {
    !IsBlank(s.text)
  }

  predicate AnyCorrect(slots: seq<Slot>) {
    exists i :: 0 <= i < |slots| && slots[i].isCorrect
  }

  /** `handleQSubmit` behind the browser's validation. */
  function SubmitForm(f: Form, examSelected: bool): Outcome
    requires WellFormed(f)
  {
    if !BrowserAccepts(f) then Blocked
    else if !examSelected then NoExam
    else
      var kept := Filter(Rows(f), IsFilled);
      if |kept| < 2 then TooFewChoices
      else if !AnyCorrect(kept) then NoCorrectChoice
      else Send(Body(f.questionText, f.sortOrder, kept))
  }

  /** A successful save: the form goes back to four blank rows. */
  function AfterSave(f: Form): Form {
    FreshForm(f.heap, f.next)
  }

  function CountCorrect(slots: seq<Slot>): nat {
    if |slots| == 0 then 0
    else CountCorrect(slots[..|slots| - 1]) + (if slots[|slots| - 1].isCorrect then 1 else 0)
  }

  // ---------------------------------------------------------------------
  // Properties

  /** A built form shows exactly the given rows, each in its own object. */
  lemma BuildRows(questionText: string, sortOrder: int, heap: map<nat, Slot>, next: nat, slots: seq<Slot>)
    requires HeapBelow(heap, next)
    ensures var f := Build(questionText, sortOrder, heap, next, slots);
      WellFormed(f) && Unshared(f) && Rows(f) == slots
  {
    var f := Build(questionText, sortOrder, heap, next, slots);
    var m := NewObjects(next, slots);
    assert f.heap == heap + m;
    forall k | 0 <= k < |slots| ensures f.refs[k] in f.heap && f.heap[f.refs[k]] == slots[k] {
      assert f.refs[k] == next + k;
      NewObjectAt(next, slots, k);
    }
  }

  /** A fresh form has four empty, incorrect rows in four objects, and the
      browser refuses to save it as it is. */
  lemma FreshFormBlank(heap: map<nat, Slot>, next: nat, examSelected: bool)
    requires HeapBelow(heap, next)
    ensures var f := FreshForm(heap, next);
      && WellFormed(f) && Unshared(f)
      && Rows(f) == [BlankSlot, BlankSlot, BlankSlot, BlankSlot]
      && SubmitForm(f, examSelected) == Blocked
  {
    BuildRows("", 0, heap, next, [BlankSlot, BlankSlot, BlankSlot, BlankSlot]);
  }

  /** Typing into a row changes the text of every row holding the same
      object and of no other row; the correct marks stay. */
  lemma TypeAnswerRows(f: Form, i: nat, v: string)
    requires WellFormed(f) && i < |f.refs|
    ensures var g := TypeAnswer(f, i, v);
      && WellFormed(g) && g.refs == f.refs
      && (forall j :: 0 <= j < |f.refs| && f.refs[j] == f.refs[i] ==> Rows(g)[j] == Rows(f)[i].(text := v))
      && (forall j :: 0 <= j < |f.refs| && f.refs[j] != f.refs[i] ==> Rows(g)[j] == Rows(f)[j])
  {
  }

  /** In a form whose rows are separate objects, typing into row `i`
      changes row `i` alone. */
  lemma TypeAnswerOnlyRow(f: Form, i: nat, v: string)
    requires WellFormed(f) && Unshared(f) && i < |f.refs|
    ensures var g := TypeAnswer(f, i, v);
      && Unshared(g)
      && Rows(g)[i] == Rows(f)[i].(text := v)
      && forall j :: 0 <= j < |f.refs| && j != i ==> Rows(g)[j] == Rows(f)[j]
  {
    TypeAnswerRows(f, i, v);
    var g := TypeAnswer(f, i, v);
    forall j | 0 <= j < |f.refs| && j != i ensures Rows(g)[j] == Rows(f)[j] {
      if j < i { assert f.refs[j] != f.refs[i]; } else { assert f.refs[i] != f.refs[j]; }
    }
  }

  /** The radio marks row `i` correct and every other row incorrect, keeps
      every text, and leaves each row in an object of its own. */
  lemma PickCorrectMarksOne(f: Form, i: nat)
    requires WellFormed(f) && i < |f.refs|
    ensures var g := PickCorrect(f, i);
      && WellFormed(g) && Unshared(g) && |g.refs| == |f.refs|
      && forall j :: 0 <= j < |f.refs| ==>
        Rows(g)[j].text == Rows(f)[j].text && (Rows(g)[j].isCorrect <==> j == i)
  {
    var rows := Rows(f);
    BuildRows(f.questionText, f.sortOrder, f.heap, f.next,
      seq(|rows|, j requires 0 <= j < |rows| => rows[j].(isCorrect := j == i)));
  }

  /** Save sends a request exactly when the browser accepts the form, an
      exam is selected, at least two answers are not blank and one of those
      is marked correct. The request carries the question text and order
      and precisely the non-blank rows, untrimmed, in row order. */
  lemma SubmitSendsFilledRows(f: Form, examSelected: bool)
    requires WellFormed(f)
    ensures var kept := Filter(Rows(f), IsFilled);
      SubmitForm(f, examSelected).Send? <==>
        BrowserAccepts(f) && examSelected && |kept| >= 2 && AnyCorrect(kept)
    ensures SubmitForm(f, examSelected).TooFewChoices? <==>
      BrowserAccepts(f) && examSelected && |Filter(Rows(f), IsFilled)| < 2
    ensures SubmitForm(f, examSelected).Send? ==>
      var b := SubmitForm(f, examSelected).body;
      && b.questionText == f.questionText && b.sortOrder == f.sortOrder
      && (forall s :: s in b.answers <==> s in Rows(f) && !IsBlank(s.text))
      && multiset(b.answers) <= multiset(Rows(f))
  {
    FilterIn(Rows(f), IsFilled);
    FilterCount(Rows(f), IsFilled);
  }

  /** A correct mark on a row that is blank does not count: when every
      correct row is blank, save is rejected for want of a correct answer
      (or of answers). */
  lemma BlankCorrectIgnored(f: Form, examSelected: bool)
    requires WellFormed(f) && BrowserAccepts(f) && examSelected
    requires forall j :: 0 <= j < |f.refs| && Rows(f)[j].isCorrect ==> IsBlank(Rows(f)[j].text)
    ensures SubmitForm(f, examSelected) == NoCorrectChoice || SubmitForm(f, examSelected) == TooFewChoices
  {
    FilterIn(Rows(f), IsFilled);
  }

  /** Two row lists the test treats alike keep as many rows. */
  lemma {:induction false} FilterSameTexts(a: seq<Slot>, b: seq<Slot>, keep: Slot -> bool)
    requires |a| == |b| && forall j :: 0 <= j < |a| ==> keep(a[j]) == keep(b[j])
    ensures |Filter(a, keep)| == |Filter(b, keep)|
  {
    if |a| > 0 {
      FilterSameTexts(a[..|a| - 1], b[..|b| - 1], keep);
    }
  }

  /** When row `i` is the only correct row and it is kept, the kept rows
      hold exactly one correct answer. */
  lemma {:induction false} FilterOneCorrect(rows: seq<Slot>, i: nat, keep: Slot -> bool)
    requires i < |rows| && keep(rows[i])
    requires forall j :: 0 <= j < |rows| ==> (rows[j].isCorrect <==> j == i)
    ensures CountCorrect(Filter(rows, keep)) == 1
  {
    var n := |rows|;
    var init := rows[..n - 1];
    var x := rows[n - 1];
    var kept := Filter(init, keep);
    assert rows == init + [x];
    FilterSnoc(init, x, keep);
    var tail := if keep(x) then [x] else [];
    assert Filter(rows, keep) == kept + tail;
    CountSnoc(kept, x);
    if i == n - 1 {
      assert forall j :: 0 <= j < |init| ==> !init[j].isCorrect;
      FilterNoneCorrect(init, keep);
      assert tail == [x];
    } else {
      assert init[i] == rows[i];
      FilterOneCorrect(init, i, keep);
      assert !x.isCorrect;
      if tail == [] {
        assert kept + tail == kept;
      }
    }
  }

  lemma CountSnoc(s: seq<Slot>, x: Slot)
    ensures CountCorrect(s + [x]) == CountCorrect(s) + (if x.isCorrect then 1 else 0)
  {
    assert (s + [x])[..|s|] == s;
  }

  /** A list with a correct answer counted has one. */
  lemma {:induction false} CountedIsAny(s: seq<Slot>)
    requires CountCorrect(s) > 0
    ensures AnyCorrect(s)
  {
    if !s[|s| - 1].isCorrect {
      CountedIsAny(s[..|s| - 1]);
      var k :| 0 <= k < |s| - 1 && s[..|s| - 1][k].isCorrect;
      assert s[k].isCorrect;
    }
  }

  /** Without a correct row no kept row is correct. */
  lemma {:induction false} FilterNoneCorrect(rows: seq<Slot>, keep: Slot -> bool)
    requires forall j :: 0 <= j < |rows| ==> !rows[j].isCorrect
    ensures CountCorrect(Filter(rows, keep)) == 0
  {
    if |rows| > 0 {
      var init := rows[..|rows| - 1];
      var x := rows[|rows| - 1];
      assert rows == init + [x];
      FilterNoneCorrect(init, keep);
      FilterSnoc(init, x, keep);
      CountSnoc(Filter(init, keep), x);
      if !keep(x) {
        assert Filter(init, keep) + [] == Filter(init, keep);
      }
    }
  }

  /** Clicking the radio of a non-blank row of an otherwise valid form lets
      save through with exactly one correct answer: that row's. */
  lemma RadioThenSave(f: Form, i: nat)
    requires WellFormed(f) && BrowserAccepts(f) && i < |f.refs|
    requires !IsBlank(Rows(f)[i].text)
    requires |Filter(Rows(f), IsFilled)| >= 2
    ensures WellFormed(PickCorrect(f, i))
    ensures var o := SubmitForm(PickCorrect(f, i), true);
      && o.Send?
      && CountCorrect(o.body.answers) == 1
      && (forall s :: s in o.body.answers && s.isCorrect ==> s.text == Rows(f)[i].text)
  {
    PickCorrectMarksOne(f, i);
    var g := PickCorrect(f, i);
    var rows := Rows(g);
    var kept := Filter(rows, IsFilled);
    assert BrowserAccepts(g) by {
      forall j | 0 <= j < |g.refs| ensures rows[j].text != "" {
        assert rows[j].text == Rows(f)[j].text;
      }
    }
    assert |kept| >= 2 by {
      FilterSameTexts(Rows(f), rows, IsFilled);
    }
    assert CountCorrect(kept) == 1 by {
      FilterOneCorrect(rows, i, IsFilled);
    }
    CountedIsAny(kept);
    SaveSends(g);
    CorrectKeptIsRow(rows, i, IsFilled);
  }

  /** A form that passes every check is sent with its kept rows. */
  lemma SaveSends(g: Form)
    requires WellFormed(g) && BrowserAccepts(g)
    requires |Filter(Rows(g), IsFilled)| >= 2 && AnyCorrect(Filter(Rows(g), IsFilled))
    ensures SubmitForm(g, true) == Send(Body(g.questionText, g.sortOrder, Filter(Rows(g), IsFilled)))
  {
  }

  /** The only correct row is the only correct kept row. */
  lemma CorrectKeptIsRow(rows: seq<Slot>, i: nat, keep: Slot -> bool)
    requires i < |rows|
    requires forall j :: 0 <= j < |rows| ==> (rows[j].isCorrect <==> j == i)
    ensures forall s :: s in Filter(rows, keep) && s.isCorrect ==> s == rows[i]
  {
    FilterIn(rows, keep);
    forall s | s in Filter(rows, keep) && s.isCorrect ensures s == rows[i] {
      var j :| 0 <= j < |rows| && rows[j] == s;
    }
  }

  /** The edit form shows the stored answers in order, as they are stored,
      followed by blank rows up to four; a question without an answer list
      gets no row at all. As written and with one object per padded row the
      rows read the same. */
  lemma EditFormRows(f: Form, text: string, sortOrder: Option<int>, answers: Option<seq<Answer>>)
    requires WellFormed(f)
    ensures var e := EditForm(f, text, sortOrder, answers);
      var g := EditFormFixed(f, text, sortOrder, answers);
      && WellFormed(e) && WellFormed(g) && Unshared(g)
      && Rows(e) == Rows(g)
      && Rows(g) == Mapped(answers) + seq(Padding(answers), _ => BlankSlot)
      && (answers.Some? ==> |Rows(g)| == if |answers.value| < 4 then 4 else |answers.value|)
      && (answers.None? ==> Rows(g) == [])
      && e.questionText == text && e.sortOrder == sortOrder.GetOr(0)
  {
    var mapped := Mapped(answers);
    var n := Padding(answers);
    BuildRows(text, sortOrder.GetOr(0), f.heap, f.next, mapped);
    BuildRows(text, sortOrder.GetOr(0), f.heap, f.next, mapped + seq(n, _ => BlankSlot));
    var e := EditForm(f, text, sortOrder, answers);
    var g := EditFormFixed(f, text, sortOrder, answers);
    if n > 0 {
      var base := Build(text, sortOrder.GetOr(0), f.heap, f.next, mapped);
      forall k | 0 <= k < |e.refs| ensures e.refs[k] in e.heap && e.heap[e.refs[k]] == Rows(g)[k] {
        if k < |mapped| {
          assert e.refs[k] == base.refs[k];
          assert base.refs[k] != base.next;
        }
      }
    }
  }

  /** As written, the padded rows of an edit share one object: a question
      with at most two stored answers gets at least two padded rows, and
      typing into the first of them writes the same text into the next. */
  lemma PaddedRowsShareText(f: Form, text: string, sortOrder: Option<int>, stored: seq<Answer>, v: string)
    requires WellFormed(f) && |stored| <= 2
    ensures var e := EditForm(f, text, sortOrder, Some(stored));
      && WellFormed(e) && |e.refs| == 4
      && !Unshared(e)
      && Rows(TypeAnswer(e, |stored|, v))[|stored| + 1].text == v
  {
    EditFormRows(f, text, sortOrder, Some(stored));
    var e := EditForm(f, text, sortOrder, Some(stored));
    assert e.refs[|stored|] == e.refs[|stored| + 1];
    TypeAnswerRows(e, |stored|, v);
  }

  /** With one object per padded row, typing into a padded row changes
      that row alone. */
  lemma FixedPaddingKeepsRowsApart(f: Form, text: string, sortOrder: Option<int>, answers: Option<seq<Answer>>, i: nat, v: string)
    requires WellFormed(f)
    requires i < |EditFormFixed(f, text, sortOrder, answers).refs|
    ensures var g := EditFormFixed(f, text, sortOrder, answers);
      WellFormed(g) &&
      forall j :: 0 <= j < |g.refs| && j != i ==> Rows(TypeAnswer(g, i, v))[j] == Rows(g)[j]
  {
    EditFormRows(f, text, sortOrder, answers);
    TypeAnswerOnlyRow(EditFormFixed(f, text, sortOrder, answers), i, v);
  }

  /** Editing a question with fewer than four stored answers leaves empty
      padded rows, which the browser refuses until they are filled in. */
  lemma ShortQuestionEditBlocked(f: Form, text: string, sortOrder: Option<int>, stored: seq<Answer>, examSelected: bool)
    requires WellFormed(f) && |stored| < 4
    ensures var e := EditForm(f, text, sortOrder, Some(stored));
      WellFormed(e) && SubmitForm(e, examSelected) == Blocked
  {
    EditFormRows(f, text, sortOrder, Some(stored));
    var e := EditForm(f, text, sortOrder, Some(stored));
    assert Rows(e)[|stored|] == BlankSlot;
  }

  /** Saving an edit unchanged sends the stored answers back stored they are,
      when there are at least four, none blank, one correct, and the
      question text is not empty. */
  lemma EditResubmitKeepsAnswers(f: Form, text: string, sortOrder: Option<int>, stored: seq<Answer>)
    requires WellFormed(f) && text != "" && |stored| >= 4
    requires forall k :: 0 <= k < |stored| ==> !IsBlank(stored[k].text)
    requires exists k :: 0 <= k < |stored| && stored[k].isCorrect
    ensures WellFormed(EditForm(f, text, sortOrder, Some(stored)))
    ensures SubmitForm(EditForm(f, text, sortOrder, Some(stored)), true) ==
      Send(Body(text, sortOrder.GetOr(0), Mapped(Some(stored))))
  {
    EditFormRows(f, text, sortOrder, Some(stored));
    var e := EditForm(f, text, sortOrder, Some(stored));
    var rows := Rows(e);
    var mapped := Mapped(Some(stored));
    assert Padding(Some(stored)) == 0;
    assert rows == mapped;
    forall k | 0 <= k < |rows| ensures IsFilled(rows[k]) && rows[k].text != "" {
      assert rows[k].text == stored[k].text;
      BlankEmpty();
    }
    assert BrowserAccepts(e);
    FilterAll(rows, IsFilled);
    var k :| 0 <= k < |stored| && stored[k].isCorrect;
    assert rows[k].isCorrect;
    assert AnyCorrect(rows);
  }

  lemma BlankEmpty()
    ensures IsBlank("")
  {
  }

  /** A save returns the modal to a fresh form. */
  lemma SaveResets(f: Form, examSelected: bool)
    requires HeapBelow(f.heap, f.next)
    ensures WellFormed(AfterSave(f)) && Rows(AfterSave(f)) == [BlankSlot, BlankSlot, BlankSlot, BlankSlot]
    ensures AfterSave(f).questionText == "" && AfterSave(f).sortOrder == 0
  {
    FreshFormBlank(f.heap, f.next, examSelected);
  }
}
