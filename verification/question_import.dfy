/** The spreadsheet-row to question mapping of `importQuestionsFromExcel` in
    `backend/src/services/exam.service.ts`: alias lookup of the columns,
    trimming and dropping of unusable options, and the correct-answer
    code. */
module QuestionImport {
  import opened Wrappers
  import opened Text
  import opened Sheet
  import opened ChoiceColumns
  import Grouping
  import opened Authoring
  import Attempts
  import Domain

  const QuestionAliases: seq<string> := ["question_text", "question", "السؤال", "question"]
  const ChoiceAliases: seq<seq<string>> := [
    ["answer1", "it1", "A", "a"],
    ["answer2", "it2", "B", "b"],
    ["answer3", "it3", "C", "c"],
    ["answer4", "it4", "D", "d"]]
  const CorrectAliases: seq<string> := ["correct_answer", "correct", "الإجابة الصحيحه", "الإجابة الصحيحة"]

  /** An option survives when it is neither empty nor `'0'` after trimming. */
  predicate Kept(s: string) {
    s != [] && s != "0"
  }

  /** Option column `i` after `String(value).trim()`, `''` when missing. */
  function ChoiceText(row: Row, i: nat): string
    requires i < 4
  {
    match Pick(row, ChoiceAliases[i])
    case None => ""
    case Some(c) => Trim(CellString(c))
  }

  /** The four option columns, in order. */
  function RawChoices(row: Row): (raw: seq<string>)
    ensures |raw| == 4
  {
    seq(4, i requires 0 <= i < 4 => ChoiceText(row, i))
  }

  /** Column `i` of the option list is option column `i` of the row. */
  lemma RawChoiceAt(row: Row)
    ensures forall i :: 0 <= i < 4 ==> RawChoices(row)[i] == ChoiceText(row, i)
  {
  }

  /** The options that survive the filter, in column order. */
  function Choices(row: Row): seq<string> {
    Grouping.Filter(RawChoices(row), Kept)
  }

  /** The option number the row's correct-answer code names. */
  function CorrectIndex(row: Row): int {
    CorrectIndexOf(PickString(row, CorrectAliases))
  }

  /** The row mapping exactly as the source writes it: the question cell,
      the trimmed option columns and the code, put together by
      `DraftAsWritten`. */
  function ImportRowAsWritten(row: Row): Option<QuestionDraft> {
    DraftAsWritten(Pick(row, QuestionAliases), RawChoices(row), CorrectIndex(row))
  }

  /** A row without question text or with fewer than two surviving options
      is skipped; otherwise the surviving options are stored in order and
      the one at position `ci` of the filtered list is marked. */
  function DraftAsWritten(q: Option<Cell>, raw: seq<string>, ci: int): Option<QuestionDraft> {
    if q.None? || |Grouping.Filter(raw, Kept)| < 2 then None
    else Some(QuestionDraft(CellString(q.value), MarkByPosition(Grouping.Filter(raw, Kept), ci)))
  }

  /** The corrected mapping from the same parts: the same question, options
      and skip rule, but the option marked correct is the one that came from
      column `ci`. */
  function DraftByColumn(q: Option<Cell>, raw: seq<string>, ci: int): Option<QuestionDraft> {
    if q.None? || |Grouping.Filter(raw, Kept)| < 2 then None
    else Some(QuestionDraft(CellString(q.value), MarkByColumn(raw, Kept, ci)))
  }

  /** The row mapping with the code read against the spreadsheet columns. */
  function ImportRow(row: Row): Option<QuestionDraft> {
    DraftByColumn(Pick(row, QuestionAliases), RawChoices(row), CorrectIndex(row))
  }

  lemma DraftAsWrittenShape(q: Option<Cell>, raw: seq<string>, ci: int)
    ensures var r := DraftAsWritten(q, raw, ci);
      && (r.None? <==> q.None? || |Grouping.Filter(raw, Kept)| < 2)
      && (r.Some? ==>
        && r.value.text == CellString(q.value)
        && |r.value.answers| == |Grouping.Filter(raw, Kept)| >= 2
        && (forall i :: 0 <= i < |r.value.answers| ==>
              r.value.answers[i].text == Grouping.Filter(raw, Kept)[i] && Kept(r.value.answers[i].text)
              && r.value.answers[i].sortOrder == i)
        && (forall i :: 0 <= i < |r.value.answers| ==> (r.value.answers[i].isCorrect <==> i == ci)))
  {
  }

  lemma DraftByColumnShape(q: Option<Cell>, raw: seq<string>, ci: int)
    ensures var r := DraftByColumn(q, raw, ci);
      && (r.None? <==> q.None? || |Grouping.Filter(raw, Kept)| < 2)
      && (r.Some? ==>
        && r.value.text == CellString(q.value)
        && |r.value.answers| == |Grouping.Filter(raw, Kept)| >= 2
        && (forall i :: 0 <= i < |r.value.answers| ==>
              r.value.answers[i].text == Grouping.Filter(raw, Kept)[i] && r.value.answers[i].sortOrder == i)
        && AtMostOneCorrect(r.value.answers))
  {
    MarkByColumnShape(raw, Kept, ci);
  }

  /** The mapping as written skips a row exactly when it has no question text
      or fewer than two usable options; otherwise it stores the question
      text, the usable options in column order numbered from 0, and marks the
      option at position `CorrectIndex(row)` of that list. */
  lemma ImportRowAsWrittenShape(row: Row)
    ensures var r := ImportRowAsWritten(row);
      && (r.None? <==> Pick(row, QuestionAliases).None? || |Choices(row)| < 2)
      && (r.Some? ==>
        && r.value.text == PickString(row, QuestionAliases)
        && |r.value.answers| >= 2
        && (forall i :: 0 <= i < |r.value.answers| ==>
              Kept(r.value.answers[i].text) && r.value.answers[i].sortOrder == i)
        && (forall i :: 0 <= i < |r.value.answers| ==>
              (r.value.answers[i].isCorrect <==> i == CorrectIndex(row))))
  {
    DraftAsWrittenShape(Pick(row, QuestionAliases), RawChoices(row), CorrectIndex(row));
  }

  /** The corrected mapping skips the same rows and stores the same question
      and options, and marks at most one option. */
  lemma ImportRowShape(row: Row)
    ensures var r := ImportRow(row);
      && (r.None? <==> Pick(row, QuestionAliases).None? || |Choices(row)| < 2)
      && (r.Some? ==>
        && r.value.text == PickString(row, QuestionAliases)
        && |r.value.answers| == |Choices(row)| >= 2
        && (forall i :: 0 <= i < |r.value.answers| ==>
              r.value.answers[i].text == Choices(row)[i] && r.value.answers[i].sortOrder == i)
        && AtMostOneCorrect(r.value.answers))
  {
    DraftByColumnShape(Pick(row, QuestionAliases), RawChoices(row), CorrectIndex(row));
  }

  /** The mapping as written marks at most one option, and exactly one when
      the code's index falls inside the filtered list. */
  lemma AsWrittenMarksAtMostOne(row: Row)
    requires ImportRowAsWritten(row).Some?
    ensures AtMostOneCorrect(ImportRowAsWritten(row).value.answers)
    ensures (exists i :: 0 <= i < |ImportRowAsWritten(row).value.answers|
               && ImportRowAsWritten(row).value.answers[i].isCorrect)
        <==> 0 <= CorrectIndex(row) < |Choices(row)|
  {
    assert ImportRowAsWritten(row).value.answers == MarkByPosition(Choices(row), CorrectIndex(row));
    MarkByPositionMarksOne(Choices(row), CorrectIndex(row));
  }

  /** The two mappings accept the same rows and store the same question text
      and option texts; they differ only in which option is marked. */
  lemma ImportRowAgreesOnContent(row: Row)
    ensures ImportRow(row).None? <==> ImportRowAsWritten(row).None?
    ensures ImportRow(row).Some? ==>
      && ImportRow(row).value.text == ImportRowAsWritten(row).value.text
      && |ImportRow(row).value.answers| == |ImportRowAsWritten(row).value.answers|
      && forall i :: 0 <= i < |ImportRow(row).value.answers| ==>
           ImportRow(row).value.answers[i].text == ImportRowAsWritten(row).value.answers[i].text
           && ImportRow(row).value.answers[i].sortOrder == ImportRowAsWritten(row).value.answers[i].sortOrder
  {
    var q := Pick(row, QuestionAliases);
    var raw := RawChoices(row);
    var ci := CorrectIndex(row);
    assert ImportRow(row) == DraftByColumn(q, raw, ci);
    assert ImportRowAsWritten(row) == DraftAsWritten(q, raw, ci);
    MarkingsAgreeOnTexts(raw, Kept, ci);
  }

  /** What the corrected mapping promises: when the code names a column whose
      option survived, exactly that option is correct; when it names a
      dropped column or none at all, no option is correct. */
  lemma ImportRowMarksNamedColumn(row: Row)
    requires ImportRow(row).Some?
    ensures
      var ci := CorrectIndex(row);
      var raw := RawChoices(row);
      var answers := ImportRow(row).value.answers;
      && AtMostOneCorrect(answers)
      && (0 <= ci < 4 && Kept(raw[ci]) ==>
            exists i :: 0 <= i < |answers| && answers[i].isCorrect && answers[i].text == raw[ci])
      && (!(0 <= ci < 4 && Kept(raw[ci])) ==> forall i :: 0 <= i < |answers| ==> !answers[i].isCorrect)
  {
    var raw := RawChoices(row);
    assert ImportRow(row).value.answers == MarkByColumn(raw, Kept, CorrectIndex(row));
    MarkByColumnShape(raw, Kept, CorrectIndex(row));
    MarkByColumnMarksNamed(raw, Kept, CorrectIndex(row));
  }

  /** A row of the shape of the defect: its second column is unusable and its
      code is `C`. The mapping as written marks the option of column D; the
      corrected one marks the option of column C. */
  lemma RowWithSecondDropped(row: Row)
    requires Pick(row, QuestionAliases).Some?
    requires SecondDropped(RawChoices(row), Kept)
    requires CorrectIndex(row) == 2
    ensures ImportRowAsWritten(row).Some? && ImportRow(row).Some?
    ensures |ImportRowAsWritten(row).value.answers| == 3 && |ImportRow(row).value.answers| == 3
    ensures ImportRowAsWritten(row).value.answers[2].text == RawChoices(row)[3]
    ensures ImportRowAsWritten(row).value.answers[2].isCorrect
    ensures ImportRow(row).value.answers[1].text == RawChoices(row)[2]
    ensures ImportRow(row).value.answers[1].isCorrect
  {
    AsWrittenShifts(row);
    CorrectedKeepsColumn(row);
  }

  lemma AsWrittenShifts(row: Row)
    requires Pick(row, QuestionAliases).Some?
    requires SecondDropped(RawChoices(row), Kept)
    requires CorrectIndex(row) == 2
    ensures ImportRowAsWritten(row).Some? && |ImportRowAsWritten(row).value.answers| == 3
    ensures ImportRowAsWritten(row).value.answers[2].text == RawChoices(row)[3]
    ensures ImportRowAsWritten(row).value.answers[2].isCorrect
  {
    var q := Pick(row, QuestionAliases);
    var raw := RawChoices(row);
    ShiftedDraft(q, raw);
    assert ImportRowAsWritten(row) == DraftAsWritten(q, raw, 2);
  }

  lemma ShiftedDraft(q: Option<Cell>, raw: seq<string>)
    requires q.Some? && SecondDropped(raw, Kept)
    ensures DraftAsWritten(q, raw, 2).Some? && |DraftAsWritten(q, raw, 2).value.answers| == 3
    ensures DraftAsWritten(q, raw, 2).value.answers[2].text == raw[3]
    ensures DraftAsWritten(q, raw, 2).value.answers[2].isCorrect
  {
    SecondDroppedCompacts(raw, Kept);
    CompactionShiftsCorrectAnswer(raw, Kept);
  }

  lemma CorrectedKeepsColumn(row: Row)
    requires Pick(row, QuestionAliases).Some?
    requires SecondDropped(RawChoices(row), Kept)
    requires CorrectIndex(row) == 2
    ensures ImportRow(row).Some? && |ImportRow(row).value.answers| == 3
    ensures ImportRow(row).value.answers[1].text == RawChoices(row)[2]
    ensures ImportRow(row).value.answers[1].isCorrect
  {
    var q := Pick(row, QuestionAliases);
    var raw := RawChoices(row);
    ColumnDraft(q, raw);
    assert ImportRow(row) == DraftByColumn(q, raw, 2);
  }

  lemma ColumnDraft(q: Option<Cell>, raw: seq<string>)
    requires q.Some? && SecondDropped(raw, Kept)
    ensures DraftByColumn(q, raw, 2).Some? && |DraftByColumn(q, raw, 2).value.answers| == 3
    ensures DraftByColumn(q, raw, 2).value.answers[1].text == raw[2]
    ensures DraftByColumn(q, raw, 2).value.answers[1].isCorrect
  {
    SecondDroppedCompacts(raw, Kept);
    CorrectedMarksNamedOption(raw, Kept);
  }

  /** A sheet row with question `q`, options `x`, (empty), `y`, `z` under the
      headers A-D and the correct answer `C`. */
  const ExampleRow: Row := map["question" := Str("q"), "A" := Str("x"), "B" := Str(""), "C" := Str("y"),
                               "D" := Str("z"), "correct" := Str("C")]

  lemma ExampleQuestionCell()
    ensures Pick(ExampleRow, QuestionAliases) == Some(Str("q"))
    ensures Pick(ExampleRow, CorrectAliases) == Some(Str("C"))
  {
    assert !Present(ExampleRow, QuestionAliases[0]);
    PickFirst(ExampleRow, QuestionAliases, 1);
    assert !Present(ExampleRow, CorrectAliases[0]);
    PickFirst(ExampleRow, CorrectAliases, 1);
  }

  lemma ExampleChoiceA()
    ensures ChoiceText(ExampleRow, 0) == "x"
  {
    ExampleLacksAliases();
    PickFirst(ExampleRow, ChoiceAliases[0], 2);
    OneCharTrimmed('x');
  }

  /** The aliases in front of the letter columns are no headers of
      `ExampleRow`. */
  lemma ExampleLacksAliases()
    ensures !Present(ExampleRow, "answer1") && !Present(ExampleRow, "it1")
    ensures !Present(ExampleRow, "answer3") && !Present(ExampleRow, "it3")
  {
    assert ExampleRow.Keys == {"question", "A", "B", "C", "D", "correct"};
    assert "answer1"[0] != "correct"[0] && "answer3"[0] != "correct"[0];
  }

  lemma ExampleChoiceB()
    ensures ChoiceText(ExampleRow, 1) == ""
  {
    assert !Present(ExampleRow, "answer2") && !Present(ExampleRow, "it2");
    assert !Present(ExampleRow, "B") && !Present(ExampleRow, "b");
  }

  lemma ExampleChoiceC()
    ensures ChoiceText(ExampleRow, 2) == "y"
  {
    ExampleLacksAliases();
    PickFirst(ExampleRow, ChoiceAliases[2], 2);
    OneCharTrimmed('y');
  }

  lemma ExampleChoiceD()
    ensures ChoiceText(ExampleRow, 3) == "z"
  {
    assert !Present(ExampleRow, "answer4") && !Present(ExampleRow, "it4");
    PickFirst(ExampleRow, ChoiceAliases[3], 2);
    OneCharTrimmed('z');
  }

  lemma ExampleCode()
    ensures CorrectIndex(ExampleRow) == 2
  {
    ExampleQuestionCell();
    LetterC();
    CodeCell(ExampleRow, 'C');
  }

  /** The letter `C` is no space and names option 2. */
  lemma LetterC()
    ensures !IsSpace('C') && TableIndex(UpperChar('C')) == Some(2)
  {
  }

  /** A row whose code cell is one letter of the table reads through it. */
  lemma CodeCell(row: Row, c: char)
    requires Pick(row, CorrectAliases) == Some(Str([c]))
    requires !IsSpace(c) && TableIndex(UpperChar(c)).Some?
    ensures CorrectIndex(row) == TableIndex(UpperChar(c)).value
  {
    assert PickString(row, CorrectAliases) == [c];
    OneCharCode(c);
  }

  /** `ExampleRow` has the shape of the defect, and its options of columns C
      and D differ: the mapping as written stores `z` as the correct answer
      where the code names `y`. */
  lemma ExampleRowShowsShift()
    ensures Pick(ExampleRow, QuestionAliases).Some?
    ensures RawChoices(ExampleRow) == ["x", "", "y", "z"]
    ensures SecondDropped(RawChoices(ExampleRow), Kept)
    ensures CorrectIndex(ExampleRow) == 2
  {
    ExampleQuestionCell();
    ExampleRawChoices();
    ExampleColumnsDropSecond(RawChoices(ExampleRow));
    ExampleCode();
  }

  lemma ExampleColumnsDropSecond(raw: seq<string>)
    requires raw == ["x", "", "y", "z"]
    ensures SecondDropped(raw, Kept)
  {
  }

  lemma ExampleRawChoices()
    ensures RawChoices(ExampleRow) == ["x", "", "y", "z"]
  {
    ExampleChoiceA();
    ExampleChoiceB();
    ExampleChoiceC();
    ExampleChoiceD();
    RawChoiceAt(ExampleRow);
    FourColumns(RawChoices(ExampleRow), "x", "", "y", "z");
  }

  /** What a stored question needs: two options at least, at most one of
      them correct. */
  predicate Usable(d: QuestionDraft) {
    |d.answers| >= 2 && AtMostOneCorrect(d.answers)
  }

  /** The imported questions of a sheet as the source builds them, in row
      order, skipped rows left out: every row goes through the mapping as
      written. */
  function ImportRows(rows: seq<Row>): (r: seq<QuestionDraft>)
    ensures |r| <= |rows|
    ensures forall i :: 0 <= i < |r| ==> Usable(r[i])
  {
    forall row: Row | ImportRowAsWritten(row).Some? ensures Usable(ImportRowAsWritten(row).value) {
      ImportRowAsWrittenShape(row);
      AsWrittenMarksAtMostOne(row);
    }
    CollectKeeps(rows, ImportRowAsWritten, Usable);
    Collect(rows, ImportRowAsWritten)
  }

  /** The corrected sheet: every row goes through the mapping that marks the
      option of the named column. */
  function ImportRowsByColumn(rows: seq<Row>): (r: seq<QuestionDraft>)
    ensures |r| <= |rows|
    ensures forall i :: 0 <= i < |r| ==> Usable(r[i])
  {
    forall row: Row | ImportRow(row).Some? ensures Usable(ImportRow(row).value) {
      ImportRowShape(row);
    }
    CollectKeeps(rows, ImportRow, Usable);
    Collect(rows, ImportRow)
  }

  /** `importQuestionsFromExcel`: 404 for an unknown exam; otherwise the
      questions the sheet yields, to be added to the exam. */
  function ImportQuestions(exams: seq<Domain.Exam>, examId: int, rows: seq<Row>)
    : (r: Outcome<seq<QuestionDraft>>)
    ensures r.Err? <==> Attempts.FindExam(exams, examId).Err?
    ensures r.Err? ==> r.error == Attempts.ExamNotFound
    ensures r.Ok? ==> |r.value| <= |rows|
    ensures r.Ok? ==> forall i :: 0 <= i < |r.value| ==> Usable(r.value[i])
    ensures r.Ok? ==> r.value == ImportRows(rows)
  {
    match Attempts.FindExam(exams, examId)
    case Err(e) => Err(e)
    case Ok(_) => Ok(ImportRows(rows))
  }

  /** The same route with the corrected sheet. */
  function ImportQuestionsByColumn(exams: seq<Domain.Exam>, examId: int, rows: seq<Row>)
    : (r: Outcome<seq<QuestionDraft>>)
    ensures r.Err? <==> Attempts.FindExam(exams, examId).Err?
    ensures r.Err? ==> r.error == Attempts.ExamNotFound
    ensures r.Ok? ==> |r.value| <= |rows|
    ensures r.Ok? ==> forall i :: 0 <= i < |r.value| ==> Usable(r.value[i])
    ensures r.Ok? ==> r.value == ImportRowsByColumn(rows)
  {
    match Attempts.FindExam(exams, examId)
    case Err(e) => Err(e)
    case Ok(_) => Ok(ImportRowsByColumn(rows))
  }

  /** Rows are imported independently and in order: importing `a + b`
      imports `a`, then `b`. */
  lemma ImportRowsConcat(a: seq<Row>, b: seq<Row>)
    ensures ImportRows(a + b) == ImportRows(a) + ImportRows(b)
  {
    CollectConcat(a, b, ImportRowAsWritten);
  }

  /** The corrected sheet imports its rows independently and in order too. */
  lemma ImportRowsByColumnConcat(a: seq<Row>, b: seq<Row>)
    ensures ImportRowsByColumn(a + b) == ImportRowsByColumn(a) + ImportRowsByColumn(b)
  {
    CollectConcat(a, b, ImportRow);
  }

  /** Every option column of the row survives the filter. */
  predicate NoColumnDropped(row: Row) {
    forall c :: 0 <= c < 4 ==> Kept(RawChoices(row)[c])
  }

  /** Without a dropped column the two row mappings agree. */
  lemma RowsAgreeWithoutGap(row: Row)
    requires NoColumnDropped(row)
    ensures ImportRowAsWritten(row) == ImportRow(row)
  {
    NoGapNoShift(RawChoices(row), Kept, CorrectIndex(row));
  }

  /** The sheet as written and the corrected sheet store the same questions
      when no row drops an option column: the defect needs a gap. */
  lemma SheetsAgreeWithoutGap(rows: seq<Row>)
    requires forall k :: 0 <= k < |rows| ==> NoColumnDropped(rows[k])
    ensures ImportRows(rows) == ImportRowsByColumn(rows)
  {
    forall k | 0 <= k < |rows| ensures ImportRowAsWritten(rows[k]) == ImportRow(rows[k]) {
      RowsAgreeWithoutGap(rows[k]);
    }
    CollectSame(rows, ImportRowAsWritten, ImportRow);
  }

  /** Whatever the sheet, both versions keep the same rows: the same number
      of questions, with the same question texts. */
  lemma SheetsKeepSameRows(rows: seq<Row>)
    ensures |ImportRows(rows)| == |ImportRowsByColumn(rows)|
    ensures forall i :: 0 <= i < |ImportRows(rows)| ==> ImportRows(rows)[i].text == ImportRowsByColumn(rows)[i].text
  {
    forall row: Row ensures ImportRowAsWritten(row).None? <==> ImportRow(row).None?
      ensures ImportRowAsWritten(row).Some? ==> ImportRowAsWritten(row).value.text == ImportRow(row).value.text
    {
      ImportRowAgreesOnContent(row);
    }
    CollectSameKey(rows, ImportRowAsWritten, ImportRow, (d: QuestionDraft) => d.text);
  }
}
