/** The offline importer `backend/scripts/bulk-import-questions.ts`: every
    `.xlsx` file of a subject folder becomes an exam of that subject, and
    every usable row of its first sheet a question. The folder walk, the
    workbook reader and the database are replaced by plain inputs and an
    in-memory catalogue. */
module BulkImport {
  import opened Wrappers
  import opened Text
  import opened Sheet
  import opened ChoiceColumns
  import Grouping
  import opened Authoring

  const QuestionAliases: seq<string> := ["question_text", "question", "قائمة الأسئلة", "السؤال", "السؤال "]
  const ChoiceAliases: seq<seq<string>> := [
    ["answer1", "it1", "الاختيار الأول", "أ", "A"],
    ["answer2", "it2", "الاختيار الثاني", "ب", "B"],
    ["answer3", "it3", "الاختيار الثالث", "ج", "C"],
    ["answer4", "it4", "الاختيار الرابع", "د", "D"]]
  const CorrectAliases: seq<string> := ["correct_answer", "correct", "الإجابة الصحيحة", "الإجابة", "الإجابة الصحيحه", "الاجابة الصحيحة"]

  /** A truthy cell: `[a1, a2, a3, a4].filter(Boolean)` keeps exactly these,
      and a truthy cell never reads as `''`. */
  predicate NonEmpty(s: string) {
    s != []
  }

  /** Option column `i` as `String(value)`, untrimmed; `''` when the cell is
      missing or falsy. */
  function ChoiceText(row: Row, i: nat): (r: string)
    requires i < 4
    ensures NonEmpty(r) <==> Pick(row, ChoiceAliases[i]).Some?
  {
    PickString(row, ChoiceAliases[i])
  }

  function RawChoices(row: Row): (raw: seq<string>)
    ensures |raw| == 4
  {
    seq(4, i requires 0 <= i < 4 => ChoiceText(row, i))
  }

  /** Column `i` of the option list is option column `i` of the row. */
  lemma RawChoiceAt(row: Row)
    ensures forall i :: 0 <= i < 4 ==> RawChoices(row)[i] == ChoiceText(row, i)
  {
  }

  /** The truthy options, in column order. */
  function Choices(row: Row): seq<string> {
    Grouping.Filter(RawChoices(row), NonEmpty)
  }

  /** The option number the row's correct-answer code names. */
  function CorrectIndex(row: Row): int {
    CorrectIndexOf(PickString(row, CorrectAliases))
  }

  /** The row mapping exactly as the script writes it: the question cell,
      the option columns and the code, put together by `DraftAsWritten`. */
  function MapRowAsWritten(row: Row): Option<QuestionDraft> {
    DraftAsWritten(Pick(row, QuestionAliases), RawChoices(row), CorrectIndex(row))
  }

  /** A row without question text or without a first option is skipped;
      otherwise the truthy options are stored in order and the one at
      position `ci` of the filtered list is marked. */
  function DraftAsWritten(q: Option<Cell>, raw: seq<string>, ci: int): Option<QuestionDraft> {
    if q.None? || |raw| == 0 || !NonEmpty(raw[0]) then None
    else Some(QuestionDraft(CellString(q.value), MarkByPosition(Grouping.Filter(raw, NonEmpty), ci)))
  }

  /** The corrected mapping from the same parts: the same question, options
      and skip rule, but the option marked correct is the one that came from
      column `ci`. */
  function DraftByColumn(q: Option<Cell>, raw: seq<string>, ci: int): Option<QuestionDraft> {
    if q.None? || |raw| == 0 || !NonEmpty(raw[0]) then None
    else Some(QuestionDraft(CellString(q.value), MarkByColumn(raw, NonEmpty, ci)))
  }

  /** The row mapping with the code read against the spreadsheet columns. */
  function MapRow(row: Row): Option<QuestionDraft> {
    DraftByColumn(Pick(row, QuestionAliases), RawChoices(row), CorrectIndex(row))
  }

  /** A kept first column leads the filtered list. */
  lemma FirstColumnLeads(raw: seq<string>)
    requires |raw| > 0 && NonEmpty(raw[0])
    ensures |Grouping.Filter(raw, NonEmpty)| >= 1 && Grouping.Filter(raw, NonEmpty)[0] == raw[0]
  {
    CompactReadsKeptColumns(raw, NonEmpty);
    var cols := KeptColumns(raw, NonEmpty);
    assert 0 in cols;
  }

  lemma DraftAsWrittenShape(q: Option<Cell>, raw: seq<string>, ci: int)
    ensures var r := DraftAsWritten(q, raw, ci);
      && (r.None? <==> q.None? || |raw| == 0 || !NonEmpty(raw[0]))
      && (r.Some? ==>
        && r.value.text == CellString(q.value)
        && 1 <= |r.value.answers| == |Grouping.Filter(raw, NonEmpty)| <= |raw|
        && r.value.answers[0].text == raw[0]
        && (forall i :: 0 <= i < |r.value.answers| ==>
              r.value.answers[i].text == Grouping.Filter(raw, NonEmpty)[i] && NonEmpty(r.value.answers[i].text)
              && r.value.answers[i].sortOrder == i)
        && (forall i :: 0 <= i < |r.value.answers| ==> (r.value.answers[i].isCorrect <==> i == ci)))
  {
    if q.Some? && |raw| > 0 && NonEmpty(raw[0]) {
      FirstColumnLeads(raw);
    }
  }

  lemma DraftByColumnShape(q: Option<Cell>, raw: seq<string>, ci: int)
    ensures var r := DraftByColumn(q, raw, ci);
      && (r.None? <==> q.None? || |raw| == 0 || !NonEmpty(raw[0]))
      && (r.Some? ==>
        && r.value.text == CellString(q.value)
        && 1 <= |r.value.answers| == |Grouping.Filter(raw, NonEmpty)|
        && (forall i :: 0 <= i < |r.value.answers| ==>
              r.value.answers[i].text == Grouping.Filter(raw, NonEmpty)[i] && r.value.answers[i].sortOrder == i)
        && AtMostOneCorrect(r.value.answers))
  {
    MarkByColumnShape(raw, NonEmpty, ci);
    if q.Some? && |raw| > 0 && NonEmpty(raw[0]) {
      FirstColumnLeads(raw);
    }
  }

  /** The script skips a row exactly when it has no question text or no
      first option; otherwise it stores the question text and the truthy
      options in column order, the first option first, numbered from 0, and
      marks the option at position `CorrectIndex(row)` of that list. */
  lemma MapRowAsWrittenShape(row: Row)
    ensures var r := MapRowAsWritten(row);
      && (r.None? <==> Pick(row, QuestionAliases).None? || Pick(row, ChoiceAliases[0]).None?)
      && (r.Some? ==>
        && r.value.text == PickString(row, QuestionAliases)
        && 1 <= |r.value.answers| <= 4
        && r.value.answers[0].text == ChoiceText(row, 0)
        && (forall i :: 0 <= i < |r.value.answers| ==>
              NonEmpty(r.value.answers[i].text) && r.value.answers[i].sortOrder == i)
        && (forall i :: 0 <= i < |r.value.answers| ==>
              (r.value.answers[i].isCorrect <==> i == CorrectIndex(row))))
  {
    RawChoiceAt(row);
    DraftAsWrittenShape(Pick(row, QuestionAliases), RawChoices(row), CorrectIndex(row));
  }

  /** The corrected mapping skips the same rows and stores the same question
      and options, and marks at most one option. */
  lemma MapRowShape(row: Row)
    ensures var r := MapRow(row);
      && (r.None? <==> Pick(row, QuestionAliases).None? || Pick(row, ChoiceAliases[0]).None?)
      && (r.Some? ==>
        && r.value.text == PickString(row, QuestionAliases)
        && |r.value.answers| == |Choices(row)| >= 1
        && (forall i :: 0 <= i < |r.value.answers| ==>
              r.value.answers[i].text == Choices(row)[i] && r.value.answers[i].sortOrder == i)
        && AtMostOneCorrect(r.value.answers))
  {
    RawChoiceAt(row);
    DraftByColumnShape(Pick(row, QuestionAliases), RawChoices(row), CorrectIndex(row));
  }

  /** The two mappings accept the same rows and store the same texts; they
      differ only in which option is marked. */
  lemma MapRowAgreesOnContent(row: Row)
    ensures MapRow(row).None? <==> MapRowAsWritten(row).None?
    ensures MapRow(row).Some? ==>
      && MapRow(row).value.text == MapRowAsWritten(row).value.text
      && |MapRow(row).value.answers| == |MapRowAsWritten(row).value.answers|
      && forall i :: 0 <= i < |MapRow(row).value.answers| ==>
           MapRow(row).value.answers[i].text == MapRowAsWritten(row).value.answers[i].text
  {
    var q := Pick(row, QuestionAliases);
    var raw := RawChoices(row);
    var ci := CorrectIndex(row);
    assert MapRow(row) == DraftByColumn(q, raw, ci);
    assert MapRowAsWritten(row) == DraftAsWritten(q, raw, ci);
    MarkingsAgreeOnTexts(raw, NonEmpty, ci);
  }

  /** The script as written marks at most one option, and exactly one when
      the code's index falls inside the filtered list. */
  lemma AsWrittenMarksAtMostOne(row: Row)
    requires MapRowAsWritten(row).Some?
    ensures AtMostOneCorrect(MapRowAsWritten(row).value.answers)
    ensures (exists i :: 0 <= i < |MapRowAsWritten(row).value.answers|
               && MapRowAsWritten(row).value.answers[i].isCorrect)
        <==> 0 <= CorrectIndex(row) < |Choices(row)|
  {
    assert MapRowAsWritten(row).value.answers == MarkByPosition(Choices(row), CorrectIndex(row));
    MarkByPositionMarksOne(Choices(row), CorrectIndex(row));
  }

  /** The corrected mapping marks the option of the named column when that
      column is truthy, and nothing otherwise. */
  lemma MapRowMarksNamedColumn(row: Row)
    requires MapRow(row).Some?
    ensures
      var ci := CorrectIndex(row);
      var raw := RawChoices(row);
      var answers := MapRow(row).value.answers;
      && AtMostOneCorrect(answers)
      && (0 <= ci < 4 && NonEmpty(raw[ci]) ==>
            exists i :: 0 <= i < |answers| && answers[i].isCorrect && answers[i].text == raw[ci])
      && (!(0 <= ci < 4 && NonEmpty(raw[ci])) ==> forall i :: 0 <= i < |answers| ==> !answers[i].isCorrect)
  {
    var raw := RawChoices(row);
    assert MapRow(row).value.answers == MarkByColumn(raw, NonEmpty, CorrectIndex(row));
    MarkByColumnShape(raw, NonEmpty, CorrectIndex(row));
    MarkByColumnMarksNamed(raw, NonEmpty, CorrectIndex(row));
  }

  /** A row whose second option is missing and whose code is `C`: the script
      marks the option of column D, the corrected mapping that of column C. */
  lemma RowWithSecondDropped(row: Row)
    requires Pick(row, QuestionAliases).Some?
    requires SecondDropped(RawChoices(row), NonEmpty)
    requires CorrectIndex(row) == 2
    ensures MapRowAsWritten(row).Some? && MapRow(row).Some?
    ensures |MapRowAsWritten(row).value.answers| == 3 && |MapRow(row).value.answers| == 3
    ensures MapRowAsWritten(row).value.answers[2].text == RawChoices(row)[3]
    ensures MapRowAsWritten(row).value.answers[2].isCorrect
    ensures MapRow(row).value.answers[1].text == RawChoices(row)[2]
    ensures MapRow(row).value.answers[1].isCorrect
  {
    AsWrittenShifts(row);
    CorrectedKeepsColumn(row);
  }

  lemma AsWrittenShifts(row: Row)
    requires Pick(row, QuestionAliases).Some?
    requires SecondDropped(RawChoices(row), NonEmpty)
    requires CorrectIndex(row) == 2
    ensures MapRowAsWritten(row).Some? && |MapRowAsWritten(row).value.answers| == 3
    ensures MapRowAsWritten(row).value.answers[2].text == RawChoices(row)[3]
    ensures MapRowAsWritten(row).value.answers[2].isCorrect
  {
    ShiftedDraft(Pick(row, QuestionAliases), RawChoices(row));
  }

  lemma ShiftedDraft(q: Option<Cell>, raw: seq<string>)
    requires q.Some? && SecondDropped(raw, NonEmpty)
    ensures DraftAsWritten(q, raw, 2).Some? && |DraftAsWritten(q, raw, 2).value.answers| == 3
    ensures DraftAsWritten(q, raw, 2).value.answers[2].text == raw[3]
    ensures DraftAsWritten(q, raw, 2).value.answers[2].isCorrect
  {
    SecondDroppedCompacts(raw, NonEmpty);
    CompactionShiftsCorrectAnswer(raw, NonEmpty);
  }

  lemma CorrectedKeepsColumn(row: Row)
    requires Pick(row, QuestionAliases).Some?
    requires SecondDropped(RawChoices(row), NonEmpty)
    requires CorrectIndex(row) == 2
    ensures MapRow(row).Some? && |MapRow(row).value.answers| == 3
    ensures MapRow(row).value.answers[1].text == RawChoices(row)[2]
    ensures MapRow(row).value.answers[1].isCorrect
  {
    ColumnDraft(Pick(row, QuestionAliases), RawChoices(row));
  }

  lemma ColumnDraft(q: Option<Cell>, raw: seq<string>)
    requires q.Some? && SecondDropped(raw, NonEmpty)
    ensures DraftByColumn(q, raw, 2).Some? && |DraftByColumn(q, raw, 2).value.answers| == 3
    ensures DraftByColumn(q, raw, 2).value.answers[1].text == raw[2]
    ensures DraftByColumn(q, raw, 2).value.answers[1].isCorrect
  {
    SecondDroppedCompacts(raw, NonEmpty);
    CorrectedMarksNamedOption(raw, NonEmpty);
  }

  /** A sheet row with question `q`, options `x`, (none), `y`, `z` under the
      headers A-D and the correct answer `C`. */
  const ExampleRow: Row := map["question" := Str("q"), "A" := Str("x"), "C" := Str("y"),
                               "D" := Str("z"), "correct" := Str("C")]

  lemma ExampleCells()
    ensures Pick(ExampleRow, QuestionAliases).Some?
    ensures Pick(ExampleRow, CorrectAliases) == Some(Str("C"))
  {
    assert !Present(ExampleRow, QuestionAliases[0]);
    PickFirst(ExampleRow, QuestionAliases, 1);
    assert !Present(ExampleRow, CorrectAliases[0]);
    PickFirst(ExampleRow, CorrectAliases, 1);
  }

  lemma ExampleChoiceA()
    ensures ChoiceText(ExampleRow, 0) == "x"
  {
    var keys := ChoiceAliases[0];
    assert !Present(ExampleRow, keys[0]) && !Present(ExampleRow, keys[1]);
    assert !Present(ExampleRow, keys[2]) && !Present(ExampleRow, keys[3]);
    PickFirst(ExampleRow, keys, 4);
  }

  lemma ExampleChoiceB()
    ensures ChoiceText(ExampleRow, 1) == ""
  {
    var keys := ChoiceAliases[1];
    assert !Present(ExampleRow, keys[0]) && !Present(ExampleRow, keys[1]);
    assert !Present(ExampleRow, keys[2]) && !Present(ExampleRow, keys[3]);
    assert !Present(ExampleRow, keys[4]);
  }

  lemma ExampleChoiceC()
    ensures ChoiceText(ExampleRow, 2) == "y"
  {
    var keys := ChoiceAliases[2];
    assert !Present(ExampleRow, keys[0]) && !Present(ExampleRow, keys[1]);
    assert !Present(ExampleRow, keys[2]) && !Present(ExampleRow, keys[3]);
    PickFirst(ExampleRow, keys, 4);
  }

  lemma ExampleChoiceD()
    ensures ChoiceText(ExampleRow, 3) == "z"
  {
    var keys := ChoiceAliases[3];
    assert !Present(ExampleRow, keys[0]) && !Present(ExampleRow, keys[1]);
    assert !Present(ExampleRow, keys[2]) && !Present(ExampleRow, keys[3]);
    PickFirst(ExampleRow, keys, 4);
  }

  lemma ExampleCode()
    ensures CorrectIndex(ExampleRow) == 2
  {
    ExampleCells();
    LetterC();
    CodeCell(ExampleRow, 'C');
  }

  /** The letter `C` is no space and names option 2. */
  lemma LetterC()
    ensures !IsSpace('C') && TableIndex(UpperChar('C')) == Some(2)
  {
  }

  /** A row whose code cell is one letter of the table reads through it. */
  lemma CodeCell(row: Row, c: char)
    requires Pick(row, CorrectAliases) == Some(Str([c]))
    requires !IsSpace(c) && TableIndex(UpperChar(c)).Some?
    ensures CorrectIndex(row) == TableIndex(UpperChar(c)).value
  {
    assert PickString(row, CorrectAliases) == [c];
    OneCharCode(c);
  }

  /** `ExampleRow` has the shape of the defect, and its options of columns C
      and D differ: the script stores `z` as the correct answer where the
      code names `y`. */
  lemma ExampleRowShowsShift()
    ensures Pick(ExampleRow, QuestionAliases).Some?
    ensures RawChoices(ExampleRow) == ["x", "", "y", "z"]
    ensures SecondDropped(RawChoices(ExampleRow), NonEmpty)
    ensures CorrectIndex(ExampleRow) == 2
  {
    ExampleCells();
    ExampleRawChoices();
    ExampleColumnsDropSecond(RawChoices(ExampleRow));
    ExampleCode();
  }

  lemma ExampleColumnsDropSecond(raw: seq<string>)
    requires raw == ["x", "", "y", "z"]
    ensures SecondDropped(raw, NonEmpty)
  {
  }

  lemma ExampleRawChoices()
    ensures RawChoices(ExampleRow) == ["x", "", "y", "z"]
  {
    ExampleChoiceA();
    ExampleChoiceB();
    ExampleChoiceC();
    ExampleChoiceD();
    RawChoiceAt(ExampleRow);
    FourColumns(RawChoices(ExampleRow), "x", "", "y", "z");
  }

  /** What a stored question needs here: one option at least, at most one
      of them correct. */
  predicate Usable(d: QuestionDraft) {
    |d.answers| >= 1 && AtMostOneCorrect(d.answers)
  }

  /** The questions a sheet yields as the script builds them, in row order,
      skipped rows left out: every row goes through the mapping as written. */
  function MapRows(rows: seq<Row>): (r: seq<QuestionDraft>)
    ensures |r| <= |rows|
    ensures forall i :: 0 <= i < |r| ==> Usable(r[i])
  {
    forall row: Row | MapRowAsWritten(row).Some? ensures Usable(MapRowAsWritten(row).value) {
      MapRowAsWrittenShape(row);
      AsWrittenMarksAtMostOne(row);
    }
    CollectKeeps(rows, MapRowAsWritten, Usable);
    Collect(rows, MapRowAsWritten)
  }

  /** The corrected sheet: every row goes through the mapping that marks the
      option of the named column. */
  function MapRowsByColumn(rows: seq<Row>): (r: seq<QuestionDraft>)
    ensures |r| <= |rows|
    ensures forall i :: 0 <= i < |r| ==> Usable(r[i])
  {
    forall row: Row | MapRow(row).Some? ensures Usable(MapRow(row).value) {
      MapRowShape(row);
    }
    CollectKeeps(rows, MapRow, Usable);
    Collect(rows, MapRow)
  }

  /** Every option column of the row is truthy. */
  predicate NoColumnDropped(row: Row) {
    forall c :: 0 <= c < 4 ==> NonEmpty(RawChoices(row)[c])
  }

  /** Without a missing option the two row mappings agree. */
  lemma RowsAgreeWithoutGap(row: Row)
    requires NoColumnDropped(row)
    ensures MapRowAsWritten(row) == MapRow(row)
  {
    NoGapNoShift(RawChoices(row), NonEmpty, CorrectIndex(row));
  }

  /** The sheet as written and the corrected sheet store the same questions
      when no row misses an option: the defect needs a gap. */
  lemma SheetsAgreeWithoutGap(rows: seq<Row>)
    requires forall k :: 0 <= k < |rows| ==> NoColumnDropped(rows[k])
    ensures MapRows(rows) == MapRowsByColumn(rows)
  {
    forall k | 0 <= k < |rows| ensures MapRowAsWritten(rows[k]) == MapRow(rows[k]) {
      RowsAgreeWithoutGap(rows[k]);
    }
    CollectSame(rows, MapRowAsWritten, MapRow);
  }

  /** Whatever the sheet, both versions keep the same rows: the same number
      of questions, with the same question texts. */
  lemma SheetsKeepSameRows(rows: seq<Row>)
    ensures |MapRows(rows)| == |MapRowsByColumn(rows)|
    ensures forall i :: 0 <= i < |MapRows(rows)| ==> MapRows(rows)[i].text == MapRowsByColumn(rows)[i].text
  {
    forall row: Row ensures MapRowAsWritten(row).None? <==> MapRow(row).None?
      ensures MapRowAsWritten(row).Some? ==> MapRowAsWritten(row).value.text == MapRow(row).value.text
    {
      MapRowAgreesOnContent(row);
    }
    CollectSameKey(rows, MapRowAsWritten, MapRow, (d: QuestionDraft) => d.text);
  }

  /** A subject of the catalogue. */
  datatype CatalogSubject = CatalogSubject(name: string, description: string)

  /** An exam of the catalogue, identified by its name and its subject's name. */
  datatype CatalogExam = CatalogExam(
    name: string,
    subject: string,
    durationMinutes: int,
    isActive: bool,
    allowReattempt: bool,
    questions: seq<QuestionDraft>)

  datatype Catalog = Catalog(subjects: seq<CatalogSubject>, exams: seq<CatalogExam>)

  const DefaultDurationMinutes := 30

  /** `pat` occurs in `s` at position `k`. */
  predicate OccursAt(s: string, pat: string, k: nat) {
    k + |pat| <= |s| && s[k..k + |pat|] == pat
  }

  /** The first position at or after `from` where `pat` occurs. */
  function IndexFrom(s: string, pat: string, from: nat): (r: Option<nat>)
    ensures r.Some? ==> from <= r.value && OccursAt(s, pat, r.value)
    ensures r.Some? ==> forall k :: from <= k < r.value ==> !OccursAt(s, pat, k)
    ensures r.None? ==> forall k :: from <= k ==> !OccursAt(s, pat, k)
    decreases |s| - from
  {
    if from + |pat| > |s| then None
    else if OccursAt(s, pat, from) then Some(from)
    else IndexFrom(s, pat, from + 1)
  }

  /** `s.replace(pat, '')` with a string pattern: only the first occurrence
      is removed. */
  function RemoveFirst(s: string, pat: string): (r: string)
    ensures IndexFrom(s, pat, 0).None? ==> r == s
    ensures IndexFrom(s, pat, 0).Some? ==>
      var k := IndexFrom(s, pat, 0).value;
      r == s[..k] + s[k + |pat|..] && |r| == |s| - |pat|
  {
    match IndexFrom(s, pat, 0)
    case None => s
    case Some(k) => s[..k] + s[k + |pat|..]
  }

  const Extension := ".xlsx"

  /** `fileName.endsWith('.xlsx')`. */
  predicate IsWorkbook(fileName: string) {
    |fileName| >= |Extension| && fileName[|fileName| - |Extension|..] == Extension
  }

  /** `fileName.replace('.xlsx', '')`. */
  function ExamName(fileName: string): string {
    RemoveFirst(fileName, Extension)
  }

  /** For a base name without a dot, the exam name of `base.xlsx` is `base`. */
  lemma ExamNameOfWorkbook(base: string)
    requires forall k :: 0 <= k < |base| ==> base[k] != '.'
    ensures IsWorkbook(base + Extension)
    ensures ExamName(base + Extension) == base
  {
    var s := base + Extension;
    assert s[|base|..] == Extension;
    forall k | 0 <= k < |base|
      ensures !OccursAt(s, Extension, k)
    {
      assert s[k] == base[k] != '.';
      if k + |Extension| <= |s| {
        assert s[k..k + |Extension|][0] == s[k];
      }
    }
    assert OccursAt(s, Extension, |base|);
    assert IndexFrom(s, Extension, 0) == Some(|base|);
    assert s[..|base|] == base;
  }

  /** The first subject named `name`. */
  function FindSubject(subjects: seq<CatalogSubject>, name: string): (r: Option<nat>)
    ensures r.Some? ==> r.value < |subjects| && subjects[r.value].name == name
    ensures r.Some? ==> forall j :: 0 <= j < r.value ==> subjects[j].name != name
    ensures r.None? ==> forall j :: 0 <= j < |subjects| ==> subjects[j].name != name
  {
    if |subjects| == 0 then None
    else if subjects[0].name == name then Some(0)
    else match FindSubject(subjects[1..], name)
      case None => None
      case Some(j) => Some(j + 1)
  }

  /** Get-or-create of the folder's subject, described as `منهج <folder>`. */
  function EnsureSubject(subjects: seq<CatalogSubject>, folder: string): (r: seq<CatalogSubject>)
    ensures FindSubject(subjects, folder).Some? ==> r == subjects
    ensures FindSubject(subjects, folder).None? ==>
      r == subjects + [CatalogSubject(folder, "منهج " + folder)]
    ensures FindSubject(r, folder).Some?
  {
    if FindSubject(subjects, folder).Some? then subjects
    else
      var r := subjects + [CatalogSubject(folder, "منهج " + folder)];
      assert r[|subjects|].name == folder;
      r
  }

  /** The first exam of the catalogue with this name in this subject. */
  function FindExam(exams: seq<CatalogExam>, name: string, subject: string): (r: Option<nat>)
    ensures r.Some? ==> r.value < |exams| && exams[r.value].name == name && exams[r.value].subject == subject
    ensures r.Some? ==> forall j :: 0 <= j < r.value ==> !(exams[j].name == name && exams[j].subject == subject)
    ensures r.None? ==> forall j :: 0 <= j < |exams| ==> !(exams[j].name == name && exams[j].subject == subject)
  {
    if |exams| == 0 then None
    else if exams[0].name == name && exams[0].subject == subject then Some(0)
    else match FindExam(exams[1..], name, subject)
      case None => None
      case Some(j) => Some(j + 1)
  }

  /** Importing one workbook of a subject folder: the exam named after the
      file is created (30 minutes, active, no reattempt) or has its questions
      cleared, and then holds exactly the questions the sheet yields. */
  function ImportFile(cat: Catalog, folder: string, fileName: string, rows: seq<Row>): (r: Catalog)
    ensures r.subjects == EnsureSubject(cat.subjects, folder)
    ensures FindExam(cat.exams, ExamName(fileName), folder).None? ==>
      r.exams == cat.exams + [CatalogExam(ExamName(fileName), folder, DefaultDurationMinutes, true, false, MapRows(rows))]
    ensures FindExam(cat.exams, ExamName(fileName), folder).Some? ==>
      var i := FindExam(cat.exams, ExamName(fileName), folder).value;
      && |r.exams| == |cat.exams|
      && r.exams[i] == cat.exams[i].(questions := MapRows(rows))
      && forall j :: 0 <= j < |cat.exams| && j != i ==> r.exams[j] == cat.exams[j]
  {
    var name := ExamName(fileName);
    var subjects := EnsureSubject(cat.subjects, folder);
    match FindExam(cat.exams, name, folder)
    case None =>
      Catalog(subjects, cat.exams + [CatalogExam(name, folder, DefaultDurationMinutes, true, false, MapRows(rows))])
    case Some(i) =>
      Catalog(subjects, cat.exams[i := cat.exams[i].(questions := MapRows(rows))])
  }

  /** After an import the file's exam is found and holds exactly the sheet's
      questions, whatever it held before. */
  lemma ImportFileInstallsSheet(cat: Catalog, folder: string, fileName: string, rows: seq<Row>)
    ensures
      var r := ImportFile(cat, folder, fileName, rows);
      && FindExam(r.exams, ExamName(fileName), folder).Some?
      && r.exams[FindExam(r.exams, ExamName(fileName), folder).value].questions == MapRows(rows)
  {
    var r := ImportFile(cat, folder, fileName, rows);
    var name := ExamName(fileName);
    match FindExam(cat.exams, name, folder)
    case None =>
      assert r.exams[|cat.exams|].name == name && r.exams[|cat.exams|].subject == folder;
      var k := FindExam(r.exams, name, folder).value;
      assert k == |cat.exams|;
    case Some(i) =>
      assert r.exams[i].name == name && r.exams[i].subject == folder;
      var k := FindExam(r.exams, name, folder).value;
      assert k == i;
  }

  /** Re-importing a workbook replaces its questions instead of appending:
      importing the same file twice leaves the catalogue as one import does. */
  lemma ImportFileIdempotent(cat: Catalog, folder: string, fileName: string, rows: seq<Row>)
    ensures ImportFile(ImportFile(cat, folder, fileName, rows), folder, fileName, rows)
         == ImportFile(cat, folder, fileName, rows)
  {
    var once := ImportFile(cat, folder, fileName, rows);
    var twice := ImportFile(once, folder, fileName, rows);
    var name := ExamName(fileName);
    ImportFileInstallsSheet(cat, folder, fileName, rows);
    var k := FindExam(once.exams, name, folder).value;
    assert EnsureSubject(once.subjects, folder) == once.subjects;
    assert twice.exams == once.exams[k := once.exams[k].(questions := MapRows(rows))];
    assert twice.exams == once.exams;
  }

  /** The files of one subject folder, in directory order; files that are
      not workbooks are passed over. */
  function ImportFolder(cat: Catalog, folder: string, files: seq<(string, seq<Row>)>): Catalog
    decreases |files|
  {
    if |files| == 0 then cat
    else
      var before := ImportFolder(cat, folder, files[..|files| - 1]);
      var (fileName, rows) := files[|files| - 1];
      if IsWorkbook(fileName) then ImportFile(before, folder, fileName, rows) else before
  }

  /** A file that is not a workbook changes nothing. */
  lemma ImportFolderSkipsOthers(cat: Catalog, folder: string, files: seq<(string, seq<Row>)>,
                                fileName: string, rows: seq<Row>)
    requires !IsWorkbook(fileName)
    ensures ImportFolder(cat, folder, files + [(fileName, rows)]) == ImportFolder(cat, folder, files)
  {
    assert (files + [(fileName, rows)])[..|files|] == files;
  }

  /** Every folder import creates the folder's subject, even a folder
      without workbooks. */
  function ImportSubjectFolder(cat: Catalog, folder: string, files: seq<(string, seq<Row>)>): (r: Catalog)
    ensures FindSubject(r.subjects, folder).Some?
  {
    var withSubject := cat.(subjects := EnsureSubject(cat.subjects, folder));
    SubjectStays(withSubject, folder, files);
    ImportFolder(withSubject, folder, files)
  }

  /** Importing files never removes a subject. */
  lemma {:induction false} SubjectStays(cat: Catalog, folder: string, files: seq<(string, seq<Row>)>)
    requires FindSubject(cat.subjects, folder).Some?
    ensures ImportFolder(cat, folder, files).subjects == cat.subjects
    decreases |files|
  {
    if |files| > 0 {
      SubjectStays(cat, folder, files[..|files| - 1]);
    }
  }
}
