/** The read side of `backend/src/services/report.service.ts`: the three
    report queries as pure functions over the stored results (each joined
    with its student, the student's section and the exam's subject), and the
    spreadsheet projection of the performance report. */
module Reports {
  import opened Wrappers
  import opened Domain
  import opened Grouping
  import opened Sorting
  import opened Format

  /** A stored result together with what the queries join to it. `student`
      is `None` for a guest attempt or a deleted student. */
  datatype ResultRow = ResultRow(
    id: nat,
    isGuest: bool,
    student: Option<StudentProfile>,
    examName: string,
    subject: Subject,
    score: nat,
    totalQuestions: nat,
    percentage: real,
    completedAt: nat)

  /** The optional `section_id`, `subject_id` and `student_id` query values;
      `None` stands for an absent or empty one. */
  datatype Filters = Filters(section: Option<nat>, subject: Option<nat>, student: Option<nat>)

  const NoFilters := Filters(None, None, None)

  predicate NotGuest(r: ResultRow) {
    !r.isGuest
  }

  /** `student.section` through the left joins. */
  function SectionOfRow(r: ResultRow): Option<Section> {
    if r.student.Some? then r.student.value.section else None
  }

  /** The `WHERE` clause of the performance and subject queries: a non-guest
      result passing every filter that is given. A section or student filter
      rejects a row that has no section or student to compare. The subject
      query never has a student filter (see `StatsFilters`). */
  predicate Matches(r: ResultRow, f: Filters) {
    && NotGuest(r)
    && (f.section.Some? ==> SectionOfRow(r).Some? && SectionOfRow(r).value.id == f.section.value)
    && (f.subject.Some? ==> r.subject.id == f.subject.value)
    && (f.student.Some? ==> r.student.Some? && r.student.value.id == f.student.value)
  }

  function MatchFilter(f: Filters): ResultRow -> bool {
    r => Matches(r, f)
  }

  function NonGuests(rows: seq<ResultRow>): seq<ResultRow> {
    Filter(rows, NotGuest)
  }

  /** The rows the performance and subject queries see. */
  function Selected(rows: seq<ResultRow>, f: Filters): seq<ResultRow> {
    Filter(rows, MatchFilter(f))
  }

  /** Every matching result is selected as often as it is stored, and no
      other row is. */
  lemma SelectedExactly(rows: seq<ResultRow>, f: Filters)
    ensures forall x :: multiset(Selected(rows, f))[x] == if Matches(x, f) then multiset(rows)[x] else 0
  {
    FilterCount(rows, MatchFilter(f));
  }

  /** Without filters the queries see exactly the non-guest results. */
  lemma UnfilteredIsNonGuests(rows: seq<ResultRow>)
    ensures Selected(rows, NoFilters) == NonGuests(rows)
  {
    FilterEquivalent(rows, MatchFilter(NoFilters), NotGuest);
  }

  /** The selection depends on the non-guest rows only. */
  lemma SelectedIgnoresGuests(rows: seq<ResultRow>, f: Filters)
    ensures Selected(rows, f) == Selected(NonGuests(rows), f)
  {
    FilterNarrower(rows, NotGuest, MatchFilter(f));
  }

  /** Storing guest results, wherever they land, leaves the non-guest rows
      as they were. */
  lemma GuestRowsVanish(a: seq<ResultRow>, guests: seq<ResultRow>, b: seq<ResultRow>)
    requires forall i :: 0 <= i < |guests| ==> guests[i].isGuest
    ensures NonGuests(a + guests + b) == NonGuests(a + b)
  {
    FilterConcat(a + guests, b, NotGuest);
    FilterConcat(a, guests, NotGuest);
    FilterConcat(a, b, NotGuest);
    FilterNone(guests, NotGuest);
  }

  // ---------------------------------------------------------------------
  // getPerformanceReports

  function CompletedKey(r: ResultRow): real {
    r.completedAt as real
  }

  /** `ORDER BY result.completed_at DESC`. Rows with equal timestamps may come
      back in any order; this is one of the allowed orders. */
  function ReportOrder(rows: seq<ResultRow>, f: Filters): (o: seq<ResultRow>)
    ensures multiset(o) == multiset(Selected(rows, f))
    ensures forall i, j :: 0 <= i < j < |o| ==> o[i].completedAt >= o[j].completedAt
  {
    var o := SortDesc(Selected(rows, f), CompletedKey);
    assert forall i, j :: 0 <= i < j < |o| ==> CompletedKey(o[i]) >= CompletedKey(o[j]);
    o
  }

  /** One row of the performance report. The Arabic-keyed duplicates carry
      the same values as the fields here, except the percentage, which they
      carry as text. */
  datatype PerformanceRow = PerformanceRow(
    resultId: nat,
    studentName: Option<string>,
    studentNumber: Option<string>,
    sectionName: Option<string>,
    subjectName: string,
    examName: string,
    score: nat,
    totalQuestions: nat,
    percentageText: string,
    percentage: real,
    completedAt: nat)

  /** The flattening of one joined result; `r.student?.x` is `None` when the
      result has no student. */
  function ReportRow(r: ResultRow): PerformanceRow {
    PerformanceRow(
      r.id,
      if r.student.Some? then Some(r.student.value.fullName) else None,
      if r.student.Some? then r.student.value.studentNumber else None,
      if SectionOfRow(r).Some? then Some(SectionOfRow(r).value.name) else None,
      r.subject.name,
      r.examName,
      r.score,
      r.totalQuestions,
      ToFixed2(r.percentage) + "%",
      r.percentage,
      r.completedAt)
  }

  /** `row` is the report row of some matching result. */
  predicate RowOfMatch(rows: seq<ResultRow>, f: Filters, row: PerformanceRow) {
    exists x :: x in rows && Matches(x, f) && row == ReportRow(x)
  }

  /** The report rows of `o`, in the same order. */
  function ReportRows(o: seq<ResultRow>): (out: seq<PerformanceRow>)
    ensures |out| == |o|
    ensures forall i :: 0 <= i < |o| ==> out[i] == ReportRow(o[i])
    ensures forall i :: 0 <= i < |o| ==> out[i].completedAt == o[i].completedAt
  {
    seq(|o|, i requires 0 <= i < |o| => ReportRow(o[i]))
  }

  /** `getPerformanceReports`: one row per selected result, newest first. */
  function PerformanceReports(rows: seq<ResultRow>, f: Filters): (out: seq<PerformanceRow>)
    ensures |out| == |Selected(rows, f)|
    ensures forall i, j :: 0 <= i < j < |out| ==> out[i].completedAt >= out[j].completedAt
  {
    var o := ReportOrder(rows, f);
    SameElements(o, Selected(rows, f));
    ReportRows(o)
  }

  /** Every row of the report is the row of a matching result. */
  lemma PerformanceRowsAreMatches(rows: seq<ResultRow>, f: Filters)
    ensures forall i :: 0 <= i < |PerformanceReports(rows, f)| ==> RowOfMatch(rows, f, PerformanceReports(rows, f)[i])
  {
    var o := ReportOrder(rows, f);
    var out := PerformanceReports(rows, f);
    assert out == ReportRows(o);
    FilterIn(rows, MatchFilter(f));
    SameElements(o, Selected(rows, f));
    forall i | 0 <= i < |out| ensures RowOfMatch(rows, f, out[i]) {
      assert o[i] in Selected(rows, f);
      assert out[i] == ReportRow(o[i]);
    }
  }

  /** Every matching result has its row in the report. */
  lemma MatchesAreReported(rows: seq<ResultRow>, f: Filters)
    ensures forall x :: x in rows && Matches(x, f) ==> ReportRow(x) in PerformanceReports(rows, f)
  {
    var o := ReportOrder(rows, f);
    var out := PerformanceReports(rows, f);
    assert out == ReportRows(o);
    FilterIn(rows, MatchFilter(f));
    SameElements(o, Selected(rows, f));
    forall x | x in rows && Matches(x, f) ensures ReportRow(x) in out {
      assert x in Selected(rows, f);
      var j :| 0 <= j < |o| && o[j] == x;
      assert out[j] == ReportRow(x);
    }
  }

  /** Each matching result is reported exactly as many times as it is
      stored. */
  lemma ReportCountsEachResultOnce(rows: seq<ResultRow>, f: Filters, x: ResultRow)
    requires Matches(x, f)
    ensures multiset(ReportOrder(rows, f))[x] == multiset(rows)[x]
  {
    SelectedExactly(rows, f);
  }

  /** The percentage text is the two-decimal rendering with a `%` sign. */
  lemma PercentageText(rows: seq<ResultRow>, f: Filters)
    ensures forall i :: 0 <= i < |PerformanceReports(rows, f)| ==>
      PerformanceReports(rows, f)[i].percentageText == ToFixed2(PerformanceReports(rows, f)[i].percentage) + "%"
  {
    var out := PerformanceReports(rows, f);
    PerformanceRowsAreMatches(rows, f);
    forall i | 0 <= i < |out|
      ensures out[i].percentageText == ToFixed2(out[i].percentage) + "%"
    {
      var x :| x in rows && Matches(x, f) && out[i] == ReportRow(x);
    }
  }

  // ---------------------------------------------------------------------
  // generateExcelBuffer

  /** The nine Arabic-keyed columns of the exported sheet. The date column
      holds the completion time (its locale rendering is not modelled). */
  datatype ExcelRow = ExcelRow(
    studentName: Option<string>,
    studentNumber: Option<string>,
    section: Option<string>,
    subject: string,
    exam: string,
    score: nat,
    totalQuestions: nat,
    percentage: string,
    date: nat)

  function ExcelOf(p: PerformanceRow): ExcelRow {
    ExcelRow(p.studentName, p.studentNumber, p.sectionName, p.subjectName, p.examName,
             p.score, p.totalQuestions, p.percentageText, p.completedAt)
  }

  /** The projection keeps every row, in order. */
  function ExcelRows(data: seq<PerformanceRow>): (r: seq<ExcelRow>)
    ensures |r| == |data|
    ensures forall i :: 0 <= i < |r| ==> r[i] == ExcelOf(data[i])
  {
    seq(|data|, i requires 0 <= i < |data| => ExcelOf(data[i]))
  }

  /** `line` is the spreadsheet line of some matching result. */
  predicate LineOfMatch(rows: seq<ResultRow>, f: Filters, line: ExcelRow) {
    exists x :: x in rows && Matches(x, f) && line == ExcelOf(ReportRow(x))
  }

  /** The exported sheet of a performance report lists, newest first, one
      line per matching result with that result's student, section, subject,
      exam, score, question count, rendered percentage and completion time. */
  lemma ExcelOfReport(rows: seq<ResultRow>, f: Filters)
    ensures |ExcelRows(PerformanceReports(rows, f))| == |Selected(rows, f)|
    ensures forall i :: 0 <= i < |ExcelRows(PerformanceReports(rows, f))| ==>
      LineOfMatch(rows, f, ExcelRows(PerformanceReports(rows, f))[i])
  {
    var out := PerformanceReports(rows, f);
    var sheet := ExcelRows(out);
    PerformanceRowsAreMatches(rows, f);
    forall i | 0 <= i < |sheet| ensures LineOfMatch(rows, f, sheet[i]) {
      assert RowOfMatch(rows, f, out[i]);
      var x :| x in rows && Matches(x, f) && out[i] == ReportRow(x);
      assert sheet[i] == ExcelOf(ReportRow(x));
    }
  }

  /** The exported sheet keeps the newest-first order. */
  lemma ExcelNewestFirst(rows: seq<ResultRow>, f: Filters)
    ensures forall i, j :: 0 <= i < j < |ExcelRows(PerformanceReports(rows, f))| ==>
      ExcelRows(PerformanceReports(rows, f))[i].date >= ExcelRows(PerformanceReports(rows, f))[j].date
  {
    var out := PerformanceReports(rows, f);
    assert forall i :: 0 <= i < |out| ==> ExcelRows(out)[i].date == out[i].completedAt;
  }

  // ---------------------------------------------------------------------
  // getOverallStats

  function SubjectOf(r: ResultRow): Subject {
    r.subject
  }

  function PercentageOf(r: ResultRow): real {
    r.percentage
  }

  /** `COUNT(result.id)` of each subject group, as a sort key. */
  function AttemptsIn(sel: seq<ResultRow>): Subject -> real {
    s => |Members(sel, SubjectOf, s)| as real
  }

  /** The distinct subjects in `ORDER BY total_attempts DESC` order. Equal
      counts may come back in any order; this is one of the allowed orders. */
  function OrderedSubjects(sel: seq<ResultRow>): (sk: seq<Subject>)
    ensures multiset(sk) == multiset(Keys(sel, SubjectOf))
    ensures Distinct(sk)
    ensures forall i :: 0 <= i < |sk| ==> sk[i] in Keys(sel, SubjectOf)
    ensures forall i, j :: 0 <= i < j < |sk| ==>
      |Members(sel, SubjectOf, sk[i])| >= |Members(sel, SubjectOf, sk[j])|
  {
    var ks := Keys(sel, SubjectOf);
    var sk := SortDesc(ks, AttemptsIn(sel));
    DistinctPermutation(ks, sk);
    SameElements(sk, ks);
    assert forall i, j :: 0 <= i < j < |sk| ==> AttemptsIn(sel)(sk[i]) >= AttemptsIn(sel)(sk[j]);
    sk
  }

  /** One row of `getOverallStats`. */
  datatype SubjectStat = SubjectStat(subjectId: nat, subjectName: string, totalAttempts: nat, avgPercentage: string)

  function StatSubject(s: SubjectStat): Subject {
    Subject(s.subjectId, s.subjectName)
  }

  function SubjectStatOf(sel: seq<ResultRow>, s: Subject): SubjectStat {
    SubjectStat(s.id, s.name, |Members(sel, SubjectOf, s)|, RenderAverage(Some(Mean(sel, SubjectOf, s, PercentageOf))))
  }

  /** The filters `getOverallStats` reads: it takes only `section_id` and
      `subject_id` from the query, so a `student_id` has no effect. */
  function StatsFilters(f: Filters): (g: Filters)
    ensures g.section == f.section && g.subject == f.subject && g.student.None?
  {
    f.(student := None)
  }

  /** `getOverallStats`: one row per subject among the non-guest results
      that pass the section and subject filters, most attempted first. */
  function OverallStats(rows: seq<ResultRow>, f: Filters): (out: seq<SubjectStat>)
    ensures |out| == |Keys(Selected(rows, StatsFilters(f)), SubjectOf)|
    ensures forall i, j :: 0 <= i < j < |out| ==> out[i].totalAttempts >= out[j].totalAttempts
  {
    var sel := Selected(rows, StatsFilters(f));
    var sk := OrderedSubjects(sel);
    SameElements(sk, Keys(sel, SubjectOf));
    SubjectStats(sel, sk)
  }

  function SubjectStats(sel: seq<ResultRow>, sk: seq<Subject>): (out: seq<SubjectStat>)
    ensures |out| == |sk|
    ensures forall i :: 0 <= i < |sk| ==> out[i] == SubjectStatOf(sel, sk[i]) && StatSubject(out[i]) == sk[i]
    ensures forall i :: 0 <= i < |sk| ==> out[i].totalAttempts == |Members(sel, SubjectOf, sk[i])|
  {
    seq(|sk|, i requires 0 <= i < |sk| => SubjectStatOf(sel, sk[i]))
  }

  /** Each row names a subject among the selected results and carries that
      subject's attempt count and rendered mean percentage. */
  lemma OverallStatsRows(rows: seq<ResultRow>, f: Filters)
    ensures forall i :: 0 <= i < |OverallStats(rows, f)| ==>
      var row := OverallStats(rows, f)[i];
      && StatSubject(row) in Keys(Selected(rows, StatsFilters(f)), SubjectOf)
      && row.totalAttempts == |Members(Selected(rows, StatsFilters(f)), SubjectOf, StatSubject(row))|
      && row.avgPercentage == ToFixed2(Mean(Selected(rows, StatsFilters(f)), SubjectOf, StatSubject(row), PercentageOf))
  {
    var sel := Selected(rows, StatsFilters(f));
    var sk := OrderedSubjects(sel);
    var out := OverallStats(rows, f);
    forall i | 0 <= i < |out|
      ensures StatSubject(out[i]) in Keys(sel, SubjectOf)
      ensures out[i].totalAttempts == |Members(sel, SubjectOf, StatSubject(out[i]))|
      ensures out[i].avgPercentage == ToFixed2(Mean(sel, SubjectOf, StatSubject(out[i]), PercentageOf))
    {
      assert out[i] == SubjectStatOf(sel, sk[i]);
      assert StatSubject(out[i]) == sk[i];
    }
  }

  /** Every row has at least one attempt, so an average always exists. */
  lemma SubjectRowsNonEmpty(rows: seq<ResultRow>, f: Filters)
    ensures forall i :: 0 <= i < |OverallStats(rows, f)| ==> OverallStats(rows, f)[i].totalAttempts >= 1
  {
    var sel := Selected(rows, StatsFilters(f));
    var out := OverallStats(rows, f);
    OverallStatsRows(rows, f);
    forall i | 0 <= i < |out| ensures out[i].totalAttempts >= 1 {
      MembersOfKey(sel, SubjectOf, StatSubject(out[i]));
    }
  }

  /** No subject gets two rows, and every subject among the selected results
      gets one. */
  lemma OverallStatsOnePerSubject(rows: seq<ResultRow>, f: Filters)
    ensures forall i, j :: 0 <= i < j < |OverallStats(rows, f)| ==>
      StatSubject(OverallStats(rows, f)[i]) != StatSubject(OverallStats(rows, f)[j])
    ensures forall x :: x in Selected(rows, StatsFilters(f)) ==> SubjectListed(OverallStats(rows, f), x.subject)
  {
    var sel := Selected(rows, StatsFilters(f));
    var sk := OrderedSubjects(sel);
    var out := OverallStats(rows, f);
    assert forall i :: 0 <= i < |out| ==> StatSubject(out[i]) == sk[i];
    SameElements(sk, Keys(sel, SubjectOf));
    KeysCover(sel, SubjectOf);
    forall x | x in sel ensures SubjectListed(out, x.subject) {
      var k :| 0 <= k < |sel| && sel[k] == x;
      assert SubjectOf(sel[k]) in sk;
      var i :| 0 <= i < |sk| && sk[i] == x.subject;
      assert StatSubject(out[i]) == x.subject;
    }
  }

  predicate SubjectListed(out: seq<SubjectStat>, s: Subject) {
    exists i :: 0 <= i < |out| && StatSubject(out[i]) == s
  }

  function AttemptsOf(s: SubjectStat): real {
    s.totalAttempts as real
  }

  lemma {:induction false} KeyAttemptsAddUp(sel: seq<ResultRow>, ks: seq<Subject>)
    ensures Total(ks, AttemptsIn(sel)) == SumSizes(sel, SubjectOf, ks) as real
  {
    if |ks| > 0 {
      KeyAttemptsAddUp(sel, ks[..|ks| - 1]);
    }
  }

  lemma {:induction false} RenderedAttempts(sel: seq<ResultRow>, sk: seq<Subject>)
    ensures Total(SubjectStats(sel, sk), AttemptsOf) == Total(sk, AttemptsIn(sel))
  {
    if |sk| > 0 {
      var init := sk[..|sk| - 1];
      RenderedAttempts(sel, init);
      var r := SubjectStats(sel, sk);
      assert r[..|r| - 1] == SubjectStats(sel, init);
    }
  }

  /** Every selected result is counted under exactly one subject: the attempt
      counts add up to the number of selected results. */
  lemma AttemptsAddUp(rows: seq<ResultRow>, f: Filters)
    ensures Total(OverallStats(rows, f), AttemptsOf) == |Selected(rows, StatsFilters(f))| as real
  {
    var sel := Selected(rows, StatsFilters(f));
    var ks := Keys(sel, SubjectOf);
    var sk := OrderedSubjects(sel);
    RenderedAttempts(sel, sk);
    TotalPermutation(sk, ks, AttemptsIn(sel));
    KeyAttemptsAddUp(sel, ks);
    GroupsPartition(sel, SubjectOf);
  }

  /** The statistics depend on the section and subject filters only: two
      queries that differ in `student_id` alone get the same rows, and the
      rows are computed from exactly the non-guest results passing those two
      filters. */
  lemma OverallStatsIgnoresStudent(rows: seq<ResultRow>, f: Filters, g: Filters)
    requires f.section == g.section && f.subject == g.subject
    ensures OverallStats(rows, f) == OverallStats(rows, g)
    ensures forall x: ResultRow :: (
      var kept := !x.isGuest
        && (f.section.Some? ==> SectionOfRow(x).Some? && SectionOfRow(x).value.id == f.section.value)
        && (f.subject.Some? ==> x.subject.id == f.subject.value);
      multiset(Selected(rows, StatsFilters(f)))[x] == if kept then multiset(rows)[x] else 0)
  {
    assert StatsFilters(f) == StatsFilters(g);
    SelectedExactly(rows, StatsFilters(f));
  }

  // ---------------------------------------------------------------------
  // getSectionRanking

  /** The inner joins and the guest exclusion of the ranking query. */
  predicate Ranked(r: ResultRow) {
    NotGuest(r) && SectionOfRow(r).Some?
  }

  /** What the ranking reads from one result. */
  datatype RankEntry = RankEntry(section: Section, studentId: nat, percentage: real)

  function EntryOf(r: ResultRow): RankEntry
    requires Ranked(r)
  {
    RankEntry(SectionOfRow(r).value, r.student.value.id, r.percentage)
  }

  function RankEntries(rows: seq<ResultRow>): (e: seq<RankEntry>)
    ensures |e| == |Filter(rows, Ranked)|
    ensures forall i :: 0 <= i < |e| ==> e[i] == EntryOf(Filter(rows, Ranked)[i])
  {
    var kept := Filter(rows, Ranked);
    seq(|kept|, i requires 0 <= i < |kept| => EntryOf(kept[i]))
  }

  function EntrySection(e: RankEntry): Section {
    e.section
  }

  function EntryStudent(e: RankEntry): nat {
    e.studentId
  }

  function EntryPercentage(e: RankEntry): real {
    e.percentage
  }

  /** `AVG(result.percentage)` of each section group, as a sort key. */
  function MeanIn(entries: seq<RankEntry>): Section -> real {
    s => Mean(entries, EntrySection, s, EntryPercentage)
  }

  /** The distinct sections in `ORDER BY avg_percentage DESC` order. */
  function OrderedSections(entries: seq<RankEntry>): (sk: seq<Section>)
    ensures multiset(sk) == multiset(Keys(entries, EntrySection))
    ensures Distinct(sk)
    ensures forall i :: 0 <= i < |sk| ==> sk[i] in Keys(entries, EntrySection)
    ensures forall i, j :: 0 <= i < j < |sk| ==>
      Mean(entries, EntrySection, sk[i], EntryPercentage) >= Mean(entries, EntrySection, sk[j], EntryPercentage)
  {
    var ks := Keys(entries, EntrySection);
    var sk := SortDesc(ks, MeanIn(entries));
    DistinctPermutation(ks, sk);
    SameElements(sk, ks);
    assert forall i, j :: 0 <= i < j < |sk| ==> MeanIn(entries)(sk[i]) >= MeanIn(entries)(sk[j]);
    sk
  }

  /** One row of `getSectionRanking`. */
  datatype RankingRow = RankingRow(sectionId: nat, sectionName: string, avgPercentage: string,
                                   totalStudents: nat, totalExams: nat)

  function RowSection(r: RankingRow): Section {
    Section(r.sectionId, r.sectionName)
  }

  function RankingRowOf(entries: seq<RankEntry>, s: Section): RankingRow {
    var m := Members(entries, EntrySection, s);
    RankingRow(s.id, s.name, RenderAverage(Some(Mean(entries, EntrySection, s, EntryPercentage))),
               |Keys(m, EntryStudent)|, |m|)
  }

  /** `getSectionRanking`: one row per section among the ranked results,
      best mean first. */
  function SectionRanking(rows: seq<ResultRow>): (out: seq<RankingRow>)
    ensures |out| == |Keys(RankEntries(rows), EntrySection)|
    ensures forall i, j :: 0 <= i < j < |out| ==>
      Mean(RankEntries(rows), EntrySection, RowSection(out[i]), EntryPercentage)
        >= Mean(RankEntries(rows), EntrySection, RowSection(out[j]), EntryPercentage)
  {
    var entries := RankEntries(rows);
    var sk := OrderedSections(entries);
    SameElements(sk, Keys(entries, EntrySection));
    RankingRows(entries, sk)
  }

  function RankingRows(entries: seq<RankEntry>, sk: seq<Section>): (out: seq<RankingRow>)
    ensures |out| == |sk|
    ensures forall i :: 0 <= i < |sk| ==> out[i] == RankingRowOf(entries, sk[i]) && RowSection(out[i]) == sk[i]
  {
    seq(|sk|, i requires 0 <= i < |sk| => RankingRowOf(entries, sk[i]))
  }

  /** Each row names a section among the ranked results and carries the
      number of its results, the number of distinct students among them and
      their rendered mean percentage. */
  lemma SectionRankingRows(rows: seq<ResultRow>)
    ensures forall i :: 0 <= i < |SectionRanking(rows)| ==>
      var row := SectionRanking(rows)[i];
      var m := Members(RankEntries(rows), EntrySection, RowSection(row));
      && RowSection(row) in Keys(RankEntries(rows), EntrySection)
      && row.totalExams == |m|
      && row.totalStudents == |Keys(m, EntryStudent)|
      && row.avgPercentage == ToFixed2(Mean(RankEntries(rows), EntrySection, RowSection(row), EntryPercentage))
  {
    var entries := RankEntries(rows);
    var sk := OrderedSections(entries);
    var out := SectionRanking(rows);
    forall i | 0 <= i < |out|
      ensures RowSection(out[i]) in Keys(entries, EntrySection)
      ensures out[i] == RankingRowOf(entries, RowSection(out[i]))
    {
      assert out[i] == RankingRowOf(entries, sk[i]);
      assert RowSection(out[i]) == sk[i];
    }
  }

  /** No section gets two rows. */
  lemma SectionRankingDistinct(rows: seq<ResultRow>)
    ensures forall i, j :: 0 <= i < j < |SectionRanking(rows)| ==>
      RowSection(SectionRanking(rows)[i]) != RowSection(SectionRanking(rows)[j])
  {
    var sk := OrderedSections(RankEntries(rows));
    var out := SectionRanking(rows);
    assert forall i :: 0 <= i < |out| ==> RowSection(out[i]) == sk[i];
  }

  /** A section row counts each student once however many results they
      have: between one and `total_exams` students. */
  lemma StudentsWithinExams(rows: seq<ResultRow>)
    ensures forall i :: 0 <= i < |SectionRanking(rows)| ==>
      1 <= SectionRanking(rows)[i].totalStudents <= SectionRanking(rows)[i].totalExams
  {
    var entries := RankEntries(rows);
    var out := SectionRanking(rows);
    SectionRankingRows(rows);
    forall i | 0 <= i < |out| ensures 1 <= out[i].totalStudents <= out[i].totalExams {
      var m := Members(entries, EntrySection, RowSection(out[i]));
      MembersOfKey(entries, EntrySection, RowSection(out[i]));
      KeysCover(m, EntryStudent);
      assert EntryStudent(m[0]) in Keys(m, EntryStudent);
    }
  }

  /** The ranking reads exactly the non-guest results whose student belongs
      to a section, in stored order. */
  lemma RankEntriesExactly(rows: seq<ResultRow>)
    ensures forall e :: e in RankEntries(rows) ==> exists r :: r in rows && Ranked(r) && e == EntryOf(r)
    ensures forall r :: r in rows && Ranked(r) ==> EntryOf(r) in RankEntries(rows)
  {
    var kept := Filter(rows, Ranked);
    var e := RankEntries(rows);
    FilterIn(rows, Ranked);
    forall x | x in e ensures exists r :: r in rows && Ranked(r) && x == EntryOf(r) {
      var i :| 0 <= i < |e| && e[i] == x;
      assert kept[i] in kept;
    }
    forall r | r in rows && Ranked(r) ensures EntryOf(r) in e {
      var i :| 0 <= i < |kept| && kept[i] == r;
      assert e[i] == EntryOf(r);
    }
  }

  lemma RankedIgnoresGuests(rows: seq<ResultRow>)
    ensures RankEntries(rows) == RankEntries(NonGuests(rows))
  {
    FilterNarrower(rows, NotGuest, Ranked);
  }
  // ---------------------------------------------------------------------

  /** Guest results never show in any report: two result stores with the
      same non-guest rows produce the same performance report, subject
      statistics, section ranking and spreadsheet. */
  lemma GuestsNeverCount(a: seq<ResultRow>, b: seq<ResultRow>, f: Filters)
    requires NonGuests(a) == NonGuests(b)
    ensures PerformanceReports(a, f) == PerformanceReports(b, f)
    ensures OverallStats(a, f) == OverallStats(b, f)
    ensures SectionRanking(a) == SectionRanking(b)
    ensures ExcelRows(PerformanceReports(a, f)) == ExcelRows(PerformanceReports(b, f))
  {
    SelectedIgnoresGuests(a, f);
    SelectedIgnoresGuests(b, f);
    SelectedIgnoresGuests(a, StatsFilters(f));
    SelectedIgnoresGuests(b, StatsFilters(f));
    RankedIgnoresGuests(a);
    RankedIgnoresGuests(b);
  }
}
