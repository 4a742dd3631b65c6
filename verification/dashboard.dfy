/** The student dashboard (`student/Dashboard.tsx`): the active exams grouped
    by subject, the result shown against each exam, and the two statistics
    under them (completed attempts and average percentage). */
module Dashboard {
  import opened Wrappers
  import opened Domain
  import opened Text
  import opened Grouping
  import Format

  /** An exam as `GET /exams` lists it; its subject may be missing. */
  datatype Card = Card(examId: nat, isActive: bool, subject: Option<Subject>)

  /** One `{ subject, exams }` group. */
  datatype Group = Group(subject: Subject, exams: seq<Card>)

  /** One row of `GET /exams/my/results`; the percentage is the text of a
      `decimal(5,2)` column. */
  datatype MyResult = MyResult(examId: nat, percentage: string)

  function IsActive(c: Card): bool { c.isActive }

  /** `exams.filter((e) => e.is_active)`. */
  function ActiveExams(exams: seq<Card>): seq<Card> {
    Filter(exams, IsActive)
  }

  /** The exam belongs to subject `k`. */
  function InSubject(k: nat): Card -> bool {
    (c: Card) => c.subject.Some? && c.subject.value.id == k
  }

  // ---------------------------------------------------------------------
  // The grouping reduction

  /** Group keys in enumeration order: strictly ascending subject ids. */
  predicate KeysAscending(gs: seq<Group>) {
    forall i, j :: 0 <= i < j < |gs| ==> gs[i].subject.id < gs[j].subject.id
  }

  /** `acc[k]`: the group stored under subject id `k`. */
  function GroupAt(gs: seq<Group>, k: nat): Option<Group> {
    if |gs| == 0 then None
    else if gs[0].subject.id == k then Some(gs[0])
    else GroupAt(gs[1..], k)
  }

  /** One step of the reduction for an exam with subject `s`: a new group
      `{ subject: s, exams: [c] }` when `acc[s.id]` is unset, otherwise `c`
      pushed onto the existing group, whose subject stays the first one seen. */
  function Push(gs: seq<Group>, s: Subject, c: Card): (r: seq<Group>)
    requires KeysAscending(gs)
    ensures KeysAscending(r)
    ensures forall i :: 0 <= i < |r| ==> r[i].subject.id == s.id || exists j :: 0 <= j < |gs| && gs[j].subject.id == r[i].subject.id
  {
    if |gs| == 0 then [Group(s, [c])]
    else if gs[0].subject.id == s.id then
      var r := [gs[0].(exams := gs[0].exams + [c])] + gs[1..];
      assert forall i :: 1 <= i < |r| ==> r[i] == gs[i];
      r
    else if s.id < gs[0].subject.id then
      var r := [Group(s, [c])] + gs;
      assert forall i :: 1 <= i < |r| ==> r[i] == gs[i - 1];
      r
    else
      var rest := Push(gs[1..], s, c);
      PushBehindHead(gs, s, rest);
      [gs[0]] + rest
  }

  /** The recursive step of `Push`: a tail pushed behind a smaller head
      keeps the keys ascending and drawn from `gs` and `s`. */
  lemma PushBehindHead(gs: seq<Group>, s: Subject, rest: seq<Group>)
    requires KeysAscending(gs) && |gs| > 0 && gs[0].subject.id < s.id
    requires KeysAscending(rest)
    requires forall i :: 0 <= i < |rest| ==>
      rest[i].subject.id == s.id || exists j :: 0 <= j < |gs[1..]| && gs[1..][j].subject.id == rest[i].subject.id
    ensures KeysAscending([gs[0]] + rest)
    ensures forall i :: 0 <= i < |[gs[0]] + rest| ==>
      ([gs[0]] + rest)[i].subject.id == s.id
      || exists j :: 0 <= j < |gs| && gs[j].subject.id == ([gs[0]] + rest)[i].subject.id
  {
    forall i | 0 <= i < |rest|
      ensures gs[0].subject.id < rest[i].subject.id
      ensures rest[i].subject.id == s.id || exists j :: 0 <= j < |gs| && gs[j].subject.id == rest[i].subject.id
    {
      if rest[i].subject.id != s.id {
        var m :| 0 <= m < |gs[1..]| && gs[1..][m].subject.id == rest[i].subject.id;
        assert gs[m + 1].subject.id == rest[i].subject.id;
      }
    }
    ConsAscending(gs[0], rest);
    var r := [gs[0]] + rest;
    assert forall i :: 1 <= i < |r| ==> r[i] == rest[i - 1];
    assert r[0].subject.id == gs[0].subject.id;
  }

  /** A group whose key is below every key of an ascending list can lead
      it. */
  lemma ConsAscending(g: Group, rest: seq<Group>)
    requires KeysAscending(rest)
    requires forall i :: 0 <= i < |rest| ==> g.subject.id < rest[i].subject.id
    ensures KeysAscending([g] + rest)
  {
    var r := [g] + rest;
    forall i, j | 0 <= i < j < |r|
      ensures r[i].subject.id < r[j].subject.id
    {
      assert r[j] == rest[j - 1];
      if i > 0 {
        assert r[i] == rest[i - 1];
      }
    }
  }

  /** Pushing `c` under `s.id` changes that group alone. */
  lemma {:induction false} PushGroupAt(gs: seq<Group>, s: Subject, c: Card, k: nat)
    requires KeysAscending(gs)
    ensures k != s.id ==> GroupAt(Push(gs, s, c), k) == GroupAt(gs, k)
    ensures k == s.id && GroupAt(gs, k).None? ==> GroupAt(Push(gs, s, c), k) == Some(Group(s, [c]))
    ensures k == s.id && GroupAt(gs, k).Some? ==>
      GroupAt(Push(gs, s, c), k) == Some(GroupAt(gs, k).value.(exams := GroupAt(gs, k).value.exams + [c]))
  {
    if |gs| == 0 {
    } else if gs[0].subject.id == s.id {
    } else if s.id < gs[0].subject.id {
      if k == s.id {
        GroupAtBelow(gs, k);
      }
    } else {
      PushGroupAt(gs[1..], s, c, k);
    }
  }

  /** No group is stored under a key below the first one. */
  lemma {:induction false} GroupAtBelow(gs: seq<Group>, k: nat)
    requires KeysAscending(gs)
    requires |gs| > 0 && k < gs[0].subject.id
    ensures GroupAt(gs, k).None?
  {
    if |gs| > 1 {
      GroupAtBelow(gs[1..], k);
    }
  }

  /** `exams.reduce(...)` over the active exams, in list order; exams without
      a subject are skipped. */
  function Reduce(exams: seq<Card>): (r: seq<Group>)
    ensures KeysAscending(r)
  {
    if |exams| == 0 then []
    else
      var acc := Reduce(exams[..|exams| - 1]);
      var c := exams[|exams| - 1];
      if c.subject.None? then acc else Push(acc, c.subject.value, c)
  }

  /** The subject of the first exam of subject `k`. */
  function FirstSubject(exams: seq<Card>, k: nat): Option<Subject> {
    if |exams| == 0 then None
    else
      var before := FirstSubject(exams[..|exams| - 1], k);
      var c := exams[|exams| - 1];
      if before.Some? then before
      else if InSubject(k)(c) then c.subject
      else None
  }

  /** `Object.values(groupedExamsBySubject)`. */
  function AvailableSubjects(exams: seq<Card>): seq<Group> {
    Reduce(ActiveExams(exams))
  }

  /** Reference definition of the group of subject `k`: the subject of its
      first exam and all its exams in list order; none when no exam has it. */
  function ExpectedGroup(exams: seq<Card>, k: nat): Option<Group> {
    match FirstSubject(exams, k)
    case None => None
    case Some(s) => Some(Group(s, Filter(exams, InSubject(k))))
  }

  /** The reduction builds exactly the reference groups. */
  lemma {:induction false} ReduceGroups(exams: seq<Card>, k: nat)
    ensures GroupAt(Reduce(exams), k) == ExpectedGroup(exams, k)
  {
    if |exams| > 0 {
      var init := exams[..|exams| - 1];
      var c := exams[|exams| - 1];
      ReduceGroups(init, k);
      FirstSubjectFound(init, k);
      var acc := Reduce(init);
      var kept := Filter(init, InSubject(k));
      assert Filter(exams, InSubject(k)) == kept + (if InSubject(k)(c) then [c] else []);
      if c.subject.None? {
        assert Reduce(exams) == acc;
        assert !InSubject(k)(c);
        assert FirstSubject(exams, k) == FirstSubject(init, k);
        assert kept + [] == kept;
      } else {
        var s := c.subject.value;
        assert Reduce(exams) == Push(acc, s, c);
        PushGroupAt(acc, s, c, k);
        if s.id != k {
          assert !InSubject(k)(c);
          assert FirstSubject(exams, k) == FirstSubject(init, k);
          assert kept + [] == kept;
        } else if FirstSubject(init, k).None? {
          assert InSubject(k)(c);
          assert FirstSubject(exams, k) == Some(s);
          assert GroupAt(acc, k).None?;
          assert kept == [] && kept + [c] == [c];
        } else {
          assert InSubject(k)(c);
          assert FirstSubject(exams, k) == FirstSubject(init, k);
        }
      }
    }
  }

  /** A subject is found exactly when one of the exams has it, and then with
      that id. */
  lemma {:induction false} FirstSubjectFound(exams: seq<Card>, k: nat)
    ensures FirstSubject(exams, k).Some? ==> FirstSubject(exams, k).value.id == k
    ensures FirstSubject(exams, k).None? <==> Filter(exams, InSubject(k)) == []
  {
    if |exams| > 0 {
      FirstSubjectFound(exams[..|exams| - 1], k);
    }
  }

  /** In a key-ordered list every group is the one stored under its key. */
  lemma {:induction false} GroupAtOwnKey(gs: seq<Group>, i: nat)
    requires KeysAscending(gs) && i < |gs|
    ensures GroupAt(gs, gs[i].subject.id) == Some(gs[i])
  {
    if i > 0 {
      GroupAtOwnKey(gs[1..], i - 1);
    }
  }

  /** The displayed groups partition the active exams that have a subject:
      groups come in ascending subject id, each holds every active exam of
      its subject in list order and nothing else, none is empty, and a
      subject has a group exactly when some active exam has it. */
  lemma GroupsPartitionActive(exams: seq<Card>, k: nat)
    ensures var gs := AvailableSubjects(exams);
      && KeysAscending(gs)
      && (forall i :: 0 <= i < |gs| ==>
            && gs[i].exams == Filter(ActiveExams(exams), InSubject(gs[i].subject.id))
            && |gs[i].exams| > 0)
      && ((exists i :: 0 <= i < |gs| && gs[i].subject.id == k) <==> Filter(ActiveExams(exams), InSubject(k)) != [])
  {
    var active := ActiveExams(exams);
    var gs := AvailableSubjects(exams);
    forall i | 0 <= i < |gs|
      ensures gs[i].exams == Filter(active, InSubject(gs[i].subject.id)) && |gs[i].exams| > 0
    {
      GroupAtOwnKey(gs, i);
      ReduceGroups(active, gs[i].subject.id);
      FirstSubjectFound(active, gs[i].subject.id);
    }
    ReduceGroups(active, k);
    FirstSubjectFound(active, k);
    if Filter(active, InSubject(k)) != [] {
      var g := GroupAt(gs, k);
      GroupAtIndex(gs, k);
    }
  }

  /** A stored group sits at some position with its key. */
  lemma {:induction false} GroupAtIndex(gs: seq<Group>, k: nat)
    requires GroupAt(gs, k).Some?
    ensures exists i :: 0 <= i < |gs| && gs[i].subject.id == k
  {
    if gs[0].subject.id != k {
      GroupAtIndex(gs[1..], k);
      var i :| 0 <= i < |gs[1..]| && gs[1..][i].subject.id == k;
      assert gs[i + 1].subject.id == k;
    }
  }

  /** Inactive exams and exams without a subject are never displayed. */
  lemma OnlyActiveExamsShown(exams: seq<Card>, i: nat, c: Card)
    requires i < |AvailableSubjects(exams)| && c in AvailableSubjects(exams)[i].exams
    ensures c.isActive && c.subject.Some? && c in exams
  {
    var gs := AvailableSubjects(exams);
    GroupsPartitionActive(exams, 0);
    FilterIn(ActiveExams(exams), InSubject(gs[i].subject.id));
    FilterIn(exams, IsActive);
  }

  // ---------------------------------------------------------------------
  // Results

  /** `results.find((r) => r.exam_id === examId)`, as an index. */
  function ResultForExam(results: seq<MyResult>, examId: nat): (r: Option<nat>)
    ensures r.Some? ==> r.value < |results| && results[r.value].examId == examId
    ensures r.Some? ==> forall j :: 0 <= j < r.value ==> results[j].examId != examId
    ensures r.None? <==> forall j :: 0 <= j < |results| ==> results[j].examId != examId
  {
    if |results| == 0 then None
    else if results[0].examId == examId then Some(0)
    else
      match ResultForExam(results[1..], examId)
      case None => None
      case Some(i) => Some(i + 1)
  }

  // ---------------------------------------------------------------------
  // The average percentage

  /** `Math.round`: the nearest integer, halves rounded up. */
  function Round(x: real): (r: int)
    ensures r as real - 0.5 <= x < r as real + 0.5
  {
    (x + 0.5).Floor
  }

  function Pow10(n: nat): (r: nat)
    ensures r > 0
  {
    if n == 0 then 1 else 10 * Pow10(n - 1)
  }

  /** `Number(s)` on decimal literals: white space trimmed, digits, and at
      most one dot followed by digits; the empty text is 0. `None` stands for
      `NaN`. Signs, exponents, `Infinity` and hexadecimal literals are not
      covered (they read as `None` here). */
  function DecimalNumber(s: string): Option<real> {
    DecimalLiteral(Trim(s))
  }

  /** The value of a trimmed decimal literal. */
  function DecimalLiteral(t: string): Option<real> {
    var k := RunLength(t, 10);
    if k == |t| then Some(ValueIn(t, 10) as real)
    else if t[k] == '.' && AllDigitsIn(t[k + 1..], 10) && (k > 0 || k + 1 < |t|) then
      assert AllDigitsIn(t[..k], 10);
      Some(Compose(t[..k], t[k + 1..]))
    else None
  }

  /** Units and decimals read as one number. */
  function Compose(units: string, frac: string): real
    requires AllDigitsIn(units, 10) && AllDigitsIn(frac, 10)
  {
    ValueIn(units, 10) as real + ValueIn(frac, 10) as real / Pow10(|frac|) as real
  }

  /** Digits, a dot and digits read as units plus a fraction. */
  lemma DecimalParts(units: string, frac: string)
    requires |units| > 0 && AllDigitsIn(units, 10) && AllDigitsIn(frac, 10)
    ensures DecimalLiteral(units + "." + frac) == Some(Compose(units, frac))
  {
    var t := units + "." + frac;
    assert t == units + ("." + frac);
    RunOfDigitsThenStop(units, "." + frac);
    var k := RunLength(t, 10);
    assert k == |units| && k < |t| && t[k] == '.';
    assert t[..k] == units;
    assert t[k + 1..] == frac;
  }

  /** The text a stored `decimal(5,2)` percentage of `h` hundredths arrives
      as: units, a dot and two decimals. */
  function StoredText(h: nat): string {
    Format.FixedDigits(h)
  }

  function StoredTexts(hs: seq<nat>): (r: seq<string>)
    ensures |r| == |hs| && forall i :: 0 <= i < |hs| ==> r[i] == StoredText(hs[i])
  {
    seq(|hs|, i requires 0 <= i < |hs| => StoredText(hs[i]))
  }

  /** The stored text has its dot after the units and ends in a digit. */
  lemma StoredTextShape(h: nat)
    ensures var t := StoredText(h);
      var u := |NatToString(h / 100)|;
      && u + 3 == |t| && t[u] == '.' && IsDigit(t[0]) && IsDigit(t[|t| - 1])
  {
    Format.FixedDigitsReadBack(h);
    var t := StoredText(h);
    var units := NatToString(h / 100);
    assert t[0] == units[0];
    assert t[|t| - 1] == t[|units| + 1..][1];
  }

  /** A stored percentage text reads back as its value. */
  lemma StoredTextReadBack(h: nat)
    ensures DecimalNumber(StoredText(h)) == Some(h as real / 100.0)
  {
    var t := StoredText(h);
    var units := NatToString(h / 100);
    var frac := t[|units| + 1..];
    Format.FixedDigitsReadBack(h);
    StoredTextShape(h);
    assert t == units + "." + frac;
    ReadBackParts(units, frac);
    ComposeHundredths(units, frac, h);
    var c := Compose(units, frac);
    var v := h as real / 100.0;
    assert c == v;
    var o := DecimalNumber(t);
    assert o == Some(c);
  }

  lemma ReadBackParts(units: string, frac: string)
    requires |units| > 0 && AllDigitsIn(units, 10) && AllDigitsIn(frac, 10) && |frac| == 2
    requires IsDigit(units[0]) && IsDigit(frac[1])
    ensures DecimalNumber(units + "." + frac) == Some(Compose(units, frac))
  {
    var t := units + "." + frac;
    assert t[0] == units[0] && t[|t| - 1] == frac[1];
    TrimmedLiteral(t);
    DecimalParts(units, frac);
  }

  lemma TrimmedLiteral(t: string)
    requires |t| > 0 && IsDigit(t[0]) && IsDigit(t[|t| - 1])
    ensures DecimalNumber(t) == DecimalLiteral(t)
  {
    TrimFixed(t);
  }

  lemma ComposeHundredths(units: string, frac: string, h: nat)
    requires AllDigitsIn(units, 10) && AllDigitsIn(frac, 10) && |frac| == 2
    requires ValueIn(units, 10) * 100 + ValueIn(frac, 10) == h
    ensures Compose(units, frac) == h as real / 100.0
  {
    assert Pow10(|frac|) == 100;
    Hundredths(ValueIn(units, 10), ValueIn(frac, 10), h);
  }

  lemma Hundredths(a: nat, b: nat, h: nat)
    requires a * 100 + b == h
    ensures a as real + b as real / 100.0 == h as real / 100.0
  {
  }

  /** A text with two dots is not a number. */
  lemma TwoDotsNotANumber(s: string, i: nat, j: nat)
    requires i < j < |s| && s[i] == '.' && s[j] == '.'
    requires !IsSpace(s[0]) && !IsSpace(s[|s| - 1])
    ensures DecimalNumber(s).None?
  {
    TrimFixed(s);
  }

  /** The shape of a `decimal(5,2)` text: digits, a dot, two digits. */
  predicate DecimalShaped(t: string) {
    && |t| >= 4 && t[|t| - 3] == '.'
    && (forall k :: 0 <= k < |t| - 3 ==> IsDigit(t[k]))
    && IsDigit(t[|t| - 2]) && IsDigit(t[|t| - 1])
  }

  /** A text of that shape reads as its units plus its decimals. */
  lemma ShapedReadBack(t: string)
    requires DecimalShaped(t)
    ensures AllDigitsIn(t[..|t| - 3], 10) && AllDigitsIn(t[|t| - 2..], 10)
    ensures DecimalNumber(t) == Some(Compose(t[..|t| - 3], t[|t| - 2..]))
  {
    var units := t[..|t| - 3];
    var frac := t[|t| - 2..];
    assert t == units + "." + frac;
    assert units[0] == t[0];
    ReadBackParts(units, frac);
  }

  lemma StoredTextShaped(h: nat)
    ensures DecimalShaped(StoredText(h))
  {
    Format.FixedDigitsReadBack(h);
    var t := StoredText(h);
    var units := NatToString(h / 100);
    var frac := t[|units| + 1..];
    assert |t| == |units| + 3 && t[|units|] == '.';
    forall k | 0 <= k < |t| - 3 ensures IsDigit(t[k]) {
      assert t[k] == t[..|units|][k] == units[k];
    }
    assert |frac| == 2 && AllDigitsIn(frac, 10);
    assert DigitIn(frac[0], 10).Some? && DigitIn(frac[1], 10).Some?;
    assert t[|t| - 2] == frac[0] && t[|t| - 1] == frac[1];
  }

  /** A JavaScript value as `acc + r.percentage` produces it. */
  datatype JsValue = Num(n: int) | Str(s: string)

  /** JavaScript `+` with a string on the right: the left operand is
      converted to text and the two are concatenated. */
  function PlusText(acc: JsValue, t: string): JsValue {
    match acc
    case Num(n) => Str(IntToString(n) + t)
    case Str(s) => Str(s + t)
  }

  /** `results.reduce((acc, r) => acc + r.percentage, 0)` with the
      percentages as they arrive. */
  function SumAsWritten(texts: seq<string>): JsValue {
    if |texts| == 0 then Num(0)
    else PlusText(SumAsWritten(texts[..|texts| - 1]), texts[|texts| - 1])
  }

  /** The texts written one after the other. */
  function Joined(texts: seq<string>): string {
    if |texts| == 0 then "" else Joined(texts[..|texts| - 1]) + texts[|texts| - 1]
  }

  /** `Number(v)`. */
  function ToNumber(v: JsValue): Option<real> {
    match v
    case Num(n) => Some(n as real)
    case Str(s) => DecimalNumber(s)
  }

  /** The average as written: the reduced value divided by the count and
      rounded; 0 without results. `None` is the `NaN` the page then shows. */
  function AverageAsWritten(texts: seq<string>): Option<int> {
    if |texts| > 0 then
      match ToNumber(SumAsWritten(texts))
      case None => None
      case Some(v) => Some(Round(v / |texts| as real))
    else Some(0)
  }

  /** With at least one text the reduction is the text `"0"` followed by all
      of them. */
  lemma {:induction false} SumIsConcatenation(texts: seq<string>)
    requires |texts| > 0
    ensures SumAsWritten(texts) == Str("0" + Joined(texts))
  {
    var init := texts[..|texts| - 1];
    var last := texts[|texts| - 1];
    if |init| == 0 {
      ZeroText();
      assert Joined(texts) == last;
      assert SumAsWritten(texts) == PlusText(Num(0), last);
    } else {
      SumIsConcatenation(init);
      assert SumAsWritten(texts) == PlusText(SumAsWritten(init), last);
      assert Joined(texts) == Joined(init) + last;
      assert ("0" + Joined(init)) + last == "0" + (Joined(init) + last);
    }
  }

  /** `0` prints as `"0"`. */
  lemma ZeroText()
    ensures IntToString(0) == "0"
  {
    assert NatToString(0) == "0";
  }

  /** As written, two or more percentages in `decimal(5,2)` form average to
      `NaN`: the sum is a text with a dot from each of them. */
  lemma AsWrittenAverageIsNaN(texts: seq<string>)
    requires |texts| >= 2
    requires forall i :: 0 <= i < |texts| ==> DecimalShaped(texts[i])
    ensures AverageAsWritten(texts) == None
  {
    assert DecimalNumber("0" + Joined(texts)).None? by {
      JoinedNotANumber(texts);
    }
    SumIsConcatenation(texts);
  }

  lemma JoinedNotANumber(texts: seq<string>)
    requires |texts| >= 2
    requires forall i :: 0 <= i < |texts| ==> DecimalShaped(texts[i])
    ensures DecimalNumber("0" + Joined(texts)).None?
  {
    var n := |texts|;
    JoinedLastTwo(texts);
    var before, a, b := Joined(texts[..n - 2]), texts[n - 2], texts[n - 1];
    assert DecimalShaped(a) && DecimalShaped(b);
    DotsInSum(before, a, b);
  }

  lemma JoinedLastTwo(texts: seq<string>)
    requires |texts| >= 2
    ensures Joined(texts) == Joined(texts[..|texts| - 2]) + texts[|texts| - 2] + texts[|texts| - 1]
  {
    var n := |texts|;
    var init := texts[..n - 1];
    assert init[..n - 2] == texts[..n - 2];
    assert init[n - 2] == texts[n - 2];
    assert Joined(init) == Joined(texts[..n - 2]) + texts[n - 2];
  }

  /** `"0"` followed by texts whose last two each carry a dot is not a
      number. */
  lemma DotsInSum(before: string, a: string, b: string)
    requires DecimalShaped(a) && DecimalShaped(b)
    ensures DecimalNumber("0" + (before + a + b)).None?
  {
    var s := "0" + (before + a + b);
    var i := 1 + |before| + |a| - 3;
    var j := 1 + |before| + |a| + |b| - 3;
    assert s[i] == a[|a| - 3];
    assert s[j] == b[|b| - 3];
    assert s[|s| - 1] == b[|b| - 1];
    TwoDotsNotANumber(s, i, j);
  }

  /** Every stored percentage has that form, so any two results break the
      average. */
  lemma AsWrittenStoredAverageIsNaN(hs: seq<nat>)
    requires |hs| >= 2
    ensures AverageAsWritten(StoredTexts(hs)) == None
  {
    forall i | 0 <= i < |hs| ensures DecimalShaped(StoredTexts(hs)[i]) {
      StoredTextShaped(hs[i]);
    }
    AsWrittenAverageIsNaN(StoredTexts(hs));
  }

  // ----- The corrected average

  /** What `Number` makes of each text. */
  function Readings(texts: seq<string>): (r: seq<Option<real>>)
    ensures |r| == |texts|
  {
    seq(|texts|, i requires 0 <= i < |texts| => DecimalNumber(texts[i]))
  }

  /** The sum of the readings, or `None` when one of them is not a number. */
  function OptionTotal(ps: seq<Option<real>>): Option<real> {
    if |ps| == 0 then Some(0.0)
    else
      match (OptionTotal(ps[..|ps| - 1]), ps[|ps| - 1])
      case (Some(t), Some(v)) => Some(t + v)
      case _ => None
  }

  /** The evidently intended average: each percentage converted to a number
      before it is added, the mean rounded; 0 without results. */
  function Average(texts: seq<string>): Option<int> {
    if |texts| == 0 then Some(0)
    else
      match OptionTotal(Readings(texts))
      case None => None
      case Some(t) => Some(Round(t / |texts| as real))
  }

  function RealSum(vals: seq<real>): real {
    if |vals| == 0 then 0.0 else RealSum(vals[..|vals| - 1]) + vals[|vals| - 1]
  }

  lemma {:induction false} OptionTotalOf(ps: seq<Option<real>>, vals: seq<real>)
    requires |ps| == |vals|
    requires forall i :: 0 <= i < |ps| ==> ps[i] == Some(vals[i])
    ensures OptionTotal(ps) == Some(RealSum(vals))
  {
    if |ps| > 0 {
      OptionTotalOf(ps[..|ps| - 1], vals[..|vals| - 1]);
    }
  }

  lemma {:induction false} RealSumBounds(vals: seq<real>)
    requires forall i :: 0 <= i < |vals| ==> 0.0 <= vals[i] <= 100.0
    ensures 0.0 <= RealSum(vals) <= 100.0 * |vals| as real
  {
    if |vals| > 0 {
      RealSumBounds(vals[..|vals| - 1]);
    }
  }

  /** When every text reads as a number, the corrected average is the mean
      of those numbers rounded to the nearest integer (0 for no results),
      and it lies in [0, 100] when they all do. */
  lemma AverageOfNumbers(texts: seq<string>, vals: seq<real>)
    requires |texts| == |vals|
    requires forall i :: 0 <= i < |texts| ==> DecimalNumber(texts[i]) == Some(vals[i])
    ensures |vals| == 0 ==> Average(texts) == Some(0)
    ensures |vals| > 0 ==> Average(texts) == Some(Round(RealSum(vals) / |vals| as real))
    ensures (forall i :: 0 <= i < |vals| ==> 0.0 <= vals[i] <= 100.0) ==>
      0 <= Average(texts).value <= 100
  {
    AverageIsMean(texts, vals);
    if |vals| > 0 && forall i :: 0 <= i < |vals| ==> 0.0 <= vals[i] <= 100.0 {
      RealSumBounds(vals);
      RoundedMeanBounds(RealSum(vals), |vals|);
    }
  }

  /** The first half of `AverageOfNumbers`: the value, without the bounds. */
  lemma AverageIsMean(texts: seq<string>, vals: seq<real>)
    requires |texts| == |vals|
    requires forall i :: 0 <= i < |texts| ==> DecimalNumber(texts[i]) == Some(vals[i])
    ensures |vals| == 0 ==> Average(texts) == Some(0)
    ensures |vals| > 0 ==> Average(texts) == Some(Round(RealSum(vals) / |vals| as real))
  {
    var ps := Readings(texts);
    assert forall i :: 0 <= i < |ps| ==> ps[i] == Some(vals[i]);
    OptionTotalOf(ps, vals);
  }

  lemma RoundedMeanBounds(total: real, count: nat)
    requires count > 0 && 0.0 <= total <= 100.0 * count as real
    ensures 0 <= Round(total / count as real) <= 100
  {
    var n := count as real;
    assert n * 0.0 == 0.0 && 100.0 * n == n * 100.0;
    Grouping.Quotient(total, n, 0.0, 100.0);
  }

  lemma AverageOfTwo(a: string, b: string, x: real, y: real)
    requires DecimalNumber(a) == Some(x) && DecimalNumber(b) == Some(y)
    ensures Average([a, b]) == Some(Round((x + y) / 2.0))
  {
    var texts, vals := [a, b], [x, y];
    forall i | 0 <= i < |texts| ensures DecimalNumber(texts[i]) == Some(vals[i]) {
      if i == 0 { assert texts[i] == a; } else { assert texts[i] == b; }
    }
    AverageIsMean(texts, vals);
    RoundedMeanOfTwo(vals, x, y);
  }

  lemma RoundedMeanOfTwo(vals: seq<real>, x: real, y: real)
    requires vals == [x, y]
    ensures Round(RealSum(vals) / |vals| as real) == Round((x + y) / 2.0)
  {
    SumOfTwo(vals, x, y);
    MeanOfTwo(RealSum(vals), x + y, |vals|);
  }

  lemma SumOfTwo(vals: seq<real>, x: real, y: real)
    requires vals == [x, y]
    ensures RealSum(vals) == x + y
  {
    var one := vals[..1];
    assert one[..0] == [] && one[0] == x;
    assert RealSum(one) == x;
  }

  lemma MeanOfTwo(t: real, u: real, n: int)
    requires t == u && n == 2
    ensures Round(t / n as real) == Round(u / 2.0)
  {}

  /** The case the dashboard shows: results of 85% and 90% arrive as
      `"85.00"` and `"90.00"` and the average reads `NaN`... */
  lemma DashboardShowsNaN()
    ensures AverageAsWritten(["85.00", "90.00"]) == None
  {
    var texts := ["85.00", "90.00"];
    assert DecimalShaped(texts[0]) && DecimalShaped(texts[1]);
    AsWrittenAverageIsNaN(texts);
  }

  /** ...where two results reading as 85 and 90 average to 88. */
  lemma IntendedAverage(a: string, b: string)
    requires DecimalNumber(a) == Some(85.0) && DecimalNumber(b) == Some(90.0)
    ensures Average([a, b]) == Some(88)
  {
    AverageOfTwo(a, b, 85.0, 90.0);
    assert Round((85.0 + 90.0) / 2.0) == 88;
  }
}
